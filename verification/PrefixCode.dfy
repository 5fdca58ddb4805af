/** Bit strings, and prefix codes over them: what a Huffman table means, whatever its layout. */
module PrefixCode {

  import opened Wrappers
  import opened CodeString

  /** The low n bits of v in two's complement, most significant first. */
  function BitsOf(v: int, n: nat): (s: seq<bit>)
    ensures |s| == n
    decreases n
  {
    if n == 0 then [] else BitsOf(v / 2, n - 1) + [v % 2]
  }

  /** The number a bit string spells. */
  function Number(s: seq<bit>): nat {
    if s == [] then 0 else 2 * Number(s[..|s| - 1]) + s[|s| - 1]
  }

  lemma {:induction false} NumberBound(s: seq<bit>)
    ensures Number(s) < Shl(1, |s|)
  {
    if s != [] {
      NumberBound(s[..|s| - 1]);
    }
  }

  lemma {:induction false} BitsOfNumber(s: seq<bit>)
    ensures BitsOf(Number(s), |s|) == s
  {
    if s != [] {
      BitsOfNumber(s[..|s| - 1]);
    }
  }

  lemma {:induction false} NumberOfBits(v: nat, n: nat)
    requires v < Shl(1, n)
    ensures Number(BitsOf(v, n)) == v
  {
    if n > 0 {
      NumberOfBits(v / 2, n - 1);
    }
  }

  lemma {:induction false} NumberPlus(s: seq<bit>, t: seq<bit>)
    ensures Number(s + t) == Shl(Number(s), |t|) + Number(t)
  {
    if t == [] {
      assert s + t == s;
    } else {
      var u, b := t[..|t| - 1], t[|t| - 1];
      NumberPlus(s, u);
      assert s + t == (s + u) + [b];
      assert (s + u + [b])[..|s + u|] == s + u;
    }
  }

  /** Masking: only the low n bits of v reach the stream. */
  lemma {:induction false} BitsOfLow(v: int, w: int, n: nat)
    ensures BitsOf(Shl(v, n) + w, n) == BitsOf(w, n)
    decreases n
  {
    if n > 0 {
      BitsOfLow(v, w / 2, n - 1);
      assert (Shl(v, n) + w) / 2 == Shl(v, n - 1) + w / 2;
      assert (Shl(v, n) + w) % 2 == w % 2;
    }
  }

  /** Code words and the symbol each one stands for. */
  datatype Code = Code(words: seq<seq<bit>>, vals: seq<byte>)

  ghost predicate PrefixFree(c: Code) {
    && |c.words| == |c.vals|
    && (forall p :: 0 <= p < |c.words| ==> 1 <= |c.words[p]| <= 16)
    && forall p, q :: 0 <= p < |c.words| && 0 <= q < |c.words| && p != q ==> !(c.words[p] <= c.words[q])
  }

  /** Some code word begins the bit string. */
  ghost predicate Begins(c: Code, p: nat, s: seq<bit>) {
    p < |c.words| && c.words[p] <= s
  }

  /** The symbol whose code word begins the bit string, and the bits behind it; a zero
  after 17 bits that begin with no code word; nothing if more bits are needed to tell. */
  ghost function ReadSym(c: Code, s: seq<bit>): (r: Option<(byte, seq<bit>)>)
    requires PrefixFree(c)
    ensures r.Some? ==> |r.value.1| < |s| && s[|s| - |r.value.1|..] == r.value.1
  {
    if exists p: nat :: Begins(c, p, s) then
      var p: nat :| Begins(c, p, s);
      Some((c.vals[p], s[|c.words[p]|..]))
    else if |s| >= 17 then Some((0, s[17..]))
    else None
  }

  lemma ShorterIsPrefix(v: seq<bit>, w: seq<bit>, s: seq<bit>)
    requires v <= s && w <= s && |v| <= |w|
    ensures v <= w
  {
    assert v == s[..|v|] == w[..|v|];
  }

  lemma ReadWord(c: Code, p: nat, s: seq<bit>)
    requires PrefixFree(c) && Begins(c, p, s)
    ensures ReadSym(c, s) == Some((c.vals[p], s[|c.words[p]|..]))
  {
    forall q: nat | Begins(c, q, s)
      ensures q == p
    {
      var v, w := c.words[p], c.words[q];
      if |v| <= |w| {
        ShorterIsPrefix(v, w, s);
      } else {
        ShorterIsPrefix(w, v, s);
      }
    }
  }

  /** Reading back a code word. */
  lemma ReadBack(c: Code, p: nat, rest: seq<bit>)
    requires PrefixFree(c) && p < |c.words|
    ensures ReadSym(c, c.words[p] + rest) == Some((c.vals[p], rest))
  {
    var s := c.words[p] + rest;
    assert s[..|c.words[p]|] == c.words[p];
    assert Begins(c, p, s);
    ReadWord(c, p, s);
    assert s[|c.words[p]|..] == rest;
  }

  /** The next n bits as a number. */
  function ReadBits(n: nat, s: seq<bit>): Option<(nat, seq<bit>)> {
    if n <= |s| then Some((Number(s[..n]), s[n..])) else None
  }
}
