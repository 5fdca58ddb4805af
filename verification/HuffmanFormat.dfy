/** The coded format of the Huffman coders in plain numbers: bit order and the assignment of
codes, as Annex C of ITU-T Rec. T.81 fixes them. */
module HuffmanFormat {

  import opened Wrappers
  import opened CodeString
  import opened PrefixCode
  import opened CanonicalCode
  import opened DerivedTables
  import opened BitStream

  /** Bits go out from the most significant one. */
  lemma {:induction false} BitsLaw(v: nat, n: nat, i: nat)
    requires i < n
    ensures BitsOf(v, n)[i] == Shr(v, n - 1 - i) % 2
    decreases n
  {
    if i < n - 1 {
      BitsLaw(v / 2, n - 1, i);
      ShrHalf(v, n - 2 - i);
    }
  }

  /** Bytes in order, each from its most significant bit. */
  lemma {:induction false} BytesLaw(s: seq<byte>, k: nat, i: nat)
    requires k < |s| && i < 8
    ensures |ByteBits(s)| == 8 * |s| && ByteBits(s)[8 * k + i] == Shr(s[k], 7 - i) % 2
    decreases |s|
  {
    hide BitsOf, Shr;
    var n := |s| - 1;
    BytesLength(s);
    BytesLength(s[..n]);
    if k == n {
      BitsLaw(s[n], 8, i);
    } else {
      BytesLaw(s[..n], k, i);
    }
  }

  lemma {:induction false} BytesLength(s: seq<byte>)
    ensures |ByteBits(s)| == 8 * |s|
  {
    if s != [] {
      BytesLength(s[..|s| - 1]);
    }
  }

  /** Figure C.1: bits[l] words of length l, shorter ones first. */
  lemma {:induction false} LengthsLaw(h: HuffTbl, l: nat, m: nat)
    requires Typed(h) && 1 <= l <= m <= 16
    ensures Lengths(h, 0) == [] && |Lengths(h, l)| == |Lengths(h, l - 1)| + h.bits[l]
    ensures |Lengths(h, l)| <= |Lengths(h, m)|
    ensures forall p :: |Lengths(h, l - 1)| <= p < |Lengths(h, l)| ==> Lengths(h, m)[p] == l
    decreases m
  {
    if l < m {
      LengthsLaw(h, l, m - 1);
    }
  }

  /** Figure C.2: codes start at zero, and each is the one before plus one, with zeros appended
  where the length grows. */
  lemma CodesLaw(sizes: seq<nat>, p: nat)
    requires Sorted(sizes) && p < |sizes|
    ensures p == 0 ==> Codes(sizes)[0] == 0
    ensures p > 0 ==> sizes[p] >= sizes[p - 1] && Codes(sizes)[p] == Shl(Codes(sizes)[p - 1] + 1, sizes[p] - sizes[p - 1])
  {
    hide Shl, Weight, Codes;
    var c := Codes(sizes);
    if p == 0 {
      ShlOfZero(16 - sizes[0]);
      assert Weight(sizes, 0) == 0 by {
        NoWeight(sizes);
      }
      SameShift(c[0], 0, 16 - sizes[0]);
    } else {
      var d, e := sizes[p] - sizes[p - 1], 16 - sizes[p];
      WeightNext(sizes, p - 1);
      ShlPlus(c[p - 1], 1, 16 - sizes[p - 1]);
      ShlShl(c[p - 1] + 1, d, e);
      SameShift(c[p], Shl(c[p - 1] + 1, d), e);
    }
  }

  lemma NoWeight(sizes: seq<nat>)
    requires Sorted(sizes)
    ensures Weight(sizes, 0) == 0
  {
  }

  lemma SameShift(x: int, y: int, e: nat)
    requires Shl(x, e) == Shl(y, e)
    ensures x == y
  {
    ShlMonotone(x, y, e);
    ShlMonotone(y, x, e);
  }

  /** Word p of a table is code p of its length and stands for the p'th value. */
  lemma TableLaw(h: HuffTbl, p: nat)
    requires Accepted(h) && p < |Lengths(h, 16)|
    ensures Sorted(Lengths(h, 16)) && |CodeOf(h).words| == |Lengths(h, 16)| && CodeOf(h).vals[p] == h.huffval[p]
    ensures CodeOf(h).words[p] == BitsOf(Codes(Lengths(h, 16))[p], Lengths(h, 16)[p])
  {
    hide Codes, Lengths, Weight, BitsOf;
  }

  /** A table can be used for encoding if its values differ and, for DC, are at most 15. */
  lemma ValuesLaw(h: HuffTbl, isDC: bool)
    requires Accepted(h)
    ensures |Lengths(h, 16)| <= 256
    ensures Encodable(h, isDC) <==>
      && (forall p, q :: 0 <= p < q < |Lengths(h, 16)| ==> h.huffval[p] != h.huffval[q])
      && (isDC ==> forall p :: 0 <= p < |Lengths(h, 16)| ==> h.huffval[p] <= 15)
  {
    hide Lengths, Legal;
    var vals := Symbols(h);
    assert forall p :: 0 <= p < |vals| ==> vals[p] == h.huffval[p];
  }

  /** A word read is its symbol; seventeen bits that begin with no word are thrown away for a 0. */
  lemma ReadLaw(c: Code, p: nat, s: seq<bit>)
    requires PrefixFree(c) && |c.vals| == |c.words|
    ensures p < |c.words| && c.words[p] <= s ==> ReadSym(c, s) == Some((c.vals[p], s[|c.words[p]|..]))
    ensures |s| >= 17 && (forall q :: 0 <= q < |c.words| ==> !(c.words[q] <= s)) ==> ReadSym(c, s) == Some((0, s[17..]))
  {
    if p < |c.words| && c.words[p] <= s {
      ReadWord(c, p, s);
    }
  }

  /** Section B.1.1.2: FF bytes and then a zero are one data byte FF, FF bytes and then another
  byte a marker, any other byte is data. */
  lemma {:induction false} FetchLaw(n: nat, b: byte, t: seq<byte>)
    ensures b != 255 ==> Next([b] + t) == Data(b, t)
    ensures n > 0 ==> Next(Repeat(255, n) + ([0] + t)) == Data(255, t)
    ensures n > 0 && 0 < b < 255 ==> Next(Repeat(255, n) + ([b] + t)) == Marker(b, t)
    ensures Next([]) == Dry
  {
    assert ([b] + t)[1..] == t && ([0] + t)[1..] == t;
    if n > 0 {
      FillLaw(n - 1, b, t);
      FillHead(n, [0] + t);
      FillHead(n, [b] + t);
    }
  }

  lemma FillHead(n: nat, u: seq<byte>)
    requires n > 0
    ensures var s := Repeat(255, n) + u; s != [] && s[0] == 255 && s[1..] == Repeat(255, n - 1) + u
  {
    var s := Repeat(255, n) + u;
    assert Repeat(255, n)[1..] == Repeat(255, n - 1);
    assert s[1..] == Repeat(255, n)[1..] + u;
  }

  lemma {:induction false} FillLaw(n: nat, b: byte, t: seq<byte>)
    ensures AfterFF(Repeat(255, n) + ([0] + t)) == Data(255, t)
    ensures 0 < b < 255 ==> AfterFF(Repeat(255, n) + ([b] + t)) == Marker(b, t)
  {
    if n == 0 {
      assert [] + ([0] + t) == [0] + t && ([0] + t)[1..] == t;
      assert [] + ([b] + t) == [b] + t && ([b] + t)[1..] == t;
    } else {
      FillLaw(n - 1, b, t);
      FillHead(n, [0] + t);
      FillHead(n, [b] + t);
    }
  }

  /** What fills up the last byte of a segment, and what is made up behind a marker. */
  lemma {:induction false} PaddingLaw(n: nat, i: nat)
    requires i < n
    ensures Ones(n)[i] == 1 && Zeros(n)[i] == 0
  {
    if i < n - 1 {
      PaddingLaw(n - 1, i);
    }
  }
}
