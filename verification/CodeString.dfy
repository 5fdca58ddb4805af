/** Bytes, code strings and the byte stuffing shared by every entropy coder.

A code string is read as an unbounded string of bits, most significant bit of
each byte first; positions past the last byte read as zero.  That is the
convention the arithmetic decoder follows once it has met a marker. */
module CodeString {

  type byte = b: int | 0 <= b < 256

  type bit = b: int | 0 <= b <= 1

  /** `x << e`. */
  function Shl(x: int, e: nat): int
    decreases e
  {
    if e == 0 then x else 2 * Shl(x, e - 1)
  }

  lemma {:induction false} ShlPlus(x: int, y: int, e: nat)
    ensures Shl(x + y, e) == Shl(x, e) + Shl(y, e)
  {
    if e > 0 {
      ShlPlus(x, y, e - 1);
    }
  }

  lemma {:induction false} ShlShl(x: int, d: nat, e: nat)
    ensures Shl(Shl(x, d), e) == Shl(x, d + e)
  {
    if e > 0 {
      ShlShl(x, d, e - 1);
    }
  }

  lemma {:induction false} ShlMonotone(x: int, y: int, e: nat)
    ensures x < y <==> Shl(x, e) < Shl(y, e)
  {
    if e > 0 {
      ShlMonotone(x, y, e - 1);
    }
  }

  lemma {:induction false} ShlTwice(x: int, e: nat)
    ensures Shl(2 * x, e) == Shl(x, e + 1)
  {
    ShlShl(x, 1, e);
    assert Shl(x, 1) == 2 * x;
  }

  lemma ShlDouble(x: int, e: nat)
    ensures Shl(x, e + 1) == 2 * Shl(x, e)
  {
  }

  lemma ShlByte(x: int)
    ensures Shl(x, 8) == 256 * x
  {
    assert Shl(x, 2) == 4 * x;
    assert Shl(x, 4) == 16 * x;
    assert Shl(x, 6) == 64 * x;
  }

  /** Byte i of a code string, zero past its end. */
  function ByteAt(s: seq<byte>, i: nat): byte {
    if i < |s| then s[i] else 0
  }

  /** `v >> i` on a nonnegative v. */
  function Shr(v: nat, i: nat): nat
    decreases i
  {
    if i == 0 then v else Shr(v, i - 1) / 2
  }

  /** Bit i of a code string. */
  function BitAt(s: seq<byte>, i: nat): (b: nat)
    ensures b <= 1
  {
    Shr(ByteAt(s, i / 8), 7 - i % 8) % 2
  }

  /** The number spelled by the first m bits of a code string. */
  function Bits(s: seq<byte>, m: nat): nat {
    if m == 0 then 0 else 2 * Bits(s, m - 1) + BitAt(s, m - 1)
  }

  /** The big-endian number spelled by whole bytes. */
  function Value(s: seq<byte>): nat {
    if s == [] then 0 else 256 * Value(s[..|s| - 1]) + s[|s| - 1]
  }

  function Repeat(b: byte, k: nat): (s: seq<byte>)
    ensures |s| == k && forall i :: 0 <= i < k ==> s[i] == b
  {
    if k == 0 then [] else Repeat(b, k - 1) + [b]
  }

  lemma ShrStep(v: nat, i: nat)
    ensures Shr(v, i) == 2 * Shr(v, i + 1) + Shr(v, i) % 2
  {
  }

  lemma {:induction false} ShrBound(v: nat, i: nat, y: nat)
    requires v < Shl(y, i)
    ensures Shr(v, i) < y
  {
    if i > 0 {
      ShlTwice(y, i - 1);
      ShrBound(v, i - 1, 2 * y);
    }
  }

  lemma BitOfByte(s: seq<byte>, k: nat, j: nat)
    requires j < 8
    ensures Bits(s, 8 * k + j + 1) == 2 * Bits(s, 8 * k + j) + Shr(ByteAt(s, k), 7 - j) % 2
  {
    assert (8 * k + j) / 8 == k && (8 * k + j) % 8 == j;
  }

  lemma {:induction false} BitsInByte(s: seq<byte>, k: nat, j: nat)
    requires j <= 8
    ensures Bits(s, 8 * k + j) == Shl(Bits(s, 8 * k), j) + Shr(ByteAt(s, k), 8 - j)
  {
    var v := ByteAt(s, k);
    if j == 0 {
      ShlByte(1);
      ShrBound(v, 8, 1);
    } else {
      BitsInByte(s, k, j - 1);
      BitOfByte(s, k, j - 1);
      ShrStep(v, 8 - j);
    }
  }

  /** Eight bits make one byte. */
  lemma BitsOfByte(s: seq<byte>, k: nat)
    ensures Bits(s, 8 * (k + 1)) == 256 * Bits(s, 8 * k) + ByteAt(s, k)
  {
    BitsInByte(s, k, 8);
    ShlByte(Bits(s, 8 * k));
  }

  /** Bits is a function of the bytes alone, so trailing zeros do not matter. */
  lemma {:induction false} BitsCongruent(s: seq<byte>, t: seq<byte>, m: nat)
    requires forall i: nat :: ByteAt(s, i) == ByteAt(t, i)
    ensures Bits(s, m) == Bits(t, m)
  {
    if m > 0 {
      BitsCongruent(s, t, m - 1);
      assert ByteAt(s, (m - 1) / 8) == ByteAt(t, (m - 1) / 8);
    }
  }

  lemma {:induction false} BitsOfPrefix(s: seq<byte>, t: seq<byte>, k: nat)
    requires k <= |s| && k <= |t| && s[..k] == t[..k]
    ensures Bits(s, 8 * k) == Bits(t, 8 * k)
  {
    if k > 0 {
      assert s[..k - 1] == s[..k][..k - 1] == t[..k - 1];
      BitsOfPrefix(s, t, k - 1);
      BitsOfByte(s, k - 1);
      BitsOfByte(t, k - 1);
      assert s[k - 1] == s[..k][k - 1] == t[k - 1];
    }
  }

  lemma {:induction false} BitsAreValue(s: seq<byte>)
    ensures Bits(s, 8 * |s|) == Value(s)
  {
    if s != [] {
      var p := s[..|s| - 1];
      BitsAreValue(p);
      BitsOfPrefix(s, p, |p|);
      BitsOfByte(s, |p|);
    }
  }

  /** Past the end of the string every bit is zero. */
  lemma {:induction false} BitsPastEnd(s: seq<byte>, m: nat, j: nat)
    requires 8 * |s| <= m
    ensures Bits(s, m + j) == Shl(Bits(s, m), j)
  {
    if j > 0 {
      BitsPastEnd(s, m, j - 1);
      ShrOfZero(7 - (m + j - 1) % 8);
    }
  }

  lemma {:induction false} ShrOfZero(i: nat)
    ensures Shr(0, i) == 0
  {
    if i > 0 {
      ShrOfZero(i - 1);
    }
  }

  /** Comparing with a shifted bound only needs the leading bits. */
  lemma {:induction false} BitsCompare(s: seq<byte>, m: nat, j: nat, x: nat)
    ensures Bits(s, m + j) >= Shl(x, j) <==> Bits(s, m) >= x
  {
    if j > 0 {
      BitsCompare(s, m, j - 1, x);
    }
  }

  lemma {:induction false} BitsBound(s: seq<byte>, m: nat)
    ensures Bits(s, m) < Shl(1, m)
  {
    if m > 0 {
      BitsBound(s, m - 1);
    }
  }

  lemma ValueAppend(s: seq<byte>, b: byte)
    ensures Value(s + [b]) == 256 * Value(s) + b
  {
    assert (s + [b])[..|s|] == s;
  }

  lemma Assoc<T>(p: seq<T>, q: seq<T>, r: seq<T>)
    ensures p + (q + r) == (p + q) + r
  {
  }

  /** A carry into `p b FF..FF` ripples through the stacked FF bytes. */
  lemma {:induction false} CarryRipple(p: seq<byte>, b: byte, k: nat)
    requires b < 255
    ensures Value(p + [b + 1] + Repeat(0, k)) == Value(p + [b] + Repeat(255, k)) + 1
  {
    var x, y := p + [b + 1], p + [b];
    if k == 0 {
      assert x + [] == x && y + [] == y;
      ValueAppend(p, b);
      ValueAppend(p, b + 1);
    } else {
      CarryRipple(p, b, k - 1);
      Assoc(x, Repeat(0, k - 1), [0]);
      Assoc(y, Repeat(255, k - 1), [255]);
      ValueAppend(x + Repeat(0, k - 1), 0);
      ValueAppend(y + Repeat(255, k - 1), 255);
    }
  }

  lemma {:induction false} ValueOfOnes(k: nat)
    ensures Value(Repeat(255, k)) == Shl(1, 8 * k) - 1
  {
    if k > 0 {
      ValueOfOnes(k - 1);
      ValueAppend(Repeat(255, k - 1), 255);
      ShlShl(1, 8 * (k - 1), 8);
      ShlByte(Shl(1, 8 * (k - 1)));
    }
  }

  /** Section F.1.2.3 and D.1.6 of ITU-T Rec. T.81: a zero byte follows every 0xFF data byte. */
  function Stuff(s: seq<byte>): seq<byte> {
    if s == [] then []
    else Stuff(s[..|s| - 1]) + StuffOne(s[|s| - 1])
  }

  function StuffOne(b: byte): seq<byte> {
    if b == 255 then [255, 0] else [b]
  }

  lemma StuffAppend(s: seq<byte>, b: byte)
    ensures Stuff(s + [b]) == Stuff(s) + StuffOne(b)
  {
    assert (s + [b])[..|s|] == s;
  }

  lemma {:induction false} StuffPlus(s: seq<byte>, t: seq<byte>)
    ensures Stuff(s + t) == Stuff(s) + Stuff(t)
  {
    if t == [] {
      assert s + t == s;
    } else {
      var u, b := t[..|t| - 1], t[|t| - 1];
      assert t == u + [b];
      StuffPlus(s, u);
      Assoc(s, u, [b]);
      StuffAppend(s + u, b);
      Assoc(Stuff(s), Stuff(u), StuffOne(b));
    }
  }

  lemma StuffHead(b: byte, t: seq<byte>)
    ensures Stuff([b] + t) == StuffOne(b) + Stuff(t)
  {
    StuffPlus([b], t);
    StuffAppend([], b);
    assert [] + [b] == [b];
  }

  /** An FF byte is followed by a zero, every other byte stands alone. */
  lemma StuffLaw(data: seq<byte>, b: byte)
    ensures Stuff([]) == [] && Stuff(data + [255]) == Stuff(data) + [255, 0] && (b != 255 ==> Stuff(data + [b]) == Stuff(data) + [b])
  {
    StuffAppend(data, 255);
    StuffAppend(data, b);
  }
}
