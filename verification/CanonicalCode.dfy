/** Canonical Huffman codes per Annex C of ITU-T Rec. T.81, as numbers.

Seen on 16 bits, the code words of a canonical code are adjacent intervals: word p
covers the 16-bit strings from Weight(p) up to, not including, Weight(p + 1). */
module CanonicalCode {

  import opened CodeString
  import opened PrefixCode

  const MAX_LENGTH := 16

  /** Code lengths in the order codes are assigned. */
  ghost predicate Sorted(sizes: seq<nat>) {
    && (forall p :: 0 <= p < |sizes| ==> 1 <= sizes[p] <= MAX_LENGTH)
    && forall p, q :: 0 <= p <= q < |sizes| ==> sizes[p] <= sizes[q]
  }

  /** How many 16-bit strings the first p code words account for. */
  ghost function Weight(sizes: seq<nat>, p: nat): nat
    requires p <= |sizes| && Sorted(sizes)
  {
    if p == 0 then 0
    else
      ShlPositive(16 - sizes[p - 1]);
      Weight(sizes, p - 1) + Shl(1, 16 - sizes[p - 1])
  }

  lemma {:induction false} ShlPositive(e: nat)
    ensures Shl(1, e) > 0
  {
    if e > 0 {
      ShlPositive(e - 1);
    }
  }

  lemma {:induction false} ShlGrows(i: nat, m: nat)
    requires m <= i
    ensures Shl(1, i) >= Shl(1, m)
  {
    if m < i {
      ShlGrows(i - 1, m);
      ShlPositive(i - 1);
    }
  }

  /** Every word has a code, and the word of all ones is left unused. */
  ghost predicate Legal(sizes: seq<nat>) {
    Sorted(sizes) && Weight(sizes, |sizes|) < 0x10000
  }

  ghost predicate Assigned(sizes: seq<nat>, codes: seq<nat>) {
    && Sorted(sizes) && |codes| == |sizes|
    && forall p :: 0 <= p < |sizes| ==> Shl(codes[p], 16 - sizes[p]) == Weight(sizes, p)
  }

  lemma {:induction false} WeightMonotone(sizes: seq<nat>, p: nat, q: nat)
    requires Sorted(sizes) && p <= q <= |sizes|
    ensures Weight(sizes, p) <= Weight(sizes, q)
    decreases q - p
  {
    if p < q {
      WeightMonotone(sizes, p, q - 1);
      ShlPositive(16 - sizes[q - 1]);
    }
  }

  lemma WeightNext(sizes: seq<nat>, p: nat)
    requires Sorted(sizes) && p < |sizes|
    ensures Weight(sizes, p + 1) == Weight(sizes, p) + Shl(1, 16 - sizes[p])
  {
  }

  /** Code p fits its length with room for another code above it. */
  lemma CodeFits(sizes: seq<nat>, codes: seq<nat>, p: nat)
    requires Legal(sizes) && Assigned(sizes, codes) && p < |sizes|
    ensures codes[p] + 1 < Shl(1, sizes[p])
  {
    hide Shl, Weight;
    var e := 16 - sizes[p];
    WeightMonotone(sizes, p + 1, |sizes|);
    WeightNext(sizes, p);
    ShlPlus(codes[p], 1, e);
    ShlShl(1, sizes[p], e);
    SixteenBits();
    ShlMonotone(codes[p] + 1, Shl(1, sizes[p]), e);
  }

  lemma SixteenBits()
    ensures Shl(1, 16) == 0x10000
  {
    ShlByte(1);
    ShlShl(1, 8, 8);
    ShlByte(256);
  }

  /** A later code lies above every extension of an earlier one. */
  lemma LaterIsAbove(sizes: seq<nat>, codes: seq<nat>, p: nat, q: nat)
    requires Assigned(sizes, codes) && p < q < |sizes|
    ensures sizes[p] <= sizes[q] && codes[q] >= Shl(codes[p] + 1, sizes[q] - sizes[p])
  {
    hide Shl, Weight;
    assert sizes[p] <= sizes[q];
    var d, e := sizes[q] - sizes[p], 16 - sizes[q];
    WeightNext(sizes, p);
    WeightMonotone(sizes, p + 1, q);
    ShlPlus(codes[p], 1, 16 - sizes[p]);
    ShlShl(codes[p] + 1, d, e);
    ShlMonotone(codes[q], Shl(codes[p] + 1, d), e);
  }

  ghost function Words(sizes: seq<nat>, codes: seq<nat>): seq<seq<bit>>
    requires |sizes| == |codes|
  {
    seq(|sizes|, p requires 0 <= p < |sizes| => BitsOf(codes[p], sizes[p]))
  }

  /** Section C.2: the canonical code words form a prefix code. */
  lemma CanonicalIsPrefixFree(sizes: seq<nat>, codes: seq<nat>, vals: seq<byte>)
    requires Legal(sizes) && Assigned(sizes, codes) && |vals| == |sizes|
    ensures PrefixFree(Code(Words(sizes, codes), vals))
  {
    hide Shl, BitsOf, Weight;
    var ws := Words(sizes, codes);
    forall p, q | 0 <= p < q < |sizes|
      ensures !(ws[p] <= ws[q]) && !(ws[q] <= ws[p])
    {
      NeitherPrefix(sizes, codes, p, q);
    }
  }

  lemma NeitherPrefix(sizes: seq<nat>, codes: seq<nat>, p: nat, q: nat)
    requires Legal(sizes) && Assigned(sizes, codes) && p < q < |sizes|
    ensures !(BitsOf(codes[p], sizes[p]) <= BitsOf(codes[q], sizes[q]))
    ensures !(BitsOf(codes[q], sizes[q]) <= BitsOf(codes[p], sizes[p]))
  {
    hide Shl, BitsOf, Weight;
    var v, w := BitsOf(codes[p], sizes[p]), BitsOf(codes[q], sizes[q]);
    assert |v| == sizes[p] <= sizes[q] == |w|;
    var t := w[|v|..];
    assert v <= w ==> v == w[..|v|];
    assert w <= v ==> w == v;
    CodeFits(sizes, codes, p);
    CodeFits(sizes, codes, q);
    NumberOfBits(codes[p], sizes[p]);
    NumberOfBits(codes[q], sizes[q]);
    NumberPlus(w[..|v|], t);
    assert w == w[..|v|] + t;
    NumberBound(t);
    LaterIsAbove(sizes, codes, p, q);
    ShlPlus(codes[p], 1, |t|);
  }

  /** Padding with one bits never starts a code word. */
  lemma NoWordOfOnes(sizes: seq<nat>, codes: seq<nat>, p: nat, ones: seq<bit>)
    requires Legal(sizes) && Assigned(sizes, codes) && p < |sizes|
    requires forall i :: 0 <= i < |ones| ==> ones[i] == 1
    ensures !(BitsOf(codes[p], sizes[p]) <= ones)
  {
    var w := BitsOf(codes[p], sizes[p]);
    if w <= ones {
      CodeFits(sizes, codes, p);
      NumberOfBits(codes[p], sizes[p]);
      NumberOfOnes(w);
    }
  }

  lemma {:induction false} NumberOfOnes(s: seq<bit>)
    requires forall i :: 0 <= i < |s| ==> s[i] == 1
    ensures Number(s) == Shl(1, |s|) - 1
  {
    if s != [] {
      NumberOfOnes(s[..|s| - 1]);
    }
  }

  /** Figure C.2 in closed form: the next code, extended with zeros to its length. */
  ghost function CodeNumber(sizes: seq<nat>, p: nat): nat
    requires Sorted(sizes) && p < |sizes|
  {
    if p == 0 then 0
    else
      var d := sizes[p] - sizes[p - 1];
      ShlNat(CodeNumber(sizes, p - 1) + 1, d);
      Shl(CodeNumber(sizes, p - 1) + 1, d)
  }

  lemma {:induction false} ShlNat(v: nat, e: nat)
    ensures Shl(v, e) >= 0
  {
    if e > 0 {
      ShlNat(v, e - 1);
    }
  }

  ghost function Codes(sizes: seq<nat>): (codes: seq<nat>)
    requires Sorted(sizes)
    ensures Assigned(sizes, codes)
  {
    forall p | 0 <= p < |sizes|
      ensures Shl(CodeNumber(sizes, p), 16 - sizes[p]) == Weight(sizes, p)
    {
      CodeNumberWeight(sizes, p);
    }
    seq(|sizes|, p requires 0 <= p < |sizes| => CodeNumber(sizes, p))
  }

  lemma {:induction false} CodeNumberWeight(sizes: seq<nat>, p: nat)
    requires Sorted(sizes) && p < |sizes|
    ensures Shl(CodeNumber(sizes, p), 16 - sizes[p]) == Weight(sizes, p)
  {
    if p == 0 {
      ShlOfZero(16 - sizes[0]);
    } else {
      CodeNumberWeight(sizes, p - 1);
      var d, c := sizes[p] - sizes[p - 1], CodeNumber(sizes, p - 1);
      ShlShl(c + 1, d, 16 - sizes[p]);
      ShlPlus(c, 1, 16 - sizes[p - 1]);
    }
  }

  lemma {:induction false} ShlOfZero(e: nat)
    ensures Shl(0, e) == 0
  {
    if e > 0 {
      ShlOfZero(e - 1);
    }
  }

  /** The assignment of codes is unique. */
  lemma CodesUnique(sizes: seq<nat>, codes: seq<nat>)
    requires Assigned(sizes, codes)
    ensures codes == Codes(sizes)
  {
    hide Shl, Weight, CodeNumber, Codes;
    var cs := Codes(sizes);
    forall p | 0 <= p < |sizes|
      ensures codes[p] == cs[p]
    {
      ShlMonotone(codes[p], cs[p], 16 - sizes[p]);
      ShlMonotone(cs[p], codes[p], 16 - sizes[p]);
    }
  }

  /** Within one length, codes are consecutive. */
  lemma {:induction false} Consecutive(sizes: seq<nat>, p: nat, q: nat)
    requires Sorted(sizes) && p <= q < |sizes| && sizes[p] == sizes[q]
    ensures Codes(sizes)[q] == Codes(sizes)[p] + q - p
    decreases q - p
  {
    hide Weight, CodeNumber, Shl;
    if p < q {
      assert sizes[p] <= sizes[q - 1] <= sizes[q];
      Consecutive(sizes, p, q - 1);
      NextCode(sizes, q);
    }
  }

  lemma NextCode(sizes: seq<nat>, q: nat)
    requires Sorted(sizes) && 0 < q < |sizes| && sizes[q - 1] == sizes[q]
    ensures CodeNumber(sizes, q) == CodeNumber(sizes, q - 1) + 1
  {
  }
}
