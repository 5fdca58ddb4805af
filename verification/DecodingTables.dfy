/** The decoding tables of jdhuff.c and why they decode: the lookahead table and the
maxcode/valoffset search both find the one code word that begins the input. */
module DecodingTables {

  import opened Wrappers
  import opened CodeString
  import opened PrefixCode
  import opened CanonicalCode
  import opened DerivedTables

  const HUFF_LOOKAHEAD := 8
  const TOO_LONG := 9 * 256

  /** maxcode and valoffset are indexed by length 1..17, lookup by the next eight bits. */
  datatype DTable = DTable(maxcode: seq<int>, valoffset: seq<int>, lookup: seq<nat>, huffval: seq<byte>)

  /** A lookup entry: the length in the high byte, the symbol in the low byte. */
  function Entry(size: nat, val: byte): nat {
    256 * size + val
  }

  /** The bits of s, seen as 16-bit strings, lie in the interval of word p. */
  lemma InsideWord(sizes: seq<nat>, codes: seq<nat>, p: nat, s: seq<bit>, l: nat)
    requires Assigned(sizes, codes) && p < |sizes| && sizes[p] <= l <= 16 && l <= |s|
    requires Weight(sizes, p) <= Shl(Number(s[..l]), 16 - l) < Weight(sizes, p + 1)
    ensures BitsOf(codes[p], sizes[p]) <= s
  {
    hide Shl, Weight, Number, BitsOf;
    var n, e := sizes[p], 16 - l;
    var u, t := s[..n], s[n..l];
    assert s[..l] == u + t;
    NumberPlus(u, t);
    NumberBound(t);
    WeightNext(sizes, p);
    ShlPlus(codes[p], 1, 16 - n);
    ShlShl(codes[p], |t|, e);
    ShlShl(codes[p] + 1, |t|, e);
    ShlMonotone(Number(s[..l]), Shl(codes[p], |t|), e);
    ShlMonotone(Number(s[..l]), Shl(codes[p] + 1, |t|), e);
    ShlPlus(Number(u), 1, |t|);
    ShlMonotone(Number(u), codes[p], |t|);
    ShlMonotone(codes[p], Number(u), |t|);
    BetweenMultiples(Number(u), codes[p], |t|, Number(s[..l]));
    BitsOfNumber(u);
  }

  /** Two multiples of the same power whose intervals share a point are equal. */
  lemma BetweenMultiples(x: nat, y: nat, e: nat, v: nat)
    requires Shl(x, e) <= v < Shl(x + 1, e) && Shl(y, e) <= v < Shl(y + 1, e)
    ensures x == y
  {
    hide Shl;
    ShlMonotone(x, y + 1, e);
    ShlMonotone(y, x + 1, e);
  }

  lemma PrefixTake(w: seq<bit>, s: seq<bit>)
    ensures w <= s ==> |w| <= |s| && s[..|w|] == w
  {
  }

  /** A word that begins s puts the bits of s into its interval. */
  lemma WordInside(sizes: seq<nat>, codes: seq<nat>, p: nat, s: seq<bit>, l: nat)
    requires Legal(sizes) && Assigned(sizes, codes) && p < |sizes| && sizes[p] <= l <= 16 && l <= |s|
    ensures BitsOf(codes[p], sizes[p]) <= s ==>
      Weight(sizes, p) <= Shl(Number(s[..l]), 16 - l) < Weight(sizes, p + 1)
  {
    hide Shl, Weight, Number, BitsOf;
    var n, e := sizes[p], 16 - l;
    var u, t := s[..n], s[n..l];
    assert s[..l] == u + t;
    PrefixTake(BitsOf(codes[p], n), s);
    CodeFits(sizes, codes, p);
    NumberOfBits(codes[p], n);
    NumberPlus(u, t);
    NumberBound(t);
    WeightNext(sizes, p);
    ShlPlus(codes[p], 1, 16 - n);
    ShlPlus(codes[p], 1, |t|);
    ShlShl(codes[p], |t|, e);
    ShlShl(codes[p] + 1, |t|, e);
    ShlMonotone(Number(s[..l]), Shl(codes[p], |t|), e);
    ShlMonotone(Number(s[..l]), Shl(codes[p] + 1, |t|), e);
  }

  /** The intervals of the first n words leave no gap. */
  lemma {:induction false} Covering(sizes: seq<nat>, n: nat, x: nat) returns (p: nat)
    requires Sorted(sizes) && n <= |sizes| && x < Weight(sizes, n)
    ensures p < n && Weight(sizes, p) <= x < Weight(sizes, p + 1)
  {
    if x >= Weight(sizes, n - 1) {
      p := n - 1;
    } else {
      p := Covering(sizes, n - 1, x);
    }
  }

  /** How many words are no longer than l: the words of length l end there. */
  function Upto(h: HuffTbl, l: nat): nat
    requires Typed(h) && l <= MAX_LENGTH
  {
    |Lengths(h, l)|
  }

  lemma SizeOfGroup(h: HuffTbl, l: nat, p: nat)
    requires Typed(h) && 1 <= l <= MAX_LENGTH && Upto(h, l - 1) <= p < Upto(h, l)
    ensures p < Upto(h, MAX_LENGTH) && Lengths(h, MAX_LENGTH)[p] == l
  {
    LengthsPrefix(h, l, MAX_LENGTH);
  }

  lemma GroupOfSize(h: HuffTbl, p: nat, l: nat)
    requires Typed(h) && p < Upto(h, MAX_LENGTH) && l <= MAX_LENGTH
    ensures p < Upto(h, l) <==> Lengths(h, MAX_LENGTH)[p] <= l
  {
    LengthsPrefix(h, l, MAX_LENGTH);
    LengthsSorted(h, l);
    if p >= Upto(h, l) {
      LongerBeyond(h, l, MAX_LENGTH, p);
    }
  }

  lemma {:induction false} LongerBeyond(h: HuffTbl, l: nat, m: nat, p: nat)
    requires Typed(h) && l <= m <= MAX_LENGTH && Upto(h, l) <= p < Upto(h, m)
    ensures Lengths(h, m)[p] > l
    decreases m - l
  {
    if p < Upto(h, m - 1) {
      LongerBeyond(h, l, m - 1, p);
    }
  }

  /** Row l of the tables of Figure F.15. */
  ghost predicate Row(h: HuffTbl, codes: seq<nat>, l: nat, maxcode: int, valoffset: int)
    requires Typed(h) && 1 <= l <= MAX_LENGTH && |codes| == Upto(h, MAX_LENGTH)
  {
    LengthsPrefix(h, l - 1, l);
    LengthsPrefix(h, l, MAX_LENGTH);
    if h.bits[l] == 0 then maxcode == -1
    else valoffset == Upto(h, l - 1) - codes[Upto(h, l - 1)] && maxcode == codes[Upto(h, l) - 1]
  }

  /** Rows 1 to l - 1 are filled in. */
  ghost predicate Rows(h: HuffTbl, codes: seq<nat>, l: nat, maxcode: seq<int>, valoffset: seq<int>)
    requires Typed(h) && l <= 17 && |codes| == Upto(h, MAX_LENGTH) && |maxcode| == |valoffset| == 18
  {
    forall m :: 1 <= m < l ==> Row(h, codes, m, maxcode[m], valoffset[m])
  }

  /** What the lookup table holds after n words of at most eight bits. */
  ghost predicate Filled(sizes: seq<nat>, vals: seq<byte>, lookup: seq<nat>, n: nat)
    requires Sorted(sizes) && n <= |sizes| <= |vals|
  {
    && |lookup| == 256
    && (forall p: nat, x: nat :: p < n && x < 256 && Weight(sizes, p) <= 256 * x < Weight(sizes, p + 1) ==>
          lookup[x] == Entry(sizes[p], vals[p]))
    && forall x: nat :: x < 256 && Weight(sizes, n) <= 256 * x ==> lookup[x] == TOO_LONG
  }

  /** The decoding tables of an accepted table specification. */
  ghost predicate Decodes(h: HuffTbl, t: DTable) {
    && Accepted(h) && t.huffval == h.huffval
    && |t.maxcode| == |t.valoffset| == 18 && t.maxcode[17] == 0xFFFFF
    && Rows(h, Codes(Lengths(h, 16)), 17, t.maxcode, t.valoffset)
    && Upto(h, 8) <= Upto(h, 16) && Filled(Lengths(h, 16), h.huffval, t.lookup, Upto(h, 8))
  }

  /** On eight bits, word p covers 2^(8 - length) lookup entries. */
  lemma LookupSpan(sizes: seq<nat>, codes: seq<nat>, p: nat)
    requires Legal(sizes) && Assigned(sizes, codes) && p < |sizes| && sizes[p] <= 8
    ensures 0 <= Shl(codes[p], 8 - sizes[p]) && 0 < Shl(1, 8 - sizes[p])
    ensures 256 * Shl(codes[p], 8 - sizes[p]) == Weight(sizes, p)
    ensures 256 * (Shl(codes[p], 8 - sizes[p]) + Shl(1, 8 - sizes[p])) == Weight(sizes, p + 1) < 0x10000
  {
    hide Shl, Weight;
    var e := 8 - sizes[p];
    ShlNat(codes[p], e);
    ShlPositive(e);
    ShlShl(codes[p], e, 8);
    ShlShl(1, e, 8);
    ShlByte(Shl(codes[p], e));
    ShlByte(Shl(1, e));
    WeightNext(sizes, p);
    WeightMonotone(sizes, p + 1, |sizes|);
  }

  /** Fill in the lookup entries of one word. */
  method FillWord(ghost sizes: seq<nat>, ghost codes: seq<nat>, ghost p: nat, ghost vals: seq<byte>,
      lookup0: seq<nat>, code: nat, val: byte, l: nat) returns (lookup: seq<nat>)
    requires Legal(sizes) && Assigned(sizes, codes) && p < |sizes| <= |vals|
    requires 1 <= l <= 8 && l == sizes[p] && code == codes[p] && val == vals[p]
    requires Filled(sizes, vals, lookup0, p)
    ensures Filled(sizes, vals, lookup, p + 1)
  {
    hide Shl, Weight;
    LookupSpan(sizes, codes, p);
    lookup := lookup0;
    var lookbits: nat, ctr: nat := Shl(code, 8 - l), Shl(1, 8 - l);
    ghost var first: nat := lookbits;
    while ctr > 0
      invariant lookbits + ctr == first + Shl(1, 8 - l) && |lookup| == 256 && lookbits <= 256
      invariant forall x: nat :: x < 256 && !(first <= x < lookbits) ==> lookup[x] == lookup0[x]
      invariant forall x: nat :: first <= x < lookbits ==> lookup[x] == Entry(l, val)
    {
      lookup := lookup[lookbits := Entry(l, val)];
      lookbits := lookbits + 1;
      ctr := ctr - 1;
    }
    FilledNext(sizes, vals, lookup0, lookup, p, first, lookbits);
  }

  lemma FilledNext(sizes: seq<nat>, vals: seq<byte>, lookup0: seq<nat>, lookup: seq<nat>, p: nat, a: nat, b: nat)
    requires Sorted(sizes) && p < |sizes| <= |vals| && Filled(sizes, vals, lookup0, p) && |lookup| == 256
    requires 256 * a == Weight(sizes, p) && 256 * b == Weight(sizes, p + 1)
    requires forall x: nat :: x < 256 && !(a <= x < b) ==> lookup[x] == lookup0[x]
    requires forall x: nat :: a <= x < b && x < 256 ==> lookup[x] == Entry(sizes[p], vals[p])
    ensures Filled(sizes, vals, lookup, p + 1)
  {
    hide Weight;
    forall q: nat, x: nat | q < p + 1 && x < 256 && Weight(sizes, q) <= 256 * x < Weight(sizes, q + 1)
      ensures lookup[x] == Entry(sizes[q], vals[q])
    {
      if q < p {
        WeightMonotone(sizes, q + 1, p);
      }
    }
    WeightMonotone(sizes, p, p + 1);
  }

  lemma FilledNone(sizes: seq<nat>, vals: seq<byte>, lookup: seq<nat>)
    requires Sorted(sizes) && |sizes| <= |vals| && |lookup| == 256
    requires forall x :: 0 <= x < 256 ==> lookup[x] == TOO_LONG
    ensures Filled(sizes, vals, lookup, 0)
  {
  }

  /** The lookahead table: every eight bits that start with a short word give its entry. */
  method MakeLookup(h: HuffTbl, huffcode: seq<nat>) returns (lookup: seq<nat>)
    requires Accepted(h) && huffcode == Codes(Lengths(h, 16))
    ensures Upto(h, 8) <= Upto(h, 16) && Filled(Lengths(h, 16), h.huffval, lookup, Upto(h, 8))
  {
    hide Shl, Weight, Codes, Lengths, Filled, Legal;
    ghost var sizes := Lengths(h, 16);
    lookup := seq(256, _ => TOO_LONG);
    FilledNone(sizes, h.huffval, lookup);
    var p: nat := 0;
    UptoNone(h);
    for l := 1 to HUFF_LOOKAHEAD + 1
      invariant p == Upto(h, l - 1) && p <= |sizes| && Filled(sizes, h.huffval, lookup, p)
    {
      LengthsPrefix(h, l, 16);
      UptoNext(h, l);
      var count: nat, i: nat := h.bits[l], 1;
      while i <= count
        invariant 1 <= i <= count + 1 && p == Upto(h, l - 1) + i - 1 <= Upto(h, l)
        invariant Filled(sizes, h.huffval, lookup, p)
      {
        SizeOfGroup(h, l, p);
        lookup := FillWord(sizes, huffcode, p, h.huffval, lookup, huffcode[p], h.huffval[p], l);
        i := i + 1;
        p := p + 1;
      }
    }
    LengthsPrefix(h, 8, 16);
  }

  lemma UptoNext(h: HuffTbl, l: nat)
    requires Typed(h) && 1 <= l <= MAX_LENGTH
    ensures Upto(h, l) == Upto(h, l - 1) + h.bits[l]
  {
  }

  lemma UptoNone(h: HuffTbl)
    requires Typed(h)
    ensures Upto(h, 0) == 0
  {
  }

  lemma RowOf(h: HuffTbl, codes: seq<nat>, l: nat)
    requires Typed(h) && 1 <= l <= MAX_LENGTH && |codes| == Upto(h, MAX_LENGTH)
    ensures Upto(h, l) == Upto(h, l - 1) + h.bits[l] <= |codes|
    ensures h.bits[l] == 0 ==> forall v :: Row(h, codes, l, -1, v)
    ensures h.bits[l] > 0 ==> Row(h, codes, l, codes[Upto(h, l) - 1], Upto(h, l - 1) - codes[Upto(h, l - 1)])
  {
    LengthsPrefix(h, l - 1, l);
    LengthsPrefix(h, l, MAX_LENGTH);
  }

  lemma RowsNext(h: HuffTbl, codes: seq<nat>, l: nat, maxcode: seq<int>, valoffset: seq<int>, mc: int, vo: int)
    requires Typed(h) && 1 <= l <= 16 && |codes| == Upto(h, MAX_LENGTH) && |maxcode| == |valoffset| == 18
    requires Rows(h, codes, l, maxcode, valoffset) && Row(h, codes, l, mc, vo)
    ensures Rows(h, codes, l + 1, maxcode[l := mc], valoffset[l := vo])
  {
    hide Row;
  }

  /** Figure F.15: the rows for bit-sequential decoding. */
  method MakeRows(h: HuffTbl, huffcode: seq<nat>) returns (maxcode: seq<int>, valoffset: seq<int>)
    requires Typed(h) && |huffcode| == Upto(h, MAX_LENGTH)
    ensures |maxcode| == |valoffset| == 18 && maxcode[17] == 0xFFFFF
    ensures Rows(h, huffcode, 17, maxcode, valoffset)
  {
    hide Lengths, Row, Rows, Upto;
    maxcode, valoffset := seq(18, _ => 0), seq(18, _ => 0);
    var p: nat := 0;
    UptoNone(h);
    NoRows(h, huffcode, maxcode, valoffset);
    for l := 1 to 17
      invariant p == Upto(h, l - 1) && |maxcode| == |valoffset| == 18
      invariant Rows(h, huffcode, l, maxcode, valoffset)
    {
      RowOf(h, huffcode, l);
      var mc: int, vo: int := -1, valoffset[l];
      if h.bits[l] != 0 {
        vo := p - huffcode[p];
        p := p + h.bits[l];
        mc := huffcode[p - 1];
      }
      RowsNext(h, huffcode, l, maxcode, valoffset, mc, vo);
      maxcode, valoffset := maxcode[l := mc], valoffset[l := vo];
    }
    LastRow(h, huffcode, maxcode, valoffset);
    valoffset := valoffset[17 := 0];
    maxcode := maxcode[17 := 0xFFFFF];
  }

  lemma NoRows(h: HuffTbl, codes: seq<nat>, maxcode: seq<int>, valoffset: seq<int>)
    requires Typed(h) && |codes| == Upto(h, MAX_LENGTH) && |maxcode| == |valoffset| == 18
    ensures Rows(h, codes, 1, maxcode, valoffset)
  {
  }

  /** The sentinel row 17 is no row of the code. */
  lemma LastRow(h: HuffTbl, codes: seq<nat>, maxcode: seq<int>, valoffset: seq<int>)
    requires Typed(h) && |codes| == Upto(h, MAX_LENGTH) && |maxcode| == |valoffset| == 18
    requires Rows(h, codes, 17, maxcode, valoffset)
    ensures Rows(h, codes, 17, maxcode[17 := 0xFFFFF], valoffset[17 := 0])
  {
    hide Row;
  }

  /** jpeg_make_d_derived_tbl: decoding tables for every legal code; a DC table may only
  list the sizes 0..15. */
  method MakeDDerived(h: HuffTbl, isDC: bool) returns (r: Option<DTable>)
    requires Typed(h)
    ensures r.Some? <==> Accepted(h) && (isDC ==> forall p :: 0 <= p < |Symbols(h)| ==> Symbols(h)[p] <= 15)
    ensures r.Some? ==> Decodes(h, r.value)
  {
    hide Codes, Lengths, Rows, Filled, Weight, Sorted;
    ghost var sizes := Lengths(h, MAX_LENGTH);
    LengthsSorted(h, MAX_LENGTH);
    var huffsize := MakeSizes(h);
    if huffsize.None? {
      return None;
    }
    var huffcode := MakeCodes(sizes, huffsize.value);
    if huffcode.None? {
      return None;
    }
    var maxcode, valoffset := MakeRows(h, huffcode.value);
    var lookup := MakeLookup(h, huffcode.value);
    if isDC {
      for i := 0 to |huffcode.value|
        invariant forall p :: 0 <= p < i ==> Symbols(h)[p] <= 15
      {
        if h.huffval[i] > 15 {
          assert Symbols(h)[i] > 15;
          return None;
        }
      }
    }
    r := Some(DTable(maxcode, valoffset, lookup, h.huffval));
  }

  /** No word shorter than l begins s. */
  ghost predicate NoneShorter(c: Code, s: seq<bit>, l: nat) {
    forall p: nat :: p < |c.words| && |c.words[p]| < l ==> !(c.words[p] <= s)
  }

  /** Eight bits and the lookahead table: either the entry of the word that begins the
  input, or the certainty that no word of eight bits or less does. */
  lemma LookupFinds(h: HuffTbl, t: DTable, s: seq<bit>)
    requires Decodes(h, t) && |s| >= 8
    ensures var x := Number(s[..8]);
      x < 256 &&
      (|| (t.lookup[x] == TOO_LONG && NoneShorter(CodeOf(h), s, 9))
       || exists p: nat :: Begins(CodeOf(h), p, s) && |CodeOf(h).words[p]| <= 8
            && t.lookup[x] == Entry(|CodeOf(h).words[p]|, CodeOf(h).vals[p]))
  {
    hide Codes, Weight, Shl, Number, BitsOf, Lengths, Rows;
    var sizes, x := Lengths(h, 16), Number(s[..8]);
    var codes := Codes(sizes);
    var n := Upto(h, 8);
    NumberBound(s[..8]);
    ShlByte(1);
    ShlByte(x);
    if 256 * x < Weight(sizes, n) {
      var p := Covering(sizes, n, 256 * x);
      GroupOfSize(h, p, 8);
      InsideWord(sizes, codes, p, s, 8);
      assert Begins(CodeOf(h), p, s);
    } else {
      forall p: nat | p < |sizes| && sizes[p] < 9
        ensures !(BitsOf(codes[p], sizes[p]) <= s)
      {
        GroupOfSize(h, p, 8);
        WordInside(sizes, codes, p, s, 8);
        WeightMonotone(sizes, p + 1, n);
      }
    }
  }

  /** Figure F.16: given that no shorter word begins s, the next l bits are at most
  maxcode[l] exactly when a word of length l begins s, and valoffset[l] gives its index. */
  lemma MaxcodeTells(h: HuffTbl, t: DTable, s: seq<bit>, l: nat)
    requires Decodes(h, t) && 1 <= l <= 16 && l <= |s| && NoneShorter(CodeOf(h), s, l)
    ensures Number(s[..l]) <= t.maxcode[l] ==>
      var p := Number(s[..l]) + t.valoffset[l];
      0 <= p && Begins(CodeOf(h), p, s) && |CodeOf(h).words[p]| == l && t.huffval[p] == CodeOf(h).vals[p]
    ensures Number(s[..l]) > t.maxcode[l] ==> NoneShorter(CodeOf(h), s, l + 1)
  {
    hide Codes, Weight, Shl, Number, BitsOf, Lengths, Rows;
    var sizes, code := Lengths(h, 16), Number(s[..l]);
    var codes := Codes(sizes);
    RowFacts(h, t, l);
    if code <= t.maxcode[l] {
      var a, b := Upto(h, l - 1), Upto(h, l) - 1;
      SizeOfGroup(h, l, a);
      SizeOfGroup(h, l, b);
      if code < codes[a] {
        var q := BelowFirst(h, s, l);
      }
      var p := a + (code - codes[a]);
      Consecutive(sizes, a, b);
      SizeOfGroup(h, l, p);
      Consecutive(sizes, a, p);
      BitsOfNumber(s[..l]);
    } else {
      forall p: nat | p < |sizes| && sizes[p] == l
        ensures !(BitsOf(codes[p], l) <= s)
      {
        AboveMax(h, t, s, l, p);
      }
    }
  }

  lemma RowFacts(h: HuffTbl, t: DTable, l: nat)
    requires Decodes(h, t) && 1 <= l <= 16
    ensures Row(h, Codes(Lengths(h, 16)), l, t.maxcode[l], t.valoffset[l])
    ensures Upto(h, l - 1) + h.bits[l] == Upto(h, l) <= Upto(h, 16)
  {
    hide Codes, Row;
    UptoNext(h, l);
    LengthsPrefix(h, l, 16);
  }

  /** Bits below the first code of length l begin with a shorter word. */
  lemma BelowFirst(h: HuffTbl, s: seq<bit>, l: nat) returns (p: nat)
    requires Accepted(h) && 1 <= l <= 16 && l <= |s| && h.bits[l] > 0
    requires Upto(h, l - 1) < Upto(h, 16) && Number(s[..l]) < Codes(Lengths(h, 16))[Upto(h, l - 1)]
    ensures p < Upto(h, 16) && CodeOf(h).words[p] <= s && |CodeOf(h).words[p]| < l
  {
    hide Codes, Weight, Shl, Number, BitsOf, Lengths;
    var sizes, code, a := Lengths(h, 16), Number(s[..l]), Upto(h, l - 1);
    var codes := Codes(sizes);
    UptoNext(h, l);
    SizeOfGroup(h, l, a);
    ShlMonotone(code, codes[a], 16 - l);
    ShlNat(code, 16 - l);
    p := Covering(sizes, a, Shl(code, 16 - l));
    GroupOfSize(h, p, l - 1);
    InsideWord(sizes, codes, p, s, l);
  }

  /** Bits above the largest code of length l do not begin with a word of that length. */
  lemma AboveMax(h: HuffTbl, t: DTable, s: seq<bit>, l: nat, p: nat)
    requires Decodes(h, t) && 1 <= l <= 16 && l <= |s| && Number(s[..l]) > t.maxcode[l]
    requires p < Upto(h, 16) && Lengths(h, 16)[p] == l
    ensures !(BitsOf(Codes(Lengths(h, 16))[p], l) <= s)
  {
    hide Codes, Weight, Shl, Number, BitsOf, Lengths, Rows;
    var sizes := Lengths(h, 16);
    var codes := Codes(sizes);
    RowFacts(h, t, l);
    GroupOfSize(h, p, l);
    GroupOfSize(h, p, l - 1);
    var b := Upto(h, l) - 1;
    SizeOfGroup(h, l, b);
    Consecutive(sizes, p, b);
    CodeFits(sizes, codes, p);
    NumberOfBits(codes[p], l);
    PrefixTake(BitsOf(codes[p], l), s);
  }
}
