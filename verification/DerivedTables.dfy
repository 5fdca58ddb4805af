/** The tables jchuff.c and jdhuff.c derive from a Huffman table specification, and the
decoding of one symbol with them. */
module DerivedTables {

  import opened Wrappers
  import opened CodeString
  import opened PrefixCode
  import opened CanonicalCode

  /** bits[l] counts the codes of length l; huffval lists the symbols in code order. */
  datatype HuffTbl = HuffTbl(bits: seq<byte>, huffval: seq<byte>)

  predicate Typed(h: HuffTbl) {
    |h.bits| == 17 && |h.huffval| == 256
  }

  function Copies(v: nat, k: nat): (s: seq<nat>)
    ensures |s| == k && forall i :: 0 <= i < k ==> s[i] == v
  {
    if k == 0 then [] else Copies(v, k - 1) + [v]
  }

  /** Figure C.1: the code lengths up to l, in code order. */
  function Lengths(h: HuffTbl, l: nat): seq<nat>
    requires Typed(h) && l <= MAX_LENGTH
  {
    if l == 0 then [] else Lengths(h, l - 1) + Copies(l, h.bits[l])
  }

  lemma {:induction false} LengthsSorted(h: HuffTbl, l: nat)
    requires Typed(h) && l <= MAX_LENGTH
    ensures Sorted(Lengths(h, l)) && forall p :: 0 <= p < |Lengths(h, l)| ==> Lengths(h, l)[p] <= l
  {
    if l > 0 {
      LengthsSorted(h, l - 1);
    }
  }

  lemma {:induction false} LengthsPrefix(h: HuffTbl, l: nat, m: nat)
    requires Typed(h) && l <= m <= MAX_LENGTH
    ensures Lengths(h, l) <= Lengths(h, m)
    decreases m - l
  {
    if l < m {
      LengthsPrefix(h, l, m - 1);
    }
  }

  /** The table describes at most 256 codes and leaves the word of all ones free. */
  ghost predicate Accepted(h: HuffTbl) {
    Typed(h) && |Lengths(h, MAX_LENGTH)| <= 256 && Legal(Lengths(h, MAX_LENGTH))
  }

  /** Figure C.1: the code lengths, ended by a zero. */
  method MakeSizes(h: HuffTbl) returns (r: Option<seq<nat>>)
    requires Typed(h)
    ensures r == if |Lengths(h, MAX_LENGTH)| <= 256 then Some(Lengths(h, MAX_LENGTH) + [0]) else None
  {
    var huffsize: seq<nat> := [];
    for l := 1 to MAX_LENGTH + 1
      invariant huffsize == Lengths(h, l - 1) && |huffsize| <= 256
    {
      LengthsPrefix(h, l, MAX_LENGTH);
      var i: int := h.bits[l];
      if |huffsize| + i > 256 {
        return None;
      }
      while i > 0
        invariant 0 <= i <= h.bits[l] && huffsize == Lengths(h, l - 1) + Copies(l, h.bits[l] - i)
      {
        huffsize := huffsize + [l];
        i := i - 1;
      }
    }
    return Some(huffsize + [0]);
  }

  /** The codes given out so far. */
  ghost predicate AssignedTo(sizes: seq<nat>, codes: seq<nat>) {
    && Sorted(sizes) && |codes| <= |sizes|
    && forall p :: 0 <= p < |codes| ==> Shl(codes[p], 16 - sizes[p]) == Weight(sizes, p)
  }

  /** Consecutive codes for the words of one length. */
  method MakeGroup(ghost sizes: seq<nat>, huffsize: seq<nat>, codes0: seq<nat>, code0: nat, si: nat)
    returns (huffcode: seq<nat>, code: nat)
    requires huffsize == sizes + [0] && AssignedTo(sizes, codes0) && 1 <= si <= 16
    requires |codes0| < |sizes| && si <= sizes[|codes0|] && Shl(code0, 16 - si) == Weight(sizes, |codes0|)
    ensures AssignedTo(sizes, huffcode) && codes0 <= huffcode && Shl(code, 16 - si) == Weight(sizes, |huffcode|)
    ensures |huffcode| < |sizes| ==> si < sizes[|huffcode|]
  {
    hide Shl, Weight;
    huffcode, code := codes0, code0;
    var p := |huffcode|;
    while huffsize[p] == si
      invariant p == |huffcode| <= |sizes| && codes0 <= huffcode
      invariant AssignedTo(sizes, huffcode) && Shl(code, 16 - si) == Weight(sizes, p)
      invariant p < |sizes| ==> si <= sizes[p]
      decreases |sizes| - p
    {
      ShlPlus(code, 1, 16 - si);
      WeightNext(sizes, p);
      huffcode := huffcode + [code];
      p := p + 1;
      code := code + 1;
    }
  }

  /** Figure C.2: the codes themselves; the counts must describe a legal code. */
  method MakeCodes(ghost sizes: seq<nat>, huffsize: seq<nat>) returns (r: Option<seq<nat>>)
    requires Sorted(sizes) && huffsize == sizes + [0]
    ensures r == if Legal(sizes) then Some(Codes(sizes)) else None
  {
    hide Shl, Weight, Codes;
    WeightStart(sizes);
    var code: nat, si: nat := 0, huffsize[0];
    var huffcode: seq<nat> := [];
    ShlOfZero(16 - (if sizes == [] then 16 else sizes[0]));
    while huffsize[|huffcode|] != 0
      invariant AssignedTo(sizes, huffcode) && si <= 17
      invariant |huffcode| < |sizes| ==>
        1 <= si <= sizes[|huffcode|] && Shl(code, 16 - si) == Weight(sizes, |huffcode|)
      invariant |huffcode| == |sizes| ==> Weight(sizes, |huffcode|) < 0x10000
      decreases |sizes| - |huffcode|, 17 - si
    {
      huffcode, code := MakeGroup(sizes, huffsize, huffcode, code, si);
      CodeOverflow(sizes, |huffcode|, code, si);
      if code >= Shl(1, si) {
        return None;
      }
      if |huffcode| < |sizes| {
        ShlTwice(code, 16 - si - 1);
      }
      code := 2 * code;
      si := si + 1;
    }
    CodesUnique(sizes, huffcode);
    return Some(huffcode);
  }

  lemma WeightStart(sizes: seq<nat>)
    requires Sorted(sizes)
    ensures Weight(sizes, 0) == 0
  {
  }

  /** The code after a group of length si overflows exactly when the weight does. */
  lemma CodeOverflow(sizes: seq<nat>, p: nat, code: nat, si: nat)
    requires Sorted(sizes) && p <= |sizes| && 1 <= si <= 16 && Shl(code, 16 - si) == Weight(sizes, p)
    ensures code >= Shl(1, si) <==> Weight(sizes, p) >= 0x10000
    ensures Weight(sizes, p) <= Weight(sizes, |sizes|)
  {
    hide Shl, Weight;
    ShlMonotone(code, Shl(1, si), 16 - si);
    ShlShl(1, si, 16 - si);
    SixteenBits();
    WeightMonotone(sizes, p, |sizes|);
  }

  /** Symbols with a code. */
  function Symbols(h: HuffTbl): seq<byte>
    requires Typed(h) && |Lengths(h, MAX_LENGTH)| <= 256
  {
    h.huffval[..|Lengths(h, MAX_LENGTH)|]
  }

  /** The prefix code an accepted table stands for. */
  ghost function CodeOf(h: HuffTbl): (c: Code)
    requires Accepted(h)
    ensures PrefixFree(c)
  {
    var sizes := Lengths(h, MAX_LENGTH);
    CanonicalIsPrefixFree(sizes, Codes(sizes), Symbols(h));
    Code(Words(sizes, Codes(sizes)), Symbols(h))
  }

  /** Encoding tables: code and size per symbol, size 0 for symbols without a code. */
  datatype CTable = CTable(ehufco: seq<nat>, ehufsi: seq<nat>)

  /** The symbols seen so far are distinct and in range. */
  ghost predicate Listable(vals: seq<byte>, n: nat, maxsymbol: nat)
    requires n <= |vals|
  {
    && (forall p :: 0 <= p < n ==> vals[p] <= maxsymbol)
    && forall p, q :: 0 <= p < q < n ==> vals[p] != vals[q]
  }

  /** Symbols of the table fit its kind and none is listed twice. */
  ghost predicate Encodable(h: HuffTbl, isDC: bool)
    requires Typed(h) && |Lengths(h, MAX_LENGTH)| <= 256
  {
    Listable(Symbols(h), |Symbols(h)|, if isDC then 15 else 255)
  }

  /** What the encoding tables must hold for the first n code words. */
  ghost predicate Encodes(sizes: seq<nat>, codes: seq<nat>, vals: seq<byte>, n: nat, t: CTable)
    requires |sizes| == |codes| == |vals| && n <= |vals|
  {
    && |t.ehufco| == |t.ehufsi| == 256
    && (forall p :: 0 <= p < n ==> t.ehufco[vals[p]] == codes[p] && t.ehufsi[vals[p]] == sizes[p])
    && forall s: byte :: s !in vals[..n] ==> t.ehufsi[s] == 0
  }

  lemma EncodesNext(sizes: seq<nat>, codes: seq<nat>, vals: seq<byte>, n: nat, t: CTable)
    requires |sizes| == |codes| == |vals| && n < |vals| && Encodes(sizes, codes, vals, n, t)
    requires forall p :: 0 <= p < |sizes| ==> sizes[p] >= 1
    ensures t.ehufsi[vals[n]] != 0 <==> vals[n] in vals[..n]
    ensures t.ehufsi[vals[n]] == 0 ==>
      Encodes(sizes, codes, vals, n + 1, CTable(t.ehufco[vals[n] := codes[n]], t.ehufsi[vals[n] := sizes[n]]))
  {
    assert vals[..n + 1] == vals[..n] + [vals[n]];
  }

  /** The loop of jpeg_make_c_derived_tbl over the symbols. */
  method Tabulate(sizes: seq<nat>, codes: seq<nat>, vals: seq<byte>, maxsymbol: nat) returns (r: Option<CTable>)
    requires |sizes| == |codes| == |vals| && forall p :: 0 <= p < |sizes| ==> sizes[p] >= 1
    ensures r.Some? <==> Listable(vals, |vals|, maxsymbol)
    ensures r.Some? ==> Encodes(sizes, codes, vals, |vals|, r.value)
  {
    var t := CTable(seq(256, _ => 0), seq(256, _ => 0));
    for p := 0 to |vals|
      invariant Encodes(sizes, codes, vals, p, t) && Listable(vals, p, maxsymbol)
    {
      var i := vals[p];
      EncodesNext(sizes, codes, vals, p, t);
      if i > maxsymbol || t.ehufsi[i] != 0 {
        return None;
      }
      t := CTable(t.ehufco[i := codes[p]], t.ehufsi[i := sizes[p]]);
    }
    return Some(t);
  }

  /** jpeg_make_c_derived_tbl: accepted exactly when the lengths form a legal code and the
  symbols are distinct and in range. */
  method MakeCDerived(h: HuffTbl, isDC: bool) returns (r: Option<CTable>)
    requires Typed(h)
    ensures r.Some? <==> Accepted(h) && Encodable(h, isDC)
    ensures r.Some? ==>
      var sizes := Lengths(h, MAX_LENGTH);
      Encodes(sizes, Codes(sizes), Symbols(h), |sizes|, r.value)
  {
    hide Codes, Lengths, Encodes, Weight;
    ghost var sizes := Lengths(h, MAX_LENGTH);
    LengthsSorted(h, MAX_LENGTH);
    var huffsize := MakeSizes(h);
    if huffsize.None? {
      return None;
    }
    var lastp := |huffsize.value| - 1;
    var huffcode := MakeCodes(sizes, huffsize.value);
    if huffcode.None? {
      return None;
    }
    r := Tabulate(huffsize.value[..lastp], huffcode.value, h.huffval[..lastp], if isDC then 15 else 255);
  }
}
