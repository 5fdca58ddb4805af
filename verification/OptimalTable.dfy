/** jpeg_gen_optimal_table of jchuff.c: from symbol counts to a table specification that the
rest of the library accepts. */
module OptimalTable {

  import opened Wrappers
  import opened CodeString
  import opened PrefixCode
  import opened CanonicalCode
  import opened DerivedTables
  import opened CodedItems
  import opened CodeLengths
  import opened SymbolMerging
  import opened LengthLimit
  import opened MergedTrees
  import opened HuffmanLengths
  import opened SizedTables
  import EncodingTables

  /** The indicator of symbols with a code size. */
  function Sized(cs: seq<nat>): (t: seq<int>)
    ensures |t| == |cs|
  {
    seq(|cs|, j requires 0 <= j < |cs| => if cs[j] > 0 then 1 else 0)
  }

  /** Contributions to the Kraft sum, in units of 2^-top. */
  function SizeTerms(cs: seq<nat>, top: nat): (t: seq<int>)
    ensures |t| == |cs|
  {
    seq(|cs|, j requires 0 <= j < |cs| => SizeTerm(cs[j], top))
  }

  function SizeTerm(size: nat, top: nat): int {
    if 0 < size <= top then Shl(1, top - size) else 0
  }

  /** Terms of the symbols of a chain only. */
  function ChainTerms(cs: seq<nat>, ch: seq<nat>): (t: seq<int>)
    requires |cs| == SYMBOLS
    ensures |t| == SYMBOLS
  {
    seq(SYMBOLS, j requires 0 <= j < SYMBOLS => if j in ch && cs[j] <= DEPTH then Shl(1, DEPTH - cs[j]) else 0)
  }

  lemma {:induction false} ChainTotal(cs: seq<nat>, ch: seq<nat>)
    requires |cs| == SYMBOLS && InRange(ch) && Distinct(ch) && forall i :: 0 <= i < |ch| ==> cs[ch[i]] <= DEPTH
    ensures Total(ChainTerms(cs, ch)) == ChainKraft(cs, ch)
  {
    hide Shl;
    if ch == [] {
      TotalOfZeros(ChainTerms(cs, ch));
    } else {
      var n := |ch| - 1;
      ChainTotal(cs, ch[..n]);
      var t, x := ChainTerms(cs, ch[..n]), ch[n];
      TotalUpdate(t, x, Shl(1, DEPTH - cs[x]));
      ChainTermsNext(cs, ch);
    }
  }

  lemma ChainTermsNext(cs: seq<nat>, ch: seq<nat>)
    requires |cs| == SYMBOLS && InRange(ch) && Distinct(ch) && ch != [] && cs[ch[|ch| - 1]] <= DEPTH
    ensures var n := |ch| - 1;
      && ChainTerms(cs, ch) == ChainTerms(cs, ch[..n])[ch[n] := Shl(1, DEPTH - cs[ch[n]])]
      && ChainTerms(cs, ch[..n])[ch[n]] == 0
  {
    hide Shl;
    var n := |ch| - 1;
    assert ch == ch[..n] + [ch[n]];
    assert ch[n] !in ch[..n];
  }

  /** Terms in finer units. */
  lemma {:induction false} TotalScaled(t: seq<int>, u: seq<int>, e: nat)
    requires |t| == |u| && forall j :: 0 <= j < |t| ==> u[j] == Shl(t[j], e)
    ensures Total(u) == Shl(Total(t), e)
  {
    hide Shl;
    if t == [] {
      ShlOfZero(e);
    } else {
      TotalScaled(t[..|t| - 1], u[..|u| - 1], e);
      ShlPlus(Total(t[..|t| - 1]), t[|t| - 1], e);
    }
  }

  /** With two symbols in use, none of them has an empty code. */
  lemma InUse(f0: seq<nat>, cs: seq<nat>, others: seq<int>, ch: seq<nat>, r: nat, w: nat, x: nat, y: nat)
    requires Tree(f0, cs, others, ch, r, w) && x < |ch| && y < |ch| && x != y
    ensures cs[ch[x]] > 0
  {
    hide Shl, Weigh, Linked;
    LinkedShape(others, ch);
    ChainTotal(cs, ch);
    var t := ChainTerms(cs, ch);
    forall j | 0 <= j < |t|
      ensures t[j] >= 0
    {
      if cs[j] <= DEPTH {
        ShlNat(1, DEPTH - cs[j]);
      }
    }
    TotalUpdate(t, ch[x], 0);
    var u := t[ch[x] := 0];
    TotalNonnegative(u);
    ShlPositive(DEPTH - cs[ch[y]]);
    assert u[ch[y]] == Shl(1, DEPTH - cs[ch[y]]);
    assert t[ch[x]] == Shl(1, DEPTH - cs[ch[x]]);
  }

  lemma UsedSize(f0: seq<nat>, cs: seq<nat>, others: seq<int>, ch: seq<nat>, r: nat, w: nat, j: nat, k: nat)
    requires Tree(f0, cs, others, ch, r, w) && j in ch && k in ch && j != k
    ensures 0 < cs[j] <= DEPTH && f0[j] > 0
  {
    hide Shl, Weigh, ChainKraft, Linked;
    var i :| 0 <= i < |ch| && ch[i] == j;
    var l :| 0 <= l < |ch| && ch[l] == k;
    InUse(f0, cs, others, ch, r, w, i, l);
  }

  lemma TermsOfUsed(cs: seq<nat>, ch: seq<nat>)
    requires |cs| == SYMBOLS && forall j: nat :: j < SYMBOLS ==> (j in ch <==> cs[j] > 0) && cs[j] <= DEPTH
    ensures ChainTerms(cs, ch) == SizeTerms(cs, DEPTH)
  {
    hide Shl;
    var t, u := ChainTerms(cs, ch), SizeTerms(cs, DEPTH);
    forall j: nat | j < SYMBOLS
      ensures t[j] == u[j]
    {
    }
  }

  lemma TreeIsComplete(f0: seq<nat>, cs: seq<nat>, others: seq<int>, ch: seq<nat>, r: nat, w: nat)
    requires Tree(f0, cs, others, ch, r, w)
    requires forall j: nat :: j < SYMBOLS ==> (j in ch <==> cs[j] > 0) && cs[j] <= DEPTH
    ensures Total(SizeTerms(cs, DEPTH)) == Shl(1, DEPTH)
  {
    hide Shl, Weigh, ChainKraft, ChainTerms, SizeTerms, Total;
    ChainTotal(cs, ch);
    TermsOfUsed(cs, ch);
  }

  /** The code sizes form a complete code for the symbols that occur. */
  lemma KraftIsOne(f0: seq<nat>, cs: seq<nat>, x: nat, y: nat)
    requires OneTree(f0, cs) && x < SYMBOLS && y < SYMBOLS && x != y && f0[x] > 0 && f0[y] > 0
    requires forall j: nat :: j < SYMBOLS && f0[j] == 0 ==> cs[j] == 0
    ensures forall j: nat :: j < SYMBOLS ==> (cs[j] > 0 <==> f0[j] > 0) && cs[j] <= DEPTH
    ensures Total(SizeTerms(cs, DEPTH)) == Shl(1, DEPTH)
  {
    hide Shl, Tree, Total, SizeTerms;
    var others: seq<int>, ch: seq<nat>, r: nat, w: nat :|
      Tree(f0, cs, others, ch, r, w) && forall j: nat :: j < SYMBOLS && f0[j] > 0 ==> j in ch;
    forall j: nat | j < SYMBOLS
      ensures (cs[j] > 0 <==> f0[j] > 0) && cs[j] <= DEPTH && (j in ch <==> cs[j] > 0)
    {
      if j in ch {
        UsedSize(f0, cs, others, ch, r, w, j, if j == x then y else x);
      }
    }
    TreeIsComplete(f0, cs, others, ch, r, w);
  }

  /** The same in units of 2^-32 when no code is longer than that. */
  lemma KraftIsOne32(cs: seq<nat>)
    requires Total(SizeTerms(cs, DEPTH)) == Shl(1, DEPTH) && forall j :: 0 <= j < |cs| ==> cs[j] <= MAX_CLEN
    ensures Total(SizeTerms(cs, MAX_CLEN)) == Shl(1, MAX_CLEN)
  {
    hide Shl, Total;
    var e := DEPTH - MAX_CLEN;
    var t, u := SizeTerms(cs, MAX_CLEN), SizeTerms(cs, DEPTH);
    forall j | 0 <= j < |cs|
      ensures u[j] == Shl(t[j], e)
    {
      ShlOfZero(e);
      if cs[j] > 0 {
        ShlShl(1, MAX_CLEN - cs[j], e);
      }
    }
    TotalScaled(t, u, e);
    ShlShl(1, MAX_CLEN, e);
    ShlMonotone(Total(t), Shl(1, MAX_CLEN), e);
    ShlMonotone(Shl(1, MAX_CLEN), Total(t), e);
  }

  /** Sums over a prefix of the symbols. */
  lemma PrefixNext(cs: seq<nat>, i: nat, top: nat)
    requires i < |cs|
    ensures Total(SizeTerms(cs[..i + 1], top)) == Total(SizeTerms(cs[..i], top)) + SizeTerm(cs[i], top)
    ensures Total(Sized(cs[..i + 1])) == Total(Sized(cs[..i])) + if cs[i] > 0 then 1 else 0
  {
    hide SizeTerm;
    assert SizeTerms(cs[..i + 1], top)[..i] == SizeTerms(cs[..i], top);
    assert Sized(cs[..i + 1])[..i] == Sized(cs[..i]);
  }

  /** What the counts of code lengths hold after the symbols cs. */
  ghost predicate Counts(bits: seq<byte>, cs: seq<nat>) {
    && |bits| == MAX_CLEN + 1 && bits[0] == 0
    && Horner(bits, MAX_CLEN) == Total(SizeTerms(cs, MAX_CLEN)) && Total(bits) == Total(Sized(cs))
  }

  lemma CountsNext(bits: seq<byte>, cs: seq<nat>, i: nat)
    requires i < |cs| && Counts(bits, cs[..i]) && cs[i] <= MAX_CLEN && Total(Sized(cs[..i + 1])) <= 255
    ensures cs[i] == 0 ==> Counts(bits, cs[..i + 1])
    ensures cs[i] > 0 ==> bits[cs[i]] < 255 && Counts(bits[cs[i] := bits[cs[i]] + 1], cs[..i + 1])
  {
    hide Total, Horner, Shl, Sized, SizeTerms;
    PrefixNext(cs, i, MAX_CLEN);
    if cs[i] > 0 {
      Parts(bits);
      HornerAdd(bits, cs[i], 1, MAX_CLEN);
      TotalUpdate(bits, cs[i], bits[cs[i]] + 1);
    }
  }

  /** Sums never shrink as symbols are added. */
  lemma {:induction false} SizedGrows(cs: seq<nat>, i: nat)
    requires i <= |cs|
    ensures Total(Sized(cs[..i])) <= Total(Sized(cs))
    decreases |cs| - i
  {
    if i < |cs| {
      PrefixNext(cs, i, 0);
      SizedGrows(cs, i + 1);
    } else {
      assert cs[..i] == cs;
    }
  }

  /** Count the symbols of each code length; fails if a code is longer than 32 bits. */
  method CountLengths(codesize: seq<nat>) returns (r: Option<seq<byte>>)
    requires |codesize| == SYMBOLS && Total(Sized(codesize)) <= 255
    ensures r.Some? <==> forall j :: 0 <= j < SYMBOLS ==> codesize[j] <= MAX_CLEN
    ensures r.Some? ==> Counts(r.value, codesize) && Exact(r.value, codesize)
  {
    hide Counts, Total, Sized, Exact;
    var bits: seq<byte> := seq(MAX_CLEN + 1, _ => 0);
    NothingCounted(bits, codesize);
    ExactStart(bits, codesize);
    for i := 0 to SYMBOLS
      invariant |bits| == MAX_CLEN + 1 && Counts(bits, codesize[..i]) && Exact(bits, codesize[..i])
      invariant forall j :: 0 <= j < i ==> codesize[j] <= MAX_CLEN
    {
      SizedGrows(codesize, i + 1);
      if codesize[i] > MAX_CLEN {
        return None;
      }
      CountsNext(bits, codesize, i);
      ExactNext(bits, codesize, i);
      if codesize[i] != 0 {
        bits := bits[codesize[i] := bits[codesize[i]] + 1];
      }
    }
    assert codesize[..SYMBOLS] == codesize;
    r := Some(bits);
  }

  lemma NothingCounted(bits: seq<byte>, cs: seq<nat>)
    requires |bits| == MAX_CLEN + 1 && forall j :: 0 <= j < |bits| ==> bits[j] == 0
    ensures Counts(bits, cs[..0])
  {
    HornerNone(bits, MAX_CLEN);
    TotalOfZeros(bits);
  }

  /** Sorted by code length, then by symbol. */
  predicate Before(cs: seq<nat>, a: byte, b: byte)
    requires |cs| == SYMBOLS
  {
    cs[a] < cs[b] || (cs[a] == cs[b] && a < b)
  }

  /** The symbols listed so far: those of length below i, and those of length i below j. */
  ghost predicate Listed(cs: seq<nat>, vals: seq<byte>, i: nat, j: nat)
    requires |cs| == SYMBOLS
  {
    && (forall p, q :: 0 <= p < q < |vals| ==> Before(cs, vals[p], vals[q]))
    && (forall s: byte :: s in vals <==> 0 < cs[s] && (cs[s] < i || (cs[s] == i && s < j)))
  }

  /** A list of the symbols sorted by code length. */
  method SortSymbols(cs: seq<nat>) returns (vals: seq<byte>)
    requires |cs| == SYMBOLS && forall j :: 0 <= j < SYMBOLS ==> cs[j] <= MAX_CLEN
    ensures Listed(cs, vals, MAX_CLEN + 1, 0)
  {
    vals := [];
    for i := 1 to MAX_CLEN + 1
      invariant Listed(cs, vals, i, 0)
    {
      for j := 0 to 256
        invariant Listed(cs, vals, i, j)
      {
        if cs[j] == i {
          ListNext(cs, vals, i, j);
          vals := vals + [j];
        } else {
          ListSame(cs, vals, i, j);
        }
      }
      ListUp(cs, vals, i);
    }
  }

  lemma ListNext(cs: seq<nat>, vals: seq<byte>, i: nat, j: byte)
    requires |cs| == SYMBOLS && Listed(cs, vals, i, j) && cs[j] == i > 0
    ensures Listed(cs, vals + [j], i, j + 1)
  {
    var w := vals + [j];
    forall p, q | 0 <= p < q < |w|
      ensures Before(cs, w[p], w[q])
    {
      if q == |vals| {
        assert vals[p] in vals;
      }
    }
  }

  lemma ListSame(cs: seq<nat>, vals: seq<byte>, i: nat, j: byte)
    requires |cs| == SYMBOLS && Listed(cs, vals, i, j) && cs[j] != i
    ensures Listed(cs, vals, i, j + 1)
  {
  }

  lemma ListUp(cs: seq<nat>, vals: seq<byte>, i: nat)
    requires |cs| == SYMBOLS && Listed(cs, vals, i, 256)
    ensures Listed(cs, vals, i + 1, 0)
  {
  }

  /** The indicator of the symbols in a list. */
  function Members(vals: seq<byte>): (t: seq<int>)
    ensures |t| == 256
  {
    seq(256, j requires 0 <= j < 256 => if j in vals then 1 else 0)
  }

  lemma {:induction false} MembersTotal(vals: seq<byte>)
    requires forall p, q :: 0 <= p < q < |vals| ==> vals[p] != vals[q]
    ensures Total(Members(vals)) == |vals|
  {
    if vals == [] {
      TotalOfZeros(Members(vals));
    } else {
      var n := |vals| - 1;
      MembersTotal(vals[..n]);
      assert vals == vals[..n] + [vals[n]];
      assert vals[n] !in vals[..n];
      TotalUpdate(Members(vals[..n]), vals[n], 1);
      assert Members(vals) == Members(vals[..n])[vals[n] := 1];
    }
  }

  /** The list has one entry for every real symbol that occurs. */
  lemma ListLength(cs: seq<nat>, vals: seq<byte>)
    requires |cs| == SYMBOLS && Listed(cs, vals, MAX_CLEN + 1, 0) && cs[256] > 0
    requires forall j :: 0 <= j < SYMBOLS ==> cs[j] <= MAX_CLEN
    ensures Total(Sized(cs)) == |vals| + 1
    ensures forall p, q :: 0 <= p < q < |vals| ==> vals[p] != vals[q]
  {
    hide Total;
    forall p, q | 0 <= p < q < |vals|
      ensures vals[p] != vals[q]
    {
      assert Before(cs, vals[p], vals[q]);
    }
    MembersTotal(vals);
    PrefixNext(cs, 256, 0);
    assert cs[..257] == cs;
    assert Sized(cs[..256]) == Members(vals);
  }

  lemma {:induction false} WeightPrefix(s: seq<nat>, t: seq<nat>, p: nat)
    requires Sorted(s + t) && Sorted(s) && p <= |s|
    ensures Weight(s + t, p) == Weight(s, p)
  {
    hide Shl;
    if p > 0 {
      WeightPrefix(s, t, p - 1);
    }
  }

  lemma SortedPrefix(s: seq<nat>, t: seq<nat>)
    requires Sorted(s + t)
    ensures Sorted(s)
  {
    assert forall i :: 0 <= i < |s| ==> s[i] == (s + t)[i];
  }

  /** k code words of one length weigh k times as much as one. */
  lemma {:induction false} WeightCopies(s: seq<nat>, l: nat, k: nat)
    requires Sorted(s + Copies(l, k)) && Sorted(s) && l <= 16
    ensures Weight(s + Copies(l, k), |s| + k) == Weight(s, |s|) + Shl(k, 16 - l)
  {
    hide Shl;
    if k == 0 {
      assert s + Copies(l, 0) == s;
      ShlOfZero(16 - l);
    } else {
      var u := s + Copies(l, k - 1);
      assert s + Copies(l, k) == u + [l];
      SortedPrefix(u, [l]);
      WeightCopies(s, l, k - 1);
      WeightPrefix(u, [l], |u|);
      WeightNext(u + [l], |u|);
      ShlPlus(k - 1, 1, 16 - l);
    }
  }

  /** The weight of a table is its Kraft sum in units of 2^-16, and its length counts its words. */
  lemma {:induction false} WeightIsKraft(h: HuffTbl, l: nat)
    requires Typed(h) && l <= 16 && h.bits[0] == 0
    ensures Sorted(Lengths(h, l)) && Weight(Lengths(h, l), |Lengths(h, l)|) == Shl(Horner(h.bits, l), 16 - l)
    ensures |Lengths(h, l)| == Total(h.bits[..l + 1])
  {
    hide Shl, Sorted, Lengths, Weight, Horner, Total, Copies;
    LengthsSorted(h, l);
    SumsUnfold(h, l);
    if l == 0 {
      ShlOfZero(16);
    } else {
      WeightIsKraft(h, l - 1);
      var k: nat := h.bits[l];
      WeightCopies(Lengths(h, l - 1), l, k);
      ShlPlus(2 * Horner(h.bits, l - 1), k, 16 - l);
      ShlTwice(Horner(h.bits, l - 1), 16 - l);
    }
  }

  lemma SumsUnfold(h: HuffTbl, l: nat)
    requires Typed(h) && l <= 16 && h.bits[0] == 0
    ensures l == 0 ==> Lengths(h, l) == [] && Horner(h.bits, l) == 0 && Total(h.bits[..l + 1]) == 0
    ensures l == 0 ==> Sorted(Lengths(h, l)) && Weight(Lengths(h, l), 0) == 0
    ensures l > 0 ==>
      && Lengths(h, l) == Lengths(h, l - 1) + Copies(l, h.bits[l]) && Horner(h.bits, l) == 2 * Horner(h.bits, l - 1) + h.bits[l]
      && Total(h.bits[..l + 1]) == Total(h.bits[..l]) + h.bits[l]
  {
    assert h.bits[..l + 1][..l] == h.bits[..l];
    if l == 0 {
      assert h.bits[..0] == [];
    }
  }

  lemma {:induction false} TotalSplit(t: seq<int>, n: nat)
    requires n <= |t| && forall k :: n <= k < |t| ==> t[k] == 0
    ensures Total(t) == Total(t[..n])
    decreases |t|
  {
    if n < |t| {
      TotalSplit(t[..|t| - 1], n);
      assert t[..|t| - 1][..n] == t[..n];
    } else {
      assert t[..n] == t;
    }
  }

  lemma {:induction false} HornerPrefix(bits: seq<int>, n: nat, m: nat)
    requires n < m <= |bits|
    ensures Horner(bits[..m], n) == Horner(bits, n)
  {
    if n > 0 {
      HornerPrefix(bits, n - 1, m);
    }
  }

  /** Fill a table specification up to its fixed size. */
  function Padded(vals: seq<byte>): (r: seq<byte>)
    requires |vals| <= 256
    ensures |r| == 256 && r[..|vals|] == vals
  {
    var z: seq<byte> := seq(256 - |vals|, _ => 0);
    vals + z
  }

  /** The counts and the list make a table that every derivation accepts, with a code for
  exactly the listed symbols. */
  lemma TableIsLegal(bits: seq<byte>, vals: seq<byte>)
    requires |bits| == MAX_CLEN + 1 && bits[0] == 0 && NoneAbove(bits, 16) && Horner(bits, 16) < 0x10000
    requires Total(bits) == |vals| <= 256 && forall p, q :: 0 <= p < q < |vals| ==> vals[p] != vals[q]
    ensures var h := HuffTbl(bits[..17], Padded(vals));
      Accepted(h) && Encodable(h, false) && CodeOf(h).vals == vals
  {
    hide Shl, Weight, Total, Horner, Words;
    var h := HuffTbl(bits[..17], Padded(vals));
    HornerPrefix(bits, 16, 17);
    WeightIsKraft(h, 16);
    TotalSplit(bits, 17);
    assert h.bits[..17] == bits[..17];
    assert Shl(Horner(h.bits, 16), 0) == Horner(h.bits, 16) by {
      ShlNone(Horner(h.bits, 16));
    }
  }

  lemma ShlNone(x: int)
    ensures Shl(x, 0) == x
  {
  }

  /** Just the symbols that occur have words. */
  ghost predicate Covers(c: Code, f: seq<nat>)
    requires |f| == SYMBOLS
  {
    forall s: byte :: HasWord(c, s) <==> f[s] > 0
  }

  /** A smaller code size never gets a longer word. */
  ghost predicate InOrder(c: Code, f: seq<nat>, cs: seq<nat>)
    requires |f| == |cs| == SYMBOLS && Proper(c)
  {
    forall s: byte, t: byte :: f[s] > 0 && f[t] > 0 && cs[s] < cs[t] ==> |Word(c, s)| <= |Word(c, t)|
  }

  /** Each word has just the size found. */
  ghost predicate AsFound(c: Code, f: seq<nat>, cs: seq<nat>)
    requires |f| == |cs| == SYMBOLS && Proper(c)
  {
    forall s: byte :: f[s] > 0 ==> |Word(c, s)| == cs[s]
  }

  ghost predicate NoneOver(cs: seq<nat>, l: nat) {
    forall j: nat :: j < |cs| ==> cs[j] <= l
  }

  /** Symbols and their words: in the order of the code sizes, and exactly of these sizes unless
  one is above sixteen. */
  ghost predicate Words(c: Code, f: seq<nat>, cs: seq<nat>)
    requires |f| == |cs| == SYMBOLS && Proper(c)
  {
    Covers(c, f) && InOrder(c, f, cs) && (NoneOver(cs, 16) ==> AsFound(c, f, cs))
  }

  /** Code sizes for just the symbols that occur, filling the code space. */
  ghost predicate Full(f: seq<nat>, cs: seq<nat>)
    requires |f| == |cs| == SYMBOLS
  {
    && (forall j: nat :: j < SYMBOLS ==> (cs[j] > 0 <==> f[j] > 0) && cs[j] <= DEPTH)
    && Total(SizeTerms(cs, DEPTH)) == Shl(1, DEPTH)
  }

  /** The pseudo-symbol's code is among the longest, so the word taken off the longest length is
  its own if none is longer than sixteen bits. */
  lemma LastIsPseudo(bits: seq<byte>, cs: seq<nat>, i: nat)
    requires |cs| == SYMBOLS && Exact(bits, cs) && forall j: nat :: j < SYMBOLS ==> cs[j] <= cs[256]
    requires 0 < cs[256] <= 16 && 1 <= i <= 16 && bits[i] > 0 && forall k :: i < k <= 16 ==> bits[k] == 0
    ensures i == cs[256]
    ensures forall l :: 1 <= l <= 16 ==> bits[i := bits[i] - 1][l] == Total(AtSize(cs[..256], l))
  {
    hide Total;
    AtSizeFound(cs, i);
    AtSizeFound(cs, cs[256]);
    forall l | 1 <= l <= 16
      ensures bits[l] == Total(AtSize(cs[..256], l)) + if l == i then 1 else 0
    {
      assert cs[..257] == cs;
      AtSizeNext(cs, 256, l);
    }
  }

  /** The list of a table's symbols by code size. */
  ghost predicate Ranked(h: HuffTbl, f: seq<nat>, cs: seq<nat>, vals: seq<byte>) {
    && |f| == |cs| == SYMBOLS && Accepted(h) && Encodable(h, false) && Symbols(h) == vals && Listed(cs, vals, MAX_CLEN + 1, 0)
    && NoneOver(cs, MAX_CLEN) && forall j: nat :: j < SYMBOLS ==> (cs[j] > 0 <==> f[j] > 0)
  }

  lemma PlaceOf(h: HuffTbl, f: seq<nat>, cs: seq<nat>, vals: seq<byte>, s: byte) returns (p: nat)
    requires Ranked(h, f, cs, vals) && f[s] > 0
    ensures p < |vals| && vals[p] == s && Proper(CodeOf(h)) && p < |Lengths(h, 16)| && |Word(CodeOf(h), s)| == Lengths(h, 16)[p]
  {
    hide Accepted, Encodable, Word, Lengths, Proper;
    LengthPerSymbol(h);
    p :| p < |vals| && vals[p] == s;
    WordLengthAt(h, p);
  }

  lemma LengthPerSymbol(h: HuffTbl)
    requires Accepted(h)
    ensures Typed(h) && |Lengths(h, 16)| == |Symbols(h)|
  {
  }

  lemma SmallerFirst(cs: seq<nat>, vals: seq<byte>, p: nat, q: nat)
    requires |cs| == SYMBOLS && Listed(cs, vals, MAX_CLEN + 1, 0) && p < |vals| && q < |vals| && cs[vals[p]] < cs[vals[q]]
    ensures p < q
  {
    var s, t := vals[p], vals[q];
    assert Before(cs, s, t);
  }

  lemma LengthsAscend(h: HuffTbl, p: nat, q: nat)
    requires Accepted(h) && p < q < |Lengths(h, 16)|
    ensures Lengths(h, 16)[p] <= Lengths(h, 16)[q]
  {
    hide Lengths;
    LengthsSorted(h, 16);
  }

  lemma TableInOrder(h: HuffTbl, f: seq<nat>, cs: seq<nat>, vals: seq<byte>)
    requires Ranked(h, f, cs, vals) && Proper(CodeOf(h))
    ensures InOrder(CodeOf(h), f, cs)
  {
    hide Ranked, Proper, Word, Lengths, Accepted;
    RankedShape(h, f, cs, vals);
    forall s: byte, t: byte | f[s] > 0 && f[t] > 0 && cs[s] < cs[t]
      ensures |Word(CodeOf(h), s)| <= |Word(CodeOf(h), t)|
    {
      var p := PlaceOf(h, f, cs, vals, s);
      var q := PlaceOf(h, f, cs, vals, t);
      SmallerFirst(cs, vals, p, q);
      LengthsAscend(h, p, q);
    }
  }

  lemma RankedShape(h: HuffTbl, f: seq<nat>, cs: seq<nat>, vals: seq<byte>)
    requires Ranked(h, f, cs, vals)
    ensures |f| == |cs| == SYMBOLS && Accepted(h) && Typed(h) && Listed(cs, vals, MAX_CLEN + 1, 0)
  {
  }

  lemma TableAsFound(h: HuffTbl, f: seq<nat>, cs: seq<nat>, vals: seq<byte>)
    requires Ranked(h, f, cs, vals) && Proper(CodeOf(h)) && NoneOver(cs, 16)
    requires forall l :: 1 <= l <= 16 ==> h.bits[l] == Total(AtSize(cs[..256], l))
    ensures AsFound(CodeOf(h), f, cs)
  {
    hide Encodable, Word, Lengths, Proper, Total, AtSize, Legal, Ascending;
    assert forall p, q :: 0 <= p < q < |vals| ==> Before(cs, vals[p], vals[q]);
    LengthsAreSizes(h, cs, vals);
    forall s: byte | f[s] > 0
      ensures |Word(CodeOf(h), s)| == cs[s]
    {
      var p := PlaceOf(h, f, cs, vals, s);
    }
  }

  /** What the table's words are. */
  lemma TableWords(h: HuffTbl, f: seq<nat>, cs: seq<nat>, vals: seq<byte>)
    requires Ranked(h, f, cs, vals) && CodeOf(h).vals == vals
    requires NoneOver(cs, 16) ==> forall l :: 1 <= l <= 16 ==> h.bits[l] == Total(AtSize(cs[..256], l))
    ensures Proper(CodeOf(h)) && Words(CodeOf(h), f, cs)
  {
    hide Legal, Lengths, Word, Total, AtSize, CodeOf, Accepted, Encodable, InOrder, AsFound, Proper;
    EncodingTables.ProperTable(h, false);
    TableInOrder(h, f, cs, vals);
    ListedSymbols(f, cs, vals);
    if NoneOver(cs, 16) {
      TableAsFound(h, f, cs, vals);
    }
  }

  /** How many symbols have each code size, the pseudo-symbol included. */
  ghost function SizeCounts(cs: seq<nat>): (c: seq<int>)
    ensures |c| == 33 && c[0] == 0 && forall l :: 1 <= l <= 32 ==> c[l] == Total(AtSize(cs, l))
  {
    seq(33, l requires 0 <= l < 33 => if l == 0 then 0 else Total(AtSize(cs, l)))
  }

  /** The counts of a table: those of the code sizes, adjusted to sixteen bits, less one word of the
  greatest length for the pseudo-symbol. */
  ghost function TableCounts(cs: seq<nat>): (c: seq<int>)
    ensures |c| == 17
  {
    var k := FigureK3(SizeCounts(cs), 32);
    var i := LongestUpTo(k, 16);
    k[i := k[i] - 1][..17]
  }

  /** Just the symbols that occur, by code size and then by value. */
  ghost predicate BySize(vals: seq<byte>, f: seq<nat>, cs: seq<nat>)
    requires |f| == |cs| == SYMBOLS
  {
    && (forall s: byte :: s in vals <==> f[s] > 0)
    && forall p, q :: 0 <= p < q < |vals| ==> cs[vals[p]] < cs[vals[q]] || (cs[vals[p]] == cs[vals[q]] && vals[p] < vals[q])
  }

  lemma ListIsBySize(f: seq<nat>, cs: seq<nat>, vals: seq<byte>)
    requires |f| == |cs| == SYMBOLS && Listed(cs, vals, MAX_CLEN + 1, 0)
    requires forall j: nat :: j < SYMBOLS ==> (cs[j] > 0 <==> f[j] > 0) && cs[j] <= MAX_CLEN
    ensures BySize(vals, f, cs)
  {
    forall p, q | 0 <= p < q < |vals|
      ensures cs[vals[p]] < cs[vals[q]] || (cs[vals[p]] == cs[vals[q]] && vals[p] < vals[q])
    {
      assert Before(cs, vals[p], vals[q]);
    }
  }

  lemma CountsAreTables(counted: seq<byte>, cs: seq<nat>, limited: seq<byte>, bits: seq<byte>, i: nat)
    requires Exact(counted, cs) && counted[0] == 0 && limited == FigureK3(counted, MAX_CLEN) && |limited| == MAX_CLEN + 1
    requires 1 <= i <= 16 && limited[i] > 0 && (forall k :: i < k <= 16 ==> limited[k] == 0) && bits == limited[i := limited[i] - 1]
    ensures bits[..17] == TableCounts(cs)
  {
    hide FigureK3, Total, AtSize;
    assert counted == SizeCounts(cs);
    assert LongestUpTo(limited, 16) == i;
  }

  /** Some code size is above thirty-two, which ends the program. */
  ghost predicate TooDeep(cs: seq<nat>) {
    exists j: nat :: j < |cs| && cs[j] > MAX_CLEN
  }

  /** jpeg_gen_optimal_table: given counts of at least one and at most 254 real symbols, the
  lengths found for these and the pseudo-symbol are optimal and fill the code space; unless one
  exceeds 32 bits, the table made of them is legal, has a code for exactly the symbols that
  occur, and orders their words by these lengths. */
  method GenOptimalTable(freq: array<nat>) returns (r: Option<HuffTbl>)
    requires freq.Length == SYMBOLS && Total(freq[..256]) < MAX_COUNT
    requires exists s: byte :: freq[s] > 0
    requires Total(Sized(freq[..256])) <= 254
    modifies freq
    ensures var f := old(freq[..])[256 := 1];
      Optimal(f, HuffmanSizes(f)) && WellSized(f, HuffmanSizes(f)) && Full(f, HuffmanSizes(f))
    ensures r.None? <==> TooDeep(HuffmanSizes(old(freq[..])[256 := 1]))
    ensures r.Some? ==> Typed(r.value) && Accepted(r.value) && Encodable(r.value, false) && Proper(CodeOf(r.value))
    ensures r.Some? ==> Words(CodeOf(r.value), old(freq[..])[256 := 1], HuffmanSizes(old(freq[..])[256 := 1]))
    ensures r.Some? ==> r.value.bits == TableCounts(HuffmanSizes(old(freq[..])[256 := 1]))
    ensures r.Some? ==> BySize(Symbols(r.value), old(freq[..])[256 := 1], HuffmanSizes(old(freq[..])[256 := 1]))
  {
    hide Total, Optimal, OneTree, Complete, Accepted, Encodable, Listed, Sized, SizeTerms, Counts, Horner, Shl, CodeOf, Words, Exact,
      Attained, HuffmanSizes, TableCounts, BySize;
    ghost var f1 := old(freq[..])[256 := 1];
    ghost var s: byte :| freq[s] > 0;
    freq[256] := 1;
    assert freq[..] == f1;
    CountsFit(old(freq[..]));
    var codesize := AssignLengths(freq);
    ghost var lengths := codesize[..];
    KraftIsOne(f1, lengths, s, 256);
    SameSized(f1, lengths);
    var counted := CountLengths(codesize[..]);
    if counted.None? {
      return None;
    }
    r := TableOf(codesize, counted.value, f1);
  }

  /** The table made of code sizes that were counted. */
  method TableOf(codesize: array<nat>, counted: seq<byte>, ghost f: seq<nat>) returns (r: Option<HuffTbl>)
    requires codesize.Length == SYMBOLS == |f| && f[256] > 0 && Full(f, codesize[..]) && WellSized(f, codesize[..])
    requires Counts(counted, codesize[..]) && Exact(counted, codesize[..]) && Total(Sized(codesize[..])) <= 255
    requires NoneOver(codesize[..], MAX_CLEN)
    ensures r.Some? && Typed(r.value) && Accepted(r.value) && Encodable(r.value, false) && Proper(CodeOf(r.value))
    ensures Words(CodeOf(r.value), f, codesize[..])
    ensures r.value.bits == TableCounts(codesize[..]) && BySize(Symbols(r.value), f, codesize[..])
  {
    hide Total, Complete, Accepted, Encodable, Listed, Sized, SizeTerms, Counts, Horner, Shl, CodeOf, Words, Exact, Attained, HuffmanSizes,
      AtSize, NoneAbove, FigureK3, TableCounts, BySize, LongestUpTo;
    ghost var lengths := codesize[..];
    KraftIsOne32(lengths);
    ghost var n := CountsComplete(counted, lengths);
    var bits := LimitLengths(counted, n);
    ghost var limited := bits;
    CompleteShape(bits, n);
    CompleteShape(counted, n);
    ghost var i;
    bits, i := DropLast(bits, n);
    var vals := SortSymbols(codesize[..]);
    ListLength(lengths, vals);
    TableIsLegal(bits, vals);
    r := Some(HuffTbl(bits[..17], Padded(vals)));
    if NoneOver(lengths, 16) {
      ShortCounts(counted, lengths);
      LastIsPseudo(counted, lengths, i);
    }
    TableSymbols(r.value, vals);
    NoEmptyWord(counted, lengths);
    CountsAreTables(counted, lengths, limited, bits, i);
    ListIsBySize(f, lengths, vals);
    TableWords(r.value, f, lengths, vals);
  }

  lemma NoEmptyWord(bits: seq<byte>, cs: seq<nat>)
    requires Counts(bits, cs)
    ensures |bits| == MAX_CLEN + 1 && bits[0] == 0
  {
  }

  lemma ShortCounts(bits: seq<byte>, cs: seq<nat>)
    requires |cs| == SYMBOLS && Exact(bits, cs) && forall j: nat :: j < SYMBOLS ==> cs[j] <= 16
    ensures NoneAbove(bits, 16)
  {
    hide Total;
    forall l | 16 < l <= MAX_CLEN
      ensures bits[l] == 0
    {
      AtSizeFound(cs, l);
    }
  }

  lemma TableSymbols(h: HuffTbl, vals: seq<byte>)
    requires Accepted(h) && CodeOf(h).vals == vals
    ensures Symbols(h) == vals
  {
  }

  lemma CountsFit(f: seq<nat>)
    requires |f| == SYMBOLS && Total(f[..256]) < MAX_COUNT && Total(Sized(f[..256])) <= 254
    ensures Total(f[256 := 1]) <= MAX_COUNT && Total(Sized(f[256 := 1])) <= 255
  {
    var g := f[256 := 1];
    assert g[..256] == f[..256];
    assert Sized(g)[..256] == Sized(f[..256]);
  }

  lemma SameSized(f: seq<nat>, cs: seq<nat>)
    requires |f| == |cs| && forall j: nat :: j < |f| ==> (cs[j] > 0 <==> f[j] > 0)
    ensures Sized(cs) == Sized(f)
  {
  }

  lemma CountsComplete(bits: seq<byte>, cs: seq<nat>) returns (n: nat)
    requires Counts(bits, cs) && Total(SizeTerms(cs, MAX_CLEN)) == Shl(1, MAX_CLEN) && Total(Sized(cs)) <= 255
    ensures n == Total(Sized(cs)) && Complete(bits, n)
  {
    hide Total, Shl, SizeTerms, Horner;
    TotalNonnegative(Sized(cs));
    n := Total(Sized(cs));
  }

  lemma ListedSymbols(f: seq<nat>, cs: seq<nat>, vals: seq<byte>)
    requires |f| == |cs| == SYMBOLS && Listed(cs, vals, MAX_CLEN + 1, 0)
    requires forall j: nat :: j < SYMBOLS ==> (cs[j] > 0 <==> f[j] > 0) && cs[j] <= MAX_CLEN
    ensures forall s: byte :: s in vals <==> f[s] > 0
  {
  }

  ghost function CountsOf(items: seq<Item>): (f: seq<nat>)
    ensures |f| == 256
  {
    seq(256, s requires 0 <= s < 256 => Count(items, s))
  }

  /** The counts of a scan are as the table generator wants them: at least one symbol, at most
  254 different ones, and a total below its search threshold. */
  ghost predicate FewSymbols(items: seq<Item>) {
    && (exists s: byte :: Sym(s) in items)
    && Total(CountsOf(items)) < MAX_COUNT && Total(Sized(CountsOf(items))) <= 254
  }

  lemma EnoughSymbols(items: seq<Item>, f: seq<nat>)
    requires FewSymbols(items) && |f| == SYMBOLS && forall s: byte :: f[s] == Count(items, s)
    ensures Total(f[..256]) < MAX_COUNT && Total(Sized(f[..256])) <= 254
    ensures exists s: byte :: f[s] > 0
  {
    hide Total, Sized;
    var s: byte :| Sym(s) in items;
    CountedIsSent(items, s);
    assert f[..256] == CountsOf(items);
  }

  lemma AllHaveCodes(items: seq<Item>, f: seq<nat>, c: Code)
    requires |f| == SYMBOLS && forall s: byte :: f[s] == Count(items, s)
    requires forall s: byte :: HasWord(c, s) <==> f[s] > 0
    ensures Coded(c, items)
  {
    hide HasWord;
    forall i | 0 <= i < |items| && items[i].Sym?
      ensures HasWord(c, items[i].s)
    {
      CountedIsSent(items, items[i].s);
    }
  }
}
