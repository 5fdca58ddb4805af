/** Two-pass sequential encoding: counts, generated tables, and no symbol without a code. */
module SequentialOptimal {

  import opened Wrappers
  import opened CodeString
  import opened PrefixCode
  import opened DerivedTables
  import opened CodedItems
  import opened EncodingTables
  import opened ZigZag
  import opened SequentialSpec
  import opened SequentialScan
  import opened SequentialGather
  import opened SequentialSymbols
  import opened CountedSymbols
  import SequentialRoundTrip
  import SymbolMerging
  import MergedTrees
  import HuffmanLengths
  import CanonicalCode
  import opened OptimalTable
  import opened CodeLengths

  /** encode_mcu_gather. */
  class Gatherer {
    const lay: Layout
    const dc: seq<array<nat>>
    const ac: seq<array<nat>>
    var lastDc: seq<int>
    var togo: nat

    ghost predicate Valid()
      reads this
    {
      ValidLayout(lay) && CountArrays(dc, ac) && Predictions(lay, lastDc)
    }

    constructor (lay: Layout, dc: seq<array<nat>>, ac: seq<array<nat>>)
      requires ValidLayout(lay) && CountArrays(dc, ac)
      ensures Valid() && this.lay == lay && this.dc == dc && this.ac == ac
      ensures togo == lay.restartInterval && lastDc == NoPredictions(lay)
    {
      this.lay, this.dc, this.ac := lay, dc, ac;
      lastDc, togo := NoPredictions(lay), lay.restartInterval;
    }

    method EncodeMcuGather(blocks: seq<array<int>>) returns (ok: bool)
      requires Valid() && BlockArrays(blocks, dc, ac)
      requires (forall i :: 0 <= i < |blocks| ==> blocks[i].Length == DCTSIZE2) && McuOf(lay, Views(blocks))
      modifies this, dc, ac
      ensures Valid()
      ensures ok <==> McuInRange(lay, Start(lay, old(togo), old(lastDc)), Views(blocks), 0)
      ensures ok ==> lastDc == LastAfter(lay, Start(lay, old(togo), old(lastDc)), Views(blocks), 0)
      ensures togo == Togo(lay, old(togo))
      ensures ok ==> forall t :: 0 <= t < NUM_HUFF_TBLS ==>
        Added(Snap(dc)[t], old(Snap(dc))[t], McuDc(lay, Start(lay, old(togo), old(lastDc)), Views(blocks), 0, t))
      ensures ok ==> forall t :: 0 <= t < NUM_HUFF_TBLS ==> Added(Snap(ac)[t], old(Snap(ac))[t], McuAc(lay, Views(blocks), 0, t))
    {
      hide Added, McuInRange, LastAfter, McuDc, McuAc, Views, BlockArrays;
      if lay.restartInterval > 0 {
        if togo == 0 {
          lastDc := NoPredictions(lay);
          togo := lay.restartInterval;
        }
        togo := togo - 1;
      }
      var last;
      ok, last := GatherBlocks(lay, lastDc, blocks, dc, ac);
      if ok {
        lastDc := last;
      }
    }
  }

  function NoPredictions(lay: Layout): (last: seq<int>)
    ensures Predictions(lay, last)
  {
    seq(|lay.dcTbl|, _ => 0)
  }

  /** Every count is the number of times the symbol is sent. */
  ghost predicate Tally(counts: seq<nat>, items: seq<Item>) {
    |counts| == 257 && forall s: byte :: counts[s] == Count(items, s)
  }

  /** The symbols sent for the MCUs of a scan. */
  ghost function DcOf(lay: Layout, ms: seq<mcu>, t: nat): seq<Item>
    requires ValidLayout(lay) && forall m :: m in ms ==> McuOf(lay, m)
  {
    AllDc(lay, ms, lay.restartInterval, NoPredictions(lay), t)
  }

  ghost predicate ScanInRange(lay: Layout, ms: seq<mcu>)
    requires ValidLayout(lay) && forall m :: m in ms ==> McuOf(lay, m)
  {
    AllInRange(lay, ms, lay.restartInterval, NoPredictions(lay))
  }

  ghost predicate StillToCount(now: seq<seq<nat>>, items: seq<seq<Item>>, left: seq<seq<Item>>) {
    && |now| == |items| == |left| == NUM_HUFF_TBLS
    && forall t :: 0 <= t < NUM_HUFF_TBLS ==> Remains(now[t], Zeros257(), items[t], left[t])
  }

  function Zeros257(): (z: seq<nat>)
    ensures |z| == 257 && forall i :: 0 <= i < 257 ==> z[i] == 0
  {
    seq(257, _ => 0)
  }

  ghost function DcAll(lay: Layout, ms: seq<mcu>, togo: nat, last: seq<int>): (s: seq<seq<Item>>)
    requires ValidLayout(lay) && Predictions(lay, last) && forall m :: m in ms ==> McuOf(lay, m)
    ensures |s| == NUM_HUFF_TBLS && forall t :: 0 <= t < NUM_HUFF_TBLS ==> s[t] == AllDc(lay, ms, togo, last, t)
  {
    seq(NUM_HUFF_TBLS, t requires 0 <= t < NUM_HUFF_TBLS => AllDc(lay, ms, togo, last, t))
  }

  ghost function AcAll(lay: Layout, ms: seq<mcu>): (s: seq<seq<Item>>)
    requires ValidLayout(lay) && forall m :: m in ms ==> McuOf(lay, m)
    ensures |s| == NUM_HUFF_TBLS && forall t :: 0 <= t < NUM_HUFF_TBLS ==> s[t] == AllAc(lay, ms, t)
  {
    seq(NUM_HUFF_TBLS, t requires 0 <= t < NUM_HUFF_TBLS => AllAc(lay, ms, t))
  }

  lemma McuCounted(now: seq<seq<nat>>, before: seq<seq<nat>>, items: seq<seq<Item>>, parts: seq<seq<Item>>, left: seq<seq<Item>>,
      left0: seq<seq<Item>>)
    requires StillToCount(before, items, left0) && |now| == |parts| == |left| == NUM_HUFF_TBLS
    requires forall t :: 0 <= t < NUM_HUFF_TBLS ==> left0[t] == parts[t] + left[t] && Added(now[t], before[t], parts[t])
    ensures StillToCount(now, items, left)
  {
    hide Added, Remains;
    forall t | 0 <= t < NUM_HUFF_TBLS
      ensures Remains(now[t], Zeros257(), items[t], left[t])
    {
      CountedPart(now[t], before[t], Zeros257(), items[t], parts[t], left[t]);
    }
  }

  lemma StartTally(now: seq<seq<nat>>, items: seq<seq<Item>>)
    requires |now| == |items| == NUM_HUFF_TBLS && forall t :: 0 <= t < NUM_HUFF_TBLS ==> now[t] == Zeros257()
    ensures StillToCount(now, items, items)
  {
    forall t | 0 <= t < NUM_HUFF_TBLS
      ensures Remains(now[t], Zeros257(), items[t], items[t])
    {
      RemainsAll(now[t], items[t]);
    }
  }

  lemma EndTally(now: seq<seq<nat>>, items: seq<seq<Item>>, left: seq<seq<Item>>)
    requires StillToCount(now, items, left) && forall t :: 0 <= t < NUM_HUFF_TBLS ==> left[t] == []
    ensures forall t :: 0 <= t < NUM_HUFF_TBLS ==> Tally(now[t], items[t])
  {
    forall t | 0 <= t < NUM_HUFF_TBLS
      ensures Tally(now[t], items[t])
    {
      NothingRemains(now[t], Zeros257(), items[t]);
    }
  }

  lemma UnrollAll(lay: Layout, m: mcu, rest: seq<mcu>, togo: nat, last: seq<int>)
    requires ValidLayout(lay) && Predictions(lay, last) && McuOf(lay, m) && forall x :: x in rest ==> McuOf(lay, x)
    ensures var l := Start(lay, togo, last);
      forall t :: AllDc(lay, [m] + rest, togo, last, t) ==
        McuDc(lay, l, m, 0, t) + AllDc(lay, rest, Togo(lay, togo), LastAfter(lay, l, m, 0), t)
    ensures var l := Start(lay, togo, last);
      AllInRange(lay, [m] + rest, togo, last)
      == (McuInRange(lay, l, m, 0) && AllInRange(lay, rest, Togo(lay, togo), LastAfter(lay, l, m, 0)))
    ensures forall t :: AllAc(lay, [m] + rest, t) == McuAc(lay, m, 0, t) + AllAc(lay, rest, t)
  {
    hide McuDc, McuAc, LastAfter, McuInRange, ValidLayout, Predictions, McuOf;
    assert ([m] + rest)[0] == m && ([m] + rest)[1..] == rest;
  }

  method NewCounts(others: seq<array<nat>>) returns (counts: seq<array<nat>>)
    ensures |counts| == NUM_HUFF_TBLS && fresh(counts) && forall t :: 0 <= t < NUM_HUFF_TBLS ==> Snap(counts)[t] == Zeros257()
    ensures forall t, u :: 0 <= t < u < NUM_HUFF_TBLS ==> counts[t] != counts[u]
    ensures forall t, u :: 0 <= t < NUM_HUFF_TBLS && 0 <= u < |others| ==> counts[t] != others[u]
  {
    var a := new nat[257](_ => 0);
    var b := new nat[257](_ => 0);
    var c := new nat[257](_ => 0);
    var d := new nat[257](_ => 0);
    counts := [a, b, c, d];
  }

  method NewStatistics() returns (dc: seq<array<nat>>, ac: seq<array<nat>>)
    ensures fresh(dc) && fresh(ac) && CountArrays(dc, ac)
    ensures forall t :: 0 <= t < NUM_HUFF_TBLS ==> Snap(dc)[t] == Zeros257() && Snap(ac)[t] == Zeros257()
  {
    dc := NewCounts([]);
    ac := NewCounts(dc);
    LengthsOf(dc, ac);
  }

  /** The statistics pass over a scan succeeds exactly if every value is in range, and then
  counts every symbol as often as it is sent. */
  method GatherScan(lay: Layout, mcus: seq<seq<array<int>>>) returns (ok: bool, dc: seq<array<nat>>, ac: seq<array<nat>>)
    requires ValidLayout(lay) && SequentialRoundTrip.McuArrays(|lay.membership|, mcus)
    requires forall x :: x in SequentialRoundTrip.McuViews(|lay.membership|, mcus) ==> McuOf(lay, x)
    ensures fresh(dc) && fresh(ac) && CountArrays(dc, ac)
    ensures var ms := SequentialRoundTrip.McuViews(|lay.membership|, mcus);
      && (ok <==> ScanInRange(lay, ms))
      && (ok ==> forall t :: 0 <= t < NUM_HUFF_TBLS ==> Tally(Snap(dc)[t], DcOf(lay, ms, t)) && Tally(Snap(ac)[t], AllAc(lay, ms, t)))
  {
    hide Views, McuDc, McuAc, LastAfter, McuInRange, Added, Remains, SequentialRoundTrip.McuViews, AllDc, AllAc, AllInRange, McuOf,
      Tally, BlockArrays, CountArrays, Counting;
    ghost var ms := SequentialRoundTrip.McuViews(|lay.membership|, mcus);
    dc, ac := NewStatistics();
    var g := new Gatherer(lay, dc, ac);
    StartCounts(lay, ms, Snap(dc), Snap(ac));
    var n := 0;
    while n < |mcus|
      invariant 0 <= n <= |mcus| && g.Valid() && g.lay == lay && g.dc == dc && g.ac == ac && fresh(g)
      invariant SequentialRoundTrip.McuViews(|lay.membership|, mcus) == ms
      invariant Counting(lay, ms, n, g.togo, g.lastDc, Snap(dc), Snap(ac))
    {
      ghost var togo0, last0, wasDc, wasAc := g.togo, g.lastDc, Snap(dc), Snap(ac);
      Foreign(mcus[n], dc, ac);
      assert ms[n] == Views(mcus[n]);
      ok := g.EncodeMcuGather(mcus[n]);
      assert SequentialRoundTrip.McuViews(|lay.membership|, mcus) == ms;
      if !ok {
        OutOfRange(lay, ms, n, togo0, last0, wasDc, wasAc);
        return;
      }
      McuGathered(lay, ms, n, togo0, last0, wasDc, wasAc, Snap(dc), Snap(ac));
      n := n + 1;
    }
    EndCounts(lay, ms, g.togo, g.lastDc, Snap(dc), Snap(ac));
    ok := true;
  }

  /** The MCUs before the n'th are in range and counted; the others are what still matters. */
  ghost predicate Counting(lay: Layout, ms: seq<mcu>, n: nat, togo: nat, last: seq<int>, dc: seq<seq<nat>>, ac: seq<seq<nat>>)
    requires ValidLayout(lay) && Predictions(lay, last) && n <= |ms| && forall m :: m in ms ==> McuOf(lay, m)
  {
    && AllInRange(lay, ms[n..], togo, last) == ScanInRange(lay, ms)
    && StillToCount(dc, DcAll(lay, ms, lay.restartInterval, NoPredictions(lay)), DcAll(lay, ms[n..], togo, last))
    && StillToCount(ac, AcAll(lay, ms), AcAll(lay, ms[n..]))
  }

  lemma StartCounts(lay: Layout, ms: seq<mcu>, dc: seq<seq<nat>>, ac: seq<seq<nat>>)
    requires ValidLayout(lay) && (forall m :: m in ms ==> McuOf(lay, m)) && |dc| == |ac| == NUM_HUFF_TBLS
    requires forall t :: 0 <= t < NUM_HUFF_TBLS ==> dc[t] == Zeros257() && ac[t] == Zeros257()
    ensures Counting(lay, ms, 0, lay.restartInterval, NoPredictions(lay), dc, ac)
  {
    hide McuOf, AllInRange, AllDc, AllAc, StillToCount;
    assert ms[0..] == ms;
    StartTally(dc, DcAll(lay, ms, lay.restartInterval, NoPredictions(lay)));
    StartTally(ac, AcAll(lay, ms));
  }

  lemma OutOfRange(lay: Layout, ms: seq<mcu>, n: nat, togo: nat, last: seq<int>, dc: seq<seq<nat>>, ac: seq<seq<nat>>)
    requires ValidLayout(lay) && Predictions(lay, last) && n < |ms| && forall m :: m in ms ==> McuOf(lay, m)
    requires Counting(lay, ms, n, togo, last, dc, ac) && !McuInRange(lay, Start(lay, togo, last), ms[n], 0)
    ensures !ScanInRange(lay, ms)
  {
    hide McuOf, McuInRange, StillToCount, LastAfter;
    assert ms[n..][0] == ms[n];
  }

  lemma McuGathered(lay: Layout, ms: seq<mcu>, n: nat, togo: nat, last: seq<int>, wasDc: seq<seq<nat>>, wasAc: seq<seq<nat>>,
      dc: seq<seq<nat>>, ac: seq<seq<nat>>)
    requires ValidLayout(lay) && Predictions(lay, last) && n < |ms| && forall m :: m in ms ==> McuOf(lay, m)
    requires Counting(lay, ms, n, togo, last, wasDc, wasAc) && McuInRange(lay, Start(lay, togo, last), ms[n], 0)
    requires |dc| == |ac| == |wasDc| == |wasAc| == NUM_HUFF_TBLS
    requires forall t :: 0 <= t < NUM_HUFF_TBLS ==> Added(dc[t], wasDc[t], McuDc(lay, Start(lay, togo, last), ms[n], 0, t))
    requires forall t :: 0 <= t < NUM_HUFF_TBLS ==> Added(ac[t], wasAc[t], McuAc(lay, ms[n], 0, t))
    ensures Counting(lay, ms, n + 1, Togo(lay, togo), LastAfter(lay, Start(lay, togo, last), ms[n], 0), dc, ac)
  {
    hide McuDc, McuAc, LastAfter, McuInRange, Added, AllDc, AllAc, AllInRange, McuOf, StillToCount, Predictions;
    var l, rest := Start(lay, togo, last), ms[n + 1..];
    assert ms[n..] == [ms[n]] + rest;
    var next := LastAfter(lay, l, ms[n], 0);
    UnrollAll(lay, ms[n], rest, togo, last);
    var dcParts := seq(NUM_HUFF_TBLS, t requires 0 <= t < NUM_HUFF_TBLS => McuDc(lay, l, ms[n], 0, t));
    var acParts := seq(NUM_HUFF_TBLS, t requires 0 <= t < NUM_HUFF_TBLS => McuAc(lay, ms[n], 0, t));
    McuCounted(dc, wasDc, DcAll(lay, ms, lay.restartInterval, NoPredictions(lay)), dcParts, DcAll(lay, rest, Togo(lay, togo), next),
      DcAll(lay, ms[n..], togo, last));
    McuCounted(ac, wasAc, AcAll(lay, ms), acParts, AcAll(lay, rest), AcAll(lay, ms[n..]));
  }

  lemma EndCounts(lay: Layout, ms: seq<mcu>, togo: nat, last: seq<int>, dc: seq<seq<nat>>, ac: seq<seq<nat>>)
    requires ValidLayout(lay) && Predictions(lay, last) && (forall m :: m in ms ==> McuOf(lay, m))
    requires Counting(lay, ms, |ms|, togo, last, dc, ac)
    ensures ScanInRange(lay, ms) && |dc| == |ac| == NUM_HUFF_TBLS
    ensures forall t :: 0 <= t < NUM_HUFF_TBLS ==> Tally(dc[t], DcOf(lay, ms, t)) && Tally(ac[t], AllAc(lay, ms, t))
  {
    hide McuOf, Tally;
    NoMcus(lay, ms[|ms|..], togo, last);
    EndTally(dc, DcAll(lay, ms, lay.restartInterval, NoPredictions(lay)), DcAll(lay, ms[|ms|..], togo, last));
    EndTally(ac, AcAll(lay, ms), AcAll(lay, ms[|ms|..]));
  }

  lemma NoMcus(lay: Layout, ms: seq<mcu>, togo: nat, last: seq<int>)
    requires ValidLayout(lay) && Predictions(lay, last) && ms == []
    ensures AllInRange(lay, ms, togo, last) && forall t :: AllDc(lay, ms, togo, last, t) == [] && AllAc(lay, ms, t) == []
  {
  }

  lemma LengthsOf(dc: seq<array<nat>>, ac: seq<array<nat>>)
    requires |dc| == |ac| == NUM_HUFF_TBLS
    requires forall t :: 0 <= t < NUM_HUFF_TBLS ==> Snap(dc)[t] == Zeros257() && Snap(ac)[t] == Zeros257()
    ensures forall t :: 0 <= t < NUM_HUFF_TBLS ==> dc[t].Length == ac[t].Length == 257
  {
    forall t | 0 <= t < NUM_HUFF_TBLS
      ensures dc[t].Length == ac[t].Length == 257
    {
      assert |dc[t][..]| == |Snap(dc)[t]| == 257 && |ac[t][..]| == |Snap(ac)[t]| == 257;
    }
  }

  /** Coefficients and counts are arrays of different elements. */
  lemma Foreign(blocks: seq<array<int>>, dc: seq<array<nat>>, ac: seq<array<nat>>)
    requires (forall i :: 0 <= i < |blocks| ==> blocks[i].Length == DCTSIZE2) && CountArrays(dc, ac)
    ensures BlockArrays(blocks, dc, ac)
  {
    forall i, t | 0 <= i < |blocks| && 0 <= t < NUM_HUFF_TBLS
      ensures blocks[i] as object != dc[t] as object && blocks[i] as object != ac[t] as object
    {
    }
  }

  /** A table the encoder can use to send some items. */
  ghost predicate Good(h: HuffTbl, items: seq<Item>, isDC: bool) {
    Accepted(h) && Encodable(h, isDC) && Proper(CodeOf(h)) && Coded(CodeOf(h), items)
  }

  /** DC categories are small enough for a DC table. */
  ghost predicate SmallSymbols(items: seq<Item>) {
    forall s: byte :: Sym(s) in items ==> s <= 15
  }

  /** The generated table of some counts; it fails exactly if a code would need more than
  thirty-two bits. */
  method MakeTable(counts: array<nat>, isDC: bool, ghost items: seq<Item>) returns (h: Option<HuffTbl>)
    requires Tally(counts[..], items) && FewSymbols(items) && (isDC ==> SmallSymbols(items))
    modifies counts
    ensures h.Some? <==> Codable(items)
    ensures h.Some? ==> Good(h.value, items, isDC)
  {
    hide FewSymbols, Total, Sized, Encodable, Accepted, Coded, SymbolMerging.Optimal, HasWord, Proper, InOrder, AsFound, TooDeep,
      HuffmanLengths.WellSized, Full, CodeOf, MergedTrees.HuffmanSizes;
    ghost var freq := counts[..];
    EnoughSymbols(items, freq);
    TallyFreq(freq, items);
    h := GenOptimalTable(counts);
    if h.Some? {
      AllHaveCodes(items, freq, CodeOf(h.value));
      DcEncodable(h.value, items, freq, isDC);
      ProperTable(h.value, isDC);
    }
  }

  lemma TallyFreq(freq: seq<nat>, items: seq<Item>)
    requires Tally(freq, items)
    ensures freq[256 := 1] == FreqOf(items)
  {
  }

  lemma DcEncodable(h: HuffTbl, items: seq<Item>, freq: seq<nat>, isDC: bool)
    requires Tally(freq, items) && (isDC ==> SmallSymbols(items))
    requires Accepted(h) && Encodable(h, false) && forall s: byte :: HasWord(CodeOf(h), s) <==> freq[s] > 0
    ensures Encodable(h, isDC)
  {
    hide CanonicalCode.Legal;
    if isDC {
      forall p | 0 <= p < |Symbols(h)|
        ensures Symbols(h)[p] <= 15
      {
        assert HasWord(CodeOf(h), Symbols(h)[p]);
        CountedIsSent(items, Symbols(h)[p]);
      }
    }
  }

  /** finish_pass_gather makes a table from every set of counts in use, once. */
  method FinishPassGather(lay: Layout, dc: seq<array<nat>>, ac: seq<array<nat>>, ghost dcItems: seq<seq<Item>>,
      ghost acItems: seq<seq<Item>>)
    returns (ok: bool, dcTables: seq<Option<HuffTbl>>, acTables: seq<Option<HuffTbl>>)
    requires ValidLayout(lay) && CountArrays(dc, ac) && |dcItems| == |acItems| == NUM_HUFF_TBLS
    requires forall t :: 0 <= t < NUM_HUFF_TBLS ==>
      Tally(Snap(dc)[t], dcItems[t]) && Tally(Snap(ac)[t], acItems[t]) && SmallSymbols(dcItems[t])
    requires forall i :: 0 <= i < |lay.dcTbl| ==> FewSymbols(dcItems[lay.dcTbl[i]]) && FewSymbols(acItems[lay.acTbl[i]])
    modifies dc, ac
    ensures |dcTables| == |acTables| == NUM_HUFF_TBLS
    ensures ok <==> forall i :: 0 <= i < |lay.dcTbl| ==> Codable(dcItems[lay.dcTbl[i]]) && Codable(acItems[lay.acTbl[i]])
    ensures ok ==> forall i :: 0 <= i < |lay.dcTbl| ==>
      Made(dcTables[lay.dcTbl[i]], dcItems[lay.dcTbl[i]], true) && Made(acTables[lay.acTbl[i]], acItems[lay.acTbl[i]], false)
  {
    hide Tally, FewSymbols, Made, SmallSymbols, Codable, Supplied, TablesSoFar, CountArrays;
    dcTables, acTables := [None, None, None, None], [None, None, None, None];
    ok := true;
    CountShape(dc, ac);
    NothingSupplied(dcTables, Snap(dc), dcItems, true);
    NothingSupplied(acTables, Snap(ac), acItems, false);
    for ci := 0 to |lay.dcTbl|
      invariant |dcTables| == |acTables| == NUM_HUFF_TBLS
      invariant TablesSoFar(dcTables, Snap(dc), dcItems, true) && TablesSoFar(acTables, Snap(ac), acItems, false)
      invariant ok && Supplied(dcTables, lay.dcTbl[..ci], dcItems) && Supplied(acTables, lay.acTbl[..ci], acItems)
    {
      TableNumbers(lay, ci);
      ghost var dcWas, acWas := dcTables, acTables;
      ok, dcTables, acTables := SupplyBoth(dc, ac, dcTables, acTables, lay.dcTbl[ci], lay.acTbl[ci], dcItems, acItems);
      if !ok {
        return;
      }
      SuppliedNext(dcTables, dcWas, lay.dcTbl, ci, dcItems);
      SuppliedNext(acTables, acWas, lay.acTbl, ci, acItems);
    }
    AllSupplied(dcTables, Snap(dc), lay.dcTbl, dcItems, true);
    AllSupplied(acTables, Snap(ac), lay.acTbl, acItems, false);
  }

  lemma TableNumbers(lay: Layout, ci: nat)
    requires ValidLayout(lay) && ci < |lay.dcTbl|
    ensures ci < |lay.acTbl| && lay.dcTbl[ci] < NUM_HUFF_TBLS && lay.acTbl[ci] < NUM_HUFF_TBLS
  {
  }

  /** These tables are there, and could be made. */
  ghost predicate Supplied(tables: seq<Option<HuffTbl>>, numbers: seq<nat>, items: seq<seq<Item>>)
    requires |tables| == |items| == NUM_HUFF_TBLS
  {
    forall i :: 0 <= i < |numbers| ==> numbers[i] < NUM_HUFF_TBLS && tables[numbers[i]].Some? && Codable(items[numbers[i]])
  }

  lemma NothingSupplied(tables: seq<Option<HuffTbl>>, counts: seq<seq<nat>>, items: seq<seq<Item>>, isDC: bool)
    requires |tables| == |counts| == |items| == NUM_HUFF_TBLS
    requires forall t :: 0 <= t < NUM_HUFF_TBLS ==> tables[t].None? && Tally(counts[t], items[t])
    ensures TablesSoFar(tables, counts, items, isDC) && Supplied(tables, [], items)
  {
    hide Tally, Made;
  }

  lemma SuppliedNext(tables: seq<Option<HuffTbl>>, were: seq<Option<HuffTbl>>, numbers: seq<nat>, n: nat, items: seq<seq<Item>>)
    requires |tables| == |were| == |items| == NUM_HUFF_TBLS && n < |numbers| && Supplied(were, numbers[..n], items)
    requires numbers[n] < NUM_HUFF_TBLS && tables[numbers[n]].Some? && Codable(items[numbers[n]])
    requires forall u :: 0 <= u < NUM_HUFF_TBLS && were[u].Some? ==> tables[u].Some?
    ensures Supplied(tables, numbers[..n + 1], items)
  {
    hide Codable;
    assert forall i :: 0 <= i < n ==> numbers[..n][i] == numbers[i];
  }

  lemma AllSupplied(tables: seq<Option<HuffTbl>>, counts: seq<seq<nat>>, numbers: seq<nat>, items: seq<seq<Item>>, isDC: bool)
    requires |tables| == |items| == NUM_HUFF_TBLS && Supplied(tables, numbers[..|numbers|], items)
    requires TablesSoFar(tables, counts, items, isDC)
    ensures forall i :: 0 <= i < |numbers| ==>
      numbers[i] < NUM_HUFF_TBLS && Made(tables[numbers[i]], items[numbers[i]], isDC) && Codable(items[numbers[i]])
  {
    hide Codable, Made, Tally;
    assert numbers[..|numbers|] == numbers;
  }

  /** The DC and the AC table of a component. */
  method SupplyBoth(dc: seq<array<nat>>, ac: seq<array<nat>>, dcTables0: seq<Option<HuffTbl>>, acTables0: seq<Option<HuffTbl>>,
      d: nat, a: nat, ghost dcItems: seq<seq<Item>>, ghost acItems: seq<seq<Item>>)
    returns (ok: bool, dcTables: seq<Option<HuffTbl>>, acTables: seq<Option<HuffTbl>>)
    requires CountArrays(dc, ac) && |dcTables0| == |acTables0| == NUM_HUFF_TBLS && d < NUM_HUFF_TBLS && a < NUM_HUFF_TBLS
    requires TablesSoFar(dcTables0, Snap(dc), dcItems, true) && TablesSoFar(acTables0, Snap(ac), acItems, false)
    requires |dcItems| == |acItems| == NUM_HUFF_TBLS && FewSymbols(dcItems[d]) && FewSymbols(acItems[a]) && SmallSymbols(dcItems[d])
    modifies dc, ac
    ensures |dcTables| == |acTables| == NUM_HUFF_TBLS
    ensures ok <==> Codable(dcItems[d]) && Codable(acItems[a])
    ensures ok ==> TablesSoFar(dcTables, Snap(dc), dcItems, true) && TablesSoFar(acTables, Snap(ac), acItems, false)
    ensures ok ==> dcTables[d].Some? && acTables[a].Some?
    ensures forall u :: 0 <= u < NUM_HUFF_TBLS && dcTables0[u].Some? ==> dcTables[u].Some?
    ensures forall u :: 0 <= u < NUM_HUFF_TBLS && acTables0[u].Some? ==> acTables[u].Some?
  {
    hide Tally, FewSymbols, Made, SmallSymbols, Codable, TablesSoFar;
    ghost var acWas := Snap(ac);
    acTables := acTables0;
    ok, dcTables := Supply(dc, dcTables0, d, true, dcItems);
    assert Snap(ac) == acWas;
    if ok {
      ghost var dcWas := Snap(dc);
      ok, acTables := Supply(ac, acTables0, a, false, acItems);
      assert Snap(dc) == dcWas;
    }
  }

  /** A table is made, or its counts are still untouched. */
  ghost predicate TablesSoFar(tables: seq<Option<HuffTbl>>, counts: seq<seq<nat>>, items: seq<seq<Item>>, isDC: bool) {
    && |tables| == |counts| == |items| == NUM_HUFF_TBLS
    && forall t :: 0 <= t < NUM_HUFF_TBLS ==> if tables[t].Some? then Made(tables[t], items[t], isDC) else Tally(counts[t], items[t])
  }

  /** Make table t unless that was done. */
  method Supply(counts: seq<array<nat>>, tables0: seq<Option<HuffTbl>>, t: nat, isDC: bool, ghost items: seq<seq<Item>>)
    returns (ok: bool, tables: seq<Option<HuffTbl>>)
    requires |counts| == |tables0| == NUM_HUFF_TBLS && t < NUM_HUFF_TBLS
    requires forall u, v :: 0 <= u < v < NUM_HUFF_TBLS ==> counts[u] != counts[v]
    requires TablesSoFar(tables0, Snap(counts), items, isDC) && FewSymbols(items[t]) && (isDC ==> SmallSymbols(items[t]))
    modifies counts
    ensures |tables| == NUM_HUFF_TBLS
    ensures ok <==> Codable(items[t])
    ensures ok ==> TablesSoFar(tables, Snap(counts), items, isDC) && tables[t].Some?
    ensures forall u :: 0 <= u < NUM_HUFF_TBLS && tables0[u].Some? ==> tables[u].Some?
  {
    hide Tally, FewSymbols, Made, SmallSymbols, Codable;
    tables, ok := tables0, true;
    MadeIsCodable(tables[t], items[t], isDC);
    if tables[t].None? {
      var h := MakeOne(counts, t, isDC, items);
      ok := h.Some?;
      if ok {
        tables := tables[t := h];
      }
    }
  }

  ghost predicate Made(h: Option<HuffTbl>, items: seq<Item>, isDC: bool) {
    h.Some? && Good(h.value, items, isDC) && Codable(items)
  }

  lemma MadeIsCodable(h: Option<HuffTbl>, items: seq<Item>, isDC: bool)
    ensures Made(h, items, isDC) ==> Codable(items)
  {
  }

  method MakeOne(counts: seq<array<nat>>, t: nat, isDC: bool, ghost items: seq<seq<Item>>) returns (h: Option<HuffTbl>)
    requires |counts| == |items| == NUM_HUFF_TBLS && t < NUM_HUFF_TBLS
    requires forall u, v :: 0 <= u < v < NUM_HUFF_TBLS ==> counts[u] != counts[v]
    requires Tally(Snap(counts)[t], items[t]) && FewSymbols(items[t]) && (isDC ==> SmallSymbols(items[t]))
    modifies counts[t]
    ensures h.Some? <==> Codable(items[t])
    ensures h.Some? ==> Made(h, items[t], isDC)
    ensures forall u :: 0 <= u < NUM_HUFF_TBLS && u != t ==> Snap(counts)[u] == old(Snap(counts))[u]
  {
    hide Good, Tally, FewSymbols, Codable;
    h := MakeTable(counts[t], isDC, items[t]);
  }

  /** DC categories in range are small. */
  lemma {:induction false} McuSmall(lay: Layout, last: seq<int>, m: mcu, i: nat, t: nat)
    requires ValidLayout(lay) && Predictions(lay, last) && McuOf(lay, m) && McuInRange(lay, last, m, i)
    ensures SmallSymbols(McuDc(lay, last, m, i, t))
    decreases |m| - i
  {
    hide ValueBits;
    if i < |m| {
      var ci := lay.membership[i];
      McuSmall(lay, last[ci := m[i][0]], m, i + 1, t);
    }
  }

  lemma {:induction false} AllSmall(lay: Layout, ms: seq<mcu>, togo: nat, last: seq<int>, t: nat)
    requires ValidLayout(lay) && Predictions(lay, last) && (forall m :: m in ms ==> McuOf(lay, m)) && AllInRange(lay, ms, togo, last)
    ensures SmallSymbols(AllDc(lay, ms, togo, last, t))
  {
    hide McuDc, McuInRange, LastAfter;
    if ms != [] {
      var l := Start(lay, togo, last);
      McuSmall(lay, l, ms[0], 0, t);
      AllSmall(lay, ms[1..], Togo(lay, togo), LastAfter(lay, l, ms[0], 0), t);
    }
  }

  /** A scan with tables in place of their numbers. */
  ghost predicate Fitted(sc: Scan, lay: Layout) {
    && ValidScan(sc) && ValidLayout(lay) && |sc.comps| == |lay.dcTbl| && sc.membership == lay.membership
    && sc.restartInterval == lay.restartInterval
  }

  lemma {:induction false} McuCovered(sc: Scan, lay: Layout, last: seq<int>, m: mcu, i: nat)
    requires Fitted(sc, lay) && Predictions(lay, last) && McuOf(lay, m)
    requires forall c :: 0 <= c < |sc.comps| ==>
      Coded(CodeOf(sc.comps[c].dc), McuDc(lay, last, m, i, lay.dcTbl[c])) && Coded(CodeOf(sc.comps[c].ac), McuAc(lay, m, i, lay.acTbl[c]))
    ensures McuSendable(sc, last, m, i) && McuLast(sc, last, m, i) == LastAfter(lay, last, m, i)
    decreases |m| - i
  {
    hide Coded, NBits, ValueBits, AcItems, CodeOf, Accepted, Encodable, Proper;
    if i < |m| {
      var ci := lay.membership[i];
      var l := last[ci := m[i][0]];
      DiffFits(m[i][0], last[ci]);
      var dcItems, acItems := DcItems(m[i][0] - last[ci]), AcItems(m[i], 1, 0);
      forall c | 0 <= c < |sc.comps|
        ensures Coded(CodeOf(sc.comps[c].dc), McuDc(lay, l, m, i + 1, lay.dcTbl[c]))
        ensures Coded(CodeOf(sc.comps[c].ac), McuAc(lay, m, i + 1, lay.acTbl[c]))
      {
        NoPart(McuDc(lay, l, m, i + 1, lay.dcTbl[c]));
        NoPart(McuAc(lay, m, i + 1, lay.acTbl[c]));
        CodedParts(CodeOf(sc.comps[c].dc), dcItems, McuDc(lay, l, m, i + 1, lay.dcTbl[c]));
        CodedParts(CodeOf(sc.comps[c].ac), acItems, McuAc(lay, m, i + 1, lay.acTbl[c]));
      }
      CodedParts(CodeOf(sc.comps[ci].dc), dcItems, McuDc(lay, l, m, i + 1, lay.dcTbl[ci]));
      CodedParts(CodeOf(sc.comps[ci].ac), acItems, McuAc(lay, m, i + 1, lay.acTbl[ci]));
      McuCovered(sc, lay, l, m, i + 1);
    }
  }

  /** If the tables have a code for everything that is sent through them, every MCU can be sent. */
  lemma {:induction false} AllCovered(sc: Scan, lay: Layout, ms: seq<mcu>, togo: nat, last: seq<int>)
    requires Fitted(sc, lay) && Predictions(lay, last) && forall m :: m in ms ==> McuOf(lay, m)
    requires forall c :: 0 <= c < |sc.comps| ==>
      Coded(CodeOf(sc.comps[c].dc), AllDc(lay, ms, togo, last, lay.dcTbl[c])) && Coded(CodeOf(sc.comps[c].ac), AllAc(lay, ms, lay.acTbl[c]))
    ensures (forall m :: m in ms ==> ValidMcu(sc, m)) && AllSendable(sc, ms, togo, last)
  {
    hide Coded, McuDc, McuAc, McuSendable, McuLast, LastAfter, CodeOf, Accepted, Encodable, Proper;
    if ms != [] {
      var l := Start(lay, togo, last);
      assert l == LastBefore(sc, togo, last);
      var next := LastAfter(lay, l, ms[0], 0);
      forall c | 0 <= c < |sc.comps|
        ensures Coded(CodeOf(sc.comps[c].dc), McuDc(lay, l, ms[0], 0, lay.dcTbl[c]))
        ensures Coded(CodeOf(sc.comps[c].dc), AllDc(lay, ms[1..], Togo(lay, togo), next, lay.dcTbl[c]))
        ensures Coded(CodeOf(sc.comps[c].ac), McuAc(lay, ms[0], 0, lay.acTbl[c]))
        ensures Coded(CodeOf(sc.comps[c].ac), AllAc(lay, ms[1..], lay.acTbl[c]))
      {
        CodedParts(CodeOf(sc.comps[c].dc), McuDc(lay, l, ms[0], 0, lay.dcTbl[c]), AllDc(lay, ms[1..], Togo(lay, togo), next, lay.dcTbl[c]));
        CodedParts(CodeOf(sc.comps[c].ac), McuAc(lay, ms[0], 0, lay.acTbl[c]), AllAc(lay, ms[1..], lay.acTbl[c]));
      }
      McuCovered(sc, lay, l, ms[0], 0);
      AllCovered(sc, lay, ms[1..], Togo(lay, togo), next);
    }
  }

  /** Every component has a block in each MCU, and there are not too many blocks to count. */
  ghost predicate Countable(lay: Layout, ms: seq<mcu>) {
    && (forall c :: 0 <= c < |lay.dcTbl| ==> c in lay.membership) && ms != []
    && 64 * BlocksIn(ms) < SymbolMerging.MAX_COUNT
  }

  lemma ComponentUsed(lay: Layout, c: nat)
    requires ValidLayout(lay) && c in lay.membership
    ensures c < |lay.dcTbl| && AcUsed(lay, 0, lay.acTbl[c]) && DcUsed(lay, 0, lay.dcTbl[c])
  {
    var j :| 0 <= j < |lay.membership| && lay.membership[j] == c;
    assert lay.acTbl[lay.membership[j]] == lay.acTbl[c] && lay.dcTbl[lay.membership[j]] == lay.dcTbl[c];
  }

  /** The counts of a scan are as the table generator wants them, and DC tables never fail. */
  lemma ScanCounts(lay: Layout, ms: seq<mcu>)
    requires ValidLayout(lay) && (forall m :: m in ms ==> McuOf(lay, m)) && ScanInRange(lay, ms) && Countable(lay, ms)
    ensures forall c :: 0 <= c < |lay.dcTbl| ==>
      FewSymbols(DcOf(lay, ms, lay.dcTbl[c])) && FewSymbols(AllAc(lay, ms, lay.acTbl[c])) && Codable(DcOf(lay, ms, lay.dcTbl[c]))
  {
    hide FewSymbols, Codable, AllAc, AllDc, AllInRange, McuOf, AcUsed, DcUsed;
    forall c: nat | c < |lay.dcTbl|
      ensures FewSymbols(DcOf(lay, ms, lay.dcTbl[c])) && FewSymbols(AllAc(lay, ms, lay.acTbl[c])) && Codable(DcOf(lay, ms, lay.dcTbl[c]))
    {
      ComponentUsed(lay, c);
      AllFew(lay, ms, lay.restartInterval, NoPredictions(lay), lay.acTbl[c]);
      AllFew(lay, ms, lay.restartInterval, NoPredictions(lay), lay.dcTbl[c]);
      AllSmall(lay, ms, lay.restartInterval, NoPredictions(lay), lay.dcTbl[c]);
      FewSizes(AllAc(lay, ms, lay.acTbl[c]));
      FewCategories(DcOf(lay, ms, lay.dcTbl[c]));
    }
  }

  lemma FewCategories(items: seq<Item>)
    requires SmallSymbols(items) && 0 < Syms(items) < SymbolMerging.MAX_COUNT
    ensures FewSymbols(items) && Codable(items)
  {
    hide FewSymbols, Codable;
    var vals := [0, 1, 2, 3, 4, 5, 6, 7, 8, 9, 10, 11, 12, 13, 14, 15];
    assert Among(items, vals);
    FewEnoughSent(items, vals);
    KindsListed(items, vals);
    FewAreCodable(items);
  }

  /** Short of the Fibonacci bound, AC tables do not fail either. */
  lemma LightScan(lay: Layout, ms: seq<mcu>, t: nat)
    requires ValidLayout(lay) && (forall m :: m in ms ==> McuOf(lay, m)) && ScanInRange(lay, ms) && 64 * BlocksIn(ms) + 1 < LIGHT
    ensures Codable(AllAc(lay, ms, t))
  {
    hide Codable, AllAc, AllDc, AllInRange, McuOf;
    AllFew(lay, ms, lay.restartInterval, NoPredictions(lay), t);
    LightAreCodable(AllAc(lay, ms, t));
  }

  /** Every AC table in use can be made. */
  ghost predicate AcCodable(lay: Layout, ms: seq<mcu>)
    requires ValidLayout(lay) && forall m :: m in ms ==> McuOf(lay, m)
  {
    forall c :: 0 <= c < |lay.acTbl| ==> Codable(AllAc(lay, ms, lay.acTbl[c]))
  }

  /** The components of a scan with the tables made for them. */
  method Assemble(lay: Layout, dcTables: seq<Option<HuffTbl>>, acTables: seq<Option<HuffTbl>>, ghost dcItems: seq<seq<Item>>,
      ghost acItems: seq<seq<Item>>)
    returns (sc: Scan)
    requires ValidLayout(lay) && |dcTables| == |acTables| == |dcItems| == |acItems| == NUM_HUFF_TBLS
    requires forall i :: 0 <= i < |lay.dcTbl| ==>
      Made(dcTables[lay.dcTbl[i]], dcItems[lay.dcTbl[i]], true) && Made(acTables[lay.acTbl[i]], acItems[lay.acTbl[i]], false)
    ensures Fitted(sc, lay)
    ensures forall c :: 0 <= c < |sc.comps| ==>
      Good(sc.comps[c].dc, dcItems[lay.dcTbl[c]], true) && Good(sc.comps[c].ac, acItems[lay.acTbl[c]], false)
  {
    hide Accepted, Encodable, Proper, Coded, CodeOf;
    var comps: seq<Component> := [];
    for i := 0 to |lay.dcTbl|
      invariant |comps| == i
      invariant forall c :: 0 <= c < i ==>
        Good(comps[c].dc, dcItems[lay.dcTbl[c]], true) && Good(comps[c].ac, acItems[lay.acTbl[c]], false)
    {
      comps := comps + [Component(dcTables[lay.dcTbl[i]].value, acTables[lay.acTbl[i]].value)];
    }
    sc := Scan(comps, lay.membership, lay.restartInterval);
  }

  /** Gather agrees with encode: two passes fail exactly if a value is out of range or an AC code
  would need more than thirty-two bits; otherwise the tables have a code for every symbol of the
  output pass, and decoding its bytes returns the MCUs. */
  method TwoPassRoundTrip(lay: Layout, mcus: seq<seq<array<int>>>, m: byte, sizes: seq<nat>)
    returns (out: Option<seq<seq<array<int>>>>, ghost sc: Scan)
    requires ValidLayout(lay) && SequentialRoundTrip.McuArrays(|lay.membership|, mcus) && 0 < m < 255
    requires forall x :: x in SequentialRoundTrip.McuViews(|lay.membership|, mcus) ==> McuOf(lay, x)
    requires Countable(lay, SequentialRoundTrip.McuViews(|lay.membership|, mcus))
    ensures var ms := SequentialRoundTrip.McuViews(|lay.membership|, mcus);
      out.Some? <==> ScanInRange(lay, ms) && AcCodable(lay, ms)
    ensures out.Some? ==> Fitted(sc, lay)
    ensures out.Some? ==> SequentialRoundTrip.McuArrays(|lay.membership|, out.value)
    ensures out.Some? ==>
      SequentialRoundTrip.McuViews(|lay.membership|, out.value) == SequentialRoundTrip.McuViews(|lay.membership|, mcus)
  {
    hide SequentialRoundTrip.McuViews, Tally, FewSymbols, Made, AllDc, AllAc, AllInRange, McuOf, SmallSymbols, ValidScan, AllSendable,
      Accepted, Encodable, Proper, Coded, CodeOf, Codable, Countable, ValidMcu, SequentialRoundTrip.FileOf;
    ghost var ms := SequentialRoundTrip.McuViews(|lay.membership|, mcus);
    ghost var dcItems, acItems := DcAll(lay, ms, lay.restartInterval, NoPredictions(lay)), AcAll(lay, ms);
    sc := Scan([], [], 0);
    var ok, dc, ac := GatherScan(lay, mcus);
    if !ok {
      return None, sc;
    }
    forall t | 0 <= t < NUM_HUFF_TBLS
      ensures SmallSymbols(dcItems[t])
    {
      AllSmall(lay, ms, lay.restartInterval, NoPredictions(lay), t);
    }
    ScanCounts(lay, ms);
    var dcTables, acTables;
    ok, dcTables, acTables := FinishPassGather(lay, dc, ac, dcItems, acItems);
    assert SequentialRoundTrip.McuViews(|lay.membership|, mcus) == ms;
    if !ok {
      return None, sc;
    }
    var scan := Assemble(lay, dcTables, acTables, dcItems, acItems);
    AllCovered(scan, lay, ms, lay.restartInterval, NoPredictions(lay));
    assert NoPredictions(lay) == NoLast(scan);
    var file, decoded := SequentialRoundTrip.RoundTrip(scan, mcus, m, sizes);
    sc := scan;
    out := Some(decoded);
  }
}
