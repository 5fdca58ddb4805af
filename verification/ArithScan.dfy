/** Scans of MCUs: which decisions each MCU stands for, and how restart intervals
split a scan into segments of the file. */
module ArithScan {

  import opened CodeString
  import opened IntervalCoder
  import opened ArithBinarise

  datatype Component = Component(dcTbl: table, acTbl: table)

  /** comps are the components of the scan, membership the component of each block of an MCU. */
  datatype Scan = Scan(comps: seq<Component>, membership: seq<nat>,
                       dcL: seq<nat>, dcU: seq<nat>, acK: seq<nat>, restartInterval: nat)

  ghost predicate ValidScan(sc: Scan) {
    && |sc.dcL| == |sc.dcU| == |sc.acK| == NUM_ARITH_TBLS
    && forall i :: 0 <= i < |sc.membership| ==> sc.membership[i] < |sc.comps|
  }

  type mcu = seq<block>

  /** last_dc_val and dc_context of each component. */
  datatype Pred = Pred(last: seq<int>, ctx: seq<nat>)

  ghost predicate ValidPred(sc: Scan, p: Pred) {
    && |p.last| == |p.ctx| == |sc.comps|
    && forall i :: 0 <= i < |p.ctx| ==> p.ctx[i] <= 16
  }

  function Pred0(sc: Scan): Pred {
    Pred(seq(|sc.comps|, _ => 0), seq(|sc.comps|, _ => 0))
  }

  /** The difference of a block's DC coefficient from its prediction. */
  function Diff(p: Pred, ci: nat, b: block): int
    requires ci < |p.last|
  {
    b[0] - p.last[ci]
  }

  function BlockDecisions(sc: Scan, p: Pred, ci: nat, b: block): seq<Decision>
    requires ValidScan(sc) && ValidPred(sc, p) && ci < |sc.comps|
  {
    DcDecisions(sc.comps[ci].dcTbl, p.ctx[ci], Diff(p, ci, b))
    + AcDecisions(sc.comps[ci].acTbl, sc.acK[sc.comps[ci].acTbl], b, 1)
  }

  function NextPred(sc: Scan, p: Pred, ci: nat, b: block): (q: Pred)
    requires ValidScan(sc) && ValidPred(sc, p) && ci < |sc.comps|
    ensures ValidPred(sc, q)
  {
    var tbl := sc.comps[ci].dcTbl;
    Pred(p.last[ci := b[0]], p.ctx[ci := NextContext(Diff(p, ci, b), sc.dcL[tbl], sc.dcU[tbl])])
  }

  /** The coder's domain: every DC difference fits the 15 magnitude categories. */
  ghost predicate Codable(sc: Scan, p: Pred, m: mcu, i: nat)
    requires ValidScan(sc) && ValidPred(sc, p) && |m| == |sc.membership|
    decreases |m| - i
  {
    i < |m| ==>
      && -0x8000 <= Diff(p, sc.membership[i], m[i]) <= 0x8000
      && Codable(sc, NextPred(sc, p, sc.membership[i], m[i]), m, i + 1)
  }

  /** The decisions of an MCU from block i on. */
  function McuDecisions(sc: Scan, p: Pred, m: mcu, i: nat): seq<Decision>
    requires ValidScan(sc) && ValidPred(sc, p) && |m| == |sc.membership|
    decreases |m| - i
  {
    if i >= |m| then []
    else
      var ci := sc.membership[i];
      BlockDecisions(sc, p, ci, m[i]) + McuDecisions(sc, NextPred(sc, p, ci, m[i]), m, i + 1)
  }

  /** The predictions after an MCU, from block i on. */
  function McuPred(sc: Scan, p: Pred, m: mcu, i: nat): (q: Pred)
    requires ValidScan(sc) && ValidPred(sc, p) && |m| == |sc.membership|
    ensures ValidPred(sc, q)
    decreases |m| - i
  {
    if i >= |m| then p else McuPred(sc, NextPred(sc, p, sc.membership[i], m[i]), m, i + 1)
  }

  /** MCUs coded since the scan or the last restart began, when i have been coded in all. */
  function SinceRestart(r: nat, i: nat): (k: nat)
    ensures r > 0 ==> k < r
  {
    if i == 0 then 0
    else
      var k := SinceRestart(r, i - 1) + 1;
      if k == r then 0 else k
  }

  /** A restart marker comes before MCU i. */
  predicate Restarts(sc: Scan, i: nat) {
    i > 0 && sc.restartInterval > 0 && SinceRestart(sc.restartInterval, i) == 0
  }

  /** MCUs to go until the next restart, counted down. */
  lemma CountDown(sc: Scan, i: nat)
    requires sc.restartInterval > 0
    ensures sc.restartInterval - SinceRestart(sc.restartInterval, i) - 1
         == if Restarts(sc, i + 1) then 0 else sc.restartInterval - SinceRestart(sc.restartInterval, i + 1)
  {
  }

  /** Number of the segment MCU i lies in. */
  function SegmentOf(sc: Scan, i: nat): nat {
    if i == 0 then 0 else SegmentOf(sc, i - 1) + if Restarts(sc, i) then 1 else 0
  }

  function PredAfter(sc: Scan, ms: seq<mcu>): (p: Pred)
    requires ValidScan(sc) && forall m :: m in ms ==> |m| == |sc.membership|
    ensures ValidPred(sc, p)
    decreases |ms|, 0
  {
    if ms == [] then Pred0(sc)
    else McuPred(sc, PredBefore(sc, ms[..|ms| - 1]), ms[|ms| - 1], 0)
  }

  /** The predictions the next MCU is coded with: zero after a restart. */
  function PredBefore(sc: Scan, ms: seq<mcu>): (p: Pred)
    requires ValidScan(sc) && forall m :: m in ms ==> |m| == |sc.membership|
    ensures ValidPred(sc, p)
    decreases |ms|, 1
  {
    if Restarts(sc, |ms|) then Pred0(sc) else PredAfter(sc, ms)
  }

  ghost predicate CodableScan(sc: Scan, ms: seq<mcu>) {
    && ValidScan(sc) && (forall m :: m in ms ==> |m| == |sc.membership|)
    && forall i :: 0 <= i < |ms| ==> Codable(sc, PredBefore(sc, ms[..i]), ms[i], 0)
  }

  lemma ScanIsValid(sc: Scan, ms: seq<mcu>)
    requires CodableScan(sc, ms)
    ensures ValidScan(sc) && forall m :: m in ms ==> |m| == |sc.membership|
  {
  }

  lemma CodablePrefix(sc: Scan, ms: seq<mcu>, i: nat)
    requires CodableScan(sc, ms) && i <= |ms|
    ensures CodableScan(sc, ms[..i])
  {
    forall j | 0 <= j < i
      ensures Codable(sc, PredBefore(sc, ms[..i][..j]), ms[..i][j], 0)
    {
      assert ms[..i][..j] == ms[..j];
    }
  }

  /** Bins that belong to a statistics area of the scan. */
  ghost predicate Owned(sc: Scan, i: nat) {
    exists ci :: 0 <= ci < |sc.comps| && InAreas(sc.comps[ci], i)
  }

  predicate InAreas(c: Component, i: nat) {
    DcBin(c.dcTbl, 0) <= i < DcBin(c.dcTbl, DC_STAT_BINS) || AcBin(c.acTbl, 0) <= i < AcBin(c.acTbl, AC_STAT_BINS)
  }

  /** A restart clears the statistics areas of the scan and leaves the fixed bin. */
  ghost predicate Cleared(sc: Scan, bins: seq<byte>, bins': seq<byte>) {
    |bins'| == |bins| && forall i :: 0 <= i < |bins| ==> bins'[i] == if Owned(sc, i) then 0 else bins[i]
  }

  ghost function Clear(sc: Scan, bins: seq<byte>): (r: seq<byte>)
    ensures Cleared(sc, bins, r)
    ensures ValidBins(bins) ==> ValidBins(r)
  {
    seq(|bins|, i requires 0 <= i < |bins| => if Owned(sc, i) then 0 else bins[i])
  }

  /** Decisions of an MCU stay within the statistics bins. */
  lemma {:induction false} McuRange(sc: Scan, p: Pred, m: mcu, i: nat)
    requires ValidScan(sc) && ValidPred(sc, p) && |m| == |sc.membership| && Codable(sc, p, m, i)
    ensures InRange(McuDecisions(sc, p, m, i), TOTAL_BINS)
    decreases |m| - i
  {
    hide DcDecisions, AcDecisions;
    if i < |m| {
      var ci := sc.membership[i];
      var c := sc.comps[ci];
      McuRange(sc, NextPred(sc, p, ci, m[i]), m, i + 1);
      DcRange(c.dcTbl, p.ctx[ci], Diff(p, ci, m[i]));
      AcRange(c.acTbl, sc.acK[c.acTbl], m[i], 1);
      RangeAppend(DcDecisions(c.dcTbl, p.ctx[ci], Diff(p, ci, m[i])), AcDecisions(c.acTbl, sc.acK[c.acTbl], m[i], 1), TOTAL_BINS);
      RangeAppend(BlockDecisions(sc, p, ci, m[i]), McuDecisions(sc, NextPred(sc, p, ci, m[i]), m, i + 1), TOTAL_BINS);
    }
  }

  ghost predicate FullBins(bins: seq<byte>) {
    ValidBins(bins) && |bins| == TOTAL_BINS
  }

  /** The coding interval once ms has been coded from the statistics bins given. */
  ghost function CoderAfter(sc: Scan, bins: seq<byte>, ms: seq<mcu>): (s: Coder)
    requires CodableScan(sc, ms) && FullBins(bins)
    ensures ValidCoder(s) && |s.bins| == TOTAL_BINS
    decreases |ms|, 0
  {
    if ms == [] then StartValid(bins); Start(bins)
    else
      var n := |ms| - 1;
      CodablePrefix(sc, ms, n);
      McuRange(sc, PredBefore(sc, ms[..n]), ms[n], 0);
      Run(CoderBefore(sc, bins, ms[..n]), McuDecisions(sc, PredBefore(sc, ms[..n]), ms[n], 0))
  }

  /** The coding interval the next MCU starts from. */
  ghost function CoderBefore(sc: Scan, bins: seq<byte>, ms: seq<mcu>): (s: Coder)
    requires CodableScan(sc, ms) && FullBins(bins)
    ensures ValidCoder(s) && |s.bins| == TOTAL_BINS
    decreases |ms|, 1
  {
    var s := CoderAfter(sc, bins, ms);
    if Restarts(sc, |ms|) then StartValid(Clear(sc, s.bins)); Start(Clear(sc, s.bins)) else s
  }

  lemma StartValid(bins: seq<byte>)
    requires ValidBins(bins)
    ensures ValidCoder(Start(bins))
  {
    ShlByte(1);
    ShlShl(1, 8, 8);
    ShlByte(256);
  }

  /** The data of each segment is a code for the MCUs of that segment: it lies in the
  interval reached at the segment's last MCU. */
  ghost predicate Carries(sc: Scan, bins: seq<byte>, ms: seq<mcu>, datas: seq<seq<byte>>)
    requires CodableScan(sc, ms) && FullBins(bins)
  {
    && (forall i {:trigger SegmentOf(sc, i)} :: 0 <= i < |ms| ==> SegmentOf(sc, i) < |datas|)
    && forall i {:trigger SegmentOf(sc, i)} :: 0 <= i < |ms| && (i + 1 == |ms| || Restarts(sc, i + 1)) ==>
         InsideAfter(sc, bins, ms, datas[SegmentOf(sc, i)], i + 1)
  }

  ghost predicate InsideAfter(sc: Scan, bins: seq<byte>, ms: seq<mcu>, data: seq<byte>, i: nat)
    requires CodableScan(sc, ms) && FullBins(bins) && i <= |ms|
  {
    CodablePrefix(sc, ms, i);
    Inside(data, CoderAfter(sc, bins, ms[..i]))
  }

  /** So it lies in the interval reached at every MCU of the segment. */
  lemma {:induction false} CarriesEvery(sc: Scan, bins: seq<byte>, ms: seq<mcu>, datas: seq<seq<byte>>, i: nat)
    requires CodableScan(sc, ms) && FullBins(bins) && Carries(sc, bins, ms, datas) && i < |ms|
    ensures SegmentOf(sc, i) < |datas| && InsideAfter(sc, bins, ms, datas[SegmentOf(sc, i)], i + 1)
    decreases |ms| - i
  {
    hide McuDecisions, PredBefore, PredAfter, Inside, CoderAfter, CoderBefore, CodableScan;
    if i + 1 < |ms| && !Restarts(sc, i + 1) {
      CarriesEvery(sc, bins, ms, datas, i + 1);
      InsideBack(sc, bins, ms, datas[SegmentOf(sc, i)], i + 1);
    }
  }

  lemma InsideBack(sc: Scan, bins: seq<byte>, ms: seq<mcu>, data: seq<byte>, i: nat)
    requires CodableScan(sc, ms) && FullBins(bins) && i < |ms| && !Restarts(sc, i)
    requires InsideAfter(sc, bins, ms, data, i + 1)
    ensures InsideAfter(sc, bins, ms, data, i)
  {
    hide McuAt, Inside, InsideAfter, Run, CoderAfter, CoderBefore, CodableScan, Restarts;
    CodablePrefix(sc, ms, i);
    CoderStep(sc, bins, ms, i);
    InsideIs(sc, bins, ms, data, i + 1);
    var ds := McuAt(sc, ms, i);
    Replay(data, CoderAfter(sc, bins, ms[..i]), ds, 0);
    RunNone(CoderAfter(sc, bins, ms[..i]));
    assert ds[..0] == [];
    InsideIs(sc, bins, ms, data, i);
  }

  lemma InsideIs(sc: Scan, bins: seq<byte>, ms: seq<mcu>, data: seq<byte>, i: nat)
    requires CodableScan(sc, ms) && FullBins(bins) && i <= |ms|
    ensures CodableScan(sc, ms[..i])
    ensures InsideAfter(sc, bins, ms, data, i) <==> Inside(data, CoderAfter(sc, bins, ms[..i]))
  {
    CodablePrefix(sc, ms, i);
  }

  /** The decisions MCU i stands for in its place. */
  ghost function McuAt(sc: Scan, ms: seq<mcu>, i: nat): (ds: seq<Decision>)
    requires CodableScan(sc, ms) && i < |ms|
    ensures InRange(ds, TOTAL_BINS)
  {
    McuRange(sc, PredBefore(sc, ms[..i]), ms[i], 0);
    McuDecisions(sc, PredBefore(sc, ms[..i]), ms[i], 0)
  }

  lemma CoderStep(sc: Scan, bins: seq<byte>, ms: seq<mcu>, i: nat)
    requires CodableScan(sc, ms) && FullBins(bins) && i < |ms|
    ensures CodableScan(sc, ms[..i]) && CodableScan(sc, ms[..i + 1])
    ensures CoderAfter(sc, bins, ms[..i + 1]) == Run(CoderBefore(sc, bins, ms[..i]), McuAt(sc, ms, i))
    ensures !Restarts(sc, i) ==> CoderBefore(sc, bins, ms[..i]) == CoderAfter(sc, bins, ms[..i])
    ensures PredAfter(sc, ms[..i + 1]) == McuPred(sc, PredBefore(sc, ms[..i]), ms[i], 0)
    ensures Restarts(sc, i) ==> CoderBefore(sc, bins, ms[..i]) == Start(Clear(sc, CoderAfter(sc, bins, ms[..i]).bins))
  {
    hide McuDecisions, Run, CodableScan, Clear, Restarts;
    CodablePrefix(sc, ms, i);
    CodablePrefix(sc, ms, i + 1);
    assert ms[..i + 1][..i] == ms[..i];
  }

  lemma RunNone(s: Coder)
    requires ValidCoder(s)
    ensures Run(s, []) == s
  {
  }

  lemma CodableAppend(sc: Scan, ms: seq<mcu>, m: mcu)
    requires CodableScan(sc, ms) && |m| == |sc.membership| && Codable(sc, PredBefore(sc, ms), m, 0)
    ensures CodableScan(sc, ms + [m])
  {
    var ns := ms + [m];
    forall i | 0 <= i < |ns|
      ensures Codable(sc, PredBefore(sc, ns[..i]), ns[i], 0)
    {
      if i < |ms| {
        assert ns[..i] == ms[..i];
      } else {
        assert ns[..i] == ms;
      }
    }
  }

  /** What coding one more MCU does to predictions and interval. */
  lemma CoderAppend(sc: Scan, bins: seq<byte>, ms: seq<mcu>, m: mcu)
    requires CodableScan(sc, ms) && FullBins(bins) && |m| == |sc.membership| && Codable(sc, PredBefore(sc, ms), m, 0)
    ensures CodableScan(sc, ms + [m])
    ensures PredAfter(sc, ms + [m]) == McuPred(sc, PredBefore(sc, ms), m, 0)
    ensures InRange(McuDecisions(sc, PredBefore(sc, ms), m, 0), TOTAL_BINS)
    ensures CoderAfter(sc, bins, ms + [m]) == Run(CoderBefore(sc, bins, ms), McuDecisions(sc, PredBefore(sc, ms), m, 0))
  {
    hide McuDecisions, Run, Restarts, CoderBefore, CoderAfter, PredBefore, PredAfter, Codable, McuPred;
    CodableAppend(sc, ms, m);
    McuRange(sc, PredBefore(sc, ms), m, 0);
    var ns := ms + [m];
    var n := |ms|;
    assert ns[..n] == ms && ns[..n + 1] == ns && ns[n] == m;
    CoderStep(sc, bins, ns, n);
    McuIs(sc, ns, n);
  }

  lemma InsideExtend(sc: Scan, bins: seq<byte>, ms: seq<mcu>, ns: seq<mcu>, data: seq<byte>, i: nat)
    requires CodableScan(sc, ms) && CodableScan(sc, ns) && FullBins(bins)
    requires ms <= ns && i <= |ms|
    ensures InsideAfter(sc, bins, ms, data, i) <==> InsideAfter(sc, bins, ns, data, i)
  {
    assert ms[..i] == ns[..i];
  }

  lemma McuIs(sc: Scan, ms: seq<mcu>, i: nat)
    requires CodableScan(sc, ms) && i < |ms|
    ensures Codable(sc, PredBefore(sc, ms[..i]), ms[i], 0)
    ensures McuAt(sc, ms, i) == McuDecisions(sc, PredBefore(sc, ms[..i]), ms[i], 0)
  {
  }
}
