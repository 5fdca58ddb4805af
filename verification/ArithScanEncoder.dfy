/** A whole arithmetic-coded scan on the compressor's side, restart markers included. */
module ArithScanEncoder {

  import opened CodeString
  import opened IntervalCoder
  import opened ArithEncoder
  import opened ArithDecoder
  import opened ArithBinarise
  import opened ArithMcuEncoder
  import opened ArithScan

  /** The blocks of one MCU: DC difference, then AC coefficients, block by block. */
  method EncodeBlocks(e: Encoder, sc: Scan, last0: seq<int>, ctx0: seq<nat>, m: mcu, ghost s0: Coder)
    returns (last: seq<int>, ctx: seq<nat>)
    requires ValidScan(sc) && ValidPred(sc, Pred(last0, ctx0)) && |m| == |sc.membership|
    requires Codable(sc, Pred(last0, ctx0), m, 0) && Coded(e, s0, [])
    modifies e, e.bins
    ensures Coded(e, s0, McuDecisions(sc, Pred(last0, ctx0), m, 0)) && e.done == old(e.done)
    ensures Pred(last, ctx) == McuPred(sc, Pred(last0, ctx0), m, 0)
  {
    hide Coded, DcDecisions, AcDecisions, NextContext;
    last, ctx := last0, ctx0;
    ghost var total := McuDecisions(sc, Pred(last, ctx), m, 0);
    ghost var ds: seq<Decision> := [];
    assert [] + total == total;
    for i := 0 to |m|
      invariant ValidPred(sc, Pred(last, ctx)) && Codable(sc, Pred(last, ctx), m, i)
      invariant Coded(e, s0, ds) && e.done == old(e.done)
      invariant total == ds + McuDecisions(sc, Pred(last, ctx), m, i)
      invariant McuPred(sc, Pred(last0, ctx0), m, 0) == McuPred(sc, Pred(last, ctx), m, i)
    {
      var b := m[i];
      var ci := sc.membership[i];
      var c := sc.comps[ci];
      ghost var p := Pred(last, ctx);
      var v := b[0] - last[ci];
      ghost var dc := DcDecisions(c.dcTbl, ctx[ci], v);
      var next := EncodeDcDiff(e, c.dcTbl, ctx[ci], v, sc.dcL[c.dcTbl], sc.dcU[c.dcTbl], s0, ds);
      EncodeAc(e, c.acTbl, sc.acK[c.acTbl], b, s0, ds + dc);
      last, ctx := last[ci := b[0]], ctx[ci := next];
      assert Pred(last, ctx) == NextPred(sc, p, ci, b);
      ghost var ac := AcDecisions(c.acTbl, sc.acK[c.acTbl], b, 1);
      Assoc(ds, dc, ac);
      Assoc(ds, dc + ac, McuDecisions(sc, Pred(last, ctx), m, i + 1));
      ds := ds + dc + ac;
    }
    assert ds + [] == ds;
  }

  /** The bytes of closed segments: stuffed data and a restart marker numbered modulo 8. */
  function Wire(datas: seq<seq<byte>>): seq<byte> {
    if datas == [] then []
    else
      var n := |datas| - 1;
      Wire(datas[..n]) + Stuff(datas[n]) + RestartMark(n)
  }

  function RestartMark(n: nat): seq<byte> {
    [255, RST0 + n % 8]
  }

  method MemZero(a: array<byte>, lo: nat, hi: nat)
    requires lo <= hi <= a.Length
    modifies a
    ensures forall i :: 0 <= i < a.Length ==> a[i] == if lo <= i < hi then 0 else old(a[i])
  {
    for i := lo to hi
      invariant forall j :: 0 <= j < a.Length ==> a[j] == if lo <= j < i then 0 else old(a[j])
    {
      a[i] := 0;
    }
  }

  /** Re-initialize the statistics areas of a scan's components. */
  method ClearAreas(sc: Scan, a: array<byte>)
    requires a.Length == TOTAL_BINS
    modifies a
    ensures a[..] == Clear(sc, old(a[..]))
  {
    hide Clear;
    for ci := 0 to |sc.comps|
      invariant forall i :: 0 <= i < a.Length ==>
        a[i] == if exists c :: 0 <= c < ci && InAreas(sc.comps[c], i) then 0 else old(a[i])
    {
      var c := sc.comps[ci];
      MemZero(a, DcBin(c.dcTbl, 0), DcBin(c.dcTbl, DC_STAT_BINS));
      MemZero(a, AcBin(c.acTbl, 0), AcBin(c.acTbl, AC_STAT_BINS));
    }
    ghost var r := Clear(sc, old(a[..]));
    assert |r| == a.Length;
  }

  class ScanEncoder {
    const e: Encoder
    const sc: Scan
    var lastDcVal: seq<int>
    var dcContext: seq<nat>
    var restartsToGo: nat
    var nextRestartNum: nat
    ghost const stats: seq<byte>              // statistics at the start of the scan
    ghost var sent: seq<mcu>                  // MCUs encoded so far
    ghost var closed: seq<seq<byte>>          // data of the segments already closed by a marker

    /** Closed segments carry the MCUs before restart markers up to MCU n. */
    ghost predicate ClosedCarry(n: nat)
      requires CodableScan(sc, sent) && FullBins(stats) && n <= |sent|
      reads this`sent, this`closed
    {
      forall i {:trigger SegmentOf(sc, i)} :: 0 <= i && i + 1 <= n && Restarts(sc, i + 1) ==>
        SegmentOf(sc, i) < |closed| && InsideAfter(sc, stats, sent, closed[SegmentOf(sc, i)], i + 1)
    }

    ghost predicate Counters()
      reads this
    {
      && |closed| == (if sent == [] then 0 else SegmentOf(sc, |sent| - 1))
      && nextRestartNum == |closed| % 8
      && (sc.restartInterval > 0 ==>
            restartsToGo == if Restarts(sc, |sent|) then 0
                            else sc.restartInterval - SinceRestart(sc.restartInterval, |sent|))
    }

    ghost predicate Valid()
      reads this, e, e.bins
    {
      && CodableScan(sc, sent) && FullBins(stats) && e.Valid() && e.bins.Length == TOTAL_BINS
      && e.Interval() == CoderAfter(sc, stats, sent)
      && Pred(lastDcVal, dcContext) == PredAfter(sc, sent)
      && e.done == Wire(closed)
      && Counters() && ClosedCarry(if sent == [] then 0 else |sent| - 1)
    }

    constructor (sc: Scan, stats: seq<byte>)
      requires ValidScan(sc) && FullBins(stats)
      ensures Valid() && sent == [] && this.sc == sc && this.stats == stats
      ensures fresh(e) && fresh(e.bins)
    {
      e := new Encoder(stats);
      this.sc, this.stats := sc, stats;
      lastDcVal, dcContext := seq(|sc.comps|, _ => 0), seq(|sc.comps|, _ => 0);
      restartsToGo, nextRestartNum := sc.restartInterval, 0;
      sent, closed := [], [];
    }

    /** Terminate the coder and write the restart marker. */
    method CloseSegment()
      requires Valid() && Restarts(sc, |sent|)
      modifies this`closed, e
      ensures e.dest == Wire(closed) && |closed| == SegmentOf(sc, |sent|) == |old(closed)| + 1
      ensures ClosedCarry(|sent|)
    {
      hide CodableScan, CoderAfter, PredAfter, Stuff, McuDecisions, Inside, Wire, Value;
      ghost var n := |closed|;
      e.FinishPass();
      e.EmitByte(0xFF);
      e.EmitByte(RST0 + nextRestartNum);
      WireAppend(closed, e.data);
      Assoc(Wire(closed) + Stuff(e.data), [0xFF], [RST0 + nextRestartNum]);
      closed := closed + [e.data];
      assert sent[..|sent|] == sent;
      InsideIs(sc, stats, sent, e.data, |sent|);
      LastSegment(n);
    }

    lemma LastSegment(n: nat)
      requires CodableScan(sc, sent) && FullBins(stats) && Restarts(sc, |sent|)
      requires |closed| == n + 1 && n == SegmentOf(sc, |sent| - 1)
      requires forall i {:trigger SegmentOf(sc, i)} :: 0 <= i && i + 1 <= |sent| - 1 && Restarts(sc, i + 1) ==>
        SegmentOf(sc, i) < n && InsideAfter(sc, stats, sent, closed[..n][SegmentOf(sc, i)], i + 1)
      requires InsideAfter(sc, stats, sent, closed[n], |sent|)
      ensures ClosedCarry(|sent|)
    {
      hide CodableScan, InsideAfter;
    }

    /** Emit a restart marker and resynchronize statistics and predictions. */
    method EmitRestart()
      requires Valid() && Restarts(sc, |sent|)
      modifies this`lastDcVal, this`dcContext, this`closed, e, e.bins
      ensures e.Valid() && e.bins.Length == TOTAL_BINS
      ensures e.Interval() == CoderBefore(sc, stats, sent) && Pred(lastDcVal, dcContext) == PredBefore(sc, sent)
      ensures e.done == Wire(closed) && |closed| == SegmentOf(sc, |sent|) == |old(closed)| + 1
      ensures ClosedCarry(|sent|)
    {
      hide CodableScan, CoderAfter, PredAfter, Stuff, McuDecisions, Inside, Wire, ClosedCarry, InsideAfter, Clear;
      CloseSegment();
      ClearAreas(sc, e.bins);
      lastDcVal, dcContext := seq(|sc.comps|, _ => 0), seq(|sc.comps|, _ => 0);
      e.Reset();
    }

    /** Emit a restart marker if one is due, and count the MCU about to come. */
    method NextInterval()
      requires Valid()
      modifies this`lastDcVal, this`dcContext, this`closed, this`restartsToGo, this`nextRestartNum, e, e.bins
      ensures e.Valid() && e.bins.Length == TOTAL_BINS && e.done == Wire(closed)
      ensures e.Interval() == CoderBefore(sc, stats, sent) && Pred(lastDcVal, dcContext) == PredBefore(sc, sent)
      ensures |closed| == SegmentOf(sc, |sent|) && nextRestartNum == |closed| % 8 && ClosedCarry(|sent|)
      ensures sc.restartInterval > 0 ==>
        restartsToGo == sc.restartInterval - SinceRestart(sc.restartInterval, |sent|) - 1
    {
      hide CodableScan, CoderAfter, PredAfter, Stuff, McuDecisions, Inside, Wire, InsideAfter, Encoder.Valid, FullBins;
      if sc.restartInterval != 0 {
        if restartsToGo == 0 {
          EmitRestart();
          restartsToGo := sc.restartInterval;
          nextRestartNum := (nextRestartNum + 1) % 8;
        }
        restartsToGo := restartsToGo - 1;
      }
    }

    /** Encode and output one MCU. */
    method EncodeMcu(m: mcu)
      requires Valid() && |m| == |sc.membership| && Codable(sc, PredBefore(sc, sent), m, 0)
      modifies this, e, e.bins
      ensures Valid() && sent == old(sent) + [m]
    {
      hide CoderAfter, CoderBefore, PredAfter, PredBefore, Stuff, McuDecisions, McuPred, Inside, Wire, Coded, CodableScan,
        InsideAfter, Run, Codable, ClosedCarry, Encoder.Valid, FullBins, SegmentOf, Value, Encoder.Interval, Restarts, SinceRestart;
      ScanIsValid(sc, sent);
      NextInterval();
      ghost var s0 := CoderBefore(sc, stats, sent);
      NothingCoded(s0);
      lastDcVal, dcContext := EncodeBlocks(e, sc, lastDcVal, dcContext, m, s0);
      McuCoded(m);
      CarryExtend(m);
      sent := sent + [m];
      CarryNow(m);
    }

    lemma NothingCoded(s0: Coder)
      requires e.Valid() && e.bins.Length == TOTAL_BINS && e.Interval() == s0 && ValidCoder(s0) && |s0.bins| == TOTAL_BINS
      ensures Coded(e, s0, [])
    {
      RunNone(s0);
    }

    /** Behind an MCU the coder is where the MCUs sent put it. */
    lemma McuCoded(m: mcu)
      requires CodableScan(sc, sent) && FullBins(stats) && |m| == |sc.membership| && Codable(sc, PredBefore(sc, sent), m, 0)
      requires Coded(e, CoderBefore(sc, stats, sent), McuDecisions(sc, PredBefore(sc, sent), m, 0))
      ensures CodableScan(sc, sent + [m]) && e.Valid() && e.bins.Length == TOTAL_BINS
      ensures e.Interval() == CoderAfter(sc, stats, sent + [m])
      ensures PredAfter(sc, sent + [m]) == McuPred(sc, PredBefore(sc, sent), m, 0)
      ensures sc.restartInterval > 0 ==>
        sc.restartInterval - SinceRestart(sc.restartInterval, |sent|) - 1
        == if Restarts(sc, |sent| + 1) then 0 else sc.restartInterval - SinceRestart(sc.restartInterval, |sent| + 1)
    {
      hide CoderAfter, CoderBefore, PredAfter, PredBefore, CodableScan, McuDecisions, McuPred, Run, Codable, Encoder.Valid, FullBins,
        Encoder.Interval;
      CoderAppend(sc, stats, sent, m);
      if sc.restartInterval > 0 {
        CountDown(sc, |sent|);
      }
    }

    lemma CarryNow(m: mcu)
      requires sent != [] && CodableScan(sc, sent) && FullBins(stats)
      requires forall i {:trigger SegmentOf(sc, i)} :: 0 <= i && i + 1 <= |sent| - 1 && Restarts(sc, i + 1) ==>
        SegmentOf(sc, i) < |closed| && InsideAfter(sc, stats, sent, closed[SegmentOf(sc, i)], i + 1)
      ensures ClosedCarry(|sent| - 1)
    {
    }

    lemma CarryExtend(m: mcu)
      requires CodableScan(sc, sent) && FullBins(stats) && CodableScan(sc, sent + [m]) && ClosedCarry(|sent|)
      ensures forall i {:trigger SegmentOf(sc, i)} :: 0 <= i && i + 1 <= |sent| && Restarts(sc, i + 1) ==>
        SegmentOf(sc, i) < |closed| && InsideAfter(sc, stats, sent + [m], closed[SegmentOf(sc, i)], i + 1)
    {
      hide CodableScan, InsideAfter;
      forall i {:trigger SegmentOf(sc, i)} | 0 <= i && i + 1 <= |sent| && Restarts(sc, i + 1)
        ensures SegmentOf(sc, i) < |closed| && InsideAfter(sc, stats, sent + [m], closed[SegmentOf(sc, i)], i + 1)
      {
        InsideExtend(sc, stats, sent, sent + [m], closed[SegmentOf(sc, i)], i + 1);
      }
    }

    /** Finish up at the end of the scan. */
    method FinishScan() returns (ghost datas: seq<seq<byte>>)
      requires Valid()
      modifies e
      ensures datas != [] && Carries(sc, stats, sent, datas)
      ensures e.dest == Wire(datas[..|datas| - 1]) + Stuff(datas[|datas| - 1])
      ensures |datas| == 1 + if sent == [] then 0 else SegmentOf(sc, |sent| - 1)
    {
      hide CodableScan, CoderAfter, PredAfter, Stuff, McuDecisions, Inside, Wire, Value, InsideAfter, FullBins, Encoder.Valid;
      e.FinishPass();
      datas := closed + [e.data];
      assert datas[..|datas| - 1] == closed;
      assert sent[..|sent|] == sent;
      InsideIs(sc, stats, sent, e.data, |sent|);
      SegmentsInOrder(|sent|);
    }

    lemma {:induction false} SegmentsInOrder(n: nat)
      ensures forall i {:trigger SegmentOf(sc, i)} :: 0 <= i < n ==> SegmentOf(sc, i) <= SegmentOf(sc, n - 1)
    {
      if n > 0 {
        SegmentsInOrder(n - 1);
      }
    }
  }

  lemma WireAppend(datas: seq<seq<byte>>, data: seq<byte>)
    ensures Wire(datas + [data]) == Wire(datas) + Stuff(data) + RestartMark(|datas|)
  {
    hide Stuff, RestartMark;
    assert (datas + [data])[..|datas|] == datas;
  }
}