/** A whole arithmetic-coded scan on the decompressor's side, restart markers included. */
module ArithScanDecoder {

  import opened Wrappers
  import opened CodeString
  import opened ProbabilityTable
  import opened IntervalCoder
  import opened ArithDecoder
  import opened ArithBinarise
  import opened ArithMcuDecoder
  import opened ArithScan
  import opened ArithScanEncoder
  import opened ZigZag

  /** The decoder keeps its DC predictions modulo 2^16. */
  ghost predicate Matches(last: seq<int>, ctx: seq<nat>, p: Pred) {
    && |last| == |p.last| && ctx == p.ctx
    && forall c :: 0 <= c < |last| ==> last[c] == p.last[c] % 0x10000
  }

  lemma WrapSum(x: int, v: int)
    ensures (x % 0x10000 + v) % 0x10000 == (x + v) % 0x10000
  {
    var q, r := x / 0x10000, (x % 0x10000 + v) / 0x10000;
    assert x + v == 0x10000 * (q + r) + (x % 0x10000 + v) % 0x10000;
  }

  /** One block: DC difference, prediction, AC coefficients, into zeroed storage. */
  method DecodeBlock(d: Decoder, sc: Scan, ci: nat, last: int, ctx: nat, ghost p: Pred, ghost b: block,
                     ghost s0: Coder, ghost ds: seq<Decision>, ghost es: seq<Decision>)
    returns (r: Option<seq<int>>, last': int, ctx': nat)
    requires Live(d) && ValidScan(sc) && ci < |sc.comps| && ValidPred(sc, p) && ctx <= 16
    modifies d`c, d`a, d`ct, d`input, d`unread, d`k, d`low, d`n, d.bins
    ensures r.Some? ==> Live(d) && ctx' <= 16
    ensures (last == p.last[ci] % 0x10000 && ctx == p.ctx[ci] && -0x8000 <= Diff(p, ci, b) <= 0x8000
             && old(Awaits(d, s0, ds, BlockDecisions(sc, p, ci, b) + es))) ==>
      && r == Some(b) && Awaits(d, s0, ds + BlockDecisions(sc, p, ci, b), es)
      && last' == b[0] % 0x10000 && ctx' == NextPred(sc, p, ci, b).ctx[ci]
  {
    hide Awaits, DcDecisions, AcDecisions, NextContext, NaturalOrder, ZigZagIndex;
    last', ctx' := last, ctx;
    var c := sc.comps[ci];
    ghost var good := last == p.last[ci] % 0x10000 && ctx == p.ctx[ci] && -0x8000 <= Diff(p, ci, b) <= 0x8000
                      && Awaits(d, s0, ds, BlockDecisions(sc, p, ci, b) + es);
    ghost var dc := DcDecisions(c.dcTbl, p.ctx[ci], Diff(p, ci, b));
    ghost var ac := AcDecisions(c.acTbl, sc.acK[c.acTbl], b, 1);
    Assoc(dc, ac, es);
    Assoc(ds, dc, ac);
    var diff := DecodeDcDiff(d, c.dcTbl, ctx, sc.dcL[c.dcTbl], sc.dcU[c.dcTbl], Diff(p, ci, b), s0, ds, ac + es);
    if diff.None? {
      return None, last', ctx';
    }
    last', ctx' := (last + diff.value.0) % 0x10000, diff.value.1;
    var out := new int[DCTSIZE2](_ => 0);
    out[0] := ToCoef(last');
    if good {
      WrapSum(p.last[ci], diff.value.0);
      CoefRoundTrip(b[0]);
      ZeroedBlock(out[..], b);
    }
    var ok := DecodeAc(d, c.acTbl, sc.acK[c.acTbl], out, b, s0, ds + dc, es);
    if !ok {
      return None, last', ctx';
    }
    r := Some(out[..]);
    if good {
      DecodedAll(out[..], b);
    }
  }

  lemma CoefRoundTrip(v: int)
    requires -0x8000 <= v <= 0x7FFF
    ensures ToCoef(v % 0x10000) == v
  {
    WrapSum(v, 0x8000);
  }

  lemma ZeroedBlock(coefs: seq<int>, b: block)
    requires |coefs| == DCTSIZE2 && forall n :: 1 <= n < DCTSIZE2 ==> coefs[n] == 0
    ensures DecodedTo(coefs, b, 1)
  {
    hide Coef;
    ZeroIsFirst();
    forall j: nat | 1 <= j < DCTSIZE2
      ensures NaturalOrder(j) != 0
    {
      assert ZigZagIndex(NaturalOrder(j)) == j;
    }
  }

  /** The blocks of one MCU. */
  method DecodeBlocks(d: Decoder, sc: Scan, last0: seq<int>, ctx0: seq<nat>, ghost p0: Pred, ghost m: mcu, ghost s0: Coder)
    returns (r: Option<seq<seq<int>>>, last: seq<int>, ctx: seq<nat>)
    requires Live(d) && ValidScan(sc) && ValidPred(sc, Pred(last0, ctx0))
    requires ValidPred(sc, p0) && |m| == |sc.membership|
    modifies d`c, d`a, d`ct, d`input, d`unread, d`k, d`low, d`n, d.bins
    ensures Matches(last0, ctx0, p0) && Codable(sc, p0, m, 0) && old(Awaits(d, s0, [], McuDecisions(sc, p0, m, 0))) ==>
      && r == Some(m) && Awaits(d, s0, McuDecisions(sc, p0, m, 0), [])
      && Matches(last, ctx, McuPred(sc, p0, m, 0)) && ValidPred(sc, Pred(last, ctx))
  {
    hide Awaits, DcDecisions, AcDecisions, NextContext, Diff;
    ghost var good := Matches(last0, ctx0, p0) && Codable(sc, p0, m, 0) && Awaits(d, s0, [], McuDecisions(sc, p0, m, 0));
    last, ctx := last0, ctx0;
    var blocks := [];
    ghost var p, ds: seq<Decision> := p0, [];
    ghost var total := McuDecisions(sc, p, m, 0);
    assert [] + total == total;
    for i := 0 to |sc.membership|
      invariant Live(d) && ValidPred(sc, Pred(last, ctx)) && ValidPred(sc, p)
      invariant |blocks| == i && (good ==> blocks == m[..i])
      invariant good ==> Matches(last, ctx, p) && Codable(sc, p, m, i)
      invariant good ==> Awaits(d, s0, ds, McuDecisions(sc, p, m, i)) && total == ds + McuDecisions(sc, p, m, i)
      invariant McuPred(sc, p0, m, 0) == McuPred(sc, p, m, i)
    {
      var ci := sc.membership[i];
      ghost var more := McuDecisions(sc, NextPred(sc, p, ci, m[i]), m, i + 1);
      ghost var now := BlockDecisions(sc, p, ci, m[i]);
      Assoc(ds, now, more);
      var b, dc, context := DecodeBlock(d, sc, ci, last[ci], ctx[ci], p, m[i], s0, ds, more);
      if b.None? {
        return None, last, ctx;
      }
      last, ctx := last[ci := dc], ctx[ci := context];
      blocks := blocks + [b.value];
      ds := ds + now;
      p := NextPred(sc, p, ci, m[i]);
    }
    assert m[..|m|] == m && ds + [] == ds;
    r := Some(blocks);
  }

  /** The file from segment j on, ended by the given marker. */
  function FileFrom(datas: seq<seq<byte>>, j: nat, mark: byte, rest: seq<byte>): seq<byte>
    requires j < |datas|
    decreases |datas| - j
  {
    if j == |datas| - 1 then Segment(datas[j], 0, mark, rest)
    else Segment(datas[j], 0, RST0 + j % 8, FileFrom(datas, j + 1, mark, rest))
  }

  /** What a compressor wrote and a marker behind it is a file of framed segments. */
  lemma {:induction false} WireIsFile(datas: seq<seq<byte>>, j: nat, mark: byte, rest: seq<byte>)
    requires j < |datas|
    ensures Wire(datas[..|datas| - 1]) + Stuff(datas[|datas| - 1]) + [255, mark] + rest
         == Wire(datas[..j]) + FileFrom(datas, j, mark, rest)
    decreases |datas| - j
  {
    hide Stuff, RestartMark;
    var n := |datas| - 1;
    NoFill(datas[j], mark, rest);
    if j == n {
      Assoc(Wire(datas[..n]), Stuff(datas[n]), [255, mark]);
      Assoc(Wire(datas[..n]), Stuff(datas[n]) + [255, mark], rest);
    } else {
      WireIsFile(datas, j + 1, mark, rest);
      var more := FileFrom(datas, j + 1, mark, rest);
      assert datas[..j + 1] == datas[..j] + [datas[j]];
      WireAppend(datas[..j], datas[j]);
      NoFillRestart(datas[j], j, more);
      Assoc(Wire(datas[..j]), Stuff(datas[j]), RestartMark(j));
      Assoc(Wire(datas[..j]), Stuff(datas[j]) + RestartMark(j), more);
    }
  }

  lemma NoFill(data: seq<byte>, mark: byte, rest: seq<byte>)
    ensures Segment(data, 0, mark, rest) == Stuff(data) + [255, mark] + rest
  {
    hide Stuff;
    assert Stuff(data) + [] == Stuff(data);
  }

  lemma NoFillRestart(data: seq<byte>, j: nat, rest: seq<byte>)
    ensures Segment(data, 0, RST0 + j % 8, rest) == Stuff(data) + RestartMark(j) + rest
  {
    NoFill(data, RST0 + j % 8, rest);
  }

  class ScanDecoder {
    const d: Decoder
    const sc: Scan
    var lastDcVal: seq<int>
    var dcContext: seq<nat>
    var restartsToGo: nat
    var nextRestartNum: nat
    ghost const stats: seq<byte>
    ghost const ms: seq<mcu>              // the MCUs the file was made from
    ghost const datas: seq<seq<byte>>     // the data of its segments
    ghost const mark: byte                // the marker after the scan
    ghost const rest: seq<byte>
    ghost var i: nat                      // MCUs decoded so far

    /** The file is one a compressor made from ms. */
    ghost predicate Made()
    {
      && CodableScan(sc, ms) && FullBins(stats) && Carries(sc, stats, ms, datas)
      && |datas| == 1 + (if ms == [] then 0 else SegmentOf(sc, |ms| - 1))
      && mark != 0 && mark != 255
    }

    /** Number of the segment being read. */
    ghost function Current(): nat
      reads this
    {
      if i == 0 then 0 else SegmentOf(sc, i - 1)
    }

    /** The decoder reads segment j, and the segments after it follow in the source. */
    ghost predicate Reads(j: nat)
      reads d`data, d`mark, d`rest
    {
      && j < |datas| && d.data == datas[j]
      && if j == |datas| - 1 then d.mark == mark && d.rest == rest
         else d.mark == RST0 + j % 8 && d.rest == FileFrom(datas, j + 1, mark, rest)
    }

    ghost predicate Counters()
      reads this
    {
      && nextRestartNum == Current() % 8
      && (sc.restartInterval > 0 ==>
            restartsToGo == if Restarts(sc, i) then 0 else sc.restartInterval - SinceRestart(sc.restartInterval, i))
    }

    ghost predicate Follows()
      reads this, d, d.bins
    {
      && Made() && i <= |ms| && CodableScan(sc, ms[..i])
      && d.Valid() && d.bins.Length == TOTAL_BINS && Reads(Current())
      && Renorm(d.Interval()) == CoderAfter(sc, stats, ms[..i])
      && Matches(lastDcVal, dcContext, PredAfter(sc, ms[..i])) && ValidPred(sc, Pred(lastDcVal, dcContext))
      && Counters()
    }

    constructor (sc: Scan, stats: seq<byte>, source: seq<byte>,
                 ghost ms: seq<mcu>, ghost datas: seq<seq<byte>>, ghost mark: byte, ghost rest: seq<byte>)
      requires CodableScan(sc, ms) && FullBins(stats) && Carries(sc, stats, ms, datas)
      requires |datas| == 1 + (if ms == [] then 0 else SegmentOf(sc, |ms| - 1)) && mark != 0 && mark != 255
      requires source == FileFrom(datas, 0, mark, rest)
      ensures Follows() && i == 0 && this.sc == sc && this.ms == ms
      ensures fresh(d) && fresh(d.bins)
    {
      hide CodableScan, Carries, Segment;
      d := new Decoder(stats, source);
      this.sc, this.stats, this.ms, this.datas, this.mark, this.rest := sc, stats, ms, datas, mark, rest;
      lastDcVal, dcContext := seq(|sc.comps|, _ => 0), seq(|sc.comps|, _ => 0);
      restartsToGo, nextRestartNum, i := sc.restartInterval, 0, 0;
      new;
      CodablePrefix(sc, ms, 0);
      EnterSegment(0);
    }

    /** The next segment begins at the decoder's source. */
    ghost method EnterSegment(j: nat)
      requires j < |datas| && mark != 0 && mark != 255
      requires d.Running() && d.a == 0 && d.ct == -16 && d.unread == 0 && d.c == 0
      requires d.input == FileFrom(datas, j, mark, rest)
      modifies d`data, d`fill, d`mark, d`rest, d`k, d`low, d`n
      ensures d.Valid() && d.Interval() == Start(d.bins[..]) && Reads(j)
    {
      hide Segment;
      if j == |datas| - 1 {
        d.Frame(datas[j], 0, mark, rest);
      } else {
        d.Frame(datas[j], 0, RST0 + j % 8, FileFrom(datas, j + 1, mark, rest));
      }
    }

    /** The restart marker ahead is the one expected. */
    method PassMarker()
      requires Follows() && i < |ms| && Restarts(sc, i)
      modifies d`input, d`unread
      ensures SegmentOf(sc, i) == Current() + 1 < |datas| && ValidBins(d.bins[..])
      ensures d.unread == 0 && d.input == FileFrom(datas, SegmentOf(sc, i), mark, rest)
    {
      hide CodableScan, CoderAfter, PredAfter, Segment, Holds, Stuff, InsideAfter, FileFrom, Matches;
      assert SegmentOf(sc, i) == Current() + 1;
      var ok := d.ReadRestartMarker(nextRestartNum);
      assert ok;
    }

    /** Clear statistics and registers, and start on the next segment. */
    method Resync(ghost j: nat)
      requires j < |datas| && mark != 0 && mark != 255 && ValidBins(d.bins[..]) && d.bins.Length == TOTAL_BINS
      requires d.unread == 0 && d.input == FileFrom(datas, j, mark, rest)
      modifies d, d.bins
      ensures d.Valid() && Reads(j) && d.Interval() == Start(Clear(sc, old(d.bins[..])))
    {
      hide FileFrom, Clear, Holds, Segment;
      ClearAreas(sc, d.bins);
      d.Reset();
      EnterSegment(j);
    }

    /** Check for a restart marker and resynchronize the decoder. */
    method ProcessRestart()
      requires Follows() && i < |ms| && Restarts(sc, i)
      modifies this`lastDcVal, this`dcContext, this`restartsToGo, this`nextRestartNum, d, d.bins
      ensures d.Valid() && Reads(SegmentOf(sc, i)) && Renorm(d.Interval()) == CoderBefore(sc, stats, ms[..i])
      ensures Matches(lastDcVal, dcContext, PredBefore(sc, ms[..i])) && ValidPred(sc, Pred(lastDcVal, dcContext))
      ensures nextRestartNum == SegmentOf(sc, i) % 8 && restartsToGo == sc.restartInterval
    {
      hide CodableScan, CoderAfter, PredAfter, Segment, Clear, Holds, Stuff, InsideAfter, FileFrom, Matches,
        Decoder.Valid, Reads, Carries, FullBins, CoderBefore, PredBefore, Renorm, Restarts;
      RestartFrom(sc, stats, ms[..i], d.bins[..]);
      PassMarker();
      nextRestartNum := (nextRestartNum + 1) % 8;
      Resync(SegmentOf(sc, i));
      lastDcVal, dcContext := seq(|sc.comps|, _ => 0), seq(|sc.comps|, _ => 0);
      ZeroMatches();
      restartsToGo := sc.restartInterval;
    }

    lemma ZeroMatches()
      ensures Matches(seq(|sc.comps|, _ => 0), seq(|sc.comps|, _ => 0), Pred0(sc))
    {
    }

    /** Process a restart marker if one is due, and count the MCU about to come. */
    method NextInterval()
      requires Follows() && i < |ms|
      modifies this`lastDcVal, this`dcContext, this`restartsToGo, this`nextRestartNum, d, d.bins
      ensures d.Valid() && Reads(SegmentOf(sc, i)) && Renorm(d.Interval()) == CoderBefore(sc, stats, ms[..i])
      ensures Matches(lastDcVal, dcContext, PredBefore(sc, ms[..i])) && ValidPred(sc, Pred(lastDcVal, dcContext))
      ensures nextRestartNum == SegmentOf(sc, i) % 8
      ensures sc.restartInterval > 0 ==>
        restartsToGo == sc.restartInterval - SinceRestart(sc.restartInterval, i) - 1
    {
      hide CodableScan, CoderAfter, PredAfter, Segment, Clear, Holds, Stuff, InsideAfter, FileFrom, Matches,
        Decoder.Valid, Reads;
      if sc.restartInterval != 0 {
        if restartsToGo == 0 {
          ProcessRestart();
        }
        restartsToGo := restartsToGo - 1;
      }
    }

    /** Decode one MCU: it is the next one the compressor encoded, error exits are not taken,
    and bins, interval, predictions and contexts end up as they were on the compressor's side. */
    method DecodeMcu() returns (m: Option<seq<seq<int>>>)
      requires Follows() && i < |ms|
      modifies this, d, d.bins
      ensures Follows() && i == old(i) + 1 && m == Some(ms[old(i)])
    {
      hide CoderAfter, CoderBefore, PredAfter, PredBefore, Segment, Inside, Run, FileFrom, Carries, CodableScan, Matches, ValidCoder,
        Decoder.Valid, Decoder.Interval, Reads, McuPred, McuDecisions, Codable, InsideAfter, Renorm, SegmentOf, FullBins, Awaits, Live,
        Restarts, SinceRestart;
      ScanIsValid(sc, ms);
      NextInterval();
      CodablePrefix(sc, ms, i);
      ScanIsValid(sc, ms[..i]);
      AwaitsMcu();
      ghost var s0, p := CoderBefore(sc, stats, ms[..i]), PredBefore(sc, ms[..i]);
      m, lastDcVal, dcContext := DecodeBlocks(d, sc, lastDcVal, dcContext, p, ms[i], s0);
      McuDone();
      i := i + 1;
    }

    /** Behind an MCU the decoder stands where the encoder stood. */
    lemma McuDone()
      requires Made() && i < |ms| && CodableScan(sc, ms[..i])
      requires Awaits(d, CoderBefore(sc, stats, ms[..i]), McuDecisions(sc, PredBefore(sc, ms[..i]), ms[i], 0), [])
      ensures CodableScan(sc, ms[..i + 1]) && d.Valid() && d.bins.Length == TOTAL_BINS
      ensures Renorm(d.Interval()) == CoderAfter(sc, stats, ms[..i + 1])
      ensures PredAfter(sc, ms[..i + 1]) == McuPred(sc, PredBefore(sc, ms[..i]), ms[i], 0)
      ensures sc.restartInterval > 0 ==>
        sc.restartInterval - SinceRestart(sc.restartInterval, i) - 1
        == if Restarts(sc, i + 1) then 0 else sc.restartInterval - SinceRestart(sc.restartInterval, i + 1)
    {
      hide CoderAfter, CoderBefore, PredAfter, PredBefore, Inside, Run, Carries, CodableScan, ValidCoder, Decoder.Framed, Decoder.Tracks,
        McuPred, McuDecisions, Codable, Renorm, SegmentOf;
      CoderStep(sc, stats, ms, i);
      McuIs(sc, ms, i);
      if sc.restartInterval > 0 {
        CountDown(sc, i);
      }
    }

    lemma AwaitsMcu()
      requires Made() && i < |ms| && CodableScan(sc, ms[..i])
      requires d.Valid() && d.bins.Length == TOTAL_BINS && Reads(SegmentOf(sc, i))
      requires Renorm(d.Interval()) == CoderBefore(sc, stats, ms[..i])
      ensures Codable(sc, PredBefore(sc, ms[..i]), ms[i], 0) && Live(d)
      ensures Awaits(d, CoderBefore(sc, stats, ms[..i]), [], McuDecisions(sc, PredBefore(sc, ms[..i]), ms[i], 0))
    {
      hide CoderAfter, CoderBefore, PredAfter, PredBefore, Segment, Inside, Run, FileFrom, McuDecisions, Codable,
        InsideAfter, Decoder.Framed, Decoder.Tracks, Restarts, SegmentOf, CodableScan, Renorm, Carries;
      McuInside(sc, stats, ms, datas, i);
      RunNone(CoderBefore(sc, stats, ms[..i]));
    }
  }

  /** What a restart makes of the statistics. */
  lemma RestartFrom(sc: Scan, stats: seq<byte>, ms: seq<mcu>, bins: seq<byte>)
    requires CodableScan(sc, ms) && FullBins(stats) && Restarts(sc, |ms|) && CoderAfter(sc, stats, ms).bins == bins
    ensures PredBefore(sc, ms) == Pred0(sc)
    ensures Start(Clear(sc, bins)).a > 0 && Renorm(Start(Clear(sc, bins))) == CoderBefore(sc, stats, ms)
  {
    hide CodableScan, CoderAfter, Clear;
  }

  /** The data of a segment codes each of its MCUs in turn. */
  lemma McuInside(sc: Scan, bins: seq<byte>, ms: seq<mcu>, datas: seq<seq<byte>>, i: nat)
    requires CodableScan(sc, ms) && FullBins(bins) && Carries(sc, bins, ms, datas) && i < |ms|
    ensures CodableScan(sc, ms[..i]) && SegmentOf(sc, i) < |datas|
    ensures Codable(sc, PredBefore(sc, ms[..i]), ms[i], 0)
    ensures var ds := McuDecisions(sc, PredBefore(sc, ms[..i]), ms[i], 0);
      && InRange(ds, TOTAL_BINS)
      && Inside(datas[SegmentOf(sc, i)], Run(CoderBefore(sc, bins, ms[..i]), ds))
  {
    hide CoderAfter, CoderBefore, PredAfter, PredBefore, Inside, Run, McuDecisions, Codable, InsideAfter, SegmentOf,
      CodableScan, McuAt;
    CoderStep(sc, bins, ms, i);
    CarriesEvery(sc, bins, ms, datas, i);
    InsideIs(sc, bins, ms, datas[SegmentOf(sc, i)], i + 1);
    McuIs(sc, ms, i);
  }

  /** The statistics at the start of a scan: all zero but for the fixed bin. */
  function FreshStats(): (b: seq<byte>)
    ensures FullBins(b)
  {
    seq(TOTAL_BINS, i => if i == FIXED_BIN then LAST_STATE else 0)
  }

  /** Encode a scan: the file's segments carry the MCUs. */
  method EncodeScan(sc: Scan, ms: seq<mcu>) returns (file: seq<byte>, ghost datas: seq<seq<byte>>)
    requires CodableScan(sc, ms)
    ensures datas != [] && Carries(sc, FreshStats(), ms, datas)
    ensures file == Wire(datas[..|datas| - 1]) + Stuff(datas[|datas| - 1])
    ensures |datas| == 1 + if ms == [] then 0 else SegmentOf(sc, |ms| - 1)
  {
    hide *;
    ScanIsValid(sc, ms);
    var enc := new ScanEncoder(sc, FreshStats());
    for i := 0 to |ms|
      invariant enc.Valid() && enc.sent == ms[..i] && enc.sc == sc && enc.stats == FreshStats()
      invariant fresh(enc) && fresh(enc.e) && fresh(enc.e.bins)
    {
      McuIs(sc, ms, i);
      enc.EncodeMcu(ms[i]);
    }
    assert ms[..|ms|] == ms;
    datas := enc.FinishScan();
    file := enc.e.dest;
  }

  /** The bytes of a scan: its segments, each of which codes its MCUs, with restart markers between
  them, then a marker and whatever follows. */
  ghost predicate FileOf(sc: Scan, ms: seq<mcu>, mark: byte, rest: seq<byte>, file: seq<byte>) {
    && CodableScan(sc, ms) && mark != 0 && mark != 255
    && exists datas: seq<seq<byte>> ::
        && datas != [] && Carries(sc, FreshStats(), ms, datas) && file == FileFrom(datas, 0, mark, rest)
        && |datas| == 1 + if ms == [] then 0 else SegmentOf(sc, |ms| - 1)
  }

  /** Encode a scan, with a marker and other bytes behind it. */
  method EncodeFile(sc: Scan, ms: seq<mcu>, mark: byte, rest: seq<byte>) returns (file: seq<byte>)
    requires CodableScan(sc, ms) && mark != 0 && mark != 255
    ensures FileOf(sc, ms, mark, rest, file)
  {
    hide CodableScan, Carries, FileFrom, Stuff, Wire, FullBins;
    ghost var datas;
    file, datas := EncodeScan(sc, ms);
    file := file + [255, mark] + rest;
    WireIsFile(datas, 0, mark, rest);
    WireNone(datas, FileFrom(datas, 0, mark, rest));
  }

  /** Decode the MCUs of a scan.  Nothing but the bytes and the number of MCUs says what was
  sent. */
  method DecodeFile(sc: Scan, file: seq<byte>, count: nat, ghost ms: seq<mcu>, ghost mark: byte, ghost rest: seq<byte>)
    returns (decoded: seq<Option<seq<seq<int>>>>)
    requires FileOf(sc, ms, mark, rest, file) && |ms| == count
    ensures |decoded| == count && forall i :: 0 <= i < count ==> decoded[i] == Some(ms[i])
  {
    hide CodableScan, Carries, FileFrom, Stuff, Wire, ScanDecoder.Follows, FullBins, SegmentOf;
    ghost var datas: seq<seq<byte>> :|
      && datas != [] && Carries(sc, FreshStats(), ms, datas) && file == FileFrom(datas, 0, mark, rest)
      && |datas| == 1 + if ms == [] then 0 else SegmentOf(sc, |ms| - 1);
    var dec := new ScanDecoder(sc, FreshStats(), file, ms, datas, mark, rest);
    decoded := [];
    for i := 0 to count
      invariant dec.Follows() && dec.i == i == |decoded| && dec.ms == ms
      invariant fresh(dec) && fresh(dec.d) && fresh(dec.d.bins)
      invariant forall j :: 0 <= j < i ==> decoded[j] == Some(ms[j])
    {
      var m := dec.DecodeMcu();
      decoded := decoded + [m];
    }
  }

  /** The law the two coders are for: whatever MCUs go in, with any restart interval, the file
  written decodes to the same MCUs, whatever marker and bytes come behind it. */
  method RoundTrip(sc: Scan, ms: seq<mcu>, mark: byte, rest: seq<byte>)
    returns (file: seq<byte>, decoded: seq<Option<seq<seq<int>>>>)
    requires CodableScan(sc, ms) && mark != 0 && mark != 255
    ensures FileOf(sc, ms, mark, rest, file)
    ensures |decoded| == |ms| && forall i :: 0 <= i < |ms| ==> decoded[i] == Some(ms[i])
  {
    hide CodableScan, FileOf;
    file := EncodeFile(sc, ms, mark, rest);
    decoded := DecodeFile(sc, file, |ms|, ms, mark, rest);
  }

  lemma WireNone(datas: seq<seq<byte>>, s: seq<byte>)
    ensures Wire(datas[..0]) + s == s
  {
    assert datas[..0] == [];
  }
}