/** The coded format of the arithmetic coder in plain numbers: estimation, the choice of the
subinterval, statistics bins, conditioning, stuffing and markers, as Annexes D and F of ITU-T
Rec. T.81 fix them.  Each law holds of the encoder and of the decoder alone. */
module ArithFormat {

  import opened CodeString
  import opened Arithmetic
  import opened ProbabilityTable
  import opened IntervalCoder
  import opened ZigZag
  import opened Coefficients
  import opened ArithBinarise
  import opened ArithScan
  import ArithScanEncoder
  import ArithScanDecoder

  /** Sections D.1.3 and D.1.4: the interval is split into A - Qe below and Qe above; the more
  probable symbol has the lower part unless that is the smaller one. */
  lemma SplitLaw(s: Coder, ctx: nat, val: bit)
    requires ValidCoder(s) && ctx < |s.bins|
    ensures var sv, t := s.bins[ctx], Split(s, ctx, val);
      var qe := Packed(sv % 128) / 65536;
      && (val != sv / 128 <==> s.a - qe >= qe) ==> t.low == s.low + s.a - qe && t.a == qe
    ensures var sv, t := s.bins[ctx], Split(s, ctx, val);
      var qe := Packed(sv % 128) / 65536;
      && !(val != sv / 128 <==> s.a - qe >= qe) ==> t.low == s.low && t.a == s.a - qe
    ensures Split(s, ctx, val).n == s.n
  {
    hide Packed, JpegAritab;
    TableWords(s.bins[ctx] % 128);
    UnpackWord(JpegAritab(s.bins[ctx] % 128));
  }

  /** Section D.1.5: the bin takes the next state for a less probable symbol, with the sense
  flipped if the table says so, or for a more probable one if the interval got small. */
  lemma EstimateLaw(s: Coder, ctx: nat, val: bit)
    requires ValidCoder(s) && ctx < |s.bins|
    ensures var sv := s.bins[ctx];
      var w := Packed(sv % 128);
      var sense, switch, nextLps, nextMps := sv / 128, w / 128 % 2, w % 128, w / 256 % 256;
      && 0 <= nextLps <= 113 && 0 <= nextMps <= 113
      && Split(s, ctx, val).bins == s.bins[ctx :=
          if val != sense then 128 * (if switch == 1 then 1 - sense else sense) + nextLps
          else if s.a - w / 65536 >= 0x8000 then sv
          else 128 * sense + nextMps]
  {
    hide Packed, JpegAritab;
    var sv := s.bins[ctx];
    var e := JpegAritab(sv % 128);
    TableWords(sv % 128);
    UnpackWord(e);
    LowByte(e.Word(), e.switchMps, e.nextLps);
  }

  lemma LowByte(w: int, switch: int, next: int)
    requires 0 <= w && w % 256 == switch * 128 + next && 0 <= switch <= 1 && 0 <= next < 128
    ensures w % 128 == next && w / 128 % 2 == switch
  {
  }

  /** Section D.1.6: interval and low end are doubled together until A is back at 0x8000. */
  lemma {:induction false} RenormLaw(s: Coder) returns (k: nat)
    requires 0 < s.a <= 0x10000
    ensures Shl(s.low, k) >= 0 && Shl(s.a, k) >= 0
    ensures Renorm(s) == Coder(Shl(s.low, k), Shl(s.a, k), s.n + k, s.bins) && 0x8000 <= Shl(s.a, k) <= 0x10000
    ensures s.a >= 0x8000 ==> k == 0
    decreases 0x10000 - s.a
  {
    if s.a >= 0x8000 {
      k := 0;
    } else {
      k := RenormLaw(Coder(2 * s.low, 2 * s.a, s.n + 1, s.bins));
      ShlTwice(s.low, k);
      ShlTwice(s.a, k);
      k := k + 1;
    }
  }

  /** Before anything is coded, and behind every restart, the interval is [0, 0x10000). */
  lemma StartLaw(sc: Scan, bins: seq<byte>, ms: seq<mcu>)
    requires CodableScan(sc, ms) && FullBins(bins)
    ensures ms == [] ==> CoderBefore(sc, bins, ms) == Coder(0, 0x10000, 0, bins)
    ensures sc.restartInterval > 0 && ms != [] && |ms| % sc.restartInterval == 0 ==>
      var t := CoderBefore(sc, bins, ms); t.low == 0 && t.a == 0x10000 && t.n == 0
  {
    hide Run, McuDecisions, CodableScan;
    RestartLaw(sc, |ms|);
  }

  /** Restarts come every restartInterval MCUs. */
  lemma RestartLaw(sc: Scan, i: nat)
    ensures Restarts(sc, i) <==> i > 0 && sc.restartInterval > 0 && i % sc.restartInterval == 0
  {
    if sc.restartInterval > 0 {
      SinceLaw(sc.restartInterval, i);
    }
  }

  lemma SinceLaw(r: nat, i: nat)
    requires r > 0
    ensures SinceRestart(r, i) == i % r
  {
    hide SinceRestart, Times;
    var q := RestartsBefore(r, i);
    Quotient(i, r, q, SinceRestart(r, i));
  }

  /** How many intervals lie before MCU i. */
  lemma {:induction false} RestartsBefore(r: nat, i: nat) returns (q: nat)
    requires r > 0
    ensures i == Times(q, r) + SinceRestart(r, i)
  {
    hide Times;
    if i == 0 {
      q := 0;
      ZeroTimes(r);
    } else {
      q := RestartsBefore(r, i - 1);
      if SinceRestart(r, i - 1) + 1 == r {
        TimesNext(q, r);
        q := q + 1;
      }
    }
  }

  /** What a restart does to the statistics: DC and AC areas of the components of the scan are
  zero, all other bins keep their state. */
  lemma ClearLaw(sc: Scan, bins: seq<byte>, i: nat)
    requires |bins| == 5121 && i < 5121
    ensures (exists c :: 0 <= c < |sc.comps| && AreasOf(sc.comps[c], i)) ==> Clear(sc, bins)[i] == 0
    ensures (forall c :: 0 <= c < |sc.comps| ==> !AreasOf(sc.comps[c], i)) ==> Clear(sc, bins)[i] == bins[i]
    ensures Clear(sc, bins)[5120] == bins[5120]
  {
    hide Clear;
    if c :| 0 <= c < |sc.comps| && AreasOf(sc.comps[c], i) {
      assert InAreas(sc.comps[c], i);
    }
  }

  /** Bin i is one of the 64 of the component's DC area or the 256 of its AC area. */
  predicate AreasOf(c: Component, i: nat) {
    64 * c.dcTbl <= i < 64 * c.dcTbl + 64 || 1024 + 256 * c.acTbl <= i < 1024 + 256 * c.acTbl + 256
  }

  /** A scan begins with all bins in state 0 but for the bin of the fixed estimate. */
  lemma FreshLaw(i: nat)
    requires i < 5121
    ensures |ArithScanDecoder.FreshStats()| == 5121 && ArithScanDecoder.FreshStats()[i] == if i == 5120 then 113 else 0
  {
  }

  /** The magnitude category of w: the place of its highest bit. */
  ghost predicate Category(w: nat, e: nat) {
    Shl(1, e) <= w < Shl(1, e + 1)
  }

  lemma CategoryHalf(w: nat, e: nat)
    requires Category(w, e) && e > 0
    ensures Category(w / 2, e - 1) && w > 1
  {
    CategoryPositive(e - 1);
  }

  lemma {:induction false} CategoryPositive(e: nat)
    ensures Shl(1, e) >= 1
  {
    if e > 0 {
      CategoryPositive(e - 1);
    }
  }

  /** n times 1 and a 0, in successive bins. */
  function Doublings(st: nat, n: nat): (ds: seq<Decision>) {
    seq(n + 1, i requires 0 <= i <= n => Decision(st + i, if i < n then 1 else 0))
  }

  /** The low n bits of w from the top, all in one bin. */
  function LowBits(w: nat, st: nat, n: nat): (ds: seq<Decision>) {
    seq(n, i requires 0 <= i < n => Decision(st, Shr(w, n - 1 - i) % 2))
  }

  lemma {:induction false} UnaryLaw(w: nat, st: nat, e: nat)
    requires Category(w, e)
    ensures w > 0 && Unary(w, st) == Doublings(st, e) && Log2(w) == e && TopBit(w) == Shl(1, e)
  {
    CategoryPositive(e);
    if e == 0 {
      assert w == 1;
    } else {
      CategoryHalf(w, e);
      UnaryLaw(w / 2, st + 1, e - 1);
      assert Doublings(st, e) == [Decision(st, 1)] + Doublings(st + 1, e - 1);
    }
  }

  lemma {:induction false} PatternLaw(w: nat, st: nat, e: nat)
    ensures Shl(1, e) >= 0 && Pattern(Shl(1, e), w, st) == LowBits(w, st, e)
  {
    if e > 0 {
      CategoryPositive(e - 1);
      var m := Shl(1, e);
      assert m == 2 * Shl(1, e - 1) && m / 2 == Shl(1, e - 1);
      PatternLaw(w, st, e - 1);
      QuotientIsShift(w, e - 1);
      assert LowBits(w, st, e) == [Decision(st, Shr(w, e - 1) % 2)] + LowBits(w, st, e - 1);
    }
  }

  lemma {:induction false} QuotientIsShift(w: nat, e: nat)
    ensures Shl(1, e) > 0 && w / Shl(1, e) == Shr(w, e)
  {
    CategoryPositive(e);
    if e > 0 {
      QuotientIsShift(w, e - 1);
      CategoryPositive(e - 1);
      HalfQuotient(w, Shl(1, e - 1));
    }
  }

  lemma HalfQuotient(w: nat, m: nat)
    requires m > 0
    ensures w / (2 * m) == w / m / 2
  {
    var q, k := w / m, w % m;
    var h, l := q / 2, q % 2;
    assert w == q * m + k && q == 2 * h + l;
    assert (2 * h + l) * m == h * (2 * m) + l * m;
    DivUnique(w, 2 * m, h, l * m + k);
  }

  /** Table F.4 and Figures F.4 to F.9 for a DC difference under context ctx: zero or not, its
  sign, and the magnitude less one, first its category in bins 20 and up, then its bits in the
  bin 14 above. */
  lemma DcLaw(tbl: table, ctx: nat, v: int, e: nat)
    requires Abs(v) > 1 ==> Category(Abs(v) - 1, e)
    ensures v == 0 ==> DcDecisions(tbl, ctx, v) == [Decision(64 * tbl + ctx, 0)]
    ensures v != 0 ==>
      var st := 64 * tbl + ctx;
      DcDecisions(tbl, ctx, v)
      == [Decision(st, 1), Decision(st + 1, if v > 0 then 0 else 1)]
         + if Abs(v) == 1 then [Decision(st + if v > 0 then 2 else 3, 0)]
           else [Decision(st + if v > 0 then 2 else 3, 1)]
                + (Doublings(64 * tbl + 20, e) + LowBits(Abs(v) - 1, 64 * tbl + 34 + e, e))
  {
    hide Unary, Pattern, Shr, TopBit, Log2, Doublings, LowBits;
    if Abs(v) > 1 {
      UnaryLaw(Abs(v) - 1, 64 * tbl + 20, e);
      PatternLaw(Abs(v) - 1, 64 * tbl + 34 + e, e);
    }
  }

  /** The magnitude of an AC coefficient, less one: bin st twice, then the category in bins x and
  up, then its bits in the bin 14 above. */
  lemma AcMagnitudeLaw(w: nat, st: nat, x: nat, e: nat)
    requires w > 1 ==> Category(w, e)
    ensures w > 1 ==> e > 0
    ensures AcMagnitude(w, st, x)
      == if w == 0 then [Decision(st, 0)] else if w == 1 then [Decision(st, 1), Decision(st, 0)]
         else [Decision(st, 1), Decision(st, 1)] + (Doublings(x, e - 1) + LowBits(w, x + e + 13, e))
  {
    hide Unary, Pattern, Shr, TopBit, Log2, Doublings, LowBits;
    if w > 1 {
      assert Shl(1, 0 + 1) == 2;
      UnaryLaw(w, x, e);
      CategoryHalf(w, e);
      UnaryLaw(w / 2, x, e - 1);
      PatternLaw(w, x + e + 13, e);
    }
  }

  /** Figure F.5 from coefficient k, with ke the next that is not zero: the end of block if there
  is none; else no end of block, a decision for each zero in its own bin, the sign with the fixed
  estimate, the magnitude, and what follows. */
  lemma AcLaw(tbl: table, kx: nat, b: block, k: nat, ke: nat)
    requires 1 <= k <= ke <= 64 && k < 64 && (forall j :: k <= j < ke ==> Coef(b, j) == 0) && (ke < 64 ==> Coef(b, ke) != 0)
    ensures ke == 64 ==> AcDecisions(tbl, kx, b, k) == [Decision(1024 + 256 * tbl + 3 * (k - 1), 1)]
    ensures ke < 64 ==>
      var v, st := Coef(b, ke), 1024 + 256 * tbl + 3 * (ke - 1);
      AcDecisions(tbl, kx, b, k)
      == [Decision(1024 + 256 * tbl + 3 * (k - 1), 0)] + Skipped(tbl, k, ke - k)
         + ([Decision(st + 1, 1), Decision(5120, if v < 0 then 1 else 0)]
            + (AcMagnitude(Abs(v) - 1, st + 2, 1024 + 256 * tbl + if ke <= kx then 189 else 217)
               + AcDecisions(tbl, kx, b, ke + 1)))
  {
    hide Coef, AcMagnitude;
    if ke < 64 {
      RunLaw(tbl, kx, b, k, ke);
      AcContinue(tbl, kx, b, k, ke);
      Front(Decision(1024 + 256 * tbl + 3 * (k - 1), 0), Skipped(tbl, k, ke - k), AcRun(tbl, kx, b, ke));
    }
  }

  lemma Front(d: Decision, s: seq<Decision>, t: seq<Decision>)
    ensures [d] + (s + t) == [d] + s + t
  {
  }

  /** One decision for each of n zeros from coefficient k on. */
  function Skipped(tbl: table, k: nat, n: nat): (ds: seq<Decision>)
    requires k >= 1
  {
    seq(n, i requires 0 <= i < n => Decision(1024 + 256 * tbl + 3 * (k + i - 1) + 1, 0))
  }

  lemma {:induction false} RunLaw(tbl: table, kx: nat, b: block, k: nat, ke: nat)
    requires 1 <= k <= ke < 64 && (forall j :: k <= j < ke ==> Coef(b, j) == 0) && Coef(b, ke) != 0
    ensures AcRun(tbl, kx, b, k) == Skipped(tbl, k, ke - k) + AcRun(tbl, kx, b, ke)
    ensures var v, st := Coef(b, ke), 1024 + 256 * tbl + 3 * (ke - 1);
      AcRun(tbl, kx, b, ke)
      == [Decision(st + 1, 1), Decision(5120, if v < 0 then 1 else 0)]
         + (AcMagnitude(Abs(v) - 1, st + 2, 1024 + 256 * tbl + if ke <= kx then 189 else 217)
            + AcDecisions(tbl, kx, b, ke + 1))
    decreases ke - k
  {
    hide Coef, AcMagnitude, AcDecisions, AcRun;
    AcValue(tbl, kx, b, ke);
    if k < ke {
      RunLaw(tbl, kx, b, k + 1, ke);
      AcZero(tbl, kx, b, k);
      var now, more := Decision(1024 + 256 * tbl + 3 * (k - 1) + 1, 0), Skipped(tbl, k + 1, ke - k - 1);
      assert Skipped(tbl, k, ke - k) == [now] + more;
      Front(now, more, AcRun(tbl, kx, b, ke));
    } else {
      assert Skipped(tbl, k, 0) == [];
    }
  }

  /** What block i of an MCU is coded from: the difference of its DC coefficient from the
  component's last one, in the area and under the context of the component, then its AC
  coefficients; and what the block leaves behind for the next one. */
  lemma PredictionLaw(sc: Scan, p: Pred, m: mcu, i: nat)
    requires ValidScan(sc) && ValidPred(sc, p) && |m| == |sc.membership| && i <= |m|
    ensures i == |m| ==> McuDecisions(sc, p, m, i) == []
    ensures i < |m| ==>
      var ci := sc.membership[i];
      var c := sc.comps[ci];
      McuDecisions(sc, p, m, i)
      == DcDecisions(c.dcTbl, p.ctx[ci], m[i][0] - p.last[ci]) + AcDecisions(c.acTbl, sc.acK[c.acTbl], m[i], 1)
         + McuDecisions(sc, Pred(p.last[ci := m[i][0]],
             p.ctx[ci := NextContext(m[i][0] - p.last[ci], sc.dcL[c.dcTbl], sc.dcU[c.dcTbl])]), m, i + 1)
  {
    hide DcDecisions, AcDecisions, NextContext;
  }

  /** Behind a restart predictions and contexts are zero. */
  lemma RestartPredictionLaw(sc: Scan, ms: seq<mcu>, ci: nat)
    requires ValidScan(sc) && (forall m :: m in ms ==> |m| == |sc.membership|) && ci < |sc.comps|
    requires ms == [] || (sc.restartInterval > 0 && |ms| % sc.restartInterval == 0)
    ensures PredBefore(sc, ms).last[ci] == 0 && PredBefore(sc, ms).ctx[ci] == 0
  {
    hide McuPred;
    RestartLaw(sc, |ms|);
  }

  /** Segments follow one another with the markers RST0 to RST7 between them, in turn. */
  lemma FileLaw(datas: seq<seq<byte>>, j: nat, mark: byte, rest: seq<byte>)
    requires j < |datas|
    ensures ArithScanDecoder.FileFrom(datas, j, mark, rest) == Stuff(datas[j])
      + if j == |datas| - 1 then [255, mark] + rest
        else [255, 0xD0 + j % 8] + ArithScanDecoder.FileFrom(datas, j + 1, mark, rest)
  {
    hide Stuff;
    var t := if j == |datas| - 1 then rest else ArithScanDecoder.FileFrom(datas, j + 1, mark, rest);
    ArithScanDecoder.NoFill(datas[j], if j == |datas| - 1 then mark else 0xD0 + j % 8, t);
  }

  /** Data of whole bytes lie in an interval as the big-endian number they spell does. */
  lemma {:induction false} InsideLaw(data: seq<byte>, b: byte, s: Coder)
    ensures 8 * |data| == 16 + s.n ==> (Inside(data, s) <==> s.low <= Value(data) < s.low + s.a)
    ensures Value([]) == 0 && Value(data + [b]) == 256 * Value(data) + b
  {
    BitsAreValue(data);
    ValueAppend(data, b);
  }
}
