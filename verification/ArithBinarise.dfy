/** The binary decisions of Annex F.1.4 of ITU-T Rec. T.81: which statistics bin each
decision of a block uses, and in what order.  Both MCU coders are proved against it. */
module ArithBinarise {

  import opened CodeString
  import opened IntervalCoder
  import opened ZigZag
  import opened Coefficients

  const DC_STAT_BINS := 64
  const AC_STAT_BINS := 256
  const NUM_ARITH_TBLS := 16
  const FIXED_BIN := 5120     // behind the 16 DC and 16 AC areas
  const TOTAL_BINS := 5121

  type table = t: nat | t < NUM_ARITH_TBLS

  /** Bin i of a DC statistics area. */
  function DcBin(tbl: table, i: nat): nat {
    DC_STAT_BINS * tbl + i
  }

  /** Bin i of an AC statistics area. */
  function AcBin(tbl: table, i: nat): nat {
    DC_STAT_BINS * NUM_ARITH_TBLS + AC_STAT_BINS * tbl + i
  }

  function TopBit(w: nat): (m: nat)
    requires w > 0
    ensures 0 < m <= w < 2 * m
  {
    if w == 1 then 1 else 2 * TopBit(w / 2)
  }

  function Log2(w: nat): nat
    requires w > 0
  {
    if w == 1 then 0 else 1 + Log2(w / 2)
  }

  /** Figure F.8: the magnitude category, one decision per doubling. */
  function Unary(w: nat, st: nat): seq<Decision>
    requires w > 0
  {
    if w == 1 then [Decision(st, 0)] else [Decision(st, 1)] + Unary(w / 2, st + 1)
  }

  /** Figure F.9: the bits of w below its top bit m. */
  function Pattern(m: nat, w: nat, st: nat): seq<Decision> {
    if m < 2 then [] else [Decision(st, w / (m / 2) % 2)] + Pattern(m / 2, w, st)
  }

  /** |v| - 1 of a DC difference, from bin st, then bins X1 and up. */
  function DcMagnitude(w: nat, st: nat, x1: nat): seq<Decision> {
    if w == 0 then [Decision(st, 0)]
    else [Decision(st, 1)] + (Unary(w, x1) + Pattern(TopBit(w), w, x1 + Log2(w) + 14))
  }

  /** |v| - 1 of an AC coefficient: the first doubling is coded in bin st again. */
  function AcMagnitude(w: nat, st: nat, x: nat): seq<Decision> {
    if w == 0 then [Decision(st, 0)]
    else if w == 1 then [Decision(st, 1), Decision(st, 0)]
    else [Decision(st, 1), Decision(st, 1)]
         + (Unary(w / 2, x) + Pattern(TopBit(w), w, x + Log2(w / 2) + 14))
  }

  /** Figure F.4 and Table F.4: a DC difference under conditioning context ctx. */
  function DcDecisions(tbl: table, ctx: nat, v: int): seq<Decision> {
    var st := DcBin(tbl, ctx);
    if v == 0 then [Decision(st, 0)]
    else
      [Decision(st, 1), Decision(st + 1, if v < 0 then 1 else 0)]
      + DcMagnitude(Abs(v) - 1, if v < 0 then st + 3 else st + 2, DcBin(tbl, 20))
  }

  /** Section F.1.4.4.1.2: the context the difference v leaves behind. */
  function NextContext(v: int, lower: nat, upper: nat): nat {
    if v == 0 then 0
    else
      var m := if Abs(v) == 1 then 0 else TopBit(Abs(v) - 1);
      if m < Shl(1, lower) / 2 then 0
      else (if v < 0 then 8 else 4) + (if m > Shl(1, upper) / 2 then 8 else 0)
  }

  /** The top bit of w against a power of two. */
  lemma {:induction false} TopBitAgainst(w: nat, e: nat)
    requires w > 0
    ensures TopBit(w) < Shl(1, e) <==> w < Shl(1, e)
    ensures e > 0 ==> Shl(1, e) == 2 * Shl(1, e - 1) && (TopBit(w) > Shl(1, e - 1) <==> w >= Shl(1, e))
  {
    if w == 1 || e == 0 {
      OneOrMore(e);
      if e > 0 {
        OneOrMore(e - 1);
      }
    } else {
      TopBitAgainst(w / 2, e - 1);
      if e == 1 {
        assert Shl(1, 0) == 1;
      }
    }
  }

  lemma {:induction false} OneOrMore(e: nat)
    ensures Shl(1, e) >= 1
  {
    if e > 0 {
      OneOrMore(e - 1);
    }
  }

  /** Section F.1.4.4.1.2: a difference of at most half of 2^L is classified zero, one above 2^U
  large, others small. */
  lemma ContextLaw(v: int, l: nat, u: nat)
    requires l <= u
    ensures NextContext(v, l, u)
      == if Abs(v) <= Shl(1, l) / 2 then 0 else (if v < 0 then 8 else 4) + (if Abs(v) > Shl(1, u) then 8 else 0)
  {
    hide TopBit, Shl;
    OneOrMore(u);
    Grows(l, u);
    Halved(l);
    Halved(u);
    if Abs(v) > 1 {
      var w := Abs(v) - 1;
      if l > 0 {
        TopBitAgainst(w, l - 1);
      }
      TopBitAgainst(w, u);
    }
  }

  lemma Halved(e: nat)
    ensures Shl(1, e) / 2 == if e == 0 then 0 else Shl(1, e - 1)
    ensures e > 0 ==> Shl(1, e) == 2 * Shl(1, e - 1)
    ensures e == 0 ==> Shl(1, e) == 1
  {
  }

  lemma {:induction false} Grows(l: nat, u: nat)
    requires l <= u
    ensures Shl(1, l) <= Shl(1, u)
  {
    if l < u {
      Grows(l, u - 1);
      OneOrMore(u - 1);
    }
  }

  type block = b: seq<int> | |b| == DCTSIZE2 && forall i :: 0 <= i < DCTSIZE2 ==> -0x8000 <= b[i] <= 0x7FFF
    witness seq(DCTSIZE2, _ => 0)

  /** The k'th coefficient in zigzag order. */
  function Coef(b: block, k: nat): int
    requires k < DCTSIZE2
  {
    b[NaturalOrder(k)]
  }

  /** Figure F.5 from coefficient k: either the end of block, or a run and a value. */
  function AcDecisions(tbl: table, kx: nat, b: block, k: nat): seq<Decision>
    requires 1 <= k
    decreases DCTSIZE2 - k, 1
  {
    if k >= DCTSIZE2 then []
    else if forall j :: k <= j < DCTSIZE2 ==> Coef(b, j) == 0 then [Decision(AcBin(tbl, 3 * (k - 1)), 1)]
    else [Decision(AcBin(tbl, 3 * (k - 1)), 0)] + AcRun(tbl, kx, b, k)
  }

  /** The zeros before the next nonzero coefficient, that coefficient, and the rest. */
  function AcRun(tbl: table, kx: nat, b: block, k: nat): seq<Decision>
    requires 1 <= k
    decreases DCTSIZE2 - k, 0
  {
    if k >= DCTSIZE2 then []
    else
      var st := AcBin(tbl, 3 * (k - 1));
      var v := Coef(b, k);
      if v == 0 then [Decision(st + 1, 0)] + AcRun(tbl, kx, b, k + 1)
      else
        [Decision(st + 1, 1), Decision(FIXED_BIN, if v < 0 then 1 else 0)]
        + (AcMagnitude(Abs(v) - 1, st + 2, AcBin(tbl, if k <= kx then 189 else 217))
           + AcDecisions(tbl, kx, b, k + 1))
  }

  lemma {:induction false} LogBound(w: nat, e: nat)
    requires 0 < w < Shl(1, e)
    ensures Log2(w) < e
  {
    if w > 1 {
      LogBound(w / 2, e - 1);
    }
  }

  lemma {:induction false} UnaryRange(w: nat, st: nat, n: nat)
    requires w > 0 && st + Log2(w) < n
    ensures InRange(Unary(w, st), n)
  {
    if w > 1 {
      UnaryRange(w / 2, st + 1, n);
    }
  }

  lemma {:induction false} PatternRange(m: nat, w: nat, st: nat, n: nat)
    requires st < n
    ensures InRange(Pattern(m, w, st), n)
  {
    if m >= 2 {
      PatternRange(m / 2, w, st, n);
    }
  }

  lemma DcRange(tbl: table, ctx: nat, v: int)
    requires ctx <= 16 && -0x8000 <= v <= 0x8000
    ensures InRange(DcDecisions(tbl, ctx, v), TOTAL_BINS)
  {
    var w := Abs(v) - 1;
    if w > 0 {
      var x1 := DcBin(tbl, 20);
      FifteenBits(w);
      UnaryRange(w, x1, TOTAL_BINS);
      PatternRange(TopBit(w), w, x1 + Log2(w) + 14, TOTAL_BINS);
    }
  }

  lemma FifteenBits(w: nat)
    requires 0 < w < 0x8000
    ensures Log2(w) <= 14
  {
    assert Shl(1, 15) == 0x8000;
    LogBound(w, 15);
  }

  lemma AcMagnitudeRange(tbl: table, w: nat, st: nat, i: nat)
    requires w < 0x8000 && st < TOTAL_BINS && i <= 217
    ensures InRange(AcMagnitude(w, st, AcBin(tbl, i)), TOTAL_BINS)
  {
    if w >= 2 {
      var x := AcBin(tbl, i);
      FifteenBits(w);
      UnaryRange(w / 2, x, TOTAL_BINS);
      PatternRange(TopBit(w), w, x + Log2(w / 2) + 14, TOTAL_BINS);
    }
  }

  lemma {:induction false} AcRange(tbl: table, kx: nat, b: block, k: nat)
    requires 1 <= k
    ensures InRange(AcDecisions(tbl, kx, b, k), TOTAL_BINS)
    ensures InRange(AcRun(tbl, kx, b, k), TOTAL_BINS)
    decreases DCTSIZE2 - k
  {
    if k < DCTSIZE2 {
      AcRange(tbl, kx, b, k + 1);
      AcRunRange(tbl, kx, b, k);
      RangeAppend([Decision(AcBin(tbl, 3 * (k - 1)), 0)], AcRun(tbl, kx, b, k), TOTAL_BINS);
    }
  }

  lemma AcRunRange(tbl: table, kx: nat, b: block, k: nat)
    requires 1 <= k < DCTSIZE2
    requires InRange(AcDecisions(tbl, kx, b, k + 1), TOTAL_BINS) && InRange(AcRun(tbl, kx, b, k + 1), TOTAL_BINS)
    ensures InRange(AcRun(tbl, kx, b, k), TOTAL_BINS)
  {
    hide AcDecisions, AcMagnitude, Coef;
    var st := AcBin(tbl, 3 * (k - 1));
    var v := Coef(b, k);
    if v == 0 {
      RangeAppend([Decision(st + 1, 0)], AcRun(tbl, kx, b, k + 1), TOTAL_BINS);
    } else {
      CoefBound(b, k);
      var i := if k <= kx then 189 else 217;
      AcMagnitudeRange(tbl, Abs(v) - 1, st + 2, i);
      var ms := AcMagnitude(Abs(v) - 1, st + 2, AcBin(tbl, i));
      RangeAppend(ms, AcDecisions(tbl, kx, b, k + 1), TOTAL_BINS);
      RangeAppend([Decision(st + 1, 1), Decision(FIXED_BIN, if v < 0 then 1 else 0)],
        ms + AcDecisions(tbl, kx, b, k + 1), TOTAL_BINS);
    }
  }

  lemma CoefBound(b: block, k: nat)
    requires k < DCTSIZE2
    ensures -0x8000 <= Coef(b, k) <= 0x7FFF
  {
  }

  // The cases of AcDecisions and AcRun, one at a time.

  lemma AcContinue(tbl: table, kx: nat, b: block, k: nat, ke: nat)
    requires 1 <= k <= ke < DCTSIZE2 && Coef(b, ke) != 0
    ensures AcDecisions(tbl, kx, b, k) == [Decision(AcBin(tbl, 3 * (k - 1)), 0)] + AcRun(tbl, kx, b, k)
  {
  }

  lemma AcStop(tbl: table, kx: nat, b: block, k: nat)
    requires 1 <= k < DCTSIZE2 && forall j :: k <= j < DCTSIZE2 ==> Coef(b, j) == 0
    ensures AcDecisions(tbl, kx, b, k) == [Decision(AcBin(tbl, 3 * (k - 1)), 1)]
  {
  }

  lemma AcEnd(tbl: table, kx: nat, b: block, k: nat)
    requires k >= DCTSIZE2
    ensures AcDecisions(tbl, kx, b, k) == []
  {
  }

  lemma AcZero(tbl: table, kx: nat, b: block, k: nat)
    requires 1 <= k < DCTSIZE2 && Coef(b, k) == 0
    ensures AcRun(tbl, kx, b, k) == [Decision(AcBin(tbl, 3 * (k - 1)) + 1, 0)] + AcRun(tbl, kx, b, k + 1)
  {
  }

  lemma AcValue(tbl: table, kx: nat, b: block, k: nat)
    requires 1 <= k < DCTSIZE2 && Coef(b, k) != 0
    ensures var v := Coef(b, k);
      AcRun(tbl, kx, b, k) ==
        [Decision(AcBin(tbl, 3 * (k - 1)) + 1, 1), Decision(FIXED_BIN, if v < 0 then 1 else 0)]
        + (AcMagnitude(Abs(v) - 1, AcBin(tbl, 3 * (k - 1)) + 2, AcBin(tbl, if k <= kx then 189 else 217))
           + AcDecisions(tbl, kx, b, k + 1))
  {
  }
}
