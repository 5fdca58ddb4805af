/** Sequential arithmetic MCU encoding, encode_mcu of jcarith.c. */
module ArithMcuEncoder {

  import opened CodeString
  import opened IntervalCoder
  import opened ArithEncoder
  import opened ArithBinarise
  import opened ZigZag
  import opened Coefficients

  /** Encoder e stands where the decisions ds took it from s0. */
  ghost predicate Coded(e: Encoder, s0: Coder, ds: seq<Decision>)
    reads e, e.bins
  {
    && e.Valid() && e.bins.Length == TOTAL_BINS
    && ValidCoder(s0) && |s0.bins| == TOTAL_BINS && InRange(ds, TOTAL_BINS)
    && e.Interval() == Run(s0, ds)
  }

  method Put(e: Encoder, st: nat, val: bit, ghost s0: Coder, ghost ds: seq<Decision>)
    requires Coded(e, s0, ds) && st < TOTAL_BINS
    modifies e, e.bins
    ensures Coded(e, s0, ds + [Decision(st, val)]) && e.done == old(e.done)
  {
    hide Run, Step;
    RunOne(Run(s0, ds), Decision(st, val));
    RunAppend(s0, ds, [Decision(st, val)]);
    RangeAppend(ds, [Decision(st, val)], TOTAL_BINS);
    assert Decision(st, val).ctx < |e.Interval().bins|;
    e.ArithEncode(st, val);
  }

  /** Figure F.9. */
  method EncodePattern(e: Encoder, top: nat, v: nat, st: nat, ghost s0: Coder, ghost ds: seq<Decision>)
    requires Coded(e, s0, ds) && st < TOTAL_BINS
    modifies e, e.bins
    ensures Coded(e, s0, ds + Pattern(top, v, st)) && e.done == old(e.done)
  {
    hide Coded;
    var m := top;
    ghost var es := ds;
    assert ds + Pattern(top, v, st) == es + Pattern(m, v, st);
    while m / 2 != 0
      invariant Coded(e, s0, es) && e.done == old(e.done)
      invariant ds + Pattern(top, v, st) == es + Pattern(m, v, st)
      decreases m
    {
      ghost var d := Decision(st, v / (m / 2) % 2);
      m := m / 2;
      Put(e, st, if v / m % 2 != 0 then 1 else 0, s0, es);
      Assoc(es, [d], Pattern(m, v, st));
      es := es + [d];
    }
    assert es + [] == es;
  }

  /** Figure F.8 from the first doubling on: count the doublings of v in bins x, x + 1, ... */
  method EncodeUnary(e: Encoder, v: nat, x: nat, ghost s0: Coder, ghost ds: seq<Decision>)
    returns (m: nat, st: nat)
    requires Coded(e, s0, ds) && v > 0 && x + Log2(v) < TOTAL_BINS
    modifies e, e.bins
    ensures Coded(e, s0, ds + Unary(v, x)) && e.done == old(e.done)
    ensures m == TopBit(v) && st == x + Log2(v)
  {
    hide Coded;
    var v2 := v;
    m, st := 1, x;
    ghost var es, j := ds, 0;
    while v2 / 2 != 0
      invariant v2 > 0 && Coded(e, s0, es) && e.done == old(e.done)
      invariant ds + Unary(v, x) == es + Unary(v2, st)
      invariant m == Shl(1, j) && Shl(TopBit(v2), j) == TopBit(v) && st + Log2(v2) == x + Log2(v)
      decreases v2
    {
      ShlTwice(TopBit(v2 / 2), j);
      j := j + 1;
      v2 := v2 / 2;
      Put(e, st, 1, s0, es);
      Assoc(es, [Decision(st, 1)], Unary(v2, st + 1));
      es := es + [Decision(st, 1)];
      m := 2 * m;
      st := st + 1;
    }
    Put(e, st, 0, s0, es);
  }

  /** One DC difference, Figure F.4; returns the next conditioning context. */
  method EncodeDcDiff(e: Encoder, tbl: table, ctx: nat, diff: int, lower: nat, upper: nat,
                      ghost s0: Coder, ghost ds: seq<Decision>)
    returns (next: nat)
    requires Coded(e, s0, ds) && ctx <= 16 && -0x8000 <= diff <= 0x8000
    modifies e, e.bins
    ensures Coded(e, s0, ds + DcDecisions(tbl, ctx, diff)) && e.done == old(e.done)
    ensures next == NextContext(diff, lower, upper)
  {
    hide Coded, Unary, Pattern, DcMagnitude, Shl, TopBit;
    var v := diff;
    var st := DcBin(tbl, ctx);
    if v == 0 {
      Put(e, st, 0, s0, ds);
      return 0;
    }
    Put(e, st, 1, s0, ds);
    ghost var sign := [Decision(st, 1), Decision(st + 1, if v < 0 then 1 else 0)];
    assert (ds + [Decision(st, 1)]) + [Decision(st + 1, if v < 0 then 1 else 0)] == ds + sign;
    ghost var mags := DcMagnitude(Abs(v) - 1, if v < 0 then st + 3 else st + 2, DcBin(tbl, 20));
    Assoc(ds, sign, mags);
    if v > 0 {
      Put(e, st + 1, 0, s0, ds + [Decision(st, 1)]);
      st := st + 2;
      next := 4;
    } else {
      v := -v;
      Put(e, st + 1, 1, s0, ds + [Decision(st, 1)]);
      st := st + 3;
      next := 8;
    }
    var m := EncodeDcMagnitude(e, tbl, v - 1, st, s0, ds + sign);
    if m < Shl(1, lower) / 2 {
      next := 0;
    } else if m > Shl(1, upper) / 2 {
      next := next + 8;
    }
  }

  method EncodeDcMagnitude(e: Encoder, tbl: table, v: nat, st0: nat, ghost s0: Coder, ghost ds: seq<Decision>)
    returns (m: nat)
    requires Coded(e, s0, ds) && v < 0x8000 && st0 + 14 < TOTAL_BINS
    modifies e, e.bins
    ensures Coded(e, s0, ds + DcMagnitude(v, st0, DcBin(tbl, 20))) && e.done == old(e.done)
    ensures m == if v == 0 then 0 else TopBit(v)
  {
    hide Coded, Unary, Pattern;
    var st := st0;
    if v == 0 {
      Put(e, st, 0, s0, ds);
      return 0;
    }
    Put(e, st, 1, s0, ds);
    ghost var es := ds + [Decision(st, 1)];
    FifteenBits(v);
    m, st := EncodeUnary(e, v, DcBin(tbl, 20), s0, es);
    ghost var us, ps := Unary(v, DcBin(tbl, 20)), Pattern(m, v, st + 14);
    EncodePattern(e, m, v, st + 14, s0, es + us);
    Assoc(es, us, ps);
    Assoc(ds, [Decision(st0, 1)], us + ps);
  }

  /** The magnitude of an AC coefficient, v being that magnitude less one. */
  method EncodeAcMagnitude(e: Encoder, tbl: table, v: nat, st0: nat, i: nat, ghost s0: Coder, ghost ds: seq<Decision>)
    requires Coded(e, s0, ds) && v < 0x8000 && st0 + 14 < TOTAL_BINS && i <= 217
    modifies e, e.bins
    ensures Coded(e, s0, ds + AcMagnitude(v, st0, AcBin(tbl, i))) && e.done == old(e.done)
  {
    hide Coded, Unary, Pattern;
    var m, st := 0, st0;
    if v == 0 {
      Put(e, st, 0, s0, ds);
    } else if v / 2 == 0 {
      Put(e, st, 1, s0, ds);
      Put(e, st, 0, s0, ds + [Decision(st, 1)]);
      assert (ds + [Decision(st, 1)]) + [Decision(st, 0)] == ds + [Decision(st, 1), Decision(st, 0)];
    } else {
      Put(e, st, 1, s0, ds);
      Put(e, st, 1, s0, ds + [Decision(st, 1)]);
      ghost var two := [Decision(st, 1), Decision(st, 1)];
      assert (ds + [Decision(st, 1)]) + [Decision(st, 1)] == ds + two;
      FifteenBits(v);
      var x := AcBin(tbl, i);
      m, st := EncodeUnary(e, v / 2, x, s0, ds + two);
      m := 2 * m;
      ghost var us, ps := Unary(v / 2, x), Pattern(m, v, st + 14);
      EncodePattern(e, m, v, st + 14, s0, ds + two + us);
      Assoc(ds + two, us, ps);
      Assoc(ds, two, us + ps);
    }
  }

  /** Figure F.5: the AC coefficients of a block. */
  method EncodeAc(e: Encoder, tbl: table, kx: nat, b: block, ghost s0: Coder, ghost ds: seq<Decision>)
    requires Coded(e, s0, ds)
    modifies e, e.bins
    ensures Coded(e, s0, ds + AcDecisions(tbl, kx, b, 1)) && e.done == old(e.done)
  {
    hide Coded, AcDecisions, AcRun, AcMagnitude, Coef;
    var ke: nat := DCTSIZE2 - 1;
    while ke > 0 && Coef(b, ke) == 0
      invariant ke < DCTSIZE2 && forall j: nat :: ke < j < DCTSIZE2 ==> Coef(b, j) == 0
    {
      ke := ke - 1;
    }
    var k := 1;
    ghost var es := ds;
    ghost var total := ds + AcDecisions(tbl, kx, b, 1);
    while k <= ke
      invariant 1 <= k <= ke + 1 && Coded(e, s0, es) && e.done == old(e.done)
      invariant total == es + AcDecisions(tbl, kx, b, k)
    {
      AcContinue(tbl, kx, b, k, ke);
      Put(e, AcBin(tbl, 3 * (k - 1)), 0, s0, es);
      Assoc(es, [Decision(AcBin(tbl, 3 * (k - 1)), 0)], AcRun(tbl, kx, b, k));
      es := es + [Decision(AcBin(tbl, 3 * (k - 1)), 0)];
      k, es := EncodeAcRun(e, tbl, kx, b, k, ke, s0, es, total);
    }
    if k <= DCTSIZE2 - 1 {
      AcStop(tbl, kx, b, k);
      Put(e, AcBin(tbl, 3 * (k - 1)), 1, s0, es);
    } else {
      AcEnd(tbl, kx, b, k);
      assert es + [] == es;
    }
  }

  /** One run of zeros and the coefficient that ends it. */
  method EncodeAcRun(e: Encoder, tbl: table, kx: nat, b: block, k0: nat, ke: nat,
                     ghost s0: Coder, ghost ds: seq<Decision>, ghost total: seq<Decision>)
    returns (k: nat, ghost es: seq<Decision>)
    requires Coded(e, s0, ds) && 1 <= k0 <= ke < DCTSIZE2 && Coef(b, ke) != 0
    requires total == ds + AcRun(tbl, kx, b, k0)
    modifies e, e.bins
    ensures k0 < k <= ke + 1 && Coded(e, s0, es) && e.done == old(e.done)
    ensures total == es + AcDecisions(tbl, kx, b, k)
  {
    hide Coded, AcDecisions, AcRun, AcMagnitude, Coef;
    k, es := k0, ds;
    var st := AcBin(tbl, 3 * (k - 1));
    var v := Coef(b, k);
    while v == 0
      invariant k0 <= k <= ke && v == Coef(b, k) && st == AcBin(tbl, 3 * (k - 1))
      invariant Coded(e, s0, es) && e.done == old(e.done)
      invariant total == es + AcRun(tbl, kx, b, k)
      decreases ke - k
    {
      AcZero(tbl, kx, b, k);
      Put(e, st + 1, 0, s0, es);
      Assoc(es, [Decision(st + 1, 0)], AcRun(tbl, kx, b, k + 1));
      es := es + [Decision(st + 1, 0)];
      st := st + 3;
      k := k + 1;
      v := Coef(b, k);
    }
    CoefBound(b, k);
    AcValue(tbl, kx, b, k);
    Put(e, st + 1, 1, s0, es);
    ghost var sign := [Decision(st + 1, 1), Decision(FIXED_BIN, if v < 0 then 1 else 0)];
    assert (es + [Decision(st + 1, 1)]) + [Decision(FIXED_BIN, if v < 0 then 1 else 0)] == es + sign;
    if v > 0 {
      Put(e, FIXED_BIN, 0, s0, es + [Decision(st + 1, 1)]);
    } else {
      v := -v;
      Put(e, FIXED_BIN, 1, s0, es + [Decision(st + 1, 1)]);
    }
    var i := if k <= kx then 189 else 217;
    EncodeAcMagnitude(e, tbl, v - 1, st + 2, i, s0, es + sign);
    ghost var ms := AcMagnitude(v - 1, st + 2, AcBin(tbl, i));
    Assoc(es, sign, ms + AcDecisions(tbl, kx, b, k + 1));
    Assoc(es + sign, ms, AcDecisions(tbl, kx, b, k + 1));
    es := es + sign + ms;
    k := k + 1;
  }
}
