/** Sequential arithmetic MCU decoding, decode_mcu of jdarith.c. */
module ArithMcuDecoder {

  import opened Wrappers
  import opened CodeString
  import opened IntervalCoder
  import opened ArithDecoder
  import opened ArithEncoder
  import opened ArithBinarise
  import opened ZigZag
  import opened Coefficients

  /** Decoder d has made the decisions ds since s0, and its code string goes on with es. */
  ghost predicate Awaits(d: Decoder, s0: Coder, ds: seq<Decision>, es: seq<Decision>)
    reads d, d.bins
  {
    && d.Valid() && d.bins.Length == TOTAL_BINS
    && ValidCoder(s0) && |s0.bins| == TOTAL_BINS && InRange(ds, TOTAL_BINS) && InRange(es, TOTAL_BINS)
    && Renorm(d.Interval()) == Run(s0, ds)
    && Inside(d.data, Run(Run(s0, ds), es))
  }

  /** A decoder outside the error state. */
  ghost predicate Live(d: Decoder)
    reads d, d.bins
  {
    d.Running() && d.bins.Length == TOTAL_BINS
  }

  method Get(d: Decoder, st: nat, ghost s0: Coder, ghost ds: seq<Decision>, ghost q: Decision, ghost es: seq<Decision>)
    returns (r: Option<bit>)
    requires Live(d) && st < TOTAL_BINS
    modifies d`c, d`a, d`ct, d`input, d`unread, d`k, d`low, d`n, d.bins
    ensures r.Some? ==> Live(d)
    ensures old(Awaits(d, s0, ds, [q] + es)) && st == q.ctx ==> r == Some(q.val) && Awaits(d, s0, ds + [q], es)
  {
    hide Run, Step, Inside, Decide, Renorm;
    if Awaits(d, s0, ds, [q] + es) {
      FirstDecision(d.data, Run(s0, ds), q, es);
      RunOne(Run(s0, ds), q);
      RunAppend(s0, ds, [q]);
      RangeAppend(ds, [q], TOTAL_BINS);
    }
    r := d.ArithDecode(st);
  }

  /** With v the bits of w from 2h up, the bit at h tells which half w lies in. */
  lemma NextBit(w: nat, v: nat, q: nat, h: nat)
    requires h > 0 && v == h * (2 * q) && v <= w < v + 2 * h
    ensures w / h % 2 == if w >= v + h then 1 else 0
  {
    var b := if w >= v + h then 1 else 0;
    assert h * (2 * q + b) == v + h * b;
    DivIs(w, h, 2 * q + b);
  }

  lemma DivIs(w: nat, h: nat, x: nat)
    requires h > 0 && h * x <= w < h * x + h
    ensures w / h == x
  {
    var y := w / h;
    assert h * y <= w < h * y + h;
    if y < x {
      MulLe(h, y + 1, x);
    } else if y > x {
      MulLe(h, x + 1, y);
    }
  }

  lemma MulLe(h: nat, a: int, b: int)
    requires a <= b
    ensures h * a <= h * b
  {
  }

  lemma {:induction false} TopBitPower(w: nat)
    requires w > 0
    ensures TopBit(w) == Shl(1, Log2(w))
  {
    if w > 1 {
      TopBitPower(w / 2);
    }
  }

  lemma PatternStep(m: nat, w: nat, st: nat, j: nat)
    requires m / 2 != 0
    ensures Pattern(m, w, st) == [Decision(st, w / (m / 2) % 2)] + Pattern(m / 2, w, st)
    ensures m == Shl(1, j) ==> j > 0 && m == 2 * (m / 2) && m / 2 == Shl(1, j - 1)
  {
  }

  lemma PatternEnd(m: nat, w: nat, st: nat)
    requires m / 2 == 0
    ensures Pattern(m, w, st) == []
  {
  }

  /** Figure F.24: the bits of w below its top bit. */
  method DecodePattern(d: Decoder, top: nat, st: nat, ghost w: nat,
                       ghost s0: Coder, ghost ds: seq<Decision>, ghost es: seq<Decision>)
    returns (r: Option<nat>)
    requires Live(d) && st < TOTAL_BINS
    modifies d`c, d`a, d`ct, d`input, d`unread, d`k, d`low, d`n, d.bins
    ensures r.Some? ==> Live(d)
    ensures w > 0 && top == TopBit(w) && old(Awaits(d, s0, ds, Pattern(top, w, st) + es)) ==>
      r == Some(w) && Awaits(d, s0, ds + Pattern(top, w, st), es)
  {
    hide Awaits, Live, TopBit, Log2, Pattern, Shl;
    ghost var good := w > 0 && top == TopBit(w) && Awaits(d, s0, ds, Pattern(top, w, st) + es);
    var m, v: nat := top, top;
    ghost var fs, j, q := ds, 0, 1;
    if good {
      TopBitPower(w);
      TopBitRange(w);
      j := Log2(w);
    }
    assert ds + Pattern(top, w, st) == fs + Pattern(m, w, st);
    while m / 2 != 0
      invariant Live(d)
      invariant good ==> m == Shl(1, j) && v == m * q && v <= w < v + m
      invariant good ==> Awaits(d, s0, fs, Pattern(m, w, st) + es)
      invariant good ==> ds + Pattern(top, w, st) == fs + Pattern(m, w, st)
      decreases m
    {
      ghost var bit := Decision(st, w / (m / 2) % 2);
      PatternStep(m, w, st, j);
      Assoc([bit], Pattern(m / 2, w, st), es);
      Assoc(fs, [bit], Pattern(m / 2, w, st));
      m := m / 2;
      if good {
        assert v == m * (2 * q);
        NextBit(w, v, q, m);
      }
      var one := Get(d, st, s0, fs, bit, Pattern(m, w, st) + es);
      if one.None? {
        return None;
      }
      q := 2 * q;
      if one.value != 0 {
        v := v + m;   // the bit m of v is still clear
        q := q + 1;
      }
      fs := fs + [bit];
      if good {
        j := j - 1;
      }
    }
    r := Some(v);
    if good {
      PatternEnd(m, w, st);
      assert [] + es == es;
      assert fs + [] == fs;
    }
  }

  lemma TopBitRange(w: nat)
    requires w > 0
    ensures 0 < TopBit(w) <= w < 2 * TopBit(w)
  {
  }

  /** Figure F.23 from the first doubling on: m doubles with every 1 read from bins x, x + 1, ...
  and a code that would push it to 0x8000 puts the decoder into its error state. */
  method DecodeUnary(d: Decoder, m0: nat, x: nat, ghost w: nat,
                     ghost s0: Coder, ghost ds: seq<Decision>, ghost es: seq<Decision>)
    returns (r: Option<(nat, nat)>)
    requires Live(d) && (m0 == 1 || m0 == 2) && x + 14 < TOTAL_BINS
    modifies d`c, d`a, d`ct, d`input, d`unread, d`k, d`low, d`n, d.bins
    ensures r.Some? ==> Live(d) && r.value.1 <= x + 14
    ensures 0 < w && m0 * TopBit(w) < 0x8000 && old(Awaits(d, s0, ds, Unary(w, x) + es)) ==>
      r == Some((m0 * TopBit(w), x + Log2(w))) && Awaits(d, s0, ds + Unary(w, x), es)
  {
    hide Awaits, Unary, TopBit, Shl;
    ghost var good := 0 < w && m0 * TopBit(w) < 0x8000 && Awaits(d, s0, ds, Unary(w, x) + es);
    var m, st := m0, x;
    ghost var fs, v2, i, j := ds, w, if m0 == 1 then 15 else 14, 0;
    ShlStart(m0, TopBit(if w > 0 then w else 1));
    while true
      invariant Live(d) && st == x + j && j + i == (if m0 == 1 then 15 else 14)
      invariant i > 0 && Shl(m, i) == 0x8000
      invariant good ==> v2 > 0 && m == m0 * Shl(1, j) && Shl(TopBit(v2), j) == TopBit(w) && st + Log2(v2) == x + Log2(w)
      invariant good ==> Awaits(d, s0, fs, Unary(v2, st) + es)
      invariant good ==> ds + Unary(w, x) == fs + Unary(v2, st)
      decreases i
    {
      ghost var bit := Decision(st, if v2 == 1 then 0 else 1);
      ghost var us := if v2 <= 1 then [] else Unary(v2 / 2, st + 1);
      if good {
        UnaryStep(v2, st);
        Assoc([bit], us, es);
        Assoc(fs, [bit], us);
      }
      var one := Get(d, st, s0, fs, bit, us + es);
      if one.None? {
        return None;
      }
      if one.value == 0 {
        if good {
          assert fs + [bit] + [] == fs + [bit] && [] + es == es;
          UnaryRoom(m0, v2, j, w);
        }
        return Some((m, st));
      }
      DoubleRoom(m, i);
      if good {
        UnaryRoom(m0, v2, j, w);
      }
      m := 2 * m;
      if m == 0x8000 {
        d.ct := -1;   // magnitude overflow
        return None;
      }
      st := st + 1;
      fs, v2, i, j := fs + [bit], v2 / 2, i - 1, j + 1;
    }
  }

  lemma ShlStart(m0: nat, t: nat)
    requires m0 == 1 || m0 == 2
    ensures Shl(m0, if m0 == 1 then 15 else 14) == 0x8000 && Shl(t, 0) == t && Shl(1, 0) == 1
  {
    ShlFifteen(m0);
    assert Shl(m0, 15) == 2 * Shl(m0, 14);
  }

  lemma DoubleRoom(m: nat, i: nat)
    requires i > 0 && Shl(m, i) == 0x8000
    ensures Shl(2 * m, i - 1) == 0x8000 && (i == 1 ==> 2 * m == 0x8000)
  {
    ShlTwice(m, i - 1);
  }

  lemma UnaryStep(v: nat, st: nat)
    requires v > 0
    ensures Unary(v, st) ==
      [Decision(st, if v == 1 then 0 else 1)] + (if v == 1 then [] else Unary(v / 2, st + 1))
    ensures v > 1 ==> Log2(v) == 1 + Log2(v / 2)
  {
  }

  /** Another doubling stays below 0x8000 when the magnitude itself does. */
  lemma UnaryRoom(m0: nat, v: nat, j: nat, w: nat)
    requires (m0 == 1 || m0 == 2) && v > 0 && w > 0
    requires Shl(TopBit(v), j) == TopBit(w) && m0 * TopBit(w) < 0x8000
    ensures v > 1 ==> Shl(TopBit(v / 2), j + 1) == TopBit(w)
    ensures v > 1 ==> 2 * (m0 * Shl(1, j)) == m0 * Shl(1, j + 1) < 0x8000
    ensures v == 1 ==> Shl(1, j) == TopBit(w)
  {
    if v > 1 {
      ShlTwice(TopBit(v / 2), j);
      ShlMonotone(TopBit(v / 2), 1, j + 1);
    }
  }

  /** Figures F.19 to F.24: a DC difference, and the next conditioning context. */
  method DecodeDcDiff(d: Decoder, tbl: table, ctx: nat, lower: nat, upper: nat, ghost diff: int,
                      ghost s0: Coder, ghost ds: seq<Decision>, ghost es: seq<Decision>)
    returns (r: Option<(int, nat)>)
    requires Live(d) && ctx <= 16
    modifies d`c, d`a, d`ct, d`input, d`unread, d`k, d`low, d`n, d.bins
    ensures r.Some? ==> Live(d) && r.value.1 <= 16
    ensures -0x8000 <= diff <= 0x8000 && old(Awaits(d, s0, ds, DcDecisions(tbl, ctx, diff) + es)) ==>
      r == Some((diff, NextContext(diff, lower, upper))) && Awaits(d, s0, ds + DcDecisions(tbl, ctx, diff), es)
  {
    hide Awaits, Unary, Pattern, TopBit, Log2, Shl, DcMagnitude;
    ghost var good := -0x8000 <= diff <= 0x8000 && Awaits(d, s0, ds, DcDecisions(tbl, ctx, diff) + es);
    var st := DcBin(tbl, ctx);
    ghost var neg: bit := if diff < 0 then 1 else 0;
    ghost var w := Abs(diff) - 1;
    ghost var q0, q1 := Decision(st, if diff == 0 then 0 else 1), Decision(st + 1, neg);
    ghost var mags := if diff == 0 then [] else DcMagnitude(w, st + 2 + neg, DcBin(tbl, 20));
    if good && diff != 0 {
      Assoc([q0, q1], mags, es);
      assert [q0, q1] + (mags + es) == [q0] + ([q1] + (mags + es));
    }
    var nonzero := Get(d, st, s0, ds, q0, if diff == 0 then es else [q1] + (mags + es));
    if nonzero.None? {
      return None;
    }
    if nonzero.value == 0 {
      return Some((0, 0));
    }
    var sign := Get(d, st + 1, s0, ds + [q0], q1, mags + es);
    if sign.None? {
      return None;
    }
    var negative: int := sign.value;
    st := st + 2 + negative;
    if good {
      assert (ds + [q0]) + [q1] == ds + [q0, q1];
      Assoc(ds, [q0, q1], mags);
    }
    var mag := DecodeDcMagnitude(d, tbl, st, if diff == 0 then 0 else w, s0, ds + [q0, q1], es);
    if mag.None? {
      return None;
    }
    var (m, w1) := mag.value;
    var v: int := w1;
    var next := if m < Shl(1, lower) / 2 then 0
                else if m > Shl(1, upper) / 2 then 12 + negative * 4
                else 4 + negative * 4;
    v := v + 1;
    r := Some((if negative == 1 then -v else v, next));
  }

  /** The magnitude category m of a DC difference and the magnitude less one. */
  method DecodeDcMagnitude(d: Decoder, tbl: table, st0: nat, ghost w: nat,
                           ghost s0: Coder, ghost ds: seq<Decision>, ghost es: seq<Decision>)
    returns (r: Option<(nat, nat)>)
    requires Live(d) && st0 + 14 < TOTAL_BINS
    modifies d`c, d`a, d`ct, d`input, d`unread, d`k, d`low, d`n, d.bins
    ensures r.Some? ==> Live(d)
    ensures w < 0x8000 && old(Awaits(d, s0, ds, DcMagnitude(w, st0, DcBin(tbl, 20)) + es)) ==>
      && r == Some((if w == 0 then 0 else TopBit(w), w))
      && Awaits(d, s0, ds + DcMagnitude(w, st0, DcBin(tbl, 20)), es)
  {
    hide Awaits, Unary, Pattern, TopBit, Log2;
    var x := DcBin(tbl, 20);
    ghost var good := w < 0x8000 && Awaits(d, s0, ds, DcMagnitude(w, st0, x) + es);
    ghost var q := Decision(st0, if w == 0 then 0 else 1);
    ghost var us, ps := if w == 0 then [] else Unary(w, x), if w == 0 then [] else Pattern(TopBit(w), w, x + Log2(w) + 14);
    if w > 0 {
      TopBitRange(w);
      Assoc([q], us + ps, es);
      Assoc(us, ps, es);
      Assoc(ds, [q], us + ps);
      Assoc(ds + [q], us, ps);
    }
    var m := Get(d, st0, s0, ds, q, if w == 0 then es else us + (ps + es));
    if m.None? {
      return None;
    }
    if m.value == 0 {
      return Some((0, 0));
    }
    var top := DecodeUnary(d, 1, x, w, s0, ds + [q], ps + es);
    if top.None? {
      return None;
    }
    var v := DecodePattern(d, top.value.0, top.value.1 + 14, w, s0, ds + [q] + us, es);
    if v.None? {
      return None;
    }
    r := Some((top.value.0, v.value));
  }

  /** The magnitude of an AC coefficient less one. */
  method DecodeAcMagnitude(d: Decoder, tbl: table, st0: nat, i: nat, ghost w: nat,
                           ghost s0: Coder, ghost ds: seq<Decision>, ghost es: seq<Decision>)
    returns (r: Option<nat>)
    requires Live(d) && st0 + 14 < TOTAL_BINS && i <= 217
    modifies d`c, d`a, d`ct, d`input, d`unread, d`k, d`low, d`n, d.bins
    ensures r.Some? ==> Live(d)
    ensures w < 0x8000 && old(Awaits(d, s0, ds, AcMagnitude(w, st0, AcBin(tbl, i)) + es)) ==>
      r == Some(w) && Awaits(d, s0, ds + AcMagnitude(w, st0, AcBin(tbl, i)), es)
  {
    hide Awaits, Unary, Pattern, TopBit, Log2;
    var st, x := st0, AcBin(tbl, i);
    ghost var q0, q1 := Decision(st, if w == 0 then 0 else 1), Decision(st, if w < 2 then 0 else 1);
    ghost var us := if w < 2 then [] else Unary(w / 2, x);
    ghost var ps := if w < 2 then [] else Pattern(TopBit(w), w, x + Log2(w / 2) + 14);
    if w > 0 {
      assert [q0, q1] == [q0] + [q1];
      Assoc(ds, [q0], [q1]);
      Assoc([q0], [q1], es);
    }
    if w >= 2 {
      TopBitRange(w);
      TopBitHalf(w);
      Assoc([q0, q1], us + ps, es);
      Assoc([q0], [q1], us + ps + es);
      Assoc(us, ps, es);
      Assoc(ds, [q0, q1], us + ps);
      Assoc(ds + [q0, q1], us, ps);
    }
    var m := Get(d, st, s0, ds, q0, if w == 0 then es else [q1] + (if w == 1 then es else us + ps + es));
    if m.None? {
      return None;
    }
    if m.value == 0 {
      return Some(0);
    }
    var twice := Get(d, st, s0, ds + [q0], q1, if w < 2 then es else us + ps + es);
    if twice.None? {
      return None;
    }
    if twice.value == 0 {
      return Some(1);
    }
    var top := DecodeUnary(d, 2, x, if w < 2 then 1 else w / 2, s0, ds + [q0] + [q1], ps + es);
    if top.None? {
      return None;
    }
    r := DecodePattern(d, top.value.0, top.value.1 + 14, w, s0, ds + [q0] + [q1] + us, es);
  }

  lemma TopBitHalf(w: nat)
    requires w >= 2
    ensures TopBit(w) == 2 * TopBit(w / 2)
  {
  }

  /** Conversion of an int to the 16-bit JCOEF. */
  function ToCoef(v: int): int {
    (v + 0x8000) % 0x10000 - 0x8000
  }

  /** From the first bin after an "end of block: no": the zeros skipped and the coefficient met. */
  method DecodeAcRun(d: Decoder, tbl: table, kx: nat, k0: nat, ghost b: block,
                     ghost s0: Coder, ghost ds: seq<Decision>, ghost es: seq<Decision>)
    returns (r: Option<(nat, int)>, ghost fs: seq<Decision>)
    requires Live(d) && 1 <= k0 < DCTSIZE2
    modifies d`c, d`a, d`ct, d`input, d`unread, d`k, d`low, d`n, d.bins
    ensures r.Some? ==> Live(d) && k0 <= r.value.0 < DCTSIZE2
    ensures old(Awaits(d, s0, ds, AcRun(tbl, kx, b, k0) + es)) && (exists j :: k0 <= j < DCTSIZE2 && Coef(b, j) != 0) ==>
      && r.Some? && var (k, v) := r.value;
      && v == Coef(b, k) != 0 && (forall j :: k0 <= j < k ==> Coef(b, j) == 0)
      && Awaits(d, s0, fs, AcDecisions(tbl, kx, b, k + 1) + es)
      && ds + AcRun(tbl, kx, b, k0) == fs + AcDecisions(tbl, kx, b, k + 1)
  {
    hide Awaits, AcDecisions, AcRun, AcMagnitude, Coef;
    ghost var good := Awaits(d, s0, ds, AcRun(tbl, kx, b, k0) + es)
                      && exists j :: k0 <= j < DCTSIZE2 && Coef(b, j) != 0;
    var k := k0;
    var st := AcBin(tbl, 3 * (k - 1));
    fs := ds;
    var zero := RunBit(d, tbl, kx, k, b, s0, fs, es);
    while zero == Some(0)
      invariant k0 <= k < DCTSIZE2 && st == AcBin(tbl, 3 * (k - 1))
      invariant zero.Some? ==> Live(d)
      invariant good ==> forall j :: k0 <= j < k ==> Coef(b, j) == 0
      invariant good ==> exists j :: k <= j < DCTSIZE2 && Coef(b, j) != 0
      invariant good ==> ds + AcRun(tbl, kx, b, k0) == fs + AcRun(tbl, kx, b, k)
      invariant good ==> RunBitRead(d, tbl, kx, k, b, s0, fs, es, zero)
      decreases DCTSIZE2 - k
    {
      if good {
        AcZero(tbl, kx, b, k);
        Assoc(fs, [Decision(st + 1, 0)], AcRun(tbl, kx, b, k + 1));
      }
      fs := fs + [Decision(st + 1, 0)];
      st := st + 3;
      k := k + 1;
      if k > DCTSIZE2 - 1 {
        d.ct := -1;   // spectral overflow
        return None, fs;
      }
      zero := RunBit(d, tbl, kx, k, b, s0, fs, es);
    }
    if zero.None? {
      return None, fs;
    }
    ghost var v := Coef(b, k);
    CoefBound(b, k);
    ghost var q0, q1 := Decision(st + 1, 1), Decision(FIXED_BIN, if v < 0 then 1 else 0);
    var i := if k <= kx then 189 else 217;
    ghost var w := if v == 0 then 0 else Abs(v) - 1;
    ghost var ms := AcMagnitude(w, st + 2, AcBin(tbl, i));
    ghost var later := AcDecisions(tbl, kx, b, k + 1);
    if good {
      AcValue(tbl, kx, b, k);
      assert [q0, q1] == [q0] + [q1];
      Assoc([q1], ms + later, es);
      Assoc(ms, later, es);
      Assoc(fs, [q0, q1], ms + later);
      Assoc(fs + [q0, q1], ms, later);
      Assoc(fs, [q0], [q1]);
    }
    var sign := Get(d, FIXED_BIN, s0, fs + [q0], q1, ms + (later + es));
    if sign.None? {
      return None, fs;
    }
    var mag := DecodeAcMagnitude(d, tbl, st + 2, i, w, s0, fs + [q0] + [q1], later + es);
    if mag.None? {
      return None, fs;
    }
    var mag1: int := mag.value + 1;
    r := Some((k, if sign.value == 1 then -mag1 else mag1));
    fs := fs + [q0] + [q1] + ms;
  }

  /** What reading bin S0 + 1 at coefficient k leaves to be read. */
  ghost predicate RunBitRead(d: Decoder, tbl: table, kx: nat, k: nat, b: block,
                             s0: Coder, fs: seq<Decision>, es: seq<Decision>, r: Option<bit>)
    requires 1 <= k < DCTSIZE2
    reads d, d.bins
  {
    var v, st := Coef(b, k), AcBin(tbl, 3 * (k - 1));
    if v == 0 then r == Some(0) && Awaits(d, s0, fs + [Decision(st + 1, 0)], AcRun(tbl, kx, b, k + 1) + es)
    else
      var ms := AcMagnitude(Abs(v) - 1, st + 2, AcBin(tbl, if k <= kx then 189 else 217));
      r == Some(1) && Awaits(d, s0, fs + [Decision(st + 1, 1)],
        [Decision(FIXED_BIN, if v < 0 then 1 else 0)] + ((ms + AcDecisions(tbl, kx, b, k + 1)) + es))
  }

  method RunBit(d: Decoder, tbl: table, kx: nat, k: nat, ghost b: block,
                ghost s0: Coder, ghost fs: seq<Decision>, ghost es: seq<Decision>)
    returns (r: Option<bit>)
    requires Live(d) && 1 <= k < DCTSIZE2
    modifies d`c, d`a, d`ct, d`input, d`unread, d`k, d`low, d`n, d.bins
    ensures r.Some? ==> Live(d)
    ensures old(Awaits(d, s0, fs, AcRun(tbl, kx, b, k) + es)) ==> RunBitRead(d, tbl, kx, k, b, s0, fs, es, r)
  {
    hide Awaits, AcDecisions, AcRun, AcMagnitude, Coef;
    var st := AcBin(tbl, 3 * (k - 1));
    ghost var v := Coef(b, k);
    CoefBound(b, k);
    ghost var q := Decision(st + 1, if v == 0 then 0 else 1);
    ghost var more := AcRun(tbl, kx, b, k + 1) + es;
    if v == 0 {
      AcZero(tbl, kx, b, k);
      Assoc([q], AcRun(tbl, kx, b, k + 1), es);
    } else {
      AcValue(tbl, kx, b, k);
      var sign := Decision(FIXED_BIN, if v < 0 then 1 else 0);
      var ms := AcMagnitude(Abs(v) - 1, st + 2, AcBin(tbl, if k <= kx then 189 else 217));
      var later := ms + AcDecisions(tbl, kx, b, k + 1);
      Assoc([q, sign], later, es);
      assert [q, sign] == [q] + [sign];
      Assoc([q], [sign], later + es);
      more := [sign] + (later + es);
    }
    r := Get(d, st + 1, s0, fs, q, more);
  }

  /** The AC coefficients before k are decoded, the others still zero. */
  ghost predicate DecodedTo(coefs: seq<int>, b: block, k: nat) {
    |coefs| == DCTSIZE2
    && forall j {:trigger Coef(b, j)} :: 1 <= j < DCTSIZE2 ==> coefs[NaturalOrder(j)] == if j < k then Coef(b, j) else 0
  }

  /** Figure F.20: the AC coefficients of a block that starts out zeroed. */
  method DecodeAc(d: Decoder, tbl: table, kx: nat, out: array<int>, ghost b: block,
                  ghost s0: Coder, ghost ds: seq<Decision>, ghost es: seq<Decision>)
    returns (ok: bool)
    requires Live(d) && out.Length == DCTSIZE2 && (out as object) != d.bins
    modifies d`c, d`a, d`ct, d`input, d`unread, d`k, d`low, d`n, d.bins, out
    ensures ok ==> Live(d)
    ensures old(Awaits(d, s0, ds, AcDecisions(tbl, kx, b, 1) + es) && DecodedTo(out[..], b, 1)) ==>
      && ok && Awaits(d, s0, ds + AcDecisions(tbl, kx, b, 1), es)
      && DecodedTo(out[..], b, DCTSIZE2) && out[0] == old(out[0])
  {
    hide Awaits, AcDecisions, AcRun, Coef, NaturalOrder, ZigZagIndex;
    ghost var good := Awaits(d, s0, ds, AcDecisions(tbl, kx, b, 1) + es) && DecodedTo(out[..], b, 1);
    ghost var total := ds + AcDecisions(tbl, kx, b, 1);
    ghost var fs := ds;
    var k := 1;
    while k <= DCTSIZE2 - 1
      invariant Live(d) && 1 <= k <= DCTSIZE2
      invariant good ==> total == fs + AcDecisions(tbl, kx, b, k)
      invariant good ==> Awaits(d, s0, fs, AcDecisions(tbl, kx, b, k) + es)
      invariant good ==> DecodedTo(out[..], b, k) && out[0] == old(out[0])
    {
      var st := AcBin(tbl, 3 * (k - 1));
      ghost var last := forall j :: k <= j < DCTSIZE2 ==> Coef(b, j) == 0;
      ghost var q := Decision(st, if last then 1 else 0);
      AcNext(tbl, kx, b, k);
      if good && !last {
        Assoc([q], AcRun(tbl, kx, b, k), es);
        Assoc(fs, [q], AcRun(tbl, kx, b, k));
      }
      var eob := Get(d, st, s0, fs, q, if last then es else AcRun(tbl, kx, b, k) + es);
      if eob.None? {
        return false;
      }
      if eob.value == 1 {
        return true;
      }
      var run;
      run, fs := DecodeAcRun(d, tbl, kx, k, b, s0, fs + [q], es);
      if run.None? {
        return false;
      }
      if good {
        StoreCoef(out[..], b, k, run.value.0, ToCoef(run.value.1));
      }
      out[NaturalOrder(run.value.0)] := ToCoef(run.value.1);
      k := run.value.0 + 1;
    }
    if good {
      AcEnd(tbl, kx, b, k);
      assert [] + es == es && fs + [] == fs;
    }
    return true;
  }

  lemma AcNext(tbl: table, kx: nat, b: block, k: nat)
    requires 1 <= k < DCTSIZE2
    ensures AcDecisions(tbl, kx, b, k) ==
      if forall j :: k <= j < DCTSIZE2 ==> Coef(b, j) == 0 then [Decision(AcBin(tbl, 3 * (k - 1)), 1)]
      else [Decision(AcBin(tbl, 3 * (k - 1)), 0)] + AcRun(tbl, kx, b, k)
  {
  }

  lemma StoreCoef(coefs: seq<int>, b: block, k: nat, k': nat, v: int)
    requires DecodedTo(coefs, b, k) && 1 <= k <= k' < DCTSIZE2
    requires v == ToCoef(Coef(b, k')) && forall j :: k <= j < k' ==> Coef(b, j) == 0
    ensures DecodedTo(coefs[NaturalOrder(k') := v], b, k' + 1)
    ensures NaturalOrder(k') != 0
  {
    hide Coef, ZigZagIndex;
    CoefBound(b, k');
    assert v == Coef(b, k');
    ZeroIsFirst();
    var t := coefs[NaturalOrder(k') := v];
    forall j: nat | 1 <= j < DCTSIZE2
      ensures t[NaturalOrder(j)] == if j < k' + 1 then Coef(b, j) else 0
    {
      assert ZigZagIndex(NaturalOrder(j)) == j && ZigZagIndex(NaturalOrder(k')) == k';
      assert coefs[NaturalOrder(j)] == if j < k then Coef(b, j) else 0;
    }
  }

  lemma ZeroIsFirst()
    ensures ZigZagIndex(0) == 0 && NaturalOrder(0) == 0
  {
  }

  /** A block whose DC and AC coefficients are all decoded is the block encoded. */
  lemma DecodedAll(coefs: seq<int>, b: block)
    requires DecodedTo(coefs, b, DCTSIZE2) && coefs[0] == b[0]
    ensures coefs == b
  {
    hide NaturalOrder, ZigZagIndex;
    ZeroIsFirst();
    forall n: nat | n < DCTSIZE2
      ensures coefs[n] == b[n]
    {
      var k := ZigZagIndex(n);
      NaturalOfZigZag(n);
      if k > 0 {
        assert Coef(b, k) == b[n];
      }
    }
  }
}
