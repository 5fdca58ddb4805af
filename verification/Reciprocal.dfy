/** Quantisation by multiplication in jcdctmgr.c: a divisor's reciprocal, correction and shift,
and why they divide exactly.

A DCTELEM has width bits, 16 with SIMD and 32 without; products have twice as many. */
module Reciprocal {

  import opened Arithmetic

  const DCTSIZE2: nat := 64

  function Pow2(n: nat): (p: nat)
    ensures p > 0
  {
    if n == 0 then 1 else 2 * Pow2(n - 1)
  }

  lemma {:induction false} Pow2Sum(a: nat, b: nat)
    ensures Pow2(a + b) == Pow2(a) * Pow2(b)
  {
    if a > 0 {
      Pow2Sum(a - 1, b);
      assert Pow2(a + b) == 2 * Pow2(a - 1 + b);
      assert 2 * (Pow2(a - 1) * Pow2(b)) == 2 * Pow2(a - 1) * Pow2(b);
    }
  }

  lemma {:induction false} Pow2Grows(a: nat, b: nat)
    ensures a < b <==> Pow2(a) < Pow2(b)
    decreases a + b
  {
    if a > 0 && b > 0 {
      Pow2Grows(a - 1, b - 1);
    } else if b > 0 {
      Pow2Grows(0, b - 1);
    } else if a > 0 {
      Pow2Grows(a - 1, 0);
    }
  }

  lemma Powers()
    ensures Pow2(8) == 256 && Pow2(15) == 32768 && Pow2(16) == 65536
    ensures Pow2(32) == 0x1_0000_0000 && Pow2(31) == 0x8000_0000
  {
    assert Pow2(4) == 16;
    assert Pow2(8) == 256;
    Pow2Sum(8, 8);
    Pow2Sum(16, 16);
    assert Pow2(16) == 2 * Pow2(15) && Pow2(32) == 2 * Pow2(31);
  }

  predicate Width(width: nat) {
    width == 16 || width == 32
  }

  /** A number stored in a signed element. */
  function Signed(n: int, width: nat): int {
    var m := n % Pow2(width);
    if 2 * m < Pow2(width) then m else m - Pow2(width)
  }

  /** The same element read as unsigned. */
  function Unsigned(s: int, width: nat): int {
    if s < 0 then s + Pow2(width) else s
  }

  lemma SignedThere(n: nat, width: nat)
    requires n < Pow2(width)
    ensures Unsigned(Signed(n, width), width) == n
    ensures 2 * n < Pow2(width) ==> Signed(n, width) == n
  {
    Small(n, Pow2(width));
  }

  /** flss: the number of significant bits, by binary search. */
  method Flss(val: nat) returns (bit: nat)
    requires val < 65536
    ensures bit <= 16 && val < Pow2(bit) && (val > 0 ==> bit > 0 && Pow2(bit - 1) <= val)
  {
    hide Pow2, Shifted;
    Powers();
    ZeroBits();
    bit := 16;
    if val == 0 {
      return 0;
    }
    var v := val;
    ShiftedStart(val);
    v, bit := SearchStep(v, bit, 8, val);
    v, bit := SearchStep(v, bit, 4, val);
    v, bit := SearchStep(v, bit, 2, val);
    v, bit := SearchStep(v, bit, 1, val);
    ShiftedUp(val, v, bit);
  }

  /** If the top n bits of v are clear, shift it by n. */
  method SearchStep(v: nat, bit: nat, n: nat, ghost val: nat) returns (w: nat, left: nat)
    requires n <= 8 && n <= bit && Shifted(val, v, bit) && Pow2(16 - 2 * n) <= v < Pow2(16)
    ensures Shifted(val, w, left) && Pow2(16 - n) <= w < Pow2(16) && bit - n <= left <= bit
  {
    hide Pow2, Shifted;
    Clear(v, Pow2(16 - n));
    StepFits(v, n);
    ShiftedMore(val, v, bit, n);
    if v / Pow2(16 - n) == 0 {
      w, left := v * Pow2(n) % Pow2(16), bit - n;
    } else {
      w, left := v, bit;
    }
  }

  lemma StepFits(v: nat, n: nat)
    requires n <= 8 && Pow2(16 - 2 * n) <= v
    ensures v < Pow2(16 - n) ==> Pow2(16 - n) <= v * Pow2(n) < Pow2(16) && v * Pow2(n) % Pow2(16) == v * Pow2(n)
  {
    hide Pow2;
    if v < Pow2(16 - n) {
      Pow2Sum(16 - n, n);
      Pow2Sum(16 - 2 * n, n);
      Between(v, Pow2(16 - 2 * n), Pow2(16 - n), Pow2(n));
      Small(v * Pow2(n), Pow2(16));
    }
  }

  lemma Between(v: nat, a: nat, b: nat, k: nat)
    requires a <= v < b && k > 0
    ensures a * k <= v * k < b * k
  {
    Larger(a, v, k);
    Larger(v, b, k);
  }

  lemma Clear(v: nat, p: nat)
    requires p > 0
    ensures v / p == 0 <==> v < p
  {
    if v < p {
      Small(v, p);
    }
  }

  /** v is val shifted left by 16 - bit. */
  ghost predicate Shifted(val: nat, v: nat, bit: nat) {
    v * Pow2(bit) == val * 65536
  }

  lemma ShiftedStart(val: nat)
    ensures Shifted(val, val, 16)
  {
    Powers();
  }

  lemma ShiftedMore(val: nat, v: nat, bit: nat, n: nat)
    requires n <= bit && Shifted(val, v, bit)
    ensures Shifted(val, v * Pow2(n), bit - n)
  {
    hide Pow2;
    Pow2Sum(n, bit - n);
    assert v * (Pow2(n) * Pow2(bit - n)) == (v * Pow2(n)) * Pow2(bit - n);
  }

  lemma ShiftedUp(val: nat, v: nat, bit: nat)
    requires Shifted(val, v, bit) && 32768 <= v < 65536 && val > 0
    ensures bit > 0 && Pow2(bit - 1) <= val < Pow2(bit)
  {
    var p := Pow2(bit);
    Larger(v, 65536, p);
    Larger(32768, v, p);
    assert val < p <= 2 * val;
  }

  lemma Larger(a: nat, b: nat, k: nat)
    ensures a <= b ==> a * k <= b * k
    ensures a < b && k > 0 ==> a * k < b * k
  {
    if a <= b {
      assert b * k == a * k + (b - a) * k;
    }
  }

  lemma ZeroBits()
    ensures Pow2(0) == 1 && Pow2(12) == 4096 && Pow2(14) == 16384
  {
  }

  /** Division with rounding, as the code for other sample depths does it. */
  function Rounded(x: int, d: nat): int
    requires d > 0
  {
    if x < 0 then -((-x + d / 2) / d) else (x + d / 2) / d
  }

  /** Rounding is to the nearest multiple of the divisor, halves away from zero, and makes
  nothing larger. */
  lemma RoundedNearest(x: int, d: nat)
    requires d > 0
    ensures var r := Rounded(x, d);
      && -(d as int) <= 2 * (x - r * d) <= d
      && (2 * (x - r * d) == d ==> x < 0) && (2 * (x - r * d) == -(d as int) ==> x >= 0)
    ensures x >= 0 ==> 0 <= Rounded(x, d) <= x
    ensures x <= 0 ==> x <= Rounded(x, d) <= 0
  {
    var y: nat := if x < 0 then -x else x;
    var q := (y + d / 2) / d;
    Divided(y + d / 2, d);
    assert Times(q, d) == q * d;
    TimesNext(y, d);
    assert Times(y, d) >= y by {
      Multiple(d, y);
    }
    if q > y {
      TimesMonotone(y + 1, q, d);
    }
    assert (-q) * d == -(q * d);
  }

  /** What makes a reciprocal, a correction and a shift by r right for a divisor: the reciprocal
  is off by at most e / d, and a correction makes up for rounding it down. */
  ghost predicate Fitting(d: nat, width: nat, recip: nat, corr: nat, r: nat, e: nat) {
    && 0 < d && recip < Pow2(width) && e * Pow2(width) <= Pow2(r)
    && ((e == 0 && recip * d == Pow2(r) && corr == d / 2)
        || (0 < e && recip * d == Pow2(r) - e && corr == d / 2 + 1)
        || (0 < e && recip * d == Pow2(r) + e && corr == d / 2))
  }

  /** The product shifted down is the quotient. */
  lemma Exact(d: nat, width: nat, recip: nat, corr: nat, r: nat, e: nat, x: nat)
    requires Fitting(d, width, recip, corr, r, e) && x + d / 2 + 1 <= Pow2(width)
    ensures (x + corr) * recip / Pow2(r) == (x + d / 2) / d
    ensures (x + corr) * recip < Pow2(2 * width)
  {
    var p, half, w := Pow2(r), d / 2, Pow2(width);
    hide Pow2, Times;
    Divided(x + half, d);
    Product((x + half) / d, d);
    ExactProduct(d, x + half, (x + half) / d, x + corr, recip, p, e, w);
    Pow2Sum(width, width);
  }

  lemma ExactProduct(d: nat, y: nat, q: nat, z: nat, recip: nat, p: nat, e: nat, w: nat)
    requires 0 < d && 0 < p && q * d <= y < q * d + d && y < w && recip < w && e * w <= p
    requires (e == 0 && recip * d == p && z == y) || (0 < e && recip * d == p - e && z == y + 1) || (0 < e && recip * d == p + e && z == y)
    ensures z * recip / p == q && z * recip < w * w
  {
    if e == 0 {
      Even(z * recip, d, q, p, y, recip);
    } else if z == y {
      RoundedUpwards(z * recip, d, q, p, y, e, recip, w);
    } else {
      RoundedDownwards(z * recip, d, q, p, y, e, recip, w);
    }
    Within(z * recip, p, q);
    ProductFits(z, recip, w);
  }

  lemma Within(n: nat, p: nat, q: nat)
    requires p > 0 && q * p <= n < q * p + p
    ensures n / p == q
  {
    DivUnique(n, p, q, n - q * p);
  }

  lemma Minus(z: nat, recip: nat, d: nat, p: nat, e: nat)
    requires recip * d == p - e
    ensures z * recip * d == z * p - z * e
  {
    assert z * recip * d == z * (p - e);
  }

  lemma Product(q: nat, d: nat)
    ensures Times(q, d) == q * d
  {
  }

  lemma ProductFits(z: nat, recip: nat, w: nat)
    requires z <= w && recip < w
    ensures z * recip < w * w
  {
    Larger(z, w, recip);
    Larger(recip, w, w);
  }

  lemma Even(n: nat, d: nat, q: nat, p: nat, y: nat, recip: nat)
    requires 0 < d && q * d <= y < q * d + d && p > 0 && recip * d == p && n == y * recip
    ensures q * p <= n < q * p + p
  {
    assert n * d == y * p;
    Larger(q * d, y, p);
    Larger(y, q * d + d, p);
    Cancel(n, d, q * p, p, q);
  }

  lemma RoundedUpwards(n: nat, d: nat, q: nat, p: nat, y: nat, e: nat, recip: nat, w: nat)
    requires 0 < d && q * d <= y < q * d + d && p > 0 && recip * d == p + e && n == y * recip
    requires 0 < e && e * w <= p && y < w
    ensures q * p <= n < q * p + p
  {
    assert n * d == y * (recip * d) == y * p + y * e;
    ErrorSmall(e, y, w, p);
    Larger(q * d, y, p);
    Larger(y + 1, q * d + d, p);
    Cancel(n, d, q * p, p, q);
  }

  lemma RoundedDownwards(n: nat, d: nat, q: nat, p: nat, y: nat, e: nat, recip: nat, w: nat)
    requires 0 < d && q * d <= y < q * d + d && p > 0 && recip * d == p - e && n == (y + 1) * recip
    requires 0 < e && e * w <= p && y < w
    ensures q * p <= n < q * p + p
  {
    var z := y + 1;
    Minus(z, recip, d, p, e);
    ErrorSmall(e, z, w, p);
    Multiple(z, e);
    DownBounds(q * d, z, d, p, z * e);
    Cancel(n, d, q * p, p, q);
  }

  lemma DownBounds(a: nat, z: nat, d: nat, p: nat, ze: nat)
    requires a < z <= a + d && 0 < ze <= p
    ensures a * p <= z * p - ze < (a + d) * p
  {
    Larger(a + 1, z, p);
    Larger(z, a + d, p);
  }

  lemma ErrorSmall(e: nat, z: nat, w: nat, p: nat)
    requires z <= w && e * w <= p
    ensures z * e <= p && (z < w && e > 0 ==> z * e < p)
  {
    Larger(z, w, e);
  }

  lemma Cancel(n: nat, d: nat, low: nat, p: nat, q: nat)
    requires d > 0 && low == q * p && (q * d) * p <= n * d < (q * d + d) * p
    ensures low <= n < low + p
  {
    assert (q * d) * p == low * d && (q * d + d) * p == (low + p) * d;
    if n < low {
      Larger(n, low, d);
    }
    if low + p <= n {
      Larger(low + p, n, d);
    }
  }

  /** The factors of a power of two are powers of two. */
  lemma {:induction false} FactorOfPower(d: nat, k: nat, n: nat) returns (j: nat)
    requires d * k == Pow2(n)
    ensures d == Pow2(j) && j <= n
    decreases n
  {
    if n == 0 {
      Multiple(d, k);
      Multiple(k, d);
      j := 0;
    } else {
      OddProduct(d, k);
      if d % 2 == 0 {
        Half(d, k);
        j := FactorOfPower(d / 2, k, n - 1);
        j := j + 1;
      } else {
        Half(k, d);
        j := FactorOfPower(d, k / 2, n - 1);
      }
    }
  }

  lemma Half(d: nat, k: nat)
    requires d % 2 == 0
    ensures d * k == 2 * (d / 2 * k)
  {
    assert d == 2 * (d / 2);
  }

  lemma OddProduct(d: nat, k: nat)
    ensures d % 2 == 1 && k % 2 == 1 ==> d * k % 2 == 1
  {
    if d % 2 == 1 && k % 2 == 1 {
      var i, j := d / 2, k / 2;
      assert d * k == 2 * (2 * i * j + i + j) + 1;
    }
  }

  /** The numbers compute_reciprocal works out. */
  method Reckon(divisor: nat, width: nat) returns (recip: nat, corr: nat, r: nat, ghost e: nat)
    requires 1 < divisor < 65536 && Width(width)
    ensures Fitting(divisor, width, recip, corr, r, e) && width <= r <= width + 15 && corr <= 32768
    ensures r > 16 <==> divisor > (if width == 16 then 2 else 1)
  {
    hide Pow2, Fitting;
    var bits := Flss(divisor);
    TopBit(divisor, bits);
    var b := bits - 1;
    r := width + b;
    var fq := Pow2(r) / divisor;
    var fr := Pow2(r) % divisor;
    corr := divisor / 2;
    PowerSplits(divisor, width, b, fq, fr);
    if fr == 0 {
      EvenlyDivided(divisor, width, b, fq);
      fq := fq / 2;
      r := r - 1;
      e := 0;
    } else if fr <= divisor / 2 {
      corr := corr + 1;
      e := fr;
    } else {
      fq := fq + 1;
      e := divisor - fr;
    }
    recip := fq;
  }

  lemma TopBit(d: nat, bits: nat)
    requires 1 < d < 65536 && bits > 0 && Pow2(bits - 1) <= d < Pow2(bits)
    ensures 2 <= bits <= 16 && (bits == 2 <==> d < 4) && (bits == 2 ==> Pow2(bits - 1) == 2) && Pow2(bits) == 2 * Pow2(bits - 1)
  {
    Powers();
    assert Pow2(1) == 2 && Pow2(2) == 4;
    Pow2Grows(bits - 1, 16);
    Pow2Grows(1, bits);
    Pow2Grows(2, bits);
    Pow2Grows(bits - 1, 2);
  }

  lemma PowerSplits(d: nat, width: nat, b: nat, fq: nat, fr: nat)
    requires 1 < d < 65536 && Width(width) && Pow2(b) <= d < 2 * Pow2(b)
    requires fq == Pow2(width + b) / d && fr == Pow2(width + b) % d
    ensures 0 < fr <= d / 2 ==> Fitting(d, width, fq, d / 2 + 1, width + b, fr)
    ensures fr > d / 2 ==> Fitting(d, width, fq + 1, d / 2, width + b, d - fr)
    ensures fq <= Pow2(width) && fq * d + fr == Pow2(width + b)
    ensures fr > 0 ==> d != Pow2(b)
  {
    var p, w := Pow2(width + b), Pow2(width);
    Powers();
    hide Pow2;
    Pow2Sum(width, b);
    Divided(p, d);
    Product(fq, d);
    ReciprocalFits(d, fq, fr, w, Pow2(b), p);
  }

  lemma ReciprocalFits(d: nat, fq: nat, fr: nat, w: nat, u: nat, p: nat)
    requires 1 < d < 65536 && u <= d < 2 * u && p == w * u && fq * d + fr == p && fr < d && w >= 65536
    ensures fq <= w && (fr > 0 ==> fq < w && d != u)
    ensures fr <= d / 2 ==> fr * w <= p
    ensures fr > d / 2 ==> fq + 1 < w && (d - fr) * w <= p && (fq + 1) * d == p + (d - fr)
  {
    Larger(u, d, w);
    assert d * w >= p;
    Larger(w, fq, d);
    if d == u {
      if fq < w {
        Larger(fq + 1, w, d);
      }
    }
    Larger(fr, u, w);
    Larger(d - fr, u, w);
    if fr > d / 2 && fq + 1 >= w && d > u {
      Larger(w, fq + 1, d);
      Larger(u + 1, d, w);
    }
  }

  lemma EvenlyDivided(d: nat, width: nat, b: nat, fq: nat)
    requires 1 < d < 65536 && Width(width) && fq * d == Pow2(width + b) && fq <= Pow2(width) && Pow2(b) <= d < 2 * Pow2(b)
    ensures Fitting(d, width, fq / 2, d / 2, width + b - 1, 0) && d == Pow2(b)
  {
    var n := width + b;
    var j := FactorOfPower(d, fq, n);
    PowerBetween(j, b);
    EvenQuotient(d, fq, n);
    hide Pow2;
    ZeroBits();
    Half(fq, d);
    PowerNext(n - 1);
    assert 0 * Pow2(width) == 0;
  }

  lemma PowerBetween(j: nat, b: nat)
    requires Pow2(b) <= Pow2(j) < 2 * Pow2(b)
    ensures j == b
  {
    Pow2Grows(j, b);
    Pow2Grows(j, b + 1);
    PowerNext(b);
  }

  lemma EvenQuotient(d: nat, fq: nat, n: nat)
    requires 1 < d < 65536 && fq * d == Pow2(n) && n >= 16
    ensures fq % 2 == 0
  {
    var i := FactorOfPower(fq, d, n);
    ZeroBits();
    Powers();
    Pow2Grows(n, 16);
    hide Pow2;
    if i > 0 {
      PowerNext(i - 1);
    }
  }

  lemma PowerNext(n: nat)
    ensures Pow2(n + 1) == 2 * Pow2(n)
  {
  }

  /** The table entries for coefficient i serve divisor d. */
  ghost predicate Serves(t: seq<int>, i: nat, d: nat, width: nat)
    requires |t| == 4 * DCTSIZE2 && i < DCTSIZE2
  {
    var recip, corr, r := Unsigned(t[i], width), Unsigned(t[i + DCTSIZE2], width), t[i + 3 * DCTSIZE2] + width;
    0 <= recip && 0 <= corr <= 32768 && 0 <= r <= width + 15 && 0 < d < 65536 && FitsSome(d, width, recip, corr, r)
  }

  ghost predicate FitsSome(d: nat, width: nat, recip: nat, corr: nat, r: nat) {
    exists e: nat :: Fitting(d, width, recip, corr, r, e)
  }

  /** The upper half of a 32-bit product, as SIMD instructions give it. */
  function High(n: nat): nat {
    n % Pow2(32) / Pow2(16)
  }

  /** Without shifts by a variable amount: the upper half of the product, times the scale, upper
  half again, is the rounded quotient. */
  ghost predicate ServesHalves(t: seq<int>, i: nat, d: nat)
    requires |t| == 4 * DCTSIZE2 && i < DCTSIZE2
  {
    && 0 < d && 0 <= Unsigned(t[i], 16) && 0 <= Unsigned(t[i + DCTSIZE2], 16) && 0 <= Unsigned(t[i + 2 * DCTSIZE2], 16)
    && AllHalvesDivide(Unsigned(t[i], 16), Unsigned(t[i + DCTSIZE2], 16), Unsigned(t[i + 2 * DCTSIZE2], 16), d)
  }

  ghost predicate AllHalvesDivide(recip: nat, corr: nat, scale: nat, d: nat)
    requires 0 < d
  {
    forall y: nat :: HalvesDivide(y, recip, corr, scale, d)
  }

  predicate HalvesDivide(y: nat, recip: nat, corr: nat, scale: nat, d: nat)
    requires 0 < d
  {
    y <= 32767 ==> HalvesOf(y, recip, corr, scale) == (y + d / 2) / d
  }

  function HalvesOf(y: nat, recip: nat, corr: nat, scale: nat): nat {
    High(High((y + corr) * recip) * scale)
  }

  lemma TwoSteps(q: nat, b: nat, l: nat, a: nat, k: nat)
    requires l < b && k < a
    ensures (q * b + l) * a + k == q * (a * b) + (l * a + k) && l * a + k < a * b && a * b > 0
  {
    Larger(l + 1, b, a);
    assert (l + 1) * a == l * a + a;
  }

  lemma DivTwice(n: nat, a: nat, b: nat)
    requires a > 0 && b > 0
    ensures a * b > 0 && n / a / b == n / (a * b)
  {
    var u := n / a;
    var q := u / b;
    var k, l := n % a, u % b;
    TwoSteps(q, b, l, a, k);
    Divided(n, a);
    Divided(u, b);
    assert n == (q * b + l) * a + k;
    DivUnique(n, a * b, q, l * a + k);
  }

  lemma DivCancel(u: nat, a: nat, b: nat)
    requires a > 0 && b > 0
    ensures a * b > 0 && u * a / (a * b) == u / b
  {
    DivUnique(u * a, a, u, 0);
    DivTwice(u * a, a, b);
  }

  /** Two upper halves with a scale of 2^(32 - r) between shift down by r. */
  lemma HalvesShift(n: nat, r: nat)
    requires 16 < r <= 31 && n < Pow2(32)
    ensures High(High(n) * Pow2(32 - r)) == n / Pow2(r)
  {
    var a, b, w := Pow2(32 - r), Pow2(r - 16), Pow2(16);
    Powers();
    Pow2Sum(32 - r, r - 16);
    Pow2Sum(16, r - 16);
    Pow2Grows(32 - r, 16);
    hide Pow2;
    Small(n, Pow2(32));
    var u := n / w;
    HalfBound(n, w);
    Larger(u, w, a);
    Larger(a, w, w);
    Small(u * a, Pow2(32));
    DivCancel(u, a, b);
    DivTwice(n, w, b);
  }

  lemma HalfBound(n: nat, w: nat)
    requires w == 65536 && n < 0x1_0000_0000
    ensures n / w < w
  {
  }

  lemma HalvesExact(d: nat, recip: nat, corr: nat, r: nat, e: nat, y: nat)
    requires Fitting(d, 16, recip, corr, r, e) && 16 < r <= 31 && corr <= 32768 && d < 65536 && y <= 32767
    ensures HalvesOf(y, recip, corr, Pow2(32 - r)) == (y + d / 2) / d
  {
    hide Pow2, Fitting, High;
    Powers();
    Half16(d);
    Exact(d, 16, recip, corr, r, e, y);
    HalvesShift((y + corr) * recip, r);
  }

  lemma ServesHalvesWith(t: seq<int>, i: nat, d: nat, recip: nat, corr: nat, r: nat, e: nat)
    requires |t| == 4 * DCTSIZE2 && i < DCTSIZE2 && Fitting(d, 16, recip, corr, r, e) && 16 < r <= 31 && corr <= 32768 && 0 < d < 65536
    requires Unsigned(t[i], 16) == recip && Unsigned(t[i + DCTSIZE2], 16) == corr
    requires t[i + 2 * DCTSIZE2] == Signed(Pow2(32 - r), 16)
    ensures ServesHalves(t, i, d)
  {
    hide Fitting, HalvesOf;
    Pow2Grows(32 - r, 16);
    SignedThere(Pow2(32 - r), 16);
    var scale := Pow2(32 - r);
    forall y: nat
      ensures HalvesDivide(y, recip, corr, scale, d)
    {
      if y <= 32767 {
        HalvesExact(d, recip, corr, r, e, y);
      }
    }
  }

  /** compute_reciprocal: fill in the entries of a divisor; the result says whether the upper
  halves of products, which is what SIMD instructions give, suffice. */
  method ComputeReciprocal(divisor: nat, width: nat, dtbl: array<int>, i: nat) returns (upper: bool)
    requires 0 < divisor < 65536 && Width(width) && dtbl.Length == 4 * DCTSIZE2 && i < DCTSIZE2
    modifies dtbl
    ensures Serves(dtbl[..], i, divisor, width)
    ensures forall j :: 0 <= j < dtbl.Length && j % DCTSIZE2 != i ==> dtbl[j] == old(dtbl[j])
    ensures upper <==> divisor > (if width == 16 then 2 else 1)
    ensures if width == 16 then upper ==> ServesHalves(dtbl[..], i, divisor) else dtbl[i + 2 * DCTSIZE2] == 1
  {
    hide Pow2, Fitting, Signed, Unsigned, HalvesOf, Serves, ServesHalves;
    if divisor == 1 {
      dtbl[i], dtbl[i + DCTSIZE2], dtbl[i + 2 * DCTSIZE2], dtbl[i + 3 * DCTSIZE2] := 1, 0, 1, -(width as int);
      Identity(width);
      ServesWith(dtbl[..], i, divisor, width, 1, 0, 0, 0);
      return false;
    }
    var recip, corr, r;
    ghost var e;
    recip, corr, r, e := Reckon(divisor, width);
    dtbl[i] := Signed(recip, width);
    dtbl[i + DCTSIZE2] := Signed(corr, width);
    dtbl[i + 2 * DCTSIZE2] := if width == 16 then Signed(Pow2(2 * width - r), width) else 1;
    dtbl[i + 3 * DCTSIZE2] := r - width;
    Powers();
    StoredThere(divisor, width, recip, corr, r, e);
    ServesWith(dtbl[..], i, divisor, width, recip, corr, r, e);
    if width == 16 && r > 16 {
      ServesHalvesWith(dtbl[..], i, divisor, recip, corr, r, e);
    }
    upper := r > 16;
  }

  lemma ServesWith(t: seq<int>, i: nat, d: nat, width: nat, recip: nat, corr: nat, r: nat, e: nat)
    requires |t| == 4 * DCTSIZE2 && i < DCTSIZE2 && r <= width + 15 && 0 < d < 65536 && corr <= 32768
    requires Unsigned(t[i], width) == recip && Unsigned(t[i + DCTSIZE2], width) == corr && t[i + 3 * DCTSIZE2] + width == r
    requires Fitting(d, width, recip, corr, r, e)
    ensures Serves(t, i, d, width)
  {
    hide Fitting, Unsigned;
    assert FitsSome(d, width, recip, corr, r);
  }

  lemma Identity(width: nat)
    requires Width(width)
    ensures Unsigned(1, width) == 1 && Unsigned(0, width) == 0 && Fitting(1, width, 1, 0, 0, 0)
  {
    Powers();
    ZeroBits();
    hide Pow2;
    assert 0 * Pow2(width) == 0;
  }

  lemma StoredThere(d: nat, width: nat, recip: nat, corr: nat, r: nat, e: nat)
    requires Width(width) && Fitting(d, width, recip, corr, r, e) && corr <= 32768
    ensures Unsigned(Signed(recip, width), width) == recip && Unsigned(Signed(corr, width), width) == corr
  {
    Powers();
    SignedThere(recip, width);
    SignedThere(corr, width);
  }

  /** One pass of quantize's loop: negate, multiply, shift and negate back, at the source's
  widths. */
  function QuantizeOne(x: int, recip: int, corr: int, shift: int, width: nat): int
    requires 0 <= shift + width
  {
    var temp := if x < 0 then Signed(-x, width) else x;
    var down := Signed(Upper(temp, recip, corr, shift + width, width), width);
    Signed(if x < 0 then Signed(-down, width) else down, 16)
  }

  /** The product of the corrected value and the reciprocal, shifted down. */
  function Upper(temp: int, recip: int, corr: int, r: nat, width: nat): int {
    ((temp + corr) % Pow2(32)) * recip % Pow2(2 * width) / Pow2(r)
  }

  /** With the divisor's entries this is the rounded quotient. */
  lemma QuantizeExact(t: seq<int>, i: nat, d: nat, width: nat, x: int)
    requires Width(width) && |t| == 4 * DCTSIZE2 && i < DCTSIZE2 && Serves(t, i, d, width) && -32767 <= x <= 32767
    ensures QuantizeOne(x, Unsigned(t[i], width), Unsigned(t[i + DCTSIZE2], width), t[i + 3 * DCTSIZE2], width) == Rounded(x, d)
  {
    var recip: nat, corr: nat, r: nat := Unsigned(t[i], width), Unsigned(t[i + DCTSIZE2], width), t[i + 3 * DCTSIZE2] + width;
    var e: nat :| Fitting(d, width, recip, corr, r, e);
    hide Fitting, Unsigned, QuantizeOne, Rounded;
    OneExact(x, recip, corr, r, d, e, width);
  }

  lemma OneExact(x: int, recip: nat, corr: nat, r: nat, d: nat, e: nat, width: nat)
    requires Width(width) && -32767 <= x <= 32767 && corr <= 32768 && 0 < d < 65536
    requires Fitting(d, width, recip, corr, r, e)
    ensures QuantizeOne(x, recip, corr, r - width, width) == Rounded(x, d)
  {
    var y: nat := if x < 0 then -x else x;
    hide Pow2, Fitting, Signed, Upper;
    SmallSigned(y, width);
    MagnitudeExact(y, recip, corr, r, d, e, width);
    var q := (y + d / 2) / d;
    SmallSigned(q, width);
    SmallSigned(q, 16);
  }

  lemma MagnitudeExact(y: nat, recip: nat, corr: nat, r: nat, d: nat, e: nat, width: nat)
    requires Width(width) && y <= 32767 && corr <= 32768 && 0 < d < 65536
    requires Fitting(d, width, recip, corr, r, e)
    ensures Upper(y, recip, corr, r, width) == (y + d / 2) / d
    ensures 0 <= (y + d / 2) / d <= y
  {
    hide Pow2, Fitting;
    Powers();
    Half16(d);
    Exact(d, width, recip, corr, r, e, y);
    RoundedNearest(y, d);
    Small(y + corr, Pow2(32));
    Small((y + corr) * recip, Pow2(2 * width));
  }

  lemma Half16(d: nat)
    requires d < 65536
    ensures d / 2 <= 32767
  {
  }

  lemma SmallSigned(n: int, width: nat)
    requires Width(width) && 0 <= n <= 32767
    ensures Signed(n, width) == n && Signed(-n, width) == -n
  {
    Powers();
    Small(n, Pow2(width));
    if n > 0 {
      DivUnique(Pow2(width) - n, Pow2(width), 0, Pow2(width) - n);
      NegMod(n, Pow2(width));
    }
  }

  lemma NegMod(n: int, p: int)
    requires 0 < n < p
    ensures (-n) % p == p - n
  {
    var q := (-n) / p;
    assert -n == q * p + (-n) % p;
    Multiple(q, p);
    Multiple(q + 1, p);
  }

  /** quantize: every coefficient divided and rounded exactly. */
  method Quantize(coefBlock: array<int>, divisors: array<int>, workspace: array<int>, width: nat, ghost ds: seq<nat>)
    requires coefBlock.Length == workspace.Length == |ds| == DCTSIZE2 && divisors.Length == 4 * DCTSIZE2
    requires coefBlock != workspace && coefBlock != divisors && Width(width)
    requires forall i :: 0 <= i < DCTSIZE2 ==> Serves(divisors[..], i, ds[i], width)
    requires forall i :: 0 <= i < DCTSIZE2 ==> -32767 <= workspace[i] <= 32767
    modifies coefBlock
    ensures forall i :: 0 <= i < DCTSIZE2 ==> ds[i] > 0 && coefBlock[i] == Rounded(workspace[i], ds[i])
  {
    hide Pow2, Fitting, Unsigned, Signed, QuantizeOne, Rounded;
    for i := 0 to DCTSIZE2
      invariant forall j :: 0 <= j < i ==> ds[j] > 0 && coefBlock[j] == Rounded(workspace[j], ds[j])
    {
      assert Serves(divisors[..], i, ds[i], width);
      QuantizeExact(divisors[..], i, ds[i], width, workspace[i]);
      coefBlock[i] := QuantizeOne(workspace[i], Unsigned(divisors[i], width), Unsigned(divisors[i + DCTSIZE2], width),
        divisors[i + 3 * DCTSIZE2], width);
    }
  }
}
