/** Decoding an AC refinement scan undoes encoding it: coefficients known down to bit al + 1
become known down to bit al. */
module RefineRoundTrip {

  import opened Wrappers
  import opened CodeString
  import opened PrefixCode
  import opened CodedItems
  import opened ZigZag
  import opened Coefficients
  import opened RefineSpec
  import opened RefineEncoding
  import CanonicalCode

  /** Correction bits of the coefficients i to k - 1, and how many of these are zero. */
  ghost function Corr(v: seq<int>, al: nat, i: nat, k: nat): seq<bit>
    requires |v| == DCTSIZE2 && i <= k <= DCTSIZE2
    decreases k
  {
    if k == i then []
    else if Mag(v[k - 1], al) > 1 then Corr(v, al, i, k - 1) + [Mag(v[k - 1], al) % 2]
    else Corr(v, al, i, k - 1)
  }

  ghost function ZeroCount(v: seq<int>, al: nat, i: nat, k: nat): nat
    requires |v| == DCTSIZE2 && i <= k <= DCTSIZE2
    decreases k
  {
    if k == i then 0 else ZeroCount(v, al, i, k - 1) + if Mag(v[k - 1], al) == 0 then 1 else 0
  }

  ghost predicate Quiet(v: seq<int>, al: nat, i: nat, k: nat)
    requires |v| == DCTSIZE2 && i <= k <= DCTSIZE2
  {
    forall j :: i <= j < k ==> Mag(v[j], al) != 1
  }

  lemma {:induction false} CorrHead(v: seq<int>, al: nat, i: nat, k: nat)
    requires |v| == DCTSIZE2 && i < k <= DCTSIZE2
    ensures Corr(v, al, i, k) == (if Mag(v[i], al) > 1 then [Mag(v[i], al) % 2] else []) + Corr(v, al, i + 1, k)
    ensures ZeroCount(v, al, i, k) == (if Mag(v[i], al) == 0 then 1 else 0) + ZeroCount(v, al, i + 1, k)
    decreases k
  {
    hide Mag;
    if k > i + 1 {
      CorrHead(v, al, i, k - 1);
      Assoc(if Mag(v[i], al) > 1 then [Mag(v[i], al) % 2] else [], Corr(v, al, i + 1, k - 1),
        if Mag(v[k - 1], al) > 1 then [Mag(v[k - 1], al) % 2] else []);
    }
  }

  /** Positions are zeros or corrected coefficients. */
  lemma {:induction false} CountAll(v: seq<int>, al: nat, i: nat, k: nat)
    requires |v| == DCTSIZE2 && i <= k <= DCTSIZE2 && Quiet(v, al, i, k)
    ensures |Corr(v, al, i, k)| + ZeroCount(v, al, i, k) == k - i
    decreases k
  {
    hide Mag;
    if k > i {
      CountAll(v, al, i, k - 1);
    }
  }

  lemma {:induction false} ZerosOnly(v: seq<int>, al: nat, i: nat, k: nat)
    requires |v| == DCTSIZE2 && i <= k <= DCTSIZE2 && forall j :: i <= j < k ==> Mag(v[j], al) == 0
    ensures Corr(v, al, i, k) == [] && ZeroCount(v, al, i, k) == k - i
    decreases k
  {
    hide Mag;
    if k > i {
      ZerosOnly(v, al, i, k - 1);
    }
  }

  lemma {:induction false} CorrSplit(v: seq<int>, al: nat, i: nat, m: nat, k: nat)
    requires |v| == DCTSIZE2 && i <= m <= k <= DCTSIZE2
    ensures Corr(v, al, i, k) == Corr(v, al, i, m) + Corr(v, al, m, k)
    ensures ZeroCount(v, al, i, k) == ZeroCount(v, al, i, m) + ZeroCount(v, al, m, k)
    decreases k
  {
    hide Mag;
    if k > m {
      CorrSplit(v, al, i, m, k - 1);
    }
  }

  /** v is to be refined to bit al, c is what is known of it, and goal is what should be. */
  ghost predicate Known(v: seq<int>, c: seq<int>, fix: seq<int>, goal: seq<int>, al: nat, ss: nat, se: nat) {
    && |v| == |c| == |fix| == |goal| == DCTSIZE2 && ss <= se < DCTSIZE2
    && (forall j :: ss <= j <= se ==> c[j] == Trunc(v[j], al + 1) && goal[j] == Trunc(v[j], al))
    && (forall j :: ss <= j <= se ==> fix[j] == if Mag(v[j], al) > 1 then Trunc(v[j], al) else 0)
    && (forall j :: 0 <= j < DCTSIZE2 && !(ss <= j <= se) ==> c[j] == fix[j] == goal[j])
    && forall j :: 0 <= j < DCTSIZE2 ==> -32768 < v[j] < 32768
  }

  /** c corrected up to position k. */
  function Mixed(c: seq<int>, fix: seq<int>, k: nat): (m: seq<int>)
    requires |c| == |fix| == DCTSIZE2 && k <= DCTSIZE2
    ensures |m| == DCTSIZE2
  {
    fix[..k] + c[k..]
  }

  lemma {:induction false} MagHalf(x: int, al: nat)
    ensures Mag(x, al + 1) == Mag(x, al) / 2
  {
  }

  lemma {:induction false} ShlShrBound(x: nat, e: nat)
    ensures 0 <= Shl(Shr(x, e), e) <= x
    decreases e
  {
    if e > 0 {
      ShlShrBound(x, e - 1);
      ShlTwice(Shr(x, e), e - 1);
      ShlPlus(2 * Shr(x, e), Shr(x, e - 1) % 2, e - 1);
      CanonicalCode.ShlNat(Shr(x, e - 1) % 2, e - 1);
      CanonicalCode.ShlNat(Shr(x, e), e);
    }
  }

  lemma {:induction false} ShiftBounds(v: nat, al: nat)
    ensures Shl(Shr(v, al), al) <= v < Shl(Shr(v, al) + 1, al)
  {
    if al > 0 {
      ShiftBounds(v, al - 1);
      var q := Shr(v, al - 1);
      ShlTwice(q / 2, al - 1);
      ShlTwice(q / 2 + 1, al - 1);
      ShlMonotone(2 * (q / 2), q, al - 1);
      ShlMonotone(q + 1, 2 * (q / 2) + 2, al - 1);
    }
  }

  lemma {:induction false} NegatedShl(m: int, al: nat)
    ensures Shl(-m, al) == -Shl(m, al)
  {
    if al > 0 {
      NegatedShl(m, al - 1);
    }
  }

  lemma {:induction false} AShrOfShl(x: int, e: nat)
    ensures AShr(Shl(x, e), e) == x
    decreases e
  {
    if e > 0 {
      AShrOfShl(x, e - 1);
    }
  }

  lemma {:induction false} ShlNegate(x: int, e: nat)
    ensures Shl(-x, e) == -Shl(x, e)
  {
    if e > 0 {
      ShlNegate(x, e - 1);
    }
  }

  /** A coefficient is known to be nonzero exactly if its refined magnitude exceeds one; its
  correction bit is the lowest bit of that magnitude. */
  lemma Refinable(x: int, al: nat)
    requires -32768 < x < 32768
    ensures Trunc(x, al + 1) != 0 <==> Mag(x, al) > 1
    ensures Mag(x, al) > 1 ==>
      Trunc(x, al) == if Mag(x, al) % 2 == 1 then Correct(Trunc(x, al + 1), al) else Trunc(x, al + 1)
  {
    hide Shl, AShr, Mag, Short;
    var m := Mag(x, al);
    var p: int := m / 2;
    MagHalf(x, al);
    MagBound(x, al);
    CanonicalCode.ShlPositive(al + 1);
    CanonicalCode.ShlOfZero(al + 1);
    ShlMonotone(0, p, al + 1);
    ShlTwice(p, al);
    ShlPlus(2 * p, 1, al);
    AShrOfShl(2 * p, al);
    ShlNegate(2 * p, al);
    AShrOfShl(-2 * p, al);
    if m > 1 && m % 2 == 1 {
      ShortIs(Trunc(x, al));
    }
  }

  lemma MagBound(x: int, al: nat)
    ensures 0 <= Shl(Mag(x, al), al) <= Abs(x)
  {
    hide Shl, Shr;
    ShlShrBound(Abs(x), al);
  }

  lemma TouchMixed(v: seq<int>, c: seq<int>, fix: seq<int>, goal: seq<int>, al: nat, ss: nat, se: nat, k: nat)
    requires Known(v, c, fix, goal, al, ss, se) && ss <= k <= se
    ensures Mixed(c, fix, k)[k] != 0 <==> Mag(v[k], al) > 1
    ensures Mag(v[k], al) > 1 ==> Touch(Mixed(c, fix, k), k, al, Mag(v[k], al) % 2) == Mixed(c, fix, k + 1)
    ensures Mag(v[k], al) <= 1 ==> Mixed(c, fix, k + 1) == Mixed(c, fix, k)
  {
    hide Mag, Trunc, Correct;
    Refinable(v[k], al);
  }

  /** Walking over coefficients none of which turns nonzero consumes just their correction bits. */
  lemma {:induction false} AdvanceThrough(v: seq<int>, c: seq<int>, fix: seq<int>, goal: seq<int>, al: nat, ss: nat, se: nat,
      i: nat, k: nat, r: nat, s: seq<bit>)
    requires Known(v, c, fix, goal, al, ss, se) && ss <= i <= k <= se + 1
    requires |v| == |c| == |fix| == DCTSIZE2 && se < DCTSIZE2
    requires Quiet(v, al, i, k) && ZeroCount(v, al, i, k) <= r
    ensures Advance(Mixed(c, fix, i), i, r, al, se, Corr(v, al, i, k) + s)
      == Advance(Mixed(c, fix, k), k, r - ZeroCount(v, al, i, k), al, se, s)
    decreases k - i
  {
    hide Mag, Known, Mixed, Touch, Advance;
    if i == k {
      assert [] + s == s;
    } else {
      CorrHead(v, al, i, k);
      TouchMixed(v, c, fix, goal, al, ss, se, i);
      AdvanceStep(Mixed(c, fix, i), i, r, al, se, Corr(v, al, i, k) + s);
      if Mag(v[i], al) > 1 {
        var b := Mag(v[i], al) % 2;
        assert ([b] + Corr(v, al, i + 1, k) + s)[1..] == Corr(v, al, i + 1, k) + s;
        AdvanceThrough(v, c, fix, goal, al, ss, se, i + 1, k, r, s);
      } else {
        assert [] + Corr(v, al, i + 1, k) == Corr(v, al, i + 1, k);
        AdvanceThrough(v, c, fix, goal, al, ss, se, i + 1, k, r - 1, s);
      }
    }
  }

  lemma {:induction false} FinishThrough(v: seq<int>, c: seq<int>, fix: seq<int>, goal: seq<int>, al: nat, ss: nat, se: nat,
      i: nat, s: seq<bit>)
    requires Known(v, c, fix, goal, al, ss, se) && ss <= i <= se + 1 && Quiet(v, al, i, se + 1)
    ensures Finish(Mixed(c, fix, i), i, al, se, Corr(v, al, i, se + 1) + s) == Some(Place(fix, se + 1, s))
    decreases se + 1 - i
  {
    hide Mag, Touch, Trunc;
    if i == se + 1 {
      assert [] + s == s;
      assert Mixed(c, fix, se + 1) == fix;
    } else {
      CorrHead(v, al, i, se + 1);
      TouchMixed(v, c, fix, goal, al, ss, se, i);
      if Mag(v[i], al) > 1 {
        var b := Mag(v[i], al) % 2;
        assert ([b] + Corr(v, al, i + 1, se + 1) + s)[1..] == Corr(v, al, i + 1, se + 1) + s;
      } else {
        assert [] + Corr(v, al, i + 1, se + 1) == Corr(v, al, i + 1, se + 1);
      }
      FinishThrough(v, c, fix, goal, al, ss, se, i + 1, s);
    }
  }

  /** Reading back the symbols of the encoder. */
  lemma ReadCoef(h: Code, r: nat, b: bit, s: seq<bit>)
    requires Proper(h) && r <= 15 && HasWord(h, 16 * r + 1)
    ensures ReadEvent(h, Word(h, 16 * r + 1) + ([b] + s)) == Some((Coef(r, b == 1), s))
  {
    hide Proper, HasWord, ReadSym;
    ReadWordBack(h, 16 * r + 1, [b] + s);
    assert ([b] + s)[1..] == s;
  }

  lemma ReadZrl(h: Code, s: seq<bit>)
    requires Proper(h) && HasWord(h, ZRL)
    ensures ReadEvent(h, Word(h, ZRL) + s) == Some((Skip, s))
  {
    hide Proper, HasWord, ReadSym;
    ReadWordBack(h, ZRL, s);
  }

  /** The bits that begin an EOB run of n blocks. */
  ghost function RunBits(h: Code, n: nat): seq<bit>
    requires Proper(h) && 0 < n <= MAX_RUN
  {
    Log2Bound(n);
    Word(h, 16 * Log2(n)) + BitsOf(n, Log2(n))
  }

  lemma ReadRun(h: Code, n: nat, s: seq<bit>)
    requires Proper(h) && 0 < n <= MAX_RUN && Log2(n) <= 14 && HasWord(h, 16 * Log2(n))
    ensures ReadEvent(h, RunBits(h, n) + s) == Some((EndRun(n), s))
  {
    hide Proper, HasWord, ReadSym, BitsOf, Number, Log2, Shl;
    var b: nat := Log2(n);
    var t := BitsOf(n, b);
    Assoc(Word(h, 16 * b), t, s);
    ReadWordBack(h, 16 * b, t + s);
    assert (t + s)[..b] == t && (t + s)[b..] == s;
    RunSplit(n);
  }

  lemma {:induction false} RunSplit(n: nat)
    requires n > 0
    ensures Shl(1, Log2(n)) + Number(BitsOf(n, Log2(n))) == n
  {
    if n >= 2 {
      RunSplit(n / 2);
    }
  }

  lemma SpellRun(h: Code, n: nat)
    requires Proper(h) && 0 < n <= MAX_RUN
    ensures Spell(h, RunItems(n)) == RunBits(h, n)
  {
    hide Proper, Word, BitsOf, Log2;
    Log2Bound(n);
    var b := Log2(n);
    SpellOne(h, Sym(16 * b));
    if b > 0 {
      SpellNext(h, [Sym(16 * b)], Raw(BitsOf(n, b)));
      assert [Sym(16 * b)] + [Raw(BitsOf(n, b))] == RunItems(n);
    } else {
      NoBits(n);
      assert [Sym(16 * b)] + [] == RunItems(n);
    }
  }

  lemma NoBits(n: nat)
    ensures BitsOf(n, 0) == []
  {
  }

  /** What follows the symbols of a block: the end of band it needs, and the rest of the stream. */
  ghost function Closing(h: Code, f: Refinement, n: nat, s: seq<bit>): seq<bit>
    requires Proper(h) && 0 < n <= MAX_RUN
  {
    if f.open then RunBits(h, n) + (f.tail + s) else s
  }

  /** The goal reached up to position k. */
  ghost predicate Reached(fix: seq<int>, news: seq<(nat, int)>, goal: seq<int>, k: nat) {
    && |fix| == |goal| == DCTSIZE2 && k <= DCTSIZE2
    && (forall i :: 0 <= i < |news| ==> news[i].0 < DCTSIZE2)
    && Apply(fix, news) == Mixed(fix, goal, k)
  }

  /** The outcome of refining a band. */
  ghost predicate Outcome(r: Option<Refined>, fix: seq<int>, goal: seq<int>, eobrun: nat, s: seq<bit>) {
    && r.Some? && r.value.fix == fix && |fix| == DCTSIZE2 && r.value.eobrun == eobrun && r.value.rest == s
    && (forall i :: 0 <= i < |r.value.news| ==> r.value.news[i].0 < DCTSIZE2)
    && Apply(fix, r.value.news) == goal
  }

  /** Where encoder and decoder stand: the decoder is to read a symbol at i, the encoder has
  come to k; since m it has seen only zeros, and before m at most fifteen. */
  ghost predicate Standing(v: seq<int>, al: nat, eob: nat, i: nat, m: nat, k: nat, r: nat, br: seq<bit>) {
    && |v| == DCTSIZE2 && i <= m <= k <= DCTSIZE2
    && Quiet(v, al, i, k) && br == Corr(v, al, i, k) && r == ZeroCount(v, al, i, k)
    && (forall j :: m <= j < k ==> Mag(v[j], al) == 0)
    && (k <= eob ==> ZeroCount(v, al, i, m) <= 15)
  }

  lemma StandZero(v: seq<int>, al: nat, eob: nat, i: nat, m: nat, k: nat, r: nat, br: seq<bit>)
    requires Standing(v, al, eob, i, m, k, r, br) && k < DCTSIZE2 && Mag(v[k], al) == 0
    ensures Standing(v, al, eob, i, m, k + 1, r + 1, br)
  {
    hide Mag;
  }

  lemma StandCorrection(v: seq<int>, al: nat, eob: nat, i: nat, m: nat, k: nat, r: nat, br: seq<bit>)
    requires Standing(v, al, eob, i, m, k, r, br) && k < DCTSIZE2 && Mag(v[k], al) > 1 && (k <= eob ==> r <= 15)
    ensures Standing(v, al, eob, i, k + 1, k + 1, r, br + [Mag(v[k], al) % 2])
  {
    hide Mag;
  }

  /** A ZRL takes the decoder to the sixteenth zero, past exactly the corrections sent with it. */
  lemma StandZrl(v: seq<int>, c: seq<int>, fix: seq<int>, goal: seq<int>, al: nat, ss: nat, se: nat,
      eob: nat, i: nat, m: nat, k: nat, r: nat, br: seq<bit>, s: seq<bit>) returns (z: nat)
    requires Known(v, c, fix, goal, al, ss, se) && Standing(v, al, eob, i, m, k, r, br)
    requires |c| == |fix| == DCTSIZE2 && ss <= i && k <= se < DCTSIZE2 && k <= eob && r > 15
    ensures i <= z < k && Advance(Mixed(c, fix, i), i, 15, al, se, br + s) == Some(Place(Mixed(c, fix, z), z, s))
    ensures Mixed(c, fix, z + 1) == Mixed(c, fix, z)
    ensures Standing(v, al, eob, z + 1, z + 1, k, r - 16, [])
  {
    hide Mag, Known, Advance, Touch, Corr, ZeroCount;
    var z0 := ZeroCount(v, al, i, m);
    CorrSplit(v, al, i, m, k);
    ZerosOnly(v, al, m, k);
    z := m + (15 - z0);
    assert br == Corr(v, al, i, m);
    AdvanceThrough(v, c, fix, goal, al, ss, se, i, m, 15, s);
    ZerosOnly(v, al, m, z);
    AdvanceThrough(v, c, fix, goal, al, ss, se, m, z, 15 - z0, s);
    assert [] + s == s;
    TouchMixed(v, c, fix, goal, al, ss, se, z);
    AdvanceStep(Mixed(c, fix, z), z, 0, al, se, s);
    ZerosOnly(v, al, z + 1, k);
    ZerosOnly(v, al, z + 1, z + 1);
  }

  /** A coefficient symbol takes the decoder to the coefficient it is about. */
  lemma StandCoef(v: seq<int>, c: seq<int>, fix: seq<int>, goal: seq<int>, al: nat, ss: nat, se: nat,
      eob: nat, i: nat, m: nat, k: nat, r: nat, br: seq<bit>, s: seq<bit>)
    requires Known(v, c, fix, goal, al, ss, se) && Standing(v, al, eob, i, m, k, r, br)
    requires |c| == |fix| == DCTSIZE2 && ss <= i && k <= se < DCTSIZE2 && Mag(v[k], al) == 1
    ensures Advance(Mixed(c, fix, i), i, r, al, se, br + s) == Some(Place(Mixed(c, fix, k), k, s))
    ensures Mixed(c, fix, k + 1) == Mixed(c, fix, k)
    ensures Standing(v, al, eob, k + 1, k + 1, k + 1, 0, [])
  {
    hide Mag, Known, Advance, Touch;
    AdvanceThrough(v, c, fix, goal, al, ss, se, i, k, r, s);
    TouchMixed(v, c, fix, goal, al, ss, se, k);
    AdvanceStep(Mixed(c, fix, k), k, 0, al, se, s);
  }

  /** Passing a coefficient that is not new leaves nothing to do for it. */
  lemma ReachedOld(v: seq<int>, c: seq<int>, fix: seq<int>, goal: seq<int>, al: nat, ss: nat, se: nat,
      news: seq<(nat, int)>, k: nat)
    requires Known(v, c, fix, goal, al, ss, se) && Reached(fix, news, goal, k) && ss <= k <= se && Mag(v[k], al) != 1
    ensures Reached(fix, news, goal, k + 1)
  {
    hide Apply, Mag;
    if Mag(v[k], al) == 0 {
      CanonicalCode.ShlOfZero(al);
    }
    assert goal[k] == fix[k];
  }

  /** The newly nonzero coefficient is put where it belongs. */
  lemma ReachedNew(v: seq<int>, c: seq<int>, fix: seq<int>, goal: seq<int>, al: nat, ss: nat, se: nat,
      news: seq<(nat, int)>, k: nat)
    requires Known(v, c, fix, goal, al, ss, se) && Reached(fix, news, goal, k) && ss <= k <= se && Mag(v[k], al) == 1
    ensures Reached(fix, news + [NewAt(k, Sign(v[k]) == 1, al)], goal, k + 1)
  {
    hide Mag, Shl;
    var n := NewAt(k, Sign(v[k]) == 1, al);
    assert (news + [n])[..|news|] == news;
    assert goal[k] == n.1;
  }

  lemma ReachedEnd(v: seq<int>, c: seq<int>, fix: seq<int>, goal: seq<int>, al: nat, ss: nat, se: nat, news: seq<(nat, int)>)
    requires Known(v, c, fix, goal, al, ss, se) && Reached(fix, news, goal, se + 1)
    ensures Apply(fix, news) == goal
  {
    hide Apply, Mag, Trunc;
    assert Mixed(fix, goal, se + 1) == goal;
  }

  /** The band decoder, reading what the encoder sends from position k on. */
  lemma {:induction false} BlockReads(h: Code, v: seq<int>, c: seq<int>, fix: seq<int>, goal: seq<int>, al: nat, ss: nat, se: nat,
      eob: nat, i: nat, m: nat, k: nat, r: nat, br: seq<bit>, news: seq<(nat, int)>, n: nat, s: seq<bit>)
    requires Proper(h) && PrefixFree(h) && Known(v, c, fix, goal, al, ss, se) && 0 < n <= MAX_RUN
    requires |v| == |c| == |fix| == |goal| == DCTSIZE2 && ss <= i && k <= se + 1 <= DCTSIZE2
    requires LastNew(v, al, se, eob, k) && Standing(v, al, eob, i, m, k, r, br) && Reached(fix, news, goal, k)
    requires var f := Emit(v, al, se, eob, k, r, br);
      Coded(h, f.items) && (f.open ==> Coded(h, RunItems(n)))
    ensures var f := Emit(v, al, se, eob, k, r, br);
      Outcome(Band(h, Mixed(c, fix, i), i, news, al, se, Spell(h, f.items) + Closing(h, f, n, s)),
        fix, goal, if f.open then n - 1 else 0, s)
    decreases se + 1 - k, r
  {
    hide Proper, PrefixFree, Known, Mag, Band, Standing, Reached, Outcome, Spell, Closing, Coded, Mixed;
    var f := Emit(v, al, se, eob, k, r, br);
    StandingShape(v, al, eob, i, m, k, r, br);
    if k > se {
      BandEnds(h, v, c, fix, goal, al, ss, se, eob, i, m, k, r, br, news, n, s);
    } else if Mag(v[k], al) == 0 {
      StandZero(v, al, eob, i, m, k, r, br);
      ReachedOld(v, c, fix, goal, al, ss, se, news, k);
      BlockReads(h, v, c, fix, goal, al, ss, se, eob, i, m, k + 1, r + 1, br, news, n, s);
    } else if r > 15 && k <= eob {
      var g := Emit(v, al, se, eob, k, r - 16, []);
      ZrlSplits(h, br, g, n, s);
      var z := StandZrl(v, c, fix, goal, al, ss, se, eob, i, m, k, r, br, Spell(h, g.items) + Closing(h, g, n, s));
      BlockReads(h, v, c, fix, goal, al, ss, se, eob, z + 1, z + 1, k, r - 16, [], news, n, s);
      BandZrl(h, Mixed(c, fix, i), Mixed(c, fix, z), i, z, news, al, se, br, Spell(h, g.items) + Closing(h, g, n, s));
    } else if Mag(v[k], al) > 1 {
      StandCorrection(v, al, eob, i, m, k, r, br);
      ReachedOld(v, c, fix, goal, al, ss, se, news, k);
      BlockReads(h, v, c, fix, goal, al, ss, se, eob, i, k + 1, k + 1, r, br + [Mag(v[k], al) % 2], news, n, s);
    } else {
      var b := Sign(v[k]);
      var g := Emit(v, al, se, eob, k + 1, 0, []);
      var t := Spell(h, g.items) + Closing(h, g, n, s);
      CoefSplits(h, r, b, br, g, n, s);
      StandCoef(v, c, fix, goal, al, ss, se, eob, i, m, k, r, br, t);
      ReachedNew(v, c, fix, goal, al, ss, se, news, k);
      BlockReads(h, v, c, fix, goal, al, ss, se, eob, k + 1, k + 1, k + 1, 0, [], news + [NewAt(k, b == 1, al)], n, s);
      BandCoef(h, Mixed(c, fix, i), Mixed(c, fix, k), i, k, news, r, b, al, se, br, t);
    }
  }

  lemma StandingShape(v: seq<int>, al: nat, eob: nat, i: nat, m: nat, k: nat, r: nat, br: seq<bit>)
    requires Standing(v, al, eob, i, m, k, r, br)
    ensures i <= k
  {
  }

  /** The end of the band: nothing to read, or the end-of-band symbol and the last corrections. */
  lemma BandEnds(h: Code, v: seq<int>, c: seq<int>, fix: seq<int>, goal: seq<int>, al: nat, ss: nat, se: nat,
      eob: nat, i: nat, m: nat, k: nat, r: nat, br: seq<bit>, news: seq<(nat, int)>, n: nat, s: seq<bit>)
    requires Proper(h) && PrefixFree(h) && Known(v, c, fix, goal, al, ss, se) && 0 < n <= MAX_RUN
    requires |c| == |fix| == DCTSIZE2 && ss <= i <= k == se + 1 <= DCTSIZE2
    requires Standing(v, al, eob, i, m, k, r, br) && Reached(fix, news, goal, k)
    requires (r > 0 || br != []) ==> Coded(h, RunItems(n))
    ensures var f := Refinement([], br, r > 0 || br != []);
      Outcome(Band(h, Mixed(c, fix, i), i, news, al, se, Spell(h, []) + Closing(h, f, n, s)),
        fix, goal, if f.open then n - 1 else 0, s)
  {
    hide Proper, PrefixFree, Mag, Word, Finish, ReadEvent, RunBits, Corr, ZeroCount, Apply, Log2, BitsOf;
    CountAll(v, al, i, k);
    ReachedEnd(v, c, fix, goal, al, ss, se, news);
    if r > 0 || br != [] {
      assert [] + (RunBits(h, n) + (br + s)) == RunBits(h, n) + (br + s);
      Log2Bound(n);
      RunHasWord(h, n);
      ReadRun(h, n, br + s);
      FinishThrough(v, c, fix, goal, al, ss, se, i, s);
    } else {
      assert [] + s == s;
      assert Mixed(c, fix, i) == fix;
    }
  }

  lemma RunHasWord(h: Code, n: nat)
    requires 0 < n <= MAX_RUN && Coded(h, RunItems(n)) && Log2(n) <= 14
    ensures HasWord(h, 16 * Log2(n))
  {
    hide Log2, HasWord;
    assert RunItems(n)[0] == Sym(16 * Log2(n));
  }

  lemma ZrlSplits(h: Code, br: seq<bit>, g: Refinement, n: nat, s: seq<bit>)
    requires Proper(h) && 0 < n <= MAX_RUN && Coded(h, Before([Sym(ZRL), Raw(br)], g).items)
    ensures var f := Before([Sym(ZRL), Raw(br)], g);
      && HasWord(h, ZRL) && Coded(h, g.items)
      && Spell(h, f.items) + Closing(h, f, n, s) == Word(h, ZRL) + (br + (Spell(h, g.items) + Closing(h, g, n, s)))
  {
    hide Proper, Word, HasWord, Spell, RunBits;
    var items := [Sym(ZRL), Raw(br)] + g.items;
    assert items[0] == Sym(ZRL);
    assert forall i :: 0 <= i < |g.items| ==> g.items[i] == items[i + 2];
    assert items == [Sym(ZRL)] + ([Raw(br)] + g.items);
    SpellHead(h, Sym(ZRL), [Raw(br)] + g.items);
    SpellHead(h, Raw(br), g.items);
    var t := Closing(h, g, n, s);
    Assoc(Word(h, ZRL), br + Spell(h, g.items), t);
    Assoc(br, Spell(h, g.items), t);
  }

  lemma CoefSplits(h: Code, r: nat, b: bit, br: seq<bit>, g: Refinement, n: nat, s: seq<bit>)
    requires Proper(h) && 0 < n <= MAX_RUN && r <= 15
    requires Coded(h, Before([Sym(16 * r + 1), Raw([b]), Raw(br)], g).items)
    ensures var f := Before([Sym(16 * r + 1), Raw([b]), Raw(br)], g);
      && HasWord(h, 16 * r + 1) && Coded(h, g.items)
      && Spell(h, f.items) + Closing(h, f, n, s)
        == Word(h, 16 * r + 1) + ([b] + (br + (Spell(h, g.items) + Closing(h, g, n, s))))
  {
    hide Proper, Word, HasWord, Spell, RunBits;
    var w := Sym(16 * r + 1);
    var items := [w, Raw([b]), Raw(br)] + g.items;
    assert items[0] == w;
    assert forall i :: 0 <= i < |g.items| ==> g.items[i] == items[i + 3];
    assert items == [w] + ([Raw([b])] + ([Raw(br)] + g.items));
    SpellHead(h, w, [Raw([b])] + ([Raw(br)] + g.items));
    SpellHead(h, Raw([b]), [Raw(br)] + g.items);
    SpellHead(h, Raw(br), g.items);
    var u, t := Spell(h, g.items), Closing(h, g, n, s);
    Assoc(Word(h, 16 * r + 1), [b] + (br + u), t);
    Assoc([b], br + u, t);
    Assoc(br, u, t);
  }

  lemma BandZrl(h: Code, c: seq<int>, d: seq<int>, i: nat, z: nat, news: seq<(nat, int)>, al: nat, se: nat, br: seq<bit>, t: seq<bit>)
    requires Proper(h) && PrefixFree(h) && |c| == |d| == DCTSIZE2 && i <= z <= se < DCTSIZE2 && HasWord(h, ZRL)
    requires Advance(c, i, 15, al, se, br + t) == Some(Place(d, z, t))
    ensures Band(h, c, i, news, al, se, Word(h, ZRL) + (br + t)) == Band(h, d, z + 1, news, al, se, t)
  {
    hide Proper, PrefixFree, Word, HasWord, Advance, ReadEvent;
    ReadZrl(h, br + t);
  }

  lemma BandCoef(h: Code, c: seq<int>, d: seq<int>, i: nat, k: nat, news: seq<(nat, int)>, r: nat, b: bit, al: nat, se: nat,
      br: seq<bit>, t: seq<bit>)
    requires Proper(h) && PrefixFree(h) && |c| == |d| == DCTSIZE2 && i <= k <= se < DCTSIZE2 && r <= 15
    requires HasWord(h, 16 * r + 1) && Advance(c, i, r, al, se, br + t) == Some(Place(d, k, t))
    ensures Band(h, c, i, news, al, se, Word(h, 16 * r + 1) + ([b] + (br + t)))
      == Band(h, d, k + 1, news + [NewAt(k, b == 1, al)], al, se, t)
  {
    hide Proper, PrefixFree, Word, HasWord, Advance, ReadEvent;
    ReadCoef(h, r, b, br + t);
  }

  /** How many of the coming blocks join the pending run, and what is sent behind its symbol
  and the correction bits gathered so far. */
  datatype RunView = RunView(left: nat, items: seq<Item>)

  ghost function After(vs: seq<seq<int>>, eobrun: nat, be: seq<bit>, al: nat, ss: nat, se: nat): RunView
    requires ss <= se < DCTSIZE2 && Bands(vs) && 0 < eobrun < MAX_RUN
    decreases |vs|, 0
  {
    if vs == [] then RunView(0, [])
    else
      var f := Block(vs[0], al, ss, se);
      if f.items != [] then RunView(0, f.items + Settle(vs[1..], if f.open then 1 else 0, f.tail, al, ss, se))
      else
        var q := Settled(vs[1..], eobrun + 1, be + f.tail, al, ss, se);
        RunView(q.left + 1, [Raw(f.tail)] + q.items)
  }

  ghost function Settled(vs: seq<seq<int>>, eobrun: nat, be: seq<bit>, al: nat, ss: nat, se: nat): RunView
    requires ss <= se < DCTSIZE2 && Bands(vs) && eobrun <= MAX_RUN
    decreases |vs|, 1
  {
    if eobrun == 0 || MustFlush(eobrun, |be|) then RunView(0, Scan(vs, 0, [], al, ss, se))
    else After(vs, eobrun, be, al, ss, se)
  }

  lemma SpellEob(h: Code, n: nat, be: seq<bit>, t: seq<Item>)
    requires Proper(h) && 0 < n <= MAX_RUN
    ensures Spell(h, EobItems(n, be) + t) == RunBits(h, n) + (be + Spell(h, t))
    ensures Coded(h, EobItems(n, be) + t) ==> Coded(h, RunItems(n)) && Coded(h, t)
  {
    hide Proper, RunItems, RunBits, Spell;
    SpellPlus(h, EobItems(n, be), t);
    SpellNext(h, RunItems(n), Raw(be));
    SpellRun(h, n);
    Assoc(RunBits(h, n), be, Spell(h, t));
    CodedParts(h, EobItems(n, be), t);
    CodedParts(h, RunItems(n), [Raw(be)]);
  }

  /** The encoder sends the run symbol late, but with the length it will have had. */
  ghost predicate RunFirst(h: Code, items: seq<Item>, eobrun: nat, be: seq<bit>, q: RunView)
    requires Proper(h) && 0 < eobrun
  {
    && eobrun + q.left <= MAX_RUN
    && Spell(h, items) == RunBits(h, eobrun + q.left) + (be + Spell(h, q.items))
    && (Coded(h, items) ==> Coded(h, RunItems(eobrun + q.left)) && Coded(h, q.items))
  }

  lemma {:induction false} ScanRun(h: Code, vs: seq<seq<int>>, eobrun: nat, be: seq<bit>, al: nat, ss: nat, se: nat)
    requires Proper(h) && ss <= se < DCTSIZE2 && Bands(vs) && 0 < eobrun < MAX_RUN
    ensures RunFirst(h, Scan(vs, eobrun, be, al, ss, se), eobrun, be, After(vs, eobrun, be, al, ss, se))
    decreases |vs|, 0
  {
    hide Proper, Block, RunItems, RunBits, Spell, EobItems, Coded;
    if vs == [] {
      SpellEob(h, eobrun, be, []);
      assert EobItems(eobrun, be) + [] == EobItems(eobrun, be);
    } else {
      var f := Block(vs[0], al, ss, se);
      if f.items != [] {
        var t := Settle(vs[1..], if f.open then 1 else 0, f.tail, al, ss, se);
        SpellEob(h, eobrun, be, f.items + t);
        Assoc(EobItems(eobrun, be), f.items, t);
      } else {
        SettleRun(h, vs[1..], eobrun + 1, be + f.tail, al, ss, se);
        var q := Settled(vs[1..], eobrun + 1, be + f.tail, al, ss, se);
        SpellHead(h, Raw(f.tail), q.items);
        Assoc(be, f.tail, Spell(h, q.items));
        CodedParts(h, [Raw(f.tail)], q.items);
        RawIsCoded(h, f.tail);
      }
    }
  }

  lemma {:induction false} SettleRun(h: Code, vs: seq<seq<int>>, eobrun: nat, be: seq<bit>, al: nat, ss: nat, se: nat)
    requires Proper(h) && ss <= se < DCTSIZE2 && Bands(vs) && 0 < eobrun <= MAX_RUN
    ensures RunFirst(h, Settle(vs, eobrun, be, al, ss, se), eobrun, be, Settled(vs, eobrun, be, al, ss, se))
    decreases |vs|, 1
  {
    hide Proper, RunItems, RunBits, Spell, EobItems, Coded;
    if MustFlush(eobrun, |be|) {
      SpellEob(h, eobrun, be, Scan(vs, 0, [], al, ss, se));
    } else {
      ScanRun(h, vs, eobrun, be, al, ss, se);
    }
  }

  lemma RawIsCoded(h: Code, b: seq<bit>)
    ensures Coded(h, [Raw(b)])
  {
  }

  /** What is known of a block before the scan. */
  ghost predicate Given(v: seq<int>, c: seq<int>, al: nat, ss: nat, se: nat) {
    && |v| == |c| == DCTSIZE2 && ss <= se < DCTSIZE2
    && (forall j :: ss <= j <= se ==> c[j] == Trunc(v[j], al + 1))
    && forall j :: 0 <= j < DCTSIZE2 ==> -32768 < v[j] < 32768
  }

  /** The block with its band known to one bit more. */
  function Goal(v: seq<int>, c: seq<int>, al: nat, ss: nat, se: nat): (g: seq<int>)
    requires |v| == |c| == DCTSIZE2
    ensures |g| == DCTSIZE2 && forall j :: 0 <= j < DCTSIZE2 ==> g[j] == if ss <= j <= se then Trunc(v[j], al) else c[j]
  {
    seq(DCTSIZE2, j requires 0 <= j < DCTSIZE2 => if ss <= j <= se then Trunc(v[j], al) else c[j])
  }

  function Corrected(v: seq<int>, c: seq<int>, al: nat, ss: nat, se: nat): (g: seq<int>)
    requires |v| == |c| == DCTSIZE2
    ensures |g| == DCTSIZE2
    ensures forall j :: 0 <= j < DCTSIZE2 ==>
      g[j] == if ss <= j <= se then if Mag(v[j], al) > 1 then Trunc(v[j], al) else 0 else c[j]
  {
    seq(DCTSIZE2, j requires 0 <= j < DCTSIZE2 =>
      if ss <= j <= se then if Mag(v[j], al) > 1 then Trunc(v[j], al) else 0 else c[j])
  }

  /** A block without symbols only has corrections, and needs an end of band. */
  lemma {:induction false} NoSymbols(v: seq<int>, al: nat, se: nat, eob: nat, k: nat, r: nat, br: seq<bit>)
    requires |v| == DCTSIZE2 && k <= se + 1 <= DCTSIZE2 && LastNew(v, al, se, eob, k)
    requires Emit(v, al, se, eob, k, r, br).items == []
    ensures var f := Emit(v, al, se, eob, k, r, br);
      Quiet(v, al, k, se + 1) && f.tail == br + Corr(v, al, k, se + 1) && (k <= se || r > 0 ==> f.open)
    decreases se + 1 - k, r
  {
    hide Mag;
    if k > se {
    } else {
      CorrHead(v, al, k, se + 1);
      if Mag(v[k], al) == 0 {
        NoSymbols(v, al, se, eob, k + 1, r + 1, br);
      } else if Mag(v[k], al) > 1 {
        NoSymbols(v, al, se, eob, k + 1, r, br + [Mag(v[k], al) % 2]);
        NoSymbolsOpen(v, al, se, eob, k + 1, r, br + [Mag(v[k], al) % 2]);
      }
    }
  }

  lemma {:induction false} NoSymbolsOpen(v: seq<int>, al: nat, se: nat, eob: nat, k: nat, r: nat, br: seq<bit>)
    requires |v| == DCTSIZE2 && k <= se + 1 <= DCTSIZE2 && LastNew(v, al, se, eob, k)
    requires Emit(v, al, se, eob, k, r, br).items == [] && br != []
    ensures Emit(v, al, se, eob, k, r, br).open
    decreases se + 1 - k, r
  {
    hide Mag;
    if k <= se {
      if Mag(v[k], al) == 0 {
        NoSymbolsOpen(v, al, se, eob, k + 1, r + 1, br);
      } else if Mag(v[k], al) > 1 {
        NoSymbolsOpen(v, al, se, eob, k + 1, r, br + [Mag(v[k], al) % 2]);
      }
    }
  }

  lemma KnownOf(v: seq<int>, c: seq<int>, al: nat, ss: nat, se: nat)
    requires Given(v, c, al, ss, se)
    ensures Known(v, c, Corrected(v, c, al, ss, se), Goal(v, c, al, ss, se), al, ss, se)
  {
    hide Trunc, Mag;
  }

  /** A block whose corrections are all it has. */
  lemma QuietGoal(v: seq<int>, c: seq<int>, al: nat, ss: nat, se: nat)
    requires Given(v, c, al, ss, se) && Quiet(v, al, ss, se + 1)
    ensures Goal(v, c, al, ss, se) == Corrected(v, c, al, ss, se)
  {
    hide Mag, Shl;
    CanonicalCode.ShlOfZero(al);
  }

  /** The result of decoding one block, and the place where the next one starts. */
  ghost predicate BlockDone(r: Option<Refined>, goal: seq<int>, left: nat, s: seq<bit>) {
    && r.Some? && |r.value.fix| == DCTSIZE2 && InBlock(r.value.news)
    && Apply(r.value.fix, r.value.news) == goal && r.value.eobrun == left && r.value.rest == s
  }

  lemma NoSymbolsBlock(v: seq<int>, al: nat, ss: nat, se: nat)
    requires |v| == DCTSIZE2 && ss <= se < DCTSIZE2 && Block(v, al, ss, se).items == []
    ensures Quiet(v, al, ss, se + 1) && Block(v, al, ss, se).tail == Corr(v, al, ss, se + 1)
  {
    hide Mag, Emit, Eob, Corr;
    EobIsLast(v, al, ss, se + 1);
    NoSymbols(v, al, se, Eob(v, al, ss, se + 1), ss, 0, []);
    assert [] + Corr(v, al, ss, se + 1) == Corr(v, al, ss, se + 1);
  }

  /** A block that joins the pending run is refined by correction bits alone. */
  lemma JoinReads(h: Code, v: seq<int>, c: seq<int>, left: nat, al: nat, ss: nat, se: nat, s: seq<bit>)
    requires PrefixFree(h) && Given(v, c, al, ss, se) && Block(v, al, ss, se).items == []
    ensures BlockDone(DecodeBlock(h, c, left + 1, ss, al, se, Block(v, al, ss, se).tail + s), Goal(v, c, al, ss, se), left, s)
  {
    hide Mag, Finish, Trunc, PrefixFree, Block, Corr, Quiet, Known;
    var fix := Corrected(v, c, al, ss, se);
    NoSymbolsBlock(v, al, ss, se);
    KnownOf(v, c, al, ss, se);
    assert Mixed(c, fix, ss) == c;
    FinishThrough(v, c, fix, Goal(v, c, al, ss, se), al, ss, se, ss, s);
    QuietGoal(v, c, al, ss, se);
  }

  /** A block outside a run: its symbols, and the run its end of band starts. */
  lemma SymbolsRead(h: Code, v: seq<int>, c: seq<int>, n: nat, al: nat, ss: nat, se: nat, s: seq<bit>)
    requires Proper(h) && PrefixFree(h) && Given(v, c, al, ss, se) && 0 < n <= MAX_RUN
    requires Coded(h, Block(v, al, ss, se).items) && (Block(v, al, ss, se).open ==> Coded(h, RunItems(n)))
    ensures var f := Block(v, al, ss, se);
      BlockDone(DecodeBlock(h, c, 0, ss, al, se, Spell(h, f.items) + Closing(h, f, n, s)), Goal(v, c, al, ss, se),
        if f.open then n - 1 else 0, s)
  {
    hide Mag, Trunc, Proper, PrefixFree, Emit, Eob, Spell, Closing, Coded, Band;
    var fix, goal := Corrected(v, c, al, ss, se), Goal(v, c, al, ss, se);
    EobIsLast(v, al, ss, se + 1);
    KnownOf(v, c, al, ss, se);
    assert Mixed(c, fix, ss) == c && Mixed(fix, goal, ss) == fix;
    BlockReads(h, v, c, fix, goal, al, ss, se, Eob(v, al, ss, se + 1), ss, ss, ss, 0, [], [], n, s);
  }

  ghost predicate AllGiven(vs: seq<seq<int>>, cs: seq<seq<int>>, al: nat, ss: nat, se: nat) {
    |vs| == |cs| && forall i :: 0 <= i < |vs| ==> Given(vs[i], cs[i], al, ss, se)
  }

  function Goals(vs: seq<seq<int>>, cs: seq<seq<int>>, al: nat, ss: nat, se: nat): (gs: seq<seq<int>>)
    requires |vs| == |cs| && (forall i :: 0 <= i < |vs| ==> |vs[i]| == |cs[i]| == DCTSIZE2)
    ensures |gs| == |vs| && forall i :: 0 <= i < |gs| ==> gs[i] == Goal(vs[i], cs[i], al, ss, se)
  {
    if vs == [] then [] else [Goal(vs[0], cs[0], al, ss, se)] + Goals(vs[1..], cs[1..], al, ss, se)
  }

  /** The whole scan, from any point between two blocks: what is decoded is the goal. */
  lemma {:induction false} ScanReads(h: Code, vs: seq<seq<int>>, cs: seq<seq<int>>, eobrun: nat, be: seq<bit>,
      al: nat, ss: nat, se: nat, s: seq<bit>)
    requires Proper(h) && PrefixFree(h) && ss <= se < DCTSIZE2 && Bands(vs) && Bands(cs) && AllGiven(vs, cs, al, ss, se)
    requires eobrun <= MAX_RUN && Coded(h, Settled(vs, eobrun, be, al, ss, se).items)
    ensures var q := Settled(vs, eobrun, be, al, ss, se);
      RefineAll(h, cs, q.left, ss, al, se, Spell(h, q.items) + s) == Some((Goals(vs, cs, al, ss, se), 0, s))
    decreases |vs|
  {
    hide Proper, PrefixFree, Block, Spell, Coded, RunItems, RunBits, DecodeBlock, Apply, Given, Scan, Settle;
    var e, b := if eobrun == 0 || MustFlush(eobrun, |be|) then 0 else eobrun, be;
    if vs == [] {
      ScanEnds(h, e, b, al, ss, se, s);
    } else {
      GivenShape(vs[0], cs[0], al, ss, se);
      assert AllGiven(vs[1..], cs[1..], al, ss, se);
      var f := Block(vs[0], al, ss, se);
      if e > 0 && f.items == [] {
        var q := Settled(vs[1..], e + 1, b + f.tail, al, ss, se);
        JoinStep(h, f.tail, q.items, s);
        ScanReads(h, vs[1..], cs[1..], e + 1, b + f.tail, al, ss, se, s);
        JoinReads(h, vs[0], cs[0], q.left, al, ss, se, Spell(h, q.items) + s);
      } else {
        var e1 := if f.open then 1 else 0;
        var q := Settled(vs[1..], e1, f.tail, al, ss, se);
        var n := 1 + q.left;
        SymbolStep(h, vs, e, b, al, ss, se, s);
        ScanReads(h, vs[1..], cs[1..], e1, f.tail, al, ss, se, s);
        SymbolsRead(h, vs[0], cs[0], n, al, ss, se, Spell(h, q.items) + s);
      }
    }
  }

  lemma GivenShape(v: seq<int>, c: seq<int>, al: nat, ss: nat, se: nat)
    requires Given(v, c, al, ss, se)
    ensures |v| == |c| == DCTSIZE2
  {
  }

  lemma ScanEnds(h: Code, eobrun: nat, be: seq<bit>, al: nat, ss: nat, se: nat, s: seq<bit>)
    requires Proper(h) && ss <= se < DCTSIZE2 && eobrun < MAX_RUN
    ensures Settled([], 0, [], al, ss, se) == RunView(0, []) && Spell(h, []) + s == s
    ensures eobrun > 0 ==> After([], eobrun, be, al, ss, se) == RunView(0, [])
  {
    hide Proper;
    assert [] + s == s;
  }

  lemma JoinStep(h: Code, tail: seq<bit>, items: seq<Item>, s: seq<bit>)
    requires Proper(h)
    ensures Spell(h, [Raw(tail)] + items) + s == tail + (Spell(h, items) + s)
    ensures Coded(h, [Raw(tail)] + items) ==> Coded(h, items)
  {
    hide Proper, Spell;
    SpellHead(h, Raw(tail), items);
    Assoc(tail, Spell(h, items), s);
    CodedParts(h, [Raw(tail)], items);
  }

  /** A block that needs no end of band has no correction bits left for one. */
  lemma {:induction false} ClosedTail(v: seq<int>, al: nat, se: nat, eob: nat, k: nat, r: nat, br: seq<bit>)
    requires |v| == DCTSIZE2 && k <= se + 1 <= DCTSIZE2 && LastNew(v, al, se, eob, k)
    ensures !Emit(v, al, se, eob, k, r, br).open ==> Emit(v, al, se, eob, k, r, br).tail == []
    decreases se + 1 - k, r
  {
    hide Mag;
    if k > se {
    } else if Mag(v[k], al) == 0 {
      ClosedTail(v, al, se, eob, k + 1, r + 1, br);
    } else if r > 15 && k <= eob {
      ClosedTail(v, al, se, eob, k, r - 16, []);
    } else if Mag(v[k], al) > 1 {
      ClosedTail(v, al, se, eob, k + 1, r, br + [Mag(v[k], al) % 2]);
    } else {
      ClosedTail(v, al, se, eob, k + 1, 0, []);
    }
  }

  lemma BlockEnds(v: seq<int>, al: nat, ss: nat, se: nat)
    requires |v| == DCTSIZE2 && ss <= se < DCTSIZE2
    ensures var f := Block(v, al, ss, se);
      (!f.open ==> f.tail == []) && (f.items == [] ==> f.open)
  {
    hide Emit, Eob, Mag;
    EobIsLast(v, al, ss, se + 1);
    ClosedTail(v, al, se, Eob(v, al, ss, se + 1), ss, 0, []);
    if Block(v, al, ss, se).items == [] {
      NoSymbols(v, al, se, Eob(v, al, ss, se + 1), ss, 0, []);
    }
  }

  /** Without a pending run a block sends its symbols first. */
  lemma ScanOutsideRun(vs: seq<seq<int>>, al: nat, ss: nat, se: nat)
    requires ss <= se < DCTSIZE2 && Bands(vs) && vs != []
    ensures var f := Block(vs[0], al, ss, se);
      Scan(vs, 0, [], al, ss, se) == f.items + Settle(vs[1..], if f.open then 1 else 0, f.tail, al, ss, se)
  {
    hide Block, Settle;
    BlockEnds(vs[0], al, ss, se);
    var f := Block(vs[0], al, ss, se);
    assert [] + f.tail == f.tail;
  }

  /** What a block with symbols of its own, or outside a run, is followed by. */
  lemma SymbolStep(h: Code, vs: seq<seq<int>>, e: nat, b: seq<bit>, al: nat, ss: nat, se: nat, s: seq<bit>)
    requires Proper(h) && ss <= se < DCTSIZE2 && Bands(vs) && vs != [] && e < MAX_RUN
    requires e > 0 ==> Block(vs[0], al, ss, se).items != []
    requires Coded(h, (if e == 0 then Scan(vs, 0, [], al, ss, se) else After(vs, e, b, al, ss, se).items))
    ensures var f := Block(vs[0], al, ss, se);
      var q := Settled(vs[1..], if f.open then 1 else 0, f.tail, al, ss, se);
      && 1 + q.left <= MAX_RUN && Coded(h, f.items) && Coded(h, q.items) && (f.open ==> Coded(h, RunItems(1 + q.left)))
      && Spell(h, if e == 0 then Scan(vs, 0, [], al, ss, se) else After(vs, e, b, al, ss, se).items) + s
        == Spell(h, f.items) + Closing(h, f, 1 + q.left, Spell(h, q.items) + s)
  {
    hide Proper, Emit, Eob, Spell, Coded, RunItems, RunBits, Scan, Settle, Block;
    var f := Block(vs[0], al, ss, se);
    var t := Settle(vs[1..], if f.open then 1 else 0, f.tail, al, ss, se);
    ScanOutsideRun(vs, al, ss, se);
    SpellPlus(h, f.items, t);
    CodedParts(h, f.items, t);
    var q := Settled(vs[1..], if f.open then 1 else 0, f.tail, al, ss, se);
    if f.open {
      SettleRun(h, vs[1..], 1, f.tail, al, ss, se);
      Assoc(f.tail, Spell(h, q.items), s);
      Assoc(RunBits(h, 1 + q.left), f.tail + Spell(h, q.items), s);
    } else {
      BlockEnds(vs[0], al, ss, se);
      SettleNone(vs[1..], al, ss, se);
    }
    Assoc(Spell(h, f.items), Spell(h, t), s);
  }

  lemma SettleNone(vs: seq<seq<int>>, al: nat, ss: nat, se: nat)
    requires ss <= se < DCTSIZE2 && Bands(vs)
    ensures Settle(vs, 0, [], al, ss, se) == Scan(vs, 0, [], al, ss, se)
  {
    hide Scan;
  }
}
