/** The coding interval of Annex D of ITU-T Rec. T.81 on unbounded integers.

This is the reference both arithmetic coders are proved against.  A state holds the
exact lower end of the interval, its width, and how often the interval has been
doubled; it knows nothing of registers, carries, stacked bytes or markers. */
module IntervalCoder {

  import opened CodeString
  import opened ProbabilityTable

  datatype Decision = Decision(ctx: nat, val: bit)

  /** The interval [low, low + a) out of [0, 2^(16 + n)), and the statistics bins. */
  datatype Coder = Coder(low: nat, a: nat, n: nat, bins: seq<byte>)

  ghost predicate ValidBins(bins: seq<byte>) {
    forall i :: 0 <= i < |bins| ==> ValidBin(bins[i])
  }

  /** A state between two decisions: the width is normalised. */
  ghost predicate ValidCoder(s: Coder) {
    && 0x8000 <= s.a <= 0x10000
    && s.low + s.a <= Shl(1, 16 + s.n)
    && ValidBins(s.bins)
  }

  function Start(bins: seq<byte>): Coder {
    Coder(0, 0x10000, 0, bins)
  }

  /** The more probable symbol of a bin. */
  function Sense(sv: byte): bit {
    sv / 128
  }

  /** A bin with the given sense and state. */
  function Bin(sense: bit, state: int): (r: byte)
    requires 0 <= state <= LAST_STATE
    ensures ValidBin(r) && Sense(r) == sense
  {
    128 * sense + state
  }

  /** Estimate_after_LPS: the sense may flip. */
  function AfterLps(sv: byte): (r: byte)
    requires ValidBin(sv)
    ensures ValidBin(r)
  {
    var e := JpegAritab(sv % 128);
    Bin(if Sense(sv) != e.switchMps then 1 else 0, e.nextLps)
  }

  /** Estimate_after_MPS: the sense stays. */
  function AfterMps(sv: byte): (r: byte)
    requires ValidBin(sv)
    ensures ValidBin(r) && Sense(r) == Sense(sv)
  {
    Bin(Sense(sv), JpegAritab(sv % 128).nextMps)
  }

  /** State 113, the fixed estimate, is absorbing, and no other state leads to it. */
  lemma FixedEstimate(sv: byte)
    requires ValidBin(sv)
    ensures AfterLps(sv) % 128 == LAST_STATE <==> sv % 128 == LAST_STATE
    ensures AfterMps(sv) % 128 == LAST_STATE <==> sv % 128 == LAST_STATE
    ensures sv % 128 == LAST_STATE ==> AfterLps(sv) == AfterMps(sv) == sv
  {
    var e := JpegAritab(sv % 128);
    BinIndex(if Sense(sv) != e.switchMps then 1 else 0, e.nextLps);
    BinIndex(Sense(sv), e.nextMps);
  }

  lemma BinIndex(sense: bit, state: int)
    requires 0 <= state <= LAST_STATE
    ensures Bin(sense, state) % 128 == state
  {
  }

  /** Narrow the interval for one decision, before renormalisation. */
  function Split(s: Coder, ctx: nat, val: bit): Coder
    requires ctx < |s.bins| && ValidBin(s.bins[ctx]) && s.a >= 0x8000
  {
    var sv := s.bins[ctx];
    var qe := JpegAritab(sv % 128).qe;
    var am := s.a - qe;
    if val != Sense(sv) then
      var t := if am >= qe then Coder(s.low + am, qe, s.n, s.bins) else s.(a := am);
      t.(bins := s.bins[ctx := AfterLps(sv)])
    else if am >= 0x8000 then
      s.(a := am)
    else
      var t := if am < qe then Coder(s.low + am, qe, s.n, s.bins) else s.(a := am);
      t.(bins := s.bins[ctx := AfterMps(sv)])
  }

  /** Double until the width is back at 0x8000 or above. */
  function Renorm(s: Coder): (t: Coder)
    requires s.a > 0
    ensures t.bins == s.bins && t.a >= 0x8000
    decreases 0x8000 - s.a
  {
    if s.a >= 0x8000 then s
    else Renorm(Coder(2 * s.low, 2 * s.a, s.n + 1, s.bins))
  }

  function Step(s: Coder, d: Decision): (t: Coder)
    requires ValidCoder(s) && d.ctx < |s.bins|
    ensures ValidCoder(t) && |t.bins| == |s.bins|
  {
    SplitValid(s, d.ctx, d.val);
    RenormValid(Split(s, d.ctx, d.val));
    Renorm(Split(s, d.ctx, d.val))
  }

  ghost predicate InRange(ds: seq<Decision>, n: nat) {
    forall i :: 0 <= i < |ds| ==> ds[i].ctx < n
  }

  /** A whole run of decisions. */
  function Run(s: Coder, ds: seq<Decision>): (t: Coder)
    requires ValidCoder(s) && InRange(ds, |s.bins|)
    ensures ValidCoder(t) && |t.bins| == |s.bins|
  {
    if ds == [] then s else Step(Run(s, ds[..|ds| - 1]), ds[|ds| - 1])
  }

  lemma SplitValid(s: Coder, ctx: nat, val: bit)
    requires ValidCoder(s) && ctx < |s.bins|
    ensures var t := Split(s, ctx, val);
      && 0 < t.a <= 0x10000 && t.n == s.n
      && s.low <= t.low && t.low + t.a <= s.low + s.a
      && ValidBins(t.bins) && |t.bins| == |s.bins|
  {
    hide JpegAritab, AfterLps, AfterMps, Shl;
  }

  lemma {:induction false} RenormValid(s: Coder)
    requires 0 < s.a <= 0x10000
    requires s.low + s.a <= Shl(1, 16 + s.n)
    ensures var t := Renorm(s);
      && 0x8000 <= t.a <= 0x10000 && t.bins == s.bins
      && t.low + t.a <= Shl(1, 16 + t.n)
    decreases 0x8000 - s.a
  {
    if s.a < 0x8000 {
      RenormValid(Coder(2 * s.low, 2 * s.a, s.n + 1, s.bins));
    }
  }

  /** The code string, read as a binary fraction, lies in the interval. */
  ghost predicate Inside(data: seq<byte>, s: Coder) {
    s.low <= Bits(data, 16 + s.n) < s.low + s.a
  }

  lemma {:induction false} RenormInside(data: seq<byte>, s: Coder)
    requires s.a > 0
    ensures Inside(data, Renorm(s)) <==> Inside(data, s)
    decreases 0x8000 - s.a
  {
    if s.a < 0x8000 {
      var t := Coder(2 * s.low, 2 * s.a, s.n + 1, s.bins);
      RenormInside(data, t);
      assert Bits(data, 16 + t.n) == 2 * Bits(data, 16 + s.n) + BitAt(data, 16 + s.n);
    }
  }

  /** The decision whose sub-interval holds the code string. */
  function Decide(data: seq<byte>, s: Coder, ctx: nat): bit
    requires ctx < |s.bins| && ValidBin(s.bins[ctx]) && s.a >= 0x8000
  {
    var sv := s.bins[ctx];
    var qe := JpegAritab(sv % 128).qe;
    var am := s.a - qe;
    if (Bits(data, 16 + s.n) >= s.low + am) == (am < qe) then Sense(sv) else 1 - Sense(sv)
  }

  /** The two sub-intervals of a decision partition the interval: a code string inside
  the interval is inside exactly one of them, the one Decide names. */
  lemma DecideIsUnique(data: seq<byte>, s: Coder, d: Decision)
    requires ValidCoder(s) && d.ctx < |s.bins|
    ensures Inside(data, Step(s, d)) <==> Inside(data, s) && Decide(data, s, d.ctx) == d.val
  {
    hide JpegAritab, AfterLps, AfterMps, Bits, Renorm;
    SplitValid(s, d.ctx, d.val);
    RenormInside(data, Split(s, d.ctx, d.val));
  }

  /** Decoding is lockstep: a code string inside the final interval of a run replays it. */
  lemma {:induction false} Replay(data: seq<byte>, s: Coder, ds: seq<Decision>, i: nat)
    requires ValidCoder(s) && InRange(ds, |s.bins|) && i <= |ds|
    requires Inside(data, Run(s, ds))
    ensures Inside(data, Run(s, ds[..i]))
    ensures i < |ds| ==> Decide(data, Run(s, ds[..i]), ds[i].ctx) == ds[i].val
    decreases |ds| - i
  {
    if i == |ds| {
      assert ds[..i] == ds;
    } else {
      Replay(data, s, ds, i + 1);
      assert ds[..i + 1][..i] == ds[..i];
      DecideIsUnique(data, Run(s, ds[..i]), ds[i]);
    }
  }

  lemma {:induction false} RunAppend(s: Coder, ds: seq<Decision>, es: seq<Decision>)
    requires ValidCoder(s) && InRange(ds, |s.bins|) && InRange(es, |s.bins|)
    ensures Run(s, ds + es) == Run(Run(s, ds), es)
  {
    if es == [] {
      assert ds + [] == ds;
    } else {
      var fs, e := es[..|es| - 1], es[|es| - 1];
      RunAppend(s, ds, fs);
      assert (ds + es)[..|ds + es| - 1] == ds + fs;
    }
  }

  lemma RunOne(s: Coder, d: Decision)
    requires ValidCoder(s) && d.ctx < |s.bins|
    ensures Run(s, [d]) == Step(s, d)
  {
    assert [d][..0] == [];
  }

  lemma RangeAppend(ds: seq<Decision>, es: seq<Decision>, n: nat)
    ensures InRange(ds + es, n) <==> InRange(ds, n) && InRange(es, n)
  {
    var fs := ds + es;
    if InRange(fs, n) {
      forall i | 0 <= i < |ds|
        ensures ds[i].ctx < n
      {
        assert fs[i] == ds[i];
      }
      forall i | 0 <= i < |es|
        ensures es[i].ctx < n
      {
        assert fs[|ds| + i] == es[i];
      }
    }
  }

  /** A code string inside the interval after ds + es decides the first of them alike. */
  lemma FirstDecision(data: seq<byte>, s: Coder, d: Decision, es: seq<Decision>)
    requires ValidCoder(s) && InRange([d] + es, |s.bins|)
    requires Inside(data, Run(s, [d] + es))
    ensures d.ctx < |s.bins| && InRange(es, |s.bins|)
    ensures Decide(data, s, d.ctx) == d.val && Inside(data, Run(Step(s, d), es))
  {
    hide Run, Step, Inside, Decide;
    RangeAppend([d], es, |s.bins|);
    assert [d][0] == d;
    RunOne(s, d);
    RunAppend(s, [d], es);
    var ds := [d] + es;
    Replay(data, s, ds, 1);
    assert ds[..1] == [d];
    DecideIsUnique(data, s, d);
  }
}
