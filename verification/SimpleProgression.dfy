/** The recommended progressive script of jcparam.c. */
module SimpleProgression {

  import opened ZigZag
  import opened ScanScript

  /** One scan for each of the first n components. */
  function Each(n: nat, ss: int, se: int, ah: int, al: int): (scans: seq<Scan>)
    ensures |scans| == n
  {
    if n == 0 then [] else Each(n - 1, ss, se, ah, al) + [Scan([n - 1], ss, se, ah, al)]
  }

  function UpTo(n: nat): (s: seq<int>)
    ensures |s| == n && forall i :: 0 <= i < n ==> s[i] == i
  {
    seq(n, i => i)
  }

  /** A DC scan of all components, or one each if there are too many. */
  function DcScans(n: nat, ah: int, al: int): (scans: seq<Scan>)
    ensures |scans| == if n <= MAX_COMPS_IN_SCAN then 1 else n
  {
    if n <= MAX_COMPS_IN_SCAN then [Scan(UpTo(n), 0, 0, ah, al)] else Each(n, 0, 0, ah, al)
  }

  /** The script: for YCbCr chroma goes in two scans a component, for others all components are
  treated alike. */
  function Script(n: nat, ycc: bool): (scans: seq<Scan>) {
    if n == 3 && ycc then
      DcScans(n, 0, 1) + [Scan([0], 1, 5, 0, 2)] + [Scan([2], 1, 63, 0, 1)] + [Scan([1], 1, 63, 0, 1)]
      + [Scan([0], 6, 63, 0, 2)] + [Scan([0], 1, 63, 2, 1)] + DcScans(n, 1, 0) + [Scan([2], 1, 63, 1, 0)]
      + [Scan([1], 1, 63, 1, 0)] + [Scan([0], 1, 63, 1, 0)]
    else
      DcScans(n, 0, 1) + Each(n, 1, 5, 0, 2) + Each(n, 6, 63, 0, 2) + Each(n, 1, 63, 2, 1) + DcScans(n, 1, 0)
      + Each(n, 1, 63, 1, 0)
  }

  /** fill_a_scan. */
  method FillAScan(space: array<Scan>, at: nat, ci: int, ss: int, se: int, ah: int, al: int) returns (next: nat)
    requires at < space.Length
    modifies space
    ensures next == at + 1 && space[..next] == old(space[..at]) + [Scan([ci], ss, se, ah, al)]
  {
    space[at] := Scan([ci], ss, se, ah, al);
    next := at + 1;
  }

  /** fill_scans. */
  method FillScans(space: array<Scan>, at: nat, ncomps: nat, ss: int, se: int, ah: int, al: int) returns (next: nat)
    requires at + ncomps <= space.Length
    modifies space
    ensures next == at + ncomps && space[..next] == old(space[..at]) + Each(ncomps, ss, se, ah, al)
  {
    next := at;
    for ci := 0 to ncomps
      invariant next == at + ci && space[..next] == old(space[..at]) + Each(ci, ss, se, ah, al)
    {
      space[next] := Scan([ci], ss, se, ah, al);
      next := next + 1;
    }
  }

  /** fill_dc_scans. */
  method FillDcScans(space: array<Scan>, at: nat, ncomps: nat, ah: int, al: int) returns (next: nat)
    requires at + |DcScans(ncomps, ah, al)| <= space.Length
    modifies space
    ensures next == at + |DcScans(ncomps, ah, al)| && space[..next] == old(space[..at]) + DcScans(ncomps, ah, al)
  {
    if ncomps <= MAX_COMPS_IN_SCAN {
      space[at] := Scan(UpTo(ncomps), 0, 0, ah, al);
      next := at + 1;
    } else {
      next := FillScans(space, at, ncomps, 0, 0, ah, al);
    }
  }

  /** jpeg_simple_progression: the script just fills the space reckoned for it. */
  method SimpleProgression(scriptSpace: array<Scan>, ncomps: nat, ycc: bool) returns (space: array<Scan>, nscans: nat)
    requires 1 <= ncomps <= MAX_COMPONENTS
    modifies scriptSpace
    ensures space == scriptSpace || fresh(space)
    ensures nscans <= space.Length && space[..nscans] == Script(ncomps, ycc)
  {
    if ncomps == 3 && ycc {
      nscans := 10;
    } else if ncomps > MAX_COMPS_IN_SCAN {
      nscans := 6 * ncomps;
    } else {
      nscans := 2 + 4 * ncomps;
    }
    space := scriptSpace;
    if space.Length < nscans {
      space := new Scan[if nscans > 10 then nscans else 10](_ => Scan([], 0, 0, 0, 0));
    }
    if ncomps == 3 && ycc {
      FillYcc(space);
    } else {
      FillGeneral(space, ncomps, nscans);
    }
  }

  method FillYcc(space: array<Scan>)
    requires 10 <= space.Length
    modifies space
    ensures space[..10] == Script(3, true)
  {
    hide Each, DcScans;
    var at := 0;
    assert space[..0] == [];
    at := FillDcScans(space, at, 3, 0, 1);
    assert space[..at] == DcScans(3, 0, 1);
    at := FillAScan(space, at, 0, 1, 5, 0, 2);
    at := FillAScan(space, at, 2, 1, 63, 0, 1);
    at := FillAScan(space, at, 1, 1, 63, 0, 1);
    at := FillAScan(space, at, 0, 6, 63, 0, 2);
    at := FillAScan(space, at, 0, 1, 63, 2, 1);
    at := FillDcScans(space, at, 3, 1, 0);
    at := FillAScan(space, at, 2, 1, 63, 1, 0);
    at := FillAScan(space, at, 1, 1, 63, 1, 0);
    at := FillAScan(space, at, 0, 1, 63, 1, 0);
  }

  method FillGeneral(space: array<Scan>, ncomps: nat, nscans: nat)
    requires nscans <= space.Length && nscans == if ncomps > MAX_COMPS_IN_SCAN then 6 * ncomps else 2 + 4 * ncomps
    modifies space
    ensures space[..nscans] == Script(ncomps, false)
  {
    hide Each, DcScans;
    var at := 0;
    assert space[..0] == [];
    at := FillDcScans(space, at, ncomps, 0, 1);
    assert space[..at] == DcScans(ncomps, 0, 1);
    at := FillScans(space, at, ncomps, 1, 5, 0, 2);
    at := FillScans(space, at, ncomps, 6, 63, 0, 2);
    at := FillScans(space, at, ncomps, 1, 63, 2, 1);
    at := FillDcScans(space, at, ncomps, 1, 0);
    at := FillScans(space, at, ncomps, 1, 63, 1, 0);
    assert at == nscans;
  }

  /** How far component c is: its DC precision, that of the low band and that of the high band. */
  ghost predicate At(scans: seq<Scan>, c: int, dc: int, low: int, high: int) {
    && LastAl(scans, c, 0) == dc && (forall k :: 1 <= k <= 5 ==> LastAl(scans, c, k) == low)
    && forall k :: 6 <= k < DCTSIZE2 ==> LastAl(scans, c, k) == high
  }

  ghost predicate AllAt(scans: seq<Scan>, n: nat, dc: int, low: int, high: int) {
    forall c :: 0 <= c < n ==> At(scans, c, dc, low, high)
  }

  /** What an AC scan of a band needs and does. */
  predicate Band(ss: int, se: int) {
    (ss == 1 && se == 5) || (ss == 6 && se == 63) || (ss == 1 && se == 63)
  }

  predicate Fits(dc: int, low: int, high: int, ss: int, se: int, ah: int, al: int) {
    && Band(ss, se) && dc >= 0 && 0 <= al <= 2 && 0 <= ah <= 2
    && (if ah == 0 then true else al == ah - 1)
    && (ss == 1 ==> low == if ah == 0 then -1 else ah) && (se == 63 ==> high == if ah == 0 then -1 else ah)
  }

  lemma AcScan(scans: seq<Scan>, n: nat, c: nat, dc: int, low: int, high: int, ss: int, se: int, ah: int, al: int)
    requires Legal(scans, n) && c < n && At(scans, c, dc, low, high) && Fits(dc, low, high, ss, se, ah, al)
    ensures Legal(scans + [Scan([c], ss, se, ah, al)], n)
    ensures At(scans + [Scan([c], ss, se, ah, al)], c, dc, if ss == 1 then al else low, if se == 63 then al else high)
  {
    var s := Scan([c], ss, se, ah, al);
    LegalNext(scans, s, n);
    assert forall k :: LastAl(scans + [s], c, k) == if Covers(s, c, k) then s.al else LastAl(scans, c, k) by {
      forall k {
        LastAlNext(scans, s, c, k);
      }
    }
    assert Continues(scans, s) by {
      forall k | ss <= k <= se
        ensures ContinuesAt(scans, s, c, k)
      {
      }
    }
  }

  lemma Elsewhere(scans: seq<Scan>, s: Scan, c: int, dc: int, low: int, high: int)
    requires At(scans, c, dc, low, high) && c !in s.comps
    ensures At(scans + [s], c, dc, low, high)
  {
    forall k
      ensures LastAl(scans + [s], c, k) == LastAl(scans, c, k)
    {
      LastAlNext(scans, s, c, k);
    }
  }

  function Moved(was: int, sent: bool, al: int): int {
    if sent then al else was
  }

  lemma {:induction false} EachScan(scans: seq<Scan>, n: nat, m: nat, dc: int, low: int, high: int, ss: int, se: int, ah: int, al: int,
      low1: int, high1: int)
    requires m <= n && Legal(scans, n) && AllAt(scans, n, dc, low, high) && Fits(dc, low, high, ss, se, ah, al)
    requires low1 == Moved(low, ss == 1, al) && high1 == Moved(high, se == 63, al)
    ensures Legal(scans + Each(m, ss, se, ah, al), n)
    ensures forall c :: 0 <= c < m ==> At(scans + Each(m, ss, se, ah, al), c, dc, low1, high1)
    ensures forall c :: m <= c < n ==> At(scans + Each(m, ss, se, ah, al), c, dc, low, high)
  {
    hide At, Legal, Fits;
    if m == 0 {
      assert scans + [] == scans;
    } else {
      EachScan(scans, n, m - 1, dc, low, high, ss, se, ah, al, low1, high1);
      var before, s := scans + Each(m - 1, ss, se, ah, al), Scan([m - 1], ss, se, ah, al);
      assert scans + Each(m, ss, se, ah, al) == before + [s];
      AcScan(before, n, m - 1, dc, low, high, ss, se, ah, al);
      forall c | 0 <= c < m - 1
        ensures At(before + [s], c, dc, low1, high1)
      {
        Elsewhere(before, s, c, dc, low1, high1);
      }
      forall c | m <= c < n
        ensures At(before + [s], c, dc, low, high)
      {
        Elsewhere(before, s, c, dc, low, high);
      }
    }
  }

  lemma AcPhase(scans: seq<Scan>, n: nat, dc: int, low: int, high: int, ss: int, se: int, ah: int, al: int, low1: int, high1: int)
    requires Legal(scans, n) && AllAt(scans, n, dc, low, high) && Fits(dc, low, high, ss, se, ah, al)
    requires low1 == Moved(low, ss == 1, al) && high1 == Moved(high, se == 63, al)
    ensures Legal(scans + Each(n, ss, se, ah, al), n) && AllAt(scans + Each(n, ss, se, ah, al), n, dc, low1, high1)
  {
    EachScan(scans, n, n, dc, low, high, ss, se, ah, al, low1, high1);
  }

  predicate DcFits(dc: int, ah: int, al: int) {
    0 <= al <= 2 && 0 <= ah <= 2 && if ah == 0 then dc == -1 else dc == ah && al == ah - 1
  }

  /** One DC scan of some components. */
  lemma DcScan(scans: seq<Scan>, n: nat, s: Scan, dc: int, low: int, high: int)
    requires Legal(scans, n) && Ordered(s, n) && s.ss == s.se == 0 && DcFits(dc, s.ah, s.al)
    requires forall c :: c in s.comps ==> At(scans, c, dc, low, high)
    ensures Legal(scans + [s], n) && forall c :: c in s.comps ==> At(scans + [s], c, s.al, low, high)
  {
    LegalNext(scans, s, n);
    forall c, k | c in s.comps
      ensures LastAl(scans + [s], c, k) == if k == 0 then s.al else LastAl(scans, c, k)
    {
      LastAlNext(scans, s, c, k);
    }
  }

  lemma {:induction false} EachDcScan(scans: seq<Scan>, n: nat, m: nat, dc: int, low: int, high: int, ah: int, al: int)
    requires m <= n && Legal(scans, n) && AllAt(scans, n, dc, low, high) && DcFits(dc, ah, al)
    ensures Legal(scans + Each(m, 0, 0, ah, al), n)
    ensures forall c :: 0 <= c < m ==> At(scans + Each(m, 0, 0, ah, al), c, al, low, high)
    ensures forall c :: m <= c < n ==> At(scans + Each(m, 0, 0, ah, al), c, dc, low, high)
  {
    hide At, Legal, DcFits;
    if m == 0 {
      assert scans + [] == scans;
    } else {
      EachDcScan(scans, n, m - 1, dc, low, high, ah, al);
      var before, s := scans + Each(m - 1, 0, 0, ah, al), Scan([m - 1], 0, 0, ah, al);
      assert scans + Each(m, 0, 0, ah, al) == before + [s];
      DcScan(before, n, s, dc, low, high);
      forall c | 0 <= c < m - 1
        ensures At(before + [s], c, al, low, high)
      {
        Elsewhere(before, s, c, al, low, high);
      }
      forall c | m <= c < n
        ensures At(before + [s], c, dc, low, high)
      {
        Elsewhere(before, s, c, dc, low, high);
      }
    }
  }

  lemma DcPhase(scans: seq<Scan>, n: nat, dc: int, low: int, high: int, ah: int, al: int)
    requires 0 < n && Legal(scans, n) && AllAt(scans, n, dc, low, high) && DcFits(dc, ah, al)
    ensures Legal(scans + DcScans(n, ah, al), n) && AllAt(scans + DcScans(n, ah, al), n, al, low, high)
  {
    hide At, Legal, DcFits;
    if n <= MAX_COMPS_IN_SCAN {
      var s := Scan(UpTo(n), 0, 0, ah, al);
      assert forall c :: 0 <= c < n ==> c in s.comps by {
        forall c | 0 <= c < n ensures c in s.comps {
          assert s.comps[c] == c;
        }
      }
      DcScan(scans, n, s, dc, low, high);
    } else {
      EachDcScan(scans, n, n, dc, low, high, ah, al);
    }
  }

  /** An AC scan of one component among others. */
  lemma OneScan(scans: seq<Scan>, n: nat, c: nat, dc: int, low: int, high: int, ss: int, se: int, ah: int, al: int, low1: int, high1: int,
      d: nat, dlow: int, dhigh: int, e: nat, elow: int, ehigh: int)
    requires Legal(scans, n) && c < n && At(scans, c, dc, low, high) && Fits(dc, low, high, ss, se, ah, al)
    requires low1 == Moved(low, ss == 1, al) && high1 == Moved(high, se == 63, al)
    requires c != d && c != e && At(scans, d, dc, dlow, dhigh) && At(scans, e, dc, elow, ehigh)
    ensures var now := scans + [Scan([c], ss, se, ah, al)];
      Legal(now, n) && At(now, c, dc, low1, high1) && At(now, d, dc, dlow, dhigh) && At(now, e, dc, elow, ehigh)
  {
    hide At, Legal, Fits;
    AcScan(scans, n, c, dc, low, high, ss, se, ah, al);
    Elsewhere(scans, Scan([c], ss, se, ah, al), d, dc, dlow, dhigh);
    Elsewhere(scans, Scan([c], ss, se, ah, al), e, dc, elow, ehigh);
  }

  lemma NothingSent(n: nat)
    ensures Legal([], n) && AllAt([], n, -1, -1, -1)
  {
  }

  lemma GeneralScript(n: nat)
    requires 1 <= n <= MAX_COMPONENTS
    ensures Legal(Script(n, false), n) && AllAt(Script(n, false), n, 0, 0, 0)
  {
    hide At, Legal, Each, DcScans, AllAt;
    NothingSent(n);
    var a := DcScans(n, 0, 1);
    assert [] + a == a;
    DcPhase([], n, -1, -1, -1, 0, 1);
    AcPhase(a, n, 1, -1, -1, 1, 5, 0, 2, 2, -1);
    var b := a + Each(n, 1, 5, 0, 2);
    AcPhase(b, n, 1, 2, -1, 6, 63, 0, 2, 2, 2);
    b := b + Each(n, 6, 63, 0, 2);
    AcPhase(b, n, 1, 2, 2, 1, 63, 2, 1, 1, 1);
    b := b + Each(n, 1, 63, 2, 1);
    DcPhase(b, n, 1, 1, 1, 1, 0);
    b := b + DcScans(n, 1, 0);
    AcPhase(b, n, 0, 1, 1, 1, 63, 1, 0, 0, 0);
  }

  lemma YccScript()
    ensures Legal(Script(3, true), 3) && AllAt(Script(3, true), 3, 0, 0, 0)
  {
    hide At, Legal, Each, DcScans;
    NothingSent(3);
    var b := DcScans(3, 0, 1);
    assert [] + b == b;
    DcPhase([], 3, -1, -1, -1, 0, 1);
    OneScan(b, 3, 0, 1, -1, -1, 1, 5, 0, 2, 2, -1, 1, -1, -1, 2, -1, -1);
    b := b + [Scan([0], 1, 5, 0, 2)];
    OneScan(b, 3, 2, 1, -1, -1, 1, 63, 0, 1, 1, 1, 0, 2, -1, 1, -1, -1);
    b := b + [Scan([2], 1, 63, 0, 1)];
    OneScan(b, 3, 1, 1, -1, -1, 1, 63, 0, 1, 1, 1, 0, 2, -1, 2, 1, 1);
    b := b + [Scan([1], 1, 63, 0, 1)];
    OneScan(b, 3, 0, 1, 2, -1, 6, 63, 0, 2, 2, 2, 1, 1, 1, 2, 1, 1);
    b := b + [Scan([0], 6, 63, 0, 2)];
    OneScan(b, 3, 0, 1, 2, 2, 1, 63, 2, 1, 1, 1, 1, 1, 1, 2, 1, 1);
    b := b + [Scan([0], 1, 63, 2, 1)];
    assert AllAt(b, 3, 1, 1, 1);
    DcPhase(b, 3, 1, 1, 1, 1, 0);
    b := b + DcScans(3, 1, 0);
    OneScan(b, 3, 2, 0, 1, 1, 1, 63, 1, 0, 0, 0, 0, 1, 1, 1, 1, 1);
    b := b + [Scan([2], 1, 63, 1, 0)];
    OneScan(b, 3, 1, 0, 1, 1, 1, 63, 1, 0, 0, 0, 0, 1, 1, 2, 0, 0);
    b := b + [Scan([1], 1, 63, 1, 0)];
    OneScan(b, 3, 0, 0, 1, 1, 1, 63, 1, 0, 0, 0, 1, 0, 0, 2, 0, 0);
  }

  /** The script has as many scans as reckoned, is acceptable, and ends with every coefficient
  of a decoder exact. */
  lemma ScriptComplete(n: nat, ycc: bool)
    requires 1 <= n <= MAX_COMPONENTS
    ensures Acceptable(Script(n, ycc), n) && SaysProgressive(Script(n, ycc))
    ensures forall c, k, x :: 0 <= c < n && 0 <= k < DCTSIZE2 && -32768 < x < 32768 ==> Decoded(Script(n, ycc), c, k, x) == x
  {
    var s := Script(n, ycc);
    if n == 3 && ycc {
      YccScript();
    } else {
      GeneralScript(n);
    }
    FirstIsDc(n, ycc);
    forall c, k, x | 0 <= c < n && 0 <= k < DCTSIZE2 && -32768 < x < 32768
      ensures Decoded(s, c, k, x) == x
    {
      assert At(s, c, 0, 0, 0);
      Meaning(s, n, c, k, x);
      FullPrecision(k, x);
    }
    forall c | 0 <= c < n
      ensures LastAl(s, c, 0) >= 0
    {
      assert At(s, c, 0, 0, 0);
    }
  }

  lemma FirstIsDc(n: nat, ycc: bool)
    requires 1 <= n
    ensures Script(n, ycc) != [] && SaysProgressive(Script(n, ycc))
  {
    EachFirst(n);
    assert DcScans(n, 0, 1)[0].se == 0;
    assert Script(n, ycc)[0] == DcScans(n, 0, 1)[0];
  }

  lemma {:induction false} EachFirst(n: nat)
    requires 1 <= n
    ensures Each(n, 0, 0, 0, 1)[0].se == 0
  {
    if n > 1 {
      EachFirst(n - 1);
    }
  }

  lemma {:induction false} EachAt(n: nat, ss: int, se: int, ah: int, al: int, c: nat)
    requires c < n
    ensures Each(n, ss, se, ah, al)[c] == Scan([c], ss, se, ah, al)
  {
    if c < n - 1 {
      EachAt(n - 1, ss, se, ah, al, c);
    }
  }

  /** The script for YCbCr, scan by scan. */
  lemma YccLaw()
    ensures Script(3, true) == [
      Scan([0, 1, 2], 0, 0, 0, 1),
      Scan([0], 1, 5, 0, 2),
      Scan([2], 1, 63, 0, 1),
      Scan([1], 1, 63, 0, 1),
      Scan([0], 6, 63, 0, 2),
      Scan([0], 1, 63, 2, 1),
      Scan([0, 1, 2], 0, 0, 1, 0),
      Scan([2], 1, 63, 1, 0),
      Scan([1], 1, 63, 1, 0),
      Scan([0], 1, 63, 1, 0)]
  {
    assert UpTo(3) == [0, 1, 2];
  }

  /** Any other script: one DC scan first and one before the last four, or one for each component
  if there are more than four; four AC scans for each component, c being any of them. */
  lemma ScriptLaw(n: nat, ycc: bool, c: nat)
    requires c < n && !(n == 3 && ycc)
    ensures n <= 4 ==>
      var s := Script(n, ycc);
      && |s| == 2 + 4 * n && s[0] == Scan(UpTo(n), 0, 0, 0, 1) && s[1 + 3 * n] == Scan(UpTo(n), 0, 0, 1, 0)
      && s[1 + c] == Scan([c], 1, 5, 0, 2) && s[1 + n + c] == Scan([c], 6, 63, 0, 2)
      && s[1 + 2 * n + c] == Scan([c], 1, 63, 2, 1) && s[2 + 3 * n + c] == Scan([c], 1, 63, 1, 0)
    ensures n > 4 ==>
      var s := Script(n, ycc);
      && |s| == 6 * n && s[c] == Scan([c], 0, 0, 0, 1) && s[n + c] == Scan([c], 1, 5, 0, 2)
      && s[2 * n + c] == Scan([c], 6, 63, 0, 2) && s[3 * n + c] == Scan([c], 1, 63, 2, 1)
      && s[4 * n + c] == Scan([c], 0, 0, 1, 0) && s[5 * n + c] == Scan([c], 1, 63, 1, 0)
  {
    hide Each, UpTo;
    EachAt(n, 0, 0, 0, 1, c);
    EachAt(n, 0, 0, 1, 0, c);
    EachAt(n, 1, 5, 0, 2, c);
    EachAt(n, 6, 63, 0, 2, c);
    EachAt(n, 1, 63, 2, 1, c);
    EachAt(n, 1, 63, 1, 0, c);
  }
}
