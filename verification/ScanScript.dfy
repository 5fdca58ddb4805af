/** Progressive scan scripts: when jcmaster.c accepts one, and what the scans convey. */
module ScanScript {

  import opened CodeString
  import opened ZigZag
  import opened Coefficients
  import opened RefineSpec
  import opened RefineEncoding
  import RefineRoundTrip
  import CanonicalCode

  /** jpeg_scan_info. */
  datatype Scan = Scan(comps: seq<int>, ss: int, se: int, ah: int, al: int)

  const MAX_COMPS_IN_SCAN := 4
  const MAX_COMPONENTS := 10
  const MAX_AH_AL := 10

  predicate Covers(s: Scan, c: int, k: int) {
    c in s.comps && s.ss <= k <= s.se
  }

  /** The precision of a coefficient after some scans: its last Al, -1 if it was never sent. */
  function LastAl(scans: seq<Scan>, c: int, k: int): int {
    if scans == [] then -1
    else
      var s := scans[|scans| - 1];
      if Covers(s, c, k) then s.al else LastAl(scans[..|scans| - 1], c, k)
  }

  lemma LastAlNext(scans: seq<Scan>, s: Scan, c: int, k: int)
    ensures LastAl(scans + [s], c, k) == if Covers(s, c, k) then s.al else LastAl(scans, c, k)
  {
    assert (scans + [s])[..|scans|] == scans;
  }

  /** The components of a scan exist and come in the order of the frame header. */
  predicate Ordered(s: Scan, ncomps: nat) {
    && 0 < |s.comps| <= MAX_COMPS_IN_SCAN && (forall i :: 0 <= i < |s.comps| ==> 0 <= s.comps[i] < ncomps)
    && forall i, j :: 0 <= i < j < |s.comps| ==> s.comps[i] < s.comps[j]
  }

  predicate InRange(s: Scan) {
    && 0 <= s.ss <= s.se < DCTSIZE2 && 0 <= s.ah <= MAX_AH_AL && 0 <= s.al <= MAX_AH_AL
    && (if s.ss == 0 then s.se == 0 else |s.comps| == 1)
  }

  /** A scan goes on where the ones before left off: a first pass, or one bit more. */
  ghost predicate ContinuesAt(before: seq<Scan>, s: Scan, c: int, k: int) {
    if LastAl(before, c, k) < 0 then s.ah == 0 else s.ah == LastAl(before, c, k) && s.al == s.ah - 1
  }

  ghost predicate Continues(before: seq<Scan>, s: Scan) {
    forall c | c in s.comps :: ContinuesIn(before, s, c)
  }

  ghost predicate ContinuesIn(before: seq<Scan>, s: Scan, c: int) {
    (s.ss != 0 ==> LastAl(before, c, 0) >= 0) && forall k | s.ss <= k <= s.se :: ContinuesAt(before, s, c, k)
  }

  ghost predicate LegalScan(before: seq<Scan>, s: Scan, ncomps: nat) {
    Ordered(s, ncomps) && InRange(s) && Continues(before, s)
  }

  /** Every scan of a progressive script is legal after those before it. */
  ghost predicate Legal(scans: seq<Scan>, ncomps: nat) {
    scans == [] || (Legal(scans[..|scans| - 1], ncomps) && LegalScan(scans[..|scans| - 1], scans[|scans| - 1], ncomps))
  }

  lemma LegalNext(scans: seq<Scan>, s: Scan, ncomps: nat)
    ensures Legal(scans + [s], ncomps) <==> Legal(scans, ncomps) && LegalScan(scans, s, ncomps)
  {
    assert (scans + [s])[..|scans|] == scans;
  }

  lemma {:induction false} LegalPrefix(scans: seq<Scan>, ncomps: nat, n: nat)
    requires Legal(scans, ncomps) && n <= |scans|
    ensures Legal(scans[..n], ncomps)
  {
    if n < |scans| {
      LegalPrefix(scans[..|scans| - 1], ncomps, n);
      assert scans[..|scans| - 1][..n] == scans[..n];
    } else {
      assert scans[..n] == scans;
    }
  }

  /** A sequential script sends every component whole and once. */
  ghost predicate Whole(s: Scan, ncomps: nat) {
    Ordered(s, ncomps) && s.ss == 0 && s.se == DCTSIZE2 - 1 && s.ah == 0 && s.al == 0
  }

  ghost predicate Sent(scans: seq<Scan>, c: int) {
    exists i :: 0 <= i < |scans| && c in scans[i].comps
  }

  ghost predicate Sequential(scans: seq<Scan>, ncomps: nat) {
    && (forall i :: 0 <= i < |scans| ==> Whole(scans[i], ncomps))
    && (forall i, j, c :: 0 <= i < j < |scans| && c in scans[i].comps ==> c !in scans[j].comps)
    && forall c :: 0 <= c < ncomps ==> Sent(scans, c)
  }

  ghost predicate Progressive(scans: seq<Scan>, ncomps: nat) {
    Legal(scans, ncomps) && forall c :: 0 <= c < ncomps ==> LastAl(scans, c, 0) >= 0
  }

  predicate SaysProgressive(scans: seq<Scan>)
    requires scans != []
  {
    scans[0].ss != 0 || scans[0].se != DCTSIZE2 - 1
  }

  ghost predicate Acceptable(scans: seq<Scan>, ncomps: nat) {
    scans != [] && if SaysProgressive(scans) then Progressive(scans, ncomps) else Sequential(scans, ncomps)
  }

  /** `block[0] |= p1`. */
  function OrBit(c: int, al: nat): int {
    if BitSet(c, al) then c else Short(c + Shl(1, al))
  }

  /** What a scan makes of a decoder's coefficient k, now cur, if the image has x: the first DC
  pass sends x >> Al, the first AC pass the magnitude shifted, refinement passes one bit. */
  function Update(k: int, x: int, cur: int, ah: nat, al: nat): int {
    if k == 0 then
      if ah == 0 then Short(Shl(AShr(x, al), al))
      else if AShr(x, al) % 2 == 1 then OrBit(cur, al) else cur
    else if ah == 0 then
      if Mag(x, al) == 0 then cur else Short(if x < 0 then -Shl(Mag(x, al), al) else Shl(Mag(x, al), al))
    else if cur != 0 then
      if Mag(x, al) % 2 == 1 then Correct(cur, al) else cur
    else if Mag(x, al) == 1 then if x < 0 then -Shl(1, al) else Shl(1, al)
    else cur
  }

  /** A decoder's coefficient k of component c after some scans. */
  function Decoded(scans: seq<Scan>, c: int, k: int, x: int): int {
    if scans == [] then 0
    else
      var s, cur := scans[|scans| - 1], Decoded(scans[..|scans| - 1], c, k, x);
      if Covers(s, c, k) && s.ah >= 0 && s.al >= 0 then Update(k, x, cur, s.ah, s.al) else cur
  }

  /** The original with only the bits from al up: DC in two's complement, AC in magnitude. */
  function Truncated(k: int, x: int, al: nat): int {
    if k == 0 then Shl(AShr(x, al), al) else Trunc(x, al)
  }

  lemma {:induction false} AShrStep(x: int, e: nat)
    ensures AShr(x, e) == 2 * AShr(x, e + 1) + AShr(x, e) % 2
    decreases e
  {
    if e > 0 {
      AShrStep(x / 2, e - 1);
    }
  }

  lemma {:induction false} AShrBound(x: int, e: nat)
    ensures x - Shl(1, e) < Shl(AShr(x, e), e) <= x
    decreases e
  {
    hide Shl;
    if e == 0 {
      ShlZero(x);
      ShlZero(1);
    } else {
      AShrBound(x / 2, e - 1);
      ShlDouble(AShr(x, e), e - 1);
      ShlDouble(1, e - 1);
    }
  }

  lemma ShlZero(x: int)
    ensures Shl(x, 0) == x
  {
  }

  /** One DC refinement pass adds one bit. */
  lemma DcRefined(x: int, al: nat)
    requires -32768 <= x < 32768 && al <= 15
    ensures Update(0, x, Truncated(0, x, al + 1), al + 1, al) == Truncated(0, x, al)
  {
    hide Shl, AShr, Short;
    var m, p := AShr(x, al), AShr(x, al + 1);
    AShrStep(x, al);
    ShlTwice(p, al);
    ShlPlus(2 * p, 1, al);
    RefineRoundTrip.AShrOfShl(2 * p, al);
    DcInShort(x, al);
  }

  lemma DcInShort(x: int, al: nat)
    requires -32768 <= x < 32768 && al <= 15
    ensures -32768 <= Shl(AShr(x, al), al) < 32768 && Short(Shl(AShr(x, al), al)) == Shl(AShr(x, al), al)
  {
    hide Shl, AShr, Short;
    var m, q := AShr(x, al), Shl(-1, 15 - al);
    AShrBound(x, al);
    ShlShl(-1, 15 - al, al);
    MinusOne();
    ShlPlus(q - 1, 1, al);
    ShlMonotone(q - 1, m, al);
    ShlMonotone(m, q, al);
    ShortIs(Shl(m, al));
  }

  lemma MinusOne()
    ensures Shl(-1, 15) == -32768
  {
    assert Shl(-1, 5) == -32;
    assert Shl(-1, 10) == -1024;
  }

  /** What one scan does to a coefficient that is where the scan expects it. */
  lemma UpdateRefines(k: int, x: int, ah: nat, al: nat)
    requires -32768 < x < 32768 && al <= MAX_AH_AL
    ensures ah == 0 ==> Update(k, x, 0, ah, al) == Truncated(k, x, al)
    ensures ah == al + 1 ==> Update(k, x, Truncated(k, x, ah), ah, al) == Truncated(k, x, al)
  {
    hide Shl, AShr, Mag, Short;
    if k == 0 {
      DcRefined(x, al);
      DcInShort(x, al);
    } else {
      RefineRoundTrip.Refinable(x, al);
      RefineRoundTrip.MagBound(x, al);
      CanonicalCode.ShlOfZero(al);
      ShortIs(Trunc(x, al));
    }
  }

  /** Scan-script meaning: after any prefix of an accepted script, every coefficient a decoder
  has is the original truncated to the precision last sent, 0 if nothing was sent. */
  lemma {:induction false} Meaning(scans: seq<Scan>, ncomps: nat, c: int, k: int, x: int)
    requires Legal(scans, ncomps) && 0 <= c < ncomps && 0 <= k < DCTSIZE2 && -32768 < x < 32768
    ensures LastAl(scans, c, k) <= MAX_AH_AL
    ensures Decoded(scans, c, k, x) == if LastAl(scans, c, k) < 0 then 0 else Truncated(k, x, LastAl(scans, c, k))
  {
    hide Update, Truncated;
    if scans != [] {
      var before, s := scans[..|scans| - 1], scans[|scans| - 1];
      Meaning(before, ncomps, c, k, x);
      if Covers(s, c, k) {
        assert ContinuesIn(before, s, c) && ContinuesAt(before, s, c, k);
        UpdateRefines(k, x, s.ah, s.al);
      }
    }
  }

  /** So after each prefix of the script. */
  lemma PrefixMeaning(scans: seq<Scan>, ncomps: nat, n: nat, c: int, k: int, x: int)
    requires Legal(scans, ncomps) && n <= |scans| && 0 <= c < ncomps && 0 <= k < DCTSIZE2 && -32768 < x < 32768
    ensures var al := LastAl(scans[..n], c, k);
      al <= MAX_AH_AL && Decoded(scans[..n], c, k, x) == if al < 0 then 0 else Truncated(k, x, al)
  {
    LegalPrefix(scans, ncomps, n);
    Meaning(scans[..n], ncomps, c, k, x);
  }

  lemma FullPrecision(k: int, x: int)
    ensures Truncated(k, x, 0) == x
  {
  }

  /** When a scan may follow others, in numbers: one to four components in ascending order, all of
  them if DC and one if AC, no DC with AC coefficients, precisions up to 10, DC before AC, and
  every coefficient sent first with Ah 0, then one bit at a time. */
  lemma LegalLaw(before: seq<Scan>, s: Scan, ncomps: nat)
    ensures LegalScan(before, s, ncomps) <==>
      && 1 <= |s.comps| <= 4 && (forall i :: 0 <= i < |s.comps| ==> 0 <= s.comps[i] < ncomps)
      && (forall i, j :: 0 <= i < j < |s.comps| ==> s.comps[i] < s.comps[j])
      && 0 <= s.ss <= s.se <= 63 && 0 <= s.ah <= 10 && 0 <= s.al <= 10
      && (s.ss == 0 ==> s.se == 0) && (s.ss > 0 ==> |s.comps| == 1)
      && (forall c :: c in s.comps && s.ss > 0 ==> LastAl(before, c, 0) >= 0)
      && (forall c, k :: c in s.comps && s.ss <= k <= s.se ==> OneBitOn(before, s, c, k))
  {
    if LegalScan(before, s, ncomps) {
      forall c, k | c in s.comps && s.ss <= k <= s.se
        ensures OneBitOn(before, s, c, k)
      {
        assert ContinuesIn(before, s, c) && ContinuesAt(before, s, c, k);
      }
      forall c | c in s.comps && s.ss > 0
        ensures LastAl(before, c, 0) >= 0
      {
        assert ContinuesIn(before, s, c);
      }
    } else if Ordered(s, ncomps) && InRange(s) {
      var c :| c in s.comps && !ContinuesIn(before, s, c);
      if s.ss == 0 || LastAl(before, c, 0) >= 0 {
        var k :| s.ss <= k <= s.se && !ContinuesAt(before, s, c, k);
        assert !OneBitOn(before, s, c, k);
      }
    }
  }

  /** Ah is 0 if the coefficient is new, and else the last Al, one above the new one. */
  ghost predicate OneBitOn(before: seq<Scan>, s: Scan, c: int, k: int) {
    var last := LastAl(before, c, k);
    (last < 0 && s.ah == 0) || (last >= 0 && s.ah == last && s.al == last - 1)
  }

  /** A coefficient that does not go on where it was left is enough to refuse a scan. */
  lemma Refused(before: seq<Scan>, s: Scan, ncomps: nat, c: int, k: int)
    requires c in s.comps && s.ss <= k <= s.se
    requires !OneBitOn(before, s, c, k)
    ensures !LegalScan(before, s, ncomps)
  {
    hide LegalScan;
    LegalLaw(before, s, ncomps);
  }

  /** The precision a coefficient has got to. */
  lemma PrecisionLaw(before: seq<Scan>, s: Scan, c: int, k: int)
    ensures LastAl([], c, k) == -1
    ensures LastAl(before + [s], c, k) == if c in s.comps && s.ss <= k <= s.se then s.al else LastAl(before, c, k)
  {
    LastAlNext(before, s, c, k);
  }

  /** Scripts that are refused: AC before DC, DC with AC, AC of two components, components out of
  order, the same pass twice, a refinement of what was never sent, two bits at once. */
  lemma RefusedScripts(ncomps: nat)
    requires 2 <= ncomps
    ensures !LegalScan([], Scan([0], 1, 63, 0, 0), ncomps) && !LegalScan([], Scan([0], 0, 5, 0, 0), ncomps)
    ensures !LegalScan([], Scan([1, 0], 0, 0, 0, 0), ncomps) && !LegalScan([], Scan([0], 0, 0, 0, 11), ncomps)
    ensures var dc := Scan([0, 1], 0, 0, 0, 1);
      && LegalScan([], dc, ncomps) && LegalScan([dc], Scan([0], 1, 63, 0, 2), ncomps)
      && !LegalScan([dc], dc, ncomps) && !LegalScan([dc], Scan([0, 1], 1, 63, 0, 0), ncomps)
      && !LegalScan([dc], Scan([0], 1, 63, 1, 0), ncomps)
      && !LegalScan([dc, Scan([0], 1, 63, 0, 2)], Scan([0], 1, 63, 2, 0), ncomps)
  {
    hide LastAl, LegalScan;
    var dc, ac, twisted := Scan([0, 1], 0, 0, 0, 1), Scan([0], 1, 63, 0, 2), Scan([1, 0], 0, 0, 0, 0);
    LegalLaw([], Scan([0], 1, 63, 0, 0), ncomps);
    LegalLaw([], Scan([0], 0, 5, 0, 0), ncomps);
    assert twisted.comps[0] == 1 && twisted.comps[1] == 0;
    LegalLaw([], twisted, ncomps);
    LegalLaw([], Scan([0], 0, 0, 0, 11), ncomps);
    NothingSent(0, 0);
    RefusedAfter(dc, ac, ncomps);
  }

  lemma NothingSent(c: int, k: int)
    ensures LastAl([], c, k) == -1
  {
  }

  lemma RefusedAfter(dc: Scan, ac: Scan, ncomps: nat)
    requires 2 <= ncomps && dc == Scan([0, 1], 0, 0, 0, 1) && ac == Scan([0], 1, 63, 0, 2)
    ensures LegalScan([], dc, ncomps) && LegalScan([dc], ac, ncomps) && !LegalScan([dc], dc, ncomps)
    ensures !LegalScan([dc], Scan([0, 1], 1, 63, 0, 0), ncomps) && !LegalScan([dc], Scan([0], 1, 63, 1, 0), ncomps)
    ensures !LegalScan([dc, ac], Scan([0], 1, 63, 2, 0), ncomps)
  {
    hide LastAl, LegalScan;
    assert [] + [dc] == [dc] && [dc] + [ac] == [dc, ac];
    forall c, k
      ensures LastAl([], c, k) == -1
      ensures LastAl([dc], c, k) == if c in dc.comps && 0 <= k <= 0 then 1 else -1
    {
      PrecisionLaw([], dc, c, k);
    }
    PrecisionLaw([dc], ac, 0, 1);
    LegalLaw([], dc, ncomps);
    LegalLaw([dc], ac, ncomps);
    Refused([dc], dc, ncomps, 0, 0);
    LegalLaw([dc], Scan([0, 1], 1, 63, 0, 0), ncomps);
    Refused([dc], Scan([0], 1, 63, 1, 0), ncomps, 0, 1);
    Refused([dc, ac], Scan([0], 1, 63, 2, 0), ncomps, 0, 1);
  }

  /** What a decoder has after a DC pass: the coefficient rounded down to a multiple of 2^al; after
  an AC pass: rounded towards zero. */
  lemma TruncatedLaw(k: int, x: int, al: nat)
    ensures k == 0 ==> Truncated(k, x, al) <= x < Truncated(k, x, al) + Shl(1, al)
    ensures k != 0 ==> (if x >= 0 then 0 <= Truncated(k, x, al) <= x < Truncated(k, x, al) + Shl(1, al)
                        else Truncated(k, x, al) - Shl(1, al) < x <= Truncated(k, x, al) <= 0)
    ensures exists m: int :: Truncated(k, x, al) == Shl(m, al)
  {
    hide Shl, AShr, Shr;
    if k == 0 {
      AShrBound(x, al);
    } else {
      var m: int := Mag(x, al);
      RefineRoundTrip.ShiftBounds(Abs(x), al);
      ShlPlus(m, 1, al);
      CanonicalCode.ShlNat(m, al);
      RefineRoundTrip.NegatedShl(m, al);
      assert Truncated(k, x, al) == Shl(if x >= 0 then m else -m, al);
    }
  }

  /** A sequential script in numbers: whole scans of up to four components each, every component in
  exactly one of them. */
  lemma SequentialLaw(scans: seq<Scan>, ncomps: nat)
    requires scans != [] && scans[0].ss == 0 && scans[0].se == 63
    ensures Acceptable(scans, ncomps) <==>
      && (forall i :: 0 <= i < |scans| ==>
            1 <= |scans[i].comps| <= 4 && scans[i].ss == 0 && scans[i].se == 63 && scans[i].ah == 0 && scans[i].al == 0)
      && (forall i, n :: 0 <= i < |scans| && 0 <= n < |scans[i].comps| ==> 0 <= scans[i].comps[n] < ncomps)
      && (forall i, n, l :: 0 <= i < |scans| && 0 <= n < l < |scans[i].comps| ==> scans[i].comps[n] < scans[i].comps[l])
      && (forall i, j, c :: 0 <= i < j < |scans| && c in scans[i].comps ==> c !in scans[j].comps)
      && (forall c :: 0 <= c < ncomps ==> InSomeScan(scans, c))
  {
    assert Acceptable(scans, ncomps) <==> Sequential(scans, ncomps);
    if Sequential(scans, ncomps) {
      forall i | 0 <= i < |scans|
        ensures Ordered(scans[i], ncomps) && Whole(scans[i], ncomps)
      {
      }
      forall c | 0 <= c < ncomps
        ensures InSomeScan(scans, c)
      {
        assert Sent(scans, c);
      }
    } else {
      forall c | InSomeScan(scans, c)
        ensures Sent(scans, c)
      {
      }
    }
  }

  ghost predicate InSomeScan(scans: seq<Scan>, c: int) {
    exists i :: 0 <= i < |scans| && c in scans[i].comps
  }

  ghost predicate DcSent(scans: seq<Scan>, c: int) {
    LastAl(scans, c, 0) >= 0
  }

  /** Any other script is a progressive one, and has to send the DC coefficient of every
  component. */
  lemma ProgressiveLaw(scans: seq<Scan>, ncomps: nat)
    requires scans != [] && !(scans[0].ss == 0 && scans[0].se == 63)
    ensures Acceptable(scans, ncomps) <==>
      && (forall n: nat :: n < |scans| ==> LegalScan(scans[..n], scans[n], ncomps))
      && forall c :: 0 <= c < ncomps ==> DcSent(scans, c)
  {
    hide LegalScan, Legal;
    EachLegal(scans, ncomps);
    if Progressive(scans, ncomps) {
      forall c | 0 <= c < ncomps
        ensures DcSent(scans, c)
      {
        assert LastAl(scans, c, 0) >= 0;
      }
    } else if Legal(scans, ncomps) {
      var c :| 0 <= c < ncomps && LastAl(scans, c, 0) < 0;
      assert !DcSent(scans, c);
    }
  }

  lemma {:induction false} EachLegal(scans: seq<Scan>, ncomps: nat)
    ensures Legal(scans, ncomps) <==> forall n: nat :: n < |scans| ==> LegalScan(scans[..n], scans[n], ncomps)
  {
    hide LegalScan;
    if scans != [] {
      var before := scans[..|scans| - 1];
      EachLegal(before, ncomps);
      assert forall n: nat :: n < |before| ==> before[..n] == scans[..n] && before[n] == scans[n];
    }
  }
}
