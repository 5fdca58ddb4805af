/** validate_script of jcmaster.c. */
module ScriptValidation {

  import opened Wrappers
  import opened ZigZag
  import opened ScanScript

  /** The row of last_bitpos for component c after some scans. */
  ghost predicate TracksRow(row: seq<int>, scans: seq<Scan>, c: int) {
    |row| == DCTSIZE2 && forall k :: 0 <= k < DCTSIZE2 ==> row[k] == LastAl(scans, c, k)
  }

  /** Component indexes of a scan. */
  method CheckComponents(s: Scan, ncomps: nat) returns (ok: bool)
    ensures ok <==> Ordered(s, ncomps)
  {
    if |s.comps| <= 0 || |s.comps| > MAX_COMPS_IN_SCAN {
      return false;
    }
    for ci := 0 to |s.comps|
      invariant forall i :: 0 <= i < ci ==> 0 <= s.comps[i] < ncomps
      invariant forall i, j :: 0 <= i < j < ci ==> s.comps[i] < s.comps[j]
    {
      if s.comps[ci] < 0 || s.comps[ci] >= ncomps {
        return false;
      }
      if ci > 0 && s.comps[ci] <= s.comps[ci - 1] {
        return false;
      }
    }
    ok := true;
  }

  /** The coefficients of one component in a scan: check where they stand and move them on. */
  method CheckBand(row: array<int>, s: Scan, c: int, ghost before: seq<Scan>) returns (ok: bool)
    requires row.Length == DCTSIZE2 && TracksRow(row[..], before, c) && InRange(s) && c in s.comps
    modifies row
    ensures ok <==> ContinuesIn(before, s, c)
    ensures ok ==> TracksRow(row[..], before + [s], c)
  {
    ghost var was := row[..];
    assert was[0] == LastAl(before, c, 0);
    if s.ss != 0 && row[0] < 0 {
      return false;
    }
    var coefi: nat := s.ss;
    while coefi <= s.se
      invariant s.ss <= coefi <= s.se + 1
      invariant forall k :: 0 <= k < DCTSIZE2 ==> row[k] == if s.ss <= k < coefi then s.al else was[k]
      invariant forall k | s.ss <= k < coefi :: ContinuesAt(before, s, c, k)
    {
      assert was[coefi] == LastAl(before, c, coefi);
      if row[coefi] < 0 {
        if s.ah != 0 {
          assert !ContinuesAt(before, s, c, coefi);
          return false;
        }
      } else if s.ah != row[coefi] || s.al != s.ah - 1 {
        assert !ContinuesAt(before, s, c, coefi);
        return false;
      }
      row[coefi] := s.al;
      coefi := coefi + 1;
    }
    forall k | 0 <= k < DCTSIZE2
      ensures row[k] == LastAl(before + [s], c, k)
    {
      LastAlNext(before, s, c, k);
    }
    ok := true;
  }

  ghost predicate Rows(pos: seq<array<int>>, ncomps: nat) {
    && |pos| == ncomps && (forall c :: 0 <= c < ncomps ==> pos[c].Length == DCTSIZE2)
    && forall c, d :: 0 <= c < d < ncomps ==> pos[c] != pos[d]
  }

  /** last_bitpos after some scans. */
  ghost predicate Tracks(pos: seq<array<int>>, scans: seq<Scan>, ncomps: nat)
    requires Rows(pos, ncomps)
    reads pos
  {
    forall c :: 0 <= c < ncomps ==> TracksRow(pos[c][..], scans, c)
  }

  /** One scan of a progressive script. */
  method CheckProgressive(pos: seq<array<int>>, s: Scan, ncomps: nat, ghost before: seq<Scan>) returns (ok: bool)
    requires Rows(pos, ncomps) && Tracks(pos, before, ncomps) && Ordered(s, ncomps)
    modifies pos
    ensures ok <==> LegalScan(before, s, ncomps)
    ensures ok ==> Tracks(pos, before + [s], ncomps)
  {
    if s.ss < 0 || s.ss >= DCTSIZE2 || s.se < s.ss || s.se >= DCTSIZE2 || s.ah < 0 || s.ah > MAX_AH_AL || s.al < 0
      || s.al > MAX_AH_AL
    {
      return false;
    }
    if s.ss == 0 {
      if s.se != 0 {
        return false;
      }
    } else if |s.comps| != 1 {
      return false;
    }
    hide ContinuesIn, TracksRow;
    for ci := 0 to |s.comps|
      invariant forall j :: 0 <= j < ci ==> ContinuesIn(before, s, s.comps[j])
      invariant forall c :: 0 <= c < ncomps ==> TracksRow(pos[c][..], if c in s.comps[..ci] then before + [s] else before, c)
    {
      assert s.comps[ci] !in s.comps[..ci];
      assert s.comps[..ci + 1] == s.comps[..ci] + [s.comps[ci]];
      ok := CheckBand(pos[s.comps[ci]], s, s.comps[ci], before);
      if !ok {
        return;
      }
    }
    assert s.comps[..|s.comps|] == s.comps;
    forall c | 0 <= c < ncomps
      ensures TracksRow(pos[c][..], before + [s], c)
    {
      if c !in s.comps {
        Untouched(pos[c][..], before, s, c);
      }
    }
    ok := true;
  }

  lemma Untouched(row: seq<int>, before: seq<Scan>, s: Scan, c: int)
    requires TracksRow(row, before, c) && c !in s.comps
    ensures TracksRow(row, before + [s], c)
  {
    forall k | 0 <= k < DCTSIZE2
      ensures row[k] == LastAl(before + [s], c, k)
    {
      LastAlNext(before, s, c, k);
    }
  }

  /** A progressive script: every scan in turn, then a DC scan for every component. */
  method ValidateProgressive(scans: seq<Scan>, ncomps: nat) returns (ok: bool)
    ensures ok <==> Progressive(scans, ncomps)
  {
    hide LegalScan, TracksRow;
    var pos := NewRows(ncomps);
    var n := 0;
    while n < |scans|
      invariant 0 <= n <= |scans| && Rows(pos, ncomps) && fresh(pos) && Tracks(pos, scans[..n], ncomps) && Legal(scans[..n], ncomps)
    {
      NotYet(scans, ncomps, n);
      assert scans[..n + 1] == scans[..n] + [scans[n]];
      LegalNext(scans[..n], scans[n], ncomps);
      ok := CheckComponents(scans[n], ncomps);
      IllegalUnordered(scans[..n], scans[n], ncomps);
      if !ok {
        return;
      }
      ok := CheckProgressive(pos, scans[n], ncomps, scans[..n]);
      if !ok {
        return;
      }
      n := n + 1;
    }
    assert scans[..n] == scans;
    for ci := 0 to ncomps
      invariant Rows(pos, ncomps) && Tracks(pos, scans, ncomps)
      invariant forall c :: 0 <= c < ci ==> LastAl(scans, c, 0) >= 0
    {
      DcPosition(pos[ci][..], scans, ci);
      if pos[ci][0] < 0 {
        return false;
      }
    }
    ok := true;
  }

  lemma DcPosition(row: seq<int>, scans: seq<Scan>, c: int)
    requires TracksRow(row, scans, c)
    ensures |row| == DCTSIZE2 && row[0] == LastAl(scans, c, 0)
  {
  }

  lemma NotYet(scans: seq<Scan>, ncomps: nat, n: nat)
    requires n < |scans|
    ensures Legal(scans, ncomps) ==> Legal(scans[..n + 1], ncomps)
  {
    if Legal(scans, ncomps) {
      LegalPrefix(scans, ncomps, n + 1);
    }
  }

  lemma IllegalUnordered(before: seq<Scan>, s: Scan, ncomps: nat)
    ensures LegalScan(before, s, ncomps) ==> Ordered(s, ncomps)
  {
  }

  /** last_bitpos, all -1. */
  method NewRows(ncomps: nat) returns (pos: seq<array<int>>)
    ensures Rows(pos, ncomps) && fresh(pos) && Tracks(pos, [], ncomps)
  {
    pos := [];
    for i := 0 to ncomps
      invariant |pos| == i && fresh(pos) && forall c :: 0 <= c < i ==> pos[c].Length == DCTSIZE2 && TracksRow(pos[c][..], [], c)
      invariant forall c, d :: 0 <= c < d < i ==> pos[c] != pos[d]
    {
      var row := new int[DCTSIZE2](_ => -1);
      pos := pos + [row];
    }
  }

  /** A sequential script: every component whole, none twice, none left out. */
  method ValidateSequential(scans: seq<Scan>, ncomps: nat) returns (ok: bool)
    ensures ok <==> Sequential(scans, ncomps)
  {
    var sent := new bool[ncomps](_ => false);
    var n := 0;
    while n < |scans|
      invariant 0 <= n <= |scans| && forall i :: 0 <= i < n ==> Whole(scans[i], ncomps)
      invariant forall i, j, c :: 0 <= i < j < n && c in scans[i].comps ==> c !in scans[j].comps
      invariant forall c :: 0 <= c < ncomps ==> (sent[c] <==> Sent(scans[..n], c))
    {
      var s := scans[n];
      ok := CheckComponents(s, ncomps);
      if !ok || s.ss != 0 || s.se != DCTSIZE2 - 1 || s.ah != 0 || s.al != 0 {
        assert !Whole(scans[n], ncomps);
        return false;
      }
      for ci := 0 to |s.comps|
        invariant forall i, c :: 0 <= i < n && c in scans[i].comps ==> c !in s.comps[..ci]
        invariant forall c :: 0 <= c < ncomps ==> (sent[c] <==> Sent(scans[..n], c) || c in s.comps[..ci])
      {
        assert s.comps[..ci + 1] == s.comps[..ci] + [s.comps[ci]];
        assert s.comps[ci] !in s.comps[..ci];
        if sent[s.comps[ci]] {
          return false;
        }
        SentBefore(scans, n, s.comps[ci]);
        sent[s.comps[ci]] := true;
      }
      assert s.comps[..|s.comps|] == s.comps;
      n := n + 1;
    }
    assert scans[..n] == scans;
    for ci := 0 to ncomps
      invariant forall c :: 0 <= c < ci ==> Sent(scans, c)
    {
      if !sent[ci] {
        return false;
      }
    }
    ok := true;
  }

  lemma SentBefore(scans: seq<Scan>, n: nat, c: int)
    requires n < |scans|
    ensures !Sent(scans[..n], c) ==> forall i :: 0 <= i < n ==> c !in scans[i].comps
    ensures Sent(scans[..n + 1], c) <==> Sent(scans[..n], c) || c in scans[n].comps
  {
  }

  /** validate_script: whether the script is acceptable, and if so whether it is progressive. */
  method ValidateScript(scans: seq<Scan>, ncomps: nat) returns (r: Option<bool>)
    ensures r.Some? <==> Acceptable(scans, ncomps)
    ensures r.Some? ==> r.value == SaysProgressive(scans)
  {
    if |scans| <= 0 {
      return None;
    }
    var progressive := scans[0].ss != 0 || scans[0].se != DCTSIZE2 - 1;
    var ok;
    if progressive {
      ok := ValidateProgressive(scans, ncomps);
    } else {
      ok := ValidateSequential(scans, ncomps);
    }
    r := if ok then Some(progressive) else None;
  }
}
