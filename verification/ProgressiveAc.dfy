/** The AC scans of a progressive script run one after the other: each is encoded with a table
generated for it, and its bytes are decoded on top of what the scans before it left. */
module ProgressiveAc {

  import opened CodeString
  import opened ZigZag
  import opened Coefficients
  import opened RefineSpec
  import opened RefineEncoding
  import opened RefineRoundTrip
  import opened ScanScript
  import opened CountedSymbols
  import FirstPass
  import FirstPassScan
  import RefineScan
  import SequentialSpec
  import SymbolMerging

  /** What a scan makes of a block's band, coefficient by coefficient. */
  function Updated(s: Scan, v: seq<int>, cur: seq<int>): (w: seq<int>)
    requires |v| == |cur| == DCTSIZE2 && 0 <= s.ah && 0 <= s.al
    ensures |w| == DCTSIZE2
  {
    seq(DCTSIZE2, k requires 0 <= k < DCTSIZE2 => if s.ss <= k <= s.se then Update(k, v[k], cur[k], s.ah, s.al) else cur[k])
  }

  /** A block as a scan of the script finds it: nothing known, or known down to bit ah. */
  ghost predicate Ready(s: Scan, v: seq<int>, cur: seq<int>) {
    && |v| == |cur| == DCTSIZE2 && 1 <= s.ss <= s.se < DCTSIZE2 && 0 <= s.al <= MAX_AH_AL && (s.ah == 0 || s.ah == s.al + 1)
    && forall k: nat :: s.ss <= k <= s.se ==> -32768 < v[k] < 32768 && cur[k] == if s.ah == 0 then 0 else Trunc(v[k], s.ah)
  }

  /** The coefficient-level rules are what decoding the bytes of a scan does. */
  lemma GoalIsUpdate(s: Scan, v: seq<int>, cur: seq<int>)
    requires Ready(s, v, cur)
    ensures Goal(v, cur, s.al, s.ss, s.se) == Updated(s, v, cur)
  {
    hide Update, Trunc;
    forall k: nat | k < DCTSIZE2
      ensures Goal(v, cur, s.al, s.ss, s.se)[k] == Updated(s, v, cur)[k]
    {
      if s.ss <= k <= s.se {
        UpdateRefines(k, v[k], s.ah, s.al);
        TruncatedAc(k, v[k], s.al);
        TruncatedAc(k, v[k], s.ah);
      }
    }
  }

  lemma TruncatedAc(k: int, x: int, al: nat)
    requires k != 0
    ensures Truncated(k, x, al) == Trunc(x, al)
  {
  }

  /** The scan is an AC scan of component c. */
  predicate IsAc(s: Scan, c: int) {
    c in s.comps && s.ss > 0
  }

  /** The scan can be sent: a refinement always can, a first pass if its values are in range and
  its table needs no code of more than thirty-two bits. */
  ghost predicate CanSend(s: Scan, c: int, vs: seq<seq<int>>)
    requires FirstPass.AllBlocks(vs) && Bands(vs)
  {
    IsAc(s, c) && s.ah == 0 && 0 <= s.ss <= s.se < DCTSIZE2 && 0 <= s.al ==>
      FirstPassScan.AllInRange(vs, s.al, s.ss, s.se) && Codable(FirstPass.FirstScan(vs, 0, s.al, s.ss, s.se))
  }

  /** The AC coefficients are those the scans so far convey. */
  ghost predicate Conveyed(scans: seq<Scan>, c: int, vs: seq<seq<int>>, cs: seq<seq<int>>) {
    |cs| == |vs| && forall i: nat :: i < |vs| ==> ConveyedTo(scans, c, vs[i], cs[i])
  }

  ghost predicate ConveyedTo(scans: seq<Scan>, c: int, v: seq<int>, cur: seq<int>) {
    |v| == |cur| == DCTSIZE2 && forall k: nat :: 1 <= k < DCTSIZE2 ==> cur[k] == Decoded(scans, c, k, v[k])
  }

  lemma NothingConveyed(c: int, v: seq<int>, cur: seq<int>)
    requires |v| == |cur| == DCTSIZE2 && forall k :: 1 <= k < DCTSIZE2 ==> cur[k] == 0
    ensures ConveyedTo([], c, v, cur)
  {
  }

  lemma BlockReady(before: seq<Scan>, s: Scan, ncomps: nat, c: int, v: seq<int>, cur: seq<int>)
    requires Legal(before, ncomps) && LegalScan(before, s, ncomps) && IsAc(s, c) && 0 <= c < ncomps
    requires SequentialSpec.IsBlock(v) && ConveyedTo(before, c, v, cur)
    ensures Ready(s, v, cur)
  {
    hide Decoded, Trunc, LastAl, Legal;
    assert ContinuesIn(before, s, c);
    var first: nat := s.ss;
    assert ContinuesAt(before, s, c, first);
    forall k: nat | s.ss <= k <= s.se
      ensures -32768 < v[k] < 32768 && cur[k] == if s.ah == 0 then 0 else Trunc(v[k], s.ah)
    {
      assert ContinuesAt(before, s, c, k);
      Meaning(before, ncomps, c, k, v[k]);
      TruncatedAc(k, v[k], s.ah);
    }
  }

  lemma BlockConveyed(before: seq<Scan>, s: Scan, c: int, v: seq<int>, cur: seq<int>)
    requires IsAc(s, c) && Ready(s, v, cur) && ConveyedTo(before, c, v, cur)
    ensures ConveyedTo(before + [s], c, v, Goal(v, cur, s.al, s.ss, s.se))
  {
    hide Update, Trunc;
    GoalIsUpdate(s, v, cur);
    assert (before + [s])[..|before|] == before;
  }

  /** A scan that is not an AC scan of the component changes nothing here. */
  lemma NotConcerned(before: seq<Scan>, s: Scan, ncomps: nat, c: int, vs: seq<seq<int>>, cs: seq<seq<int>>)
    requires LegalScan(before, s, ncomps) && !IsAc(s, c) && Conveyed(before, c, vs, cs)
    ensures Conveyed(before + [s], c, vs, cs)
  {
    hide Update;
    assert (before + [s])[..|before|] == before;
    forall i: nat | i < |vs|
      ensures ConveyedTo(before + [s], c, vs[i], cs[i])
    {
      assert ConveyedTo(before, c, vs[i], cs[i]);
    }
  }

  lemma AllReady(before: seq<Scan>, s: Scan, ncomps: nat, c: int, vs: seq<seq<int>>, cs: seq<seq<int>>)
    requires Legal(before, ncomps) && LegalScan(before, s, ncomps) && IsAc(s, c) && 0 <= c < ncomps
    requires FirstPass.AllBlocks(vs) && Conveyed(before, c, vs, cs) && vs != []
    ensures 1 <= s.ss <= s.se < DCTSIZE2 && 0 <= s.al <= MAX_AH_AL && (s.ah == 0 || s.ah == s.al + 1)
    ensures forall i: nat :: i < |vs| ==> Ready(s, vs[i], cs[i])
  {
    hide Legal, ConveyedTo, SequentialSpec.IsBlock;
    forall i: nat | i < |vs|
      ensures Ready(s, vs[i], cs[i])
    {
      BlockReady(before, s, ncomps, c, vs[i], cs[i]);
    }
    assert Ready(s, vs[0], cs[0]);
  }

  lemma AllConveyed(before: seq<Scan>, s: Scan, c: int, vs: seq<seq<int>>, cs: seq<seq<int>>)
    requires IsAc(s, c) && Conveyed(before, c, vs, cs) && Bands(vs) && Bands(cs) && 0 <= s.ss <= s.se && 0 <= s.al
    requires forall i: nat :: i < |vs| ==> Ready(s, vs[i], cs[i])
    ensures Conveyed(before + [s], c, vs, Goals(vs, cs, s.al, s.ss, s.se))
  {
    hide ConveyedTo, Ready;
    forall i: nat | i < |vs|
      ensures ConveyedTo(before + [s], c, vs[i], Goals(vs, cs, s.al, s.ss, s.se)[i])
    {
      BlockConveyed(before, s, c, vs[i], cs[i]);
    }
  }

  /** The blocks of two images, all apart. */
  ghost predicate Apart(blocks: seq<array<int>>, coarse: seq<array<int>>) {
    && |blocks| == |coarse| && (forall i :: 0 <= i < |blocks| ==> blocks[i].Length == coarse[i].Length == DCTSIZE2)
    && (forall i, j :: 0 <= i < j < |coarse| ==> coarse[i] != coarse[j])
    && forall i, j :: 0 <= i < |blocks| && 0 <= j < |coarse| ==> blocks[i] != coarse[j]
  }

  /** One AC scan, encoded in two passes and decoded from its bytes. */
  method OneScan(before: seq<Scan>, s: Scan, ncomps: nat, c: int, blocks: seq<array<int>>, coarse: seq<array<int>>, m: byte,
      sizes: seq<nat>)
    returns (ok: bool)
    requires Legal(before, ncomps) && LegalScan(before, s, ncomps) && IsAc(s, c) && 0 <= c < ncomps
    requires Apart(blocks, coarse) && 0 < m < 255 && 0 < 64 * |blocks| < SymbolMerging.MAX_COUNT
    requires FirstPass.AllBlocks(Views(blocks)) && Conveyed(before, c, Views(blocks), Views(coarse))
    modifies coarse
    ensures Views(blocks) == old(Views(blocks)) && Bands(Views(blocks))
    ensures ok <==> CanSend(s, c, Views(blocks))
    ensures if ok then Conveyed(before + [s], c, Views(blocks), Views(coarse)) else Views(coarse) == old(Views(coarse))
  {
    hide Legal, LegalScan, ViewOf, Conveyed, Codable, FirstPass.FirstScan, FirstPassScan.AllInRange, SequentialSpec.IsBlock, Ready,
      FirstPassScan.Unknown, Given;
    ghost var vs, cs := Views(blocks), Views(coarse);
    AllReady(before, s, ncomps, c, vs, cs);
    if s.ah == 0 {
      AllUnknown(s, vs, cs);
      ok := FirstPassScan.OptimalRoundTrip(blocks, coarse, s.ss, s.al, s.se, m, sizes);
    } else {
      AllRefinable(s, vs, cs);
      RefineScan.OptimalRoundTrip(blocks, coarse, s.ss, s.al, s.se, m, sizes);
      ok := true;
    }
    assert Views(blocks) == vs;
    if ok {
      AllConveyed(before, s, c, vs, cs);
    }
  }

  lemma AllUnknown(s: Scan, vs: seq<seq<int>>, cs: seq<seq<int>>)
    requires |vs| == |cs| && s.ah == 0 && 1 <= s.ss <= s.se < DCTSIZE2 && forall i: nat :: i < |vs| ==> Ready(s, vs[i], cs[i])
    ensures forall i :: 0 <= i < |cs| ==> |cs[i]| == DCTSIZE2 && FirstPassScan.Unknown(cs[i], s.ss, s.se)
  {
    hide Trunc;
    forall i: nat | i < |cs|
      ensures |cs[i]| == DCTSIZE2 && FirstPassScan.Unknown(cs[i], s.ss, s.se)
    {
      assert Ready(s, vs[i], cs[i]);
    }
  }

  lemma AllRefinable(s: Scan, vs: seq<seq<int>>, cs: seq<seq<int>>)
    requires |vs| == |cs| && s.ah == s.al + 1 && 0 <= s.al && 1 <= s.ss <= s.se < DCTSIZE2 && FirstPass.AllBlocks(vs)
    requires forall i: nat :: i < |vs| ==> Ready(s, vs[i], cs[i])
    ensures AllGiven(vs, cs, s.al, s.ss, s.se)
  {
    hide Trunc;
    forall i: nat | i < |cs|
      ensures Given(vs[i], cs[i], s.al, s.ss, s.se)
    {
      assert Ready(s, vs[i], cs[i]) && SequentialSpec.IsBlock(vs[i]);
    }
  }

  /** The AC scans of a legal script for one component, through real bytes: as many scans as can
  be sent arrive, and every AC coefficient is then the original truncated to the precision last
  sent, 0 if nothing was sent.  The run stops only at a first pass with a value out of range or
  a code of more than thirty-two bits. */
  method RunScript(scans: seq<Scan>, ncomps: nat, c: int, blocks: seq<array<int>>, coarse: seq<array<int>>, m: byte, sizes: seq<nat>)
    returns (n: nat)
    requires Legal(scans, ncomps) && 0 <= c < ncomps && Apart(blocks, coarse) && 0 < m < 255
    requires 0 < 64 * |blocks| < SymbolMerging.MAX_COUNT && FirstPass.AllBlocks(Views(blocks))
    requires forall i, k :: 0 <= i < |coarse| && 0 <= k < DCTSIZE2 ==> coarse[i][k] == 0
    modifies coarse
    ensures Views(blocks) == old(Views(blocks)) && Bands(Views(blocks)) && Bands(Views(coarse))
    ensures n <= |scans| && (forall i :: 0 <= i < n ==> CanSend(scans[i], c, Views(blocks)))
    ensures n < |scans| ==> !CanSend(scans[n], c, Views(blocks))
    ensures forall i, k :: 0 <= i < |coarse| && 1 <= k < DCTSIZE2 ==>
      var al := LastAl(scans[..n], c, k);
      Views(coarse)[i][k] == if al < 0 then 0 else Truncated(k, Views(blocks)[i][k], al)
  {
    hide Legal, LegalScan, Conveyed, SequentialSpec.IsBlock, IsAc, CanSend;
    ghost var vs := Views(blocks);
    BlocksAreBands(vs);
    NothingYet(c, vs, coarse);
    n := 0;
    while n < |scans|
      invariant n <= |scans| && Views(blocks) == vs && Conveyed(scans[..n], c, vs, Views(coarse))
      invariant forall i :: 0 <= i < n ==> CanSend(scans[i], c, vs)
    {
      LegalHere(scans, ncomps, n);
      if IsAc(scans[n], c) {
        var ok := OneScan(scans[..n], scans[n], ncomps, c, blocks, coarse, m, sizes);
        if !ok {
          break;
        }
      } else {
        NotConcerned(scans[..n], scans[n], ncomps, c, vs, Views(coarse));
        NeedsNothing(scans[n], c, vs);
      }
      assert scans[..n + 1] == scans[..n] + [scans[n]];
      n := n + 1;
    }
    ConveyedMeans(scans, ncomps, n, c, vs, Views(coarse));
  }

  lemma BlocksAreBands(vs: seq<seq<int>>)
    requires FirstPass.AllBlocks(vs)
    ensures Bands(vs)
  {
  }

  lemma NeedsNothing(s: Scan, c: int, vs: seq<seq<int>>)
    requires FirstPass.AllBlocks(vs) && Bands(vs) && !IsAc(s, c)
    ensures CanSend(s, c, vs)
  {
  }

  lemma LegalHere(scans: seq<Scan>, ncomps: nat, n: nat)
    requires Legal(scans, ncomps) && n < |scans|
    ensures Legal(scans[..n], ncomps) && LegalScan(scans[..n], scans[n], ncomps)
  {
    hide LegalScan;
    LegalPrefix(scans, ncomps, n + 1);
    assert scans[..n + 1] == scans[..n] + [scans[n]];
    LegalNext(scans[..n], scans[n], ncomps);
  }

  lemma NothingYet(c: int, vs: seq<seq<int>>, coarse: seq<array<int>>)
    requires Bands(vs) && |vs| == |coarse|
    requires forall i :: 0 <= i < |coarse| ==> coarse[i].Length == DCTSIZE2 && forall k :: 0 <= k < DCTSIZE2 ==> coarse[i][k] == 0
    ensures Conveyed([], c, vs, Views(coarse))
  {
    hide NaturalOrder;
    forall i: nat | i < |vs|
      ensures ConveyedTo([], c, vs[i], Views(coarse)[i])
    {
      NothingConveyed(c, vs[i], Views(coarse)[i]);
    }
  }

  lemma ConveyedMeans(scans: seq<Scan>, ncomps: nat, n: nat, c: int, vs: seq<seq<int>>, cs: seq<seq<int>>)
    requires Legal(scans, ncomps) && n <= |scans| && 0 <= c < ncomps && FirstPass.AllBlocks(vs) && Conveyed(scans[..n], c, vs, cs)
    ensures Bands(vs) && Bands(cs)
    ensures forall i, k :: 0 <= i < |vs| && 1 <= k < DCTSIZE2 ==>
      var al := LastAl(scans[..n], c, k);
      cs[i][k] == if al < 0 then 0 else Truncated(k, vs[i][k], al)
  {
    hide Legal, Truncated, LastAl, Decoded;
    BlocksAreBands(vs);
    forall i: nat | i < |vs|
      ensures |cs[i]| == DCTSIZE2
      ensures forall k :: 1 <= k < DCTSIZE2 ==>
        var al := LastAl(scans[..n], c, k);
        cs[i][k] == if al < 0 then 0 else Truncated(k, vs[i][k], al)
    {
      assert ConveyedTo(scans[..n], c, vs[i], cs[i]) && SequentialSpec.IsBlock(vs[i]);
      forall k: nat | 1 <= k < DCTSIZE2
        ensures var al := LastAl(scans[..n], c, k);
          cs[i][k] == if al < 0 then 0 else Truncated(k, vs[i][k], al)
      {
        PrefixMeaning(scans, ncomps, n, c, k, vs[i][k]);
      }
    }
  }
}
