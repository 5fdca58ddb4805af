/** The statistics pass of the sequential Huffman encoder in jchuff.c, and that it counts what
the output pass sends. */
module SequentialGather {

  import opened CodeString
  import opened CodedItems
  import opened ZigZag
  import opened Coefficients
  import opened SequentialSpec
  import opened SequentialScan

  const NUM_HUFF_TBLS := 4

  /** The table numbers of the components of a scan, the component of each block of an MCU, and
  the restart interval. */
  datatype Layout = Layout(dcTbl: seq<nat>, acTbl: seq<nat>, membership: seq<nat>, restartInterval: nat)

  predicate ValidLayout(lay: Layout) {
    && |lay.dcTbl| == |lay.acTbl| && (forall i :: 0 <= i < |lay.dcTbl| ==> lay.dcTbl[i] < NUM_HUFF_TBLS && lay.acTbl[i] < NUM_HUFF_TBLS)
    && forall i :: 0 <= i < |lay.membership| ==> lay.membership[i] < |lay.dcTbl|
  }

  predicate Predictions(lay: Layout, last: seq<int>) {
    |last| == |lay.dcTbl| && forall i :: 0 <= i < |last| ==> Fits(last[i])
  }

  predicate McuOf(lay: Layout, m: mcu) {
    |m| == |lay.membership| && forall i :: 0 <= i < |m| ==> IsBlock(m[i])
  }

  /** Values the baseline tables provide for. */
  predicate BlockInRange(last: int, v: seq<int>)
    requires IsBlock(v)
  {
    NBits(Abs(v[0] - last)) <= MAX_COEF_BITS + 1 && AcInRange(v, 1)
  }

  predicate AcInRange(v: seq<int>, k: nat)
    requires IsBlock(v)
  {
    forall j :: k <= j < DCTSIZE2 ==> NBits(Abs(v[j])) <= MAX_COEF_BITS
  }

  /** What an MCU's blocks from the i'th on send with DC table t, and with AC table t. */
  function McuDc(lay: Layout, last: seq<int>, m: mcu, i: nat, t: nat): seq<Item>
    requires ValidLayout(lay) && Predictions(lay, last) && McuOf(lay, m)
    decreases |m| - i
  {
    if i >= |m| then []
    else
      var ci := lay.membership[i];
      DiffFits(m[i][0], last[ci]);
      (if lay.dcTbl[ci] == t then DcItems(m[i][0] - last[ci]) else []) + McuDc(lay, last[ci := m[i][0]], m, i + 1, t)
  }

  function McuAc(lay: Layout, m: mcu, i: nat, t: nat): seq<Item>
    requires ValidLayout(lay) && McuOf(lay, m)
    decreases |m| - i
  {
    if i >= |m| then []
    else (if lay.acTbl[lay.membership[i]] == t then AcItems(m[i], 1, 0) else []) + McuAc(lay, m, i + 1, t)
  }

  function LastAfter(lay: Layout, last: seq<int>, m: mcu, i: nat): (r: seq<int>)
    requires ValidLayout(lay) && Predictions(lay, last) && McuOf(lay, m)
    ensures Predictions(lay, r)
    decreases |m| - i
  {
    if i >= |m| then last else LastAfter(lay, last[lay.membership[i] := m[i][0]], m, i + 1)
  }

  predicate McuInRange(lay: Layout, last: seq<int>, m: mcu, i: nat)
    requires ValidLayout(lay) && Predictions(lay, last) && McuOf(lay, m)
    decreases |m| - i
  {
    i >= |m| || (BlockInRange(last[lay.membership[i]], m[i]) && McuInRange(lay, last[lay.membership[i] := m[i][0]], m, i + 1))
  }

  /** Predictions and restart count before and after an MCU. */
  function Start(lay: Layout, togo: nat, last: seq<int>): (l: seq<int>)
    requires Predictions(lay, last)
    ensures Predictions(lay, l)
  {
    if lay.restartInterval > 0 && togo == 0 then seq(|lay.dcTbl|, _ => 0) else last
  }

  function Togo(lay: Layout, togo: nat): nat {
    if lay.restartInterval == 0 then togo else if togo == 0 then lay.restartInterval - 1 else togo - 1
  }

  /** What the MCUs ms send with DC table t, and with AC table t. */
  function AllDc(lay: Layout, ms: seq<mcu>, togo: nat, last: seq<int>, t: nat): seq<Item>
    requires ValidLayout(lay) && Predictions(lay, last) && forall m :: m in ms ==> McuOf(lay, m)
  {
    if ms == [] then []
    else
      var l := Start(lay, togo, last);
      McuDc(lay, l, ms[0], 0, t) + AllDc(lay, ms[1..], Togo(lay, togo), LastAfter(lay, l, ms[0], 0), t)
  }

  function AllAc(lay: Layout, ms: seq<mcu>, t: nat): seq<Item>
    requires ValidLayout(lay) && forall m :: m in ms ==> McuOf(lay, m)
  {
    if ms == [] then [] else McuAc(lay, ms[0], 0, t) + AllAc(lay, ms[1..], t)
  }

  predicate AllInRange(lay: Layout, ms: seq<mcu>, togo: nat, last: seq<int>)
    requires ValidLayout(lay) && Predictions(lay, last) && forall m :: m in ms ==> McuOf(lay, m)
  {
    ms == [] ||
    var l := Start(lay, togo, last);
    McuInRange(lay, l, ms[0], 0) && AllInRange(lay, ms[1..], Togo(lay, togo), LastAfter(lay, l, ms[0], 0))
  }

  /** counts with the symbols of items added. */
  ghost predicate Added(counts: seq<nat>, was: seq<nat>, items: seq<Item>) {
    |counts| == |was| == 257 && forall s: byte :: counts[s] == was[s] + Count(items, s)
  }

  /** What remains to be counted, if the total is items. */
  ghost predicate Remains(counts: seq<nat>, was: seq<nat>, items: seq<Item>, left: seq<Item>) {
    |counts| == |was| == 257 && forall s: byte :: counts[s] + Count(left, s) == was[s] + Count(items, s)
  }

  lemma CountOne(counts: seq<nat>, was: seq<nat>, items: seq<Item>, s: byte, left: seq<Item>)
    requires Remains(counts, was, items, [Sym(s)] + left)
    ensures Remains(counts[s := counts[s] + 1], was, items, left)
  {
    forall u: byte
      ensures Count([Sym(s)] + left, u) == (if u == s then 1 else 0) + Count(left, u)
    {
      CountPlus([Sym(s)], left, u);
      CountNext([], Sym(s), u);
      assert [] + [Sym(s)] == [Sym(s)];
    }
  }

  lemma CountNone(counts: seq<nat>, was: seq<nat>, items: seq<Item>, b: seq<bit>, left: seq<Item>)
    requires Remains(counts, was, items, [Raw(b)] + left)
    ensures Remains(counts, was, items, left)
  {
    forall u: byte
      ensures Count([Raw(b)] + left, u) == Count(left, u)
    {
      CountPlus([Raw(b)], left, u);
      CountNext([], Raw(b), u);
      assert [] + [Raw(b)] == [Raw(b)];
    }
  }

  /** The DC part of htest_one_block. */
  method CountDc(diff: int, counts: array<nat>) returns (ok: bool)
    requires counts.Length == 257 && NBits(Abs(diff)) <= 255
    modifies counts
    ensures ok <==> NBits(Abs(diff)) <= MAX_COEF_BITS + 1
    ensures ok ==> Added(counts[..], old(counts[..]), DcItems(diff))
  {
    var temp := diff;
    if temp < 0 {
      temp := -temp;
    }
    var nbits: nat := 0;
    while temp != 0
      invariant 0 <= temp && nbits + NBits(temp) == NBits(Abs(diff))
    {
      nbits := nbits + 1;
      temp := temp / 2;
    }
    if nbits > MAX_COEF_BITS + 1 {
      return false;
    }
    ghost var was := counts[..];
    var items := DcItems(diff);
    assert items == [Sym(nbits)] + ([Raw(ValueBits(diff))] + []);
    CountOne(was, was, items, nbits, [Raw(ValueBits(diff))] + []);
    counts[nbits] := counts[nbits] + 1;
    assert counts[..] == was[nbits := was[nbits] + 1];
    CountNone(counts[..], was, items, ValueBits(diff), []);
    ok := true;
  }

  /** The number of bits of a nonzero magnitude. */
  method BitLength(v: nat) returns (nbits: nat)
    requires v > 0
    ensures nbits == NBits(v)
  {
    var temp: nat := v / 2;
    nbits := 1;
    while temp != 0
      invariant nbits + NBits(temp) == NBits(v)
    {
      nbits := nbits + 1;
      temp := temp / 2;
    }
  }

  /** The ZRLs due before a coefficient. */
  method CountZrls(counts: array<nat>, r0: nat, ghost v: seq<int>, ghost k: nat, ghost was: seq<nat>, ghost items: seq<Item>)
    returns (r: nat)
    requires counts.Length == 257 && IsBlock(v) && k < DCTSIZE2 && v[k] != 0
    requires Remains(counts[..], was, items, AcItems(v, k, r0))
    modifies counts
    ensures r <= 15 && Remains(counts[..], was, items, AcItems(v, k, r))
  {
    hide Remains;
    r := r0;
    while r > 15
      invariant Remains(counts[..], was, items, AcItems(v, k, r))
    {
      ghost var now := counts[..];
      CountOne(now, was, items, ZRL, AcItems(v, k, r - 16));
      counts[0xF0] := counts[0xF0] + 1;
      assert counts[..] == now[ZRL := now[ZRL] + 1];
      r := r - 16;
    }
  }

  /** The AC part of htest_one_block. */
  method CountAc(block: array<int>, counts: array<nat>, ghost v: seq<int>) returns (ok: bool)
    requires counts.Length == 257 && block.Length == DCTSIZE2 && v == ViewOf(block[..]) && IsBlock(v)
    requires block as object != counts as object
    modifies counts
    ensures ok <==> AcInRange(v, 1)
    ensures ok ==> Added(counts[..], old(counts[..]), AcItems(v, 1, 0))
  {
    hide NaturalOrder, ViewOf, NBits, ValueBits, AcItems, Remains;
    ghost var was, items := counts[..], AcItems(v, 1, 0);
    var k, r := 1, 0;
    RemainsAll(was, items);
    while k < DCTSIZE2
      invariant 1 <= k <= DCTSIZE2 && 0 <= r && Remains(counts[..], was, items, AcItems(v, k, r))
      invariant forall j :: 1 <= j < k ==> NBits(Abs(v[j])) <= MAX_COEF_BITS
    {
      ViewAt(block[..], k);
      var temp := block[NaturalOrder(k)];
      AcUnfold(v, k, r);
      if temp == 0 {
        NoBits();
        r := r + 1;
      } else {
        r := CountZrls(counts, r, v, k, was, items);
        AcUnfold(v, k, r);
        var nbits := BitLength(Abs(temp));
        if nbits > MAX_COEF_BITS {
          return false;
        }
        ghost var now := counts[..];
        CountOne(now, was, items, 16 * r + nbits, [Raw(ValueBits(v[k]))] + AcItems(v, k + 1, 0));
        counts[16 * r + nbits] := counts[16 * r + nbits] + 1;
        assert counts[..] == now[16 * r + nbits := now[16 * r + nbits] + 1];
        CountNone(counts[..], was, items, ValueBits(v[k]), AcItems(v, k + 1, 0));
        r := 0;
      }
      k := k + 1;
    }
    AcUnfold(v, DCTSIZE2, r);
    if r > 0 {
      ghost var now := counts[..];
      assert [Sym(EOB)] == [Sym(EOB)] + [];
      CountOne(now, was, items, EOB, []);
      counts[0] := counts[0] + 1;
      assert counts[..] == now[EOB := now[EOB] + 1];
    }
    NothingRemains(counts[..], was, items);
    ok := true;
  }

  lemma RemainsAll(was: seq<nat>, items: seq<Item>)
    requires |was| == 257
    ensures Remains(was, was, items, items)
  {
  }

  lemma NothingRemains(counts: seq<nat>, was: seq<nat>, items: seq<Item>)
    requires Remains(counts, was, items, [])
    ensures Added(counts, was, items)
  {
  }

  lemma NoBits()
    ensures NBits(Abs(0)) == 0
  {
  }

  lemma AcUnfold(v: seq<int>, k: nat, r: nat)
    requires IsBlock(v) && k <= DCTSIZE2
    ensures k == DCTSIZE2 ==> AcItems(v, k, r) == if r > 0 then [Sym(EOB)] else []
    ensures k < DCTSIZE2 && v[k] == 0 ==> AcItems(v, k, r) == AcItems(v, k + 1, r + 1)
    ensures k < DCTSIZE2 && v[k] != 0 ==> NBits(Abs(v[k])) <= 15
    ensures k < DCTSIZE2 && v[k] != 0 && r <= 15 ==>
      AcItems(v, k, r) == [Sym(16 * r + NBits(Abs(v[k])))] + ([Raw(ValueBits(v[k]))] + AcItems(v, k + 1, 0))
  {
    hide NBits, ValueBits;
    if k < DCTSIZE2 {
      SmallValue(v[k]);
    }
  }

  /** htest_one_block. */
  method HtestBlock(block: array<int>, last: int, dcCounts: array<nat>, acCounts: array<nat>) returns (ok: bool)
    requires dcCounts.Length == acCounts.Length == 257 && dcCounts != acCounts && block.Length == DCTSIZE2
    requires block as object != dcCounts as object && block as object != acCounts as object
    requires IsBlock(ViewOf(block[..])) && Fits(last)
    modifies dcCounts, acCounts
    ensures ok <==> BlockInRange(last, ViewOf(block[..]))
    ensures ok ==> NBits(Abs(ViewOf(block[..])[0] - last)) <= 255
    ensures ok ==> Added(dcCounts[..], old(dcCounts[..]), DcItems(ViewOf(block[..])[0] - last))
    ensures ok ==> Added(acCounts[..], old(acCounts[..]), AcItems(ViewOf(block[..]), 1, 0))
    ensures ok ==> acCounts[0] == old(acCounts[0]) + if block[63] == 0 then 1 else 0
  {
    hide NaturalOrder, ViewOf, NBits, Added, AcItems, DcItems;
    ghost var v := ViewOf(block[..]);
    ViewAt(block[..], 63);
    LastInBoth();
    EobLaw(v, 1, 0);
    ViewAt(block[..], 0);
    DiffFits(v[0], last);
    ok := CountDc(block[NaturalOrder(0)] - last, dcCounts);
    if ok {
      ghost var was := acCounts[..];
      ok := CountAc(block, acCounts, v);
      if ok {
        AddedEobs(acCounts[..], was, AcItems(v, 1, 0));
      }
    }
  }

  lemma LastInBoth()
    ensures NaturalOrder(63) == 63
  {
  }

  lemma AddedEobs(counts: seq<nat>, was: seq<nat>, items: seq<Item>)
    requires Added(counts, was, items)
    ensures counts[0] == was[0] + Count(items, 0)
  {
  }

  /** Counting a part of what remains. */
  lemma CountedPart(counts: seq<nat>, before: seq<nat>, was: seq<nat>, items: seq<Item>, part: seq<Item>, left: seq<Item>)
    requires Added(counts, before, part) && Remains(before, was, items, part + left)
    ensures Remains(counts, was, items, left)
  {
    forall s: byte
      ensures Count(part + left, s) == Count(part, s) + Count(left, s)
    {
      CountPlus(part, left, s);
    }
  }

  lemma NoPart(items: seq<Item>)
    ensures [] + items == items
  {
  }

  ghost function Snap(counts: seq<array<nat>>): (s: seq<seq<nat>>)
    reads counts
    ensures |s| == |counts| && forall t :: 0 <= t < |s| ==> s[t] == counts[t][..]
  {
    seq(|counts|, t requires 0 <= t < |counts| reads counts => counts[t][..])
  }

  ghost predicate CountArrays(dc: seq<array<nat>>, ac: seq<array<nat>>) {
    && |dc| == |ac| == NUM_HUFF_TBLS && (forall t :: 0 <= t < NUM_HUFF_TBLS ==> dc[t].Length == ac[t].Length == 257)
    && (forall t, u :: 0 <= t < NUM_HUFF_TBLS && 0 <= u < NUM_HUFF_TBLS ==> dc[t] != ac[u])
    && forall t, u :: 0 <= t < u < NUM_HUFF_TBLS ==> dc[t] != dc[u] && ac[t] != ac[u]
  }

  ghost predicate BlockArrays(blocks: seq<array<int>>, dc: seq<array<nat>>, ac: seq<array<nat>>) {
    && (forall i :: 0 <= i < |blocks| ==> blocks[i].Length == DCTSIZE2)
    && forall i, t :: 0 <= i < |blocks| && 0 <= t < NUM_HUFF_TBLS && |dc| == |ac| == NUM_HUFF_TBLS ==>
      blocks[i] as object != dc[t] as object && blocks[i] as object != ac[t] as object
  }

  ghost predicate DcRemains(now: seq<seq<nat>>, was: seq<seq<nat>>, lay: Layout, last0: seq<int>, last: seq<int>, m: mcu, i: nat)
    requires ValidLayout(lay) && Predictions(lay, last0) && Predictions(lay, last) && McuOf(lay, m)
  {
    && |now| == |was| == NUM_HUFF_TBLS
    && forall t :: 0 <= t < NUM_HUFF_TBLS ==> Remains(now[t], was[t], McuDc(lay, last0, m, 0, t), McuDc(lay, last, m, i, t))
  }

  ghost predicate AcRemains(now: seq<seq<nat>>, was: seq<seq<nat>>, lay: Layout, m: mcu, i: nat)
    requires ValidLayout(lay) && McuOf(lay, m)
  {
    && |now| == |was| == NUM_HUFF_TBLS
    && forall t :: 0 <= t < NUM_HUFF_TBLS ==> Remains(now[t], was[t], McuAc(lay, m, 0, t), McuAc(lay, m, i, t))
  }

  lemma DcStep(now: seq<seq<nat>>, before: seq<seq<nat>>, was: seq<seq<nat>>, lay: Layout, last0: seq<int>, last: seq<int>, m: mcu, i: nat)
    requires ValidLayout(lay) && Predictions(lay, last0) && Predictions(lay, last) && McuOf(lay, m) && i < |m|
    requires DcRemains(before, was, lay, last0, last, m, i) && |now| == NUM_HUFF_TBLS
    requires var ci := lay.membership[i];
      && NBits(Abs(m[i][0] - last[ci])) <= 255
      && Added(now[lay.dcTbl[ci]], before[lay.dcTbl[ci]], DcItems(m[i][0] - last[ci]))
      && forall t :: 0 <= t < NUM_HUFF_TBLS && t != lay.dcTbl[ci] ==> now[t] == before[t]
    ensures Fits(m[i][0]) && DcRemains(now, was, lay, last0, last[lay.membership[i] := m[i][0]], m, i + 1)
  {
    hide Added, Remains, DcItems;
    var ci := lay.membership[i];
    var l := last[ci := m[i][0]];
    forall t | 0 <= t < NUM_HUFF_TBLS
      ensures Remains(now[t], was[t], McuDc(lay, last0, m, 0, t), McuDc(lay, l, m, i + 1, t))
    {
      NoPart(McuDc(lay, l, m, i + 1, t));
      if t == lay.dcTbl[ci] {
        CountedPart(now[t], before[t], was[t], McuDc(lay, last0, m, 0, t), DcItems(m[i][0] - last[ci]), McuDc(lay, l, m, i + 1, t));
      }
    }
  }

  lemma AcStep(now: seq<seq<nat>>, before: seq<seq<nat>>, was: seq<seq<nat>>, lay: Layout, m: mcu, i: nat)
    requires ValidLayout(lay) && McuOf(lay, m) && i < |m|
    requires AcRemains(before, was, lay, m, i) && |now| == NUM_HUFF_TBLS
    requires var ci := lay.membership[i];
      && Added(now[lay.acTbl[ci]], before[lay.acTbl[ci]], AcItems(m[i], 1, 0))
      && forall t :: 0 <= t < NUM_HUFF_TBLS && t != lay.acTbl[ci] ==> now[t] == before[t]
    ensures AcRemains(now, was, lay, m, i + 1)
  {
    hide Added, Remains, AcItems;
    var ci := lay.membership[i];
    forall t | 0 <= t < NUM_HUFF_TBLS
      ensures Remains(now[t], was[t], McuAc(lay, m, 0, t), McuAc(lay, m, i + 1, t))
    {
      NoPart(McuAc(lay, m, i + 1, t));
      if t == lay.acTbl[ci] {
        CountedPart(now[t], before[t], was[t], McuAc(lay, m, 0, t), AcItems(m[i], 1, 0), McuAc(lay, m, i + 1, t));
      }
    }
  }

  /** One block of an MCU, into the counts of its component's tables. */
  method GatherBlock(lay: Layout, ci: nat, block: array<int>, last: int, dc: seq<array<nat>>, ac: seq<array<nat>>) returns (ok: bool)
    requires ValidLayout(lay) && ci < |lay.dcTbl| && CountArrays(dc, ac) && BlockArrays([block], dc, ac) && block.Length == DCTSIZE2
    requires IsBlock(ViewOf(block[..])) && Fits(last)
    modifies dc[lay.dcTbl[ci]], ac[lay.acTbl[ci]]
    ensures ok <==> BlockInRange(last, ViewOf(block[..]))
    ensures ok ==> NBits(Abs(ViewOf(block[..])[0] - last)) <= 255
    ensures ok ==> Added(Snap(dc)[lay.dcTbl[ci]], old(Snap(dc))[lay.dcTbl[ci]], DcItems(ViewOf(block[..])[0] - last))
    ensures ok ==> Added(Snap(ac)[lay.acTbl[ci]], old(Snap(ac))[lay.acTbl[ci]], AcItems(ViewOf(block[..]), 1, 0))
    ensures forall t :: 0 <= t < NUM_HUFF_TBLS && t != lay.dcTbl[ci] ==> Snap(dc)[t] == old(Snap(dc))[t]
    ensures forall t :: 0 <= t < NUM_HUFF_TBLS && t != lay.acTbl[ci] ==> Snap(ac)[t] == old(Snap(ac))[t]
  {
    hide Added, ViewOf, NBits, AcItems, DcItems;
    assert [block][0] == block;
    ok := HtestBlock(block, last, dc[lay.dcTbl[ci]], ac[lay.acTbl[ci]]);
  }

  /** The blocks of encode_mcu_gather. */
  method GatherBlocks(lay: Layout, last0: seq<int>, blocks: seq<array<int>>, dc: seq<array<nat>>, ac: seq<array<nat>>)
    returns (ok: bool, last: seq<int>)
    requires ValidLayout(lay) && Predictions(lay, last0) && CountArrays(dc, ac) && BlockArrays(blocks, dc, ac)
    requires (forall i :: 0 <= i < |blocks| ==> blocks[i].Length == DCTSIZE2) && McuOf(lay, Views(blocks))
    modifies dc, ac
    ensures ok <==> McuInRange(lay, last0, Views(blocks), 0)
    ensures ok ==> last == LastAfter(lay, last0, Views(blocks), 0)
    ensures ok ==> forall t :: 0 <= t < NUM_HUFF_TBLS ==> Added(Snap(dc)[t], old(Snap(dc))[t], McuDc(lay, last0, Views(blocks), 0, t))
    ensures ok ==> forall t :: 0 <= t < NUM_HUFF_TBLS ==> Added(Snap(ac)[t], old(Snap(ac))[t], McuAc(lay, Views(blocks), 0, t))
  {
    hide ViewOf, NaturalOrder, Added, IsBlock, BlockInRange, AcItems, DcItems, Remains, ValidLayout, NBits, Views,
      Gathering, McuInRange, LastAfter, McuDc, McuAc, BlockArrays, Predictions, CountArrays;
    ghost var m, wasDc, wasAc := Views(blocks), Snap(dc), Snap(ac);
    last := last0;
    var i: nat := 0;
    CountShape(dc, ac);
    StartCounting(wasDc, wasAc, lay, last0, m);
    while i < |blocks|
      invariant i <= |blocks| && Views(blocks) == m && Predictions(lay, last)
      invariant Gathering(Snap(dc), Snap(ac), wasDc, wasAc, lay, last0, last, m, i)
    {
      var ci := Member(lay, i);
      ghost var nowDc, nowAc, was := Snap(dc), Snap(ac), last;
      OneBlock(blocks, dc, ac, i, lay, last);
      ok := GatherBlock(lay, ci, blocks[i], last[ci], dc, ac);
      assert Views(blocks) == m;
      if !ok {
        OutOfRange(nowDc, nowAc, wasDc, wasAc, lay, last0, last, m, i);
        return;
      }
      last := last[ci := blocks[i][NaturalOrder(0)]];
      BlockGathered(Snap(dc), Snap(ac), nowDc, nowAc, wasDc, wasAc, lay, last0, was, m, i);
      i := i + 1;
    }
    AllCounted(Snap(dc), Snap(ac), wasDc, wasAc, lay, last0, last, m);
    ok := true;
  }

  /** The blocks before the i'th are in range and counted, the rest is what still matters. */
  ghost predicate Gathering(nowDc: seq<seq<nat>>, nowAc: seq<seq<nat>>, wasDc: seq<seq<nat>>, wasAc: seq<seq<nat>>, lay: Layout,
      last0: seq<int>, last: seq<int>, m: mcu, i: nat)
    requires ValidLayout(lay) && Predictions(lay, last0) && Predictions(lay, last) && McuOf(lay, m)
  {
    && McuInRange(lay, last, m, i) == McuInRange(lay, last0, m, 0) && LastAfter(lay, last, m, i) == LastAfter(lay, last0, m, 0)
    && DcRemains(nowDc, wasDc, lay, last0, last, m, i) && AcRemains(nowAc, wasAc, lay, m, i)
  }

  lemma OutOfRange(nowDc: seq<seq<nat>>, nowAc: seq<seq<nat>>, wasDc: seq<seq<nat>>, wasAc: seq<seq<nat>>, lay: Layout,
      last0: seq<int>, last: seq<int>, m: mcu, i: nat)
    requires ValidLayout(lay) && Predictions(lay, last0) && Predictions(lay, last) && McuOf(lay, m) && i < |m|
    requires Gathering(nowDc, nowAc, wasDc, wasAc, lay, last0, last, m, i) && !BlockInRange(last[lay.membership[i]], m[i])
    ensures !McuInRange(lay, last0, m, 0)
  {
    hide BlockInRange, LastAfter, DcRemains, AcRemains;
  }

  lemma BlockGathered(nextDc: seq<seq<nat>>, nextAc: seq<seq<nat>>, nowDc: seq<seq<nat>>, nowAc: seq<seq<nat>>,
      wasDc: seq<seq<nat>>, wasAc: seq<seq<nat>>, lay: Layout, last0: seq<int>, last: seq<int>, m: mcu, i: nat)
    requires ValidLayout(lay) && Predictions(lay, last0) && Predictions(lay, last) && McuOf(lay, m) && i < |m|
    requires |nextDc| == |nextAc| == |nowDc| == |nowAc| == NUM_HUFF_TBLS
    requires Gathering(nowDc, nowAc, wasDc, wasAc, lay, last0, last, m, i) && BlockInRange(last[lay.membership[i]], m[i])
    requires Fits(m[i][0]) && NBits(Abs(m[i][0] - last[lay.membership[i]])) <= 255
    requires var ci := lay.membership[i];
      && Added(nextDc[lay.dcTbl[ci]], nowDc[lay.dcTbl[ci]], DcItems(m[i][0] - last[ci]))
      && Added(nextAc[lay.acTbl[ci]], nowAc[lay.acTbl[ci]], AcItems(m[i], 1, 0))
      && (forall t :: 0 <= t < NUM_HUFF_TBLS && t != lay.dcTbl[ci] ==> nextDc[t] == nowDc[t])
      && forall t :: 0 <= t < NUM_HUFF_TBLS && t != lay.acTbl[ci] ==> nextAc[t] == nowAc[t]
    ensures Predictions(lay, last[lay.membership[i] := m[i][0]])
    ensures Gathering(nextDc, nextAc, wasDc, wasAc, lay, last0, last[lay.membership[i] := m[i][0]], m, i + 1)
  {
    hide Added, Remains, AcItems, DcItems, McuDc, McuAc, McuInRange, LastAfter, DcRemains, AcRemains, BlockInRange;
    McuUnfold(lay, last, m, i);
    DcStep(nextDc, nowDc, wasDc, lay, last0, last, m, i);
    AcStep(nextAc, nowAc, wasAc, lay, m, i);
  }

  lemma CountShape(dc: seq<array<nat>>, ac: seq<array<nat>>)
    requires CountArrays(dc, ac)
    ensures |dc| == |ac| == NUM_HUFF_TBLS && forall t :: 0 <= t < NUM_HUFF_TBLS ==> |Snap(dc)[t]| == |Snap(ac)[t]| == 257
  {
  }

  function Member(lay: Layout, i: nat): (ci: nat)
    requires ValidLayout(lay) && i < |lay.membership|
    ensures ci < |lay.dcTbl| == |lay.acTbl| && ci == lay.membership[i] && lay.dcTbl[ci] < NUM_HUFF_TBLS && lay.acTbl[ci] < NUM_HUFF_TBLS
  {
    lay.membership[i]
  }

  lemma OneBlock(blocks: seq<array<int>>, dc: seq<array<nat>>, ac: seq<array<nat>>, i: nat, lay: Layout, last: seq<int>)
    requires CountArrays(dc, ac) && BlockArrays(blocks, dc, ac) && i < |blocks|
    requires ValidLayout(lay) && Predictions(lay, last) && McuOf(lay, Views(blocks))
    ensures BlockArrays([blocks[i]], dc, ac) && blocks[i].Length == DCTSIZE2 && IsBlock(ViewOf(blocks[i][..]))
    ensures Views(blocks)[i] == ViewOf(blocks[i][..]) && Views(blocks)[i][0] == blocks[i][NaturalOrder(0)]
    ensures |last| == |lay.dcTbl| && Fits(last[lay.membership[i]]) && Fits(Views(blocks)[i][0])
    ensures Predictions(lay, last[lay.membership[i] := Views(blocks)[i][0]])
  {
    hide ViewOf;
    ViewAt(blocks[i][..], 0);
  }

  lemma McuUnfold(lay: Layout, last: seq<int>, m: mcu, i: nat)
    requires ValidLayout(lay) && Predictions(lay, last) && McuOf(lay, m)
    ensures i >= |m| ==> McuInRange(lay, last, m, i) && LastAfter(lay, last, m, i) == last
    ensures i < |m| ==>
      var l := last[lay.membership[i] := m[i][0]];
      && Predictions(lay, l) && LastAfter(lay, last, m, i) == LastAfter(lay, l, m, i + 1)
      && McuInRange(lay, last, m, i) == (BlockInRange(last[lay.membership[i]], m[i]) && McuInRange(lay, l, m, i + 1))
  {
    hide BlockInRange;
  }

  lemma StartCounting(wasDc: seq<seq<nat>>, wasAc: seq<seq<nat>>, lay: Layout, last0: seq<int>, m: mcu)
    requires ValidLayout(lay) && Predictions(lay, last0) && McuOf(lay, m) && |wasDc| == |wasAc| == NUM_HUFF_TBLS
    requires forall t :: 0 <= t < NUM_HUFF_TBLS ==> |wasDc[t]| == |wasAc[t]| == 257
    ensures Gathering(wasDc, wasAc, wasDc, wasAc, lay, last0, last0, m, 0)
  {
    forall t | 0 <= t < NUM_HUFF_TBLS
      ensures Remains(wasDc[t], wasDc[t], McuDc(lay, last0, m, 0, t), McuDc(lay, last0, m, 0, t))
      ensures Remains(wasAc[t], wasAc[t], McuAc(lay, m, 0, t), McuAc(lay, m, 0, t))
    {
      RemainsAll(wasDc[t], McuDc(lay, last0, m, 0, t));
      RemainsAll(wasAc[t], McuAc(lay, m, 0, t));
    }
  }

  lemma AllCounted(nowDc: seq<seq<nat>>, nowAc: seq<seq<nat>>, wasDc: seq<seq<nat>>, wasAc: seq<seq<nat>>, lay: Layout,
      last0: seq<int>, last: seq<int>, m: mcu)
    requires ValidLayout(lay) && Predictions(lay, last0) && Predictions(lay, last) && McuOf(lay, m)
    requires Gathering(nowDc, nowAc, wasDc, wasAc, lay, last0, last, m, |m|)
    ensures McuInRange(lay, last0, m, 0) && last == LastAfter(lay, last0, m, 0)
    ensures forall t :: 0 <= t < NUM_HUFF_TBLS ==>
      Added(nowDc[t], wasDc[t], McuDc(lay, last0, m, 0, t)) && Added(nowAc[t], wasAc[t], McuAc(lay, m, 0, t))
  {
    hide Remains, Added;
    McuUnfold(lay, last, m, |m|);
    forall t | 0 <= t < NUM_HUFF_TBLS
      ensures Added(nowDc[t], wasDc[t], McuDc(lay, last0, m, 0, t)) && Added(nowAc[t], wasAc[t], McuAc(lay, m, 0, t))
    {
      NothingRemains(nowDc[t], wasDc[t], McuDc(lay, last0, m, 0, t));
      NothingRemains(nowAc[t], wasAc[t], McuAc(lay, m, 0, t));
    }
  }
}
