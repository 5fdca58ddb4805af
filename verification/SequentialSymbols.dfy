/** How many symbols a sequential scan sends with each table, and of which sizes. */
module SequentialSymbols {

  import opened CodeString
  import opened CodedItems
  import opened ZigZag
  import opened Coefficients
  import opened SequentialSpec
  import opened SequentialScan
  import opened SequentialGather
  import opened CountedSymbols

  /** A coefficient in range behind r zeros. */
  lemma ValueFew(v: seq<int>, k: nat, r: nat)
    requires IsBlock(v) && k < DCTSIZE2 && AcInRange(v, k) && r <= 15
    ensures -0x8000 < v[k] < 0x8000 && NBits(Abs(v[k])) <= 10
    ensures Few([Sym(16 * r + NBits(Abs(v[k]))), Raw(ValueBits(v[k]))], 1, 10)
  {
    hide Few, NBits, ValueBits;
    FewOne(16 * r + NBits(Abs(v[k])), [Raw(ValueBits(v[k]))], 10);
    assert [Sym(16 * r + NBits(Abs(v[k])))] + [Raw(ValueBits(v[k]))] == [Sym(16 * r + NBits(Abs(v[k]))), Raw(ValueBits(v[k]))];
  }

  lemma SymbolFew(s: byte)
    requires s % 16 <= 10
    ensures Few([Sym(s)], 1, 10)
  {
    hide Few;
    FewOne(s, [], 10);
    assert [Sym(s)] + [] == [Sym(s)];
  }

  lemma FurtherInRange(v: seq<int>, k: nat)
    requires IsBlock(v) && |v| == DCTSIZE2 && k < DCTSIZE2 && AcInRange(v, k)
    ensures AcInRange(v, k + 1)
  {
    hide NBits;
  }

  /** From coefficient k on, r zeros having been passed. */
  lemma {:induction false} AcFew(v: seq<int>, k: nat, r: nat)
    requires IsBlock(v) && |v| == DCTSIZE2 && k <= DCTSIZE2 && AcInRange(v, k)
    ensures Few(AcItems(v, k, r), DCTSIZE2 - k + r, 10)
    ensures k < DCTSIZE2 || r > 0 ==> AcItems(v, k, r) != []
    decreases DCTSIZE2 - k, r
  {
    hide Few, NBits, ValueBits, IsBlock, AcInRange, AcItems;
    FewNone(10);
    AcUnfolds(v, k, r);
    if k == DCTSIZE2 {
      SymbolFew(EOB);
      if r > 0 {
        FewMore([Sym(EOB)], 1, r, 10, 10);
      }
    } else {
      FurtherInRange(v, k);
      if v[k] == 0 {
        AcFew(v, k + 1, r + 1);
      } else if r > 15 {
        AcFew(v, k, r - 16);
        var rest := AcItems(v, k, r - 16);
        SymbolFew(ZRL);
        FewPlus([Sym(ZRL)], 1, rest, DCTSIZE2 - k + r - 16, 10);
        FewMore([Sym(ZRL)] + rest, DCTSIZE2 - k + r - 15, DCTSIZE2 - k + r, 10, 10);
      } else {
        AcFew(v, k + 1, 0);
        ValueFew(v, k, r);
        var rest, first := AcItems(v, k + 1, 0), [Sym(16 * r + NBits(Abs(v[k]))), Raw(ValueBits(v[k]))];
        FewPlus(first, 1, rest, DCTSIZE2 - k - 1, 10);
        FewMore(first + rest, DCTSIZE2 - k, DCTSIZE2 - k + r, 10, 10);
      }
    }
  }

  lemma DcFew(diff: int)
    requires NBits(Abs(diff)) <= MAX_COEF_BITS + 1
    ensures Few(DcItems(diff), 1, 15)
  {
    hide Few, NBits, ValueBits;
    FewOne(NBits(Abs(diff)), [Raw(ValueBits(diff))], 15);
    assert [Sym(NBits(Abs(diff)))] + [Raw(ValueBits(diff))] == DcItems(diff);
  }

  /** AC table t is used by one of the blocks from the i'th on. */
  predicate AcUsed(lay: Layout, i: nat, t: nat)
    requires ValidLayout(lay)
  {
    exists j :: i <= j < |lay.membership| && lay.acTbl[lay.membership[j]] == t
  }

  predicate DcUsed(lay: Layout, i: nat, t: nat)
    requires ValidLayout(lay)
  {
    exists j :: i <= j < |lay.membership| && lay.dcTbl[lay.membership[j]] == t
  }

  lemma {:induction false} McuAcFew(lay: Layout, last: seq<int>, m: mcu, i: nat, t: nat)
    requires ValidLayout(lay) && Predictions(lay, last) && McuOf(lay, m) && i <= |m| && McuInRange(lay, last, m, i)
    ensures Few(McuAc(lay, m, i, t), 64 * (|m| - i), 10)
    ensures AcUsed(lay, i, t) ==> McuAc(lay, m, i, t) != []
    decreases |m| - i
  {
    hide Few, NBits, AcItems;
    FewNone(10);
    if i < |m| {
      var ci := lay.membership[i];
      McuAcFew(lay, last[ci := m[i][0]], m, i + 1, t);
      AcFew(m[i], 1, 0);
      FewMore(AcItems(m[i], 1, 0), 63, 64, 10, 10);
      FewMore([], 0, 64, 10, 10);
      FewPlus(if lay.acTbl[ci] == t then AcItems(m[i], 1, 0) else [], 64, McuAc(lay, m, i + 1, t), 64 * (|m| - (i + 1)), 10);
    }
  }

  lemma {:induction false} McuDcFew(lay: Layout, last: seq<int>, m: mcu, i: nat, t: nat)
    requires ValidLayout(lay) && Predictions(lay, last) && McuOf(lay, m) && i <= |m| && McuInRange(lay, last, m, i)
    ensures Few(McuDc(lay, last, m, i, t), |m| - i, 15)
    ensures DcUsed(lay, i, t) ==> McuDc(lay, last, m, i, t) != []
    decreases |m| - i
  {
    hide Few, NBits, DcItems;
    FewNone(15);
    if i < |m| {
      var ci := lay.membership[i];
      var d := m[i][0] - last[ci];
      DiffFits(m[i][0], last[ci]);
      McuDcFew(lay, last[ci := m[i][0]], m, i + 1, t);
      DcFew(d);
      FewMore([], 0, 1, 15, 15);
      FewPlus(if lay.dcTbl[ci] == t then DcItems(d) else [], 1, McuDc(lay, last[ci := m[i][0]], m, i + 1, t), |m| - (i + 1), 15);
      assert DcItems(d) != [] by {
        DcNotEmpty(d);
      }
    }
  }

  lemma DcNotEmpty(diff: int)
    requires NBits(Abs(diff)) <= 255
    ensures DcItems(diff) != []
  {
  }

  /** The number of blocks of some MCUs. */
  function BlocksIn(ms: seq<mcu>): nat {
    if ms == [] then 0 else |ms[0]| + BlocksIn(ms[1..])
  }

  /** The counts of a scan in range: not too many symbols for each table, and at least one for a
  table in use. */
  lemma {:induction false} AllFew(lay: Layout, ms: seq<mcu>, togo: nat, last: seq<int>, t: nat)
    requires ValidLayout(lay) && Predictions(lay, last) && (forall m :: m in ms ==> McuOf(lay, m)) && AllInRange(lay, ms, togo, last)
    ensures Few(AllAc(lay, ms, t), 64 * BlocksIn(ms), 10) && Few(AllDc(lay, ms, togo, last, t), BlocksIn(ms), 15)
    ensures ms != [] && AcUsed(lay, 0, t) ==> AllAc(lay, ms, t) != []
    ensures ms != [] && DcUsed(lay, 0, t) ==> AllDc(lay, ms, togo, last, t) != []
  {
    hide Few, McuAc, McuDc, McuInRange, LastAfter, AcUsed, DcUsed, McuOf;
    FewNone(10);
    FewNone(15);
    if ms != [] {
      var l := Start(lay, togo, last);
      var next, n := LastAfter(lay, l, ms[0], 0), |ms[0]|;
      McuAcFew(lay, l, ms[0], 0, t);
      McuDcFew(lay, l, ms[0], 0, t);
      AllFew(lay, ms[1..], Togo(lay, togo), next, t);
      FewPlus(McuAc(lay, ms[0], 0, t), 64 * n, AllAc(lay, ms[1..], t), 64 * BlocksIn(ms[1..]), 10);
      FewPlus(McuDc(lay, l, ms[0], 0, t), n, AllDc(lay, ms[1..], Togo(lay, togo), next, t), BlocksIn(ms[1..]), 15);
    }
  }
}
