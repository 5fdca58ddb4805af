/** decode_mcu_slow of jdhuff.c: blocks read from the bit stream, one symbol at a time. */
module SequentialDecoder {

  import opened Wrappers
  import opened CodeString
  import opened PrefixCode
  import CanonicalCode
  import opened DerivedTables
  import opened DecodingTables
  import opened BitReader
  import opened CodedItems
  import opened ZigZag
  import opened Coefficients
  import opened SequentialSpec
  import opened SequentialScan

  datatype Tables = Tables(dc: DTable, ac: DTable)

  ghost predicate DecodesWith(c: Component, t: Tables) {
    ValidTables(c) && Decodes(c.dc, t.dc) && Decodes(c.ac, t.ac)
  }

  /** GET_BITS and HUFF_EXTEND for a value of s bits. */
  method GetValue(br: Reader, s: nat) returns (ok: bool, x: int)
    requires br.Supplied(1) && s <= 16
    modifies br
    ensures br.Valid() && (!ok ==> br.Suspended())
    ensures ok ==> br.Advanced(1) && ReadValue(s, old(br.Known())) == Some((x, br.Known()))
  {
    hide Reader.Known, Number, Shl;
    ok, x := true, 0;
    if s != 0 {
      var r: nat;
      ok, r := br.GetBits(s);
      x := Extend(r, s);
    }
  }

  /** Symbols of a DC table are sizes up to fifteen. */
  lemma DcSymbol(h: HuffTbl, t: seq<bit>)
    requires Accepted(h) && Encodable(h, true) && ReadSym(CodeOf(h), t).Some?
    ensures ReadSym(CodeOf(h), t).value.0 <= 15
  {
    hide CanonicalCode.Legal, Lengths, CanonicalCode.Words, CanonicalCode.Codes;
    var c := CodeOf(h);
    if p: nat :| Begins(c, p, t) {
      ReadWord(c, p, t);
    }
  }

  method DecodeDc(br: Reader, t: DTable, ghost h: HuffTbl) returns (ok: bool, diff: int)
    requires br.Supplied(20) && Decodes(h, t) && Accepted(h) && Encodable(h, true)
    modifies br
    ensures br.Valid() && (!ok ==> br.Suspended())
    ensures ok ==> br.Advanced(20) && ReadDc(CodeOf(h), old(br.Known())) == Some((diff, br.Known()))
  {
    hide Reader.Known, CodeOf, ReadSym, ReadValue, Decodes, Accepted, Encodable;
    var s;
    diff := 0;
    ghost var t0 := br.Known();
    ok, s := br.HuffDecode(t, h);
    if ok {
      DcSymbol(h, t0);
      ok, diff := GetValue(br, s);
    }
  }

  /** Requests that may still be made from coefficient k on. */
  function AcBudget(k: nat): nat {
    if k < DCTSIZE2 then 20 * (DCTSIZE2 - k) else 0
  }

  /** Store a coefficient in natural order; the order's table repeats its last entry. */
  method PutCoef(block: array<int>, k: nat, x: int)
    requires block.Length == DCTSIZE2
    modifies block
    ensures ViewOf(block[..]) == ViewOf(old(block[..]))[Slot(k) := x]
  {
    hide NaturalOrder, ViewOf;
    ghost var was := block[..];
    var at := Slot(k);
    ViewUpdate(was, at, x);
    block[NaturalOrder(at)] := x;
    assert block[..] == was[NaturalOrder(at) := x];
  }

  /** The AC loop of decode_mcu_slow. */
  method DecodeAc(br: Reader, block: array<int>, t: DTable, ghost h: HuffTbl) returns (ok: bool)
    requires br.Supplied(AcBudget(1)) && Decodes(h, t) && Accepted(h) && block.Length == DCTSIZE2
    modifies br, block
    ensures br.Valid() && (!ok ==> br.Suspended()) && (ok ==> br.Advanced(AcBudget(1)))
    ensures var v := ViewOf(old(block[..]));
      var r := ReadAc(CodeOf(h), v, 1, old(br.Known()));
      && (ok ==> r == Some((ViewOf(block[..]), br.Known())))
      && (!ok && r.Some? ==> Patch(v, ViewOf(block[..]), r.value.0))
  {
    hide Reader.Known, CodeOf, ReadSym, ReadValue, ReadAc, Decodes, Accepted, ViewOf, Patch;
    ghost var c, v, t0 := CodeOf(h), ViewOf(block[..]), br.Known();
    var k: nat := 1;
    ok := true;
    PatchStart(c, v, v, 1, t0);
    while k < DCTSIZE2
      invariant br.Valid() && br.Advanced(AcBudget(1) - AcBudget(k)) && ok
      invariant ReadAc(c, v, 1, t0) == ReadAc(c, ViewOf(block[..]), k, br.Known())
      invariant ReadAc(c, v, 1, t0).Some? ==> Patch(v, ViewOf(block[..]), ReadAc(c, v, 1, t0).value.0)
      decreases DCTSIZE2 - k
    {
      ghost var w, s := ViewOf(block[..]), br.Known();
      var stop;
      ok, stop, k := DecodeCoef(br, block, t, h, k);
      if !ok {
        return;
      }
      PatchNext(c, v, w, ViewOf(block[..]), t0, k, br.Known(), stop);
      if stop {
        return;
      }
    }
    AcDone(c, ViewOf(block[..]), k, br.Known());
  }

  lemma PatchStart(c: Code, v: seq<int>, w: seq<int>, k: nat, t: seq<bit>)
    requires PrefixFree(c) && |v| == DCTSIZE2 && w == v
    ensures ReadAc(c, v, k, t).Some? ==> Patch(v, w, ReadAc(c, v, k, t).value.0)
  {
  }

  /** What was stored before position k is final. */
  lemma PatchNext(c: Code, v: seq<int>, w: seq<int>, u: seq<int>, t0: seq<bit>, k: nat, s: seq<bit>, stop: bool)
    requires PrefixFree(c) && |v| == |w| == |u| == DCTSIZE2
    requires ReadAc(c, v, 1, t0).Some? ==> Patch(v, w, ReadAc(c, v, 1, t0).value.0)
    requires forall j :: 0 <= j < DCTSIZE2 && u[j] != w[j] ==> j < k
    requires ReadAc(c, v, 1, t0) == if stop then Some((u, s)) else ReadAc(c, u, k, s)
    ensures ReadAc(c, v, 1, t0).Some? ==> Patch(v, u, ReadAc(c, v, 1, t0).value.0)
  {
    hide PrefixFree, ReadAc;
    if !stop && ReadAc(c, u, k, s).Some? {
      ReadAcKeeps(c, u, k, s);
    }
  }

  /** One run/size symbol and what it asks for. */
  method DecodeCoef(br: Reader, block: array<int>, t: DTable, ghost h: HuffTbl, k: nat)
    returns (ok: bool, stop: bool, k1: nat)
    requires br.Supplied(20) && Decodes(h, t) && Accepted(h) && block.Length == DCTSIZE2 && k < DCTSIZE2
    modifies br, block
    ensures br.Valid() && (!ok ==> br.Suspended() && block[..] == old(block[..]))
    ensures ok ==> br.Advanced(20) && k < k1
    ensures ok ==> forall j :: 0 <= j < DCTSIZE2 && ViewOf(block[..])[j] != ViewOf(old(block[..]))[j] ==> j < k1
    ensures ok ==> (ReadAc(CodeOf(h), ViewOf(old(block[..])), k, old(br.Known()))
                    == if stop then Some((ViewOf(block[..]), br.Known()))
                       else ReadAc(CodeOf(h), ViewOf(block[..]), k1, br.Known()))
  {
    hide Reader.Known, CodeOf, ReadSym, ReadValue, ReadAc, Decodes, Accepted, ViewOf, PrefixFree;
    ghost var t0 := br.Known();
    var rs;
    stop, k1 := false, k + 1;
    ok, rs := br.HuffDecode(t, h);
    if !ok {
      return;
    }
    AcStep(CodeOf(h), ViewOf(block[..]), k, t0);
    var r, s := rs / 16, rs % 16;
    if s != 0 {
      var x;
      ok, x := GetValue(br, s);
      if ok {
        PutCoef(block, k + r, x);
        k1 := k + r + 1;
      }
    } else if r != 15 {
      stop := true;
    } else {
      k1 := k + 16;
    }
  }

  const BLOCK_BUDGET := 1280

  /** One block of decode_mcu_slow. */
  method DecodeBlock(br: Reader, block: array<int>, last: int, t: Tables, ghost c: Component) returns (ok: bool, x: int)
    requires br.Supplied(BLOCK_BUDGET) && DecodesWith(c, t) && block.Length == DCTSIZE2
    modifies br, block
    ensures br.Valid() && (!ok ==> br.Suspended()) && (ok ==> br.Advanced(BLOCK_BUDGET))
    ensures var v := ViewOf(old(block[..]));
      var r := ReadBlock(c, last, v, old(br.Known()));
      && (ok ==> r == Some((ViewOf(block[..]), x, br.Known())))
      && (!ok && r.Some? ==> Patch(v, ViewOf(block[..]), r.value.0))
  {
    hide Reader.Known, CodeOf, ReadDc, ReadAc, Decodes, Accepted, Encodable, Proper, ViewOf, Patch, Short;
    ghost var v, t0 := ViewOf(block[..]), br.Known();
    x := 0;
    var diff;
    ok, diff := DecodeDc(br, t.dc, c.dc);
    if !ok {
      PatchSame(v, ReadBlock(c, last, v, t0));
      return;
    }
    x := last + diff;
    PutCoef(block, 0, Short(x));
    ghost var t1 := br.Known();
    ok := DecodeAc(br, block, t.ac, c.ac);
    if !ok && ReadBlock(c, last, v, t0).Some? {
      PatchFirst(CodeOf(c.ac), v, Short(x), ViewOf(block[..]), t1);
    }
  }

  lemma PatchSame(v: seq<int>, r: Option<(seq<int>, int, seq<bit>)>)
    requires |v| == DCTSIZE2 && (r.Some? ==> |r.value.0| == DCTSIZE2)
    ensures r.Some? ==> Patch(v, v, r.value.0)
  {
  }

  lemma PatchFirst(c: Code, v: seq<int>, x: int, w: seq<int>, t: seq<bit>)
    requires PrefixFree(c) && |v| == DCTSIZE2 && ReadAc(c, v[0 := x], 1, t).Some?
    requires Patch(v[0 := x], w, ReadAc(c, v[0 := x], 1, t).value.0)
    ensures Patch(v, w, ReadAc(c, v[0 := x], 1, t).value.0)
  {
    hide PrefixFree, ReadAc;
    ReadAcKeeps(c, v[0 := x], 1, t);
  }

  ghost predicate AllDecode(sc: Scan, ts: seq<Tables>) {
    ValidScan(sc) && |ts| == |sc.comps| && forall i :: 0 <= i < |ts| ==> DecodesWith(sc.comps[i], ts[i])
  }

  ghost predicate Storage(sc: Scan, blocks: seq<array<int>>) {
    && |blocks| == |sc.membership| && (forall i :: 0 <= i < |blocks| ==> blocks[i].Length == DCTSIZE2)
    && forall i, j :: 0 <= i < j < |blocks| ==> blocks[i] != blocks[j]
  }

  /** Requests an MCU of n blocks may make. */
  function McuBudget(n: nat): nat {
    1280 * n
  }

  /** Block i is next: what is read from here on is what the whole MCU reads. */
  ghost predicate Mid(sc: Scan, last0: seq<int>, m: mcu, t0: seq<bit>, last: seq<int>, n: mcu, i: nat, s: seq<bit>)
    requires ValidScan(sc)
  {
    && ValidStorage(sc, last0, m) && ValidStorage(sc, last, n)
    && ReadMcu(sc, last0, m, 0, t0) == ReadMcu(sc, last, n, i, s)
    && (forall k :: i <= k < |m| ==> n[k] == m[k])
    && (ReadMcu(sc, last0, m, 0, t0).Some? ==> Patched(m, n, ReadMcu(sc, last0, m, 0, t0).value.0))
  }

  lemma MidStart(sc: Scan, last: seq<int>, m: mcu, t: seq<bit>)
    requires ValidScan(sc) && ValidStorage(sc, last, m)
    ensures Mid(sc, last, m, t, last, m, 0, t)
  {
    hide ReadMcu, ValidTables;
  }

  lemma MidNext(sc: Scan, last0: seq<int>, m: mcu, t0: seq<bit>, last: seq<int>, n: mcu, i: nat, s: seq<bit>,
      b: seq<int>, x: int, u: seq<bit>)
    requires ValidScan(sc) && Mid(sc, last0, m, t0, last, n, i, s) && i < |m|
    requires ReadBlock(sc.comps[sc.membership[i]], last[sc.membership[i]], n[i], s) == Some((b, x, u))
    ensures |b| == DCTSIZE2 && Mid(sc, last0, m, t0, last[sc.membership[i] := x], n[i := b], i + 1, u)
  {
    hide ReadBlock, ValidTables;
    var l := last[sc.membership[i] := x];
    if ReadMcu(sc, l, n[i := b], i + 1, u).Some? {
      ReadMcuKeeps(sc, l, n[i := b], i + 1, u);
    }
  }

  lemma MidCut(sc: Scan, last0: seq<int>, m: mcu, t0: seq<bit>, last: seq<int>, n: mcu, i: nat, s: seq<bit>, w: seq<int>)
    requires ValidScan(sc) && Mid(sc, last0, m, t0, last, n, i, s) && i < |m| && |w| == DCTSIZE2
    requires var r := ReadBlock(sc.comps[sc.membership[i]], last[sc.membership[i]], n[i], s);
      r.Some? ==> Patch(n[i], w, r.value.0)
    ensures var r := ReadMcu(sc, last0, m, 0, t0);
      r.Some? ==> Patched(m, n[i := w], r.value.0)
  {
    hide ReadBlock, ValidTables;
    if ReadMcu(sc, last0, m, 0, t0).Some? {
      var r := ReadBlock(sc.comps[sc.membership[i]], last[sc.membership[i]], n[i], s).value;
      var l := last[sc.membership[i] := r.1];
      ReadMcuKeeps(sc, l, n[i := r.0], i + 1, r.2);
    }
  }

  lemma MidEnd(sc: Scan, last0: seq<int>, m: mcu, t0: seq<bit>, last: seq<int>, n: mcu, i: nat, s: seq<bit>)
    requires ValidScan(sc) && Mid(sc, last0, m, t0, last, n, i, s) && i >= |m|
    ensures ReadMcu(sc, last0, m, 0, t0) == Some((n, last, s))
  {
    hide ValidTables;
  }

  /** The block loop of decode_mcu_slow. */
  method DecodeBlocks(br: Reader, sc: Scan, ts: seq<Tables>, last0: seq<int>, blocks: seq<array<int>>)
    returns (ok: bool, last: seq<int>)
    requires AllDecode(sc, ts) && Storage(sc, blocks) && |last0| == |sc.comps| && br.Supplied(McuBudget(|blocks|))
    modifies br, blocks
    ensures br.Valid() && (!ok ==> br.Suspended()) && (ok ==> br.Advanced(McuBudget(|blocks|))) && |last| == |sc.comps|
    ensures var m := old(Views(blocks));
      var r := ReadMcu(sc, last0, m, 0, old(br.Known()));
      && (ok ==> r == Some((Views(blocks), last, br.Known())))
      && (!ok && r.Some? ==> Patched(m, Views(blocks), r.value.0))
  {
    hide Reader.Known, ReadBlock, ReadMcu, DecodesWith, ValidTables, ViewOf, Patched, Patch, Mid, Views;
    ghost var m, t0 := Views(blocks), br.Known();
    last, ok := last0, true;
    ViewsShape(blocks);
    MidStart(sc, last0, m, t0);
    var i: nat := 0;
    while i < |blocks|
      invariant i <= |blocks| && br.Valid() && |last| == |sc.comps| && ok
      invariant br.Advanced(McuBudget(i))
      invariant Mid(sc, last0, m, t0, last, Views(blocks), i, br.Known())
    {
      var ci := sc.membership[i];
      ghost var n, s, l := Views(blocks), br.Known(), last;
      ViewsShape(blocks);
      var x;
      ok, x := DecodeBlock(br, blocks[i], last[ci], ts[ci], sc.comps[ci]);
      ViewsAfter(blocks, i, n);
      if !ok {
        MidCut(sc, last0, m, t0, l, n, i, s, ViewOf(blocks[i][..]));
        return;
      }
      MidNext(sc, last0, m, t0, l, n, i, s, ViewOf(blocks[i][..]), x, br.Known());
      last := last[ci := x];
      i := i + 1;
    }
    MidEnd(sc, last0, m, t0, last, Views(blocks), i, br.Known());
  }

  lemma ViewsShape(blocks: seq<array<int>>)
    requires forall i :: 0 <= i < |blocks| ==> blocks[i].Length == DCTSIZE2
    ensures forall i :: 0 <= i < |blocks| ==> |Views(blocks)[i]| == DCTSIZE2 && Views(blocks)[i] == ViewOf(blocks[i][..])
  {
    hide ViewOf;
  }

  /** Only block i has changed. */
  lemma ViewsAfter(blocks: seq<array<int>>, i: nat, n: mcu)
    requires (forall k :: 0 <= k < |blocks| ==> blocks[k].Length == DCTSIZE2) && i < |blocks|
    requires |n| == |blocks| && forall k :: 0 <= k < |blocks| && k != i ==> ViewOf(blocks[k][..]) == n[k]
    ensures Views(blocks) == n[i := ViewOf(blocks[i][..])]
  {
    hide ViewOf;
  }
}
