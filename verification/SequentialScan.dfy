/** Sequential Huffman scans: the bits of each MCU, and how restart intervals split them. */
module SequentialScan {

  import opened Wrappers
  import opened CodeString
  import opened PrefixCode
  import opened DerivedTables
  import opened CodedItems
  import opened ZigZag
  import opened Coefficients
  import opened SequentialSpec
  import BitStream
  import CanonicalCode

  datatype Component = Component(dc: HuffTbl, ac: HuffTbl)

  /** comps are the components of the scan, membership the component of each block of an MCU. */
  datatype Scan = Scan(comps: seq<Component>, membership: seq<nat>, restartInterval: nat)

  ghost predicate ValidTables(c: Component) {
    && Accepted(c.dc) && Encodable(c.dc, true) && Accepted(c.ac) && Encodable(c.ac, false)
    && Proper(CodeOf(c.dc)) && Proper(CodeOf(c.ac))
  }

  ghost predicate ValidScan(sc: Scan) {
    && (forall i :: 0 <= i < |sc.comps| ==> ValidTables(sc.comps[i]))
    && forall i :: 0 <= i < |sc.membership| ==> sc.membership[i] < |sc.comps|
  }

  type mcu = seq<seq<int>>

  predicate Fits(c: int) {
    -0x8000 < c < 0x8000
  }

  /** DC predictions, one per component. */
  predicate ValidLast(sc: Scan, last: seq<int>) {
    |last| == |sc.comps| && forall i :: 0 <= i < |last| ==> Fits(last[i])
  }

  predicate ValidMcu(sc: Scan, m: mcu) {
    |m| == |sc.membership| && forall i :: 0 <= i < |m| ==> IsBlock(m[i])
  }

  lemma DiffFits(a: int, b: int)
    requires Fits(a) && Fits(b)
    ensures NBits(Abs(a - b)) <= 16
  {
    CanonicalCode.SixteenBits();
    NBitsFits(Abs(a - b), 16);
  }

  /** Every symbol a block needs has a code. */
  ghost predicate Sendable(c: Component, last: int, v: seq<int>)
    requires ValidTables(c) && IsBlock(v) && Fits(last)
  {
    DiffFits(v[0], last);
    Coded(CodeOf(c.dc), DcItems(v[0] - last)) && Coded(CodeOf(c.ac), AcItems(v, 1, 0))
  }

  ghost function BlockBits(c: Component, last: int, v: seq<int>): seq<bit>
    requires ValidTables(c) && IsBlock(v) && Fits(last)
  {
    DiffFits(v[0], last);
    Spell(CodeOf(c.dc), DcItems(v[0] - last)) + Spell(CodeOf(c.ac), AcItems(v, 1, 0))
  }

  /** An MCU's blocks from the i'th on. */
  ghost function McuBits(sc: Scan, last: seq<int>, m: mcu, i: nat): seq<bit>
    requires ValidScan(sc) && ValidLast(sc, last) && ValidMcu(sc, m)
    decreases |m| - i
  {
    if i >= |m| then []
    else
      var ci := sc.membership[i];
      BlockBits(sc.comps[ci], last[ci], m[i]) + McuBits(sc, last[ci := m[i][0]], m, i + 1)
  }

  ghost predicate McuSendable(sc: Scan, last: seq<int>, m: mcu, i: nat)
    requires ValidScan(sc) && ValidLast(sc, last) && ValidMcu(sc, m)
    decreases |m| - i
  {
    if i >= |m| then true
    else
      var ci := sc.membership[i];
      Sendable(sc.comps[ci], last[ci], m[i]) && McuSendable(sc, last[ci := m[i][0]], m, i + 1)
  }

  ghost function McuLast(sc: Scan, last: seq<int>, m: mcu, i: nat): (r: seq<int>)
    requires ValidScan(sc) && ValidLast(sc, last) && ValidMcu(sc, m)
    ensures ValidLast(sc, r)
    decreases |m| - i
  {
    if i >= |m| then last else McuLast(sc, last[sc.membership[i] := m[i][0]], m, i + 1)
  }

  function NoLast(sc: Scan): (last: seq<int>)
    ensures ValidLast(sc, last)
  {
    seq(|sc.comps|, _ => 0)
  }

  /** A restart marker comes next: the interval is used up. */
  predicate RestartDue(sc: Scan, togo: nat) {
    sc.restartInterval > 0 && togo == 0
  }

  /** MCUs left in the interval after one more. */
  function TogoAfter(sc: Scan, togo: nat): nat {
    if sc.restartInterval == 0 then togo else if togo == 0 then sc.restartInterval - 1 else togo - 1
  }

  /** The predictions an MCU is coded with. */
  function LastBefore(sc: Scan, togo: nat, last: seq<int>): (r: seq<int>)
    requires ValidLast(sc, last)
    ensures ValidLast(sc, r)
  {
    if RestartDue(sc, togo) then NoLast(sc) else last
  }

  /** Bits put in front of the first segment. */
  function Onto(bits: seq<bit>, segs: seq<seq<bit>>): (r: seq<seq<bit>>)
    requires segs != []
    ensures |r| == |segs|
  {
    [bits + segs[0]] + segs[1..]
  }

  /** The bits still to be sent for the MCUs ms, segment by segment; the first segment is the
  one that is under way. */
  ghost function Segments(sc: Scan, ms: seq<mcu>, togo: nat, last: seq<int>): (segs: seq<seq<bit>>)
    requires ValidScan(sc) && ValidLast(sc, last) && forall m :: m in ms ==> ValidMcu(sc, m)
    ensures segs != []
  {
    if ms == [] then [[]]
    else
      var l := LastBefore(sc, togo, last);
      var rest := Onto(McuBits(sc, l, ms[0], 0), Segments(sc, ms[1..], TogoAfter(sc, togo), McuLast(sc, l, ms[0], 0)));
      if RestartDue(sc, togo) then [[]] + rest else rest
  }

  ghost predicate AllSendable(sc: Scan, ms: seq<mcu>, togo: nat, last: seq<int>)
    requires ValidScan(sc) && ValidLast(sc, last) && forall m :: m in ms ==> ValidMcu(sc, m)
  {
    ms == [] ||
    var l := LastBefore(sc, togo, last);
    McuSendable(sc, l, ms[0], 0) && AllSendable(sc, ms[1..], TogoAfter(sc, togo), McuLast(sc, l, ms[0], 0))
  }

  /** A payload carries the bits of its segment, filled up with ones to whole bytes. */
  ghost predicate Carries(p: seq<byte>, bits: seq<bit>) {
    exists pad: nat :: Padded(p, bits, pad)
  }

  ghost predicate Padded(p: seq<byte>, bits: seq<bit>, pad: nat) {
    pad < 8 && BitStream.ByteBits(p) == bits + BitStream.Ones(pad)
  }

  ghost predicate AllCarry(ps: seq<seq<byte>>, segs: seq<seq<bit>>) {
    |ps| == |segs| && forall i :: 0 <= i < |ps| ==> Carries(ps[i], segs[i])
  }

  function Rst(num: nat): byte
    requires num < 8
  {
    0xD0 + num
  }

  /** The file from a payload on: segments with restart markers between them, numbered from
  num on modulo eight, and a final marker. */
  function FileFrom(ps: seq<seq<byte>>, num: nat, m: byte, after: seq<byte>): seq<byte>
    requires num < 8
  {
    if |ps| == 0 then after
    else if |ps| == 1 then Stuff(ps[0]) + ([255, m] + after)
    else Stuff(ps[0]) + ([255, Rst(num)] + FileFrom(ps[1..], (num + 1) % 8, m, after))
  }

  /** The bytes of complete segments, each with the restart marker behind it. */
  function DoneBytes(ps: seq<seq<byte>>, num: nat): seq<byte>
    requires num < 8
  {
    if ps == [] then [] else Stuff(ps[0]) + ([255, Rst(num)] + DoneBytes(ps[1..], (num + 1) % 8))
  }

  lemma {:induction false} DoneNext(ps: seq<seq<byte>>, num: nat, p: seq<byte>)
    requires num < 8
    ensures DoneBytes(ps + [p], num) == DoneBytes(ps, num) + Stuff(p) + [255, Rst((num + |ps|) % 8)]
  {
    hide Stuff;
    if ps == [] {
      assert ([] + [p])[1..] == [];
      assert DoneBytes([], (num + 1) % 8) == [];
      assert [] + Stuff(p) == Stuff(p);
    } else {
      var n1 := (num + 1) % 8;
      DoneNext(ps[1..], n1, p);
      assert (ps + [p])[1..] == ps[1..] + [p];
      assert (n1 + |ps[1..]|) % 8 == (num + |ps|) % 8;
      Regroup(Stuff(ps[0]), [255, Rst(num)], DoneBytes(ps[1..], n1), Stuff(p), [255, Rst((num + |ps|) % 8)]);
    }
  }

  lemma Regroup(a: seq<byte>, b: seq<byte>, c: seq<byte>, d: seq<byte>, e: seq<byte>)
    ensures a + (b + (c + d + e)) == a + (b + c) + d + e
  {
  }

  /** The file is what was done, then the rest. */
  lemma {:induction false} FileSplit(ps: seq<seq<byte>>, num: nat, p: seq<byte>, m: byte, after: seq<byte>)
    requires num < 8
    ensures FileFrom(ps + [p], num, m, after) == DoneBytes(ps, num) + Stuff(p) + ([255, m] + after)
  {
    hide Stuff;
    if ps == [] {
      assert [] + [p] == [p];
      assert [] + Stuff(p) == Stuff(p);
    } else {
      var n1 := (num + 1) % 8;
      FileSplit(ps[1..], n1, p, m, after);
      assert (ps + [p])[1..] == ps[1..] + [p];
      Regroup(Stuff(ps[0]), [255, Rst(num)], DoneBytes(ps[1..], n1), Stuff(p), [255, m] + after);
    }
  }

  /** Reading a block over what its storage holds: coefficients, new prediction, bits left. */
  ghost function ReadBlock(c: Component, last: int, v: seq<int>, t: seq<bit>): (r: Option<(seq<int>, int, seq<bit>)>)
    requires ValidTables(c) && |v| == DCTSIZE2
    ensures r.Some? ==> |r.value.0| == DCTSIZE2
  {
    var d := ReadDc(CodeOf(c.dc), t);
    if d.None? then None
    else
      var x := last + d.value.0;
      var a := ReadAc(CodeOf(c.ac), v[0 := Short(x)], 1, d.value.1);
      if a.None? then None else Some((a.value.0, x, a.value.1))
  }

  ghost predicate ValidStorage(sc: Scan, last: seq<int>, m: mcu) {
    |last| == |sc.comps| && |m| == |sc.membership| && forall i :: 0 <= i < |m| ==> |m[i]| == DCTSIZE2
  }

  /** The blocks of an MCU from the i'th on. */
  ghost function ReadMcu(sc: Scan, last: seq<int>, m: mcu, i: nat, t: seq<bit>): (r: Option<(mcu, seq<int>, seq<bit>)>)
    requires ValidScan(sc) && ValidStorage(sc, last, m)
    ensures r.Some? ==> ValidStorage(sc, r.value.1, r.value.0)
    decreases |m| - i
  {
    if i >= |m| then Some((m, last, t))
    else
      var ci := sc.membership[i];
      var b := ReadBlock(sc.comps[ci], last[ci], m[i], t);
      if b.None? then None else ReadMcu(sc, last[ci := b.value.1], m[i := b.value.0], i + 1, b.value.2)
  }

  /** Reading back what was sent for a block. */
  lemma ReadBlockBack(c: Component, last: int, v: seq<int>, z: seq<int>, rest: seq<bit>)
    requires ValidTables(c) && IsBlock(v) && Fits(last) && Sendable(c, last, v)
    requires |z| == DCTSIZE2 && forall j :: 1 <= j < DCTSIZE2 ==> z[j] == 0
    ensures ReadBlock(c, last, z, BlockBits(c, last, v) + rest) == Some((v, v[0], rest))
  {
    hide Proper, Coded, CodeOf, NBits, Spell, AcItems, DcItems, Accepted, Encodable, ReadDc, ReadAc, Short;
    DiffFits(v[0], last);
    var d, a := Spell(CodeOf(c.dc), DcItems(v[0] - last)), Spell(CodeOf(c.ac), AcItems(v, 1, 0));
    Assoc(d, a, rest);
    ReadDcBack(CodeOf(c.dc), v[0] - last, a + rest);
    ShortIs(v[0]);
    ReadAcBack(CodeOf(c.ac), v, 1, 0, rest);
    assert z[0 := v[0]] == Upto(v, 1);
  }

  /** Zeroed storage from block i on. */
  ghost predicate Zeroed(m: mcu, i: nat) {
    forall k, j :: i <= k < |m| && 1 <= j < |m[k]| ==> m[k][j] == 0
  }

  lemma {:induction false} ReadMcuBack(sc: Scan, last: seq<int>, m: mcu, z: mcu, i: nat, rest: seq<bit>)
    requires ValidScan(sc) && ValidLast(sc, last) && ValidMcu(sc, m) && ValidStorage(sc, last, z) && Zeroed(z, i)
    requires McuSendable(sc, last, m, i) && forall k :: 0 <= k < i && k < |m| ==> z[k] == m[k]
    ensures ReadMcu(sc, last, z, i, McuBits(sc, last, m, i) + rest) == Some((m, McuLast(sc, last, m, i), rest))
    decreases |m| - i
  {
    hide BlockBits, ReadBlock, Sendable, ValidTables, IsBlock;
    if i >= |m| {
      assert [] + rest == rest && z == m;
    } else {
      var ci := sc.membership[i];
      BlockInRange(m[i]);
      var l := last[ci := m[i][0]];
      Assoc(BlockBits(sc.comps[ci], last[ci], m[i]), McuBits(sc, l, m, i + 1), rest);
      ReadBlockBack(sc.comps[ci], last[ci], m[i], z[i], McuBits(sc, l, m, i + 1) + rest);
      ReadMcuBack(sc, l, m, z[i := m[i]], i + 1, rest);
    }
  }

  lemma BlockInRange(v: seq<int>)
    requires IsBlock(v)
    ensures |v| == DCTSIZE2 && Fits(v[0])
  {
  }

  /** Reading the same bits again, over what an earlier attempt left in the block. */
  lemma ReadBlockAgain(c: Component, last: int, v: seq<int>, w: seq<int>, t: seq<bit>)
    requires ValidTables(c) && |v| == DCTSIZE2 && ReadBlock(c, last, v, t).Some?
    requires Patch(v, w, ReadBlock(c, last, v, t).value.0)
    ensures ReadBlock(c, last, w, t) == ReadBlock(c, last, v, t)
  {
    hide Proper, CodeOf, Accepted, Encodable, ReadDc, ReadAc, Short;
    var d := ReadDc(CodeOf(c.dc), t).value;
    var x := Short(last + d.0);
    ReadAcAgain(CodeOf(c.ac), v[0 := x], w[0 := x], 1, d.1);
  }

  /** Each block is as before or partly as it will be. */
  ghost predicate Patched(m: mcu, n: mcu, f: mcu) {
    |m| == |n| == |f| && forall i :: 0 <= i < |m| ==> Patch(m[i], n[i], f[i])
  }

  lemma {:induction false} ReadMcuKeeps(sc: Scan, last: seq<int>, m: mcu, i: nat, t: seq<bit>)
    requires ValidScan(sc) && ValidStorage(sc, last, m) && ReadMcu(sc, last, m, i, t).Some?
    ensures forall k :: 0 <= k < i && k < |m| ==> ReadMcu(sc, last, m, i, t).value.0[k] == m[k]
    decreases |m| - i
  {
    hide ReadBlock, ValidTables;
    if i < |m| {
      var ci := sc.membership[i];
      var b := ReadBlock(sc.comps[ci], last[ci], m[i], t).value;
      ReadMcuKeeps(sc, last[ci := b.1], m[i := b.0], i + 1, b.2);
    }
  }

  lemma {:induction false} ReadMcuAgain(sc: Scan, last: seq<int>, m: mcu, n: mcu, i: nat, t: seq<bit>)
    requires ValidScan(sc) && ValidStorage(sc, last, m) && ReadMcu(sc, last, m, i, t).Some?
    requires Patched(m, n, ReadMcu(sc, last, m, i, t).value.0) && forall k :: 0 <= k < i && k < |m| ==> n[k] == m[k]
    ensures ValidStorage(sc, last, n) && ReadMcu(sc, last, n, i, t) == ReadMcu(sc, last, m, i, t)
    decreases |m| - i
  {
    hide ReadBlock, ValidTables;
    if i >= |m| {
      assert m == n;
    } else {
      var ci := sc.membership[i];
      var b := ReadBlock(sc.comps[ci], last[ci], m[i], t).value;
      ReadMcuKeeps(sc, last[ci := b.1], m[i := b.0], i + 1, b.2);
      ReadBlockAgain(sc.comps[ci], last[ci], m[i], n[i], t);
      ReadMcuAgain(sc, last[ci := b.1], m[i := b.0], n[i := b.0], i + 1, b.2);
    }
  }
}
