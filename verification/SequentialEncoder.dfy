/** encode_one_block, encode_mcu_huff and finish_pass_huff of jchuff.c. */
module SequentialEncoder {

  import opened CodeString
  import opened PrefixCode
  import opened DerivedTables
  import opened BitStream
  import opened CodedItems
  import opened EncodingTables
  import opened ZigZag
  import opened Coefficients
  import opened SequentialSpec
  import opened SequentialScan
  import opened SequentialWriter

  datatype Tables = Tables(dc: CTable, ac: CTable)

  ghost predicate TablesOf(c: Component, t: Tables) {
    ValidTables(c) && Tabulates(c.dc, t.dc, true) && Tabulates(c.ac, t.ac, false)
  }

  /** What is still to be sent of a block's AC coefficients, behind what was sent. */
  ghost predicate Behind(h: Code, w: seq<bit>, v: seq<int>, k: nat, r: nat, w0: seq<bit>)
    requires Proper(h) && IsBlock(v) && k <= DCTSIZE2
  {
    && Coded(h, AcItems(v, k, r))
    && w + Spell(h, AcItems(v, k, r)) == w0 + Spell(h, AcItems(v, 1, 0))
  }

  lemma BehindZero(h: Code, w: seq<bit>, v: seq<int>, k: nat, r: nat, w0: seq<bit>)
    requires Proper(h) && IsBlock(v) && k < DCTSIZE2 && v[k] == 0 && Behind(h, w, v, k, r, w0)
    ensures Behind(h, w, v, k + 1, r + 1, w0)
  {
    hide Proper, Spell, Coded;
  }

  lemma BehindZrl(h: Code, w: seq<bit>, v: seq<int>, k: nat, r: nat, w0: seq<bit>)
    requires Proper(h) && IsBlock(v) && k < DCTSIZE2 && v[k] != 0 && r > 15 && Behind(h, w, v, k, r, w0)
    ensures HasWord(h, ZRL) && Behind(h, w + Word(h, ZRL), v, k, r - 16, w0)
  {
    hide Proper, Spell, Coded, HasWord, Word;
    var items := AcItems(v, k, r - 16);
    SpellOneMore(h, ZRL, items, []);
    assert Spell(h, [Sym(ZRL)] + items) + [] == Spell(h, [Sym(ZRL)] + items) && Spell(h, items) + [] == Spell(h, items);
    Assoc(w, Word(h, ZRL), Spell(h, items));
  }

  lemma BehindCoef(h: Code, w: seq<bit>, v: seq<int>, k: nat, r: nat, w0: seq<bit>)
    requires Proper(h) && IsBlock(v) && k < DCTSIZE2 && v[k] != 0 && r <= 15 && Behind(h, w, v, k, r, w0)
    ensures var n := NBits(Abs(v[k]));
      n <= 15 && HasWord(h, 16 * r + n) && Behind(h, w + Word(h, 16 * r + n) + ValueBits(v[k]), v, k + 1, 0, w0)
  {
    hide Proper, Spell, Coded, HasWord, Word, NBits, ValueBits;
    SmallValue(v[k]);
    var n := NBits(Abs(v[k]));
    var items := AcItems(v, k + 1, 0);
    SpellTwo(h, 16 * r + n, ValueBits(v[k]), items, []);
    var all := [Sym(16 * r + n), Raw(ValueBits(v[k]))] + items;
    assert Spell(h, all) + [] == Spell(h, all) && Spell(h, items) + [] == Spell(h, items);
    Assoc(w, Word(h, 16 * r + n), ValueBits(v[k]) + Spell(h, items));
    Assoc(w + Word(h, 16 * r + n), ValueBits(v[k]), Spell(h, items));
  }

  lemma BehindEnd(h: Code, w: seq<bit>, v: seq<int>, r: nat, w0: seq<bit>)
    requires Proper(h) && IsBlock(v) && Behind(h, w, v, DCTSIZE2, r, w0)
    ensures r > 0 ==> HasWord(h, EOB)
    ensures w0 + Spell(h, AcItems(v, 1, 0)) == if r > 0 then w + Word(h, EOB) else w
  {
    hide Proper, HasWord, Word;
    if r > 0 {
      SpellOne(h, Sym(EOB));
      assert [Sym(EOB)][0] == Sym(EOB);
    } else {
      assert w + [] == w;
    }
  }

  /** The DC part of encode_one_block. */
  method EncodeDc(w: Writer, diff: int, t: CTable, ghost h: HuffTbl)
    requires w.Valid() && Accepted(h) && Tabulates(h, t, true) && Proper(CodeOf(h)) && NBits(Abs(diff)) <= 16
    requires Coded(CodeOf(h), DcItems(diff))
    modifies w
    ensures w.Valid() && w.done == old(w.done) && w.Written() == old(w.Written()) + Spell(CodeOf(h), DcItems(diff))
  {
    hide Accepted, Tabulates, Proper, HasWord, Word, Spell, NBits, ValueBits, CodeOf, Writer.Written, Writer.Valid;
    var nbits := NBits(Abs(diff));
    assert DcItems(diff)[0] == Sym(nbits);
    SpellTwo(CodeOf(h), nbits, ValueBits(diff), [], []);
    NothingSpelled(CodeOf(h));
    assert DcItems(diff) + [] == DcItems(diff);
    Tidy(Spell(CodeOf(h), DcItems(diff)), ValueBits(diff));
    Assoc(w.Written(), Word(CodeOf(h), nbits), ValueBits(diff));
    w.EmitSymbol(t, nbits, h, true);
    w.EmitValue(diff);
  }

  lemma Tidy(a: seq<bit>, b: seq<bit>)
    ensures a + [] == a && b + ([] + []) == b
  {
  }

  /** The ZRLs due before a coefficient. */
  method EncodeZrls(w: Writer, t: CTable, ghost h: HuffTbl, ghost v: seq<int>, ghost k: nat, r0: nat, ghost w0: seq<bit>)
    returns (r: nat)
    requires w.Valid() && Accepted(h) && Tabulates(h, t, false) && Proper(CodeOf(h)) && IsBlock(v) && k < DCTSIZE2 && v[k] != 0
    requires Behind(CodeOf(h), w.Written(), v, k, r0, w0)
    modifies w
    ensures w.Valid() && w.done == old(w.done) && r <= 15 && Behind(CodeOf(h), w.Written(), v, k, r, w0)
  {
    hide Accepted, Tabulates, Proper, HasWord, Word, Behind, CodeOf, Writer.Written, Writer.Valid;
    r := r0;
    while r > 15
      invariant w.Valid() && w.done == old(w.done) && Behind(CodeOf(h), w.Written(), v, k, r, w0)
    {
      BehindZrl(CodeOf(h), w.Written(), v, k, r, w0);
      w.EmitSymbol(t, ZRL, h, false);
      r := r - 16;
    }
  }

  /** The AC part of encode_one_block. */
  method EncodeAc(w: Writer, block: array<int>, t: CTable, ghost h: HuffTbl, ghost v: seq<int>)
    requires w.Valid() && Accepted(h) && Tabulates(h, t, false) && Proper(CodeOf(h)) && block.Length == DCTSIZE2
    requires v == ViewOf(block[..]) && IsBlock(v) && Coded(CodeOf(h), AcItems(v, 1, 0))
    modifies w
    ensures w.Valid() && w.done == old(w.done) && w.Written() == old(w.Written()) + Spell(CodeOf(h), AcItems(v, 1, 0))
  {
    hide Accepted, Tabulates, Proper, HasWord, Word, Behind, CodeOf, NaturalOrder, ViewOf, NBits, ValueBits, Spell,
      Writer.Written, Writer.Valid;
    var k, r := 1, 0;
    BehindStart(CodeOf(h), w.Written(), v);
    while k < DCTSIZE2
      invariant w.Valid() && w.done == old(w.done) && 1 <= k <= DCTSIZE2 && 0 <= r
      invariant Behind(CodeOf(h), w.Written(), v, k, r, old(w.Written()))
    {
      ViewAt(block[..], k);
      var temp := block[NaturalOrder(k)];
      if temp == 0 {
        BehindZero(CodeOf(h), w.Written(), v, k, r, old(w.Written()));
        r := r + 1;
      } else {
        r := EncodeZrls(w, t, h, v, k, r, old(w.Written()));
        BehindCoef(CodeOf(h), w.Written(), v, k, r, old(w.Written()));
        w.EmitSymbol(t, 16 * r + NBits(Abs(temp)), h, false);
        w.EmitValue(temp);
        r := 0;
      }
      k := k + 1;
    }
    BehindEnd(CodeOf(h), w.Written(), v, r, old(w.Written()));
    if r > 0 {
      w.EmitSymbol(t, EOB, h, false);
    }
  }

  lemma BehindStart(h: Code, w: seq<bit>, v: seq<int>)
    requires Proper(h) && IsBlock(v) && Coded(h, AcItems(v, 1, 0))
    ensures Behind(h, w, v, 1, 0, w)
  {
  }

  /** encode_one_block: the DC difference, then the AC coefficients. */
  method EncodeBlock(w: Writer, block: array<int>, last: int, t: Tables, ghost c: Component)
    requires w.Valid() && TablesOf(c, t) && block.Length == DCTSIZE2 && IsBlock(ViewOf(block[..])) && Fits(last)
    requires Sendable(c, last, ViewOf(block[..]))
    modifies w
    ensures w.Valid() && w.done == old(w.done)
    ensures w.Written() == old(w.Written()) + BlockBits(c, last, ViewOf(block[..]))
  {
    hide Tabulates, Proper, Coded, CodeOf, NaturalOrder, ViewOf, NBits, Spell, AcItems, DcItems, Accepted, Encodable,
      Writer.Written, Writer.Valid;
    ghost var v := ViewOf(block[..]);
    ViewAt(block[..], 0);
    DiffFits(v[0], last);
    Assoc(w.Written(), Spell(CodeOf(c.dc), DcItems(v[0] - last)), Spell(CodeOf(c.ac), AcItems(v, 1, 0)));
    EncodeDc(w, block[NaturalOrder(0)] - last, t.dc, c.dc);
    EncodeAc(w, block, t.ac, c.ac, v);
  }

  ghost predicate AllTables(sc: Scan, ts: seq<Tables>) {
    |ts| == |sc.comps| && forall i :: 0 <= i < |ts| ==> TablesOf(sc.comps[i], ts[i])
  }

  /** Encode the blocks of an MCU. */
  method EncodeBlocks(w: Writer, sc: Scan, ts: seq<Tables>, last0: seq<int>, blocks: seq<array<int>>) returns (last: seq<int>)
    requires w.Valid() && ValidScan(sc) && AllTables(sc, ts) && ValidLast(sc, last0)
    requires forall i :: 0 <= i < |blocks| ==> blocks[i].Length == DCTSIZE2
    requires ValidMcu(sc, Views(blocks)) && McuSendable(sc, last0, Views(blocks), 0)
    modifies w
    ensures w.Valid() && w.done == old(w.done) && ValidLast(sc, last) && last == McuLast(sc, last0, Views(blocks), 0)
    ensures w.Written() == old(w.Written()) + McuBits(sc, last0, Views(blocks), 0)
  {
    hide TablesOf, ValidTables, BlockBits, Sendable, ViewOf, NaturalOrder, Writer.Written, Writer.Valid, IsBlock;
    ghost var m := Views(blocks);
    last := last0;
    var i: nat := 0;
    while i < |blocks|
      invariant i <= |blocks| && w.Valid() && w.done == old(w.done) && ValidLast(sc, last)
      invariant McuSendable(sc, last, m, i) && McuLast(sc, last, m, i) == McuLast(sc, last0, m, 0)
      invariant w.Written() + McuBits(sc, last, m, i) == old(w.Written()) + McuBits(sc, last0, m, 0)
    {
      var ci := sc.membership[i];
      ViewAt(blocks[i][..], 0);
      BlockShape(m[i]);
      Assoc(w.Written(), BlockBits(sc.comps[ci], last[ci], m[i]), McuBits(sc, last[ci := m[i][0]], m, i + 1));
      EncodeBlock(w, blocks[i], last[ci], ts[ci], sc.comps[ci]);
      last := last[ci := blocks[i][NaturalOrder(0)]];
      i := i + 1;
    }
    assert w.Written() + [] == w.Written();
  }

  lemma BlockShape(v: seq<int>)
    requires IsBlock(v)
    ensures |v| == DCTSIZE2 && Fits(v[0])
  {
  }

  class Encoder {
    const sc: Scan
    const ts: seq<Tables>
    const w: Writer
    var lastDc: seq<int>
    var togo: nat
    var num: nat
    /** Complete segments: their payloads and the bits these carry. */
    ghost var payloads: seq<seq<byte>>
    ghost var segs: seq<seq<bit>>

    ghost predicate Valid()
      reads this, w
    {
      && ValidScan(sc) && AllTables(sc, ts) && w.Valid() && ValidLast(sc, lastDc)
      && num == |payloads| % 8 && w.done == DoneBytes(payloads, 0) && AllCarry(payloads, segs)
    }

    /** All bits of the scan, segment by segment, if the MCUs ms are still to come. */
    ghost function Stream(ms: seq<mcu>): seq<seq<bit>>
      requires Valid() && forall m :: m in ms ==> ValidMcu(sc, m)
      reads this, w
    {
      segs + Onto(w.Written(), Segments(sc, ms, togo, lastDc))
    }

    constructor (sc: Scan, ts: seq<Tables>, w: Writer)
      requires ValidScan(sc) && AllTables(sc, ts) && w.Valid() && w.done == [] && w.Written() == []
      ensures Valid() && this.sc == sc && this.ts == ts && this.w == w && togo == sc.restartInterval && lastDc == NoLast(sc)
      ensures payloads == [] && segs == []
    {
      this.sc, this.ts, this.w, lastDc, togo, num := sc, ts, w, NoLast(sc), sc.restartInterval, 0;
      payloads, segs := [], [];
    }

    /** emit_restart: pad, write RSTn, and forget the predictions. */
    method EmitRestart()
      requires Valid()
      modifies `lastDc, `payloads, `segs, w
      ensures w.Valid() && w.Written() == [] && lastDc == NoLast(sc) && segs == old(segs) + [old(w.Written())]
      ensures |payloads| == old(|payloads|) + 1 && w.done == DoneBytes(payloads, 0) && AllCarry(payloads, segs)
    {
      hide ValidScan, AllTables, Writer.Written, Writer.Valid, DoneBytes, Stuff, AllCarry;
      ghost var bits := w.Written();
      ghost var p, pad := w.FlushBits();
      DoneNext(payloads, 0, p);
      CarryNext(payloads, segs, p, bits, pad);
      w.EmitMarker(Rst(num));
      payloads, segs := payloads + [p], segs + [bits];
      lastDc := NoLast(sc);
    }

    /** encode_mcu_huff: a restart if one is due, the blocks, and the counters. */
    method EncodeMcu(blocks: seq<array<int>>, ghost rest: seq<mcu>)
      requires Valid() && forall i :: 0 <= i < |blocks| ==> blocks[i].Length == DCTSIZE2
      requires ValidMcu(sc, Views(blocks)) && forall m :: m in rest ==> ValidMcu(sc, m)
      requires AllSendable(sc, [Views(blocks)] + rest, togo, lastDc)
      modifies this, w
      ensures Valid() && Stream(rest) == old(Stream([Views(blocks)] + rest)) && AllSendable(sc, rest, togo, lastDc)
    {
      hide ValidScan, AllTables, Writer.Written, Writer.Valid, DoneBytes, AllCarry, McuBits, McuSendable, McuLast, Views,
        Segments, AllSendable, Onto;
      ghost var m, t0, l0, w0, s0 := Views(blocks), togo, lastDc, w.Written(), segs;
      Unroll(sc, m, rest, togo, lastDc);
      if sc.restartInterval > 0 && togo == 0 {
        EmitRestart();
      }
      ghost var w1, l1 := w.Written(), lastDc;
      lastDc := EncodeBlocks(w, sc, ts, lastDc, blocks);
      if sc.restartInterval > 0 {
        if togo == 0 {
          togo := sc.restartInterval;
          num := (num + 1) % 8;
        }
        togo := togo - 1;
      }
      OntoOnto(w1, McuBits(sc, l1, m, 0), Segments(sc, rest, togo, lastDc));
      if RestartDue(sc, t0) {
        ghost var tail := Onto(McuBits(sc, l1, m, 0), Segments(sc, rest, togo, lastDc));
        RestartSplits(s0, w0, tail);
      }
    }

    /** finish_pass_huff: the last segment. */
    method FinishPass() returns (ghost p: seq<byte>)
      requires Valid()
      modifies this, w
      ensures w.out == DoneBytes(old(payloads), 0) + Stuff(p)
      ensures AllCarry(old(payloads) + [p], old(Stream([])))
    {
      hide ValidScan, AllTables, Writer.Written, Writer.Valid, DoneBytes, Stuff, AllCarry;
      ghost var bits := w.Written();
      ghost var pad;
      p, pad := w.FlushBits();
      CarryNext(payloads, segs, p, bits, pad);
      assert Segments(sc, [], togo, lastDc) == [[]];
      assert bits + [] == bits;
      assert Onto(bits, [[]]) == [bits];
    }
  }

  lemma CarryNext(ps: seq<seq<byte>>, segs: seq<seq<bit>>, p: seq<byte>, bits: seq<bit>, pad: nat)
    requires AllCarry(ps, segs) && pad < 8 && ByteBits(p) == bits + Ones(pad)
    ensures AllCarry(ps + [p], segs + [bits])
  {
    hide Padded;
    assert Padded(p, bits, pad) by {
      PaddedBy(p, bits, pad);
    }
  }

  lemma PaddedBy(p: seq<byte>, bits: seq<bit>, pad: nat)
    requires pad < 8 && ByteBits(p) == bits + Ones(pad)
    ensures Padded(p, bits, pad)
  {
  }

  lemma Unroll(sc: Scan, m: mcu, rest: seq<mcu>, togo: nat, last: seq<int>)
    requires ValidScan(sc) && ValidLast(sc, last) && ValidMcu(sc, m) && forall x :: x in rest ==> ValidMcu(sc, x)
    ensures var l := LastBefore(sc, togo, last);
      var tail := Onto(McuBits(sc, l, m, 0), Segments(sc, rest, TogoAfter(sc, togo), McuLast(sc, l, m, 0)));
      Segments(sc, [m] + rest, togo, last) == if RestartDue(sc, togo) then [[]] + tail else tail
    ensures var l := LastBefore(sc, togo, last);
      AllSendable(sc, [m] + rest, togo, last)
      == (McuSendable(sc, l, m, 0) && AllSendable(sc, rest, TogoAfter(sc, togo), McuLast(sc, l, m, 0)))
  {
    hide ValidScan, McuBits, McuSendable, McuLast;
    assert ([m] + rest)[0] == m && ([m] + rest)[1..] == rest;
  }

  lemma OntoOnto(a: seq<bit>, b: seq<bit>, segs: seq<seq<bit>>)
    requires segs != []
    ensures Onto(a, Onto(b, segs)) == Onto(a + b, segs)
  {
    Assoc(a, b, segs[0]);
  }

  lemma RestartSplits(segs: seq<seq<bit>>, bits: seq<bit>, tail: seq<seq<bit>>)
    requires tail != []
    ensures segs + Onto(bits, [[]] + tail) == (segs + [bits]) + Onto([], tail)
  {
    assert bits + [] == bits && [] + tail[0] == tail[0];
    assert Onto(bits, [[]] + tail) == [bits] + tail;
    assert Onto([], tail) == tail;
  }
}
