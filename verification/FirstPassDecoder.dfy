/** decode_mcu_AC_first of jdphuff.c, resumed as often as its source makes it necessary. */
module FirstPassDecoder {

  import opened Wrappers
  import opened CodeString
  import opened PrefixCode
  import opened DerivedTables
  import opened DecodingTables
  import opened BitStream
  import opened Chunks
  import opened BitReader
  import opened CodedItems
  import opened ZigZag
  import opened Coefficients
  import opened RefineSpec
  import opened RefineEncoding
  import opened RefineResume
  import opened FirstPass
  import CanonicalCode
  import SequentialSpec
  import SequentialDecoder

  /** One symbol of a band and what it asks for. */
  lemma BandStep(h: Code, c: seq<int>, k: nat, al: nat, se: nat, t: seq<bit>)
    requires PrefixFree(h) && |c| == DCTSIZE2 && k <= se < DCTSIZE2 && ReadSym(h, t).Some?
    ensures var r, size, u := ReadSym(h, t).value.0 / 16, ReadSym(h, t).value.0 % 16, ReadSym(h, t).value.1;
      && (size != 0 && SequentialSpec.ReadValue(size, u).Some? ==>
            FirstBand(h, c, k, al, se, t)
            == FirstBand(h, c[SequentialSpec.Slot(k + r) := Short(Shl(SequentialSpec.ReadValue(size, u).value.0, al))],
              k + r + 1, al, se, SequentialSpec.ReadValue(size, u).value.1))
      && (size == 0 && r == 15 ==> FirstBand(h, c, k, al, se, t) == FirstBand(h, c, k + 16, al, se, u))
      && (size == 0 && r != 15 && RunLength(r, u).Some? ==>
            FirstBand(h, c, k, al, se, t) == Some(First(c, RunLength(r, u).value.0 - 1, RunLength(r, u).value.1)))
  {
    hide PrefixFree, ReadSym, SequentialSpec.ReadValue, RunLength;
  }

  lemma BandDone(h: Code, c: seq<int>, k: nat, al: nat, se: nat, t: seq<bit>)
    requires PrefixFree(h) && |c| == DCTSIZE2 && se < DCTSIZE2 && k > se
    ensures FirstBand(h, c, k, al, se, t) == Some(First(c, 0, t))
  {
    hide PrefixFree;
  }

  /** Reading on never changes coefficients behind. */
  lemma {:induction false} BandKeepsBehind(h: Code, c: seq<int>, k: nat, al: nat, se: nat, t: seq<bit>)
    requires PrefixFree(h) && |c| == DCTSIZE2 && se < DCTSIZE2 && FirstBand(h, c, k, al, se, t).Some?
    ensures forall j :: 0 <= j < k && j < DCTSIZE2 ==> FirstBand(h, c, k, al, se, t).value.c[j] == c[j]
    decreases DCTSIZE2 - k
  {
    hide PrefixFree, ReadSym, SequentialSpec.ReadValue, RunLength, Short, Shl;
    if k <= se {
      var s := ReadSym(h, t).value;
      var r, size := s.0 / 16, s.0 % 16;
      if size != 0 {
        var x := SequentialSpec.ReadValue(size, s.1).value;
        BandKeepsBehind(h, c[SequentialSpec.Slot(k + r) := Short(Shl(x.0, al))], k + r + 1, al, se, x.1);
      } else if r == 15 {
        BandKeepsBehind(h, c, k + 16, al, se, s.1);
      }
    }
  }

  /** Reading the same bits again, over what an earlier attempt left in the block. */
  lemma {:induction false} BandReadAgain(h: Code, c: seq<int>, d: seq<int>, k: nat, al: nat, se: nat, t: seq<bit>)
    requires PrefixFree(h) && |c| == DCTSIZE2 && se < DCTSIZE2 && FirstBand(h, c, k, al, se, t).Some?
    requires SequentialSpec.Patch(c, d, FirstBand(h, c, k, al, se, t).value.c)
    ensures FirstBand(h, d, k, al, se, t) == FirstBand(h, c, k, al, se, t)
    decreases DCTSIZE2 - k
  {
    hide PrefixFree, ReadSym, SequentialSpec.ReadValue, RunLength, Short, Shl;
    if k > se {
      assert c == d;
    } else {
      var s := ReadSym(h, t).value;
      var r, size := s.0 / 16, s.0 % 16;
      if size != 0 {
        var x := SequentialSpec.ReadValue(size, s.1).value;
        var p := SequentialSpec.Slot(k + r);
        BandReadAgain(h, c[p := Short(Shl(x.0, al))], d[p := Short(Shl(x.0, al))], k + r + 1, al, se, x.1);
      } else if r == 15 {
        BandReadAgain(h, c, d, k + 16, al, se, s.1);
      } else {
        assert c == d;
      }
    }
  }

  /** One symbol of a band. */
  method DecodeSymbol(br: Reader, t: DTable, block: array<int>, k: nat, al: nat, ghost se: nat, ghost h: HuffTbl)
    returns (ok: bool, stop: bool, k1: nat, eobrun: nat)
    requires br.Supplied(20) && Decodes(h, t) && block.Length == DCTSIZE2 && k <= se < DCTSIZE2
    modifies br, block
    ensures br.Valid() && (!ok ==> br.Suspended() && block[..] == old(block[..]))
    ensures ok ==> br.Advanced(20) && k < k1 && Accepted(h)
    ensures ok ==> forall j :: 0 <= j < DCTSIZE2 && ViewOf(block[..])[j] != ViewOf(old(block[..]))[j] ==> j < k1
    ensures ok ==> (FirstBand(CodeOf(h), ViewOf(old(block[..])), k, al, se, old(br.Known()))
                    == if stop then Some(First(ViewOf(block[..]), eobrun, br.Known()))
                       else FirstBand(CodeOf(h), ViewOf(block[..]), k1, al, se, br.Known()))
  {
    hide Reader.Known, CodeOf, ReadSym, SequentialSpec.ReadValue, FirstBand, Decodes, Accepted, ViewOf, PrefixFree, Shl, Short, Number;
    DecodesShape(h, t);
    ghost var t0 := br.Known();
    var rs;
    stop, k1, eobrun := false, k + 1, 0;
    ok, rs := br.HuffDecode(t, h);
    if !ok {
      return;
    }
    BandStep(CodeOf(h), ViewOf(block[..]), k, al, se, t0);
    var r, s := rs / 16, rs % 16;
    if s != 0 {
      var x;
      ok, x := SequentialDecoder.GetValue(br, s);
      if ok {
        SequentialDecoder.PutCoef(block, k + r, Short(Shl(x, al)));
        k1 := k + r + 1;
      }
    } else if r == 15 {
      k1 := k + 16;
    } else {
      ok, eobrun := DecodeRun(br, r);
      stop := true;
    }
  }

  /** EOBr: the run is 2^r and r appended bits, this band being the first of it. */
  method DecodeRun(br: Reader, r: nat) returns (ok: bool, eobrun: nat)
    requires br.Supplied(1) && r <= 15
    modifies br
    ensures br.Valid() && (!ok ==> br.Suspended())
    ensures ok ==> br.Advanced(1) && RunLength(r, old(br.Known())).Some?
    ensures ok ==> eobrun == RunLength(r, old(br.Known())).value.0 - 1 && br.Known() == RunLength(r, old(br.Known())).value.1
  {
    hide Reader.Known, Shl, Number;
    CanonicalCode.ShlPositive(r);
    NoBitsRead(br.Known());
    ok, eobrun := true, Shl(1, r) - 1;
    if r > 0 {
      var x;
      ok, x := br.GetBits(r);
      eobrun := eobrun + x;
    }
  }

  lemma NoBitsRead(s: seq<bit>)
    ensures ReadBits(0, s) == Some((0, s))
  {
    assert s[..0] == [] && s[0..] == s;
  }

  /** What was stored so far is final: decoding from here is what remains of the whole. */
  ghost predicate Underway(f: Option<First>, v: seq<int>, w: seq<int>) {
    f.Some? ==> SequentialSpec.Patch(v, w, f.value.c)
  }

  lemma UnderwayStart(f: Option<First>, v: seq<int>)
    requires |v| == DCTSIZE2 && (f.Some? ==> |f.value.c| == DCTSIZE2)
    ensures Underway(f, v, v)
  {
  }

  lemma UnderwayNext(h: Code, f: Option<First>, v: seq<int>, w: seq<int>, u: seq<int>, k: nat, al: nat, se: nat, s: seq<bit>,
      stop: bool, n: nat)
    requires PrefixFree(h) && |v| == |w| == |u| == DCTSIZE2 && se < DCTSIZE2 && Underway(f, v, w)
    requires forall j :: 0 <= j < DCTSIZE2 && u[j] != w[j] ==> j < k
    requires f == if stop then Some(First(u, n, s)) else FirstBand(h, u, k, al, se, s)
    ensures Underway(f, v, u)
  {
    hide PrefixFree, FirstBand;
    if !stop && f.Some? {
      BandKeepsBehind(h, u, k, al, se, s);
    }
  }

  /** Requests that may still be made from position k on. */
  function Requests(k: nat): nat {
    if k < DCTSIZE2 then 20 * (DCTSIZE2 - k) else 0
  }

  /** The work of decode_mcu_AC_first on one block outside an EOB run. */
  method DecodeBand(br: Reader, t: DTable, block: array<int>, ss: nat, al: nat, se: nat, ghost h: HuffTbl) returns (ok: bool, left: nat)
    requires br.Supplied(Requests(0)) && Decodes(h, t) && block.Length == DCTSIZE2 && ss <= se < DCTSIZE2
    modifies br, block
    ensures br.Valid() && (!ok ==> br.Suspended()) && (ok ==> br.Advanced(Requests(0))) && Accepted(h)
    ensures var v := ViewOf(old(block[..]));
      var f := FirstBand(CodeOf(h), v, ss, al, se, old(br.Known()));
      && (ok ==> f == Some(First(ViewOf(block[..]), left, br.Known())))
      && (!ok ==> Underway(f, v, ViewOf(block[..])))
  {
    hide Reader.Known, CodeOf, FirstBand, Decodes, Accepted, ViewOf, PrefixFree, Underway;
    DecodesShape(h, t);
    ghost var c, v, s0 := CodeOf(h), ViewOf(block[..]), br.Known();
    ghost var f := FirstBand(c, v, ss, al, se, s0);
    var k: nat := ss;
    ok, left := true, 0;
    UnderwayStart(f, v);
    while k <= se
      invariant br.Valid() && br.Advanced(Requests(0) - Requests(k)) && ok && left == 0
      invariant f == FirstBand(c, ViewOf(block[..]), k, al, se, br.Known()) && Underway(f, v, ViewOf(block[..]))
      decreases DCTSIZE2 - k
    {
      ghost var w := ViewOf(block[..]);
      var stop;
      ok, stop, k, left := DecodeSymbol(br, t, block, k, al, se, h);
      if !ok {
        return;
      }
      if stop {
        return;
      }
      left := 0;
      UnderwayNext(c, f, v, w, ViewOf(block[..]), k, al, se, br.Known(), stop, left);
    }
    BandDone(c, ViewOf(block[..]), k, al, se, br.Known());
  }

  /** decode_mcu_AC_first, without its restart handling: a suspended call leaves all permanent
  state as it was. */
  method DecodeMcuFirst(d: ScanDecoder, block: array<int>) returns (ok: bool)
    requires d.Valid() && block.Length == DCTSIZE2
    modifies d, block
    ensures d.Valid() && d.source == old(d.source) && d.beyond == old(d.beyond) && d.Over() == old(d.Over())
    ensures old(d.insufficient) ==> ok && d.insufficient && block[..] == old(block[..]) && d.Stream() == old(d.Stream())
    ensures !ok ==> d.eobrun == old(d.eobrun) && d.Stream() == old(d.Stream()) && !d.insufficient && d.marker == 0
    ensures !ok ==> !Ended(d.source[d.next..])
    ensures !old(d.insufficient) ==>
      var v := ViewOf(old(block[..]));
      var f := FirstBlock(CodeOf(d.t), v, old(d.eobrun), d.ss, d.al, d.se, old(d.Stream()));
      && (!ok ==> Underway(f, v, ViewOf(block[..])))
      && (ok && !d.insufficient ==> f == Some(First(ViewOf(block[..]), d.eobrun, d.Stream())))
      && (ok && d.insufficient ==> f.Some? && |f.value.rest| < SUPPLY)
  {
    hide ViewOf, CodeOf, Decodes, FirstBand, BitsOf, Payload, Ended, MarkerIn, Zeros, Underway, Reader.Ahead;
    ok := true;
    if !d.insufficient {
      if d.eobrun > 0 {
        d.eobrun := d.eobrun - 1;
      } else {
        var br := new Reader(d.source, d.next, d.getBuffer, d.bitsLeft, d.marker, d.insufficient, d.beyond, SUPPLY);
        assert br.Known() == d.Stream();
        var left;
        ok, left := DecodeBand(br, d.tbl, block, d.ss, d.al, d.se, d.t);
        if ok {
          d.next, d.getBuffer, d.bitsLeft := br.next, br.getBuffer, br.bitsLeft;
          d.marker, d.insufficient, d.eobrun := br.marker, br.insufficient, left;
        }
      }
    }
  }

  lemma UnderwayAgain(f: Option<First>, v: seq<int>, w: seq<int>, u: seq<int>)
    requires Underway(f, v, w) && Underway(f, w, u) && f.Some?
    ensures Underway(f, v, u)
  {
  }

  /** Decoding a block again over what an interrupted attempt left. */
  lemma BlockAgain(h: Code, v: seq<int>, w: seq<int>, eobrun: nat, ss: nat, al: nat, se: nat, t: seq<bit>)
    requires PrefixFree(h) && |v| == |w| == DCTSIZE2 && ss <= se < DCTSIZE2 && FirstBlock(h, v, eobrun, ss, al, se, t).Some?
    requires Underway(FirstBlock(h, v, eobrun, ss, al, se, t), v, w)
    ensures FirstBlock(h, w, eobrun, ss, al, se, t) == FirstBlock(h, v, eobrun, ss, al, se, t)
  {
    hide PrefixFree, FirstBand;
    if eobrun > 0 {
      assert v == w;
    } else {
      BandReadAgain(h, v, w, ss, al, se, t);
    }
  }

  /** One MCU, resumed as often as the source makes it necessary. */
  method DecodeResumedFirst(d: ScanDecoder, block: array<int>, chunks: seq<seq<byte>>) returns (left: seq<seq<byte>>)
    requires d.Valid() && !d.insufficient && d.Over() && d.beyond == Joined(chunks) && block.Length == DCTSIZE2
    requires var f := FirstBlock(CodeOf(d.t), ViewOf(block[..]), d.eobrun, d.ss, d.al, d.se, d.Stream());
      f.Some? && |f.value.rest| >= SUPPLY
    modifies d, block
    ensures d.Valid() && !d.insufficient && d.Over() && d.beyond == Joined(left)
    ensures FirstBlock(CodeOf(d.t), ViewOf(old(block[..])), old(d.eobrun), d.ss, d.al, d.se, old(d.Stream()))
      == Some(First(ViewOf(block[..]), d.eobrun, d.Stream()))
  {
    hide ViewOf, CodeOf, Decodes, FirstBlock, BitsOf, Payload, Ended, Zeros, Underway, Accepted, ScanDecoder.Stream;
    ghost var v, s, e := ViewOf(block[..]), d.Stream(), d.eobrun;
    ghost var f := FirstBlock(CodeOf(d.t), v, e, d.ss, d.al, d.se, s);
    UnderwayStart(f, v);
    left := chunks;
    var ok := false;
    while !ok
      invariant d.Valid() && !d.insufficient && d.Over() && d.beyond == Joined(left)
      invariant !ok ==> d.Stream() == s && d.eobrun == e && Underway(f, v, ViewOf(block[..]))
      invariant ok ==> f == Some(First(ViewOf(block[..]), d.eobrun, d.Stream()))
      decreases if ok then 0 else 1 + |left|
    {
      BlockAgain(CodeOf(d.t), v, ViewOf(block[..]), e, d.ss, d.al, d.se, s);
      ghost var w := ViewOf(block[..]);
      ok := DecodeMcuFirst(d, block);
      if !ok {
        UnderwayAgain(f, v, w, ViewOf(block[..]));
        SourceOwesMore(d, left);
        d.Deliver(left[0]);
        left := left[1..];
      }
    }
  }

  /** Suspension transparency for a first AC scan. */
  method DecodeScanFirst(d: ScanDecoder, blocks: seq<array<int>>, chunks: seq<seq<byte>>)
    requires d.Valid() && !d.insufficient && d.Over() && d.beyond == Joined(chunks)
    requires forall i :: 0 <= i < |blocks| ==> blocks[i].Length == DCTSIZE2
    requires forall i, j :: 0 <= i < j < |blocks| ==> blocks[i] != blocks[j]
    requires var r := FirstAll(CodeOf(d.t), Views(blocks), d.eobrun, d.ss, d.al, d.se, d.Stream());
      r.Some? && |r.value.2| >= SUPPLY
    modifies d, blocks
    ensures d.Valid() && !d.insufficient
    ensures FirstAll(CodeOf(d.t), old(Views(blocks)), old(d.eobrun), d.ss, d.al, d.se, old(d.Stream()))
      == Some((Views(blocks), d.eobrun, d.Stream()))
  {
    hide ViewOf, Views, CodeOf, Decodes, FirstBlock, ScanDecoder.Stream, ScanDecoder.Over, Accepted, Joined, PrefixFree, FirstAll;
    AllUnfolds(CodeOf(d.t), Views(blocks), d.eobrun, d.ss, d.al, d.se, d.Stream());
    if blocks == [] {
      return;
    }
    ghost var vs := Views(blocks);
    RestShorter(CodeOf(d.t), vs, d.eobrun, d.ss, d.al, d.se, d.Stream());
    ViewsHead(blocks);
    var left := DecodeResumedFirst(d, blocks[0], chunks);
    DecodeScanFirst(d, blocks[1..], left);
    ViewsHead(blocks);
  }

  lemma AllUnfolds(h: Code, vs: seq<seq<int>>, eobrun: nat, ss: nat, al: nat, se: nat, s: seq<bit>)
    requires PrefixFree(h) && ss <= se < DCTSIZE2 && Bands(vs)
    ensures vs == [] ==> FirstAll(h, vs, eobrun, ss, al, se, s) == Some(([], eobrun, s))
    ensures vs != [] && FirstAll(h, vs, eobrun, ss, al, se, s).Some? ==>
      var f := FirstBlock(h, vs[0], eobrun, ss, al, se, s);
      f.Some? && FirstAll(h, vs, eobrun, ss, al, se, s) == Onto([f.value.c], FirstAll(h, vs[1..], f.value.eobrun, ss, al, se, f.value.rest))
  {
    hide PrefixFree, FirstBlock;
  }

  /** Decoding only consumes bits. */
  lemma {:induction false} BandShorter(h: Code, c: seq<int>, k: nat, al: nat, se: nat, s: seq<bit>)
    requires PrefixFree(h) && |c| == DCTSIZE2 && se < DCTSIZE2 && FirstBand(h, c, k, al, se, s).Some?
    ensures |FirstBand(h, c, k, al, se, s).value.rest| <= |s|
    decreases DCTSIZE2 - k
  {
    hide PrefixFree, Short, Shl, ReadSym, SequentialSpec.ReadValue, RunLength;
    if k <= se {
      SymbolShorter(h, s);
      var r, size, t := ReadSym(h, s).value.0 / 16, ReadSym(h, s).value.0 % 16, ReadSym(h, s).value.1;
      PartsShorter(size, r, t);
      if size != 0 {
        var x := SequentialSpec.ReadValue(size, t).value;
        BandShorter(h, c[SequentialSpec.Slot(k + r) := Short(Shl(x.0, al))], k + r + 1, al, se, x.1);
      } else if r == 15 {
        BandShorter(h, c, k + 16, al, se, t);
      }
    }
  }

  lemma SymbolShorter(h: Code, s: seq<bit>)
    requires PrefixFree(h)
    ensures ReadSym(h, s).Some? ==> |ReadSym(h, s).value.1| <= |s|
  {
    hide PrefixFree;
  }

  lemma PartsShorter(size: nat, r: nat, t: seq<bit>)
    ensures SequentialSpec.ReadValue(size, t).Some? ==> |SequentialSpec.ReadValue(size, t).value.1| <= |t|
    ensures RunLength(r, t).Some? ==> |RunLength(r, t).value.1| <= |t|
  {
    hide Number, Shl;
  }

  lemma {:induction false} RestShorter(h: Code, vs: seq<seq<int>>, eobrun: nat, ss: nat, al: nat, se: nat, s: seq<bit>)
    requires PrefixFree(h) && ss <= se < DCTSIZE2 && Bands(vs) && FirstAll(h, vs, eobrun, ss, al, se, s).Some?
    ensures |FirstAll(h, vs, eobrun, ss, al, se, s).value.2| <= |s|
    ensures vs != [] ==>
      |FirstBlock(h, vs[0], eobrun, ss, al, se, s).value.rest| >= |FirstAll(h, vs, eobrun, ss, al, se, s).value.2|
  {
    hide PrefixFree, FirstBand;
    if vs != [] {
      var f := FirstBlock(h, vs[0], eobrun, ss, al, se, s).value;
      if eobrun == 0 {
        BandShorter(h, vs[0], ss, al, se, s);
      }
      RestShorter(h, vs[1..], f.eobrun, ss, al, se, f.rest);
    }
  }
}
