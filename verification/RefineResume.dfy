/** AC refinement over a whole scan with a source that may suspend at any bit request: the
state jdphuff.c keeps between MCUs, and what resuming costs. */
module RefineResume {

  import opened Wrappers
  import opened CodeString
  import opened PrefixCode
  import opened DerivedTables
  import opened DecodingTables
  import opened ZigZag
  import opened RefineSpec
  import opened BitStream
  import opened Chunks
  import opened BitReader
  import opened RefineDecoder

  /** More zeros than one MCU can ask for behind the end of the data. */
  const SUPPLY := MIN_GET_BITS * MCU_BUDGET

  class ScanDecoder {
    const tbl: DTable
    const ss: nat
    const al: nat
    const se: nat
    ghost const t: HuffTbl
    /** What the source has delivered, and what it is going to deliver. */
    var source: seq<byte>
    ghost var beyond: seq<byte>
    /** Permanent state: source position, bitstate, unread_marker, saved.EOBRUN. */
    var next: nat
    var getBuffer: nat
    var bitsLeft: nat
    var marker: nat
    var insufficient: bool
    var eobrun: nat

    ghost predicate Valid()
      reads this
    {
      && 1 <= ss <= se < DCTSIZE2 && al < 16 && Accepted(t) && Decodes(t, tbl)
      && next <= |source| && bitsLeft <= BIT_BUF_SIZE
    }

    ghost predicate Over()
      requires Valid()
      reads this
    {
      marker != 0 || Ended(source[next..] + beyond)
    }

    /** All bits still to come, followed by the zeros a decoder makes up behind them. */
    ghost function Stream(): seq<bit>
      requires Valid()
      reads this
    {
      BitsOf(getBuffer, bitsLeft)
      + ((if marker != 0 then [] else Payload(source[next..] + beyond)) + if Over() then Zeros(SUPPLY) else [])
    }

    constructor (tbl: DTable, ss: nat, al: nat, se: nat, source: seq<byte>, ghost t: HuffTbl, ghost beyond: seq<byte>)
      requires 1 <= ss <= se < DCTSIZE2 && al < 16 && Decodes(t, tbl)
      ensures Valid() && this.ss == ss && this.al == al && this.se == se && this.t == t && eobrun == 0
      ensures !insufficient && this.source == source && this.beyond == beyond
      ensures Over() == Ended(source + beyond)
      ensures Stream() == Payload(source + beyond) + if Ended(source + beyond) then Zeros(SUPPLY) else []
    {
      this.tbl, this.ss, this.al, this.se, this.t := tbl, ss, al, se, t;
      this.source, this.beyond, next, getBuffer, bitsLeft, marker := source, beyond, 0, 0, 0, 0;
      insufficient, eobrun := false, 0;
      new;
      assert source[0..] == source && BitsOf(0, 0) == [];
    }

    /** decode_mcu_AC_refine, without its restart handling. */
    method DecodeMcu(block: array<int>) returns (ok: bool)
      requires Valid() && block.Length == DCTSIZE2
      modifies this, block
      ensures Valid() && source == old(source) && beyond == old(beyond) && Over() == old(Over())
      ensures old(insufficient) ==> ok && insufficient && block[..] == old(block[..]) && Stream() == old(Stream())
      ensures !ok ==> eobrun == old(eobrun) && Stream() == old(Stream()) && !insufficient && marker == 0
      ensures !ok ==> !Ended(source[next..])
      ensures var v := ViewOf(old(block[..]));
        var r := DecodeBlock(CodeOf(t), v, old(eobrun), ss, al, se, old(Stream()));
        !old(insufficient) ==>
          && (!ok && r.Some? ==> Partial(v, ViewOf(block[..]), r.value.fix))
          && (ok && !insufficient ==> Refines(r, ViewOf(block[..]), eobrun, Stream()))
          && (ok && insufficient ==> Over() && r.Some? && |r.value.rest| < SUPPLY)
    {
      hide ViewOf, CodeOf, Decodes, DecodeBlock, BitsOf, Payload, Ended, MarkerIn, Zeros, Partial, Reader.Ahead;
      ok := true;
      if !insufficient {
        var br := new Reader(source, next, getBuffer, bitsLeft, marker, insufficient, beyond, SUPPLY);
        assert br.Known() == Stream();
        var left;
        ok, left := RefineBlock(br, tbl, block, eobrun, ss, al, se, t);
        if ok {
          next, getBuffer, bitsLeft := br.next, br.getBuffer, br.bitsLeft;
          marker, insufficient, eobrun := br.marker, br.insufficient, left;
        }
      }
    }

    /** The source delivers some of the bytes it owes. */
    method Deliver(chunk: seq<byte>)
      requires Valid() && chunk <= beyond
      modifies this
      ensures Valid() && source == old(source) + chunk && beyond == old(beyond)[|chunk|..]
      ensures Stream() == old(Stream()) && Over() == old(Over())
      ensures eobrun == old(eobrun) && insufficient == old(insufficient) && marker == old(marker) && next == old(next)
    {
      Arrives(source, chunk, beyond, next);
      source, beyond := source + chunk, beyond[|chunk|..];
    }
  }

  /** One MCU, resumed as often as the source makes it necessary. */
  method DecodeResumed(d: ScanDecoder, block: array<int>, chunks: seq<seq<byte>>) returns (left: seq<seq<byte>>)
    requires d.Valid() && !d.insufficient && d.Over() && d.beyond == Joined(chunks) && block.Length == DCTSIZE2
    requires var r := DecodeBlock(CodeOf(d.t), ViewOf(block[..]), d.eobrun, d.ss, d.al, d.se, d.Stream());
      r.Some? && |r.value.rest| >= SUPPLY
    modifies d, block
    ensures d.Valid() && !d.insufficient && d.Over() && d.beyond == Joined(left)
    ensures Refines(DecodeBlock(CodeOf(d.t), ViewOf(old(block[..])), old(d.eobrun), d.ss, d.al, d.se, old(d.Stream())),
      ViewOf(block[..]), d.eobrun, d.Stream())
  {
    hide ViewOf, CodeOf, Decodes, DecodeBlock, BitsOf, Payload, Ended, Zeros, Partial, Accepted, ScanDecoder.Stream;
    ghost var v, s, e := ViewOf(block[..]), d.Stream(), d.eobrun;
    ghost var r := DecodeBlock(CodeOf(d.t), v, e, d.ss, d.al, d.se, s);
    PartialStart(CodeOf(d.t), v, e, d.ss, d.al, d.se, s);
    left := chunks;
    var ok := false;
    while !ok
      invariant d.Valid() && !d.insufficient && d.Over() && d.beyond == Joined(left)
      invariant !ok ==> d.Stream() == s && d.eobrun == e && Partial(v, ViewOf(block[..]), r.value.fix)
      invariant ok ==> Refines(r, ViewOf(block[..]), d.eobrun, d.Stream())
      decreases if ok then 0 else 1 + |left|
    {
      DecodeAgain(CodeOf(d.t), v, ViewOf(block[..]), e, d.ss, d.al, d.se, s);
      ghost var w := ViewOf(block[..]);
      ok := d.DecodeMcu(block);
      if !ok {
        PartialAgain(v, w, ViewOf(block[..]), r.value.fix);
        SourceOwesMore(d, left);
        d.Deliver(left[0]);
        left := left[1..];
      }
    }
  }

  /** Partial passes on top of partial passes are still partial. */
  lemma PartialAgain(v: seq<int>, w: seq<int>, u: seq<int>, fix: seq<int>)
    requires Partial(v, w, fix) && Partial(w, u, fix)
    ensures Partial(v, u, fix)
  {
  }

  /** Before the first attempt nothing has been done. */
  lemma PartialStart(h: Code, v: seq<int>, eobrun: nat, ss: nat, al: nat, se: nat, s: seq<bit>)
    requires PrefixFree(h) && |v| == DCTSIZE2 && ss <= se < DCTSIZE2 && DecodeBlock(h, v, eobrun, ss, al, se, s).Some?
    ensures Partial(v, v, DecodeBlock(h, v, eobrun, ss, al, se, s).value.fix)
  {
    hide PrefixFree, Band, Finish;
    if eobrun == 0 {
      BandKeeps(h, v, ss, [], al, se, s);
    }
  }

  /** A decoder that suspends before the marker is in is owed more bytes. */
  lemma SourceOwesMore(d: ScanDecoder, left: seq<seq<byte>>)
    requires d.Valid() && d.marker == 0 && d.Over() && !Ended(d.source[d.next..]) && d.beyond == Joined(left)
    ensures left != [] && left[0] <= d.beyond && d.beyond[|left[0]|..] == Joined(left[1..])
  {
    hide Ended;
    NothingAdded(d.source[d.next..]);
  }

  lemma NothingAdded(s: seq<byte>)
    ensures s + [] == s
  {
  }

  /** Suspension transparency for a scan: however the source cuts its bytes into chunks, the
  blocks, the EOB run and the bits left over are those of one uninterrupted decoding. */
  method DecodeScan(d: ScanDecoder, blocks: seq<array<int>>, chunks: seq<seq<byte>>)
    requires d.Valid() && !d.insufficient && d.Over() && d.beyond == Joined(chunks)
    requires forall i :: 0 <= i < |blocks| ==> blocks[i].Length == DCTSIZE2
    requires forall i, j :: 0 <= i < j < |blocks| ==> blocks[i] != blocks[j]
    requires var r := RefineAll(CodeOf(d.t), Views(blocks), d.eobrun, d.ss, d.al, d.se, d.Stream());
      r.Some? && |r.value.2| >= SUPPLY
    modifies d, blocks
    ensures d.Valid() && !d.insufficient
    ensures RefineAll(CodeOf(d.t), old(Views(blocks)), old(d.eobrun), d.ss, d.al, d.se, old(d.Stream()))
      == Some((Views(blocks), d.eobrun, d.Stream()))
  {
    hide ViewOf, Views, CodeOf, Decodes, DecodeBlock, ScanDecoder.Stream, ScanDecoder.Over, Accepted, Joined, PrefixFree,
      Apply, RefineAll;
    RefineAllUnfolds(CodeOf(d.t), Views(blocks), d.eobrun, d.ss, d.al, d.se, d.Stream());
    if blocks == [] {
      return;
    }
    ghost var vs := Views(blocks);
    RestShrinks(CodeOf(d.t), vs, d.eobrun, d.ss, d.al, d.se, d.Stream());
    ViewsHead(blocks);
    var left := DecodeResumed(d, blocks[0], chunks);
    DecodeScan(d, blocks[1..], left);
    ViewsHead(blocks);
  }

  lemma ViewsHead(blocks: seq<array<int>>)
    requires blocks != [] && forall i :: 0 <= i < |blocks| ==> blocks[i].Length == DCTSIZE2
    ensures Views(blocks) == [ViewOf(blocks[0][..])] + Views(blocks[1..])
    ensures Views(blocks)[1..] == Views(blocks[1..])
  {
    hide ViewOf;
  }

  lemma RefineAllUnfolds(h: Code, vs: seq<seq<int>>, eobrun: nat, ss: nat, al: nat, se: nat, s: seq<bit>)
    requires PrefixFree(h) && ss <= se < DCTSIZE2 && forall i :: 0 <= i < |vs| ==> |vs[i]| == DCTSIZE2
    ensures vs == [] ==> RefineAll(h, vs, eobrun, ss, al, se, s) == Some(([], eobrun, s))
    ensures vs != [] && RefineAll(h, vs, eobrun, ss, al, se, s).Some? ==>
      var r := DecodeBlock(h, vs[0], eobrun, ss, al, se, s);
      && r.Some? && |r.value.fix| == DCTSIZE2 && InBlock(r.value.news)
      && var q := RefineAll(h, vs[1..], r.value.eobrun, ss, al, se, r.value.rest);
        q.Some? && RefineAll(h, vs, eobrun, ss, al, se, s)
          == Some(([Apply(r.value.fix, r.value.news)] + q.value.0, q.value.1, q.value.2))
  {
    hide PrefixFree, DecodeBlock, Apply;
  }

  /** Decoding only consumes bits. */
  lemma RestShrinks(h: Code, vs: seq<seq<int>>, eobrun: nat, ss: nat, al: nat, se: nat, s: seq<bit>)
    requires PrefixFree(h) && ss <= se < DCTSIZE2 && forall i :: 0 <= i < |vs| ==> |vs[i]| == DCTSIZE2
    requires RefineAll(h, vs, eobrun, ss, al, se, s).Some?
    ensures |RefineAll(h, vs, eobrun, ss, al, se, s).value.2| <= |s|
    ensures vs != [] ==> |DecodeBlock(h, vs[0], eobrun, ss, al, se, s).value.rest| >= |RefineAll(h, vs, eobrun, ss, al, se, s).value.2|
  {
    hide DecodeBlock, PrefixFree;
    if vs != [] {
      var r := DecodeBlock(h, vs[0], eobrun, ss, al, se, s).value;
      BlockShrinks(h, vs[0], eobrun, ss, al, se, s);
      RestShrinks(h, vs[1..], r.eobrun, ss, al, se, r.rest);
    }
  }

  lemma BlockShrinks(h: Code, v: seq<int>, eobrun: nat, ss: nat, al: nat, se: nat, s: seq<bit>)
    requires PrefixFree(h) && |v| == DCTSIZE2 && ss <= se < DCTSIZE2 && DecodeBlock(h, v, eobrun, ss, al, se, s).Some?
    ensures |DecodeBlock(h, v, eobrun, ss, al, se, s).value.rest| <= |s|
  {
    hide Band, Finish, PrefixFree;
    if eobrun > 0 {
      FinishShrinks(v, ss, al, se, s);
    } else {
      BandShrinks(h, v, ss, [], al, se, s);
    }
  }

  lemma {:induction false} FinishShrinks(c: seq<int>, k: nat, al: nat, se: nat, s: seq<bit>)
    requires |c| == DCTSIZE2 && k <= se + 1 <= DCTSIZE2 && Finish(c, k, al, se, s).Some?
    ensures |Finish(c, k, al, se, s).value.rest| <= |s|
    decreases se + 1 - k
  {
    hide Touch;
    if k > se {
    } else if c[k] != 0 {
      FinishShrinks(Touch(c, k, al, s[0]), k + 1, al, se, s[1..]);
    } else {
      FinishShrinks(c, k + 1, al, se, s);
    }
  }

  lemma {:induction false} AdvanceShrinks(c: seq<int>, k: nat, r: nat, al: nat, se: nat, s: seq<bit>)
    requires |c| == DCTSIZE2 && k <= se + 1 <= DCTSIZE2 && Advance(c, k, r, al, se, s).Some?
    ensures |Advance(c, k, r, al, se, s).value.rest| <= |s|
    decreases se + 1 - k
  {
    hide Touch;
    if k > se {
    } else if c[k] != 0 {
      AdvanceShrinks(Touch(c, k, al, s[0]), k + 1, r, al, se, s[1..]);
    } else if r > 0 {
      AdvanceShrinks(c, k + 1, r - 1, al, se, s);
    }
  }

  lemma {:induction false} BandShrinks(h: Code, c: seq<int>, k: nat, news: seq<(nat, int)>, al: nat, se: nat, s: seq<bit>)
    requires PrefixFree(h) && |c| == DCTSIZE2 && k <= se + 2 && se < DCTSIZE2 && Band(h, c, k, news, al, se, s).Some?
    ensures |Band(h, c, k, news, al, se, s).value.rest| <= |s|
    decreases se + 2 - k
  {
    hide ReadEvent, PrefixFree, Advance, Finish;
    if k <= se {
      EventShrinks(h, s);
      var e, t := ReadEvent(h, s).value.0, ReadEvent(h, s).value.1;
      if e.EndRun? {
        FinishShrinks(c, k, al, se, t);
      } else {
        AdvanceShrinks(c, k, Run(e), al, se, t);
        var p := Advance(c, k, Run(e), al, se, t).value;
        BandShrinks(h, p.c, p.k + 1, NewsAfter(news, e, p.k, al), al, se, p.rest);
      }
    }
  }

  lemma EventShrinks(h: Code, s: seq<bit>)
    requires PrefixFree(h) && ReadEvent(h, s).Some?
    ensures |ReadEvent(h, s).value.1| <= |s|
  {
    hide ReadSym, PrefixFree, Number;
  }
}
