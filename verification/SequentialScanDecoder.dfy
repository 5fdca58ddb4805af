/** Decoding a whole sequential scan of jdhuff.c, restart markers included. */
module SequentialScanDecoder {

  import opened Wrappers
  import opened CodeString
  import opened PrefixCode
  import opened DerivedTables
  import opened DecodingTables
  import opened BitStream
  import opened Chunks
  import opened BitReader
  import opened CodedItems
  import opened ZigZag
  import opened SequentialScan
  import opened SequentialDecoder
  import opened FastDecoder

  /** What can become of a restart: the source runs dry, the marker is not the expected one
  and recovery is up to the data source, or the next segment begins. */
  datatype RestartResult = Suspends | Resyncs | Restarted

  class ScanDecoder {
    const sc: Scan
    const ts: seq<Tables>
    var source: seq<byte>
    ghost var beyond: seq<byte>
    /** Permanent state: source position, bitstate, unread_marker, saved.last_dc_val, counters. */
    var next: nat
    var getBuffer: nat
    var bitsLeft: nat
    var marker: nat
    var insufficient: bool
    var lastDc: seq<int>
    var togo: nat
    var num: nat

    ghost predicate Valid()
      reads this
    {
      && AllDecode(sc, ts) && next <= |source| && bitsLeft <= BIT_BUF_SIZE
      && |lastDc| == |sc.comps| && num < 8
    }

    ghost function Supply(): nat {
      MIN_GET_BITS * McuBudget(|sc.membership|)
    }

    ghost predicate Over()
      requires Valid()
      reads this
    {
      marker != 0 || Ended(source[next..] + beyond)
    }

    /** All bits still to come before the next marker, and zeros behind them. */
    ghost function Stream(): seq<bit>
      requires Valid()
      reads this
    {
      BitsOf(getBuffer, bitsLeft)
      + ((if marker != 0 then [] else Payload(source[next..] + beyond)) + if Over() then Zeros(Supply()) else [])
    }

    /** The marker that comes next, and the bytes behind it. */
    ghost function Ahead(): Option<(nat, seq<byte>)>
      requires Valid()
      reads this
    {
      if marker != 0 then Some((marker, source[next..] + beyond))
      else
        var a := MarkerIn(source[next..] + beyond);
        if a.None? then None else Some((a.value.0, a.value.1))
    }

    ghost predicate Neat()
      requires Valid()
      reads this
    {
      marker != 0 || Plain(source[next..] + beyond)
    }

    constructor (sc: Scan, ts: seq<Tables>, source: seq<byte>, ghost beyond: seq<byte>)
      requires AllDecode(sc, ts)
      ensures Valid() && this.sc == sc && this.ts == ts && this.source == source && this.beyond == beyond
      ensures next == 0 && bitsLeft == 0 && marker == 0 && !insufficient
      ensures lastDc == NoLast(sc) && togo == sc.restartInterval && num == 0
    {
      this.sc, this.ts, this.source, this.beyond := sc, ts, source, beyond;
      next, getBuffer, bitsLeft, marker, insufficient := 0, 0, 0, 0, false;
      lastDc, togo, num := NoLast(sc), sc.restartInterval, 0;
    }

    /** The source delivers some of the bytes it owes. */
    method Deliver(chunk: seq<byte>)
      requires Valid() && chunk <= beyond
      modifies `source, `beyond
      ensures Valid() && source == old(source) + chunk && beyond == old(beyond)[|chunk|..]
      ensures Stream() == old(Stream()) && Ahead() == old(Ahead()) && Neat() == old(Neat())
    {
      hide AllDecode, Payload, Ended, MarkerIn, Plain, BitsOf, Zeros;
      Arrives(source, chunk, beyond, next);
      source, beyond := source + chunk, beyond[|chunk|..];
    }

    /** next_marker: skip to the next marker; data found on the way is dropped. */
    method NextMarker() returns (ok: bool)
      requires Valid() && marker == 0
      modifies `next, `marker
      ensures Valid() && (ok ==> marker != 0) && Ahead() == old(Ahead())
      ensures !ok ==> marker == 0 && !Ended(source[next..])
    {
      hide AllDecode, MarkerIn, Ended;
      var br := new Reader(source, next, 0, 0, 0, false, beyond, 0);
      ghost var ahead := MarkerIn(source[next..] + beyond);
      while true
        invariant next <= |source| && marker == 0 && MarkerIn(source[next..] + beyond) == ahead
        modifies `next, `marker
        decreases |source| - next
      {
        PayloadUnfold(source[next..], beyond);
        var got, c, m, after := br.FetchByte(next);
        if !got {
          return false;
        }
        FetchMoves(source, next, after);
        next := after;
        if m != 0 {
          marker := m;
          return true;
        }
      }
    }

    /** process_restart: drop the bits left over, swallow the expected RSTn, start afresh. */
    method ProcessRestart() returns (r: RestartResult)
      requires Valid()
      modifies this
      ensures Valid() && source == old(source) && beyond == old(beyond)
      ensures r.Suspends? ==> bitsLeft == 0 && Ahead() == old(Ahead()) && lastDc == old(lastDc) && togo == old(togo) && num == old(num)
      ensures r.Suspends? ==> marker == 0 && !Ended(source[next..]) && insufficient == old(insufficient)
      ensures r.Resyncs? ==> old(Ahead()).Some? && old(Ahead()).value.0 != Rst(old(num))
      ensures r.Restarted? ==> old(Ahead()).Some? && old(Ahead()).value.0 == Rst(old(num))
      ensures r.Restarted? ==> marker == 0 && bitsLeft == 0 && source[next..] + beyond == old(Ahead()).value.1
      ensures r.Restarted? ==> !insufficient && lastDc == NoLast(sc) && togo == sc.restartInterval && num == (old(num) + 1) % 8
    {
      hide AllDecode, MarkerIn, Ended;
      bitsLeft := 0;
      if marker == 0 {
        var ok := NextMarker();
        if !ok {
          return Suspends;
        }
      }
      if marker != Rst(num) {
        return Resyncs;
      }
      marker := 0;
      num := (num + 1) % 8;
      lastDc := NoLast(sc);
      togo := sc.restartInterval;
      if marker == 0 {
        insufficient := false;
      }
      r := Restarted;
    }

    /** decode_mcu_slow: read the MCU, or leave the permanent state as it was. */
    method DecodeMcuSlow(blocks: seq<array<int>>) returns (ok: bool)
      requires Valid() && Storage(sc, blocks) && !insufficient
      modifies this, blocks
      ensures Valid() && source == old(source) && beyond == old(beyond) && togo == old(togo) && num == old(num)
      ensures !ok ==> Stream() == old(Stream()) && Ahead() == old(Ahead()) && lastDc == old(lastDc) && !insufficient
      ensures !ok ==> marker == 0 && !Ended(source[next..])
      ensures var m := old(Views(blocks));
        var r := ReadMcu(sc, old(lastDc), m, 0, old(Stream()));
        && (!ok && r.Some? ==> Patched(m, Views(blocks), r.value.0))
        && (ok && !insufficient ==> r == Some((Views(blocks), lastDc, Stream())) && Ahead() == old(Ahead()))
        && (old(Neat()) ==> Neat())
        && (ok && insufficient ==> r.Some? && |r.value.2| < Supply())
    {
      hide AllDecode, MarkerIn, Plain, Ended, Payload, BitsOf, Zeros, ReadMcu, Views, Patched, ValidScan, McuBudget;
      var br := new Reader(source, next, getBuffer, bitsLeft, marker, insufficient, beyond, Supply());
      assert br.Known() == Stream() && br.Ahead() == Ahead();
      var last;
      ok, last := DecodeBlocks(br, sc, ts, lastDc, blocks);
      if ok {
        next, getBuffer, bitsLeft, marker, insufficient := br.next, br.getBuffer, br.bitsLeft, br.marker, br.insufficient;
        lastDc := last;
      }
    }

    /** What the fast attempt relies on: the data end in a marker, no FF data byte is padded
    with FF bytes, and every code met is assigned. */
    ghost predicate FastSafe(m: mcu)
      requires Valid() && ValidStorage(sc, lastDc, m)
      reads this
    {
      Over() && Neat() && McuClean(sc, lastDc, m, 0, Stream())
    }

    /** decode_mcu_fast: the whole MCU without looking out for markers; if one was met, nothing
    but the blocks has changed. */
    method DecodeMcuFast(blocks: seq<array<int>>) returns (ok: bool)
      requires Valid() && Storage(sc, blocks) && !insufficient && marker == 0 && next + 512 * |blocks| <= |source|
      requires FastSafe(Views(blocks))
      modifies this, blocks
      ensures Valid() && source == old(source) && beyond == old(beyond) && togo == old(togo) && num == old(num)
      ensures !insufficient && Over() && Neat() && Ahead() == old(Ahead())
      ensures !ok ==> Stream() == old(Stream()) && lastDc == old(lastDc) && marker == 0 && next == old(next)
      ensures var r := ReadMcu(sc, old(lastDc), old(Views(blocks)), 0, old(Stream()));
        r.Some? && r.value.0 == Views(blocks) && (ok ==> r.value.1 == lastDc && r.value.2 == Stream())
    {
      hide AllDecode, MarkerIn, Plain, Ended, Payload, BitsOf, Zeros, ReadMcu, Views, ValidScan, McuClean;
      var fr := new FastReader(source, next, getBuffer, bitsLeft, beyond, Supply());
      assert fr.Known() == Stream();
      var last := BlocksFast(fr, sc, ts, lastDc, blocks);
      marker := fr.marker;
      if marker != 0 {
        marker := 0;
        return false;
      }
      next, getBuffer, bitsLeft, lastDc := fr.p, fr.getBuffer, fr.bitsLeft, last;
      ok := true;
    }

    /** The MCU itself, fast if that is worth a try, slow otherwise or when the attempt failed. */
    method DecodeBody(blocks: seq<array<int>>, usefast: bool) returns (ok: bool)
      requires Valid() && Storage(sc, blocks) && !insufficient
      requires usefast ==> marker == 0 && next + 512 * |blocks| <= |source| && FastSafe(Views(blocks))
      modifies this, blocks
      ensures Valid() && source == old(source) && beyond == old(beyond) && togo == old(togo) && num == old(num)
      ensures !ok ==> Stream() == old(Stream()) && Ahead() == old(Ahead()) && lastDc == old(lastDc) && !insufficient
      ensures !ok ==> marker == 0 && !Ended(source[next..])
      ensures var m := old(Views(blocks));
        var r := ReadMcu(sc, old(lastDc), m, 0, old(Stream()));
        && (!ok && r.Some? ==> Patched(m, Views(blocks), r.value.0))
        && (ok && !insufficient ==> r == Some((Views(blocks), lastDc, Stream())) && Ahead() == old(Ahead()))
        && (old(Neat()) ==> Neat())
        && (ok && insufficient ==> r.Some? && |r.value.2| < Supply())
    {
      hide AllDecode, MarkerIn, Plain, Ended, Payload, BitsOf, Zeros, ReadMcu, Views, ValidScan, McuClean, Patched,
        ScanDecoder.Stream, ScanDecoder.Ahead;
      ghost var m, l, s := Views(blocks), lastDc, Stream();
      StorageShape(sc, ts, l, blocks);
      if usefast {
        ok := DecodeMcuFast(blocks);
        if ok {
          return;
        }
        Garbled(sc, l, m, Views(blocks), s);
      }
      ok := DecodeMcuSlow(blocks);
      if usefast {
        PatchedFinal(m, Views(blocks), ReadMcu(sc, l, m, 0, s).value.0);
      }
    }

    /** decode_mcu: the restart that may be due, the blocks, and the counter.  The ghost results
    tell where the MCU's own bits began: predictions, bits, and the marker ahead. */
    method DecodeMcu(blocks: seq<array<int>>)
      returns (r: McuResult, ghost l: seq<int>, ghost s: seq<bit>, ghost a: Option<(nat, seq<byte>)>)
      requires Valid() && Storage(sc, blocks)
      requires sc.restartInterval == 0 && !insufficient ==> FastSafe(Views(blocks))
      modifies this, blocks
      ensures Valid() && source == old(source) && beyond == old(beyond) && |l| == |sc.comps|
      ensures !RestartDue(sc, old(togo)) ==> l == old(lastDc) && s == old(Stream()) && a == old(Ahead()) && !r.Lost?
      ensures r.Lost? ==> old(Ahead()).Some? && old(Ahead()).value.0 != Rst(old(num))
      ensures RestartDue(sc, old(togo)) && (r.Decoded? || (r.Waits? && !RestartDue(sc, togo))) ==>
        old(Ahead()).Some? && old(Ahead()).value.0 == Rst(old(num)) && l == NoLast(sc)
        && (s, a) == SegmentAt(old(Ahead()).value.1, Supply())
      ensures r.Decoded? ==> togo == TogoAfter(sc, old(togo)) && num == NumAfter(sc, old(togo), old(num))
      ensures r.Waits? ==> marker == 0 && !Ended(source[next..])
      ensures r.Waits? && RestartDue(sc, togo) ==>
        Views(blocks) == old(Views(blocks)) && Ahead() == old(Ahead()) && lastDc == old(lastDc) && num == old(num)
        && togo == old(togo) && insufficient == old(insufficient)
      ensures r.Waits? && !RestartDue(sc, togo) ==>
        Stream() == s && Ahead() == a && lastDc == l && num == NumAfter(sc, old(togo), old(num)) && !insufficient
        && togo == if RestartDue(sc, old(togo)) then sc.restartInterval else old(togo)
      ensures old(Neat()) && sc.restartInterval == 0 ==> Neat()
      ensures old(insufficient) && !RestartDue(sc, old(togo)) ==>
        r.Decoded? && Views(blocks) == old(Views(blocks)) && Stream() == s && lastDc == l && insufficient
      ensures !old(insufficient) || RestartDue(sc, old(togo)) ==>
        var m := old(Views(blocks));
        && (r.Decoded? && !insufficient ==> ReadMcu(sc, l, m, 0, s) == Some((Views(blocks), lastDc, Stream())) && Ahead() == a)
        && (r.Decoded? && insufficient ==> ReadMcu(sc, l, m, 0, s).Some? && |ReadMcu(sc, l, m, 0, s).value.2| < Supply())
        && (r.Waits? && !RestartDue(sc, togo) && ReadMcu(sc, l, m, 0, s).Some? ==>
              Patched(m, Views(blocks), ReadMcu(sc, l, m, 0, s).value.0))
    {
      hide AllDecode, MarkerIn, Plain, Ended, Payload, BitsOf, Zeros, ReadMcu, Views, ValidScan, McuClean, Patched, FileFrom;
      var usefast := true;
      if sc.restartInterval > 0 {
        if togo == 0 {
          var rr := ProcessRestart();
          l, s, a := lastDc, [], None;
          if rr.Suspends? {
            return Waits, l, s, a;
          }
          if rr.Resyncs? {
            return Lost, l, s, a;
          }
          EmptyRegister(getBuffer);
        }
        usefast := false;
      }
      if |source| - next < 512 * |blocks| || marker != 0 {
        usefast := false;
      }
      l, s, a := lastDc, Stream(), Ahead();
      if !insufficient {
        var ok := DecodeBody(blocks, usefast);
        if !ok {
          return Waits, l, s, a;
        }
      }
      if sc.restartInterval > 0 {
        togo := togo - 1;
      }
      r := Decoded;
    }
  }

  /** What can become of an MCU. */
  datatype McuResult = Decoded | Waits | Lost

  /** Bits and marker of the segment that begins with the bytes given. */
  ghost function SegmentAt(bytes: seq<byte>, supply: nat): (seq<bit>, Option<(nat, seq<byte>)>) {
    var a := MarkerIn(bytes);
    (Payload(bytes) + (if Ended(bytes) then Zeros(supply) else []), if a.None? then None else Some((a.value.0, a.value.1)))
  }

  /** The number of the next restart marker. */
  function NumAfter(sc: Scan, togo: nat, num: nat): nat {
    if RestartDue(sc, togo) then (num + 1) % 8 else num
  }

  lemma EmptyRegister(gb: nat)
    ensures forall t: seq<bit> :: BitsOf(gb, 0) + t == t
  {
  }

  lemma StorageShape(sc: Scan, ts: seq<Tables>, last: seq<int>, blocks: seq<array<int>>)
    requires AllDecode(sc, ts) && Storage(sc, blocks) && |last| == |sc.comps|
    ensures ValidScan(sc) && ValidStorage(sc, last, Views(blocks))
  {
    hide ViewOf;
  }

  /** What a failed fast attempt leaves in the blocks does not disturb the slow one. */
  lemma Garbled(sc: Scan, last: seq<int>, m: mcu, n: mcu, t: seq<bit>)
    requires ValidScan(sc) && ValidStorage(sc, last, m) && ReadMcu(sc, last, m, 0, t).Some?
    requires n == ReadMcu(sc, last, m, 0, t).value.0
    ensures ValidStorage(sc, last, n) && ReadMcu(sc, last, n, 0, t) == ReadMcu(sc, last, m, 0, t) && Patched(m, n, n)
  {
    hide ReadMcu, ValidTables;
    ReadMcuAgain(sc, last, m, n, 0, t);
  }

  lemma PatchedFinal(m: mcu, n: mcu, f: mcu)
    ensures Patched(f, n, f) && Patched(m, f, f) ==> Patched(m, n, f)
  {
  }

  lemma FetchMoves(source: seq<byte>, at: nat, after: nat)
    requires at <= |source| && after <= |source|
    requires var f := Next(source[at..]);
      !f.Dry? && source[after..] == f.rest
    ensures at < after
  {
  }
}
