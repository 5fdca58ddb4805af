/** Sequential Huffman scans there and back: any MCUs, any restart interval, any legal tables
with the symbols needed. */
module SequentialRoundTrip {

  import opened Wrappers
  import opened CodeString
  import opened PrefixCode
  import opened DerivedTables
  import opened DecodingTables
  import opened BitStream
  import opened Chunks
  import opened CodedItems
  import opened ZigZag
  import opened Coefficients
  import opened SequentialSpec
  import opened SequentialScan
  import opened SequentialDecoder
  import opened FastDecoder
  import opened SequentialScanDecoder
  import SequentialEncoder
  import SequentialWriter

  lemma WordAssigned(h: Code, s: byte, rest: seq<bit>)
    requires Proper(h) && HasWord(h, s)
    ensures AssignedSym(h, Word(h, s) + rest)
  {
    var p :| 0 <= p < |h.vals| && h.vals[p] == s;
    WordAt(h, p);
    assert h.words[p] <= h.words[p] + rest;
    assert Begins(h, p, Word(h, s) + rest);
  }

  /** What the encoder sends for the AC coefficients meets assigned codes only. */
  lemma {:induction false} AcCleanBack(h: Code, v: seq<int>, k: nat, r: nat, rest: seq<bit>)
    requires Proper(h) && PrefixFree(h) && IsBlock(v) && r <= k <= DCTSIZE2 && Coded(h, AcItems(v, k, r))
    ensures AcClean(h, k - r, Spell(h, AcItems(v, k, r)) + rest)
    decreases DCTSIZE2 - k, r
  {
    hide Proper, PrefixFree, HasWord, Word, ReadSym, ReadValue, NBits, ValueBits, Spell, Coded, AssignedSym;
    if k == DCTSIZE2 {
      if r > 0 {
        SpellOneMore(h, EOB, [], rest);
        assert [Sym(EOB)] + [] == [Sym(EOB)];
        NothingSpelled(h);
        WordAssigned(h, EOB, [] + rest);
        ReadWordBack(h, EOB, [] + rest);
      }
    } else if v[k] == 0 {
      AcCleanBack(h, v, k + 1, r + 1, rest);
    } else if r > 15 {
      var items := AcItems(v, k, r - 16);
      SpellOneMore(h, ZRL, items, rest);
      WordAssigned(h, ZRL, Spell(h, items) + rest);
      ReadWordBack(h, ZRL, Spell(h, items) + rest);
      AcCleanBack(h, v, k, r - 16, rest);
    } else {
      var items := AcItems(v, k + 1, 0);
      var n := NBits(Abs(v[k]));
      SmallValue(v[k]);
      NotZero(v[k]);
      var u := ValueBits(v[k]) + (Spell(h, items) + rest);
      SpellTwo(h, 16 * r + n, ValueBits(v[k]), items, rest);
      WordAssigned(h, 16 * r + n, u);
      ReadWordBack(h, 16 * r + n, u);
      SymbolParts(r, n);
      ReadValueBack(v[k], Spell(h, items) + rest);
      AcCleanBack(h, v, k + 1, 0, rest);
    }
  }

  lemma BlockCleanBack(c: Component, last: int, v: seq<int>, rest: seq<bit>)
    requires ValidTables(c) && IsBlock(v) && Fits(last) && Sendable(c, last, v)
    ensures BlockClean(c, BlockBits(c, last, v) + rest)
  {
    hide Proper, Coded, CodeOf, NBits, ValueBits, Spell, AcItems, Accepted, Encodable, ReadDc, HasWord, Word, AcClean, AssignedSym;
    DiffFits(v[0], last);
    var diff := v[0] - last;
    var h := CodeOf(c.dc);
    var d, a := Spell(h, DcItems(diff)), Spell(CodeOf(c.ac), AcItems(v, 1, 0));
    Assoc(d, a, rest);
    ReadDcBack(h, diff, a + rest);
    DcAssigned(h, diff, a + rest);
    AcCleanBack(CodeOf(c.ac), v, 1, 0, rest);
  }

  lemma DcAssigned(h: Code, diff: int, rest: seq<bit>)
    requires Proper(h) && NBits(Abs(diff)) <= 255 && Coded(h, DcItems(diff))
    ensures AssignedSym(h, Spell(h, DcItems(diff)) + rest)
  {
    hide Proper, NBits, ValueBits, Spell, Coded, HasWord, Word, AssignedSym;
    var n := NBits(Abs(diff));
    SpellTwo(h, n, ValueBits(diff), [], rest);
    assert DcItems(diff) + [] == DcItems(diff);
    WordAssigned(h, n, ValueBits(diff) + (Spell(h, []) + rest));
  }

  lemma {:induction false} McuCleanBack(sc: Scan, last: seq<int>, m: mcu, z: mcu, i: nat, rest: seq<bit>)
    requires ValidScan(sc) && ValidLast(sc, last) && ValidMcu(sc, m) && ValidStorage(sc, last, z) && Zeroed(z, i)
    requires McuSendable(sc, last, m, i)
    ensures McuClean(sc, last, z, i, McuBits(sc, last, m, i) + rest)
    decreases |m| - i
  {
    hide BlockBits, ReadBlock, Sendable, ValidTables, IsBlock, BlockClean;
    if i < |m| {
      var ci := sc.membership[i];
      BlockInRange(m[i]);
      var l := last[ci := m[i][0]];
      var u := McuBits(sc, l, m, i + 1) + rest;
      Assoc(BlockBits(sc.comps[ci], last[ci], m[i]), McuBits(sc, l, m, i + 1), rest);
      BlockCleanBack(sc.comps[ci], last[ci], m[i], u);
      ReadBlockBack(sc.comps[ci], last[ci], m[i], z[i], u);
      McuCleanBack(sc, l, m, z[i := m[i]], i + 1, rest);
    }
  }

  /** Stuffed data are never padded. */
  lemma {:induction false} PlainOfStuffed(s: seq<byte>, m: byte, rest: seq<byte>)
    requires 0 < m < 255
    ensures Plain(Stuff(s) + ([255, m] + rest))
  {
    hide Stuff, StuffOne, AfterFF;
    var tail := [255, m] + rest;
    if s == [] {
      NothingStuffed();
      assert [] + tail == tail;
      PlainMarker(m, rest);
    } else {
      var b, t := s[0], s[1..];
      assert s == [b] + t;
      StuffHead(b, t);
      NextOfStuffed(b, Stuff(t) + tail);
      Assoc(StuffOne(b), Stuff(t), tail);
      PlainOfStuffed(t, m, rest);
      OneLength(b);
    }
  }

  lemma OneLength(b: byte)
    ensures |StuffOne(b)| == if b == 255 then 2 else 1
  {
  }

  lemma PlainMarker(m: byte, rest: seq<byte>)
    requires 0 < m < 255
    ensures Plain([255, m] + rest)
  {
    assert ([255, m] + rest)[1..] == [m] + rest;
  }

  /** What follows the first payload: a restart marker and the other segments, or the end. */
  function Follow(ps: seq<seq<byte>>, num: nat, m: byte, after: seq<byte>): (nat, seq<byte>)
    requires num < 8 && ps != []
  {
    if |ps| == 1 then (m, after) else (Rst(num), FileFrom(ps[1..], (num + 1) % 8, m, after))
  }

  lemma FileStart(ps: seq<seq<byte>>, num: nat, m: byte, after: seq<byte>)
    requires num < 8 && ps != [] && 0 < m < 255
    ensures var f := FileFrom(ps, num, m, after);
      Payload(f) == ByteBits(ps[0]) && Ended(f) && Plain(f) && MarkerIn(f) == Some(Marked(Follow(ps, num, m, after)))
  {
    hide Payload, Ended, Plain, MarkerIn, Stuff, ByteBits;
    var x := if |ps| == 1 then m else Rst(num);
    var rest := if |ps| == 1 then after else FileFrom(ps[1..], (num + 1) % 8, m, after);
    PayloadOfStuffed(ps[0], x, rest);
    PlainOfStuffed(ps[0], x, rest);
  }

  function Marked(f: (nat, seq<byte>)): (byte, seq<byte>) {
    (if f.0 < 256 then f.0 else 0, f.1)
  }

  lemma {:induction false} MarkerEnded(s: seq<byte>)
    ensures MarkerIn(s).Some? <==> Ended(s)
    decreases |s|
  {
    match Next(s)
    case Data(b, rest) => MarkerEnded(rest);
    case Marker(_, _) =>
    case Dry =>
  }

  /** Where a decoder stands: MCUs to go, predictions, marker number, bits and marker ahead. */
  datatype Stand = Stand(togo: nat, last: seq<int>, num: nat, bits: seq<bit>, ahead: Option<(nat, seq<byte>)>)

  /** The MCUs ms begin here: their bits come next, padded, and the other segments lie behind the
  marker ahead. */
  ghost predicate Faces(sc: Scan, t: Stand, supply: nat, ms: seq<mcu>, ps: seq<seq<byte>>, m: byte, after: seq<byte>) {
    && 0 < m < 255 && ValidScan(sc) && (forall x :: x in ms ==> ValidMcu(sc, x)) && ValidLast(sc, t.last) && t.num < 8
    && AllSendable(sc, ms, t.togo, t.last)
    && var segs := Segments(sc, ms, t.togo, t.last);
      && ps != [] && |ps| == |segs| && AllCarry(ps[1..], segs[1..])
      && (RestartDue(sc, t.togo) || PaddedStream(t.bits, segs[0], supply))
      && t.ahead == Some(Follow(ps, t.num, m, after))
  }

  ghost function At(d: ScanDecoder): Stand
    requires d.Valid()
    reads d
  {
    Stand(d.togo, d.lastDc, d.num, d.Stream(), d.Ahead())
  }

  /** The decoder stands where the MCUs ms begin. */
  ghost predicate Awaits(d: ScanDecoder, ms: seq<mcu>, ps: seq<seq<byte>>, m: byte, after: seq<byte>)
    reads d
  {
    d.Valid() && !d.insufficient && Faces(d.sc, At(d), d.Supply(), ms, ps, m, after) && (d.sc.restartInterval == 0 ==> d.Neat())
  }

  ghost predicate PaddedStream(s: seq<bit>, bits: seq<bit>, supply: nat) {
    exists pad: nat :: pad < 8 && s == bits + (Ones(pad) + Zeros(supply))
  }

  /** The payload left after an MCU: the next one if a restart was due. */
  function PayloadsAfter(sc: Scan, togo: nat, ps: seq<seq<byte>>): seq<seq<byte>> {
    if RestartDue(sc, togo) && ps != [] then ps[1..] else ps
  }

  /** Whether the codes met are assigned does not depend on what the storage holds. */
  lemma {:induction false} McuCleanAgain(sc: Scan, last: seq<int>, m: mcu, n: mcu, i: nat, t: seq<bit>)
    requires ValidScan(sc) && ValidStorage(sc, last, m) && ReadMcu(sc, last, m, i, t).Some? && McuClean(sc, last, m, i, t)
    requires Patched(m, n, ReadMcu(sc, last, m, i, t).value.0) && forall k :: 0 <= k < i && k < |m| ==> n[k] == m[k]
    ensures ValidStorage(sc, last, n) && McuClean(sc, last, n, i, t)
    decreases |m| - i
  {
    hide ReadBlock, ValidTables, BlockClean;
    if i < |m| {
      var ci := sc.membership[i];
      var b := ReadBlock(sc.comps[ci], last[ci], m[i], t).value;
      ReadMcuKeeps(sc, last[ci := b.1], m[i := b.0], i + 1, b.2);
      ReadBlockAgain(sc.comps[ci], last[ci], m[i], n[i], t);
      McuCleanAgain(sc, last[ci := b.1], m[i := b.0], n[i := b.0], i + 1, b.2);
    }
  }

  /** The MCU at the head of the stream. */
  lemma HeadMcu(sc: Scan, l: seq<int>, x: mcu, z: mcu, w: mcu, s: seq<bit>, tail: seq<bit>, supply: nat)
    requires ValidScan(sc) && ValidLast(sc, l) && ValidMcu(sc, x) && ValidStorage(sc, l, z) && Zeroed(z, 0) && Patched(z, w, x)
    requires McuSendable(sc, l, x, 0) && PaddedStream(s, McuBits(sc, l, x, 0) + tail, supply)
    ensures ValidStorage(sc, l, w) && McuClean(sc, l, w, 0, s) && ReadMcu(sc, l, w, 0, s).Some?
    ensures var r := ReadMcu(sc, l, w, 0, s).value;
      r.0 == x && r.1 == McuLast(sc, l, x, 0) && PaddedStream(r.2, tail, supply) && |r.2| >= supply
  {
    hide McuBits, McuClean, ReadMcu, McuSendable, ValidScan, Patched;
    var pad: nat :| pad < 8 && s == McuBits(sc, l, x, 0) + tail + (Ones(pad) + Zeros(supply));
    var rest := tail + (Ones(pad) + Zeros(supply));
    Assoc(McuBits(sc, l, x, 0), tail, Ones(pad) + Zeros(supply));
    ReadMcuBack(sc, l, x, z, 0, rest);
    McuCleanBack(sc, l, x, z, 0, rest);
    ReadMcuAgain(sc, l, z, w, 0, s);
    McuCleanAgain(sc, l, z, w, 0, s);
  }

  /** The same place once a restart marker that is due has been passed. */
  ghost function Past(sc: Scan, t: Stand, supply: nat): (u: Stand)
    requires ValidLast(sc, t.last) && t.num < 8
    ensures ValidLast(sc, u.last) && u.num < 8
  {
    if RestartDue(sc, t.togo) && t.ahead.Some? then
      var (s, a) := SegmentAt(t.ahead.value.1, supply);
      Stand(sc.restartInterval, NoLast(sc), (t.num + 1) % 8, s, a)
    else t
  }

  lemma SameSegment(sc: Scan, x: mcu, rest: seq<mcu>, togo: nat, last: seq<int>, s: seq<bit>, supply: nat)
    requires ValidScan(sc) && ValidLast(sc, last) && ValidMcu(sc, x) && forall y :: y in rest ==> ValidMcu(sc, y)
    requires !RestartDue(sc, togo) && PaddedStream(s, Segments(sc, [x] + rest, togo, last)[0], supply)
    ensures var segs := Segments(sc, rest, TogoAfter(sc, togo), McuLast(sc, last, x, 0));
      && PaddedStream(s, McuBits(sc, last, x, 0) + segs[0], supply)
      && segs[1..] == Segments(sc, [x] + rest, togo, last)[1..] && |segs| == |Segments(sc, [x] + rest, togo, last)|
  {
    hide ValidScan, McuBits, Segments, McuLast, PaddedStream;
    SequentialEncoder.Unroll(sc, x, rest, togo, last);
  }

  lemma NextSegment(sc: Scan, x: mcu, rest: seq<mcu>, togo: nat, last: seq<int>, ps: seq<seq<byte>>, num: nat, m: byte,
      after: seq<byte>, supply: nat)
    requires ValidScan(sc) && ValidLast(sc, last) && ValidMcu(sc, x) && forall y :: y in rest ==> ValidMcu(sc, y)
    requires RestartDue(sc, togo) && num < 8 && 0 < m < 255
    requires var segs := Segments(sc, [x] + rest, togo, last);
      ps != [] && |ps| == |segs| && AllCarry(ps[1..], segs[1..])
    ensures |ps| > 1
    ensures var segs := Segments(sc, rest, TogoAfter(sc, togo), McuLast(sc, NoLast(sc), x, 0));
      var at := SegmentAt(FileFrom(ps[1..], num, m, after), supply);
      && |ps[1..]| == |segs| && AllCarry(ps[1..][1..], segs[1..])
      && PaddedStream(at.0, McuBits(sc, NoLast(sc), x, 0) + segs[0], supply)
      && at.1 == Some(Follow(ps[1..], num, m, after))
  {
    hide ValidScan, McuBits, Segments, McuLast, ByteBits, Payload, Ended, MarkerIn, FileFrom, Plain;
    SequentialEncoder.Unroll(sc, x, rest, togo, last);
    var before := Segments(sc, [x] + rest, togo, last);
    var segs := Segments(sc, rest, TogoAfter(sc, togo), McuLast(sc, NoLast(sc), x, 0));
    var bits := McuBits(sc, NoLast(sc), x, 0) + segs[0];
    assert before[1..] == Onto(McuBits(sc, NoLast(sc), x, 0), segs);
    FileStart(ps[1..], num, m, after);
    assert Carries(ps[1..][0], before[1..][0]);
    var pad: nat :| Padded(ps[1..][0], bits, pad);
    Assoc(bits, Ones(pad), Zeros(supply));
    CarryTail(ps[1..], before[1..], segs);
  }

  lemma CarryTail(ps: seq<seq<byte>>, before: seq<seq<bit>>, segs: seq<seq<bit>>)
    requires AllCarry(ps, before) && ps != [] && |segs| == |before| && segs[1..] == before[1..]
    ensures AllCarry(ps[1..], segs[1..])
  {
    hide Carries;
    assert forall i: nat :: i < |ps| - 1 ==> ps[1..][i] == ps[i + 1] && before[1..][i] == before[i + 1];
  }

  /** Passing a marker that is due, the MCUs still begin where the decoder stands. */
  lemma PassedOn(sc: Scan, t: Stand, supply: nat, x: mcu, rest: seq<mcu>, ps: seq<seq<byte>>, m: byte, after: seq<byte>)
    requires Faces(sc, t, supply, [x] + rest, ps, m, after)
    ensures RestartDue(sc, t.togo) ==> t.ahead.Some? && t.ahead.value.0 == Rst(t.num)
    ensures var u := Past(sc, t, supply);
      !RestartDue(sc, u.togo) && Faces(sc, u, supply, [x] + rest, PayloadsAfter(sc, t.togo, ps), m, after)
  {
    hide Segments, McuBits, McuLast, McuSendable, PaddedStream, FileFrom, AllCarry, NoLast, AllSendable, ValidScan, ValidMcu;
    assert [x] + rest == [x] + rest && x in [x] + rest;
    assert forall y :: y in rest ==> y in [x] + rest;
    SequentialEncoder.Unroll(sc, x, rest, t.togo, t.last);
    if RestartDue(sc, t.togo) {
      NextSegment(sc, x, rest, t.togo, t.last, ps, (t.num + 1) % 8, m, after, supply);
      SequentialEncoder.Unroll(sc, x, rest, sc.restartInterval, NoLast(sc));
      OntoParts(McuBits(sc, NoLast(sc), x, 0), Segments(sc, rest, TogoAfter(sc, t.togo), McuLast(sc, NoLast(sc), x, 0)));
    }
  }

  lemma OntoParts(bits: seq<bit>, segs: seq<seq<bit>>)
    requires segs != []
    ensures Onto(bits, segs)[0] == bits + segs[0] && Onto(bits, segs)[1..] == segs[1..] && |Onto(bits, segs)| == |segs|
  {
  }

  /** Behind the MCU at the head the others begin. */
  lemma MovedOn(sc: Scan, t: Stand, supply: nat, x: mcu, rest: seq<mcu>, ps: seq<seq<byte>>, m: byte, after: seq<byte>,
      z: mcu, w: mcu)
    requires Faces(sc, t, supply, [x] + rest, ps, m, after) && !RestartDue(sc, t.togo)
    requires ValidStorage(sc, t.last, z) && Zeroed(z, 0) && Patched(z, w, x)
    ensures ValidStorage(sc, t.last, w) && McuClean(sc, t.last, w, 0, t.bits) && ReadMcu(sc, t.last, w, 0, t.bits).Some?
    ensures var r := ReadMcu(sc, t.last, w, 0, t.bits).value;
      r.0 == x && |r.2| >= supply
      && Faces(sc, Stand(TogoAfter(sc, t.togo), r.1, t.num, r.2, t.ahead), supply, rest, ps, m, after)
  {
    hide Segments, McuBits, McuLast, McuSendable, McuClean, ReadMcu, PaddedStream, FileFrom, AllCarry, NoLast, AllSendable, ValidScan,
      ValidMcu, Patched, Zeroed, Follow;
    assert x in [x] + rest;
    assert forall y :: y in rest ==> y in [x] + rest;
    SequentialEncoder.Unroll(sc, x, rest, t.togo, t.last);
    SameSegment(sc, x, rest, t.togo, t.last, t.bits, supply);
    HeadMcu(sc, t.last, x, z, w, t.bits, Segments(sc, rest, TogoAfter(sc, t.togo), McuLast(sc, t.last, x, 0))[0], supply);
    LastStaysValid(sc, t.last, x);
  }

  lemma LastStaysValid(sc: Scan, l: seq<int>, x: mcu)
    requires ValidScan(sc) && ValidLast(sc, l) && ValidMcu(sc, x)
    ensures ValidLast(sc, McuLast(sc, l, x, 0))
  {
  }

  /** One attempt at the next MCU of the scan: it comes out, or the decoder waits before it. */
  method Attempt(d: ScanDecoder, blocks: seq<array<int>>, ghost z: mcu, ghost ms: seq<mcu>, ghost ps: seq<seq<byte>>, ghost m: byte,
      ghost after: seq<byte>)
    returns (r: McuResult, ghost ps': seq<seq<byte>>)
    requires ms != [] && Awaits(d, ms, ps, m, after) && Storage(d.sc, blocks) && ValidStorage(d.sc, d.lastDc, z)
    requires Zeroed(z, 0) && Patched(z, Views(blocks), ms[0])
    modifies d, blocks
    ensures d.beyond == old(d.beyond) && !r.Lost?
    ensures r.Decoded? ==> Awaits(d, ms[1..], ps', m, after) && Views(blocks) == ms[0]
    ensures r.Waits? ==> Awaits(d, ms, ps', m, after) && Patched(z, Views(blocks), ms[0]) && ValidStorage(d.sc, d.lastDc, z)
    ensures r.Waits? ==> d.marker == 0 && !Ended(d.source[d.next..])
  {
    hide Segments, McuBits, McuLast, McuSendable, McuClean, ReadMcu, ValidTables, PaddedStream, FileFrom, ViewOf, Views, Follow,
      ScanDecoder.Stream, ScanDecoder.Ahead, AllCarry, NoLast, AllSendable, AllDecode, Zeroed, ValidScan, ValidMcu, Patched, Ended,
      Faces, SegmentAt;
    ghost var sc, x, rest, t := d.sc, ms[0], ms[1..], At(d);
    ghost var w, supply := Views(blocks), d.Supply();
    assert ms == [x] + rest;
    StorageShape(sc, d.ts, d.lastDc, blocks);
    FacesShape(sc, t, supply, ms, ps, m, after);
    AheadOver(d);
    PassedOn(sc, t, supply, x, rest, ps, m, after);
    ghost var u := Past(sc, t, supply);
    ghost var ps1 := PayloadsAfter(sc, t.togo, ps);
    MovedOn(sc, u, supply, x, rest, ps1, m, after, z, w);
    ghost var l, s, a;
    r, l, s, a := d.DecodeMcu(blocks);
    ps' := ps1;
    if r.Waits? {
      if RestartDue(sc, d.togo) {
        ps' := ps;
        StillDue(sc, t, d.Stream(), supply, ms, ps, m, after);
      } else {
        PatchedOver(z, w, Views(blocks), x);
      }
    }
  }

  /** Before a marker that is due the bits left over do not matter. */
  lemma StillDue(sc: Scan, t: Stand, bits: seq<bit>, supply: nat, ms: seq<mcu>, ps: seq<seq<byte>>, m: byte, after: seq<byte>)
    requires Faces(sc, t, supply, ms, ps, m, after) && RestartDue(sc, t.togo)
    ensures Faces(sc, t.(bits := bits), supply, ms, ps, m, after)
  {
    hide ValidScan, AllSendable, Segments, AllCarry, PaddedStream;
  }

  lemma FacesShape(sc: Scan, t: Stand, supply: nat, ms: seq<mcu>, ps: seq<seq<byte>>, m: byte, after: seq<byte>)
    requires Faces(sc, t, supply, ms, ps, m, after)
    ensures ValidLast(sc, t.last) && t.num < 8 && t.ahead.Some?
  {
    hide ValidScan, AllSendable, Segments, AllCarry, PaddedStream;
  }

  lemma PatchedOver(z: mcu, w: mcu, v: mcu, x: mcu)
    requires Patched(z, w, x) && Patched(w, v, x)
    ensures Patched(z, v, x)
  {
  }

  lemma PatchedStart(z: mcu, x: mcu)
    requires |z| == |x| && forall i :: 0 <= i < |z| ==> |z[i]| == |x[i]| == DCTSIZE2
    ensures Patched(z, z, x)
  {
  }

  /** Decoding the next MCU of the scan, resumed as often as the source makes it necessary. */
  method DecodeNext(d: ScanDecoder, blocks: seq<array<int>>, chunks: seq<seq<byte>>, ghost ms: seq<mcu>, ghost ps: seq<seq<byte>>,
      ghost m: byte, ghost after: seq<byte>)
    returns (left: seq<seq<byte>>, ghost ps': seq<seq<byte>>)
    requires ms != [] && Awaits(d, ms, ps, m, after) && Storage(d.sc, blocks) && Zeroed(Views(blocks), 0)
    requires d.beyond == Joined(chunks)
    modifies d, blocks
    ensures Awaits(d, ms[1..], ps', m, after) && Views(blocks) == ms[0] && d.beyond == Joined(left)
  {
    hide Awaits, Views, Zeroed, Patched, Ended, Joined;
    ghost var z := Views(blocks);
    StartStorage(d, ms, ps, m, after, blocks);
    left, ps' := chunks, ps;
    var r := Waits;
    while r.Waits?
      invariant d.beyond == Joined(left)
      invariant r.Waits? ==> Awaits(d, ms, ps', m, after) && Patched(z, Views(blocks), ms[0]) && ValidStorage(d.sc, d.lastDc, z)
      invariant !r.Waits? ==> Awaits(d, ms[1..], ps', m, after) && Views(blocks) == ms[0]
      decreases if r.Waits? then 1 + |left| else 0
    {
      r, ps' := Attempt(d, blocks, z, ms, ps', m, after);
      if r.Waits? {
        left := TakeChunk(d, left, ms, ps', m, after);
      }
    }
  }

  /** A decoder that waits is owed more bytes; the next chunk of them comes in. */
  method TakeChunk(d: ScanDecoder, chunks: seq<seq<byte>>, ghost ms: seq<mcu>, ghost ps: seq<seq<byte>>, ghost m: byte,
      ghost after: seq<byte>)
    returns (left: seq<seq<byte>>)
    requires Awaits(d, ms, ps, m, after) && d.marker == 0 && !Ended(d.source[d.next..]) && d.beyond == Joined(chunks)
    modifies d`source, d`beyond
    ensures Awaits(d, ms, ps, m, after) && d.beyond == Joined(left) && |left| < |chunks|
  {
    hide AllDecode, Segments, FileFrom, AllCarry, AllSendable, ValidScan, PaddedStream, ScanDecoder.Stream, ScanDecoder.Ahead, Ended,
      NoLast, Joined;
    AheadEnds(d);
    Owed(chunks, d.beyond);
    d.Deliver(chunks[0]);
    left := chunks[1..];
  }

  lemma StartStorage(d: ScanDecoder, ms: seq<mcu>, ps: seq<seq<byte>>, m: byte, after: seq<byte>, blocks: seq<array<int>>)
    requires ms != [] && Awaits(d, ms, ps, m, after) && Storage(d.sc, blocks)
    ensures Patched(Views(blocks), Views(blocks), ms[0]) && ValidStorage(d.sc, d.lastDc, Views(blocks))
  {
    hide AllDecode, Segments, FileFrom, AllCarry, AllSendable, ValidScan, PaddedStream, ScanDecoder.Stream, ScanDecoder.Ahead, Ended,
      ViewOf;
    assert ms[0] in ms;
    PatchedStart(Views(blocks), ms[0]);
  }

  /** A marker ahead means that the data end. */
  lemma AheadOver(d: ScanDecoder)
    requires d.Valid() && d.Ahead().Some?
    ensures d.Over()
  {
    hide AllDecode;
    MarkerEnded(d.source[d.next..] + d.beyond);
  }

  /** A decoder that waits before a marker is owed bytes. */
  lemma AheadEnds(d: ScanDecoder)
    requires d.Valid() && d.marker == 0 && !Ended(d.source[d.next..]) && d.Ahead().Some?
    ensures d.beyond != []
  {
    hide AllDecode;
    MarkerEnded(d.source[d.next..] + d.beyond);
    assert d.source[d.next..] + [] == d.source[d.next..];
  }

  /** The MCUs of a scan are made of separate blocks of the right number. */
  ghost predicate McuArrays(n: nat, mcus: seq<seq<array<int>>>) {
    forall i :: 0 <= i < |mcus| ==> |mcus[i]| == n && forall j :: 0 <= j < |mcus[i]| ==> mcus[i][j].Length == DCTSIZE2
  }

  ghost function McuViews(n: nat, mcus: seq<seq<array<int>>>): (ms: seq<mcu>)
    requires McuArrays(n, mcus)
    reads set i, j | 0 <= i < |mcus| && 0 <= j < |mcus[i]| :: mcus[i][j]
    ensures |ms| == |mcus| && forall i :: 0 <= i < |ms| ==> ms[i] == Views(mcus[i])
  {
    if mcus == [] then [] else McuViews(n, mcus[..|mcus| - 1]) + [Views(mcus[|mcus| - 1])]
  }

  /** Encoding tables for every component; none if a specification is not legal. */
  method MakeEncoders(sc: Scan) returns (ts: seq<SequentialEncoder.Tables>)
    requires ValidScan(sc)
    ensures SequentialEncoder.AllTables(sc, ts)
  {
    hide Accepted, Encodable, Proper, Encodes, CodeOf;
    ts := [];
    for i := 0 to |sc.comps|
      invariant |ts| == i && forall j :: 0 <= j < i ==> SequentialEncoder.TablesOf(sc.comps[j], ts[j])
    {
      AcceptedTyped(sc.comps[i]);
      var dc := MakeCDerived(sc.comps[i].dc, true);
      var ac := MakeCDerived(sc.comps[i].ac, false);
      ts := ts + [SequentialEncoder.Tables(dc.value, ac.value)];
    }
  }

  lemma AcceptedTyped(c: Component)
    requires ValidTables(c)
    ensures Typed(c.dc) && Typed(c.ac)
    ensures forall p :: 0 <= p < |Symbols(c.dc)| ==> Symbols(c.dc)[p] <= 15
  {
  }

  method MakeDecoders(sc: Scan) returns (ts: seq<Tables>)
    requires ValidScan(sc)
    ensures AllDecode(sc, ts)
  {
    hide Accepted, Encodable, Proper, Decodes, CodeOf, Symbols;
    ts := [];
    for i := 0 to |sc.comps|
      invariant |ts| == i && forall j :: 0 <= j < i ==> DecodesWith(sc.comps[j], ts[j])
    {
      AcceptedTyped(sc.comps[i]);
      var dc := MakeDDerived(sc.comps[i].dc, true);
      var ac := MakeDDerived(sc.comps[i].ac, false);
      ts := ts + [Tables(dc.value, ac.value)];
    }
  }

  /** Encode MCU after MCU. */
  method EncodeMcus(e: SequentialEncoder.Encoder, mcus: seq<seq<array<int>>>)
    requires e.Valid() && McuArrays(|e.sc.membership|, mcus)
    requires forall x :: x in McuViews(|e.sc.membership|, mcus) ==> ValidMcu(e.sc, x)
    requires AllSendable(e.sc, McuViews(|e.sc.membership|, mcus), e.togo, e.lastDc)
    modifies e, e.w
    ensures e.Valid() && e.Stream([]) == old(e.Stream(McuViews(|e.sc.membership|, mcus)))
  {
    hide Segments, AllSendable, Views, ValidMcu, SequentialEncoder.AllTables, SequentialWriter.Writer.Valid,
      SequentialWriter.Writer.Written, SequentialEncoder.Encoder.Stream, ValidScan, McuViews, AllCarry, DoneBytes;
    ghost var ms := McuViews(|e.sc.membership|, mcus);
    var n := 0;
    assert ms[0..] == ms;
    while n < |mcus|
      invariant 0 <= n <= |mcus| && e.Valid() && McuViews(|e.sc.membership|, mcus) == ms
      invariant (forall x :: x in ms[n..] ==> ValidMcu(e.sc, x)) && e.Stream(ms[n..]) == old(e.Stream(McuViews(|e.sc.membership|, mcus)))
      invariant AllSendable(e.sc, ms[n..], e.togo, e.lastDc)
    {
      assert ms[n..] == [Views(mcus[n])] + ms[n + 1..];
      e.EncodeMcu(mcus[n], ms[n + 1..]);
      n := n + 1;
    }
    assert ms[n..] == [];
  }

  /** The bytes of a scan, with a marker behind it. */
  method EncodeScan(sc: Scan, mcus: seq<seq<array<int>>>, m: byte) returns (file: seq<byte>, ghost ps: seq<seq<byte>>)
    requires ValidScan(sc) && McuArrays(|sc.membership|, mcus) && 0 < m < 255
    requires forall x :: x in McuViews(|sc.membership|, mcus) ==> ValidMcu(sc, x)
    requires AllSendable(sc, McuViews(|sc.membership|, mcus), sc.restartInterval, NoLast(sc))
    ensures ps != [] && AllCarry(ps, Segments(sc, McuViews(|sc.membership|, mcus), sc.restartInterval, NoLast(sc)))
    ensures file == FileFrom(ps, 0, m, [])
  {
    hide ValidScan, Segments, AllSendable, Views, AllCarry, FileFrom, ValidMcu, Stuff, NoLast, DoneBytes, SequentialWriter.Writer.Valid,
      SequentialWriter.Writer.Written, SequentialEncoder.AllTables, McuViews;
    ghost var ms := McuViews(|sc.membership|, mcus);
    var ts := MakeEncoders(sc);
    var w := new SequentialWriter.Writer();
    NothingDone(sc, ms);
    var e := new SequentialEncoder.Encoder(sc, ts, w);
    EncodeMcus(e, mcus);
    ghost var done := e.payloads;
    ghost var p := e.FinishPass();
    ps := done + [p];
    FileSplit(done, 0, p, m, []);
    assert [255, m] + [] == [255, m];
    file := w.out + [255, m];
    Assoc(DoneBytes(done, 0), Stuff(p), [255, m]);
  }

  lemma NothingDone(sc: Scan, ms: seq<mcu>)
    requires ValidScan(sc) && forall x :: x in ms ==> ValidMcu(sc, x)
    ensures DoneBytes([], 0) == []
    ensures [] + Onto([], Segments(sc, ms, sc.restartInterval, NoLast(sc))) == Segments(sc, ms, sc.restartInterval, NoLast(sc))
  {
    hide ValidScan, Segments;
    var s := Segments(sc, ms, sc.restartInterval, NoLast(sc));
    assert [] + s[0] == s[0];
  }

  /** Fresh storage for an MCU, zeroed as the decoder expects it. */
  method NewBlocks(sc: Scan) returns (blocks: seq<array<int>>)
    ensures Storage(sc, blocks) && Zeroed(Views(blocks), 0) && fresh(blocks)
  {
    hide NaturalOrder;
    blocks := [];
    for i := 0 to |sc.membership|
      invariant |blocks| == i && fresh(blocks)
      invariant forall j :: 0 <= j < i ==> blocks[j].Length == DCTSIZE2 && forall k :: 0 <= k < DCTSIZE2 ==> blocks[j][k] == 0
      invariant forall j, k :: 0 <= j < k < i ==> blocks[j] != blocks[k]
    {
      var b := new int[DCTSIZE2](_ => 0);
      blocks := blocks + [b];
    }
  }

  /** Decode a decoder's MCUs one after the other. */
  method DecodeMcus(d: ScanDecoder, count: nat, chunks: seq<seq<byte>>, ghost ms: seq<mcu>, ghost ps0: seq<seq<byte>>, ghost m: byte)
    returns (out: seq<seq<array<int>>>)
    requires |ms| == count && Awaits(d, ms, ps0, m, []) && d.beyond == Joined(chunks)
    modifies d
    ensures McuArrays(|d.sc.membership|, out) && McuViews(|d.sc.membership|, out) == ms
  {
    hide ValidScan, Views, ValidMcu, Awaits, Zeroed, McuViews, Joined;
    out := [];
    var left := chunks;
    ghost var ps := ps0;
    var n := 0;
    assert ms[0..] == ms;
    NoViews(|d.sc.membership|);
    while n < count
      invariant 0 <= n <= count && |out| == n && Awaits(d, ms[n..], ps, m, []) && d.beyond == Joined(left)
      invariant McuArrays(|d.sc.membership|, out) && McuViews(|d.sc.membership|, out) == ms[..n]
      invariant forall i, j :: 0 <= i < |out| && 0 <= j < |out[i]| ==> fresh(out[i][j])
    {
      var blocks := NewBlocks(d.sc);
      left, ps := DecodeNext(d, blocks, left, ms[n..], ps, m, []);
      assert ms[n..][1..] == ms[n + 1..] && ms[..n + 1] == ms[..n] + [ms[n]];
      MoreViews(|d.sc.membership|, out, blocks);
      out := out + [blocks];
      n := n + 1;
    }
    assert ms[..n] == ms;
  }

  lemma NoViews(n: nat)
    ensures McuViews(n, []) == []
  {
  }

  lemma MoreViews(n: nat, out: seq<seq<array<int>>>, blocks: seq<array<int>>)
    requires McuArrays(n, out) && |blocks| == n && forall j :: 0 <= j < |blocks| ==> blocks[j].Length == DCTSIZE2
    ensures McuArrays(n, out + [blocks]) && McuViews(n, out + [blocks]) == McuViews(n, out) + [Views(blocks)]
  {
    hide Views;
    assert (out + [blocks])[..|out|] == out;
  }

  /** The bytes of some MCUs: stuffed and padded segments with restart markers between them, and
  a final marker. */
  ghost predicate FileOf(sc: Scan, ms: seq<mcu>, m: byte, file: seq<byte>) {
    && ValidScan(sc) && 0 < m < 255 && (forall x :: x in ms ==> ValidMcu(sc, x)) && AllSendable(sc, ms, sc.restartInterval, NoLast(sc))
    && exists ps: seq<seq<byte>> ::
        ps != [] && AllCarry(ps, Segments(sc, ms, sc.restartInterval, NoLast(sc))) && file == FileFrom(ps, 0, m, [])
  }

  /** Decode the MCUs of a file that comes in chunks of any sizes.  Nothing but the bytes, the
  tables and the number of MCUs says what was sent. */
  method DecodeFile(sc: Scan, file: seq<byte>, count: nat, sizes: seq<nat>, ghost ms: seq<mcu>, ghost m: byte)
    returns (out: seq<seq<array<int>>>)
    requires FileOf(sc, ms, m, file) && |ms| == count
    ensures McuArrays(|sc.membership|, out) && McuViews(|sc.membership|, out) == ms
  {
    hide ValidScan, Segments, AllSendable, Views, AllCarry, FileFrom, ValidMcu, NoLast, Awaits, AllDecode, McuViews;
    ghost var ps: seq<seq<byte>> :|
      ps != [] && AllCarry(ps, Segments(sc, ms, sc.restartInterval, NoLast(sc))) && file == FileFrom(ps, 0, m, []);
    var ts := MakeDecoders(sc);
    var d := new ScanDecoder(sc, ts, [], file);
    AwaitsStart(d, ms, ps, m);
    out := DecodeMcus(d, count, Cut(file, sizes), ms, ps, m);
  }

  /** Sequential Huffman round trip: decoding the stuffed, padded, restart-marked bytes of any
  MCUs returns every coefficient, however the bytes are cut into chunks. */
  method RoundTrip(sc: Scan, mcus: seq<seq<array<int>>>, m: byte, sizes: seq<nat>) returns (file: seq<byte>, out: seq<seq<array<int>>>)
    requires ValidScan(sc) && McuArrays(|sc.membership|, mcus) && 0 < m < 255
    requires forall x :: x in McuViews(|sc.membership|, mcus) ==> ValidMcu(sc, x)
    requires AllSendable(sc, McuViews(|sc.membership|, mcus), sc.restartInterval, NoLast(sc))
    ensures FileOf(sc, McuViews(|sc.membership|, mcus), m, file)
    ensures McuArrays(|sc.membership|, out) && McuViews(|sc.membership|, out) == McuViews(|sc.membership|, mcus)
  {
    hide ValidScan, Segments, AllSendable, Views, AllCarry, FileFrom, ValidMcu, NoLast, McuViews;
    ghost var ps;
    file, ps := EncodeScan(sc, mcus, m);
    out := DecodeFile(sc, file, |mcus|, sizes, McuViews(|sc.membership|, mcus), m);
  }

  /** Before anything has come in. */
  lemma AwaitsStart(d: ScanDecoder, ms: seq<mcu>, ps: seq<seq<byte>>, m: byte)
    requires d.Valid() && d.source == [] && d.next == 0 && d.bitsLeft == 0 && d.marker == 0 && !d.insufficient && 0 < m < 255
    requires ValidScan(d.sc) && d.lastDc == NoLast(d.sc) && d.togo == d.sc.restartInterval && d.num == 0
    requires (forall x :: x in ms ==> ValidMcu(d.sc, x)) && AllSendable(d.sc, ms, d.togo, d.lastDc)
    requires ps != [] && AllCarry(ps, Segments(d.sc, ms, d.togo, d.lastDc)) && d.beyond == FileFrom(ps, 0, m, [])
    ensures Awaits(d, ms, ps, m, [])
  {
    hide AllDecode, ByteBits, Payload, Ended, MarkerIn, FileFrom, Plain, Segments, AllSendable, ValidScan;
    FileStart(ps, 0, m, []);
    var segs := Segments(d.sc, ms, d.togo, d.lastDc);
    assert d.source[0..] + d.beyond == d.beyond;
    EmptyRegister(d.getBuffer);
    assert Carries(ps[0], segs[0]);
    var pad: nat :| Padded(ps[0], segs[0], pad);
    Assoc(segs[0], Ones(pad), Zeros(d.Supply()));
    CarryTail(ps, segs, segs);
  }
}
