/** A whole AC refinement scan: statistics, bytes, and the way back. */
module RefineScan {

  import opened Wrappers
  import opened CodeString
  import opened PrefixCode
  import CanonicalCode
  import opened DerivedTables
  import opened DecodingTables
  import opened BitStream
  import opened Chunks
  import opened CodedItems
  import opened EncodingTables
  import opened PhuffWriter
  import opened ZigZag
  import opened RefineSpec
  import opened RefineEncoding
  import opened RefineRoundTrip
  import opened RefineEncoder
  import opened RefineDecoder
  import opened RefineResume
  import opened SymbolMerging
  import opened OptimalTable
  import opened CountedSymbols
  import RefineSymbols
  import HuffmanLengths
  import MergedTrees
  import opened CodeLengths

  /** The blocks of a scan are separate arrays that belong to nobody else. */
  ghost predicate Separate(blocks: seq<array<int>>, w: Writer) {
    forall i :: 0 <= i < |blocks| ==> blocks[i].Length == DCTSIZE2 && blocks[i] as object != w.counts as object
  }

  /** Encode the blocks of a scan and end it as finish_pass does: everything is sent exactly
  when no symbol needed lacks a code. */
  method EncodeBlocks(w: Writer, blocks: seq<array<int>>, ss: nat, al: nat, se: nat) returns (ok: bool)
    requires w.Valid() && w.sent == [] && 1 <= ss <= se < DCTSIZE2 && Separate(blocks, w)
    modifies w, w.counts
    ensures ok ==> w.Valid() && w.done == old(w.done)
    ensures ok == w.CanSend(Scan(Views(blocks), 0, [], al, ss, se))
    ensures ok ==> w.sent == Scan(Views(blocks), 0, [], al, ss, se)
  {
    hide Writer.Valid, Writer.CanSend, Scan, ViewOf, EobItems;
    ghost var vs := Views(blocks);
    var e := new Encoder(w, ss, al, se);
    var n := 0;
    assert vs[0..] == vs && e.Corrections() == [];
    w.CouldSend();
    assert [] + Scan(vs, 0, [], al, ss, se) == Scan(vs, 0, [], al, ss, se);
    while n < |blocks|
      invariant 0 <= n <= |blocks| && e.Valid() && Views(blocks) == vs && fresh(e) && fresh(e.bitBuffer)
      invariant e.w == w && e.ss == ss && e.al == al && e.se == se && w.done == old(w.done)
      invariant w.sent + Scan(vs[n..], e.eobrun, e.Corrections(), al, ss, se) == Scan(vs, 0, [], al, ss, se)
      invariant w.CanSend(w.sent)
    {
      ghost var sent, rest := w.sent, Scan(vs[n..], e.eobrun, e.Corrections(), al, ss, se);
      assert vs[n..] == [ViewOf(blocks[n][..])] + vs[n + 1..];
      w.CanSendParts(sent, rest);
      ok := e.EncodeMcu(blocks[n], vs[n + 1..]);
      if !ok {
        return;
      }
      w.CouldSend();
      n := n + 1;
    }
    assert vs[n..] == [];
    w.CanSendParts(w.sent, EobItems(e.eobrun, e.Corrections()));
    LastRun(e.eobrun, e.Corrections(), al, ss, se);
    ok := e.EmitEobrun();
    if ok {
      w.CouldSend();
    }
  }

  /** finish_pass sends the run that is still pending. */
  lemma LastRun(eobrun: nat, be: seq<bit>, al: nat, ss: nat, se: nat)
    requires ss <= se < DCTSIZE2 && eobrun < MAX_RUN
    ensures Scan([], eobrun, be, al, ss, se) == EobItems(eobrun, be)
  {
  }

  /** The statistics pass counts each symbol exactly as often as the output pass sends it. */
  method GatherScan(blocks: seq<array<int>>, ss: nat, al: nat, se: nat) returns (counts: array<nat>)
    requires 1 <= ss <= se < DCTSIZE2 && forall i :: 0 <= i < |blocks| ==> blocks[i].Length == DCTSIZE2
    ensures fresh(counts) && counts.Length == 257 && forall s: byte :: counts[s] == Count(Scan(Views(blocks), 0, [], al, ss, se), s)
  {
    hide Scan, ViewOf;
    var w := new Writer(true, CTable([], []), HuffTbl([], []));
    ghost var vs := Views(blocks);
    var ok := EncodeBlocks(w, blocks, ss, al, se);
    assert Views(blocks) == vs;
    counts := w.counts;
  }

  /** The bytes of some items: their code words in stuffed bytes filled up with ones, and a
  marker. */
  ghost predicate FileOf(h: HuffTbl, items: seq<Item>, m: byte, file: seq<byte>) {
    && Typed(h) && Accepted(h) && Encodable(h, false) && Proper(CodeOf(h)) && Coded(CodeOf(h), items) && 0 < m < 255
    && exists payload: seq<byte>, pad: nat ::
        pad < 8 && ByteBits(payload) == Spell(CodeOf(h), items) + Ones(pad) && file == Stuff(payload) + [255, m]
  }

  /** The bytes of a scan: encoded, flushed, and followed by a marker. */
  method EncodeScan(h: HuffTbl, blocks: seq<array<int>>, ss: nat, al: nat, se: nat, m: byte) returns (file: Option<seq<byte>>)
    requires Typed(h) && 1 <= ss <= se < DCTSIZE2 && 0 < m < 255
    requires forall i :: 0 <= i < |blocks| ==> blocks[i].Length == DCTSIZE2
    ensures file.Some? <==> Accepted(h) && Encodable(h, false) && Coded(CodeOf(h), Scan(Views(blocks), 0, [], al, ss, se))
    ensures file.Some? ==> FileOf(h, Scan(Views(blocks), 0, [], al, ss, se), m, file.value)
  {
    hide Scan, ViewOf, Encodes, Spell, Stuff, ByteBits, Accepted, Encodable;
    var tbl := MakeCDerived(h, false);
    if tbl.None? {
      return None;
    }
    TablesTabulate(h, tbl.value);
    var w := new Writer(false, tbl.value, h);
    ghost var vs := Views(blocks);
    var ok := EncodeBlocks(w, blocks, ss, al, se);
    assert Views(blocks) == vs;
    if !ok {
      return None;
    }
    ghost var payload, pad := w.FlushBits();
    w.EmitMarker(m);
    assert [] + Stuff(payload) == Stuff(payload);
    file := Some(w.out);
  }

  lemma TablesTabulate(h: HuffTbl, t: CTable)
    requires Typed(h) && Accepted(h) && Encodable(h, false)
    requires var sizes := Lengths(h, 16);
      Encodes(sizes, CanonicalCode.Codes(sizes), DerivedTables.Symbols(h), |sizes|, t)
    ensures Tabulates(h, t, false) && Proper(CodeOf(h))
  {
    ProperTable(h, false);
  }

  /** Decode the bytes of a scan, cut into chunks of any sizes, on top of coefficients known down
  to bit al + 1: makes them known down to bit al.  Nothing but the bytes and the table says what
  was sent. */
  method DecodeFile(h: HuffTbl, file: seq<byte>, coarse: seq<array<int>>, ss: nat, al: nat, se: nat, sizes: seq<nat>,
      ghost vs: seq<seq<int>>, ghost m: byte)
    requires 1 <= ss <= se < DCTSIZE2 && al < 16 && |vs| == |coarse| && Bands(vs)
    requires FileOf(h, Scan(vs, 0, [], al, ss, se), m, file)
    requires forall i :: 0 <= i < |coarse| ==> coarse[i].Length == DCTSIZE2
    requires forall i, j :: 0 <= i < j < |coarse| ==> coarse[i] != coarse[j]
    requires AllGiven(vs, Views(coarse), al, ss, se)
    modifies coarse
    ensures Views(coarse) == Goals(vs, old(Views(coarse)), al, ss, se)
  {
    hide Scan, ViewOf, Encodes, Spell, Stuff, ByteBits, Accepted, Encodable, Given, Payload, Ended, CodeOf, Decodes,
      Settled, ScanDecoder.Stream, ScanDecoder.Over;
    ghost var cs := Views(coarse);
    ghost var payload: seq<byte>, pad: nat :|
      pad < 8 && ByteBits(payload) == Spell(CodeOf(h), Scan(vs, 0, [], al, ss, se)) + Ones(pad) && file == Stuff(payload) + [255, m];
    var tbl := MakeDDerived(h, false);
    var chunks := Cut(file, sizes);
    var d := new ScanDecoder(tbl.value, ss, al, se, [], h, file);
    ghost var s := Ones(pad) + Zeros(SUPPLY);
    StreamOfFile(payload, pad, m, Spell(CodeOf(h), Scan(vs, 0, [], al, ss, se)), file);
    SettledStart(vs, al, ss, se);
    ScanReads(CodeOf(h), vs, cs, 0, [], al, ss, se, s);
    DecodeScan(d, coarse, chunks);
  }

  /** Refinement-scan round trip: for any blocks, any legal table with the symbols they need,
  and any cutting of the bytes into chunks, decoding the scan on top of coefficients that are
  known down to bit al + 1 makes them known down to bit al. */
  method RoundTrip(h: HuffTbl, blocks: seq<array<int>>, coarse: seq<array<int>>, ss: nat, al: nat, se: nat, m: byte, sizes: seq<nat>)
    returns (ok: bool)
    requires Typed(h) && 1 <= ss <= se < DCTSIZE2 && al < 16 && 0 < m < 255 && |blocks| == |coarse|
    requires forall i :: 0 <= i < |blocks| ==> blocks[i].Length == coarse[i].Length == DCTSIZE2
    requires forall i, j :: 0 <= i < j < |coarse| ==> coarse[i] != coarse[j]
    requires forall i, j :: 0 <= i < |blocks| && 0 <= j < |coarse| ==> blocks[i] != coarse[j]
    requires AllGiven(Views(blocks), Views(coarse), al, ss, se)
    modifies coarse
    ensures ok <==> Accepted(h) && Encodable(h, false) && Coded(CodeOf(h), Scan(Views(blocks), 0, [], al, ss, se))
    ensures ok ==> Views(coarse) == Goals(Views(blocks), old(Views(coarse)), al, ss, se)
  {
    hide Scan, ViewOf, Accepted, Encodable, AllGiven, FileOf;
    ghost var vs, cs := Views(blocks), Views(coarse);
    var file := EncodeScan(h, blocks, ss, al, se, m);
    ok := file.Some?;
    if ok {
      DecodeFile(h, file.value, coarse, ss, al, se, sizes, vs, m);
    }
    assert Views(blocks) == vs;
  }

  lemma StreamOfFile(payload: seq<byte>, pad: nat, m: byte, bits: seq<bit>, file: seq<byte>)
    requires ByteBits(payload) == bits + Ones(pad) && 0 < m < 255 && file == Stuff(payload) + [255, m]
    ensures Ended([] + file) && Payload([] + file) + Zeros(SUPPLY) == bits + (Ones(pad) + Zeros(SUPPLY))
  {
    hide Payload, Ended, Stuff, ByteBits;
    assert [] + file == file == Stuff(payload) + ([255, m] + []);
    PayloadOfStuffed(payload, m, []);
    Assoc(bits, Ones(pad), Zeros(SUPPLY));
  }

  lemma SettledStart(vs: seq<seq<int>>, al: nat, ss: nat, se: nat)
    requires ss <= se < DCTSIZE2 && Bands(vs)
    ensures Settled(vs, 0, [], al, ss, se) == RunView(0, Scan(vs, 0, [], al, ss, se))
  {
    hide Scan;
  }

  /** Two passes, as the optimising compressor runs them: a refinement scan always gets its table,
  for it has no more than thirty-two symbols, and no symbol of the output pass lacks a code. */
  method EncodeOptimal(blocks: seq<array<int>>, ss: nat, al: nat, se: nat, m: byte)
    returns (h: Option<HuffTbl>, file: Option<seq<byte>>)
    requires 1 <= ss <= se < DCTSIZE2 && 0 < m < 255 && 0 < 64 * |blocks| < MAX_COUNT
    requires forall i :: 0 <= i < |blocks| ==> blocks[i].Length == DCTSIZE2
    ensures h.Some? && file.Some? && FileOf(h.value, Scan(Views(blocks), 0, [], al, ss, se), m, file.value)
    ensures Words(CodeOf(h.value), FreqOf(Scan(Views(blocks), 0, [], al, ss, se)),
      MergedTrees.HuffmanSizes(FreqOf(Scan(Views(blocks), 0, [], al, ss, se))))
  {
    hide Scan, ViewOf, Accepted, Encodable, FewSymbols, Sized, Total, Optimal, FileOf, InOrder, AsFound, TooDeep,
      HuffmanLengths.WellSized, Full, CodeOf,
      MergedTrees.HuffmanSizes;
    ghost var items := Scan(Views(blocks), 0, [], al, ss, se);
    ScanCounts(Views(blocks), al, ss, se);
    var counts := GatherScan(blocks, ss, al, se);
    ghost var freq := counts[..];
    EnoughSymbols(items, freq);
    assert freq[256 := 1] == FreqOf(items);
    h := GenOptimalTable(counts);
    AllHaveCodes(items, freq, CodeOf(h.value));
    file := EncodeScan(h.value, blocks, ss, al, se, m);
  }

  lemma ScanCounts(vs: seq<seq<int>>, al: nat, ss: nat, se: nat)
    requires 1 <= ss <= se < DCTSIZE2 && Bands(vs) && 0 < 64 * |vs| < MAX_COUNT
    ensures FewSymbols(Scan(vs, 0, [], al, ss, se)) && Codable(Scan(vs, 0, [], al, ss, se))
  {
    hide Scan, FewSymbols, Codable;
    RefineSymbols.ScanFew(vs, 0, [], al, ss, se);
    SmallSizesCodable(Scan(vs, 0, [], al, ss, se));
    FewSizes(Scan(vs, 0, [], al, ss, se));
  }

  /** Refinement with generated tables: for any blocks and any cutting into chunks, what the
  optimising compressor writes makes coarse coefficients known one bit further. */
  method OptimalRoundTrip(blocks: seq<array<int>>, coarse: seq<array<int>>, ss: nat, al: nat, se: nat, m: byte, sizes: seq<nat>)
    requires 1 <= ss <= se < DCTSIZE2 && al < 16 && 0 < m < 255 && |blocks| == |coarse| && 0 < 64 * |blocks| < MAX_COUNT
    requires forall i :: 0 <= i < |blocks| ==> blocks[i].Length == coarse[i].Length == DCTSIZE2
    requires forall i, j :: 0 <= i < j < |coarse| ==> coarse[i] != coarse[j]
    requires forall i, j :: 0 <= i < |blocks| && 0 <= j < |coarse| ==> blocks[i] != coarse[j]
    requires AllGiven(Views(blocks), Views(coarse), al, ss, se)
    modifies coarse
    ensures Views(coarse) == Goals(Views(blocks), old(Views(coarse)), al, ss, se)
  {
    hide Scan, ViewOf, AllGiven, FileOf, Words, CodeOf, MergedTrees.HuffmanSizes;
    ghost var vs := Views(blocks);
    var h, file := EncodeOptimal(blocks, ss, al, se, m);
    assert Views(coarse) == old(Views(coarse));
    DecodeFile(h.value, file.value, coarse, ss, al, se, sizes, vs, m);
  }
}
