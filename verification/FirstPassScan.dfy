/** A whole first AC scan of a progressive image: bytes, and the way back. */
module FirstPassScan {

  import opened Wrappers
  import opened CodeString
  import opened PrefixCode
  import opened DerivedTables
  import opened DecodingTables
  import opened BitStream
  import opened Chunks
  import opened CodedItems
  import opened PhuffWriter
  import opened ZigZag
  import opened RefineEncoding
  import opened RefineRoundTrip
  import opened RefineEncoder
  import opened RefineResume
  import opened FirstPass
  import opened FirstPassEncoder
  import opened FirstPassDecoder
  import opened RefineScan
  import opened OptimalTable
  import opened CountedSymbols
  import SymbolMerging
  import opened CodeLengths
  import RefineSymbols
  import HuffmanLengths
  import MergedTrees
  import SequentialSpec

  ghost predicate AllInRange(vs: seq<seq<int>>, al: nat, ss: nat, se: nat)
    requires Bands(vs) && se < DCTSIZE2
  {
    forall i :: 0 <= i < |vs| ==> InRange(vs[i], al, ss, se)
  }

  /** The table is legal and has a code for every symbol, and every value is in range. */
  ghost predicate CanEncode(h: HuffTbl, vs: seq<seq<int>>, al: nat, ss: nat, se: nat)
    requires Typed(h) && AllBlocks(vs) && Bands(vs) && ss <= se < DCTSIZE2
  {
    && Accepted(h) && Encodable(h, false) && Coded(CodeOf(h), FirstScan(vs, 0, al, ss, se))
    && AllInRange(vs, al, ss, se)
  }

  /** Encode the blocks of a scan and end it as finish_pass does. */
  method EncodeBlocks(w: Writer, blocks: seq<array<int>>, ss: nat, al: nat, se: nat) returns (ok: bool)
    requires w.Valid() && w.sent == [] && 1 <= ss <= se < DCTSIZE2 && RefineScan.Separate(blocks, w) && AllBlocks(Views(blocks))
    modifies w, w.counts
    ensures ok ==> w.Valid() && w.done == old(w.done)
    ensures ok == (w.CanSend(FirstScan(Views(blocks), 0, al, ss, se)) && AllInRange(Views(blocks), al, ss, se))
    ensures ok ==> w.sent == FirstScan(Views(blocks), 0, al, ss, se)
  {
    hide Writer.Valid, Writer.CanSend, FirstScan, ViewOf, EobItems, InRange, SequentialSpec.IsBlock;
    ghost var vs := Views(blocks);
    BlocksAreBands(vs);
    var e := new Encoder(w, ss, al, se);
    var n := 0;
    ghost var total := FirstScan(vs, 0, al, ss, se);
    w.CouldSend();
    assert vs[0..] == vs && [] + total == total;
    while n < |blocks|
      invariant 0 <= n <= |blocks| && e.Valid() && e.be == 0 && Views(blocks) == vs && fresh(e) && fresh(e.bitBuffer)
      invariant e.w == w && e.ss == ss && e.al == al && e.se == se && w.done == old(w.done)
      invariant AllBlocks(vs[n..]) && w.sent + FirstScan(vs[n..], e.eobrun, al, ss, se) == total && w.CanSend(w.sent)
      invariant forall i :: 0 <= i < n ==> InRange(vs[i], al, ss, se)
    {
      ghost var sent, left := w.sent, FirstScan(vs[n..], e.eobrun, al, ss, se);
      assert vs[n..] == [ViewOf(blocks[n][..])] + vs[n + 1..];
      w.CanSendParts(sent, left);
      ok := EncodeMcuFirst(e, blocks[n], vs[n + 1..]);
      if !ok {
        return;
      }
      w.CouldSend();
      n := n + 1;
    }
    assert vs[n..] == [] && e.Corrections() == [];
    w.CanSendParts(w.sent, EobItems(e.eobrun, []));
    LastRun(e.eobrun, al, ss, se);
    ok := e.EmitEobrun();
    if ok {
      w.CouldSend();
    }
  }

  lemma BlocksAreBands(vs: seq<seq<int>>)
    requires AllBlocks(vs)
    ensures Bands(vs)
  {
  }

  lemma LastRun(eobrun: nat, al: nat, ss: nat, se: nat)
    requires ss <= se < DCTSIZE2 && eobrun < MAX_RUN
    ensures FirstScan([], eobrun, al, ss, se) == EobItems(eobrun, [])
  {
  }

  /** The bytes of a scan: encoded, flushed, and followed by a marker. */
  method EncodeScan(h: HuffTbl, blocks: seq<array<int>>, ss: nat, al: nat, se: nat, m: byte) returns (file: Option<seq<byte>>)
    requires Typed(h) && 1 <= ss <= se < DCTSIZE2 && 0 < m < 255
    requires (forall i :: 0 <= i < |blocks| ==> blocks[i].Length == DCTSIZE2) && AllBlocks(Views(blocks))
    ensures Bands(Views(blocks))
    ensures file.Some? <==> CanEncode(h, Views(blocks), al, ss, se)
    ensures file.Some? ==> FileOf(h, FirstScan(Views(blocks), 0, al, ss, se), m, file.value)
  {
    hide FirstScan, ViewOf, Encodes, Spell, Stuff, ByteBits, Accepted, Encodable, AllInRange, SequentialSpec.IsBlock;
    BlocksAreBands(Views(blocks));
    var tbl := MakeCDerived(h, false);
    if tbl.None? {
      return None;
    }
    TablesTabulate(h, tbl.value);
    var w := new Writer(false, tbl.value, h);
    ghost var vs := Views(blocks);
    var ok := EncodeBlocks(w, blocks, ss, al, se);
    assert Views(blocks) == vs;
    if !ok {
      return None;
    }
    ghost var payload, pad := w.FlushBits();
    w.EmitMarker(m);
    assert [] + Stuff(payload) == Stuff(payload);
    file := Some(w.out);
  }

  /** Decode the bytes of a scan, cut into chunks of any sizes, into bands of zeros: makes the
  coefficients known down to bit al.  Nothing but the bytes and the table says what was sent. */
  method DecodeFile(h: HuffTbl, file: seq<byte>, coarse: seq<array<int>>, ss: nat, al: nat, se: nat, sizes: seq<nat>,
      ghost vs: seq<seq<int>>, ghost m: byte)
    requires 1 <= ss <= se < DCTSIZE2 && al < 16 && |vs| == |coarse| && AllBlocks(vs) && Bands(vs) && AllInRange(vs, al, ss, se)
    requires FileOf(h, FirstScan(vs, 0, al, ss, se), m, file)
    requires forall i :: 0 <= i < |coarse| ==> coarse[i].Length == DCTSIZE2 && Unknown(ViewOf(coarse[i][..]), ss, se)
    requires forall i, j :: 0 <= i < j < |coarse| ==> coarse[i] != coarse[j]
    modifies coarse
    ensures Views(coarse) == Goals(vs, old(Views(coarse)), al, ss, se)
  {
    hide FirstScan, ViewOf, Encodes, Spell, Stuff, ByteBits, Accepted, Encodable, Payload, Ended, CodeOf, Decodes, AllInRange,
      SequentialSpec.IsBlock, ScanDecoder.Stream, ScanDecoder.Over, Unknown;
    ghost var cs := Views(coarse);
    ghost var payload: seq<byte>, pad: nat :|
      pad < 8 && ByteBits(payload) == Spell(CodeOf(h), FirstScan(vs, 0, al, ss, se)) + Ones(pad) && file == Stuff(payload) + [255, m];
    var tbl := MakeDDerived(h, false);
    var chunks := Cut(file, sizes);
    var d := new ScanDecoder(tbl.value, ss, al, se, [], h, file);
    ghost var s := Ones(pad) + Zeros(SUPPLY);
    StreamOfFile(payload, pad, m, Spell(CodeOf(h), FirstScan(vs, 0, al, ss, se)), file);
    AllUnknown(vs, cs, al, ss, se);
    FirstReads(CodeOf(h), vs, cs, [], ss, al, ss, se, s);
    assert [] + Goals(vs, cs, al, ss, se) == Goals(vs, cs, al, ss, se);
    DecodeScanFirst(d, coarse, chunks);
  }

  /** First-pass round trip: for any blocks with values in range, any legal table with the symbols
  they need, and any cutting of the bytes into chunks, decoding the scan into bands of zeros
  makes them known down to bit al. */
  method RoundTrip(h: HuffTbl, blocks: seq<array<int>>, coarse: seq<array<int>>, ss: nat, al: nat, se: nat, m: byte, sizes: seq<nat>)
    returns (ok: bool)
    requires Typed(h) && 1 <= ss <= se < DCTSIZE2 && al < 16 && 0 < m < 255 && |blocks| == |coarse|
    requires forall i :: 0 <= i < |blocks| ==> blocks[i].Length == coarse[i].Length == DCTSIZE2
    requires forall i, j :: 0 <= i < j < |coarse| ==> coarse[i] != coarse[j]
    requires forall i, j :: 0 <= i < |blocks| && 0 <= j < |coarse| ==> blocks[i] != coarse[j]
    requires AllBlocks(Views(blocks)) && forall i :: 0 <= i < |coarse| ==> Unknown(ViewOf(coarse[i][..]), ss, se)
    modifies coarse
    ensures Bands(Views(blocks))
    ensures ok <==> CanEncode(h, Views(blocks), al, ss, se)
    ensures ok ==> Views(coarse) == Goals(Views(blocks), old(Views(coarse)), al, ss, se)
  {
    hide FirstScan, ViewOf, Accepted, Encodable, CodeOf, AllInRange, SequentialSpec.IsBlock, Unknown, FileOf;
    ghost var vs, cs := Views(blocks), Views(coarse);
    BlocksAreBands(vs);
    var file := EncodeScan(h, blocks, ss, al, se, m);
    ok := file.Some?;
    if ok {
      DecodeFile(h, file.value, coarse, ss, al, se, sizes, vs, m);
    }
    assert Views(blocks) == vs;
  }

  /** The statistics pass: fails exactly on values out of range, and counts what is sent. */
  method GatherScan(blocks: seq<array<int>>, ss: nat, al: nat, se: nat) returns (ok: bool, counts: array<nat>)
    requires 1 <= ss <= se < DCTSIZE2
    requires (forall i :: 0 <= i < |blocks| ==> blocks[i].Length == DCTSIZE2) && AllBlocks(Views(blocks))
    ensures Bands(Views(blocks)) && fresh(counts) && counts.Length == 257
    ensures ok <==> AllInRange(Views(blocks), al, ss, se)
    ensures ok ==> forall s: byte :: counts[s] == Count(FirstScan(Views(blocks), 0, al, ss, se), s)
  {
    hide FirstScan, ViewOf, AllInRange, SequentialSpec.IsBlock;
    BlocksAreBands(Views(blocks));
    var w := new Writer(true, CTable([], []), HuffTbl([], []));
    ghost var vs := Views(blocks);
    ok := EncodeBlocks(w, blocks, ss, al, se);
    assert Views(blocks) == vs;
    counts := w.counts;
  }

  /** Two passes with a generated table: they fail exactly if a value is out of range or a code
  would need more than thirty-two bits; otherwise the coefficients arrive, however the bytes are
  cut into chunks. */
  method OptimalRoundTrip(blocks: seq<array<int>>, coarse: seq<array<int>>, ss: nat, al: nat, se: nat, m: byte, sizes: seq<nat>)
    returns (ok: bool)
    requires 1 <= ss <= se < DCTSIZE2 && al < 16 && 0 < m < 255 && |blocks| == |coarse| && 0 < 64 * |blocks| < SymbolMerging.MAX_COUNT
    requires forall i :: 0 <= i < |blocks| ==> blocks[i].Length == coarse[i].Length == DCTSIZE2
    requires forall i, j :: 0 <= i < j < |coarse| ==> coarse[i] != coarse[j]
    requires forall i, j :: 0 <= i < |blocks| && 0 <= j < |coarse| ==> blocks[i] != coarse[j]
    requires AllBlocks(Views(blocks)) && forall i :: 0 <= i < |coarse| ==> Unknown(ViewOf(coarse[i][..]), ss, se)
    modifies coarse
    ensures Bands(Views(blocks))
    ensures ok <==> AllInRange(Views(blocks), al, ss, se) && Codable(FirstScan(Views(blocks), 0, al, ss, se))
    ensures Views(coarse) == if ok then Goals(Views(blocks), old(Views(coarse)), al, ss, se) else old(Views(coarse))
  {
    hide FirstScan, ViewOf, Accepted, Encodable, CodeOf, AllInRange, SequentialSpec.IsBlock, Unknown, FileOf, FewSymbols, Sized, Total,
      SymbolMerging.Optimal, Words, TooDeep, HuffmanLengths.WellSized, Full, MergedTrees.HuffmanSizes;
    ghost var vs, cs := Views(blocks), Views(coarse);
    BlocksAreBands(vs);
    ghost var items := FirstScan(vs, 0, al, ss, se);
    var counts;
    ok, counts := GatherScan(blocks, ss, al, se);
    if ok {
      FirstCounts(vs, al, ss, se);
      ghost var freq := counts[..];
      EnoughSymbols(items, freq);
      assert freq[256 := 1] == FreqOf(items);
      var h := GenOptimalTable(counts);
      ok := h.Some?;
      if ok {
        CoversAll(items, freq, CodeOf(h.value), MergedTrees.HuffmanSizes(FreqOf(items)));
        var file := EncodeScan(h.value, blocks, ss, al, se, m);
        assert Views(coarse) == cs && Views(blocks) == vs;
        DecodeFile(h.value, file.value, coarse, ss, al, se, sizes, vs, m);
      }
    }
    assert Views(blocks) == vs;
  }

  lemma CoversAll(items: seq<Item>, freq: seq<nat>, c: Code, cs: seq<nat>)
    requires |freq| == |cs| == SymbolMerging.SYMBOLS && (forall s: byte :: freq[s] == Count(items, s))
    requires Proper(c) && Words(c, freq[256 := 1], cs)
    ensures Coded(c, items)
  {
    AllHaveCodes(items, freq, c);
  }

  lemma FirstCounts(vs: seq<seq<int>>, al: nat, ss: nat, se: nat)
    requires 1 <= ss <= se < DCTSIZE2 && AllBlocks(vs) && Bands(vs) && AllInRange(vs, al, ss, se) && 0 < 64 * |vs| < SymbolMerging.MAX_COUNT
    ensures FewSymbols(FirstScan(vs, 0, al, ss, se))
  {
    hide FirstScan, FewSymbols, InRange, SequentialSpec.IsBlock;
    RefineSymbols.FirstScanFew(vs, 0, al, ss, se);
    FewSizes(FirstScan(vs, 0, al, ss, se));
  }

  /** Nothing of a band is known. */
  ghost predicate Unknown(c: seq<int>, ss: nat, se: nat)
    requires |c| == DCTSIZE2 && se < DCTSIZE2
  {
    forall j :: ss <= j <= se ==> c[j] == 0
  }

  lemma AllUnknown(vs: seq<seq<int>>, cs: seq<seq<int>>, al: nat, ss: nat, se: nat)
    requires |vs| == |cs| && AllBlocks(vs) && Bands(vs) && Bands(cs) && ss <= se < DCTSIZE2 && AllInRange(vs, al, ss, se)
    requires forall i :: 0 <= i < |cs| ==> Unknown(cs[i], ss, se)
    ensures AllFresh(vs, cs, al, ss, se)
  {
    hide InRange, SequentialSpec.IsBlock;
  }
}
