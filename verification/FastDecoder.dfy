/** decode_mcu_fast of jdhuff.c: the same MCU, read without looking out for markers or the
end of the buffer, in its 32-bit form. */
module FastDecoder {

  import opened Wrappers
  import opened CodeString
  import opened PrefixCode
  import opened DerivedTables
  import opened DecodingTables
  import opened BitStream
  import opened BitReader
  import opened CodedItems
  import opened ZigZag
  import opened Coefficients
  import opened SequentialSpec
  import opened SequentialScan
  import opened SequentialDecoder

  class FastReader {
    const source: seq<byte>
    ghost const beyond: seq<byte>
    /** The buffer position, the bit register, and the marker code met, if any. */
    var p: nat
    var getBuffer: nat
    var bitsLeft: nat
    var marker: nat
    ghost var supply: nat

    constructor (source: seq<byte>, p: nat, getBuffer: nat, bitsLeft: nat, ghost beyond: seq<byte>, ghost supply: nat)
      requires p <= |source| && bitsLeft <= BIT_BUF_SIZE
      ensures this.source == source && this.p == p && this.getBuffer == getBuffer && this.bitsLeft == bitsLeft
      ensures this.marker == 0 && this.beyond == beyond && this.supply == supply
    {
      this.source, this.p, this.getBuffer, this.bitsLeft := source, p, getBuffer, bitsLeft;
      this.marker, this.beyond, this.supply := 0, beyond, supply;
    }

    /** What is left of the data: nothing once a marker was met. */
    ghost function Left(): seq<byte>
      requires p <= |source|
      reads `p
    {
      source[p..] + beyond
    }

    ghost predicate Valid()
      reads this
    {
      && p <= |source| && bitsLeft <= BIT_BUF_SIZE && Ended(Left()) && Plain(Left())
      && (marker != 0 ==> Payload(Left()) == [])
    }

    /** Bits that are not in the register yet, with zeros behind the data. */
    ghost function Coming(): seq<bit>
      requires p <= |source|
      reads `p, `supply
    {
      Payload(Left()) + Zeros(supply)
    }

    ghost function Known(): seq<bit>
      requires p <= |source|
      reads this
    {
      BitsOf(getBuffer, bitsLeft) + Coming()
    }

    /** Room for n more refills: bytes in the buffer and zeros behind the data. */
    ghost predicate Room(n: nat)
      reads this
    {
      p + 4 * n <= |source| && 16 * n <= supply
    }

    /** After n refills: the marker ahead is the same, and no zeros were made up unless it was met. */
    twostate predicate Advanced(n: nat)
      requires old(Valid()) && Valid()
      reads this
    {
      && p <= old(p) + 4 * n && supply + 16 * n >= old(supply) && MarkerIn(Left()) == old(MarkerIn(Left()))
      && (marker == 0 ==> supply == old(supply)) && (old(marker) != 0 ==> marker != 0)
      && |Known()| <= |old(Known())|
    }

    /** GET_BYTE. */
    method GetByte()
      requires Valid() && bitsLeft <= 24 && p + 2 <= |source| && supply >= 8
      modifies this
      ensures Valid() && Known() == old(Known()) && bitsLeft == old(bitsLeft) + 8
      ensures p <= old(p) + 2 && supply + 8 >= old(supply) && MarkerIn(Left()) == old(MarkerIn(Left()))
      ensures (marker == 0 ==> supply == old(supply)) && (old(marker) != 0 ==> marker != 0)
    {
      hide BitsOf, Payload, Ended, Plain, MarkerIn, Low, Shl, Zeros;
      var c0, c1 := source[p], source[p + 1];
      PlainByte(source, p, beyond);
      LeftUnfolds(Left());
      ghost var zeros := Zeros(supply);
      if c0 == 0xFF && c1 != 0 {
        // a marker: back out and fill up with zero bits
        marker := c1;
        ByteOfZeros(getBuffer, bitsLeft, supply);
        getBuffer := Low(Shl(getBuffer, 8), BIT_BUF_SIZE);
        supply := supply - 8;
      } else {
        RegisterByte(getBuffer, bitsLeft, c0, Payload(Next(Left()).rest), zeros);
        getBuffer := Low(Shl(getBuffer, 8) + c0, BIT_BUF_SIZE);
        p := p + if c0 == 0xFF then 2 else 1;
      }
      bitsLeft := bitsLeft + 8;
    }

    /** FILL_BIT_BUFFER_FAST: two bytes when the register is at most half full. */
    method Fill()
      requires Valid() && Room(1)
      modifies this
      ensures Valid() && Known() == old(Known()) && bitsLeft >= 16 && Advanced(1)
    {
      hide Known, Coming, Left, Plain, Ended, MarkerIn, Payload, BitsOf, Zeros;
      if bitsLeft <= 16 {
        GetByte();
        GetByte();
      }
    }

    /** DROP_BITS. */
    method DropBits(n: nat)
      requires Valid() && n <= bitsLeft
      modifies `bitsLeft
      ensures Valid() && Known() == old(Known())[n..] && bitsLeft == old(bitsLeft) - n
    {
      hide BitsOf, Low, Shr, Number, Payload, Ended, Plain, Zeros;
      PeekLemma(getBuffer, bitsLeft, n, Coming());
      bitsLeft := bitsLeft - n;
    }

    /** PEEK_BITS. */
    method PeekBits(n: nat) returns (v: nat)
      requires Valid() && n <= bitsLeft
      ensures n <= |Known()| && v == Number(Known()[..n])
    {
      hide BitsOf, Low, Shr, Number;
      PeekLemma(getBuffer, bitsLeft, n, Coming());
      v := Low(Shr(getBuffer, bitsLeft - n), n);
    }

    /** FILL_BIT_BUFFER_FAST and GET_BITS, for a value of s bits. */
    method GetValue(s: nat) returns (x: int)
      requires Valid() && Room(1) && s <= 15
      modifies this
      ensures Valid() && Advanced(1) && ReadValue(s, old(Known())) == Some((x, Known()))
    {
      hide Known, Coming, Left, Plain, Ended, MarkerIn, Payload, BitsOf, Zeros, Number, Shl;
      x := 0;
      if s != 0 {
        Fill();
        var r := PeekBits(s);
        DropBits(s);
        x := Extend(r, s);
      }
    }

    /** The loop of HUFF_DECODE_FAST for codes of more than eight bits. */
    method LongCode(t: DTable, code0: nat, ghost h: HuffTbl, ghost s: seq<bit>) returns (sym: byte)
      requires Valid() && Decodes(h, t) && Accepted(h) && AssignedSym(CodeOf(h), s) && NoneShorter(CodeOf(h), s, 9)
      requires bitsLeft >= 7 && |s| >= 9 && Known() == s[9..] && code0 == Number(s[..9])
      modifies `bitsLeft
      ensures Valid() && ReadSym(CodeOf(h), s) == Some((sym, Known()))
    {
      hide Known, Coming, Left, Plain, Ended, Payload, BitsOf, Zeros, Number, CodeOf, Decodes, Accepted, NoneShorter,
        ReadSym, AssignedSym;
      DecodesShape(h, t);
      var nb: nat := 9;
      var code: nat := code0;
      while code > t.maxcode[nb]
        invariant 9 <= nb <= 16 && nb <= |s| && Known() == s[nb..] && code == Number(s[..nb]) && bitsLeft >= 16 - nb
        invariant Valid() && NoneShorter(CodeOf(h), s, nb)
        decreases 16 - nb
      {
        MaxcodeTells(h, t, s, nb);
        AssignedIsShort(CodeOf(h), s, nb);
        var b := PeekBits(1);
        NumberNext(s, nb);
        DropBits(1);
        code := 2 * code + b;
        nb := nb + 1;
      }
      MaxcodeTells(h, t, s, nb);
      CodeSize(h);
      ReadWord(CodeOf(h), code + t.valoffset[nb], s);
      sym := t.huffval[(code + t.valoffset[nb]) % 256];
    }

    /** DROP_BITS(nb) for nb = 9, and the bits just dropped: get_buffer >> bits_left. */
    method TakeNine() returns (code: nat)
      requires Valid() && bitsLeft >= 9
      modifies `bitsLeft
      ensures Valid() && bitsLeft == old(bitsLeft) - 9
      ensures |old(Known())| >= 9 && Known() == old(Known())[9..] && code == Number(old(Known())[..9])
    {
      hide BitsOf, Low, Shr, Number, Payload, Ended, Plain, Zeros;
      PeekLemma(getBuffer, bitsLeft, 9, Coming());
      bitsLeft := bitsLeft - 9;
      code := Low(Shr(getBuffer, bitsLeft), 9);
    }

    /** HUFF_DECODE_FAST. */
    method HuffDecode(t: DTable, ghost h: HuffTbl) returns (sym: byte)
      requires Valid() && Room(1) && Decodes(h, t) && Accepted(h) && AssignedSym(CodeOf(h), Known())
      modifies this
      ensures Valid() && Advanced(1) && ReadSym(CodeOf(h), old(Known())) == Some((sym, Known()))
    {
      hide Known, Coming, Left, Plain, Ended, MarkerIn, Payload, BitsOf, Zeros, Number, CodeOf, Decodes, Accepted,
        NoneShorter, ReadSym, AssignedSym;
      DecodesShape(h, t);
      Fill();
      ghost var s := Known();
      var look := PeekBits(HUFF_LOOKAHEAD);
      LookupTells(h, t, s);
      var nb: nat := t.lookup[look] / 256;
      sym := t.lookup[look] % 256;
      if nb > HUFF_LOOKAHEAD {
        var code := TakeNine();
        sym := LongCode(t, code, h, s);
      } else {
        DropBits(nb);
      }
    }
  }

  /** The bits begin with a code word. */
  ghost predicate AssignedSym(c: Code, s: seq<bit>) {
    exists p: nat :: Begins(c, p, s)
  }

  /** No word of up to nb bits begins the input, and yet one does: it must be longer. */
  lemma AssignedIsShort(c: Code, s: seq<bit>, nb: nat)
    requires PrefixFree(c) && AssignedSym(c, s) && NoneShorter(c, s, nb + 1)
    ensures nb < 16 && nb < |s|
  {
    var p: nat :| Begins(c, p, s);
  }

  /** Two or more FF bytes are not followed by a stuffed zero that near. */
  lemma ManyFF(s: seq<byte>)
    requires |s| >= 2 && s[0] == 255 && s[1] == 255
    ensures Next(s).Data? ==> Next(s).b == 255 && |Next(s).rest| + 2 < |s|
  {
    assert Next(s) == AfterFF(s[1..]) == AfterFF(s[1..][1..]);
    DataAfterFF(s[1..][1..]);
  }

  lemma {:induction false} DataAfterFF(s: seq<byte>)
    ensures AfterFF(s).Data? ==> AfterFF(s).b == 255
  {
    if s != [] && s[0] == 255 {
      DataAfterFF(s[1..]);
    }
  }

  lemma OneFF(s: seq<byte>)
    requires |s| >= 2 && !(s[0] == 255 && s[1] == 255)
    ensures Next(s) == if s[0] != 255 then Data(s[0], s[1..]) else if s[1] == 0 then Data(255, s[2..]) else Marker(s[1], s[2..])
  {
    assert s[1..][1..] == s[2..];
  }

  lemma PlainAt(s: seq<byte>)
    requires Plain(s) && Ended(s)
    ensures !Next(s).Dry? && (Next(s).Data? && Next(s).b == 255 ==> |s| == |Next(s).rest| + 2)
  {
    hide Next;
  }

  /** The next bytes as GET_BYTE takes them: a data byte, or the marker that ends the data. */
  lemma PlainByte(source: seq<byte>, p: nat, beyond: seq<byte>)
    requires p + 2 <= |source| && Plain(source[p..] + beyond) && Ended(source[p..] + beyond)
    ensures var f := Next(source[p..] + beyond);
      if source[p] == 255 && source[p + 1] != 0 then f.Marker?
      else f.Data? && f.b == source[p] && f.rest == source[p + if source[p] == 255 then 2 else 1..] + beyond
  {
    hide Plain, Ended, Next;
    var s := source[p..] + beyond;
    assert s[0] == source[p] && s[1] == source[p + 1];
    assert s[1..] == source[p + 1..] + beyond && s[2..] == source[p + 2..] + beyond;
    PlainAt(s);
    if s[0] == 255 && s[1] == 255 {
      ManyFF(s);
    } else {
      OneFF(s);
    }
  }

  lemma LeftUnfolds(s: seq<byte>)
    ensures var f := Next(s);
      && (f.Data? ==> Payload(s) == BitsOf(f.b, 8) + Payload(f.rest) && Ended(s) == Ended(f.rest))
      && (f.Data? ==> MarkerIn(s) == MarkerIn(f.rest) && (Plain(s) ==> Plain(f.rest)))
      && (f.Marker? ==> Payload(s) == [] && Ended(s))
  {
    hide BitsOf;
  }

  lemma RegisterByte(gb: nat, bl: nat, c: byte, coming: seq<bit>, zeros: seq<bit>)
    requires bl <= 24
    ensures Shl(gb, 8) >= 0
    ensures BitsOf(Low(Shl(gb, 8) + c, BIT_BUF_SIZE), bl + 8) + (coming + zeros)
         == BitsOf(gb, bl) + ((BitsOf(c, 8) + coming) + zeros)
  {
    hide BitsOf, Low, Shl;
    ShiftIn(gb, bl, c, coming, zeros);
  }

  lemma ByteOfZeros(gb: nat, bl: nat, supply: nat)
    requires bl <= 24 && supply >= 8
    ensures Shl(gb, 8) >= 0
    ensures BitsOf(Low(Shl(gb, 8), BIT_BUF_SIZE), bl + 8) + ([] + Zeros(supply - 8)) == BitsOf(gb, bl) + ([] + Zeros(supply))
  {
    hide BitsOf, Low, Shl;
    ShlByte(1);
    ShlByte(gb);
    BitsJoin(gb, bl, 0, 8);
    BitsOfMasked(Shl(gb, 8), BIT_BUF_SIZE, bl + 8);
    BitsOfZero(8);
    ZerosPlus(8, supply - 8);
    Assoc(BitsOf(gb, bl), Zeros(8), Zeros(supply - 8));
  }

  /** Every symbol met from coefficient k on is one the table assigns. */
  ghost predicate AcClean(h: Code, k: nat, t: seq<bit>)
    requires PrefixFree(h)
    decreases DCTSIZE2 - k
  {
    k >= DCTSIZE2 ||
    (AssignedSym(h, t) &&
     (ReadSym(h, t).Some? ==>
        var run, size, u := ReadSym(h, t).value.0 / 16, ReadSym(h, t).value.0 % 16, ReadSym(h, t).value.1;
        if size != 0 then ReadValue(size, u).Some? ==> AcClean(h, k + run + 1, ReadValue(size, u).value.1)
        else run != 15 || AcClean(h, k + 16, u)))
  }

  ghost predicate BlockClean(c: Component, t: seq<bit>)
    requires ValidTables(c)
  {
    AssignedSym(CodeOf(c.dc), t)
    && (ReadDc(CodeOf(c.dc), t).Some? ==> AcClean(CodeOf(c.ac), 1, ReadDc(CodeOf(c.dc), t).value.1))
  }

  /** The same for the blocks of an MCU from the i'th on. */
  ghost predicate McuClean(sc: Scan, last: seq<int>, m: mcu, i: nat, t: seq<bit>)
    requires ValidScan(sc) && ValidStorage(sc, last, m)
    decreases |m| - i
  {
    i >= |m| ||
    var ci := sc.membership[i];
    BlockClean(sc.comps[ci], t) &&
    (ReadBlock(sc.comps[ci], last[ci], m[i], t).Some? ==>
       var b := ReadBlock(sc.comps[ci], last[ci], m[i], t).value;
       McuClean(sc, last[ci := b.1], m[i := b.0], i + 1, b.2))
  }

  lemma AcCleanStep(h: Code, k: nat, t: seq<bit>)
    requires PrefixFree(h) && k < DCTSIZE2 && AcClean(h, k, t)
    ensures AssignedSym(h, t)
    ensures ReadSym(h, t).Some? ==>
      var run, size, u := ReadSym(h, t).value.0 / 16, ReadSym(h, t).value.0 % 16, ReadSym(h, t).value.1;
      && (size != 0 && ReadValue(size, u).Some? ==> AcClean(h, k + run + 1, ReadValue(size, u).value.1))
      && (size == 0 && run == 15 ==> AcClean(h, k + 16, u))
  {
    hide PrefixFree, ReadSym, ReadValue, AssignedSym;
  }

  /** One run/size symbol of the fast AC loop. */
  method CoefFast(fr: FastReader, block: array<int>, t: DTable, ghost h: HuffTbl, k: nat) returns (stop: bool, k1: nat)
    requires fr.Valid() && fr.Room(2) && Decodes(h, t) && Accepted(h) && block.Length == DCTSIZE2 && k < DCTSIZE2
    requires AcClean(CodeOf(h), k, fr.Known())
    modifies fr, block
    ensures fr.Valid() && fr.Advanced(2) && k < k1
    ensures ReadAc(CodeOf(h), ViewOf(old(block[..])), k, old(fr.Known()))
      == if stop then Some((ViewOf(block[..]), fr.Known())) else ReadAc(CodeOf(h), ViewOf(block[..]), k1, fr.Known())
    ensures !stop ==> AcClean(CodeOf(h), k1, fr.Known())
  {
    hide FastReader.Known, FastReader.Coming, FastReader.Left, CodeOf, ReadSym, ReadValue, ReadAc, AcClean, Decodes, Accepted,
      ViewOf, PrefixFree, AssignedSym;
    ghost var t0 := fr.Known();
    AcCleanStep(CodeOf(h), k, t0);
    stop, k1 := false, k + 1;
    var rs := fr.HuffDecode(t, h);
    AcStep(CodeOf(h), ViewOf(block[..]), k, t0);
    var r, s := rs / 16, rs % 16;
    if s != 0 {
      var x := fr.GetValue(s);
      PutCoef(block, k + r, x);
      k1 := k + r + 1;
    } else if r != 15 {
      stop := true;
    } else {
      k1 := k + 16;
    }
  }

  /** Refills that may still be needed from coefficient k on. */
  function FastBudget(k: nat): nat {
    if k < DCTSIZE2 then 2 * (DCTSIZE2 - k) else 0
  }

  method AcFast(fr: FastReader, block: array<int>, t: DTable, ghost h: HuffTbl)
    requires fr.Valid() && fr.Room(FastBudget(1)) && Decodes(h, t) && Accepted(h) && block.Length == DCTSIZE2
    requires AcClean(CodeOf(h), 1, fr.Known())
    modifies fr, block
    ensures fr.Valid() && fr.Advanced(FastBudget(1))
    ensures ReadAc(CodeOf(h), ViewOf(old(block[..])), 1, old(fr.Known())) == Some((ViewOf(block[..]), fr.Known()))
  {
    hide FastReader.Known, FastReader.Coming, FastReader.Left, CodeOf, ReadAc, AcClean, Decodes, Accepted, ViewOf, PrefixFree;
    ghost var v, t0 := ViewOf(block[..]), fr.Known();
    var k: nat := 1;
    while k < DCTSIZE2
      invariant fr.Valid() && fr.Advanced(FastBudget(1) - FastBudget(k))
      invariant ReadAc(CodeOf(h), v, 1, t0) == ReadAc(CodeOf(h), ViewOf(block[..]), k, fr.Known())
      invariant AcClean(CodeOf(h), k, fr.Known())
      decreases DCTSIZE2 - k
    {
      var stop;
      stop, k := CoefFast(fr, block, t, h, k);
      if stop {
        return;
      }
    }
    AcDone(CodeOf(h), ViewOf(block[..]), k, fr.Known());
  }

  /** One block of decode_mcu_fast. */
  method BlockFast(fr: FastReader, block: array<int>, last: int, t: Tables, ghost c: Component) returns (x: int)
    requires fr.Valid() && fr.Room(128) && DecodesWith(c, t) && block.Length == DCTSIZE2 && BlockClean(c, fr.Known())
    modifies fr, block
    ensures fr.Valid() && fr.Advanced(128)
    ensures ReadBlock(c, last, ViewOf(old(block[..])), old(fr.Known())) == Some((ViewOf(block[..]), x, fr.Known()))
  {
    hide FastReader.Known, FastReader.Coming, FastReader.Left, CodeOf, ReadAc, ReadSym, ReadValue, AcClean, AssignedSym,
      Decodes, Accepted, Encodable, Proper, ViewOf, Short;
    ghost var t0 := fr.Known();
    var s := fr.HuffDecode(t.dc, c.dc);
    DcSymbol(c.dc, t0);
    var diff := fr.GetValue(s);
    x := last + diff;
    PutCoef(block, 0, Short(x));
    AcFast(fr, block, t.ac, c.ac);
  }

  lemma McuCleanStep(sc: Scan, last: seq<int>, m: mcu, i: nat, t: seq<bit>)
    requires ValidScan(sc) && ValidStorage(sc, last, m) && i < |m| && McuClean(sc, last, m, i, t)
    ensures var ci := sc.membership[i];
      && BlockClean(sc.comps[ci], t)
      && (ReadBlock(sc.comps[ci], last[ci], m[i], t).Some? ==>
            var b := ReadBlock(sc.comps[ci], last[ci], m[i], t).value;
            McuClean(sc, last[ci := b.1], m[i := b.0], i + 1, b.2))
  {
    hide ReadBlock, BlockClean, ValidTables;
  }

  /** The block loop of decode_mcu_fast. */
  method BlocksFast(fr: FastReader, sc: Scan, ts: seq<Tables>, last0: seq<int>, blocks: seq<array<int>>) returns (last: seq<int>)
    requires AllDecode(sc, ts) && Storage(sc, blocks) && |last0| == |sc.comps| && fr.Valid() && fr.Room(128 * |blocks|)
    requires McuClean(sc, last0, Views(blocks), 0, fr.Known())
    modifies fr, blocks
    ensures fr.Valid() && fr.Advanced(128 * |blocks|) && |last| == |sc.comps|
    ensures ReadMcu(sc, last0, old(Views(blocks)), 0, old(fr.Known())) == Some((Views(blocks), last, fr.Known()))
  {
    hide FastReader.Known, FastReader.Coming, FastReader.Left, ReadBlock, ReadMcu, DecodesWith, ValidTables, ViewOf, Mid, Views,
      McuClean, BlockClean;
    ghost var m, t0 := Views(blocks), fr.Known();
    last := last0;
    ViewsShape(blocks);
    MidStart(sc, last0, m, t0);
    var i: nat := 0;
    while i < |blocks|
      invariant i <= |blocks| && fr.Valid() && |last| == |sc.comps| && fr.Advanced(128 * i)
      invariant Mid(sc, last0, m, t0, last, Views(blocks), i, fr.Known())
      invariant ValidStorage(sc, last, Views(blocks)) && McuClean(sc, last, Views(blocks), i, fr.Known())
    {
      var ci := sc.membership[i];
      ghost var n, s, l := Views(blocks), fr.Known(), last;
      ViewsShape(blocks);
      McuCleanStep(sc, last, n, i, s);
      var x := BlockFast(fr, blocks[i], last[ci], ts[ci], sc.comps[ci]);
      ViewsAfter(blocks, i, n);
      MidNext(sc, last0, m, t0, l, n, i, s, ViewOf(blocks[i][..]), x, fr.Known());
      last := last[ci := x];
      i := i + 1;
    }
    MidEnd(sc, last0, m, t0, last, Views(blocks), i, fr.Known());
  }
}
