/** The bit input of jdhuff.c: a 32-bit register filled from the byte source, which may run
dry at any time. */
module BitReader {

  import opened Wrappers
  import opened CodeString
  import opened PrefixCode
  import opened DerivedTables
  import opened DecodingTables
  import CanonicalCode
  import opened BitStream

  const BIT_BUF_SIZE := 32
  const MIN_GET_BITS := 25

  class Reader {
    /** Bytes the source can deliver at present, and the next one to read. */
    const source: seq<byte>
    var next: nat
    var getBuffer: nat
    var bitsLeft: nat
    /** unread_marker: the code of the marker that ended the data, or 0. */
    var marker: nat
    var insufficient: bool
    /** Bytes the source will deliver when it is asked again. */
    ghost const beyond: seq<byte>
    /** How many of the zero bits that follow the data behind a marker are still to be made up. */
    ghost var supply: nat

    constructor (source: seq<byte>, next: nat, getBuffer: nat, bitsLeft: nat, marker: nat, insufficient: bool,
        ghost beyond: seq<byte>, ghost supply: nat)
      requires next <= |source| && bitsLeft <= BIT_BUF_SIZE
      ensures Valid() && this.source == source && this.next == next && this.getBuffer == getBuffer
      ensures this.bitsLeft == bitsLeft && this.marker == marker && this.insufficient == insufficient
      ensures this.beyond == beyond && this.supply == supply
    {
      this.source, this.next, this.getBuffer, this.bitsLeft := source, next, getBuffer, bitsLeft;
      this.marker, this.insufficient, this.beyond, this.supply := marker, insufficient, beyond, supply;
    }

    ghost predicate Valid()
      reads this
    {
      next <= |source| && bitsLeft <= BIT_BUF_SIZE
    }

    /** A marker ends the data that is there, so the source need not be asked again. */
    ghost predicate Ends()
      requires next <= |source|
      reads `next, `marker
    {
      marker != 0 || Ended(source[next..])
    }

    /** A marker ends the data sooner or later. */
    ghost predicate Over()
      requires next <= |source|
      reads `next, `marker
    {
      marker != 0 || Ended(source[next..] + beyond)
    }

    /** Bits that are not in the register yet, arrived or not, with zeros behind the data. */
    ghost function Coming(): seq<bit>
      requires next <= |source|
      reads `next, `marker, `supply
    {
      Arriving() + if Over() then Zeros(supply) else []
    }

    ghost function Arriving(): seq<bit>
      requires next <= |source|
      reads `next, `marker
    {
      if marker != 0 then [] else Payload(source[next..] + beyond)
    }

    /** The marker that ends the data, and the bytes behind it. */
    ghost function Ahead(): Option<(nat, seq<byte>)>
      requires next <= |source|
      reads `next, `marker
    {
      if marker != 0 then Some((marker, source[next..] + beyond))
      else
        var a := MarkerIn(source[next..] + beyond);
        if a.None? then None else Some((a.value.0, a.value.1))
    }

    /** The data bytes still to come are written without padding. */
    ghost predicate Neat()
      requires next <= |source|
      reads `next, `marker
    {
      marker != 0 || Plain(source[next..] + beyond)
    }

    /** The bits to be delivered. */
    ghost function Known(): seq<bit>
      requires Valid()
      reads this
    {
      BitsOf(getBuffer, bitsLeft) + Coming()
    }

    /** Enough zeros are left for n more requests. */
    ghost predicate Supplied(n: nat)
      reads this
    {
      Valid() && (Over() ==> supply >= MIN_GET_BITS * n)
    }

    /** n requests later: zeros were made up only if the data ran out. */
    twostate predicate Advanced(n: nat)
      requires old(Valid()) && Valid()
      reads this
    {
      && Ends() == old(Ends()) && Over() == old(Over()) && Ahead() == old(Ahead()) && (old(Neat()) ==> Neat())
      && (old(insufficient) ==> insufficient) && |Known()| <= |old(Known())|
      && (if insufficient then supply >= old(supply) - MIN_GET_BITS * n else supply == old(supply))
      && (insufficient && !old(insufficient) ==> Ends() && Over() && |Known()| < old(supply))
    }

    /** What is kept when the source runs dry. */
    twostate predicate Suspended()
      requires old(Valid()) && Valid()
      reads this
    {
      !Ends() && !old(Ends()) && insufficient == old(insufficient)
    }

    /** One data byte, or the marker that ends the data; not ok if the source runs dry. */
    method FetchByte(at: nat) returns (ok: bool, c: byte, mark: nat, after: nat)
      requires at <= |source|
      ensures after <= |source|
      ensures match Next(source[at..])
        case Dry => !ok
        case Data(b, rest) => ok && mark == 0 && c == b && source[after..] == rest
        case Marker(m, rest) => ok && mark == m && source[after..] == rest
    {
      ok, c, mark, after := false, 0, 0, at;
      if after == |source| {
        return;
      }
      assert source[at..][1..] == source[at + 1..];
      c, after := source[after], after + 1;
      if c == 255 {
        while true
          invariant after <= |source| && Next(source[at..]) == AfterFF(source[after..])
          decreases |source| - after
        {
          if after == |source| {
            return;
          }
          assert source[after..][1..] == source[after + 1..];
          c, after := source[after], after + 1;
          if c != 255 {
            break;
          }
        }
        if c == 0 {
          c := 255;
        } else {
          mark := c;
        }
      }
      ok := true;
    }

    /** A register and a place in the source that stand for the same bits as the current ones. */
    ghost predicate Same(gb: nat, bl: nat, at: nat, mk: nat, zeros: seq<bit>)
      requires Valid() && at <= |source|
      reads this
    {
      BitsOf(gb, bl) + ((if mk != 0 then [] else Payload(source[at..] + beyond)) + zeros)
      == BitsOf(getBuffer, bitsLeft) + (Arriving() + zeros)
    }

    /** A place in the source from which the same marker is met. */
    ghost predicate Leads(at: nat, mk: nat)
      requires Valid() && at <= |source|
      reads this
    {
      && (Neat() ==> mk != 0 || Plain(source[at..] + beyond))
      && Ahead() == if mk != 0 then Some((mk, source[at..] + beyond))
        else
          var a := MarkerIn(source[at..] + beyond);
          if a.None? then None else Some((a.value.0, a.value.1))
    }

    /** The loading loop of jpeg_fill_bit_buffer, on its local copies of the state. */
    method Load(ghost zeros: seq<bit>) returns (ok: bool, gb: nat, bl: nat, at: nat, mk: nat)
      requires Valid() && marker == 0
      ensures !ok ==> !Ends()
      ensures at <= |source| && bitsLeft <= bl <= BIT_BUF_SIZE
      ensures ok ==> bl >= MIN_GET_BITS || mk != 0
      ensures ok ==> (mk != 0 || Ended(source[at..])) == Ends() && (mk != 0 || Ended(source[at..] + beyond)) == Over()
      ensures ok ==> Leads(at, mk)
      ensures ok ==> Same(gb, bl, at, mk, zeros)
    {
      hide BitsOf, Payload, Ended, MarkerIn, Plain, Low, Shl, Zeros;
      ok, gb, bl, at, mk := true, getBuffer, bitsLeft, next, marker;
      while bl < MIN_GET_BITS && mk == 0
        invariant at <= |source| && bitsLeft <= bl <= BIT_BUF_SIZE
        invariant Same(gb, bl, at, mk, zeros) && Leads(at, mk)
        invariant (mk != 0 || Ended(source[at..])) == Ends() && (mk != 0 || Ended(source[at..] + beyond)) == Over()
        decreases MIN_GET_BITS - bl, mk == 0
      {
        PayloadUnfold(source[at..], beyond);
        var got, c, m, after := FetchByte(at);
        if !got {
          return false, gb, bl, at, mk;
        }
        at := after;
        if m != 0 {
          mk := m;
        } else {
          ShiftIn(gb, bl, c, Payload(source[at..] + beyond), zeros);
          gb, bl := Low(Shl(gb, 8) + c, BIT_BUF_SIZE), bl + 8;
        }
      }
    }

    /** jpeg_fill_bit_buffer: the register holds at least nbits bits again.  Without enough
    bytes nothing changes; behind a marker zero bits are supplied. */
    method FillBitBuffer(nbits: nat) returns (ok: bool)
      requires Supplied(1) && nbits <= MIN_GET_BITS
      modifies this
      ensures Valid() && Known() == old(Known()) && Ends() == old(Ends()) && Over() == old(Over()) && Ahead() == old(Ahead())
      ensures old(Neat()) ==> Neat()
      ensures old(insufficient) ==> insufficient
      ensures !ok ==> !Ends() && next == old(next) && marker == old(marker)
      ensures !ok ==> getBuffer == old(getBuffer) && bitsLeft == old(bitsLeft) && insufficient == old(insufficient)
      ensures ok ==> bitsLeft >= nbits
      ensures if insufficient then supply >= old(supply) - MIN_GET_BITS else supply == old(supply)
      ensures insufficient && !old(insufficient) ==> Ends() && Over() && |Known()| < old(supply) + nbits
    {
      hide BitsOf, Payload, Ended, MarkerIn, Plain, Low, Shl, Zeros;
      var gb: nat, bl: nat, at: nat, mk: nat := getBuffer, bitsLeft, next, marker;
      if marker == 0 {
        ok, gb, bl, at, mk := Load(if Over() then Zeros(supply) else []);
        if !ok {
          return;
        }
      }
      if mk != 0 && nbits > bl {
        ShiftZeros(gb, bl, MIN_GET_BITS - bl, supply);
        supply := supply - (MIN_GET_BITS - bl);
        gb, bl := Low(Shl(gb, MIN_GET_BITS - bl), BIT_BUF_SIZE), MIN_GET_BITS;
        insufficient := true;
      }
      next, getBuffer, bitsLeft, marker := at, gb, bl, mk;
      ok := true;
    }

    /** PEEK_BITS: the top n bits of the register. */
    method PeekBits(n: nat) returns (v: nat)
      requires Valid() && n <= bitsLeft
      ensures v == Number(Known()[..n])
    {
      hide BitsOf, Low, Shr, Number;
      PeekLemma(getBuffer, bitsLeft, n, Coming());
      v := Low(Shr(getBuffer, bitsLeft - n), n);
    }

    /** DROP_BITS. */
    method DropBits(n: nat)
      requires Valid() && n <= bitsLeft
      modifies `bitsLeft
      ensures Valid() && Known() == old(Known())[n..]
    {
      hide BitsOf, Low, Shr, Number, Payload, Ended, Zeros;
      PeekLemma(getBuffer, bitsLeft, n, Coming());
      bitsLeft := bitsLeft - n;
    }

    /** CHECK_BIT_BUFFER and GET_BITS: the next n bits. */
    method GetBits(n: nat) returns (ok: bool, v: nat)
      requires Supplied(1) && n <= 16
      modifies this
      ensures Valid() && (!ok ==> Suspended())
      ensures ok ==> ReadBits(n, old(Known())) == Some((v, Known())) && Advanced(1)
    {
      hide BitsOf, Payload, Ended, Low, Shl, Shr, Zeros, Number;
      ok, v := true, 0;
      if bitsLeft < n {
        ok := FillBitBuffer(n);
        if !ok {
          return;
        }
      }
      v := PeekBits(n);
      DropBits(n);
    }

    /** The next bit. */
    method GetBit() returns (ok: bool, b: bit)
      requires Supplied(1)
      modifies this
      ensures Valid() && (!ok ==> Suspended())
      ensures ok ==> |old(Known())| > 0 && b == old(Known())[0] && Known() == old(Known())[1..] && Advanced(1)
    {
      hide Known, Number;
      var v: nat;
      ok, v := GetBits(1);
      b := 0;
      if ok {
        FirstBit(old(Known()));
        b := v;
      }
    }

    /** One more bit of a code that l bits do not decide. */
    method Widen(t: DTable, l: nat, code: nat, ghost h: HuffTbl, ghost s: seq<bit>) returns (ok: bool, longer: nat)
      requires Supplied(1) && l <= |s| && Known() == s[l..] && code == Number(s[..l])
      requires Decodes(h, t) && 1 <= l <= 17 && NoneShorter(CodeOf(h), s, l) && code > t.maxcode[l]
      modifies this
      ensures Valid() && l <= 16 && (!ok ==> Suspended())
      ensures ok ==> Advanced(1) && l < |s| && Known() == s[l + 1..] && longer == Number(s[..l + 1])
      ensures NoneShorter(CodeOf(h), s, l + 1)
    {
      hide Number, BitsOf, CodeOf, Decodes, Accepted, NoneShorter;
      DecodesShape(h, t);
      SentinelStops(t, s, l);
      MaxcodeTells(h, t, s, l);
      var bit: nat;
      ok, bit := GetBits(1);
      longer := 2 * code + bit;
      if ok {
        NumberNext(s, l);
      }
    }

    /** jpeg_huff_decode: find the code bit by bit, from a length no word is shorter than. */
    method SlowDecode(t: DTable, minBits: nat, ghost h: HuffTbl) returns (ok: bool, sym: byte)
      requires Supplied(18) && Decodes(h, t) && 1 <= minBits <= 9 && NoneShorter(CodeOf(h), Known(), minBits)
      modifies this
      ensures Valid() && (!ok ==> Suspended())
      ensures ok ==> ReadSym(CodeOf(h), old(Known())) == Some((sym, Known())) && Advanced(18)
    {
      hide Number, ReadSym, CodeOf, Decodes, Accepted, NoneShorter, Reader.Known, Reader.Ends, Reader.Over;
      DecodesShape(h, t);
      ghost var s := Known();
      var l: nat, code: nat := minBits, 0;
      sym := 0;
      ok, code := GetBits(l);
      if !ok {
        return;
      }
      while code > t.maxcode[l]
        invariant Valid() && minBits <= l <= 17 && l <= |s| && Known() == s[l..] && code == Number(s[..l])
        invariant NoneShorter(CodeOf(h), s, l) && Advanced(1 + l - minBits)
        decreases 17 - l
      {
        ok, code := Widen(t, l, code, h, s);
        if !ok {
          return;
        }
        l := l + 1;
      }
      sym := SymbolAt(t, l, code, h, s);
    }

    /** The end of jpeg_huff_decode: the symbol of a code, or zero for garbage. */
    method SymbolAt(t: DTable, l: nat, code: nat, ghost h: HuffTbl, ghost s: seq<bit>) returns (sym: byte)
      requires Decodes(h, t) && 1 <= l <= 17 && l <= |s| && NoneShorter(CodeOf(h), s, l)
      requires code == Number(s[..l]) && code <= t.maxcode[l]
      ensures ReadSym(CodeOf(h), s) == Some((sym, s[l..]))
    {
      hide Number, BitsOf, ReadSym, CodeOf, Decodes, Accepted, NoneShorter;
      DecodesShape(h, t);
      if l > 16 {
        GarbageSym(CodeOf(h), s);
        return 0;
      }
      MaxcodeTells(h, t, s, l);
      ReadWord(CodeOf(h), code + t.valoffset[l], s);
      CodeSize(h);
      sym := t.huffval[code + t.valoffset[l]];
    }

    /** HUFF_DECODE: one symbol, by table lookup when eight bits are at hand. */
    method HuffDecode(t: DTable, ghost h: HuffTbl) returns (ok: bool, sym: byte)
      requires Supplied(19) && Decodes(h, t)
      modifies this
      ensures Valid() && (!ok ==> Suspended())
      ensures ok ==> ReadSym(CodeOf(h), old(Known())) == Some((sym, Known())) && Advanced(19)
    {
      hide Number, BitsOf, ReadSym, CodeOf, Decodes, Accepted, NoneShorter, Reader.Ends, Reader.Over, Reader.Coming, Reader.Ahead,
        Reader.Neat;
      DecodesShape(h, t);
      var nb: nat := 1;
      ok, sym := true, 0;
      if bitsLeft < HUFF_LOOKAHEAD {
        ok := FillBitBuffer(0);
        if !ok {
          return;
        }
      }
      if bitsLeft < HUFF_LOOKAHEAD {
        NoEmptyWord(CodeOf(h), Known());
      } else {
        var look := PeekBits(HUFF_LOOKAHEAD);
        LookupTells(h, t, Known());
        nb := t.lookup[look] / 256;
        if nb <= HUFF_LOOKAHEAD {
          DropBits(nb);
          sym := t.lookup[look] % 256;
          return;
        }
      }
      ok, sym := SlowDecode(t, nb, h);
    }
  }

  lemma FirstBit(s: seq<bit>)
    requires s != []
    ensures Number(s[..1]) == s[0]
  {
    assert s[..1] == [s[0]];
    assert s[..1][..0] == [];
  }

  lemma NumberNext(s: seq<bit>, l: nat)
    requires l < |s|
    ensures Number(s[..l + 1]) == 2 * Number(s[..l]) + Number(s[l..][..1])
  {
    assert s[..l + 1][..l] == s[..l];
    assert s[l..][..1] == [s[l]];
    assert Number([s[l]]) == s[l] by {
      assert [s[l]][..0] == [];
    }
  }

  lemma DecodesShape(h: HuffTbl, t: DTable)
    requires Decodes(h, t)
    ensures Accepted(h) && |t.maxcode| == |t.valoffset| == 18 && t.maxcode[17] == 0xFFFFF && |t.lookup| == 256 && |t.huffval| == 256
  {
  }

  lemma CodeSize(h: HuffTbl)
    requires Accepted(h)
    ensures |CodeOf(h).words| == |CodeOf(h).vals| <= 256
  {
  }

  /** Seventeen bits never exceed the sentinel. */
  lemma SentinelStops(t: DTable, s: seq<bit>, l: nat)
    requires l <= 17 && l <= |s| && |t.maxcode| == 18 && t.maxcode[17] == 0xFFFFF && Number(s[..l]) > t.maxcode[l]
    ensures l <= 16
  {
    hide Shl, Number;
    NumberBound(s[..l]);
    CanonicalCode.SixteenBits();
    ShlDouble(1, 16);
  }

  lemma GarbageSym(c: Code, s: seq<bit>)
    requires PrefixFree(c) && |s| >= 17 && NoneShorter(c, s, 17)
    ensures ReadSym(c, s) == Some((0, s[17..]))
  {
  }

  lemma NoEmptyWord(c: Code, s: seq<bit>)
    requires PrefixFree(c)
    ensures NoneShorter(c, s, 1)
  {
  }

  lemma EntryParts(size: nat, val: byte)
    ensures Entry(size, val) / 256 == size && Entry(size, val) % 256 == val
  {
  }

  /** A lookup hit is the symbol and length of the word that begins the input; a miss rules
  out words of up to eight bits. */
  lemma LookupTells(h: HuffTbl, t: DTable, s: seq<bit>)
    requires Decodes(h, t) && |s| >= 8
    ensures Number(s[..8]) < |t.lookup|
    ensures var e := t.lookup[Number(s[..8])];
      || (e / 256 == 9 && NoneShorter(CodeOf(h), s, 9))
      || (e / 256 <= 8 && e / 256 <= |s| && ReadSym(CodeOf(h), s) == Some((e % 256, s[e / 256..])))
  {
    hide Number, CodeOf, ReadSym, NoneShorter, Entry, Accepted, PrefixFree, Filled, Rows;
    DecodesShape(h, t);
    NumberBound(s[..8]);
    ShlByte(1);
    LookupFinds(h, t, s);
    var e := t.lookup[Number(s[..8])];
    if e == TOO_LONG && NoneShorter(CodeOf(h), s, 9) {
    } else {
      LookupHit(CodeOf(h), e, s);
    }
  }

  lemma LookupHit(c: Code, e: nat, s: seq<bit>)
    requires PrefixFree(c)
    requires exists p: nat :: Begins(c, p, s) && |c.words[p]| <= 8 && e == Entry(|c.words[p]|, c.vals[p])
    ensures e / 256 <= 8 && e / 256 <= |s| && ReadSym(c, s) == Some((e % 256, s[e / 256..]))
  {
    hide ReadSym, Entry;
    var p: nat :| Begins(c, p, s) && |c.words[p]| <= 8 && e == Entry(|c.words[p]|, c.vals[p]);
    ReadWord(c, p, s);
    EntryParts(|c.words[p]|, c.vals[p]);
  }

  lemma PayloadUnfold(s: seq<byte>, more: seq<byte>)
    ensures var f := Next(s);
      && (f.Data? ==> Payload(s + more) == BitsOf(f.b, 8) + Payload(f.rest + more))
      && (f.Data? ==> Ended(s + more) == Ended(f.rest + more) && Ended(s) == Ended(f.rest))
      && (f.Data? ==> MarkerIn(s + more) == MarkerIn(f.rest + more) && (Plain(s + more) ==> Plain(f.rest + more)))
      && (f.Marker? ==> Payload(s + more) == [] && Ended(s + more) && Ended(s))
      && (f.Marker? ==> MarkerIn(s + more) == Some((f.m, f.rest + more)))
      && (f.Dry? ==> !Ended(s))
  {
    hide Next, AfterFF, BitsOf;
    if !Next(s).Dry? {
      NextMore(s, more);
    }
  }

  /** A new byte enters below the buffered bits; what the register loses is no longer needed. */
  lemma ShiftIn(gb: nat, bl: nat, c: byte, coming: seq<bit>, zeros: seq<bit>)
    requires bl < MIN_GET_BITS
    ensures Shl(gb, 8) >= 0
    ensures BitsOf(Low(Shl(gb, 8) + c, BIT_BUF_SIZE), bl + 8) + (coming + zeros)
         == BitsOf(gb, bl) + ((BitsOf(c, 8) + coming) + zeros)
  {
    hide BitsOf, Low, Shl;
    ShlByte(1);
    ShlByte(gb);
    BitsJoin(gb, bl, c, 8);
    BitsOfMasked(Shl(gb, 8) + c, BIT_BUF_SIZE, bl + 8);
    Assoc(BitsOf(c, 8), coming, zeros);
    Assoc(BitsOf(gb, bl), BitsOf(c, 8), coming + zeros);
  }

  /** Zero bits that the register is filled up with come out of the supply. */
  lemma ShiftZeros(gb: nat, bl: nat, n: nat, supply: nat)
    requires bl + n == MIN_GET_BITS && n <= supply
    ensures Shl(gb, n) >= 0
    ensures BitsOf(Low(Shl(gb, n), BIT_BUF_SIZE), MIN_GET_BITS) + ([] + Zeros(supply - n))
         == BitsOf(gb, bl) + ([] + Zeros(supply))
  {
    hide BitsOf, Low, Shl;
    CanonicalCode.ShlPositive(n);
    BitsJoin(gb, bl, 0, n);
    BitsOfMasked(Shl(gb, n), BIT_BUF_SIZE, bl + n);
    BitsOfZero(n);
    ZerosPlus(n, supply - n);
    Assoc(BitsOf(gb, bl), Zeros(n), Zeros(supply - n));
  }

  /** PEEK_BITS and DROP_BITS take bits from the top of the register. */
  lemma PeekLemma(gb: nat, bl: nat, n: nat, coming: seq<bit>)
    requires n <= bl
    ensures var s := BitsOf(gb, bl) + coming;
      Low(Shr(gb, bl - n), n) == Number(s[..n]) && s[n..] == BitsOf(gb, bl - n) + coming
  {
    hide BitsOf, Low, Shr, Number;
    BitsSplit(gb, bl, n);
    NumberIsLow(Shr(gb, bl - n), n);
    var u, v := BitsOf(Shr(gb, bl - n), n), BitsOf(gb, bl - n);
    assert (u + v + coming)[..n] == u;
    assert (u + v + coming)[n..] == v + coming;
  }
}
