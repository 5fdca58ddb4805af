/** Bit output of the progressive Huffman encoder in jcphuff.c: emit_bits, emit_symbol and
emit_buffered_bits, either writing bytes or only counting symbols. */
module PhuffWriter {

  import opened CodeString
  import opened PrefixCode
  import opened CanonicalCode
  import opened DerivedTables
  import opened BitStream
  import opened CodedItems
  import opened EncodingTables

  /** Eight bits on top of a left-justified 24-bit register. */
  lemma TopByte(acc: nat, n: nat)
    requires 8 <= n <= 24
    ensures Shl(acc, 24 - n) >= 0
    ensures Low(Shr(Shl(acc, 24 - n), 16), 8) == Number(BitsOf(acc, n)[..8]) < 256
    ensures BitsOf(acc, n)[8..] == BitsOf(acc, n - 8)
    ensures Shl(Shl(acc, 24 - n), 8) == Shl(acc, 24 - (n - 8))
  {
    hide Shl, Shr, BitsOf, Low, Number;
    ShlNat(acc, 24 - n);
    ShrOfShl(acc, 24 - n, 16);
    BitsSplit(acc, n, 8);
    NumberIsLow(Shr(acc, n - 8), 8);
    LowBound(Shr(acc, n - 8), 8);
    ShlByte(1);
    ShlShl(acc, 24 - n, 8);
  }

  lemma {:induction false} ShrOfShl(v: nat, e: nat, i: nat)
    requires e <= i
    ensures Shl(v, e) >= 0 && Shr(Shl(v, e), i) == Shr(v, i - e)
    decreases e
  {
    if e > 0 {
      ShrOfShl(v, e - 1, i - 1);
      ShrHalf(Shl(v, e), i - 1);
    }
  }

  /** Merging size new bits below the pending ones. */
  lemma MergeBits(acc: nat, pending: nat, code: nat, size: nat)
    requires pending + size <= 24
    ensures Shl(acc, 24 - pending) >= 0 && Shl(Low(code, size), 24 - (pending + size)) >= 0 && Shl(acc, size) >= 0
    ensures Shl(Low(code, size), 24 - (pending + size)) < Shl(1, 24 - pending)
    ensures Shl(Low(code, size), 24 - (pending + size)) + Shl(acc, 24 - pending)
         == Shl(Shl(acc, size) + Low(code, size), 24 - (pending + size))
    ensures BitsOf(Shl(acc, size) + Low(code, size), pending + size) == BitsOf(acc, pending) + BitsOf(code, size)
  {
    hide Shl, BitsOf, Low;
    var e := 24 - (pending + size);
    LowBound(code, size);
    ShlNat(acc, 24 - pending);
    ShlNat(acc, size);
    ShlNat(Low(code, size), e);
    ShlShl(1, size, e);
    ShlMonotone(Low(code, size), Shl(1, size), e);
    ShlShl(acc, size, e);
    ShlPlus(Shl(acc, size), Low(code, size), e);
    BitsJoin(acc, pending, Low(code, size), size);
    BitsOfMasked(code, size, size);
  }

  class Writer {
    /** gather_statistics: only count the symbols. */
    const gather: bool
    const tbl: CTable
    ghost const h: HuffTbl
    const counts: array<nat>
    var out: seq<byte>
    /** put_buffer holds put_bits bits, left-justified in 24; higher bits are never looked at. */
    var putBuffer: nat
    var putBits: nat
    ghost var acc: nat
    ghost var done: seq<byte>
    ghost var data: seq<byte>
    ghost var sent: seq<Item>

    ghost predicate Register()
      reads `putBuffer, `putBits, `acc
    {
      putBits <= 7 && putBuffer == Shl(acc, 24 - putBits)
    }

    /** The bits written since the segment began. */
    ghost function Written(): seq<bit>
      reads `data, `acc, `putBits
    {
      ByteBits(data) + BitsOf(acc, putBits)
    }

    /** The counts are those of the symbols sent, or the bits spell what was sent. */
    ghost predicate Valid()
      reads this, counts
    {
      && counts.Length == 257
      && if gather then Counted() else
        && Accepted(h) && Tabulates(h, tbl, false) && Register() && Proper(CodeOf(h)) && out == done + Stuff(data)
        && Written() == Spell(CodeOf(h), sent) && Coded(CodeOf(h), sent)
    }

    ghost predicate Counted()
      requires counts.Length == 257
      reads `sent, counts
    {
      forall s: byte :: counts[s] == Count(sent, s)
    }

    /** No code is missing: everything can be counted, and symbols with a code can be sent. */
    ghost predicate CanSend(items: seq<Item>) {
      gather || (Accepted(h) && Coded(CodeOf(h), items))
    }

    lemma CanSendParts(s: seq<Item>, t: seq<Item>)
      ensures CanSend(s + t) <==> CanSend(s) && CanSend(t)
    {
      hide Accepted, Coded;
      if Accepted(h) {
        CodedParts(CodeOf(h), s, t);
      }
    }

    lemma CanSendRaw(b: seq<bit>)
      requires Valid()
      ensures CanSend([Raw(b)]) && CanSend([])
    {
      hide Tabulates, Proper, Register, Written, Spell;
    }

    /** What was sent could be sent. */
    lemma CouldSend()
      requires Valid()
      ensures CanSend(sent)
    {
      hide Tabulates, Proper, Register, Written, Spell;
    }

    constructor (gather: bool, tbl: CTable, ghost h: HuffTbl)
      requires !gather ==> Tabulates(h, tbl, false)
      ensures Valid() && fresh(counts) && this.gather == gather && sent == [] && out == [] && done == []
      ensures this.tbl == tbl && this.h == h
    {
      this.gather, this.tbl, this.h := gather, tbl, h;
      counts := new nat[257](_ => 0);
      out, putBuffer, putBits := [], 0, 0;
      acc, done, data, sent := 0, [], [], [];
      new;
      ShlOfZero(24);
      if !gather {
        ProperTable(h, false);
        assert Stuff([]) == [] && ByteBits([]) == [] && BitsOf(0, 0) == [];
      }
    }

    /** Write the full bytes of the register, stuffing a zero behind each 0xFF. */
    method WriteBytes(pb: nat, n: nat)
      requires n <= 24 && pb == Shl(acc, 24 - n) && out == done + Stuff(data)
      modifies `out, `putBuffer, `putBits, `data
      ensures Register() && out == done + Stuff(data)
      ensures Written() == ByteBits(old(data)) + BitsOf(acc, n)
    {
      hide Stuff, ByteBits, BitsOf, Shl, Shr, Low, Number;
      var buffer: nat, bits: nat := pb, n;
      while bits >= 8
        invariant bits <= 24 && buffer == Shl(acc, 24 - bits) && out == done + Stuff(data)
        invariant ByteBits(data) + BitsOf(acc, bits) == ByteBits(old(data)) + BitsOf(acc, n)
        modifies `out, `data
      {
        TopByte(acc, bits);
        var c: byte := Low(Shr(buffer, 16), 8);
        WriteOne(BitsOf(acc, bits), c, data);
        StuffAppend(data, c);
        Assoc(done, Stuff(data), StuffOne(c));
        out := out + [c];
        if c == 0xFF {
          out := out + [0];
        }
        data := data + [c];
        ShlNat(acc, 24 - (bits - 8));
        buffer := Shl(buffer, 8);
        bits := bits - 8;
      }
      putBuffer, putBits := buffer, bits;
    }

    /** emit_bits, as far as it writes. */
    method PutBits(code: nat, size: nat)
      requires Register() && 1 <= size <= 16 && out == done + Stuff(data)
      modifies `out, `putBuffer, `putBits, `acc, `data
      ensures Register() && out == done + Stuff(data) && Written() == old(Written()) + BitsOf(code, size)
    {
      hide Stuff, ByteBits, BitsOf, Shl, Low;
      MergeBits(acc, putBits, code, size);
      var n := putBits + size;
      var incoming: nat := Shl(Low(code, size), 24 - n);
      // incoming lies below the bits of putBuffer, so | is +
      var buffer: nat := incoming + putBuffer;
      Assoc(ByteBits(data), BitsOf(acc, putBits), BitsOf(code, size));
      acc := Shl(acc, size) + Low(code, size);
      WriteBytes(buffer, n);
    }

    /** emit_bits: the low size bits of code; size 0 is the mark of a missing code. */
    method EmitBits(code: nat, size: nat) returns (ok: bool)
      requires Valid() && size <= 16
      modifies this
      ensures Valid() && done == old(done) && ok == (size > 0)
      ensures sent == old(sent) + if ok then [Raw(BitsOf(code, size))] else []
    {
      hide Tabulates, Proper, Register, Written, Spell, BitsOf, Accepted;
      if size == 0 {
        return false;
      }
      if !gather {
        PutBits(code, size);
        SpellNext(CodeOf(h), sent, Raw(BitsOf(code, size)));
      } else {
        SameCounts(sent, BitsOf(code, size));
      }
      sent := sent + [Raw(BitsOf(code, size))];
      ok := true;
    }

    /** emit_symbol: count the symbol, or send its code word if it has one. */
    method EmitSymbol(symbol: byte) returns (ok: bool)
      requires Valid()
      modifies this, counts
      ensures Valid() && done == old(done) && ok == CanSend([Sym(symbol)])
      ensures sent == old(sent) + if ok then [Sym(symbol)] else []
    {
      hide Tabulates, Proper, Register, Written, Spell, BitsOf, HasWord, Accepted, Coded;
      if gather {
        CountOne(sent, symbol);
        counts[symbol] := counts[symbol] + 1;
      } else {
        TableWord(h, tbl, false, symbol);
        CodedOne(CodeOf(h), symbol);
        if tbl.ehufsi[symbol] == 0 {
          return false;
        }
        PutBits(tbl.ehufco[symbol], tbl.ehufsi[symbol]);
        SpellNext(CodeOf(h), sent, Sym(symbol));
        CodedNext(CodeOf(h), sent, symbol);
      }
      sent := sent + [Sym(symbol)];
      ok := true;
    }

    /** emit_buffered_bits: n correction bits from the buffer. */
    method EmitBufferedBits(buffer: array<bit>, start: nat, n: nat)
      requires Valid() && start + n <= buffer.Length && buffer as object != counts as object
      modifies this
      ensures Valid() && done == old(done) && sent == old(sent) + [Raw(buffer[start..start + n])]
    {
      hide Tabulates, Proper, Register, Spell, BitsOf, Accepted;
      ghost var bits := buffer[start..start + n];
      if !gather {
        var i: nat := 0;
        assert bits[..0] == [];
        assert Written() == old(Written()) + bits[..0];
        while i < n
          invariant i <= n && Register() && out == done + Stuff(data) && Written() == old(Written()) + bits[..i]
          modifies `out, `putBuffer, `putBits, `acc, `data
        {
          hide Written;
          OneBit(bits[i]);
          assert bits[..i + 1] == bits[..i] + [bits[i]];
          Assoc(old(Written()), bits[..i], [bits[i]]);
          PutBits(buffer[start + i], 1);
          i := i + 1;
        }
        assert bits[..n] == bits;
        SpellNext(CodeOf(h), sent, Raw(bits));
      } else {
        SameCounts(sent, bits);
      }
      sent := sent + [Raw(bits)];
    }

    /** flush_bits: fill the last byte with ones; the segment is complete and a new one begins. */
    method FlushBits() returns (ghost payload: seq<byte>, ghost pad: nat)
      requires Valid() && !gather
      modifies this
      ensures Valid() && out == old(done) + Stuff(payload) && pad < 8
      ensures ByteBits(payload) == Spell(CodeOf(h), old(sent)) + Ones(pad)
      ensures done == out && sent == []
    {
      hide Tabulates, Proper, Spell, BitsOf, ByteBits, Stuff, Shl, Accepted;
      ghost var before := Written();
      PutBits(0x7F, 7);
      SevenOnes();
      payload, pad := data, 7 - putBits;
      OnesPrefix(pad, 7);
      assert ByteBits(data) == Written()[..|before| + pad];
      assert (before + Ones(7))[..|before| + pad] == before + Ones(7)[..pad];
      StartSegment();
    }

    /** An empty register and an empty segment behind what is written so far. */
    method StartSegment()
      requires !gather && counts.Length == 257 && Accepted(h) && Tabulates(h, tbl, false) && Proper(CodeOf(h))
      modifies `putBuffer, `putBits, `acc, `done, `data, `sent
      ensures Valid() && done == out && sent == []
    {
      hide Tabulates, Proper, Accepted, BitsOf, Shl, Spell, Stuff, ByteBits;
      putBuffer, putBits := 0, 0;
      acc, done, data, sent := 0, out, [], [];
      ShlOfZero(24);
      EmptySegment(CodeOf(h), out);
    }

    /** Send a marker behind a flushed segment. */
    method EmitMarker(m: byte)
      requires Valid() && !gather && done == out && sent == []
      modifies this
      ensures Valid() && done == out == old(out) + [255, m] && sent == []
    {
      hide Tabulates, Proper, Accepted, BitsOf, Shl, Spell, Stuff, ByteBits, Coded;
      out := out + [0xFF];
      out := out + [m];
      StartSegment();
    }
  }

  lemma EmptySegment(c: Code, out: seq<byte>)
    requires Proper(c)
    ensures out + Stuff([]) == out && ByteBits([]) == BitsOf(0, 0) == Spell(c, []) == []
  {
    assert out + [] == out;
  }

  lemma CodedOne(c: Code, s: byte)
    ensures Coded(c, [Sym(s)]) <==> HasWord(c, s)
  {
    assert [Sym(s)][0] == Sym(s);
  }

  lemma CodedNext(c: Code, sent: seq<Item>, s: byte)
    requires Proper(c) && Coded(c, sent) && HasWord(c, s)
    ensures Coded(c, sent + [Sym(s)])
  {
  }

  lemma OneBit(b: bit)
    ensures BitsOf(b, 1) == [b]
  {
    assert BitsOf(b / 2, 0) == [];
  }

  lemma SameCounts(sent: seq<Item>, b: seq<bit>)
    ensures forall s: byte :: Count(sent + [Raw(b)], s) == Count(sent, s)
  {
    forall s: byte
      ensures Count(sent + [Raw(b)], s) == Count(sent, s)
    {
      CountNext(sent, Raw(b), s);
    }
  }

  lemma CountOne(sent: seq<Item>, symbol: byte)
    ensures forall s: byte :: Count(sent + [Sym(symbol)], s) == Count(sent, s) + if s == symbol then 1 else 0
  {
    forall s: byte
      ensures Count(sent + [Sym(symbol)], s) == Count(sent, s) + if s == symbol then 1 else 0
    {
      CountNext(sent, Sym(symbol), s);
    }
  }

  /** Moving the first eight pending bits into a byte of their own. */
  lemma WriteOne(pending: seq<bit>, c: byte, data: seq<byte>)
    requires |pending| >= 8 && c == Number(pending[..8])
    ensures ByteBits(data + [c]) + pending[8..] == ByteBits(data) + pending
  {
    hide BitsOf, Number, ByteBits;
    BitsOfNumber(pending[..8]);
    ByteBitsLast(data, c);
    assert pending == pending[..8] + pending[8..];
    Assoc(ByteBits(data), pending[..8], pending[8..]);
  }
}
