/** Bit output of the sequential Huffman encoder in jchuff.c, with its 32-bit put buffer. */
module SequentialWriter {

  import opened CodeString
  import opened PrefixCode
  import opened DerivedTables
  import opened BitStream
  import opened CodedItems
  import opened EncodingTables
  import opened Coefficients
  import opened SequentialSpec

  class Writer {
    var out: seq<byte>
    var putBuffer: nat
    var putBits: nat
    ghost var done: seq<byte>
    ghost var data: seq<byte>

    /** The bits written since the segment began. */
    ghost function Written(): seq<bit>
      reads `data, `putBuffer, `putBits
    {
      ByteBits(data) + BitsOf(putBuffer, putBits)
    }

    /** Between emissions at most fifteen bits are pending. */
    ghost predicate Valid()
      reads this
    {
      putBits <= 15 && out == done + Stuff(data)
    }

    constructor ()
      ensures Valid() && Written() == [] && out == done == []
    {
      out, putBuffer, putBits, done, data := [], 0, 0, [], [];
      new;
      assert Stuff([]) == [] && ByteBits([]) == [] && BitsOf(0, 0) == [];
    }

    /** EMIT_BYTE. */
    method EmitByte()
      requires 8 <= putBits && out == done + Stuff(data)
      modifies `out, `putBits, `data
      ensures putBits == old(putBits) - 8 && out == done + Stuff(data) && Written() == old(Written())
    {
      hide Stuff, ByteBits, BitsOf, Low, Shr, Number;
      BitsSplit(putBuffer, putBits, 8);
      NumberIsLow(Shr(putBuffer, putBits - 8), 8);
      NumberBound(BitsOf(Shr(putBuffer, putBits - 8), 8));
      ShlByte(1);
      BitsOfMasked(Shr(putBuffer, putBits - 8), 8, 8);
      ghost var pending := BitsOf(putBuffer, putBits);
      putBits := putBits - 8;
      var c: byte := Low(Shr(putBuffer, putBits), 8);
      StuffAppend(data, c);
      Assoc(done, Stuff(data), StuffOne(c));
      ByteBitsLast(data, c);
      Assoc(ByteBits(data), BitsOf(c, 8), BitsOf(putBuffer, putBits));
      out := out + [c];
      if c == 0xFF {
        out := out + [0];
      }
      data := data + [c];
    }

    /** EMIT_BITS: append the bits, then empty the buffer down to fifteen. */
    method EmitBits(code: nat, size: nat)
      requires Valid() && size <= 16 && code < Shl(1, size)
      modifies this
      ensures Valid() && done == old(done) && Written() == old(Written()) + BitsOf(code, size)
    {
      hide Stuff, ByteBits, BitsOf, Low, Shl;
      BitsJoin(putBuffer, putBits, code, size);
      BitsOfMasked(Shl(putBuffer, size) + code, 32, putBits + size);
      Assoc(ByteBits(data), BitsOf(putBuffer, putBits), BitsOf(code, size));
      // the low size bits of the shifted buffer are clear, so | is +
      putBuffer := Low(Shl(putBuffer, size) + code, 32);
      putBits := putBits + size;
      if putBits > 15 {
        EmitByte();
        EmitByte();
      }
    }

    /** Emit the code word of a symbol the table has. */
    method EmitSymbol(t: CTable, s: byte, ghost h: HuffTbl, ghost isDC: bool)
      requires Valid() && Tabulates(h, t, isDC) && HasWord(CodeOf(h), s)
      modifies this
      ensures Valid() && done == old(done) && Proper(CodeOf(h)) && Written() == old(Written()) + Word(CodeOf(h), s)
    {
      hide Tabulates, HasWord, CodeOf, Proper, Word, BitsOf, Shl, Stuff, ByteBits;
      TableWord(h, t, isDC, s);
      EmitBits(t.ehufco[s], t.ehufsi[s]);
    }

    /** The value bits of a coefficient or difference, masked to their number. */
    method EmitValue(c: int)
      requires Valid() && NBits(Abs(c)) <= 16
      modifies this
      ensures Valid() && done == old(done) && Written() == old(Written()) + ValueBits(c)
    {
      hide BitsOf, Shl, Stuff, ByteBits, NBits, Low;
      var nbits := NBits(Abs(c));
      var temp2 := if c < 0 then c - 1 else c;
      MaskValue(temp2, nbits);
      EmitBits(LowOf(temp2, nbits), nbits);
    }

    /** flush_bits: fill the last byte with ones and empty the buffer. */
    method FlushBits() returns (ghost payload: seq<byte>, ghost pad: nat)
      requires Valid()
      modifies this
      ensures Valid() && out == old(done) + Stuff(payload) && pad < 8 && ByteBits(payload) == old(Written()) + Ones(pad)
      ensures done == out && Written() == []
    {
      hide BitsOf, ByteBits, Stuff, Shl, Low;
      ghost var before := Written();
      SevenOnes();
      ShlDouble(64, 0);
      FlushFits(putBuffer, putBits);
      Assoc(ByteBits(data), BitsOf(putBuffer, putBits), BitsOf(0x7F, 7));
      putBuffer := Low(Shl(putBuffer, 7) + 0x7F, 32);
      putBits := putBits + 7;
      assert Written() == before + Ones(7);
      while putBits >= 8
        invariant putBits <= 22 && out == old(done) + Stuff(data) && Written() == before + Ones(7)
        invariant done == old(done) && |before| <= |ByteBits(data)| + putBits
        decreases putBits
      {
        EmitByte();
      }
      payload, pad := data, 7 - putBits;
      OnesPrefix(pad, 7);
      assert ByteBits(data) == Written()[..|before| + pad];
      assert (before + Ones(7))[..|before| + pad] == before + Ones(7)[..pad];
      putBuffer, putBits := 0, 0;
      done, data := out, [];
      NoSegment(out);
    }

    /** A marker between segments. */
    method EmitMarker(m: byte)
      requires Valid() && done == out && Written() == []
      modifies this
      ensures Valid() && done == out == old(out) + [255, m] && Written() == []
    {
      out := out + [0xFF];
      out := out + [m];
      putBuffer, putBits, done, data := 0, 0, out, [];
      NoSegment(out);
    }
  }

  lemma NoSegment(out: seq<byte>)
    ensures out + Stuff([]) == out && ByteBits([]) == [] && BitsOf(0, 0) == []
  {
    assert out + [] == out;
  }

  lemma FlushFits(pb: nat, n: nat)
    requires n <= 15
    ensures Shl(pb, 7) >= 0
    ensures BitsOf(Low(Shl(pb, 7) + 0x7F, 32), n + 7) == BitsOf(pb, n) + BitsOf(0x7F, 7)
  {
    hide BitsOf, Low;
    assert Shl(1, 7) == 128;
    BitsJoin(pb, n, 0x7F, 7);
    BitsOfMasked(Shl(pb, 7) + 0x7F, 32, n + 7);
  }

  /** `v & ((1 << n) - 1)` on a two's-complement number. */
  function LowOf(v: int, n: nat): nat
    decreases n
  {
    if n == 0 then 0 else 2 * LowOf(v / 2, n - 1) + v % 2
  }

  lemma {:induction false} MaskValue(v: int, n: nat)
    ensures LowOf(v, n) < Shl(1, n) && BitsOf(LowOf(v, n), n) == BitsOf(v, n)
    decreases n
  {
    if n > 0 {
      MaskValue(v / 2, n - 1);
    }
  }
}
