/** The arithmetic encoder of jcarith.c, registers and byte output included. */
module ArithEncoder {

  import opened CodeString
  import opened ProbabilityTable
  import opened IntervalCoder

  const CARRY_LIMIT := 0x8000000          // 2^27: a carry leaves the byte above the 19 low bits
  const REGISTER_LIMIT := 0x9000000       // 2^27 + 2^24

  /** `(sv & 0x80) ^ next`: keep the sense, take the new index, flip on Switch_MPS. */
  function UpdateBin(sv: byte, next: byte): byte {
    (sv / 128 + next / 128) % 2 * 128 + next % 128
  }

  /** The packed-word update of a bin is the table's estimation procedure. */
  lemma UpdateBinMeaning(sv: byte)
    requires ValidBin(sv)
    ensures var word := JpegAritab(sv % 128).Word();
      && UpdateBin(sv, word % 256) == AfterLps(sv)
      && UpdateBin(sv, word / 256 % 256) == AfterMps(sv)
  {
    var e := JpegAritab(sv % 128);
    UnpackWord(e);
    FlipAndIndex(sv, e.switchMps, e.nextLps);
    FlipAndIndex(sv, 0, e.nextMps);
  }

  lemma FlipAndIndex(sv: byte, switch: bit, index: byte)
    requires index < 128
    ensures UpdateBin(sv, switch * 128 + index) == (if Sense(sv) != switch then 128 else 0) + index
  {
  }

  /** Bytes determined so far: emitted data, pending zeros, the buffer byte, stacked 0xFF bytes. */
  ghost function Pending(data: seq<byte>, zc: nat, buffer: int, sc: nat): seq<byte>
    requires -1 <= buffer < 256
  {
    data + Repeat(0, zc) + (if buffer >= 0 then [buffer] else []) + Repeat(255, sc)
  }

  /** Carry conservation: the pending bytes p and register C spell the exact low end. */
  ghost predicate Spells(low: nat, n: nat, p: seq<byte>, c: int, ct: int) {
    && 0 <= ct <= 11 && c >= 0
    && low == Shl(Value(p), 27 - ct) + c
    && n + ct == 11 + 8 * |p|
  }

  /** No trailing zero byte is ever written, and the buffer byte can absorb a carry. */
  ghost predicate Shortest(data: seq<byte>, zc: nat, buffer: int) {
    && -1 <= buffer < 255
    && (buffer == -1 ==> data == [] && zc == 0)
    && (data == [] || data[|data| - 1] != 0)
  }

  lemma SpellsShift(low: nat, n: nat, p: seq<byte>, c: int, ct: int)
    requires Spells(low, n, p, c, ct) && ct >= 1
    ensures Spells(2 * low, n + 1, p, 2 * c, ct - 1)
  {
  }

  lemma ShiftRegister(x: int)
    ensures Shl(x, 19) == 0x80000 * x
  {
    ShlByte(x);
    ShlByte(256 * x);
    ShlShl(x, 8, 8);
    assert Shl(x, 17) == 0x20000 * x;
  }

  lemma ShiftIntoByte(v: nat, top: int)
    ensures Shl(v, 27) + 0x80000 * top == Shl(256 * v + top, 19)
  {
    ShlPlus(256 * v, top, 19);
    ShiftRegister(top);
    ShlByte(v);
    ShlShl(v, 8, 19);
  }

  /** Moving the top of C into a new byte keeps the number spelled. */
  lemma SpellsByte(low: nat, n: nat, p: seq<byte>, c: int, p': seq<byte>)
    requires Spells(low, n, p, c, 0)
    requires |p'| == |p| + 1 && Value(p') == 256 * Value(p) + c / 0x80000
    ensures Spells(low, n, p', c % 0x80000, 8)
  {
    ShiftIntoByte(Value(p), c / 0x80000);
  }

  /** With nothing but 0xFF bytes pending, the register cannot carry. */
  lemma NoEarlyCarry(low: nat, a: nat, n: nat, sc: nat, c: int, ct: int)
    requires Spells(low, n, Repeat(255, sc), c, ct)
    requires low + a <= Shl(1, 16 + n)
    ensures Shl(c + a, ct) <= CARRY_LIMIT
  {
    var v := Value(Repeat(255, sc));
    ValueOfOnes(sc);
    ShlShl(1, 8 * sc, 27 - ct);
    ShlPlus(v, 1, 27 - ct);
    assert Shl(v, 27 - ct) + Shl(1, 27 - ct) == Shl(1, 16 + n);
    ShlMonotone(Shl(1, 27 - ct), c + a, ct);
    ShlShl(1, 27 - ct, ct);
    ShlShl(1, 19, 8);
    ShiftRegister(1);
    ShlByte(Shl(1, 19));
  }

  lemma PendingStack(data: seq<byte>, zc: nat, buffer: int, sc: nat)
    requires -1 <= buffer < 256
    ensures Pending(data, zc, buffer, sc + 1) == Pending(data, zc, buffer, sc) + [255]
  {
    Assoc(Pending(data, zc, buffer, 0), Repeat(255, sc), [255]);
  }

  lemma RepeatNext(d: seq<byte>, b: byte, k: nat)
    ensures d + Repeat(b, k + 1) == d + Repeat(b, k) + [b]
    ensures d + Repeat(b, 0) == d
  {
    Assoc(d, Repeat(b, k), [b]);
  }

  /** A carry is absorbed by the buffer byte; the stacked 0xFF bytes become pending zeros. */
  lemma PendingCarry(data: seq<byte>, zc: nat, buffer: int, sc: nat)
    requires 0 <= buffer < 255
    ensures var p, q := Pending(data, zc, buffer, sc), Pending(data + Repeat(0, zc) + [buffer + 1], sc, -1, 0);
      |q| == |p| && Value(q) == Value(p) + 1
  {
    var d := data + Repeat(0, zc);
    CarryRipple(d, buffer, sc);
    var q := d + [buffer + 1] + Repeat(0, sc);
    assert q + [] + [] == q;
  }

  /** Placing a new buffer byte behind settled data. */
  lemma PendingBuffer(data: seq<byte>, zc: nat, top: byte)
    ensures Pending(data, zc, top, 0) == Pending(data, zc, -1, 0) + [top]
  {
    var d := data + Repeat(0, zc);
    assert d + [] + [] == d;
    assert d + [top] + [] == d + [top];
  }

  lemma PendingEmpty(data: seq<byte>, zc: nat, sc: nat)
    ensures Pending(data, zc, -1, sc) == data + Repeat(0, zc) + Repeat(255, sc)
  {
    assert data + Repeat(0, zc) + [] == data + Repeat(0, zc);
  }

  /** The buffer byte joins the data if nonzero and the pending zeros otherwise. */
  lemma PendingSettled(data: seq<byte>, zc: nat, buffer: int, sc: nat, data': seq<byte>, zc': nat)
    requires -1 <= buffer < 256
    requires if buffer > 0 then data' == data + Repeat(0, zc) + [buffer] && zc' == 0
             else data' == data && zc' == (if buffer == 0 then zc + 1 else zc)
    ensures Pending(data, zc, buffer, sc) == Pending(data', zc', -1, sc)
  {
    PendingEmpty(data', zc', sc);
    Assoc(data, Repeat(0, zc), [0]);
    assert data' + [] == data';
  }

  lemma EmptyRegisters()
    ensures Pending([], 0, -1, 0) == [] && Spells(0, 0, [], 0, 11)
    ensures Shl(0x10000, 11) <= REGISTER_LIMIT && 0x10000 <= Shl(1, 16)
  {
    ShlEleven(0x10000);
    ShlSixteen(1);
    ShlPlus(0, 0, 16);
  }

  lemma NarrowRegisters(c: int, a: int, c0: int, a0: int, ct: nat)
    requires c + a <= c0 + a0
    ensures Shl(c + a, ct) <= Shl(c0 + a0, ct)
  {
    ShlMonotone(c0 + a0, c + a, ct);
  }

  /** The value chosen at the end lies in the interval and ends in fifteen zero bits. */
  lemma FinalPoint(a: int, c: int, temp: int)
    requires a >= 0x8000 && c >= 0
    requires var t := (a - 1 + c) / 0x10000 * 0x10000; temp == if t < c then t + 0x8000 else t
    ensures c <= temp < c + a && temp % 0x8000 == 0
  {
    var k := (a - 1 + c) / 0x10000;
    assert 0x10000 * k <= a - 1 + c < 0x10000 * k + 0x10000;
    if 0x10000 * k < c {
      assert temp == 0x8000 * (2 * k + 1);
    } else {
      assert temp == 0x8000 * (2 * k);
    }
  }

  lemma {:induction false} ShiftedPoint(x: int, ct: nat)
    requires x % 0x8000 == 0
    ensures Shl(x, ct) % 0x8000 == 0
  {
    if ct > 0 {
      ShiftedPoint(x, ct - 1);
    }
  }

  lemma TwoDigits(c: nat)
    ensures c / 0x800 % 65536 == 256 * (c / 0x80000 % 256) + c / 0x800 % 256
  {
    var d := c / 0x800;
    assert c / 0x80000 == d / 256;
    var e := d / 256;
    assert d == 256 * e + d % 256;
    assert e == 256 * (e / 256) + e % 256;
    assert d == 65536 * (e / 256) + (256 * (e % 256) + d % 256);
  }

  lemma FinalDigits(c: nat)
    requires c <= REGISTER_LIMIT && c % 0x8000 == 0
    ensures c / CARRY_LIMIT % 32 == c / CARRY_LIMIT == if c >= CARRY_LIMIT then 1 else 0
    ensures c / 0x800 == 65536 * (c / CARRY_LIMIT) + 256 * (c / 0x80000 % 256) + c / 0x800 % 256
    ensures c == 0x800 * (c / 0x800)
  {
    TwoDigits(c);
    var k := c / 0x8000;
    assert c == 0x800 * (16 * k);
  }

  /** No nonzero bit is dropped: the bytes chosen spell the final value exactly. */
  lemma FinalBits(x: nat, n: nat, p: seq<byte>, c: nat, ct: nat, q: seq<byte>)
    requires Spells(x, n, p, c, ct)
    requires |q| == |p| + 2 && Shl(c, ct) == 0x800 * (Value(q) - 65536 * Value(p))
    ensures Bits(q, 16 + n) == x
  {
    hide Shl, Value, Bits;
    BitsAreValue(q);
    BitsPastEnd(q, 8 * |q|, 11 - ct);
    var y := Shl(Value(q), 11 - ct);
    ShlShl(Value(q), 11 - ct, ct);
    ShlEleven(Value(q));
    ShlPlus(Shl(Value(p), 27 - ct), c, ct);
    ShlShl(Value(p), 27 - ct, ct);
    ShlEleven(65536 * Value(p));
    ShlTwentySeven(Value(p));
    ShlMonotone(x, y, ct);
    ShlMonotone(y, x, ct);
  }

  lemma FinalRegister(c: nat, a: nat, x: nat, ct: nat)
    requires c <= x < c + a && x % 0x8000 == 0 && Shl(c + a, ct) <= REGISTER_LIMIT
    ensures var w := Shl(x, ct);
      0 <= w <= REGISTER_LIMIT && w / CARRY_LIMIT % 32 == if w >= CARRY_LIMIT then 1 else 0
  {
    ShlMonotone(x, c + a, ct);
    ShiftedPoint(x, ct);
    ShlNonnegative(x, ct);
    FinalDigits(Shl(x, ct));
  }

  lemma {:induction false} ShlNonnegative(x: nat, ct: nat)
    ensures Shl(x, ct) >= 0
  {
    if ct > 0 {
      ShlNonnegative(x, ct - 1);
    }
  }

  /** The settled bytes q and the two digits of the register spell the chosen value, and so
  does any data that agrees with them up to trailing zeros. */
  lemma FinalCode(x: nat, n: nat, p: seq<byte>, c: nat, ct: nat, q: seq<byte>, data: seq<byte>)
    requires Spells(x, n, p, c, ct) && c % 0x8000 == 0
    requires var w := Shl(c, ct);
      && 0 <= w <= REGISTER_LIMIT
      && |q| == |p| && Value(q) == Value(p) + (if w >= CARRY_LIMIT then 1 else 0)
      && forall i: nat :: ByteAt(data, i) == ByteAt(q + [w / 0x80000 % 256] + [w / 0x800 % 256], i)
    ensures Bits(data, 16 + n) == x
  {
    hide Shl, Value, Bits;
    var w: nat := Shl(c, ct);
    var top: byte, second: byte := w / 0x80000 % 256, w / 0x800 % 256;
    ShiftedPoint(c, ct);
    FinalDigits(w);
    ValueAppend(q, top);
    ValueAppend(q + [top], second);
    FinalBits(x, n, p, c, ct, q + [top] + [second]);
    BitsCongruent(data, q + [top] + [second], 16 + n);
  }

  lemma ShlEleven(v: int)
    ensures Shl(v, 11) == 0x800 * v
  {
    ShlByte(v);
    assert Shl(v, 9) == 2 * Shl(v, 8);
    assert Shl(v, 10) == 2 * Shl(v, 9);
  }

  lemma ShlTwentySeven(v: int)
    ensures Shl(v, 27) == CARRY_LIMIT * v
  {
    ShiftRegister(v);
    ShlShl(v, 19, 8);
    ShlByte(Shl(v, 19));
  }

  predicate Round(y: int) {
    y % 0x10000 == 0
  }

  /** x is the point of [low, low + a) with the most trailing zero bits. */
  predicate Roundest(x: int, low: int, a: int) {
    && low <= x < low + a && x % 0x8000 == 0
    && (Round(x) || (low + a - 1) % 0x10000 >= a)
  }

  lemma RoundestPoint(c: nat, a: nat, x: int)
    requires 0x8000 <= a <= 0x10000
    requires var t := (a - 1 + c) / 0x10000 * 0x10000; x == if t < c then t + 0x8000 else t
    ensures Roundest(x, c, a)
  {
    FinalPoint(a, c, x);
  }

  lemma RoundestShift(x: int, low: int, a: int, k: int)
    requires Roundest(x, low, a)
    ensures Roundest(x + 0x10000 * k, low + 0x10000 * k, a)
  {
    AddSteps(low + a - 1, k);
    AddSteps(x, k);
  }

  lemma AddSteps(v: int, k: int)
    ensures (v + 0x10000 * k) % 0x10000 == v % 0x10000
    ensures (v + 0x10000 * k) % 0x8000 == v % 0x8000
  {
    AddHalfSteps(v, k);
    var q := v / 0x10000;
    assert v + 0x10000 * k == 0x10000 * (q + k) + v % 0x10000;
  }

  lemma AddHalfSteps(v: int, k: int)
    ensures (v + 0x10000 * k) % 0x8000 == v % 0x8000
  {
    var h := v / 0x8000;
    assert v + 0x10000 * k == 0x8000 * (h + 2 * k) + v % 0x8000;
  }

  /** The interval has at most one multiple of 2^16, and x is it if there is one. */
  lemma RoundestUnique(x: int, low: int, a: int, y: int)
    requires Roundest(x, low, a) && low <= y < low + a <= low + 0x10000 && Round(y)
    ensures x == y
  {
    var k := y / 0x10000;
    assert (low + a - 1) % 0x10000 == (low + a - 1 - y) % 0x10000 == low + a - 1 - y;
  }

  /** The register sits a whole number of 2^16 steps below the exact low end. */
  lemma RoundestExact(x: int, low: nat, a: nat, n: nat, p: seq<byte>, c: nat, ct: nat)
    requires Spells(low, n, p, c, ct) && Roundest(x, c, a)
    ensures Roundest(low + x - c, low, a)
  {
    var v := Shl(Value(p), 11 - ct);
    ShlShl(Value(p), 11 - ct, 16);
    ShlSixteen(v);
    RoundestShift(x, c, a, v);
  }

  /** No shorter string of bytes falls into the interval. */
  lemma ShortestCode(data: seq<byte>, s: Coder, other: seq<byte>)
    requires data == [] || data[|data| - 1] != 0
    requires 8 * |data| <= 16 + s.n && s.a <= 0x10000
    requires Roundest(Bits(data, 16 + s.n), s.low, s.a) && Inside(other, s)
    ensures |data| <= |other|
  {
    hide Bits, Shl;
    var m := |data| - 1;
    if |other| <= m {
      var g := 16 + s.n - 8 * m;
      var x, y := Bits(data, 16 + s.n), Bits(other, 16 + s.n);
      BitsPastEnd(other, 8 * m, g);
      BitsPastEnd(data, 8 * (m + 1), g - 8);
      BitsOfByte(data, m);
      var b := Bits(data, 8 * m);
      if g < 16 {
        FineGrid(b, data[m], g);
      } else {
        ShlSixteen(Shl(Bits(other, 8 * m), g - 16));
        ShlShl(Bits(other, 8 * m), g - 16, 16);
        RoundestUnique(x, s.low, s.a, y);
        GridMiss(b, data[m], Bits(other, 8 * m), g);
      }
    }
  }

  lemma AllCodesAreLonger(data: seq<byte>, s: Coder)
    requires data == [] || data[|data| - 1] != 0
    requires 8 * |data| <= 16 + s.n && s.a <= 0x10000
    requires Roundest(Bits(data, 16 + s.n), s.low, s.a)
    ensures forall other :: Inside(other, s) ==> |data| <= |other|
  {
    forall other | Inside(other, s)
      ensures |data| <= |other|
    {
      ShortestCode(data, s, other);
    }
  }

  lemma ShlSixteen(v: int)
    ensures Shl(v, 16) == 0x10000 * v
  {
    ShlByte(v);
    ShlByte(256 * v);
    ShlShl(v, 8, 8);
  }

  lemma FineGrid(b: nat, last: byte, g: nat)
    requires 8 <= g < 16 && last != 0
    ensures Shl(256 * b + last, g - 8) % 0x8000 != 0
  {
    hide Shl;
    var x := Shl(256 * b + last, g - 8);
    if x % 0x8000 == 0 {
      var z := x / 0x8000;
      ShlFifteen(z);
      ShlShl(z, 15 - g, g);
      GridMiss(b, last, Shl(z, 15 - g), g);
    }
  }

  /** A nonzero last byte leaves a point that is no multiple of the coarser grid 2^g. */
  lemma GridMiss(b: nat, last: byte, y: int, g: nat)
    requires g >= 8 && last != 0
    ensures Shl(256 * b + last, g - 8) != Shl(y, g)
  {
    hide Shl;
    ShlShl(y, 8, g - 8);
    ShlByte(y);
    ShlMonotone(256 * b + last, 256 * y, g - 8);
    ShlMonotone(256 * y, 256 * b + last, g - 8);
  }

  lemma ShlFifteen(v: int)
    ensures Shl(v, 15) == 0x8000 * v
  {
    ShlEleven(v);
    assert Shl(v, 13) == 4 * Shl(v, 11);
  }

  class Encoder {
    var c: int                  // C register, base of the coding interval
    var a: int                  // A register, size of the coding interval
    var sc: nat                 // stacked 0xFF bytes that may still overflow
    var zc: nat                 // pending zero bytes that may be discarded at the end
    var ct: int                 // shifts left before the next byte is due
    var buffer: int             // most recent output byte other than 0xFF, -1 if none
    var dest: seq<byte>         // bytes handed to the destination
    const bins: array<byte>     // the statistics areas, side by side

    ghost var low: nat          // exact low end of the interval, doubled n times
    ghost var n: nat
    ghost var done: seq<byte>   // bytes written before this segment began
    ghost var data: seq<byte>   // this segment's bytes before stuffing

    ghost function Interval(): Coder
      requires a >= 0
      reads this, bins
    {
      Coder(low, a, n, bins[..])
    }

    ghost predicate Output()
      reads this
    {
      dest == done + Stuff(data) && Shortest(data, zc, buffer)
    }

    ghost predicate Registers()
      reads this
    {
      && -1 <= buffer < 255
      && Spells(low, n, Pending(data, zc, buffer, sc), c, ct)
      && a > 0 && low + a <= Shl(1, 16 + n)
      && Shl(c + a, ct) <= REGISTER_LIMIT
    }

    ghost predicate Valid()
      reads this, bins
    {
      && Output() && Registers()
      && 0x8000 <= a <= 0x10000 && ct >= 1
      && ValidBins(bins[..])
    }

    /** Registers empty, statistics as given, nothing written. */
    constructor (stats: seq<byte>)
      requires ValidBins(stats)
      ensures Valid() && fresh(bins) && bins.Length == |stats|
      ensures Interval() == Start(stats) && dest == done == []
    {
      bins := new byte[|stats|](i requires 0 <= i < |stats| => stats[i]);
      c, a, sc, zc, ct, buffer := 0, 0x10000, 0, 0, 11, -1;
      dest, low, n, done, data := [], 0, 0, [], [];
      new;
      assert bins[..] == stats;
      EmptyRegisters();
    }

    /** Begin a new segment behind what has been written. */
    method Reset()
      requires ValidBins(bins[..])
      modifies this
      ensures Valid() && Interval() == Start(bins[..]) && dest == done == old(dest)
    {
      hide Shl, Value, Spells, Pending;
      c, a, sc, zc, ct, buffer := 0, 0x10000, 0, 0, 11, -1;
      low, n, done, data := 0, 0, dest, [];
      assert done + Stuff([]) == done;
      EmptyRegisters();
    }

    method EmitByte(val: byte)
      modifies this`dest
      ensures dest == old(dest) + [val]
    {
      dest := dest + [val];
    }

    /** Write out all pending zero bytes. */
    method EmitZeros()
      requires dest == done + Stuff(data)
      modifies this`dest, this`zc, this`data
      ensures dest == done + Stuff(data)
      ensures zc == 0 && data == old(data) + Repeat(0, old(zc))
    {
      hide Stuff, Repeat;
      ghost var d0, k := data, 0;
      RepeatNext(d0, 0, 0);
      while zc > 0
        invariant k + zc == old(zc) && data == d0 + Repeat(0, k)
        invariant dest == done + Stuff(data)
        decreases zc
      {
        EmitByte(0);
        StuffAppend(data, 0);
        RepeatNext(d0, 0, k);
        Assoc(done, Stuff(data), [0]);
        data := data + [0];
        k := k + 1;
        zc := zc - 1;
      }
    }

    /** Write one data byte, with the stuffed zero it may need. */
    method EmitData(val: byte)
      requires dest == done + Stuff(data)
      modifies this`dest, this`data
      ensures dest == done + Stuff(data) && data == old(data) + [val]
    {
      EmitByte(val);
      if val == 0xFF {
        EmitByte(0x00);
      }
      StuffAppend(data, val);
      data := data + [val];
    }

    /** Write out the stacked 0xFF bytes, which will not overflow any more. */
    method EmitStack()
      requires dest == done + Stuff(data)
      modifies this`dest, this`sc, this`data
      ensures dest == done + Stuff(data)
      ensures sc == 0 && data == old(data) + Repeat(255, old(sc))
    {
      hide Stuff, Repeat;
      ghost var d0, k := data, 0;
      RepeatNext(d0, 255, 0);
      while sc > 0
        invariant k + sc == old(sc) && data == d0 + Repeat(255, k)
        invariant dest == done + Stuff(data)
        decreases sc
      {
        EmitData(0xFF);
        RepeatNext(d0, 255, k);
        k := k + 1;
        sc := sc - 1;
      }
    }

    /** Overflow: the buffer byte takes the carry, stacked 0xFF bytes turn into zeros. */
    method CarryBuffer()
      requires Output() && buffer >= 0
      modifies this`dest, this`zc, this`sc, this`data
      ensures dest == done + Stuff(data) && data != [] && data[|data| - 1] != 0
      ensures sc == 0
      ensures |Pending(data, zc, -1, 0)| == |old(Pending(data, zc, buffer, sc))|
      ensures Value(Pending(data, zc, -1, 0)) == Value(old(Pending(data, zc, buffer, sc))) + 1
    {
      PendingCarry(data, zc, buffer, sc);
      if buffer >= 0 {
        EmitZeros();
        EmitData(buffer + 1);
      }
      zc := zc + sc;
      sc := 0;
    }

    /** No overflow: everything pending is settled, zeros held back as long as possible. */
    method SettleBuffer()
      requires Output()
      modifies this`dest, this`zc, this`sc, this`data
      ensures dest == done + Stuff(data) && (data == [] || data[|data| - 1] != 0)
      ensures sc == 0
      ensures Pending(data, zc, -1, 0) == old(Pending(data, zc, buffer, sc))
    {
      ghost var d0, z0 := data, zc;
      if buffer == 0 {
        zc := zc + 1;
      } else if buffer >= 0 {
        EmitZeros();
        EmitData(buffer);
      }
      PendingSettled(d0, z0, buffer, sc, data, zc);
      if sc > 0 {
        PendingEmpty(data, zc, sc);
        EmitZeros();
        EmitStack();
        PendingEmpty(data, 0, 0);
        assert data + [] + [] == data;
      }
    }

    /** Another byte is ready for output. */
    method ByteOut()
      requires Output() && Registers() && ct == 0 && a <= 0x10000
      modifies this`c, this`ct, this`buffer, this`dest, this`zc, this`sc, this`data
      ensures Output() && Registers() && ct == 8
    {
      hide Stuff, Value, Repeat, Pending;
      ghost var p := Pending(data, zc, buffer, sc);
      var temp := c / 0x80000;
      if temp > 0xFF {
        CarryHasBuffer(c);
      }
      PlaceByte(temp);
      SpellsByte(low, n, p, c, Pending(data, zc, buffer, sc));
      c := c % 0x80000;
      ct := ct + 8;
      ShlByte(c + a);
    }

    /** The top of the register, carry included, joins the pending bytes. */
    method PlaceByte(temp: int)
      requires Output() && 0 <= temp < 0x120
      requires temp > 0xFF ==> buffer >= 0
      modifies this`buffer, this`dest, this`zc, this`sc, this`data
      ensures Output()
      ensures |Pending(data, zc, buffer, sc)| == |old(Pending(data, zc, buffer, sc))| + 1
      ensures Value(Pending(data, zc, buffer, sc)) == 256 * Value(old(Pending(data, zc, buffer, sc))) + temp
    {
      hide Stuff, Value, Repeat, Pending;
      ghost var p := Pending(data, zc, buffer, sc);
      if temp > 0xFF {
        CarryBuffer();
        buffer := temp % 256;
        PendingBuffer(data, zc, buffer);
        ValueAppend(Pending(data, zc, -1, 0), buffer);
      } else if temp == 0xFF {
        PendingStack(data, zc, buffer, sc);
        ValueAppend(p, 255);
        sc := sc + 1;
      } else {
        SettleBuffer();
        buffer := temp % 256;
        PendingBuffer(data, zc, buffer);
        ValueAppend(p, buffer);
      }
    }

    /** No overflow can occur before a first byte sits in the buffer. */
    lemma CarryHasBuffer(x: int)
      requires Output() && Registers() && x < c + a && Shl(x, ct) >= CARRY_LIMIT
      ensures buffer >= 0
    {
      if buffer == -1 {
        PendingEmpty(data, zc, sc);
        assert [] + Repeat(0, 0) + Repeat(255, sc) == Repeat(255, sc);
        NoEarlyCarry(low, a, n, sc, c, ct);
        ShlMonotone(x, c + a, ct);
      }
    }

    /** The core encoding routine: one decision against one statistics bin. */
    method ArithEncode(st: nat, val: bit)
      requires Valid() && st < bins.Length
      modifies this, bins
      ensures Valid() && done == old(done)
      ensures Interval() == Step(old(Interval()), Decision(st, val))
    {
      hide Stuff, Value, Repeat, JpegAritab, Pending, Shortest, AfterLps, AfterMps, UpdateBin, Shl;
      var sv := bins[st];
      var qe := JpegAritab(sv % 128).Word();
      UnpackWord(JpegAritab(sv % 128));
      UpdateBinMeaning(sv);
      var nl := qe % 256;
      qe := qe / 256;
      var nm := qe % 256;
      qe := qe / 256;
      ghost var next := Split(Interval(), st, val);
      SplitValid(Interval(), st, val);

      a := a - qe;
      if val != sv / 128 {
        if a >= qe {
          c := c + a;
          low := low + a;
          a := qe;
        }
        bins[st] := UpdateBin(sv, nl);
      } else {
        if a >= 0x8000 {
          NarrowRegisters(c, a, old(c), old(a), ct);
          return;
        }
        if a < qe {
          c := c + a;
          low := low + a;
          a := qe;
        }
        bins[st] := UpdateBin(sv, nm);
      }
      assert Interval() == next;
      NarrowRegisters(c, a, old(c), old(a), ct);
      Renormalise();
    }

    /** Renormalization and data output. */
    method Renormalise()
      requires Output() && Registers() && ct >= 1 && a < 0x8000 && ValidBins(bins[..])
      modifies this
      ensures Valid() && done == old(done)
      ensures Interval() == Renorm(old(Interval()))
    {
      hide Stuff, Value, Repeat, Pending, Spells, Shortest, Shl, ValidBins;
      while a < 0x8000
        invariant Output() && Registers() && ct >= 1 && a <= 0x10000 && done == old(done)
        invariant Renorm(Interval()) == Renorm(old(Interval()))
        decreases 0x8000 - a
      {
        SpellsShift(low, n, Pending(data, zc, buffer, sc), c, ct);
        ShlTwice(c + a, ct - 1);
        ShlDouble(1, 16 + n);
        a := 2 * a;
        c := 2 * c;
        low := 2 * low;
        n := n + 1;
        ct := ct - 1;
        if ct == 0 {
          ByteOut();
        }
      }
    }

    /** Section D.1.8: settle on the value in the interval with the most trailing zeros and
    write its bytes, dropping zero bytes from the end.  What is written, read back with
    zeros supplied past its end, lies in the interval. */
    method FinishPass()
      requires Valid()
      modifies this
      ensures dest == done + Stuff(data) && done == old(done)
      ensures data == [] || data[|data| - 1] != 0
      ensures Inside(data, old(Interval()))
      ensures forall other :: Inside(other, old(Interval())) ==> |data| <= |other|
    {
      hide Stuff, Value, Repeat, Pending, Shl, Bits;
      ghost var p := Pending(data, zc, buffer, sc);
      var temp := (a - 1 + c) / 0x10000 * 0x10000;
      if temp < c {
        temp := temp + 0x8000;
      }
      FinalPoint(a, c, temp);
      RoundestPoint(c, a, temp);
      RoundestExact(temp, low, a, n, p, c, ct);
      FinalRegister(c, a, temp, ct);
      if Shl(temp, ct) >= CARRY_LIMIT {
        CarryHasBuffer(temp);
      }
      c := Shl(temp, ct);
      if c / CARRY_LIMIT % 32 != 0 {
        CarryBuffer();
      } else {
        SettleBuffer();
      }
      ghost var q := Pending(data, zc, -1, 0);
      EmitFinalBytes();
      FinalCode(low + temp - old(c), n, p, temp, ct, q, data);
      AllCodesAreLonger(data, old(Interval()));
    }

    /** Output the last two bytes only as far as they are not zero. */
    method EmitFinalBytes()
      requires dest == done + Stuff(data) && (data == [] || data[|data| - 1] != 0) && c >= 0
      modifies this`dest, this`zc, this`data
      ensures dest == done + Stuff(data) && (data == [] || data[|data| - 1] != 0)
      ensures var q := old(Pending(data, zc, -1, 0)) + [c / 0x80000 % 256] + [c / 0x800 % 256];
        |data| <= |q| && forall i: nat :: ByteAt(data, i) == ByteAt(q, i)
    {
      hide Stuff, Repeat, Pending;
      var top, second := c / 0x80000 % 256, c / 0x800 % 256;
      TwoDigits(c);
      PendingEmpty(data, zc, 0);
      assert Repeat(255, 0) == [];
      if c / 0x800 % 65536 != 0 {
        EmitZeros();
        EmitData(top);
        if c / 0x800 % 256 != 0 {
          EmitData(second);
        }
      }
    }
  }
}
