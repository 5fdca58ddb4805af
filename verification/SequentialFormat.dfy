/** What sequential Huffman coding sends and reads, in plain numbers: value bits, run and size
symbols, the end of block, predictions and restart markers, as Annexes B, E and F of ITU-T
Rec. T.81 fix them.  The laws for sending and for reading do not rest on one another. */
module SequentialFormat {

  import opened Wrappers
  import opened CodeString
  import opened PrefixCode
  import opened DerivedTables
  import opened BitStream
  import opened CodedItems
  import opened ZigZag
  import opened Coefficients
  import opened SequentialSpec
  import opened SequentialScan
  import opened SequentialGather
  import CanonicalCode

  /** A magnitude of n bits. */
  ghost predicate Bits(c: int, n: nat) {
    if n == 0 then c == 0 else Shl(1, n - 1) <= Abs(c) < Shl(1, n)
  }

  /** Section F.1.2.1.1: a value is sent in as many bits as its magnitude has, a positive one as it
  is, a negative one less one in two's complement. */
  lemma ValueLaw(c: int, n: nat)
    requires Bits(c, n)
    ensures NBits(Abs(c)) == n && |ValueBits(c)| == n
    ensures Number(ValueBits(c)) == if c >= 0 then c else Shl(1, n) - 1 + c
  {
    hide Number, BitsOf;
    SizeLaw(Abs(c), n);
    if c > 0 {
      NumberOfBits(c, n);
    } else if c < 0 {
      var w := Shl(1, n) + (c - 1);
      ShlDouble(1, n - 1);
      BitsOfLow(-1, w, n);
      ShlMinus(n);
      NumberOfBits(w, n);
    } else {
      NoBits();
    }
  }

  lemma NoBits()
    ensures Number(BitsOf(0, 0)) == 0
  {
  }

  lemma {:induction false} SizeLaw(v: nat, n: nat)
    requires if n == 0 then v == 0 else Shl(1, n - 1) <= v < Shl(1, n)
    ensures NBits(v) == n
  {
    if n > 0 {
      CanonicalCode.ShlPositive(n - 1);
      if n > 1 {
        ShlDouble(1, n - 2);
        SizeLaw(v / 2, n - 1);
      } else {
        assert v == 1;
      }
    }
  }

  /** Section F.2.2.1 and Figure F.12: bits read for size n are the value itself if the first is
  one, and 2^n - 1 too much if it is zero. */
  lemma ExtendLaw(n: nat, t: seq<bit>)
    requires 0 < n <= |t|
    ensures ReadValue(n, t) == Some((if t[0] == 1 then Number(t[..n]) else Number(t[..n]) - Shl(1, n) + 1, t[n..]))
  {
    hide Number, Shl;
    var x := t[..n];
    TopBitTells(x);
  }

  lemma TopBitTells(x: seq<bit>)
    requires x != []
    ensures Number(x) < Shl(1, |x| - 1) <==> x[0] == 0
  {
    hide Number, Shl;
    assert x == [x[0]] + x[1..];
    NumberPlus([x[0]], x[1..]);
    NumberBound(x[1..]);
    OneBit(x[0]);
    ShlBit(x[0], |x| - 1);
  }

  lemma OneBit(b: bit)
    ensures Number([b]) == b
  {
    assert [b][..0] == [];
    assert Number([]) == 0;
  }

  lemma ShlBit(b: bit, e: nat)
    ensures Shl(b, e) == if b == 1 then Shl(1, e) else 0
  {
    CanonicalCode.ShlOfZero(e);
  }

  function Times16(n: nat): (items: seq<Item>)
    ensures |items| == n && forall i :: 0 <= i < n ==> items[i] == Sym(0xF0)
  {
    seq(n, _ => Sym(0xF0))
  }

  /** Section F.1.2.2 from coefficient k with r zeros before it, ke the next that is not zero: the
  end of block is symbol 0x00; else there is 0xF0 for every sixteen zeros, then four bits of run
  and four of size in one symbol, then the value. */
  lemma {:induction false} AcLaw(v: seq<int>, k: nat, r: nat, ke: nat)
    requires IsBlock(v) && |v| == 64 && k <= ke <= 64 && (forall j :: k <= j < ke ==> v[j] == 0) && (ke < 64 ==> v[ke] != 0)
    ensures ke == 64 ==> AcItems(v, k, r) == if k < 64 || r > 0 then [Sym(0)] else []
    ensures ke < 64 ==>
      var z, n := r + ke - k, NBits(Abs(v[ke]));
      && n <= 15 && AcItems(v, k, r) == Times16(z / 16) + ([Sym(z % 16 * 16 + n), Raw(ValueBits(v[ke]))] + AcItems(v, ke + 1, 0))
    decreases ke - k, r
  {
    hide NBits, ValueBits, Times16, AcItems, IsBlock;
    AcUnfolds(v, k, r);
    if k < ke {
      AcLaw(v, k + 1, r + 1, ke);
    } else if ke < 64 {
      var rest := [Sym(r % 16 * 16 + NBits(Abs(v[ke]))), Raw(ValueBits(v[ke]))] + AcItems(v, ke + 1, 0);
      if r > 15 {
        AcLaw(v, k, r - 16, ke);
        assert Times16(r / 16) == [Sym(0xF0)] + Times16(r / 16 - 1);
        Assoc([Sym(0xF0)], Times16(r / 16 - 1), rest);
      } else {
        assert Times16(0) + rest == rest;
      }
    }
  }

  /** The bits of a block begin with the code word for the size of its DC difference and the
  difference itself, then come those of its AC coefficients, ended by the word of 0x00 if the last
  coefficient is zero. */
  lemma BlockLaw(c: Component, last: int, v: seq<int>, n: nat)
    requires ValidTables(c) && IsBlock(v) && |v| == 64 && Fits(last) && Bits(v[0] - last, n)
    ensures n <= 16 && BlockBits(c, last, v)
      == Word(CodeOf(c.dc), n) + ValueBits(v[0] - last) + Spell(CodeOf(c.ac), AcItems(v, 1, 0))
    ensures v[63] == 0 ==>
      var items := AcItems(v, 1, 0);
      items != [] && Spell(CodeOf(c.ac), items) == Spell(CodeOf(c.ac), items[..|items| - 1]) + Word(CodeOf(c.ac), 0)
  {
    hide NBits, ValueBits, AcItems, CodeOf, Accepted, Encodable, Word, Proper;
    DiffFits(v[0], last);
    ValueLaw(v[0] - last, n);
    var h := CodeOf(c.dc);
    SpellTwo(h, n, ValueBits(v[0] - last), [], []);
    NothingSpelled(h);
    assert DcItems(v[0] - last) + [] == DcItems(v[0] - last);
    NoTail(Spell(h, DcItems(v[0] - last)), Word(h, n), ValueBits(v[0] - last));
    if v[63] == 0 {
      var items := AcItems(v, 1, 0);
      EobLaw(v, 1, 0);
      CountedIsSent(items, 0);
      var m := |items| - 1;
      assert items == items[..m] + [items[m]] && items[m] == Sym(0);
      SpellNext(CodeOf(c.ac), items[..m], Sym(0));
    }
  }

  /** The blocks of an MCU in order, each predicted from the last one of its component. */
  lemma McuLaw(sc: Scan, last: seq<int>, m: seq<seq<int>>, i: nat)
    requires ValidScan(sc) && ValidLast(sc, last) && ValidMcu(sc, m) && i <= |m|
    ensures i == |m| ==> McuBits(sc, last, m, i) == []
    ensures i < |m| ==>
      var ci := sc.membership[i];
      && IsBlock(m[i]) && |m[i]| == 64
      && McuBits(sc, last, m, i) == BlockBits(sc.comps[ci], last[ci], m[i]) + McuBits(sc, last[ci := m[i][0]], m, i + 1)
  {
    hide BlockBits, ValidTables;
  }

  lemma NoTail(s: seq<bit>, a: seq<bit>, b: seq<bit>)
    requires s + [] == a + (b + ([] + []))
    ensures s == a + b
  {
    assert s + [] == s && b + ([] + []) == b;
  }

  /** Section F.2.2.2, one symbol at a time: 0x00 ends the block, 0xF0 passes sixteen
  coefficients, any other symbol passes its run and stores a value of its size, in the last place if
  the run leads past it. */
  lemma ReadAcLaw(h: Code, c: seq<int>, k: nat, s: byte, t: seq<bit>)
    requires Proper(h) && HasWord(h, s) && |c| == 64 && k < 64
    ensures s == 0 ==> ReadAc(h, c, k, Word(h, s) + t) == Some((c, t))
    ensures s == 0xF0 ==> ReadAc(h, c, k, Word(h, s) + t) == ReadAc(h, c, k + 16, t)
    ensures 0 < s % 16 <= |t| ==>
      var n := s % 16;
      var x := if t[0] == 1 then Number(t[..n]) else Number(t[..n]) - Shl(1, n) + 1;
      ReadAc(h, c, k, Word(h, s) + t) == ReadAc(h, c[if k + s / 16 < 64 then k + s / 16 else 63 := x], k + s / 16 + 1, t[n..])
  {
    hide Proper, Word, HasWord, ReadSym, Number, Shl, ReadValue;
    ReadWordBack(h, s, t);
    if 0 < s % 16 <= |t| {
      ExtendLaw(s % 16, t);
    }
  }

  /** The DC difference, and the coefficient it gives on top of the prediction. */
  lemma ReadBlockLaw(c: Component, last: int, z: seq<int>, n: byte, t: seq<bit>)
    requires ValidTables(c) && HasWord(CodeOf(c.dc), n) && |z| == 64 && n <= |t|
    ensures n > 0 ==>
      var d := if t[0] == 1 then Number(t[..n]) else Number(t[..n]) - Shl(1, n) + 1;
      ReadBlock(c, last, z, Word(CodeOf(c.dc), n) + t) == WithDc(c, z, last + d, t[n..])
    ensures n == 0 ==> ReadBlock(c, last, z, Word(CodeOf(c.dc), n) + t) == WithDc(c, z, last, t)
  {
    hide Accepted, Encodable, Proper, Word, HasWord, ReadSym, Number, Shl, ReadValue, ReadAc, CodeOf;
    ReadWordBack(CodeOf(c.dc), n, t);
    if n > 0 {
      ExtendLaw(n, t);
    } else {
      NoValue(t);
    }
  }

  lemma NoValue(t: seq<bit>)
    ensures ReadValue(0, t) == Some((0, t))
  {
  }

  /** A block with DC coefficient x, its AC coefficients still to be read. */
  ghost function WithDc(c: Component, z: seq<int>, x: int, t: seq<bit>): Option<(seq<int>, int, seq<bit>)>
    requires ValidTables(c) && |z| == 64
  {
    var a := ReadAc(CodeOf(c.ac), z[0 := (x + 32768) % 65536 - 32768], 1, t);
    if a.None? then None else Some((a.value.0, x, a.value.1))
  }

  /** What is accepted as the coefficients of 8-bit samples. */
  lemma RangeLaw(last: int, v: seq<int>)
    requires IsBlock(v) && |v| == 64
    ensures SequentialGather.BlockInRange(last, v) <==> -2048 < v[0] - last < 2048 && forall j :: 1 <= j < 64 ==> -1024 < v[j] < 1024
  {
    hide NBits;
    SizeAtMost(Abs(v[0] - last), 11);
    forall j | 1 <= j < 64
      ensures NBits(Abs(v[j])) <= 10 <==> -1024 < v[j] < 1024
    {
      SizeAtMost(Abs(v[j]), 10);
      assert Shl(1, 10) == 1024;
    }
    assert Shl(1, 11) == 2048;
  }

  lemma SizeAtMost(v: nat, n: nat)
    ensures NBits(v) <= n <==> v < Shl(1, n)
  {
    if v < Shl(1, n) {
      NBitsFits(v, n);
    } else {
      CanonicalCode.ShlPositive(n);
      NBitsBounds(v);
      if NBits(v) <= n {
        CanonicalCode.ShlGrows(n, NBits(v));
      }
    }
  }

  /** Section E.1.4: with a restart interval of r, each segment holds r MCUs, the last one what is
  left, and each begins with predictions of zero. */
  lemma {:induction false} SegmentsLaw(sc: Scan, ms: seq<mcu>, togo: nat, last: seq<int>)
    requires ValidScan(sc) && ValidLast(sc, last) && (forall m :: m in ms ==> ValidMcu(sc, m)) && sc.restartInterval > 0
    ensures |ms| <= togo ==> |Segments(sc, ms, togo, last)| == 1
    ensures |ms| > togo ==>
      var zeros: seq<int> := seq(|sc.comps|, _ => 0);
      ValidLast(sc, zeros) && Segments(sc, ms, togo, last)
      == Segments(sc, ms[..togo], togo, last) + Segments(sc, ms[togo..], sc.restartInterval, zeros)
  {
    hide ValidScan, McuBits, McuLast, ValidMcu;
    var zeros: seq<int> := seq(|sc.comps|, _ => 0);
    if ms != [] {
      if togo > 0 {
        LastStaysValid(sc, last, ms[0]);
        SegmentsLaw(sc, ms[1..], togo - 1, McuLast(sc, last, ms[0], 0));
        if |ms| > togo {
          assert ms[..togo][0] == ms[0] && ms[..togo][1..] == ms[1..][..togo - 1] && ms[1..][togo - 1..] == ms[togo..];
          SegmentsLaw(sc, ms[..togo], togo, last);
          OntoFirst(McuBits(sc, last, ms[0], 0), Segments(sc, ms[1..][..togo - 1], togo - 1, McuLast(sc, last, ms[0], 0)),
            Segments(sc, ms[togo..], sc.restartInterval, zeros));
        }
      } else {
        assert ms[..0] == [] && ms[0..] == ms;
        assert zeros == NoLast(sc);
      }
    }
  }

  lemma LastStaysValid(sc: Scan, l: seq<int>, x: seq<seq<int>>)
    requires ValidScan(sc) && ValidLast(sc, l) && ValidMcu(sc, x)
    ensures ValidLast(sc, McuLast(sc, l, x, 0))
  {
  }

  lemma OntoFirst(bits: seq<bit>, a: seq<seq<bit>>, b: seq<seq<bit>>)
    requires a != []
    ensures Onto(bits, a + b) == Onto(bits, a) + b
  {
  }

  /** Segments follow one another with the markers RST0 to RST7 between them, in turn; the same
  marker is what the decoder waits for. */
  lemma FileLaw(ps: seq<seq<byte>>, num: nat, m: byte, after: seq<byte>)
    requires num < 8 && ps != []
    ensures FileFrom(ps, num, m, after) == Stuff(ps[0])
      + if |ps| == 1 then [255, m] + after else [255, 0xD0 + num] + FileFrom(ps[1..], (num + 1) % 8, m, after)
    ensures Rst(num) == 0xD0 + num
  {
  }
}
