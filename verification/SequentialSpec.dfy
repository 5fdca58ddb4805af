/** Huffman coding of sequential blocks (section F.1.2 and F.2.2 of ITU-T Rec. T.81): what is
sent for a block, how it is read, and that reading undoes sending. */
module SequentialSpec {

  import opened Wrappers
  import opened CodeString
  import opened PrefixCode
  import opened CodedItems
  import opened ZigZag
  import opened Coefficients
  import CanonicalCode

  /** The number of bits of a magnitude. */
  function NBits(v: nat): nat
    decreases v
  {
    if v == 0 then 0 else 1 + NBits(v / 2)
  }

  /** The bits sent for a value of the given size: a negative value goes as its ones' complement. */
  function ValueBits(c: int): seq<bit> {
    BitsOf(if c < 0 then c - 1 else c, NBits(Abs(c)))
  }

  /** Figure F.12: extend the sign bit. */
  function Extend(x: nat, s: nat): int
    requires s > 0
  {
    if x < Shl(1, s - 1) then x - Shl(1, s) + 1 else x
  }

  lemma {:induction false} NBitsBounds(v: nat)
    requires v > 0
    ensures NBits(v) > 0 && Shl(1, NBits(v) - 1) <= v < Shl(1, NBits(v))
  {
    if v > 1 {
      NBitsBounds(v / 2);
    }
  }

  lemma {:induction false} NBitsFits(v: nat, n: nat)
    requires v < Shl(1, n)
    ensures NBits(v) <= n
    decreases n
  {
    if v > 0 {
      if n > 0 {
        NBitsFits(v / 2, n - 1);
      }
    }
  }

  /** Extending the sign of the bits sent gives the value back. */
  lemma ExtendValue(c: int)
    requires c != 0
    ensures NBits(Abs(c)) > 0 && Extend(Number(ValueBits(c)), NBits(Abs(c))) == c
  {
    hide Shl, Number, BitsOf;
    var n := NBits(Abs(c));
    NBitsBounds(Abs(c));
    ShlDouble(1, n - 1);
    if c > 0 {
      NumberOfBits(c, n);
    } else {
      var w := Shl(1, n) + (c - 1);
      BitsOfLow(-1, w, n);
      ShlMinus(n);
      NumberOfBits(w, n);
    }
  }

  lemma {:induction false} ShlMinus(n: nat)
    ensures Shl(-1, n) == -Shl(1, n)
  {
    if n > 0 {
      ShlMinus(n - 1);
    }
  }

  /** Coefficients of 8-bit samples have at most this many bits. */
  const MAX_COEF_BITS := 10

  const ZRL: byte := 0xF0
  const EOB: byte := 0

  /** Section F.1.2.1: the difference category and its bits. */
  function DcItems(diff: int): seq<Item>
    requires NBits(Abs(diff)) <= 255
  {
    [Sym(NBits(Abs(diff))), Raw(ValueBits(diff))]
  }

  /** Coefficients as the coder takes them: of at most 15 bits. */
  predicate IsBlock(v: seq<int>) {
    |v| == DCTSIZE2 && forall k :: 0 <= k < DCTSIZE2 ==> -0x8000 < v[k] < 0x8000
  }

  lemma SmallValue(c: int)
    requires -0x8000 < c < 0x8000
    ensures NBits(Abs(c)) <= 15
  {
    ShlByte(128);
    CanonicalCode.SixteenBits();
    ShlDouble(1, 15);
    NBitsFits(Abs(c), 15);
  }

  /** Section F.1.2.2: run/size symbols from coefficient k on, r zeros having been passed. */
  function AcItems(v: seq<int>, k: nat, r: nat): seq<Item>
    requires IsBlock(v) && k <= DCTSIZE2
    decreases DCTSIZE2 - k, r
  {
    if k == DCTSIZE2 then if r > 0 then [Sym(EOB)] else []
    else if v[k] == 0 then AcItems(v, k + 1, r + 1)
    else if r > 15 then [Sym(ZRL)] + AcItems(v, k, r - 16)
    else
      SmallValue(v[k]);
      [Sym(16 * r + NBits(Abs(v[k]))), Raw(ValueBits(v[k]))] + AcItems(v, k + 1, 0)
  }

  /** Symbols of size 0 are 0x00 and 0xF0, and 0x00 only comes last. */
  ghost predicate EndsOnce(items: seq<Item>) {
    && (forall i :: 0 <= i < |items| - 1 ==> items[i] != Sym(0))
    && forall s: byte :: Sym(s) in items && s % 16 == 0 ==> s == 0 || s == 0xF0
  }

  /** The end of block is sent once if the last coefficient is zero, and not at all if it is not;
  it comes last, and no other symbol of size 0 but 0xF0 is ever sent. */
  lemma {:induction false} EobLaw(v: seq<int>, k: nat, r: nat)
    requires IsBlock(v) && |v| == 64 && k <= 64
    ensures Count(AcItems(v, k, r), 0) == if k < 64 then (if v[63] == 0 then 1 else 0) else if r > 0 then 1 else 0
    ensures EndsOnce(AcItems(v, k, r)) && (k < 64 ==> AcItems(v, k, r) != [])
    decreases 64 - k, r
  {
    hide NBits, ValueBits, IsBlock, AcItems, Count, EndsOnce;
    AcUnfolds(v, k, r);
    if k == 64 {
      OnlyEnd();
    } else if v[k] == 0 {
      EobLaw(v, k + 1, r + 1);
      AcUnfolds(v, k + 1, r + 1);
    } else if r > 15 {
      EobLaw(v, k, r - 16);
      BeforeEnd(0xF0, [], AcItems(v, k, r - 16));
    } else {
      EobLaw(v, k + 1, 0);
      BeforeEnd(16 * r + NBits(Abs(v[k])), [Raw(ValueBits(v[k]))], AcItems(v, k + 1, 0));
    }
  }

  lemma OnlyEnd()
    ensures Count([Sym(0)], 0) == 1 && Count([], 0) == 0 && EndsOnce([Sym(0)]) && EndsOnce([])
  {
    CountNext([], Sym(0), 0);
    assert [] + [Sym(0)] == [Sym(0)];
  }

  lemma AcUnfolds(v: seq<int>, k: nat, r: nat)
    requires IsBlock(v) && |v| == 64 && k <= 64
    ensures k == 64 ==> AcItems(v, k, r) == if r > 0 then [Sym(0)] else []
    ensures k < 64 && v[k] == 0 ==> AcItems(v, k, r) == AcItems(v, k + 1, r + 1)
    ensures k < 64 && v[k] != 0 && r > 15 ==> AcItems(v, k, r) == [Sym(0xF0)] + AcItems(v, k, r - 16)
    ensures k < 64 && v[k] != 0 ==> 0 < NBits(Abs(v[k])) <= 15
    ensures k < 64 && v[k] != 0 && r <= 15 ==>
      var n := NBits(Abs(v[k]));
      AcItems(v, k, r) == [Sym(16 * r + n), Raw(ValueBits(v[k]))] + AcItems(v, k + 1, 0)
  {
    hide ValueBits;
    if k < 64 {
      SmallValue(v[k]);
    }
  }

  /** Another symbol in front. */
  lemma BeforeEnd(s: byte, raws: seq<Item>, b: seq<Item>)
    requires s != 0 && (s % 16 == 0 ==> s == 0xF0) && |raws| <= 1 && (forall i :: 0 <= i < |raws| ==> raws[i].Raw?) && EndsOnce(b)
    ensures Count([Sym(s)] + raws + b, 0) == Count(b, 0) && EndsOnce([Sym(s)] + raws + b)
    ensures raws == [] ==> [Sym(s)] + raws == [Sym(s)]
    ensures |raws| == 1 ==> [Sym(s)] + raws == [Sym(s), raws[0]]
  {
    var a := [Sym(s)] + raws;
    CountPlus(a, b, 0);
    CountedIsSent(a, 0);
  }

  /** A value of size s, read from its bits. */
  function ReadValue(s: nat, t: seq<bit>): Option<(int, seq<bit>)> {
    if s == 0 then Some((0, t))
    else
      var b := ReadBits(s, t);
      if b.None? then None else Some((Extend(b.value.0, s), b.value.1))
  }

  /** Section F.2.2.1. */
  ghost function ReadDc(h: Code, t: seq<bit>): Option<(int, seq<bit>)>
    requires PrefixFree(h)
  {
    var s := ReadSym(h, t);
    if s.None? then None else ReadValue(s.value.0, s.value.1)
  }

  /** The natural order tables repeat the last position past their end. */
  function Slot(k: nat): nat {
    if k < DCTSIZE2 then k else DCTSIZE2 - 1
  }

  /** Section F.2.2.2: coefficients from k on, into a block that holds c. */
  ghost function ReadAc(h: Code, c: seq<int>, k: nat, t: seq<bit>): (r: Option<(seq<int>, seq<bit>)>)
    requires PrefixFree(h) && |c| == DCTSIZE2
    ensures r.Some? ==> |r.value.0| == DCTSIZE2
    decreases DCTSIZE2 - k
  {
    if k >= DCTSIZE2 then Some((c, t))
    else
      var s := ReadSym(h, t);
      if s.None? then None
      else
        var run, size := s.value.0 / 16, s.value.0 % 16;
        if size != 0 then
          var x := ReadValue(size, s.value.1);
          if x.None? then None else ReadAc(h, c[Slot(k + run) := x.value.0], k + run + 1, x.value.1)
        else if run != 15 then Some((c, s.value.1))
        else ReadAc(h, c, k + 16, s.value.1)
  }

  lemma ReadValueBack(c: int, rest: seq<bit>)
    ensures ReadValue(NBits(Abs(c)), ValueBits(c) + rest) == Some((c, rest))
  {
    hide Number, BitsOf, Extend;
    var n := NBits(Abs(c));
    var w := ValueBits(c);
    assert |w| == n;
    assert (w + rest)[..n] == w && (w + rest)[n..] == rest;
    if c != 0 {
      ExtendValue(c);
    } else {
      assert w + rest == rest;
    }
  }

  lemma ReadDcBack(h: Code, diff: int, rest: seq<bit>)
    requires Proper(h) && PrefixFree(h) && NBits(Abs(diff)) <= 255 && Coded(h, DcItems(diff))
    ensures ReadDc(h, Spell(h, DcItems(diff)) + rest) == Some((diff, rest))
  {
    hide Proper, PrefixFree, HasWord, Word, ReadSym, ReadValue, NBits, ValueBits;
    var n := NBits(Abs(diff));
    assert DcItems(diff)[0] == Sym(n);
    SpellTwo(h, n, ValueBits(diff), [], rest);
    assert DcItems(diff) + [] == DcItems(diff);
    NothingSpelled(h);
    assert [] + rest == rest;
    ReadWordBack(h, n, ValueBits(diff) + rest);
    ReadValueBack(diff, rest);
  }

  lemma NothingSpelled(h: Code)
    requires Proper(h)
    ensures Spell(h, []) == []
  {
  }

  lemma SpellTwo(h: Code, s: byte, b: seq<bit>, items: seq<Item>, rest: seq<bit>)
    requires Proper(h)
    ensures Spell(h, [Sym(s), Raw(b)] + items) + rest == Word(h, s) + (b + (Spell(h, items) + rest))
    ensures Coded(h, [Sym(s), Raw(b)] + items) ==> HasWord(h, s) && Coded(h, items)
  {
    hide Proper, Word, HasWord, Spell;
    assert [Sym(s), Raw(b)] + items == [Sym(s)] + ([Raw(b)] + items);
    SpellHead(h, Sym(s), [Raw(b)] + items);
    SpellHead(h, Raw(b), items);
    Assoc(Word(h, s), b + Spell(h, items), rest);
    Assoc(b, Spell(h, items), rest);
    CodedParts(h, [Sym(s), Raw(b)], items);
    assert [Sym(s), Raw(b)][0] == Sym(s);
  }

  lemma SpellOneMore(h: Code, s: byte, items: seq<Item>, rest: seq<bit>)
    requires Proper(h)
    ensures Spell(h, [Sym(s)] + items) + rest == Word(h, s) + (Spell(h, items) + rest)
    ensures Coded(h, [Sym(s)] + items) ==> HasWord(h, s) && Coded(h, items)
  {
    hide Proper, Word, HasWord, Spell;
    SpellHead(h, Sym(s), items);
    Assoc(Word(h, s), Spell(h, items), rest);
    CodedParts(h, [Sym(s)], items);
    assert [Sym(s)][0] == Sym(s);
  }

  /** The first k coefficients of v, zeros behind them. */
  function Upto(v: seq<int>, k: nat): (c: seq<int>)
    requires |v| == DCTSIZE2
    ensures |c| == DCTSIZE2
  {
    seq(DCTSIZE2, j requires 0 <= j < DCTSIZE2 => if j < k then v[j] else 0)
  }

  /** One symbol of either kind. */
  lemma AcStep(h: Code, c: seq<int>, k: nat, t: seq<bit>)
    requires PrefixFree(h) && |c| == DCTSIZE2 && k < DCTSIZE2 && ReadSym(h, t).Some?
    ensures var run, size, u := ReadSym(h, t).value.0 / 16, ReadSym(h, t).value.0 % 16, ReadSym(h, t).value.1;
      && (size != 0 && ReadValue(size, u).Some? ==>
            ReadAc(h, c, k, t)
            == ReadAc(h, c[Slot(k + run) := ReadValue(size, u).value.0], k + run + 1, ReadValue(size, u).value.1))
      && (size == 0 && run == 15 ==> ReadAc(h, c, k, t) == ReadAc(h, c, k + 16, u))
      && (size == 0 && run != 15 ==> ReadAc(h, c, k, t) == Some((c, u)))
  {
    hide PrefixFree, ReadSym, ReadValue;
  }

  lemma AcDone(h: Code, c: seq<int>, k: nat, t: seq<bit>)
    requires PrefixFree(h) && |c| == DCTSIZE2 && k >= DCTSIZE2
    ensures ReadAc(h, c, k, t) == Some((c, t))
  {
    hide PrefixFree;
  }

  /** Reading what is sent from coefficient k on completes the block. */
  lemma {:induction false} ReadAcBack(h: Code, v: seq<int>, k: nat, r: nat, rest: seq<bit>)
    requires Proper(h) && PrefixFree(h) && IsBlock(v) && r <= k <= DCTSIZE2 && Coded(h, AcItems(v, k, r))
    requires forall j :: k - r <= j < k ==> v[j] == 0
    ensures ReadAc(h, Upto(v, k - r), k - r, Spell(h, AcItems(v, k, r)) + rest) == Some((v, rest))
    decreases DCTSIZE2 - k, r
  {
    hide Proper, PrefixFree, HasWord, Word, ReadSym, ReadValue, NBits, ValueBits, Spell, Coded, ReadAc, Upto;
    if k == DCTSIZE2 {
      ReadEnd(h, v, r, rest);
    } else if v[k] == 0 {
      ReadAcBack(h, v, k + 1, r + 1, rest);
    } else if r > 15 {
      var items := AcItems(v, k, r - 16);
      SpellOneMore(h, ZRL, items, rest);
      ReadWordBack(h, ZRL, Spell(h, items) + rest);
      AcStep(h, Upto(v, k - r), k - r, Word(h, ZRL) + (Spell(h, items) + rest));
      ReadAcBack(h, v, k, r - 16, rest);
      UptoZeros(v, k - r, k - (r - 16));
    } else {
      var items := AcItems(v, k + 1, 0);
      var n := NBits(Abs(v[k]));
      SmallValue(v[k]);
      NotZero(v[k]);
      SpellTwo(h, 16 * r + n, ValueBits(v[k]), items, rest);
      var u := ValueBits(v[k]) + (Spell(h, items) + rest);
      ReadWordBack(h, 16 * r + n, u);
      ReadValueBack(v[k], Spell(h, items) + rest);
      SymbolParts(r, n);
      AcStep(h, Upto(v, k - r), k - r, Word(h, 16 * r + n) + u);
      ReadAcBack(h, v, k + 1, 0, rest);
      UptoNext(v, k - r, k);
    }
  }

  lemma SymbolParts(r: nat, n: nat)
    requires r <= 15 && n <= 15
    ensures (16 * r + n) / 16 == r && (16 * r + n) % 16 == n
  {
  }

  lemma ReadEnd(h: Code, v: seq<int>, r: nat, rest: seq<bit>)
    requires Proper(h) && PrefixFree(h) && IsBlock(v) && r <= DCTSIZE2 && Coded(h, AcItems(v, DCTSIZE2, r))
    requires forall j :: DCTSIZE2 - r <= j < DCTSIZE2 ==> v[j] == 0
    ensures ReadAc(h, Upto(v, DCTSIZE2 - r), DCTSIZE2 - r, Spell(h, AcItems(v, DCTSIZE2, r)) + rest) == Some((v, rest))
  {
    hide Proper, PrefixFree, HasWord, Word, ReadSym, ReadAc, Spell;
    assert Upto(v, DCTSIZE2 - r) == v;
    NothingSpelled(h);
    assert [] + rest == rest;
    if r > 0 {
      SpellOneMore(h, EOB, [], rest);
      assert [Sym(EOB)] + [] == [Sym(EOB)];
      ReadWordBack(h, EOB, rest);
      AcStep(h, v, DCTSIZE2 - r, Word(h, EOB) + rest);
    } else {
      AcDone(h, v, DCTSIZE2, rest);
    }
  }

  lemma UptoZeros(v: seq<int>, i: nat, k: nat)
    requires |v| == DCTSIZE2 && i <= k <= DCTSIZE2 && forall j :: i <= j < k ==> v[j] == 0
    ensures Upto(v, i) == Upto(v, k)
  {
  }

  lemma UptoNext(v: seq<int>, i: nat, k: nat)
    requires |v| == DCTSIZE2 && i <= k < DCTSIZE2 && forall j :: i <= j < k ==> v[j] == 0
    ensures Upto(v, i)[k := v[k]] == Upto(v, k + 1)
  {
  }

  lemma NotZero(c: int)
    requires c != 0
    ensures NBits(Abs(c)) > 0
  {
  }

  /** Each coefficient of d is as in c or already as in f. */
  ghost predicate Patch(c: seq<int>, d: seq<int>, f: seq<int>) {
    |c| == |d| == |f| == DCTSIZE2 && forall j :: 0 <= j < DCTSIZE2 ==> d[j] == c[j] || d[j] == f[j]
  }

  /** Reading on never changes coefficients behind. */
  lemma {:induction false} ReadAcKeeps(h: Code, c: seq<int>, k: nat, t: seq<bit>)
    requires PrefixFree(h) && |c| == DCTSIZE2 && ReadAc(h, c, k, t).Some?
    ensures forall j :: 0 <= j < k && j < DCTSIZE2 ==> ReadAc(h, c, k, t).value.0[j] == c[j]
    decreases DCTSIZE2 - k
  {
    hide PrefixFree, ReadSym, ReadValue;
    if k < DCTSIZE2 {
      var s := ReadSym(h, t).value;
      var run, size := s.0 / 16, s.0 % 16;
      if size != 0 {
        var x := ReadValue(size, s.1).value;
        ReadAcKeeps(h, c[Slot(k + run) := x.0], k + run + 1, x.1);
      } else if run == 15 {
        ReadAcKeeps(h, c, k + 16, s.1);
      }
    }
  }

  /** Reading the same bits again, over what an earlier attempt left in the block. */
  lemma {:induction false} ReadAcAgain(h: Code, c: seq<int>, d: seq<int>, k: nat, t: seq<bit>)
    requires PrefixFree(h) && |c| == DCTSIZE2 && ReadAc(h, c, k, t).Some? && Patch(c, d, ReadAc(h, c, k, t).value.0)
    ensures ReadAc(h, d, k, t) == ReadAc(h, c, k, t)
    decreases DCTSIZE2 - k
  {
    hide PrefixFree, ReadSym, ReadValue;
    if k >= DCTSIZE2 {
      assert c == d;
    } else {
      var s := ReadSym(h, t).value;
      var run, size := s.0 / 16, s.0 % 16;
      if size != 0 {
        var x := ReadValue(size, s.1).value;
        var p := Slot(k + run);
        ReadAcAgain(h, c[p := x.0], d[p := x.0], k + run + 1, x.1);
      } else if run == 15 {
        ReadAcAgain(h, c, d, k + 16, s.1);
      } else {
        assert c == d;
      }
    }
  }
}
