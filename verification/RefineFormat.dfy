/** What the AC scans of a progressive image send and read, in plain numbers: point transform,
sign and correction bits, EOB runs and their symbols, as Annex G of ITU-T Rec. T.81 fixes them.
The laws for sending and for reading do not rest on one another. */
module RefineFormat {

  import opened Wrappers
  import opened CodeString
  import opened PrefixCode
  import opened CodedItems
  import opened ZigZag
  import opened Coefficients
  import opened RefineSpec
  import opened RefineEncoding
  import opened FirstPass
  import SequentialSpec
  import opened SequentialFormat
  import CanonicalCode
  import RefineRoundTrip

  /** Section G.1.2.1: the point transform divides the magnitude by 2^al and drops the rest. */
  lemma {:induction false} MagLaw(c: int, al: nat)
    ensures Shl(Mag(c, al), al) <= Abs(c) < Shl(Mag(c, al) + 1, al)
  {
    RefineRoundTrip.ShiftBounds(Abs(c), al);
  }

  /** A coefficient known down to bit al keeps its sign and loses what lies below. */
  lemma TruncLaw(c: int, al: nat)
    ensures 0 <= (if c >= 0 then Trunc(c, al) else -Trunc(c, al)) <= Abs(c)
    ensures Abs(c) - Abs(Trunc(c, al)) < Shl(1, al)
    ensures exists m: nat :: Abs(Trunc(c, al)) == Shl(m, al)
  {
    hide Shl, Mag;
    MagLaw(c, al);
    CanonicalCode.ShlNat(Mag(c, al), al);
    ShlPlus(Mag(c, al), 1, al);
    assert Abs(Trunc(c, al)) == Shl(Mag(c, al), al);
  }

  /** The sign bits of new coefficients: what follows each symbol of size 1. */
  function SignBits(items: seq<Item>): seq<bit> {
    if |items| < 2 then []
    else if items[0].Sym? && items[0].s % 16 == 1 && items[1].Raw? then items[1].b + SignBits(items[2..])
    else SignBits(items[1..])
  }

  /** The signs of the coefficients from k on that turn nonzero: 1 for a positive one. */
  function Signs(v: seq<int>, al: nat, se: nat, k: nat): seq<bit>
    requires |v| == 64 && k <= se + 1 <= 64
    decreases se + 1 - k
  {
    if k > se then []
    else if Shl(1, al) <= Abs(v[k]) < Shl(2, al) then [if v[k] > 0 then 1 else 0] + Signs(v, al, se, k + 1)
    else Signs(v, al, se, k + 1)
  }

  lemma MagOne(c: int, al: nat)
    ensures Mag(c, al) == 1 <==> Shl(1, al) <= Abs(c) < Shl(2, al)
    ensures Mag(c, al) >= 1 <==> Shl(1, al) <= Abs(c)
  {
    hide Shl, Mag;
    var m := Mag(c, al);
    MagLaw(c, al);
    if m >= 2 {
      ShlMonotone(2, m, al);
    }
    if m >= 1 {
      ShlMonotone(1, m, al);
    } else {
      ShlMonotone(m + 1, 1, al);
    }
  }

  /** Section G.1.2.3: behind the symbol of each newly nonzero coefficient goes a 1 if it is
  positive and a 0 if it is negative, and other bits follow no symbol of size 1. */
  lemma {:induction false} EmitSigns(v: seq<int>, al: nat, se: nat, eob: nat, k: nat, r: nat, br: seq<bit>)
    requires |v| == 64 && k <= se + 1 <= 64 && LastNew(v, al, se, eob, k)
    ensures SignBits(Emit(v, al, se, eob, k, r, br).items) == Signs(v, al, se, k)
    decreases se + 1 - k, r
  {
    hide Mag, Shl, SignBits;
    if k > se {
      NoItems();
    } else {
      MagOne(v[k], al);
      if Mag(v[k], al) == 0 {
        EmitSigns(v, al, se, eob, k + 1, r + 1, br);
      } else if r > 15 && k <= eob {
        EmitSigns(v, al, se, eob, k, r - 16, []);
        NoSigns(0xF0, [Raw(br)], Emit(v, al, se, eob, k, r - 16, []).items);
      } else if Mag(v[k], al) > 1 {
        EmitSigns(v, al, se, eob, k + 1, r, br + [Mag(v[k], al) % 2]);
      } else {
        EmitSigns(v, al, se, eob, k + 1, 0, []);
        var rest := Emit(v, al, se, eob, k + 1, 0, []).items;
        var sign: bit := if v[k] > 0 then 1 else 0;
        assert v[k] != 0 by {
          MagOfNothing(v[k], al);
        }
        OneSign(16 * r + 1, sign, br, rest);
      }
    }
  }

  lemma NoItems()
    ensures SignBits([]) == []
  {
  }

  lemma MagOfNothing(c: int, al: nat)
    requires Mag(c, al) == 1
    ensures c != 0
  {
    hide Shl, Mag;
    MagOne(c, al);
    CanonicalCode.ShlPositive(al);
  }

  lemma NoSigns(s: byte, raws: seq<Item>, rest: seq<Item>)
    requires s % 16 != 1 && |raws| == 1 && raws[0].Raw?
    ensures [Sym(s)] + raws == [Sym(s), raws[0]] && SignBits([Sym(s), raws[0]] + rest) == SignBits(rest)
  {
    var items := [Sym(s), raws[0]] + rest;
    assert items[1..] == [raws[0]] + rest && items[1..][1..] == rest;
    if rest == [] {
      assert SignBits(items[1..]) == [];
    }
  }

  lemma OneSign(s: byte, b: bit, br: seq<bit>, rest: seq<Item>)
    requires s % 16 == 1
    ensures SignBits([Sym(s), Raw([b]), Raw(br)] + rest) == [b] + SignBits(rest)
  {
    var items := [Sym(s), Raw([b]), Raw(br)] + rest;
    assert items[2..] == [Raw(br)] + rest && items[2..][1..] == rest;
    if rest == [] {
      assert SignBits(items[2..]) == [];
    }
  }

  /** So for a whole block. */
  lemma SignLaw(v: seq<int>, al: nat, ss: nat, se: nat)
    requires |v| == 64 && ss <= se < 64
    ensures SignBits(Block(v, al, ss, se).items) == Signs(v, al, se, ss)
  {
    hide Emit, Eob, Mag;
    EobIsLast(v, al, ss, se + 1);
    EmitSigns(v, al, se, Eob(v, al, ss, se + 1), ss, 0, []);
  }

  /** Correction bits of the coefficients from k up to j that were nonzero before: bit al of their
  magnitudes. */
  function Corrections(v: seq<int>, al: nat, k: nat, j: nat): seq<bit>
    requires k <= j <= |v|
    decreases j - k
  {
    if k == j then []
    else (if Abs(v[k]) >= Shl(2, al) then [Shr(Abs(v[k]), al) % 2] else []) + Corrections(v, al, k + 1, j)
  }

  /** How many of them are zero after the point transform. */
  function StillZero(v: seq<int>, al: nat, k: nat, j: nat): nat
    requires k <= j <= |v|
    decreases j - k
  {
    if k == j then 0 else (if Abs(v[k]) < Shl(1, al) then 1 else 0) + StillZero(v, al, k + 1, j)
  }

  /** None of them turns nonzero. */
  ghost predicate NoneNew(v: seq<int>, al: nat, k: nat, j: nat)
    requires k <= j <= |v|
  {
    forall i :: k <= i < j ==> !(Shl(1, al) <= Abs(v[i]) < Shl(2, al))
  }

  /** Figure G.7 up to the next coefficient that turns nonzero, at j, with at most fifteen zeros on
  the way: run and size 1 in one symbol, the sign, then the correction bits passed. */
  lemma {:induction false} NextLaw(v: seq<int>, al: nat, se: nat, eob: nat, k: nat, r: nat, br: seq<bit>, j: nat)
    requires |v| == 64 && k <= j <= se < 64 && LastNew(v, al, se, eob, k)
    requires NoneNew(v, al, k, j) && Shl(1, al) <= Abs(v[j]) < Shl(2, al) && r + StillZero(v, al, k, j) <= 15
    ensures LastNew(v, al, se, eob, j + 1)
    ensures Emit(v, al, se, eob, k, r, br).items
      == [Sym(16 * (r + StillZero(v, al, k, j)) + 1), Raw([if v[j] > 0 then 1 else 0]), Raw(br + Corrections(v, al, k, j))]
         + Emit(v, al, se, eob, j + 1, 0, []).items
    decreases j - k
  {
    hide Mag, Shl;
    MagOne(v[k], al);
    MagTwo(v[k], al);
    if k == j {
      MagOfNothing(v[j], al);
      assert br + [] == br;
    } else if Mag(v[k], al) == 0 {
      NextLaw(v, al, se, eob, k + 1, r + 1, br, j);
      assert [] + Corrections(v, al, k + 1, j) == Corrections(v, al, k + 1, j);
    } else {
      NextLaw(v, al, se, eob, k + 1, r, br + [Mag(v[k], al) % 2], j);
      BitOfMag(v[k], al);
      Assoc(br, [Mag(v[k], al) % 2], Corrections(v, al, k + 1, j));
    }
  }

  lemma MagTwo(c: int, al: nat)
    ensures Mag(c, al) > 1 <==> Abs(c) >= Shl(2, al)
  {
    hide Shl, Mag;
    var m := Mag(c, al);
    MagLaw(c, al);
    if m >= 2 {
      ShlMonotone(2, m, al);
    } else {
      ShlMonotone(m + 1, 2, al);
    }
  }

  lemma BitOfMag(c: int, al: nat)
    ensures Mag(c, al) % 2 == Shr(Abs(c), al) % 2
  {
  }

  /** The position up to which zero runs are sent: the last coefficient of the band that turns
  nonzero, or the first of the band. */
  lemma {:induction false} LastNewLaw(v: seq<int>, al: nat, ss: nat, k: nat)
    requires |v| == 64 && ss <= k <= 64
    ensures var e := Eob(v, al, ss, k);
      && ss <= e <= k && (e == ss || (e < k && Shl(1, al) <= Abs(v[e]) < Shl(2, al)))
      && forall i :: e < i < k ==> !(Shl(1, al) <= Abs(v[i]) < Shl(2, al))
    decreases k
  {
    hide Mag, Shl;
    if k > ss {
      MagOne(v[k - 1], al);
      LastNewLaw(v, al, ss, k - 1);
    }
  }

  /** With more zeros, 0xF0 stands for sixteen of them and takes the correction bits passed; behind
  the last coefficient that turns nonzero nothing is sent, and corrections are held back. */
  lemma {:induction false} ZeroRunLaw(v: seq<int>, al: nat, se: nat, eob: nat, k: nat, r: nat, br: seq<bit>)
    requires |v| == 64 && k <= se + 1 <= 64 && LastNew(v, al, se, eob, k)
    ensures k <= eob && k <= se && r > 15 && Abs(v[k]) >= Shl(1, al) ==>
      Emit(v, al, se, eob, k, r, br).items == [Sym(0xF0), Raw(br)] + Emit(v, al, se, eob, k, r - 16, []).items
    ensures NoneNew(v, al, k, se + 1) && eob < k ==>
      Emit(v, al, se, eob, k, r, br).items == [] && Emit(v, al, se, eob, k, r, br).tail == br + Corrections(v, al, k, se + 1)
    decreases se + 1 - k
  {
    hide Mag, Shl;
    if k > se {
      assert br + [] == br;
    } else {
      MagOne(v[k], al);
      MagTwo(v[k], al);
      BitOfMag(v[k], al);
      if Mag(v[k], al) == 0 {
        ZeroRunLaw(v, al, se, eob, k + 1, r + 1, br);
        assert [] + Corrections(v, al, k + 1, se + 1) == Corrections(v, al, k + 1, se + 1);
      } else if Mag(v[k], al) > 1 {
        ZeroRunLaw(v, al, se, eob, k + 1, r, br + [Mag(v[k], al) % 2]);
        Assoc(br, [Mag(v[k], al) % 2], Corrections(v, al, k + 1, se + 1));
      }
    }
  }

  /** A run of n blocks without new coefficients, 2^b <= n < 2^(b + 1): symbol 16 b, the b low bits
  of n, then the correction bits of its blocks. */
  lemma RunLaw(n: nat, b: nat, be: seq<bit>)
    requires Shl(1, b) <= n < Shl(1, b + 1) && n <= 0x7FFF
    ensures b <= 14 && EobItems(0, be) == []
    ensures var bits := BitsOf(n, b);
      && n - Shl(1, b) == Number(bits)
      && EobItems(n, be) == [Sym(16 * b)] + (if b > 0 then [Raw(bits)] else []) + [Raw(be)]
  {
    hide BitsOf, Number;
    CanonicalCode.ShlPositive(b);
    LogLaw(n, b);
    Log2Bound(n);
    var low := n - Shl(1, b);
    BitsOfLow(1, low, b);
    NumberOfBits(low, b);
  }

  lemma {:induction false} LogLaw(n: nat, b: nat)
    requires Shl(1, b) <= n < Shl(1, b + 1)
    ensures Log2(n) == b
  {
    if b > 0 {
      CanonicalCode.ShlPositive(b - 1);
      LogLaw(n / 2, b - 1);
    }
  }

  /** What reading one symbol of the refinement pass means: size 1 and a bit, a new coefficient
  behind its run of zeros, positive for a 1; 0xF0, sixteen zeros; 16 b and b bits, a run. */
  lemma EventLaw(h: Code, s: byte, t: seq<bit>)
    requires Proper(h) && HasWord(h, s)
    ensures s % 16 == 1 && t != [] ==> ReadEvent(h, Word(h, s) + t) == Some((Coef(s / 16, t[0] == 1), t[1..]))
    ensures s == 0xF0 ==> ReadEvent(h, Word(h, s) + t) == Some((Skip, t))
    ensures s % 16 == 0 && s < 0xF0 && |t| >= s / 16 ==>
      var b := s / 16;
      var n := Shl(1, b) + Number(t[..b]);
      n > 0 && ReadEvent(h, Word(h, s) + t) == Some((EndRun(n), t[b..]))
  {
    hide Proper, HasWord, Word, ReadSym, Number, Shl;
    ReadWordBack(h, s, t);
    CanonicalCode.ShlPositive(s / 16);
  }

  /** A new coefficient behind r zeros, none of the coefficients passed being nonzero: a 1 stores
  2^al, a 0 its negative. */
  lemma NewCoefficientLaw(h: Code, c: seq<int>, k: nat, news: seq<(nat, int)>, r: nat, b: bit, al: nat, se: nat, t: seq<bit>)
    requires Proper(h) && r <= 15 && HasWord(h, 16 * r + 1) && |c| == 64 && k + r <= se < 64
    requires forall j :: k <= j <= k + r ==> c[j] == 0
    ensures Band(h, c, k, news, al, se, Word(h, 16 * r + 1) + [b] + t)
      == Band(h, c, k + r + 1, news + [(k + r, if b == 1 then Shl(1, al) else -Shl(1, al))], al, se, t)
  {
    hide Proper, HasWord, Word, ReadEvent, Shl, Advance;
    EventLaw(h, 16 * r + 1, [b] + t);
    assert Word(h, 16 * r + 1) + [b] + t == Word(h, 16 * r + 1) + ([b] + t) && ([b] + t)[1..] == t;
    PassZeros(c, k, r, al, se, t);
  }

  lemma {:induction false} PassZeros(c: seq<int>, k: nat, r: nat, al: nat, se: nat, t: seq<bit>)
    requires |c| == 64 && k + r <= se < 64 && forall j :: k <= j <= k + r ==> c[j] == 0
    ensures Advance(c, k, r, al, se, t) == Some(Place(c, k + r, t))
    decreases r
  {
    if r > 0 {
      PassZeros(c, k + 1, r - 1, al, se, t);
    }
  }

  /** The same for a whole block that has just this coefficient. */
  lemma OneCoefficientLaw(h: Code, c: seq<int>, ss: nat, b: bit, al: nat, se: nat, t: seq<bit>)
    requires Proper(h) && ss <= se < 64 && se - ss <= 15 && HasWord(h, 16 * (se - ss) + 1) && |c| == 64
    requires forall j :: ss <= j <= se ==> c[j] == 0
    ensures var x := if b == 1 then Shl(1, al) else -Shl(1, al);
      var d := DecodeBlock(h, c, 0, ss, al, se, Word(h, 16 * (se - ss) + 1) + [b] + t);
      && d == Some(Refined(c, [(se, x)], 0, t)) && Apply(d.value.fix, d.value.news) == c[se := x]
      && (b == 1 ==> x > 0) && (b == 0 ==> x < 0)
  {
    hide Proper, HasWord, Word, ReadEvent, Shl, Advance;
    NewCoefficientLaw(h, c, ss, [], se - ss, b, al, se, t);
    CanonicalCode.ShlPositive(al);
    var x := if b == 1 then Shl(1, al) else -Shl(1, al);
    assert [] + [(se, x)] == [(se, x)];
    assert [(se, x)][..0] == [];
  }

  /** A correction bit of 1 adds 2^al to the magnitude of a coefficient known down to bit al + 1,
  whatever its sign; a 0 leaves it; and a nonzero coefficient takes one bit on any way past. */
  lemma CorrectionLaw(c: seq<int>, k: nat, m: nat, al: nat, se: nat, b: bit, t: seq<bit>, r: nat)
    requires |c| == 64 && k <= se < 64 && al < 15 && m > 0 && Shl(2 * m + 1, al) < 32768
    requires c[k] == Shl(2 * m, al) || c[k] == -Shl(2 * m, al)
    ensures var d := c[k := if c[k] > 0 then c[k] + (if b == 1 then Shl(1, al) else 0) else c[k] - (if b == 1 then Shl(1, al) else 0)];
      && Advance(c, k, r, al, se, [b] + t) == Advance(d, k + 1, r, al, se, t)
      && Finish(c, k, al, se, [b] + t) == Finish(d, k + 1, al, se, t)
  {
    hide Shl, AShr, Short;
    var n: int := 2 * m;
    PositiveShl(2 * m, al);
    ShlPlus(2 * m, 1, al);
    CanonicalCode.ShlPositive(al);
    RefineRoundTrip.AShrOfShl(n, al);
    RefineRoundTrip.AShrOfShl(-n, al);
    RefineRoundTrip.NegatedShl(n, al);
    if b == 1 {
      ShortIs(if c[k] > 0 then c[k] + Shl(1, al) else c[k] - Shl(1, al));
    }
    var x := if c[k] > 0 then c[k] + (if b == 1 then Shl(1, al) else 0) else c[k] - (if b == 1 then Shl(1, al) else 0);
    assert Touch(c, k, al, b) == c[k := x];
    Advances(c, k, r, al, se, b, t);
  }

  lemma Advances(c: seq<int>, k: nat, r: nat, al: nat, se: nat, b: bit, t: seq<bit>)
    requires |c| == 64 && k <= se < 64 && c[k] != 0
    ensures Advance(c, k, r, al, se, [b] + t) == Advance(Touch(c, k, al, b), k + 1, r, al, se, t)
    ensures Finish(c, k, al, se, [b] + t) == Finish(Touch(c, k, al, b), k + 1, al, se, t)
  {
    hide Touch;
    assert ([b] + t)[1..] == t;
    AdvanceStep(c, k, r, al, se, [b] + t);
    FinishStep(c, k, al, se, [b] + t);
  }

  lemma {:induction false} PositiveShl(m: nat, al: nat)
    requires m > 0
    ensures Shl(m, al) > 0
  {
    if al > 0 {
      PositiveShl(m, al - 1);
    }
  }

  /** A run ends when its count is full, or when the correction bits of one more block might not
  fit in the buffer of 1000; a block that sends anything ends it too, and begins the next one if
  it ends in zeros. */
  lemma ScanLaw(vs: seq<seq<int>>, n: nat, be: seq<bit>, al: nat, ss: nat, se: nat)
    requires ss <= se < 64 && Bands(vs) && n <= 0x7FFF
    ensures Settle(vs, n, be, al, ss, se)
      == if n == 0x7FFF || |be| > 937 then EobItems(n, be) + Scan(vs, 0, [], al, ss, se) else Scan(vs, n, be, al, ss, se)
    ensures n < 0x7FFF && vs == [] ==> Scan(vs, n, be, al, ss, se) == EobItems(n, be)
    ensures n < 0x7FFF && vs != [] && Block(vs[0], al, ss, se).items == [] ==>
      Scan(vs, n, be, al, ss, se) == Settle(vs[1..], n + 1, be + Block(vs[0], al, ss, se).tail, al, ss, se)
    ensures n < 0x7FFF && vs != [] && Block(vs[0], al, ss, se).items != [] ==>
      var f := Block(vs[0], al, ss, se);
      Scan(vs, n, be, al, ss, se) == EobItems(n, be) + f.items + Settle(vs[1..], if f.open then 1 else 0, f.tail, al, ss, se)
  {
    hide Block, EobItems;
  }

  /** Figure G.3 from coefficient k with r zeros before it, ke the next that is not zero after the
  point transform: 0xF0 for every sixteen zeros, four bits of run and four of size in one symbol,
  then the value divided towards zero. */
  lemma {:induction false} FirstLaw(v: seq<int>, al: nat, top: nat, k: nat, r: nat, ke: nat)
    requires SequentialSpec.IsBlock(v) && |v| == 64 && k <= ke < top <= 64
    requires (forall j :: k <= j < ke ==> Abs(v[j]) < Shl(1, al)) && Abs(v[ke]) >= Shl(1, al)
    ensures var z: nat, m: int := r + ke - k, Shr(Abs(v[ke]), al);
      var n := SequentialSpec.NBits(m);
      && 0 < n <= 15 && FirstItems(v, al, top, k, r)
        == Times16(z / 16) + ([Sym(z % 16 * 16 + n), Raw(SequentialSpec.ValueBits(if v[ke] > 0 then m else -m))]
                               + FirstItems(v, al, top, ke + 1, 0))
    decreases ke - k, r
  {
    hide Mag, Shl, Shr, Times16, SequentialSpec.NBits, SequentialSpec.ValueBits, FirstItems, SequentialSpec.IsBlock;
    MagOne(v[k], al);
    FirstUnfolds(v, al, top, k, r);
    if k < ke {
      FirstLaw(v, al, top, k + 1, r + 1, ke);
    } else {
      FirstValue(v[ke], al, r % 16);
      var rest := Coefficient(v[ke], al, r % 16) + FirstItems(v, al, top, ke + 1, 0);
      if r > 15 {
        FirstLaw(v, al, top, k, r - 16, ke);
        assert Times16(r / 16) == [Sym(0xF0)] + Times16(r / 16 - 1);
        Assoc([Sym(0xF0)], Times16(r / 16 - 1), rest);
      } else {
        assert Times16(0) + rest == rest;
      }
    }
  }

  lemma FirstUnfolds(v: seq<int>, al: nat, top: nat, k: nat, r: nat)
    requires SequentialSpec.IsBlock(v) && |v| == 64 && k < top <= 64
    ensures -0x8000 < v[k] < 0x8000
    ensures Mag(v[k], al) == 0 ==> FirstItems(v, al, top, k, r) == FirstItems(v, al, top, k + 1, r + 1)
    ensures Mag(v[k], al) > 0 && r > 15 ==> FirstItems(v, al, top, k, r) == [Sym(0xF0)] + FirstItems(v, al, top, k, r - 16)
    ensures Mag(v[k], al) > 0 && r <= 15 ==>
      FirstItems(v, al, top, k, r) == Coefficient(v[k], al, r) + FirstItems(v, al, top, k + 1, 0)
  {
    hide Mag;
  }

  lemma FirstValue(c: int, al: nat, r: nat)
    requires -0x8000 < c < 0x8000 && r <= 15 && Abs(c) >= Shl(1, al)
    ensures var m: int := Shr(Abs(c), al);
      var n := SequentialSpec.NBits(m);
      && 0 < n <= 15 && c != 0
      && Coefficient(c, al, r) == [Sym(r * 16 + n), Raw(SequentialSpec.ValueBits(if c > 0 then m else -m))]
  {
    hide SequentialSpec.ValueBits;
    MagOne(c, al);
    SmallMag(c, al);
    CanonicalCode.ShlPositive(al);
  }

  /** Reading one symbol of a first pass: a value behind its run is stored times 2^al, 0xF0 passes
  sixteen coefficients, and 16 b with b bits ends the band of this block and of those after it. */
  lemma ReadFirstLaw(h: Code, c: seq<int>, k: nat, al: nat, se: nat, s: byte, t: seq<bit>)
    requires Proper(h) && HasWord(h, s) && |c| == 64 && k <= se < 64
    ensures s == 0xF0 ==> FirstBand(h, c, k, al, se, Word(h, s) + t) == FirstBand(h, c, k + 16, al, se, t)
    ensures s % 16 == 0 && s < 0xF0 && |t| >= s / 16 ==>
      var b := s / 16;
      var n := Shl(1, b) + Number(t[..b]);
      n > 0 && FirstBand(h, c, k, al, se, Word(h, s) + t) == Some(First(c, n - 1, t[b..]))
    ensures 0 < s % 16 <= |t| && k + s / 16 <= se ==>
      var n := s % 16;
      var x := if t[0] == 1 then Number(t[..n]) else Number(t[..n]) - Shl(1, n) + 1;
      FirstBand(h, c, k, al, se, Word(h, s) + t)
      == FirstBand(h, c[k + s / 16 := (Shl(x, al) + 32768) % 65536 - 32768], k + s / 16 + 1, al, se, t[n..])
  {
    hide Proper, HasWord, Word, ReadSym, Number, Shl, SequentialSpec.ReadValue;
    ReadWordBack(h, s, t);
    CanonicalCode.ShlPositive(s / 16);
    if 0 < s % 16 <= |t| {
      SequentialFormat.ExtendLaw(s % 16, t);
    }
  }

  /** A first pass counts blocks without nonzero coefficients in a run; any other block ends the
  run, and begins the next one if its last coefficient is zero. */
  lemma FirstScanLaw(vs: seq<seq<int>>, n: nat, al: nat, ss: nat, se: nat)
    requires ss <= se < 64 && AllBlocks(vs) && Bands(vs) && n <= 0x7FFF
    ensures FirstSettle(vs, n, al, ss, se)
      == if n == 0x7FFF then EobItems(n, []) + FirstScan(vs, 0, al, ss, se) else FirstScan(vs, n, al, ss, se)
    ensures n < 0x7FFF && vs == [] ==> FirstScan(vs, n, al, ss, se) == EobItems(n, [])
    ensures n < 0x7FFF && vs != [] && (forall j :: ss <= j <= se ==> Abs(vs[0][j]) < Shl(1, al)) ==>
      FirstScan(vs, n, al, ss, se) == FirstSettle(vs[1..], n + 1, al, ss, se)
    ensures n < 0x7FFF && vs != [] && (exists j :: ss <= j <= se && Abs(vs[0][j]) >= Shl(1, al)) ==>
      FirstScan(vs, n, al, ss, se) == EobItems(n, []) + BlockItems(vs[0], al, ss, se)
        + FirstSettle(vs[1..], if Abs(vs[0][se]) < Shl(1, al) then 1 else 0, al, ss, se)
  {
    hide FirstItems, EobItems, Mag, Shl, SequentialSpec.IsBlock;
    if vs != [] && n < 0x7FFF {
      var v := vs[0];
      var top := Top(v, al, ss, se + 1);
      MagOne(v[se], al);
      if top > ss {
        MagOne(v[top - 1], al);
        FirstSends(v, al, top, ss, 0);
      } else {
        FirstEmpty(v, al, ss);
      }
      if j :| ss <= j <= se && Abs(v[j]) >= Shl(1, al) {
        MagOne(v[j], al);
      }
    }
  }

  lemma FirstEmpty(v: seq<int>, al: nat, k: nat)
    requires SequentialSpec.IsBlock(v) && k <= 64
    ensures FirstItems(v, al, k, k, 0) == []
  {
  }

  lemma {:induction false} FirstSends(v: seq<int>, al: nat, top: nat, k: nat, r: nat)
    requires SequentialSpec.IsBlock(v) && |v| == 64 && k < top <= 64 && Mag(v[top - 1], al) > 0
    ensures FirstItems(v, al, top, k, r) != []
    decreases top - k
  {
    hide Mag, FirstItems, SequentialSpec.IsBlock, Coefficient;
    FirstUnfolds(v, al, top, k, r);
    if Mag(v[k], al) == 0 {
      FirstSends(v, al, top, k + 1, r + 1);
    } else if r <= 15 {
      FirstValueSent(v[k], al, r);
    }
  }

  lemma FirstValueSent(c: int, al: nat, r: nat)
    requires -0x8000 < c < 0x8000 && r <= 15
    ensures Coefficient(c, al, r) != []
  {
  }

  /** What a first pass accepts: magnitudes of at most ten bits after the point transform. */
  lemma FirstRangeLaw(v: seq<int>, al: nat, ss: nat, se: nat)
    requires |v| == 64 && se < 64
    ensures InRange(v, al, ss, se) <==> forall j :: ss <= j <= se ==> Abs(v[j]) < Shl(1024, al)
  {
    hide Mag, Shl, SequentialSpec.NBits;
    forall j | ss <= j <= se
      ensures SequentialSpec.NBits(Mag(v[j], al)) <= 10 <==> Abs(v[j]) < Shl(1024, al)
    {
      var m := Mag(v[j], al);
      SizeAtMost(m, 10);
      TenBits();
      MagLaw(v[j], al);
      if m < 1024 {
        ShlMonotone(m + 1, 1024, al);
      } else {
        ShlMonotone(1024, m, al);
      }
    }
  }

  lemma TenBits()
    ensures Shl(1, 10) == 1024
  {
    assert Shl(1, 5) == 32;
  }
}
