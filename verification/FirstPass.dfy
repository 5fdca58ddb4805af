/** The first AC pass of a progressive scan (section G.1.2.2 of ITU-T Rec. T.81): what is sent
for blocks after the point transform, with EOB runs across them, and how it is read. */
module FirstPass {

  import opened Wrappers
  import opened CodeString
  import opened PrefixCode
  import opened CodedItems
  import opened ZigZag
  import opened Coefficients
  import opened RefineSpec
  import opened RefineEncoding
  import opened RefineRoundTrip
  import SequentialSpec
  import CanonicalCode

  /** The point transform of an AC coefficient keeps its sign. */
  function Point(c: int, al: nat): int {
    var m: int := Mag(c, al);
    if c >= 0 then m else -m
  }

  /** Point-transformed coefficients are in range. */
  ghost predicate InRange(v: seq<int>, al: nat, ss: nat, se: nat)
    requires |v| == DCTSIZE2 && se < DCTSIZE2
  {
    forall j :: ss <= j <= se ==> SequentialSpec.NBits(Mag(v[j], al)) <= SequentialSpec.MAX_COEF_BITS
  }

  /** The position behind the last coefficient of the band that is not zero. */
  function Top(v: seq<int>, al: nat, ss: nat, k: nat): (t: nat)
    requires |v| == DCTSIZE2 && ss <= k <= DCTSIZE2
    ensures ss <= t <= k && (forall j :: t <= j < k ==> Mag(v[j], al) == 0) && (t > ss ==> Mag(v[t - 1], al) > 0)
  {
    if k == ss then ss else if Mag(v[k - 1], al) > 0 then k else Top(v, al, ss, k - 1)
  }

  /** Figure G.3, from coefficient k up to top, r zeros having been passed. */
  function FirstItems(v: seq<int>, al: nat, top: nat, k: nat, r: nat): seq<Item>
    requires SequentialSpec.IsBlock(v) && k <= top <= DCTSIZE2
    decreases top - k, r
  {
    if k == top then []
    else if Mag(v[k], al) == 0 then FirstItems(v, al, top, k + 1, r + 1)
    else if r > 15 then [Sym(ZRL)] + FirstItems(v, al, top, k, r - 16)
    else Coefficient(v[k], al, r) + FirstItems(v, al, top, k + 1, 0)
  }

  /** A coefficient behind r zeros. */
  function Coefficient(x: int, al: nat, r: nat): seq<Item>
    requires r <= 15 && -0x8000 < x < 0x8000
  {
    SmallMag(x, al);
    [Sym(16 * r + SequentialSpec.NBits(Mag(x, al))), Raw(SequentialSpec.ValueBits(Point(x, al)))]
  }

  lemma SmallMag(x: int, al: nat)
    requires -0x8000 < x < 0x8000
    ensures SequentialSpec.NBits(Mag(x, al)) <= 15
  {
    hide Shl, Shr;
    ShrLess(Abs(x), al);
    SequentialSpec.SmallValue(Mag(x, al));
  }

  lemma {:induction false} ShrLess(x: nat, e: nat)
    ensures Shr(x, e) <= x
  {
    if e > 0 {
      ShrLess(x, e - 1);
    }
  }

  function BlockItems(v: seq<int>, al: nat, ss: nat, se: nat): seq<Item>
    requires SequentialSpec.IsBlock(v) && ss <= se < DCTSIZE2
  {
    FirstItems(v, al, Top(v, al, ss, se + 1), ss, 0)
  }

  ghost predicate AllBlocks(vs: seq<seq<int>>) {
    forall i :: 0 <= i < |vs| ==> SequentialSpec.IsBlock(vs[i])
  }

  /** Everything sent from here on: the blocks vs, when a run of n blocks is pending. */
  ghost function FirstScan(vs: seq<seq<int>>, n: nat, al: nat, ss: nat, se: nat): seq<Item>
    requires ss <= se < DCTSIZE2 && AllBlocks(vs) && n < MAX_RUN
    decreases |vs|, 0
  {
    if vs == [] then EobItems(n, [])
    else
      var items := BlockItems(vs[0], al, ss, se);
      if items == [] then FirstSettle(vs[1..], n + 1, al, ss, se)
      else EobItems(n, []) + items + FirstSettle(vs[1..], OpenEnd(vs[0], al, ss, se), al, ss, se)
  }

  /** A block that ends in zeros begins a run. */
  function OpenEnd(v: seq<int>, al: nat, ss: nat, se: nat): (n: nat)
    requires |v| == DCTSIZE2 && ss <= se < DCTSIZE2
    ensures n <= 1 && (n == 1 <==> Top(v, al, ss, se + 1) <= se)
  {
    if Top(v, al, ss, se + 1) <= se then 1 else 0
  }

  ghost function FirstSettle(vs: seq<seq<int>>, n: nat, al: nat, ss: nat, se: nat): seq<Item>
    requires ss <= se < DCTSIZE2 && AllBlocks(vs) && n <= MAX_RUN
    decreases |vs|, 1
  {
    if n == MAX_RUN then EobItems(n, []) + FirstScan(vs, 0, al, ss, se) else FirstScan(vs, n, al, ss, se)
  }

  /** A block read, the blocks left in its EOB run, and the bits behind it. */
  datatype First = First(c: seq<int>, eobrun: nat, rest: seq<bit>)

  /** Read symbols from position k on until the band is full or ends. */
  ghost function FirstBand(h: Code, c: seq<int>, k: nat, al: nat, se: nat, s: seq<bit>): (f: Option<First>)
    requires PrefixFree(h) && |c| == DCTSIZE2 && se < DCTSIZE2
    ensures f.Some? ==> |f.value.c| == DCTSIZE2
    decreases DCTSIZE2 - k
  {
    if k > se then Some(First(c, 0, s))
    else
      var sym := ReadSym(h, s);
      if sym.None? then None
      else
        var r, size, t := sym.value.0 / 16, sym.value.0 % 16, sym.value.1;
        if size != 0 then
          var x := SequentialSpec.ReadValue(size, t);
          if x.None? then None
          else FirstBand(h, c[SequentialSpec.Slot(k + r) := Short(Shl(x.value.0, al))], k + r + 1, al, se, x.value.1)
        else if r == 15 then FirstBand(h, c, k + 16, al, se, t)
        else
          var n := RunLength(r, t);
          if n.None? then None else Some(First(c, n.value.0 - 1, n.value.1))
  }

  /** One block, when eobrun blocks are left in an EOB run. */
  ghost function FirstBlock(h: Code, c: seq<int>, eobrun: nat, ss: nat, al: nat, se: nat, s: seq<bit>): (f: Option<First>)
    requires PrefixFree(h) && |c| == DCTSIZE2 && ss <= se < DCTSIZE2
    ensures f.Some? ==> |f.value.c| == DCTSIZE2
  {
    if eobrun > 0 then Some(First(c, eobrun - 1, s)) else FirstBand(h, c, ss, al, se, s)
  }

  type readings = Option<(seq<seq<int>>, nat, seq<bit>)>

  function Onto(cs: seq<seq<int>>, r: readings): readings {
    if r.None? then None else Some((cs + r.value.0, r.value.1, r.value.2))
  }

  /** Block after block. */
  ghost function FirstAll(h: Code, cs: seq<seq<int>>, eobrun: nat, ss: nat, al: nat, se: nat, s: seq<bit>): readings
    requires PrefixFree(h) && ss <= se < DCTSIZE2 && Bands(cs)
  {
    if cs == [] then Some(([], eobrun, s))
    else
      var f := FirstBlock(h, cs[0], eobrun, ss, al, se, s);
      if f.None? then None else Onto([f.value.c], FirstAll(h, cs[1..], f.value.eobrun, ss, al, se, f.value.rest))
  }

  /** The same from the middle of the first block. */
  ghost function FirstFrom(h: Code, k: nat, cs: seq<seq<int>>, ss: nat, al: nat, se: nat, s: seq<bit>): readings
    requires PrefixFree(h) && ss <= se < DCTSIZE2 && Bands(cs) && cs != []
  {
    var f := FirstBand(h, cs[0], k, al, se, s);
    if f.None? then None else Onto([f.value.c], FirstAll(h, cs[1..], f.value.eobrun, ss, al, se, f.value.rest))
  }

  /** The band filled up to position k. */
  function Filled(v: seq<int>, c: seq<int>, al: nat, ss: nat, k: nat): (f: seq<int>)
    requires |v| == |c| == DCTSIZE2
    ensures |f| == DCTSIZE2 && forall j :: 0 <= j < DCTSIZE2 ==> f[j] == if ss <= j < k then Trunc(v[j], al) else c[j]
  {
    seq(DCTSIZE2, j requires 0 <= j < DCTSIZE2 => if ss <= j < k then Trunc(v[j], al) else c[j])
  }

  /** Nothing of the band is known yet. */
  ghost predicate Fresh(v: seq<int>, c: seq<int>, al: nat, ss: nat, se: nat) {
    && SequentialSpec.IsBlock(v) && |c| == DCTSIZE2 && ss <= se < DCTSIZE2 && InRange(v, al, ss, se)
    && forall j :: ss <= j <= se ==> c[j] == 0
  }

  /** What the decoder stores for a coefficient. */
  lemma Stored(x: int, al: nat)
    requires -32768 < x < 32768
    ensures Short(Shl(Point(x, al), al)) == Trunc(x, al) && Abs(Point(x, al)) == Mag(x, al)
  {
    hide Shl, Mag, Short;
    MagBound(x, al);
    ShlNegate(Mag(x, al), al);
    ShortIs(Trunc(x, al));
  }

  lemma TruncOfZero(x: int, al: nat)
    requires Mag(x, al) == 0
    ensures Trunc(x, al) == 0
  {
    CanonicalCode.ShlOfZero(al);
  }

  /** One symbol with its value. */
  lemma BandValue(h: Code, c: seq<int>, k: nat, x: int, r: nat, al: nat, se: nat, s: seq<bit>)
    requires Proper(h) && PrefixFree(h) && |c| == DCTSIZE2 && k + r <= se < DCTSIZE2 && r <= 15 && Mag(x, al) > 0
    requires SequentialSpec.NBits(Mag(x, al)) <= SequentialSpec.MAX_COEF_BITS && -32768 < x < 32768
    requires HasWord(h, 16 * r + SequentialSpec.NBits(Mag(x, al)))
    ensures var n := SequentialSpec.NBits(Mag(x, al));
      FirstBand(h, c, k, al, se, Word(h, 16 * r + n) + (SequentialSpec.ValueBits(Point(x, al)) + s))
      == FirstBand(h, c[k + r := Trunc(x, al)], k + r + 1, al, se, s)
  {
    hide Proper, PrefixFree, HasWord, Word, ReadSym, SequentialSpec.ReadValue, SequentialSpec.ValueBits, SequentialSpec.NBits, Mag,
      Shl, Short;
    var n := SequentialSpec.NBits(Mag(x, al));
    var t := SequentialSpec.ValueBits(Point(x, al)) + s;
    Stored(x, al);
    SequentialSpec.NotZero(Mag(x, al));
    ReadWordBack(h, 16 * r + n, t);
    SequentialSpec.ReadValueBack(Point(x, al), s);
    SequentialSpec.SymbolParts(r, n);
  }

  lemma BandZrl(h: Code, c: seq<int>, k: nat, al: nat, se: nat, s: seq<bit>)
    requires Proper(h) && PrefixFree(h) && |c| == DCTSIZE2 && k <= se < DCTSIZE2 && HasWord(h, ZRL)
    ensures FirstBand(h, c, k, al, se, Word(h, ZRL) + s) == FirstBand(h, c, k + 16, al, se, s)
  {
    hide Proper, PrefixFree, HasWord, Word, ReadSym;
    ReadWordBack(h, ZRL, s);
  }

  lemma BandRun(h: Code, c: seq<int>, k: nat, n: nat, al: nat, se: nat, s: seq<bit>)
    requires Proper(h) && PrefixFree(h) && |c| == DCTSIZE2 && k <= se < DCTSIZE2 && 0 < n <= MAX_RUN && HasWord(h, RunSymbol(n))
    ensures FirstBand(h, c, k, al, se, RunBits(h, n) + s) == Some(First(c, n - 1, s))
  {
    hide Proper, PrefixFree, HasWord, Word, ReadSym, BitsOf, Number, Log2, Shl, RunLength;
    Log2Bound(n);
    var b: nat := Log2(n);
    var t := BitsOf(n, b);
    Assoc(Word(h, 16 * b), t, s);
    ReadWordBack(h, 16 * b, t + s);
    ReadRunLength(n, s);
    RunParts(b);
  }

  lemma RunParts(b: nat)
    requires b <= 14
    ensures (16 * b) / 16 == b && (16 * b) % 16 == 0
  {
  }

  lemma ReadRunLength(n: nat, s: seq<bit>)
    requires 0 < n
    ensures RunLength(Log2(n), BitsOf(n, Log2(n)) + s) == Some((n, s))
  {
    hide BitsOf, Number, Log2, Shl;
    var t := BitsOf(n, Log2(n));
    assert (t + s)[..|t|] == t && (t + s)[|t|..] == s;
    RunSplit(n);
  }

  function RunSymbol(n: nat): byte
    requires 0 < n <= MAX_RUN
  {
    Log2Bound(n);
    16 * Log2(n)
  }

  /** Reading what is sent from position k on, r zeros having been passed. */
  lemma {:induction false} BandThrough(h: Code, v: seq<int>, c: seq<int>, al: nat, ss: nat, se: nat, top: nat, k: nat, r: nat, t: seq<bit>)
    requires Proper(h) && PrefixFree(h) && Fresh(v, c, al, ss, se) && ss <= k - r <= k <= top <= se + 1
    requires if k == top then r == 0 else Mag(v[top - 1], al) > 0
    requires forall j :: k - r <= j < k ==> Mag(v[j], al) == 0
    requires Coded(h, FirstItems(v, al, top, k, r))
    ensures FirstBand(h, Filled(v, c, al, ss, k - r), k - r, al, se, Spell(h, FirstItems(v, al, top, k, r)) + t)
      == FirstBand(h, Filled(v, c, al, ss, top), top, al, se, t)
    decreases top - k, r
  {
    hide Proper, PrefixFree, HasWord, Word, FirstBand, Spell, Coded, Mag, SequentialSpec.NBits, SequentialSpec.ValueBits, Filled;
    if k == top {
      SequentialSpec.NothingSpelled(h);
      assert [] + t == t;
    } else if Mag(v[k], al) == 0 {
      BandThrough(h, v, c, al, ss, se, top, k + 1, r + 1, t);
    } else if r > 15 {
      var items := FirstItems(v, al, top, k, r - 16);
      SequentialSpec.SpellOneMore(h, ZRL, items, t);
      BandZrl(h, Filled(v, c, al, ss, k - r), k - r, al, se, Spell(h, items) + t);
      BandThrough(h, v, c, al, ss, se, top, k, r - 16, t);
      ZerosFilled(v, c, al, ss, se, k - r, k - r + 16);
    } else {
      var items := FirstItems(v, al, top, k + 1, 0);
      SmallMag(v[k], al);
      CodedCoefficient(h, v[k], al, r, items, t);
      BandValue(h, Filled(v, c, al, ss, k - r), k - r, v[k], r, al, se, Spell(h, items) + t);
      BandThrough(h, v, c, al, ss, se, top, k + 1, 0, t);
      FilledNext(v, c, al, ss, se, k - r, k);
    }
  }

  lemma CodedCoefficient(h: Code, x: int, al: nat, r: nat, items: seq<Item>, t: seq<bit>)
    requires Proper(h) && r <= 15 && -0x8000 < x < 0x8000 && Coded(h, Coefficient(x, al, r) + items)
    ensures SequentialSpec.NBits(Mag(x, al)) <= 15 && HasWord(h, 16 * r + SequentialSpec.NBits(Mag(x, al))) && Coded(h, items)
    ensures Spell(h, Coefficient(x, al, r) + items) + t
      == Word(h, 16 * r + SequentialSpec.NBits(Mag(x, al))) + (SequentialSpec.ValueBits(Point(x, al)) + (Spell(h, items) + t))
  {
    hide Proper, HasWord, Word, Spell, Coded, SequentialSpec.NBits, SequentialSpec.ValueBits;
    SmallMag(x, al);
    SequentialSpec.SpellTwo(h, 16 * r + SequentialSpec.NBits(Mag(x, al)), SequentialSpec.ValueBits(Point(x, al)), items, t);
  }

  lemma FilledNext(v: seq<int>, c: seq<int>, al: nat, ss: nat, se: nat, from: nat, k: nat)
    requires Fresh(v, c, al, ss, se) && ss <= from <= k <= se && forall j :: from <= j < k ==> Mag(v[j], al) == 0
    ensures Filled(v, c, al, ss, from)[k := Trunc(v[k], al)] == Filled(v, c, al, ss, k + 1)
  {
    hide Mag, Trunc;
    ZerosFilled(v, c, al, ss, se, from, k);
  }

  lemma ZerosFilled(v: seq<int>, c: seq<int>, al: nat, ss: nat, se: nat, from: nat, to: nat)
    requires Fresh(v, c, al, ss, se) && ss <= from <= to <= se + 1
    requires forall j :: from <= j < to ==> Mag(v[j], al) == 0
    ensures Filled(v, c, al, ss, from) == Filled(v, c, al, ss, to)
  {
    hide Mag, Shl;
    forall j | from <= j < to
      ensures Trunc(v[j], al) == 0
    {
      TruncOfZero(v[j], al);
    }
  }

  /** A pending run is read when its blocks are met. */
  lemma {:induction false} SkipRun(h: Code, pend: seq<seq<int>>, cs: seq<seq<int>>, al: nat, ss: nat, se: nat, t: seq<bit>)
    requires PrefixFree(h) && ss <= se < DCTSIZE2 && Bands(pend) && Bands(cs)
    ensures FirstAll(h, pend + cs, |pend|, ss, al, se, t) == Onto(pend, FirstAll(h, cs, 0, ss, al, se, t))
  {
    hide PrefixFree, FirstBand;
    if pend == [] {
      assert [] + cs == cs;
      OntoNothing(FirstAll(h, cs, 0, ss, al, se, t));
    } else {
      SkipRun(h, pend[1..], cs, al, ss, se, t);
      assert (pend + cs)[1..] == pend[1..] + cs && (pend + cs)[0] == pend[0];
      OntoOnto(pend[0], pend[1..], FirstAll(h, cs, 0, ss, al, se, t));
      assert [pend[0]] + pend[1..] == pend;
    }
  }

  lemma OntoNothing(r: readings)
    ensures Onto([], r) == r
  {
    if r.Some? {
      assert [] + r.value.0 == r.value.0;
    }
  }

  lemma OntoOnto(a: seq<int>, b: seq<seq<int>>, r: readings)
    ensures b != [] ==> Onto([a], Onto(b, r)) == Onto([a] + b, r)
    ensures Onto([a], Onto(b, r)) == Onto([a] + b, r)
  {
    if r.Some? {
      assert [a] + (b + r.value.0) == [a] + b + r.value.0;
    }
  }

  lemma RunEnds(h: Code, pend: seq<seq<int>>, k: nat, cs: seq<seq<int>>, al: nat, ss: nat, se: nat, t: seq<bit>)
    requires Proper(h) && PrefixFree(h) && ss <= k <= se < DCTSIZE2 && Bands(pend) && Bands(cs)
    requires 0 < |pend| <= MAX_RUN && HasWord(h, RunSymbol(|pend|))
    ensures FirstFrom(h, k, pend + cs, ss, al, se, RunBits(h, |pend|) + t) == Onto(pend, FirstAll(h, cs, 0, ss, al, se, t))
  {
    hide Proper, PrefixFree, FirstBand, FirstAll, HasWord, RunBits, RunSymbol;
    BandRun(h, pend[0], k, |pend|, al, se, t);
    SkipRun(h, pend[1..], cs, al, ss, se, t);
    assert (pend + cs)[1..] == pend[1..] + cs && (pend + cs)[0] == pend[0];
    OntoOnto(pend[0], pend[1..], FirstAll(h, cs, 0, ss, al, se, t));
    assert [pend[0]] + pend[1..] == pend;
  }

  /** What the decoder makes of the bits t when the blocks pend are in a run that was not read
  yet, the first of them read up to position k, and the blocks cs come behind. */
  ghost function Reading(h: Code, pend: seq<seq<int>>, k: nat, cs: seq<seq<int>>, ss: nat, al: nat, se: nat, t: seq<bit>): readings
    requires PrefixFree(h) && ss <= se < DCTSIZE2 && Bands(pend) && Bands(cs)
  {
    if pend == [] then FirstAll(h, cs, 0, ss, al, se, t) else FirstFrom(h, k, pend + cs, ss, al, se, t)
  }

  ghost predicate AllFresh(vs: seq<seq<int>>, cs: seq<seq<int>>, al: nat, ss: nat, se: nat) {
    |vs| == |cs| && forall i :: 0 <= i < |vs| ==> Fresh(vs[i], cs[i], al, ss, se)
  }

  lemma FreshBlocks(vs: seq<seq<int>>, cs: seq<seq<int>>, al: nat, ss: nat, se: nat)
    requires AllFresh(vs, cs, al, ss, se)
    ensures AllBlocks(vs) && Bands(vs) && Bands(cs)
  {
  }

  /** Sending a run before other items, and reading it. */
  lemma PendingRun(h: Code, pend: seq<seq<int>>, k: nat, cs: seq<seq<int>>, al: nat, ss: nat, se: nat, items: seq<Item>, s: seq<bit>)
    requires Proper(h) && PrefixFree(h) && ss <= k <= se < DCTSIZE2 && Bands(pend) && Bands(cs) && |pend| <= MAX_RUN
    requires Coded(h, EobItems(|pend|, []) + items)
    ensures Coded(h, items)
    ensures Reading(h, pend, k, cs, ss, al, se, Spell(h, EobItems(|pend|, []) + items) + s)
      == Onto(pend, FirstAll(h, cs, 0, ss, al, se, Spell(h, items) + s))
  {
    hide Proper, PrefixFree, FirstFrom, FirstAll, Spell, Coded, RunItems, RunBits, HasWord;
    var n := |pend|;
    if n == 0 {
      assert [] + items == items;
      OntoNothing(FirstAll(h, cs, 0, ss, al, se, Spell(h, items) + s));
    } else {
      SpellEob(h, n, [], items);
      assert [] + Spell(h, items) == Spell(h, items);
      Assoc(RunBits(h, n), Spell(h, items), s);
      RunCoded(h, n);
      RunEnds(h, pend, k, cs, al, ss, se, Spell(h, items) + s);
    }
  }

  lemma RunCoded(h: Code, n: nat)
    requires 0 < n <= MAX_RUN && Coded(h, RunItems(n))
    ensures HasWord(h, RunSymbol(n))
  {
    hide HasWord, Log2;
    assert RunItems(n)[0] == Sym(RunSymbol(n));
  }

  /** A block that sends something, read up to its last coefficient. */
  lemma BlockReads(h: Code, v: seq<int>, c: seq<int>, cs: seq<seq<int>>, al: nat, ss: nat, se: nat, t: seq<bit>)
    requires Proper(h) && PrefixFree(h) && Fresh(v, c, al, ss, se) && Bands(cs) && BlockItems(v, al, ss, se) != []
    requires Coded(h, BlockItems(v, al, ss, se))
    ensures var g := Goal(v, c, al, ss, se);
      var b := Spell(h, BlockItems(v, al, ss, se)) + t;
      FirstAll(h, [c] + cs, 0, ss, al, se, b) ==
        if OpenEnd(v, al, ss, se) == 1 then FirstFrom(h, Top(v, al, ss, se + 1), [g] + cs, ss, al, se, t)
        else Onto([g], FirstAll(h, cs, 0, ss, al, se, t))
  {
    hide Proper, PrefixFree, Spell, Coded, FirstItems, Filled, Mag, Fresh, FirstBand, FirstFrom, FirstAll, Goal;
    FreshShape(v, c, al, ss, se);
    var top := Top(v, al, ss, se + 1);
    var g := Goal(v, c, al, ss, se);
    BandThrough(h, v, c, al, ss, se, top, ss, 0, t);
    FilledNone(v, c, al, ss);
    ZerosFilled(v, c, al, ss, se, top, se + 1);
    FilledAll(v, c, al, ss, se);
    FromBand(h, c, ss, Spell(h, BlockItems(v, al, ss, se)) + t, g, top, t, cs, ss, al, se);
  }

  lemma FreshShape(v: seq<int>, c: seq<int>, al: nat, ss: nat, se: nat)
    requires Fresh(v, c, al, ss, se)
    ensures SequentialSpec.IsBlock(v) && |c| == |v| == DCTSIZE2 && ss <= se < DCTSIZE2
  {
  }

  /** Reading on after the first block was read up to some position. */
  lemma FromBand(h: Code, c: seq<int>, k: nat, b: seq<bit>, g: seq<int>, top: nat, t: seq<bit>, cs: seq<seq<int>>, ss: nat,
      al: nat, se: nat)
    requires PrefixFree(h) && ss <= se < DCTSIZE2 && |c| == |g| == DCTSIZE2 && Bands(cs)
    requires FirstBand(h, c, k, al, se, b) == FirstBand(h, g, top, al, se, t)
    ensures FirstFrom(h, k, [c] + cs, ss, al, se, b) == FirstFrom(h, top, [g] + cs, ss, al, se, t)
    ensures FirstAll(h, [c] + cs, 0, ss, al, se, b) == FirstFrom(h, ss, [c] + cs, ss, al, se, b)
    ensures top > se ==> FirstFrom(h, top, [g] + cs, ss, al, se, t) == Onto([g], FirstAll(h, cs, 0, ss, al, se, t))
  {
    hide PrefixFree;
    assert ([c] + cs)[0] == c && ([c] + cs)[1..] == cs && ([g] + cs)[0] == g && ([g] + cs)[1..] == cs;
  }

  lemma FilledNone(v: seq<int>, c: seq<int>, al: nat, ss: nat)
    requires |v| == |c| == DCTSIZE2
    ensures Filled(v, c, al, ss, ss) == c
  {
    hide Trunc;
  }

  lemma FilledAll(v: seq<int>, c: seq<int>, al: nat, ss: nat, se: nat)
    requires |v| == |c| == DCTSIZE2 && se < DCTSIZE2
    ensures Filled(v, c, al, ss, se + 1) == Goal(v, c, al, ss, se)
  {
    hide Trunc;
  }

  /** A block that sends nothing is known already. */
  lemma BlockSilent(v: seq<int>, c: seq<int>, al: nat, ss: nat, se: nat)
    requires Fresh(v, c, al, ss, se) && BlockItems(v, al, ss, se) == []
    ensures Goal(v, c, al, ss, se) == c
  {
    hide Mag, Trunc;
    SilentTop(v, al, Top(v, al, ss, se + 1), ss, 0);
    ZerosFilled(v, c, al, ss, se, ss, se + 1);
    FilledNone(v, c, al, ss);
    FilledAll(v, c, al, ss, se);
  }

  lemma {:induction false} SilentTop(v: seq<int>, al: nat, top: nat, k: nat, r: nat)
    requires SequentialSpec.IsBlock(v) && k <= top <= DCTSIZE2 && (k < top ==> Mag(v[top - 1], al) > 0)
    requires FirstItems(v, al, top, k, r) == []
    ensures k == top
    decreases top - k, r
  {
    hide Mag;
    if k < top && Mag(v[k], al) == 0 {
      SilentTop(v, al, top, k + 1, r + 1);
    }
  }

  /** The whole scan, from any point between two blocks. */
  lemma {:induction false} FirstReads(h: Code, vs: seq<seq<int>>, cs: seq<seq<int>>, pend: seq<seq<int>>, k: nat, al: nat, ss: nat,
      se: nat, s: seq<bit>)
    requires Proper(h) && PrefixFree(h) && ss <= k <= se < DCTSIZE2 && AllFresh(vs, cs, al, ss, se) && Bands(pend) && |pend| < MAX_RUN
    requires AllBlocks(vs) && Coded(h, FirstScan(vs, |pend|, al, ss, se))
    ensures Bands(cs) && Bands(vs) && Reading(h, pend, k, cs, ss, al, se, Spell(h, FirstScan(vs, |pend|, al, ss, se)) + s)
      == Some((pend + Goals(vs, cs, al, ss, se), 0, s))
    decreases |vs|, 0
  {
    hide Proper, PrefixFree, Fresh, FirstFrom, FirstAll, Spell, Coded, BlockItems, EobItems, Goal, OpenEnd, Top;
    FreshBlocks(vs, cs, al, ss, se);
    var n := |pend|;
    if vs == [] {
      assert EobItems(n, []) + [] == EobItems(n, []);
      PendingRun(h, pend, k, cs, al, ss, se, [], s);
      NothingLeft(h, s, pend, al, ss, se);
    } else {
      var v, c, items := vs[0], cs[0], BlockItems(vs[0], al, ss, se);
      var g := Goal(v, c, al, ss, se);
      assert cs == [c] + cs[1..] && AllFresh(vs[1..], cs[1..], al, ss, se);
      assert Fresh(v, c, al, ss, se);
      if items == [] {
        BlockSilent(v, c, al, ss, se);
        assert pend + cs == (pend + [c]) + cs[1..];
        ReadingMore(h, pend, k, c, cs[1..], al, ss, se, Spell(h, FirstSettle(vs[1..], n + 1, al, ss, se)) + s);
        SettleReads(h, vs[1..], cs[1..], pend + [c], if pend == [] then ss else k, al, ss, se, s);
      } else {
        var open := OpenEnd(v, al, ss, se);
        var tail := FirstSettle(vs[1..], open, al, ss, se);
        Assoc(EobItems(n, []), items, tail);
        PendingRun(h, pend, k, cs, al, ss, se, items + tail, s);
        CodedParts(h, items, tail);
        SpellPlus(h, items, tail);
        Assoc(Spell(h, items), Spell(h, tail), s);
        BlockReads(h, v, c, cs[1..], al, ss, se, Spell(h, tail) + s);
        AfterBlock(h, v, g, cs[1..], al, ss, se, Spell(h, tail) + s);
        SettleReads(h, vs[1..], cs[1..], if open == 1 then [g] else [], if open == 1 then Top(v, al, ss, se + 1) else ss, al, ss, se, s);
        assert [] + Goals(vs[1..], cs[1..], al, ss, se) == Goals(vs[1..], cs[1..], al, ss, se);
      }
      GoalsNext(vs, cs, pend, al, ss, se);
    }
  }

  /** The same after a block was added to the run. */
  lemma {:induction false} SettleReads(h: Code, vs: seq<seq<int>>, cs: seq<seq<int>>, pend: seq<seq<int>>, k: nat, al: nat,
      ss: nat, se: nat, s: seq<bit>)
    requires Proper(h) && PrefixFree(h) && ss <= k <= se < DCTSIZE2 && AllFresh(vs, cs, al, ss, se) && Bands(pend) && |pend| <= MAX_RUN
    requires AllBlocks(vs) && Coded(h, FirstSettle(vs, |pend|, al, ss, se))
    ensures Bands(cs) && Bands(vs) && Reading(h, pend, k, cs, ss, al, se, Spell(h, FirstSettle(vs, |pend|, al, ss, se)) + s)
      == Some((pend + Goals(vs, cs, al, ss, se), 0, s))
    decreases |vs|, 1
  {
    hide Proper, PrefixFree, Fresh, FirstFrom, FirstAll, Spell, Coded, FirstScan, EobItems, Goal;
    FreshBlocks(vs, cs, al, ss, se);
    if |pend| == MAX_RUN {
      PendingRun(h, pend, k, cs, al, ss, se, FirstScan(vs, 0, al, ss, se), s);
      FirstReads(h, vs, cs, [], ss, al, ss, se, s);
      assert [] + Goals(vs, cs, al, ss, se) == Goals(vs, cs, al, ss, se);
    } else {
      FirstReads(h, vs, cs, pend, k, al, ss, se, s);
    }
  }

  lemma NothingLeft(h: Code, s: seq<bit>, pend: seq<seq<int>>, al: nat, ss: nat, se: nat)
    requires Proper(h) && PrefixFree(h) && ss <= se < DCTSIZE2
    ensures Onto(pend, FirstAll(h, [], 0, ss, al, se, Spell(h, []) + s)) == Some((pend + [], 0, s))
  {
    hide PrefixFree, Proper;
    assert [] + s == s;
  }

  /** One more block in the run. */
  lemma ReadingMore(h: Code, pend: seq<seq<int>>, k: nat, c: seq<int>, cs: seq<seq<int>>, al: nat, ss: nat, se: nat, t: seq<bit>)
    requires PrefixFree(h) && ss <= se < DCTSIZE2 && Bands(pend) && |c| == DCTSIZE2 && Bands(cs)
    ensures Reading(h, pend, k, [c] + cs, ss, al, se, t)
      == Reading(h, pend + [c], if pend == [] then ss else k, cs, ss, al, se, t)
  {
    hide PrefixFree, FirstBand;
    assert pend + ([c] + cs) == (pend + [c]) + cs;
    if pend == [] {
      assert [] + [c] == [c];
    }
  }

  /** Behind a block that sent something: it begins a run, or the next one is read. */
  lemma AfterBlock(h: Code, v: seq<int>, g: seq<int>, cs: seq<seq<int>>, al: nat, ss: nat, se: nat, t: seq<bit>)
    requires PrefixFree(h) && ss <= se < DCTSIZE2 && |v| == |g| == DCTSIZE2 && Bands(cs)
    ensures FirstFrom(h, Top(v, al, ss, se + 1), [g] + cs, ss, al, se, t) == Reading(h, [g], Top(v, al, ss, se + 1), cs, ss, al, se, t)
    ensures FirstAll(h, cs, 0, ss, al, se, t) == Reading(h, [], ss, cs, ss, al, se, t)
    ensures OpenEnd(v, al, ss, se) == 1 <==> Top(v, al, ss, se + 1) <= se
  {
  }

  lemma GoalsNext(vs: seq<seq<int>>, cs: seq<seq<int>>, pend: seq<seq<int>>, al: nat, ss: nat, se: nat)
    requires |vs| == |cs| && Bands(vs) && Bands(cs) && vs != []
    ensures Goals(vs, cs, al, ss, se) == [Goal(vs[0], cs[0], al, ss, se)] + Goals(vs[1..], cs[1..], al, ss, se)
    ensures pend + Goals(vs, cs, al, ss, se) == (pend + [Goal(vs[0], cs[0], al, ss, se)]) + Goals(vs[1..], cs[1..], al, ss, se)
  {
    hide Goal;
  }
}
