/** What the AC refinement encoder of jcphuff.c sends, block by block, as items: symbols with
their correction bits, EOB runs shared between blocks, and forced flushes. */
module RefineEncoding {

  import opened CodeString
  import opened PrefixCode
  import opened CodedItems
  import opened ZigZag
  import opened Coefficients

  /** The point transform: magnitude divided by 2^al, rounding towards zero. */
  function Mag(c: int, al: nat): nat {
    Shr(Abs(c), al)
  }

  /** A coefficient with only the bits from al up known. */
  function Trunc(c: int, al: nat): int {
    if c >= 0 then Shl(Mag(c, al), al) else -Shl(Mag(c, al), al)
  }

  /** No coefficient from k on, but behind eob, turns nonzero in this scan. */
  ghost predicate LastNew(v: seq<int>, al: nat, se: nat, eob: nat, k: nat)
    requires |v| == DCTSIZE2 && se < DCTSIZE2
  {
    forall j :: k <= j <= se && eob < j ==> Mag(v[j], al) != 1
  }

  /** What a block sends, the correction bits left for its end of band, and whether it needs one. */
  datatype Refinement = Refinement(items: seq<Item>, tail: seq<bit>, open: bool)

  function Before(items: seq<Item>, f: Refinement): Refinement {
    f.(items := items + f.items)
  }

  function Sign(c: int): bit {
    if c >= 0 then 1 else 0
  }

  const ZRL: byte := 0xF0

  /** Figure G.7, from coefficient k on, with r zeros and the correction bits br since the last
  symbol.  A ZRL that an end of band would cover is not sent. */
  ghost function Emit(v: seq<int>, al: nat, se: nat, eob: nat, k: nat, r: nat, br: seq<bit>): Refinement
    requires |v| == DCTSIZE2 && k <= se + 1 <= DCTSIZE2 && LastNew(v, al, se, eob, k)
    decreases se + 1 - k, r
  {
    if k > se then Refinement([], br, r > 0 || br != [])
    else if Mag(v[k], al) == 0 then Emit(v, al, se, eob, k + 1, r + 1, br)
    else if r > 15 && k <= eob then Before([Sym(ZRL), Raw(br)], Emit(v, al, se, eob, k, r - 16, []))
    else if Mag(v[k], al) > 1 then Emit(v, al, se, eob, k + 1, r, br + [Mag(v[k], al) % 2])
    else Before([Sym(16 * r + 1), Raw([Sign(v[k])]), Raw(br)], Emit(v, al, se, eob, k + 1, 0, []))
  }

  /** The last newly nonzero coefficient of the band, its first position if there is none. */
  function Eob(v: seq<int>, al: nat, ss: nat, k: nat): (e: nat)
    requires |v| == DCTSIZE2 && ss <= k <= DCTSIZE2
    decreases k
  {
    if k == ss then ss else if Mag(v[k - 1], al) == 1 then k - 1 else Eob(v, al, ss, k - 1)
  }

  lemma {:induction false} EobIsLast(v: seq<int>, al: nat, ss: nat, k: nat)
    requires |v| == DCTSIZE2 && ss <= k <= DCTSIZE2
    ensures forall j :: ss <= j < k && Eob(v, al, ss, k) < j ==> Mag(v[j], al) != 1
    decreases k
  {
    hide Mag;
    if k > ss && Mag(v[k - 1], al) != 1 {
      EobIsLast(v, al, ss, k - 1);
    }
  }

  ghost function Block(v: seq<int>, al: nat, ss: nat, se: nat): Refinement
    requires |v| == DCTSIZE2 && ss <= se < DCTSIZE2
  {
    EobIsLast(v, al, ss, se + 1);
    Emit(v, al, se, Eob(v, al, ss, se + 1), ss, 0, [])
  }

  /** The number of the highest set bit. */
  function Log2(n: nat): nat
    decreases n
  {
    if n < 2 then 0 else 1 + Log2(n / 2)
  }

  const MAX_RUN := 0x7FFF
  const MAX_CORR_BITS := 1000

  /** emit_eobrun: the run length class, its low bits, and the correction bits of its blocks. */
  function EobItems(eobrun: nat, be: seq<bit>): seq<Item>
    requires eobrun <= MAX_RUN
  {
    if eobrun == 0 then []
    else RunItems(eobrun) + [Raw(be)]
  }

  function RunItems(n: nat): seq<Item>
    requires 0 < n <= MAX_RUN
  {
    var b := Log2(n);
    Log2Bound(n);
    [Sym(16 * b)] + if b > 0 then [Raw(BitsOf(n, b))] else []
  }

  lemma Log2Bound(n: nat)
    requires n <= MAX_RUN
    ensures Log2(n) <= 14
  {
    Log2Shr(n, 14);
  }

  lemma {:induction false} Log2Shr(n: nat, b: nat)
    requires n < Shl(2, b)
    ensures Log2(n) <= b
  {
    if b > 0 && n >= 2 {
      ShlTwice(2, b - 1);
      Log2Shr(n / 2, b - 1);
    }
  }

  /** The run must be flushed: its counter or the correction bit buffer could overflow. */
  predicate MustFlush(eobrun: nat, be: nat) {
    eobrun == MAX_RUN || be > MAX_CORR_BITS - DCTSIZE2 + 1
  }

  /** A run that may go on. */
  ghost predicate Pending(eobrun: nat, be: seq<bit>) {
    !MustFlush(eobrun, |be|) && eobrun < MAX_RUN && (eobrun == 0 ==> be == [])
  }

  ghost predicate Bands(vs: seq<seq<int>>) {
    forall i :: 0 <= i < |vs| ==> |vs[i]| == DCTSIZE2
  }

  /** Everything sent from here on: the blocks vs, when a run of eobrun blocks with correction
  bits be is pending. */
  ghost function Scan(vs: seq<seq<int>>, eobrun: nat, be: seq<bit>, al: nat, ss: nat, se: nat): seq<Item>
    requires ss <= se < DCTSIZE2 && Bands(vs) && eobrun < MAX_RUN
    decreases |vs|, 0
  {
    if vs == [] then EobItems(eobrun, be)
    else
      var f := Block(vs[0], al, ss, se);
      if f.items != [] then EobItems(eobrun, be) + f.items + Settle(vs[1..], if f.open then 1 else 0, f.tail, al, ss, se)
      else Settle(vs[1..], eobrun + 1, be + f.tail, al, ss, se)
  }

  /** The same after a block was added to the run. */
  ghost function Settle(vs: seq<seq<int>>, eobrun: nat, be: seq<bit>, al: nat, ss: nat, se: nat): seq<Item>
    requires ss <= se < DCTSIZE2 && Bands(vs) && eobrun <= MAX_RUN
    decreases |vs|, 1
  {
    if MustFlush(eobrun, |be|) then EobItems(eobrun, be) + Scan(vs, 0, [], al, ss, se)
    else Scan(vs, eobrun, be, al, ss, se)
  }

  /** A block is coded up to position k: items are sent, r zeros and the bits br are held back. */
  ghost predicate Coding(v: seq<int>, al: nat, ss: nat, se: nat, items: seq<Item>, k: nat, r: nat, br: seq<bit>) {
    && |v| == DCTSIZE2 && ss <= k <= se + 1 <= DCTSIZE2 && ss <= se
    && var eob := Eob(v, al, ss, se + 1);
      LastNew(v, al, se, eob, k) && Block(v, al, ss, se) == Before(items, Emit(v, al, se, eob, k, r, br))
  }

  lemma CodingStart(v: seq<int>, al: nat, ss: nat, se: nat)
    requires |v| == DCTSIZE2 && ss <= se < DCTSIZE2
    ensures Coding(v, al, ss, se, [], ss, 0, [])
  {
    hide Emit, Eob, Mag;
    EobIsLast(v, al, ss, se + 1);
    var f := Block(v, al, ss, se);
    assert [] + f.items == f.items;
  }

  lemma {:induction false} CodingZeros(v: seq<int>, al: nat, ss: nat, se: nat, items: seq<Item>, k: nat, r: nat, br: seq<bit>, n: nat)
    requires Coding(v, al, ss, se, items, k, r, br) && k + n <= se + 1
    requires forall j :: k <= j < k + n ==> Mag(v[j], al) == 0
    ensures Coding(v, al, ss, se, items, k + n, r + n, br)
  {
    hide Mag, Eob, Block;
    if n > 0 {
      CodingZeros(v, al, ss, se, items, k, r, br, n - 1);
    }
  }

  lemma CodingZrl(v: seq<int>, al: nat, ss: nat, se: nat, items: seq<Item>, k: nat, r: nat, br: seq<bit>)
    requires Coding(v, al, ss, se, items, k, r, br) && k <= se && Mag(v[k], al) > 0
    requires r > 15 && k <= Eob(v, al, ss, se + 1)
    ensures Coding(v, al, ss, se, items + [Sym(ZRL)] + [Raw(br)], k, r - 16, [])
  {
    hide Mag, Eob, Block;
    var g := Emit(v, al, se, Eob(v, al, ss, se + 1), k, r - 16, []);
    assert items + [Sym(ZRL)] + [Raw(br)] == items + [Sym(ZRL), Raw(br)];
    Assoc(items, [Sym(ZRL), Raw(br)], g.items);
  }

  lemma CodingCorrection(v: seq<int>, al: nat, ss: nat, se: nat, items: seq<Item>, k: nat, r: nat, br: seq<bit>)
    requires Coding(v, al, ss, se, items, k, r, br) && k <= se && Mag(v[k], al) > 1
    requires !(r > 15 && k <= Eob(v, al, ss, se + 1))
    ensures Coding(v, al, ss, se, items, k + 1, r, br + [Mag(v[k], al) % 2])
  {
    hide Mag, Eob, Block;
  }

  lemma CodingCoef(v: seq<int>, al: nat, ss: nat, se: nat, items: seq<Item>, k: nat, r: nat, br: seq<bit>)
    requires Coding(v, al, ss, se, items, k, r, br) && k <= se && Mag(v[k], al) == 1
    requires !(r > 15 && k <= Eob(v, al, ss, se + 1))
    ensures r <= 15
    ensures Coding(v, al, ss, se, items + [Sym(16 * r + 1)] + [Raw([Sign(v[k])])] + [Raw(br)], k + 1, 0, [])
  {
    hide Mag, Eob, Block;
    var g := Emit(v, al, se, Eob(v, al, ss, se + 1), k + 1, 0, []);
    var three := [Sym(16 * r + 1), Raw([Sign(v[k])]), Raw(br)];
    assert items + [Sym(16 * r + 1)] + [Raw([Sign(v[k])])] + [Raw(br)] == items + three;
    Assoc(items, three, g.items);
  }

  lemma CodingEnd(v: seq<int>, al: nat, ss: nat, se: nat, items: seq<Item>, k: nat, r: nat, br: seq<bit>)
    requires Coding(v, al, ss, se, items, k, r, br) && forall j :: k <= j <= se ==> Mag(v[j], al) == 0
    ensures Block(v, al, ss, se) == Refinement(items, br, r > 0 || k <= se || br != [])
  {
    hide Mag, Eob, Block;
    CodingZeros(v, al, ss, se, items, k, r, br, se + 1 - k);
    assert items + [] == items;
  }

  /** What is still to be sent comes behind what was sent. */
  lemma CodingItems(v: seq<int>, al: nat, ss: nat, se: nat, items: seq<Item>, k: nat, r: nat, br: seq<bit>)
    requires Coding(v, al, ss, se, items, k, r, br)
    ensures |v| == DCTSIZE2 && ss <= k <= se + 1 <= DCTSIZE2 && ss <= se
    ensures items <= Block(v, al, ss, se).items
  {
    hide Mag, Eob, Block, Emit;
  }

  /** The run that is pending after a block, and what the block sends before. */
  ghost function RunAfter(f: Refinement, eobrun: nat, be: seq<bit>): (nat, seq<bit>) {
    if f.items == [] then (eobrun + 1, be + f.tail) else (if f.open then 1 else 0, f.tail)
  }

  ghost function SentBy(f: Refinement, eobrun: nat, be: seq<bit>): seq<Item>
    requires eobrun <= MAX_RUN
  {
    if f.items == [] then [] else EobItems(eobrun, be) + f.items
  }

  lemma ScanSplits(v: seq<int>, rest: seq<seq<int>>, eobrun: nat, be: seq<bit>, al: nat, ss: nat, se: nat)
    requires |v| == DCTSIZE2 && ss <= se < DCTSIZE2 && Bands(rest) && eobrun < MAX_RUN
    ensures var f := Block(v, al, ss, se);
      var a := RunAfter(f, eobrun, be);
      Scan([v] + rest, eobrun, be, al, ss, se) == SentBy(f, eobrun, be) + Settle(rest, a.0, a.1, al, ss, se)
  {
    hide Block, Settle, EobItems;
    assert ([v] + rest)[1..] == rest;
    var f := Block(v, al, ss, se);
    var a := RunAfter(f, eobrun, be);
    assert [] + Settle(rest, a.0, a.1, al, ss, se) == Settle(rest, a.0, a.1, al, ss, se);
  }
}
