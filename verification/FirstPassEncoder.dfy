/** encode_mcu_AC_first of jcphuff.c. */
module FirstPassEncoder {

  import opened CodeString
  import opened PrefixCode
  import opened DerivedTables
  import opened CodedItems
  import opened ZigZag
  import opened Coefficients
  import opened PhuffWriter
  import opened RefineEncoding
  import opened RefineRoundTrip
  import opened RefineEncoder
  import opened FirstPass
  import SequentialSpec
  import CanonicalCode

  /** Of the items all, everything but left has been sent since sent0. */
  ghost predicate Due(sent: seq<Item>, sent0: seq<Item>, all: seq<Item>, left: seq<Item>) {
    |left| <= |all| && all[|all| - |left|..] == left && sent == sent0 + all[..|all| - |left|]
  }

  lemma DueStart(sent0: seq<Item>, all: seq<Item>)
    ensures Due(sent0, sent0, all, all)
  {
    assert sent0 + [] == sent0;
  }

  lemma DueNext(sent: seq<Item>, sent0: seq<Item>, all: seq<Item>, now: seq<Item>, left: seq<Item>)
    requires Due(sent, sent0, all, now + left)
    ensures Due(sent + now, sent0, all, left)
  {
    var n := |all| - |now + left|;
    assert all == all[..n] + (now + left);
    assert all[..n + |now|] == all[..n] + now;
    assert sent + now == sent0 + all[..n + |now|];
  }

  lemma DueDone(sent: seq<Item>, sent0: seq<Item>, all: seq<Item>, left: seq<Item>)
    requires Due(sent, sent0, all, left)
    ensures sent + left == sent0 + all
  {
    assert all == all[..|all| - |left|] + left;
  }

  /** What cannot be sent now makes the whole scan fail. */
  lemma DueFails(w: Writer, sent: seq<Item>, sent0: seq<Item>, all: seq<Item>, now: seq<Item>, left: seq<Item>)
    requires Due(sent, sent0, all, now + left) && !w.CanSend(now)
    ensures !w.CanSend(all)
  {
    hide Writer.CanSend;
    var n := |all| - |now + left|;
    assert all == all[..n] + (now + left);
    w.CanSendParts(all[..n], now + left);
    w.CanSendParts(now, left);
  }

  /** Magnitudes, values to be sent, and the nonzero word, up to position k. */
  datatype Values = Values(mags: seq<nat>, values: seq<int>, zerobits: nat)

  ghost predicate ValuesOf(p: Values, v: seq<int>, al: nat, ss: nat, k: nat)
    requires |v| == DCTSIZE2 && ss <= k <= DCTSIZE2
  {
    && |p.mags| == |p.values| == k - ss && p.zerobits == Mask(NonzeroBits(v, al, ss, k))
    && forall j :: ss <= j < k && Mag(v[j], al) > 0 ==> p.mags[j - ss] == Mag(v[j], al) && p.values[j - ss] == Sent(v[j], al)
  }

  /** The value whose low bits are sent: the point-transformed coefficient, complemented if it is
  negative. */
  function Sent(x: int, al: nat): int {
    var p := Point(x, al);
    if p < 0 then p - 1 else p
  }

  /** encode_mcu_AC_first_prepare. */
  method PrepareFirst(block: array<int>, al: nat, ss: nat, se: nat) returns (p: Values)
    requires block.Length == DCTSIZE2 && ss <= se < DCTSIZE2
    ensures ValuesOf(p, ViewOf(block[..]), al, ss, se + 1)
  {
    hide Mag, ValuesOf, NaturalOrder, ViewOf, Shl, Sent;
    ghost var v := ViewOf(block[..]);
    p := Values([], [], 0);
    NoValues(v, al, ss);
    for k := ss to se + 1
      invariant ValuesOf(p, v, al, ss, k)
    {
      ViewAt(block[..], k);
      NextValue(p, v, al, ss, k);
      var temp := block[NaturalOrder(k)];
      if temp == 0 || Mag(temp, al) == 0 {
        MagOfZero(al);
        ShlOfZeroBit(k - ss);
        p := Values(p.mags + [0], p.values + [0], p.zerobits);
      } else {
        ShlOfZeroBit(k - ss);
        p := Values(p.mags + [Mag(temp, al)], p.values + [Sent(temp, al)], p.zerobits + Shl(1, k - ss));
      }
    }
  }

  lemma MagOfZero(al: nat)
    ensures Mag(0, al) == 0
  {
    ShrLess(0, al);
  }

  lemma NoValues(v: seq<int>, al: nat, ss: nat)
    requires |v| == DCTSIZE2 && ss <= DCTSIZE2
    ensures ValuesOf(Values([], [], 0), v, al, ss, ss)
  {
  }

  lemma NextValue(p: Values, v: seq<int>, al: nat, ss: nat, k: nat)
    requires |v| == DCTSIZE2 && ss <= k < DCTSIZE2 && ValuesOf(p, v, al, ss, k)
    ensures Shl(1, k - ss) >= 0 && Shl(0, k - ss) == 0
    ensures Mag(v[k], al) == 0 ==> ValuesOf(Values(p.mags + [0], p.values + [0], p.zerobits), v, al, ss, k + 1)
    ensures Mag(v[k], al) > 0 ==>
      ValuesOf(Values(p.mags + [Mag(v[k], al)], p.values + [Sent(v[k], al)], p.zerobits + Shl(1, k - ss)), v, al, ss, k + 1)
  {
    hide Mag, Shl, Mask, Sent;
    ShlOfZeroBit(k - ss);
    MaskNext(NonzeroBits(v, al, ss, k), if Mag(v[k], al) > 0 then 1 else 0);
  }

  /** The low n bits of a 16-bit value. */
  lemma LowBits(x: int, n: nat)
    requires -0x8000 <= x < 0x8000 && n <= 16
    ensures x < 0 ==> BitsOf(x + 0x10000, n) == BitsOf(x, n)
  {
    hide Shl, BitsOf;
    CanonicalCode.SixteenBits();
    ShlShl(1, 16 - n, n);
    BitsOfLow(Shl(1, 16 - n), x, n);
  }

  lemma {:induction false} ItemsZeros(v: seq<int>, al: nat, top: nat, k: nat, r: nat, n: nat)
    requires SequentialSpec.IsBlock(v) && k + n <= top <= DCTSIZE2 && forall j :: k <= j < k + n ==> Mag(v[j], al) == 0
    ensures FirstItems(v, al, top, k, r) == FirstItems(v, al, top, k + n, r + n)
    decreases n
  {
    hide Mag;
    if n > 0 {
      ItemsZeros(v, al, top, k + 1, r + 1, n - 1);
    }
  }

  /** A coefficient behind idx zeros: due ZRLs, its symbol, its bits. */
  method SendCoefficient(w: Writer, mag: nat, value: int, r0: nat, ghost v: seq<int>, ghost al: nat, ghost top: nat, ghost k: nat,
      ghost sent0: seq<Item>, ghost all: seq<Item>, ghost tail: seq<Item>)
    returns (ok: bool)
    requires w.Valid() && SequentialSpec.IsBlock(v) && k < top <= DCTSIZE2 && mag == Mag(v[k], al) > 0 && value == Sent(v[k], al)
    requires Due(w.sent, sent0, all, FirstItems(v, al, top, k, r0) + tail)
    modifies w, w.counts
    ensures w.Valid() && w.done == old(w.done)
    ensures ok ==> Due(w.sent, sent0, all, FirstItems(v, al, top, k + 1, 0) + tail)
    ensures ok ==> SequentialSpec.NBits(Mag(v[k], al)) <= SequentialSpec.MAX_COEF_BITS
    ensures !ok ==> !w.CanSend(all) || SequentialSpec.NBits(Mag(v[k], al)) > SequentialSpec.MAX_COEF_BITS
  {
    hide Writer.Valid, Writer.CanSend, Mag, SequentialSpec.NBits, SequentialSpec.ValueBits, Due, BitsOf;
    var r: nat := r0;
    while r > 15
      invariant w.Valid() && w.done == old(w.done) && Due(w.sent, sent0, all, FirstItems(v, al, top, k, r) + tail)
    {
      ghost var left := FirstItems(v, al, top, k, r - 16);
      Assoc([Sym(ZRL)], left, tail);
      ghost var sent := w.sent;
      ok := w.EmitSymbol(ZRL);
      if !ok {
        DueFails(w, sent, sent0, all, [Sym(ZRL)], left + tail);
        return;
      }
      DueNext(sent, sent0, all, [Sym(ZRL)], left + tail);
      r := r - 16;
    }
    SmallMag(v[k], al);
    var nbits := SequentialSpec.NBits(mag);
    if nbits > SequentialSpec.MAX_COEF_BITS {
      return false;
    }
    ghost var left := FirstItems(v, al, top, k + 1, 0);
    ghost var raw := Raw(SequentialSpec.ValueBits(Point(v[k], al)));
    Parts(Sym(16 * r + nbits), raw, left, tail);
    ghost var sent := w.sent;
    ok := w.EmitSymbol(16 * r + nbits);
    if !ok {
      DueFails(w, sent, sent0, all, [Sym(16 * r + nbits)], [raw] + (left + tail));
      return;
    }
    DueNext(sent, sent0, all, [Sym(16 * r + nbits)], [raw] + (left + tail));
    SentBits(v[k], al);
    sent := w.sent;
    ok := w.EmitBits(if value < 0 then value + 0x10000 else value, nbits);
    DueNext(sent, sent0, all, [raw], left + tail);
  }

  lemma Parts(s: Item, raw: Item, left: seq<Item>, tail: seq<Item>)
    ensures ([s, raw] + left) + tail == [s] + ([raw] + (left + tail))
  {
  }

  lemma SentBits(x: int, al: nat)
    requires -0x8000 < x < 0x8000 && Mag(x, al) > 0
    ensures var n := SequentialSpec.NBits(Mag(x, al));
      && 0 < n <= 15 && -0x8000 <= Sent(x, al) < 0x8000
      && BitsOf(if Sent(x, al) < 0 then Sent(x, al) + 0x10000 else Sent(x, al), n) == SequentialSpec.ValueBits(Point(x, al))
  {
    hide BitsOf, Shr, SequentialSpec.NBits;
    SmallMag(x, al);
    ShrLess(Abs(x), al);
    SequentialSpec.NotZero(Mag(x, al));
    LowBits(Sent(x, al), SequentialSpec.NBits(Mag(x, al)));
  }

  /** The coefficient loop of encode_mcu_AC_first. */
  method SendBlock(w: Writer, p: Values, al: nat, ss: nat, se: nat, ghost v: seq<int>, ghost sent0: seq<Item>, ghost all: seq<Item>,
      ghost tail: seq<Item>)
    returns (ok: bool, k: nat)
    requires w.Valid() && SequentialSpec.IsBlock(v) && ss <= se < DCTSIZE2 && ValuesOf(p, v, al, ss, se + 1)
    requires Due(w.sent, sent0, all, BlockItems(v, al, ss, se) + tail)
    modifies w, w.counts
    ensures w.Valid() && w.done == old(w.done)
    ensures ok ==> k == Top(v, al, ss, se + 1) && Due(w.sent, sent0, all, tail) && InRange(v, al, ss, se)
    ensures !ok ==> !w.CanSend(all) || !InRange(v, al, ss, se)
  {
    hide Writer.Valid, Writer.CanSend, Mag, SequentialSpec.NBits, Due, Mask, NonzeroBits, FirstItems, Sent, ValuesOf, SmallUpto, InRange;
    k := ss;
    var zerobits := p.zerobits;
    ok := true;
    ValuesAt(p, v, al, ss, se, ss);
    StartAt(v, al, ss, se, zerobits);
    while zerobits != 0
      invariant ss <= k && w.Valid() && w.done == old(w.done) && StandsAt(v, al, ss, se, k, zerobits)
      invariant Due(w.sent, sent0, all, FirstItems(v, al, Top(v, al, ss, se + 1), k, 0) + tail)
      decreases se + 1 - k
    {
      ok, k, zerobits := SendNext(w, p, al, ss, se, k, zerobits, v, sent0, all, tail);
      if !ok {
        return;
      }
    }
    EndsAt(v, al, ss, se, k);
    ItemsEnd(v, al, k);
    assert [] + tail == tail;
  }

  /** Position k of the coefficient loop: the coefficients before are sent, and the word has the
  others. */
  ghost predicate StandsAt(v: seq<int>, al: nat, ss: nat, se: nat, k: nat, zerobits: nat)
    requires |v| == DCTSIZE2 && ss <= se < DCTSIZE2 && ss <= k
  {
    k <= Top(v, al, ss, se + 1) && zerobits == Mask(NonzeroBits(v, al, ss, se + 1)[k - ss..]) && SmallUpto(v, al, ss, k)
  }

  lemma StartAt(v: seq<int>, al: nat, ss: nat, se: nat, zerobits: nat)
    requires |v| == DCTSIZE2 && ss <= se < DCTSIZE2 && zerobits == Mask(NonzeroBits(v, al, ss, se + 1))
    ensures StandsAt(v, al, ss, se, ss, zerobits)
  {
    hide Mask, Mag;
    var nz := NonzeroBits(v, al, ss, se + 1);
    assert nz[0..] == nz;
    SmallStart(v, al, ss, se);
  }

  lemma EndsAt(v: seq<int>, al: nat, ss: nat, se: nat, k: nat)
    requires |v| == DCTSIZE2 && ss <= se < DCTSIZE2 && ss <= k && StandsAt(v, al, ss, se, k, 0)
    ensures k == Top(v, al, ss, se + 1) && InRange(v, al, ss, se)
  {
    hide Mask, Mag, InRange, SmallUpto;
    var nz := NonzeroBits(v, al, ss, se + 1)[k - ss..];
    MaskZero(nz);
    NoMore(v, al, ss, se, k, nz);
    SmallEnd(v, al, ss, k, se);
  }

  lemma MovesTo(v: seq<int>, al: nat, ss: nat, se: nat, k: nat, r: nat, zerobits: nat)
    requires |v| == DCTSIZE2 && ss <= k <= se < DCTSIZE2 && StandsAt(v, al, ss, se, k, zerobits)
    requires var nz := NonzeroBits(v, al, ss, se + 1)[k - ss..];
      r < |nz| && (forall i :: 0 <= i < r ==> nz[i] == 0) && nz[r] == 1
    ensures k + r < Top(v, al, ss, se + 1) && (forall j :: k <= j < k + r ==> Mag(v[j], al) == 0) && Mag(v[k + r], al) > 0
    ensures var nz := NonzeroBits(v, al, ss, se + 1)[k - ss..];
      SequentialSpec.NBits(Mag(v[k + r], al)) <= SequentialSpec.MAX_COEF_BITS ==>
        StandsAt(v, al, ss, se, k + r + 1, Mask(nz[r..]) / 2)
    ensures SequentialSpec.NBits(Mag(v[k + r], al)) > SequentialSpec.MAX_COEF_BITS ==> !InRange(v, al, ss, se)
  {
    hide Mask, Mag, InRange, SmallUpto;
    var all := NonzeroBits(v, al, ss, se + 1);
    var nz := all[k - ss..];
    SkippedZeros(v, al, ss, se, k, r);
    SmallNext(v, al, ss, k, k + r, se);
    MaskHead(nz[r..]);
    assert nz[r..][1..] == all[k + r + 1 - ss..];
  }

  /** The next coefficient that is not zero. */
  method SendNext(w: Writer, p: Values, al: nat, ss: nat, se: nat, k0: nat, bits: nat, ghost v: seq<int>, ghost sent0: seq<Item>,
      ghost all: seq<Item>, ghost tail: seq<Item>)
    returns (ok: bool, k: nat, zerobits: nat)
    requires w.Valid() && SequentialSpec.IsBlock(v) && ss <= k0 && ss <= se < DCTSIZE2 && ValuesOf(p, v, al, ss, se + 1)
    requires StandsAt(v, al, ss, se, k0, bits) && bits != 0
    requires Due(w.sent, sent0, all, FirstItems(v, al, Top(v, al, ss, se + 1), k0, 0) + tail)
    modifies w, w.counts
    ensures w.Valid() && w.done == old(w.done)
    ensures ok ==> k0 < k <= Top(v, al, ss, se + 1) && StandsAt(v, al, ss, se, k, zerobits)
    ensures ok ==> Due(w.sent, sent0, all, FirstItems(v, al, Top(v, al, ss, se + 1), k, 0) + tail)
    ensures !ok ==> !w.CanSend(all) || !InRange(v, al, ss, se)
  {
    hide Writer.Valid, Writer.CanSend, Mag, SequentialSpec.NBits, Due, Mask, NonzeroBits, FirstItems, Sent, ValuesOf, SmallUpto, InRange;
    var r;
    NotAtEnd(v, al, ss, se, k0, bits);
    r, zerobits := CountZeroes(bits, NonzeroBits(v, al, ss, se + 1)[k0 - ss..]);
    MovesTo(v, al, ss, se, k0, r, bits);
    ItemsZeros(v, al, Top(v, al, ss, se + 1), k0, 0, r);
    k := k0 + r;
    ValuesAt(p, v, al, ss, se, k);
    ok := SendCoefficient(w, p.mags[k - ss], p.values[k - ss], r, v, al, Top(v, al, ss, se + 1), k, sent0, all, tail);
    k, zerobits := k + 1, zerobits / 2;
  }

  lemma NotAtEnd(v: seq<int>, al: nat, ss: nat, se: nat, k: nat, bits: nat)
    requires |v| == DCTSIZE2 && ss <= se < DCTSIZE2 && ss <= k && StandsAt(v, al, ss, se, k, bits) && bits != 0
    ensures k <= se && k <= Top(v, al, ss, se + 1)
  {
    hide Mag, SmallUpto;
  }

  lemma ValuesAt(p: Values, v: seq<int>, al: nat, ss: nat, se: nat, k: nat)
    requires |v| == DCTSIZE2 && ss <= k <= se < DCTSIZE2 && ValuesOf(p, v, al, ss, se + 1)
    ensures |p.mags| == |p.values| == se + 1 - ss && p.zerobits == Mask(NonzeroBits(v, al, ss, se + 1))
    ensures Mag(v[k], al) > 0 ==> p.mags[k - ss] == Mag(v[k], al) && p.values[k - ss] == Sent(v[k], al)
  {
    hide Mag, Sent, Mask;
  }

  /** Values in range up to position k. */
  ghost predicate SmallUpto(v: seq<int>, al: nat, ss: nat, k: nat)
    requires |v| == DCTSIZE2 && k <= DCTSIZE2
  {
    forall j :: ss <= j < k ==> SequentialSpec.NBits(Mag(v[j], al)) <= SequentialSpec.MAX_COEF_BITS
  }

  lemma SmallStart(v: seq<int>, al: nat, ss: nat, se: nat)
    requires |v| == DCTSIZE2 && ss <= se < DCTSIZE2
    ensures SmallUpto(v, al, ss, ss)
  {
  }

  lemma SmallNext(v: seq<int>, al: nat, ss: nat, k0: nat, k: nat, se: nat)
    requires |v| == DCTSIZE2 && ss <= k0 <= k <= se < DCTSIZE2 && SmallUpto(v, al, ss, k0) && forall j :: k0 <= j < k ==> Mag(v[j], al) == 0
    ensures SequentialSpec.NBits(Mag(v[k], al)) <= SequentialSpec.MAX_COEF_BITS ==> SmallUpto(v, al, ss, k + 1)
    ensures SequentialSpec.NBits(Mag(v[k], al)) > SequentialSpec.MAX_COEF_BITS ==> !InRange(v, al, ss, se)
  {
    hide Mag;
    ZerosSmall(v, al, k0, k - k0);
  }

  lemma SmallEnd(v: seq<int>, al: nat, ss: nat, k: nat, se: nat)
    requires |v| == DCTSIZE2 && ss <= k <= se + 1 <= DCTSIZE2 && SmallUpto(v, al, ss, k) && forall j :: k <= j <= se ==> Mag(v[j], al) == 0
    ensures InRange(v, al, ss, se)
  {
    hide Mag;
    ZerosSmall(v, al, k, se + 1 - k);
  }

  lemma ZerosSmall(v: seq<int>, al: nat, k: nat, n: nat)
    requires |v| == DCTSIZE2 && k + n <= DCTSIZE2 && forall j :: k <= j < k + n ==> Mag(v[j], al) == 0
    ensures forall j :: k <= j < k + n ==> SequentialSpec.NBits(Mag(v[j], al)) <= SequentialSpec.MAX_COEF_BITS
  {
    hide Mag;
  }

  lemma ItemsEnd(v: seq<int>, al: nat, top: nat)
    requires SequentialSpec.IsBlock(v) && top <= DCTSIZE2
    ensures FirstItems(v, al, top, top, 0) == []
  {
  }

  /** What an MCU sends, and the run it leaves. */
  lemma ScanUnfolds(v: seq<int>, rest: seq<seq<int>>, n: nat, al: nat, ss: nat, se: nat)
    requires SequentialSpec.IsBlock(v) && AllBlocks(rest) && ss <= se < DCTSIZE2 && n < MAX_RUN
    ensures AllBlocks([v] + rest)
    ensures var items := BlockItems(v, al, ss, se);
      FirstScan([v] + rest, n, al, ss, se) ==
        if items == [] then FirstSettle(rest, n + 1, al, ss, se)
        else EobItems(n, []) + (items + FirstSettle(rest, OpenEnd(v, al, ss, se), al, ss, se))
    ensures BlockItems(v, al, ss, se) == [] <==> Top(v, al, ss, se + 1) == ss
  {
    hide BlockItems, EobItems, OpenEnd, FirstSettle;
    assert ([v] + rest)[0] == v && ([v] + rest)[1..] == rest;
    var items := BlockItems(v, al, ss, se);
    SomethingSent(v, al, ss, se);
    if items != [] {
      Assoc(EobItems(n, []), items, FirstSettle(rest, OpenEnd(v, al, ss, se), al, ss, se));
    }
  }

  lemma SomethingSent(v: seq<int>, al: nat, ss: nat, se: nat)
    requires SequentialSpec.IsBlock(v) && ss <= se < DCTSIZE2
    ensures BlockItems(v, al, ss, se) == [] <==> Top(v, al, ss, se + 1) == ss
  {
    hide FirstItems, Mag;
    var top := Top(v, al, ss, se + 1);
    ItemsEnd(v, al, top);
    if BlockItems(v, al, ss, se) == [] {
      SilentTop(v, al, top, ss, 0);
    }
  }

  /** What a block leaves to be sent behind its own items. */
  ghost function Tail(v: seq<int>, rest: seq<seq<int>>, n: nat, al: nat, ss: nat, se: nat): seq<Item>
    requires SequentialSpec.IsBlock(v) && AllBlocks(rest) && ss <= se < DCTSIZE2 && n < MAX_RUN
  {
    FirstSettle(rest, if BlockItems(v, al, ss, se) == [] then n + 1 else OpenEnd(v, al, ss, se), al, ss, se)
  }

  lemma WordIsZero(v: seq<int>, al: nat, ss: nat, se: nat, zerobits: nat)
    requires SequentialSpec.IsBlock(v) && ss <= se < DCTSIZE2 && zerobits == Mask(NonzeroBits(v, al, ss, se + 1))
    ensures zerobits == 0 <==> BlockItems(v, al, ss, se) == []
  {
    hide Mag, BlockItems;
    var nz, top := NonzeroBits(v, al, ss, se + 1), Top(v, al, ss, se + 1);
    MaskZero(nz);
    SomethingSent(v, al, ss, se);
    if top > ss {
      assert nz[top - 1 - ss] == 1;
    } else {
      forall i | 0 <= i < |nz|
        ensures nz[i] == 0
      {
        var j := ss + i;
        assert nz[j - ss] == if Mag(v[j], al) > 0 then 1 else 0;
      }
    }
  }

  /** Send the run of n blocks that is pending. */
  method SendRun(e: Encoder, ghost n: nat, ghost sent0: seq<Item>, ghost all: seq<Item>, ghost left: seq<Item>) returns (ok: bool)
    requires e.Shape() && e.w.Valid() && e.be == 0 && e.eobrun == n <= MAX_RUN && Due(e.w.sent, sent0, all, EobItems(n, []) + left)
    modifies e`eobrun, e`be, e.w, e.w.counts
    ensures e.w.Valid() && e.w.done == old(e.w.done)
    ensures ok ==> e.Shape() && e.be == 0 && e.eobrun == 0 && Due(e.w.sent, sent0, all, left)
    ensures !ok ==> !e.w.CanSend(all)
  {
    hide Writer.Valid, Writer.CanSend, EobItems, Due;
    assert e.Corrections() == [];
    ghost var sent := e.w.sent;
    ok := e.EmitEobrun();
    if ok {
      DueNext(sent, sent0, all, EobItems(n, []), left);
    } else {
      DueFails(e.w, sent, sent0, all, EobItems(n, []), left);
    }
  }

  lemma PendingDue(v: seq<int>, rest: seq<seq<int>>, n: nat, al: nat, ss: nat, se: nat, sent: seq<Item>)
    requires SequentialSpec.IsBlock(v) && AllBlocks(rest) && ss <= se < DCTSIZE2 && n < MAX_RUN
    ensures AllBlocks([v] + rest)
    ensures var items := BlockItems(v, al, ss, se);
      var left := items + Tail(v, rest, n, al, ss, se);
      Due(sent, sent, FirstScan([v] + rest, n, al, ss, se), if items == [] || n == 0 then left else EobItems(n, []) + left)
  {
    hide BlockItems, FirstScan, FirstSettle, Due, OpenEnd;
    ScanUnfolds(v, rest, n, al, ss, se);
    DueStart(sent, FirstScan([v] + rest, n, al, ss, se));
    var tail := Tail(v, rest, n, al, ss, se);
    assert [] + tail == tail && [] + (BlockItems(v, al, ss, se) + tail) == BlockItems(v, al, ss, se) + tail;
  }

  /** Send the pending run if this block has something to send. */
  method SendPending(e: Encoder, zerobits: nat, ghost all: seq<Item>, ghost left: seq<Item>) returns (ok: bool)
    requires e.Valid() && e.be == 0
    requires Due(e.w.sent, e.w.sent, all, if zerobits == 0 || e.eobrun == 0 then left else EobItems(e.eobrun, []) + left)
    modifies e`eobrun, e`be, e.w, e.w.counts
    ensures e.w.Valid() && e.w.done == old(e.w.done)
    ensures ok ==> e.Shape() && e.be == 0 && e.eobrun == (if zerobits == 0 then old(e.eobrun) else 0)
    ensures ok ==> Due(e.w.sent, old(e.w.sent), all, left)
    ensures !ok ==> !e.w.CanSend(all)
  {
    hide Writer.Valid, Writer.CanSend, EobItems, Due;
    ok := true;
    if zerobits != 0 && e.eobrun > 0 {
      ok := SendRun(e, e.eobrun, e.w.sent, all, left);
    }
  }

  /** A block that ends in zeros joins the run, which is sent if it gets too long. */
  method CloseBlock(e: Encoder, trailing: bool, ghost rest: seq<seq<int>>, ghost sent0: seq<Item>, ghost all: seq<Item>) returns (ok: bool)
    requires e.Shape() && e.w.Valid() && e.be == 0 && e.eobrun < MAX_RUN && AllBlocks(rest) && (!trailing ==> e.eobrun == 0)
    requires Due(e.w.sent, sent0, all, FirstSettle(rest, if trailing then e.eobrun + 1 else 0, e.al, e.ss, e.se))
    modifies e`eobrun, e`be, e.w, e.w.counts
    ensures e.w.done == old(e.w.done)
    ensures ok ==> e.Valid() && e.be == 0 && Due(e.w.sent, sent0, all, FirstScan(rest, e.eobrun, e.al, e.ss, e.se))
    ensures !ok ==> !e.w.CanSend(all)
  {
    hide Writer.Valid, Writer.CanSend, EobItems, FirstScan, Due;
    ok := true;
    if trailing {
      e.eobrun := e.eobrun + 1;
      if e.eobrun == MAX_RUN {
        ok := SendRun(e, MAX_RUN, sent0, all, FirstScan(rest, 0, e.al, e.ss, e.se));
      }
    }
  }

  /** encode_mcu_AC_first, without its restart handling: whatever blocks follow, what was sent
  and what is still to come make up the same scan as before; it fails exactly if a code is
  missing for something of the scan or a value of this block is out of range. */
  method EncodeMcuFirst(e: Encoder, block: array<int>, ghost rest: seq<seq<int>>) returns (ok: bool)
    requires e.Valid() && e.be == 0 && block.Length == DCTSIZE2 && SequentialSpec.IsBlock(ViewOf(block[..])) && AllBlocks(rest)
    modifies e, e.w, e.w.counts
    ensures ok ==> e.Valid() && e.be == 0 && e.w.done == old(e.w.done) && InRange(ViewOf(old(block[..])), e.al, e.ss, e.se)
    ensures ok ==>
      e.w.sent + FirstScan(rest, e.eobrun, e.al, e.ss, e.se)
      == old(e.w.sent) + FirstScan([ViewOf(old(block[..]))] + rest, old(e.eobrun), e.al, e.ss, e.se)
    ensures !ok && InRange(ViewOf(old(block[..])), e.al, e.ss, e.se) ==>
      !e.w.CanSend(FirstScan([ViewOf(old(block[..]))] + rest, old(e.eobrun), e.al, e.ss, e.se))
  {
    hide Writer.Valid, Writer.CanSend, Mag, ViewOf, BlockItems, EobItems, FirstScan, FirstSettle, Due, InRange, Mask, NonzeroBits;
    ghost var v, n, al, ss, se := ViewOf(block[..]), e.eobrun, e.al, e.ss, e.se;
    ghost var sent0, all := e.w.sent, FirstScan([v] + rest, e.eobrun, al, ss, se);
    ghost var tail := Tail(v, rest, n, al, ss, se);
    var p := PrepareFirst(block, e.al, e.ss, e.se);
    WordIsZero(v, al, ss, se, p.zerobits);
    SomethingSent(v, al, ss, se);
    PendingDue(v, rest, n, al, ss, se, sent0);
    ok := SendPending(e, p.zerobits, all, BlockItems(v, al, ss, se) + tail);
    if !ok {
      return;
    }
    var k;
    ok, k := SendBlock(e.w, p, e.al, e.ss, e.se, v, sent0, all, tail);
    if !ok {
      return;
    }
    ok := CloseBlock(e, k <= e.se, rest, sent0, all);
    if ok {
      DueDone(e.w.sent, sent0, all, FirstScan(rest, e.eobrun, al, ss, se));
    }
  }
}
