/** encode_mcu_AC_refine of jcphuff.c with its pending EOB run and correction bit buffer. */
module RefineEncoder {

  import opened CodeString
  import opened PrefixCode
  import opened DerivedTables
  import opened CodedItems
  import opened ZigZag
  import opened PhuffWriter
  import opened RefineEncoding
  import opened RefineRoundTrip
  import CanonicalCode

  /** A word with bit k set where s[k] is one. */
  function Mask(s: seq<bit>): nat {
    if s == [] then 0 else s[0] + 2 * Mask(s[1..])
  }

  lemma {:induction false} MaskNext(s: seq<bit>, b: bit)
    ensures Shl(b, |s|) >= 0 && Mask(s + [b]) == Mask(s) + Shl(b, |s|)
  {
    if s != [] {
      MaskNext(s[1..], b);
      assert (s + [b])[1..] == s[1..] + [b];
    }
  }

  lemma {:induction false} MaskZero(s: seq<bit>)
    ensures Mask(s) == 0 <==> forall i :: 0 <= i < |s| ==> s[i] == 0
  {
    if s != [] {
      MaskZero(s[1..]);
      assert forall i :: 0 < i < |s| ==> s[i] == s[1..][i - 1];
    }
  }

  /** count_zeroes: shift out trailing zeros. */
  method CountZeroes(x: nat, ghost s: seq<bit>) returns (idx: nat, y: nat)
    requires x == Mask(s) && x != 0
    ensures idx < |s| && (forall i :: 0 <= i < idx ==> s[i] == 0) && s[idx] == 1 && y == Mask(s[idx..])
  {
    idx, y := 0, x;
    MaskZero(s);
    while y % 2 == 0
      invariant idx < |s| && y == Mask(s[idx..]) && y != 0 && forall i :: 0 <= i < idx ==> s[i] == 0
      decreases |s| - idx
    {
      assert s[idx..][1..] == s[idx + 1..];
      y := y / 2;
      idx := idx + 1;
      MaskZero(s[idx..]);
    }
  }

  lemma {:induction false} MaskDrop(s: seq<bit>, n: nat)
    requires n <= |s|
    ensures Shr(Mask(s), n) == Mask(s[n..])
  {
    if n > 0 {
      MaskDrop(s, n - 1);
      assert s[n - 1..][1..] == s[n..];
    }
  }

  ghost function NonzeroBits(v: seq<int>, al: nat, ss: nat, k: nat): (s: seq<bit>)
    requires |v| == DCTSIZE2 && ss <= k <= DCTSIZE2
    ensures |s| == k - ss && forall j :: ss <= j < k ==> s[j - ss] == if Mag(v[j], al) > 0 then 1 else 0
  {
    if k == ss then [] else NonzeroBits(v, al, ss, k - 1) + [if Mag(v[k - 1], al) > 0 then 1 else 0]
  }

  ghost function SignBits(v: seq<int>, al: nat, ss: nat, k: nat): (s: seq<bit>)
    requires |v| == DCTSIZE2 && ss <= k <= DCTSIZE2
    ensures |s| == k - ss && forall j :: ss <= j < k ==> s[j - ss] == if Mag(v[j], al) > 0 then Sign(v[j]) else 0
  {
    if k == ss then [] else SignBits(v, al, ss, k - 1) + [if Mag(v[k - 1], al) > 0 then Sign(v[k - 1]) else 0]
  }

  /** What encode_mcu_AC_refine_prepare finds out about a block. */
  datatype Prepared = Prepared(absvalues: seq<nat>, zerobits: nat, signbits: nat, eob: nat)

  ghost predicate Prepares(p: Prepared, v: seq<int>, al: nat, ss: nat, k: nat)
    requires |v| == DCTSIZE2 && ss <= k <= DCTSIZE2
  {
    && |p.absvalues| == k - ss && (forall j :: ss <= j < k ==> p.absvalues[j - ss] == Mag(v[j], al))
    && p.zerobits == Mask(NonzeroBits(v, al, ss, k)) && p.signbits == Mask(SignBits(v, al, ss, k))
    && ss + p.eob == Eob(v, al, ss, k)
  }

  lemma PrepareNext(p: Prepared, v: seq<int>, al: nat, ss: nat, k: nat)
    requires |v| == DCTSIZE2 && ss <= k < DCTSIZE2 && Prepares(p, v, al, ss, k)
    ensures var m := Mag(v[k], al);
      var z, s: bit := if m > 0 then 1 else 0, if m > 0 then Sign(v[k]) else 0;
      Shl(z, k - ss) >= 0 && Shl(s, k - ss) >= 0 &&
      Prepares(Prepared(p.absvalues + [m], p.zerobits + Shl(z, k - ss), p.signbits + Shl(s, k - ss),
                        if m == 1 then k - ss else p.eob), v, al, ss, k + 1)
  {
    hide Mag, Shl, Mask;
    var m := Mag(v[k], al);
    MaskNext(NonzeroBits(v, al, ss, k), if m > 0 then 1 else 0);
    MaskNext(SignBits(v, al, ss, k), if m > 0 then Sign(v[k]) else 0);
  }

  /** encode_mcu_AC_refine_prepare: magnitudes after the point transform, the nonzero and sign
  words, and the index of the last newly nonzero coefficient. */
  method Prepare(block: array<int>, al: nat, ss: nat, se: nat) returns (p: Prepared)
    requires block.Length == DCTSIZE2 && ss <= se < DCTSIZE2
    ensures Prepares(p, ViewOf(block[..]), al, ss, se + 1)
  {
    hide Mag, Prepares, NaturalOrder, ViewOf, Shl;
    ghost var v := ViewOf(block[..]);
    p := Prepared([], 0, 0, 0);
    NothingPrepared(v, al, ss);
    for k := ss to se + 1
      invariant Prepares(p, v, al, ss, k)
    {
      ViewAt(block[..], k);
      PrepareNext(p, v, al, ss, k);
      var temp := block[NaturalOrder(k)];
      var m := Mag(temp, al);
      ShlOfZeroBit(k - ss);
      var zerobits, signbits, eob := p.zerobits, p.signbits, p.eob;
      if m != 0 {
        // bit k is not set yet, so | is +
        zerobits := zerobits + Shl(1, k - ss);
        signbits := signbits + Shl(Sign(temp), k - ss);
      }
      if m == 1 {
        eob := k - ss;
      }
      p := Prepared(p.absvalues + [m], zerobits, signbits, eob);
    }
  }

  lemma ShlOfZeroBit(e: nat)
    ensures Shl(0, e) == 0 && Shl(1, e) >= 0
  {
    CanonicalCode.ShlOfZero(e);
    CanonicalCode.ShlNat(1, e);
  }

  lemma NothingPrepared(v: seq<int>, al: nat, ss: nat)
    requires |v| == DCTSIZE2 && ss <= DCTSIZE2
    ensures Prepares(Prepared([], 0, 0, 0), v, al, ss, ss)
  {
  }

  class Encoder {
    const w: Writer
    /** bit_buffer holds the BE correction bits of the blocks counted in EOBRUN. */
    const bitBuffer: array<bit>
    const ss: nat
    const al: nat
    const se: nat
    var eobrun: nat
    var be: nat

    constructor (w: Writer, ss: nat, al: nat, se: nat)
      requires w.Valid() && 1 <= ss <= se < DCTSIZE2
      ensures Valid() && this.w == w && this.ss == ss && this.al == al && this.se == se && eobrun == 0 && be == 0
      ensures fresh(bitBuffer)
    {
      this.w, this.ss, this.al, this.se, eobrun, be := w, ss, al, se, 0, 0;
      bitBuffer := new bit[MAX_CORR_BITS](_ => 0);
    }

    ghost predicate Shape()
      reads this
    {
      && 1 <= ss <= se < DCTSIZE2 && bitBuffer.Length == MAX_CORR_BITS
      && bitBuffer as object != w.counts as object && be <= MAX_CORR_BITS
    }

    /** The correction bits of the pending run. */
    ghost function Corrections(): seq<bit>
      requires Shape()
      reads this, bitBuffer
    {
      bitBuffer[..be]
    }

    /** Between MCUs the run may go on: its counter and the buffer have room for another block. */
    ghost predicate Valid()
      reads this, w, bitBuffer, w.counts
    {
      Shape() && w.Valid() && eobrun < MAX_RUN && be <= MAX_CORR_BITS - DCTSIZE2 + 1 && (eobrun == 0 ==> be == 0)
    }

    /** emit_eobrun. */
    method EmitEobrun() returns (ok: bool)
      requires Shape() && w.Valid() && eobrun <= MAX_RUN && (eobrun == 0 ==> be == 0)
      modifies `eobrun, `be, w, w.counts
      ensures w.Valid() && w.done == old(w.done)
      ensures ok ==> w.sent == old(w.sent) + EobItems(old(eobrun), old(Corrections())) && eobrun == 0 && be == 0
      ensures !ok ==> !w.CanSend(EobItems(old(eobrun), old(Corrections())))
    {
      hide BitsOf, Log2, Writer.Valid, Writer.CanSend;
      if eobrun == 0 {
        assert w.sent + [] == w.sent;
        return true;
      }
      ghost var sent, corrections := w.sent, Corrections();
      Log2Bound(eobrun);
      var nbits: nat := Log2(eobrun);
      ok := w.EmitSymbol(16 * nbits);
      if !ok {
        var rest := EobItems(eobrun, corrections)[1..];
        w.CanSendParts([Sym(16 * nbits)], rest);
        assert EobItems(eobrun, corrections) == [Sym(16 * nbits)] + rest;
        return;
      }
      if nbits > 0 {
        var sent1 := w.EmitBits(eobrun, nbits);
      }
      assert w.sent == sent + RunItems(eobrun);
      w.EmitBufferedBits(bitBuffer, 0, be);
      assert bitBuffer[0..be] == corrections;
      Assoc(sent, RunItems(eobrun), [Raw(corrections)]);
      eobrun, be := 0, 0;
    }

    /** What is sent for an MCU that began in state st. */
    ghost function Sending(st: Start, items: seq<Item>): seq<Item>
      requires st.eobrun <= MAX_RUN
    {
      EobItems(st.eobrun, st.be) + items
    }

    /** Since an MCU began in state st, items were sent, and the pending run before the first. */
    ghost predicate Sends(st: Start, items: seq<Item>)
      requires Shape() && st.eobrun <= MAX_RUN
      reads this, w, bitBuffer
    {
      if items == [] then w.sent == st.sent && eobrun == st.eobrun && be == |st.be| && Corrections() == st.be
      else w.sent == st.sent + Sending(st, items) && eobrun == 0 && be == 0
    }

    /** Send a symbol, after the pending run. */
    method SendSymbol(sym: byte, ghost st: Start, ghost items: seq<Item>) returns (ok: bool)
      requires Shape() && w.Valid() && st.eobrun <= MAX_RUN && Sends(st, items) && (eobrun == 0 ==> be == 0)
      modifies `eobrun, `be, w, w.counts
      ensures w.Valid() && w.done == old(w.done)
      ensures ok ==> Shape() && Sends(st, items + [Sym(sym)])
      ensures !ok ==> !w.CanSend(Sending(st, items + [Sym(sym)]))
    {
      hide Writer.Valid, Writer.CanSend, EobItems;
      ghost var run := EobItems(st.eobrun, st.be);
      NoRun(Corrections());
      w.CanSendRaw([]);
      w.CanSendParts(run, items + [Sym(sym)]);
      w.CanSendParts(items, [Sym(sym)]);
      ok := EmitEobrun();
      if ok {
        ok := w.EmitSymbol(sym);
        SendMore(st.sent, run, items, [Sym(sym)]);
        assert st.sent + (run + []) == st.sent + run;
        assert [] + [Sym(sym)] == [Sym(sym)];
      }
    }

    /** The correction bits behind a symbol. */
    method SendBits(at: nat, n: nat, ghost br: seq<bit>, ghost st: Start, ghost items: seq<Item>)
      requires Shape() && w.Valid() && st.eobrun <= MAX_RUN && Sends(st, items) && items != []
      requires at + n <= MAX_CORR_BITS && bitBuffer[at..at + n] == br
      modifies w
      ensures w.Valid() && w.done == old(w.done) && Sends(st, items + [Raw(br)])
    {
      hide Writer.Valid, EobItems;
      w.EmitBufferedBits(bitBuffer, at, n);
      SendMore(st.sent, EobItems(st.eobrun, st.be), items, [Raw(br)]);
    }

    /** The correction bits this MCU has put behind those of the pending run. */
    ghost predicate Holds(n: nat, br: seq<bit>)
      requires Shape()
      reads this, bitBuffer
    {
      be + n <= MAX_CORR_BITS && br == bitBuffer[be..be + n]
    }

    /** Some symbol of the MCU, or of the run pending before it, has no code. */
    ghost predicate Fails(st: Start, v: seq<int>)
      reads this
    {
      && |v| == DCTSIZE2 && ss <= se < DCTSIZE2 && st.eobrun <= MAX_RUN
      && Block(v, al, ss, se).items != [] && !w.CanSend(Sending(st, Block(v, al, ss, se).items))
    }

    /** A symbol of this MCU that has no code stops the encoder, and rightly so. */
    lemma Missing(st: Start, items: seq<Item>, v: seq<int>, k: nat, r: nat, br: seq<bit>)
      requires Coding(v, al, ss, se, items, k, r, br) && st.eobrun <= MAX_RUN && !w.CanSend(Sending(st, items))
      requires items != []
      ensures Fails(st, v)
    {
      hide Writer.CanSend, Coding, Block, EobItems;
      CodingItems(v, al, ss, se, items, k, r, br);
      var all := Block(v, al, ss, se).items;
      assert all == items + all[|items|..];
      Assoc(EobItems(st.eobrun, st.be), items, all[|items|..]);
      w.CanSendParts(Sending(st, items), all[|items|..]);
    }

    /** The ZRLs that are due before coefficient k. */
    method SendZrls(k: nat, r0: nat, n0: nat, eob: nat, ghost v: seq<int>, ghost st: Start, ghost items0: seq<Item>, ghost br0: seq<bit>)
      returns (ok: bool, r: nat, n: nat, ghost items: seq<Item>, ghost br: seq<bit>)
      requires Shape() && w.Valid() && st.eobrun <= MAX_RUN && Sends(st, items0) && (eobrun == 0 ==> be == 0)
      requires Coding(v, al, ss, se, items0, k, r0, br0) && k <= se && Mag(v[k], al) > 0 && eob == Eob(v, al, ss, se + 1)
      requires Holds(n0, br0)
      modifies `eobrun, `be, w, w.counts
      ensures w.Valid() && w.done == old(w.done)
      ensures ok ==> Shape() && Sends(st, items) && (eobrun == 0 ==> be == 0) && Holds(n, br) && be + n <= old(be) + n0
      ensures ok ==> Coding(v, al, ss, se, items, k, r, br) && !(r > 15 && k <= eob)
      ensures !ok ==> Fails(st, v)
    {
      hide Writer.Valid, Writer.CanSend, Coding, Block, Mag, Eob, Sending, Sends;
      ok, r, n, items, br := true, r0, n0, items0, br0;
      while r > 15 && k <= eob
        invariant ok && Shape() && w.Valid() && Sends(st, items) && (eobrun == 0 ==> be == 0) && Holds(n, br)
        invariant w.done == old(w.done) && be + n <= old(be) + n0 && Coding(v, al, ss, se, items, k, r, br)
        decreases r
      {
        CodingZrl(v, al, ss, se, items, k, r, br);
        var at := be;
        ok := SendSymbol(ZRL, st, items);
        if !ok {
          MissingZrl(st, items, v, k, r, br);
          return;
        }
        r := r - 16;
        SendsNothing(st, items, Sym(ZRL));
        SendBits(at, n, br, st, items + [Sym(ZRL)]);
        items := items + [Sym(ZRL)] + [Raw(br)];
        SendsNothing(st, items[..|items| - 1], Raw(br));
        n, br := 0, [];
      }
    }

    lemma MissingZrl(st: Start, items: seq<Item>, v: seq<int>, k: nat, r: nat, br: seq<bit>)
      requires r >= 16 && Coding(v, al, ss, se, items + [Sym(ZRL)] + [Raw(br)], k, r - 16, []) && st.eobrun <= MAX_RUN
      requires !w.CanSend(Sending(st, items + [Sym(ZRL)]))
      ensures Fails(st, v)
    {
      hide Writer.CanSend, Coding, Block, EobItems;
      w.CanSendParts(Sending(st, items + [Sym(ZRL)]), [Raw(br)]);
      Assoc(EobItems(st.eobrun, st.be), items + [Sym(ZRL)], [Raw(br)]);
      Missing(st, items + [Sym(ZRL)] + [Raw(br)], v, k, r - 16, []);
    }

    /** Once this MCU has sent a symbol, no run is pending. */
    lemma SendsNothing(st: Start, items: seq<Item>, i: Item)
      requires Shape() && st.eobrun <= MAX_RUN && Sends(st, items + [i])
      ensures eobrun == 0 && be == 0
    {
    }

    /** A newly nonzero coefficient: its symbol, its sign, and the correction bits held back. */
    method SendCoef(k: nat, r: nat, n: nat, sign: bit, ghost v: seq<int>, ghost st: Start, ghost items0: seq<Item>, ghost br: seq<bit>)
      returns (ok: bool, ghost items: seq<Item>)
      requires Shape() && w.Valid() && st.eobrun <= MAX_RUN && Sends(st, items0) && (eobrun == 0 ==> be == 0)
      requires Coding(v, al, ss, se, items0, k, r, br) && k <= se && |v| == DCTSIZE2 && Mag(v[k], al) == 1
      requires !(r > 15 && k <= Eob(v, al, ss, se + 1)) && Holds(n, br) && sign == Sign(v[k])
      modifies `eobrun, `be, w, w.counts
      ensures w.Valid() && w.done == old(w.done)
      ensures ok ==> Shape() && Sends(st, items) && eobrun == 0 && be == 0
      ensures ok ==> Coding(v, al, ss, se, items, k + 1, 0, [])
      ensures !ok ==> Fails(st, v)
    {
      hide Writer.Valid, Writer.CanSend, Coding, Block, Mag, Eob, Sending, Sends;
      CodingCoef(v, al, ss, se, items0, k, r, br);
      var at := be;
      items := items0 + [Sym(16 * r + 1)];
      ok := SendSymbol(16 * r + 1, st, items0);
      if !ok {
        MissingCoef(st, items, v, sign, k, br);
        return;
      }
      SendsNothing(st, items0, Sym(16 * r + 1));
      SendSign(sign, st, items);
      items := items + [Raw([sign])];
      SendBits(at, n, br, st, items);
      SendsNothing(st, items, Raw(br));
      items := items + [Raw(br)];
    }

    method SendSign(sign: bit, ghost st: Start, ghost items: seq<Item>)
      requires Shape() && w.Valid() && st.eobrun <= MAX_RUN && Sends(st, items) && items != []
      modifies w
      ensures w.Valid() && w.done == old(w.done) && Sends(st, items + [Raw([sign])])
    {
      hide Writer.Valid, EobItems, BitsOf;
      OneBit(sign);
      var ok := w.EmitBits(sign, 1);
      SendMore(st.sent, EobItems(st.eobrun, st.be), items, [Raw([sign])]);
    }

    lemma MissingCoef(st: Start, items: seq<Item>, v: seq<int>, b: bit, k: nat, br: seq<bit>)
      requires Coding(v, al, ss, se, items + [Raw([b])] + [Raw(br)], k + 1, 0, []) && st.eobrun <= MAX_RUN
      requires !w.CanSend(Sending(st, items))
      ensures Fails(st, v)
    {
      hide Writer.CanSend, Coding, Block, EobItems;
      var more := [Raw([b])] + [Raw(br)];
      w.CanSendParts(Sending(st, items), more);
      Assoc(EobItems(st.eobrun, st.be), items, more);
      Assoc(items, [Raw([b])], [Raw(br)]);
      Missing(st, items + [Raw([b])] + [Raw(br)], v, k + 1, 0, []);
    }

    /** A correction bit joins those held back; the buffer has room for it. */
    method HoldBit(n: nat, b: bit, ghost br: seq<bit>, ghost st: Start, ghost items: seq<Item>)
      requires Shape() && w.Valid() && st.eobrun <= MAX_RUN && Sends(st, items) && Holds(n, br) && be + n < MAX_CORR_BITS
      modifies bitBuffer
      ensures Shape() && w.Valid() && Sends(st, items) && Holds(n + 1, br + [b])
    {
      hide Writer.Valid, EobItems;
      ghost var was := bitBuffer[..];
      bitBuffer[be + n] := b;
      assert bitBuffer[..be] == was[..be];
      assert bitBuffer[be..be + n + 1] == was[be..be + n] + [b];
    }

    /** One nonzero coefficient: due ZRLs, then a correction bit to hold back or a symbol. */
    method CodeCoef(k: nat, r0: nat, n0: nat, temp: nat, sign: bit, eob: nat, ghost v: seq<int>, ghost st: Start,
        ghost items0: seq<Item>, ghost br0: seq<bit>)
      returns (ok: bool, r: nat, n: nat, ghost items: seq<Item>, ghost br: seq<bit>)
      requires Shape() && w.Valid() && st.eobrun <= MAX_RUN && Sends(st, items0) && (eobrun == 0 ==> be == 0)
      requires Coding(v, al, ss, se, items0, k, r0, br0) && k <= se && |v| == DCTSIZE2 && eob == Eob(v, al, ss, se + 1)
      requires temp == Mag(v[k], al) > 0 && (temp == 1 ==> sign == Sign(v[k])) && Holds(n0, br0) && be + n0 < MAX_CORR_BITS
      modifies this, bitBuffer, w, w.counts
      ensures w.Valid() && w.done == old(w.done)
      ensures ok ==> Shape() && Sends(st, items) && (eobrun == 0 ==> be == 0) && Holds(n, br) && be + n <= old(be) + n0 + 1
      ensures ok ==> Coding(v, al, ss, se, items, k + 1, r, br)
      ensures !ok ==> Fails(st, v)
    {
      hide Writer.Valid, Writer.CanSend, Coding, Block, Mag, Eob, Sending, Sends, Holds;
      ok, r, n, items, br := SendZrls(k, r0, n0, eob, v, st, items0, br0);
      if !ok {
        return;
      }
      if temp > 1 {
        CodingCorrection(v, al, ss, se, items, k, r, br);
        HoldBit(n, temp % 2, br, st, items);
        n, br := n + 1, br + [temp % 2];
      } else {
        ok, items := SendCoef(k, r, n, sign, v, st, items, br);
        r, n, br := 0, 0, [];
        if ok {
          HoldsNothing();
        }
      }
    }

    lemma HoldsNothing()
      requires Shape() && be == 0
      ensures Holds(0, [])
    {
    }

    /** The coefficient loop of encode_mcu_AC_refine. */
    method CodeBlock(p: Prepared, ghost v: seq<int>, ghost st: Start)
      returns (ok: bool, trailing: bool, n: nat, ghost items: seq<Item>, ghost br: seq<bit>)
      requires Valid() && st == Start(w.sent, eobrun, Corrections()) && |v| == DCTSIZE2 && Prepares(p, v, al, ss, se + 1)
      modifies this, bitBuffer, w, w.counts
      ensures w.Valid() && w.done == old(w.done)
      ensures ok ==> Shape() && Sends(st, items) && (eobrun == 0 ==> be == 0) && Holds(n, br)
      ensures ok ==> Block(v, al, ss, se) == Refinement(items, br, trailing || n > 0)
      ensures !ok ==> Fails(st, v)
    {
      hide Writer.Valid, Writer.CanSend, Coding, Block, Mag, Eob, Sending, Sends, Holds, Mask, NonzeroBits, SignBits;
      ghost var nz, sg := NonzeroBits(v, al, ss, se + 1), SignBits(v, al, ss, se + 1);
      var k, r, eob := ss, 0, ss + p.eob;
      var zerobits, signbits := p.zerobits, p.signbits;
      ok, n, items, br, trailing := true, 0, [], [], false;
      CodingStart(v, al, ss, se);
      StartSends(st);
      assert nz[0..] == nz && sg[0..] == sg;
      while zerobits != 0
        invariant ok && Shape() && w.Valid() && Sends(st, items) && (eobrun == 0 ==> be == 0) && Holds(n, br)
        invariant w.done == old(w.done) && ss <= k <= se + 1 && be + n <= MAX_CORR_BITS - DCTSIZE2 + 1 + (k - ss)
        invariant Coding(v, al, ss, se, items, k, r, br)
        invariant zerobits == Mask(nz[k - ss..]) && signbits == Mask(sg[k - ss..])
        decreases se + 1 - k
      {
        var idx;
        ghost var k0 := k;
        idx, zerobits := CountZeroes(zerobits, nz[k - ss..]);
        MaskDrop(sg[k - ss..], idx);
        SkippedZeros(v, al, ss, se, k, idx);
        CodingZeros(v, al, ss, se, items, k, r, br, idx);
        signbits := Shr(signbits, idx);
        r, k := r + idx, k + idx;
        assert nz[k0 - ss..][idx..] == nz[k - ss..] && sg[k0 - ss..][idx..] == sg[k - ss..];
        MaskHead(nz[k - ss..]);
        MaskHead(sg[k - ss..]);
        ok, r, n, items, br := CodeCoef(k, r, n, p.absvalues[k - ss], signbits % 2, eob, v, st, items, br);
        if !ok {
          return;
        }
        assert nz[k - ss..][1..] == nz[k + 1 - ss..] && sg[k - ss..][1..] == sg[k + 1 - ss..];
        k, zerobits, signbits := k + 1, zerobits / 2, signbits / 2;
      }
      MaskZero(nz[k - ss..]);
      NoMore(v, al, ss, se, k, nz[k - ss..]);
      CodingEnd(v, al, ss, se, items, k, r, br);
      HoldsSize(n, br);
      trailing := r > 0 || k <= se;
    }

    lemma HoldsSize(n: nat, br: seq<bit>)
      requires Shape() && Holds(n, br)
      ensures |br| == n
    {
    }

    lemma StartSends(st: Start)
      requires Valid() && st == Start(w.sent, eobrun, Corrections())
      ensures Sends(st, []) && Holds(0, [])
    {
      hide Writer.Valid;
    }

    /** What the coefficient loop leaves behind: the run with this block in it. */
    lemma BlockInRun(st: Start, v: seq<int>, items: seq<Item>, n: nat, br: seq<bit>, open: bool)
      requires Shape() && st.eobrun < MAX_RUN && Sends(st, items) && Holds(n, br) && (eobrun == 0 ==> be == 0)
      requires |v| == DCTSIZE2 && Block(v, al, ss, se) == Refinement(items, br, open)
      ensures var f := Block(v, al, ss, se);
        && w.sent == st.sent + SentBy(f, st.eobrun, st.be) && be + n <= MAX_CORR_BITS && eobrun < MAX_RUN
        && RunAfter(f, st.eobrun, st.be) == if open then (eobrun + 1, bitBuffer[..be + n]) else (eobrun, Corrections())
    {
      hide Block, EobItems;
      BlockEnds(v, al, ss, se);
      assert st.sent + [] == st.sent;
      assert bitBuffer[..be + n] == Corrections() + br;
      assert [] + br == br;
    }

    /** The state between MCUs, relative to one in which st was pending and v began. */
    ghost predicate Codes(st: Start, v: seq<int>, rest: seq<seq<int>>)
      requires Shape() && eobrun < MAX_RUN && st.eobrun < MAX_RUN && |v| == DCTSIZE2 && Bands(rest)
      reads this, w, bitBuffer
    {
      w.sent + Scan(rest, eobrun, Corrections(), al, ss, se) == st.sent + Scan([v] + rest, st.eobrun, st.be, al, ss, se)
    }

    lemma NoScan(st: Start, v: seq<int>, rest: seq<seq<int>>)
      requires Fails(st, v) && st.eobrun < MAX_RUN && Bands(rest)
      ensures !w.CanSend(Scan([v] + rest, st.eobrun, st.be, al, ss, se))
    {
      hide Writer.CanSend, Block, EobItems, Scan, Settle;
      var f := Block(v, al, ss, se);
      var a := RunAfter(f, st.eobrun, st.be);
      ScanSplits(v, rest, st.eobrun, st.be, al, ss, se);
      w.CanSendParts(SentBy(f, st.eobrun, st.be), Settle(rest, a.0, a.1, al, ss, se));
    }

    lemma NoFlush(st: Start, v: seq<int>, rest: seq<seq<int>>)
      requires |v| == DCTSIZE2 && ss <= se < DCTSIZE2 && st.eobrun < MAX_RUN && Bands(rest)
      requires var a := RunAfter(Block(v, al, ss, se), st.eobrun, st.be);
        MustFlush(a.0, |a.1|) && !w.CanSend(EobItems(a.0, a.1))
      ensures !w.CanSend(Scan([v] + rest, st.eobrun, st.be, al, ss, se))
    {
      hide Writer.CanSend, Block, EobItems, Scan;
      var f := Block(v, al, ss, se);
      var a := RunAfter(f, st.eobrun, st.be);
      ScanSplits(v, rest, st.eobrun, st.be, al, ss, se);
      w.CanSendParts(SentBy(f, st.eobrun, st.be), Settle(rest, a.0, a.1, al, ss, se));
      w.CanSendParts(EobItems(a.0, a.1), Scan(rest, 0, [], al, ss, se));
    }

    /** The block is in the run, and the run may go on. */
    lemma CodesOn(st: Start, v: seq<int>, rest: seq<seq<int>>)
      requires Shape() && |v| == DCTSIZE2 && st.eobrun < MAX_RUN && Bands(rest) && eobrun < MAX_RUN
      requires (eobrun, Corrections()) == RunAfter(Block(v, al, ss, se), st.eobrun, st.be)
      requires w.sent == st.sent + SentBy(Block(v, al, ss, se), st.eobrun, st.be)
      requires !MustFlush(eobrun, be)
      ensures Codes(st, v, rest)
    {
      hide Block, EobItems, Scan;
      ScanSplits(v, rest, st.eobrun, st.be, al, ss, se);
      Assoc(st.sent, SentBy(Block(v, al, ss, se), st.eobrun, st.be), Scan(rest, eobrun, Corrections(), al, ss, se));
    }

    /** The block was the last of the run. */
    lemma CodesFlushed(st: Start, v: seq<int>, rest: seq<seq<int>>)
      requires Shape() && |v| == DCTSIZE2 && st.eobrun < MAX_RUN && Bands(rest) && eobrun == 0 && be == 0
      requires var f := Block(v, al, ss, se);
        var a := RunAfter(f, st.eobrun, st.be);
        MustFlush(a.0, |a.1|) && w.sent == (st.sent + SentBy(f, st.eobrun, st.be)) + EobItems(a.0, a.1)
      ensures Codes(st, v, rest)
    {
      hide Block, EobItems, Scan;
      ScanSplits(v, rest, st.eobrun, st.be, al, ss, se);
      var f := Block(v, al, ss, se);
      var a := RunAfter(f, st.eobrun, st.be);
      var t := Scan(rest, 0, [], al, ss, se);
      Assoc(st.sent + SentBy(f, st.eobrun, st.be), EobItems(a.0, a.1), t);
      Assoc(st.sent, SentBy(f, st.eobrun, st.be), EobItems(a.0, a.1) + t);
    }

    /** encode_mcu_AC_refine, without its restart handling: whatever blocks follow, what was
    sent and what is still to come make up the same scan as before. */
    method EncodeMcu(block: array<int>, ghost rest: seq<seq<int>>) returns (ok: bool)
      requires Valid() && block.Length == DCTSIZE2 && Bands(rest) && block as object != bitBuffer as object
      modifies this, bitBuffer, w, w.counts
      ensures ok ==> Valid() && w.done == old(w.done)
      ensures ok ==> Codes(Start(old(w.sent), old(eobrun), old(Corrections())), ViewOf(old(block[..])), rest)
      ensures !ok ==> !w.CanSend(Scan([ViewOf(old(block[..]))] + rest, old(eobrun), old(Corrections()), al, ss, se))
    {
      hide Writer.Valid, Writer.CanSend, Block, Holds, Prepares, ViewOf, Scan, Codes, EobItems, Fails;
      ghost var v, st := ViewOf(block[..]), Start(w.sent, eobrun, Corrections());
      var p := Prepare(block, al, ss, se);
      var trailing, n;
      ghost var items, br;
      ok, trailing, n, items, br := CodeBlock(p, v, st);
      if !ok {
        NoScan(st, v, rest);
        return;
      }
      HoldsSize(n, br);
      BlockInRun(st, v, items, n, br, trailing || n > 0);
      if trailing || n > 0 {
        eobrun := eobrun + 1;
        be := be + n;
        if eobrun == MAX_RUN || be > MAX_CORR_BITS - DCTSIZE2 + 1 {
          ok := EmitEobrun();
          if ok {
            CodesFlushed(st, v, rest);
          } else {
            NoFlush(st, v, rest);
          }
          return;
        }
      }
      CodesOn(st, v, rest);
    }
  }

  lemma MaskHead(s: seq<bit>)
    requires s != []
    ensures Mask(s) % 2 == s[0] && Mask(s) / 2 == Mask(s[1..])
  {
  }

  lemma SkippedZeros(v: seq<int>, al: nat, ss: nat, se: nat, k: nat, idx: nat)
    requires |v| == DCTSIZE2 && ss <= k <= se < DCTSIZE2 && k + idx <= se
    requires var s := NonzeroBits(v, al, ss, se + 1)[k - ss..];
      (forall i :: 0 <= i < idx ==> s[i] == 0) && s[idx] == 1
    ensures (forall j :: k <= j < k + idx ==> Mag(v[j], al) == 0) && Mag(v[k + idx], al) > 0
    ensures SignBits(v, al, ss, se + 1)[k - ss..][idx] == Sign(v[k + idx])
  {
    hide Mag;
    var s := NonzeroBits(v, al, ss, se + 1);
    forall j | k <= j <= k + idx
      ensures s[k - ss..][j - k] == if Mag(v[j], al) > 0 then 1 else 0
    {
      assert s[k - ss..][j - k] == s[j - ss];
    }
  }

  lemma NoMore(v: seq<int>, al: nat, ss: nat, se: nat, k: nat, t: seq<bit>)
    requires |v| == DCTSIZE2 && ss <= k <= se + 1 <= DCTSIZE2 && t == NonzeroBits(v, al, ss, se + 1)[k - ss..]
    requires forall i :: 0 <= i < |t| ==> t[i] == 0
    ensures forall j :: k <= j <= se ==> Mag(v[j], al) == 0
  {
    hide Mag;
    var s := NonzeroBits(v, al, ss, se + 1);
    forall j | k <= j <= se
      ensures Mag(v[j], al) == 0
    {
      assert 0 == t[j - k] == s[j - ss];
    }
  }

  /** Where an MCU began: what was sent, and the pending run. */
  datatype Start = Start(sent: seq<Item>, eobrun: nat, be: seq<bit>)

  lemma NoRun(bits: seq<bit>)
    ensures EobItems(0, bits) == []
  {
  }

  lemma SendMore(sent: seq<Item>, run: seq<Item>, items: seq<Item>, more: seq<Item>)
    ensures (sent + (run + items)) + more == sent + (run + (items + more))
  {
  }
}
