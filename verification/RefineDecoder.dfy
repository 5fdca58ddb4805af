/** decode_mcu_AC_refine of jdphuff.c: the block is refined in place and, when the input runs
dry, newly nonzero coefficients are taken back. */
module RefineDecoder {

  import opened Wrappers
  import opened CodeString
  import opened PrefixCode
  import CanonicalCode
  import opened DerivedTables
  import opened DecodingTables
  import opened ZigZag
  import opened Coefficients
  import opened RefineSpec
  import opened BitReader

  /** Apply a correction bit of 1 in place; "do nothing if already set it". */
  method CorrectCoef(block: array<int>, k: nat, al: nat)
    requires block.Length == DCTSIZE2 && k < DCTSIZE2
    modifies block
    ensures ViewOf(block[..]) == Touch(ViewOf(old(block[..])), k, al, 1)
  {
    hide NaturalOrder, ViewOf, BitSet, Short, Shl;
    var pos := NaturalOrder(k);
    ghost var was := block[..];
    ViewAt(was, k);
    assert ViewOf(was)[k := ViewOf(was)[k]] == ViewOf(was);
    if !BitSet(block[pos], al) {
      var v := if block[pos] >= 0 then Short(block[pos] + Shl(1, al)) else Short(block[pos] - Shl(1, al));
      ViewUpdate(was, k, v);
      block[pos] := v;
      assert block[..] == was[pos := v];
    }
  }

  /** One nonzero coefficient takes its correction bit. */
  method TouchCoef(br: Reader, block: array<int>, k: nat, al: nat) returns (ok: bool, ghost b: bit)
    requires br.Supplied(1) && block.Length == DCTSIZE2 && k < DCTSIZE2
    modifies br, block
    ensures br.Valid() && (!ok ==> br.Suspended() && block[..] == old(block[..]))
    ensures ok ==> br.Advanced(1) && |old(br.Known())| > 0
    ensures ok ==> b == old(br.Known())[0] && br.Known() == old(br.Known())[1..]
    ensures ok ==> ViewOf(block[..]) == Touch(ViewOf(old(block[..])), k, al, b)
  {
    hide NaturalOrder, ViewOf, Reader.Known, Correct, Reader.Advanced, Reader.Suspended;
    var bit: bit;
    ok, bit := br.GetBit();
    b := bit;
    if ok && bit == 1 {
      CorrectCoef(block, k, al);
    }
  }

  /** How a walk over the band that was cut short at position k has left the coefficients. */
  predicate CutShort(c: seq<int>, d: seq<int>, k: nat, p: Option<Place>) {
    && |c| == |d| == DCTSIZE2
    && (forall j :: k <= j < DCTSIZE2 ==> d[j] == c[j])
    && (p.Some? ==> |p.value.c| == DCTSIZE2 && forall j :: 0 <= j < k && j < DCTSIZE2 ==> d[j] == p.value.c[j])
  }

  lemma AdvanceCut(c: seq<int>, d: seq<int>, k0: nat, r0: nat, k: nat, r: nat, al: nat, se: nat, s0: seq<bit>, s: seq<bit>)
    requires |c| == |d| == DCTSIZE2 && k0 <= k <= se + 1 <= DCTSIZE2
    requires Advance(c, k0, r0, al, se, s0) == Advance(d, k, r, al, se, s)
    requires forall j :: k <= j < DCTSIZE2 ==> d[j] == c[j]
    ensures CutShort(c, d, k, Advance(c, k0, r0, al, se, s0))
  {
    if Advance(d, k, r, al, se, s).Some? {
      AdvanceKeeps(d, k, r, al, se, s);
    }
  }

  lemma TouchOne(c: seq<int>, k: nat, al: nat, b: bit)
    requires |c| == DCTSIZE2 && k < DCTSIZE2
    ensures forall j :: 0 <= j < DCTSIZE2 && j != k ==> Touch(c, k, al, b)[j] == c[j]
  {
  }

  /** One turn of the do-while loop: a correction bit, a zero passed over, or the target zero. */
  method AdvanceOne(br: Reader, block: array<int>, k: nat, r: nat, al: nat, se: nat)
    returns (ok: bool, stop: bool, left: nat)
    requires br.Supplied(1) && block.Length == DCTSIZE2 && k <= se < DCTSIZE2
    modifies br, block
    ensures br.Valid() && (!ok ==> br.Suspended() && block[..] == old(block[..]))
    ensures ok ==> br.Advanced(1)
    ensures ok && stop ==> block[..] == old(block[..]) && br.Known() == old(br.Known())
    ensures ok && stop ==> br.supply == old(br.supply) && br.insufficient == old(br.insufficient)
    ensures var v, w := ViewOf(old(block[..])), ViewOf(block[..]);
      ok ==> (Advance(v, k, r, al, se, old(br.Known()))
              == if stop then Some(Place(w, k, br.Known()))
                 else Advance(w, k + 1, left, al, se, br.Known()))
    ensures ok ==> forall j :: 0 <= j < DCTSIZE2 && j != k ==> ViewOf(block[..])[j] == ViewOf(old(block[..]))[j]
  {
    hide NaturalOrder, ViewOf, Advance, Touch, Reader.Known;
    AdvanceStep(ViewOf(block[..]), k, r, al, se, br.Known());
    ViewAt(block[..], k);
    ok, stop, left := true, false, r;
    if block[NaturalOrder(k)] != 0 {
      ghost var v, b := ViewOf(block[..]), 0;
      ok, b := TouchCoef(br, block, k, al);
      TouchOne(v, k, al, b);
    } else if r == 0 {
      stop := true;
    } else {
      left := r - 1;
    }
  }

  /** The do-while loop: pass over nonzero coefficients and r still-zero ones, taking
  correction bits. */
  method AdvanceCoefs(br: Reader, block: array<int>, k0: nat, r0: nat, al: nat, se: nat)
    returns (ok: bool, k: nat)
    requires k0 <= se < DCTSIZE2 && br.Supplied(se + 2 - k0) && block.Length == DCTSIZE2
    modifies br, block
    ensures br.Valid() && k0 <= k <= se + 1 && (!ok ==> br.Suspended())
    ensures var c, p := ViewOf(old(block[..])), Advance(ViewOf(old(block[..])), k0, r0, al, se, old(br.Known()));
      if ok then br.Advanced(k - k0) && p == Some(Place(ViewOf(block[..]), k, br.Known()))
      else CutShort(c, ViewOf(block[..]), k, p)
  {
    hide NaturalOrder, ViewOf, Advance, Touch, Reader.Known;
    ghost var c, s0 := ViewOf(block[..]), br.Known();
    k := k0;
    var r: nat := r0;
    var stop := false;
    while true
      invariant br.Valid() && br.Advanced(k - k0) && k0 <= k <= se
      invariant Advance(c, k0, r0, al, se, s0) == Advance(ViewOf(block[..]), k, r, al, se, br.Known())
      invariant forall j :: k <= j < DCTSIZE2 ==> ViewOf(block[..])[j] == c[j]
      decreases se - k
    {
      AdvanceCut(c, ViewOf(block[..]), k0, r0, k, r, al, se, s0, br.Known());
      ok, stop, r := AdvanceOne(br, block, k, r, al, se);
      if !ok || stop {
        return;
      }
      k := k + 1;
      if k > se {
        AdvanceStep(ViewOf(block[..]), se, r, al, se, br.Known());
        return;
      }
    }
  }

  lemma FinishCut(c: seq<int>, d: seq<int>, k0: nat, k: nat, al: nat, se: nat, s0: seq<bit>, s: seq<bit>)
    requires |c| == |d| == DCTSIZE2 && k0 <= k <= se + 1 <= DCTSIZE2
    requires Finish(c, k0, al, se, s0) == Finish(d, k, al, se, s)
    requires forall j :: k <= j < DCTSIZE2 ==> d[j] == c[j]
    ensures CutShort(c, d, k, Finish(c, k0, al, se, s0))
  {
    if Finish(d, k, al, se, s).Some? {
      FinishKeeps(d, k, al, se, s);
    }
  }

  /** One turn of the loop behind an end of band. */
  method FinishOne(br: Reader, block: array<int>, k: nat, al: nat, se: nat) returns (ok: bool)
    requires br.Supplied(1) && block.Length == DCTSIZE2 && k <= se < DCTSIZE2
    modifies br, block
    ensures br.Valid() && (!ok ==> br.Suspended() && block[..] == old(block[..])) && (ok ==> br.Advanced(1))
    ensures var v, w := ViewOf(old(block[..])), ViewOf(block[..]);
      ok ==> Finish(v, k, al, se, old(br.Known())) == Finish(w, k + 1, al, se, br.Known())
    ensures ok ==> forall j :: 0 <= j < DCTSIZE2 && j != k ==> ViewOf(block[..])[j] == ViewOf(old(block[..]))[j]
  {
    hide NaturalOrder, ViewOf, Finish, Touch, Reader.Known;
    FinishStep(ViewOf(block[..]), k, al, se, br.Known());
    ViewAt(block[..], k);
    ok := true;
    if block[NaturalOrder(k)] != 0 {
      ghost var v, b := ViewOf(block[..]), 0;
      ok, b := TouchCoef(br, block, k, al);
      TouchOne(v, k, al, b);
    }
  }

  /** The loop behind an end of band: correction bits for every nonzero coefficient left. */
  method FinishCoefs(br: Reader, block: array<int>, k0: nat, al: nat, se: nat) returns (ok: bool, ghost k: nat)
    requires k0 <= se + 1 <= DCTSIZE2 && br.Supplied(se + 1 - k0) && block.Length == DCTSIZE2
    modifies br, block
    ensures br.Valid() && (!ok ==> br.Suspended())
    ensures var c, p := ViewOf(old(block[..])), Finish(ViewOf(old(block[..])), k0, al, se, old(br.Known()));
      if ok then br.Advanced(se + 1 - k0) && p == Some(Place(ViewOf(block[..]), se + 1, br.Known()))
      else CutShort(c, ViewOf(block[..]), k, p)
  {
    hide NaturalOrder, ViewOf, Finish, Touch, Reader.Known;
    ghost var c, s0 := ViewOf(block[..]), br.Known();
    var at: nat := k0;
    ok, k := true, at;
    while at <= se
      invariant br.Valid() && br.Advanced(at - k0) && k0 <= at <= se + 1 && ok
      invariant Finish(c, k0, al, se, s0) == Finish(ViewOf(block[..]), at, al, se, br.Known())
      invariant forall j :: at <= j < DCTSIZE2 ==> ViewOf(block[..])[j] == c[j]
    {
      FinishCut(c, ViewOf(block[..]), k0, at, al, se, s0, br.Known());
      k := at;
      ok := FinishOne(br, block, at, al, se);
      if !ok {
        return;
      }
      at := at + 1;
    }
    FinishDone(ViewOf(block[..]), se, al, br.Known());
  }

  lemma FinishDone(c: seq<int>, se: nat, al: nat, s: seq<bit>)
    requires |c| == DCTSIZE2 && se < DCTSIZE2
    ensures Finish(c, se + 1, al, se, s) == Some(Place(c, se + 1, s))
  {
  }

  /** HUFF_DECODE of a run/size symbol, and the sign bit or run length bits that follow it. */
  method DecodeEvent(br: Reader, t: DTable, ghost h: HuffTbl) returns (ok: bool, e: Event)
    requires br.Supplied(20) && Decodes(h, t)
    modifies br
    ensures br.Valid() && (!ok ==> br.Suspended())
    ensures ok ==> br.Advanced(20) && ReadEvent(CodeOf(h), old(br.Known())) == Some((e, br.Known()))
  {
    hide Reader.Known, CodeOf, ReadSym, Decodes, Number, Accepted;
    e := Skip;
    var rs;
    ok, rs := br.HuffDecode(t, h);
    if !ok {
      return;
    }
    var r, size := rs / 16, rs % 16;
    if size != 0 {
      var positive;
      ok, positive := br.GetBit();
      e := Coef(r, positive == 1);
    } else if r != 15 {
      var more: nat;
      ok, more := br.GetBits(r);
      CanonicalCode.ShlPositive(r);
      e := EndRun(Shl(1, r) + more);
    }
  }

  predicate IsNew(news: seq<(nat, int)>, j: nat) {
    exists i :: 0 <= i < |news| && news[i].0 == j
  }

  lemma {:induction false} ApplyElsewhere(c: seq<int>, news: seq<(nat, int)>, j: nat)
    requires |c| == DCTSIZE2 && InBlock(news) && j < DCTSIZE2 && !IsNew(news, j)
    ensures Apply(c, news)[j] == c[j]
  {
    if news != [] {
      var m := news[..|news| - 1];
      assert news[|news| - 1].0 != j;
      assert !IsNew(m, j) by {
        assert forall i :: 0 <= i < |m| ==> m[i] == news[i];
      }
      ApplyElsewhere(c, m, j);
    }
  }

  lemma {:induction false} ApplyTouched(c: seq<int>, news: seq<(nat, int)>, j: nat, v: int)
    requires |c| == DCTSIZE2 && InBlock(news) && j < DCTSIZE2 && !IsNew(news, j)
    ensures Apply(c[j := v], news) == Apply(c, news)[j := v]
  {
    if news != [] {
      var m, n := news[..|news| - 1], news[|news| - 1];
      assert n.0 != j;
      assert !IsNew(m, j) by {
        assert forall i :: 0 <= i < |m| ==> m[i] == news[i];
      }
      ApplyTouched(c, m, j, v);
    }
  }

  /** All coefficients made nonzero so far lie behind position k. */
  predicate Behind(news: seq<(nat, int)>, k: nat) {
    InBlock(news) && forall i :: 0 <= i < |news| ==> news[i].0 < k
  }

  /** Walking on is not influenced by what was made nonzero behind. */
  lemma {:induction false} AdvanceApplied(c: seq<int>, news: seq<(nat, int)>, k: nat, r: nat, al: nat, se: nat, s: seq<bit>)
    requires |c| == DCTSIZE2 && k <= se + 1 <= DCTSIZE2 && Behind(news, k)
    ensures var p := Advance(c, k, r, al, se, s);
      Advance(Apply(c, news), k, r, al, se, s)
      == if p.None? then None else Some(Place(Apply(p.value.c, news), p.value.k, p.value.rest))
    decreases se + 1 - k
  {
    hide Apply, Correct;
    if k <= se {
      ApplyElsewhere(c, news, k);
      if c[k] != 0 {
        if s != [] {
          ApplyTouched(c, news, k, Correct(c[k], al));
          AdvanceApplied(Touch(c, k, al, s[0]), news, k + 1, r, al, se, s[1..]);
        }
      } else if r > 0 {
        AdvanceApplied(c, news, k + 1, r - 1, al, se, s);
      }
    }
  }

  lemma {:induction false} FinishApplied(c: seq<int>, news: seq<(nat, int)>, k: nat, al: nat, se: nat, s: seq<bit>)
    requires |c| == DCTSIZE2 && k <= se + 1 <= DCTSIZE2 && Behind(news, k)
    ensures var p := Finish(c, k, al, se, s);
      Finish(Apply(c, news), k, al, se, s)
      == if p.None? then None else Some(Place(Apply(p.value.c, news), se + 1, p.value.rest))
    decreases se + 1 - k
  {
    hide Apply, Correct;
    if k <= se {
      ApplyElsewhere(c, news, k);
      if c[k] != 0 {
        if s != [] {
          ApplyTouched(c, news, k, Correct(c[k], al));
          FinishApplied(Touch(c, k, al, s[0]), news, k + 1, al, se, s[1..]);
        }
      } else {
        FinishApplied(c, news, k + 1, al, se, s);
      }
    }
  }

  /** A walk that stops inside the band stops at a zero. */
  lemma {:induction false} AdvanceStops(c: seq<int>, k: nat, r: nat, al: nat, se: nat, s: seq<bit>)
    requires |c| == DCTSIZE2 && k <= se + 1 <= DCTSIZE2 && Advance(c, k, r, al, se, s).Some?
    ensures var p := Advance(c, k, r, al, se, s).value;
      p.k <= se ==> p.c[p.k] == 0
    decreases se + 1 - k
  {
    if k > se {
    } else if c[k] != 0 {
      AdvanceStops(Touch(c, k, al, s[0]), k + 1, r, al, se, s[1..]);
    } else if r > 0 {
      AdvanceStops(c, k + 1, r - 1, al, se, s);
    }
  }

  /** Positions taken back are zero, the others as they were. */
  predicate TakenBack(b: seq<int>, c: seq<int>, news: seq<(nat, int)>) {
    && |b| == |c| == DCTSIZE2
    && forall j :: 0 <= j < DCTSIZE2 ==> c[j] == if IsNew(news, j) then 0 else b[j]
  }

  lemma TakeBackOne(b: seq<int>, c: seq<int>, news: seq<(nat, int)>, n: nat)
    requires InBlock(news) && n < |news| && TakenBack(b, c, news[n + 1..])
    ensures TakenBack(b, c[news[n].0 := 0], news[n..])
  {
    var l, m := news[n + 1..], news[n..];
    assert m == [news[n]] + l;
    forall j | 0 <= j < DCTSIZE2
      ensures IsNew(m, j) == (IsNew(l, j) || news[n].0 == j)
    {
      assert m[0].0 == news[n].0;
      if IsNew(l, j) {
        var i :| 0 <= i < |l| && l[i].0 == j;
        assert m[i + 1].0 == j;
      }
    }
  }

  /** newnz_pos: where the newly nonzero coefficients are. */
  ghost predicate Positions(pos: seq<nat>, news: seq<(nat, int)>) {
    InBlock(news) && |pos| == |news| && forall i :: 0 <= i < |news| ==> pos[i] == NaturalOrder(news[i].0)
  }

  /** undoit: zero the coefficients this pass made nonzero. */
  method Undo(block: array<int>, newnz: seq<nat>, ghost news: seq<(nat, int)>)
    requires block.Length == DCTSIZE2 && Positions(newnz, news)
    modifies block
    ensures TakenBack(ViewOf(old(block[..])), ViewOf(block[..]), news)
  {
    hide NaturalOrder, ViewOf, TakenBack;
    var num := |newnz|;
    ghost var v := ViewOf(block[..]);
    NothingTaken(v);
    assert news[num..] == [];
    while num > 0
      invariant 0 <= num <= |newnz| && TakenBack(v, ViewOf(block[..]), news[num..])
    {
      num := num - 1;
      ghost var was := block[..];
      TakeBackOne(v, ViewOf(was), news, num);
      ViewUpdate(was, news[num].0, 0);
      block[newnz[num]] := 0;
      assert block[..] == was[newnz[num] := 0];
    }
    assert news[0..] == news;
  }

  lemma NothingTaken(v: seq<int>)
    requires |v| == DCTSIZE2
    ensures TakenBack(v, v, [])
  {
  }

  /** Where a pass over the band stands: b is the block, v0 the block before the pass, cur the
  block with corrections only. */
  ghost predicate Progress(v0: seq<int>, cur: seq<int>, news: seq<(nat, int)>, b: seq<int>, ss: nat, k: nat, se: nat) {
    && |v0| == |cur| == |b| == DCTSIZE2 && InBlock(news) && b == Apply(cur, news) && ss <= k && |news| <= k - ss
    && (forall j :: k <= j < DCTSIZE2 ==> cur[j] == v0[j])
    && (forall j :: 0 <= j < DCTSIZE2 && v0[j] == 0 ==> cur[j] == 0)
    && (k <= se ==> Behind(news, k) && forall i :: 0 <= i < |news| ==> cur[news[i].0] == 0)
  }

  lemma ProgressStart(v: seq<int>, ss: nat, se: nat)
    requires |v| == DCTSIZE2 && ss <= se < DCTSIZE2
    ensures Progress(v, v, [], v, ss, ss, se)
  {
  }

  /** Interrupted before a symbol. */
  lemma CutAtSymbol(h: Code, v0: seq<int>, cur: seq<int>, news: seq<(nat, int)>, b: seq<int>, w: seq<int>,
      ss: nat, k: nat, al: nat, se: nat, s: seq<bit>)
    requires PrefixFree(h) && k <= se < DCTSIZE2 && Progress(v0, cur, news, b, ss, k, se) && TakenBack(b, w, news)
    requires Band(h, cur, k, news, al, se, s).Some?
    ensures Partial(v0, w, Band(h, cur, k, news, al, se, s).value.fix)
  {
    hide PrefixFree, Band, Apply;
    BandKeeps(h, cur, k, news, al, se, s);
    forall j | 0 <= j < DCTSIZE2
      ensures w[j] == cur[j]
    {
      if !IsNew(news, j) {
        ApplyElsewhere(cur, news, j);
      }
    }
  }

  /** Interrupted while passing over coefficients. */
  lemma CutInWalk(h: Code, v0: seq<int>, cur: seq<int>, news: seq<(nat, int)>, b: seq<int>, d: seq<int>, w: seq<int>,
      ss: nat, k: nat, kf: nat, al: nat, se: nat, s: seq<bit>)
    requires PrefixFree(h) && k <= se < DCTSIZE2 && Progress(v0, cur, news, b, ss, k, se)
    requires ReadEvent(h, s).Some? && !ReadEvent(h, s).value.0.EndRun?
    requires CutShort(b, d, kf, Advance(b, k, Run(ReadEvent(h, s).value.0), al, se, ReadEvent(h, s).value.1))
    requires TakenBack(d, w, news) && Band(h, cur, k, news, al, se, s).Some?
    ensures Partial(v0, w, Band(h, cur, k, news, al, se, s).value.fix)
  {
    hide PrefixFree, Apply, ReadEvent, Advance;
    var e, t := ReadEvent(h, s).value.0, ReadEvent(h, s).value.1;
    AdvanceApplied(cur, news, k, Run(e), al, se, t);
    AdvanceKeeps(cur, k, Run(e), al, se, t);
    var p := Advance(cur, k, Run(e), al, se, t).value;
    BandKeeps(h, p.c, p.k + 1, NewsAfter(news, e, p.k, al), al, se, p.rest);
    WalkIsPartial(v0, cur, news, b, d, w, ss, k, kf, se, p.c, Band(h, cur, k, news, al, se, s).value.fix);
  }

  /** Interrupted in the corrections behind the end of band. */
  lemma CutInFinish(v0: seq<int>, cur: seq<int>, news: seq<(nat, int)>, b: seq<int>, d: seq<int>, w: seq<int>,
      ss: nat, k: nat, kf: nat, n: nat, al: nat, se: nat, s: seq<bit>)
    requires k <= se < DCTSIZE2 && Progress(v0, cur, news, b, ss, k, se)
    requires CutShort(b, d, kf, Finish(b, k, al, se, s)) && TakenBack(d, w, news)
    requires FinishRun(cur, k, news, n, al, se, s).Some?
    ensures Partial(v0, w, FinishRun(cur, k, news, n, al, se, s).value.fix)
  {
    hide Apply, Finish;
    FinishApplied(cur, news, k, al, se, s);
    FinishKeeps(cur, k, al, se, s);
    var p := Finish(cur, k, al, se, s).value;
    WalkIsPartial(v0, cur, news, b, d, w, ss, k, kf, se, p.c, p.c);
  }

  lemma WalkIsPartial(v0: seq<int>, cur: seq<int>, news: seq<(nat, int)>, b: seq<int>, d: seq<int>, w: seq<int>,
      ss: nat, k: nat, kf: nat, se: nat, c: seq<int>, fix: seq<int>)
    requires k <= se && Progress(v0, cur, news, b, ss, k, se) && TakenBack(d, w, news) && |c| == |fix| == |d| == DCTSIZE2
    requires forall j :: kf <= j < DCTSIZE2 ==> d[j] == b[j]
    requires forall j :: 0 <= j < kf && j < DCTSIZE2 ==> d[j] == Apply(c, news)[j]
    requires forall j :: 0 <= j < DCTSIZE2 && c[j] != fix[j] ==> c[j] == v0[j]
    requires forall j :: 0 <= j < k && j < DCTSIZE2 ==> c[j] == cur[j] == fix[j]
    ensures Partial(v0, w, fix)
  {
    hide Apply;
    forall j | 0 <= j < DCTSIZE2
      ensures w[j] == v0[j] || w[j] == fix[j]
    {
      if IsNew(news, j) {
        var i :| 0 <= i < |news| && news[i].0 == j;
        assert cur[news[i].0] == 0;
      } else {
        ApplyElsewhere(c, news, j);
        ApplyElsewhere(cur, news, j);
      }
    }
  }

  /** Requests that may still be made from position k of a band on. */
  function Budget(k: nat): nat
    requires k <= DCTSIZE2 + 1
  {
    21 * (DCTSIZE2 + 2 - k)
  }

  /** The walk of one event, and the coefficient it makes nonzero. */
  lemma ProgressNext(h: Code, v0: seq<int>, cur: seq<int>, news: seq<(nat, int)>, b: seq<int>, d: seq<int>,
      ss: nat, k: nat, k1: nat, e: Event, al: nat, se: nat, s: seq<bit>, t: seq<bit>, u: seq<bit>) returns (c: seq<int>)
    requires PrefixFree(h) && k <= se < DCTSIZE2 && Progress(v0, cur, news, b, ss, k, se) && !e.EndRun?
    requires ReadEvent(h, s) == Some((e, t)) && k <= k1 <= se + 1
    requires |d| == DCTSIZE2 && Advance(b, k, Run(e), al, se, t) == Some(Place(d, k1, u))
    ensures |c| == DCTSIZE2
    ensures Band(h, cur, k, news, al, se, s) == Band(h, c, k1 + 1, NewsAfter(news, e, k1, al), al, se, u)
    ensures Progress(v0, c, NewsAfter(news, e, k1, al), if e.Coef? then d[NewAt(k1, true, al).0 := NewAt(k1, e.positive, al).1] else d,
      ss, k1 + 1, se)
  {
    hide PrefixFree, ReadEvent, Advance;
    AdvanceApplied(cur, news, k, Run(e), al, se, t);
    AdvanceKeeps(cur, k, Run(e), al, se, t);
    AdvanceStops(cur, k, Run(e), al, se, t);
    var p := Advance(cur, k, Run(e), al, se, t).value;
    c := p.c;
    var m := NewsAfter(news, e, k1, al);
    assert e.Coef? ==> m[..|m| - 1] == news;
  }

  /** Output a newly nonzero coefficient and remember its position. */
  method PutNew(block: array<int>, k: nat, positive: bool, al: nat, newnz: seq<nat>, ghost news: seq<(nat, int)>)
    returns (r: seq<nat>)
    requires block.Length == DCTSIZE2 && k <= DCTSIZE2 && Positions(newnz, news)
    modifies block
    ensures var n := NewAt(k, positive, al);
      ViewOf(block[..]) == ViewOf(old(block[..]))[n.0 := n.1] && Positions(r, news + [n])
  {
    hide NaturalOrder, ViewOf, Shl;
    // jpeg_natural_order has entries past its end that repeat the last position
    var at := if k < DCTSIZE2 then k else DCTSIZE2 - 1;
    var pos := NaturalOrder(at);
    ghost var was := block[..];
    block[pos] := if positive then Shl(1, al) else -Shl(1, al);
    ViewUpdate(was, at, block[pos]);
    assert block[..] == was[pos := block[pos]];
    r := newnz + [pos];
  }

  /** One turn of the symbol loop that is not an end of band. */
  method WalkEvent(br: Reader, block: array<int>, e: Event, k: nat, al: nat, se: nat, newnz: seq<nat>,
      ghost h: Code, ghost v0: seq<int>, ghost cur: seq<int>, ghost news: seq<(nat, int)>, ghost ss: nat,
      ghost s: seq<bit>)
    returns (ok: bool, k1: nat, more: seq<nat>, ghost cur': seq<int>, ghost news': seq<(nat, int)>)
    requires PrefixFree(h) && k <= se < DCTSIZE2 && br.Supplied(se + 2 - k) && block.Length == DCTSIZE2 && !e.EndRun?
    requires Progress(v0, cur, news, ViewOf(block[..]), ss, k, se) && Positions(newnz, news)
    requires |cur| == |v0| == DCTSIZE2
    requires ReadEvent(h, s) == Some((e, br.Known()))
    modifies br, block
    ensures br.Valid() && (!ok ==> br.Suspended()) && k < k1 <= se + 2
    ensures !ok && Band(h, cur, k, news, al, se, s).Some? ==>
      Partial(v0, ViewOf(block[..]), Band(h, cur, k, news, al, se, s).value.fix)
    ensures ok ==> br.Advanced(k1 - 1 - k) && Positions(more, news')
    ensures |cur'| == DCTSIZE2
    ensures ok ==> Progress(v0, cur', news', ViewOf(block[..]), ss, k1, se)
    ensures ok ==> Band(h, cur, k, news, al, se, s) == Band(h, cur', k1, news', al, se, br.Known())
  {
    hide PrefixFree, ReadEvent, Advance, Band, Progress, CutShort, ViewOf, TakenBack, Positions, Partial, Reader.Known;
    ghost var b, t := ViewOf(block[..]), br.Known();
    ok, k1 := AdvanceCoefs(br, block, k, Run(e), al, se);
    more, cur', news' := newnz, cur, news;
    ghost var d := ViewOf(block[..]);
    if !ok {
      Undo(block, newnz, news);
      if Band(h, cur, k, news, al, se, s).Some? {
        CutInWalk(h, v0, cur, news, b, d, ViewOf(block[..]), ss, k, k1, al, se, s);
      }
    } else {
      cur' := ProgressNext(h, v0, cur, news, b, d, ss, k, k1, e, al, se, s, t, br.Known());
      if e.Coef? {
        more := PutNew(block, k1, e.positive, al, newnz, news);
      }
      news' := NewsAfter(news, e, k1, al);
    }
    k1 := k1 + 1;
  }

  /** Suspension at a symbol: take back what this pass made nonzero. */
  method GiveUp(block: array<int>, newnz: seq<nat>, ghost h: Code, ghost v0: seq<int>, ghost cur: seq<int>,
      ghost news: seq<(nat, int)>, ghost ss: nat, ghost k: nat, ghost al: nat, ghost se: nat, ghost s: seq<bit>)
    requires PrefixFree(h) && k <= se < DCTSIZE2 && block.Length == DCTSIZE2 && |cur| == |v0| == DCTSIZE2
    requires Progress(v0, cur, news, ViewOf(block[..]), ss, k, se) && Positions(newnz, news)
    modifies block
    ensures Band(h, cur, k, news, al, se, s).Some? ==>
      Partial(v0, ViewOf(block[..]), Band(h, cur, k, news, al, se, s).value.fix)
  {
    hide PrefixFree, Band, Progress, ViewOf, TakenBack, Positions, Partial;
    ghost var b := ViewOf(block[..]);
    Undo(block, newnz, news);
    if Band(h, cur, k, news, al, se, s).Some? {
      CutAtSymbol(h, v0, cur, news, b, ViewOf(block[..]), ss, k, al, se, s);
    }
  }

  /** The symbol loop: up to the end of the band, or to an EOB symbol of eob > 0 blocks. */
  method RefineSymbols(br: Reader, tbl: DTable, block: array<int>, ss: nat, al: nat, se: nat,
      ghost t: HuffTbl, ghost v0: seq<int>)
    returns (ok: bool, k: nat, eob: nat, newnz: seq<nat>, ghost cur: seq<int>, ghost news: seq<(nat, int)>)
    requires 1 <= ss <= se < DCTSIZE2 && br.Supplied(Budget(ss)) && block.Length == DCTSIZE2
    requires Decodes(t, tbl) && v0 == ViewOf(block[..])
    modifies br, block
    ensures br.Valid() && (!ok ==> br.Suspended()) && ss <= k <= se + 2 && |cur| == DCTSIZE2
    ensures var r := Band(CodeOf(t), v0, ss, [], al, se, old(br.Known()));
      && (!ok && r.Some? ==> Partial(v0, ViewOf(block[..]), r.value.fix))
      && (ok && eob == 0 ==> r == Some(Refined(cur, news, 0, br.Known())))
      && (ok && eob > 0 ==> k <= se && r == FinishRun(cur, k, news, eob - 1, al, se, br.Known()))
    ensures ok ==> Progress(v0, cur, news, ViewOf(block[..]), ss, k, se) && Positions(newnz, news)
    ensures ok ==> br.Advanced(Budget(ss) - Budget(k) + 20) && |newnz| <= DCTSIZE2
  {
    hide PrefixFree, ReadEvent, Advance, Band, Progress, ViewOf, TakenBack, Positions, Partial, Reader.Known,
      Accepted, Decodes, FinishRun, CodeOf;
    DecodesShape(t, tbl);
    ghost var h, s0 := CodeOf(t), br.Known();
    ok, k, eob, newnz, cur, news := true, ss, 0, [], v0, [];
    ProgressStart(v0, ss, se);
    NoPositions();
    while k <= se
      invariant br.Valid() && ss <= k <= se + 2 && |cur| == DCTSIZE2 && ok && eob == 0
      invariant br.Advanced(Budget(ss) - Budget(k))
      invariant Progress(v0, cur, news, ViewOf(block[..]), ss, k, se) && Positions(newnz, news)
      invariant Band(h, v0, ss, [], al, se, s0) == Band(h, cur, k, news, al, se, br.Known())
    {
      ghost var s := br.Known();
      BandUnfolds(h, cur, k, news, al, se, s);
      var e;
      ok, e := DecodeEvent(br, tbl, t);
      if !ok {
        GiveUp(block, newnz, h, v0, cur, news, ss, k, al, se, s);
        return;
      }
      if e.EndRun? {
        eob := e.n;
        break;
      }
      ok, k, newnz, cur, news := WalkEvent(br, block, e, k, al, se, newnz, h, v0, cur, news, ss, s);
      if !ok {
        return;
      }
    }
    if eob == 0 {
      BandUnfolds(h, cur, k, news, al, se, br.Known());
    }
    PositionsFit(v0, cur, news, ViewOf(block[..]), ss, k, se, newnz);
  }

  lemma NoPositions()
    ensures Positions([], [])
  {
  }

  /** newnz_pos never overflows. */
  lemma PositionsFit(v0: seq<int>, cur: seq<int>, news: seq<(nat, int)>, b: seq<int>, ss: nat, k: nat, se: nat, newnz: seq<nat>)
    requires Progress(v0, cur, news, b, ss, k, se) && Positions(newnz, news) && 1 <= ss && k <= se + 2 && se < DCTSIZE2
    ensures |newnz| <= DCTSIZE2
  {
  }

  lemma BandUnfolds(h: Code, c: seq<int>, k: nat, news: seq<(nat, int)>, al: nat, se: nat, s: seq<bit>)
    requires PrefixFree(h) && |c| == DCTSIZE2 && k <= se + 2 && se < DCTSIZE2
    ensures k > se ==> Band(h, c, k, news, al, se, s) == Some(Refined(c, news, 0, s))
    ensures k <= se && ReadEvent(h, s).Some? && ReadEvent(h, s).value.0.EndRun? ==>
      Band(h, c, k, news, al, se, s)
      == FinishRun(c, k, news, ReadEvent(h, s).value.0.n - 1, al, se, ReadEvent(h, s).value.1)
  {
    hide PrefixFree, ReadEvent, FinishRun, Advance;
  }

  const MCU_BUDGET := 21 * (DCTSIZE2 + 2)

  /** The work of decode_mcu_AC_refine on one block: done, or taken back so that it can be
  repeated from the saved bit state. */
  method RefineBlock(br: Reader, tbl: DTable, block: array<int>, eobrun: nat, ss: nat, al: nat, se: nat,
      ghost t: HuffTbl)
    returns (ok: bool, left: nat)
    requires 1 <= ss <= se < DCTSIZE2 && br.Supplied(MCU_BUDGET) && block.Length == DCTSIZE2 && Decodes(t, tbl)
    modifies br, block
    ensures br.Valid() && (!ok ==> br.Suspended()) && (ok ==> br.Advanced(MCU_BUDGET))
    ensures var v0 := ViewOf(old(block[..]));
      var r := DecodeBlock(CodeOf(t), v0, eobrun, ss, al, se, old(br.Known()));
      && (ok ==> Refines(r, ViewOf(block[..]), left, br.Known()))
      && (!ok && r.Some? ==> Partial(v0, ViewOf(block[..]), r.value.fix))
  {
    hide PrefixFree, Band, Progress, ViewOf, TakenBack, Positions, Partial, Reader.Known, CodeOf, Accepted, Decodes,
      CutShort, Finish, FinishRun, Refines;
    DecodesShape(t, tbl);
    ghost var v0, s0 := ViewOf(block[..]), br.Known();
    ProgressStart(v0, ss, se);
    NoPositions();
    var k, eob, newnz := ss, eobrun, [];
    ghost var cur, news := v0, [];
    left, ok := 0, true;
    if eobrun == 0 {
      ok, k, eob, newnz, cur, news := RefineSymbols(br, tbl, block, ss, al, se, t, v0);
      if !ok {
        return;
      }
      if eob == 0 {
        RefinesBand(v0, cur, news, ViewOf(block[..]), ss, k, se, br.Known());
        return;
      }
    }
    ok := RefineRest(br, block, k, eob - 1, al, se, newnz, v0, cur, news, ss);
    left := eob - 1;
  }

  /** The coefficients, EOB run and bit position are those of the specification. */
  ghost predicate Refines(r: Option<Refined>, b: seq<int>, eobrun: nat, rest: seq<bit>) {
    && r.Some? && |r.value.fix| == DCTSIZE2 && InBlock(r.value.news) && b == Apply(r.value.fix, r.value.news)
    && r.value.eobrun == eobrun && r.value.rest == rest
  }

  lemma RefinesBand(v0: seq<int>, cur: seq<int>, news: seq<(nat, int)>, b: seq<int>, ss: nat, k: nat, se: nat, s: seq<bit>)
    requires Progress(v0, cur, news, b, ss, k, se)
    ensures Refines(Some(Refined(cur, news, 0, s)), b, 0, s)
  {
  }

  /** The end-of-band part of decode_mcu_AC_refine. */
  method RefineRest(br: Reader, block: array<int>, k: nat, ghost n: nat, al: nat, se: nat, newnz: seq<nat>,
      ghost v0: seq<int>, ghost cur: seq<int>, ghost news: seq<(nat, int)>, ghost ss: nat)
    returns (ok: bool)
    requires k <= se < DCTSIZE2 && br.Supplied(se + 1 - k) && block.Length == DCTSIZE2 && |cur| == |v0| == DCTSIZE2
    requires Progress(v0, cur, news, ViewOf(block[..]), ss, k, se) && Positions(newnz, news)
    modifies br, block
    ensures br.Valid() && (!ok ==> br.Suspended()) && (ok ==> br.Advanced(se + 1 - k))
    ensures var r := FinishRun(cur, k, news, n, al, se, old(br.Known()));
      && (ok ==> Refines(r, ViewOf(block[..]), n, br.Known()))
      && (!ok && r.Some? ==> Partial(v0, ViewOf(block[..]), r.value.fix))
  {
    hide Progress, ViewOf, TakenBack, Positions, Partial, Reader.Known, CutShort, Finish, FinishRun;
    ghost var b, s := ViewOf(block[..]), br.Known();
    ghost var kf;
    ok, kf := FinishCoefs(br, block, k, al, se);
    ghost var d := ViewOf(block[..]);
    if !ok {
      Undo(block, newnz, news);
      if FinishRun(cur, k, news, n, al, se, s).Some? {
        CutInFinish(v0, cur, news, b, d, ViewOf(block[..]), ss, k, kf, n, al, se, s);
      }
    } else {
      RefinesRun(v0, cur, news, b, d, ss, k, n, al, se, s, br.Known());
    }
  }

  lemma RefinesRun(v0: seq<int>, cur: seq<int>, news: seq<(nat, int)>, b: seq<int>, d: seq<int>, ss: nat, k: nat, n: nat,
      al: nat, se: nat, s: seq<bit>, u: seq<bit>)
    requires k <= se < DCTSIZE2 && Progress(v0, cur, news, b, ss, k, se) && |d| == DCTSIZE2
    requires Finish(b, k, al, se, s) == Some(Place(d, se + 1, u))
    ensures Refines(FinishRun(cur, k, news, n, al, se, s), d, n, u)
  {
    hide Finish;
    FinishApplied(cur, news, k, al, se, s);
  }
}
