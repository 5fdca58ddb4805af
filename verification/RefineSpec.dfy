/** What an AC refinement scan does to a band of coefficients (section G.1.2.3 of ITU-T
Rec. T.81), on the zigzag sequence of a block and a bit string. */
module RefineSpec {

  import opened Wrappers
  import opened CodeString
  import opened PrefixCode
  import opened ZigZag
  import opened Coefficients
  import CanonicalCode

  /** `c >> e` on a two's-complement number. */
  function AShr(c: int, e: nat): int
    decreases e
  {
    if e == 0 then c else AShr(c / 2, e - 1)
  }

  /** `c & p1` with p1 = 1 << al. */
  function BitSet(c: int, al: nat): bool {
    AShr(c, al) % 2 == 1
  }

  /** A correction bit of 1: increase the magnitude by p1, unless that was already done. */
  function Correct(c: int, al: nat): int {
    if BitSet(c, al) then c else if c >= 0 then Short(c + Shl(1, al)) else Short(c - Shl(1, al))
  }

  lemma {:induction false} AShrPlus(c: int, x: int, e: nat)
    ensures AShr(c + Shl(x, e), e) == AShr(c, e) + x
    decreases e
  {
    if e > 0 {
      AShrPlus(c / 2, x, e - 1);
      assert (c + Shl(x, e)) / 2 == c / 2 + Shl(x, e - 1);
    }
  }

  /** Wrapping to 16 bits does not reach a bit below the sixteenth. */
  lemma ShortKeepsBit(v: int, al: nat)
    requires al < 16
    ensures BitSet(Short(v), al) == BitSet(v, al)
  {
    hide AShr, Shl;
    var q := (v + 32768) / 65536;
    var d := Shl(-q, 15 - al);
    ShlByte(-q);
    ShlShl(-q, 8, 8);
    ShlByte(-256 * q);
    ShlDouble(-q, 15 - al);
    ShlShl(-q, 16 - al, al);
    AShrPlus(v, 2 * d, al);
  }

  /** Correcting twice is correcting once: the test for the bit works for both signs. */
  lemma CorrectIsIdempotent(c: int, al: nat)
    requires al < 16
    ensures BitSet(Correct(c, al), al) && Correct(Correct(c, al), al) == Correct(c, al)
    ensures c != 0 ==> Correct(c, al) != 0
  {
    hide AShr, Shl;
    AShrPlus(c, 1, al);
    ShlNegative(al);
    AShrPlus(c, -1, al);
    ShortKeepsBit(c + Shl(1, al), al);
    ShortKeepsBit(c - Shl(1, al), al);
    AShrOfZero(al);
  }

  lemma {:induction false} ShlNegative(e: nat)
    ensures Shl(-1, e) == -Shl(1, e)
  {
    if e > 0 {
      ShlNegative(e - 1);
    }
  }

  lemma {:induction false} AShrOfZero(e: nat)
    ensures AShr(0, e) == 0
  {
    if e > 0 {
      AShrOfZero(e - 1);
    }
  }

  /** Where a walk over the band has come to. */
  datatype Place = Place(c: seq<int>, k: nat, rest: seq<bit>)

  /** One coefficient that was nonzero before: take its correction bit. */
  function Touch(c: seq<int>, k: nat, al: nat, b: bit): (d: seq<int>)
    requires k < |c|
    ensures |d| == |c|
  {
    if b == 1 then c[k := Correct(c[k], al)] else c
  }

  /** Pass over nonzero coefficients and r zeros, up to the zero behind those. */
  function Advance(c: seq<int>, k: nat, r: nat, al: nat, se: nat, s: seq<bit>): (p: Option<Place>)
    requires |c| == DCTSIZE2 && k <= se + 1 <= DCTSIZE2
    ensures p.Some? ==> |p.value.c| == DCTSIZE2 && k <= p.value.k <= se + 1
    decreases se + 1 - k
  {
    if k > se then Some(Place(c, k, s))
    else if c[k] != 0 then
      if s == [] then None else Advance(Touch(c, k, al, s[0]), k + 1, r, al, se, s[1..])
    else if r == 0 then Some(Place(c, k, s))
    else Advance(c, k + 1, r - 1, al, se, s)
  }

  /** Correction bits for the rest of the band. */
  function Finish(c: seq<int>, k: nat, al: nat, se: nat, s: seq<bit>): (p: Option<Place>)
    requires |c| == DCTSIZE2 && k <= se + 1 <= DCTSIZE2
    ensures p.Some? ==> |p.value.c| == DCTSIZE2 && p.value.k == se + 1
    decreases se + 1 - k
  {
    if k > se then Some(Place(c, k, s))
    else if c[k] != 0 then
      if s == [] then None else Finish(Touch(c, k, al, s[0]), k + 1, al, se, s[1..])
    else Finish(c, k + 1, al, se, s)
  }

  /** One step of either walk. */
  lemma AdvanceStep(c: seq<int>, k: nat, r: nat, al: nat, se: nat, s: seq<bit>)
    requires |c| == DCTSIZE2 && k <= se < DCTSIZE2
    ensures c[k] != 0 && s != [] ==>
      Advance(c, k, r, al, se, s) == Advance(Touch(c, k, al, s[0]), k + 1, r, al, se, s[1..])
    ensures c[k] == 0 && r > 0 ==> Advance(c, k, r, al, se, s) == Advance(c, k + 1, r - 1, al, se, s)
    ensures c[k] == 0 && r == 0 ==> Advance(c, k, r, al, se, s) == Some(Place(c, k, s))
    ensures Advance(c, se + 1, r, al, se, s) == Some(Place(c, se + 1, s))
  {
  }

  lemma FinishStep(c: seq<int>, k: nat, al: nat, se: nat, s: seq<bit>)
    requires |c| == DCTSIZE2 && k <= se < DCTSIZE2
    ensures c[k] != 0 && s != [] ==>
      Finish(c, k, al, se, s) == Finish(Touch(c, k, al, s[0]), k + 1, al, se, s[1..])
    ensures c[k] == 0 ==> Finish(c, k, al, se, s) == Finish(c, k + 1, al, se, s)
  {
  }

  /** A refined band: corrected coefficients, newly nonzero ones, blocks left in the EOB run. */
  datatype Refined = Refined(fix: seq<int>, news: seq<(nat, int)>, eobrun: nat, rest: seq<bit>)

  /** A coefficient that turns nonzero; the tables extend the zigzag order past its end. */
  function NewAt(k: nat, positive: bool, al: nat): (nat, int)
    requires k <= DCTSIZE2
  {
    (if k < DCTSIZE2 then k else DCTSIZE2 - 1, if positive then Shl(1, al) else -Shl(1, al))
  }

  /** The rest of the band as the last block of an EOB run of n more. */
  function FinishRun(c: seq<int>, k: nat, news: seq<(nat, int)>, n: nat, al: nat, se: nat, s: seq<bit>): Option<Refined>
    requires |c| == DCTSIZE2 && k <= se + 1 <= DCTSIZE2
  {
    var p := Finish(c, k, al, se, s);
    if p.None? then None else Some(Refined(p.value.c, news, n, p.value.rest))
  }

  /** The length of an EOB run: 2^r and r appended bits. */
  function RunLength(r: nat, s: seq<bit>): (n: Option<(nat, seq<bit>)>)
    ensures n.Some? ==> n.value.0 > 0
  {
    CanonicalCode.ShlPositive(r);
    var a := ReadBits(r, s);
    if a.None? then None else Some((Shl(1, r) + a.value.0, a.value.1))
  }

  /** What a symbol and its appended bits ask for: a new coefficient behind r zeros, sixteen
  zeros, or the end of the band for n blocks. */
  datatype Event = Coef(r: nat, positive: bool) | Skip | EndRun(n: nat)

  ghost function ReadEvent(h: Code, s: seq<bit>): (e: Option<(Event, seq<bit>)>)
    requires PrefixFree(h)
    ensures e.Some? && e.value.0.EndRun? ==> e.value.0.n > 0
  {
    var sym := ReadSym(h, s);
    if sym.None? then None
    else
      var rs, t := sym.value.0, sym.value.1;
      if rs % 16 != 0 then if t == [] then None else Some((Coef(rs / 16, t[0] == 1), t[1..]))
      else if rs / 16 == 15 then Some((Skip, t))
      else
        var n := RunLength(rs / 16, t);
        if n.None? then None else Some((EndRun(n.value.0), n.value.1))
  }

  function Run(e: Event): nat
    requires !e.EndRun?
  {
    if e.Coef? then e.r else 15
  }

  function NewsAfter(news: seq<(nat, int)>, e: Event, k: nat, al: nat): seq<(nat, int)>
    requires k <= DCTSIZE2
  {
    if e.Coef? then news + [NewAt(k, e.positive, al)] else news
  }

  /** Read symbols until the band ends or an end-of-band symbol does. */
  ghost function Band(h: Code, c: seq<int>, k: nat, news: seq<(nat, int)>, al: nat, se: nat, s: seq<bit>): Option<Refined>
    requires PrefixFree(h) && |c| == DCTSIZE2 && k <= se + 2 && se < DCTSIZE2
    decreases se + 2 - k
  {
    if k > se then Some(Refined(c, news, 0, s))
    else
      var ev := ReadEvent(h, s);
      if ev.None? then None
      else
        var e, t := ev.value.0, ev.value.1;
        if e.EndRun? then FinishRun(c, k, news, e.n - 1, al, se, t)
        else
          var p := Advance(c, k, Run(e), al, se, t);
          if p.None? then None
          else Band(h, p.value.c, p.value.k + 1, NewsAfter(news, e, p.value.k, al), al, se, p.value.rest)
  }

  /** One block of the scan, when eobrun blocks are left in an EOB run. */
  ghost function DecodeBlock(h: Code, c: seq<int>, eobrun: nat, ss: nat, al: nat, se: nat, s: seq<bit>): Option<Refined>
    requires PrefixFree(h) && |c| == DCTSIZE2 && ss <= se < DCTSIZE2
  {
    if eobrun > 0 then FinishRun(c, ss, [], eobrun - 1, al, se, s) else Band(h, c, ss, [], al, se, s)
  }

  /** The block with its newly nonzero coefficients in place. */
  function Apply(c: seq<int>, news: seq<(nat, int)>): (d: seq<int>)
    requires forall i :: 0 <= i < |news| ==> news[i].0 < |c|
    ensures |d| == |c|
  {
    if news == [] then c
    else
      var n := news[|news| - 1];
      Apply(c, news[..|news| - 1])[n.0 := n.1]
  }

  predicate InBlock(news: seq<(nat, int)>) {
    forall i :: 0 <= i < |news| ==> news[i].0 < DCTSIZE2
  }

  /** The scan as the standard has it: every block refined, one after the other. */
  ghost function RefineAll(h: Code, vs: seq<seq<int>>, eobrun: nat, ss: nat, al: nat, se: nat, s: seq<bit>)
    : Option<(seq<seq<int>>, nat, seq<bit>)>
    requires PrefixFree(h) && ss <= se < DCTSIZE2 && forall i :: 0 <= i < |vs| ==> |vs[i]| == DCTSIZE2
  {
    if vs == [] then Some(([], eobrun, s))
    else
      var r := DecodeBlock(h, vs[0], eobrun, ss, al, se, s);
      if r.None? || |r.value.fix| != DCTSIZE2 || !InBlock(r.value.news) then None
      else
        var q := RefineAll(h, vs[1..], r.value.eobrun, ss, al, se, r.value.rest);
        if q.None? then None
        else Some(([Apply(r.value.fix, r.value.news)] + q.value.0, q.value.1, q.value.2))
  }

  /** c is a block that an interrupted pass has left behind: each coefficient is still as it
  was, or already as it will be. */
  predicate Partial(before: seq<int>, c: seq<int>, fix: seq<int>) {
    |before| == |c| == |fix| == DCTSIZE2 && forall j :: 0 <= j < DCTSIZE2 ==> c[j] == before[j] || c[j] == fix[j]
  }

  /** Two passes that agree below k, the second one on top of an interrupted pass. */
  predicate Agree(c: seq<int>, d: seq<int>, fix: seq<int>, k: nat) {
    && |c| == |d| == |fix| == DCTSIZE2
    && (forall j :: 0 <= j < k && j < DCTSIZE2 ==> d[j] == c[j])
    && forall j :: k <= j < DCTSIZE2 ==> (d[j] == c[j] || d[j] == fix[j]) && (c[j] == 0 ==> fix[j] == 0)
  }

  /** Walking on never touches what lies behind. */
  lemma {:induction false} AdvanceKeeps(c: seq<int>, k: nat, r: nat, al: nat, se: nat, s: seq<bit>)
    requires |c| == DCTSIZE2 && k <= se + 1 <= DCTSIZE2 && Advance(c, k, r, al, se, s).Some?
    ensures var p := Advance(c, k, r, al, se, s).value;
      forall j :: 0 <= j < DCTSIZE2 && (c[j] == 0 || !(k <= j < p.k)) ==> p.c[j] == c[j]
    decreases se + 1 - k
  {
    if k > se {
    } else if c[k] != 0 {
      AdvanceKeeps(Touch(c, k, al, s[0]), k + 1, r, al, se, s[1..]);
    } else if r > 0 {
      AdvanceKeeps(c, k + 1, r - 1, al, se, s);
    }
  }

  lemma {:induction false} FinishKeeps(c: seq<int>, k: nat, al: nat, se: nat, s: seq<bit>)
    requires |c| == DCTSIZE2 && k <= se + 1 <= DCTSIZE2 && Finish(c, k, al, se, s).Some?
    ensures forall j :: 0 <= j < DCTSIZE2 && (c[j] == 0 || !(k <= j <= se)) ==>
      Finish(c, k, al, se, s).value.c[j] == c[j]
    decreases se + 1 - k
  {
    if k > se {
    } else if c[k] != 0 {
      FinishKeeps(Touch(c, k, al, s[0]), k + 1, al, se, s[1..]);
    } else {
      FinishKeeps(c, k + 1, al, se, s);
    }
  }

  lemma {:induction false} BandKeeps(h: Code, c: seq<int>, k: nat, news: seq<(nat, int)>, al: nat, se: nat, s: seq<bit>)
    requires PrefixFree(h) && |c| == DCTSIZE2 && k <= se + 2 && se < DCTSIZE2
    requires Band(h, c, k, news, al, se, s).Some?
    ensures var f := Band(h, c, k, news, al, se, s).value.fix;
      |f| == DCTSIZE2 && forall j :: 0 <= j < DCTSIZE2 && (c[j] == 0 || !(k <= j <= se)) ==> f[j] == c[j]
    decreases se + 2 - k
  {
    hide ReadEvent, PrefixFree, Advance, Finish;
    if k <= se {
      var e, t := ReadEvent(h, s).value.0, ReadEvent(h, s).value.1;
      if e.EndRun? {
        FinishKeeps(c, k, al, se, t);
      } else {
        AdvanceKeeps(c, k, Run(e), al, se, t);
        var p := Advance(c, k, Run(e), al, se, t).value;
        BandKeeps(h, p.c, p.k + 1, NewsAfter(news, e, p.k, al), al, se, p.rest);
      }
    }
  }

  /** A coefficient corrected in an interrupted pass comes out the same the second time. */
  lemma TouchAgain(c: seq<int>, d: seq<int>, fix: seq<int>, k: nat, al: nat, b: bit)
    requires al < 16 && k < DCTSIZE2 && Agree(c, d, fix, k) && c[k] != 0 && fix[k] == Touch(c, k, al, b)[k]
    ensures d[k] != 0 && Agree(Touch(c, k, al, b), Touch(d, k, al, b), fix, k + 1)
  {
    hide Correct;
    CorrectIsIdempotent(c[k], al);
  }

  lemma {:induction false} AdvanceAgain(c: seq<int>, d: seq<int>, fix: seq<int>, k: nat, r: nat, al: nat, se: nat, s: seq<bit>)
    requires al < 16 && k <= se + 1 <= DCTSIZE2 && Agree(c, d, fix, k) && Advance(c, k, r, al, se, s).Some?
    requires var p := Advance(c, k, r, al, se, s).value;
      forall j :: 0 <= j < p.k ==> p.c[j] == fix[j]
    ensures var p, q := Advance(c, k, r, al, se, s).value, Advance(d, k, r, al, se, s);
      q.Some? && q.value.k == p.k && q.value.rest == p.rest && Agree(p.c, q.value.c, fix, p.k)
    decreases se + 1 - k
  {
    hide Touch, Correct;
    if k > se {
    } else if c[k] != 0 {
      AdvanceKeeps(Touch(c, k, al, s[0]), k + 1, r, al, se, s[1..]);
      TouchAgain(c, d, fix, k, al, s[0]);
      AdvanceAgain(Touch(c, k, al, s[0]), Touch(d, k, al, s[0]), fix, k + 1, r, al, se, s[1..]);
    } else if r > 0 {
      AdvanceAgain(c, d, fix, k + 1, r - 1, al, se, s);
    }
  }

  lemma {:induction false} FinishAgain(c: seq<int>, d: seq<int>, fix: seq<int>, k: nat, al: nat, se: nat, s: seq<bit>)
    requires al < 16 && k <= se + 1 <= DCTSIZE2 && Agree(c, d, fix, k) && Finish(c, k, al, se, s).Some?
    requires fix == Finish(c, k, al, se, s).value.c
    ensures Finish(d, k, al, se, s) == Finish(c, k, al, se, s)
    decreases se + 1 - k
  {
    hide Touch, Correct;
    if k > se {
      assert c == d;
    } else if c[k] != 0 {
      FinishKeeps(Touch(c, k, al, s[0]), k + 1, al, se, s[1..]);
      TouchAgain(c, d, fix, k, al, s[0]);
      FinishAgain(Touch(c, k, al, s[0]), Touch(d, k, al, s[0]), fix, k + 1, al, se, s[1..]);
    } else {
      FinishAgain(c, d, fix, k + 1, al, se, s);
    }
  }

  lemma {:induction false} BandAgain(h: Code, c: seq<int>, d: seq<int>, fix: seq<int>, k: nat, news: seq<(nat, int)>,
      al: nat, se: nat, s: seq<bit>)
    requires PrefixFree(h) && al < 16 && k <= se + 2 && se < DCTSIZE2 && Agree(c, d, fix, k)
    requires Band(h, c, k, news, al, se, s).Some? && fix == Band(h, c, k, news, al, se, s).value.fix
    ensures Band(h, d, k, news, al, se, s) == Band(h, c, k, news, al, se, s)
    decreases se + 2 - k
  {
    hide ReadEvent, PrefixFree, Advance, Finish;
    if k > se {
      assert c == d;
    } else {
      var e, t := ReadEvent(h, s).value.0, ReadEvent(h, s).value.1;
      if e.EndRun? {
        FinishAgain(c, d, fix, k, al, se, t);
      } else {
        var p := Advance(c, k, Run(e), al, se, t).value;
        BandKeeps(h, p.c, p.k + 1, NewsAfter(news, e, p.k, al), al, se, p.rest);
        AdvanceAgain(c, d, fix, k, Run(e), al, se, t);
        var q := Advance(d, k, Run(e), al, se, t).value;
        BandAgain(h, p.c, q.c, fix, p.k + 1, NewsAfter(news, e, p.k, al), al, se, p.rest);
      }
    }
  }

  /** Suspension transparency: decoding the same bits again, on top of whatever corrections
  interrupted passes have left in the block, gives the same result. */
  lemma DecodeAgain(h: Code, c: seq<int>, d: seq<int>, eobrun: nat, ss: nat, al: nat, se: nat, s: seq<bit>)
    requires PrefixFree(h) && al < 16 && |c| == DCTSIZE2 && ss <= se < DCTSIZE2
    requires DecodeBlock(h, c, eobrun, ss, al, se, s).Some?
    requires Partial(c, d, DecodeBlock(h, c, eobrun, ss, al, se, s).value.fix)
    ensures DecodeBlock(h, d, eobrun, ss, al, se, s) == DecodeBlock(h, c, eobrun, ss, al, se, s)
  {
    var fix := DecodeBlock(h, c, eobrun, ss, al, se, s).value.fix;
    hide PrefixFree, Finish, Band;
    if eobrun > 0 {
      FinishKeeps(c, ss, al, se, s);
      FinishAgain(c, d, fix, ss, al, se, s);
    } else {
      BandKeeps(h, c, ss, [], al, se, s);
      BandAgain(h, c, d, fix, ss, [], al, se, s);
    }
  }
}
