/** The state machine of jdmainct.c in context mode. */
module ContextController {

  import opened Arithmetic
  import opened RowLists
  import opened ContextRows

  class MainController {
    const f: Frame
    const buffer: seq<array<nat>>
    const xbuffer0: seq<array<nat>>
    const xbuffer1: seq<array<nat>>
    var bufferFull: bool
    var rowgroupCtr: nat
    var rowgroupsAvail: nat
    var whichptr: nat
    var contextState: ContextState
    var imcuRowCtr: nat
    /** What the postprocessor has been shown, row group by row group. */
    var shown: seq<seq<seq<nat>>>

    ghost predicate Shape() {
      && ValidFrame(f) && |buffer| == |xbuffer0| == |xbuffer1| == |f.comps|
      && (forall i :: 0 <= i < |f.comps| ==> Sized(i))
      && (forall i, j :: 0 <= i < |f.comps| && 0 <= j < |f.comps| ==> Apart(i, j))
    }

    ghost predicate Sized(i: nat)
      requires i < |f.comps| == |buffer| == |xbuffer0| == |xbuffer1| && ValidFrame(f)
    {
      var c := f.comps[i];
      && buffer[i].Length == ImcuHeight(c) + 2 * GroupHeight(c, f.m)
      && xbuffer0[i].Length == xbuffer1[i].Length == ImcuHeight(c) + 4 * GroupHeight(c, f.m)
      && ImcuHeight(c) >= 2 * GroupHeight(c, f.m)
    }

    ghost predicate Apart(i: nat, j: nat)
      requires i < |f.comps| == |buffer| == |xbuffer0| == |xbuffer1| && j < |f.comps|
    {
      && buffer[i] != xbuffer0[j] && buffer[i] != xbuffer1[j] && xbuffer0[i] != xbuffer1[j]
      && (i != j ==> buffer[i] != buffer[j] && xbuffer0[i] != xbuffer0[j] && xbuffer1[i] != xbuffer1[j])
    }

    ghost predicate IdleAt(i: nat, w: nat, t: nat)
      requires Shape() && i < |f.comps|
      reads buffer[i], xbuffer0[i], xbuffer1[i]
    {
      var c := f.comps[i];
      Idle(buffer[i][..], xbuffer0[i][..], xbuffer1[i][..], w, Times(t, ImcuHeight(c)), GroupHeight(c, f.m), ImcuHeight(c))
    }

    ghost predicate LoadedAt(i: nat, w: nat, t: nat)
      requires Shape() && i < |f.comps|
      reads buffer[i], xbuffer0[i], xbuffer1[i]
    {
      var c := f.comps[i];
      Loaded(buffer[i][..], xbuffer0[i][..], xbuffer1[i][..], w, Times(t, ImcuHeight(c)), GroupHeight(c, f.m), ImcuHeight(c))
    }

    ghost predicate TrimmedAt(i: nat, w: nat)
      requires Shape() && i < |f.comps|
      reads buffer[i], xbuffer0[i], xbuffer1[i]
    {
      hide ImcuHeight, GroupHeight, RowsLeft, Times;
      LastTrimmed(f, f.comps[i], buffer[i][..], Pick(w, xbuffer0[i][..], xbuffer1[i][..]), w)
    }

    ghost predicate AllIdle(w: nat, t: nat)
      requires Shape()
      reads buffer, xbuffer0, xbuffer1
    {
      forall i :: 0 <= i < |f.comps| ==> IdleAt(i, w, t)
    }

    ghost predicate AllLoaded(w: nat, t: nat)
      requires Shape()
      reads buffer, xbuffer0, xbuffer1
    {
      forall i :: 0 <= i < |f.comps| ==> LoadedAt(i, w, t)
    }

    ghost predicate AllTrimmed(w: nat)
      requires Shape()
      reads buffer, xbuffer0, xbuffer1
    {
      forall i :: 0 <= i < |f.comps| ==> TrimmedAt(i, w)
    }

    /** Row group a of the current lists is row group k + a of the image, with its context. */
    ghost predicate Exposes(i: nat, w: nat, a: nat, k: int)
      requires Shape() && i < |f.comps|
      reads buffer[i], xbuffer0[i], xbuffer1[i]
    {
      var c := f.comps[i];
      var r := GroupHeight(c, f.m);
      var x := Pick(w, xbuffer0[i][..], xbuffer1[i][..]);
      0 <= k + a && Sees(buffer[i][..], x, Times(a, r), r) && View(buffer[i][..], x, Times(a, r), r) == Window(f, c, k + a)
    }

    /** The windows shown so far are those of the first row groups, in order. */
    ghost predicate Faithful()
      requires ValidFrame(f)
      reads `shown
    {
      forall g :: 0 <= g < |shown| ==> shown[g] == Windows(f, g)
    }

    ghost predicate Valid()
      reads this, buffer, xbuffer0, xbuffer1
    {
      && Shape() && Faithful() && imcuRowCtr <= f.total && whichptr < 2
      && (if bufferFull then 0 < imcuRowCtr && FullState() else EmptyState())
    }

    ghost predicate EmptyState()
      requires Shape()
      reads this, buffer, xbuffer0, xbuffer1
    {
      if imcuRowCtr == f.total then |shown| == f.groups
      else
        && AllIdle(whichptr, imcuRowCtr)
        && if imcuRowCtr == 0 then contextState == PrepareForImcu && shown == []
           else AtPostponed() && |shown| == Times(imcuRowCtr, f.m) - 1
    }

    predicate AtPostponed()
      reads this
    {
      contextState == PostponedRow && rowgroupCtr == f.m + 1 && rowgroupsAvail == f.m + 2
    }

    ghost predicate FullState()
      requires Shape() && 0 < imcuRowCtr <= f.total
      reads this, buffer, xbuffer0, xbuffer1
    {
      var t := imcuRowCtr - 1;
      match contextState
      case PrepareForImcu => |shown| == Times(t, f.m) && AllLoaded(whichptr, t)
      case PostponedRow =>
        AtPostponed() && 0 < t && |shown| == Times(t, f.m) - 1 && AllLoaded(whichptr, t)
      case ProcessImcu =>
        && rowgroupCtr < rowgroupsAvail && |shown| == Times(t, f.m) + rowgroupCtr
        && Times(t, f.m) + rowgroupsAvail == (if imcuRowCtr == f.total then f.groups else Times(t, f.m) + f.m - 1)
        && if imcuRowCtr == f.total then AllTrimmed(whichptr) else AllLoaded(whichptr, t)
    }

    ghost predicate AllExposed(from: nat, to: nat, k: int)
      requires Shape()
      reads this, buffer, xbuffer0, xbuffer1
    {
      forall i, a :: 0 <= i < |f.comps| && from <= a < to ==> Exposes(i, whichptr, a, k)
    }

    /** post_process_data takes up to take of the row groups it is offered. */
    method PostProcess(take: nat)
      requires Shape() && Faithful() && rowgroupCtr <= rowgroupsAvail
      requires var k := |shown| - rowgroupCtr; AllExposed(rowgroupCtr, rowgroupsAvail, k)
      modifies `rowgroupCtr, `shown
      ensures Faithful() && old(rowgroupCtr) <= rowgroupCtr <= rowgroupsAvail && old(shown) <= shown
      ensures |shown| - rowgroupCtr == old(|shown| - rowgroupCtr)
      ensures rowgroupCtr == rowgroupsAvail || rowgroupCtr == old(rowgroupCtr) + take
    {
      hide ImcuHeight, Times, View, Sees, Window, Covers;
      var taken := 0;
      ghost var offset: int := |shown| - rowgroupCtr;
      while taken < take && rowgroupCtr < rowgroupsAvail
        invariant old(rowgroupCtr) <= rowgroupCtr <= rowgroupsAvail && taken == rowgroupCtr - old(rowgroupCtr) <= take
        invariant |shown| - rowgroupCtr == offset && Faithful() && old(shown) <= shown
      {
        var v := ShowGroup(offset);
        shown := shown + [v];
        rowgroupCtr := rowgroupCtr + 1;
        taken := taken + 1;
      }
    }

    /** The current row group of every component, with its context. */
    method ShowGroup(ghost k: int) returns (v: seq<seq<nat>>)
      requires Shape() && 0 <= k + rowgroupCtr && forall i :: 0 <= i < |f.comps| ==> Exposes(i, whichptr, rowgroupCtr, k)
      ensures v == Windows(f, k + rowgroupCtr)
    {
      v := [];
      for i := 0 to |f.comps|
        invariant |v| == i && forall j :: 0 <= j < i ==> v[j] == Window(f, f.comps[j], k + rowgroupCtr)
      {
        var w := ShowComponent(i, k);
        v := v + [w];
      }
    }

    method ShowComponent(i: nat, ghost k: int) returns (v: seq<nat>)
      requires Shape() && i < |f.comps| && Exposes(i, whichptr, rowgroupCtr, k)
      ensures v == Window(f, f.comps[i], k + rowgroupCtr)
    {
      hide ImcuHeight, Window, Covers, GroupHeight;
      assert Covers(f.comps[i], f);
      var r := GroupHeight(f.comps[i], f.m);
      v := View(buffer[i][..], if whichptr == 0 then xbuffer0[i][..] else xbuffer1[i][..], Times(rowgroupCtr, r), r);
    }

    constructor (f: Frame)
      requires ValidFrame(f)
      ensures Valid() && this.f == f && shown == [] && fresh(buffer) && fresh(xbuffer0) && fresh(xbuffer1)
    {
      this.f := f;
      var b, x0, x1 := AllocArrays(f);
      buffer, xbuffer0, xbuffer1 := b, x0, x1;
      bufferFull, rowgroupCtr, rowgroupsAvail, whichptr, contextState, imcuRowCtr := false, 0, 0, 0, PrepareForImcu, 0;
      shown := [];
      new;
      StartPass();
    }

    /** start_pass_main. */
    method StartPass()
      requires Shape()
      modifies this, xbuffer0, xbuffer1
      ensures Valid() && shown == []
    {
      MakePointers();
      assert 0 < f.total;
      whichptr, contextState, imcuRowCtr, bufferFull, rowgroupCtr := 0, PrepareForImcu, 0, false, 0;
      shown := [];
    }

    /** make_funny_pointers. */
    method MakePointers()
      requires Shape()
      modifies xbuffer0, xbuffer1
      ensures AllIdle(0, 0)
    {
      hide GroupHeight, ImcuHeight, Covers, IdleAt, Sized;
      for i := 0 to |f.comps|
        invariant forall j :: 0 <= j < i ==> IdleAt(j, 0, 0)
      {
        label Before:
        MakeAt(i);
        forall j | 0 <= j < i
          ensures IdleAt(j, 0, 0)
        {
          assert Apart(i, j) && Apart(j, i);
          assert old@Before(IdleAt(j, 0, 0));
        }
      }
    }

    method MakeAt(i: nat)
      requires Shape() && i < |f.comps|
      modifies xbuffer0[i], xbuffer1[i]
      ensures IdleAt(i, 0, 0)
    {
      hide GroupHeight, ImcuHeight, Pointers, Times;
      assert Covers(f.comps[i], f) && Sized(i) && Apart(i, i);
      MakeFunnyPointers(f.comps[i], f.m, xbuffer0[i], xbuffer1[i]);
      ZeroTimes(ImcuHeight(f.comps[i]));
    }

    /** decompress_data: an iMCU row of every component arrives through the current lists. */
    method DecompressData()
      requires Shape() && whichptr < 2 && imcuRowCtr < f.total && AllIdle(whichptr, imcuRowCtr)
      modifies buffer
      ensures AllLoaded(whichptr, imcuRowCtr)
    {
      hide GroupHeight, ImcuHeight, Covers, IdleAt, LoadedAt, Sized;
      for i := 0 to |f.comps|
        invariant forall j :: 0 <= j < i ==> LoadedAt(j, whichptr, imcuRowCtr)
        invariant forall j :: i <= j < |f.comps| ==> IdleAt(j, whichptr, imcuRowCtr)
      {
        label Before:
        ReceiveAt(i);
        forall j | 0 <= j < |f.comps| && j != i
          ensures if j < i then LoadedAt(j, whichptr, imcuRowCtr) else IdleAt(j, whichptr, imcuRowCtr)
        {
          assert Apart(i, j) && Apart(j, i);
          assert old@Before(if j < i then LoadedAt(j, whichptr, imcuRowCtr) else IdleAt(j, whichptr, imcuRowCtr));
        }
      }
    }

    method ReceiveAt(i: nat)
      requires Shape() && i < |f.comps| && whichptr < 2 && IdleAt(i, whichptr, imcuRowCtr)
      modifies buffer[i]
      ensures LoadedAt(i, whichptr, imcuRowCtr)
    {
      hide GroupHeight, ImcuHeight, Times, Received, Kept, Core, Wraps, Top;
      assert Covers(f.comps[i], f) && Sized(i) && Apart(i, i);
      TimesZero(imcuRowCtr, ImcuHeight(f.comps[i]));
      Receive(f.comps[i], f.m, buffer[i], if whichptr == 0 then xbuffer0[i] else xbuffer1[i], whichptr,
        Times(imcuRowCtr, ImcuHeight(f.comps[i])));
    }

    /** set_bottom_pointers. */
    method SetBottom()
      requires Shape() && whichptr < 2 && imcuRowCtr == f.total && AllLoaded(whichptr, imcuRowCtr - 1)
      modifies `rowgroupsAvail, xbuffer0, xbuffer1
      ensures AllTrimmed(whichptr) && Times(f.total - 1, f.m) + rowgroupsAvail == f.groups
    {
      hide GroupHeight, ImcuHeight, Covers, TrimmedAt, LoadedAt, Sized, Times;
      ghost var t := imcuRowCtr - 1;
      for i := 0 to |f.comps|
        invariant forall j :: 0 <= j < i ==> TrimmedAt(j, whichptr)
        invariant forall j :: i <= j < |f.comps| ==> LoadedAt(j, whichptr, t)
        invariant i > 0 ==> Times(f.total - 1, f.m) + rowgroupsAvail == f.groups
      {
        label Before:
        var groups := TrimAt(i);
        forall j | 0 <= j < |f.comps| && j != i
          ensures if j < i then TrimmedAt(j, whichptr) else LoadedAt(j, whichptr, t)
        {
          assert Apart(i, j) && Apart(j, i);
          assert old@Before(if j < i then TrimmedAt(j, whichptr) else LoadedAt(j, whichptr, t));
        }
        if i == 0 {
          rowgroupsAvail := groups;
        }
      }
    }

    method TrimAt(i: nat) returns (groups: nat)
      requires Shape() && i < |f.comps| && whichptr < 2 && LoadedAt(i, whichptr, f.total - 1)
      modifies xbuffer0[i], xbuffer1[i]
      ensures TrimmedAt(i, whichptr) && Times(f.total - 1, f.m) + groups == f.groups
    {
      hide GroupHeight, ImcuHeight, Times, Received, Kept, Core, Wraps, Top, Trimmed, RowsLeft;
      assert Covers(f.comps[i], f) && Sized(i) && Apart(i, i);
      TimesZero(f.total - 1, ImcuHeight(f.comps[i]));
      LastRow(f.comps[i], f);
      groups := SetBottomPointers(f.comps[i], f.m, if whichptr == 0 then xbuffer0[i] else xbuffer1[i],
        buffer[i][..], whichptr, Times(f.total - 1, ImcuHeight(f.comps[i])));
    }

    /** set_wraparound_pointers, after the first iMCU row. */
    method SetWraparound()
      requires Shape()
      modifies xbuffer0, xbuffer1
      ensures old(AllLoaded(0, 0)) ==> AllIdle(1, 1)
    {
      hide GroupHeight, ImcuHeight, Covers, IdleAt, LoadedAt, Sized;
      ghost var loaded := AllLoaded(0, 0);
      for i := 0 to |f.comps|
        invariant loaded ==> forall j :: 0 <= j < i ==> IdleAt(j, 1, 1)
        invariant loaded ==> forall j :: i <= j < |f.comps| ==> LoadedAt(j, 0, 0)
      {
        label Before:
        WrapAt(i);
        forall j | 0 <= j < |f.comps| && j != i
          ensures loaded ==> if j < i then IdleAt(j, 1, 1) else LoadedAt(j, 0, 0)
        {
          assert Apart(i, j) && Apart(j, i);
          assert old@Before(loaded ==> if j < i then IdleAt(j, 1, 1) else LoadedAt(j, 0, 0));
        }
      }
    }

    method WrapAt(i: nat)
      requires Shape() && i < |f.comps|
      modifies xbuffer0[i], xbuffer1[i]
      ensures old(LoadedAt(i, 0, 0)) ==> IdleAt(i, 1, 1)
    {
      hide GroupHeight, ImcuHeight, Times, Received, Kept, Core, Wraps, Top;
      assert Covers(f.comps[i], f) && Sized(i) && Apart(i, i);
      SetWraparoundPointers(f.comps[i], f.m, xbuffer0[i], xbuffer1[i]);
      FirstRow(f.comps[i], f.m);
      if old(LoadedAt(i, 0, 0)) {
        Swapped(buffer[i][..], 0, 0, GroupHeight(f.comps[i], f.m), ImcuHeight(f.comps[i]));
      }
    }

    /** With an iMCU row other than the first in, the other lists are ready for the next. */
    lemma OtherList(i: nat, w: nat, u: nat, t: nat, next: nat)
      requires Shape() && i < |f.comps| && w < 2 && u == 1 - w && next == t + 1 && LoadedAt(i, w, t)
      ensures t > 0 ==> IdleAt(i, u, next)
      ensures t == 0 ==> w == 0
    {
      hide GroupHeight, ImcuHeight, Times, Received, Kept, Core, Wraps, Top;
      var c := f.comps[i];
      assert Covers(c, f) && Sized(i);
      TimesZero(t, ImcuHeight(c));
      TimesZero(t + 1, ImcuHeight(c));
      TimesNext(t, ImcuHeight(c));
      GroupFits(c, f.m, 0);
      Swapped(buffer[i][..], w, Times(t, ImcuHeight(c)), GroupHeight(c, f.m), ImcuHeight(c));
    }

    lemma OtherLists(w: nat, u: nat, t: nat, next: nat)
      requires Shape() && w < 2 && u == 1 - w && next == t + 1 && AllLoaded(w, t)
      ensures t > 0 ==> AllIdle(u, next)
      ensures t == 0 ==> w == 0
    {
      hide IdleAt, LoadedAt, Sized, Covers;
      forall i | 0 <= i < |f.comps|
        ensures LoadedAt(i, w, t) && (t > 0 ==> IdleAt(i, u, next)) && (t == 0 ==> w == 0)
      {
        OtherList(i, w, u, t, next);
      }
      assert LoadedAt(0, w, t);
    }

    lemma ExposePostponed(k: int)
      requires Shape() && whichptr < 2 && 1 < imcuRowCtr <= f.total && AllLoaded(whichptr, imcuRowCtr - 1)
      requires k == Times(imcuRowCtr - 1, f.m) - f.m - 2
      ensures AllExposed(f.m + 1, f.m + 2, k)
    {
      hide GroupHeight, ImcuHeight, Times, Loaded, Window, View, Sees;
      forall i, a | 0 <= i < |f.comps| && f.m + 1 <= a < f.m + 2
        ensures Exposes(i, whichptr, a, k)
      {
        assert Sized(i) && LoadedAt(i, whichptr, imcuRowCtr - 1);
        ShownPostponed(f, f.comps[i], imcuRowCtr - 1, buffer[i][..], xbuffer0[i][..], xbuffer1[i][..], whichptr);
      }
    }

    lemma ExposeLoaded(k: int)
      requires Shape() && whichptr < 2 && 0 < imcuRowCtr < f.total && AllLoaded(whichptr, imcuRowCtr - 1)
      requires k == Times(imcuRowCtr - 1, f.m)
      ensures AllExposed(0, f.m - 1, k)
    {
      hide GroupHeight, ImcuHeight, Times, Loaded, Window, View, Sees;
      forall i, a | 0 <= i < |f.comps| && 0 <= a < f.m - 1
        ensures Exposes(i, whichptr, a, k)
      {
        assert Sized(i) && LoadedAt(i, whichptr, imcuRowCtr - 1);
        ShownLoaded(f, f.comps[i], imcuRowCtr - 1, a, buffer[i][..], xbuffer0[i][..], xbuffer1[i][..], whichptr);
      }
    }

    lemma ExposeTrimmed(k: int)
      requires Shape() && whichptr < 2 && AllTrimmed(whichptr) && k == Times(f.total - 1, f.m) <= f.groups
      ensures AllExposed(0, f.groups - k, k)
    {
      hide GroupHeight, ImcuHeight, Times, LastTrimmed, Window, View, Sees;
      forall i, a | 0 <= i < |f.comps| && 0 <= a < f.groups - k
        ensures Exposes(i, whichptr, a, k)
      {
        assert Sized(i) && TrimmedAt(i, whichptr);
        ShownTrimmed(f, f.comps[i], a, buffer[i][..], Pick(whichptr, xbuffer0[i][..], xbuffer1[i][..]), whichptr);
      }
    }

    lemma Counts(t: nat)
      requires Shape() && t < f.total
      ensures Times(t, f.m) < f.groups && Times(t + 1, f.m) == Times(t, f.m) + f.m && (t > 0 ==> Times(t, f.m) > 0)
    {
      hide GroupHeight, ImcuHeight, Times;
      NotLastRow(f.comps[0], f, t);
      TimesNext(t, f.m);
      TimesZero(t, f.m);
    }

    /** CTX_POSTPONED_ROW. */
    method ProcessPostponed(take: nat) returns (done: bool)
      requires Valid() && bufferFull && contextState == PostponedRow
      modifies `rowgroupCtr, `shown, `contextState
      ensures Valid() && old(shown) <= shown && (done <==> contextState == PrepareForImcu) && (!done ==> contextState == PostponedRow)
      ensures take > 0 ==> done && |shown| > |old(shown)|
    {
      hide Shape, Windows, AllLoaded, Times, AllExposed;
      ExposePostponed(|shown| - rowgroupCtr);
      PostProcess(take);
      done := rowgroupCtr >= rowgroupsAvail;
      if done {
        contextState := PrepareForImcu;
      }
    }

    /** CTX_PREPARE_FOR_IMCU. */
    method PrepareImcu()
      requires Valid() && bufferFull && contextState == PrepareForImcu
      modifies `rowgroupCtr, `rowgroupsAvail, `contextState, xbuffer0, xbuffer1
      ensures Valid() && contextState == ProcessImcu
    {
      hide AllLoaded, AllTrimmed, Times, Windows, Covers, Sized, Apart;
      Counts(imcuRowCtr - 1);
      rowgroupCtr := 0;
      rowgroupsAvail := f.m - 1;
      if imcuRowCtr == f.total {
        SetBottom();
      }
      contextState := ProcessImcu;
    }

    /** CTX_PROCESS_IMCU. */
    method ProcessCurrent(take: nat)
      requires Valid() && bufferFull && contextState == ProcessImcu
      modifies this, xbuffer0, xbuffer1
      ensures Valid() && old(shown) <= shown && (take > 0 ==> |shown| > |old(shown)|)
    {
      hide AllLoaded, AllTrimmed, AllIdle, Times, Windows, Covers, Sized, Apart, AllExposed;
      ghost var t := imcuRowCtr - 1;
      Counts(t);
      ghost var k := |shown| - rowgroupCtr;
      if imcuRowCtr == f.total {
        ExposeTrimmed(k);
      } else {
        ExposeLoaded(k);
      }
      FewerExposed(rowgroupCtr, rowgroupsAvail, k);
      PostProcess(take);
      if rowgroupCtr < rowgroupsAvail {
        return;
      }
      if imcuRowCtr < f.total {
        OtherLists(whichptr, 1 - whichptr, t, imcuRowCtr);
      }
      if imcuRowCtr == 1 {
        SetWraparound();
      }
      whichptr := 1 - whichptr;
      bufferFull := false;
      rowgroupCtr := f.m + 1;
      rowgroupsAvail := f.m + 2;
      contextState := PostponedRow;
    }

    lemma FewerExposed(from: nat, to: nat, k: int)
      requires Shape() && AllExposed(0, to, k)
      ensures AllExposed(from, to, k)
    {
    }

    /** process_data_context_main. The coefficient controller has an iMCU row or not; the
    postprocessor takes as many row groups as it likes each time it is called, and the postponed
    one may fill its output buffer. */
    method ProcessData(ready: bool, takePostponed: nat, full: bool, take: nat)
      requires Valid()
      modifies this, buffer, xbuffer0, xbuffer1
      ensures Valid() && old(shown) <= shown
      ensures ready && takePostponed > 0 && take > 0 && old(|shown|) < f.groups ==> |shown| > old(|shown|)
    {
      hide AllLoaded, AllTrimmed, AllIdle, Times, Windows, Covers, Sized, Apart;
      if !bufferFull {
        if !(ready && imcuRowCtr < f.total) {
          return;
        }
        Counts(imcuRowCtr);
        TimesZero(0, f.m);
        DecompressData();
        bufferFull := true;
        imcuRowCtr := imcuRowCtr + 1;
      }
      if contextState == PostponedRow {
        var done := ProcessPostponed(takePostponed);
        if !done || full {
          return;
        }
      }
      if contextState == PrepareForImcu {
        PrepareImcu();
      }
      ProcessCurrent(take);
    }

    /** Whatever the calls so far: the row groups shown are the first ones of the image, each once
    and in order, and all of them once every iMCU row is in and used up. */
    lemma InOrder()
      requires Valid()
      ensures |shown| <= f.groups && forall g :: 0 <= g < |shown| ==> shown[g] == Windows(f, g)
      ensures !bufferFull && imcuRowCtr == f.total ==> |shown| == f.groups
    {
      hide Windows, AllLoaded, AllTrimmed, AllIdle, Times, Covers, Sized, Apart;
      ZeroTimes(f.m);
      Counts(if imcuRowCtr == f.total then imcuRowCtr - 1 else imcuRowCtr);
      if 0 < imcuRowCtr {
        Counts(imcuRowCtr - 1);
      }
    }
  }

  lemma FirstRow(c: Component, m: nat)
    requires Divides(c, m)
    ensures Times(0, ImcuHeight(c)) == 0 && Times(1, ImcuHeight(c)) == ImcuHeight(c) > 0
  {
    GroupFits(c, m, 0);
  }

  method AllocArrays(f: Frame) returns (b: seq<array<nat>>, x0: seq<array<nat>>, x1: seq<array<nat>>)
    requires ValidFrame(f)
    ensures fresh(b) && fresh(x0) && fresh(x1) && |b| == |x0| == |x1| == |f.comps|
    ensures forall i :: 0 <= i < |b| ==> Lengths(f.comps[i], f.m, b[i].Length, x0[i].Length, x1[i].Length)
    ensures forall i, j :: 0 <= i < |b| && 0 <= j < |b| ==> b[i] != x0[j] && b[i] != x1[j] && x0[i] != x1[j]
    ensures forall i, j :: 0 <= i < j < |b| ==> b[i] != b[j] && x0[i] != x0[j] && x1[i] != x1[j]
  {
    b, x0, x1 := [], [], [];
    for k := 0 to |f.comps|
      invariant fresh(b) && fresh(x0) && fresh(x1) && |b| == |x0| == |x1| == k
      invariant forall i :: 0 <= i < k ==> Lengths(f.comps[i], f.m, b[i].Length, x0[i].Length, x1[i].Length)
      invariant forall i, j :: 0 <= i < k && 0 <= j < k ==> b[i] != x0[j] && b[i] != x1[j] && x0[i] != x1[j]
      invariant forall i, j :: 0 <= i < j < k ==> b[i] != b[j] && x0[i] != x0[j] && x1[i] != x1[j]
    {
      var r := GroupHeight(f.comps[k], f.m);
      assert Lengths(f.comps[k], f.m, r * (f.m + 2), r * (f.m + 4), r * (f.m + 4)) by {
        AllocLengths(f.comps[k], f);
      }
      hide ImcuHeight, GroupHeight, Lengths;
      var held := new nat[r * (f.m + 2)];
      var list0 := new nat[r * (f.m + 4)];
      var list1 := new nat[r * (f.m + 4)];
      b, x0, x1 := b + [held], x0 + [list0], x1 + [list1];
    }
  }

  ghost predicate Lengths(c: Component, m: nat, b: nat, x0: nat, x1: nat)
    requires 2 <= m
  {
    var r, h := GroupHeight(c, m), ImcuHeight(c);
    b == h + 2 * r && x0 == x1 == h + 4 * r && h >= 2 * r
  }

  lemma AllocLengths(c: Component, f: Frame)
    requires Covers(c, f)
    ensures var r := GroupHeight(c, f.m); Lengths(c, f.m, r * (f.m + 2), r * (f.m + 4), r * (f.m + 4))
  {
    var r, h := GroupHeight(c, f.m), ImcuHeight(c);
    hide ImcuHeight, GroupHeight;
    GroupsOf(r, f.m);
  }
}
