/** The row lists of jdmainct.c: one component's workspace of M + 2 row groups, reached
through two lists of M + 4 row groups each.

A row pointer is the number of the workspace row it points to; a workspace row holds the number
of the image row last stored there. Position j of a list, which may be negative, is element
j + rgroup of its array. */
module RowLists {

  /** Heights of a component: v_samp_factor, DCT_scaled_size, downsampled_height. */
  datatype Component = Component(samp: nat, scaled: nat, height: nat)

  function ImcuHeight(c: Component): nat {
    c.samp * c.scaled
  }

  /** An iMCU row is exactly m row groups. */
  ghost predicate Divides(c: Component, m: nat) {
    2 <= m && 0 < c.height && 0 < GroupHeight(c, m) && ImcuHeight(c) == GroupHeight(c, m) * m
  }

  function GroupHeight(c: Component, m: nat): nat
    requires 2 <= m
  {
    ImcuHeight(c) / m
  }

  /** The workspace row that position j of list w denotes. */
  function Slot(w: nat, j: nat, r: nat, h: nat): nat
    requires 2 * r <= h
  {
    if w == 0 || j < h - 2 * r then j else if j < h then j + 2 * r else j - 2 * r
  }

  /** What both lists keep: all but the first and the last row group. */
  ghost predicate Core(x: seq<nat>, w: nat, r: nat, h: nat)
    requires 2 * r <= h
  {
    |x| == h + 4 * r && forall p :: r <= p < h + 3 * r ==> x[p] == Slot(w, p - r, r, h)
  }

  /** The row groups at the ends wrap around. */
  ghost predicate Wraps(x: seq<nat>, w: nat, r: nat, h: nat)
    requires 2 * r <= h
  {
    && |x| == h + 4 * r
    && (forall p :: 0 <= p < r ==> x[p] == Slot(w, p + h + r, r, h))
    && (forall p :: h + 3 * r <= p < h + 4 * r ==> x[p] == Slot(w, p - h - 3 * r, r, h))
  }

  /** At the top of the image the row group above repeats the first row. */
  ghost predicate Top(x: seq<nat>, r: nat) {
    |x| >= r && forall p :: 0 <= p < r ==> x[p] == 0
  }

  /** An iMCU row beginning at row base has come in through list w. */
  ghost predicate Received(held: seq<nat>, w: nat, base: nat, r: nat, h: nat)
    requires 2 * r <= h
  {
    |held| == h + 2 * r && forall j :: 0 <= j < h ==> Slot(w, j, r, h) < |held| && held[Slot(w, j, r, h)] == base + j
  }

  /** Behind it in list w lie the last two row groups of the iMCU row before. */
  ghost predicate Kept(held: seq<nat>, w: nat, base: nat, r: nat, h: nat)
    requires 2 * r <= h
  {
    && |held| == h + 2 * r
    && forall j :: h <= j < h + 2 * r ==> Slot(w, j, r, h) < |held| && held[Slot(w, j, r, h)] == base + j - h - 2 * r
  }

  function Pick(w: nat, x0: seq<nat>, x1: seq<nat>): seq<nat> {
    if w == 0 then x0 else x1
  }

  ghost predicate Pointers(base: nat, x0: seq<nat>, x1: seq<nat>, r: nat, h: nat)
    requires 2 * r <= h
  {
    Core(x0, 0, r, h) && Core(x1, 1, r, h) && if base == 0 then Top(x0, r) else Wraps(x0, 0, r, h) && Wraps(x1, 1, r, h)
  }

  /** Ready for the iMCU row that begins at row base, to be read through list w. */
  ghost predicate Idle(held: seq<nat>, x0: seq<nat>, x1: seq<nat>, w: nat, base: nat, r: nat, h: nat)
    requires 2 * r <= h
  {
    |held| == h + 2 * r && Pointers(base, x0, x1, r, h) && if base == 0 then w == 0 else Kept(held, w, base, r, h)
  }

  /** That iMCU row is in. */
  ghost predicate Loaded(held: seq<nat>, x0: seq<nat>, x1: seq<nat>, w: nat, base: nat, r: nat, h: nat)
    requires 2 * r <= h
  {
    Idle(held, x0, x1, w, base, r, h) && Received(held, w, base, r, h)
  }

  /** The last iMCU row, of left rows, with its last row repeated behind it. */
  ghost predicate Trimmed(held: seq<nat>, x: seq<nat>, w: nat, base: nat, left: nat, r: nat, h: nat)
    requires 2 * r <= h
  {
    && |held| == h + 2 * r && |x| == h + 4 * r && 0 < left <= h && Received(held, w, base, r, h)
    && (if base == 0 then w == 0 && Top(x, r) else Kept(held, w, base, r, h) && forall p :: 0 <= p < r ==> x[p] == Slot(w, p + h + r, r, h))
    && (forall p :: r <= p < r + left ==> x[p] == Slot(w, p - r, r, h))
    && (forall p :: r + left <= p < left + 3 * r ==> x[p] == Slot(w, left - 1, r, h))
  }

  /** The image rows seen through list x around the row group at position a, one row group of
  context on either side. */
  function View(held: seq<nat>, x: seq<nat>, a: nat, r: nat): (v: seq<nat>)
    requires a + 3 * r <= |x| && forall p :: a <= p < a + 3 * r ==> x[p] < |held|
    ensures |v| == 3 * r && forall i :: 0 <= i < 3 * r ==> v[i] == held[x[a + i]]
  {
    seq(3 * r, i requires 0 <= i < 3 * r => held[x[a + i]])
  }

  ghost predicate Sees(held: seq<nat>, x: seq<nat>, a: nat, r: nat) {
    a + 3 * r <= |x| && forall p :: a <= p < a + 3 * r ==> x[p] < |held|
  }

  /** The row of an image of the given height nearest to row k. */
  function Nearest(k: int, height: nat): (n: nat)
    requires height > 0
    ensures n < height && (0 <= k < height ==> n == k)
  {
    if k < 0 then 0 else if k < height then k else height - 1
  }

  /** A row group starting at image row k and its neighbours, the edge rows duplicated. */
  function Clamped(k: nat, r: nat, height: nat): (v: seq<nat>)
    requires height > 0
    ensures |v| == 3 * r && forall i :: 0 <= i < 3 * r ==> v[i] == Nearest(k - r + i, height)
  {
    seq(3 * r, i requires 0 <= i < 3 * r => if k - r + i < 0 then 0 else if k - r + i < height then k - r + i else height - 1)
  }

  /** The same with whatever rows the last iMCU row is padded with. */
  function Padded(k: nat, r: nat): (v: seq<nat>)
    ensures |v| == 3 * r && forall i :: 0 <= i < 3 * r && r <= k ==> v[i] == k - r + i
  {
    seq(3 * r, i requires 0 <= i < 3 * r => if k + i < r then 0 else k + i - r)
  }

  /** No row of the image is nearer to row k than the one taken for it. */
  lemma NearestLaw(k: int, height: nat, m: nat)
    requires m < height
    ensures if Nearest(k, height) >= k then m < k || m >= Nearest(k, height) else m > k || m <= Nearest(k, height)
    ensures k < 0 ==> Nearest(k, height) == 0
    ensures k >= height ==> Nearest(k, height) == height - 1
  {
  }

  /** Entry i of a window: the row i behind the first row of context, moved into the image; with
  padding instead, just that row. */
  lemma WindowLaw(k: nat, r: nat, height: nat, i: nat)
    requires height > 0 && i < 3 * r
    ensures 0 <= k - r + i < height ==> Clamped(k, r, height)[i] == k - r + i
    ensures k - r + i < 0 ==> Clamped(k, r, height)[i] == 0
    ensures k - r + i >= height ==> Clamped(k, r, height)[i] == height - 1
    ensures k >= r ==> Padded(k, r)[i] == k - r + i
  {
  }

  /** Row groups of an iMCU row that is not the last. */
  lemma SeenLoaded(held: seq<nat>, x0: seq<nat>, x1: seq<nat>, w: nat, base: nat, a: nat, r: nat, h: nat, height: nat)
    requires 0 < r && 2 * r <= h && w < 2 && a + 2 * r <= h && base + h <= height
    requires Loaded(held, x0, x1, w, base, r, h)
    ensures Sees(held, Pick(w, x0, x1), a, r) && View(held, Pick(w, x0, x1), a, r) == Clamped(base + a, r, height)
  {
    var x := Pick(w, x0, x1);
    forall p | a <= p < a + 3 * r
      ensures p < |x| && x[p] < |held| && held[x[p]] == Nearest(base + p - r, height)
    {
      if p < r && base == 0 {
        assert Slot(w, 0, r, h) == 0;
      }
    }
  }

  /** Row groups of the last iMCU row. */
  lemma SeenTrimmed(held: seq<nat>, x: seq<nat>, w: nat, base: nat, left: nat, a: nat, r: nat, h: nat)
    requires 0 < r && 2 * r <= h && w < 2 && a < left && Trimmed(held, x, w, base, left, r, h)
    ensures Sees(held, x, a, r) && View(held, x, a, r) == Clamped(base + a, r, base + left)
  {
    forall p | a <= p < a + 3 * r
      ensures p < |x| && x[p] < |held| && held[x[p]] == Nearest(base + p - r, base + left)
    {
      if p < r && base == 0 {
        assert Slot(w, 0, r, h) == 0;
      }
    }
  }

  /** The postponed row group, seen through the other list: its lower context is the first row
  group of the next iMCU row, padding rows included. */
  lemma SeenPostponed(held: seq<nat>, x0: seq<nat>, x1: seq<nat>, w: nat, base: nat, r: nat, h: nat)
    requires 0 < r && 2 * r <= h <= base && w < 2 && Loaded(held, x0, x1, w, base, r, h)
    ensures Sees(held, Pick(w, x0, x1), h + r, r) && View(held, Pick(w, x0, x1), h + r, r) == Padded(base - r, r)
  {
    var x := Pick(w, x0, x1);
    forall p | h + r <= p < h + 4 * r
      ensures p < |x| && x[p] < |held| && held[x[p]] == base + p - h - 3 * r
    {
    }
  }

  /** After an iMCU row the other list is ready. */
  lemma Swapped(held: seq<nat>, w: nat, base: nat, r: nat, h: nat)
    requires 0 < r && 2 * r <= h && w < 2 && Received(held, w, base, r, h)
    ensures Kept(held, 1 - w, base + h, r, h)
  {
    var u: nat := 1 - w;
    forall j | h <= j < h + 2 * r
      ensures Slot(u, j, r, h) < |held| && held[Slot(u, j, r, h)] == base + j - 2 * r
    {
      assert Slot(u, j, r, h) == Slot(w, j - 2 * r, r, h);
    }
  }

  lemma GroupsOf(r: nat, m: nat)
    requires 2 <= m
    ensures r * (m - 2) == r * m - 2 * r && r * (m + 1) == r * m + r && r * (m + 2) == r * m + 2 * r
    ensures r * (m + 4) == r * m + 4 * r && r * m >= 2 * r
  {
    if m > 2 {
      assert r * m == 2 * r + r * (m - 2) && r * (m - 2) >= 0;
    }
  }

  /** make_funny_pointers for one component. */
  method MakeFunnyPointers(c: Component, m: nat, x0: array<nat>, x1: array<nat>)
    requires Divides(c, m) && x0 != x1 && x0.Length == x1.Length == ImcuHeight(c) + 4 * GroupHeight(c, m)
    modifies x0, x1
    ensures ImcuHeight(c) >= 2 * GroupHeight(c, m) && Pointers(0, x0[..], x1[..], GroupHeight(c, m), ImcuHeight(c))
  {
    var r := GroupHeight(c, m);
    ghost var h := ImcuHeight(c);
    hide GroupHeight, ImcuHeight;
    GroupsOf(r, m);
    var all, low, high := r * (m + 2), r * (m - 2), r * m;
    CopyPointers(x0, x1, r, all);
    SwapLastGroups(x1, r, low, high);
    for i := 0 to r
      invariant Core(x0[..], 0, r, h) && Core(x1[..], 1, r, h)
      invariant forall p :: 0 <= p < i ==> x0[p] == 0
    {
      x0[i] := x0[..][r];
    }
  }

  /** The workspace pointers as they are. */
  method CopyPointers(x0: array<nat>, x1: array<nat>, r: nat, all: nat)
    requires x0 != x1 && x0.Length == x1.Length == all + 2 * r
    modifies x0, x1
    ensures forall p :: r <= p < r + all ==> x0[p] == p - r && x1[p] == p - r
  {
    for i := 0 to all
      invariant forall p :: r <= p < r + i ==> x0[p] == p - r && x1[p] == p - r
    {
      x0[r + i], x1[r + i] := i, i;
    }
  }

  /** The last four row groups of a list, two and two exchanged. */
  method SwapLastGroups(x: array<nat>, r: nat, low: nat, high: nat)
    requires high == low + 2 * r && x.Length == high + 4 * r && forall p :: r <= p < high + 3 * r ==> x[p] == p - r
    modifies x
    ensures Core(x[..], 1, r, high)
  {
    for i := 0 to r * 2
      invariant forall p :: r <= p < r + low ==> x[p] == p - r
      invariant forall p :: r + low <= p < r + low + i ==> x[p] == p + r
      invariant forall p :: r + high <= p < r + high + i ==> x[p] == p - 3 * r
    {
      x[r + low + i] := high + i;
      x[r + high + i] := low + i;
    }
  }

  /** set_wraparound_pointers for one component. */
  method SetWraparoundPointers(c: Component, m: nat, x0: array<nat>, x1: array<nat>)
    requires Divides(c, m) && x0 != x1 && x0.Length == x1.Length == ImcuHeight(c) + 4 * GroupHeight(c, m)
    modifies x0, x1
    ensures ImcuHeight(c) >= 2 * GroupHeight(c, m)
    ensures old(Pointers(0, x0[..], x1[..], GroupHeight(c, m), ImcuHeight(c)))
      ==> Pointers(1, x0[..], x1[..], GroupHeight(c, m), ImcuHeight(c))
  {
    var r := GroupHeight(c, m);
    ghost var h := ImcuHeight(c);
    hide GroupHeight, ImcuHeight, Core, Turned, Top, Wraps;
    GroupsOf(r, m);
    var up, down := r + r * (m + 1), r + r * (m + 2);
    ghost var s0, s1 := x0[..], x1[..];
    WrapAround(x0, x1, r, up, down);
    if Pointers(0, s0, s1, r, h) {
      ListWrapped(s0, x0[..], 0, r, h);
      ListWrapped(s1, x1[..], 1, r, h);
    }
  }

  lemma ListWrapped(x: seq<nat>, y: seq<nat>, w: nat, r: nat, h: nat)
    requires 2 * r <= h && |y| == h + 4 * r && Core(x, w, r, h) && Turned(x, y, r, h)
    ensures Core(y, w, r, h) && Wraps(y, w, r, h)
  {
    hide Slot;
  }

  /** The row groups at the ends of y are those next to the other end of x. */
  ghost predicate Turned(x: seq<nat>, y: seq<nat>, r: nat, h: nat) {
    && |x| == |y| == h + 4 * r && (forall p :: r <= p < h + 3 * r ==> y[p] == x[p])
    && (forall p :: 0 <= p < r ==> y[p] == x[h + 2 * r + p])
    && forall p :: h + 3 * r <= p < h + 4 * r ==> y[p] == x[p - h - 2 * r]
  }

  method WrapAround(x0: array<nat>, x1: array<nat>, r: nat, up: nat, down: nat)
    requires x0 != x1 && x0.Length == x1.Length == down + r && down == up + r && up >= 2 * r
    modifies x0, x1
    ensures Turned(old(x0[..]), x0[..], r, up - 2 * r) && Turned(old(x1[..]), x1[..], r, up - 2 * r)
  {
    for i := 0 to r
      invariant forall p :: r <= p < down ==> x0[p] == old(x0[p]) && x1[p] == old(x1[p])
      invariant forall p :: 0 <= p < i ==> x0[p] == old(x0[up + p]) && x1[p] == old(x1[up + p])
      invariant forall p :: down <= p < down + i ==> x0[p] == old(x0[r + p - down]) && x1[p] == old(x1[r + p - down])
    {
      x0[i] := x0[up + i];
      x1[i] := x1[up + i];
      x0[down + i] := x0[r + i];
      x1[down + i] := x1[r + i];
    }
  }

  /** set_bottom_pointers for one component: repeat the last row of its left rows, and count the
  row groups that hold any. */
  method SetBottomPointers(c: Component, m: nat, x: array<nat>, ghost held: seq<nat>, ghost w: nat, ghost base: nat)
    returns (groups: nat)
    requires Divides(c, m) && x.Length == ImcuHeight(c) + 4 * GroupHeight(c, m)
    requires ImcuHeight(c) >= 2 * GroupHeight(c, m) && w < 2 && |held| == ImcuHeight(c) + 2 * GroupHeight(c, m)
    requires Core(x[..], w, GroupHeight(c, m), ImcuHeight(c)) && Received(held, w, base, GroupHeight(c, m), ImcuHeight(c))
    requires if base == 0 then w == 0 && Top(x[..], GroupHeight(c, m))
      else Kept(held, w, base, GroupHeight(c, m), ImcuHeight(c)) && Wraps(x[..], w, GroupHeight(c, m), ImcuHeight(c))
    modifies x
    ensures groups == (RowsLeft(c) - 1) / GroupHeight(c, m) + 1
    ensures Trimmed(held, x[..], w, base, RowsLeft(c), GroupHeight(c, m), ImcuHeight(c))
  {
    var rows := ImcuHeight(c);
    var r := GroupHeight(c, m);
    GroupsOf(r, m);
    var left := c.height % rows;
    if left == 0 {
      left := rows;
    }
    assert left == RowsLeft(c);
    hide GroupHeight, ImcuHeight, RowsLeft, Slot, Core, Received, Top, Kept, Wraps, Trimmed;
    groups := (left - 1) / r + 1;
    ghost var was := x[..];
    RepeatLast(x, r, left);
    LastRepeated(held, was, x[..], w, base, left, r, rows);
  }

  lemma LastRepeated(held: seq<nat>, was: seq<nat>, x: seq<nat>, w: nat, base: nat, left: nat, r: nat, h: nat)
    requires 0 < r && 2 * r <= h && 0 < left <= h && w < 2 && |held| == h + 2 * r && |x| == |was| == h + 4 * r
    requires Core(was, w, r, h) && Received(held, w, base, r, h)
    requires if base == 0 then w == 0 && Top(was, r) else Kept(held, w, base, r, h) && Wraps(was, w, r, h)
    requires forall p :: 0 <= p < r + left ==> x[p] == was[p]
    requires forall p :: r + left <= p < left + 3 * r ==> x[p] == was[r + left - 1]
    ensures Trimmed(held, x, w, base, left, r, h)
  {
    hide Slot;
  }

  method RepeatLast(x: array<nat>, r: nat, left: nat)
    requires 0 < left && left + 3 * r <= x.Length
    modifies x
    ensures forall p :: 0 <= p < r + left ==> x[p] == old(x[p])
    ensures forall p :: r + left <= p < left + 3 * r ==> x[p] == old(x[r + left - 1])
  {
    for i := 0 to r * 2
      invariant forall p :: 0 <= p < r + left ==> x[p] == old(x[p])
      invariant forall p :: r + left <= p < r + left + i ==> x[p] == old(x[r + left - 1])
    {
      x[r + left + i] := x[r + left - 1];
    }
  }

  /** The rows of the component that fall in the last iMCU row. */
  function RowsLeft(c: Component): (n: nat)
    requires ImcuHeight(c) > 0 && c.height > 0
    ensures 0 < n <= ImcuHeight(c)
  {
    if c.height % ImcuHeight(c) == 0 then ImcuHeight(c) else c.height % ImcuHeight(c)
  }

  /** The coefficient controller stores the iMCU row that begins at row base through a list. */
  method Receive(c: Component, m: nat, held: array<nat>, x: array<nat>, ghost w: nat, base: nat)
    requires Divides(c, m) && held != x && held.Length == ImcuHeight(c) + 2 * GroupHeight(c, m)
    requires x.Length == ImcuHeight(c) + 4 * GroupHeight(c, m)
    requires ImcuHeight(c) >= 2 * GroupHeight(c, m) && Core(x[..], w, GroupHeight(c, m), ImcuHeight(c)) && w < 2
    requires base == 0 || Kept(held[..], w, base, GroupHeight(c, m), ImcuHeight(c))
    modifies held
    ensures base == 0 || Kept(held[..], w, base, GroupHeight(c, m), ImcuHeight(c))
    ensures Received(held[..], w, base, GroupHeight(c, m), ImcuHeight(c))
  {
    var r := GroupHeight(c, m);
    var h := ImcuHeight(c);
    hide GroupHeight, ImcuHeight;
    GroupsOf(r, m);
    for j := 0 to h
      invariant base == 0 || Kept(held[..], w, base, r, h)
      invariant forall k :: 0 <= k < j ==> Slot(w, k, r, h) < held.Length && held[Slot(w, k, r, h)] == base + k
    {
      assert x[..][r + j] == Slot(w, j, r, h);
      held[x[r + j]] := base + j;
    }
  }
}
