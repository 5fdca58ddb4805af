/** The main buffer controller of jdmainct.c when the upsampler needs context rows: whatever the
postprocessor takes at a time, it is shown every row group once, in order, with the rows above
and below it. */
module ContextRows {

  import opened Arithmetic
  import opened RowLists

  /** Components, row groups in an iMCU row, iMCU rows and row groups in the image. */
  datatype Frame = Frame(comps: seq<Component>, m: nat, total: nat, groups: nat)

  /** Every component has the same numbers of iMCU rows and of row groups. */
  ghost predicate Covers(c: Component, f: Frame) {
    && Divides(c, f.m) && 1 <= f.total && 1 <= f.groups
    && Times(f.total - 1, ImcuHeight(c)) < c.height <= Times(f.total, ImcuHeight(c))
    && Times(f.groups - 1, GroupHeight(c, f.m)) < c.height <= Times(f.groups, GroupHeight(c, f.m))
  }

  ghost predicate ValidFrame(f: Frame) {
    f.comps != [] && 2 <= f.m && 1 <= f.total && forall i :: 0 <= i < |f.comps| ==> Covers(f.comps[i], f)
  }

  /** The last row group of an iMCU row other than the last. */
  predicate Postponed(f: Frame, g: nat)
    requires 2 <= f.m
  {
    g + 1 < f.groups && (g + 1) % f.m == 0
  }

  /** What the postprocessor is to see of a component around row group g. */
  ghost function Window(f: Frame, c: Component, g: nat): (v: seq<nat>)
    requires Covers(c, f)
  {
    var r := GroupHeight(c, f.m);
    if Postponed(f, g) then Padded(Times(g, r), r) else Clamped(Times(g, r), r, c.height)
  }

  ghost function Windows(f: Frame, g: nat): (v: seq<seq<nat>>)
    requires ValidFrame(f)
    ensures |v| == |f.comps| && forall i :: 0 <= i < |v| ==> v[i] == Window(f, f.comps[i], g)
  {
    seq(|f.comps|, i requires 0 <= i < |f.comps| => Window(f, f.comps[i], g))
  }

  datatype ContextState = PrepareForImcu | ProcessImcu | PostponedRow

  /** Row group a of iMCU row t. */
  lemma GroupStart(c: Component, m: nat, t: nat, a: nat)
    requires Divides(c, m)
    ensures Times(Times(t, m) + a, GroupHeight(c, m)) == Times(t, ImcuHeight(c)) + Times(a, GroupHeight(c, m))
  {
    hide GroupHeight, ImcuHeight;
    var r := GroupHeight(c, m);
    assert (t * m + a) * r == t * (r * m) + a * r;
  }

  lemma ModOf(q: nat, m: nat, k: nat)
    requires 0 < m && k < m
    ensures (Times(q, m) + k) % m == k
  {
    if q > 0 {
      ModOf(q - 1, m, k);
      TimesNext(q - 1, m);
      ModAdd(Times(q - 1, m) + k, m);
    } else {
      assert Times(0, m) == 0;
    }
  }

  lemma LastRowHeight(c: Component, f: Frame)
    requires Covers(c, f)
    ensures Times(f.total - 1, ImcuHeight(c)) + RowsLeft(c) == c.height
  {
    var h, t := ImcuHeight(c), f.total - 1;
    hide GroupHeight, ImcuHeight, Times;
    TimesNext(t, h);
    var left := c.height - Times(t, h);
    if left == h {
      Quotient(c.height, h, t + 1, 0);
    } else {
      Quotient(c.height, h, t, left);
    }
  }

  /** The rows of the last iMCU row and its row groups. */
  lemma LastRow(c: Component, f: Frame)
    requires Covers(c, f)
    ensures Times(f.total - 1, ImcuHeight(c)) + RowsLeft(c) == c.height
    ensures Times(f.total - 1, f.m) + (RowsLeft(c) - 1) / GroupHeight(c, f.m) + 1 == f.groups
  {
    LastRowHeight(c, f);
    var r, h, t, left := GroupHeight(c, f.m), ImcuHeight(c), f.total - 1, RowsLeft(c);
    hide GroupHeight, ImcuHeight, RowsLeft, Times;
    TimesNext(f.groups - 1, r);
    Quotient(c.height - 1, r, f.groups - 1, c.height - 1 - Times(f.groups - 1, r));
    Divided(left - 1, r);
    var a: nat := (left - 1) / r;
    GroupStart(c, f.m, t, a);
    Quotient(c.height - 1, r, Times(t, f.m) + a, (left - 1) % r);
  }

  lemma NotLastRow(c: Component, f: Frame, t: nat)
    requires Covers(c, f) && t < f.total
    ensures Times(t, ImcuHeight(c)) < c.height && Times(t, f.m) < f.groups
  {
    hide GroupHeight, ImcuHeight, RowsLeft, Times;
    LastRow(c, f);
    TimesMonotone(t, f.total - 1, ImcuHeight(c));
    TimesMonotone(t, f.total - 1, f.m);
  }

  lemma GroupFits(c: Component, m: nat, a: nat)
    requires Divides(c, m)
    ensures GroupHeight(c, m) > 0 && ImcuHeight(c) >= 2 * GroupHeight(c, m)
    ensures a + 2 <= m ==> Times(a, GroupHeight(c, m)) + 2 * GroupHeight(c, m) <= ImcuHeight(c)
    ensures ImcuHeight(c) == Times(m, GroupHeight(c, m))
  {
    var r := GroupHeight(c, m);
    hide GroupHeight, ImcuHeight;
    GroupsOf(r, m);
    if a + 2 <= m {
      TimesMonotone(a + 2, m, r);
      TimesNext(a + 1, r);
      TimesNext(a, r);
    }
  }

  /** Row group a of iMCU row t, not the last of the image and not the last of its iMCU row. */
  lemma ShownLoaded(f: Frame, c: Component, t: nat, a: nat, held: seq<nat>, x0: seq<nat>, x1: seq<nat>, w: nat)
    requires Covers(c, f) && t + 1 < f.total && a + 2 <= f.m && w < 2 && ImcuHeight(c) >= 2 * GroupHeight(c, f.m)
    requires Loaded(held, x0, x1, w, Times(t, ImcuHeight(c)), GroupHeight(c, f.m), ImcuHeight(c))
    ensures var r := GroupHeight(c, f.m);
      && Sees(held, Pick(w, x0, x1), Times(a, r), r)
      && View(held, Pick(w, x0, x1), Times(a, r), r) == Window(f, c, Times(t, f.m) + a)
  {
    var r, h := GroupHeight(c, f.m), ImcuHeight(c);
    hide GroupHeight, ImcuHeight, RowsLeft, Times, Loaded, View, Sees, Postponed, Window, Clamped, Covers;
    InnerGroup(f, c, t, a);
    WindowInside(f, c, Times(t, f.m) + a, Times(t, h) + Times(a, r));
    SeenLoaded(held, x0, x1, w, Times(t, h), Times(a, r), r, h, c.height);
  }

  lemma WindowInside(f: Frame, c: Component, g: nat, k: nat)
    requires Covers(c, f) && !Postponed(f, g) && Times(g, GroupHeight(c, f.m)) == k
    ensures Window(f, c, g) == Clamped(k, GroupHeight(c, f.m), c.height)
  {
    hide GroupHeight, ImcuHeight, Times, Postponed;
  }

  /** Row group a of iMCU row t, neither of them the last. */
  lemma InnerGroup(f: Frame, c: Component, t: nat, a: nat)
    requires Covers(c, f) && t + 1 < f.total && a + 2 <= f.m
    ensures !Postponed(f, Times(t, f.m) + a) && Times(t, ImcuHeight(c)) + ImcuHeight(c) <= c.height
    ensures GroupHeight(c, f.m) > 0 && Times(a, GroupHeight(c, f.m)) + 2 * GroupHeight(c, f.m) <= ImcuHeight(c)
    ensures Times(Times(t, f.m) + a, GroupHeight(c, f.m)) == Times(t, ImcuHeight(c)) + Times(a, GroupHeight(c, f.m))
  {
    var r, h := GroupHeight(c, f.m), ImcuHeight(c);
    hide GroupHeight, ImcuHeight, RowsLeft, Times;
    GroupFits(c, f.m, a);
    NotLastRow(c, f, t + 1);
    TimesNext(t, h);
    ModOf(t, f.m, a + 1);
    GroupStart(c, f.m, t, a);
  }

  /** The last iMCU row is in and its last row repeated. */
  ghost predicate LastTrimmed(f: Frame, c: Component, held: seq<nat>, x: seq<nat>, w: nat)
    requires Covers(c, f) && ImcuHeight(c) >= 2 * GroupHeight(c, f.m)
  {
    GroupFits(c, f.m, 0);
    hide ImcuHeight, GroupHeight, RowsLeft, Times;
    Trimmed(held, x, w, Times(f.total - 1, ImcuHeight(c)), RowsLeft(c), GroupHeight(c, f.m), ImcuHeight(c))
  }

  /** Row group a of the last iMCU row. */
  lemma ShownTrimmed(f: Frame, c: Component, a: nat, held: seq<nat>, x: seq<nat>, w: nat)
    requires Covers(c, f) && Times(f.total - 1, f.m) + a < f.groups && w < 2 && ImcuHeight(c) >= 2 * GroupHeight(c, f.m)
    requires LastTrimmed(f, c, held, x, w)
    ensures var r := GroupHeight(c, f.m);
      Sees(held, x, Times(a, r), r) && View(held, x, Times(a, r), r) == Window(f, c, Times(f.total - 1, f.m) + a)
  {
    var r, h, t, left := GroupHeight(c, f.m), ImcuHeight(c), f.total - 1, RowsLeft(c);
    hide GroupHeight, ImcuHeight, RowsLeft, Times, Trimmed, View, Sees, Postponed;
    GroupFits(c, f.m, a);
    LastRow(c, f);
    InLastRow(f, c, a);
    SeenTrimmed(held, x, w, Times(t, h), left, Times(a, r), r, h);
  }

  lemma InLastRow(f: Frame, c: Component, a: nat)
    requires Covers(c, f) && Times(f.total - 1, f.m) + a < f.groups && ImcuHeight(c) >= 2 * GroupHeight(c, f.m)
    ensures Times(a, GroupHeight(c, f.m)) < RowsLeft(c) && !Postponed(f, Times(f.total - 1, f.m) + a)
    ensures Times(Times(f.total - 1, f.m) + a, GroupHeight(c, f.m)) == Times(f.total - 1, ImcuHeight(c)) + Times(a, GroupHeight(c, f.m))
  {
    var r, h, t, left := GroupHeight(c, f.m), ImcuHeight(c), f.total - 1, RowsLeft(c);
    hide GroupHeight, ImcuHeight, RowsLeft, Times;
    GroupFits(c, f.m, a);
    LastRow(c, f);
    Divided(left - 1, r);
    TimesMonotone(a, (left - 1) / r, r);
    if a + 1 < f.m {
      ModOf(t, f.m, a + 1);
    } else {
      NotPast(c, f, a);
    }
    GroupStart(c, f.m, t, a);
  }

  lemma NotPast(c: Component, f: Frame, a: nat)
    requires Covers(c, f) && f.m <= a + 1
    ensures f.groups <= Times(f.total - 1, f.m) + a + 1
  {
    var r, h, t := GroupHeight(c, f.m), ImcuHeight(c), f.total - 1;
    hide GroupHeight, ImcuHeight, Times;
    GroupFits(c, f.m, 0);
    TimesNext(t, h);
    GroupStart(c, f.m, t, f.m);
    if f.groups > Times(t, f.m) + f.m {
      TimesMonotone(Times(t, f.m) + f.m, f.groups - 1, r);
    }
  }

  /** The last row group of the iMCU row before t, shown once iMCU row t is in. */
  lemma ShownPostponed(f: Frame, c: Component, t: nat, held: seq<nat>, x0: seq<nat>, x1: seq<nat>, w: nat)
    requires Covers(c, f) && 0 < t < f.total && w < 2 && ImcuHeight(c) >= 2 * GroupHeight(c, f.m)
    requires Loaded(held, x0, x1, w, Times(t, ImcuHeight(c)), GroupHeight(c, f.m), ImcuHeight(c))
    ensures Times(t, f.m) >= f.m
    ensures var r := GroupHeight(c, f.m);
      && Sees(held, Pick(w, x0, x1), Times(f.m + 1, r), r)
      && View(held, Pick(w, x0, x1), Times(f.m + 1, r), r) == Window(f, c, Times(t, f.m) - 1)
  {
    var r, h := GroupHeight(c, f.m), ImcuHeight(c);
    hide GroupHeight, ImcuHeight, RowsLeft, Times, Loaded, View, Sees, Postponed;
    GroupFits(c, f.m, 0);
    LastGroupBefore(f, c, t);
    TimesNext(f.m, r);
    SeenPostponed(held, x0, x1, w, Times(t, h), r, h);
  }

  /** The row group before iMCU row t. */
  lemma LastGroupBefore(f: Frame, c: Component, t: nat)
    requires Covers(c, f) && 0 < t < f.total && ImcuHeight(c) >= 2 * GroupHeight(c, f.m)
    ensures Times(t, f.m) >= f.m && Times(t, ImcuHeight(c)) >= ImcuHeight(c) && Postponed(f, Times(t, f.m) - 1)
    ensures Times(Times(t, f.m) - 1, GroupHeight(c, f.m)) + GroupHeight(c, f.m) == Times(t, ImcuHeight(c))
  {
    var r, h := GroupHeight(c, f.m), ImcuHeight(c);
    hide GroupHeight, ImcuHeight, Times;
    NotLastRow(c, f, t);
    TimesNext(t - 1, h);
    TimesNext(t - 1, f.m);
    ModOf(t, f.m, 0);
    GroupStart(c, f.m, t, 0);
    TimesNext(Times(t, f.m) - 1, r);
    ZeroTimes(r);
  }

  /** A postponed row group is the last of some iMCU row t - 1. */
  lemma PostponedAt(f: Frame, c: Component, g: nat) returns (t: nat)
    requires Covers(c, f) && Postponed(f, g)
    ensures 0 < t < f.total && g + 1 == Times(t, f.m)
    ensures Times(g, GroupHeight(c, f.m)) + GroupHeight(c, f.m) == Times(t, ImcuHeight(c))
  {
    t := (g + 1) / f.m;
    Divided(g + 1, f.m);
    var r := GroupHeight(c, f.m);
    hide GroupHeight, ImcuHeight, Times;
    ZeroTimes(f.m);
    GroupStart(c, f.m, t, 0);
    ZeroTimes(r);
    TimesNext(g, r);
    if t >= f.total {
      NotPast(c, f, f.m - 1);
      TimesNext(f.total - 1, f.m);
      TimesMonotone(f.total, t, f.m);
    }
  }

  /** In every window each image row of the row group has its neighbours above and below it, the
  first and the last row standing in for those outside the image. */
  lemma Neighbours(f: Frame, c: Component, g: nat, y: nat)
    requires Covers(c, f) && g < f.groups && y < c.height
    requires var r := GroupHeight(c, f.m); Times(g, r) <= y < Times(g, r) + r
    ensures var r := GroupHeight(c, f.m);
      var at := r + y - Times(g, r);
      && Window(f, c, g)[at] == y
      && Window(f, c, g)[at - 1] == Nearest(y - 1, c.height) && Window(f, c, g)[at + 1] == Nearest(y + 1, c.height)
  {
    var r := GroupHeight(c, f.m);
    hide GroupHeight, ImcuHeight, Times;
    if Postponed(f, g) {
      var t := PostponedAt(f, c, g);
      NotLastRow(c, f, t);
      FirstRowBefore(t, ImcuHeight(c), r, c, f);
    }
  }

  lemma FirstRowBefore(t: nat, h: nat, r: nat, c: Component, f: Frame)
    requires Covers(c, f) && 0 < t && h == ImcuHeight(c) && r == GroupHeight(c, f.m)
    ensures Times(t, h) >= 2 * r
  {
    hide GroupHeight, ImcuHeight, Times;
    GroupFits(c, f.m, 0);
    TimesNext(t - 1, h);
  }

  /** Entry i of what is shown around row group g: inside the image the rows themselves, above it
  the first, below it the last, but padding below the last row group of an iMCU row that is not
  the last row group of the image. */
  lemma ShownLaw(f: Frame, c: Component, g: nat, i: nat)
    requires Covers(c, f) && g < f.groups && i < 3 * GroupHeight(c, f.m)
    ensures var r := GroupHeight(c, f.m);
      var y := Times(g, r) - r + i;
      && (0 <= y < c.height ==> Window(f, c, g)[i] == y) && (y < 0 ==> Window(f, c, g)[i] == 0)
      && (y >= c.height ==> Window(f, c, g)[i] == if g + 1 < f.groups && (g + 1) % f.m == 0 then y else c.height - 1)
  {
    var r := GroupHeight(c, f.m);
    hide GroupHeight, ImcuHeight, Times;
    if Postponed(f, g) {
      var t := PostponedAt(f, c, g);
      FirstRowBefore(t, ImcuHeight(c), r, c, f);
    }
  }

  ghost predicate FullContext(f: Frame, c: Component)
    requires Covers(c, f)
  {
    forall g: nat :: g < f.groups ==> Window(f, c, g) == Clamped(Times(g, GroupHeight(c, f.m)), GroupHeight(c, f.m), c.height)
  }

  /** A whole row group of context with the edge rows duplicated is what the upsampler gets
  exactly if the image does not end inside the first row group of an iMCU row other than the
  first: there the postponed row group is shown padding rows below. */
  lemma FullContextIff(f: Frame, c: Component)
    requires Covers(c, f)
    ensures FullContext(f, c) <==> f.total == 1 || RowsLeft(c) >= GroupHeight(c, f.m)
  {
    var r := GroupHeight(c, f.m);
    hide GroupHeight, ImcuHeight, Times, RowsLeft;
    LastRow(c, f);
    if f.total > 1 && RowsLeft(c) < r {
      ShortLastRow(f, c);
    } else {
      forall g: nat | g < f.groups
        ensures Window(f, c, g) == Clamped(Times(g, r), r, c.height)
      {
        if Postponed(f, g) {
          var t := PostponedAt(f, c, g);
          FirstRowBefore(t, ImcuHeight(c), r, c, f);
          if t < f.total - 1 {
            TimesNext(t, ImcuHeight(c));
            TimesMonotone(t + 1, f.total - 1, ImcuHeight(c));
            GroupFits(c, f.m, 0);
          }
          assert Times(g, r) + 2 * r <= c.height;
        }
      }
    }
  }

  lemma ShortLastRow(f: Frame, c: Component)
    requires Covers(c, f) && f.total > 1 && RowsLeft(c) < GroupHeight(c, f.m)
    ensures !FullContext(f, c)
  {
    var r, t := GroupHeight(c, f.m), f.total - 1;
    hide GroupHeight, ImcuHeight, Times, RowsLeft;
    LastRow(c, f);
    NotLastRow(c, f, t);
    TimesNext(t - 1, f.m);
    var g: nat := Times(t, f.m) - 1;
    ModOf(t, f.m, 0);
    GroupStart(c, f.m, t, 0);
    ZeroTimes(r);
    TimesNext(g, r);
    FirstRowBefore(t, ImcuHeight(c), r, c, f);
    assert Window(f, c, g)[3 * r - 1] == Times(g, r) + 2 * r - 1;
    assert Clamped(Times(g, r), r, c.height)[3 * r - 1] == c.height - 1;
  }

  /** jdiv_round_up. */
  function DivRoundUp(a: nat, b: nat): nat
    requires b > 0
  {
    (a + b - 1) / b
  }

  /** The frame of an image, with the heights jdmaster.c and jdinput.c compute. */
  lemma FrameOfImage(height: nat, maxSamp: nat, samp: nat, scaled: nat, m: nat)
    requires 0 < height && 0 < maxSamp && 2 <= m && 0 < samp * scaled && (samp * scaled) % m == 0
    ensures var c := Component(samp, scaled, DivRoundUp(height * (samp * scaled), maxSamp * 8));
      Covers(c, Frame([c], m, DivRoundUp(height, maxSamp * 8), DivRoundUp(height * m, maxSamp * 8)))
  {
    var d, h := maxSamp * 8, samp * scaled;
    var r := h / m;
    Divided(h, m);
    assert h == r * m;
    assert r > 0;
    HeightsRoundedUp(height, d, h, r, m);
  }

  /** An image of 17 rows whose one component is sampled in full, decoded at full size: its last
  row is alone in the second iMCU row, and the upsampler is shown a row of padding. */
  lemma SeventeenRows()
    ensures var c, f := Component(2, 8, 17), Frame([Component(2, 8, 17)], 8, 2, 9);
      && c.height == DivRoundUp(17 * (2 * 8), 2 * 8) && f.total == DivRoundUp(17, 2 * 8) && f.groups == DivRoundUp(17 * 8, 2 * 8)
      && Covers(c, f) && !FullContext(f, c)
  {
    FrameOfImage(17, 2, 2, 8, 8);
    var c, f := Component(2, 8, 17), Frame([Component(2, 8, 17)], 8, 2, 9);
    assert Covers(c, f);
    FullContextIff(f, c);
  }

  lemma HeightsRoundedUp(height: nat, d: nat, h: nat, r: nat, m: nat)
    requires height > 0 && d > 0 && h > 0 && r > 0 && m > 0 && h == Times(r, m)
    ensures var q, p := DivRoundUp(height, d), DivRoundUp(height * m, d);
      var x := DivRoundUp(height * h, d);
      1 <= q && 1 <= p && 0 < x && Times(q - 1, h) < x <= Times(q, h) && Times(p - 1, r) < x <= Times(p, r)
  {
    RoundedUp(height, d, h);
    hide DivRoundUp;
    assert height * m > 0;
    RoundedUp(height * m, d, r);
    assert height * m * r == height * h;
  }

  /** Rounding up n k / d lies where n / d rounded up says. */
  lemma RoundedUp(n: nat, d: nat, k: nat)
    requires n > 0 && d > 0 && k > 0
    ensures var q := DivRoundUp(n, d); 1 <= q && Times(q - 1, k) < DivRoundUp(Times(n, k), d) <= Times(q, k)
    ensures 0 < DivRoundUp(Times(n, k), d)
  {
    hide Times, DivRoundUp;
    var q, p := DivRoundUp(n, d), DivRoundUp(Times(n, k), d);
    Ceiling(n, d);
    ZeroTimes(k);
    TimesGrows(0, n, k);
    Ceiling(Times(n, k), d);
    TimesGrows(Times(q - 1, d), n, k);
    TimesGrows(n, Times(q, d), k);
    TimesSwap(q - 1, d, k);
    TimesSwap(q, d, k);
    TimesGrows(Times(q - 1, k), p, d);
    TimesGrows(p - 1, Times(q, k), d);
  }

  lemma Ceiling(n: nat, d: nat)
    requires n > 0 && d > 0
    ensures var q := DivRoundUp(n, d); 1 <= q && Times(q - 1, d) < n <= Times(q, d)
  {
    Divided(n + d - 1, d);
    assert DivRoundUp(n, d) >= 1;
    TimesNext(DivRoundUp(n, d) - 1, d);
  }
}
