/** The preprocessing controller of jcprepct.c in context mode: a ring of three row groups seen
through a list of five, fed with any number of rows at a time.

All components are buffered alike, so a ring row stands for that row of every component; it
holds the number of the image row last stored in it. */
module PrepRing {

  import opened Arithmetic
  import opened RowLists

  /** The ring row behind element q of the list of five row groups. */
  function RingRow(q: nat, v: nat): nat
    requires q < 5 * v
  {
    if q < v then 2 * v + q else if q < 4 * v then q - v else q - 4 * v
  }

  ghost predicate Wrapped(list: seq<nat>, v: nat) {
    |list| == 5 * v && forall q :: 0 <= q < 5 * v ==> list[q] == RingRow(q, v)
  }

  /** Ring rows below next belong to the lap that starts at image row origin, the others to the
  lap before; ahead of the first row stand copies of it. */
  ghost predicate Holds(ring: seq<nat>, origin: nat, next: nat, v: nat, height: nat)
    requires height > 0
  {
    && |ring| == 3 * v && next <= 3 * v
    && (forall p :: 0 <= p < next ==> ring[p] == Nearest(origin + p, height))
    && (origin + next > 0 ==> forall p :: next <= p < 3 * v && 2 * v <= origin + p ==> ring[p] == Nearest(origin + p - 3 * v, height))
  }

  /** A row group as the downsampler sees it, with the row group above and below. */
  function Seen(ring: seq<nat>, list: seq<nat>, at: nat, v: nat): (s: seq<nat>)
    requires |list| == 5 * v && at + 3 * v <= 5 * v && forall q :: 0 <= q < |list| ==> list[q] < |ring|
    ensures |s| == 3 * v && forall i :: 0 <= i < 3 * v ==> s[i] == ring[list[at + i]]
  {
    seq(3 * v, i requires 0 <= i < 3 * v => ring[list[at + i]])
  }

  /** With two row groups read beyond its start, row group at sees its context. */
  lemma SeesContext(ring: seq<nat>, list: seq<nat>, at: nat, start: nat, origin: nat, next: nat, v: nat, height: nat)
    requires 0 < v && 0 < height && Wrapped(list, v) && Holds(ring, origin, next, v, height)
    requires next == v || next == 2 * v || next == 3 * v
    requires origin + next == start + 2 * v && at == if start >= origin then start - origin else start + 3 * v - origin
    ensures at + 3 * v <= 5 * v && (forall q :: 0 <= q < |list| ==> list[q] < |ring|)
    ensures Seen(ring, list, at, v) == Clamped(start, v, height)
  {
    forall q | at <= q < at + 3 * v
      ensures q < 5 * v && ring[list[q]] == Nearest(start + q - at - v, height)
    {
      var p := RingRow(q, v);
      assert list[q] == p < 3 * v;
      assert p < next ==> ring[p] == Nearest(origin + p, height);
    }
  }

  lemma Extended(was: seq<nat>, ring: seq<nat>, origin: nat, from: nat, to: nat, v: nat, height: nat)
    requires 0 < height && Holds(was, origin, from, v, height) && from <= to <= 3 * v && 0 < origin + from && |ring| == 3 * v
    requires forall p :: 0 <= p < 3 * v ==> ring[p] == if from <= p < to then Nearest(origin + p, height) else was[p]
    ensures Holds(ring, origin, to, v, height)
  {
  }

  lemma TopPadded(ring: seq<nat>, next: nat, v: nat, height: nat)
    requires 0 < height && 0 < next <= 2 * v && |ring| == 3 * v
    requires forall p :: 0 <= p < next ==> ring[p] == Nearest(p, height)
    requires forall p :: 2 * v <= p < 3 * v ==> ring[p] == 0
    ensures Holds(ring, 0, next, v, height)
  {
  }

  lemma NextLap(ring: seq<nat>, origin: nat, v: nat, height: nat)
    requires 0 < v && 0 < height && Holds(ring, origin, 3 * v, v, height)
    ensures Holds(ring, origin + 3 * v, 0, v, height)
  {
  }

  class PrepController {
    const v: nat
    const height: nat
    const ring: array<nat>
    const list: array<nat>
    var rowsToGo: nat
    var nextBufRow: nat
    var thisRowGroup: nat
    var nextBufStop: nat
    /** The image row at the start of the ring, and of the row group to be downsampled next. */
    ghost var origin: nat
    ghost var start: nat
    /** What the downsampler has been given, row group by row group. */
    var seen: seq<seq<nat>>

    ghost predicate Shape()
      reads ring, list
    {
      0 < v && 0 < height && ring != list && ring.Length == 3 * v && list.Length == 5 * v && Wrapped(list[..], v)
    }

    ghost predicate Placed()
      reads this
    {
      && (nextBufStop == v || nextBufStop == 2 * v || nextBufStop == 3 * v)
      && origin + nextBufStop == start + 2 * v
      && thisRowGroup == (if start >= origin then start - origin else start + 3 * v - origin)
      && start == Times(|seen|, v)
    }

    /** Rows stored so far, those that pad the bottom included. */
    ghost predicate Counted()
      reads this
    {
      && nextBufRow <= nextBufStop && (start == origin == 0 || start + v <= origin + nextBufRow)
      && if rowsToGo > 0 then origin + nextBufRow + rowsToGo == height else origin + nextBufRow >= height
    }

    ghost predicate Faithful()
      requires height > 0
      reads this
    {
      forall g :: 0 <= g < |seen| ==> seen[g] == Clamped(Times(g, v), v, height)
    }

    ghost predicate Filled()
      requires Shape()
      reads this, ring, list
    {
      Placed() && Counted() && Holds(ring[..], origin, nextBufRow, v, height) && Faithful()
    }

    ghost predicate Valid()
      reads this, ring, list
    {
      Shape() && Filled() && nextBufRow < nextBufStop
    }

    constructor (v: nat, height: nat)
      requires 0 < v && 0 < height
      ensures Valid() && this.v == v && this.height == height && seen == [] && rowsToGo == height && fresh(ring)
    {
      this.v, this.height := v, height;
      ring := new nat[3 * v];
      list := new nat[5 * v];
      rowsToGo, nextBufRow, thisRowGroup, nextBufStop := height, 0, 0, 2 * v;
      origin, start, seen := 0, 0, [];
      new;
      CreateContextBuffer();
    }

    /** create_context_buffer: the list of five row groups. */
    method CreateContextBuffer()
      requires 0 < v && list.Length == 5 * v && ring != list
      modifies list
      ensures Wrapped(list[..], v)
    {
      for i := 0 to 3 * v
        invariant forall q :: v <= q < v + i ==> list[q] == q - v
      {
        list[v + i] := i;
      }
      for i := 0 to v
        invariant forall q :: v <= q < 4 * v ==> list[q] == q - v
        invariant forall q :: 0 <= q < i ==> list[q] == 2 * v + q
        invariant forall q :: 4 * v <= q < 4 * v + i ==> list[q] == q - 4 * v
      {
        list[i] := 2 * v + i;
        list[4 * v + i] := i;
      }
    }

    /** color_convert stores the next rows of the image. */
    method ColorConvert(numrows: nat)
      requires Shape() && Holds(ring[..], origin, nextBufRow, v, height) && nextBufRow + numrows <= 3 * v
      requires 0 < origin + nextBufRow || 0 < numrows
      requires origin + nextBufRow + numrows <= height && origin + nextBufRow == height - rowsToGo
      modifies ring
      ensures forall p :: 0 <= p < nextBufRow + numrows ==> ring[p] == Nearest(origin + p, height)
      ensures forall p :: nextBufRow + numrows <= p < 3 * v ==> ring[p] == old(ring[p])
    {
      for i := 0 to numrows
        invariant forall p :: 0 <= p < nextBufRow + i ==> ring[p] == Nearest(origin + p, height)
        invariant forall p :: nextBufRow + i <= p < 3 * v ==> ring[p] == old(ring[p])
      {
        assert list[..][v + nextBufRow + i] == nextBufRow + i;
        ring[list[v + nextBufRow + i]] := height - rowsToGo + i;
      }
    }

    /** The rows above the image repeat its first row. */
    method PadTop(stored: nat)
      requires Shape() && 0 < stored <= 2 * v
      modifies ring
      ensures forall p :: 0 <= p < stored ==> ring[p] == old(ring[p])
      ensures forall p :: 2 * v <= p < 3 * v ==> ring[p] == old(ring[0])
    {
      for row := 1 to v + 1
        invariant forall p :: 0 <= p < stored ==> ring[p] == old(ring[p])
        invariant forall p :: 3 * v - row < p < 3 * v ==> ring[p] == old(ring[0])
      {
        assert list[..][v] == 0 && list[..][v - row] == 3 * v - row;
        ring[list[v - row]] := ring[list[v]];
      }
    }

    /** expand_bottom_edge: repeat the last row stored up to nextBufStop. */
    method ExpandBottomEdge()
      requires Shape() && Filled() && rowsToGo == 0
      modifies ring
      ensures Shape() && Holds(ring[..], origin, nextBufStop, v, height)
    {
      ghost var last := RingRow(v + nextBufRow - 1, v);
      ghost var was := ring[..];
      assert list[..][v + nextBufRow - 1] == last && was[last] == height - 1;
      for row := nextBufRow to nextBufStop
        invariant Shape() && ring[last] == height - 1
        invariant forall p :: 0 <= p < 3 * v ==> ring[p] == if nextBufRow <= p < row then height - 1 else was[p]
      {
        assert list[..][v + row] == row;
        ring[list[v + row]] := ring[list[v + nextBufRow - 1]];
      }
      Extended(was, ring[..], origin, nextBufRow, nextBufStop, v, height);
    }

    /** Take in rows and let the top of the image be padded the first time. */
    method TakeRows(numrows: nat)
      requires Valid() && 0 < numrows <= rowsToGo && nextBufRow + numrows <= nextBufStop
      modifies ring, `nextBufRow, `rowsToGo
      ensures Shape() && Filled() && nextBufRow == old(nextBufRow) + numrows && rowsToGo == old(rowsToGo) - numrows
    {
      hide Clamped, Times, RingRow;
      ghost var was := ring[..];
      ColorConvert(numrows);
      if rowsToGo == height {
        PadTop(numrows);
        TopPadded(ring[..], numrows, v, height);
      } else {
        Extended(was, ring[..], origin, nextBufRow, nextBufRow + numrows, v, height);
      }
      nextBufRow := nextBufRow + numrows;
      rowsToGo := rowsToGo - numrows;
    }

    /** Hand a row group to the downsampler and advance around the ring. */
    method DownsampleGroup()
      requires Shape() && Filled() && nextBufRow == nextBufStop
      modifies `seen, `thisRowGroup, `nextBufRow, `nextBufStop, `origin, `start
      ensures Valid() && old(seen) <= seen && |seen| == old(|seen|) + 1
    {
      hide Holds, Clamped, RingRow, Seen, Times;
      SeesContext(ring[..], list[..], thisRowGroup, start, origin, nextBufRow, v, height);
      TimesNext(|seen|, v);
      seen := seen + [Seen(ring[..], list[..], thisRowGroup, v)];
      start := start + v;
      thisRowGroup := thisRowGroup + v;
      if thisRowGroup >= v * 3 {
        thisRowGroup := 0;
      }
      if nextBufRow >= v * 3 {
        NextLap(ring[..], origin, v, height);
        nextBufRow := 0;
        origin := origin + 3 * v;
      }
      nextBufStop := nextBufRow + v;
    }

    /** pre_process_context: take the rows offered, as far as the downsampler's output has room. */
    method PreProcess(inRowCtr: nat, inRowsAvail: nat, outRowGroupCtr: nat, outRowGroupsAvail: nat)
      returns (inDone: nat, outDone: nat)
      requires Valid() && inRowCtr <= inRowsAvail <= inRowCtr + rowsToGo && outRowGroupCtr <= outRowGroupsAvail
      modifies this, ring
      ensures Valid() && old(seen) <= seen && |seen| == old(|seen|) + outDone - outRowGroupCtr
      ensures inRowCtr <= inDone <= inRowsAvail && rowsToGo == old(rowsToGo) - (inDone - inRowCtr)
      ensures outDone == outRowGroupsAvail || (outDone < outRowGroupsAvail && inDone == inRowsAvail && rowsToGo > 0)
    {
      inDone, outDone := inRowCtr, outRowGroupCtr;
      while outDone < outRowGroupsAvail
        invariant Valid() && old(seen) <= seen && |seen| == old(|seen|) + outDone - outRowGroupCtr
        invariant inRowCtr <= inDone <= inRowsAvail && rowsToGo == old(rowsToGo) - (inDone - inRowCtr)
        invariant outDone <= outRowGroupsAvail
        decreases outRowGroupsAvail - outDone, inRowsAvail - inDone
      {
        if inDone < inRowsAvail {
          var inrows := inRowsAvail - inDone;
          var numrows := nextBufStop - nextBufRow;
          if inrows < numrows {
            numrows := inrows;
          }
          TakeRows(numrows);
          inDone := inDone + numrows;
        } else {
          if rowsToGo != 0 {
            break;
          }
          ExpandBottomEdge();
          nextBufRow := nextBufStop;
        }
        if nextBufRow == nextBufStop {
          DownsampleGroup();
          outDone := outDone + 1;
        }
      }
    }

    /** Whatever the calls so far, every row group went to the downsampler once, in order, with
    its neighbours, the edge rows replicated; and while rows are still to come, just those have
    gone that have a whole row group in store below them. */
    lemma InOrder()
      requires Valid()
      ensures forall g :: 0 <= g < |seen| ==> seen[g] == Clamped(Times(g, v), v, height)
      ensures rowsToGo > 0 ==> |seen| == Ready(height - rowsToGo, v)
    {
      hide Holds, Times, Clamped;
      if rowsToGo > 0 {
        var n, k := height - rowsToGo, |seen|;
        TimesZero(k, v);
        TimesNext(k, v);
        Within(n, v, k);
      }
    }
  }

  /** Row groups with a row group below them, of n rows. */
  function Ready(n: nat, v: nat): nat
    requires v > 0
  {
    if n / v == 0 then 0 else n / v - 1
  }

  lemma Within(n: nat, v: nat, k: nat)
    requires v > 0 && n < Times(k + 1, v) + v && (k == 0 || Times(k + 1, v) <= n)
    ensures k == Ready(n, v)
  {
    hide Times;
    ZeroTimes(v);
    TimesNext(0, v);
    if n < v {
      Quotient(n, v, 0, n);
      if k > 0 {
        TimesMonotone(1, k + 1, v);
      }
    } else {
      Quotient(n, v, k + 1, n - Times(k + 1, v));
    }
  }

  lemma ReadyGrows(a: nat, b: nat, v: nat)
    requires v > 0 && a <= b
    ensures Ready(a, v) <= Ready(b, v)
  {
    hide Times;
    Divided(a, v);
    Divided(b, v);
    if b / v < a / v {
      TimesMonotone(b / v + 1, a / v, v);
      TimesNext(b / v, v);
    }
  }

  function Sum(chunks: seq<nat>): nat {
    if chunks == [] then 0 else Sum(chunks[..|chunks| - 1]) + chunks[|chunks| - 1]
  }

  lemma SumNext(chunks: seq<nat>, n: nat)
    requires n < |chunks|
    ensures Sum(chunks[..n + 1]) == Sum(chunks[..n]) + chunks[n]
  {
    assert chunks[..n + 1][..n] == chunks[..n];
  }

  lemma {:induction false} SumGrows(chunks: seq<nat>, n: nat)
    requires n <= |chunks|
    ensures Sum(chunks[..n]) <= Sum(chunks)
    decreases |chunks| - n
  {
    if n < |chunks| {
      SumNext(chunks, n);
      SumGrows(chunks, n + 1);
    } else {
      assert chunks[..n] == chunks;
    }
  }

  /** A whole image, its rows offered in chunks of any sizes, for as many row groups as the
  frame asks for: each is given once, in order, with its neighbours; and an image not yet
  complete has given just the row groups with another one below them. */
  method Run(v: nat, height: nat, chunks: seq<nat>, groups: nat) returns (seen: seq<seq<nat>>)
    requires 0 < v && 0 < height
    ensures |seen| <= groups && forall g :: 0 <= g < |seen| ==> seen[g] == Clamped(Times(g, v), v, height)
    ensures Sum(chunks) >= height ==> |seen| == groups
    ensures Sum(chunks) < height ==> |seen| == if groups <= Ready(Sum(chunks), v) then groups else Ready(Sum(chunks), v)
  {
    hide PrepController.Valid, Clamped, Times, Ready;
    var p := new PrepController(v, height);
    var i := 0;
    NothingReady(v);
    while i < |chunks| && |p.seen| < groups
      invariant p.Valid() && p.v == v && p.height == height && 0 <= i <= |chunks| && |p.seen| <= groups && fresh(p) && fresh(p.ring)
      invariant |p.seen| < groups ==> Sum(chunks[..i]) < height && p.rowsToGo == height - Sum(chunks[..i])
      invariant Sum(chunks[..i]) < height ==> |p.seen| <= Ready(Sum(chunks[..i]), v)
    {
      var avail := chunks[i];
      if p.rowsToGo < avail {
        avail := p.rowsToGo;
      }
      SumNext(chunks, i);
      ghost var given := p.seen;
      var inDone, outDone := p.PreProcess(0, avail, |p.seen|, groups);
      p.InOrder();
      if Sum(chunks[..i + 1]) < height {
        ReadyGrows(height - p.rowsToGo, Sum(chunks[..i + 1]), v);
      }
      i := i + 1;
    }
    p.InOrder();
    SumGrows(chunks, i);
    if Sum(chunks) < height {
      ReadyGrows(Sum(chunks[..i]), Sum(chunks), v);
    }
    assert chunks[..|chunks|] == chunks;
    seen := p.seen;
  }

  lemma NothingReady(v: nat)
    requires v > 0
    ensures Ready(0, v) == 0 && Sum([]) == 0
  {
  }
}
