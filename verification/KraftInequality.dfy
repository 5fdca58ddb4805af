/** The Kraft inequality: the lengths of any prefix code satisfy it, so lengths that are
optimal among those that do are optimal among all prefix codes. */
module KraftInequality {

  import opened CodeString
  import opened CanonicalCode
  import opened CodeLengths
  import opened SymbolMerging

  /** No word of the list begins another one. */
  ghost predicate NoPrefix(ws: seq<seq<bit>>) {
    forall p, q :: 0 <= p < |ws| && 0 <= q < |ws| && p != q ==> !(ws[p] <= ws[q])
  }

  /** The words that start with b, without that bit. */
  function Tails(ws: seq<seq<bit>>, b: bit): seq<seq<bit>> {
    if ws == [] then []
    else
      var w := ws[|ws| - 1];
      Tails(ws[..|ws| - 1], b) + if w != [] && w[0] == b then [w[1..]] else []
  }

  lemma {:induction false} TailMember(ws: seq<seq<bit>>, b: bit, i: nat) returns (j: nat)
    requires i < |Tails(ws, b)|
    ensures j < |ws| && ws[j] == [b] + Tails(ws, b)[i]
  {
    var n := |ws| - 1;
    if i < |Tails(ws[..n], b)| {
      j := TailMember(ws[..n], b, i);
    } else {
      j := n;
    }
  }

  lemma {:induction false} TailsNoPrefix(ws: seq<seq<bit>>, b: bit)
    requires NoPrefix(ws)
    ensures NoPrefix(Tails(ws, b))
  {
    if ws != [] {
      var n := |ws| - 1;
      var t, w := Tails(ws[..n], b), ws[n];
      TailsNoPrefix(ws[..n], b);
      if w != [] && w[0] == b {
        forall i: nat | i < |t|
          ensures !(t[i] <= w[1..]) && !(w[1..] <= t[i])
        {
          var j := TailMember(ws[..n], b, i);
          PrefixBehind(b, t[i], w[1..]);
          assert w == [b] + w[1..] && ws[j] == [b] + t[i];
        }
      }
    }
  }

  lemma PrefixBehind(b: bit, s: seq<bit>, t: seq<bit>)
    ensures s <= t ==> [b] + s <= [b] + t
    ensures t <= s ==> [b] + t <= [b] + s
  {
  }

  /** The Kraft sum of a list of words, in units of 2^-top. */
  function Room(ws: seq<seq<bit>>, top: nat): int
    requires forall i :: 0 <= i < |ws| ==> |ws[i]| <= top
  {
    if ws == [] then 0 else Room(ws[..|ws| - 1], top) + Shl(1, top - |ws[|ws| - 1]|)
  }

  lemma RoomNext(ws: seq<seq<bit>>, w: seq<bit>, top: nat)
    requires |w| <= top && forall i :: 0 <= i < |ws| ==> |ws[i]| <= top
    ensures Room(ws + [w], top) == Room(ws, top) + Shl(1, top - |w|)
  {
    hide Shl;
    assert (ws + [w])[..|ws|] == ws;
  }

  lemma TailsShort(ws: seq<seq<bit>>, b: bit, top: nat)
    requires forall i :: 0 <= i < |ws| ==> |ws[i]| <= top
    ensures forall i :: 0 <= i < |Tails(ws, b)| ==> |Tails(ws, b)[i]| <= top - 1
  {
    forall i: nat | i < |Tails(ws, b)|
      ensures |Tails(ws, b)[i]| <= top - 1
    {
      var j := TailMember(ws, b, i);
    }
  }

  lemma TailsNext(ws: seq<seq<bit>>, w: seq<bit>)
    requires w != []
    ensures Tails(ws + [w], w[0]) == Tails(ws, w[0]) + [w[1..]] && Tails(ws + [w], 1 - w[0]) == Tails(ws, 1 - w[0])
  {
    assert (ws + [w])[..|ws|] == ws;
  }

  lemma {:induction false} RoomSplits(ws: seq<seq<bit>>, top: nat)
    requires top > 0 && forall i :: 0 <= i < |ws| ==> 0 < |ws[i]| <= top
    ensures forall b: bit, i: nat :: i < |Tails(ws, b)| ==> |Tails(ws, b)[i]| <= top - 1
    ensures Room(ws, top) == Room(Tails(ws, 0), top - 1) + Room(Tails(ws, 1), top - 1)
  {
    hide Shl, Room, Tails;
    forall b: bit
      ensures forall i: nat :: i < |Tails(ws, b)| ==> |Tails(ws, b)[i]| <= top - 1
    {
      TailsShort(ws, b, top);
    }
    if ws == [] {
      NothingLeft(top);
    } else {
      var n := |ws| - 1;
      var u, w := ws[..n], ws[n];
      RoomSplits(u, top);
      assert ws == u + [w];
      RoomNext(u, w, top);
      TailsNext(u, w);
      RoomNext(Tails(u, w[0]), w[1..], top - 1);
    }
  }

  lemma NothingLeft(top: nat)
    ensures Tails([], 0) == [] && Tails([], 1) == [] && Room([], top) == 0 && (top > 0 ==> Room([], top - 1) == 0)
  {
  }

  /** A word without bits would begin every other one. */
  lemma NoneEmpty(ws: seq<seq<bit>>, i: nat)
    requires NoPrefix(ws) && i < |ws| && |ws| > 1
    ensures ws[i] != []
  {
    var j := if i == 0 then 1 else 0;
    assert !(ws[i] <= ws[j]);
  }

  /** Kraft's inequality. */
  lemma {:induction false} PrefixCodesFit(ws: seq<seq<bit>>, top: nat)
    requires NoPrefix(ws) && forall i :: 0 <= i < |ws| ==> |ws[i]| <= top
    ensures Room(ws, top) <= Shl(1, top)
    decreases top
  {
    hide Shl, Tails;
    ShlPositive(top);
    if |ws| <= 1 {
      if ws != [] {
        ShlGrows(top, top - |ws[0]|);
        assert ws[..0] == [];
      }
    } else {
      forall i: nat | i < |ws|
        ensures ws[i] != []
      {
        NoneEmpty(ws, i);
      }
      assert ws[0] != [];
      RoomSplits(ws, top);
      TailsNoPrefix(ws, 0);
      TailsNoPrefix(ws, 1);
      PrefixCodesFit(Tails(ws, 0), top - 1);
      PrefixCodesFit(Tails(ws, 1), top - 1);
      ShlDouble(1, top - 1);
    }
  }

  /** The words of the symbols that occur. */
  function Used(f: seq<nat>, ws: seq<seq<bit>>): seq<seq<bit>>
    requires |f| == |ws|
  {
    if f == [] then []
    else
      var n := |f| - 1;
      Used(f[..n], ws[..n]) + if f[n] > 0 then [ws[n]] else []
  }

  /** A prefix code for the symbols that occur: no code word begins another. */
  ghost predicate PrefixCode(f: seq<nat>, ws: seq<seq<bit>>)
    requires |f| == |ws|
  {
    forall p, q :: 0 <= p < |f| && 0 <= q < |f| && p != q && f[p] > 0 && f[q] > 0 ==> !(ws[p] <= ws[q])
  }

  function WordLengths(ws: seq<seq<bit>>): (l: seq<nat>)
    ensures |l| == |ws|
  {
    seq(|ws|, j requires 0 <= j < |ws| => |ws[j]|)
  }

  lemma {:induction false} UsedMember(f: seq<nat>, ws: seq<seq<bit>>, i: nat) returns (j: nat)
    requires |f| == |ws| && i < |Used(f, ws)|
    ensures j < |f| && f[j] > 0 && ws[j] == Used(f, ws)[i]
  {
    var n := |f| - 1;
    if i < |Used(f[..n], ws[..n])| {
      j := UsedMember(f[..n], ws[..n], i);
    } else {
      j := n;
    }
  }

  lemma {:induction false} UsedNoPrefix(f: seq<nat>, ws: seq<seq<bit>>)
    requires |f| == |ws| && PrefixCode(f, ws)
    ensures NoPrefix(Used(f, ws))
  {
    if f != [] {
      var n := |f| - 1;
      var u := Used(f[..n], ws[..n]);
      UsedNoPrefix(f[..n], ws[..n]);
      forall i: nat | i < |u| && f[n] > 0
        ensures !(u[i] <= ws[n]) && !(ws[n] <= u[i])
      {
        var j := UsedMember(f[..n], ws[..n], i);
        assert ws[j] == u[i];
      }
    }
  }

  lemma KraftNext(f: seq<nat>, ws: seq<seq<bit>>, top: nat)
    requires |f| == |ws| && f != []
    ensures var n := |f| - 1;
      Total(KraftTerms(f, WordLengths(ws), top))
      == Total(KraftTerms(f[..n], WordLengths(ws[..n]), top)) + KraftTerm(f[n], |ws[n]|, top)
  {
    hide KraftTerm;
    var n := |f| - 1;
    assert KraftTerms(f, WordLengths(ws), top)[..n] == KraftTerms(f[..n], WordLengths(ws[..n]), top);
  }

  lemma UsedNext(f: seq<nat>, ws: seq<seq<bit>>)
    requires |f| == |ws| && f != []
    ensures var n := |f| - 1;
      Used(f, ws) == if f[n] > 0 then Used(f[..n], ws[..n]) + [ws[n]] else Used(f[..n], ws[..n])
  {
  }

  lemma NothingUsed(top: nat)
    ensures Used([], []) == [] && Room([], top) == 0 && Total(KraftTerms([], WordLengths([]), top)) == 0
  {
  }

  lemma {:induction false} UsedRoom(f: seq<nat>, ws: seq<seq<bit>>, top: nat)
    requires |f| == |ws| && forall j :: 0 <= j < |f| && f[j] > 0 ==> |ws[j]| <= top
    ensures forall i :: 0 <= i < |Used(f, ws)| ==> |Used(f, ws)[i]| <= top
    ensures Room(Used(f, ws), top) == Total(KraftTerms(f, WordLengths(ws), top))
  {
    hide Shl, Used, Room, Total, KraftTerms, WordLengths;
    if f == [] {
      NothingUsed(top);
    } else {
      var n := |f| - 1;
      UsedRoom(f[..n], ws[..n], top);
      KraftNext(f, ws, top);
      UsedNext(f, ws);
      if f[n] > 0 {
        RoomNext(Used(f[..n], ws[..n]), ws[n], top);
      }
    }
  }

  /** Optimal code lengths cost no more than the words of any prefix code whatever. */
  lemma OptimalAmongPrefixCodes(f: seq<nat>, cs: seq<nat>, ws: seq<seq<bit>>, top: nat)
    requires |f| == |cs| == |ws| && Optimal(f, cs) && PrefixCode(f, ws)
    requires forall j :: 0 <= j < |f| && f[j] > 0 ==> |ws[j]| <= top
    ensures Cost(f, cs) <= Cost(f, WordLengths(ws))
  {
    hide Shl, Cost, Total, KraftTerms, Room, Used;
    UsedRoom(f, ws, top);
    UsedNoPrefix(f, ws);
    PrefixCodesFit(Used(f, ws), top);
    assert Kraft(f, WordLengths(ws), top);
  }
}
