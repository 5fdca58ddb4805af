/** Code lengths for weighted symbols: their cost, the Kraft sum every prefix code satisfies,
and why giving the two lightest symbols a common parent loses nothing. */
module CodeLengths {

  import opened CodeString
  import opened CanonicalCode

  function Total(t: seq<int>): int {
    if t == [] then 0 else Total(t[..|t| - 1]) + t[|t| - 1]
  }

  lemma {:induction false} TotalUpdate(t: seq<int>, i: nat, x: int)
    requires i < |t|
    ensures Total(t[i := x]) == Total(t) - t[i] + x
  {
    var n := |t| - 1;
    if i < n {
      TotalUpdate(t[..n], i, x);
      assert t[i := x][..n] == t[..n][i := x];
    } else {
      assert t[i := x][..n] == t[..n];
    }
  }

  lemma {:induction false} TotalOfZeros(t: seq<int>)
    requires forall i :: 0 <= i < |t| ==> t[i] == 0
    ensures Total(t) == 0
  {
    if t != [] {
      TotalOfZeros(t[..|t| - 1]);
    }
  }

  lemma {:induction false} TotalNonnegative(t: seq<int>)
    requires forall i :: 0 <= i < |t| ==> t[i] >= 0
    ensures Total(t) >= 0 && forall i :: 0 <= i < |t| ==> t[i] <= Total(t)
  {
    if t != [] {
      TotalNonnegative(t[..|t| - 1]);
      assert forall i :: 0 <= i < |t| - 1 ==> t[i] == t[..|t| - 1][i];
    }
  }

  /** Weighted lengths: what a message with these symbol counts takes. */
  function CostTerms(f: seq<nat>, l: seq<nat>): (t: seq<int>)
    requires |f| == |l|
    ensures |t| == |f|
  {
    seq(|f|, j requires 0 <= j < |f| => f[j] * l[j])
  }

  function Cost(f: seq<nat>, l: seq<nat>): int
    requires |f| == |l|
  {
    Total(CostTerms(f, l))
  }

  /** One term of the Kraft sum, in units of 2^-top. */
  function KraftTerm(f: nat, l: nat, top: nat): int {
    if f > 0 && l <= top then Shl(1, top - l) else 0
  }

  function KraftTerms(f: seq<nat>, l: seq<nat>, top: nat): (t: seq<int>)
    requires |f| == |l|
    ensures |t| == |f|
  {
    seq(|f|, j requires 0 <= j < |f| => KraftTerm(f[j], l[j], top))
  }

  /** The lengths of the symbols in use satisfy the Kraft inequality, as those of any prefix
  code do. */
  ghost predicate Kraft(f: seq<nat>, l: seq<nat>, top: nat)
    requires |f| == |l|
  {
    && (forall j :: 0 <= j < |f| && f[j] > 0 ==> l[j] <= top)
    && Total(KraftTerms(f, l, top)) <= Shl(1, top)
  }

  lemma CostSet(f: seq<nat>, l: seq<nat>, x: nat, v: nat)
    requires |f| == |l| && x < |f|
    ensures Cost(f, l[x := v]) == Cost(f, l) - f[x] * l[x] + f[x] * v
  {
    TotalUpdate(CostTerms(f, l), x, f[x] * v);
    assert CostTerms(f, l[x := v]) == CostTerms(f, l)[x := f[x] * v];
  }

  lemma CostWeigh(f: seq<nat>, l: seq<nat>, x: nat, v: nat)
    requires |f| == |l| && x < |f|
    ensures Cost(f[x := v], l) == Cost(f, l) - f[x] * l[x] + v * l[x]
  {
    TotalUpdate(CostTerms(f, l), x, v * l[x]);
    assert CostTerms(f[x := v], l) == CostTerms(f, l)[x := v * l[x]];
  }

  lemma KraftSet(f: seq<nat>, l: seq<nat>, x: nat, v: nat, top: nat)
    requires |f| == |l| && x < |f|
    ensures Total(KraftTerms(f, l[x := v], top))
      == Total(KraftTerms(f, l, top)) - KraftTerm(f[x], l[x], top) + KraftTerm(f[x], v, top)
  {
    hide KraftTerm;
    TotalUpdate(KraftTerms(f, l, top), x, KraftTerm(f[x], v, top));
    assert KraftTerms(f, l[x := v], top) == KraftTerms(f, l, top)[x := KraftTerm(f[x], v, top)];
  }

  lemma KraftWeigh(f: seq<nat>, l: seq<nat>, x: nat, v: nat, top: nat)
    requires |f| == |l| && x < |f|
    ensures Total(KraftTerms(f[x := v], l, top))
      == Total(KraftTerms(f, l, top)) - KraftTerm(f[x], l[x], top) + KraftTerm(v, l[x], top)
  {
    hide KraftTerm;
    TotalUpdate(KraftTerms(f, l, top), x, KraftTerm(v, l[x], top));
    assert KraftTerms(f[x := v], l, top) == KraftTerms(f, l, top)[x := KraftTerm(v, l[x], top)];
  }

  lemma KraftParts(f: seq<nat>, l: seq<nat>, top: nat)
    requires |f| == |l|
    ensures forall j :: 0 <= j < |f| ==> 0 <= KraftTerm(f[j], l[j], top) <= Total(KraftTerms(f, l, top))
  {
    hide Shl;
    var t := KraftTerms(f, l, top);
    forall j | 0 <= j < |t|
      ensures t[j] >= 0
    {
      if f[j] > 0 && l[j] <= top {
        ShlNat(1, top - l[j]);
      }
    }
    TotalNonnegative(t);
    assert forall j :: 0 <= j < |f| ==> KraftTerm(f[j], l[j], top) == t[j];
  }

  /** Exchanging two lengths so that the heavier symbol gets the shorter one. */
  lemma Swap(f: seq<nat>, l: seq<nat>, x: nat, z: nat, top: nat)
    requires |f| == |l| && x < |f| && z < |f| && Kraft(f, l, top) && f[x] > 0 && f[x] <= f[z] && l[x] <= l[z]
    ensures Kraft(f, l[x := l[z]][z := l[x]], top) && Cost(f, l[x := l[z]][z := l[x]]) <= Cost(f, l)
  {
    hide Cost, KraftTerm, KraftTerms, Total, Shl;
    if x == z {
      assert l[x := l[z]][z := l[x]] == l;
    } else {
      var m := l[x := l[z]];
      CostSet(f, l, x, l[z]);
      CostSet(f, m, z, l[x]);
      KraftSet(f, l, x, l[z], top);
      KraftSet(f, m, z, l[x], top);
      SameTerm(f[x], f[z], l[x], l[z], top);
      Exchange(f[x], f[z], l[x], l[z]);
    }
  }

  lemma SameTerm(a: nat, b: nat, p: nat, q: nat, top: nat)
    requires a > 0 && b > 0
    ensures KraftTerm(a, p, top) == KraftTerm(b, p, top) && KraftTerm(a, q, top) == KraftTerm(b, q, top)
  {
  }

  lemma Exchange(a: nat, b: nat, p: nat, q: nat)
    requires a <= b && p <= q
    ensures a * q + b * p <= a * p + b * q
  {
    assert (b - a) * (q - p) >= 0;
  }

  /** The symbol in use with the longest length among the first n, leaving out one. */
  lemma {:induction false} Longest(f: seq<nat>, l: seq<nat>, avoid: int, n: nat, w: nat) returns (z: nat)
    requires |f| == |l| && n <= |f| && w < n && f[w] > 0 && w != avoid
    ensures z < n && f[z] > 0 && z != avoid
    ensures forall j :: 0 <= j < n && f[j] > 0 && j != avoid ==> l[j] <= l[z]
  {
    var k := n - 1;
    if w == k {
      if v: nat :| v < k && f[v] > 0 && v != avoid {
        z := Longest(f, l, avoid, k, v);
        if l[k] > l[z] {
          z := k;
        }
      } else {
        z := k;
      }
    } else {
      z := Longest(f, l, avoid, k, w);
      if f[k] > 0 && k != avoid && l[k] > l[z] {
        z := k;
      }
    }
  }

  /** If no length exceeds m, the Kraft sum is a multiple of 2^(top - m). */
  lemma {:induction false} Multiple(f: seq<nat>, l: seq<nat>, m: nat, top: nat) returns (q: int)
    requires |f| == |l| && m <= top && forall j :: 0 <= j < |f| && f[j] > 0 ==> l[j] <= m
    ensures Total(KraftTerms(f, l, top)) == Shl(q, top - m)
  {
    hide Shl;
    if f == [] {
      q := 0;
      ShlOfZero(top - m);
    } else {
      var n := |f| - 1;
      q := Multiple(f[..n], l[..n], m, top);
      assert KraftTerms(f, l, top)[..n] == KraftTerms(f[..n], l[..n], top);
      if f[n] > 0 {
        ShlShl(1, m - l[n], top - m);
        ShlPlus(q, Shl(1, m - l[n]), top - m);
        q := q + Shl(1, m - l[n]);
      }
    }
  }

  /** A single longest length can be cut back to the next one. */
  lemma Level(f: seq<nat>, l: seq<nat>, x: nat, y: nat, top: nat)
    requires |f| == |l| && x < |f| && y < |f| && x != y && f[x] > 0 && f[y] > 0 && Kraft(f, l, top) && l[x] >= l[y]
    requires forall j :: 0 <= j < |f| && f[j] > 0 && j != x ==> l[j] <= l[y]
    ensures Kraft(f, l[x := l[y]], top) && Cost(f, l[x := l[y]]) <= Cost(f, l)
  {
    hide Shl, Total, KraftTerms, Cost;
    CostSet(f, l, x, l[y]);
    KraftSet(f, l, x, l[y], top);
    Exchange(0, f[x], l[y], l[x]);
    if l[x] > l[y] {
      var e := top - l[y];
      var g := f[x := 0];
      KraftWeigh(f, l, x, 0, top);
      var q := Multiple(g, l, l[y], top);
      ShlPositive(top - l[x]);
      ShlShl(1, l[y], e);
      ShlMonotone(q, Shl(1, l[y]), e);
      ShlMonotone(Shl(1, l[y]), q + 1, e);
      ShlPlus(q, 1, e);
    }
  }

  /** Two symbols of equal length become one symbol of one bit less. */
  lemma Join(f: seq<nat>, l: seq<nat>, x: nat, y: nat, top: nat)
    requires |f| == |l| && x < |f| && y < |f| && x != y && f[x] > 0 && f[y] > 0 && Kraft(f, l, top) && l[x] == l[y]
    ensures l[x] > 0
    ensures Kraft(f[x := f[x] + f[y]][y := 0], l[x := l[x] - 1], top)
    ensures Cost(f[x := f[x] + f[y]][y := 0], l[x := l[x] - 1]) + f[x] + f[y] == Cost(f, l)
  {
    hide Shl, Total, KraftTerms, Cost;
    NotBothEmpty(f, l, x, y, top);
    var m := l[x];
    var k := l[x := m - 1];
    var g := f[x := f[x] + f[y]];
    CostSet(f, l, x, m - 1);
    CostWeigh(f, k, x, f[x] + f[y]);
    CostWeigh(g, k, y, 0);
    KraftSet(f, l, x, m - 1, top);
    KraftWeigh(f, k, x, f[x] + f[y], top);
    KraftWeigh(g, k, y, 0, top);
    ShlDouble(1, top - m);
    JoinCost(f[x], f[y], m);
  }

  lemma JoinCost(a: nat, b: nat, m: nat)
    requires m > 0
    ensures a * m + b * m == (a + b) * (m - 1) + a + b
    ensures a * (m - 1) - a * (m - 1) + (a + b) * (m - 1) == (a + b) * (m - 1)
  {
  }

  /** Two different symbols cannot both have the empty code word. */
  lemma NotBothEmpty(f: seq<nat>, l: seq<nat>, x: nat, y: nat, top: nat)
    requires |f| == |l| && x < |f| && y < |f| && x != y && f[x] > 0 && f[y] > 0 && Kraft(f, l, top) && l[x] == l[y]
    ensures l[x] > 0
  {
    hide Shl, Total, KraftTerms;
    KraftWeigh(f, l, x, 0, top);
    KraftParts(f[x := 0], l, top);
    assert KraftTerm(f[y], l[y], top) <= Total(KraftTerms(f[x := 0], l, top)) by {
      assert f[x := 0][y] == f[y];
    }
    ShlPositive(top - l[x]);
  }

  predicate Lightest(f: seq<nat>, x: nat, y: nat) {
    && x < |f| && y < |f| && x != y && f[x] > 0 && f[y] > 0
    && forall j :: 0 <= j < |f| && f[j] > 0 ==> f[x] <= f[j] && (j != x ==> f[y] <= f[j])
  }

  /** Whatever the lengths, merging the two lightest symbols allows lengths for the merged
  weights that cost less by at least their sum. */
  lemma MergeLightest(f: seq<nat>, l: seq<nat>, x: nat, y: nat, top: nat) returns (k: seq<nat>)
    requires |f| == |l| && Lightest(f, x, y) && Kraft(f, l, top)
    ensures |k| == |f| && Kraft(f[x := f[x] + f[y]][y := 0], k, top)
    ensures Cost(f[x := f[x] + f[y]][y := 0], k) + f[x] + f[y] <= Cost(f, l)
  {
    hide Kraft, Cost;
    var z := Longest(f, l, -1, |f|, x);
    Swap(f, l, x, z, top);
    var l1 := l[x := l[z]][z := l[x]];
    var z1 := Longest(f, l1, x, |f|, y);
    Swap(f, l1, y, z1, top);
    var l2 := l1[y := l1[z1]][z1 := l1[y]];
    Level(f, l2, x, y, top);
    var l3 := l2[x := l2[y]];
    Join(f, l3, x, y, top);
    k := l3[x := l3[x] - 1];
  }
}
