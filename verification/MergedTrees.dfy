/** What the merging of jchuff.c keeps beside optimality: how deep a tree of some weight or size
can be, words for its symbols, and that the pseudo-symbol is nowhere above another symbol. */
module MergedTrees {

  import opened CodeString
  import opened CodeLengths
  import opened SymbolMerging

  /** Counts after two trees were merged. */
  function Merged(f: seq<nat>, x: nat, y: nat): (g: seq<nat>)
    requires x < |f| && y < |f|
    ensures |g| == |f|
  {
    f[x := f[x] + f[y]][y := 0]
  }

  /** Live trees are made of symbols no other one has. */
  ghost predicate Forest(f: seq<nat>, cs: seq<nat>, chains: seq<seq<nat>>) {
    && |f| == |cs| == |chains| == SYMBOLS
    && (forall r: nat :: r < SYMBOLS && f[r] > 0 ==> InRange(chains[r]) && Distinct(chains[r]) && chains[r] != [])
    && forall r: nat, q: nat :: r < SYMBOLS && q < SYMBOLS && r != q && f[r] > 0 && f[q] > 0 ==> Disjoint(chains[r], chains[q])
  }

  lemma WoodsAreForest(f0: seq<nat>, f: seq<nat>, cs: seq<nat>, others: seq<int>, chains: seq<seq<nat>>)
    requires Woods(f0, f, cs, others, chains)
    ensures Forest(f, cs, chains)
  {
    hide Disjoint, Weigh, ChainKraft, LiveCount, Distinct, InRange;
    forall r: nat | r < SYMBOLS && f[r] > 0
      ensures InRange(chains[r]) && Distinct(chains[r]) && chains[r] != []
    {
      assert Tree(f0, cs, others, chains[r], r, f[r]);
    }
  }

  /** Code sizes ds are those of cs, one more for the symbols of two trees. */
  ghost predicate Sunk(cs: seq<nat>, ds: seq<nat>, a: seq<nat>, b: seq<nat>) {
    && |cs| == |ds| == SYMBOLS
    && forall j: nat :: j < SYMBOLS ==> ds[j] == if j in a || j in b then cs[j] + 1 else cs[j]
  }

  lemma SunkBy(cs: seq<nat>, a: seq<nat>, b: seq<nat>)
    requires |cs| == SYMBOLS && InRange(a) && InRange(b) && Distinct(a) && Distinct(b) && Disjoint(a, b)
    ensures Sunk(cs, Deeper(cs, a, b), a, b)
  {
    hide Deeper;
    DeeperAt(cs, a, b);
    forall j: nat | j < SYMBOLS
      ensures Deeper(cs, a, b)[j] == if j in a || j in b then cs[j] + 1 else cs[j]
    {
      if j in a {
        var i :| 0 <= i < |a| && a[i] == j;
      } else if j in b {
        var i :| 0 <= i < |b| && b[i] == j;
      }
    }
  }

  function Fib(n: nat): nat {
    if n < 2 then n else Fib(n - 1) + Fib(n - 2)
  }

  lemma {:induction false} FibGrows(n: nat)
    ensures Fib(n) <= Fib(n + 1) && Fib(n + 1) >= 1
  {
    if n > 0 {
      FibGrows(n - 1);
    }
  }

  /** Deep trees are heavy, and so is everything beside them. */
  ghost predicate Heavy(f: seq<nat>, cs: seq<nat>, chains: seq<seq<nat>>)
    requires |f| == |cs| == |chains| == SYMBOLS
  {
    && (forall r: nat, j: nat :: r < SYMBOLS && f[r] > 0 && j in chains[r] && j < SYMBOLS ==> f[r] >= Fib(cs[j] + 2))
    && forall r: nat, j: nat, q: nat :: r < SYMBOLS && q < SYMBOLS && r != q && f[r] > 0 && f[q] > 0 && j in chains[r] && j < SYMBOLS ==>
      f[q] >= Fib(cs[j] + 1)
  }

  lemma HeavyMerged(f: seq<nat>, cs: seq<nat>, ds: seq<nat>, chains: seq<seq<nat>>, x: nat, y: nat)
    requires Forest(f, cs, chains) && Heavy(f, cs, chains) && Lightest(f, x, y) && Sunk(cs, ds, chains[x], chains[y])
    ensures Heavy(Merged(f, x, y), ds, chains[x := chains[x] + chains[y]])
  {
    hide Fib, Distinct, InRange;
    var a, b, g, chs := chains[x], chains[y], Merged(f, x, y), chains[x := chains[x] + chains[y]];
    forall r: nat, j: nat | r < SYMBOLS && g[r] > 0 && j in chs[r] && j < SYMBOLS
      ensures g[r] >= Fib(ds[j] + 2)
      ensures forall q: nat :: q < SYMBOLS && r != q && g[q] > 0 ==> g[q] >= Fib(ds[j] + 1)
    {
      FibNext(cs[j] + 1);
      if r == x {
        assert j in a || j in b;
      } else {
        InOne(chains, x, r, j);
        InOne(chains, y, r, j);
      }
    }
  }

  lemma FibNext(n: nat)
    ensures Fib(n + 2) == Fib(n + 1) + Fib(n)
  {
  }

  lemma InOne(chains: seq<seq<nat>>, x: nat, r: nat, j: nat)
    requires x < |chains| && r < |chains| && Disjoint(chains[x], chains[r]) && j in chains[r]
    ensures j !in chains[x]
  {
  }

  /** A symbol's code is shorter than the number of symbols in its tree. */
  ghost predicate Shallow(f: seq<nat>, cs: seq<nat>, chains: seq<seq<nat>>)
    requires |f| == |cs| == |chains| == SYMBOLS
  {
    forall r: nat, j: nat :: r < SYMBOLS && f[r] > 0 && j in chains[r] && j < SYMBOLS ==> cs[j] < |chains[r]|
  }

  lemma ShallowMerged(f: seq<nat>, cs: seq<nat>, ds: seq<nat>, chains: seq<seq<nat>>, x: nat, y: nat)
    requires Forest(f, cs, chains) && Shallow(f, cs, chains) && Lightest(f, x, y) && Sunk(cs, ds, chains[x], chains[y])
    ensures Shallow(Merged(f, x, y), ds, chains[x := chains[x] + chains[y]])
  {
    hide Distinct, InRange;
    var a, b, g, chs := chains[x], chains[y], Merged(f, x, y), chains[x := chains[x] + chains[y]];
    forall r: nat, j: nat | r < SYMBOLS && g[r] > 0 && j in chs[r] && j < SYMBOLS
      ensures ds[j] < |chs[r]|
    {
      if r == x {
        assert j in a || j in b;
      } else {
        InOne(chains, x, r, j);
        InOne(chains, y, r, j);
      }
    }
  }

  /** Words for the symbols of every tree: of the code sizes' lengths, and none begins another of
  its tree. */
  ghost predicate Spelled(f: seq<nat>, cs: seq<nat>, chains: seq<seq<nat>>, ws: seq<seq<bit>>)
    requires |f| == |cs| == |chains| == SYMBOLS
  {
    && |ws| == SYMBOLS && (forall j: nat :: j < SYMBOLS ==> |ws[j]| == cs[j])
    && forall r: nat, i: nat, j: nat ::
      r < SYMBOLS && f[r] > 0 && i in chains[r] && j in chains[r] && i < SYMBOLS && j < SYMBOLS && i != j ==>
      !(ws[i] <= ws[j])
  }

  /** A zero in front of the words of one tree, a one in front of those of the other. */
  function Branched(ws: seq<seq<bit>>, a: seq<nat>, b: seq<nat>): (vs: seq<seq<bit>>)
    ensures |vs| == |ws|
    ensures forall j: nat :: j < |ws| ==> vs[j] == if j in a then [0] + ws[j] else if j in b then [1] + ws[j] else ws[j]
  {
    seq(|ws|, j requires 0 <= j < |ws| => if j in a then [0] + ws[j] else if j in b then [1] + ws[j] else ws[j])
  }

  lemma SpelledMerged(f: seq<nat>, cs: seq<nat>, ds: seq<nat>, chains: seq<seq<nat>>, x: nat, y: nat, ws: seq<seq<bit>>)
    requires Forest(f, cs, chains) && Spelled(f, cs, chains, ws) && Lightest(f, x, y) && Sunk(cs, ds, chains[x], chains[y])
    ensures Spelled(Merged(f, x, y), ds, chains[x := chains[x] + chains[y]], Branched(ws, chains[x], chains[y]))
  {
    hide Distinct, InRange;
    var a, b, g, chs := chains[x], chains[y], Merged(f, x, y), chains[x := chains[x] + chains[y]];
    var vs := Branched(ws, a, b);
    forall r: nat, i: nat, j: nat | r < SYMBOLS && g[r] > 0 && i in chs[r] && j in chs[r] && i < SYMBOLS && j < SYMBOLS && i != j
      ensures !(vs[i] <= vs[j])
    {
      if r == x {
        assert (i in a || i in b) && (j in a || j in b);
        InOne(chains, x, y, if i in b then i else if j in b then j else b[0]);
        Behind(0, ws[i], ws[j]);
        Behind(1, ws[i], ws[j]);
        Apart(a, b, i);
        Apart(a, b, j);
      } else {
        InOne(chains, x, r, i);
        InOne(chains, y, r, i);
        InOne(chains, x, r, j);
        InOne(chains, y, r, j);
      }
    }
  }

  lemma Apart(a: seq<nat>, b: seq<nat>, j: nat)
    requires Disjoint(a, b)
    ensures !(j in a && j in b)
  {
  }

  lemma Behind(c: bit, s: seq<bit>, t: seq<bit>)
    ensures [c] + s <= [c] + t ==> s <= t
    ensures !([0] + s <= [1] + t) && !([1] + s <= [0] + t)
  {
    if [c] + s <= [c] + t {
      assert ([c] + s)[1..] == s && ([c] + t)[1..] == t;
    }
    assert ([0] + s)[0] == 0 && ([1] + t)[0] == 1 && ([1] + s)[0] == 1 && ([0] + t)[0] == 0;
  }

  /** The order in which trees are picked: the lighter first, of equal ones the later. */
  predicate Sooner(v: nat, i: nat, w: nat, j: nat) {
    v < w || (v == w && i > j)
  }

  /** How the tree of the pseudo-symbol came about: from two trees picked before all that are
  left, or not at all yet. */
  datatype Origin = Alone | Joined(v: nat, i: nat, w: nat, j: nat)

  /** The pseudo-symbol is deepest: no symbol lies deeper, those of trees to be picked sooner lie
  less deep, and every tree that will be made is picked later. */
  ghost predicate Deepest(f: seq<nat>, cs: seq<nat>, chains: seq<seq<nat>>, t: nat, o: Origin)
    requires |f| == |cs| == |chains| == SYMBOLS
  {
    && t < SYMBOLS && f[t] > 0 && 256 in chains[t]
    && (forall j: nat :: j < SYMBOLS ==> cs[j] <= cs[256])
    && (forall r: nat, j: nat ::
          r < SYMBOLS && f[r] > 0 && r != t && Sooner(f[r], r, f[t], t) && j in chains[r] && j < SYMBOLS ==> cs[j] < cs[256])
    && match o
       case Alone => forall r: nat :: r < SYMBOLS && f[r] > 0 && r != t ==> Sooner(f[t], t, f[r], r)
       case Joined(v, i, w, j) =>
         && 0 < v && Sooner(v, i, w, j) && f[t] == v + w && t == i
         && forall r: nat :: r < SYMBOLS && f[r] > 0 && r != t ==> Sooner(w, j, f[r], r)
  }

  /** The two trees picked first. */
  ghost predicate FirstTwo(f: seq<nat>, x: nat, y: nat) {
    |f| == SYMBOLS && Least(f, -1, x) && Least(f, x, y)
  }

  lemma FirstAreLightest(f: seq<nat>, x: nat, y: nat)
    requires FirstTwo(f, x, y)
    ensures Lightest(f, x, y) && Sooner(f[x], x, f[y], y)
    ensures forall r: nat :: r < SYMBOLS && f[r] > 0 && r != x && r != y ==> Sooner(f[y], y, f[r], r)
  {
  }

  lemma DeepestMerged(f: seq<nat>, cs: seq<nat>, ds: seq<nat>, chains: seq<seq<nat>>, x: nat, y: nat, t: nat, o: Origin)
    returns (u: nat, p: Origin)
    requires Forest(f, cs, chains) && Deepest(f, cs, chains, t, o) && FirstTwo(f, x, y) && Sunk(cs, ds, chains[x], chains[y])
    ensures Deepest(Merged(f, x, y), ds, chains[x := chains[x] + chains[y]], u, p)
  {
    hide Distinct, InRange;
    FirstAreLightest(f, x, y);
    if t == x || t == y {
      u, p := x, Joined(f[x], x, f[y], y);
    } else {
      u, p := t, o;
      KeptBelow(f, cs, ds, chains, x, y, t, o);
    }
  }

  /** Another merge leaves the tree of the pseudo-symbol ahead of the new one. */
  lemma KeptBelow(f: seq<nat>, cs: seq<nat>, ds: seq<nat>, chains: seq<seq<nat>>, x: nat, y: nat, t: nat, o: Origin)
    requires Forest(f, cs, chains) && Deepest(f, cs, chains, t, o) && FirstTwo(f, x, y) && Sunk(cs, ds, chains[x], chains[y])
    requires t != x && t != y
    ensures Deepest(Merged(f, x, y), ds, chains[x := chains[x] + chains[y]], t, o)
  {
    hide Distinct, InRange;
    FirstAreLightest(f, x, y);
    var g, chs := Merged(f, x, y), chains[x := chains[x] + chains[y]];
    NewIsLater(f, x, y, t, o);
    InOne(chains, x, t, 256);
    InOne(chains, y, t, 256);
    forall r: nat, j: nat | r < SYMBOLS && g[r] > 0 && r != t && Sooner(g[r], r, g[t], t) && j in chs[r] && j < SYMBOLS
      ensures ds[j] < ds[256]
    {
      assert r != x;
      InOne(chains, x, r, j);
      InOne(chains, y, r, j);
    }
  }

  lemma NewIsLater(f: seq<nat>, x: nat, y: nat, t: nat, o: Origin)
    requires FirstTwo(f, x, y) && t < SYMBOLS && f[t] > 0 && t != x && t != y
    requires match o
      case Alone => forall r: nat :: r < SYMBOLS && f[r] > 0 && r != t ==> Sooner(f[t], t, f[r], r)
      case Joined(v, i, w, j) =>
        && 0 < v && Sooner(v, i, w, j) && f[t] == v + w && t == i
        && forall r: nat :: r < SYMBOLS && f[r] > 0 && r != t ==> Sooner(w, j, f[r], r)
    ensures Sooner(f[x], x, f[t], t) && Sooner(f[y], y, f[t], t)
    ensures o.Joined? && !Sooner(f[x] + f[y], x, f[t], t) && Sooner(o.w, o.j, f[x] + f[y], x)
  {
    FirstAreLightest(f, x, y);
  }

  /** Before any merge every symbol is a tree. */
  ghost predicate Unmerged(f: seq<nat>, cs: seq<nat>, chains: seq<seq<nat>>) {
    && |f| == |cs| == |chains| == SYMBOLS
    && forall j: nat :: j < SYMBOLS ==> cs[j] == 0 && chains[j] == [j]
  }

  lemma UnmergedForest(f: seq<nat>, cs: seq<nat>, chains: seq<seq<nat>>)
    requires Unmerged(f, cs, chains)
    ensures Forest(f, cs, chains) && Shallow(f, cs, chains)
  {
  }

  lemma UnmergedHeavy(f: seq<nat>, cs: seq<nat>, chains: seq<seq<nat>>)
    requires Unmerged(f, cs, chains)
    ensures Heavy(f, cs, chains)
  {
    assert Fib(2) == 1 && Fib(1) == 1;
  }

  lemma UnmergedSpelled(f: seq<nat>, cs: seq<nat>, chains: seq<seq<nat>>, ws: seq<seq<bit>>)
    requires Unmerged(f, cs, chains) && |ws| == SYMBOLS && forall j: nat :: j < SYMBOLS ==> ws[j] == []
    ensures Spelled(f, cs, chains, ws)
  {
  }

  lemma UnmergedDeepest(f: seq<nat>, cs: seq<nat>, chains: seq<seq<nat>>)
    requires Unmerged(f, cs, chains) && f[256] == 1
    ensures Deepest(f, cs, chains, 256, Alone)
  {
  }

  /** The next merge is determined. */
  lemma FirstTwoUnique(f: seq<nat>, x: nat, y: nat, u: nat, v: nat)
    requires FirstTwo(f, x, y) && FirstTwo(f, u, v)
    ensures x == u && y == v
  {
  }

  /** Chains that name symbols only. */
  ghost predicate Named(chains: seq<seq<nat>>) {
    |chains| == SYMBOLS && forall r: nat :: r < SYMBOLS ==> InRange(chains[r])
  }

  /** The code sizes at which the procedure ends: merge the first two trees until one is left. */
  ghost function SizesFrom(f: seq<nat>, cs: seq<nat>, chains: seq<seq<nat>>): (s: seq<nat>)
    requires |f| == |cs| == SYMBOLS && Named(chains)
    ensures |s| == SYMBOLS
    decreases LiveCount(f)
  {
    if Mergeable(f) then
      var (x, y) := NextTwo(f);
      FewerLive(f, x, y);
      SizesFrom(Merged(f, x, y), Deeper(cs, chains[x], chains[y]), chains[x := chains[x] + chains[y]])
    else cs
  }

  ghost predicate Mergeable(f: seq<nat>) {
    exists x: nat, y: nat :: FirstTwo(f, x, y)
  }

  ghost function NextTwo(f: seq<nat>): (p: (nat, nat))
    requires Mergeable(f)
    ensures FirstTwo(f, p.0, p.1)
  {
    var x: nat, y: nat :| FirstTwo(f, x, y);
    (x, y)
  }

  lemma FewerLive(f: seq<nat>, x: nat, y: nat)
    requires |f| == SYMBOLS && x < SYMBOLS && y < SYMBOLS && x != y && f[x] > 0 && f[y] > 0
    ensures LiveCount(Merged(f, x, y)) + 1 == LiveCount(f)
  {
    hide *;
    var h := f[x := f[x] + f[y]];
    LiveCountSet(f, x, f[x] + f[y]);
    LiveCountSet(h, y, 0);
    MergedTwice(f, x, y);
  }

  lemma MergedTwice(f: seq<nat>, x: nat, y: nat)
    requires x < |f| && y < |f| && x != y
    ensures Merged(f, x, y) == f[x := f[x] + f[y]][y := 0] && f[x := f[x] + f[y]][y] == f[y]
  {
  }

  /** The code sizes of Huffman's procedure for some counts, ties broken as the code does. */
  ghost function HuffmanSizes(f: seq<nat>): (s: seq<nat>)
    requires |f| == SYMBOLS
    ensures |s| == SYMBOLS
  {
    SizesFrom(f, NoSizes(), Singles())
  }

  lemma SizesStart(f: seq<nat>)
    requires |f| == SYMBOLS
    ensures HuffmanSizes(f) == SizesFrom(f, NoSizes(), Singles())
  {
  }

  function NoSizes(): (cs: seq<nat>)
    ensures |cs| == SYMBOLS && forall j: nat :: j < SYMBOLS ==> cs[j] == 0
  {
    seq(SYMBOLS, _ => 0)
  }

  function Singles(): (chains: seq<seq<nat>>)
    ensures Named(chains) && forall j: nat :: j < SYMBOLS ==> chains[j] == [j]
  {
    seq(SYMBOLS, j requires 0 <= j < SYMBOLS => [j])
  }

  lemma SizesNext(f: seq<nat>, cs: seq<nat>, chains: seq<seq<nat>>, x: nat, y: nat)
    requires |f| == |cs| == SYMBOLS && Named(chains) && FirstTwo(f, x, y)
    ensures Named(chains[x := chains[x] + chains[y]])
    ensures SizesFrom(f, cs, chains) == SizesFrom(Merged(f, x, y), Deeper(cs, chains[x], chains[y]), chains[x := chains[x] + chains[y]])
  {
    hide Deeper, FirstTwo, InRange;
    FirstAreLightest(f, x, y);
    BothInRange(chains[x], chains[y]);
    assert Mergeable(f);
    FirstTwoUnique(f, x, y, NextTwo(f).0, NextTwo(f).1);
  }

  lemma BothInRange(a: seq<nat>, b: seq<nat>)
    requires InRange(a) && InRange(b)
    ensures InRange(a + b)
  {
  }

  lemma SizesEnd(f: seq<nat>, cs: seq<nat>, chains: seq<seq<nat>>, c: nat)
    requires |f| == |cs| == SYMBOLS && Named(chains) && forall j: nat :: j < SYMBOLS && f[j] > 0 ==> j == c
    ensures SizesFrom(f, cs, chains) == cs
  {
  }

  /** Section K.2, one merge: of the symbols left, the lightest and the next lightest are taken, of
  equally light ones the last; they become one, and all symbols below them get one bit more. */
  lemma MergeLaw(f: seq<nat>, cs: seq<nat>, ds: seq<nat>, chains: seq<seq<nat>>, x: nat, y: nat)
    requires |f| == |cs| == |ds| == SYMBOLS && Named(chains) && x < SYMBOLS && y < SYMBOLS && x != y && f[x] > 0 && f[y] > 0
    requires forall j: nat :: j < SYMBOLS && f[j] > 0 ==> f[x] < f[j] || (f[x] == f[j] && j <= x)
    requires forall j: nat :: j < SYMBOLS && f[j] > 0 && j != x ==> f[y] < f[j] || (f[y] == f[j] && j <= y)
    requires Distinct(chains[x]) && Distinct(chains[y]) && Disjoint(chains[x], chains[y])
    requires forall j: nat :: j < SYMBOLS ==> ds[j] == cs[j] + if j in chains[x] || j in chains[y] then 1 else 0
    ensures Named(chains[x := chains[x] + chains[y]])
    ensures SizesFrom(f, cs, chains) == SizesFrom(f[x := f[x] + f[y]][y := 0], ds, chains[x := chains[x] + chains[y]])
  {
    hide SizesFrom, Deeper, Distinct, Disjoint, InRange;
    assert FirstTwo(f, x, y);
    SizesNext(f, cs, chains, x, y);
    SunkBy(cs, chains[x], chains[y]);
    assert Deeper(cs, chains[x], chains[y]) == ds;
  }

  /** Merging begins with every symbol by itself and ends when one tree is left. */
  lemma MergeEnds(f: seq<nat>, cs: seq<nat>, chains: seq<seq<nat>>, zeros: seq<nat>, singles: seq<seq<nat>>, c: nat)
    requires |f| == |cs| == |zeros| == |singles| == SYMBOLS && Named(chains) && Named(singles)
    requires forall j: nat :: j < SYMBOLS ==> zeros[j] == 0 && singles[j] == [j]
    ensures HuffmanSizes(f) == SizesFrom(f, zeros, singles)
    ensures (forall j: nat :: j < SYMBOLS && f[j] > 0 ==> j == c) ==> SizesFrom(f, cs, chains) == cs
  {
    hide SizesFrom;
    SizesStart(f);
    assert zeros == NoSizes() && singles == Singles();
    if forall j: nat :: j < SYMBOLS && f[j] > 0 ==> j == c {
      SizesEnd(f, cs, chains, c);
    }
  }
}
