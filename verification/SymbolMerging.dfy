/** Huffman's procedure as jchuff.c runs it: trees as chains of symbols linked through
others[], merged two lightest first (section K.2 of ITU-T Rec. T.81). */
module SymbolMerging {

  import opened CodeString
  import opened CodeLengths

  /** Real symbols 0..255 and the pseudo-symbol 256. */
  const SYMBOLS := 257
  const MAX_COUNT := 1000000000
  const DEPTH := 256

  predicate InRange(ch: seq<nat>) {
    forall i :: 0 <= i < |ch| ==> ch[i] < SYMBOLS
  }

  predicate Distinct(ch: seq<nat>) {
    forall i, j :: 0 <= i < j < |ch| ==> ch[i] != ch[j]
  }

  /** Count one more level for every symbol of a chain. */
  function Bump(cs: seq<nat>, ch: seq<nat>): (r: seq<nat>)
    requires |cs| == SYMBOLS && InRange(ch)
    ensures |r| == SYMBOLS
  {
    if ch == [] then cs else Increment(Bump(cs, ch[..|ch| - 1]), ch[|ch| - 1])
  }

  function Increment(cs: seq<nat>, x: nat): seq<nat>
    requires x < |cs|
  {
    cs[x := cs[x] + 1]
  }

  lemma {:induction false} BumpElsewhere(cs: seq<nat>, ch: seq<nat>, j: nat)
    requires |cs| == SYMBOLS && InRange(ch) && j < SYMBOLS && j !in ch
    ensures Bump(cs, ch)[j] == cs[j]
  {
    if ch != [] {
      BumpElsewhere(cs, ch[..|ch| - 1], j);
    }
  }

  lemma {:induction false} BumpInside(cs: seq<nat>, ch: seq<nat>, i: nat)
    requires |cs| == SYMBOLS && InRange(ch) && Distinct(ch) && i < |ch|
    ensures Bump(cs, ch)[ch[i]] == cs[ch[i]] + 1
  {
    var n := |ch| - 1;
    if i < n {
      BumpInside(cs, ch[..n], i);
    } else {
      BumpElsewhere(cs, ch[..n], ch[n]);
    }
  }

  /** What the symbols of a chain weigh together. */
  function Weigh(f: seq<nat>, ch: seq<nat>): nat
    requires |f| == SYMBOLS && InRange(ch)
  {
    if ch == [] then 0 else Weigh(f, ch[..|ch| - 1]) + f[ch[|ch| - 1]]
  }

  lemma {:induction false} WeighPlus(f: seq<nat>, a: seq<nat>, b: seq<nat>)
    requires |f| == SYMBOLS && InRange(a) && InRange(b)
    ensures Weigh(f, a + b) == Weigh(f, a) + Weigh(f, b)
  {
    if b == [] {
      assert a + b == a;
    } else {
      WeighPlus(f, a, b[..|b| - 1]);
      assert (a + b)[..|a + b| - 1] == a + b[..|b| - 1];
    }
  }

  /** One more level for a chain costs its weight. */
  lemma {:induction false} CostBump(f: seq<nat>, cs: seq<nat>, ch: seq<nat>)
    requires |f| == |cs| == SYMBOLS && InRange(ch)
    ensures Cost(f, Bump(cs, ch)) == Cost(f, cs) + Weigh(f, ch)
  {
    hide Cost;
    if ch != [] {
      var b, x := Bump(cs, ch[..|ch| - 1]), ch[|ch| - 1];
      assert Bump(cs, ch) == b[x := b[x] + 1];
      CostBump(f, cs, ch[..|ch| - 1]);
      CostSet(f, b, x, b[x] + 1);
      assert f[x] * (b[x] + 1) == f[x] * b[x] + f[x];
    }
  }

  /** The Kraft sum of a chain, in units of 2^-256. */
  function ChainKraft(cs: seq<nat>, ch: seq<nat>): int
    requires forall i :: 0 <= i < |ch| ==> ch[i] < |cs| && cs[ch[i]] <= DEPTH
  {
    if ch == [] then 0 else ChainKraft(cs, ch[..|ch| - 1]) + Shl(1, DEPTH - cs[ch[|ch| - 1]])
  }

  lemma {:induction false} ChainKraftPlus(cs: seq<nat>, a: seq<nat>, b: seq<nat>)
    requires |cs| == SYMBOLS && InRange(a) && InRange(b) && forall j :: 0 <= j < SYMBOLS ==> cs[j] <= DEPTH
    ensures ChainKraft(cs, a + b) == ChainKraft(cs, a) + ChainKraft(cs, b)
  {
    hide Shl;
    if b == [] {
      assert a + b == a;
    } else {
      ChainKraftPlus(cs, a, b[..|b| - 1]);
      assert (a + b)[..|a + b| - 1] == a + b[..|b| - 1];
    }
  }

  lemma {:induction false} ChainKraftSame(cs: seq<nat>, ds: seq<nat>, ch: seq<nat>)
    requires |cs| == |ds| == SYMBOLS && InRange(ch)
    requires forall i :: 0 <= i < |ch| ==> cs[ch[i]] == ds[ch[i]] <= DEPTH
    ensures ChainKraft(cs, ch) == ChainKraft(ds, ch)
  {
    hide Shl;
    if ch != [] {
      ChainKraftSame(cs, ds, ch[..|ch| - 1]);
    }
  }

  /** One level deeper, a chain takes half the room. */
  lemma {:induction false} ChainKraftHalf(cs: seq<nat>, ds: seq<nat>, ch: seq<nat>)
    requires |cs| == |ds| == SYMBOLS && InRange(ch)
    requires forall i :: 0 <= i < |ch| ==> ds[ch[i]] == cs[ch[i]] + 1 <= DEPTH
    ensures 2 * ChainKraft(ds, ch) == ChainKraft(cs, ch)
  {
    hide Shl;
    if ch != [] {
      ChainKraftHalf(cs, ds, ch[..|ch| - 1]);
      ShlDouble(1, DEPTH - ds[ch[|ch| - 1]]);
    }
  }

  /** others[] leads from each symbol of the chain to the next and ends it with -1. */
  predicate Linked(others: seq<int>, ch: seq<nat>) {
    && |others| == SYMBOLS && ch != [] && InRange(ch)
    && (forall i :: 0 <= i < |ch| - 1 ==> others[ch[i]] == ch[i + 1])
    && others[ch[|ch| - 1]] == -1
  }

  /** A finished subtree: its symbols, their weight, and a complete code for them. */
  ghost predicate Tree(f0: seq<nat>, cs: seq<nat>, others: seq<int>, ch: seq<nat>, r: nat, w: nat) {
    && |f0| == |cs| == SYMBOLS && Linked(others, ch) && ch[0] == r && Distinct(ch)
    && (forall i :: 0 <= i < |ch| ==> f0[ch[i]] > 0 && cs[ch[i]] <= DEPTH)
    && Weigh(f0, ch) == w && ChainKraft(cs, ch) == Shl(1, DEPTH)
  }

  function LiveCount(f: seq<nat>): nat {
    if f == [] then 0 else LiveCount(f[..|f| - 1]) + if f[|f| - 1] > 0 then 1 else 0
  }

  lemma {:induction false} LiveCountSet(f: seq<nat>, x: nat, v: nat)
    requires x < |f|
    ensures LiveCount(f[x := v]) + (if f[x] > 0 then 1 else 0) == LiveCount(f) + if v > 0 then 1 else 0
  {
    var n := |f| - 1;
    if x < n {
      LiveCountSet(f[..n], x, v);
      assert f[x := v][..n] == f[..n][x := v];
    } else {
      assert f[x := v][..n] == f[..n];
    }
  }

  lemma {:induction false} LiveCountBound(f: seq<nat>)
    ensures LiveCount(f) <= |f| && ((exists j :: 0 <= j < |f| && f[j] > 0) ==> LiveCount(f) > 0)
  {
    if f != [] {
      LiveCountBound(f[..|f| - 1]);
    }
  }

  ghost predicate Disjoint(a: seq<nat>, b: seq<nat>) {
    forall i, j :: 0 <= i < |a| && 0 <= j < |b| ==> a[i] != b[j]
  }

  /** All trees of the procedure: every symbol in use is in exactly one. */
  ghost predicate Woods(f0: seq<nat>, f: seq<nat>, cs: seq<nat>, others: seq<int>, chains: seq<seq<nat>>) {
    && |f0| == |f| == |cs| == |others| == |chains| == SYMBOLS
    && (forall r: nat :: r < SYMBOLS && f[r] > 0 ==> Tree(f0, cs, others, chains[r], r, f[r]))
    && (forall r: nat, q: nat :: r < SYMBOLS && q < SYMBOLS && r != q && f[r] > 0 && f[q] > 0 ==> Disjoint(chains[r], chains[q]))
    && (forall j: nat :: j < SYMBOLS && f0[j] > 0 ==> Rooted(f, chains, j))
    && (forall j: nat :: j < SYMBOLS && f0[j] == 0 ==> f[j] == 0 && cs[j] == 0)
    && forall j: nat :: j < SYMBOLS ==> cs[j] + LiveCount(f) <= SYMBOLS
  }

  ghost predicate Rooted(f: seq<nat>, chains: seq<seq<nat>>, j: nat)
    requires |f| == |chains|
  {
    exists r: nat :: r < |f| && f[r] > 0 && j in chains[r]
  }

  /** Code sizes after the symbols of two trees have gone down one level. */
  function Deeper(cs: seq<nat>, a: seq<nat>, b: seq<nat>): (r: seq<nat>)
    requires |cs| == SYMBOLS && InRange(a) && InRange(b)
    ensures |r| == SYMBOLS
  {
    Bump(Bump(cs, a), b)
  }

  lemma DeeperAt(cs: seq<nat>, a: seq<nat>, b: seq<nat>)
    requires |cs| == SYMBOLS && InRange(a) && InRange(b) && Distinct(a) && Distinct(b) && Disjoint(a, b)
    ensures forall i :: 0 <= i < |a| ==> Deeper(cs, a, b)[a[i]] == cs[a[i]] + 1
    ensures forall i :: 0 <= i < |b| ==> Deeper(cs, a, b)[b[i]] == cs[b[i]] + 1
    ensures forall j: nat :: j < SYMBOLS && j !in a && j !in b ==> Deeper(cs, a, b)[j] == cs[j]
  {
    hide Bump;
    var c := Bump(cs, a);
    forall i | 0 <= i < |a|
      ensures Deeper(cs, a, b)[a[i]] == cs[a[i]] + 1
    {
      BumpInside(cs, a, i);
      BumpElsewhere(c, b, a[i]);
    }
    forall i | 0 <= i < |b|
      ensures Deeper(cs, a, b)[b[i]] == cs[b[i]] + 1
    {
      BumpElsewhere(cs, a, b[i]);
      BumpInside(c, b, i);
    }
    forall j: nat | j < SYMBOLS && j !in a && j !in b
      ensures Deeper(cs, a, b)[j] == cs[j]
    {
      BumpElsewhere(cs, a, j);
      BumpElsewhere(c, b, j);
    }
  }

  lemma LinkedMerged(others: seq<int>, a: seq<nat>, b: seq<nat>)
    requires Linked(others, a) && Linked(others, b) && Distinct(a) && Disjoint(a, b)
    ensures Linked(others[a[|a| - 1] := b[0]], a + b)
  {
  }

  lemma LinkedKept(others: seq<int>, a: seq<nat>, c: seq<nat>, v: int)
    requires Linked(others, a) && Linked(others, c) && Disjoint(c, a)
    ensures Linked(others[a[|a| - 1] := v], c)
  {
  }

  lemma TreeMerged(f0: seq<nat>, cs: seq<nat>, others: seq<int>, a: seq<nat>, b: seq<nat>, x: nat, y: nat, v: nat, w: nat)
    requires Tree(f0, cs, others, a, x, v) && Tree(f0, cs, others, b, y, w) && Disjoint(a, b)
    requires forall j :: 0 <= j < SYMBOLS ==> cs[j] < DEPTH
    ensures Tree(f0, Deeper(cs, a, b), others[a[|a| - 1] := y], a + b, x, v + w)
  {
    hide Bump, Weigh, ChainKraft, Shl, Deeper, Linked;
    LinkedShape(others, a);
    LinkedShape(others, b);
    var ds := Deeper(cs, a, b);
    DeeperAt(cs, a, b);
    LinkedMerged(others, a, b);
    WeighPlus(f0, a, b);
    ChainKraftHalf(cs, ds, a);
    ChainKraftHalf(cs, ds, b);
    DeeperBound(cs, a, b);
    ChainKraftPlus(ds, a, b);
  }

  lemma LinkedShape(others: seq<int>, ch: seq<nat>)
    requires Linked(others, ch)
    ensures |others| == SYMBOLS && ch != [] && InRange(ch)
  {
  }

  lemma DeeperBound(cs: seq<nat>, a: seq<nat>, b: seq<nat>)
    requires |cs| == SYMBOLS && InRange(a) && InRange(b) && Distinct(a) && Distinct(b) && Disjoint(a, b)
    requires forall j :: 0 <= j < SYMBOLS ==> cs[j] < DEPTH
    ensures forall j :: 0 <= j < SYMBOLS ==> cs[j] <= Deeper(cs, a, b)[j] <= cs[j] + 1
  {
    hide Deeper;
    DeeperAt(cs, a, b);
    forall j | 0 <= j < SYMBOLS
      ensures cs[j] <= Deeper(cs, a, b)[j] <= cs[j] + 1
    {
      if j in a {
        var i :| 0 <= i < |a| && a[i] == j;
      } else if j in b {
        var i :| 0 <= i < |b| && b[i] == j;
      }
    }
  }

  lemma TreeKept(f0: seq<nat>, cs: seq<nat>, others: seq<int>, a: seq<nat>, b: seq<nat>, c: seq<nat>, r: nat, w: nat, v: int)
    requires |cs| == SYMBOLS && Linked(others, a) && InRange(b) && Distinct(a) && Distinct(b) && Disjoint(a, b)
    requires Tree(f0, cs, others, c, r, w) && Disjoint(c, a) && Disjoint(c, b)
    ensures Tree(f0, Deeper(cs, a, b), others[a[|a| - 1] := v], c, r, w)
  {
    hide Bump, Weigh, ChainKraft, Shl, Deeper;
    DeeperAt(cs, a, b);
    LinkedKept(others, a, c, v);
    ChainKraftSame(cs, Deeper(cs, a, b), c);
  }

  /** Merging two trees keeps the woods in order. */
  lemma WoodsMerged(f0: seq<nat>, f: seq<nat>, cs: seq<nat>, others: seq<int>, chains: seq<seq<nat>>, x: nat, y: nat)
    requires Woods(f0, f, cs, others, chains) && x < SYMBOLS && y < SYMBOLS && x != y && f[x] > 0 && f[y] > 0
    ensures var a, b := chains[x], chains[y];
      && a != [] && InRange(a) && InRange(b)
      && Woods(f0, f[x := f[x] + f[y]][y := 0], Deeper(cs, a, b), others[a[|a| - 1] := y], chains[x := a + b])
      && LiveCount(f[x := f[x] + f[y]][y := 0]) + 1 == LiveCount(f)
  {
    hide Tree, Disjoint, Rooted, LiveCount, Deeper;
    var a, b := chains[x], chains[y];
    TreeShape(f0, cs, others, a, x, f[x]);
    TreeShape(f0, cs, others, b, y, f[y]);
    var g, ds, os, chs := f[x := f[x] + f[y]][y := 0], Deeper(cs, a, b), others[a[|a| - 1] := y], chains[x := a + b];
    LiveCountSet(f, x, f[x] + f[y]);
    LiveCountSet(f[x := f[x] + f[y]], y, 0);
    LiveCountTwo(f, x, y);
    TreeMerged(f0, cs, others, a, b, x, y, f[x], f[y]);
    DeeperBound(cs, a, b);
    forall r: nat | r < SYMBOLS && g[r] > 0
      ensures Tree(f0, ds, os, chs[r], r, g[r])
    {
      if r != x {
        TreeKept(f0, cs, others, a, b, chains[r], r, f[r], y);
      }
    }
    forall r: nat, q: nat | r < SYMBOLS && q < SYMBOLS && r != q && g[r] > 0 && g[q] > 0
      ensures Disjoint(chs[r], chs[q])
    {
      DisjointPlus(a, b, chains[r], chains[q]);
    }
    forall j: nat | j < SYMBOLS && f0[j] > 0
      ensures Rooted(g, chs, j)
    {
      RootedMerged(f, chains, x, y, j);
    }
    DeeperUnused(f0, cs, others, a, b, x, y, f[x], f[y]);
  }

  lemma TreeShape(f0: seq<nat>, cs: seq<nat>, others: seq<int>, ch: seq<nat>, r: nat, w: nat)
    requires Tree(f0, cs, others, ch, r, w)
    ensures Linked(others, ch) && Distinct(ch) && InRange(ch) && ch != [] && ch[0] == r && |others| == |cs| == SYMBOLS
  {
  }

  lemma LiveCountTwo(f: seq<nat>, x: nat, y: nat)
    requires x < |f| && y < |f| && x != y && f[x] > 0 && f[y] > 0
    ensures LiveCount(f) >= 2
  {
    LiveCountSet(f, x, 0);
    assert f[x := 0][y] > 0;
    LiveCountBound(f[x := 0]);
  }

  lemma DisjointPlus(a: seq<nat>, b: seq<nat>, c: seq<nat>, d: seq<nat>)
    ensures Disjoint(a, d) && Disjoint(b, d) ==> Disjoint(a + b, d)
    ensures Disjoint(c, a) && Disjoint(c, b) ==> Disjoint(c, a + b)
  {
  }

  lemma RootedMerged(f: seq<nat>, chains: seq<seq<nat>>, x: nat, y: nat, j: nat)
    requires |f| == |chains| == SYMBOLS && x < SYMBOLS && y < SYMBOLS && x != y && f[x] > 0 && Rooted(f, chains, j)
    ensures Rooted(f[x := f[x] + f[y]][y := 0], chains[x := chains[x] + chains[y]], j)
  {
    var g, chs := f[x := f[x] + f[y]][y := 0], chains[x := chains[x] + chains[y]];
    var r: nat :| r < |f| && f[r] > 0 && j in chains[r];
    var q := if r == y then x else r;
    assert j in chs[q] && g[q] > 0;
  }

  /** Symbols that do not occur stay without a code size. */
  lemma DeeperUnused(f0: seq<nat>, cs: seq<nat>, others: seq<int>, a: seq<nat>, b: seq<nat>, x: nat, y: nat, v: nat, w: nat)
    requires Tree(f0, cs, others, a, x, v) && Tree(f0, cs, others, b, y, w) && Disjoint(a, b)
    ensures forall j: nat :: j < SYMBOLS && f0[j] == 0 ==> Deeper(cs, a, b)[j] == cs[j]
  {
    hide Deeper, Weigh, ChainKraft;
    DeeperAt(cs, a, b);
  }

  ghost predicate Least(f: seq<nat>, avoid: int, c: nat) {
    && c < |f| && f[c] > 0 && c != avoid
    && forall j :: 0 <= j < |f| && f[j] > 0 && j != avoid ==> f[c] <= f[j] && (f[c] == f[j] ==> j <= c)
  }

  /** The smallest nonzero frequency, leaving out one symbol; of equal ones the last. */
  method FindLeast(freq: array<nat>, avoid: int) returns (c: int)
    requires freq.Length == SYMBOLS && forall j :: 0 <= j < SYMBOLS ==> freq[j] <= MAX_COUNT
    ensures c == -1 ==> forall j :: 0 <= j < SYMBOLS && freq[j] > 0 ==> j == avoid
    ensures c != -1 ==> 0 <= c < SYMBOLS && Least(freq[..], avoid, c) && freq[c] > 0 && c != avoid
    ensures c != -1 ==> forall j :: 0 <= j < SYMBOLS && freq[j] > 0 && j != avoid ==> freq[c] < freq[j] || (freq[c] == freq[j] && j <= c)
  {
    c := -1;
    var v := MAX_COUNT;
    for i := 0 to SYMBOLS
      invariant c == -1 ==> v == MAX_COUNT && forall j :: 0 <= j < i && freq[j] > 0 ==> j == avoid
      invariant c != -1 ==> 0 <= c < i && freq[c] == v > 0 && c != avoid
      invariant c != -1 ==>
        forall j :: 0 <= j < i && freq[j] > 0 && j != avoid ==> freq[c] <= freq[j] && (freq[c] == freq[j] ==> j <= c)
    {
      if freq[i] != 0 && freq[i] <= v && i != avoid {
        v := freq[i];
        c := i;
      }
    }
  }

  /** Increment the code size of everything in a tree branch; c1 ends up at its last symbol. */
  method BumpChain(codesize: array<nat>, others: seq<int>, c: nat, ghost ch: seq<nat>) returns (last: nat)
    requires codesize.Length == SYMBOLS && Linked(others, ch) && ch[0] == c
    modifies codesize
    ensures codesize[..] == Bump(old(codesize[..]), ch) && last == ch[|ch| - 1]
  {
    hide Bump;
    ghost var cs := codesize[..];
    last := c;
    BumpNext(cs, ch, 0);
    codesize[last] := codesize[last] + 1;
    ghost var i := 1;
    assert codesize[..] == cs[last := cs[last] + 1];
    while others[last] >= 0
      invariant 1 <= i <= |ch| && last == ch[i - 1] && codesize[..] == Bump(cs, ch[..i])
      decreases |ch| - i
    {
      last := others[last];
      BumpNext(cs, ch, i);
      ghost var before := codesize[..];
      codesize[last] := codesize[last] + 1;
      assert codesize[..] == before[last := before[last] + 1];
      i := i + 1;
    }
    ChainEnds(others, ch, i);
    assert ch[..i] == ch;
  }

  lemma ChainEnds(others: seq<int>, ch: seq<nat>, i: nat)
    requires Linked(others, ch) && 1 <= i <= |ch|
    ensures i < |ch| ==> others[ch[i - 1]] >= 0
  {
    var j := i - 1;
    assert j < |ch| - 1 ==> others[ch[j]] == ch[j + 1];
  }

  lemma BumpNext(cs: seq<nat>, ch: seq<nat>, i: nat)
    requires |cs| == SYMBOLS && InRange(ch) && i < |ch|
    ensures Bump(cs, ch[..i + 1]) == Increment(Bump(cs, ch[..i]), ch[i])
    ensures Bump(cs, ch[..0]) == cs
  {
    assert ch[..i + 1][..i] == ch[..i];
  }

  /** The code sizes so far leave open whatever any code with lengths l could still gain. */
  ghost predicate Achieves(f0: seq<nat>, f: seq<nat>, cs: seq<nat>, l: seq<nat>, top: nat)
    requires |f0| == |f| == |cs| == |l|
  {
    exists k: seq<nat> :: |k| == |f| && Kraft(f, k, top) && Cost(f0, cs) + Cost(f, k) <= Cost(f0, l)
  }

  /** No code is cheaper than one that completes the merging done so far. */
  ghost predicate Unbeaten(f0: seq<nat>, f: seq<nat>, cs: seq<nat>)
    requires |f0| == |f| == |cs|
  {
    forall l: seq<nat>, top: nat :: |l| == |f0| && Kraft(f0, l, top) ==> Achieves(f0, f, cs, l, top)
  }

  lemma UnbeatenStart(f0: seq<nat>, cs: seq<nat>)
    requires |f0| == |cs| && forall j :: 0 <= j < |cs| ==> cs[j] == 0
    ensures Unbeaten(f0, f0, cs)
  {
    hide Kraft;
    CostOfNothing(f0, cs);
  }

  lemma {:induction false} CostOfNothing(f: seq<nat>, cs: seq<nat>)
    requires |f| == |cs| && forall j :: 0 <= j < |cs| ==> cs[j] == 0
    ensures Cost(f, cs) == 0
  {
    if f != [] {
      var n := |f| - 1;
      CostOfNothing(f[..n], cs[..n]);
      assert CostTerms(f, cs)[..n] == CostTerms(f[..n], cs[..n]);
    }
  }

  lemma UnbeatenMerged(f0: seq<nat>, f: seq<nat>, cs: seq<nat>, a: seq<nat>, b: seq<nat>, x: nat, y: nat)
    requires |f0| == |f| == |cs| == SYMBOLS && InRange(a) && InRange(b) && Lightest(f, x, y) && Unbeaten(f0, f, cs)
    requires Weigh(f0, a) == f[x] && Weigh(f0, b) == f[y]
    ensures Unbeaten(f0, f[x := f[x] + f[y]][y := 0], Deeper(cs, a, b))
  {
    hide Kraft, Cost, Bump, Weigh;
    var g, ds := f[x := f[x] + f[y]][y := 0], Deeper(cs, a, b);
    CostBump(f0, cs, a);
    CostBump(f0, Bump(cs, a), b);
    forall l: seq<nat>, top: nat | |l| == |f0| && Kraft(f0, l, top)
      ensures Achieves(f0, g, ds, l, top)
    {
      var k: seq<nat> :| |k| == |f| && Kraft(f, k, top) && Cost(f0, cs) + Cost(f, k) <= Cost(f0, l);
      var m := MergeLightest(f, k, x, y, top);
      assert Kraft(g, m, top) && Cost(f0, ds) + Cost(g, m) <= Cost(f0, l);
    }
  }

  /** Optimal code lengths: no lengths that satisfy the Kraft inequality cost less. */
  ghost predicate Optimal(f0: seq<nat>, cs: seq<nat>)
    requires |f0| == |cs|
  {
    forall l: seq<nat>, top: nat :: |l| == |f0| && Kraft(f0, l, top) ==> Cost(f0, cs) <= Cost(f0, l)
  }

  lemma {:induction false} CostNonnegative(f: seq<nat>, l: seq<nat>)
    requires |f| == |l|
    ensures Cost(f, l) >= 0
  {
    TotalNonnegative(CostTerms(f, l));
  }

  lemma UnbeatenIsOptimal(f0: seq<nat>, f: seq<nat>, cs: seq<nat>)
    requires |f0| == |f| == |cs| && Unbeaten(f0, f, cs)
    ensures Optimal(f0, cs)
  {
    hide Kraft, Cost;
    forall l: seq<nat>, top: nat | |l| == |f0| && Kraft(f0, l, top)
      ensures Cost(f0, cs) <= Cost(f0, l)
    {
      assert Achieves(f0, f, cs, l, top);
      var k: seq<nat> :| |k| == |f| && Kraft(f, k, top) && Cost(f0, cs) + Cost(f, k) <= Cost(f0, l);
      CostNonnegative(f, k);
    }
  }

  lemma SingleTree(f0: seq<nat>, cs: seq<nat>, r: nat)
    requires |f0| == |cs| == SYMBOLS && r < SYMBOLS && cs[r] == 0
    ensures Weigh(f0, [r]) == f0[r] && ChainKraft(cs, [r]) == Shl(1, DEPTH)
  {
    hide Shl;
    assert [r][..0] == [];
    assert ChainKraft(cs, []) == 0;
  }

  /** The trees of unmerged symbols. */
  lemma WoodsStart(f0: seq<nat>, cs: seq<nat>, others: seq<int>, chains: seq<seq<nat>>)
    requires |f0| == |cs| == |others| == |chains| == SYMBOLS
    requires forall j :: 0 <= j < SYMBOLS ==> cs[j] == 0 && others[j] == -1 && chains[j] == [j]
    ensures Woods(f0, f0, cs, others, chains)
  {
    hide Shl;
    LiveCountBound(f0);
    forall r: nat | r < SYMBOLS && f0[r] > 0
      ensures Tree(f0, cs, others, chains[r], r, f0[r])
    {
      SingleTree(f0, cs, r);
    }
  }

  /** One merge of Huffman's procedure. */
  method MergeTwo(freq: array<nat>, codesize: array<nat>, others: array<int>, c1: nat, c2: nat,
      ghost f0: seq<nat>, ghost chains: seq<seq<nat>>) returns (ghost chains': seq<seq<nat>>)
    requires freq.Length == codesize.Length == others.Length == SYMBOLS && |f0| == |chains| == SYMBOLS
    requires freq != codesize && others as object != freq as object && others as object != codesize as object
    requires Woods(f0, freq[..], codesize[..], others[..], chains) && Lightest(freq[..], c1, c2)
    requires Unbeaten(f0, freq[..], codesize[..])
    modifies freq, codesize, others
    ensures |chains'| == SYMBOLS && chains' == chains[c1 := chains[c1] + chains[c2]]
    ensures Woods(f0, freq[..], codesize[..], others[..], chains') && Unbeaten(f0, freq[..], codesize[..])
    ensures freq[..] == old(freq[..][c1 := freq[c1] + freq[c2]][c2 := 0])
    ensures InRange(chains[c1]) && InRange(chains[c2]) && codesize[..] == Deeper(old(codesize[..]), chains[c1], chains[c2])
  {
    hide Woods, Unbeaten, Bump, Linked, Tree, Weigh, ChainKraft, LiveCount;
    ghost var f, cs, os := freq[..], codesize[..], others[..];
    WoodsMerged(f0, f, cs, os, chains, c1, c2);
    WoodsTrees(f0, f, cs, os, chains, c1, c2);
    ghost var a, b := chains[c1], chains[c2];
    UnbeatenMerged(f0, f, cs, a, b, c1, c2);
    LinkedShape(os, a);
    freq[c1] := freq[c1] + freq[c2];
    freq[c2] := 0;
    assert freq[..] == f[c1 := f[c1] + f[c2]][c2 := 0];
    var last := BumpChain(codesize, others[..], c1, a);
    others[last] := c2;
    assert others[..] == os[last := c2];
    LinkedKept(os, a, b, c2);
    var last2 := BumpChain(codesize, others[..], c2, b);
    chains' := chains[c1 := a + b];
  }

  lemma WoodsTrees(f0: seq<nat>, f: seq<nat>, cs: seq<nat>, others: seq<int>, chains: seq<seq<nat>>, x: nat, y: nat)
    requires Woods(f0, f, cs, others, chains) && Lightest(f, x, y)
    ensures var a, b := chains[x], chains[y];
      && Linked(others, a) && Linked(others, b) && a[0] == x && b[0] == y && Disjoint(b, a)
      && InRange(a) && InRange(b) && Weigh(f0, a) == f[x] && Weigh(f0, b) == f[y]
  {
    hide LiveCount, ChainKraft, Weigh;
    assert Tree(f0, cs, others, chains[x], x, f[x]) && Tree(f0, cs, others, chains[y], y, f[y]);
  }

  /** What is left when only one tree remains. */
  ghost predicate OneTree(f0: seq<nat>, cs: seq<nat>) {
    && |f0| == |cs| == SYMBOLS
    && exists others: seq<int>, ch: seq<nat>, r: nat, w: nat ::
        Tree(f0, cs, others, ch, r, w) && forall j: nat :: j < SYMBOLS && f0[j] > 0 ==> j in ch
  }

  lemma WoodsEnd(f0: seq<nat>, f: seq<nat>, cs: seq<nat>, others: seq<int>, chains: seq<seq<nat>>, r: nat)
    requires Woods(f0, f, cs, others, chains) && r < SYMBOLS && f[r] > 0
    requires forall j :: 0 <= j < SYMBOLS && f[j] > 0 ==> j == r
    ensures OneTree(f0, cs) && forall j: nat :: j < SYMBOLS && f0[j] == 0 ==> cs[j] == 0
  {
    hide Tree, LiveCount, Disjoint;
    forall j: nat | j < SYMBOLS && f0[j] > 0
      ensures j in chains[r]
    {
      assert Rooted(f, chains, j);
    }
    assert Tree(f0, cs, others, chains[r], r, f[r]);
  }

  lemma TotalMerged(f: seq<nat>, x: nat, y: nat)
    requires x < |f| && y < |f| && x != y
    ensures Total(f[x := f[x] + f[y]][y := 0]) == Total(f)
  {
    hide Total;
    TotalUpdate(f, x, f[x] + f[y]);
    TotalUpdate(f[x := f[x] + f[y]], y, 0);
  }
}
