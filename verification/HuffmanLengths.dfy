/** The code lengths jpeg_gen_optimal_table of jchuff.c assigns: Huffman's procedure run to its
end. */
module HuffmanLengths {

  import opened CodeString
  import opened CodeLengths
  import opened SymbolMerging
  import opened KraftInequality
  import opened MergedTrees

  /** The two symbols to merge next; the second is missing when one tree is left. */
  method Pick(freq: array<nat>, ghost w: nat) returns (c1: nat, c2: int)
    requires freq.Length == SYMBOLS && Total(freq[..]) <= MAX_COUNT && w < SYMBOLS && freq[w] > 0
    ensures c1 < SYMBOLS && freq[c1] > 0
    ensures if c2 >= 0 then FirstTwo(freq[..], c1, c2)
      else forall j: nat :: j < SYMBOLS && freq[j] > 0 ==> j == c1
  {
    hide Total;
    TotalNonnegative(freq[..]);
    assert forall j :: 0 <= j < SYMBOLS ==> freq[j] == freq[..][j];
    var c := FindLeast(freq, -1);
    c1 := c;
    c2 := FindLeast(freq, c1);
  }

  /** What the procedure keeps from merge to merge. */
  ghost predicate Kept(f0: seq<nat>, f: seq<nat>, cs: seq<nat>, chains: seq<seq<nat>>, ws: seq<seq<bit>>, t: nat, o: Origin) {
    && Forest(f, cs, chains) && Heavy(f, cs, chains) && Shallow(f, cs, chains) && Spelled(f, cs, chains, ws)
    && Deepest(f, cs, chains, t, o) && Named(chains) && |f0| == SYMBOLS && SizesFrom(f, cs, chains) == HuffmanSizes(f0)
  }

  lemma KeptStart(f: seq<nat>, ws: seq<seq<bit>>)
    requires |f| == SYMBOLS && f[256] == 1 && |ws| == SYMBOLS && forall j: nat :: j < SYMBOLS ==> ws[j] == []
    ensures Kept(f, f, NoSizes(), Singles(), ws, 256, Alone)
  {
    hide Forest, Heavy, Shallow, Spelled, Deepest, SizesFrom, Named;
    assert Unmerged(f, NoSizes(), Singles());
    UnmergedForest(f, NoSizes(), Singles());
    UnmergedHeavy(f, NoSizes(), Singles());
    UnmergedSpelled(f, NoSizes(), Singles(), ws);
    UnmergedDeepest(f, NoSizes(), Singles());
  }

  lemma KeptNext(f0: seq<nat>, f: seq<nat>, cs: seq<nat>, chains: seq<seq<nat>>, ws: seq<seq<bit>>, t: nat, o: Origin, x: nat, y: nat,
      os: seq<int>, os': seq<int>)
    returns (vs: seq<seq<bit>>, u: nat, p: Origin)
    requires Kept(f0, f, cs, chains, ws, t, o) && FirstTwo(f, x, y) && Woods(f0, f, cs, os, chains)
    requires Woods(f0, Merged(f, x, y), Deeper(cs, chains[x], chains[y]), os', chains[x := chains[x] + chains[y]])
    ensures Kept(f0, Merged(f, x, y), Deeper(cs, chains[x], chains[y]), chains[x := chains[x] + chains[y]], vs, u, p)
  {
    hide Heavy, Shallow, Spelled, Deepest, SizesFrom, Named, Woods, FirstTwo, Lightest, Deeper, Merged, Sunk;
    FirstAreLightest(f, x, y);
    PairShape(f, cs, chains, x, y);
    var ds := Deeper(cs, chains[x], chains[y]);
    SunkBy(cs, chains[x], chains[y]);
    HeavyMerged(f, cs, ds, chains, x, y);
    ShallowMerged(f, cs, ds, chains, x, y);
    SpelledMerged(f, cs, ds, chains, x, y, ws);
    u, p := DeepestMerged(f, cs, ds, chains, x, y, t, o);
    vs := Branched(ws, chains[x], chains[y]);
    SizesNext(f, cs, chains, x, y);
    WoodsAreForest(f0, Merged(f, x, y), ds, os', chains[x := chains[x] + chains[y]]);
  }

  lemma PairShape(f: seq<nat>, cs: seq<nat>, chains: seq<seq<nat>>, x: nat, y: nat)
    requires Forest(f, cs, chains) && Lightest(f, x, y)
    ensures x < SYMBOLS && y < SYMBOLS && |chains| == SYMBOLS && InRange(chains[x]) && InRange(chains[y])
    ensures Distinct(chains[x]) && Distinct(chains[y]) && Disjoint(chains[x], chains[y])
  {
  }

  /** The procedure's code sizes: words of these lengths make a prefix code, the pseudo-symbol is
  deepest, and depth takes symbols and weight. */
  ghost predicate WellSized(f0: seq<nat>, cs: seq<nat>) {
    && |f0| == |cs| == SYMBOLS && cs == HuffmanSizes(f0) && Attained(f0, cs)
    && (forall j: nat :: j < SYMBOLS && f0[j] == 0 ==> cs[j] == 0)
    && forall j: nat :: j < SYMBOLS && f0[j] > 0 ==> cs[j] <= cs[256] && cs[j] < LiveCount(f0) && Fib(cs[j] + 2) <= Total(f0)
  }

  ghost predicate Attained(f0: seq<nat>, cs: seq<nat>)
    requires |f0| == |cs|
  {
    exists ws: seq<seq<bit>> :: |ws| == |f0| && PrefixCode(f0, ws) && WordLengths(ws) == cs
  }

  /** A list of different symbols in use is no longer than there are such symbols. */
  lemma {:induction false} FewEnough(f: seq<nat>, ch: seq<nat>)
    requires Distinct(ch) && forall i :: 0 <= i < |ch| ==> ch[i] < |f| && f[ch[i]] > 0
    ensures |ch| <= LiveCount(f)
    decreases |ch|
  {
    hide LiveCount;
    if ch != [] {
      var n := |ch| - 1;
      var g := f[ch[n] := 0];
      LiveCountSet(f, ch[n], 0);
      FewEnough(g, ch[..n]);
    }
  }

  lemma {:induction false} OnlyCount(f: seq<nat>, c: nat)
    requires c < |f| && forall j: nat :: j < |f| && j != c ==> f[j] == 0
    ensures Total(f) == f[c]
  {
    var n := |f| - 1;
    if c < n {
      OnlyCount(f[..n], c);
    } else {
      TotalOfZeros(f[..n]);
    }
  }

  /** With one tree left the sizes are final. */
  lemma KeptEnd(f0: seq<nat>, f: seq<nat>, cs: seq<nat>, others: seq<int>, chains: seq<seq<nat>>, ws: seq<seq<bit>>, t: nat,
      o: Origin, c: nat)
    requires Kept(f0, f, cs, chains, ws, t, o) && Woods(f0, f, cs, others, chains) && Total(f) == Total(f0)
    requires c < SYMBOLS && f[c] > 0 && forall j: nat :: j < SYMBOLS && f[j] > 0 ==> j == c
    ensures WellSized(f0, cs)
  {
    hide Deeper, SizesFrom, LiveCount, Total, Weigh, ChainKraft, Fib, Linked;
    SizesEnd(f, cs, chains, c);
    OnlyCount(f, c);
    assert Tree(f0, cs, others, chains[c], c, f[c]);
    FewEnough(f0, chains[c]);
    forall j: nat | j < SYMBOLS && f0[j] > 0
      ensures j in chains[c]
    {
      assert Rooted(f, chains, j);
    }
    assert WordLengths(ws) == cs;
    assert PrefixCode(f0, ws);
  }

  lemma {:induction false} LeastExists(f: seq<nat>, avoid: int) returns (c: nat)
    requires exists j: nat :: j < |f| && f[j] > 0 && j != avoid
    ensures Least(f, avoid, c)
    decreases |f|
  {
    var n := |f| - 1;
    var i: nat :| i < |f| && f[i] > 0 && i != avoid;
    assert i < n ==> f[..n][i] == f[i];
    if exists j: nat :: j < n && f[..n][j] > 0 && j != avoid {
      c := LeastExists(f[..n], avoid);
      if f[n] > 0 && n != avoid && f[n] <= f[c] {
        c := n;
      }
    } else {
      c := n;
    }
  }

  /** Unless two trees can be merged there is one only. */
  lemma MergeOrEnd(f: seq<nat>, t: nat)
    requires |f| == SYMBOLS && t < SYMBOLS && f[t] > 0 && !Mergeable(f)
    ensures forall j: nat :: j < SYMBOLS && f[j] > 0 ==> j == t
  {
    if j: nat :| j < SYMBOLS && f[j] > 0 && j != t {
      var x := LeastExists(f, -1);
      assert f[if x == t then j else t] > 0;
      var y := LeastExists(f, x);
      assert FirstTwo(f, x, y);
    }
  }

  lemma {:induction false} SizedFrom(f0: seq<nat>, f: seq<nat>, cs: seq<nat>, os: seq<int>, chains: seq<seq<nat>>,
      ws: seq<seq<bit>>, t: nat, o: Origin)
    requires Kept(f0, f, cs, chains, ws, t, o) && Woods(f0, f, cs, os, chains) && Total(f) == Total(f0)
    ensures WellSized(f0, HuffmanSizes(f0))
    decreases LiveCount(f)
  {
    hide Kept, Woods, Total, WellSized, HuffmanSizes, FirstTwo, Deeper, LiveCount, SizesFrom;
    KeptShape(f0, f, cs, os, chains, ws, t, o);
    if Mergeable(f) {
      var (x, y) := NextTwo(f);
      FirstAreLightest(f, x, y);
      WoodsMerged(f0, f, cs, os, chains, x, y);
      TotalMerged(f, x, y);
      MergedTwice(f, x, y);
      var a := chains[x];
      var os1, chs := os[a[|a| - 1] := y], chains[x := a + chains[y]];
      var vs, u, p := KeptNext(f0, f, cs, chains, ws, t, o, x, y, os, os1);
      SizedFrom(f0, Merged(f, x, y), Deeper(cs, a, chains[y]), os1, chs, vs, u, p);
    } else {
      MergeOrEnd(f, t);
      KeptEnd(f0, f, cs, os, chains, ws, t, o, t);
      SizesEnd(f, cs, chains, t);
    }
  }

  lemma KeptShape(f0: seq<nat>, f: seq<nat>, cs: seq<nat>, os: seq<int>, chains: seq<seq<nat>>, ws: seq<seq<bit>>, t: nat, o: Origin)
    requires Kept(f0, f, cs, chains, ws, t, o) && Woods(f0, f, cs, os, chains)
    ensures |f| == |cs| == |os| == SYMBOLS && Named(chains) && t < SYMBOLS && f[t] > 0 && SizesFrom(f, cs, chains) == HuffmanSizes(f0)
  {
  }

  /** Whatever the counts: the procedure's sizes are reached by a prefix code, no symbol lies
  deeper than the pseudo-symbol, and depth takes symbols and weight. */
  lemma SizesOfCounts(f: seq<nat>)
    requires |f| == SYMBOLS && f[256] == 1
    ensures WellSized(f, HuffmanSizes(f))
  {
    hide Kept, Woods, Total, WellSized, HuffmanSizes;
    var os: seq<int>, ws: seq<seq<bit>> := seq(SYMBOLS, _ => -1), seq(SYMBOLS, _ => []);
    WoodsStart(f, NoSizes(), os, Singles());
    KeptStart(f, ws);
    SizedFrom(f, f, NoSizes(), os, Singles(), ws, 256, Alone);
  }

  /** Huffman's basic algorithm: optimal code lengths for all symbols that occur. */
  method AssignLengths(freq: array<nat>) returns (codesize: array<nat>)
    requires freq.Length == SYMBOLS && freq[256] == 1 && Total(freq[..]) <= MAX_COUNT
    modifies freq
    ensures fresh(codesize) && codesize.Length == SYMBOLS
    ensures Optimal(old(freq[..]), codesize[..]) && OneTree(old(freq[..]), codesize[..]) && WellSized(old(freq[..]), codesize[..])
    ensures forall j :: 0 <= j < SYMBOLS && old(freq[j]) == 0 ==> codesize[j] == 0
  {
    hide Total, Woods, Unbeaten, Optimal, OneTree, Lightest, FirstTwo, WellSized, Merged, SizesFrom, HuffmanSizes;
    ghost var f0 := freq[..];
    codesize := new nat[SYMBOLS](_ => 0);
    var others := new int[SYMBOLS](_ => -1);
    ghost var chains := Singles();
    assert codesize[..] == NoSizes();
    WoodsStart(f0, codesize[..], others[..], chains);
    UnbeatenStart(f0, codesize[..]);
    SizesStart(f0);
    var c1: nat, c2: int := Pick(freq, 256);
    while c2 >= 0
      invariant Woods(f0, freq[..], codesize[..], others[..], chains) && Unbeaten(f0, freq[..], codesize[..])
      invariant Named(chains) && Total(freq[..]) == Total(f0) && SizesFrom(freq[..], codesize[..], chains) == HuffmanSizes(f0)
      invariant c1 < SYMBOLS && freq[c1] > 0
      invariant if c2 >= 0 then FirstTwo(freq[..], c1, c2)
        else forall j: nat :: j < SYMBOLS && freq[j] > 0 ==> j == c1
      decreases LiveCount(freq[..])
    {
      ghost var f := freq[..];
      FirstAreLightest(f, c1, c2);
      LightestShape(f, c1, c2);
      WoodsMerged(f0, f, codesize[..], others[..], chains, c1, c2);
      TotalMerged(f, c1, c2);
      SizesNext(f, codesize[..], chains, c1, c2);
      chains := MergeTwo(freq, codesize, others, c1, c2, f0, chains);
      MergedTwice(f, c1, c2);
      c1, c2 := Pick(freq, c1);
    }
    WoodsEnd(f0, freq[..], codesize[..], others[..], chains, c1);
    UnbeatenIsOptimal(f0, freq[..], codesize[..]);
    SizesEnd(freq[..], codesize[..], chains, c1);
    SizesOfCounts(f0);
  }

  lemma LightestShape(f: seq<nat>, x: nat, y: nat)
    requires Lightest(f, x, y)
    ensures x < |f| && y < |f| && x != y && f[x] > 0 && f[y] > 0
  {
  }
}
