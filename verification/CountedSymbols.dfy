/** When the counts of a scan make a table: how many symbols are sent and how many differ, and
that light or few counts never need more than thirty-two bits. */
module CountedSymbols {

  import opened CodeString
  import opened CodedItems
  import opened CodeLengths
  import opened SymbolMerging
  import opened MergedTrees
  import opened HuffmanLengths
  import opened OptimalTable

  /** How many symbols are sent. */
  ghost function Syms(items: seq<Item>): nat {
    if items == [] then 0
    else Syms(items[..|items| - 1]) + if items[|items| - 1].Sym? then 1 else 0
  }

  lemma {:induction false} SymsPlus(a: seq<Item>, b: seq<Item>)
    ensures Syms(a + b) == Syms(a) + Syms(b)
  {
    if b == [] {
      assert a + b == a;
    } else {
      SymsPlus(a, b[..|b| - 1]);
      assert (a + b)[..|a + b| - 1] == a + b[..|b| - 1];
    }
  }

  lemma SymsOne(i: Item)
    ensures Syms([i]) == if i.Sym? then 1 else 0
  {
    assert [i][..0] == [];
  }

  /** Every symbol sent is counted once. */
  lemma {:induction false} CountsTotal(items: seq<Item>)
    ensures Total(CountsOf(items)) == Syms(items)
  {
    hide Total;
    if items == [] {
      TotalOfZeros(CountsOf(items));
    } else {
      var n := |items| - 1;
      CountsTotal(items[..n]);
      if items[n].Sym? {
        var c, s := CountsOf(items[..n]), items[n].s;
        TotalUpdate(c, s, c[s] + 1);
        assert CountsOf(items) == c[s := c[s] + 1];
      } else {
        assert CountsOf(items) == CountsOf(items[..n]);
      }
    }
  }

  lemma {:induction false} SomeSymbol(items: seq<Item>)
    requires Syms(items) > 0
    ensures exists s: byte :: Sym(s) in items
  {
    var n := |items| - 1;
    if items[n].Sym? {
      assert Sym(items[n].s) in items;
    } else {
      SomeSymbol(items[..n]);
      var s: byte :| Sym(s) in items[..n];
      assert Sym(s) in items;
    }
  }

  /** All symbols are among those listed. */
  ghost predicate Among(items: seq<Item>, vals: seq<byte>) {
    forall s: byte :: Sym(s) in items ==> s in vals
  }

  ghost predicate Different(vals: seq<byte>) {
    forall p, q :: 0 <= p < q < |vals| ==> vals[p] != vals[q]
  }

  lemma {:induction false} TotalAtMost(t: seq<int>, u: seq<int>)
    requires |t| == |u| && forall j :: 0 <= j < |t| ==> t[j] <= u[j]
    ensures Total(t) <= Total(u)
  {
    if t != [] {
      TotalAtMost(t[..|t| - 1], u[..|u| - 1]);
    }
  }

  /** No more symbols differ than are listed. */
  lemma KindsListed(items: seq<Item>, vals: seq<byte>)
    requires Among(items, vals) && Different(vals)
    ensures Total(Sized(CountsOf(items))) <= |vals|
  {
    hide Total;
    MembersTotal(vals);
    var t, u := Sized(CountsOf(items)), Members(vals);
    forall j: byte
      ensures t[j] <= u[j]
    {
      CountedIsSent(items, j);
    }
    TotalAtMost(t, u);
  }

  /** What the table generator asks of counts, from what is sent. */
  lemma FewEnoughSent(items: seq<Item>, vals: seq<byte>)
    requires Among(items, vals) && Different(vals) && |vals| <= 254 && 0 < Syms(items) < MAX_COUNT
    ensures FewSymbols(items)
  {
    hide Total, Sized;
    CountsTotal(items);
    SomeSymbol(items);
    KindsListed(items, vals);
  }

  /** The size half of every symbol is at most m. */
  ghost predicate LowHalf(items: seq<Item>, m: nat) {
    forall s: byte :: Sym(s) in items ==> s % 16 <= m
  }

  /** The symbols below n of such a kind. */
  function Kinds(n: nat, m: nat): (vals: seq<byte>)
    requires n <= 256
    ensures forall s: byte :: s in vals <==> s < n && s % 16 <= m
  {
    if n == 0 then [] else Kinds(n - 1, m) + if (n - 1) % 16 <= m then [n - 1] else []
  }

  lemma {:induction false} KindsDiffer(n: nat, m: nat)
    requires n <= 256
    ensures Different(Kinds(n, m))
  {
    if n > 0 {
      KindsDiffer(n - 1, m);
      var vals := Kinds(n - 1, m);
      assert forall p :: 0 <= p < |vals| ==> vals[p] in vals;
    }
  }

  lemma {:induction false} KindsCount(q: nat, r: nat, m: nat)
    requires 16 * q + r <= 256 && r <= 16
    ensures m == 1 ==> |Kinds(16 * q + r, m)| == 2 * q + if r < 2 then r else 2
    ensures m == 10 ==> |Kinds(16 * q + r, m)| == 11 * q + if r < 11 then r else 11
    decreases q, r
  {
    if r > 0 {
      KindsCount(q, r - 1, m);
      assert (16 * q + r - 1) % 16 == r - 1;
    } else if q > 0 {
      KindsCount(q - 1, 16, m);
      assert 16 * (q - 1) + 16 == 16 * q + 0;
    }
  }

  /** Between 1 and n symbols if any item is sent at all, of sizes up to m. */
  ghost predicate Few(items: seq<Item>, n: nat, m: nat) {
    Syms(items) <= n && LowHalf(items, m) && (items != [] ==> Syms(items) > 0)
  }

  lemma FewNone(m: nat)
    ensures Few([], 0, m)
  {
  }

  lemma FewPlus(a: seq<Item>, n: nat, b: seq<Item>, k: nat, m: nat)
    requires Few(a, n, m) && Few(b, k, m)
    ensures Few(a + b, n + k, m)
  {
    SymsPlus(a, b);
  }

  lemma FewMore(a: seq<Item>, n: nat, k: nat, m: nat, l: nat)
    requires Few(a, n, m) && n <= k && m <= l
    ensures Few(a, k, l)
  {
  }

  /** One symbol with its bits. */
  lemma FewOne(s: byte, raws: seq<Item>, m: nat)
    requires s % 16 <= m && |raws| <= 2 && forall i :: 0 <= i < |raws| ==> raws[i].Raw?
    ensures Few([Sym(s)] + raws, 1, m)
  {
    SymsPlus([Sym(s)], raws);
    SymsOne(Sym(s));
    if |raws| == 2 {
      SymsPlus([raws[0]], [raws[1]]);
      SymsOne(raws[1]);
      assert raws == [raws[0]] + [raws[1]];
    }
    if |raws| > 0 {
      SymsOne(raws[0]);
      assert |raws| == 1 ==> raws == [raws[0]];
    }
  }

  /** The counts with the pseudo-symbol. */
  ghost function FreqOf(items: seq<Item>): (f: seq<nat>)
    ensures |f| == SYMBOLS && f[256] == 1 && f[..256] == CountsOf(items)
  {
    CountsOf(items) + [1]
  }

  /** No code size exceeds thirty-two: the table can be generated. */
  ghost predicate Codable(items: seq<Item>) {
    !TooDeep(HuffmanSizes(FreqOf(items)))
  }

  lemma {:induction false} FibMonotone(m: nat, n: nat)
    requires m <= n
    ensures Fib(m) <= Fib(n)
  {
    if m < n {
      FibMonotone(m, n - 1);
      FibGrows(n - 1);
    }
  }

  lemma {:induction false} LiveIsSized(f: seq<nat>)
    ensures LiveCount(f) == Total(Sized(f))
  {
    if f != [] {
      var n := |f| - 1;
      LiveIsSized(f[..n]);
      assert Sized(f)[..n] == Sized(f[..n]);
    }
  }

  /** Thirty-two symbols are too few for a code of more bits. */
  lemma FewAreCodable(items: seq<Item>)
    requires Total(Sized(CountsOf(items))) <= 32
    ensures Codable(items)
  {
    hide Total, HuffmanSizes, Fib, Sized, Attained;
    var f := FreqOf(items);
    SizesOfCounts(f);
    LiveIsSized(f);
    PrefixNext(f, 256, 0);
    assert f[..257] == f;
  }

  /** A Fibonacci number: no lighter tree has a symbol thirty-three levels deep. */
  const LIGHT := 9227465

  /** n steps of the sequence from two neighbours. */
  function FibSteps(n: nat, a: nat, b: nat): nat {
    if n == 0 then a else FibSteps(n - 1, b, a + b)
  }

  lemma {:induction false} FibFrom(k: nat, n: nat)
    ensures Fib(k + n) == FibSteps(n, Fib(k), Fib(k + 1))
    decreases n
  {
    if n > 0 {
      FibNext(k);
      FibFrom(k + 1, n - 1);
    }
  }

  lemma FibonacciAt35()
    ensures Fib(35) == LIGHT
  {
    FibFrom(0, 35);
    assert FibSteps(35, 0, 1) == FibSteps(26, 34, 55);
    assert FibSteps(26, 34, 55) == FibSteps(17, 2584, 4181);
    assert FibSteps(17, 2584, 4181) == FibSteps(8, 196418, 317811);
    assert FibSteps(8, 196418, 317811) == LIGHT;
  }

  /** So are fewer symbols than that, however they are distributed. */
  lemma LightAreCodable(items: seq<Item>)
    requires Syms(items) + 1 < LIGHT
    ensures Codable(items)
  {
    hide Total, HuffmanSizes, Fib, Attained, LiveCount;
    var f := FreqOf(items);
    SizesOfCounts(f);
    CountsTotal(items);
    assert f[..256] == CountsOf(items);
    TotalNext(f, 256);
    assert f[..257] == f;
    FibonacciAt35();
    forall j: nat | j < SYMBOLS
      ensures HuffmanSizes(f)[j] <= 32
    {
      if HuffmanSizes(f)[j] > 32 {
        FibMonotone(35, HuffmanSizes(f)[j] + 2);
      }
    }
  }

  /** A scan of symbols of size at most one always gets its table. */
  lemma SmallSizesCodable(items: seq<Item>)
    requires LowHalf(items, 1)
    ensures Codable(items)
  {
    hide Total, Sized, Codable;
    KindsCount(16, 0, 1);
    KindsDiffer(256, 1);
    KindsListed(items, Kinds(256, 1));
    FewAreCodable(items);
  }

  /** Symbols of size at most ten are few enough to count. */
  lemma FewSizes(items: seq<Item>)
    requires LowHalf(items, 10) && 0 < Syms(items) < MAX_COUNT
    ensures FewSymbols(items)
  {
    hide FewSymbols;
    KindsCount(16, 0, 10);
    KindsDiffer(256, 10);
    FewEnoughSent(items, Kinds(256, 10));
  }

  lemma TotalNext(t: seq<int>, n: nat)
    requires n < |t|
    ensures Total(t[..n + 1]) == Total(t[..n]) + t[n]
  {
    assert t[..n + 1][..n] == t[..n];
  }
}
