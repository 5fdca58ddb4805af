/** How the code lengths of a table relate to the code sizes its counts come from. */
module SizedTables {

  import opened CodeString
  import opened PrefixCode
  import opened CanonicalCode
  import opened DerivedTables
  import opened CodedItems
  import opened CodeLengths
  import opened SymbolMerging
  import opened LengthLimit
  import EncodingTables

  /** The indicator of symbols of one code size. */
  function AtSize(cs: seq<nat>, l: nat): (t: seq<int>)
    ensures |t| == |cs|
  {
    seq(|cs|, j requires 0 <= j < |cs| => if cs[j] == l then 1 else 0)
  }

  lemma AtSizeNext(cs: seq<nat>, i: nat, l: nat)
    requires i < |cs|
    ensures Total(AtSize(cs[..i + 1], l)) == Total(AtSize(cs[..i], l)) + if cs[i] == l then 1 else 0
  {
    assert AtSize(cs[..i + 1], l)[..i] == AtSize(cs[..i], l);
  }

  lemma {:induction false} AtSizeFound(cs: seq<nat>, l: nat)
    ensures Total(AtSize(cs, l)) >= 0 && (Total(AtSize(cs, l)) > 0 <==> exists j :: 0 <= j < |cs| && cs[j] == l)
  {
    if cs != [] {
      var n := |cs| - 1;
      AtSizeFound(cs[..n], l);
      assert cs[..n + 1] == cs;
      AtSizeNext(cs, n, l);
    }
  }

  /** The counts are those of the code sizes, one by one. */
  ghost predicate Exact(bits: seq<byte>, cs: seq<nat>) {
    |bits| == MAX_CLEN + 1 && forall l :: 1 <= l <= MAX_CLEN ==> bits[l] == Total(AtSize(cs, l))
  }

  lemma ExactNext(bits: seq<byte>, cs: seq<nat>, i: nat)
    requires i < |cs| && Exact(bits, cs[..i]) && cs[i] <= MAX_CLEN
    ensures cs[i] == 0 ==> Exact(bits, cs[..i + 1])
    ensures cs[i] > 0 && bits[cs[i]] < 255 ==> Exact(bits[cs[i] := bits[cs[i]] + 1], cs[..i + 1])
  {
    hide Total, AtSize;
    forall l | 1 <= l <= MAX_CLEN
      ensures Total(AtSize(cs[..i + 1], l)) == Total(AtSize(cs[..i], l)) + if cs[i] == l then 1 else 0
    {
      AtSizeNext(cs, i, l);
    }
  }

  lemma ExactStart(bits: seq<byte>, cs: seq<nat>)
    requires |bits| == MAX_CLEN + 1 && forall l :: 0 <= l < |bits| ==> bits[l] == 0
    ensures Exact(bits, cs[..0])
  {
    forall l | 1 <= l <= MAX_CLEN
      ensures Total(AtSize(cs[..0], l)) == 0
    {
      assert AtSize(cs[..0], l) == [];
    }
  }

  /** How often a length occurs in a list. */
  function Occurs(s: seq<nat>, l: nat): nat {
    if s == [] then 0 else Occurs(s[..|s| - 1], l) + if s[|s| - 1] == l then 1 else 0
  }

  lemma {:induction false} OccursIn(s: seq<nat>, l: nat)
    ensures Occurs(s, l) > 0 <==> l in s
  {
    if s != [] {
      OccursIn(s[..|s| - 1], l);
      assert s == s[..|s| - 1] + [s[|s| - 1]];
    }
  }

  lemma {:induction false} OccursPlus(s: seq<nat>, t: seq<nat>, l: nat)
    ensures Occurs(s + t, l) == Occurs(s, l) + Occurs(t, l)
  {
    if t == [] {
      assert s + t == s;
    } else {
      OccursPlus(s, t[..|t| - 1], l);
      assert (s + t)[..|s + t| - 1] == s + t[..|t| - 1];
    }
  }

  predicate Ascending(s: seq<nat>) {
    forall i, j :: 0 <= i < j < |s| ==> s[i] <= s[j]
  }

  /** Ascending lists with the same entries are the same. */
  lemma {:induction false} SameList(s: seq<nat>, t: seq<nat>)
    requires Ascending(s) && Ascending(t) && forall l: nat :: Occurs(s, l) == Occurs(t, l)
    ensures s == t
  {
    if s == [] || t == [] {
      if t != [] {
        OccursIn(t, t[0]);
        assert Occurs(s, t[0]) == 0;
      }
      if s != [] {
        OccursIn(s, s[0]);
        assert Occurs(t, s[0]) == 0;
      }
    } else {
      var x, y := s[|s| - 1], t[|t| - 1];
      OccursIn(s, x);
      OccursIn(t, x);
      OccursIn(s, y);
      OccursIn(t, y);
      assert x in t && y in s;
      assert x == y;
      var u, v := s[..|s| - 1], t[..|t| - 1];
      forall l: nat
        ensures Occurs(u, l) == Occurs(v, l)
      {
        assert Occurs(s, l) == Occurs(t, l);
      }
      SameList(u, v);
      assert s == u + [x] && t == v + [y];
    }
  }

  lemma {:induction false} OccursCopies(v: nat, k: nat, l: nat)
    ensures Occurs(Copies(v, k), l) == if v == l then k else 0
  {
    if k > 0 {
      OccursCopies(v, k - 1, l);
      assert Copies(v, k)[..k - 1] == Copies(v, k - 1);
    }
  }

  /** A table's lengths occur as often as its counts say. */
  lemma {:induction false} OccursLengths(h: HuffTbl, m: nat, l: nat)
    requires Typed(h) && m <= MAX_LENGTH
    ensures Occurs(Lengths(h, m), l) == if 1 <= l <= m then h.bits[l] else 0
  {
    if m > 0 {
      OccursLengths(h, m - 1, l);
      OccursPlus(Lengths(h, m - 1), Copies(m, h.bits[m]), l);
      OccursCopies(m, h.bits[m], l);
    }
  }

  /** The sizes of listed symbols, in the order of the list. */
  function SizesOf(cs: seq<nat>, vals: seq<byte>): (s: seq<nat>)
    requires |cs| >= 256
    ensures |s| == |vals| && forall p :: 0 <= p < |s| ==> s[p] == cs[vals[p]]
  {
    seq(|vals|, p requires 0 <= p < |vals| => cs[vals[p]])
  }

  /** The indicator of listed symbols of one size. */
  function ListedAt(cs: seq<nat>, vals: seq<byte>, l: nat): (t: seq<int>)
    requires |cs| >= 256
    ensures |t| == 256
  {
    seq(256, j requires 0 <= j < 256 => if j in vals && cs[j] == l then 1 else 0)
  }

  lemma {:induction false} OccursSizes(cs: seq<nat>, vals: seq<byte>, l: nat)
    requires |cs| >= 256 && forall p, q :: 0 <= p < q < |vals| ==> vals[p] != vals[q]
    ensures Occurs(SizesOf(cs, vals), l) == Total(ListedAt(cs, vals, l))
  {
    hide Total;
    if vals == [] {
      NoneListed(cs, l);
    } else {
      var n := |vals| - 1;
      var v := vals[n];
      OccursSizes(cs, vals[..n], l);
      assert vals == vals[..n] + [v] && v !in vals[..n];
      assert SizesOf(cs, vals)[..n] == SizesOf(cs, vals[..n]);
      TotalUpdate(ListedAt(cs, vals[..n], l), v, if cs[v] == l then 1 else 0);
      assert ListedAt(cs, vals, l) == ListedAt(cs, vals[..n], l)[v := if cs[v] == l then 1 else 0];
    }
  }

  lemma NoneListed(cs: seq<nat>, l: nat)
    requires |cs| >= 256
    ensures Total(ListedAt(cs, [], l)) == 0 && SizesOf(cs, []) == []
  {
    TotalOfZeros(ListedAt(cs, [], l));
  }

  /** The table made of the counts of some sizes and of their symbols has these sizes for
  lengths. */
  lemma LengthsAreSizes(h: HuffTbl, cs: seq<nat>, vals: seq<byte>)
    requires Typed(h) && |cs| == SYMBOLS && forall p, q :: 0 <= p < q < |vals| ==> vals[p] != vals[q] && cs[vals[p]] <= cs[vals[q]]
    requires forall s: byte :: s in vals <==> cs[s] > 0
    requires forall s: byte :: cs[s] <= 16
    requires forall l :: 1 <= l <= 16 ==> h.bits[l] == Total(AtSize(cs[..256], l))
    ensures Lengths(h, 16) == SizesOf(cs, vals)
  {
    hide Total;
    LengthsSorted(h, 16);
    forall l: nat
      ensures Occurs(Lengths(h, 16), l) == Occurs(SizesOf(cs, vals), l)
    {
      OccursLengths(h, 16, l);
      OccursSizes(cs, vals, l);
      if 1 <= l <= 16 {
        assert ListedAt(cs, vals, l) == AtSize(cs[..256], l);
      } else {
        assert forall j: byte :: !(j in vals && cs[j] == l);
        TotalOfZeros(ListedAt(cs, vals, l));
      }
    }
    SameList(Lengths(h, 16), SizesOf(cs, vals));
  }

  /** A symbol's word has the length the table gives its place in the list. */
  lemma WordLengthAt(h: HuffTbl, p: nat)
    requires Accepted(h) && Encodable(h, false) && p < |Symbols(h)|
    ensures Proper(CodeOf(h)) && HasWord(CodeOf(h), Symbols(h)[p])
    ensures |Word(CodeOf(h), Symbols(h)[p])| == Lengths(h, 16)[p]
  {
    hide Word, Legal, Lengths;
    EncodingTables.ProperTable(h, false);
    WordAt(CodeOf(h), p);
  }
}
