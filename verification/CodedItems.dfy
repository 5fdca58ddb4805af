/** What a Huffman entropy coder sends: symbols of its table and plain bits. */
module CodedItems {

  import Wrappers
  import opened CodeString
  import opened PrefixCode

  datatype Item = Sym(s: byte) | Raw(b: seq<bit>)

  /** Symbols are listed once, so each has one code word. */
  ghost predicate Proper(c: Code) {
    PrefixFree(c) && forall p, q :: 0 <= p < q < |c.vals| ==> c.vals[p] != c.vals[q]
  }

  ghost predicate HasWord(c: Code, s: byte) {
    s in c.vals
  }

  /** The code word of a symbol, empty if there is none. */
  ghost function Word(c: Code, s: byte): seq<bit>
    requires Proper(c)
  {
    if s in c.vals then
      var p :| 0 <= p < |c.vals| && c.vals[p] == s;
      c.words[p]
    else []
  }

  lemma WordAt(c: Code, p: nat)
    requires Proper(c) && p < |c.vals|
    ensures HasWord(c, c.vals[p]) && Word(c, c.vals[p]) == c.words[p]
  {
  }

  lemma ReadWordBack(c: Code, s: byte, rest: seq<bit>)
    requires Proper(c) && HasWord(c, s)
    ensures ReadSym(c, Word(c, s) + rest) == Wrappers.Some((s, rest))
  {
    hide ReadSym;
    var p :| 0 <= p < |c.vals| && c.vals[p] == s;
    ReadBack(c, p, rest);
    WordAt(c, p);
  }

  ghost function ItemBits(c: Code, i: Item): seq<bit>
    requires Proper(c)
  {
    match i
    case Sym(s) => Word(c, s)
    case Raw(b) => b
  }

  ghost function Spell(c: Code, items: seq<Item>): seq<bit>
    requires Proper(c)
  {
    if items == [] then []
    else Spell(c, items[..|items| - 1]) + ItemBits(c, items[|items| - 1])
  }

  lemma SpellOne(c: Code, i: Item)
    requires Proper(c)
    ensures Spell(c, [i]) == ItemBits(c, i)
  {
    hide Proper;
    assert [i][..0] == [];
  }

  lemma SpellNext(c: Code, items: seq<Item>, i: Item)
    requires Proper(c)
    ensures Spell(c, items + [i]) == Spell(c, items) + ItemBits(c, i)
  {
    hide Proper;
    assert (items + [i])[..|items|] == items;
  }

  lemma {:induction false} SpellPlus(c: Code, s: seq<Item>, t: seq<Item>)
    requires Proper(c)
    ensures Spell(c, s + t) == Spell(c, s) + Spell(c, t)
  {
    hide Proper;
    if t == [] {
      assert s + t == s;
    } else {
      var u := t[..|t| - 1];
      SpellPlus(c, s, u);
      assert (s + t)[..|s + t| - 1] == s + u;
      Assoc(Spell(c, s), Spell(c, u), ItemBits(c, t[|t| - 1]));
    }
  }

  lemma SpellHead(c: Code, i: Item, t: seq<Item>)
    requires Proper(c)
    ensures Spell(c, [i] + t) == ItemBits(c, i) + Spell(c, t)
  {
    SpellPlus(c, [i], t);
    SpellOne(c, i);
  }

  /** Every symbol sent has a code. */
  ghost predicate Coded(c: Code, items: seq<Item>) {
    forall i :: 0 <= i < |items| && items[i].Sym? ==> HasWord(c, items[i].s)
  }

  lemma CodedParts(h: Code, s: seq<Item>, t: seq<Item>)
    ensures Coded(h, s + t) <==> Coded(h, s) && Coded(h, t)
  {
    if Coded(h, s + t) {
      assert forall i :: 0 <= i < |s| ==> (s + t)[i] == s[i];
      assert forall i :: 0 <= i < |t| ==> (s + t)[|s| + i] == t[i];
    }
  }

  /** How often a symbol is sent. */
  ghost function Count(items: seq<Item>, s: byte): nat {
    if items == [] then 0
    else Count(items[..|items| - 1], s) + if items[|items| - 1] == Sym(s) then 1 else 0
  }

  lemma CountNext(items: seq<Item>, i: Item, s: byte)
    ensures Count(items + [i], s) == Count(items, s) + if i == Sym(s) then 1 else 0
  {
    assert (items + [i])[..|items|] == items;
  }

  /** A symbol that was counted was sent, and the other way round. */
  lemma {:induction false} CountedIsSent(items: seq<Item>, s: byte)
    ensures Count(items, s) > 0 <==> Sym(s) in items
  {
    if items != [] {
      CountedIsSent(items[..|items| - 1], s);
      assert items == items[..|items| - 1] + [items[|items| - 1]];
    }
  }

  lemma {:induction false} CountPlus(a: seq<Item>, b: seq<Item>, s: byte)
    ensures Count(a + b, s) == Count(a, s) + Count(b, s)
  {
    if b == [] {
      assert a + b == a;
    } else {
      CountPlus(a, b[..|b| - 1], s);
      assert (a + b)[..|a + b| - 1] == a + b[..|b| - 1];
    }
  }
}
