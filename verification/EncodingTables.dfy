/** Encoding tables as code words: what jpeg_make_c_derived_tbl provides to an encoder. */
module EncodingTables {

  import opened CodeString
  import opened PrefixCode
  import opened CanonicalCode
  import opened DerivedTables
  import opened CodedItems

  /** An encoding table made from an accepted specification. */
  ghost predicate Tabulates(h: HuffTbl, t: CTable, isDC: bool) {
    && Accepted(h) && Encodable(h, isDC)
    && Encodes(Lengths(h, 16), Codes(Lengths(h, 16)), Symbols(h), |Lengths(h, 16)|, t)
  }

  lemma ProperTable(h: HuffTbl, isDC: bool)
    requires Accepted(h) && Encodable(h, isDC)
    ensures Proper(CodeOf(h))
  {
    hide Accepted, PrefixFree;
  }

  /** The table holds the code word of every symbol that has one, and size 0 for the others. */
  lemma TableWord(h: HuffTbl, t: CTable, isDC: bool, s: byte)
    requires Tabulates(h, t, isDC)
    ensures Proper(CodeOf(h)) && |t.ehufco| == |t.ehufsi| == 256 && t.ehufsi[s] <= 16
    ensures HasWord(CodeOf(h), s) <==> t.ehufsi[s] > 0
    ensures HasWord(CodeOf(h), s) ==>
      t.ehufco[s] < Shl(1, t.ehufsi[s]) && Word(CodeOf(h), s) == BitsOf(t.ehufco[s], t.ehufsi[s])
  {
    hide Word, BitsOf, Codes, Weight, Lengths, Shl, PrefixFree;
    ProperTable(h, isDC);
    var vals := Symbols(h);
    assert vals[..|vals|] == vals;
    if p :| 0 <= p < |vals| && vals[p] == s {
      WordAt(CodeOf(h), p);
      CodeFits(Lengths(h, 16), Codes(Lengths(h, 16)), p);
    }
  }
}
