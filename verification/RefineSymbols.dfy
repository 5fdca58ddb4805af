/** How many symbols the AC scans of a progressive image send, and of which sizes. */
module RefineSymbols {

  import opened CodeString
  import opened PrefixCode
  import opened CodedItems
  import opened ZigZag
  import opened RefineEncoding
  import opened CountedSymbols
  import opened FirstPass
  import SequentialSpec

  lemma {:induction false} EmitFew(v: seq<int>, al: nat, se: nat, eob: nat, k: nat, r: nat, br: seq<bit>)
    requires |v| == DCTSIZE2 && k <= se + 1 <= DCTSIZE2 && LastNew(v, al, se, eob, k)
    ensures Few(Emit(v, al, se, eob, k, r, br).items, se + 1 - k + r, 1)
    decreases se + 1 - k, r
  {
    hide Few, Mag;
    FewNone(1);
    if k > se {
      FewMore([], 0, r, 1, 1);
    } else if Mag(v[k], al) == 0 {
      EmitFew(v, al, se, eob, k + 1, r + 1, br);
    } else if r > 15 && k <= eob {
      EmitFew(v, al, se, eob, k, r - 16, []);
      var rest := Emit(v, al, se, eob, k, r - 16, []).items;
      FewOne(ZRL, [Raw(br)], 1);
      FewPlus([Sym(ZRL)] + [Raw(br)], 1, rest, se + 1 - k + r - 16, 1);
      FewMore([Sym(ZRL)] + [Raw(br)] + rest, se + 1 - k + r - 15, se + 1 - k + r, 1, 1);
      assert [Sym(ZRL)] + [Raw(br)] == [Sym(ZRL), Raw(br)];
    } else if Mag(v[k], al) > 1 {
      EmitFew(v, al, se, eob, k + 1, r, br + [Mag(v[k], al) % 2]);
      FewMore(Emit(v, al, se, eob, k + 1, r, br + [Mag(v[k], al) % 2]).items, se - k + r, se + 1 - k + r, 1, 1);
    } else {
      EmitFew(v, al, se, eob, k + 1, 0, []);
      var rest, raws := Emit(v, al, se, eob, k + 1, 0, []).items, [Raw([Sign(v[k])]), Raw(br)];
      FewOne(16 * r + 1, raws, 1);
      FewPlus([Sym(16 * r + 1)] + raws, 1, rest, se - k, 1);
      FewMore([Sym(16 * r + 1)] + raws + rest, se + 1 - k, se + 1 - k + r, 1, 1);
      assert [Sym(16 * r + 1)] + raws == [Sym(16 * r + 1), Raw([Sign(v[k])]), Raw(br)];
    }
  }

  /** The symbol of a pending run. */
  lemma RunFew(eobrun: nat, be: seq<bit>)
    requires eobrun <= MAX_RUN
    ensures Few(EobItems(eobrun, be), if eobrun > 0 then 1 else 0, 0)
    ensures eobrun > 0 ==> EobItems(eobrun, be) != []
  {
    hide Log2;
    if eobrun > 0 {
      var b := Log2(eobrun);
      Log2Bound(eobrun);
      var raws := (if b > 0 then [Raw(BitsOf(eobrun, b))] else []) + [Raw(be)];
      FewOne(16 * b, raws, 0);
      assert EobItems(eobrun, be) == [Sym(16 * b)] + raws;
    } else {
      FewNone(0);
    }
  }

  function One(eobrun: nat): nat {
    if eobrun > 0 then 1 else 0
  }

  /** A refinement scan sends at least one symbol and at most 64 for each block. */
  lemma {:induction false} ScanFew(vs: seq<seq<int>>, eobrun: nat, be: seq<bit>, al: nat, ss: nat, se: nat)
    requires 1 <= ss <= se < DCTSIZE2 && Bands(vs) && eobrun < MAX_RUN
    ensures Few(Scan(vs, eobrun, be, al, ss, se), 64 * |vs| + One(eobrun), 1)
    ensures vs != [] || eobrun > 0 ==> Scan(vs, eobrun, be, al, ss, se) != []
    decreases |vs|, 0
  {
    hide Few, Mag, Emit, EobItems, Settle, Eob;
    RunFew(eobrun, be);
    FewMore(EobItems(eobrun, be), One(eobrun), One(eobrun), 0, 1);
    if vs != [] {
      var f := Block(vs[0], al, ss, se);
      EobIsLast(vs[0], al, ss, se + 1);
      EmitFew(vs[0], al, se, Eob(vs[0], al, ss, se + 1), ss, 0, []);
      var e, b := if f.open then 1 else 0, f.tail;
      if f.items != [] {
        SettleFew(vs[1..], e, b, al, ss, se);
        FewMore(f.items, se + 1 - ss, 63, 1, 1);
        FewPlus(EobItems(eobrun, be), One(eobrun), f.items, 63, 1);
        FewPlus(EobItems(eobrun, be) + f.items, One(eobrun) + 63, Settle(vs[1..], e, b, al, ss, se), 64 * |vs[1..]| + e, 1);
        FewMore(Scan(vs, eobrun, be, al, ss, se), One(eobrun) + 63 + (64 * |vs[1..]| + e), 64 * |vs| + One(eobrun), 1, 1);
      } else {
        SettleFew(vs[1..], eobrun + 1, be + f.tail, al, ss, se);
        FewMore(Scan(vs, eobrun, be, al, ss, se), 64 * |vs[1..]| + 1, 64 * |vs| + One(eobrun), 1, 1);
      }
    }
  }

  lemma {:induction false} SettleFew(vs: seq<seq<int>>, eobrun: nat, be: seq<bit>, al: nat, ss: nat, se: nat)
    requires 1 <= ss <= se < DCTSIZE2 && Bands(vs) && eobrun <= MAX_RUN
    ensures Few(Settle(vs, eobrun, be, al, ss, se), 64 * |vs| + One(eobrun), 1)
    ensures vs != [] || eobrun > 0 ==> Settle(vs, eobrun, be, al, ss, se) != []
    decreases |vs|, 1
  {
    hide Few, EobItems, Scan;
    if MustFlush(eobrun, |be|) {
      RunFew(eobrun, be);
      FewMore(EobItems(eobrun, be), One(eobrun), One(eobrun), 0, 1);
      ScanFew(vs, 0, [], al, ss, se);
      FewPlus(EobItems(eobrun, be), One(eobrun), Scan(vs, 0, [], al, ss, se), 64 * |vs|, 1);
    } else {
      ScanFew(vs, eobrun, be, al, ss, se);
    }
  }

  lemma {:induction false} FirstItemsFew(v: seq<int>, al: nat, ss: nat, se: nat, top: nat, k: nat, r: nat)
    requires SequentialSpec.IsBlock(v) && |v| == DCTSIZE2 && ss <= k <= top <= se + 1 <= DCTSIZE2 && InRange(v, al, ss, se)
    ensures Few(FirstItems(v, al, top, k, r), top - k + r, 10)
    decreases top - k, r
  {
    hide Few, Mag, SequentialSpec.IsBlock, SequentialSpec.NBits, SequentialSpec.ValueBits;
    FewNone(10);
    if k == top {
      FewMore([], 0, r, 10, 10);
    } else if Mag(v[k], al) == 0 {
      FirstItemsFew(v, al, ss, se, top, k + 1, r + 1);
    } else if r > 15 {
      FirstItemsFew(v, al, ss, se, top, k, r - 16);
      var rest := FirstItems(v, al, top, k, r - 16);
      FewOne(ZRL, [], 10);
      assert [Sym(ZRL)] + [] == [Sym(ZRL)];
      FewPlus([Sym(ZRL)], 1, rest, top - k + r - 16, 10);
      FewMore([Sym(ZRL)] + rest, top - k + r - 15, top - k + r, 10, 10);
    } else {
      FirstItemsFew(v, al, ss, se, top, k + 1, 0);
      var rest := FirstItems(v, al, top, k + 1, 0);
      InBounds(v, k);
      CoefficientFew(v[k], al, r);
      FewPlus(Coefficient(v[k], al, r), 1, rest, top - k - 1, 10);
      FewMore(Coefficient(v[k], al, r) + rest, top - k, top - k + r, 10, 10);
    }
  }

  lemma InBounds(v: seq<int>, k: nat)
    requires SequentialSpec.IsBlock(v) && k < DCTSIZE2
    ensures -0x8000 < v[k] < 0x8000
  {
  }

  lemma CoefficientFew(x: int, al: nat, r: nat)
    requires r <= 15 && -0x8000 < x < 0x8000 && SequentialSpec.NBits(Mag(x, al)) <= 10
    ensures Few(Coefficient(x, al, r), 1, 10)
  {
    hide Few, Mag, SequentialSpec.NBits, SequentialSpec.ValueBits;
    var n := SequentialSpec.NBits(Mag(x, al));
    SmallMag(x, al);
    var raws := [Raw(SequentialSpec.ValueBits(Point(x, al)))];
    FewOne(16 * r + n, raws, 10);
    assert Coefficient(x, al, r) == [Sym(16 * r + n)] + raws;
  }

  /** So does a first pass, of sizes up to ten. */
  lemma {:induction false} FirstScanFew(vs: seq<seq<int>>, n: nat, al: nat, ss: nat, se: nat)
    requires 1 <= ss <= se < DCTSIZE2 && AllBlocks(vs) && Bands(vs) && n < MAX_RUN
    requires forall i :: 0 <= i < |vs| ==> InRange(vs[i], al, ss, se)
    ensures Few(FirstScan(vs, n, al, ss, se), 64 * |vs| + One(n), 10)
    ensures vs != [] || n > 0 ==> FirstScan(vs, n, al, ss, se) != []
    decreases |vs|, 0
  {
    hide Few, Mag, EobItems, FirstSettle, FirstItems, SequentialSpec.IsBlock, InRange, Top;
    RunFew(n, []);
    FewMore(EobItems(n, []), One(n), One(n), 0, 10);
    if vs != [] {
      var items := BlockItems(vs[0], al, ss, se);
      var top := Top(vs[0], al, ss, se + 1);
      FirstItemsFew(vs[0], al, ss, se, top, ss, 0);
      var e := OpenEnd(vs[0], al, ss, se);
      if items != [] {
        FirstSettleFew(vs[1..], e, al, ss, se);
        FewMore(items, top - ss, 63, 10, 10);
        FewPlus(EobItems(n, []), One(n), items, 63, 10);
        FewPlus(EobItems(n, []) + items, One(n) + 63, FirstSettle(vs[1..], e, al, ss, se), 64 * |vs[1..]| + e, 10);
        FewMore(FirstScan(vs, n, al, ss, se), One(n) + 63 + (64 * |vs[1..]| + e), 64 * |vs| + One(n), 10, 10);
      } else {
        FirstSettleFew(vs[1..], n + 1, al, ss, se);
        FewMore(FirstScan(vs, n, al, ss, se), 64 * |vs[1..]| + 1, 64 * |vs| + One(n), 10, 10);
      }
    }
  }

  lemma {:induction false} FirstSettleFew(vs: seq<seq<int>>, n: nat, al: nat, ss: nat, se: nat)
    requires 1 <= ss <= se < DCTSIZE2 && AllBlocks(vs) && Bands(vs) && n <= MAX_RUN
    requires forall i :: 0 <= i < |vs| ==> InRange(vs[i], al, ss, se)
    ensures Few(FirstSettle(vs, n, al, ss, se), 64 * |vs| + One(n), 10)
    ensures vs != [] || n > 0 ==> FirstSettle(vs, n, al, ss, se) != []
    decreases |vs|, 1
  {
    hide Few, EobItems, FirstScan, InRange, SequentialSpec.IsBlock;
    if n == MAX_RUN {
      RunFew(n, []);
      FewMore(EobItems(n, []), One(n), One(n), 0, 10);
      FirstScanFew(vs, 0, al, ss, se);
      FewPlus(EobItems(n, []), One(n), FirstScan(vs, 0, al, ss, se), 64 * |vs|, 10);
    } else {
      FirstScanFew(vs, n, al, ss, se);
    }
  }
}
