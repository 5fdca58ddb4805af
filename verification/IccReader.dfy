/** jpeg_read_icc_profile of jdicc.c. */
module IccReader {

  import opened Wrappers
  import opened CodeString
  import opened IccProfile

  /** What the reader has noted about the ICC markers s: which numbers have come, and how much
  data each brings. */
  ghost predicate Noted(present: seq<bool>, length: seq<nat>, s: seq<icc>) {
    && |present| == |length| == MAX_SEQ_NO + 1 && Consistent(s)
    && forall q :: 0 <= q <= MAX_SEQ_NO ==> (present[q] <==> Has(s, q)) && (present[q] ==> length[q] == |Part(s, q)|)
  }

  /** One more consistent marker. */
  lemma ConsistentNext(s: seq<icc>, m: icc)
    ensures Consistent(s + [m]) <==>
      Consistent(s) && !Has(s, SeqNo(m)) && (s != [] ==> Count(m) == Count(s[0])) && 1 <= SeqNo(m) <= Count(m)
  {
    hide IsIcc, SeqNo, Count;
    var t := s + [m];
    assert t[|s|] == m;
    assert forall i :: 0 <= i < |s| ==> t[i] == s[i];
    if Consistent(t) {
      assert forall i :: 0 <= i < |s| ==> SeqNo(t[i]) != SeqNo(t[|s|]);
      if s != [] {
        assert t[0] == s[0];
      }
    }
  }

  lemma NotedNext(present: seq<bool>, length: seq<nat>, s: seq<icc>, m: icc)
    requires Noted(present, length, s) && Consistent(s + [m])
    ensures Noted(present[SeqNo(m) := true], length[SeqNo(m) := |m.data| - ICC_OVERHEAD_LEN], s + [m])
  {
    hide IsIcc, SeqNo;
    var t := s + [m];
    assert t[..|s|] == s && t[|s|] == m;
    IccShape(m);
    forall q | 0 <= q <= MAX_SEQ_NO
      ensures Has(t, q) <==> Has(s, q) || q == SeqNo(m)
      ensures Part(t, q) == if SeqNo(m) == q then Payload(m) else Part(s, q)
    {
      if Has(s, q) {
        var i :| 0 <= i < |s| && SeqNo(s[i]) == q;
        assert t[i] == s[i];
      }
    }
  }

  lemma IccShape(m: icc)
    ensures |m.data| >= ICC_OVERHEAD_LEN && |Payload(m)| == |m.data| - ICC_OVERHEAD_LEN
  {
  }

  lemma PrefixConsistent(s: seq<icc>, t: seq<icc>)
    requires s <= t && Consistent(t)
    ensures Consistent(s)
  {
    hide IsIcc, SeqNo, Count;
    assert forall i :: 0 <= i < |s| ==> s[i] == t[i];
  }

  /** First pass: check the numbering. */
  method CheckMarkers(ms: seq<Marker>, markerPresent: array<bool>, dataLength: array<nat>) returns (numMarkers: Option<nat>)
    requires markerPresent.Length == dataLength.Length == MAX_SEQ_NO + 1 && forall q :: 0 <= q <= MAX_SEQ_NO ==> !markerPresent[q]
    modifies markerPresent, dataLength
    ensures numMarkers.Some? <==> Consistent(Iccs(ms)) && Iccs(ms) != []
    ensures numMarkers.Some? ==> numMarkers.value == Count(Iccs(ms)[0]) && Noted(markerPresent[..], dataLength[..], Iccs(ms))
  {
    hide IsIcc, SeqNo, Count, Part, Consistent, Has;
    var num: nat := 0;
    NothingNoted(markerPresent[..], dataLength[..]);
    assert ms[..0] == [];
    for i := 0 to |ms|
      invariant Noted(markerPresent[..], dataLength[..], Iccs(ms[..i]))
      invariant num == if Iccs(ms[..i]) == [] then 0 else Count(Iccs(ms[..i])[0])
      invariant num == 0 ==> Iccs(ms[..i]) == []
    {
      ghost var s := Iccs(ms[..i]);
      IccsNext(ms, i);
      IccsPrefix(ms, i + 1);
      assert s + [] == s;
      if IsIcc(ms[i]) {
        var m: icc := ms[i];
        ghost var present, length := markerPresent[..], dataLength[..];
        ConsistentNext(s, m);
        IccShape(m);
        if Consistent(Iccs(ms)) {
          PrefixConsistent(s + [m], Iccs(ms));
        }
        if num == 0 {
          num := Count(m);
        } else if num != Count(m) {
          return None;
        }
        if SeqNo(m) <= 0 || SeqNo(m) > num {
          return None;
        }
        if markerPresent[SeqNo(m)] {
          return None;
        }
        NotedNext(present, length, s, m);
        markerPresent[SeqNo(m)] := true;
        var size: nat := |ms[i].data| - ICC_OVERHEAD_LEN;
        dataLength[SeqNo(m)] := size;
        assert markerPresent[..] == present[SeqNo(m) := true] && dataLength[..] == length[SeqNo(m) := size];
      }
    }
    assert ms[..|ms|] == ms;
    numMarkers := if num == 0 then None else Some(num);
  }

  lemma NothingNoted(present: seq<bool>, length: seq<nat>)
    requires |present| == |length| == MAX_SEQ_NO + 1 && forall q :: 0 <= q <= MAX_SEQ_NO ==> !present[q]
    ensures Noted(present, length, [])
  {
  }

  /** Check for missing markers and lay out the parts. */
  method LayOut(numMarkers: nat, markerPresent: array<bool>, dataLength: array<nat>, dataOffset: array<nat>, ghost s: seq<icc>)
    returns (total: Option<nat>)
    requires markerPresent.Length == dataLength.Length == dataOffset.Length == MAX_SEQ_NO + 1 && numMarkers <= MAX_SEQ_NO
    requires dataOffset != dataLength && Noted(markerPresent[..], dataLength[..], s)
    modifies dataOffset
    ensures total.Some? <==> forall q: nat :: 1 <= q <= numMarkers ==> Has(s, q)
    ensures total.Some? ==> total.value == |Joined(s, numMarkers)|
    ensures total.Some? ==> forall q: nat :: 1 <= q <= numMarkers ==> dataOffset[q] == |Joined(s, q - 1)| && dataLength[q] == |Part(s, q)|
  {
    hide IsIcc, SeqNo, Count, Part, Has, Joined, Noted;
    JoinedNone(s);
    var n: nat := 0;
    var q: nat := 1;
    while q <= numMarkers
      invariant 1 <= q <= numMarkers + 1 && n == |Joined(s, q - 1)|
      invariant Noted(markerPresent[..], dataLength[..], s)
      invariant forall p: nat :: 1 <= p < q ==> Has(s, p)
      invariant forall p: nat :: 1 <= p < q ==> dataOffset[p] == |Joined(s, p - 1)| && dataLength[p] == |Part(s, p)|
    {
      NotedAt(markerPresent[..], dataLength[..], s, q);
      if !markerPresent[q] {
        return None;
      }
      PartFits(s, q, q);
      dataOffset[q] := n;
      n := n + dataLength[q];
      q := q + 1;
    }
    total := Some(n);
  }

  lemma NotedAt(present: seq<bool>, length: seq<nat>, s: seq<icc>, q: nat)
    requires Noted(present, length, s) && q <= MAX_SEQ_NO
    ensures |present| == |length| == MAX_SEQ_NO + 1 && (present[q] <==> Has(s, q)) && (present[q] ==> length[q] == |Part(s, q)|)
  {
  }

  lemma JoinedNone(s: seq<icc>)
    ensures Joined(s, 0) == []
  {
  }

  /** The data of the parts that came with the markers s are in place. */
  ghost predicate Placed(data: seq<byte>, s: seq<icc>, all: seq<icc>, n: nat) {
    forall q: nat :: 1 <= q <= n && Has(s, q) ==> PlacedAt(data, all, q)
  }

  ghost predicate PlacedAt(data: seq<byte>, all: seq<icc>, q: nat)
    requires q > 0
  {
    |Joined(all, q)| <= |data| && data[|Joined(all, q - 1)|..|Joined(all, q)|] == Part(all, q)
  }

  lemma {:induction false} AllPlaced(data: seq<byte>, all: seq<icc>, n: nat)
    requires forall q: nat :: 1 <= q <= n ==> PlacedAt(data, all, q)
    ensures |Joined(all, n)| <= |data| && data[..|Joined(all, n)|] == Joined(all, n)
  {
    hide Part;
    if n > 0 {
      AllPlaced(data, all, n - 1);
      var a, b := |Joined(all, n - 1)|, |Joined(all, n)|;
      assert PlacedAt(data, all, n);
      assert data[..b] == data[..a] + data[a..b];
    }
  }

  /** Copying a part leaves the others alone. */
  lemma OtherPart(was: seq<byte>, data: seq<byte>, all: seq<icc>, p: nat, q: nat)
    requires p > 0 && q > 0 && p != q && PlacedAt(was, all, p) && |data| == |was|
    requires forall i :: 0 <= i < |data| && !(|Joined(all, q - 1)| <= i < |Joined(all, q)|) ==> data[i] == was[i]
    ensures PlacedAt(data, all, p)
  {
    hide Part, IsIcc, SeqNo;
    if p < q {
      JoinedMonotone(all, p, q - 1);
    } else {
      JoinedMonotone(all, q, p - 1);
    }
  }

  /** Copy the data of one marker to its place. */
  method CopyPart(iccData: array<byte>, m: icc, offset: nat, length: nat)
    requires |Payload(m)| == length && offset + length <= iccData.Length
    modifies iccData
    ensures iccData[offset..offset + length] == Payload(m)
    ensures forall i :: 0 <= i < iccData.Length && !(offset <= i < offset + length) ==> iccData[i] == old(iccData[i])
  {
    hide IsIcc;
    IccShape(m);
    var i := 0;
    while i < length
      invariant 0 <= i <= length && forall j :: 0 <= j < i ==> iccData[offset + j] == Payload(m)[j]
      invariant forall j :: 0 <= j < iccData.Length && !(offset <= j < offset + i) ==> iccData[j] == old(iccData[j])
    {
      iccData[offset + i] := m.data[ICC_OVERHEAD_LEN + i];
      i := i + 1;
    }
  }

  /** Second pass: fill in the data. */
  method FillIn(ms: seq<Marker>, iccData: array<byte>, dataLength: array<nat>, dataOffset: array<nat>, ghost n: nat)
    requires dataLength.Length == dataOffset.Length == MAX_SEQ_NO + 1 && n <= MAX_SEQ_NO
    requires Complete(Iccs(ms)) && n == Count(Iccs(ms)[0]) && iccData.Length == |Joined(Iccs(ms), n)|
    requires forall q: nat :: 1 <= q <= n ==> dataOffset[q] == |Joined(Iccs(ms), q - 1)| && dataLength[q] == |Part(Iccs(ms), q)|
    modifies iccData
    ensures iccData[..] == Joined(Iccs(ms), n)
  {
    hide IsIcc, SeqNo, Count, Part, Payload, PlacedAt, Joined;
    ghost var all := Iccs(ms);
    NothingPlaced(iccData[..], all, n);
    assert ms[..0] == [];
    for i := 0 to |ms|
      invariant Placed(iccData[..], Iccs(ms[..i]), all, n)
    {
      ghost var s := Iccs(ms[..i]);
      IccsNext(ms, i);
      IccsPrefix(ms, i + 1);
      if IsIcc(ms[i]) {
        var m: icc := ms[i];
        ghost var q: nat := SeqNo(m);
        assert all[|s|] == m;
        PartOf(all, |s|);
        PartFits(all, q, n);
        ghost var was := iccData[..];
        CopyPart(iccData, m, dataOffset[SeqNo(m)], dataLength[SeqNo(m)]);
        PlacedNext(was, iccData[..], s, m, all, n);
      }
    }
    assert ms[..|ms|] == ms;
    AllPlaced(iccData[..], all, n);
    assert iccData[..][..iccData.Length] == iccData[..];
  }

  lemma NothingPlaced(data: seq<byte>, all: seq<icc>, n: nat)
    ensures Placed(data, [], all, n)
  {
  }

  lemma PartFits(all: seq<icc>, q: nat, n: nat)
    requires 1 <= q <= n
    ensures |Joined(all, q - 1)| + |Part(all, q)| == |Joined(all, q)| <= |Joined(all, n)|
  {
    hide Part;
    JoinedMonotone(all, q, n);
  }

  lemma PlacedNext(was: seq<byte>, data: seq<byte>, s: seq<icc>, m: icc, all: seq<icc>, n: nat)
    requires Placed(was, s, all, n) && |data| == |was| == |Joined(all, n)| && 1 <= SeqNo(m) <= n
    requires var a, b := |Joined(all, SeqNo(m) - 1)|, |Joined(all, SeqNo(m))|;
      && a <= b <= |data| && data[a..b] == Part(all, SeqNo(m))
      && forall i :: 0 <= i < |data| && !(a <= i < b) ==> data[i] == was[i]
    ensures Placed(data, s + [m], all, n)
  {
    hide IsIcc, SeqNo, Part, Joined;
    var t := s + [m];
    forall q: nat | 1 <= q <= n && Has(t, q)
      ensures PlacedAt(data, all, q)
    {
      if q != SeqNo(m) {
        var i :| 0 <= i < |t| && SeqNo(t[i]) == q;
        assert i < |s| && s[i] == t[i];
        assert Has(s, q) && PlacedAt(was, all, q);
        OtherPart(was, data, all, q, SeqNo(m));
      }
    }
  }

  /** jpeg_read_icc_profile: the joined profile exactly if the ICC markers among the saved ones
  are complete, consistent and not all empty. */
  method ReadIccProfile(ms: seq<Marker>) returns (profile: Option<seq<byte>>)
    ensures profile.Some? <==> Complete(Iccs(ms)) && Joined(Iccs(ms), Count(Iccs(ms)[0])) != []
    ensures profile.Some? ==> profile.value == Joined(Iccs(ms), Count(Iccs(ms)[0]))
  {
    hide IsIcc, SeqNo, Part, Joined, Iccs, Consistent, Noted;
    var markerPresent := new bool[MAX_SEQ_NO + 1](_ => false);
    var dataLength := new nat[MAX_SEQ_NO + 1];
    var dataOffset := new nat[MAX_SEQ_NO + 1];
    var numMarkers := CheckMarkers(ms, markerPresent, dataLength);
    if numMarkers.None? {
      return None;
    }
    var total := LayOut(numMarkers.value, markerPresent, dataLength, dataOffset, Iccs(ms));
    if total.None? || total.value == 0 {
      return None;
    }
    var iccData := new byte[total.value](_ => 0);
    FillIn(ms, iccData, dataLength, dataOffset, numMarkers.value);
    profile := Some(iccData[..]);
  }

  /** ICC round trip: the markers written for a profile, in any order and among any markers that
  are not ICC markers, are read back as the profile exactly if its length is at most 255 times
  the room in a marker; a longer one is rejected. */
  method RoundTrip(profile: seq<byte>, ms: seq<Marker>) returns (back: Option<seq<byte>>)
    requires profile != [] && multiset(Iccs(ms)) == multiset(Split(profile))
    ensures back == if |profile| <= MAX_SEQ_NO * MAX_DATA_BYTES_IN_MARKER then Some(profile) else None
  {
    hide IsIcc, SeqNo, Part, Joined, Iccs, Split, Complete, Count;
    back := ReadIccProfile(ms);
    NeededIff(profile);
    if |profile| <= MAX_SEQ_NO * MAX_DATA_BYTES_IN_MARKER {
      AnyOrder(Iccs(ms), profile);
    } else {
      TooLong(Iccs(ms), profile);
    }
  }

  lemma NeededIff(profile: seq<byte>)
    ensures Needed(profile) <= MAX_SEQ_NO <==> |profile| <= MAX_SEQ_NO * MAX_DATA_BYTES_IN_MARKER
  {
  }
}
