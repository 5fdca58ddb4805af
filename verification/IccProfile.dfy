/** ICC profiles in APP2 markers: jcicc.c splits them, jdicc.c puts them together again. */
module IccProfile {

  import opened Wrappers
  import opened CodeString

  datatype Marker = Marker(code: nat, data: seq<byte>)

  const ICC_MARKER := 0xE2
  const ICC_OVERHEAD_LEN := 14
  const MAX_DATA_BYTES_IN_MARKER := 65519
  const MAX_SEQ_NO := 255

  /** "ICC_PROFILE", null-terminated. */
  const IDENT: seq<byte> := [0x49, 0x43, 0x43, 0x5F, 0x50, 0x52, 0x4F, 0x46, 0x49, 0x4C, 0x45, 0]

  /** marker_is_icc. */
  predicate IsIcc(m: Marker) {
    m.code == ICC_MARKER && |m.data| >= ICC_OVERHEAD_LEN && m.data[..12] == IDENT
  }

  type icc = m: Marker | IsIcc(m) witness Marker(ICC_MARKER, IDENT + [0, 0])

  function SeqNo(m: icc): byte {
    m.data[12]
  }

  function Count(m: icc): byte {
    m.data[13]
  }

  function Payload(m: icc): seq<byte> {
    m.data[ICC_OVERHEAD_LEN..]
  }

  /** The ICC markers among others. */
  function Iccs(ms: seq<Marker>): (s: seq<icc>) {
    if ms == [] then []
    else Iccs(ms[..|ms| - 1]) + if IsIcc(ms[|ms| - 1]) then [ms[|ms| - 1]] else []
  }

  /** Sequence numbers and marker counts are as they should be. */
  ghost predicate Consistent(s: seq<icc>) {
    && (forall i :: 0 <= i < |s| ==> Count(s[i]) == Count(s[0]) && 1 <= SeqNo(s[i]) <= Count(s[0]))
    && forall i, j :: 0 <= i < j < |s| ==> SeqNo(s[i]) != SeqNo(s[j])
  }

  ghost predicate Has(s: seq<icc>, q: nat) {
    exists i :: 0 <= i < |s| && SeqNo(s[i]) == q
  }

  /** All markers are there, each once. */
  ghost predicate Complete(s: seq<icc>) {
    s != [] && Consistent(s) && forall q: nat :: 1 <= q <= Count(s[0]) ==> Has(s, q)
  }

  /** The data of the marker with a sequence number. */
  function Part(s: seq<icc>, q: nat): seq<byte> {
    if s == [] then [] else if SeqNo(s[|s| - 1]) == q then Payload(s[|s| - 1]) else Part(s[..|s| - 1], q)
  }

  /** The parts 1 to n in order. */
  function Joined(s: seq<icc>, n: nat): seq<byte> {
    if n == 0 then [] else Joined(s, n - 1) + Part(s, n)
  }

  lemma {:induction false} PartOf(s: seq<icc>, i: nat)
    requires Consistent(s) && i < |s|
    ensures Part(s, SeqNo(s[i])) == Payload(s[i])
  {
    if i < |s| - 1 {
      PartOf(s[..|s| - 1], i);
    }
  }

  lemma {:induction false} JoinedMonotone(s: seq<icc>, a: nat, b: nat)
    requires a <= b
    ensures |Joined(s, a)| <= |Joined(s, b)| && Joined(s, b)[..|Joined(s, a)|] == Joined(s, a)
  {
    if a < b {
      JoinedMonotone(s, a, b - 1);
    }
  }

  lemma {:induction false} IccsPrefix(ms: seq<Marker>, n: nat)
    requires n <= |ms|
    ensures Iccs(ms[..n]) <= Iccs(ms)
  {
    if n < |ms| {
      IccsPrefix(ms[..|ms| - 1], n);
      assert ms[..|ms| - 1][..n] == ms[..n];
    } else {
      assert ms[..n] == ms;
    }
  }

  lemma IccsNext(ms: seq<Marker>, n: nat)
    requires n < |ms|
    ensures Iccs(ms[..n + 1]) == Iccs(ms[..n]) + if IsIcc(ms[n]) then [ms[n]] else []
  {
    assert ms[..n + 1][..n] == ms[..n];
  }

  function Min(a: int, b: int): int {
    if a < b then a else b
  }

  /** Where part q of a profile ends. */
  function End(profile: seq<byte>, q: nat): (e: nat)
    ensures e <= |profile|
  {
    Min(q * MAX_DATA_BYTES_IN_MARKER, |profile|)
  }

  function Chunk(profile: seq<byte>, q: nat): seq<byte>
    requires q > 0
  {
    profile[End(profile, q - 1)..End(profile, q)]
  }

  /** Marker q of n; both numbers are written as single bytes. */
  function MarkerFor(profile: seq<byte>, q: nat, n: nat): (m: icc)
    requires q > 0
    ensures SeqNo(m) == q % 256 && Count(m) == n % 256 && Payload(m) == Chunk(profile, q)
  {
    var m := Marker(ICC_MARKER, IDENT + [q % 256, n % 256] + Chunk(profile, q));
    assert m.data[..12] == IDENT;
    m
  }

  function Needed(profile: seq<byte>): nat {
    var n := |profile| / MAX_DATA_BYTES_IN_MARKER;
    if n * MAX_DATA_BYTES_IN_MARKER != |profile| then n + 1 else n
  }

  function SplitUpTo(profile: seq<byte>, n: nat, k: nat): (s: seq<icc>)
    ensures |s| == k && forall i :: 0 <= i < k ==> s[i] == MarkerFor(profile, i + 1, n)
  {
    if k == 0 then [] else SplitUpTo(profile, n, k - 1) + [MarkerFor(profile, k, n)]
  }

  function Split(profile: seq<byte>): (s: seq<icc>) {
    SplitUpTo(profile, Needed(profile), Needed(profile))
  }

  /** One marker: identifying string, sequence numbers, data. */
  method WriteMarker(profile: seq<byte>, at: nat, length: nat, curMarker: nat, numMarkers: nat) returns (m: Marker, next: nat)
    requires 0 < curMarker && at == End(profile, curMarker - 1) && at + length == End(profile, curMarker)
    ensures next == End(profile, curMarker) && m == MarkerFor(profile, curMarker, numMarkers)
  {
    var data: seq<byte> := IDENT + [curMarker % 256, numMarkers % 256];
    ghost var head := data;
    next := at;
    var left := length;
    while left > 0
      invariant 0 <= left && at <= next && next + left == End(profile, curMarker) && data == head + profile[at..next]
      decreases left
    {
      data := data + [profile[next]];
      next, left := next + 1, left - 1;
    }
    m := Marker(ICC_MARKER, data);
  }

  /** jpeg_write_icc_profile. */
  method WriteIccProfile(profile: seq<byte>) returns (markers: Option<seq<Marker>>)
    ensures markers.None? <==> profile == []
    ensures markers.Some? ==> markers.value == Split(profile)
  {
    hide IsIcc, MarkerFor;
    if |profile| == 0 {
      return None;
    }
    var numMarkers := |profile| / MAX_DATA_BYTES_IN_MARKER;
    if numMarkers * MAX_DATA_BYTES_IN_MARKER != |profile| {
      numMarkers := numMarkers + 1;
    }
    var curMarker, at := 1, 0;
    var out: seq<Marker> := [];
    while at < |profile|
      invariant curMarker == |out| + 1 && at == End(profile, |out|) && out == SplitUpTo(profile, numMarkers, |out|)
      invariant |out| <= numMarkers
      decreases |profile| - at
    {
      var length := |profile| - at;
      if length > MAX_DATA_BYTES_IN_MARKER {
        length := MAX_DATA_BYTES_IN_MARKER;
      }
      var m;
      m, at := WriteMarker(profile, at, length, curMarker, numMarkers);
      out := out + [m];
      curMarker := curMarker + 1;
    }
    markers := Some(out);
  }

  lemma EndsInOrder(profile: seq<byte>, k: nat)
    ensures End(profile, 0) == 0 && (k > 0 ==> End(profile, k - 1) <= End(profile, k))
  {
  }

  lemma {:induction false} ChunksJoin(s: seq<icc>, profile: seq<byte>, n: nat, k: nat)
    requires k <= n && forall q :: 1 <= q <= n ==> Part(s, q) == Chunk(profile, q)
    ensures Joined(s, k) == profile[..End(profile, k)]
  {
    hide Part, End;
    EndsInOrder(profile, k);
    if k > 0 {
      ChunksJoin(s, profile, n, k - 1);
      assert profile[..End(profile, k - 1)] + profile[End(profile, k - 1)..End(profile, k)] == profile[..End(profile, k)];
    }
  }

  /** The markers of a profile of up to 255 parts are told apart by their numbers. */
  lemma OfSplit(profile: seq<byte>, m: icc)
    requires profile != [] && Needed(profile) <= MAX_SEQ_NO && m in multiset(Split(profile))
    ensures Count(m) == Needed(profile) && 1 <= SeqNo(m) <= Count(m) && m == Split(profile)[SeqNo(m) - 1]
    ensures multiset(Split(profile))[m] == 1
  {
    var w := Split(profile);
    hide IsIcc, MarkerFor, Chunk, Split, SeqNo, Count;
    SplitNumbered(profile);
    assert m in w;
    var i :| 0 <= i < |w| && w[i] == m;
    Once(w, i);
  }

  lemma SplitNumbered(profile: seq<byte>)
    requires Needed(profile) <= MAX_SEQ_NO
    ensures var w := Split(profile);
      |w| == Needed(profile)
      && forall i :: 0 <= i < |w| ==> SeqNo(w[i]) == i + 1 && Count(w[i]) == |w| && Payload(w[i]) == Chunk(profile, i + 1)
  {
    hide IsIcc, MarkerFor, Chunk, SeqNo, Count, Payload;
  }

  lemma Once(w: seq<icc>, i: nat)
    requires i < |w| && forall j :: 0 <= j < |w| && w[j] == w[i] ==> j == i
    ensures multiset(w)[w[i]] == 1
  {
    hide IsIcc;
    var before, after := w[..i], w[i + 1..];
    assert w == before + [w[i]] + after;
    assert w[i] !in before && w[i] !in after;
  }

  /** The markers of a profile in some order. */
  ghost predicate Shuffled(s: seq<icc>, profile: seq<byte>) {
    profile != [] && Needed(profile) <= MAX_SEQ_NO && multiset(s) == multiset(Split(profile))
  }

  lemma ShuffledAt(s: seq<icc>, profile: seq<byte>, i: nat)
    requires Shuffled(s, profile) && i < |s|
    ensures Count(s[i]) == Needed(profile) && 1 <= SeqNo(s[i]) <= Needed(profile)
    ensures multiset(s)[s[i]] == 1 && s[i] == Split(profile)[SeqNo(s[i]) - 1]
  {
    hide IsIcc, Split, Needed;
    assert s[i] in multiset(s);
    OfSplit(profile, s[i]);
  }

  lemma ShuffledOnce(s: seq<icc>, profile: seq<byte>, i: nat, j: nat)
    requires Shuffled(s, profile) && i < j < |s|
    ensures SeqNo(s[i]) != SeqNo(s[j])
  {
    hide IsIcc, Split, Needed, Shuffled, SeqNo, Count;
    ShuffledAt(s, profile, i);
    ShuffledAt(s, profile, j);
    if SeqNo(s[i]) == SeqNo(s[j]) {
      Twice(s, i, j);
    }
  }

  lemma ShuffledHas(s: seq<icc>, profile: seq<byte>, q: nat)
    requires Shuffled(s, profile) && Consistent(s) && 1 <= q <= Needed(profile)
    ensures Has(s, q) && Part(s, q) == Chunk(profile, q)
  {
    var w := Split(profile);
    hide IsIcc, Split, Needed, SeqNo, Count, Payload, Chunk, Part, Consistent;
    SplitNumbered(profile);
    assert w[q - 1] in multiset(w);
    assert w[q - 1] in s;
    var i :| 0 <= i < |s| && s[i] == w[q - 1];
    PartOf(s, i);
  }

  /** In whatever order the markers of a profile come, they are complete and join to the
  profile. */
  lemma AnyOrder(s: seq<icc>, profile: seq<byte>)
    requires Shuffled(s, profile)
    ensures Complete(s) && Count(s[0]) == Needed(profile) && Joined(s, Count(s[0])) == profile
  {
    var n := Needed(profile);
    EndOfLast(profile);
    hide IsIcc, Shuffled, Chunk, SeqNo, Count, Payload, Needed, End, Part;
    forall i | 0 <= i < |s|
      ensures Count(s[i]) == n && 1 <= SeqNo(s[i]) <= n
    {
      ShuffledAt(s, profile, i);
    }
    forall i, j | 0 <= i < j < |s|
      ensures SeqNo(s[i]) != SeqNo(s[j])
    {
      ShuffledOnce(s, profile, i, j);
    }
    forall q: nat | 1 <= q <= n
      ensures Has(s, q) && Part(s, q) == Chunk(profile, q)
    {
      ShuffledHas(s, profile, q);
    }
    assert Has(s, 1);
    ChunksJoin(s, profile, n, n);
  }

  lemma EndOfLast(profile: seq<byte>)
    requires profile != []
    ensures Needed(profile) >= 1 && profile[..End(profile, Needed(profile))] == profile
  {
  }

  lemma Twice(s: seq<icc>, i: nat, j: nat)
    requires i < j < |s| && s[i] == s[j]
    ensures multiset(s)[s[i]] >= 2
  {
    assert s == s[..i] + [s[i]] + s[i + 1..j] + [s[j]] + s[j + 1..];
  }

  /** A profile of more than 255 parts cannot come back: its 256th marker is numbered 0. */
  lemma TooLong(s: seq<icc>, profile: seq<byte>)
    requires Needed(profile) > MAX_SEQ_NO && multiset(s) == multiset(Split(profile))
    ensures !Complete(s)
  {
    var m := Split(profile)[255];
    assert m in multiset(Split(profile));
    assert m in s;
    assert SeqNo(m) == 0;
  }

  /** Annex B.4 of the ICC specification as both sides apply it: marker code APP2, the identifier,
  the number of the marker and their total in a byte each, then at most 65519 bytes of profile. */
  lemma FormatLaw(profile: seq<byte>, i: nat)
    requires profile != [] && i < |Split(profile)|
    ensures 65519 * (|Split(profile)| - 1) < |profile| <= 65519 * |Split(profile)|
    ensures var m: Marker := Split(profile)[i];
      var from, to := 65519 * i, if 65519 * (i + 1) < |profile| then 65519 * (i + 1) else |profile|;
      && m.code == 0xE2
      && m.data == [0x49, 0x43, 0x43, 0x5F, 0x50, 0x52, 0x4F, 0x46, 0x49, 0x4C, 0x45, 0, (i + 1) % 256, |Split(profile)| % 256]
         + profile[from..to]
  {
    var n := Needed(profile);
    assert Split(profile)[i] == MarkerFor(profile, i + 1, n);
  }

  /** What the reader takes for a marker of a profile, and where it looks for its parts. */
  lemma ReadLaw(m: Marker)
    ensures IsIcc(m) <==>
      m.code == 0xE2 && |m.data| >= 14
      && m.data[..12] == [0x49, 0x43, 0x43, 0x5F, 0x50, 0x52, 0x4F, 0x46, 0x49, 0x4C, 0x45, 0]
    ensures IsIcc(m) ==> SeqNo(m) == m.data[12] && Count(m) == m.data[13] && Payload(m) == m.data[14..]
  {
  }
}
