/** Entropy-coded bytes as a bit stream: stuffed zeros dropped, padding FF bytes skipped,
ended by a marker. */
module BitStream {

  import opened Wrappers
  import opened CodeString
  import opened PrefixCode

  /** What the next bytes of a source say: a data byte, a marker, or too little to tell. */
  datatype Fetch = Dry | Data(b: byte, rest: seq<byte>) | Marker(m: byte, rest: seq<byte>)

  function Next(s: seq<byte>): (f: Fetch)
    ensures f.Data? || f.Marker? ==> |f.rest| < |s| && s[|s| - |f.rest|..] == f.rest
    ensures f.Marker? ==> 0 < f.m < 255
  {
    if s == [] then Dry else if s[0] == 255 then AfterFF(s[1..]) else Data(s[0], s[1..])
  }

  /** Any number of FF bytes may precede a stuffed zero or a marker code. */
  function AfterFF(s: seq<byte>): (f: Fetch)
    ensures f.Data? || f.Marker? ==> |f.rest| < |s| && s[|s| - |f.rest|..] == f.rest
    ensures f.Marker? ==> 0 < f.m < 255
  {
    if s == [] then Dry
    else if s[0] == 255 then AfterFF(s[1..])
    else if s[0] == 0 then Data(255, s[1..])
    else Marker(s[0], s[1..])
  }

  /** The data bits up to the first marker, or up to the end of what is there. */
  function Payload(s: seq<byte>): seq<bit>
    decreases |s|
  {
    match Next(s)
    case Data(b, rest) => BitsOf(b, 8) + Payload(rest)
    case _ => []
  }

  /** A marker ends the data. */
  predicate Ended(s: seq<byte>)
    decreases |s|
  {
    match Next(s)
    case Data(b, rest) => Ended(rest)
    case Marker(_, _) => true
    case Dry => false
  }

  lemma {:induction false} AfterFFMore(s: seq<byte>, more: seq<byte>)
    requires !AfterFF(s).Dry?
    ensures AfterFF(s + more) == AfterFF(s).(rest := AfterFF(s).rest + more)
  {
    assert (s + more)[1..] == s[1..] + more;
    if s[0] == 255 {
      AfterFFMore(s[1..], more);
    }
  }

  lemma NextMore(s: seq<byte>, more: seq<byte>)
    requires !Next(s).Dry?
    ensures Next(s + more) == Next(s).(rest := Next(s).rest + more)
  {
    assert (s + more)[1..] == s[1..] + more;
    if s[0] == 255 {
      AfterFFMore(s[1..], more);
    }
  }

  /** No FF data byte is written with more FF bytes than one in front of its stuffed zero. */
  ghost predicate Plain(s: seq<byte>)
    decreases |s|
  {
    match Next(s)
    case Data(b, rest) => (b == 255 ==> |s| == |rest| + 2) && Plain(rest)
    case _ => true
  }

  /** The first marker behind the data, and the bytes behind it. */
  function MarkerIn(s: seq<byte>): Option<(byte, seq<byte>)>
    decreases |s|
  {
    match Next(s)
    case Data(b, rest) => MarkerIn(rest)
    case Marker(m, rest) => Some((m, rest))
    case Dry => None
  }

  /** More input only ever adds bits at the end, and none behind a marker. */
  lemma {:induction false} PayloadMore(s: seq<byte>, more: seq<byte>)
    ensures Payload(s) <= Payload(s + more)
    ensures Ended(s) ==> Payload(s + more) == Payload(s) && Ended(s + more)
    decreases |s|
  {
    match Next(s)
    case Data(b, rest) =>
      NextMore(s, more);
      PayloadMore(rest, more);
    case Marker(_, _) => NextMore(s, more);
    case Dry =>
  }

  /** The bits of a byte string. */
  function ByteBits(s: seq<byte>): seq<bit> {
    if s == [] then [] else ByteBits(s[..|s| - 1]) + BitsOf(s[|s| - 1], 8)
  }

  lemma ByteBitsLast(data: seq<byte>, c: byte)
    ensures ByteBits(data + [c]) == ByteBits(data) + BitsOf(c, 8)
  {
    hide BitsOf;
    assert (data + [c])[..|data|] == data;
  }

  lemma {:induction false} ByteBitsPlus(s: seq<byte>, t: seq<byte>)
    ensures ByteBits(s + t) == ByteBits(s) + ByteBits(t)
  {
    hide BitsOf;
    if t == [] {
      assert s + t == s;
    } else {
      var u, b := t[..|t| - 1], t[|t| - 1];
      ByteBitsPlus(s, u);
      assert (s + t)[..|s + t| - 1] == s + u;
      Assoc(ByteBits(s), ByteBits(u), BitsOf(b, 8));
    }
  }

  lemma ByteBitsHead(b: byte, t: seq<byte>)
    ensures ByteBits([b] + t) == BitsOf(b, 8) + ByteBits(t)
  {
    ByteBitsPlus([b], t);
    assert [b][..0] == [];
  }

  lemma NextOfStuffed(b: byte, t: seq<byte>)
    ensures Next(StuffOne(b) + t) == Data(b, t)
  {
    var s := StuffOne(b) + t;
    if b == 255 {
      assert s[1..] == [0] + t;
      assert s[1..][1..] == t;
    } else {
      assert s[1..] == t;
    }
  }

  lemma NothingStuffed()
    ensures Stuff([]) == [] && ByteBits([]) == []
  {
  }

  lemma MarkerEnds(m: byte, rest: seq<byte>)
    requires 0 < m < 255
    ensures Payload([255, m] + rest) == [] && Ended([255, m] + rest)
    ensures MarkerIn([255, m] + rest) == Some((m, rest))
  {
    assert ([255, m] + rest)[1..] == [m] + rest;
    assert ([m] + rest)[1..] == rest;
  }

  /** Stuffing is undone by reading, and the marker behind the data is found. */
  lemma {:induction false} PayloadOfStuffed(s: seq<byte>, m: byte, rest: seq<byte>)
    requires 0 < m < 255
    ensures Payload(Stuff(s) + ([255, m] + rest)) == ByteBits(s) && Ended(Stuff(s) + ([255, m] + rest))
    ensures MarkerIn(Stuff(s) + ([255, m] + rest)) == Some((m, rest))
  {
    hide Payload, Ended, MarkerIn, Stuff, ByteBits;
    var tail := [255, m] + rest;
    if s == [] {
      NothingStuffed();
      assert [] + tail == tail;
      MarkerEnds(m, rest);
    } else {
      PayloadOfStuffed(s[1..], m, rest);
      PayloadStep(s, tail);
    }
  }

  lemma PayloadStep(s: seq<byte>, tail: seq<byte>)
    requires s != []
    ensures Payload(Stuff(s) + tail) == BitsOf(s[0], 8) + Payload(Stuff(s[1..]) + tail)
    ensures Ended(Stuff(s) + tail) == Ended(Stuff(s[1..]) + tail)
    ensures MarkerIn(Stuff(s) + tail) == MarkerIn(Stuff(s[1..]) + tail)
    ensures ByteBits(s) == BitsOf(s[0], 8) + ByteBits(s[1..])
  {
    hide BitsOf, Stuff, ByteBits, StuffOne, Next;
    var b, t := s[0], s[1..];
    assert s == [b] + t;
    StuffHead(b, t);
    ByteBitsHead(b, t);
    NextOfStuffed(b, Stuff(t) + tail);
    Assoc(StuffOne(b), Stuff(t), tail);
  }

  /** The low n bits of v, `v & ((1 << n) - 1)`. */
  function Low(v: nat, n: nat): nat
    decreases n
  {
    if n == 0 then 0 else 2 * Low(v / 2, n - 1) + v % 2
  }

  lemma {:induction false} NumberIsLow(v: nat, n: nat)
    ensures Number(BitsOf(v, n)) == Low(v, n)
  {
    if n > 0 {
      NumberIsLow(v / 2, n - 1);
    }
  }

  /** Keeping m bits keeps the lower n. */
  lemma {:induction false} BitsOfMasked(v: nat, m: nat, n: nat)
    requires n <= m
    ensures BitsOf(Low(v, m), n) == BitsOf(v, n)
    decreases n
  {
    if n > 0 {
      BitsOfMasked(v / 2, m - 1, n - 1);
      assert Low(v, m) / 2 == Low(v / 2, m - 1) && Low(v, m) % 2 == v % 2;
    }
  }

  lemma {:induction false} LowBound(v: nat, n: nat)
    ensures Low(v, n) < Shl(1, n)
  {
    if n > 0 {
      LowBound(v / 2, n - 1);
    }
  }

  lemma {:induction false} ShrHalf(v: nat, i: nat)
    ensures Shr(v / 2, i) == Shr(v, i + 1)
  {
    if i > 0 {
      ShrHalf(v, i - 1);
    }
  }

  /** The upper n of m buffered bits, and the bits below them. */
  lemma {:induction false} BitsSplit(v: nat, m: nat, n: nat)
    requires n <= m
    ensures BitsOf(v, m) == BitsOf(Shr(v, m - n), n) + BitsOf(v, m - n)
    decreases m
  {
    if n == m {
      assert BitsOf(v, 0) == [];
    } else {
      BitsSplit(v / 2, m - 1, n);
      ShrHalf(v, m - 1 - n);
      Assoc(BitsOf(Shr(v, m - n), n), BitsOf(v / 2, m - 1 - n), [v % 2]);
    }
  }

  /** Shifting in n more bits below. */
  lemma {:induction false} BitsJoin(v: nat, m: nat, w: nat, n: nat)
    requires w < Shl(1, n)
    ensures Shl(v, n) >= 0 && BitsOf(Shl(v, n) + w, m + n) == BitsOf(v, m) + BitsOf(w, n)
    decreases n
  {
    if n > 0 {
      BitsJoin(v, m, w / 2, n - 1);
      assert (Shl(v, n) + w) / 2 == Shl(v, n - 1) + w / 2;
      Assoc(BitsOf(v, m), BitsOf(w / 2, n - 1), [w % 2]);
    }
  }

  function Zeros(n: nat): (s: seq<bit>)
    ensures |s| == n
  {
    if n == 0 then [] else Zeros(n - 1) + [0]
  }

  lemma {:induction false} BitsOfZero(n: nat)
    ensures BitsOf(0, n) == Zeros(n)
  {
    if n > 0 {
      BitsOfZero(n - 1);
    }
  }

  lemma {:induction false} ZerosPlus(m: nat, n: nat)
    ensures Zeros(m) + Zeros(n) == Zeros(m + n)
  {
    if n > 0 {
      ZerosPlus(m, n - 1);
      Assoc(Zeros(m), Zeros(n - 1), [0]);
    }
  }

  function Ones(n: nat): (s: seq<bit>)
    ensures |s| == n && forall i :: 0 <= i < n ==> s[i] == 1
  {
    if n == 0 then [] else Ones(n - 1) + [1]
  }

  lemma OnesPrefix(m: nat, n: nat)
    requires m <= n
    ensures Ones(n)[..m] == Ones(m)
  {
  }

  lemma SevenOnes()
    ensures BitsOf(0x7F, 7) == Ones(7)
  {
    assert BitsOf(0x7F, 7) == [1, 1, 1, 1, 1, 1, 1];
  }
}
