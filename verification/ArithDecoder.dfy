/** The arithmetic decoder of jdarith.c, with its byte input and floating cut point. */
module ArithDecoder {

  import opened Wrappers
  import opened CodeString
  import opened ProbabilityTable
  import opened IntervalCoder
  import opened ArithEncoder

  /** A segment as it lies in the file: stuffed data, then a marker that fill bytes may precede. */
  function Segment(data: seq<byte>, fill: nat, mark: byte, rest: seq<byte>): seq<byte> {
    Stuff(data) + Repeat(255, fill) + [255, mark] + rest
  }

  /** Fill bytes, the byte that ends them, and what follows. */
  function Filled(j: nat, b: byte, t: seq<byte>): seq<byte> {
    Repeat(255, j) + [b] + t
  }

  lemma FilledHead(j: nat, b: byte, t: seq<byte>)
    ensures var s := Filled(j, b, t);
      s != [] && if j == 0 then s[0] == b && s[1..] == t else s[0] == 255 && s[1..] == Filled(j - 1, b, t)
  {
  }

  lemma SegmentHead(data: seq<byte>, k: nat, fill: nat, mark: byte, rest: seq<byte>)
    requires k < |data|
    ensures var s, t := Segment(data[k..], fill, mark, rest), Segment(data[k + 1..], fill, mark, rest);
      && s != [] && s[0] == data[k]
      && s[1..] == if data[k] == 255 then Filled(0, 0, t) else t
  {
    var t := Segment(data[k + 1..], fill, mark, rest);
    SegmentOne(data, k, fill, mark, rest);
    assert (StuffOne(data[k]) + t)[1..] == StuffOne(data[k])[1..] + t;
    assert [] + t == t;
    assert Filled(0, 0, t) == [0] + t;
  }

  lemma SegmentOne(data: seq<byte>, k: nat, fill: nat, mark: byte, rest: seq<byte>)
    requires k < |data|
    ensures Segment(data[k..], fill, mark, rest) == StuffOne(data[k]) + Segment(data[k + 1..], fill, mark, rest)
  {
    hide Stuff, Repeat;
    var b, t := data[k], data[k + 1..];
    assert data[k..] == [b] + t;
    StuffHead(b, t);
    Assoc(StuffOne(b), Stuff(t), Repeat(255, fill));
    Assoc(StuffOne(b), Stuff(t) + Repeat(255, fill), [255, mark]);
    Assoc(StuffOne(b), Stuff(t) + Repeat(255, fill) + [255, mark], rest);
  }

  lemma SegmentEnd(fill: nat, mark: byte, rest: seq<byte>)
    ensures var s := Segment([], fill, mark, rest);
      s != [] && s[0] == 255 && s[1..] == Filled(fill, mark, rest)
  {
    var s, t := Segment([], fill, mark, rest), Filled(fill, mark, rest);
    forall i | 0 <= i < |t|
      ensures s[1..][i] == t[i]
    {
    }
  }

  /** The register holds the code string read so far, relative to the interval. */
  ghost predicate Holds(data: seq<byte>, k: nat, low: nat, n: nat, c: int, a: int, ct: int) {
    if a == 0 then c == Bits(data, 8 * k) && low == 0 && n == 0 && 8 * k == 16 + ct
    else
      && ct >= 0 && 8 * k == 16 + n + ct
      && c == Bits(data, 8 * k) - Shl(low, ct)
      && low <= Bits(data, 16 + n) < low + a <= Shl(1, 16 + n)
  }

  lemma HoldsShift(data: seq<byte>, k: nat, low: nat, n: nat, c: int, a: int, ct: int)
    requires Holds(data, k, low, n, c, a, ct) && a > 0 && ct > 0
    ensures Holds(data, k, 2 * low, n + 1, c, 2 * a, ct - 1)
  {
    ShlTwice(low, ct - 1);
  }

  lemma HoldsFetch(data: seq<byte>, k: nat, low: nat, n: nat, c: int, a: int)
    requires Holds(data, k, low, n, c, a, 0) && a > 0
    ensures Holds(data, k + 1, 2 * low, n + 1, 256 * c + ByteAt(data, k), 2 * a, 7)
  {
    BitsOfByte(data, k);
    ShlTwice(low, 7);
    ShlByte(low);
  }

  /** The two initial bytes. */
  lemma HoldsFirst(data: seq<byte>, k: nat, c: int, ct: int)
    requires Holds(data, k, 0, 0, c, 0, ct) && (ct == -16 || ct == -8)
    ensures Holds(data, k + 1, 0, 0, 256 * c + ByteAt(data, k), if ct == -16 then 0 else 0x10000, ct + 8)
  {
    BitsOfByte(data, k);
    if ct == -8 {
      BitsBound(data, 16);
      ShlSixteen(1);
    }
  }

  const RST0 := 0xD0

  class Decoder {
    var c: int                // C register: offset in the interval and unused input bits
    var a: int                // A register, size of the coding interval
    var ct: int               // input bits still unused in C; -16 before the first byte
    var input: seq<byte>      // source bytes not yet read
    var unread: byte          // marker met by the decoder, 0 if none
    const bins: array<byte>   // the statistics areas, side by side

    ghost var low: nat
    ghost var n: nat
    ghost var data: seq<byte>   // the segment's bytes before stuffing
    ghost var k: nat            // how many of them have been read, zeros after the end included
    ghost var fill: nat
    ghost var mark: byte
    ghost var rest: seq<byte>   // what follows the segment's marker

    ghost function Interval(): Coder
      requires a >= 0
      reads this, bins
    {
      if a == 0 then Start(bins[..]) else Coder(low, a, n, bins[..])
    }

    /** The source holds the rest of a segment that ends in a marker. */
    ghost predicate Framed()
      reads this`input, this`unread, this`data, this`k, this`fill, this`mark, this`rest
    {
      && mark != 0 && mark != 255
      && if k <= |data| then unread == 0 && input == Segment(data[k..], fill, mark, rest)
         else unread == mark && input == rest
    }

    ghost predicate Tracks()
      reads this
    {
      Holds(data, k, low, n, c, a, ct)
    }

    /** Register ranges outside the error state. */
    ghost predicate Running()
      reads this, bins
    {
      && (if a == 0 then ct == -16 || ct == -8 else 0 < a <= 0x10000 && 0 <= ct <= 7)
      && ValidBins(bins[..])
    }

    ghost predicate Valid()
      reads this, bins
    {
      Running() && Framed() && Tracks()
    }

    /** Registers ready for the two initial bytes of a segment. */
    constructor (stats: seq<byte>, source: seq<byte>)
      requires ValidBins(stats)
      ensures Running() && fresh(bins) && bins[..] == stats && bins.Length == |stats|
      ensures c == 0 && a == 0 && ct == -16 && input == source && unread == 0
    {
      bins := new byte[|stats|](i requires 0 <= i < |stats| => stats[i]);
      c, a, ct, input, unread := 0, 0, -16, source, 0;
      new;
      assert bins[..] == stats;
    }

    method Reset()
      requires ValidBins(bins[..])
      modifies this`c, this`a, this`ct
      ensures Running() && c == 0 && a == 0 && ct == -16
    {
      c, a, ct := 0, 0, -16;
    }

    /** Declare what lies in the source: a framed segment the decoder has not touched yet. */
    ghost method Frame(data': seq<byte>, fill': nat, mark': byte, rest': seq<byte>)
      requires Running() && a == 0 && ct == -16 && unread == 0 && c == 0
      requires mark' != 0 && mark' != 255 && input == Segment(data', fill', mark', rest')
      modifies this`data, this`fill, this`mark, this`rest, this`k, this`low, this`n
      ensures Valid() && Interval() == Start(bins[..])
      ensures data == data' && fill == fill' && mark == mark' && rest == rest'
    {
      data, fill, mark, rest := data', fill', mark', rest';
      k, low, n := 0, 0, 0;
      assert data[0..] == data;
    }

    /** Advance past the remaining data of the segment to the marker that ends it. */
    method NextMarker() returns (ok: bool)
      requires unread == 0
      modifies this`input, this`unread
      ensures old(Framed()) ==> ok && unread == mark && input == rest
    {
      hide Segment, Filled;
      ghost var good, i: nat := Framed(), k;
      while true
        invariant good ==> i <= |data| && input == Segment(data[i..], fill, mark, rest)
        decreases |input|
      {
        ghost var before := |input|;
        var found;
        found, i := SkipToFF(good, i);
        if !found {
          return false;
        }
        ghost var t := if i < |data| then Segment(data[i + 1..], fill, mark, rest) else rest;
        var c0 := SwallowFill(if i < |data| then 0 else fill, if i < |data| then 0 else mark, t);
        if c0.None? {
          return false;
        }
        if c0 != Some(0) {
          unread := c0.value;
          return true;
        }
        i := i + 1;
      }
    }

    /** The next marker must be the restart marker of this number; resynchronisation is not modelled. */
    method ReadRestartMarker(num: nat) returns (ok: bool)
      modifies this`input, this`unread
      ensures old(Framed()) && mark == RST0 + num ==> ok && unread == 0 && input == rest
    {
      if unread == 0 {
        var found := NextMarker();
        if !found {
          return false;
        }
      }
      if unread == RST0 + num {
        unread := 0;
        return true;
      }
      return false;
    }

    /** Skip bytes up to and including the next 0xFF; i tells which data byte it is. */
    method SkipToFF(ghost good: bool, ghost i0: nat) returns (found: bool, ghost i: nat)
      requires good ==> mark != 0 && mark != 255 && i0 <= |data| && input == Segment(data[i0..], fill, mark, rest)
      modifies this`input
      ensures found ==> |input| < |old(input)|
      ensures good ==> found && i <= |data|
      ensures good ==> input == if i < |data| then Filled(0, 0, Segment(data[i + 1..], fill, mark, rest))
                                else Filled(fill, mark, rest)
    {
      hide Segment, Filled;
      i := i0;
      while true
        invariant |input| <= |old(input)|
        invariant good ==> i <= |data| && input == Segment(data[i..], fill, mark, rest)
        decreases |input|
      {
        if good && i < |data| {
          SegmentHead(data, i, fill, mark, rest);
        } else if good {
          assert data[i..] == [];
          SegmentEnd(fill, mark, rest);
        }
        var c0 := GetByte();
        if c0.None? {
          return false, i;
        }
        if c0 == Some(0xFF) {
          return true, i;
        }
        i := i + 1;
      }
    }

    method GetByte() returns (r: Option<byte>)
      modifies this`input
      ensures if old(input) == [] then r == None && input == []
              else r == Some(old(input)[0]) && input == old(input)[1..]
    {
      if input == [] {
        return None;
      }
      r := Some(input[0]);
      input := input[1..];
    }

    /** Swallow extra 0xFF bytes; b is the byte that ends them. */
    method SwallowFill(ghost j: nat, ghost b: byte, ghost t: seq<byte>) returns (r: Option<byte>)
      modifies this`input
      ensures r != Some(0xFF) && |input| <= |old(input)|
      ensures old(input) == Filled(j, b, t) && b != 255 ==> r == Some(b) && input == t
    {
      hide Filled;
      ghost var framed := input == Filled(j, b, t) && b != 255;
      ghost var i := j;
      FilledHead(i, b, t);
      r := GetByte();
      while r == Some(0xFF)
        invariant |input| <= |old(input)|
        invariant framed && r == Some(0xFF) ==> i > 0 && input == Filled(i - 1, b, t)
        invariant framed && r != Some(0xFF) ==> r == Some(b) && input == t
        decreases |input| + (if r.Some? then 1 else 0)
      {
        i := if i > 0 then i - 1 else 0;
        FilledHead(i, b, t);
        r := GetByte();
      }
    }

    /** Read the next data byte, undoing the stuffing; zeros once a marker has been met. */
    method NextData() returns (r: Option<byte>)
      modifies this`input, this`unread, this`k
      ensures old(Framed()) ==> r == Some(ByteAt(data, old(k))) && Framed() && k == old(k) + 1
    {
      hide Segment, Filled;
      ghost var i, j, b, t := k, 0, 0, [];
      if Framed() && i < |data| {
        SegmentHead(data, i, fill, mark, rest);
        t := Segment(data[i + 1..], fill, mark, rest);
      } else if Framed() && i == |data| {
        assert data[i..] == [];
        SegmentEnd(fill, mark, rest);
        j, b, t := fill, mark, rest;
      }
      k := k + 1;
      if unread != 0 {
        return Some(0);
      }
      r := GetByte();
      if r == Some(0xFF) {
        r := SwallowFill(j, b, t);
        if r == Some(0) {
          r := Some(0xFF);
        } else if r.Some? {
          unread := r.value;
          r := Some(0);
        }
      }
    }

    /** Renormalization and data input. */
    method Renormalise() returns (ok: bool)
      requires Running()
      modifies this`c, this`a, this`ct, this`input, this`unread, this`k, this`low, this`n
      ensures old(Valid()) ==> ok
      ensures ok ==> Running() && 0x8000 <= a
      ensures old(Valid()) ==> Valid() && Interval() == Renorm(old(Interval()))
    {
      hide Holds, Framed, ValidBins;
      ghost var valid := Valid();
      ok := true;
      while a < 0x8000
        invariant ok && Running()
        invariant valid ==> Valid() && Renorm(Interval()) == Renorm(old(Interval()))
        decreases if a == 0 then 0x10000 - ct else 0x8000 - a
      {
        ok := ShiftOne();
        if !ok {
          return;
        }
      }
    }

    /** One pass of the loop: get a byte when the bits are used up, then double. */
    method ShiftOne() returns (ok: bool)
      requires Running() && a < 0x8000
      modifies this`c, this`a, this`ct, this`input, this`unread, this`k, this`low, this`n
      ensures old(Valid()) ==> ok
      ensures ok ==> Running() && if a == 0 then old(a) == 0 && ct > old(ct) else a > old(a)
      ensures old(Valid()) ==> Valid() && Renorm(Interval()) == Renorm(old(Interval()))
    {
      hide Holds, Framed, ValidBins, ByteAt;
      ghost var valid, ct0 := Valid(), ct;
      if valid {
        ShiftHolds();
      }
      ct := ct - 1;
      if ct < 0 {
        var next := NextData();
        if next.None? {
          return false;
        }
        c := 256 * c + next.value;
        ct := ct + 8;
        if ct < 0 {
          ct := ct + 1;
          if ct == 0 {
            a := 0x8000;
          }
        }
      }
      a := 2 * a;
      if 0 <= ct0 {
        low, n := 2 * low, n + 1;
      }
      ok := true;
    }

    lemma ShiftHolds()
      requires Running() && Tracks()
      ensures ct > 0 ==> Holds(data, k, 2 * low, n + 1, c, 2 * a, ct - 1)
      ensures ct == 0 ==> Holds(data, k + 1, 2 * low, n + 1, 256 * c + ByteAt(data, k), 2 * a, 7)
      ensures ct < 0 ==>
        Holds(data, k + 1, low, n, 256 * c + ByteAt(data, k), if ct == -16 then 0 else 0x10000, ct + 8)
      ensures ct < 0 ==> low == 0 && n == 0
    {
      hide Bits, Shl, ByteAt;
      if ct > 0 {
        HoldsShift(data, k, low, n, c, a, ct);
      } else if ct == 0 {
        HoldsFetch(data, k, low, n, c, a);
      } else {
        HoldsFirst(data, k, c, ct);
      }
    }

    /** The core decoding routine: one decision against one statistics bin. */
    method ArithDecode(st: nat) returns (r: Option<bit>)
      requires Running() && st < bins.Length
      modifies this`c, this`a, this`ct, this`input, this`unread, this`k, this`low, this`n, bins
      ensures r.Some? ==> Running()
      ensures old(Valid()) ==> Valid() && r.Some?
      ensures old(Valid()) ==>
        var s := Renorm(old(Interval()));
        && ValidCoder(s) && r.value == Decide(data, s, st)
        && Renorm(Interval()) == Step(s, Decision(st, r.value))
    {
      hide Holds, Framed, JpegAritab, AfterLps, AfterMps;
      var ok := Renormalise();
      if !ok {
        return None;
      }
      var val := SplitRegister(st);
      r := Some(val);
    }

    /** Pick the sub-interval that holds the code string and estimate the bin anew. */
    method SplitRegister(st: nat) returns (val: bit)
      requires Running() && a >= 0x8000 && st < bins.Length
      modifies this`c, this`a, this`low, bins
      ensures Running()
      ensures old(Tracks()) ==>
        var s := old(Interval());
        && Tracks() && ValidCoder(s) && val == Decide(data, s, st)
        && Interval() == Split(s, st, val)
    {
      hide Holds, Shl, Bits, JpegAritab, AfterLps, AfterMps, UpdateBin;
      var sv := bins[st];
      var qe := JpegAritab(sv % 128).Word();
      UnpackWord(JpegAritab(sv % 128));
      UpdateBinMeaning(sv);
      var nl := qe % 256;
      qe := qe / 256;
      var nm := qe % 256;
      qe := qe / 256;
      if Tracks() {
        HoldsDecision(data, k, low, n, c, a, ct, qe);
      }

      var temp := a - qe;
      a := temp;
      temp := Shl(temp, ct);
      if c >= temp {
        c := c - temp;
        low := low + a;
        if a < qe {
          a := qe;
          bins[st] := UpdateBin(sv, nm);
        } else {
          a := qe;
          bins[st] := UpdateBin(sv, nl);
          sv := FlipSense(sv);
        }
      } else if a < 0x8000 {
        if a < qe {
          bins[st] := UpdateBin(sv, nl);
          sv := FlipSense(sv);
        } else {
          bins[st] := UpdateBin(sv, nm);
        }
      }
      val := sv / 128;
    }
  }

  /** `sv ^ 0x80` */
  function FlipSense(sv: byte): byte {
    if sv >= 128 then sv - 128 else sv + 128
  }

  /** Comparing registers is comparing the code string with the split point. */
  lemma HoldsDecision(data: seq<byte>, k: nat, low: nat, n: nat, c: int, a: int, ct: nat, qe: int)
    requires Holds(data, k, low, n, c, a, ct) && 0 < qe < a
    ensures low + a <= Shl(1, 16 + n)
    ensures c >= Shl(a - qe, ct) <==> Bits(data, 16 + n) >= low + a - qe
    ensures c >= Shl(a - qe, ct) ==> Holds(data, k, low + a - qe, n, c - Shl(a - qe, ct), qe, ct)
    ensures c < Shl(a - qe, ct) ==> Holds(data, k, low, n, c, a - qe, ct)
  {
    ShlPlus(low, a - qe, ct);
    BitsCompare(data, 16 + n, ct, low + a - qe);
  }
}
