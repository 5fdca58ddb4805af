/** The second half of jpeg_gen_optimal_table: counting code lengths and cutting them down to
sixteen bits (section K.2 and Figure K.3 of ITU-T Rec. T.81). */
module LengthLimit {

  import opened CodeString
  import opened CanonicalCode
  import opened CodeLengths

  const MAX_CLEN := 32

  /** The Kraft sum of code words counted by length, in units of 2^-n. */
  function Horner(bits: seq<int>, n: nat): int
    requires n < |bits|
  {
    if n == 0 then bits[0] else 2 * Horner(bits, n - 1) + bits[n]
  }

  lemma {:induction false} HornerAdd(bits: seq<int>, l: nat, d: int, n: nat)
    requires l < |bits| && n < |bits|
    ensures Horner(bits[l := bits[l] + d], n) == Horner(bits, n) + if l <= n then Shl(d, n - l) else 0
  {
    if n > 0 {
      HornerAdd(bits, l, d, n - 1);
    }
  }

  lemma {:induction false} HornerTail(bits: seq<int>, i: nat, n: nat)
    requires i <= n < |bits| && forall k :: i < k <= n ==> bits[k] == 0
    ensures Horner(bits, n) == Shl(Horner(bits, i), n - i)
  {
    if n > i {
      HornerTail(bits, i, n - 1);
    }
  }

  lemma {:induction false} HornerNone(bits: seq<int>, n: nat)
    requires n < |bits| && forall k :: 0 <= k <= n ==> bits[k] == 0
    ensures Horner(bits, n) == 0
  {
    if n > 0 {
      HornerNone(bits, n - 1);
    }
  }

  /** A complete code for n symbols, none of length zero. */
  ghost predicate Complete(bits: seq<byte>, n: nat) {
    |bits| == MAX_CLEN + 1 && bits[0] == 0 && Horner(bits, MAX_CLEN) == Shl(1, MAX_CLEN) && Total(bits) == n <= 255
  }

  ghost predicate NoneAbove(bits: seq<byte>, i: nat) {
    forall k :: i < k < |bits| ==> bits[k] == 0
  }

  lemma CompleteAt(bits: seq<byte>, n: nat, i: nat)
    requires Complete(bits, n) && NoneAbove(bits, i) && i <= MAX_CLEN
    ensures Horner(bits, i) == Shl(1, i)
  {
    hide Shl, Horner;
    HornerTail(bits, i, MAX_CLEN);
    ShlShl(1, i, MAX_CLEN - i);
    ShlMonotone(Horner(bits, i), Shl(1, i), MAX_CLEN - i);
    ShlMonotone(Shl(1, i), Horner(bits, i), MAX_CLEN - i);
  }

  /** The longest words come in pairs, and there is a shorter word to put one of them under. */
  lemma CanMove(bits: seq<byte>, n: nat, i: nat)
    requires Complete(bits, n) && NoneAbove(bits, i) && 16 < i <= MAX_CLEN && bits[i] > 0
    ensures bits[i] >= 2 && exists j :: 1 <= j <= i - 2 && bits[j] > 0
  {
    hide Shl, Total;
    CompleteAt(bits, n, i);
    ShlDouble(1, i - 1);
    assert bits[i] % 2 == 0;
    if forall j :: 1 <= j <= i - 2 ==> bits[j] == 0 {
      HornerNone(bits, i - 2);
      ShlGrows(i, 16);
      SixteenBits();
      Parts(bits);
    }
  }

  lemma Parts(bits: seq<byte>)
    ensures forall k :: 0 <= k < |bits| ==> bits[k] <= Total(bits)
    ensures forall k, l :: 0 <= k < |bits| && 0 <= l < |bits| && k != l ==> bits[k] + bits[l] <= Total(bits)
  {
    hide Total;
    TotalNonnegative(bits);
    forall k, l | 0 <= k < |bits| && 0 <= l < |bits| && k != l
      ensures bits[k] + bits[l] <= Total(bits)
    {
      TotalUpdate(bits, k, 0);
      TotalNonnegative(bits[k := 0]);
      assert bits[k := 0][l] == bits[l];
    }
  }

  /** Take a pair from length i: one goes one bit up, the other shares the slot of a shorter
  word with that word. */
  function Moved(bits: seq<int>, i: nat, j: nat): (r: seq<int>)
    requires j + 1 < i < |bits|
    ensures |r| == |bits|
  {
    var a := bits[i := bits[i] - 2];
    var b := a[i - 1 := a[i - 1] + 1];
    var c := b[j + 1 := b[j + 1] + 2];
    c[j := c[j] - 1]
  }

  lemma MovedKraft(bits: seq<int>, i: nat, j: nat, n: nat)
    requires j + 1 < i <= n < |bits|
    ensures Horner(Moved(bits, i, j), n) == Horner(bits, n) && Total(Moved(bits, i, j)) == Total(bits)
  {
    hide Shl, Total, Horner;
    var a := bits[i := bits[i] - 2];
    var b := a[i - 1 := a[i - 1] + 1];
    var c := b[j + 1 := b[j + 1] + 2];
    HornerAdd(bits, i, -2, n);
    HornerAdd(a, i - 1, 1, n);
    HornerAdd(b, j + 1, 2, n);
    HornerAdd(c, j, -1, n);
    MovedShifts(n - i, n - j);
    TotalUpdate(bits, i, bits[i] - 2);
    TotalUpdate(a, i - 1, a[i - 1] + 1);
    TotalUpdate(b, j + 1, b[j + 1] + 2);
    TotalUpdate(c, j, c[j] - 1);
  }

  lemma MovedShifts(d: nat, e: nat)
    requires e > 0
    ensures Shl(-2, d) + Shl(1, d + 1) == 0 && Shl(2, e - 1) + Shl(-1, e) == 0
  {
    hide Shl;
    ShlPlus(-2, 2, d);
    ShlOfZero(d);
    ShlTwice(1, d);
    ShlPlus(-1, 1, e);
    ShlOfZero(e);
    ShlTwice(1, e - 1);
  }

  /** The greatest length from 1 to k that has a word, 0 if there is none. */
  function LongestUpTo(bits: seq<int>, k: nat): (j: nat)
    requires k < |bits|
    ensures j <= k && (j > 0 ==> bits[j] > 0) && forall l :: j < l <= k ==> bits[l] <= 0
  {
    if k == 0 || bits[k] > 0 then k else LongestUpTo(bits, k - 1)
  }

  /** Figure K.3 for lengths from i down: as long as there is a word of length i, take off a pair,
  put one of the two at i - 1, and the other under a word of the greatest length that is at most
  i - 2. */
  function FigureK3(bits: seq<int>, i: nat): (r: seq<int>)
    requires i < |bits|
    ensures |r| == |bits|
    decreases i, if bits[i] > 0 then bits[i] else 0
  {
    if i <= 16 then bits
    else if bits[i] <= 0 then FigureK3(bits, i - 1)
    else
      var j := LongestUpTo(bits, i - 2);
      if j == 0 then bits else FigureK3(Moved(bits, i, j), i)
  }

  /** What a step does to every count. */
  ghost predicate Adjusted(bits: seq<int>, r: seq<int>, i: nat, j: nat) {
    && |r| == |bits| && forall k :: 0 <= k < |bits| ==>
        r[k] == bits[k] - (if k == i then 2 else 0) + (if k == i - 1 then 1 else 0)
                + (if k == j + 1 then 2 else 0) - (if k == j then 1 else 0)
  }

  /** The words of length i that are left over are moved one pair after the other; counts of
  lengths below the word split stay as they are. */
  lemma K3Law(bits: seq<int>, i: nat) returns (j: nat, next: seq<int>)
    requires 16 < i < |bits| && bits[i] > 0 && exists k :: 1 <= k <= i - 2 && bits[k] > 0
    ensures 1 <= j <= i - 2 && bits[j] > 0 && (forall k :: j < k <= i - 2 ==> bits[k] <= 0)
    ensures Adjusted(bits, next, i, j) && FigureK3(bits, i) == FigureK3(next, i)
    ensures next[..j] == bits[..j]
  {
    j := LongestUpTo(bits, i - 2);
    next := Moved(bits, i, j);
  }

  lemma K3Done(bits: seq<int>, i: nat)
    requires i < |bits|
    ensures i <= 16 ==> FigureK3(bits, i) == bits
    ensures i > 16 && bits[i] == 0 ==> FigureK3(bits, i) == FigureK3(bits, i - 1)
  {
  }

  /** The counts for seventeen symbols that occur 1, 2, 4, .. times: the two words of seventeen bits
  go to sixteen, one of them beside the word of fifteen bits. */
  lemma SeventeenSymbols()
    ensures FigureK3([0, 1, 1, 1, 1, 1, 1, 1, 1, 1, 1, 1, 1, 1, 1, 1, 1, 2], 17)
         == [0, 1, 1, 1, 1, 1, 1, 1, 1, 1, 1, 1, 1, 1, 1, 0, 4, 0]
  {
    var bits := [0, 1, 1, 1, 1, 1, 1, 1, 1, 1, 1, 1, 1, 1, 1, 1, 1, 2];
    assert bits[15] == 1;
    var j, next := K3Law(bits, 17);
    assert j == 15;
    K3Done(next, 17);
    K3Done(next, 16);
    assert next == [0, 1, 1, 1, 1, 1, 1, 1, 1, 1, 1, 1, 1, 1, 1, 0, 4, 0];
  }

  /** One turn of the adjustment loop. */
  method MovePair(bits: seq<byte>, i: nat, ghost n: nat) returns (r: seq<byte>)
    requires Complete(bits, n) && NoneAbove(bits, i) && 16 < i <= MAX_CLEN && bits[i] > 0
    ensures Complete(r, n) && NoneAbove(r, i) && r[i] as int + 2 == bits[i] as int
    ensures exists j :: 1 <= j <= i - 2 && bits[j] > 0 && (forall k :: j < k <= i - 2 ==> bits[k] == 0) && Adjusted(bits, r, i, j)
    ensures FigureK3(bits, i) == FigureK3(r, i)
  {
    hide Horner, Shl, Total, FigureK3;
    CanMove(bits, n, i);
    var j := i - 2;
    while bits[j] == 0
      invariant 1 <= j <= i - 2 && forall k :: j < k <= i - 2 ==> bits[k] == 0
      decreases j
    {
      j := j - 1;
    }
    Parts(bits);
    MovedKraft(bits, i, j, MAX_CLEN);
    r := bits[i := bits[i] - 2];
    r := r[i - 1 := r[i - 1] + 1];
    TotalUpdate(bits, i, bits[i] - 2);
    TotalUpdate(bits[i := bits[i] - 2], i - 1, r[i - 1]);
    Parts(r);
    r := r[j + 1 := r[j + 1] + 2];
    r := r[j := r[j] - 1];
    assert r == Moved(bits, i, j);
    MovedIsK3(bits, i, j);
  }

  lemma MovedIsK3(bits: seq<byte>, i: nat, j: nat)
    requires 16 < i < |bits| && bits[i] > 0 && 1 <= j <= i - 2 && bits[j] > 0 && forall k :: j < k <= i - 2 ==> bits[k] == 0
    ensures FigureK3(bits, i) == FigureK3(Moved(bits, i, j), i) && Adjusted(bits, Moved(bits, i, j), i, j)
  {
    var l := LongestUpTo(bits, i - 2);
    assert l == j;
  }

  /** The whole adjustment is that of Figure K.3: no code is longer than sixteen bits, and the
  code stays complete. */
  method LimitLengths(bits0: seq<byte>, ghost n: nat) returns (bits: seq<byte>)
    requires Complete(bits0, n)
    ensures Complete(bits, n) && NoneAbove(bits, 16)
    ensures bits == FigureK3(bits0, MAX_CLEN)
    ensures NoneAbove(bits0, 16) ==> bits == bits0
  {
    hide Complete, FigureK3, Adjusted;
    bits := bits0;
    CompleteShape(bits, n);
    for i := MAX_CLEN + 1 downto 17
      invariant Complete(bits, n) && |bits| == MAX_CLEN + 1 && NoneAbove(bits, i - 1)
      invariant FigureK3(bits, i - 1) == FigureK3(bits0, MAX_CLEN)
      invariant NoneAbove(bits0, 16) ==> bits == bits0
    {
      while bits[i] > 0
        invariant Complete(bits, n) && |bits| == MAX_CLEN + 1 && NoneAbove(bits, i)
        invariant FigureK3(bits, i) == FigureK3(bits0, MAX_CLEN)
        invariant NoneAbove(bits0, 16) ==> bits == bits0
        decreases bits[i]
      {
        bits := MovePair(bits, i, n);
        CompleteShape(bits, n);
      }
      K3Done(bits, i);
    }
    K3Done(bits, 16);
  }

  lemma CompleteShape(bits: seq<byte>, n: nat)
    requires Complete(bits, n)
    ensures |bits| == MAX_CLEN + 1 && NoneAbove(bits, MAX_CLEN)
  {
  }

  /** Drop one word of the greatest length: the slot of the pseudo-symbol stays unused. */
  method DropLast(bits: seq<byte>, ghost n: nat) returns (r: seq<byte>, i: nat)
    requires Complete(bits, n) && NoneAbove(bits, 16)
    ensures |bits| == |r| && 1 <= i <= 16 && bits[i] > 0 && r == bits[i := bits[i] - 1] && forall k :: i < k <= 16 ==> bits[k] == 0
    ensures |r| == |bits| && r[0] == 0 && NoneAbove(r, 16) && Total(r) == n - 1 && Horner(r, 16) < 0x10000
  {
    hide Horner, Shl, Total;
    CompleteAt(bits, n, 16);
    SixteenBits();
    if forall k :: 0 <= k <= 16 ==> bits[k] == 0 {
      HornerNone(bits, 16);
    }
    i := 16;
    while bits[i] == 0
      invariant 0 < i <= 16 && forall k :: i < k <= 16 ==> bits[k] == 0
      decreases i
    {
      i := i - 1;
    }
    HornerAdd(bits, i, -1, 16);
    ShlPositive(16 - i);
    ShlPlus(-1, 1, 16 - i);
    ShlOfZero(16 - i);
    TotalUpdate(bits, i, bits[i] - 1);
    r := bits[i := bits[i] - 1];
  }
}
