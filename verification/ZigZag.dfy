/** The zigzag order of a block's coefficients (jpeg_natural_order), as spelled out by the
unrolled loop of jchuff.c. */
module ZigZag {

  const DCTSIZE2 := 64

  /** Natural position of the k'th coefficient of the zigzag sequence. */
  function NaturalOrder(k: nat): (n: nat)
    requires k < DCTSIZE2
    ensures n < DCTSIZE2 && ZigZagIndex(n) == k
  {
    if k < 16 then Natural0(k) else if k < 32 then Natural16(k) else if k < 48 then Natural32(k) else Natural48(k)
  }

  function Natural0(k: nat): (n: nat)
    requires 0 <= k < 16
    ensures n < DCTSIZE2 && ZigZagIndex(n) == k
  {
    match k
    case 0 => 0 case 1 => 1 case 2 => 8 case 3 => 16
    case 4 => 9 case 5 => 2 case 6 => 3 case 7 => 10
    case 8 => 17 case 9 => 24 case 10 => 32 case 11 => 25
    case 12 => 18 case 13 => 11 case 14 => 4 case 15 => 5
  }

  function Natural16(k: nat): (n: nat)
    requires 16 <= k < 32
    ensures n < DCTSIZE2 && ZigZagIndex(n) == k
  {
    match k
    case 16 => 12 case 17 => 19 case 18 => 26 case 19 => 33
    case 20 => 40 case 21 => 48 case 22 => 41 case 23 => 34
    case 24 => 27 case 25 => 20 case 26 => 13 case 27 => 6
    case 28 => 7 case 29 => 14 case 30 => 21 case 31 => 28
  }

  function Natural32(k: nat): (n: nat)
    requires 32 <= k < 48
    ensures n < DCTSIZE2 && ZigZagIndex(n) == k
  {
    match k
    case 32 => 35 case 33 => 42 case 34 => 49 case 35 => 56
    case 36 => 57 case 37 => 50 case 38 => 43 case 39 => 36
    case 40 => 29 case 41 => 22 case 42 => 15 case 43 => 23
    case 44 => 30 case 45 => 37 case 46 => 44 case 47 => 51
  }

  function Natural48(k: nat): (n: nat)
    requires 48 <= k < 64
    ensures n < DCTSIZE2 && ZigZagIndex(n) == k
  {
    match k
    case 48 => 58 case 49 => 59 case 50 => 52 case 51 => 45
    case 52 => 38 case 53 => 31 case 54 => 39 case 55 => 46
    case 56 => 53 case 57 => 60 case 58 => 61 case 59 => 54
    case 60 => 47 case 61 => 55 case 62 => 62 case 63 => 63
  }

  function ZigZagIndex(n: nat): (k: nat)
    requires n < DCTSIZE2
    ensures k < DCTSIZE2
  {
    if n < 16 then ZigZag0(n) else if n < 32 then ZigZag16(n) else if n < 48 then ZigZag32(n) else ZigZag48(n)
  }

  function ZigZag0(k: nat): (n: nat)
    requires 0 <= k < 16
    ensures n < DCTSIZE2
  {
    match k
    case 0 => 0 case 1 => 1 case 2 => 5 case 3 => 6
    case 4 => 14 case 5 => 15 case 6 => 27 case 7 => 28
    case 8 => 2 case 9 => 4 case 10 => 7 case 11 => 13
    case 12 => 16 case 13 => 26 case 14 => 29 case 15 => 42
  }

  function ZigZag16(k: nat): (n: nat)
    requires 16 <= k < 32
    ensures n < DCTSIZE2
  {
    match k
    case 16 => 3 case 17 => 8 case 18 => 12 case 19 => 17
    case 20 => 25 case 21 => 30 case 22 => 41 case 23 => 43
    case 24 => 9 case 25 => 11 case 26 => 18 case 27 => 24
    case 28 => 31 case 29 => 40 case 30 => 44 case 31 => 53
  }

  function ZigZag32(k: nat): (n: nat)
    requires 32 <= k < 48
    ensures n < DCTSIZE2
  {
    match k
    case 32 => 10 case 33 => 19 case 34 => 23 case 35 => 32
    case 36 => 39 case 37 => 45 case 38 => 52 case 39 => 54
    case 40 => 20 case 41 => 22 case 42 => 33 case 43 => 38
    case 44 => 46 case 45 => 51 case 46 => 55 case 47 => 60
  }

  function ZigZag48(k: nat): (n: nat)
    requires 48 <= k < 64
    ensures n < DCTSIZE2
  {
    match k
    case 48 => 21 case 49 => 34 case 50 => 37 case 51 => 47
    case 52 => 50 case 53 => 56 case 54 => 59 case 55 => 61
    case 56 => 35 case 57 => 36 case 58 => 48 case 59 => 49
    case 60 => 57 case 61 => 58 case 62 => 62 case 63 => 63
  }

  /** The two orders are inverse to each other, so the zigzag sequence visits every position once. */
  lemma NaturalOfZigZag(n: nat)
    requires n < DCTSIZE2
    ensures NaturalOrder(ZigZagIndex(n)) == n
  {
  }

  /** The position behind position n on the diagonal path of Figure 5: up and right on even
  diagonals, down and left on odd ones, along the edge where the block ends. */
  function NextOnPath(n: nat): (m: nat)
    requires n < 63
  {
    var row, col := n / 8, n % 8;
    if (row + col) % 2 == 0 then
      if col == 7 then n + 8 else if row == 0 then n + 1 else n - 7
    else
      if row == 7 then n + 1 else if col == 0 then n + 8 else n + 7
  }

  lemma Path0(k: nat)
    requires 0 <= k < 16
    ensures NaturalOrder(k) < 63 && NaturalOrder(k + 1) == NextOnPath(NaturalOrder(k))
  {
  }

  lemma Path16(k: nat)
    requires 16 <= k < 32
    ensures NaturalOrder(k) < 63 && NaturalOrder(k + 1) == NextOnPath(NaturalOrder(k))
  {
  }

  lemma Path32(k: nat)
    requires 32 <= k < 48
    ensures NaturalOrder(k) < 63 && NaturalOrder(k + 1) == NextOnPath(NaturalOrder(k))
  {
  }

  lemma Path48(k: nat)
    requires 48 <= k < 63
    ensures NaturalOrder(k) < 63 && NaturalOrder(k + 1) == NextOnPath(NaturalOrder(k))
  {
  }

  /** The zigzag sequence walks the diagonals from the corner. */
  lemma ZigZagLaw(k: nat)
    requires k < 63
    ensures NaturalOrder(0) == 0 && NaturalOrder(k) < 63 && NaturalOrder(k + 1) == NextOnPath(NaturalOrder(k))
  {
    hide NextOnPath;
    if k < 16 {
      Path0(k);
    } else if k < 32 {
      Path16(k);
    } else if k < 48 {
      Path32(k);
    } else {
      Path48(k);
    }
  }

  /** The zigzag sequence of a block. */
  ghost function ViewOf(b: seq<int>): (v: seq<int>)
    requires |b| == DCTSIZE2
    ensures |v| == DCTSIZE2
  {
    seq(DCTSIZE2, k requires 0 <= k < DCTSIZE2 => b[NaturalOrder(k)])
  }

  lemma ViewAt(b: seq<int>, k: nat)
    requires |b| == DCTSIZE2 && k < DCTSIZE2
    ensures ViewOf(b)[k] == b[NaturalOrder(k)]
  {
    hide NaturalOrder;
  }

  lemma ViewUpdate(b: seq<int>, k: nat, v: int)
    requires |b| == DCTSIZE2 && k < DCTSIZE2
    ensures ViewOf(b[NaturalOrder(k) := v]) == ViewOf(b)[k := v]
  {
    hide NaturalOrder, ZigZagIndex;
    var u, w := ViewOf(b[NaturalOrder(k) := v]), ViewOf(b)[k := v];
    forall j: nat | j < DCTSIZE2
      ensures u[j] == w[j]
    {
      assert ZigZagIndex(NaturalOrder(j)) == j && ZigZagIndex(NaturalOrder(k)) == k;
    }
  }

  /** The zigzag sequences of several blocks. */
  ghost function Views(blocks: seq<array<int>>): (vs: seq<seq<int>>)
    requires forall i :: 0 <= i < |blocks| ==> blocks[i].Length == DCTSIZE2
    reads blocks
    ensures |vs| == |blocks| && forall i :: 0 <= i < |vs| ==> vs[i] == ViewOf(blocks[i][..])
  {
    seq(|blocks|, i requires 0 <= i < |blocks| reads blocks => ViewOf(blocks[i][..]))
  }
}
