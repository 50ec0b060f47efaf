/** Classification codes, same-row neighbour addressing and display marks shared by the
    snapshots.
    Activations are the program's integers; 1 is state A and anything else reads as B. */
module Codes {
  import Arith

  /** True when every value is 0 or 1. */
  predicate Binary(a: int) { a == 0 || a == 1 }

  /** Pair code of a node with activation a and a neighbour with activation b:
      1 for A-A, 2 for a mixed pair, 3 for B-B. */
  function PairCode(a: int, b: int): (c: int)
    ensures 1 <= c <= 3
    ensures c == 1 <==> a == 1 && b == 1
    ensures c == 2 <==> (a == 1) != (b == 1)
  {
    if a == 1 then (if b == 1 then 1 else 2)
    else (if b == 1 then 2 else 3)
  }

  /** The pair code does not depend on which of the two nodes is "own". */
  lemma PairCodeSymmetric(a: int, b: int)
    ensures PairCode(a, b) == PairCode(b, a)
  {
  }

  /** On binary activations the three codes are: both on, different, both off. */
  lemma PairCodeBinary(a: int, b: int)
    requires Binary(a) && Binary(b)
    ensures PairCode(a, b) == 1 <==> a == 1 && b == 1
    ensures PairCode(a, b) == 2 <==> a != b
    ensures PairCode(a, b) == 3 <==> a == 0 && b == 0
  {
  }

  /** Triplet code from the node's own activation, its yLeft code and its wLeft code,
      read as the table of the newest snapshot. */
  function TripletCode(own: int, yl: int, wl: int): (z: int)
    ensures 1 <= z <= 6
    ensures own == 1 ==> z != 4 && z != 6
    ensures own != 1 ==> z != 1 && z != 3
  {
    if own == 1 then
      if yl == 1 then (if wl == 1 then 1 else 2)
      else (if wl == 1 then 3 else 5)
    else
      if yl == 3 then (if wl == 3 then 6 else 5)
      else (if wl == 3 then 4 else 2)
  }

  /** The Cluster Variation Method classification of a zigzag triplet (left, middle, right)
      of binary activations: AAA=1, AAB/BAA=2, ABA=3, BAB=4, ABB/BBA=5, BBB=6. The two
      degenerate codes 2 and 5 each stand for a triplet and its mirror image. */
  function ChainTriplet(left: int, middle: int, right: int): (z: int)
    ensures 1 <= z <= 6
  {
    if middle == 1 then
      if left == 1 && right == 1 then 1 else if left == 0 && right == 0 then 4 else 2
    else
      if left == 1 && right == 1 then 3 else if left == 0 && right == 0 then 6 else 5
  }

  /** The table lookup classifies the triplet (same-row left neighbour, diagonal-left
      neighbour, own node) of binary activations exactly as the chain classification does,
      and that classification is invariant under mirroring the triplet. */
  lemma TripletCodeIsChainTriplet(own: int, diag: int, left: int)
    requires Binary(own) && Binary(diag) && Binary(left)
    ensures TripletCode(own, PairCode(own, diag), PairCode(own, left)) == ChainTriplet(left, diag, own)
    ensures ChainTriplet(left, diag, own) == ChainTriplet(own, diag, left)
  {
  }

  /** 1 when a neighbour's raw activation is non-zero: the code of the oldest snapshot. */
  function RawCode(a: int): (w: int)
    ensures w == 0 || w == 1
    ensures Binary(a) ==> w == a
  {
    if a == 0 then 0 else 1
  }

  /** Index of the left neighbour of the node at row i, column j, wrapping to the last
      column of the same row. */
  function LeftSameRow(i: nat, j: nat, m: nat): (r: nat)
    requires j < m
    ensures i * m <= r < i * m + m
    ensures r == i * m + (j + m - 1) % m
  {
    Arith.ModSmall(j + m - 1, m);
    if j == 0 then (i + 1) * m - 1 else i * m + j - 1
  }

  /** Index of the right neighbour of the node at row i, column j, wrapping to the first
      column of the same row. */
  function RightSameRow(i: nat, j: nat, m: nat): (r: nat)
    requires j < m
    ensures i * m <= r < i * m + m
    ensures r == i * m + (j + 1) % m
  {
    Arith.ModSmall(j + 1, m);
    if j == m - 1 then i * m else i * m + j + 1
  }

  /** Same-row neighbours are mutually inverse: the right neighbour of the left neighbour is
      the node itself, and the other way round. */
  lemma SameRowInverse(i: nat, j: nat, m: nat)
    requires j < m
    ensures RightSameRow(i, (j + m - 1) % m, m) == i * m + j
    ensures LeftSameRow(i, (j + 1) % m, m) == i * m + j
  {
    Arith.ModSmall(j + 1, m);
    Arith.ModSmall(j + m - 1, m);
  }

  /** Node x of the grid lies in a row that starts at x - x % M and ends within M*N; an odd
      row has a row above it and, with an even number of rows, an even row has a row below. */
  lemma RowFacts(x: nat, m: nat, n: nat)
    requires x < m * n
    ensures m > 0 && x % m < m && x % m <= x
    ensures x - x % m + m <= m * n
    ensures (x / m) % 2 == 1 ==> x - x % m >= m
    ensures n % 2 == 0 && (x / m) % 2 == 0 ==> x - x % m + 2 * m <= m * n
  {
    Arith.RowBound(x, m, n);
    var q := x / m;
    Arith.MulMono(q + 1, n, m);
    if q % 2 == 1 {
      Arith.MulMono(1, q, m);
    }
    if n % 2 == 0 && q % 2 == 0 {
      Arith.MulMono(q + 2, n, m);
    }
  }

  /** Index of the same-row left neighbour of node x, as an offset from x. */
  function LeftOf(m: nat, n: nat, x: nat): (r: nat)
    requires x < m * n
    ensures r < m * n
  {
    RowFacts(x, m, n);
    if x % m == 0 then x + m - 1 else x - 1
  }

  /** Index of the same-row right neighbour of node x, as an offset from x. */
  function RightOf(m: nat, n: nat, x: nat): (r: nat)
    requires x < m * n
    ensures r < m * n
  {
    RowFacts(x, m, n);
    if x % m == m - 1 then x - (m - 1) else x + 1
  }

  /** At node x = i*M + j the left neighbour is the one the source computes from i and j. */
  lemma LeftAt(i: nat, j: nat, m: nat, n: nat, x: nat)
    requires i < n && j < m && x == i * m + j
    ensures x < m * n
    ensures LeftOf(m, n, x) == LeftSameRow(i, j, m)
  {
    Arith.IndexBound(i, j, m, n);
    Arith.RowCol(i, j, m);
  }

  /** At node x = i*M + j the right neighbour is the one the source computes from i and j. */
  lemma RightAt(i: nat, j: nat, m: nat, n: nat, x: nat)
    requires i < n && j < m && x == i * m + j
    ensures x < m * n
    ensures RightOf(m, n, x) == RightSameRow(i, j, m)
  {
    Arith.IndexBound(i, j, m, n);
    Arith.RowCol(i, j, m);
  }

  /** Same-row neighbours of node x are mutually inverse: the left neighbour of its right
      neighbour, and the right neighbour of its left neighbour, is x itself. */
  lemma LeftRightInverse(m: nat, n: nat, x: nat)
    requires x < m * n
    ensures LeftOf(m, n, RightOf(m, n, x)) == x
    ensures RightOf(m, n, LeftOf(m, n, x)) == x
  {
    Arith.RowBound(x, m, n);
    var i, j := x / m, x % m;
    var r, l := RightOf(m, n, x), LeftOf(m, n, x);
    if j == m - 1 {
      Arith.RowCol(i, 0, m);
      assert r == i * m;
    } else {
      Arith.RowCol(i, j + 1, m);
      assert r == i * m + (j + 1);
    }
    if j == 0 {
      Arith.RowCol(i, m - 1, m);
      assert l == i * m + (m - 1);
    } else {
      Arith.RowCol(i, j - 1, m);
      assert l == i * m + (j - 1);
    }
  }

  /** The value shown for a swapped node: 3 when its activation in the first list was 0,
      2 otherwise; both differ from the binary activations 0 and 1. */
  function Mark(a: int): (c: int)
    ensures c == 2 || c == 3
    ensures c == 3 <==> a == 0
  {
    if a == 0 then 3 else 2
  }
}
