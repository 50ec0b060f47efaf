/** Row-major index arithmetic for an M-column grid: node x sits at row x / M, column x % M. */
module Arith {

  /** Multiplication by a non-negative factor is monotone. */
  lemma {:induction false} MulMono(a: nat, b: nat, m: nat)
    requires a <= b
    ensures a * m <= b * m
  {
    if a < b {
      MulMono(a, b - 1, m);
      assert (b - 1) * m + m == b * m;
    }
  }

  /** One more row adds one row's length. */
  lemma MulSucc(a: nat, m: nat)
    ensures (a + 1) * m == a * m + m
  {
  }

  /** The node at row i, column j of an M-column grid has row i and column j again. */
  lemma RowCol(i: nat, j: nat, m: nat)
    requires j < m
    ensures (i * m + j) / m == i
    ensures (i * m + j) % m == j
  {
    var x := i * m + j;
    var q, r := x / m, x % m;
    assert x == q * m + r;
    if q < i {
      MulMono(q + 1, i, m);
      assert false;
    } else if q > i {
      MulMono(i + 1, q, m);
      assert false;
    }
  }

  /** Every index below M*N has a row below N. */
  lemma RowBound(x: nat, m: nat, n: nat)
    requires x < m * n
    ensures m > 0
    ensures x / m < n
    ensures x == (x / m) * m + x % m
    ensures x % m < m
  {
    if x / m >= n {
      MulMono(n, x / m, m);
      assert false;
    }
  }

  /** Position (i, j) of an M-column, N-row grid is an index below M*N. */
  lemma IndexBound(i: nat, j: nat, m: nat, n: nat)
    requires i < n && j < m
    ensures i * m + j < m * n
    ensures (i + 1) * m <= m * n
  {
    MulMono(i + 1, n, m);
  }

  /** A value below M is its own remainder; one between M and 2M loses one M. */
  lemma ModSmall(a: nat, m: nat)
    requires a < 2 * m
    ensures a < m ==> a % m == a
    ensures m <= a ==> a % m == a - m
  {
    if a < m {
      RowCol(0, a, m);
    } else {
      RowCol(1, a - m, m);
    }
  }
}
