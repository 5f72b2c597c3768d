/**
 * Row-major index arithmetic shared by the curve sampler (segment, step)
 * and the surface grid (row, column): `i * m + j` with `0 <= j < m`
 * determines `i` and `j`.
 */
module RowMajor {

  lemma MulSign(d: int, n: int)
    requires n > 0
    ensures d >= 1 ==> d * n >= n
    ensures d <= -1 ==> d * n <= -n
  {
    assert d * n == (d - 1) * n + n;
    assert d * n == (d + 1) * n - n;
    assert d >= 1 ==> (d - 1) * n >= 0;
    assert d <= -1 ==> (d + 1) * n <= 0;
  }

  /** Row and column come back out of a row-major index. */
  lemma RowCol(i: int, j: int, m: int)
    requires m > 0 && 0 <= j < m
    ensures (i * m + j) / m == i && (i * m + j) % m == j
  {
    var k := i * m + j;
    var q, r := k / m, k % m;
    assert (q - i) * m == j - r;
    MulSign(q - i, m);
  }

  /** A reduced position lands inside the n x m grid. */
  lemma CellBelow(i: int, j: int, n: int, m: int)
    requires 0 <= i < n && 0 <= j < m
    ensures 0 <= i * m + j < n * m
  {
    assert (n - 1 - i) * m >= 0;
    assert n * m == (n - 1 - i) * m + i * m + m;
  }
}
