/** Facts about multiplication and floor division by a positive variable. */
module Arithmetic {

  lemma MulMono(n: int, a: int, b: int)
    requires n >= 0
    ensures a <= b ==> n * a <= n * b
  {
    assert n * b - n * a == n * (b - a);
  }

  lemma MulCancel(n: int, a: int, b: int)
    requires n > 0 && n * a < n * b
    ensures a < b
  {
    MulMono(n, b, a);
  }

  /** n*lo <= s <= n*hi bounds the floor quotient s/n by lo and hi. */
  lemma FloorDivBounds(s: int, n: int, lo: int, hi: int)
    requires n > 0 && n * lo <= s <= n * hi
    ensures lo <= s / n <= hi
  {
    var q := s / n;
    assert s == n * q + s % n && s % n < n;
    assert n * (q + 1) == n * q + n;
    assert n * (hi + 1) == n * hi + n;
    MulCancel(n, lo, q + 1);
    MulCancel(n, q, hi + 1);
  }

  lemma DivNonneg(a: int, n: int)
    requires a >= 0 && n > 0
    ensures a / n >= 0
  {
    assert a == n * (a / n) + a % n && a % n < n;
    assert n * -1 == -n;
    MulCancel(n, -1, a / n);
  }

  /** Quotient and remainder of q*n + r are q and r. */
  lemma DivModUnique(q: int, r: int, n: int)
    requires n > 0 && 0 <= r < n
    ensures (q * n + r) / n == q && (q * n + r) % n == r
  {
    var a := q * n + r;
    var d := a / n - q;
    assert a == n * (a / n) + a % n;
    assert n * d == n * (a / n) - n * q;
    MulMono(n, 1, d);
    MulMono(n, d, -1);
  }

  /** A row-major index row*cols + col with col < cols stays below rows*cols when row < rows. */
  lemma RowMajorBound(row: nat, col: nat, rows: nat, cols: nat)
    requires row < rows && col < cols
    ensures row * cols + col < rows * cols
  {
    MulMono(cols, row + 1, rows);
    assert cols * (row + 1) == row * cols + cols;
  }
}
