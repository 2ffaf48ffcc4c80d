/** Rounding a length up to the next multiple of an alignment, the operation
    behind both the 16-byte aligned stride of the surface-size check and the
    4-byte aligned stride of the blur surface. */
module Align {

  /** The least multiple of `m` that is at least `x` (for any sign of `x`,
      with Dafny's floor division on a positive divisor). */
  function RoundUp(x: int, m: int): (r: int)
    requires m > 0
    ensures r % m == 0
    ensures x <= r < x + m
  {
    var q := (x + m - 1) / m;
    assert (x + m - 1) == q * m + (x + m - 1) % m;
    assert (q * m) % m == 0 by { MultipleHasNoRemainder(q, m); }
    q * m
  }

  /** Quotient and remainder are unique: a decomposition x == q * m + r with
      0 <= r < m is the one Dafny's division computes. */
  lemma {:induction false} DivModUnique(x: int, m: int, q: int, r: int)
    requires m > 0 && x == q * m + r && 0 <= r < m
    ensures x / m == q && x % m == r
  {
    var q', r' := x / m, x % m;
    assert (q - q') * m == r' - r;
    NonZeroMultipleIsLarge(q - q', m);
  }

  /** A non-zero multiple of `m` is at least `m` away from zero. */
  lemma NonZeroMultipleIsLarge(k: int, m: int)
    requires m > 0
    ensures k >= 1 ==> k * m >= m
    ensures k <= -1 ==> k * m <= -m
  {
  }

  lemma MultipleHasNoRemainder(q: int, m: int)
    requires m > 0
    ensures (q * m) % m == 0 && (q * m) / m == q
  {
    DivModUnique(q * m, m, q, 0);
  }

  /** No multiple of `m` lies in [x, RoundUp(x, m)): the rounded value is the
      smallest aligned length that can hold `x`. */
  lemma {:induction false} RoundUpIsLeast(x: int, m: int, n: int)
    requires m > 0 && n % m == 0 && x <= n
    ensures RoundUp(x, m) <= n
  {
    var r := RoundUp(x, m);
    var a, b := n / m, r / m;
    assert n == a * m && r == b * m;
    assert r - n == (b - a) * m;
    NonZeroMultipleIsLarge(b - a, m);
  }

  /** Rounding up preserves order. */
  lemma RoundUpMonotone(x: int, y: int, m: int)
    requires m > 0 && x <= y
    ensures RoundUp(x, m) <= RoundUp(y, m)
  {
    RoundUpIsLeast(x, m, RoundUp(y, m));
  }

  /** Products of non-negative integers grow with their factors. */
  lemma MulMonotone(a: int, b: int, c: int, d: int)
    requires 0 <= a <= b && 0 <= c <= d
    ensures a * c <= b * d
  {
    assert a * c <= b * c;
  }

  /** In a row-major layout of `rows` rows of `stride` cells, the cell at
      column `col < stride` of row `row < rows` lies inside the layout. */
  lemma RowMajorOffsetBelow(stride: int, rows: int, col: int, row: int)
    requires 0 <= col < stride && 0 <= row < rows
    ensures 0 <= row * stride + col < rows * stride
  {
    MulMonotone(row + 1, rows, stride, stride);
    MulMonotone(0, row, 0, stride);
    assert row * stride + stride == (row + 1) * stride;
  }
}
