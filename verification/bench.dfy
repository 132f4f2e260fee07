/** The benchmark's helper that multiplies a matrix by a column vector,
    used to generate right-hand sides for the solver. */
module Bench {
  import opened StaticMatrix

  /** The shapes the helper accepts: a single-column right operand whose
      row count is the left operand's column count. */
  predicate MultiplicableByColumn(m: Matrix, columnVector: Matrix) {
    Valid(m) && Valid(columnVector) && columnVector.cols == 1 && m.cols == columnVector.rows
  }

  /** The partial dot product Σ_{k = 1 .. n} m(i, k) * columnVector(k, j). */
  function PartialDot(m: Matrix, columnVector: Matrix, i: nat, j: nat, n: nat): int
    requires MultiplicableByColumn(m, columnVector)
    requires 1 <= i <= m.rows && 1 <= j <= columnVector.cols && n <= m.cols
    decreases n
  {
    if n == 0 then 0
    else PartialDot(m, columnVector, i, j, n - 1) + Entry(m, i, n) * Entry(columnVector, n, j)
  }

  /** `matrix_multiply`: starting from a zero matrix of shape
      `m.rows x columnVector.cols`, adds `m(i, k) * columnVector(k, j)` into
      cell (i, j) for every k, visiting rows, columns and k upward from 1.
      Each cell ends up holding the full dot product of row i with column j. */
  method MatrixMultiply(m: Matrix, columnVector: Matrix) returns (result: Matrix)
    requires MultiplicableByColumn(m, columnVector)
    ensures Valid(result) && result.rows == m.rows && result.cols == columnVector.cols
    ensures forall i: nat, j: nat :: InRange(result.rows, result.cols, 1, i, j) ==>
              Entry(result, i, j) == PartialDot(m, columnVector, i, j, m.cols)
  {
    result := Zero(m.rows, columnVector.cols);
    var i := 1;
    while i <= result.rows
      invariant 1 <= i <= result.rows + 1
      invariant Valid(result) && result.rows == m.rows && result.cols == columnVector.cols
      invariant forall r: nat, c: nat :: InRange(result.rows, result.cols, 1, r, c) && r < i ==>
                  Entry(result, r, c) == PartialDot(m, columnVector, r, c, m.cols)
      invariant forall r: nat, c: nat :: InRange(result.rows, result.cols, 1, r, c) && r >= i ==>
                  Entry(result, r, c) == 0
    {
      var j := 1;
      while j <= result.cols
        invariant 1 <= j <= result.cols + 1
        invariant Valid(result) && result.rows == m.rows && result.cols == columnVector.cols
        invariant forall r: nat, c: nat :: InRange(result.rows, result.cols, 1, r, c) && (r < i || (r == i && c < j)) ==>
                    Entry(result, r, c) == PartialDot(m, columnVector, r, c, m.cols)
        invariant forall r: nat, c: nat :: InRange(result.rows, result.cols, 1, r, c) && (r > i || (r == i && c >= j)) ==>
                    Entry(result, r, c) == 0
      {
        ghost var before := result;
        var k := 1;
        while k <= m.cols
          invariant 1 <= k <= m.cols + 1
          invariant Valid(result) && SameShape(result, before)
          invariant Entry(result, i, j) == PartialDot(m, columnVector, i, j, k - 1)
          invariant forall r: nat, c: nat :: InRange(result.rows, result.cols, 1, r, c) && (r != i || c != j) ==>
                      Entry(result, r, c) == Entry(before, r, c)
        {
          result := AddToEntry(result, i, j, Entry(m, i, k) * Entry(columnVector, k, j));
          k := k + 1;
        }
        j := j + 1;
      }
      i := i + 1;
    }
  }

  /** The column vector with a 1 in row `k` and 0 everywhere else. */
  function UnitColumn(n: nat, k: nat): (u: Matrix)
    requires 1 <= k <= n
    ensures Valid(u) && u.rows == n && u.cols == 1
    ensures Entry(u, k, 1) == 1
    ensures forall r: nat :: 1 <= r <= n && r != k ==> Entry(u, r, 1) == 0
  {
    Matrix(n, 1, seq(n, p => if p == k - 1 then 1 else 0))
  }

  /** Summing row `i` against the unit column for `k` picks out `m(i, k)`
      once the sum has reached `k`, and gives 0 before that. */
  lemma {:induction false} PartialDotWithUnit(m: Matrix, k: nat, i: nat, n: nat)
    requires Valid(m) && 1 <= k <= m.cols && 1 <= i <= m.rows && n <= m.cols
    ensures MultiplicableByColumn(m, UnitColumn(m.cols, k))
    ensures PartialDot(m, UnitColumn(m.cols, k), i, 1, n) == if n >= k then Entry(m, i, k) else 0
  {
    if n > 0 {
      PartialDotWithUnit(m, k, i, n - 1);
    }
  }

  /** Multiplying by the unit column for `k` copies column `k` of `m`. */
  lemma ProductWithUnitColumn(m: Matrix, k: nat, result: Matrix)
    requires Valid(m) && 1 <= k <= m.cols
    requires Valid(result) && result.rows == m.rows && result.cols == 1
    requires forall i: nat, j: nat :: InRange(result.rows, result.cols, 1, i, j) ==>
               Entry(result, i, j) == PartialDot(m, UnitColumn(m.cols, k), i, j, m.cols)
    ensures forall i: nat :: 1 <= i <= m.rows ==> Entry(result, i, 1) == Entry(m, i, k)
  {
    forall i: nat | 1 <= i <= m.rows
      ensures Entry(result, i, 1) == Entry(m, i, k)
    {
      PartialDotWithUnit(m, k, i, m.cols);
    }
  }
}
