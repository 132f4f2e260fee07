/** The element-wise binary expression node that the library stamps out once
    per arithmetic operator. A node refers to its two operands, which must
    have the same static shape, and combines their elements on demand. */
module ExpressionTemplate {
  import opened Wrappers
  import opened StaticMatrix

  /** The operator the node is instantiated with. */
  datatype Op = Plus | Minus | Times | Divide

  /** The node cannot be formed: the operands' shapes differ
      ("Matrices must be the same size."). */
  datatype ShapeError = SizeMismatch

  /** A node over two operands; it holds the operands themselves, not copies. */
  datatype ElementExpr = ElementExpr(op: Op, lhs: Matrix, rhs: Matrix)

  function Abs(x: int): nat {
    if x < 0 then -x else x
  }

  /** Integer division as C++ performs it: the quotient is truncated toward
      zero, so the remainder is smaller than the divisor in magnitude and
      never has the opposite sign of the dividend. */
  function TruncDiv(a: int, b: int): (q: int)
    requires b != 0
    ensures Abs(a - q * b) < Abs(b)
    ensures a - q * b == 0 || (a - q * b < 0 <==> a < 0)
  {
    var n := Abs(a) / Abs(b);
    if (a >= 0) == (b > 0) then n else -n
  }

  /** The operator may be applied to this right-hand element. */
  predicate Defined(op: Op, y: int) {
    op == Divide ==> y != 0
  }

  function Apply(op: Op, x: int, y: int): int
    requires Defined(op, y)
  {
    match op
    case Plus => x + y
    case Minus => x - y
    case Times => x * y
    case Divide => TruncDiv(x, y)
  }

  /** Well-formed nodes: the shapes agree and both operands have full storage. */
  predicate WellFormed(e: ElementExpr) {
    SameShape(e.lhs, e.rhs) && Valid(e.lhs) && Valid(e.rhs)
  }

  /** Forms a node; rejected exactly when the operand shapes differ. */
  function Build(op: Op, left: Matrix, right: Matrix): (r: Result<ElementExpr, ShapeError>)
    ensures r.Success? <==> SameShape(left, right)
    ensures r.Success? ==> r.value.op == op && r.value.lhs == left && r.value.rhs == right
  {
    if left.rows == right.rows && left.cols == right.cols then
      Success(ElementExpr(op, left, right))
    else
      Failure(SizeMismatch)
  }

  /** `size()`: the left operand's cell count, which the shape check makes
      the right operand's cell count and both storage lengths too. */
  function Size(e: ElementExpr): (n: nat)
    requires WellFormed(e)
    ensures n == e.lhs.rows * e.lhs.cols && n == e.rhs.rows * e.rhs.cols
    ensures n == |e.lhs.data| == |e.rhs.data|
  {
    e.lhs.rows * e.lhs.cols
  }

  /** `operator[](index)`: the two operands' elements at one flat position,
      combined with the node's operator. */
  function Element(e: ElementExpr, index: nat): (v: int)
    requires WellFormed(e) && index < Size(e)
    requires Defined(e.op, e.rhs.data[index])
    ensures e.op == Plus ==> v == e.lhs.data[index] + e.rhs.data[index]
    ensures e.op == Minus ==> v == e.lhs.data[index] - e.rhs.data[index]
    ensures e.op == Times ==> v == e.lhs.data[index] * e.rhs.data[index]
    ensures e.op == Divide ==> v == TruncDiv(e.lhs.data[index], e.rhs.data[index])
  {
    Apply(e.op, e.lhs.data[index], e.rhs.data[index])
  }

  /** `at(row, col)`: the coordinate goes through the left operand's
      `convertToFlatIndex` (here `flat`, numbering from `base`), and the
      element there is the one `operator[]` gives for that position. */
  function At(e: ElementExpr, flat: FlatIndexer, base: nat, row: nat, col: nat): (v: int)
    requires WellFormed(e) && IndexerFits(flat, e.lhs.rows, e.lhs.cols, base)
    requires InRange(e.lhs.rows, e.lhs.cols, base, row, col)
    requires Defined(e.op, e.rhs.data[flat(row, col)])
    ensures flat(row, col) < Size(e)
    ensures v == Element(e, flat(row, col))
  {
    var index := flat(row, col);
    Apply(e.op, e.lhs.data[index], e.rhs.data[index])
  }

  /** With the row-major indexer, the coordinate view reaches every flat
      position: each `operator[]` result is some `at` result. */
  lemma AtCoversEveryElement(e: ElementExpr, base: nat, index: nat) returns (row: nat, col: nat)
    requires WellFormed(e) && index < Size(e)
    requires Defined(e.op, e.rhs.data[index])
    ensures InRange(e.lhs.rows, e.lhs.cols, base, row, col)
    ensures RowMajorFitsFor(e, base) && RowMajor(e.lhs.cols, base)(row, col) == index
    ensures At(e, RowMajor(e.lhs.cols, base), base, row, col) == Element(e, index)
  {
    RowMajorFits(e.lhs.rows, e.lhs.cols, base);
    row, col := RowMajorOnto(e.lhs.rows, e.lhs.cols, base, index);
  }

  /** The row-major indexer meets the indexer contract for the node's left operand. */
  ghost predicate RowMajorFitsFor(e: ElementExpr, base: nat) {
    IndexerFits(RowMajor(e.lhs.cols, base), e.lhs.rows, e.lhs.cols, base)
  }

  /** Read through the same indexer, a node's element at a coordinate is the
      operator applied to the operands' elements at that coordinate. */
  lemma AtIsElementwise(op: Op, m: Matrix, a: Matrix, flat: FlatIndexer, base: nat, row: nat, col: nat)
    requires Valid(m) && Valid(a) && SameShape(m, a)
    requires IndexerFits(flat, m.rows, m.cols, base)
    requires InRange(m.rows, m.cols, base, row, col)
    requires Defined(op, ReadAt(a, flat, base, row, col))
    ensures Build(op, m, a).Success?
    ensures At(Build(op, m, a).value, flat, base, row, col)
            == Apply(op, ReadAt(m, flat, base, row, col), ReadAt(a, flat, base, row, col))
  {
  }

  /** The element-wise product law: `(m * a).at(i, j) == m.at(i, j) * a.at(i, j)`. */
  lemma ProductIsElementwise(m: Matrix, a: Matrix, flat: FlatIndexer, base: nat, row: nat, col: nat)
    requires Valid(m) && Valid(a) && SameShape(m, a)
    requires IndexerFits(flat, m.rows, m.cols, base)
    requires InRange(m.rows, m.cols, base, row, col)
    ensures Build(Times, m, a).Success?
    ensures At(Build(Times, m, a).value, flat, base, row, col)
            == ReadAt(m, flat, base, row, col) * ReadAt(a, flat, base, row, col)
  {
    AtIsElementwise(Times, m, a, flat, base, row, col);
  }

  /** The element-wise difference law: `(m - a).at(i, j) == m.at(i, j) - a.at(i, j)`. */
  lemma DifferenceIsElementwise(m: Matrix, a: Matrix, flat: FlatIndexer, base: nat, row: nat, col: nat)
    requires Valid(m) && Valid(a) && SameShape(m, a)
    requires IndexerFits(flat, m.rows, m.cols, base)
    requires InRange(m.rows, m.cols, base, row, col)
    ensures Build(Minus, m, a).Success?
    ensures At(Build(Minus, m, a).value, flat, base, row, col)
            == ReadAt(m, flat, base, row, col) - ReadAt(a, flat, base, row, col)
  {
    AtIsElementwise(Minus, m, a, flat, base, row, col);
  }

  /** The 3 x 3 matrix holding 1 .. 9 in reading order. */
  function CountingMatrix(): Matrix {
    Matrix(3, 3, [1, 2, 3, 4, 5, 6, 7, 8, 9])
  }

  /** The 3 x 3 matrix holding 9 .. 1 in reading order. */
  function ReversedCountingMatrix(): Matrix {
    Matrix(3, 3, [9, 8, 7, 6, 5, 4, 3, 2, 1])
  }

  /** Adding the counting matrix to its reversal gives 10 in every cell,
      through `operator[]` and through `at` with either numbering base. */
  lemma CountingPlusReversedIsTen(base: nat)
    ensures Build(Plus, CountingMatrix(), ReversedCountingMatrix()).Success?
    ensures var e := Build(Plus, CountingMatrix(), ReversedCountingMatrix()).value;
            forall index :: 0 <= index < 9 ==> Element(e, index) == 10
    ensures var e := Build(Plus, CountingMatrix(), ReversedCountingMatrix()).value;
            RowMajorFitsFor(e, base) &&
            forall row: nat, col: nat :: InRange(3, 3, base, row, col) ==>
              At(e, RowMajor(3, base), base, row, col) == 10
  {
    var e := Build(Plus, CountingMatrix(), ReversedCountingMatrix()).value;
    RowMajorFits(3, 3, base);
  }
}
