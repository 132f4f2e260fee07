/** Fixed-shape matrices of integer elements stored in one flat sequence,
    and the coordinate-to-flat-position maps used to read them. */
module StaticMatrix {

  /** A `rows` x `cols` matrix whose elements live contiguously in `data`. */
  datatype Matrix = Matrix(rows: nat, cols: nat, data: seq<int>)

  /** The storage holds exactly one element per cell. */
  predicate Valid(m: Matrix) {
    |m.data| == m.rows * m.cols
  }

  predicate SameShape(a: Matrix, b: Matrix) {
    a.rows == b.rows && a.cols == b.cols
  }

  /** A coordinate lies inside a `rows` x `cols` grid whose first row and
      first column are numbered `base` (0 or 1 in the library's revisions). */
  predicate InRange(rows: nat, cols: nat, base: nat, row: nat, col: nat) {
    base <= row < base + rows && base <= col < base + cols
  }

  /** Turns a (row, column) coordinate into a position of the flat storage. */
  type FlatIndexer = (nat, nat) -> nat

  /** The only thing callers may rely on about a matrix type's
      `convertToFlatIndex`: in-range coordinates land inside the storage. */
  ghost predicate IndexerFits(flat: FlatIndexer, rows: nat, cols: nat, base: nat) {
    forall row: nat, col: nat :: InRange(rows, cols, base, row, col) ==> flat(row, col) < rows * cols
  }

  /** The element at a coordinate, read through a given indexer. */
  function ReadAt(m: Matrix, flat: FlatIndexer, base: nat, row: nat, col: nat): int
    requires Valid(m) && IndexerFits(flat, m.rows, m.cols, base)
    requires InRange(m.rows, m.cols, base, row, col)
  {
    m.data[flat(row, col)]
  }

  /** Row-major position of a coordinate when numbering starts at `base`. */
  function RowMajorOffset(cols: nat, base: nat, row: nat, col: nat): nat {
    if row >= base && col >= base then (row - base) * cols + (col - base) else 0
  }

  function RowMajor(cols: nat, base: nat): FlatIndexer {
    (row: nat, col: nat) => RowMajorOffset(cols, base, row, col)
  }

  /** A row-major cell position stays below the cell count. */
  lemma CellBelowSize(r: nat, c: nat, rows: nat, cols: nat)
    requires r < rows && c < cols
    ensures r * cols + c < rows * cols
  {
    assert rows * cols - (r + 1) * cols == (rows - r - 1) * cols;
  }

  /** Distinct cells of a grid have distinct row-major positions. */
  lemma CellsDistinct(r1: nat, c1: nat, r2: nat, c2: nat, cols: nat)
    requires c1 < cols && c2 < cols
    requires r1 * cols + c1 == r2 * cols + c2
    ensures r1 == r2 && c1 == c2
  {
    if r1 < r2 {
      CellBelowSize(r1, c1, r2, cols);
      assert false;
    } else if r2 < r1 {
      CellBelowSize(r2, c2, r1, cols);
      assert false;
    }
  }

  /** Every flat position below the cell count is the row-major position of a cell. */
  lemma CellOfPosition(p: nat, rows: nat, cols: nat) returns (r: nat, c: nat)
    requires p < rows * cols
    ensures r < rows && c < cols && r * cols + c == p
  {
    assert cols > 0;
    r := p / cols;
    c := p % cols;
  }

  /** The row-major indexer satisfies the indexer contract, for either base. */
  lemma RowMajorFits(rows: nat, cols: nat, base: nat)
    ensures IndexerFits(RowMajor(cols, base), rows, cols, base)
  {
    forall row: nat, col: nat | InRange(rows, cols, base, row, col)
      ensures RowMajor(cols, base)(row, col) < rows * cols
    {
      CellBelowSize(row - base, col - base, rows, cols);
    }
  }

  /** The row-major indexer never sends two in-range coordinates to one position. */
  lemma RowMajorInjective(rows: nat, cols: nat, base: nat, r1: nat, c1: nat, r2: nat, c2: nat)
    requires InRange(rows, cols, base, r1, c1) && InRange(rows, cols, base, r2, c2)
    requires RowMajorOffset(cols, base, r1, c1) == RowMajorOffset(cols, base, r2, c2)
    ensures r1 == r2 && c1 == c2
  {
    CellsDistinct(r1 - base, c1 - base, r2 - base, c2 - base, cols);
  }

  /** Distinct 1-based cells occupy distinct storage positions. */
  lemma OffsetsDiffer(rows: nat, cols: nat, r1: nat, c1: nat, r2: nat, c2: nat)
    requires InRange(rows, cols, 1, r1, c1) && InRange(rows, cols, 1, r2, c2)
    requires r1 != r2 || c1 != c2
    ensures RowMajorOffset(cols, 1, r1, c1) != RowMajorOffset(cols, 1, r2, c2)
  {
    if RowMajorOffset(cols, 1, r1, c1) == RowMajorOffset(cols, 1, r2, c2) {
      RowMajorInjective(rows, cols, 1, r1, c1, r2, c2);
    }
  }

  /** Every storage position is reached by the row-major indexer from some in-range coordinate. */
  lemma RowMajorOnto(rows: nat, cols: nat, base: nat, p: nat) returns (row: nat, col: nat)
    requires p < rows * cols
    ensures InRange(rows, cols, base, row, col)
    ensures RowMajorOffset(cols, base, row, col) == p
  {
    var r, c := CellOfPosition(p, rows, cols);
    row, col := base + r, base + c;
  }

  /** A matrix whose every element is zero: what a default-constructed matrix holds. */
  function Zero(rows: nat, cols: nat): (m: Matrix)
    ensures Valid(m) && m.rows == rows && m.cols == cols
    ensures forall p :: 0 <= p < |m.data| ==> m.data[p] == 0
  {
    Matrix(rows, cols, seq(rows * cols, _ => 0))
  }

  /** The 1-based, row-major element access `at(row, col)` of the matrix class. */
  function Entry(m: Matrix, row: nat, col: nat): int
    requires Valid(m) && InRange(m.rows, m.cols, 1, row, col)
  {
    CellBelowSize(row - 1, col - 1, m.rows, m.cols);
    m.data[RowMajorOffset(m.cols, 1, row, col)]
  }

  /** The 1-based access is the coordinate read through the row-major indexer numbering from 1. */
  lemma EntryIsReadAt(m: Matrix, row: nat, col: nat)
    requires Valid(m) && InRange(m.rows, m.cols, 1, row, col)
    ensures IndexerFits(RowMajor(m.cols, 1), m.rows, m.cols, 1)
    ensures Entry(m, row, col) == ReadAt(m, RowMajor(m.cols, 1), 1, row, col)
  {
    RowMajorFits(m.rows, m.cols, 1);
  }

  /** Adds `x` to the element at one coordinate; every other element keeps its value. */
  function AddToEntry(m: Matrix, row: nat, col: nat, x: int): (m': Matrix)
    requires Valid(m) && InRange(m.rows, m.cols, 1, row, col)
    ensures Valid(m') && SameShape(m', m)
    ensures Entry(m', row, col) == Entry(m, row, col) + x
    ensures forall r: nat, c: nat :: InRange(m.rows, m.cols, 1, r, c) && (r != row || c != col) ==>
              Entry(m', r, c) == Entry(m, r, c)
  {
    CellBelowSize(row - 1, col - 1, m.rows, m.cols);
    var p := RowMajorOffset(m.cols, 1, row, col);
    var m' := m.(data := m.data[p := m.data[p] + x]);
    forall r: nat, c: nat | InRange(m.rows, m.cols, 1, r, c) && (r != row || c != col)
      ensures Entry(m', r, c) == Entry(m, r, c)
    {
      OffsetsDiffer(m.rows, m.cols, r, c, row, col);
    }
    m'
  }
}
