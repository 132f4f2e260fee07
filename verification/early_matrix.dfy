/** The early, runtime-sized `Matrix<T>`: only its dimension bookkeeping
    exists. No constructor allocates element storage, so the data pointer
    stays null and the destructor has nothing to release. */
module EarlyMatrix {

  /** Which dimension a vector's length is put into. */
  datatype VectorSize = Row | Column

  /** The element pointer `m_data`: null, or pointing at a buffer of elements.
      No constructor ever makes it a buffer; the second alternative is what
      "the pointer stays null" is stated against. */
  datatype Storage = Null | Buffer(elements: seq<int>)

  datatype Matrix = Matrix(data: Storage, rows: nat, cols: nat)

  /** `Matrix(rows, columns)`: records the given dimensions and nothing else. */
  function FromDimensions(rows: nat, columns: nat): (m: Matrix)
    ensures m.rows == rows && m.cols == columns
    ensures m.data == Null
  {
    Matrix(Null, rows, columns)
  }

  /** Construction from a nested list: one row per inner list, and as many
      columns as the first inner list has; the other inner lists are not
      looked at. There must be a first inner list to read. */
  function FromNestedList(init: seq<seq<int>>): (m: Matrix)
    requires |init| > 0
    ensures m.rows == |init| && m.cols == |init[0]|
    ensures m.data == Null
  {
    Matrix(Null, |init|, |init[0]|)
  }

  /** Construction from a vector: the tag `Row` puts the length into the
      row count and `Column` into the column count; the other dimension is 1. */
  function FromVector(vect: seq<int>, kind: VectorSize): (m: Matrix)
    ensures kind == Row ==> m.rows == |vect| && m.cols == 1
    ensures kind == Column ==> m.rows == 1 && m.cols == |vect|
    ensures m.rows * m.cols == |vect|
    ensures m.data == Null
  {
    Matrix(Null, if kind == Row then |vect| else 1, if kind == Column then |vect| else 1)
  }

  /** Only the row count and the first inner list's length matter: two
      nested lists that agree on those build the same matrix. */
  lemma NestedListIgnoresLaterRows(a: seq<seq<int>>, b: seq<seq<int>>)
    requires |a| > 0 && |b| > 0
    ensures FromNestedList(a) == FromNestedList(b) <==> |a| == |b| && |a[0]| == |b[0]|
  {
  }

  /** Ragged input is accepted: rows of lengths 3 and 1 give a 2 x 3 matrix. */
  lemma RaggedListAccepted()
    ensures FromNestedList([[1, 2, 3], [4]]) == Matrix(Null, 2, 3)
  {
  }

  /** The two tags give transposed shapes for the same vector. */
  lemma VectorTagsTranspose(vect: seq<int>)
    ensures FromVector(vect, Row).rows == FromVector(vect, Column).cols
    ensures FromVector(vect, Row).cols == FromVector(vect, Column).rows
  {
  }
}
