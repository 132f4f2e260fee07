# Matrix expression templates: a Dafny model

This project models the core of a small C++ matrix library. It has three parts.

- **The element-wise binary expression node.** One macro stamps it out once per
  arithmetic operator (`+`, `-`, `*`, `/`). The node refers to two operands
  that must have the same static shape, and it computes nothing up front.
  `operator[](i)` combines the operands' `i`-th stored elements with the
  operator. `at(row, col)` first turns the coordinate into a flat position with
  the left operand's `convertToFlatIndex` and then does the same. `size()` is
  rows times columns.
- **The early runtime-sized `Matrix<T>`.** Its three constructors only record
  `m_rows` and `m_cols` and never allocate element storage.
- **The benchmark helper `matrix_multiply`.** It multiplies a matrix by a
  column vector. It uses 1-based triple loops that add into a zero-initialised
  result.

Modules:

- `StaticMatrix` (`static_matrix.dfy`) defines a fixed-shape matrix value:
  dimensions plus flat integer storage. It also defines coordinate-to-position
  indexers and the 1-based row-major `Entry` used by the benchmark.
- `ExpressionTemplate` (`expression_template.dfy`) defines the node.
- `EarlyMatrix` (`early_matrix.dfy`) defines the runtime-sized `Matrix<T>`.
- `Bench` (`bench.dfy`) defines `matrix_multiply`.
- `Wrappers` (`wrappers.dfy`) defines the `Result` type.

The matrix types' `convertToFlatIndex` is not part of this model. The node
takes it as a parameter `flat`, together with the number `base` of the first
row and column. The node relies on one fact only: every in-range coordinate
maps below `rows * cols` (`IndexerFits`). The library's revisions disagree
about whether indices start at 0 or 1. `test/main.cpp:22-25` reads from 0, and
`test/operators_test.cpp:31-34` reads from 1. So both bases are allowed. The
row-major indexer is proved to satisfy the contract for any base. It is also
proved injective and onto.

The macro's node differs from the later `mat::` node that most tests use:

- The macro's node has no `rows()`/`cols()`, only `size()`
  (`include/expression_template.h:41`).
- The macro's `static_assert` demands exactly equal shapes
  (`include/expression_template.h:15-16`). So a 1 x 1 operand cannot be
  broadcast, whereas the later node multiplies a matrix by a wrapped scalar and
  chains such products (`test/wrapper_test.cpp:68-90`).
- The macro's node holds both operands as `const` references
  (`include/expression_template.h:23-24`). The later node stores a wrapped
  scalar by value (`test/wrapper_test.cpp:50-66`).

In Dafny, matrices are immutable values. So "building or evaluating a node
never modifies its operands" holds by construction. `Build` states that the
node holds exactly the operands it was given.

The nested-list constructor of `Matrix<T>` reads `init[0]`, but
`std::initializer_list` has no subscript operator. The model reads the
expression as "the first inner list". It requires at least one inner list,
because the constructor reads that list unconditionally. The `VectorSize` tags
are modelled as written. `ROW` puts the vector's length into the row count, so
it gives an n x 1 shape. `COLUMN` gives a 1 x n shape.

## Model

| member | source | states |
|---|---|---|
| ExpressionTemplate.Build | include/expression_template.h:15-27 | a node is formed exactly when both row counts and both column counts agree, otherwise the size-mismatch error; a formed node holds the operator and the very operands it was given |
| ExpressionTemplate.Size | include/expression_template.h:41 | `size()` is the left operand's rows times columns, and by the shape check also the right operand's, and both storage lengths |
| ExpressionTemplate.Element | include/expression_template.h:31-34 | `operator[](i)` is the sum, difference, product or truncated quotient of the two operands' `i`-th elements, according to the node's operator |
| ExpressionTemplate.TruncDiv | include/expression_template.h:33 | the `/` instantiation divides as C++ integers do: the remainder is below the divisor in magnitude and never takes the opposite sign of the dividend, which is truncation toward zero; the divisor must be non-zero |
| ExpressionTemplate.At | include/expression_template.h:35-39 | for any indexer meeting the `convertToFlatIndex` contract, an in-range coordinate maps inside the node, and `at(row, col)` equals `operator[]` at that flat position |
| ExpressionTemplate.AtCoversEveryElement | include/expression_template.h:31-39 | with a row-major indexer, every flat position is reached by some in-range coordinate, so the `at` view and the `[]` view show the same elements |
| ExpressionTemplate.AtIsElementwise | include/expression_template.h:35-39 | for equal-shaped operands, the node's element at a coordinate is the operator applied to the operands' elements at that same coordinate |
| ExpressionTemplate.ProductIsElementwise | test/operators_test.cpp:29-34 | `(m * a)(i, j) == m(i, j) * a(i, j)` for every in-range coordinate |
| ExpressionTemplate.DifferenceIsElementwise | test/operators_test.cpp:80-88 | `(m - a)(i, j) == m(i, j) - a(i, j)` for every in-range coordinate |
| ExpressionTemplate.CountingPlusReversedIsTen | test/operators_test.cpp:63-70 | the 1..9 matrix plus its reversal has every element equal to 10, read by flat position or by coordinate with either base |
| StaticMatrix.RowMajorFits | include/expression_template.h:37 | the row-major indexer meets the `convertToFlatIndex` contract: in-range coordinates land below `rows * cols`, for either base |
| StaticMatrix.RowMajorInjective | test/construction_test.cpp:10-16 | under row-major storage, read in reading order, two in-range coordinates with the same storage position are the same coordinate |
| StaticMatrix.RowMajorOnto | test/construction_test.cpp:10-16 | every storage position is the row-major position of some in-range coordinate |
| StaticMatrix.Zero | bench/bench.cpp:25 | a newly constructed result matrix has the requested shape, full storage, and every element equal to 0 |
| StaticMatrix.EntryIsReadAt | bench/bench.cpp:35 | the 1-based `at` used by `matrix_multiply` is the general coordinate read through the row-major indexer numbering from 1, so both read the same element |
| StaticMatrix.AddToEntry | bench/bench.cpp:35 | `result->at(i, j) += x` raises cell (i, j) by `x` and leaves every other cell and the shape unchanged |
| EarlyMatrix.FromDimensions | include/Matrix.hpp:32-36 | `Matrix(rows, columns)` records exactly the given dimensions and allocates nothing |
| EarlyMatrix.FromNestedList | include/Matrix.hpp:39-43 | the nested-list constructor needs at least one inner list; rows is the number of inner lists, cols the first inner list's length; nothing is allocated |
| EarlyMatrix.NestedListIgnoresLaterRows | include/Matrix.hpp:39-43 | two nested lists build the same matrix exactly when they agree on the number of inner lists and on the first inner list's length; the later lists' lengths are never checked |
| EarlyMatrix.RaggedListAccepted | include/Matrix.hpp:39-43 | a ragged list with rows of lengths 3 and 1 is accepted and gives a 2 x 3 matrix |
| EarlyMatrix.FromVector | include/Matrix.hpp:50-55 | with `ROW` the shape is length x 1, with `COLUMN` it is 1 x length; either way rows times cols is the vector's length; nothing is allocated |
| EarlyMatrix.VectorTagsTranspose | include/Matrix.hpp:51-52 | the two tags give transposed shapes for the same vector |
| Bench.MatrixMultiply | bench/bench.cpp:10-40 | for a single-column right operand whose row count is the left operand's column count, the result has `m.rows()` rows and 1 column, and every cell (i, j) holds the sum over k = 1..`m.cols()` of m(i, k) * columnVector(k, j) |
| Bench.PartialDotWithUnit | bench/bench.cpp:33-36 | accumulating row i against the unit column for k gives 0 until the running sum reaches k, and m(i, k) from then on |
| Bench.ProductWithUnitColumn | bench/bench.cpp:30-37 | any result meeting `MatrixMultiply`'s postcondition for the unit column `UnitColumn(m.cols, k)` (1 in row k, 0 elsewhere) is column k of the matrix |

## Left out

- The later `mat::Matrix<T, R, C>` library is not part of this model. Most
  tests use it, but its source is not shown. This covers the scalar wrapper and
  broadcast, transpose, augment, the row swapper, `solve`, `identity`,
  iterators and bounds-checked `at`. The only parts of it used here are those
  `matrix_multiply` needs: zero-initialised construction, and `at` taken as
  1-based row-major (`StaticMatrix.Entry`).
- The element type is `int`, not `double`. Floating point is not modelled,
  and neither is `compare` with its `1e-6` tolerance. C++ signed overflow is
  undefined behaviour, so arithmetic is unbounded here.
- Value-type promotion through `decltype` is not modelled. Neither are
  template partial specialisation or reference lifetimes. Operands are
  immutable values.
- Dimensions and indices are `nat`, not `size_t`. No wrap-around can arise,
  because nothing here adds or multiplies dimensions beyond `rows * cols`.
- For `operator[]` and `at`, a flat index or coordinate outside the node is
  excluded by precondition. The node itself does no check. What
  `convertToFlatIndex` and the operands' `operator[]` do out of range is not
  shown. A zero divisor in the `/` node is excluded by precondition too,
  because integer division by zero is undefined behaviour in C++.
- ExpressionTemplate.At: `convertToFlatIndex` is only assumed to map
  in-range coordinates into the storage. The concrete layout of the matrix
  types is not shown.
- `matrix_multiply` returns the result matrix itself, not a `unique_ptr` to it.
  The inputs are values, so they are read-only by construction.
- Random matrix generation (`generate_mat`, `random_device`), `main` and its
  error output are left out. So is the test harness (Catch, the copy-throwing
  `Uncopyable` mock, `mat_for_each`). They are I/O, randomness or harness
  code.
- The destructor of `Matrix<T>` has an empty body. Nothing is ever allocated,
  so there is nothing to model beyond `data == Null` in every constructor's
  postcondition.
