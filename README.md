# Dense matrix model

This project models the `Matrix` class of the `eqs` package. A matrix is a
fixed-shape dense grid of numbers: `rowsCount` rows of `colsCount` values,
filled with zeros when it is built. It is updated in place by single-cell
overwrite and accumulate, a row-major bulk fill, identity rows and columns,
and scaling. It also derives new values: a deep copy, an element-wise sum
and a matrix-vector product. It can be read directly or through the
transposed indexing that avoids building a transpose. Equality means the
same shape plus an element-wise closeness predicate.

Two modules:

- `Grids` (`grids.dfy`) is the value-level specification. A grid
  (`seq<seq<real>>`) is the list of rows. There is one function per
  operation (`Zeros`, `Updated`, `Accumulated`, `FromRowMajor`,
  `IdentityRow`, `IdentityCol`, `Transpose`, `Scaled`, `Sum`, `Product`,
  `AllClose`). The lemmas state what the operations promise in
  combination: row-major round trips, transposition, scaling, addition and
  the product.
- `Matrices` (`matrix.dfy`) holds the class `Matrix`. The shape is stored
  in `const` fields, so it cannot change after construction. The store is
  an `array2<real>` whose dimensions `Valid()` ties to the shape. `Cells()`
  is the grid view of the store. Every mutating method `modifies data`
  only. Each one states its effect cell by cell, what stays unchanged, and
  its new `Cells()` as a `Grids` function of the old ones. The fluent
  `return self` is an out-parameter equal to `this`. A `ValueError` raised
  for mismatched sizes becomes `Failure(SizeMismatch)` of a `Result`.

## Model

| member | source | states |
|---|---|---|
| `Matrices.Matrix.constructor` | eqs/matrix.py:14-18 | the new matrix has the requested shape, `isSquare` holds exactly when rows equal columns, its store is fresh, and every cell is 0 |
| `Matrices.Matrix.Cells` | eqs/matrix.py:18 | the store is exactly `rowsCount` rows of `colsCount` values, and the grid view agrees with the store cell by cell |
| `Matrices.Matrix.ValueAt` | eqs/matrix.py:137-146 | reads the value of cell (row, col) of the grid, for in-range indices |
| `Matrices.Matrix.ValueTransposedAt` | eqs/matrix.py:148-161 | indices are checked against the original shape; the result is `ValueAt(col, row)`, which is cell (row, col) of the transpose |
| `Matrices.Matrix.SetValue` | eqs/matrix.py:48-65 | the target cell holds the value, every other cell and the shape are unchanged, and the same matrix is returned |
| `Matrices.Matrix.AddToValue` | eqs/matrix.py:67-81 | the target cell grows by the amount, every other cell is unchanged, and the same matrix is returned |
| `Matrices.Matrix.SetData` | eqs/matrix.py:83-107 | fails with a size mismatch and changes nothing exactly when the data length differs from rows x cols; otherwise cell (i, j) becomes `data[i * cols + j]` (a row-major fill) and the same matrix is returned |
| `Matrices.Matrix.SetIdentityRow` | eqs/matrix.py:109-121 | row `row` becomes 1 at column `row` and 0 elsewhere (all zeros when `row >= cols`); all other rows are unchanged |
| `Matrices.Matrix.SetIdentityCol` | eqs/matrix.py:123-135 | column `col` becomes 1 at row `col` and 0 elsewhere; all other columns are unchanged |
| `Matrices.Matrix.Scale` | eqs/matrix.py:163-178 | every cell is multiplied by the factor in place, in the same store; the same matrix is returned |
| `Matrices.Matrix.TimesVector` | eqs/matrix.py:180-206 | fails with a size mismatch exactly when the column count differs from the vector length; otherwise returns a vector of length `rowsCount` whose entry i is the dot product of row i with the vector; the matrix is not modified |
| `Matrices.Matrix.Add` | eqs/matrix.py:208-231 | fails with a size mismatch exactly when the row counts or the column counts differ; otherwise returns a fresh matrix of the same shape whose every cell is the sum of the operands' cells; neither operand is modified |
| `Matrices.Matrix.Copy` | eqs/matrix.py:236-248 | returns a fresh matrix, with fresh storage, of the same shape and values |
| `Matrices.Matrix.Equals` | eqs/matrix.py:257-271 | true exactly when both row counts and column counts agree and every pair of corresponding cells satisfies the element predicate |
| `Grids.RowMajorInBounds` | eqs/matrix.py:102-105 | helper for `SetData`: the offset `row * cols + col` that the fill loop reads lies inside a list of rows x cols values |
| `Grids.FromRowMajorAt` | eqs/matrix.py:102-105 | helper for `SetData`: the specification of the fill is a rows x cols grid, and the offset of cell (i, j) is in range of the data |
| `Grids.FromRowMajorCells` | eqs/matrix.py:102-105 | helper for `SetData`: the same fact for every cell at once, from which its per-cell postcondition follows |
| `Grids.FlattenAt` | eqs/matrix.py:88-91 | listing a grid's cells row after row puts cell (i, j) at offset `i * cols + j` and yields rows x cols values |
| `Grids.FlattenFromRowMajor` | eqs/matrix.py:99-105 | filling a grid from data and listing its cells row after row gives the data back |
| `Grids.FromRowMajorFlatten` | eqs/matrix.py:99-105 | listing a grid's cells row after row and filling from that list gives the grid back |
| `Grids.FromRowMajorSplit` | eqs/matrix.py:102-105 | the first row of a row-major fill is the first `cols` values, and the other rows are the fill of the rest |
| `Grids.AccumulateTwice` | eqs/matrix.py:80 | adding `a` and then `b` to a cell is the same as adding `a + b` |
| `Grids.UpdateTwice` | eqs/matrix.py:64 | overwriting a cell twice keeps only the second value |
| `Grids.TransposeInvolution` | eqs/matrix.py:148-161 | the transpose of a rows x cols grid is a cols x rows grid, and transposing twice gives the grid back |
| `Grids.IdentityColIsTransposedRow` | eqs/matrix.py:123-135 | setting identity column `c` and then transposing equals setting identity row `c` of the transpose (the two operations are duals) |
| `Grids.IdentityRowPicks` | eqs/matrix.py:109-121 | after row `r` is made an identity row, entry `r` of the product with `v` is `v[r]`, or 0 when `r` is not a column index |
| `Grids.ScaleByOne` | eqs/matrix.py:174-176 | scaling by 1 changes nothing |
| `Grids.ScaleInverse` | eqs/matrix.py:174-176 | scaling by a nonzero `k` and then by `1 / k` restores every cell |
| `Grids.ScaleTwice` | eqs/matrix.py:174-176 | scaling by `a` and then by `b` is scaling by `a * b` |
| `Grids.ProductOfSum` | eqs/matrix.py:199-204 | the product of a sum of matrices with `v` is the sum of the two products |
| `Grids.ProductOfScaled` | eqs/matrix.py:199-204 | the product of a scaled matrix with `v` is the product scaled by the same factor |
| `Grids.ProductExample` | eqs/matrix.py:199-204 | `[[1, 2], [3, 4]]` times `[5, 6]` is `[17, 39]` |
| `Grids.SumSelfDoubles` | eqs/matrix.py:227-229 | adding a matrix to itself doubles every cell |
| `Grids.SumCommutes` | eqs/matrix.py:227-229 | addition is commutative on matrices of one shape |
| `Grids.SumZeros` | eqs/matrix.py:227-229 | adding the zero matrix of the same shape changes nothing |
| `Grids.AllCloseReflexive` | eqs/matrix.py:263-269 | every matrix is close to itself whenever the element predicate is reflexive |
| `Grids.AllCloseSymmetric` | eqs/matrix.py:263-269 | closeness of matrices is symmetric whenever the element predicate is |

## Left out

- Numbers are exact reals. Floating-point rounding in `scale`, `times_vector` and `+` is not modelled.
- `are_close_enough` comes from the `geom2d` package and is not part of this model. Equality takes the element predicate as the parameter `close`, so no epsilon is modelled.
- Matrices.Matrix.Equals: the `self is other` fast path and the `isinstance` test of `__eq__` (eqs/matrix.py:251-255) are not modelled. A matrix compared with itself is therefore equal only when `close` holds on each of its cells, and comparison with a non-matrix value cannot be expressed.
- The `Vector` class of `eqs` is not part of this model. A vector is a `seq<real>`: its length is `|v|`, reading entry `j` is `v[j]`, and the product is built in a fresh array and returned as a sequence.
- `list_of_list_of_zeros` from `utils.lists` is not part of this model. The constructor allocates an `array2` whose cells start at 0, which is that helper's observable effect.
- `__mul__` (eqs/matrix.py:233-234) returns its right operand unchanged. It is placeholder code with no product semantics, so it is not modelled.
- Python accepts negative indices (counting from the end) and negative dimensions. Indices and dimensions are `nat` here. An index past the end raises `IndexError` in the source; here it is a precondition, not an error result.
- `__add__` applied to an operand that is not a matrix fails in the source with an attribute error. That case is not modelled: `Add` takes a `Matrix`.
- `set_identity_row` and `set_identity_col` never index when there is nothing to write: no columns for a row, no rows for a column. The source therefore accepts any index in that case, and so does the model.
