/** The dense matrix class: a fixed `rowsCount` x `colsCount` store of numbers,
    filled with zeros on construction and updated in place cell by cell.

    Numbers are exact reals. The public view of a matrix is `Cells()`, its
    grid of values; every operation is specified against a function of the
    `Grids` module, and the lemmas there state what combining them promises.
 */
module Matrices {
  import opened Grids

  /** The one error the matrix raises on its own: operands of incompatible size. */
  datatype MatrixError = SizeMismatch

  datatype Result<T> = Success(value: T) | Failure(error: MatrixError)

  class Matrix {
    const rowsCount: nat
    const colsCount: nat
    const isSquare: bool
    const data: array2<real>

    /** The store has exactly `rowsCount` rows of `colsCount` values each. */
    ghost predicate Valid()
    {
      data.Length0 == rowsCount && data.Length1 == colsCount &&
      isSquare == (rowsCount == colsCount)
    }

    /** The values of the matrix, row by row. */
    ghost function Cells(): (g: Grid)
      reads data
      requires Valid()
      ensures IsGrid(g, rowsCount, colsCount)
      ensures forall i, j :: 0 <= i < rowsCount && 0 <= j < colsCount ==> g[i][j] == data[i, j]
    {
      seq(rowsCount, i reads data requires 0 <= i < rowsCount =>
        seq(colsCount, j reads data requires 0 <= j < colsCount => data[i, j]))
    }

    /** A `rows` x `cols` matrix of zeros. */
    constructor (rows: nat, cols: nat)
      ensures Valid() && fresh(data)
      ensures rowsCount == rows && colsCount == cols
      ensures isSquare <==> rows == cols
      ensures forall i, j :: 0 <= i < rows && 0 <= j < cols ==> data[i, j] == 0.0
      ensures Cells() == Zeros(rows, cols)
    {
      rowsCount, colsCount := rows, cols;
      isSquare := rows == cols;
      data := new real[rows, cols]((_, _) => 0.0);
      new;
      GridExt(Cells(), Zeros(rows, cols), rows, cols);
    }

    /** The value in row `row`, column `col`. */
    function ValueAt(row: nat, col: nat): (v: real)
      reads data
      requires Valid() && row < rowsCount && col < colsCount
      ensures v == Cells()[row][col]
    {
      data[row, col]
    }

    /** The value at (`row`, `col`) of the transpose, read without building it. */
    function ValueTransposedAt(row: nat, col: nat): (v: real)
      reads data
      requires Valid() && col < rowsCount && row < colsCount
      ensures v == ValueAt(col, row)
      ensures IsGrid(Transpose(Cells(), colsCount), colsCount, rowsCount)
      ensures v == Transpose(Cells(), colsCount)[row][col]
    {
      data[col, row]
    }

    /** Overwrites one cell; returns this matrix. */
    method SetValue(value: real, row: nat, col: nat) returns (self: Matrix)
      requires Valid() && row < rowsCount && col < colsCount
      modifies data
      ensures self == this
      ensures data[row, col] == value
      ensures forall i, j :: 0 <= i < rowsCount && 0 <= j < colsCount && (i, j) != (row, col) ==>
        data[i, j] == old(data[i, j])
      ensures Cells() == Updated(old(Cells()), row, col, value)
    {
      ghost var before := Cells();
      data[row, col] := value;
      GridExt(Cells(), Updated(before, row, col, value), rowsCount, colsCount);
      self := this;
    }

    /** Adds `amount` to one cell; returns this matrix. */
    method AddToValue(amount: real, row: nat, col: nat) returns (self: Matrix)
      requires Valid() && row < rowsCount && col < colsCount
      modifies data
      ensures self == this
      ensures data[row, col] == old(data[row, col]) + amount
      ensures forall i, j :: 0 <= i < rowsCount && 0 <= j < colsCount && (i, j) != (row, col) ==>
        data[i, j] == old(data[i, j])
      ensures Cells() == Accumulated(old(Cells()), row, col, amount)
    {
      ghost var before := Cells();
      data[row, col] := data[row, col] + amount;
      GridExt(Cells(), Accumulated(before, row, col, amount), rowsCount, colsCount);
      self := this;
    }

    /** Fills the matrix from `values`, left to right and top to bottom; fails,
        changing nothing, unless there is exactly one value per cell. */
    method SetData(values: seq<real>) returns (r: Result<Matrix>)
      requires Valid()
      modifies data
      ensures r.Failure? <==> |values| != rowsCount * colsCount
      ensures r.Failure? ==> unchanged(data)
      ensures r.Success? ==> r.value == this
      ensures r.Success? ==> forall i, j :: 0 <= i < rowsCount && 0 <= j < colsCount ==>
        Offset(colsCount, i, j) < |values| && data[i, j] == values[Offset(colsCount, i, j)]
      ensures r.Success? ==> Cells() == FromRowMajor(values, rowsCount, colsCount)
    {
      if |values| != colsCount * rowsCount {
        return Failure(SizeMismatch);
      }
      ghost var filled := FromRowMajor(values, rowsCount, colsCount);
      for row := 0 to rowsCount
        invariant forall i, j :: 0 <= i < row && 0 <= j < colsCount ==> data[i, j] == filled[i][j]
      {
        var offset := colsCount * row;
        for col := 0 to colsCount
          invariant forall i, j :: 0 <= i < row && 0 <= j < colsCount ==> data[i, j] == filled[i][j]
          invariant forall j :: 0 <= j < col ==> data[row, j] == filled[row][j]
        {
          FromRowMajorAt(values, rowsCount, colsCount, row, col);
          data[row, col] := values[offset + col];
        }
      }
      GridExt(Cells(), filled, rowsCount, colsCount);
      FromRowMajorCells(values, rowsCount, colsCount);
      return Success(this);
    }

    /** Makes row `row` the identity pattern: 1 where the column index equals
        `row`, 0 elsewhere. With no columns there is nothing to write, so any
        `row` is accepted then. Returns this matrix. */
    method SetIdentityRow(row: nat) returns (self: Matrix)
      requires Valid() && (row < rowsCount || colsCount == 0)
      modifies data
      ensures self == this
      ensures forall i, j :: 0 <= i < rowsCount && 0 <= j < colsCount ==>
        data[i, j] == if i == row then (if j == row then 1.0 else 0.0) else old(data[i, j])
      ensures Cells() == IdentityRow(old(Cells()), row)
    {
      ghost var before := Cells();
      for col := 0 to colsCount
        invariant forall i, j :: 0 <= i < rowsCount && 0 <= j < colsCount ==>
          data[i, j] == if i == row && j < col then (if j == row then 1.0 else 0.0) else old(data[i, j])
      {
        data[row, col] := if row == col then 1.0 else 0.0;
      }
      GridExt(Cells(), IdentityRow(before, row), rowsCount, colsCount);
      self := this;
    }

    /** Makes column `col` the identity pattern: 1 where the row index equals
        `col`, 0 elsewhere. With no rows there is nothing to write, so any
        `col` is accepted then. Returns this matrix. */
    method SetIdentityCol(col: nat) returns (self: Matrix)
      requires Valid() && (col < colsCount || rowsCount == 0)
      modifies data
      ensures self == this
      ensures forall i, j :: 0 <= i < rowsCount && 0 <= j < colsCount ==>
        data[i, j] == if j == col then (if i == col then 1.0 else 0.0) else old(data[i, j])
      ensures Cells() == IdentityCol(old(Cells()), col)
    {
      ghost var before := Cells();
      for row := 0 to rowsCount
        invariant forall i, j :: 0 <= i < rowsCount && 0 <= j < colsCount ==>
          data[i, j] == if j == col && i < row then (if i == col then 1.0 else 0.0) else old(data[i, j])
      {
        data[row, col] := if row == col then 1.0 else 0.0;
      }
      GridExt(Cells(), IdentityCol(before, col), rowsCount, colsCount);
      self := this;
    }

    /** Multiplies every value by `factor` in place; returns this matrix. */
    method Scale(factor: real) returns (self: Matrix)
      requires Valid()
      modifies data
      ensures self == this
      ensures forall i, j :: 0 <= i < rowsCount && 0 <= j < colsCount ==>
        data[i, j] == old(data[i, j]) * factor
      ensures Cells() == Scaled(old(Cells()), factor)
    {
      ghost var before := Cells();
      for i := 0 to rowsCount
        invariant forall r, c :: 0 <= r < rowsCount && 0 <= c < colsCount ==>
          data[r, c] == if r < i then before[r][c] * factor else before[r][c]
      {
        for j := 0 to colsCount
          invariant forall r, c :: 0 <= r < rowsCount && 0 <= c < colsCount ==>
            data[r, c] == if r < i || (r == i && c < j) then before[r][c] * factor else before[r][c]
        {
          data[i, j] := data[i, j] * factor;
        }
      }
      GridExt(Cells(), Scaled(before, factor), rowsCount, colsCount);
      self := this;
    }

    /** The product of this matrix with `v`, a new vector of length `rowsCount`;
        fails unless `v` has one entry per column. */
    method TimesVector(v: Vector) returns (r: Result<Vector>)
      requires Valid()
      ensures r.Failure? <==> colsCount != |v|
      ensures r.Success? ==> |r.value| == rowsCount && IsGrid(Cells(), rowsCount, |v|)
      ensures r.Success? ==> r.value == Product(Cells(), v)
    {
      if colsCount != |v| {
        return Failure(SizeMismatch);
      }
      var result := new real[rowsCount];
      for i := 0 to rowsCount
        invariant forall k :: 0 <= k < i ==> result[k] == Dot(Cells()[k], v)
      {
        var productSum := 0.0;
        for j := 0 to colsCount
          invariant productSum == Dot(Cells()[i][..j], v[..j])
        {
          assert Cells()[i][..j + 1][..j] == Cells()[i][..j];
          assert v[..j + 1][..j] == v[..j];
          productSum := productSum + data[i, j] * v[j];
        }
        assert Cells()[i][..colsCount] == Cells()[i];
        assert v[..colsCount] == v;
        result[i] := productSum;
      }
      return Success(result[..]);
    }

    /** A new matrix holding the cell-by-cell sum of this one and `other`;
        fails if the row counts differ, or else if the column counts differ. */
    method Add(other: Matrix) returns (r: Result<Matrix>)
      requires Valid() && other.Valid()
      ensures r.Failure? <==> rowsCount != other.rowsCount || colsCount != other.colsCount
      ensures r.Success? ==> fresh(r.value) && fresh(r.value.data) && r.value.Valid()
      ensures r.Success? ==> r.value.rowsCount == rowsCount && r.value.colsCount == colsCount
      ensures r.Success? ==> forall i, j :: 0 <= i < rowsCount && 0 <= j < colsCount ==>
        r.value.data[i, j] == data[i, j] + other.data[i, j]
      ensures r.Success? ==>
        SameShape(Cells(), other.Cells()) && r.value.Cells() == Sum(Cells(), other.Cells())
    {
      if rowsCount != other.rowsCount {
        return Failure(SizeMismatch);
      }
      if colsCount != other.colsCount {
        return Failure(SizeMismatch);
      }
      var result := Copy();
      for i := 0 to rowsCount
        invariant forall r, c :: 0 <= r < rowsCount && 0 <= c < colsCount ==>
          result.data[r, c] == if r < i then data[r, c] + other.data[r, c] else data[r, c]
      {
        for j := 0 to colsCount
          invariant forall r, c :: 0 <= r < rowsCount && 0 <= c < colsCount ==>
            result.data[r, c] ==
              if r < i || (r == i && c < j) then data[r, c] + other.data[r, c] else data[r, c]
        {
          result.data[i, j] := result.data[i, j] + other.data[i, j];
        }
      }
      GridExt(result.Cells(), Sum(Cells(), other.Cells()), rowsCount, colsCount);
      return Success(result);
    }

    /** A new matrix of the same shape and values, sharing no storage with this one. */
    method Copy() returns (m: Matrix)
      requires Valid()
      ensures fresh(m) && fresh(m.data) && m.Valid()
      ensures m.rowsCount == rowsCount && m.colsCount == colsCount
      ensures forall i, j :: 0 <= i < rowsCount && 0 <= j < colsCount ==> m.data[i, j] == data[i, j]
      ensures m.Cells() == Cells()
    {
      m := new Matrix(rowsCount, colsCount);
      for i := 0 to rowsCount
        invariant forall r, c :: 0 <= r < i && 0 <= c < colsCount ==> m.data[r, c] == data[r, c]
      {
        for j := 0 to colsCount
          invariant forall r, c :: 0 <= r < i && 0 <= c < colsCount ==> m.data[r, c] == data[r, c]
          invariant forall c :: 0 <= c < j ==> m.data[i, c] == data[i, c]
        {
          m.data[i, j] := data[i, j];
        }
      }
      GridExt(m.Cells(), Cells(), rowsCount, colsCount);
    }

    /** Equality of matrices: the same shape, and every pair of corresponding
        values related by the element predicate `close`. */
    method Equals(other: Matrix, close: (real, real) -> bool) returns (eq: bool)
      requires Valid() && other.Valid()
      ensures eq <==>
        rowsCount == other.rowsCount && colsCount == other.colsCount &&
        SameShape(Cells(), other.Cells()) && AllClose(Cells(), other.Cells(), close)
    {
      if rowsCount != other.rowsCount {
        return false;
      }
      if colsCount != other.colsCount {
        return false;
      }
      for i := 0 to rowsCount
        invariant forall r, c :: 0 <= r < i && 0 <= c < colsCount ==> close(data[r, c], other.data[r, c])
      {
        for j := 0 to colsCount
          invariant forall r, c :: 0 <= r < i && 0 <= c < colsCount ==> close(data[r, c], other.data[r, c])
          invariant forall c :: 0 <= c < j ==> close(data[i, c], other.data[i, c])
        {
          if !close(data[i, j], other.data[i, j]) {
            assert !close(Cells()[i][j], other.Cells()[i][j]);
            return false;
          }
        }
      }
      return true;
    }
  }
}
