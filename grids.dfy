/** Value-level model of a dense matrix.

    A grid is the list of rows of a matrix, each row a list of numbers; a
    vector is a list of numbers. Every operation of the matrix class is
    specified by one of the functions below, and the lemmas state what those
    operations promise when combined: accumulation, row-major round trips,
    transposition, the identity row and column, scaling, addition, the
    matrix-vector product and approximate equality.
 */
module Grids {

  type Grid = seq<seq<real>>
  type Vector = seq<real>

  /** `g` has exactly `rows` rows of exactly `cols` values each. */
  ghost predicate IsGrid(g: Grid, rows: nat, cols: nat)
  {
    |g| == rows && forall i :: 0 <= i < |g| ==> |g[i]| == cols
  }

  /** `g` and `h` have the same number of rows, and row by row the same length. */
  ghost predicate SameShape(g: Grid, h: Grid)
  {
    |g| == |h| && forall i :: 0 <= i < |g| ==> |g[i]| == |h[i]|
  }

  /** Two grids of one shape that agree on every cell are equal. */
  lemma GridExt(g: Grid, h: Grid, rows: nat, cols: nat)
    requires IsGrid(g, rows, cols) && IsGrid(h, rows, cols)
    requires forall i, j :: 0 <= i < rows && 0 <= j < cols ==> g[i][j] == h[i][j]
    ensures g == h
  {
    forall i | 0 <= i < rows
      ensures g[i] == h[i]
    {
      assert forall j :: 0 <= j < cols ==> g[i][j] == h[i][j];
    }
  }

  // ---------------------------------------------------------------------
  // Specification functions, one per operation of the matrix

  /** The `rows` x `cols` grid of zeros a new matrix starts with. */
  ghost function Zeros(rows: nat, cols: nat): Grid
  {
    seq(rows, _ => seq(cols, _ => 0.0))
  }

  /** The grid with cell (`r`, `c`) overwritten by `v`. */
  ghost function Updated(g: Grid, r: nat, c: nat, v: real): Grid
    requires r < |g| && c < |g[r]|
  {
    g[r := g[r][c := v]]
  }

  /** The grid with `a` added to cell (`r`, `c`). */
  ghost function Accumulated(g: Grid, r: nat, c: nat, a: real): Grid
    requires r < |g| && c < |g[r]|
  {
    Updated(g, r, c, g[r][c] + a)
  }

  /** The `rows` x `cols` grid filled from `d` left to right, top to bottom. */
  ghost function FromRowMajor(d: seq<real>, rows: nat, cols: nat): Grid
    requires |d| == rows * cols
  {
    seq(rows, i requires 0 <= i < rows =>
      seq(cols, j requires 0 <= j < cols =>
        RowMajorInBounds(rows, cols, i, j); d[Offset(cols, i, j)]))
  }

  /** The cells of `g` listed row after row: the inverse of `FromRowMajor`. */
  ghost function Flatten(g: Grid): seq<real>
  {
    if |g| == 0 then [] else g[0] + Flatten(g[1..])
  }

  /** Position of cell (`i`, `j`) when the cells of a grid with `cols`
      columns are listed row after row. */
  function Offset(cols: nat, i: nat, j: nat): nat
  {
    i * cols + j
  }

  /** Row-major offset of cell (`i`, `j`) lies inside a `rows` x `cols` store. */
  lemma RowMajorInBounds(rows: nat, cols: nat, i: nat, j: nat)
    requires i < rows && j < cols
    ensures Offset(cols, i, j) < rows * cols
  {
    assert (i + 1) * cols <= rows * cols;
  }

  /** A vector of length `n`, 1 at position `k` and 0 elsewhere (all 0 when `k >= n`). */
  ghost function Unit(n: nat, k: nat): Vector
  {
    seq(n, c => if c == k then 1.0 else 0.0)
  }

  /** The grid whose row `r` is the identity pattern; other rows are kept. */
  ghost function IdentityRow(g: Grid, r: nat): Grid
  {
    seq(|g|, i requires 0 <= i < |g| => if i == r then Unit(|g[i]|, r) else g[i])
  }

  /** The grid whose column `c` is the identity pattern; other columns are kept. */
  ghost function IdentityCol(g: Grid, c: nat): Grid
  {
    seq(|g|, i requires 0 <= i < |g| =>
      seq(|g[i]|, j requires 0 <= j < |g[i]| =>
        if j == c then (if i == c then 1.0 else 0.0) else g[i][j]))
  }

  /** The `cols` x `|g|` transpose of a `|g|` x `cols` grid. */
  ghost function Transpose(g: Grid, cols: nat): Grid
    requires IsGrid(g, |g|, cols)
  {
    seq(cols, j requires 0 <= j < cols => seq(|g|, i requires 0 <= i < |g| => g[i][j]))
  }

  ghost function VecScale(u: Vector, k: real): Vector
  {
    seq(|u|, j requires 0 <= j < |u| => u[j] * k)
  }

  ghost function VecAdd(u: Vector, w: Vector): Vector
    requires |u| == |w|
  {
    seq(|u|, j requires 0 <= j < |u| => u[j] + w[j])
  }

  /** Every cell multiplied by `k`. */
  ghost function Scaled(g: Grid, k: real): Grid
  {
    seq(|g|, i requires 0 <= i < |g| => VecScale(g[i], k))
  }

  /** Cell-by-cell sum of two grids of the same shape. */
  ghost function Sum(g: Grid, h: Grid): Grid
    requires SameShape(g, h)
  {
    seq(|g|, i requires 0 <= i < |g| => VecAdd(g[i], h[i]))
  }

  /** Dot product, accumulated from the first position to the last. */
  ghost function Dot(u: Vector, v: Vector): real
    requires |u| == |v|
    decreases |u|
  {
    if |u| == 0 then 0.0
    else Dot(u[..|u| - 1], v[..|v| - 1]) + u[|u| - 1] * v[|v| - 1]
  }

  /** Matrix-vector product: entry `i` is the dot product of row `i` with `v`. */
  ghost function Product(g: Grid, v: Vector): Vector
    requires IsGrid(g, |g|, |v|)
  {
    seq(|g|, i requires 0 <= i < |g| => Dot(g[i], v))
  }

  /** Every pair of corresponding cells is related by `close`. */
  ghost predicate AllClose(g: Grid, h: Grid, close: (real, real) -> bool)
    requires SameShape(g, h)
  {
    forall i, j :: 0 <= i < |g| && 0 <= j < |g[i]| ==> close(g[i][j], h[i][j])
  }

  // ---------------------------------------------------------------------
  // Properties

  /** Accumulating `a` and then `b` into one cell is accumulating `a + b`. */
  lemma AccumulateTwice(g: Grid, r: nat, c: nat, a: real, b: real)
    requires r < |g| && c < |g[r]|
    ensures Accumulated(Accumulated(g, r, c, a), r, c, b) == Accumulated(g, r, c, a + b)
  {
    var once := Accumulated(g, r, c, a);
    assert once[r][c] + b == g[r][c] + (a + b);
    assert once[r][c := once[r][c] + b] == g[r][c := g[r][c] + (a + b)];
  }

  /** Overwriting a cell twice keeps only the second value. */
  lemma UpdateTwice(g: Grid, r: nat, c: nat, v: real, w: real)
    requires r < |g| && c < |g[r]|
    ensures Updated(Updated(g, r, c, v), r, c, w) == Updated(g, r, c, w)
  {
    assert g[r][c := v][c := w] == g[r][c := w];
  }

  /** Cell (`i`, `j`) of a row-major fill is element `i * cols + j` of the data. */
  lemma FromRowMajorAt(d: seq<real>, rows: nat, cols: nat, i: nat, j: nat)
    requires |d| == rows * cols && i < rows && j < cols
    ensures IsGrid(FromRowMajor(d, rows, cols), rows, cols)
    ensures Offset(cols, i, j) < |d| && FromRowMajor(d, rows, cols)[i][j] == d[Offset(cols, i, j)]
  {
    RowMajorInBounds(rows, cols, i, j);
  }

  /** Every cell of a row-major fill, at once. */
  lemma FromRowMajorCells(d: seq<real>, rows: nat, cols: nat)
    requires |d| == rows * cols
    ensures IsGrid(FromRowMajor(d, rows, cols), rows, cols)
    ensures forall i, j :: 0 <= i < rows && 0 <= j < cols ==>
      Offset(cols, i, j) < |d| && FromRowMajor(d, rows, cols)[i][j] == d[Offset(cols, i, j)]
  {
    forall i, j | 0 <= i < rows && 0 <= j < cols
      ensures Offset(cols, i, j) < |d| && FromRowMajor(d, rows, cols)[i][j] == d[Offset(cols, i, j)]
    {
      FromRowMajorAt(d, rows, cols, i, j);
    }
  }

  /** Flattening a grid puts cell (`i`, `j`) at offset `i * cols + j`. */
  lemma {:induction false} FlattenAt(g: Grid, rows: nat, cols: nat, i: nat, j: nat)
    requires IsGrid(g, rows, cols) && i < rows && j < cols
    ensures |Flatten(g)| == rows * cols
    ensures Offset(cols, i, j) < |Flatten(g)| && Flatten(g)[Offset(cols, i, j)] == g[i][j]
  {
    FlattenLength(g, rows, cols);
    RowMajorInBounds(rows, cols, i, j);
    if i > 0 {
      FlattenAt(g[1..], rows - 1, cols, i - 1, j);
      assert Offset(cols, i, j) == cols + Offset(cols, i - 1, j);
    }
  }

  lemma {:induction false} FlattenLength(g: Grid, rows: nat, cols: nat)
    requires IsGrid(g, rows, cols)
    ensures |Flatten(g)| == rows * cols
  {
    if rows > 0 {
      FlattenLength(g[1..], rows - 1, cols);
      assert rows * cols == cols + (rows - 1) * cols;
    }
  }

  /** The first row of a row-major fill is the first `cols` values; the rest is a fill of the remainder. */
  lemma FromRowMajorSplit(d: seq<real>, rows: nat, cols: nat)
    requires rows > 0 && |d| == rows * cols
    ensures cols <= |d| && |d[cols..]| == (rows - 1) * cols
    ensures FromRowMajor(d, rows, cols) == [d[..cols]] + FromRowMajor(d[cols..], rows - 1, cols)
  {
    assert rows * cols == cols + (rows - 1) * cols;
    var g := FromRowMajor(d, rows, cols);
    var h := [d[..cols]] + FromRowMajor(d[cols..], rows - 1, cols);
    forall i, j | 0 <= i < rows && 0 <= j < cols
      ensures g[i][j] == h[i][j]
    {
      FromRowMajorAt(d, rows, cols, i, j);
      if i > 0 {
        FromRowMajorAt(d[cols..], rows - 1, cols, i - 1, j);
        assert Offset(cols, i, j) == cols + Offset(cols, i - 1, j);
      }
    }
    GridExt(g, h, rows, cols);
  }

  /** Filling a grid row-major and flattening it gives the data back. */
  lemma {:induction false} FlattenFromRowMajor(d: seq<real>, rows: nat, cols: nat)
    requires |d| == rows * cols
    ensures Flatten(FromRowMajor(d, rows, cols)) == d
  {
    if rows == 0 {
      assert d == [];
    } else {
      FromRowMajorSplit(d, rows, cols);
      FlattenFromRowMajor(d[cols..], rows - 1, cols);
      var g := FromRowMajor(d, rows, cols);
      assert g[0] == d[..cols];
      assert g[1..] == FromRowMajor(d[cols..], rows - 1, cols);
      assert d == d[..cols] + d[cols..];
    }
  }

  /** Flattening a grid and filling it back row-major gives the grid back. */
  lemma FromRowMajorFlatten(g: Grid, rows: nat, cols: nat)
    requires IsGrid(g, rows, cols)
    ensures |Flatten(g)| == rows * cols
    ensures FromRowMajor(Flatten(g), rows, cols) == g
  {
    FlattenLength(g, rows, cols);
    var h := FromRowMajor(Flatten(g), rows, cols);
    forall i, j | 0 <= i < rows && 0 <= j < cols
      ensures h[i][j] == g[i][j]
    {
      FromRowMajorAt(Flatten(g), rows, cols, i, j);
      FlattenAt(g, rows, cols, i, j);
    }
    GridExt(h, g, rows, cols);
  }

  /** Transposing twice gives the grid back. */
  lemma TransposeInvolution(g: Grid, rows: nat, cols: nat)
    requires IsGrid(g, rows, cols)
    ensures IsGrid(Transpose(g, cols), cols, rows)
    ensures Transpose(Transpose(g, cols), rows) == g
  {
    GridExt(Transpose(Transpose(g, cols), rows), g, rows, cols);
  }

  /** Setting identity column `c` is setting identity row `c` of the transpose. */
  lemma IdentityColIsTransposedRow(g: Grid, rows: nat, cols: nat, c: nat)
    requires IsGrid(g, rows, cols)
    ensures IsGrid(IdentityCol(g, c), rows, cols)
    ensures Transpose(IdentityCol(g, c), cols) == IdentityRow(Transpose(g, cols), c)
  {
    var t := Transpose(g, cols);
    assert IsGrid(t, cols, rows);
    GridExt(Transpose(IdentityCol(g, c), cols), IdentityRow(t, c), cols, rows);
  }

  /** A unit vector picks out one entry of `v`, or nothing when it lies past the end. */
  lemma {:induction false} DotUnit(k: nat, v: Vector)
    ensures Dot(Unit(|v|, k), v) == if k < |v| then v[k] else 0.0
  {
    var n := |v|;
    if n > 0 {
      assert Unit(n, k)[..n - 1] == Unit(n - 1, k);
      DotUnit(k, v[..n - 1]);
    }
  }

  /** An identity row `r` multiplied by `v` yields `v[r]` (0 when `r` has no column). */
  lemma IdentityRowPicks(g: Grid, r: nat, v: Vector)
    requires IsGrid(g, |g|, |v|) && r < |g|
    ensures IsGrid(IdentityRow(g, r), |g|, |v|)
    ensures Product(IdentityRow(g, r), v)[r] == if r < |v| then v[r] else 0.0
  {
    DotUnit(r, v);
  }

  /** Dot product distributes over the sum of two vectors. */
  lemma {:induction false} DotAdd(u: Vector, w: Vector, v: Vector)
    requires |u| == |w| == |v|
    ensures Dot(VecAdd(u, w), v) == Dot(u, v) + Dot(w, v)
  {
    var n := |u|;
    if n > 0 {
      assert VecAdd(u, w)[..n - 1] == VecAdd(u[..n - 1], w[..n - 1]);
      DotAdd(u[..n - 1], w[..n - 1], v[..n - 1]);
      assert (u[n - 1] + w[n - 1]) * v[n - 1] == u[n - 1] * v[n - 1] + w[n - 1] * v[n - 1];
    }
  }

  /** Dot product commutes with scaling the left vector. */
  lemma {:induction false} DotScale(u: Vector, k: real, v: Vector)
    requires |u| == |v|
    ensures Dot(VecScale(u, k), v) == Dot(u, v) * k
  {
    var n := |u|;
    if n > 0 {
      assert VecScale(u, k)[..n - 1] == VecScale(u[..n - 1], k) by {
        forall j | 0 <= j < n - 1
          ensures VecScale(u, k)[j] == VecScale(u[..n - 1], k)[j]
        {
        }
      }
      DotScale(u[..n - 1], k, v[..n - 1]);
      var x, y := u[n - 1], v[n - 1];
      assert (x * k) * y == (x * y) * k by {
        assert (x * k) * y == x * (k * y) == x * (y * k) == (x * y) * k;
      }
    }
  }

  /** Multiplying a sum of matrices by `v` is the sum of the two products. */
  lemma ProductOfSum(g: Grid, h: Grid, v: Vector)
    requires IsGrid(g, |g|, |v|) && IsGrid(h, |g|, |v|)
    ensures IsGrid(Sum(g, h), |g|, |v|)
    ensures Product(Sum(g, h), v) == VecAdd(Product(g, v), Product(h, v))
  {
    forall i | 0 <= i < |g|
      ensures Product(Sum(g, h), v)[i] == VecAdd(Product(g, v), Product(h, v))[i]
    {
      DotAdd(g[i], h[i], v);
    }
  }

  /** Multiplying a scaled matrix by `v` scales the product. */
  lemma ProductOfScaled(g: Grid, k: real, v: Vector)
    requires IsGrid(g, |g|, |v|)
    ensures IsGrid(Scaled(g, k), |g|, |v|)
    ensures Product(Scaled(g, k), v) == VecScale(Product(g, v), k)
  {
    forall i | 0 <= i < |g|
      ensures Product(Scaled(g, k), v)[i] == VecScale(Product(g, v), k)[i]
    {
      DotScale(g[i], k, v);
    }
  }

  /** The worked example: [[1, 2], [3, 4]] times [5, 6] is [17, 39]. */
  lemma ProductExample()
    ensures IsGrid([[1.0, 2.0], [3.0, 4.0]], 2, 2)
    ensures Product([[1.0, 2.0], [3.0, 4.0]], [5.0, 6.0]) == [17.0, 39.0]
  {
    var v := [5.0, 6.0];
    assert Dot([1.0, 2.0], v) == 17.0 by {
      assert [1.0, 2.0][..1] == [1.0] && v[..1] == [5.0];
      assert [1.0][..0] == [] && [5.0][..0] == [];
    }
    assert Dot([3.0, 4.0], v) == 39.0 by {
      assert [3.0, 4.0][..1] == [3.0] && v[..1] == [5.0];
      assert [3.0][..0] == [] && [5.0][..0] == [];
    }
  }

  /** Scaling by 1 changes nothing. */
  lemma ScaleByOne(g: Grid)
    ensures Scaled(g, 1.0) == g
  {
    forall i | 0 <= i < |g|
      ensures Scaled(g, 1.0)[i] == g[i]
    {
    }
  }

  /** Scaling by `k` and then by `1 / k` restores every cell, for nonzero `k`. */
  lemma ScaleInverse(g: Grid, k: real)
    requires k != 0.0
    ensures Scaled(Scaled(g, k), 1.0 / k) == g
  {
    forall i | 0 <= i < |g|
      ensures Scaled(Scaled(g, k), 1.0 / k)[i] == g[i]
    {
      forall j | 0 <= j < |g[i]|
        ensures VecScale(VecScale(g[i], k), 1.0 / k)[j] == g[i][j]
      {
        assert k * (1.0 / k) == 1.0;
        assert g[i][j] * k * (1.0 / k) == g[i][j] * (k * (1.0 / k));
      }
      assert VecScale(VecScale(g[i], k), 1.0 / k) == g[i];
    }
  }

  /** Scaling twice is scaling once by the product of the factors. */
  lemma ScaleTwice(g: Grid, a: real, b: real)
    ensures Scaled(Scaled(g, a), b) == Scaled(g, a * b)
  {
    forall i | 0 <= i < |g|
      ensures Scaled(Scaled(g, a), b)[i] == Scaled(g, a * b)[i]
    {
      forall j | 0 <= j < |g[i]|
        ensures VecScale(VecScale(g[i], a), b)[j] == VecScale(g[i], a * b)[j]
      {
        assert g[i][j] * a * b == g[i][j] * (a * b);
      }
      assert VecScale(VecScale(g[i], a), b) == VecScale(g[i], a * b);
    }
  }

  /** Adding a grid to itself doubles every cell. */
  lemma SumSelfDoubles(g: Grid)
    ensures Sum(g, g) == Scaled(g, 2.0)
  {
    forall i | 0 <= i < |g|
      ensures Sum(g, g)[i] == Scaled(g, 2.0)[i]
    {
    }
  }

  /** Addition does not depend on the order of its operands. */
  lemma SumCommutes(g: Grid, h: Grid)
    requires SameShape(g, h)
    ensures Sum(g, h) == Sum(h, g)
  {
    forall i | 0 <= i < |g|
      ensures Sum(g, h)[i] == Sum(h, g)[i]
    {
    }
  }

  /** Adding the zero grid of the same shape changes nothing. */
  lemma SumZeros(g: Grid, rows: nat, cols: nat)
    requires IsGrid(g, rows, cols)
    ensures SameShape(g, Zeros(rows, cols))
    ensures Sum(g, Zeros(rows, cols)) == g
  {
    GridExt(Sum(g, Zeros(rows, cols)), g, rows, cols);
  }

  /** Approximate equality is reflexive whenever the element predicate is. */
  lemma AllCloseReflexive(g: Grid, close: (real, real) -> bool)
    requires forall x :: close(x, x)
    ensures SameShape(g, g) && AllClose(g, g, close)
  {
    forall i, j | 0 <= i < |g| && 0 <= j < |g[i]|
      ensures close(g[i][j], g[i][j])
    {
      var x := g[i][j];
      assert close(x, x);
    }
  }

  /** Approximate equality is symmetric whenever the element predicate is. */
  lemma AllCloseSymmetric(g: Grid, h: Grid, close: (real, real) -> bool)
    requires forall x, y :: close(x, y) ==> close(y, x)
    requires SameShape(g, h) && AllClose(g, h, close)
    ensures SameShape(h, g) && AllClose(h, g, close)
  {
    forall i, j | 0 <= i < |h| && 0 <= j < |h[i]|
      ensures close(h[i][j], g[i][j])
    {
      var x, y := g[i][j], h[i][j];
      assert close(x, y);
    }
  }
}
