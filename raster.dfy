/**
 * Two-dimensional rasters as values: the shape of a numpy array together
 * with its rows, pixel counting and numpy-style window slicing.
 */
module Raster {

  /** A 2-D array of shape (height, width), stored row by row. The shape is
      kept explicitly so that a (0, w) array differs from a (0, 0) one. */
  datatype Matrix<T> = Matrix(height: nat, width: nat, cells: seq<seq<T>>)
  {
    /** Every row has `width` entries and there are `height` rows. */
    predicate Valid() {
      |cells| == height && forall r :: 0 <= r < |cells| ==> |cells[r]| == width
    }
  }

  /** Two matrices of the same shape with the same pixels are equal. */
  lemma SameMatrix<T>(a: Matrix<T>, b: Matrix<T>)
    requires a.Valid() && b.Valid() && a.height == b.height && a.width == b.width
    requires forall r, c :: 0 <= r < a.height && 0 <= c < a.width ==> a.cells[r][c] == b.cells[r][c]
    ensures a == b
  {
    forall r | 0 <= r < a.height
      ensures a.cells[r] == b.cells[r]
    {
    }
  }

  /** The array obtained by applying `f` to every element (numpy's
      element-wise operations). */
  function MapCells<T, U>(m: Matrix<T>, f: T -> U): (n: Matrix<U>)
    requires m.Valid()
    ensures n.Valid() && n.height == m.height && n.width == m.width
    ensures forall r, c :: 0 <= r < n.height && 0 <= c < n.width ==> n.cells[r][c] == f(m.cells[r][c])
  {
    Matrix(m.height, m.width,
      seq(m.height, r requires 0 <= r < m.height =>
        seq(m.width, c requires 0 <= c < m.width => f(m.cells[r][c]))))
  }

  /** Number of entries of `row` equal to `v`. */
  function CountRow(row: seq<int>, v: int): (n: nat)
    ensures n <= |row|
  {
    if row == [] then 0
    else CountRow(row[..|row| - 1], v) + (if row[|row| - 1] == v then 1 else 0)
  }

  /** Number of entries equal to `v` in a sequence of rows. */
  function CountRows(rows: seq<seq<int>>, v: int): nat
  {
    if rows == [] then 0
    else CountRows(rows[..|rows| - 1], v) + CountRow(rows[|rows| - 1], v)
  }

  /** `np.sum(m == v)`: how many pixels of `m` equal `v`. */
  function Count(m: Matrix<int>, v: int): nat
  {
    CountRows(m.cells, v)
  }

  /** A row with no entry equal to `v` counts zero of it. */
  lemma {:induction false} CountRowAbsent(row: seq<int>, v: int)
    requires forall k :: 0 <= k < |row| ==> row[k] != v
    ensures CountRow(row, v) == 0
  {
    if row != [] {
      CountRowAbsent(row[..|row| - 1], v);
    }
  }

  /** A raster in which no pixel equals `v` counts zero of it. */
  lemma {:induction false} CountAbsent(m: Matrix<int>, v: int)
    requires m.Valid()
    requires forall r, c :: 0 <= r < m.height && 0 <= c < m.width ==> m.cells[r][c] != v
    ensures Count(m, v) == 0
  {
    CountRowsAbsent(m.cells, v);
  }

  lemma {:induction false} CountRowsAbsent(rows: seq<seq<int>>, v: int)
    requires forall r, c :: 0 <= r < |rows| && 0 <= c < |rows[r]| ==> rows[r][c] != v
    ensures CountRows(rows, v) == 0
  {
    if rows != [] {
      CountRowsAbsent(rows[..|rows| - 1], v);
      CountRowAbsent(rows[|rows| - 1], v);
    }
  }

  /** A row whose every entry equals `v` counts all of its entries. */
  lemma {:induction false} CountRowAll(row: seq<int>, v: int)
    requires forall k :: 0 <= k < |row| ==> row[k] == v
    ensures CountRow(row, v) == |row|
  {
    if row != [] {
      CountRowAll(row[..|row| - 1], v);
    }
  }

  /** A raster whose every pixel equals `v` counts height * width of it. */
  lemma CountAll(m: Matrix<int>, v: int)
    requires m.Valid()
    requires forall r, c :: 0 <= r < m.height && 0 <= c < m.width ==> m.cells[r][c] == v
    ensures Count(m, v) == m.height * m.width
  {
    CountRowsAll(m.cells, m.width, v);
  }

  lemma {:induction false} CountRowsAll(rows: seq<seq<int>>, width: nat, v: int)
    requires forall r :: 0 <= r < |rows| ==> |rows[r]| == width
    requires forall r, c :: 0 <= r < |rows| && 0 <= c < |rows[r]| ==> rows[r][c] == v
    ensures CountRows(rows, v) == |rows| * width
  {
    if rows != [] {
      CountRowsAll(rows[..|rows| - 1], width, v);
      CountRowAll(rows[|rows| - 1], v);
    }
  }

  /** The set of distinct values in `m` (what `np.unique` returns). */
  function Values<T>(m: Matrix<T>): (s: set<T>)
    requires m.Valid()
    ensures forall r, c :: 0 <= r < m.height && 0 <= c < m.width ==> m.cells[r][c] in s
    ensures forall x :: x in s ==> exists r, c :: 0 <= r < m.height && 0 <= c < m.width && m.cells[r][c] == x
  {
    set r, c | 0 <= r < m.height && 0 <= c < m.width :: m.cells[r][c]
  }

  /** Length along one axis of length `n` of the numpy slice
      `start:start+size`; numpy clips a slice to the axis. */
  function SliceLength(n: nat, start: nat, size: nat): (len: nat)
    ensures len <= size
    ensures len > 0 ==> start + len <= n
    ensures start + size <= n ==> len == size
    ensures start < n < start + size ==> len == n - start
    ensures n <= start ==> len == 0
  {
    if start >= n then 0
    else if start + size <= n then size
    else n - start
  }

  /** `m[r0:r0+size, c0:c0+size]`: the window whose top-left pixel is
      (r0, c0), clipped to the array as numpy does. */
  function Crop<T>(m: Matrix<T>, r0: nat, c0: nat, size: nat): (p: Matrix<T>)
    requires m.Valid()
    ensures p.Valid()
    ensures p.height == SliceLength(m.height, r0, size)
    ensures p.width == SliceLength(m.width, c0, size)
    ensures forall r, c :: 0 <= r < p.height && 0 <= c < p.width ==> p.cells[r][c] == m.cells[r0 + r][c0 + c]
  {
    var h := SliceLength(m.height, r0, size);
    var w := SliceLength(m.width, c0, size);
    Matrix(h, w,
      seq(h, r requires 0 <= r < h =>
        seq(w, c requires 0 <= c < w => m.cells[r0 + r][c0 + c])))
  }
}
