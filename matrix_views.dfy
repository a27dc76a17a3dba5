/** Strided, non-owning matrix views over a flat buffer of cells.
    A view never owns its cells: sub-views (row ranges, column ranges,
    the transpose) address the same buffer with an adjusted offset. */
module MatrixViews {

  datatype Ordering = RowMajor | ColMajor

  /** `rows` x `cols` elements starting at `offset`; consecutive rows
      (row-major) or columns (column-major) lie `dist` cells apart. */
  datatype View = View(offset: nat, rows: nat, cols: nat, dist: nat, ord: Ordering)

  /** Start of the x-th line (row for row-major, column for column-major). */
  function Line(v: View, x: nat): nat {
    v.offset + x * v.dist
  }

  /** Buffer cell of element (i, j). */
  function Addr(v: View, i: nat, j: nat): nat {
    if v.ord == RowMajor then Line(v, i) + j else Line(v, j) + i
  }

  /** `Rows(first, n)`: the n rows starting at row `first`. */
  function Rows(v: View, first: nat, n: nat): View {
    if v.ord == RowMajor then v.(offset := v.offset + first * v.dist, rows := n)
    else v.(offset := v.offset + first, rows := n)
  }

  /** `Cols(first, n)`: the n columns starting at column `first`. */
  function Cols(v: View, first: nat, n: nat): View {
    if v.ord == RowMajor then v.(offset := v.offset + first, cols := n)
    else v.(offset := v.offset + first * v.dist, cols := n)
  }

  /** `transposed()`: same cells, rows and columns swapped, ordering flipped. */
  function Transposed(v: View): View {
    View(v.offset, v.cols, v.rows, v.dist, if v.ord == RowMajor then ColMajor else RowMajor)
  }

  /** A densely packed rows x cols matrix at the start of its own buffer. */
  function Dense(rows: nat, cols: nat, ord: Ordering): View {
    View(0, rows, cols, if ord == RowMajor then cols else rows, ord)
  }

  /** Consecutive elements of one line never run into the next line. */
  predicate WellFormed(v: View) {
    if v.ord == RowMajor then v.cols <= v.dist else v.rows <= v.dist
  }

  /** Every element of the leading h x w block of v lies inside a buffer of length len. */
  ghost predicate Fits(v: View, h: nat, w: nat, len: nat) {
    forall i, j :: 0 <= i < h && 0 <= j < w ==> Addr(v, i, j) < len
  }

  /** Number of buffer cells the leading h x w block of v needs. */
  function Extent(v: View, h: nat, w: nat): nat {
    if h == 0 || w == 0 then 0
    else if v.ord == RowMajor then Line(v, h - 1) + w
    else Line(v, w - 1) + h
  }

  /** Buffer cell p holds one of the elements of the leading h x w block of v. */
  ghost predicate InRegion(v: View, h: nat, w: nat, p: int) {
    exists i, j :: 0 <= i < h && 0 <= j < w && p == Addr(v, i, j)
  }

  /** Lines are at least `dist` cells apart and in increasing order. */
  lemma LineMonotone(v: View)
    ensures forall x, y {:trigger Line(v, x), Line(v, y)} :: x < y ==> Line(v, x) + v.dist <= Line(v, y)
  {
    forall x: nat, y: nat | x < y
      ensures Line(v, x) + v.dist <= Line(v, y)
    {
      MulStep(x, y - 1, v.dist);
    }
  }

  lemma MulStep(x: nat, y: nat, d: nat)
    requires x <= y
    ensures x * d + d <= (y + 1) * d
  {
    assert (y + 1) * d == y * d + d;
    assert x * d <= y * d;
  }

  /** The extent bound puts the whole block inside the buffer. */
  lemma FitsByExtent(v: View, h: nat, w: nat, len: nat)
    requires Extent(v, h, w) <= len
    ensures Fits(v, h, w, len)
  {
    LineMonotone(v);
  }

  /** In a well-formed view distinct elements occupy distinct cells. */
  lemma AddrInjective(v: View, i: nat, j: nat, i2: nat, j2: nat)
    requires WellFormed(v)
    requires if v.ord == RowMajor then j < v.cols && j2 < v.cols else i < v.rows && i2 < v.rows
    requires (i, j) != (i2, j2)
    ensures Addr(v, i, j) != Addr(v, i2, j2)
  {
    LineMonotone(v);
  }

  /** Element (i, j) of `Rows(first, n)` is element (first + i, j) of v. */
  lemma RowsAddr(v: View, first: nat, n: nat, i: nat, j: nat)
    ensures Addr(Rows(v, first, n), i, j) == Addr(v, first + i, j)
  {
    assert (first + i) * v.dist == first * v.dist + i * v.dist;
  }

  /** Element (i, j) of `Cols(first, n)` is element (i, first + j) of v. */
  lemma ColsAddr(v: View, first: nat, n: nat, i: nat, j: nat)
    ensures Addr(Cols(v, first, n), i, j) == Addr(v, i, first + j)
  {
    assert (first + j) * v.dist == first * v.dist + j * v.dist;
  }

  /** Element (j, i) of the transpose is element (i, j) of v. */
  lemma TransposedAddr(v: View, i: nat, j: nat)
    ensures Addr(Transposed(v), j, i) == Addr(v, i, j)
    ensures Transposed(Transposed(v)) == v
  {
  }

  /** A dense row-major matrix stores element (i, j) at i * cols + j and
      its rows x cols elements fill exactly its rows * cols cells. */
  lemma DenseRowMajor(rows: nat, cols: nat, i: nat, j: nat)
    requires i < rows && j < cols
    ensures Addr(Dense(rows, cols, RowMajor), i, j) == i * cols + j
    ensures Addr(Dense(rows, cols, RowMajor), i, j) < rows * cols
  {
    assert (rows - 1) * cols + cols == rows * cols;
    assert i * cols <= (rows - 1) * cols;
  }

  /** A block of `v.Rows(first, hd)` inside the parent's fitting block fits too. */
  lemma RowsFits(v: View, first: nat, hd: nat, h: nat, w: nat, h0: nat, w0: nat, len: nat)
    requires Fits(v, h0, w0, len) && first + h <= h0 && w <= w0
    ensures Fits(Rows(v, first, hd), h, w, len)
  {
    forall i, j | 0 <= i < h && 0 <= j < w
      ensures Addr(Rows(v, first, hd), i, j) < len
    {
      RowsAddr(v, first, hd, i, j);
    }
  }

  /** A block of `v.Cols(first, wd)` inside the parent's fitting block fits too. */
  lemma ColsFits(v: View, first: nat, wd: nat, h: nat, w: nat, h0: nat, w0: nat, len: nat)
    requires Fits(v, h0, w0, len) && h <= h0 && first + w <= w0
    ensures Fits(Cols(v, first, wd), h, w, len)
  {
    forall i, j | 0 <= i < h && 0 <= j < w
      ensures Addr(Cols(v, first, wd), i, j) < len
    {
      ColsAddr(v, first, wd, i, j);
    }
  }

  /** A block of `v.Rows(ti, hd).Cols(tj, wd)` inside the parent's fitting block fits too. */
  lemma TileFits(v: View, ti: nat, tj: nat, hd: nat, wd: nat, h: nat, w: nat, h0: nat, w0: nat, len: nat)
    requires Fits(v, h0, w0, len) && ti + h <= h0 && tj + w <= w0
    ensures Fits(Cols(Rows(v, ti, hd), tj, wd), h, w, len)
  {
    RowsFits(v, ti, hd, h, w0, h0, w0, len);
    ColsFits(Rows(v, ti, hd), tj, wd, h, w, h, w0, len);
  }
}
