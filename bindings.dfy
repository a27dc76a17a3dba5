/** The index, slice, list-constructor and pickling logic of the Python
    bindings of `Vector` and `Matrix`. Python integers reach the library as
    C++ `int` (32 bits) or `size_t` (64 bits); a Python bytes object holding
    doubles is modelled as the sequence of its 8-byte cells. */
module Bindings {
  import opened Errors
  import opened MatrixViews
  import opened Products
  import opened Vectors

  const Int32Min: int := -0x8000_0000
  const Int32Max: int := 0x7fff_ffff
  const Int32Modulus: int := 0x1_0000_0000

  /** The value fits a C++ `int`; pybind11 refuses to convert any other. */
  predicate IsInt32(x: int) {
    Int32Min <= x <= Int32Max
  }

  /** Conversion to `int`: the value in range congruent to x modulo 2^32. */
  function ToInt32(x: int): (r: int)
    ensures IsInt32(r)
    ensures (r - x) % Int32Modulus == 0
    ensures IsInt32(x) ==> r == x
  {
    (x - Int32Min) % Int32Modulus + Int32Min
  }

  /** Conversion to `size_t`: the value in range congruent to x modulo 2^64. */
  function ToSizeT(x: int): (r: nat)
    ensures r < SizeTModulus
    ensures 0 <= x ==> r == x % SizeTModulus
    ensures Int32Min <= x < 0 ==> r == SizeTModulus + x
  {
    x % SizeTModulus
  }

  // ---------------------------------------------------------------------
  // Vector.__setitem__ / __getitem__

  /** Index normalisation of `Vector.__setitem__(i, v)`: i arrives as an
      `int`; a negative i has `Size()` added in `size_t` arithmetic and the
      sum is stored back into the `int`; then i must lie in [0, Size()).
      For a vector of at most 2^31 elements this is Python's rule: the
      indices -size .. size - 1 are accepted, a negative one counting from
      the end. Larger vectors can see the sum wrap around in the `int`. */
  function VectorIndex(i: int, size: nat): (r: Result<nat>)
    requires size < SizeTModulus
    ensures r == Failure(CastError) <==> !IsInt32(i)
    ensures r.Failure? && IsInt32(i) ==> r.error == IndexError
    ensures r.Success? ==> r.value < size
    ensures size <= -Int32Min ==>
      (r.Success? <==> IsInt32(i) && -(size as int) <= i < size) &&
      (r.Success? ==> r.value == if i < 0 then i + size else i)
  {
    if !IsInt32(i) then Failure(CastError)
    else
      var k := if i < 0 then ToInt32(ToSizeT(i + size)) else i;
      if k < 0 || k >= size then Failure(IndexError) else Success(k)
  }

  /** For a vector of 5 elements, -1 and 4 name the same element, while -6
      and 5 raise `index_error`. */
  lemma VectorIndexExamples()
    ensures VectorIndex(-1, 5) == VectorIndex(4, 5) == Success(4)
    ensures VectorIndex(-6, 5) == VectorIndex(5, 5) == Failure(IndexError)
  {
    assert ToSizeT(-1 + 5) == 4;
    assert ToSizeT(-6 + 5) == SizeTModulus - 1;
  }

  /** `Vector.__setitem__(i, v)`: writes v to the element VectorIndex
      selects, or raises and leaves the vector alone. */
  method VectorSetItem(self: Vector, i: int, x: int) returns (r: Result<()>)
    requires self.Valid() && self.data != null && self.size < SizeTModulus
    modifies self.data
    ensures self.Valid()
    ensures VectorIndex(i, self.size).Success? ==>
      r == Success(()) && self.Contents() == old(self.Contents())[VectorIndex(i, self.size).value := x]
    ensures VectorIndex(i, self.size).Failure? ==>
      r == Failure(VectorIndex(i, self.size).error) && self.Contents() == old(self.Contents())
  {
    var k := VectorIndex(i, self.size);
    if k.Failure? {
      return Failure(k.error);
    }
    self.data[k.value] := x;
    return Success(());
  }

  /** `Vector.__getitem__(i)`: reads element i with no wrap-around and no
      bounds check, so the caller must pass an index inside the vector. For
      such an index of a vector of at most 2^31 elements, `__setitem__`
      writes the very element read here. */
  function VectorGetItem(self: Vector, i: int): (x: int)
    reads self, self.data
    requires self.Valid() && 0 <= i < self.size
    ensures x == self.Contents()[i]
    ensures self.size <= -Int32Min ==> VectorIndex(i, self.size) == Success(i)
  {
    self.data[i]
  }

  // ---------------------------------------------------------------------
  // Vector.__setitem__ with a slice

  /** Cell p is written by a slice assignment starting at `start` that
      writes `count` elements `step` apart. */
  predicate SliceWrites(start: nat, count: nat, step: nat, p: nat)
    requires step > 0
  {
    start <= p && (p - start) % step == 0 && (p - start) / step < count
  }

  /** The elements of the view from `start`, `step` apart, are exactly the
      cells SliceWrites names. */
  lemma OnSliceIff(start: nat, count: nat, step: nat, p: nat)
    requires step > 0
    ensures OnView(VecView(start, count, step), p) <==> SliceWrites(start, count, step, p)
  {
    var v := VecView(start, count, step);
    if OnView(v, p) {
      var k :| 0 <= k < count && p == Index(v, k);
      DivExact(step, k);
    }
    if SliceWrites(start, count, step, p) {
      var k := (p - start) / step;
      assert p == Index(v, k);
    }
  }

  /** (step * k) / step == k and (step * k) % step == 0. */
  lemma DivExact(step: nat, k: nat)
    requires step > 0
    ensures (step * k) / step == k && (step * k) % step == 0
  {
    var q, m := (step * k) / step, (step * k) % step;
    assert step * k == step * q + m;
    if q < k {
      MulMonotone(step, q + 1, k);
    } else if q > k {
      MulMonotone(step, k + 1, q);
    }
  }

  /** A slice view over the cells of a vector of `size` elements stays
      inside them when it ends before `stop`: the last written cell is
      below stop. */
  lemma SliceInside(start: nat, stop: nat, count: nat, step: nat, size: nat)
    requires step > 0 && stop <= size && (count == 0 || start + step * (count - 1) < stop)
    ensures Inside(VecView(start, count, step), size)
  {
    forall k | 0 <= k < count
      ensures Index(VecView(start, count, step), k) < size
    {
      MulMonotone(step, k, count - 1);
    }
  }

  /** `self.Range(start, stop).Slice(0, step)` on a vector of `size`
      elements: it starts at `start`, steps by `step` and has
      ((stop - start) mod 2^64) / step elements. */
  function SliceView(size: nat, start: nat, stop: nat, step: nat): (r: VecView)
    requires step > 0 && start < SizeTModulus && stop < SizeTModulus
    ensures r.offset == start && r.dist == step
    ensures start <= stop ==> r.size == (stop - start) / step
    ensures stop < start ==> r.size == (SizeTModulus - (start - stop)) / step
  {
    Slice(Range(VecView(0, size, 1), start, stop), 0, step)
  }

  /** Slice assignment `x[start:stop:step] = val`, as written, for the
      bounds `py::slice::compute` returns with a positive step and
      start <= stop: it writes (stop - start) / step elements, truncating. */
  method SliceSetItem(self: Vector, start: nat, stop: nat, step: nat, val: int)
    requires self.Valid() && self.data != null
    requires step > 0 && start <= stop <= self.size < SizeTModulus
    modifies self.data
    ensures self.Valid()
    ensures forall p :: 0 <= p < self.size ==>
      self.Contents()[p] == if SliceWrites(start, (stop - start) / step, step, p) then val else old(self.Contents())[p]
  {
    var v := SliceView(self.size, start, stop, step);
    var count := (stop - start) / step;
    if count > 0 {
      MulMonotone(step, count - 1, count);
      assert step * count <= stop - start;
    }
    SliceInside(start, stop, count, step, self.size);
    AssignScalar(self.data, v, val);
    forall p | 0 <= p < self.size
      ensures self.data[p] == if SliceWrites(start, count, step, p) then val else old(self.data[p])
    {
      OnSliceIff(start, count, step, p);
      if OnView(v, p) {
        var k :| 0 <= k < v.size && p == Index(v, k);
      }
    }
  }

  /** `x[0:5:2] = 1` on a vector of 5 elements: Python assigns indices 0, 2
      and 4, but the truncated count 5 / 2 == 2 leaves index 4 alone. */
  lemma SliceSkipsLast()
    ensures (5 - 0) / 2 == 2
    ensures SliceWrites(0, 2, 2, 2) && !SliceWrites(0, 2, 2, 4)
    ensures SliceWrites(0, SliceLength(0, 5, 2), 2, 4)
  {
  }

  /** A slice whose stop lies below its start, with step 1, as written:
      `Range(start, stop)` wraps its size around to 2^64 - (start - stop),
      so the view runs past the last of the vector's `size` cells. Python
      assigns nothing to such a slice. */
  lemma SliceBackwardsOverruns(size: nat, start: nat, stop: nat)
    requires stop < start <= size < SizeTModulus
    ensures SliceView(size, start, stop, 1).size == SizeTModulus - (start - stop)
    ensures !Inside(SliceView(size, start, stop, 1), size)
    ensures SliceLength(start, stop, 1) == 0
  {
    var v := SliceView(size, start, stop, 1);
    assert v.size == SizeTModulus - (start - stop);
    var k := size - start;
    assert k < v.size && Index(v, k) == size;
  }

  /** `x[3:1] = 1` on a vector of 5 elements writes cell 5 and beyond. */
  lemma SliceBackwardsExample()
    ensures !Inside(SliceView(5, 3, 1, 1), 5)
  {
    SliceBackwardsOverruns(5, 3, 1);
  }

  /** Python's slice length for a positive step: the number of indices
      start, start + step, ... that lie below stop. */
  function SliceLength(start: nat, stop: nat, step: nat): nat
    requires step > 0
  {
    if stop <= start then 0 else (stop - start + step - 1) / step
  }

  /** The slice of Python's length writes exactly the indices start,
      start + step, ... below stop. */
  lemma SliceLengthWrites(start: nat, stop: nat, step: nat, p: nat)
    requires step > 0
    ensures SliceWrites(start, SliceLength(start, stop, step), step, p) <==> start <= p < stop && (p - start) % step == 0
  {
    var n := SliceLength(start, stop, step);
    if start <= p && (p - start) % step == 0 {
      var q := (p - start) / step;
      assert p - start == step * q;
      if stop <= start {
      } else {
        var L := stop - start;
        assert step * n <= L + step - 1 < step * n + step;
        if q < n {
          MulMonotone(step, q + 1, n);
        } else {
          MulMonotone(step, n, q);
        }
      }
    }
  }

  /** Slice assignment writing Python's slice length `n`, which
      `py::slice::compute` already returns: exactly the indices start,
      start + step, ... below stop are assigned, nothing else changes. */
  method SliceSetItemCorrected(self: Vector, start: nat, stop: nat, step: nat, val: int)
    requires self.Valid() && self.data != null
    requires step > 0 && start <= self.size && stop <= self.size
    modifies self.data
    ensures self.Valid()
    ensures forall p :: 0 <= p < self.size ==>
      self.Contents()[p] == if start <= p < stop && (p - start) % step == 0 then val else old(self.Contents())[p]
  {
    var n := SliceLength(start, stop, step);
    var v := VecView(start, n, step);
    if n > 0 {
      var last := start + step * (n - 1);
      assert SliceWrites(start, n, step, last) by {
        DivExact(step, n - 1);
      }
      SliceLengthWrites(start, stop, step, last);
    }
    SliceInside(start, stop, n, step, self.size);
    AssignScalar(self.data, v, val);
    forall p | 0 <= p < self.size
      ensures self.data[p] == if start <= p < stop && (p - start) % step == 0 then val else old(self.data[p])
    {
      OnSliceIff(start, n, step, p);
      SliceLengthWrites(start, stop, step, p);
      if OnView(v, p) {
        var k :| 0 <= k < v.size && p == Index(v, k);
      }
    }
  }

  // ---------------------------------------------------------------------
  // Matrix

  /** `Matrix<double>`: a dense row-major height x width matrix owning its
      buffer. */
  class Matrix {
    const height: nat
    const width: nat
    const data: array<int>

    ghost predicate Valid() {
      data.Length == height * width
    }

    /** The layout of the buffer. */
    function Shape(): View {
      Dense(height, width, RowMajor)
    }

    /** `Matrix(height, width)`: a fresh buffer of unspecified contents. */
    constructor (m: nat, n: nat)
      ensures Valid() && height == m && width == n && fresh(data)
    {
      height, width := m, n;
      data := new int[m * n];
    }

    /** The list constructor: A(i, j) = d[i * n + j] for i < m, j < n, so
      the buffer holds the first m * n entries of d (see RowMajorFlattening).
      The entries are not counted first, so d must hold at least m * n. */
    constructor FromList(m: nat, n: nat, d: seq<int>)
      requires m * n <= |d|
      ensures Valid() && height == m && width == n && fresh(data)
      ensures data[..] == d[..m * n]
    {
      height, width := m, n;
      var buf := new int[m * n];
      ghost var done := 0;
      for i := 0 to m
        invariant done == i * n && done <= m * n
        invariant forall p :: 0 <= p < done ==> buf[p] == d[p]
      {
        assert done + n <= m * n by {
          MulMonotone(n, i + 1, m);
        }
        for j := 0 to n
          invariant done + n <= m * n
          invariant forall p :: 0 <= p < done + j ==> buf[p] == d[p]
        {
          DenseRowMajor(m, n, i, j);
          buf[i * n + j] := d[i * n + j];
        }
        done := done + n;
        assert done == (i + 1) * n <= m * n;
      }
      data := buf;
    }

    /** `__getitem__((i, j))`: element (i, j), with no bounds check. */
    function GetItem(i: int, j: int): (x: int)
      reads data
      requires Valid() && 0 <= i < height && 0 <= j < width
      ensures x == El(Mat(data[..], Shape()), i, j)
    {
      DenseRowMajor(height, width, i, j);
      data[i * width + j]
    }

    /** `__setitem__((i, j), e)`: writes e to the one element MatrixIndex
      selects and leaves every other cell alone, or raises and changes
      nothing. */
    method SetItem(i: int, j: int, e: int) returns (r: Result<()>)
      requires Valid() && height < SizeTModulus && width < SizeTModulus
      modifies data
      ensures MatrixIndex(i, j, height, width).Failure? ==>
        r == Failure(MatrixIndex(i, j, height, width).error) && data[..] == old(data[..])
      ensures MatrixIndex(i, j, height, width).Success? ==> r == Success(())
      ensures MatrixIndex(i, j, height, width).Success? ==>
        var (i2, j2) := MatrixIndex(i, j, height, width).value;
        forall p :: 0 <= p < data.Length ==>
          data[p] == if p == Addr(Shape(), i2, j2) then e else old(data[p])
    {
      var k := MatrixIndex(i, j, height, width);
      if k.Failure? {
        return Failure(k.error);
      }
      var (i2, j2) := k.value;
      DenseRowMajor(height, width, i2, j2);
      data[i2 * width + j2] := e;
      return Success(());
    }
  }

  /** Filling a dense row-major m x n matrix from the first m * n entries
      of d puts d[i * n + j] at element (i, j). */
  lemma RowMajorFlattening(m: nat, n: nat, d: seq<int>, i: nat, j: nat)
    requires m * n <= |d| && i < m && j < n
    ensures i * n + j < |d|
    ensures El(Mat(d[..m * n], Dense(m, n, RowMajor)), i, j) == d[i * n + j]
  {
    DenseRowMajor(m, n, i, j);
  }

  /** Index normalisation of `Matrix.__setitem__`, as written: both indices
      arrive as `int` and are converted to `size_t` straight away, so the
      tests `i < 0` and `j < 0` never hold and nothing wraps; a negative
      index becomes a huge one and raises `index_error`. */
  function MatrixIndex(i: int, j: int, height: nat, width: nat): (r: Result<(nat, nat)>)
    requires height < SizeTModulus && width < SizeTModulus
    ensures r == Failure(CastError) <==> !IsInt32(i) || !IsInt32(j)
    ensures r.Failure? && IsInt32(i) && IsInt32(j) ==> r.error == IndexError
    ensures r.Success? ==> r.value.0 < height && r.value.1 < width
    ensures height <= SizeTModulus + Int32Min && width <= SizeTModulus + Int32Min ==>
      (r.Success? <==> IsInt32(i) && IsInt32(j) && 0 <= i < height && 0 <= j < width) &&
      (r.Success? ==> r.value == (i, j))
  {
    if !IsInt32(i) || !IsInt32(j) then Failure(CastError)
    else
      var i2, j2 := ToSizeT(i), ToSizeT(j);
      if i2 >= height || j2 >= width then Failure(IndexError) else Success((i2, j2))
  }

  /** Index normalisation as the `i < 0` tests intend: the indices stay
      signed, and -height .. height - 1 (resp. -width .. width - 1) are
      accepted, a negative one counting from the end. */
  function MatrixIndexCorrected(i: int, j: int, height: nat, width: nat): (r: Result<(nat, nat)>)
    ensures r == Failure(CastError) <==> !IsInt32(i) || !IsInt32(j)
    ensures IsInt32(i) && IsInt32(j) ==>
      (r.Success? <==> -(height as int) <= i < height && -(width as int) <= j < width)
    ensures r.Success? ==> (r.value.0 < height && r.value.1 < width &&
      r.value == (if i < 0 then i + height else i, if j < 0 then j + width else j))
  {
    if !IsInt32(i) || !IsInt32(j) then Failure(CastError)
    else
      var i2 := if i < 0 then i + height else i;
      var j2 := if j < 0 then j + width else j;
      if i2 < 0 || j2 < 0 || i2 >= height || j2 >= width then Failure(IndexError) else Success((i2, j2))
  }

  /** On a 2 x 2 matrix, `A[-1, 0] = e` raises as written, while the
      intended rule writes element (1, 0). */
  lemma MatrixNegativeIndex()
    ensures MatrixIndex(-1, 0, 2, 2) == Failure(IndexError)
    ensures MatrixIndexCorrected(-1, 0, 2, 2) == Success((1, 0))
  {
    assert ToSizeT(-1) == SizeTModulus - 1;
  }

  // ---------------------------------------------------------------------
  // Pickling

  /** The Python objects a pickled state holds: integers, byte strings
      (as 8-byte cells, one per double) and anything else. */
  datatype PyObject = PyInt(n: int) | PyBytes(cells: seq<int>) | PyOther

  /** pybind11's `cast<size_t>()`: a non-negative integer below 2^64. */
  function CastSizeT(o: PyObject): (r: Result<nat>)
    ensures r.Success? <==> o.PyInt? && 0 <= o.n < SizeTModulus
    ensures r.Success? ==> r.value == o.n
    ensures r.Failure? ==> r.error == CastError
  {
    if o.PyInt? && 0 <= o.n < SizeTModulus then Success(o.n) else Failure(CastError)
  }

  /** `memcpy` copies as many cells as the new object holds out of the byte
      string; a byte string shorter than that is read past its end, so
      setstate is only defined when it is long enough. */
  predicate VectorStateReadable(t: seq<PyObject>) {
    |t| == 2 && CastSizeT(t[0]).Success? && t[1].PyBytes? ==> t[0].n <= |t[1].cells|
  }

  predicate MatrixStateReadable(t: seq<PyObject>) {
    |t| == 3 && CastSizeT(t[0]).Success? && CastSizeT(t[1]).Success? && t[2].PyBytes? ==>
      t[0].n * t[1].n <= |t[2].cells|
  }

  /** `__setstate__` of Vector: the state must be a 2-tuple (else
      `runtime_error`) of a size and a byte string (else a cast error); the
      vector gets that size and the first size cells of the string. */
  function VectorFromState(t: seq<PyObject>): (r: Result<seq<int>>)
    requires VectorStateReadable(t)
    ensures |t| != 2 <==> r == Failure(RuntimeError)
    ensures |t| == 2 && (CastSizeT(t[0]).Failure? || !t[1].PyBytes?) <==> r == Failure(CastError)
    ensures r.Success? ==> t[0] == PyInt(|r.value|) && r.value <= t[1].cells
  {
    if |t| != 2 then Failure(RuntimeError)
    else
      match CastSizeT(t[0])
      case Failure(e) => Failure(e)
      case Success(n) =>
        if t[1].PyBytes? then Success(t[1].cells[..n]) else Failure(CastError)
  }

  /** `__getstate__` of Vector: the pair (size, the elements as bytes).
      Setstate restores exactly the vector it came from. */
  function VectorGetState(v: seq<int>): (t: seq<PyObject>)
    requires |v| < SizeTModulus
    ensures VectorStateReadable(t) && VectorFromState(t) == Success(v)
  {
    var t := [PyInt(|v|), PyBytes(v)];
    assert CastSizeT(t[0]) == Success(|v|) && t[1].cells[..|v|] == v;
    t
  }

  /** A state tuple of any arity but 2 is refused with `runtime_error`. */
  lemma VectorStateArity(t: seq<PyObject>)
    requires |t| != 2
    ensures VectorStateReadable(t) && VectorFromState(t) == Failure(RuntimeError)
  {
  }

  /** `__setstate__` of Matrix: a 3-tuple (else `runtime_error`) of height,
      width and a byte string (else a cast error); the matrix gets that
      shape and the first height * width cells of the string. */
  function MatrixFromState(t: seq<PyObject>): (r: Result<(nat, nat, seq<int>)>)
    requires MatrixStateReadable(t)
    ensures |t| != 3 <==> r == Failure(RuntimeError)
    ensures |t| == 3 && (CastSizeT(t[0]).Failure? || CastSizeT(t[1]).Failure? || !t[2].PyBytes?) <==>
      r == Failure(CastError)
    ensures r.Success? ==> (t[0] == PyInt(r.value.0) && t[1] == PyInt(r.value.1) &&
      |r.value.2| == r.value.0 * r.value.1 && r.value.2 <= t[2].cells)
  {
    if |t| != 3 then Failure(RuntimeError)
    else
      match CastSizeT(t[0])
      case Failure(e) => Failure(e)
      case Success(h) =>
        match CastSizeT(t[1])
        case Failure(e) => Failure(e)
        case Success(w) =>
          if t[2].PyBytes? then Success((h, w, t[2].cells[..h * w])) else Failure(CastError)
  }

  /** `__getstate__` of Matrix: (height, width, the height * width cells
      as bytes). Setstate restores exactly the shape and cells. */
  function MatrixGetState(height: nat, width: nat, cells: seq<int>): (t: seq<PyObject>)
    requires height < SizeTModulus && width < SizeTModulus && |cells| == height * width
    ensures MatrixStateReadable(t) && MatrixFromState(t) == Success((height, width, cells))
  {
    var t := [PyInt(height), PyInt(width), PyBytes(cells)];
    assert CastSizeT(t[0]) == Success(height) && CastSizeT(t[1]) == Success(width);
    assert t[2].cells[..height * width] == cells;
    t
  }

  /** A state tuple of any arity but 3 is refused with `runtime_error`. */
  lemma MatrixStateArity(t: seq<PyObject>)
    requires |t| != 3
    ensures MatrixStateReadable(t) && MatrixFromState(t) == Failure(RuntimeError)
  {
  }

  /** `__setstate__` of Vector on the object level: a new vector whose
      buffer the cells are copied into one by one. */
  method VectorSetState(t: seq<PyObject>) returns (r: Result<Vector>)
    requires VectorStateReadable(t)
    ensures r.Failure? <==> VectorFromState(t).Failure?
    ensures r.Failure? ==> r.error == VectorFromState(t).error
    ensures r.Success? ==> (r.value.Valid() && r.value.data != null && fresh(r.value.data) &&
      r.value.Contents() == VectorFromState(t).value)
  {
    var s := VectorFromState(t);
    if s.Failure? {
      return Failure(s.error);
    }
    var n := t[0].n;
    var v := new Vector(n);
    var buf: array<int> := v.data;
    var mem := t[1].cells;
    for k := 0 to n
      invariant v.data == buf && v.size == n
      invariant buf[..k] == mem[..k]
    {
      buf[k] := mem[k];
    }
    assert buf[..] == buf[..n];
    return Success(v);
  }

  /** `__setstate__` of Matrix on the object level. */
  method MatrixSetState(t: seq<PyObject>) returns (r: Result<Matrix>)
    requires MatrixStateReadable(t)
    ensures r.Failure? <==> MatrixFromState(t).Failure?
    ensures r.Failure? ==> r.error == MatrixFromState(t).error
    ensures r.Success? ==> (r.value.Valid() && fresh(r.value.data) &&
      (r.value.height, r.value.width, r.value.data[..]) == MatrixFromState(t).value)
  {
    var s := MatrixFromState(t);
    if s.Failure? {
      return Failure(s.error);
    }
    var h, w := t[0].n, t[1].n;
    var A := new Matrix(h, w);
    var mem := t[2].cells;
    for k := 0 to h * w
      invariant A.data[..k] == mem[..k]
    {
      A.data[k] := mem[k];
    }
    assert A.data[..] == A.data[..h * w];
    return Success(A);
  }
}
