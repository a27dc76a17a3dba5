/** The LAPACK-facing layer: the argument selection for a BLAS product of
    two views into a third, and the LU object that keeps LAPACK's packed
    factorisation and rebuilds its factors L, U and P from it. The LAPACK
    routines are outside the model: a product routine is described by the
    entries it computes from its arguments, a factorisation by the packed
    matrix and pivots it hands back. */
module LapackInterface {
  import opened MatrixViews
  import opened Products

  /** The arguments of one BLAS `dgemm_` call (alpha = 1 and beta = 0 are
      fixed): operation flags, the size of the m x n result and the inner
      size k, and for each matrix the cell its data pointer addresses and
      its leading dimension. */
  datatype GemmArgs = GemmArgs(
    transa: char, transb: char, m: nat, n: nat, k: nat,
    a: nat, lda: nat, b: nat, ldb: nat, c: nat, ldc: nat)

  /** A buffer cell; a cell beyond the buffer reads as 0. */
  function Read(buf: seq<int>, p: nat): int {
    if p < |buf| then buf[p] else 0
  }

  /** Element (i, l) of op(X) for a column-major X stored from cell `off`
      with leading dimension ld: X itself for 'N', its transpose otherwise. */
  function Op(buf: seq<int>, off: nat, ld: nat, trans: char, i: nat, l: nat): int {
    if trans == 'N' then Read(buf, off + i + l * ld) else Read(buf, off + l + i * ld)
  }

  /** Entry (i, j) of op(A)·op(B) over inner indices [0, hi), as `dgemm_`
      computes it from its arguments. */
  function GemmSum(g: GemmArgs, abuf: seq<int>, bbuf: seq<int>, i: nat, j: nat, hi: nat): int {
    if hi == 0 then 0
    else GemmSum(g, abuf, bbuf, i, j, hi - 1) + Op(abuf, g.a, g.lda, g.transa, i, hi - 1) * Op(bbuf, g.b, g.ldb, g.transb, hi - 1, j)
  }

  /** The cell `dgemm_` overwrites with entry (i, j) of the result. */
  function GemmCell(g: GemmArgs, i: nat, j: nat): nat {
    g.c + i + j * g.ldc
  }

  /** `std::max(x.Dist(), 1ul)`. */
  function LeadingDim(v: View): (ld: nat)
    ensures ld >= 1 && (v.dist >= 1 ==> ld == v.dist)
  {
    if v.dist >= 1 then v.dist else 1
  }

  /** The transpose flag: 'N' for a column-major operand, 'T' for a row-major one. */
  function TransFlag(v: View): (t: char)
    ensures t == 'N' <==> v.ord == ColMajor
  {
    if v.ord == ColMajor then 'N' else 'T'
  }

  /** `MultMatMatLapack` for a column-major result c: flags from the
      operands' orderings, sizes from c and a, leading dimensions at least 1. */
  function ColMajorGemm(A: View, B: View, C: View): (g: GemmArgs)
    ensures g.m == C.rows && g.n == C.cols && g.k == A.cols
    ensures g.transa == 'N' <==> A.ord == ColMajor
    ensures g.transb == 'N' <==> B.ord == ColMajor
  {
    GemmArgs(TransFlag(A), TransFlag(B), C.rows, C.cols, A.cols,
             A.offset, LeadingDim(A), B.offset, LeadingDim(B), C.offset, LeadingDim(C))
  }

  /** `MultMatMatLapack` for either ordering of c: a row-major c is handled
      by the column-major call for (bᵀ, aᵀ, cᵀ). */
  function MultMatMatLapack(A: View, B: View, C: View): GemmArgs {
    if C.ord == ColMajor then ColMajorGemm(A, B, C)
    else ColMajorGemm(Transposed(B), Transposed(A), Transposed(C))
  }

  /** With the flag and leading dimension chosen from a well-formed view,
      op(X)(i, l) is element (i, l) of the view. */
  lemma OpIsElement(buf: seq<int>, X: View, i: nat, l: nat)
    requires WellFormed(X) && i < X.rows && l < X.cols
    ensures Op(buf, X.offset, LeadingDim(X), TransFlag(X), i, l) == El(Mat(buf, X), i, l)
  {
    assert X.dist >= 1;
    if X.ord == ColMajor {
      assert Addr(X, i, l) == X.offset + i + l * X.dist;
    } else {
      assert Addr(X, i, l) == X.offset + l + i * X.dist;
    }
  }

  /** The column-major call computes the entries of A·B. */
  lemma {:induction false} GemmIsProduct(a: seq<int>, A: View, b: seq<int>, B: View, C: View, i: nat, j: nat, hi: nat)
    requires WellFormed(A) && WellFormed(B) && A.cols == B.rows
    requires i < A.rows && j < B.cols && hi <= A.cols
    ensures GemmSum(ColMajorGemm(A, B, C), a, b, i, j, hi) == Dot(Mat(a, A), Mat(b, B), i, j, 0, hi)
  {
    if hi > 0 {
      GemmIsProduct(a, A, b, B, C, i, j, hi - 1);
      OpIsElement(a, A, i, hi - 1);
      OpIsElement(b, B, hi - 1, j);
    }
  }

  /** Whatever the orderings of a, b and c, the `dgemm_` call
      `MultMatMatLapack` issues writes (A·B)(i, j) into the cell of element
      (i, j) of c, and its m x n result range is c's elements exactly. For a
      row-major c the call computes Bᵀ·Aᵀ into cᵀ, so its first operand is
      b's buffer. */
  lemma MultMatMatLapackProduct(a: seq<int>, A: View, b: seq<int>, B: View, C: View, i: nat, j: nat)
    requires WellFormed(A) && WellFormed(B) && WellFormed(C)
    requires A.rows == C.rows && B.cols == C.cols && A.cols == B.rows
    requires i < C.rows && j < C.cols
    ensures var g := MultMatMatLapack(A, B, C);
      if C.ord == ColMajor then
        g.m == C.rows && g.n == C.cols &&
        GemmCell(g, i, j) == Addr(C, i, j) &&
        GemmSum(g, a, b, i, j, g.k) == Dot(Mat(a, A), Mat(b, B), i, j, 0, A.cols)
      else
        g.m == C.cols && g.n == C.rows &&
        GemmCell(g, j, i) == Addr(C, i, j) &&
        GemmSum(g, b, a, j, i, g.k) == Dot(Mat(a, A), Mat(b, B), i, j, 0, A.cols)
  {
    if C.ord == ColMajor {
      GemmIsProduct(a, A, b, B, C, i, j, A.cols);
    } else {
      GemmIsProduct(b, Transposed(B), a, Transposed(A), Transposed(C), j, i, A.cols);
      DotTransposed(Mat(a, A), Mat(b, B), i, j, 0, A.cols);
    }
  }

  /** Element (i, j) of the strictly lower part of the packed matrix, with 1
      on the diagonal and 0 above it. */
  function Lower(P: Mat, i: nat, j: nat): int {
    if i > j then El(P, i, j) else if i == j then 1 else 0
  }

  /** Element (i, j) of the upper part of the packed matrix, diagonal
      included, with 0 below it. */
  function Upper(P: Mat, i: nat, j: nat): int {
    if i <= j then El(P, i, j) else 0
  }

  /** The two factors give back the packed matrix: off the diagonal exactly
      one of them holds its element and the other 0; on the diagonal U holds
      it and L holds 1. */
  lemma FactorsRecoverPacked(P: Mat, i: nat, j: nat)
    ensures i != j ==> Lower(P, i, j) + Upper(P, i, j) == El(P, i, j)
    ensures i != j ==> Lower(P, i, j) == 0 || Upper(P, i, j) == 0
    ensures Upper(P, i, i) == El(P, i, i) && Lower(P, i, i) == 1
  {
  }

  /** Entry (i, j) of `PFactor`: 1 when row i is the pivot recorded for
      column j, 0 otherwise. */
  function PivotEntry(piv: seq<int>, i: nat, j: nat): int
    requires j < |piv|
  {
    if i == piv[j] then 1 else 0
  }

  /** Column j of the as-written P holds exactly one 1, at row ipiv[j], when
      ipiv[j] names a row, and none otherwise. */
  lemma PivotColumn(piv: seq<int>, rows: nat, j: nat)
    requires j < |piv|
    ensures forall i :: 0 <= i < rows ==> PivotEntry(piv, i, j) in {0, 1}
    ensures forall i :: 0 <= i < rows ==> (PivotEntry(piv, i, j) == 1 <==> i == piv[j])
    ensures (exists i :: 0 <= i < rows && PivotEntry(piv, i, j) == 1) <==> 0 <= piv[j] < rows
  {
    if 0 <= piv[j] < rows {
      assert PivotEntry(piv, piv[j], j) == 1;
    }
  }

  /** For a 2 x 2 matrix factored without row interchanges, LAPACK records
      the 1-based pivots [1, 2]. The as-written P then has its 1 of column 0
      in row 1 and no 1 in column 1: not the identity, and no permutation
      matrix at all. */
  lemma PFactorNoInterchanges()
    ensures PivotEntry([1, 2], 0, 0) == 0 && PivotEntry([1, 2], 1, 0) == 1
    ensures PivotEntry([1, 2], 0, 1) == 0 && PivotEntry([1, 2], 1, 1) == 0
  {
  }

  /** p with entries j and k exchanged. */
  function Swap(p: seq<int>, j: nat, k: nat): (r: seq<int>)
    requires j < |p| && k < |p|
    ensures |r| == |p|
  {
    p[j := p[k]][k := p[j]]
  }

  /** p and q are inverse permutations of 0 .. n-1. */
  ghost predicate Permutes(p: seq<int>, q: seq<int>, n: nat) {
    && |p| == n && |q| == n
    && (forall j :: 0 <= j < n ==> 0 <= p[j] < n && q[p[j]] == j)
    && (forall i :: 0 <= i < n ==> 0 <= q[i] < n && p[q[i]] == i)
  }

  /** LAPACK's 1-based pivots are all valid row numbers. */
  predicate ValidPivots(piv: seq<int>, n: nat) {
    |piv| == n && forall j :: 0 <= j < n ==> 1 <= piv[j] <= n
  }

  /** The row order after the first t interchanges: interchange j exchanges
      positions j and piv[j] - 1. Entry j is the row of the factorised
      matrix that ends up as row j of L·U. LAPACK reads the buffer column-
      major, so for a column-major A that matrix is A itself; for a row-major
      A it is Aᵀ, and the interchanges exchange columns of A. */
  function Interchanged(piv: seq<int>, n: nat, t: nat): (p: seq<int>)
    requires ValidPivots(piv, n) && t <= n
    ensures |p| == n && forall x :: 0 <= x < n ==> 0 <= p[x] < n
  {
    if t == 0 then seq(n, i => i) else Swap(Interchanged(piv, n, t - 1), t - 1, piv[t - 1] - 1)
  }

  /** The inverse of `Interchanged`, maintained alongside it. */
  function InterchangedInverse(piv: seq<int>, n: nat, t: nat): (q: seq<int>)
    requires ValidPivots(piv, n) && t <= n
    ensures |q| == n
  {
    if t == 0 then seq(n, i => i)
    else
      var p := Interchanged(piv, n, t - 1);
      var q := InterchangedInverse(piv, n, t - 1);
      var j, k := t - 1, piv[t - 1] - 1;
      q[p[j] := k][p[k] := j]
  }

  /** Exchanging two entries of a permutation keeps it one, with the
      inverse updated at the two values moved. */
  lemma SwapPermutes(p: seq<int>, q: seq<int>, n: nat, j: nat, k: nat)
    requires Permutes(p, q, n) && j < n && k < n
    ensures Permutes(Swap(p, j, k), q[p[j] := k][p[k] := j], n)
  {
    var p2 := Swap(p, j, k);
    var q2 := q[p[j] := k][p[k] := j];
    forall x | 0 <= x < n
      ensures 0 <= p2[x] < n && q2[p2[x]] == x
    {
      if x == k {
        assert p2[x] == p[j];
      } else if x == j {
        assert p2[x] == p[k];
      } else {
        assert p2[x] == p[x];
        assert p[x] != p[j] && p[x] != p[k];
      }
    }
    forall y | 0 <= y < n
      ensures 0 <= q2[y] < n && p2[q2[y]] == y
    {
      if y == p[k] {
      } else if y == p[j] {
      } else {
        assert q2[y] == q[y];
        assert q[y] != j && q[y] != k;
      }
    }
  }

  /** Every prefix of the interchanges yields a permutation, with its inverse. */
  lemma {:induction false} InterchangedPermutes(piv: seq<int>, n: nat, t: nat)
    requires ValidPivots(piv, n) && t <= n
    ensures Permutes(Interchanged(piv, n, t), InterchangedInverse(piv, n, t), n)
  {
    if t > 0 {
      InterchangedPermutes(piv, n, t - 1);
      SwapPermutes(Interchanged(piv, n, t - 1), InterchangedInverse(piv, n, t - 1), n, t - 1, piv[t - 1] - 1);
    }
  }

  /** The matrix with a 1 at (p[j], j) is a permutation matrix: row i holds
      its only 1 in column q[i] and column j its only 1 in row p[j]. */
  lemma PermutationMatrix(piv: seq<int>, n: nat)
    requires ValidPivots(piv, n)
    ensures var p, q := Interchanged(piv, n, n), InterchangedInverse(piv, n, n);
      forall i, j :: 0 <= i < n && 0 <= j < n ==>
        (PivotEntry(p, i, j) == 1 <==> j == q[i]) &&
        (PivotEntry(p, i, j) == 1 <==> i == p[j]) &&
        PivotEntry(p, i, j) in {0, 1}
  {
    InterchangedPermutes(piv, n, n);
  }

  /** Without interchanges (piv[j] == j + 1) the corrected P is the identity. */
  lemma {:induction false} NoInterchangesIdentity(piv: seq<int>, n: nat, t: nat)
    requires ValidPivots(piv, n) && t <= n
    requires forall j :: 0 <= j < n ==> piv[j] == j + 1
    ensures Interchanged(piv, n, t) == seq(n, i => i)
  {
    if t > 0 {
      NoInterchangesIdentity(piv, n, t - 1);
    }
  }

  /** Cell Addr(V, i, j) of a dense matrix lies in its rows * cols cells and
      holds no other element. */
  lemma DenseCell(rows: nat, cols: nat, ord: Ordering, i: nat, j: nat)
    requires i < rows && j < cols
    ensures Addr(Dense(rows, cols, ord), i, j) < rows * cols
    ensures forall i2, j2 :: 0 <= i2 < rows && 0 <= j2 < cols && (i2, j2) != (i, j) ==>
      Addr(Dense(rows, cols, ord), i2, j2) != Addr(Dense(rows, cols, ord), i, j)
  {
    var V := Dense(rows, cols, ord);
    if ord == RowMajor {
      DenseRowMajor(rows, cols, i, j);
    } else {
      DenseRowMajor(cols, rows, j, i);
      assert Addr(V, i, j) == j * rows + i;
      assert cols * rows == rows * cols;
    }
    forall i2, j2 | 0 <= i2 < rows && 0 <= j2 < cols && (i2, j2) != (i, j)
      ensures Addr(V, i2, j2) != Addr(V, i, j)
    {
      AddrInjective(V, i2, j2, i, j);
    }
  }

  /** Applies LAPACK's 1-based interchanges to the identity order, in turn. */
  method InterchangeOrder(ipiv: array<int>, n: nat) returns (perm: array<int>)
    requires ValidPivots(ipiv[..], n)
    ensures perm[..] == Interchanged(ipiv[..], n, n)
  {
    ghost var piv := ipiv[..];
    perm := new int[n](k => k);
    assert perm[..] == Interchanged(piv, n, 0);
    for t := 0 to n
      invariant perm[..] == Interchanged(piv, n, t)
    {
      var k := ipiv[t] - 1;
      ghost var before := perm[..];
      perm[t], perm[k] := perm[k], perm[t];
      assert perm[..] == Swap(before, t, k);
    }
  }

  /** All elements of a dense matrix lie in its rows * cols cells. */
  lemma DenseFits(rows: nat, cols: nat, ord: Ordering)
    ensures Fits(Dense(rows, cols, ord), rows, cols, rows * cols)
  {
    forall i, j | 0 <= i < rows && 0 <= j < cols
      ensures Addr(Dense(rows, cols, ord), i, j) < rows * cols
    {
      DenseCell(rows, cols, ord, i, j);
    }
  }

  /** `LapackLU<ORD>`: the packed LU factorisation of a rows x cols matrix
      and the pivot vector of length rows. */
  class LapackLU {
    const rows: nat
    const cols: nat
    const ord: Ordering
    var a: array<int>
    var ipiv: array<int>

    ghost predicate Valid()
      reads this
    {
      a.Length == rows * cols && ipiv.Length == rows
    }

    /** The dense layout of a, and of the factors built from it. */
    function Shape(): View
      reads this
    {
      Dense(rows, cols, ord)
    }

    /** `LapackLU(_a)`: the matrix arrives by value, so the object works on
      its own copy of the rows x cols cells of m and the caller's matrix
      keeps its entries; the pivot vector has rows entries, zeroed. With no
      rows the constructor returns before factorising. Otherwise the LAPACK
      factorisation runs, whatever `apply` says, and leaves the packed
      factors `factored` in the copy and min(rows, cols) pivots at the front
      of ipiv; its status code is not looked at, so no error is ever raised. */
    constructor (m: array<int>, rows: nat, cols: nat, ord: Ordering, apply: bool, factored: seq<int>, pivots: seq<int>)
      requires m.Length == rows * cols && |factored| == rows * cols
      requires |pivots| == (if rows <= cols then rows else cols)
      ensures Valid() && this.rows == rows && this.cols == cols && this.ord == ord
      ensures fresh(a) && fresh(ipiv)
      ensures rows == 0 ==> a[..] == m[..] && ipiv[..] == []
      ensures rows > 0 ==> a[..] == factored && ipiv[..] == pivots + seq(rows - |pivots|, _ => 0)
    {
      this.rows := rows;
      this.cols := cols;
      this.ord := ord;
      var copy := new int[m.Length](p requires 0 <= p < m.Length reads m => m[p]);
      a := copy;
      ipiv := new int[rows](_ => 0);
      new;
      if rows == 0 {
        return;
      }
      forall p | 0 <= p < copy.Length {
        copy[p] := factored[p];
      }
      forall j | 0 <= j < |pivots| {
        ipiv[j] := pivots[j];
      }
    }

    /** `LFactor`: a new matrix of the same shape holding the unit lower
      triangular factor. */
    method LFactor() returns (L: array<int>)
      requires Valid()
      ensures fresh(L)
      ensures L.Length == rows * cols && Fits(Shape(), rows, cols, L.Length)
      ensures forall i, j :: 0 <= i < rows && 0 <= j < cols ==>
        Read(L[..], Addr(Shape(), i, j)) == Lower(Mat(a[..], Shape()), i, j)
    {
      var V := Shape();
      ghost var P := Mat(a[..], V);
      L := new int[rows * cols];
      DenseFits(rows, cols, ord);
      for i := 0 to rows
        invariant forall i2, j2 :: 0 <= i2 < i && 0 <= j2 < cols ==> Read(L[..], Addr(V, i2, j2)) == Lower(P, i2, j2)
      {
        for j := 0 to cols
          invariant forall i2, j2 :: 0 <= i2 < i && 0 <= j2 < cols ==> Read(L[..], Addr(V, i2, j2)) == Lower(P, i2, j2)
          invariant forall j2 :: 0 <= j2 < j ==> Read(L[..], Addr(V, i, j2)) == Lower(P, i, j2)
        {
          DenseCell(rows, cols, ord, i, j);
          if i > j {
            L[Addr(V, i, j)] := a[Addr(V, i, j)];
          } else if i == j {
            L[Addr(V, i, j)] := 1;
          } else {
            L[Addr(V, i, j)] := 0;
          }
        }
      }
    }

    /** `UFactor`: a new matrix of the same shape holding the upper
      triangular factor. */
    method UFactor() returns (U: array<int>)
      requires Valid()
      ensures fresh(U)
      ensures U.Length == rows * cols && Fits(Shape(), rows, cols, U.Length)
      ensures forall i, j :: 0 <= i < rows && 0 <= j < cols ==>
        Read(U[..], Addr(Shape(), i, j)) == Upper(Mat(a[..], Shape()), i, j)
    {
      var V := Shape();
      ghost var P := Mat(a[..], V);
      U := new int[rows * cols];
      DenseFits(rows, cols, ord);
      for i := 0 to rows
        invariant forall i2, j2 :: 0 <= i2 < i && 0 <= j2 < cols ==> Read(U[..], Addr(V, i2, j2)) == Upper(P, i2, j2)
      {
        for j := 0 to cols
          invariant forall i2, j2 :: 0 <= i2 < i && 0 <= j2 < cols ==> Read(U[..], Addr(V, i2, j2)) == Upper(P, i2, j2)
          invariant forall j2 :: 0 <= j2 < j ==> Read(U[..], Addr(V, i, j2)) == Upper(P, i, j2)
        {
          DenseCell(rows, cols, ord, i, j);
          if i <= j {
            U[Addr(V, i, j)] := a[Addr(V, i, j)];
          } else {
            U[Addr(V, i, j)] := 0;
          }
        }
      }
    }

    /** `PFactor` as written: entry (i, j) is 1 exactly when i equals the
      stored pivot of column j. It reads ipiv[j] for every column, so the
      matrix may not be wider than tall. */
    method PFactor() returns (P: array<int>)
      requires Valid() && cols <= rows
      ensures fresh(P)
      ensures P.Length == rows * cols && Fits(Shape(), rows, cols, P.Length)
      ensures forall i, j :: 0 <= i < rows && 0 <= j < cols ==>
        Read(P[..], Addr(Shape(), i, j)) == PivotEntry(ipiv[..], i, j)
    {
      var V := Shape();
      ghost var piv := ipiv[..];
      P := new int[rows * cols];
      DenseFits(rows, cols, ord);
      for i := 0 to rows
        invariant forall i2, j2 :: 0 <= i2 < i && 0 <= j2 < cols ==> Read(P[..], Addr(V, i2, j2)) == PivotEntry(piv, i2, j2)
      {
        for j := 0 to cols
          invariant forall i2, j2 :: 0 <= i2 < i && 0 <= j2 < cols ==> Read(P[..], Addr(V, i2, j2)) == PivotEntry(piv, i2, j2)
          invariant forall j2 :: 0 <= j2 < j ==> Read(P[..], Addr(V, i, j2)) == PivotEntry(piv, i, j2)
        {
          DenseCell(rows, cols, ord, i, j);
          if i == ipiv[j] {
            P[Addr(V, i, j)] := 1;
          } else {
            P[Addr(V, i, j)] := 0;
          }
        }
      }
    }

    /** The permutation matrix of LAPACK's 1-based interchanges, for a
      square matrix: the interchanges are applied to the identity order in
      turn, and entry (i, j) is 1 exactly when row i of the factorised
      matrix is row j of L·U (for a column-major A, row i of A itself). */
    method PFactorCorrected() returns (P: array<int>)
      requires Valid() && rows == cols && ValidPivots(ipiv[..], rows)
      ensures fresh(P)
      ensures P.Length == rows * cols && Fits(Shape(), rows, cols, P.Length)
      ensures forall i, j :: 0 <= i < rows && 0 <= j < cols ==>
        Read(P[..], Addr(Shape(), i, j)) == PivotEntry(Interchanged(ipiv[..], rows, rows), i, j)
    {
      var V := Shape();
      ghost var piv := ipiv[..];
      var perm := InterchangeOrder(ipiv, rows);
      var order := perm[..];
      P := new int[rows * cols];
      DenseFits(rows, cols, ord);
      for i := 0 to rows
        invariant forall i2, j2 :: 0 <= i2 < i && 0 <= j2 < cols ==> Read(P[..], Addr(V, i2, j2)) == PivotEntry(order, i2, j2)
      {
        for j := 0 to cols
          invariant forall i2, j2 :: 0 <= i2 < i && 0 <= j2 < cols ==> Read(P[..], Addr(V, i2, j2)) == PivotEntry(order, i2, j2)
          invariant forall j2 :: 0 <= j2 < j ==> Read(P[..], Addr(V, i, j2)) == PivotEntry(order, i, j2)
        {
          DenseCell(rows, cols, ord, i, j);
          if i == order[j] {
            P[Addr(V, i, j)] := 1;
          } else {
            P[Addr(V, i, j)] := 0;
          }
        }
      }
    }
  }
}
