/** The header-only variant of the blocked product. Its kernel, tiling
    drivers and cache-blocked driver repeat those of FastMult line for line;
    its masked kernel differs: the three rows of B are loaded without masks,
    so it reads twelve columns of B whatever B's width. */
module FastMultHpp {
  import opened MatrixViews
  import opened Products
  import opened FastMult

  /** `smallblock` of the header-only variant: masked stores into C, unmasked
      loads of B. It adds A·B to the block of C that is A's height tall and as
      wide as B (at most 12 columns), but needs all twelve columns of every row
      of B to lie inside B's buffer. */
  method SmallBlockUnmasked(c: array<int>, C: View, a: array<int>, A: View, b: array<int>, B: View)
    requires c != a && c != b
    requires C.ord == RowMajor && B.ord == RowMajor && A.cols == B.rows
    requires Min(B.cols, W) <= C.dist
    requires Fits(C, A.rows, Min(B.cols, W), c.Length)
    requires Fits(A, A.rows, A.cols, a.Length) && Fits(B, B.rows, W, b.Length)
    modifies c
    ensures AddsProduct(old(c[..]), c[..], C, A.rows, Min(B.cols, W), Mat(a[..], A), Mat(b[..], B), B.rows)
  {
    ghost var c0 := c[..];
    var i := 0;
    while i < B.rows
      invariant i <= B.rows
      invariant forall r, col :: 0 <= r < A.rows && 0 <= col < Min(B.cols, W) ==>
        c[Addr(C, r, col)] == c0[Addr(C, r, col)] + Dot(Mat(a[..], A), Mat(b[..], B), r, col, 0, i)
      invariant forall p :: 0 <= p < c.Length && !InRegion(C, A.rows, Min(B.cols, W), p) ==> c[p] == c0[p]
    {
      var bv := LoadRowFull(b, B, i);
      KernelRow(c, C, a, A, bv, A.rows, Min(B.cols, W), i);
      i := i + 1;
    }
  }

  /** The operand `B.Cols(n - n % 12, n % 12)` of the right-hand strip, for a
      dense row-major K x n matrix B that fills its buffer of K * n cells. */
  function RightStripOperand(K: nat, n: nat): View {
    Cols(Dense(K, n, RowMajor), n - n % W, n % W)
  }

  /** Whenever the right-hand strip is non-empty, the unmasked loads of its
      last row run past the end of B's buffer: element (K - 1, 11) of the
      strip operand lies at or beyond cell K * n. The masked loads only need
      the strip's own n % 12 columns, and those lie inside the buffer. */
  lemma UnmaskedStripOverrun(K: nat, n: nat)
    requires K > 0 && n % W != 0
    ensures !Fits(RightStripOperand(K, n), K, W, K * n)
    ensures Fits(RightStripOperand(K, n), K, Min(n % W, W), K * n)
  {
    var S := RightStripOperand(K, n);
    ColsAddr(Dense(K, n, RowMajor), n - n % W, n % W, K - 1, W - 1);
    assert (K - 1) * n + n == K * n;
    assert Addr(S, K - 1, W - 1) >= K * n;
    forall i, j | 0 <= i < K && 0 <= j < Min(n % W, W)
      ensures Addr(S, i, j) < K * n
    {
      ColsAddr(Dense(K, n, RowMajor), n - n % W, n % W, i, j);
      DenseRowMajor(K, n, i, n - n % W + j);
    }
  }

  /** For B a dense 1 x 13 matrix (so n = 13 and the right strip is the single
      column 12), the unmasked loads read cells 12 .. 23 of a 13-cell buffer. */
  lemma UnmaskedStripExample()
    ensures RightStripOperand(1, 13) == View(12, 1, 1, 13, RowMajor)
    ensures !Fits(RightStripOperand(1, 13), 1, W, 13)
    ensures Addr(RightStripOperand(1, 13), 0, 11) == 23
  {
    UnmaskedStripOverrun(1, 13);
  }
}
