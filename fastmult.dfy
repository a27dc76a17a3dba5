/** The blocked matrix product C += A·B: a 4 x 12 register kernel, a masked
    clean-up kernel for smaller blocks, the tiling driver, the cache-blocked
    driver that stages blocks of A in a scratch buffer, and the block
    decomposition the parallel driver hands to its workers.

    Every routine works in place on the buffer `c` behind the row-major view C
    and reads the buffers behind A and B; C must not share its buffer with A or B.
    Each one is proved to add the product to its block of C and to leave every
    other cell of `c` alone (`AddsProduct`). */
module FastMult {
  import opened MatrixViews
  import opened Products

  /** Height and width of the register kernel's tile. */
  const H: nat := 4
  const W: nat := 12

  /** Height and width of the block of A staged in scratch memory. */
  const BH: nat := 96
  const BW: nat := 96

  function Min(x: nat, y: nat): nat {
    if x <= y then x else y
  }

  /** The lane mask `width > IndexSequence<first>()`: lane l is live iff column
      first + l lies inside a matrix of the given width. */
  function Mask(width: nat, first: nat): (m: seq<bool>)
    ensures |m| == 4
    ensures forall l :: 0 <= l < 4 ==> (m[l] <==> first + l < width)
  {
    [first < width, first + 1 < width, first + 2 < width, first + 3 < width]
  }

  /** A 4-lane load of row i of B starting at column `first`; a lane the mask
      switches off reads 0 and touches no memory. */
  method Load(b: array<int>, B: View, i: nat, first: nat, mask: seq<bool>) returns (v: seq<int>)
    requires |mask| == 4
    requires forall col :: first <= col < first + 4 && mask[col - first] ==> Addr(B, i, col) < b.Length
    ensures |v| == 4
    ensures forall col :: first <= col < first + 4 ==>
      v[col - first] == if mask[col - first] then b[Addr(B, i, col)] else 0
  {
    var v0 := if mask[0] then b[Addr(B, i, first)] else 0;
    var v1 := if mask[1] then b[Addr(B, i, first + 1)] else 0;
    var v2 := if mask[2] then b[Addr(B, i, first + 2)] else 0;
    var v3 := if mask[3] then b[Addr(B, i, first + 3)] else 0;
    v := [v0, v1, v2, v3];
  }

  /** `FMA(SIMD(s), bv, C(k, col0..col0+3)).Store(&C(k, col0), mask)` with the mask
      `w > IndexSequence<col0>()`: each live lane (column below w) of row k gets
      s * bv added, every other cell keeps its value. */
  method FmaStore(c: array<int>, C: View, k: nat, col0: nat, s: int, bv: seq<int>, w: nat, mask: seq<bool>)
    requires |bv| == 4 && mask == Mask(w, col0)
    requires C.ord == RowMajor
    requires forall col :: col0 <= col < col0 + 4 && col < w ==> Addr(C, k, col) < c.Length
    modifies c
    ensures forall col :: col0 <= col < col0 + 4 && col < w ==>
      c[Addr(C, k, col)] == old(c[Addr(C, k, col)]) + s * bv[col - col0]
    ensures forall p :: 0 <= p < c.Length ==>
      (Line(C, k) + col0 <= p < Line(C, k) + col0 + 4 && p < Line(C, k) + w) || c[p] == old(c[p])
  {
    if mask[0] { c[Addr(C, k, col0)] := s * bv[0] + c[Addr(C, k, col0)]; }
    if mask[1] { c[Addr(C, k, col0 + 1)] := s * bv[1] + c[Addr(C, k, col0 + 1)]; }
    if mask[2] { c[Addr(C, k, col0 + 2)] := s * bv[2] + c[Addr(C, k, col0 + 2)]; }
    if mask[3] { c[Addr(C, k, col0 + 3)] := s * bv[3] + c[Addr(C, k, col0 + 3)]; }
  }

  /** The three stores of one kernel step on row k of C: the live part of the
      row gets s times the loaded row of B added; nothing else changes. */
  method RowFma(c: array<int>, C: View, k: nat, s: int, bv: seq<int>, w: nat)
    requires |bv| == W && w <= W
    requires C.ord == RowMajor
    requires forall col :: 0 <= col < w ==> Addr(C, k, col) < c.Length
    modifies c
    ensures forall col :: 0 <= col < w ==> c[Addr(C, k, col)] == old(c[Addr(C, k, col)]) + s * bv[col]
    ensures forall p :: 0 <= p < c.Length && !(Line(C, k) <= p < Line(C, k) + w) ==> c[p] == old(c[p])
  {
    FmaStore(c, C, k, 0, s, bv[0..4], w, Mask(w, 0));
    FmaStore(c, C, k, 4, s, bv[4..8], w, Mask(w, 4));
    FmaStore(c, C, k, 8, s, bv[8..12], w, Mask(w, 8));
  }

  /** Row i of B as three masked 4-lane loads: the live columns below w hold
      B(i, col). */
  method LoadRow(b: array<int>, B: View, i: nat, w: nat) returns (bv: seq<int>)
    requires w <= W
    requires forall col :: 0 <= col < w ==> Addr(B, i, col) < b.Length
    ensures |bv| == W
    ensures forall col :: 0 <= col < w ==> bv[col] == El(Mat(b[..], B), i, col)
  {
    var b0 := Load(b, B, i, 0, Mask(w, 0));
    var b1 := Load(b, B, i, 4, Mask(w, 4));
    var b2 := Load(b, B, i, 8, Mask(w, 8));
    bv := b0 + b1 + b2;
  }

  /** Row i of B as three unmasked 4-lane loads `SIMD<double,4>(&B(i, 0))`,
      `(&B(i, 4))`, `(&B(i, 8))`: all twelve cells must lie in the buffer, and
      the loaded lanes hold B(i, 0..11). */
  method LoadRowFull(b: array<int>, B: View, i: nat) returns (bv: seq<int>)
    requires forall col :: 0 <= col < W ==> Addr(B, i, col) < b.Length
    ensures |bv| == W
    ensures forall col :: 0 <= col < W ==> bv[col] == El(Mat(b[..], B), i, col)
  {
    var b0 := Load(b, B, i, 0, [true, true, true, true]);
    var b1 := Load(b, B, i, 4, [true, true, true, true]);
    var b2 := Load(b, B, i, 8, [true, true, true, true]);
    bv := b0 + b1 + b2;
  }

  /** The inner loop over the rows k of C for one row i of B, held in bv:
      every live element of rows [0, h) of C gets A(k, i) * B(i, col) added;
      nothing else changes. */
  method KernelRow(c: array<int>, C: View, a: array<int>, A: View, bv: seq<int>, h: nat, w: nat, i: nat)
    requires c != a
    requires C.ord == RowMajor
    requires |bv| == W && w <= W && w <= C.dist
    requires Fits(C, h, w, c.Length) && Fits(A, h, i + 1, a.Length)
    modifies c
    ensures forall r, col :: 0 <= r < h && 0 <= col < w ==>
      c[Addr(C, r, col)] == old(c[Addr(C, r, col)]) + El(Mat(a[..], A), r, i) * bv[col]
    ensures forall p :: 0 <= p < c.Length && !InRegion(C, h, w, p) ==> c[p] == old(c[p])
  {
    ghost var c0 := c[..];
    LineMonotone(C);
    var k := 0;
    while k < h
      invariant 0 <= k <= h
      invariant forall r, col :: 0 <= r < h && 0 <= col < w ==>
        c[Addr(C, r, col)] == c0[Addr(C, r, col)] + (if r < k then El(Mat(a[..], A), r, i) * bv[col] else 0)
      invariant forall p :: 0 <= p < c.Length && !InRegion(C, h, w, p) ==> c[p] == c0[p]
    {
      var s := a[Addr(A, k, i)];
      RowFma(c, C, k, s, bv, w);
      forall p | 0 <= p < c.Length && Line(C, k) <= p < Line(C, k) + w
        ensures InRegion(C, h, w, p)
      {
        assert p == Addr(C, k, p - Line(C, k));
      }
      k := k + 1;
    }
  }

  /** `multkernel`: C += A·B for a 4 x 12 block of C, A of height 4 and
      B of width 12, A's width being B's height. */
  method MultKernel(c: array<int>, C: View, a: array<int>, A: View, b: array<int>, B: View)
    requires c != a && c != b
    requires C.ord == RowMajor && B.ord == RowMajor && WellFormed(C)
    requires C.rows == H && C.cols == W && A.rows == H && B.cols == W && A.cols == B.rows
    requires Fits(C, H, W, c.Length) && Fits(A, H, A.cols, a.Length) && Fits(B, B.rows, W, b.Length)
    modifies c
    ensures AddsProduct(old(c[..]), c[..], C, H, W, Mat(a[..], A), Mat(b[..], B), B.rows)
  {
    ghost var c0 := c[..];
    var i := 0;
    while i < B.rows
      invariant i <= B.rows
      invariant forall r, col :: 0 <= r < H && 0 <= col < W ==>
        c[Addr(C, r, col)] == c0[Addr(C, r, col)] + Dot(Mat(a[..], A), Mat(b[..], B), r, col, 0, i)
      invariant forall p :: 0 <= p < c.Length && !InRegion(C, H, W, p) ==> c[p] == c0[p]
    {
      var bv := LoadRowFull(b, B, i);
      KernelRow(c, C, a, A, bv, H, W, i);
      i := i + 1;
    }
  }

  /** `smallblock`: the kernel with masked loads and stores. It adds A·B to the
      block of C that is A's height tall and as wide as B (at most 12 columns);
      columns of the view C beyond B's width are neither read nor written, and
      neither are columns of B beyond its width. */
  method SmallBlock(c: array<int>, C: View, a: array<int>, A: View, b: array<int>, B: View)
    requires c != a && c != b
    requires C.ord == RowMajor && B.ord == RowMajor && A.cols == B.rows
    requires Min(B.cols, W) <= C.dist
    requires Fits(C, A.rows, Min(B.cols, W), c.Length)
    requires Fits(A, A.rows, A.cols, a.Length) && Fits(B, B.rows, Min(B.cols, W), b.Length)
    modifies c
    ensures AddsProduct(old(c[..]), c[..], C, A.rows, Min(B.cols, W), Mat(a[..], A), Mat(b[..], B), B.rows)
  {
    ghost var c0 := c[..];
    var i := 0;
    while i < B.rows
      invariant i <= B.rows
      invariant forall r, col :: 0 <= r < A.rows && 0 <= col < Min(B.cols, W) ==>
        c[Addr(C, r, col)] == c0[Addr(C, r, col)] + Dot(Mat(a[..], A), Mat(b[..], B), r, col, 0, i)
      invariant forall p :: 0 <= p < c.Length && !InRegion(C, A.rows, Min(B.cols, W), p) ==> c[p] == c0[p]
    {
      var bv := LoadRow(b, B, i, Min(B.cols, W));
      KernelRow(c, C, a, A, bv, A.rows, Min(B.cols, W), i);
      i := i + 1;
    }
  }

  /** Cells of an m x n product that `multmatmat` fills: the full 4 x 12 tiles,
      the right-hand strip beside them, the bottom strip below them, and the
      bottom-right corner only when its guard `m % 4 != 0 && n % 4 != 0` holds. */
  predicate MultMatMatCovers(m: nat, n: nat, r: nat, col: nat) {
    r < m - m % H || col < n - n % W || (m % 4 != 0 && n % 4 != 0)
  }

  /** One call of the kernel (`kernel`) or of the masked kernel on the block of C
      at (ti, tj): `C.Rows(ti, h).Cols(tj, cw)`, `A.Rows(ti, h)`, `B.Cols(tj, bw)`.
      The h x bw elements of that block get their entry of A·B added, nothing
      else in `c` changes. P and Q name the operands A and B. */
  method Tile(c: array<int>, C: View, a: array<int>, A: View, b: array<int>, B: View,
              ti: nat, tj: nat, h: nat, cw: nat, bw: nat, kernel: bool, ghost P: Mat, ghost Q: Mat)
    requires c != a && c != b
    requires C.ord == RowMajor && B.ord == RowMajor && WellFormed(C)
    requires A.rows == C.rows && B.cols == C.cols && A.cols == B.rows
    requires Fits(C, C.rows, C.cols, c.Length) && Fits(A, A.rows, A.cols, a.Length) && Fits(B, B.rows, B.cols, b.Length)
    requires P == Mat(a[..], A) && Q == Mat(b[..], B)
    requires ti + h <= C.rows && tj + bw <= C.cols && bw <= W
    requires kernel ==> h == H && cw == W && bw == W
    modifies c
    ensures c[..] == Add(old(c[..]), C, P, Q, 0, B.rows, Rect(ti, ti + h, tj, tj + bw))
  {
    ghost var cb := c[..];
    TileFits(C, ti, tj, h, cw, h, bw, C.rows, C.cols, c.Length);
    RowsFits(A, ti, h, h, A.cols, A.rows, A.cols, a.Length);
    ColsFits(B, tj, bw, B.rows, bw, B.rows, B.cols, b.Length);
    if kernel {
      MultKernel(c, Cols(Rows(C, ti, h), tj, cw), a, Rows(A, ti, h), b, Cols(B, tj, bw));
    } else {
      SmallBlock(c, Cols(Rows(C, ti, h), tj, cw), a, Rows(A, ti, h), b, Cols(B, tj, bw));
    }
    TileOperands(P, Q, ti, tj, h, bw, B.rows);
    SubBlockStep(cb, c[..], C, Cols(Rows(C, ti, h), tj, cw), ti, tj, h, bw,
                 Mat(a[..], Rows(A, ti, h)), Mat(b[..], Cols(B, tj, bw)), P, Q, 0, B.rows);
    AddedIsAdd(cb, c[..], C, P, Q, 0, B.rows, Rect(ti, ti + h, tj, tj + bw));
  }

  /** The first loop nest of `multmatmat`: the kernel on the fh x fw full tiles,
      row of tiles by row of tiles. */
  method FullTiles(c: array<int>, C: View, a: array<int>, A: View, b: array<int>, B: View,
                   fh: nat, fw: nat, ghost P: Mat, ghost Q: Mat)
    requires c != a && c != b
    requires C.ord == RowMajor && B.ord == RowMajor && WellFormed(C)
    requires A.rows == C.rows && B.cols == C.cols && A.cols == B.rows
    requires Fits(C, C.rows, C.cols, c.Length) && Fits(A, A.rows, A.cols, a.Length) && Fits(B, B.rows, B.cols, b.Length)
    requires P == Mat(a[..], A) && Q == Mat(b[..], B)
    requires 4 * fh <= C.rows && 12 * fw <= C.cols
    modifies c
    ensures c[..] == Add(old(c[..]), C, P, Q, 0, B.rows, Rect(0, 4 * fh, 0, 12 * fw))
  {
    ghost var c0 := c[..];
    ghost var K := B.rows;
    AddNothing(c0, C, P, Q, 0, K, Rect(0, 0, 0, 12 * fw));
    var i := 0;
    while i < fh
      invariant i <= fh
      invariant c[..] == Add(c0, C, P, Q, 0, K, Rect(0, 4 * i, 0, 12 * fw))
    {
      ghost var ci := c[..];
      AddNothing(ci, C, P, Q, 0, K, Rect(4 * i, 4 * i + 4, 0, 0));
      var j := 0;
      while j < fw
        invariant j <= fw
        invariant c[..] == Add(ci, C, P, Q, 0, K, Rect(4 * i, 4 * i + 4, 0, 12 * j))
      {
        Tile(c, C, a, A, b, B, i * 4, j * 12, 4, 12, 12, true, P, Q);
        AddAdjoin(ci, C, P, Q, 0, K, Rect(4 * i, 4 * i + 4, 0, 12 * j),
                  Rect(i * 4, i * 4 + 4, j * 12, j * 12 + 12), Rect(4 * i, 4 * i + 4, 0, 12 * (j + 1)));
        j := j + 1;
      }
      AddAdjoin(c0, C, P, Q, 0, K, Rect(0, 4 * i, 0, 12 * fw), Rect(4 * i, 4 * i + 4, 0, 12 * fw),
                Rect(0, 4 * (i + 1), 0, 12 * fw));
      i := i + 1;
    }
  }

  /** The right-hand strip of `multmatmat`: the masked kernel on the fh blocks
      of 4 rows and the nr columns right of the full tiles. */
  method RightStrip(c: array<int>, C: View, a: array<int>, A: View, b: array<int>, B: View,
                    fh: nat, fw: nat, nr: nat, ghost P: Mat, ghost Q: Mat)
    requires c != a && c != b
    requires C.ord == RowMajor && B.ord == RowMajor && WellFormed(C)
    requires A.rows == C.rows && B.cols == C.cols && A.cols == B.rows
    requires Fits(C, C.rows, C.cols, c.Length) && Fits(A, A.rows, A.cols, a.Length) && Fits(B, B.rows, B.cols, b.Length)
    requires P == Mat(a[..], A) && Q == Mat(b[..], B)
    requires 4 * fh <= C.rows && 12 * fw + nr == C.cols && nr < 12
    modifies c
    ensures c[..] == Add(old(c[..]), C, P, Q, 0, B.rows, Rect(0, 4 * fh, 12 * fw, C.cols))
  {
    ghost var c0 := c[..];
    ghost var K := B.rows;
    AddNothing(c0, C, P, Q, 0, K, Rect(0, 0, 12 * fw, C.cols));
    var i := 0;
    while i < fh
      invariant i <= fh
      invariant c[..] == Add(c0, C, P, Q, 0, K, Rect(0, 4 * i, 12 * fw, C.cols))
    {
      Tile(c, C, a, A, b, B, i * 4, fw * 12, 4, nr, nr, false, P, Q);
      AddAdjoin(c0, C, P, Q, 0, K, Rect(0, 4 * i, 12 * fw, C.cols),
                Rect(i * 4, i * 4 + 4, fw * 12, fw * 12 + nr), Rect(0, 4 * (i + 1), 12 * fw, C.cols));
      i := i + 1;
    }
  }

  /** The bottom strip of `multmatmat`: the masked kernel on the mr rows below
      the full tiles, one block of 12 columns at a time. */
  method BottomStrip(c: array<int>, C: View, a: array<int>, A: View, b: array<int>, B: View,
                     fh: nat, fw: nat, mr: nat, ghost P: Mat, ghost Q: Mat)
    requires c != a && c != b
    requires C.ord == RowMajor && B.ord == RowMajor && WellFormed(C)
    requires A.rows == C.rows && B.cols == C.cols && A.cols == B.rows
    requires Fits(C, C.rows, C.cols, c.Length) && Fits(A, A.rows, A.cols, a.Length) && Fits(B, B.rows, B.cols, b.Length)
    requires P == Mat(a[..], A) && Q == Mat(b[..], B)
    requires 4 * fh + mr == C.rows && 12 * fw <= C.cols
    modifies c
    ensures c[..] == Add(old(c[..]), C, P, Q, 0, B.rows, Rect(4 * fh, C.rows, 0, 12 * fw))
  {
    ghost var c0 := c[..];
    ghost var K := B.rows;
    AddNothing(c0, C, P, Q, 0, K, Rect(4 * fh, C.rows, 0, 0));
    var j := 0;
    while j < fw
      invariant j <= fw
      invariant c[..] == Add(c0, C, P, Q, 0, K, Rect(4 * fh, C.rows, 0, 12 * j))
    {
      Tile(c, C, a, A, b, B, fh * 4, j * 12, mr, 12, 12, false, P, Q);
      AddAdjoin(c0, C, P, Q, 0, K, Rect(4 * fh, C.rows, 0, 12 * j),
                Rect(fh * 4, fh * 4 + mr, j * 12, j * 12 + 12), Rect(4 * fh, C.rows, 0, 12 * (j + 1)));
      j := j + 1;
    }
  }

  /** `multmatmat` as written: tiles C with the kernel, then the right strip,
      the bottom strip and the guarded corner with the masked kernel. Every
      covered element of C gets (A·B)(r, col) added, every other cell of `c`
      keeps its value. */
  method MultMatMat(c: array<int>, C: View, a: array<int>, A: View, b: array<int>, B: View)
    requires c != a && c != b
    requires C.ord == RowMajor && B.ord == RowMajor && WellFormed(C)
    requires A.rows == C.rows && B.cols == C.cols && A.cols == B.rows
    requires Fits(C, C.rows, C.cols, c.Length) && Fits(A, A.rows, A.cols, a.Length) && Fits(B, B.rows, B.cols, b.Length)
    modifies c
    ensures forall r, col :: 0 <= r < C.rows && 0 <= col < C.cols ==>
      c[Addr(C, r, col)] == old(c[Addr(C, r, col)])
        + (if MultMatMatCovers(C.rows, C.cols, r, col) then Dot(Mat(a[..], A), Mat(b[..], B), r, col, 0, B.rows) else 0)
    ensures forall p :: 0 <= p < c.Length && !InRegion(C, C.rows, C.cols, p) ==> c[p] == old(c[p])
  {
    ghost var c0 := c[..];
    ghost var P := Mat(a[..], A);
    ghost var Q := Mat(b[..], B);
    ghost var K := B.rows;
    var m := C.rows;
    var n := C.cols;
    var fh := (m - m % 4) / 4;
    var fw := (n - n % 12) / 12;
    var mr := m % 4;
    var nr := n % 12;
    assert 4 * fh + mr == m && 12 * fw + nr == n && mr < 4 && nr < 12;

    FullTiles(c, C, a, A, b, B, fh, fw, P, Q);
    RightStrip(c, C, a, A, b, B, fh, fw, nr, P, Q);
    AddAdjoin(c0, C, P, Q, 0, K, Rect(0, 4 * fh, 0, 12 * fw), Rect(0, 4 * fh, 12 * fw, n), Rect(0, 4 * fh, 0, n));
    ghost var top := c[..];
    BottomStrip(c, C, a, A, b, B, fh, fw, mr, P, Q);

    ghost var bottom := Rect(4 * fh, m, 0, 12 * fw);
    // bottom-right corner
    if m % 4 != 0 && n % 4 != 0 {
      Tile(c, C, a, A, b, B, fh * 4, fw * 12, mr, 12, nr, false, P, Q);
      AddAdjoin(top, C, P, Q, 0, K, bottom, Rect(fh * 4, fh * 4 + mr, fw * 12, fw * 12 + nr), Rect(4 * fh, m, 0, n));
      bottom := Rect(4 * fh, m, 0, n);
    }
    CoveredCells(c0, top, c[..], C, P, Q, K, fh, fw, bottom);
  }

  /** The tiles, strips and guarded corner of `multmatmat` together add the
      product to exactly the cells MultMatMatCovers names. */
  lemma CoveredCells(c0: seq<int>, top: seq<int>, c1: seq<int>, C: View, P: Mat, Q: Mat, K: nat, fh: nat, fw: nat, bottom: Rect)
    requires WellFormed(C) && Fits(C, C.rows, C.cols, |c0|)
    requires 4 * fh == C.rows - C.rows % 4 && 12 * fw == C.cols - C.cols % 12
    requires top == Add(c0, C, P, Q, 0, K, Rect(0, 4 * fh, 0, C.cols))
    requires bottom == Rect(4 * fh, C.rows, 0, if C.rows % 4 != 0 && C.cols % 4 != 0 then C.cols else 12 * fw)
    requires c1 == Add(top, C, P, Q, 0, K, bottom)
    ensures forall r, col :: 0 <= r < C.rows && 0 <= col < C.cols ==>
      c1[Addr(C, r, col)] == c0[Addr(C, r, col)] + (if MultMatMatCovers(C.rows, C.cols, r, col) then Dot(P, Q, r, col, 0, K) else 0)
    ensures forall p :: 0 <= p < |c0| && !InRegion(C, C.rows, C.cols, p) ==> c1[p] == c0[p]
  {
    AddCells(c0, C, P, Q, 0, K, Rect(0, 4 * fh, 0, C.cols));
    AddCells(top, C, P, Q, 0, K, bottom);
  }

  /** The corner guard of `multmatmat` tests n % 4 where the strips it completes
      are cut at multiples of 12: the whole product is covered exactly when
      m is a multiple of 4, or n a multiple of 12, or n not a multiple of 4.
      For m = 5 and n = 16, element (4, 12) is left without its product. */
  lemma MultMatMatCoverage(m: nat, n: nat)
    ensures (forall r, col :: 0 <= r < m && 0 <= col < n ==> MultMatMatCovers(m, n, r, col))
        <==> (m % 4 == 0 || n % 12 == 0 || n % 4 != 0)
    ensures m == 5 && n == 16 ==> !MultMatMatCovers(m, n, 4, 12)
  {
    if !(m % 4 == 0 || n % 12 == 0 || n % 4 != 0) {
      assert !MultMatMatCovers(m, n, m - m % H, n - n % W);
    }
  }

  /** `multmatmat` with the corner guard testing n % 12, the width its strips
      are cut at: the tiles, the two strips and the corner then cover C, so
      every element of C gets its entry of A·B added and no other cell of `c`
      changes. */
  method MultMatMatCorrected(c: array<int>, C: View, a: array<int>, A: View, b: array<int>, B: View)
    requires c != a && c != b
    requires C.ord == RowMajor && B.ord == RowMajor && WellFormed(C)
    requires A.rows == C.rows && B.cols == C.cols && A.cols == B.rows
    requires Fits(C, C.rows, C.cols, c.Length) && Fits(A, A.rows, A.cols, a.Length) && Fits(B, B.rows, B.cols, b.Length)
    modifies c
    ensures AddsProduct(old(c[..]), c[..], C, C.rows, C.cols, Mat(a[..], A), Mat(b[..], B), B.rows)
  {
    ghost var c0 := c[..];
    ghost var P := Mat(a[..], A);
    ghost var Q := Mat(b[..], B);
    ghost var K := B.rows;
    var m := C.rows;
    var n := C.cols;
    var fh := (m - m % 4) / 4;
    var fw := (n - n % 12) / 12;
    var mr := m % 4;
    var nr := n % 12;
    assert 4 * fh + mr == m && 12 * fw + nr == n && mr < 4 && nr < 12;

    FullTiles(c, C, a, A, b, B, fh, fw, P, Q);
    RightStrip(c, C, a, A, b, B, fh, fw, nr, P, Q);
    AddAdjoin(c0, C, P, Q, 0, K, Rect(0, 4 * fh, 0, 12 * fw), Rect(0, 4 * fh, 12 * fw, n), Rect(0, 4 * fh, 0, n));
    ghost var top := c[..];
    BottomStrip(c, C, a, A, b, B, fh, fw, mr, P, Q);

    // bottom-right corner
    if m % 4 != 0 && n % 12 != 0 {
      Tile(c, C, a, A, b, B, fh * 4, fw * 12, mr, 12, nr, false, P, Q);
      AddAdjoin(top, C, P, Q, 0, K, Rect(4 * fh, m, 0, 12 * fw), Rect(fh * 4, fh * 4 + mr, fw * 12, fw * 12 + nr), Rect(4 * fh, m, 0, n));
    } else if mr == 0 {
      AddNothing(top, C, P, Q, 0, K, Rect(4 * fh, m, 0, 12 * fw));
      AddNothing(top, C, P, Q, 0, K, Rect(4 * fh, m, 0, n));
    }
    AddAdjoin(c0, C, P, Q, 0, K, Rect(0, 4 * fh, 0, n), Rect(4 * fh, m, 0, n), Rect(0, m, 0, n));
    AddWhole(c0, c[..], C, P, Q, K);
  }

  /** The first loop nest of `blockmultcachy`: the kernel on every full tile,
      column of tiles by column of tiles. */
  method FullTilesByColumn(c: array<int>, C: View, a: array<int>, A: View, b: array<int>, B: View, ghost P: Mat, ghost Q: Mat)
    requires c != a && c != b
    requires C.ord == RowMajor && B.ord == RowMajor && WellFormed(C)
    requires A.rows == C.rows && B.cols == C.cols && A.cols == B.rows
    requires Fits(C, C.rows, C.cols, c.Length) && Fits(A, A.rows, A.cols, a.Length) && Fits(B, B.rows, B.cols, b.Length)
    requires P == Mat(a[..], A) && Q == Mat(b[..], B)
    modifies c
    ensures c[..] == Add(old(c[..]), C, P, Q, 0, B.rows, Rect(0, C.rows - C.rows % H, 0, C.cols - C.cols % W))
  {
    ghost var c0 := c[..];
    ghost var K := B.rows;
    var m := C.rows;
    var n := C.cols;
    ghost var mf := m - m % H;
    ghost var tilesDown := m / 4;
    ghost var tilesAcross := n / 12;
    assert mf == 4 * tilesDown && m < mf + 4 && n < 12 * tilesAcross + 12 && n - n % W == 12 * tilesAcross;
    AddNothing(c0, C, P, Q, 0, K, Rect(0, mf, 0, 0));
    var j := 0;
    ghost var tj := 0;
    while j + W <= n
      invariant j == 12 * tj && tj <= tilesAcross
      invariant c[..] == Add(c0, C, P, Q, 0, K, Rect(0, mf, 0, j))
    {
      ghost var cj := c[..];
      AddNothing(cj, C, P, Q, 0, K, Rect(0, 0, j, j + W));
      var i := 0;
      ghost var ti := 0;
      while i + H <= m
        invariant i == 4 * ti && ti <= tilesDown
        invariant c[..] == Add(cj, C, P, Q, 0, K, Rect(0, i, j, j + W))
      {
        Tile(c, C, a, A, b, B, i, j, H, W, W, true, P, Q);
        AddAdjoin(cj, C, P, Q, 0, K, Rect(0, i, j, j + W), Rect(i, i + H, j, j + W), Rect(0, i + H, j, j + W));
        i, ti := i + H, ti + 1;
      }
      AddAdjoin(c0, C, P, Q, 0, K, Rect(0, mf, 0, j), Rect(0, mf, j, j + W), Rect(0, mf, 0, j + W));
      j, tj := j + W, tj + 1;
    }
  }

  /** The right-hand strip of `blockmultcachy`: the masked kernel beside the
      full tiles, four rows at a time. */
  method RightStripCachy(c: array<int>, C: View, a: array<int>, A: View, b: array<int>, B: View, ghost P: Mat, ghost Q: Mat)
    requires c != a && c != b
    requires C.ord == RowMajor && B.ord == RowMajor && WellFormed(C)
    requires A.rows == C.rows && B.cols == C.cols && A.cols == B.rows
    requires Fits(C, C.rows, C.cols, c.Length) && Fits(A, A.rows, A.cols, a.Length) && Fits(B, B.rows, B.cols, b.Length)
    requires P == Mat(a[..], A) && Q == Mat(b[..], B)
    modifies c
    ensures c[..] == Add(old(c[..]), C, P, Q, 0, B.rows, Rect(0, C.rows - C.rows % H, C.cols - C.cols % W, C.cols))
  {
    ghost var c0 := c[..];
    ghost var K := B.rows;
    var m := C.rows;
    var n := C.cols;
    ghost var mf := m - m % H;
    ghost var tilesDown := m / H;
    assert mf == 4 * tilesDown && m == mf + m % H && m % H < 4 && n % W < 12;
    AddNothing(c0, C, P, Q, 0, K, Rect(0, 0, n - n % W, n));
    var i := 0;
    ghost var ti := 0;
    while i + H <= m
      invariant i == 4 * ti && ti <= tilesDown
      invariant c[..] == Add(c0, C, P, Q, 0, K, Rect(0, i, n - n % W, n))
    {
      Tile(c, C, a, A, b, B, i, n - n % W, H, n % W, n % W, false, P, Q);
      AddAdjoin(c0, C, P, Q, 0, K, Rect(0, i, n - n % W, n), Rect(i, i + H, n - n % W, n - n % W + n % W), Rect(0, i + H, n - n % W, n));
      i, ti := i + H, ti + 1;
    }
  }

  /** The bottom strip of `blockmultcachy`: the masked kernel below the full
      tiles, twelve columns at a time. */
  method BottomStripCachy(c: array<int>, C: View, a: array<int>, A: View, b: array<int>, B: View, ghost P: Mat, ghost Q: Mat)
    requires c != a && c != b
    requires C.ord == RowMajor && B.ord == RowMajor && WellFormed(C)
    requires A.rows == C.rows && B.cols == C.cols && A.cols == B.rows
    requires Fits(C, C.rows, C.cols, c.Length) && Fits(A, A.rows, A.cols, a.Length) && Fits(B, B.rows, B.cols, b.Length)
    requires P == Mat(a[..], A) && Q == Mat(b[..], B)
    modifies c
    ensures c[..] == Add(old(c[..]), C, P, Q, 0, B.rows, Rect(C.rows - C.rows % H, C.rows, 0, C.cols - C.cols % W))
  {
    ghost var c0 := c[..];
    ghost var K := B.rows;
    var m := C.rows;
    var n := C.cols;
    ghost var nf := n - n % W;
    ghost var tilesAcross := n / W;
    assert nf == 12 * tilesAcross && n == nf + n % W && n % W < 12;
    AddNothing(c0, C, P, Q, 0, K, Rect(m - m % H, m, 0, 0));
    var j := 0;
    ghost var tj := 0;
    while j + W <= n
      invariant j == 12 * tj && tj <= tilesAcross
      invariant c[..] == Add(c0, C, P, Q, 0, K, Rect(m - m % H, m, 0, j))
    {
      Tile(c, C, a, A, b, B, m - m % H, j, m % H, W, W, false, P, Q);
      AddAdjoin(c0, C, P, Q, 0, K, Rect(m - m % H, m, 0, j), Rect(m - m % H, m - m % H + m % H, j, j + W), Rect(m - m % H, m, 0, j + W));
      j, tj := j + W, tj + 1;
    }
  }

  /** `blockmultcachy`: the kernel on every full 4 x 12 tile (columns of tiles
      outermost), then the right strip, the bottom strip and, when both
      remainders are non-zero, the corner with the masked kernel. Every element
      of C gets its entry of A·B added and no other cell of `c` changes. */
  method BlockMultCachy(c: array<int>, C: View, a: array<int>, A: View, b: array<int>, B: View)
    requires c != a && c != b
    requires C.ord == RowMajor && B.ord == RowMajor && WellFormed(C)
    requires A.rows == C.rows && B.cols == C.cols && A.cols == B.rows
    requires Fits(C, C.rows, C.cols, c.Length) && Fits(A, A.rows, A.cols, a.Length) && Fits(B, B.rows, B.cols, b.Length)
    modifies c
    ensures AddsProduct(old(c[..]), c[..], C, C.rows, C.cols, Mat(a[..], A), Mat(b[..], B), B.rows)
  {
    ghost var c0 := c[..];
    ghost var P := Mat(a[..], A);
    ghost var Q := Mat(b[..], B);
    ghost var K := B.rows;
    var m := C.rows;
    var n := C.cols;
    var mr := m % H;
    var nr := n % W;
    var mf := m - mr;
    var nf := n - nr;

    FullTilesByColumn(c, C, a, A, b, B, P, Q);
    RightStripCachy(c, C, a, A, b, B, P, Q);
    AddAdjoin(c0, C, P, Q, 0, K, Rect(0, mf, 0, nf), Rect(0, mf, nf, n), Rect(0, mf, 0, n));
    ghost var top := c[..];
    BottomStripCachy(c, C, a, A, b, B, P, Q);

    // lower-right corner
    if mr != 0 && nr != 0 {
      Tile(c, C, a, A, b, B, mf, nf, mr, nr, nr, false, P, Q);
      AddAdjoin(top, C, P, Q, 0, K, Rect(mf, m, 0, nf), Rect(mf, mf + mr, nf, nf + nr), Rect(mf, m, 0, n));
    } else if mr == 0 {
      AddNothing(top, C, P, Q, 0, K, Rect(mf, m, 0, nf));
      AddNothing(top, C, P, Q, 0, K, Rect(mf, m, 0, n));
    } else {
      assert nf == n;
    }
    assert c[..] == Add(top, C, P, Q, 0, K, Rect(mf, m, 0, n));
    AddAdjoin(c0, C, P, Q, 0, K, Rect(0, mf, 0, n), Rect(mf, m, 0, n), Rect(0, m, 0, n));
    AddWhole(c0, c[..], C, P, Q, K);
  }

  /** `Ablock = A.Rows(i1, h).Cols(j1, w)`: element-wise copy of the view S of
      `src` into the view D of `dst`; every element of D then holds the matching
      element of S and no cell of `dst` outside D changes. */
  method CopyBlock(dst: array<int>, D: View, src: array<int>, S: View)
    requires dst != src
    requires WellFormed(D) && D.rows == S.rows && D.cols == S.cols
    requires Fits(D, D.rows, D.cols, dst.Length) && Fits(S, S.rows, S.cols, src.Length)
    modifies dst
    ensures forall i, j :: 0 <= i < D.rows && 0 <= j < D.cols ==> dst[Addr(D, i, j)] == src[Addr(S, i, j)]
    ensures forall p :: 0 <= p < dst.Length && !InRegion(D, D.rows, D.cols, p) ==> dst[p] == old(dst[p])
  {
    var i := 0;
    while i < D.rows
      invariant i <= D.rows
      invariant forall i', j :: 0 <= i' < i && 0 <= j < D.cols ==> dst[Addr(D, i', j)] == src[Addr(S, i', j)]
      invariant forall p :: 0 <= p < dst.Length && !InRegion(D, D.rows, D.cols, p) ==> dst[p] == old(dst[p])
    {
      var j := 0;
      while j < D.cols
        invariant j <= D.cols
        invariant forall i', j' :: 0 <= i' < D.rows && 0 <= j' < D.cols && (i' < i || (i' == i && j' < j)) ==>
          dst[Addr(D, i', j')] == src[Addr(S, i', j')]
        invariant forall p :: 0 <= p < dst.Length && !InRegion(D, D.rows, D.cols, p) ==> dst[p] == old(dst[p])
      {
        forall i', j' | 0 <= i' < D.rows && 0 <= j' < D.cols && (i', j') != (i, j)
          ensures Addr(D, i', j') != Addr(D, i, j)
        {
          AddrInjective(D, i', j', i, j);
        }
        dst[Addr(D, i, j)] := src[Addr(S, i, j)];
        j := j + 1;
      }
      i := i + 1;
    }
  }

  /** The scratch view `MatrixView Ablock(h, w, BW, memA)` of a block at most
      BH x BW stays inside `memA[BH * BW]`: (h - 1) * BW + w <= BH * BW. */
  lemma ScratchFits(h: nat, w: nat)
    requires h <= BH && w <= BW
    ensures Extent(View(0, h, w, BW, RowMajor), h, w) <= BH * BW
    ensures WellFormed(View(0, h, w, BW, RowMajor))
    ensures Fits(View(0, h, w, BW, RowMajor), h, w, BH * BW)
  {
    FitsByExtent(View(0, h, w, BW, RowMajor), h, w, BH * BW);
  }

  /** With the block of A at (i1, j1) staged in the scratch view Ab and the rows
      [j1, j1 + kb) of B, the block product's entries are the part [j1, j1 + kb)
      of the entries of A·B in rows [i1, i1 + h). */
  lemma BlockOperands(scratch: seq<int>, Ab: View, P: Mat, Q: Mat, i1: nat, j1: nat, h: nat, kb: nat, n: nat)
    requires Ab.rows == h && Ab.cols == kb
    requires Fits(Ab, h, kb, |scratch|) && Fits(Cols(Rows(P.view, i1, h), j1, kb), h, kb, |P.buf|)
    requires forall i, j :: 0 <= i < h && 0 <= j < kb ==>
      scratch[Addr(Ab, i, j)] == P.buf[Addr(Cols(Rows(P.view, i1, h), j1, kb), i, j)]
    ensures forall r, col :: 0 <= r < h && 0 <= col < n ==>
      Dot(Mat(scratch, Ab), Mat(Q.buf, Rows(Q.view, j1, kb)), r, col, 0, kb) == Dot(P, Q, i1 + r, col, j1, j1 + kb)
  {
    forall r, col | 0 <= r < h && 0 <= col < n
      ensures Dot(Mat(scratch, Ab), Mat(Q.buf, Rows(Q.view, j1, kb)), r, col, 0, kb) == Dot(P, Q, i1 + r, col, j1, j1 + kb)
    {
      forall k | 0 <= k < kb
        ensures El(Mat(scratch, Ab), r, k) == El(P, i1 + r, j1 + k)
        ensures El(Mat(Q.buf, Rows(Q.view, j1, kb)), k, col) == El(Q, j1 + k, col)
      {
        TileAddr(P.view, i1, j1, h, kb, r, k);
        RowsAddr(Q.view, j1, kb, k, col);
      }
      DotShift(Mat(scratch, Ab), Mat(Q.buf, Rows(Q.view, j1, kb)), P, Q, r, col, i1 + r, col, j1, kb);
    }
  }

  /** One step of `multcachy`: stage the block of A in rows [i1, i2) and columns
      [j1, j2) in the scratch buffer and multiply it into rows [i1, i2) of C with
      the rows [j1, j2) of B. The part [j1, j2) of A·B is added to those rows of
      C and nothing else in `c` changes. */
  method CachyBlock(c: array<int>, C: View, a: array<int>, A: View, b: array<int>, B: View,
                    memA: array<int>, i1: nat, i2: nat, j1: nat, j2: nat, ghost P: Mat, ghost Q: Mat)
    requires c != a && c != b && memA != a && memA != b && memA != c
    requires C.ord == RowMajor && B.ord == RowMajor && WellFormed(C)
    requires A.rows == C.rows && B.cols == C.cols && A.cols == B.rows
    requires Fits(C, C.rows, C.cols, c.Length) && Fits(A, A.rows, A.cols, a.Length) && Fits(B, B.rows, B.cols, b.Length)
    requires P == Mat(a[..], A) && Q == Mat(b[..], B)
    requires memA.Length == BH * BW
    requires i1 <= i2 <= A.rows && i2 - i1 <= BH && j1 <= j2 <= A.cols && j2 - j1 <= BW
    modifies c, memA
    ensures c[..] == Add(old(c[..]), C, P, Q, j1, j2, Rect(i1, i2, 0, C.cols))
  {
    ghost var cb := c[..];
    var Ablock := View(0, i2 - i1, j2 - j1, BW, RowMajor);
    ScratchFits(i2 - i1, j2 - j1);
    TileFits(A, i1, j1, i2 - i1, j2 - j1, i2 - i1, j2 - j1, A.rows, A.cols, a.Length);
    CopyBlock(memA, Ablock, a, Cols(Rows(A, i1, i2 - i1), j1, j2 - j1));
    RowsFits(C, i1, i2 - i1, i2 - i1, C.cols, C.rows, C.cols, c.Length);
    RowsFits(B, j1, j2 - j1, j2 - j1, B.cols, B.rows, B.cols, b.Length);
    BlockMultCachy(c, Rows(C, i1, i2 - i1), memA, Ablock, b, Rows(B, j1, j2 - j1));
    BlockOperands(memA[..], Ablock, P, Q, i1, j1, i2 - i1, j2 - j1, C.cols);
    SubBlockStep(cb, c[..], C, Rows(C, i1, i2 - i1), i1, 0, i2 - i1, C.cols,
                 Mat(memA[..], Ablock), Mat(b[..], Rows(B, j1, j2 - j1)), P, Q, j1, j2 - j1);
    AddedIsAdd(cb, c[..], C, P, Q, j1, j2, Rect(i1, i2, 0, C.cols));
  }

  /** `multcachy`: for every block of at most BH x BW entries of A, copy it into
      the scratch buffer `memA` and multiply it into C with `blockmultcachy`.
      The blocks tile A exactly once, so C gets A·B added and no other cell of
      `c` changes. */
  method MultCachy(c: array<int>, C: View, a: array<int>, A: View, b: array<int>, B: View)
    requires c != a && c != b
    requires C.ord == RowMajor && B.ord == RowMajor && WellFormed(C)
    requires A.rows == C.rows && B.cols == C.cols && A.cols == B.rows
    requires Fits(C, C.rows, C.cols, c.Length) && Fits(A, A.rows, A.cols, a.Length) && Fits(B, B.rows, B.cols, b.Length)
    modifies c
    ensures AddsProduct(old(c[..]), c[..], C, C.rows, C.cols, Mat(a[..], A), Mat(b[..], B), B.rows)
  {
    ghost var c0 := c[..];
    ghost var P := Mat(a[..], A);
    ghost var Q := Mat(b[..], B);
    ghost var K := B.rows;
    var memA := new int[BH * BW];
    AddNothing(c0, C, P, Q, 0, K, Rect(0, 0, 0, C.cols));
    var i1 := 0;
    while i1 < A.rows
      invariant c[..] == Add(c0, C, P, Q, 0, K, Rect(0, Min(i1, A.rows), 0, C.cols))
    {
      ghost var ci := c[..];
      ghost var rowEnd := Min(A.rows, i1 + BH);
      AddNothing(ci, C, P, Q, 0, 0, Rect(i1, rowEnd, 0, C.cols));
      var j1 := 0;
      while j1 < A.cols
        invariant c[..] == Add(ci, C, P, Q, 0, Min(j1, A.cols), Rect(i1, rowEnd, 0, C.cols))
      {
        var i2 := Min(A.rows, i1 + BH);
        var j2 := Min(A.cols, j1 + BW);
        CachyBlock(c, C, a, A, b, B, memA, i1, i2, j1, j2, P, Q);
        AddSplit(ci, C, P, Q, 0, j1, j2, Rect(i1, i2, 0, C.cols));
        j1 := j1 + BW;
      }
      AddAdjoin(c0, C, P, Q, 0, K, Rect(0, i1, 0, C.cols), Rect(i1, rowEnd, 0, C.cols), Rect(0, rowEnd, 0, C.cols));
      i1 := i1 + BH;
    }
    AddWhole(c0, c[..], C, P, Q, K);
  }

  /** The work items of `multparallel` along a dimension of length m are i0 in
      [0, m / bs]: each starts its block at i0 * bs <= m and the block ends at
      Min(m, i0 * bs + bs). Only the trailing task can be short, and it is empty
      exactly when bs divides m. */
  lemma TaskBlock(m: nat, bs: nat, i0: nat)
    requires bs > 0 && i0 <= m / bs
    ensures i0 * bs <= m
    ensures i0 < m / bs ==> Min(m, i0 * bs + bs) == i0 * bs + bs
    ensures i0 == m / bs ==> Min(m, i0 * bs + bs) - i0 * bs == m % bs
  {
    MulStep(i0, m / bs, bs);
    assert (m / bs) * bs + m % bs == m;
    if i0 < m / bs {
      MulStep(i0 + 1, m / bs, bs);
      assert (i0 + 1) * bs == i0 * bs + bs;
    }
  }

  /** Every index r < m lies in the block of exactly one task: the one numbered
      r / bs. */
  lemma TaskOf(m: nat, bs: nat, r: nat, i0: nat)
    requires bs > 0 && r < m
    ensures r / bs <= m / bs
    ensures (r / bs) * bs <= r < (r / bs) * bs + bs
    ensures i0 * bs <= r < i0 * bs + bs ==> i0 == r / bs
  {
    DivMonotone(r, m, bs);
    assert (r / bs) * bs + r % bs == r;
    if i0 * bs <= r < i0 * bs + bs {
      if i0 < r / bs {
        MulStep(i0 + 1, r / bs, bs);
      } else if i0 > r / bs {
        assert (r / bs + 1) * bs == (r / bs) * bs + bs;
        MulStep(r / bs + 1, i0, bs);
      }
    }
  }

  lemma DivMonotone(x: nat, y: nat, d: nat)
    requires d > 0 && x <= y
    ensures x / d <= y / d
  {
    assert (x / d) * d + x % d == x && (y / d) * d + y % d == y;
    if x / d > y / d {
      assert (y / d + 1) * d == (y / d) * d + d;
      MulStep(y / d + 1, x / d, d);
    }
  }

  /** `multparallel` with its tasks run one after the other: task (i0, j0) for
      i0 <= m / BH and j0 <= K / BW stages the block of A at (i0 * BH, j0 * BW)
      in its own scratch buffer and multiplies it into C with `blockmultcachy`.
      The trailing tasks get empty blocks, so C gets A·B added and no other cell
      of `c` changes. */
  method MultParallel(c: array<int>, C: View, a: array<int>, A: View, b: array<int>, B: View)
    requires c != a && c != b
    requires C.ord == RowMajor && B.ord == RowMajor && WellFormed(C)
    requires A.rows == C.rows && B.cols == C.cols && A.cols == B.rows
    requires Fits(C, C.rows, C.cols, c.Length) && Fits(A, A.rows, A.cols, a.Length) && Fits(B, B.rows, B.cols, b.Length)
    modifies c
    ensures AddsProduct(old(c[..]), c[..], C, C.rows, C.cols, Mat(a[..], A), Mat(b[..], B), B.rows)
  {
    ghost var c0 := c[..];
    ghost var P := Mat(a[..], A);
    ghost var Q := Mat(b[..], B);
    ghost var K := B.rows;
    AddNothing(c0, C, P, Q, 0, K, Rect(0, 0, 0, C.cols));
    var i0 := 0;
    while i0 < A.rows / BH + 1
      invariant i0 <= A.rows / BH + 1
      invariant c[..] == Add(c0, C, P, Q, 0, K, Rect(0, Min(A.rows, i0 * BH), 0, C.cols))
    {
      var memA := new int[BH * BW];
      ghost var ci := c[..];
      TaskBlock(A.rows, BH, i0);
      ghost var rowEnd := Min(A.rows, i0 * BH + BH);
      AddNothing(ci, C, P, Q, 0, 0, Rect(i0 * BH, rowEnd, 0, C.cols));
      var j0 := 0;
      while j0 < A.cols / BW + 1
        invariant j0 <= A.cols / BW + 1
        invariant c[..] == Add(ci, C, P, Q, 0, Min(A.cols, j0 * BW), Rect(i0 * BH, rowEnd, 0, C.cols))
      {
        TaskBlock(A.cols, BW, j0);
        var i1 := i0 * BH;
        var j1 := j0 * BW;
        var i2 := Min(A.rows, i1 + BH);
        var j2 := Min(A.cols, j1 + BW);
        CachyBlock(c, C, a, A, b, B, memA, i1, i2, j1, j2, P, Q);
        AddSplit(ci, C, P, Q, 0, j1, j2, Rect(i1, i2, 0, C.cols));
        assert (j0 + 1) * BW == j1 + BW;
        j0 := j0 + 1;
      }
      assert j0 * BW > A.cols;
      AddAdjoin(c0, C, P, Q, 0, K, Rect(0, i0 * BH, 0, C.cols), Rect(i0 * BH, rowEnd, 0, C.cols), Rect(0, rowEnd, 0, C.cols));
      assert (i0 + 1) * BH == i0 * BH + BH;
      i0 := i0 + 1;
    }
    assert i0 * BH > A.rows;
    AddWhole(c0, c[..], C, P, Q, K);
  }
}
