/** The specification every multiplication routine is proved against:
    entries of the product A·B and what "C += A·B on a block of C" means
    for the cells of C's buffer. */
module Products {
  import opened MatrixViews

  /** An operand: a view together with the contents of the buffer it reads. */
  datatype Mat = Mat(buf: seq<int>, view: View)

  /** Element (i, j) of an operand; a cell beyond the buffer reads as 0. */
  function El(m: Mat, i: nat, j: nat): int {
    var p := Addr(m.view, i, j);
    if p < |m.buf| then m.buf[p] else 0
  }

  /** The sum over k in [lo, hi) of A(r, k) * B(k, c). */
  function Dot(A: Mat, B: Mat, r: nat, c: nat, lo: nat, hi: nat): int
    decreases hi - lo
  {
    if hi <= lo then 0 else Dot(A, B, r, c, lo, hi - 1) + El(A, r, hi - 1) * El(B, hi - 1, c)
  }

  /** Buffer c1 arises from c0 by adding (A·B)(r, col), summed over the inner
      indices [0, K), to every element of the leading h x w block of C, and
      every other cell of the buffer keeps its value. */
  ghost predicate AddsProduct(c0: seq<int>, c1: seq<int>, C: View, h: nat, w: nat, A: Mat, B: Mat, K: nat) {
    && |c1| == |c0|
    && Fits(C, h, w, |c0|)
    && (forall r, col :: 0 <= r < h && 0 <= col < w ==>
          c1[Addr(C, r, col)] == c0[Addr(C, r, col)] + Dot(A, B, r, col, 0, K))
    && (forall p :: 0 <= p < |c0| && !InRegion(C, h, w, p) ==> c1[p] == c0[p])
  }

  /** An inner-index range splits into two consecutive ranges. */
  lemma {:induction false} DotSplit(A: Mat, B: Mat, r: nat, c: nat, lo: nat, mid: nat, hi: nat)
    requires lo <= mid <= hi
    ensures Dot(A, B, r, c, lo, mid) + Dot(A, B, r, c, mid, hi) == Dot(A, B, r, c, lo, hi)
    decreases hi - mid
  {
    if mid < hi {
      DotSplit(A, B, r, c, lo, mid, hi - 1);
    }
  }

  /** Two operand pairs whose elements agree after shifting the inner index
      by k0 give the same entry. */
  lemma {:induction false} DotShift(A: Mat, B: Mat, A2: Mat, B2: Mat, r: nat, c: nat, r2: nat, c2: nat, k0: nat, n: nat)
    requires forall k :: 0 <= k < n ==> El(A, r, k) == El(A2, r2, k0 + k)
    requires forall k :: 0 <= k < n ==> El(B, k, c) == El(B2, k0 + k, c2)
    ensures Dot(A, B, r, c, 0, n) == Dot(A2, B2, r2, c2, k0, k0 + n)
  {
    if n > 0 {
      DotShift(A, B, A2, B2, r, c, r2, c2, k0, n - 1);
    }
  }

  /** (A·B)(r, c) == (Bᵀ·Aᵀ)(c, r): the transposes over the same buffers
      give the transposed product. */
  lemma {:induction false} DotTransposed(A: Mat, B: Mat, r: nat, c: nat, lo: nat, hi: nat)
    ensures Dot(Mat(B.buf, Transposed(B.view)), Mat(A.buf, Transposed(A.view)), c, r, lo, hi)
         == Dot(A, B, r, c, lo, hi)
    decreases hi - lo
  {
    if lo < hi {
      DotTransposed(A, B, r, c, lo, hi - 1);
      TransposedAddr(A.view, r, hi - 1);
      TransposedAddr(B.view, hi - 1, c);
      var x, y := El(A, r, hi - 1), El(B, hi - 1, c);
      assert El(Mat(A.buf, Transposed(A.view)), hi - 1, r) == x;
      assert El(Mat(B.buf, Transposed(B.view)), c, hi - 1) == y;
      assert y * x == x * y;
    }
  }

  /** Element (i, j) of `C.Rows(ti, h).Cols(tj, cw)` is element (ti + i, tj + j) of C. */
  lemma TileAddr(C: View, ti: nat, tj: nat, h: nat, cw: nat, i: nat, j: nat)
    ensures Addr(Cols(Rows(C, ti, h), tj, cw), i, j) == Addr(C, ti + i, tj + j)
  {
    ColsAddr(Rows(C, ti, h), tj, cw, i, j);
    RowsAddr(C, ti, h, i, tj + j);
  }

  /** The operands handed to a kernel for the tile at (ti, tj) are `A.Rows(ti, h)`
      and `B.Cols(tj, w)`: their entries are those of A·B at (ti + r, tj + col). */
  lemma TileOperands(A: Mat, B: Mat, ti: nat, tj: nat, h: nat, w: nat, K: nat)
    ensures forall r, col :: 0 <= r < h && 0 <= col < w ==>
      Dot(Mat(A.buf, Rows(A.view, ti, h)), Mat(B.buf, Cols(B.view, tj, w)), r, col, 0, K)
        == Dot(A, B, ti + r, tj + col, 0, 0 + K)
  {
    forall r, col | 0 <= r < h && 0 <= col < w
      ensures Dot(Mat(A.buf, Rows(A.view, ti, h)), Mat(B.buf, Cols(B.view, tj, w)), r, col, 0, K)
           == Dot(A, B, ti + r, tj + col, 0, 0 + K)
    {
      forall k | 0 <= k < K
        ensures El(Mat(A.buf, Rows(A.view, ti, h)), r, k) == El(A, ti + r, 0 + k)
        ensures El(Mat(B.buf, Cols(B.view, tj, w)), k, col) == El(B, 0 + k, tj + col)
      {
        RowsAddr(A.view, ti, h, r, k);
        ColsAddr(B.view, tj, w, k, col);
      }
      DotShift(Mat(A.buf, Rows(A.view, ti, h)), Mat(B.buf, Cols(B.view, tj, w)), A, B, r, col, ti + r, tj + col, 0, K);
    }
  }

  /** The elements in rows [r0, r1) and columns [k0, k1). */
  datatype Rect = Rect(r0: nat, r1: nat, k0: nat, k1: nat)

  predicate InRect(T: Rect, r: nat, col: nat) {
    T.r0 <= r < T.r1 && T.k0 <= col < T.k1
  }

  predicate Empty(T: Rect) {
    T.r1 <= T.r0 || T.k1 <= T.k0
  }

  /** T continues S to the right or downwards and U is their union. */
  predicate Adjoins(S: Rect, T: Rect, U: Rect) {
    || (S.r0 == T.r0 && S.r1 == T.r1 && S.k0 <= S.k1 == T.k0 <= T.k1 && U == Rect(S.r0, S.r1, S.k0, T.k1))
    || (S.k0 == T.k0 && S.k1 == T.k1 && S.r0 <= S.r1 == T.r0 <= T.r1 && U == Rect(S.r0, T.r1, S.k0, S.k1))
  }

  /** c1 arises from c0 by adding the part [lo, hi) of (A·B)(r, col) to every
      element (r, col) of C inside T; every other cell keeps its value. */
  ghost predicate Added(c0: seq<int>, c1: seq<int>, C: View, A: Mat, B: Mat, lo: nat, hi: nat, T: Rect) {
    && |c1| == |c0|
    && Fits(C, C.rows, C.cols, |c0|)
    && (forall r, col :: 0 <= r < C.rows && 0 <= col < C.cols ==>
          c1[Addr(C, r, col)] == c0[Addr(C, r, col)] + (if InRect(T, r, col) then Dot(A, B, r, col, lo, hi) else 0))
    && (forall p :: 0 <= p < |c0| && !InRegion(C, C.rows, C.cols, p) ==> c1[p] == c0[p])
  }

  /** A callee that adds At·Bt to the h x w block of C at (ti, tj), where At·Bt
      agrees there with the part [lo, lo + K) of A·B, adds that part to exactly
      those elements of C and to no other cell. */
  lemma SubBlockStep(c0: seq<int>, c1: seq<int>, C: View, Ct: View, ti: nat, tj: nat, h: nat, w: nat,
                     At: Mat, Bt: Mat, A: Mat, B: Mat, lo: nat, K: nat)
    requires C.ord == RowMajor && WellFormed(C)
    requires ti + h <= C.rows && tj + w <= C.cols
    requires Fits(C, C.rows, C.cols, |c0|)
    requires Ct == Cols(Rows(C, ti, h), tj, Ct.cols)
    requires AddsProduct(c0, c1, Ct, h, w, At, Bt, K)
    requires forall r, col :: 0 <= r < h && 0 <= col < w ==>
      Dot(At, Bt, r, col, 0, K) == Dot(A, B, ti + r, tj + col, lo, lo + K)
    ensures Added(c0, c1, C, A, B, lo, lo + K, Rect(ti, ti + h, tj, tj + w))
  {
    forall r, col | 0 <= r < C.rows && 0 <= col < C.cols
      ensures c1[Addr(C, r, col)] == c0[Addr(C, r, col)]
        + (if ti <= r < ti + h && tj <= col < tj + w then Dot(A, B, r, col, lo, lo + K) else 0)
    {
      if ti <= r < ti + h && tj <= col < tj + w {
        TileAddr(C, ti, tj, h, Ct.cols, r - ti, col - tj);
      } else {
        forall i, j | 0 <= i < h && 0 <= j < w
          ensures Addr(C, r, col) != Addr(Ct, i, j)
        {
          TileAddr(C, ti, tj, h, Ct.cols, i, j);
          AddrInjective(C, r, col, ti + i, tj + j);
        }
      }
    }
    forall p | 0 <= p < |c0| && !InRegion(C, C.rows, C.cols, p)
      ensures c1[p] == c0[p]
    {
      forall i, j | 0 <= i < h && 0 <= j < w
        ensures p != Addr(Ct, i, j)
      {
        TileAddr(C, ti, tj, h, Ct.cols, i, j);
      }
    }
  }

  /** Two buffers that both arise from c0 by adding A·B to the same block are equal:
      the effect of a multiplication does not depend on how it was scheduled. */
  lemma ProductUnique(c0: seq<int>, c1: seq<int>, c2: seq<int>, C: View, h: nat, w: nat, A: Mat, B: Mat, K: nat)
    requires AddsProduct(c0, c1, C, h, w, A, B, K)
    requires AddsProduct(c0, c2, C, h, w, A, B, K)
    ensures c1 == c2
  {
    forall p | 0 <= p < |c1|
      ensures c1[p] == c2[p]
    {
      if InRegion(C, h, w, p) {
        var i, j :| 0 <= i < h && 0 <= j < w && p == Addr(C, i, j);
      }
    }
  }

  /** Cell p of c0 once the part [lo, hi) of (A·B)(r, col) is added to every
      element (r, col) of C inside T. */
  ghost function Cell(c0: seq<int>, C: View, A: Mat, B: Mat, lo: nat, hi: nat, T: Rect, p: nat): int
    requires p < |c0|
  {
    if InRegion(C, C.rows, C.cols, p) then
      var r, col :| 0 <= r < C.rows && 0 <= col < C.cols && p == Addr(C, r, col);
      c0[p] + (if InRect(T, r, col) then Dot(A, B, r, col, lo, hi) else 0)
    else c0[p]
  }

  /** The first n cells of Add(c0, C, A, B, lo, hi, T). */
  ghost function Prefix(c0: seq<int>, C: View, A: Mat, B: Mat, lo: nat, hi: nat, T: Rect, n: nat): (c1: seq<int>)
    requires n <= |c0|
    ensures |c1| == n
    decreases n
  {
    if n == 0 then [] else Prefix(c0, C, A, B, lo, hi, T, n - 1) + [Cell(c0, C, A, B, lo, hi, T, n - 1)]
  }

  lemma {:induction false} PrefixCell(c0: seq<int>, C: View, A: Mat, B: Mat, lo: nat, hi: nat, T: Rect, n: nat, p: nat)
    requires p < n <= |c0|
    ensures Prefix(c0, C, A, B, lo, hi, T, n)[p] == Cell(c0, C, A, B, lo, hi, T, p)
    decreases n
  {
    if p < n - 1 {
      PrefixCell(c0, C, A, B, lo, hi, T, n - 1, p);
    }
  }

  /** c0 with the part [lo, hi) of (A·B)(r, col) added to every element
      (r, col) of C inside T. */
  ghost function Add(c0: seq<int>, C: View, A: Mat, B: Mat, lo: nat, hi: nat, T: Rect): (c1: seq<int>)
    ensures |c1| == |c0|
  {
    Prefix(c0, C, A, B, lo, hi, T, |c0|)
  }

  lemma AddCell(c0: seq<int>, C: View, A: Mat, B: Mat, lo: nat, hi: nat, T: Rect, p: nat)
    requires p < |c0|
    ensures Add(c0, C, A, B, lo, hi, T)[p] == Cell(c0, C, A, B, lo, hi, T, p)
  {
    PrefixCell(c0, C, A, B, lo, hi, T, |c0|, p);
  }

  /** In a well-formed view, Add adds the product on T and leaves the rest of
      the buffer alone. */
  lemma AddCells(c0: seq<int>, C: View, A: Mat, B: Mat, lo: nat, hi: nat, T: Rect)
    requires WellFormed(C) && Fits(C, C.rows, C.cols, |c0|)
    ensures Added(c0, Add(c0, C, A, B, lo, hi, T), C, A, B, lo, hi, T)
  {
    var c1 := Add(c0, C, A, B, lo, hi, T);
    forall r, col | 0 <= r < C.rows && 0 <= col < C.cols
      ensures c1[Addr(C, r, col)] == c0[Addr(C, r, col)] + (if InRect(T, r, col) then Dot(A, B, r, col, lo, hi) else 0)
    {
      var p := Addr(C, r, col);
      AddCell(c0, C, A, B, lo, hi, T, p);
      assert InRegion(C, C.rows, C.cols, p);
      var r', col' :| 0 <= r' < C.rows && 0 <= col' < C.cols && p == Addr(C, r', col')
        && c1[p] == c0[p] + (if InRect(T, r', col') then Dot(A, B, r', col', lo, hi) else 0);
      if (r', col') != (r, col) {
        AddrInjective(C, r, col, r', col');
      }
    }
    forall p | 0 <= p < |c0| && !InRegion(C, C.rows, C.cols, p)
      ensures c1[p] == c0[p]
    {
      AddCell(c0, C, A, B, lo, hi, T, p);
    }
  }

  /** A buffer with the product added on T is Add's. */
  lemma AddedIsAdd(c0: seq<int>, c1: seq<int>, C: View, A: Mat, B: Mat, lo: nat, hi: nat, T: Rect)
    requires WellFormed(C)
    requires Added(c0, c1, C, A, B, lo, hi, T)
    ensures c1 == Add(c0, C, A, B, lo, hi, T)
  {
    AddCells(c0, C, A, B, lo, hi, T);
    var c2 := Add(c0, C, A, B, lo, hi, T);
    forall p | 0 <= p < |c1|
      ensures c1[p] == c2[p]
    {
      AddCell(c0, C, A, B, lo, hi, T, p);
      if InRegion(C, C.rows, C.cols, p) {
        var r, col :| 0 <= r < C.rows && 0 <= col < C.cols && p == Addr(C, r, col);
      }
    }
  }

  /** Adding on S and then on its continuation T is adding on their union. */
  lemma AddAdjoin(c0: seq<int>, C: View, A: Mat, B: Mat, lo: nat, hi: nat, S: Rect, T: Rect, U: Rect)
    requires WellFormed(C) && Fits(C, C.rows, C.cols, |c0|)
    requires Adjoins(S, T, U)
    ensures Add(Add(c0, C, A, B, lo, hi, S), C, A, B, lo, hi, T) == Add(c0, C, A, B, lo, hi, U)
  {
    var c1 := Add(c0, C, A, B, lo, hi, S);
    AddCells(c0, C, A, B, lo, hi, S);
    AddCells(c1, C, A, B, lo, hi, T);
    var c2 := Add(c1, C, A, B, lo, hi, T);
    assert Added(c0, c2, C, A, B, lo, hi, U);
    AddedIsAdd(c0, c2, C, A, B, lo, hi, U);
  }

  /** Adding the inner range [lo, mid) and then [mid, hi) on T adds [lo, hi). */
  lemma AddSplit(c0: seq<int>, C: View, A: Mat, B: Mat, lo: nat, mid: nat, hi: nat, T: Rect)
    requires WellFormed(C) && Fits(C, C.rows, C.cols, |c0|)
    requires lo <= mid <= hi
    ensures Add(Add(c0, C, A, B, lo, mid, T), C, A, B, mid, hi, T) == Add(c0, C, A, B, lo, hi, T)
  {
    var c1 := Add(c0, C, A, B, lo, mid, T);
    AddCells(c0, C, A, B, lo, mid, T);
    AddCells(c1, C, A, B, mid, hi, T);
    var c2 := Add(c1, C, A, B, mid, hi, T);
    forall r, col | 0 <= r < C.rows && 0 <= col < C.cols
      ensures c2[Addr(C, r, col)] == c0[Addr(C, r, col)] + (if InRect(T, r, col) then Dot(A, B, r, col, lo, hi) else 0)
    {
      DotSplit(A, B, r, col, lo, mid, hi);
    }
    AddedIsAdd(c0, c2, C, A, B, lo, hi, T);
  }

  /** Adding on no element, or an empty inner range, changes nothing. */
  lemma AddNothing(c0: seq<int>, C: View, A: Mat, B: Mat, lo: nat, hi: nat, T: Rect)
    requires WellFormed(C) && Fits(C, C.rows, C.cols, |c0|)
    requires Empty(T) || hi <= lo
    ensures Add(c0, C, A, B, lo, hi, T) == c0
  {
    AddCells(c0, C, A, B, lo, hi, T);
    forall p | 0 <= p < |c0|
      ensures Add(c0, C, A, B, lo, hi, T)[p] == c0[p]
    {
      AddCell(c0, C, A, B, lo, hi, T, p);
      if InRegion(C, C.rows, C.cols, p) {
        var r, col :| 0 <= r < C.rows && 0 <= col < C.cols && p == Addr(C, r, col);
      }
    }
  }

  /** Adding the whole product on all of C is what AddsProduct describes. */
  lemma AddWhole(c0: seq<int>, c1: seq<int>, C: View, A: Mat, B: Mat, K: nat)
    requires WellFormed(C) && Fits(C, C.rows, C.cols, |c0|)
    requires c1 == Add(c0, C, A, B, 0, K, Rect(0, C.rows, 0, C.cols))
    ensures AddsProduct(c0, c1, C, C.rows, C.cols, A, B, K)
  {
    AddCells(c0, C, A, B, 0, K, Rect(0, C.rows, 0, C.cols));
  }
}
