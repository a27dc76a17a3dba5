# ASC-bla core in Dafny

A model of the core of the ASC-bla linear-algebra library: the blocked and
cache-blocked matrix product, strided vector views and lazy vector
expressions, the LAPACK-facing LU object and BLAS dispatch, and the index,
slice and pickling rules of its Python bindings.

- `double` is modelled by `int`, so arithmetic is exact, and a fused
  multiply-add is `c + a * b`.
- A SIMD register of 4 lanes is modelled as 4 array cells. A masked load
  reads 0 in a switched-off lane and touches no memory there.
- A matrix is a `View(offset, rows, cols, dist, ord)` over a flat
  `array<int>`:
  - row-major element (i, j) lies at `offset + i * dist + j`;
  - column-major element (i, j) lies at `offset + j * dist + i`.
- `size_t` is a natural number below 2^64. Wrap-around is written out where
  the library relies on it:
  - in `Range(first, next)`;
  - in the conversion of a negative index.
- C++ `int` is the 32-bit range. pybind11 refuses an index outside it, and
  the model returns `CastError`.
- A thrown exception is a `Failure` of the `Errors.Result` datatype.

Modules, one per file:

- `MatrixViews`: strided matrix views, their sub-views and the transpose.
- `Products`: the matrix-product specification:
  - `Dot` is the sum over k of A(r, k) · B(k, c);
  - `AddsProduct` says C' = C + A·B on a block and nothing else changes;
  - `Add` says the product was added on a rectangle of C.
- `FastMult`: `src/fastmult.h`:
  - `multkernel`, `smallblock`, `multmatmat`, `blockmultcachy`, `multcachy`;
  - how `multparallel` splits the product into independent blocks, run one after another.
- `FastMultHpp`: what `src/fastmult.hpp` does differently, namely its unmasked loads of B.
- `Expressions`: the sum, difference and scaling expressions and the
  size-checked scalar product of `src/expression.h`.
- `Vectors`: `VectorView`, `Vector` and the view scalar product of
  `src/vector.h`.
- `LapackInterface`: the `dgemm_` argument selection of `MultMatMatLapack`
  and the `LapackLU` object of `src/lapack_interface.h`.
- `Bindings`: `src/bind_cla.cpp` and `src/bind_bla.cpp`. The lambdas of the
  two files are identical and are modelled once; the rows below cite
  `bind_cla.cpp`, and the same lines of `bind_bla.cpp` are:
  - 22-27 for the index lambdas;
  - 29-35 for the slice lambda;
  - 50-64 for the vector pickle;
  - 72-88 for the matrix index lambdas.
- `Errors`: the exceptions raised and the `Result` type.

## Model

| member | source | states |
|---|---|---|
| MatrixViews.RowsAddr | src/fastmult.h:100 | element (i, j) of `Rows(first, n)` is element (first + i, j) of the parent |
| MatrixViews.ColsAddr | src/fastmult.h:100 | element (i, j) of `Cols(first, n)` is element (i, first + j) of the parent |
| MatrixViews.TransposedAddr | src/lapack_interface.h:110 | element (j, i) of the transpose is element (i, j); transposing twice gives the view back |
| MatrixViews.AddrInjective | src/fastmult.h:40-42 | in a view whose lines do not overlap, distinct elements occupy distinct cells |
| MatrixViews.DenseRowMajor | src/bind_cla.cpp:86-94 | a dense row-major matrix stores (i, j) at i * cols + j, below rows * cols |
| MatrixViews.TileFits | src/fastmult.h:100 | the tile `Rows(ti, h).Cols(tj, w)` of a view that fits its buffer fits it too |
| MatrixViews.RowsFits | src/fastmult.h:115 | a block of `Rows(first, h)` inside the parent's fitting block stays in the buffer |
| MatrixViews.ColsFits | src/fastmult.h:109 | a block of `Cols(first, w)` inside the parent's fitting block stays in the buffer |
| Products.DotSplit | src/fastmult.h:166-179 | the inner sum over [lo, hi) is the sum over [lo, mid) plus that over [mid, hi), as the column blocks of A split it |
| Products.DotTransposed | src/lapack_interface.h:105-111 | (Bᵀ·Aᵀ)(c, r) equals (A·B)(r, c) |
| Products.TileOperands | src/fastmult.h:100 | the product of the operands `A.Rows(ti, h)` and `B.Cols(tj, w)` is the (ti, tj) block of A·B |
| Products.ProductUnique | src/fastmult.h:48-49 | two updates that both add A·B to the same block of C give the same buffer, so the fully masked `smallblock` and `multkernel` agree |
| Products.AddAdjoin | src/fastmult.h:95-122 | adding the product on a rectangle and then on the rectangle adjoining it equals adding it on their union |
| Products.AddSplit | src/fastmult.h:166-179 | adding the inner range [lo, mid) and then [mid, hi) of the product adds [lo, hi) |
| Products.AddNothing | src/fastmult.h:107-122 | adding on an empty rectangle, or over an empty inner range, changes nothing, so empty strips are harmless |
| Products.AddWhole | src/fastmult.h:81 | adding the product on all of C is C' = C + A·B with nothing else changed |
| FastMult.Mask | src/fastmult.h:56-62 | the mask `width > IndexSequence<first>()` has 4 lanes, lane l live exactly when column first + l lies below the width |
| FastMult.Load | src/fastmult.h:65-67 | a masked 4-lane load holds B(i, col) in the live lanes and 0 in the others |
| FastMult.FmaStore | src/fastmult.h:73-75 | one masked FMA-and-store adds s · b to the live cells of row k of C; every other cell keeps its value |
| FastMult.RowFma | src/fastmult.h:73-75 | the three stores of a kernel step add s times the loaded row to row k of C below width w, nothing else |
| FastMult.LoadRow | src/fastmult.h:60-67 | the three masked loads of row i of B hold B(i, col) for every col below B's width |
| FastMult.LoadRowFull | src/fastmult.h:33-35 | the three unmasked loads of row i of B hold B(i, 0..11) and need all 12 cells in the buffer |
| FastMult.KernelRow | src/fastmult.h:37-43 | the loop over the rows k of C adds A(k, i) · B(i, col) to each live element of the block, nothing else |
| FastMult.MultKernel | src/fastmult.h:22-45 | A of height 4, B of width 12 and A's width = B's height: the 4 x 12 tile gets C + A·B; no other cell changes |
| FastMult.SmallBlock | src/fastmult.h:50-78 | C' = C + A·B on the block that is A's height tall and min(B's width, 12) wide, and no other cell changes; B is needed only up to its own width |
| FastMult.Tile | src/fastmult.h:100 | one kernel call on the tile at (ti, tj) adds the product on that rectangle of C, and nothing else |
| FastMult.FullTiles | src/fastmult.h:95-102 | the first loop nest adds A·B on the rectangle of full 4 x 12 tiles |
| FastMult.RightStrip | src/fastmult.h:107-110 | the right strip adds A·B on columns [12·(n/12), n) of the full row strips |
| FastMult.BottomStrip | src/fastmult.h:113-116 | the bottom strip adds A·B on rows [4·(m/4), m) of the full column strips |
| FastMult.MultMatMat | src/fastmult.h:82-123 | as written: C gets A·B added on exactly the cells `MultMatMatCovers` names, and no other cell changes |
| FastMult.CoveredCells | src/fastmult.h:95-122 | the tiles, the two strips and the corner guarded by n % 4 together cover the cells `MultMatMatCovers` names |
| FastMult.MultMatMatCoverage | src/fastmult.h:119-122 | `multmatmat` covers all of C iff m % 4 == 0, n % 12 == 0 or n % 4 != 0; for m = 5, n = 16 element (4, 12) is missed |
| FastMult.MultMatMatCorrected | src/fastmult.h:119 | with the corner guard testing n % 12, C' = C + A·B for every m and n, and no other cell changes |
| FastMult.FullTilesByColumn | src/fastmult.h:135-141 | the first loop nest of `blockmultcachy`, columns of tiles outermost, adds A·B on the full tiles |
| FastMult.RightStripCachy | src/fastmult.h:145-146 | the right strip of `blockmultcachy` adds A·B beside the full tiles |
| FastMult.BottomStripCachy | src/fastmult.h:148-149 | the bottom strip of `blockmultcachy` adds A·B below the full tiles |
| FastMult.BlockMultCachy | src/fastmult.h:129-153 | the tiles, strips and corner (guarded by % h and % w) cover C exactly once: C' = C + A·B, nothing else changes |
| FastMult.CopyBlock | src/fastmult.h:173-174 | the staged copy holds Ablock(i, j) = A(i1 + i, j1 + j), and no cell of the scratch buffer outside the block changes |
| FastMult.ScratchFits | src/fastmult.h:164-173 | a block of at most 96 x 96 elements with stride 96 fits in `memA[96 * 96]` |
| FastMult.BlockOperands | src/fastmult.h:174-177 | the product of the staged block and `B.Rows(j1, kb)` is the part [j1, j1 + kb) of the inner sums of A·B |
| FastMult.CachyBlock | src/fastmult.h:169-177 | one step of `multcachy` adds the part [j1, j2) of A·B to rows [i1, i2) of C and changes nothing else |
| FastMult.MultCachy | src/fastmult.h:158-180 | the blocks tile A exactly once: C' = C + A·B, no other cell changes |
| FastMult.TaskBlock | src/fastmult.h:196-206 | task i0 <= m / bs starts its block at i0 · bs <= m; every block before the last has bs rows and the last has m % bs |
| FastMult.TaskOf | src/fastmult.h:196-206 | every row r < m lies in the block of exactly one task, number r / bs |
| FastMult.MultParallel | src/fastmult.h:187-219 | every block (i0, j0) of `multparallel`, run one after another, give C' = C + A·B, and no other cell changes |
| FastMultHpp.SmallBlockUnmasked | src/fastmult.hpp:49-75 | the masked stores add A·B to the block that is A's height tall and as wide as B, but all 12 columns of every row of B must lie in B's buffer |
| FastMultHpp.UnmaskedStripOverrun | src/fastmult.hpp:63-65 | for a non-empty right strip the unmasked loads reach past the K · n cells of B, while the masked ones stay inside |
| FastMultHpp.UnmaskedStripExample | src/fastmult.hpp:63-65 | for B of 1 x 13 the loads read up to cell 23 of a 13-cell buffer |
| Expressions.DefinedDownward | src/expression.h:22-72 | an expression that can be evaluated at n elements can be evaluated at fewer |
| Expressions.ValuesOverLeaf | src/expression.h:22-72 | over a vector's elements a, the sum, difference and scaling give a(i) + e(i), a(i) − e(i) and s · a(i) |
| Expressions.SumSizeUnchecked | src/expression.h:31 | the size of a + b is the length of a, and it can be evaluated at all its elements iff b has at least as many |
| Expressions.EvaluatesElementwise | src/expression.h:34-38 | `x + 3 * y` at i is x(i) + 3 y(i); x − y at i is x(i) + (−1) · y(i) |
| Expressions.InnerSumSymmetric | src/expression.h:103-105 | the folded sum of v1(i) · v2(i) does not depend on the operands' order |
| Expressions.InnerSumSelfNonNegative | src/expression.h:111-114 | v · v is never negative, so the 2-norm's square root exists |
| Expressions.InnerSumLinear | src/expression.h:94-108 | scaling the second operand by s scales the scalar product by s |
| Expressions.ScalarProduct | src/expression.h:94-108 | `invalid_argument` iff the sizes differ; otherwise the folded sum of products, 0 for empty operands |
| Expressions.ScalarProductSymmetric | src/expression.h:94-108 | swapping the operands changes neither the error nor the value |
| Vectors.Range | src/vector.h:82-84 | the size is next − first, wrapping to 2^64 − (first − next) when next < first; the stride is kept |
| Vectors.Slice | src/vector.h:86-88 | the size is size / s whatever `first` is, and the stride is dist · s |
| Vectors.RangeAliases | src/vector.h:82-84 | element k of `Range(first, next)` is element first + k of the parent |
| Vectors.SliceAliases | src/vector.h:86-88 | element k of `Slice(first, s)` is element first + s · k of the parent |
| Vectors.SliceWithinIff | src/vector.h:86-88 | every element of `Slice(first, s)` lies inside the parent iff first + s · (size / s − 1) < size |
| Vectors.SliceIgnoresFirst | src/vector.h:86-88 | on 5 elements, `Slice(3, 2)` has 2 elements and its element 1 is cell 5, beyond the parent |
| Vectors.IndexInjective | src/vector.h:79 | with a non-zero stride distinct elements occupy distinct cells |
| Vectors.StoreFrame | src/vector.h:32-72 | a cell that is none of the elements written keeps its value |
| Vectors.StoreWritten | src/vector.h:32-72 | with a non-zero stride, element i of the view ends up holding value i |
| Vectors.StoreThenRead | src/vector.h:61-66 | reading the view back after writing it gives the values written |
| Vectors.ReadThenStore | src/vector.h:30-35 | writing back a view's own elements leaves the buffer as it was |
| Vectors.StoreEffect | src/vector.h:61-66 | writing every element stores each value at its element and keeps every cell off the view |
| Vectors.AssignScalar | src/vector.h:61-66 | every element of the view becomes scal; no other cell of the buffer changes |
| Vectors.Assign | src/vector.h:30-43 | the view receives the expression's first `size` elements, in order |
| Vectors.Plus | src/vector.h:46-51 | the new element i is the old element i plus the expression's element i |
| Vectors.Minus | src/vector.h:54-59 | the new element i is the old element i minus the expression's element i |
| Vectors.Times | src/vector.h:68-73 | the new element i is scal times the old element i |
| Vectors.AddAssign | src/vector.h:46-51 | `+=` writes old + e elementwise to the view and keeps every other cell |
| Vectors.SubAssign | src/vector.h:54-59 | `-=` writes old − e elementwise to the view and keeps every other cell |
| Vectors.ScaleAssign | src/vector.h:68-73 | `*=` writes scal · old elementwise to the view and keeps every other cell |
| Vectors.StepReadsOld | src/vector.h:48-49 | at step i of an in-place loop, element i still holds its original value |
| Vectors.AddThenSubRestores | src/vector.h:46-59 | `v += e` followed by `v -= e` gives the buffer back |
| Vectors.StoreOver | src/vector.h:30-43 | assigning a view twice leaves only the second assignment's values |
| Vectors.ViewScalarProduct | src/vector.h:155-169 | the loop returns the expression-level scalar product of the two views' elements, including its `invalid_argument` on a size mismatch |
| Vectors.Vector.View | src/vector.h:75 | the view of a vector starts at cell 0, has the vector's size and stride 1, and its elements are the vector's contents |
| Vectors.Vector.constructor | src/vector.h:102-103 | a fresh buffer of `size` cells |
| Vectors.Vector.Copy | src/vector.h:105-109 | an independent fresh buffer with equal elements |
| Vectors.Vector.Move | src/vector.h:111-116 | the new vector takes over size and buffer; the source is left with size 0 and no buffer |
| Vectors.Vector.FromList | src/vector.h:126-132 | a fresh buffer holding the list |
| Vectors.Vector.FromExpr | src/vector.h:118-123 | a fresh buffer of the expression's size holding its elements |
| Vectors.Vector.AssignFrom | src/vector.h:138-150 | copy and move assignment copy the first `size` elements of the source; the size is unchanged and the source is untouched |
| LapackInterface.LeadingDim | src/lapack_interface.h:92-94 | the leading dimension is max(dist, 1) |
| LapackInterface.TransFlag | src/lapack_interface.h:83-84 | the flag is 'N' iff the operand is column-major |
| LapackInterface.ColMajorGemm | src/lapack_interface.h:78-102 | the call's result is c.height x c.width, its inner size is a.width, and its flags follow the operands' orderings |
| LapackInterface.OpIsElement | src/lapack_interface.h:83-94 | with that flag and leading dimension, `dgemm_`'s op(X)(i, l) is element (i, l) of the view |
| LapackInterface.GemmIsProduct | src/lapack_interface.h:96-98 | the column-major call computes the entries of A·B |
| LapackInterface.MultMatMatLapackProduct | src/lapack_interface.h:78-111 | for either ordering of c, the call writes (A·B)(i, j) into the cell of c's element (i, j), and its result range is exactly c's elements |
| LapackInterface.FactorsRecoverPacked | src/lapack_interface.h:188-214 | off the diagonal L(i, j) + U(i, j) = a(i, j) and one of them is 0; U(i, i) = a(i, i) and L(i, i) = 1 |
| LapackInterface.PivotColumn | src/lapack_interface.h:216-228 | every entry of P is 0 or 1; column j has its 1 exactly at row ipiv[j], and none at all when ipiv[j] is not a row |
| LapackInterface.PFactorNoInterchanges | src/lapack_interface.h:216-228 | with LAPACK's 1-based pivots [1, 2] (no interchange) P has its only 1 at (1, 0): not the identity, not a permutation |
| LapackInterface.Interchanged | src/lapack_interface.h:142 | applying the first t interchanges to the identity order gives n rows, each below n |
| LapackInterface.SwapPermutes | src/lapack_interface.h:142 | exchanging two entries of a permutation keeps it one, with its inverse updated |
| LapackInterface.InterchangedPermutes | src/lapack_interface.h:142 | the row order after any prefix of the interchanges is a permutation, with its inverse |
| LapackInterface.PermutationMatrix | src/lapack_interface.h:216-228 | the corrected P has one 1 in every row and every column, at positions inverse to each other |
| LapackInterface.NoInterchangesIdentity | src/lapack_interface.h:142 | pivots j + 1 (no interchange) give the identity order |
| LapackInterface.InterchangeOrder | src/lapack_interface.h:142 | the swap loop turns the pivots into the row order `Interchanged` |
| LapackInterface.LapackLU.constructor | src/lapack_interface.h:129-143 | the object keeps its own fresh copy of the by-value matrix, and the caller's matrix is unchanged; it has rows pivots, zeroed. With no rows it returns before factorising. Otherwise it factorises whatever `apply` says and ignores `info` |
| LapackInterface.LapackLU.LFactor | src/lapack_interface.h:188-201 | a fresh matrix of the same shape; L(i, j) = a(i, j) below the diagonal, 1 on it, 0 above; a is unchanged |
| LapackInterface.LapackLU.UFactor | src/lapack_interface.h:203-214 | a fresh matrix of the same shape; U(i, j) = a(i, j) on and above the diagonal, 0 below; a is unchanged |
| LapackInterface.LapackLU.PFactor | src/lapack_interface.h:216-228 | as written: a fresh matrix of the same shape; P(i, j) is 1 iff i == ipiv[j], else 0; needs cols <= rows since ipiv has rows entries |
| LapackInterface.LapackLU.PFactorCorrected | src/lapack_interface.h:216-228 | a fresh matrix whose entry (i, j) is 1 iff row i of the factorised matrix becomes row j after LAPACK's interchanges applied in turn (for a column-major A, row i of A itself); `PermutationMatrix` proves it a permutation matrix |
| Bindings.ToInt32 | src/bind_cla.cpp:26 | storing into an `int` yields the value in its range congruent to x modulo 2^32, so values already in range are kept |
| Bindings.ToSizeT | src/bind_cla.cpp:104-105 | conversion to `size_t` keeps non-negative values below 2^64 and maps a negative `int` x to 2^64 + x |
| Bindings.VectorIndex | src/bind_cla.cpp:25-27 | a cast error iff the index is no `int`; below 2^31 elements, accepted iff −size <= i < size, a negative i counting from the end; the result is always below size |
| Bindings.VectorIndexExamples | src/bind_cla.cpp:25-27 | on 5 elements, −1 and 4 select element 4; −6 and 5 raise `index_error` |
| Bindings.VectorSetItem | src/bind_cla.cpp:25-29 | writes v to the element `VectorIndex` selects, or raises its error and changes nothing |
| Bindings.VectorGetItem | src/bind_cla.cpp:30 | reads element i, with neither wrap nor check; every index it may be given is one `__setitem__` takes as it is |
| Bindings.OnSliceIff | src/vector.h:86-88 | the cells of a view from start with stride step and count elements are exactly the p >= start with (p − start) % step == 0 and (p − start) / step < count |
| Bindings.SliceInside | src/bind_cla.cpp:37 | a slice view whose last element is below stop <= size stays inside the vector |
| Bindings.SliceView | src/bind_cla.cpp:37 | `Range(start, stop).Slice(0, step)` starts at start, has stride step and ((stop − start) mod 2^64) / step elements |
| Bindings.SliceSetItem | src/bind_cla.cpp:32-38 | as written: val goes to start + step · k for k < (stop − start) / step, truncating; every other element keeps its value |
| Bindings.SliceSkipsLast | src/bind_cla.cpp:37 | `x[0:5:2]` writes indices 0 and 2 but not 4, which Python's slice includes |
| Bindings.SliceBackwardsOverruns | src/bind_cla.cpp:37 | for stop < start the range's size wraps to 2^64 − (start − stop) and the view leaves the vector, where Python's slice is empty |
| Bindings.SliceBackwardsExample | src/bind_cla.cpp:37 | `x[3:1]` on 5 elements reaches past the vector |
| Bindings.SliceLengthWrites | src/bind_cla.cpp:35 | with Python's slice length, the indices written are exactly start, start + step, … below stop |
| Bindings.SliceSetItemCorrected | src/bind_cla.cpp:32-38 | with the slice length `compute` returns, exactly the indices start + step · k below stop get val; nothing else changes |
| Bindings.Matrix.constructor | src/bind_cla.cpp:83-84 | a fresh height x width buffer |
| Bindings.Matrix.FromList | src/bind_cla.cpp:86-94 | the nested loop fills the buffer with the first m · n entries of d (row-major flattening); d must hold that many |
| Bindings.RowMajorFlattening | src/bind_cla.cpp:90 | element (i, j) of the filled matrix is d[i · n + j] |
| Bindings.Matrix.GetItem | src/bind_cla.cpp:95-98 | reads element (i, j) of the row-major matrix, with no bounds check |
| Bindings.Matrix.SetItem | src/bind_cla.cpp:103-111 | writes e to the one cell of the element `MatrixIndex` selects, every other cell unchanged; or raises its error and changes nothing |
| Bindings.MatrixIndex | src/bind_cla.cpp:103-108 | as written: a cast error iff an index is no `int`; the indices are taken as `size_t`, so the `< 0` tests never hold, and (for any realistic shape) accepted iff 0 <= i < height and 0 <= j < width |
| Bindings.MatrixIndexCorrected | src/bind_cla.cpp:106-108 | as the `< 0` tests intend: accepted iff −height <= i < height and −width <= j < width, a negative index counting from the end |
| Bindings.MatrixNegativeIndex | src/bind_cla.cpp:104-108 | on a 2 x 2 matrix, index (−1, 0) raises as written and selects (1, 0) as intended |
| Bindings.CastSizeT | src/bind_cla.cpp:73 | `cast<size_t>` succeeds exactly on integers in [0, 2^64), with that value |
| Bindings.VectorFromState | src/bind_cla.cpp:69-76 | `runtime_error` iff the tuple is not a pair; a cast error iff size or bytes do not cast; otherwise the first size cells of the bytes |
| Bindings.VectorGetState | src/bind_cla.cpp:64-68 | the pair (size, bytes) that setstate turns back into exactly the same elements |
| Bindings.VectorStateArity | src/bind_cla.cpp:70-71 | every tuple that is not a pair is refused with `runtime_error` |
| Bindings.MatrixFromState | src/bind_cla.cpp:159-166 | `runtime_error` iff the tuple is not a triple; a cast error iff height, width or bytes do not cast; otherwise that shape and its height · width cells |
| Bindings.MatrixGetState | src/bind_cla.cpp:155-158 | the triple (height, width, bytes) that setstate turns back into the same shape and cells |
| Bindings.MatrixStateArity | src/bind_cla.cpp:160-161 | every tuple that is not a triple is refused with `runtime_error` |
| Bindings.VectorSetState | src/bind_cla.cpp:69-77 | a fresh vector with exactly the elements `VectorFromState` gives, or its error |
| Bindings.MatrixSetState | src/bind_cla.cpp:159-167 | a fresh matrix with exactly the shape and cells `MatrixFromState` gives, or its error |

## Left out

- SIMD registers and intrinsics are cells and exact integer arithmetic. Floating-point rounding of the FMA is not modelled.
- `multparallel_timed` (src/fastmult.h:222-258) is `multparallel` with trace timers, which are I/O.
- `multparallel` runs its tasks sequentially in the model. The worker threads, `RunParallel`, the mutex and the race it guards against are concurrency and are not modelled.
- `multkernel`, `multmatmat`, `blockmultcachy` and `multcachy` of `src/fastmult.hpp` have the same text as those of `src/fastmult.h`, but they call the unmasked `smallblock` of `src/fastmult.hpp`, which `FastMultHpp` models. Their right strips and corner blocks therefore read B beyond its width (`FastMultHpp.UnmaskedStripOverrun`), so the `Fits(B, …)` preconditions of `FastMult` do not cover them: the `FastMult` drivers model the hpp drivers only when every row of B has 12 readable columns from each strip's first column on. The commented-out draft at src/fastmult.hpp:119-165 is not modelled.
- The bodies of `MatrixView`/`Matrix` in `src/matrix.h` are commented out. Three things are therefore defined directly:
  - the strided view, its `Rows`/`Cols`/transpose and the dense matrices;
  - the element-wise copy `Ablock = ...` (`FastMult.CopyBlock`);
  - the row-major dense `Matrix` of the bindings.
- The BLAS/LAPACK routines are foreign and are not modelled:
  - `dgemm_` is described only by the entries it computes from its arguments. Its error check (src/lapack_interface.h:100-101) is not modelled.
  - `dgetrf_` is an input: the packed factors and pivots it hands back.
  - `AddVectorLapack`, `Solve` and `Inverse` call `daxpy_`, `dgetrs_` and `dgetri_`, and are not modelled.
- LapackInterface.LapackLU.constructor: the factorisation is an input of the model. The constructor passes `dgetrf_` the dimensions as (cols, rows) and the leading dimension `Dist()`, and LAPACK reads the buffer column-major. For a column-major square A it factorises A. For a row-major A it factorises Aᵀ, and that is the only instantiation the Python bindings create (src/bind_cla.cpp:176-182). The model does not state what L, U and P then mean for A: the packed factors are those of Aᵀ, and the interchanges exchange columns of A rather than rows.
- LapackInterface.LapackLU.PFactorCorrected: its reading as a row permutation of A holds for a column-major A only. For a row-major A it is the row permutation of Aᵀ, as the line above says.
- LapackInterface.LapackLU.PFactor: it requires cols <= rows, because the source reads `ipiv[j]` for every column while `ipiv` has only rows entries.
- `L2Norm` (`std::sqrt` of a double), all `operator<<` / `__str__` printing, the buffer protocol, `Data`, `timed_mult` and the arithmetic operators `__add__`/`__mul__`/`__rmul__` of the bindings are not modelled.
- `VectorView::View()` (src/vector.h:75) returns the view itself, and the model uses the view value directly.
- Expression operands are snapshots of their elements. A target that aliases an operand of the expression assigned to it is not modelled: the source reads such an operand while it writes it, element by element.
- FastMult.MultKernel: requires C's buffer to be a different array from A's and from B's (`c != a && c != b`). The source accepts any views, including disjoint sub-views of one matrix; the model does not cover C sharing a buffer with an operand, even where the regions do not overlap.
- FastMult.SmallBlock: requires C's buffer to differ from A's and B's, as for MultKernel.
- FastMult.MultMatMat: requires C's buffer to differ from A's and B's, as for MultKernel. The same holds for FastMult.MultMatMatCorrected and every loop-nest helper it calls.
- FastMult.BlockMultCachy: requires C's buffer to differ from A's and B's, as for MultKernel.
- FastMult.MultCachy: requires C's buffer to differ from A's and B's, as for MultKernel.
- FastMult.MultParallel: requires C's buffer to differ from A's and B's, as for MultKernel.
- FastMultHpp.SmallBlockUnmasked: requires C's buffer to differ from A's and B's, as for MultKernel.
- Vectors.AddAssign: requires a non-zero stride. With stride 0 every element is the same cell, and the source's repeated update of that cell is not modelled. The same holds for `SubAssign` and `ScaleAssign`.
- Vectors.Vector.AssignFrom: requires the target's size to be at most `v2`'s, because the source copies `size` elements out of `v2` and for a shorter `v2` reads past its end, which is undefined behaviour and not modelled.
- `py::slice::compute` is outside the model. Its start, stop and step are inputs.
- Bindings.SliceSetItem: it requires a positive step and start <= stop <= size. Two cases are left out:
  - a negative step, which is a huge `size_t` in the source;
  - the backwards case stop < start, which makes the source write outside the vector (`SliceBackwardsOverruns`).
- Bindings.VectorSetItem and the other binding methods require a vector with a buffer. Python never sees a moved-from vector.
- Bindings.VectorGetItem, Bindings.Matrix.GetItem: they require an index inside the object, because the source reads with neither wrap nor bounds check.
- Bindings.VectorFromState, Bindings.MatrixFromState: they require the byte string to hold at least as many cells as the new object has, because `memcpy` would read past its end otherwise. A byte string is modelled as whole 8-byte cells.
- `int`-to-`size_t` conversion at shapes of 2^63 elements or more: `MatrixIndex`'s iff is stated only below that bound, and `VectorIndex`'s only for vectors of at most 2^31 elements. Beyond those bounds the contract states only that the result stays in range.

## Findings

| source | as written | input that shows it | evidently intended | confidence | as-written member | corrected member |
|---|---|---|---|---|---|---|
| src/fastmult.h:119 | the corner guard tests `n % 4 != 0` (also src/fastmult.hpp:113) | m = 5, n = 16: element (4, 12) never gets its product | test `n % 12 != 0`, the width the strips are cut at | high, not executed | FastMult.MultMatMatCoverage | FastMult.MultMatMatCorrected |
| src/fastmult.hpp:63-65 | the B loads of `smallblock` are unmasked | B dense 1 x 13: the right strip reads cells 12 .. 23 of a 13-cell buffer | masked loads, as in src/fastmult.h:65-67 | high, not executed | FastMultHpp.UnmaskedStripOverrun | FastMult.SmallBlock |
| src/lapack_interface.h:220 | P(i, j) = 1 iff i == ipiv[j], with LAPACK's 1-based interchange records | 2 x 2 without interchanges, ipiv = [1, 2]: P has its only 1 at (1, 0) | the permutation matrix of the interchanges applied in turn (for a column-major matrix, the row permutation of A) | high, not executed | LapackInterface.PFactorNoInterchanges | LapackInterface.LapackLU.PFactorCorrected |
| src/bind_cla.cpp:104-107 | indices are converted to `size_t` before the `< 0` tests (also src/bind_bla.cpp:81-84) | 2 x 2 matrix, A[-1, 0] = e raises `index_error` | keep the indices signed, so a negative index counts from the end | high, not executed | Bindings.MatrixNegativeIndex | Bindings.MatrixIndexCorrected |
| src/bind_cla.cpp:37 | the slice writes (stop − start) / step elements, truncating, and ignores the computed length n (also src/bind_bla.cpp:34) | 5 elements, `x[0:5:2] = 1` leaves index 4 unassigned | write n = ceil((stop − start) / step) elements | high, not executed | Bindings.SliceSkipsLast | Bindings.SliceSetItemCorrected |
| src/bind_cla.cpp:37 | `Range(start, stop)` with stop < start wraps its size in `size_t` | 5 elements, `x[3:1] = 1` writes cell 5 and beyond | an empty slice writes nothing | high, not executed | Bindings.SliceBackwardsOverruns | Bindings.SliceSetItemCorrected |
