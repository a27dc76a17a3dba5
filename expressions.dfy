/** Lazy vector expressions: a sum, a difference or a scaling of vector
    operands is an object that computes element i on demand, and the
    scalar product folds two such objects into a number. A leaf stands for a
    vector operand by its elements. */
module Expressions {
  import opened Errors

  datatype Expr =
    | Leaf(v: seq<int>)
    | Sum(a: Expr, b: Expr)
    | Difference(a: Expr, b: Expr)
    | Scale(s: int, e: Expr)

  /** `Size()`: a sum or difference takes the size of its left operand, a
      scaling that of its vector. */
  function Size(e: Expr): nat {
    match e
    case Leaf(v) => |v|
    case Sum(a, _) => Size(a)
    case Difference(a, _) => Size(a)
    case Scale(_, x) => Size(x)
  }

  /** Every operand the expression reads holds at least n elements, so
      elements 0 .. n-1 can be evaluated. */
  predicate Defined(e: Expr, n: nat) {
    match e
    case Leaf(v) => n <= |v|
    case Sum(a, b) => Defined(a, n) && Defined(b, n)
    case Difference(a, b) => Defined(a, n) && Defined(b, n)
    case Scale(_, x) => Defined(x, n)
  }

  /** `operator()(i)`: a(i)+b(i), a(i)-b(i), s*v(i). */
  function At(e: Expr, i: nat): int
    requires Defined(e, i + 1)
  {
    match e
    case Leaf(v) => v[i]
    case Sum(a, b) => At(a, i) + At(b, i)
    case Difference(a, b) => At(a, i) - At(b, i)
    case Scale(s, x) => s * At(x, i)
  }

  /** Elements 0 .. n-1 of the expression, as a loop over `operator()`
      receives them. */
  function Values(e: Expr, n: nat): (r: seq<int>)
    requires Defined(e, n)
    ensures |r| == n
    ensures forall i :: 0 <= i < n ==> Defined(e, i + 1) && r[i] == At(e, i)
  {
    DefinedDownward(e, n);
    seq(n, i requires 0 <= i < n => At(e, i))
  }

  /** The elements of the expression, as a vector constructed from it
      receives them. */
  function Materialise(e: Expr): (r: seq<int>)
    requires Defined(e, Size(e))
    ensures |r| == Size(e)
    ensures forall i :: 0 <= i < |r| ==> Defined(e, i + 1) && r[i] == At(e, i)
  {
    DefinedDownward(e, Size(e));
    Values(e, Size(e))
  }

  /** An expression defined on n elements is defined on fewer. */
  lemma {:induction false} DefinedDownward(e: Expr, n: nat)
    requires Defined(e, n)
    ensures forall m :: 0 <= m <= n ==> Defined(e, m)
  {
    match e
    case Leaf(_) =>
    case Sum(a, b) => DefinedDownward(a, n); DefinedDownward(b, n);
    case Difference(a, b) => DefinedDownward(a, n); DefinedDownward(b, n);
    case Scale(_, x) => DefinedDownward(x, n);
  }

  /** Evaluated over a vector's elements a, the sum, the difference and the
      scaling give a(i) + e(i), a(i) - e(i) and s * a(i). */
  lemma ValuesOverLeaf(a: seq<int>, e: Expr, s: int, n: nat)
    requires n <= |a| && Defined(e, n)
    ensures forall i :: 0 <= i < n ==> Values(Sum(Leaf(a), e), n)[i] == a[i] + Values(e, n)[i]
    ensures forall i :: 0 <= i < n ==> Values(Difference(Leaf(a), e), n)[i] == a[i] - Values(e, n)[i]
    ensures forall i :: 0 <= i < n ==> Values(Scale(s, Leaf(a)), n)[i] == s * a[i]
  {
    DefinedDownward(e, n);
    forall i | 0 <= i < n
      ensures Values(Sum(Leaf(a), e), n)[i] == a[i] + Values(e, n)[i]
      ensures Values(Difference(Leaf(a), e), n)[i] == a[i] - Values(e, n)[i]
      ensures Values(Scale(s, Leaf(a)), n)[i] == s * a[i]
    {
      assert Defined(e, i + 1) && Values(e, n)[i] == At(e, i);
      assert Values(Sum(Leaf(a), e), n)[i] == At(Sum(Leaf(a), e), i);
      assert Values(Difference(Leaf(a), e), n)[i] == At(Difference(Leaf(a), e), i);
      assert Values(Scale(s, Leaf(a)), n)[i] == At(Scale(s, Leaf(a)), i);
    }
  }

  /** The size of a sum is that of its left operand whatever the right one
      holds: with a shorter right operand the sum claims elements that
      cannot be evaluated. */
  lemma SumSizeUnchecked(a: seq<int>, b: seq<int>)
    ensures Size(Sum(Leaf(a), Leaf(b))) == |a|
    ensures Defined(Sum(Leaf(a), Leaf(b)), |a|) <==> |a| <= |b|
  {
  }

  /** `x + 3 * y` evaluates elementwise to x(i) + 3 y(i), and the difference
      of x and y is the sum of x and -1 times y. */
  lemma EvaluatesElementwise(x: Expr, y: Expr, i: nat)
    requires Defined(x, i + 1) && Defined(y, i + 1)
    ensures At(Sum(x, Scale(3, y)), i) == At(x, i) + 3 * At(y, i)
    ensures At(Difference(x, y), i) == At(Sum(x, Scale(-1, y)), i)
  {
  }

  /** Sum of v1(i) * v2(i) over i < n, accumulated in increasing i. */
  function InnerSum(x: seq<int>, y: seq<int>, n: nat): int
    requires n <= |x| && n <= |y|
  {
    if n == 0 then 0 else InnerSum(x, y, n - 1) + x[n - 1] * y[n - 1]
  }

  lemma {:induction false} InnerSumSymmetric(x: seq<int>, y: seq<int>, n: nat)
    requires n <= |x| && n <= |y|
    ensures InnerSum(x, y, n) == InnerSum(y, x, n)
  {
    if n > 0 {
      InnerSumSymmetric(x, y, n - 1);
    }
  }

  /** v * v is never negative, so the square root the 2-norm takes of it exists. */
  lemma {:induction false} InnerSumSelfNonNegative(x: seq<int>, n: nat)
    requires n <= |x|
    ensures InnerSum(x, x, n) >= 0
  {
    if n > 0 {
      InnerSumSelfNonNegative(x, n - 1);
    }
  }

  /** The scalar product is linear in its second operand. */
  lemma {:induction false} InnerSumLinear(x: seq<int>, y: seq<int>, z: seq<int>, s: int, n: nat)
    requires n <= |x| && n <= |y| && n <= |z|
    requires forall i :: 0 <= i < n ==> z[i] == y[i] * s
    ensures InnerSum(x, z, n) == s * InnerSum(x, y, n)
  {
    if n > 0 {
      InnerSumLinear(x, y, z, s, n - 1);
      assert x[n - 1] * z[n - 1] == s * (x[n - 1] * y[n - 1]);
    }
  }

  /** The scalar product of two expressions: `invalid_argument` when their
      sizes differ, the sum of products of their elements otherwise. */
  function ScalarProduct(e1: Expr, e2: Expr): (r: Result<int>)
    requires Size(e1) == Size(e2) ==> Defined(e1, Size(e1)) && Defined(e2, Size(e2))
    ensures r.Failure? <==> Size(e1) != Size(e2)
    ensures r.Failure? ==> r.error == InvalidArgument
    ensures r.Success? ==> r.value == InnerSum(Materialise(e1), Materialise(e2), Size(e1))
    ensures Size(e1) == Size(e2) == 0 ==> r == Success(0)
  {
    if Size(e1) != Size(e2) then Failure(InvalidArgument)
    else Success(InnerSum(Materialise(e1), Materialise(e2), Size(e1)))
  }

  /** The scalar product does not depend on the order of its operands,
      neither in its error nor in its value. */
  lemma ScalarProductSymmetric(e1: Expr, e2: Expr)
    requires Size(e1) == Size(e2) ==> Defined(e1, Size(e1)) && Defined(e2, Size(e2))
    ensures ScalarProduct(e1, e2) == ScalarProduct(e2, e1)
  {
    if Size(e1) == Size(e2) {
      InnerSumSymmetric(Materialise(e1), Materialise(e2), Size(e1));
    }
  }
}
