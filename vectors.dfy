/** Strided vector views over a shared buffer, their in-place updates, the
    owning vector, and the scalar product of two views. */
module Vectors {
  import opened Errors
  import opened Expressions

  /** `size_t` holds values below 2^64; its arithmetic wraps modulo 2^64. */
  const SizeTModulus: int := 0x1_0000_0000_0000_0000

  /** `VectorView`: `size` elements, element i at buffer cell
      `offset + dist * i`. The view does not own its cells. */
  datatype VecView = VecView(offset: nat, size: nat, dist: nat)

  /** `operator()(i)`: the cell of element i. */
  function Index(v: VecView, i: nat): nat {
    v.offset + v.dist * i
  }

  /** Every element of the view lies inside a buffer of length len. */
  ghost predicate Inside(v: VecView, len: nat) {
    forall i :: 0 <= i < v.size ==> Index(v, i) < len
  }

  /** Buffer cell p is one of the view's elements. */
  ghost predicate OnView(v: VecView, p: int) {
    exists i :: 0 <= i < v.size && p == Index(v, i)
  }

  /** `Range(first, next)`: the view starting at element `first`, its size
      `next - first` computed in `size_t`. Element k of the range is element
      first + k of v; a `next` below `first` wraps the size around to a huge
      value. */
  function Range(v: VecView, first: nat, next: nat): (r: VecView)
    requires first < SizeTModulus && next < SizeTModulus
    ensures first <= next ==> r.size == next - first
    ensures next < first ==> r.size == SizeTModulus - (first - next)
    ensures r.dist == v.dist
  {
    VecView(v.offset + first * v.dist, (next - first) % SizeTModulus, v.dist)
  }

  /** `Slice(first, s)`: every s-th element starting at `first`. Its size is
      `size / s` whatever `first` is. */
  function Slice(v: VecView, first: nat, s: nat): (r: VecView)
    requires s > 0
    ensures r.size * s <= v.size < (r.size + 1) * s
    ensures r.dist == v.dist * s
  {
    VecView(v.offset + first * v.dist, v.size / s, v.dist * s)
  }

  /** Element k of `Range(first, next)` is element first + k of v. */
  lemma RangeAliases(v: VecView, first: nat, next: nat, k: nat)
    requires first < SizeTModulus && next < SizeTModulus
    ensures Index(Range(v, first, next), k) == Index(v, first + k)
  {
    assert v.dist * (first + k) == first * v.dist + v.dist * k;
  }

  /** Element k of `Slice(first, s)` is element first + s * k of v. */
  lemma SliceAliases(v: VecView, first: nat, s: nat, k: nat)
    requires s > 0
    ensures Index(Slice(v, first, s), k) == Index(v, first + s * k)
  {
    assert v.dist * s * k == v.dist * (s * k);
    assert v.dist * (first + s * k) == first * v.dist + v.dist * (s * k);
  }

  /** A slice stays within the elements of v exactly when its last element
      does: `first + s * (size / s - 1) < size`. */
  lemma SliceWithinIff(v: VecView, first: nat, s: nat)
    requires s > 0
    ensures (forall k :: 0 <= k < v.size / s ==> first + s * k < v.size)
        <==> (v.size / s == 0 || first + s * (v.size / s - 1) < v.size)
  {
    if v.size / s > 0 {
      forall k | 0 <= k < v.size / s
        ensures s * k <= s * (v.size / s - 1)
      {
        MulMonotone(s, k, v.size / s - 1);
      }
    }
  }

  /** Slicing every second element of a 5-element view from element 3 on
      claims 2 elements, the second of which is element 5. */
  lemma SliceIgnoresFirst()
    ensures Slice(VecView(0, 5, 1), 3, 2).size == 2
    ensures Index(Slice(VecView(0, 5, 1), 3, 2), 1) == 5
  {
  }

  lemma MulMonotone(s: nat, x: nat, y: nat)
    requires x <= y
    ensures s * x <= s * y
  {
  }

  /** In a view with a non-zero stride, distinct elements occupy distinct cells. */
  lemma IndexInjective(v: VecView, i: nat, j: nat)
    requires v.dist > 0 && i != j
    ensures Index(v, i) != Index(v, j)
  {
    if i < j {
      MulMonotone(v.dist, i + 1, j);
    } else {
      MulMonotone(v.dist, j + 1, i);
    }
  }

  /** The view's elements in buffer buf. */
  function Elements(buf: seq<int>, v: VecView): (r: seq<int>)
    requires Inside(v, |buf|)
    ensures |r| == v.size
    ensures forall i :: 0 <= i < v.size ==> r[i] == buf[Index(v, i)]
  {
    seq(v.size, i requires 0 <= i < v.size => buf[Index(v, i)])
  }

  /** Buffer buf after elements 0 .. n-1 of the view have been overwritten
      with vals, one after the other in increasing order. */
  function Store(buf: seq<int>, v: VecView, vals: seq<int>, n: nat): (r: seq<int>)
    requires n <= v.size && n <= |vals| && Inside(v, |buf|)
    ensures |r| == |buf|
  {
    if n == 0 then buf else Store(buf, v, vals, n - 1)[Index(v, n - 1) := vals[n - 1]]
  }

  /** Cells the first n elements do not occupy keep their contents. */
  lemma {:induction false} StoreFrame(buf: seq<int>, v: VecView, vals: seq<int>, n: nat, p: nat)
    requires n <= v.size && n <= |vals| && Inside(v, |buf|) && p < |buf|
    requires forall i :: 0 <= i < n ==> Index(v, i) != p
    ensures Store(buf, v, vals, n)[p] == buf[p]
  {
    if n > 0 {
      StoreFrame(buf, v, vals, n - 1, p);
    }
  }

  /** With a non-zero stride, element i of the view ends up holding vals[i]. */
  lemma {:induction false} StoreWritten(buf: seq<int>, v: VecView, vals: seq<int>, n: nat, i: nat)
    requires n <= v.size && n <= |vals| && Inside(v, |buf|) && i < n && v.dist > 0
    ensures Store(buf, v, vals, n)[Index(v, i)] == vals[i]
  {
    if i < n - 1 {
      IndexInjective(v, i, n - 1);
      StoreWritten(buf, v, vals, n - 1, i);
    }
  }

  /** Reading the view back after the store gives the values stored. */
  lemma StoreThenRead(buf: seq<int>, v: VecView, vals: seq<int>)
    requires v.size <= |vals| && Inside(v, |buf|) && v.dist > 0
    ensures Inside(v, |Store(buf, v, vals, v.size)|)
    ensures Elements(Store(buf, v, vals, v.size), v) == vals[..v.size]
  {
    forall i | 0 <= i < v.size
      ensures Store(buf, v, vals, v.size)[Index(v, i)] == vals[i]
    {
      StoreWritten(buf, v, vals, v.size, i);
    }
  }

  /** Storing what the view holds leaves the buffer as it was, whatever the stride. */
  lemma {:induction false} ReadThenStore(buf: seq<int>, v: VecView, n: nat)
    requires n <= v.size && Inside(v, |buf|)
    ensures Store(buf, v, Elements(buf, v), n) == buf
  {
    if n > 0 {
      ReadThenStore(buf, v, n - 1);
    }
  }

  /** The view holds `vals` and every other cell of the buffer is as in buf. */
  ghost predicate StoredAll(buf: seq<int>, after: seq<int>, v: VecView, vals: seq<int>)
    requires |vals| == v.size
  {
    |after| == |buf| &&
    (forall i :: 0 <= i < v.size ==> Index(v, i) < |after| && after[Index(v, i)] == vals[i]) &&
    (forall p :: 0 <= p < |buf| && !OnView(v, p) ==> after[p] == buf[p])
  }

  /** With a non-zero stride, the store sets every element and nothing else. */
  lemma StoreEffect(buf: seq<int>, v: VecView, vals: seq<int>)
    requires |vals| == v.size && Inside(v, |buf|) && v.dist > 0
    ensures StoredAll(buf, Store(buf, v, vals, v.size), v, vals)
  {
    StoreThenRead(buf, v, vals);
    forall p | 0 <= p < |buf| && !OnView(v, p)
      ensures Store(buf, v, vals, v.size)[p] == buf[p]
    {
      StoreFrame(buf, v, vals, v.size, p);
    }
  }

  /** `operator=(scal)`: every element of the view becomes scal. */
  method AssignScalar(data: array<int>, v: VecView, scal: int)
    requires Inside(v, data.Length)
    modifies data
    ensures data[..] == Store(old(data[..]), v, seq(v.size, _ => scal), v.size)
    ensures forall i :: 0 <= i < v.size ==> data[Index(v, i)] == scal
    ensures forall p :: 0 <= p < data.Length && !OnView(v, p) ==> data[p] == old(data[p])
  {
    ghost var buf := data[..];
    ghost var vals := seq(v.size, _ => scal);
    for i := 0 to v.size
      invariant data[..] == Store(buf, v, vals, i)
      invariant forall k :: 0 <= k < i ==> data[Index(v, k)] == scal
    {
      data[Index(v, i)] := scal;
    }
    forall p | 0 <= p < data.Length && !OnView(v, p)
      ensures data[p] == buf[p]
    {
      StoreFrame(buf, v, vals, v.size, p);
    }
  }

  /** `operator=(VecExpr)`, and the template `operator=(VectorView)` with a
      leaf: element i becomes e(i). The template is chosen only when the
      operand's type differs from the target's (a `VectorView<T>` assigned to
      a slice `VectorView<T, size_t>`); between views of the same type the
      implicit member-wise copy rebinds the view and copies no elements.
      The expression is not checked against the view's size. */
  method Assign(data: array<int>, v: VecView, e: Expr)
    requires Inside(v, data.Length) && Defined(e, v.size)
    modifies data
    ensures data[..] == Store(old(data[..]), v, Values(e, v.size), v.size)
  {
    ghost var buf := data[..];
    ghost var vals := Values(e, v.size);
    DefinedDownward(e, v.size);
    for i := 0 to v.size
      invariant data[..] == Store(buf, v, vals, i)
    {
      data[Index(v, i)] := At(e, i);
    }
  }

  /** The view's elements after `+= e`: the values of the expression
      `this + e` over the old elements. */
  function Plus(buf: seq<int>, v: VecView, e: Expr): (r: seq<int>)
    requires Inside(v, |buf|) && Defined(e, v.size)
    ensures |r| == v.size
    ensures forall i :: 0 <= i < v.size ==> r[i] == buf[Index(v, i)] + Values(e, v.size)[i]
  {
    var x := Sum(Leaf(Elements(buf, v)), e);
    var r := Values(x, v.size);
    ValuesOverLeaf(Elements(buf, v), e, 0, v.size);
    r
  }

  /** The view's elements after `-= e`: the values of `this - e`. */
  function Minus(buf: seq<int>, v: VecView, e: Expr): (r: seq<int>)
    requires Inside(v, |buf|) && Defined(e, v.size)
    ensures |r| == v.size
    ensures forall i :: 0 <= i < v.size ==> r[i] == buf[Index(v, i)] - Values(e, v.size)[i]
  {
    var x := Difference(Leaf(Elements(buf, v)), e);
    var r := Values(x, v.size);
    ValuesOverLeaf(Elements(buf, v), e, 0, v.size);
    r
  }

  /** The view's elements after `*= scal`: the values of `scal * this`. */
  function Times(buf: seq<int>, v: VecView, scal: int): (r: seq<int>)
    requires Inside(v, |buf|)
    ensures |r| == v.size
    ensures forall i :: 0 <= i < v.size ==> r[i] == scal * buf[Index(v, i)]
  {
    var x := Scale(scal, Leaf(Elements(buf, v)));
    var r := Values(x, v.size);
    ValuesOverLeaf(Elements(buf, v), Leaf(Elements(buf, v)), scal, v.size);
    r
  }

  /** `operator+=(VecExpr)`: element i grows by e(i); no other cell changes. */
  method AddAssign(data: array<int>, v: VecView, e: Expr)
    requires Inside(v, data.Length) && Defined(e, v.size) && v.dist > 0
    modifies data
    ensures data[..] == Store(old(data[..]), v, Plus(old(data[..]), v, e), v.size)
    ensures StoredAll(old(data[..]), data[..], v, Plus(old(data[..]), v, e))
  {
    ghost var buf := data[..];
    ghost var vals := Plus(buf, v, e);
    DefinedDownward(e, v.size);
    for i := 0 to v.size
      invariant data[..] == Store(buf, v, vals, i)
    {
      StepReadsOld(buf, v, vals, i);
      data[Index(v, i)] := data[Index(v, i)] + At(e, i);
    }
    StoreEffect(buf, v, vals);
  }

  /** `operator-=(VecExpr)`: element i shrinks by e(i); no other cell changes. */
  method SubAssign(data: array<int>, v: VecView, e: Expr)
    requires Inside(v, data.Length) && Defined(e, v.size) && v.dist > 0
    modifies data
    ensures data[..] == Store(old(data[..]), v, Minus(old(data[..]), v, e), v.size)
    ensures StoredAll(old(data[..]), data[..], v, Minus(old(data[..]), v, e))
  {
    ghost var buf := data[..];
    ghost var vals := Minus(buf, v, e);
    DefinedDownward(e, v.size);
    for i := 0 to v.size
      invariant data[..] == Store(buf, v, vals, i)
    {
      StepReadsOld(buf, v, vals, i);
      data[Index(v, i)] := data[Index(v, i)] - At(e, i);
    }
    StoreEffect(buf, v, vals);
  }

  /** `operator*=(scal)`: element i is multiplied by scal; no other cell changes. */
  method ScaleAssign(data: array<int>, v: VecView, scal: int)
    requires Inside(v, data.Length) && v.dist > 0
    modifies data
    ensures data[..] == Store(old(data[..]), v, Times(old(data[..]), v, scal), v.size)
    ensures StoredAll(old(data[..]), data[..], v, Times(old(data[..]), v, scal))
  {
    ghost var buf := data[..];
    ghost var vals := Times(buf, v, scal);
    for i := 0 to v.size
      invariant data[..] == Store(buf, v, vals, i)
    {
      StepReadsOld(buf, v, vals, i);
      data[Index(v, i)] := data[Index(v, i)] * scal;
    }
    StoreEffect(buf, v, vals);
  }

  /** Before element i is updated it still holds its old contents. */
  lemma StepReadsOld(buf: seq<int>, v: VecView, vals: seq<int>, i: nat)
    requires i < v.size && v.size <= |vals| && Inside(v, |buf|) && v.dist > 0
    ensures Index(v, i) < |buf|
    ensures Store(buf, v, vals, i)[Index(v, i)] == buf[Index(v, i)]
  {
    forall k | 0 <= k < i
      ensures Index(v, k) != Index(v, i)
    {
      IndexInjective(v, k, i);
    }
    StoreFrame(buf, v, vals, i, Index(v, i));
  }

  /** Adding an expression in place and then subtracting it restores the buffer. */
  lemma AddThenSubRestores(buf: seq<int>, v: VecView, e: Expr)
    requires Inside(v, |buf|) && Defined(e, v.size) && v.dist > 0
    ensures var mid := Store(buf, v, Plus(buf, v, e), v.size);
      Inside(v, |mid|) && Store(mid, v, Minus(mid, v, e), v.size) == buf
  {
    var sum := Plus(buf, v, e);
    var mid := Store(buf, v, sum, v.size);
    StoreThenRead(buf, v, sum);
    var back := Minus(mid, v, e);
    forall i | 0 <= i < v.size
      ensures back[i] == Elements(buf, v)[i]
    {
      assert mid[Index(v, i)] == Elements(mid, v)[i] == sum[i];
    }
    assert back == Elements(buf, v);
    StoreOver(buf, v, sum, back);
    ReadThenStore(buf, v, v.size);
  }

  /** A second store over the whole view overwrites the first entirely. */
  lemma StoreOver(buf: seq<int>, v: VecView, vals: seq<int>, vals2: seq<int>)
    requires v.size <= |vals| && v.size <= |vals2| && Inside(v, |buf|) && v.dist > 0
    ensures Inside(v, |Store(buf, v, vals, v.size)|)
    ensures Store(Store(buf, v, vals, v.size), v, vals2, v.size) == Store(buf, v, vals2, v.size)
  {
    var mid := Store(buf, v, vals, v.size);
    var lhs := Store(mid, v, vals2, v.size);
    var rhs := Store(buf, v, vals2, v.size);
    forall p | 0 <= p < |buf|
      ensures lhs[p] == rhs[p]
    {
      if OnView(v, p) {
        var i :| 0 <= i < v.size && p == Index(v, i);
        StoreWritten(mid, v, vals2, v.size, i);
        StoreWritten(buf, v, vals2, v.size, i);
      } else {
        StoreFrame(mid, v, vals2, v.size, p);
        StoreFrame(buf, v, vals, v.size, p);
        StoreFrame(buf, v, vals2, v.size, p);
      }
    }
  }

  /** The scalar product of two views: `invalid_argument` when their sizes
      differ, otherwise the sum of v1(i) * v2(i) accumulated in a loop. It is
      the scalar product of the two views' elements taken as expressions. */
  method ViewScalarProduct(d1: array<int>, v1: VecView, d2: array<int>, v2: VecView) returns (r: Result<int>)
    requires Inside(v1, d1.Length) && Inside(v2, d2.Length)
    ensures r == ScalarProduct(Leaf(Elements(d1[..], v1)), Leaf(Elements(d2[..], v2)))
  {
    if v1.size != v2.size {
      return Failure(InvalidArgument);
    }
    ghost var x := Elements(d1[..], v1);
    ghost var y := Elements(d2[..], v2);
    var product := 0;
    for i := 0 to v1.size
      invariant product == InnerSum(x, y, i)
    {
      product := product + d1[Index(v1, i)] * d2[Index(v2, i)];
    }
    assert Values(Leaf(x), v1.size) == x;
    assert Values(Leaf(y), v2.size) == y;
    return Success(product);
  }

  /** `Vector<T>`: a view with stride 1 over a buffer the vector owns. A moved-
      from vector has size 0 and no buffer. */
  class Vector {
    var size: nat
    var data: array?<int>

    ghost predicate Valid()
      reads this
    {
      if data == null then size == 0 else data.Length == size
    }

    /** The elements in order. */
    function Contents(): (r: seq<int>)
      reads this, data
      requires Valid()
      ensures |r| == size
    {
      if data == null then [] else data[..]
    }

    /** The `VectorView` base of the vector: all of the buffer, in order. */
    function View(): (r: VecView)
      reads this, data
      requires Valid()
      ensures r.offset == 0 && r.size == size && r.dist == 1 && Inside(r, size)
      ensures data != null ==> Elements(data[..], r) == Contents()
    {
      VecView(0, size, 1)
    }

    /** `Vector(size)`: a fresh buffer of `size` cells whose contents are unspecified. */
    constructor (n: nat)
      ensures Valid() && size == n && data != null && fresh(data)
    {
      size := n;
      data := new int[n];
    }

    /** Copy constructor: a fresh buffer holding the same elements. */
    constructor Copy(v: Vector)
      requires v.Valid()
      ensures Valid() && size == v.size && data != null && fresh(data)
      ensures Contents() == v.Contents()
    {
      size := v.size;
      var buf := new int[v.size];
      for i := 0 to v.size
        invariant buf[..i] == v.Contents()[..i]
      {
        buf[i] := v.data[i];
      }
      data := buf;
    }

    /** Move constructor: takes over v's size and buffer and leaves v with
      size 0 and no buffer. */
    constructor Move(v: Vector)
      requires v.Valid()
      modifies v
      ensures Valid() && v.Valid()
      ensures size == old(v.size) && data == old(v.data)
      ensures v.size == 0 && v.data == null
    {
      size := v.size;
      data := v.data;
      new;
      v.size := 0;
      v.data := null;
    }

    /** Initializer-list constructor: a fresh buffer holding the list. */
    constructor FromList(list: seq<int>)
      ensures Valid() && data != null && fresh(data)
      ensures Contents() == list
    {
      size := |list|;
      var buf := new int[|list|];
      for i := 0 to |list|
        invariant buf[..i] == list[..i]
      {
        buf[i] := list[i];
      }
      data := buf;
    }

    /** Constructor from an expression: a fresh buffer of the expression's
      size, assigned the expression's elements. */
    constructor FromExpr(e: Expr)
      requires Defined(e, Size(e))
      ensures Valid() && data != null && fresh(data)
      ensures Contents() == Materialise(e)
    {
      size := Size(e);
      var buf := new int[Size(e)];
      ghost var b0 := buf[..];
      Assign(buf, VecView(0, Size(e), 1), e);
      StoreThenRead(b0, VecView(0, Size(e), 1), Values(e, Size(e)));
      assert Elements(buf[..], VecView(0, Size(e), 1)) == buf[..];
      data := buf;
    }

    /** Copy and move assignment (the two run the same loop): the first
      `size` elements of v2 are copied in; size and buffer stay, and v2 is
      not touched unless it shares this buffer. */
    method AssignFrom(v2: Vector)
      requires Valid() && v2.Valid() && size <= v2.size
      modifies data
      ensures Valid() && Contents() == old(v2.Contents())[..size]
      ensures data != v2.data ==> v2.Contents() == old(v2.Contents())
    {
      if data == null {
        return;
      }
      ghost var src := v2.Contents();
      for i := 0 to size
        invariant data[..i] == src[..i]
        invariant forall k :: i <= k < v2.size ==> v2.data[k] == src[k]
        invariant data != v2.data ==> v2.Contents() == src
      {
        data[i] := v2.data[i];
      }
      assert data[..] == data[..size];
    }
  }
}
