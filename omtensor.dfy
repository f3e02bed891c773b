/**
 * The runtime tensor descriptor (OMTensor) and its index helpers: element
 * count, row-major strides, linear element offsets and the index set.
 *
 * A shape is a sequence of non-negative sizes; an index tuple is a sequence of
 * integers; a tensor's elements live in a flat row-major sequence.
 */
module Runtime {

  import opened Ints

  type Shape = seq<nat>

  // ---------------------------------------------------------------------------
  // Element count
  // ---------------------------------------------------------------------------

  /** Product of the sizes, accumulated from the left as getNumOfElems does. */
  function Product(s: seq<int>): int
  {
    if |s| == 0 then 1 else Product(s[..|s| - 1]) * s[|s| - 1]
  }

  /** getNumOfElems: multiplies the first `rank` sizes into an accumulator that starts at 1. */
  method GetNumOfElems(dataSizes: array<int>, rank: nat) returns (numElem: int)
    requires rank <= dataSizes.Length
    ensures numElem == Product(dataSizes[..rank])
    ensures rank == 0 ==> numElem == 1
  {
    numElem := 1;
    var i := 0;
    while i < rank
      invariant 0 <= i <= rank
      invariant numElem == Product(dataSizes[..i])
    {
      assert dataSizes[..i + 1][..i] == dataSizes[..i];
      numElem := numElem * dataSizes[i];
      i := i + 1;
    }
  }

  lemma {:induction false} ProductCons(x: int, s: seq<int>)
    ensures Product([x] + s) == x * Product(s)
  {
    if |s| > 0 {
      var p := s[..|s| - 1];
      assert ([x] + s)[..|s|] == [x] + p;
      ProductCons(x, p);
      assert Product([x] + s) == x * Product(p) * s[|s| - 1];
    }
  }

  lemma {:induction false} ProductNonNegative(s: Shape)
    ensures Product(s) >= 0
  {
    if |s| > 0 {
      ProductNonNegative(s[..|s| - 1]);
    }
  }

  /** A shape holds no element exactly when one of its sizes is 0. */
  lemma {:induction false} ProductZero(s: Shape)
    ensures Product(s) == 0 <==> exists j :: 0 <= j < |s| && s[j] == 0
  {
    if |s| > 0 {
      var p := s[..|s| - 1];
      ProductZero(p);
      ProductNonNegative(p);
      if Product(p) == 0 {
        var j :| 0 <= j < |p| && p[j] == 0;
        assert s[j] == 0;
      } else if s[|s| - 1] != 0 {
        assert Product(s) != 0;
        forall j | 0 <= j < |s| ensures s[j] != 0 {
          if j < |p| { assert s[j] == p[j]; }
        }
      }
    }
  }

  // ---------------------------------------------------------------------------
  // Strides and offsets
  // ---------------------------------------------------------------------------

  /**
   * computeStridesFromSizes: the sizes are shifted one to the left, a 1 is put
   * in the vacated rightmost slot, and a right-to-left running product is taken.
   */
  function StridesFromSizes(sizes: seq<int>): (r: seq<int>)
    ensures |r| == |sizes|
    ensures |r| > 0 ==> r[|r| - 1] == 1
    ensures forall i :: 0 <= i < |r| - 1 ==> r[i] == r[i + 1] * sizes[i + 1]
  {
    if |sizes| == 0 then []
    else
      var tail := StridesFromSizes(sizes[1..]);
      (if |tail| == 0 then [1] else [tail[0] * sizes[1]]) + tail
  }

  /** Stride i is the product of every size strictly to the right of dimension i. */
  lemma {:induction false} StrideIsSuffixProduct(sizes: seq<int>, i: nat)
    requires i < |sizes|
    ensures StridesFromSizes(sizes)[i] == Product(sizes[i + 1..])
    decreases |sizes| - i
  {
    if i == |sizes| - 1 {
      assert sizes[i + 1..] == [];
    } else {
      StrideIsSuffixProduct(sizes, i + 1);
      assert sizes[i + 1..] == [sizes[i + 1]] + sizes[i + 2..];
      ProductCons(sizes[i + 1], sizes[i + 2..]);
    }
  }

  /** The size of the leading dimension never affects any stride. */
  lemma {:induction false} StridesIgnoreLeadingSize(sizes: seq<int>, other: seq<int>)
    requires |sizes| == |other| > 0 && sizes[1..] == other[1..]
    ensures StridesFromSizes(sizes) == StridesFromSizes(other)
  {
    var r, q := StridesFromSizes(sizes), StridesFromSizes(other);
    forall i | 0 <= i < |r| ensures r[i] == q[i] {
      StrideIsSuffixProduct(sizes, i);
      StrideIsSuffixProduct(other, i);
      assert sizes[i + 1..] == other[1..][i..];
    }
  }

  /** Appending a dimension of size m multiplies every existing stride by m. */
  lemma StridesAppend(sizes: seq<int>, m: int)
    ensures StridesFromSizes(sizes + [m]) == Scale(StridesFromSizes(sizes), m) + [1]
  {
    var s2 := sizes + [m];
    var r2, r := StridesFromSizes(s2), StridesFromSizes(sizes);
    forall i | 0 <= i < |sizes| ensures r2[i] == r[i] * m {
      StrideIsSuffixProduct(s2, i);
      StrideIsSuffixProduct(sizes, i);
      assert s2[i + 1..] == sizes[i + 1..] + [m];
      assert (sizes[i + 1..] + [m])[..|sizes| - i - 1] == sizes[i + 1..];
    }
  }

  function Scale(st: seq<int>, m: int): (r: seq<int>)
    ensures |r| == |st|
    ensures forall i :: 0 <= i < |st| ==> r[i] == st[i] * m
  {
    seq(|st|, i requires 0 <= i < |st| => st[i] * m)
  }

  /**
   * computeElemOffset: inner product of the index tuple with the strides,
   * starting from 0. Only the first |indexes| strides take part.
   */
  function ElemOffset(strides: seq<int>, indexes: seq<int>): int
    requires |indexes| <= |strides|
  {
    if |indexes| == 0 then 0
    else ElemOffset(strides, indexes[..|indexes| - 1]) + indexes[|indexes| - 1] * strides[|indexes| - 1]
  }

  lemma {:induction false} ElemOffsetPrefix(strides: seq<int>, more: seq<int>, indexes: seq<int>)
    requires |indexes| <= |strides|
    ensures ElemOffset(strides + more, indexes) == ElemOffset(strides, indexes)
  {
    if |indexes| > 0 {
      ElemOffsetPrefix(strides, more, indexes[..|indexes| - 1]);
    }
  }

  lemma {:induction false} ElemOffsetScale(strides: seq<int>, m: int, indexes: seq<int>)
    requires |indexes| <= |strides|
    ensures ElemOffset(Scale(strides, m), indexes) == ElemOffset(strides, indexes) * m
  {
    if |indexes| > 0 {
      var n := |indexes| - 1;
      ElemOffsetScale(strides, m, indexes[..n]);
      assert indexes[n] * (strides[n] * m) == (indexes[n] * strides[n]) * m;
    }
  }

  /** The offset in a shape with one more (innermost) dimension. */
  lemma ElemOffsetAppend(sizes: seq<int>, m: int, x: seq<int>, b: int)
    requires |x| == |sizes|
    ensures ElemOffset(StridesFromSizes(sizes + [m]), x + [b]) == ElemOffset(StridesFromSizes(sizes), x) * m + b
  {
    var st := StridesFromSizes(sizes);
    StridesAppend(sizes, m);
    assert (x + [b])[..|x|] == x;
    ElemOffsetPrefix(Scale(st, m), [1], x);
    ElemOffsetScale(st, m, x);
  }

  /** An index tuple within the bounds of a shape. */
  predicate InBounds(indexes: seq<int>, shape: Shape)
  {
    |indexes| == |shape| && forall j :: 0 <= j < |shape| ==> 0 <= indexes[j] < shape[j]
  }

  /** Every in-bounds index tuple has a row-major offset in [0, number of elements). */
  lemma {:induction false} ElemOffsetInRange(shape: Shape, indexes: seq<int>)
    requires InBounds(indexes, shape)
    ensures 0 <= ElemOffset(StridesFromSizes(shape), indexes) < Product(shape)
  {
    if |shape| > 0 {
      var n := |shape| - 1;
      var s, m := shape[..n], shape[n];
      var x, b := indexes[..n], indexes[n];
      assert shape == s + [m] && indexes == x + [b];
      ElemOffsetInRange(s, x);
      ElemOffsetAppend(s, m, x, b);
      AffineBound(ElemOffset(StridesFromSizes(s), x), b, Product(s), m);
    }
  }

  /** Distinct in-bounds index tuples have distinct row-major offsets. */
  lemma {:induction false} ElemOffsetInjective(shape: Shape, i1: seq<int>, i2: seq<int>)
    requires InBounds(i1, shape) && InBounds(i2, shape)
    requires ElemOffset(StridesFromSizes(shape), i1) == ElemOffset(StridesFromSizes(shape), i2)
    ensures i1 == i2
  {
    if |shape| > 0 {
      var n := |shape| - 1;
      var s, m := shape[..n], shape[n];
      InBoundsLast(shape, i1);
      InBoundsLast(shape, i2);
      var x1, b1, x2, b2 := i1[..n], i1[n], i2[..n], i2[n];
      var st := StridesFromSizes(s);
      ElemOffsetAppend(s, m, x1, b1);
      ElemOffsetAppend(s, m, x2, b2);
      DivModUnique(ElemOffset(st, x1), b1, ElemOffset(st, x2), b2, m);
      ElemOffsetInjective(s, x1, x2);
    }
  }

  /** An in-bounds tuple splits into an in-bounds prefix and a last index below the last size. */
  lemma InBoundsLast(shape: Shape, indexes: seq<int>)
    requires InBounds(indexes, shape) && |shape| > 0
    ensures var n := |shape| - 1;
      && shape == shape[..n] + [shape[n]] && indexes == indexes[..n] + [indexes[n]]
      && InBounds(indexes[..n], shape[..n]) && 0 <= indexes[n] < shape[n]
  {
  }

  // ---------------------------------------------------------------------------
  // Cartesian product and index set
  // ---------------------------------------------------------------------------

  /** x extended by each element of u, in the order of u. */
  function Row(x: seq<int>, u: seq<int>): (r: seq<seq<int>>)
    ensures |r| == |u|
    ensures forall k :: 0 <= k < |u| ==> r[k] == x + [u[k]]
  {
    seq(|u|, k requires 0 <= k < |u| => x + [u[k]])
  }

  /** One step of CartProduct: every tuple of s, in order, extended by every element of u. */
  function Extend(s: seq<seq<int>>, u: seq<int>): seq<seq<int>>
  {
    if |s| == 0 then [] else Extend(s[..|s| - 1], u) + Row(s[|s| - 1], u)
  }

  /** The cartesian product of v[0] x ... x v[|v|-1], built one factor at a time. */
  function Cart(v: seq<seq<int>>): seq<seq<int>>
  {
    if |v| == 0 then [[]] else Extend(Cart(v[..|v| - 1]), v[|v| - 1])
  }

  /** CartProduct: nested loops that push every extension of every partial tuple. */
  method CartProduct(v: seq<seq<int>>) returns (s: seq<seq<int>>)
    ensures s == Cart(v)
  {
    s := [[]];
    var i := 0;
    while i < |v|
      invariant 0 <= i <= |v|
      invariant s == Cart(v[..i])
    {
      var u := v[i];
      var r: seq<seq<int>> := [];
      var j := 0;
      while j < |s|
        invariant 0 <= j <= |s|
        invariant r == Extend(s[..j], u)
      {
        var x := s[j];
        var k := 0;
        while k < |u|
          invariant 0 <= k <= |u|
          invariant r == Extend(s[..j], u) + Row(x, u[..k])
        {
          assert Row(x, u[..k + 1]) == Row(x, u[..k]) + [x + [u[k]]];
          r := r + [x + [u[k]]];
          k := k + 1;
        }
        assert u[..k] == u;
        assert s[..j + 1][..j] == s[..j];
        j := j + 1;
      }
      assert s[..j] == s;
      assert v[..i + 1][..i] == v[..i];
      s := r;
      i := i + 1;
    }
    assert v[..i] == v;
  }

  lemma {:induction false} ExtendLength(s: seq<seq<int>>, u: seq<int>)
    ensures |Extend(s, u)| == |s| * |u|
  {
    if |s| > 0 {
      ExtendLength(s[..|s| - 1], u);
      assert |s| * |u| == (|s| - 1) * |u| + |u|;
    }
  }

  /** Element a*|u| + b of Extend(s, u) is s[a] extended by u[b]: the new component varies fastest. */
  lemma {:induction false} ExtendAt(s: seq<seq<int>>, u: seq<int>, a: nat, b: nat)
    requires a < |s| && b < |u|
    ensures a * |u| + b < |Extend(s, u)|
    ensures Extend(s, u)[a * |u| + b] == s[a] + [u[b]]
  {
    var p := s[..|s| - 1];
    ExtendLength(s, u);
    ExtendLength(p, u);
    assert |p| * |u| + |u| == |s| * |u|;
    if a < |p| {
      ExtendAt(p, u, a, b);
      MulLeMono(a + 1, |p|, |u|);
    } else {
      assert a * |u| == |p| * |u|;
    }
  }

  /** Element n of Extend(s, u), by quotient and remainder of n by |u|. */
  lemma ExtendAtIndex(s: seq<seq<int>>, u: seq<int>, n: nat)
    requires n < |Extend(s, u)|
    ensures |u| > 0 && n / |u| < |s|
    ensures Extend(s, u)[n] == s[n / |u|] + [u[n % |u|]]
  {
    ExtendLength(s, u);
    var m := |u|;
    assert m > 0;
    DivModSplit(n, m, |s|);
    ExtendAt(s, u, n / m, n % m);
  }

  /** The sizes of the factors of a cartesian product. */
  function Lengths(v: seq<seq<int>>): (r: seq<int>)
    ensures |r| == |v|
    ensures forall j :: 0 <= j < |v| ==> r[j] == |v[j]|
  {
    seq(|v|, j requires 0 <= j < |v| => |v[j]|)
  }

  /** CartProduct has exactly the product of the factor sizes many tuples. */
  lemma {:induction false} CartLength(v: seq<seq<int>>)
    ensures |Cart(v)| == Product(Lengths(v))
  {
    if |v| > 0 {
      var p := v[..|v| - 1];
      CartLength(p);
      ExtendLength(Cart(p), v[|v| - 1]);
      assert Lengths(v)[..|v| - 1] == Lengths(p);
    }
  }

  /** Every tuple of CartProduct(v) has |v| components, component j drawn from v[j]. */
  lemma {:induction false} CartMembers(v: seq<seq<int>>, n: nat)
    requires n < |Cart(v)|
    ensures |Cart(v)[n]| == |v|
    ensures forall j :: 0 <= j < |v| ==> Cart(v)[n][j] in v[j]
  {
    if |v| > 0 {
      var p, u := v[..|v| - 1], v[|v| - 1];
      ExtendAtIndex(Cart(p), u, n);
      var a := n / |u|;
      CartMembers(p, a);
      var t := Cart(v)[n];
      assert t == Cart(p)[a] + [u[n % |u|]];
      forall j | 0 <= j < |v| ensures t[j] in v[j] {
        if j < |p| { assert t[j] == Cart(p)[a][j] && p[j] == v[j]; }
      }
    }
  }

  /** Appending a factor: the new, last component varies fastest. */
  lemma CartAppendAt(v: seq<seq<int>>, u: seq<int>, a: nat, b: nat)
    requires a < |Cart(v)| && b < |u|
    ensures a * |u| + b < |Cart(v + [u])|
    ensures Cart(v + [u])[a * |u| + b] == Cart(v)[a] + [u[b]]
  {
    assert (v + [u])[..|v|] == v;
    ExtendAt(Cart(v), u, a, b);
  }

  function Range(m: nat): (r: seq<int>)
    ensures |r| == m
    ensures forall i :: 0 <= i < m ==> r[i] == i
  {
    seq(m, i requires 0 <= i < m => i)
  }

  function Ranges(shape: Shape): (r: seq<seq<int>>)
    ensures |r| == |shape|
    ensures forall j :: 0 <= j < |shape| ==> r[j] == Range(shape[j])
  {
    seq(|shape|, j requires 0 <= j < |shape| => Range(shape[j]))
  }

  /**
   * The index set of a tensor (omTensorComputeIndexSet): all index tuples, as
   * the cartesian product of the per-dimension ranges [0, size).
   */
  function IndexSet(shape: Shape): seq<seq<int>>
  {
    Cart(Ranges(shape))
  }

  lemma IndexSetAppend(shape: Shape, m: nat)
    ensures IndexSet(shape + [m]) == Extend(IndexSet(shape), Range(m))
  {
    assert Ranges(shape + [m])[..|shape|] == Ranges(shape);
  }

  /** The index set has one tuple per element. */
  lemma {:induction false} IndexSetLength(shape: Shape)
    ensures |IndexSet(shape)| == Product(shape)
  {
    if |shape| > 0 {
      var s, m := shape[..|shape| - 1], shape[|shape| - 1];
      assert shape == s + [m];
      IndexSetLength(s);
      IndexSetAppend(s, m);
      ExtendLength(IndexSet(s), Range(m));
    }
  }

  /**
   * Tuple n of the index set is in bounds and has row-major offset n: walking
   * the index set visits offsets 0, 1, 2, ... with no gap and no overlap.
   */
  lemma {:induction false} IndexSetAt(shape: Shape, n: nat)
    requires n < |IndexSet(shape)|
    ensures InBounds(IndexSet(shape)[n], shape)
    ensures ElemOffset(StridesFromSizes(shape), IndexSet(shape)[n]) == n
  {
    if |shape| > 0 {
      var s, m := shape[..|shape| - 1], shape[|shape| - 1];
      assert shape == s + [m];
      IndexSetAppend(s, m);
      ExtendAtIndex(IndexSet(s), Range(m), n);
      ExtendLength(IndexSet(s), Range(m));
      DivModSplit(n, m, |IndexSet(s)|);
      var a, b := n / m, n % m;
      IndexSetAt(s, a);
      var x := IndexSet(s)[a];
      assert IndexSet(shape)[n] == x + [b];
      ElemOffsetAppend(s, m, x, b);
    }
  }

  /** Row-major offset of an index tuple in a tensor of the given shape. */
  function Offset(shape: Shape, indexes: seq<int>): int
    requires |indexes| <= |shape|
  {
    ElemOffset(StridesFromSizes(shape), indexes)
  }

  /** Every in-bounds index tuple occurs in the index set, at the position of its offset. */
  lemma IndexSetComplete(shape: Shape, indexes: seq<int>)
    requires InBounds(indexes, shape)
    ensures 0 <= ElemOffset(StridesFromSizes(shape), indexes) < |IndexSet(shape)|
    ensures IndexSet(shape)[ElemOffset(StridesFromSizes(shape), indexes)] == indexes
  {
    ElemOffsetInRange(shape, indexes);
    IndexSetLength(shape);
    var n := ElemOffset(StridesFromSizes(shape), indexes);
    IndexSetAt(shape, n);
    ElemOffsetInjective(shape, IndexSet(shape)[n], indexes);
  }
  /** The index set lists every in-bounds tuple exactly once, tuple n being the one at row-major offset n. */
  lemma IndexSetExactlyOnce(shape: Shape)
    ensures |IndexSet(shape)| == Product(shape)
    ensures forall n :: 0 <= n < |IndexSet(shape)| ==> InBounds(IndexSet(shape)[n], shape) && Offset(shape, IndexSet(shape)[n]) == n
    ensures forall i :: InBounds(i, shape) ==> 0 <= Offset(shape, i) < |IndexSet(shape)| && IndexSet(shape)[Offset(shape, i)] == i
  {
    IndexSetLength(shape);
    forall n | 0 <= n < |IndexSet(shape)|
      ensures InBounds(IndexSet(shape)[n], shape) && Offset(shape, IndexSet(shape)[n]) == n
    {
      IndexSetAt(shape, n);
    }
    forall i | InBounds(i, shape)
      ensures 0 <= Offset(shape, i) < |IndexSet(shape)| && IndexSet(shape)[Offset(shape, i)] == i
    {
      IndexSetComplete(shape, i);
    }
  }


  // ---------------------------------------------------------------------------
  // The descriptor
  // ---------------------------------------------------------------------------

  const ONNX_TYPE_UNDEFINED: int := 0

  /** A data buffer (the memory behind the descriptor's void* data pointer). */
  class DataBuffer {
    const byteSize: nat

    constructor (byteSize: nat)
      ensures this.byteSize == byteSize
    {
      this.byteSize := byteSize;
    }
  }

  /**
   * An OMTensor: a data buffer, its
   * aligned view, the offset of the first element, the size and stride
   * arrays, the element type tag, the rank, and whether the descriptor owns
   * (and must free) the data buffer.
   */
  class OMTensor {
    var data: DataBuffer?
    var alignedData: DataBuffer?
    var offset: int
    const dataSizes: array<int>
    const dataStrides: array<int>
    var dataType: int
    const rank: nat
    var owningData: bool

    ghost predicate Valid()
      reads this
    {
      && dataSizes.Length == rank && dataStrides.Length == rank && dataSizes != dataStrides
    }

    /** OMTensor(rank): allocates the size and stride arrays; no data buffer, nothing owned. */
    constructor (rank: nat)
      ensures Valid()
      ensures fresh(dataSizes) && fresh(dataStrides)
      ensures this.rank == rank && offset == 0
      ensures data == null && alignedData == null
      ensures dataType == ONNX_TYPE_UNDEFINED && !owningData
    {
      dataSizes := new int[rank];
      dataStrides := new int[rank];
      data := null;
      alignedData := null;
      offset := 0;
      dataType := ONNX_TYPE_UNDEFINED;
      this.rank := rank;
      owningData := false;
    }

    /**
     * ~OMTensor: the set of objects released. The data buffer is released
     * exactly when the descriptor owns it; the size and stride arrays always are.
     */
    method Destroy() returns (freed: set<object>)
      requires Valid()
      ensures dataSizes in freed && dataStrides in freed
      ensures data != null ==> (data in freed <==> owningData)
      ensures forall o :: o in freed ==> o == dataSizes || o == dataStrides || o == data
    {
      freed := {dataSizes, dataStrides};
      if owningData && data != null {
        freed := freed + {data};
      }
    }

    /**
     * omTensorSetData: installs a buffer that the caller manages, so the
     * descriptor will never release it.
     */
    method SetData(d: DataBuffer)
      requires Valid()
      modifies this
      ensures Valid()
      ensures data == d && !owningData
      ensures alignedData == old(alignedData) && offset == old(offset) && dataType == old(dataType)
    {
      data := d;
      owningData := false;
    }

    /** omTensorGetNumElems: the product of the sizes. */
    method GetNumElems() returns (n: int)
      requires Valid()
      ensures n == Product(dataSizes[..])
    {
      n := GetNumOfElems(dataSizes, rank);
      assert dataSizes[..rank] == dataSizes[..];
    }

    /** omTensorGetDataBufferSize: element count times the element byte width. */
    method GetDataBufferSize(elemByteWidth: nat) returns (bytes: int)
      requires Valid()
      ensures bytes == Product(dataSizes[..]) * elemByteWidth
    {
      var n := GetNumElems();
      bytes := n * elemByteWidth;
    }

    /** omTensorComputeStridesFromShape: row-major strides of the current sizes. */
    function ComputeStridesFromShape(): (r: seq<int>)
      requires Valid()
      reads this, dataSizes
      ensures |r| == rank
      ensures forall i :: 0 <= i < rank ==> r[i] == Product(dataSizes[i + 1..])
    {
      var r := StridesFromSizes(dataSizes[..]);
      forall i | 0 <= i < rank ensures r[i] == Product(dataSizes[i + 1..]) {
        StrideIsSuffixProduct(dataSizes[..], i);
        assert dataSizes[..][i + 1..] == dataSizes[i + 1..];
      }
      r
    }

    /**
     * omTensorComputeElemOffset: offset of an index tuple under the
     * descriptor's strides. With row-major strides and an in-bounds tuple the
     * offset addresses an element of the buffer.
     */
    function ComputeElemOffset(indexes: seq<int>): (r: int)
      requires Valid() && |indexes| <= rank
      reads this, dataStrides, dataSizes
      ensures |indexes| == rank && (forall j :: 0 <= j < rank ==> 0 <= indexes[j] < dataSizes[j])
              && dataStrides[..] == StridesFromSizes(dataSizes[..])
              ==> 0 <= r < Product(dataSizes[..])
    {
      if |indexes| == rank && (forall j :: 0 <= j < rank ==> 0 <= indexes[j] < dataSizes[j])
         && dataStrides[..] == StridesFromSizes(dataSizes[..]) then
        var shape: Shape := seq(rank, j requires 0 <= j < rank && dataSizes[j] >= 0 reads dataSizes => dataSizes[j] as nat);
        assert shape == dataSizes[..];
        ElemOffsetInRange(shape, indexes);
        ElemOffset(dataStrides[..], indexes)
      else
        ElemOffset(dataStrides[..], indexes)
    }

    /**
     * omTensorComputeIndexSet: every valid index tuple of the tensor, each
     * exactly once, in row-major order: tuple n is the one whose row-major
     * offset is n.
     */
    method ComputeIndexSet() returns (idxs: seq<seq<int>>)
      requires Valid()
      requires forall j :: 0 <= j < rank ==> dataSizes[j] >= 0
      ensures |idxs| == Product(dataSizes[..])
      ensures forall n :: 0 <= n < |idxs| ==> InBounds(idxs[n], dataSizes[..]) && Offset(dataSizes[..], idxs[n]) == n
      ensures forall i :: InBounds(i, dataSizes[..]) ==> 0 <= Offset(dataSizes[..], i) < |idxs| && idxs[Offset(dataSizes[..], i)] == i
    {
      var shape: Shape := seq(rank, j requires 0 <= j < rank && dataSizes[j] >= 0 reads dataSizes => dataSizes[j] as nat);
      assert shape == dataSizes[..];
      idxs := CartProduct(Ranges(shape));
      IndexSetExactlyOnce(shape);
    }
  }
}
