/**
 * Lowering of the ONNX Slice operator (ONNXSliceOpLowering): one loop nest
 * over the output shape; output element i is loaded from the data tensor at
 * step * i + start in every dimension and stored at i.
 */
module Slice {

  import opened Ints
  import opened Runtime

  /** Load indices: step * i + start in every dimension. */
  function LoadIndex(i: seq<int>, starts: seq<int>, steps: seq<int>): (r: seq<int>)
    requires |i| <= |starts| && |i| <= |steps|
    ensures |r| == |i|
    ensures forall d :: 0 <= d < |i| ==> r[d] == steps[d] * i[d] + starts[d]
  {
    seq(|i|, d requires 0 <= d < |i| => steps[d] * i[d] + starts[d])
  }

  /**
   * What the Slice shape helper establishes about starts and steps: along
   * every non-empty output dimension the first and the last loaded position
   * lie inside the data tensor.
   */
  predicate SliceParams(inShape: Shape, outShape: Shape, starts: seq<int>, steps: seq<int>)
  {
    && |inShape| == |outShape| == |starts| == |steps|
    && forall d :: 0 <= d < |outShape| && outShape[d] > 0 ==>
         && 0 <= starts[d] < inShape[d]
         && 0 <= starts[d] + steps[d] * (outShape[d] - 1) < inShape[d]
  }

  /** An affine function of i in [0, n) stays between its values at 0 and n - 1. */
  lemma AffineBetween(start: int, step: int, i: int, n: int)
    requires 0 <= i < n
    ensures step >= 0 ==> start <= step * i + start <= step * (n - 1) + start
    ensures step < 0 ==> step * (n - 1) + start <= step * i + start <= start
  {
    if step >= 0 {
      MulLeMono(i, n - 1, step);
      MulLeMono(0, i, step);
    } else {
      MulLeMono(i, n - 1, -step);
      MulLeMono(0, i, -step);
    }
  }

  /** Every load of the loop nest reads inside the data tensor. */
  lemma LoadIndexInBounds(inShape: Shape, outShape: Shape, starts: seq<int>, steps: seq<int>, i: seq<int>)
    requires SliceParams(inShape, outShape, starts, steps)
    requires InBounds(i, outShape)
    ensures InBounds(LoadIndex(i, starts, steps), inShape)
  {
    var r := LoadIndex(i, starts, steps);
    forall d | 0 <= d < |r| ensures 0 <= r[d] < inShape[d] {
      AffineBetween(starts[d], steps[d], i[d], outShape[d]);
    }
  }

  /** The data element that belongs at output index tuple i. */
  function SliceAt(data: seq<int>, inShape: Shape, outShape: Shape, starts: seq<int>, steps: seq<int>, i: seq<int>): int
    requires SliceParams(inShape, outShape, starts, steps)
    requires |data| == Product(inShape)
    requires InBounds(i, outShape)
  {
    LoadIndexInBounds(inShape, outShape, starts, steps, i);
    var j := LoadIndex(i, starts, steps);
    ElemOffsetInRange(inShape, j);
    data[Offset(inShape, j)]
  }

  /** The data element that belongs at position n of the output, in row-major order. */
  function SliceAtPosition(data: seq<int>, inShape: Shape, outShape: Shape, starts: seq<int>, steps: seq<int>, n: nat): int
    requires SliceParams(inShape, outShape, starts, steps)
    requires |data| == Product(inShape) && n < Product(outShape)
  {
    IndexSetLength(outShape);
    IndexSetAt(outShape, n);
    SliceAt(data, inShape, outShape, starts, steps, IndexSet(outShape)[n])
  }

  /** The whole output in row-major order. */
  function SliceValues(data: seq<int>, inShape: Shape, outShape: Shape, starts: seq<int>, steps: seq<int>): (r: seq<int>)
    requires SliceParams(inShape, outShape, starts, steps)
    requires |data| == Product(inShape)
    ensures |r| == Product(outShape)
    ensures forall n :: 0 <= n < |r| ==> r[n] == SliceAtPosition(data, inShape, outShape, starts, steps, n)
  {
    ProductNonNegative(outShape);
    seq(Product(outShape), n requires 0 <= n < Product(outShape) => SliceAtPosition(data, inShape, outShape, starts, steps, n))
  }

  /** The load and store indices of one iteration, built one dimension at a time. */
  method ComputeIndices(iv: seq<int>, starts: seq<int>, steps: seq<int>) returns (loadIndices: seq<int>, storeIndices: seq<int>)
    requires |iv| <= |starts| && |iv| <= |steps|
    ensures loadIndices == LoadIndex(iv, starts, steps)
    ensures storeIndices == iv
  {
    loadIndices, storeIndices := [], [];
    var ii := 0;
    while ii < |iv|
      invariant 0 <= ii <= |iv|
      invariant |loadIndices| == ii && forall d :: 0 <= d < ii ==> loadIndices[d] == steps[d] * iv[d] + starts[d]
      invariant storeIndices == iv[..ii]
    {
      loadIndices := loadIndices + [steps[ii] * iv[ii] + starts[ii]];
      storeIndices := storeIndices + [iv[ii]];
      ii := ii + 1;
    }
  }

  /** One iteration of the loop nest: load the data element for iv. */
  method LoadElement(data: seq<int>, inShape: Shape, outShape: Shape, starts: seq<int>, steps: seq<int>, iv: seq<int>)
    returns (loadVal: int, storeIndices: seq<int>)
    requires SliceParams(inShape, outShape, starts, steps)
    requires |data| == Product(inShape) && InBounds(iv, outShape)
    ensures loadVal == SliceAt(data, inShape, outShape, starts, steps, iv)
    ensures storeIndices == iv
  {
    var loadIndices;
    loadIndices, storeIndices := ComputeIndices(iv, starts, steps);
    LoadIndexInBounds(inShape, outShape, starts, steps, iv);
    ElemOffsetInRange(inShape, loadIndices);
    loadVal := data[Offset(inShape, loadIndices)];
  }

  /** The element the output holds at the offset of in-bounds tuple i is the slice element for i. */
  lemma SliceValuesAtOffset(data: seq<int>, inShape: Shape, outShape: Shape, starts: seq<int>, steps: seq<int>, i: seq<int>)
    requires SliceParams(inShape, outShape, starts, steps)
    requires |data| == Product(inShape) && InBounds(i, outShape)
    ensures 0 <= Offset(outShape, i) < Product(outShape)
    ensures SliceValues(data, inShape, outShape, starts, steps)[Offset(outShape, i)] == SliceAt(data, inShape, outShape, starts, steps, i)
  {
    IndexSetComplete(outShape, i);
    IndexSetLength(outShape);
  }

  /** Iteration n of the loop nest: the element for index tuple n is loaded and stored at its offset, which is n. */
  method CopyElement(data: seq<int>, inShape: Shape, outShape: Shape, starts: seq<int>, steps: seq<int>, alloc: array<int>, n: nat)
    requires SliceParams(inShape, outShape, starts, steps)
    requires |data| == Product(inShape) && alloc.Length == Product(outShape) && n < alloc.Length
    modifies alloc
    ensures alloc[..] == old(alloc[..])[n := SliceValues(data, inShape, outShape, starts, steps)[n]]
  {
    IndexSetLength(outShape);
    IndexSetAt(outShape, n);
    var loadVal, storeIndices := LoadElement(data, inShape, outShape, starts, steps, IndexSet(outShape)[n]);
    alloc[Offset(outShape, storeIndices)] := loadVal;
  }

  /** The loop nest of the lowering, storing into the freshly allocated output. */
  method CopySlice(data: seq<int>, inShape: Shape, outShape: Shape, starts: seq<int>, steps: seq<int>, alloc: array<int>)
    requires SliceParams(inShape, outShape, starts, steps)
    requires |data| == Product(inShape) && alloc.Length == Product(outShape)
    modifies alloc
    ensures alloc[..] == SliceValues(data, inShape, outShape, starts, steps)
  {
    ghost var values := SliceValues(data, inShape, outShape, starts, steps);
    var n := 0;
    while n < alloc.Length
      invariant 0 <= n <= alloc.Length
      invariant forall m :: 0 <= m < n ==> alloc[m] == values[m]
    {
      CopyElement(data, inShape, outShape, starts, steps, alloc, n);
      n := n + 1;
    }
  }

  /**
   * The Slice lowering: allocates the output of the shape the shape helper
   * computed and fills it with the loop nest.
   */
  method LowerSlice(data: seq<int>, inShape: Shape, outShape: Shape, starts: seq<int>, steps: seq<int>) returns (out: seq<int>)
    requires SliceParams(inShape, outShape, starts, steps)
    requires |data| == Product(inShape)
    ensures |out| == Product(outShape)
    ensures forall i :: InBounds(i, outShape) ==>
      0 <= Offset(outShape, i) < |out| && out[Offset(outShape, i)] == SliceAt(data, inShape, outShape, starts, steps, i)
  {
    ProductNonNegative(outShape);
    var alloc := new int[Product(outShape)];
    CopySlice(data, inShape, outShape, starts, steps, alloc);
    out := alloc[..];
    forall i | InBounds(i, outShape)
      ensures 0 <= Offset(outShape, i) < |out| && out[Offset(outShape, i)] == SliceAt(data, inShape, outShape, starts, steps, i)
    {
      SliceValuesAtOffset(data, inShape, outShape, starts, steps, i);
    }
  }

  /** In one dimension, output element k is data[step * k + start]. */
  lemma SliceOneDimension(data: seq<int>, n: nat, m: nat, start: int, step: int, k: int)
    requires SliceParams([n], [m], [start], [step]) && |data| == Product([n])
    requires 0 <= k < m
    ensures 0 <= step * k + start < |data|
    ensures SliceAt(data, [n], [m], [start], [step], [k]) == data[step * k + start]
  {
    LoadIndexInBounds([n], [m], [start], [step], [k]);
    var j := step * k + start;
    assert LoadIndex([k], [start], [step]) == [j];
    assert Product([n]) == n by { assert [n][..0] == []; }
    assert StridesFromSizes([n]) == [1];
    assert ElemOffset([1], [j]) == j by { assert [j][..0] == []; }
  }

  /** Data of length 10 sliced with start 2 and step 3 into 3 elements reads positions 2, 5 and 8. */
  lemma SliceExample(data: seq<int>)
    requires |data| == 10
    ensures Product([10]) == 10 && Product([3]) == 3
    ensures SliceParams([10], [3], [2], [3])
    ensures SliceAt(data, [10], [3], [2], [3], [0]) == data[2]
    ensures SliceAt(data, [10], [3], [2], [3], [1]) == data[5]
    ensures SliceAt(data, [10], [3], [2], [3], [2]) == data[8]
  {
    assert [10][..0] == [] && [3][..0] == [];
    SliceOneDimension(data, 10, 3, 2, 3, 0);
    SliceOneDimension(data, 10, 3, 2, 3, 1);
    SliceOneDimension(data, 10, 3, 2, 3, 2);
  }

  /** Start 0 and step 1 over the whole data shape copies the tensor unchanged. */
  lemma SliceIdentity(data: seq<int>, shape: Shape, starts: seq<int>, steps: seq<int>, i: seq<int>)
    requires |starts| == |steps| == |shape|
    requires forall d :: 0 <= d < |shape| ==> starts[d] == 0 && steps[d] == 1
    requires |data| == Product(shape) && InBounds(i, shape)
    ensures SliceParams(shape, shape, starts, steps)
    ensures 0 <= Offset(shape, i) < |data|
    ensures SliceAt(data, shape, shape, starts, steps, i) == data[Offset(shape, i)]
  {
    forall d | 0 <= d < |shape|
      ensures shape[d] == 0 || 0 <= starts[d] + steps[d] * (shape[d] - 1) < shape[d]
      ensures d < |i| ==> steps[d] * i[d] + starts[d] == i[d]
    {
    }
    assert LoadIndex(i, starts, steps) == i;
    ElemOffsetInRange(shape, i);
  }
}
