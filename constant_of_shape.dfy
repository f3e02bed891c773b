/**
 * Lowering of the ONNX ConstantOfShape operator
 * (ONNXConstantOfShapeOpLowering): the output is allocated with the static
 * shape of its type, or, when some dimension is dynamic, with every
 * dimension loaded from the 1-D shape input; then every element is set to
 * the first element of the `value` attribute.
 */
module ConstantOfShape {

  import opened Runtime

  /**
   * The dimensions of the output memref type: a non-negative extent when
   * known statically, a negative marker when dynamic.
   */
  predicate HasAllConstantDimensions(typeShape: seq<int>)
  {
    forall i :: 0 <= i < |typeShape| ==> typeShape[i] >= 0
  }

  /** Loads the extent of every output dimension from the shape input and casts it to an index. */
  method LoadDims(input: seq<int>, rank: nat) returns (allocOperands: Shape)
    requires rank <= |input|
    requires forall i :: 0 <= i < rank ==> input[i] >= 0
    ensures |allocOperands| == rank
    ensures forall i :: 0 <= i < rank ==> allocOperands[i] == input[i]
  {
    allocOperands := [];
    var i := 0;
    while i < rank
      invariant 0 <= i <= rank && |allocOperands| == i
      invariant forall j :: 0 <= j < i ==> allocOperands[j] == input[j]
    {
      var dim := input[i];
      allocOperands := allocOperands + [dim];
      i := i + 1;
    }
  }

  /** The extents the output is allocated with. */
  method OutputDims(typeShape: seq<int>, input: seq<int>) returns (dims: Shape)
    requires !HasAllConstantDimensions(typeShape) ==>
      |typeShape| <= |input| && forall i :: 0 <= i < |typeShape| ==> input[i] >= 0
    ensures |dims| == |typeShape|
    ensures HasAllConstantDimensions(typeShape) ==> forall i :: 0 <= i < |dims| ==> dims[i] == typeShape[i]
    ensures !HasAllConstantDimensions(typeShape) ==> forall i :: 0 <= i < |dims| ==> dims[i] == input[i]
  {
    if HasAllConstantDimensions(typeShape) {
      dims := seq(|typeShape|, i requires 0 <= i < |typeShape| && typeShape[i] >= 0 => typeShape[i] as nat);
    } else {
      dims := LoadDims(input, |typeShape|);
    }
  }

  /**
   * Stores the constant into every element: through a loop nest over the
   * output shape, or with a single store when the output is a scalar.
   */
  method FillConstant(alloc: array<int>, dims: Shape, constantVal: int)
    requires alloc.Length == Product(dims)
    modifies alloc
    ensures forall k :: 0 <= k < alloc.Length ==> alloc[k] == constantVal
  {
    if |dims| == 0 {
      alloc[Offset(dims, [])] := constantVal;
    } else {
      var idxs := IndexSet(dims);
      IndexSetLength(dims);
      var n := 0;
      while n < |idxs|
        invariant 0 <= n <= |idxs|
        invariant forall m :: 0 <= m < n ==> alloc[m] == constantVal
      {
        IndexSetAt(dims, n);
        alloc[Offset(dims, idxs[n])] := constantVal;
        n := n + 1;
      }
    }
  }

  /**
   * The ConstantOfShape lowering for an integer element type: the output has
   * the allocated extents and holds value[0] everywhere.
   */
  method LowerConstantOfShape(typeShape: seq<int>, input: seq<int>, value: seq<int>) returns (dims: Shape, out: seq<int>)
    requires |value| >= 1
    requires !HasAllConstantDimensions(typeShape) ==>
      |typeShape| <= |input| && forall i :: 0 <= i < |typeShape| ==> input[i] >= 0
    ensures |dims| == |typeShape|
    ensures HasAllConstantDimensions(typeShape) ==> forall i :: 0 <= i < |dims| ==> dims[i] == typeShape[i]
    ensures !HasAllConstantDimensions(typeShape) ==> forall i :: 0 <= i < |dims| ==> dims[i] == input[i]
    ensures |out| == Product(dims)
    ensures forall k :: 0 <= k < |out| ==> out[k] == value[0]
  {
    dims := OutputDims(typeShape, input);
    ProductNonNegative(dims);
    var alloc := new int[Product(dims)];
    var constantVal := value[0];
    FillConstant(alloc, dims, constantVal);
    out := alloc[..];
  }

  /** A scalar output holds exactly one element, the constant. */
  lemma ScalarOutput(dims: Shape, out: seq<int>, c: int)
    requires |dims| == 0 && |out| == Product(dims)
    requires forall k :: 0 <= k < |out| ==> out[k] == c
    ensures out == [c]
  {
  }

  /** Every element of the output, addressed by its index tuple, is the constant. */
  lemma ConstantAtEveryIndex(dims: Shape, out: seq<int>, c: int, i: seq<int>)
    requires |out| == Product(dims)
    requires forall k :: 0 <= k < |out| ==> out[k] == c
    requires InBounds(i, dims)
    ensures 0 <= Offset(dims, i) < |out| && out[Offset(dims, i)] == c
  {
    ElemOffsetInRange(dims, i);
  }
}
