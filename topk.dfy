/** Shape inference for the ONNX TopK operator (ONNXTopKOpShapeHelper::computeShape). */
module TopK {

  import opened IndexExprs
  import opened Results

  const K_UNDEFINED := "K input parameter could not be processed"
  const K_OUT_OF_BOUND := "K value is out of bound"

  /** A negative axis counts from the end. */
  function NormalizeAxis(axis: int, rank: nat): int
  {
    if axis < 0 then axis + rank else axis
  }

  /**
   * computeShape: the dimensions of both outputs (values and indices share
   * one list), given the dimensions of X, the axis attribute and K.
   */
  function ComputeShape(xDims: seq<IndexExpr>, axisAttr: int, k: IndexExpr): (r: Result<seq<IndexExpr>>)
    requires -|xDims| <= axisAttr < |xDims|
    ensures var axis := NormalizeAxis(axisAttr, |xDims|);
      && 0 <= axis < |xDims|
      && (r == Failure(K_UNDEFINED) <==> k.IsUndefined())
      && (r == Failure(K_OUT_OF_BOUND) <==>
            !k.IsUndefined() && k.IsLiteral() && xDims[axis].IsLiteral() && k.GetLiteral() >= xDims[axis].GetLiteral())
      && (r.Success? ==> |r.value| == |xDims| && r.value[axis] == k
                         && forall i :: 0 <= i < |xDims| && i != axis ==> r.value[i] == xDims[i])
  {
    var rank := |xDims|;
    var axis := NormalizeAxis(axisAttr, rank);
    if k.IsUndefined() then
      Failure(K_UNDEFINED)
    else if k.IsLiteral() && xDims[axis].IsLiteral() && k.GetLiteral() >= xDims[axis].GetLiteral() then
      Failure(K_OUT_OF_BOUND)
    else
      Success(seq(rank, i requires 0 <= i < rank => if i == axis then k else xDims[i]))
  }

  /**
   * The shape rule of the ONNX TopK operator definition: the axis dimension
   * is replaced by K, and a literal K larger than a literal axis dimension is
   * an error. (K equal to the dimension is allowed there.)
   */
  function OnnxTopKShape(xDims: seq<IndexExpr>, axisAttr: int, k: IndexExpr): Result<seq<IndexExpr>>
    requires -|xDims| <= axisAttr < |xDims|
  {
    var axis := NormalizeAxis(axisAttr, |xDims|);
    if k.IsUndefined() then Failure(K_UNDEFINED)
    else if k.IsLiteral() && xDims[axis].IsLiteral() && k.GetLiteral() > xDims[axis].GetLiteral() then
      Failure(K_OUT_OF_BOUND)
    else Success(xDims[axis := k])
  }

  /**
   * The lowering's shape agrees with the ONNX rule everywhere except that it
   * also rejects a literal K equal to a literal axis dimension.
   */
  lemma AgreesWithOnnxExceptKEqualsDim(xDims: seq<IndexExpr>, axisAttr: int, k: IndexExpr)
    requires -|xDims| <= axisAttr < |xDims|
    ensures var axis := NormalizeAxis(axisAttr, |xDims|);
      var kEqualsDim := k.IsLiteral() && xDims[axis].IsLiteral() && k.GetLiteral() == xDims[axis].GetLiteral();
      && (ComputeShape(xDims, axisAttr, k).Success? <==> OnnxTopKShape(xDims, axisAttr, k).Success? && !kEqualsDim)
      && (ComputeShape(xDims, axisAttr, k).Success? ==> ComputeShape(xDims, axisAttr, k) == OnnxTopKShape(xDims, axisAttr, k))
  {
    var r := ComputeShape(xDims, axisAttr, k);
    if r.Success? {
      var axis := NormalizeAxis(axisAttr, |xDims|);
      assert r.value == xDims[axis := k];
    }
  }

  /** When K or the axis dimension is only known at run time, no bound check is made. */
  lemma NoBoundCheckUnlessBothLiteral(xDims: seq<IndexExpr>, axisAttr: int, k: IndexExpr)
    requires -|xDims| <= axisAttr < |xDims|
    requires !k.IsUndefined()
    requires !k.IsLiteral() || !xDims[NormalizeAxis(axisAttr, |xDims|)].IsLiteral()
    ensures ComputeShape(xDims, axisAttr, k).Success?
  {
  }

  /** X of shape (3, 6), axis 1: K = 2 gives (3, 2); K = 6 is out of bound. */
  lemma Example3x6()
    ensures ComputeShape([Literal(3), Literal(6)], 1, Literal(2)) == Success([Literal(3), Literal(2)])
    ensures ComputeShape([Literal(3), Literal(6)], 1, Literal(6)) == Failure(K_OUT_OF_BOUND)
    ensures ComputeShape([Literal(3), Literal(6)], -1, Literal(2)) == Success([Literal(3), Literal(2)])
  {
    var r := ComputeShape([Literal(3), Literal(6)], 1, Literal(2));
    assert r.value == [Literal(3), Literal(2)];
    var r2 := ComputeShape([Literal(3), Literal(6)], -1, Literal(2));
    assert r2.value == [Literal(3), Literal(2)];
  }
}
