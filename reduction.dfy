/**
 * Lowering of the ONNX reduction operators (ReduceMax, ReduceMin,
 * ReduceProd, ReduceSumV11, ReduceMean through ONNXReductionOpLowering, and
 * ReduceSum with its axes operand through ONNXReduceSumOpLowering), for an
 * integer element type of width w.
 *
 * Each lowering normalises and de-duplicates the axes, fills the output with
 * the identity of the reduction, walks every input element in row-major
 * order combining it into the output element its index maps to, and for
 * ReduceMean divides every output element by the number of inputs per
 * output.
 */
module Reduction {

  import opened Ints
  import opened Runtime
  import opened Results

  datatype ReduceOp = ReduceMax | ReduceMin | ReduceProd | ReduceSumV11 | ReduceSum | ReduceMean

  const AXES_OUT_OF_RANGE := "axes value out of range"
  const KEEPDIMS_NOT_IMPLEMENTED := "not keepdims() not implemented"

  // ---------------------------------------------------------------------------
  // Identity values and scalar operations
  // ---------------------------------------------------------------------------

  /**
   * getIdentityValue for an integer element type: -inf and +inf become the
   * smallest and largest w-bit values; the constant 1 of ReduceProd is
   * emitted at width w.
   */
  function IdentityValue(op: ReduceOp, w: Width): (r: int)
    ensures InRange(w, r)
  {
    match op
    case ReduceMax => MinInt(w)
    case ReduceMin => MaxInt(w)
    case ReduceProd => Wrap(w, 1)
    case _ => 0
  }

  /**
   * emitScalarOpFor / ScalarOp on integers: `cmpi sgt` + select for ReduceMax,
   * `cmpi slt` + select for ReduceMin, `muli` for ReduceProd and `addi` for
   * the sums and the mean.
   */
  function ScalarOp(op: ReduceOp, w: Width, lhs: int, rhs: int): (r: int)
    ensures op == ReduceMax ==> r >= lhs && r >= rhs && (r == lhs <==> lhs >= rhs)
    ensures op == ReduceMin ==> r <= lhs && r <= rhs && (r == lhs <==> lhs <= rhs)
    ensures op == ReduceProd ==> r == MulI(w, lhs, rhs)
    ensures op in {ReduceSumV11, ReduceSum, ReduceMean} ==> r == AddI(w, lhs, rhs)
  {
    match op
    case ReduceMax => if lhs > rhs then lhs else rhs
    case ReduceMin => if lhs < rhs then lhs else rhs
    case ReduceProd => MulI(w, lhs, rhs)
    case _ => AddI(w, lhs, rhs)
  }

  /** The identity value is neutral for the scalar operation on w-bit values. */
  lemma IdentityIsNeutral(op: ReduceOp, w: Width, x: int)
    requires InRange(w, x)
    ensures ScalarOp(op, w, IdentityValue(op, w), x) == x
  {
    if op == ReduceProd {
      WrapMulLeft(w, 1, x);
    }
  }

  /** The scalar operation keeps w-bit operands w-bit. */
  lemma ScalarOpInRange(op: ReduceOp, w: Width, lhs: int, rhs: int)
    requires InRange(w, lhs) && InRange(w, rhs)
    ensures InRange(w, ScalarOp(op, w, lhs, rhs))
  {
  }

  /** Combining the elements of s one after the other into acc, in order. */
  function Fold(op: ReduceOp, w: Width, acc: int, s: seq<int>): int
  {
    if |s| == 0 then acc else ScalarOp(op, w, Fold(op, w, acc, s[..|s| - 1]), s[|s| - 1])
  }

  lemma FoldSnoc(op: ReduceOp, w: Width, acc: int, s: seq<int>, x: int)
    ensures Fold(op, w, acc, s + [x]) == ScalarOp(op, w, Fold(op, w, acc, s), x)
  {
    assert (s + [x])[..|s|] == s;
  }

  function Sum(s: seq<int>): int
  {
    if |s| == 0 then 0 else Sum(s[..|s| - 1]) + s[|s| - 1]
  }

  /** The sums and the mean accumulate the wrapped total of the group. */
  lemma {:induction false} FoldIsWrappedSum(op: ReduceOp, w: Width, s: seq<int>)
    requires op in {ReduceSumV11, ReduceSum, ReduceMean}
    ensures Fold(op, w, IdentityValue(op, w), s) == Wrap(w, Sum(s))
  {
    if |s| > 0 {
      var p := s[..|s| - 1];
      FoldIsWrappedSum(op, w, p);
      WrapAddLeft(w, Sum(p), s[|s| - 1]);
    }
  }

  /** ReduceProd accumulates the wrapped product of the group. */
  lemma {:induction false} FoldIsWrappedProduct(w: Width, s: seq<int>)
    ensures Fold(ReduceProd, w, IdentityValue(ReduceProd, w), s) == Wrap(w, Product(s))
  {
    if |s| > 0 {
      var p := s[..|s| - 1];
      FoldIsWrappedProduct(w, p);
      WrapMulLeft(w, Product(p), s[|s| - 1]);
    }
  }

  /** ReduceMax of a group of w-bit values is its maximum (MinInt for an empty group). */
  lemma {:induction false} FoldIsMaximum(w: Width, s: seq<int>)
    requires forall k :: 0 <= k < |s| ==> InRange(w, s[k])
    ensures var r := Fold(ReduceMax, w, IdentityValue(ReduceMax, w), s);
      && (forall k :: 0 <= k < |s| ==> s[k] <= r)
      && (if |s| == 0 then r == MinInt(w) else r in s)
  {
    if |s| > 0 {
      var p := s[..|s| - 1];
      FoldIsMaximum(w, p);
      var rp := Fold(ReduceMax, w, IdentityValue(ReduceMax, w), p);
      assert forall k :: 0 <= k < |p| ==> s[k] == p[k];
    }
  }

  /** ReduceMin of a group of w-bit values is its minimum (MaxInt for an empty group). */
  lemma {:induction false} FoldIsMinimum(w: Width, s: seq<int>)
    requires forall k :: 0 <= k < |s| ==> InRange(w, s[k])
    ensures var r := Fold(ReduceMin, w, IdentityValue(ReduceMin, w), s);
      && (forall k :: 0 <= k < |s| ==> r <= s[k])
      && (if |s| == 0 then r == MaxInt(w) else r in s)
  {
    if |s| > 0 {
      var p := s[..|s| - 1];
      FoldIsMinimum(w, p);
      assert forall k :: 0 <= k < |p| ==> s[k] == p[k];
    }
  }

  // ---------------------------------------------------------------------------
  // Axes
  // ---------------------------------------------------------------------------

  predicate AxisInRange(axis: int, inRank: nat)
  {
    -(inRank as int) <= axis <= inRank as int - 1
  }

  predicate AllAxesInRange(axes: seq<int>, inRank: nat)
  {
    forall k :: 0 <= k < |axes| ==> AxisInRange(axes[k], inRank)
  }

  /** A negative axis counts from the end. */
  function NormalizeAxis(axis: int, inRank: nat): int
  {
    if axis >= 0 then axis else inRank + axis
  }

  function Normalized(axes: seq<int>, inRank: nat): (r: seq<int>)
    ensures |r| == |axes|
    ensures forall k :: 0 <= k < |axes| ==> r[k] == NormalizeAxis(axes[k], inRank)
  {
    seq(|axes|, k requires 0 <= k < |axes| => NormalizeAxis(axes[k], inRank))
  }

  /** The elements of s in the order of their first occurrence. */
  function Dedup(s: seq<int>): seq<int>
  {
    if |s| == 0 then []
    else
      var d := Dedup(s[..|s| - 1]);
      if s[|s| - 1] in d then d else d + [s[|s| - 1]]
  }

  predicate NoDuplicates(s: seq<int>)
  {
    forall a, b :: 0 <= a < b < |s| ==> s[a] != s[b]
  }

  lemma {:induction false} DedupMeaning(s: seq<int>)
    ensures NoDuplicates(Dedup(s))
    ensures forall x :: x in Dedup(s) <==> x in s
  {
    if |s| > 0 {
      var p := s[..|s| - 1];
      DedupMeaning(p);
      assert s == p + [s[|s| - 1]];
    }
  }

  /** A sequence without duplicates is left as it is. */
  lemma {:induction false} DedupOfDistinct(s: seq<int>)
    requires NoDuplicates(s)
    ensures Dedup(s) == s
  {
    if |s| > 0 {
      var p := s[..|s| - 1];
      DedupOfDistinct(p);
      assert s[|s| - 1] !in p;
      assert s == p + [s[|s| - 1]];
    }
  }

  /**
   * The axes a reduction reduces over: the defined axes, range-checked,
   * normalised and de-duplicated; with no axes defined, none when
   * noop_with_empty_axes is set and every axis otherwise.
   */
  function AxesSpec(definedAxes: seq<int>, inRank: nat, noopWithEmptyAxes: bool): Result<seq<int>>
  {
    if |definedAxes| > 0 then
      if AllAxesInRange(definedAxes, inRank) then Success(Dedup(Normalized(definedAxes, inRank)))
      else Failure(AXES_OUT_OF_RANGE)
    else if noopWithEmptyAxes then Success([])
    else Success(Range(inRank))
  }

  lemma AxesSpecMeaning(definedAxes: seq<int>, inRank: nat, noop: bool)
    ensures var r := AxesSpec(definedAxes, inRank, noop);
      && (r.Failure? <==> !AllAxesInRange(definedAxes, inRank))
      && (r.Failure? ==> r.error == AXES_OUT_OF_RANGE)
      && (r.Success? ==> NoDuplicates(r.value) && forall x :: x in r.value ==> 0 <= x < inRank)
      && (r.Success? && |definedAxes| > 0 ==>
            forall x :: x in r.value <==> exists k :: 0 <= k < |definedAxes| && NormalizeAxis(definedAxes[k], inRank) == x)
      && (|definedAxes| == 0 ==> forall x :: x in r.value <==> !noop && 0 <= x < inRank)
  {
    var r := AxesSpec(definedAxes, inRank, noop);
    if |definedAxes| > 0 && r.Success? {
      var n := Normalized(definedAxes, inRank);
      DedupMeaning(n);
      forall x | x in r.value ensures 0 <= x < inRank {
        var k :| 0 <= k < |n| && n[k] == x;
        assert AxisInRange(definedAxes[k], inRank);
      }
      forall x ensures x in r.value <==> exists k :: 0 <= k < |definedAxes| && NormalizeAxis(definedAxes[k], inRank) == x {
        if x in n {
          var k :| 0 <= k < |n| && n[k] == x;
          assert NormalizeAxis(definedAxes[k], inRank) == x;
        }
        if exists k :: 0 <= k < |definedAxes| && NormalizeAxis(definedAxes[k], inRank) == x {
          var k :| 0 <= k < |definedAxes| && NormalizeAxis(definedAxes[k], inRank) == x;
          assert n[k] == x;
        }
      }
    }
    if |definedAxes| == 0 && !noop {
      forall x ensures x in r.value <==> 0 <= x < inRank {
        if 0 <= x < inRank {
          assert r.value[x] == x;
        }
      }
    }
  }

  /**
   * The axes computation of both lowerings: the first out-of-range axis is an
   * error; a new normalised axis is appended unless already present.
   */
  method ComputeAxes(definedAxes: seq<int>, inRank: nat, noopWithEmptyAxes: bool) returns (r: Result<seq<int>>)
    ensures r == AxesSpec(definedAxes, inRank, noopWithEmptyAxes)
  {
    var axes: seq<int> := [];
    if |definedAxes| > 0 {
      var i := 0;
      while i < |definedAxes|
        invariant 0 <= i <= |definedAxes|
        invariant forall k :: 0 <= k < i ==> AxisInRange(definedAxes[k], inRank)
        invariant axes == Dedup(Normalized(definedAxes[..i], inRank))
      {
        var axis := definedAxes[i];
        if axis < -(inRank as int) || axis > inRank as int - 1 {
          return Failure(AXES_OUT_OF_RANGE);
        }
        var newaxis := if axis >= 0 then axis else inRank + axis;
        assert Normalized(definedAxes[..i + 1], inRank) == Normalized(definedAxes[..i], inRank) + [newaxis];
        if newaxis !in axes {
          axes := axes + [newaxis];
        }
        i := i + 1;
      }
      assert definedAxes[..i] == definedAxes;
    } else if !noopWithEmptyAxes {
      var i := 0;
      while i < inRank
        invariant 0 <= i <= inRank
        invariant axes == Range(i)
      {
        assert Range(i + 1) == Range(i) + [i];
        axes := axes + [i];
        i := i + 1;
      }
    }
    r := Success(axes);
  }

  // ---------------------------------------------------------------------------
  // Reduction mapping and output indices
  // ---------------------------------------------------------------------------

  /**
   * What the reduction mapping (getReductionMapping) provides: output
   * dimension i in the map iterates with input dimension m[i] and has its
   * extent; an output dimension outside the map has extent 1.
   */
  predicate MapInBounds(inShape: Shape, outShape: Shape, m: map<int, int>)
  {
    && (forall i :: i in m ==> 0 <= i < |outShape| && 0 <= m[i] < |inShape| && outShape[i] == inShape[m[i]])
    && (forall i :: 0 <= i < |outShape| && i !in m ==> outShape[i] == 1)
  }

  /** The mapping keeps exactly the input dimensions that are not reduced. */
  predicate ReducesExactly(inShape: Shape, m: map<int, int>, axes: seq<int>)
  {
    && (forall i :: i in m ==> m[i] !in axes)
    && (forall j :: 0 <= j < |inShape| && j !in axes ==> exists i :: i in m && m[i] == j)
  }

  predicate ValidMapping(inShape: Shape, outShape: Shape, m: map<int, int>, axes: seq<int>)
  {
    MapInBounds(inShape, outShape, m) && ReducesExactly(inShape, m, axes)
  }

  /** The output index of an input index: the mapped induction variable, or 0. */
  function OutIndex(iv: seq<int>, inShape: Shape, outShape: Shape, m: map<int, int>): (r: seq<int>)
    requires MapInBounds(inShape, outShape, m) && |iv| == |inShape|
    ensures |r| == |outShape|
  {
    seq(|outShape|, i requires 0 <= i < |outShape| => if i in m then iv[m[i]] else 0)
  }

  lemma OutIndexInBounds(iv: seq<int>, inShape: Shape, outShape: Shape, m: map<int, int>)
    requires MapInBounds(inShape, outShape, m) && InBounds(iv, inShape)
    ensures InBounds(OutIndex(iv, inShape, outShape, m), outShape)
  {
  }

  /**
   * Two input indices update the same output element exactly when they agree
   * on every dimension that is not reduced.
   */
  lemma SameOutIndexIffAgreeOnKeptDims(iv1: seq<int>, iv2: seq<int>, inShape: Shape, outShape: Shape, m: map<int, int>, axes: seq<int>)
    requires ValidMapping(inShape, outShape, m, axes)
    requires |iv1| == |inShape| && |iv2| == |inShape|
    ensures OutIndex(iv1, inShape, outShape, m) == OutIndex(iv2, inShape, outShape, m) <==>
      forall j :: 0 <= j < |inShape| && j !in axes ==> iv1[j] == iv2[j]
  {
    var o1, o2 := OutIndex(iv1, inShape, outShape, m), OutIndex(iv2, inShape, outShape, m);
    if o1 == o2 {
      forall j | 0 <= j < |inShape| && j !in axes ensures iv1[j] == iv2[j] {
        var i :| i in m && m[i] == j;
        assert o1[i] == o2[i];
      }
    }
    if forall j :: 0 <= j < |inShape| && j !in axes ==> iv1[j] == iv2[j] {
      forall i | 0 <= i < |outShape| ensures o1[i] == o2[i] {
        if i in m {
          assert m[i] !in axes;
        }
      }
    }
  }

  /** The examples of the lowering: input (i0, i1, i2), axes [0, 2]. */
  lemma OutIndexExamples(i0: int, i1: int, i2: int)
    requires 0 <= i0 < 2 && 0 <= i1 < 3 && 0 <= i2 < 4
    ensures ValidMapping([2, 3, 4], [1, 3, 1], map[1 := 1], [0, 2])
    ensures OutIndex([i0, i1, i2], [2, 3, 4], [1, 3, 1], map[1 := 1]) == [0, i1, 0]
    ensures ValidMapping([2, 3, 4], [3], map[0 := 1], [0, 2])
    ensures OutIndex([i0, i1, i2], [2, 3, 4], [3], map[0 := 1]) == [i1]
  {
    assert ReducesExactly([2, 3, 4], map[1 := 1], [0, 2]) by {
      forall j | 0 <= j < 3 && j !in [0, 2] ensures exists i :: i in map[1 := 1] && map[1 := 1][i] == j {
        assert j == 1 && 1 in map[1 := 1];
      }
    }
    assert ReducesExactly([2, 3, 4], map[0 := 1], [0, 2]) by {
      forall j | 0 <= j < 3 && j !in [0, 2] ensures exists i :: i in map[0 := 1] && map[0 := 1][i] == j {
        assert j == 1 && 0 in map[0 := 1];
      }
    }
  }

  // ---------------------------------------------------------------------------
  // Reduction groups
  // ---------------------------------------------------------------------------

  /** The output offset the n-th input element (in row-major order) is combined into. */
  function Target(inShape: Shape, outShape: Shape, m: map<int, int>, n: nat): (t: int)
    requires MapInBounds(inShape, outShape, m) && n < Product(inShape)
    ensures 0 <= t < Product(outShape)
  {
    IndexSetLength(inShape);
    IndexSetAt(inShape, n);
    var iv := IndexSet(inShape)[n];
    OutIndexInBounds(iv, inShape, outShape, m);
    ElemOffsetInRange(outShape, OutIndex(iv, inShape, outShape, m));
    Offset(outShape, OutIndex(iv, inShape, outShape, m))
  }

  /** The first n input elements, in row-major order, that are combined into output offset o. */
  function Group(input: seq<int>, inShape: Shape, outShape: Shape, m: map<int, int>, o: int, n: nat): seq<int>
    requires MapInBounds(inShape, outShape, m) && |input| == Product(inShape) && n <= |input|
  {
    if n == 0 then []
    else
      Group(input, inShape, outShape, m, o, n - 1)
        + (if Target(inShape, outShape, m, n - 1) == o then [input[n - 1]] else [])
  }

  /** What a reduction leaves in output offset o: its group combined from the identity. */
  function Reduced(op: ReduceOp, w: Width, input: seq<int>, inShape: Shape, outShape: Shape, m: map<int, int>, o: int): int
    requires MapInBounds(inShape, outShape, m) && |input| == Product(inShape)
  {
    Fold(op, w, IdentityValue(op, w), Group(input, inShape, outShape, m, o, |input|))
  }

  /**
   * Two in-bounds input indices are combined into the same output offset
   * exactly when they agree on every dimension that is not reduced.
   */
  lemma SameTargetIffAgreeOnKeptDims(inShape: Shape, outShape: Shape, m: map<int, int>, axes: seq<int>, iv1: seq<int>, iv2: seq<int>)
    requires ValidMapping(inShape, outShape, m, axes)
    requires InBounds(iv1, inShape) && InBounds(iv2, inShape)
    ensures Offset(outShape, OutIndex(iv1, inShape, outShape, m)) == Offset(outShape, OutIndex(iv2, inShape, outShape, m)) <==>
      forall j :: 0 <= j < |inShape| && j !in axes ==> iv1[j] == iv2[j]
  {
    var o1, o2 := OutIndex(iv1, inShape, outShape, m), OutIndex(iv2, inShape, outShape, m);
    OutIndexInBounds(iv1, inShape, outShape, m);
    OutIndexInBounds(iv2, inShape, outShape, m);
    if Offset(outShape, o1) == Offset(outShape, o2) {
      ElemOffsetInjective(outShape, o1, o2);
    }
    SameOutIndexIffAgreeOnKeptDims(iv1, iv2, inShape, outShape, m, axes);
  }

  /** The mapping of a reduction over no axes with keepdims: output dimension i is input dimension i. */
  function IdentityMap(rank: nat): (m: map<int, int>)
    ensures forall i :: i in m <==> 0 <= i < rank
    ensures forall i :: i in m ==> m[i] == i
  {
    if rank == 0 then map[] else IdentityMap(rank - 1)[rank - 1 := rank - 1]
  }

  /**
   * Without reduced dimensions and with the output of the input's shape
   * (noop_with_empty_axes, keepdims), every group is the single element at
   * the same offset.
   */
  lemma {:induction false} NoReductionGroups(input: seq<int>, inShape: Shape, o: int, n: nat)
    requires |input| == Product(inShape) && n <= |input|
    requires MapInBounds(inShape, inShape, IdentityMap(|inShape|))
    ensures Group(input, inShape, inShape, IdentityMap(|inShape|), o, n) == if 0 <= o < n then [input[o]] else []
  {
    if n > 0 {
      NoReductionGroups(input, inShape, o, n - 1);
      IdentityTarget(inShape, n - 1);
    }
  }

  /** Under the identity mapping every input element is combined into the output element at its own offset. */
  lemma IdentityTarget(inShape: Shape, n: nat)
    requires MapInBounds(inShape, inShape, IdentityMap(|inShape|)) && n < Product(inShape)
    ensures Target(inShape, inShape, IdentityMap(|inShape|), n) == n
  {
    IndexSetLength(inShape);
    IndexSetAt(inShape, n);
    IdentityOutIndex(IndexSet(inShape)[n], inShape);
  }

  lemma IdentityOutIndex(iv: seq<int>, inShape: Shape)
    requires MapInBounds(inShape, inShape, IdentityMap(|inShape|)) && |iv| == |inShape|
    ensures OutIndex(iv, inShape, inShape, IdentityMap(|inShape|)) == iv
  {
    var m := IdentityMap(|inShape|);
    var r := OutIndex(iv, inShape, inShape, m);
    forall i | 0 <= i < |iv|
      ensures r[i] == iv[i]
    {
      assert i in m && m[i] == i;
    }
  }

  /** Reducing to a scalar (every axis, no kept dimensions) puts every element in one group. */
  lemma {:induction false} ReduceAllGroup(input: seq<int>, inShape: Shape, n: nat)
    requires |input| == Product(inShape) && n <= |input|
    requires MapInBounds(inShape, [], map[])
    ensures Group(input, inShape, [], map[], 0, n) == input[..n]
  {
    if n > 0 {
      ReduceAllGroup(input, inShape, n - 1);
      IndexSetLength(inShape);
      IndexSetAt(inShape, n - 1);
      assert Target(inShape, [], map[], n - 1) == 0 by { assert OutIndex(IndexSet(inShape)[n - 1], inShape, [], map[]) == []; }
      assert input[..n] == input[..n - 1] + [input[n - 1]];
    }
  }

  // ---------------------------------------------------------------------------
  // The three loop nests
  // ---------------------------------------------------------------------------

  /** Loop 1: stores the identity into every output element. */
  method InitOutput(alloc: array<int>, outShape: Shape, identity: int)
    requires alloc.Length == Product(outShape)
    modifies alloc
    ensures forall o :: 0 <= o < alloc.Length ==> alloc[o] == identity
  {
    var n := 0;
    while n < alloc.Length
      invariant 0 <= n <= alloc.Length
      invariant forall o :: 0 <= o < n ==> alloc[o] == identity
    {
      StoreIdentity(alloc, outShape, identity, n);
      n := n + 1;
    }
  }

  /** Iteration n of loop 1: the identity is stored at the offset of index tuple n, which is n. */
  method StoreIdentity(alloc: array<int>, outShape: Shape, identity: int, n: nat)
    requires alloc.Length == Product(outShape) && n < alloc.Length
    modifies alloc
    ensures alloc[..] == old(alloc[..])[n := identity]
  {
    IndexSetLength(outShape);
    IndexSetAt(outShape, n);
    alloc[Offset(outShape, IndexSet(outShape)[n])] := identity;
  }

  /** The output after the first n input elements have been combined in. */
  function Partial(op: ReduceOp, w: Width, input: seq<int>, inShape: Shape, outShape: Shape, m: map<int, int>, n: nat): (r: seq<int>)
    requires MapInBounds(inShape, outShape, m) && |input| == Product(inShape) && n <= |input|
    ensures |r| == Product(outShape)
  {
    ProductNonNegative(outShape);
    seq(Product(outShape), o => Fold(op, w, IdentityValue(op, w), Group(input, inShape, outShape, m, o, n)))
  }

  /** Combining the n-th input element changes only the element of its target. */
  lemma PartialStep(op: ReduceOp, w: Width, input: seq<int>, inShape: Shape, outShape: Shape, m: map<int, int>, n: nat)
    requires MapInBounds(inShape, outShape, m) && |input| == Product(inShape) && n < |input|
    ensures var t := Target(inShape, outShape, m, n);
      var p := Partial(op, w, input, inShape, outShape, m, n);
      Partial(op, w, input, inShape, outShape, m, n + 1) == p[t := ScalarOp(op, w, p[t], input[n])]
  {
    var t := Target(inShape, outShape, m, n);
    var p := Partial(op, w, input, inShape, outShape, m, n);
    var q := Partial(op, w, input, inShape, outShape, m, n + 1);
    forall o | 0 <= o < |q| ensures q[o] == p[t := ScalarOp(op, w, p[t], input[n])][o] {
      if o == t {
        FoldSnoc(op, w, IdentityValue(op, w), Group(input, inShape, outShape, m, o, n), input[n]);
      } else {
        assert Group(input, inShape, outShape, m, o, n + 1) == Group(input, inShape, outShape, m, o, n);
      }
    }
  }

  /**
   * Loop 2: for every input index, loads the input element and the output
   * element at the mapped index and stores their combination back.
   */
  method Accumulate(op: ReduceOp, w: Width, input: seq<int>, inShape: Shape, outShape: Shape, m: map<int, int>, alloc: array<int>)
    requires MapInBounds(inShape, outShape, m)
    requires |input| == Product(inShape) && alloc.Length == Product(outShape)
    requires forall o :: 0 <= o < alloc.Length ==> alloc[o] == IdentityValue(op, w)
    modifies alloc
    ensures forall o :: 0 <= o < alloc.Length ==> alloc[o] == Reduced(op, w, input, inShape, outShape, m, o)
  {
    var idxs := IndexSet(inShape);
    IndexSetLength(inShape);
    assert alloc[..] == Partial(op, w, input, inShape, outShape, m, 0);
    var n := 0;
    while n < |idxs|
      invariant 0 <= n <= |idxs|
      invariant alloc[..] == Partial(op, w, input, inShape, outShape, m, n)
    {
      var inLoopIVs := idxs[n];
      IndexSetAt(inShape, n);
      var outLoopIVs := OutIndex(inLoopIVs, inShape, outShape, m);
      assert Offset(outShape, outLoopIVs) == Target(inShape, outShape, m, n);
      PartialStep(op, w, input, inShape, outShape, m, n);
      var next := input[Offset(inShape, inLoopIVs)];
      var accumulated := alloc[Offset(outShape, outLoopIVs)];
      accumulated := ScalarOp(op, w, accumulated, next);
      alloc[Offset(outShape, outLoopIVs)] := accumulated;
      n := n + 1;
    }
    assert forall o :: 0 <= o < alloc.Length ==> alloc[o] == Partial(op, w, input, inShape, outShape, m, |input|)[o];
  }

  /** Loop 3 (ReduceMean): divides every output element by the divisor with `divsi`. */
  method DivideByCount(w: Width, alloc: array<int>, outShape: Shape, divisor: int)
    requires alloc.Length == Product(outShape) && divisor != 0
    modifies alloc
    ensures forall o :: 0 <= o < alloc.Length ==> alloc[o] == DivSI(w, old(alloc[o]), divisor)
  {
    var idxs := IndexSet(outShape);
    IndexSetLength(outShape);
    var n := 0;
    while n < |idxs|
      invariant 0 <= n <= |idxs|
      invariant forall o :: 0 <= o < n ==> alloc[o] == DivSI(w, old(alloc[o]), divisor)
      invariant forall o :: n <= o < alloc.Length ==> alloc[o] == old(alloc[o])
    {
      IndexSetAt(outShape, n);
      var meanIVs := idxs[n];
      var loadData := alloc[Offset(outShape, meanIVs)];
      alloc[Offset(outShape, meanIVs)] := DivSI(w, loadData, divisor);
      n := n + 1;
    }
  }

  /**
   * The ReduceMean divisor: input size floor-divided by output size, cast
   * from index to the w-bit element type.
   */
  function MeanDivisor(w: Width, inShape: Shape, outShape: Shape): int
    requires Product(outShape) > 0
  {
    ProductNonNegative(inShape);
    Wrap(w, Product(inShape) / Product(outShape))
  }

  // ---------------------------------------------------------------------------
  // ONNXReductionOpLowering
  // ---------------------------------------------------------------------------

  /** What ONNXReductionOpLowering leaves in output offset o. */
  function ReductionResult(op: ReduceOp, w: Width, input: seq<int>, inShape: Shape, outShape: Shape, m: map<int, int>, o: int): int
    requires MapInBounds(inShape, outShape, m) && |input| == Product(inShape)
    requires op == ReduceMean ==> Product(outShape) > 0 && MeanDivisor(w, inShape, outShape) != 0
  {
    var r := Reduced(op, w, input, inShape, outShape, m, o);
    if op == ReduceMean then DivSI(w, r, MeanDivisor(w, inShape, outShape)) else r
  }

  /**
   * ONNXReductionOpLowering for ReduceMax, ReduceMin, ReduceProd,
   * ReduceSumV11 and ReduceMean (the latter registered with computeMean).
   * The axes come from the `axes` attribute (empty when absent); the
   * reduction mapping and the output shape are those the shape inference
   * and getReductionMapping provide for the computed axes.
   */
  method LowerReduction(op: ReduceOp, w: Width, input: seq<int>, inShape: Shape, axesAttr: seq<int>,
                        outShape: Shape, outInDimMap: map<int, int>) returns (r: Result<seq<int>>)
    requires op != ReduceSum
    requires |input| == Product(inShape)
    requires AxesSpec(axesAttr, |inShape|, false).Success? ==>
      ValidMapping(inShape, outShape, outInDimMap, AxesSpec(axesAttr, |inShape|, false).value)
    requires op == ReduceMean ==> Product(outShape) > 0 && MeanDivisor(w, inShape, outShape) != 0
    ensures r.Failure? <==> !AllAxesInRange(axesAttr, |inShape|)
    ensures r.Failure? ==> r.error == AXES_OUT_OF_RANGE
    ensures r.Success? ==> |r.value| == Product(outShape)
    ensures r.Success? ==> forall o :: 0 <= o < |r.value| ==>
      r.value[o] == ReductionResult(op, w, input, inShape, outShape, outInDimMap, o)
  {
    AxesSpecMeaning(axesAttr, |inShape|, false);
    var axes := ComputeAxes(axesAttr, |inShape|, false);
    if axes.Failure? {
      return Failure(axes.error);
    }
    ProductNonNegative(outShape);
    var alloc := new int[Product(outShape)];
    InitOutput(alloc, outShape, IdentityValue(op, w));
    Accumulate(op, w, input, inShape, outShape, outInDimMap, alloc);
    if op == ReduceMean {
      DivideByCount(w, alloc, outShape, MeanDivisor(w, inShape, outShape));
    }
    r := Success(alloc[..]);
  }

  // ---------------------------------------------------------------------------
  // ONNXReduceSumOpLowering
  // ---------------------------------------------------------------------------

  /**
   * The `axes` operand of ReduceSum: none, a constant, or a tensor known only
   * at run time (its values, and whether its length is static).
   */
  datatype AxesOperand = NoAxes | ConstantAxes(values: seq<int>) | RuntimeAxes(values: seq<int>, lengthKnown: bool)

  /** The defined axes when the operand is none or a constant. */
  function DefinedAxes(axes: AxesOperand): seq<int>
  {
    match axes
    case NoAxes => []
    case ConstantAxes(values) => values
    case RuntimeAxes(values, _) => values
  }

  /**
   * Initial mask value as the lowering computes it: true only when the axes
   * length is dynamic, noop_with_empty_axes is unset and the run-time length
   * is 0.
   */
  function MaskInitAsWritten(lengthKnown: bool, axesLength: nat, noopWithEmptyAxes: bool): bool
  {
    if !lengthKnown && !noopWithEmptyAxes then axesLength == 0 else false
  }

  /** Initial mask value that reduces every axis for empty axes, whether or not the length is static. */
  function MaskInit(axesLength: nat, noopWithEmptyAxes: bool): bool
  {
    axesLength == 0 && !noopWithEmptyAxes
  }

  /**
   * A statically empty run-time axes tensor with noop_with_empty_axes unset
   * leaves the mask all false, so nothing is reduced, while the same empty
   * axes given as a constant reduce every axis.
   */
  lemma MaskInitAsWrittenSkipsStaticEmptyAxes()
    ensures !MaskInitAsWritten(true, 0, false)
    ensures AxesSpec([], 2, false) == Success([0, 1])
    ensures MaskInit(0, false)
  {
    assert Range(2) == [0, 1];
  }

  /** The run-time mask: entry i is set when dimension i is reduced. */
  function MaskSpec(inRank: nat, axes: seq<int>, initVal: bool): (r: seq<bool>)
    ensures |r| == inRank
  {
    seq(inRank, i => initVal || exists k :: 0 <= k < |axes| && NormalizeAxis(axes[k], inRank) == i)
  }

  /**
   * Builds the mask: every entry set to the initial value, then the entry of
   * every (normalised) run-time axis set to true.
   */
  method BuildMask(inRank: nat, axes: seq<int>, initVal: bool) returns (mask: seq<bool>)
    requires AllAxesInRange(axes, inRank)
    ensures mask == MaskSpec(inRank, axes, initVal)
  {
    var maskVal := new bool[inRank];
    var i := 0;
    while i < inRank
      invariant 0 <= i <= inRank
      invariant forall j :: 0 <= j < i ==> maskVal[j] == initVal
    {
      maskVal[i] := initVal;
      i := i + 1;
    }
    var k := 0;
    while k < |axes|
      invariant 0 <= k <= |axes|
      invariant forall j :: 0 <= j < inRank ==>
        (maskVal[j] <==> initVal || exists a :: 0 <= a < k && NormalizeAxis(axes[a], inRank) == j)
    {
      var axe := axes[k];
      assert AxisInRange(axe, inRank);
      var dim := if axe < 0 then axe + inRank else axe;
      maskVal[dim] := true;
      k := k + 1;
    }
    mask := maskVal[..];
  }

  /**
   * With the corrected initial value, the mask marks exactly the axes the
   * constant-axes path computes from the same values.
   */
  lemma MaskMatchesAxes(inRank: nat, axes: seq<int>, noop: bool)
    requires AllAxesInRange(axes, inRank)
    ensures AxesSpec(axes, inRank, noop).Success?
    ensures forall i :: 0 <= i < inRank ==>
      (MaskSpec(inRank, axes, MaskInit(|axes|, noop))[i] <==> i in AxesSpec(axes, inRank, noop).value)
  {
    AxesSpecMeaning(axes, inRank, noop);
  }

  /** Allocated output shape on the run-time axes path: 1 where the mask is set, the input extent elsewhere. */
  function MaskedShape(inShape: Shape, mask: seq<bool>): (r: Shape)
    requires |mask| == |inShape|
    ensures |r| == |inShape|
  {
    seq(|inShape|, i requires 0 <= i < |inShape| => if mask[i] then 1 else inShape[i])
  }

  /** The run-time axes path indexes output dimension i with 0 where the mask is set, with input dimension i elsewhere. */
  function MaskMap(mask: seq<bool>): (m: map<int, int>)
    ensures forall i :: i in m <==> 0 <= i < |mask| && !mask[i]
    ensures forall i :: i in m ==> m[i] == i
  {
    map i | 0 <= i < |mask| && !mask[i] :: i
  }

  lemma MaskMapInBounds(inShape: Shape, mask: seq<bool>)
    requires |mask| == |inShape|
    ensures MapInBounds(inShape, MaskedShape(inShape, mask), MaskMap(mask))
    ensures forall iv :: |iv| == |inShape| ==>
      OutIndex(iv, inShape, MaskedShape(inShape, mask), MaskMap(mask)) == seq(|mask|, i requires 0 <= i < |mask| => if mask[i] then 0 else iv[i])
  {
  }

  /**
   * On the run-time axes path the mask mapping reduces exactly the axes the
   * constant path would, so both paths combine the same groups.
   */
  lemma MaskMappingIsValid(inShape: Shape, axes: seq<int>, noop: bool)
    requires AllAxesInRange(axes, |inShape|)
    ensures AxesSpec(axes, |inShape|, noop).Success?
    ensures var mask := MaskSpec(|inShape|, axes, MaskInit(|axes|, noop));
      ValidMapping(inShape, MaskedShape(inShape, mask), MaskMap(mask), AxesSpec(axes, |inShape|, noop).value)
  {
    var mask := MaskSpec(|inShape|, axes, MaskInit(|axes|, noop));
    MaskMatchesAxes(|inShape|, axes, noop);
    MaskMapInBounds(inShape, mask);
    var red := AxesSpec(axes, |inShape|, noop).value;
    var m := MaskMap(mask);
    forall j | 0 <= j < |inShape| && j !in red ensures exists i :: i in m && m[i] == j {
      assert j in m;
    }
  }

  /** The mapping the ReduceSum lowering combines with. */
  function SumMapping(inShape: Shape, axes: AxesOperand, noop: bool, outInDimMap: map<int, int>): map<int, int>
  {
    if axes.RuntimeAxes? then MaskMap(MaskSpec(|inShape|, axes.values, MaskInit(|axes.values|, noop)))
    else outInDimMap
  }

  /**
   * ONNXReduceSumOpLowering. With run-time axes only keepdims is supported;
   * the mask selects the reduced dimensions and sizes the output. Otherwise
   * the axes come from the constant (none when absent) and go through the
   * same computation as the other reductions, honouring
   * noop_with_empty_axes.
   */
  method LowerReduceSum(w: Width, input: seq<int>, inShape: Shape, axes: AxesOperand, keepdims: bool,
                        noopWithEmptyAxes: bool, outShape: Shape, outInDimMap: map<int, int>) returns (r: Result<seq<int>>)
    requires |input| == Product(inShape)
    requires axes.RuntimeAxes? ==>
      && AllAxesInRange(axes.values, |inShape|)
      && outShape == MaskedShape(inShape, MaskSpec(|inShape|, axes.values, MaskInit(|axes.values|, noopWithEmptyAxes)))
    requires !axes.RuntimeAxes? && AxesSpec(DefinedAxes(axes), |inShape|, noopWithEmptyAxes).Success? ==>
      ValidMapping(inShape, outShape, outInDimMap, AxesSpec(DefinedAxes(axes), |inShape|, noopWithEmptyAxes).value)
    ensures axes.RuntimeAxes? ==> (r.Failure? <==> !keepdims) && (r.Failure? ==> r.error == KEEPDIMS_NOT_IMPLEMENTED)
    ensures !axes.RuntimeAxes? ==> (r.Failure? <==> !AllAxesInRange(DefinedAxes(axes), |inShape|))
    ensures !axes.RuntimeAxes? && r.Failure? ==> r.error == AXES_OUT_OF_RANGE
    ensures r.Success? ==> MapInBounds(inShape, outShape, SumMapping(inShape, axes, noopWithEmptyAxes, outInDimMap))
    ensures r.Success? ==> |r.value| == Product(outShape) && forall o :: 0 <= o < |r.value| ==>
      r.value[o] == Reduced(ReduceSum, w, input, inShape, outShape, SumMapping(inShape, axes, noopWithEmptyAxes, outInDimMap), o)
  {
    var m: map<int, int>;
    if axes.RuntimeAxes? {
      if !keepdims {
        return Failure(KEEPDIMS_NOT_IMPLEMENTED);
      }
      var initVal := MaskInit(|axes.values|, noopWithEmptyAxes);
      var mask := BuildMask(|inShape|, axes.values, initVal);
      MaskMapInBounds(inShape, mask);
      m := MaskMap(mask);
    } else {
      AxesSpecMeaning(DefinedAxes(axes), |inShape|, noopWithEmptyAxes);
      var reduced := ComputeAxes(DefinedAxes(axes), |inShape|, noopWithEmptyAxes);
      if reduced.Failure? {
        return Failure(reduced.error);
      }
      m := outInDimMap;
    }
    ProductNonNegative(outShape);
    var alloc := new int[Product(outShape)];
    InitOutput(alloc, outShape, IdentityValue(ReduceSum, w));
    Accumulate(ReduceSum, w, input, inShape, outShape, m, alloc);
    r := Success(alloc[..]);
  }

  /** ReduceSum leaves the wrapped sum of each group. */
  lemma ReduceSumIsWrappedSum(w: Width, input: seq<int>, inShape: Shape, outShape: Shape, m: map<int, int>, o: int)
    requires MapInBounds(inShape, outShape, m) && |input| == Product(inShape)
    ensures Reduced(ReduceSum, w, input, inShape, outShape, m, o) == Wrap(w, Sum(Group(input, inShape, outShape, m, o, |input|)))
  {
    FoldIsWrappedSum(ReduceSum, w, Group(input, inShape, outShape, m, o, |input|));
  }

  /**
   * noop_with_empty_axes with keepdims: the output is the input (for w-bit
   * input elements).
   */
  lemma NoopCopiesInput(w: Width, input: seq<int>, inShape: Shape, o: int)
    requires |input| == Product(inShape)
    requires forall k :: 0 <= k < |input| ==> InRange(w, input[k])
    requires MapInBounds(inShape, inShape, IdentityMap(|inShape|))
    requires 0 <= o < |input|
    ensures Reduced(ReduceSum, w, input, inShape, inShape, IdentityMap(|inShape|), o) == input[o]
  {
    NoReductionGroups(input, inShape, o, |input|);
    assert Fold(ReduceSum, w, 0, [input[o]]) == AddI(w, 0, input[o]) by { assert [input[o]][..0] == []; }
  }

  /** Reducing every axis without keepdims sums the whole input into the single output element. */
  lemma ReduceAllIsTotal(w: Width, input: seq<int>, inShape: Shape)
    requires |input| == Product(inShape)
    requires MapInBounds(inShape, [], map[])
    ensures Reduced(ReduceSum, w, input, inShape, [], map[], 0) == Wrap(w, Sum(input))
  {
    ReduceAllGroup(input, inShape, |input|);
    assert input[..|input|] == input;
    FoldIsWrappedSum(ReduceSum, w, input);
  }
}
