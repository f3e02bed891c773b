# onnx-mlir core, modelled in Dafny

This project models six pieces of onnx-mlir, the compiler that lowers ONNX
models through MLIR, and proves properties of each:

- **The runtime tensor descriptor** (`OMTensor`):
  - its constructor, destructor and ownership rule;
  - the element count;
  - row-major strides, element offsets, and the index set (the cartesian
    product of every dimension's range).

  Module `Runtime`, file `omtensor.dfy`.
- **TopK shape inference** (`ONNXTopKOpShapeHelper::computeShape`): axis
  normalisation, the two error cases, and the output dimensions. Module
  `TopK`.
- **The reduction lowerings**:
  - ReduceMax, ReduceMin, ReduceProd, ReduceSumV11 and ReduceMean through
    the generic lowering;
  - ReduceSum with its axes operand through its own lowering.

  The model covers identity values, scalar combiners, axis normalisation
  and de-duplication, the axes mask, the accumulation loop nest and the
  mean. Module `Reduction`.
- **The MatMul lowering**:
  - dispatch between the two paths;
  - register tile sizes;
  - the tiled 2-D path: zero fill, then blocked I/J/K iteration applying
    the kernel to each tile;
  - the generic path: access functions that skip padded dimensions, and one
    scalar accumulator per output element.

  Module `MatMul`.
- **The Slice lowering**: output element `i` is loaded from
  `step * i + start`. Module `Slice`.
- **The ConstantOfShape lowering**: output dimensions come from the static
  type or are loaded from the input, then the constant is stored
  everywhere. Module `ConstantOfShape`.

## Modelling choices

- **Tensors** are flat row-major `seq<int>` values with a `Shape`
  (`seq<nat>`).
  - A Krnl loop nest over an N-dimensional space is one loop over
    `IndexSet(shape)`, which lists every index tuple in row-major order.
  - The lemma `IndexSetAt` ties position `n` of that list to the tuple
    whose row-major offset is `n`.
- **Element types** are integers of width `w` (1 to 64), with MLIR `arith`
  semantics (module `Ints`):
  - `addi` and `muli` wrap modulo 2^w;
  - `divsi` truncates toward zero;
  - the -inf and +inf identities of ReduceMax and ReduceMin become the
    smallest and largest w-bit values.
- **Lowerings that write a buffer** allocate an `array<int>` and fill it with
  loop methods that carry invariants. The top-level method returns the final
  contents as a sequence.
- **The descriptor** `OMTensor` is a class:
  - its size and stride arrays are `array<int>` fields;
  - its data pointer is a `DataBuffer?` object, so the destructor can report
    which objects it releases.
- **Helpers whose bodies are not part of this model** are inputs, and each
  method's preconditions state what it relies on:
  - the reduction mapping `getReductionMapping`;
  - the MatMul and Slice shape helpers (output dimensions, pad flags,
    starts and steps).

## Model

| member | source | states |
|---|---|---|
| Runtime.GetNumOfElems | include/onnx-mlir/Runtime/OMTensor.h:107-113 | the count is the product of the first `rank` sizes, 1 for rank 0 |
| Runtime.ProductZero | include/onnx-mlir/Runtime/OMTensor.h:107-113 | the element count is zero exactly when some size is zero |
| Runtime.StridesFromSizes | include/onnx-mlir/Runtime/OMTensor.h:306-321 | one stride per size, the last stride is 1, and each stride is the next stride times the next size |
| Runtime.StrideIsSuffixProduct | include/onnx-mlir/Runtime/OMTensor.h:306-321 | stride i is the product of all sizes right of i (the prefix product over the left-shifted sizes) |
| Runtime.StridesIgnoreLeadingSize | include/onnx-mlir/Runtime/OMTensor.h:310-313 | the leading size does not affect the strides |
| Runtime.ElemOffsetInRange | include/onnx-mlir/Runtime/OMTensor.h:323-331 | the inner product of an in-bounds index tuple with row-major strides lies in [0, element count) |
| Runtime.ElemOffsetInjective | include/onnx-mlir/Runtime/OMTensor.h:323-331 | distinct in-bounds index tuples have distinct offsets |
| Runtime.CartProduct | include/onnx-mlir/Runtime/OMTensor.h:289-304 | the nested push_back loops build exactly the cartesian product `Cart(v)` |
| Runtime.CartLength | include/onnx-mlir/Runtime/OMTensor.h:289-304 | the product has as many tuples as the product of the input lengths |
| Runtime.CartMembers | include/onnx-mlir/Runtime/OMTensor.h:289-304 | every tuple has one entry per input vector, drawn from that vector |
| Runtime.IndexSetLength | include/onnx-mlir/Runtime/OMTensor.h:429-437 | the index set has one tuple per element |
| Runtime.IndexSetAt | include/onnx-mlir/Runtime/OMTensor.h:429-437 | tuple n of the index set is in bounds and has row-major offset n |
| Runtime.IndexSetComplete | include/onnx-mlir/Runtime/OMTensor.h:429-437 | every valid index tuple occurs in the index set, at the position of its offset |
| Runtime.IndexSetExactlyOnce | include/onnx-mlir/Runtime/OMTensor.h:429-437 | the index set holds every in-bounds tuple exactly once, tuple n being the one at row-major offset n |
| Runtime.OMTensor.constructor | include/onnx-mlir/Runtime/OMTensor.h:59-72 | fresh size and stride arrays of length rank; null data, offset 0, undefined type, not owning |
| Runtime.OMTensor.Destroy | include/onnx-mlir/Runtime/OMTensor.h:81-86 | sizes and strides are always released; the data buffer is released iff the descriptor owns it; nothing else is released |
| Runtime.OMTensor.SetData | include/onnx-mlir/Runtime/OMTensor.h:172-183 | installs the buffer and marks it not owned, so the destructor never frees it; the other fields are unchanged |
| Runtime.OMTensor.GetNumElems | include/onnx-mlir/Runtime/OMTensor.h:280-285 | the number of elements is the product of the sizes |
| Runtime.OMTensor.GetDataBufferSize | include/onnx-mlir/Runtime/OMTensor.h:244-250 | the buffer size in bytes is the element count times the element byte width |
| Runtime.OMTensor.ComputeStridesFromShape | include/onnx-mlir/Runtime/OMTensor.h:411-417 | stride i is the product of sizes i+1 .. rank-1 |
| Runtime.OMTensor.ComputeElemOffset | include/onnx-mlir/Runtime/OMTensor.h:419-427 | with row-major strides, an in-bounds tuple's offset addresses an element of the buffer |
| Runtime.OMTensor.ComputeIndexSet | include/onnx-mlir/Runtime/OMTensor.h:429-437 | every valid index tuple exactly once, in row-major order: tuple n is in bounds and has offset n, and every in-bounds tuple sits at its offset |
| TopK.ComputeShape | src/Dialect/ONNX/ShapeInference/TopK.cpp:32-61 | the normalised axis is in range; "could not be processed" iff K is undefined; "out of bound" iff K and the axis dimension are both literal and K >= dim; otherwise the input dims with the axis dim replaced by K |
| TopK.AgreesWithOnnxExceptKEqualsDim | src/Dialect/ONNX/ShapeInference/TopK.cpp:46-56 | compared with the ONNX rule (K <= dim), the helper succeeds iff ONNX does and K is not literally equal to the dimension, and then gives the same shape |
| TopK.NoBoundCheckUnlessBothLiteral | src/Dialect/ONNX/ShapeInference/TopK.cpp:46-49 | a defined K is never rejected unless K and the axis dimension are both literal |
| TopK.Example3x6 | src/Dialect/ONNX/ShapeInference/TopK.cpp:35-56 | (3,6) with K=2 on axis 1 or -1 gives (3,2); K=6 is out of bound |
| Reduction.IdentityValue | src/Conversion/ONNXToKrnl/Math/Reduction.cpp:20-55 | every identity value is a w-bit value |
| Reduction.ScalarOp | src/Conversion/ONNXToKrnl/Math/Reduction.cpp:58-129 | max is an upper bound equal to lhs iff lhs >= rhs; min symmetrically; prod is `muli`; the sums and the mean use `addi` |
| Reduction.IdentityIsNeutral | src/Conversion/ONNXToKrnl/Math/Reduction.cpp:20-129 | combining the identity with any w-bit value yields that value, for every reduction |
| Reduction.ScalarOpInRange | src/Conversion/ONNXToKrnl/Math/Reduction.cpp:58-129 | the combiners keep values within w bits |
| Reduction.FoldIsWrappedSum | src/Conversion/ONNXToKrnl/Math/Reduction.cpp:40-80 | folding a sum-like reduction from its identity gives the exact sum wrapped to w bits |
| Reduction.FoldIsWrappedProduct | src/Conversion/ONNXToKrnl/Math/Reduction.cpp:34-80 | folding ReduceProd from 1 gives the exact product wrapped to w bits |
| Reduction.FoldIsMaximum | src/Conversion/ONNXToKrnl/Math/Reduction.cpp:20-26 | folding max from the smallest value gives an element that bounds all others, or the smallest value for an empty group |
| Reduction.FoldIsMinimum | src/Conversion/ONNXToKrnl/Math/Reduction.cpp:27-32 | folding min from the largest value gives an element bounded by all others, or the largest value for an empty group |
| Reduction.DedupMeaning | src/Conversion/ONNXToKrnl/Math/Reduction.cpp:171-196 | keeping first occurrences leaves no duplicates and the same members |
| Reduction.AxesSpecMeaning | src/Conversion/ONNXToKrnl/Math/Reduction.cpp:171-196 | failure ("axes value out of range") iff some axis is outside [-rank, rank-1]; otherwise distinct axes in [0, rank) that are exactly the normalised inputs; empty axes mean all axes unless noop_with_empty_axes |
| Reduction.ComputeAxes | src/Conversion/ONNXToKrnl/Math/Reduction.cpp:171-196 | the axis-normalising loop computes the axes specification |
| Reduction.OutIndexInBounds | src/Conversion/ONNXToKrnl/Math/Reduction.cpp:204-205 | the output index of an in-bounds input index is in bounds |
| Reduction.SameOutIndexIffAgreeOnKeptDims | src/Conversion/ONNXToKrnl/Math/Reduction.cpp:262-297 | two input indices share an output index iff they agree on every non-reduced dimension |
| Reduction.SameTargetIffAgreeOnKeptDims | src/Conversion/ONNXToKrnl/Math/Reduction.cpp:262-297 | two input indices write the same output element iff they agree on every non-reduced dimension |
| Reduction.OutIndexExamples | src/Conversion/ONNXToKrnl/Math/Reduction.cpp:204-205 | reducing axes 0 and 2 of (2,3,4) maps (i0,i1,i2) to (0,i1,0) with keepdims and to (i1) without |
| Reduction.NoReductionGroups | src/Conversion/ONNXToKrnl/Math/Reduction.cpp:262-304 | with nothing reduced, each output element's group is its own input element |
| Reduction.IdentityTarget | src/Conversion/ONNXToKrnl/Math/Reduction.cpp:262-304 | with nothing reduced, input element n is combined into output element n |
| Reduction.IdentityOutIndex | src/Conversion/ONNXToKrnl/Math/Reduction.cpp:204-205 | with nothing reduced, the output index of an input index is that index |
| Reduction.ReduceAllGroup | src/Conversion/ONNXToKrnl/Math/Reduction.cpp:262-304 | reducing to a scalar groups every input element in order |
| Reduction.InitOutput | src/Conversion/ONNXToKrnl/Math/Reduction.cpp:236-260 | every output element starts at the identity |
| Reduction.StoreIdentity | src/Conversion/ONNXToKrnl/Math/Reduction.cpp:250-259 | one iteration of the first loop nest stores the identity at its own row-major position and changes nothing else |
| Reduction.PartialStep | src/Conversion/ONNXToKrnl/Math/Reduction.cpp:262-304 | visiting input element n changes only its target output element, which is combined with it |
| Reduction.Accumulate | src/Conversion/ONNXToKrnl/Math/Reduction.cpp:262-304 | after the loop nest each output element is its group folded from the identity |
| Reduction.DivideByCount | src/Conversion/ONNXToKrnl/Math/Reduction.cpp:306-351 | each output element is replaced by its `divsi` by the divisor |
| Reduction.LowerReduction | src/Conversion/ONNXToKrnl/Math/Reduction.cpp:142-355 | failure iff an axis is out of range; otherwise one value per output element, its group's reduction (divided by input size / output size for ReduceMean) |
| Reduction.MaskInitAsWrittenSkipsStaticEmptyAxes | src/Conversion/ONNXToKrnl/Math/Reduction.cpp:434-453 | a statically empty axes tensor with noop_with_empty_axes=0 starts the mask at false, while the axes specification reduces every axis (see Findings) |
| Reduction.BuildMask | src/Conversion/ONNXToKrnl/Math/Reduction.cpp:434-492 | the two mask loops compute the mask specification |
| Reduction.MaskMatchesAxes | src/Conversion/ONNXToKrnl/Math/Reduction.cpp:434-492 | with the corrected initial value, dimension i is masked iff i is among the reduced axes |
| Reduction.MaskMapInBounds | src/Conversion/ONNXToKrnl/Math/Reduction.cpp:619-636 | the mask-driven output index is in bounds and is 0 on masked dimensions and the input index elsewhere |
| Reduction.MaskMappingIsValid | src/Conversion/ONNXToKrnl/Math/Reduction.cpp:530-636 | the mask-driven mapping reduces exactly the specified axes |
| Reduction.LowerReduceSum | src/Conversion/ONNXToKrnl/Math/Reduction.cpp:369-694 | runtime axes fail iff keepdims is off; static axes fail iff one is out of range; otherwise each output element is the wrapped sum of its group. The runtime-axes path starts its mask at the corrected initial value (`MaskInit`) and does not test the axes tensor's static length (line 438); see Findings |
| Reduction.ReduceSumIsWrappedSum | src/Conversion/ONNXToKrnl/Math/Reduction.cpp:569-643 | a ReduceSum output element is the exact sum of its group wrapped to w bits |
| Reduction.NoopCopiesInput | src/Conversion/ONNXToKrnl/Math/Reduction.cpp:518-528 | with nothing reduced, ReduceSum returns its input |
| Reduction.ReduceAllIsTotal | src/Conversion/ONNXToKrnl/Math/Reduction.cpp:518-528 | reducing every axis to a scalar gives the wrapped total |
| MatMul.SelectPath | src/Conversion/ONNXToKrnl/Math/MatMul.cpp:211-220 | the tiled path is taken iff both operands have rank 2 |
| MatMul.TileSizes | src/Conversion/ONNXToKrnl/Math/MatMul.cpp:134-163 | I tile min(4, I) when I is literal else 4; K tile min(8, K) when K is literal else 8; J tile 4 iff J is literal, J % 8 != 0, J % 4 == 0 and J <= 32, else 8 |
| MatMul.SmallJHasNoPartialBlock | src/Conversion/ONNXToKrnl/Math/MatMul.cpp:145-155 | for a literal J <= 32 that 4 divides, the J tile divides J |
| MatMul.TilesFitDimensions | src/Conversion/ONNXToKrnl/Math/MatMul.cpp:134-163 | tiles are positive and no larger than a literal positive dimension |
| MatMul.UpdateCell | src/Conversion/ONNXToKrnl/Math/MatMul.cpp:176-183 | one kernel cell adds products kFrom..kTo-1 into C[i, j] with `muli`/`addi` and changes no other cell |
| MatMul.KernelRow | src/Conversion/ONNXToKrnl/Math/MatMul.cpp:176-183 | one row of a tile advances each of its cells by the tile's K range |
| MatMul.Kernel | src/Conversion/ONNXToKrnl/Math/MatMul.cpp:176-183 | applying the kernel at (i1, j1, k1) advances the tile's cells from k1 to k1 + kT products |
| MatMul.ZeroFill | src/Conversion/ONNXToKrnl/Math/MatMul.cpp:129-130 | every element of C is zero |
| MatMul.ColumnBlock | src/Conversion/ONNXToKrnl/Math/MatMul.cpp:165-183 | the K blocks of one tile complete its cells |
| MatMul.RowBlock | src/Conversion/ONNXToKrnl/Math/MatMul.cpp:165-183 | the column blocks of one row block complete its rows |
| MatMul.Matmul2d | src/Conversion/ONNXToKrnl/Math/MatMul.cpp:115-184 | after zero fill and blocked iteration, C[i, j] is the dot product of row i of A and column j of B, wrapped to w bits |
| MatMul.BlockedLoops | src/Conversion/ONNXToKrnl/Math/MatMul.cpp:165-184 | over a zero-filled C, the blocked loops leave C[i, j] equal to the wrapped dot product of row i of A and column j of B |
| MatMul.AccessLengths | src/Conversion/ONNXToKrnl/Math/MatMul.cpp:70-97 | each access vector has one index per non-padded dimension |
| MatMul.BuildAccess | src/Conversion/ONNXToKrnl/Math/MatMul.cpp:70-97 | the emplace_back loop builds A's and B's access vectors as specified |
| MatMul.AccessExamples | src/Conversion/ONNXToKrnl/Math/MatMul.cpp:80-97 | (5) x (10,5,4) reads A at [k] and B at [o0, k, o1]; (10,3,5) x (5) reads A at [o0, o1, k] and B at [k] |
| MatMul.BroadcastExampleInBounds | src/Conversion/ONNXToKrnl/Math/MatMul.cpp:85-91 | in the (5) x (10,5,4) example every read stays in bounds |
| MatMul.NoPaddingAccess | src/Conversion/ONNXToKrnl/Math/MatMul.cpp:70-97 | with nothing padded, A is read at the outer indices with the column replaced by k, and B with the row replaced by k |
| MatMul.NoBroadcastInBounds | src/Conversion/ONNXToKrnl/Math/MatMul.cpp:38-97 | for batched operands without broadcast every read is in bounds |
| MatMul.GenericSumStep | src/Conversion/ONNXToKrnl/Math/MatMul.cpp:99-106 | one reduction step adds the product of the A and B elements its access vectors address |
| MatMul.MultiplyAccumulate | src/Conversion/ONNXToKrnl/Math/MatMul.cpp:70-106 | one reduction step keeps the accumulator equal to the partial sum of products wrapped to w bits |
| MatMul.ReduceElement | src/Conversion/ONNXToKrnl/Math/MatMul.cpp:57-109 | the accumulator starts at zero and ends as the wrapped sum over k of the products |
| MatMul.ComputeElement | src/Conversion/ONNXToKrnl/Math/MatMul.cpp:57-109 | one outer iteration stores the wrapped sum of products of its index tuple at its own row-major position and changes nothing else |
| MatMul.GenericMatmul | src/Conversion/ONNXToKrnl/Math/MatMul.cpp:31-111 | with the reduction loop bounded by A's last dimension, every output element holds its wrapped sum of products, at its row-major position |
| MatMul.GenericStored | src/Conversion/ONNXToKrnl/Math/MatMul.cpp:31-111 | once every position holds the reduction of its index tuple, every in-bounds tuple's row-major offset holds its reduction |
| MatMul.PathsAgree | src/Conversion/ONNXToKrnl/Math/MatMul.cpp:31-184 | on two unpadded 2-D operands the generic sum is the tiled path's dot product |
| MatMul.TiledIsGeneric | src/Conversion/ONNXToKrnl/Math/MatMul.cpp:211-220 | the tiled path's C is, at every output index, the value the generic path would compute |
| MatMul.LowerMatMul | src/Conversion/ONNXToKrnl/Math/MatMul.cpp:192-229 | whichever path is chosen, the output element at o is the wrapped sum, over k below A's last dimension, of A and B read through the access vectors |
| Slice.LoadIndex | src/Conversion/ONNXToKrnl/Tensor/Slice.cpp:56-65 | load index d is step[d] * i[d] + start[d] |
| Slice.LoadIndexInBounds | src/Conversion/ONNXToKrnl/Tensor/Slice.cpp:56-68 | for valid slice parameters every load index is inside the data tensor |
| Slice.ComputeIndices | src/Conversion/ONNXToKrnl/Tensor/Slice.cpp:56-65 | the index loop builds load index step[d] * i[d] + start[d] and store index i[d] for every dimension |
| Slice.LoadElement | src/Conversion/ONNXToKrnl/Tensor/Slice.cpp:56-67 | the loaded value is the data element at step * i + start, and it is stored at i |
| Slice.CopyElement | src/Conversion/ONNXToKrnl/Tensor/Slice.cpp:56-68 | one iteration stores its element at its own row-major position and changes nothing else |
| Slice.SliceValuesAtOffset | src/Conversion/ONNXToKrnl/Tensor/Slice.cpp:43-68 | the row-major output holds, at the offset of output index i, the data element at step * i + start |
| Slice.CopySlice | src/Conversion/ONNXToKrnl/Tensor/Slice.cpp:43-68 | every output element i holds the data element at step * i + start |
| Slice.LowerSlice | src/Conversion/ONNXToKrnl/Tensor/Slice.cpp:37-71 | the output has the output shape's element count, and element i is data at step * i + start |
| Slice.SliceOneDimension | src/Conversion/ONNXToKrnl/Tensor/Slice.cpp:56-68 | in one dimension, output k is data[step * k + start] |
| Slice.SliceExample | src/Conversion/ONNXToKrnl/Tensor/Slice.cpp:56-68 | start 2, step 3 over 10 elements reads elements 2, 5 and 8 |
| Slice.SliceIdentity | src/Conversion/ONNXToKrnl/Tensor/Slice.cpp:56-68 | start 0 and step 1 over the whole shape copy the data |
| ConstantOfShape.LoadDims | src/Conversion/ONNXToKrnl/Tensor/ConstantOfShape.cpp:47-54 | allocation operand i is input element i |
| ConstantOfShape.OutputDims | src/Conversion/ONNXToKrnl/Tensor/ConstantOfShape.cpp:41-63 | the static dims when all are static, otherwise every dim loaded from the input |
| ConstantOfShape.FillConstant | src/Conversion/ONNXToKrnl/Tensor/ConstantOfShape.cpp:79-93 | every element of the output holds the constant, for a scalar and for any rank |
| ConstantOfShape.LowerConstantOfShape | src/Conversion/ONNXToKrnl/Tensor/ConstantOfShape.cpp:38-93 | the output dims as above, one element per dim product, each equal to the first element of `value` |
| ConstantOfShape.ScalarOutput | src/Conversion/ONNXToKrnl/Tensor/ConstantOfShape.cpp:79-93 | a rank-0 output is exactly the single constant |
| ConstantOfShape.ConstantAtEveryIndex | src/Conversion/ONNXToKrnl/Tensor/ConstantOfShape.cpp:79-93 | the element at every valid index tuple is the constant |

## Left out

- Integer widths of the runtime: sizes, strides, offsets and element counts are unbounded integers. Overflow of `int64_t` in the products and inner products is not modelled.
- Runtime.OMTensor.constructor: the malloc-failure branch (it throws) and the default constructor are not modelled. Allocation cannot fail in Dafny.
- Runtime.StridesFromSizes: for rank 0 the source builds a vector from the inverted range `dataSizes + 1 .. dataSizes + 0`, which is undefined behaviour. The model returns no strides.
- The `_name` field and the printing helpers of `OMTensor.h` are not modelled.
- `getDataTypeSize` and the `OM_DATA_TYPE_SIZE` table are not modelled. The element byte width is a parameter of `GetDataBufferSize`.
- `OMTensor.h` declares the descriptor's getters and setters but does not define them. Only the documented contracts of the functions listed in the table are modelled.
- Floating-point element types are not modelled:
  - the float identities and `maxnum`/`minnum` of the reductions;
  - float division for ReduceMean;
  - float constants in ConstantOfShape.

  Only integer element types are covered.
- The Krnl matmul micro-kernel (SIMD, unrolling, loop permutation) is modelled by its effect on one tile: each clipped cell receives the products of the tile's K range.
- `getReductionMapping` is not part of this model. Its map is an input with the precondition `ValidMapping`: the output shape and the exact set of reduced axes.
- `IndexExpr` is not part of this model. An index expression is undefined, a literal or a symbol, and only its literal value is used.
- The shape helpers of MatMul and Slice are not part of this model. Their output dimensions, pad flags, starts and steps are inputs, described by preconditions.
- MatMul.LowerMatMul: in-bounds reads are a precondition (`ReadsInBounds`) rather than derived from the ONNX broadcasting rules. They are proved for the unpadded batched case (`NoBroadcastInBounds`) and for the source's 1-D example (`BroadcastExampleInBounds`).
- Reduction.LowerReduction: for ReduceMean the output must have at least one element. The source computes the divisor as input size floor-divided by output size (Reduction.cpp:315-325), and an empty output makes that a division by zero.
- Reduction.LowerReduction: for ReduceMean the divisor must also be nonzero after `IndexCast` to the w-bit element type (Reduction.cpp:331-333), because `divsi` by 0 is undefined. Two cases are excluded: a reduced dimension of extent 0, and a group size that is a multiple of 2^w, which wraps to 0 (256 elements per group in i8, say). That the divisor equals each group's size is not proved.
- Reduction.LowerReduction: a ReduceMean divisor that wraps to -1 is allowed: a group size of 2^w - 1, such as 255 elements per group in i8. `arith.divsi` leaves MinInt / -1 undefined, and the model gives that quotient its wrapped value, MinInt (`Ints.DivSI`). So for an accumulated MinInt the model returns a value where the compiled program's behaviour is undefined.
- Reduction.LowerReduceSum: runtime axes values are required to be in range, because the dynamic path does not check them. The output shape of that path is the mask-driven shape the source allocates.
- Reduction.LowerReduceSum: the mean branch (Reduction.cpp:645-690) is not modelled, because ReduceSum's lowering is only registered with `computeMean = false` (lines 697-706). ReduceMean takes the generic lowering, where the mean is modelled.
- TopK: both outputs share one dims list. The model returns that one list.
- TopK.ComputeShape: the source's assertion that the normalised axis is in range is a precondition.
- ConstantOfShape.LowerConstantOfShape: `value` must hold at least one element, since the source reads its first element unconditionally.
- ConstantOfShape.LowerConstantOfShape: when the output type has a dynamic dimension, the input must hold at least one element per output dimension, and those elements must be non-negative. The source loads input element i for every i below the rank and casts it to an index without checking either (ConstantOfShape.cpp:49-53). An out-of-bounds load and a negative extent are undefined behaviour, so the model excludes them.
- DEBUG_TRACE printing in MatMul and the `llvm_unreachable` branch for unsupported element types are left out.

## Findings

| source | as written | input that shows it | evidently intended | confidence | as-written member | corrected member |
|---|---|---|---|---|---|---|
| src/Conversion/ONNXToKrnl/Math/Reduction.cpp:434-453 | The mask of reduced axes starts at `true` only when the axes tensor's length is unknown at compile time (and noop_with_empty_axes is 0). A statically empty axes tensor starts the mask at `false`. The mask loop then marks nothing, so nothing is reduced. | ReduceSum on a rank-2 input, noop_with_empty_axes = 0, with a non-constant axes operand whose type has static shape `[0]`. The comment at line 447 assumes a known length cannot be 0, but that holds only for the constant and absent operands, which take the static path | An empty axes list reduces every axis when noop_with_empty_axes is 0, as the static path does (lines 522-527) and as the ONNX ReduceSum definition says | not executed; medium | Reduction.MaskInitAsWrittenSkipsStaticEmptyAxes (with Reduction.MaskInitAsWritten) | Reduction.MaskMatchesAxes (with Reduction.MaskInit, used by Reduction.LowerReduceSum) |
