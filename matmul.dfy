/**
 * Lowering of the ONNX MatMul operator (ONNXMatMulOpLowering), for an
 * integer element type of width w. Two 2-D operands take the tiled path: the
 * output is zero-filled, then the I x J x K iteration space is walked in
 * register tiles, each tile adding its partial products into C. Every other
 * combination of ranks takes the generic path: one loop nest over the output
 * with a scalar accumulator over the reduction dimension, reading A and B
 * through access functions that skip padded dimensions.
 */
module MatMul {

  import opened Ints
  import opened Runtime
  import opened IndexExprs

  // ---------------------------------------------------------------------------
  // Dispatch and tile sizes
  // ---------------------------------------------------------------------------

  datatype Path = Tiled2d | Generic

  /** The tiled path is taken exactly for two rank-2 operands. */
  function SelectPath(aRank: nat, bRank: nat): (p: Path)
    ensures p == Tiled2d <==> aRank == 2 && bRank == 2
  {
    if aRank == 2 && bRank == 2 then Tiled2d else Generic
  }

  datatype Tiles = Tiles(i: int, j: int, k: int)

  function Min(a: int, b: int): int { if a < b then a else b }

  /**
   * Register tile sizes: 4 x 8 x 8, with the I and K tiles reduced to a
   * smaller literal extent, and the J tile reduced to 4 for a literal J of
   * at most 32 that 4 divides and 8 does not.
   */
  function TileSizes(dimI: IndexExpr, dimJ: IndexExpr, dimK: IndexExpr): (t: Tiles)
    ensures t.i == (if dimI.IsLiteral() then Min(4, dimI.GetLiteral()) else 4)
    ensures t.k == (if dimK.IsLiteral() then Min(8, dimK.GetLiteral()) else 8)
    ensures t.j == 4 || t.j == 8
    ensures t.j == 4 <==>
      dimJ.IsLiteral() && dimJ.GetLiteral() % 8 != 0 && dimJ.GetLiteral() % 4 == 0 && dimJ.GetLiteral() <= 32
  {
    var iRegTile := if dimI.IsLiteral() && dimI.GetLiteral() < 4 then dimI.GetLiteral() else 4;
    var jRegTile :=
      if dimJ.IsLiteral() && dimJ.GetLiteral() % 8 != 0 && dimJ.GetLiteral() % 4 == 0 && dimJ.GetLiteral() <= 32
      then 4 else 8;
    var kRegTile := if dimK.IsLiteral() && dimK.GetLiteral() < 8 then dimK.GetLiteral() else 8;
    Tiles(iRegTile, jRegTile, kRegTile)
  }

  /**
   * For a literal J of at most 32 that 4 divides, the J tile divides J: the
   * steady state covers J with no partial block.
   */
  lemma SmallJHasNoPartialBlock(dimI: IndexExpr, dimJ: IndexExpr, dimK: IndexExpr)
    requires dimJ.IsLiteral() && 0 <= dimJ.GetLiteral() <= 32 && dimJ.GetLiteral() % 4 == 0
    ensures dimJ.GetLiteral() % TileSizes(dimI, dimJ, dimK).j == 0
  {
  }

  /** Every tile is positive and no larger than its dimension, unless that dimension is the literal 0. */
  lemma TilesFitDimensions(dimI: IndexExpr, dimJ: IndexExpr, dimK: IndexExpr)
    requires dimI.IsLiteral() ==> dimI.GetLiteral() >= 1
    requires dimK.IsLiteral() ==> dimK.GetLiteral() >= 1
    ensures var t := TileSizes(dimI, dimJ, dimK);
      && 1 <= t.i <= 4 && 1 <= t.k <= 8 && 4 <= t.j <= 8
      && (dimI.IsLiteral() ==> t.i <= dimI.GetLiteral())
      && (dimK.IsLiteral() ==> t.k <= dimK.GetLiteral())
  {
  }

  // ---------------------------------------------------------------------------
  // The tiled 2-D path
  // ---------------------------------------------------------------------------

  /** Row-major position of (i, j) in a rows x cols matrix. */
  function At2(rows: nat, cols: nat, i: int, j: int): (c: int)
    requires 0 <= i < rows && 0 <= j < cols
    ensures 0 <= c < rows * cols
  {
    AffineBound(i, j, rows, cols);
    i * cols + j
  }

  lemma At2Injective(rows: nat, cols: nat, i1: int, j1: int, i2: int, j2: int)
    requires 0 <= i1 < rows && 0 <= j1 < cols && 0 <= i2 < rows && 0 <= j2 < cols
    requires At2(rows, cols, i1, j1) == At2(rows, cols, i2, j2)
    ensures i1 == i2 && j1 == j2
  {
    DivModUnique(i1, j1, i2, j2, cols);
  }

  /** The first n products of row i of A with column j of B, summed exactly. */
  function Dot(A: seq<int>, B: seq<int>, I: nat, J: nat, K: nat, i: int, j: int, n: int): int
    requires |A| == I * K && |B| == K * J
    requires 0 <= i < I && 0 <= j < J && 0 <= n <= K
  {
    if n == 0 then 0
    else Dot(A, B, I, J, K, i, j, n - 1) + A[At2(I, K, i, n - 1)] * B[At2(K, J, n - 1, j)]
  }

  /**
   * C holds, at every (i, j), the wrapped sum of the first p(i, j) products;
   * a zero-filled C has p == 0 everywhere and the finished C has p == K.
   */
  ghost predicate Reached(w: Width, A: seq<int>, B: seq<int>, I: nat, J: nat, K: nat, cs: seq<int>, p: (int, int) -> int)
    requires |A| == I * K && |B| == K * J && |cs| == I * J
  {
    forall i, j :: 0 <= i < I && 0 <= j < J ==>
      0 <= p(i, j) <= K && cs[At2(I, J, i, j)] == Wrap(w, Dot(A, B, I, J, K, i, j, p(i, j)))
  }

  lemma Reframe(w: Width, A: seq<int>, B: seq<int>, I: nat, J: nat, K: nat, cs: seq<int>, p: (int, int) -> int, q: (int, int) -> int)
    requires |A| == I * K && |B| == K * J && |cs| == I * J
    requires Reached(w, A, B, I, J, K, cs, p)
    requires forall i, j :: 0 <= i < I && 0 <= j < J ==> p(i, j) == q(i, j)
    ensures Reached(w, A, B, I, J, K, cs, q)
  {
    forall i, j | 0 <= i < I && 0 <= j < J
      ensures 0 <= q(i, j) <= K && cs[At2(I, J, i, j)] == Wrap(w, Dot(A, B, I, J, K, i, j, q(i, j)))
    {
      assert p(i, j) == q(i, j);
    }
  }

  /** Advancing one cell to progress n keeps every other cell where it was. */
  lemma AdvanceCell(w: Width, A: seq<int>, B: seq<int>, I: nat, J: nat, K: nat, cs: seq<int>,
                    p: (int, int) -> int, q: (int, int) -> int, ii: int, jj: int)
    requires |A| == I * K && |B| == K * J && |cs| == I * J
    requires 0 <= ii < I && 0 <= jj < J && 0 <= q(ii, jj) <= K
    requires Reached(w, A, B, I, J, K, cs, p)
    requires forall i, j :: 0 <= i < I && 0 <= j < J && (i != ii || j != jj) ==> p(i, j) == q(i, j)
    ensures Reached(w, A, B, I, J, K, cs[At2(I, J, ii, jj) := Wrap(w, Dot(A, B, I, J, K, ii, jj, q(ii, jj)))], q)
  {
    var cell := At2(I, J, ii, jj);
    var ds := cs[cell := Wrap(w, Dot(A, B, I, J, K, ii, jj, q(ii, jj)))];
    forall i, j | 0 <= i < I && 0 <= j < J
      ensures 0 <= q(i, j) <= K && ds[At2(I, J, i, j)] == Wrap(w, Dot(A, B, I, J, K, i, j, q(i, j)))
    {
      if i != ii || j != jj {
        assert p(i, j) == q(i, j);
        if At2(I, J, i, j) == cell {
          At2Injective(I, J, i, j, ii, jj);
        }
      }
    }
  }

  /**
   * How far the blocked iteration has got at (i, j) when it is at tile
   * (i1, j1, k1): earlier row blocks and earlier column blocks of this row
   * block are complete, the current tile has the first k1 products.
   */
  function Progress(K: nat, iT: nat, jT: nat, i1: int, j1: int, k1: nat, i: int, j: int): int
  {
    if i < i1 then K
    else if i >= i1 + iT then 0
    else if j < j1 then K
    else if j >= j1 + jT then 0
    else Min(k1, K)
  }

  /**
   * One kernel application at cell (ii, jj): adds the products kFrom .. kTo-1
   * into C[ii, jj] with `muli` and `addi`.
   */
  method UpdateCell(w: Width, A: seq<int>, B: seq<int>, I: nat, J: nat, K: nat, C: array<int>, ii: int, jj: int, kFrom: int, kTo: int)
    requires |A| == I * K && |B| == K * J && C.Length == I * J
    requires 0 <= ii < I && 0 <= jj < J && 0 <= kFrom <= kTo <= K
    requires C[At2(I, J, ii, jj)] == Wrap(w, Dot(A, B, I, J, K, ii, jj, kFrom))
    modifies C
    ensures C[..] == old(C[..])[At2(I, J, ii, jj) := Wrap(w, Dot(A, B, I, J, K, ii, jj, kTo))]
  {
    var cell := At2(I, J, ii, jj);
    var kk := kFrom;
    while kk < kTo
      invariant kFrom <= kk <= kTo
      invariant C[..] == old(C[..])[cell := Wrap(w, Dot(A, B, I, J, K, ii, jj, kk))]
    {
      var a, b := A[At2(I, K, ii, kk)], B[At2(K, J, kk, jj)];
      var d := Dot(A, B, I, J, K, ii, jj, kk);
      WrapAddLeft(w, d, MulI(w, a, b));
      WrapAddRight(w, d, a * b);
      C[cell] := AddI(w, C[cell], MulI(w, a, b));
      kk := kk + 1;
    }
  }

  /** Progress inside one kernel application: cells of the tile before (ii, jj) in row-major order are done. */
  function KernelProgress(K: nat, iT: nat, jT: nat, i1: int, j1: int, k1: nat, kEnd: nat,
                          iEnd: int, jEnd: int, ii: int, jj: int, i: int, j: int): int
  {
    if i1 <= i < iEnd && j1 <= j < jEnd then
      (if i < ii || (i == ii && j < jj) then kEnd else k1)
    else Progress(K, iT, jT, i1, j1, k1, i, j)
  }

  /** Row ii of one kernel application. */
  method KernelRow(w: Width, A: seq<int>, B: seq<int>, I: nat, J: nat, K: nat, C: array<int>,
                   iT: nat, jT: nat, i1: nat, j1: nat, k1: nat, kEnd: nat, iEnd: int, jEnd: int, ii: int)
    requires |A| == I * K && |B| == K * J && C.Length == I * J
    requires i1 <= ii < iEnd <= I && iEnd <= i1 + iT && j1 < jEnd <= J && jEnd <= j1 + jT && k1 <= kEnd <= K && k1 < K
    requires Reached(w, A, B, I, J, K, C[..], (i, j) => KernelProgress(K, iT, jT, i1, j1, k1, kEnd, iEnd, jEnd, ii, j1, i, j))
    modifies C
    ensures Reached(w, A, B, I, J, K, C[..], (i, j) => KernelProgress(K, iT, jT, i1, j1, k1, kEnd, iEnd, jEnd, ii + 1, j1, i, j))
  {
    var jj := j1;
    while jj < jEnd
      invariant j1 <= jj <= jEnd
      invariant Reached(w, A, B, I, J, K, C[..], (i, j) => KernelProgress(K, iT, jT, i1, j1, k1, kEnd, iEnd, jEnd, ii, jj, i, j))
    {
      ghost var p := (i, j) => KernelProgress(K, iT, jT, i1, j1, k1, kEnd, iEnd, jEnd, ii, jj, i, j);
      ghost var q := (i, j) => KernelProgress(K, iT, jT, i1, j1, k1, kEnd, iEnd, jEnd, ii, jj + 1, i, j);
      assert p(ii, jj) == k1;
      ghost var before := C[..];
      UpdateCell(w, A, B, I, J, K, C, ii, jj, k1, kEnd);
      AdvanceCell(w, A, B, I, J, K, before, p, q, ii, jj);
      jj := jj + 1;
    }
    Reframe(w, A, B, I, J, K, C[..], (i, j) => KernelProgress(K, iT, jT, i1, j1, k1, kEnd, iEnd, jEnd, ii, jj, i, j),
      (i, j) => KernelProgress(K, iT, jT, i1, j1, k1, kEnd, iEnd, jEnd, ii + 1, j1, i, j));
  }

  /**
   * The kernel for tile (i1, j1, k1): every cell of the tile, clipped to the
   * matrix, receives the products of the tile's K range.
   */
  method Kernel(w: Width, A: seq<int>, B: seq<int>, I: nat, J: nat, K: nat, C: array<int>,
                iT: nat, jT: nat, kT: nat, i1: nat, j1: nat, k1: nat)
    requires |A| == I * K && |B| == K * J && C.Length == I * J
    requires i1 < I && j1 < J && k1 < K && iT >= 1 && jT >= 1 && kT >= 1
    requires Reached(w, A, B, I, J, K, C[..], (i, j) => Progress(K, iT, jT, i1, j1, k1, i, j))
    modifies C
    ensures Reached(w, A, B, I, J, K, C[..], (i, j) => Progress(K, iT, jT, i1, j1, k1 + kT, i, j))
  {
    var iEnd, jEnd, kEnd := Min(i1 + iT, I), Min(j1 + jT, J), Min(k1 + kT, K);
    Reframe(w, A, B, I, J, K, C[..], (i, j) => Progress(K, iT, jT, i1, j1, k1, i, j),
      (i, j) => KernelProgress(K, iT, jT, i1, j1, k1, kEnd, iEnd, jEnd, i1, j1, i, j));
    var ii := i1;
    while ii < iEnd
      invariant i1 <= ii <= iEnd
      invariant Reached(w, A, B, I, J, K, C[..], (i, j) => KernelProgress(K, iT, jT, i1, j1, k1, kEnd, iEnd, jEnd, ii, j1, i, j))
    {
      KernelRow(w, A, B, I, J, K, C, iT, jT, i1, j1, k1, kEnd, iEnd, jEnd, ii);
      ii := ii + 1;
    }
    Reframe(w, A, B, I, J, K, C[..], (i, j) => KernelProgress(K, iT, jT, i1, j1, k1, kEnd, iEnd, jEnd, ii, j1, i, j),
      (i, j) => Progress(K, iT, jT, i1, j1, k1 + kT, i, j));
  }

  /** `krnl.memset` of C to zero. */
  method ZeroFill(C: array<int>)
    modifies C
    ensures forall d :: 0 <= d < C.Length ==> C[d] == 0
  {
    var c := 0;
    while c < C.Length
      invariant 0 <= c <= C.Length
      invariant forall d :: 0 <= d < c ==> C[d] == 0
    {
      C[c] := 0;
      c := c + 1;
    }
  }

  /** A zero-filled C has no products yet at any cell. */
  lemma ZeroIsReached(w: Width, A: seq<int>, B: seq<int>, I: nat, J: nat, K: nat, cs: seq<int>)
    requires |A| == I * K && |B| == K * J && |cs| == I * J
    requires forall d :: 0 <= d < |cs| ==> cs[d] == 0
    ensures Reached(w, A, B, I, J, K, cs, (i, j) => if i < 0 then K else 0)
  {
    assert InRange(w, 0);
  }

  /** Once every row is complete, every cell holds its full wrapped dot product. */
  lemma ReachedAll(w: Width, A: seq<int>, B: seq<int>, I: nat, J: nat, K: nat, cs: seq<int>, i1: int)
    requires |A| == I * K && |B| == K * J && |cs| == I * J && i1 >= I
    requires Reached(w, A, B, I, J, K, cs, (i, j) => if i < i1 then K else 0)
    ensures forall i, j :: 0 <= i < I && 0 <= j < J ==> cs[At2(I, J, i, j)] == Wrap(w, Dot(A, B, I, J, K, i, j, K))
  {
    forall i, j | 0 <= i < I && 0 <= j < J
      ensures cs[At2(I, J, i, j)] == Wrap(w, Dot(A, B, I, J, K, i, j, K))
    {
      assert (if i < i1 then K else 0) == K;
    }
  }

  /** The K blocks of tile column j1 in row block i1. */
  method ColumnBlock(w: Width, A: seq<int>, B: seq<int>, I: nat, J: nat, K: nat, C: array<int>,
                     iT: nat, jT: nat, kT: nat, i1: nat, j1: nat)
    requires |A| == I * K && |B| == K * J && C.Length == I * J
    requires i1 < I && j1 < J && iT >= 1 && jT >= 1 && (K > 0 ==> kT >= 1)
    requires Reached(w, A, B, I, J, K, C[..], (i, j) => Progress(K, iT, jT, i1, j1, 0, i, j))
    modifies C
    ensures Reached(w, A, B, I, J, K, C[..], (i, j) => Progress(K, iT, jT, i1, j1 + jT, 0, i, j))
  {
    var k1 := 0;
    while k1 < K
      invariant k1 >= 0
      invariant Reached(w, A, B, I, J, K, C[..], (i, j) => Progress(K, iT, jT, i1, j1, k1, i, j))
      decreases K - k1
    {
      Kernel(w, A, B, I, J, K, C, iT, jT, kT, i1, j1, k1);
      k1 := k1 + kT;
    }
    Reframe(w, A, B, I, J, K, C[..], (i, j) => Progress(K, iT, jT, i1, j1, k1, i, j),
      (i, j) => Progress(K, iT, jT, i1, j1 + jT, 0, i, j));
  }

  /** The column blocks of row block i1. */
  method RowBlock(w: Width, A: seq<int>, B: seq<int>, I: nat, J: nat, K: nat, C: array<int>,
                  iT: nat, jT: nat, kT: nat, i1: nat)
    requires |A| == I * K && |B| == K * J && C.Length == I * J
    requires i1 < I && iT >= 1 && (J > 0 ==> jT >= 1) && (K > 0 ==> kT >= 1)
    requires Reached(w, A, B, I, J, K, C[..], (i, j) => if i < i1 then K else 0)
    modifies C
    ensures Reached(w, A, B, I, J, K, C[..], (i, j) => if i < i1 + iT then K else 0)
  {
    Reframe(w, A, B, I, J, K, C[..], (i, j) => if i < i1 then K else 0, (i, j) => Progress(K, iT, jT, i1, 0, 0, i, j));
    var j1 := 0;
    while j1 < J
      invariant j1 >= 0
      invariant Reached(w, A, B, I, J, K, C[..], (i, j) => Progress(K, iT, jT, i1, j1, 0, i, j))
      decreases J - j1
    {
      ColumnBlock(w, A, B, I, J, K, C, iT, jT, kT, i1, j1);
      j1 := j1 + jT;
    }
    Reframe(w, A, B, I, J, K, C[..], (i, j) => Progress(K, iT, jT, i1, j1, 0, i, j),
      (i, j) => if i < i1 + iT then K else 0);
  }

  /**
   * replace2x2Matmul2d: C (I x J) is zero-filled, then the blocked loops
   * visit the tiles row block by row block, column block by column block,
   * K block by K block, applying the kernel to each. I, J and K are the
   * run-time extents; dimI, dimJ and dimK say which of them are known as
   * literals.
   */
  method Matmul2d(w: Width, A: seq<int>, B: seq<int>, I: nat, J: nat, K: nat,
                  dimI: IndexExpr, dimJ: IndexExpr, dimK: IndexExpr, C: array<int>)
    requires |A| == I * K && |B| == K * J && C.Length == I * J
    requires dimI.IsLiteral() ==> dimI.GetLiteral() == I
    requires dimJ.IsLiteral() ==> dimJ.GetLiteral() == J
    requires dimK.IsLiteral() ==> dimK.GetLiteral() == K
    modifies C
    ensures forall i, j :: 0 <= i < I && 0 <= j < J ==> C[At2(I, J, i, j)] == Wrap(w, Dot(A, B, I, J, K, i, j, K))
  {
    ZeroFill(C);
    var tiles := TileSizes(dimI, dimJ, dimK);
    assert I > 0 ==> tiles.i >= 1;
    assert K > 0 ==> tiles.k >= 1;
    BlockedLoops(w, A, B, I, J, K, C, tiles.i, tiles.j, tiles.k);
  }

  /** The row-block loop of replace2x2Matmul2d over a zero-filled C, with the chosen tile sizes. */
  method BlockedLoops(w: Width, A: seq<int>, B: seq<int>, I: nat, J: nat, K: nat, C: array<int>, iT: nat, jT: nat, kT: nat)
    requires |A| == I * K && |B| == K * J && C.Length == I * J
    requires (I > 0 ==> iT >= 1) && (J > 0 ==> jT >= 1) && (K > 0 ==> kT >= 1)
    requires forall d :: 0 <= d < C.Length ==> C[d] == 0
    modifies C
    ensures forall i, j :: 0 <= i < I && 0 <= j < J ==> C[At2(I, J, i, j)] == Wrap(w, Dot(A, B, I, J, K, i, j, K))
  {
    ZeroIsReached(w, A, B, I, J, K, C[..]);
    var i1 := 0;
    while i1 < I
      invariant i1 >= 0
      invariant Reached(w, A, B, I, J, K, C[..], (i, j) => if i < i1 then K else 0)
      decreases I - i1
    {
      RowBlock(w, A, B, I, J, K, C, iT, jT, kT, i1);
      i1 := i1 + iT;
    }
    ReachedAll(w, A, B, I, J, K, C[..], i1);
  }

  // ---------------------------------------------------------------------------
  // The generic path
  // ---------------------------------------------------------------------------

  /**
   * One operand as the generic path sees it: its elements in row-major
   * order, the shape of its buffer, and one flag per dimension of its padded
   * shape (the operands padded on the left with size-1 dimensions to a
   * common rank) saying whether that dimension was synthesized.
   */
  datatype Operand = Operand(data: seq<int>, shape: Shape, pad: seq<bool>)

  predicate WellFormed(x: Operand)
  {
    |x.data| == Product(x.shape)
  }

  /** Every real dimension of A is either its reduction dimension (the last) or has an outer index. */
  predicate ADefined(outRank: nat, pad: seq<bool>)
  {
    forall i :: 0 <= i < |pad| && !pad[i] ==> i == |pad| - 1 || i < outRank
  }

  /**
   * Every real dimension of B is its reduction dimension (second to last),
   * or the dimension one past the output rank (read with the previous outer
   * index), or has an outer index of its own.
   */
  predicate BDefined(outRank: nat, pad: seq<bool>)
  {
    forall i :: 0 <= i < |pad| && !pad[i] ==> i == |pad| - 2 || (i == outRank && i >= 1) || i < outRank
  }

  /** The access indices into A for the first n padded dimensions, at outer indices o and reduction index k. */
  function AccessA(o: seq<int>, k: int, pad: seq<bool>, n: nat): seq<int>
    requires n <= |pad| && ADefined(|o|, pad)
  {
    if n == 0 then []
    else
      var i := n - 1;
      AccessA(o, k, pad, i) + (if pad[i] then [] else [if i == |pad| - 1 then k else o[i]])
  }

  /** The access indices into B for the first n padded dimensions. */
  function AccessB(o: seq<int>, k: int, pad: seq<bool>, n: nat): seq<int>
    requires n <= |pad| && BDefined(|o|, pad)
  {
    if n == 0 then []
    else
      var i := n - 1;
      AccessB(o, k, pad, i) + (if pad[i] then [] else [if i == |pad| - 2 then k else if i == |o| then o[i - 1] else o[i]])
  }

  /** How many dimensions of a padded shape are real. */
  function RealDims(pad: seq<bool>): nat
  {
    if |pad| == 0 then 0 else RealDims(pad[..|pad| - 1]) + (if pad[|pad| - 1] then 0 else 1)
  }

  /** An access vector has one index per real dimension of its operand. */
  lemma {:induction false} AccessLengths(o: seq<int>, k: int, aPad: seq<bool>, bPad: seq<bool>, n: nat)
    requires n <= |aPad| && n <= |bPad| && ADefined(|o|, aPad) && BDefined(|o|, bPad)
    ensures |AccessA(o, k, aPad, n)| == RealDims(aPad[..n])
    ensures |AccessB(o, k, bPad, n)| == RealDims(bPad[..n])
  {
    if n > 0 {
      AccessLengths(o, k, aPad, bPad, n - 1);
      assert aPad[..n][..n - 1] == aPad[..n - 1];
      assert bPad[..n][..n - 1] == bPad[..n - 1];
    }
  }

  /**
   * The access vectors of one reduction step, built dimension by dimension
   * by appending the index of every dimension that is not padded.
   */
  method BuildAccess(o: seq<int>, k: int, aPad: seq<bool>, bPad: seq<bool>) returns (aAccess: seq<int>, bAccess: seq<int>)
    requires |aPad| == |bPad| && ADefined(|o|, aPad) && BDefined(|o|, bPad)
    ensures aAccess == AccessA(o, k, aPad, |aPad|)
    ensures bAccess == AccessB(o, k, bPad, |bPad|)
  {
    var rank := |aPad|;
    aAccess, bAccess := [], [];
    var i := 0;
    while i < rank
      invariant 0 <= i <= rank
      invariant aAccess == AccessA(o, k, aPad, i)
      invariant bAccess == AccessB(o, k, bPad, i)
    {
      if !aPad[i] {
        if i == rank - 1 {
          aAccess := aAccess + [k];
        } else {
          aAccess := aAccess + [o[i]];
        }
      }
      if !bPad[i] {
        if i == rank - 2 {
          bAccess := bAccess + [k];
        } else if i == |o| {
          bAccess := bAccess + [o[i - 1]];
        } else {
          bAccess := bAccess + [o[i]];
        }
      }
      i := i + 1;
    }
  }

  /** At outer indices o, every reduction step reads A and B inside their buffers. */
  predicate ReadsInBounds(a: Operand, b: Operand, K: nat, o: seq<int>)
  {
    && |a.pad| == |b.pad| && ADefined(|o|, a.pad) && BDefined(|o|, b.pad)
    && forall k :: 0 <= k < K ==>
         InBounds(AccessA(o, k, a.pad, |a.pad|), a.shape) && InBounds(AccessB(o, k, b.pad, |b.pad|), b.shape)
  }

  /** The exact sum of the first n products accumulated for the output element at o. */
  function GenericSum(a: Operand, b: Operand, K: nat, o: seq<int>, n: nat): int
    requires WellFormed(a) && WellFormed(b) && ReadsInBounds(a, b, K, o) && n <= K
  {
    if n == 0 then 0
    else
      var aIdx, bIdx := AccessA(o, n - 1, a.pad, |a.pad|), AccessB(o, n - 1, b.pad, |b.pad|);
      ElemOffsetInRange(a.shape, aIdx);
      ElemOffsetInRange(b.shape, bIdx);
      GenericSum(a, b, K, o, n - 1) + a.data[Offset(a.shape, aIdx)] * b.data[Offset(b.shape, bIdx)]
  }

  /** One more reduction step adds the product read through the access vectors of step k. */
  lemma GenericSumStep(a: Operand, b: Operand, K: nat, o: seq<int>, k: nat, aIdx: seq<int>, bIdx: seq<int>)
    requires WellFormed(a) && WellFormed(b) && ReadsInBounds(a, b, K, o) && k < K
    requires aIdx == AccessA(o, k, a.pad, |a.pad|) && bIdx == AccessB(o, k, b.pad, |b.pad|)
    ensures InBounds(aIdx, a.shape) && InBounds(bIdx, b.shape)
    ensures 0 <= Offset(a.shape, aIdx) < |a.data| && 0 <= Offset(b.shape, bIdx) < |b.data|
    ensures GenericSum(a, b, K, o, k + 1) == GenericSum(a, b, K, o, k) + a.data[Offset(a.shape, aIdx)] * b.data[Offset(b.shape, bIdx)]
  {
    ElemOffsetInRange(a.shape, aIdx);
    ElemOffsetInRange(b.shape, bIdx);
  }

  /** The value the generic path stores at o: the full sum, wrapped to w bits. */
  function GenericAt(w: Width, a: Operand, b: Operand, K: nat, o: seq<int>): int
    requires WellFormed(a) && WellFormed(b) && ReadsInBounds(a, b, K, o)
  {
    Wrap(w, GenericSum(a, b, K, o, K))
  }

  /**
   * The reduction loop for one output element: a scalar accumulator starts
   * at zero and receives, for each k, the product of the A and B elements
   * read through the access vectors, with `muli` and `addi`.
   */
  method ReduceElement(w: Width, a: Operand, b: Operand, K: nat, o: seq<int>) returns (acc: int)
    requires WellFormed(a) && WellFormed(b) && ReadsInBounds(a, b, K, o)
    ensures acc == GenericAt(w, a, b, K, o)
  {
    assert InRange(w, 0);
    acc := 0;
    var k := 0;
    while k < K
      invariant 0 <= k <= K
      invariant acc == Wrap(w, GenericSum(a, b, K, o, k))
    {
      acc := MultiplyAccumulate(w, a, b, K, o, k, acc);
      k := k + 1;
    }
  }

  /** Reduction step k: build the access vectors, load both elements and accumulate their product. */
  method MultiplyAccumulate(w: Width, a: Operand, b: Operand, K: nat, o: seq<int>, k: nat, acc: int) returns (next: int)
    requires WellFormed(a) && WellFormed(b) && ReadsInBounds(a, b, K, o) && k < K
    requires acc == Wrap(w, GenericSum(a, b, K, o, k))
    ensures next == Wrap(w, GenericSum(a, b, K, o, k + 1))
  {
    var aAccess, bAccess := BuildAccess(o, k, a.pad, b.pad);
    GenericSumStep(a, b, K, o, k, aAccess, bAccess);
    var loadedA := a.data[Offset(a.shape, aAccess)];
    var loadedB := b.data[Offset(b.shape, bAccess)];
    MulAddStep(w, GenericSum(a, b, K, o, k), loadedA, loadedB);
    next := AddI(w, acc, MulI(w, loadedA, loadedB));
  }

  /** Iteration n of the generic loop nest: the reduction for index tuple n is stored at its offset, which is n. */
  method ComputeElement(w: Width, a: Operand, b: Operand, K: nat, outShape: Shape, alloc: array<int>, n: nat)
    requires WellFormed(a) && WellFormed(b) && alloc.Length == Product(outShape) && n < alloc.Length
    requires forall o :: InBounds(o, outShape) ==> ReadsInBounds(a, b, K, o)
    modifies alloc
    ensures n < |IndexSet(outShape)| && InBounds(IndexSet(outShape)[n], outShape)
    ensures alloc[..] == old(alloc[..])[n := GenericAt(w, a, b, K, IndexSet(outShape)[n])]
  {
    IndexSetLength(outShape);
    var o := IndexSet(outShape)[n];
    IndexSetAt(outShape, n);
    var acc := ReduceElement(w, a, b, K, o);
    alloc[Offset(outShape, o)] := acc;
  }

  /**
   * The bound of the reduction loop: the last dimension of A. A is padded
   * on the left only, so its last padded dimension is its last real one.
   */
  function InnerBound(a: Operand): nat
    requires |a.shape| >= 1
  {
    a.shape[|a.shape| - 1]
  }

  /** The generic loop nest: one reduction per output element, stored at its row-major position. */
  method GenericMatmul(w: Width, a: Operand, b: Operand, outShape: Shape, alloc: array<int>)
    requires WellFormed(a) && WellFormed(b) && |a.shape| >= 1 && alloc.Length == Product(outShape)
    requires forall o :: InBounds(o, outShape) ==> ReadsInBounds(a, b, InnerBound(a), o)
    modifies alloc
    ensures forall o :: InBounds(o, outShape) ==>
      0 <= Offset(outShape, o) < alloc.Length && alloc[Offset(outShape, o)] == GenericAt(w, a, b, InnerBound(a), o)
  {
    var K := a.shape[|a.shape| - 1];
    IndexSetLength(outShape);
    var n := 0;
    while n < alloc.Length
      invariant 0 <= n <= alloc.Length
      invariant forall m :: 0 <= m < n ==> InBounds(IndexSet(outShape)[m], outShape)
      invariant forall m :: 0 <= m < n ==> alloc[m] == GenericAt(w, a, b, K, IndexSet(outShape)[m])
    {
      ComputeElement(w, a, b, K, outShape, alloc, n);
      n := n + 1;
    }
    GenericStored(w, a, b, K, outShape, alloc[..]);
  }

  /** Once position m holds the reduction of index tuple m for every m, each in-bounds tuple's offset holds its reduction. */
  lemma GenericStored(w: Width, a: Operand, b: Operand, K: nat, outShape: Shape, cs: seq<int>)
    requires WellFormed(a) && WellFormed(b) && |cs| == Product(outShape)
    requires forall o :: InBounds(o, outShape) ==> ReadsInBounds(a, b, K, o)
    requires |IndexSet(outShape)| == |cs| &&
      forall m :: 0 <= m < |cs| ==> InBounds(IndexSet(outShape)[m], outShape) && cs[m] == GenericAt(w, a, b, K, IndexSet(outShape)[m])
    ensures forall o :: InBounds(o, outShape) ==>
      0 <= Offset(outShape, o) < |cs| && cs[Offset(outShape, o)] == GenericAt(w, a, b, K, o)
  {
    forall o | InBounds(o, outShape)
      ensures 0 <= Offset(outShape, o) < |cs| && cs[Offset(outShape, o)] == GenericAt(w, a, b, K, o)
    {
      IndexSetComplete(outShape, o);
    }
  }

  /**
   * (5) x (10, 5, 4): A is padded to (1, 1, 5) and B is not padded; the
   * output (10, 4) has lost the padded row dimension, so A is read at [k]
   * and B at [o0, k, o1], the last index shifted back by one. Symmetrically,
   * (10, 3, 5) x (5) pads B to (1, 5, 1) and reads A at [o0, o1, k], B at [k].
   */
  lemma AccessExamples(o0: int, o1: int, k: int)
    ensures AccessA([o0, o1], k, [true, true, false], 3) == [k]
    ensures AccessB([o0, o1], k, [false, false, false], 3) == [o0, k, o1]
    ensures AccessA([o0, o1], k, [false, false, false], 3) == [o0, o1, k]
    ensures AccessB([o0, o1], k, [true, false, true], 3) == [k]
  {
    var o := [o0, o1];
    assert AccessA(o, k, [true, true, false], 1) == [];
    assert AccessA(o, k, [true, true, false], 2) == [];
    assert AccessB(o, k, [false, false, false], 1) == [o0];
    assert AccessB(o, k, [false, false, false], 2) == [o0, k];
    assert AccessA(o, k, [false, false, false], 1) == [o0];
    assert AccessA(o, k, [false, false, false], 2) == [o0, o1];
    assert AccessB(o, k, [true, false, true], 1) == [];
    assert AccessB(o, k, [true, false, true], 2) == [k];
  }

  /** In the (5) x (10, 5, 4) example every read of every output element stays inside A and B. */
  lemma BroadcastExampleInBounds(o: seq<int>)
    requires InBounds(o, [10, 4])
    ensures ReadsInBounds(Operand([], [5], [true, true, false]), Operand([], [10, 5, 4], [false, false, false]), 5, o)
  {
    forall k | 0 <= k < 5
      ensures AccessA(o, k, [true, true, false], 3) == [k]
      ensures AccessB(o, k, [false, false, false], 3) == [o[0], k, o[1]]
    {
      assert o == [o[0], o[1]];
      AccessExamples(o[0], o[1], k);
    }
  }

  /**
   * For operands of the output's rank with no padded dimension (a batched
   * product without broadcast), A is read at the outer indices with the
   * column replaced by k, and B at the outer indices with the row replaced
   * by k.
   */
  lemma {:induction false} NoPaddingAccess(o: seq<int>, k: int, pad: seq<bool>, n: nat)
    requires |pad| == |o| >= 2 && n <= |pad| && forall i :: 0 <= i < |pad| ==> !pad[i]
    ensures ADefined(|o|, pad) && BDefined(|o|, pad)
    ensures n == |o| ==> AccessA(o, k, pad, n) == o[|o| - 1 := k]
    ensures n < |o| ==> AccessA(o, k, pad, n) == o[..n]
    ensures n < |o| - 1 ==> AccessB(o, k, pad, n) == o[..n]
    ensures n >= |o| - 1 ==> AccessB(o, k, pad, n) == o[..n][|o| - 2 := k]
  {
    if n > 0 {
      NoPaddingAccess(o, k, pad, n - 1);
      assert o[..n] == o[..n - 1] + [o[n - 1]];
    }
  }

  /**
   * Without broadcast (A is batch x I x K, B is batch x K x J, the output
   * batch x I x J, nothing padded), every read of the generic path is in
   * bounds.
   */
  lemma NoBroadcastInBounds(a: Operand, b: Operand, batch: Shape, I: nat, J: nat, K: nat, o: seq<int>)
    requires a.shape == batch + [I, K] && b.shape == batch + [K, J]
    requires |a.pad| == |b.pad| == |batch| + 2
    requires forall i :: 0 <= i < |a.pad| ==> !a.pad[i] && !b.pad[i]
    requires InBounds(o, batch + [I, J])
    ensures ReadsInBounds(a, b, K, o)
  {
    var R := |batch| + 2;
    NoPaddingAccess(o, 0, a.pad, R);
    NoPaddingAccess(o, 0, b.pad, R);
    forall k | 0 <= k < K
      ensures InBounds(AccessA(o, k, a.pad, R), a.shape) && InBounds(AccessB(o, k, b.pad, R), b.shape)
    {
      NoPaddingAccess(o, k, a.pad, R);
      NoPaddingAccess(o, k, b.pad, R);
      assert o[..R] == o;
      forall j | 0 <= j < R
        ensures 0 <= AccessA(o, k, a.pad, R)[j] < a.shape[j]
        ensures 0 <= AccessB(o, k, b.pad, R)[j] < b.shape[j]
      {
        assert 0 <= o[j] < (batch + [I, J])[j];
      }
    }
  }

  /** The row-major offset of (i, j) in a rows x cols matrix is At2. */
  lemma Offset2(rows: nat, cols: nat, i: int, j: int)
    requires 0 <= i < rows && 0 <= j < cols
    ensures Offset([rows, cols], [i, j]) == At2(rows, cols, i, j)
  {
    var strides := StridesFromSizes([rows, cols]);
    assert strides == [cols, 1];
    assert [i, j][..1] == [i];
    assert [i][..0] == [];
    assert ElemOffset(strides, []) == 0;
    assert ElemOffset(strides, [i]) == i * cols;
    assert ElemOffset(strides, [i, j]) == i * cols + j * 1;
  }

  /** Two unpadded 2-D operands are read in bounds at every (i, j). */
  lemma Rank2Reads(A: seq<int>, B: seq<int>, I: nat, J: nat, K: nat, i: int, j: int)
    requires |A| == I * K && |B| == K * J && 0 <= i < I && 0 <= j < J
    ensures var a, b := Operand(A, [I, K], [false, false]), Operand(B, [K, J], [false, false]);
      WellFormed(a) && WellFormed(b) && ReadsInBounds(a, b, K, [i, j])
  {
    Product2(I, K);
    Product2(K, J);
    NoBroadcastInBounds(Operand(A, [I, K], [false, false]), Operand(B, [K, J], [false, false]), [], I, J, K, [i, j]);
  }

  /** Step k of the generic accumulation on 2-D operands adds A[i, k] * B[k, j]. */
  lemma Rank2Step(A: seq<int>, B: seq<int>, I: nat, J: nat, K: nat, i: int, j: int, k: nat)
    requires |A| == I * K && |B| == K * J && 0 <= i < I && 0 <= j < J && k < K
    ensures var a, b := Operand(A, [I, K], [false, false]), Operand(B, [K, J], [false, false]);
      WellFormed(a) && WellFormed(b) && ReadsInBounds(a, b, K, [i, j])
      && GenericSum(a, b, K, [i, j], k + 1) == GenericSum(a, b, K, [i, j], k) + A[At2(I, K, i, k)] * B[At2(K, J, k, j)]
  {
    var a, b := Operand(A, [I, K], [false, false]), Operand(B, [K, J], [false, false]);
    Rank2Reads(A, B, I, J, K, i, j);
    NoPaddingAccess([i, j], k, a.pad, 2);
    NoPaddingAccess([i, j], k, b.pad, 2);
    assert AccessA([i, j], k, a.pad, 2) == [i, k];
    assert AccessB([i, j], k, b.pad, 2) == [k, j];
    Offset2(I, K, i, k);
    Offset2(K, J, k, j);
    GenericSumStep(a, b, K, [i, j], k, [i, k], [k, j]);
  }

  /**
   * On two unpadded 2-D operands the generic accumulation is the dot
   * product the tiled path accumulates: both paths compute the same C.
   */
  lemma {:induction false} PathsAgree(A: seq<int>, B: seq<int>, I: nat, J: nat, K: nat, i: int, j: int, n: nat)
    requires |A| == I * K && |B| == K * J && 0 <= i < I && 0 <= j < J && n <= K
    ensures var a, b := Operand(A, [I, K], [false, false]), Operand(B, [K, J], [false, false]);
      WellFormed(a) && WellFormed(b) && ReadsInBounds(a, b, K, [i, j])
      && GenericSum(a, b, K, [i, j], n) == Dot(A, B, I, J, K, i, j, n)
  {
    Rank2Reads(A, B, I, J, K, i, j);
    if n > 0 {
      PathsAgree(A, B, I, J, K, i, j, n - 1);
      Rank2Step(A, B, I, J, K, i, j, n - 1);
    }
  }

  lemma Product2(x: nat, y: nat)
    ensures Product([x, y]) == x * y
  {
    assert [x, y][..1] == [x];
    assert [x][..0] == [];
    assert Product([x]) == x;
  }

  /** A C holding every full dot product holds, at every output index, what the generic path computes. */
  lemma TiledIsGeneric(w: Width, a: Operand, b: Operand, I: nat, J: nat, K: nat, cs: seq<int>)
    requires a == Operand(a.data, [I, K], [false, false]) && b == Operand(b.data, [K, J], [false, false])
    requires |a.data| == I * K && |b.data| == K * J && |cs| == I * J
    requires forall i, j :: 0 <= i < I && 0 <= j < J ==> cs[At2(I, J, i, j)] == Wrap(w, Dot(a.data, b.data, I, J, K, i, j, K))
    ensures WellFormed(a) && WellFormed(b)
    ensures forall o :: InBounds(o, [I, J]) ==>
      (ReadsInBounds(a, b, K, o) && 0 <= Offset([I, J], o) < |cs| && cs[Offset([I, J], o)] == GenericAt(w, a, b, K, o))
  {
    Product2(I, K);
    Product2(K, J);
    forall o | InBounds(o, [I, J])
      ensures ReadsInBounds(a, b, K, o) && 0 <= Offset([I, J], o) < |cs| && cs[Offset([I, J], o)] == GenericAt(w, a, b, K, o)
    {
      assert o == [o[0], o[1]];
      Offset2(I, J, o[0], o[1]);
      PathsAgree(a.data, b.data, I, J, K, o[0], o[1], K);
    }
  }

  /** What the shape helper guarantees for two 2-D operands: an I x K by K x J product into I x J, nothing padded. */
  predicate Rank2Shapes(a: Operand, b: Operand, K: nat, outShape: Shape)
    requires |a.shape| == 2 && |b.shape| == 2
  {
    && a.shape[1] == K && b.shape[0] == K && outShape == [a.shape[0], b.shape[1]]
    && a.pad == [false, false] && b.pad == [false, false]
  }

  /**
   * The MatMul lowering: allocates the output and dispatches on the operand
   * ranks. Either way the element at o is the wrapped sum over k of A and B
   * read through the access vectors; dimI, dimJ and dimK are the extents of
   * C and of A's columns as index expressions, literal when static.
   */
  method LowerMatMul(w: Width, a: Operand, b: Operand, outShape: Shape,
                     dimI: IndexExpr, dimJ: IndexExpr, dimK: IndexExpr) returns (out: seq<int>)
    requires WellFormed(a) && WellFormed(b) && |a.shape| >= 1
    requires forall o :: InBounds(o, outShape) ==> ReadsInBounds(a, b, InnerBound(a), o)
    requires |a.shape| == 2 && |b.shape| == 2 ==>
      && Rank2Shapes(a, b, InnerBound(a), outShape)
      && (dimI.IsLiteral() ==> dimI.GetLiteral() == outShape[0])
      && (dimJ.IsLiteral() ==> dimJ.GetLiteral() == outShape[1])
      && (dimK.IsLiteral() ==> dimK.GetLiteral() == InnerBound(a))
    ensures |out| == Product(outShape)
    ensures forall o :: InBounds(o, outShape) ==>
      0 <= Offset(outShape, o) < |out| && out[Offset(outShape, o)] == GenericAt(w, a, b, InnerBound(a), o)
  {
    ProductNonNegative(outShape);
    if SelectPath(|a.shape|, |b.shape|) == Tiled2d {
      var I, J, K := a.shape[0], b.shape[1], a.shape[1];
      assert a.shape == [I, K] && b.shape == [K, J];
      Product2(I, K);
      Product2(K, J);
      Product2(I, J);
      var C := new int[I * J];
      Matmul2d(w, a.data, b.data, I, J, K, dimI, dimJ, dimK, C);
      out := C[..];
      TiledIsGeneric(w, a, b, I, J, K, out);
    } else {
      var alloc := new int[Product(outShape)];
      GenericMatmul(w, a, b, outShape, alloc);
      out := alloc[..];
    }
  }
}
