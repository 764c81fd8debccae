/** The host's sequential `multiplyMatrices(a, rowsA, colsA, b, bX, colsB, out)`: a triple loop over
    row-major buffers that sets `out[row * colsA + col]` to `Σ_{k < colsB} a[row * colsA + k] * b[k * colsB + col]`
    for every `row < rowsA` and `col < colsA`. Its parameter `bX` is never used. */
module Reference {
  import opened Arith
  import opened Sums
  import opened Layout
  import opened Matrix

  /** Every element the loops read lies inside `a` and `b`: the largest indices are
      `(rowsA - 1) * colsA + colsB - 1` in `a` and `(colsB - 1) * colsB + colsA - 1` in `b`. */
  predicate ReadsInBounds(aLen: nat, rowsA: nat, colsA: nat, bLen: nat, colsB: nat)
  {
    rowsA == 0 || colsA == 0 || colsB == 0 ||
    (Mul(rowsA - 1, colsA) + colsB - 1 < aLen && Mul(colsB - 1, colsB) + colsA - 1 < bLen)
  }

  /** Every position the loops store into lies inside `out`. */
  predicate WritesInBounds(rowsA: nat, colsA: nat, outLen: nat)
  {
    outLen >= Mul(rowsA, colsA)
  }

  /** The products the innermost loop adds for `(row, col)`:
      `a[row * colsA + k] * b[k * colsB + col]` for `k < colsB`, in increasing `k`; `RefTermAt`
      states each of them. */
  function RefTerms(a: seq<real>, rowsA: nat, colsA: nat, b: seq<real>, colsB: nat, row: nat, col: nat): (p: seq<Term>)
    requires ReadsInBounds(|a|, rowsA, colsA, |b|, colsB) && row < rowsA && col < colsA
    ensures |p| == colsB
  {
    RefTermsFit(|a|, rowsA, colsA, |b|, colsB, row, col);
    Products(a, Mul(row, colsA), 1, b, col, colsB, colsB)
  }

  lemma RefTermsFit(aLen: nat, rowsA: nat, colsA: nat, bLen: nat, colsB: nat, row: nat, col: nat)
    requires ReadsInBounds(aLen, rowsA, colsA, bLen, colsB) && row < rowsA && col < colsA
    ensures InExtent(colsB, Mul(row, colsA), 1, aLen)
    ensures InExtent(colsB, col, colsB, bLen)
  {
    if colsB > 0 {
      MulMonotone(row, rowsA - 1, colsA);
      MulUnits(colsB - 1);
    }
  }

  /** Product `k` of cell `(row, col)` reads `a[row * colsA + k]` and `b[k * colsB + col]`, both
      inside their buffers. */
  lemma RefTermAt(a: seq<real>, rowsA: nat, colsA: nat, b: seq<real>, colsB: nat, row: nat, col: nat, k: nat)
    requires ReadsInBounds(|a|, rowsA, colsA, |b|, colsB) && row < rowsA && col < colsA && k < colsB
    ensures Mul(row, colsA) + k < |a| && Mul(k, colsB) + col < |b|
    ensures RefTerms(a, rowsA, colsA, b, colsB, row, col)[k] == Term(a[Mul(row, colsA) + k], b[Mul(k, colsB) + col])
  {
    RefTermsFit(|a|, rowsA, colsA, |b|, colsB, row, col);
    MulUnits(k);
    ProductsAt(a, Mul(row, colsA), 1, b, col, colsB, colsB, k);
  }

  /** The `sum` the innermost loop leaves for `(row, col)`. When `b` is as wide as `a`, the only shape
      for which the loop reads whole rows and columns, it is cell `(row, col)` of the product `a · b`. */
  function RefCell(a: seq<real>, rowsA: nat, colsA: nat, b: seq<real>, colsB: nat, row: nat, col: nat): (r: real)
    requires ReadsInBounds(|a|, rowsA, colsA, |b|, colsB) && row < rowsA && col < colsA
    ensures colsA == colsB && Shaped(|a|, |b|, rowsA, colsA, colsB) ==>
              r == ProductCell(a, b, rowsA, colsA, colsB, row, col)
  {
    Sum(RefTerms(a, rowsA, colsA, b, colsB, row, col))
  }

  /** What `out` holds after the call: cell `(row, col)` of the `rowsA × colsA` row-major grid
      holds `RefCell(row, col)`, and every position from `rowsA * colsA` on keeps its old value. */
  function RefResult(a: seq<real>, rowsA: nat, colsA: nat, b: seq<real>, colsB: nat, out: seq<real>): (res: seq<real>)
    requires ReadsInBounds(|a|, rowsA, colsA, |b|, colsB) && WritesInBounds(rowsA, colsA, |out|)
    ensures |res| == |out|
    ensures forall row: nat, col: nat :: row < rowsA && col < colsA ==>
              res[RowMajor(row, col, rowsA, colsA)] == RefCell(a, rowsA, colsA, b, colsB, row, col)
    ensures forall i :: Mul(rowsA, colsA) <= i < |out| ==> res[i] == out[i]
  {
    var res := seq(|out|, i requires 0 <= i < |out| =>
      if i < Mul(rowsA, colsA) then RefCellAt(a, rowsA, colsA, b, colsB, i) else out[i]);
    RefResultCells(a, rowsA, colsA, b, colsB, out, res);
    res
  }

  /** `RefCell` of the cell stored at row-major position `i`. */
  function RefCellAt(a: seq<real>, rowsA: nat, colsA: nat, b: seq<real>, colsB: nat, i: nat): real
    requires ReadsInBounds(|a|, rowsA, colsA, |b|, colsB) && i < Mul(rowsA, colsA)
  {
    RowMajorCover(i, rowsA, colsA);
    RefCell(a, rowsA, colsA, b, colsB, Tiles(i, colsA), Rem(i, colsA))
  }

  lemma RefResultCells(a: seq<real>, rowsA: nat, colsA: nat, b: seq<real>, colsB: nat, out: seq<real>, res: seq<real>)
    requires ReadsInBounds(|a|, rowsA, colsA, |b|, colsB) && WritesInBounds(rowsA, colsA, |out|)
    requires |res| == |out|
    requires forall i :: 0 <= i < Mul(rowsA, colsA) ==> res[i] == RefCellAt(a, rowsA, colsA, b, colsB, i)
    ensures forall row: nat, col: nat :: row < rowsA && col < colsA ==>
              res[RowMajor(row, col, rowsA, colsA)] == RefCell(a, rowsA, colsA, b, colsB, row, col)
  {
    forall row: nat, col: nat | row < rowsA && col < colsA
      ensures res[RowMajor(row, col, rowsA, colsA)] == RefCell(a, rowsA, colsA, b, colsB, row, col)
    {
      var i := RowMajor(row, col, rowsA, colsA);
      TilesUnique(row, col, colsA);
      assert Tiles(i, colsA) == row && Rem(i, colsA) == col;
      assert res[i] == RefCellAt(a, rowsA, colsA, b, colsB, i);
    }
  }

  /** The loop nest of `multiplyMatrices`, over an immutable copy of `out`. `bX` is accepted and
      ignored, as in the source. */
  method MultiplyMatrices(a: seq<real>, rowsA: nat, colsA: nat, b: seq<real>, bX: nat, colsB: nat,
                          out: seq<real>) returns (res: seq<real>)
    requires ReadsInBounds(|a|, rowsA, colsA, |b|, colsB) && WritesInBounds(rowsA, colsA, |out|)
    ensures res == RefResult(a, rowsA, colsA, b, colsB, out)
  {
    ghost var spec := RefResult(a, rowsA, colsA, b, colsB, out);
    res := out;
    var row := 0;
    while row < rowsA
      invariant row <= rowsA
      invariant |res| == |out|
      invariant forall i :: 0 <= i < |out| ==> res[i] == (if i < Mul(row, colsA) then spec[i] else out[i])
    {
      res := FillRow(a, rowsA, colsA, b, colsB, out, row, res);
      MulSucc(row, colsA);
      row := row + 1;
    }
    assert res == spec;
  }

  /** The middle loop for one `row`: stores cells `(row, 0), ..., (row, colsA - 1)`, the next
      `colsA` positions in row-major order. */
  method FillRow(a: seq<real>, rowsA: nat, colsA: nat, b: seq<real>, colsB: nat, out: seq<real>,
                 row: nat, cur: seq<real>) returns (res: seq<real>)
    requires ReadsInBounds(|a|, rowsA, colsA, |b|, colsB) && WritesInBounds(rowsA, colsA, |out|)
    requires row < rowsA && |cur| == |out|
    requires forall i :: 0 <= i < |out| ==>
               cur[i] == (if i < Mul(row, colsA) then RefResult(a, rowsA, colsA, b, colsB, out)[i] else out[i])
    ensures |res| == |out|
    ensures forall i :: 0 <= i < |out| ==>
              res[i] == (if i < Mul(row, colsA) + colsA then RefResult(a, rowsA, colsA, b, colsB, out)[i] else out[i])
  {
    ghost var spec := RefResult(a, rowsA, colsA, b, colsB, out);
    res := cur;
    var col := 0;
    while col < colsA
      invariant col <= colsA
      invariant |res| == |out|
      invariant forall i :: 0 <= i < |out| ==> res[i] == (if i < Mul(row, colsA) + col then spec[i] else out[i])
    {
      var sum := RowSum(a, rowsA, colsA, b, colsB, row, col);
      assert spec[RowMajor(row, col, rowsA, colsA)] == sum;
      res := res[Mul(row, colsA) + col := sum];
      col := col + 1;
    }
  }

  /** The innermost loop: a running sum, started at zero, of the `colsB` products of cell
      `(row, col)`, added in increasing `k`. */
  method RowSum(a: seq<real>, rowsA: nat, colsA: nat, b: seq<real>, colsB: nat, row: nat, col: nat) returns (sum: real)
    requires ReadsInBounds(|a|, rowsA, colsA, |b|, colsB) && row < rowsA && col < colsA
    ensures sum == RefCell(a, rowsA, colsA, b, colsB, row, col)
  {
    ghost var terms := RefTerms(a, rowsA, colsA, b, colsB, row, col);
    sum := 0.0;
    var k := 0;
    while k < colsB
      invariant k <= colsB
      invariant sum == Sum(terms[..k])
    {
      RefTermAt(a, rowsA, colsA, b, colsB, row, col, k);
      assert terms[..k + 1][..k] == terms[..k];
      sum := sum + a[Mul(row, colsA) + k] * b[Mul(k, colsB) + col];
      k := k + 1;
    }
    assert terms[..colsB] == terms;
  }

  /** With the buffer sizes the host uses (`a` is `rowsA × colsA`, `b` is `colsA × colsB`, `out` is
      `rowsA × colsB`, all non-empty), every read and store of `multiplyMatrices` is in bounds exactly
      when `colsA == colsB`: a wider `b` makes the reads of `a` run past its end, a narrower one
      makes the stores run past the end of `out`. */
  lemma InBoundsIffSquareB(aLen: nat, rowsA: nat, colsA: nat, bLen: nat, colsB: nat, outLen: nat)
    requires rowsA > 0 && colsA > 0 && colsB > 0
    requires aLen == Mul(rowsA, colsA) && bLen == Mul(colsA, colsB) && outLen == Mul(rowsA, colsB)
    ensures ReadsInBounds(aLen, rowsA, colsA, bLen, colsB) && WritesInBounds(rowsA, colsA, outLen)
        <==> colsA == colsB
  {
    MulSucc(rowsA - 1, colsA);
    if colsA == colsB {
      MulSucc(colsB - 1, colsB);
    } else if colsA < colsB {
      assert Mul(rowsA - 1, colsA) + colsB - 1 >= aLen;
    } else {
      MulComm(rowsA, colsB);
      MulComm(rowsA, colsA);
      MulMonotone(colsB + 1, colsA, rowsA);
      MulSucc(colsB, rowsA);
      assert outLen < Mul(rowsA, colsA);
    }
  }

  /** When `colsA == colsB` (so `b` is square), `multiplyMatrices` computes the textbook product
      `a · b` of the `rowsA × colsA` matrix `a` and the `colsA × colsA` matrix `b`. */
  lemma ReferenceIsProduct(a: seq<real>, rowsA: nat, colsA: nat, b: seq<real>, colsB: nat, out: seq<real>)
    requires colsA == colsB && Shaped(|a|, |b|, rowsA, colsA, colsB) && WritesInBounds(rowsA, colsA, |out|)
    ensures ReadsInBounds(|a|, rowsA, colsA, |b|, colsB)
    ensures forall row: nat, col: nat :: row < rowsA && col < colsB ==>
              RefResult(a, rowsA, colsA, b, colsB, out)[RowMajor(row, col, rowsA, colsB)]
                == ProductCell(a, b, rowsA, colsA, colsB, row, col)
  {
  }
}
