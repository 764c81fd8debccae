/** The textbook product of two matrices stored row by row in flat buffers, the yardstick both the
    kernel and the host's reference multiply are measured against. */
module Matrix {
  import opened Arith
  import opened Sums
  import opened Layout

  /** `X` holds a `rows × inner` matrix and `Y` an `inner × cols` matrix, both row-major. */
  predicate Shaped(xLen: nat, yLen: nat, rows: nat, inner: nat, cols: nat)
  {
    xLen >= Mul(rows, inner) && yLen >= Mul(inner, cols)
  }

  /** The products `X[r][k] * Y[k][c]` for `k < inner`, in increasing `k`. */
  function CellTerms(X: seq<real>, Y: seq<real>, rows: nat, inner: nat, cols: nat, r: nat, c: nat): (p: seq<Term>)
    requires Shaped(|X|, |Y|, rows, inner, cols) && r < rows && c < cols
    ensures |p| == inner
  {
    CellFits(|X|, |Y|, rows, inner, cols, r, c);
    Products(X, Mul(r, inner), 1, Y, c, cols, inner)
  }

  /** Cell `(r, c)` of `X · Y`: `Σ_{k < inner} X[r][k] * Y[k][c]`, summed in increasing `k`. */
  function ProductCell(X: seq<real>, Y: seq<real>, rows: nat, inner: nat, cols: nat, r: nat, c: nat): real
    requires Shaped(|X|, |Y|, rows, inner, cols) && r < rows && c < cols
  {
    Sum(CellTerms(X, Y, rows, inner, cols, r, c))
  }

  /** Row `r` of `X` and column `c` of `Y` lie inside the buffers. */
  lemma CellFits(xLen: nat, yLen: nat, rows: nat, inner: nat, cols: nat, r: nat, c: nat)
    requires Shaped(xLen, yLen, rows, inner, cols) && r < rows && c < cols
    ensures InExtent(inner, Mul(r, inner), 1, xLen)
    ensures InExtent(inner, c, cols, yLen)
  {
    if inner > 0 {
      MulUnits(inner - 1);
      RowMajorBound(r, inner - 1, rows, inner);
      RowMajorBound(inner - 1, c, inner, cols);
    }
  }

  /** Term `k` of cell `(r, c)` multiplies `X[r * inner + k]` by `Y[k * cols + c]`. */
  lemma ProductCellTerm(X: seq<real>, Y: seq<real>, rows: nat, inner: nat, cols: nat, r: nat, c: nat, k: nat)
    requires Shaped(|X|, |Y|, rows, inner, cols) && r < rows && c < cols && k < inner
    ensures Mul(r, inner) + k < |X| && Mul(k, cols) + c < |Y|
    ensures CellTerms(X, Y, rows, inner, cols, r, c)[k] == Term(X[Mul(r, inner) + k], Y[Mul(k, cols) + c])
  {
    CellFits(|X|, |Y|, rows, inner, cols, r, c);
    MulUnits(k);
    ProductsAt(X, Mul(r, inner), 1, Y, c, cols, inner, k);
  }

  /** When every entry of `X` is `x` and every entry of `Y` is `y`, every cell of `X · Y` is
      `inner * x * y`. */
  lemma {:induction false} ProductCellConstant(X: seq<real>, Y: seq<real>, rows: nat, inner: nat, cols: nat,
                                               r: nat, c: nat, x: real, y: real)
    requires Shaped(|X|, |Y|, rows, inner, cols) && r < rows && c < cols
    requires forall i :: 0 <= i < |X| ==> X[i] == x
    requires forall i :: 0 <= i < |Y| ==> Y[i] == y
    ensures ProductCell(X, Y, rows, inner, cols, r, c) == (inner as real) * (x * y)
  {
    var p := CellTerms(X, Y, rows, inner, cols, r, c);
    forall k | 0 <= k < inner
      ensures p[k] == Term(x, y)
    {
      ProductCellTerm(X, Y, rows, inner, cols, r, c, k);
    }
    SumConstant(p, inner, x, y);
  }
}
