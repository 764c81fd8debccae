/** Addressing a logically two-dimensional matrix stored in one flat buffer. */
module Layout {
  import opened Arith

  /** Position of cell `(r, c)` of a `rows × cols` matrix stored row by row: `r * cols + c`. */
  function RowMajor(r: nat, c: nat, rows: nat, cols: nat): (i: nat)
    requires r < rows && c < cols
    ensures i < Mul(rows, cols) && i < Mul(cols, rows)
  {
    RowMajorBound(r, c, rows, cols);
    MulComm(rows, cols);
    Mul(r, cols) + c
  }

  /** Position of cell `(r, c)` of a `rows × cols` matrix stored column by column: `c * rows + r`. */
  function ColMajor(r: nat, c: nat, rows: nat, cols: nat): (i: nat)
    requires r < rows && c < cols
    ensures i < Mul(rows, cols)
  {
    MulComm(rows, cols);
    RowMajor(c, r, cols, rows)
  }

  lemma RowMajorBound(r: nat, c: nat, rows: nat, cols: nat)
    requires r < rows && c < cols
    ensures Mul(r, cols) + c < Mul(rows, cols)
  {
    MulMonotone(r + 1, rows, cols);
  }

  /** Row-major addressing is injective: within the column bound, an index names one cell. */
  lemma RowMajorUnique(r: nat, c: nat, r': nat, c': nat, cols: nat)
    requires c < cols && c' < cols
    requires Mul(r, cols) + c == Mul(r', cols) + c'
    ensures r == r' && c == c'
  {
    MulUnique(r, c, r', c', cols);
  }

  /** Every index below `rows * cols` is the row-major position of the cell
      `(i / cols, i % cols)`. */
  lemma RowMajorCover(i: nat, rows: nat, cols: nat)
    requires i < Mul(rows, cols)
    ensures cols > 0 && Tiles(i, cols) < rows && Rem(i, cols) < cols
    ensures i == Mul(Tiles(i, cols), cols) + Rem(i, cols)
  {
    MulUnits(rows);
    TilesRem(i, cols);
    if Tiles(i, cols) >= rows {
      MulMonotone(rows, Tiles(i, cols), cols);
    }
  }
}
