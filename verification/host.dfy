/** The checked path of the host program: enqueue `matrixMultiply` over the global range `{M, N}`
    with work-groups of `{TS, TS}`, read `C` back, run `multiplyMatrices` on the same inputs, and
    compare the two results position by position.

    The program itself fixes `M = N = K = 3` and `TS = 3`; here the common dimension `n` and the tile
    width are parameters, and `Harness` instantiates them with the program's constants. */
module Host {
  import opened Arith
  import opened Sums
  import opened Layout
  import opened Matrix
  import opened Kernel
  import opened Reference

  /** `TILE_WIDTH`, passed to the kernel build as `-D TS=3`. */
  const TileWidth: nat := 3

  /** `M`, `N` and `K` of the program. */
  const Dim: nat := 3

  /** Why the runtime refuses to enqueue an NDRange (the OpenCL 1.2 rules for `clEnqueueNDRangeKernel`). */
  datatype LaunchError =
    | InvalidGlobalWorkSize   // some global size is zero
    | InvalidWorkGroupSize    // the local size is zero or does not divide the global size

  datatype Result<T> = Success(value: T) | Failure(error: LaunchError)

  /** Enqueuing the kernel with arguments `M, N, K`, global range `{M, N}` and local range `{TS, TS}`.
      On success the launch runs exactly the work-items of `Kernel.InGrid`. */
  function Enqueue(M: nat, N: nat, K: nat, TS: nat): (r: Result<Config>)
    ensures r.Success? <==> M > 0 && N > 0 && UniformGrid(Config(M, N, K, TS))
    ensures r.Success? ==> r.value == Config(M, N, K, TS)
    ensures r.Failure? && (M == 0 || N == 0) ==> r.error == InvalidGlobalWorkSize
    ensures r.Success? ==> Mul(Tiles(M, TS), TS) == M && Mul(Tiles(N, TS), TS) == N
    ensures r.Success? ==> forall x: nat, y: nat :: x < M && y < N ==>
              && InGrid(CellItem(r.value, x, y), r.value)
              && GlobalRow(r.value, CellItem(r.value, x, y)) == x
              && GlobalCol(r.value, CellItem(r.value, x, y)) == y
  {
    if M == 0 || N == 0 then Failure(InvalidGlobalWorkSize)
    else if TS == 0 || Rem(M, TS) != 0 || Rem(N, TS) != 0 then Failure(InvalidWorkGroupSize)
    else
      var cfg := Config(M, N, K, TS);
      TilesRem(M, TS);
      TilesRem(N, TS);
      LaunchCoversGlobalRange(cfg);
      Success(cfg)
  }

  /** In a uniform grid every global id `(x, y)` below `(M, N)` is a work-item of the launch whose
      global row and column are `x` and `y`. */
  lemma LaunchCoversGlobalRange(cfg: Config)
    requires UniformGrid(cfg)
    ensures forall x: nat, y: nat :: x < cfg.M && y < cfg.N ==>
              && InGrid(CellItem(cfg, x, y), cfg)
              && GlobalRow(cfg, CellItem(cfg, x, y)) == x
              && GlobalCol(cfg, CellItem(cfg, x, y)) == y
  {
    forall x: nat, y: nat | x < cfg.M && y < cfg.N
      ensures InGrid(CellItem(cfg, x, y), cfg)
      ensures GlobalRow(cfg, CellItem(cfg, x, y)) == x && GlobalCol(cfg, CellItem(cfg, x, y)) == y
    {
      CellItemOwnsCell(cfg, x, y);
    }
  }

  /** A launch the runtime accepts stores every work-item's result inside `C`: the work-item with
      global id `(x, y)`, `x < M`, `y < N`, belongs to the grid, stores into `C[y * M + x]`, which
      lies below `M * N`, and two different global ids store into different positions. */
  lemma AcceptedLaunchStoresInBounds(M: nat, N: nat, K: nat, TS: nat, x: nat, y: nat, x': nat, y': nat)
    requires Enqueue(M, N, K, TS).Success?
    requires x < M && y < N && x' < M && y' < N
    ensures InGrid(CellItem(Config(M, N, K, TS), x, y), Config(M, N, K, TS))
    ensures OutIndex(Config(M, N, K, TS), CellItem(Config(M, N, K, TS), x, y)) == Mul(y, M) + x < Mul(M, N)
    ensures InGrid(CellItem(Config(M, N, K, TS), x', y'), Config(M, N, K, TS))
    ensures (x, y) != (x', y') ==>
              OutIndex(Config(M, N, K, TS), CellItem(Config(M, N, K, TS), x, y))
                != OutIndex(Config(M, N, K, TS), CellItem(Config(M, N, K, TS), x', y'))
  {
    var cfg := Config(M, N, K, TS);
    CellItemOwnsCell(cfg, x, y);
    CellItemOwnsCell(cfg, x', y');
    if OutIndex(cfg, CellItem(cfg, x, y)) == OutIndex(cfg, CellItem(cfg, x', y')) {
      OutIndexInjective(cfg, CellItem(cfg, x, y), CellItem(cfg, x', y'));
    }
  }

  /** The comparison loop at the end of the program: every one of the first `len` positions of the
      device result equals the host result. */
  predicate Agree(C: seq<real>, ref: seq<real>, len: nat)
    requires len <= |C| && len <= |ref|
  {
    forall i :: 0 <= i < len ==> C[i] == ref[i]
  }

  /** The run of the program for `n × n` inputs `A` and `B` and tile width `ts`: `Failure` when the
      runtime refuses the launch, otherwise whether every comparison holds. `dev` is what the device
      buffer for `C` holds before the launch; `items`, `sched` and `caches` are the order in which the
      device runs the work-items and the initial content of local memory.

      Whenever the launch is accepted, the comparison passes exactly when `B · A == A · B`: the
      kernel, read row by row, computes `B · A` while `multiplyMatrices` computes `A · B`. */
  function HostRun(n: nat, ts: nat, A: seq<real>, B: seq<real>, dev: seq<real>,
                   items: seq<WorkItem>, sched: seq<LocalId>, caches: Caches): (r: Result<bool>)
    requires |A| == Mul(n, n) && |B| == Mul(n, n) && |dev| == Mul(n, n)
    requires Enqueue(n, n, n, ts).Success? ==>
               IsGridSchedule(items, Config(n, n, n, ts)) && IsTileSchedule(sched, ts) && WellSized(caches, ts)
    ensures r.Success? <==> n > 0 && ts > 0 && Rem(n, ts) == 0
    ensures r.Success? ==>
              (r.value <==> forall row: nat, col: nat :: row < n && col < n ==>
                              ProductCell(B, A, n, n, n, row, col) == ProductCell(A, B, n, n, n, row, col))
  {
    match Enqueue(n, n, n, ts)
    case Failure(e) => Failure(e)
    case Success(cfg) =>
      NaturalSizesFit(cfg, |A|, |B|);
      InBoundsIffSquareB(|A|, n, n, |B|, n, |dev|);
      var zero := seq(Mul(n, n), _ => 0.0);
      var C := MatrixMultiply(cfg, A, B, dev, items, sched, caches);
      var matC := RefResult(A, n, n, B, n, zero);
      KernelIsTransposedProduct(cfg, A, B, dev, items, sched, caches);
      ReferenceIsProduct(A, n, n, B, n, zero);
      ComparisonIffCommute(n, A, B, C, matC);
      Success(Agree(C, matC, Mul(n, n)))
  }

  /** When the device result holds `B · A` and the host result `A · B`, both row by row, the
      comparison passes exactly when the two products agree in every cell. */
  lemma ComparisonIffCommute(n: nat, A: seq<real>, B: seq<real>, C: seq<real>, matC: seq<real>)
    requires |A| == Mul(n, n) && |B| == Mul(n, n) && |C| >= Mul(n, n) && |matC| >= Mul(n, n)
    requires forall row: nat, col: nat :: row < n && col < n ==>
               C[RowMajor(row, col, n, n)] == ProductCell(B, A, n, n, n, row, col)
    requires forall row: nat, col: nat :: row < n && col < n ==>
               matC[RowMajor(row, col, n, n)] == ProductCell(A, B, n, n, n, row, col)
    ensures Agree(C, matC, Mul(n, n))
        <==> forall row: nat, col: nat :: row < n && col < n ==>
               ProductCell(B, A, n, n, n, row, col) == ProductCell(A, B, n, n, n, row, col)
  {
    if Agree(C, matC, Mul(n, n)) {
      forall row: nat, col: nat | row < n && col < n
        ensures ProductCell(B, A, n, n, n, row, col) == ProductCell(A, B, n, n, n, row, col)
      {
        assert C[RowMajor(row, col, n, n)] == matC[RowMajor(row, col, n, n)];
      }
    } else {
      var i :| 0 <= i < Mul(n, n) && C[i] != matC[i];
      RowMajorCover(i, n, n);
      assert i == RowMajor(Tiles(i, n), Rem(i, n), n, n);
    }
  }

  /** The program as written: `3 × 3` inputs filled with `0.5` and `1.5`, tile width `3`. The launch
      is accepted, both results hold `3 * 0.5 * 1.5 = 2.25` in every cell, and every comparison
      passes, whatever order the device runs in. */
  lemma Harness(dev: seq<real>, items: seq<WorkItem>, sched: seq<LocalId>, caches: Caches)
    requires |dev| == Mul(Dim, Dim)
    requires IsGridSchedule(items, Config(Dim, Dim, Dim, TileWidth))
    requires IsTileSchedule(sched, TileWidth) && WellSized(caches, TileWidth)
    ensures forall r: nat, c: nat :: r < Dim && c < Dim ==>
              ProductCell(Halves, ThreeHalves, Dim, Dim, Dim, r, c) == 2.25
              && ProductCell(ThreeHalves, Halves, Dim, Dim, Dim, r, c) == 2.25
    ensures HostRun(Dim, TileWidth, Halves, ThreeHalves, dev, items, sched, caches) == Success(true)
  {
    assert Mul(Dim, Dim) == 9;
    forall r: nat, c: nat | r < Dim && c < Dim
      ensures ProductCell(Halves, ThreeHalves, Dim, Dim, Dim, r, c) == 2.25
      ensures ProductCell(ThreeHalves, Halves, Dim, Dim, Dim, r, c) == 2.25
    {
      ProductCellConstant(Halves, ThreeHalves, Dim, Dim, Dim, r, c, 0.5, 1.5);
      ProductCellConstant(ThreeHalves, Halves, Dim, Dim, Dim, r, c, 1.5, 0.5);
    }
    assert Enqueue(Dim, Dim, Dim, TileWidth).Success?;
  }

  /** `matrixAHost`: `M * N` copies of `0.5`. */
  const Halves: seq<real> := seq(9, _ => 0.5)

  /** `matrixBHost`: `N * K` copies of `1.5`. */
  const ThreeHalves: seq<real> := seq(9, _ => 1.5)

  /** One cell where `B · A` and `A · B` differ is enough for the comparison to fail on every accepted
      launch. */
  lemma MismatchFails(n: nat, ts: nat, A: seq<real>, B: seq<real>, dev: seq<real>,
                      items: seq<WorkItem>, sched: seq<LocalId>, caches: Caches)
    requires |A| == Mul(n, n) && |B| == Mul(n, n) && |dev| == Mul(n, n)
    requires Enqueue(n, n, n, ts).Success?
    requires IsGridSchedule(items, Config(n, n, n, ts)) && IsTileSchedule(sched, ts) && WellSized(caches, ts)
    requires exists r: nat, c: nat :: r < n && c < n && ProductCell(B, A, n, n, n, r, c) != ProductCell(A, B, n, n, n, r, c)
    ensures HostRun(n, ts, A, B, dev, items, sched, caches) == Success(false)
  {
  }

  /** Inputs that do not commute make the comparison fail: for `A = [[0, 1], [0, 0]]` and
      `B = [[1, 0], [0, 0]]`, cell `(0, 1)` of the kernel's result `B · A` is `1` while the reference
      `A · B` has `0` there. */
  lemma NonCommutingInputsFail(dev: seq<real>, items: seq<WorkItem>, sched: seq<LocalId>, caches: Caches)
    requires |dev| == 4
    requires IsGridSchedule(items, Config(2, 2, 2, 2))
    requires IsTileSchedule(sched, 2) && WellSized(caches, 2)
    ensures HostRun(2, 2, StrictUpper, TopLeft, dev, items, sched, caches) == Success(false)
  {
    ExampleCells();
    MismatchFails(2, 2, StrictUpper, TopLeft, dev, items, sched, caches);
  }

  /** `[[0, 1], [0, 0]]`, row by row. */
  const StrictUpper: seq<real> := seq(4, i => if i == 1 then 1.0 else 0.0)

  /** `[[1, 0], [0, 0]]`, row by row. */
  const TopLeft: seq<real> := seq(4, i => if i == 0 then 1.0 else 0.0)

  lemma ExampleCells()
    ensures Mul(2, 2) == 4
    ensures exists r: nat, c: nat :: r < 2 && c < 2 &&
              ProductCell(TopLeft, StrictUpper, 2, 2, 2, r, c) != ProductCell(StrictUpper, TopLeft, 2, 2, 2, r, c)
  {
    CellOfPair(TopLeft, StrictUpper, 0, 1);
    CellOfPair(StrictUpper, TopLeft, 0, 1);
    assert ProductCell(TopLeft, StrictUpper, 2, 2, 2, 0, 1) == 1.0;
    assert ProductCell(StrictUpper, TopLeft, 2, 2, 2, 0, 1) == 0.0;
  }

  /** A cell of the product of two `2 × 2` matrices, written out. */
  lemma CellOfPair(X: seq<real>, Y: seq<real>, r: nat, c: nat)
    requires |X| == 4 && |Y| == 4 && r < 2 && c < 2
    ensures Mul(2, 2) == 4 && Mul(r, 2) + 1 < 4
    ensures ProductCell(X, Y, 2, 2, 2, r, c) == X[Mul(r, 2)] * Y[c] + X[Mul(r, 2) + 1] * Y[2 + c]
  {
    ProductCellTerm(X, Y, 2, 2, 2, r, c, 0);
    ProductCellTerm(X, Y, 2, 2, 2, r, c, 1);
    var p := CellTerms(X, Y, 2, 2, 2, r, c);
    assert p[..1][..0] == [];
    assert Accumulate(0.0, p[..1]) == Value(p[0]);
    assert p[..|p| - 1] == p[..1];
  }
}
