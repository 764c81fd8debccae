# Tiled OpenCL matrix multiply and its host check, in Dafny

This project models the core of `matrix_multiplication.cpp`:

- the OpenCL C kernel `matrixMultiply`. Each work-item owns one output cell. The work-items of a
  `TS × TS` work-group stage one tile of `A` and one of `B` into two local caches `Asub` and `Bsub`.
  After a barrier, each work-item adds `TS` products from the caches to its private running sum.
  It does this for `numTiles = K / TS` tile steps, then stores the sum into `C[globalCol * M + globalRow]`;
- the sequential reference `multiplyMatrices`, a triple loop over row-major buffers;
- the launch in `main`: tile width `TILE_WIDTH = 3`, `M = N = K = 3`, global range `{M, N}`,
  local range `{TS, TS}`, and inputs filled with `0.5` and `1.5`;
- the host check, which compares the device result with the reference element by element.

Matrix elements are `real`, so every sum is exact. Both the kernel and the reference add their
products one at a time to an accumulator started at zero. The model keeps that order:
`Sums.Accumulate` peels the last term, so it is `((acc + v0) + v1) + ...`. The theorem that the
tiled sum equals the flat sum is therefore a statement about the same additions in the same order,
not just about equal real numbers.

The two barriers of a tile step are modelled as two phases, one after the other:

- a staging phase, in which the stores of every work-item of the group reach the caches in some
  order (`Scatter.Apply`);
- an accumulation phase, which reads the staged caches.

Three things the program cannot control are parameters of the model:

- the order of those stores (`sched`). One order serves every work-group and every tile step;
- the order in which the launch's work-items store into `C` (`items`);
- what local memory and the device buffer for `C` hold beforehand (`caches`, `dev`). One initial
  local-memory content serves every work-group.

The lemmas hold for every value of these parameters. Sharing one order and one initial content loses
nothing: `Kernel.StageOrderFree` shows that the caches after a staging phase are the same for any
two valid orders and any two initial contents, so an order or content chosen per group and per step
would stage the same tiles. `Kernel.SlotOrder` and `Kernel.CellOrder`
show that orders meeting the schedule predicates exist.

The model follows the code as written. Where it departs from the textbook product, that is stated as
a lemma, not corrected:

- The kernel indexes `A`, `B` and `C` column by column. Read row by row, the kernel leaves
  `B · A` in `C` (`Kernel.KernelIsTransposedProduct`).
- The reference runs its middle loop to `colsA` and its inner loop to `colsB`. With the host's buffer
  sizes it stays in bounds exactly when `colsA == colsB` (`Reference.InBoundsIffSquareB`), and then
  it computes `A · B` (`Reference.ReferenceIsProduct`).
- So the host's comparison passes exactly when `B · A == A · B` (`Host.HostRun`). That holds for
  the program's constant inputs (`Host.Harness`) and fails for simple non-commuting ones
  (`Host.NonCommutingInputsFail`).
- `numTiles = K / TS` truncates. The tile steps add only the first `numTiles * TS` terms of each
  inner product (`Kernel.FlatTermsArePrefix`, `Kernel.ConstantInputsShowDroppedTerms`).

The code launches exactly `NDRange {M, N}` with local size `{TS, TS}`, runs `K / TS` tile steps and
never checks bounds, so a launch is accepted only when `TS` divides `M` and `N` (`Host.Enqueue`).

Files (modules):

- `arith.dfy` (`Arith`): multiplication, quotient and remainder as recursive functions on `nat`.
- `layout.dfy` (`Layout`): row-major and column-major addressing.
- `sums.dfy` (`Sums`): ordered sums of products.
- `matrix.dfy` (`Matrix`): the textbook product cell.
- `scatter.dfy` (`Scatter`): a phase of stores.
- `kernel.dfy` (`Kernel`): the kernel.
- `reference.dfy` (`Reference`): `multiplyMatrices`.
- `host.dfy` (`Host`): launch and comparison.

## Model

| member | source | states |
|---|---|---|
| Kernel.GlobalRow | matrix_multiplication.cpp:22-24 | For a work-item of the launch grid, `TS * group0 + row` is a row of `C`, below `M` |
| Kernel.GlobalCol | matrix_multiplication.cpp:23-25 | For a work-item of the launch grid, `TS * group1 + col` is a column of `C`, below `N` |
| Kernel.CellItemOwnsCell | matrix_multiplication.cpp:22-25 | When `TS` divides `M` and `N`, every cell `(gr, gc)` of `C` has a work-item in the grid whose global row and column are `gr` and `gc` |
| Kernel.ItemIsCellItem | matrix_multiplication.cpp:22-25 | Every work-item of the grid is the owner of the cell given by its own global row and column, so work-items and cells are in one-to-one correspondence |
| Kernel.ReadIndex | matrix_multiplication.cpp:32-35 | The `A` index `tiledCol * M + globalRow` and the `B` index `globalCol * K + tiledRow` read at a tile step lie below the read extents |
| Kernel.ExtentsWithinNaturalSizes | matrix_multiplication.cpp:30-35 | The read extents are at most `M * K` for `A` and `K * N` for `B`, whatever `TS` is |
| Kernel.NaturalSizesFit | matrix_multiplication.cpp:34-35 | Buffers holding `M * K` and `K * N` elements contain every element the kernel reads |
| Kernel.NumTiles | matrix_multiplication.cpp:30 | `numTiles` is the number of whole tiles in `K`: `numTiles * TS <= K < (numTiles + 1) * TS`, so it is `K / TS` rounded down |
| Kernel.Slot | matrix_multiplication.cpp:34-35 | The slot `[col][row]` work-item `(row, col)` stores into lies inside the `TS × TS` cache; `Kernel.SlotBijection` states that no two work-items share a slot and that every slot has an owner |
| Kernel.SlotBijection | matrix_multiplication.cpp:34-35 | Mapping work-item `(row, col)` to cache slot `[col][row]` is a bijection between the group's `TS × TS` work-items and the cache's `TS × TS` slots |
| Kernel.StageWrites | matrix_multiplication.cpp:32-35 | One store per work-item of the order `sched`, in that order: entry `i` writes the element work-item `sched[i]` read into its slot `[col][row]`; every store lands inside the cache |
| Kernel.Stage | matrix_multiplication.cpp:32-37 | The caches after the staging phase keep their `TS × TS` size; what each slot then holds is stated by `Kernel.StageFillsTile`, and that it does not depend on the store order by `Kernel.StageOrderFree` |
| Kernel.StageFillsTile | matrix_multiplication.cpp:32-37 | After the staging phase, for any store order and any prior cache content, slot `[col][row]` of `Asub`/`Bsub` holds the element of `A`/`B` that work-item `(row, col)` read |
| Kernel.StageOrderFree | matrix_multiplication.cpp:32-37 | The caches after a staging phase are the same for any two valid store orders and any two prior cache contents |
| Kernel.StepTerms | matrix_multiplication.cpp:38-40 | The accumulation phase of a tile step adds exactly `TS` products; which cache slots each one multiplies is stated by `Kernel.StepTermsAt` |
| Kernel.StepTermsAt | matrix_multiplication.cpp:38-40 | Product `k` of a tile step multiplies `Asub[k][row]`, stored by work-item `(row, k)`, by `Bsub[col][k]`, stored by work-item `(k, col)` |
| Kernel.StagedProductIsFlatTerm | matrix_multiplication.cpp:32-39 | The pair `Asub[k][row]`, `Bsub[col][k]`, staged by work-items `(row, k)` and `(k, col)`, is the pair `A[j * M + globalRow]`, `B[globalCol * K + j]` with `j = TS * t + k` |
| Kernel.StepIsFlatSlice | matrix_multiplication.cpp:38-40 | The `TS` products added at tile step `t` are flat terms `TS * t` to `TS * t + TS - 1`, in that order |
| Kernel.LoopStep | matrix_multiplication.cpp:31-42 | Running tile step `t` and then the flat terms from `TS * (t + 1)` on adds the same terms in the same order as the flat terms from `TS * t` on |
| Kernel.WorkItemLoop | matrix_multiplication.cpp:31-42 | From tile step `t` on, for any store order and any prior cache content, the tile loop continues the running sum with the flat terms from `TS * t` on, one at a time in increasing order |
| Kernel.WorkItemSum | matrix_multiplication.cpp:29-42 | The sum a work-item stores is the flat inner product `Σ_{j < numTiles * TS} A[j * M + globalRow] * B[globalCol * K + j]`, added in increasing `j`, whatever the store order and prior cache content |
| Kernel.OutIndex | matrix_multiplication.cpp:43 | The store index `globalCol * M + globalRow` is below `M * N` |
| Kernel.OutIndexInjective | matrix_multiplication.cpp:43 | Distinct work-items of the grid store into distinct positions of `C` |
| Kernel.OutputWrites | matrix_multiplication.cpp:43 | One store per work-item of the launch order `items`, in that order: entry `i` writes the sum of work-item `items[i]` to `C[globalCol * M + globalRow]`; every store lands below `M * N` |
| Kernel.MatrixMultiply | matrix_multiplication.cpp:16-45 | When `TS` divides `M` and `N`, after the launch, for any order of work-items and stores and any prior content of local memory and `C`, cell `(gr, gc)` of `C` (column-major) holds the flat inner product over `j < numTiles * TS`; positions from `M * N` on are unchanged; `Kernel.KernelIsTransposedProduct` reads this as `B · A` |
| Kernel.CoveredIsWholeTiles | matrix_multiplication.cpp:30 | `numTiles * TS + K % TS == K`, and the tile steps cover all of `K` exactly when `TS` divides `K` |
| Kernel.FlatTermsArePrefix | matrix_multiplication.cpp:30-42 | The terms the tile steps add are the first `numTiles * TS` terms of the full loop over `j < K`, and all of them exactly when `TS` divides `K` |
| Kernel.FullTermsAreTransposedProduct | matrix_multiplication.cpp:34-35 | The full loop over `j < K` for cell `(globalRow, globalCol)` is cell `(globalCol, globalRow)` of the row-major product `B · A` |
| Kernel.ConstantInputSum | matrix_multiplication.cpp:29-42 | With `A` all `a` and `B` all `b`, the terms the tile steps add for any cell sum to `numTiles * TS * (a * b)` |
| Kernel.ConstantInputsShowDroppedTerms | matrix_multiplication.cpp:30 | With constant inputs, the kernel's sum equals the full inner product exactly when `TS` divides `K` or `a * b == 0` |
| Kernel.KernelIsTransposedProduct | matrix_multiplication.cpp:34-43 | When `TS` divides `M`, `N` and `K`, `C` read row by row as an `N × M` matrix is `B · A` (row-major `N × K` times `K × M`), for any execution order |
| Kernel.SlotOrder | matrix_multiplication.cpp:32-37 | The group's work-items listed in slot order form a valid staging order: each work-item once, every slot's owner present |
| Kernel.CellOrder | matrix_multiplication.cpp:115-122 | When `TS` divides `M` and `N`, the work-items listed by the cell they compute form a valid launch order: each once, every cell's owner present |
| Reference.RowSum | matrix_multiplication.cpp:61-64 | The inner loop's running sum, started at `0`, is the ordered sum of `a[row * colsA + k] * b[k * colsB + col]` for `k < colsB` |
| Reference.RefTerms | matrix_multiplication.cpp:62-63 | The inner loop for `(row, col)` adds exactly `colsB` products; which elements each one reads is stated by `Reference.RefTermAt` |
| Reference.RefTermAt | matrix_multiplication.cpp:63 | Product `k` of cell `(row, col)` reads `a[row * colsA + k]` and `b[k * colsB + col]`, both in bounds when the reads are |
| Reference.RefCell | matrix_multiplication.cpp:61-64 | When `b` is as wide as `a` (`colsA == colsB`) and the buffers hold an `rowsA × colsA` and a `colsA × colsB` matrix, the inner loop's sum for `(row, col)` is cell `(row, col)` of the textbook product `a · b` |
| Reference.RefResult | matrix_multiplication.cpp:59-67 | After the loops, `out[row * colsA + col]` holds that sum for every `row < rowsA`, `col < colsA`; every position from `rowsA * colsA` on keeps its value; the length is unchanged |
| Reference.FillRow | matrix_multiplication.cpp:60-66 | The middle loop for `row` fills exactly positions `row * colsA` to `row * colsA + colsA - 1` and leaves the later ones alone |
| Reference.MultiplyMatrices | matrix_multiplication.cpp:56-68 | The loop nest returns exactly `RefResult`; `bX` has no influence on the result |
| Reference.InBoundsIffSquareB | matrix_multiplication.cpp:59-65 | With the host's sizes (`a` is `rowsA × colsA`, `b` is `colsA × colsB`, `out` is `rowsA × colsB`, all non-empty), every read and store is in bounds exactly when `colsA == colsB` |
| Reference.ReferenceIsProduct | matrix_multiplication.cpp:56-68 | When `colsA == colsB`, the reads are in bounds and cell `(row, col)` of `out` is cell `(row, col)` of the textbook product `a · b` |
| Matrix.ProductCellConstant | matrix_multiplication.cpp:102-103 | With every entry of `X` equal to `x` and of `Y` equal to `y`, every cell of `X · Y` is `inner * (x * y)` |
| Host.Enqueue | matrix_multiplication.cpp:115-122 | A launch of `NDRange {M, N}` with local `{TS, TS}` is accepted exactly when `M` and `N` are positive and `TS` is positive and divides both. An accepted launch splits `M` and `N` into whole tiles (`(M / TS) * TS == M`, likewise `N`), and every global id `(x, y)` below `(M, N)` is a work-item of the grid whose global row and column are `x` and `y` |
| Host.AcceptedLaunchStoresInBounds | matrix_multiplication.cpp:115-122 | On an accepted launch, the work-item with global id `(x, y)` is in the grid and stores into `C[y * M + x]`, which is below `M * N`; different global ids store into different positions |
| Host.HostRun | matrix_multiplication.cpp:98-137 | The run of the program on `n × n` inputs with tile width `ts` reaches the comparison exactly when the launch is accepted, and then every comparison passes exactly when `B · A` and `A · B` agree in every cell, whatever the execution order and prior buffer contents |
| Host.ComparisonIffCommute | matrix_multiplication.cpp:135-137 | When the device result holds `B · A` and the host result `A · B`, row by row, the element-by-element comparison passes exactly when the two products agree in every cell |
| Host.MismatchFails | matrix_multiplication.cpp:135-137 | One cell where `B · A` and `A · B` differ makes the comparison fail on every accepted launch |
| Host.Harness | matrix_multiplication.cpp:98-137 | The program's own run (`3 × 3`, `0.5` and `1.5`, `TS = 3`) is accepted, both products hold `2.25` in every cell, and every comparison passes, whatever the execution order |
| Host.NonCommutingInputsFail | matrix_multiplication.cpp:131-137 | For `A = [[0, 1], [0, 0]]`, `B = [[1, 0], [0, 0]]` and `TS = 2` the comparison fails, whatever the execution order |

## Left out

- Floating point: elements are exact reals, so IEEE `float` rounding is not modelled. The order of
  additions is modelled, so the lemmas that only compare orders of the same additions would carry
  over to a rounding model unchanged: `Sums.AccumulateAppend`, `Sums.AccumulateChunk`,
  `Sums.AccumulateSwapped`, `Kernel.LoopStep`, and the contracts of `Kernel.WorkItemLoop`,
  `Kernel.WorkItemSum` and `Kernel.MatrixMultiply`. The lemmas about constant inputs rely on exact
  arithmetic and would not: `Sums.AccumulateConstant`, `Sums.SumConstant`, `Sums.SumsOfCopies`,
  `Matrix.ProductCellConstant`, `Kernel.ConstantInputSum`, `Kernel.ConstantInputsShowDroppedTerms`,
  and the value `2.25` in `Host.Harness`.
- Concurrency and `barrier(CLK_LOCAL_MEM_FENCE)`: a tile step is a staging phase followed by an
  accumulation phase. The store orders are parameters. No other interleaving and no memory-model
  effect is modelled.
- Device plumbing: platform and device selection, context, queue, program build and the build log
  (lines 71-96). When buffer creation succeeds, it and the read-back (lines 108-113, 124) are the
  identity on the data. Buffer creation errors are not modelled (see `Host.HostRun` below).
- `printMatrix` (lines 47-54) and the commented-out calls to it: output only.
- `trivial.c` and `trivial.cpp`: platform enumeration and a vector-add example, not part of this model.
- Integer width: dimensions and indices are `nat`. Negative `int` arguments and 32-bit overflow of
  index products are not modelled. For the program's sizes no product comes near the limit.
- The initial content of the device buffer for `C` is a parameter (`dev`), because `CL_MEM_WRITE_ONLY`
  buffers are uninitialised. The lemmas show that the launch overwrites every cell that is compared.
- Host.Enqueue: the refusal rules come from the OpenCL 1.2 rules for `clEnqueueNDRangeKernel`, not from
  the program. The limit `CL_DEVICE_MAX_WORK_GROUP_SIZE` on `TS * TS` is not modelled, because it
  depends on the device.
- Host.HostRun: the program fixes `M = N = K = 3`. The model takes one common dimension `n` for all
  three as a simplification. Only `N == K` is forced: with `N != K` the reference runs past its
  buffers (`Reference.InBoundsIffSquareB`), while `M != N` with `N == K` would stay in bounds and is
  not modelled. A launch error is a `Failure` value; the C++ binding would throw instead. Every
  refusal is reported as the enqueue's error. At `n = 0` the program fails earlier: `clCreateBuffer` refuses a size of `0`
  (`CL_INVALID_BUFFER_SIZE`), so the `cl::Buffer` constructor at line 108 throws and the enqueue is
  never reached. The model reports `InvalidGlobalWorkSize` for that case instead.
- Out-of-bounds accesses: C++ `std::vector` indexing and OpenCL global loads do not check bounds; an
  access outside a buffer is undefined behaviour. The model requires every access in bounds
  (`Reference.ReadsInBounds`, `Reference.WritesInBounds`, `Kernel.ReadsFit`). It does not model what
  happens otherwise. `Reference.InBoundsIffSquareB` and `Kernel.NaturalSizesFit` say when the
  program's own sizes meet these requirements.
