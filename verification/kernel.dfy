/** The tiled OpenCL C kernel `matrixMultiply`: one work-item per output cell, `TS × TS`
    work-groups, and two `TS × TS` local caches per work-group that are refilled at every tile step.

    The two barriers of a tile step split it into phases that are modelled one after the other:
    a staging phase, in which every work-item of the group stores one element of `A` and one of `B`
    into the caches (in whatever order the device runs them), and an accumulation phase, in which
    every work-item reads the staged caches into its private running sum. */
module Kernel {
  import opened Arith
  import opened Sums
  import opened Layout
  import opened Matrix
  import Scatter

  /** The scalar kernel arguments `M`, `N`, `K` and the build-time tile width `TS` (`-D TS=`). */
  datatype Config = Config(M: nat, N: nat, K: nat, TS: nat)

  /** `(get_local_id(0), get_local_id(1))`. */
  datatype LocalId = LocalId(row: nat, col: nat)

  /** `(get_group_id(0), get_group_id(1))`. */
  datatype GroupId = GroupId(g0: nat, g1: nat)

  datatype WorkItem = WorkItem(group: GroupId, local: LocalId)

  /** Which input buffer, and which of the two local caches `Asub` / `Bsub`, a store concerns. */
  datatype Operand = OperandA | OperandB

  /** The contents of the work-group's local arrays `Asub[TS][TS]` and `Bsub[TS][TS]`, each laid out
      row by row in `TS * TS` slots. */
  datatype Caches = Caches(asub: seq<real>, bsub: seq<real>)

  predicate InTile(l: LocalId, ts: nat)
  {
    l.row < ts && l.col < ts
  }

  predicate WellSized(caches: Caches, ts: nat)
  {
    |caches.asub| == Mul(ts, ts) && |caches.bsub| == Mul(ts, ts)
  }

  /** The launch `NDRange {M, N}` with local size `{TS, TS}` is split into whole work-groups. */
  predicate UniformGrid(cfg: Config)
  {
    cfg.TS > 0 && Rem(cfg.M, cfg.TS) == 0 && Rem(cfg.N, cfg.TS) == 0
  }

  predicate GroupInGrid(g: GroupId, cfg: Config)
    requires cfg.TS > 0
  {
    g.g0 < Tiles(cfg.M, cfg.TS) && g.g1 < Tiles(cfg.N, cfg.TS)
  }

  predicate InGrid(w: WorkItem, cfg: Config)
    requires cfg.TS > 0
  {
    GroupInGrid(w.group, cfg) && InTile(w.local, cfg.TS)
  }

  /** An order in which the device may run the `TS × TS` work-items of one group: each exactly once.
      That every work-item runs is stated through the owners of the cache slots, which by
      `SlotBijection` are exactly the work-items of the group. */
  ghost predicate IsTileSchedule(sched: seq<LocalId>, ts: nat)
    requires ts > 0
  {
    && (forall i :: 0 <= i < |sched| ==> InTile(sched[i], ts))
    && (forall i, j :: 0 <= i < j < |sched| ==> sched[i] != sched[j])
    && (forall s :: 0 <= s < Mul(ts, ts) ==> Owner(s, ts) in sched)
  }

  /** An order in which the device may run the work-items of the whole launch: each exactly once.
      That every work-item runs is stated through the cells of `C`: the work-item owning each cell
      runs (by `CellItemOwnsCell` and `ItemIsCellItem`, in a uniform grid these are exactly the
      work-items of the launch). */
  ghost predicate IsGridSchedule(items: seq<WorkItem>, cfg: Config)
    requires cfg.TS > 0
  {
    && (forall i :: 0 <= i < |items| ==> InGrid(items[i], cfg))
    && (forall i, j :: 0 <= i < j < |items| ==> items[i] != items[j])
    && (forall gr: nat, gc: nat :: gr < cfg.M && gc < cfg.N ==> CellItem(cfg, gr, gc) in items)
  }

  /** The work-item whose `(globalRow, globalCol)` is `(gr, gc)`: group `(gr / TS, gc / TS)`,
      local id `(gr % TS, gc % TS)`. */
  function CellItem(cfg: Config, gr: nat, gc: nat): WorkItem
    requires cfg.TS > 0
  {
    WorkItem(GroupId(Tiles(gr, cfg.TS), Tiles(gc, cfg.TS)), LocalId(Rem(gr, cfg.TS), Rem(gc, cfg.TS)))
  }

  /** `globalRow = TS * get_group_id(0) + row`; inside the launch grid it is a row of `C`. */
  function GlobalRow(cfg: Config, w: WorkItem): (r: nat)
    requires cfg.TS > 0 && InGrid(w, cfg)
    ensures r < cfg.M
  {
    RowMajorBound(w.group.g0, w.local.row, Tiles(cfg.M, cfg.TS), cfg.TS);
    TilesRem(cfg.M, cfg.TS);
    Mul(w.group.g0, cfg.TS) + w.local.row
  }

  /** `globalCol = TS * get_group_id(1) + col`; inside the launch grid it is a column of `C`. */
  function GlobalCol(cfg: Config, w: WorkItem): (c: nat)
    requires cfg.TS > 0 && InGrid(w, cfg)
    ensures c < cfg.N
  {
    RowMajorBound(w.group.g1, w.local.col, Tiles(cfg.N, cfg.TS), cfg.TS);
    TilesRem(cfg.N, cfg.TS);
    Mul(w.group.g1, cfg.TS) + w.local.col
  }

  /** `numTiles = K / TS`: the number of whole tiles in the shared dimension. Integer division
      truncates, so a partial last tile is not visited. */
  function NumTiles(cfg: Config): (n: nat)
    requires cfg.TS > 0
    ensures Mul(n, cfg.TS) <= cfg.K < Mul(n + 1, cfg.TS)
  {
    TilesRem(cfg.K, cfg.TS);
    MulSucc(Tiles(cfg.K, cfg.TS), cfg.TS);
    Tiles(cfg.K, cfg.TS)
  }

  /** Length of the shared dimension the tile steps cover: `numTiles * TS`. */
  function Covered(cfg: Config): (n: nat)
    requires cfg.TS > 0
    ensures n <= cfg.K
  {
    TilesRem(cfg.K, cfg.TS);
    Mul(NumTiles(cfg), cfg.TS)
  }

  /** One past the largest index of `A` the kernel reads (`A` is read at `j * M + globalRow`, `j < numTiles * TS`). */
  function AExtent(cfg: Config): nat
    requires cfg.TS > 0
  {
    Mul(Covered(cfg), cfg.M)
  }

  /** One past the largest index of `B` the kernel reads (`B` is read at `globalCol * K + j`, `j < numTiles * TS`). */
  function BExtent(cfg: Config): nat
    requires cfg.TS > 0
  {
    if cfg.N == 0 || Covered(cfg) == 0 then 0 else Mul(cfg.N - 1, cfg.K) + Covered(cfg)
  }

  /** The input buffers are long enough for every read the kernel makes. */
  predicate ReadsFit(cfg: Config, aLen: nat, bLen: nat)
    requires cfg.TS > 0
  {
    aLen >= AExtent(cfg) && bLen >= BExtent(cfg)
  }

  /** Reads stay below `M * K` in `A` and below `K * N` in `B`, so buffers of the natural sizes suffice. */
  lemma ExtentsWithinNaturalSizes(cfg: Config)
    requires cfg.TS > 0
    ensures AExtent(cfg) <= Mul(cfg.M, cfg.K)
    ensures BExtent(cfg) <= Mul(cfg.K, cfg.N)
  {
    MulMonotone(Covered(cfg), cfg.K, cfg.M);
    MulComm(cfg.K, cfg.M);
    MulComm(cfg.K, cfg.N);
    if cfg.N > 0 {
      MulSucc(cfg.N - 1, cfg.K);
    }
  }

  /** The global index work-item `w` reads at tile step `t`:
      `A[tiledCol * M + globalRow]` or `B[globalCol * K + tiledRow]`, where
      `tiledRow = TS * t + row` and `tiledCol = TS * t + col`. It lies inside the read extent. */
  function ReadIndex(op: Operand, cfg: Config, w: WorkItem, t: nat): (i: nat)
    requires cfg.TS > 0 && InGrid(w, cfg) && t < NumTiles(cfg)
    ensures op == OperandA ==> i < AExtent(cfg)
    ensures op == OperandB ==> i < BExtent(cfg)
  {
    var tiledRow := Mul(t, cfg.TS) + w.local.row;
    var tiledCol := Mul(t, cfg.TS) + w.local.col;
    TiledIndexBound(cfg, t, w.local.row);
    TiledIndexBound(cfg, t, w.local.col);
    match op
    case OperandA =>
      RowMajorBound(tiledCol, GlobalRow(cfg, w), Covered(cfg), cfg.M);
      Mul(tiledCol, cfg.M) + GlobalRow(cfg, w)
    case OperandB =>
      MulMonotone(GlobalCol(cfg, w), cfg.N - 1, cfg.K);
      Mul(GlobalCol(cfg, w), cfg.K) + tiledRow
  }

  lemma TiledIndexBound(cfg: Config, t: nat, k: nat)
    requires cfg.TS > 0 && t < NumTiles(cfg) && k < cfg.TS
    ensures Mul(t, cfg.TS) + k < Covered(cfg)
    ensures Mul(t, cfg.TS) + cfg.TS <= Covered(cfg)
  {
    var next := t + 1;
    MulMonotone(next, NumTiles(cfg), cfg.TS);
  }

  /** The element work-item `w` stores into a cache at tile step `t`. */
  function StagedValue(op: Operand, cfg: Config, A: seq<real>, B: seq<real>, w: WorkItem, t: nat): real
    requires cfg.TS > 0 && InGrid(w, cfg) && t < NumTiles(cfg) && ReadsFit(cfg, |A|, |B|)
  {
    match op
    case OperandA => A[ReadIndex(op, cfg, w, t)]
    case OperandB => B[ReadIndex(op, cfg, w, t)]
  }

  /** Work-item `(row, col)` stores into `Asub[col][row]` and `Bsub[col][row]`: a slot of the cache,
      from which the work-item can be recovered. */
  function Slot(l: LocalId, ts: nat): (s: nat)
    requires InTile(l, ts)
    ensures s < Mul(ts, ts)
  {
    RowMajor(l.col, l.row, ts, ts)
  }

  /** Staging is a bijection between the `TS × TS` work-items of a group and the `TS × TS` slots of a
      cache: no two work-items store into the same slot, and every slot is stored into by some
      work-item. Hence every slot is written by exactly one work-item per tile step. */
  lemma SlotBijection(ts: nat)
    requires ts > 0
    ensures forall l, l' :: InTile(l, ts) && InTile(l', ts) && Slot(l, ts) == Slot(l', ts) ==> l == l'
    ensures forall s :: 0 <= s < Mul(ts, ts) ==> InTile(Owner(s, ts), ts) && Slot(Owner(s, ts), ts) == s
    ensures forall l :: InTile(l, ts) ==> Owner(Slot(l, ts), ts) == l
  {
    forall l, l' | InTile(l, ts) && InTile(l', ts) && Slot(l, ts) == Slot(l', ts)
      ensures l == l'
    {
      RowMajorUnique(l.col, l.row, l'.col, l'.row, ts);
    }
    forall l | InTile(l, ts)
      ensures Owner(Slot(l, ts), ts) == l
    {
      TilesUnique(l.col, l.row, ts);
    }
    forall s | 0 <= s < Mul(ts, ts)
      ensures InTile(Owner(s, ts), ts) && Slot(Owner(s, ts), ts) == s
    {
      RowMajorCover(s, ts, ts);
    }
  }

  /** The work-item that stores into slot `s`: slot `[c][r]` belongs to work-item `(r, c)`. */
  function Owner(s: nat, ts: nat): LocalId
    requires ts > 0
  {
    LocalId(Rem(s, ts), Tiles(s, ts))
  }

  /** The stores of one cache in one tile step, in the order `sched` runs the group's work-items. */
  function StageWrites(op: Operand, cfg: Config, A: seq<real>, B: seq<real>,
                       g: GroupId, t: nat, sched: seq<LocalId>): (ws: seq<Scatter.Write>)
    requires cfg.TS > 0 && GroupInGrid(g, cfg) && t < NumTiles(cfg) && ReadsFit(cfg, |A|, |B|)
    requires forall i :: 0 <= i < |sched| ==> InTile(sched[i], cfg.TS)
    ensures |ws| == |sched|
    ensures forall i :: 0 <= i < |sched| ==>
              ws[i] == Scatter.Write(Slot(sched[i], cfg.TS), StagedValue(op, cfg, A, B, WorkItem(g, sched[i]), t))
    ensures Scatter.InRange(ws, Mul(cfg.TS, cfg.TS))
    decreases |sched|
  {
    if |sched| == 0 then []
    else
      [Scatter.Write(Slot(sched[0], cfg.TS), StagedValue(op, cfg, A, B, WorkItem(g, sched[0]), t))]
        + StageWrites(op, cfg, A, B, g, t, sched[1..])
  }

  /** The caches after the staging phase of tile step `t` (the first barrier): each cache with the
      group's stores applied in the order `sched`. Its contents are stated by `StageFillsTile`. */
  function Stage(cfg: Config, A: seq<real>, B: seq<real>, g: GroupId, t: nat,
                 sched: seq<LocalId>, caches: Caches): (r: Caches)
    requires cfg.TS > 0 && GroupInGrid(g, cfg) && t < NumTiles(cfg) && ReadsFit(cfg, |A|, |B|)
    requires forall i :: 0 <= i < |sched| ==> InTile(sched[i], cfg.TS)
    requires WellSized(caches, cfg.TS)
    ensures WellSized(r, cfg.TS)
  {
    Caches(Scatter.Apply(caches.asub, StageWrites(OperandA, cfg, A, B, g, t, sched)),
           Scatter.Apply(caches.bsub, StageWrites(OperandB, cfg, A, B, g, t, sched)))
  }

  /** Whatever order the work-items ran in and whatever the caches held before, after the staging
      phase slot `[col][row]` of each cache holds the element work-item `(row, col)` read. */
  lemma StageFillsTile(cfg: Config, A: seq<real>, B: seq<real>, g: GroupId, t: nat,
                       sched: seq<LocalId>, caches: Caches)
    requires cfg.TS > 0 && GroupInGrid(g, cfg) && t < NumTiles(cfg) && ReadsFit(cfg, |A|, |B|)
    requires IsTileSchedule(sched, cfg.TS)
    requires WellSized(caches, cfg.TS)
    ensures forall l :: InTile(l, cfg.TS) ==>
              && Stage(cfg, A, B, g, t, sched, caches).asub[Slot(l, cfg.TS)]
                   == StagedValue(OperandA, cfg, A, B, WorkItem(g, l), t)
              && Stage(cfg, A, B, g, t, sched, caches).bsub[Slot(l, cfg.TS)]
                   == StagedValue(OperandB, cfg, A, B, WorkItem(g, l), t)
  {
    StagedSlots(OperandA, cfg, A, B, g, t, sched, caches.asub);
    StagedSlots(OperandB, cfg, A, B, g, t, sched, caches.bsub);
  }

  /** The stores of one cache in one tile step target distinct slots, so after them each slot holds
      the value of the one work-item that owns it. */
  lemma StagedSlots(op: Operand, cfg: Config, A: seq<real>, B: seq<real>, g: GroupId, t: nat,
                    sched: seq<LocalId>, buf: seq<real>)
    requires cfg.TS > 0 && GroupInGrid(g, cfg) && t < NumTiles(cfg) && ReadsFit(cfg, |A|, |B|)
    requires IsTileSchedule(sched, cfg.TS)
    requires |buf| == Mul(cfg.TS, cfg.TS)
    ensures forall l :: InTile(l, cfg.TS) ==>
              Scatter.Apply(buf, StageWrites(op, cfg, A, B, g, t, sched))[Slot(l, cfg.TS)]
                == StagedValue(op, cfg, A, B, WorkItem(g, l), t)
  {
    var ts := cfg.TS;
    var ws := StageWrites(op, cfg, A, B, g, t, sched);
    SlotBijection(ts);
    assert Scatter.Distinct(ws) by {
      forall p, q | 0 <= p < q < |sched|
        ensures ws[p].index != ws[q].index
      {
        assert sched[p] != sched[q];
      }
    }
    forall l | InTile(l, ts)
      ensures Scatter.Apply(buf, ws)[Slot(l, ts)] == StagedValue(op, cfg, A, B, WorkItem(g, l), t)
    {
      assert Owner(Slot(l, ts), ts) == l;
      assert l in sched;
      var i :| 0 <= i < |sched| && sched[i] == l;
      Scatter.ApplyWritten(buf, ws, i);
    }
  }

  /** The caches after a staging phase depend neither on the order in which the group's stores ran
      nor on what local memory held before. So one order and one initial content, shared by every
      group and every tile step, stand for any choice made per group and per step. */
  lemma StageOrderFree(cfg: Config, A: seq<real>, B: seq<real>, g: GroupId, t: nat,
                       s1: seq<LocalId>, c1: Caches, s2: seq<LocalId>, c2: Caches)
    requires cfg.TS > 0 && GroupInGrid(g, cfg) && t < NumTiles(cfg) && ReadsFit(cfg, |A|, |B|)
    requires IsTileSchedule(s1, cfg.TS) && IsTileSchedule(s2, cfg.TS)
    requires WellSized(c1, cfg.TS) && WellSized(c2, cfg.TS)
    ensures Stage(cfg, A, B, g, t, s1, c1) == Stage(cfg, A, B, g, t, s2, c2)
  {
    var ts := cfg.TS;
    var x, y := Stage(cfg, A, B, g, t, s1, c1), Stage(cfg, A, B, g, t, s2, c2);
    StageFillsTile(cfg, A, B, g, t, s1, c1);
    StageFillsTile(cfg, A, B, g, t, s2, c2);
    SlotBijection(ts);
    forall i | 0 <= i < Mul(ts, ts)
      ensures x.asub[i] == y.asub[i] && x.bsub[i] == y.bsub[i]
    {
      assert Slot(Owner(i, ts), ts) == i;
    }
    assert x.asub == y.asub && x.bsub == y.bsub;
  }

  /** The `TS` products work-item `l` adds in the accumulation phase:
      `Asub[k][row] * Bsub[col][k]` for `k = 0, 1, ..., TS - 1`. Which work-items staged them is
      stated by `StepTermsAt`. */
  function StepTerms(ts: nat, caches: Caches, l: LocalId): (r: seq<Term>)
    requires InTile(l, ts) && WellSized(caches, ts)
    ensures |r| == ts
  {
    RowMajorBound(ts - 1, l.row, ts, ts);
    RowMajorBound(l.col, ts - 1, ts, ts);
    MulUnits(ts - 1);
    Products(caches.asub, l.row, ts, caches.bsub, Mul(l.col, ts), 1, ts)
  }

  /** Product `k` of a tile step multiplies `Asub[k][row]`, which work-item `(row, k)` stored, by
      `Bsub[col][k]`, which work-item `(k, col)` stored. */
  lemma StepTermsAt(ts: nat, caches: Caches, l: LocalId, k: nat)
    requires InTile(l, ts) && WellSized(caches, ts) && k < ts
    ensures StepTerms(ts, caches, l)[k]
         == Term(caches.asub[Slot(LocalId(l.row, k), ts)], caches.bsub[Slot(LocalId(k, l.col), ts)])
  {
    RowMajorBound(ts - 1, l.row, ts, ts);
    RowMajorBound(l.col, ts - 1, ts, ts);
    MulUnits(ts - 1);
    MulUnits(k);
    ProductsAt(caches.asub, l.row, ts, caches.bsub, Mul(l.col, ts), 1, ts, k);
  }

  /** The tile loop of one work-item, from tile step `t` on, with running sum `sum` and the group's
      caches as they were left by the previous step. Returns the final `sum`, which continues `sum`
      with the flat terms from `TS * t` on, added one at a time in increasing order. */
  function WorkItemLoop(cfg: Config, A: seq<real>, B: seq<real>, w: WorkItem, sched: seq<LocalId>,
                        t: nat, sum: real, caches: Caches): (r: real)
    requires cfg.TS > 0 && InGrid(w, cfg) && t <= NumTiles(cfg) && ReadsFit(cfg, |A|, |B|)
    requires IsTileSchedule(sched, cfg.TS)
    requires WellSized(caches, cfg.TS)
    ensures Mul(t, cfg.TS) <= Covered(cfg)
    ensures r == Accumulate(sum, FlatTerms(cfg, A, B, GlobalRow(cfg, w), GlobalCol(cfg, w))[Mul(t, cfg.TS)..])
    decreases NumTiles(cfg) - t
  {
    var flat := FlatTerms(cfg, A, B, GlobalRow(cfg, w), GlobalCol(cfg, w));
    if t == NumTiles(cfg) then
      assert flat[Mul(t, cfg.TS)..] == [];
      sum
    else
      var staged := Stage(cfg, A, B, w.group, t, sched, caches);
      LoopStep(cfg, A, B, w, t, sched, caches, sum);
      WorkItemLoop(cfg, A, B, w, sched, t + 1, Accumulate(sum, StepTerms(cfg.TS, staged, w.local)), staged)
  }

  /** Running tile step `t` and then the flat terms from `TS * (t + 1)` on adds the same terms, in
      the same order, as running the flat terms from `TS * t` on. */
  lemma LoopStep(cfg: Config, A: seq<real>, B: seq<real>, w: WorkItem, t: nat,
                 sched: seq<LocalId>, caches: Caches, sum: real)
    requires cfg.TS > 0 && InGrid(w, cfg) && t < NumTiles(cfg) && ReadsFit(cfg, |A|, |B|)
    requires IsTileSchedule(sched, cfg.TS)
    requires WellSized(caches, cfg.TS)
    ensures Mul(t + 1, cfg.TS) <= Covered(cfg)
    ensures Accumulate(sum, FlatTerms(cfg, A, B, GlobalRow(cfg, w), GlobalCol(cfg, w))[Mul(t, cfg.TS)..])
         == Accumulate(Accumulate(sum, StepTerms(cfg.TS, Stage(cfg, A, B, w.group, t, sched, caches), w.local)),
                       FlatTerms(cfg, A, B, GlobalRow(cfg, w), GlobalCol(cfg, w))[Mul(t + 1, cfg.TS)..])
  {
    StepIsFlatSlice(cfg, A, B, w, t, sched, caches);
    MulSucc(t, cfg.TS);
    AccumulateChunk(sum, FlatTerms(cfg, A, B, GlobalRow(cfg, w), GlobalCol(cfg, w)), Mul(t, cfg.TS),
                    StepTerms(cfg.TS, Stage(cfg, A, B, w.group, t, sched, caches), w.local), Mul(t + 1, cfg.TS));
  }

  /** The value work-item `w` stores into `C`: its running sum, started at `0`, after every tile step.
      It is the flat inner product `Σ_{j < numTiles*TS} A[j*M + globalRow] * B[globalCol*K + j]`,
      summed in increasing `j` like a single sequential loop, whatever order the group's stores ran
      in and whatever the local memory held at launch. */
  function WorkItemSum(cfg: Config, A: seq<real>, B: seq<real>, w: WorkItem,
                       sched: seq<LocalId>, caches: Caches): (r: real)
    requires cfg.TS > 0 && InGrid(w, cfg) && ReadsFit(cfg, |A|, |B|)
    requires IsTileSchedule(sched, cfg.TS)
    requires WellSized(caches, cfg.TS)
    ensures r == Sum(FlatTerms(cfg, A, B, GlobalRow(cfg, w), GlobalCol(cfg, w)))
  {
    var flat := FlatTerms(cfg, A, B, GlobalRow(cfg, w), GlobalCol(cfg, w));
    assert flat[Mul(0, cfg.TS)..] == flat;
    WorkItemLoop(cfg, A, B, w, sched, 0, 0.0, caches)
  }

  /** The flat inner product terms of output cell `(gr, gc)` over the covered part of the shared
      dimension: `A[j * M + gr] * B[gc * K + j]` for `j < numTiles * TS`, in increasing `j`. */
  function FlatTerms(cfg: Config, A: seq<real>, B: seq<real>, gr: nat, gc: nat): (r: seq<Term>)
    requires cfg.TS > 0 && gr < cfg.M && gc < cfg.N && ReadsFit(cfg, |A|, |B|)
    ensures |r| == Covered(cfg)
  {
    FlatTermsFit(cfg, |A|, |B|, gr, gc);
    Products(A, gr, cfg.M, B, Mul(gc, cfg.K), 1, Covered(cfg))
  }

  lemma FlatTermsFit(cfg: Config, aLen: nat, bLen: nat, gr: nat, gc: nat)
    requires cfg.TS > 0 && gr < cfg.M && gc < cfg.N && ReadsFit(cfg, aLen, bLen)
    ensures InExtent(Covered(cfg), gr, cfg.M, aLen)
    ensures InExtent(Covered(cfg), Mul(gc, cfg.K), 1, bLen)
  {
    var cov := Covered(cfg);
    if cov > 0 {
      RowMajorBound(cov - 1, gr, cov, cfg.M);
      MulMonotone(gc, cfg.N - 1, cfg.K);
      MulUnits(cov - 1);
    }
  }

  lemma FlatTermsAt(cfg: Config, A: seq<real>, B: seq<real>, gr: nat, gc: nat, j: nat)
    requires cfg.TS > 0 && gr < cfg.M && gc < cfg.N && ReadsFit(cfg, |A|, |B|)
    requires j < Covered(cfg)
    ensures Mul(j, cfg.M) + gr < |A| && Mul(gc, cfg.K) + j < |B|
    ensures FlatTerms(cfg, A, B, gr, gc)[j] == Term(A[Mul(j, cfg.M) + gr], B[Mul(gc, cfg.K) + j])
  {
    FlatTermsFit(cfg, |A|, |B|, gr, gc);
    MulUnits(j);
    ProductsAt(A, gr, cfg.M, B, Mul(gc, cfg.K), 1, Covered(cfg), j);
  }

  /** One tile step adds exactly the next `TS` flat terms, in order: the accumulation phase of step
      `t` adds products `TS*t, TS*t + 1, ..., TS*t + TS - 1` of the flat inner product. */
  lemma StepIsFlatSlice(cfg: Config, A: seq<real>, B: seq<real>, w: WorkItem, t: nat,
                        sched: seq<LocalId>, caches: Caches)
    requires cfg.TS > 0 && InGrid(w, cfg) && t < NumTiles(cfg) && ReadsFit(cfg, |A|, |B|)
    requires IsTileSchedule(sched, cfg.TS)
    requires WellSized(caches, cfg.TS)
    ensures Mul(t, cfg.TS) + cfg.TS <= Covered(cfg)
    ensures forall k :: 0 <= k < cfg.TS ==>
              StepTerms(cfg.TS, Stage(cfg, A, B, w.group, t, sched, caches), w.local)[k]
                == FlatTerms(cfg, A, B, GlobalRow(cfg, w), GlobalCol(cfg, w))[Mul(t, cfg.TS) + k]
  {
    TiledIndexBound(cfg, t, 0);
    forall k | 0 <= k < cfg.TS
      ensures StepTerms(cfg.TS, Stage(cfg, A, B, w.group, t, sched, caches), w.local)[k]
                == FlatTerms(cfg, A, B, GlobalRow(cfg, w), GlobalCol(cfg, w))[Mul(t, cfg.TS) + k]
    {
      StepTermIsFlatTerm(cfg, A, B, w, t, sched, caches, k);
    }
  }

  /** Product `k` of tile step `t` is flat term `TS*t + k`: it multiplies `Asub[k][row]`, which
      work-item `(row, k)` staged, by `Bsub[col][k]`, which work-item `(k, col)` staged. */
  lemma StepTermIsFlatTerm(cfg: Config, A: seq<real>, B: seq<real>, w: WorkItem, t: nat,
                           sched: seq<LocalId>, caches: Caches, k: nat)
    requires cfg.TS > 0 && InGrid(w, cfg) && t < NumTiles(cfg) && ReadsFit(cfg, |A|, |B|)
    requires IsTileSchedule(sched, cfg.TS)
    requires WellSized(caches, cfg.TS)
    requires k < cfg.TS
    ensures Mul(t, cfg.TS) + k < Covered(cfg)
    ensures StepTerms(cfg.TS, Stage(cfg, A, B, w.group, t, sched, caches), w.local)[k]
         == FlatTerms(cfg, A, B, GlobalRow(cfg, w), GlobalCol(cfg, w))[Mul(t, cfg.TS) + k]
  {
    StageFillsTile(cfg, A, B, w.group, t, sched, caches);
    StepTermsAt(cfg.TS, Stage(cfg, A, B, w.group, t, sched, caches), w.local, k);
    StagedProductIsFlatTerm(cfg, A, B, w, t, k);
  }

  /** The element pair work-item `(row, col)` multiplies at position `k` of tile step `t`
      (`Asub[k][row]`, staged by work-item `(row, k)`, and `Bsub[col][k]`, staged by work-item
      `(k, col)`) is the flat term `TS*t + k`. */
  lemma StagedProductIsFlatTerm(cfg: Config, A: seq<real>, B: seq<real>, w: WorkItem, t: nat, k: nat)
    requires cfg.TS > 0 && InGrid(w, cfg) && t < NumTiles(cfg) && ReadsFit(cfg, |A|, |B|) && k < cfg.TS
    ensures Mul(t, cfg.TS) + k < Covered(cfg)
    ensures Term(StagedValue(OperandA, cfg, A, B, WorkItem(w.group, LocalId(w.local.row, k)), t),
                 StagedValue(OperandB, cfg, A, B, WorkItem(w.group, LocalId(k, w.local.col)), t))
         == FlatTerms(cfg, A, B, GlobalRow(cfg, w), GlobalCol(cfg, w))[Mul(t, cfg.TS) + k]
  {
    TiledIndexBound(cfg, t, k);
    var wa := WorkItem(w.group, LocalId(w.local.row, k));
    var wb := WorkItem(w.group, LocalId(k, w.local.col));
    assert GlobalRow(cfg, wa) == GlobalRow(cfg, w);
    assert GlobalCol(cfg, wb) == GlobalCol(cfg, w);
    FlatTermsAt(cfg, A, B, GlobalRow(cfg, w), GlobalCol(cfg, w), Mul(t, cfg.TS) + k);
  }

  /** `C[globalCol * M + globalRow]`: the one position of `C` work-item `w` stores into. */
  function OutIndex(cfg: Config, w: WorkItem): (i: nat)
    requires cfg.TS > 0 && InGrid(w, cfg)
    ensures i < Mul(cfg.M, cfg.N)
  {
    ColMajor(GlobalRow(cfg, w), GlobalCol(cfg, w), cfg.M, cfg.N)
  }

  /** Distinct work-items of the launch store into distinct positions of `C`. */
  lemma OutIndexInjective(cfg: Config, w: WorkItem, w': WorkItem)
    requires cfg.TS > 0 && InGrid(w, cfg) && InGrid(w', cfg)
    requires OutIndex(cfg, w) == OutIndex(cfg, w')
    ensures w == w'
  {
    RowMajorUnique(GlobalCol(cfg, w), GlobalRow(cfg, w), GlobalCol(cfg, w'), GlobalRow(cfg, w'), cfg.M);
    RowMajorUnique(w.group.g0, w.local.row, w'.group.g0, w'.local.row, cfg.TS);
    RowMajorUnique(w.group.g1, w.local.col, w'.group.g1, w'.local.col, cfg.TS);
  }

  /** The final stores of the launch, in the order `items` runs the work-items. */
  function OutputWrites(cfg: Config, A: seq<real>, B: seq<real>, items: seq<WorkItem>,
                        sched: seq<LocalId>, caches: Caches): (ws: seq<Scatter.Write>)
    requires cfg.TS > 0 && ReadsFit(cfg, |A|, |B|)
    requires forall i :: 0 <= i < |items| ==> InGrid(items[i], cfg)
    requires IsTileSchedule(sched, cfg.TS)
    requires WellSized(caches, cfg.TS)
    ensures |ws| == |items|
    ensures forall i :: 0 <= i < |items| ==>
              ws[i] == Scatter.Write(OutIndex(cfg, items[i]), WorkItemSum(cfg, A, B, items[i], sched, caches))
    ensures Scatter.InRange(ws, Mul(cfg.M, cfg.N))
    decreases |items|
  {
    if |items| == 0 then []
    else
      [Scatter.Write(OutIndex(cfg, items[0]), WorkItemSum(cfg, A, B, items[0], sched, caches))]
        + OutputWrites(cfg, A, B, items[1..], sched, caches)
  }

  /** The output buffer after the launch: every work-item of `items` stores its sum into `C`.
      Every group stages its tiles in the order `sched`, starting from local memory holding `caches`.
      Cell `(gr, gc)` of `C`, stored column by column, receives the flat inner product over
      `j < numTiles * TS`; every position past `M * N` is left as it was. */
  function MatrixMultiply(cfg: Config, A: seq<real>, B: seq<real>, C: seq<real>, items: seq<WorkItem>,
                          sched: seq<LocalId>, caches: Caches): (r: seq<real>)
    requires UniformGrid(cfg) && ReadsFit(cfg, |A|, |B|) && |C| >= Mul(cfg.M, cfg.N)
    requires IsGridSchedule(items, cfg)
    requires IsTileSchedule(sched, cfg.TS)
    requires WellSized(caches, cfg.TS)
    ensures |r| == |C|
    ensures forall gr: nat, gc: nat :: gr < cfg.M && gc < cfg.N ==>
              r[ColMajor(gr, gc, cfg.M, cfg.N)] == Sum(FlatTerms(cfg, A, B, gr, gc))
    ensures forall i :: Mul(cfg.M, cfg.N) <= i < |C| ==> r[i] == C[i]
  {
    LaunchStores(cfg, A, B, C, items, sched, caches);
    Scatter.Apply(C, OutputWrites(cfg, A, B, items, sched, caches))
  }

  /** The final stores of a launch target distinct cells, one per global id, so each cell ends up
      with the sum of the work-item that owns it, and nothing past `M * N` is touched. */
  lemma LaunchStores(cfg: Config, A: seq<real>, B: seq<real>, C: seq<real>,
                     items: seq<WorkItem>, sched: seq<LocalId>, caches: Caches)
    requires UniformGrid(cfg) && ReadsFit(cfg, |A|, |B|) && |C| >= Mul(cfg.M, cfg.N)
    requires IsGridSchedule(items, cfg)
    requires IsTileSchedule(sched, cfg.TS)
    requires WellSized(caches, cfg.TS)
    ensures forall gr: nat, gc: nat :: gr < cfg.M && gc < cfg.N ==>
              Scatter.Apply(C, OutputWrites(cfg, A, B, items, sched, caches))[ColMajor(gr, gc, cfg.M, cfg.N)]
                == Sum(FlatTerms(cfg, A, B, gr, gc))
    ensures forall i :: Mul(cfg.M, cfg.N) <= i < |C| ==>
              Scatter.Apply(C, OutputWrites(cfg, A, B, items, sched, caches))[i] == C[i]
  {
    var ws := OutputWrites(cfg, A, B, items, sched, caches);
    var out := Scatter.Apply(C, ws);
    assert Scatter.Distinct(ws) by {
      forall p, q | 0 <= p < q < |ws| ensures ws[p].index != ws[q].index {
        if ws[p].index == ws[q].index {
          OutIndexInjective(cfg, items[p], items[q]);
        }
      }
    }
    forall gr: nat, gc: nat | gr < cfg.M && gc < cfg.N
      ensures out[ColMajor(gr, gc, cfg.M, cfg.N)] == Sum(FlatTerms(cfg, A, B, gr, gc))
    {
      var ts := cfg.TS;
      DivisibleBound(gr, cfg.M, ts);
      DivisibleBound(gc, cfg.N, ts);
      var w := CellItem(cfg, gr, gc);
      CellItemOwnsCell(cfg, gr, gc);
      assert w in items;
      var i :| 0 <= i < |items| && items[i] == w;
      Scatter.ApplyWritten(C, ws, i);
    }
    forall i: nat | Mul(cfg.M, cfg.N) <= i < |C|
      ensures out[i] == C[i]
    {
      Scatter.ApplyUntouched(C, ws, i);
    }
  }

  /** In a uniform grid, the work-item `CellItem(cfg, gr, gc)` belongs to the launch and its global
      row and column are `gr` and `gc`. */
  lemma CellItemOwnsCell(cfg: Config, gr: nat, gc: nat)
    requires UniformGrid(cfg) && gr < cfg.M && gc < cfg.N
    ensures InGrid(CellItem(cfg, gr, gc), cfg)
    ensures GlobalRow(cfg, CellItem(cfg, gr, gc)) == gr && GlobalCol(cfg, CellItem(cfg, gr, gc)) == gc
  {
    DivisibleBound(gr, cfg.M, cfg.TS);
    DivisibleBound(gc, cfg.N, cfg.TS);
  }

  /** Every work-item of the launch is the owner of the cell it computes. */
  lemma ItemIsCellItem(cfg: Config, w: WorkItem)
    requires cfg.TS > 0 && InGrid(w, cfg)
    ensures CellItem(cfg, GlobalRow(cfg, w), GlobalCol(cfg, w)) == w
  {
    TilesUnique(w.group.g0, w.local.row, cfg.TS);
    TilesUnique(w.group.g1, w.local.col, cfg.TS);
  }

  lemma DivisibleBound(x: nat, dim: nat, ts: nat)
    requires ts > 0 && Rem(dim, ts) == 0 && x < dim
    ensures Tiles(x, ts) < Tiles(dim, ts) && Rem(x, ts) < ts
    ensures Mul(Tiles(x, ts), ts) + Rem(x, ts) == x
  {
    TilesBelow(x, dim, ts);
    TilesRem(x, ts);
  }

  /** The tile steps cover the shared dimension up to its remainder: `numTiles * TS + K % TS == K`,
      so they cover all of it exactly when `TS` divides `K`. */
  lemma CoveredIsWholeTiles(cfg: Config)
    requires cfg.TS > 0
    ensures Covered(cfg) + Rem(cfg.K, cfg.TS) == cfg.K
    ensures Covered(cfg) == cfg.K <==> Rem(cfg.K, cfg.TS) == 0
  {
    TilesRem(cfg.K, cfg.TS);
  }

  /** `A` holds a `K × M` matrix and `B` an `N × K` matrix, row by row; equivalently `A` is `M × K`
      and `B` is `K × N` stored column by column, the layout the kernel's indexing assumes. */
  predicate NaturalSizes(cfg: Config, aLen: nat, bLen: nat)
  {
    Shaped(bLen, aLen, cfg.N, cfg.K, cfg.M)
  }

  /** Buffers of the natural sizes hold every element the kernel reads. */
  lemma NaturalSizesFit(cfg: Config, aLen: nat, bLen: nat)
    requires cfg.TS > 0 && NaturalSizes(cfg, aLen, bLen)
    ensures ReadsFit(cfg, aLen, bLen)
  {
    ExtentsWithinNaturalSizes(cfg);
    MulComm(cfg.K, cfg.M);
  }

  /** What one flat loop over the whole shared dimension would add for cell `(gr, gc)`:
      `A[j * M + gr] * B[gc * K + j]` for every `j < K`, in increasing `j`. */
  function FullTerms(cfg: Config, A: seq<real>, B: seq<real>, gr: nat, gc: nat): (r: seq<Term>)
    requires NaturalSizes(cfg, |A|, |B|) && gr < cfg.M && gc < cfg.N
    ensures |r| == cfg.K
  {
    CellFits(|B|, |A|, cfg.N, cfg.K, cfg.M, gc, gr);
    Products(A, gr, cfg.M, B, Mul(gc, cfg.K), 1, cfg.K)
  }

  /** The terms the tile steps add are the first `numTiles * TS` of the full flat loop's terms: the
      last `K % TS` terms are never added. */
  lemma FlatTermsArePrefix(cfg: Config, A: seq<real>, B: seq<real>, gr: nat, gc: nat)
    requires cfg.TS > 0 && NaturalSizes(cfg, |A|, |B|) && ReadsFit(cfg, |A|, |B|)
    requires gr < cfg.M && gc < cfg.N
    ensures FlatTerms(cfg, A, B, gr, gc) == FullTerms(cfg, A, B, gr, gc)[..Covered(cfg)]
    ensures FlatTerms(cfg, A, B, gr, gc) == FullTerms(cfg, A, B, gr, gc) <==> Rem(cfg.K, cfg.TS) == 0
  {
    CellFits(|B|, |A|, cfg.N, cfg.K, cfg.M, gc, gr);
    ProductsPrefix(A, gr, cfg.M, B, Mul(gc, cfg.K), 1, Covered(cfg), cfg.K);
    CoveredIsWholeTiles(cfg);
  }

  /** The full flat loop computes cell `(gc, gr)` of the row-major product `B · A`. */
  lemma FullTermsAreTransposedProduct(cfg: Config, A: seq<real>, B: seq<real>, gr: nat, gc: nat)
    requires NaturalSizes(cfg, |A|, |B|) && gr < cfg.M && gc < cfg.N
    ensures Sum(FullTerms(cfg, A, B, gr, gc)) == ProductCell(B, A, cfg.N, cfg.K, cfg.M, gc, gr)
  {
    CellFits(|B|, |A|, cfg.N, cfg.K, cfg.M, gc, gr);
    ProductsSwap(A, gr, cfg.M, B, Mul(gc, cfg.K), 1, cfg.K);
  }

  /** With constant inputs (`A` all `a`, `B` all `b`) a work-item's sum is `numTiles * TS * a * b`,
      where the full inner product would be `K * a * b`. */
  lemma ConstantInputSum(cfg: Config, A: seq<real>, B: seq<real>, gr: nat, gc: nat, a: real, b: real)
    requires cfg.TS > 0 && NaturalSizes(cfg, |A|, |B|) && ReadsFit(cfg, |A|, |B|)
    requires gr < cfg.M && gc < cfg.N
    requires forall i :: 0 <= i < |A| ==> A[i] == a
    requires forall i :: 0 <= i < |B| ==> B[i] == b
    ensures Sum(FlatTerms(cfg, A, B, gr, gc)) == (Covered(cfg) as real) * (a * b)
  {
    FlatTermsConstant(cfg, A, B, gr, gc, a, b);
    SumConstant(FlatTerms(cfg, A, B, gr, gc), Covered(cfg), a, b);
  }

  /** With constant inputs the kernel's sum equals the full inner product exactly when `TS` divides
      `K` or `a * b == 0`: any remainder `K % TS` loses terms. So for `M = N = 2`, `K = 3`, `TS = 2`
      and all-ones inputs the kernel yields `2` where the inner product is `3`. */
  lemma ConstantInputsShowDroppedTerms(cfg: Config, A: seq<real>, B: seq<real>, gr: nat, gc: nat, a: real, b: real)
    requires cfg.TS > 0 && NaturalSizes(cfg, |A|, |B|) && ReadsFit(cfg, |A|, |B|)
    requires gr < cfg.M && gc < cfg.N
    requires forall i :: 0 <= i < |A| ==> A[i] == a
    requires forall i :: 0 <= i < |B| ==> B[i] == b
    ensures Sum(FlatTerms(cfg, A, B, gr, gc)) == Sum(FullTerms(cfg, A, B, gr, gc))
        <==> Rem(cfg.K, cfg.TS) == 0 || a * b == 0.0
  {
    FullTermsConstant(cfg, A, B, gr, gc, a, b);
    FlatTermsConstant(cfg, A, B, gr, gc, a, b);
    SumsOfCopies(FlatTerms(cfg, A, B, gr, gc), FullTerms(cfg, A, B, gr, gc), a, b);
    CoveredIsWholeTiles(cfg);
  }

  lemma FlatTermsConstant(cfg: Config, A: seq<real>, B: seq<real>, gr: nat, gc: nat, a: real, b: real)
    requires cfg.TS > 0 && NaturalSizes(cfg, |A|, |B|) && ReadsFit(cfg, |A|, |B|)
    requires gr < cfg.M && gc < cfg.N
    requires forall i :: 0 <= i < |A| ==> A[i] == a
    requires forall i :: 0 <= i < |B| ==> B[i] == b
    ensures forall j :: 0 <= j < Covered(cfg) ==> FlatTerms(cfg, A, B, gr, gc)[j] == Term(a, b)
  {
    FullTermsConstant(cfg, A, B, gr, gc, a, b);
    FlatTermsArePrefix(cfg, A, B, gr, gc);
  }

  lemma FullTermsConstant(cfg: Config, A: seq<real>, B: seq<real>, gr: nat, gc: nat, a: real, b: real)
    requires NaturalSizes(cfg, |A|, |B|) && gr < cfg.M && gc < cfg.N
    requires forall i :: 0 <= i < |A| ==> A[i] == a
    requires forall i :: 0 <= i < |B| ==> B[i] == b
    ensures forall j :: 0 <= j < cfg.K ==> FullTerms(cfg, A, B, gr, gc)[j] == Term(a, b)
  {
    CellFits(|B|, |A|, cfg.N, cfg.K, cfg.M, gc, gr);
    forall j | 0 <= j < cfg.K
      ensures FullTerms(cfg, A, B, gr, gc)[j] == Term(a, b)
    {
      ProductsAt(A, gr, cfg.M, B, Mul(gc, cfg.K), 1, cfg.K, j);
    }
  }

  /** When `TS` divides `K`, the whole launch leaves in `C`, read row by row as an `N × M` matrix,
      the product `B · A` of `B` read as `N × K` and `A` read as `K × M`, all row-major. */
  lemma KernelIsTransposedProduct(cfg: Config, A: seq<real>, B: seq<real>, C: seq<real>,
                                  items: seq<WorkItem>, sched: seq<LocalId>, caches: Caches)
    requires UniformGrid(cfg) && Rem(cfg.K, cfg.TS) == 0
    requires NaturalSizes(cfg, |A|, |B|) && ReadsFit(cfg, |A|, |B|) && |C| >= Mul(cfg.M, cfg.N)
    requires IsGridSchedule(items, cfg)
    requires IsTileSchedule(sched, cfg.TS)
    requires WellSized(caches, cfg.TS)
    ensures forall gc: nat, gr: nat :: gc < cfg.N && gr < cfg.M ==>
              MatrixMultiply(cfg, A, B, C, items, sched, caches)[RowMajor(gc, gr, cfg.N, cfg.M)]
                == ProductCell(B, A, cfg.N, cfg.K, cfg.M, gc, gr)
  {
    forall gc: nat, gr: nat | gc < cfg.N && gr < cfg.M
      ensures MatrixMultiply(cfg, A, B, C, items, sched, caches)[RowMajor(gc, gr, cfg.N, cfg.M)]
                == ProductCell(B, A, cfg.N, cfg.K, cfg.M, gc, gr)
    {
      assert ColMajor(gr, gc, cfg.M, cfg.N) == RowMajor(gc, gr, cfg.N, cfg.M);
      FlatTermsArePrefix(cfg, A, B, gr, gc);
      FullTermsAreTransposedProduct(cfg, A, B, gr, gc);
    }
  }

  /** The group's work-items in slot order: entry `s` is the owner of slot `s`. */
  function SlotOrder(ts: nat): (sched: seq<LocalId>)
    requires ts > 0
    ensures IsTileSchedule(sched, ts)
  {
    var order := seq(Mul(ts, ts), s requires 0 <= s < Mul(ts, ts) => Owner(s, ts));
    SlotOrderIsSchedule(ts, order);
    order
  }

  lemma SlotOrderIsSchedule(ts: nat, order: seq<LocalId>)
    requires ts > 0 && |order| == Mul(ts, ts)
    requires forall s :: 0 <= s < |order| ==> order[s] == Owner(s, ts)
    ensures IsTileSchedule(order, ts)
  {
    SlotBijection(ts);
    forall i, j | 0 <= i < j < |order|
      ensures order[i] != order[j]
    {
      assert Slot(order[i], ts) == i && Slot(order[j], ts) == j;
    }
    forall s | 0 <= s < Mul(ts, ts)
      ensures Owner(s, ts) in order
    {
      assert order[s] == Owner(s, ts);
    }
  }

  /** The launch's work-items in row-major order of the cells of `C` they compute. */
  function CellOrder(cfg: Config): (items: seq<WorkItem>)
    requires UniformGrid(cfg)
    ensures IsGridSchedule(items, cfg)
  {
    var order := seq(Mul(cfg.M, cfg.N), i requires 0 <= i < Mul(cfg.M, cfg.N) =>
      RowMajorCover(i, cfg.M, cfg.N);
      CellItem(cfg, Tiles(i, cfg.N), Rem(i, cfg.N)));
    CellOrderIsSchedule(cfg, order);
    order
  }

  lemma CellOrderIsSchedule(cfg: Config, order: seq<WorkItem>)
    requires UniformGrid(cfg) && |order| == Mul(cfg.M, cfg.N)
    requires forall i :: 0 <= i < |order| ==>
               cfg.N > 0 && order[i] == CellItem(cfg, Tiles(i, cfg.N), Rem(i, cfg.N))
    ensures IsGridSchedule(order, cfg)
  {
    forall i | 0 <= i < |order|
      ensures InGrid(order[i], cfg)
      ensures GlobalRow(cfg, order[i]) == Tiles(i, cfg.N) && GlobalCol(cfg, order[i]) == Rem(i, cfg.N)
    {
      RowMajorCover(i, cfg.M, cfg.N);
      CellItemOwnsCell(cfg, Tiles(i, cfg.N), Rem(i, cfg.N));
    }
    forall i, j | 0 <= i < j < |order|
      ensures order[i] != order[j]
    {
      RowMajorCover(i, cfg.M, cfg.N);
      RowMajorCover(j, cfg.M, cfg.N);
    }
    forall gr: nat, gc: nat | gr < cfg.M && gc < cfg.N
      ensures CellItem(cfg, gr, gc) in order
    {
      var i := RowMajor(gr, gc, cfg.M, cfg.N);
      TilesUnique(gr, gc, cfg.N);
      assert order[i] == CellItem(cfg, gr, gc);
    }
  }
}
