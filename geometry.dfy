/** The geometry of one compute stage (the constants at the top of Compute
    in kernel/Stencil.cpp and src/Stencil.cpp).

    Stage s of a pipeline of `depth` stages still has depth - s timesteps
    to apply after its own, so the block it receives carries a halo of
    Halo = CeilDiv(depth - s, lanes) vectors of `lanes` lanes on each side
    of the `width` vectors of the block.  Every timestep consumes one lane
    of halo on each side; when that uses up a whole vector the stage
    forwards one vector less on each side (the output "shrinks"). */
module StageGeometry {
  import opened Schedule
  import RowWalk

  /** The constants a compute stage is built from: the block width in
      vectors (kBlockWidthKernel / kColsPerBlock), the pipeline depth
      (kDepth), the lanes per vector (kKernelWidth / kDataWidth), the
      number of blocks and of rows per block, and the stage index. */
  datatype Stage = Stage(width: nat, depth: nat, lanes: nat, blocks: nat, rows: nat, stage: nat)

  predicate Valid(g: Stage)
  {
    g.width > 0 && g.lanes > 0 && g.blocks >= 2 && g.rows > 0 && g.stage < g.depth
  }

  /** Halo vectors on each side of the block stage s receives. */
  function Halo(g: Stage): nat
    requires Valid(g)
  {
    CeilDiv(g.depth - g.stage, g.lanes)
  }

  /** Halo vectors on each side of what the stage forwards: the halo of
      stage s + 1, which is none after the last stage. */
  function HaloAfter(g: Stage): nat
    requires Valid(g)
  {
    CeilDiv(g.depth - g.stage - 1, g.lanes)
  }

  /** input_width / kInputWidth: the vectors of one row of a block, halo
      included. */
  function InputWidth(g: Stage): nat
    requires Valid(g)
  {
    g.width + 2 * Halo(g)
  }

  /** boundary_width / kBoundaryWidth, computed as the source does. */
  function BoundaryWidth(g: Stage): nat
    requires Valid(g)
  {
    (InputWidth(g) - g.width) / 2
  }

  function InnerBegin(g: Stage): nat
    requires Valid(g)
  {
    BoundaryWidth(g)
  }

  function InnerEnd(g: Stage): int
    requires Valid(g)
  {
    InputWidth(g) - BoundaryWidth(g)
  }

  /** shrink_output / kShrinkOutput, as the source tests it. */
  predicate Shrink(g: Stage)
    requires Valid(g)
  {
    (g.lanes + g.depth - g.stage - 1) % g.lanes == 0
  }

  function OutputBegin(g: Stage): nat
    requires Valid(g)
  {
    if Shrink(g) then 1 else 0
  }

  function OutputEnd(g: Stage): int
    requires Valid(g)
  {
    if Shrink(g) then InputWidth(g) - 1 else InputWidth(g)
  }

  /** kLineWidth: the line buffer length of the array variant, the input
      width of stage 0. */
  function LineWidth(g: Stage): nat
    requires Valid(g)
  {
    g.width + 2 * CeilDiv(g.depth, g.lanes)
  }

  /** The next stage of the chain. */
  function Next(g: Stage): (h: Stage)
    requires Valid(g) && g.stage + 1 < g.depth
    ensures Valid(h)
  {
    g.(stage := g.stage + 1)
  }

  /** The rows a stage receives, in the terms of the memory-side stages:
      a row of an edge block holds width + Halo vectors (the halo only on
      the side facing another block), a row of an interior block
      width + 2 * Halo. */
  function InShape(g: Stage): (s: RowWalk.Shape)
    requires Valid(g)
    ensures RowWalk.Valid(s)
  {
    RowWalk.Shape(g.blocks, g.rows, g.width + Halo(g), g.width + 2 * Halo(g))
  }

  /** The rows a stage forwards. */
  function OutShape(g: Stage): (s: RowWalk.Shape)
    requires Valid(g)
  {
    RowWalk.Shape(g.blocks, g.rows, g.width + HaloAfter(g), g.width + 2 * HaloAfter(g))
  }

  // ---------------------------------------------------------------------
  // Properties

  /** Every stage has a halo of at least one vector, and the inner block
      [inner_begin, inner_end) is exactly `width` vectors wide, with the
      halo on each side. */
  lemma InnerSpan(g: Stage)
    requires Valid(g)
    ensures Halo(g) >= 1 && BoundaryWidth(g) == Halo(g)
    ensures InnerBegin(g) == Halo(g) && InnerEnd(g) == g.width + Halo(g)
    ensures InnerEnd(g) - InnerBegin(g) == g.width
  {
  }

  /** One more remaining timestep needs at most one more vector of halo:
      CeilDiv(m, k) is CeilDiv(m - 1, k) + 1 exactly when k divides
      m - 1, and CeilDiv(m - 1, k) otherwise. */
  lemma CeilDivStep(m: nat, k: nat)
    requires m > 0 && k > 0
    ensures CeilDiv(m, k) == CeilDiv(m - 1, k) + (if (k + m - 1) % k == 0 then 1 else 0)
  {
    var x := m + k - 2;
    NextLane(x, k);
    assert k + m - 1 == x + 1;
  }

  /** The shrink rule: the output shrinks by one vector on each side
      exactly when the next stage's halo is one vector smaller, and
      otherwise the halo is unchanged. */
  lemma ShrinkRule(g: Stage)
    requires Valid(g)
    ensures Shrink(g) <==> Halo(g) == HaloAfter(g) + 1
    ensures !Shrink(g) ==> Halo(g) == HaloAfter(g)
  {
    CeilDivStep(g.depth - g.stage, g.lanes);
  }

  /** What the stage forwards per row, output_end - output_begin vectors,
      is the input width of the next stage; after the last stage it is
      the block width, which is what Narrow consumes. */
  lemma OutputWidth(g: Stage)
    requires Valid(g)
    ensures OutputEnd(g) - OutputBegin(g) == g.width + 2 * HaloAfter(g)
    ensures g.stage + 1 < g.depth ==> OutputEnd(g) - OutputBegin(g) == InputWidth(Next(g))
    ensures g.stage + 1 == g.depth ==> OutputEnd(g) - OutputBegin(g) == g.width
    ensures 0 <= OutputBegin(g) <= InnerBegin(g) && InnerEnd(g) <= OutputEnd(g) <= InputWidth(g)
  {
    ShrinkRule(g);
    if g.stage + 1 == g.depth {
      assert g.depth - g.stage - 1 == 0;
    }
  }

  /** The shapes chain: what a stage forwards is what the next stage
      receives, and the last stage forwards rows of exactly `width`
      vectors in every block. */
  lemma ShapesChain(g: Stage)
    requires Valid(g)
    ensures g.stage + 1 < g.depth ==> OutShape(g) == InShape(Next(g))
    ensures g.stage + 1 == g.depth ==> OutShape(g) == RowWalk.Shape(g.blocks, g.rows, g.width, g.width)
  {
    if g.stage + 1 == g.depth {
      assert g.depth - g.stage - 1 == 0;
    }
  }

  lemma DivMonotone(x: nat, y: nat, d: nat)
    requires x <= y && d > 0
    ensures x / d <= y / d
  {
    DivBounds(x, d);
    DivBounds(y, d);
    if x / d > y / d {
      MulLe(y / d + 1, x / d, d);
    }
  }

  /** Every stage's rows fit the line buffers, which are sized for stage
      0: input_width <= kLineWidth. */
  lemma FitsLine(g: Stage)
    requires Valid(g)
    ensures InputWidth(g) <= LineWidth(g)
  {
    DivMonotone(g.depth - g.stage + g.lanes - 1, g.depth + g.lanes - 1, g.lanes);
  }
}
