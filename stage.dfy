/** What one compute stage pushes, as a function of the rows it receives
    (Compute in src/Stencil.cpp and in kernel/Stencil.cpp).

    A stage walks the same (t, b, r, c) space as the memory-side stages,
    but every row it walks is input_width vectors wide: the columns of an
    edge block that lie beyond the grid hold the boundary vector instead
    of an input vector.  The vector at column c of global row n is
    Centre(f, n, c); laid end to end, row after row, the centre vectors
    form the flat stream Flat(f, p), p = n * input_width + c.  Each
    position computes the four-point Jacobi update from its north, west,
    east and south neighbours and forwards it when it lies in the part of
    the block the next stage needs. */
module StencilStage {
  import opened Schedule
  import RowWalk
  import opened StageGeometry
  import DataPacks

  /** One vector (Kernel_t / DataPack) of `lanes` lanes. */
  type Vec = seq<real>

  /** What a stage works on: its geometry, the boundary value kBoundary
      and the rows it receives, in the order it receives them. */
  datatype Feed = Feed(geom: Stage, boundary: real, rows: seq<seq<Vec>>)

  /** Every input vector has `lanes` lanes. */
  ghost predicate WellFormed(f: Feed)
  {
    Valid(f.geom)
    && forall n, k | 0 <= n < |f.rows| && 0 <= k < |f.rows[n]| :: |f.rows[n][k]| == f.geom.lanes
  }

  /** The rows of `folds` folded timesteps, shaped as the stage receives
      them (InShape): edge-block rows carry the halo on one side,
      interior-block rows on both. */
  ghost predicate Shaped(f: Feed, folds: nat)
  {
    WellFormed(f)
    && |f.rows| == RowWalk.TotalRows(InShape(f.geom), folds)
    && forall n | 0 <= n < |f.rows| :: |f.rows[n]| == RowWalk.RowWidth(InShape(f.geom))(n)
  }

  /** Kernel_t(kBoundary): every lane the boundary value. */
  function Boundary(f: Feed): (v: Vec)
    requires Valid(f.geom)
    ensures |v| == f.geom.lanes
  {
    DataPacks.Filled(f.geom.lanes, f.boundary)
  }

  /** Block of global row n. */
  function BlockAt(g: Stage, n: nat): nat
    requires Valid(g)
  {
    BlockOf(g.rows, g.blocks, n)
  }

  /** The source's inBounds: column c of a row of block b lies inside the
      grid (the first block has no data left of inner_begin, the last
      none from inner_end on). */
  predicate InBounds(g: Stage, b: nat, c: nat)
    requires Valid(g)
  {
    (b > 0 || c >= InnerBegin(g)) && (b < g.blocks - 1 || c < InnerEnd(g))
  }

  /** Columns of a row of block b before its first input vector. */
  function LeftSkip(g: Stage, b: nat): nat
    requires Valid(g)
  {
    if b == 0 then InnerBegin(g) else 0
  }

  /** The vector at column c of global row n: the input vector there when
      the column is in bounds, the boundary vector otherwise and past the
      last row. */
  function Centre(f: Feed, n: nat, c: nat): (v: Vec)
    requires WellFormed(f)
    ensures |v| == f.geom.lanes
  {
    var g := f.geom;
    var b := BlockAt(g, n);
    if n < |f.rows| && InBounds(g, b, c) && c - LeftSkip(g, b) < |f.rows[n]|
    then f.rows[n][c - LeftSkip(g, b)]
    else Boundary(f)
  }

  /** Flat position of column c of global row n. */
  function Pos(g: Stage, n: nat, c: nat): nat
    requires Valid(g)
  {
    n * InputWidth(g) + c
  }

  /** The centre vectors end to end: position p is column
      p % input_width of global row p / input_width. */
  function Flat(f: Feed, p: nat): (v: Vec)
    requires WellFormed(f)
    ensures |v| == f.geom.lanes
  {
    var w := InputWidth(f.geom);
    Centre(f, p / w, p % w)
  }

  /** `len` consecutive centre vectors from flat position `start`. */
  function Span(f: Feed, start: nat, len: nat): (s: seq<Vec>)
    requires WellFormed(f)
    ensures |s| == len
  {
    seq(len, j requires 0 <= j < len => Flat(f, start + j))
  }

  // ---------------------------------------------------------------------
  // The update at one position

  /** The north neighbour: the centre one row up, or the boundary on the
      first row of a block. */
  function North(f: Feed, n: nat, c: nat): (v: Vec)
    requires WellFormed(f)
    ensures |v| == f.geom.lanes
  {
    if RowOf(f.geom.rows, n) > 0 && n > 0 then Centre(f, n - 1, c) else Boundary(f)
  }

  /** The south neighbour: the centre one row down, or the boundary on the
      last row of a block. */
  function South(f: Feed, n: nat, c: nat): (v: Vec)
    requires WellFormed(f)
    ensures |v| == f.geom.lanes
  {
    if RowOf(f.geom.rows, n) < f.geom.rows - 1 then Centre(f, n + 1, c) else Boundary(f)
  }

  /** The centre vector after (n, c) in the flat order. */
  function NextCentre(f: Feed, n: nat, c: nat): (v: Vec)
    requires WellFormed(f)
    ensures |v| == f.geom.lanes
  {
    if c + 1 < InputWidth(f.geom) then Centre(f, n, c + 1) else Centre(f, n + 1, 0)
  }

  /** The last lane of the centre vector before (n, c) in the flat order
      (shiftWest), the boundary value before the first position. */
  function WestLane(f: Feed, n: nat, c: nat): real
    requires WellFormed(f)
  {
    var k := f.geom.lanes - 1;
    if c > 0 then Centre(f, n, c - 1)[k]
    else if n > 0 then Centre(f, n - 1, InputWidth(f.geom) - 1)[k]
    else f.boundary
  }

  /** The ComputeSIMD loop: lane by lane a quarter of the sum of the four
      neighbours. */
  function Combine(north: Vec, west: Vec, east: Vec, south: Vec): (v: Vec)
    requires |west| == |north| && |east| == |north| && |south| == |north|
    ensures |v| == |north|
  {
    seq(|north|, w requires 0 <= w < |north| => 0.25 * (north[w] + west[w] + east[w] + south[w]))
  }

  /** The west neighbours: the centre shifted one lane east, lane 0 from
      shiftWest. */
  function West(f: Feed, n: nat, c: nat): (v: Vec)
    requires WellFormed(f)
    ensures |v| == f.geom.lanes
  {
    DataPacks.WestOf(Centre(f, n, c), WestLane(f, n, c))
  }

  /** The east neighbours: the centre shifted one lane west, the last lane
      from the next centre vector. */
  function East(f: Feed, n: nat, c: nat): (v: Vec)
    requires WellFormed(f)
    ensures |v| == f.geom.lanes
  {
    DataPacks.EastOf(Centre(f, n, c), NextCentre(f, n, c))
  }

  /** The vector the stage computes at column c of global row n. */
  function Update(f: Feed, n: nat, c: nat): (v: Vec)
    requires WellFormed(f)
    ensures |v| == f.geom.lanes
  {
    Combine(North(f, n, c), West(f, n, c), East(f, n, c), South(f, n, c))
  }

  // ---------------------------------------------------------------------
  // What the stage forwards

  /** The source's emission test: output_begin <= c < output_end and the
      column is in bounds. */
  predicate Emits(g: Stage, n: nat, c: nat)
    requires Valid(g)
  {
    OutputBegin(g) <= c < OutputEnd(g) && InBounds(g, BlockAt(g, n), c)
  }

  /** What a loop over columns 0 .. c - 1 pushes when it pushes value(x)
      at the columns x that `emit` selects. */
  function Pushed<X>(emit: nat -> bool, value: nat -> X, c: nat): seq<X>
  {
    if c == 0 then [] else Pushed(emit, value, c - 1) + (if emit(c - 1) then [value(c - 1)] else [])
  }

  /** The vectors pushed for global row n at columns before c. */
  function RowOutput(f: Feed, n: nat, c: nat): (out: seq<Vec>)
    requires WellFormed(f)
  {
    Pushed((x: nat) => Emits(f.geom, n, x), (x: nat) => Update(f, n, x), c)
  }

  /** The rows pushed for the first m global rows. */
  function Output(f: Feed, m: nat): (rows: seq<seq<Vec>>)
    requires WellFormed(f)
    ensures |rows| == m
  {
    if m == 0 then [] else Output(f, m - 1) + [RowOutput(f, m - 1, InputWidth(f.geom))]
  }

  /** One more column: its result joins the row's pushes when the stage
      emits there. */
  lemma RowOutputNext(f: Feed, n: nat, c: nat)
    requires WellFormed(f)
    ensures RowOutput(f, n, 0) == []
    ensures RowOutput(f, n, c + 1) == RowOutput(f, n, c) + (if Emits(f.geom, n, c) then [Update(f, n, c)] else [])
  {
  }

  /** One more row: its pushes join the finished rows. */
  lemma OutputNext(f: Feed, m: nat)
    requires WellFormed(f)
    ensures Output(f, m + 1) == Output(f, m) + [RowOutput(f, m, InputWidth(f.geom))]
  {
  }

  /** Everything the stage pushes to pipeOut. */
  function StageOutput(f: Feed): seq<Vec>
    requires WellFormed(f)
  {
    Flatten(Output(f, |f.rows|))
  }

  // ---------------------------------------------------------------------
  // What the stage consumes

  /** In-bounds columns of a row of block b before column c: the input
      vectors such a row has delivered by then. */
  function InBefore(g: Stage, b: nat, c: nat): nat
    requires Valid(g)
  {
    if c == 0 then 0 else InBefore(g, b, c - 1) + (if InBounds(g, b, c - 1) then 1 else 0)
  }

  /** Input vectors delivered before column c of global row m. */
  function Consumed(f: Feed, m: nat, c: nat): nat
    requires Valid(f.geom)
  {
    if m < |f.rows| then |Flatten(f.rows[..m])| + InBefore(f.geom, BlockAt(f.geom, m), c)
    else |Flatten(f.rows)|
  }

  /** The source's test for a boundary read in the steady state, in its
      disjunctive form, on the counters of row n: the vector read at
      column c belongs to the row after n. */
  predicate ReadsBoundary(g: Stage, b: nat, r: nat, c: nat)
    requires Valid(g)
  {
    (b == 0 && c < InnerBegin(g) && r < g.rows - 1)
    || (b == g.blocks - 1 && c < InnerBegin(g) && r == g.rows - 1)
    || (b == g.blocks - 1 && c >= InnerEnd(g) && r < g.rows - 1)
    || (b == g.blocks - 2 && c >= InnerEnd(g) && r == g.rows - 1)
  }

  // ---------------------------------------------------------------------
  // Properties of the geometry of a row

  /** The in-bounds columns of a row of block b are one contiguous window
      of exactly as many columns as the row has input vectors. */
  lemma InBoundsWindow(g: Stage, b: nat, c: nat)
    requires Valid(g) && b < g.blocks && c < InputWidth(g)
    ensures InBounds(g, b, c) <==>
      LeftSkip(g, b) <= c < LeftSkip(g, b) + RowWalk.Width(InShape(g), b)
    ensures LeftSkip(g, b) + RowWalk.Width(InShape(g), b) <= InputWidth(g)
  {
    InnerSpan(g);
    if b == 0 {
      assert RowWalk.Width(InShape(g), b) == g.width + Halo(g);
    } else if b == g.blocks - 1 {
      assert RowWalk.Width(InShape(g), b) == g.width + Halo(g);
    } else {
      assert RowWalk.Width(InShape(g), b) == InputWidth(g);
    }
  }

  /** The DNF read test on row n's counters is exactly "column c of the
      next row is out of bounds". */
  lemma BoundaryRead(g: Stage, n: nat, c: nat)
    requires Valid(g)
    ensures ReadsBoundary(g, BlockAt(g, n), RowOf(g.rows, n), c) <==> !InBounds(g, BlockAt(g, n + 1), c)
  {
    NextRow(g.rows, g.blocks, n);
  }

  /** Counting in-bounds columns: none before the window, one per column
      inside it, all of them after it. */
  lemma {:induction false} InBeforeWindow(g: Stage, b: nat, c: nat)
    requires Valid(g) && b < g.blocks && c <= InputWidth(g)
    ensures var lo, len := LeftSkip(g, b), RowWalk.Width(InShape(g), b);
      InBefore(g, b, c) == if c <= lo then 0 else if c <= lo + len then c - lo else len
  {
    if c > 0 {
      InBeforeWindow(g, b, c - 1);
      InBoundsWindow(g, b, c - 1);
    }
  }

  /** The input vector consumed at an in-bounds column is the centre vector
      there, and the count advances by one; out of bounds nothing is
      consumed and the centre is the boundary. */
  lemma ReadAt(f: Feed, folds: nat, m: nat, c: nat)
    requires Shaped(f, folds) && m < |f.rows| && c < InputWidth(f.geom)
    ensures InBounds(f.geom, BlockAt(f.geom, m), c) ==>
      Consumed(f, m, c) < |Flatten(f.rows)| && Flatten(f.rows)[Consumed(f, m, c)] == Centre(f, m, c)
      && Consumed(f, m, c + 1) == Consumed(f, m, c) + 1
    ensures !InBounds(f.geom, BlockAt(f.geom, m), c) ==>
      Centre(f, m, c) == Boundary(f) && Consumed(f, m, c + 1) == Consumed(f, m, c)
  {
    var g := f.geom;
    var b := BlockAt(g, m);
    assert b < g.blocks;
    InBoundsWindow(g, b, c);
    if InBounds(g, b, c) {
      InBeforeWindow(g, b, c);
      RowWalk.FlattenIndex(f.rows, m, c - LeftSkip(g, b));
    }
  }

  /** A finished row has consumed all of its input vectors: the count at
      its end is the count at the start of the next row. */
  lemma RowConsumed(f: Feed, folds: nat, m: nat)
    requires Shaped(f, folds) && m < |f.rows|
    ensures Consumed(f, m, InputWidth(f.geom)) == Consumed(f, m + 1, 0)
  {
    var g := f.geom;
    var b := BlockAt(g, m);
    assert b < g.blocks;
    InBeforeWindow(g, b, InputWidth(g));
    RowWalk.FlattenNext(f.rows, m);
    if m + 1 == |f.rows| {
      assert f.rows[..m + 1] == f.rows;
    }
  }

  // ---------------------------------------------------------------------
  // The flat order of positions

  /** Moving one position on: the next column, or column 0 of the next row
      after the last column; one row on is input_width positions on. */
  lemma PosNext(g: Stage, n: nat, c: nat)
    requires Valid(g) && c < InputWidth(g)
    ensures Pos(g, n, c) + 1 == if c + 1 < InputWidth(g) then Pos(g, n, c + 1) else Pos(g, n + 1, 0)
    ensures Pos(g, n + 1, c) == Pos(g, n, c) + InputWidth(g)
  {
  }

  /** Flat position Pos(n, c) holds the centre vector of column c of row n. */
  lemma FlatAt(f: Feed, n: nat, c: nat)
    requires WellFormed(f) && c < InputWidth(f.geom)
    ensures Flat(f, Pos(f.geom, n, c)) == Centre(f, n, c)
  {
    DivModUnique(Pos(f.geom, n, c), InputWidth(f.geom), n, c);
  }

  /** A span loses its first vector from the front. */
  lemma SpanPop(f: Feed, start: nat, len: nat)
    requires WellFormed(f) && len > 0
    ensures Span(f, start, len)[0] == Flat(f, start)
    ensures Span(f, start, len)[1..] == Span(f, start + 1, len - 1)
  {
  }

  /** A span grows by the next vector at the back. */
  lemma SpanPush(f: Feed, start: nat, len: nat)
    requires WellFormed(f)
    ensures Span(f, start, len) + [Flat(f, start + len)] == Span(f, start, len + 1)
  {
  }

  /** The source's isDraining, i >= T * B * R * input_width with
      i = Pos(n, c) + input_width - 1, holds exactly on the last row from
      column 1 on: there the vector that would be read belongs to no row. */
  lemma Draining(g: Stage, rows: nat, n: nat, c: nat)
    requires Valid(g) && n < rows && c < InputWidth(g)
    ensures Pos(g, n, c) + InputWidth(g) - 1 >= Pos(g, rows, 0) <==> n == rows - 1 && c >= 1
  {
    var w := InputWidth(g);
    if n + 1 < rows {
      MulLe(n + 2, rows, w);
      assert Pos(g, n, c) + w - 1 < (n + 2) * w;
    } else {
      assert Pos(g, rows, 0) == Pos(g, n, 0) + w;
    }
  }

  // ---------------------------------------------------------------------
  // Properties of what the stage forwards

  /** First column a row of block b forwards. */
  function EmitBegin(g: Stage, b: nat): nat
    requires Valid(g)
  {
    if b == 0 then InnerBegin(g) else OutputBegin(g)
  }

  /** Column after the last one a row of block b forwards. */
  function EmitEnd(g: Stage, b: nat): int
    requires Valid(g)
  {
    if b == g.blocks - 1 then InnerEnd(g) else OutputEnd(g)
  }

  /** A row forwards one contiguous window of columns, as wide as a row of
      the same block in the shape the next stage receives (OutShape): the
      first block drops its left halo and the output margin on the right,
      the last block the reverse, interior blocks the margin on both
      sides. */
  lemma EmitWindow(g: Stage, n: nat, c: nat)
    requires Valid(g)
    ensures var b := BlockAt(g, n);
      0 <= EmitBegin(g, b) <= EmitEnd(g, b) <= InputWidth(g)
      && EmitEnd(g, b) - EmitBegin(g, b) == RowWalk.Width(OutShape(g), b)
      && (Emits(g, n, c) <==> EmitBegin(g, b) <= c < EmitEnd(g, b))
  {
    var b := BlockAt(g, n);
    assert b < g.blocks;
    InnerSpan(g);
    ShrinkRule(g);
    OutputWidth(g);
  }

  /** The number of columns of the window [lo, hi) before column c. */
  function Before(lo: nat, hi: int, c: nat): nat
  {
    if c <= lo then 0 else if c <= hi then c - lo else if hi < lo then 0 else hi - lo
  }

  /** A loop that pushes at the columns of the window [lo, hi) pushes one
      value per window column before c, in column order. */
  lemma {:induction false} PushedWindow<X>(emit: nat -> bool, value: nat -> X, lo: nat, hi: int, c: nat)
    requires forall x: nat :: emit(x) <==> lo <= x < hi
    ensures |Pushed(emit, value, c)| == Before(lo, hi, c)
    ensures forall j | 0 <= j < Before(lo, hi, c) :: Pushed(emit, value, c)[j] == value(lo + j)
  {
    if c > 0 {
      PushedWindow(emit, value, lo, hi, c - 1);
    }
  }

  /** Row n pushes the results at the columns of its window before c, in
      column order. */
  lemma RowOutputWindow(f: Feed, n: nat, c: nat)
    requires WellFormed(f)
    ensures var b := BlockAt(f.geom, n);
      var lo, hi := EmitBegin(f.geom, b), EmitEnd(f.geom, b);
      |RowOutput(f, n, c)| == Before(lo, hi, c)
      && forall j | 0 <= j < Before(lo, hi, c) :: RowOutput(f, n, c)[j] == Update(f, n, lo + j)
  {
    var g := f.geom;
    var b := BlockAt(g, n);
    forall x: nat
      ensures Emits(g, n, x) <==> EmitBegin(g, b) <= x < EmitEnd(g, b)
    {
      EmitWindow(g, n, x);
    }
    PushedWindow((x: nat) => Emits(g, n, x), (x: nat) => Update(f, n, x), EmitBegin(g, b), EmitEnd(g, b), c);
  }

  /** Row m of the output is what the stage pushes for global row m. */
  lemma {:induction false} OutputRow(f: Feed, m: nat, n: nat)
    requires WellFormed(f) && n < m
    ensures Output(f, m)[n] == RowOutput(f, n, InputWidth(f.geom))
  {
    if n < m - 1 {
      OutputRow(f, m - 1, n);
    }
  }

  /** Every pushed row is the window of results of its block, and it is as
      wide as a row of that block in OutShape. */
  lemma RowOutputComplete(f: Feed, n: nat)
    requires WellFormed(f)
    ensures var b := BlockAt(f.geom, n);
      |RowOutput(f, n, InputWidth(f.geom))| == RowWalk.RowWidth(OutShape(f.geom))(n)
      && forall j | 0 <= j < |RowOutput(f, n, InputWidth(f.geom))| ::
           RowOutput(f, n, InputWidth(f.geom))[j] == Update(f, n, EmitBegin(f.geom, b) + j)
  {
    RowOutputWindow(f, n, InputWidth(f.geom));
    EmitWindow(f.geom, n, 0);
  }

  /** The stages chain: what a stage pushes, cut into rows, is shaped as
      the next stage receives its input; after the last stage every row is
      `width` vectors wide, the block without halo. */
  lemma OutputFeedsNext(f: Feed, folds: nat)
    requires Shaped(f, folds)
    ensures f.geom.stage + 1 < f.geom.depth ==>
      Shaped(Feed(Next(f.geom), f.boundary, Output(f, |f.rows|)), folds)
    ensures forall n | 0 <= n < |f.rows| ::
      |Output(f, |f.rows|)[n]| == RowWalk.Width(OutShape(f.geom), BlockAt(f.geom, n))
    ensures f.geom.stage + 1 == f.geom.depth ==>
      forall n | 0 <= n < |f.rows| :: |Output(f, |f.rows|)[n]| == f.geom.width
  {
    var g, out := f.geom, Output(f, |f.rows|);
    forall n | 0 <= n < |f.rows|
      ensures |out[n]| == RowWalk.Width(OutShape(g), BlockAt(g, n))
      ensures forall k | 0 <= k < |out[n]| :: |out[n][k]| == g.lanes
    {
      OutputRow(f, |f.rows|, n);
      RowOutputComplete(f, n);
    }
    ShapesChain(g);
  }

  // ---------------------------------------------------------------------
  // The update lane by lane

  /** Lane q of the lanes of the flat centre stream, the boundary value
      before its start. */
  function LaneAt(f: Feed, q: int): real
    requires WellFormed(f)
  {
    if q < 0 then f.boundary else Flat(f, q / f.geom.lanes)[q % f.geom.lanes]
  }

  /** Lane w of flat position x is lane x * lanes + w of the lane stream;
      the lane before the first of position x is the last of x - 1, the
      lane after the last of x the first of x + 1. */
  lemma LaneOf(f: Feed, x: nat, w: nat)
    requires WellFormed(f) && w < f.geom.lanes
    ensures LaneAt(f, x * f.geom.lanes + w) == Flat(f, x)[w]
    ensures x > 0 && w == 0 ==> LaneAt(f, x * f.geom.lanes - 1) == Flat(f, x - 1)[f.geom.lanes - 1]
    ensures w == f.geom.lanes - 1 ==> LaneAt(f, x * f.geom.lanes + w + 1) == Flat(f, x + 1)[0]
  {
    var k := f.geom.lanes;
    DivModUnique(x * k + w, k, x, w);
    if x > 0 {
      assert x * k - 1 == (x - 1) * k + (k - 1);
      DivModUnique(x * k - 1, k, x - 1, k - 1);
    }
    assert x * k + k == (x + 1) * k + 0;
    DivModUnique(x * k + k, k, x + 1, 0);
  }

  /** Lane w of the west vector at (n, c) is the lane just before lane
      Pos(n, c) * lanes + w of the flat lane stream. */
  lemma WestLanes(f: Feed, n: nat, c: nat, w: nat)
    requires WellFormed(f) && c < InputWidth(f.geom) && w < f.geom.lanes
    ensures West(f, n, c)[w] == LaneAt(f, Pos(f.geom, n, c) * f.geom.lanes + w - 1)
  {
    var g := f.geom;
    var x := Pos(g, n, c);
    if w > 0 {
      FlatAt(f, n, c);
      LaneOf(f, x, w - 1);
    } else if c > 0 {
      FlatAt(f, n, c - 1);
      LaneOf(f, x, 0);
    } else if n > 0 {
      PosNext(g, n - 1, InputWidth(g) - 1);
      FlatAt(f, n - 1, InputWidth(g) - 1);
      LaneOf(f, x, 0);
    }
  }

  /** Lane w of the east vector at (n, c) is the lane just after lane
      Pos(n, c) * lanes + w of the flat lane stream. */
  lemma EastLanes(f: Feed, n: nat, c: nat, w: nat)
    requires WellFormed(f) && c < InputWidth(f.geom) && w < f.geom.lanes
    ensures East(f, n, c)[w] == LaneAt(f, Pos(f.geom, n, c) * f.geom.lanes + w + 1)
  {
    var g := f.geom;
    var x := Pos(g, n, c);
    if w + 1 < g.lanes {
      FlatAt(f, n, c);
      LaneOf(f, x, w + 1);
    } else {
      PosNext(g, n, c);
      if c + 1 < InputWidth(g) {
        FlatAt(f, n, c + 1);
      } else {
        FlatAt(f, n + 1, 0);
      }
      LaneOf(f, x, w);
    }
  }

  /** The update is the four-point Jacobi stencil on lanes: lane w of the
      result at (n, c) is a quarter of the sum of the north and south
      lanes w and the lanes just before and just after it in the flat lane
      stream, lane q = Pos(n, c) * lanes + w; the shift registers and the
      next centre vector only carry those lanes across vector borders. */
  lemma UpdateLanes(f: Feed, n: nat, c: nat, w: nat)
    requires WellFormed(f) && c < InputWidth(f.geom) && w < f.geom.lanes
    ensures var q := Pos(f.geom, n, c) * f.geom.lanes + w;
      Update(f, n, c)[w] == 0.25 * (North(f, n, c)[w] + LaneAt(f, q - 1) + LaneAt(f, q + 1) + South(f, n, c)[w])
  {
    WestLanes(f, n, c, w);
    EastLanes(f, n, c, w);
  }

  // ---------------------------------------------------------------------
  // The whole walk

  /** A stage that runs at least one folded timestep walks at least one
      row; its last row is the last row of the last block, and the row
      after it would be row 0 of block 0. */
  lemma LastRow(f: Feed, folds: nat)
    requires Shaped(f, folds) && folds > 0
    ensures |f.rows| > 0
    ensures BlockAt(f.geom, |f.rows|) == 0 && RowOf(f.geom.rows, |f.rows|) == 0
    ensures BlockAt(f.geom, |f.rows| - 1) == f.geom.blocks - 1
    ensures RowOf(f.geom.rows, |f.rows| - 1) == f.geom.rows - 1
  {
    var g := f.geom;
    var total := |f.rows|;
    RowWalk.MulAssoc(folds, g.blocks, g.rows);
    MulAtLeast(folds, g.blocks * g.rows);
    FoldStart(g.rows, g.blocks, folds);
    NextRow(g.rows, g.blocks, total - 1);
  }

  /** Every position of the walk lies before the first position past its
      last row. */
  lemma PosBelow(g: Stage, rows: nat, n: nat, c: nat)
    requires Valid(g) && n < rows && c < InputWidth(g)
    ensures Pos(g, n, c) < Pos(g, rows, 0)
  {
    MulLe(n + 1, rows, InputWidth(g));
  }

  /** The ComputeSIMD loop, lane by lane. */
  method ComputeSimd(north: Vec, west: Vec, east: Vec, south: Vec) returns (result: Vec)
    requires |west| == |north| && |east| == |north| && |south| == |north|
    ensures result == Combine(north, west, east, south)
  {
    var lanes := new real[|north|];
    for w := 0 to |north|
      invariant forall j | 0 <= j < w :: lanes[j] == 0.25 * (north[j] + west[j] + east[j] + south[j])
    {
      lanes[w] := 0.25 * (north[w] + west[w] + east[w] + south[w]);
    }
    result := lanes[..];
  }
}
