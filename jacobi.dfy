/** One compute stage against the plain Jacobi reference of
    src/Reference.cpp.

    The reference grid has rows x Cols scalars, Cols being blocks * width
    vectors of `lanes` lanes; vector column v of a grid row holds the
    scalars v * lanes .. v * lanes + lanes - 1.  Read and Widen hand a stage
    each row of block b together with the halo it needs: the vector
    columns from b * width - Halo on (from 0 in the first block), as many
    as a row of that block has in InShape (ExtendedRow).  When a stage
    receives these rows of one grid for a block and its boundary value is
    the reference's, every vector it computes at a column of the block
    itself, inner_begin <= c < inner_end, is lane by lane the reference's
    next value of the grid cell there. */
module StageJacobi {
  import opened Schedule
  import RowWalk
  import opened StageGeometry
  import opened StencilStage
  import Reference

  /** Scalar columns of the grid (kCols). */
  function Cols(g: Stage): nat
  {
    g.blocks * g.width * g.lanes
  }

  /** Grid column of lane w of vector column v. */
  function LaneCol(g: Stage, v: nat, w: nat): nat
  {
    v * g.lanes + w
  }

  /** The halo a block needs lies in its neighbouring blocks: it is at most
      one block wide, as the memory layout also demands. */
  predicate FitsGrid(g: Stage)
    requires Valid(g)
  {
    Halo(g) <= g.width
  }

  /** Global row of row r of block b in folded timestep t. */
  function GlobalRow(g: Stage, t: nat, b: nat, r: nat): nat
  {
    (t * g.blocks + b) * g.rows + r
  }

  /** Grid vector column of column c of a row of block b: column
      c - inner_begin of the block, counted from the block's start. */
  function VecColumn(g: Stage, b: nat, c: nat): int
    requires Valid(g)
  {
    b * g.width + c - InnerBegin(g)
  }

  /** Vector column of the grid at which a row of block b starts. */
  function First(g: Stage, b: nat): int
    requires Valid(g)
  {
    if b == 0 then 0 else b * g.width - Halo(g)
  }

  /** Scalar (r, x) of a row-major grid of `cols` columns. */
  function Cell(grid: seq<real>, rows: nat, cols: nat, r: nat, x: nat): real
    requires |grid| == rows * cols && r < rows && x < cols
  {
    Reference.CellIndex(rows, cols, r, x);
    grid[r * cols + x]
  }

  /** The reference's four neighbours of cell (r, x): the grid cell above,
      left, right and below, or the boundary value 1 outside the grid. */
  function NorthCell(grid: seq<real>, rows: nat, cols: nat, r: nat, x: nat): real
    requires |grid| == rows * cols && r < rows && x < cols
  {
    if r == 0 then Reference.Boundary else Cell(grid, rows, cols, r - 1, x)
  }

  function WestCell(grid: seq<real>, rows: nat, cols: nat, r: nat, x: nat): real
    requires |grid| == rows * cols && r < rows && x < cols
  {
    if x == 0 then Reference.Boundary else Cell(grid, rows, cols, r, x - 1)
  }

  function EastCell(grid: seq<real>, rows: nat, cols: nat, r: nat, x: nat): real
    requires |grid| == rows * cols && r < rows && x < cols
  {
    if x == cols - 1 then Reference.Boundary else Cell(grid, rows, cols, r, x + 1)
  }

  function SouthCell(grid: seq<real>, rows: nat, cols: nat, r: nat, x: nat): real
    requires |grid| == rows * cols && r < rows && x < cols
  {
    if r == rows - 1 then Reference.Boundary else Cell(grid, rows, cols, r + 1, x)
  }

  /** The lanes of the grid's vector columns: in range exactly when the
      vector is, the first and the last lane of the grid at its ends, and
      consecutive across a vector border. */
  lemma LaneColumns(g: Stage, v: nat, w: nat)
    requires Valid(g) && v < g.blocks * g.width && w < g.lanes
    ensures LaneCol(g, v, w) < Cols(g)
    ensures LaneCol(g, v, w) == 0 <==> v == 0 && w == 0
    ensures LaneCol(g, v, w) == Cols(g) - 1 <==> v == g.blocks * g.width - 1 && w == g.lanes - 1
    ensures v > 0 ==> LaneCol(g, v - 1, g.lanes - 1) + 1 == LaneCol(g, v, 0)
    ensures LaneCol(g, v, g.lanes - 1) + 1 == LaneCol(g, v + 1, 0)
  {
    var vs, l := g.blocks * g.width, g.lanes;
    assert Cols(g) == vs * l;
    MulLe(v + 1, vs, l);
    assert (v + 1) * l == v * l + l;
    if v > 0 {
      MulLe(1, v, l);
      assert (v - 1) * l + l == v * l;
    }
    if v + 1 < vs {
      MulLe(v + 2, vs, l);
      assert (v + 2) * l == v * l + 2 * l;
    }
  }

  /** Vector column v of grid row r. */
  function GridVec(g: Stage, grid: seq<real>, r: nat, v: nat): (vec: Vec)
    requires Valid(g) && |grid| == g.rows * Cols(g) && r < g.rows && v < g.blocks * g.width
    ensures |vec| == g.lanes
  {
    seq(g.lanes, w requires 0 <= w < g.lanes => GridLane(g, grid, r, v, w))
  }

  function GridLane(g: Stage, grid: seq<real>, r: nat, v: nat, w: nat): real
    requires Valid(g) && |grid| == g.rows * Cols(g) && r < g.rows && v < g.blocks * g.width && w < g.lanes
  {
    LaneColumns(g, v, w);
    Cell(grid, g.rows, Cols(g), r, LaneCol(g, v, w))
  }

  /** Lane w of vector column v of grid row r is the grid cell of that
      lane's column. */
  lemma GridVecLane(g: Stage, grid: seq<real>, r: nat, v: nat, w: nat)
    requires Valid(g) && |grid| == g.rows * Cols(g) && r < g.rows && v < g.blocks * g.width && w < g.lanes
    ensures LaneCol(g, v, w) < Cols(g)
    ensures GridVec(g, grid, r, v)[w] == Cell(grid, g.rows, Cols(g), r, LaneCol(g, v, w))
  {
    LaneColumns(g, v, w);
    assert GridVec(g, grid, r, v)[w] == GridLane(g, grid, r, v, w);
  }

  /** A row of block b, halo included, lies inside the grid row. */
  lemma WindowInGrid(g: Stage, b: nat, k: nat)
    requires Valid(g) && FitsGrid(g) && b < g.blocks && k < RowWalk.Width(InShape(g), b)
    ensures 0 <= First(g, b) + k < g.blocks * g.width
  {
    var w, h := g.width, Halo(g);
    if b == 0 {
      MulLe(2, g.blocks, w);
    } else if b == g.blocks - 1 {
      MulLe(1, b, w);
      assert (b + 1) * w == b * w + w;
    } else {
      MulLe(1, b, w);
      MulLe(b + 2, g.blocks, w);
      assert (b + 2) * w == b * w + 2 * w;
    }
  }

  /** Vector k of the row of block b that grid row r gives a stage. */
  function RowVec(g: Stage, grid: seq<real>, b: nat, r: nat, k: nat): Vec
    requires Valid(g) && FitsGrid(g) && |grid| == g.rows * Cols(g) && b < g.blocks && r < g.rows
    requires k < RowWalk.Width(InShape(g), b)
  {
    WindowInGrid(g, b, k);
    GridVec(g, grid, r, First(g, b) + k)
  }

  /** The row of block b that grid row r gives a stage: the block's own
      vector columns and the halo on each side that lies inside the grid. */
  function ExtendedRow(g: Stage, grid: seq<real>, b: nat, r: nat): (row: seq<Vec>)
    requires Valid(g) && FitsGrid(g) && |grid| == g.rows * Cols(g) && b < g.blocks && r < g.rows
    ensures |row| == RowWalk.Width(InShape(g), b)
  {
    var len := RowWalk.Width(InShape(g), b);
    seq(len, k requires 0 <= k < len => RowVec(g, grid, b, r, k))
  }

  /** The stage receives, for block b of folded timestep t, the extended
      rows of `grid`. */
  predicate FedFrom(f: Feed, grid: seq<real>, t: nat, b: nat)
    requires Valid(f.geom) && FitsGrid(f.geom) && |grid| == f.geom.rows * Cols(f.geom) && b < f.geom.blocks
  {
    forall r | 0 <= r < f.geom.rows ::
      GlobalRow(f.geom, t, b, r) < |f.rows| && f.rows[GlobalRow(f.geom, t, b, r)] == ExtendedRow(f.geom, grid, b, r)
  }

  /** The reference's update of cell (r, x), neighbour by neighbour. */
  lemma JacobiOfCells(grid: seq<real>, rows: nat, cols: nat, r: nat, x: nat)
    requires |grid| == rows * cols && r < rows && x < cols
    ensures Reference.JacobiCell(grid, rows, cols, r, x) == 0.25 * (
      NorthCell(grid, rows, cols, r, x) + WestCell(grid, rows, cols, r, x)
      + EastCell(grid, rows, cols, r, x) + SouthCell(grid, rows, cols, r, x))
  {
    if r > 0 {
      assert (r - 1) * cols + x == r * cols + x - cols;
    }
    if r + 1 < rows {
      assert (r + 1) * cols + x == r * cols + x + cols;
    }
  }

  /** The centre vector at column c of row r of a block fed from the grid:
      the grid vector there when the column is in bounds, the boundary
      vector otherwise. */
  lemma CentreAt(f: Feed, grid: seq<real>, t: nat, b: nat, r: nat, c: nat)
    requires WellFormed(f) && FitsGrid(f.geom) && |grid| == f.geom.rows * Cols(f.geom)
    requires b < f.geom.blocks && r < f.geom.rows && c < InputWidth(f.geom) && FedFrom(f, grid, t, b)
    ensures var g, n := f.geom, GlobalRow(f.geom, t, b, r);
      BlockAt(g, n) == b && RowOf(g.rows, n) == r
      && (InBounds(g, b, c) ==>
            0 <= VecColumn(g, b, c) < g.blocks * g.width
            && Centre(f, n, c) == GridVec(g, grid, r, VecColumn(g, b, c)))
      && (!InBounds(g, b, c) ==> Centre(f, n, c) == Boundary(f))
  {
    var g, n := f.geom, GlobalRow(f.geom, t, b, r);
    Compose(g.rows, g.blocks, t, b, r);
    InBoundsWindow(g, b, c);
    InnerSpan(g);
    if InBounds(g, b, c) {
      var k := c - LeftSkip(g, b);
      assert f.rows[n] == ExtendedRow(g, grid, b, r);
      assert f.rows[n][k] == RowVec(g, grid, b, r, k);
      WindowInGrid(g, b, k);
      assert First(g, b) + k == VecColumn(g, b, c);
    }
  }

  /** The north and south neighbours of an inner column are the grid cells
      above and below, or the reference boundary on the grid's first and
      last row. */
  lemma VerticalAt(f: Feed, grid: seq<real>, t: nat, b: nat, r: nat, c: nat, w: nat)
    requires WellFormed(f) && FitsGrid(f.geom) && f.boundary == Reference.Boundary
    requires |grid| == f.geom.rows * Cols(f.geom) && b < f.geom.blocks && FedFrom(f, grid, t, b)
    requires r < f.geom.rows && InnerBegin(f.geom) <= c < InnerEnd(f.geom) && w < f.geom.lanes
    ensures var g, v := f.geom, VecColumn(f.geom, b, c);
      var n, cols := GlobalRow(g, t, b, r), Cols(g);
      0 <= v < g.blocks * g.width && LaneCol(g, v, w) < cols
      && North(f, n, c)[w] == NorthCell(grid, g.rows, cols, r, LaneCol(g, v, w))
      && South(f, n, c)[w] == SouthCell(grid, g.rows, cols, r, LaneCol(g, v, w))
  {
    var g, n := f.geom, GlobalRow(f.geom, t, b, r);
    InnerSpan(g);
    CentreAt(f, grid, t, b, r, c);
    var v := VecColumn(g, b, c);
    LaneColumns(g, v, w);
    if r > 0 {
      CentreAt(f, grid, t, b, r - 1, c);
      assert GlobalRow(g, t, b, r - 1) + 1 == n;
      GridVecLane(g, grid, r - 1, v, w);
    }
    if r < g.rows - 1 {
      CentreAt(f, grid, t, b, r + 1, c);
      assert GlobalRow(g, t, b, r + 1) == n + 1;
      GridVecLane(g, grid, r + 1, v, w);
    }
  }

  /** The west neighbour of lane w at an inner column is the grid cell to
      its left, or the reference boundary at the grid's first column. */
  lemma WestAt(f: Feed, grid: seq<real>, t: nat, b: nat, r: nat, c: nat, w: nat)
    requires WellFormed(f) && FitsGrid(f.geom) && f.boundary == Reference.Boundary
    requires |grid| == f.geom.rows * Cols(f.geom) && b < f.geom.blocks && FedFrom(f, grid, t, b)
    requires r < f.geom.rows && InnerBegin(f.geom) <= c < InnerEnd(f.geom) && w < f.geom.lanes
    ensures var g, v := f.geom, VecColumn(f.geom, b, c);
      0 <= v < g.blocks * g.width && LaneCol(g, v, w) < Cols(g)
      && West(f, GlobalRow(g, t, b, r), c)[w] == WestCell(grid, g.rows, Cols(g), r, LaneCol(g, v, w))
  {
    var g, n := f.geom, GlobalRow(f.geom, t, b, r);
    var v := VecColumn(g, b, c);
    InnerSpan(g);
    assert 0 <= v < g.blocks * g.width by {
      CentreAt(f, grid, t, b, r, c);
    }
    LaneColumns(g, v, w);
    if w == 0 {
      WestEdge(f, grid, t, b, r, c);
    } else {
      CentreAt(f, grid, t, b, r, c);
      GridVecLane(g, grid, r, v, w - 1);
    }
  }

  /** The west neighbour of lane 0 comes from the previous vector column,
      or is the boundary before the grid's first column. */
  lemma WestEdge(f: Feed, grid: seq<real>, t: nat, b: nat, r: nat, c: nat)
    requires WellFormed(f) && FitsGrid(f.geom) && f.boundary == Reference.Boundary
    requires |grid| == f.geom.rows * Cols(f.geom) && b < f.geom.blocks && FedFrom(f, grid, t, b)
    requires r < f.geom.rows && InnerBegin(f.geom) <= c < InnerEnd(f.geom)
    ensures var g, v := f.geom, VecColumn(f.geom, b, c);
      0 <= v < g.blocks * g.width && LaneCol(g, v, 0) < Cols(g)
      && West(f, GlobalRow(g, t, b, r), c)[0] == WestCell(grid, g.rows, Cols(g), r, LaneCol(g, v, 0))
  {
    var g, n := f.geom, GlobalRow(f.geom, t, b, r);
    var v := VecColumn(g, b, c);
    InnerSpan(g);
    assert 0 <= v < g.blocks * g.width by {
      CentreAt(f, grid, t, b, r, c);
    }
    LaneColumns(g, v, 0);
    assert West(f, n, c)[0] == Centre(f, n, c - 1)[g.lanes - 1];
    CentreAt(f, grid, t, b, r, c - 1);
    if InBounds(g, b, c - 1) {
      assert VecColumn(g, b, c - 1) == v - 1;
      GridVecLane(g, grid, r, v - 1, g.lanes - 1);
    }
  }

  /** The east neighbour of lane w at an inner column is the grid cell to
      its right, or the reference boundary at the grid's last column. */
  lemma EastAt(f: Feed, grid: seq<real>, t: nat, b: nat, r: nat, c: nat, w: nat)
    requires WellFormed(f) && FitsGrid(f.geom) && f.boundary == Reference.Boundary
    requires |grid| == f.geom.rows * Cols(f.geom) && b < f.geom.blocks && FedFrom(f, grid, t, b)
    requires r < f.geom.rows && InnerBegin(f.geom) <= c < InnerEnd(f.geom) && w < f.geom.lanes
    ensures var g, v := f.geom, VecColumn(f.geom, b, c);
      0 <= v < g.blocks * g.width && LaneCol(g, v, w) < Cols(g)
      && East(f, GlobalRow(g, t, b, r), c)[w] == EastCell(grid, g.rows, Cols(g), r, LaneCol(g, v, w))
  {
    var g, n := f.geom, GlobalRow(f.geom, t, b, r);
    InnerSpan(g);
    CentreAt(f, grid, t, b, r, c);
    var v := VecColumn(g, b, c);
    LaneColumns(g, v, w);
    if w == g.lanes - 1 {
      EastEdge(f, grid, t, b, r, c);
    } else {
      GridVecLane(g, grid, r, v, w + 1);
    }
  }

  /** The east neighbour of the last lane comes from the next vector
      column, or is the boundary past the grid's last column. */
  lemma EastEdge(f: Feed, grid: seq<real>, t: nat, b: nat, r: nat, c: nat)
    requires WellFormed(f) && FitsGrid(f.geom) && f.boundary == Reference.Boundary
    requires |grid| == f.geom.rows * Cols(f.geom) && b < f.geom.blocks && FedFrom(f, grid, t, b)
    requires r < f.geom.rows && InnerBegin(f.geom) <= c < InnerEnd(f.geom)
    ensures var g, v, w := f.geom, VecColumn(f.geom, b, c), f.geom.lanes - 1;
      0 <= v < g.blocks * g.width && LaneCol(g, v, w) < Cols(g)
      && East(f, GlobalRow(g, t, b, r), c)[w] == EastCell(grid, g.rows, Cols(g), r, LaneCol(g, v, w))
  {
    var g, n, w := f.geom, GlobalRow(f.geom, t, b, r), f.geom.lanes - 1;
    var v := VecColumn(g, b, c);
    InnerSpan(g);
    assert 0 <= v < g.blocks * g.width by {
      CentreAt(f, grid, t, b, r, c);
    }
    LaneColumns(g, v, w);
    assert East(f, n, c)[w] == Centre(f, n, c + 1)[0];
    CentreAt(f, grid, t, b, r, c + 1);
    if InBounds(g, b, c + 1) {
      assert VecColumn(g, b, c + 1) == v + 1;
      GridVecLane(g, grid, r, v + 1, 0);
    } else {
      LastColumn(g, b, c);
    }
  }

  /** The only column of a block's own span whose right neighbour is out of
      bounds is the grid's last vector column. */
  lemma LastColumn(g: Stage, b: nat, c: nat)
    requires Valid(g) && b < g.blocks && InnerBegin(g) <= c < InnerEnd(g) && !InBounds(g, b, c + 1)
    ensures VecColumn(g, b, c) == g.blocks * g.width - 1
  {
    InnerSpan(g);
    assert b == g.blocks - 1 && c == g.width + Halo(g) - 1;
    assert (g.blocks - 1) * g.width + g.width == g.blocks * g.width;
  }

  /** One stage is one reference timestep: fed the extended rows of a
      grid for block b of fold t, with the reference's boundary value, the
      stage computes at column c of the block itself, lane w, the
      reference's next value of that grid cell. */
  lemma UpdateIsJacobi(f: Feed, grid: seq<real>, t: nat, b: nat, r: nat, c: nat, w: nat)
    requires WellFormed(f) && FitsGrid(f.geom) && f.boundary == Reference.Boundary
    requires |grid| == f.geom.rows * Cols(f.geom) && b < f.geom.blocks && FedFrom(f, grid, t, b)
    requires r < f.geom.rows && InnerBegin(f.geom) <= c < InnerEnd(f.geom) && w < f.geom.lanes
    ensures var g, v := f.geom, VecColumn(f.geom, b, c);
      0 <= v < g.blocks * g.width && LaneCol(g, v, w) < Cols(g)
      && Update(f, GlobalRow(g, t, b, r), c)[w] == Reference.JacobiCell(grid, g.rows, Cols(g), r, LaneCol(g, v, w))
  {
    var g, n := f.geom, GlobalRow(f.geom, t, b, r);
    VerticalAt(f, grid, t, b, r, c, w);
    WestAt(f, grid, t, b, r, c, w);
    EastAt(f, grid, t, b, r, c, w);
    JacobiOfCells(grid, g.rows, Cols(g), r, LaneCol(g, VecColumn(g, b, c), w));
    assert Update(f, n, c)[w] == 0.25 * (North(f, n, c)[w] + West(f, n, c)[w] + East(f, n, c)[w] + South(f, n, c)[w]);
  }

  /** What the stage pushes for row r of block b holds, at position
      inner_begin - EmitBegin + j, the update of the block's own vector
      column j: lane by lane the reference's next value of grid column
      (b * width + j) * lanes + w. */
  lemma OutputIsJacobi(f: Feed, grid: seq<real>, t: nat, b: nat, r: nat, j: nat, w: nat)
    requires WellFormed(f) && FitsGrid(f.geom) && f.boundary == Reference.Boundary
    requires |grid| == f.geom.rows * Cols(f.geom) && b < f.geom.blocks && FedFrom(f, grid, t, b)
    requires r < f.geom.rows && j < f.geom.width && w < f.geom.lanes
    ensures var g, n, c := f.geom, GlobalRow(f.geom, t, b, r), InnerBegin(f.geom) + j;
      var k, v := c - EmitBegin(g, b), VecColumn(g, b, c);
      v == b * g.width + j && 0 <= v < g.blocks * g.width && LaneCol(g, v, w) < Cols(g)
      && n < |f.rows| && 0 <= k < |Output(f, |f.rows|)[n]| && |Output(f, |f.rows|)[n][k]| == g.lanes
      && Output(f, |f.rows|)[n][k][w] == Reference.JacobiCell(grid, g.rows, Cols(g), r, LaneCol(g, v, w))
  {
    var g, n := f.geom, GlobalRow(f.geom, t, b, r);
    var c := InnerBegin(g) + j;
    InnerPushed(f, grid, t, b, r, j);
    UpdateIsJacobi(f, grid, t, b, r, c, w);
  }

  /** The vector pushed for column inner_begin + j of row r of block b is
      the update there, and that column is the block's vector column j. */
  lemma InnerPushed(f: Feed, grid: seq<real>, t: nat, b: nat, r: nat, j: nat)
    requires WellFormed(f) && FitsGrid(f.geom) && |grid| == f.geom.rows * Cols(f.geom)
    requires b < f.geom.blocks && FedFrom(f, grid, t, b) && r < f.geom.rows && j < f.geom.width
    ensures var g, n, c := f.geom, GlobalRow(f.geom, t, b, r), InnerBegin(f.geom) + j;
      var k := c - EmitBegin(g, b);
      InnerBegin(g) <= c < InnerEnd(g) && VecColumn(g, b, c) == b * g.width + j
      && n < |f.rows| && 0 <= k < |Output(f, |f.rows|)[n]| && Output(f, |f.rows|)[n][k] == Update(f, n, c)
  {
    var g, n := f.geom, GlobalRow(f.geom, t, b, r);
    var c := InnerBegin(g) + j;
    assert n < |f.rows| && BlockAt(g, n) == b by {
      Compose(g.rows, g.blocks, t, b, r);
    }
    InnerSpan(g);
    OutputWidth(g);
    PushedAt(f, n, c);
  }

  /** The vector pushed for column c of row n, when c lies in the row's
      emission window, is the update there. */
  lemma PushedAt(f: Feed, n: nat, c: nat)
    requires WellFormed(f) && n < |f.rows|
    requires EmitBegin(f.geom, BlockAt(f.geom, n)) <= c < EmitEnd(f.geom, BlockAt(f.geom, n))
    ensures var k := c - EmitBegin(f.geom, BlockAt(f.geom, n));
      k < |Output(f, |f.rows|)[n]| && Output(f, |f.rows|)[n][k] == Update(f, n, c)
  {
    var g, b := f.geom, BlockAt(f.geom, n);
    var k := c - EmitBegin(g, b);
    PushedRow(f, n);
    assert EmitBegin(g, b) + k == c;
    RowOutputAt(f, n, k);
  }

  /** Position j of a pushed row is the result at column EmitBegin + j. */
  lemma RowOutputAt(f: Feed, n: nat, j: nat)
    requires WellFormed(f) && j < |RowOutput(f, n, InputWidth(f.geom))|
    ensures RowOutput(f, n, InputWidth(f.geom))[j] == Update(f, n, EmitBegin(f.geom, BlockAt(f.geom, n)) + j)
  {
    RowOutputComplete(f, n);
  }

  /** Row n of what the stage pushes is that row's window of results, as
      wide as the row's emission window. */
  lemma PushedRow(f: Feed, n: nat)
    requires WellFormed(f) && n < |f.rows|
    ensures var g, b := f.geom, BlockAt(f.geom, n);
      Output(f, |f.rows|)[n] == RowOutput(f, n, InputWidth(g))
      && |RowOutput(f, n, InputWidth(g))| == EmitEnd(g, b) - EmitBegin(g, b)
  {
    var g, b := f.geom, BlockAt(f.geom, n);
    OutputRow(f, |f.rows|, n);
    EmitWindow(g, n, 0);
    RowOutputComplete(f, n);
    assert RowWalk.RowWidth(OutShape(g))(n) == RowWalk.Width(OutShape(g), b);
  }

  /** The rows a stage receives when every fold reads the same grid. */
  function GridRows(g: Stage, grid: seq<real>, folds: nat): (rows: seq<seq<Vec>>)
    requires Valid(g) && FitsGrid(g) && |grid| == g.rows * Cols(g)
    ensures |rows| == RowWalk.TotalRows(InShape(g), folds)
  {
    var total := RowWalk.TotalRows(InShape(g), folds);
    seq(total, n requires 0 <= n < total => ExtendedRow(g, grid, BlockAt(g, n), RowOf(g.rows, n)))
  }

  /** Such rows are what a stage running `folds` folded timesteps takes. */
  lemma GridRowsShaped(g: Stage, grid: seq<real>, folds: nat)
    requires Valid(g) && FitsGrid(g) && |grid| == g.rows * Cols(g)
    ensures Shaped(Feed(g, Reference.Boundary, GridRows(g, grid, folds)), folds)
  {
    var rows := GridRows(g, grid, folds);
    forall n, k | 0 <= n < |rows| && 0 <= k < |rows[n]|
      ensures |rows[n][k]| == g.lanes
    {
      assert rows[n][k] == RowVec(g, grid, BlockAt(g, n), RowOf(g.rows, n), k);
    }
  }

  /** They feed every block of every fold from the grid, so the
      hypotheses of UpdateIsJacobi can all be met. */
  lemma GridRowsFeed(g: Stage, grid: seq<real>, folds: nat, t: nat, b: nat)
    requires Valid(g) && FitsGrid(g) && |grid| == g.rows * Cols(g) && t < folds && b < g.blocks
    ensures FedFrom(Feed(g, Reference.Boundary, GridRows(g, grid, folds)), grid, t, b)
  {
    var f := Feed(g, Reference.Boundary, GridRows(g, grid, folds));
    forall r | 0 <= r < g.rows
      ensures GlobalRow(g, t, b, r) < |f.rows| && f.rows[GlobalRow(g, t, b, r)] == ExtendedRow(g, grid, b, r)
    {
      GlobalRowBound(g, folds, t, b, r);
      Compose(g.rows, g.blocks, t, b, r);
    }
  }

  /** Row r of block b in fold t comes before the rows of `folds` folds. */
  lemma GlobalRowBound(g: Stage, folds: nat, t: nat, b: nat, r: nat)
    requires Valid(g) && t < folds && b < g.blocks && r < g.rows
    ensures GlobalRow(g, t, b, r) < RowWalk.TotalRows(InShape(g), folds)
  {
    var q, total := t * g.blocks + b, folds * g.blocks;
    assert q + 1 <= total by {
      MulLe(t + 1, folds, g.blocks);
      assert (t + 1) * g.blocks == t * g.blocks + g.blocks;
    }
    assert (q + 1) * g.rows <= total * g.rows by {
      MulLe(q + 1, total, g.rows);
    }
    assert (q + 1) * g.rows == q * g.rows + g.rows;
    assert total * g.rows == folds * (g.blocks * g.rows);
  }
}
