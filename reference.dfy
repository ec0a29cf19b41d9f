/** The plain Jacobi reference of src/Reference.cpp, over `real`.

    The grid is stored row-major: cell (r, c) of a rows x cols grid is
    element r * cols + c.  One timestep replaces every cell by a quarter
    of the sum of its four neighbours in the previous grid, a neighbour
    outside the grid counting as the boundary value 1. */
module Reference {
  import opened Schedule

  /** The value every neighbour outside the grid takes. */
  const Boundary: real := 1.0

  /** Cell (r, c) lies inside the row-major storage. */
  lemma CellIndex(rows: nat, cols: nat, r: nat, c: nat)
    requires r < rows && c < cols
    ensures r * cols + c < rows * cols
  {
    MulLe(r + 1, rows, cols);
  }

  /** The storage positions of the neighbours of cell (r, c) that lie
      inside the grid: one row up is `cols` positions back, one row down
      `cols` positions on. */
  lemma NeighbourIndices(rows: nat, cols: nat, r: nat, c: nat)
    requires r < rows && c < cols
    ensures r * cols + c < rows * cols
    ensures r > 0 ==> r * cols + c >= cols
    ensures r + 1 < rows ==> r * cols + c + cols < rows * cols
  {
    CellIndex(rows, cols, r, c);
    if r > 0 {
      MulLe(1, r, cols);
    }
    if r + 1 < rows {
      CellIndex(rows, cols, r + 1, c);
      assert (r + 1) * cols == r * cols + cols;
    }
  }

  /** The new value of cell (r, c) after one timestep: a quarter of the sum
      of its north, west, east and south neighbours, each of which is the
      boundary value when it lies outside the grid (row -1, column -1,
      column cols or row rows). */
  function JacobiCell(grid: seq<real>, rows: nat, cols: nat, r: nat, c: nat): real
    requires |grid| == rows * cols && r < rows && c < cols
  {
    NeighbourIndices(rows, cols, r, c);
    var k := r * cols + c;
    var north := if r == 0 then Boundary else grid[k - cols];
    var west := if c == 0 then Boundary else grid[k - 1];
    var east := if c == cols - 1 then Boundary else grid[k + 1];
    var south := if r == rows - 1 then Boundary else grid[k + cols];
    0.25 * (north + west + east + south)
  }

  /** Cell (k / cols, k % cols) is the one stored at position k. */
  lemma CellOfIndex(rows: nat, cols: nat, k: nat)
    requires k < rows * cols
    ensures cols > 0 && k / cols < rows && k % cols < cols
    ensures (k / cols) * cols + k % cols == k
  {
    DivBounds(k, cols);
    if k / cols >= rows {
      MulLe(rows, k / cols, cols);
    }
  }

  /** The new value of the cell stored at position k. */
  function CellAt(grid: seq<real>, rows: nat, cols: nat, k: nat): real
    requires |grid| == rows * cols && k < rows * cols
  {
    CellOfIndex(rows, cols, k);
    JacobiCell(grid, rows, cols, k / cols, k % cols)
  }

  /** The new value of the cell stored at position k = r * cols + c, with
      its neighbours addressed relative to k. */
  lemma CellAtFlat(grid: seq<real>, rows: nat, cols: nat, r: nat, c: nat, k: nat)
    requires |grid| == rows * cols && r < rows && c < cols && k == r * cols + c
    ensures k < rows * cols && k - c + cols <= rows * cols
    ensures r > 0 ==> k >= cols
    ensures r + 1 < rows ==> k + cols < rows * cols
    ensures CellAt(grid, rows, cols, k) == 0.25 * (
      (if r == 0 then Boundary else grid[k - cols]) + (if c == 0 then Boundary else grid[k - 1])
      + (if c == cols - 1 then Boundary else grid[k + 1]) + (if r == rows - 1 then Boundary else grid[k + cols]))
  {
    NeighbourIndices(rows, cols, r, c);
    CellIndex(rows, cols, r, cols - 1);
    DivModUnique(k, cols, r, c);
  }

  /** One timestep: every cell rewritten from the previous grid only. */
  function Step(grid: seq<real>, rows: nat, cols: nat): (next: seq<real>)
    requires |grid| == rows * cols
    ensures |next| == |grid|
  {
    seq(rows * cols, k requires 0 <= k < rows * cols => CellAt(grid, rows, cols, k))
  }

  /** After one timestep, cell (r, c) holds its Jacobi value. */
  lemma StepCell(grid: seq<real>, rows: nat, cols: nat, r: nat, c: nat)
    requires |grid| == rows * cols && r < rows && c < cols
    ensures r * cols + c < rows * cols
    ensures Step(grid, rows, cols)[r * cols + c] == JacobiCell(grid, rows, cols, r, c)
  {
    CellIndex(rows, cols, r, c);
    DivModUnique(r * cols + c, cols, r, c);
  }

  /** `steps` timesteps applied one after the other. */
  function Steps(grid: seq<real>, rows: nat, cols: nat, steps: nat): (result: seq<real>)
    requires |grid| == rows * cols
    ensures |result| == |grid|
  {
    if steps == 0 then grid else Step(Steps(grid, rows, cols, steps - 1), rows, cols)
  }

  /** The reference computation: `domain` and `buffer` both start as copies
      of the input; each timestep rewrites `buffer` from `domain`, then
      the two grids swap. */
  method Jacobi(input: seq<real>, rows: nat, cols: nat, steps: nat) returns (result: seq<real>)
    requires |input| == rows * cols
    ensures result == Steps(input, rows, cols, steps)
  {
    var n := rows * cols;
    var domain := new real[n](k requires 0 <= k < n => input[k]);
    var buffer := new real[n](k requires 0 <= k < n => input[k]);
    var t := 0;
    while t < steps
      invariant 0 <= t <= steps
      invariant fresh(domain) && fresh(buffer) && domain != buffer
      invariant domain.Length == n && buffer.Length == n
      invariant domain[..] == Steps(input, rows, cols, t)
    {
      Sweep(domain, buffer, rows, cols);
      domain, buffer := buffer, domain;
      t := t + 1;
    }
    result := domain[..];
  }

  /** One timestep of the reference: every cell of `buffer` is computed
      from `domain`, which is only read, so the step is never done in
      place. */
  method Sweep(domain: array<real>, buffer: array<real>, rows: nat, cols: nat)
    requires domain != buffer && domain.Length == rows * cols && buffer.Length == rows * cols
    modifies buffer
    ensures buffer[..] == Step(domain[..], rows, cols)
  {
    var n := rows * cols;
    var r, base := 0, 0;
    while r < rows
      invariant 0 <= r <= rows
      invariant base == r * cols && base <= n
      invariant forall k | 0 <= k < base :: buffer[k] == CellAt(domain[..], rows, cols, k)
    {
      SweepRow(domain, buffer, rows, cols, r, base);
      r, base := r + 1, base + cols;
    }
  }

  /** Row r of one timestep: the cells base .. base + cols - 1 of `buffer`,
      where base = r * cols; the cells before them keep their values. */
  method SweepRow(domain: array<real>, buffer: array<real>, rows: nat, cols: nat, r: nat, base: nat)
    requires domain != buffer && domain.Length == rows * cols && buffer.Length == rows * cols
    requires r < rows && base == r * cols
    modifies buffer
    ensures base + cols <= rows * cols
    ensures forall k | 0 <= k < base :: buffer[k] == old(buffer[k])
    ensures forall k | base <= k < base + cols :: buffer[k] == CellAt(domain[..], rows, cols, k)
  {
    if cols > 0 {
      CellAtFlat(domain[..], rows, cols, r, cols - 1, base + cols - 1);
    }
    var c := 0;
    while c < cols
      invariant 0 <= c <= cols
      invariant forall k | 0 <= k < base :: buffer[k] == old(buffer[k])
      invariant forall k | base <= k < base + c :: buffer[k] == CellAt(domain[..], rows, cols, k)
    {
      var k := base + c;
      CellAtFlat(domain[..], rows, cols, r, c, k);
      var west := if c == 0 then Boundary else domain[k - 1];
      var east := if c == cols - 1 then Boundary else domain[k + 1];
      var north := if r == 0 then Boundary else domain[k - cols];
      var south := if r == rows - 1 then Boundary else domain[k + cols];
      buffer[k] := 0.25 * (north + west + east + south);
      c := c + 1;
    }
  }

  /** Zero timesteps return the input unchanged. */
  lemma NoSteps(grid: seq<real>, rows: nat, cols: nat)
    requires |grid| == rows * cols
    ensures Steps(grid, rows, cols, 0) == grid
  {
  }

  /** Running a + b timesteps is running a, then b more. */
  lemma {:induction false} StepsCompose(grid: seq<real>, rows: nat, cols: nat, a: nat, b: nat)
    requires |grid| == rows * cols
    ensures Steps(grid, rows, cols, a + b) == Steps(Steps(grid, rows, cols, a), rows, cols, b)
  {
    if b > 0 {
      StepsCompose(grid, rows, cols, a, b - 1);
    }
  }

  /** The number of the four neighbours of (r, c) that lie outside the
      grid. */
  function OutsideNeighbours(rows: nat, cols: nat, r: nat, c: nat): (k: nat)
    ensures k <= 4
  {
    (if r == 0 then 1 else 0) + (if c == 0 then 1 else 0)
    + (if c + 1 == cols then 1 else 0) + (if r + 1 == rows then 1 else 0)
  }

  /** From an all-zero grid one timestep gives each cell a quarter of the
      number of its neighbours that lie outside the grid. */
  lemma ZeroGridOneStep(rows: nat, cols: nat)
    ensures forall r, c | 0 <= r < rows && 0 <= c < cols ::
      r * cols + c < rows * cols &&
      Steps(seq(rows * cols, _ => 0.0), rows, cols, 1)[r * cols + c] == 0.25 * (OutsideNeighbours(rows, cols, r, c) as real)
  {
    var zero := seq(rows * cols, _ => 0.0);
    assert Steps(zero, rows, cols, 1) == Step(zero, rows, cols);
    forall r, c | 0 <= r < rows && 0 <= c < cols
      ensures r * cols + c < rows * cols &&
        Steps(zero, rows, cols, 1)[r * cols + c] == 0.25 * (OutsideNeighbours(rows, cols, r, c) as real)
    {
      StepCell(zero, rows, cols, r, c);
      ZeroCell(rows, cols, r, c);
    }
  }

  lemma ZeroCell(rows: nat, cols: nat, r: nat, c: nat)
    requires r < rows && c < cols
    ensures JacobiCell(seq(rows * cols, _ => 0.0), rows, cols, r, c) == 0.25 * (OutsideNeighbours(rows, cols, r, c) as real)
  {
    NeighbourIndices(rows, cols, r, c);
  }

  /** A grid that holds the boundary value everywhere is left unchanged by
      any number of timesteps. */
  lemma {:induction false} BoundaryGridIsSteady(rows: nat, cols: nat, steps: nat)
    ensures Steps(seq(rows * cols, _ => Boundary), rows, cols, steps) == seq(rows * cols, _ => Boundary)
  {
    var ones := seq(rows * cols, _ => Boundary);
    if steps > 0 {
      BoundaryGridIsSteady(rows, cols, steps - 1);
      var next := Step(ones, rows, cols);
      forall k | 0 <= k < rows * cols
        ensures next[k] == Boundary
      {
        CellOfIndex(rows, cols, k);
        BoundaryCell(rows, cols, k / cols, k % cols);
      }
      assert next == ones;
    }
  }

  lemma BoundaryCell(rows: nat, cols: nat, r: nat, c: nat)
    requires r < rows && c < cols
    ensures JacobiCell(seq(rows * cols, _ => Boundary), rows, cols, r, c) == Boundary
  {
    NeighbourIndices(rows, cols, r, c);
  }
}
