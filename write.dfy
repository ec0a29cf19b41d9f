/** The write side of the memory stages: MuxWrite and WriteSplit of
    kernel/Memory.cpp, Write of src/Memory.cpp, and Mux and Write of
    src/Stencil.cpp.

    The last compute stage produces, for every block of every folded
    timestep, `rows` rows of exactly `width` words: the block's own
    columns, without halo.  Mux splits them by row parity over the two
    memory banks; Write stores each row into the half of memory the fold
    does not read, at the row's place in the grid. */
module MemoryWrite {
  import opened Schedule
  import opened RowWalk
  import MemoryStages

  // ----------------------------------------------------------------- Mux

  /** Row n of a fold-major sequence of blocks of `rows` rows has the
      parity of its row index r inside the block when `rows` is even. */
  lemma EvenBlockStart(k: nat, rows: nat)
    requires rows % 2 == 0
    ensures (k * rows) % 2 == 0
  {
    DivModUnique(k * rows, 2, k * (rows / 2), 0);
  }

  lemma EvenSum(x: nat, y: nat)
    requires x % 2 == 0 && y % 2 == 0
    ensures (x + y) % 2 == 0
  {
    DivModUnique(x + y, 2, x / 2 + y / 2, 0);
  }

  /** One more row goes to the bank of its parity. */
  lemma BanksNext<X>(rows: seq<X>, n: nat)
    requires n < |rows|
    ensures n % 2 == 0 ==> Evens(rows[..n + 1]) == Evens(rows[..n]) + [rows[n]] && Odds(rows[..n + 1]) == Odds(rows[..n])
    ensures n % 2 == 1 ==> Odds(rows[..n + 1]) == Odds(rows[..n]) + [rows[n]] && Evens(rows[..n + 1]) == Evens(rows[..n])
  {
    var e, e' := Evens(rows[..n]), Evens(rows[..n + 1]);
    var o, o' := Odds(rows[..n]), Odds(rows[..n + 1]);
    if n % 2 == 0 {
      assert e' == e + [rows[n]];
      assert o' == o;
    } else {
      assert o' == o + [rows[n]];
      assert e' == e;
    }
  }

  /** What Mux pushes to the two banks for a sequence of rows, row by
      row: each row goes to the bank of its parity. */
  function Muxed<T>(grid: seq<seq<T>>): (banks: (seq<T>, seq<T>))
  {
    if grid == [] then ([], [])
    else
      var n := |grid| - 1;
      var (bank0, bank1) := Muxed(grid[..n]);
      if n % 2 == 0 then (bank0 + grid[n], bank1) else (bank0, bank1 + grid[n])
  }

  lemma MuxedNext<T>(grid: seq<seq<T>>, n: nat)
    requires n < |grid|
    ensures Muxed(grid[..n + 1]) ==
      if n % 2 == 0 then (Muxed(grid[..n]).0 + grid[n], Muxed(grid[..n]).1)
      else (Muxed(grid[..n]).0, Muxed(grid[..n]).1 + grid[n])
  {
    assert grid[..n + 1][..n] == grid[..n];
  }

  /** Bank 0 receives exactly the even rows and bank 1 exactly the odd
      rows, each in their order. */
  lemma {:induction false} MuxedSplitsParity<T>(grid: seq<seq<T>>)
    ensures Muxed(grid) == (Flatten(Evens(grid)), Flatten(Odds(grid)))
    decreases |grid|
  {
    if grid != [] {
      var n := |grid| - 1;
      MuxedSplitsParity(grid[..n]);
      BanksNext(grid, n);
      FlattenSnoc(Evens(grid[..n]), grid[n]);
      FlattenSnoc(Odds(grid[..n]), grid[n]);
      assert grid[..n + 1] == grid;
    }
  }

  /** MuxWrite (kernel/Memory.cpp) and Mux (src/Stencil.cpp): pops the
      `width` words of every row of every block of every folded timestep
      and pushes them to bank 0 when the row index r is even and to bank 1
      when it is odd.  With an even row count the banks receive exactly
      the even and the odd rows of the output, which is what Demux takes
      apart again. */
  method Mux<T>(width: nat, folds: nat, blocks: nat, rows: nat, input: seq<T>, ghost grid: seq<seq<T>>)
    returns (bank0: seq<T>, bank1: seq<T>)
    requires rows % 2 == 0
    requires |grid| == folds * blocks * rows && forall n | 0 <= n < |grid| :: |grid[n]| == width
    requires input == Flatten(grid)
    ensures bank0 == Flatten(Evens(grid)) && bank1 == Flatten(Odds(grid))
  {
    bank0, bank1 := [], [];
    var popped: nat := 0;
    var per: nat := blocks * rows;
    MulAssoc(folds, blocks, rows);
    EvenBlockStart(blocks, rows);
    ghost var n: nat := 0;
    var t: nat := 0;
    while t < folds
      invariant t <= folds && n == t * per && n <= |grid| && n % 2 == 0
      invariant (bank0, bank1) == Muxed(grid[..n])
      invariant popped == |Flatten(grid[..n])|
    {
      MulLe(t + 1, folds, per);
      EvenSum(n, per);
      bank0, bank1, popped := MuxFold(width, blocks, rows, input, bank0, bank1, popped, grid, n);
      n := n + per;
      t := t + 1;
    }
    assert grid[..n] == grid;
    MuxedSplitsParity(grid);
  }

  /** The blocks loop of Mux for the fold whose first row is n0. */
  method MuxFold<T>(width: nat, blocks: nat, rows: nat, input: seq<T>, bank0In: seq<T>, bank1In: seq<T>, popped0: nat,
                    ghost grid: seq<seq<T>>, ghost n0: nat)
    returns (bank0: seq<T>, bank1: seq<T>, popped: nat)
    requires rows % 2 == 0 && n0 % 2 == 0 && n0 + blocks * rows <= |grid|
    requires forall k | 0 <= k < |grid| :: |grid[k]| == width
    requires input == Flatten(grid) && popped0 == |Flatten(grid[..n0])|
    requires (bank0In, bank1In) == Muxed(grid[..n0])
    ensures (bank0, bank1) == Muxed(grid[..n0 + blocks * rows])
    ensures popped == |Flatten(grid[..n0 + blocks * rows])|
  {
    bank0, bank1, popped := bank0In, bank1In, popped0;
    ghost var n: nat := n0;
    var b: nat := 0;
    while b < blocks
      invariant b <= blocks && n == n0 + b * rows && n <= |grid| && n % 2 == 0
      invariant (bank0, bank1) == Muxed(grid[..n])
      invariant popped == |Flatten(grid[..n])|
    {
      MulLe(b + 1, blocks, rows);
      EvenSum(n, rows);
      bank0, bank1, popped := MuxBlock(width, rows, input, bank0, bank1, popped, grid, n);
      n := n + rows;
      b := b + 1;
    }
  }

  /** Block b of fold t ends inside the folds * blocks * rows rows. */
  lemma BlockRows(folds: nat, blocks: nat, rows: nat, t: nat, b: nat)
    requires t < folds && b < blocks
    ensures (t * blocks + b) * rows + rows <= folds * blocks * rows
  {
    MulLe(t + 1, folds, blocks);
    MulLe(t * blocks + b + 1, folds * blocks, rows);
  }

  /** The rows loop of Mux for the block whose first row is n. */
  method MuxBlock<T>(width: nat, rows: nat, input: seq<T>, bank0In: seq<T>, bank1In: seq<T>, popped0: nat,
                     ghost grid: seq<seq<T>>, ghost n: nat)
    returns (bank0: seq<T>, bank1: seq<T>, popped: nat)
    requires n % 2 == 0 && n + rows <= |grid|
    requires forall k | 0 <= k < |grid| :: |grid[k]| == width
    requires input == Flatten(grid) && popped0 == |Flatten(grid[..n])|
    requires (bank0In, bank1In) == Muxed(grid[..n])
    ensures (bank0, bank1) == Muxed(grid[..n + rows])
    ensures popped == |Flatten(grid[..n + rows])|
  {
    bank0, bank1, popped := bank0In, bank1In, popped0;
    var r: nat := 0;
    while r < rows
      invariant 0 <= r <= rows
      invariant (bank0, bank1) == Muxed(grid[..n + r])
      invariant popped == |Flatten(grid[..n + r])|
    {
      ParityShift(n, r);
      bank0, bank1, popped := MuxNextRow(width, r, input, bank0, bank1, popped, grid, n + r);
      r := r + 1;
    }
  }

  /** Row n through Mux: the banks and the count of popped words after it. */
  method MuxNextRow<T>(width: nat, r: nat, input: seq<T>, bank0In: seq<T>, bank1In: seq<T>, popped0: nat,
                       ghost grid: seq<seq<T>>, ghost n: nat)
    returns (bank0: seq<T>, bank1: seq<T>, popped: nat)
    requires n < |grid| && |grid[n]| == width && n % 2 == r % 2
    requires input == Flatten(grid) && popped0 == |Flatten(grid[..n])|
    requires (bank0In, bank1In) == Muxed(grid[..n])
    ensures (bank0, bank1) == Muxed(grid[..n + 1]) && popped == |Flatten(grid[..n + 1])|
  {
    bank0, bank1, popped := MuxRow(width, r, input, bank0In, bank1In, popped0, grid, n);
    MuxedNext(grid, n);
  }

  lemma ParityShift(n: nat, r: nat)
    requires n % 2 == 0
    ensures (n + r) % 2 == r % 2
  {
  }

  /** The column loop of Mux for row r of a block, global row n. */
  method MuxRow<T>(width: nat, r: nat, input: seq<T>, bank0In: seq<T>, bank1In: seq<T>, popped0: nat,
                   ghost grid: seq<seq<T>>, ghost n: nat)
    returns (bank0: seq<T>, bank1: seq<T>, popped: nat)
    requires n < |grid| && |grid[n]| == width && n % 2 == r % 2
    requires input == Flatten(grid) && popped0 == |Flatten(grid[..n])|
    ensures n % 2 == 0 ==> bank0 == bank0In + grid[n] && bank1 == bank1In
    ensures n % 2 == 1 ==> bank1 == bank1In + grid[n] && bank0 == bank0In
    ensures popped == |Flatten(grid[..n + 1])|
  {
    bank0, bank1, popped := bank0In, bank1In, popped0;
    var c: nat := 0;
    while c < width
      invariant 0 <= c <= width && popped == popped0 + c
      invariant r % 2 == 0 ==> bank0 == bank0In + grid[n][..c] && bank1 == bank1In
      invariant r % 2 == 1 ==> bank1 == bank1In + grid[n][..c] && bank0 == bank0In
    {
      FlattenIndex(grid, n, c);
      var read := input[popped];
      assert grid[n][..c + 1] == grid[n][..c] + [read];
      if r % 2 == 0 {
        bank0 := bank0 + [read];
      } else {
        bank1 := bank1 + [read];
      }
      popped := popped + 1;
      c := c + 1;
    }
    assert grid[n][..c] == grid[n];
    FlattenNext(grid, n);
  }

  /** Mux followed by Demux gives back the rows Mux popped: the bank
      split by row parity loses nothing and reorders nothing when every
      row is `width` words wide (both row-end tests of Demux agree then). */
  method MuxThenDemux<T>(width: nat, folds: nat, blocks: nat, rows: nat, test: MemoryStages.RowEndTest,
                         input: seq<T>, ghost grid: seq<seq<T>>)
    returns (out: seq<T>)
    requires blocks >= 2 && rows > 0 && rows % 2 == 0 && width > 0
    requires |grid| == folds * blocks * rows && forall n | 0 <= n < |grid| :: |grid[n]| == width
    requires input == Flatten(grid)
    ensures out == input
  {
    var bank0, bank1 := Mux(width, folds, blocks, rows, input, grid);
    var s := Shape(blocks, rows, width, width);
    assert folds * blocks * rows == TotalRows(s, folds) by {
      MulAssoc(folds, blocks, rows);
    }
    out := MemoryStages.Demux(s, test, folds, bank0, bank1, grid);
  }

  // --------------------------------------------------------------- Write

  /** The row n of a fold-major sequence of blocks of `rows` rows is row
      RowOf(n) of block BlockOf(n) of fold FoldOf(n). */
  lemma Recompose(rows: nat, blocks: nat, n: nat)
    requires rows > 0 && blocks > 0
    ensures RowOf(rows, n) < rows && BlockOf(rows, blocks, n) < blocks
    ensures n == (FoldOf(rows, blocks, n) * blocks + BlockOf(rows, blocks, n)) * rows + RowOf(rows, n)
  {
  }

  lemma DivBetween(n: nat, d: nat, lo: nat, hi: nat)
    requires d > 0 && lo * d <= n < hi * d
    ensures lo <= n / d < hi
  {
    var q := n / d;
    if q < lo {
      MulLe(q + 1, lo, d);
    } else if q >= hi {
      MulLe(hi, q, d);
    }
  }

  /** The rows t * blocks * rows .. (t + 1) * blocks * rows - 1 are those
      of fold t. */
  lemma FoldOfRange(rows: nat, blocks: nat, t: nat, n: nat)
    requires rows > 0 && blocks > 0
    requires t * blocks * rows <= n < (t + 1) * blocks * rows
    ensures FoldOf(rows, blocks, n) == t
  {
    DivBetween(n, rows, t * blocks, (t + 1) * blocks);
    DivBetween(n / rows, blocks, t, t + 1);
  }

  lemma DivMod(x: nat, d: nat)
    requires d > 0
    ensures x == (x / d) * d + x % d
  {
  }

  /** Offset of column c of block b of grid row r inside a half. */
  function GridOffset(lay: MemoryStages.Layout, r: nat, b: nat, c: nat): nat
  {
    r * MemoryStages.Stride(lay) + b * lay.width + c
  }

  /** A cell of the grid lies inside its half, and its offset gives back
      its block index r * blocks + b and its column c. */
  lemma GridOffsetSplit(lay: MemoryStages.Layout, r: nat, b: nat, c: nat)
    requires MemoryStages.Valid(lay) && r < lay.rows && b < lay.blocks && c < lay.width
    ensures GridOffset(lay, r, b, c) < lay.half
    ensures GridOffset(lay, r, b, c) / lay.width == r * lay.blocks + b
    ensures GridOffset(lay, r, b, c) % lay.width == c
    ensures (r * lay.blocks + b) / lay.blocks == r && (r * lay.blocks + b) % lay.blocks == b
  {
    var x, k := GridOffset(lay, r, b, c), r * lay.blocks + b;
    GridOffsetLinear(lay, r, b, c);
    GridOffsetFits(lay, r, b, c);
    DivModUnique(x, lay.width, k, c);
    DivModUnique(k, lay.blocks, r, b);
  }

  lemma GridOffsetLinear(lay: MemoryStages.Layout, r: nat, b: nat, c: nat)
    ensures GridOffset(lay, r, b, c) == (r * lay.blocks + b) * lay.width + c
  {
    MulAssoc(r, lay.width, lay.blocks);
    MulAdd(lay.width, r * lay.blocks, b);
  }

  lemma GridOffsetFits(lay: MemoryStages.Layout, r: nat, b: nat, c: nat)
    requires MemoryStages.Valid(lay) && r < lay.rows && b < lay.blocks && c < lay.width
    ensures GridOffset(lay, r, b, c) < lay.half
  {
    var stride := MemoryStages.Stride(lay);
    MemoryStages.RowFits(r, lay.rows, stride, lay.half);
    MulLe(b + 1, lay.blocks, lay.width);
    assert (b + 1) * lay.width == b * lay.width + lay.width;
    assert lay.blocks * lay.width == stride;
  }

  /** Column col of grid row r is column col % width of block col / width. */
  lemma ColumnOffset(lay: MemoryStages.Layout, r: nat, col: nat) returns (b: nat, c: nat)
    requires MemoryStages.Valid(lay) && col < MemoryStages.Stride(lay)
    ensures b == col / lay.width < lay.blocks && c == col % lay.width < lay.width
    ensures GridOffset(lay, r, b, c) == r * MemoryStages.Stride(lay) + col
  {
    DivBetween(col, lay.width, 0, lay.blocks);
    DivMod(col, lay.width);
    b, c := col / lay.width, col % lay.width;
  }

  /** Distinct cells of the grid lie at distinct offsets. */
  lemma GridOffsetUnique(lay: MemoryStages.Layout, r: nat, b: nat, c: nat, r': nat, b': nat, c': nat)
    requires MemoryStages.Valid(lay) && r < lay.rows && b < lay.blocks && c < lay.width
    requires r' < lay.rows && b' < lay.blocks && c' < lay.width
    requires GridOffset(lay, r, b, c) == GridOffset(lay, r', b', c')
    ensures r == r' && b == b' && c == c'
  {
    GridOffsetSplit(lay, r, b, c);
    GridOffsetSplit(lay, r', b', c');
  }

  /** The word WriteSplit (kernel/Memory.cpp) and Write (src/Memory.cpp,
      src/Stencil.cpp) store column c of block b of row r into in fold t,
      reduced modulo the size of the doubled buffer as the source does. */
  function WriteIndex(lay: MemoryStages.Layout, t: nat, b: nat, r: nat, c: nat): nat
    requires lay.half > 0
  {
    (MemoryStages.WriteHalf(lay, t) + GridOffset(lay, r, b, c)) % (2 * lay.half)
  }

  /** The modulo never wraps: the index is the cell's offset in the half
      the fold writes, so it is in range, and never in the half the fold
      reads. */
  lemma WriteIndexInRange(lay: MemoryStages.Layout, t: nat, b: nat, r: nat, c: nat)
    requires MemoryStages.Valid(lay) && r < lay.rows && b < lay.blocks && c < lay.width
    ensures WriteIndex(lay, t, b, r, c) == MemoryStages.WriteHalf(lay, t) + GridOffset(lay, r, b, c)
    ensures 0 <= WriteIndex(lay, t, b, r, c) < 2 * lay.half
    ensures MemoryStages.WriteHalf(lay, t) <= WriteIndex(lay, t, b, r, c) < MemoryStages.WriteHalf(lay, t) + lay.half
    ensures !(MemoryStages.ReadHalf(lay, t) <= WriteIndex(lay, t, b, r, c) < MemoryStages.ReadHalf(lay, t) + lay.half)
  {
    GridOffsetSplit(lay, r, b, c);
    var x := MemoryStages.WriteHalf(lay, t) + GridOffset(lay, r, b, c);
    DivModUnique(x, 2 * lay.half, 0, x);
  }

  /** The first word global row n of the output is stored at. */
  function WriteBase(lay: MemoryStages.Layout, n: nat): nat
    requires MemoryStages.Valid(lay)
  {
    var t, b, r := FoldOf(lay.rows, lay.blocks, n), BlockOf(lay.rows, lay.blocks, n), RowOf(lay.rows, n);
    MemoryStages.WriteHalf(lay, t) + GridOffset(lay, r, b, 0)
  }

  /** Global row n of the output is stored over words
      WriteBase(n) .. WriteBase(n) + width - 1, all in the half its fold
      writes. */
  lemma WriteBaseInHalf(lay: MemoryStages.Layout, n: nat)
    requires MemoryStages.Valid(lay)
    ensures var t := FoldOf(lay.rows, lay.blocks, n);
      MemoryStages.WriteHalf(lay, t) <= WriteBase(lay, n)
      && WriteBase(lay, n) + lay.width <= MemoryStages.WriteHalf(lay, t) + lay.half
  {
    Recompose(lay.rows, lay.blocks, n);
    GridOffsetSplit(lay, RowOf(lay.rows, n), BlockOf(lay.rows, lay.blocks, n), lay.width - 1);
  }

  /** Word i is one of those row n is stored over. */
  predicate Covers(lay: MemoryStages.Layout, n: nat, i: nat)
    requires MemoryStages.Valid(lay)
  {
    WriteBase(lay, n) <= i < WriteBase(lay, n) + lay.width
  }

  /** The memory after row n is stored over it. */
  function StoreRow<T>(lay: MemoryStages.Layout, mem: seq<T>, n: nat, row: seq<T>): (m: seq<T>)
    requires MemoryStages.Valid(lay) && |mem| == 2 * lay.half && |row| == lay.width
    ensures |m| == |mem|
  {
    WriteBaseInHalf(lay, n);
    mem[..WriteBase(lay, n)] + row + mem[WriteBase(lay, n) + lay.width..]
  }

  /** Storing row n changes exactly the words it covers, word
      WriteBase(n) + k becoming word k of the row. */
  lemma StoreRowAt<T>(lay: MemoryStages.Layout, mem: seq<T>, n: nat, row: seq<T>, i: nat)
    requires MemoryStages.Valid(lay) && |mem| == 2 * lay.half && |row| == lay.width && i < |mem|
    ensures Covers(lay, n, i) ==> i - WriteBase(lay, n) < |row|
    ensures StoreRow(lay, mem, n, row)[i] == if Covers(lay, n, i) then row[i - WriteBase(lay, n)] else mem[i]
  {
    WriteBaseInHalf(lay, n);
  }

  /** The memory after the rows of `grid` are stored in order. */
  function Stored<T>(lay: MemoryStages.Layout, mem: seq<T>, grid: seq<seq<T>>): (m: seq<T>)
    requires MemoryStages.Valid(lay) && |mem| == 2 * lay.half
    requires forall n | 0 <= n < |grid| :: |grid[n]| == lay.width
    ensures |m| == |mem|
  {
    if grid == [] then mem
    else StoreRow(lay, Stored(lay, mem, grid[..|grid| - 1]), |grid| - 1, grid[|grid| - 1])
  }

  lemma StoredNext<T>(lay: MemoryStages.Layout, mem: seq<T>, grid: seq<seq<T>>, n: nat)
    requires MemoryStages.Valid(lay) && |mem| == 2 * lay.half && n < |grid|
    requires forall k | 0 <= k < |grid| :: |grid[k]| == lay.width
    ensures Stored(lay, mem, grid[..n + 1]) == StoreRow(lay, Stored(lay, mem, grid[..n]), n, grid[n])
  {
    assert grid[..n + 1][..n] == grid[..n];
  }

  /** A word no later row covers keeps the value it had after the first
      m rows. */
  lemma {:induction false} StoredKeeps<T>(lay: MemoryStages.Layout, mem: seq<T>, grid: seq<seq<T>>, m: nat, i: nat)
    requires MemoryStages.Valid(lay) && |mem| == 2 * lay.half && m <= |grid| && i < |mem|
    requires forall k | 0 <= k < |grid| :: |grid[k]| == lay.width
    requires forall n | m <= n < |grid| :: !Covers(lay, n, i)
    ensures Stored(lay, mem, grid)[i] == Stored(lay, mem, grid[..m])[i]
    decreases |grid|
  {
    if |grid| > m {
      var init := grid[..|grid| - 1];
      StoredKeeps(lay, mem, init, m, i);
      StoreRowAt(lay, Stored(lay, mem, init), |grid| - 1, grid[|grid| - 1], i);
      assert init[..m] == grid[..m];
    } else {
      assert grid[..m] == grid;
    }
  }

  /** A word holds the value of the last row that covers it. */
  lemma StoredLast<T>(lay: MemoryStages.Layout, mem: seq<T>, grid: seq<seq<T>>, n0: nat, i: nat)
    requires MemoryStages.Valid(lay) && |mem| == 2 * lay.half && n0 < |grid| && i < |mem|
    requires forall k | 0 <= k < |grid| :: |grid[k]| == lay.width
    requires Covers(lay, n0, i) && forall n | n0 < n < |grid| :: !Covers(lay, n, i)
    ensures Stored(lay, mem, grid)[i] == grid[n0][i - WriteBase(lay, n0)]
  {
    StoredKeeps(lay, mem, grid, n0 + 1, i);
    StoredNext(lay, mem, grid, n0);
    StoreRowAt(lay, Stored(lay, mem, grid[..n0]), n0, grid[n0], i);
  }

  /** Fold t stores nothing into the half it reads: that half is as the
      earlier folds left it. */
  lemma FoldKeepsReadHalf<T>(lay: MemoryStages.Layout, mem: seq<T>, grid: seq<seq<T>>, t: nat, i: nat)
    requires MemoryStages.Valid(lay) && |mem| == 2 * lay.half
    requires |grid| == (t + 1) * lay.blocks * lay.rows && forall k | 0 <= k < |grid| :: |grid[k]| == lay.width
    requires MemoryStages.ReadHalf(lay, t) <= i < MemoryStages.ReadHalf(lay, t) + lay.half
    ensures Stored(lay, mem, grid)[i] == Stored(lay, mem, grid[..t * lay.blocks * lay.rows])[i]
  {
    var m := t * lay.blocks * lay.rows;
    MulLe(t, t + 1, lay.blocks * lay.rows);
    MulAssoc(t, lay.blocks, lay.rows);
    MulAssoc(t + 1, lay.blocks, lay.rows);
    forall n | m <= n < |grid|
      ensures !Covers(lay, n, i)
    {
      FoldOfRange(lay.rows, lay.blocks, t, n);
      WriteBaseInHalf(lay, n);
    }
    StoredKeeps(lay, mem, grid, m, i);
  }

  /** After fold t, the half it writes holds the fold's output: column c
      of block b of row r is the word c of the row (t * blocks + b) *
      rows + r that the fold stored last. */
  lemma WriteFoldResult<T>(lay: MemoryStages.Layout, mem: seq<T>, grid: seq<seq<T>>, t: nat, b: nat, r: nat, c: nat)
    requires MemoryStages.Valid(lay) && |mem| == 2 * lay.half
    requires |grid| == (t + 1) * lay.blocks * lay.rows && forall k | 0 <= k < |grid| :: |grid[k]| == lay.width
    requires b < lay.blocks && r < lay.rows && c < lay.width
    ensures RowIndex(lay.rows, lay.blocks, t, b, r) < |grid|
    ensures MemoryStages.WriteHalf(lay, t) + GridOffset(lay, r, b, c) < |mem|
    ensures Stored(lay, mem, grid)[MemoryStages.WriteHalf(lay, t) + GridOffset(lay, r, b, c)]
      == grid[RowIndex(lay.rows, lay.blocks, t, b, r)][c]
  {
    var n0 := (t * lay.blocks + b) * lay.rows + r;
    var i := MemoryStages.WriteHalf(lay, t) + GridOffset(lay, r, b, c);
    Compose(lay.rows, lay.blocks, t, b, r);
    GridOffsetSplit(lay, r, b, c);
    BlockRowsEnd(lay.rows, lay.blocks, t, b, r);
    forall n | n0 < n < |grid|
      ensures !Covers(lay, n, i)
    {
      FoldOfRange(lay.rows, lay.blocks, t, n);
      Recompose(lay.rows, lay.blocks, n);
      if Covers(lay, n, i) {
        GridOffsetUnique(lay, r, b, c, RowOf(lay.rows, n), BlockOf(lay.rows, lay.blocks, n), i - WriteBase(lay, n));
      }
    }
    StoredLast(lay, mem, grid, n0, i);
  }

  /** The global index of row r of block b of fold t. */
  function RowIndex(rows: nat, blocks: nat, t: nat, b: nat, r: nat): nat
  {
    (t * blocks + b) * rows + r
  }

  /** The blocks of a fold follow one another, rows rows each, and the
      blocks of fold t end where fold t + 1 begins. */
  lemma BlockStep(rows: nat, blocks: nat, t: nat, b: nat)
    ensures RowIndex(rows, blocks, t, b, 0) + rows == RowIndex(rows, blocks, t, b + 1, 0)
    ensures RowIndex(rows, blocks, t, blocks, 0) == (t + 1) * blocks * rows
  {
  }

  /** Block b of fold t ends inside the folds * blocks * rows rows. */
  lemma BlockInGrid(folds: nat, blocks: nat, rows: nat, t: nat, b: nat)
    requires t < folds && b < blocks
    ensures RowIndex(rows, blocks, t, b, 0) + rows <= folds * blocks * rows
  {
    BlockRows(folds, blocks, rows, t, b);
  }

  /** Fold t begins after the t * blocks * rows rows of the folds before it. */
  lemma FoldStart(rows: nat, blocks: nat, folds: nat, t: nat)
    requires t <= folds
    ensures RowIndex(rows, blocks, t, 0, 0) == t * blocks * rows <= folds * blocks * rows
  {
    MulLe(t, folds, blocks);
    MulLe(t * blocks, folds * blocks, rows);
  }

  /** Row (t * blocks + b) * rows + r lies in fold t. */
  lemma BlockRowsEnd(rows: nat, blocks: nat, t: nat, b: nat, r: nat)
    requires b < blocks && r < rows
    ensures t * blocks * rows <= (t * blocks + b) * rows + r < (t + 1) * blocks * rows
  {
    MulLe(t * blocks + b + 1, (t + 1) * blocks, rows);
  }

  /** With an even number of folds the last fold writes half 0, which is
      where the host reads the result: the grid there is the output of
      the last fold. */
  lemma WriteFinalGrid<T>(lay: MemoryStages.Layout, mem: seq<T>, grid: seq<seq<T>>, folds: nat, b: nat, r: nat, c: nat)
    requires MemoryStages.Valid(lay) && |mem| == 2 * lay.half && folds > 0 && folds % 2 == 0
    requires |grid| == folds * lay.blocks * lay.rows && forall k | 0 <= k < |grid| :: |grid[k]| == lay.width
    requires b < lay.blocks && r < lay.rows && c < lay.width
    ensures RowIndex(lay.rows, lay.blocks, folds - 1, b, r) < |grid|
    ensures GridOffset(lay, r, b, c) < lay.half
    ensures Stored(lay, mem, grid)[GridOffset(lay, r, b, c)] == grid[RowIndex(lay.rows, lay.blocks, folds - 1, b, r)][c]
  {
    GridOffsetSplit(lay, r, b, c);
    WriteFoldResult(lay, mem, grid, folds - 1, b, r, c);
  }

  /** Bank k of a two-bank layout stores row r of a block of the bank's
      grid, which has half the rows: that is row 2 * r + k of the block in
      the output grid, the row Mux sent to bank k. */
  lemma BankRows<T>(grid: seq<seq<T>>, rows: nat, blocks: nat, t: nat, b: nat, r: nat)
    requires rows % 2 == 0 && b < blocks && 2 * r < rows
    requires RowIndex(rows, blocks, t, b, 2 * r + 1) < |grid|
    ensures RowIndex(rows / 2, blocks, t, b, r) < |Odds(grid)|
    ensures Evens(grid)[RowIndex(rows / 2, blocks, t, b, r)] == grid[RowIndex(rows, blocks, t, b, 2 * r)]
    ensures Odds(grid)[RowIndex(rows / 2, blocks, t, b, r)] == grid[RowIndex(rows, blocks, t, b, 2 * r + 1)]
  {
    var k := t * blocks + b;
    assert k * rows == 2 * (k * (rows / 2)) by {
      MulAssoc(k, 2, rows / 2);
    }
  }

  /** WriteSplit (kernel/Memory.cpp) and Write (src/Memory.cpp,
      src/Stencil.cpp): pops the `width` words of every row of every block
      of every folded timestep and stores word c of row r of block b in
      fold t at WriteIndex(t, b, r, c).  A two-bank configuration runs one
      Write per bank, each over a layout of kRows / kDimms rows. */
  method Write<T>(lay: MemoryStages.Layout, folds: nat, input: seq<T>, output: array<T>, ghost grid: seq<seq<T>>)
    requires MemoryStages.Valid(lay) && output.Length == 2 * lay.half
    requires |grid| == folds * lay.blocks * lay.rows && forall n | 0 <= n < |grid| :: |grid[n]| == lay.width
    requires input == Flatten(grid)
    modifies output
    ensures output[..] == Stored(lay, old(output[..]), grid)
  {
    ghost var mem := output[..];
    var popped: nat := 0;
    ghost var n: nat := 0;
    var t: nat := 0;
    while t < folds
      invariant 0 <= t <= folds && n == RowIndex(lay.rows, lay.blocks, t, 0, 0) && n <= |grid|
      invariant output[..] == Stored(lay, mem, grid[..n]) && popped == |Flatten(grid[..n])|
    {
      popped := WriteFold(lay, folds, t, input, popped, output, mem, grid);
      FoldStart(lay.rows, lay.blocks, folds, t + 1);
      BlockStep(lay.rows, lay.blocks, t, lay.blocks);
      n := RowIndex(lay.rows, lay.blocks, t + 1, 0, 0);
      t := t + 1;
    }
    FoldStart(lay.rows, lay.blocks, folds, folds);
    assert grid[..n] == grid;
  }

  /** The blocks loop of Write for fold t. */
  method WriteFold<T>(lay: MemoryStages.Layout, folds: nat, t: nat, input: seq<T>, popped0: nat, output: array<T>,
                      ghost mem: seq<T>, ghost grid: seq<seq<T>>)
    returns (popped: nat)
    requires MemoryStages.Valid(lay) && output.Length == 2 * lay.half && |mem| == 2 * lay.half && t < folds
    requires |grid| == folds * lay.blocks * lay.rows && forall k | 0 <= k < |grid| :: |grid[k]| == lay.width
    requires input == Flatten(grid) && RowIndex(lay.rows, lay.blocks, t, 0, 0) <= |grid|
    requires popped0 == |Flatten(grid[..RowIndex(lay.rows, lay.blocks, t, 0, 0)])|
    requires output[..] == Stored(lay, mem, grid[..RowIndex(lay.rows, lay.blocks, t, 0, 0)])
    modifies output
    ensures RowIndex(lay.rows, lay.blocks, t, lay.blocks, 0) <= |grid|
    ensures output[..] == Stored(lay, mem, grid[..RowIndex(lay.rows, lay.blocks, t, lay.blocks, 0)])
    ensures popped == |Flatten(grid[..RowIndex(lay.rows, lay.blocks, t, lay.blocks, 0)])|
  {
    popped := popped0;
    ghost var n: nat := RowIndex(lay.rows, lay.blocks, t, 0, 0);
    var b: nat := 0;
    while b < lay.blocks
      invariant b <= lay.blocks && n == RowIndex(lay.rows, lay.blocks, t, b, 0) && n <= |grid|
      invariant output[..] == Stored(lay, mem, grid[..n]) && popped == |Flatten(grid[..n])|
    {
      BlockInGrid(folds, lay.blocks, lay.rows, t, b);
      popped := WriteBlock(lay, t, b, input, popped, output, mem, grid, n);
      BlockStep(lay.rows, lay.blocks, t, b);
      n := n + lay.rows;
      b := b + 1;
    }
  }

  /** The rows loop of Write for block b of fold t, whose first row is n. */
  method WriteBlock<T>(lay: MemoryStages.Layout, t: nat, b: nat, input: seq<T>, popped0: nat, output: array<T>,
                       ghost mem: seq<T>, ghost grid: seq<seq<T>>, ghost n: nat)
    returns (popped: nat)
    requires MemoryStages.Valid(lay) && output.Length == 2 * lay.half && |mem| == 2 * lay.half
    requires b < lay.blocks && n == RowIndex(lay.rows, lay.blocks, t, b, 0) && n + lay.rows <= |grid|
    requires forall k | 0 <= k < |grid| :: |grid[k]| == lay.width
    requires input == Flatten(grid) && popped0 == |Flatten(grid[..n])|
    requires output[..] == Stored(lay, mem, grid[..n])
    modifies output
    ensures output[..] == Stored(lay, mem, grid[..n + lay.rows]) && popped == |Flatten(grid[..n + lay.rows])|
  {
    popped := popped0;
    var r: nat := 0;
    while r < lay.rows
      invariant 0 <= r <= lay.rows && n + r <= |grid|
      invariant output[..] == Stored(lay, mem, grid[..n + r]) && popped == |Flatten(grid[..n + r])|
    {
      assert n + r == RowIndex(lay.rows, lay.blocks, t, b, r);
      popped := WriteNextRow(lay, t, b, r, input, popped, output, mem, grid, n + r);
      r := r + 1;
    }
    assert n + r == n + lay.rows;
  }

  /** Row n through Write: the memory holds the first n + 1 rows stored. */
  method WriteNextRow<T>(lay: MemoryStages.Layout, t: nat, b: nat, r: nat, input: seq<T>, popped0: nat,
                         output: array<T>, ghost mem: seq<T>, ghost grid: seq<seq<T>>, ghost n: nat)
    returns (popped: nat)
    requires MemoryStages.Valid(lay) && output.Length == 2 * lay.half && |mem| == 2 * lay.half
    requires b < lay.blocks && r < lay.rows && n == RowIndex(lay.rows, lay.blocks, t, b, r) && n < |grid|
    requires forall k | 0 <= k < |grid| :: |grid[k]| == lay.width
    requires input == Flatten(grid) && popped0 == |Flatten(grid[..n])|
    requires output[..] == Stored(lay, mem, grid[..n])
    modifies output
    ensures output[..] == Stored(lay, mem, grid[..n + 1]) && popped == |Flatten(grid[..n + 1])|
  {
    popped := WriteRow(lay, t, b, r, input, popped0, output, grid, n);
    StoredNext(lay, mem, grid, n);
  }

  /** The column loop of Write for row r of block b of fold t, global
      row n: stores the row over the words it covers and nothing else. */
  method WriteRow<T>(lay: MemoryStages.Layout, t: nat, b: nat, r: nat, input: seq<T>, popped0: nat, output: array<T>,
                     ghost grid: seq<seq<T>>, ghost n: nat)
    returns (popped: nat)
    requires MemoryStages.Valid(lay) && output.Length == 2 * lay.half
    requires b < lay.blocks && r < lay.rows && n == RowIndex(lay.rows, lay.blocks, t, b, r)
    requires n < |grid| && |grid[n]| == lay.width
    requires input == Flatten(grid) && popped0 == |Flatten(grid[..n])|
    modifies output
    ensures output[..] == StoreRow(lay, old(output[..]), n, grid[n]) && popped == |Flatten(grid[..n + 1])|
  {
    Compose(lay.rows, lay.blocks, t, b, r);
    ghost var base := WriteBase(lay, n);
    popped := popped0;
    var c: nat := 0;
    while c < lay.width
      invariant 0 <= c <= lay.width && popped == popped0 + c
      invariant forall i | 0 <= i < output.Length ::
        output[i] == if base <= i < base + c then grid[n][i - base] else old(output[i])
    {
      FlattenIndex(grid, n, c);
      WriteIndexInRange(lay, t, b, r, c);
      var read := input[popped];
      var index := WriteIndex(lay, t, b, r, c);
      output[index] := read;
      popped := popped + 1;
      c := c + 1;
    }
    FlattenNext(grid, n);
    ghost var stored := StoreRow(lay, old(output[..]), n, grid[n]);
    forall i | 0 <= i < output.Length
      ensures output[..][i] == stored[i]
    {
      StoreRowAt(lay, old(output[..]), n, grid[n], i);
    }
  }

  /** Column k of the window Read forwards for block b: the grid column
      b * width - LeftHalo(b) + k. */
  function WindowColumn(lay: MemoryStages.Layout, b: nat, k: nat): nat
    requires MemoryStages.Valid(lay) && b < lay.blocks
  {
    MemoryStages.ForwardedColumns(lay, 0, b, 0, 0);
    b * lay.width - MemoryStages.LeftHalo(lay, b) + k
  }

  /** The next fold reads what this one wrote: word k of the row Read
      forwards for row r of block b in fold t + 1 is the word the
      output row of fold t for that grid column held, halo columns
      included, which come from the neighbouring blocks. */
  lemma ReadAfterWrite<T>(lay: MemoryStages.Layout, mem: seq<T>, grid: seq<seq<T>>, t: nat, b: nat, r: nat, k: nat)
    requires MemoryStages.Valid(lay) && |mem| == 2 * lay.half
    requires |grid| == (t + 1) * lay.blocks * lay.rows && forall n | 0 <= n < |grid| :: |grid[n]| == lay.width
    requires b < lay.blocks && r < lay.rows && k < Width(MemoryStages.ReadShape(lay), b)
    ensures var col := WindowColumn(lay, b, k);
      var n := RowIndex(lay.rows, lay.blocks, t, col / lay.width, r);
      col / lay.width < lay.blocks && n < |grid| && col % lay.width < |grid[n]|
      && k < |MemoryStages.RowAt(lay, Stored(lay, mem, grid), t + 1, b, r)|
      && MemoryStages.RowAt(lay, Stored(lay, mem, grid), t + 1, b, r)[k] == grid[n][col % lay.width]
  {
    var col := WindowColumn(lay, b, k);
    var memory := Stored(lay, mem, grid);
    MemoryStages.ReadRowIsGridWindow(lay, memory, t + 1, b, r, k);
    MemoryStages.HalvesAlternate(lay, t);
    var b', c' := ColumnOffset(lay, r, col);
    WriteFoldResult(lay, mem, grid, t, b', r, c');
  }
}
