/** The memory-side stages of the pipeline: ReadSplit, DemuxRead, Widen,
    Narrow, MuxWrite and WriteSplit of kernel/Memory.cpp, their one-bank
    counterparts in src/Memory.cpp, and Read, Demux, Mux and Write of
    src/Stencil.cpp.

    Off-chip memory holds two copies of the grid, one per half: a fold
    reads one half and writes the other, so that the next fold reads what
    this one wrote.  In a half, grid row r is stored at r * width * blocks,
    and block b of it occupies columns b * width .. b * width + width - 1.
    Stages exchange elements through streams; a stage's input is the
    sequence of elements it pops and its output the sequence it pushes.
    A stage that pops from an empty stream blocks, so the model asks its
    callers for streams that hold what the stage will pop. */
module MemoryStages {
  import opened Schedule
  import opened RowWalk

  /** Geometry in memory words: `blocks` blocks of `width` words per grid
      row, a halo of `halo` words, `rows` grid rows per half handled by one
      Read (kRows, or kRows / kDimms when each of the two memory banks
      holds every other row), and `half` words per half. */
  datatype Layout = Layout(blocks: nat, rows: nat, width: nat, halo: nat, half: nat)

  /** Words in one grid row of a half. */
  function Stride(lay: Layout): nat
  {
    lay.width * lay.blocks
  }

  /** The constraints the source's index assertions rely on: at least two
      blocks, a halo that fits next to its block, and a grid that fits in
      its half. */
  predicate Valid(lay: Layout)
  {
    lay.blocks >= 2 && lay.rows > 0 && lay.width > 0
    && lay.halo <= lay.width && 2 * lay.halo <= (lay.blocks - 1) * lay.width
    && lay.rows * Stride(lay) <= lay.half
  }

  // ---------------------------------------------------------------- Read

  /** The rows a Read forwards: first and last blocks carry a halo on one
      side, interior blocks on both. */
  function ReadShape(lay: Layout): Shape
  {
    Shape(lay.blocks, lay.rows, lay.width + lay.halo, lay.width + 2 * lay.halo)
  }

  /** Fold t reads the second half when t is odd and the first when it is
      even; it writes the other one. */
  function ReadHalf(lay: Layout, t: nat): nat
  {
    if t % 2 == 1 then lay.half else 0
  }

  function WriteHalf(lay: Layout, t: nat): nat
  {
    if t % 2 == 0 then lay.half else 0
  }

  /** How far left of the block's start the read window of block b
      begins: the first block has no left halo, the last block reads its
      window shifted left by the right halo it does not have. */
  function Shift(lay: Layout, b: nat): nat
  {
    if b == 0 then 0 else if b == lay.blocks - 1 then 2 * lay.halo else lay.halo
  }

  /** The address Read loads at column c of the read window of row r of
      block b in fold t. */
  function ReadIndex(lay: Layout, t: nat, b: nat, r: nat, c: nat): int
  {
    ReadHalf(lay, t) + r * Stride(lay) + b * lay.width + c - Shift(lay, b)
  }

  /** Whether the word loaded at column c is pushed. */
  predicate Forwarded(lay: Layout, b: nat, c: nat)
  {
    (b > 0 || c < lay.width + lay.halo) && (b < lay.blocks - 1 || c >= lay.halo)
  }

  /** The first forwarded column of the window of block b. */
  function FirstForwarded(lay: Layout, b: nat): nat
  {
    if b == lay.blocks - 1 then lay.halo else 0
  }

  /** Left halo of block b. */
  function LeftHalo(lay: Layout, b: nat): nat
  {
    if b > 0 then lay.halo else 0
  }

  /** Column c of the read window of block b is a column of the grid row:
      the window never reaches into a neighbouring row. */
  lemma WindowInRow(lay: Layout, b: nat, c: nat)
    requires Valid(lay) && b < lay.blocks && c < lay.width + 2 * lay.halo
    ensures 0 <= b * lay.width + c - Shift(lay, b) < Stride(lay)
  {
    var w := lay.width;
    if b > 0 {
      MulLe(1, b, w);
    }
    if b == lay.blocks - 1 {
      assert (b + 1) * w == Stride(lay);
    } else {
      MulLe(b + 2, lay.blocks, w);
      assert (b + 2) * w == b * w + 2 * w;
    }
  }

  /** Every address Read loads lies in the memory (the source asserts
      0 <= index < 2 * half). */
  lemma ReadIndexInRange(lay: Layout, t: nat, b: nat, r: nat, c: nat)
    requires Valid(lay) && b < lay.blocks && r < lay.rows && c < lay.width + 2 * lay.halo
    ensures 0 <= ReadIndex(lay, t, b, r, c) < 2 * lay.half
  {
    WindowInRow(lay, b, c);
    RowFits(r, lay.rows, Stride(lay), lay.half);
  }

  /** Row r of a half starts at least one stride before its end. */
  lemma RowFits(r: nat, rows: nat, stride: nat, half: nat)
    requires r < rows && rows * stride <= half
    ensures r * stride + stride <= half
  {
    MulLe(r + 1, rows, stride);
  }

  /** Read forwards exactly the columns FirstForwarded(b) ..
      FirstForwarded(b) + Width(b) - 1 of the window, and the k-th word
      it forwards is grid column b * width - LeftHalo(b) + k. */
  lemma ForwardedColumns(lay: Layout, t: nat, b: nat, r: nat, c: nat)
    requires Valid(lay) && b < lay.blocks && c < lay.width + 2 * lay.halo
    ensures Forwarded(lay, b, c) <==>
      FirstForwarded(lay, b) <= c < FirstForwarded(lay, b) + Width(ReadShape(lay), b)
    ensures b * lay.width >= LeftHalo(lay, b)
    ensures ReadIndex(lay, t, b, r, c) ==
      ReadHalf(lay, t) + r * Stride(lay) + (b * lay.width - LeftHalo(lay, b)) + (c - FirstForwarded(lay, b))
  {
    if b > 0 {
      MulLe(1, b, lay.width);
    }
  }

  /** The first address of the words forwarded for row r of block b. */
  function RowStart(lay: Layout, t: nat, b: nat, r: nat): nat
    requires Valid(lay) && b < lay.blocks
  {
    ForwardedColumns(lay, t, b, 0, 0);
    ReadHalf(lay, t) + r * Stride(lay) + (b * lay.width - LeftHalo(lay, b))
  }

  /** The forwarded words of a row lie inside the memory and inside their
      grid row: they are grid columns b * width - LeftHalo(b) onwards, and
      the last of them is a column of the same grid row. */
  lemma RowInRange(lay: Layout, t: nat, b: nat, r: nat)
    requires Valid(lay) && b < lay.blocks && r < lay.rows
    ensures RowStart(lay, t, b, r) + Width(ReadShape(lay), b) <= 2 * lay.half
    ensures (b * lay.width - LeftHalo(lay, b)) + Width(ReadShape(lay), b) <= Stride(lay)
  {
    var last := FirstForwarded(lay, b) + Width(ReadShape(lay), b) - 1;
    ForwardedColumns(lay, t, b, r, last);
    ReadIndexInRange(lay, t, b, r, last);
    WindowInRow(lay, b, last);
  }

  /** The words Read forwards for row r of block b in fold t. */
  function RowAt<T>(lay: Layout, memory: seq<T>, t: nat, b: nat, r: nat): (row: seq<T>)
    requires Valid(lay) && |memory| == 2 * lay.half && b < lay.blocks && r < lay.rows
    ensures |row| == Width(ReadShape(lay), b)
  {
    RowInRange(lay, t, b, r);
    memory[RowStart(lay, t, b, r)..RowStart(lay, t, b, r) + Width(ReadShape(lay), b)]
  }

  /** Row n of the Read output, with n = (t * blocks + b) * rows + r. */
  function ReadRow<T>(lay: Layout, memory: seq<T>, n: nat): (row: seq<T>)
    requires Valid(lay) && |memory| == 2 * lay.half
    ensures |row| == RowWidth(ReadShape(lay))(n)
  {
    DivBounds(n, lay.rows);
    DivBounds(n / lay.rows, lay.blocks);
    RowAt(lay, memory, FoldOf(lay.rows, lay.blocks, n), BlockOf(lay.rows, lay.blocks, n), RowOf(lay.rows, n))
  }

  /** The first `count` rows of the Read output. */
  function ReadRows<T>(lay: Layout, memory: seq<T>, count: nat): (rows: seq<seq<T>>)
    requires Valid(lay) && |memory| == 2 * lay.half
    ensures |rows| == count
  {
    seq(count, n requires 0 <= n < count => ReadRow(lay, memory, n))
  }

  /** Each word Read forwards is a word of the grid in the half the fold
      reads: word k of row r of block b is grid column
      b * width - LeftHalo(b) + k of grid row r, a column of that row. */
  lemma ReadRowIsGridWindow<T>(lay: Layout, memory: seq<T>, t: nat, b: nat, r: nat, k: nat)
    requires Valid(lay) && |memory| == 2 * lay.half && b < lay.blocks && r < lay.rows
    requires k < Width(ReadShape(lay), b)
    ensures b * lay.width - LeftHalo(lay, b) + k < Stride(lay)
    ensures ReadHalf(lay, t) + r * Stride(lay) + (b * lay.width - LeftHalo(lay, b) + k) < |memory|
    ensures RowAt(lay, memory, t, b, r)[k] ==
      memory[ReadHalf(lay, t) + r * Stride(lay) + (b * lay.width - LeftHalo(lay, b) + k)]
  {
    RowInRange(lay, t, b, r);
  }

  /** The words of the window of row r of block b that Read pushes. */
  method ReadWindow<T>(lay: Layout, memory: seq<T>, t: nat, b: nat, r: nat) returns (row: seq<T>)
    requires Valid(lay) && |memory| == 2 * lay.half && b < lay.blocks && r < lay.rows
    ensures row == RowAt(lay, memory, t, b, r)
  {
    var first := FirstForwarded(lay, b);
    var width := Width(ReadShape(lay), b);
    var start := RowStart(lay, t, b, r);
    RowInRange(lay, t, b, r);
    row := [];
    var c := 0;
    while c < lay.width + 2 * lay.halo
      invariant 0 <= c <= lay.width + 2 * lay.halo
      invariant row == memory[start..start + (if c <= first then 0 else if c >= first + width then width else c - first)]
    {
      ReadIndexInRange(lay, t, b, r, c);
      ForwardedColumns(lay, t, b, r, c);
      var index := ReadIndex(lay, t, b, r, c);
      var read := memory[index];
      if Forwarded(lay, b, c) {
        row := row + [read];
      }
      c := c + 1;
    }
  }

  /** Read (ReadSplit, and Read of src/Memory.cpp and src/Stencil.cpp):
      for every fold, block, row and window column, load one word and push
      it when it is forwarded.  The output is the concatenation of the
      rows RowAt, in the order of the loops. */
  method Read<T>(lay: Layout, memory: seq<T>, folds: nat) returns (out: seq<T>)
    requires Valid(lay) && |memory| == 2 * lay.half
    ensures out == Flatten(ReadRows(lay, memory, TotalRows(ReadShape(lay), folds)))
  {
    var rows, blocks := lay.rows, lay.blocks;
    out := [];
    ghost var n := 0;
    var t := 0;
    while t < folds
      invariant 0 <= t <= folds
      invariant n == t * blocks * rows
      invariant out == Flatten(ReadRows(lay, memory, n))
    {
      var b := 0;
      while b < blocks
        invariant 0 <= b <= blocks
        invariant n == (t * blocks + b) * rows
        invariant out == Flatten(ReadRows(lay, memory, n))
      {
        out := ReadBlock(lay, memory, t, b, out, n);
        assert (t * blocks + b) * rows + rows == (t * blocks + b + 1) * rows;
        n := n + rows;
        b := b + 1;
      }
      assert (t * blocks + blocks) * rows == (t + 1) * blocks * rows;
      t := t + 1;
    }
    MulAssoc(folds, blocks, rows);
  }

  /** The rows loop of Read for block b of fold t: appends the rows
      n .. n + rows - 1 of the output to `before`. */
  method ReadBlock<T>(lay: Layout, memory: seq<T>, t: nat, b: nat, before: seq<T>, ghost n: nat)
    returns (out: seq<T>)
    requires Valid(lay) && |memory| == 2 * lay.half && b < lay.blocks
    requires n == (t * lay.blocks + b) * lay.rows
    requires before == Flatten(ReadRows(lay, memory, n))
    ensures out == Flatten(ReadRows(lay, memory, n + lay.rows))
  {
    out := before;
    var r := 0;
    while r < lay.rows
      invariant 0 <= r <= lay.rows
      invariant out == Flatten(ReadRows(lay, memory, n + r))
    {
      var row := ReadWindow(lay, memory, t, b, r);
      ReadRowAppended(lay, memory, t, b, r, n, out, row);
      out := out + row;
      r := r + 1;
    }
  }

  /** Row (t * blocks + b) * rows + r of the output is row r of block b
      of fold t. */
  lemma ReadRowOf<T>(lay: Layout, memory: seq<T>, t: nat, b: nat, r: nat, n: nat)
    requires Valid(lay) && |memory| == 2 * lay.half && b < lay.blocks && r < lay.rows
    requires n == (t * lay.blocks + b) * lay.rows + r
    ensures ReadRow(lay, memory, n) == RowAt(lay, memory, t, b, r)
  {
    Compose(lay.rows, lay.blocks, t, b, r);
  }

  /** Appending row r of block b of fold t to the first n + r rows gives
      the first n + r + 1, when block b of fold t starts at row n. */
  lemma ReadRowAppended<T>(lay: Layout, memory: seq<T>, t: nat, b: nat, r: nat, n: nat, out: seq<T>, row: seq<T>)
    requires Valid(lay) && |memory| == 2 * lay.half && b < lay.blocks && r < lay.rows
    requires n == (t * lay.blocks + b) * lay.rows
    requires out == Flatten(ReadRows(lay, memory, n + r)) && row == RowAt(lay, memory, t, b, r)
    ensures out + row == Flatten(ReadRows(lay, memory, n + r + 1))
  {
    ReadRowOf(lay, memory, t, b, r, n + r);
    ReadRowsNext(lay, memory, n + r);
  }

  lemma ReadRowsNext<T>(lay: Layout, memory: seq<T>, k: nat)
    requires Valid(lay) && |memory| == 2 * lay.half
    ensures Flatten(ReadRows(lay, memory, k + 1)) == Flatten(ReadRows(lay, memory, k)) + ReadRow(lay, memory, k)
  {
    assert ReadRows(lay, memory, k + 1) == ReadRows(lay, memory, k) + [ReadRow(lay, memory, k)];
    FlattenSnoc(ReadRows(lay, memory, k), ReadRow(lay, memory, k));
  }

  /** The rows of a stream built row by row take the space Offset gives
      them. */
  lemma {:induction false} FlattenLength<T>(lay: Layout, memory: seq<T>, count: nat)
    requires Valid(lay) && |memory| == 2 * lay.half
    ensures |Flatten(ReadRows(lay, memory, count))| == Offset(RowWidth(ReadShape(lay)), count)
  {
    if count > 0 {
      FlattenLength(lay, memory, count - 1);
      ReadRowsNext(lay, memory, count - 1);
    }
  }

  /** Per fold Read forwards rows * (2 * (width + halo) + (blocks - 2) *
      (width + 2 * halo)) words: kTotalInputMemory, the count DemuxRead
      and Demux loop over. */
  lemma ReadLength<T>(lay: Layout, memory: seq<T>, folds: nat)
    requires Valid(lay) && |memory| == 2 * lay.half
    ensures RowWalk.Valid(ReadShape(lay))
    ensures |Flatten(ReadRows(lay, memory, TotalRows(ReadShape(lay), folds)))|
      == folds * (lay.rows * (2 * (lay.width + lay.halo) + (lay.blocks - 2) * (lay.width + 2 * lay.halo)))
  {
    FlattenLength(lay, memory, TotalRows(ReadShape(lay), folds));
    FoldsLength(ReadShape(lay), folds);
  }

  /** A fold reads the half the previous fold wrote, never the half it
      writes itself. */
  lemma HalvesAlternate(lay: Layout, t: nat)
    requires lay.half > 0
    ensures ReadHalf(lay, t) != WriteHalf(lay, t)
    ensures ReadHalf(lay, t + 1) == WriteHalf(lay, t)
  {
  }

  /** src/Stencil.cpp computes the read half as (t % 2) * (kWriteSize / 2)
      and the write half as ((t + 1) % 2) * (kWriteSize / 2). */
  lemma StencilHalves(lay: Layout, t: nat)
    ensures ReadHalf(lay, t) == (t % 2) * lay.half
    ensures WriteHalf(lay, t) == ((t + 1) % 2) * lay.half
  {
  }

  // --------------------------------------------------------------- Demux

  /** The two spellings of the row-end test: DemuxRead (kernel/Memory.cpp)
      tests the interior width only for interior blocks, Demux
      (src/Stencil.cpp) tests it for every block. */
  datatype RowEndTest = MemoryTest | StencilTest

  function LastColStencil(s: Shape, b: nat, c: nat): bool
  {
    ((b == 0 || b == s.blocks - 1) && c == s.edge - 1) || c == s.inner - 1
  }

  function IsLastCol(test: RowEndTest, s: Shape, b: nat, c: nat): bool
  {
    match test
    case MemoryTest => LastCol(s, b, c)
    case StencilTest => LastColStencil(s, b, c)
  }

  /** Both tests end a row exactly at its last column: an edge row never
      reaches column inner - 1 unless it ends there anyway. */
  lemma RowEndTestsAgree(test: RowEndTest, s: Shape, b: nat, c: nat)
    requires RowWalk.Valid(s) && s.edge <= s.inner && b < s.blocks && c < Width(s, b)
    ensures IsLastCol(test, s, b, c) <==> c == Width(s, b) - 1
  {
  }

  /** The Demux state after the first n rows and c words of row n: the
      output holds exactly those words, and each bank has given up the
      words of its rows among them. */
  ghost predicate Demuxed<T>(rows: seq<seq<T>>, out: seq<T>, p0: nat, p1: nat, n: nat, c: nat)
  {
    n <= |rows| && (n == |rows| ==> c == 0) && (n < |rows| ==> c < |rows[n]|)
    && out == Flatten(rows[..n]) + (if n < |rows| then rows[n][..c] else [])
    && p0 == |Flatten(Evens(rows)[..(n + 1) / 2])| + (if n % 2 == 0 then c else 0)
    && p1 == |Flatten(Odds(rows)[..n / 2])| + (if n % 2 == 1 then c else 0)
  }

  /** The next word of row n is the next word of bank n % 2. */
  lemma DemuxPop<T>(rows: seq<seq<T>>, out: seq<T>, p0: nat, p1: nat, n: nat, c: nat)
    requires Demuxed(rows, out, p0, p1, n, c) && n < |rows|
    ensures n % 2 == 0 ==> p0 < |Flatten(Evens(rows))| && Flatten(Evens(rows))[p0] == rows[n][c]
    ensures n % 2 == 1 ==> p1 < |Flatten(Odds(rows))| && Flatten(Odds(rows))[p1] == rows[n][c]
  {
    var h := Halve(n);
    if n % 2 == 0 {
      assert Evens(rows)[h] == rows[n];
      FlattenIndex(Evens(rows), h, c);
    } else {
      assert Odds(rows)[h] == rows[n];
      FlattenIndex(Odds(rows), h, c);
    }
  }

  /** Row n is row n / 2 of its bank, whose rows before it are the
      (n + 1) / 2 even rows or the n / 2 odd rows before n. */
  lemma Halve(n: nat) returns (h: nat)
    ensures h == n / 2
    ensures n % 2 == 0 ==> 2 * h == n && (n + 1) / 2 == h
    ensures n % 2 == 1 ==> 2 * h + 1 == n
  {
    h := n / 2;
  }

  /** Passing word c of row n on moves to word c + 1, or to the start of
      row n + 1 after the last word of the row; the bank of the row gives
      up one word. */
  lemma DemuxAdvance<T>(rows: seq<seq<T>>, out: seq<T>, p0: nat, p1: nat, n: nat, c: nat,
                        out': seq<T>, p0': nat, p1': nat, n': nat, c': nat)
    requires Demuxed(rows, out, p0, p1, n, c) && n < |rows|
    requires n + 1 < |rows| ==> |rows[n + 1]| > 0
    requires out' == out + [rows[n][c]]
    requires p0' == p0 + (if n % 2 == 0 then 1 else 0) && p1' == p1 + (if n % 2 == 1 then 1 else 0)
    requires if c == |rows[n]| - 1 then n' == n + 1 && c' == 0 else n' == n && c' == c + 1
    ensures Demuxed(rows, out', p0', p1', n', c')
  {
    if c == |rows[n]| - 1 {
      DemuxNextRow(rows, out, p0, p1, n, c);
    } else {
      assert rows[n][..c] + [rows[n][c]] == rows[n][..c + 1];
    }
  }

  /** Passing the last word of row n on moves to the start of row n + 1. */
  lemma DemuxNextRow<T>(rows: seq<seq<T>>, out: seq<T>, p0: nat, p1: nat, n: nat, c: nat)
    requires Demuxed(rows, out, p0, p1, n, c) && n < |rows| && c == |rows[n]| - 1
    requires n + 1 < |rows| ==> |rows[n + 1]| > 0
    ensures Demuxed(rows, out + [rows[n][c]], p0 + (if n % 2 == 0 then 1 else 0), p1 + (if n % 2 == 1 then 1 else 0), n + 1, 0)
  {
    assert rows[n][..c] + [rows[n][c]] == rows[n];
    FlattenNext(rows, n);
    BanksNextRow(rows, n);
  }

  /** After row n both banks have given up the words of the rows before
      n + 1 of their parity. */
  lemma BanksNextRow<T>(rows: seq<seq<T>>, n: nat)
    requires n < |rows|
    ensures n % 2 == 0 ==> |Flatten(Evens(rows)[..(n + 2) / 2])| == |Flatten(Evens(rows)[..(n + 1) / 2])| + |rows[n]|
    ensures n % 2 == 0 ==> (n + 1) / 2 == n / 2
    ensures n % 2 == 1 ==> |Flatten(Odds(rows)[..(n + 1) / 2])| == |Flatten(Odds(rows)[..n / 2])| + |rows[n]|
    ensures n % 2 == 1 ==> (n + 2) / 2 == (n + 1) / 2
  {
    if n % 2 == 0 {
      assert Evens(rows)[n / 2] == rows[n];
      assert (n + 2) / 2 == n / 2 + 1 && (n + 1) / 2 == n / 2;
      FlattenNext(Evens(rows), n / 2);
    } else {
      assert Odds(rows)[n / 2] == rows[n];
      assert (n + 1) / 2 == n / 2 + 1;
      FlattenNext(Odds(rows), n / 2);
    }
  }

  /** DemuxRead (kernel/Memory.cpp) and Demux (src/Stencil.cpp): the rows
      of the grid arrive split across two banks, the even-numbered rows in
      bank0 and the odd-numbered ones in bank1 (every block has an even
      number of rows, so a row's parity inside its block is that of its
      global index); one flattened loop of PerFold steps per fold pops a
      word from the bank of the current row and pushes it, then advances
      the column, row and block counters.  The output is the rows in
      order. */
  method Demux<T>(s: Shape, test: RowEndTest, folds: nat, bank0: seq<T>, bank1: seq<T>, ghost rows: seq<seq<T>>)
    returns (out: seq<T>)
    requires RowWalk.Valid(s) && s.edge <= s.inner && s.rows % 2 == 0
    requires |rows| == TotalRows(s, folds)
    requires forall n | 0 <= n < |rows| :: |rows[n]| == RowWidth(s)(n)
    requires bank0 == Flatten(Evens(rows)) && bank1 == Flatten(Odds(rows))
    ensures out == Flatten(rows)
  {
    var b: nat, r: nat, c: nat := 0, 0, 0;
    var p0: nat, p1: nat := 0, 0;
    ghost var n: nat := 0;
    out := [];
    var t: nat := 0;
    FoldStart(s.rows, s.blocks, 0);
    assert 0 * s.blocks * s.rows == 0;
    while t < folds
      invariant 0 <= t <= folds
      invariant At(s, Elements(s, t), n, c) && Counters(s, n, b, r)
      invariant Demuxed(rows, out, p0, p1, n, c)
    {
      ElementsStep(s, t, folds);
      b, r, c, p0, p1, out, n := DemuxFold(s, test, folds, t, bank0, bank1, rows, b, r, c, p0, p1, out, n);
      t := t + 1;
    }
    FoldsEnd(s, folds, n, c);
    assert rows[..n] == rows;
  }

  /** The flattened loop of one fold of Demux, from the state (b, r, c,
      p0, p1, out) it left the previous fold in. */
  method DemuxFold<T>(s: Shape, test: RowEndTest, folds: nat, t: nat, bank0: seq<T>, bank1: seq<T>, ghost rows: seq<seq<T>>,
                      b0: nat, r0: nat, c0: nat, q0: nat, q1: nat, out0: seq<T>, ghost n0: nat)
    returns (b: nat, r: nat, c: nat, p0: nat, p1: nat, out: seq<T>, ghost n: nat)
    requires RowWalk.Valid(s) && s.edge <= s.inner && s.rows % 2 == 0 && t < folds
    requires |rows| == TotalRows(s, folds)
    requires forall n | 0 <= n < |rows| :: |rows[n]| == RowWidth(s)(n)
    requires bank0 == Flatten(Evens(rows)) && bank1 == Flatten(Odds(rows))
    requires At(s, Elements(s, t), n0, c0) && Counters(s, n0, b0, r0)
    requires Demuxed(rows, out0, q0, q1, n0, c0)
    ensures At(s, Elements(s, t + 1), n, c) && Counters(s, n, b, r)
    ensures Demuxed(rows, out, p0, p1, n, c)
  {
    ElementsStep(s, t, folds);
    b, r, c, p0, p1, out, n := b0, r0, c0, q0, q1, out0, n0;
    var i := 0;
    ghost var e := Elements(s, t);
    while i < PerFold(s)
      invariant 0 <= i <= PerFold(s) && e == Elements(s, t) + i
      invariant At(s, e, n, c) && Counters(s, n, b, r)
      invariant Demuxed(rows, out, p0, p1, n, c)
    {
      InsideFolds(s, folds, e, n, c);
      RowParity(s.rows, n);
      DemuxPop(rows, out, p0, p1, n, c);
      RowEndTestsAgree(test, s, b, c);
      assert |rows[n]| == Width(s, b);
      assert n + 1 < |rows| ==> |rows[n + 1]| > 0 by {
        if n + 1 < |rows| {
          assert |rows[n + 1]| == RowWidth(s)(n + 1);
        }
      }
      ghost var nBefore, bBefore, rBefore, cBefore, outBefore, p0Before, p1Before := n, b, r, c, out, p0, p1;
      var read;
      if r % 2 == 0 {
        read := bank0[p0];
        p0 := p0 + 1;
      } else {
        read := bank1[p1];
        p1 := p1 + 1;
      }
      out := out + [read];
      var lastCol := IsLastCol(test, s, b, c);
      b, r, c := Carry(s, lastCol, b, r, c);
      if lastCol {
        n := n + 1;
      }
      WalkStep(s, e, nBefore, cBefore, bBefore, rBefore, lastCol, n, b, r, c);
      e := e + 1;
      DemuxAdvance(rows, outBefore, p0Before, p1Before, nBefore, cBefore, out, p0, p1, n, c);
      i := i + 1;
    }
  }
}
