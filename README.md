# Verified model of the stencil_hls Jacobi pipeline

This project models the streaming pipeline of stencil_hls, a high-level
synthesis accelerator for the two-dimensional four-point Jacobi stencil.
The grid lives in a doubled ("ping-pong") off-chip buffer. Each folded
timestep streams it out of one half, through `Depth` chained compute stages
(so `Depth` timesteps are applied in one pass), and back into the other half.

The model covers the pipeline's pieces, one module each:

- `Streams` (stream.dfy): the bounded FIFO channel of `hlslib/Stream.h`. It
  is a class over a `seq` queue with optimistic, blocking and query
  operations, move, swap and the leak report at destruction.
- `DataPacks` (datapack.dfy): the SIMD lane container of
  `include/hlslib/DataPack.h`, a class over a sequence of lanes. It covers
  Get, Set, Fill, Pack, Unpack, ShiftTo and the operator[] proxy, and how
  the compute stage assembles its west and east vectors from ShiftTo.
- `Schedule` and `RowWalk` (schedule.dfy, walk.dfy): the (t, b, r, c)
  counters that every stage carries. A row is numbered globally, and the
  halo-dependent row widths are laid end to end.
- `MemoryStages` (memory.dfy): the read side. It covers Read and Demux of
  `src/Stencil.cpp`, Read of `src/Memory.cpp`, and ReadSplit and DemuxRead
  of `kernel/Memory.cpp`: halo-shifted addressing, the halo filter, the read
  half of each fold and the row-parity bank merge.
- `WidthConversion` (widen.dfy): Widen and Narrow of both memory builds.
  Widen's memIndex/readNext state machine is proved to push the kernel
  vectors of every row in order, and Narrow to pack them back into words.
- `MemoryWrite` (write.dfy): Mux and Write of `src/Stencil.cpp`, Write of
  `src/Memory.cpp`, and MuxWrite and WriteSplit of `kernel/Memory.cpp`. It
  covers the row-parity bank split, the write half opposite the read half,
  and the store of every non-halo cell.
- `StageGeometry` (geometry.dfy): the compile-time geometry of compute stage
  s. This covers the input width, the halo, the inner block, the shrink
  rule and the output range, and how each stage's output feeds the next
  stage's input.
- `StencilStage` (stage.dfy): what a compute stage pushes, as a function of
  the rows it receives (StageOutput).
- `StageStep` (step.dfy): one steady iteration that both builds share. It
  covers the boundary read, the counters, the shift registers, the SIMD
  update and the emission filter.
- `ComputeFifo` (compute.dfy): Compute of `src/Stencil.cpp`, with FIFO line
  buffers. It is proved to push exactly StageOutput, with no optimistic line
  buffer operation ever failing and both line buffers empty at the end.
- `ComputeArray` (compute_array.dfy): Compute of `kernel/Stencil.cpp`, with
  array line buffers, with the saturation slot corrected to i + 1 (see ## Findings).
  It is proved to push the same StageOutput, with every array access in
  bounds.
- `Accumulate` (accumulate.dfy): the streaming reductions of
  `include/hlslib/Accumulate.h`. For a commutative monoid, the three-process
  Iterate/Feedback/Reduce pipeline is proved to output what AccumulateSimple
  outputs.
- `Reference` (reference.dfy): the plain Jacobi reference of
  `src/Reference.cpp`, over `real`.
- `StageJacobi` (jacobi.dfy): one compute stage against the reference.
  A stage is fed, for each block, the grid's rows with their halo, and its
  boundary value is the reference's 1. Every vector it pushes at a column
  of the block itself is then, lane by lane, the reference's next value of
  that grid cell.
- `ArgParse` (argparse.dfy): the `-key=value` argument parser of
  `analysis/_parse_arguments.py`.
- `Wrappers` (wrappers.dfy): Option and Result.

Constants from headers that are not part of this model are parameters of the
datatypes `Stage`, `Layout`, `Shape` and `Widening`. These include
`include/Stencil.h` (kBlockWidthMemory, kHaloMemory, kKernelPerMemory,
kAlignmentGap, kCols and the write sizes) and `hlslib::CeilDivide` of
`hlslib/xilinx/Utility.h`. The assumptions stated in `include/Kernel.h`
and `kernel/Memory.cpp` become `Valid` predicates: at least two blocks,
an even number of folded timesteps where the final half matters, and a
row count divisible by the number of banks. CeilDivide is taken to be
ceiling division.

Four facts about the code shape the model:

- In both compute builds the emission test (`src/Stencil.cpp:222`,
  `kernel/Stencil.cpp:148`) already requires `inBounds`. The branch inside
  it that pushes the boundary constant (`src/Stencil.cpp:226-227`,
  `kernel/Stencil.cpp:152-153`) can therefore never be taken, and an
  out-of-bounds position is never pushed.
- The simulation build keeps its line buffers in channels
  (`src/Stencil.cpp:104-105`). The hardware build keeps them in arrays of
  kLineWidth slots (`kernel/Stencil.cpp:33-35`). Both are modelled.
- `include/Kernel.h:24` rejects configurations with fewer than two blocks,
  so `Stage` and `Layout` require at least two.
- `include/Reference.h:10-11` declares a two-argument `Reference` that is
  never defined. `src/Reference.cpp:7-10` defines a one-argument one that
  takes the timestep count from the constant kTimeTotal. `Reference.Jacobi`
  takes the step count as a parameter.

## Model

| member | source | states |
|---|---|---|
| Streams.Message | hlslib/Stream.h:177-218 | the error text is the stream's name followed by ": read while empty." or ": written while full." |
| Streams.Stream.constructor | hlslib/Stream.h:135 | a named stream starts empty with the given name |
| Streams.Stream.Unnamed | hlslib/Stream.h:129 | a default stream starts empty and is named "(unnamed)" |
| Streams.Stream.Move | hlslib/Stream.h:131-140 | move construction takes over the queue and the name and leaves the source empty and "(unnamed)" |
| Streams.Stream.IsEmpty | hlslib/Stream.h:220-223 | empty exactly when the queue holds no element |
| Streams.Stream.IsFull | hlslib/Stream.h:225-228 | full exactly when the queue holds the given bound, equality and not at-least |
| Streams.Stream.Size | hlslib/Stream.h:230-232 | the number of queued elements |
| Streams.Stream.LeakAtDestruction | hlslib/Stream.h:147-152 | a report (name, leftover count) exactly when the queue is non-empty at destruction |
| Streams.Stream.ReadOptimistic | hlslib/Stream.h:177-186 | fails with "read while empty" exactly on an empty queue and leaves it unchanged; otherwise returns the oldest element and removes exactly it |
| Streams.Stream.ReadBlocking | hlslib/Stream.h:154-175 | on a non-empty queue returns the oldest element and removes exactly it |
| Streams.Stream.WriteOptimistic | hlslib/Stream.h:211-218 | fails with "written while full" exactly when the queue holds the bound and leaves it unchanged; otherwise appends at the back |
| Streams.Stream.WriteBlocking | hlslib/Stream.h:188-209 | when the queue does not hold the bound, appends at the back |
| Streams.Swap | hlslib/Stream.h:137-140 | exchanges both the contents and the names of two streams |
| Streams.TransferInOrder | hlslib/Stream.h:171-172 | what a producer writes and a consumer then drains with optimistic reads comes out unchanged and in order, and nothing is left for the destructor to report |
| DataPacks.DataPack.constructor | include/hlslib/DataPack.h:78-80 | a default pack has `width` lanes, all holding the zero value |
| DataPacks.DataPack.FromValue | include/hlslib/DataPack.h:82-85 | construction from one value leaves every lane holding that value |
| DataPacks.DataPack.FromArray | include/hlslib/DataPack.h:87-90 | construction from an array leaves lane i holding element i |
| DataPacks.DataPack.Get | include/hlslib/DataPack.h:96-100 | reads exactly lane i |
| DataPacks.DataPack.Set | include/hlslib/DataPack.h:102-106 | lane i becomes the value and every other lane is unchanged |
| DataPacks.DataPack.Fill | include/hlslib/DataPack.h:113-119 | afterwards every lane holds the value |
| DataPacks.DataPack.Pack | include/hlslib/DataPack.h:129-136 | afterwards the lanes equal the array, element for element |
| DataPacks.DataPack.Unpack | include/hlslib/DataPack.h:138-145 | afterwards the array equals the lanes and the pack is unchanged |
| DataPacks.DataPack.At | include/hlslib/DataPack.h:162-165 | the writable operator[] yields a proxy bound to this pack and lane i |
| DataPacks.DataPack.ShiftTo | include/hlslib/DataPack.h:169-179 | lanes dst..dst+count-1 of the other pack receive lanes src..src+count-1 of this one; all other lanes of the other pack, and this pack, are unchanged |
| DataPacks.Proxy.constructor | include/hlslib/DataPack.h:43-46 | the proxy refers to the given pack and index |
| DataPacks.Proxy.Value | include/hlslib/DataPack.h:57-60 | reading through the proxy reads lane `index` of its pack |
| DataPacks.Proxy.Assign | include/hlslib/DataPack.h:48-51 | assigning through the proxy sets exactly lane `index` of its pack |
| DataPacks.Proxy.AssignFrom | include/hlslib/DataPack.h:52-56 | proxy-to-proxy assignment copies the other proxy's lane (as it was before) into this proxy's lane and nothing else |
| DataPacks.SetThenGet | include/hlslib/DataPack.h:96-106 | Get after Set returns the written value on the same lane and the old value on any other lane |
| DataPacks.PackUnpack | include/hlslib/DataPack.h:129-145 | Unpack after Pack returns the packed array unchanged |
| DataPacks.WestOf | kernel/Stencil.cpp:99-108 | lane 0 of the west vector is the west neighbour register and lane w > 0 is centre lane w-1 |
| DataPacks.EastOf | kernel/Stencil.cpp:99-105 | lane w < W-1 of the east vector is centre lane w+1 and the last lane is lane 0 of the next centre vector |
| DataPacks.AssembleWestEast | kernel/Stencil.cpp:99-108 | the two ShiftTo calls plus the two proxy assignments build exactly WestOf and EastOf |
| Schedule.CeilDiv | src/Stencil.cpp:81-82 | the quotient is the least q with q * b >= a, the behaviour the stage geometry assumes of hlslib::CeilDivide |
| Schedule.Compose | src/Stencil.cpp:115-125 | the (t, b, r) counters of the flat loops are recovered uniquely from the global row index (t * B + b) * R + r |
| Schedule.NextRow | src/Stencil.cpp:250-265 | after the last column, the row advances; it wraps to 0 with a block increment after the last row, and the block wraps to 0 with a fold increment after the last block |
| Schedule.FoldStart | kernel/Stencil.cpp:169-185 | the first row of fold t is row 0 of block 0, so after T folds the counters stand at (T, 0, 0) |
| RowWalk.Carry | kernel/Memory.cpp:63-78 | the (b, r, c) update of the flattened loops: column + 1 inside a row; after the last column, column 0 and the next row, wrapping into the next block and back to block 0 |
| RowWalk.WalkStep | kernel/Memory.cpp:59-78 | stepping the counters with the halo-dependent row end moves from stream position e (column c of row n) to position e + 1, so the flattened loop visits the rows' elements in stream order |
| RowWalk.LastColIsRowEnd | kernel/Memory.cpp:59-62 | the lastCol test holds exactly at the last column of a row: W + H - 1 for the first and last block, W + 2H - 1 for interior blocks |
| RowWalk.FoldsLength | include/Kernel.h:16-17 | T folds of R rows per block hold T * R * (2 * edge + (B - 2) * inner) elements, the per-fold read size times T |
| RowWalk.FoldsEnd | src/Stencil.cpp:40-74 | at the end of every fold the persistent counters are back at column 0, row 0, block 0 |
| RowWalk.RowParity | kernel/Memory.cpp:9 | with an even row count per block, the parity of a row inside its block is the parity of its global row index, so the bank split can be stated on global rows |
| MemoryStages.WindowInRow | kernel/Memory.cpp:23-27 | the halo-shifted read window of block b never leaves its grid row |
| MemoryStages.ReadIndexInRange | kernel/Memory.cpp:26-29 | every address Read loads lies in [0, 2 * half), the range the source asserts |
| MemoryStages.ForwardedColumns | kernel/Memory.cpp:23-34 | the halo filter passes exactly the consecutive columns first .. first + width - 1 of the window, W + H for the first and last block and W + 2H for interior ones, and their addresses are consecutive from column b * W - leftHalo of the row |
| MemoryStages.RowInRange | src/Memory.cpp:18-21 | the forwarded words of a row lie inside the memory and inside their own grid row |
| MemoryStages.ReadRowIsGridWindow | kernel/Memory.cpp:22-30 | word k of what Read forwards for row r of block b in fold t is the memory word at readHalf(t) + r * stride + b * W - leftHalo(b) + k |
| MemoryStages.ReadWindow | kernel/Memory.cpp:19-35 | the columns loop pushes exactly the forwarded words of the row, in column order |
| MemoryStages.ReadBlock | kernel/Memory.cpp:17-36 | the rows loop of block b appends exactly that block's rows, in row order |
| MemoryStages.Read | kernel/Memory.cpp:7-39 | the output is the forwarded rows of every fold, block and row, concatenated in loop order |
| MemoryStages.ReadLength | include/Kernel.h:16-17 | Read pushes rows * (2 * (W + H) + (B - 2) * (W + 2H)) words per fold |
| MemoryStages.HalvesAlternate | src/Memory.cpp:14-119 | in every fold the read half differs from the write half, and the next fold reads the half this one writes |
| MemoryStages.StencilHalves | src/Stencil.cpp:20-22 | the half-offset spellings (t % 2) * (kWriteSize / 2) for Read and ((t + 1) % 2) * (kWriteSize / 2) for Write select the same halves |
| MemoryStages.RowEndTestsAgree | src/Stencil.cpp:57-58 | Demux's row-end test and DemuxRead's both hold exactly at the last column of the row |
| MemoryStages.DemuxPop | kernel/Memory.cpp:54-58 | the word popped for column c of row n is the next unread word of bank0 on even rows and of bank1 on odd rows, and it is word c of row n |
| MemoryStages.DemuxAdvance | kernel/Memory.cpp:54-78 | one pop-push-carry step keeps the invariant: the output holds the rows so far in order, and each bank has given up exactly its share of them |
| MemoryStages.DemuxFold | kernel/Memory.cpp:51-79 | one fold of the flattened loop moves the counters from the first to the last position of the fold and pushes the fold's rows in order |
| MemoryStages.Demux | kernel/Memory.cpp:42-81 | with even rows in bank0 and odd rows in bank1, one push per pop gives back every row of the grid in order |
| WidthConversion.FlattenUniform | kernel/Memory.cpp:103 | in a run of words of perWord lanes, vector k is lane k % perWord of word k / perWord |
| WidthConversion.RowWordsSuffice | kernel/Memory.cpp:99-132 | the words popped for a row hold its gap and all of its vectors |
| WidthConversion.WidenPop | kernel/Memory.cpp:99-101 | whenever readNext is set, the word popped is the word that holds the next vector of the row |
| WidthConversion.WidenElem | kernel/Memory.cpp:103-104 | lane memIndex of the current word is the row's next vector |
| WidthConversion.WidenNextCol | kernel/Memory.cpp:128-132 | inside a row memIndex steps on by one and wraps to 0 after the last lane, and readNext is set exactly on that wrap |
| WidthConversion.WidenNextRow | kernel/Memory.cpp:114-117 | at a row end readNext is set and memIndex restarts at the gap of the next row's block |
| WidthConversion.NextAlignedIsBlockZero | kernel/Memory.cpp:110-111 | nextAligned holds exactly when the next row belongs to block 0, so memIndex resets to 0 there and to kAlignmentGap otherwise |
| WidthConversion.WidenAdvance | kernel/Memory.cpp:99-132 | one iteration keeps the invariant: the output holds the vectors so far in row order and the popped count matches the words they need |
| WidthConversion.WidenFold | kernel/Memory.cpp:95-133 | one fold of the flattened loop pushes the fold's rows of vectors in order |
| WidthConversion.Widen | kernel/Memory.cpp:84-135 | one vector is pushed per iteration; the output is the rows of vectors the words hold, gaps skipped, and every input word is popped exactly once |
| WidthConversion.AlignedBlock | src/Memory.cpp:54-64 | with the halo rounded up to whole words and the gap as the surplus, Widen pops for each row exactly the words Read forwards, starting at kernel column b * W * perWord - haloK |
| WidthConversion.ReadGivesWordRows | src/Memory.cpp:3-82 | the rows Read forwards have the word counts Widen pops for them |
| WidthConversion.KernelRowAt | src/Memory.cpp:14-22 | kernel column x of grid row r in the half fold t reads is lane x % perWord of word x / perWord of that row |
| WidthConversion.ReadThenWidenVector | src/Memory.cpp:3-82 | vector k of row n after Read and Widen is kernel column KernelStart(b) + k of grid row r: a block's rows are its own columns plus the halo it needs, nothing more |
| WidthConversion.WidenOfReadWord | src/Memory.cpp:3-82 | vector k of row n after Read and Widen is lane Lane(n, k) of a memory word inside grid row r of the half fold t reads |
| WidthConversion.ChunksAt | kernel/Memory.cpp:203-208 | word i that Narrow pushes for a row holds the row's vectors i * perWord .. (i + 1) * perWord - 1, in arrival order |
| WidthConversion.ChunksCount | kernel/Memory.cpp:199-208 | a row of widthK vectors yields widthK / perWord words; the vectors after the last full word are never pushed |
| WidthConversion.FlattenChunks | kernel/Memory.cpp:203-208 | when perWord divides the row width, the pushed words unpacked in order give back the row |
| WidthConversion.ChunksFlatten | src/Memory.cpp:96-101 | packing the lanes of a sequence of full words gives back those words, so Narrow inverts Widen's unpacking |
| WidthConversion.NarrowedLossless | src/Memory.cpp:84-106 | when perWord divides the row width, Narrow loses no vector: its words unpacked give back the input in order |
| WidthConversion.NarrowedCount | src/Memory.cpp:84-106 | Narrow pushes rows * (widthK / perWord) words |
| WidthConversion.NarrowRow | kernel/Memory.cpp:199-209 | the column loop of a row pops widthK vectors and pushes the row's full words |
| WidthConversion.NarrowBlock | kernel/Memory.cpp:197-210 | the rows loop of a block pushes the words of its rows in order |
| WidthConversion.NarrowFold | kernel/Memory.cpp:195-211 | the blocks loop of a fold pushes the words of its rows in order |
| WidthConversion.Narrow | kernel/Memory.cpp:190-213 | the output is every row's full words in order, and every input vector is popped |
| MemoryWrite.BanksNext | kernel/Memory.cpp:177-182 | a row at an even global index extends the even bank only, and a row at an odd index the odd bank only |
| MemoryWrite.MuxedNext | kernel/Memory.cpp:177-182 | forwarding one more row appends it to bank0 when its index is even and to bank1 when odd, leaving the other bank unchanged |
| MemoryWrite.MuxedSplitsParity | kernel/Memory.cpp:165-187 | what Mux sends to the two banks is exactly the concatenated even rows and the concatenated odd rows |
| MemoryWrite.MuxRow | kernel/Memory.cpp:174-183 | the columns loop of row r pops the row's W words and appends them to bank0 on even r and to bank1 on odd r |
| MemoryWrite.MuxNextRow | src/Stencil.cpp:315-326 | one pass of the rows loop extends the bank split by the next row |
| MemoryWrite.MuxBlock | kernel/Memory.cpp:172-184 | the rows loop of a block extends the bank split by that block's rows |
| MemoryWrite.MuxFold | kernel/Memory.cpp:170-185 | the blocks loop of a fold extends the bank split by that fold's rows |
| MemoryWrite.Mux | src/Stencil.cpp:308-331 | with an even row count per block, bank0 receives exactly the even rows and bank1 exactly the odd rows, each in order |
| MemoryWrite.MuxThenDemux | src/Stencil.cpp:37-76 | Demux applied to what Mux produced returns the input unchanged: the bank split and merge are inverse |
| MemoryWrite.GridOffsetSplit | kernel/Memory.cpp:153-154 | cell r * W * B + b * W + c lies in the half, and from it the row, block and column are recovered |
| MemoryWrite.GridOffsetUnique | kernel/Memory.cpp:153-154 | distinct (row, block, column) triples are stored at distinct cells, so no cell is written twice in a fold |
| MemoryWrite.ColumnOffset | src/Memory.cpp:121-122 | every column of a grid row is column c of some block b, stored at its grid offset |
| MemoryWrite.WriteIndexInRange | kernel/Memory.cpp:151-157 | the write index, reduced modulo 2 * half, is the write half plus the grid offset, lies in [0, 2 * half) as asserted, and never falls in the half the fold reads |
| MemoryWrite.WriteBaseInHalf | src/Memory.cpp:119-123 | every row the Write loop stores lies inside the write half of its fold |
| MemoryWrite.StoreRowAt | src/Memory.cpp:116-127 | storing a row writes exactly the row's W cells and leaves every other cell unchanged |
| MemoryWrite.StoredNext | src/Memory.cpp:108-131 | storing one more row applies that row's store to what was stored before |
| MemoryWrite.StoredKeeps | src/Memory.cpp:108-131 | a cell no later row covers keeps the value it had |
| MemoryWrite.StoredLast | src/Memory.cpp:108-131 | a cell holds the value of the last row that covers it |
| MemoryWrite.FoldKeepsReadHalf | kernel/Memory.cpp:151 | the writes of fold t never touch the half fold t reads |
| MemoryWrite.WriteFoldResult | src/Memory.cpp:119-126 | after fold t, cell (r, b, c) of its write half holds column c of the row for block b, row r of fold t |
| MemoryWrite.WriteFinalGrid | src/Testbench.cpp:10 | with an even number of folds the last fold's grid lies in half 0, the offset the testbench reads |
| MemoryWrite.BankRows | src/Stencil.cpp:339-346 | row r of a bank's block is row 2r (bank0) or 2r + 1 (bank1) of the block, the rows Write stores at r * kCols |
| MemoryWrite.WriteRow | kernel/Memory.cpp:148-159 | the columns loop pops the row's W words and writes each to its index, storing exactly the row |
| MemoryWrite.WriteNextRow | src/Memory.cpp:114-128 | one pass of the rows loop stores the next row on top of what was stored |
| MemoryWrite.WriteBlock | kernel/Memory.cpp:146-160 | the rows loop of a block stores that block's rows |
| MemoryWrite.WriteFold | kernel/Memory.cpp:144-161 | the blocks loop of a fold stores that fold's rows |
| MemoryWrite.Write | kernel/Memory.cpp:137-163 | the array afterwards is the old contents with every input row stored at its place in its fold's write half, later folds overriding earlier ones |
| MemoryWrite.ReadAfterWrite | src/Memory.cpp:14-19 | what fold t + 1's Read forwards for row r of block b is the grid fold t wrote, columns b * W - leftHalo onward: the next fold reads back the halo-extended block |
| StageGeometry.Next | src/Stencil.cpp:278-279 | the stage after a valid stage that is not the last is again valid |
| StageGeometry.InShape | kernel/Stencil.cpp:11-12 | the rows a stage receives form a valid row shape: width + Halo vectors in edge blocks, width + 2 * Halo in interior ones |
| StageGeometry.InnerSpan | kernel/Stencil.cpp:11-19 | every stage has a halo of at least one vector, boundary_width equals it, and [inner_begin, inner_end) spans exactly the block width |
| StageGeometry.CeilDivStep | kernel/Stencil.cpp:22-23 | ceil(m / k) exceeds ceil((m - 1) / k) by one exactly when (k + m - 1) % k == 0, and equals it otherwise |
| StageGeometry.ShrinkRule | kernel/Stencil.cpp:22-23 | shrink_output holds exactly when the next stage's halo is one vector smaller than this stage's |
| StageGeometry.OutputWidth | kernel/Stencil.cpp:27-28 | output_end - output_begin is the next stage's input_width, and the block width after the last stage (what Narrow consumes); the output window contains the inner block |
| StageGeometry.ShapesChain | src/Stencil.cpp:81-99 | the rows a stage forwards have exactly the shape the next stage receives, and the last stage forwards width vectors per row in every block |
| StageGeometry.FitsLine | kernel/Stencil.cpp:30-35 | input_width <= kLineWidth for every stage, so a row fits the line buffers |
| StencilStage.InBoundsWindow | kernel/Stencil.cpp:61-62 | the inBounds columns of a row of block b are one contiguous window, exactly as wide as the row's input vectors, and it fits in input_width |
| StencilStage.BoundaryRead | kernel/Stencil.cpp:83-86 | the four-way boundary disjunction on row n's counters holds exactly when column c of the next row is out of bounds |
| StencilStage.InBeforeWindow | kernel/Stencil.cpp:83-90 | the input vectors a row of block b has delivered before column c: none before its window, one per window column, all after it |
| StencilStage.ReadAt | kernel/Stencil.cpp:83-90 | at an in-bounds column the vector popped is the next unread input vector and it is the centre vector there; out of bounds nothing is popped and the centre is the boundary vector |
| StencilStage.RowConsumed | src/Stencil.cpp:158-175 | a finished row has popped all of its input vectors and nothing of the next row |
| StencilStage.PosNext | kernel/Stencil.cpp:169-185 | the column/row carry moves one flat position on, and one row on is input_width positions on |
| StencilStage.Draining | kernel/Stencil.cpp:59-60 | isDraining holds exactly on the last row from column 1 on, where the vector that would be read belongs to no row |
| StencilStage.EmitWindow | kernel/Stencil.cpp:148 | the emission test selects one contiguous window per row, as wide as a row of that block in the shape the next stage receives |
| StencilStage.RowOutputNext | kernel/Stencil.cpp:147-155 | a row starts with nothing pushed, and each column adds its result exactly when the emission test holds there |
| StencilStage.RowOutputWindow | src/Stencil.cpp:222-229 | a row pushes the results at the columns of its window before c, one per column, in column order |
| StencilStage.RowOutputComplete | src/Stencil.cpp:222-229 | every pushed row is its block's window of results and is as wide as a row of that block in the next stage's shape |
| StencilStage.OutputFeedsNext | src/Stencil.cpp:272-280 | what a stage pushes, cut into rows, is shaped as the next stage's input; after the last stage every row is the block width |
| StencilStage.WestLanes | kernel/Stencil.cpp:99-108 | lane w of the west vector is the lane just before lane w of the centre in the flat lane stream, across vector borders through shiftWest |
| StencilStage.EastLanes | kernel/Stencil.cpp:99-105 | lane w of the east vector is the lane just after lane w of the centre in the flat lane stream, across vector borders through nextCenter |
| StencilStage.UpdateLanes | kernel/Stencil.cpp:126-145 | lane w of the result is 0.25 * (north + west + east + south) with west and east the neighbouring lanes of the flat lane stream, the four-point Jacobi stencil |
| StencilStage.LastRow | kernel/Stencil.cpp:169-185 | the last row walked is the last row of the last block, and the counters then wrap to block 0, row 0 |
| StencilStage.ComputeSimd | kernel/Stencil.cpp:126-145 | the lane loop yields, lane by lane, a quarter of the sum of the four neighbour lanes |
| StageStep.DrainRow | kernel/Stencil.cpp:59-60 | draining iterations lie on the last row of the walk, from column 1 on, and that row is the last of its block |
| StageStep.ReadStep | kernel/Stencil.cpp:79-91 | in a non-draining steady iteration the DNF test selects the boundary exactly when the centre vector of the next row at column c is the boundary, and otherwise the next unread input vector is that centre vector |
| StageStep.CountersStep | kernel/Stencil.cpp:169-185 | after the carry the (b, r) counters are those of the global row of the next position |
| StageStep.RegistersStep | kernel/Stencil.cpp:121-123 | shiftCenter takes the centre vector of the next position, and shiftWest its west lane |
| StageStep.OutRowEnd | kernel/Stencil.cpp:147-155 | at the end of a row its pushes join the finished rows |
| StageStep.NextProgress | kernel/Stencil.cpp:78-185 | one steady iteration, apart from the line buffers, carries the stage's progress (counters, unread input, shift registers, pushes) from one position to the next |
| StageStep.ReadNext | src/Stencil.cpp:158-180 | nothing is popped while draining (and that happens only on the last row of a block); otherwise the read is the centre vector of the next row at column c, popped from pipeIn exactly when it is not the boundary; south is the read, or the boundary on a block's last row |
| StageStep.Emit | src/Stencil.cpp:212-229 | the computed update is pushed exactly when the emission test holds |
| StageStep.Advance | src/Stencil.cpp:182-265 | west and east assembly, the register shift, the compute and push and the counter carry take the stage's progress to the next flat position |
| StageStep.FlatLengthEnd | kernel/Stencil.cpp:46-47 | T * B * R * input_width, the steady part of the loop bound, is the flat position just past the last row |
| StageStep.SaturationRead | src/Stencil.cpp:141-148 | saturation iteration i buffers column i + 1 of the first row: popped from inner_begin - 1 on, the boundary before |
| StageStep.SaturationNext | src/Stencil.cpp:141-147 | saturation iteration i reads the centre vector at column i + 1 of the first row and pops exactly when that is an input vector |
| StageStep.SaturationStart | kernel/Stencil.cpp:65-71 | before saturation nothing has been popped, since column 0 of the first row is halo |
| StageStep.Started | src/Stencil.cpp:115-121 | once saturation is done the steady state starts at (t, b, r, c) = 0 with boundary shift registers and nothing pushed |
| StageStep.Finished | src/Stencil.cpp:123-125 | past the last position the input is used up and the pushes are the stage's output |
| ComputeFifo.CentreStep | src/Stencil.cpp:189-201 | the centre FIFO is never empty and never holds kInputWidth vectors when an iteration runs; its front is the centre vector one column east; after the pop, pushing the read vector (or nothing while draining) gives the queue of the next iteration |
| ComputeFifo.SpanStep | src/Stencil.cpp:178-201 | a FIFO holding a span of the flat centre stream still holds a span after an optional pop and an optional push of the next element |
| ComputeFifo.NorthIndices | src/Stencil.cpp:178-179 | the north FIFO starts at the centre vector one row above; it is popped only when r > 0 and pushed only when r < kRows - 1, and its length stays below kInputWidth |
| ComputeFifo.NorthStep | src/Stencil.cpp:178-179 | on every row but the first the front of the north FIFO is the centre vector directly above; popping it and pushing the current centre (except on the last row) gives the north queue of the next iteration |
| ComputeFifo.LineBuffers | src/Stencil.cpp:177-201 | the optimistic reads and writes of both line buffers never fail; north is the vector above, nextCenter the vector one column east, and both FIFOs hold the queues of the next iteration |
| ComputeFifo.Traffic | src/Stencil.cpp:158-201 | one iteration pops the input exactly when the boundary test lets a grid vector through, and yields the north, east-neighbour and south vectors of the stencil |
| ComputeFifo.Step | src/Stencil.cpp:158-265 | one steady-state iteration preserves the stage invariant (input remainder, both FIFO queues, the shift registers and the output so far) and advances the flat position by one |
| ComputeFifo.SaturationEnd | src/Stencil.cpp:141-156 | the kInputWidth - 1 saturation iterations consume exactly the input the first steady iteration expects and leave the centre FIFO holding the stream's first kInputWidth - 1 centre vectors |
| ComputeFifo.Saturate | src/Stencil.cpp:141-156 | the saturation phase pops the input only from column kInnerBegin - 1 on and fills the centre FIFO with the queue the steady state starts from |
| ComputeFifo.SteadyStart | src/Stencil.cpp:115-121 | after saturation, the zeroed counters, the boundary-filled shift registers and the empty north FIFO satisfy the stage invariant |
| ComputeFifo.Drained | src/Stencil.cpp:123-125 | when the loop bound is reached the input and both line buffers are empty and the output is the whole stage output |
| ComputeFifo.Steady | src/Stencil.cpp:123-266 | the steady-state loop consumes all of the input, empties both line buffers and pushes exactly the stage's output stream |
| ComputeFifo.Compute | src/Stencil.cpp:78-268 | a compute stage pushes exactly the Jacobi update of the stage's input (StageOutput), consumes all of its input and leaves no vector behind in either line buffer |
| ComputeArray.CentreSlotsStep | kernel/Stencil.cpp:104-111 | slot ReadSlot(c) of centerBuffer, c + 1 or 0 on the last column, holds the centre vector one column east, and writing the read into slot c keeps the slot invariant for the next iteration |
| ComputeArray.NorthSlotsStep | kernel/Stencil.cpp:94-113 | on every row but the first, slot c of northBuffer holds the centre vector directly above, and writing the current centre into slot c keeps the invariant |
| ComputeArray.LineBuffers | kernel/Stencil.cpp:94-113 | the array line buffers give the same north and east-neighbour vectors as the FIFO build and keep the slot invariants |
| ComputeArray.Traffic | kernel/Stencil.cpp:78-113 | one iteration pops the input exactly when the boundary test lets a grid vector through and yields the north, east-neighbour and south vectors |
| ComputeArray.Step | kernel/Stencil.cpp:78-185 | one iteration preserves the stage invariant over the two arrays and advances the flat position by one |
| ComputeArray.SaturationSlots | kernel/Stencil.cpp:65-72 | with the saturation slot corrected to i + 1 (see ## Findings): saturation iteration i writes a slot inside the kLineWidth array, and it is ReadSlot(i), the slot from which the steady iteration at column i of the first row reads its next centre vector (line 104) |
| ComputeArray.AsWrittenAgrees | kernel/Stencil.cpp:72 | the slot index as written, i + inner_begin, agrees with the intended slot for every i exactly when the halo is one vector wide |
| ComputeArray.AsWrittenOverflows | kernel/Stencil.cpp:72 | in stage 0 with a halo of two or more vectors, the last saturation iteration writes past the end of centerBuffer |
| ComputeArray.AsWrittenOverflowExample | kernel/Stencil.cpp:72 | a concrete configuration whose last saturation write lands on slot 5 of a 5-slot array |
| ComputeArray.SaturatedStep | kernel/Stencil.cpp:65-72 | each saturation write extends the prefix of centerBuffer that holds the stream's first centre vectors |
| ComputeArray.SaturationEnd | kernel/Stencil.cpp:58-72 | after the saturation iterations the array holds what the first steady iteration expects, and exactly the expected input is consumed |
| ComputeArray.Saturate | kernel/Stencil.cpp:65-72 | the saturation phase, with the corrected slot index, fills centerBuffer so that the steady state starts from its invariant |
| ComputeArray.Steady | kernel/Stencil.cpp:45-186 | the steady-state loop consumes all of the input and pushes exactly the stage's output stream |
| ComputeArray.Compute | kernel/Stencil.cpp:8-194 | with the saturation slot corrected to i + 1 (see ## Findings): the array build of a compute stage pushes exactly StageOutput, the same stream as the FIFO build, and consumes all of its input |
| Accumulate.AccumulateSimple | include/hlslib/Accumulate.h:115-132 | each of the `iterations` outputs is the running fold of its own block of `size` inputs, and exactly iterations * size inputs are consumed |
| Accumulate.PipelinedElement | include/hlslib/Accumulate.h:58-93 | one element of Iterate and Feedback: the element is combined with the identity in the first round and with the partial result at the front of the feedback FIFO otherwise, and the result goes back to the end of that FIFO unless this is the last round |
| Accumulate.PipelinedRound | include/hlslib/Accumulate.h:56-109 | one round of `latency` elements combines the round lane-wise into the partial results in the feedback FIFO; in the last round the partials go to Reduce, which folds them into the result |
| Accumulate.PipelinedIteration | include/hlslib/Accumulate.h:53-111 | one iteration leaves all three internal streams empty and outputs the Reduce fold of the per-lane partial sums of its block |
| Accumulate.AccumulatePipelined | include/hlslib/Accumulate.h:50-112 | the three-process pipeline consumes iterations * (size / latency) * latency inputs and outputs one reduced value per block |
| Accumulate.FoldConcat | include/hlslib/Accumulate.h:125-126 | for a commutative monoid, folding a concatenation folds the two parts separately and combines them |
| Accumulate.ReduceFoldIsFold | include/hlslib/Accumulate.h:104-126 | for a commutative monoid, Reduce's left fold equals AccumulateSimple's running fold |
| Accumulate.ReduceFoldCombine | include/hlslib/Accumulate.h:68-108 | for a commutative monoid, reducing a lane-wise combination equals combining the two reductions |
| Accumulate.ReduceFoldIdentities | include/hlslib/Accumulate.h:66-104 | reducing a sequence of identities gives the identity |
| Accumulate.PartialsHoldEverything | include/hlslib/Accumulate.h:53-109 | for a commutative monoid, reducing the `latency` partial results of a block gives the fold of the whole block |
| Accumulate.PipelinedMatchesSimple | include/hlslib/Accumulate.h:50-132 | for a commutative monoid (such as addition), the pipelined accumulation outputs exactly what AccumulateSimple outputs on blocks of (size / latency) * latency inputs |
| Reference.CellAtFlat | src/Reference.cpp:11-22 | at flat index r * kCols + c the new value is a quarter of the sum of the four row-major neighbours, each replaced by the boundary value 1 outside the grid |
| Reference.StepCell | src/Reference.cpp:11-24 | one timestep writes JacobiCell(r, c) into cell (r, c) of the new grid, and the grid keeps its size |
| Reference.SweepRow | src/Reference.cpp:12-23 | the column loop of row r fills that row of the buffer with the new values and leaves every earlier row untouched |
| Reference.Sweep | src/Reference.cpp:11-24 | the row and column loops fill the whole buffer with one Jacobi step of the domain |
| Reference.Jacobi | src/Reference.cpp:7-28 | the reference returns `steps` Jacobi steps of its input, swapping domain and buffer after each timestep |
| Reference.NoSteps | src/Reference.cpp:8-27 | with no timesteps the reference returns its input unchanged |
| Reference.StepsCompose | src/Reference.cpp:10-26 | running a + b timesteps is running a timesteps and then b more |
| Reference.ZeroGridOneStep | src/Reference.cpp:13-22 | one step of an all-zero grid gives each cell a quarter of the number of its neighbours outside the grid |
| Reference.BoundaryGridIsSteady | src/Reference.cpp:13-22 | a grid holding the boundary value 1 everywhere is a fixed point of every number of timesteps |
| ArgParse.KeyRun | analysis/_parse_arguments.py:6 | the greedy key run `[^= ]+` from position i: every character in it is allowed and the next one is not |
| ArgParse.ValueRun | analysis/_parse_arguments.py:6 | the greedy value run `[^ ]+` from position i: every character in it is allowed and the next one is not |
| ArgParse.MatchAt | analysis/_parse_arguments.py:6 | a match found at position p is a '-', a non-empty key, an '=' and a non-empty maximal value |
| ArgParse.MatchAtComplete | analysis/_parse_arguments.py:6 | when the greedy pattern matches at p, MatchAt returns exactly that key and value |
| ArgParse.NoMatchWithoutDash | analysis/_parse_arguments.py:6 | no match starts at a character other than '-' |
| ArgParse.SearchNone | analysis/_parse_arguments.py:6-7 | re.search finds nothing exactly when no position matches |
| ArgParse.SearchLeftmost | analysis/_parse_arguments.py:6 | re.search returns the match at the leftmost matching position |
| ArgParse.NoDashNoMatch | analysis/_parse_arguments.py:6-7 | an argument without '-' is ignored |
| ArgParse.LowerChar | analysis/_parse_arguments.py:8 | an upper-case ASCII letter becomes its lower-case letter and every other character is kept |
| ArgParse.Lower | analysis/_parse_arguments.py:8 | lower-casing keeps the length and lowers each character |
| ArgParse.LowerIdempotent | analysis/_parse_arguments.py:8 | lower-casing a lower-cased key changes nothing |
| ArgParse.ParseArgs | analysis/_parse_arguments.py:3-9 | the loop over the arguments builds exactly the dictionary Parsed describes |
| ArgParse.ParsedLast | analysis/_parse_arguments.py:5-8 | the last argument overwrites its key if it matches, and every other key keeps its earlier entry |
| ArgParse.KeysStored | analysis/_parse_arguments.py:3-9 | a key is in the result exactly when some argument matches with that lower-cased key |
| ArgParse.LastWins | analysis/_parse_arguments.py:5-8 | the value stored for a key is the value of the last argument that matches with it |
| ArgParse.NoArguments | analysis/_parse_arguments.py:4-9 | no arguments give an empty dictionary |
| StageJacobi.LaneColumns | src/Reference.cpp:13-16 | lane w of vector column v is a grid column; it is the first column exactly for lane 0 of vector 0, the last exactly for the last lane of the last vector, and lanes run on consecutively across vector borders |
| StageJacobi.GridVecLane | src/Reference.cpp:21 | lane w of vector column v of grid row r is the row-major grid cell r * kCols + v * lanes + w |
| StageJacobi.WindowInGrid | kernel/Memory.cpp:23-27 | the vectors a row of block b receives, halo included, lie inside the grid row when the halo is at most one block wide |
| StageJacobi.JacobiOfCells | src/Reference.cpp:13-22 | the reference's new cell value is a quarter of the sum of its four neighbours NorthCell, WestCell, EastCell and SouthCell: the grid cell above, left, right and below, or the boundary value 1 outside the grid |
| StageJacobi.CentreAt | kernel/Stencil.cpp:61-90 | for a stage fed the grid's rows, the centre vector at an inBounds column is the grid vector there, and at any other column it is the boundary vector |
| StageJacobi.VerticalAt | kernel/Stencil.cpp:94-95 | at a column of the block itself, lane w of the north and south vectors is the grid cell above and below, or the boundary value 1 on the grid's first and last row |
| StageJacobi.WestAt | kernel/Stencil.cpp:99-108 | at a column of the block itself, lane w of the west vector is the grid cell to the left, or 1 at the grid's first column |
| StageJacobi.WestEdge | kernel/Stencil.cpp:107-122 | the west neighbour of lane 0 is the last lane of the previous vector column, carried in shiftWest, or 1 at the grid's first column |
| StageJacobi.EastAt | kernel/Stencil.cpp:99-105 | at a column of the block itself, lane w of the east vector is the grid cell to the right, or 1 at the grid's last column |
| StageJacobi.EastEdge | kernel/Stencil.cpp:103-105 | the east neighbour of the last lane is lane 0 of the next vector column, or 1 past the grid's last column |
| StageJacobi.UpdateIsJacobi | kernel/Stencil.cpp:78-145 | one stage is one reference timestep: fed the grid's rows with their halo and the boundary value 1, the stage's result at column c of the block itself is, lane by lane, JacobiCell of the reference at that lane's grid row and column |
| StageJacobi.PushedAt | kernel/Stencil.cpp:147-155 | the vector a stage pushes at position c - EmitBegin of row n is its result at column c, for every c of the row's emission window |
| StageJacobi.InnerPushed | kernel/Stencil.cpp:147-155 | at column inner_begin + j of a row of block b the stage pushes its result, at position inner_begin + j - EmitBegin of the row, and that column is the block's vector column j |
| StageJacobi.OutputIsJacobi | src/Stencil.cpp:177-229 | every lane of every vector the stage pushes for a column of the block itself equals the reference's next value of that grid cell (Reference.JacobiCell) |
| StageJacobi.GridRowsShaped | kernel/Memory.cpp:17-36 | the grid's rows with their halo, for every fold, block and row, have the shape a stage receives |
| StageJacobi.GridRowsFeed | kernel/Memory.cpp:22-30 | those rows feed every block of every fold from the grid, so the hypotheses of UpdateIsJacobi can all be met |

## Left out

- The OpenCL host layer (`hlslib/SDAccel.h`, `host/ExecuteKernel.cpp`, `src/ExecuteKernel.cpp`) and the testbenches are left out. They are I/O against an API that is not part of this model.
- The orchestration (`UnrollCompute` and `Kernel` in `src/Stencil.cpp`, `StencilKernel` in `kernel/Stencil.cpp`, `include/Compute.h`, `include/hlslib/Simulation.h`) is concurrency. Each stage is modelled on its own, as a transformer from the elements it pops to the elements it pushes. The stages are not composed into one end-to-end run.
- StageJacobi.OutputIsJacobi: covers one compute stage fed the grid's rows directly. The chain of `Depth` stages, where stage s + 1 is fed stage s's output with a narrower halo, and the memory stages around it are not composed with it, because each is proved against its own specification and the concurrency that joins them is not modelled. So the pipeline's output is not proved equal to `Reference.Jacobi` over `Depth` timesteps.
- Blocking is not modelled: the mutex and condition-variable waits in `hlslib/Stream.h`, back-pressure, kPipeDepth and the `HLSLIB_SYNTHESIS` branch. ReadBlocking and WriteBlocking carry the precondition that they can proceed at once. The input streams of a stage hold what the stage will pop. Deadlock-freedom under bounded buffering is therefore not captured.
- Floating point and half precision are modelled as `real`. The testbench's 1e-4 tolerance becomes equality.
- The `ap_uint` bit layout of DataPack is not modelled. A pack is a sequence of lanes, and the bit ranges are not represented.
- The HLS pragmas, the `STENCIL_KERNEL_DEBUG` printing and the verbose stream logging have no effect on the values computed and are left out.
- The analysis scripts other than `_parse_arguments.py` are not modelled. They are numerical search, plotting and database code.
- ArgParse.LowerChar: case-folds only the ASCII letters. Python's `str.lower` also lowers non-ASCII letters.
- ArgParse.MatchAt: models only the pattern `-([^= ]+)=([^ ]+)`, over `char`. Python's regular-expression engine is not modelled in general.
- StageStep.ReadNext: while draining, the source leaves `read` default-constructed. The model gives it the all-zero pack. It is written only into a slot of centerBuffer that is never read again.
- ComputeFifo.Compute: requires at least one folded timestep. With none, the saturation phase blocks on an empty input, so the source never finishes.
- ComputeArray.Compute: requires at least one folded timestep, as ComputeFifo.Compute does.
- WidthConversion.Widen: memIndex is an `unsigned char`, so `Valid` asks for at most 256 kernel vectors per memory word.
- Accumulate.AccumulatePipelined: requires latency <= size when there is at least one iteration. With fewer than latency inputs per iteration, Reduce waits forever for latency values, so the source never finishes.
- DataPacks.DataPack.ShiftTo: requires `other != this`. Shifting lanes within one pack is not modelled. `include/hlslib/DataPack.h:175-178` copies lane by lane upward there, so overlapping ranges would read lanes already overwritten.

## Findings

| source | as written | input that shows it | evidently intended | confidence | as-written member | corrected member |
|---|---|---|---|---|---|---|
| kernel/Stencil.cpp:72 | saturation iteration i writes `centerBuffer[i + inner_begin]`, for i up to input_width - 2 | block width 1, depth 2, 1 lane, 2 blocks, 1 row, stage 0: input_width = kLineWidth = 5 and inner_begin = 2, so iteration i = 3 writes slot 5 of a 5-slot array; with any halo wider than one vector the slots are also shifted away from where the steady state reads them (`centerBuffer[c + 1]`, line 104) | `centerBuffer[i + 1]`, which fills the slots in arrival order as the FIFO build does (src/Stencil.cpp:148) and agrees with the source when the halo is one vector | not executed | ComputeArray.AsWrittenOverflowExample | ComputeArray.Saturate |
