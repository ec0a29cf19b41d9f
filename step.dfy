/** One steady iteration of a compute stage, in the parts the two builds
    share (Compute in src/Stencil.cpp and in kernel/Stencil.cpp): the
    counters, the read from the input, the shift registers, the compute
    and the push.  Only the line buffers differ, FIFOs in one build and
    arrays in the other; ComputeFifo and ComputeArray add them. */
module StageStep {
  import opened Streams
  import opened Schedule
  import RowWalk
  import opened StageGeometry
  import opened StencilStage
  import DataPacks

  /** What a compute stage has done before column c of global row n (or
      at the end, n = |rows| and c = 0), apart from its line buffers: its
      counters, the input it has left, its shift registers and what it has
      pushed. */
  ghost predicate Progress(f: Feed, n: nat, b: nat, r: nat, c: nat, input: seq<Vec>,
                           shiftWest: real, shiftCenter: Vec, out: seq<Vec>)
  {
    WellFormed(f)
    && ((n < |f.rows| && c < InputWidth(f.geom)) || (n == |f.rows| && c == 0))
    && b == BlockAt(f.geom, n) && r == RowOf(f.geom.rows, n)
    && Consumed(f, n + 1, c) <= |Flatten(f.rows)| && input == Flatten(f.rows)[Consumed(f, n + 1, c)..]
    && shiftCenter == Centre(f, n, c) && shiftWest == WestLane(f, n, c)
    && out == Flatten(Output(f, n)) + RowOutput(f, n, c)
  }

  /** The position after (n, c). */
  predicate Follows(g: Stage, n: nat, c: nat, n': nat, c': nat)
    requires Valid(g)
  {
    if c + 1 < InputWidth(g) then n' == n && c' == c + 1 else n' == n + 1 && c' == 0
  }

  // ---------------------------------------------------------------------
  // One step, component by component

  /** Draining positions lie on the last row, which is the last row of a
      block. */
  lemma DrainRow(f: Feed, folds: nat, n: nat, c: nat)
    requires Shaped(f, folds) && folds > 0 && n < |f.rows| && c < InputWidth(f.geom)
    requires Pos(f.geom, n, c) + InputWidth(f.geom) - 1 >= Pos(f.geom, |f.rows|, 0)
    ensures n == |f.rows| - 1 && c >= 1 && RowOf(f.geom.rows, n) == f.geom.rows - 1
  {
    Draining(f.geom, |f.rows|, n, c);
    LastRow(f, folds);
  }

  /** The read of a steady, non-draining step: the boundary when the DNF
      test says so, otherwise the next input vector; either way the centre
      vector at column c of the next row. */
  lemma ReadStep(f: Feed, folds: nat, n: nat, c: nat)
    requires Shaped(f, folds) && folds > 0 && n < |f.rows| && c < InputWidth(f.geom)
    requires Pos(f.geom, n, c) + InputWidth(f.geom) - 1 < Pos(f.geom, |f.rows|, 0)
    ensures var g := f.geom;
      ReadsBoundary(g, BlockAt(g, n), RowOf(g.rows, n), c) ==>
        Centre(f, n + 1, c) == Boundary(f) && Consumed(f, n + 1, c + 1) == Consumed(f, n + 1, c)
    ensures var g := f.geom;
      !ReadsBoundary(g, BlockAt(g, n), RowOf(g.rows, n), c) ==>
        Consumed(f, n + 1, c) < |Flatten(f.rows)|
        && Flatten(f.rows)[Consumed(f, n + 1, c)] == Centre(f, n + 1, c)
        && Consumed(f, n + 1, c + 1) == Consumed(f, n + 1, c) + 1
  {
    var g := f.geom;
    BoundaryRead(g, n, c);
    Draining(g, |f.rows|, n, c);
    if n + 1 < |f.rows| {
      ReadAt(f, folds, n + 1, c);
    } else {
      LastRow(f, folds);
      InnerSpan(g);
    }
  }

  /** The input left over moves on with the count of consumed vectors; at
      the end of a row the count carries into the next row. */
  lemma InputStep(f: Feed, folds: nat, n: nat, c: nat, n': nat, c': nat)
    requires Shaped(f, folds) && n < |f.rows| && c < InputWidth(f.geom) && Follows(f.geom, n, c, n', c')
    ensures Consumed(f, n' + 1, c') == Consumed(f, n + 1, c + 1)
  {
    if c + 1 == InputWidth(f.geom) && n + 1 < |f.rows| {
      RowConsumed(f, folds, n + 1);
    }
  }

  /** The counters follow the global row: after the last column the
      carried row and block are those of the next global row. */
  lemma CountersStep(g: Stage, n: nat, b: nat, r: nat, c: nat, n': nat, b': nat, r': nat, c': nat)
    requires Valid(g) && c < InputWidth(g) && Follows(g, n, c, n', c')
    requires b == BlockAt(g, n) && r == RowOf(g.rows, n)
    requires RowWalk.Carried(InShape(g), c == InputWidth(g) - 1, b, r, c, b', r', c')
    ensures b' == BlockAt(g, n') && r' == RowOf(g.rows, n')
  {
    NextRow(g.rows, g.blocks, n);
  }

  /** The shift registers: shiftCenter takes the next centre vector and
      shiftWest the last lane of the current one. */
  lemma RegistersStep(f: Feed, n: nat, c: nat, n': nat, c': nat)
    requires WellFormed(f) && c < InputWidth(f.geom) && Follows(f.geom, n, c, n', c')
    ensures NextCentre(f, n, c) == Centre(f, n', c')
    ensures Centre(f, n, c)[f.geom.lanes - 1] == WestLane(f, n', c')
  {
  }

  /** The pushes: the result at (n, c) joins the row's pushes when the
      stage emits there ... */
  lemma OutStep(f: Feed, n: nat, c: nat)
    requires WellFormed(f) && c + 1 < InputWidth(f.geom)
    ensures Flatten(Output(f, n)) + RowOutput(f, n, c)
              + (if Emits(f.geom, n, c) then [Update(f, n, c)] else [])
            == Flatten(Output(f, n)) + RowOutput(f, n, c + 1)
  {
    RowOutputNext(f, n, c);
  }

  /** ... and at the end of a row the row's pushes join the finished rows. */
  lemma OutRowEnd(f: Feed, n: nat, c: nat)
    requires WellFormed(f) && c + 1 == InputWidth(f.geom)
    ensures Flatten(Output(f, n)) + RowOutput(f, n, c)
              + (if Emits(f.geom, n, c) then [Update(f, n, c)] else [])
            == Flatten(Output(f, n + 1)) + RowOutput(f, n + 1, 0)
  {
    RowOutputNext(f, n, c);
    OutputNext(f, n);
    RowOutputNext(f, n + 1, c);
    FlattenSnoc(Output(f, n), RowOutput(f, n, c + 1));
  }

  /** The progress at the next position, from what one iteration at
      (n, c) leaves behind. */
  lemma NextProgress(f: Feed, folds: nat, n: nat, b: nat, r: nat, c: nat, input: seq<Vec>,
                     shiftWest: real, shiftCenter: Vec, out: seq<Vec>, n': nat, b': nat, r': nat, c': nat)
    requires Shaped(f, folds) && n < |f.rows| && c < InputWidth(f.geom) && Follows(f.geom, n, c, n', c')
    requires b == BlockAt(f.geom, n) && r == RowOf(f.geom.rows, n)
    requires RowWalk.Carried(InShape(f.geom), c == InputWidth(f.geom) - 1, b, r, c, b', r', c')
    requires Consumed(f, n + 1, c + 1) <= |Flatten(f.rows)| && input == Flatten(f.rows)[Consumed(f, n + 1, c + 1)..]
    requires shiftCenter == NextCentre(f, n, c) && shiftWest == Centre(f, n, c)[f.geom.lanes - 1]
    requires out == Flatten(Output(f, n)) + RowOutput(f, n, c) + (if Emits(f.geom, n, c) then [Update(f, n, c)] else [])
    ensures Progress(f, n', b', r', c', input, shiftWest, shiftCenter, out)
  {
    var g := f.geom;
    CountersStep(g, n, b, r, c, n', b', r', c');
    RegistersStep(f, n, c, n', c');
    InputStep(f, folds, n, c, n', c');
    if c + 1 == InputWidth(g) {
      OutRowEnd(f, n, c);
    } else {
      OutStep(f, n, c);
    }
  }

  // ---------------------------------------------------------------------
  // The shared parts of an iteration

  /** The read of one steady iteration: nothing while draining, else the
      boundary where the DNF test says so and the next input vector
      elsewhere, which is the centre vector at column c of the next row.
      The south neighbour is the read, or the boundary on the last row of
      a block. */
  method ReadNext(f: Feed, ghost folds: nat, pipeIn: Stream<Vec>, isDraining: bool, ghost n: nat, b: nat, r: nat, c: nat)
    returns (read: Vec, south: Vec)
    requires Shaped(f, folds) && folds > 0 && n < |f.rows| && c < InputWidth(f.geom)
    requires b == BlockAt(f.geom, n) && r == RowOf(f.geom.rows, n)
    requires isDraining <==> Pos(f.geom, n, c) + InputWidth(f.geom) - 1 >= Pos(f.geom, |f.rows|, 0)
    requires Consumed(f, n + 1, c) <= |Flatten(f.rows)| && pipeIn.queue == Flatten(f.rows)[Consumed(f, n + 1, c)..]
    modifies pipeIn
    ensures Consumed(f, n + 1, c + 1) <= |Flatten(f.rows)| && pipeIn.queue == Flatten(f.rows)[Consumed(f, n + 1, c + 1)..]
    ensures !isDraining ==> read == Centre(f, n + 1, c)
    ensures isDraining ==> read == DataPacks.Filled(f.geom.lanes, 0.0)
    ensures isDraining ==> r == f.geom.rows - 1
    ensures south == South(f, n, c)
  {
    read := DataPacks.Filled(f.geom.lanes, 0.0);
    if isDraining {
      DrainRow(f, folds, n, c);
    } else {
      ReadStep(f, folds, n, c);
      if ReadsBoundary(f.geom, b, r, c) {
        read := Boundary(f);
      } else {
        read := pipeIn.ReadBlocking();
      }
    }
    south := if r < f.geom.rows - 1 then read else Boundary(f);
  }

  /** The vector computed at (n, c) from its four neighbours, forwarded
      when the column lies in the output window and in bounds. */
  method Emit(f: Feed, ghost n: nat, b: nat, c: nat, north: Vec, west: Vec, east: Vec, south: Vec, out: seq<Vec>)
    returns (out': seq<Vec>)
    requires WellFormed(f) && b == BlockAt(f.geom, n)
    requires north == North(f, n, c) && west == West(f, n, c) && east == East(f, n, c) && south == South(f, n, c)
    ensures out' == out + (if Emits(f.geom, n, c) then [Update(f, n, c)] else [])
  {
    var g := f.geom;
    var result := ComputeSimd(north, west, east, south);
    out' := out;
    if OutputBegin(g) <= c < OutputEnd(g) && InBounds(g, b, c) {
      out' := out + [result];
    }
  }

  /** The rest of one steady iteration once the line buffers are served:
      the west and east vectors, the shift registers, the compute and the
      push, and the counters. */
  method Advance(f: Feed, ghost folds: nat, ghost n: nat, b: nat, r: nat, c: nat, shiftWest: real, shiftCenter: Vec,
                 out: seq<Vec>, north: Vec, nextCenter: Vec, south: Vec, ghost input: seq<Vec>, ghost n': nat, ghost c'': nat)
    returns (b': nat, r': nat, c': nat, shiftWest': real, shiftCenter': Vec, out': seq<Vec>)
    requires Shaped(f, folds) && n < |f.rows| && c < InputWidth(f.geom) && Follows(f.geom, n, c, n', c'')
    requires b == BlockAt(f.geom, n) && r == RowOf(f.geom.rows, n)
    requires shiftCenter == Centre(f, n, c) && shiftWest == WestLane(f, n, c)
    requires out == Flatten(Output(f, n)) + RowOutput(f, n, c)
    requires north == North(f, n, c) && nextCenter == NextCentre(f, n, c) && south == South(f, n, c)
    requires Consumed(f, n + 1, c + 1) <= |Flatten(f.rows)| && input == Flatten(f.rows)[Consumed(f, n + 1, c + 1)..]
    ensures Progress(f, n', b', r', c', input, shiftWest', shiftCenter', out') && c' == c''
    ensures Pos(f.geom, n', c') == Pos(f.geom, n, c) + 1
  {
    var g := f.geom;
    var west, east := DataPacks.AssembleWestEast(shiftCenter, nextCenter, shiftWest);
    shiftWest' := shiftCenter[g.lanes - 1];
    shiftCenter' := nextCenter;
    out' := Emit(f, n, b, c, north, west, east, south, out);
    b', r', c' := RowWalk.Carry(InShape(g), c == InputWidth(g) - 1, b, r, c);
    NextProgress(f, folds, n, b, r, c, input, shiftWest', shiftCenter', out', n', b', r', c');
    PosNext(g, n, c);
  }

  // ---------------------------------------------------------------------
  // Saturation, the start and the end

  /** The flat positions the stage visits after saturation, as the source
      computes the bound of ComputeFlat. */
  function FlatLength(g: Stage, timeFolded: nat): nat
    requires Valid(g)
  {
    timeFolded * g.blocks * g.rows * InputWidth(g)
  }

  /** That bound is the position just past the last row. */
  lemma FlatLengthEnd(f: Feed, folds: nat)
    requires Shaped(f, folds)
    ensures FlatLength(f.geom, folds) == Pos(f.geom, |f.rows|, 0)
  {
    RowWalk.MulAssoc(folds, f.geom.blocks, f.geom.rows);
  }

  /** Saturation iteration i fills centerBuffer with the centre vector at
      column i + 1 of the first row: the next input vector from column
      inner_begin on, the boundary before it. */
  lemma SaturationRead(f: Feed, folds: nat, i: nat)
    requires Shaped(f, folds) && folds > 0 && i + 1 < InputWidth(f.geom)
    ensures Flat(f, 1 + i) == Centre(f, 0, i + 1)
    ensures i + 1 >= InnerBegin(f.geom) ==>
      Consumed(f, 0, i + 1) < |Flatten(f.rows)| && Flatten(f.rows)[Consumed(f, 0, i + 1)] == Centre(f, 0, i + 1)
      && Consumed(f, 0, i + 2) == Consumed(f, 0, i + 1) + 1
    ensures i + 1 < InnerBegin(f.geom) ==>
      Centre(f, 0, i + 1) == Boundary(f) && Consumed(f, 0, i + 2) == Consumed(f, 0, i + 1)
  {
    var g := f.geom;
    LastRow(f, folds);
    Compose(g.rows, g.blocks, 0, 0, 0);
    InnerSpan(g);
    ReadAt(f, folds, 0, i + 1);
    FlatAt(f, 0, i + 1);
  }

  /** The read of saturation iteration i: column i + 1 of the first row,
      popped from the input from inner_begin - 1 on and the boundary
      before. */
  method SaturationNext(f: Feed, ghost folds: nat, pipeIn: Stream<Vec>, i: nat) returns (read: Vec)
    requires Shaped(f, folds) && folds > 0 && i + 1 < InputWidth(f.geom)
    requires Consumed(f, 0, i + 1) <= |Flatten(f.rows)| && pipeIn.queue == Flatten(f.rows)[Consumed(f, 0, i + 1)..]
    modifies pipeIn
    ensures Consumed(f, 0, i + 2) <= |Flatten(f.rows)| && pipeIn.queue == Flatten(f.rows)[Consumed(f, 0, i + 2)..]
    ensures read == Centre(f, 0, i + 1)
  {
    SaturationRead(f, folds, i);
    if i >= InnerBegin(f.geom) - 1 {
      read := pipeIn.ReadBlocking();
    } else {
      read := Boundary(f);
    }
  }

  /** Before saturation nothing is consumed: column 0 of the first row
      is halo. */
  lemma SaturationStart(f: Feed, folds: nat)
    requires Shaped(f, folds) && folds > 0
    ensures Consumed(f, 0, 1) == 0
  {
    var g := f.geom;
    LastRow(f, folds);
    Compose(g.rows, g.blocks, 0, 0, 0);
    InnerSpan(g);
    assert f.rows[..0] == [];
    assert InBefore(g, 0, 1) == 0 by {
      assert !InBounds(g, 0, 0);
    }
  }

  /** The steady state starts at position (0, 0) with boundary shift
      registers and nothing pushed, once saturation has consumed the
      first row's vectors. */
  lemma Started(f: Feed, folds: nat, input: seq<Vec>)
    requires Shaped(f, folds) && folds > 0
    requires Consumed(f, 1, 0) <= |Flatten(f.rows)| && input == Flatten(f.rows)[Consumed(f, 1, 0)..]
    ensures Progress(f, 0, 0, 0, 0, input, f.boundary, Boundary(f), [])
  {
    var g := f.geom;
    LastRow(f, folds);
    Compose(g.rows, g.blocks, 0, 0, 0);
    InnerSpan(g);
    RowOutputNext(f, 0, 0);
  }

  /** Past the last position the input is used up and the pushes are the
      stage's output. */
  lemma Finished(f: Feed, folds: nat, b: nat, r: nat, input: seq<Vec>, shiftWest: real, shiftCenter: Vec, out: seq<Vec>)
    requires Shaped(f, folds) && folds > 0
    requires Progress(f, |f.rows|, b, r, 0, input, shiftWest, shiftCenter, out)
    ensures input == [] && out == StageOutput(f)
  {
    RowOutputNext(f, |f.rows|, 0);
  }
}
