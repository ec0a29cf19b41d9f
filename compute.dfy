/** The compute stage of the simulation build (Compute in src/Stencil.cpp):
    the row above and the rest of the current row live in two FIFO line
    buffers, northBuffer and centerBuffer, each of input_width vectors.

    The state of the stage at column c of global row n is stated in the
    terms of StencilStage: the input it has consumed, the contents of both
    line buffers as spans of the flat centre stream, the two shift
    registers and what it has pushed.  Compute is proved to push exactly
    StageOutput and to leave both line buffers empty. */
module ComputeFifo {
  import opened Wrappers
  import opened Streams
  import opened Schedule
  import RowWalk
  import opened StageGeometry
  import opened StencilStage
  import opened StageStep
  import DataPacks

  /** Vectors centerBuffer holds before position Pos(n, c): the next
      input_width - 1 centre vectors, fewer once the stage drains. */
  function CentreFill(g: Stage, rows: nat, p: nat): nat
    requires Valid(g)
  {
    var last := Pos(g, rows, 0);
    if p + InputWidth(g) - 1 <= last then InputWidth(g) - 1
    else if p <= last then last - p
    else 0
  }

  /** centerBuffer before column c of global row n. */
  function CentreQueue(f: Feed, n: nat, c: nat): seq<Vec>
    requires WellFormed(f)
  {
    var p := Pos(f.geom, n, c);
    Span(f, p + 1, CentreFill(f.geom, |f.rows|, p))
  }

  /** Where northBuffer starts before column c of global row n: column c
      of the row above on rows after the first of a block, column 0 of the
      current row on the first. */
  function NorthStart(g: Stage, n: nat, c: nat): nat
    requires Valid(g)
  {
    var p := Pos(g, n, c);
    if RowOf(g.rows, n) > 0 && p >= InputWidth(g) then p - InputWidth(g) else p - c
  }

  /** How many vectors northBuffer holds before column c of global row n:
      the rest of the row above (not on the first row of a block) and the
      current row up to column c (not on the last row of a block). */
  function NorthLen(g: Stage, n: nat, c: nat): nat
    requires Valid(g) && c <= InputWidth(g)
  {
    var r := RowOf(g.rows, n);
    (if r > 0 then InputWidth(g) - c else 0) + (if r < g.rows - 1 then c else 0)
  }

  /** northBuffer before column c of global row n. */
  function NorthQueue(f: Feed, n: nat, c: nat): seq<Vec>
    requires WellFormed(f) && c <= InputWidth(f.geom)
  {
    Span(f, NorthStart(f.geom, n, c), NorthLen(f.geom, n, c))
  }

  /** The state of the stage before column c of global row n (or at the
      end, n = |rows| and c = 0): its progress and its two line buffers. */
  ghost predicate State(f: Feed, n: nat, b: nat, r: nat, c: nat, input: seq<Vec>,
                        centre: seq<Vec>, north: seq<Vec>, shiftWest: real, shiftCenter: Vec, out: seq<Vec>)
  {
    Progress(f, n, b, r, c, input, shiftWest, shiftCenter, out)
    && centre == CentreQueue(f, n, c) && north == NorthQueue(f, n, c)
  }

  // ---------------------------------------------------------------------
  // The line buffers from one position to the next

  /** centerBuffer: the front is the next centre vector; without it, and
      with the read appended unless the stage drains, it is centerBuffer
      at the next position.  It never holds input_width vectors. */
  lemma CentreStep(f: Feed, n: nat, c: nat, n': nat, c': nat)
    requires WellFormed(f) && n < |f.rows| && c < InputWidth(f.geom) && Follows(f.geom, n, c, n', c')
    ensures var q := CentreQueue(f, n, c);
      0 < |q| < InputWidth(f.geom) && q[0] == NextCentre(f, n, c)
      && (Pos(f.geom, n, c) + InputWidth(f.geom) - 1 < Pos(f.geom, |f.rows|, 0) ==>
            q[1..] + [Centre(f, n + 1, c)] == CentreQueue(f, n', c'))
      && (Pos(f.geom, n, c) + InputWidth(f.geom) - 1 >= Pos(f.geom, |f.rows|, 0) ==>
            q[1..] == CentreQueue(f, n', c'))
  {
    var g := f.geom;
    var p := Pos(g, n, c);
    var fill := CentreFill(g, |f.rows|, p);
    PosNext(g, n, c);
    PosBelow(g, |f.rows|, n, c);
    FlatAt(f, n', c');
    SpanPop(f, p + 1, fill);
    if p + InputWidth(g) - 1 < Pos(g, |f.rows|, 0) {
      FlatAt(f, n + 1, c);
      SpanPush(f, p + 2, fill - 1);
    }
  }

  /** A span after an optional pop at the front and an optional push of
      the vector that follows it at the back. */
  lemma SpanStep(f: Feed, start: nat, len: nat, pop: bool, push: bool, start': nat, len': nat)
    requires WellFormed(f) && (pop ==> len > 0)
    requires len' == len - (if pop then 1 else 0) + (if push then 1 else 0)
    requires len' > 0 ==> start' == start + (if pop then 1 else 0)
    ensures var q := Span(f, start, len);
      var rest := if pop then q[1..] else q;
      (if push then rest + [Flat(f, start + len)] else rest) == Span(f, start', len')
  {
    if pop {
      SpanPop(f, start, len);
    }
    if push {
      SpanPush(f, start + (if pop then 1 else 0), len - (if pop then 1 else 0));
    }
  }

  /** The arithmetic of northBuffer from one position to the next: it pops
      on rows after the first of a block, where its front is column c of
      the row above, it appends the current position on rows before the
      last of a block, and an append never finds it full. */
  lemma NorthIndices(g: Stage, n: nat, c: nat, n': nat, c': nat)
    requires Valid(g) && c < InputWidth(g) && Follows(g, n, c, n', c')
    ensures var r, start, len := RowOf(g.rows, n), NorthStart(g, n, c), NorthLen(g, n, c);
      (r > 0 ==> n > 0 && len > 0 && start == Pos(g, n - 1, c))
      && (r < g.rows - 1 ==> start + len == Pos(g, n, c) && len - (if r > 0 then 1 else 0) < InputWidth(g))
      && NorthLen(g, n', c') == len - (if r > 0 then 1 else 0) + (if r < g.rows - 1 then 1 else 0)
      && (NorthLen(g, n', c') > 0 ==> NorthStart(g, n', c') == start + (if r > 0 then 1 else 0))
  {
    NextRow(g.rows, g.blocks, n);
    PosNext(g, n, c);
    if RowOf(g.rows, n) > 0 {
      assert n > 0;
      PosNext(g, n - 1, c);
    }
  }

  /** northBuffer: on rows after the first of a block the front is the
      north neighbour; without it, and with the centre appended on rows
      before the last of a block, it is northBuffer at the next position,
      and before an append it is never full. */
  lemma NorthStep(f: Feed, n: nat, c: nat, n': nat, c': nat)
    requires WellFormed(f) && c < InputWidth(f.geom) && Follows(f.geom, n, c, n', c')
    ensures var g, q := f.geom, NorthQueue(f, n, c);
      var r := RowOf(g.rows, n);
      var rest := if r > 0 then q[1..] else q;
      (r > 0 ==> |q| > 0 && q[0] == North(f, n, c))
      && (r < g.rows - 1 ==> |rest| < InputWidth(g) && rest + [Centre(f, n, c)] == NorthQueue(f, n', c'))
      && (r == g.rows - 1 ==> rest == NorthQueue(f, n', c'))
  {
    var g := f.geom;
    var r := RowOf(g.rows, n);
    NorthIndices(g, n, c, n', c');
    if r > 0 {
      FlatAt(f, n - 1, c);
    }
    if r < g.rows - 1 {
      FlatAt(f, n, c);
    }
    SpanStep(f, NorthStart(g, n, c), NorthLen(g, n, c), r > 0, r < g.rows - 1, NorthStart(g, n', c'), NorthLen(g, n', c'));
  }

  // ---------------------------------------------------------------------
  // The stage

  /** The line buffers in one steady iteration: the north neighbour is
      popped from northBuffer on rows after the first of a block, the next
      centre vector from centerBuffer; unless the stage drains, the read
      is appended to centerBuffer and, before the last row of a block, the
      current centre to northBuffer. */
  method LineBuffers(f: Feed, centerBuffer: Stream<Vec>, northBuffer: Stream<Vec>, isDraining: bool,
                     ghost n: nat, r: nat, c: nat, read: Vec, shiftCenter: Vec, ghost n': nat, ghost c': nat)
    returns (north: Vec, nextCenter: Vec)
    requires WellFormed(f) && n < |f.rows| && c < InputWidth(f.geom) && Follows(f.geom, n, c, n', c')
    requires centerBuffer != northBuffer && r == RowOf(f.geom.rows, n)
    requires isDraining <==> Pos(f.geom, n, c) + InputWidth(f.geom) - 1 >= Pos(f.geom, |f.rows|, 0)
    requires isDraining ==> r == f.geom.rows - 1
    requires !isDraining ==> read == Centre(f, n + 1, c)
    requires shiftCenter == Centre(f, n, c)
    requires centerBuffer.queue == CentreQueue(f, n, c) && northBuffer.queue == NorthQueue(f, n, c)
    modifies centerBuffer, northBuffer
    ensures north == North(f, n, c) && nextCenter == NextCentre(f, n, c)
    ensures centerBuffer.queue == CentreQueue(f, n', c') && northBuffer.queue == NorthQueue(f, n', c')
  {
    var g := f.geom;
    var width := InputWidth(g);
    CentreStep(f, n, c, n', c');
    NorthStep(f, n, c, n', c');
    north := Boundary(f);
    if r > 0 {
      var got := northBuffer.ReadOptimistic();
      north := got.value;
    }
    var got := centerBuffer.ReadOptimistic();
    nextCenter := got.value;
    if !isDraining {
      var _ := centerBuffer.WriteOptimistic(read, width);
      if r < g.rows - 1 {
        var _ := northBuffer.WriteOptimistic(shiftCenter, width);
      }
    }
  }

  /** The stream traffic of one steady iteration: the read and the two
      line buffers. */
  method Traffic(f: Feed, ghost folds: nat, pipeIn: Stream<Vec>, centerBuffer: Stream<Vec>, northBuffer: Stream<Vec>,
                 isDraining: bool, ghost n: nat, b: nat, r: nat, c: nat, shiftWest: real, shiftCenter: Vec,
                 ghost out: seq<Vec>, ghost n': nat, ghost c': nat)
    returns (north: Vec, nextCenter: Vec, south: Vec)
    requires Shaped(f, folds) && folds > 0 && n < |f.rows| && Follows(f.geom, n, c, n', c')
    requires pipeIn != centerBuffer && pipeIn != northBuffer && centerBuffer != northBuffer
    requires State(f, n, b, r, c, pipeIn.queue, centerBuffer.queue, northBuffer.queue, shiftWest, shiftCenter, out)
    requires isDraining <==> Pos(f.geom, n, c) + InputWidth(f.geom) - 1 >= Pos(f.geom, |f.rows|, 0)
    modifies pipeIn, centerBuffer, northBuffer
    ensures Consumed(f, n + 1, c + 1) <= |Flatten(f.rows)| && pipeIn.queue == Flatten(f.rows)[Consumed(f, n + 1, c + 1)..]
    ensures centerBuffer.queue == CentreQueue(f, n', c') && northBuffer.queue == NorthQueue(f, n', c')
    ensures north == North(f, n, c) && nextCenter == NextCentre(f, n, c) && south == South(f, n, c)
  {
    var read;
    read, south := ReadNext(f, folds, pipeIn, isDraining, n, b, r, c);
    north, nextCenter := LineBuffers(f, centerBuffer, northBuffer, isDraining, n, r, c, read, shiftCenter, n', c');
  }

  /** One iteration of ComputeFlat after saturation. */
  method Step(f: Feed, ghost folds: nat, pipeIn: Stream<Vec>, centerBuffer: Stream<Vec>, northBuffer: Stream<Vec>,
              isDraining: bool, ghost n: nat, b: nat, r: nat, c: nat, shiftWest: real, shiftCenter: Vec, out: seq<Vec>)
    returns (ghost n': nat, b': nat, r': nat, c': nat, shiftWest': real, shiftCenter': Vec, out': seq<Vec>)
    requires Shaped(f, folds) && folds > 0 && n < |f.rows|
    requires pipeIn != centerBuffer && pipeIn != northBuffer && centerBuffer != northBuffer
    requires State(f, n, b, r, c, pipeIn.queue, centerBuffer.queue, northBuffer.queue, shiftWest, shiftCenter, out)
    requires isDraining <==> Pos(f.geom, n, c) + InputWidth(f.geom) - 1 >= Pos(f.geom, |f.rows|, 0)
    modifies pipeIn, centerBuffer, northBuffer
    ensures State(f, n', b', r', c', pipeIn.queue, centerBuffer.queue, northBuffer.queue, shiftWest', shiftCenter', out')
    ensures Pos(f.geom, n', c') == Pos(f.geom, n, c) + 1
  {
    var width := InputWidth(f.geom);
    n' := if c == width - 1 then n + 1 else n;
    ghost var nextC: nat := if c == width - 1 then 0 else c + 1;
    var north, nextCenter, south := Traffic(f, folds, pipeIn, centerBuffer, northBuffer, isDraining, n, b, r, c,
                                            shiftWest, shiftCenter, out, n', nextC);
    b', r', c', shiftWest', shiftCenter', out' := Advance(f, folds, n, b, r, c, shiftWest, shiftCenter, out,
                                                          north, nextCenter, south, pipeIn.queue, n', nextC);
  }

  // ---------------------------------------------------------------------
  // Saturation, the steady state and the whole stage

  /** After saturation the first row's vectors are consumed and
      centerBuffer holds the centre vectors after the first position. */
  lemma SaturationEnd(f: Feed, folds: nat)
    requires Shaped(f, folds) && folds > 0
    ensures Consumed(f, 0, InputWidth(f.geom)) == Consumed(f, 1, 0)
    ensures Span(f, 1, InputWidth(f.geom) - 1) == CentreQueue(f, 0, 0)
  {
    LastRow(f, folds);
    RowConsumed(f, folds, 0);
    PosBelow(f.geom, |f.rows|, 0, InputWidth(f.geom) - 1);
  }

  /** The saturation iterations of ComputeFlat (i < input_width - 1). */
  method Saturate(f: Feed, ghost folds: nat, pipeIn: Stream<Vec>, centerBuffer: Stream<Vec>)
    requires Shaped(f, folds) && folds > 0 && pipeIn != centerBuffer
    requires pipeIn.queue == Flatten(f.rows) && centerBuffer.queue == []
    modifies pipeIn, centerBuffer
    ensures Consumed(f, 1, 0) <= |Flatten(f.rows)| && pipeIn.queue == Flatten(f.rows)[Consumed(f, 1, 0)..]
    ensures centerBuffer.queue == CentreQueue(f, 0, 0)
  {
    var g := f.geom;
    var width := InputWidth(g);
    SaturationStart(f, folds);
    for i := 0 to width - 1
      invariant Consumed(f, 0, i + 1) <= |Flatten(f.rows)| && pipeIn.queue == Flatten(f.rows)[Consumed(f, 0, i + 1)..]
      invariant centerBuffer.queue == Span(f, 1, i)
    {
      SaturationRead(f, folds, i);
      SpanPush(f, 1, i);
      var read := SaturationNext(f, folds, pipeIn, i);
      var _ := centerBuffer.WriteOptimistic(read, width);
    }
    SaturationEnd(f, folds);
  }

  /** The steady state starts with empty northBuffer. */
  lemma SteadyStart(f: Feed, folds: nat, input: seq<Vec>, centre: seq<Vec>)
    requires Shaped(f, folds) && folds > 0
    requires Consumed(f, 1, 0) <= |Flatten(f.rows)| && input == Flatten(f.rows)[Consumed(f, 1, 0)..]
    requires centre == CentreQueue(f, 0, 0)
    ensures State(f, 0, 0, 0, 0, input, centre, [], f.boundary, Boundary(f), [])
  {
    Started(f, folds, input);
    Compose(f.geom.rows, f.geom.blocks, 0, 0, 0);
  }

  /** Past the last position the input is used up, both line buffers are
      empty and the pushes are the stage's output. */
  lemma Drained(f: Feed, folds: nat, b: nat, r: nat, input: seq<Vec>, centre: seq<Vec>, north: seq<Vec>,
                shiftWest: real, shiftCenter: Vec, out: seq<Vec>)
    requires Shaped(f, folds) && folds > 0
    requires State(f, |f.rows|, b, r, 0, input, centre, north, shiftWest, shiftCenter, out)
    ensures input == [] && centre == [] && north == [] && out == StageOutput(f)
  {
    LastRow(f, folds);
    Finished(f, folds, b, r, input, shiftWest, shiftCenter, out);
  }

  /** The steady iterations of ComputeFlat, draining included. */
  method Steady(f: Feed, timeFolded: nat, pipeIn: Stream<Vec>, centerBuffer: Stream<Vec>, northBuffer: Stream<Vec>,
                shiftWest: real, shiftCenter: Vec)
    returns (out: seq<Vec>)
    requires Shaped(f, timeFolded) && timeFolded > 0
    requires pipeIn != centerBuffer && pipeIn != northBuffer && centerBuffer != northBuffer
    requires State(f, 0, 0, 0, 0, pipeIn.queue, centerBuffer.queue, northBuffer.queue, shiftWest, shiftCenter, [])
    modifies pipeIn, centerBuffer, northBuffer
    ensures pipeIn.queue == [] && centerBuffer.queue == [] && northBuffer.queue == []
    ensures out == StageOutput(f)
  {
    var g := f.geom;
    var width := InputWidth(g);
    var total := FlatLength(g, timeFolded);
    FlatLengthEnd(f, timeFolded);
    var b, r, c := 0, 0, 0;
    ghost var n: nat := 0;
    var west, center := shiftWest, shiftCenter;
    out := [];
    var i: int := width - 1;
    while i < total + width - 1
      invariant State(f, n, b, r, c, pipeIn.queue, centerBuffer.queue, northBuffer.queue, west, center, out)
      invariant i == Pos(g, n, c) + width - 1
      decreases total + width - 1 - i
    {
      var isDraining := i >= total;
      n, b, r, c, west, center, out := Step(f, timeFolded, pipeIn, centerBuffer, northBuffer, isDraining,
                                            n, b, r, c, west, center, out);
      i := i + 1;
    }
    if n < |f.rows| {
      PosBelow(g, |f.rows|, n, c);
    }
    Drained(f, timeFolded, b, r, pipeIn.queue, centerBuffer.queue, northBuffer.queue, west, center, out);
  }

  /** The compute stage: it pushes exactly StageOutput, consumes its whole
      input, and leaves both line buffers empty, so neither reports a leak
      when it is destroyed. */
  method Compute(f: Feed, timeFolded: nat, pipeIn: Stream<Vec>)
    returns (out: seq<Vec>, centreLeak: Option<LeakReport>, northLeak: Option<LeakReport>)
    requires Shaped(f, timeFolded) && timeFolded > 0 && pipeIn.queue == Flatten(f.rows)
    modifies pipeIn
    ensures out == StageOutput(f) && pipeIn.queue == []
    ensures centreLeak == None && northLeak == None
  {
    var northBuffer := new Stream<Vec>("northBuffer");
    var centerBuffer := new Stream<Vec>("centerBuffer");
    var shiftWest := f.boundary;
    var shiftCenter := Boundary(f);
    Saturate(f, timeFolded, pipeIn, centerBuffer);
    SteadyStart(f, timeFolded, pipeIn.queue, centerBuffer.queue);
    out := Steady(f, timeFolded, pipeIn, centerBuffer, northBuffer, shiftWest, shiftCenter);
    centreLeak := centerBuffer.LeakAtDestruction();
    northLeak := northBuffer.LeakAtDestruction();
  }
}
