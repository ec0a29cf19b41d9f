/** The compute stage of the hardware kernel (Compute in
    kernel/Stencil.cpp): the line buffers are two arrays of kLineWidth
    vectors indexed by the column, northBuffer and centerBuffer, instead
    of FIFOs.  Slot c of centerBuffer is read one row ahead of where it
    is overwritten, and slot c of northBuffer one row after.

    The state of the stage is its progress (StageStep.Progress) and what
    each slot of the two arrays holds; Compute is proved to push exactly
    StageOutput, as the FIFO build does.  The saturation writes the slot
    the steady state reads (column i + 1 for iteration i); the source
    writes slot i + inner_begin, which is modelled on its own below. */
module ComputeArray {
  import opened Streams
  import opened Schedule
  import RowWalk
  import opened StageGeometry
  import opened StencilStage
  import opened StageStep
  import DataPacks

  /** A default-constructed pack: every lane zero. */
  function Zeros(f: Feed): (v: Vec)
    ensures |v| == f.geom.lanes && forall w | 0 <= w < |v| :: v[w] == 0.0
  {
    DataPacks.Filled(f.geom.lanes, 0.0)
  }

  /** What the iteration at (n, c) writes into centerBuffer[c]: its read,
      which is the centre vector below, or a default pack while draining. */
  function Written(f: Feed, n: nat, c: nat): (v: Vec)
    requires WellFormed(f)
    ensures |v| == f.geom.lanes
  {
    var g := f.geom;
    if Pos(g, n, c) + InputWidth(g) - 1 >= Pos(g, |f.rows|, 0) then Zeros(f) else Centre(f, n + 1, c)
  }

  /** Slot j of centerBuffer before column c of global row n: the columns
      before c already hold the next row, the columns after it the
      current one.  Slot c itself has been consumed. */
  ghost predicate CentreSlots(f: Feed, n: nat, c: nat, buffer: seq<Vec>)
    requires WellFormed(f)
  {
    n < |f.rows| ==>
      forall j | 0 <= j < InputWidth(f.geom) && j != c && j < |buffer| ::
        buffer[j] == (if j < c then Written(f, n, j) else Centre(f, n, j))
  }

  /** Slot j of northBuffer before column c of global row n: the columns
      before c hold the current row, the others the row above. */
  ghost predicate NorthSlots(f: Feed, n: nat, c: nat, buffer: seq<Vec>)
    requires WellFormed(f)
  {
    n < |f.rows| ==>
      forall j | 0 <= j < InputWidth(f.geom) && j < |buffer| ::
        (j < c ==> buffer[j] == Centre(f, n, j)) && (c <= j && n > 0 ==> buffer[j] == Centre(f, n - 1, j))
  }

  /** The state of the stage before column c of global row n (or at the
      end, n = |rows| and c = 0): its progress and its two arrays. */
  ghost predicate State(f: Feed, n: nat, b: nat, r: nat, c: nat, input: seq<Vec>,
                        centre: seq<Vec>, north: seq<Vec>, shiftWest: real, shiftCenter: Vec, out: seq<Vec>)
  {
    Progress(f, n, b, r, c, input, shiftWest, shiftCenter, out)
    && |centre| == LineWidth(f.geom) && |north| == LineWidth(f.geom)
    && CentreSlots(f, n, c, centre) && NorthSlots(f, n, c, north)
  }

  // ---------------------------------------------------------------------
  // The arrays from one position to the next

  /** The slot of centerBuffer the steady iteration at column c reads the
      next centre vector from: c + 1, or slot 0 after the last column. */
  function ReadSlot(g: Stage, c: nat): nat
    requires Valid(g)
  {
    if c < InputWidth(g) - 1 then c + 1 else 0
  }

  /** The iteration at (n, c) reads the next centre vector from slot c + 1
      (slot 0 after the last column), and writing its read into slot c
      gives centerBuffer at the next position. */
  lemma CentreSlotsStep(f: Feed, n: nat, c: nat, n': nat, c': nat, buffer: seq<Vec>)
    requires WellFormed(f) && n < |f.rows| && c < InputWidth(f.geom) && Follows(f.geom, n, c, n', c')
    requires |buffer| == LineWidth(f.geom) && CentreSlots(f, n, c, buffer)
    ensures InputWidth(f.geom) <= |buffer|
    ensures buffer[ReadSlot(f.geom, c)] == NextCentre(f, n, c)
    ensures CentreSlots(f, n', c', buffer[c := Written(f, n, c)])
  {
    var g, width := f.geom, InputWidth(f.geom);
    FitsLine(g);
    InnerSpan(g);
    var buffer' := buffer[c := Written(f, n, c)];
    if c == width - 1 {
      PosBelow(g, |f.rows|, n, c);
      assert buffer[0] == Written(f, n, 0);
    }
    if n' < |f.rows| {
      forall j | 0 <= j < width && j != c' && j < |buffer'|
        ensures buffer'[j] == (if j < c' then Written(f, n', j) else Centre(f, n', j))
      {
        if c' == 0 && j <= c {
          Draining(g, |f.rows|, n, j);
        }
      }
    }
  }

  /** The iteration at (n, c) reads its north neighbour from slot c on
      rows after the first of a block, and writing the current centre
      into slot c gives northBuffer at the next position. */
  lemma NorthSlotsStep(f: Feed, n: nat, c: nat, n': nat, c': nat, buffer: seq<Vec>)
    requires WellFormed(f) && n < |f.rows| && c < InputWidth(f.geom) && Follows(f.geom, n, c, n', c')
    requires |buffer| == LineWidth(f.geom) && NorthSlots(f, n, c, buffer)
    ensures c < |buffer|
    ensures RowOf(f.geom.rows, n) > 0 ==> buffer[c] == North(f, n, c)
    ensures NorthSlots(f, n', c', buffer[c := Centre(f, n, c)])
  {
    FitsLine(f.geom);
  }

  /** The line buffers in one steady iteration: the north neighbour from
      slot c on rows after the first of a block, the next centre vector
      from slot c + 1, or slot 0 after the last column; then the read
      goes into centerBuffer[c] and the current centre into northBuffer[c],
      on every iteration. */
  method LineBuffers(f: Feed, centerBuffer: array<Vec>, northBuffer: array<Vec>,
                     ghost n: nat, r: nat, c: nat, read: Vec, shiftCenter: Vec, ghost n': nat, ghost c': nat)
    returns (north: Vec, nextCenter: Vec)
    requires WellFormed(f) && n < |f.rows| && c < InputWidth(f.geom) && Follows(f.geom, n, c, n', c')
    requires centerBuffer != northBuffer && r == RowOf(f.geom.rows, n)
    requires read == Written(f, n, c) && shiftCenter == Centre(f, n, c)
    requires centerBuffer.Length == LineWidth(f.geom) && CentreSlots(f, n, c, centerBuffer[..])
    requires northBuffer.Length == LineWidth(f.geom) && NorthSlots(f, n, c, northBuffer[..])
    modifies centerBuffer, northBuffer
    ensures north == North(f, n, c) && nextCenter == NextCentre(f, n, c)
    ensures CentreSlots(f, n', c', centerBuffer[..]) && NorthSlots(f, n', c', northBuffer[..])
  {
    CentreSlotsStep(f, n, c, n', c', centerBuffer[..]);
    NorthSlotsStep(f, n, c, n', c', northBuffer[..]);
    north := if r > 0 then northBuffer[c] else Boundary(f);
    nextCenter := centerBuffer[ReadSlot(f.geom, c)];
    centerBuffer[c] := read;
    northBuffer[c] := shiftCenter;
  }

  /** The read and the two arrays in one steady iteration. */
  method Traffic(f: Feed, ghost folds: nat, pipeIn: Stream<Vec>, centerBuffer: array<Vec>, northBuffer: array<Vec>,
                 isDraining: bool, ghost n: nat, b: nat, r: nat, c: nat, shiftWest: real, shiftCenter: Vec,
                 ghost out: seq<Vec>, ghost n': nat, ghost c': nat)
    returns (north: Vec, nextCenter: Vec, south: Vec)
    requires Shaped(f, folds) && folds > 0 && n < |f.rows| && Follows(f.geom, n, c, n', c')
    requires centerBuffer != northBuffer
    requires State(f, n, b, r, c, pipeIn.queue, centerBuffer[..], northBuffer[..], shiftWest, shiftCenter, out)
    requires isDraining <==> Pos(f.geom, n, c) + InputWidth(f.geom) - 1 >= Pos(f.geom, |f.rows|, 0)
    modifies pipeIn, centerBuffer, northBuffer
    ensures Consumed(f, n + 1, c + 1) <= |Flatten(f.rows)| && pipeIn.queue == Flatten(f.rows)[Consumed(f, n + 1, c + 1)..]
    ensures CentreSlots(f, n', c', centerBuffer[..]) && NorthSlots(f, n', c', northBuffer[..])
    ensures north == North(f, n, c) && nextCenter == NextCentre(f, n, c) && south == South(f, n, c)
  {
    var read;
    read, south := ReadNext(f, folds, pipeIn, isDraining, n, b, r, c);
    north, nextCenter := LineBuffers(f, centerBuffer, northBuffer, n, r, c, read, shiftCenter, n', c');
  }

  /** One iteration of ComputeFlat after saturation. */
  method Step(f: Feed, ghost folds: nat, pipeIn: Stream<Vec>, centerBuffer: array<Vec>, northBuffer: array<Vec>,
              isDraining: bool, ghost n: nat, b: nat, r: nat, c: nat, shiftWest: real, shiftCenter: Vec, out: seq<Vec>)
    returns (ghost n': nat, b': nat, r': nat, c': nat, shiftWest': real, shiftCenter': Vec, out': seq<Vec>)
    requires Shaped(f, folds) && folds > 0 && n < |f.rows| && centerBuffer != northBuffer
    requires State(f, n, b, r, c, pipeIn.queue, centerBuffer[..], northBuffer[..], shiftWest, shiftCenter, out)
    requires isDraining <==> Pos(f.geom, n, c) + InputWidth(f.geom) - 1 >= Pos(f.geom, |f.rows|, 0)
    modifies pipeIn, centerBuffer, northBuffer
    ensures State(f, n', b', r', c', pipeIn.queue, centerBuffer[..], northBuffer[..], shiftWest', shiftCenter', out')
    ensures Pos(f.geom, n', c') == Pos(f.geom, n, c) + 1
  {
    var width := InputWidth(f.geom);
    n' := if c == width - 1 then n + 1 else n;
    ghost var nextC: nat := if c == width - 1 then 0 else c + 1;
    var north, nextCenter, south := Traffic(f, folds, pipeIn, centerBuffer, northBuffer, isDraining, n, b, r, c,
                                            shiftWest, shiftCenter, out, n', nextC);
    b', r', c', shiftWest', shiftCenter', out' := Advance(f, folds, n, b, r, c, shiftWest, shiftCenter, out,
                                                          north, nextCenter, south, pipeIn.queue, n', nextC);
  }

  // ---------------------------------------------------------------------
  // Saturation

  /** The slot saturation iteration i fills: the one the steady state
      reads column i + 1 of the first row from. */
  function SaturationSlot(i: nat): nat
  {
    i + 1
  }

  /** The slot kernel/Stencil.cpp fills in saturation iteration i:
      centerBuffer[i + inner_begin]. */
  function SaturationSlotAsWritten(g: Stage, i: nat): nat
    requires Valid(g)
  {
    i + InnerBegin(g)
  }

  /** The slots the saturation fills lie inside the array, and iteration i
      fills the slot ReadSlot from which the steady iteration at column i
      of the first row takes its next centre vector. */
  lemma SaturationSlots(g: Stage, i: nat)
    requires Valid(g) && i < InputWidth(g) - 1
    ensures SaturationSlot(i) < LineWidth(g)
    ensures SaturationSlot(i) == ReadSlot(g, i)
  {
    FitsLine(g);
  }

  /** The source's slot agrees with the intended one exactly when the halo
      is one vector wide. */
  lemma AsWrittenAgrees(g: Stage)
    requires Valid(g)
    ensures (forall i: nat :: SaturationSlotAsWritten(g, i) == SaturationSlot(i)) <==> Halo(g) == 1
  {
    InnerSpan(g);
    assert SaturationSlotAsWritten(g, 0) == Halo(g);
  }

  /** With a halo of two vectors or more, the first stage writes past the
      end of centerBuffer in its last saturation iteration: there
      kLineWidth is input_width. */
  lemma AsWrittenOverflows(g: Stage)
    requires Valid(g) && g.stage == 0 && Halo(g) >= 2
    ensures SaturationSlotAsWritten(g, InputWidth(g) - 2) >= LineWidth(g)
  {
    InnerSpan(g);
  }

  /** One such configuration: one lane, two timesteps in the pipeline, one
      vector per block.  The first stage's centerBuffer has five slots and
      its fourth saturation iteration writes slot five. */
  lemma AsWrittenOverflowExample()
    ensures var g := Stage(1, 2, 1, 2, 1, 0);
      Valid(g) && InputWidth(g) == 5 && LineWidth(g) == 5
      && SaturationSlotAsWritten(g, 3) == 5 && SaturationSlot(3) == 4
  {
    var g := Stage(1, 2, 1, 2, 1, 0);
    assert CeilDiv(2, 1) == 2;
    assert Halo(g) == 2;
    InnerSpan(g);
  }

  /** Slots 1 to i of centerBuffer hold the first row's columns 1 to i. */
  ghost predicate SaturatedTo(f: Feed, buffer: seq<Vec>, i: nat)
    requires WellFormed(f)
  {
    forall j | 1 <= j <= i && j < |buffer| :: buffer[j] == Centre(f, 0, j)
  }

  /** Writing column i + 1 of the first row into its slot extends the
      saturated prefix by one. */
  lemma SaturatedStep(f: Feed, buffer: seq<Vec>, i: nat, read: Vec)
    requires WellFormed(f) && |buffer| == LineWidth(f.geom) && i + 1 < InputWidth(f.geom)
    requires SaturatedTo(f, buffer, i) && read == Centre(f, 0, i + 1)
    ensures SaturationSlot(i) < |buffer| && SaturatedTo(f, buffer[SaturationSlot(i) := read], i + 1)
  {
    FitsLine(f.geom);
  }

  /** After saturation the whole first row but column 0 sits in
      centerBuffer, and the first row's vectors are consumed. */
  lemma SaturationEnd(f: Feed, folds: nat, buffer: seq<Vec>)
    requires Shaped(f, folds) && folds > 0 && |buffer| == LineWidth(f.geom)
    requires SaturatedTo(f, buffer, InputWidth(f.geom) - 1)
    ensures Consumed(f, 0, InputWidth(f.geom)) == Consumed(f, 1, 0)
    ensures CentreSlots(f, 0, 0, buffer)
  {
    LastRow(f, folds);
    RowConsumed(f, folds, 0);
    FitsLine(f.geom);
  }

  /** The saturation iterations of ComputeFlat (i < input_width - 1): each
      reads column i + 1 of the first row into SaturationSlot(i). */
  method Saturate(f: Feed, ghost folds: nat, pipeIn: Stream<Vec>, centerBuffer: array<Vec>)
    requires Shaped(f, folds) && folds > 0
    requires pipeIn.queue == Flatten(f.rows) && centerBuffer.Length == LineWidth(f.geom)
    modifies pipeIn, centerBuffer
    ensures Consumed(f, 1, 0) <= |Flatten(f.rows)| && pipeIn.queue == Flatten(f.rows)[Consumed(f, 1, 0)..]
    ensures CentreSlots(f, 0, 0, centerBuffer[..])
  {
    var g := f.geom;
    var width := InputWidth(g);
    SaturationStart(f, folds);
    for i := 0 to width - 1
      invariant Consumed(f, 0, i + 1) <= |Flatten(f.rows)| && pipeIn.queue == Flatten(f.rows)[Consumed(f, 0, i + 1)..]
      invariant SaturatedTo(f, centerBuffer[..], i)
    {
      var read := SaturationNext(f, folds, pipeIn, i);
      SaturatedStep(f, centerBuffer[..], i, read);
      centerBuffer[SaturationSlot(i)] := read;
    }
    SaturationEnd(f, folds, centerBuffer[..]);
  }

  // ---------------------------------------------------------------------
  // The steady state and the whole stage

  /** The steady iterations of ComputeFlat, draining included. */
  method Steady(f: Feed, timeFolded: nat, pipeIn: Stream<Vec>, centerBuffer: array<Vec>, northBuffer: array<Vec>,
                shiftWest: real, shiftCenter: Vec)
    returns (out: seq<Vec>)
    requires Shaped(f, timeFolded) && timeFolded > 0 && centerBuffer != northBuffer
    requires State(f, 0, 0, 0, 0, pipeIn.queue, centerBuffer[..], northBuffer[..], shiftWest, shiftCenter, [])
    modifies pipeIn, centerBuffer, northBuffer
    ensures pipeIn.queue == [] && out == StageOutput(f)
  {
    var g := f.geom;
    var width := InputWidth(g);
    var total := FlatLength(g, timeFolded);
    FlatLengthEnd(f, timeFolded);
    var b, r, c := 0, 0, 0;
    ghost var n: nat := 0;
    var west, center := shiftWest, shiftCenter;
    out := [];
    var i: int := width - 1;
    while i < total + width - 1
      invariant State(f, n, b, r, c, pipeIn.queue, centerBuffer[..], northBuffer[..], west, center, out)
      invariant i == Pos(g, n, c) + width - 1
      decreases total + width - 1 - i
    {
      var isDraining := i >= total;
      n, b, r, c, west, center, out := Step(f, timeFolded, pipeIn, centerBuffer, northBuffer, isDraining,
                                            n, b, r, c, west, center, out);
      i := i + 1;
    }
    if n < |f.rows| {
      PosBelow(g, |f.rows|, n, c);
    }
    Finished(f, timeFolded, b, r, pipeIn.queue, west, center, out);
  }

  /** The compute stage: it pushes exactly StageOutput and consumes its
      whole input. */
  method Compute(f: Feed, timeFolded: nat, pipeIn: Stream<Vec>) returns (out: seq<Vec>)
    requires Shaped(f, timeFolded) && timeFolded > 0 && pipeIn.queue == Flatten(f.rows)
    modifies pipeIn
    ensures out == StageOutput(f) && pipeIn.queue == []
  {
    var lineWidth := LineWidth(f.geom);
    var northBuffer := new Vec[lineWidth](_ => Zeros(f));
    var centerBuffer := new Vec[lineWidth](_ => Zeros(f));
    var shiftWest := f.boundary;
    var shiftCenter := Boundary(f);
    Saturate(f, timeFolded, pipeIn, centerBuffer);
    Started(f, timeFolded, pipeIn.queue);
    out := Steady(f, timeFolded, pipeIn, centerBuffer, northBuffer, shiftWest, shiftCenter);
  }
}
