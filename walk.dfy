/** The flattened row walk shared by the stages whose rows have a
    block-dependent width.

    In one folded timestep the stages visit `blocks` blocks of `rows` rows
    each; a row of the first or of the last block holds `edge` elements, a
    row of an interior block `inner` elements (the interior blocks carry a
    halo on both sides).  Global row n = (t * blocks + b) * rows + r starts
    at stream position Offset(RowWidth(s), n).  The flattened loops of
    DemuxRead and Widen step a (b, r, c) counter through these positions
    one element at a time. */
module RowWalk {
  import opened Schedule

  datatype Shape = Shape(blocks: nat, rows: nat, edge: nat, inner: nat)

  predicate Valid(s: Shape)
  {
    s.blocks >= 2 && s.rows > 0 && s.edge > 0 && s.inner > 0
  }

  /** Elements in a row of block b. */
  function Width(s: Shape, b: nat): nat
  {
    if b == 0 || b == s.blocks - 1 then s.edge else s.inner
  }

  /** Elements in global row n. */
  function RowWidth(s: Shape): nat -> nat
  {
    n => if s.rows > 0 && s.blocks > 0 then Width(s, BlockOf(s.rows, s.blocks, n)) else 0
  }

  /** Elements in one folded timestep: two edge blocks and blocks - 2
      interior blocks of `rows` rows each. */
  function PerFold(s: Shape): nat
    requires Valid(s)
  {
    s.rows * (2 * s.edge + (s.blocks - 2) * s.inner)
  }

  /** Rows in `folds` folded timesteps. */
  function TotalRows(s: Shape, folds: nat): nat
  {
    folds * (s.blocks * s.rows)
  }

  /** Elements in `folds` folded timesteps. */
  function Elements(s: Shape, folds: nat): nat
    requires Valid(s)
  {
    folds * PerFold(s)
  }

  /** One more fold adds PerFold elements, and a fold before the last
      ends no later than the last one. */
  lemma ElementsStep(s: Shape, t: nat, folds: nat)
    requires Valid(s) && t < folds
    ensures Elements(s, t + 1) == Elements(s, t) + PerFold(s)
    ensures Elements(s, t + 1) <= Elements(s, folds)
  {
    MulLe(t + 1, folds, PerFold(s));
  }

  /** Elements in the rows of the blocks before block b. */
  function BlocksBefore(s: Shape, b: nat): nat
  {
    if b == 0 then 0 else s.edge + (b - 1) * s.inner
  }

  /** Inside the first fold, row r of block b starts after the rows of
      the blocks before b and the r rows of b before it. */
  lemma {:induction false} OffsetInFold(s: Shape, b: nat, r: nat)
    requires Valid(s) && b < s.blocks && r <= s.rows
    ensures Offset(RowWidth(s), b * s.rows + r) == s.rows * BlocksBefore(s, b) + r * Width(s, b)
    decreases b, r
  {
    if r > 0 {
      OffsetInFold(s, b, r - 1);
      RowInFirstFold(s, b, r - 1);
      MulPred(r, Width(s, b));
    } else if b > 0 {
      OffsetInFold(s, b - 1, s.rows);
      MulPred(b, s.rows);
      BlocksBeforeNext(s, b - 1);
      MulAdd(s.rows, BlocksBefore(s, b - 1), Width(s, b - 1));
    }
  }

  /** Row r of block b of the first fold is global row b * rows + r, of
      width Width(b), and the row after it starts where it ends. */
  lemma RowInFirstFold(s: Shape, b: nat, r: nat)
    requires Valid(s) && b < s.blocks && r < s.rows
    ensures RowWidth(s)(b * s.rows + r) == Width(s, b)
    ensures Offset(RowWidth(s), b * s.rows + r + 1) == Offset(RowWidth(s), b * s.rows + r) + Width(s, b)
  {
    Compose(s.rows, s.blocks, 0, b, r);
    assert (0 * s.blocks + b) * s.rows + r == b * s.rows + r;
  }

  /** The blocks before b + 1 are those before b and block b. */
  lemma BlocksBeforeNext(s: Shape, b: nat)
    requires b + 1 < s.blocks
    ensures BlocksBefore(s, b + 1) == BlocksBefore(s, b) + Width(s, b)
  {
    if b > 0 {
      MulPred(b, s.inner);
    }
  }

  lemma MulAssoc(a: nat, b: nat, c: nat)
    ensures a * (b * c) == a * b * c
  {
  }

  lemma MulAdd(a: nat, x: nat, y: nat)
    ensures a * (x + y) == a * x + a * y
  {
  }

  /** One folded timestep holds PerFold elements. */
  lemma FoldLength(s: Shape)
    requires Valid(s)
    ensures Offset(RowWidth(s), s.blocks * s.rows) == PerFold(s)
  {
    var b := s.blocks - 1;
    OffsetInFold(s, b, s.rows);
    MulPred(s.blocks, s.rows);
    var interior := (s.blocks - 2) * s.inner;
    assert BlocksBefore(s, b) == s.edge + interior;
    MulAdd(s.rows, s.edge + interior, s.edge);
  }

  /** Rows one fold apart belong to the same block. */
  lemma BlockPeriodic(s: Shape, k: nat)
    requires Valid(s)
    ensures BlockOf(s.rows, s.blocks, k + s.blocks * s.rows) == BlockOf(s.rows, s.blocks, k)
  {
    var q := k / s.rows;
    DivBounds(k, s.rows);
    DivModUnique(k + s.blocks * s.rows, s.rows, q + s.blocks, k % s.rows);
    DivModUnique(q + s.blocks, s.blocks, q / s.blocks + 1, q % s.blocks);
  }

  /** `folds` folded timesteps hold folds * PerFold elements. */
  lemma FoldsLength(s: Shape, folds: nat)
    requires Valid(s)
    ensures Offset(RowWidth(s), TotalRows(s, folds)) == Elements(s, folds)
  {
    var w := RowWidth(s);
    forall k: nat
      ensures w(After(k, s.blocks * s.rows)) == w(k)
    {
      BlockPeriodic(s, k);
    }
    OffsetPeriodic(w, s.blocks * s.rows, folds);
    FoldLength(s);
  }

  /** Stream position e is column c of global row n. */
  predicate At(s: Shape, e: nat, n: nat, c: nat)
  {
    e == Offset(RowWidth(s), n) + c && c < RowWidth(s)(n)
  }

  /** A position before the end of `folds` folds lies in one of their
      rows. */
  lemma InsideFolds(s: Shape, folds: nat, e: nat, n: nat, c: nat)
    requires Valid(s) && At(s, e, n, c) && e < Elements(s, folds)
    ensures n < TotalRows(s, folds)
  {
    FoldsLength(s, folds);
    OffsetBelow(RowWidth(s), n, c, TotalRows(s, folds));
  }

  /** The position just past `folds` folds is the start of row
      folds * blocks * rows, which is column 0 of row 0 of block 0. */
  lemma FoldsEnd(s: Shape, folds: nat, n: nat, c: nat)
    requires Valid(s)
    requires Elements(s, folds) == Offset(RowWidth(s), n) + c
    requires c < RowWidth(s)(n)
    ensures n == TotalRows(s, folds) && c == 0
    ensures RowOf(s.rows, n) == 0 && BlockOf(s.rows, s.blocks, n) == 0
  {
    var w := RowWidth(s);
    FoldsLength(s, folds);
    forall k: nat
      ensures w(k) > 0
    {
    }
    OffsetLocate(w, n, c, TotalRows(s, folds));
    MulAssoc(folds, s.blocks, s.rows);
    FoldStart(s.rows, s.blocks, folds);
  }

  /** The counters the flattened loops keep for position (n, c): the
      block and the row of global row n, and column c. */
  predicate Counters(s: Shape, n: nat, b: nat, r: nat)
    requires Valid(s)
  {
    b == BlockOf(s.rows, s.blocks, n) && r == RowOf(s.rows, n)
  }

  /** The counter update of the flattened loops, after the word at column
      c of a row of block b has been handled. */
  predicate Carried(s: Shape, last: bool, b: nat, r: nat, c: nat, b': nat, r': nat, c': nat)
  {
    if last then
      c' == 0 && r' == (if r == s.rows - 1 then 0 else r + 1)
      && b' == (if r == s.rows - 1 then (if b == s.blocks - 1 then 0 else b + 1) else b)
    else c' == c + 1 && r' == r && b' == b
  }

  /** The counter update shared by the flattened loops: after the last
      column of a row the column restarts and the row advances, wrapping
      into the next block after the last row of a block and into the next
      fold after the last block. */
  method Carry(s: Shape, last: bool, b: nat, r: nat, c: nat) returns (b': nat, r': nat, c': nat)
    ensures Carried(s, last, b, r, c, b', r', c')
  {
    b', r', c' := b, r, c;
    if last {
      c' := 0;
      if r == s.rows - 1 {
        r' := 0;
        if b == s.blocks - 1 {
          b' := 0;
        } else {
          b' := b + 1;
        }
      } else {
        r' := r + 1;
      }
    } else {
      c' := c + 1;
    }
  }

  /** One step of a flattened loop: position e is column c of row n, and
      the counters carry to column c + 1, or to the next row after the last
      column of a row. */
  lemma WalkStep(s: Shape, e: nat, n: nat, c: nat, b: nat, r: nat, last: bool, n': nat, b': nat, r': nat, c': nat)
    requires Valid(s) && At(s, e, n, c) && Counters(s, n, b, r)
    requires last <==> c == Width(s, b) - 1
    requires Carried(s, last, b, r, c, b', r', c') && n' == if last then n + 1 else n
    ensures At(s, e + 1, n', c') && Counters(s, n', b', r')
  {
    NextRow(s.rows, s.blocks, n);
  }

  /** A stage that pushes `rows` element by element has pushed the first
      n rows and the first c elements of row n. */
  ghost predicate Emitted<X>(rows: seq<seq<X>>, out: seq<X>, n: nat, c: nat)
  {
    n <= |rows| && (n == |rows| ==> c == 0) && (n < |rows| ==> c < |rows[n]|)
    && out == Flatten(rows[..n]) + (if n < |rows| then rows[n][..c] else [])
  }

  /** Pushing element c of row n moves on to element c + 1, or to the
      start of the next row after the last element of a row. */
  lemma EmitNext<X>(rows: seq<seq<X>>, out: seq<X>, n: nat, c: nat)
    requires Emitted(rows, out, n, c) && n < |rows|
    requires n + 1 < |rows| ==> |rows[n + 1]| > 0
    ensures if c == |rows[n]| - 1 then Emitted(rows, out + [rows[n][c]], n + 1, 0)
            else Emitted(rows, out + [rows[n][c]], n, c + 1)
  {
    assert rows[n][..c] + [rows[n][c]] == rows[n][..c + 1];
    if c == |rows[n]| - 1 {
      assert rows[n][..c + 1] == rows[n];
      FlattenNext(rows, n);
    }
  }

  /** The row end test of the flattened loops: column c is the last of a
      row of block b (edge blocks end at edge - 1, interior blocks at
      inner - 1). */
  function LastCol(s: Shape, b: nat, c: nat): bool
  {
    ((b == 0 || b == s.blocks - 1) && c == s.edge - 1)
    || ((b > 0 && b < s.blocks - 1) && c == s.inner - 1)
  }

  lemma LastColIsRowEnd(s: Shape, b: nat, c: nat)
    requires Valid(s) && b < s.blocks
    ensures LastCol(s, b, c) <==> c == Width(s, b) - 1
  {
  }

  /** The parity of a row inside its block is the parity of its global
      index when every block has an even number of rows. */
  lemma RowParity(rows: nat, n: nat)
    requires rows > 0 && rows % 2 == 0
    ensures RowOf(rows, n) % 2 == n % 2
  {
    var q := n / rows;
    var h := rows / 2;
    assert n == q * rows + n % rows;
    assert q * rows == 2 * (q * h);
    DivModUnique(n, 2, q * h + (n % rows) / 2, (n % rows) % 2);
  }

  /** The rows at even and at odd global indices. */
  function Evens<X>(rows: seq<X>): (r: seq<X>)
    ensures |r| == (|rows| + 1) / 2 && forall i | 0 <= i < |r| :: r[i] == rows[2 * i]
  {
    seq((|rows| + 1) / 2, i requires 0 <= i < (|rows| + 1) / 2 => rows[2 * i])
  }

  function Odds<X>(rows: seq<X>): (r: seq<X>)
    ensures |r| == |rows| / 2 && forall i | 0 <= i < |r| :: r[i] == rows[2 * i + 1]
  {
    seq(|rows| / 2, i requires 0 <= i < |rows| / 2 => rows[2 * i + 1])
  }

  lemma {:induction false} FlattenConcat<X>(a: seq<seq<X>>, b: seq<seq<X>>)
    ensures Flatten(a + b) == Flatten(a) + Flatten(b)
    decreases |b|
  {
    if b == [] {
      assert a + b == a;
    } else {
      var init := b[..|b| - 1];
      assert a + b == (a + init) + [b[|b| - 1]];
      FlattenSnoc(a + init, b[|b| - 1]);
      FlattenConcat(a, init);
      FlattenSnoc(init, b[|b| - 1]);
      assert b == init + [b[|b| - 1]];
    }
  }

  /** Element j of row k of a concatenation sits after the first k rows. */
  lemma FlattenIndex<X>(rows: seq<seq<X>>, k: nat, j: nat)
    requires k < |rows| && j < |rows[k]|
    ensures |Flatten(rows[..k])| + j < |Flatten(rows)|
    ensures Flatten(rows)[|Flatten(rows[..k])| + j] == rows[k][j]
  {
    assert rows == rows[..k] + [rows[k]] + rows[k + 1..];
    FlattenConcat(rows[..k] + [rows[k]], rows[k + 1..]);
    FlattenSnoc(rows[..k], rows[k]);
  }

  /** Taking one more row appends that row. */
  lemma FlattenNext<X>(rows: seq<seq<X>>, k: nat)
    requires k < |rows|
    ensures Flatten(rows[..k + 1]) == Flatten(rows[..k]) + rows[k]
  {
    assert rows[..k + 1] == rows[..k] + [rows[k]];
    FlattenSnoc(rows[..k], rows[k]);
  }
}
