/** Integer helpers and the row schedule shared by every pipeline stage.

    Every stage of the pipeline walks the same iteration space: for each
    folded timestep t, each block b and each row r it handles one row of
    the block.  A row is identified here by its global index
    n = (t * blocks + b) * rows + r, and a stream that is produced row by
    row is the concatenation of its rows; the position at which row n
    starts is the sum of the widths of the rows before it (Offset). */
module Schedule {

  /** Ceiling division on non-negative integers: the behaviour assumed of
      hlslib::CeilDivide (its header is not part of this model). */
  function CeilDiv(a: nat, b: nat): (q: nat)
    requires b > 0
    ensures q * b >= a
    ensures q == 0 || (q - 1) * b < a
  {
    var q := (a + b - 1) / b;
    DivBounds(a + b - 1, b);
    q
  }

  lemma DivBounds(x: nat, d: nat)
    requires d > 0
    ensures (x / d) * d <= x < (x / d) * d + d
  {
  }

  /** Euclidean division is unique: any decomposition n = q * d + r with
      0 <= r < d is the one that / and % compute. */
  lemma DivModUnique(n: int, d: int, q: int, r: int)
    requires d > 0 && 0 <= r < d && n == q * d + r
    ensures n / d == q && n % d == r
  {
    var q0, r0 := n / d, n % d;
    assert n == q0 * d + r0;
    assert (q - q0) * d == r0 - r;
    if q > q0 {
      MulAtLeast(q - q0, d);
    } else if q < q0 {
      MulAtLeast(q0 - q, d);
    }
  }

  lemma MulAtLeast(k: int, d: int)
    requires k >= 1 && d > 0
    ensures k * d >= d
  {
  }

  /** Row r of the block that global row n belongs to. */
  function RowOf(rows: nat, n: nat): nat
    requires rows > 0
  {
    n % rows
  }

  /** Block b that global row n belongs to. */
  function BlockOf(rows: nat, blocks: nat, n: nat): nat
    requires rows > 0 && blocks > 0
  {
    (n / rows) % blocks
  }

  /** Folded timestep t that global row n belongs to. */
  function FoldOf(rows: nat, blocks: nat, n: nat): nat
    requires rows > 0 && blocks > 0
  {
    (n / rows) / blocks
  }

  /** The (t, b, r) counters of global row n are the unique ones with
      n = (t * blocks + b) * rows + r. */
  lemma Compose(rows: nat, blocks: nat, t: nat, b: nat, r: nat)
    requires rows > 0 && blocks > 0 && b < blocks && r < rows
    ensures var n := (t * blocks + b) * rows + r;
      RowOf(rows, n) == r && BlockOf(rows, blocks, n) == b && FoldOf(rows, blocks, n) == t
  {
    var n := (t * blocks + b) * rows + r;
    DivModUnique(n, rows, t * blocks + b, r);
    DivModUnique(t * blocks + b, blocks, t, b);
  }

  /** The carry logic of every flattened loop in the pipeline
      (c -> r -> b -> t): stepping from row n to row n + 1 increments r,
      and on the last row wraps r to 0 and increments b, and on the last
      block wraps b to 0 and increments t. */
  lemma NextRow(rows: nat, blocks: nat, n: nat)
    requires rows > 0 && blocks > 0
    ensures RowOf(rows, n + 1) == if RowOf(rows, n) == rows - 1 then 0 else RowOf(rows, n) + 1
    ensures BlockOf(rows, blocks, n + 1) ==
      if RowOf(rows, n) < rows - 1 then BlockOf(rows, blocks, n)
      else if BlockOf(rows, blocks, n) == blocks - 1 then 0
      else BlockOf(rows, blocks, n) + 1
    ensures FoldOf(rows, blocks, n + 1) ==
      if RowOf(rows, n) == rows - 1 && BlockOf(rows, blocks, n) == blocks - 1
      then FoldOf(rows, blocks, n) + 1 else FoldOf(rows, blocks, n)
  {
    var q, r := n / rows, n % rows;
    var t, b := q / blocks, q % blocks;
    assert n == q * rows + r;
    assert q == t * blocks + b;
    if r < rows - 1 {
      DivModUnique(n + 1, rows, q, r + 1);
    } else {
      assert n + 1 == (q + 1) * rows;
      DivModUnique(n + 1, rows, q + 1, 0);
      if b < blocks - 1 {
        DivModUnique(q + 1, blocks, t, b + 1);
      } else {
        DivModUnique(q + 1, blocks, t + 1, 0);
      }
    }
  }

  /** The first row of fold t is block 0, row 0. */
  lemma FoldStart(rows: nat, blocks: nat, t: nat)
    requires rows > 0 && blocks > 0
    ensures RowOf(rows, t * blocks * rows) == 0
    ensures BlockOf(rows, blocks, t * blocks * rows) == 0
    ensures FoldOf(rows, blocks, t * blocks * rows) == t
  {
    Compose(rows, blocks, t, 0, 0);
  }

  /** A row that is not the last of its block is not the last row of a
      whole number of folds. */
  lemma NotLastRow(rows: nat, blocks: nat, folds: nat, n: nat)
    requires rows > 0 && blocks > 0
    requires n < folds * blocks * rows && RowOf(rows, n) < rows - 1
    ensures n + 1 < folds * blocks * rows
  {
    if n + 1 == folds * blocks * rows {
      assert folds * blocks * rows == (folds * blocks) * rows;
      DivModUnique(n + 1, rows, folds * blocks, 0);
      NextRow(rows, blocks, n);
    }
  }

  /** Start position of row n in a stream whose row k holds width(k)
      elements. */
  function Offset(width: nat -> nat, n: nat): nat
  {
    if n == 0 then 0 else Offset(width, n - 1) + width(n - 1)
  }

  lemma {:induction false} OffsetMonotone(width: nat -> nat, m: nat, n: nat)
    requires m <= n
    ensures Offset(width, m) + (if m < n then width(m) else 0) <= Offset(width, n)
    decreases n - m
  {
    if m < n {
      OffsetMonotone(width, m + 1, n);
    }
  }

  /** With positive widths a stream position belongs to exactly one row:
      position Offset(n) + c with c < width(n) is the start of row m only
      when it is the start of row n itself. */
  lemma OffsetLocate(width: nat -> nat, n: nat, c: nat, m: nat)
    requires forall k: nat :: width(k) > 0
    requires c < width(n)
    requires Offset(width, n) + c == Offset(width, m)
    ensures n == m && c == 0
  {
    if n < m {
      OffsetMonotone(width, n, m);
    } else if m < n {
      OffsetMonotone(width, m, n);
    }
  }

  /** A position before the start of row m lies in a row before m. */
  lemma OffsetBelow(width: nat -> nat, n: nat, c: nat, m: nat)
    requires Offset(width, n) + c < Offset(width, m)
    ensures n < m
  {
    if n >= m {
      OffsetMonotone(width, m, n);
    }
  }

  /** Widths that repeat every `period` rows make every whole number of
      periods take the same space. */
  lemma {:induction false} OffsetPeriodic(width: nat -> nat, period: nat, t: nat)
    requires forall k: nat :: width(After(k, period)) == width(k)
    ensures Offset(width, t * period) == t * Offset(width, period)
  {
    if t > 0 {
      OffsetPeriodic(width, period, t - 1);
      OffsetShift(width, period, t - 1, period);
      MulPred(t, period);
      MulPred(t, Offset(width, period));
    }
  }

  /** Stepping a position x on by one moves to the next lane of its
      word, or to lane 0 of the next word after the last lane. */
  lemma NextLane(x: nat, p: nat)
    requires p > 0
    ensures (x + 1) % p == (if x % p == p - 1 then 0 else x % p + 1)
    ensures (x + 1) / p == (if x % p == p - 1 then x / p + 1 else x / p)
  {
    DivBounds(x, p);
    if x % p == p - 1 {
      DivModUnique(x + 1, p, x / p + 1, 0);
    } else {
      DivModUnique(x + 1, p, x / p, x % p + 1);
    }
  }

  /** A position inside the first word. */
  lemma FirstWord(x: nat, p: nat)
    requires x < p
    ensures x / p == 0 && x % p == x
  {
    DivModUnique(x, p, 0, x);
  }

  /** One fewer copy of k: a * k == (a - 1) * k + k. */
  lemma MulPred(a: nat, k: nat)
    requires a > 0
    ensures a * k == (a - 1) * k + k
  {
  }

  /** Multiplying by k keeps the order: a <= b gives a * k <= b * k. */
  lemma MulLe(a: nat, b: nat, k: nat)
    requires a <= b
    ensures a * k <= b * k
  {
  }

  /** The row `period` rows after row j. */
  function After(j: nat, period: nat): nat
  {
    j + period
  }

  lemma {:induction false} OffsetShift(width: nat -> nat, period: nat, q: nat, k: nat)
    requires forall j: nat :: width(After(j, period)) == width(j)
    ensures Offset(width, q * period + k) == Offset(width, q * period) + Offset(width, k)
    decreases k
  {
    if k > 0 {
      var m: nat := q * period + (k - 1);
      OffsetShift(width, period, q, k - 1);
      PeriodicWidth(width, period, q, k - 1);
      assert Offset(width, m + 1) == Offset(width, m) + width(m);
    }
  }

  lemma {:induction false} PeriodicWidth(width: nat -> nat, period: nat, q: nat, k: nat)
    requires forall j: nat :: width(After(j, period)) == width(j)
    ensures width(q * period + k) == width(k)
  {
    if q > 0 {
      var m: nat := (q - 1) * period + k;
      PeriodicWidth(width, period, q - 1, k);
      assert q * period + k == After(m, period);
      assert width(After(m, period)) == width(m);
    }
  }

  /** A stream whose rows all have the same width. */
  lemma {:induction false} OffsetConstant(width: nat -> nat, w: nat, n: nat)
    requires forall k: nat :: width(k) == w
    ensures Offset(width, n) == n * w
  {
    if n > 0 {
      OffsetConstant(width, w, n - 1);
    }
  }

  /** Concatenation of a sequence of rows. */
  function Flatten<X>(rows: seq<seq<X>>): seq<X>
  {
    if rows == [] then [] else Flatten(rows[..|rows| - 1]) + rows[|rows| - 1]
  }

  lemma FlattenSnoc<X>(rows: seq<seq<X>>, row: seq<X>)
    ensures Flatten(rows + [row]) == Flatten(rows) + row
  {
    assert (rows + [row])[..|rows|] == rows;
  }
}
