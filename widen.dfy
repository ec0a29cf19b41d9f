/** Width conversion between memory words and kernel vectors: Widen and
    Narrow of kernel/Memory.cpp and src/Memory.cpp.

    A memory word packs `perWord` kernel vectors (kKernelPerMemory).  The
    rows Read forwards are whole words, but a row of kernel vectors need
    not start on a word boundary: the left halo of a block is
    halo * perWord - haloKernel vectors wider in memory than the stencil
    needs, so every row of a block other than the first starts `gap`
    (kAlignmentGap) vectors into its first word.  Widen skips those
    vectors; Narrow packs the vectors of each output row back into words. */
module WidthConversion {
  import opened Schedule
  import opened RowWalk
  import MemoryStages

  /** The rows Widen walks (in kernel vectors) and the packing of words. */
  datatype Widening = Widening(shape: Shape, perWord: nat, gap: nat)

  /** memIndex is an unsigned char, so a word holds at most 256 vectors;
      the gap lies inside the first word of a row. */
  predicate Valid(w: Widening)
  {
    RowWalk.Valid(w.shape) && 0 < w.perWord <= 256 && w.gap < w.perWord
  }

  /** The lane of the first word at which a row of block b starts. */
  function BlockGap(w: Widening, b: nat): nat
  {
    if b == 0 then 0 else w.gap
  }

  /** The word and the lane of it that hold vector c of row n. */
  function Word(w: Widening, n: nat, c: nat): nat
    requires Valid(w)
  {
    (Gap(w, n) + c) / w.perWord
  }

  function Lane(w: Widening, n: nat, c: nat): nat
    requires Valid(w)
  {
    (Gap(w, n) + c) % w.perWord
  }

  /** The words a row of block b occupies: those holding its lanes
      BlockGap(b) .. BlockGap(b) + Width(b) - 1. */
  function BlockWords(w: Widening, b: nat): nat
    requires Valid(w)
  {
    (BlockGap(w, b) + Width(w.shape, b) - 1) / w.perWord + 1
  }

  function Gap(w: Widening, n: nat): nat
    requires Valid(w)
  {
    BlockGap(w, BlockOf(w.shape.rows, w.shape.blocks, n))
  }

  function Words(w: Widening, n: nat): nat
    requires Valid(w)
  {
    BlockWords(w, BlockOf(w.shape.rows, w.shape.blocks, n))
  }

  /** Every word holds `perWord` lanes. */
  predicate Uniform<T>(words: seq<seq<T>>, perWord: nat)
  {
    forall j | 0 <= j < |words| :: |words[j]| == perWord
  }

  /** The words Widen pops, row by row: row n is Words(n) words. */
  predicate WordRows<T>(w: Widening, wordRows: seq<seq<seq<T>>>)
    requires Valid(w)
  {
    forall n | 0 <= n < |wordRows| :: |wordRows[n]| == Words(w, n) && Uniform(wordRows[n], w.perWord)
  }

  /** The lanes of uniform words, one after the other: lane k is lane
      k % perWord of word k / perWord. */
  lemma {:induction false} FlattenUniform<T>(words: seq<seq<T>>, perWord: nat, k: nat)
    requires perWord > 0 && Uniform(words, perWord)
    ensures |Flatten(words)| == |words| * perWord
    ensures k < |Flatten(words)| ==> k / perWord < |words| && Flatten(words)[k] == words[k / perWord][k % perWord]
    decreases |words|
  {
    if words != [] {
      var init, last := words[..|words| - 1], words[|words| - 1];
      assert words == init + [last];
      FlattenSnoc(init, last);
      FlattenUniform(init, perWord, k);
      MulPred(|words|, perWord);
      if |init| * perWord <= k < |Flatten(words)| {
        DivModUnique(k, perWord, |init|, k - |init| * perWord);
      }
    }
  }

  /** The vectors lanes g .. g + width - 1 of `words` hold. */
  function Unpacked<T>(words: seq<seq<T>>, perWord: nat, g: nat, width: nat): (v: seq<T>)
    requires perWord > 0 && Uniform(words, perWord) && g + width <= |words| * perWord
    ensures |v| == width
  {
    FlattenUniform(words, perWord, 0);
    Flatten(words)[g..g + width]
  }

  lemma UnpackedAt<T>(words: seq<seq<T>>, perWord: nat, g: nat, width: nat, c: nat)
    requires perWord > 0 && Uniform(words, perWord) && g + width <= |words| * perWord && c < width
    ensures (g + c) / perWord < |words|
    ensures Unpacked(words, perWord, g, width)[c] == words[(g + c) / perWord][(g + c) % perWord]
  {
    FlattenUniform(words, perWord, g + c);
  }

  /** The words of a row hold all of its lanes. */
  lemma RowWordsSuffice(w: Widening, n: nat)
    requires Valid(w)
    ensures Gap(w, n) + RowWidth(w.shape)(n) <= Words(w, n) * w.perWord
  {
    var x := Gap(w, n) + RowWidth(w.shape)(n) - 1;
    DivBounds(x, w.perWord);
    MulPred(Words(w, n), w.perWord);
  }

  /** Row n of the Widen output: the lanes from Gap(n) on of the words of
      row n, as many as the row is wide. */
  function WidenRow<T>(w: Widening, wordRows: seq<seq<seq<T>>>, n: nat): (row: seq<T>)
    requires Valid(w) && WordRows(w, wordRows) && n < |wordRows|
    ensures |row| == RowWidth(w.shape)(n)
  {
    RowWordsSuffice(w, n);
    Unpacked(wordRows[n], w.perWord, Gap(w, n), RowWidth(w.shape)(n))
  }

  function WidenRows<T>(w: Widening, wordRows: seq<seq<seq<T>>>): (rows: seq<seq<T>>)
    requires Valid(w) && WordRows(w, wordRows)
    ensures |rows| == |wordRows|
  {
    seq(|wordRows|, n requires 0 <= n < |wordRows| => WidenRow(w, wordRows, n))
  }

  /** The Widen state after the first n rows and c vectors of row n:
      the output holds exactly those vectors (Emitted), and the words
      popped so far are as WidenedWords says. */
  ghost predicate Widened<T>(w: Widening, wordRows: seq<seq<seq<T>>>, out: seq<T>, popped: nat,
                             n: nat, c: nat, memIndex: nat, readNext: bool, block: seq<T>)
  {
    Valid(w) && WordRows(w, wordRows)
    && Emitted(WidenRows(w, wordRows), out, n, c)
    && WidenedWords(w, wordRows, popped, n, c, memIndex, readNext, block)
  }

  /** `popped` words have been popped (those of the rows before n and
      those of row n that hold its first c lanes), memIndex is the lane of
      vector c, readNext says that vector c starts a new word, and
      otherwise the current word is the one holding vector c. */
  ghost predicate WidenedWords<T>(w: Widening, wordRows: seq<seq<seq<T>>>, popped: nat,
                                  n: nat, c: nat, memIndex: nat, readNext: bool, block: seq<T>)
    requires Valid(w)
  {
    n <= |wordRows|
    && popped == |Flatten(wordRows[..n])| + (if c == 0 then 0 else Word(w, n, c - 1) + 1)
    && memIndex == Lane(w, n, c)
    && (readNext <==> c == 0 || memIndex == 0)
    && (!readNext ==> n < |wordRows| && Word(w, n, c) < |wordRows[n]|
                      && block == wordRows[n][Word(w, n, c)])
  }

  /** The vectors of row n lie in its Words(n) words. */
  lemma RowWords<T>(w: Widening, wordRows: seq<seq<seq<T>>>, n: nat, c: nat)
    requires Valid(w) && WordRows(w, wordRows) && n < |wordRows| && c < RowWidth(w.shape)(n)
    ensures Word(w, n, c) < |wordRows[n]|
  {
    assert |wordRows[n]| == (Gap(w, n) + RowWidth(w.shape)(n) - 1) / w.perWord + 1;
    DivLe(Gap(w, n) + c, Gap(w, n) + RowWidth(w.shape)(n) - 1, w.perWord);
  }

  /** When readNext is set the next word in the input is the one holding
      vector c of row n. */
  lemma WidenPop<T>(w: Widening, wordRows: seq<seq<seq<T>>>, popped: nat,
                    n: nat, c: nat, memIndex: nat, block: seq<T>)
    requires Valid(w) && WordRows(w, wordRows) && n < |wordRows| && c < RowWidth(w.shape)(n)
    requires WidenedWords(w, wordRows, popped, n, c, memIndex, true, block)
    ensures Word(w, n, c) < |wordRows[n]|
    ensures popped < |Flatten(wordRows)| && Flatten(wordRows)[popped] == wordRows[n][Word(w, n, c)]
  {
    var g, p := Gap(w, n), w.perWord;
    if c == 0 {
      FirstWord(g, p);
    } else {
      NextLane(g + c - 1, p);
    }
    assert popped == |Flatten(wordRows[..n])| + Word(w, n, c);
    RowWords(w, wordRows, n, c);
    FlattenIndex(wordRows, n, Word(w, n, c));
  }

  lemma DivLe(a: nat, b: nat, d: nat)
    requires a <= b && d > 0
    ensures a / d <= b / d
  {
    DivBounds(a, d);
    DivBounds(b, d);
    if a / d > b / d {
      MulLe(b / d + 1, a / d, d);
    }
  }

  /** The vector pushed for column c of row n is lane memIndex of the word
      holding it. */
  lemma WidenElem<T>(w: Widening, wordRows: seq<seq<seq<T>>>, n: nat, c: nat, block: seq<T>)
    requires Valid(w) && WordRows(w, wordRows) && n < |wordRows| && c < RowWidth(w.shape)(n)
    requires Word(w, n, c) < |wordRows[n]|
    requires block == wordRows[n][Word(w, n, c)]
    ensures Lane(w, n, c) < |block|
    ensures block[Lane(w, n, c)] == WidenRows(w, wordRows)[n][c]
  {
    RowWordsSuffice(w, n);
    UnpackedAt(wordRows[n], w.perWord, Gap(w, n), RowWidth(w.shape)(n), c);
  }

  /** After vector c of a row that is not its last: the next lane of the
      same word, or the first lane of a fresh word after a word's last
      lane. */
  lemma WidenNextCol<T>(w: Widening, wordRows: seq<seq<seq<T>>>, popped: nat,
                        n: nat, c: nat, memIndex: nat, readNext: bool, block: seq<T>,
                        popped': nat, block': seq<T>)
    requires Valid(w) && WordRows(w, wordRows) && n < |wordRows| && c < RowWidth(w.shape)(n) - 1
    requires WidenedWords(w, wordRows, popped, n, c, memIndex, readNext, block)
    requires popped' == popped + (if readNext then 1 else 0)
    requires Word(w, n, c) < |wordRows[n]| && block' == wordRows[n][Word(w, n, c)]
    ensures WidenedWords(w, wordRows, popped', n, c + 1,
                         if memIndex == w.perWord - 1 then 0 else memIndex + 1, memIndex == w.perWord - 1, block')
  {
    var g, p := Gap(w, n), w.perWord;
    NextLane(g + c, p);
    if c == 0 {
      FirstWord(g, p);
    } else {
      NextLane(g + c - 1, p);
    }
  }

  /** After the last vector of row n: the first lane of a fresh word of
      row n + 1, at the gap of its block. */
  lemma WidenNextRow<T>(w: Widening, wordRows: seq<seq<seq<T>>>, popped: nat,
                        n: nat, c: nat, memIndex: nat, readNext: bool, block: seq<T>,
                        popped': nat, block': seq<T>)
    requires Valid(w) && WordRows(w, wordRows) && n < |wordRows| && c == RowWidth(w.shape)(n) - 1
    requires WidenedWords(w, wordRows, popped, n, c, memIndex, readNext, block)
    requires popped' == popped + (if readNext then 1 else 0)
    ensures WidenedWords(w, wordRows, popped', n + 1, 0, Gap(w, n + 1), true, block')
  {
    var g, p := Gap(w, n), w.perWord;
    FlattenNext(wordRows, n);
    if c == 0 {
      FirstWord(g, p);
    } else {
      NextLane(g + c - 1, p);
    }
    assert |wordRows[n]| == Word(w, n, c) + 1;
    FirstWord(Gap(w, n + 1), p);
  }

  /** One iteration of Widen keeps its state: the vector pushed is the
      next of the rows, and the counters, lane and word move on as the
      source updates them. */
  lemma WidenAdvance<T>(w: Widening, wordRows: seq<seq<seq<T>>>, b: nat, r: nat,
                        n: nat, c: nat, memIndex: nat, readNext: bool, block: seq<T>, popped: nat, out: seq<T>,
                        n': nat, c': nat, memIndex': nat, readNext': bool, block': seq<T>, popped': nat, out': seq<T>)
    requires Widened(w, wordRows, out, popped, n, c, memIndex, readNext, block) && n < |wordRows|
    requires Counters(w.shape, n, b, r)
    requires Word(w, n, c) < |wordRows[n]| && block' == wordRows[n][Word(w, n, c)]
    requires popped' == popped + (if readNext then 1 else 0)
    requires out' == out + [WidenRows(w, wordRows)[n][c]]
    requires if LastCol(w.shape, b, c) then
        n' == n + 1 && c' == 0 && readNext' && memIndex' == (if NextAligned(w.shape, b, r) then 0 else w.gap)
      else
        n' == n && c' == c + 1 && readNext' == (memIndex == w.perWord - 1)
        && memIndex' == (if memIndex == w.perWord - 1 then 0 else memIndex + 1)
    ensures Widened(w, wordRows, out', popped', n', c', memIndex', readNext', block')
  {
    var s := w.shape;
    LastColIsRowEnd(s, b, c);
    EmitNext(WidenRows(w, wordRows), out, n, c);
    if LastCol(s, b, c) {
      NextAlignedIsBlockZero(s, n, b, r);
      WidenNextRow(w, wordRows, popped, n, c, memIndex, readNext, block, popped', block');
    } else {
      WidenNextCol(w, wordRows, popped, n, c, memIndex, readNext, block, popped', block');
    }
  }

  /** Widen starts at lane 0 of the first word, with nothing popped. */
  lemma WidenStart<T>(w: Widening, wordRows: seq<seq<seq<T>>>)
    requires Valid(w) && WordRows(w, wordRows)
    ensures Widened(w, wordRows, [], 0, 0, 0, 0, true, [])
  {
    FoldStart(w.shape.rows, w.shape.blocks, 0);
    assert 0 * w.shape.blocks * w.shape.rows == 0;
    FirstWord(0, w.perWord);
  }

  /** Widen's row-end test for an aligned next row: the next row is the
      first of a block 0, which is the case when row r of block 0 is not
      its last, or when the last row of the last block ends the fold. */
  function NextAligned(s: Shape, b: nat, r: nat): bool
  {
    (b == 0 && r < s.rows - 1) || (b == s.blocks - 1 && r == s.rows - 1)
  }

  lemma NextAlignedIsBlockZero(s: Shape, n: nat, b: nat, r: nat)
    requires RowWalk.Valid(s) && Counters(s, n, b, r)
    ensures NextAligned(s, b, r) <==> BlockOf(s.rows, s.blocks, n + 1) == 0
  {
    NextRow(s.rows, s.blocks, n);
  }

  /** Widen: every iteration pushes one vector, the lane memIndex of the
      current word, popping a fresh word first when readNext is set.
      Inside a row memIndex steps through the lanes and wraps to 0 after
      the last, which sets readNext; at the end of a row readNext is set
      and memIndex restarts at 0 for a row of block 0 and at the gap
      otherwise.  The output is the rows of vectors the words hold, and
      every word of the input is popped. */
  method Widen<T>(w: Widening, folds: nat, input: seq<seq<T>>, ghost wordRows: seq<seq<seq<T>>>)
    returns (out: seq<T>, popped: nat)
    requires Valid(w) && |wordRows| == TotalRows(w.shape, folds) && WordRows(w, wordRows)
    requires input == Flatten(wordRows)
    ensures out == Flatten(WidenRows(w, wordRows)) && popped == |input|
  {
    var s := w.shape;
    var b: nat, r: nat, c: nat := 0, 0, 0;
    var memIndex: nat, readNext := 0, true;
    var block: seq<T> := [];
    ghost var n: nat := 0;
    out, popped := [], 0;
    FoldStart(s.rows, s.blocks, 0);
    assert 0 * s.blocks * s.rows == 0;
    WidenStart(w, wordRows);
    var t: nat := 0;
    while t < folds
      invariant 0 <= t <= folds
      invariant At(s, Elements(s, t), n, c) && Counters(s, n, b, r)
      invariant Widened(w, wordRows, out, popped, n, c, memIndex, readNext, block)
    {
      b, r, c, memIndex, readNext, block, popped, out, n :=
        WidenFold(w, folds, t, input, wordRows, b, r, c, memIndex, readNext, block, popped, out, n);
      t := t + 1;
    }
    FoldsEnd(s, folds, n, c);
    assert wordRows[..n] == wordRows;
    assert WidenRows(w, wordRows)[..n] == WidenRows(w, wordRows);
  }

  /** The flattened loop of one fold of Widen. */
  method WidenFold<T>(w: Widening, folds: nat, t: nat, input: seq<seq<T>>, ghost wordRows: seq<seq<seq<T>>>,
                      b0: nat, r0: nat, c0: nat, memIndex0: nat, readNext0: bool, block0: seq<T>,
                      popped0: nat, out0: seq<T>, ghost n0: nat)
    returns (b: nat, r: nat, c: nat, memIndex: nat, readNext: bool, block: seq<T>,
             popped: nat, out: seq<T>, ghost n: nat)
    requires Valid(w) && t < folds && |wordRows| == TotalRows(w.shape, folds) && WordRows(w, wordRows)
    requires input == Flatten(wordRows)
    requires At(w.shape, Elements(w.shape, t), n0, c0) && Counters(w.shape, n0, b0, r0)
    requires Widened(w, wordRows, out0, popped0, n0, c0, memIndex0, readNext0, block0)
    ensures At(w.shape, Elements(w.shape, t + 1), n, c) && Counters(w.shape, n, b, r)
    ensures Widened(w, wordRows, out, popped, n, c, memIndex, readNext, block)
  {
    var s := w.shape;
    ElementsStep(s, t, folds);
    b, r, c, memIndex, readNext, block, popped, out, n := b0, r0, c0, memIndex0, readNext0, block0, popped0, out0, n0;
    var i := 0;
    ghost var e := Elements(s, t);
    while i < PerFold(s)
      invariant 0 <= i <= PerFold(s) && e == Elements(s, t) + i
      invariant At(s, e, n, c) && Counters(s, n, b, r)
      invariant Widened(w, wordRows, out, popped, n, c, memIndex, readNext, block)
    {
      InsideFolds(s, folds, e, n, c);
      ghost var nBefore, bBefore, rBefore, cBefore := n, b, r, c;
      ghost var outBefore, poppedBefore, memIndexBefore, readNextBefore, blockBefore := out, popped, memIndex, readNext, block;
      RowWords(w, wordRows, n, c);
      if readNext {
        WidenPop(w, wordRows, popped, n, c, memIndex, block);
        block := input[popped];
        popped := popped + 1;
      }
      WidenElem(w, wordRows, n, c, block);
      var elem := block[memIndex];
      out := out + [elem];
      var lastCol := LastCol(s, b, c);
      var nextAligned := NextAligned(s, b, r);
      LastColIsRowEnd(s, b, c);
      if lastCol {
        readNext := true;
        memIndex := if nextAligned then 0 else w.gap;
      } else {
        readNext := memIndex == w.perWord - 1;
        memIndex := if memIndex == w.perWord - 1 then 0 else memIndex + 1;
      }
      b, r, c := Carry(s, lastCol, b, r, c);
      if lastCol {
        n := n + 1;
      }
      WidenAdvance(w, wordRows, bBefore, rBefore, nBefore, cBefore, memIndexBefore, readNextBefore, blockBefore, poppedBefore, outBefore,
                   n, c, memIndex, readNext, block, popped, out);
      WalkStep(s, e, nBefore, cBefore, bBefore, rBefore, lastCol, n, b, r, c);
      e := e + 1;
      i := i + 1;
    }
  }

  // ------------------------------------------------- Read, then Widen

  /** The kernel geometry Widen walks against the memory geometry Read
      forwards: a block is `width` words of perWord vectors, the kernel
      halo haloK is rounded up to whole words in memory (halo =
      CeilDiv(haloK, perWord)), and the gap is the surplus halo vectors a
      row of a block other than the first starts with. */
  predicate Aligned(lay: MemoryStages.Layout, w: Widening, haloK: nat)
  {
    w.perWord > 0
    && w.shape.blocks == lay.blocks
    && w.shape.edge == lay.width * w.perWord + haloK
    && w.shape.inner == lay.width * w.perWord + 2 * haloK
    && lay.halo == CeilDiv(haloK, w.perWord)
    && w.gap + haloK == lay.halo * w.perWord
  }

  /** With aligned geometry Widen pops, for every row of block b, exactly
      the words Read forwards for it, and its first vector is grid kernel
      column b * width * perWord - haloK (0 for the first block): the
      halo a block needs and no more. */
  lemma AlignedBlock(lay: MemoryStages.Layout, w: Widening, haloK: nat, b: nat)
    requires MemoryStages.Valid(lay) && Valid(w) && Aligned(lay, w, haloK) && b < lay.blocks
    ensures BlockWords(w, b) == Width(MemoryStages.ReadShape(lay), b)
    ensures b * lay.width >= MemoryStages.LeftHalo(lay, b)
    ensures (b * lay.width - MemoryStages.LeftHalo(lay, b)) * w.perWord + BlockGap(w, b)
      == b * lay.width * w.perWord - (if b > 0 then haloK else 0)
  {
    var p, wm, hm := w.perWord, lay.width, lay.halo;
    if b == 0 {
      WordsFirst(p, wm, haloK, hm);
    } else if b == lay.blocks - 1 {
      WordsLast(p, wm, haloK, hm, w.gap);
    } else {
      WordsInterior(p, wm, haloK, hm, w.gap);
    }
    if b > 0 {
      MulLe(1, b, wm);
      MulSub(p, b * wm, hm);
      MulAssoc(b, wm, p);
    }
  }

  /** A first-block row of wm * p + hk vectors from lane 0 fills wm + hm
      words, hm being hk rounded up to words. */
  lemma WordsFirst(p: nat, wm: nat, hk: nat, hm: nat)
    requires p > 0 && wm > 0 && hm * p >= hk && (hm == 0 || (hm - 1) * p < hk)
    ensures (wm * p + hk - 1) / p + 1 == wm + hm
  {
    if hk == 0 {
      MulPred(wm, p);
      DivModUnique(wm * p + hk - 1, p, wm - 1, p - 1);
    } else {
      MulAdd(p, wm, hm - 1);
      DivModUnique(wm * p + hk - 1, p, wm + hm - 1, hk - 1 - (hm - 1) * p);
    }
  }

  /** An interior row of wm * p + 2 * hk vectors from lane `gap` fills
      wm + 2 * hm words. */
  lemma WordsInterior(p: nat, wm: nat, hk: nat, hm: nat, gap: nat)
    requires p > 0 && wm > 0 && hm * p >= hk && (hm == 0 || (hm - 1) * p < hk) && gap + hk == hm * p
    ensures (gap + wm * p + 2 * hk - 1) / p + 1 == wm + 2 * hm
  {
    if hk == 0 {
      MulPred(wm, p);
      DivModUnique(gap + wm * p + 2 * hk - 1, p, wm - 1, p - 1);
    } else {
      MulAdd(p, wm + hm, hm - 1);
      MulAdd(p, wm, hm);
      DivModUnique(gap + wm * p + 2 * hk - 1, p, wm + 2 * hm - 1, hk - 1 - (hm - 1) * p);
    }
  }

  /** A last-block row of wm * p + hk vectors from lane `gap` fills
      wm + hm words. */
  lemma WordsLast(p: nat, wm: nat, hk: nat, hm: nat, gap: nat)
    requires p > 0 && wm > 0 && gap + hk == hm * p
    ensures (gap + wm * p + hk - 1) / p + 1 == wm + hm
  {
    MulAdd(p, hm, wm);
    MulPred(hm + wm, p);
    DivModUnique(gap + wm * p + hk - 1, p, hm + wm - 1, p - 1);
  }

  lemma MulSub(p: nat, x: nat, y: nat)
    requires y <= x
    ensures (x - y) * p == x * p - y * p
  {
  }

  /** The rows Read forwards are the word rows Widen expects: row n has
      Words(n) words, each of perWord vectors. */
  lemma ReadGivesWordRows<T>(lay: MemoryStages.Layout, w: Widening, haloK: nat, memory: seq<seq<T>>, count: nat)
    requires MemoryStages.Valid(lay) && Valid(w) && Aligned(lay, w, haloK) && w.shape.rows == lay.rows
    requires |memory| == 2 * lay.half && Uniform(memory, w.perWord)
    ensures WordRows(w, MemoryStages.ReadRows(lay, memory, count))
  {
    var rows := MemoryStages.ReadRows(lay, memory, count);
    forall n | 0 <= n < |rows|
      ensures |rows[n]| == Words(w, n) && Uniform(rows[n], w.perWord)
    {
      DivBounds(n, lay.rows);
      DivBounds(n / lay.rows, lay.blocks);
      AlignedBlock(lay, w, haloK, BlockOf(lay.rows, lay.blocks, n));
      MemoryStages.RowInRange(lay, FoldOf(lay.rows, lay.blocks, n), BlockOf(lay.rows, lay.blocks, n), RowOf(lay.rows, n));
    }
  }

  /** The first memory word of grid row r in the half fold t reads. */
  function RowBase(lay: MemoryStages.Layout, t: nat, r: nat): nat
  {
    MemoryStages.ReadHalf(lay, t) + r * MemoryStages.Stride(lay)
  }

  /** Element i of a slice. */
  lemma SliceAt<T>(s: seq<T>, lo: nat, hi: nat, i: nat)
    requires lo <= hi <= |s| && i < hi - lo
    ensures s[lo..hi][i] == s[lo + i]
  {
  }

  /** Grid row r of the half fold t reads, as kernel vectors: lane
      x % perWord of word x / perWord is kernel column x. */
  function KernelRow<T>(lay: MemoryStages.Layout, perWord: nat, memory: seq<seq<T>>, t: nat, r: nat): (row: seq<T>)
    requires MemoryStages.Valid(lay) && |memory| == 2 * lay.half && r < lay.rows
    requires perWord > 0 && Uniform(memory, perWord)
    ensures |row| == MemoryStages.Stride(lay) * perWord
  {
    var start := RowBase(lay, t, r);
    MemoryStages.RowFits(r, lay.rows, MemoryStages.Stride(lay), lay.half);
    FlattenUniform(memory[start..start + MemoryStages.Stride(lay)], perWord, 0);
    Flatten(memory[start..start + MemoryStages.Stride(lay)])
  }

  lemma KernelRowAt<T>(lay: MemoryStages.Layout, perWord: nat, memory: seq<seq<T>>, t: nat, r: nat, x: nat,
                       word: nat, lane: nat)
    requires MemoryStages.Valid(lay) && |memory| == 2 * lay.half && r < lay.rows
    requires perWord > 0 && Uniform(memory, perWord) && x < MemoryStages.Stride(lay) * perWord
    requires word == x / perWord && lane == x % perWord
    ensures word < MemoryStages.Stride(lay)
    ensures var i := RowBase(lay, t, r) + word;
      i < |memory| && lane < |memory[i]| && KernelRow(lay, perWord, memory, t, r)[x] == memory[i][lane]
  {
    var start := RowBase(lay, t, r);
    MemoryStages.RowFits(r, lay.rows, MemoryStages.Stride(lay), lay.half);
    var window := memory[start..start + MemoryStages.Stride(lay)];
    assert |window| == MemoryStages.Stride(lay);
    FlattenUniform(window, perWord, x);
    assert x < |Flatten(window)|;
    assert word < |window|;
    SliceAt(memory, start, start + MemoryStages.Stride(lay), word);
    assert |memory[start + word]| == perWord;
    assert KernelRow(lay, perWord, memory, t, r) == Flatten(window);
  }

  /** The first kernel column of the rows of block b Widen pushes. */
  function KernelStart(lay: MemoryStages.Layout, haloK: nat, perWord: nat, b: nat): int
  {
    b * lay.width * perWord - (if b > 0 then haloK else 0)
  }

  /** src/Memory.cpp streams Read straight into Widen: vector k of row n,
      which is row r of block b in fold t, is kernel column
      KernelStart(b) + k of grid row r: a block's rows are its own
      columns and the halo it needs on each side, nothing more. */
  lemma ReadThenWidenVector<T>(lay: MemoryStages.Layout, w: Widening, haloK: nat, memory: seq<seq<T>>, count: nat,
                               n: nat, k: nat)
    requires MemoryStages.Valid(lay) && Valid(w) && Aligned(lay, w, haloK) && w.shape.rows == lay.rows
    requires |memory| == 2 * lay.half && Uniform(memory, w.perWord)
    requires n < count && k < RowWidth(w.shape)(n)
    ensures WordRows(w, MemoryStages.ReadRows(lay, memory, count))
    ensures var t, b, r := FoldOf(lay.rows, lay.blocks, n), BlockOf(lay.rows, lay.blocks, n), RowOf(lay.rows, n);
      b < lay.blocks && r < lay.rows
      && 0 <= KernelStart(lay, haloK, w.perWord, b) + k < MemoryStages.Stride(lay) * w.perWord
      && WidenRows(w, MemoryStages.ReadRows(lay, memory, count))[n][k]
         == KernelRow(lay, w.perWord, memory, t, r)[KernelStart(lay, haloK, w.perWord, b) + k]
  {
    var p := w.perWord;
    var t, b, r := FoldOf(lay.rows, lay.blocks, n), BlockOf(lay.rows, lay.blocks, n), RowOf(lay.rows, n);
    WidenOfReadWord(lay, w, haloK, memory, count, n, k);
    AlignedBlock(lay, w, haloK, b);
    var g: nat := BlockGap(w, b);
    var start: nat := b * lay.width - MemoryStages.LeftHalo(lay, b);
    assert MemoryStages.RowStart(lay, t, b, r) == RowBase(lay, t, r) + start;
    assert Word(w, n, k) == (g + k) / p && Lane(w, n, k) == (g + k) % p;
    var x := SplitPosition(start, g + k, p, MemoryStages.Stride(lay));
    KernelRowAt(lay, p, memory, t, r, x, start + (g + k) / p, (g + k) % p);
  }

  /** The same vector in words: lane Lane(n, k) of word Word(n, k) of the
      window Read forwards for the row, which starts at RowStart. */
  lemma WidenOfReadWord<T>(lay: MemoryStages.Layout, w: Widening, haloK: nat, memory: seq<seq<T>>, count: nat,
                           n: nat, k: nat)
    requires MemoryStages.Valid(lay) && Valid(w) && Aligned(lay, w, haloK) && w.shape.rows == lay.rows
    requires |memory| == 2 * lay.half && Uniform(memory, w.perWord)
    requires n < count && k < RowWidth(w.shape)(n)
    ensures WordRows(w, MemoryStages.ReadRows(lay, memory, count))
    ensures var t, b, r := FoldOf(lay.rows, lay.blocks, n), BlockOf(lay.rows, lay.blocks, n), RowOf(lay.rows, n);
      b < lay.blocks && r < lay.rows
      && var i := MemoryStages.RowStart(lay, t, b, r) + Word(w, n, k);
         i < RowBase(lay, t, r) + MemoryStages.Stride(lay) && i < |memory| && Lane(w, n, k) < |memory[i]|
         && n < |WidenRows(w, MemoryStages.ReadRows(lay, memory, count))|
         && k < |WidenRows(w, MemoryStages.ReadRows(lay, memory, count))[n]|
         && WidenRows(w, MemoryStages.ReadRows(lay, memory, count))[n][k] == memory[i][Lane(w, n, k)]
  {
    var p := w.perWord;
    var t, b, r := FoldOf(lay.rows, lay.blocks, n), BlockOf(lay.rows, lay.blocks, n), RowOf(lay.rows, n);
    DivBounds(n, lay.rows);
    DivBounds(n / lay.rows, lay.blocks);
    var rows := MemoryStages.ReadRows(lay, memory, count);
    ReadGivesWordRows(lay, w, haloK, memory, count);
    AlignedBlock(lay, w, haloK, b);
    RowWords(w, rows, n, k);
    WidenElem(w, rows, n, k, rows[n][Word(w, n, k)]);
    MemoryStages.ReadRowIsGridWindow(lay, memory, t, b, r, Word(w, n, k));
  }

  /** Kernel column start * p + y lies y vectors into word `start`. */
  lemma SplitPosition(start: nat, y: nat, p: nat, stride: nat) returns (x: nat)
    requires p > 0 && start + y / p < stride
    ensures x == start * p + y && x / p == start + y / p && x % p == y % p && x < stride * p
  {
    x := start * p + y;
    DivBounds(y, p);
    DivModUnique(x, p, start + y / p, y % p);
    MulLe(start + y / p + 1, stride, p);
  }

  // ---------------------------------------------------------------------
  // Narrow

  /** The words Narrow pushes for one row of kernel vectors: every run of
      perWord consecutive vectors that ends on the last lane of a word.
      Vectors after the last full word of the row are never pushed. */
  function Chunks<T>(row: seq<T>, perWord: nat): (words: seq<seq<T>>)
    requires perWord > 0
    ensures Uniform(words, perWord)
    decreases |row|
  {
    if |row| < perWord then [] else [row[..perWord]] + Chunks(row[perWord..], perWord)
  }

  /** Word i of a row holds its vectors i * perWord .. (i + 1) * perWord - 1,
      in the order they arrived. */
  lemma {:induction false} ChunksAt<T>(row: seq<T>, perWord: nat, i: nat)
    requires perWord > 0 && i < |Chunks(row, perWord)|
    ensures (i + 1) * perWord <= |row|
    ensures Chunks(row, perWord)[i] == row[i * perWord..(i + 1) * perWord]
    decreases i
  {
    if i > 0 {
      ChunksAt(row[perWord..], perWord, i - 1);
      MulPred(i, perWord);
      MulPred(i + 1, perWord);
      var a := (i - 1) * perWord;
      assert row[perWord..][a..a + perWord] == row[a + perWord..a + 2 * perWord];
    }
  }

  /** A row holds |row| / perWord full words. */
  lemma {:induction false} ChunksCount<T>(row: seq<T>, perWord: nat)
    requires perWord > 0
    ensures |Chunks(row, perWord)| == |row| / perWord
    decreases |row|
  {
    if |row| < perWord {
      FirstWord(|row|, perWord);
    } else {
      ChunksCount(row[perWord..], perWord);
      DivBounds(|row| - perWord, perWord);
      DivModUnique(|row|, perWord, (|row| - perWord) / perWord + 1, (|row| - perWord) % perWord);
    }
  }

  /** Cutting a row at a word boundary cuts its words there too. */
  lemma {:induction false} ChunksAppend<T>(xs: seq<T>, ys: seq<T>, perWord: nat)
    requires perWord > 0 && |xs| % perWord == 0
    ensures Chunks(xs + ys, perWord) == Chunks(xs, perWord) + Chunks(ys, perWord)
    decreases |xs|
  {
    if xs == [] {
      assert xs + ys == ys;
    } else {
      if |xs| < perWord {
        FirstWord(|xs|, perWord);
      }
      assert (xs + ys)[..perWord] == xs[..perWord];
      assert (xs + ys)[perWord..] == xs[perWord..] + ys;
      DivBounds(|xs|, perWord);
      MulPred(|xs| / perWord, perWord);
      DivModUnique(|xs| - perWord, perWord, |xs| / perWord - 1, 0);
      ChunksAppend(xs[perWord..], ys, perWord);
    }
  }

  lemma ChunksOne<T>(ys: seq<T>, perWord: nat)
    requires perWord > 0 && |ys| == perWord
    ensures Chunks(ys, perWord) == [ys]
  {
    assert ys[..perWord] == ys;
    assert Chunks(ys[perWord..], perWord) == [];
  }

  /** The words of a row whose length is a multiple of perWord hold the
      whole row. */
  lemma {:induction false} FlattenChunks<T>(row: seq<T>, perWord: nat)
    requires perWord > 0 && |row| % perWord == 0
    ensures Flatten(Chunks(row, perWord)) == row
    decreases |row|
  {
    if row != [] {
      if |row| < perWord {
        FirstWord(|row|, perWord);
      }
      DivBounds(|row|, perWord);
      MulPred(|row| / perWord, perWord);
      DivModUnique(|row| - perWord, perWord, |row| / perWord - 1, 0);
      FlattenChunks(row[perWord..], perWord);
      FlattenConcat([row[..perWord]], Chunks(row[perWord..], perWord));
      assert Flatten([row[..perWord]]) == row[..perWord] by {
        assert [row[..perWord]][..0] == [];
      }
      assert row == row[..perWord] + row[perWord..];
    }
  }

  /** And, the other way round, the words of the lanes of uniform words
      are those words: Narrow undoes the flattening Widen reads. */
  lemma {:induction false} ChunksFlatten<T>(words: seq<seq<T>>, perWord: nat)
    requires perWord > 0 && Uniform(words, perWord)
    ensures Chunks(Flatten(words), perWord) == words
    decreases |words|
  {
    if words != [] {
      var init := words[..|words| - 1];
      ChunksFlatten(init, perWord);
      FlattenUniform(init, perWord, 0);
      DivModUnique(|init| * perWord, perWord, |init|, 0);
      ChunksAppend(Flatten(init), words[|words| - 1], perWord);
      ChunksOne(words[|words| - 1], perWord);
      assert words == init + [words[|words| - 1]];
    }
  }

  /** The output of Narrow for a sequence of rows of kernel vectors. */
  function Narrowed<T>(rows: seq<seq<T>>, perWord: nat): (words: seq<seq<T>>)
    requires perWord > 0
    ensures Uniform(words, perWord)
  {
    if rows == [] then []
    else Narrowed(rows[..|rows| - 1], perWord) + Chunks(rows[|rows| - 1], perWord)
  }

  lemma NarrowedNext<T>(rows: seq<seq<T>>, perWord: nat, n: nat)
    requires perWord > 0 && n < |rows|
    ensures Narrowed(rows[..n + 1], perWord) == Narrowed(rows[..n], perWord) + Chunks(rows[n], perWord)
  {
    assert rows[..n + 1][..n] == rows[..n];
  }

  /** When the row width is a multiple of perWord, Narrow drops no vector:
      its words hold exactly the vectors it popped, in order. */
  lemma {:induction false} NarrowedLossless<T>(rows: seq<seq<T>>, perWord: nat)
    requires perWord > 0
    requires forall n | 0 <= n < |rows| :: |rows[n]| % perWord == 0
    ensures Flatten(Narrowed(rows, perWord)) == Flatten(rows)
  {
    if rows != [] {
      var init := rows[..|rows| - 1];
      NarrowedLossless(init, perWord);
      FlattenConcat(Narrowed(init, perWord), Chunks(rows[|rows| - 1], perWord));
      FlattenChunks(rows[|rows| - 1], perWord);
    }
  }

  /** Narrow pushes |row| / perWord words per row. */
  lemma {:induction false} NarrowedCount<T>(rows: seq<seq<T>>, perWord: nat, widthK: nat)
    requires perWord > 0
    requires forall n | 0 <= n < |rows| :: |rows[n]| == widthK
    ensures |Narrowed(rows, perWord)| == |rows| * (widthK / perWord)
  {
    if rows != [] {
      var init := rows[..|rows| - 1];
      NarrowedCount(init, perWord, widthK);
      ChunksCount(rows[|rows| - 1], perWord);
      MulPred(|rows|, widthK / perWord);
    }
  }

  /** The lanes below the current one were filled from a whole word:
      base is a word boundary. */
  lemma WordBoundary(c: nat, base: nat, perWord: nat)
    requires perWord > 0 && base <= c && c % perWord == c - base
    ensures base % perWord == 0
  {
    DivModUnique(base, perWord, c / perWord, 0);
  }

  /** Narrow of kernel/Memory.cpp and src/Memory.cpp: pops widthK kernel
      vectors per row (kBlockWidthKernel) of every block of every folded
      timestep, writes vector c into lane c % perWord of the word being
      built, and pushes the word once its last lane is written.  The word
      is kept between rows, as memoryBlock is; block0 stands for its
      uninitialised first contents. */
  method Narrow<T>(perWord: nat, widthK: nat, folds: nat, blocks: nat, rows: nat,
                   input: seq<T>, block0: seq<T>, ghost vecRows: seq<seq<T>>)
    returns (out: seq<seq<T>>, popped: nat)
    requires perWord > 0 && |block0| == perWord
    requires |vecRows| == folds * blocks * rows && forall n | 0 <= n < |vecRows| :: |vecRows[n]| == widthK
    requires input == Flatten(vecRows)
    ensures out == Narrowed(vecRows, perWord) && popped == |input|
  {
    var block := block0;
    out, popped := [], 0;
    var per: nat := blocks * rows;
    MulAssoc(folds, blocks, rows);
    ghost var n: nat := 0;
    var t: nat := 0;
    while t < folds
      invariant t <= folds && n == t * per && n <= |vecRows|
      invariant out == Narrowed(vecRows[..n], perWord) && popped == |Flatten(vecRows[..n])|
      invariant |block| == perWord
    {
      MulLe(t + 1, folds, per);
      out, block, popped := NarrowFold(perWord, widthK, blocks, rows, input, block, out, popped, vecRows, n);
      n := n + per;
      t := t + 1;
    }
    assert vecRows[..n] == vecRows;
  }

  /** The blocks loop of Narrow for one fold: rows n .. n + blocks * rows - 1. */
  method NarrowFold<T>(perWord: nat, widthK: nat, blocks: nat, rows: nat, input: seq<T>, block0: seq<T>,
                       out0: seq<seq<T>>, popped0: nat, ghost vecRows: seq<seq<T>>, ghost n0: nat)
    returns (out: seq<seq<T>>, block: seq<T>, popped: nat)
    requires perWord > 0 && |block0| == perWord && n0 + blocks * rows <= |vecRows|
    requires forall k | 0 <= k < |vecRows| :: |vecRows[k]| == widthK
    requires input == Flatten(vecRows)
    requires out0 == Narrowed(vecRows[..n0], perWord) && popped0 == |Flatten(vecRows[..n0])|
    ensures out == Narrowed(vecRows[..n0 + blocks * rows], perWord) && popped == |Flatten(vecRows[..n0 + blocks * rows])|
    ensures |block| == perWord
  {
    out, block, popped := out0, block0, popped0;
    ghost var n: nat := n0;
    var b: nat := 0;
    while b < blocks
      invariant b <= blocks && n == n0 + b * rows && n <= |vecRows|
      invariant out == Narrowed(vecRows[..n], perWord) && popped == |Flatten(vecRows[..n])|
      invariant |block| == perWord
    {
      MulLe(b + 1, blocks, rows);
      out, block, popped := NarrowBlock(perWord, widthK, rows, input, block, out, popped, vecRows, n);
      n := n + rows;
      b := b + 1;
    }
  }

  /** The rows loop of Narrow for one block: rows n .. n + rows - 1. */
  method NarrowBlock<T>(perWord: nat, widthK: nat, rows: nat, input: seq<T>, block0: seq<T>,
                        out0: seq<seq<T>>, popped0: nat, ghost vecRows: seq<seq<T>>, ghost n: nat)
    returns (out: seq<seq<T>>, block: seq<T>, popped: nat)
    requires perWord > 0 && |block0| == perWord && n + rows <= |vecRows|
    requires forall k | 0 <= k < |vecRows| :: |vecRows[k]| == widthK
    requires input == Flatten(vecRows)
    requires out0 == Narrowed(vecRows[..n], perWord) && popped0 == |Flatten(vecRows[..n])|
    ensures out == Narrowed(vecRows[..n + rows], perWord) && popped == |Flatten(vecRows[..n + rows])|
    ensures |block| == perWord
  {
    out, block, popped := out0, block0, popped0;
    var r := 0;
    while r < rows
      invariant 0 <= r <= rows
      invariant out == Narrowed(vecRows[..n + r], perWord) && popped == |Flatten(vecRows[..n + r])|
      invariant |block| == perWord
    {
      var words;
      words, block, popped := NarrowRow(perWord, widthK, input, block, popped, vecRows, n + r);
      NarrowedNext(vecRows, perWord, n + r);
      FlattenNext(vecRows, n + r);
      out := out + words;
      r := r + 1;
    }
  }

  /** The column loop of Narrow for row n: the words it pushes are the
      full words of the row, and the block keeps the lanes written since. */
  method NarrowRow<T>(perWord: nat, widthK: nat, input: seq<T>, block0: seq<T>, popped0: nat,
                      ghost vecRows: seq<seq<T>>, ghost n: nat)
    returns (words: seq<seq<T>>, block: seq<T>, popped: nat)
    requires perWord > 0 && |block0| == perWord && n < |vecRows| && |vecRows[n]| == widthK
    requires input == Flatten(vecRows) && popped0 == |Flatten(vecRows[..n])|
    ensures words == Chunks(vecRows[n], perWord) && |block| == perWord && popped == popped0 + widthK
  {
    ghost var row := vecRows[n];
    words, block, popped := [], block0, popped0;
    ghost var base: nat := 0;
    var c: nat := 0;
    while c < widthK
      invariant base <= c <= widthK && c % perWord == c - base
      invariant popped == popped0 + c && |block| == perWord
      invariant block[..c - base] == row[base..c]
      invariant words == Chunks(row[..base], perWord)
    {
      FlattenIndex(vecRows, n, c);
      var read := input[popped];
      var memIndex := c % perWord;
      block := block[memIndex := read];
      NextLane(c, perWord);
      if memIndex == perWord - 1 {
        WordBoundary(c, base, perWord);
        assert block == row[base..c + 1];
        assert row[..c + 1] == row[..base] + row[base..c + 1];
        ChunksAppend(row[..base], row[base..c + 1], perWord);
        ChunksOne(row[base..c + 1], perWord);
        words := words + [block];
        base := c + 1;
      }
      popped := popped + 1;
      c := c + 1;
    }
    WordBoundary(c, base, perWord);
    assert row == row[..base] + row[base..];
    ChunksAppend(row[..base], row[base..], perWord);
  }
}
