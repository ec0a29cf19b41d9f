/** The streaming reductions of include/hlslib/Accumulate.h.

    The reduction operator is a value: its identity and its binary
    Apply.  AccumulateSimple folds `size` inputs per iteration with a
    running accumulator.  The pipelined reduction splits the same work
    over three processes connected by streams: Iterate keeps `latency`
    partial results in flight, Feedback loops them back to Iterate until
    the last round and then passes them to Reduce, which collapses them
    into one value per iteration. */
module Accumulate {
  import opened Streams
  import Schedule

  datatype Operator<!T> = Operator(identity: T, apply: (T, T) -> T)

  /** The running fold of AccumulateSimple: acc = Apply(a_j, acc), seeded
      with the identity. */
  function Fold<T>(op: Operator<T>, xs: seq<T>): T
  {
    if xs == [] then op.identity else op.apply(xs[|xs| - 1], Fold(op, xs[..|xs| - 1]))
  }

  /** The fold of AccumulateReduce: result = Apply(result, read), starting
      from the identity. */
  function ReduceFold<T>(op: Operator<T>, xs: seq<T>): T
  {
    if xs == [] then op.identity else op.apply(ReduceFold(op, xs[..|xs| - 1]), xs[|xs| - 1])
  }

  /** Lane-wise Apply of two equally long sequences. */
  function Combine<T>(op: Operator<T>, xs: seq<T>, ys: seq<T>): (r: seq<T>)
    requires |xs| == |ys|
    ensures |r| == |xs| && forall k | 0 <= k < |xs| :: r[k] == op.apply(xs[k], ys[k])
  {
    seq(|xs|, k requires 0 <= k < |xs| => op.apply(xs[k], ys[k]))
  }

  /** Block i of n blocks of `size` values lies inside a sequence that
      holds n * size of them. */
  lemma BlockFits(i: nat, n: nat, size: nat, length: nat)
    requires i < n && n * size <= length
    ensures i * size + size == (i + 1) * size <= length
  {
    Schedule.MulLe(i + 1, n, size);
  }

  /** The last of n blocks of `size` values starts at lo and ends at
      n * size. */
  lemma LastBlock(n: nat, size: nat) returns (lo: nat)
    requires n > 0
    ensures lo == (n - 1) * size && lo + size == n * size
  {
    lo := (n - 1) * size;
  }

  /** The inputs of round j of one iteration: `latency` consecutive values. */
  function Round<T>(block: seq<T>, latency: nat, j: nat): (round: seq<T>)
    requires (j + 1) * latency <= |block|
    ensures |round| == latency
  {
    block[j * latency..(j + 1) * latency]
  }

  /** The `latency` partial results in flight after `rounds` rounds of
      Iterate: lane k is Apply(a_{rounds-1,k}, Apply(..., Apply(a_{0,k},
      identity))). */
  function Partials<T>(op: Operator<T>, block: seq<T>, latency: nat, rounds: nat): (p: seq<T>)
    requires rounds * latency <= |block|
    ensures |p| == latency
  {
    if rounds == 0 then Identities(op, latency)
    else
      Schedule.MulLe(rounds - 1, rounds, latency);
      Combine(op, Round(block, latency, rounds - 1), Partials(op, block, latency, rounds - 1))
  }

  /** The outputs of AccumulateSimple for the first `n` iterations. */
  function SimpleOutputs<T>(op: Operator<T>, input: seq<T>, size: nat, n: nat): (out: seq<T>)
    requires n * size <= |input|
    ensures |out| == n
  {
    if n == 0 then []
    else
      Schedule.MulLe(n - 1, n, size);
      SimpleOutputs(op, input, size, n - 1) + [Fold(op, input[(n - 1) * size..n * size])]
  }

  /** The value AccumulateReduce emits for iteration i: the Reduce fold of
      the partial results after the last round. */
  function PipelinedOutputs<T>(op: Operator<T>, input: seq<T>, latency: nat, rounds: nat, n: nat): (out: seq<T>)
    requires n * (rounds * latency) <= |input|
    ensures |out| == n
  {
    if n == 0 then []
    else
      var per := rounds * latency;
      Schedule.MulLe(n - 1, n, per);
      PipelinedOutputs(op, input, latency, rounds, n - 1)
        + [ReduceFold(op, Partials(op, input[(n - 1) * per..n * per], latency, rounds))]
  }

  /** AccumulateSimple: for every iteration, read `size` inputs and emit
      the running fold once the last of them has been read; with size 0
      nothing is read or emitted. */
  method AccumulateSimple<T>(op: Operator<T>, size: nat, iterations: nat, input: seq<T>)
    returns (output: seq<T>, consumed: nat)
    requires iterations * size <= |input|
    ensures consumed == iterations * size
    ensures output == if size == 0 then [] else SimpleOutputs(op, input, size, iterations)
  {
    output, consumed := [], 0;
    var i := 0;
    while i < iterations
      invariant 0 <= i <= iterations && consumed == i * size
      invariant output == if size == 0 then [] else SimpleOutputs(op, input, size, i)
    {
      BlockFits(i, iterations, size, |input|);
      var base := consumed;
      var acc := op.identity;
      var j := 0;
      while j < size
        invariant 0 <= j <= size && consumed == base + j
        invariant j > 0 ==> acc == Fold(op, input[base..consumed])
        invariant output == if size == 0 then [] else SimpleOutputs(op, input, size, i) + (if j == size then [acc] else [])
      {
        var a := input[consumed];
        var b := if j > 0 then acc else op.identity;
        assert input[base..consumed + 1][..j] == input[base..consumed];
        acc := op.apply(a, b);
        consumed := consumed + 1;
        if j == size - 1 {
          output := output + [acc];
        }
        j := j + 1;
      }
      i := i + 1;
    }
  }

  /** The three processes of the pipelined reduction, run one element at a
      time: Iterate combines an input with the identity (first round) or
      with a partial result read optimistically from `fromFeedback`;
      Feedback sends it back (bound `latency`) or, in the last round, on to
      Reduce (bound 1), which folds `latency` values per iteration.  Every
      optimistic read finds an element, every blocking operation can
      proceed at once, and the internal streams end empty.  Only
      iterations * (size / latency) * latency inputs are read. */
  method AccumulatePipelined<T>(op: Operator<T>, latency: nat, size: nat, iterations: nat, input: seq<T>)
    returns (output: seq<T>, consumed: nat)
    requires 0 < latency && (latency <= size || iterations == 0)
    requires iterations * ((size / latency) * latency) <= |input|
    ensures consumed == iterations * ((size / latency) * latency)
    ensures output == PipelinedOutputs(op, input, latency, size / latency, iterations)
  {
    output, consumed := [], 0;
    if iterations == 0 {
      return;
    }
    SomeRounds(size, latency);
    var rounds := size / latency;
    var per := rounds * latency;
    var toFeedback := new Stream<T>("toFeedback");
    var fromFeedback := new Stream<T>("fromFeedback");
    var toReduce := new Stream<T>("toReduce");
    var i := 0;
    while i < iterations
      invariant 0 <= i <= iterations && consumed == i * per
      invariant output == PipelinedOutputs(op, input, latency, rounds, i)
      invariant toFeedback.queue == [] && fromFeedback.queue == [] && toReduce.queue == []
      invariant fresh(toFeedback) && fresh(fromFeedback) && fresh(toReduce)
      invariant toFeedback != fromFeedback && toFeedback != toReduce && fromFeedback != toReduce
    {
      BlockFits(i, iterations, per, |input|);
      var result := PipelinedIteration(op, latency, rounds, input[consumed..consumed + per],
        toFeedback, fromFeedback, toReduce);
      output := output + [result];
      consumed := consumed + per;
      i := i + 1;
    }
  }

  /** At least `latency` inputs make at least one round. */
  lemma SomeRounds(size: nat, latency: nat)
    requires 0 < latency <= size
    ensures size / latency > 0
  {
    Schedule.DivBounds(size, latency);
  }

  /** One iteration of the pipelined reduction over the `rounds * latency`
      inputs of `block`: the value Reduce emits is the Reduce fold of the
      partial results after the last round, and the streams end empty. */
  method PipelinedIteration<T>(op: Operator<T>, latency: nat, rounds: nat, block: seq<T>,
    toFeedback: Stream<T>, fromFeedback: Stream<T>, toReduce: Stream<T>) returns (result: T)
    requires 0 < latency && 0 < rounds && |block| == rounds * latency
    requires toFeedback != fromFeedback && toFeedback != toReduce && fromFeedback != toReduce
    requires toFeedback.queue == [] && fromFeedback.queue == [] && toReduce.queue == []
    modifies toFeedback, fromFeedback, toReduce
    ensures toFeedback.queue == [] && fromFeedback.queue == [] && toReduce.queue == []
    ensures result == ReduceFold(op, Partials(op, block, latency, rounds))
  {
    result := op.identity;
    var j := 0;
    while j < rounds
      invariant 0 <= j <= rounds
      invariant toFeedback.queue == [] && toReduce.queue == []
      invariant fromFeedback.queue == if j == 0 || j == rounds then [] else Partials(op, block, latency, j)
      invariant j == rounds ==> result == ReduceFold(op, Partials(op, block, latency, rounds))
    {
      BlockFits(j, rounds, latency, |block|);
      result := PipelinedRound(op, latency, j == 0, j == rounds - 1, Round(block, latency, j),
        toFeedback, fromFeedback, toReduce);
      j := j + 1;
    }
  }

  /** The `latency` identities Iterate combines with in the first round. */
  function Identities<T>(op: Operator<T>, latency: nat): (ids: seq<T>)
    ensures |ids| == latency && forall k | 0 <= k < latency :: ids[k] == op.identity
  {
    seq(latency, _ => op.identity)
  }

  /** One round of `latency` elements.  Iterate pairs input k of `round`
      with the identity (first round) or with the partial result at the
      front of `fromFeedback`; Feedback returns the combination to the
      back of `fromFeedback`, or in the last round hands it to Reduce,
      whose running fold is the result. */
  method PipelinedRound<T>(op: Operator<T>, latency: nat, first: bool, last: bool, round: seq<T>,
    toFeedback: Stream<T>, fromFeedback: Stream<T>, toReduce: Stream<T>) returns (result: T)
    requires 0 < latency && |round| == latency
    requires toFeedback != fromFeedback && toFeedback != toReduce && fromFeedback != toReduce
    requires toFeedback.queue == [] && toReduce.queue == []
    requires |fromFeedback.queue| == if first then 0 else latency
    modifies toFeedback, fromFeedback, toReduce
    ensures toFeedback.queue == [] && toReduce.queue == []
    ensures fromFeedback.queue ==
      if last then [] else Combine(op, round, if first then Identities(op, latency) else old(fromFeedback.queue))
    ensures last ==>
      result == ReduceFold(op, Combine(op, round, if first then Identities(op, latency) else old(fromFeedback.queue)))
  {
    ghost var before := if first then Identities(op, latency) else fromFeedback.queue;
    ghost var after := Combine(op, round, before);
    result := op.identity;
    var k := 0;
    while k < latency
      invariant 0 <= k <= latency
      invariant toFeedback.queue == [] && toReduce.queue == []
      invariant fromFeedback.queue == (if first then [] else before[k..]) + (if last then [] else after[..k])
      invariant last ==> result == ReduceFold(op, after[..k])
    {
      QueueAdvance(before, after, k, first, last);
      var value := PipelinedElement(op, latency, first, last, round[k], toFeedback, fromFeedback, toReduce);
      assert value == after[k];
      if last {
        ReduceFoldNext(op, after, k);
        result := op.apply(result, value);
      }
      k := k + 1;
    }
    assert after[..latency] == after;
  }

  /** Folding one more element of xs. */
  lemma ReduceFoldNext<T>(op: Operator<T>, xs: seq<T>, k: nat)
    requires k < |xs|
    ensures ReduceFold(op, xs[..k + 1]) == op.apply(ReduceFold(op, xs[..k]), xs[k])
  {
    assert xs[..k + 1][..k] == xs[..k];
  }

  /** The contents of `fromFeedback` while a round is under way, before
      and after element k passes: the partial results of the previous
      round not yet used, then the new ones already returned. */
  lemma QueueAdvance<T>(before: seq<T>, after: seq<T>, k: nat, first: bool, last: bool)
    requires k < |before| && k < |after|
    ensures var queue := (if first then [] else before[k..]) + (if last then [] else after[..k]);
      (!first ==> queue != [] && queue[0] == before[k])
      && (if first then queue else queue[1..]) + (if last then [] else [after[k]])
        == (if first then [] else before[k + 1..]) + (if last then [] else after[..k + 1])
  {
    assert after[..k + 1] == after[..k] + [after[k]];
    if !first {
      assert before[k..] == [before[k]] + before[k + 1..];
    }
  }

  /** One element through the three processes: Iterate reads the partial
      result at the front of `fromFeedback` (unless in the first round)
      and combines input `a` with it; Feedback receives the combination
      and returns it to `fromFeedback` or, in the last round, forwards it
      to Reduce, which reads it. */
  method PipelinedElement<T>(op: Operator<T>, latency: nat, first: bool, last: bool, a: T,
    toFeedback: Stream<T>, fromFeedback: Stream<T>, toReduce: Stream<T>) returns (value: T)
    requires toFeedback != fromFeedback && toFeedback != toReduce && fromFeedback != toReduce
    requires toFeedback.queue == [] && toReduce.queue == []
    requires !first ==> fromFeedback.queue != []
    requires (if first then |fromFeedback.queue| else |fromFeedback.queue| - 1) < latency
    modifies toFeedback, fromFeedback, toReduce
    ensures toFeedback.queue == [] && toReduce.queue == []
    ensures value == op.apply(a, if first then op.identity else old(fromFeedback.queue)[0])
    ensures fromFeedback.queue ==
      (if first then old(fromFeedback.queue) else old(fromFeedback.queue)[1..]) + (if last then [] else [value])
  {
    // Iterate
    var b := op.identity;
    if !first {
      var popped := fromFeedback.ReadOptimistic();
      assert popped.Success?;
      b := popped.value;
    }
    toFeedback.WriteBlocking(op.apply(a, b), 1);
    // Feedback
    var read := toFeedback.ReadBlocking();
    if !last {
      fromFeedback.WriteBlocking(read, latency);
      value := read;
    } else {
      toReduce.WriteBlocking(read, 1);
      // Reduce
      value := toReduce.ReadBlocking();
    }
  }

  /** The laws of a commutative monoid at the values x, y, z: the identity
      is neutral, Apply commutes and Apply associates. */
  ghost predicate Laws<T>(op: Operator<T>, x: T, y: T, z: T)
  {
    op.apply(op.identity, x) == x
    && op.apply(x, y) == op.apply(y, x)
    && op.apply(op.apply(x, y), z) == op.apply(x, op.apply(y, z))
  }

  /** An operator with an identity that is associative and commutative:
      the laws hold at all values.  The quantifier is instantiated only
      where a proof names the values, through the three lemmas below. */
  ghost predicate CommutativeMonoid<T(!new)>(op: Operator<T>)
  {
    forall x, y, z :: Laws(op, x, y, z)
  }

  lemma LeftIdentity<T(!new)>(op: Operator<T>, x: T)
    requires CommutativeMonoid(op)
    ensures op.apply(op.identity, x) == x
  {
    assert Laws(op, x, x, x);
  }

  lemma Commute<T(!new)>(op: Operator<T>, x: T, y: T)
    requires CommutativeMonoid(op)
    ensures op.apply(x, y) == op.apply(y, x)
  {
    assert Laws(op, x, y, x);
  }

  lemma Associate<T(!new)>(op: Operator<T>, x: T, y: T, z: T)
    requires CommutativeMonoid(op)
    ensures op.apply(op.apply(x, y), z) == op.apply(x, op.apply(y, z))
  {
    assert Laws(op, x, y, z);
  }

  /** Folding a concatenation folds the parts. */
  lemma {:induction false} FoldConcat<T(!new)>(op: Operator<T>, xs: seq<T>, ys: seq<T>)
    requires CommutativeMonoid(op)
    ensures Fold(op, xs + ys) == op.apply(Fold(op, ys), Fold(op, xs))
    decreases |ys|
  {
    if ys == [] {
      assert xs + ys == xs;
      LeftIdentity(op, Fold(op, xs));
    } else {
      var init, y := ys[..|ys| - 1], ys[|ys| - 1];
      assert (xs + ys)[..|xs + ys| - 1] == xs + init;
      FoldConcat(op, xs, init);
      Associate(op, y, Fold(op, init), Fold(op, xs));
    }
  }

  /** For a commutative operator both fold orders agree. */
  lemma {:induction false} ReduceFoldIsFold<T(!new)>(op: Operator<T>, xs: seq<T>)
    requires CommutativeMonoid(op)
    ensures ReduceFold(op, xs) == Fold(op, xs)
  {
    if xs != [] {
      ReduceFoldIsFold(op, xs[..|xs| - 1]);
      Commute(op, Fold(op, xs[..|xs| - 1]), xs[|xs| - 1]);
    }
  }

  /** Folding lane-wise combinations combines the folds. */
  lemma {:induction false} ReduceFoldCombine<T(!new)>(op: Operator<T>, xs: seq<T>, ys: seq<T>)
    requires CommutativeMonoid(op) && |xs| == |ys|
    ensures ReduceFold(op, Combine(op, xs, ys)) == op.apply(ReduceFold(op, xs), ReduceFold(op, ys))
  {
    if xs == [] {
      LeftIdentity(op, op.identity);
    } else {
      var n := |xs| - 1;
      ReduceFoldCombine(op, xs[..n], ys[..n]);
      assert Combine(op, xs, ys)[..n] == Combine(op, xs[..n], ys[..n]);
      Interchange(op, ReduceFold(op, xs[..n]), ReduceFold(op, ys[..n]), xs[n], ys[n]);
    }
  }

  /** (a . b) . (x . y) == (a . x) . (b . y) for a commutative monoid. */
  lemma Interchange<T(!new)>(op: Operator<T>, a: T, b: T, x: T, y: T)
    requires CommutativeMonoid(op)
    ensures op.apply(op.apply(a, b), op.apply(x, y)) == op.apply(op.apply(a, x), op.apply(b, y))
  {
    Associate(op, a, b, op.apply(x, y));
    Associate(op, b, x, y);
    Commute(op, b, x);
    Associate(op, x, b, y);
    Associate(op, a, x, op.apply(b, y));
  }

  /** The Reduce fold of identities is the identity. */
  lemma {:induction false} ReduceFoldIdentities<T(!new)>(op: Operator<T>, n: nat)
    requires CommutativeMonoid(op)
    ensures ReduceFold(op, seq(n, _ => op.identity)) == op.identity
  {
    if n > 0 {
      assert seq(n, _ => op.identity)[..n - 1] == seq(n - 1, _ => op.identity);
      ReduceFoldIdentities(op, n - 1);
      LeftIdentity(op, op.identity);
    }
  }

  /** After `rounds` rounds the partial results together hold the fold of
      every input read so far. */
  lemma {:induction false} PartialsHoldEverything<T(!new)>(op: Operator<T>, block: seq<T>, latency: nat, rounds: nat)
    requires CommutativeMonoid(op) && rounds * latency <= |block|
    ensures ReduceFold(op, Partials(op, block, latency, rounds)) == Fold(op, block[..rounds * latency])
  {
    if rounds == 0 {
      ReduceFoldIdentities(op, latency);
    } else {
      var j := rounds - 1;
      PrefixSplit(block, latency, rounds);
      var prefix := block[..j * latency];
      PartialsHoldEverything(op, block, latency, j);
      var round := Round(block, latency, j);
      var previous := Partials(op, block, latency, j);
      PartialsUnfold(op, block, latency, rounds);
      ReduceFoldCombine(op, round, previous);
      ReduceFoldIsFold(op, round);
      FoldConcat(op, prefix, round);
      calc {
        ReduceFold(op, Partials(op, block, latency, rounds));
        ReduceFold(op, Combine(op, round, previous));
        op.apply(ReduceFold(op, round), ReduceFold(op, previous));
        op.apply(Fold(op, round), Fold(op, prefix));
        Fold(op, prefix + round);
      }
    }
  }

  /** A round combines its inputs with the previous round's partial
      results. */
  lemma PartialsUnfold<T>(op: Operator<T>, block: seq<T>, latency: nat, rounds: nat)
    requires 0 < rounds && rounds * latency <= |block|
    ensures (rounds - 1) * latency <= rounds * latency
    ensures Partials(op, block, latency, rounds)
      == Combine(op, Round(block, latency, rounds - 1), Partials(op, block, latency, rounds - 1))
  {
    Schedule.MulLe(rounds - 1, rounds, latency);
  }

  /** The inputs of the first `rounds` rounds are those of the first
      rounds - 1 followed by the last round's. */
  lemma PrefixSplit<T>(block: seq<T>, latency: nat, rounds: nat)
    requires 0 < rounds && rounds * latency <= |block|
    ensures (rounds - 1) * latency <= rounds * latency
    ensures block[..rounds * latency] == block[..(rounds - 1) * latency] + Round(block, latency, rounds - 1)
  {
    BlockFits(rounds - 1, rounds, latency, |block|);
  }

  /** For a commutative monoid the pipelined reduction emits, per
      iteration, the fold of all of that iteration's inputs: the same
      values as AccumulateSimple with size (size / latency) * latency. */
  lemma {:induction false} PipelinedMatchesSimple<T(!new)>(op: Operator<T>, input: seq<T>, latency: nat, rounds: nat, n: nat)
    requires CommutativeMonoid(op) && n * (rounds * latency) <= |input|
    ensures PipelinedOutputs(op, input, latency, rounds, n) == SimpleOutputs(op, input, rounds * latency, n)
  {
    if n > 0 {
      var per := rounds * latency;
      var lo := LastBlock(n, per);
      PipelinedMatchesSimple(op, input, latency, rounds, n - 1);
      var block := input[lo..lo + per];
      PartialsHoldEverything(op, block, latency, rounds);
      assert block[..per] == block;
    }
  }
}
