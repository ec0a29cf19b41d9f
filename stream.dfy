/** The bounded FIFO channel of hlslib/Stream.h, in its sequential
    (software simulation) semantics.

    The channel is a named queue.  The optimistic operations fail instead
    of waiting; the blocking operations wait until they can proceed, which
    in a sequential model becomes the precondition that they can proceed
    at once.  The capacity is not stored in the channel: every write
    passes the bound it expects, and a write fails (or waits) only when
    the queue holds exactly that many elements. */
module Streams {
  import opened Wrappers

  /** The runtime errors thrown by the optimistic operations; each carries
      the name of the stream it was raised on. */
  datatype StreamError = ReadWhileEmpty(stream: string) | WrittenWhileFull(stream: string)

  /** What the destructor reports about a stream that still holds elements. */
  datatype LeakReport = LeakReport(stream: string, count: nat)

  /** The message text of each runtime error. */
  function Message(e: StreamError): (m: string)
    ensures m == e.stream + (if e.ReadWhileEmpty? then ": read while empty." else ": written while full.")
  {
    match e
    case ReadWhileEmpty(n) => n + ": read while empty."
    case WrittenWhileFull(n) => n + ": written while full."
  }

  /** The name a default-constructed stream gets. */
  const UnnamedStream: string := "(unnamed)"

  class Stream<T> {
    /** Queue contents, oldest first. */
    var queue: seq<T>
    var name: string

    constructor (name: string)
      ensures this.name == name && queue == []
    {
      this.name := name;
      queue := [];
    }

    constructor Unnamed()
      ensures name == UnnamedStream && queue == []
    {
      name := UnnamedStream;
      queue := [];
    }

    /** Move construction: the new stream takes over the contents and name
        of `other`, which is left empty and unnamed. */
    constructor Move(other: Stream<T>)
      modifies other
      ensures queue == old(other.queue) && name == old(other.name)
      ensures other.queue == [] && other.name == UnnamedStream
    {
      queue := other.queue;
      name := other.name;
      other.queue := [];
      other.name := UnnamedStream;
    }

    function IsEmpty(): (b: bool)
      reads this
      ensures b <==> queue == []
    {
      |queue| == 0
    }

    /** Full with respect to the bound `size` the caller passes: the queue
        holds exactly `size` elements (a larger queue is not "full"). */
    function IsFull(size: int): (b: bool)
      reads this
      ensures b <==> |queue| == size
    {
      |queue| == size
    }

    function Size(): (n: nat)
      reads this
      ensures n == |queue|
    {
      |queue|
    }

    /** What the destructor prints to the error stream: nothing for an
        empty stream, otherwise the stream's name and how many elements it
        still held. */
    function LeakAtDestruction(): (report: Option<LeakReport>)
      reads this
      ensures report == None <==> queue == []
      ensures report.Some? ==> report.value == LeakReport(name, |queue|)
    {
      if |queue| > 0 then Some(LeakReport(name, |queue|)) else None
    }

    /** Pops the oldest element, or fails with "read while empty". */
    method ReadOptimistic() returns (r: Result<T, StreamError>)
      modifies this
      ensures name == old(name)
      ensures r.Failure? <==> old(queue) == []
      ensures r.Failure? ==> r.error == ReadWhileEmpty(name) && queue == old(queue)
      ensures r.Success? ==> r.value == old(queue)[0] && queue == old(queue)[1..]
    {
      if |queue| == 0 {
        return Failure(ReadWhileEmpty(name));
      }
      var front := queue[0];
      queue := queue[1..];
      r := Success(front);
    }

    /** Pops the oldest element; waits while the queue is empty. */
    method ReadBlocking() returns (front: T)
      requires queue != []
      modifies this
      ensures name == old(name)
      ensures front == old(queue)[0] && queue == old(queue)[1..]
    {
      front := queue[0];
      queue := queue[1..];
    }

    /** Appends at the back, or fails with "written while full" when the
        queue holds exactly `size` elements. */
    method WriteOptimistic(val: T, size: int) returns (r: Outcome<StreamError>)
      modifies this
      ensures name == old(name)
      ensures r.Fail? <==> |old(queue)| == size
      ensures r.Fail? ==> r.error == WrittenWhileFull(name) && queue == old(queue)
      ensures r.Pass? ==> queue == old(queue) + [val]
    {
      if |queue| == size {
        return Fail(WrittenWhileFull(name));
      }
      queue := queue + [val];
      r := Pass;
    }

    /** Appends at the back; waits while the queue holds exactly `size`
        elements. */
    method WriteBlocking(val: T, size: int)
      requires |queue| != size
      modifies this
      ensures name == old(name)
      ensures queue == old(queue) + [val]
    {
      queue := queue + [val];
    }
  }

  /** Exchanges the contents and the names of two streams. */
  method Swap<T>(first: Stream<T>, second: Stream<T>)
    modifies first, second
    ensures first.queue == old(second.queue) && first.name == old(second.name)
    ensures second.queue == old(first.queue) && second.name == old(first.name)
  {
    first.queue, second.queue := second.queue, first.queue;
    first.name, second.name := second.name, first.name;
  }

  /** Elements leave a stream in the order in which they entered it: a
      producer that writes `items` into an empty stream and a consumer that
      then drains it with optimistic reads receive `items` unchanged, and
      the stream is empty (no leak report) afterwards. */
  method TransferInOrder<T>(items: seq<T>) returns (received: seq<T>, leak: Option<LeakReport>)
    ensures received == items
    ensures leak == None
  {
    var s := new Stream<T>("transfer");
    var i := 0;
    while i < |items|
      invariant 0 <= i <= |items|
      invariant s.queue == items[..i]
    {
      var ok := s.WriteOptimistic(items[i], |items| + 1);
      assert ok.Pass?;
      i := i + 1;
    }
    received := [];
    while !s.IsEmpty()
      invariant received + s.queue == items
      decreases |s.queue|
    {
      var r := s.ReadOptimistic();
      received := received + [r.value];
    }
    leak := s.LeakAtDestruction();
  }
}
