/**
 Concrete runs of the ring buffer: the single-threaded reading of the basic
 test in lmax_test.go, and small runs that show the behaviours of the code as
 written (consumer-side throttling by an idle consumer, blocking at an
 unwritten cell, the stale read at the write cursor, and overwriting of items
 no consumer has read).
 */
module Scenarios {
  import opened Slots
  import opened Lmax
  import opened Stream

  /** The producer loop of lmax_test.go:13-15: one single-item Put per value, in order. */
  function PutEach<T>(rb: RingBuffer<T>, xs: seq<T>): (r: RingBuffer<T>)
    requires Valid(rb)
    ensures Valid(r) && r.size == rb.size
    ensures r.writeCursor == rb.writeCursor + |xs|
    ensures r.readCursors == rb.readCursors && r.readBarrier == rb.readBarrier
    decreases |xs|
  {
    if |xs| == 0 then rb else PutEach(Put(rb, [xs[0]]), xs[1..])
  }

  /** Putting the values one at a time appends them to the stream in order. */
  lemma {:induction false} PutEachRepresents<T>(rb: RingBuffer<T>, log: seq<T>, xs: seq<T>)
    requires Represents(rb, log)
    ensures Represents(PutEach(rb, xs), log + xs)
    decreases |xs|
  {
    if |xs| > 0 {
      PutRepresents(rb, log, [xs[0]]);
      PutEachRepresents(Put(rb, [xs[0]]), log + [xs[0]], xs[1..]);
      assert log + [xs[0]] + xs[1..] == log + xs;
    }
  }

  /**
   The state is determined by the stream it holds together with its size,
   cursors and barrier; in particular one Put of many items and many Puts of
   one item each leave the same ring.
   */
  lemma RepresentsDetermines<T>(a: RingBuffer<T>, b: RingBuffer<T>, log: seq<T>)
    requires Represents(a, log) && Represents(b, log)
    requires a.size == b.size && a.readCursors == b.readCursors && a.readBarrier == b.readBarrier
    ensures a == b
  {
    forall j | 0 <= j < a.size ensures a.buffer[j] == b.buffer[j] {
      if j < |log| {
        var t := LastLapCovers(j, |log|, a.size);
      }
    }
    assert a.available == b.available;
  }

  /** One Put of `xs` and one Put per item of `xs` reach the same state. */
  lemma PutEachIsPut<T>(rb: RingBuffer<T>, log: seq<T>, xs: seq<T>)
    requires Represents(rb, log)
    ensures PutEach(rb, xs) == Put(rb, xs)
  {
    PutEachRepresents(rb, log, xs);
    PutRepresents(rb, log, xs);
    RepresentsDetermines(PutEach(rb, xs), Put(rb, xs), log + xs);
  }

  /** The items Get returns for the values `xs`: each one in a written cell. */
  function Cells<T>(xs: seq<T>): (cs: seq<Option<T>>)
    ensures |cs| == |xs| && forall k :: 0 <= k < |xs| ==> cs[k] == Some(xs[k])
  {
    seq(|xs|, k requires 0 <= k < |xs| => Some(xs[k]))
  }

  /** A fresh ring after one Put of `xs` holds the stream `xs`, with every consumer before the first item. */
  lemma PutIntoNew<T>(size: int, numConsumers: int, xs: seq<T>)
    requires 0 < size && 0 <= numConsumers
    ensures var rb := Put(NewRingBuffer<T>(size, numConsumers), xs);
            && Represents(rb, xs) && rb.size == size && rb.readBarrier == 0
            && |rb.readCursors| == numConsumers
            && forall i :: 0 <= i < numConsumers ==> rb.readCursors[i] == -1
  {
    NewRepresentsEmpty<T>(size, numConsumers);
    PutRepresents(NewRingBuffer<T>(size, numConsumers), [], xs);
    assert [] + xs == xs;
  }

  /** The same after one single-item Put per value of `xs`. */
  lemma PutEachIntoNew<T>(size: int, numConsumers: int, xs: seq<T>)
    requires 0 < size && 0 <= numConsumers
    ensures var rb := PutEach(NewRingBuffer<T>(size, numConsumers), xs);
            && Represents(rb, xs) && rb.size == size && rb.readBarrier == 0
            && |rb.readCursors| == numConsumers
            && forall i :: 0 <= i < numConsumers ==> rb.readCursors[i] == -1
  {
    NewRepresentsEmpty<T>(size, numConsumers);
    PutEachRepresents(NewRingBuffer<T>(size, numConsumers), [], xs);
    assert [] + xs == xs;
  }

  /**
   A Get that neither blocks nor reaches the write cursor, for a consumer whose
   next sequence number is in the last lap of the stream, returns the next
   `count` items of the stream in order, where `count` is what the counting
   lemma allows, and leaves the barrier at the smallest cursor.
   */
  lemma GetFromLastLap<T>(rb: RingBuffer<T>, log: seq<T>, batchSize: int, id: int, count: nat)
    requires Represents(rb, log)
    requires 0 <= id < |rb.readCursors| && 0 <= batchSize
    requires |log| - rb.size <= rb.readCursors[id] + 1
    requires count == Min(batchSize, Max(0, Min(|log|, rb.readBarrier + rb.size - 1) - rb.readCursors[id]))
    requires rb.readCursors[id] + count < |log|
    ensures var r := Get(rb, batchSize, id);
            && !r.blocked
            && r.items == Cells(log[rb.readCursors[id] + 1 .. rb.readCursors[id] + 1 + count])
            && Represents(r.rb, log) && r.rb.size == rb.size
            && r.rb.readCursors == rb.readCursors[id := rb.readCursors[id] + count]
            && r.rb.readBarrier in r.rb.readCursors
            && forall i :: 0 <= i < |r.rb.readCursors| ==> r.rb.readBarrier <= r.rb.readCursors[i]
  {
    GetBlocksIff(rb, log, batchSize, id);
    GetCount(rb, log, batchSize, id);
    GetReadsFresh(rb, log, batchSize, id);
    GetRepresents(rb, log, batchSize, id);
  }

  /**
   TestBasicFunctionality (lmax_test.go:9-40): ten single-item Puts into a
   size-10, two-consumer ring, then consumer 0 and consumer 1 each get the
   first five values. The test runs the two Gets in goroutines, so either may
   go first; both orders are stated.
   */
  lemma BasicFunctionality<T>(xs: seq<T>)
    requires |xs| == 10
    ensures var rb := PutEach(NewRingBuffer<T>(10, 2), xs);
            var g0 := Get(rb, 5, 0);
            var g1 := Get(g0.rb, 5, 1);
            && g0.items == Cells(xs[..5]) && !g0.blocked
            && g1.items == Cells(xs[..5]) && !g1.blocked
    ensures var rb := PutEach(NewRingBuffer<T>(10, 2), xs);
            var g1 := Get(rb, 5, 1);
            var g0 := Get(g1.rb, 5, 0);
            && g1.items == Cells(xs[..5]) && !g1.blocked
            && g0.items == Cells(xs[..5]) && !g0.blocked
  {
    PutEachIntoNew(10, 2, xs);
    var rb := PutEach(NewRingBuffer<T>(10, 2), xs);
    BasicFunctionalityFrom(rb, xs);
    BasicReverseFrom(rb, xs);
  }

  /**
   The reads of `BasicFunctionality`, consumer 0 first, from any ring holding
   ten items that no consumer has read. The verifier evaluates both Gets here
   unaided; the lemma keeps the unfolding of `PutEach` out of that context.
   */
  lemma BasicFunctionalityFrom<T>(rb: RingBuffer<T>, xs: seq<T>)
    requires |xs| == 10 && Represents(rb, xs)
    requires rb.size == 10 && rb.readBarrier == 0
    requires |rb.readCursors| == 2 && forall i :: 0 <= i < 2 ==> rb.readCursors[i] == -1
    ensures var g0 := Get(rb, 5, 0);
            var g1 := Get(g0.rb, 5, 1);
            && g0.items == Cells(xs[..5]) && !g0.blocked
            && g1.items == Cells(xs[..5]) && !g1.blocked
  {
  }

  /** The reads of `BasicFunctionality`, consumer 1 first, from the same rings; proved unaided like the lemma above. */
  lemma BasicReverseFrom<T>(rb: RingBuffer<T>, xs: seq<T>)
    requires |xs| == 10 && Represents(rb, xs)
    requires rb.size == 10 && rb.readBarrier == 0
    requires |rb.readCursors| == 2 && forall i :: 0 <= i < 2 ==> rb.readCursors[i] == -1
    ensures var g1 := Get(rb, 5, 1);
            var g0 := Get(g1.rb, 5, 0);
            && g1.items == Cells(xs[..5]) && !g1.blocked
            && g0.items == Cells(xs[..5]) && !g0.blocked
  {
  }

  /**
   A single consumer reading a full ring in two batches of five gets the first
   five values and then the last five: after the first Get the barrier moves up
   to its cursor.
   */
  lemma TwoBatchesOneConsumer<T>(xs: seq<T>)
    requires |xs| == 10
    ensures var rb := Put(NewRingBuffer<T>(10, 1), xs);
            var g0 := Get(rb, 5, 0);
            var g1 := Get(g0.rb, 5, 0);
            && g0.items == Cells(xs[..5]) && !g0.blocked
            && g1.items == Cells(xs[5..]) && !g1.blocked
  {
    PutIntoNew(10, 1, xs);
    var rb := Put(NewRingBuffer<T>(10, 1), xs);
    TwoBatchesFrom(rb, xs);
  }

  /** The reads of `TwoBatchesOneConsumer`, from any one-consumer ring holding ten unread items; proved unaided. */
  lemma TwoBatchesFrom<T>(rb: RingBuffer<T>, xs: seq<T>)
    requires |xs| == 10 && Represents(rb, xs)
    requires rb.size == 10 && rb.readBarrier == 0
    requires |rb.readCursors| == 1 && forall i :: 0 <= i < 1 ==> rb.readCursors[i] == -1
    ensures var g0 := Get(rb, 5, 0);
            var g1 := Get(g0.rb, 5, 0);
            && g0.items == Cells(xs[..5]) && !g0.blocked
            && g1.items == Cells(xs[5..]) && !g1.blocked
  {
  }

  /**
   With a second consumer that never reads, the barrier stays at its cursor -1,
   and the guard at lmax.go:57 stops the first consumer's second batch one
   short: it gets the values at sequence numbers 5..8, not 5..9, although 9
   has been put.
   */
  lemma IdleConsumerThrottlesReader<T>(xs: seq<T>)
    requires |xs| == 10
    ensures var rb := Put(NewRingBuffer<T>(10, 2), xs);
            var g0 := Get(rb, 5, 0);
            var g1 := Get(g0.rb, 5, 0);
            && g0.items == Cells(xs[..5]) && !g0.blocked && g0.rb.readBarrier == -1
            && g1.items == Cells(xs[5..9]) && !g1.blocked && g1.rb.readBarrier == -1
  {
    PutIntoNew(10, 2, xs);
    var rb := Put(NewRingBuffer<T>(10, 2), xs);
    IdleConsumerFrom(rb, xs);
  }

  /** The reads of `IdleConsumerThrottlesReader`, from any two-consumer ring holding ten unread items. */
  lemma IdleConsumerFrom<T>(rb: RingBuffer<T>, xs: seq<T>)
    requires |xs| == 10 && Represents(rb, xs)
    requires rb.size == 10 && rb.readBarrier == 0
    requires |rb.readCursors| == 2 && forall i :: 0 <= i < 2 ==> rb.readCursors[i] == -1
    ensures var g0 := Get(rb, 5, 0);
            var g1 := Get(g0.rb, 5, 0);
            && g0.items == Cells(xs[..5]) && !g0.blocked && g0.rb.readBarrier == -1
            && g1.items == Cells(xs[5..9]) && !g1.blocked && g1.rb.readBarrier == -1
  {
    IdleFirst(rb, xs);
    IdleSecond(Get(rb, 5, 0).rb, xs);
  }

  /** The first read of `IdleConsumerFrom`: five values, and the barrier drops to the idle cursor -1. */
  lemma IdleFirst<T>(rb: RingBuffer<T>, xs: seq<T>)
    requires |xs| == 10 && Represents(rb, xs)
    requires rb.size == 10 && rb.readBarrier == 0
    requires |rb.readCursors| == 2 && forall i :: 0 <= i < 2 ==> rb.readCursors[i] == -1
    ensures var g := Get(rb, 5, 0);
            && g.items == Cells(xs[..5]) && !g.blocked
            && Represents(g.rb, xs)
            && g.rb.size == 10 && g.rb.readCursors == [4, -1] && g.rb.readBarrier == -1
  {
    GetFromLastLap(rb, xs, 5, 0, 5);
    var g := Get(rb, 5, 0);
    assert g.rb.readCursors == rb.readCursors[0 := 4] == [4, -1];
    assert g.rb.readBarrier <= g.rb.readCursors[1];
  }

  /** The second read of `IdleConsumerFrom`: the window ends at 8, a lap past the barrier -1. */
  lemma IdleSecond<T>(rb: RingBuffer<T>, xs: seq<T>)
    requires |xs| == 10 && Represents(rb, xs)
    requires rb.size == 10 && rb.readCursors == [4, -1] && rb.readBarrier == -1
    ensures var g := Get(rb, 5, 0);
            && g.items == Cells(xs[5..9]) && !g.blocked && g.rb.readBarrier == -1
  {
    GetFromLastLap(rb, xs, 5, 0, 4);
    var g := Get(rb, 5, 0);
    assert g.rb.readCursors == rb.readCursors[0 := 8] == [8, -1];
    assert g.rb.readBarrier <= g.rb.readCursors[1];
  }

  /**
   In the first lap the consumer blocks at the write cursor: after one Put of
   one item, a Get of two returns that item and then finds the next cell's
   flag still 0, where the Go loop would spin.
   */
  lemma BlocksAtUnwrittenCell<T>(x: T)
    ensures var rb := Put(NewRingBuffer<T>(10, 1), [x]);
            var g := Get(rb, 2, 0);
            && g.blocked
            && g.items == [Some(x)]
            && g.rb.readCursors[0] == 0
            && g.rb.readBarrier == rb.readBarrier
  {
  }

  /**
   The stale read at the write cursor: in a size-2 ring holding `a` and `b` a
   consumer reads both, and its next Get passes the guard at sequence number
   2, which nobody has put, and returns `a` again; its cursor is now at the
   write cursor, so the item a later Put gives sequence number 2 is never
   returned to it.
   */
  lemma StaleReadAtCursor<T>(a: T, b: T)
    ensures var rb := Put(NewRingBuffer<T>(2, 1), [a, b]);
            var g0 := Get(rb, 2, 0);
            var g1 := Get(g0.rb, 1, 0);
            && g0.items == [Some(a), Some(b)] && !g0.blocked
            && g1.items == [Some(a)] && !g1.blocked
            && g1.rb.readCursors[0] == g1.rb.writeCursor == 2
  {
  }

  /**
   Put is not gated by the barrier: three items into a size-2 ring overwrite
   the first before any consumer reads it, and the consumer then gets `c` for
   sequence number 0 and `b` for sequence number 1; `a` is lost.
   */
  lemma OverwriteLosesUnread<T>(a: T, b: T, c: T)
    ensures var rb := Put(NewRingBuffer<T>(2, 1), [a, b, c]);
            var g := Get(rb, 3, 0);
            && g.items == [Some(c), Some(b)] && !g.blocked
  {
    // without these steps the proof is not stable across solver seeds
    var log := [a, b, c];
    var rb0 := NewRingBuffer<T>(2, 1);
    NewRepresentsEmpty<T>(2, 1);
    PutRepresents(rb0, [], log);
    assert [] + log == log;
    var rb := Put(rb0, log);
    GetBlocksIff(rb, log, 3, 0);
    GetCount(rb, log, 3, 0);
    GetReadsLatestInCell(rb, log, 3, 0);
    assert Slot(2, 2) == 0;
  }
}
