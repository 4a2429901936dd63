/**
 The LMAX-style ring buffer of lmax.go as a sequential state machine.

 The state is an immutable `RingBuffer` value and `NewRingBuffer`, `Put` and
 `Get` are pure functions from state to state. Atomic loads and stores are
 plain reads and writes; the payload type `interface{}` becomes a type
 parameter `T`, and a cell's content is `Option<T>`, where `None` stands for
 the nil that `make` leaves in a cell no producer has written yet.
 */
module Lmax {
  import opened Slots

  datatype Option<+T> = None | Some(value: T)

  /**
   The fields of the Go struct, except `writeBarrier`, which nothing reads.
   `writeCursor` counts the items ever put, so the next free sequence number is
   `writeCursor`; `readCursors[i]` is the last sequence number consumer `i` has
   read (-1 before the first); `readBarrier` is 0 in a fresh ring, one above
   every cursor, and after that the minimum consumer cursor as of the last
   completed unblocked `Get`.
   */
  datatype RingBuffer<T> = RingBuffer(
    size: int,
    buffer: seq<Option<T>>,
    available: seq<int>,
    writeCursor: int,
    readCursors: seq<int>,
    readBarrier: int)

  /**
   The shape every reachable state has: the cell arrays are `size` long, the
   write cursor is non-negative and no consumer cursor is below -1, so every
   sequence number Put or Get computes gives a valid, non-negative index into
   `buffer` and `available`.
   */
  predicate Valid<T>(rb: RingBuffer<T>) {
    && 0 < rb.size
    && |rb.buffer| == rb.size
    && |rb.available| == rb.size
    && 0 <= rb.writeCursor
    && forall i :: 0 <= i < |rb.readCursors| ==> -1 <= rb.readCursors[i]
  }

  /** A fresh ring: every cell empty and unavailable, every consumer before the first item. */
  function NewRingBuffer<T>(size: int, numConsumers: int): (rb: RingBuffer<T>)
    requires 0 < size && 0 <= numConsumers
    ensures Valid(rb)
    ensures rb.size == size && rb.writeCursor == 0 && rb.readBarrier == 0
    ensures |rb.buffer| == size && forall j :: 0 <= j < size ==> rb.buffer[j] == None
    ensures |rb.available| == size && forall j :: 0 <= j < size ==> rb.available[j] == 0
    ensures |rb.readCursors| == numConsumers && forall i :: 0 <= i < numConsumers ==> rb.readCursors[i] == -1
  {
    RingBuffer(size, seq(size, _ => None), seq(size, _ => 0), 0, seq(numConsumers, _ => -1), 0)
  }

  /** The cells a write of the `n` sequence numbers from `next` on lands in. */
  ghost function Touched(next: int, n: int, size: int): set<int>
    requires 0 <= next && 0 < size
  {
    set s | next <= s < next + n :: Slot(s, size)
  }

  /** A write of `n > 0` items touches its first cell and whatever the rest of it touches. */
  lemma TouchedStep(next: int, n: int, size: int)
    requires 0 <= next && 0 < size && 0 < n
    ensures Touched(next, n, size) == {Slot(next, size)} + Touched(next + 1, n - 1, size)
  {
    // both inclusions spelled out: without them the proof is not stable across solver seeds
    var all, head, tail := Touched(next, n, size), Slot(next, size), Touched(next + 1, n - 1, size);
    forall j | j in all ensures j == head || j in tail {
      var s :| next <= s < next + n && j == Slot(s, size);
      if s != next {
        assert next + 1 <= s < next + 1 + (n - 1);
      }
    }
    forall j | j in tail ensures j in all {
      var s :| next + 1 <= s < next + 1 + (n - 1) && j == Slot(s, size);
      assert next <= s < next + n;
    }
    assert head in all;
  }

  /**
   The producer's loop: the item for sequence number `s` goes to `s`'s cell and
   that cell's flag is set to 1, in increasing `s`, so a later item overwrites
   an earlier one a whole lap behind it. Only the last lap of `data` survives,
   and no cell outside the written range changes.
   */
  function Publish<T>(rb: RingBuffer<T>, next: int, data: seq<T>): (r: RingBuffer<T>)
    requires Valid(rb) && 0 <= next
    ensures Valid(r)
    ensures r.size == rb.size && r.writeCursor == rb.writeCursor
    ensures r.readCursors == rb.readCursors && r.readBarrier == rb.readBarrier
    ensures forall s :: next <= s < next + |data| && next + |data| - rb.size <= s ==>
              r.buffer[Slot(s, rb.size)] == Some(data[s - next])
    ensures forall j :: 0 <= j < rb.size && j in Touched(next, |data|, rb.size) ==> r.available[j] == 1
    ensures forall j :: 0 <= j < rb.size && j !in Touched(next, |data|, rb.size) ==>
              r.buffer[j] == rb.buffer[j] && r.available[j] == rb.available[j]
    decreases |data|
  {
    if |data| == 0 then
      rb
    else
      var j := Slot(next, rb.size);
      var rb' := rb.(buffer := rb.buffer[j := Some(data[0])], available := rb.available[j := 1]);
      var r := Publish(rb', next + 1, data[1..]);
      PublishStep(rb, next, data, rb', r);
      r
  }

  /** The inductive step of `Publish`: the head item, then the recursive write of the tail. */
  lemma PublishStep<T>(rb: RingBuffer<T>, next: int, data: seq<T>, rb': RingBuffer<T>, r: RingBuffer<T>)
    requires Valid(rb) && 0 <= next && 0 < |data|
    requires rb' == rb.(buffer := rb.buffer[Slot(next, rb.size) := Some(data[0])],
                        available := rb.available[Slot(next, rb.size) := 1])
    requires Valid(r) && r.size == rb.size
    requires forall s :: next + 1 <= s < next + |data| && next + |data| - rb.size <= s ==>
               r.buffer[Slot(s, rb.size)] == Some(data[1..][s - (next + 1)])
    requires forall j :: 0 <= j < rb.size && j in Touched(next + 1, |data| - 1, rb.size) ==> r.available[j] == 1
    requires forall j :: 0 <= j < rb.size && j !in Touched(next + 1, |data| - 1, rb.size) ==>
               r.buffer[j] == rb'.buffer[j] && r.available[j] == rb'.available[j]
    ensures forall s :: next <= s < next + |data| && next + |data| - rb.size <= s ==>
              r.buffer[Slot(s, rb.size)] == Some(data[s - next])
    ensures forall j :: 0 <= j < rb.size && j in Touched(next, |data|, rb.size) ==> r.available[j] == 1
    ensures forall j :: 0 <= j < rb.size && j !in Touched(next, |data|, rb.size) ==>
              r.buffer[j] == rb.buffer[j] && r.available[j] == rb.available[j]
  {
    var size, n := rb.size, |data|;
    var j0 := Slot(next, size);
    TouchedStep(next, n, size);
    forall s | next <= s < next + n && next + n - size <= s
      ensures r.buffer[Slot(s, size)] == Some(data[s - next])
    {
      if s > next {
        assert data[1..][s - (next + 1)] == data[s - next];
      } else if j0 in Touched(next + 1, n - 1, size) {
        // within one lap, the tail never comes back round to the head's cell
        var s' :| next + 1 <= s' < next + n && j0 == Slot(s', size);
        SlotsDistinct(next, s', size);
      }
    }
  }

  /**
   Put (lmax.go:36-46): claim `|data|` sequence numbers by advancing the write
   cursor, then publish the items into their cells. Nothing here consults the
   read barrier, so a Put may overwrite cells no consumer has read yet.
   */
  function Put<T>(rb: RingBuffer<T>, data: seq<T>): (r: RingBuffer<T>)
    requires Valid(rb)
    ensures Valid(r)
    ensures r.size == rb.size
    ensures r.writeCursor == rb.writeCursor + |data|
    ensures r.readCursors == rb.readCursors && r.readBarrier == rb.readBarrier
    ensures forall s :: rb.writeCursor <= s < r.writeCursor && r.writeCursor - rb.size <= s ==>
              r.buffer[Slot(s, rb.size)] == Some(data[s - rb.writeCursor])
    ensures forall j :: 0 <= j < rb.size && j in Touched(rb.writeCursor, |data|, rb.size) ==> r.available[j] == 1
    ensures forall j :: 0 <= j < rb.size && j !in Touched(rb.writeCursor, |data|, rb.size) ==>
              r.buffer[j] == rb.buffer[j] && r.available[j] == rb.available[j]
    ensures forall j :: 0 <= j < rb.size && rb.available[j] == 1 ==> r.available[j] == 1
  {
    var claimed := rb.(writeCursor := rb.writeCursor + |data|);
    Publish(claimed, rb.writeCursor, data)
  }

  /**
   The consumer's guard at lmax.go:56-57: sequence number `s` is at or below
   the write cursor and less than a lap ahead of the read barrier. Because the
   write cursor counts items, `s == writeCursor` passes although that sequence
   number has not been written in the current lap.
   */
  predicate InWindow<T>(rb: RingBuffer<T>, s: int) {
    s <= rb.writeCursor && s - rb.readBarrier < rb.size
  }

  /** What the consumer's loop collected, and whether it stopped at an unavailable cell. */
  datatype Batch<T> = Batch(items: seq<Option<T>>, blocked: bool)

  /**
   The consumer's loop (lmax.go:55-71) from sequence number `next` with
   `remaining` items still wanted. A cell in the window whose flag is not 1
   makes the Go loop sleep and retry without changing anything, which in a
   single thread never ends: that is reported as `blocked`.
   */
  function Collect<T>(rb: RingBuffer<T>, remaining: nat, next: int): (b: Batch<T>)
    requires Valid(rb) && 0 <= next
    ensures |b.items| <= remaining
    ensures forall s :: next <= s < next + |b.items| ==>
              && InWindow(rb, s)
              && rb.available[Slot(s, rb.size)] == 1
              && b.items[s - next] == rb.buffer[Slot(s, rb.size)]
    ensures b.blocked ==>
              && |b.items| < remaining
              && InWindow(rb, next + |b.items|)
              && rb.available[Slot(next + |b.items|, rb.size)] != 1
    ensures !b.blocked && |b.items| < remaining ==> !InWindow(rb, next + |b.items|)
    decreases remaining
  {
    if remaining == 0 || !InWindow(rb, next) then
      Batch([], false)
    else if rb.available[Slot(next, rb.size)] != 1 then
      Batch([], true)
    else
      var rest := Collect(rb, remaining - 1, next + 1);
      var b := Batch([rb.buffer[Slot(next, rb.size)]] + rest.items, rest.blocked);
      b
  }

  /**
   The barrier recomputation (lmax.go:73-78): start from `m` and scan the
   cursors in order, keeping any strictly smaller one. The result is the
   minimum of `m` and all the cursors.
   */
  function MinCursor(m: int, cursors: seq<int>): (r: int)
    ensures r <= m
    ensures forall i :: 0 <= i < |cursors| ==> r <= cursors[i]
    ensures r == m || exists i :: 0 <= i < |cursors| && r == cursors[i]
    decreases |cursors|
  {
    if |cursors| == 0 then
      m
    else
      var r := MinCursor(if cursors[0] < m then cursors[0] else m, cursors[1..]);
      assert r != m && r != cursors[0] ==> exists i :: 0 <= i < |cursors[1..]| && r == cursors[1..][i];
      r
  }

  /** The outcome of a Get: the items returned, whether it blocked, and the state after it. */
  datatype GetResult<T> = GetResult(items: seq<Option<T>>, blocked: bool, rb: RingBuffer<T>)

  /**
   Get (lmax.go:49-82) for consumer `id`: read up to `batchSize` items from the
   sequence number after the consumer's cursor, advance the cursor past them,
   then set the read barrier to the minimum of all cursors. A Get that blocks
   has already advanced the cursor past what it read but has not reached the
   barrier recomputation.
   */
  function Get<T>(rb: RingBuffer<T>, batchSize: int, id: int): (r: GetResult<T>)
    requires Valid(rb)
    requires 0 <= id < |rb.readCursors|
    requires 0 <= batchSize
    ensures Valid(r.rb)
    ensures r.rb.size == rb.size && r.rb.buffer == rb.buffer && r.rb.available == rb.available
    ensures r.rb.writeCursor == rb.writeCursor
    ensures |r.items| <= batchSize
    ensures |r.rb.readCursors| == |rb.readCursors|
    ensures r.rb.readCursors[id] == rb.readCursors[id] + |r.items|
    ensures forall i :: 0 <= i < |rb.readCursors| && i != id ==> r.rb.readCursors[i] == rb.readCursors[i]
    ensures forall s :: rb.readCursors[id] + 1 <= s < rb.readCursors[id] + 1 + |r.items| ==>
              && s <= rb.writeCursor
              && s - rb.readBarrier < rb.size
              && rb.available[Slot(s, rb.size)] == 1
              && r.items[s - (rb.readCursors[id] + 1)] == rb.buffer[Slot(s, rb.size)]
    ensures r.blocked ==>
              var s := rb.readCursors[id] + 1 + |r.items|;
              && |r.items| < batchSize
              && s <= rb.writeCursor && s - rb.readBarrier < rb.size
              && rb.available[Slot(s, rb.size)] != 1
              && r.rb.readBarrier == rb.readBarrier
    ensures !r.blocked && |r.items| < batchSize ==>
              var s := rb.readCursors[id] + 1 + |r.items|;
              rb.writeCursor < s || rb.size <= s - rb.readBarrier
    ensures !r.blocked ==>
              && (forall i :: 0 <= i < |r.rb.readCursors| ==> r.rb.readBarrier <= r.rb.readCursors[i])
              && (exists i :: 0 <= i < |r.rb.readCursors| && r.rb.readBarrier == r.rb.readCursors[i])
  {
    var b := Collect(rb, batchSize, rb.readCursors[id] + 1);
    var cursors := rb.readCursors[id := rb.readCursors[id] + |b.items|];
    if b.blocked then
      GetResult(b.items, true, rb.(readCursors := cursors))
    else
      var barrier := MinCursor(cursors[id], cursors);
      GetResult(b.items, false, rb.(readCursors := cursors, readBarrier := barrier))
  }

  /**
   The guard admits a window of at most one lap: below a sequence number that
   passes it, every one down to the barrier passes too, and two such sequence
   numbers never share a cell, so one Get never reads the same cell twice.
   */
  lemma WindowCellsDistinct<T>(rb: RingBuffer<T>, s: int, t: int)
    requires Valid(rb) && 0 <= s && rb.readBarrier <= s < t
    requires InWindow(rb, t)
    ensures InWindow(rb, s)
    ensures Slot(s, rb.size) != Slot(t, rb.size)
  {
    SlotsDistinct(s, t, rb.size);
  }
}
