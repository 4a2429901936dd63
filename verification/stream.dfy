/**
 The logical stream behind a ring buffer.

 A ring that has been used only through `NewRingBuffer`, `Put` and `Get` stands
 for the sequence `log` of every item ever put, in claim order: item `log[s]`
 has sequence number `s`. `Represents` is that abstraction; the lemmas show
 each operation keeps it, and what Get returns in terms of the log, including
 the two places where the code as written departs from "each consumer sees
 every item once": the stale read at the write cursor and the overwrite of
 items more than a lap behind.
 */
module Stream {
  import opened Slots
  import opened Lmax

  /**
   `rb` holds the stream `log`: the write cursor is its length; a cell's flag
   is 1 exactly when some item has been put into it (cells below `|log|`), and
   an unwritten cell is empty; the last lap of the log sits in its cells; no
   consumer is past the write cursor; and the barrier is at least -1 and never
   more than one ahead of any consumer.
   */
  ghost predicate Represents<T>(rb: RingBuffer<T>, log: seq<T>) {
    && Valid(rb)
    && rb.writeCursor == |log|
    && (forall j :: 0 <= j < rb.size ==> rb.available[j] == (if j < |log| then 1 else 0))
    && (forall j :: 0 <= j < rb.size && |log| <= j ==> rb.buffer[j] == None)
    && (forall s :: 0 <= s < |log| && |log| - rb.size <= s ==> rb.buffer[Slot(s, rb.size)] == Some(log[s]))
    && (forall i :: 0 <= i < |rb.readCursors| ==> rb.readCursors[i] <= |log|)
    && (forall i :: 0 <= i < |rb.readCursors| ==> rb.readBarrier <= rb.readCursors[i] + 1)
    && -1 <= rb.readBarrier
  }

  /** A fresh ring holds the empty stream. */
  lemma NewRepresentsEmpty<T>(size: int, numConsumers: int)
    requires 0 < size && 0 <= numConsumers
    ensures Represents(NewRingBuffer<T>(size, numConsumers), [])
  {
  }

  /** Put appends its items to the stream, whatever the consumers have or have not read. */
  lemma PutRepresents<T>(rb: RingBuffer<T>, log: seq<T>, data: seq<T>)
    requires Represents(rb, log)
    ensures Represents(Put(rb, data), log + data)
  {
    var r, size, L, n := Put(rb, data), rb.size, |log|, |data|;
    var log' := log + data;
    forall j | 0 <= j < size
      ensures r.available[j] == (if j < L + n then 1 else 0)
      ensures L + n <= j ==> r.buffer[j] == None
    {
      if L <= j < L + n {
        assert j == Slot(j, size);
        assert j in Touched(L, n, size);
      }
    }
    forall s | 0 <= s < L + n && L + n - size <= s
      ensures r.buffer[Slot(s, size)] == Some(log'[s])
    {
      if s < L {
        // an item of the old last lap is overwritten only by one a whole lap later
        if Slot(s, size) in Touched(L, n, size) {
          var s' :| L <= s' < L + n && Slot(s, size) == Slot(s', size);
          SlotsDistinct(s, s', size);
        }
      }
    }
  }

  /** Get changes only cursors and the barrier, so the stream is unchanged. */
  lemma GetRepresents<T>(rb: RingBuffer<T>, log: seq<T>, batchSize: int, id: int)
    requires Represents(rb, log)
    requires 0 <= id < |rb.readCursors| && 0 <= batchSize
    ensures Represents(Get(rb, batchSize, id).rb, log)
  {
    var r := Get(rb, batchSize, id);
    var c := rb.readCursors[id];
    if 0 < |r.items| {
      assert rb.available[Slot(c + |r.items|, rb.size)] == 1;
    }
    if !r.blocked {
      var i :| 0 <= i < |r.rb.readCursors| && r.rb.readBarrier == r.rb.readCursors[i];
    }
  }

  /**
   An item Get returns from the last lap of the stream, sequence number `s`
   with `|log| - size <= s < |log|`, is exactly `log[s]`.
   */
  lemma GetReadsFresh<T>(rb: RingBuffer<T>, log: seq<T>, batchSize: int, id: int)
    requires Represents(rb, log)
    requires 0 <= id < |rb.readCursors| && 0 <= batchSize
    ensures var r := Get(rb, batchSize, id);
            forall k :: 0 <= k < |r.items| ==>
              var s := rb.readCursors[id] + 1 + k;
              |log| - rb.size <= s < |log| ==> r.items[k] == Some(log[s])
  {
    var r := Get(rb, batchSize, id);
    forall k | 0 <= k < |r.items|
      ensures r.items[k] == rb.buffer[Slot(rb.readCursors[id] + 1 + k, rb.size)]
    {
      assert rb.available[Slot(rb.readCursors[id] + 1 + k, rb.size)] == 1;
    }
  }

  /**
   The guard at lmax.go:56 admits sequence number `|log|`, which has not been
   written. Get can only pass the flag test there once the stream is a lap
   long, and then returns the item a whole lap older, `log[|log| - size]`.
   */
  lemma GetReadsStaleAtCursor<T>(rb: RingBuffer<T>, log: seq<T>, batchSize: int, id: int)
    requires Represents(rb, log)
    requires 0 <= id < |rb.readCursors| && 0 <= batchSize
    ensures var r := Get(rb, batchSize, id);
            forall k :: 0 <= k < |r.items| && rb.readCursors[id] + 1 + k == |log| ==>
              rb.size <= |log| && r.items[k] == Some(log[|log| - rb.size])
  {
    var r := Get(rb, batchSize, id);
    forall k | 0 <= k < |r.items| && rb.readCursors[id] + 1 + k == |log|
      ensures rb.size <= |log| && r.items[k] == Some(log[|log| - rb.size])
    {
      assert rb.available[Slot(|log|, rb.size)] == 1;
      SlotLap(|log| - rb.size, rb.size);
    }
  }

  /**
   Every item Get returns is the latest one put into its sequence number's
   cell (so never an empty cell), even when that item belongs to a later lap
   than the sequence number asked for.
   */
  lemma GetReadsLatestInCell<T>(rb: RingBuffer<T>, log: seq<T>, batchSize: int, id: int)
    requires Represents(rb, log)
    requires 0 <= id < |rb.readCursors| && 0 <= batchSize
    ensures var r := Get(rb, batchSize, id);
            forall k :: 0 <= k < |r.items| ==>
              exists t :: 0 <= t < |log| && |log| - rb.size <= t
                          && Slot(t, rb.size) == Slot(rb.readCursors[id] + 1 + k, rb.size)
                          && r.items[k] == Some(log[t])
  {
    var r := Get(rb, batchSize, id);
    forall k | 0 <= k < |r.items|
      ensures exists t :: 0 <= t < |log| && |log| - rb.size <= t
                          && Slot(t, rb.size) == Slot(rb.readCursors[id] + 1 + k, rb.size)
                          && r.items[k] == Some(log[t])
    {
      var j := Slot(rb.readCursors[id] + 1 + k, rb.size);
      assert rb.available[j] == 1;
      var t := LastLapCovers(j, |log|, rb.size);
    }
  }

  /**
   Get blocks exactly when it wants another item and the next sequence number
   is the write cursor itself while the stream is still in its first lap: that
   cell has never been written, so its flag is 0 and the Go loop spins.
   */
  lemma GetBlocksIff<T>(rb: RingBuffer<T>, log: seq<T>, batchSize: int, id: int)
    requires Represents(rb, log)
    requires 0 <= id < |rb.readCursors| && 0 <= batchSize
    ensures var r := Get(rb, batchSize, id);
            var s := rb.readCursors[id] + 1 + |r.items|;
            r.blocked <==> |r.items| < batchSize && s == |log| < rb.size && s - rb.readBarrier < rb.size
  {
  }

  /** The smaller and the larger of two integers. */
  function Min(a: int, b: int): int { if a < b then a else b }
  function Max(a: int, b: int): int { if a < b then b else a }

  /**
   How many items a Get that does not block returns: every sequence number from
   the consumer's cursor up to `hi` is readable, where `hi` is the write
   cursor or the last sequence number less than a lap ahead of the barrier,
   whichever is smaller, and Get takes as many of them as the batch allows.
   */
  lemma GetCount<T>(rb: RingBuffer<T>, log: seq<T>, batchSize: int, id: int)
    requires Represents(rb, log)
    requires 0 <= id < |rb.readCursors| && 0 <= batchSize
    ensures var r := Get(rb, batchSize, id);
            var hi := Min(|log|, rb.readBarrier + rb.size - 1);
            !r.blocked ==> |r.items| == Min(batchSize, Max(0, hi - rb.readCursors[id]))
  {
    var r := Get(rb, batchSize, id);
    var c := rb.readCursors[id];
    if 0 < |r.items| {
      assert rb.available[Slot(c + |r.items|, rb.size)] == 1;
    }
  }
}
