# LMAX-style ring buffer, modelled in Dafny

This project models the `RingBuffer` of `lmax.go` as a sequential state
machine. The ring is a fixed number of cells. Producers `Put` batches of items
into it. Each consumer `Get`s batches from it through its own read cursor. The
state is what the Go struct holds:

- `size`
- the cell array `buffer`
- the 0/1 `available` flags
- the `writeCursor`, which counts the items ever put
- one `readCursors` entry per consumer: the last sequence number it has read, -1 before the first
- the `readBarrier`: 0 in a fresh ring, one above every cursor; after that, the minimum consumer cursor as of the last completed unblocked `Get`

`NewRingBuffer`, `Put` and `Get` are pure functions on an immutable state value
(module `Lmax`, file `lmax.dfy`). Cells hold `Option<T>`. `None` is the nil a
fresh Go slice holds, and `T` replaces `interface{}`. Sequence number `s` lives
in cell `Slot(s, size)` (module `Slots`), defined by subtracting whole laps;
`SlotIsMod` proves it equals `s % size`. Every cursor in a reachable state is
at least -1, so the sequence numbers used are never negative. For
non-negative operands, Go's truncating `%` gives the same remainder.

The model follows the code as written, not the LMAX Disruptor design it aims at:

- `Put` never consults the read barrier, so it can overwrite cells no consumer has read.
- A flag is a plain 0/1 value with no sequence tag. It is set by `Put` and never cleared.
- `Get`'s guard admits the sequence number equal to `writeCursor`, although that sequence number has not been written.
- When `Get` finds a cell in its window whose flag is not 1, the Go loop sleeps and retries without changing anything. A single thread would loop forever. The model reports this as `blocked = true` and returns the state the spinning `Get` leaves visible: the caller's cursor has moved past the items read so far, and the barrier has not been recomputed.

Module `Stream` (file `stream.dfy`) gives an independent reference model: the
sequence `log` of every item ever put, where `log[s]` has sequence number `s`.
`Represents(rb, log)` ties a ring to its log. `NewRingBuffer` establishes it,
and `Put` and `Get` preserve it. Measured against the log, the lemmas state
what `Get` returns:

- an item in the log's last lap is exactly `log[s]`;
- at the write cursor, `Get` returns the item one lap older (the stale read);
- every item is the latest one put into its cell;
- `Get` blocks only at the write cursor, during the first lap.

Module `Scenarios` (file `scenarios.dfy`) replays the basic test
single-threaded, plus small runs that exhibit each departure listed above.

The LMAX Disruptor design this code aims at has producers gated by the read barrier,
sequence-tagged cells, and shutdown that unblocks waiting calls. The code has
none of these. Where the design and the code disagree, the model follows the
code.

## Model

| member | source | states |
|---|---|---|
| Slots.Slot | lmax.go:39-40 | The cell index of a sequence number is below `size`, and a sequence number in the first lap is its own cell |
| Slots.SlotIsMod | lmax.go:58-59 | The cell index equals the sequence number modulo `size`, which is what Go's `%` computes for the cell index on the non-negative sequence numbers used in Put and Get |
| Lmax.WindowCellsDistinct | lmax.go:56-57 | The read guard (`InWindow`) admits at most one lap: below a sequence number it admits, every one down to the barrier is admitted too, and two admitted sequence numbers at or above the barrier never share a cell |
| Lmax.NewRingBuffer | lmax.go:22-33 | A new ring has `size` empty cells, all flags 0, `numConsumers` cursors all -1, write cursor 0 and barrier 0, and is well formed |
| Lmax.Publish | lmax.go:38-42 | The producer loop puts the item for each sequence number `s` into `s`'s cell and sets the flag to 1. Later items overwrite earlier ones, so each item of the last lap ends in its cell. Cells outside the written range and all cursors are untouched |
| Lmax.Put | lmax.go:36-46 | The write cursor advances by exactly the number of items. Each item of the batch's last lap sits in the cell of its sequence number, and every touched cell is flagged 1. Every other cell, every consumer cursor and the barrier are unchanged. A flag that was 1 stays 1 |
| Lmax.Collect | lmax.go:51-71 | The read loop takes at most `remaining` items. Each one comes from the cell of consecutive sequence number `next + k`, which is inside the window and flagged 1. The loop stops early only when the next sequence number is outside the window, or when it is inside the window but unflagged (blocked) |
| Lmax.MinCursor | lmax.go:73-78 | The barrier scan returns a value no greater than its start value or any cursor. That value is the start value or one of the cursors |
| Lmax.Get | lmax.go:49-82 | Get returns at most `batchSize` items. The k-th item is the cell content at sequence number `cursor + 1 + k`, which is at most the write cursor, less than a lap past the entry barrier, and flagged 1. The caller's cursor advances by exactly the number returned and the other cursors are unchanged. Cells, flags and the write cursor are unchanged. An unblocked Get stops short only at the window's edge and sets the barrier to the minimum of all cursors, including the caller's updated one. A blocked Get leaves the barrier alone |
| Stream.NewRepresentsEmpty | lmax.go:22-33 | A fresh ring holds the empty stream |
| Stream.PutRepresents | lmax.go:36-46 | Put appends its items to the stream whatever the consumers have read. The flags and cell contents stay exactly those of the longer stream |
| Stream.GetRepresents | lmax.go:49-82 | Get keeps the stream. No consumer cursor passes the write cursor, and the barrier stays at least -1 and at most one past every cursor |
| Stream.GetReadsFresh | lmax.go:55-61 | An item Get reads at sequence number `s` in the stream's last lap is exactly the item put with sequence number `s` |
| Stream.GetReadsStaleAtCursor | lmax.go:56-59 | Get can read at sequence number `writeCursor`, which has not been written, only after a full lap, and then returns the item put a lap earlier |
| Stream.GetReadsLatestInCell | lmax.go:58-59 | Every item Get returns is the latest item put into its cell, never an empty cell |
| Stream.GetBlocksIff | lmax.go:56-67 | Get blocks if and only if it wants another item and the next sequence number equals the write cursor, still inside the first lap and inside the barrier window |
| Stream.GetCount | lmax.go:55-71 | An unblocked Get returns `min(batchSize, max(0, hi - cursor))` items. Here `hi` is the smaller of the write cursor and the barrier plus `size - 1` |
| Scenarios.PutEachRepresents | lmax_test.go:13-15 | One single-item Put per value appends the values to the stream in order |
| Scenarios.PutEachIsPut | lmax.go:36-42 | One Put of a batch and one Put per item of the batch reach the same state |
| Scenarios.BasicFunctionality | lmax_test.go:9-40 | Ten single-item Puts go into a size-10, two-consumer ring. Then `Get(5, 0)` and `Get(5, 1)` each return exactly the first five values, without blocking, in whichever order the two consumers' goroutines run |
| Scenarios.TwoBatchesOneConsumer | lmax.go:51-79 | With one consumer, two Gets of five from a full size-10 ring return the first five values and then the last five |
| Scenarios.IdleConsumerThrottlesReader | lmax.go:56-57 | With a second consumer that never reads, the first consumer's unblocked Get of five leaves the barrier at -1, and so does its second Get. The first consumer's second Get of five then returns only four values, although all ten were put |
| Scenarios.BlocksAtUnwrittenCell | lmax.go:56-67 | After one Put of one item, a Get of two returns that item and then blocks on the unflagged next cell. The barrier is left alone |
| Scenarios.StaleReadAtCursor | lmax.go:55-61 | In a size-2 ring holding `a, b`, a consumer that has read both items gets `a` again at the unwritten sequence number 2. Its cursor then equals the write cursor |
| Scenarios.OverwriteLosesUnread | lmax.go:37-42 | An ungated Put of three items into a size-2 ring overwrites `a` before anyone reads it. The consumer then gets `c` at sequence number 0 and `b` at sequence number 1 |

## Left out

- Atomic operations, memory ordering and the `unsafe.Pointer` cast on a consumer cursor: the model is single-threaded, so each atomic load or store is a plain read or write of the state value.
- Concurrent interleavings of Put and Get, including another thread publishing while a Get spins: the `blocked` outcome records where a single thread would spin forever.
- The one-microsecond `time.Sleep` back-off in Get: it has no effect on the state, and its only trace is the `blocked` outcome.
- `Producer`, `Consumer` and `main`: goroutines, the stop channel, printing and sleeps belong to the driver. `Producer` is a plain call of `Put`. `PutEach` stands for the test's loop of `Producer` calls.
- `writeBarrier`: no code reads it, and its only update is commented out.
- `TestConcurrency` and both benchmarks: their subject is concurrent scheduling and timing, which a sequential model cannot express.
- 64-bit overflow of cursors: cursors are unbounded integers. A cursor would need 2^63 items to wrap.
- Lmax.NewRingBuffer: requires `size > 0`. Go accepts a size of 0, but the first Put of any item then panics on modulo by zero.
- Lmax.Put and Lmax.Get: require the state to be well formed (`Valid`): arrays of length `size`, a non-negative write cursor, and cursors of at least -1. Go never checks it. Every state built by these operations has that shape, which the contracts of `NewRingBuffer`, `Put` and `Get` prove; only a hand-built struct can break it, and some such structs panic at lmax.go:39-40 or 58-59.
- Producer gating by the barrier, sequence-tagged cells, shutdown signals and pluggable wait strategies: the code has none of them, so the model has none either.
