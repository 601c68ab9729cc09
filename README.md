# Buffer-fill kernel of the queue-versus-lock benchmark

The benchmark compares four ways of getting `Workers` writers to append the same 10-byte
payload `Data = {0, 1, ..., 9}` to one shared, pre-sized buffer:

- `Baseline` writes sequentially.
- `Lock` serialises the writers with a C# `lock`.
- `LockSemaphoreSlim` serialises them with `SemaphoreSlim(1, 1)`.
- `Queue` puts one closure per worker on an unbounded single-reader/single-writer channel, completes the writer and drains the channel on one thread.

Every strategy returns the djb2 checksum of the final buffer.

This project models the sequential core of that benchmark in Dafny:

- `numerics.dfy` holds C#'s `byte`, `uint` and `int` as bounded integer types. `WrapInt32` gives unchecked `int` wrap-around.
- `wrappers.dfy` holds the exceptions that can escape, and the `Result`/`Outcome`/`Option` types that carry them.
- `checksum.dfy` holds the `hash` function. It is a left fold of `h * 33 + b mod 2^32` from 5381, and the method is its `foreach` loop.
- `memory_stream.dfy` holds `new MemoryStream(data, true)`. It is a class over the caller's array with a position. `Write` copies at the position and advances it, or throws `NotSupportedException` past the fixed capacity.
- `channel.dfy` holds the channel: a FIFO `seq` plus a completed flag, with `TryWrite`, `TryComplete`, `WaitToRead` and `TryRead`.
- `sync.dfy` holds the monitor behind `lock` and `SemaphoreSlim`.
- `benchmark.dfy` holds the four strategies as methods, their local `worker` functions, and the two specification functions:
  - `BaselineResult` is what `Baseline` and `Queue` return;
  - `ConcurrentResult` is what `Lock` and `LockSemaphoreSlim` return.
  The lemmas about these functions state what the buffer holds.

Each strategy method also returns, as a ghost output, the final contents of its buffer. On success that buffer is `Filled(size, Writes(Workers))`, where `Writes(Workers)` is `max(Workers, 0)`: that many payloads followed by zeros, which is exactly `Data` repeated `Workers` times when the size did not wrap. The returned checksum is `Djb2` of that buffer. So the buffers agree across strategies, not only the checksums.

The buffer size is `Workers * Data.Length` in unchecked 32-bit arithmetic, and this is modelled as written:

- a negative size makes `Enumerable.Repeat` throw ArgumentOutOfRange;
- a size above the runtime's byte-array cap 0x7FFFFFC7 makes the allocation throw OutOfMemory;
- for a positive count, a size that wrapped to an allocatable value is smaller than `10 * Workers`, so a later `Write` throws NotSupported (429496730 gives 4 bytes).

For some negative worker counts the size wraps to a small positive number, for example -429496729 gives 6 bytes. With such a count:

- `Baseline` and `Queue` hash an all-zero buffer;
- `Lock` and `LockSemaphoreSlim` throw, because `Enumerable.Range` rejects the count.

`NegativeWorkersWrap` states this case, `PositiveWorkersWrap` the positive one, and `ArrayCapOverflow` the cap.

`Lock` and `LockSemaphoreSlim` are modelled by serialising the guarded writes. The order in which the lock or semaphore admits the workers is a parameter, `schedule`, which may be any order of the ids `1..Workers`. Each guarded write is one atomic step. Both methods are proved to return the same result for every such order.

## Model

| member | source | states |
|---|---|---|
| `Numerics.WrapInt32` | Benchmark.cs:34 | the int product `Workers * Data.Length` is congruent to the exact product modulo 2^32 and equals it when it fits in an int |
| `Checksum.Hash` | Benchmark.cs:23-29 | the loop returns `Djb2(data[..])`: seed 5381, then `h := (h*33 + b) mod 2^32` for each byte in index order |
| `Checksum.FoldAppend` | Benchmark.cs:26-27 | folding over `a + b` continues the fold of `a` over `b` |
| `Checksum.FoldSnoc` | Benchmark.cs:26-27 | one more byte applies exactly one more round |
| `Checksum.Djb2Append` | Benchmark.cs:25-28 | the checksum of `a + b` is the fold over `b` started from the checksum of `a` |
| `Checksum.FoldIsExactMod` | Benchmark.cs:27 | wrapping at every round equals computing over unbounded integers and wrapping once |
| `Checksum.Djb2IsExactMod` | Benchmark.cs:25-28 | the checksum is the exact djb2 value from 5381 reduced modulo 2^32 |
| `Streams.Overwrite` | Benchmark.cs:37 | a write changes exactly its window `[pos, pos + len)` to the payload and keeps the length and every other byte |
| `Streams.MemoryStream.constructor` | Benchmark.cs:35 | the stream writes into the caller's array, from position 0 |
| `Streams.MemoryStream.Write` | Benchmark.cs:37 | if the payload fits, it is copied at the position, the position advances by its length and nothing else changes; otherwise NotSupported and nothing changes |
| `Channels.Channel.constructor` | Benchmark.cs:74-79 | a new channel is empty and open |
| `Channels.Channel.TryWrite` | Benchmark.cs:87 | an open channel appends the item at the tail; a completed one rejects it and is unchanged |
| `Channels.Channel.TryComplete` | Benchmark.cs:89 | the channel becomes completed with its items untouched |
| `Channels.Channel.WaitToRead` | Benchmark.cs:92 | on a completed or non-empty channel, true exactly when an item is available |
| `Channels.Channel.TryRead` | Benchmark.cs:92-93 | removes and returns the oldest item, or returns None on an empty channel |
| `Sync.Monitor.constructor` | Benchmark.cs:47 | the fresh lock object `l` is free |
| `Sync.Monitor.Enter` | Benchmark.cs:59 | entering a free monitor takes it |
| `Sync.Monitor.Exit` | Benchmark.cs:62 | leaving the monitor frees it |
| `Sync.SemaphoreSlim.constructor` | Benchmark.cs:112 | `SemaphoreSlim(1, 1)` starts with one permit of at most one |
| `Sync.SemaphoreSlim.Wait` | Benchmark.cs:127 | takes a permit |
| `Sync.SemaphoreSlim.Release` | Benchmark.cs:132 | returns a permit and the previous count, or throws SemaphoreFull at the maximum |
| `Benchmark.BufferSize` | Benchmark.cs:34 | the size `Workers * Data.Length` (also at lines 45, 72 and 110) is congruent to `10 * Workers` modulo 2^32 and equal to it whenever that product fits in an int |
| `Benchmark.AllocateZeroed` | Benchmark.cs:34 | a negative count throws ArgumentOutOfRange, a count above the array-length cap throws OutOfMemory; otherwise a fresh all-zero array of exactly that length |
| `Benchmark.WritePayload` | Benchmark.cs:96-99 | from `n` filled slots, writing `Data` fills slot `n + 1` when it fits, and otherwise throws NotSupported leaving the buffer and position as they were |
| `Benchmark.Baseline` | Benchmark.cs:32-39 | returns `BaselineResult(Workers)`, or the exception; on success the final buffer is `Filled(size, Writes(Workers))`, that is `max(Workers, 0)` payloads followed by zeros, and the result is its checksum |
| `Benchmark.EnqueueWorkers` | Benchmark.cs:86-87 | the open channel ends up holding `Worker(1), ..., Worker(Workers)` in order, and stays open; a `Job` value stands for the closure `() => worker(i, stream)` |
| `Benchmark.RunNext` | Benchmark.cs:92-93 | reading takes the oldest job off the channel and leaves the rest in order; running it fills the next slot when the payload fits, and otherwise throws NotSupported with the buffer unchanged |
| `Benchmark.Drain` | Benchmark.cs:92-93 | on a completed channel, the jobs run once each in FIFO order and the channel ends empty and still completed, with one payload more per job; the first job that throws stops the drain with its exception, and a job throws only when the next 10-byte payload does not fit in the rest of the buffer |
| `Benchmark.Queue` | Benchmark.cs:69-104 | returns `BaselineResult(Workers)`, the same result as `Baseline`, and on success leaves the same final buffer |
| `Benchmark.LockWorker` | Benchmark.cs:57-63 | the guarded write fills the next slot or throws, and the monitor is free afterwards on both paths |
| `Benchmark.SemaphoreWorker` | Benchmark.cs:123-134 | the guarded write fills the next slot or throws, and the semaphore is back to one permit on both paths |
| `Benchmark.Lock` | Benchmark.cs:42-66 | for every order in which the lock admits workers 1..Workers, returns `ConcurrentResult(Workers)`, and on success leaves the same final buffer as `Baseline` |
| `Benchmark.LockSemaphoreSlim` | Benchmark.cs:107-137 | for every order in which the semaphore admits workers 1..Workers, returns `ConcurrentResult(Workers)`, and on success leaves the same final buffer as `Baseline` |
| `Benchmark.PayloadsLength` | Benchmark.cs:36-37 | `Workers` payloads are exactly `10 * Workers` bytes |
| `Benchmark.PayloadsAt` | Benchmark.cs:36-37 | byte `k` of the filled buffer is `Data[k mod 10]` |
| `Benchmark.PayloadsChunk` | Benchmark.cs:36-37 | every 10-byte slot `i < Workers` is a whole copy of `Data`, so no write is lost, duplicated or torn |
| `Benchmark.FillStep` | Benchmark.cs:36-37 | writing `Data` at slot `n` of a buffer holding `n` payloads yields `n + 1` payloads |
| `Benchmark.BaselineFillsExactly` | Benchmark.cs:34-38 | when `Workers * 10` is an allocatable length, the buffer is exactly `Workers * 10` bytes, equal to `Data` repeated `Workers` times, and its checksum is returned |
| `Benchmark.BaselineSucceedsIff` | Benchmark.cs:34-37 | for `Workers >= 0`, the run succeeds if and only if `Workers * 10` is at most the byte-array cap 0x7FFFFFC7 |
| `Benchmark.ConcurrentMatchesBaseline` | Benchmark.cs:49-55 | for `Workers >= 0`, the result the lock and semaphore strategies are specified to return is `Baseline`'s (this unfolds the definition; the proof is in `Lock` and `LockSemaphoreSlim`) |
| `Benchmark.NegativeWorkersWrap` | Benchmark.cs:45-51 | `Workers = -429496729` wraps to a 6-byte buffer: `Baseline` hashes six zeros while `Lock` throws ArgumentOutOfRange |
| `Benchmark.PositiveWorkersWrap` | Benchmark.cs:34-37 | `Workers = 429496730` wraps to a 4-byte buffer, so the first `Write` does not fit and `Baseline` throws NotSupported |
| `Benchmark.ArrayCapOverflow` | Benchmark.cs:34 | `Workers = 214748360` gives 2147483600 bytes, which fits in an int but exceeds the array cap, so every strategy throws OutOfMemory |

## Left out

- Threads are not modelled: `Task.Run`, `Task.WhenAll`, real interleavings, and the blocking inside `lock` and `SemaphoreSlim.Wait`. The guarded writes run one after another in the order `schedule`. That is the only thing concurrency can change here, because each write is exclusive and every write is identical.
- `Task.WhenAll` wraps worker exceptions in an aggregate and `await` rethrows the first. The model reports one NotSupported error, which is every worker's exception here.
- `Sync.Monitor.Enter` and `Sync.SemaphoreSlim.Wait` require a free monitor or an available permit. In a serial model they never have to wait. Monitor re-entrancy is not modelled.
- Channel internals are not modelled: `AllowSynchronousContinuations`, async enumeration, and the scheduling of `ReadAllAsync`. `Channels.Channel.WaitToRead` is only called on a completed or non-empty channel, because on one thread waiting on an open, empty channel never returns.
- The return values of `TryWrite` and `TryComplete` are ignored, as in the code.
- Each closure enqueued by `Queue` captures the loop variable `i` itself, so by the time it runs it reads `Workers + 1`. `worker` ignores its `id`, so this cannot be observed. `Benchmark.Job` records the id at enqueue time.
- `Queue`'s loop counter is an unbounded integer. In C#, `i <= Workers` with `Workers = int.MaxValue` would overflow `i`, but that count already fails at allocation, because `int.MaxValue * 10` wraps to a negative number.
- MemoryStream internals are not modelled beyond the fixed-capacity write and the position: disposal through `using`, the `_isOpen`/`_writable` checks and the `Span` copy.
- Benchmark.AllocateZeroed: throws OutOfMemory only above the byte-array length cap 0x7FFFFFC7 (`Array.MaxLength`); running out of memory for an allocatable length depends on the machine and is not modelled. `Enumerable.Repeat(...).ToArray()` is otherwise a zeroed allocation that throws on a negative count.
- BenchmarkDotNet is not modelled: the attributes (`MemoryDiagnoser`, `CsvMeasurementsExporter`, `RPlotExporter`, `Params(1, 10, 100)`), timing, allocation measurement and export. `Workers` is any `int`, not only the three parameter values.
- The commented-out LINQ enqueue at Benchmark.cs:81-84 is dead code.
- A growable sink and concurrently running producers for the queue are not part of this code, so they are not modelled. A closed-queue write here returns false rather than failing.
