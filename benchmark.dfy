/** The sequential kernel of the benchmark: a pre-sized buffer filled with `Workers` copies
    of a 10-byte payload through a MemoryStream, by the single-threaded `Baseline`, by the
    guarded writes of `Lock` and `LockSemaphoreSlim` taken one at a time, and by the
    drained work queue of `Queue`. Each returns the checksum of the final buffer. */
module Benchmark {
  import opened Numerics
  import opened Wrappers
  import opened Checksum
  import opened Streams
  import opened Channels
  import opened Sync

  /** The payload every worker writes. */
  const Data: seq<Byte> := [0, 1, 2, 3, 4, 5, 6, 7, 8, 9]

  /** `Data` repeated `n` times: the buffer every strategy is meant to produce. */
  function Payloads(n: nat): seq<Byte> {
    if n == 0 then [] else Payloads(n - 1) + Data
  }

  function Zeros(n: nat): seq<Byte> {
    seq(n, _ => 0)
  }

  /** A buffer of `size` bytes whose first `n` payload slots hold `Data` and the rest is zero. */
  function Filled(size: nat, n: nat): (r: seq<Byte>)
    requires 10 * n <= size
    ensures |r| == size
  {
    PayloadsLength(n);
    Payloads(n) + Zeros(size - 10 * n)
  }

  lemma {:induction false} PayloadsLength(n: nat)
    ensures |Payloads(n)| == 10 * n
  {
    if n > 0 {
      PayloadsLength(n - 1);
    }
  }

  /** Byte `k` of the repeated payload is byte `k mod 10` of `Data`. */
  lemma {:induction false} PayloadsAt(n: nat, k: nat)
    requires k < 10 * n
    ensures |Payloads(n)| == 10 * n && Payloads(n)[k] == Data[k % 10]
  {
    PayloadsLength(n);
    PayloadsLength(n - 1);
    assert Payloads(n) == Payloads(n - 1) + Data;
    if k < 10 * (n - 1) {
      PayloadsAt(n - 1, k);
    } else {
      var j := k - 10 * (n - 1);
      assert Payloads(n)[k] == Data[j];
      assert k % 10 == j;
    }
  }

  /** Slot `i` of the repeated payload is a whole copy of `Data`: nothing is lost,
      duplicated or torn. */
  lemma {:induction false} PayloadsChunk(n: nat, i: nat)
    requires i < n
    ensures |Payloads(n)| == 10 * n
    ensures Payloads(n)[10 * i .. 10 * (i + 1)] == Data
  {
    PayloadsLength(n);
    PayloadsLength(n - 1);
    if i < n - 1 {
      PayloadsChunk(n - 1, i);
      assert Payloads(n)[..10 * (n - 1)] == Payloads(n - 1);
    }
  }

  /** One more payload written at the next slot turns `n` filled slots into `n + 1`. */
  lemma FillStep(size: nat, n: nat)
    requires 10 * (n + 1) <= size
    ensures Overwrite(Filled(size, n), 10 * n, Data) == Filled(size, n + 1)
  {
  }

  /** The stream is at slot `n` of its buffer and the buffer holds `n` payloads, then zeros. */
  ghost predicate Holds(stream: MemoryStream, n: nat)
    reads stream, stream.buffer
  {
    stream.Valid() &&
    10 * n <= stream.buffer.Length &&
    stream.position == 10 * n &&
    stream.buffer[..] == Filled(stream.buffer.Length, n)
  }

  /** `Workers * Data.Length`, in C#'s unchecked int arithmetic. */
  function BufferSize(workers: Int32): (size: Int32)
    ensures (10 * workers - size) % 0x1_0000_0000 == 0
    ensures -0x8000_0000 <= 10 * workers <= Int32Max ==> size == 10 * workers
  {
    WrapInt32(workers * |Data|)
  }

  /** How many times a loop `for (i = 0; i < workers; ++i)` runs. */
  function Writes(workers: Int32): nat {
    if workers < 0 then 0 else workers
  }

  /** The largest length the .NET runtime allows for a byte array (`Array.MaxLength`). */
  const ArrayMaxLength: int := 0x7FFF_FFC7

  /** The exception `Enumerable.Repeat((byte)0x00, count).ToArray()` throws, if any:
      ArgumentOutOfRange for a negative count, OutOfMemory above the array-length cap. */
  function AllocationFault(count: Int32): Option<Error> {
    if count < 0 then Some(ArgumentOutOfRange)
    else if count > ArrayMaxLength then Some(OutOfMemory)
    else None
  }

  /** What `Baseline` and `Queue` return for `workers`: the checksum of the filled buffer,
      or the exception that escaped. */
  function BaselineResult(workers: Int32): Result<U32> {
    var size := BufferSize(workers);
    match AllocationFault(size)
    case Some(e) => Failure(e)
    case None =>
      if size < 10 * Writes(workers) then Failure(NotSupported)
      else Success(Djb2(Filled(size, Writes(workers))))
  }

  /** What `Lock` and `LockSemaphoreSlim` return: the same, except that once the buffer is
      allocated `Enumerable.Range` rejects a negative worker count. */
  function ConcurrentResult(workers: Int32): Result<U32> {
    if AllocationFault(BufferSize(workers)).None? && workers < 0 then Failure(ArgumentOutOfRange)
    else BaselineResult(workers)
  }

  /** `Enumerable.Repeat((byte)0x00, count).ToArray()`. */
  method AllocateZeroed(count: Int32) returns (r: Result<array<Byte>>)
    ensures AllocationFault(count).Some? <==> r.Failure?
    ensures r.Failure? ==> r.error == AllocationFault(count).value
    ensures r.Success? ==> fresh(r.value) && r.value[..] == Zeros(count)
  {
    if count < 0 {
      r := Failure(ArgumentOutOfRange);
      return;
    }
    if count > ArrayMaxLength {
      r := Failure(OutOfMemory);
      return;
    }
    var a := new Byte[count](_ => 0);
    return Success(a);
  }

  /** `stream.Write(Data)`, the body of every worker: fills the next slot, or throws and
      leaves the stream as it was when the slot does not fit. */
  method WritePayload(stream: MemoryStream, ghost n: nat) returns (out: Outcome)
    requires Holds(stream, n)
    modifies stream, stream.buffer
    ensures 10 * (n + 1) <= stream.buffer.Length ==> out == Pass && Holds(stream, n + 1)
    ensures stream.buffer.Length < 10 * (n + 1) ==> out == Fail(NotSupported) && Holds(stream, n)
  {
    out := stream.Write(Data);
    if out.Pass? {
      FillStep(stream.buffer.Length, n);
    }
  }

  /** `Baseline()`: allocate, then write `Data` `Workers` times in a loop, then hash. */
  method Baseline(workers: Int32) returns (r: Result<U32>, ghost buf: seq<Byte>)
    ensures r == BaselineResult(workers)
    ensures r.Success? ==>
      && 10 * Writes(workers) <= BufferSize(workers)
      && buf == Filled(BufferSize(workers), Writes(workers))
      && r.value == Djb2(buf)
  {
    buf := [];
    var size := BufferSize(workers);
    var alloc := AllocateZeroed(size);
    if alloc.Failure? {
      r := Failure(alloc.error);
      return;
    }
    assert AllocationFault(size) == None;
    var data := alloc.value;
    var stream := new MemoryStream(data);
    assert data[..] == Filled(size, 0);
    var i := 0;
    while i < workers
      invariant 0 <= i <= Writes(workers)
      invariant stream.buffer == data
      invariant Holds(stream, i)
    {
      var out := WritePayload(stream, i);
      if out.Fail? {
        assert size < 10 * Writes(workers);
        r := Failure(out.error);
        return;
      }
      i := i + 1;
    }
    assert i == Writes(workers) && data[..] == Filled(size, i);
    var h := Hash(data);
    r, buf := Success(h), data[..];
  }

  /** A queued `Action`: the closure `() => worker(i, stream)` created for worker `i`. */
  datatype Job = Worker(id: int)

  /** The worker ids `1..n`, in order. */
  function WorkerIds(n: nat): seq<int> {
    seq(n, k => k + 1)
  }

  /** The jobs for workers `1..n`, in enqueue order. */
  function Jobs(n: nat): seq<Job> {
    var ids := WorkerIds(n);
    seq(|ids|, k requires 0 <= k < |ids| => Worker(ids[k]))
  }

  /** The producer loop of `Queue`: `for (i = 1; i <= Workers; ++i) chan.Writer.TryWrite(...)`,
      on an open channel. */
  method EnqueueWorkers(chan: Channel<Job>, workers: Int32)
    requires chan.items == [] && !chan.completed
    modifies chan
    ensures !chan.completed
    ensures chan.items == Jobs(Writes(workers))
  {
    var i := 1;
    while i <= workers
      invariant 1 <= i <= Writes(workers) + 1
      invariant !chan.completed && chan.items == Jobs(i - 1)
    {
      var accepted := chan.TryWrite(Worker(i));
      assert chan.items == Jobs(i);
      i := i + 1;
    }
  }

  /** One step of the consumer loop: `Reader.TryRead` takes the oldest job and `task()` runs it,
      which is `stream.Write(Data)`. */
  method RunNext(chan: Channel<Job>, stream: MemoryStream, ghost n: nat) returns (job: Job, out: Outcome)
    requires chan.items != [] && Holds(stream, n)
    modifies chan, stream, stream.buffer
    ensures chan.completed == old(chan.completed)
    ensures job == old(chan.items)[0] && chan.items == old(chan.items)[1..]
    ensures 10 * (n + 1) <= stream.buffer.Length ==> out == Pass && Holds(stream, n + 1)
    ensures stream.buffer.Length < 10 * (n + 1) ==> out == Fail(NotSupported) && Holds(stream, n)
  {
    var next := chan.TryRead();
    job := next.value;
    out := WritePayload(stream, n);
  }

  /** The consumer loop of `Queue`: `await foreach (var task in chan.Reader.ReadAllAsync()) task();`
      on a completed channel. Items are read oldest first and each runs once; `done` lists
      those that finished. A job that throws ends the drain, and its exception escapes. */
  method Drain(chan: Channel<Job>, stream: MemoryStream, ghost n: nat) returns (done: seq<Job>, out: Outcome)
    requires chan.completed && Holds(stream, n)
    modifies chan, stream, stream.buffer
    ensures chan.completed
    ensures Holds(stream, n + |done|)
    ensures out == Pass ==> done == old(chan.items) && chan.items == []
    ensures out != Pass ==>
      out == Fail(NotSupported) && |done| < |old(chan.items)| &&
      done == old(chan.items)[..|done|] && chan.items == old(chan.items)[|done| + 1..] &&
      stream.buffer.Length < 10 * (n + |done| + 1)
    ensures 10 * (n + |old(chan.items)|) <= stream.buffer.Length ==> out == Pass
  {
    done, out := [], Pass;
    ghost var input := chan.items;
    ghost var i := 0;
    var more := chan.WaitToRead();
    while more
      invariant chan.completed
      invariant more <==> chan.items != []
      invariant out == Pass
      invariant i == |done| <= |input|
      invariant done == input[..i] && chan.items == input[i..]
      invariant Holds(stream, n + i)
      decreases |chan.items|
    {
      var job;
      job, out := RunNext(chan, stream, n + i);
      if out.Fail? {
        assert i < |input| && chan.items == input[i + 1..];
        return;
      }
      assert input[..i + 1] == done + [job];
      done, i := done + [job], i + 1;
      more := chan.WaitToRead();
    }
  }

  /** `Queue()`: allocate, enqueue one job per worker, complete the writer, drain, hash. */
  method Queue(workers: Int32) returns (r: Result<U32>, ghost buf: seq<Byte>)
    ensures r == BaselineResult(workers)
    ensures r.Success? ==>
      && 10 * Writes(workers) <= BufferSize(workers)
      && buf == Filled(BufferSize(workers), Writes(workers))
      && r.value == Djb2(buf)
  {
    buf := [];
    var size := BufferSize(workers);
    var alloc := AllocateZeroed(size);
    if alloc.Failure? {
      r := Failure(alloc.error);
      return;
    }
    assert AllocationFault(size) == None;
    var data := alloc.value;
    var stream := new MemoryStream(data);
    assert data[..] == Filled(size, 0);
    var chan := new Channel<Job>();
    EnqueueWorkers(chan, workers);
    var closed := chan.TryComplete();
    assert |chan.items| == Writes(workers);
    var done, out := Drain(chan, stream, 0);
    if out.Fail? {
      assert size < 10 * Writes(workers);
      r := Failure(out.error);
      return;
    }
    assert data[..] == Filled(size, Writes(workers));
    var h := Hash(data);
    r, buf := Success(h), data[..];
  }

  /** The local `worker` of `Lock()`: `lock (l) { stream.Write(Data); }`. The monitor is
      released whether or not the write throws. */
  method LockWorker(id: int, l: Monitor, stream: MemoryStream, ghost n: nat) returns (out: Outcome)
    requires !l.held && Holds(stream, n)
    modifies l, stream, stream.buffer
    ensures !l.held
    ensures 10 * (n + 1) <= stream.buffer.Length ==> out == Pass && Holds(stream, n + 1)
    ensures stream.buffer.Length < 10 * (n + 1) ==> out == Fail(NotSupported) && Holds(stream, n)
  {
    l.Enter();
    out := WritePayload(stream, n);
    l.Exit();
  }

  /** The local `worker` of `LockSemaphoreSlim()`: `semaphore.Wait()` and the write inside
      `try`, `semaphore.Release()` in `finally`. */
  method SemaphoreWorker(id: int, semaphore: SemaphoreSlim, stream: MemoryStream, ghost n: nat)
    returns (out: Outcome)
    requires semaphore.Valid() && semaphore.maxCount == 1 && semaphore.count == 1
    requires Holds(stream, n)
    modifies semaphore, stream, stream.buffer
    ensures semaphore.Valid() && semaphore.count == 1
    ensures 10 * (n + 1) <= stream.buffer.Length ==> out == Pass && Holds(stream, n + 1)
    ensures stream.buffer.Length < 10 * (n + 1) ==> out == Fail(NotSupported) && Holds(stream, n)
  {
    semaphore.Wait();
    out := WritePayload(stream, n);
    var previous := semaphore.Release();
  }

  /** `schedule` lists every worker id `1..workers` exactly once: one order in which the
      exclusion primitive can admit the workers. */
  predicate IsSchedule(schedule: seq<int>, workers: nat) {
    multiset(schedule) == multiset(WorkerIds(workers))
  }

  /** `Lock()`: one task per worker id `1..Workers`, each writing under `lock (l)`, then
      `Task.WhenAll` and the hash. The guarded writes run one at a time in the order
      `schedule`, which may be any order of the workers; `Task.WhenAll` waits for all of
      them and then rethrows a worker's exception, if any threw. */
  method Lock(workers: Int32, schedule: seq<int>) returns (r: Result<U32>, ghost buf: seq<Byte>)
    requires workers >= 0 ==> IsSchedule(schedule, workers)
    ensures r == ConcurrentResult(workers)
    ensures r.Success? ==>
      && 10 * Writes(workers) <= BufferSize(workers)
      && buf == Filled(BufferSize(workers), Writes(workers))
      && r.value == Djb2(buf)
  {
    buf := [];
    var size := BufferSize(workers);
    var alloc := AllocateZeroed(size);
    if alloc.Failure? {
      r := Failure(alloc.error);
      return;
    }
    if workers < 0 {
      r := Failure(ArgumentOutOfRange);
      return;
    }
    assert |schedule| == |multiset(schedule)| == workers;
    var data := alloc.value;
    var stream := new MemoryStream(data);
    assert data[..] == Filled(size, 0);
    var l := new Monitor();
    var fault := Pass;
    ghost var n: nat := 0;
    for j := 0 to |schedule|
      invariant !l.held && stream.buffer == data
      invariant Holds(stream, n)
      invariant fault == Pass ==> n == j
      invariant fault != Pass ==> fault == Fail(NotSupported) && n < j && size < 10 * (n + 1)
    {
      var out := LockWorker(schedule[j], l, stream, n);
      if out == Pass {
        n := n + 1;
      } else if fault == Pass {
        fault := out;
      }
    }
    if fault.Fail? {
      r := Failure(fault.error);
      return;
    }
    var h := Hash(data);
    r, buf := Success(h), data[..];
  }

  /** `LockSemaphoreSlim()`: as `Lock()`, with each write guarded by `SemaphoreSlim(1, 1)`. */
  method LockSemaphoreSlim(workers: Int32, schedule: seq<int>) returns (r: Result<U32>, ghost buf: seq<Byte>)
    requires workers >= 0 ==> IsSchedule(schedule, workers)
    ensures r == ConcurrentResult(workers)
    ensures r.Success? ==>
      && 10 * Writes(workers) <= BufferSize(workers)
      && buf == Filled(BufferSize(workers), Writes(workers))
      && r.value == Djb2(buf)
  {
    buf := [];
    var size := BufferSize(workers);
    var alloc := AllocateZeroed(size);
    if alloc.Failure? {
      r := Failure(alloc.error);
      return;
    }
    var semaphore := new SemaphoreSlim(1, 1);
    if workers < 0 {
      r := Failure(ArgumentOutOfRange);
      return;
    }
    assert |schedule| == |multiset(schedule)| == workers;
    var data := alloc.value;
    var stream := new MemoryStream(data);
    assert data[..] == Filled(size, 0);
    var fault := Pass;
    ghost var n: nat := 0;
    for j := 0 to |schedule|
      invariant semaphore.Valid() && semaphore.maxCount == 1 && semaphore.count == 1
      invariant stream.buffer == data
      invariant Holds(stream, n)
      invariant fault == Pass ==> n == j
      invariant fault != Pass ==> fault == Fail(NotSupported) && n < j && size < 10 * (n + 1)
    {
      var out := SemaphoreWorker(schedule[j], semaphore, stream, n);
      if out == Pass {
        n := n + 1;
      } else if fault == Pass {
        fault := out;
      }
    }
    if fault.Fail? {
      r := Failure(fault.error);
      return;
    }
    var h := Hash(data);
    r, buf := Success(h), data[..];
  }

  /** For a worker count whose buffer can be allocated, every strategy's buffer is exactly
      `Workers * 10` bytes of `Data` repeated `Workers` times, and its checksum is returned. */
  lemma BaselineFillsExactly(workers: Int32)
    requires 0 <= workers && 10 * workers <= ArrayMaxLength
    ensures BufferSize(workers) == 10 * workers
    ensures Filled(BufferSize(workers), workers) == Payloads(workers)
    ensures BaselineResult(workers) == Success(Djb2(Payloads(workers)))
  {
  }

  /** A non-negative worker count succeeds exactly when `Workers * 10` is a byte-array length
      the runtime can allocate; otherwise allocation or a write throws. */
  lemma BaselineSucceedsIff(workers: Int32)
    requires 0 <= workers
    ensures BaselineResult(workers).Success? <==> 10 * workers <= ArrayMaxLength
  {
    var size := BufferSize(workers);
    if 10 * workers > Int32Max && size >= 0 {
      assert (10 * workers - size) % 0x1_0000_0000 == 0;
      assert size < 10 * workers;
    }
  }

  /** With a non-negative worker count the result `Lock` and `LockSemaphoreSlim` are specified
      to return is `Baseline`'s. This only unfolds `ConcurrentResult`; the substance is in those
      methods' loop proofs, which establish their result and buffer for every admission order. */
  lemma ConcurrentMatchesBaseline(workers: Int32)
    requires 0 <= workers
    ensures ConcurrentResult(workers) == BaselineResult(workers)
  {
  }

  /** A negative count whose product wraps to a small positive size: `Baseline` and `Queue`
      hash a zeroed 6-byte buffer, while `Lock` and `LockSemaphoreSlim` throw from
      `Enumerable.Range`. */
  lemma NegativeWorkersWrap()
    ensures BufferSize(-429496729) == 6
    ensures BaselineResult(-429496729) == Success(Djb2(Zeros(6)))
    ensures ConcurrentResult(-429496729) == Failure(ArgumentOutOfRange)
  {
    assert Filled(6, 0) == Zeros(6);
  }

  /** A positive count can wrap too: the allocation then succeeds but is smaller than the
      payloads, so a write throws NotSupported. */
  lemma PositiveWorkersWrap()
    ensures BufferSize(429496730) == 4
    ensures BaselineResult(429496730) == Failure(NotSupported)
    ensures ConcurrentResult(429496730) == Failure(NotSupported)
  {
  }

  /** Just above the array-length cap every strategy throws OutOfMemory, although the size
      still fits in an int. */
  lemma ArrayCapOverflow()
    ensures BufferSize(214748360) == 2147483600
    ensures BaselineResult(214748360) == Failure(OutOfMemory)
    ensures ConcurrentResult(214748360) == Failure(OutOfMemory)
  {
  }
}
