/**
  `ThreadPool` of src/threadpool.cpp as a sequential state machine.

  Each step of the pool is one atomic transition on an immutable
  `PoolState`.  Only `submitTask`, a worker's take and the idle reclaim
  run under `threadPoolMutex_` in the source; the setters, `start`, a
  worker's return to idle, its final `delThread` and the destructor's
  store to `isRunning_` run without it and are taken as atomic too.
  The task vector is used as a
  stack: submission appends at the tail and workers take from the tail.
  The process-wide thread-id counter is threaded through as an `IdGenerator`.
*/
module Pool {
  import opened Wrappers
  import opened Threads
  import opened TaskResult

  /** `MAX_TASK_SIZE`: the queue capacity submission actually checks. */
  const MaxTaskSize: int := 1024
  /** `MAX_THREAD_SIZE`: default ceiling on the number of workers. */
  const MaxThreadSize: int := 200
  /** `THREAD_MAX_IDEL_TIME`: idle seconds after which a surplus cached-mode worker leaves. */
  const ThreadMaxIdleTime: int := 10

  datatype PoolMode = Fixed | Cached

  datatype PoolState = PoolState(
    tasks: seq<Task>,
    threads: map<int, Thread>,
    initThreadSize: int,
    threadNumThreshold: int,
    idleThreadNum: int,
    curThreadNum: int,
    taskNumThreshold: int,
    taskNum: int,
    mode: PoolMode,
    isRunning: bool)

  /** A transition that may create threads returns the advanced id counter too. */
  datatype Stepped = Stepped(pool: PoolState, gen: IdGenerator)

  /**
    The constructor: an empty, stopped, fixed-mode pool with the default
    thresholds.  `curThreadNum_` is left uninitialised by the source and is
    taken to be 0.
  */
  function NewPool(): (p: PoolState)
    ensures p.tasks == [] && p.threads == map[] && !p.isRunning && p.mode == Fixed
    ensures p.taskNum == 0 && p.idleThreadNum == 0 && p.curThreadNum == 0 && p.initThreadSize == 0
    ensures p.taskNumThreshold == MaxTaskSize && p.threadNumThreshold == MaxThreadSize
  {
    PoolState([], map[], 0, MaxThreadSize, 0, 0, MaxTaskSize, 0, Fixed, false)
  }

  // ---------------------------------------------------------------------------
  // Configuration: effective only before `start`.

  /** `setThreadPoolMode`: ignored once running; changes nothing but the mode. */
  function SetMode(p: PoolState, m: PoolMode): (r: PoolState)
    ensures r.mode == (if p.isRunning then p.mode else m)
    ensures r.(mode := p.mode) == p
  {
    if p.isRunning then p else p.(mode := m)
  }

  /** `setTaskThresHold`: ignored once running; changes nothing but that threshold. */
  function SetTaskThreshold(p: PoolState, size: int): (r: PoolState)
    ensures r.taskNumThreshold == (if p.isRunning then p.taskNumThreshold else size)
    ensures r.(taskNumThreshold := p.taskNumThreshold) == p
  {
    if p.isRunning then p else p.(taskNumThreshold := size)
  }

  /** `setThreadThresHold`: takes effect only on a stopped, cached-mode pool. */
  function SetThreadThreshold(p: PoolState, size: int): (r: PoolState)
    ensures r.threadNumThreshold ==
      (if !p.isRunning && p.mode == Cached then size else p.threadNumThreshold)
    ensures r.(threadNumThreshold := p.threadNumThreshold) == p
  {
    if p.isRunning then p
    else if p.mode == Cached then p.(threadNumThreshold := size)
    else p
  }

  /** Once the pool runs, every setter leaves it exactly as it was. */
  lemma SettersInertWhileRunning(p: PoolState, m: PoolMode, taskSize: int, threadSize: int)
    requires p.isRunning
    ensures SetMode(p, m) == p
    ensures SetTaskThreshold(p, taskSize) == p
    ensures SetThreadThreshold(p, threadSize) == p
  {
  }

  // ---------------------------------------------------------------------------
  // Starting.

  /** `unordered_map::emplace`: inserts only when the key is absent. */
  function Emplace(m: map<int, Thread>, k: int, t: Thread): map<int, Thread>
  {
    if k in m then m else m[k := t]
  }

  datatype Spawned = Spawned(threads: map<int, Thread>, gen: IdGenerator)

  /** The first loop of `start`: create `k` threads and emplace each under its id. */
  function SpawnWorkers(threads: map<int, Thread>, g: IdGenerator, k: nat): (r: Spawned)
    requires IdsIssued(threads, g)
    ensures IdsIssued(r.threads, r.gen)
    ensures r.gen.next == g.next + k
    ensures forall i :: i in r.threads <==> i in threads || g.next <= i < g.next + k
    ensures forall i :: i in threads ==> r.threads[i] == threads[i]
    decreases k
  {
    if k == 0 then Spawned(threads, g)
    else
      var c := NewThread(g);
      SpawnWorkers(Emplace(threads, c.thread.id, c.thread), c.gen, k - 1)
  }

  /**
    `start(n)`.  Its second loop looks workers up by loop index 0..n-1, not by
    the ids they were given, so it is only meaningful when the id counter is
    still at 0 (no thread was ever created); that is required here.
  */
  function Start(p: PoolState, n: nat, g: IdGenerator): (r: Stepped)
    requires g.next == 0 && IdsIssued(p.threads, g)
    ensures r.pool.isRunning
    ensures r.pool.initThreadSize == n && r.pool.curThreadNum == n
    ensures r.pool.idleThreadNum == p.idleThreadNum + n
    ensures r.gen.next == n && IdsIssued(r.pool.threads, r.gen)
    ensures forall i :: i in r.pool.threads <==> 0 <= i < n
    ensures forall i :: 0 <= i < n ==> r.pool.threads[i].id == i
    ensures r.pool.tasks == p.tasks && r.pool.taskNum == p.taskNum && r.pool.mode == p.mode
    ensures r.pool.taskNumThreshold == p.taskNumThreshold
    ensures r.pool.threadNumThreshold == p.threadNumThreshold
  {
    var s := SpawnWorkers(p.threads, g, n);
    Stepped(p.(initThreadSize := n, curThreadNum := n, isRunning := true,
               threads := s.threads, idleThreadNum := p.idleThreadNum + n), s.gen)
  }

  /** On a fresh pool with a fresh counter, `start(n)` sets up exactly `n` idle workers 0..n-1. */
  lemma StartFresh(n: nat)
    ensures
      var r := Start(NewPool(), n, IdGenerator(0));
      r.pool.initThreadSize == n && r.pool.curThreadNum == n && r.pool.idleThreadNum == n &&
      r.pool.isRunning && r.gen.next == n &&
      (forall i :: i in r.pool.threads <==> 0 <= i < n)
  {
  }

  // ---------------------------------------------------------------------------
  // Submission.

  /** The cached-mode growth rule, read on the state after the task was queued. */
  predicate ShouldSpawn(p: PoolState)
  {
    p.mode == Cached && p.taskNum > p.idleThreadNum && p.curThreadNum < p.threadNumThreshold
  }

  /** What `submitTask` leaves behind: the pool, the counter, the bound task and the result. */
  datatype Submitted = Submitted(pool: PoolState, gen: IdGenerator, task: Task, result: ResultHandle)

  /** The queue has room: the predicate of `submitTask`'s wait. */
  predicate HasRoom(p: PoolState)
  {
    |p.tasks| < MaxTaskSize
  }

  /**
    `submitTask(sp)`, bound to the result with handle id `h`.  The wait for room
    compares the queue with the constant `MAX_TASK_SIZE`, not with the settable
    task threshold; a full queue yields an invalid result and leaves the pool
    untouched.  Worker takes during the one-second wait are separate transitions,
    so the decision is taken on the state the submitter sees.
  */
  function Submit(p: PoolState, g: IdGenerator, t: Task, h: HandleId): (r: Submitted)
    ensures r.task.result == Some(h) && r.task.output == t.output
    ensures r.result.valid <==> HasRoom(p)
    ensures r.result.slot.Empty? && r.result.sem.count == 0
    ensures !r.result.valid ==> r.pool == p && r.gen == g
    ensures r.result.valid ==>
      r.pool.tasks == p.tasks + [r.task] && r.pool.taskNum == p.taskNum + 1 &&
      r.pool.isRunning == p.isRunning && r.pool.mode == p.mode &&
      r.pool.initThreadSize == p.initThreadSize &&
      r.pool.taskNumThreshold == p.taskNumThreshold &&
      r.pool.threadNumThreshold == p.threadNumThreshold
    ensures
      var grows := r.result.valid && p.mode == Cached && p.taskNum + 1 > p.idleThreadNum &&
                   p.curThreadNum < p.threadNumThreshold;
      (grows ==>
         r.pool.curThreadNum == p.curThreadNum + 1 &&
         r.pool.idleThreadNum == p.idleThreadNum + 1 &&
         r.gen.next == g.next + 1 &&
         r.pool.threads == Emplace(p.threads, g.next, Thread(g.next))) &&
      (!grows ==>
         r.pool.curThreadNum == p.curThreadNum &&
         r.pool.idleThreadNum == p.idleThreadNum &&
         r.gen == g && r.pool.threads == p.threads)
    ensures p.mode == Fixed ==> r.pool.threads == p.threads && r.gen == g
  {
    if !HasRoom(p) then
      var b := NewResult(t, h, false);
      Submitted(p, g, b.task, b.result)
    else
      var b := NewResult(t, h, true);
      var queued := p.(tasks := p.tasks + [b.task], taskNum := p.taskNum + 1);
      if ShouldSpawn(queued) then
        var c := NewThread(g);
        var grown := queued.(threads := Emplace(queued.threads, c.thread.id, c.thread),
                             curThreadNum := queued.curThreadNum + 1,
                             idleThreadNum := queued.idleThreadNum + 1);
        Submitted(grown, c.gen, b.task, b.result)
      else
        Submitted(queued, g, b.task, b.result)
  }

  /** When the ids are consistent, a spawned worker gets a key that was not in use. */
  lemma SubmitSpawnsFreshWorker(p: PoolState, g: IdGenerator, t: Task, h: HandleId)
    requires IdsIssued(p.threads, g)
    ensures var r := Submit(p, g, t, h);
      IdsIssued(r.pool.threads, r.gen) &&
      (r.pool.threads != p.threads ==>
         g.next !in p.threads && r.pool.threads == p.threads[g.next := Thread(g.next)])
  {
  }

  // ---------------------------------------------------------------------------
  // Worker steps (the locked parts of `threadFunc`).

  /** `delThread(id)`: one thread fewer, one idle thread fewer, and its entry erased. */
  function DelThread(p: PoolState, id: int): (r: PoolState)
    ensures r.curThreadNum == p.curThreadNum - 1 && r.idleThreadNum == p.idleThreadNum - 1
    ensures r.threads.Keys == p.threads.Keys - {id}
    ensures forall k :: k in r.threads ==> r.threads[k] == p.threads[k]
    ensures r.(threads := p.threads, curThreadNum := p.curThreadNum,
               idleThreadNum := p.idleThreadNum) == p
  {
    p.(curThreadNum := p.curThreadNum - 1, idleThreadNum := p.idleThreadNum - 1,
       threads := map k | k in p.threads && k != id :: p.threads[k])
  }

  /** What a worker does once it holds the lock and its wait predicate allows it on. */
  datatype WorkerOutcome = Waiting | Took(task: Task, pool: PoolState) | Exited(pool: PoolState)

  /**
    One pass of a worker through its locked wait-and-take region: it keeps
    waiting while the pool runs with an empty queue; once running is false it
    takes nothing, leaves the region and removes itself (`delThread`, which the
    source then runs without the mutex); otherwise it pops the most recently
    queued task.
  */
  function WorkerStep(p: PoolState, id: int): (r: WorkerOutcome)
    ensures r.Waiting? <==> p.isRunning && |p.tasks| == 0
    ensures r.Exited? <==> !p.isRunning
    ensures r.Exited? ==> r.pool == DelThread(p, id)
    ensures r.Took? ==>
      |p.tasks| > 0 && r.task == p.tasks[|p.tasks| - 1] &&
      r.pool.tasks + [r.task] == p.tasks &&
      r.pool.taskNum == p.taskNum - 1 && r.pool.idleThreadNum == p.idleThreadNum - 1 &&
      r.pool.(tasks := p.tasks, taskNum := p.taskNum, idleThreadNum := p.idleThreadNum) == p
  {
    if !p.isRunning then Exited(DelThread(p, id))
    else if |p.tasks| == 0 then Waiting
    else
      var last := p.tasks[|p.tasks| - 1];
      Took(last, p.(tasks := p.tasks[..|p.tasks| - 1],
                    idleThreadNum := p.idleThreadNum - 1,
                    taskNum := p.taskNum - 1))
  }

  /** After the task ran (outside the lock) the worker counts itself idle again. */
  function Finish(p: PoolState): (r: PoolState)
    ensures r.idleThreadNum == p.idleThreadNum + 1
    ensures r.(idleThreadNum := p.idleThreadNum) == p
  {
    p.(idleThreadNum := p.idleThreadNum + 1)
  }

  /** The reclamation rule of a cached-mode worker whose one-second wait timed out. */
  predicate Reclaims(p: PoolState, elapsedSeconds: int)
  {
    p.mode == Cached && elapsedSeconds >= ThreadMaxIdleTime && p.curThreadNum > p.initThreadSize
  }

  /**
    A cached-mode worker's wait timed out after `elapsedSeconds` idle seconds.
    It leaves only when idle long enough and the pool is above its initial
    size; otherwise nothing changes.  Fixed-mode workers never time out.
  */
  function IdleTimeout(p: PoolState, id: int, elapsedSeconds: int): (r: PoolState)
    ensures r != p ==> Reclaims(p, elapsedSeconds)
    ensures Reclaims(p, elapsedSeconds) ==> r == DelThread(p, id)
    ensures r.initThreadSize == p.initThreadSize
    ensures p.curThreadNum >= p.initThreadSize ==> r.curThreadNum >= r.initThreadSize
  {
    if Reclaims(p, elapsedSeconds) then DelThread(p, id) else p
  }

  /** In fixed mode neither submission nor idle time changes the worker map. */
  lemma FixedModeStable(p: PoolState, g: IdGenerator, t: Task, h: HandleId, id: int, elapsed: int)
    requires p.mode == Fixed
    ensures Submit(p, g, t, h).pool.threads == p.threads
    ensures IdleTimeout(p, id, elapsed) == p
  {
  }

  /** The destructor's state effect: running becomes false (workers then leave on their own). */
  function Shutdown(p: PoolState): (r: PoolState)
    ensures !r.isRunning
    ensures r.(isRunning := p.isRunning) == p
  {
    p.(isRunning := false)
  }

  // ---------------------------------------------------------------------------
  // Service order.

  function Reverse<T>(s: seq<T>): (r: seq<T>)
    ensures |r| == |s|
    ensures forall i :: 0 <= i < |s| ==> r[i] == s[|s| - 1 - i]
  {
    if |s| == 0 then [] else [s[|s| - 1]] + Reverse(s[..|s| - 1])
  }

  /** The tasks `k` consecutive worker takes obtain, in the order they obtain them. */
  function TakeMany(p: PoolState, id: int, k: nat): seq<Task>
    decreases k
  {
    if k == 0 then []
    else
      match WorkerStep(p, id)
      case Took(t, p') => [t] + TakeMany(p', id, k - 1)
      case _ => []
  }

  /** One take on a running pool with queued tasks: the last task, and the queue without it. */
  lemma TakeLast(p: PoolState, id: int)
    requires p.isRunning && |p.tasks| > 0
    ensures WorkerStep(p, id).Took?
    ensures WorkerStep(p, id).task == p.tasks[|p.tasks| - 1]
    ensures WorkerStep(p, id).pool.tasks == p.tasks[..|p.tasks| - 1]
    ensures WorkerStep(p, id).pool.isRunning
  {
  }

  /** The first of `k` takes on a running pool with queued tasks obtains the last task. */
  lemma TakeManyUnfold(p: PoolState, id: int, k: nat)
    requires p.isRunning && 0 < k <= |p.tasks|
    ensures var w := WorkerStep(p, id);
      w.Took? && w.pool.isRunning && w.pool.tasks == p.tasks[..|p.tasks| - 1] &&
      TakeMany(p, id, k) == [p.tasks[|p.tasks| - 1]] + TakeMany(w.pool, id, k - 1)
  {
    TakeLast(p, id);
  }

  /** Consecutive takes serve the queue from the newest task backwards (LIFO). */
  lemma {:induction false} TakesAreLifo(p: PoolState, id: int, k: nat)
    requires p.isRunning && k <= |p.tasks|
    ensures TakeMany(p, id, k) == Reverse(p.tasks[|p.tasks| - k..])
    decreases k
  {
    if k > 0 {
      var n := |p.tasks|;
      TakeManyUnfold(p, id, k);
      var rest := WorkerStep(p, id).pool;
      var tail := p.tasks[n - k..];
      TakesAreLifo(rest, id, k - 1);
      assert rest.tasks[n - 1 - (k - 1)..] == tail[..k - 1];
      assert p.tasks[n - 1] == tail[k - 1];
    }
  }

  /** Submits `ts` in order, binding the i-th task to handle `hs[i]`. */
  function SubmitAll(p: PoolState, g: IdGenerator, ts: seq<Task>, hs: seq<HandleId>): Stepped
    requires |ts| == |hs|
    decreases |ts|
  {
    if |ts| == 0 then Stepped(p, g)
    else
      var r := Submit(p, g, ts[0], hs[0]);
      SubmitAll(r.pool, r.gen, ts[1..], hs[1..])
  }

  /** Binds each task to its handle, as `Result`'s constructor does. */
  function BindAll(ts: seq<Task>, hs: seq<HandleId>): (r: seq<Task>)
    requires |ts| == |hs|
    ensures |r| == |ts|
    ensures forall i :: 0 <= i < |r| ==> r[i] == ts[i].(result := Some(hs[i]))
  {
    if |ts| == 0 then [] else [ts[0].(result := Some(hs[0]))] + BindAll(ts[1..], hs[1..])
  }

  /** An accepted submission appends exactly the bound task. */
  lemma SubmitAppends(p: PoolState, g: IdGenerator, t: Task, h: HandleId)
    requires HasRoom(p)
    ensures var r := Submit(p, g, t, h);
      r.pool.tasks == p.tasks + [t.(result := Some(h))] &&
      r.pool.taskNum == p.taskNum + 1 && r.pool.isRunning == p.isRunning
  {
  }

  /** One step of `SubmitAll` and `BindAll` on a non-empty batch. */
  lemma SubmitAllUnfold(p: PoolState, g: IdGenerator, ts: seq<Task>, hs: seq<HandleId>)
    requires |ts| == |hs| && |ts| > 0
    ensures var r := Submit(p, g, ts[0], hs[0]);
      SubmitAll(p, g, ts, hs) == SubmitAll(r.pool, r.gen, ts[1..], hs[1..]) &&
      BindAll(ts, hs) == [ts[0].(result := Some(hs[0]))] + BindAll(ts[1..], hs[1..])
  {
  }

  lemma AppendAssoc<T>(a: seq<T>, b: T, c: seq<T>)
    ensures (a + [b]) + c == a + ([b] + c)
  {
  }

  /** Submissions that fit in the queue are all accepted and appended in order. */
  lemma {:induction false} SubmitAllAppends(p: PoolState, g: IdGenerator, ts: seq<Task>, hs: seq<HandleId>)
    requires |ts| == |hs| && |p.tasks| + |ts| <= MaxTaskSize
    ensures var r := SubmitAll(p, g, ts, hs);
      r.pool.tasks == p.tasks + BindAll(ts, hs) &&
      r.pool.taskNum == p.taskNum + |ts| && r.pool.isRunning == p.isRunning
    decreases |ts|
  {
    if |ts| > 0 {
      var r := Submit(p, g, ts[0], hs[0]);
      SubmitAppends(p, g, ts[0], hs[0]);
      SubmitAllUnfold(p, g, ts, hs);
      SubmitAllAppends(r.pool, r.gen, ts[1..], hs[1..]);
      AppendAssoc(p.tasks, ts[0].(result := Some(hs[0])), BindAll(ts[1..], hs[1..]));
    }
  }

  /**
    LIFO service: on a running pool, a burst of submissions that fits is then
    taken by the workers in exactly the reverse order of submission.
  */
  lemma {:induction false} BurstServedInReverse(p: PoolState, g: IdGenerator, ts: seq<Task>, hs: seq<HandleId>, id: int)
    requires p.isRunning && |ts| == |hs| && |p.tasks| + |ts| <= MaxTaskSize
    ensures TakeMany(SubmitAll(p, g, ts, hs).pool, id, |ts|) == Reverse(BindAll(ts, hs))
  {
    SubmitAllAppends(p, g, ts, hs);
    var q := SubmitAll(p, g, ts, hs).pool;
    TakesAreLifo(q, id, |ts|);
    assert q.tasks[|q.tasks| - |ts|..] == BindAll(ts, hs);
  }

  /**
    End to end: a task submitted to a running pool with room, taken at once by
    a worker and executed, makes `get` on its result return the task's output.
  */
  lemma SubmitTakeExecGet(p: PoolState, g: IdGenerator, t: Task, h: HandleId, id: int,
                          arena: map<HandleId, ResultHandle>)
    requires p.isRunning && HasRoom(p)
    ensures
      var s := Submit(p, g, t, h);
      var w := WorkerStep(s.pool, id);
      w.Took? && w.task == s.task && w.pool.tasks == p.tasks &&
      var arena' := Exec(w.task, arena[h := s.result]);
      Get(arena'[h]) == Returned(t.output, ResultHandle(AnyBox.Empty, s.result.sem, true))
  {
  }

  /** A submission to a full queue gets a result whose `get` returns at once with "". */
  lemma RejectedGetReturnsAtOnce(p: PoolState, g: IdGenerator, t: Task, h: HandleId)
    requires !HasRoom(p)
    ensures var s := Submit(p, g, t, h);
      s.pool == p && Get(s.result) == Returned(EmptyStringAny, s.result)
  {
  }
}
