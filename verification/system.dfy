/**
  The pool together with what each live worker is doing.  Each worker is
  either waiting for work or busy with the task it took; with that view the
  pool's counters can be related to its worker map and task queue, and the
  relation is shown to survive every transition of src/threadpool.cpp.
*/
module PoolSystem {
  import opened Threads
  import opened TaskResult
  import opened Pool

  /** Where a live worker is in `threadFunc`. */
  datatype Phase = Idle | Busy(task: Task)

  datatype System = System(pool: PoolState, gen: IdGenerator, phase: map<int, Phase>)

  /** The workers that are not executing a task. */
  function IdleSet(phase: map<int, Phase>): set<int>
  {
    set k | k in phase && phase[k].Idle?
  }

  /**
    The bookkeeping invariant: the task counter is the queue length, the
    thread counter is the number of workers, the idle counter is the number of
    waiting workers, worker ids were issued by the counter, and a running pool
    never has fewer workers than it started with (exactly that many in fixed
    mode).
  */
  predicate Inv(s: System)
  {
    && s.pool.taskNum == |s.pool.tasks|
    && s.pool.initThreadSize >= 0
    && s.phase.Keys == s.pool.threads.Keys
    && IdsIssued(s.pool.threads, s.gen)
    && s.pool.curThreadNum == |s.pool.threads|
    && s.pool.idleThreadNum == |IdleSet(s.phase)|
    && (s.pool.isRunning ==> s.pool.curThreadNum >= s.pool.initThreadSize)
    && (s.pool.isRunning && s.pool.mode == Fixed ==> s.pool.curThreadNum == s.pool.initThreadSize)
  }

  // ---------------------------------------------------------------------------
  // Cardinality facts.

  lemma NoElementMeansEmpty(S: set<int>)
    ensures (forall x :: x !in S) ==> S == {}
  {
    if forall x :: x !in S {
      assert S == {};
    }
  }

  lemma NonEmptyHasElement(S: set<int>)
    requires S != {}
    ensures exists x :: x in S
  {
    NoElementMeansEmpty(S);
  }

  lemma CardRemove(S: set<int>, x: int)
    requires x in S
    ensures |S - {x}| == |S| - 1
  {
  }

  lemma {:induction false} CardRange(S: set<int>, n: nat)
    requires forall i :: i in S <==> 0 <= i < n
    ensures |S| == n
    decreases n
  {
    if n > 0 {
      CardRemove(S, n - 1);
      CardRange(S - {n - 1}, n - 1);
    } else if S != {} {
      NonEmptyHasElement(S);
    }
  }

  lemma {:induction false} CardSubset(A: set<int>, B: set<int>)
    requires A <= B
    ensures |A| <= |B|
    decreases |B|
  {
    if A != {} {
      NonEmptyHasElement(A);
      var x :| x in A;
      CardRemove(A, x);
      CardRemove(B, x);
      CardSubset(A - {x}, B - {x});
    }
  }

  /** The counters of a consistent pool are in range: 0 <= idle <= current. */
  lemma {:induction false} CountersInRange(s: System)
    requires Inv(s)
    ensures 0 <= s.pool.idleThreadNum <= s.pool.curThreadNum
  {
    assert IdleSet(s.phase) <= s.pool.threads.Keys;
    CardSubset(IdleSet(s.phase), s.pool.threads.Keys);
  }

  // ---------------------------------------------------------------------------
  // Transitions.

  /** A freshly constructed pool: no workers. */
  function Init(g: IdGenerator): (s: System)
    ensures s.pool == NewPool() && s.gen == g && s.phase == map[]
    ensures Inv(s)
  {
    assert IdleSet(map[]) == {};
    System(NewPool(), g, map[])
  }

  /** `start(n)`: every created worker begins waiting. */
  function SysStart(s: System, n: nat): (r: System)
    requires s.gen.next == 0 && IdsIssued(s.pool.threads, s.gen)
    ensures r.pool == Start(s.pool, n, s.gen).pool && r.gen == Start(s.pool, n, s.gen).gen
    ensures forall k :: k in r.phase <==> 0 <= k < n
    ensures forall k :: k in r.phase ==> r.phase[k] == Idle
  {
    var st := Start(s.pool, n, s.gen);
    System(st.pool, st.gen, map k | k in st.pool.threads :: Idle)
  }

  datatype SysSubmitted = SysSubmitted(sys: System, result: ResultHandle)

  /** `submitTask`: a worker spawned by the cached-mode rule begins waiting. */
  function SysSubmit(s: System, t: Task, h: HandleId): (r: SysSubmitted)
    ensures r.result == Submit(s.pool, s.gen, t, h).result
    ensures r.sys.pool == Submit(s.pool, s.gen, t, h).pool
    ensures r.sys.gen == Submit(s.pool, s.gen, t, h).gen
    ensures r.sys.gen != s.gen ==> r.sys.phase == s.phase[s.gen.next := Idle]
    ensures r.sys.gen == s.gen ==> r.sys.phase == s.phase
  {
    var sub := Submit(s.pool, s.gen, t, h);
    var phase := if sub.gen != s.gen then s.phase[s.gen.next := Idle] else s.phase;
    SysSubmitted(System(sub.pool, sub.gen, phase), sub.result)
  }

  /** A waiting worker `id` gets the lock: it keeps waiting, takes the newest task, or leaves. */
  function SysWorkerStep(s: System, id: int): (r: System)
    requires id in s.phase && s.phase[id] == Idle
    ensures r.gen == s.gen
    ensures !WorkerStep(s.pool, id).Waiting? ==> r.pool == WorkerStep(s.pool, id).pool
    ensures !s.pool.isRunning ==> r.phase == s.phase - {id}
    ensures s.pool.isRunning && |s.pool.tasks| > 0 ==>
      r.phase == s.phase[id := Busy(s.pool.tasks[|s.pool.tasks| - 1])]
    ensures s.pool.isRunning && |s.pool.tasks| == 0 ==> r == s
  {
    match WorkerStep(s.pool, id)
    case Waiting => s
    case Took(t, p) => System(p, s.gen, s.phase[id := Busy(t)])
    case Exited(p) => System(p, s.gen, s.phase - {id})
  }

  /** Busy worker `id` has run its task and counts itself idle again. */
  function SysFinish(s: System, id: int): (r: System)
    requires id in s.phase && s.phase[id].Busy?
    ensures r.pool == Finish(s.pool) && r.gen == s.gen
    ensures r.phase == s.phase[id := Idle]
  {
    System(Finish(s.pool), s.gen, s.phase[id := Idle])
  }

  /** Waiting worker `id` timed out after `elapsed` idle seconds. */
  function SysIdleTimeout(s: System, id: int, elapsed: int): (r: System)
    requires id in s.phase && s.phase[id] == Idle
    ensures r.pool == IdleTimeout(s.pool, id, elapsed) && r.gen == s.gen
    ensures Reclaims(s.pool, elapsed) ==> r.phase == s.phase - {id}
    ensures !Reclaims(s.pool, elapsed) ==> r == s
  {
    if Reclaims(s.pool, elapsed) then System(IdleTimeout(s.pool, id, elapsed), s.gen, s.phase - {id})
    else s
  }

  /** Pool destruction begins: running becomes false. */
  function SysShutdown(s: System): (r: System)
    ensures r.pool == Shutdown(s.pool) && r.gen == s.gen && r.phase == s.phase
  {
    System(Shutdown(s.pool), s.gen, s.phase)
  }

  // ---------------------------------------------------------------------------
  // The invariant survives every transition.

  lemma ConfigurePreservesInv(s: System, m: PoolMode, taskSize: int, threadSize: int)
    requires Inv(s)
    ensures Inv(s.(pool := SetMode(s.pool, m)))
    ensures Inv(s.(pool := SetTaskThreshold(s.pool, taskSize)))
    ensures Inv(s.(pool := SetThreadThreshold(s.pool, threadSize)))
  {
  }

  lemma {:induction false} StartPreservesInv(s: System, n: nat)
    requires Inv(s) && s.gen.next == 0
    ensures Inv(SysStart(s, n))
  {
    var r := SysStart(s, n);
    assert IdleSet(r.phase) == r.phase.Keys;
    CardRange(r.phase.Keys, n);
    CardRange(r.pool.threads.Keys, n);
  }

  /** Marking a waiting worker busy removes exactly it from the waiting set. */
  lemma IdleSetMarkBusy(phase: map<int, Phase>, id: int, t: Task)
    requires id in phase && phase[id] == Idle
    ensures IdleSet(phase[id := Busy(t)]) == IdleSet(phase) - {id}
    ensures |IdleSet(phase[id := Busy(t)])| == |IdleSet(phase)| - 1
  {
    CardRemove(IdleSet(phase), id);
  }

  /** Dropping a waiting worker removes exactly it from the waiting set. */
  lemma IdleSetDrop(phase: map<int, Phase>, id: int)
    requires id in phase && phase[id] == Idle
    ensures IdleSet(phase - {id}) == IdleSet(phase) - {id}
    ensures |IdleSet(phase - {id})| == |IdleSet(phase)| - 1
  {
    CardRemove(IdleSet(phase), id);
  }

  /** Making a worker that is not waiting into a waiting one adds exactly it. */
  lemma IdleSetMarkIdle(phase: map<int, Phase>, id: int)
    requires id !in phase || phase[id].Busy?
    ensures IdleSet(phase[id := Idle]) == IdleSet(phase) + {id}
    ensures |IdleSet(phase[id := Idle])| == |IdleSet(phase)| + 1
  {
  }

  /** A map with one key fewer has one entry fewer. */
  lemma MapCardRemove(m: map<int, Thread>, m': map<int, Thread>, id: int)
    requires id in m && m'.Keys == m.Keys - {id}
    ensures |m'| == |m| - 1
  {
    CardRemove(m.Keys, id);
  }

  lemma {:induction false} SubmitPreservesInv(s: System, t: Task, h: HandleId)
    requires Inv(s)
    ensures Inv(SysSubmit(s, t, h).sys)
  {
    var sub := Submit(s.pool, s.gen, t, h);
    var r := SysSubmit(s, t, h).sys;
    assert r.pool == sub.pool && r.gen == sub.gen;
    if sub.gen != s.gen {
      var x := s.gen.next;
      assert x !in s.pool.threads;
      assert r.pool.threads == s.pool.threads[x := Thread(x)];
      IdleSetMarkIdle(s.phase, x);
    }
  }

  /**
    A waiting worker that leaves through `delThread` keeps the invariant,
    provided a running pool is in cached mode and above its initial size.
  */
  lemma {:induction false} DelThreadPreservesInv(s: System, id: int)
    requires Inv(s) && id in s.phase && s.phase[id] == Idle
    requires s.pool.isRunning ==> s.pool.mode == Cached && s.pool.curThreadNum > s.pool.initThreadSize
    ensures Inv(System(DelThread(s.pool, id), s.gen, s.phase - {id}))
  {
    var p := DelThread(s.pool, id);
    IdleSetDrop(s.phase, id);
    MapCardRemove(s.pool.threads, p.threads, id);
  }

  lemma {:induction false} WorkerStepPreservesInv(s: System, id: int)
    requires Inv(s) && id in s.phase && s.phase[id] == Idle
    ensures Inv(SysWorkerStep(s, id))
  {
    if !s.pool.isRunning {
      DelThreadPreservesInv(s, id);
      assert SysWorkerStep(s, id) == System(DelThread(s.pool, id), s.gen, s.phase - {id});
    } else if |s.pool.tasks| > 0 {
      var w := WorkerStep(s.pool, id);
      IdleSetMarkBusy(s.phase, id, w.task);
    }
  }

  lemma {:induction false} FinishPreservesInv(s: System, id: int)
    requires Inv(s) && id in s.phase && s.phase[id].Busy?
    ensures Inv(SysFinish(s, id))
  {
    IdleSetMarkIdle(s.phase, id);
  }

  lemma {:induction false} IdleTimeoutPreservesInv(s: System, id: int, elapsed: int)
    requires Inv(s) && id in s.phase && s.phase[id] == Idle
    ensures Inv(SysIdleTimeout(s, id, elapsed))
  {
    if Reclaims(s.pool, elapsed) {
      DelThreadPreservesInv(s, id);
    }
  }

  lemma ShutdownPreservesInv(s: System)
    requires Inv(s)
    ensures Inv(SysShutdown(s))
  {
  }

  // ---------------------------------------------------------------------------
  // Cached-mode shrinking.

  /**
    After a burst has drained, waiting workers of a running cached-mode pool
    time out one after another once `elapsed` reaches the idle limit; the pool
    then shrinks back to exactly its initial size and no further.
  */
  method ReclaimSurplus(s: System, elapsed: int) returns (t: System)
    requires Inv(s) && s.pool.isRunning && s.pool.mode == Cached
    requires elapsed >= ThreadMaxIdleTime
    requires forall k :: k in s.phase ==> s.phase[k] == Idle
    ensures Inv(t) && t.pool.isRunning
    ensures t.pool.curThreadNum == t.pool.initThreadSize == s.pool.initThreadSize
    ensures |t.pool.threads| == s.pool.initThreadSize
    ensures t.pool.threads.Keys <= s.pool.threads.Keys
    ensures t.pool.tasks == s.pool.tasks
  {
    t := s;
    while t.pool.curThreadNum > t.pool.initThreadSize
      invariant Inv(t) && t.pool.isRunning && t.pool.mode == Cached
      invariant t.pool.initThreadSize == s.pool.initThreadSize
      invariant forall k :: k in t.phase ==> t.phase[k] == Idle
      invariant t.pool.threads.Keys <= s.pool.threads.Keys
      invariant t.pool.tasks == s.pool.tasks
      decreases t.pool.curThreadNum
    {
      assert t.phase.Keys != {};
      NonEmptyHasElement(t.phase.Keys);
      var id :| id in t.phase;
      IdleTimeoutPreservesInv(t, id, elapsed);
      t := SysIdleTimeout(t, id, elapsed);
    }
  }

  // ---------------------------------------------------------------------------
  // Teardown.

  /**
    The destructor's protocol: running becomes false, every busy worker
    finishes its task, and every worker then removes itself, until the worker
    map is empty.  Tasks still queued are never run.
  */
  method Teardown(s: System) returns (t: System)
    requires Inv(s)
    ensures Inv(t) && !t.pool.isRunning
    ensures t.pool.threads == map[] && t.phase == map[]
    ensures t.pool.curThreadNum == 0 && t.pool.idleThreadNum == 0
    ensures t.pool.tasks == s.pool.tasks
  {
    ShutdownPreservesInv(s);
    t := SysShutdown(s);
    while t.phase.Keys != {}
      invariant Inv(t) && !t.pool.isRunning
      invariant t.pool.tasks == s.pool.tasks
      decreases |t.phase|
    {
      NonEmptyHasElement(t.phase.Keys);
      var id :| id in t.phase;
      if t.phase[id].Busy? {
        FinishPreservesInv(t, id);
        t := SysFinish(t, id);
      }
      WorkerStepPreservesInv(t, id);
      CardRemove(t.phase.Keys, id);
      t := SysWorkerStep(t, id);
    }
    assert t.pool.threads.Keys == {};
    assert t.phase == map[];
    assert t.pool.threads == map[];
    assert IdleSet(t.phase) == {};
  }
}
