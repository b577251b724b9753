# Thread pool bookkeeping, modelled in Dafny

This project models the core of a small C++ thread pool (`ThreadPool`, `Thread`,
`Task`, `Result`, `Any`, `Semaphore`). Workers run caller-submitted tasks and hand
back type-erased results through a future-like `Result`. The pool has two modes:
fixed-size, and cached, which grows under load and shrinks after idle time.

Each step of the pool becomes one atomic transition on an immutable `PoolState`.
The source guards its shared state with one mutex, `threadPoolMutex_`, but only
three of these steps run under it: `submitTask`, a worker's take of a task, and
a cached-mode worker's idle reclaim (src/threadpool.cpp:80-127 and 146-179). The
setters, `start`, a worker's return to idle, a worker's exit and the destructor's
clearing of the running flag run without it. The model still takes each of them
as atomic; "## Left out" lists them. The state holds:

- the task vector, used as a stack;
- the id → `Thread` map;
- the initial, current and idle thread counts;
- the task count;
- the two thresholds;
- the mode and the running flag.

The process-wide thread-id counter (`Thread::generateId_`) is passed explicitly as
an `IdGenerator`. Blocking is modelled as enabledness. A semaphore `wait` or a
result `get` that would block returns `None` or `Blocked`.

Modules, leaves first:

- `Wrappers` (wrappers.dfy): `Option` and `Result`.
- `AnyBox` (any.dfy): `Any` as an empty box, or a box holding one datum whose
  explicit type tag replaces RTTI. `Cast` is `cast_<T>`.
- `Semaphores` (semaphore.dfy): an integer counter with `Post`, and a `Wait` that
  is enabled only when the count is positive. Also covers histories of completed
  calls.
- `Threads` (threads.dfy): thread ids drawn from the global counter.
- `TaskResult` (task_result.dfy): `Task::exec`, and `Result`'s constructor,
  `setVal` and `get`. The `Task` → `Result` raw pointer is an optional handle id
  into an arena of live results.
- `Pool` (pool.dfy): the `ThreadPool` transitions, which are the constructor,
  the setters, `start`, `submitTask`, a worker's take, finish, idle timeout and
  exit, `delThread`, and the destructor's state effect. It also holds the LIFO
  service-order lemmas.
- `PoolSystem` (system.dfy): the pool plus each live worker's phase (waiting,
  or busy with a task). It defines the bookkeeping invariant and shows that every
  transition preserves it. It also holds the cached-mode shrink loop and the
  teardown loop.

## Where the model follows the code

- `submitTask` waits for room by comparing the queue length with the constant
  `MAX_TASK_SIZE` (1024) (src/threadpool.cpp:150). `setTaskThresHold` stores
  `taskNumThresHold_`, but nothing reads it, so the setting has no effect on
  admission.
- `start` looks workers up by loop index, not by their assigned ids
  (src/threadpool.cpp:38-39). If the counter is not 0, `threads_[i]` inserts a
  null `unique_ptr` for a missing index, and `start()` is then called through
  it, which is undefined behaviour. `Pool.Start` therefore requires the id
  counter to be 0 and the worker map to agree with it. Under that requirement
  the index lookups hit exactly the workers just created. The requirement also
  excludes two calls whose behaviour is defined; "## Left out" names them.
- `Result`'s constructor binds the task even when the submission is rejected.
  `Pool.Submit` returns that bound task in both outcomes.
- `Task::exec` does not call `run()` at all when no result is bound.
- The constructor never initialises `curThreadNum_`. The model takes it to be 0.
- A cached-mode worker whose timed wait returns "timeout" checks only the idle
  time and `curThreadNum_ > initThreadSize_`. It does not re-check the queue or the
  running flag, and `Pool.IdleTimeout` does the same.
- The `""` returned by an invalid `Result::get` is a `const char*`. It is
  modelled as an `Any` holding the C string `""`.

## Model

| member | source | states |
|---|---|---|
| AnyBox.Wrap | include/threadpool.h:34-35 | boxing a value yields a box from which extraction with the value's own type gives the value back |
| AnyBox.Cast | include/threadpool.h:37-46 | extraction succeeds exactly when the box holds a value built from the requested type, and then yields that stored value with that type; otherwise it fails with "type is unmatch!" |
| AnyBox.CastMismatchFails | include/threadpool.h:41-44 | extracting with any type other than the construction type throws the mismatch error and never returns a reinterpreted value |
| AnyBox.CastEmptyFails | include/threadpool.h:25-46 | a default-constructed (empty) box fails every extraction |
| Semaphores.New | include/threadpool.h:70 | a new semaphore's count equals the given limit |
| Semaphores.Post | include/threadpool.h:79-83 | post raises the count by exactly one |
| Semaphores.Wait | include/threadpool.h:73-77 | wait can complete exactly when the count is positive, and then lowers it by one, never below zero |
| Semaphores.RunCharacterization | include/threadpool.h:70-83 | a history of completed posts and waits is possible exactly when every wait finds a positive count; the final count is the initial count plus posts minus waits |
| Semaphores.NeverNegative | include/threadpool.h:73-77 | starting from a non-negative count, no possible history makes the count negative |
| Semaphores.PostsThenWaits | include/threadpool.h:70-83 | after k posts on a fresh semaphore, j waits can all complete exactly when j <= k |
| Threads.NewThread | src/threadpool.cpp:186-192 | a new thread's id is exactly the counter's current value, and the counter advances by exactly one |
| Threads.FreshIdNotIssued | src/threadpool.cpp:186-192 | a new thread's id is not yet a key of a worker map consistent with the counter, and inserting it keeps the map consistent |
| TaskResult.NewTask | src/threadpool.cpp:206 | a new task is not bound to any result |
| TaskResult.NewResult | src/threadpool.cpp:222-227 | constructing a result binds the task to it, valid or not; the result starts with an empty slot and a zero semaphore |
| TaskResult.SetVal | src/threadpool.cpp:238-243 | setVal stores the value and posts the semaphore once |
| TaskResult.Exec | src/threadpool.cpp:211-215 | an unbound task delivers nothing; a bound task stores its output in its own result, posts that result's semaphore, and changes no other result |
| TaskResult.Get | src/threadpool.cpp:229-236 | an invalid result returns the "" box at once; a valid one blocks exactly while its semaphore is zero, then moves the stored value out and consumes one post |
| TaskResult.GetBlocksBeforeDelivery | src/threadpool.cpp:229-236 | get on a fresh valid result blocks until the task has delivered |
| TaskResult.DeliveryRoundTrip | src/threadpool.cpp:211-243 | after the bound task executes, get on its valid result returns exactly the task's output |
| TaskResult.ExecIsolated | src/threadpool.cpp:211-219 | executing a task does not change what get returns on any other result |
| TaskResult.InvalidGetCastFails | src/threadpool.cpp:229-232 | the box from an invalid result's get fails extraction as any type other than a C string |
| Pool.NewPool | src/threadpool.cpp:6-13 | a new pool is stopped, in fixed mode, with no tasks or workers, zero counters, and thresholds 1024 and 200 |
| Pool.SetMode | src/threadpool.cpp:45-48 | the mode changes only when the pool is not running, and nothing else changes |
| Pool.SetTaskThreshold | src/threadpool.cpp:50-53 | the task threshold changes only when the pool is not running, and nothing else changes |
| Pool.SetThreadThreshold | src/threadpool.cpp:55-60 | the thread ceiling changes only on a stopped pool in cached mode, and nothing else changes |
| Pool.SettersInertWhileRunning | src/threadpool.cpp:45-60 | once running, all three setters leave the pool exactly as it was |
| Pool.SpawnWorkers | src/threadpool.cpp:32-36 | creating k workers adds exactly the next k counter values as keys, keeps existing entries, advances the counter by k and keeps the map consistent with it |
| Pool.Start | src/threadpool.cpp:24-42 | start(n) sets the initial and current counts to n, raises the idle count by n and sets running; the workers are exactly ids 0..n-1, and lookup by index i finds the worker with id i; tasks, mode and thresholds are unchanged |
| Pool.StartFresh | src/threadpool.cpp:24-42 | on a fresh pool with a fresh counter, start(n) leaves init = cur = idle = n, running, workers 0..n-1 and the counter at n |
| Pool.Submit | src/threadpool.cpp:143-179 | rejects exactly when the queue holds 1024 or more tasks, returning an invalid result and leaving pool and counter untouched; otherwise appends the bound task at the tail and adds one to the task count; it adds one worker with the next id, plus one current and one idle thread, exactly when in cached mode the new task count exceeds the idle count and the current count is below the ceiling; in fixed mode the worker map never changes |
| Pool.SubmitSpawnsFreshWorker | src/threadpool.cpp:164-176 | with ids consistent with the counter, a worker added by submission has a key not previously in use, and the map stays consistent |
| Pool.DelThread | src/threadpool.cpp:62-70 | delThread removes exactly that id from the worker map, lowers the current and idle counts by one, and changes nothing else |
| Pool.WorkerStep | src/threadpool.cpp:76-139 | a worker keeps waiting exactly while the pool runs with an empty queue; it exits exactly when running is false, taking no task and removing itself; the exit is exactly `delThread` of its own id; otherwise it removes and returns the last task, lowering the idle and task counts by one and changing nothing else |
| Pool.Finish | src/threadpool.cpp:135 | after running its task a worker raises the idle count by one and changes nothing else |
| Pool.IdleTimeout | src/threadpool.cpp:88-97 | a timed-out worker leaves only in cached mode, with at least 10 idle seconds and more workers than the initial count; then the step is exactly `delThread` of its id, so the id is erased, the current and idle counts drop by one, and nothing else changes; otherwise nothing changes; it never takes the current count below the initial count |
| Pool.FixedModeStable | src/threadpool.cpp:164-166 | in fixed mode neither submission nor idle timeouts change the worker map |
| Pool.Shutdown | src/threadpool.cpp:15-22 | the destructor clears the running flag and changes nothing else |
| Pool.TakeLast | src/threadpool.cpp:119-122 | a take on a running pool with queued tasks returns the last task and leaves the queue without it |
| Pool.TakesAreLifo | src/threadpool.cpp:119-122 | k consecutive takes on a running pool return the last k queued tasks, newest first |
| Pool.SubmitAppends | src/threadpool.cpp:157-158 | an accepted submission appends exactly the bound task and adds one to the task count |
| Pool.SubmitAllAppends | src/threadpool.cpp:157-158 | submissions that fit in the queue are all accepted, appended in submission order, and counted |
| Pool.BurstServedInReverse | src/threadpool.cpp:119-120 | a burst of submissions that fits is taken by workers in exactly the reverse order of submission |
| Pool.SubmitTakeExecGet | src/threadpool.cpp:131-134 | a task submitted to a running pool with room, taken at once and executed, makes get on its result return the task's output |
| Pool.RejectedGetReturnsAtOnce | src/threadpool.cpp:149-154 | a submission to a full queue leaves the pool unchanged, and get on its result returns the "" box without blocking |
| PoolSystem.CountersInRange | include/threadpool.h:167-176 | in a consistent pool, 0 <= idle count <= current count |
| PoolSystem.Init | src/threadpool.cpp:6-13 | the system starts as the constructor's pool, with the given id counter and no workers, and that state satisfies the bookkeeping invariant |
| PoolSystem.SysStart | src/threadpool.cpp:24-42 | the pool and id counter follow `start(n)`; afterwards exactly workers 0..n-1 exist and all are waiting |
| PoolSystem.SysSubmit | src/threadpool.cpp:143-179 | the pool, the id counter and the result follow `submitTask`; a worker added by submission starts out waiting; otherwise no worker's phase changes |
| PoolSystem.SysWorkerStep | src/threadpool.cpp:76-139 | the pool follows the worker's take or exit step; a waiting worker that takes a task becomes busy with the newest task, an exiting worker disappears, and a worker facing an empty queue on a running pool changes nothing |
| PoolSystem.SysFinish | src/threadpool.cpp:131-136 | a busy worker that finishes becomes waiting again |
| PoolSystem.SysIdleTimeout | src/threadpool.cpp:88-97 | a reclaimed worker disappears; otherwise nothing changes |
| PoolSystem.SysShutdown | src/threadpool.cpp:15-22 | shutdown changes no worker's phase |
| PoolSystem.ConfigurePreservesInv | src/threadpool.cpp:45-60 | the setters preserve the bookkeeping invariant |
| PoolSystem.StartPreservesInv | src/threadpool.cpp:24-42 | start preserves the invariant: task count = queue length, current count = number of workers, idle count = number of waiting workers, ids issued by the counter, and a running pool has at least its initial workers (exactly that many in fixed mode) |
| PoolSystem.SubmitPreservesInv | src/threadpool.cpp:143-179 | submission, accepted or rejected, with or without growth, preserves the invariant |
| PoolSystem.DelThreadPreservesInv | src/threadpool.cpp:62-70 | a waiting worker that leaves through delThread keeps the invariant, provided that a running pool is in cached mode and above its initial size |
| PoolSystem.WorkerStepPreservesInv | src/threadpool.cpp:114-128 | a worker's take or exit preserves the invariant |
| PoolSystem.FinishPreservesInv | src/threadpool.cpp:135 | a worker's return to idle preserves the invariant |
| PoolSystem.IdleTimeoutPreservesInv | src/threadpool.cpp:88-97 | idle reclamation preserves the invariant, including never dropping below the initial count while running |
| PoolSystem.ShutdownPreservesInv | src/threadpool.cpp:15-22 | clearing the running flag preserves the invariant |
| PoolSystem.ReclaimSurplus | src/threadpool.cpp:87-98 | on a running cached-mode pool with every worker waiting, repeated idle timeouts shrink the pool to exactly its initial size and no further, leaving the queue alone |
| PoolSystem.Teardown | src/threadpool.cpp:15-22 | after shutdown, busy workers finish and every worker removes itself, so the worker map becomes empty with zero current and idle counts; queued tasks are never run |

## Left out

- Concurrency is not modelled: OS threads, `detach`, the mutexes, and condition-variable wait/notify scheduling. Each locked region is one atomic step. An interleaving is a sequence of such steps.
- Some steps run without `threadPoolMutex_` in the source, but the model takes each as atomic:
  - the three setters (src/threadpool.cpp:45-60), which read and write the mode and thresholds unlocked;
  - the destructor's `isRunning_ = false` (line 16), which runs before the destructor takes the lock at line 19;
  - `start` (src/threadpool.cpp:24-42);
  - a worker's idle increment after running a task (line 135);
  - the shutdown exit path, where `break` (line 115) leaves the locked block, so `delThread` and `exitCond_.notify_all()` (lines 139-140) run unlocked.

  The races these allow are not modelled. Concurrent `threads_.erase` calls can race each other and the destructor's size check (line 21). An unlocked notify can also be lost, which can leave the destructor waiting forever.
- Wall-clock time is not modelled. Elapsed idle time is an integer parameter in seconds. The one-second `wait_for` in `submitTask` is taken as the room test on the state the submitter sees, and worker takes during the wait are earlier transitions.
- The destructor's blocking wait on `exitCond_`, and the notification at the end of `threadFunc`, are not modelled. Only their state effect is: `Pool.Shutdown` clears the running flag, and `PoolSystem.Teardown` shows the worker map then empties.
- The lifetime of the raw pointer `Task::result_` is not modelled. It is an optional handle id into an arena of live results. `TaskResult.Exec` requires the bound result to be alive, since a dangling pointer is undefined behaviour in the source.
- `std::function`, `std::bind`, and the C++ move-only and copy rules of `Any` are not modelled. Values are immutable, and a moved-from box is `Empty`.
- Console output is not modelled.
- test.cpp is not part of this model. It is an example workload with sleeps and printing.
- The body of a task's `run()` is not modelled: its result is given as the task's `output`. An exception that escapes `run()` is not modelled either. It propagates through `Task::exec` (line 214) and `threadFunc` (line 133) out of the function of a `std::thread` (line 197), so `std::terminate` is called and the whole process ends.
- Pool.Start: requires the id counter to be 0, which excludes two calls the source defines. One is `start(0)` after the counter has moved: both loops are empty, so the source only sets the counts and the running flag. The other is a second `start(n)` on the same pool while workers 0..n-1 are still in the map: the index loop starts those old workers again, and the new workers, whose ids are n and above, are never started.
- Pool.Start: takes `n` as a natural number; `start` with a negative size (the default argument is the unsigned hardware concurrency) is not modelled.
- Pool.Submit: assumes each submission passes a distinct `Task` object. In the source a task is a `shared_ptr<Task>`, and `Result`'s constructor rebinds that one object in place (`taskPtr_->setResult(this)`, src/threadpool.cpp:217-219 and 226). Both the accepted and the rejected path rebind it. If the same object is submitted again while an earlier copy is still queued, every queued reference then delivers to the newest `Result`. The earlier `Result::get` blocks forever, and the newest one is posted more than once. In the model a task is a value, so each queued entry keeps the binding it was submitted with.
- Pool.Submit: when an id is already a key, `emplace` keeps the old worker. The model matches that, but it does not model the source then starting that old thread a second time. With consistent ids, which `PoolSystem.Inv` guarantees, this cannot happen.
- Semaphores.Post: the counter is an unbounded integer, so `int` overflow of `resLimit_` is not modelled.
- Threads.NewThread: the id counter is unbounded, so `int` overflow of `generateId_` after 2^31 threads is not modelled.
- Pool.Submit: the pool counters are unbounded integers, so `int` overflow is not modelled.
