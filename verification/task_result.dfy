/**
  The delivery link between a submitted `Task` and the `Result` its
  submitter waits on (src/threadpool.cpp, `Task` and `Result`).

  `Task::result_` is a raw pointer to the submitter's `Result`; here it is an
  optional handle id, and the live `Result` objects form an arena keyed by
  that id.  What a task's `run()` returns is given as its `output`.
*/
module TaskResult {
  import opened Wrappers
  import opened AnyBox
  import Semaphores

  type HandleId = nat

  /** A submitted task: the value its `run()` produces and the result it is bound to. */
  datatype Task = Task(output: Any, result: Option<HandleId>)

  /** The handle a submitter receives: value slot, "value ready" semaphore, validity. */
  datatype ResultHandle = ResultHandle(slot: Any, sem: Semaphores.Semaphore, valid: bool)

  /** A task together with the result bound to it. */
  datatype Bound = Bound(task: Task, result: ResultHandle)

  /** `Task()`: not yet bound to any result. */
  function NewTask(output: Any): (t: Task)
    ensures t.result.None? && t.output == output
  {
    Task(output, None)
  }

  /**
    `Result(sp, isValid)`: a handle with an empty slot and a zero semaphore;
    the constructor binds the task to it whether or not it is valid.
  */
  function NewResult(t: Task, h: HandleId, valid: bool): (b: Bound)
    ensures b.task.result == Some(h) && b.task.output == t.output
    ensures b.result.valid == valid
    ensures b.result.slot.Empty? && b.result.sem.count == 0
  {
    Bound(t.(result := Some(h)), ResultHandle(Empty, Semaphores.New(0), valid))
  }

  /** `setVal`: store the value, then post the semaphore. */
  function SetVal(r: ResultHandle, v: Any): (r': ResultHandle)
    ensures r'.slot == v && r'.valid == r.valid
    ensures r'.sem.count == r.sem.count + 1
  {
    r.(slot := v, sem := Semaphores.Post(r.sem))
  }

  /**
    `Task::exec`: only when a result is bound does the task run and deliver its
    output there; an unbound task is not even run.  The bound result must still
    be alive (dereferencing a dangling `result_` is undefined in the source).
  */
  function Exec(t: Task, arena: map<HandleId, ResultHandle>): (arena': map<HandleId, ResultHandle>)
    requires t.result.Some? ==> t.result.value in arena
    ensures arena'.Keys == arena.Keys
    ensures t.result.None? ==> arena' == arena
    ensures t.result.Some? ==>
      var h := t.result.value;
      arena'[h].slot == t.output && arena'[h].valid == arena[h].valid &&
      arena'[h].sem.count == arena[h].sem.count + 1
    ensures forall k :: k in arena && Some(k) != t.result ==> arena'[k] == arena[k]
  {
    match t.result
    case None => arena
    case Some(h) => arena[h := SetVal(arena[h], t.output)]
  }

  /** What `Result::get` does: block, or return a value and the handle's new state. */
  datatype GetOutcome = Blocked | Returned(value: Any, after: ResultHandle)

  /** The value an invalid result's `get` returns: an `Any` holding the C string "". */
  const EmptyStringAny: Any := Wrap(CStringDatum(""))

  /**
    `Result::get`: an invalid result returns at once with the "" box; a valid
    one blocks until its semaphore has been posted, then moves the value out.
  */
  function Get(r: ResultHandle): (o: GetOutcome)
    ensures !r.valid ==> o == Returned(EmptyStringAny, r)
    ensures r.valid ==> (o.Blocked? <==> r.sem.count <= 0)
    ensures r.valid && o.Returned? ==>
      o.value == r.slot && o.after.slot.Empty? && o.after.valid &&
      o.after.sem.count == r.sem.count - 1 && o.after.sem.count >= 0
  {
    if !r.valid then Returned(EmptyStringAny, r)
    else
      match Semaphores.Wait(r.sem)
      case None => Blocked
      case Some(s') => Returned(r.slot, r.(slot := Empty, sem := s'))
  }

  /** Before its task has run, a fresh valid result's `get` blocks. */
  lemma GetBlocksBeforeDelivery(t: Task, h: HandleId)
    ensures Get(NewResult(t, h, true).result) == Blocked
  {
  }

  /**
    Result delivery: once the bound task has executed, `get` on its valid
    result returns exactly the value the task's `run()` produced.
  */
  lemma DeliveryRoundTrip(t: Task, h: HandleId, arena: map<HandleId, ResultHandle>)
    ensures
      var b := NewResult(t, h, true);
      var arena' := Exec(b.task, arena[h := b.result]);
      Get(arena'[h]).Returned? && Get(arena'[h]).value == t.output
  {
  }

  /** Executing one task leaves every other result untouched. */
  lemma ExecIsolated(t: Task, arena: map<HandleId, ResultHandle>, k: HandleId)
    requires t.result.Some? ==> t.result.value in arena
    requires k in arena && t.result != Some(k)
    ensures Get(Exec(t, arena)[k]) == Get(arena[k])
  {
  }

  /**
    The "" box of an invalid result can only be extracted as a C string:
    every other requested type fails with the type-mismatch exception.
  */
  lemma InvalidGetCastFails(r: ResultHandle, requested: TypeTag)
    requires !r.valid && requested != CStringType
    ensures Get(r).Returned?
    ensures Cast(Get(r).value, requested).Failure?
  {
  }
}
