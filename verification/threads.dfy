/**
  `Thread` of src/threadpool.cpp: a handle over one OS thread, identified by
  a process-wide counter (`Thread::generateId_`) that hands out 0, 1, 2, ...
  The counter is passed explicitly instead of being a global.
*/
module Threads {

  datatype Thread = Thread(id: int)

  /** The process-wide id counter: `next` is the id the next thread receives. */
  datatype IdGenerator = IdGenerator(next: nat)

  datatype Created = Created(thread: Thread, gen: IdGenerator)

  /** `Thread(Func)`: takes the counter's value as id and advances the counter. */
  function NewThread(g: IdGenerator): (c: Created)
    ensures c.thread.id == g.next
    ensures c.gen.next == g.next + 1
  {
    Created(Thread(g.next), IdGenerator(g.next + 1))
  }

  /**
    The worker map is consistent with the counter: every key was already
    handed out and is the id of the worker stored under it.
  */
  predicate IdsIssued(threads: map<int, Thread>, g: IdGenerator)
  {
    forall k :: k in threads ==> 0 <= k < g.next && threads[k].id == k
  }

  /** A freshly created thread's id is not yet a key of a consistent worker map. */
  lemma FreshIdNotIssued(threads: map<int, Thread>, g: IdGenerator)
    requires IdsIssued(threads, g)
    ensures NewThread(g).thread.id !in threads
    ensures IdsIssued(threads[NewThread(g).thread.id := NewThread(g).thread], NewThread(g).gen)
  {
  }
}
