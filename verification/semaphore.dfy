/**
  The counting semaphore of include/threadpool.h.  Blocking is modelled as
  enabledness: `Wait` is only possible when the count is positive.
*/
module Semaphores {
  import opened Wrappers

  datatype Semaphore = Semaphore(count: int)

  /** `Semaphore(int limit = 0)`. */
  function New(limit: int): (s: Semaphore)
    ensures s.count == limit
  {
    Semaphore(limit)
  }

  /** `post()`: one more unit available. */
  function Post(s: Semaphore): (r: Semaphore)
    ensures r.count == s.count + 1
  {
    Semaphore(s.count + 1)
  }

  /** `wait()`: `None` when the caller would block, otherwise the decremented semaphore. */
  function Wait(s: Semaphore): (r: Option<Semaphore>)
    ensures r.Some? <==> s.count > 0
    ensures r.Some? ==> r.value.count == s.count - 1 && r.value.count >= 0
  {
    if s.count > 0 then Some(Semaphore(s.count - 1)) else None
  }

  /** One completed call, in the order the calls completed. */
  datatype Op = PostOp | WaitOp

  function Apply(s: Semaphore, op: Op): Option<Semaphore>
  {
    match op
    case PostOp => Some(Post(s))
    case WaitOp => Wait(s)
  }

  /** Runs a history of completed calls; `None` when some wait could not have completed. */
  function Run(s: Semaphore, ops: seq<Op>): Option<Semaphore>
    decreases |ops|
  {
    if |ops| == 0 then Some(s)
    else
      match Apply(s, ops[0])
      case None => None
      case Some(s') => Run(s', ops[1..])
  }

  /** Posts minus waits. */
  function Balance(ops: seq<Op>): int
    decreases |ops|
  {
    if |ops| == 0 then 0
    else (if ops[0] == PostOp then 1 else -1) + Balance(ops[1..])
  }

  /** Every wait in the history finds a positive count when it runs. */
  predicate Feasible(start: int, ops: seq<Op>)
  {
    forall i :: 0 <= i < |ops| && ops[i] == WaitOp ==> start + Balance(ops[..i]) > 0
  }

  function Repeat(op: Op, k: nat): (r: seq<Op>)
    ensures |r| == k
    ensures forall i :: 0 <= i < k ==> r[i] == op
  {
    if k == 0 then [] else [op] + Repeat(op, k - 1)
  }

  lemma FeasibleUnfold(start: int, ops: seq<Op>)
    requires |ops| > 0
    ensures Feasible(start, ops) <==>
      (ops[0] == WaitOp ==> start > 0) &&
      Feasible(start + (if ops[0] == PostOp then 1 else -1), ops[1..])
  {
    var d := if ops[0] == PostOp then 1 else -1;
    forall i | 0 <= i < |ops| - 1
      ensures Balance(ops[..i + 1]) == d + Balance(ops[1..][..i])
    {
      assert ops[..i + 1][1..] == ops[1..][..i];
    }
    assert ops[..0] == [];
    if Feasible(start, ops) {
      forall i | 0 <= i < |ops[1..]| && ops[1..][i] == WaitOp
        ensures start + d + Balance(ops[1..][..i]) > 0
      {
        assert ops[i + 1] == WaitOp;
      }
    }
    if (ops[0] == WaitOp ==> start > 0) && Feasible(start + d, ops[1..]) {
      forall i | 0 <= i < |ops| && ops[i] == WaitOp
        ensures start + Balance(ops[..i]) > 0
      {
        if i > 0 {
          assert ops[1..][i - 1] == WaitOp;
        }
      }
    }
  }

  /**
    A history of calls can complete exactly when every wait finds a positive
    count, and it then leaves the initial count plus posts minus waits.
  */
  lemma {:induction false} RunCharacterization(s: Semaphore, ops: seq<Op>)
    ensures Run(s, ops).Some? <==> Feasible(s.count, ops)
    ensures Run(s, ops).Some? ==> Run(s, ops).value.count == s.count + Balance(ops)
    decreases |ops|
  {
    if |ops| > 0 {
      FeasibleUnfold(s.count, ops);
      match Apply(s, ops[0])
      case None =>
      case Some(s') => RunCharacterization(s', ops[1..]);
    }
  }

  /** Starting from a non-negative count, the count never goes negative. */
  lemma NeverNegative(s: Semaphore, ops: seq<Op>)
    requires s.count >= 0
    requires Run(s, ops).Some?
    ensures Run(s, ops).value.count >= 0
  {
    RunCharacterization(s, ops);
    if |ops| > 0 && Balance(ops) < -s.count {
      LastWaitWitness(s.count, ops);
    }
  }

  /** If the balance ends negative, some wait found a non-positive count. */
  lemma {:induction false} LastWaitWitness(start: int, ops: seq<Op>)
    requires start >= 0
    requires start + Balance(ops) < 0
    ensures !Feasible(start, ops)
    decreases |ops|
  {
    assert |ops| > 0;
    FeasibleUnfold(start, ops);
    var d := if ops[0] == PostOp then 1 else -1;
    if ops[0] == WaitOp && start == 0 {
    } else {
      LastWaitWitness(start + d, ops[1..]);
    }
  }

  lemma {:induction false} RunAppend(s: Semaphore, a: seq<Op>, b: seq<Op>)
    ensures Run(s, a + b) == (match Run(s, a) case None => None case Some(m) => Run(m, b))
    decreases |a|
  {
    if |a| > 0 {
      assert (a + b)[0] == a[0];
      assert (a + b)[1..] == a[1..] + b;
      match Apply(s, a[0])
      case None =>
      case Some(s') => RunAppend(s', a[1..], b);
    } else {
      assert a + b == b;
    }
  }

  lemma {:induction false} RunPosts(s: Semaphore, k: nat)
    ensures Run(s, Repeat(PostOp, k)) == Some(Semaphore(s.count + k))
    decreases k
  {
    if k > 0 {
      assert Repeat(PostOp, k)[1..] == Repeat(PostOp, k - 1);
      RunPosts(Post(s), k - 1);
    }
  }

  lemma {:induction false} RunWaits(c: int, j: nat)
    requires c >= 0
    ensures Run(Semaphore(c), Repeat(WaitOp, j)).Some? <==> j <= c
    decreases j
  {
    if j > 0 {
      assert Repeat(WaitOp, j)[1..] == Repeat(WaitOp, j - 1);
      if c > 0 {
        RunWaits(c - 1, j - 1);
      }
    }
  }

  /** After `k` posts on a fresh semaphore, exactly `k` waits can complete. */
  lemma PostsThenWaits(k: nat, j: nat)
    ensures Run(New(0), Repeat(PostOp, k) + Repeat(WaitOp, j)).Some? <==> j <= k
  {
    RunAppend(New(0), Repeat(PostOp, k), Repeat(WaitOp, j));
    RunPosts(New(0), k);
    RunWaits(k, j);
  }
}
