/** What the task protocol gets done, and who does it: claims, results, errors and cancellations over whole runs. */
module TaskRuns {
  import opened Outcomes
  import opened Tasks

  // ---- Progress ----

  /** The task waits for a worker: queued, or running under a lease that has expired. */
  predicate Waiting(task: Task, now: int) {
    && !task.cancelRequested
    && (task.status == Queued || (task.status == Running && task.leaseUntil.Some? && task.leaseUntil.value < now))
  }

  lemma WaitingIsEligible(s: Queue, now: int, id: string)
    requires Valid(s) && id in s.tasks
    ensures Waiting(s.tasks[id], now) <==> Eligible(s.tasks[id], now)
  {
    assert TaskOk(s, id);
  }

  /** No other task that is queued or running was created before this one, or with it. */
  ghost predicate IsOldest(s: Queue, id: string) {
    id in s.tasks && forall other | other in s.tasks && other != id && s.tasks[other].status in {Queued, Running} ::
      s.tasks[id].createdAt < s.tasks[other].createdAt
  }

  /** While some task waits a claim issues one lease, of a waiting task; it is that of the oldest one if that waits. */
  lemma ClaimProgress(s: Queue, op: Op, t: Queue, id: string) returns (lease: Lease)
    requires Valid(s) && op.Claim? && Step(s, op, t) && id in s.tasks && Waiting(s.tasks[id], op.now)
    ensures lease !in s.issued && t.issued == s.issued + {lease} && lease.owner == op.owner
    ensures lease.taskId in s.tasks && Waiting(s.tasks[lease.taskId], op.now)
    ensures lease.taskId in t.tasks && t.tasks[lease.taskId].status == Running && Owns(t, lease)
    ensures t.tasks[lease.taskId].leaseUntil == Some(op.now + op.seconds)
    ensures IsOldest(s, id) ==> lease.taskId == id
  {
    WaitingIsEligible(s, op.now, id);
    var chosen :| CanClaim(s, op.now, chosen) && t == ClaimTask(s, chosen, op.owner, op.now + op.seconds);
    WaitingIsEligible(s, op.now, chosen);
    lease := Lease(chosen, op.owner, s.tasks[chosen].fencing + 1);
    assert lease in s.issued ==> LeaseOk(s, lease);
  }

  /** While nothing waits a claim changes nothing. */
  lemma NothingWaits(s: Queue, op: Op, t: Queue)
    requires Valid(s) && op.Claim? && Step(s, op, t)
    requires forall id | id in s.tasks :: !Waiting(s.tasks[id], op.now)
    ensures t == s
  {
    forall id | id in s.tasks ensures !Eligible(s.tasks[id], op.now) {
      WaitingIsEligible(s, op.now, id);
    }
  }

  /** A task enqueued under a fresh id and key waits from then on until something is done with it. */
  lemma EnqueuedWaits(s: Queue, op: Op, t: Queue, later: int)
    requires op.Enqueue? && Step(s, op, t) && op.id !in s.tasks
    requires op.key.Some? ==> forall id | id in s.tasks :: s.tasks[id].key != op.key
    ensures op.id in t.tasks && Waiting(t.tasks[op.id], later) && t.tasks[op.id].createdAt == op.now
    ensures t.tasks[op.id].account == op.account && t.tasks[op.id].key == op.key
    ensures t.tasks[op.id].attempts == 0 && t.tasks[op.id].progress == 0 && t.tasks[op.id].result.None?
    ensures forall id | id in s.tasks :: id in t.tasks && t.tasks[id] == s.tasks[id]
  {
  }

  /** Recovery makes every task with an expired lease wait again, unless it was to be cancelled. */
  lemma RecoveredWaits(s: Queue, op: Op, t: Queue, id: string, later: int)
    requires Valid(s) && op.ReconcileExpired? && Step(s, op, t) && id in s.tasks && Waiting(s.tasks[id], op.now)
    ensures id in t.tasks && t.tasks[id].status == Queued && Waiting(t.tasks[id], later)
  {
    assert TaskOk(s, id);
  }

  // ---- How long a lease lasts ----

  /** Only leases that a claim issued ever pass the ownership test, and only while their task runs. */
  lemma OnlyIssuedOwn(s: Queue, lease: Lease)
    requires Valid(s) && Owns(s, lease)
    ensures lease in s.issued && s.tasks[lease.taskId].status == Running
    ensures s.tasks[lease.taskId].leaseOwner == Some(lease.owner) && s.tasks[lease.taskId].attempts == lease.token
  {
    assert TaskOk(s, lease.taskId);
  }

  /** A new lease is exclusive for as long as the claim asked. */
  lemma ClaimLasts(states: seq<Queue>, ops: seq<Op>, m: nat, n: nat, lease: Lease)
    requires IsRun(states, ops) && Valid(states[0]) && Clocked(ops) && m < n <= |ops|
    requires ops[m].Claim? && lease in states[m + 1].issued - states[m].issued
    requires forall i | m < i < n :: !GivesUp(ops[i], lease)
    requires Time(ops[n - 1]) <= ops[m].now + ops[m].seconds
    ensures Owns(states[n], lease)
  {
    RunKeeps(states, ops, m);
    assert Step(states[m], ops[m], states[m + 1]);
    assert Owns(states[m + 1], lease) && states[m + 1].tasks[lease.taskId].leaseUntil
      == Some(ops[m].now + ops[m].seconds);
    LeaseIsExclusive(states, ops, m + 1, n, lease);
  }

  /** So is an owned lease after a heartbeat, for as long as the heartbeat asked. */
  lemma HeartbeatLasts(states: seq<Queue>, ops: seq<Op>, m: nat, n: nat, lease: Lease)
    requires IsRun(states, ops) && Valid(states[0]) && Clocked(ops) && m < n <= |ops|
    requires ops[m].Heartbeat? && ops[m].lease == lease && Owns(states[m], lease) && lease in states[m].issued
    requires !states[m].tasks[lease.taskId].cancelRequested
    requires forall i | m < i < n :: !GivesUp(ops[i], lease)
    requires Time(ops[n - 1]) <= ops[m].now + ops[m].seconds
    ensures Owns(states[n], lease)
  {
    RunKeeps(states, ops, m);
    assert Step(states[m], ops[m], states[m + 1]);
    assert Owns(states[m + 1], lease) && states[m + 1].tasks[lease.taskId].leaseUntil
      == Some(ops[m].now + ops[m].seconds);
    LeaseIsExclusive(states, ops, m + 1, n, lease);
  }

  // ---- Where outcomes come from ----

  /** The owner of the task finished it with this result, at step `k`. */
  ghost predicate FinishedAt(states: seq<Queue>, ops: seq<Op>, k: int, id: string, result: string) {
    && 0 <= k < |ops| && k < |states| && ops[k].Finish? && ops[k].lease.taskId == id && ops[k].result == result
    && Owns(states[k], ops[k].lease) && !states[k].tasks[id].cancelRequested
  }

  ghost predicate FailedAt(states: seq<Queue>, ops: seq<Op>, k: int, id: string, error: string) {
    && 0 <= k < |ops| && k < |states| && ops[k].Fail? && ops[k].lease.taskId == id && ops[k].error == error
    && Owns(states[k], ops[k].lease)
  }

  /** Someone who may cancel the task asked for it, at step `k`. */
  ghost predicate CancelledAt(states: seq<Queue>, ops: seq<Op>, k: int, id: string) {
    && 0 <= k < |ops| && k < |states| && ops[k].RequestCancel? && ops[k].id == id && id in states[k].tasks
    && (states[k].tasks[id].account.None? || states[k].tasks[id].account == ops[k].account)
    && (states[k].tasks[id].status == Queued || states[k].tasks[id].status == Running)
  }

  /** What one step may do to the outcome of a row. */
  lemma StepOutcome(s: Queue, op: Op, t: Queue, id: string)
    requires Step(s, op, t) && id in t.tasks
    ensures id !in s.tasks ==>
      t.tasks[id].result.None? && t.tasks[id].error.None? && !t.tasks[id].cancelRequested
    ensures id in s.tasks && t.tasks[id].result != s.tasks[id].result ==>
      op.Finish? && op.lease.taskId == id && t.tasks[id].result == Some(op.result) && Owns(s, op.lease)
      && !s.tasks[id].cancelRequested
    ensures id in s.tasks && t.tasks[id].error != s.tasks[id].error ==>
      op.Fail? && op.lease.taskId == id && t.tasks[id].error == Some(op.error) && Owns(s, op.lease)
    ensures id in s.tasks && t.tasks[id].cancelRequested && !s.tasks[id].cancelRequested ==>
      op.RequestCancel? && op.id == id && (s.tasks[id].status == Queued || s.tasks[id].status == Running)
      && (s.tasks[id].account.None? || s.tasks[id].account == op.account)
  {
    if Fenced(op) {
      FencedStep(s, op, t);
    }
  }

  /** Every result was stored by the worker that owned the task at that moment. */
  lemma {:induction false} ResultsAreOwners(states: seq<Queue>, ops: seq<Op>, n: nat, id: string) returns (k: nat)
    requires IsRun(states, ops) && states[0] == EMPTY && n <= |ops|
    requires id in states[n].tasks && states[n].tasks[id].result.Some?
    ensures k < n && FinishedAt(states, ops, k, id, states[n].tasks[id].result.value)
  {
    hide Step, Owns;
    k := n - 1;
    StepOutcome(states[k], ops[k], states[k + 1], id);
    if id in states[k].tasks && states[k].tasks[id].result == states[n].tasks[id].result {
      k := ResultsAreOwners(states, ops, n - 1, id);
    }
  }

  /** Every error was stored by the worker that owned the task at that moment. */
  lemma {:induction false} ErrorsAreOwners(states: seq<Queue>, ops: seq<Op>, n: nat, id: string) returns (k: nat)
    requires IsRun(states, ops) && states[0] == EMPTY && n <= |ops|
    requires id in states[n].tasks && states[n].tasks[id].error.Some?
    ensures k < n && FailedAt(states, ops, k, id, states[n].tasks[id].error.value)
  {
    hide Step, Owns;
    k := n - 1;
    StepOutcome(states[k], ops[k], states[k + 1], id);
    if id in states[k].tasks && states[k].tasks[id].error == states[n].tasks[id].error {
      k := ErrorsAreOwners(states, ops, n - 1, id);
    }
  }

  /** Every cancellation was requested for the account of the task, while the task was not over. */
  lemma {:induction false} CancellationsAreAllowed(states: seq<Queue>, ops: seq<Op>, n: nat, id: string)
    returns (k: nat)
    requires IsRun(states, ops) && states[0] == EMPTY && n <= |ops|
    requires id in states[n].tasks && states[n].tasks[id].cancelRequested
    ensures k < n && CancelledAt(states, ops, k, id)
  {
    hide Step;
    k := n - 1;
    StepOutcome(states[k], ops[k], states[k + 1], id);
    if id in states[k].tasks && states[k].tasks[id].cancelRequested {
      k := CancellationsAreAllowed(states, ops, n - 1, id);
    }
  }

  // ---- What a write by the owner achieves ----

  /** What an owner reports is stored: progress within 0 to 100 as it is, a result, an error. */
  lemma OwnerWrites(s: Queue, op: Op, t: Queue)
    requires Fenced(op) && Step(s, op, t) && Owns(s, op.lease)
    ensures op.lease.taskId in t.tasks && (forall id | id in s.tasks && id != op.lease.taskId ::
      id in t.tasks && t.tasks[id] == s.tasks[id])
    ensures var a, b := s.tasks[op.lease.taskId], t.tasks[op.lease.taskId];
      && (op.Progress? && 0 <= op.value <= 100 ==> b == a.(progress := op.value))
      && (op.Progress? && op.value < 0 ==> b == a.(progress := 0))
      && (op.Progress? && op.value > 100 ==> b == a.(progress := 100))
      && (op.Finish? && !a.cancelRequested ==> b.status == Succeeded && b.result == Some(op.result))
      && (op.Fail? && !a.cancelRequested ==> b.status == Failed && b.error == Some(op.error))
      && (op.Finish? || op.Fail? ==> (a.cancelRequested ==> b.status == Cancelled) && b.leaseUntil.None?)
  {
    FencedStep(s, op, t);
  }

  /** A repeated request with the same key adds nothing, whatever happened to the first task. */
  lemma EnqueueIsIdempotent(states: seq<Queue>, ops: seq<Op>, m: nat, n: nat)
    requires IsRun(states, ops) && Valid(states[0]) && m < n < |ops| && ops[m].Enqueue? && ops[n].Enqueue?
    requires ops[m].key.Some? && ops[n].key == ops[m].key && ops[m].id !in states[m].tasks
    ensures states[n + 1] == states[n]
    ensures exists id :: id in states[n].tasks && states[n].tasks[id].key == ops[n].key
  {
    var id := KeyIsKept(states[m], ops[m], states[m + 1]);
    RunEvolves(states, ops, m + 1, n, id);
    assert KeyTaken(states[n], ops[n].key);
    assert Step(states[n], ops[n], states[n + 1]);
  }

  lemma KeyIsKept(s: Queue, op: Op, t: Queue) returns (id: string)
    requires op.Enqueue? && op.key.Some? && Step(s, op, t) && (op.id !in s.tasks || KeyTaken(s, op.key))
    ensures id in t.tasks && t.tasks[id].key == op.key
  {
    if KeyTaken(s, op.key) {
      id :| id in s.tasks && s.tasks[id].key == op.key;
    } else {
      id := op.id;
    }
  }
}
