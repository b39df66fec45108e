/** The durable task protocol: leases, fencing tokens, cancellation and crash recovery. */
module Tasks {
  import opened Outcomes

  datatype Status = Queued | Running | Succeeded | Failed | Cancelled

  datatype Task = Task(
    status: Status, account: Option<string>, leaseOwner: Option<string>, leaseUntil: Option<int>, fencing: int,
    attempts: int, progress: int, result: Option<string>, error: Option<string>, cancelRequested: bool,
    key: Option<string>, createdAt: int)

  datatype Lease = Lease(taskId: string, owner: string, token: int)

  /** The task rows, and every lease a claim ever returned. */
  datatype Queue = Queue(tasks: map<string, Task>, issued: set<Lease>)

  const EMPTY := Queue(map[], {})

  datatype Error = NotFound | Conflict | Integrity

  predicate Terminal(status: Status) {
    status in {Succeeded, Failed, Cancelled}
  }

  // ---- One task ----

  predicate Eligible(task: Task, now: int) {
    && (task.status == Queued || task.status == Running)
    && (task.leaseUntil.None? || task.leaseUntil.value < now)
    && !task.cancelRequested
  }

  predicate Expired(task: Task, now: int) {
    task.status == Running && task.leaseUntil.Some? && task.leaseUntil.value < now
  }

  function Claimed(task: Task, owner: string, until: int): Task {
    task.(status := Running, leaseOwner := Some(owner), leaseUntil := Some(until), fencing := task.fencing + 1,
      attempts := task.attempts + 1)
  }

  function Finished(task: Task, result: string): Task {
    if task.cancelRequested then task.(status := Cancelled, leaseUntil := None)
    else task.(status := Succeeded, progress := 100, result := Some(result), leaseUntil := None)
  }

  function FailedWith(task: Task, error: string): Task {
    task.(status := if task.cancelRequested then Cancelled else Failed, error := Some(error), leaseUntil := None)
  }

  function Recovered(task: Task): Task {
    task.(leaseOwner := None, leaseUntil := None, status := if task.cancelRequested then Cancelled else Queued)
  }

  function Clamp(value: int): int {
    if value < 0 then 0 else if value > 100 then 100 else value
  }

  // ---- The queue ----

  /** The test every fenced write makes first. */
  predicate Owns(s: Queue, lease: Lease) {
    && lease.taskId in s.tasks
    && var task := s.tasks[lease.taskId];
    task.leaseOwner == Some(lease.owner) && task.fencing == lease.token && task.status == Running
  }

  function SetTask(s: Queue, id: string, task: Task): Queue {
    s.(tasks := s.tasks[id := task])
  }

  /** The oldest eligible task; ties are broken by the database. */
  predicate CanClaim(s: Queue, now: int, id: string) {
    && id in s.tasks && Eligible(s.tasks[id], now)
    && forall other | other in s.tasks && Eligible(s.tasks[other], now) ::
      s.tasks[id].createdAt <= s.tasks[other].createdAt
  }

  predicate NothingToClaim(s: Queue, now: int) {
    forall id | id in s.tasks :: !Eligible(s.tasks[id], now)
  }

  function ClaimTask(s: Queue, id: string, owner: string, until: int): Queue
    requires id in s.tasks
  {
    Queue(s.tasks[id := Claimed(s.tasks[id], owner, until)], s.issued + {Lease(id, owner, s.tasks[id].fencing + 1)})
  }

  function Recover(s: Queue, now: int): Queue {
    s.(tasks := map id | id in s.tasks :: if Expired(s.tasks[id], now) then Recovered(s.tasks[id]) else s.tasks[id])
  }

  function NewTask(account: Option<string>, key: Option<string>, now: int): Task {
    Task(Queued, account, None, None, 0, 0, 0, None, None, false, key, now)
  }

  /** What the worker, the API and recovery may do, each as one transaction. */
  datatype Op =
    | Enqueue(id: string, account: Option<string>, key: Option<string>, now: int)
    | Claim(owner: string, seconds: int, now: int)
    | Heartbeat(lease: Lease, seconds: int, now: int)
    | Progress(lease: Lease, value: int, now: int)
    | Finish(lease: Lease, result: string, now: int)
    | Fail(lease: Lease, error: string, now: int)
    | RequestCancel(id: string, account: Option<string>, now: int)
    | ReconcileExpired(now: int)

  predicate MayCancel(s: Queue, id: string, account: Option<string>) {
    id in s.tasks && (s.tasks[id].account.None? || s.tasks[id].account == account) && !Terminal(s.tasks[id].status)
  }

  /** An idempotency key names a task already, or collides in the unique column. */
  predicate KeyTaken(s: Queue, key: Option<string>) {
    key.Some? && exists id :: id in s.tasks && s.tasks[id].key == key
  }

  /** A heartbeat that finds a cancellation raises: its status write is committed or rolled back by the caller. */
  predicate HeartbeatStep(s: Queue, lease: Lease, until: int, t: Queue) {
    if !Owns(s, lease) then t == s
    else if s.tasks[lease.taskId].cancelRequested then
      t == s || t == SetTask(s, lease.taskId, s.tasks[lease.taskId].(status := Cancelled))
    else t == SetTask(s, lease.taskId, s.tasks[lease.taskId].(leaseUntil := Some(until)))
  }

  /** `t` may follow `s` by one operation; refused operations change nothing. */
  ghost predicate Step(s: Queue, op: Op, t: Queue) {
    match op
    case Enqueue(id, account, key, now) =>
      t == if id in s.tasks || KeyTaken(s, key) then s else SetTask(s, id, NewTask(account, key, now))
    case Claim(owner, seconds, now) =>
      if NothingToClaim(s, now) then t == s
        else exists id :: CanClaim(s, now, id) && t == ClaimTask(s, id, owner, now + seconds)
    case Heartbeat(lease, seconds, now) => HeartbeatStep(s, lease, now + seconds, t)
    case Progress(lease, value, _) =>
      t == if Owns(s, lease) then SetTask(s, lease.taskId, s.tasks[lease.taskId].(progress := Clamp(value))) else s
    case Finish(lease, result, _) =>
      t == if Owns(s, lease) then SetTask(s, lease.taskId, Finished(s.tasks[lease.taskId], result)) else s
    case Fail(lease, error, _) =>
      t == if Owns(s, lease) then SetTask(s, lease.taskId, FailedWith(s.tasks[lease.taskId], error)) else s
    case RequestCancel(id, account, _) =>
      t == if MayCancel(s, id, account) then SetTask(s, id, s.tasks[id].(cancelRequested := true)) else s
    case ReconcileExpired(now) => t == Recover(s, now)
  }

  // ---- Invariant ----

  predicate TaskOk(s: Queue, id: string)
    requires id in s.tasks
  {
    var task := s.tasks[id];
    && 0 <= task.fencing == task.attempts && 0 <= task.progress <= 100
    && (task.status == Queued ==> task.leaseOwner.None? && task.leaseUntil.None?)
    && (task.status == Running ==>
      task.leaseOwner.Some? && task.leaseUntil.Some? && Lease(id, task.leaseOwner.value, task.fencing) in s.issued)
    && (task.result.Some? <==> task.status == Succeeded)
    && (task.status == Succeeded ==> task.progress == 100)
    && (task.status in {Succeeded, Failed} ==> !task.cancelRequested)
    && (task.status == Cancelled ==> task.cancelRequested)
    && (task.status == Failed ==> task.error.Some?)
    && (task.error.Some? ==> task.status in {Failed, Cancelled})
  }

  predicate LeaseOk(s: Queue, lease: Lease) {
    lease.taskId in s.tasks && 1 <= lease.token <= s.tasks[lease.taskId].fencing
  }

  ghost predicate Valid(s: Queue) {
    && (forall id | id in s.tasks :: TaskOk(s, id))
    && (forall lease | lease in s.issued :: LeaseOk(s, lease))
    && (forall a, b | a in s.issued && b in s.issued && a.taskId == b.taskId && a.token == b.token :: a == b)
    && (forall i, j | i in s.tasks && j in s.tasks && i != j && s.tasks[i].key.Some? ::
      s.tasks[i].key != s.tasks[j].key)
  }

  lemma EmptyIsValid()
    ensures Valid(EMPTY)
  {
  }

  /** Rewriting one row, with its token and key unchanged, keeps the invariant if the row itself is right. */
  lemma RowKeeps(s: Queue, t: Queue, id: string)
    requires Valid(s) && id in s.tasks && id in t.tasks && t == SetTask(s, id, t.tasks[id])
    requires t.tasks[id].fencing == s.tasks[id].fencing && t.tasks[id].key == s.tasks[id].key && TaskOk(t, id)
    ensures Valid(t)
  {
    forall other | other in t.tasks ensures TaskOk(t, other) {
      if other != id {
        assert TaskOk(s, other);
      }
    }
    forall lease | lease in t.issued ensures LeaseOk(t, lease) {
      assert LeaseOk(s, lease);
    }
  }

  lemma ClaimKeeps(s: Queue, id: string, owner: string, until: int)
    requires Valid(s) && id in s.tasks && s.tasks[id].status in {Queued, Running} && !s.tasks[id].cancelRequested
    ensures Valid(ClaimTask(s, id, owner, until))
  {
    var t := ClaimTask(s, id, owner, until);
    forall other | other in t.tasks ensures TaskOk(t, other) {
      assert TaskOk(s, other);
    }
    forall lease | lease in t.issued ensures LeaseOk(t, lease) {
      assert lease in s.issued ==> LeaseOk(s, lease);
      assert TaskOk(s, id);
    }
    forall a, b | a in t.issued && b in t.issued && a.taskId == b.taskId && a.token == b.token ensures a == b {
      assert a in s.issued ==> LeaseOk(s, a);
      assert b in s.issued ==> LeaseOk(s, b);
    }
  }

  lemma RecoverKeeps(s: Queue, now: int)
    requires Valid(s)
    ensures Valid(Recover(s, now))
  {
    var t := Recover(s, now);
    forall id | id in t.tasks ensures TaskOk(t, id) {
      assert TaskOk(s, id);
    }
    forall lease | lease in t.issued ensures LeaseOk(t, lease) {
      assert LeaseOk(s, lease);
    }
  }

  lemma EnqueueKeeps(s: Queue, id: string, task: Task)
    requires Valid(s) && id !in s.tasks && !KeyTaken(s, task.key)
    requires task == NewTask(task.account, task.key, task.createdAt)
    ensures Valid(SetTask(s, id, task))
  {
    var t := SetTask(s, id, task);
    forall other | other in t.tasks ensures TaskOk(t, other) {
      if other != id {
        assert TaskOk(s, other);
      }
    }
    forall lease | lease in t.issued ensures LeaseOk(t, lease) {
      assert LeaseOk(s, lease);
    }
  }

  predicate Fenced(op: Op) {
    op.Heartbeat? || op.Progress? || op.Finish? || op.Fail?
  }

  /** What a fenced write does to the row it owns. */
  predicate FencedWrite(a: Task, op: Op, b: Task)
    requires Fenced(op)
  {
    match op
    case Heartbeat(_, seconds, now) =>
      if a.cancelRequested then b == a || b == a.(status := Cancelled) else b == a.(leaseUntil := Some(now + seconds))
    case Progress(_, value, _) => b == a.(progress := Clamp(value))
    case Finish(_, result, _) => b == Finished(a, result)
    case Fail(_, error, _) => b == FailedWith(a, error)
  }

  /** A fenced operation writes one row if its lease owns it, and nothing otherwise. */
  lemma FencedStep(s: Queue, op: Op, t: Queue)
    requires Fenced(op) && Step(s, op, t)
    ensures !Owns(s, op.lease) ==> t == s
    ensures Owns(s, op.lease) ==>
      op.lease.taskId in t.tasks && t == SetTask(s, op.lease.taskId, t.tasks[op.lease.taskId])
    ensures Owns(s, op.lease) ==> FencedWrite(s.tasks[op.lease.taskId], op, t.tasks[op.lease.taskId])
  {
    if t == s && op.lease.taskId in s.tasks {
      assert s == SetTask(s, op.lease.taskId, s.tasks[op.lease.taskId]);
    }
  }

  lemma FencedKeeps(s: Queue, op: Op, t: Queue)
    requires Fenced(op) && Valid(s) && Step(s, op, t)
    ensures Valid(t)
  {
    FencedStep(s, op, t);
    hide Step;
    if Owns(s, op.lease) {
      assert TaskOk(s, op.lease.taskId);
      RowKeeps(s, t, op.lease.taskId);
    }
  }

  lemma CancelKeeps(s: Queue, id: string, account: Option<string>)
    requires Valid(s) && MayCancel(s, id, account)
    ensures Valid(SetTask(s, id, s.tasks[id].(cancelRequested := true)))
  {
    assert TaskOk(s, id);
    RowKeeps(s, SetTask(s, id, s.tasks[id].(cancelRequested := true)), id);
  }

  lemma StepKeeps(s: Queue, op: Op, t: Queue)
    requires Valid(s) && Step(s, op, t)
    ensures Valid(t)
  {
    hide Valid;
    match op
    case Enqueue(id, account, key, now) =>
      if t != s {
        EnqueueKeeps(s, id, NewTask(account, key, now));
      }
    case Claim(owner, seconds, now) =>
      if !NothingToClaim(s, now) {
        var id :| CanClaim(s, now, id) && t == ClaimTask(s, id, owner, now + seconds);
        ClaimKeeps(s, id, owner, now + seconds);
      }
    case ReconcileExpired(now) =>
      RecoverKeeps(s, now);
    case RequestCancel(id, account, _) =>
      if t != s {
        CancelKeeps(s, id, account);
      }
    case _ =>
      FencedKeeps(s, op, t);
  }

  // ---- Runs ----

  /** An interleaving of operations of any number of workers and callers. */
  ghost predicate IsRun(states: seq<Queue>, ops: seq<Op>) {
    && |states| == |ops| + 1
    && forall i | 0 <= i < |ops| :: Step(states[i], ops[i], states[i + 1])
  }

  lemma {:induction false} RunKeeps(states: seq<Queue>, ops: seq<Op>, n: nat)
    requires IsRun(states, ops) && Valid(states[0]) && n <= |ops|
    ensures Valid(states[n])
  {
    if n > 0 {
      RunKeeps(states, ops, n - 1);
      StepKeeps(states[n - 1], ops[n - 1], states[n]);
    }
  }

  // ---- How one row evolves ----

  /** What every later version of a row keeps; the relation is transitive. */
  predicate Evolves(a: Task, b: Task) {
    && a.account == b.account && a.key == b.key && a.createdAt == b.createdAt
    && a.fencing <= b.fencing
    && (Terminal(a.status) ==> b == a)
    && (a.cancelRequested ==>
      b.cancelRequested && b.fencing == a.fencing && (b.status in {Succeeded, Failed} ==> b == a))
    && (a.cancelRequested && a.status == Queued ==> b == a)
    && (b.status == Running && b.fencing == a.fencing ==> a.status == Running && a.leaseOwner == b.leaseOwner)
  }

  lemma FencedEvolves(a: Task, op: Op, b: Task)
    requires Fenced(op) && FencedWrite(a, op, b) && a.status == Running
    ensures Evolves(a, b)
  {
  }

  lemma StepEvolves(s: Queue, op: Op, t: Queue, id: string)
    requires Valid(s) && Step(s, op, t) && id in s.tasks
    ensures id in t.tasks && Evolves(s.tasks[id], t.tasks[id])
  {
    assert TaskOk(s, id);
    if Fenced(op) {
      FencedStep(s, op, t);
      hide Step;
      if Owns(s, op.lease) && id == op.lease.taskId {
        FencedEvolves(s.tasks[id], op, t.tasks[id]);
      }
    }
  }

  lemma StepIssues(s: Queue, op: Op, t: Queue)
    requires Step(s, op, t)
    ensures s.issued <= t.issued
    ensures !op.Claim? ==> s.issued == t.issued
  {
  }

  lemma {:induction false} RunEvolves(states: seq<Queue>, ops: seq<Op>, m: nat, n: nat, id: string)
    requires IsRun(states, ops) && Valid(states[0]) && m <= n <= |ops| && id in states[m].tasks
    ensures id in states[n].tasks && Evolves(states[m].tasks[id], states[n].tasks[id])
    decreases n
  {
    hide Step, Valid;
    if m < n {
      RunEvolves(states, ops, m, n - 1, id);
      RunKeeps(states, ops, n - 1);
      StepEvolves(states[n - 1], ops[n - 1], states[n], id);
    }
  }

  // ---- Safety over every interleaving ----

  /** At any moment at most one issued lease of a task passes the ownership test: the last one issued. */
  lemma OwnerIsUnique(s: Queue, lease: Lease, other: Lease)
    requires Valid(s) && lease in s.issued && other in s.issued && lease.taskId == other.taskId && Owns(s, lease)
    ensures other.token <= lease.token && (Owns(s, other) ==> other == lease)
  {
    assert LeaseOk(s, other);
  }

  /** A lease that has once failed the ownership test never passes it again. */
  lemma StaleForever(states: seq<Queue>, ops: seq<Op>, m: nat, n: nat, lease: Lease)
    requires IsRun(states, ops) && Valid(states[0]) && m <= n <= |ops|
    requires lease in states[m].issued && !Owns(states[m], lease)
    ensures !Owns(states[n], lease)
  {
    RunKeeps(states, ops, m);
    assert LeaseOk(states[m], lease);
    RunEvolves(states, ops, m, n, lease.taskId);
  }

  /** Claiming a task for another worker makes every lease issued before stale. */
  lemma ClaimFencesOut(s: Queue, op: Op, t: Queue, earlier: Lease, granted: Lease)
    requires Valid(s) && op.Claim? && Step(s, op, t) && granted in t.issued - s.issued && earlier in s.issued
    requires earlier.taskId == granted.taskId
    ensures Owns(t, granted) && !Owns(t, earlier) && earlier.token < granted.token
  {
    assert LeaseOk(s, earlier);
  }

  /** A finished, failed or cancelled task never changes again, and keeps its one outcome. */
  lemma TerminalIsFinal(states: seq<Queue>, ops: seq<Op>, m: nat, n: nat, id: string)
    requires IsRun(states, ops) && Valid(states[0]) && m <= n <= |ops| && id in states[m].tasks
    requires Terminal(states[m].tasks[id].status)
    ensures id in states[n].tasks && states[n].tasks[id] == states[m].tasks[id]
  {
    RunEvolves(states, ops, m, n, id);
  }

  /** Once cancellation is requested the task never succeeds, fails or is claimed again. */
  lemma CancelledNeverRuns(states: seq<Queue>, ops: seq<Op>, m: nat, n: nat, id: string)
    requires IsRun(states, ops) && Valid(states[0]) && m <= n <= |ops| && id in states[m].tasks
    requires states[m].tasks[id].cancelRequested
    ensures id in states[n].tasks && states[n].tasks[id].cancelRequested
    ensures states[n].tasks[id].status !in {Succeeded, Failed}
    ensures states[n].tasks[id].fencing == states[m].tasks[id].fencing && states[n].tasks[id].result.None?
    ensures states[m].tasks[id].status == Queued ==> states[n].tasks[id] == states[m].tasks[id]
  {
    RunKeeps(states, ops, m);
    RunKeeps(states, ops, n);
    assert TaskOk(states[m], id);
    RunEvolves(states, ops, m, n, id);
    assert TaskOk(states[n], id);
  }

  // ---- When a cancellation takes effect ----

  /** A running task with a cancellation request: it waits with its lease, or is cancelled. */
  predicate Cancelling(a: Task, b: Task) {
    && a.cancelRequested && b.cancelRequested
    && ((b.status == Running && b.leaseUntil == a.leaseUntil) || b.status == Cancelled)
  }

  lemma FencedCancels(a: Task, op: Op, b: Task)
    requires Fenced(op) && FencedWrite(a, op, b) && a.status == Running && a.cancelRequested
    ensures Cancelling(a, b)
  {
  }

  lemma StepCancels(s: Queue, op: Op, t: Queue, id: string)
    requires Valid(s) && Step(s, op, t) && id in s.tasks && s.tasks[id].status == Running && s.tasks[id].cancelRequested
    ensures id in t.tasks && Cancelling(s.tasks[id], t.tasks[id])
    ensures op.ReconcileExpired? && Expired(s.tasks[id], op.now) ==> t.tasks[id].status == Cancelled
  {
    if Fenced(op) {
      FencedStep(s, op, t);
      hide Step;
      if Owns(s, op.lease) && id == op.lease.taskId {
        FencedCancels(s.tasks[id], op, t.tasks[id]);
      }
    }
  }

  /** A running task whose cancellation is requested keeps its lease unchanged until it is cancelled. */
  lemma {:induction false} RunCancels(states: seq<Queue>, ops: seq<Op>, m: nat, n: nat, id: string)
    requires IsRun(states, ops) && Valid(states[0]) && m <= n <= |ops| && id in states[m].tasks
    requires states[m].tasks[id].status == Running && states[m].tasks[id].cancelRequested
    ensures id in states[n].tasks && Cancelling(states[m].tasks[id], states[n].tasks[id])
    decreases n
  {
    hide Step, Valid;
    if m < n {
      RunCancels(states, ops, m, n - 1, id);
      RunKeeps(states, ops, n - 1);
      if states[n - 1].tasks[id].status == Running {
        StepCancels(states[n - 1], ops[n - 1], states[n], id);
      } else {
        StepEvolves(states[n - 1], ops[n - 1], states[n], id);
      }
    }
  }

  /** Recovery at a time later than the lease of the task, if it has one. */
  predicate RecoversAfter(op: Op, task: Task) {
    op.ReconcileExpired? && (task.leaseUntil.Some? ==> task.leaseUntil.value < op.now)
  }

  lemma RecoveryCancels(states: seq<Queue>, ops: seq<Op>, m: nat, k: nat, n: nat, id: string)
    requires IsRun(states, ops) && Valid(states[0]) && m <= k < n <= |ops| && id in states[m].tasks
    requires states[m].tasks[id].status == Running && states[m].tasks[id].cancelRequested
    requires RecoversAfter(ops[k], states[m].tasks[id])
    ensures id in states[n].tasks && states[n].tasks[id].status == Cancelled
  {
    hide Step;
    RunCancels(states, ops, m, k, id);
    RunKeeps(states, ops, k);
    assert TaskOk(states[k], id);
    if states[k].tasks[id].status == Running {
      StepCancels(states[k], ops[k], states[k + 1], id);
    } else {
      StepEvolves(states[k], ops[k], states[k + 1], id);
    }
    TerminalIsFinal(states, ops, k + 1, n, id);
  }

  /** After a recovery past the lease, a requested cancellation has taken effect exactly if the task was not queued. */
  lemma CancelsIffNotQueued(states: seq<Queue>, ops: seq<Op>, m: nat, k: nat, n: nat, id: string)
    requires IsRun(states, ops) && Valid(states[0]) && m <= k < n <= |ops| && id in states[m].tasks
    requires states[m].tasks[id].cancelRequested && RecoversAfter(ops[k], states[m].tasks[id])
    ensures id in states[n].tasks
    ensures states[n].tasks[id].status == Cancelled <==> states[m].tasks[id].status != Queued
  {
    RunKeeps(states, ops, m);
    assert TaskOk(states[m], id);
    hide Step, Valid;
    match states[m].tasks[id].status
    case Queued => CancelledNeverRuns(states, ops, m, n, id);
    case Running => RecoveryCancels(states, ops, m, k, n, id);
    case _ => TerminalIsFinal(states, ops, m, n, id);
  }

  function Time(op: Op): int {
    op.now
  }

  ghost predicate Clocked(ops: seq<Op>) {
    forall i, j | 0 <= i < j < |ops| :: Time(ops[i]) <= Time(ops[j])
  }

  /** The writes a worker makes with its own lease that may end or move it. */
  predicate GivesUp(op: Op, lease: Lease) {
    (op.Heartbeat? || op.Finish? || op.Fail?) && op.lease == lease
  }

  lemma LeaseSurvives(s: Queue, op: Op, t: Queue, lease: Lease)
    requires Valid(s) && Step(s, op, t) && Owns(s, lease) && lease in s.issued
    requires !GivesUp(op, lease)
    requires (s.tasks[lease.taskId].leaseUntil.Some? ==> Time(op) <= s.tasks[lease.taskId].leaseUntil.value)
    ensures Owns(t, lease) && t.tasks[lease.taskId].leaseUntil == s.tasks[lease.taskId].leaseUntil
  {
    assert TaskOk(s, lease.taskId);
    if Fenced(op) {
      FencedStep(s, op, t);
      hide Step;
    }
  }

  /** Until it expires a lease is exclusive: no claim, recovery or write by anyone else takes the task away. */
  lemma {:induction false} LeaseIsExclusive(states: seq<Queue>, ops: seq<Op>, m: nat, n: nat, lease: Lease)
    requires IsRun(states, ops) && Valid(states[0]) && Clocked(ops) && m <= n <= |ops|
    requires lease in states[m].issued && Owns(states[m], lease)
    requires forall i | m <= i < n :: !GivesUp(ops[i], lease)
    requires m < n && states[m].tasks[lease.taskId].leaseUntil.Some? ==>
      Time(ops[n - 1]) <= states[m].tasks[lease.taskId].leaseUntil.value
    ensures Owns(states[n], lease) && lease in states[n].issued
    ensures states[n].tasks[lease.taskId].leaseUntil == states[m].tasks[lease.taskId].leaseUntil
    decreases n
  {
    hide Step, Valid, GivesUp, Time;
    if m < n {
      assert m < n - 1 ==> Time(ops[n - 2]) <= Time(ops[n - 1]);
      LeaseIsExclusive(states, ops, m, n - 1, lease);
      RunKeeps(states, ops, n - 1);
      LeaseSurvives(states[n - 1], ops[n - 1], states[n], lease);
      StepIssues(states[n - 1], ops[n - 1], states[n]);
    }
  }

  /** The invariant in the protocol's own terms, in every state of every run from an empty table. */
  lemma ReachableTasks(states: seq<Queue>, ops: seq<Op>, n: nat, id: string)
    requires IsRun(states, ops) && states[0] == EMPTY && n <= |ops| && id in states[n].tasks
    ensures var task := states[n].tasks[id];
      && task.fencing == task.attempts
      && (task.result.Some? <==> task.status == Succeeded)
      && (task.status == Running ==> task.leaseOwner.Some?)
      && (task.status == Running ==> Owns(states[n], Lease(id, task.leaseOwner.value, task.fencing)))
      && (task.status == Running ==> Lease(id, task.leaseOwner.value, task.fencing) in states[n].issued)
      && (task.cancelRequested ==> task.status in {Queued, Running, Cancelled})
  {
    EmptyIsValid();
    RunKeeps(states, ops, n);
    assert TaskOk(states[n], id);
  }
}
