/** The task table, updated in place by workers, callers and crash recovery. */
module TaskQueue {
  import opened Outcomes
  import opened Ordering
  import opened Tasks

  class TaskTable {
    var tasks: map<string, Task>
    ghost var issued: set<Lease>

    ghost function Contents(): Queue
      reads this
    {
      Queue(tasks, issued)
    }

    constructor ()
      ensures Contents() == EMPTY
    {
      tasks, issued := map[], {};
    }

    /** A known idempotency key answers with the task it names; the empty key names none but must still be unique. */
    method EnqueueTask(newId: string, account: Option<string>, key: Option<string>, now: int)
      returns (answer: Result<string, Error>)
      modifies this`tasks
      ensures Step(old(Contents()), Enqueue(newId, account, key, now), Contents())
      ensures answer.Success? && KeyTaken(old(Contents()), key) ==>
        answer.value in tasks && tasks[answer.value].key == key && Contents() == old(Contents())
      ensures answer.Success? && !KeyTaken(old(Contents()), key) ==>
        answer.value == newId && newId !in old(tasks) && tasks == old(tasks)[newId := NewTask(account, key, now)]
      ensures answer.Failure? <==>
        (KeyTaken(old(Contents()), key) && key == Some("")) || (!KeyTaken(old(Contents()), key) && newId in old(tasks))
    {
      if key.Some? && key.value != "" {
        if exists id :: id in tasks && tasks[id].key == key {
          var existing :| existing in tasks && tasks[existing].key == key;
          return Success(existing);
        }
      }
      if newId in tasks || (key.Some? && exists id :: id in tasks && tasks[id].key == key) {
        return Failure(Integrity);
      }
      tasks := tasks[newId := NewTask(account, key, now)];
      return Success(newId);
    }

    /** The oldest task that may be claimed. */
    method OldestEligible(now: int) returns (oldest: Option<string>)
      ensures oldest.None? <==> NothingToClaim(Contents(), now)
      ensures oldest.Some? ==> CanClaim(Contents(), now, oldest.value)
    {
      oldest := None;
      var todo := tasks.Keys;
      while |todo| > 0
        invariant todo <= tasks.Keys
        invariant oldest.None? ==> forall id | id in tasks && id !in todo :: !Eligible(tasks[id], now)
        invariant oldest.Some? ==> oldest.value in tasks && Eligible(tasks[oldest.value], now)
        invariant oldest.Some? ==>
          forall id | id in tasks && id !in todo && Eligible(tasks[id], now) ::
          tasks[oldest.value].createdAt <= tasks[id].createdAt
        decreases |todo|
      {
        var id :| id in todo;
        todo := todo - {id};
        if Eligible(tasks[id], now) {
          if oldest.None? || tasks[id].createdAt < tasks[oldest.value].createdAt {
            oldest := Some(id);
          }
        }
      }
    }

    method ClaimNext(owner: string, seconds: int, now: int) returns (lease: Option<Lease>)
      modifies this
      ensures Step(old(Contents()), Claim(owner, seconds, now), Contents())
      ensures lease.None? <==> NothingToClaim(old(Contents()), now)
      ensures lease.Some? ==> CanClaim(old(Contents()), now, lease.value.taskId)
      ensures lease.Some? ==> Contents() == ClaimTask(old(Contents()), lease.value.taskId, owner, now + seconds)
      ensures lease.Some? ==>
        lease.value == Lease(lease.value.taskId, owner, old(tasks)[lease.value.taskId].fencing + 1)
        && Owns(Contents(), lease.value)
    {
      var oldest := OldestEligible(now);
      if oldest.None? {
        return None;
      }
      var task := tasks[oldest.value];
      task := task.(status := Running);
      task := task.(leaseOwner := Some(owner));
      task := task.(leaseUntil := Some(now + seconds));
      task := task.(fencing := task.fencing + 1);
      task := task.(attempts := task.attempts + 1);
      tasks := tasks[oldest.value := task];
      issued := issued + {Lease(oldest.value, owner, task.fencing)};
      return Some(Lease(oldest.value, owner, task.fencing));
    }
  
    /** The check in front of every fenced write. */
    method CheckOwned(lease: Lease) returns (answer: Result<Task, Error>)
      ensures answer.Success? <==> Owns(Contents(), lease)
      ensures answer.Success? ==> answer.value == tasks[lease.taskId]
      ensures answer == Failure(NotFound) <==> lease.taskId !in tasks
    {
      if lease.taskId !in tasks {
        return Failure(NotFound);
      }
      var task := tasks[lease.taskId];
      if task.leaseOwner != Some(lease.owner) || task.fencing != lease.token || task.status != Running {
        return Failure(Conflict);
      }
      return Success(task);
    }

    /**
     On a requested cancellation the status is written and an error raised; `committed` says whether the
     caller commits.
     */
    method SendHeartbeat(lease: Lease, seconds: int, now: int, committed: bool) returns (answer: Result<Task, Error>)
      modifies this`tasks
      ensures Step(old(Contents()), Heartbeat(lease, seconds, now), Contents())
      ensures answer.Success? <==> Owns(old(Contents()), lease) && !old(tasks)[lease.taskId].cancelRequested
      ensures answer.Failure? && (!committed || !Owns(old(Contents()), lease)) ==> tasks == old(tasks)
      ensures Owns(old(Contents()), lease) && old(tasks)[lease.taskId].cancelRequested && committed ==>
        tasks[lease.taskId].status == Cancelled
    {
      var task :- CheckOwned(lease);
      if task.cancelRequested {
        if committed {
          tasks := tasks[lease.taskId := task.(status := Cancelled)];
        }
        return Failure(Conflict);
      }
      task := task.(leaseUntil := Some(now + seconds));
      tasks := tasks[lease.taskId := task];
      return Success(task);
    }

    method ReportProgress(lease: Lease, value: int, now: int) returns (answer: Result<Task, Error>)
      modifies this`tasks
      ensures Step(old(Contents()), Progress(lease, value, now), Contents())
      ensures answer.Success? <==> Owns(old(Contents()), lease)
    {
      var task :- CheckOwned(lease);
      task := task.(progress := Clamp(value));
      tasks := tasks[lease.taskId := task];
      return Success(task);
    }

    method FinishTask(lease: Lease, result: string, now: int) returns (answer: Result<Task, Error>)
      modifies this`tasks
      ensures Step(old(Contents()), Finish(lease, result, now), Contents())
      ensures answer.Success? <==> Owns(old(Contents()), lease)
      ensures answer.Success? ==> lease.taskId in tasks && answer.value == tasks[lease.taskId]
    {
      var task :- CheckOwned(lease);
      if task.cancelRequested {
        task := task.(status := Cancelled);
      } else {
        task := task.(status := Succeeded);
        task := task.(progress := 100);
        task := task.(result := Some(result));
      }
      task := task.(leaseUntil := None);
      tasks := tasks[lease.taskId := task];
      return Success(task);
    }

    method FailTask(lease: Lease, error: string, now: int) returns (answer: Result<Task, Error>)
      modifies this`tasks
      ensures Step(old(Contents()), Fail(lease, error, now), Contents())
      ensures answer.Success? <==> Owns(old(Contents()), lease)
      ensures answer.Success? ==> lease.taskId in tasks && answer.value == tasks[lease.taskId]
    {
      var task :- CheckOwned(lease);
      task := task.(status := if !task.cancelRequested then Failed else Cancelled);
      task := task.(error := Some(error));
      task := task.(leaseUntil := None);
      tasks := tasks[lease.taskId := task];
      return Success(task);
    }

    /** Cancelling a task that is over answers with the task and changes nothing. */
    method Cancel(id: string, account: Option<string>, now: int) returns (answer: Result<Task, Error>)
      modifies this`tasks
      ensures Step(old(Contents()), RequestCancel(id, account, now), Contents())
      ensures answer == Failure(NotFound) <==> id !in old(tasks)
      ensures answer == Failure(Conflict) <==>
        id in old(tasks) && old(tasks)[id].account.Some? && old(tasks)[id].account != account
      ensures answer.Success? ==>
        answer.value == tasks[id] && (answer.value.cancelRequested || Terminal(answer.value.status))
    {
      if id !in tasks {
        return Failure(NotFound);
      }
      var task := tasks[id];
      if task.account.Some? && task.account != account {
        return Failure(Conflict);
      }
      if task.status in {Succeeded, Failed, Cancelled} {
        return Success(task);
      }
      task := task.(cancelRequested := true);
      tasks := tasks[id := task];
      return Success(task);
    }

    /** Takes the lease from one expired task. */
    method RecoverTask(id: string) returns (requeued: bool)
      requires id in tasks
      modifies this`tasks
      ensures tasks == old(tasks)[id := Recovered(old(tasks)[id])]
      ensures requeued <==> !old(tasks)[id].cancelRequested
    {
      var task := tasks[id].(leaseOwner := None);
      task := task.(leaseUntil := None);
      requeued := !task.cancelRequested;
      if task.cancelRequested {
        task := task.(status := Cancelled);
      } else {
        task := task.(status := Queued);
      }
      tasks := tasks[id := task];
    }

    /** Makes interrupted tasks runnable again. */
    method ReconcileExpiredTasks(now: int) returns (expired: nat, requeued: nat, cancelled: nat)
      modifies this`tasks
      ensures Step(old(Contents()), ReconcileExpired(now), Contents())
      ensures expired == |ExpiredIds(old(tasks), now)| == requeued + cancelled
      ensures cancelled == |CancelledIds(old(tasks), now)|
    {
      hide Sweep, Step, ExpiredIds, CancelledIds, Recovered;
      ghost var before := tasks;
      var todo := ExpiredIds(tasks, now);
      expired, requeued, cancelled := |todo|, 0, 0;
      SweepStart(before, now);
      while |todo| > 0
        invariant Sweep(before, now, tasks, todo, requeued, cancelled)
        decreases |todo|
      {
        var id :| id in todo;
        SweepStep(before, now, tasks, todo, requeued, cancelled, id);
        var again := RecoverTask(id);
        if again {
          requeued := requeued + 1;
        } else {
          cancelled := cancelled + 1;
        }
        todo := todo - {id};
      }
      SweepDone(before, now, tasks, todo, requeued, cancelled, issued);
    }
  }

  function ExpiredIds(tasks: map<string, Task>, now: int): set<string> {
    set id | id in tasks && Expired(tasks[id], now)
  }

  /** The expired tasks whose cancellation was requested. */
  function CancelledIds(tasks: map<string, Task>, now: int): set<string> {
    set id | id in tasks && Expired(tasks[id], now) && tasks[id].cancelRequested
  }

  /** All expired tasks but those in `todo` are recovered and counted, the others untouched. */
  ghost predicate Sweep(
    before: map<string, Task>, now: int, tasks: map<string, Task>, todo: set<string>, requeued: nat, cancelled: nat)
  {
    && tasks.Keys == before.Keys && todo <= ExpiredIds(before, now)
    && (forall id | id in tasks ::
      tasks[id] == if id in ExpiredIds(before, now) - todo then Recovered(before[id]) else before[id])
    && requeued + cancelled + |todo| == |ExpiredIds(before, now)|
    && cancelled == |CancelledIds(before, now) * (ExpiredIds(before, now) - todo)|
  }

  lemma SweepStart(before: map<string, Task>, now: int)
    ensures Sweep(before, now, before, ExpiredIds(before, now), 0, 0)
  {
    assert ExpiredIds(before, now) - ExpiredIds(before, now) == {};
  }

  lemma SweepStep(
    before: map<string, Task>, now: int, tasks: map<string, Task>, todo: set<string>, requeued: nat, cancelled: nat,
    id: string)
    requires Sweep(before, now, tasks, todo, requeued, cancelled) && id in todo
    ensures id in tasks && var moved := tasks[id := Recovered(tasks[id])];
      if tasks[id].cancelRequested then Sweep(before, now, moved, todo - {id}, requeued, cancelled + 1)
      else Sweep(before, now, moved, todo - {id}, requeued + 1, cancelled)
  {
    hide ExpiredIds, CancelledIds, Recovered;
    var done := ExpiredIds(before, now) - todo;
    assert ExpiredIds(before, now) - (todo - {id}) == done + {id};
    ExpiredOrCancelled(before, now, id);
    CountOne(CancelledIds(before, now), done, id);
  }

  lemma ExpiredOrCancelled(tasks: map<string, Task>, now: int, id: string)
    requires id in ExpiredIds(tasks, now)
    ensures id in tasks && (id in CancelledIds(tasks, now) <==> tasks[id].cancelRequested)
  {
  }

  lemma SweepDone(
    before: map<string, Task>, now: int, tasks: map<string, Task>, todo: set<string>, requeued: nat, cancelled: nat,
    issued: set<Lease>)
    requires Sweep(before, now, tasks, todo, requeued, cancelled) && |todo| == 0
    ensures Step(Queue(before, issued), ReconcileExpired(now), Queue(tasks, issued))
    ensures |ExpiredIds(before, now)| == requeued + cancelled && cancelled == |CancelledIds(before, now)|
  {
    assert CancelledIds(before, now) * (ExpiredIds(before, now) - todo) == CancelledIds(before, now);
  }
}
