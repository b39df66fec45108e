/** What no sequence of review requests changes, and the statement the transition matrix alone does not give. */
module ReviewRuns {
  import opened Outcomes
  import opened Reviews
  import opened Aggregates

  // ---- What a run never changes ----

  /** `t` keeps the identity, the history and the progress of review `id` of `s`. */
  ghost predicate Continues(s: Store, t: Store, id: string)
    requires id in s.reviews
  {
    && id in t.reviews
    && t.reviews[id].account == s.reviews[id].account && t.reviews[id].key == s.reviews[id].key
    && t.reviews[id].requestId == s.reviews[id].requestId
    && s.reviews[id].current <= t.reviews[id].current
    && (s.reviews[id].published.Some? ==>
      t.reviews[id].published.Some? && s.reviews[id].published.value <= t.reviews[id].published.value)
    && (s.reviews[id].status != Draft ==> t.reviews[id].status != Draft)
    && (t.reviews[id].status == Withdrawn ==> s.reviews[id].status == Withdrawn)
    && (forall n: Number | n <= s.reviews[id].current ::
      (id, n) in t.revisions && (id, n) in s.revisions && t.revisions[(id, n)] == s.revisions[(id, n)])
  }

  lemma Unchanged(s: Store, id: string)
    requires WellFormed(s) && id in s.reviews
    ensures Continues(s, s, id)
  {
    assert ReviewOk(s, id);
  }

  lemma CreationContinues(
    s: Store, actor: string, input: ReviewInput, requestId: Option<string>, newId: string, id: string)
    requires WellFormed(s) && id in s.reviews && newId !in s.reviews
    ensures Continues(s, NewReview(s, actor, input, requestId, newId), id)
  {
    assert ReviewOk(s, id);
  }

  lemma EditContinues(s: Store, actor: string, target: string, input: ReviewInput, expected: int, id: string)
    requires WellFormed(s) && id in s.reviews && Edited(s, actor, target, input, expected).Success?
    ensures Continues(s, Edited(s, actor, target, input, expected).value, id)
  {
    assert ReviewOk(s, id);
  }

  lemma TransitionContinues(s: Store, moved: string, target: Status, id: string)
    requires WellFormed(s) && id in s.reviews && moved in s.reviews && target != Draft && target != Withdrawn
    requires Transitioned(s, moved, target).Success?
    ensures Continues(s, Transitioned(s, moved, target).value, id)
  {
    hide WithoutApproved, Adjusted;
    assert ReviewOk(s, id);
  }

  lemma ApplyContinues(s: Store, op: Op, id: string)
    requires Valid(s) && id in s.reviews
    ensures Continues(s, Apply(s, op).1, id)
  {
    Unchanged(s, id);
    match op
    case Create(actor, input, requestId, newId) =>
      if Created(s, actor, input, requestId, newId).1 != s {
        CreationContinues(s, actor, input, requestId, newId, id);
      }
    case Edit(actor, target, input, expected) =>
      if Edited(s, actor, target, input, expected).Success? {
        EditContinues(s, actor, target, input, expected, id);
      }
    case Submit(actor, moved) =>
      if SubmitReview(s, actor, moved).Success? {
        TransitionContinues(s, moved, Submitted, id);
      }
    case Moderate(isModerator, moved, target) =>
      if ModerateReview(s, isModerator, moved, target).Success? {
        TransitionContinues(s, moved, target, id);
      }
  }

  /** No request removes a review, rewrites a revision, withdraws a review or sends it back to draft. */
  lemma {:induction false} RunContinues(s: Store, ops: seq<Op>, id: string)
    requires Valid(s) && id in s.reviews
    ensures Continues(s, Run(s, ops), id)
    decreases |ops|
  {
    assert ReviewOk(s, id);
    if ops != [] {
      ApplyKeeps(s, ops[0]);
      ApplyContinues(s, ops[0], id);
      RunContinues(Apply(s, ops[0]).1, ops[1..], id);
    }
  }

  /**
   A repeated creation request with the same idempotency key answers with the first review and changes
   nothing, whatever happened between.
   */
  lemma RetriedCreation(
    s: Store, actor: string, input: ReviewInput, requestId: string, id: string, ops: seq<Op>, again: ReviewInput,
    newId: string)
    requires Valid(s) && requestId != "" && again.fields.InRange()
    requires Created(s, actor, input, Some(requestId), id).0 == Success(id)
    ensures var t := Run(Created(s, actor, input, Some(requestId), id).1, ops);
      Created(t, actor, again, Some(requestId), newId) == (Success(id), t)
  {
    var first := Created(s, actor, input, Some(requestId), id).1;
    assert first == Apply(s, Create(actor, input, Some(requestId), id)).1;
    ApplyKeeps(s, Create(actor, input, Some(requestId), id));
    RunKeeps(first, ops);
    RunContinues(first, ops, id);
    var t := Run(first, ops);
    assert Replays(t, Some(requestId), id);
    assert forall other | Replays(t, Some(requestId), other) :: other == id;
  }

  /** Exactly when a request adds a new review. */
  lemma CreatesIff(s: Store, actor: string, input: ReviewInput, requestId: Option<string>, id: string)
    requires WellFormed(s) && id !in s.reviews
    ensures Created(s, actor, input, requestId, id) == (Success(id), NewReview(s, actor, input, requestId, id))
      <==> input.fields.InRange() && !Taken(s, actor, (input.courseId, input.termId)) && !Requested(s, requestId)
  {
    if existing :| Replays(s, requestId, existing) {
      assert Requested(s, requestId) && existing != id;
    }
  }

  /**
   The duplicate policy lets a new contribution through after a rejected one, but the table constraint then
   refuses it.
   */
  lemma ResubmissionIsRefused(
    s: Store, actor: string, input: ReviewInput, requestId: Option<string>, id: string, rejected: string)
    requires WellFormed(s) && input.fields.InRange() && id !in s.reviews
    requires rejected in s.reviews && s.reviews[rejected].status == Rejected
    requires SameContribution(s.reviews[rejected], actor, (input.courseId, input.termId))
    requires forall existing :: !Replays(s, requestId, existing)
    ensures Created(s, actor, input, requestId, id) == (Failure(Integrity), s)
  {
    assert Taken(s, actor, (input.courseId, input.termId));
  }

  // ---- Rejected reviews in the statistics ----

  /** A rejected review counts exactly if an earlier revision of it was approved. */
  lemma RejectedCounts(s: Store, id: string)
    requires Valid(s) && id in s.reviews && s.reviews[id].status == Rejected
    ensures Contributes(s, s.reviews[id].key, id) <==> s.reviews[id].published.Some?
  {
    assert ReviewOk(s, id);
  }

  ghost predicate RejectedButCounted(ops: seq<Op>, id: string) {
    var s := Run(EMPTY, ops);
    id in s.reviews && s.reviews[id].status == Rejected && Contributes(s, s.reviews[id].key, id)
  }

  /** Rejecting the edit of a published review leaves such a review. */
  lemma RejectedMayCount()
    ensures exists ops :: RejectedButCounted(ops, "r")
  {
    var create, submit := Create("alice", INPUT, None, "r"), Submit("alice", "r");
    var publish, edit, reject := Moderate(true, "r", Published), Edit("alice", "r", INPUT, 1), Moderate(true, "r",
      Rejected);
    CreateStage();
    hide Apply, Stage, Contributes;
    var s1 := Apply(EMPTY, create).1;
    var s2 := Apply(s1, submit).1;
    var s3 := Apply(s2, publish).1;
    var s4 := Apply(s3, edit).1;
    TransitionStage(s1, submit, Draft, 1, None, Submitted);
    TransitionStage(s2, publish, Submitted, 1, None, Published);
    EditStage(s3);
    TransitionStage(s4, reject, Submitted, 2, Some(1), Rejected);
    RunOfFour(EMPTY, create, submit, publish, edit);
    RunAppend(EMPTY, [create, submit, publish, edit], reject);
    RejectedStageCounts(Apply(s4, reject).1);
    assert RejectedButCounted([create, submit, publish, edit] + [reject], "r");
  }

  lemma RejectedStageCounts(s: Store)
    requires Stage(s, Rejected, 2, Some(1))
    ensures "r" in s.reviews && s.reviews["r"].status == Rejected && Contributes(s, s.reviews["r"].key, "r")
  {
    RejectedCounts(s, "r");
  }

  lemma {:induction false} RunAppend(s: Store, ops: seq<Op>, last: Op)
    ensures Run(s, ops + [last]) == Apply(Run(s, ops), last).1
    decreases |ops|
  {
    hide Apply;
    if ops == [] {
      assert [] + [last] == [last] && [last][1..] == [];
    } else {
      RunAppend(Apply(s, ops[0]).1, ops[1..], last);
      assert (ops + [last])[1..] == ops[1..] + [last];
    }
  }

  // ---- The matrix entry no operation uses ----

  ghost predicate Stage(s: Store, status: Status, current: Number, published: Option<Number>) {
    && Valid(s) && "r" in s.reviews && s.reviews["r"].account == "alice"
    && s.reviews["r"].status == status && s.reviews["r"].current == current && s.reviews["r"].published == published
  }

  const INPUT := ReviewInput("CS180", "F25", Revision("Ada", 4, 3, 10, true))

  lemma CreateStage()
    ensures Stage(Apply(EMPTY, Create("alice", INPUT, None, "r")).1, Draft, 1, None)
  {
    EmptyStoreIsValid();
    CreatesIff(EMPTY, "alice", INPUT, None, "r");
    ApplyKeeps(EMPTY, Create("alice", INPUT, None, "r"));
  }

  lemma TransitionStage(s: Store, op: Op, status: Status, current: Number, published: Option<Number>, target: Status)
    requires Stage(s, status, current, published) && target in Transitions(status)
    requires (op == Submit("alice", "r") && target == Submitted)
      || (op == Moderate(true, "r", target) && target in {Published, Hidden, Rejected})
    ensures Stage(Apply(s, op).1, target, current, if target == Published then Some(current) else published)
  {
    TransitionAnswers(s, "r", target);
    ApplyKeeps(s, op);
    hide Valid;
  }

  lemma EditStage(s: Store)
    requires Stage(s, Published, 1, Some(1))
    ensures Stage(Apply(s, Edit("alice", "r", INPUT, 1)).1, Submitted, 2, Some(1))
  {
    ApplyKeeps(s, Edit("alice", "r", INPUT, 1));
    hide Valid;
  }

  ghost predicate Drifts(ops: seq<Op>, id: string) {
    var s := Run(EMPTY, ops);
    id in s.reviews && Transitioned(s, id, Draft).Success? && !Agrees(Transitioned(s, id, Draft).value)
  }

  lemma ApprovedStageDrifts(s: Store)
    requires Stage(s, Submitted, 2, Some(1))
    ensures Transitioned(s, "r", Draft).Success? && !Agrees(Transitioned(s, "r", Draft).value)
  {
    TransitionAnswers(s, "r", Draft);
    TransitionAgrees(s, "r", Draft);
  }

  lemma RunStep(s: Store, op: Op, rest: seq<Op>)
    ensures Run(s, [op] + rest) == Run(Apply(s, op).1, rest)
  {
    assert ([op] + rest)[1..] == rest;
  }

  lemma RunOfFour(s: Store, a: Op, b: Op, c: Op, d: Op)
    ensures Run(s, [a, b, c, d]) == Apply(Apply(Apply(Apply(s, a).1, b).1, c).1, d).1
  {
    hide Apply;
    assert [a, b, c, d] == [a] + ([b] + ([c] + ([d] + [])));
    RunStep(s, a, [b] + ([c] + ([d] + [])));
    RunStep(Apply(s, a).1, b, [c] + ([d] + []));
    RunStep(Apply(Apply(s, a).1, b).1, c, [d] + []);
    RunStep(Apply(Apply(Apply(s, a).1, b).1, c).1, d, []);
  }

  /** The matrix allows a return to draft; after an edit of a published review it would leave a stale row. */
  lemma ReturnToDraftWouldDrift()
    ensures exists ops :: Drifts(ops, "r")
  {
    var create, submit := Create("alice", INPUT, None, "r"), Submit("alice", "r");
    var publish, edit := Moderate(true, "r", Published), Edit("alice", "r", INPUT, 1);
    CreateStage();
    hide Apply, Stage, Agrees, Transitioned;
    var s1 := Apply(EMPTY, create).1;
    var s2 := Apply(s1, submit).1;
    var s3 := Apply(s2, publish).1;
    TransitionStage(s1, submit, Draft, 1, None, Submitted);
    TransitionStage(s2, publish, Submitted, 1, None, Published);
    EditStage(s3);
    ApprovedStageDrifts(Apply(s3, edit).1);
    RunOfFour(EMPTY, create, submit, publish, edit);
    StageHolds(Apply(s3, edit).1);
    assert Drifts([create, submit, publish, edit], "r");
  }

  lemma StageHolds(s: Store)
    requires Stage(s, Submitted, 2, Some(1))
    ensures "r" in s.reviews
  {
  }
}
