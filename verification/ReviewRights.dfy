/** Who may change a review and how far the requests lead: rights, origins of revisions, and the reachable states. */
module ReviewRights {
  import opened Aggregates
  import opened Outcomes
  import opened ReviewRuns
  import opened Reviews
  import opened Sums

  // ---- Who may change what ----

  /** The request comes from someone entitled to it and names the state it means to change. */
  ghost predicate Entitled(s: Store, op: Op) {
    match op
    case Create(actor, input, _, newId) =>
      newId !in s.reviews && forall id | id in s.reviews :: !SameContribution(s.reviews[id], actor,
        (input.courseId, input.termId))
    case Edit(actor, id, _, expected) =>
      id in s.reviews && s.reviews[id].account == actor && s.reviews[id].current == expected
    case Submit(actor, id) => id in s.reviews && s.reviews[id].account == actor
    case Moderate(isModerator, id, _) => isModerator && id in s.reviews
  }

  lemma ChangesAreEntitled(s: Store, op: Op)
    requires Apply(s, op).1 != s
    ensures Entitled(s, op)
  {
  }

  /** In every sequence of requests each change was made by someone entitled to it. */
  lemma RunIsEntitled(s: Store, ops: seq<Op>, k: nat)
    requires k < |ops| && Run(s, ops[..k + 1]) != Run(s, ops[..k])
    ensures Entitled(Run(s, ops[..k]), ops[k])
  {
    RunAppend(s, ops[..k], ops[k]);
    assert ops[..k + 1] == ops[..k] + [ops[k]];
    ChangesAreEntitled(Run(s, ops[..k]), ops[k]);
  }

  // ---- When a request succeeds ----

  /** The owner may edit with the current revision number and fields in range, unless the review is withdrawn. */
  lemma EditIff(s: Store, actor: string, id: string, input: ReviewInput, expected: int)
    ensures Edited(s, actor, id, input, expected).Success? <==>
      input.fields.professor != "" && 1 <= input.fields.difficulty <= 5 && 1 <= input.fields.overall <= 5
      && input.fields.workload >= 0 && id in s.reviews && s.reviews[id].account == actor
      && s.reviews[id].current == expected && s.reviews[id].status != Withdrawn
    ensures Edited(s, actor, id, input, expected).Success? ==>
      var a, t := s.reviews[id], Edited(s, actor, id, input, expected).value;
      && id in t.reviews && t.reviews[id].current == a.current + 1 && t.reviews[id].published == a.published
      && (id, a.current + 1) in t.revisions && t.revisions[(id, a.current + 1)] == input.fields
      && t.reviews[id].status == (if a.status == Published then Submitted else a.status)
      && (forall other | other in s.reviews && other != id ::
        other in t.reviews && t.reviews[other] == s.reviews[other])
  {
  }

  /** The owner may submit a draft, a rejected or a published review. */
  lemma SubmitIff(s: Store, actor: string, id: string)
    requires Valid(s)
    ensures SubmitReview(s, actor, id).Success? <==>
      id in s.reviews && s.reviews[id].account == actor
      && (s.reviews[id].status == Draft || s.reviews[id].status == Rejected || s.reviews[id].status == Published)
    ensures SubmitReview(s, actor, id).Success? ==>
      SubmitReview(s, actor, id).value == SetReview(s, id, s.reviews[id].(status := Submitted))
  {
    if id in s.reviews {
      TransitionAnswers(s, id, Submitted);
    }
  }

  /** A moderator publishes what is submitted or hidden, rejects what is submitted and hides what is published. */
  lemma ModerateIff(s: Store, isModerator: bool, id: string, target: Status)
    requires Valid(s)
    ensures ModerateReview(s, isModerator, id, target).Success? <==>
      isModerator && id in s.reviews
      && ((target == Published && (s.reviews[id].status == Submitted || s.reviews[id].status == Hidden))
          || (target == Rejected && s.reviews[id].status == Submitted)
          || (target == Hidden && s.reviews[id].status == Published))
    ensures ModerateReview(s, isModerator, id, target).Success? ==>
      var a, t := s.reviews[id], ModerateReview(s, isModerator, id, target).value;
      t.reviews == s.reviews[id :=
        a.(status := target, published := if target == Published then Some(a.current) else a.published)]
      && t.revisions == s.revisions
  {
    if id in s.reviews {
      TransitionAnswers(s, id, target);
      assert ReviewOk(s, id);
    }
  }

  /** Which error answers a refused edit, submission or moderation. */
  lemma RefusalsAreNamed(
    s: Store, actor: string, isModerator: bool, id: string, input: ReviewInput, expected: int, target: Status)
    requires Valid(s)
    ensures var edit := Edited(s, actor, id, input, expected);
      && (edit == Failure(InvalidFields) <==> !input.fields.InRange())
      && (edit == Failure(NotFound) <==> input.fields.InRange() && id !in s.reviews)
      && (edit == Failure(Denied) <==> input.fields.InRange() && id in s.reviews && s.reviews[id].account != actor)
      && (edit.Failure? ==> edit.error in {InvalidFields, NotFound, Denied, Conflict})
    ensures var submit := SubmitReview(s, actor, id);
      && (submit == Failure(NotFound) <==> id !in s.reviews)
      && (submit == Failure(Denied) <==> id in s.reviews && s.reviews[id].account != actor)
      && (submit.Failure? ==> submit.error in {NotFound, Denied, Conflict})
    ensures var moderate := ModerateReview(s, isModerator, id, target);
      && (moderate == Failure(Denied) <==> !isModerator)
      && (moderate == Failure(NotFound) <==> isModerator && id !in s.reviews)
      && (moderate == Failure(InvalidFields) <==>
        isModerator && id in s.reviews && target != Published && target != Hidden && target != Rejected)
      && (moderate.Failure? ==> moderate.error in {NotFound, Denied, InvalidFields, Conflict})
  {
    if id in s.reviews {
      TransitionAnswers(s, id, Submitted);
      TransitionAnswers(s, id, target);
    }
  }

  ghost predicate NoReplay(s: Store, requestId: Option<string>) {
    forall existing :: !Replays(s, requestId, existing)
  }

  /** Which error answers a creation that adds nothing new. */
  lemma CreationIsRefused(
    s: Store, actor: string, input: ReviewInput, requestId: Option<string>, id: string, other: string)
    requires Valid(s) && input.fields.InRange() && other in s.reviews && id !in s.reviews
    ensures Replays(s, requestId, other) && s.reviews[other].account != actor ==>
      Created(s, actor, input, requestId, id) == (Failure(Conflict), s)
    ensures var key := (input.courseId, input.termId);
      SameContribution(s.reviews[other], actor, key) && s.reviews[other].status != Rejected
        && NoReplay(s, requestId) ==>
      Created(s, actor, input, requestId, id) == (Failure(Conflict), s)
  {
    if Replays(s, requestId, other) {
      assert forall existing | Replays(s, requestId, existing) :: existing == other;
    }
  }

  // ---- Every review can be published ----

  /** At most two requests, one of the owner and one of a moderator, publish the current revision of any review. */
  lemma CanBePublished(s: Store, id: string) returns (ops: seq<Op>)
    requires Valid(s) && id in s.reviews && s.reviews[id].status != Withdrawn
    ensures |ops| <= 2
    ensures forall op | op in ops :: op == Submit(s.reviews[id].account, id) || op == Moderate(true, id, Published)
    ensures var t := Run(s, ops);
      && Valid(t) && id in t.reviews && t.reviews[id].status == Published
      && t.reviews[id].published == Some(s.reviews[id].current) && t.reviews[id].current == s.reviews[id].current
  {
    hide Apply, Valid;
    var submit, publish := Submit(s.reviews[id].account, id), Moderate(true, id, Published);
    var status := s.reviews[id].status;
    if status == Hidden || status == Submitted {
      ops := [publish];
      PublishStep(s, id);
      RunStep(s, publish, []);
      assert [publish] + [] == [publish];
    } else {
      ops := [submit, publish];
      SubmitStep(s, id);
      PublishStep(Apply(s, submit).1, id);
      RunStep(s, submit, [publish]);
      RunStep(Apply(s, submit).1, publish, []);
      assert [submit] + [publish] == ops && [publish] + [] == [publish];
    }
  }

  lemma SubmitStep(s: Store, id: string)
    requires Valid(s) && id in s.reviews && s.reviews[id].status in {Draft, Rejected, Published}
    ensures var t := Apply(s, Submit(s.reviews[id].account, id)).1;
      && Valid(t) && id in t.reviews && t.reviews[id] == s.reviews[id].(status := Submitted)
  {
    SubmitIff(s, s.reviews[id].account, id);
    ApplyKeeps(s, Submit(s.reviews[id].account, id));
  }

  lemma PublishStep(s: Store, id: string)
    requires Valid(s) && id in s.reviews && s.reviews[id].status in {Submitted, Hidden}
    ensures var t := Apply(s, Moderate(true, id, Published)).1;
      && Valid(t) && id in t.reviews
      && t.reviews[id] == s.reviews[id].(status := Published, published := Some(s.reviews[id].current))
  {
    ModerateIff(s, true, id, Published);
    ApplyKeeps(s, Moderate(true, id, Published));
  }

  // ---- Where revisions and approvals come from ----

  /** Request `k` stored revision `n` of the review, and its sender owns the review. */
  ghost predicate WrittenAt(ops: seq<Op>, k: int, id: string, account: string, n: Number, fields: Revision) {
    0 <= k < |ops| && match ops[k]
      case Create(actor, input, _, newId) => newId == id && actor == account && n == 1 && input.fields == fields
      case Edit(actor, target, input, expected) =>
        target == id && actor == account && n == expected + 1 && input.fields == fields
      case _ => false
  }

  /** Request `k` of a moderator published the review when revision `n` was its current one. */
  ghost predicate ApprovedAt(ops: seq<Op>, k: int, id: string, n: Number) {
    && 0 <= k < |ops| && ops[k] == Moderate(true, id, Published)
    && id in Run(EMPTY, ops[..k]).reviews && Run(EMPTY, ops[..k]).reviews[id].current == n
  }

  /** What one request may do to the revisions and to the approved revision of a review. */
  lemma ApplyWrites(s: Store, op: Op, id: string, n: Number)
    requires Valid(s) && id in Apply(s, op).1.reviews
    ensures var t := Apply(s, op).1;
      (id, n) in t.revisions && !((id, n) in s.revisions && s.revisions[(id, n)] == t.revisions[(id, n)]) ==>
        WrittenAt([op], 0, id, t.reviews[id].account, n, t.revisions[(id, n)])
    ensures var t := Apply(s, op).1;
      t.reviews[id].published == Some(n) && !(id in s.reviews && s.reviews[id].published == Some(n)) ==>
        op == Moderate(true, id, Published) && id in s.reviews && s.reviews[id].current == n
    ensures id in s.reviews ==> Apply(s, op).1.reviews[id].account == s.reviews[id].account
  {
    match op
    case Submit(actor, target) => SubmitIff(s, actor, target);
    case Moderate(isModerator, target, status) => ModerateIff(s, isModerator, target, status);
    case _ =>
  }

  /** Every stored revision was written by the owner of its review, as its creation or as an edit. */
  lemma {:induction false} RevisionsAreOwners(ops: seq<Op>, id: string, n: Number) returns (k: nat)
    requires id in Run(EMPTY, ops).reviews && (id, n) in Run(EMPTY, ops).revisions
    ensures WrittenAt(ops, k, id, Run(EMPTY, ops).reviews[id].account, n, Run(EMPTY, ops).revisions[(id, n)])
    decreases |ops|
  {
    hide Apply, Valid;
    var front, last := LastRequest(ops);
    var s := Run(EMPTY, front);
    ApplyWrites(s, last, id, n);
    k := |ops| - 1;
    if (id, n) in s.revisions && s.revisions[(id, n)] == Run(EMPTY, ops).revisions[(id, n)] {
      RevisionHasReview(s, id, n);
      k := RevisionsAreOwners(front, id, n);
    }
  }

  /** Every approved revision was published by a moderator while it was the current one. */
  lemma {:induction false} ApprovalsAreModerators(ops: seq<Op>, id: string) returns (k: nat)
    requires id in Run(EMPTY, ops).reviews && Run(EMPTY, ops).reviews[id].published.Some?
    ensures ApprovedAt(ops, k, id, Run(EMPTY, ops).reviews[id].published.value)
    decreases |ops|
  {
    hide Apply, Valid;
    var front, last := LastRequest(ops);
    var s, n := Run(EMPTY, front), Run(EMPTY, ops).reviews[id].published.value;
    ApplyWrites(s, last, id, n);
    k := |ops| - 1;
    assert ops[..k] == front;
    if id in s.reviews && s.reviews[id].published == Some(n) {
      k := ApprovalsAreModerators(front, id);
      assert front[..k] == ops[..k];
    }
  }

  lemma LastRequest(ops: seq<Op>) returns (front: seq<Op>, last: Op)
    requires Run(EMPTY, ops) != EMPTY
    ensures ops != [] && front == ops[..|ops| - 1] && last == ops[|ops| - 1] && ops == front + [last]
    ensures Run(EMPTY, ops) == Apply(Run(EMPTY, front), last).1 && Valid(Run(EMPTY, front))
  {
    front, last := ops[..|ops| - 1], ops[|ops| - 1];
    RunAppend(EMPTY, front, last);
    EmptyStoreIsValid();
    RunKeeps(EMPTY, front);
  }

  lemma RevisionHasReview(s: Store, id: string, n: Number)
    requires Valid(s) && (id, n) in s.revisions
    ensures id in s.reviews
  {
  }

  /** Every stored revision names a professor and keeps the rating scales. */
  lemma RevisionsInScale(ops: seq<Op>, id: string, n: Number)
    requires (id, n) in Run(EMPTY, ops).revisions
    ensures var r := Run(EMPTY, ops).revisions[(id, n)];
      r.professor != "" && 1 <= r.overall <= 5 && 1 <= r.difficulty <= 5 && r.workload >= 0
  {
    EmptyStoreIsValid();
    RunKeeps(EMPTY, ops);
  }

  /** A new review is a draft of its author with one revision, the submitted fields, and nothing else changes. */
  lemma CreatedIsDraft(s: Store, actor: string, input: ReviewInput, requestId: Option<string>, id: string)
    requires Created(s, actor, input, requestId, id).1 != s
    ensures var t := Created(s, actor, input, requestId, id).1;
      && Created(s, actor, input, requestId, id).0 == Success(id) && id !in s.reviews && t.rows == s.rows
      && t.reviews == s.reviews[id := Review(actor, (input.courseId, input.termId), Draft, 1, None, requestId)]
      && t.revisions == s.revisions[(id, 1) := input.fields]
  {
  }

  // ---- What the statistics add up ----

  /** The reviews that count for the key. */
  ghost function Counted(s: Store, key: Key): set<string> {
    set id | id in s.reviews && Contributes(s, key, id)
  }

  ghost predicate Public(s: Store, key: Key, id: string) {
    && id in s.reviews && s.reviews[id].key == key && s.reviews[id].published.Some?
    && (s.reviews[id].status == Published || s.reviews[id].status == Submitted || s.reviews[id].status == Rejected)
  }

  /** The approved revision, for a review that has one. */
  ghost function ApprovedOf(s: Store, id: string): Revision {
    if id in s.reviews && s.reviews[id].published.Some? && (id, s.reviews[id].published.value) in s.revisions
    then s.revisions[(id, s.reviews[id].published.value)] else Revision("", 0, 0, 0, false)
  }

  /** A row counts the public reviews of its course and term. */
  lemma RowsCountPublic(s: Store, key: Key)
    requires Valid(s)
    ensures forall id :: id in Counted(s, key) <==> Public(s, key, id)
    ensures key in s.rows <==> Counted(s, key) != {}
    ensures key in s.rows ==> s.rows[key].totals.count == |Counted(s, key)|
  {
    forall id | Public(s, key, id) ensures id in Counted(s, key) {
      assert ReviewOk(s, id);
    }
    assert AgreesAt(s, key);
    var one := (id: string) => 1;
    ShareSum(s, key, Count, one);
    SumOfOnes(Counted(s, key), one);
  }

  lemma {:induction false} SumOfOnes(ids: set<string>, one: string -> int)
    requires forall id :: one(id) == 1
    ensures SumOver(ids, one) == |ids|
    decreases |ids|
  {
    if ids != {} {
      var id :| id in ids;
      SumRemove(ids, one, id);
      SumOfOnes(ids - {id}, one);
    }
  }

  /** The ratings a row adds up, read off the approved revisions by name. */
  ghost function RatingOf(s: Store, m: Measure): string -> int {
    match m
    case Count => (id: string) => 1
    case Overall => (id: string) => ApprovedOf(s, id).overall
    case Difficulty => (id: string) => ApprovedOf(s, id).difficulty
    case Workload => (id: string) => ApprovedOf(s, id).workload
    case Recommend => (id: string) => if ApprovedOf(s, id).recommend then 1 else 0
  }

  /** Every sum in a row is the sum of that rating over the approved revisions of the reviews it counts. */
  lemma RowsAreSums(s: Store, key: Key)
    requires Valid(s) && key in s.rows
    ensures var totals, ids := s.rows[key].totals, Counted(s, key);
      && totals.overall == SumOver(ids, RatingOf(s, Overall))
      && totals.difficulty == SumOver(ids, RatingOf(s, Difficulty))
      && totals.workload == SumOver(ids, RatingOf(s, Workload))
      && totals.recommend == SumOver(ids, RatingOf(s, Recommend))
  {
    assert AgreesAt(s, key);
    hide Valid, Counted, RatingOf, SumOver, Total;
    RatingSum(s, key, Overall);
    RatingSum(s, key, Difficulty);
    RatingSum(s, key, Workload);
    RatingSum(s, key, Recommend);
  }

  lemma RatingSum(s: Store, key: Key, m: Measure)
    ensures Total(s, key, m) == SumOver(Counted(s, key), RatingOf(s, m))
  {
    ShareSum(s, key, m, RatingOf(s, m));
  }

  /** A row counts its updates: one for a first publication, one for a review that is hidden. */
  lemma UpdatesAreCounted(s: Store, id: string)
    requires Valid(s) && id in s.reviews
    ensures var review, t := s.reviews[id], Apply(s, Moderate(true, id, Published)).1;
      review.status == Submitted && review.published.None? ==>
        review.key in t.rows
        && t.rows[review.key].revision == (if review.key in s.rows then s.rows[review.key].revision else 0) + 1
    ensures var review, t := s.reviews[id], Apply(s, Moderate(true, id, Hidden)).1;
      review.status == Published && review.key in t.rows ==>
        review.key in s.rows && t.rows[review.key].revision == s.rows[review.key].revision + 1
  {
    TransitionAnswers(s, id, Published);
    TransitionAnswers(s, id, Hidden);
    assert ReviewOk(s, id);
    if s.reviews[id].status == Published {
      RowsCountPublic(s, s.reviews[id].key);
      assert Public(s, s.reviews[id].key, id);
    }
  }

  lemma ShareSum(s: Store, key: Key, m: Measure, value: string -> int)
    requires forall id | Contributes(s, key, id) :: value(id) == Share(s, key, m, id)
    ensures Total(s, key, m) == SumOver(Counted(s, key), value)
  {
    var ids := Counted(s, key);
    SumOfZeros(s.reviews.Keys, ids, Shares(s, key, m));
    SumCongruent(ids, Shares(s, key, m), value);
  }

  /** Keys whose value is zero do not matter to a sum. */
  lemma {:induction false} SumOfZeros(all: set<string>, some: set<string>, f: string -> int)
    requires some <= all && forall x | x in all && x !in some :: f(x) == 0
    ensures SumOver(all, f) == SumOver(some, f)
    decreases |all|
  {
    if all == some {
    } else {
      var x :| x in all && x !in some;
      SumRemove(all, f, x);
      SumOfZeros(all - {x}, some, f);
    }
  }
}
