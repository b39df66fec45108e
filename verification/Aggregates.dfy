/** The stored statistics agree with the full scan in every reachable store. */
module Aggregates {
  import opened Outcomes
  import opened Sums
  import opened Reviews

  // ---- Sums under a change of one review ----

  ghost predicate DiffersOnlyAt(s: Store, t: Store, id: string) {
    && (forall other | other != id :: other in s.reviews <==> other in t.reviews)
    && (forall other, key, m | other != id :: Share(s, key, m, other) == Share(t, key, m, other))
  }

  lemma TotalMoves(s: Store, t: Store, id: string, key: Key, m: Measure)
    requires DiffersOnlyAt(s, t, id)
    ensures Total(t, key, m) == Total(s, key, m) - Share(s, key, m, id) + Share(t, key, m, id)
  {
    SplitAt(s, id, key, m);
    SplitAt(t, id, key, m);
    assert s.reviews.Keys - {id} == t.reviews.Keys - {id};
    SumCongruent(s.reviews.Keys - {id}, Shares(s, key, m), Shares(t, key, m));
  }

  lemma SplitAt(s: Store, id: string, key: Key, m: Measure)
    ensures Total(s, key, m) == Share(s, key, m, id) + SumOver(s.reviews.Keys - {id}, Shares(s, key, m))
  {
    if id in s.reviews {
      SumRemove(s.reviews.Keys, Shares(s, key, m), id);
    } else {
      assert s.reviews.Keys - {id} == s.reviews.Keys;
    }
  }

  ghost predicate RatingsOk(s: Store) {
    forall id, n | (id, n) in s.revisions :: s.revisions[(id, n)].InRange()
  }

  /** Each review adds 0 or 1 to the count, and to every other sum only if it adds to the count. */
  lemma ShareBounds(s: Store, key: Key, id: string)
    requires RatingsOk(s)
    ensures forall m :: Share(s, key, m, id) >= 0
    ensures Share(s, key, Count, id) == if Contributes(s, key, id) then 1 else 0
    ensures Share(s, key, Count, id) <= Share(s, key, Overall, id) <= 5 * Share(s, key, Count, id)
    ensures Share(s, key, Count, id) <= Share(s, key, Difficulty, id) <= 5 * Share(s, key, Count, id)
    ensures Share(s, key, Recommend, id) <= Share(s, key, Count, id)
  {
  }

  /** A sum over nobody is zero, and only then is the count zero. */
  lemma EmptyCount(s: Store, key: Key)
    requires RatingsOk(s)
    ensures Recompute(s, key).count >= 0
    ensures Recompute(s, key).count == 0 <==> forall id :: !Contributes(s, key, id)
    ensures Recompute(s, key).count == 0 ==> Recompute(s, key) == ZERO
  {
    forall m ensures Total(s, key, m) >= 0 {
      NonNegative(s, key, m);
    }
    forall id | Contributes(s, key, id) ensures Recompute(s, key).count > 0 {
      SplitAt(s, id, key, Count);
      ShareBounds(s, key, id);
      forall other ensures Shares(s, key, Count)(other) >= 0 {
        ShareBounds(s, key, other);
      }
      SumMonotone({}, s.reviews.Keys - {id}, Shares(s, key, Count));
    }
    if forall id :: !Contributes(s, key, id) {
      forall m ensures Total(s, key, m) == 0 {
        SumZero(s.reviews.Keys, Shares(s, key, m));
      }
    }
  }

  lemma NonNegative(s: Store, key: Key, m: Measure)
    requires RatingsOk(s)
    ensures Total(s, key, m) >= 0
  {
    forall id ensures Shares(s, key, m)(id) >= 0 {
      ShareBounds(s, key, id);
    }
    SumMonotone({}, s.reviews.Keys, Shares(s, key, m));
  }

  function Scaled(s: Store, key: Key, c: int): string -> int {
    id => c * Share(s, key, Count, id)
  }

  lemma {:induction false} SumScaled(ids: set<string>, s: Store, key: Key, c: int)
    ensures SumOver(ids, Scaled(s, key, c)) == c * SumOver(ids, Shares(s, key, Count))
    decreases |ids|
  {
    if ids != {} {
      var id :| id in ids;
      SumRemove(ids, Scaled(s, key, c), id);
      SumRemove(ids, Shares(s, key, Count), id);
      SumScaled(ids - {id}, s, key, c);
      Distributes(c, Share(s, key, Count, id), SumOver(ids - {id}, Shares(s, key, Count)));
    }
  }

  lemma Distributes(c: int, x: int, y: int)
    ensures c * (x + y) == c * x + c * y
  {
  }

  /** The sums of the scan lie within the rating scale. */
  lemma RecomputeBounds(s: Store, key: Key)
    requires RatingsOk(s)
    ensures var t := Recompute(s, key);
      0 <= t.count <= t.overall <= 5 * t.count && t.count <= t.difficulty <= 5 * t.count && 0 <= t.recommend <= t.count
      && t.workload >= 0
  {
    forall m ensures Total(s, key, m) >= 0 {
      NonNegative(s, key, m);
    }
    forall id ensures Shares(s, key, Count)(id) <= Shares(s, key, Overall)(id) <= Scaled(s, key, 5)(id)
      && Shares(s, key, Count)(id) <= Shares(s, key, Difficulty)(id) <= Scaled(s, key, 5)(id)
      && Shares(s, key, Recommend)(id) <= Shares(s, key, Count)(id)
    {
      ShareBounds(s, key, id);
    }
    var ids := s.reviews.Keys;
    SumScaled(ids, s, key, 5);
    SumCompare(ids, Shares(s, key, Count), Shares(s, key, Overall));
    SumCompare(ids, Shares(s, key, Overall), Scaled(s, key, 5));
    SumCompare(ids, Shares(s, key, Count), Shares(s, key, Difficulty));
    SumCompare(ids, Shares(s, key, Difficulty), Scaled(s, key, 5));
    SumCompare(ids, Shares(s, key, Recommend), Shares(s, key, Count));
  }

  /** Every stored row: a positive count, and sums within the rating scale. */
  lemma StoredBounds(s: Store, key: Key)
    requires Valid(s) && key in s.rows
    ensures var t := s.rows[key].totals;
      1 <= t.count <= t.overall <= 5 * t.count && t.count <= t.difficulty <= 5 * t.count && 0 <= t.recommend <= t.count
      && t.workload >= 0
  {
    assert AgreesAt(s, key);
    RecomputeBounds(s, key);
  }

  // ---- Taking a contribution away and adding one ----

  lemma RecomputeMoves(s: Store, t: Store, id: string, key: Key)
    requires DiffersOnlyAt(s, t, id)
    ensures forall m :: Recompute(t, key).At(m) == Recompute(s, key).At(m) - Share(s, key, m, id) + Share(t, key, m, id)
  {
    hide Share, Shares, Total, DiffersOnlyAt, Contributes;
    forall m ensures Recompute(t, key).At(m) == Recompute(s, key).At(m) - Share(s, key, m, id) + Share(t, key, m, id) {
      TotalMoves(s, t, id, key, m);
      RecomputeAt(s, key, m);
      RecomputeAt(t, key, m);
    }
  }

  lemma RecomputeAt(s: Store, key: Key, m: Measure)
    ensures Recompute(s, key).At(m) == Total(s, key, m)
  {
    hide Total;
  }

  /** The stored totals are the scan's, a missing row reading as zero. */
  lemma StoredTotals(s: Store, key: Key)
    requires RatingsOk(s) && AgreesAt(s, key)
    ensures TotalsAt(s.rows, key) == Recompute(s, key)
  {
    EmptyCount(s, key);
  }

  lemma Unmoved(s: Store, t: Store, id: string, key: Key)
    requires DiffersOnlyAt(s, t, id) && AgreesAt(s, key)
    requires !Contributes(s, key, id) && !Contributes(t, key, id)
    requires key in s.rows <==> key in t.rows
    requires key in s.rows ==> s.rows[key] == t.rows[key]
    ensures AgreesAt(t, key)
  {
    RecomputeMoves(s, t, id, key);
    SameTotals(Recompute(s, key), Recompute(t, key));
  }

  lemma SameTotals(a: Totals, b: Totals)
    requires forall m :: a.At(m) == b.At(m)
    ensures a == b
  {
    assert a.At(Count) == b.At(Count) && a.At(Overall) == b.At(Overall) && a.At(Difficulty) == b.At(Difficulty);
    assert a.At(Workload) == b.At(Workload) && a.At(Recommend) == b.At(Recommend);
  }

  lemma PlusAt(a: Totals, revision: Revision, direction: int, m: Measure)
    requires direction == 1 || direction == -1
    ensures a.Plus(revision, direction).At(m) == a.At(m) + direction * revision.Value(m)
  {
  }

  /** A row change in one group leaves the other groups exact. */
  lemma OthersAgree(s: Store, t: Store, id: string, key: Key)
    requires DiffersOnlyAt(s, t, id) && Agrees(s)
    requires forall other | other != key :: !Contributes(s, other, id) && !Contributes(t, other, id)
    requires forall other | other != key ::
      (other in s.rows <==> other in t.rows) && (other in s.rows ==> s.rows[other] == t.rows[other])
    ensures forall other | other != key :: AgreesAt(t, other)
  {
    hide Recompute, DiffersOnlyAt, Contributes;
    forall other | other != key ensures AgreesAt(t, other) {
      assert AgreesAt(s, other);
      Unmoved(s, t, id, other);
    }
  }

  /** Withdrawing a contribution from the row leaves the scan's totals, and no row for an empty group. */
  lemma RetractAgrees(s: Store, t: Store, id: string, revision: Revision)
    requires DiffersOnlyAt(s, t, id) && RatingsOk(s) && RatingsOk(t) && Agrees(s)
    requires id in s.reviews && Contributes(s, s.reviews[id].key, id)
    requires revision == s.revisions[(id, s.reviews[id].published.value)]
    requires forall key :: !Contributes(t, key, id)
    requires t.rows == Retracted(s.rows, s.reviews[id].key, revision)
    ensures TotalsAt(s.rows, s.reviews[id].key).count > 0
    ensures Agrees(t)
  {
    hide Recompute, DiffersOnlyAt, Share;
    var key := s.reviews[id].key;
    EmptyCount(s, key);
    EmptyCount(t, key);
    assert AgreesAt(s, key);
    StoredTotals(s, key);
    LeftIsScan(s, t, id, revision);
    OthersAgree(s, t, id, key);
  }

  lemma LeftIsScan(s: Store, t: Store, id: string, revision: Revision)
    requires DiffersOnlyAt(s, t, id) && RatingsOk(s) && Agrees(s)
    requires id in s.reviews && Contributes(s, s.reviews[id].key, id)
    requires revision == s.revisions[(id, s.reviews[id].published.value)]
    requires forall key :: !Contributes(t, key, id)
    ensures TotalsAt(s.rows, s.reviews[id].key).Plus(revision, -1) == Recompute(t, s.reviews[id].key)
  {
    hide Recompute, DiffersOnlyAt, RatingsOk;
    var key := s.reviews[id].key;
    assert AgreesAt(s, key);
    StoredTotals(s, key);
    RecomputeMoves(s, t, id, key);
    var left := TotalsAt(s.rows, key).Plus(revision, -1);
    forall m ensures left.At(m) == Recompute(t, key).At(m) {
      PlusAt(TotalsAt(s.rows, key), revision, -1, m);
    }
    SameTotals(left, Recompute(t, key));
  }

  /** Adding a contribution to the row gives the scan's totals. */
  lemma CreditAgrees(s: Store, t: Store, id: string, revision: Revision)
    requires DiffersOnlyAt(s, t, id) && RatingsOk(s) && RatingsOk(t) && Agrees(s)
    requires id in t.reviews && Contributes(t, t.reviews[id].key, id)
    requires revision == t.revisions[(id, t.reviews[id].published.value)]
    requires forall key :: !Contributes(s, key, id)
    requires t.rows == Adjusted(s.rows, t.reviews[id].key, revision, 1)
    ensures Agrees(t)
  {
    var key := t.reviews[id].key;
    assert AgreesAt(s, key);
    StoredTotals(s, key);
    EmptyCount(t, key);
    RecomputeMoves(s, t, id, key);
    var more := TotalsAt(s.rows, key).Plus(revision, 1);
    forall m ensures more.At(m) == Recompute(t, key).At(m) {
      PlusAt(TotalsAt(s.rows, key), revision, 1, m);
    }
    SameTotals(more, Recompute(t, key));
    OthersAgree(s, t, id, key);
  }

  /** A change that moves no contribution keeps agreement. */
  lemma StillAgrees(s: Store, t: Store, id: string)
    requires DiffersOnlyAt(s, t, id) && Agrees(s) && s.rows == t.rows
    requires forall key, m :: Share(s, key, m, id) == Share(t, key, m, id)
    ensures Agrees(t)
  {
    hide Share, Recompute, DiffersOnlyAt, Contributes;
    forall key ensures AgreesAt(t, key) {
      assert AgreesAt(s, key);
      RecomputeMoves(s, t, id, key);
      SameTotals(Recompute(s, key), Recompute(t, key));
    }
  }

  // ---- Each operation ----

  /** Changing one review row leaves every other review's share as it was. */
  lemma RowChange(s: Store, t: Store, id: string)
    requires id in s.reviews && id in t.reviews && t.reviews == s.reviews[id := t.reviews[id]]
    requires t.revisions == s.revisions
    ensures DiffersOnlyAt(s, t, id)
  {
  }

  lemma RowChangeWellFormed(s: Store, t: Store, id: string)
    requires WellFormed(s) && id in s.reviews && id in t.reviews && t.reviews == s.reviews[id := t.reviews[id]]
    requires t.revisions == s.revisions
    requires var (a, b) := (s.reviews[id], t.reviews[id]);
      a.account == b.account && a.key == b.key && a.requestId == b.requestId && a.current == b.current
      && ReviewOk(t, id)
    ensures WellFormed(t)
  {
    forall other | other in t.reviews ensures ReviewOk(t, other) {
      if other != id {
        assert ReviewOk(s, other);
      }
    }
  }

  /** The row an approved review counts in is there, so its count never turns negative. */
  lemma ApprovedCounts(s: Store, id: string)
    requires Valid(s) && id in s.reviews && Approved(s.reviews[id])
    ensures TotalsAt(s.rows, s.reviews[id].key).count >= 1
  {
    var key := s.reviews[id].key;
    assert ReviewOk(s, id) && AgreesAt(s, key) && Contributes(s, key, id);
    EmptyCount(s, key);
    StoredTotals(s, key);
  }

  /** A status change is refused only by the matrix. */
  lemma TransitionAnswers(s: Store, id: string, target: Status)
    requires Valid(s) && id in s.reviews
    ensures Transitioned(s, id, target).Success? <==> target in Transitions(s.reviews[id].status)
    ensures Transitioned(s, id, target).Failure? ==> Transitioned(s, id, target).error == Conflict
    ensures s.reviews[id].published.Some? ==> (id, s.reviews[id].published.value) in s.revisions
    ensures s.reviews[id].published.Some? ==> WithoutApproved(s, id).Success?
  {
    assert ReviewOk(s, id);
    if Approved(s.reviews[id]) {
      ApprovedCounts(s, id);
    }
  }

  /** A permitted status change keeps the statistics exact unless it sends an approved review back to draft. */
  lemma TransitionAgrees(s: Store, id: string, target: Status)
    requires Valid(s) && id in s.reviews && target in Transitions(s.reviews[id].status)
    ensures Transitioned(s, id, target).Success?
    ensures Agrees(Transitioned(s, id, target).value) <==> !(target == Draft && s.reviews[id].published.Some?)
  {
    TransitionAnswers(s, id, target);
    var review, t := s.reviews[id], Transitioned(s, id, target).value;
    assert ReviewOk(s, id);
    RowChange(s, t, id);
    if target == Published {
      PublishAgrees(s, id);
    } else if target in {Hidden, Withdrawn} && Approved(review) {
      RetractAgrees(s, t, id, s.revisions[(id, review.published.value)]);
    } else if target == Draft && review.published.Some? {
      DraftDisagrees(s, t, id);
    } else {
      StillAgrees(s, t, id);
    }
  }

  lemma PublishAgrees(s: Store, id: string)
    requires Valid(s) && id in s.reviews && Published in Transitions(s.reviews[id].status)
    ensures Transitioned(s, id, Published).Success? && Agrees(Transitioned(s, id, Published).value)
  {
    TransitionAnswers(s, id, Published);
    var review, t := s.reviews[id], Transitioned(s, id, Published).value;
    assert ReviewOk(s, id);
    var between := SetReview(s, id, review.(status := Hidden)).(rows := WithoutApproved(s, id).value);
    RowChange(s, between, id);
    if Approved(review) {
      RetractAgrees(s, between, id, s.revisions[(id, review.published.value)]);
    } else {
      StillAgrees(s, between, id);
    }
    RowChange(between, t, id);
    CreditAgrees(between, t, id, s.revisions[(id, review.current)]);
  }

  lemma DraftDisagrees(s: Store, t: Store, id: string)
    requires Valid(s) && id in s.reviews && Contributes(s, s.reviews[id].key, id)
    requires t == SetReview(s, id, s.reviews[id].(status := Draft))
    ensures !Agrees(t)
  {
    var key := s.reviews[id].key;
    RowChange(s, t, id);
    assert AgreesAt(s, key);
    EmptyCount(s, key);
    RecomputeMoves(s, t, id, key);
    assert Recompute(t, key).At(Count) == Recompute(s, key).At(Count) - 1;
    assert !AgreesAt(t, key);
  }

  lemma TransitionKeeps(s: Store, id: string, target: Status)
    requires Valid(s) && id in s.reviews && target in Transitions(s.reviews[id].status) && target != Draft
    ensures Transitioned(s, id, target).Success? && Valid(Transitioned(s, id, target).value)
  {
    TransitionAgrees(s, id, target);
    assert ReviewOk(s, id);
    RowChangeWellFormed(s, Transitioned(s, id, target).value, id);
  }

  lemma EditKeeps(s: Store, actor: string, id: string, input: ReviewInput, expected: int)
    requires Valid(s) && Edited(s, actor, id, input, expected).Success?
    ensures Valid(Edited(s, actor, id, input, expected).value)
  {
    var t := Edited(s, actor, id, input, expected).value;
    SharesSurviveEdit(s, t, id);
    StillAgrees(s, t, id);
    EditWellFormed(s, actor, id, input, expected);
  }

  lemma EditWellFormed(s: Store, actor: string, id: string, input: ReviewInput, expected: int)
    requires WellFormed(s) && Edited(s, actor, id, input, expected).Success?
    ensures WellFormed(Edited(s, actor, id, input, expected).value)
  {
    var t := Edited(s, actor, id, input, expected).value;
    forall other | other in t.reviews ensures ReviewOk(t, other) {
      assert ReviewOk(s, other);
    }
  }

  /** A pending edit keeps the old approved revision in the public statistics. */
  lemma EditKeepsStatistics(s: Store, actor: string, id: string, input: ReviewInput, expected: int, key: Key)
    requires WellFormed(s) && Edited(s, actor, id, input, expected).Success?
    ensures Recompute(Edited(s, actor, id, input, expected).value, key) == Recompute(s, key)
    ensures Edited(s, actor, id, input, expected).value.rows == s.rows
  {
    var t := Edited(s, actor, id, input, expected).value;
    SharesSurviveEdit(s, t, id);
    RecomputeMoves(s, t, id, key);
    SameTotals(Recompute(s, key), Recompute(t, key));
  }

  lemma SharesSurviveEdit(s: Store, t: Store, id: string)
    requires WellFormed(s) && id in s.reviews && id in t.reviews && t.reviews == s.reviews[id := t.reviews[id]]
    requires var (a, b) := (s.reviews[id], t.reviews[id]);
      a.key == b.key && a.published == b.published
      && (b.status == a.status || (a.status == Published && b.status == Submitted))
    requires (id, s.reviews[id].current + 1) in t.revisions
    requires t.revisions == s.revisions[(id, s.reviews[id].current + 1) := t.revisions[(id, s.reviews[id].current + 1)]]
    ensures DiffersOnlyAt(s, t, id)
    ensures forall key, m :: Share(s, key, m, id) == Share(t, key, m, id)
  {
    assert ReviewOk(s, id);
  }

  lemma NewReviewKeeps(s: Store, actor: string, input: ReviewInput, requestId: Option<string>, id: string)
    requires Valid(s) && input.fields.InRange() && id !in s.reviews
    requires !Taken(s, actor, (input.courseId, input.termId)) && !Requested(s, requestId)
    ensures Valid(NewReview(s, actor, input, requestId, id))
  {
    var t := NewReview(s, actor, input, requestId, id);
    StillAgrees(s, t, id);
    NewReviewWellFormed(s, actor, input, requestId, id);
  }

  lemma NewReviewWellFormed(s: Store, actor: string, input: ReviewInput, requestId: Option<string>, id: string)
    requires WellFormed(s) && input.fields.InRange() && id !in s.reviews
    requires !Taken(s, actor, (input.courseId, input.termId)) && !Requested(s, requestId)
    ensures WellFormed(NewReview(s, actor, input, requestId, id))
  {
    var t := NewReview(s, actor, input, requestId, id);
    forall other | other in t.reviews ensures ReviewOk(t, other) {
      if other != id {
        assert ReviewOk(s, other);
      }
    }
    forall i, j | i in t.reviews && j in t.reviews && i != j
      ensures t.reviews[i].account != t.reviews[j].account || t.reviews[i].key != t.reviews[j].key
    {
      if i == id {
        assert !SameContribution(s.reviews[j], actor, (input.courseId, input.termId));
      } else if j == id {
        assert !SameContribution(s.reviews[i], actor, (input.courseId, input.termId));
      }
    }
  }

  // ---- Runs ----

  datatype Op =
    | Create(actor: string, input: ReviewInput, requestId: Option<string>, newId: string)
    | Edit(actor: string, id: string, input: ReviewInput, expected: int)
    | Submit(actor: string, id: string)
    | Moderate(isModerator: bool, id: string, target: Status)

  /** The store and the answer of one request; a request that fails is rolled back. */
  ghost function Apply(s: Store, op: Op): (Option<Error>, Store) {
    match op
    case Create(actor, input, requestId, newId) =>
      var (answer, t) := Created(s, actor, input, requestId, newId);
      (if answer.Success? then None else Some(answer.error), t)
    case Edit(actor, id, input, expected) => Kept(s, Edited(s, actor, id, input, expected))
    case Submit(actor, id) => Kept(s, SubmitReview(s, actor, id))
    case Moderate(isModerator, id, target) => Kept(s, ModerateReview(s, isModerator, id, target))
  }

  ghost function Kept(s: Store, result: Result<Store, Error>): (Option<Error>, Store) {
    match result
    case Success(t) => (None, t)
    case Failure(error) => (Some(error), s)
  }

  ghost function Run(s: Store, ops: seq<Op>): Store
    decreases |ops|
  {
    if ops == [] then s else Run(Apply(s, ops[0]).1, ops[1..])
  }

  /** One request keeps the statistics exact, and neither internal assertion fires. */
  lemma ApplyKeeps(s: Store, op: Op)
    requires Valid(s)
    ensures Valid(Apply(s, op).1)
    ensures Apply(s, op).0 != Some(MissingRevision) && Apply(s, op).0 != Some(NegativeCount)
  {
    match op
    case Create(actor, input, requestId, newId) =>
      if Created(s, actor, input, requestId, newId).1 != s {
        NewReviewKeeps(s, actor, input, requestId, newId);
      }
    case Edit(actor, id, input, expected) =>
      if Edited(s, actor, id, input, expected).Success? {
        EditKeeps(s, actor, id, input, expected);
      }
    case Submit(actor, id) =>
      if id in s.reviews && Submitted in Transitions(s.reviews[id].status) {
        TransitionKeeps(s, id, Submitted);
      }
    case Moderate(isModerator, id, target) =>
      if id in s.reviews && target in {Published, Hidden, Rejected} && target in Transitions(s.reviews[id].status) {
        TransitionKeeps(s, id, target);
      }
  }

  lemma EmptyStoreIsValid()
    ensures Valid(EMPTY)
  {
    forall key ensures AgreesAt(EMPTY, key) {
      EmptyCount(EMPTY, key);
    }
  }

  /** After any sequence of requests the stored rows are exactly the full scan, within the rating scale. */
  lemma {:induction false} RunKeeps(s: Store, ops: seq<Op>)
    requires Valid(s)
    ensures Valid(Run(s, ops))
    decreases |ops|
  {
    if ops != [] {
      ApplyKeeps(s, ops[0]);
      RunKeeps(Apply(s, ops[0]).1, ops[1..]);
    }
  }

  lemma ReachableStatistics(ops: seq<Op>, key: Key)
    ensures var t := Run(EMPTY, ops);
      && (key in t.rows <==> exists id :: Contributes(t, key, id))
      && (key in t.rows ==> t.rows[key].totals == Recompute(t, key))
      && (key in t.rows ==> 1 <= t.rows[key].totals.count <= t.rows[key].totals.overall <= 5 * t.rows[key].totals.count)
  {
    EmptyStoreIsValid();
    RunKeeps(EMPTY, ops);
    var t := Run(EMPTY, ops);
    assert AgreesAt(t, key);
    EmptyCount(t, key);
    if key in t.rows {
      StoredBounds(t, key);
    }
  }
}
