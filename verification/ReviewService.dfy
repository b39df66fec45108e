/** The review tables, updated in place by the service, and their reconciliation. */
module ReviewService {
  import opened Outcomes
  import opened Ordering
  import opened Sums
  import opened Reviews
  import opened Aggregates
  import opened Reconciliation

  // ---- The scan, row by row ----

  /** `values` is the scan of the reviews in `done`. */
  ghost predicate Scanned(s: Store, done: set<string>, values: map<Key, Totals>) {
    && (forall key :: key in values <==> exists id :: id in done && Contributes(s, key, id))
    && (forall key, m | key in values :: values[key].At(m) == SumOver(done, Shares(s, key, m)))
  }

  lemma ScannedNone(s: Store)
    ensures Scanned(s, {}, map[])
  {
  }

  lemma ScannedSkip(s: Store, done: set<string>, values: map<Key, Totals>, id: string)
    requires Scanned(s, done, values) && id !in done && forall key :: !Contributes(s, key, id)
    ensures Scanned(s, done + {id}, values)
  {
    forall key, m | key in values ensures values[key].At(m) == SumOver(done + {id}, Shares(s, key, m)) {
      SumInsert(done, Shares(s, key, m), id);
    }
    forall key ensures key in values <==> exists other :: other in done + {id} && Contributes(s, key, other) {
    }
  }

  lemma ScannedAdd(s: Store, done: set<string>, values: map<Key, Totals>, id: string)
    requires Scanned(s, done, values) && id !in done && id in s.reviews && Contributes(s, s.reviews[id].key, id)
    ensures var key, revision := s.reviews[id].key, s.revisions[(id, s.reviews[id].published.value)];
      Scanned(s, done + {id}, values[key := (if key in values then values[key] else ZERO).Plus(revision, 1)])
  {
    var key, revision := s.reviews[id].key, s.revisions[(id, s.reviews[id].published.value)];
    var before := if key in values then values[key] else ZERO;
    var after := values[key := before.Plus(revision, 1)];
    forall other, m | other in after ensures after[other].At(m) == SumOver(done + {id}, Shares(s, other, m)) {
      SumInsert(done, Shares(s, other, m), id);
      PlusAt(before, revision, 1, m);
      if key !in values {
        SumZero(done, Shares(s, key, m));
      }
    }
    forall other ensures other in after <==> exists i :: i in done + {id} && Contributes(s, other, i) {
      if other == key {
        assert id in done + {id};
      } else if i :| i in done + {id} && Contributes(s, other, i) {
        assert i in done;
      }
    }
  }

  lemma ScannedAll(s: Store, values: map<Key, Totals>)
    requires WellFormed(s) && Scanned(s, s.reviews.Keys, values)
    ensures values == Scan(s)
  {
    forall key ensures (key in values <==> key in Scan(s)) && (key in values ==> values[key] == Scan(s)[key]) {
      ScanIsRecompute(s, key);
      EmptyCount(s, key);
      if key in values {
        hide Recompute, Total, Shares, SumOver;
        forall m ensures values[key].At(m) == Recompute(s, key).At(m) {
          RecomputeAt(s, key, m);
        }
        SameTotals(values[key], Recompute(s, key));
      }
    }
  }

  // ---- The tables ----

  predicate SameRow(a: map<Key, Row>, b: map<Key, Row>, key: Key) {
    (key in a <==> key in b) && (key in a ==> a[key] == b[key])
  }

  class ReviewTables {
    var reviews: map<string, Review>
    var revisions: map<(string, Number), Revision>
    var rows: map<Key, Row>

    ghost function Contents(): Store
      reads this
    {
      Store(reviews, revisions, rows)
    }

    constructor ()
      ensures Contents() == EMPTY
    {
      reviews, revisions, rows := map[], map[], map[];
    }

    /** The source asserts after the update that the count is not negative; callers establish it here. */
    method AdjustAggregate(key: Key, revision: Revision, direction: int)
      requires direction == 1 || direction == -1
      requires TotalsAt(rows, key).count + direction >= 0
      modifies this`rows
      ensures rows == Adjusted(old(rows), key, revision, direction)
    {
      if key !in rows {
        rows := rows[key := Row(ZERO, 0)];
      }
      var totals := rows[key].totals;
      var row := rows[key].(totals := Totals(
        totals.count + direction,
        totals.overall + direction * revision.overall,
        totals.difficulty + direction * revision.difficulty,
        totals.workload + direction * revision.workload,
        totals.recommend + direction * (if revision.recommend then 1 else 0)));
      rows := rows[key := row.(revision := row.revision + 1)];
    }

    method RemoveEmptyAggregate(key: Key)
      modifies this`rows
      ensures rows == WithoutEmpty(old(rows), key)
    {
      if key in rows && rows[key].totals.count == 0 {
        rows := rows - {key};
      }
    }

    method Retract(key: Key, revision: Revision)
      requires TotalsAt(rows, key).count >= 1
      modifies this`rows
      ensures rows == Retracted(old(rows), key, revision)
    {
      AdjustAggregate(key, revision, -1);
      RemoveEmptyAggregate(key);
    }

    method Transition(id: string, target: Status) returns (answer: Result<Status, Error>)
      requires Valid(Contents()) && id in reviews
      modifies this`reviews, this`rows
      ensures answer == if Transitioned(old(Contents()), id, target).Success? then Success(target)
        else Failure(Conflict)
      ensures Contents() == if answer.Success? then Transitioned(old(Contents()), id, target).value else old(Contents())
    {
      hide Valid, Adjusted, Retracted;
      TransitionAnswers(Contents(), id, target);
      RoomForTransition(Contents(), id);
      var review := reviews[id];
      if target !in Transitions(review.status) {
        return Failure(Conflict);
      }
      var oldPublished := if review.published.Some? then Some(revisions[(id, review.published.value)]) else None;
      var approved := oldPublished.Some? && review.status in {Published, Submitted, Rejected};
      if target in {Hidden, Withdrawn} && approved {
        Retract(review.key, oldPublished.value);
      }
      reviews := reviews[id := review.(status := target)];
      if target == Published {
        var newPublished := revisions[(id, review.current)];
        if oldPublished.Some? && review.status in {Submitted, Rejected} {
          Retract(review.key, oldPublished.value);
        }
        AdjustAggregate(review.key, newPublished, 1);
        reviews := reviews[id := reviews[id].(published := Some(review.current))];
      }
      return Success(target);
    }

    method CreateReview(actor: string, input: ReviewInput, requestId: Option<string>, newId: string)
      returns (answer: Result<string, Error>)
      requires Valid(Contents())
      modifies this
      ensures (answer, Contents()) == Created(old(Contents()), actor, input, requestId, newId)
    {
      hide Agrees, ReviewOk;
      if !input.fields.InRange() {
        return Failure(InvalidFields);
      }
      if requestId.Some? && requestId.value != "" {
        if exists id :: id in reviews && reviews[id].requestId == requestId {
          var existing :| existing in reviews && reviews[existing].requestId == requestId;
          assert Replays(Contents(), requestId, existing);
          if reviews[existing].account != actor {
            return Failure(Conflict);
          }
          return Success(existing);
        }
      }
      var key := (input.courseId, input.termId);
      if exists id :: id in reviews && SameContribution(reviews[id], actor, key) {
        var existing :| existing in reviews && SameContribution(reviews[existing], actor, key);
        if reviews[existing].status != Rejected {
          return Failure(Conflict);
        }
      }
      if newId in reviews
        || (exists id :: id in reviews && SameContribution(reviews[id], actor, key))
        || (requestId.Some? && exists id :: id in reviews && reviews[id].requestId == requestId)
      {
        return Failure(Integrity);
      }
      reviews := reviews[newId := Review(actor, key, Draft, 1, None, requestId)];
      revisions := revisions[(newId, 1) := input.fields];
      return Success(newId);
    }

    method EditReview(actor: string, id: string, input: ReviewInput, expected: int)
      returns (answer: Result<Status, Error>)
      requires Valid(Contents())
      modifies this`reviews, this`revisions
      ensures answer.Success? <==> Edited(old(Contents()), actor, id, input, expected).Success?
      ensures Contents() == if answer.Success? then Edited(old(Contents()), actor, id, input, expected).value
        else old(Contents())
      ensures answer.Failure? ==> Edited(old(Contents()), actor, id, input, expected) == Failure(answer.error)
    {
      if !input.fields.InRange() {
        return Failure(InvalidFields);
      }
      if id !in reviews {
        return Failure(NotFound);
      }
      var review := reviews[id];
      if review.account != actor {
        return Failure(Denied);
      }
      if review.current != expected {
        return Failure(Conflict);
      }
      if review.status == Withdrawn {
        return Failure(Conflict);
      }
      review := review.(current := review.current + 1);
      if review.status == Published {
        review := review.(status := Submitted);
      }
      reviews := reviews[id := review];
      revisions := revisions[(id, review.current) := input.fields];
      return Success(review.status);
    }

    method SubmitReview(actor: string, id: string) returns (answer: Result<Status, Error>)
      requires Valid(Contents())
      modifies this
      ensures answer.Success? <==> Reviews.SubmitReview(old(Contents()), actor, id).Success?
      ensures Contents() == if answer.Success? then Reviews.SubmitReview(old(Contents()), actor, id).value
        else old(Contents())
      ensures answer.Failure? ==> Reviews.SubmitReview(old(Contents()), actor, id) == Failure(answer.error)
    {
      if id !in reviews {
        return Failure(NotFound);
      }
      if reviews[id].account != actor {
        return Failure(Denied);
      }
      TransitionAnswers(Contents(), id, Submitted);
      answer := Transition(id, Submitted);
    }

    method ModerateReview(isModerator: bool, id: string, target: Status) returns (answer: Result<Status, Error>)
      requires Valid(Contents())
      modifies this
      ensures answer.Success? <==> Reviews.ModerateReview(old(Contents()), isModerator, id, target).Success?
      ensures Contents() ==
        if answer.Success? then Reviews.ModerateReview(old(Contents()), isModerator, id, target).value
        else old(Contents())
      ensures answer.Failure? ==>
        Reviews.ModerateReview(old(Contents()), isModerator, id, target) == Failure(answer.error)
    {
      if !isModerator {
        return Failure(Denied);
      }
      if id !in reviews {
        return Failure(NotFound);
      }
      if target !in {Published, Hidden, Rejected} {
        return Failure(InvalidFields);
      }
      TransitionAnswers(Contents(), id, target);
      answer := Transition(id, target);
    }

    method FullRecompute() returns (values: map<Key, Totals>)
      requires WellFormed(Contents())
      ensures values == Scan(Contents())
    {
      hide WellFormed, RatingsOk, Scanned, Scan;
      ghost var s := Contents();
      values := map[];
      ScannedNone(s);
      ghost var done: set<string> := {};
      var todo := reviews.Keys;
      while |todo| > 0
        invariant todo <= reviews.Keys && done == reviews.Keys - todo
        invariant Scanned(s, done, values)
        decreases |todo|
      {
        var id :| id in todo;
        values := ScanReview(id, values, s, done);
        todo, done := todo - {id}, done + {id};
      }
      assert done == reviews.Keys;
      ScannedAll(s, values);
    }

    /** Adds the approved revision of one review to the table of its group. */
    method ScanReview(id: string, values: map<Key, Totals>, ghost s: Store, ghost done: set<string>)
      returns (next: map<Key, Totals>)
      requires s == Contents() && id in reviews && id !in done && Scanned(s, done, values)
      ensures Scanned(s, done + {id}, next)
    {
      hide Scanned;
      var review := reviews[id];
      if review.status in {Published, Submitted, Rejected} && review.published.Some?
        && (id, review.published.value) in revisions
      {
        var current := if review.key in values then values[review.key] else ZERO;
        ScannedAdd(s, done, values, id);
        next := values[review.key := current.Plus(revisions[(id, review.published.value)], 1)];
      } else {
        ScannedSkip(s, done, values, id);
        next := values;
      }
    }

    /** Rewrites one wrong row. */
    method RepairRow(key: Key, expected: map<Key, Totals>)
      modifies this`rows
      ensures key !in expected ==> rows == old(rows) - {key}
      ensures key in expected ==>
        rows == old(rows)[key := Row(expected[key], (if key in old(rows) then old(rows)[key].revision else 0) + 1)]
      ensures rows - {key} == old(rows) - {key}
    {
      if key !in expected {
        rows := rows - {key};
      } else if key !in rows {
        rows := rows[key := Row(expected[key], 1)];
      } else {
        rows := rows[key := rows[key].(totals := expected[key])];
        rows := rows[key := rows[key].(revision := rows[key].revision + 1)];
      }
    }

    /** Compares one key with the scan, and corrects its row if asked to. */
    method ReconcileKey(key: Key, expected: map<Key, Totals>, repair: bool, ghost s: Store, ghost done: set<Key>)
      returns (mismatch: bool)
      requires expected == Scan(s) && key !in done
      requires Progress(s, rows, done, repair)
      modifies this`rows
      ensures mismatch <==> key in Mismatches(s)
      ensures Progress(s, rows, done + {key}, repair)
    {
      hide Scan, Mismatches, RepairedRows, HalfRepaired;
      RepairChoice(s, key);
      HalfKeeps(s, rows, done, key, repair);
      mismatch := (key in expected) != (key in rows) || (key in rows && rows[key].totals != expected[key]);
      if mismatch && repair {
        RepairRow(key, expected);
      }
      if repair {
        HalfStep(s, old(rows), rows, done, key);
      }
    }

    method Reconcile(repair: bool) returns (groups: nat, mismatches: nat, repaired: nat)
      requires WellFormed(Contents())
      modifies this`rows
      ensures groups == |Scan(old(Contents())).Keys + old(rows).Keys|
      ensures mismatches == |Mismatches(old(Contents()))|
      ensures repaired == if repair then mismatches else 0
      ensures rows == if repair then RepairedRows(old(Contents())) else old(rows)
    {
      hide Scan, Mismatches, RepairedRows, WellFormed, Progress, Sweep;
      ghost var s, wrong := Contents(), Mismatches(Contents());
      var expected := FullRecompute();
      var todo := expected.Keys + rows.Keys;
      ghost var all := todo;
      groups, mismatches, repaired := |todo|, 0, 0;
      SweepStart(s, all, wrong, repair);
      while |todo| > 0
        invariant Sweep(s, all, wrong, rows, todo, repair, mismatches)
        invariant repaired == if repair then mismatches else 0
        decreases |todo|
      {
        var key :| key in todo;
        SweepOpens(s, all, wrong, rows, todo, repair, mismatches, key);
        var mismatch := ReconcileKey(key, expected, repair, s, all - todo);
        SweepStep(s, all, wrong, rows, todo, repair, mismatches, key, mismatch);
        if mismatch {
          mismatches := mismatches + 1;
          repaired := repaired + if repair then 1 else 0;
        }
        todo := todo - {key};
      }
      SweepDone(s, all, wrong, rows, todo, repair, mismatches);
    }
  }

  // ---- The loop of the reconciliation ----

  /** All keys but those in `todo` are compared, the wrong ones counted and, if asked, repaired. */
  ghost predicate Sweep(
    s: Store, all: set<Key>, wrong: set<Key>, rows: map<Key, Row>, todo: set<Key>, repair: bool, mismatches: nat)
  {
    todo <= all && Progress(s, rows, all - todo, repair) && mismatches == |wrong * (all - todo)|
  }

  lemma SweepStart(s: Store, all: set<Key>, wrong: set<Key>, repair: bool)
    ensures Sweep(s, all, wrong, s.rows, all, repair, 0)
  {
    hide Progress;
    HalfStart(s);
    assert all - all == {};
  }

  lemma SweepOpens(
    s: Store, all: set<Key>, wrong: set<Key>, rows: map<Key, Row>, todo: set<Key>, repair: bool, mismatches: nat,
    key: Key)
    requires Sweep(s, all, wrong, rows, todo, repair, mismatches) && key in todo
    ensures key !in all - todo && Progress(s, rows, all - todo, repair)
    ensures todo <= all && mismatches == |wrong * (all - todo)|
  {
    hide Progress;
  }

  lemma SweepStep(
    s: Store, all: set<Key>, wrong: set<Key>, rows: map<Key, Row>, todo: set<Key>, repair: bool, mismatches: nat,
    key: Key, mismatch: bool)
    requires key in todo && todo <= all && Progress(s, rows, all - todo + {key}, repair)
    requires mismatches == |wrong * (all - todo)| && (mismatch <==> key in wrong)
    ensures Sweep(s, all, wrong, rows, todo - {key}, repair, if mismatch then mismatches + 1 else mismatches)
  {
    hide Progress;
    assert all - (todo - {key}) == all - todo + {key};
    CountOne(wrong, all - todo, key);
  }

  lemma SweepDone(
    s: Store, all: set<Key>, wrong: set<Key>, rows: map<Key, Row>, todo: set<Key>, repair: bool, mismatches: nat)
    requires Sweep(s, all, wrong, rows, todo, repair, mismatches) && |todo| == 0
    requires all == Scan(s).Keys + s.rows.Keys && wrong == Mismatches(s)
    ensures rows == if repair then RepairedRows(s) else s.rows
    ensures mismatches == |Mismatches(s)|
  {
    hide Progress, Scan, Mismatches, RepairedRows;
    assert all - todo == all;
    MismatchesAreKeys(s);
    HalfDone(s, rows, all, repair);
  }

  // ---- A repair in progress ----

  ghost predicate HalfAt(s: Store, rows: map<Key, Row>, done: set<Key>, key: Key) {
    SameRow(rows, if key in done then RepairedRows(s) else s.rows, key)
  }

  /** The keys in `done` are repaired, the others untouched. */
  ghost predicate HalfRepaired(s: Store, rows: map<Key, Row>, done: set<Key>) {
    forall key :: HalfAt(s, rows, done, key)
  }

  ghost predicate Progress(s: Store, rows: map<Key, Row>, done: set<Key>, repair: bool) {
    if repair then HalfRepaired(s, rows, done) else rows == s.rows
  }

  lemma HalfStart(s: Store)
    ensures forall repair :: Progress(s, s.rows, {}, repair)
  {
  }

  lemma HalfKeeps(s: Store, rows: map<Key, Row>, done: set<Key>, key: Key, repair: bool)
    requires Progress(s, rows, done, repair) && key !in done
    ensures (key in rows <==> key in s.rows) && (key in rows ==> rows[key] == s.rows[key])
  {
    if repair {
      assert HalfAt(s, rows, done, key);
    }
  }

  lemma HalfStep(s: Store, before: map<Key, Row>, after: map<Key, Row>, done: set<Key>, key: Key)
    requires HalfRepaired(s, before, done) && key !in done
    requires (key in after <==> key in RepairedRows(s)) && (key in after ==> after[key] == RepairedRows(s)[key])
    requires before - {key} == after - {key}
    ensures HalfRepaired(s, after, done + {key})
  {
    hide RepairedRows;
    forall other ensures HalfAt(s, after, done + {key}, other) {
      assert HalfAt(s, before, done, other);
      if other != key {
        assert other in before <==> other in before - {key};
        assert other in after <==> other in after - {key};
        assert other in before ==> before[other] == (before - {key})[other] && after[other] == (after - {key})[other];
      }
    }
  }

  lemma HalfDone(s: Store, rows: map<Key, Row>, done: set<Key>, repair: bool)
    requires Progress(s, rows, done, repair) && done == Scan(s).Keys + s.rows.Keys
    ensures rows == if repair then RepairedRows(s) else s.rows
  {
    if repair {
      forall key ensures SameRow(rows, RepairedRows(s), key) {
        assert HalfAt(s, rows, done, key);
        RepairChoice(s, key);
      }
      SameRows(rows, RepairedRows(s));
    }
  }

  lemma MismatchesAreKeys(s: Store)
    ensures Mismatches(s) * (Scan(s).Keys + s.rows.Keys) == Mismatches(s)
  {
  }

  lemma SameRows(a: map<Key, Row>, b: map<Key, Row>)
    requires forall key :: SameRow(a, b, key)
    ensures a == b
  {
    assert forall key :: key in a <==> key in b by {
      forall key ensures key in a <==> key in b {
        assert SameRow(a, b, key);
      }
    }
    forall key | key in a ensures a[key] == b[key] {
      assert SameRow(a, b, key);
    }
  }

  /** What a repair does with one key. */
  lemma RepairChoice(s: Store, key: Key)
    ensures key in Mismatches(s) <==>
      (key in Scan(s)) != (key in s.rows) || (key in s.rows && key in Scan(s) && s.rows[key].totals != Scan(s)[key])
    ensures key in RepairedRows(s) <==> key in Scan(s)
    ensures key in Scan(s) && key !in s.rows ==> RepairedRows(s)[key] == Row(Scan(s)[key], 1)
    ensures key in Scan(s) && key in s.rows && s.rows[key].totals == Scan(s)[key] ==>
      RepairedRows(s)[key] == s.rows[key]
    ensures key in Scan(s) && key in s.rows && s.rows[key].totals != Scan(s)[key] ==>
      RepairedRows(s)[key] == Row(Scan(s)[key], s.rows[key].revision + 1)
  {
    hide Scan;
  }

  /** The revisions a status change reads exist, and the counts it lowers are positive. */
  lemma RoomForTransition(s: Store, id: string)
    requires Valid(s) && id in s.reviews
    ensures var review := s.reviews[id];
      && (id, review.current) in s.revisions
      && (review.published.Some? ==> (id, review.published.value) in s.revisions)
      && (Approved(review) ==> TotalsAt(s.rows, review.key).count >= 1)
      && TotalsAt(s.rows, review.key).count >= 0
      && WithoutApproved(s, id).Success? && TotalsAt(WithoutApproved(s, id).value, review.key).count >= 0
  {
    var key := s.reviews[id].key;
    assert ReviewOk(s, id) && AgreesAt(s, key);
    StoredTotals(s, key);
    EmptyCount(s, key);
    if Approved(s.reviews[id]) {
      ApprovedCounts(s, id);
    }
  }
}
