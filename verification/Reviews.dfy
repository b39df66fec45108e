/** Review publication: rows, the status machine, and the per-course statistics it maintains. */
module Reviews {
  import opened Outcomes
  import opened Sums

  datatype Status = Draft | Submitted | Published | Hidden | Rejected | Withdrawn

  /** The states a review may move to; `Withdrawn` and a return to `Draft` have no public operation. */
  function Transitions(status: Status): set<Status> {
    match status
    case Draft => {Submitted, Withdrawn}
    case Submitted => {Draft, Published, Rejected, Withdrawn}
    case Published => {Hidden, Withdrawn, Submitted}
    case Hidden => {Published, Withdrawn}
    case Rejected => {Draft, Submitted, Withdrawn}
    case Withdrawn => {}
  }

  /** The statistics kept per course and term. */
  datatype Measure = Count | Overall | Difficulty | Workload | Recommend

  datatype Revision = Revision(professor: string, overall: int, difficulty: int, workload: int, recommend: bool) {
    predicate InRange() {
      professor != "" && 1 <= difficulty <= 5 && workload >= 0 && 1 <= overall <= 5
    }

    function Value(m: Measure): int {
      match m
      case Count => 1
      case Overall => overall
      case Difficulty => difficulty
      case Workload => workload
      case Recommend => if recommend then 1 else 0
    }
  }

  /** A course and a term. */
  type Key = (string, string)

  /** Revisions of a review are numbered from one. */
  type Number = n: int | n >= 1 witness 1

  datatype Review = Review(
    account: string, key: Key, status: Status, current: Number, published: Option<Number>, requestId: Option<string>)

  datatype Totals = Totals(count: int, overall: int, difficulty: int, workload: int, recommend: int) {
    function At(m: Measure): int {
      match m
      case Count => count
      case Overall => overall
      case Difficulty => difficulty
      case Workload => workload
      case Recommend => recommend
    }

    /** One revision added (`direction` 1) or taken away (`direction` -1). */
    function Plus(revision: Revision, direction: int): Totals {
      Totals(
        count + direction,
        overall + direction * revision.overall,
        difficulty + direction * revision.difficulty,
        workload + direction * revision.workload,
        recommend + direction * revision.Value(Recommend))
    }
  }

  const ZERO := Totals(0, 0, 0, 0, 0)

  /** A stored aggregate; `revision` counts its updates. */
  datatype Row = Row(totals: Totals, revision: int)

  datatype Store = Store(reviews: map<string, Review>, revisions: map<(string, Number), Revision>, rows: map<Key, Row>)

  const EMPTY := Store(map[], map[], map[])

  // ---- The authoritative scan ----

  /** Whether the approved revision of a review counts in the statistics of `key`. */
  predicate Contributes(s: Store, key: Key, id: string) {
    && id in s.reviews && s.reviews[id].key == key
    && s.reviews[id].status in {Published, Submitted, Rejected}
    && s.reviews[id].published.Some? && (id, s.reviews[id].published.value) in s.revisions
  }

  function Share(s: Store, key: Key, m: Measure, id: string): int {
    if Contributes(s, key, id) then s.revisions[(id, s.reviews[id].published.value)].Value(m) else 0
  }

  function Shares(s: Store, key: Key, m: Measure): string -> int {
    id => Share(s, key, m, id)
  }

  ghost function Total(s: Store, key: Key, m: Measure): int {
    SumOver(s.reviews.Keys, Shares(s, key, m))
  }

  ghost function Recompute(s: Store, key: Key): Totals {
    Totals(Total(s, key, Count), Total(s, key, Overall), Total(s, key, Difficulty), Total(s, key, Workload),
      Total(s, key, Recommend))
  }

  // ---- The invariant ----

  /** A row per key that some review contributes to, holding the sums of the full scan. */
  ghost predicate AgreesAt(s: Store, key: Key) {
    && (key in s.rows <==> Recompute(s, key).count > 0)
    && (key in s.rows ==> s.rows[key].totals == Recompute(s, key))
  }

  ghost predicate Agrees(s: Store) {
    forall key :: AgreesAt(s, key)
  }

  ghost predicate ReviewOk(s: Store, id: string)
    requires id in s.reviews
  {
    var review := s.reviews[id];
    && (forall n: Number | n <= review.current :: (id, n) in s.revisions)
    && (review.published.Some? ==> review.published.value <= review.current)
    && (review.status == Draft ==> review.published.None?)
    && (review.status in {Published, Hidden} ==> review.published.Some?)
  }

  /** The table constraints and the shape every operation keeps. */
  ghost predicate WellFormed(s: Store) {
    && (forall id | id in s.reviews :: ReviewOk(s, id))
    && (forall id, n | (id, n) in s.revisions ::
      s.revisions[(id, n)].InRange() && id in s.reviews && n <= s.reviews[id].current)
    && (forall i, j | i in s.reviews && j in s.reviews && i != j ::
      s.reviews[i].account != s.reviews[j].account || s.reviews[i].key != s.reviews[j].key)
    && (forall i, j | i in s.reviews && j in s.reviews && i != j && s.reviews[i].requestId.Some? ::
      s.reviews[i].requestId != s.reviews[j].requestId)
  }

  ghost predicate Valid(s: Store) {
    WellFormed(s) && Agrees(s)
  }

  // ---- Operations ----

  /** The last two are internal assertions: a revision that must exist, a count that must not be negative. */
  datatype Error = InvalidFields | Conflict | NotFound | Denied | Integrity | MissingRevision | NegativeCount

  datatype ReviewInput = ReviewInput(courseId: string, termId: string, fields: Revision)

  function TotalsAt(rows: map<Key, Row>, key: Key): Totals {
    if key in rows then rows[key].totals else ZERO
  }

  /** The row of `key` with one revision added or taken away; a missing row starts at zero. */
  function Adjusted(rows: map<Key, Row>, key: Key, revision: Revision, direction: int): map<Key, Row> {
    rows[key := Row(TotalsAt(rows, key).Plus(revision, direction), (if key in rows then rows[key].revision else 0) + 1)]
  }

  function WithoutEmpty(rows: map<Key, Row>, key: Key): map<Key, Row> {
    if key in rows && rows[key].totals.count == 0 then rows - {key} else rows
  }

  function Retracted(rows: map<Key, Row>, key: Key, revision: Revision): map<Key, Row> {
    WithoutEmpty(Adjusted(rows, key, revision, -1), key)
  }

  function SetReview(s: Store, id: string, review: Review): Store {
    s.(reviews := s.reviews[id := review])
  }

  /** Whether the approved revision of a review is in the statistics. */
  predicate Approved(review: Review) {
    review.published.Some? && review.status in {Published, Submitted, Rejected}
  }

  /** The statistics without the approved revision of a review, if it has one. */
  function WithoutApproved(s: Store, id: string): Result<map<Key, Row>, Error>
    requires id in s.reviews
    requires s.reviews[id].published.Some? ==> (id, s.reviews[id].published.value) in s.revisions
  {
    var review := s.reviews[id];
    if !Approved(review) then Success(s.rows)
    else if TotalsAt(s.rows, review.key).count - 1 < 0 then Failure(NegativeCount)
    else Success(Retracted(s.rows, review.key, s.revisions[(id, review.published.value)]))
  }

  /** A status change, with the statistics it moves. */
  function Transitioned(s: Store, id: string, target: Status): Result<Store, Error>
    requires id in s.reviews
  {
    var review := s.reviews[id];
    if target !in Transitions(review.status) then Failure(Conflict)
    else if review.published.Some? && (id, review.published.value) !in s.revisions then Failure(MissingRevision)
    else if target == Published then
      if (id, review.current) !in s.revisions then Failure(MissingRevision) else
      var rows :- WithoutApproved(s, id);
      Success(SetReview(s, id, review.(status := Published, published := Some(review.current)))
        .(rows := Adjusted(rows, review.key, s.revisions[(id, review.current)], 1)))
    else if target in {Hidden, Withdrawn} then
      var rows :- WithoutApproved(s, id);
      Success(SetReview(s, id, review.(status := target)).(rows := rows))
    else
      Success(SetReview(s, id, review.(status := target)))
  }

  predicate SameContribution(review: Review, account: string, key: Key) {
    review.account == account && review.key == key
  }

  predicate Taken(s: Store, account: string, key: Key) {
    exists id :: id in s.reviews && SameContribution(s.reviews[id], account, key)
  }

  predicate Requested(s: Store, requestId: Option<string>) {
    requestId.Some? && exists id :: id in s.reviews && s.reviews[id].requestId == requestId
  }

  /** The review an idempotency key stands for; the empty key stands for none. */
  predicate Replays(s: Store, requestId: Option<string>, id: string) {
    requestId.Some? && requestId.value != "" && id in s.reviews && s.reviews[id].requestId == requestId
  }

  function NewReview(s: Store, actor: string, input: ReviewInput, requestId: Option<string>, id: string): Store {
    s.(reviews := s.reviews[id := Review(actor, (input.courseId, input.termId), Draft, 1, None, requestId)],
       revisions := s.revisions[(id, 1) := input.fields])
  }

  ghost function Created(
    s: Store, actor: string, input: ReviewInput, requestId: Option<string>, id: string): (Result<string, Error>, Store)
  {
    var key := (input.courseId, input.termId);
    if !input.fields.InRange() then (Failure(InvalidFields), s)
    else if existing :| Replays(s, requestId, existing) then
      (if s.reviews[existing].account == actor then Success(existing) else Failure(Conflict), s)
    else if exists other ::
      other in s.reviews && SameContribution(s.reviews[other], actor, key) && s.reviews[other].status != Rejected then
      (Failure(Conflict), s)
    else if id in s.reviews || Taken(s, actor, key) || Requested(s, requestId) then (Failure(Integrity), s)
    else (Success(id), NewReview(s, actor, input, requestId, id))
  }

  function Edited(s: Store, actor: string, id: string, input: ReviewInput, expected: int): Result<Store, Error> {
    if !input.fields.InRange() then Failure(InvalidFields)
    else if id !in s.reviews then Failure(NotFound)
    else var review := s.reviews[id];
    if review.account != actor then Failure(Denied)
    else if review.current != expected || review.status == Withdrawn then Failure(Conflict)
    else Success(SetReview(s, id,
      review.(current := review.current + 1, status := if review.status == Published then Submitted else review.status))
      .(revisions := s.revisions[(id, review.current + 1) := input.fields]))
  }

  function SubmitReview(s: Store, actor: string, id: string): Result<Store, Error>
  {
    if id !in s.reviews then Failure(NotFound)
    else if s.reviews[id].account != actor then Failure(Denied)
    else Transitioned(s, id, Submitted)
  }

  function ModerateReview(s: Store, isModerator: bool, id: string, target: Status): Result<Store, Error>
  {
    if !isModerator then Failure(Denied)
    else if id !in s.reviews then Failure(NotFound)
    else if target !in {Published, Hidden, Rejected} then Failure(InvalidFields)
    else Transitioned(s, id, target)
  }
}
