/** What the model builder reports: which leaves it finds invalid, and which credit bounds make it fail. */
module BuildReports {
  import opened Ast
  import opened Compiler
  import opened Ordering
  import opened PlanModel
  import opened PlanRules

  /** `leaf` stands somewhere in `e`. */
  ghost predicate LeafOf(leaf: Expr, e: Expr) {
    match e
    case AllOf(items) => exists i :: 0 <= i < |items| && LeafOf(leaf, items[i])
    case AnyOf(items) => exists i :: 0 <= i < |items| && LeafOf(leaf, items[i])
    case CoRequisite(items) => exists i :: 0 <= i < |items| && LeafOf(leaf, items[i])
    case _ => leaf == e
  }

  /** Why a leaf cannot be decided when the courses in `registered` may be planned before. */
  ghost predicate Blames(request: PlanRequest, registered: set<string>, leaf: Expr, entry: Invalid) {
    match entry
    case UnknownPrerequisite(code) => leaf == CourseRef(code) && code !in request.completed && code !in registered
    case FutureGrade(course, grade) => leaf == GradeAtLeast(course, grade) && course !in request.completed
    case UnresolvedPredicate(kind, value) =>
      leaf == Predicate(kind, value)
      && (kind == Permission ==> value !in request.permissions) && (kind == Placement ==> value !in request.placements)
    case BadInput(_) => false
  }

  lemma {:induction false} InvalidMeans(request: PlanRequest, registered: set<string>, e: Expr, entry: Invalid)
    ensures entry in InvalidIn(request, registered, e) <==>
      exists leaf :: LeafOf(leaf, e) && Blames(request, registered, leaf, entry)
    decreases e, 1
  {
    match e
    case AllOf(items) => InvalidInItems(request, registered, e, items, entry);
    case AnyOf(items) => InvalidInItems(request, registered, e, items, entry);
    case CoRequisite(items) => InvalidInItems(request, registered, e, items, entry);
    case _ =>
      assert LeafOf(e, e);
  }

  lemma {:induction false} InvalidInItems(
    request: PlanRequest, registered: set<string>, e: Expr, items: seq<Expr>, entry: Invalid)
    requires e == AllOf(items) || e == AnyOf(items) || e == CoRequisite(items)
    ensures entry in InvalidInAll(request, registered, items) <==>
      exists leaf :: LeafOf(leaf, e) && Blames(request, registered, leaf, entry)
    decreases e, 0
  {
    InvalidInAny(request, registered, items, entry);
    forall i | 0 <= i < |items|
      ensures entry in InvalidIn(request, registered, items[i]) <==>
        exists leaf :: LeafOf(leaf, items[i]) && Blames(request, registered, leaf, entry)
    {
      InvalidMeans(request, registered, items[i], entry);
    }
    if leaf :| LeafOf(leaf, e) && Blames(request, registered, leaf, entry) {
      var i :| 0 <= i < |items| && LeafOf(leaf, items[i]);
      assert entry in InvalidIn(request, registered, items[i]);
    }
    if i :| 0 <= i < |items| && entry in InvalidIn(request, registered, items[i]) {
      var leaf :| LeafOf(leaf, items[i]) && Blames(request, registered, leaf, entry);
      assert LeafOf(leaf, e);
    }
  }

  lemma {:induction false} InvalidInAny(
    request: PlanRequest, registered: set<string>, items: seq<Expr>, entry: Invalid)
    ensures entry in InvalidInAll(request, registered, items) <==>
      exists i :: 0 <= i < |items| && entry in InvalidIn(request, registered, items[i])
  {
    hide InvalidIn;
    if items != [] {
      var front, n := items[..|items| - 1], |items| - 1;
      InvalidInAny(request, registered, front, entry);
      assert forall i | 0 <= i < n :: front[i] == items[i];
    }
  }

  /** Entry `entry` comes from a leaf of the prerequisite of course `i`. */
  ghost predicate BlamesCourse(request: PlanRequest, i: int, entry: Invalid) {
    0 <= i < |request.courses| && request.courses[i].prerequisites.Some?
    && exists leaf ::
      LeafOf(leaf, request.courses[i].prerequisites.value) && Blames(request, Registered(request, i + 1), leaf, entry)
  }

  /** The entries reported for the courses are exactly those of leaves that cannot be decided. */
  lemma {:induction false} ReportsMean(request: PlanRequest, k: nat, entry: Invalid)
    requires k <= |request.courses|
    ensures entry in InvalidUpto(request, k) <==> exists i :: 0 <= i < k && BlamesCourse(request, i, entry)
  {
    if k > 0 {
      ReportsMean(request, k - 1, entry);
      if request.courses[k - 1].prerequisites.Some? {
        InvalidMeans(request, Registered(request, k), request.courses[k - 1].prerequisites.value, entry);
      }
      hide InvalidIn, Blames, LeafOf, Registered;
      assert entry in InvalidOf(request, k - 1) <==> BlamesCourse(request, k - 1, entry);
    }
  }

  lemma {:induction false} ReadsCreditsMeans(e: Expr)
    ensures ReadsCredits(e) <==> exists credits :: LeafOf(CreditsAtLeast(credits), e)
  {
    match e
    case CreditsAtLeast(credits) => assert LeafOf(CreditsAtLeast(credits), e);
    case CourseRef(_) =>
    case GradeAtLeast(_, _) =>
    case Predicate(_, _) =>
    case _ =>
      forall i | 0 <= i < |e.items|
        ensures ReadsCredits(e.items[i]) <==> exists credits :: LeafOf(CreditsAtLeast(credits), e.items[i])
      {
        ReadsCreditsMeans(e.items[i]);
      }
      if i :| 0 <= i < |e.items| && ReadsCredits(e.items[i]) {
        var credits :| LeafOf(CreditsAtLeast(credits), e.items[i]);
        assert LeafOf(CreditsAtLeast(credits), e);
      }
  }

  /** The build fails at a course exactly if it has a credit bound and a course not completed is listed later. */
  lemma LooksAheadMeans(request: PlanRequest, i: nat)
    requires Distinct(Codes(request)) && i < |request.courses|
    ensures LooksAhead(request, i) <==>
      request.courses[i].prerequisites.Some?
      && (exists credits :: LeafOf(CreditsAtLeast(credits), request.courses[i].prerequisites.value))
      && (exists j :: i < j < |request.courses| && request.courses[j].code !in request.completed)
  {
    if request.courses[i].prerequisites.Some? {
      ReadsCreditsMeans(request.courses[i].prerequisites.value);
    }
    forall j | 0 <= j < |request.courses|
      ensures request.courses[j].code !in Registered(request, i + 1) <==> i < j
    {
      forall k | 0 <= k < i + 1 && i < j ensures request.courses[k].code != request.courses[j].code {
        assert Codes(request)[k] != Codes(request)[j];
      }
    }
  }
}
