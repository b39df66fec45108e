/** The independent plan validator, and the declarative plan specification it decides. */
module Validator {
  import opened Ast
  import opened Ordering
  import opened PlanModel
  import opened Sums

  datatype Reason =
    | NotScheduled(code: string)
    | WrongTerm(code: string, sameTerm: bool, target: int)
    | NotCompleted(code: string, grade: string)
    | GradeBelow(code: string, grade: string)
    | CreditsBelow(credits: int, target: int)
    | Unresolved(kind: PredicateKind, value: string)

  datatype Violation =
    | Input(error: InputError)
    | OutsideRequest
    | UnknownTerm(code: string, term: int)
    | PinBroken(code: string)
    | Unavailable(code: string, term: int)
    | Excluded(code: string)
    | Prerequisite(code: string, reason: Reason)
    | CoRequisiteSplit(code: string, other: string)
    | BelowMinimum(term: int)
    | AboveMaximum(term: int)
    | TooFewCourses(title: string, needed: int, found: int)
    | TooFewCredits(title: string, needed: int, found: int)
    | AllocatedTwice(code: string)

  datatype ValidationResult = ValidationResult(valid: bool, violations: seq<Violation>)

  // ---- Evaluating one prerequisite ----

  /** The verdict on an expression and the reasons given with it. */
  function Evaluate(
    request: PlanRequest, a: Assignment, e: Expr, target: int, coreq: bool, earned: int): (bool, seq<Reason>)
  {
    match e
    case CourseRef(code) =>
      if code in request.completed then (true, [])
      else if code !in a || a[code] == 0 then (false, [NotScheduled(code)])
      else
        var ok := if coreq then a[code] == target else a[code] < target;
        (ok, if ok then [] else [WrongTerm(code, coreq, target)])
    case GradeAtLeast(course, grade) =>
      if course !in request.completed then (false, [NotCompleted(course, grade)])
      else if GradePoints(GradeOf(request, course)) < GradePoints(grade) then (false, [GradeBelow(course, grade)])
      else (true, [])
    case CreditsAtLeast(credits) =>
      var ok := earned / 1000 >= credits;
      (ok, if ok then [] else [CreditsBelow(credits, target)])
    case Predicate(kind, value) =>
      var ok := value in Supplied(request, kind);
      (ok, if ok then [] else [Unresolved(kind, value)])
    case AllOf(items) =>
      (forall i | 0 <= i < |items| :: Evaluate(request, a, items[i], target, coreq, earned).0,
       Reasons(request, a, items, target, coreq, earned))
    case AnyOf(items) =>
      (exists i :: 0 <= i < |items| && Evaluate(request, a, items[i], target, coreq, earned).0,
       Reasons(request, a, items, target, coreq, earned))
    case CoRequisite(items) =>
      (forall i | 0 <= i < |items| :: Evaluate(request, a, items[i], target, true, earned).0,
       Reasons(request, a, items, target, true, earned))
  }

  /** The reasons of several expressions, in order. */
  function Reasons(
    request: PlanRequest, a: Assignment, items: seq<Expr>, target: int, coreq: bool, earned: int): seq<Reason>
  {
    if items == [] then []
    else
      Evaluate(request, a, items[0], target, coreq, earned).1
      + Reasons(request, a, items[1..], target, coreq, earned)
  }

  lemma {:induction false} EvaluateIsHolds(
    request: PlanRequest, a: Assignment, e: Expr, target: int, coreq: bool, earned: int)
    ensures Evaluate(request, a, e, target, coreq, earned).0 <==> Holds(request, a, e, target, coreq, earned)
  {
    match e
    case AllOf(items) =>
      forall i | 0 <= i < |items|
        ensures Evaluate(request, a, items[i], target, coreq, earned).0 <==>
          Holds(request, a, items[i], target, coreq, earned)
      {
        EvaluateIsHolds(request, a, items[i], target, coreq, earned);
      }
    case AnyOf(items) =>
      forall i | 0 <= i < |items|
        ensures Evaluate(request, a, items[i], target, coreq, earned).0 <==>
          Holds(request, a, items[i], target, coreq, earned)
      {
        EvaluateIsHolds(request, a, items[i], target, coreq, earned);
      }
    case CoRequisite(items) =>
      forall i | 0 <= i < |items|
        ensures Evaluate(request, a, items[i], target, true, earned).0 <==>
          Holds(request, a, items[i], target, true, earned)
      {
        EvaluateIsHolds(request, a, items[i], target, true, earned);
      }
    case _ =>
  }

  /** Some leaf of the expression is false, and this is the reason for it. */
  ghost predicate Complains(
    request: PlanRequest, a: Assignment, e: Expr, target: int, coreq: bool, earned: int, reason: Reason)
  {
    match e
    case AllOf(items) => exists i :: 0 <= i < |items| && Complains(request, a, items[i], target, coreq, earned, reason)
    case AnyOf(items) => exists i :: 0 <= i < |items| && Complains(request, a, items[i], target, coreq, earned, reason)
    case CoRequisite(items) =>
      exists i :: 0 <= i < |items| && Complains(request, a, items[i], target, true, earned, reason)
    case _ =>
      !Holds(request, a, e, target, coreq, earned) && match reason
        case NotScheduled(code) => e == CourseRef(code) && (code in a ==> a[code] == 0)
        case WrongTerm(code, together, term) =>
          e == CourseRef(code) && code in a && a[code] != 0 && together == coreq && term == target
        case NotCompleted(course, grade) => e == GradeAtLeast(course, grade) && course !in request.completed
        case GradeBelow(course, grade) => e == GradeAtLeast(course, grade) && course in request.completed
        case CreditsBelow(credits, term) => e == CreditsAtLeast(credits) && term == target
        case Unresolved(kind, value) => e == Predicate(kind, value)
  }

  /** The reasons given are exactly those of the false leaves, whatever the verdict. */
  lemma {:induction false} ReasonsAreFalseLeaves(
    request: PlanRequest, a: Assignment, e: Expr, target: int, coreq: bool, earned: int, reason: Reason)
    ensures reason in Evaluate(request, a, e, target, coreq, earned).1 <==>
      Complains(request, a, e, target, coreq, earned, reason)
    decreases e, 1
  {
    match e
    case AllOf(items) => ReasonsOfAll(request, a, items, target, coreq, earned, reason);
    case AnyOf(items) => ReasonsOfAll(request, a, items, target, coreq, earned, reason);
    case CoRequisite(items) => ReasonsOfAll(request, a, items, target, true, earned, reason);
    case _ =>
  }

  lemma {:induction false} ReasonsOfAll(
    request: PlanRequest, a: Assignment, items: seq<Expr>, target: int, coreq: bool, earned: int, reason: Reason)
    ensures reason in Reasons(request, a, items, target, coreq, earned) <==>
      exists i :: 0 <= i < |items| && Complains(request, a, items[i], target, coreq, earned, reason)
    decreases items, 0
  {
    if items != [] {
      ReasonsAreFalseLeaves(request, a, items[0], target, coreq, earned, reason);
      ReasonsOfAll(request, a, items[1..], target, coreq, earned, reason);
      assert items == [items[0]] + items[1..];
    }
  }

  /** An expression that no evidence can meet, because of an OR without alternatives. */
  predicate Dead(e: Expr) {
    match e
    case AllOf(items) => exists i :: 0 <= i < |items| && Dead(items[i])
    case AnyOf(items) => forall i | 0 <= i < |items| :: Dead(items[i])
    case CoRequisite(items) => exists i :: 0 <= i < |items| && Dead(items[i])
    case _ => false
  }

  lemma {:induction false} DeadNeverHolds(
    request: PlanRequest, a: Assignment, e: Expr, target: int, coreq: bool, earned: int)
    requires Dead(e)
    ensures !Holds(request, a, e, target, coreq, earned)
  {
    match e
    case AllOf(items) =>
      var i :| 0 <= i < |items| && Dead(items[i]);
      DeadNeverHolds(request, a, items[i], target, coreq, earned);
    case AnyOf(items) =>
      forall i | 0 <= i < |items| ensures !Holds(request, a, items[i], target, coreq, earned) {
        DeadNeverHolds(request, a, items[i], target, coreq, earned);
      }
    case CoRequisite(items) =>
      var i :| 0 <= i < |items| && Dead(items[i]);
      DeadNeverHolds(request, a, items[i], target, true, earned);
  }

  lemma {:induction false} ReasonsInclude(
    request: PlanRequest, a: Assignment, items: seq<Expr>, target: int, coreq: bool, earned: int, i: nat)
    requires i < |items|
    ensures |Reasons(request, a, items, target, coreq, earned)|
      >= |Evaluate(request, a, items[i], target, coreq, earned).1|
  {
    if i > 0 {
      ReasonsInclude(request, a, items[1..], target, coreq, earned, i - 1);
    }
  }

  /** A false verdict carries a reason, unless the expression is dead. */
  lemma {:induction false} FalseHasReason(
    request: PlanRequest, a: Assignment, e: Expr, target: int, coreq: bool, earned: int)
    requires !Dead(e) && !Holds(request, a, e, target, coreq, earned)
    ensures Evaluate(request, a, e, target, coreq, earned).1 != []
  {
    match e
    case AllOf(items) =>
      var i :| 0 <= i < |items| && !Holds(request, a, items[i], target, coreq, earned);
      FalseHasReason(request, a, items[i], target, coreq, earned);
      ReasonsInclude(request, a, items, target, coreq, earned, i);
    case AnyOf(items) =>
      var i :| 0 <= i < |items| && !Dead(items[i]);
      FalseHasReason(request, a, items[i], target, coreq, earned);
      ReasonsInclude(request, a, items, target, coreq, earned, i);
    case CoRequisite(items) =>
      var i :| 0 <= i < |items| && !Holds(request, a, items[i], target, true, earned);
      FalseHasReason(request, a, items[i], target, true, earned);
      ReasonsInclude(request, a, items, target, true, earned, i);
    case _ =>
  }

  // ---- What a plan must satisfy ----

  ghost predicate PrerequisiteMet(request: PlanRequest, a: Assignment, course: CourseSpec, term: int) {
    course.prerequisites.Some? ==>
      Holds(request, a, course.prerequisites.value, term, false, EarnedBefore(request, a, term))
  }

  /** What the validator lets through: a met prerequisite, or an unmet one without a reason. */
  ghost predicate PrerequisitePassed(request: PlanRequest, a: Assignment, course: CourseSpec, term: int) {
    PrerequisiteMet(request, a, course, term)
    || Evaluate(request, a, course.prerequisites.value, term, false, EarnedBefore(request, a, term)).1 == []
  }

  ghost predicate PlacementOk(request: PlanRequest, a: Assignment, code: string)
    requires code in a && code in CourseMap(request.courses)
  {
    var term, course := a[code], CourseMap(request.courses)[code];
    && (term == 0 || term in TermMap(request.terms))
    && (code in request.pinned ==> request.pinned[code] == term)
    && (term != 0 ==>
          && (course.availableTerms == {} || term in course.availableTerms)
          && code !in request.excluded
          && forall other | other in course.coRequisites && other in a :: a[other] == term)
  }

  ghost predicate WindowOk(request: PlanRequest, a: Assignment, term: int)
    requires term in TermMap(request.terms)
  {
    TermMap(request.terms)[term].minCredits <= TermUnits(request, a, term) / 1000
      <= TermMap(request.terms)[term].maxCredits
  }

  ghost predicate GroupOk(request: PlanRequest, a: Assignment, group: RequirementGroup) {
    && |Taken(request, a, group)| >= group.minCourses
    && SumOver(Taken(request, a, group), UnitsOf(request)) / 1000 >= group.minCredits
  }

  /** No course counts towards two of the first `n` groups that forbid double counting. */
  ghost predicate ExclusiveUse(request: PlanRequest, a: Assignment, n: nat)
    requires n <= |request.requirements|
  {
    forall i, j | 0 <= i < j < n && !request.requirements[i].allowDoubleCounting
      && !request.requirements[j].allowDoubleCounting ::
      Taken(request, a, request.requirements[i]) !! Taken(request, a, request.requirements[j])
  }

  /** All rules but the prerequisites. */
  ghost predicate FrameOk(request: PlanRequest, a: Assignment) {
    && a.Keys <= CourseMap(request.courses).Keys
    && (forall code | code in a && code in CourseMap(request.courses) :: PlacementOk(request, a, code))
    && (forall term | term in TermMap(request.terms) :: WindowOk(request, a, term))
    && (forall group | group in request.requirements :: GroupOk(request, a, group))
    && ExclusiveUse(request, a, |request.requirements|)
  }

  /** The declarative plan specification. */
  ghost predicate PlanSatisfies(request: PlanRequest, a: Assignment) {
    && InputOk(request)
    && FrameOk(request, a)
    && (forall code | code in a && code in CourseMap(request.courses) && a[code] != 0 ::
          PrerequisiteMet(request, a, CourseMap(request.courses)[code], a[code]))
  }

  /** What the validator decides. */
  ghost predicate PlanPasses(request: PlanRequest, a: Assignment) {
    && InputOk(request)
    && FrameOk(request, a)
    && (forall code | code in a && code in CourseMap(request.courses) && a[code] != 0 ::
          PrerequisitePassed(request, a, CourseMap(request.courses)[code], a[code]))
  }

  ghost predicate NoDeadPrerequisite(request: PlanRequest) {
    forall course | course in request.courses && course.prerequisites.Some? :: !Dead(course.prerequisites.value)
  }

  /** Without dead prerequisites the validator decides the specification exactly. */
  lemma ValidatorIsExact(request: PlanRequest, a: Assignment)
    ensures PlanSatisfies(request, a) ==> PlanPasses(request, a)
    ensures NoDeadPrerequisite(request) ==> (PlanPasses(request, a) <==> PlanSatisfies(request, a))
  {
    if NoDeadPrerequisite(request) && PlanPasses(request, a) {
      var courseMap := CourseMap(request.courses);
      CourseMapAt(request.courses);
      forall code | code in a && code in courseMap && a[code] != 0
        ensures PrerequisiteMet(request, a, courseMap[code], a[code])
      {
        var course := courseMap[code];
        assert PrerequisitePassed(request, a, course, a[code]);
        if !PrerequisiteMet(request, a, course, a[code]) {
          FalseHasReason(request, a, course.prerequisites.value, a[code], false, EarnedBefore(request, a, a[code]));
        }
      }
    }
  }

  // ---- The violations of a plan ----

  /** The violations there are in the placement of some of the placed courses. */
  ghost predicate PlacementFault(request: PlanRequest, a: Assignment, codes: set<string>, v: Violation) {
    match v
    case UnknownTerm(code, term) =>
      Placed(request, a, codes, code) && term == a[code] && term != 0 && term !in TermMap(request.terms)
    case PinBroken(code) => Placed(request, a, codes, code) && code in request.pinned && request.pinned[code] != a[code]
    case Unavailable(code, term) =>
      TakenIn(request, a, codes, code, term) && AvailableTerms(request, code) != {}
      && term !in AvailableTerms(request, code)
    case Excluded(code) =>
      TakenIn(request, a, codes, code, if code in a then a[code] else 0) && code in request.excluded
    case Prerequisite(code, reason) =>
      Placed(request, a, codes, code) && a[code] != 0
      && UnmetFor(request, a, CourseMap(request.courses)[code], a[code], reason)
    case CoRequisiteSplit(code, other) =>
      Placed(request, a, codes, code) && a[code] != 0
      && other in CourseMap(request.courses)[code].coRequisites && other in a && a[other] != a[code]
    case _ => false
  }

  predicate Placed(request: PlanRequest, a: Assignment, codes: set<string>, code: string) {
    code in codes && code in a && code in CourseMap(request.courses)
  }

  predicate TakenIn(request: PlanRequest, a: Assignment, codes: set<string>, code: string, term: int) {
    Placed(request, a, codes, code) && a[code] == term && term != 0
  }

  function AvailableTerms(request: PlanRequest, code: string): set<int>
    requires code in CourseMap(request.courses)
  {
    CourseMap(request.courses)[code].availableTerms
  }

  /** `reason` is given for the unmet prerequisite of a course taken in `term`. */
  ghost predicate UnmetFor(request: PlanRequest, a: Assignment, course: CourseSpec, term: int, reason: Reason) {
    && course.prerequisites.Some? && !PrerequisiteMet(request, a, course, term)
    && reason in Evaluate(request, a, course.prerequisites.value, term, false, EarnedBefore(request, a, term)).1
  }

  /** The violations there are in the credit windows of some of the terms. */
  ghost predicate WindowFault(request: PlanRequest, a: Assignment, terms: set<int>, v: Violation) {
    match v
    case BelowMinimum(term) =>
      term in terms && term in TermMap(request.terms)
      && TermUnits(request, a, term) / 1000 < TermMap(request.terms)[term].minCredits
    case AboveMaximum(term) =>
      term in terms && term in TermMap(request.terms)
      && TermUnits(request, a, term) / 1000 > TermMap(request.terms)[term].maxCredits
    case _ => false
  }

  /** The violations there are in the first `n` requirement groups. */
  ghost predicate GroupFault(request: PlanRequest, a: Assignment, n: nat, v: Violation)
    requires n <= |request.requirements|
  {
    match v
    case TooFewCourses(_, _, _) => exists i :: 0 <= i < n && Short(request, a, request.requirements[i], v)
    case TooFewCredits(_, _, _) => exists i :: 0 <= i < n && Poor(request, a, request.requirements[i], v)
    case AllocatedTwice(code) => exists i :: 0 <= i < n && UsedAgain(request, a, i, code)
    case _ => false
  }

  ghost predicate Short(request: PlanRequest, a: Assignment, group: RequirementGroup, v: Violation) {
    var found := |Taken(request, a, group)|;
    found < group.minCourses && v == TooFewCourses(group.title, group.minCourses, found)
  }

  ghost predicate Poor(request: PlanRequest, a: Assignment, group: RequirementGroup, v: Violation) {
    var found := SumOver(Taken(request, a, group), UnitsOf(request)) / 1000;
    found < group.minCredits && v == TooFewCredits(group.title, group.minCredits, found)
  }

  /** Group `i` is exclusive and counts a course that an earlier exclusive group counts. */
  ghost predicate UsedAgain(request: PlanRequest, a: Assignment, i: nat, code: string)
    requires i < |request.requirements|
  {
    var group := request.requirements[i];
    !group.allowDoubleCounting && code in Taken(request, a, group) && Used(request, a, i, code)
  }

  /** The violations there are in a plan. */
  ghost predicate Fault(request: PlanRequest, a: Assignment, v: Violation) {
    || (v.Input? && InputFault(request, v.error))
    || (v == OutsideRequest && !(a.Keys <= CourseMap(request.courses).Keys))
    || PlacementFault(request, a, a.Keys, v)
    || WindowFault(request, a, TermMap(request.terms).Keys, v)
    || GroupFault(request, a, |request.requirements|, v)
  }

  // ---- The validator ----

  method ValidatePlan(request: PlanRequest, a: Assignment) returns (result: ValidationResult)
    ensures result.valid <==> PlanPasses(request, a)
    ensures result.valid <==> result.violations == []
    ensures forall v :: v in result.violations <==> Fault(request, a, v)
    ensures Distinct(result.violations)
  {
    hide InputOk, CoursePassed, WindowOk, GroupOk, ExclusiveUse, PlanPasses, InputFault, PlacementFault, WindowFault;
    hide GroupFault;
    var inputErrors := ValidateInput(request);
    var violations := InputViolations(inputErrors);
    EmptyDifference(a.Keys, CourseMap(request.courses).Keys);
    if |a.Keys - CourseMap(request.courses).Keys| != 0 {
      violations := violations + [OutsideRequest];
    }
    var courseViolations := CheckPlacements(request, a);
    var termViolations := CheckWindows(request, a);
    var groupViolations := CheckGroups(request, a);
    FourParts(violations, courseViolations, termViolations, groupViolations);
    violations := violations + courseViolations + termViolations + groupViolations;
    PassesByPart(request, a);
    result := ValidationResult(violations == [], Dedup(violations));
    assert violations != [] ==> violations[0] in Dedup(violations);
  }

  lemma FourParts<T(!new)>(xs: seq<T>, ys: seq<T>, zs: seq<T>, ws: seq<T>)
    ensures forall x :: x in xs + ys + zs + ws <==> x in xs || x in ys || x in zs || x in ws
  {
  }

  /** The parts the loops check, put together. */
  lemma PassesByPart(request: PlanRequest, a: Assignment)
    ensures PlanPasses(request, a) <==>
      (InputOk(request) && a.Keys <= CourseMap(request.courses).Keys
       && (forall code | code in a :: CoursePassed(request, a, code))
       && (forall term | term in TermMap(request.terms) :: WindowOk(request, a, term))
       && (forall group | group in request.requirements :: GroupOk(request, a, group))
         && ExclusiveUse(request, a, |request.requirements|))
  {
    hide InputOk, WindowOk, GroupOk, ExclusiveUse, PlacementOk, PrerequisitePassed;
  }

  function InputViolations(errors: seq<InputError>): (r: seq<Violation>)
    ensures |r| == |errors|
    ensures forall v :: v in r <==> v.Input? && v.error in errors
  {
    var r := seq(|errors|, i requires 0 <= i < |errors| => Input(errors[i]));
    assert forall i | 0 <= i < |errors| :: r[i] == Input(errors[i]);
    r
  }

  ghost predicate CoursePassed(request: PlanRequest, a: Assignment, code: string) {
    code in a && code in CourseMap(request.courses) ==>
      PlacementOk(request, a, code)
      && (a[code] != 0 ==> PrerequisitePassed(request, a, CourseMap(request.courses)[code], a[code]))
  }

  method CheckPlacements(request: PlanRequest, a: Assignment) returns (violations: seq<Violation>)
    ensures violations == [] <==> forall code | code in a :: CoursePassed(request, a, code)
    ensures forall v :: v in violations <==> PlacementFault(request, a, a.Keys, v)
  {
    hide CoursePassed, PlacementFault;
    NoPlacementFaults(request, a);
    violations := [];
    var todo := a.Keys;
    while |todo| > 0
      invariant todo <= a.Keys
      invariant violations == [] <==> forall code | code in a.Keys - todo :: CoursePassed(request, a, code)
      invariant forall v :: v in violations <==> PlacementFault(request, a, a.Keys - todo, v)
      decreases |todo|
    {
      var code :| code in todo;
      PlacementFaultsGrow(request, a, a.Keys - todo, code);
      if code in CourseMap(request.courses) {
        var found := CheckPlacement(request, a, code);
        violations := violations + found;
      }
      assert a.Keys - (todo - {code}) == a.Keys - todo + {code};
      todo := todo - {code};
    }
    assert a.Keys - todo == a.Keys;
  }

  lemma NoPlacementFaults(request: PlanRequest, a: Assignment)
    ensures forall v :: !PlacementFault(request, a, {}, v)
    ensures a.Keys - a.Keys == {}
  {
  }

  lemma PlacementFaultsGrow(request: PlanRequest, a: Assignment, done: set<string>, code: string)
    ensures forall v :: PlacementFault(request, a, done + {code}, v) <==>
      PlacementFault(request, a, done, v) || PlacementFault(request, a, {code}, v)
    ensures code !in CourseMap(request.courses) ==> CoursePassed(request, a, code)
    ensures code !in CourseMap(request.courses) ==> forall v :: !PlacementFault(request, a, {code}, v)
  {
    hide UnmetFor;
  }

  method CheckPlacement(request: PlanRequest, a: Assignment, code: string) returns (violations: seq<Violation>)
    requires code in a && code in CourseMap(request.courses)
    ensures violations == [] <==> CoursePassed(request, a, code)
    ensures forall v :: v in violations <==> PlacementFault(request, a, {code}, v)
  {
    hide PrerequisitePassed, UnmetFor, TermMap, CourseMap;
    CourseMapAt(request.courses);
    var term, course := a[code], CourseMap(request.courses)[code];
    var basic := CheckBasics(request, a, code);
    violations := basic;
    if term == 0 {
      return;
    }
    var unmet := CheckPrerequisite(request, a, course, term);
    var split := CheckCoRequisites(a, course, term);
    violations := basic + unmet + split;
  }

  /** The checks of a placement other than its prerequisite and co-requisites. */
  method CheckBasics(request: PlanRequest, a: Assignment, code: string) returns (violations: seq<Violation>)
    requires code in a && code in CourseMap(request.courses)
    ensures violations == [] <==> BasicsOk(request, a, code)
    ensures forall v :: v in violations <==>
      !v.Prerequisite? && !v.CoRequisiteSplit? && PlacementFault(request, a, {code}, v)
  {
    hide TermMap, CourseMap;
    var term, course := a[code], CourseMap(request.courses)[code];
    violations := [];
    if term !in TermMap(request.terms) && term != 0 {
      violations := violations + [UnknownTerm(code, term)];
    }
    if code in request.pinned && request.pinned[code] != term {
      violations := violations + [PinBroken(code)];
    }
    if term == 0 {
      return;
    }
    if course.availableTerms != {} && term !in course.availableTerms {
      violations := violations + [Unavailable(code, term)];
    }
    if code in request.excluded {
      violations := violations + [Excluded(code)];
    }
    if code in request.pinned && request.pinned[code] != term {
      violations := violations + [PinBroken(code)];
    }
  }

  ghost predicate BasicsOk(request: PlanRequest, a: Assignment, code: string)
    requires code in a && code in CourseMap(request.courses)
  {
    var term, course := a[code], CourseMap(request.courses)[code];
    && (term == 0 || term in TermMap(request.terms))
    && (code in request.pinned ==> request.pinned[code] == term)
    && (term != 0 ==> (course.availableTerms == {} || term in course.availableTerms) && code !in request.excluded)
  }

  method CheckPrerequisite(request: PlanRequest, a: Assignment, course: CourseSpec, term: int)
    returns (violations: seq<Violation>)
    ensures violations == [] <==> PrerequisitePassed(request, a, course, term)
    ensures forall v :: v in violations <==>
      v.Prerequisite? && v.code == course.code && UnmetFor(request, a, course, term, v.reason)
  {
    hide Holds, Evaluate;
    violations := [];
    if course.prerequisites.Some? {
      var units := SumUnits(request, Before(request, a, term));
      var earned := request.completedCredits * 1000 + units;
      EvaluateIsHolds(request, a, course.prerequisites.value, term, false, earned);
      var (ok, reasons) := Evaluate(request, a, course.prerequisites.value, term, false, earned);
      if !ok {
        violations := ReasonViolations(course.code, reasons);
      }
    }
  }

  function ReasonViolations(code: string, reasons: seq<Reason>): (r: seq<Violation>)
    ensures |r| == |reasons|
    ensures forall v :: v in r <==> v.Prerequisite? && v.code == code && v.reason in reasons
  {
    var r := seq(|reasons|, i requires 0 <= i < |reasons| => Prerequisite(code, reasons[i]));
    assert forall i | 0 <= i < |reasons| :: r[i] == Prerequisite(code, reasons[i]);
    r
  }

  /** Some of the co-requisites are placed apart from the course. */
  ghost predicate SplitFrom(a: Assignment, course: CourseSpec, others: set<string>, term: int, v: Violation) {
    v.CoRequisiteSplit? && v.code == course.code && v.other in others && v.other in a && a[v.other] != term
  }

  method CheckCoRequisites(a: Assignment, course: CourseSpec, term: int) returns (violations: seq<Violation>)
    ensures violations == [] <==> forall other | other in course.coRequisites && other in a :: a[other] == term
    ensures forall v :: v in violations <==> SplitFrom(a, course, course.coRequisites, term, v)
  {
    violations := [];
    var todo := course.coRequisites;
    while |todo| > 0
      invariant todo <= course.coRequisites
      invariant violations == [] <==>
        forall other | other in course.coRequisites - todo && other in a :: a[other] == term
      invariant forall v :: v in violations <==> SplitFrom(a, course, course.coRequisites - todo, term, v)
      decreases |todo|
    {
      var other :| other in todo;
      if other in a && a[other] != term {
        violations := violations + [CoRequisiteSplit(course.code, other)];
      }
      assert course.coRequisites - (todo - {other}) == course.coRequisites - todo + {other};
      todo := todo - {other};
    }
    assert course.coRequisites - todo == course.coRequisites;
  }

  method CheckWindows(request: PlanRequest, a: Assignment) returns (violations: seq<Violation>)
    ensures violations == [] <==> forall term | term in TermMap(request.terms) :: WindowOk(request, a, term)
    ensures forall v :: v in violations <==> WindowFault(request, a, TermMap(request.terms).Keys, v)
  {
    hide WindowOk, WindowFault, TermMap, Indices;
    violations := [];
    var keys := Dedup(Indices(request));
    MapKeys(request);
    NoWindowFaults(request, a);
    assert SetOf(keys[..0]) == {};
    for i := 0 to |keys|
      invariant violations == [] <==> forall k | 0 <= k < i :: WindowOk(request, a, keys[k])
      invariant forall v :: v in violations <==> WindowFault(request, a, SetOf(keys[..i]), v)
    {
      var found := CheckWindow(request, a, keys[i]);
      WindowFaultsGrow(request, a, SetOf(keys[..i]), keys[i]);
      violations := violations + found;
      assert SetOf(keys[..i + 1]) == SetOf(keys[..i]) + {keys[i]};
    }
    assert SetOf(keys[..|keys|]) == TermMap(request.terms).Keys;
  }

  lemma NoWindowFaults(request: PlanRequest, a: Assignment)
    ensures forall v :: !WindowFault(request, a, {}, v)
  {
  }

  lemma WindowFaultsGrow(request: PlanRequest, a: Assignment, done: set<int>, term: int)
    ensures forall v :: WindowFault(request, a, done + {term}, v) <==>
      WindowFault(request, a, done, v) || WindowFault(request, a, {term}, v)
  {
  }

  method CheckWindow(request: PlanRequest, a: Assignment, term: int) returns (violations: seq<Violation>)
    requires term in TermMap(request.terms)
    ensures violations == [] <==> WindowOk(request, a, term)
    ensures forall v :: v in violations <==> WindowFault(request, a, {term}, v)
  {
    hide TermMap;
    var spec := TermMap(request.terms)[term];
    var units := SumUnits(request, InTerm(request, a, term));
    var credits := units / 1000;
    violations := [];
    if credits < spec.minCredits {
      violations := violations + [BelowMinimum(term)];
    }
    if credits > spec.maxCredits {
      violations := violations + [AboveMaximum(term)];
    }
  }

  /** `code` counts towards one of the first `n` exclusive groups. */
  ghost predicate Used(request: PlanRequest, a: Assignment, n: nat, code: string)
    requires n <= |request.requirements|
  {
    exists i ::
      0 <= i < n && !request.requirements[i].allowDoubleCounting && code in Taken(request, a, request.requirements[i])
  }

  method CheckGroups(request: PlanRequest, a: Assignment) returns (violations: seq<Violation>)
    ensures violations == [] <==>
            (forall group | group in request.requirements :: GroupOk(request, a, group))
            && ExclusiveUse(request, a, |request.requirements|)
    ensures forall v :: v in violations <==> GroupFault(request, a, |request.requirements|, v)
  {
    hide GroupOk, ExclusiveUse, Used, GroupFault;
    violations := [];
    NothingUsed(request, a);
    var allocations: map<string, string> := map[];
    for i := 0 to |request.requirements|
      invariant forall code :: code in allocations <==> Used(request, a, i, code)
      invariant violations == [] <==>
                (forall group | group in request.requirements[..i] :: GroupOk(request, a, group))
                && ExclusiveUse(request, a, i)
      invariant forall v :: v in violations <==> GroupFault(request, a, i, v)
    {
      var group := request.requirements[i];
      ExclusiveStep(request, a, i);
      GroupFaultsGrow(request, a, i, allocations.Keys);
      var found, allocations' := CheckGroup(request, a, group, allocations);
      violations := violations + found;
      allocations := allocations';
      assert request.requirements[..i + 1] == request.requirements[..i] + [group];
    }
    assert request.requirements[..|request.requirements|] == request.requirements;
  }

  /** The violations of one group when the codes in `used` already count elsewhere. */
  ghost predicate OneGroupFault(
    request: PlanRequest, a: Assignment, group: RequirementGroup, used: set<string>, v: Violation)
  {
    match v
    case TooFewCourses(_, _, _) => Short(request, a, group, v)
    case TooFewCredits(_, _, _) => Poor(request, a, group, v)
    case AllocatedTwice(code) => !group.allowDoubleCounting && code in Taken(request, a, group) && code in used
    case _ => false
  }

  lemma GroupFaultsGrow(request: PlanRequest, a: Assignment, i: nat, used: set<string>)
    requires i < |request.requirements| && forall code :: code in used <==> Used(request, a, i, code)
    ensures forall v :: GroupFault(request, a, i + 1, v) <==>
      GroupFault(request, a, i, v) || OneGroupFault(request, a, request.requirements[i], used, v)
  {
    hide Short, Poor, Taken, Used;
    forall v ensures GroupFault(request, a, i + 1, v) <==>
      GroupFault(request, a, i, v) || OneGroupFault(request, a, request.requirements[i], used, v)
    {
      match v
      case TooFewCourses(_, _, _) =>
        assert Short(request, a, request.requirements[i], v) ==> GroupFault(request, a, i + 1, v);
      case TooFewCredits(_, _, _) =>
        assert Poor(request, a, request.requirements[i], v) ==> GroupFault(request, a, i + 1, v);
      case AllocatedTwice(code) =>
        assert UsedAgain(request, a, i, code) ==> GroupFault(request, a, i + 1, v);
        assert UsedAgain(request, a, i, code) <==> OneGroupFault(request, a, request.requirements[i], used, v);
      case _ =>
    }
  }

  method CheckGroup(request: PlanRequest, a: Assignment, group: RequirementGroup, allocations: map<string, string>)
    returns (violations: seq<Violation>, allocations': map<string, string>)
    ensures violations == [] <==>
            GroupOk(request, a, group) && (group.allowDoubleCounting || Taken(request, a, group) !! allocations.Keys)
    ensures forall v :: v in violations <==> OneGroupFault(request, a, group, allocations.Keys, v)
    ensures allocations'.Keys == allocations.Keys + if group.allowDoubleCounting then {} else Taken(request, a, group)
  {
    hide Taken, GroupOk;
    var selected := Taken(request, a, group);
    violations := CheckMinima(request, a, group);
    allocations' := allocations;
    if !group.allowDoubleCounting {
      var twice;
      twice, allocations' := MarkUsed(selected, group.id, allocations);
      violations := violations + twice;
    }
  }

  method CheckMinima(request: PlanRequest, a: Assignment, group: RequirementGroup) returns (violations: seq<Violation>)
    ensures violations == [] <==> GroupOk(request, a, group)
    ensures forall v :: v in violations <==> !v.AllocatedTwice? && OneGroupFault(request, a, group, {}, v)
  {
    TakenIsListed(request, a, group);
    hide Taken;
    var selected := Taken(request, a, group);
    var units := SumUnits(request, selected);
    violations := [];
    if |selected| < group.minCourses {
      violations := violations + [TooFewCourses(group.title, group.minCourses, |selected|)];
    }
    if units / 1000 < group.minCredits {
      violations := violations + [TooFewCredits(group.title, group.minCredits, units / 1000)];
    }
  }

  lemma TakenIsListed(request: PlanRequest, a: Assignment, group: RequirementGroup)
    ensures forall code | code in Taken(request, a, group) :: code in CourseMap(request.courses)
  {
  }

  method MarkUsed(selected: set<string>, id: string, allocations: map<string, string>)
    returns (twice: seq<Violation>, allocations': map<string, string>)
    ensures twice == [] <==> selected !! allocations.Keys
    ensures forall v :: v in twice <==> v.AllocatedTwice? && v.code in selected && v.code in allocations
    ensures allocations'.Keys == allocations.Keys + selected
  {
    twice, allocations' := [], allocations;
    var todo := selected;
    while |todo| > 0
      invariant todo <= selected
      invariant forall code :: code in allocations' <==> code in allocations || (code in selected && code !in todo)
      invariant twice == [] <==> forall code | code in selected && code !in todo :: code !in allocations
      invariant forall v :: v in twice <==>
        v.AllocatedTwice? && v.code in selected && v.code !in todo && v.code in allocations
      decreases |todo|
    {
      var code :| code in todo;
      if code in allocations' {
        twice := twice + [AllocatedTwice(code)];
      }
      allocations' := allocations'[code := id];
      todo := todo - {code};
    }
    assert todo == {};
  }

  lemma NothingUsed(request: PlanRequest, a: Assignment)
    ensures ExclusiveUse(request, a, 0) && forall code :: !Used(request, a, 0, code)
    ensures forall v :: !GroupFault(request, a, 0, v)
  {
  }

  lemma ExclusiveStep(request: PlanRequest, a: Assignment, i: nat)
    requires i < |request.requirements|
    ensures var group := request.requirements[i];
            ExclusiveUse(request, a, i + 1) <==>
            ExclusiveUse(request, a, i)
            && (group.allowDoubleCounting
                || forall code | code in Taken(request, a, group) :: !Used(request, a, i, code))
    ensures forall code :: Used(request, a, i + 1, code) <==>
              Used(request, a, i, code)
                || (!request.requirements[i].allowDoubleCounting && code in Taken(request, a, request.requirements[i]))
  {
    var group := request.requirements[i];
    var selected := Taken(request, a, group);
    if !group.allowDoubleCounting && forall code | code in selected :: !Used(request, a, i, code) {
      forall k | 0 <= k < i && !request.requirements[k].allowDoubleCounting
        ensures Taken(request, a, request.requirements[k]) !! selected
      {
        assert forall code | code in Taken(request, a, request.requirements[k]) :: Used(request, a, i, code);
      }
    }
    if !group.allowDoubleCounting && ExclusiveUse(request, a, i + 1) {
      forall code | code in selected ensures !Used(request, a, i, code) {
        assert forall k | 0 <= k < i && !request.requirements[k].allowDoubleCounting ::
          Taken(request, a, request.requirements[k]) !! Taken(request, a, request.requirements[i]);
      }
    }
  }
}
