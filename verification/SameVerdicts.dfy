/** The planner's reading of prerequisites against the catalog's eligibility check, two separate evaluators. */
module SameVerdicts {
  import opened Ast
  import opened PlanModel
  import Eligibility
  import Validator

  /** The courses a plan has in the right place for a course of term `target`. */
  ghost function InPlace(a: Assignment, target: int, coreq: bool): set<string> {
    set code | code in a && a[code] != 0 && (if coreq then a[code] == target else a[code] < target)
  }

  /**
   What a student following the plan can show for a course of term `target`: the courses completed before the
   plan with their grades, those in place by the plan, whole credits, permissions and placements.
   */
  ghost function EvidenceAt(
    request: PlanRequest, a: Assignment, target: int, coreq: bool, earned: int): Eligibility.Evidence
  {
    Eligibility.Evidence(request.completed, InPlace(a, target, coreq), earned / 1000, request.permissions,
      request.placements, request.grades)
  }

  /** No COREQ inside. */
  predicate Plain(e: Expr) {
    match e
    case CoRequisite(_) => false
    case AllOf(items) => forall i | 0 <= i < |items| :: Plain(items[i])
    case AnyOf(items) => forall i | 0 <= i < |items| :: Plain(items[i])
    case _ => true
  }

  /** Off and inside a COREQ, the planner accepts a prerequisite exactly if the catalog finds it satisfied. */
  lemma {:induction false} PlannerAgreesWithCatalog(
    request: PlanRequest, a: Assignment, e: Expr, target: int, coreq: bool, earned: int)
    requires coreq || Plain(e)
    ensures Holds(request, a, e, target, coreq, earned) <==>
      Eligibility.Evaluate(e, EvidenceAt(request, a, target, coreq, earned)) == Eligibility.Satisfied
  {
    var ev := EvidenceAt(request, a, target, coreq, earned);
    match e
    case CourseRef(code) =>
    case GradeAtLeast(course, grade) =>
    case CreditsAtLeast(credits) =>
    case Predicate(kind, value) =>
    case _ =>
      forall i | 0 <= i < |e.items|
        ensures Holds(request, a, e.items[i], target, coreq, earned) <==>
          Eligibility.Evaluate(e.items[i], ev) == Eligibility.Satisfied
      {
        PlannerAgreesWithCatalog(request, a, e.items[i], target, coreq, earned);
      }
  }

  /** A COREQ asks for its items in the term itself. */
  lemma CorequisitesAgree(request: PlanRequest, a: Assignment, items: seq<Expr>, target: int, coreq: bool, earned: int)
    ensures Holds(request, a, CoRequisite(items), target, coreq, earned) <==>
      Eligibility.Evaluate(CoRequisite(items), EvidenceAt(request, a, target, true, earned)) == Eligibility.Satisfied
  {
    PlannerAgreesWithCatalog(request, a, CoRequisite(items), target, true, earned);
  }

  /** In a passing plan the catalog finds the student eligible for every course with a live plain prerequisite. */
  lemma PassingIsEligible(request: PlanRequest, a: Assignment, code: string)
    requires Validator.PlanPasses(request, a) && code in a && code in CourseMap(request.courses) && a[code] != 0
    requires CourseMap(request.courses)[code].prerequisites.Some?
    requires var e := CourseMap(request.courses)[code].prerequisites.value; Plain(e) && !Validator.Dead(e)
    ensures var e := CourseMap(request.courses)[code].prerequisites.value;
      var earned := EarnedBefore(request, a, a[code]);
      Eligibility.Evaluate(e, EvidenceAt(request, a, a[code], false, earned)) == Eligibility.Satisfied
  {
    var course := CourseMap(request.courses)[code];
    var e, earned := course.prerequisites.value, EarnedBefore(request, a, a[code]);
    assert Validator.PrerequisitePassed(request, a, course, a[code]);
    if !Holds(request, a, e, a[code], false, earned) {
      Validator.FalseHasReason(request, a, e, a[code], false, earned);
    }
    PlannerAgreesWithCatalog(request, a, e, a[code], false, earned);
  }
}
