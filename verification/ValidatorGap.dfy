/**
 The one way the validator departs from the plan specification: a prerequisite that is false without
 a reason leaves no violation. `Validator.ValidatorIsExact` shows that this needs a dead prerequisite;
 here, every dead prerequisite is shown to make the validator accept some plan it should reject.
 */
module ValidatorGap {
  import opened Ast
  import Eligibility
  import opened Outcomes
  import opened PlanModel
  import opened Sums
  import opened Validator

  function Mentioned(e: Expr): set<string> {
    match e
    case CourseRef(code) => {code}
    case GradeAtLeast(course, _) => {course}
    case AllOf(items) => MentionedByAll(items)
    case AnyOf(items) => MentionedByAll(items)
    case CoRequisite(items) => MentionedByAll(items)
    case _ => {}
  }

  function MentionedByAll(items: seq<Expr>): set<string> {
    if items == [] then {} else Mentioned(items[0]) + MentionedByAll(items[1..])
  }

  function CreditsAsked(e: Expr): nat {
    match e
    case CreditsAtLeast(credits) => if credits > 0 then credits else 0
    case AllOf(items) => CreditsAskedByAll(items)
    case AnyOf(items) => CreditsAskedByAll(items)
    case CoRequisite(items) => CreditsAskedByAll(items)
    case _ => 0
  }

  function CreditsAskedByAll(items: seq<Expr>): nat {
    if items == [] then 0 else CreditsAsked(items[0]) + CreditsAskedByAll(items[1..])
  }

  /** A student who has everything `e` could ask for. */
  ghost predicate Endowed(request: PlanRequest, e: Expr, earned: int) {
    && Mentioned(e) <= request.completed
    && (forall code | code in request.completed :: GradeOf(request, code) == "A+")
    && Eligibility.Asked(e, Permission) <= request.permissions
    && Eligibility.Asked(e, Placement) <= request.placements
    && CreditsAsked(e) * 1000 <= earned
  }

  ghost predicate EndowedAll(request: PlanRequest, items: seq<Expr>, earned: int) {
    && MentionedByAll(items) <= request.completed
    && (forall code | code in request.completed :: GradeOf(request, code) == "A+")
    && Eligibility.AskedByAll(items, Permission) <= request.permissions
    && Eligibility.AskedByAll(items, Placement) <= request.placements
    && CreditsAskedByAll(items) * 1000 <= earned
  }

  lemma {:induction false} EndowedGivesNoReason(
    request: PlanRequest, a: Assignment, e: Expr, target: int, coreq: bool, earned: int)
    requires Endowed(request, e, earned)
    ensures Evaluate(request, a, e, target, coreq, earned).1 == []
    decreases e, 0
  {
    match e
    case AllOf(items) => EndowedGivesNoReasons(request, a, items, target, coreq, earned);
    case AnyOf(items) => EndowedGivesNoReasons(request, a, items, target, coreq, earned);
    case CoRequisite(items) => EndowedGivesNoReasons(request, a, items, target, true, earned);
    case GradeAtLeast(course, grade) => assert GradePoints(grade) <= GradePoints("A+");
    case _ =>
  }

  lemma {:induction false} EndowedGivesNoReasons(
    request: PlanRequest, a: Assignment, items: seq<Expr>, target: int, coreq: bool, earned: int)
    requires EndowedAll(request, items, earned)
    ensures Reasons(request, a, items, target, coreq, earned) == []
    decreases items, 1
  {
    if items != [] {
      EndowedGivesNoReason(request, a, items[0], target, coreq, earned);
      EndowedGivesNoReasons(request, a, items[1..], target, coreq, earned);
    }
  }

  /** One course in one term, asked for by a student who has everything. */
  function Endowment(e: Expr): PlanRequest {
    PlanRequest(
      [CourseSpec("X", 1000, {}, Some(e), 0, 0, {}, {})], [TermBounds(1, 0, 1)], [],
      Mentioned(e), CreditsAsked(e), map code | code in Mentioned(e) :: "A+",
      Eligibility.Asked(e, Permission), Eligibility.Asked(e, Placement), map[], {}, EarliestCompletion)
  }

  /** Every dead prerequisite is accepted by the validator in some request that has it. */
  lemma DeadPrerequisiteIsAccepted(e: Expr)
    requires Dead(e)
    ensures PlanPasses(Endowment(e), map["X" := 1]) && !PlanSatisfies(Endowment(e), map["X" := 1])
  {
    var request, a: Assignment := Endowment(e), map["X" := 1];
    var course := request.courses[0];
    EndowmentFrame(e);
    var earned := EarnedBefore(request, a, 1);
    EndowedGivesNoReason(request, a, e, 1, false, earned);
    DeadNeverHolds(request, a, e, 1, false, earned);
    assert a["X"] == 1 && !PrerequisiteMet(request, a, course, 1);
  }

  /** The validator passes a plan that the specification rejects, in a request whose only prerequisite is `e`. */
  ghost predicate Slips(request: PlanRequest, a: Assignment, e: Expr) {
    && (forall course | course in request.courses :: course.prerequisites.None? || course.prerequisites == Some(e))
    && PlanPasses(request, a) && !PlanSatisfies(request, a)
  }

  /** A prerequisite can slip through exactly if it is dead. */
  lemma SlipsIffDead(e: Expr)
    ensures (exists request, a :: Slips(request, a, e)) <==> Dead(e)
  {
    if Dead(e) {
      DeadPrerequisiteIsAccepted(e);
      assert Slips(Endowment(e), map["X" := 1], e);
    } else {
      hide PlanPasses, PlanSatisfies;
      forall request, a ensures !Slips(request, a, e) {
        ValidatorIsExact(request, a);
      }
    }
  }

  lemma EndowmentFrame(e: Expr)
    ensures var request, a: Assignment := Endowment(e), map["X" := 1];
            && InputOk(request) && FrameOk(request, a)
            && CourseMap(request.courses) == map["X" := request.courses[0]]
            && EarnedBefore(request, a, 1) == CreditsAsked(e) * 1000
  {
    var request, a: Assignment := Endowment(e), map["X" := 1];
    assert CourseMap(request.courses) == map["X" := request.courses[0]];
    assert TermMap(request.terms) == map[1 := request.terms[0]];
    assert Before(request, a, 1) == {} && InTerm(request, a, 1) == {"X"};
    assert Codes(request) == ["X"] && Indices(request) == [1];
    SumInsert({}, UnitsOf(request), "X");
    assert {} + {"X"} == {"X"};
    assert TermUnits(request, a, 1) == 1000;
  }

  /** The smallest case: an OR with no alternatives. */
  lemma EmptyAnyOfIsAccepted()
    ensures Dead(AnyOf([]))
    ensures PlanPasses(Endowment(AnyOf([])), map["X" := 1]) && !PlanSatisfies(Endowment(AnyOf([])), map["X" := 1])
  {
    DeadPrerequisiteIsAccepted(AnyOf([]));
  }
}
