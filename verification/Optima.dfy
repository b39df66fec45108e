/** The best plans of the solver against the best plans of the oracle, for earliest completion. */
module Optima {
  import opened Ast
  import opened Compiler
  import opened Objectives
  import opened Oracle
  import opened Ordering
  import opened Outcomes
  import opened PlanAgreement
  import opened PlanModel
  import opened PlanRules
  import opened Validator

  /** A plan that the constraint model admits and that no other such plan beats in the posted score. */
  ghost predicate SolverBest(request: PlanRequest, a: Assignment) {
    ModelAccepts(request, a) && forall b | ModelAccepts(request, b) ::
      PostedEarliness(request.courses, b, |request.terms|) <= PostedEarliness(request.courses, a, |request.terms|)
  }

  /** A total plan that passes the validator and that no other such plan beats in the oracle's score. */
  ghost predicate OracleBest(request: PlanRequest, a: Assignment)
    requires |request.terms| >= 1
  {
    Passing(request, a) && forall b | Passing(request, b) :: ObjectiveValue(request, b) <= ObjectiveValue(request, a)
  }

  ghost predicate Passing(request: PlanRequest, a: Assignment) {
    Total(request, a) && PlanPasses(request, a)
  }

  /** Model and validator admit the same plans. */
  ghost predicate Agreed(request: PlanRequest) {
    && Comparable(request) && |request.terms| >= 1 && request.objective == EarliestCompletion
    && forall a :: ModelAccepts(request, a) <==> Passing(request, a)
  }

  /** The request plans these courses: the same codes with the same credits. */
  ghost predicate Plans(request: PlanRequest, courses: seq<CourseSpec>) {
    && |request.courses| == |courses|
    && forall i | 0 <= i < |courses| ::
      request.courses[i].code == courses[i].code && request.courses[i].creditUnits == courses[i].creditUnits
  }

  /** Whatever is asked of these courses, solver and oracle choose the same plans if they admit the same. */
  ghost predicate SameBest(courses: seq<CourseSpec>) {
    forall request, a | Plans(request, courses) && Agreed(request) :: SolverBest(request, a) <==> OracleBest(request, a)
  }

  // ---- Equal credits ----

  lemma AcceptedIsPlacement(request: PlanRequest, a: Assignment)
    requires ModelAccepts(request, a)
    ensures Objectives.Placement(request, a)
  {
    forall code | code in a ensures code in SetOf(Codes(request)) && 0 <= a[code] <= |request.terms| {
      var i :| 0 <= i < |request.courses| && request.courses[i].code == code;
      assert Codes(request)[i] == code;
      assert CourseRule(request, a, i);
    }
    forall code | code in SetOf(Codes(request)) ensures code in a {
      var i :| 0 <= i < |request.courses| && Codes(request)[i] == code;
      assert request.courses[i].code == code;
    }
  }

  lemma UniformBest(request: PlanRequest, a: Assignment)
    requires Agreed(request) && UniformUnits(request.courses)
    ensures SolverBest(request, a) <==> OracleBest(request, a)
  {
    hide Comparable, ModelAccepts, PlanPasses, UniformUnits, ObjectiveValue, PostedEarliness;
    AgreedIsInput(request);
    if ModelAccepts(request, a) {
      AcceptedIsPlacement(request, a);
      forall b | ModelAccepts(request, b)
        ensures PostedEarliness(request.courses, b, |request.terms|)
          <= PostedEarliness(request.courses, a, |request.terms|)
          <==> ObjectiveValue(request, b) <= ObjectiveValue(request, a)
      {
        AcceptedIsPlacement(request, b);
        UniformOrder(request, b, a);
      }
    }
  }

  lemma AgreedIsInput(request: PlanRequest)
    requires Agreed(request)
    ensures Distinct(Codes(request)) && forall c | c in request.courses :: c.creditUnits > 0
  {
    assert forall c | c in request.courses :: CourseInputOk(request, c);
  }

  // ---- Different credits ----

  /**
   Of the courses only the first and the second are on offer: the first in both terms, the second in the last
   one and only beside the first.
   */
  function Rivals(courses: seq<CourseSpec>, first: nat, second: nat): PlanRequest
    requires first < second < |courses|
    requires forall c | c in courses :: c.creditUnits > 0
  {
    var cap := courses[first].creditUnits + courses[second].creditUnits;
    assert courses[first] in courses && courses[second] in courses;
    PlanRequest(
      Offers(courses, first, second),
      [TermBounds(1, 0, cap), TermBounds(2, 0, cap)], [], {}, 0, map[], {}, {}, map[],
      set k | 0 <= k < |courses| && k != first && k != second :: courses[k].code, EarliestCompletion)
  }

  function Offers(courses: seq<CourseSpec>, first: nat, second: nat): (r: seq<CourseSpec>)
    requires first < |courses|
    ensures |r| == |courses| && forall k | 0 <= k < |courses| :: r[k] == Offer(courses, first, second, k)
  {
    seq(|courses|, k requires 0 <= k < |courses| => Offer(courses, first, second, k))
  }

  function Offer(courses: seq<CourseSpec>, first: nat, second: nat, k: nat): CourseSpec
    requires first < |courses| && k < |courses|
  {
    CourseSpec(courses[k].code, courses[k].creditUnits, if k == second then {2} else {},
      if k == second then Some(CoRequisite([CourseRef(courses[first].code)])) else None, 0, 0, {}, {})
  }

  predicate Varied(courses: seq<CourseSpec>, first: nat, second: nat) {
    && first < second < |courses| && (forall c | c in courses :: c.creditUnits > 0)
    && forall i, j | 0 <= i < j < |courses| :: courses[i].code != courses[j].code
  }

  /** The plans of the rivals: the second course in term 2 if at all, and then the first one too. */
  predicate RivalPlan(courses: seq<CourseSpec>, first: nat, second: nat, a: Assignment)
    requires first < second < |courses|
  {
    && (forall code | code in a :: exists k :: 0 <= k < |courses| && courses[k].code == code)
    && (forall k | 0 <= k < |courses| ::
      courses[k].code in a && (k != first && k != second ==> a[courses[k].code] == 0))
    && 0 <= a[courses[first].code] <= 2
    && (a[courses[second].code] == 0 || (a[courses[second].code] == 2 && a[courses[first].code] == 2))
  }

  lemma RivalsComparable(courses: seq<CourseSpec>, first: nat, second: nat)
    requires Varied(courses, first, second)
    ensures Comparable(Rivals(courses, first, second)) && NoDeadPrerequisite(Rivals(courses, first, second))
  {
    hide InputOk, NoDeadPrerequisite, LooksAhead, InvalidOf, InvalidUpto;
    var request := Rivals(courses, first, second);
    RivalsAreInput(courses, first, second);
    forall k | 0 <= k < |courses| ensures !LooksAhead(request, k) && InvalidOf(request, k) == [] {
      OfferIsPlain(courses, first, second, k);
    }
    NothingInvalid(request, |courses|);
  }

  lemma RivalsAreInput(courses: seq<CourseSpec>, first: nat, second: nat)
    requires Varied(courses, first, second)
    ensures var request := Rivals(courses, first, second);
      InputOk(request) && NoDeadPrerequisite(request) && Indices(request) == [1, 2]
  {
    var request := Rivals(courses, first, second);
    assert Indices(request) == [1, 2];
    forall i, j | 0 <= i < j < |Codes(request)| ensures Codes(request)[i] != Codes(request)[j] {
    }
    forall course | course in request.courses
      ensures CourseInputOk(request, course)
      ensures course.prerequisites.Some? ==> !Dead(course.prerequisites.value)
    {
      var k :| 0 <= k < |courses| && course == Offer(courses, first, second, k);
      assert courses[k] in courses;
    }
  }

  lemma {:induction false} NothingInvalid(request: PlanRequest, k: nat)
    requires k <= |request.courses| && forall i | 0 <= i < k :: InvalidOf(request, i) == []
    ensures InvalidUpto(request, k) == []
  {
    hide InvalidOf;
    if k > 0 {
      NothingInvalid(request, k - 1);
    }
  }

  /** The one prerequisite reads a course that is registered, and no credits. */
  lemma OfferIsPlain(courses: seq<CourseSpec>, first: nat, second: nat, k: nat)
    requires Varied(courses, first, second) && k < |courses|
    ensures var request := Rivals(courses, first, second); !LooksAhead(request, k) && InvalidOf(request, k) == []
  {
    var request := Rivals(courses, first, second);
    var reference := CourseRef(courses[first].code);
    if k == second {
      assert courses[first].code == request.courses[first].code;
      assert courses[first].code in Registered(request, k + 1);
      assert [reference][..0] == [] && [reference][0] == reference;
      assert !ReadsCredits(reference) && !ReadsCredits(CoRequisite([reference]));
      assert InvalidIn(request, Registered(request, k + 1), reference) == [];
      assert InvalidInAll(request, Registered(request, k + 1), [reference]) == [];
    }
  }

  function Early(term: int): int {
    if term > 0 then 3 - term else 0
  }

  lemma RivalTerm(courses: seq<CourseSpec>, first: nat, second: nat, a: Assignment, k: nat)
    requires first < second < |courses| && RivalPlan(courses, first, second, a) && k < |courses|
    ensures courses[k].code in a && EarlinessOf(Offer(courses, first, second, k), a, 2) == Early(a[courses[k].code])
    ensures k != first && k != second ==> a[courses[k].code] == 0
  {
  }

  lemma {:induction false} RivalSums(courses: seq<CourseSpec>, first: nat, second: nat, a: Assignment, k: nat, t: int)
    requires first < second < |courses| && RivalPlan(courses, first, second, a) && k <= |courses| && t >= 1
    ensures courses[first].code in a && courses[second].code in a
    ensures var listed, x, y := Offers(courses, first, second)[..k], courses[first], courses[second];
      && ListedEarliness(listed, a, 2)
        == (if first < k then Early(a[x.code]) else 0) + (if second < k then Early(a[y.code]) else 0)
      && PostedEarliness(listed, a, 2)
        == (if first < k then Early(a[x.code]) * x.creditUnits else 0)
        + (if second < k then Early(a[y.code]) * y.creditUnits else 0)
      && ListedUnits(listed, a, t)
        == (if first < k && a[x.code] == t then x.creditUnits else 0)
        + (if second < k && a[y.code] == t then y.creditUnits else 0)
  {
    hide RivalPlan, Offers, EarlinessOf, Early;
    RivalTerm(courses, first, second, a, first);
    RivalTerm(courses, first, second, a, second);
    if k > 0 {
      RivalSums(courses, first, second, a, k - 1, t);
      hide ListedEarliness, PostedEarliness, ListedUnits;
      RivalTerm(courses, first, second, a, k - 1);
      SumsGrow(Offers(courses, first, second), a, k, 2);
      UnitsGrow(Offers(courses, first, second), a, k, t);
      NotTaken(a, courses[k - 1]);
    }
  }

  lemma NotTaken(a: Assignment, course: CourseSpec)
    requires course.code in a
    ensures a[course.code] == 0 ==> Early(a[course.code]) == 0 && Early(a[course.code]) * course.creditUnits == 0
  {
  }

  lemma UnitsGrow(courses: seq<CourseSpec>, a: Assignment, k: nat, t: int)
    requires 1 <= k <= |courses|
    ensures var last := courses[k - 1];
      ListedUnits(courses[..k], a, t) == ListedUnits(courses[..k - 1], a, t)
        + if last.code in a && a[last.code] == t then last.creditUnits else 0
  {
    assert courses[..k][..k - 1] == courses[..k - 1] && courses[..k][k - 1] == courses[k - 1];
  }

  // ---- Which plans of the rivals are accepted ----

  lemma RivalSeen(courses: seq<CourseSpec>, first: nat, second: nat, a: Assignment)
    requires Varied(courses, first, second) && RivalPlan(courses, first, second, a)
    ensures PrerequisiteRule(Rivals(courses, first, second), a, second)
  {
    var request := Rivals(courses, first, second);
    var seen := Upto(request, a, second + 1);
    assert request.courses[first].code == courses[first].code;
    assert courses[first].code in Registered(request, second + 1);
    assert courses[first].code in seen && seen[courses[first].code] == a[courses[first].code];
    assert [CourseRef(courses[first].code)][0] == CourseRef(courses[first].code);
  }

  /** What the prerequisite of the second course asks, in the model and in the validator. */
  lemma NeedsFirst(courses: seq<CourseSpec>, first: nat, second: nat, a: Assignment, earned: int)
    requires Varied(courses, first, second)
    ensures var e := CoRequisite([CourseRef(courses[first].code)]);
      Holds(Rivals(courses, first, second), a, e, 2, false, earned) ==>
        courses[first].code in a && a[courses[first].code] == 2
  {
    var e := CoRequisite([CourseRef(courses[first].code)]);
    assert e.items[0] == CourseRef(courses[first].code);
    assert Holds(Rivals(courses, first, second), a, e, 2, false, earned) ==>
      Holds(Rivals(courses, first, second), a, e.items[0], 2, true, earned);
  }

  lemma RivalIsAccepted(courses: seq<CourseSpec>, first: nat, second: nat, a: Assignment)
    requires Varied(courses, first, second) && RivalPlan(courses, first, second, a)
    ensures ModelAccepts(Rivals(courses, first, second), a)
  {
    hide CourseRule, WindowRule, AllocationRule;
    var request := Rivals(courses, first, second);
    RivalKeys(courses, first, second, a);
    forall k | 0 <= k < |courses| ensures CourseRule(request, a, k) {
      RivalObeys(courses, first, second, a, k);
    }
    forall j | 0 <= j < 2 ensures WindowRule(request, a, j) {
      RivalFits(courses, first, second, a, j);
    }
    assert AllocationRule(request, a, {}) by {
      NoGroups(request, a);
    }
  }

  lemma RivalKeys(courses: seq<CourseSpec>, first: nat, second: nat, a: Assignment)
    requires Varied(courses, first, second) && RivalPlan(courses, first, second, a)
    ensures a.Keys == Registered(Rivals(courses, first, second), |courses|)
  {
    var request := Rivals(courses, first, second);
    forall code ensures code in a.Keys <==> code in Registered(request, |courses|) {
      if code in a {
        var k :| 0 <= k < |courses| && courses[k].code == code;
        assert request.courses[k].code == code;
      }
    }
  }

  lemma RivalFits(courses: seq<CourseSpec>, first: nat, second: nat, a: Assignment, j: nat)
    requires Varied(courses, first, second) && RivalPlan(courses, first, second, a) && j < 2
    ensures WindowRule(Rivals(courses, first, second), a, j)
  {
    var request := Rivals(courses, first, second);
    assert Offers(courses, first, second)[..|courses|] == request.courses;
    RivalSums(courses, first, second, a, |courses|, j + 1);
    assert courses[first] in courses && courses[second] in courses;
  }

  lemma NoGroups(request: PlanRequest, a: Assignment)
    requires request.requirements == []
    ensures AllocationRule(request, a, {})
  {
  }

  lemma RivalObeys(courses: seq<CourseSpec>, first: nat, second: nat, a: Assignment, k: nat)
    requires Varied(courses, first, second) && RivalPlan(courses, first, second, a) && k < |courses|
    ensures CourseRule(Rivals(courses, first, second), a, k)
  {
    var request := Rivals(courses, first, second);
    assert Indices(request)[0] == 1 && Indices(request)[1] == 2;
    assert request.courses[k] == Offer(courses, first, second, k);
    if k == second {
      RivalSeen(courses, first, second, a);
    }
    hide Holds, ModelEarned;
    if k == first || k == second {
      assert courses[k].code !in request.excluded;
    }
    assert PlaceRule(request, request.courses[k], a[courses[k].code]);
  }

  lemma AcceptedIsRival(courses: seq<CourseSpec>, first: nat, second: nat, a: Assignment)
    requires Varied(courses, first, second) && ModelAccepts(Rivals(courses, first, second), a)
    ensures RivalPlan(courses, first, second, a)
  {
    hide Rivals, ModelAccepts;
    forall code | code in a ensures exists k :: 0 <= k < |courses| && courses[k].code == code {
      var k := AcceptedCode(courses, first, second, a, code);
    }
    forall k | 0 <= k < |courses|
      ensures courses[k].code in a && 0 <= a[courses[k].code] <= 2
      ensures k != first && k != second ==> a[courses[k].code] == 0
    {
      AcceptedTerm(courses, first, second, a, k);
    }
    AcceptedTerm(courses, first, second, a, second);
  }

  lemma AcceptedCode(courses: seq<CourseSpec>, first: nat, second: nat, a: Assignment, code: string) returns (k: nat)
    requires Varied(courses, first, second) && ModelAccepts(Rivals(courses, first, second), a) && code in a
    ensures k < |courses| && courses[k].code == code
  {
    hide RulesUpto;
    var request := Rivals(courses, first, second);
    k :| 0 <= k < |courses| && request.courses[k].code == code;
    assert courses[k].code == code;
  }

  lemma AcceptedTerm(courses: seq<CourseSpec>, first: nat, second: nat, a: Assignment, k: nat)
    requires Varied(courses, first, second) && ModelAccepts(Rivals(courses, first, second), a) && k < |courses|
    ensures courses[k].code in a && 0 <= a[courses[k].code] <= 2
    ensures k != first && k != second ==> a[courses[k].code] == 0
    ensures k == second && a[courses[k].code] != 0 ==>
      a[courses[k].code] == 2 && courses[first].code in a && a[courses[first].code] == 2
  {
    hide Holds, ModelEarned, Upto, Registered, WindowRule, AllocationRule;
    var request := Rivals(courses, first, second);
    assert CourseRule(request, a, k) && request.courses[k] == Offer(courses, first, second, k);
    assert PlaceRule(request, request.courses[k], a[courses[k].code]);
    if k == second {
      var seen := Upto(request, a, second + 1);
      NeedsFirst(courses, first, second, seen, ModelEarned(request, seen, 2));
      SeenIsPart(request, a, second + 1);
    }
  }

  lemma SeenIsPart(request: PlanRequest, a: Assignment, k: nat)
    requires k <= |request.courses|
    ensures forall code | code in Upto(request, a, k) :: code in a && Upto(request, a, k)[code] == a[code]
  {
  }

  lemma PassingIsRival(courses: seq<CourseSpec>, first: nat, second: nat, a: Assignment)
    requires Varied(courses, first, second) && Passing(Rivals(courses, first, second), a)
    ensures RivalPlan(courses, first, second, a)
  {
    hide Rivals, PlanPasses, PlanSatisfies, Comparable, NoDeadPrerequisite;
    var request := Rivals(courses, first, second);
    RivalsComparable(courses, first, second);
    ValidatorIsExact(request, a);
    forall code | code in a ensures exists k :: 0 <= k < |courses| && courses[k].code == code {
      var k := PassingCode(courses, first, second, a, code);
    }
    forall k | 0 <= k < |courses|
      ensures courses[k].code in a && 0 <= a[courses[k].code] <= 2
      ensures k != first && k != second ==> a[courses[k].code] == 0
    {
      PassingTerm(courses, first, second, a, k);
    }
    PassingTerm(courses, first, second, a, second);
  }

  lemma PassingCode(courses: seq<CourseSpec>, first: nat, second: nat, a: Assignment, code: string) returns (k: nat)
    requires Varied(courses, first, second) && Total(Rivals(courses, first, second), a) && code in a
    ensures k < |courses| && courses[k].code == code
  {
    var request := Rivals(courses, first, second);
    k :| 0 <= k < |courses| && request.courses[k].code == code;
    assert courses[k].code == code;
  }

  lemma PassingTerm(courses: seq<CourseSpec>, first: nat, second: nat, a: Assignment, k: nat)
    requires Varied(courses, first, second) && k < |courses| && Comparable(Rivals(courses, first, second))
    requires Total(Rivals(courses, first, second), a) && PlanSatisfies(Rivals(courses, first, second), a)
    ensures courses[k].code in a && 0 <= a[courses[k].code] <= 2
    ensures k != first && k != second ==> a[courses[k].code] == 0
    ensures k == second && a[courses[k].code] != 0 ==>
      a[courses[k].code] == 2 && courses[first].code in a && a[courses[first].code] == 2
  {
    var request := Rivals(courses, first, second);
    CodeAt(request, k);
    TermsKnown(request);
    assert request.courses[k] == Offer(courses, first, second, k) && courses[k].code in Registered(request, |courses|);
    hide Holds, EarnedBefore, CourseMap, TermMap, Comparable, Registered, WindowOk, ExclusiveUse;
    assert PlacementOk(request, a, courses[k].code);
    if k == second && a[courses[k].code] != 0 {
      assert PrerequisiteMet(request, a, request.courses[second], 2);
      NeedsFirst(courses, first, second, a, EarnedBefore(request, a, 2));
    }
  }

  lemma RivalsAgreed(courses: seq<CourseSpec>, first: nat, second: nat)
    requires Varied(courses, first, second)
    ensures Agreed(Rivals(courses, first, second)) && Plans(Rivals(courses, first, second), courses)
  {
    var request := Rivals(courses, first, second);
    RivalsComparable(courses, first, second);
    hide Comparable, ModelAccepts, PlanPasses, RivalPlan;
    forall a ensures ModelAccepts(request, a) <==> Passing(request, a) {
      if ModelAccepts(request, a) {
        ModelSolutionsAreValid(request, a);
        AcceptedIsTotal(request, a);
        assert BeyondModel(request, a);
      }
      if Passing(request, a) {
        PassingIsRival(courses, first, second, a);
        RivalIsAccepted(courses, first, second, a);
      }
    }
  }

  lemma AcceptedIsTotal(request: PlanRequest, a: Assignment)
    requires ModelAccepts(request, a)
    ensures Total(request, a)
  {
  }

  function CodeSet(courses: seq<CourseSpec>): set<string> {
    set k | 0 <= k < |courses| :: courses[k].code
  }

  /** The plan that takes the first course in one term and the second, if at all, in term 2. */
  function Choice(courses: seq<CourseSpec>, first: nat, second: nat, term: int, both: bool): Assignment
    requires first < second < |courses|
  {
    map code | code in CodeSet(courses) ::
      if code == courses[first].code then term else if both && code == courses[second].code then 2 else 0
  }

  lemma RivalScores(courses: seq<CourseSpec>, first: nat, second: nat, a: Assignment)
    requires Varied(courses, first, second) && RivalPlan(courses, first, second, a)
    ensures var request, x, y := Rivals(courses, first, second), courses[first], courses[second];
      && ObjectiveValue(request, a) == Early(a[x.code]) + Early(a[y.code])
      && PostedEarliness(request.courses, a, |request.terms|)
        == Early(a[x.code]) * x.creditUnits + Early(a[y.code]) * y.creditUnits
  {
    hide ModelAccepts, Objectives.Placement, ObjectiveValue, ListedEarliness, PostedEarliness, RivalPlan, Early;
    var request := Rivals(courses, first, second);
    RivalIsAccepted(courses, first, second, a);
    AcceptedIsPlacement(request, a);
    RivalsAreInput(courses, first, second);
    ObjectiveIsListed(request, a);
    assert Offers(courses, first, second)[..|courses|] == request.courses;
    RivalSums(courses, first, second, a, |courses|, 1);
  }

  lemma ChoiceIsRival(courses: seq<CourseSpec>, first: nat, second: nat, term: int, both: bool)
    requires Varied(courses, first, second) && 0 <= term <= 2 && (both ==> term == 2)
    ensures RivalPlan(courses, first, second, Choice(courses, first, second, term, both))
    ensures var a := Choice(courses, first, second, term, both);
      a[courses[first].code] == term && a[courses[second].code] == if both then 2 else 0
  {
  }

  /** For the oracle both ways tie; for the solver the course with more credits decides. */
  lemma RivalsDiffer(courses: seq<CourseSpec>, first: nat, second: nat)
    requires Varied(courses, first, second) && courses[first].creditUnits != courses[second].creditUnits
    ensures !SameBest(courses)
  {
    hide ModelAccepts, PlanPasses, Comparable, Rivals, Choice, Plans, ObjectiveValue, PostedEarliness;
    var request := Rivals(courses, first, second);
    RivalsAgreed(courses, first, second);
    ChoicesTie(courses, first, second);
    var alone, together := Choice(courses, first, second, 1, false), Choice(courses, first, second, 2, true);
    var worse := if courses[first].creditUnits > courses[second].creditUnits then together else alone;
    assert OracleBest(request, worse) && !SolverBest(request, worse);
  }

  lemma ChoicesTie(courses: seq<CourseSpec>, first: nat, second: nat)
    requires Varied(courses, first, second)
    ensures var request, x, y := Rivals(courses, first, second), courses[first], courses[second];
      var alone, together := Choice(courses, first, second, 1, false), Choice(courses, first, second, 2, true);
      && |request.terms| == 2 && OracleBest(request, alone) && OracleBest(request, together)
      && ModelAccepts(request, alone) && ModelAccepts(request, together)
      && PostedEarliness(request.courses, alone, 2) == 2 * x.creditUnits
      && PostedEarliness(request.courses, together, 2) == x.creditUnits + y.creditUnits
  {
    hide ModelAccepts, Agreed, ObjectiveValue, PostedEarliness, Choice, OracleBest, RivalPlan;
    ChoiceIsRival(courses, first, second, 1, false);
    ChoiceIsRival(courses, first, second, 2, true);
    EarliestWins(courses, first, second, Choice(courses, first, second, 1, false));
    EarliestWins(courses, first, second, Choice(courses, first, second, 2, true));
  }

  /** A plan of earliness 2 is among the best of the oracle. */
  lemma EarliestWins(courses: seq<CourseSpec>, first: nat, second: nat, a: Assignment)
    requires Varied(courses, first, second) && RivalPlan(courses, first, second, a)
    requires Early(a[courses[first].code]) + Early(a[courses[second].code]) == 2
    ensures var request, x, y := Rivals(courses, first, second), courses[first], courses[second];
      && |request.terms| == 2 && ModelAccepts(request, a) && OracleBest(request, a)
      && PostedEarliness(request.courses, a, 2) == Early(a[x.code]) * x.creditUnits + Early(a[y.code]) * y.creditUnits
  {
    hide ModelAccepts, PlanPasses, Comparable, ObjectiveValue, PostedEarliness;
    var request := Rivals(courses, first, second);
    RivalsAgreed(courses, first, second);
    RivalIsAccepted(courses, first, second, a);
    RivalScores(courses, first, second, a);
    forall b | Passing(request, b) ensures ObjectiveValue(request, b) <= 2 {
      PassingIsRival(courses, first, second, b);
      RivalScores(courses, first, second, b);
    }
  }

  /** Solver and oracle choose the same plans in all requests for these courses exactly if all have equal credits. */
  lemma SameBestIffUniform(courses: seq<CourseSpec>)
    requires forall c | c in courses :: c.creditUnits > 0
    requires forall i, j | 0 <= i < j < |courses| :: courses[i].code != courses[j].code
    ensures SameBest(courses) <==> UniformUnits(courses)
  {
    if UniformUnits(courses) {
      forall request, a | Plans(request, courses) && Agreed(request)
        ensures SolverBest(request, a) <==> OracleBest(request, a)
      {
        assert forall i | 0 <= i < |courses| :: courses[i] in courses;
        UniformBest(request, a);
      }
    } else {
      var c, d :| c in courses && d in courses && c.creditUnits != d.creditUnits;
      var i :| 0 <= i < |courses| && courses[i] == c;
      var j :| 0 <= j < |courses| && courses[j] == d;
      RivalsDiffer(courses, if i < j then i else j, if i < j then j else i);
    }
  }
}
