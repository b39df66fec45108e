/** One plan for each way in which the constraint model and the validator differ, and one for the build that fails. */
module PlanGaps {
  import opened Ast
  import opened Compiler
  import opened Outcomes
  import opened PlanModel
  import opened PlanRules
  import opened Sums
  import opened Validator

  function OneCourse(units: int, prerequisites: Option<Expr>): CourseSpec {
    CourseSpec("A", units, {}, prerequisites, 0, 0, {}, {})
  }

  function SmallRequest(
    courses: seq<CourseSpec>, requirements: seq<RequirementGroup>, completed: set<string>): PlanRequest
  {
    PlanRequest(courses, [TermBounds(1, 0, 1)], requirements, completed, 0, map[], {}, {}, map[], {},
      EarliestCompletion)
  }

  /** A course asking for credits before the last planned course makes the build fail. */
  lemma CreditsLookAhead()
    ensures var request := SmallRequest(
              [OneCourse(1000, Some(CreditsAtLeast(3))), CourseSpec("B", 1000, {}, None, 0, 0, {}, {})], [], {});
            LooksAhead(request, 0)
  {
    var request := SmallRequest(
      [OneCourse(1000, Some(CreditsAtLeast(3))), CourseSpec("B", 1000, {}, None, 0, 0, {}, {})], [], {});
    assert forall i | 0 <= i < 1 :: request.courses[i].code == "A";
    assert "B" !in Registered(request, 1);
    assert request.courses[1].code == "B" && request.courses[1].code !in Registered(request, 1);
  }

  /** One and a half credits fit a cap of one credit for the validator, but not for the model. */
  lemma RoundedCapsDiffer()
    ensures var request, a: Assignment := SmallRequest([OneCourse(1500, None)], [], {}), map["A" := 1];
            PlanSatisfies(request, a) && !ModelAccepts(request, a)
  {
    var request, a: Assignment := SmallRequest([OneCourse(1500, None)], [], {}), map["A" := 1];
    assert CourseMap(request.courses) == map["A" := request.courses[0]];
    assert TermMap(request.terms) == map[1 := request.terms[0]];
    assert InTerm(request, a, 1) == {"A"} && Codes(request) == ["A"] && Indices(request) == [1];
    SumInsert({}, UnitsOf(request), "A");
    assert {} + {"A"} == {"A"};
    assert TermUnits(request, a, 1) == 1500;
    assert !WindowRule(request, a, 0);
  }

  // ---- Two courses in two terms ----

  /** Courses A, with these co-requisites, and B, with this prerequisite, of one credit each in two wide terms. */
  function PairRequest(
    coRequisites: set<string>, prerequisites: Option<Expr>, requirements: seq<RequirementGroup>,
    completed: set<string>)
    : PlanRequest
  {
    PlanRequest(
      [CourseSpec("A", 1000, {}, None, 0, 0, coRequisites, {}), CourseSpec("B", 1000, {}, prerequisites, 0, 0, {}, {})],
      [TermBounds(1, 0, 9),
        TermBounds(2, 0, 9)], requirements, completed, 0, map[], {}, {}, map[], {}, EarliestCompletion)
  }

  function Pair(termOfA: int, termOfB: int): Assignment {
    map["A" := termOfA, "B" := termOfB]
  }

  /** A request of this family. */
  ghost predicate IsPair(request: PlanRequest) {
    |request.courses| == 2
    && request ==
    PairRequest(request.courses[0].coRequisites, request.courses[1].prerequisites, request.requirements,
    request.completed)
  }

  lemma PairMaps(request: PlanRequest)
    requires IsPair(request)
    ensures CourseMap(request.courses) == map["A" := request.courses[0], "B" := request.courses[1]]
    ensures TermMap(request.terms) == map[1 := request.terms[0], 2 := request.terms[1]]
    ensures Codes(request) == ["A", "B"] && Indices(request) == [1, 2]
    ensures Registered(request, 1) == {"A"} && Registered(request, 2) == {"A", "B"}
  {
    assert request.courses[..1] == [request.courses[0]] && request.terms[..1] == [request.terms[0]];
    assert CourseMap(request.courses[..1]) == map["A" := request.courses[0]];
    assert TermMap(request.terms[..1]) == map[1 := request.terms[0]];
    assert forall i | 0 <= i < 1 :: request.courses[i].code == "A";
    assert request.courses[1].code == "B" && request.courses[0].code == "A";
  }

  /** Every placement of the two obeys the rules of the model, prerequisites aside. */
  lemma PairFits(request: PlanRequest, termOfA: int, termOfB: int)
    requires IsPair(request) && 0 <= termOfA <= 2 && 0 <= termOfB <= 2 && request.courses[0].coRequisites <= {"B"}
    requires PrerequisiteRule(request, Pair(termOfA, termOfB), 1)
    ensures Pair(termOfA, termOfB).Keys == Registered(request, 2) && RulesUpto(request, Pair(termOfA, termOfB), 2)
    ensures forall j | 0 <= j < 2 :: WindowRule(request, Pair(termOfA, termOfB), j)
  {
    PairMaps(request);
    var a := Pair(termOfA, termOfB);
    forall i | 0 <= i < 2 ensures CourseRule(request, a, i) {
      assert PlaceRule(request, request.courses[i], a[request.courses[i].code]);
    }
    forall j | 0 <= j < 2 ensures WindowRule(request, a, j) {
      assert request.courses[..1] == [request.courses[0]];
      assert ListedUnits(request.courses[..1], a, request.terms[j].index) <= 1000;
    }
  }

  /**
   A co-requisite left out, or in another term and listed later: the model admits the plan, the validator does
   not.
   */
  lemma SplitCoRequisitesDiffer(termOfB: int)
    requires termOfB == 0 || termOfB == 2
    ensures var request := PairRequest({"B"}, None, [], {});
      ModelAccepts(request, Pair(1, termOfB)) && !PlanPasses(request, Pair(1, termOfB))
  {
    var request, a := PairRequest({"B"}, None, [], {}), Pair(1, termOfB);
    PairMaps(request);
    PairFits(request, 1, termOfB);
    assert AllocationRule(request, a, {});
    assert !PlacementOk(request, a, "A");
  }

  /** A group without a listed course: the model posts nothing for it, the validator finds its minimum missed. */
  lemma UnservedGroupsDiffer()
    ensures var request := PairRequest({}, None, [RequirementGroup("g", "G", {"Z"}, 1, 0, false, false)], {});
      ModelAccepts(request, Pair(1, 1)) && !PlanPasses(request, Pair(1, 1))
  {
    var request, a := PairRequest({}, None, [RequirementGroup("g", "G", {"Z"}, 1, 0, false, false)], {}), Pair(1, 1);
    PairMaps(request);
    PairFits(request, 1, 1);
    assert AllocationRule(request, a, {});
    assert Taken(request, a, request.requirements[0]) == {};
    assert !GroupOk(request, a, request.requirements[0]);
  }

  function SharedGroups(): seq<RequirementGroup> {
    [RequirementGroup("g", "G", {"A", "B"}, 1, 0, false, false), RequirementGroup("h", "H", {"A"}, 1, 0, false, false)]
  }

  /** A course in two exclusive groups: the model counts it for one of them, the validator objects. */
  lemma SharedCoursesDiffer()
    ensures var request := PairRequest({}, None, SharedGroups(), {});
      ModelAccepts(request, Pair(1, 1)) && !PlanPasses(request, Pair(1, 1))
  {
    var request, a := PairRequest({}, None, SharedGroups(), {}), Pair(1, 1);
    SharedIsAllocated(request, a);
    SharedIsUsedTwice(request, a);
    PairFits(request, 1, 1);
    hide AllocationRule, RulesUpto, WindowRule, ExclusiveUse, PairRequest;
  }

  lemma SharedIsAllocated(request: PlanRequest, a: Assignment)
    requires request == PairRequest({}, None, SharedGroups(), {}) && a == Pair(1, 1)
    ensures AllocationRule(request, a, {(0, 1), (1, 0)})
  {
    var alloc: Allocation := {(0, 1), (1, 0)};
    assert AllocatedCount(request, alloc, 0, 1) == 0 && AllocatedCount(request, alloc, 0, 2) == 1;
    assert AllocatedCount(request, alloc, 1, 1) == 1 && AllocatedCount(request, alloc, 1, 2) == 1;
  }

  lemma SharedIsUsedTwice(request: PlanRequest, a: Assignment)
    requires request == PairRequest({}, None, SharedGroups(), {}) && a == Pair(1, 1)
    ensures !ExclusiveUse(request, a, |request.requirements|)
  {
    PairMaps(request);
    assert "A" in Taken(request, a, request.requirements[0]) && "A" in Taken(request, a, request.requirements[1]);
  }

  // ---- Repeated group ids ----

  /** Two exclusive groups that ask for the same course. */
  function AlikeGroups(id: string): seq<RequirementGroup> {
    [RequirementGroup("g", "G", {"A"}, 1, 0, false, false), RequirementGroup(id, "H", {"A"}, 1, 0, false, false)]
  }

  /** Under one id the groups share the course, as the later flag replaces the earlier; otherwise no plan does. */
  lemma RepeatedIdsShare(id: string)
    ensures var request := PairRequest({}, None, AlikeGroups(id), {});
      if id == "g" then ModelAccepts(request, Pair(1, 1)) else forall a :: !ModelAccepts(request, a)
  {
    var request := PairRequest({}, None, AlikeGroups(id), {});
    if id == "g" {
      var alloc: Allocation := {(0, 0), (1, 0)};
      assert AllocatedCount(request, alloc, 0, 1) == 1 && AllocatedCount(request, alloc, 0, 2) == 1;
      assert AllocatedCount(request, alloc, 1, 1) == 1 && AllocatedCount(request, alloc, 1, 2) == 1;
      forall c | 0 <= c < 2 ensures FlagRule(request, alloc, c) {
        assert request.requirements[1].id == request.requirements[0].id && Listed(request, 1, 0);
      }
      assert AllocationRule(request, Pair(1, 1), alloc);
      PairMaps(request);
      PairFits(request, 1, 1);
    } else {
      forall a, alloc ensures !AllocationRule(request, a, alloc) {
        SharedIsAskedTwice(request, a, alloc);
      }
    }
  }

  lemma SharedIsAskedTwice(request: PlanRequest, a: Assignment, alloc: Allocation)
    requires exists id :: id != "g" && request == PairRequest({}, None, AlikeGroups(id), {})
    ensures !AllocationRule(request, a, alloc)
  {
    assert GroupIds(request) == ["g", request.requirements[1].id];
    DistinctIdsCount(request, 0, 0);
    DistinctIdsCount(request, 1, 0);
    BothNeedA(request, alloc, 0);
    BothNeedA(request, alloc, 1);
    assert Counted(request, 0, 0) && Counted(request, 1, 0);
    assert AllocationRule(request, a, alloc) ==>
      GroupRule(request, alloc, 0) && GroupRule(request, alloc, 1) && FlagRule(request, alloc, 0);
  }

  /** A group that lists only A and asks for one course is served by A alone. */
  lemma BothNeedA(request: PlanRequest, alloc: Allocation, g: nat)
    requires IsPair(request) && g < |request.requirements|
    requires request.requirements[g].courseCodes == {"A"} && request.requirements[g].minCourses == 1
    ensures GroupRule(request, alloc, g) ==> (g, 0) in alloc
  {
    assert Listed(request, g, 0) && !Listed(request, g, 1);
    assert AllocatedCount(request, alloc, g, 0) == 0;
    assert AllocatedCount(request, alloc, g, 1) == if (g, 0) in alloc then 1 else 0;
  }

  /** The exclusive first group with the id makes the shareable second one compete for A. */
  function MixedGroups(): seq<RequirementGroup> {
    [RequirementGroup("g", "G", {"B"}, 1, 0, false, false), RequirementGroup("g", "H", {"A"}, 1, 0, true, false),
     RequirementGroup("h", "I", {"A"}, 1, 0, false, false)]
  }

  /** A group open to double counting under the id of an exclusive one: the model rejects a plan that is valid. */
  lemma RepeatedIdsRefuse()
    ensures var request := PairRequest({}, None, MixedGroups(), {});
      PlanSatisfies(request, Pair(1, 1)) && !ModelAccepts(request, Pair(1, 1))
  {
    var request, a := PairRequest({}, None, MixedGroups(), {}), Pair(1, 1);
    MixedIsValid(request, a);
    forall alloc ensures !AllocationRule(request, a, alloc) {
      BothNeedA(request, alloc, 1);
      BothNeedA(request, alloc, 2);
      assert GroupIds(request)[0] == "g" && FirstGroup(request, "g") == 0;
      assert GroupIds(request)[2] == "h" && FirstGroup(request, "h") == 2;
      assert Counted(request, 1, 0) && Counted(request, 2, 0);
      assert AllocationRule(request, a, alloc) ==>
        GroupRule(request, alloc, 1) && GroupRule(request, alloc, 2) && FlagRule(request, alloc, 0);
    }
  }

  lemma MixedIsValid(request: PlanRequest, a: Assignment)
    requires request == PairRequest({}, None, MixedGroups(), {}) && a == Pair(1, 1)
    ensures PlanSatisfies(request, a)
  {
    hide CourseMap, TermMap, Codes, Indices, InputOk, FrameOk;
    PairMaps(request);
    PairInput(request);
    MixedFits(request, a);
  }

  lemma MixedFits(request: PlanRequest, a: Assignment)
    requires request == PairRequest({}, None, MixedGroups(), {}) && a == Pair(1, 1)
    ensures FrameOk(request, a)
  {
    hide CourseMap, TermMap, Codes, Indices, InputOk, TermUnits, GroupOk, ExclusiveUse;
    PairMaps(request);
    BothInTerm(request, a);
    assert forall code | code in a :: PlacementOk(request, a, code);
    assert forall term | term in TermMap(request.terms) :: WindowOk(request, a, term);
    MixedGroupsOk(request, a);
  }

  lemma BothInTerm(request: PlanRequest, a: Assignment)
    requires IsPair(request) && a == Pair(1, 1)
    ensures TermUnits(request, a, 1) == 2000 && TermUnits(request, a, 2) == 0
  {
    PairMaps(request);
    assert InTerm(request, a, 1) == {"A", "B"} && InTerm(request, a, 2) == {};
    SumInsert({}, UnitsOf(request), "A");
    SumInsert({"A"}, UnitsOf(request), "B");
    assert {} + {"A"} == {"A"} && {"A"} + {"B"} == {"A", "B"};
  }

  lemma MixedGroupsOk(request: PlanRequest, a: Assignment)
    requires request == PairRequest({}, None, MixedGroups(), {}) && a == Pair(1, 1)
    ensures forall group | group in request.requirements :: GroupOk(request, a, group)
    ensures ExclusiveUse(request, a, |request.requirements|)
  {
    PairMaps(request);
    assert Taken(request, a, request.requirements[0]) == {"B"} && Taken(request, a, request.requirements[1]) == {"A"};
    assert Taken(request, a, request.requirements[2]) == {"A"};
    SumInsert({}, UnitsOf(request), "A");
    SumInsert({}, UnitsOf(request), "B");
    assert {} + {"A"} == {"A"} && {} + {"B"} == {"B"};
  }

  /** A listed course that is completed and planned again: the validator counts its credits, the model does not. */
  lemma CompletedCreditsDiffer()
    ensures var request := PairRequest({}, Some(CreditsAtLeast(1)), [], {"A"});
      PlanSatisfies(request, Pair(1, 2)) && !ModelAccepts(request, Pair(1, 2))
  {
    var request, a := PairRequest({}, Some(CreditsAtLeast(1)), [], {"A"}), Pair(1, 2);
    CompletedIsCounted(request, a);
    CompletedIsNotCounted(request, a);
    assert !CourseRule(request, a, 1);
  }

  lemma CompletedIsCounted(request: PlanRequest, a: Assignment)
    requires request == PairRequest({}, Some(CreditsAtLeast(1)), [], {"A"}) && a == Pair(1, 2)
    ensures PlanSatisfies(request, a)
  {
    hide CourseMap, TermMap, EarnedBefore, TermUnits, Codes, Indices, InputOk, FrameOk;
    PairMaps(request);
    PairUnits(request, a);
    PairInput(request);
    CompletedFits(request, a);
    assert PrerequisiteMet(request, a, request.courses[1], 2);
  }

  lemma CompletedFits(request: PlanRequest, a: Assignment)
    requires request == PairRequest({}, Some(CreditsAtLeast(1)), [], {"A"}) && a == Pair(1, 2)
    ensures FrameOk(request, a)
  {
    hide CourseMap, TermMap, EarnedBefore, TermUnits, Codes, Indices, InputOk;
    PairMaps(request);
    PairUnits(request, a);
    assert forall code | code in a :: PlacementOk(request, a, code);
    assert forall term | term in TermMap(request.terms) :: WindowOk(request, a, term);
  }

  lemma PairInput(request: PlanRequest)
    requires IsPair(request) && request.courses[0].coRequisites <= {"B"}
    ensures InputOk(request)
  {
    PairMaps(request);
  }

  /** The units of the pair as the validator counts them. */
  lemma PairUnits(request: PlanRequest, a: Assignment)
    requires request == PairRequest({}, Some(CreditsAtLeast(1)), [], {"A"}) && a == Pair(1, 2)
    ensures EarnedBefore(request, a, 2) == 1000 && TermUnits(request, a, 1) == 1000 && TermUnits(request, a, 2) == 1000
  {
    PairMaps(request);
    assert Before(request, a, 2) == {"A"} && InTerm(request, a, 1) == {"A"} && InTerm(request, a, 2) == {"B"};
    SumInsert({}, UnitsOf(request), "A");
    SumInsert({}, UnitsOf(request), "B");
    assert {} + {"A"} == {"A"} && {} + {"B"} == {"B"};
  }

  lemma CompletedIsNotCounted(request: PlanRequest, a: Assignment)
    requires request == PairRequest({}, Some(CreditsAtLeast(1)), [], {"A"}) && a == Pair(1, 2)
    ensures !PrerequisiteRule(request, a, 1)
  {
    PairMaps(request);
    var seen := Upto(request, a, 2);
    assert seen == a;
    assert request.courses[..1] == [request.courses[0]];
    assert PlannedBefore(request.courses[..1], request.completed, a, 2) == 0;
    assert ModelEarned(request, a, 2) == 0;
  }
}
