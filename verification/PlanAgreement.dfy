/**
 How the constraint model and the independent validator compare. The two differ in three checks that
 only the validator makes, in two ways of counting credits and in what repeated group ids mean; beyond these
 they agree on every plan.
 */
module PlanAgreement {
  import opened Ast
  import opened Compiler
  import opened Constraints
  import opened PlanAllocation
  import opened PlanModel
  import opened PlanRules
  import opened Sums
  import opened Validator

  // ---- Requests on which the build succeeds without complaint ----

  /** The request is valid, the build neither fails nor reports anything, and terms are numbered 1..n. */
  ghost predicate Comparable(request: PlanRequest) {
    && InputOk(request)
    && (forall i | 0 <= i < |request.courses| :: !LooksAhead(request, i))
    && InvalidUpto(request, |request.courses|) == []
    && (forall t :: t in Indices(request) <==> 1 <= t <= |request.terms|)
  }

  lemma {:induction false} InvalidOfEmpty(request: PlanRequest, k: nat, i: nat)
    requires i < k <= |request.courses| && InvalidUpto(request, k) == []
    ensures InvalidOf(request, i) == []
  {
    if i < k - 1 {
      InvalidOfEmpty(request, k - 1, i);
    }
  }

  lemma CodeAt(request: PlanRequest, i: nat)
    requires InputOk(request) && i < |request.courses|
    ensures var course := request.courses[i];
            course.code in CourseMap(request.courses) && CourseMap(request.courses)[course.code] == course
            && course.creditUnits > 0
    ensures request.courses[i].code !in Registered(request, i)
  {
    forall j, k | 0 <= j < k < |request.courses| ensures request.courses[j].code != request.courses[k].code {
      assert Codes(request)[j] != Codes(request)[k];
    }
    CourseMapIndex(request.courses, i);
    assert CourseInputOk(request, request.courses[i]);
  }

  lemma KeysAreRegistered(request: PlanRequest)
    ensures CourseMap(request.courses).Keys == Registered(request, |request.courses|)
  {
    CourseMapAt(request.courses);
  }

  // ---- Prerequisites: restricted to the registered courses, or not ----

  /** What an expression reads is registered, so the restriction does not matter. */
  lemma {:induction false} HoldsUpto(
    request: PlanRequest, a: Assignment, k: nat, e: Expr, target: int, coreq: bool, earned: int)
    requires k <= |request.courses| && InvalidIn(request, Registered(request, k), e) == []
    ensures Holds(request, Upto(request, a, k), e, target, coreq, earned) <==>
      Holds(request, a, e, target, coreq, earned)
  {
    match e
    case AllOf(items) =>
      forall i | 0 <= i < |items|
        ensures Holds(request, Upto(request, a, k), items[i], target, coreq, earned) <==>
          Holds(request, a, items[i], target, coreq, earned)
      {
        InvalidInItem(request, Registered(request, k), items, i);
        HoldsUpto(request, a, k, items[i], target, coreq, earned);
      }
    case AnyOf(items) =>
      forall i | 0 <= i < |items|
        ensures Holds(request, Upto(request, a, k), items[i], target, coreq, earned) <==>
          Holds(request, a, items[i], target, coreq, earned)
      {
        InvalidInItem(request, Registered(request, k), items, i);
        HoldsUpto(request, a, k, items[i], target, coreq, earned);
      }
    case CoRequisite(items) =>
      forall i | 0 <= i < |items|
        ensures Holds(request, Upto(request, a, k), items[i], target, true, earned) <==>
          Holds(request, a, items[i], target, true, earned)
      {
        InvalidInItem(request, Registered(request, k), items, i);
        HoldsUpto(request, a, k, items[i], target, true, earned);
      }
    case _ =>
  }

  lemma {:induction false} InvalidInItem(request: PlanRequest, registered: set<string>, items: seq<Expr>, i: nat)
    requires i < |items| && InvalidInAll(request, registered, items) == []
    ensures InvalidIn(request, registered, items[i]) == []
  {
    if i < |items| - 1 {
      InvalidInItem(request, registered, items[..|items| - 1], i);
    }
  }

  /** An expression that asks for no credits does not care how many were earned. */
  lemma {:induction false} HoldsWithoutCredits(
    request: PlanRequest, a: Assignment, e: Expr, target: int, coreq: bool, earned: int, earned': int)
    requires !ReadsCredits(e)
    ensures Holds(request, a, e, target, coreq, earned) <==> Holds(request, a, e, target, coreq, earned')
  {
    match e
    case AllOf(items) =>
      forall i | 0 <= i < |items|
        ensures Holds(request, a, items[i], target, coreq, earned) <==>
          Holds(request, a, items[i], target, coreq, earned')
      {
        HoldsWithoutCredits(request, a, items[i], target, coreq, earned, earned');
      }
    case AnyOf(items) =>
      forall i | 0 <= i < |items|
        ensures Holds(request, a, items[i], target, coreq, earned) <==>
          Holds(request, a, items[i], target, coreq, earned')
      {
        HoldsWithoutCredits(request, a, items[i], target, coreq, earned, earned');
      }
    case CoRequisite(items) =>
      forall i | 0 <= i < |items|
        ensures Holds(request, a, items[i], target, true, earned) <==>
          Holds(request, a, items[i], target, true, earned')
      {
        HoldsWithoutCredits(request, a, items[i], target, true, earned, earned');
      }
    case _ =>
  }

  lemma {:induction false} PlannedUpto(request: PlanRequest, a: Assignment, k: nat, n: nat, target: int)
    requires k <= |request.courses| && n <= |request.courses| && !Unregistered(request, Registered(request, k))
    ensures PlannedBefore(request.courses[..n], request.completed, Upto(request, a, k), target)
         == PlannedBefore(request.courses[..n], request.completed, a, target)
  {
    if n > 0 {
      assert request.courses[..n][..n - 1] == request.courses[..n - 1];
      PlannedUpto(request, a, k, n - 1, target);
    }
  }

  /** In a comparable request the rule of the model is a statement about the whole assignment. */
  lemma PrerequisiteOfModel(request: PlanRequest, a: Assignment, i: nat)
    requires Comparable(request) && i < |request.courses|
    ensures var course := request.courses[i];
            PrerequisiteRule(request, a, i) <==>
            (course.prerequisites.Some? && course.code in a && a[course.code] > 0 ==>
              Holds(request, a, course.prerequisites.value, a[course.code], false,
                ModelEarned(request, a, a[course.code])))
  {
    var course := request.courses[i];
    InvalidOfEmpty(request, |request.courses|, i);
    assert !LooksAhead(request, i);
    if course.prerequisites.Some? && course.code in a && a[course.code] > 0 {
      SeenSuffices(request, a, i + 1, course.prerequisites.value, a[course.code]);
    }
  }

  lemma SeenSuffices(request: PlanRequest, a: Assignment, k: nat, e: Expr, t: int)
    requires k <= |request.courses| && InvalidIn(request, Registered(request, k), e) == []
    requires ReadsCredits(e) ==> !Unregistered(request, Registered(request, k))
    ensures Holds(request, Upto(request, a, k), e, t, false, ModelEarned(request, Upto(request, a, k), t))
            <==> Holds(request, a, e, t, false, ModelEarned(request, a, t))
  {
    hide Holds, InvalidIn, ReadsCredits, Unregistered;
    var seen := Upto(request, a, k);
    HoldsUpto(request, a, k, e, t, false, ModelEarned(request, seen, t));
    if ReadsCredits(e) {
      assert request.courses[..|request.courses|] == request.courses;
      PlannedUpto(request, a, k, |request.courses|, t);
    } else {
      HoldsWithoutCredits(request, a, e, t, false, ModelEarned(request, seen, t), ModelEarned(request, a, t));
    }
  }

  // ---- Sums over the list and sums over the dictionary ----

  ghost function PlannedSet(request: PlanRequest, a: Assignment, target: int, k: nat): set<string>
    requires k <= |request.courses|
  {
    set code | code in Registered(request, k) && code !in request.completed && code in a && 0 < a[code] < target
  }

  lemma {:induction false} PlannedIsSum(request: PlanRequest, a: Assignment, target: int, k: nat)
    requires InputOk(request) && k <= |request.courses|
    ensures PlannedBefore(request.courses[..k], request.completed, a, target) ==
      SumOver(PlannedSet(request, a, target, k), UnitsOf(request))
  {
    if k > 0 {
      var course := request.courses[k - 1];
      assert request.courses[..k][..k - 1] == request.courses[..k - 1];
      PlannedIsSum(request, a, target, k - 1);
      CodeAt(request, k - 1);
      RegisteredStep(request, k - 1);
      var before := PlannedSet(request, a, target, k - 1);
      if course.code !in request.completed && course.code in a && 0 < a[course.code] < target {
        assert PlannedSet(request, a, target, k) == before + {course.code};
        SumInsert(before, UnitsOf(request), course.code);
      } else {
        assert PlannedSet(request, a, target, k) == before;
      }
    }
  }

  ghost function InTermSet(request: PlanRequest, a: Assignment, index: int, k: nat): set<string>
    requires k <= |request.courses|
  {
    set code | code in Registered(request, k) && code in a && a[code] == index
  }

  lemma {:induction false} ListedIsSum(request: PlanRequest, a: Assignment, index: int, k: nat)
    requires InputOk(request) && k <= |request.courses|
    ensures ListedUnits(request.courses[..k], a, index) == SumOver(InTermSet(request, a, index, k), UnitsOf(request))
  {
    if k > 0 {
      var course := request.courses[k - 1];
      assert request.courses[..k][..k - 1] == request.courses[..k - 1];
      ListedIsSum(request, a, index, k - 1);
      CodeAt(request, k - 1);
      RegisteredStep(request, k - 1);
      var before := InTermSet(request, a, index, k - 1);
      if course.code in a && a[course.code] == index {
        assert InTermSet(request, a, index, k) == before + {course.code};
        SumInsert(before, UnitsOf(request), course.code);
      } else {
        assert InTermSet(request, a, index, k) == before;
      }
    }
  }

  lemma ListedIsTermUnits(request: PlanRequest, a: Assignment, index: int)
    requires InputOk(request)
    ensures ListedUnits(request.courses, a, index) == TermUnits(request, a, index) >= 0
  {
    var n := |request.courses|;
    assert request.courses[..n] == request.courses;
    KeysAreRegistered(request);
    ListedIsSum(request, a, index, n);
    assert InTermSet(request, a, index, n) == InTerm(request, a, index);
    UnitsPositive(request);
    SumMonotone({}, InTerm(request, a, index), UnitsOf(request));
  }

  lemma UnitsPositive(request: PlanRequest)
    requires InputOk(request)
    ensures forall code :: UnitsOf(request)(code) >= 0
  {
    CourseMapAt(request.courses);
    forall code | code in CourseMap(request.courses) ensures CourseMap(request.courses)[code].creditUnits > 0 {
      assert CourseInputOk(request, CourseMap(request.courses)[code]);
    }
  }

  predicate NoListedCompleted(request: PlanRequest) {
    forall course | course in request.courses :: course.code !in request.completed
  }

  /** The model counts no more than the validator, and the same if no listed course is completed. */
  lemma EarnedCompared(request: PlanRequest, a: Assignment, target: int)
    requires InputOk(request) && forall code | code in a :: a[code] >= 0
    ensures ModelEarned(request, a, target) <= EarnedBefore(request, a, target)
    ensures NoListedCompleted(request) ==> ModelEarned(request, a, target) == EarnedBefore(request, a, target)
  {
    var n := |request.courses|;
    assert request.courses[..n] == request.courses;
    KeysAreRegistered(request);
    PlannedIsSum(request, a, target, n);
    UnitsPositive(request);
    var planned := PlannedSet(request, a, target, n);
    SumMonotone(planned, Before(request, a, target), UnitsOf(request));
    if NoListedCompleted(request) {
      forall code | code in Before(request, a, target) ensures code in planned {
        var i :| 0 <= i < n && request.courses[i].code == code;
        assert request.courses[i] in request.courses;
      }
      assert planned == Before(request, a, target);
    }
  }

  // ---- Groups: allocated courses and taken courses ----

  ghost function TakenSet(request: PlanRequest, a: Assignment, g: nat, k: nat): set<string>
    requires g < |request.requirements| && k <= |request.courses|
  {
    set code | code in Registered(request, k) && code in a && a[code] != 0
      && code in request.requirements[g].courseCodes
  }

  ghost predicate TakenPair(request: PlanRequest, a: Assignment, g: nat, c: nat) {
    Listed(request, g, c) && request.courses[c].code in a && a[request.courses[c].code] != 0
  }

  lemma {:induction false} AllocatedIsTaken(request: PlanRequest, a: Assignment, alloc: Allocation, g: nat, k: nat)
    requires InputOk(request) && g < |request.requirements| && k <= |request.courses|
    requires forall c: nat | Listed(request, g, c) && (g, c) in alloc :: TakenPair(request, a, g, c)
    ensures AllocatedCount(request, alloc, g, k) <= |TakenSet(request, a, g, k)|
    ensures AllocatedUnits(request, alloc, g, k) <= SumOver(TakenSet(request, a, g, k), UnitsOf(request))
  {
    hide InputOk, TakenSet, UnitsOf;
    if k > 0 {
      AllocatedIsTaken(request, a, alloc, g, k - 1);
      TakenStep(request, a, g, k - 1);
    } else {
      TakenNone(request, a, g);
    }
  }

  lemma {:induction false} AllTakenAllocated(request: PlanRequest, a: Assignment, alloc: Allocation, g: nat, k: nat)
    requires InputOk(request) && g < |request.requirements| && k <= |request.courses|
    requires forall c: nat | c < |request.courses| :: TakenPair(request, a, g, c) <==>
      Listed(request, g, c) && (g, c) in alloc
    ensures AllocatedCount(request, alloc, g, k) == |TakenSet(request, a, g, k)|
    ensures AllocatedUnits(request, alloc, g, k) == SumOver(TakenSet(request, a, g, k), UnitsOf(request))
  {
    hide InputOk, TakenSet, UnitsOf;
    if k > 0 {
      AllTakenAllocated(request, a, alloc, g, k - 1);
      TakenStep(request, a, g, k - 1);
    } else {
      TakenNone(request, a, g);
    }
  }

  lemma TakenNone(request: PlanRequest, a: Assignment, g: nat)
    requires g < |request.requirements|
    ensures |TakenSet(request, a, g, 0)| == 0 && SumOver(TakenSet(request, a, g, 0), UnitsOf(request)) == 0
  {
    assert TakenSet(request, a, g, 0) == {};
  }

  lemma TakenStep(request: PlanRequest, a: Assignment, g: nat, k: nat)
    requires InputOk(request) && g < |request.requirements| && k < |request.courses|
    ensures var before, after := TakenSet(request, a, g, k), TakenSet(request, a, g, k + 1);
            var units := UnitsOf(request);
            if TakenPair(request, a, g, k)
            then |after| == |before| + 1
              && SumOver(after, units) == SumOver(before, units) + request.courses[k].creditUnits
            else after == before
    ensures request.courses[k].creditUnits > 0
  {
    var code := request.courses[k].code;
    CodeAt(request, k);
    RegisteredStep(request, k);
    var before := TakenSet(request, a, g, k);
    if TakenPair(request, a, g, k) {
      assert TakenSet(request, a, g, k + 1) == before + {code};
      SumInsert(before, UnitsOf(request), code);
    } else {
      assert TakenSet(request, a, g, k + 1) == before;
    }
  }

  lemma TakenIsTaken(request: PlanRequest, a: Assignment, g: nat)
    requires g < |request.requirements|
    ensures TakenSet(request, a, g, |request.courses|) == Taken(request, a, request.requirements[g])
  {
    KeysAreRegistered(request);
  }

  // ---- Model solutions against the plan specification ----

  /** Every group has something to choose from, or asks for nothing. */
  ghost predicate GroupServed(request: PlanRequest, g: nat)
    requires g < |request.requirements|
  {
    (exists c :: Listed(request, g, c))
    || (request.requirements[g].minCourses <= 0 && request.requirements[g].minCredits <= 0)
  }

  /** Every co-requisite mentioned in the plan sits in the term of the selected course. */
  ghost predicate CoRequisitesTogether(request: PlanRequest, a: Assignment) {
    forall i, other | 0 <= i < |request.courses| && other in request.courses[i].coRequisites
        && request.courses[i].code in a && a[request.courses[i].code] != 0 && other in a ::
      a[other] == a[request.courses[i].code]
  }

  /** What the validator checks and the model does not. */
  ghost predicate BeyondModel(request: PlanRequest, a: Assignment) {
    && CoRequisitesTogether(request, a)
    && ExclusiveUse(request, a, |request.requirements|)
    && (forall g | 0 <= g < |request.requirements| :: GroupServed(request, g))
  }

  lemma TermsKnown(request: PlanRequest)
    requires Comparable(request)
    ensures forall t :: t in TermMap(request.terms) <==> 1 <= t <= |request.terms|
  {
    MapKeys(request);
  }

  /** A course placed by the rules of the model is placed as the validator wants, co-requisites aside. */
  lemma PlacementOfModel(request: PlanRequest, a: Assignment, i: nat)
    requires Comparable(request) && i < |request.courses| && request.courses[i].code in a
    ensures var course := request.courses[i]; var term := a[course.code];
            course.code in CourseMap(request.courses)
            && ((PlaceRule(request, course, term)
                 && forall other | other in course.coRequisites && other in a && term != 0 :: a[other] == term)
                <==> PlacementOk(request, a, course.code))
  {
    CodeAt(request, i);
    TermsKnown(request);
  }

  lemma PrerequisiteSound(request: PlanRequest, a: Assignment, i: nat)
    requires Comparable(request) && i < |request.courses| && (forall code | code in a :: a[code] >= 0)
    requires PrerequisiteRule(request, a, i) && request.courses[i].code in a && a[request.courses[i].code] != 0
    ensures PrerequisiteMet(request, a, request.courses[i], a[request.courses[i].code])
  {
    var course := request.courses[i];
    var t := a[course.code];
    PrerequisiteOfModel(request, a, i);
    EarnedCompared(request, a, t);
    if course.prerequisites.Some? {
      HoldsMonotone(request, a, course.prerequisites.value, t, false, ModelEarned(request, a, t),
        EarnedBefore(request, a, t));
    }
  }

  lemma WindowSound(request: PlanRequest, a: Assignment, j: nat)
    requires Comparable(request) && j < |request.terms| && WindowRule(request, a, j)
    ensures request.terms[j].index in TermMap(request.terms) && WindowOk(request, a, request.terms[j].index)
  {
    TermAt(request, j);
    ListedIsTermUnits(request, a, request.terms[j].index);
  }

  lemma TermAt(request: PlanRequest, j: nat)
    requires InputOk(request) && j < |request.terms|
    ensures request.terms[j].index in TermMap(request.terms)
    ensures TermMap(request.terms)[request.terms[j].index] == request.terms[j]
  {
    forall i, k | 0 <= i < k < |request.terms| ensures request.terms[i].index != request.terms[k].index {
      assert Indices(request)[i] != Indices(request)[k];
    }
    TermMapIndex(request.terms, j);
  }

  lemma GroupSound(request: PlanRequest, a: Assignment, alloc: Allocation, g: nat)
    requires Comparable(request) && g < |request.requirements| && GroupServed(request, g)
    requires SelectedRule(request, a, alloc) && GroupRule(request, alloc, g)
    ensures GroupOk(request, a, request.requirements[g])
  {
    AllocatedIsTaken(request, a, alloc, g, |request.courses|);
    TakenIsTaken(request, a, g);
    UnitsPositive(request);
    SumMonotone({}, Taken(request, a, request.requirements[g]), UnitsOf(request));
  }

  lemma GroupNeedsService(request: PlanRequest, a: Assignment, g: nat)
    requires InputOk(request) && g < |request.requirements| && GroupOk(request, a, request.requirements[g])
    ensures GroupServed(request, g)
  {
    if !exists c :: Listed(request, g, c) {
      TakenIsTaken(request, a, g);
      assert Taken(request, a, request.requirements[g]) == {} by {
        forall code | code in TakenSet(request, a, g, |request.courses|) ensures false {
          var c :| 0 <= c < |request.courses| && request.courses[c].code == code;
          assert Listed(request, g, c);
        }
      }
    }
  }

  /** Of a model solution, plan specification and validator ask exactly the checks beyond the model. */
  lemma ModelSolutionsAreValid(request: PlanRequest, a: Assignment)
    requires Comparable(request) && ModelAccepts(request, a)
    ensures PlanSatisfies(request, a) <==> BeyondModel(request, a)
    ensures PlanPasses(request, a) <==> BeyondModel(request, a)
  {
    KeysAreRegistered(request);
    if BeyondModel(request, a) {
      ModelSound(request, a);
    }
    ValidatorIsExact(request, a);
    if PlanPasses(request, a) {
      forall g | 0 <= g < |request.requirements| ensures GroupServed(request, g) {
        GroupNeedsService(request, a, g);
      }
      PlacementsTogether(request, a);
    }
  }

  lemma PlacementsTogether(request: PlanRequest, a: Assignment)
    requires InputOk(request) && FrameOk(request, a)
    ensures CoRequisitesTogether(request, a)
  {
    forall i, other | 0 <= i < |request.courses| && other in request.courses[i].coRequisites
        && request.courses[i].code in a && a[request.courses[i].code] != 0 && other in a
      ensures a[other] == a[request.courses[i].code]
    {
      CodeAt(request, i);
      assert PlacementOk(request, a, request.courses[i].code);
    }
  }

  lemma ModelSound(request: PlanRequest, a: Assignment)
    requires Comparable(request) && ModelAccepts(request, a) && BeyondModel(request, a)
    ensures PlanSatisfies(request, a)
  {
    KeysAreRegistered(request);
    var alloc :| AllocationRule(request, a, alloc);
    forall code | code in a ensures
      PlacementOk(request, a, code) && a[code] >= 0
      && (a[code] != 0 ==> PrerequisiteMet(request, a, CourseMap(request.courses)[code], a[code]))
    {
      CourseSound(request, a, code);
    }
    forall term | term in TermMap(request.terms) ensures WindowOk(request, a, term) {
      TermMapAt(request.terms);
      var j :| 0 <= j < |request.terms| && request.terms[j].index == term;
      WindowSound(request, a, j);
    }
    forall group | group in request.requirements ensures GroupOk(request, a, group) {
      var g :| 0 <= g < |request.requirements| && request.requirements[g] == group;
      GroupSound(request, a, alloc, g);
    }
  }

  lemma CourseSound(request: PlanRequest, a: Assignment, code: string)
    requires Comparable(request) && ModelAccepts(request, a) && BeyondModel(request, a) && code in a
    ensures code in CourseMap(request.courses) && PlacementOk(request, a, code) && a[code] >= 0
    ensures a[code] != 0 ==> PrerequisiteMet(request, a, CourseMap(request.courses)[code], a[code])
  {
    KeysAreRegistered(request);
    var i :| 0 <= i < |request.courses| && request.courses[i].code == code;
    CodeAt(request, i);
    assert CourseRule(request, a, i);
    PlacementOfModel(request, a, i);
    forall c | c in a ensures a[c] >= 0 {
      var k :| 0 <= k < |request.courses| && request.courses[k].code == c;
      assert CourseRule(request, a, k);
    }
    if a[code] != 0 {
      PrerequisiteSound(request, a, i);
    }
  }

  // ---- Valid plans against the model ----

  /** The plan gives every listed course a term. */
  ghost predicate Total(request: PlanRequest, a: Assignment) {
    a.Keys == Registered(request, |request.courses|)
  }

  /** Credits in thousandths stay within the cap of each term, not only after rounding down. */
  ghost predicate ExactCaps(request: PlanRequest, a: Assignment) {
    forall j | 0 <= j < |request.terms| :: CapRule(request, a, j)
  }

  /** Prerequisites hold without counting listed courses that are already completed. */
  ghost predicate ModelPrerequisites(request: PlanRequest, a: Assignment) {
    forall i | 0 <= i < |request.courses| :: PrerequisiteRule(request, a, i)
  }

  lemma WindowComplete(request: PlanRequest, a: Assignment, j: nat)
    requires Comparable(request) && j < |request.terms| && FrameOk(request, a)
    ensures WindowRule(request, a, j) <==> CapRule(request, a, j)
  {
    var term := request.terms[j];
    TermAt(request, j);
    ListedIsTermUnits(request, a, term.index);
    assert WindowOk(request, a, term.index);
  }

  /** Allocating every taken course to every group that lists it. */
  lemma TakenAllocation(request: PlanRequest, a: Assignment) returns (alloc: Allocation)
    requires Comparable(request) && CountsExclusive(request) && FrameOk(request, a)
    requires forall code | code in a :: a[code] >= 0
    ensures AllocationRule(request, a, alloc)
  {
    alloc := set g: nat, c: nat | g < |request.requirements| && c < |request.courses| && TakenPair(request, a, g, c) ::
      (g, c);
    forall g | 0 <= g < |request.requirements| ensures GroupRule(request, alloc, g) {
      assert request.requirements[g] in request.requirements;
      AllTakenAllocated(request, a, alloc, g, |request.courses|);
      TakenIsTaken(request, a, g);
    }
    forall c | 0 <= c < |request.courses| ensures FlagRule(request, alloc, c) {
      TakenExclusive(request, a, alloc, c);
    }
  }

  lemma TakenExclusive(request: PlanRequest, a: Assignment, alloc: Allocation, c: nat)
    requires InputOk(request) && ExclusiveUse(request, a, |request.requirements|) && c < |request.courses|
    requires CountsExclusive(request)
    requires forall g: nat, d: nat | (g, d) in alloc :: TakenPair(request, a, g, d)
    ensures FlagRule(request, alloc, c)
  {
    CodeAt(request, c);
    forall g, h | 0 <= g < h < |request.requirements| && (g, c) in alloc && (h, c) in alloc
      ensures !(Exclusive(request, g, c) && Exclusive(request, h, c))
    {
      var code := request.courses[c].code;
      assert TakenPair(request, a, g, c) && TakenPair(request, a, h, c);
      assert code in Taken(request, a, request.requirements[g]) && code in Taken(request, a, request.requirements[h]);
    }
    hide Counted, Exclusive;
    forall g, h | 0 <= g < h < |request.requirements| && Counted(request, g, c) && Counted(request, h, c)
      ensures (g, c) !in alloc || (h, c) !in alloc
    {
      assert Exclusive(request, g, c) && Exclusive(request, h, c);
    }
  }

  lemma TermsNonNegative(request: PlanRequest, a: Assignment)
    requires Comparable(request) && FrameOk(request, a)
    ensures forall code | code in a :: 0 <= a[code] <= |request.terms|
  {
    TermsKnown(request);
    forall code | code in a ensures 0 <= a[code] <= |request.terms| {
      assert PlacementOk(request, a, code);
    }
  }

  /** The plan leaves an allocation of its courses to the groups. */
  ghost predicate Allocatable(request: PlanRequest, a: Assignment) {
    exists alloc :: AllocationRule(request, a, alloc)
  }

  /**
   A total plan that meets the specification solves the model exactly when credits add up the model's way and
   its courses can be allocated, which only flags shared by repeated ids can prevent.
   */
  lemma ValidPlansAreSolutions(request: PlanRequest, a: Assignment)
    requires Comparable(request) && PlanSatisfies(request, a) && Total(request, a)
    ensures ModelAccepts(request, a) <==>
      ExactCaps(request, a) && ModelPrerequisites(request, a) && Allocatable(request, a)
    ensures CountsExclusive(request) ==> Allocatable(request, a)
  {
    TermsNonNegative(request, a);
    if ModelAccepts(request, a) {
      ModelCounts(request, a);
    }
    if ExactCaps(request, a) && ModelPrerequisites(request, a) {
      forall i | 0 <= i < |request.courses| ensures CourseRule(request, a, i) {
        CourseComplete(request, a, i);
      }
      hide CourseRule, PlanSatisfies, Comparable;
      forall j | 0 <= j < |request.terms| ensures WindowRule(request, a, j) {
        WindowComplete(request, a, j);
      }
    }
    if CountsExclusive(request) {
      var alloc := TakenAllocation(request, a);
    }
  }

  lemma ModelCounts(request: PlanRequest, a: Assignment)
    requires ModelAccepts(request, a)
    ensures ExactCaps(request, a) && ModelPrerequisites(request, a)
  {
    forall i | 0 <= i < |request.courses| ensures PrerequisiteRule(request, a, i) {
      assert CourseRule(request, a, i);
    }
    forall j | 0 <= j < |request.terms| ensures CapRule(request, a, j) {
      assert WindowRule(request, a, j);
    }
  }

  lemma CourseComplete(request: PlanRequest, a: Assignment, i: nat)
    requires Comparable(request) && FrameOk(request, a) && Total(request, a) && i < |request.courses|
    requires PrerequisiteRule(request, a, i)
    ensures CourseRule(request, a, i)
  {
    var course := request.courses[i];
    CodeAt(request, i);
    assert course.code in a;
    assert PlacementOk(request, a, course.code);
    PlacementOfModel(request, a, i);
  }

  /** Credits come in whole credits, as the catalog stores them. */
  ghost predicate WholeCredits(request: PlanRequest) {
    forall course | course in request.courses :: course.creditUnits % 1000 == 0
  }

  lemma {:induction false} SumOfWhole(s: set<string>, f: string -> int)
    requires forall k | k in s :: f(k) % 1000 == 0
    ensures SumOver(s, f) % 1000 == 0
    decreases |s|
  {
    if |s| > 0 {
      var k :| k in s;
      SumRemove(s, f, k);
      SumOfWhole(s - {k}, f);
      WholePlus(f(k), SumOver(s - {k}, f));
    } else {
      assert s == {};
    }
  }

  lemma WholePlus(x: int, y: int)
    requires x % 1000 == 0 && y % 1000 == 0
    ensures (x + y) % 1000 == 0
  {
  }

  /** With whole credits and no listed course completed, just the valid total plans with an allocation are solutions. */
  lemma WholePlansAreSolutions(request: PlanRequest, a: Assignment)
    requires Comparable(request) && WholeCredits(request) && NoListedCompleted(request)
    requires PlanSatisfies(request, a) && Total(request, a)
    ensures ModelAccepts(request, a) <==> Allocatable(request, a)
    ensures CountsExclusive(request) ==> Allocatable(request, a)
  {
    TermsNonNegative(request, a);
    forall j | 0 <= j < |request.terms| ensures CapRule(request, a, j) {
      var term := request.terms[j];
      TermAt(request, j);
      assert WindowOk(request, a, term.index);
      ListedIsTermUnits(request, a, term.index);
      CourseMapAt(request.courses);
      SumOfWhole(InTerm(request, a, term.index), UnitsOf(request));
    }
    forall i | 0 <= i < |request.courses| ensures PrerequisiteRule(request, a, i) {
      PrerequisiteOfModel(request, a, i);
      CodeAt(request, i);
      var course := request.courses[i];
      if course.code in a && a[course.code] > 0 {
        EarnedCompared(request, a, a[course.code]);
        assert PrerequisiteMet(request, a, course, a[course.code]);
      }
    }
    ValidPlansAreSolutions(request, a);
  }

  /** Requests on which model and validator can be compared without remainder. */
  ghost predicate Plain(request: PlanRequest) {
    && Comparable(request) && WholeCredits(request) && NoListedCompleted(request) && CountsExclusive(request)
    && (forall course | course in request.courses :: course.coRequisites == {})
    && (forall g | 0 <= g < |request.requirements| :: GroupServed(request, g))
    && (forall g, h | 0 <= g < h < |request.requirements|
          && !request.requirements[g].allowDoubleCounting && !request.requirements[h].allowDoubleCounting ::
          request.requirements[g].courseCodes !! request.requirements[h].courseCodes)
  }

  /** On plain requests the model and the specification admit the same total plans. */
  lemma ModelAgreesWithValidator(request: PlanRequest, a: Assignment)
    requires Plain(request)
    ensures ModelAccepts(request, a) <==> Total(request, a) && PlanSatisfies(request, a)
    ensures NoDeadPrerequisite(request) ==> (ModelAccepts(request, a) <==> Total(request, a) && PlanPasses(request, a))
  {
    if ModelAccepts(request, a) {
      assert forall i | 0 <= i < |request.courses| :: request.courses[i] in request.courses;
      ModelSolutionsAreValid(request, a);
    }
    if Total(request, a) && PlanSatisfies(request, a) {
      WholePlansAreSolutions(request, a);
    }
    ValidatorIsExact(request, a);
  }

  /**
   End to end, on plain requests: every solution of the posted constraints is a plan the validator passes, and
   every such plan is a solution.
   */
  lemma SolutionsAreValidatedPlans(request: PlanRequest, ctx: Context, m: CpModel)
    requires Characterises(request, ctx, m) && Plain(request) && NoDeadPrerequisite(request)
    ensures forall s {:trigger Solves(m, s)} | Solves(m, s) ::
      Total(request, Terms(ctx, s)) && PlanPasses(request, Terms(ctx, s))
    ensures forall a: Assignment | Total(request, a) && PlanPasses(request, a) :: Represented(ctx, m, a)
  {
    hide Plain, PlanPasses, ModelAccepts, Represented, NoDeadPrerequisite;
    forall s {:trigger Solves(m, s)} | Solves(m, s)
      ensures Total(request, Terms(ctx, s)) && PlanPasses(request, Terms(ctx, s))
    {
      ModelAgreesWithValidator(request, Terms(ctx, s));
    }
    forall a: Assignment | Total(request, a) && PlanPasses(request, a) ensures Represented(ctx, m, a) {
      ModelAgreesWithValidator(request, a);
    }
  }
}
