/** Plan requests, and what a prerequisite expression means for an assignment of courses to terms. */
module PlanModel {
  import opened Ast
  import opened Ordering
  import opened Outcomes
  import opened Sums

  datatype TermBounds = TermBounds(index: int, minCredits: int, maxCredits: int)

  /** Terms whose bounds the constructor accepts. */
  type TermSpec = t: TermBounds | t.index >= 1 && 0 <= t.minCredits <= t.maxCredits witness TermBounds(1, 0, 0)

  datatype CourseSpec = CourseSpec(
    code: string, creditUnits: int, availableTerms: set<int>, prerequisites: Option<Expr>, workloadHours: int,
    preferenceScore: int, coRequisites: set<string>, requirementGroups: set<string>)

  datatype RequirementGroup = RequirementGroup(
    id: string, title: string, courseCodes: set<string>, minCourses: int, minCredits: int, allowDoubleCounting: bool,
    unknown: bool)

  datatype Objective = EarliestCompletion | BalancedWorkload | PreferenceSatisfaction

  datatype PlanRequest = PlanRequest(
    courses: seq<CourseSpec>, terms: seq<TermSpec>, requirements: seq<RequirementGroup>, completed: set<string>,
    completedCredits: int, grades: map<string, string>, permissions: set<string>, placements: set<string>,
    pinned: map<string, int>, excluded: set<string>, objective: Objective)

  /** A plan: the term of each course it mentions, 0 standing for "not taken". */
  type Assignment = map<string, int>

  function Codes(request: PlanRequest): seq<string> {
    seq(|request.courses|, i requires 0 <= i < |request.courses| => request.courses[i].code)
  }

  function Indices(request: PlanRequest): seq<int> {
    seq(|request.terms|, i requires 0 <= i < |request.terms| => request.terms[i].index)
  }

  function GroupIds(request: PlanRequest): seq<string> {
    seq(|request.requirements|, i requires 0 <= i < |request.requirements| => request.requirements[i].id)
  }

  /** `{course.code: course for course in courses}`: a later course of the same code wins. */
  function CourseMap(courses: seq<CourseSpec>): map<string, CourseSpec> {
    if courses == [] then map[] else
    var last := courses[|courses| - 1];
    CourseMap(courses[..|courses| - 1])[last.code := last]
  }

  function TermMap(terms: seq<TermSpec>): map<int, TermSpec> {
    if terms == [] then map[] else
    var last := terms[|terms| - 1];
    TermMap(terms[..|terms| - 1])[last.index := last]
  }

  lemma {:induction false} CourseMapAt(courses: seq<CourseSpec>)
    ensures forall code :: code in CourseMap(courses) <==> exists i :: 0 <= i < |courses| && courses[i].code == code
    ensures forall code | code in CourseMap(courses) ::
      CourseMap(courses)[code] in courses && CourseMap(courses)[code].code == code
  {
    if courses != [] {
      var front, last := courses[..|courses| - 1], courses[|courses| - 1];
      CourseMapAt(front);
      assert courses == front + [last];
      forall code ensures code in CourseMap(courses) <==> exists i :: 0 <= i < |courses| && courses[i].code == code {
        if i :| 0 <= i < |front| && front[i].code == code {
          assert courses[i].code == code;
        }
        assert courses[|front|].code == last.code;
      }
    }
  }

  lemma {:induction false} CourseMapIndex(courses: seq<CourseSpec>, i: nat)
    requires i < |courses| && forall j, k | 0 <= j < k < |courses| :: courses[j].code != courses[k].code
    ensures courses[i].code in CourseMap(courses) && CourseMap(courses)[courses[i].code] == courses[i]
  {
    if i < |courses| - 1 {
      CourseMapIndex(courses[..|courses| - 1], i);
    }
  }

  lemma {:induction false} TermMapAt(terms: seq<TermSpec>)
    ensures forall t :: t in TermMap(terms) <==> exists i :: 0 <= i < |terms| && terms[i].index == t
  {
    if terms != [] {
      var front, last := terms[..|terms| - 1], terms[|terms| - 1];
      TermMapAt(front);
      assert terms == front + [last];
      forall t ensures t in TermMap(terms) <==> exists i :: 0 <= i < |terms| && terms[i].index == t {
        if i :| 0 <= i < |front| && front[i].index == t {
          assert terms[i].index == t;
        }
        assert terms[|front|].index == last.index;
      }
    }
  }

  lemma {:induction false} TermMapIndex(terms: seq<TermSpec>, i: nat)
    requires i < |terms| && forall j, k | 0 <= j < k < |terms| :: terms[j].index != terms[k].index
    ensures terms[i].index in TermMap(terms) && TermMap(terms)[terms[i].index] == terms[i]
  {
    if i < |terms| - 1 {
      TermMapIndex(terms[..|terms| - 1], i);
    }
  }

  // ---- Input checks ----

  datatype InputError =
    | DuplicateCourse
    | DuplicateTerm
    | PinnedUnknownCourse(code: string)
    | PinnedUnknownTerm(code: string)
    | NonPositiveCredits(code: string)
    | UnknownGroup(code: string, group: string)
    | UnknownCoRequisite(code: string, other: string)

  ghost predicate PinOk(request: PlanRequest, code: string) {
    code in request.pinned ==> code in Codes(request) && request.pinned[code] in Indices(request)
  }

  ghost predicate CourseInputOk(request: PlanRequest, course: CourseSpec) {
    && course.creditUnits > 0
    && course.requirementGroups <= SetOf(GroupIds(request))
    && course.coRequisites <= SetOf(Codes(request)) + request.completed
  }

  ghost predicate InputOk(request: PlanRequest) {
    && Distinct(Codes(request))
    && Distinct(Indices(request))
    && (forall code | code in request.pinned :: PinOk(request, code))
    && (forall course | course in request.courses :: CourseInputOk(request, course))
  }

  /** The errors there are about pins of some of the pinned courses. */
  ghost predicate PinFault(request: PlanRequest, pinned: set<string>, error: InputError) {
    match error
    case PinnedUnknownCourse(code) => code in pinned && code in request.pinned && code !in Codes(request)
    case PinnedUnknownTerm(code) =>
      code in pinned && code in request.pinned && code in Codes(request) && request.pinned[code] !in Indices(request)
    case _ => false
  }

  /** The errors there are about one course. */
  ghost predicate CourseFault(request: PlanRequest, course: CourseSpec, error: InputError) {
    match error
    case NonPositiveCredits(code) => code == course.code && course.creditUnits <= 0
    case UnknownGroup(code, group) =>
      code == course.code && group in course.requirementGroups && group !in GroupIds(request)
    case UnknownCoRequisite(code, other) =>
      code == course.code && other in course.coRequisites && other !in Codes(request) && other !in request.completed
    case _ => false
  }

  /** The errors there are in a request. */
  ghost predicate InputFault(request: PlanRequest, error: InputError) {
    || (error == DuplicateCourse && !Distinct(Codes(request)))
    || (error == DuplicateTerm && !Distinct(Indices(request)))
    || PinFault(request, request.pinned.Keys, error)
    || exists course :: course in request.courses && CourseFault(request, course, error)
  }

  lemma MapKeys(request: PlanRequest)
    ensures CourseMap(request.courses).Keys == SetOf(Codes(request))
    ensures TermMap(request.terms).Keys == SetOf(Indices(request))
    ensures forall c :: c in CourseMap(request.courses) <==> c in Codes(request)
    ensures forall t :: t in TermMap(request.terms) <==> t in Indices(request)
  {
    CourseMapAt(request.courses);
    TermMapAt(request.terms);
    forall c ensures c in CourseMap(request.courses) <==> c in SetOf(Codes(request)) {
      assert forall i | 0 <= i < |request.courses| :: Codes(request)[i] == request.courses[i].code;
    }
    forall t ensures t in TermMap(request.terms) <==> t in SetOf(Indices(request)) {
      assert forall i | 0 <= i < |request.terms| :: Indices(request)[i] == request.terms[i].index;
    }
  }

  method ValidateInput(request: PlanRequest) returns (errors: seq<InputError>)
    ensures errors == [] <==> InputOk(request)
    ensures forall error :: error in errors <==> InputFault(request, error)
  {
    hide PinFault, CourseFault, PinOk, CourseInputOk;
    errors := [];
    MapKeys(request);
    DistinctIffCount(Codes(request));
    DistinctIffCount(Indices(request));
    if |CourseMap(request.courses).Keys| != |request.courses| {
      errors := errors + [DuplicateCourse];
    }
    if |TermMap(request.terms).Keys| != |request.terms| {
      errors := errors + [DuplicateTerm];
    }
    assert errors == [] <==> Distinct(Codes(request)) && Distinct(Indices(request));
    var pinErrors := CheckPins(request);
    var courseErrors := CheckCourses(request);
    errors := errors + pinErrors + courseErrors;
  }

  method CheckPins(request: PlanRequest) returns (errors: seq<InputError>)
    ensures errors == [] <==> forall code | code in request.pinned :: PinOk(request, code)
    ensures forall error :: error in errors <==> PinFault(request, request.pinned.Keys, error)
  {
    errors := [];
    var courseMap, termMap := CourseMap(request.courses), TermMap(request.terms);
    MapKeys(request);
    var todo := request.pinned.Keys;
    while todo != {}
      invariant todo <= request.pinned.Keys
      invariant errors == [] <==> forall code | code in request.pinned.Keys - todo :: PinOk(request, code)
      invariant forall error :: error in errors <==> PinFault(request, request.pinned.Keys - todo, error)
    {
      var code :| code in todo;
      if code !in courseMap {
        errors := errors + [PinnedUnknownCourse(code)];
      } else if request.pinned[code] !in termMap {
        errors := errors + [PinnedUnknownTerm(code)];
      }
      assert request.pinned.Keys - (todo - {code}) == request.pinned.Keys - todo + {code};
      todo := todo - {code};
    }
    assert request.pinned.Keys - todo == request.pinned.Keys;
  }

  method CheckCourses(request: PlanRequest) returns (errors: seq<InputError>)
    ensures errors == [] <==> forall course | course in request.courses :: CourseInputOk(request, course)
    ensures forall error :: error in errors <==>
      exists course :: course in request.courses && CourseFault(request, course, error)
  {
    hide CourseFault, CourseInputOk;
    errors := [];
    for i := 0 to |request.courses|
      invariant errors == [] <==> forall course | course in request.courses[..i] :: CourseInputOk(request, course)
      invariant forall error :: error in errors <==>
        exists course :: course in request.courses[..i] && CourseFault(request, course, error)
    {
      var courseErrors := CheckCourse(request, request.courses[i]);
      errors := errors + courseErrors;
      assert request.courses[..i + 1] == request.courses[..i] + [request.courses[i]];
    }
    assert request.courses[..|request.courses|] == request.courses;
  }

  method CheckCourse(request: PlanRequest, course: CourseSpec) returns (errors: seq<InputError>)
    ensures errors == [] <==> CourseInputOk(request, course)
    ensures forall error :: error in errors <==> CourseFault(request, course, error)
  {
    hide SortedSet, CourseInputOk, CourseFault, GroupErrors, OtherErrors, CourseMap;
    MapKeys(request);
    var unknownGroups := course.requirementGroups - SetOf(GroupIds(request));
    var unknownOthers := course.coRequisites - CourseMap(request.courses).Keys - request.completed;
    var units := if course.creditUnits <= 0 then [NonPositiveCredits(course.code)] else [];
    var groups, others := GroupErrors(course.code, SortedSet(unknownGroups)), OtherErrors(course.code,
      SortedSet(unknownOthers));
    errors := units + groups + others;
    CourseFaultsListed(request, course, units, unknownGroups, groups, unknownOthers, others);
    NoCourseFaultIffOk(request, course);
    assert errors != [] ==> errors[0] in errors;
  }

  lemma CourseFaultsListed(
    request: PlanRequest, course: CourseSpec, units: seq<InputError>, unknownGroups: set<string>,
    groups: seq<InputError>, unknownOthers: set<string>, others: seq<InputError>)
    requires units == if course.creditUnits <= 0 then [NonPositiveCredits(course.code)] else []
    requires unknownGroups == course.requirementGroups - SetOf(GroupIds(request))
    requires unknownOthers == course.coRequisites - SetOf(Codes(request)) - request.completed
    requires groups == GroupErrors(course.code, SortedSet(unknownGroups))
    requires others == OtherErrors(course.code, SortedSet(unknownOthers))
    ensures forall error :: error in units + groups + others <==> CourseFault(request, course, error)
  {
    hide SortedSet, GroupErrors, OtherErrors, Codes, GroupIds;
    forall error ensures error in units + groups + others <==> CourseFault(request, course, error) {
      assert error in units + groups + others <==> error in units || error in groups || error in others;
    }
  }

  lemma NoCourseFaultIffOk(request: PlanRequest, course: CourseSpec)
    ensures (forall error :: !CourseFault(request, course, error)) <==> CourseInputOk(request, course)
  {
    if forall error :: !CourseFault(request, course, error) {
      assert !CourseFault(request, course, NonPositiveCredits(course.code));
      forall group | group in course.requirementGroups ensures group in GroupIds(request) {
        assert !CourseFault(request, course, UnknownGroup(course.code, group));
      }
      forall other | other in course.coRequisites ensures other in Codes(request) || other in request.completed {
        assert !CourseFault(request, course, UnknownCoRequisite(course.code, other));
      }
    }
  }

  function GroupErrors(code: string, groups: seq<string>): (errors: seq<InputError>)
    ensures |errors| == |groups|
    ensures forall error :: error in errors <==> error.UnknownGroup? && error.code == code && error.group in groups
  {
    var errors := seq(|groups|, k requires 0 <= k < |groups| => UnknownGroup(code, groups[k]));
    assert forall k | 0 <= k < |groups| :: errors[k] == UnknownGroup(code, groups[k]);
    errors
  }

  function OtherErrors(code: string, others: seq<string>): (errors: seq<InputError>)
    ensures |errors| == |others|
    ensures forall error :: error in errors <==>
      error.UnknownCoRequisite? && error.code == code && error.other in others
  {
    var errors := seq(|others|, k requires 0 <= k < |others| => UnknownCoRequisite(code, others[k]));
    assert forall k | 0 <= k < |others| :: errors[k] == UnknownCoRequisite(code, others[k]);
    errors
  }

  lemma EmptyDifference(used: set<string>, known: set<string>)
    ensures |used - known| == 0 <==> used <= known
  {
    if used <= known {
      assert used - known == {};
    } else {
      var x :| x in used && x !in known;
      assert x in used - known;
    }
  }

  // ---- The meaning of prerequisites ----

  function GradeOf(request: PlanRequest, code: string): string {
    if code in request.grades then request.grades[code] else "F"
  }

  function Supplied(request: PlanRequest, kind: PredicateKind): set<string> {
    if kind == Permission then request.permissions else request.placements
  }

  /**
   Whether `a` meets `e` for a course taken in term `target`, when `earned` units (thousandths of a
   credit) have been earned before that term. Under a COREQ a course must share the term; elsewhere
   it must come earlier.
   */
  predicate Holds(request: PlanRequest, a: Assignment, e: Expr, target: int, coreq: bool, earned: int) {
    match e
    case CourseRef(code) =>
      code in request.completed
      || (code in a && a[code] != 0 && if coreq then a[code] == target else a[code] < target)
    case GradeAtLeast(course, grade) =>
      course in request.completed && GradePoints(GradeOf(request, course)) >= GradePoints(grade)
    case CreditsAtLeast(credits) => earned >= credits * 1000
    case Predicate(kind, value) => value in Supplied(request, kind)
    case AllOf(items) => forall i | 0 <= i < |items| :: Holds(request, a, items[i], target, coreq, earned)
    case AnyOf(items) => exists i :: 0 <= i < |items| && Holds(request, a, items[i], target, coreq, earned)
    case CoRequisite(items) => forall i | 0 <= i < |items| :: Holds(request, a, items[i], target, true, earned)
  }

  /** More courses in the right place and more credits never falsify an expression. */
  lemma {:induction false} HoldsMonotone(
    request: PlanRequest, a: Assignment, e: Expr, target: int, coreq: bool, earned: int, earned': int)
    requires Holds(request, a, e, target, coreq, earned) && earned <= earned'
    ensures Holds(request, a, e, target, coreq, earned')
  {
    match e
    case AllOf(items) =>
      forall i | 0 <= i < |items| ensures Holds(request, a, items[i], target, coreq, earned') {
        HoldsMonotone(request, a, items[i], target, coreq, earned, earned');
      }
    case AnyOf(items) =>
      var i :| 0 <= i < |items| && Holds(request, a, items[i], target, coreq, earned);
      HoldsMonotone(request, a, items[i], target, coreq, earned, earned');
    case CoRequisite(items) =>
      forall i | 0 <= i < |items| ensures Holds(request, a, items[i], target, true, earned') {
        HoldsMonotone(request, a, items[i], target, true, earned, earned');
      }
    case _ =>
  }

  ghost function UnitsOf(request: PlanRequest): string -> int {
    var courseMap := CourseMap(request.courses);
    (code: string) => if code in courseMap then courseMap[code].creditUnits else 0
  }

  /** The listed courses that `a` places in a term before `target`. */
  function Before(request: PlanRequest, a: Assignment, target: int): set<string> {
    set code | code in a && a[code] != 0 && a[code] < target && code in CourseMap(request.courses)
  }

  function InTerm(request: PlanRequest, a: Assignment, term: int): set<string> {
    set code | code in a && a[code] == term && code in CourseMap(request.courses)
  }

  /** The units earned before `target`, as the validator counts them. */
  ghost function EarnedBefore(request: PlanRequest, a: Assignment, target: int): int {
    request.completedCredits * 1000 + SumOver(Before(request, a, target), UnitsOf(request))
  }

  ghost function TermUnits(request: PlanRequest, a: Assignment, term: int): int {
    SumOver(InTerm(request, a, term), UnitsOf(request))
  }

  function Taken(request: PlanRequest, a: Assignment, group: RequirementGroup): set<string> {
    set code | code in a && a[code] != 0 && code in CourseMap(request.courses) && code in group.courseCodes
  }

  /** Sums the units of some listed courses. */
  method SumUnits(request: PlanRequest, codes: set<string>) returns (total: int)
    requires forall code | code in codes :: code in CourseMap(request.courses)
    ensures total == SumOver(codes, UnitsOf(request))
  {
    var courseMap := CourseMap(request.courses);
    total := 0;
    var todo := codes;
    while todo != {}
      invariant todo <= codes
      invariant total + SumOver(todo, UnitsOf(request)) == SumOver(codes, UnitsOf(request))
    {
      var code :| code in todo;
      SumRemove(todo, UnitsOf(request), code);
      total := total + courseMap[code].creditUnits;
      todo := todo - {code};
    }
  }
}
