/** What the constraint model demands of an assignment, rule by rule, and how rules are posted. */
module PlanRules {
  import opened Compiler
  import opened Constraints
  import opened Ordering
  import opened PlanModel

  // ---- Rules ----

  /** The codes of the first `k` courses: those registered when the next one is compiled. */
  function Registered(request: PlanRequest, k: nat): set<string>
    requires k <= |request.courses|
  {
    set i | 0 <= i < k :: request.courses[i].code
  }

  lemma RegisteredNone(request: PlanRequest)
    ensures Registered(request, 0) == {}
  {
  }

  function Upto(request: PlanRequest, a: Assignment, k: nat): Assignment
    requires k <= |request.courses|
  {
    map code | code in a && code in Registered(request, k) :: a[code]
  }

  function Allowed(request: PlanRequest, course: CourseSpec): set<int> {
    if course.availableTerms != {} then course.availableTerms else SetOf(Indices(request))
  }

  /** The domain, exclusion, pin and availability of a course in term `term`. */
  predicate PlaceRule(request: PlanRequest, course: CourseSpec, term: int) {
    && 0 <= term <= |request.terms|
    && (course.code in request.excluded ==> term == 0)
    && (course.code in request.pinned ==> term == request.pinned[course.code])
    && (1 <= term <= |request.terms| ==> term in Allowed(request, course))
  }

  /** The prerequisite of course `i`, read against the courses registered so far. */
  predicate PrerequisiteRule(request: PlanRequest, a: Assignment, i: nat)
    requires i < |request.courses|
  {
    var course, seen := request.courses[i], Upto(request, a, i + 1);
    course.prerequisites.Some? && course.code in a && a[course.code] > 0 ==>
      Holds(request, seen, course.prerequisites.value, a[course.code], false,
        ModelEarned(request, seen, a[course.code]))
  }

  /** Two selected co-requisites share a term, if the other was registered first. */
  predicate CoRequisiteRule(request: PlanRequest, a: Assignment, i: nat, other: string)
    requires i < |request.courses|
  {
    var code := request.courses[i].code;
    other in Registered(request, i + 1) && code in a && other in a && a[code] > 0 && a[other] > 0 ==>
      a[code] == a[other]
  }

  predicate CourseRule(request: PlanRequest, a: Assignment, i: nat)
    requires i < |request.courses|
  {
    var course := request.courses[i];
    && course.code in a && PlaceRule(request, course, a[course.code])
    && PrerequisiteRule(request, a, i)
    && (forall other | other in course.coRequisites :: CoRequisiteRule(request, a, i, other))
  }

  ghost predicate RulesUpto(request: PlanRequest, a: Assignment, k: nat)
    requires k <= |request.courses|
  {
    forall i | 0 <= i < k :: CourseRule(request, a, i)
  }

  /** The exact units of the listed courses in term `index`. */
  function ListedUnits(courses: seq<CourseSpec>, a: Assignment, index: int): int {
    if courses == [] then 0 else
    var last := courses[|courses| - 1];
    ListedUnits(courses[..|courses| - 1], a, index) + if last.code in a && a[last.code] == index then last.creditUnits
    else 0
  }

  predicate WindowRule(request: PlanRequest, a: Assignment, j: nat)
    requires j < |request.terms|
  {
    var term := request.terms[j];
    var units := ListedUnits(request.courses, a, term.index);
    units <= term.maxCredits * 1000 && (term.minCredits != 0 ==> units >= term.minCredits * 1000)
  }

  /** Allocated pairs of a requirement (by position) and a course (by position). */
  type Allocation = set<(nat, nat)>

  predicate Listed(request: PlanRequest, g: nat, c: nat) {
    g < |request.requirements| && c < |request.courses|
    && request.courses[c].code in request.requirements[g].courseCodes
  }

  function AllocatedCount(request: PlanRequest, alloc: Allocation, g: nat, k: nat): nat
    requires k <= |request.courses|
  {
    if k == 0 then 0
    else AllocatedCount(request, alloc, g, k - 1) + if Listed(request, g, k - 1) && (g, k - 1) in alloc then 1 else 0
  }

  function AllocatedUnits(request: PlanRequest, alloc: Allocation, g: nat, k: nat): int
    requires k <= |request.courses|
  {
    if k == 0 then 0
    else
      AllocatedUnits(request, alloc, g, k - 1)
      + if Listed(request, g, k - 1) && (g, k - 1) in alloc then request.courses[k - 1].creditUnits else 0
  }

  /** A group with a listed course gets enough allocated courses and units. */
  ghost predicate GroupRule(request: PlanRequest, alloc: Allocation, g: nat)
    requires g < |request.requirements|
  {
    var group, n := request.requirements[g], |request.courses|;
    (exists c :: Listed(request, g, c)) ==>
      && AllocatedCount(request, alloc, g, n) >= group.minCourses
      && (group.minCredits != 0 ==> AllocatedUnits(request, alloc, g, n) >= group.minCredits * 1000)
  }

  // ---- Exclusive use ----

  predicate Exclusive(request: PlanRequest, g: nat, c: nat) {
    Listed(request, g, c) && !request.requirements[g].allowDoubleCounting
  }

  /** Course `c` is allocated to at most one exclusive group. */
  ghost predicate ExclusiveRule(request: PlanRequest, alloc: Allocation, c: nat) {
    forall g, h | 0 <= g < h < |request.requirements| && Exclusive(request, g, c) && Exclusive(request, h, c) ::
      (g, c) !in alloc || (h, c) !in alloc
  }

  /** The first group with a given id. */
  function FirstGroup(request: PlanRequest, id: string): (g: nat)
    requires id in GroupIds(request)
    ensures g < |request.requirements| && request.requirements[g].id == id
    ensures forall h | 0 <= h < g :: request.requirements[h].id != id
  {
    assert exists g: nat :: g < |GroupIds(request)| && GroupIds(request)[g] == id;
    FirstFrom(request, id, 0)
  }

  function FirstFrom(request: PlanRequest, id: string, from: nat): (g: nat)
    requires exists g :: from <= g < |request.requirements| && request.requirements[g].id == id
    ensures from <= g < |request.requirements| && request.requirements[g].id == id
    ensures forall h | from <= h < g :: request.requirements[h].id != id
    decreases |request.requirements| - from
  {
    if request.requirements[from].id == id then from else FirstFrom(request, id, from + 1)
  }

  /** The first group with the id of group `g`. */
  function FirstWithIdOf(request: PlanRequest, g: nat): RequirementGroup
    requires g < |request.requirements|
  {
    assert GroupIds(request)[g] == request.requirements[g].id;
    request.requirements[FirstGroup(request, request.requirements[g].id)]
  }

  /** Group `g` is the last with its id to list course `c`, so its flag is the one kept under the id. */
  predicate Keeps(request: PlanRequest, g: nat, c: nat) {
    && Listed(request, g, c)
    && forall h | g < h < |request.requirements| && Listed(request, h, c) ::
      request.requirements[h].id != request.requirements[g].id
  }

  /** The kept flag counts against double use, as the first group with the id says. */
  predicate Counted(request: PlanRequest, g: nat, c: nat) {
    Keeps(request, g, c) && !FirstWithIdOf(request, g).allowDoubleCounting
  }

  /** At most one of the flags that count for course `c` is set. */
  ghost predicate FlagRule(request: PlanRequest, alloc: Allocation, c: nat) {
    forall g, h | 0 <= g < h < |request.requirements| && Counted(request, g, c) && Counted(request, h, c) ::
      (g, c) !in alloc || (h, c) !in alloc
  }

  /** Two groups compete for course `c` by their flags exactly if both are exclusive. */
  predicate Compete(request: PlanRequest, c: nat, g: nat, h: nat) {
    Counted(request, g, c) && Counted(request, h, c) <==> Exclusive(request, g, c) && Exclusive(request, h, c)
  }

  /** The flags that count decide exclusive use exactly if they make the same groups compete. */
  lemma FlagRuleIffExclusive(request: PlanRequest, c: nat)
    ensures (forall alloc: Allocation :: FlagRule(request, alloc, c) <==> ExclusiveRule(request, alloc, c)) <==>
      forall g, h | 0 <= g < h < |request.requirements| :: Compete(request, c, g, h)
  {
    hide Counted, Exclusive;
    if g, h :| 0 <= g < h < |request.requirements| && !Compete(request, c, g, h) {
      var both: Allocation := {(g, c), (h, c)};
      OnlyPair(c, g, h);
      assert FlagRule(request, both, c) <==> !(Counted(request, g, c) && Counted(request, h, c));
      assert ExclusiveRule(request, both, c) <==> !(Exclusive(request, g, c) && Exclusive(request, h, c));
    } else {
      forall alloc: Allocation ensures FlagRule(request, alloc, c) <==> ExclusiveRule(request, alloc, c) {
        SameCompetitors(request, alloc, c);
      }
    }
  }

  lemma SameCompetitors(request: PlanRequest, alloc: Allocation, c: nat)
    requires forall g, h | 0 <= g < h < |request.requirements| :: Compete(request, c, g, h)
    ensures FlagRule(request, alloc, c) <==> ExclusiveRule(request, alloc, c)
  {
    hide Counted, Exclusive;
    if FlagRule(request, alloc, c) {
      forall g, h | 0 <= g < h < |request.requirements| && Exclusive(request, g, c) && Exclusive(request, h, c)
        ensures (g, c) !in alloc || (h, c) !in alloc
      {
        assert Compete(request, c, g, h);
      }
    }
    if ExclusiveRule(request, alloc, c) {
      forall g, h | 0 <= g < h < |request.requirements| && Counted(request, g, c) && Counted(request, h, c)
        ensures (g, c) !in alloc || (h, c) !in alloc
      {
        assert Compete(request, c, g, h);
      }
    }
  }

  lemma OnlyPair(c: nat, g: nat, h: nat)
    requires g < h
    ensures forall i: nat, j: nat | i < j && (i, c) in {(g, c), (h, c)} && (j, c) in {(g, c), (h, c)} ::
      i == g && j == h
  {
  }

  /** With distinct ids the flags that count are those of the exclusive groups. */
  lemma DistinctIdsCount(request: PlanRequest, g: nat, c: nat)
    requires Distinct(GroupIds(request))
    ensures Counted(request, g, c) <==> Exclusive(request, g, c)
  {
    if Listed(request, g, c) {
      var id := request.requirements[g].id;
      assert GroupIds(request)[g] == id;
      var first := FirstGroup(request, id);
      assert GroupIds(request)[first] == id;
      forall h | g < h < |request.requirements| ensures request.requirements[h].id != id {
        assert GroupIds(request)[h] != GroupIds(request)[g];
      }
    }
  }

  /** No two flags count for a course unless both groups are exclusive. */
  ghost predicate CountsExclusive(request: PlanRequest) {
    forall c: nat, g, h | 0 <= g < h < |request.requirements| && Counted(request, g, c) && Counted(request, h, c) ::
      Exclusive(request, g, c) && Exclusive(request, h, c)
  }

  lemma DistinctIdsCountExclusive(request: PlanRequest)
    requires Distinct(GroupIds(request))
    ensures CountsExclusive(request)
  {
    forall c: nat, g, h | 0 <= g < h < |request.requirements| && Counted(request, g, c) && Counted(request, h, c)
      ensures Exclusive(request, g, c) && Exclusive(request, h, c)
    {
      DistinctIdsCount(request, g, c);
      DistinctIdsCount(request, h, c);
    }
  }

  ghost predicate SelectedRule(request: PlanRequest, a: Assignment, alloc: Allocation) {
    forall g: nat, c: nat | Listed(request, g, c) && (g, c) in alloc ::
      request.courses[c].code in a && a[request.courses[c].code] > 0
  }

  ghost predicate AllocationRule(request: PlanRequest, a: Assignment, alloc: Allocation) {
    && SelectedRule(request, a, alloc)
    && (forall g | 0 <= g < |request.requirements| :: GroupRule(request, alloc, g))
    && (forall c | 0 <= c < |request.courses| :: FlagRule(request, alloc, c))
  }

  /** The assignments that the constraint model admits. */
  ghost predicate ModelAccepts(request: PlanRequest, a: Assignment) {
    && a.Keys == Registered(request, |request.courses|)
    && RulesUpto(request, a, |request.courses|)
    && (forall j | 0 <= j < |request.terms| :: WindowRule(request, a, j))
    && (exists alloc :: AllocationRule(request, a, alloc))
  }

  // ---- Failures of the build ----

  /** Some course asks for credits while a planned course is still missing from the dictionaries. */
  ghost predicate LooksAhead(request: PlanRequest, i: nat)
    requires i < |request.courses|
  {
    request.courses[i].prerequisites.Some? && ReadsCredits(request.courses[i].prerequisites.value)
    && Unregistered(request, Registered(request, i + 1))
  }

  function InvalidOf(request: PlanRequest, i: nat): seq<Invalid>
    requires i < |request.courses|
  {
    match request.courses[i].prerequisites
    case Some(e) => InvalidIn(request, Registered(request, i + 1), e)
    case None => []
  }

  function InvalidUpto(request: PlanRequest, k: nat): seq<Invalid>
    requires k <= |request.courses|
  {
    if k == 0 then [] else InvalidUpto(request, k - 1) + InvalidOf(request, k - 1)
  }

  // ---- Posting rules about the assignment ----

  /** `m1` admits, of the assignments of `m0`, exactly those that satisfy `P`. */
  ghost predicate Narrows(ctx: Context, m0: CpModel, m1: CpModel, P: Assignment -> bool) {
    && Grows(m0, m1) && Scoped(m0) && Scoped(m1) && ContextIn(ctx, |m0.domains|)
    && (forall t {:trigger Solves(m1, t)} | Solves(m1, t) :: P(Terms(ctx, t)))
    && (forall s {:trigger Solves(m0, s)} | Solves(m0, s) && P(Terms(ctx, s)) :: Extends(m1, s))
  }

  lemma NarrowsNothing(ctx: Context, m0: CpModel, m1: CpModel, P: Assignment -> bool)
    requires Conservative(m0, m1) && ContextIn(ctx, |m0.domains|) && forall a :: P(a)
    ensures Narrows(ctx, m0, m1, P)
  {
  }

  lemma TermsPrefix(ctx: Context, s: Valuation, t: Valuation)
    requires s <= t && ContextIn(ctx, |s|)
    ensures ContextIn(ctx, |t|) && Terms(ctx, s) == Terms(ctx, t)
  {
  }

  lemma NarrowsChain(
    ctx: Context, m0: CpModel, m1: CpModel, m2: CpModel, P: Assignment -> bool, Q: Assignment -> bool,
    R: Assignment -> bool)
    requires Narrows(ctx, m0, m1, P) && Narrows(ctx, m1, m2, Q)
    requires forall a :: R(a) <==> P(a) && Q(a)
    ensures Narrows(ctx, m0, m2, R)
  {
    forall t | Solves(m2, t) ensures R(Terms(ctx, t)) {
      SolutionCut(m1, m2, t);
      TermsPrefix(ctx, t[..|m1.domains|], t);
      assert P(Terms(ctx, t[..|m1.domains|]));
    }
    forall s | Solves(m0, s) && R(Terms(ctx, s)) ensures Extends(m2, s) {
      assert Extends(m1, s);
      var t :| s <= t && Solves(m1, t);
      TermsPrefix(ctx, s, t);
      assert Extends(m2, t);
      var u :| t <= u && Solves(m2, u);
      assert s <= u;
    }
  }

  /** Posting one constraint that says `P` of the assignment, in every solution. */
  lemma NarrowsByPost(ctx: Context, m: CpModel, c: Constraint, P: Assignment -> bool)
    requires Scoped(m) && ContextIn(ctx, |m.domains|) && ConstraintIn(c, |m.domains|)
    requires forall s {:trigger Solves(m, s)} | Solves(m, s) :: Satisfied(c, s) <==> P(Terms(ctx, s))
    ensures Narrows(ctx, m, Grown(m, [], [c]), P)
  {
    var m' := Grown(m, [], [c]);
    assert AllIn([c], |m.domains|);
    PostAll(m, [c], []);
    forall t | Solves(m', t) ensures P(Terms(ctx, t)) {
      PostAll(m, [c], t);
      assert Satisfied([c][0], t);
    }
    forall s | Solves(m, s) && P(Terms(ctx, s)) ensures Extends(m', s) {
      PostAll(m, [c], s);
      assert s <= s;
    }
  }

  /** A conservative extension before a narrowing one changes nothing. */
  lemma NarrowsAfter(ctx: Context, m0: CpModel, m1: CpModel, m2: CpModel, P: Assignment -> bool)
    requires Conservative(m0, m1) && Narrows(ctx, m1, m2, P) && ContextIn(ctx, |m0.domains|)
    ensures Narrows(ctx, m0, m2, P)
  {
    NarrowsNothing(ctx, m0, m1, a => true);
    NarrowsChain(ctx, m0, m1, m2, a => true, P, P);
  }

  /** What every solution says anyway. */
  lemma NarrowsSelf(ctx: Context, m: CpModel, P: Assignment -> bool)
    requires Scoped(m) && ContextIn(ctx, |m.domains|)
    requires forall s {:trigger Solves(m, s)} | Solves(m, s) :: P(Terms(ctx, s))
    ensures Narrows(ctx, m, m, P)
  {
    forall s | Solves(m, s) ensures Extends(m, s) {
      assert s <= s;
    }
  }

  // ---- The rules of one course, piece by piece ----

  predicate DomainRule(request: PlanRequest, course: CourseSpec, a: Assignment) {
    course.code in a && 0 <= a[course.code] <= |request.terms|
  }

  predicate ExclusionRule(request: PlanRequest, course: CourseSpec, a: Assignment) {
    course.code in a && course.code in request.excluded ==> a[course.code] == 0
  }

  predicate PinRule(request: PlanRequest, course: CourseSpec, a: Assignment) {
    course.code in a && course.code in request.pinned ==> a[course.code] == request.pinned[course.code]
  }

  predicate AvailabilityRule(request: PlanRequest, course: CourseSpec, a: Assignment, upto: nat) {
    forall index | 1 <= index <= upto && index !in Allowed(request, course) :: course.code in a ==>
      a[course.code] != index
  }

  predicate CoRequisiteRules(request: PlanRequest, a: Assignment, i: nat, others: set<string>)
    requires i < |request.courses|
  {
    forall other | other in others :: CoRequisiteRule(request, a, i, other)
  }

  lemma CourseRuleParts(request: PlanRequest, a: Assignment, i: nat)
    requires i < |request.courses|
    ensures var course := request.courses[i];
            CourseRule(request, a, i) <==>
            && DomainRule(request, course, a) && ExclusionRule(request, course, a) && PinRule(request, course, a)
            && AvailabilityRule(request, course, a, |request.terms|)
            && PrerequisiteRule(request, a, i) && CoRequisiteRules(request, a, i, course.coRequisites)
  {
    var course := request.courses[i];
    if course.code in a && 1 <= a[course.code] <= |request.terms| {
      assert AvailabilityRule(request, course, a, |request.terms|) <==> a[course.code] in Allowed(request, course);
    }
  }

  // ---- Registering a course ----

  function CourseConstraints(term: nat, selected: nat): seq<Constraint> {
    [ Compare(Var(term), Gt, Const(0), [Pos(selected)]), Compare(Var(term), Eq, Const(0), [Neg(selected)]) ]
  }

  lemma CourseMeans(term: nat, selected: nat, t: Valuation)
    requires term < |t| && selected < |t| && 0 <= t[term] && 0 <= t[selected] <= 1
    ensures AllIn(CourseConstraints(term, selected), |t|)
    ensures AllSatisfied(CourseConstraints(term, selected), t) <==> t[selected] == Bit(t[term] > 0)
  {
    var cs := CourseConstraints(term, selected);
    OneLiteral(Pos(selected), t);
    OneLiteral(Neg(selected), t);
    assert AllSatisfied(cs, t) <==> Satisfied(cs[0], t) && Satisfied(cs[1], t);
  }

  /** The two variables of a new course: its term and whether it is selected. */
  lemma RegisterMeans(m: CpModel, max: nat, t: Valuation)
    requires Scoped(m)
    ensures var n := |m.domains|; var m' := Grown(m, [(0, max), (0, 1)], CourseConstraints(n, n + 1));
            && Scoped(m') && Grows(m, m')
            && (Solves(m', t) <==> |t| == n + 2 && Solves(m, t[..n]) && 0 <= t[n] <= max && t[n + 1] == Bit(t[n] > 0))
  {
    var n := |m.domains|;
    var added, cs := [(0, max as int), (0, 1)], CourseConstraints(n, n + 1);
    assert AllIn(cs, n + 2);
    hide CourseConstraints;
    GrownScoped(m, added, cs);
    if Solves(Grown(m, added, cs), t) {
      GrownMeans(m, added, cs, t);
      assert 0 <= t[n..][0] <= max && 0 <= t[n..][1] <= 1;
      CourseMeans(n, n + 1, t);
    }
    if |t| == n + 2 && Solves(m, t[..n]) && 0 <= t[n] <= max && t[n + 1] == Bit(t[n] > 0) {
      assert t == t[..n] + [t[n], t[n + 1]];
      CourseMeans(n, n + 1, t);
      GrownExtends(m, added, cs, t[..n], [t[n], t[n + 1]]);
    }
  }

  ghost function WithCourse(ctx: Context, code: string, term: nat): Context {
    ctx.(termVars := ctx.termVars[code := term], selected := ctx.selected[code := term + 1])
  }

  lemma RegisterLinks(ctx: Context, m: CpModel, max: nat, code: string)
    requires Scoped(m) && Linked(ctx, m)
    ensures var n := |m.domains|; var m' := Grown(m, [(0, max), (0, 1)], CourseConstraints(n, n + 1));
            Scoped(m') && Grows(m, m') && Linked(WithCourse(ctx, code, n), m')
  {
    hide CourseConstraints;
    var n := |m.domains|;
    var m' := Grown(m, [(0, max as int), (0, 1)], CourseConstraints(n, n + 1));
    RegisterMeans(m, max, []);
    forall t | Solves(m', t) ensures LinkedAt(WithCourse(ctx, code, n), t) {
      RegisterMeans(m, max, t);
      assert LinkedAt(ctx, t[..n]);
      forall c | c in WithCourse(ctx, code, n).termVars && c != code
        ensures c in ctx.termVars && t[ctx.termVars[c]] == t[..n][ctx.termVars[c]]
        ensures t[ctx.selected[c]] == t[..n][ctx.selected[c]]
      {
      }
    }
  }

  /** The solutions of `m` are exactly the rule-abiding assignments of the first `k` courses. */
  ghost predicate Admits(request: PlanRequest, ctx: Context, m: CpModel, k: nat)
    requires k <= |request.courses|
  {
    && Scoped(m) && ContextIn(ctx, |m.domains|) && ctx.termVars.Keys == Registered(request, k)
    && (forall s {:trigger Solves(m, s)} | Solves(m, s) :: RulesUpto(request, Terms(ctx, s), k))
    && (forall a: Assignment | a.Keys == Registered(request, k) && RulesUpto(request, a, k) :: Represented(ctx, m, a))
  }

  ghost predicate Represented(ctx: Context, m: CpModel, a: Assignment)
    requires ContextIn(ctx, |m.domains|)
  {
    exists s :: Solves(m, s) && Terms(ctx, s) == a
  }

  lemma RuleReadsPrefix(request: PlanRequest, a: Assignment, b: Assignment, i: nat, k: nat)
    requires i < k <= |request.courses| && b == Upto(request, a, k)
    ensures CourseRule(request, a, i) <==> CourseRule(request, b, i)
  {
    assert request.courses[i].code in Registered(request, k);
    assert Registered(request, i + 1) <= Registered(request, k);
    assert Upto(request, a, i + 1) == Upto(request, b, i + 1);
    forall other | other in request.courses[i].coRequisites
      ensures CoRequisiteRule(request, a, i, other) <==> CoRequisiteRule(request, b, i, other)
    {
    }
  }

  lemma RegisteredStep(request: PlanRequest, k: nat)
    requires k < |request.courses|
    ensures Registered(request, k + 1) == Registered(request, k) + {request.courses[k].code}
  {
  }

  /** Registering and constraining course `k` extends the characterisation by one course. */
  lemma AdmitsStep(request: PlanRequest, ctx: Context, m: CpModel, m1: CpModel, m2: CpModel, k: nat)
    requires k < |request.courses| && Distinct(Codes(request)) && Admits(request, ctx, m, k) && Linked(ctx, m)
    requires m1 == Grown(m, [(0, |request.terms|), (0, 1)], CourseConstraints(|m.domains|, |m.domains| + 1))
    requires Narrows(WithCourse(ctx, request.courses[k].code, |m.domains|), m1, m2, a => CourseRule(request, a, k))
    ensures Admits(request, WithCourse(ctx, request.courses[k].code, |m.domains|), m2, k + 1)
  {
    var code, n := request.courses[k].code, |m.domains|;
    var ctx' := WithCourse(ctx, code, n);
    RegisteredStep(request, k);
    assert code !in Registered(request, k) by {
      forall i | 0 <= i < k ensures request.courses[i].code != code {
        assert Codes(request)[i] != Codes(request)[k];
      }
    }
    forall t | Solves(m2, t) ensures RulesUpto(request, Terms(ctx', t), k + 1) {
      AdmitsSound(request, ctx, m, m1, m2, k, t);
    }
    forall a: Assignment | a.Keys == Registered(request, k + 1) && RulesUpto(request, a, k + 1)
      ensures Represented(ctx', m2, a)
    {
      AdmitsComplete(request, ctx, m, m1, m2, k, a);
    }
  }

  lemma AdmitsSound(request: PlanRequest, ctx: Context, m: CpModel, m1: CpModel, m2: CpModel, k: nat, t: Valuation)
    requires k < |request.courses| && Admits(request, ctx, m, k)
    requires request.courses[k].code !in Registered(request, k)
    requires m1 == Grown(m, [(0, |request.terms|), (0, 1)], CourseConstraints(|m.domains|, |m.domains| + 1))
    requires Narrows(WithCourse(ctx, request.courses[k].code, |m.domains|), m1, m2, a => CourseRule(request, a, k))
    requires Solves(m2, t)
    ensures RulesUpto(request, Terms(WithCourse(ctx, request.courses[k].code, |m.domains|), t), k + 1)
  {
    hide CourseRule, CourseConstraints;
    var ctx' := WithCourse(ctx, request.courses[k].code, |m.domains|);
    var a := Terms(ctx', t);
    SolutionCut(m1, m2, t);
    var t1 := t[..|m1.domains|];
    TermsPrefix(ctx', t1, t);
    RegisterView(ctx, m, m1, request.courses[k].code, |request.terms|, t1);
    var b := Terms(ctx, t1[..|m.domains|]);
    RulesExtend(request, a, b, k, t1[|m.domains|]);
    assert CourseRule(request, a, k);
  }

  lemma RegisterView(ctx: Context, m: CpModel, m1: CpModel, code: string, max: nat, t: Valuation)
    requires Scoped(m) && ContextIn(ctx, |m.domains|)
    requires m1 == Grown(m, [(0, max), (0, 1)], CourseConstraints(|m.domains|, |m.domains| + 1))
    requires Solves(m1, t)
    ensures |t| == |m.domains| + 2 && Solves(m, t[..|m.domains|])
    ensures ContextIn(WithCourse(ctx, code, |m.domains|), |t|)
    ensures Terms(WithCourse(ctx, code, |m.domains|), t) == Terms(ctx, t[..|m.domains|])[code := t[|m.domains|]]
  {
    RegisterMeans(m, max, t);
  }

  /** Adding course `k` to an assignment of the earlier ones leaves their rules as they were. */
  lemma RulesExtend(request: PlanRequest, a: Assignment, b: Assignment, k: nat, x: int)
    requires k < |request.courses| && b.Keys == Registered(request, k)
    requires request.courses[k].code !in Registered(request, k) && a == b[request.courses[k].code := x]
    ensures RulesUpto(request, a, k) <==> RulesUpto(request, b, k)
  {
    hide CourseRule;
    assert b == Upto(request, a, k);
    forall i | 0 <= i < k ensures CourseRule(request, a, i) <==> CourseRule(request, b, i) {
      RuleReadsPrefix(request, a, b, i, k);
    }
  }

  lemma AdmitsComplete(request: PlanRequest, ctx: Context, m: CpModel, m1: CpModel, m2: CpModel, k: nat, a: Assignment)
    requires k < |request.courses| && Admits(request, ctx, m, k)
    requires request.courses[k].code !in Registered(request, k)
    requires m1 == Grown(m, [(0, |request.terms|), (0, 1)], CourseConstraints(|m.domains|, |m.domains| + 1))
    requires Narrows(WithCourse(ctx, request.courses[k].code, |m.domains|), m1, m2, a => CourseRule(request, a, k))
    requires a.Keys == Registered(request, k + 1) && RulesUpto(request, a, k + 1)
    ensures Represented(WithCourse(ctx, request.courses[k].code, |m.domains|), m2, a)
  {
    var code, n := request.courses[k].code, |m.domains|;
    var ctx' := WithCourse(ctx, code, n);
    RegisteredStep(request, k);
    var b := Upto(request, a, k);
    assert b.Keys == Registered(request, k) && a == b[code := a[code]];
    assert CourseRule(request, a, k);
    var t1 := RegisterSolution(request, ctx, m, m1, k, a, b);
    assert Extends(m2, t1);
    var t :| t1 <= t && Solves(m2, t);
    TermsPrefix(ctx', t1, t);
  }

  lemma RegisterSolution(
    request: PlanRequest, ctx: Context, m: CpModel, m1: CpModel, k: nat, a: Assignment, b: Assignment)
    returns (t: Valuation)
    requires k < |request.courses| && Admits(request, ctx, m, k)
    requires m1 == Grown(m, [(0, |request.terms|), (0, 1)], CourseConstraints(|m.domains|, |m.domains| + 1))
    requires request.courses[k].code !in Registered(request, k)
    requires b.Keys == Registered(request, k) && a.Keys == Registered(request, k + 1) && RulesUpto(request, a, k + 1)
    requires request.courses[k].code in a && a == b[request.courses[k].code := a[request.courses[k].code]]
    ensures Solves(m1, t) && ContextIn(WithCourse(ctx, request.courses[k].code, |m.domains|), |t|)
    ensures Terms(WithCourse(ctx, request.courses[k].code, |m.domains|), t) == a
  {
    var code, n := request.courses[k].code, |m.domains|;
    assert CourseRule(request, a, k);
    hide CourseRule, CourseConstraints;
    RulesExtend(request, a, b, k, a[code]);
    assert Represented(ctx, m, b);
    var s :| Solves(m, s) && Terms(ctx, s) == b;
    t := s + [a[code], Bit(a[code] > 0)];
    assert t[..n] == s;
    RegisterMeans(m, |request.terms|, t);
    RegisterView(ctx, m, m1, code, |request.terms|, t);
  }
}
