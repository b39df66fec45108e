/** The model under construction: variables, constraints and bookkeeping, filled in step by step. */
module PlanBuild {
  import opened Ast
  import opened BuildReports
  import opened Compiler
  import opened Constraints
  import opened Ordering
  import opened Outcomes
  import opened PlanAllocation
  import opened PlanModel
  import opened PlanRules

  class Build {
    const request: PlanRequest
    var model: CpModel
    var termVars: map<string, nat>
    var selected: map<string, nat>
    var assumptions: map<nat, string>
    var invalid: seq<Invalid>
    var allocationVars: map<(string, string), nat>
    ghost var flags: Flags

    constructor (request: PlanRequest)
      ensures this.request == request && model == CpModel([], []) && termVars == map[] && selected == map[]
      ensures assumptions == map[] && invalid == [] && allocationVars == map[] && flags == map[]
    {
      this.request := request;
      allocationVars, flags := map[], map[];
      model, termVars, selected, assumptions, invalid := CpModel([], []), map[], map[], map[], [];
    }

    function Ctx(): Context
      reads this
    {
      Context(request, termVars, selected)
    }

    ghost predicate Ready()
      reads this
    {
      Scoped(model) && Linked(Ctx(), model)
    }

    method NewIntVar(low: int, high: int) returns (v: nat)
      modifies `model
      ensures model == Grown(old(model), [(low, high)], []) && v == |old(model).domains|
    {
      v := |model.domains|;
      model := model.(domains := model.domains + [(low, high)]);
      assert old(model).constraints + [] == model.constraints;
    }

    method NewBoolVar() returns (v: nat)
      modifies `model
      ensures model == Grown(old(model), [(0, 1)], []) && v == |old(model).domains|
    {
      v := NewIntVar(0, 1);
    }

    method Add(c: Constraint)
      modifies `model
      ensures model == Grown(old(model), [], [c])
    {
      model := model.(constraints := model.constraints + [c]);
      assert old(model).domains + [] == model.domains;
    }

    /** `value` is true exactly when `left` and `right` are. */
    method Equivalence(value: nat, left: nat, right: nat)
      modifies `model
      ensures model == Grown(old(model), [],
                [BoolAnd([Pos(left), Pos(right)], [Pos(value)]), BoolOr([Neg(left), Neg(right)], [Neg(value)])])
    {
      Add(BoolAnd([Pos(left), Pos(right)], [Pos(value)]));
      Add(BoolOr([Neg(left), Neg(right)], [Neg(value)]));
    }

    /** A Boolean for "the course is taken before (or, under COREQ, in) the target term". */
    method PlacedBool(code: string, target: nat, coreq: bool) returns (value: nat)
      requires Ready() && target < |model.domains| && code in termVars
      modifies `model
      ensures Conservative(old(model), model) && value < |model.domains|
      ensures forall t {:trigger Solves(model, t)} | Solves(model, t) ::
        t[value] == Bit(Placed(Ctx(), t, code, target, coreq))
    {
      ghost var m := model;
      PlacedGadget(m, Ctx(), code, target, coreq);
      value := NewBoolVar();
      var relation := NewBoolVar();
      if coreq {
        Add(Compare(Var(termVars[code]), Eq, Var(target), [Pos(relation)]));
        Add(Compare(Var(termVars[code]), Ne, Var(target), [Neg(relation)]));
      } else {
        Add(Compare(Var(termVars[code]), Lt, Var(target), [Pos(relation)]));
        Add(Compare(Var(termVars[code]), Ge, Var(target), [Neg(relation)]));
      }
      Equivalence(value, selected[code], relation);
      assert model ==
        Grown(m, [(0, 1), (0, 1)], PlacedConstraints(selected[code], termVars[code], target, coreq, value));
    }

    /** A Boolean fixed to `b`, the known meaning of `e`. */
    method ConstantBool(ghost e: Expr, ghost target: nat, ghost coreq: bool, b: bool) returns (value: nat)
      requires Ready() && target < |model.domains|
      requires forall s {:trigger Solves(model, s)} | Solves(model, s) :: Meaning(Ctx(), e, s, target, coreq) == b
      modifies `model
      ensures Conservative(old(model), model) && Tracks(model, Ctx(), e, target, coreq, value)
    {
      ghost var m := model;
      ConstantGadget(m, Ctx(), e, target, coreq, b);
      value := NewBoolVar();
      Add(Compare(Var(value), Eq, Const(Bit(b)), []));
      assert model == Grown(m, [(0, 1)], [Compare(Var(value), Eq, Const(Bit(b)), [])]);
    }

    /**
     Compiles `e` against the term variable `target`. The result variable is the truth value of `e`
     in every solution, and no assignment of terms is ruled out. The lookup of a course that is not
     registered yet fails only inside a credit sum.
     */
    method ExprBool(e: Expr, target: nat, coreq: bool) returns (r: Result<nat, BuildError>)
      requires Ready() && target < |model.domains|
      modifies `model, `invalid
      ensures Conservative(old(model), model)
      ensures r.Success? ==> Tracks(model, Ctx(), e, target, coreq, r.value)
      ensures r.Success? ==> invalid == old(invalid) + InvalidIn(request, termVars.Keys, e)
      ensures r.Failure? <==> ReadsCredits(e) && Unregistered(request, termVars.Keys)
      decreases e, 1
    {
      match e {
        case CourseRef(code) =>
          var value := CourseBool(code, target, coreq);
          r := Success(value);
        case GradeAtLeast(course, grade) =>
          var met := course in request.completed && GradePoints(GradeOf(request, course)) >= GradePoints(grade);
          var value := ConstantBool(e, target, coreq, met);
          if course !in request.completed {
            invalid := invalid + [FutureGrade(course, grade)];
          }
          r := Success(value);
        case CreditsAtLeast(credits) =>
          r := CreditsBool(credits, target, coreq);
        case Predicate(kind, value) =>
          var supplied := value in Supplied(request, kind);
          var v := ConstantBool(e, target, coreq, supplied);
          if !supplied {
            invalid := invalid + [UnresolvedPredicate(kind, value)];
          }
          r := Success(v);
        case AllOf(items) =>
          r := CompoundBool(items, target, coreq, true);
          ghost var m := model;
          assert r.Success? ==> Tracks(m, Ctx(), e, target, coreq, r.value) by {
            CompoundIsMeaning(m, e, target, coreq, r);
          }
        case CoRequisite(items) =>
          r := CompoundBool(items, target, true, true);
          ghost var m := model;
          assert r.Success? ==> Tracks(m, Ctx(), e, target, coreq, r.value) by {
            CompoundIsMeaning(m, e, target, coreq, r);
          }
        case AnyOf(items) =>
          r := CompoundBool(items, target, coreq, false);
          ghost var m := model;
          assert r.Success? ==> Tracks(m, Ctx(), e, target, coreq, r.value) by {
            CompoundIsMeaning(m, e, target, coreq, r);
          }
      }
    }

    lemma CompoundIsMeaning(m: CpModel, e: Expr, target: nat, coreq: bool, r: Result<nat, BuildError>)
      requires e.AllOf? || e.AnyOf? || e.CoRequisite?
      requires r.Success? ==> TracksCompound(m, Ctx(), e.items, target, coreq || e.CoRequisite?, !e.AnyOf?, r.value)
      ensures r.Success? ==> Tracks(m, Ctx(), e, target, coreq, r.value)
    {
      if r.Success? {
        forall s | Solves(m, s)
          ensures CompoundMeaning(Ctx(), e.items, s, target, coreq || e.CoRequisite?, !e.AnyOf?) ==
            Meaning(Ctx(), e, s, target, coreq)
        {
        }
      }
    }

    method CourseBool(code: string, target: nat, coreq: bool) returns (value: nat)
      requires Ready() && target < |model.domains|
      modifies `model, `invalid
      ensures Conservative(old(model), model)
      ensures Tracks(model, Ctx(), CourseRef(code), target, coreq, value)
      ensures invalid == old(invalid) + InvalidIn(request, termVars.Keys, CourseRef(code))
    {
      if code in request.completed {
        value := ConstantBool(CourseRef(code), target, coreq, true);
      } else if code !in termVars {
        value := ConstantBool(CourseRef(code), target, coreq, false);
        invalid := invalid + [UnknownPrerequisite(code)];
      } else {
        ghost var m := model;
        value := PlacedBool(code, target, coreq);
        LinkedLater(Ctx(), m, model);
        forall t | Solves(model, t) ensures t[value] == Bit(Meaning(Ctx(), CourseRef(code), t, target, coreq)) {
          assert LinkedAt(Ctx(), t);
        }
      }
    }

    method CreditsBool(credits: int, target: nat, coreq: bool) returns (r: Result<nat, BuildError>)
      requires Ready() && target < |model.domains|
      modifies `model
      ensures Conservative(old(model), model)
      ensures r.Success? ==> Tracks(model, Ctx(), CreditsAtLeast(credits), target, coreq, r.value)
      ensures r.Failure? <==> Unregistered(request, termVars.Keys)
    {
      hide Conservative, Tracks, TotalTracks, Scoped, Linked;
      ghost var m0 := model;
      var value := NewBoolVar();
      ghost var m1 := model;
      ReserveReady(Ctx(), m0, m1, target);
      TotalTracksStart(m1, Ctx(), target);
      assert request.courses[..0] == [];
      var weights: seq<(int, nat)> := [];
      for i := 0 to |request.courses|
        invariant Ready() && Conservative(m1, model) && target < |model.domains|
        invariant TotalTracks(model, Ctx(), weights, request.courses[..i], target)
        invariant forall k | 0 <= k < i ::
          request.courses[k].code in request.completed || request.courses[k].code in termVars
      {
        var course := request.courses[i];
        assert request.courses[..i + 1] == request.courses[..i] + [course];
        if course.code in request.completed {
          TotalTracksSkip(model, Ctx(), weights, request.courses[..i], target, course);
        } else if course.code !in selected {
          ReserveConservative(m0, m1, model);
          return Failure(KeyError(course.code));
        } else {
          ghost var m := model;
          var before := PlacedBool(course.code, target, false);
          LinkedConservative(Ctx(), m, model, target);
          ConservativeTransitive(m1, m, model);
          TotalTracksStep(m, model, Ctx(), weights, request.courses[..i], target, course, before);
          weights := weights + [(course.creditUnits, before)];
        }
      }
      assert request.courses[..|request.courses|] == request.courses;
      ghost var m2 := model;
      CreditGadget(m0, m1, m2, Ctx(), weights, credits, target, coreq);
      Add(Compare(Weighted(request.completedCredits * 1000, weights), Ge, Const(credits * 1000), [Pos(value)]));
      Add(Compare(Weighted(request.completedCredits * 1000, weights), Le, Const(credits * 1000 - 1), [Neg(value)]));
      assert model == Grown(m2, [], CreditConstraints(request.completedCredits * 1000, weights, credits, value));
      r := Success(value);
    }

    lemma ReserveConservative(m0: CpModel, m1: CpModel, m2: CpModel)
      requires Scoped(m0) && m1 == Grown(m0, [(0, 1)], []) && Conservative(m1, m2)
      ensures Conservative(m0, m2)
    {
      ReserveGrows(m0, m1, m2);
      forall s | Solves(m0, s) ensures Extends(m2, s) {
        var u := ReserveExtends(m0, m1, m2, s, true);
      }
    }

    method CompoundBool(items: seq<Expr>, target: nat, coreq: bool, all: bool) returns (r: Result<nat, BuildError>)
      requires Ready() && target < |model.domains|
      modifies `model, `invalid
      ensures Conservative(old(model), model)
      ensures r.Success? ==> TracksCompound(model, Ctx(), items, target, coreq, all, r.value)
      ensures r.Success? ==> invalid == old(invalid) + InvalidInAll(request, termVars.Keys, items)
      ensures r.Failure? <==>
        (exists i :: 0 <= i < |items| && ReadsCredits(items[i])) && Unregistered(request, termVars.Keys)
      decreases items, 0
    {
      hide Conservative, Tracks, TracksAll, TracksCompound, CompoundConstraints, Scoped, Linked;
      ghost var m0 := model;
      var value := NewBoolVar();
      ghost var m1 := model;
      ReserveReady(Ctx(), m0, m1, target);
      var vars: seq<nat> := [];
      TracksNone(m1, target, coreq);
      for i := 0 to |items|
        invariant Ready() && Conservative(m1, model) && target < |model.domains|
        invariant TracksAll(model, Ctx(), items[..i], target, coreq, vars)
        invariant invalid == old(invalid) + InvalidInAll(request, termVars.Keys, items[..i])
        invariant Unregistered(request, termVars.Keys) ==> forall k | 0 <= k < i :: !ReadsCredits(items[k])
      {
        ghost var m := model;
        assert items[..i + 1] == items[..i] + [items[i]] && items[..i + 1][..i] == items[..i];
        var item := ExprBool(items[i], target, coreq);
        ConservativeTransitive(m1, m, model);
        if item.Failure? {
          ReserveConservative(m0, m1, model);
          return Failure(item.error);
        }
        LinkedConservative(Ctx(), m, model, target);
        TracksAllStep(m, model, items, i, target, coreq, vars, item.value);
        vars := vars + [item.value];
      }
      assert items[..|items|] == items;
      CompoundGadget(m0, m1, model, Ctx(), items, target, coreq, vars, all);
      Close(vars, value, all);
      r := Success(value);
    }

    lemma ReserveReady(ctx: Context, m0: CpModel, m1: CpModel, target: nat)
      requires Scoped(m0) && Linked(ctx, m0) && m1 == Grown(m0, [(0, 1)], []) && target < |m0.domains|
      ensures Scoped(m1) && Linked(ctx, m1) && Conservative(m1, m1) && ContextIn(ctx, |m0.domains|)
    {
      GrownScoped(m0, [(0, 1)], []);
      LinkedLater(ctx, m0, m1);
      ConservativeSelf(m1);
    }

    lemma LinkedConservative(ctx: Context, m0: CpModel, m1: CpModel, target: nat)
      requires Linked(ctx, m0) && Conservative(m0, m1) && target < |m0.domains|
      ensures Scoped(m1) && Linked(ctx, m1) && target < |m1.domains|
    {
      LinkedLater(ctx, m0, m1);
    }

    lemma TracksNone(m: CpModel, target: nat, coreq: bool)
      ensures TracksAll(m, Ctx(), [], target, coreq, [])
    {
    }

    lemma TracksAllStep(
      m0: CpModel, m1: CpModel, items: seq<Expr>, i: nat, target: nat, coreq: bool, vars: seq<nat>, v: nat)
      requires i < |items| && TracksAll(m0, Ctx(), items[..i], target, coreq, vars) && Conservative(m0, m1)
      requires Tracks(m1, Ctx(), items[i], target, coreq, v)
      ensures TracksAll(m1, Ctx(), items[..i + 1], target, coreq, vars + [v])
    {
      forall k | 0 <= k < i ensures Tracks(m1, Ctx(), items[k], target, coreq, vars[k]) {
        assert Tracks(m0, Ctx(), items[..i][k], target, coreq, vars[k]);
        TracksLater(m0, m1, Ctx(), items[k], target, coreq, vars[k]);
      }
    }

    /** Posts the closing constraints of a compound. */
    method Close(vars: seq<nat>, value: nat, all: bool)
      modifies `model
      ensures model == Grown(old(model), [], CompoundConstraints(vars, value, all))
    {
      if vars == [] {
        Add(Compare(Var(value), Eq, Const(Bit(all)), []));
      } else if all {
        Add(BoolAnd(Positive(vars), [Pos(value)]));
        Add(BoolOr(Negative(vars), [Neg(value)]));
      } else {
        Add(BoolOr(Positive(vars), [Pos(value)]));
        Add(BoolAnd(Negative(vars), [Neg(value)]));
      }
    }

    // ---- One course ----

    /** Registers course `i` and posts its rules; fails only inside a credit sum that looks ahead. */
    method AddCourse(i: nat) returns (r: Result<(), BuildError>)
      requires i < |request.courses| && Ready() && termVars.Keys == Registered(request, i)
      modifies `model, `termVars, `selected, `assumptions, `invalid
      ensures r.Failure? <==> LooksAhead(request, i)
      ensures r.Success? ==> Ready() && termVars.Keys == Registered(request, i + 1)
      ensures r.Success? ==> invalid == old(invalid) + InvalidOf(request, i)
      ensures r.Success? && Distinct(Codes(request)) && Admits(request, old(Ctx()), old(model), i) ==>
        Admits(request, Ctx(), model, i + 1)
    {
      hide CourseRule, PrerequisiteRule, CourseConstraints, Admits;
      ghost var m0, ctx0 := model, Ctx();
      var course := request.courses[i];
      RegisterLinks(ctx0, m0, |request.terms|, course.code);
      RegisteredStep(request, i);
      Register(course);
      ghost var m1, ctx := model, Ctx();
      DomainHolds(m0, m1, course);
      PostExclusion(course);
      ghost var m2 := model;
      PostPin(course);
      ghost var m3 := model;
      PostAvailability(course);
      ghost var m4 := model;
      var compiled := PostPrerequisite(i);
      if compiled.Failure? {
        return compiled;
      }
      ghost var m5 := model;
      PostCoRequisites(i);
      ChainCourse(ctx, i, m1, m2, m3, m4, m5, model);
      if Distinct(Codes(request)) && Admits(request, ctx0, m0, i) {
        AdmitsStep(request, ctx0, m0, m1, model, i);
      }
      r := Success(());
    }

    /** The loop over the courses, in request order. */
    method AddCourses() returns (r: Result<(), BuildError>)
      requires Ready() && termVars == map[] && Admits(request, Ctx(), model, 0)
      modifies `model, `termVars, `selected, `assumptions, `invalid
      ensures r.Failure? <==> exists i :: 0 <= i < |request.courses| && LooksAhead(request, i)
      ensures r.Success? ==> Ready() && termVars.Keys == Registered(request, |request.courses|)
      ensures r.Success? ==> invalid == old(invalid) + InvalidUpto(request, |request.courses|)
      ensures r.Success? && Distinct(Codes(request)) ==> Admits(request, Ctx(), model, |request.courses|)
    {
      hide Admits, Linked, Scoped, LooksAhead, Registered, InvalidOf, Codes, Distinct;
      assert termVars.Keys == Registered(request, 0) by {
        RegisteredNone(request);
      }
      for i := 0 to |request.courses|
        invariant Ready() && termVars.Keys == Registered(request, i)
        invariant invalid == old(invalid) + InvalidUpto(request, i)
        invariant forall k | 0 <= k < i :: !LooksAhead(request, k)
        invariant Distinct(Codes(request)) ==> Admits(request, Ctx(), model, i)
      {
        r := AddCourse(i);
        if r.Failure? {
          return;
        }
      }
      r := Success(());
    }

    lemma ChainCourse(
      ctx: Context, i: nat, m1: CpModel, m2: CpModel, m3: CpModel, m4: CpModel, m5: CpModel, m6: CpModel)
      requires i < |request.courses|
      requires Narrows(ctx, m1, m1, a => DomainRule(request, request.courses[i], a))
      requires Narrows(ctx, m1, m2, a => ExclusionRule(request, request.courses[i], a))
      requires Narrows(ctx, m2, m3, a => PinRule(request, request.courses[i], a))
      requires Narrows(ctx, m3, m4, a => AvailabilityRule(request, request.courses[i], a, |request.terms|))
      requires Narrows(ctx, m4, m5, a => PrerequisiteRule(request, a, i))
      requires Narrows(ctx, m5, m6, a => CoRequisiteRules(request, a, i, request.courses[i].coRequisites))
      ensures Narrows(ctx, m1, m6, a => CourseRule(request, a, i))
    {
      hide Narrows, CourseRule, PrerequisiteRule, CoRequisiteRules, DomainRule, ExclusionRule, PinRule;
      hide AvailabilityRule;
      var course := request.courses[i];
      var P1 := (a: Assignment) => DomainRule(request, course, a) && ExclusionRule(request, course, a);
      var P2 := (a: Assignment) => P1(a) && PinRule(request, course, a);
      var P3 := (a: Assignment) => P2(a) && AvailabilityRule(request, course, a, |request.terms|);
      var P4 := (a: Assignment) => P3(a) && PrerequisiteRule(request, a, i);
      NarrowsChain(ctx, m1, m1, m2, a => DomainRule(request, course, a), a => ExclusionRule(request, course, a), P1);
      NarrowsChain(ctx, m1, m2, m3, P1, a => PinRule(request, course, a), P2);
      NarrowsChain(ctx, m1, m3, m4, P2, a => AvailabilityRule(request, course, a, |request.terms|), P3);
      NarrowsChain(ctx, m1, m4, m5, P3, a => PrerequisiteRule(request, a, i), P4);
      forall a ensures CourseRule(request, a, i) <==> P4(a) && CoRequisiteRules(request, a, i, course.coRequisites) {
        CourseRuleParts(request, a, i);
      }
      NarrowsChain(ctx, m1, m5, m6, P4, a => CoRequisiteRules(request, a, i, course.coRequisites),
        a => CourseRule(request, a, i));
    }

    method Register(course: CourseSpec)
      modifies `model, `termVars, `selected
      ensures model ==
        Grown(old(model), [(0, |request.terms|), (0, 1)],
        CourseConstraints(|old(model).domains|, |old(model).domains| + 1))
      ensures Ctx() == WithCourse(old(Ctx()), course.code, |old(model).domains|)
      ensures invalid == old(invalid)
    {
      ghost var m0 := model;
      var term := NewIntVar(0, |request.terms|);
      var chosen := NewBoolVar();
      Add(Compare(Var(term), Gt, Const(0), [Pos(chosen)]));
      Add(Compare(Var(term), Eq, Const(0), [Neg(chosen)]));
      termVars := termVars[course.code := term];
      selected := selected[course.code := chosen];
      assert model == Grown(m0, [(0, |request.terms|), (0, 1)], CourseConstraints(term, chosen));
    }

    lemma DomainHolds(m0: CpModel, m1: CpModel, course: CourseSpec)
      requires Scoped(m0) && Scoped(m1) && course.code in termVars && termVars[course.code] == |m0.domains|
      requires ContextIn(Ctx(), |m1.domains|)
      requires m1 == Grown(m0, [(0, |request.terms|), (0, 1)], CourseConstraints(|m0.domains|, |m0.domains| + 1))
      ensures Narrows(Ctx(), m1, m1, a => DomainRule(request, course, a))
    {
      hide CourseConstraints;
      forall s | Solves(m1, s) ensures DomainRule(request, course, Terms(Ctx(), s)) {
        RegisterMeans(m0, |request.terms|, s);
      }
      NarrowsSelf(Ctx(), m1, a => DomainRule(request, course, a));
    }

    method PostExclusion(course: CourseSpec)
      requires Ready() && course.code in termVars
      modifies `model
      ensures Ready() && Narrows(Ctx(), old(model), model, a => ExclusionRule(request, course, a))
    {
      ghost var m, P := model, (a: Assignment) => ExclusionRule(request, course, a);
      if course.code in request.excluded {
        var c := Compare(Var(selected[course.code]), Eq, Const(0), []);
        forall s | Solves(m, s) ensures Satisfied(c, s) <==> P(Terms(Ctx(), s)) {
          assert LinkedAt(Ctx(), s);
        }
        NarrowsByPost(Ctx(), m, c, P);
        Add(c);
        LinkedLater(Ctx(), m, model);
      } else {
        NarrowsSelf(Ctx(), m, P);
      }
    }

    method PostPin(course: CourseSpec)
      requires Ready() && course.code in termVars
      modifies `model, `assumptions
      ensures Ready() && Narrows(Ctx(), old(model), model, a => PinRule(request, course, a))
    {
      ghost var m, P := model, (a: Assignment) => PinRule(request, course, a);
      if course.code in request.pinned {
        var assumption := NewBoolVar();
        assumptions := assumptions[assumption := "pin:" + course.code];
        Add(Compare(Var(termVars[course.code]), Eq, Const(request.pinned[course.code]), [Pos(assumption)]));
        Add(Assumption(assumption));
        PinGadget(m, model, course);
        LinkedLater(Ctx(), m, model);
      } else {
        NarrowsSelf(Ctx(), m, P);
      }
    }

    /** A pin holds under an assumption literal, and the assumption is made. */
    lemma PinGadget(m: CpModel, m': CpModel, course: CourseSpec)
      requires Scoped(m) && Linked(Ctx(), m) && course.code in termVars && course.code in request.pinned
      requires var n := |m.domains|; var pin := request.pinned[course.code];
               m' ==
                 Grown(Grown(Grown(m, [(0, 1)], []), [],
                 [Compare(Var(termVars[course.code]), Eq, Const(pin), [Pos(n)])]), [], [Assumption(n)])
      ensures Narrows(Ctx(), m, m', a => PinRule(request, course, a))
    {
      var n, pin, term := |m.domains|, request.pinned[course.code], termVars[course.code];
      var cs := [Compare(Var(term), Eq, Const(pin), [Pos(n)]), Assumption(n)];
      assert m' == Grown(m, [(0, 1)], cs);
      assert AllIn(cs, n + 1);
      GrownScoped(m, [(0, 1)], cs);
      forall t | Solves(m', t) ensures PinRule(request, course, Terms(Ctx(), t)) {
        PinFixes(m, term, pin, t);
      }
      forall s | Solves(m, s) && PinRule(request, course, Terms(Ctx(), s)) ensures Extends(m', s) {
        PinExtends(m, term, pin, s);
        assert s <= s + [1];
      }
    }

    lemma PinFixes(m: CpModel, term: nat, pin: int, t: Valuation)
      requires Scoped(m) && term < |m.domains|
      requires Solves(Grown(m, [(0, 1)],
        [Compare(Var(term), Eq, Const(pin), [Pos(|m.domains|)]), Assumption(|m.domains|)]), t)
      ensures |t| == |m.domains| + 1 && t[term] == pin
    {
      var n := |m.domains|;
      var cs := [Compare(Var(term), Eq, Const(pin), [Pos(n)]), Assumption(n)];
      assert AllIn(cs, n + 1);
      GrownMeans(m, [(0, 1)], cs, t);
      PinMeans(term, pin, n, t);
    }

    lemma PinExtends(m: CpModel, term: nat, pin: int, s: Valuation)
      requires Scoped(m) && term < |m.domains| && Solves(m, s) && s[term] == pin
      ensures Solves(Grown(m, [(0, 1)],
        [Compare(Var(term), Eq, Const(pin), [Pos(|m.domains|)]), Assumption(|m.domains|)]), s + [1])
    {
      var n := |m.domains|;
      var cs := [Compare(Var(term), Eq, Const(pin), [Pos(n)]), Assumption(n)];
      assert AllIn(cs, n + 1);
      PinMeans(term, pin, n, s + [1]);
      GrownExtends(m, [(0, 1)], cs, s, [1]);
    }

    lemma PinMeans(term: nat, pin: int, n: nat, t: Valuation)
      requires term < |t| && n < |t|
      ensures var cs := [Compare(Var(term), Eq, Const(pin), [Pos(n)]), Assumption(n)];
              AllIn(cs, |t|) && (AllSatisfied(cs, t) <==> t[n] == 1 && t[term] == pin)
    {
      var cs := [Compare(Var(term), Eq, Const(pin), [Pos(n)]), Assumption(n)];
      OneLiteral(Pos(n), t);
      assert AllSatisfied(cs, t) <==> Satisfied(cs[0], t) && Satisfied(cs[1], t);
    }

    method PostAvailability(course: CourseSpec)
      requires Ready() && course.code in termVars
      modifies `model
      ensures Ready() && Narrows(Ctx(), old(model), model, a => AvailabilityRule(request, course, a, |request.terms|))
    {
      hide Narrows;
      ghost var m, ctx := model, Ctx();
      NarrowsSelf(ctx, m, a => AvailabilityRule(request, course, a, 0));
      for index := 1 to |request.terms| + 1
        invariant Ready() && Narrows(ctx, m, model, a => AvailabilityRule(request, course, a, index - 1))
      {
        ghost var m1 := model;
        ghost var P := (a: Assignment) => index !in Allowed(request, course) && course.code in a ==>
          a[course.code] != index;
        if index !in Allowed(request, course) {
          var c := Compare(Var(termVars[course.code]), Ne, Const(index), []);
          NarrowsByPost(ctx, m1, c, P);
          Add(c);
          NarrowsGrows(ctx, m1, model, P);
          LinkedLater(ctx, m1, model);
        } else {
          NarrowsSelf(ctx, m1, P);
        }
        NarrowsChain(ctx, m, m1, model, a => AvailabilityRule(request, course, a, index - 1), P,
          a => AvailabilityRule(request, course, a, index));
      }
    }

    lemma NarrowsGrows(ctx: Context, m0: CpModel, m1: CpModel, P: Assignment -> bool)
      requires Narrows(ctx, m0, m1, P)
      ensures Grows(m0, m1) && Scoped(m0) && Scoped(m1)
    {
    }

    method PostPrerequisite(i: nat) returns (r: Result<(), BuildError>)
      requires i < |request.courses| && Ready() && termVars.Keys == Registered(request, i + 1)
      modifies `model, `invalid
      ensures r.Failure? <==> LooksAhead(request, i)
      ensures r.Success? ==> Ready() && Narrows(Ctx(), old(model), model, a => PrerequisiteRule(request, a, i))
      ensures r.Success? ==> invalid == old(invalid) + InvalidOf(request, i)
    {
      ghost var m, ctx := model, Ctx();
      ghost var P := (a: Assignment) => PrerequisiteRule(request, a, i);
      var course := request.courses[i];
      assert course.code in Registered(request, i + 1);
      if course.prerequisites.None? {
        NarrowsSelf(ctx, m, P);
        return Success(());
      }
      var eligible := ExprBool(course.prerequisites.value, termVars[course.code], false);
      if eligible.Failure? {
        return Failure(eligible.error);
      }
      ghost var m1 := model;
      LinkedLater(ctx, m, m1);
      var c := Compare(Var(eligible.value), Eq, Const(1), [Pos(selected[course.code])]);
      PrerequisiteGadget(m1, i, eligible.value, c);
      Add(c);
      NarrowsAfter(ctx, m, m1, model, P);
      LinkedLater(ctx, m1, model);
      r := Success(());
    }

    lemma PrerequisiteGadget(m: CpModel, i: nat, v: nat, c: Constraint)
      requires i < |request.courses| && request.courses[i].prerequisites.Some? && request.courses[i].code in termVars
      requires Scoped(m) && Linked(Ctx(), m) && termVars.Keys == Registered(request, i + 1)
      requires Tracks(m, Ctx(), request.courses[i].prerequisites.value, termVars[request.courses[i].code], false, v)
      requires c == Compare(Var(v), Eq, Const(1), [Pos(selected[request.courses[i].code])])
      ensures Narrows(Ctx(), m, Grown(m, [], [c]), a => PrerequisiteRule(request, a, i))
    {
      var course := request.courses[i];
      forall s | Solves(m, s) ensures Satisfied(c, s) <==> PrerequisiteRule(request, Terms(Ctx(), s), i) {
        assert LinkedAt(Ctx(), s);
        var a := Terms(Ctx(), s);
        assert Upto(request, a, i + 1) == a;
        OneLiteral(Pos(selected[course.code]), s);
      }
      NarrowsByPost(Ctx(), m, c, a => PrerequisiteRule(request, a, i));
    }

    lemma CoRequisiteGadget(m: CpModel, i: nat, other: string, c: Constraint)
      requires i < |request.courses| && request.courses[i].code in termVars && other in termVars
      requires Scoped(m) && Linked(Ctx(), m) && termVars.Keys == Registered(request, i + 1)
      requires var code := request.courses[i].code;
               c == Compare(Var(termVars[code]), Eq, Var(termVars[other]), [Pos(selected[code]), Pos(selected[other])])
      ensures Narrows(Ctx(), m, Grown(m, [], [c]), a => CoRequisiteRule(request, a, i, other))
    {
      var code := request.courses[i].code;
      forall s | Solves(m, s) ensures Satisfied(c, s) <==> CoRequisiteRule(request, Terms(Ctx(), s), i, other) {
        assert LinkedAt(Ctx(), s);
        TwoLiterals(Pos(selected[code]), Pos(selected[other]), s);
      }
      NarrowsByPost(Ctx(), m, c, a => CoRequisiteRule(request, a, i, other));
    }

    method PostCoRequisites(i: nat)
      requires i < |request.courses| && Ready() && termVars.Keys == Registered(request, i + 1)
      modifies `model
      ensures Ready()
      ensures Narrows(Ctx(), old(model), model, a => CoRequisiteRules(request, a, i, request.courses[i].coRequisites))
    {
      hide Narrows;
      ghost var m, ctx := model, Ctx();
      var course := request.courses[i];
      assert course.code in Registered(request, i + 1);
      var todo := course.coRequisites;
      NarrowsSelf(ctx, m, a => CoRequisiteRules(request, a, i, course.coRequisites - todo));
      while |todo| > 0
        invariant todo <= course.coRequisites
        invariant Ready() && Narrows(ctx, m, model, a => CoRequisiteRules(request, a, i, course.coRequisites - todo))
        decreases |todo|
      {
        ghost var m1, done := model, course.coRequisites - todo;
        var other :| other in todo;
        ghost var P := (a: Assignment) => CoRequisiteRule(request, a, i, other);
        if other in termVars {
          var c := Compare(Var(termVars[course.code]), Eq, Var(termVars[other]),
            [Pos(selected[course.code]), Pos(selected[other])]);
          CoRequisiteGadget(m1, i, other, c);
          Add(c);
          NarrowsGrows(ctx, m1, model, P);
          LinkedLater(ctx, m1, model);
        } else {
          NarrowsSelf(ctx, m1, P);
        }
        todo := todo - {other};
        assert course.coRequisites - todo == done + {other};
        NarrowsChain(ctx, m, m1, model, a => CoRequisiteRules(request, a, i, done), P,
          a => CoRequisiteRules(request, a, i, course.coRequisites - todo));
      }
      assert course.coRequisites - todo == course.coRequisites;
    }

    // ---- Credit windows ----

    method InTermBool(code: string, index: int) returns (v: nat)
      requires Ready() && code in termVars
      modifies `model
      ensures Conservative(old(model), model) && v < |model.domains|
      ensures forall t {:trigger Solves(model, t)} | Solves(model, t) :: t[v] == Bit(t[termVars[code]] == index)
    {
      ghost var m := model;
      InTermGadget(m, termVars[code], index);
      v := NewBoolVar();
      Add(Compare(Var(termVars[code]), Eq, Const(index), [Pos(v)]));
      Add(Compare(Var(termVars[code]), Ne, Const(index), [Neg(v)]));
      assert model == Grown(m, [(0, 1)], InTermConstraints(termVars[code], index, v));
    }

    method PostWindow(j: nat)
      requires j < |request.terms| && Ready() && termVars.Keys == Registered(request, |request.courses|)
      modifies `model
      ensures Ready() && Narrows(Ctx(), old(model), model, a => WindowRule(request, a, j))
    {
      hide Narrows, WindowTracks, Conservative, Scoped, Linked;
      ghost var m, ctx := model, Ctx();
      var term := request.terms[j];
      var placed: seq<(int, nat)> := [];
      WindowStart(m, term.index);
      for i := 0 to |request.courses|
        invariant Ready() && Conservative(m, model)
        invariant WindowTracks(model, ctx, placed, request.courses[..i], term.index)
      {
        ghost var m1 := model;
        var course := request.courses[i];
        assert request.courses[..i + 1] == request.courses[..i] + [course];
        assert course.code in Registered(request, |request.courses|);
        var inTerm := InTermBool(course.code, term.index);
        LinkedKept(ctx, m1, model);
        ConservativeTransitive(m, m1, model);
        WindowTracksStep(m1, model, ctx, placed, request.courses[..i], term.index, course, inTerm);
        placed := placed + [(course.creditUnits, inTerm)];
      }
      assert request.courses[..|request.courses|] == request.courses;
      ghost var m2 := model;
      CapGadget(request, m2, ctx, placed, j);
      Add(Compare(Weighted(0, placed), Le, Const(term.maxCredits * 1000), []));
      ghost var m3 := model;
      WindowCapped(ctx, m, m2, m3, placed, j);
      if term.minCredits != 0 {
        FloorGadget(request, m3, ctx, placed, j);
        Add(Compare(Weighted(0, placed), Ge, Const(term.minCredits * 1000), []));
      } else {
        NarrowsSelf(ctx, m3, a => FloorRule(request, a, j));
      }
      NarrowsChain(ctx, m, m3, model, a => CapRule(request, a, j), a => FloorRule(request, a, j),
        a => WindowRule(request, a, j));
      NarrowsGrows(ctx, m, model, a => WindowRule(request, a, j));
      LinkedLater(ctx, m, model);
    }

    lemma LinkedKept(ctx: Context, m0: CpModel, m1: CpModel)
      requires Linked(ctx, m0) && Conservative(m0, m1)
      ensures Scoped(m1) && Linked(ctx, m1)
    {
      LinkedLater(ctx, m0, m1);
    }

    lemma WindowStart(m: CpModel, index: int)
      requires Scoped(m) && Linked(Ctx(), m)
      ensures Conservative(m, m) && WindowTracks(m, Ctx(), [], request.courses[..0], index)
    {
      ConservativeSelf(m);
    }

    lemma WindowCapped(ctx: Context, m: CpModel, m2: CpModel, m3: CpModel, placed: seq<(int, nat)>, j: nat)
      requires j < |request.terms| && Conservative(m, m2) && ContextIn(ctx, |m.domains|)
      requires WindowTracks(m2, ctx, placed, request.courses, request.terms[j].index)
      requires Narrows(ctx, m2, m3, a => CapRule(request, a, j))
      ensures Narrows(ctx, m, m3, a => CapRule(request, a, j))
      ensures Scoped(m3) && WindowTracks(m3, ctx, placed, request.courses, request.terms[j].index)
    {
      NarrowsAfter(ctx, m, m2, m3, a => CapRule(request, a, j));
      WindowTracksLater(m2, m3, ctx, placed, request.courses, request.terms[j].index);
    }

    method PostWindows()
      requires Ready() && termVars.Keys == Registered(request, |request.courses|)
      modifies `model
      ensures Ready() && Narrows(Ctx(), old(model), model, a => WindowRules(request, a, |request.terms|))
    {
      hide Narrows;
      ghost var m, ctx := model, Ctx();
      NarrowsSelf(ctx, m, a => WindowRules(request, a, 0));
      for j := 0 to |request.terms|
        invariant Ready() && Narrows(ctx, m, model, a => WindowRules(request, a, j))
      {
        ghost var m1 := model;
        PostWindow(j);
        NarrowsChain(ctx, m, m1, model, a => WindowRules(request, a, j), a => WindowRule(request, a, j),
          a => WindowRules(request, a, j + 1));
      }
    }

    // ---- Requirement groups ----

    ghost predicate VarsIn()
      reads this
    {
      forall k | k in allocationVars :: allocationVars[k] < |model.domains|
    }

    ghost predicate Unique() {
      Distinct(Codes(request))
    }

    /** Exactly the listed pairs before position `(g, c)` have flags. */
    ghost predicate FlaggedUpto(g: nat, c: nat)
      reads `flags
    {
      forall p: (nat, nat) :: p in flags <==> Listed(request, p.0, p.1) && (p.0 < g || (p.0 == g && p.1 < c))
    }

    method PostFlag(ghost m0: CpModel, g: nat, c: nat) returns (v: nat)
      requires g < |request.requirements| && c < |request.courses| && Listed(request, g, c)
      requires Ready() && request.courses[c].code in termVars && FlaggedUpto(g, c)
      requires Allocates(request, Ctx(), m0, model, flags, g, 0)
      requires VarsIn() && (Unique() ==> Keyed(request, flags, allocationVars))
      modifies `model, `allocationVars, `flags
      ensures Ready() && Allocates(request, Ctx(), m0, model, flags, g, 0)
      ensures flags == old(flags)[(g, c) := v] && FlaggedUpto(g, c + 1)
      ensures VarsIn() && (Unique() ==> Keyed(request, flags, allocationVars))
    {
      hide Allocates, Keyed, Scoped;
      ghost var m, ctx := model, Ctx();
      var group, course := request.requirements[g], request.courses[c];
      FlagStep(request, ctx, m0, m, flags, g, c, Compare(Var(|m.domains|), Le, Var(selected[course.code]), []));
      if Unique() {
        KeyedStep(request, flags, allocationVars, (g, c), |m.domains|);
      }
      v := NewBoolVar();
      allocationVars := allocationVars[(group.id, course.code) := v];
      flags := flags[(g, c) := v];
      Add(Compare(Var(v), Le, Var(selected[course.code]), []));
      assert model == Grown(m, [(0, 1)], [Compare(Var(v), Le, Var(selected[course.code]), [])]);
      AllocatesGrows(ctx, m0, model, g, 0);
      LinkedLater(ctx, m, model);
    }

    lemma AllocatesGrows(ctx: Context, m0: CpModel, m: CpModel, g: nat, c: nat)
      requires g <= |request.requirements| && Allocates(request, ctx, m0, m, flags, g, c)
      ensures Grows(m0, m) && Scoped(m0) && Scoped(m) && FlagsIn(flags, m)
    {
    }

    /** The allocation flags of group `g`, and their weights in courses and in units. */
    method PostFlags(ghost m0: CpModel, g: nat) returns (counts: seq<(int, nat)>, units: seq<(int, nat)>)
      requires g < |request.requirements| && Ready() && termVars.Keys == Registered(request, |request.courses|)
      requires FlaggedUpto(g, 0) && Allocates(request, Ctx(), m0, model, flags, g, 0)
      requires VarsIn() && (Unique() ==> Keyed(request, flags, allocationVars))
      modifies `model, `allocationVars, `flags
      ensures Ready() && FlaggedUpto(g, |request.courses|) && Allocates(request, Ctx(), m0, model, flags, g, 0)
      ensures VarsIn() && (Unique() ==> Keyed(request, flags, allocationVars))
      ensures RowFlagged(request, flags, g, |request.courses|)
      ensures counts == RowWeights(request, flags, g, |request.courses|, false)
      ensures units == RowWeights(request, flags, g, |request.courses|, true)
    {
      hide Allocates, Keyed, Scoped, Linked;
      ghost var ctx := Ctx();
      var group := request.requirements[g];
      counts, units := [], [];
      for c := 0 to |request.courses|
        invariant Ready() && FlaggedUpto(g, c) && Allocates(request, ctx, m0, model, flags, g, 0)
        invariant VarsIn() && (Unique() ==> Keyed(request, flags, allocationVars))
        invariant RowFlagged(request, flags, g, c)
        invariant counts == RowWeights(request, flags, g, c, false) && units == RowWeights(request, flags, g, c, true)
      {
        var course := request.courses[c];
        if course.code in group.courseCodes {
          ghost var before := flags;
          assert course.code in Registered(request, |request.courses|);
          var v := PostFlag(m0, g, c);
          RowWeightsSame(request, before, flags, g, c, false);
          RowWeightsSame(request, before, flags, g, c, true);
          counts := counts + [(1, v)];
          units := units + [(course.creditUnits, v)];
        }
      }
    }

    method PostGroup(ghost m0: CpModel, g: nat)
      requires g < |request.requirements| && Ready() && termVars.Keys == Registered(request, |request.courses|)
      requires FlaggedUpto(g, 0) && Allocates(request, Ctx(), m0, model, flags, g, 0)
      requires VarsIn() && (Unique() ==> Keyed(request, flags, allocationVars))
      modifies `model, `allocationVars, `flags
      ensures Ready() && FlaggedUpto(g + 1, 0) && Allocates(request, Ctx(), m0, model, flags, g + 1, 0)
      ensures VarsIn() && (Unique() ==> Keyed(request, flags, allocationVars))
    {
      hide Allocates, Keyed, Scoped, Linked, RowFlagged, RowWeights, GroupConstraints;
      ghost var ctx := Ctx();
      var counts, units := PostFlags(m0, g);
      ghost var m := model;
      AllocatesGrows(ctx, m0, m, g, 0);
      GroupConstraintsIn(g, |m.domains|);
      GroupStep(request, ctx, m0, m, flags, g);
      PostMinima(g, counts, units);
      AllocatesGrows(ctx, m0, model, g + 1, 0);
      LinkedLater(ctx, m, model);
    }

    /** The minima of one group, over the flags of its listed courses. */
    method PostMinima(g: nat, counts: seq<(int, nat)>, units: seq<(int, nat)>)
      requires g < |request.requirements| && RowFlagged(request, flags, g, |request.courses|)
      requires counts == RowWeights(request, flags, g, |request.courses|, false)
      requires units == RowWeights(request, flags, g, |request.courses|, true)
      modifies `model
      ensures model == Grown(old(model), [], GroupConstraints(request, flags, g))
    {
      var group := request.requirements[g];
      ghost var m := model;
      if counts != [] {
        Add(Compare(Weighted(0, counts), Ge, Const(group.minCourses), []));
        if group.minCredits != 0 {
          Add(Compare(Weighted(0, units), Ge, Const(group.minCredits * 1000), []));
        }
      }
      assert m.domains + [] == m.domains && m.constraints + [] == m.constraints;
    }

    lemma GroupConstraintsIn(g: nat, n: nat)
      requires g < |request.requirements| && RowFlagged(request, flags, g, |request.courses|)
        && forall p | p in flags :: flags[p] < n
      ensures AllIn(GroupConstraints(request, flags, g), n)
    {
      RowWeightsIn(request, flags, g, |request.courses|, false, n);
      RowWeightsIn(request, flags, g, |request.courses|, true, n);
    }

    method PostExclusive(ghost m0: CpModel, c: nat)
      requires c < |request.courses| && Ready() && FlaggedUpto(|request.requirements|, 0)
      requires Unique() ==> Allocates(request, Ctx(), m0, model, flags, |request.requirements|, c)
      requires VarsIn() && (Unique() ==> Keyed(request, flags, allocationVars))
      modifies `model
      ensures Ready() && |model.domains| == |old(model).domains|
      ensures Unique() ==> Allocates(request, Ctx(), m0, model, flags, |request.requirements|, c + 1)
    {
      hide Allocates, Keyed, Linked;
      ghost var m, ctx := model, Ctx();
      var course := request.courses[c];
      var ids := Dedup(GroupIds(request));
      var weights: seq<(int, nat)> := [];
      FlaggedAll();
      assert ColumnFlagged(request, flags, c);
      for k := 0 to |ids|
        invariant WeightsIn(weights, |model.domains|) && model == m
        invariant Unique() ==> weights == ColumnWeights(request, flags, c, k)
      {
        if Unique() {
          KeyedLookup(request, flags, allocationVars, k, c);
        }
        assert ids[k] in GroupIds(request);
        var first := FirstGroup(request, ids[k]);
        if (ids[k], course.code) in allocationVars && !request.requirements[first].allowDoubleCounting {
          weights := weights + [(1, allocationVars[(ids[k], course.code)])];
        }
      }
      if Unique() {
        ColumnStep(request, ctx, m0, m, flags, c);
      }
      if |weights| > 1 {
        var constraint := Compare(Weighted(0, weights), Le, Const(1), []);
        assert AllIn([constraint], |m.domains|);
        GrownScoped(m, [], [constraint]);
        Add(constraint);
        LinkedLater(ctx, m, model);
      }
      assert Unique() ==> model == Grown(m, [], ColumnConstraints(request, flags, c)) by {
        assert m.domains + [] == m.domains && m.constraints + [] == m.constraints;
      }
    }

    lemma NothingFlagged()
      requires Ready() && allocationVars == map[] && flags == map[]
      ensures FlaggedUpto(0, 0) && VarsIn() && Keyed(request, flags, allocationVars)
      ensures Allocates(request, Ctx(), model, model, flags, 0, 0)
    {
      AllocatesStart(request, Ctx(), model);
    }

    method PostGroups()
      requires Ready() && termVars.Keys == Registered(request, |request.courses|)
      requires allocationVars == map[] && flags == map[]
      modifies `model, `allocationVars, `flags
      ensures Ready() && VarsIn() && FlaggedUpto(|request.requirements|, 0)
      ensures Allocates(request, Ctx(), old(model), model, flags, |request.requirements|, 0)
      ensures Unique() ==> Keyed(request, flags, allocationVars)
    {
      hide Allocates, Keyed, Linked, Scoped, FlaggedUpto, VarsIn, Registered, Unique;
      ghost var m0, ctx := model, Ctx();
      NothingFlagged();
      for g := 0 to |request.requirements|
        invariant Ready() && FlaggedUpto(g, 0) && Allocates(request, ctx, m0, model, flags, g, 0)
        invariant VarsIn() && (Unique() ==> Keyed(request, flags, allocationVars))
      {
        PostGroup(m0, g);
      }
    }

    method PostExclusives(ghost m0: CpModel)
      requires Ready() && FlaggedUpto(|request.requirements|, 0) && VarsIn()
      requires Unique() ==> Keyed(request, flags, allocationVars)
      requires Unique() ==> Allocates(request, Ctx(), m0, model, flags, |request.requirements|, 0)
      modifies `model
      ensures Ready()
      ensures Unique() ==> Allocates(request, Ctx(), m0, model, flags, |request.requirements|, |request.courses|)
    {
      hide Allocates, Keyed;
      for c := 0 to |request.courses|
        invariant Ready() && VarsIn()
        invariant Unique() ==> Allocates(request, Ctx(), m0, model, flags, |request.requirements|, c)
      {
        PostExclusive(m0, c);
      }
    }

    lemma FlaggedAll()
      requires FlaggedUpto(|request.requirements|, 0)
      ensures AllFlagged(request, flags)
    {
    }
  }

  function InputEntries(errors: seq<InputError>): (r: seq<Invalid>)
    ensures |r| == |errors|
    ensures forall entry :: entry in r <==> entry.BadInput? && entry.error in errors
  {
    var r := seq(|errors|, i requires 0 <= i < |errors| => BadInput(errors[i]));
    assert forall i | 0 <= i < |errors| :: r[i] == BadInput(errors[i]);
    r
  }

  lemma EntriesMean(request: PlanRequest, errors: seq<InputError>)
    requires forall error :: error in errors <==> InputFault(request, error)
    ensures forall entry :: entry in InputEntries(errors) + InvalidUpto(request, |request.courses|) <==>
      (entry.BadInput? && InputFault(request, entry.error))
      || exists i :: 0 <= i < |request.courses| && BlamesCourse(request, i, entry)
  {
    hide InputFault, BlamesCourse;
    forall entry ensures entry in InvalidUpto(request, |request.courses|) <==>
      exists i :: 0 <= i < |request.courses| && BlamesCourse(request, i, entry)
    {
      ReportsMean(request, |request.courses|, entry);
    }
  }

  /** The whole model of a request. */
  method BuildModel(request: PlanRequest) returns (build: Build, r: Result<(), BuildError>)
    ensures fresh(build) && build.request == request
    ensures r.Failure? <==> exists i :: 0 <= i < |request.courses| && LooksAhead(request, i)
    ensures r.Success? ==> (build.invalid == [] <==> InputOk(request) && InvalidUpto(request, |request.courses|) == [])
    ensures r.Success? ==> forall entry :: entry in build.invalid <==>
      (entry.BadInput? && InputFault(request, entry.error))
      || exists i :: 0 <= i < |request.courses| && BlamesCourse(request, i, entry)
    ensures r.Success? && Distinct(Codes(request)) ==> Characterises(request, build.Ctx(), build.model)
  {
    hide Admits, Linked, Scoped, Allocates, Keyed, Narrows, Characterises, InputOk;
    build := new Build(request);
    var errors := ValidateInput(request);
    build.invalid := InputEntries(errors);
    EmptyAdmits(request);
    r := build.AddCourses();
    if r.Failure? {
      return;
    }
    EntriesMean(request, errors);
    ghost var m1 := build.model;
    build.PostWindows();
    ghost var m2 := build.model;
    build.PostGroups();
    build.PostExclusives(m2);
    if Distinct(Codes(request)) {
      build.FlaggedAll();
      Assemble(request, build.Ctx(), m1, m2, build.model, build.flags);
    }
  }

  lemma EmptyAdmits(request: PlanRequest)
    ensures var ctx := Context(request, map[], map[]); var m := CpModel([], []);
            Linked(ctx, m) && Scoped(m) && Admits(request, ctx, m, 0)
  {
    var ctx, m := Context(request, map[], map[]), CpModel([], []);
    forall a: Assignment | a.Keys == Registered(request, 0) ensures Represented(ctx, m, a) {
      assert Solves(m, []) && Terms(ctx, []) == a;
    }
  }
}
