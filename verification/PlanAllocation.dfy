/** Posting the credit windows and the allocation of courses to requirement groups. */
module PlanAllocation {
  import opened Compiler
  import opened Constraints
  import opened Ordering
  import opened Outcomes
  import opened PlanModel
  import opened PlanRules

  // ---- Credit windows ----

  function InTermConstraints(term: nat, index: int, inTerm: nat): seq<Constraint> {
    [ Compare(Var(term), Eq, Const(index), [Pos(inTerm)]), Compare(Var(term), Ne, Const(index), [Neg(inTerm)]) ]
  }

  lemma InTermMeans(term: nat, index: int, inTerm: nat, t: Valuation)
    requires term < |t| && inTerm < |t| && 0 <= t[inTerm] <= 1
    ensures AllIn(InTermConstraints(term, index, inTerm), |t|)
    ensures AllSatisfied(InTermConstraints(term, index, inTerm), t) <==> t[inTerm] == Bit(t[term] == index)
  {
    var cs := InTermConstraints(term, index, inTerm);
    OneLiteral(Pos(inTerm), t);
    OneLiteral(Neg(inTerm), t);
    assert AllSatisfied(cs, t) <==> Satisfied(cs[0], t) && Satisfied(cs[1], t);
  }

  lemma InTermGadget(m: CpModel, term: nat, index: int)
    requires Scoped(m) && term < |m.domains|
    ensures var n := |m.domains|; var m' := Grown(m, [(0, 1)], InTermConstraints(term, index, n));
            Conservative(m, m') && forall t {:trigger Solves(m', t)} | Solves(m', t) :: t[n] == Bit(t[term] == index)
  {
    var n := |m.domains|;
    var cs := InTermConstraints(term, index, n);
    var m' := Grown(m, [(0, 1)], cs);
    assert AllIn(cs, n + 1);
    GrownScoped(m, [(0, 1)], cs);
    forall s | Solves(m, s) ensures Extends(m', s) {
      var b := Bit(s[term] == index);
      InTermMeans(term, index, n, s + [b]);
      GrownExtends(m, [(0, 1)], cs, s, [b]);
      assert s <= s + [b];
    }
    forall t | Solves(m', t) ensures t[n] == Bit(t[term] == index) {
      GrownMeans(m, [(0, 1)], cs, t);
      assert 0 <= t[n..][0] <= 1;
      InTermMeans(term, index, n, t);
    }
  }

  /** In every solution the weights add up to the units of the given courses in term `index`. */
  ghost predicate WindowTracks(m: CpModel, ctx: Context, weights: seq<(int, nat)>, courses: seq<CourseSpec>, index: int)
  {
    && ContextIn(ctx, |m.domains|) && WeightsIn(weights, |m.domains|)
    && (forall s {:trigger Solves(m, s)} | Solves(m, s) ::
      Total(weights, s) == ListedUnits(courses, Terms(ctx, s), index))
  }

  lemma WindowTracksStep(
    m0: CpModel, m1: CpModel, ctx: Context, weights: seq<(int, nat)>, courses: seq<CourseSpec>, index: int,
    course: CourseSpec, v: nat)
    requires WindowTracks(m0, ctx, weights, courses, index) && Conservative(m0, m1)
    requires course.code in ctx.termVars && v < |m1.domains|
    requires forall t {:trigger Solves(m1, t)} | Solves(m1, t) :: t[v] == Bit(t[ctx.termVars[course.code]] == index)
    ensures WindowTracks(m1, ctx, weights + [(course.creditUnits, v)], courses + [course], index)
  {
    var weights' := weights + [(course.creditUnits, v)];
    assert (courses + [course])[..|courses|] == courses && weights'[..|weights|] == weights;
    forall t | Solves(m1, t) ensures Total(weights', t) == ListedUnits(courses + [course], Terms(ctx, t), index) {
      SolutionCut(m0, m1, t);
      var s := t[..|m0.domains|];
      TotalPrefix(weights, s, t);
      TermsPrefix(ctx, s, t);
    }
  }

  predicate CapRule(request: PlanRequest, a: Assignment, j: nat)
    requires j < |request.terms|
  {
    ListedUnits(request.courses, a, request.terms[j].index) <= request.terms[j].maxCredits * 1000
  }

  predicate FloorRule(request: PlanRequest, a: Assignment, j: nat)
    requires j < |request.terms|
  {
    request.terms[j].minCredits != 0 ==>
      ListedUnits(request.courses, a, request.terms[j].index) >= request.terms[j].minCredits * 1000
  }

  lemma CapGadget(request: PlanRequest, m: CpModel, ctx: Context, weights: seq<(int, nat)>, j: nat)
    requires j < |request.terms| && Scoped(m) && WindowTracks(m, ctx, weights, request.courses, request.terms[j].index)
    ensures Narrows(ctx, m,
      Grown(m, [], [Compare(Weighted(0, weights), Le, Const(request.terms[j].maxCredits * 1000), [])]),
      a => CapRule(request, a, j))
  {
    NarrowsByPost(ctx, m, Compare(Weighted(0, weights), Le, Const(request.terms[j].maxCredits * 1000), []),
      a => CapRule(request, a, j));
  }

  lemma FloorGadget(request: PlanRequest, m: CpModel, ctx: Context, weights: seq<(int, nat)>, j: nat)
    requires j < |request.terms| && Scoped(m) && WindowTracks(m, ctx, weights, request.courses, request.terms[j].index)
    requires request.terms[j].minCredits != 0
    ensures Narrows(ctx, m,
      Grown(m, [], [Compare(Weighted(0, weights), Ge, Const(request.terms[j].minCredits * 1000), [])]),
      a => FloorRule(request, a, j))
  {
    NarrowsByPost(ctx, m, Compare(Weighted(0, weights), Ge, Const(request.terms[j].minCredits * 1000), []),
      a => FloorRule(request, a, j));
  }

  lemma WindowTracksLater(
    m0: CpModel, m1: CpModel, ctx: Context, weights: seq<(int, nat)>, courses: seq<CourseSpec>, index: int)
    requires WindowTracks(m0, ctx, weights, courses, index) && Grows(m0, m1) && Scoped(m0)
    ensures WindowTracks(m1, ctx, weights, courses, index)
  {
    forall t | Solves(m1, t) ensures Total(weights, t) == ListedUnits(courses, Terms(ctx, t), index) {
      SolutionCut(m0, m1, t);
      TotalPrefix(weights, t[..|m0.domains|], t);
      TermsPrefix(ctx, t[..|m0.domains|], t);
    }
  }

  // ---- Allocation flags ----

  /** The flag variable of each listed pair of a group position and a course position. */
  type Flags = map<(nat, nat), nat>

  ghost predicate FlagsIn(flags: Flags, m: CpModel) {
    forall p | p in flags :: flags[p] < |m.domains| && m.domains[flags[p]] == (0, 1)
  }

  ghost function AllocOf(flags: Flags, t: Valuation): Allocation
    requires forall p | p in flags :: flags[p] < |t|
  {
    set p | p in flags && t[flags[p]] == 1
  }

  /** Every allocated course is selected. */
  ghost predicate Selected(request: PlanRequest, a: Assignment, alloc: Allocation) {
    forall p | p in alloc ::
      p.1 < |request.courses| && request.courses[p.1].code in a && a[request.courses[p.1].code] > 0
  }

  /** The allocation rules of the first `g` groups and the first `c` courses. */
  ghost predicate AllocPart(request: PlanRequest, a: Assignment, alloc: Allocation, g: nat, c: nat)
    requires g <= |request.requirements|
  {
    && Selected(request, a, alloc)
    && (forall h | 0 <= h < g :: GroupRule(request, alloc, h))
    && (forall d | 0 <= d < c :: FlagRule(request, alloc, d))
  }

  /** Above the solutions of `m0`, the solutions of `m` are exactly the rule-abiding allocations. */
  ghost predicate Allocates(request: PlanRequest, ctx: Context, m0: CpModel, m: CpModel, flags: Flags, g: nat, c: nat)
    requires g <= |request.requirements|
  {
    && Grows(m0, m) && Scoped(m0) && Scoped(m) && ContextIn(ctx, |m0.domains|) && FlagsIn(flags, m)
    && (forall t {:trigger Solves(m, t)} | Solves(m, t) :: AllocPart(request, Terms(ctx, t), AllocOf(flags, t), g, c))
    && (forall s, alloc: Allocation {:trigger AllocPart(request, Terms(ctx, s), alloc, g, c)}
          | Solves(m0, s) && alloc <= flags.Keys && AllocPart(request, Terms(ctx, s), alloc, g, c) ::
            Allocated(m, flags, s, alloc))
  }

  ghost predicate Allocated(m: CpModel, flags: Flags, s: Valuation, alloc: Allocation)
    requires FlagsIn(flags, m)
  {
    exists t :: s <= t && Solves(m, t) && AllocOf(flags, t) == alloc
  }

  lemma AllocatesStart(request: PlanRequest, ctx: Context, m: CpModel)
    requires Scoped(m) && ContextIn(ctx, |m.domains|)
    ensures Allocates(request, ctx, m, m, map[], 0, 0)
  {
    forall s, alloc: Allocation | Solves(m, s) && alloc <= {} ensures Allocated(m, map[], s, alloc) {
      assert s <= s && AllocOf(map[], s) == alloc;
    }
    forall t | Solves(m, t) ensures AllocPart(request, Terms(ctx, t), AllocOf(map[], t), 0, 0) {
      assert AllocOf(map[], t) == {};
    }
  }

  /** Pairs of other groups do not matter to a group. */
  lemma {:induction false} RowOnly(request: PlanRequest, alloc: Allocation, other: Allocation, g: nat, k: nat)
    requires g < |request.requirements| && k <= |request.courses|
    requires forall c: nat | c < k :: (g, c) in alloc <==> (g, c) in other
    ensures AllocatedCount(request, alloc, g, k) == AllocatedCount(request, other, g, k)
    ensures AllocatedUnits(request, alloc, g, k) == AllocatedUnits(request, other, g, k)
  {
    if k > 0 {
      RowOnly(request, alloc, other, g, k - 1);
    }
  }

  lemma AllocPartDrop(request: PlanRequest, a: Assignment, alloc: Allocation, g: nat, c: nat)
    requires g < |request.requirements| && c < |request.courses| && (g, c) in alloc
    ensures AllocPart(request, a, alloc, g, 0) <==>
            AllocPart(request, a, alloc - {(g, c)}, g, 0) && request.courses[c].code in a
            && a[request.courses[c].code] > 0
  {
    forall h | 0 <= h < g ensures GroupRule(request, alloc, h) <==> GroupRule(request, alloc - {(g, c)}, h) {
      RowOnly(request, alloc, alloc - {(g, c)}, h, |request.courses|);
    }
  }

  /** A new flag below the selection variable of its course. */
  lemma FlagStep(
    request: PlanRequest, ctx: Context, m0: CpModel, m: CpModel, flags: Flags, g: nat, c: nat, constraint: Constraint)
    requires g < |request.requirements| && c < |request.courses| && (g, c) !in flags
    requires request.courses[c].code in ctx.termVars
    requires Linked(ctx, m) && Allocates(request, ctx, m0, m, flags, g, 0)
    requires constraint == Compare(Var(|m.domains|), Le, Var(ctx.selected[request.courses[c].code]), [])
    ensures Allocates(request, ctx, m0, Grown(m, [(0, 1)], [constraint]), flags[(g, c) := |m.domains|], g, 0)
  {
    var n := |m.domains|;
    var m', flags' := Grown(m, [(0, 1)], [constraint]), flags[(g, c) := n];
    assert AllIn([constraint], n + 1);
    GrownScoped(m, [(0, 1)], [constraint]);
    forall t | Solves(m', t) ensures AllocPart(request, Terms(ctx, t), AllocOf(flags', t), g, 0) {
      FlagSound(request, ctx, m0, m, flags, g, c, constraint, t);
    }
    forall s, alloc: Allocation | Solves(m0, s) && alloc <= flags'.Keys
      && AllocPart(request, Terms(ctx, s), alloc, g, 0)
      ensures Allocated(m', flags', s, alloc)
    {
      FlagComplete(request, ctx, m0, m, flags, g, c, constraint, s, alloc);
    }
  }

  lemma FlagSound(
    request: PlanRequest, ctx: Context, m0: CpModel, m: CpModel, flags: Flags, g: nat, c: nat, constraint: Constraint,
    t: Valuation)
    requires g < |request.requirements| && c < |request.courses| && (g, c) !in flags
    requires request.courses[c].code in ctx.termVars
    requires Linked(ctx, m) && Allocates(request, ctx, m0, m, flags, g, 0)
    requires constraint == Compare(Var(|m.domains|), Le, Var(ctx.selected[request.courses[c].code]), [])
    requires Solves(Grown(m, [(0, 1)], [constraint]), t)
    ensures ContextIn(ctx, |t|) && |t| == |m.domains| + 1
    ensures AllocPart(request, Terms(ctx, t), AllocOf(flags[(g, c) := |m.domains|], t), g, 0)
  {
    var code := request.courses[c].code;
    FlagView(ctx, m, flags, (g, c), code, constraint, t);
    var s := t[..|m.domains|];
    assert AllocPart(request, Terms(ctx, s), AllocOf(flags, s), g, 0);
    hide AllocPart, Allocates, Linked, Solves, Grown;
    AllocPartAdd(request, Terms(ctx, t), AllocOf(flags, s), g, c, t[|m.domains|] == 1);
  }

  /** A solution with a new flag, seen from the model before it. */
  lemma FlagView(
    ctx: Context, m: CpModel, flags: Flags, p: (nat, nat), code: string, constraint: Constraint, t: Valuation)
    requires Scoped(m) && Linked(ctx, m) && code in ctx.termVars && p !in flags && FlagsIn(flags, m)
    requires constraint == Compare(Var(|m.domains|), Le, Var(ctx.selected[code]), [])
    requires Solves(Grown(m, [(0, 1)], [constraint]), t)
    ensures |t| == |m.domains| + 1 && ContextIn(ctx, |t|) && Solves(m, t[..|m.domains|])
    ensures Terms(ctx, t[..|m.domains|]) == Terms(ctx, t)
    ensures t[|m.domains|] == 1 ==> code in Terms(ctx, t) && Terms(ctx, t)[code] > 0
    ensures p !in AllocOf(flags, t[..|m.domains|])
    ensures AllocOf(flags[p := |m.domains|], t)
      == AllocOf(flags, t[..|m.domains|]) + if t[|m.domains|] == 1 then {p} else {}
  {
    var n := |m.domains|;
    assert AllIn([constraint], n + 1);
    GrownMeans(m, [(0, 1)], [constraint], t);
    assert LinkedAt(ctx, t[..n]);
    TermsPrefix(ctx, t[..n], t);
    assert Satisfied([constraint][0], t);
    BelowMeans(n, ctx.selected[code], t);
    assert t == t[..n] + [t[n]];
    FlagAlloc(flags, p, t[..n], t[n]);
  }

  lemma AllocPartAdd(request: PlanRequest, a: Assignment, before: Allocation, g: nat, c: nat, take: bool)
    requires g < |request.requirements| && c < |request.courses| && (g, c) !in before
    requires AllocPart(request, a, before, g, 0)
    requires take ==> request.courses[c].code in a && a[request.courses[c].code] > 0
    ensures AllocPart(request, a, before + if take then {(g, c)} else {}, g, 0)
  {
    if take {
      Rejoined(before, (g, c));
      AllocPartDrop(request, a, before + {(g, c)}, g, c);
    } else {
      assert before + {} == before;
    }
  }

  lemma BelowMeans(v: nat, w: nat, t: Valuation)
    requires v < |t| && w < |t|
    ensures Satisfied(Compare(Var(v), Le, Var(w), []), t) <==> t[v] <= t[w]
  {
    assert AllTrue([], t);
  }

  lemma FlagAlloc(flags: Flags, p: (nat, nat), s: Valuation, x: int)
    requires p !in flags && forall q | q in flags :: flags[q] < |s|
    ensures AllocOf(flags[p := |s|], s + [x]) == AllocOf(flags, s) + if x == 1 then {p} else {}
    ensures p !in AllocOf(flags, s)
  {
  }

  lemma FlagComplete(
    request: PlanRequest, ctx: Context, m0: CpModel, m: CpModel, flags: Flags, g: nat, c: nat, constraint: Constraint,
    s: Valuation, alloc: Allocation)
    requires g < |request.requirements| && c < |request.courses| && (g, c) !in flags
    requires request.courses[c].code in ctx.termVars
    requires Linked(ctx, m) && Allocates(request, ctx, m0, m, flags, g, 0)
    requires constraint == Compare(Var(|m.domains|), Le, Var(ctx.selected[request.courses[c].code]), [])
    requires Solves(m0, s) && alloc <= flags.Keys + {(g, c)} && AllocPart(request, Terms(ctx, s), alloc, g, 0)
    requires FlagsIn(flags[(g, c) := |m.domains|], Grown(m, [(0, 1)], [constraint]))
    ensures Allocated(Grown(m, [(0, 1)], [constraint]), flags[(g, c) := |m.domains|], s, alloc)
  {
    hide AllocPart;
    var n, x, sel := |m.domains|, Bit((g, c) in alloc), ctx.selected[request.courses[c].code];
    var before := alloc - {(g, c)};
    if (g, c) in alloc {
      AllocPartDrop(request, Terms(ctx, s), alloc, g, c);
    } else {
      assert before == alloc;
    }
    assert Allocated(m, flags, s, before);
    var t :| s <= t && Solves(m, t) && AllocOf(flags, t) == before;
    assert LinkedAt(ctx, t);
    TermsPrefix(ctx, s, t);
    SelectedWhenAllocated(request, Terms(ctx, s), alloc, g, c);
    assert x <= t[sel];
    Rejoin(alloc, (g, c));
    FlagExtends(m, flags, (g, c), sel, s, t, x);
  }

  lemma Rejoined<T>(part: set<T>, p: T)
    requires p !in part
    ensures (part + {p}) - {p} == part
  {
  }

  lemma Rejoin<T>(whole: set<T>, p: T)
    ensures whole == (whole - {p}) + if p in whole then {p} else {}
  {
  }

  lemma FlagExtends(m: CpModel, flags: Flags, p: (nat, nat), sel: nat, s: Valuation, t: Valuation, x: int)
    requires Scoped(m) && Solves(m, t) && s <= t && sel < |m.domains| && 0 <= x <= 1 && x <= t[sel]
    requires p !in flags && FlagsIn(flags, m)
    ensures var m' := Grown(m, [(0, 1)], [Compare(Var(|m.domains|), Le, Var(sel), [])]);
            FlagsIn(flags[p := |m.domains|], m')
            && Allocated(m', flags[p := |m.domains|], s, AllocOf(flags, t) + if x == 1 then {p} else {})
  {
    var n, u := |m.domains|, t + [x];
    var constraint := Compare(Var(n), Le, Var(sel), []);
    BelowMeans(n, sel, u);
    FlagAlloc(flags, p, t, x);
    FlagSolution(m, constraint, t, x);
    assert s <= u;
  }

  lemma FlagSolution(m: CpModel, constraint: Constraint, t: Valuation, x: int)
    requires Scoped(m) && Solves(m, t) && 0 <= x <= 1 && ConstraintIn(constraint, |m.domains| + 1)
    requires Satisfied(constraint, t + [x])
    ensures Solves(Grown(m, [(0, 1)], [constraint]), t + [x])
  {
    GrownExtends(m, [(0, 1)], [constraint], t, [x]);
  }

  lemma SelectedWhenAllocated(request: PlanRequest, a: Assignment, alloc: Allocation, g: nat, c: nat)
    requires g <= |request.requirements| && c < |request.courses| && AllocPart(request, a, alloc, g, 0)
    ensures (g, c) in alloc ==> request.courses[c].code in a && a[request.courses[c].code] > 0
  {
  }

  /** Posting constraints that say exactly what the next rules ask of the allocation. */
  lemma RuleStep(
    request: PlanRequest, ctx: Context, m0: CpModel, m: CpModel, flags: Flags, g: nat, c: nat, g': nat, c': nat,
    cs: seq<Constraint>)
    requires g <= g' <= |request.requirements| && c <= c'
    requires Allocates(request, ctx, m0, m, flags, g, c) && AllIn(cs, |m.domains|)
    requires forall t {:trigger Solves(m, t)} | Solves(m, t) ::
               AllSatisfied(cs, t) <==> AllocPart(request, Terms(ctx, t), AllocOf(flags, t), g', c')
    ensures Allocates(request, ctx, m0, Grown(m, [], cs), flags, g', c')
  {
    var m' := Grown(m, [], cs);
    PostAll(m, cs, []);
    forall t | Solves(m', t) ensures AllocPart(request, Terms(ctx, t), AllocOf(flags, t), g', c') {
      PostAll(m, cs, t);
    }
    forall s, alloc: Allocation | Solves(m0, s) && alloc <= flags.Keys
      && AllocPart(request, Terms(ctx, s), alloc, g', c')
      ensures Allocated(m', flags, s, alloc)
    {
      assert AllocPart(request, Terms(ctx, s), alloc, g, c);
      assert Allocated(m, flags, s, alloc);
      var t :| s <= t && Solves(m, t) && AllocOf(flags, t) == alloc;
      TermsPrefix(ctx, s, t);
      PostAll(m, cs, t);
    }
  }

  // ---- Sums over flags ----

  ghost predicate RowFlagged(request: PlanRequest, flags: Flags, g: nat, k: nat) {
    forall c: nat | c < k && Listed(request, g, c) :: (g, c) in flags
  }

  /** The flags of group `g` among the first `k` courses, weighted by one or by units. */
  function RowWeights(request: PlanRequest, flags: Flags, g: nat, k: nat, byUnits: bool): seq<(int, nat)>
    requires k <= |request.courses| && RowFlagged(request, flags, g, k)
  {
    if k == 0 then []
    else if Listed(request, g, k - 1) then
      RowWeights(request, flags, g, k - 1, byUnits)
      + [(if byUnits then request.courses[k - 1].creditUnits else 1, flags[(g, k - 1)])]
    else RowWeights(request, flags, g, k - 1, byUnits)
  }

  ghost predicate BitsAt(flags: Flags, t: Valuation) {
    forall p | p in flags :: flags[p] < |t| && 0 <= t[flags[p]] <= 1
  }

  /** One more weighted bit adds its weight exactly if the bit is set. */
  lemma BitTotal(weights: seq<(int, nat)>, weight: int, v: nat, t: Valuation)
    requires WeightsIn(weights, |t|) && v < |t| && 0 <= t[v] <= 1
    ensures WeightsIn(weights + [(weight, v)], |t|)
    ensures Total(weights + [(weight, v)], t) == Total(weights, t) + if t[v] == 1 then weight else 0
  {
    var all := weights + [(weight, v)];
    assert all[..|all| - 1] == weights;
    assert weight * t[v] == if t[v] == 1 then weight else 0;
  }

  /** What the allocation takes for group `g` among the first `k` courses, in courses or in units. */
  function AllocatedSum(request: PlanRequest, alloc: Allocation, g: nat, k: nat, byUnits: bool): int
    requires k <= |request.courses|
  {
    if byUnits then AllocatedUnits(request, alloc, g, k) else AllocatedCount(request, alloc, g, k)
  }

  lemma {:induction false} RowTotal(request: PlanRequest, flags: Flags, g: nat, k: nat, byUnits: bool, t: Valuation)
    requires k <= |request.courses| && RowFlagged(request, flags, g, k) && BitsAt(flags, t)
    ensures WeightsIn(RowWeights(request, flags, g, k, byUnits), |t|)
    ensures Total(RowWeights(request, flags, g, k, byUnits), t) ==
            AllocatedSum(request, AllocOf(flags, t), g, k, byUnits)
  {
    hide Total, Listed;
    if k == 0 {
      NoTotal(t);
    } else {
      RowTotal(request, flags, g, k - 1, byUnits, t);
      if Listed(request, g, k - 1) {
        var weight := if byUnits then request.courses[k - 1].creditUnits else 1;
        BitTotal(RowWeights(request, flags, g, k - 1, byUnits), weight, flags[(g, k - 1)], t);
      }
    }
  }

  lemma NoTotal(t: Valuation)
    ensures Total([], t) == 0
  {
  }

  function GroupConstraints(request: PlanRequest, flags: Flags, g: nat): seq<Constraint>
    requires g < |request.requirements| && RowFlagged(request, flags, g, |request.courses|)
  {
    var group, n := request.requirements[g], |request.courses|;
    var counts := RowWeights(request, flags, g, n, false);
    if counts == [] then []
    else
      [Compare(Weighted(0, counts), Ge, Const(group.minCourses), [])]
      + if group.minCredits != 0
        then [Compare(Weighted(0, RowWeights(request, flags, g, n, true)), Ge, Const(group.minCredits * 1000), [])]
        else []
  }

  lemma {:induction false} RowEmpty(request: PlanRequest, flags: Flags, g: nat, k: nat, byUnits: bool)
    requires k <= |request.courses| && RowFlagged(request, flags, g, k)
    ensures RowWeights(request, flags, g, k, byUnits) == [] <==> forall c: nat | c < k :: !Listed(request, g, c)
  {
    if k > 0 {
      RowEmpty(request, flags, g, k - 1, byUnits);
    }
  }

  lemma GroupMeans(request: PlanRequest, flags: Flags, g: nat, t: Valuation)
    requires g < |request.requirements| && RowFlagged(request, flags, g, |request.courses|) && BitsAt(flags, t)
    ensures AllIn(GroupConstraints(request, flags, g), |t|)
    ensures AllSatisfied(GroupConstraints(request, flags, g), t) <==> GroupRule(request, AllocOf(flags, t), g)
  {
    var cs, n := GroupConstraints(request, flags, g), |request.courses|;
    RowTotal(request, flags, g, n, false, t);
    RowTotal(request, flags, g, n, true, t);
    RowEmpty(request, flags, g, n, false);
    assert AllTrue([], t);
    if |cs| == 1 {
      assert AllSatisfied(cs, t) <==> Satisfied(cs[0], t);
    } else if |cs| == 2 {
      assert AllSatisfied(cs, t) <==> Satisfied(cs[0], t) && Satisfied(cs[1], t);
    }
  }

  lemma SolutionBits(flags: Flags, m: CpModel, t: Valuation)
    requires FlagsIn(flags, m) && Solves(m, t)
    ensures BitsAt(flags, t)
  {
  }

  lemma GroupStep(request: PlanRequest, ctx: Context, m0: CpModel, m: CpModel, flags: Flags, g: nat)
    requires g < |request.requirements| && RowFlagged(request, flags, g, |request.courses|)
    requires Allocates(request, ctx, m0, m, flags, g, 0) && AllIn(GroupConstraints(request, flags, g), |m.domains|)
    ensures Allocates(request, ctx, m0, Grown(m, [], GroupConstraints(request, flags, g)), flags, g + 1, 0)
  {
    var cs := GroupConstraints(request, flags, g);
    forall t | Solves(m, t)
      ensures AllSatisfied(cs, t) <==> AllocPart(request, Terms(ctx, t), AllocOf(flags, t), g + 1, 0)
    {
      SolutionBits(flags, m, t);
      GroupMeans(request, flags, g, t);
      assert AllocPart(request, Terms(ctx, t), AllocOf(flags, t), g, 0);
      AllocPartNext(request, Terms(ctx, t), AllocOf(flags, t), g);
    }
    RuleStep(request, ctx, m0, m, flags, g, 0, g + 1, 0, cs);
  }

  lemma AllocPartNext(request: PlanRequest, a: Assignment, alloc: Allocation, g: nat)
    requires g < |request.requirements|
    ensures AllocPart(request, a, alloc, g + 1, 0) <==>
      AllocPart(request, a, alloc, g, 0) && GroupRule(request, alloc, g)
  {
  }

  // ---- Exclusive groups ----

  ghost predicate ColumnFlagged(request: PlanRequest, flags: Flags, c: nat) {
    forall g: nat | Listed(request, g, c) :: (g, c) in flags
  }

  /** The last of the first `n` groups with this id that lists course `c`. */
  function Keeper(request: PlanRequest, id: string, c: nat, n: nat): (r: Option<nat>)
    requires n <= |request.requirements|
    ensures r.None? <==> forall g | 0 <= g < n && Listed(request, g, c) :: request.requirements[g].id != id
    ensures r.Some? ==> r.value < n && Listed(request, r.value, c) && request.requirements[r.value].id == id
    ensures r.Some? ==> forall h | r.value < h < n && Listed(request, h, c) :: request.requirements[h].id != id
  {
    if n == 0 then None
    else if Listed(request, n - 1, c) && request.requirements[n - 1].id == id then Some(n - 1)
    else Keeper(request, id, c, n - 1)
  }

  /** The ids of the groups, each once. */
  function Ids(request: PlanRequest): seq<string> {
    Dedup(GroupIds(request))
  }

  predicate CountedId(request: PlanRequest, k: nat, c: nat)
    requires k < |Ids(request)|
  {
    var id := Ids(request)[k];
    assert id in Ids(request);
    Keeper(request, id, c, |request.requirements|).Some?
    && !request.requirements[FirstGroup(request, id)].allowDoubleCounting
  }

  /** The pair whose flag counts for the id at position `k`. */
  function CountedPair(request: PlanRequest, k: nat, c: nat): (nat, nat)
    requires k < |Ids(request)| && CountedId(request, k, c)
  {
    (Keeper(request, Ids(request)[k], c, |request.requirements|).value, c)
  }

  function ColumnWeights(request: PlanRequest, flags: Flags, c: nat, k: nat): seq<(int, nat)>
    requires ColumnFlagged(request, flags, c) && k <= |Ids(request)|
  {
    if k == 0 then []
    else if CountedId(request, k - 1, c) then
      ColumnWeights(request, flags, c, k - 1) + [(1, flags[CountedPair(request, k - 1, c)])]
    else ColumnWeights(request, flags, c, k - 1)
  }

  function ColumnCount(request: PlanRequest, alloc: Allocation, c: nat, k: nat): nat
    requires k <= |Ids(request)|
  {
    if k == 0 then 0
    else
      ColumnCount(request, alloc, c, k - 1)
      + if CountedId(request, k - 1, c) && CountedPair(request, k - 1, c) in alloc then 1 else 0
  }

  lemma {:induction false} ColumnTotal(request: PlanRequest, flags: Flags, c: nat, k: nat, t: Valuation)
    requires ColumnFlagged(request, flags, c) && BitsAt(flags, t) && k <= |Ids(request)|
    ensures WeightsIn(ColumnWeights(request, flags, c, k), |t|)
    ensures Total(ColumnWeights(request, flags, c, k), t) == ColumnCount(request, AllocOf(flags, t), c, k)
    ensures ColumnCount(request, AllocOf(flags, t), c, k) <= |ColumnWeights(request, flags, c, k)|
  {
    hide Total, CountedId, CountedPair, Ids;
    if k == 0 {
      NoTotal(t);
    } else {
      ColumnTotal(request, flags, c, k - 1, t);
      if CountedId(request, k - 1, c) {
        CountedIsListed(request, k - 1, c);
        BitTotal(ColumnWeights(request, flags, c, k - 1), 1, flags[CountedPair(request, k - 1, c)], t);
      }
    }
  }

  lemma CountedIsListed(request: PlanRequest, k: nat, c: nat)
    requires k < |Ids(request)| && CountedId(request, k, c)
    ensures Listed(request, CountedPair(request, k, c).0, c) && CountedPair(request, k, c).1 == c
    ensures Counted(request, CountedPair(request, k, c).0, c)
    ensures request.requirements[CountedPair(request, k, c).0].id == Ids(request)[k]
  {
  }

  /** Every flag that counts is found under its id. */
  lemma CountedHasId(request: PlanRequest, g: nat, c: nat) returns (k: nat)
    requires Counted(request, g, c)
    ensures k < |Ids(request)| && CountedId(request, k, c) && CountedPair(request, k, c) == (g, c)
  {
    var id := request.requirements[g].id;
    assert GroupIds(request)[g] == id;
    assert id in Ids(request);
    k :| 0 <= k < |Ids(request)| && Ids(request)[k] == id;
  }

  ghost predicate TakenOnce(request: PlanRequest, alloc: Allocation, c: nat, k: nat)
    requires k <= |Ids(request)|
  {
    forall i, j | 0 <= i < j < k && CountedId(request, i, c) && CountedId(request, j, c) ::
      CountedPair(request, i, c) !in alloc || CountedPair(request, j, c) !in alloc
  }

  lemma {:induction false} ColumnCountMeans(request: PlanRequest, alloc: Allocation, c: nat, k: nat)
    requires k <= |Ids(request)|
    ensures ColumnCount(request, alloc, c, k) == 0 <==>
      forall i: nat | i < k && CountedId(request, i, c) :: CountedPair(request, i, c) !in alloc
    ensures ColumnCount(request, alloc, c, k) <= 1 <==> TakenOnce(request, alloc, c, k)
  {
    hide CountedId, CountedPair, Ids;
    if k > 0 {
      ColumnCountMeans(request, alloc, c, k - 1);
      assert TakenOnce(request, alloc, c, k) ==> TakenOnce(request, alloc, c, k - 1);
    }
  }

  /** Counting by ids is counting by groups. */
  lemma TakenOnceIsFlagRule(request: PlanRequest, alloc: Allocation, c: nat)
    ensures TakenOnce(request, alloc, c, |Ids(request)|) <==> FlagRule(request, alloc, c)
  {
    hide CountedId, CountedPair, Ids, Counted;
    if TakenOnce(request, alloc, c, |Ids(request)|) {
      forall g, h | 0 <= g < h < |request.requirements| && Counted(request, g, c) && Counted(request, h, c)
        ensures (g, c) !in alloc || (h, c) !in alloc
      {
        var i := CountedHasId(request, g, c);
        var j := CountedHasId(request, h, c);
        assert i < j || j < i;
      }
    } else {
      var i, j :| 0 <= i < j < |Ids(request)| && CountedId(request, i, c) && CountedId(request, j, c)
        && CountedPair(request, i, c) in alloc && CountedPair(request, j, c) in alloc;
      CountedIsListed(request, i, c);
      CountedIsListed(request, j, c);
      var g, h := CountedPair(request, i, c).0, CountedPair(request, j, c).0;
      IdsDistinct(request, i, j);
      assert (g, c) in alloc && (h, c) in alloc;
      assert g < h || h < g;
    }
  }

  lemma IdsDistinct(request: PlanRequest, i: nat, j: nat)
    requires i < j < |Ids(request)|
    ensures Ids(request)[i] != Ids(request)[j]
  {
  }

  function ColumnConstraints(request: PlanRequest, flags: Flags, c: nat): seq<Constraint>
    requires ColumnFlagged(request, flags, c)
  {
    var weights := ColumnWeights(request, flags, c, |Ids(request)|);
    if |weights| > 1 then [Compare(Weighted(0, weights), Le, Const(1), [])] else []
  }

  lemma ColumnMeans(request: PlanRequest, flags: Flags, c: nat, t: Valuation)
    requires ColumnFlagged(request, flags, c) && BitsAt(flags, t)
    ensures AllIn(ColumnConstraints(request, flags, c), |t|)
    ensures AllSatisfied(ColumnConstraints(request, flags, c), t) <==> FlagRule(request, AllocOf(flags, t), c)
  {
    hide ColumnWeights, ColumnCount, TakenOnce, FlagRule, Ids, CountedId, CountedPair, Listed, Total;
    var cs := ColumnConstraints(request, flags, c);
    ColumnTotal(request, flags, c, |Ids(request)|, t);
    ColumnCountMeans(request, AllocOf(flags, t), c, |Ids(request)|);
    TakenOnceIsFlagRule(request, AllocOf(flags, t), c);
    assert AllTrue([], t);
    if |cs| == 1 {
      assert AllSatisfied(cs, t) <==> Satisfied(cs[0], t);
    }
  }

  lemma ColumnStep(request: PlanRequest, ctx: Context, m0: CpModel, m: CpModel, flags: Flags, c: nat)
    requires ColumnFlagged(request, flags, c)
    requires Allocates(request, ctx, m0, m, flags, |request.requirements|, c)
    requires AllIn(ColumnConstraints(request, flags, c), |m.domains|)
    ensures Allocates(request, ctx, m0, Grown(m, [], ColumnConstraints(request, flags, c)), flags,
      |request.requirements|, c + 1)
  {
    var cs, n := ColumnConstraints(request, flags, c), |request.requirements|;
    forall t | Solves(m, t)
      ensures AllSatisfied(cs, t) <==> AllocPart(request, Terms(ctx, t), AllocOf(flags, t), n, c + 1)
    {
      SolutionBits(flags, m, t);
      ColumnMeans(request, flags, c, t);
      assert AllocPart(request, Terms(ctx, t), AllocOf(flags, t), n, c);
      AllocPartColumn(request, Terms(ctx, t), AllocOf(flags, t), c);
    }
    RuleStep(request, ctx, m0, m, flags, n, c, n, c + 1, cs);
  }

  lemma AllocPartColumn(request: PlanRequest, a: Assignment, alloc: Allocation, c: nat)
    ensures AllocPart(request, a, alloc, |request.requirements|, c + 1) <==>
            AllocPart(request, a, alloc, |request.requirements|, c) && FlagRule(request, alloc, c)
  {
  }

  lemma {:induction false} RowWeightsIn(request: PlanRequest, flags: Flags, g: nat, k: nat, byUnits: bool, n: nat)
    requires k <= |request.courses| && RowFlagged(request, flags, g, k) && forall p | p in flags :: flags[p] < n
    ensures WeightsIn(RowWeights(request, flags, g, k, byUnits), n)
  {
    if k > 0 {
      RowWeightsIn(request, flags, g, k - 1, byUnits, n);
    }
  }

  lemma {:induction false} ColumnWeightsIn(request: PlanRequest, flags: Flags, c: nat, k: nat, n: nat)
    requires ColumnFlagged(request, flags, c) && k <= |Ids(request)| && forall p | p in flags :: flags[p] < n
    ensures WeightsIn(ColumnWeights(request, flags, c, k), n)
  {
    if k > 0 {
      ColumnWeightsIn(request, flags, c, k - 1, n);
    }
  }

  /** Flags added later do not disturb the weights of a row. */
  lemma {:induction false} RowWeightsSame(
    request: PlanRequest, flags: Flags, flags': Flags, g: nat, k: nat, byUnits: bool)
    requires k <= |request.courses| && RowFlagged(request, flags, g, k)
    requires forall p | p in flags :: p in flags' && flags'[p] == flags[p]
    ensures RowFlagged(request, flags', g, k)
    ensures RowWeights(request, flags', g, k, byUnits) == RowWeights(request, flags, g, k, byUnits)
  {
    if k > 0 {
      RowWeightsSame(request, flags, flags', g, k - 1, byUnits);
    }
  }

  /** The dictionary keyed by group id and course code holds the last flag posted under each key. */
  ghost predicate Keyed(request: PlanRequest, flags: Flags, dictionary: map<(string, string), nat>) {
    && (forall p | p in flags :: p.0 < |request.requirements| && p.1 < |request.courses|)
    && (forall p | p in flags :: Key(request, p) in dictionary)
    && (forall p | p in flags && Last(request, flags, p) :: dictionary[Key(request, p)] == flags[p])
    && (forall k | k in dictionary :: exists p :: p in flags && Key(request, p) == k)
  }

  function Key(request: PlanRequest, p: (nat, nat)): (string, string) {
    if p.0 < |request.requirements| && p.1 < |request.courses| then
      (request.requirements[p.0].id, request.courses[p.1].code) else ("", "")
  }

  /** No later group has a flag under the same key. */
  ghost predicate Last(request: PlanRequest, flags: Flags, p: (nat, nat)) {
    forall q | q in flags && Key(request, q) == Key(request, p) :: q.0 <= p.0
  }

  lemma SameColumn(request: PlanRequest, p: (nat, nat), q: (nat, nat))
    requires Distinct(Codes(request)) && Key(request, p) == Key(request, q)
    requires p.0 < |request.requirements| && p.1 < |request.courses| && q.0 < |request.requirements|
    requires q.1 < |request.courses|
    ensures p.1 == q.1
  {
    assert Codes(request)[p.1] == Codes(request)[q.1];
  }

  lemma KeyedStep(request: PlanRequest, flags: Flags, dictionary: map<(string, string), nat>, p: (nat, nat), v: nat)
    requires Distinct(Codes(request)) && Keyed(request, flags, dictionary)
    requires p !in flags && p.0 < |request.requirements| && p.1 < |request.courses|
    requires forall q | q in flags :: q.0 <= p.0
    ensures Keyed(request, flags[p := v], dictionary[Key(request, p) := v])
  {
    hide Key, Last, Codes, Distinct;
    var flags', dictionary' := flags[p := v], dictionary[Key(request, p) := v];
    forall q | q in flags' && Last(request, flags', q) ensures dictionary'[Key(request, q)] == flags'[q] {
      if q != p {
        LastStays(request, flags, p, q, v);
      }
    }
    forall k | k in dictionary' ensures exists q :: q in flags' && Key(request, q) == k {
      if k in dictionary {
        var q :| q in flags && Key(request, q) == k;
        assert q in flags';
      } else {
        assert p in flags';
      }
    }
  }

  lemma LastStays(request: PlanRequest, flags: Flags, p: (nat, nat), q: (nat, nat), v: nat)
    requires Distinct(Codes(request)) && p !in flags && q in flags && Last(request, flags[p := v], q) && q.0 <= p.0
    requires p.0 < |request.requirements| && p.1 < |request.courses|
    requires q.0 < |request.requirements| && q.1 < |request.courses|
    ensures Last(request, flags, q) && Key(request, q) != Key(request, p)
  {
    hide Key, Codes, Distinct;
    assert p in flags[p := v];
    forall r | r in flags && Key(request, r) == Key(request, q) ensures r.0 <= q.0 {
      assert r in flags[p := v];
    }
    if Key(request, q) == Key(request, p) {
      SameColumn(request, p, q);
    }
  }

  lemma KeyedLookup(request: PlanRequest, flags: Flags, dictionary: map<(string, string), nat>, k: nat, c: nat)
    requires Distinct(Codes(request)) && Keyed(request, flags, dictionary) && AllFlagged(request, flags)
    requires k < |Ids(request)| && c < |request.courses|
    ensures var key := (Ids(request)[k], request.courses[c].code);
      var keeper := Keeper(request, Ids(request)[k], c, |request.requirements|);
      && (key in dictionary <==> keeper.Some?)
      && (keeper.Some? ==> dictionary[key] == flags[(keeper.value, c)])
  {
    hide Codes, Distinct, Ids;
    var key := (Ids(request)[k], request.courses[c].code);
    var keeper := Keeper(request, Ids(request)[k], c, |request.requirements|);
    if key in dictionary {
      var q :| q in flags && Key(request, q) == key;
      FlaggedHere(request, flags, q, key.0, c);
    }
    if keeper.Some? {
      KeeperIsLast(request, flags, keeper.value, key.0, c);
      assert (keeper.value, c) in flags;
    }
  }

  lemma FlaggedHere(request: PlanRequest, flags: Flags, q: (nat, nat), id: string, c: nat)
    requires Distinct(Codes(request)) && AllFlagged(request, flags) && q in flags && c < |request.courses|
    requires Key(request, q) == (id, request.courses[c].code)
    ensures q.1 == c && Listed(request, q.0, c) && request.requirements[q.0].id == id
  {
    SameColumn(request, q, (q.0, c));
  }

  lemma KeeperIsLast(request: PlanRequest, flags: Flags, g: nat, id: string, c: nat)
    requires Distinct(Codes(request)) && AllFlagged(request, flags)
    requires Keeper(request, id, c, |request.requirements|) == Some(g)
    ensures Listed(request, g, c)
    ensures Key(request, (g, c)) == (id, request.courses[c].code) && Last(request, flags, (g, c))
  {
    forall q | q in flags && Key(request, q) == (id, request.courses[c].code) ensures q.0 <= g {
      FlaggedHere(request, flags, q, id, c);
    }
  }

  // ---- The whole model ----

  /** All rules are posted: the solutions are exactly the accepted assignments. */
  ghost predicate Characterises(request: PlanRequest, ctx: Context, m: CpModel) {
    && ContextIn(ctx, |m.domains|)
    && (forall s {:trigger Solves(m, s)} | Solves(m, s) :: ModelAccepts(request, Terms(ctx, s)))
    && (forall a: Assignment | ModelAccepts(request, a) :: Represented(ctx, m, a))
  }

  ghost predicate AllFlagged(request: PlanRequest, flags: Flags) {
    && (forall g: nat, c: nat | Listed(request, g, c) :: (g, c) in flags)
    && (forall p | p in flags :: Listed(request, p.0, p.1))
  }

  lemma ListedOnly(request: PlanRequest, a: Assignment, alloc: Allocation, flags: Flags) returns (only: Allocation)
    requires AllFlagged(request, flags) && AllocationRule(request, a, alloc)
    ensures only <= flags.Keys && AllocPart(request, a, only, |request.requirements|, |request.courses|)
  {
    only := set p | p in flags && p in alloc;
    forall g | 0 <= g < |request.requirements| ensures GroupRule(request, only, g) {
      assert GroupRule(request, alloc, g);
      ListedCounts(request, alloc, only, g, |request.courses|);
    }
    forall c | 0 <= c < |request.courses| ensures FlagRule(request, only, c) {
      assert FlagRule(request, alloc, c);
    }
  }

  lemma {:induction false} ListedCounts(request: PlanRequest, alloc: Allocation, only: Allocation, g: nat, k: nat)
    requires k <= |request.courses|
    requires forall c: nat | Listed(request, g, c) :: (g, c) in alloc <==> (g, c) in only
    ensures AllocatedCount(request, alloc, g, k) == AllocatedCount(request, only, g, k)
    ensures AllocatedUnits(request, alloc, g, k) == AllocatedUnits(request, only, g, k)
  {
    if k > 0 {
      ListedCounts(request, alloc, only, g, k - 1);
    }
  }

  lemma PartIsRule(request: PlanRequest, a: Assignment, alloc: Allocation)
    requires AllocPart(request, a, alloc, |request.requirements|, |request.courses|)
    ensures AllocationRule(request, a, alloc)
  {
    forall g: nat, c: nat | Listed(request, g, c) && (g, c) in alloc
      ensures request.courses[c].code in a && a[request.courses[c].code] > 0
    {
      assert (g, c).1 == c;
    }
  }

  /** The window rules of the first `k` terms. */
  predicate WindowRules(request: PlanRequest, a: Assignment, k: nat)
    requires k <= |request.terms|
  {
    forall j | 0 <= j < k :: WindowRule(request, a, j)
  }

  lemma Assemble(request: PlanRequest, ctx: Context, m1: CpModel, m2: CpModel, m3: CpModel, flags: Flags)
    requires Admits(request, ctx, m1, |request.courses|)
    requires Narrows(ctx, m1, m2, a => WindowRules(request, a, |request.terms|))
    requires Allocates(request, ctx, m2, m3, flags, |request.requirements|, |request.courses|)
    requires AllFlagged(request, flags)
    ensures Characterises(request, ctx, m3)
  {
    forall t | Solves(m3, t) ensures ModelAccepts(request, Terms(ctx, t)) {
      AssembleSound(request, ctx, m1, m2, m3, flags, t);
    }
    forall a: Assignment | ModelAccepts(request, a) ensures Represented(ctx, m3, a) {
      AssembleComplete(request, ctx, m1, m2, m3, flags, a);
    }
  }

  lemma AssembleSound(
    request: PlanRequest, ctx: Context, m1: CpModel, m2: CpModel, m3: CpModel, flags: Flags, t: Valuation)
    requires Admits(request, ctx, m1, |request.courses|)
    requires Narrows(ctx, m1, m2, a => WindowRules(request, a, |request.terms|))
    requires Allocates(request, ctx, m2, m3, flags, |request.requirements|, |request.courses|)
    requires Solves(m3, t)
    ensures ContextIn(ctx, |t|) && ModelAccepts(request, Terms(ctx, t))
  {
    SolutionCut(m2, m3, t);
    var s := t[..|m2.domains|];
    SolutionCut(m1, m2, s);
    TermsPrefix(ctx, s[..|m1.domains|], s);
    TermsPrefix(ctx, s, t);
    var a := Terms(ctx, t);
    assert WindowRules(request, a, |request.terms|);
    PartIsRule(request, a, AllocOf(flags, t));
  }

  lemma AssembleComplete(
    request: PlanRequest, ctx: Context, m1: CpModel, m2: CpModel, m3: CpModel, flags: Flags, a: Assignment)
    requires Admits(request, ctx, m1, |request.courses|)
    requires Narrows(ctx, m1, m2, a => WindowRules(request, a, |request.terms|))
    requires Allocates(request, ctx, m2, m3, flags, |request.requirements|, |request.courses|)
    requires AllFlagged(request, flags)
    requires ModelAccepts(request, a)
    ensures ContextIn(ctx, |m3.domains|) && Represented(ctx, m3, a)
  {
    assert Represented(ctx, m1, a);
    var s1 :| Solves(m1, s1) && Terms(ctx, s1) == a;
    assert WindowRules(request, a, |request.terms|);
    assert Extends(m2, s1);
    var s2 :| s1 <= s2 && Solves(m2, s2);
    TermsPrefix(ctx, s1, s2);
    var alloc :| AllocationRule(request, a, alloc);
    var only := ListedOnly(request, a, alloc, flags);
    assert Allocated(m3, flags, s2, only);
    var s3 :| s2 <= s3 && Solves(m3, s3) && AllocOf(flags, s3) == only;
    TermsPrefix(ctx, s2, s3);
  }
}
