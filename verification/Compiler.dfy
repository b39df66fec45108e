/** The compilation of prerequisite expressions into reified constraints. */
module Compiler {
  import opened Ast
  import opened Constraints
  import opened PlanModel

  /** Where the model keeps each registered course: its term variable and its selection variable. */
  datatype Context = Context(request: PlanRequest, termVars: map<string, nat>, selected: map<string, nat>)

  datatype Invalid =
    | BadInput(error: InputError)
    | UnknownPrerequisite(code: string)
    | FutureGrade(code: string, grade: string)
    | UnresolvedPredicate(kind: PredicateKind, value: string)

  /** A dictionary access that fails: the source's `KeyError`. */
  datatype BuildError = KeyError(code: string)

  ghost predicate ContextIn(ctx: Context, n: nat) {
    && ctx.termVars.Keys == ctx.selected.Keys
    && (forall c | c in ctx.termVars :: ctx.termVars[c] < n && ctx.selected[c] < n)
  }

  /** The assignment that a valuation stands for. */
  ghost function Terms(ctx: Context, s: Valuation): Assignment
    requires ContextIn(ctx, |s|)
  {
    map c | c in ctx.termVars :: s[ctx.termVars[c]]
  }

  /** In every solution a course is selected exactly when its term is positive. */
  ghost predicate Linked(ctx: Context, m: CpModel) {
    && ContextIn(ctx, |m.domains|)
    && (forall s {:trigger Solves(m, s)} | Solves(m, s) :: LinkedAt(ctx, s))
  }

  ghost predicate LinkedAt(ctx: Context, s: Valuation)
    requires ContextIn(ctx, |s|)
  {
    forall c | c in ctx.termVars ::
      0 <= s[ctx.termVars[c]] && s[ctx.selected[c]] == Bit(s[ctx.termVars[c]] > 0)
  }

  /** The units of the listed, not completed courses that `a` places before `target`. */
  function PlannedBefore(courses: seq<CourseSpec>, completed: set<string>, a: Assignment, target: int): int {
    if courses == [] then 0 else
    var last := courses[|courses| - 1];
    PlannedBefore(courses[..|courses| - 1], completed, a, target)
    + if last.code !in completed && last.code in a && 0 < a[last.code] < target then last.creditUnits else 0
  }

  /** The units the model counts as earned before `target`. */
  function ModelEarned(request: PlanRequest, a: Assignment, target: int): int {
    request.completedCredits * 1000 + PlannedBefore(request.courses, request.completed, a, target)
  }

  /** The truth of an expression on the term values of a valuation. */
  ghost predicate Meaning(ctx: Context, e: Expr, s: Valuation, target: nat, coreq: bool)
    requires ContextIn(ctx, |s|) && target < |s|
  {
    Holds(ctx.request, Terms(ctx, s), e, s[target], coreq, ModelEarned(ctx.request, Terms(ctx, s), s[target]))
  }

  /** In every solution, variable `v` is the truth value of `e`. */
  ghost predicate Tracks(m: CpModel, ctx: Context, e: Expr, target: nat, coreq: bool, v: nat) {
    && ContextIn(ctx, |m.domains|) && target < |m.domains| && v < |m.domains|
    && (forall s {:trigger Solves(m, s)} | Solves(m, s) :: s[v] == Bit(Meaning(ctx, e, s, target, coreq)))
  }

  ghost predicate TracksAll(m: CpModel, ctx: Context, items: seq<Expr>, target: nat, coreq: bool, vars: seq<nat>) {
    |vars| == |items| && forall k | 0 <= k < |items| :: Tracks(m, ctx, items[k], target, coreq, vars[k])
  }

  lemma MeaningPrefix(ctx: Context, e: Expr, s: Valuation, t: Valuation, target: nat, coreq: bool)
    requires s <= t && ContextIn(ctx, |s|) && target < |s|
    ensures ContextIn(ctx, |t|) && Terms(ctx, s) == Terms(ctx, t)
    ensures Meaning(ctx, e, s, target, coreq) == Meaning(ctx, e, t, target, coreq)
  {
  }

  /** Growth keeps what has been compiled. */
  lemma TracksLater(m0: CpModel, m1: CpModel, ctx: Context, e: Expr, target: nat, coreq: bool, v: nat)
    requires Tracks(m0, ctx, e, target, coreq, v) && Grows(m0, m1) && Scoped(m0)
    ensures Tracks(m1, ctx, e, target, coreq, v)
  {
    forall t | Solves(m1, t) ensures t[v] == Bit(Meaning(ctx, e, t, target, coreq)) {
      SolutionCut(m0, m1, t);
      MeaningPrefix(ctx, e, t[..|m0.domains|], t, target, coreq);
    }
  }

  lemma LinkedLater(ctx: Context, m0: CpModel, m1: CpModel)
    requires Linked(ctx, m0) && Grows(m0, m1) && Scoped(m0)
    ensures Linked(ctx, m1)
  {
    forall t | Solves(m1, t) ensures LinkedAt(ctx, t) {
      SolutionCut(m0, m1, t);
      assert LinkedAt(ctx, t[..|m0.domains|]);
    }
  }

  // ---- Gadgets: fixed groups of constraints around one fresh variable ----

  /** A fresh variable fixed to a constant. */
  lemma ConstantGadget(m: CpModel, ctx: Context, e: Expr, target: nat, coreq: bool, b: bool)
    requires Scoped(m) && ContextIn(ctx, |m.domains|) && target < |m.domains|
    requires forall s {:trigger Solves(m, s)} | Solves(m, s) :: Meaning(ctx, e, s, target, coreq) == b
    ensures var m' := Grown(m, [(0, 1)], [Compare(Var(|m.domains|), Eq, Const(Bit(b)), [])]);
            Conservative(m, m') && Tracks(m', ctx, e, target, coreq, |m.domains|)
  {
    var c := Compare(Var(|m.domains|), Eq, Const(Bit(b)), []);
    var m' := Grown(m, [(0, 1)], [c]);
    GrownScoped(m, [(0, 1)], [c]);
    forall s | Solves(m, s) ensures Extends(m', s) {
      GrownExtends(m, [(0, 1)], [c], s, [Bit(b)]);
      assert s <= s + [Bit(b)];
    }
    forall t | Solves(m', t) ensures t[|m.domains|] == Bit(Meaning(ctx, e, t, target, coreq)) {
      GrownMeans(m, [(0, 1)], [c], t);
      MeaningPrefix(ctx, e, t[..|m.domains|], t, target, coreq);
      assert Satisfied([c][0], t);
    }
  }

  /** The constraints that make `value` the conjunction of `selected` and a reified term comparison. */
  function PlacedConstraints(selected: nat, term: nat, target: nat, coreq: bool, value: nat): seq<Constraint> {
    var relation := value + 1;
    [ Compare(Var(term), if coreq then Eq else Lt, Var(target), [Pos(relation)]),
      Compare(Var(term), if coreq then Ne else Ge, Var(target), [Neg(relation)]),
      BoolAnd([Pos(selected), Pos(relation)], [Pos(value)]),
      BoolOr([Neg(selected), Neg(relation)], [Neg(value)]) ]
  }

  /** `code` is taken, in the right place relative to the target. */
  ghost predicate Placed(ctx: Context, s: Valuation, code: string, target: nat, coreq: bool)
    requires ContextIn(ctx, |s|) && target < |s| && code in ctx.termVars
  {
    var term := s[ctx.termVars[code]];
    term > 0 && if coreq then term == s[target] else term < s[target]
  }

  predicate Related(t: Valuation, term: nat, target: nat, coreq: bool)
    requires term < |t| && target < |t|
  {
    if coreq then t[term] == t[target] else t[term] < t[target]
  }

  lemma PlacedMeans(selected: nat, term: nat, target: nat, coreq: bool, value: nat, t: Valuation)
    requires selected < |t| && term < |t| && target < |t| && value + 1 < |t|
    requires 0 <= t[selected] <= 1 && 0 <= t[value] <= 1 && 0 <= t[value + 1] <= 1
    ensures AllIn(PlacedConstraints(selected, term, target, coreq, value), |t|)
    ensures AllSatisfied(PlacedConstraints(selected, term, target, coreq, value), t) <==>
            t[value + 1] == Bit(Related(t, term, target, coreq))
            && t[value] == Bit(t[selected] == 1 && Related(t, term, target, coreq))
  {
    var cs := PlacedConstraints(selected, term, target, coreq, value);
    RelationMeans(selected, term, target, coreq, value, t);
    ConjunctionMeans(selected, term, target, coreq, value, t);
    hide Satisfied, PlacedConstraints, Related;
    assert |cs| == 4 by {
      PlacedIn(selected, term, target, coreq, value, t);
    }
    assert AllSatisfied(cs, t) <==>
      Satisfied(cs[0], t) && Satisfied(cs[1], t) && Satisfied(cs[2], t) && Satisfied(cs[3], t);
  }

  lemma PlacedIn(selected: nat, term: nat, target: nat, coreq: bool, value: nat, t: Valuation)
    requires selected < |t| && term < |t| && target < |t| && value + 1 < |t|
    ensures var cs := PlacedConstraints(selected, term, target, coreq, value); |cs| == 4 && AllIn(cs, |t|)
  {
  }

  /** The first two constraints reify the term comparison. */
  lemma RelationMeans(selected: nat, term: nat, target: nat, coreq: bool, value: nat, t: Valuation)
    requires selected < |t| && term < |t| && target < |t| && value + 1 < |t|
    requires 0 <= t[value + 1] <= 1
    ensures var cs := PlacedConstraints(selected, term, target, coreq, value);
      AllIn(cs, |t|) && (Satisfied(cs[0], t) && Satisfied(cs[1], t) <==>
        t[value + 1] == Bit(Related(t, term, target, coreq)))
  {
    PlacedIn(selected, term, target, coreq, value, t);
    OneLiteral(Pos(value + 1), t);
    OneLiteral(Neg(value + 1), t);
  }

  /** The last two constraints reify the conjunction. */
  lemma ConjunctionMeans(selected: nat, term: nat, target: nat, coreq: bool, value: nat, t: Valuation)
    requires selected < |t| && term < |t| && target < |t| && value + 1 < |t|
    requires 0 <= t[selected] <= 1 && 0 <= t[value] <= 1 && 0 <= t[value + 1] <= 1
    ensures var cs := PlacedConstraints(selected, term, target, coreq, value);
      AllIn(cs, |t|) && (Satisfied(cs[2], t) && Satisfied(cs[3], t) <==>
        t[value] == Bit(t[selected] == 1 && t[value + 1] == 1))
  {
    PlacedIn(selected, term, target, coreq, value, t);
    OneLiteral(Pos(value), t);
    OneLiteral(Neg(value), t);
    TwoLiterals(Pos(selected), Pos(value + 1), t);
    TwoLiterals(Neg(selected), Neg(value + 1), t);
  }

  lemma OneLiteral(l: Literal, t: Valuation)
    requires LiteralIn(l, |t|)
    ensures AllTrue([l], t) <==> LiteralTrue(l, t)
  {
    if AllTrue([l], t) {
      assert LiteralTrue([l][0], t);
    }
  }

  lemma TwoLiterals(l: Literal, k: Literal, t: Valuation)
    requires LiteralIn(l, |t|) && LiteralIn(k, |t|)
    ensures AllTrue([l, k], t) <==> LiteralTrue(l, t) && LiteralTrue(k, t)
    ensures (exists i :: 0 <= i < |[l, k]| && LiteralTrue([l, k][i], t)) <==> LiteralTrue(l, t) || LiteralTrue(k, t)
  {
    if AllTrue([l, k], t) {
      assert LiteralTrue([l, k][0], t) && LiteralTrue([l, k][1], t);
    }
    if LiteralTrue(l, t) { assert LiteralTrue([l, k][0], t); }
    if LiteralTrue(k, t) { assert LiteralTrue([l, k][1], t); }
  }

  lemma PlacedGadget(m: CpModel, ctx: Context, code: string, target: nat, coreq: bool)
    requires Scoped(m) && Linked(ctx, m) && target < |m.domains| && code in ctx.termVars
    ensures var value := |m.domains|;
            var m' := Grown(m, [(0, 1), (0, 1)],
              PlacedConstraints(ctx.selected[code], ctx.termVars[code], target, coreq, value));
            && Conservative(m, m')
            && (forall t {:trigger Solves(m', t)} | Solves(m', t) ::
              t[value] == Bit(Placed(ctx, t, code, target, coreq)))
  {
    var value, term, selected := |m.domains|, ctx.termVars[code], ctx.selected[code];
    var added, cs := [(0, 1), (0, 1)], PlacedConstraints(selected, term, target, coreq, value);
    var m' := Grown(m, added, cs);
    assert AllIn(cs, value + 2);
    GrownScoped(m, added, cs);
    forall s | Solves(m, s) ensures Extends(m', s) {
      assert LinkedAt(ctx, s);
      var xs := [Bit(Placed(ctx, s, code, target, coreq)), Bit(Related(s, term, target, coreq))];
      var t := s + xs;
      assert t[value] == xs[0] && t[value + 1] == xs[1] && t[term] == s[term] && t[target] == s[target]
        && t[selected] == s[selected];
      PlacedMeans(selected, term, target, coreq, value, t);
      GrownExtends(m, added, cs, s, xs);
      assert s <= t;
    }
    forall t | Solves(m', t) ensures t[value] == Bit(Placed(ctx, t, code, target, coreq)) {
      GrownMeans(m, added, cs, t);
      assert LinkedAt(ctx, t[..value]);
      assert 0 <= t[value..][0] <= 1 && 0 <= t[value..][1] <= 1;
      PlacedMeans(selected, term, target, coreq, value, t);
    }
  }

  /** Closing a compound: `value` becomes the conjunction (or disjunction) of the item variables. */
  function CompoundConstraints(vars: seq<nat>, value: nat, all: bool): seq<Constraint> {
    if vars == [] then [Compare(Var(value), Eq, Const(Bit(all)), [])]
    else if all then [BoolAnd(Positive(vars), [Pos(value)]), BoolOr(Negative(vars), [Neg(value)])]
    else [BoolOr(Positive(vars), [Pos(value)]), BoolAnd(Negative(vars), [Neg(value)])]
  }

  function Positive(vars: seq<nat>): (r: seq<Literal>)
    ensures |r| == |vars| && forall k | 0 <= k < |r| :: r[k] == Pos(vars[k])
  {
    seq(|vars|, k requires 0 <= k < |vars| => Pos(vars[k]))
  }

  function Negative(vars: seq<nat>): (r: seq<Literal>)
    ensures |r| == |vars| && forall k | 0 <= k < |r| :: r[k] == Neg(vars[k])
  {
    seq(|vars|, k requires 0 <= k < |vars| => Neg(vars[k]))
  }

  ghost predicate Compound(bits: seq<int>, all: bool) {
    if all then forall k | 0 <= k < |bits| :: bits[k] == 1 else exists k :: 0 <= k < |bits| && bits[k] == 1
  }

  ghost function ValuesAt(s: Valuation, vars: seq<nat>): seq<int>
    requires forall k | 0 <= k < |vars| :: vars[k] < |s|
  {
    seq(|vars|, k requires 0 <= k < |vars| => s[vars[k]])
  }

  /** The closing constraints hold exactly when `value` is the compound of the item bits. */
  lemma CompoundMeans(vars: seq<nat>, value: nat, all: bool, s: Valuation)
    requires value < |s| && (forall k | 0 <= k < |vars| :: vars[k] < |s| && 0 <= s[vars[k]] <= 1) && 0 <= s[value] <= 1
    ensures AllIn(CompoundConstraints(vars, value, all), |s|)
    ensures AllSatisfied(CompoundConstraints(vars, value, all), s) <==>
      s[value] == Bit(Compound(ValuesAt(s, vars), all))
  {
    var cs := CompoundConstraints(vars, value, all);
    if vars == [] {
      assert AllSatisfied(cs, s) <==> Satisfied(cs[0], s);
      assert AllTrue([], s);
      assert ValuesAt(s, vars) == [];
    } else {
      PositiveMeans(vars, s);
      NegativeMeans(vars, s);
      OneLiteral(Pos(value), s);
      OneLiteral(Neg(value), s);
      hide Positive, Negative, ValuesAt, LiteralTrue;
      assert AllSatisfied(cs, s) <==> Satisfied(cs[0], s) && Satisfied(cs[1], s);
    }
  }

  lemma PositiveMeans(vars: seq<nat>, s: Valuation)
    requires forall k | 0 <= k < |vars| :: vars[k] < |s|
    ensures AllTrue(Positive(vars), s) <==> forall k | 0 <= k < |vars| :: ValuesAt(s, vars)[k] == 1
    ensures (exists k :: 0 <= k < |Positive(vars)| && LiteralTrue(Positive(vars)[k], s)) <==>
            exists k :: 0 <= k < |vars| && ValuesAt(s, vars)[k] == 1
  {
    forall k | 0 <= k < |vars| ensures LiteralTrue(Positive(vars)[k], s) <==> ValuesAt(s, vars)[k] == 1 {
    }
  }

  lemma NegativeMeans(vars: seq<nat>, s: Valuation)
    requires forall k | 0 <= k < |vars| :: vars[k] < |s| && 0 <= s[vars[k]] <= 1
    ensures AllTrue(Negative(vars), s) <==> forall k | 0 <= k < |vars| :: ValuesAt(s, vars)[k] != 1
    ensures (exists k :: 0 <= k < |Negative(vars)| && LiteralTrue(Negative(vars)[k], s)) <==>
            exists k :: 0 <= k < |vars| && ValuesAt(s, vars)[k] != 1
  {
    forall k | 0 <= k < |vars| ensures LiteralTrue(Negative(vars)[k], s) <==> ValuesAt(s, vars)[k] != 1 {
    }
  }

  /** Conjunction or disjunction of the item meanings. */
  ghost predicate CompoundMeaning(ctx: Context, items: seq<Expr>, s: Valuation, target: nat, coreq: bool, all: bool)
    requires ContextIn(ctx, |s|) && target < |s|
  {
    if all then forall k | 0 <= k < |items| :: Meaning(ctx, items[k], s, target, coreq)
    else exists k :: 0 <= k < |items| && Meaning(ctx, items[k], s, target, coreq)
  }

  ghost predicate TracksCompound(
    m: CpModel, ctx: Context, items: seq<Expr>, target: nat, coreq: bool, all: bool, v: nat)
  {
    && ContextIn(ctx, |m.domains|) && target < |m.domains| && v < |m.domains|
    && (forall s {:trigger Solves(m, s)} | Solves(m, s) ::
      s[v] == Bit(CompoundMeaning(ctx, items, s, target, coreq, all)))
  }

  lemma CompoundMeaningPrefix(
    ctx: Context, items: seq<Expr>, s: Valuation, t: Valuation, target: nat, coreq: bool, all: bool)
    requires s <= t && ContextIn(ctx, |s|) && target < |s|
    ensures ContextIn(ctx, |t|)
    ensures CompoundMeaning(ctx, items, s, target, coreq, all) == CompoundMeaning(ctx, items, t, target, coreq, all)
  {
    forall k | 0 <= k < |items|
      ensures Meaning(ctx, items[k], s, target, coreq) == Meaning(ctx, items[k], t, target, coreq)
    {
      MeaningPrefix(ctx, items[k], s, t, target, coreq);
    }
  }

  /** The item variables carry the item meanings, so their compound is the compound meaning. */
  lemma ItemsCompound(
    m: CpModel, ctx: Context, items: seq<Expr>, target: nat, coreq: bool, vars: seq<nat>, all: bool, s: Valuation)
    requires TracksAll(m, ctx, items, target, coreq, vars) && ContextIn(ctx, |m.domains|) && target < |m.domains|
    requires Solves(m, s)
    ensures forall k | 0 <= k < |vars| :: vars[k] < |s| && 0 <= s[vars[k]] <= 1
    ensures Compound(ValuesAt(s, vars), all) == CompoundMeaning(ctx, items, s, target, coreq, all)
  {
    forall k | 0 <= k < |vars| ensures vars[k] < |s| && s[vars[k]] == Bit(Meaning(ctx, items[k], s, target, coreq)) {
      assert Tracks(m, ctx, items[k], target, coreq, vars[k]);
    }
    var bits := ValuesAt(s, vars);
    assert forall k | 0 <= k < |vars| :: bits[k] == 1 <==> Meaning(ctx, items[k], s, target, coreq);
  }

  /** `m0`, then a fresh Boolean, then the compiled items, then the closing constraints. */
  lemma CompoundGadget(
    m0: CpModel, m1: CpModel, m2: CpModel, ctx: Context, items: seq<Expr>, target: nat, coreq: bool, vars: seq<nat>,
    all: bool)
    requires Scoped(m0) && ContextIn(ctx, |m0.domains|) && target < |m0.domains|
    requires m1 == Grown(m0, [(0, 1)], []) && Conservative(m1, m2)
    requires TracksAll(m2, ctx, items, target, coreq, vars)
    ensures var m3 := Grown(m2, [], CompoundConstraints(vars, |m0.domains|, all));
            Conservative(m0, m3) && TracksCompound(m3, ctx, items, target, coreq, all, |m0.domains|)
  {
    var value := |m0.domains|;
    var cs := CompoundConstraints(vars, value, all);
    var m3 := Grown(m2, [], cs);
    ReserveGrows(m0, m1, m2);
    assert forall k | 0 <= k < |vars| :: Tracks(m2, ctx, items[k], target, coreq, vars[k]);
    assert AllIn(cs, |m2.domains|);
    PostAll(m2, cs, []);
    forall s | Solves(m0, s) ensures Extends(m3, s) {
      var u := ReserveExtends(m0, m1, m2, s, CompoundMeaning(ctx, items, s, target, coreq, all));
      CompoundMeaningPrefix(ctx, items, s, u, target, coreq, all);
      ItemsCompound(m2, ctx, items, target, coreq, vars, all, u);
      CompoundMeans(vars, value, all, u);
      PostAll(m2, cs, u);
    }
    forall t | Solves(m3, t) ensures t[value] == Bit(CompoundMeaning(ctx, items, t, target, coreq, all)) {
      PostAll(m2, cs, t);
      ItemsCompound(m2, ctx, items, target, coreq, vars, all, t);
      CompoundMeans(vars, value, all, t);
    }
  }

  // ---- Credit sums ----

  function CreditConstraints(offset: int, weights: seq<(int, nat)>, credits: int, value: nat): seq<Constraint> {
    [ Compare(Weighted(offset, weights), Ge, Const(credits * 1000), [Pos(value)]),
      Compare(Weighted(offset, weights), Le, Const(credits * 1000 - 1), [Neg(value)]) ]
  }

  lemma CreditMeans(offset: int, weights: seq<(int, nat)>, credits: int, value: nat, s: Valuation)
    requires value < |s| && 0 <= s[value] <= 1 && forall k | 0 <= k < |weights| :: weights[k].1 < |s|
    ensures AllIn(CreditConstraints(offset, weights, credits, value), |s|)
    ensures AllSatisfied(CreditConstraints(offset, weights, credits, value), s) <==>
            s[value] == Bit(offset + Total(weights, s) >= credits * 1000)
  {
    var cs := CreditConstraints(offset, weights, credits, value);
    OneLiteral(Pos(value), s);
    OneLiteral(Neg(value), s);
    assert AllSatisfied(cs, s) <==> Satisfied(cs[0], s) && Satisfied(cs[1], s);
  }

  ghost predicate WeightsIn(weights: seq<(int, nat)>, n: nat) {
    forall k | 0 <= k < |weights| :: weights[k].1 < n
  }

  /** In every solution the weights add up to the units planned before the target. */
  ghost predicate TotalTracks(m: CpModel, ctx: Context, weights: seq<(int, nat)>, courses: seq<CourseSpec>, target: nat)
  {
    && ContextIn(ctx, |m.domains|) && target < |m.domains| && WeightsIn(weights, |m.domains|)
    && (forall s {:trigger Solves(m, s)} | Solves(m, s) ::
          Total(weights, s) == PlannedBefore(courses, ctx.request.completed, Terms(ctx, s), s[target]))
  }

  lemma TotalTracksStart(m: CpModel, ctx: Context, target: nat)
    requires ContextIn(ctx, |m.domains|) && target < |m.domains|
    ensures TotalTracks(m, ctx, [], [], target)
  {
  }

  lemma TotalTracksSkip(
    m: CpModel, ctx: Context, weights: seq<(int, nat)>, courses: seq<CourseSpec>, target: nat, course: CourseSpec)
    requires TotalTracks(m, ctx, weights, courses, target) && course.code in ctx.request.completed
    ensures TotalTracks(m, ctx, weights, courses + [course], target)
  {
    assert (courses + [course])[..|courses|] == courses;
  }

  lemma TotalTracksStep(
    m0: CpModel, m1: CpModel, ctx: Context, weights: seq<(int, nat)>, courses: seq<CourseSpec>, target: nat,
    course: CourseSpec, before: nat)
    requires TotalTracks(m0, ctx, weights, courses, target) && Conservative(m0, m1)
    requires course.code !in ctx.request.completed && course.code in ctx.termVars && before < |m1.domains|
    requires forall t {:trigger Solves(m1, t)} | Solves(m1, t) ::
      t[before] == Bit(Placed(ctx, t, course.code, target, false))
    ensures TotalTracks(m1, ctx, weights + [(course.creditUnits, before)], courses + [course], target)
  {
    var weights' := weights + [(course.creditUnits, before)];
    assert (courses + [course])[..|courses|] == courses && weights'[..|weights|] == weights;
    forall t | Solves(m1, t)
      ensures Total(weights', t) == PlannedBefore(courses + [course], ctx.request.completed, Terms(ctx, t), t[target])
    {
      SolutionCut(m0, m1, t);
      var s := t[..|m0.domains|];
      TotalPrefix(weights, s, t);
      assert Terms(ctx, s) == Terms(ctx, t);
    }
  }

  lemma CreditGadget(
    m0: CpModel, m1: CpModel, m2: CpModel, ctx: Context, weights: seq<(int, nat)>, credits: int, target: nat,
    coreq: bool)
    requires Scoped(m0) && ContextIn(ctx, |m0.domains|) && target < |m0.domains|
    requires m1 == Grown(m0, [(0, 1)], []) && Conservative(m1, m2)
    requires TotalTracks(m2, ctx, weights, ctx.request.courses, target)
    ensures var m3 := Grown(m2, [],
      CreditConstraints(ctx.request.completedCredits * 1000, weights, credits, |m0.domains|));
            Conservative(m0, m3) && Tracks(m3, ctx, CreditsAtLeast(credits), target, coreq, |m0.domains|)
  {
    var value, offset, e := |m0.domains|, ctx.request.completedCredits * 1000, CreditsAtLeast(credits);
    var cs := CreditConstraints(offset, weights, credits, value);
    var m3 := Grown(m2, [], cs);
    ReserveGrows(m0, m1, m2);
    assert AllIn(cs, |m2.domains|);
    PostAll(m2, cs, []);
    forall s | Solves(m0, s) ensures Extends(m3, s) {
      var u := ReserveExtends(m0, m1, m2, s, Meaning(ctx, e, s, target, coreq));
      MeaningPrefix(ctx, e, s, u, target, coreq);
      CreditMeans(offset, weights, credits, value, u);
      PostAll(m2, cs, u);
    }
    forall t | Solves(m3, t) ensures t[value] == Bit(Meaning(ctx, e, t, target, coreq)) {
      PostAll(m2, cs, t);
      CreditMeans(offset, weights, credits, value, t);
    }
  }

  // ---- What compilation reports ----

  /** The entries that compiling `e` adds to the list of invalidities. */
  function InvalidIn(request: PlanRequest, registered: set<string>, e: Expr): seq<Invalid> {
    match e
    case CourseRef(code) => if code in request.completed || code in registered then [] else [UnknownPrerequisite(code)]
    case GradeAtLeast(course, grade) => if course in request.completed then [] else [FutureGrade(course, grade)]
    case CreditsAtLeast(_) => []
    case Predicate(kind, value) => if value in Supplied(request, kind) then [] else [UnresolvedPredicate(kind, value)]
    case AllOf(items) => InvalidInAll(request, registered, items)
    case AnyOf(items) => InvalidInAll(request, registered, items)
    case CoRequisite(items) => InvalidInAll(request, registered, items)
  }

  function InvalidInAll(request: PlanRequest, registered: set<string>, items: seq<Expr>): seq<Invalid> {
    if items == [] then []
    else InvalidInAll(request, registered, items[..|items| - 1]) + InvalidIn(request, registered, items[|items| - 1])
  }

  /** `e` asks for credits anywhere, which makes the compiler look up every planned course. */
  predicate ReadsCredits(e: Expr) {
    match e
    case CreditsAtLeast(_) => true
    case AllOf(items) => exists i :: 0 <= i < |items| && ReadsCredits(items[i])
    case AnyOf(items) => exists i :: 0 <= i < |items| && ReadsCredits(items[i])
    case CoRequisite(items) => exists i :: 0 <= i < |items| && ReadsCredits(items[i])
    case _ => false
  }

  /** Some planned course is not registered yet. */
  predicate Unregistered(request: PlanRequest, registered: set<string>) {
    exists i ::
      0 <= i < |request.courses| && request.courses[i].code !in request.completed
      && request.courses[i].code !in registered
  }
}
