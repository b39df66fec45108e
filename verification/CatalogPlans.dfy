/** What catalog acceptance means for plans: the courses an expression reads are what its truth depends on. */
module CatalogPlans {
  import opened Ast
  import opened Catalog
  import opened Graph
  import opened PlanModel
  import Eligibility

  // ---- Only what is read matters ----

  /** The two plans have `code` in the same place relative to `target`, as the relation asks. */
  predicate SamePlace(a: Assignment, b: Assignment, code: string, relation: Relation, target: int) {
    if relation == Corequisite then (code in a && a[code] == target) == (code in b && b[code] == target)
    else (code in a && a[code] != 0 && a[code] < target) == (code in b && b[code] != 0 && b[code] < target)
  }

  /**
   Whether a prerequisite holds depends on the plan only through the courses the graph has edges for: strict
   ones by being earlier, co-requisites by sharing the term.
   */
  lemma {:induction false} OnlyEdgesMatter(
    request: PlanRequest, a: Assignment, b: Assignment, e: Expr, target: int, outer: Relation, earned: int)
    requires target != 0
    requires forall code, relation | Reads(e, code, outer, relation) :: SamePlace(a, b, code, relation, target)
    ensures Holds(request, a, e, target, outer == Corequisite, earned) ==
      Holds(request, b, e, target, outer == Corequisite, earned)
  {
    match e
    case CourseRef(code) => assert Reads(e, code, outer, outer);
    case AllOf(items) => OnlyEdgesOfItems(request, a, b, items, target, outer, earned);
    case AnyOf(items) => OnlyEdgesOfItems(request, a, b, items, target, outer, earned);
    case CoRequisite(items) => OnlyEdgesOfItems(request, a, b, items, target, Corequisite, earned);
    case _ =>
  }

  lemma {:induction false} OnlyEdgesOfItems(
    request: PlanRequest, a: Assignment, b: Assignment, items: seq<Expr>, target: int, outer: Relation, earned: int)
    requires target != 0
    requires forall code, relation | AnyReads(items, code, outer, relation) :: SamePlace(a, b, code, relation, target)
    ensures forall i | 0 <= i < |items| ::
      Holds(request, a, items[i], target, outer == Corequisite, earned)
        == Holds(request, b, items[i], target, outer == Corequisite, earned)
  {
    forall i | 0 <= i < |items|
      ensures Holds(request, a, items[i], target, outer == Corequisite, earned) ==
        Holds(request, b, items[i], target, outer == Corequisite, earned)
    {
      forall code, relation | Reads(items[i], code, outer, relation) ensures SamePlace(a, b, code, relation, target) {
        assert AnyReads(items, code, outer, relation);
      }
      OnlyEdgesMatter(request, a, b, items[i], target, outer, earned);
    }
  }

  /** The two records say the same about a course, its grade included. */
  predicate SameRecord(ev: Eligibility.Evidence, ev': Eligibility.Evidence, code: string) {
    && (code in ev.completed) == (code in ev'.completed) && (code in ev.inTerm) == (code in ev'.inTerm)
    && (code in ev.grades) == (code in ev'.grades)
    && (code in ev.grades && code in ev'.grades ==> ev.grades[code] == ev'.grades[code])
  }

  /** A verdict depends on a student's courses and grades only through the courses the graph has edges for. */
  lemma {:induction false} OnlyReadCoursesMatter(
    ev: Eligibility.Evidence, ev': Eligibility.Evidence, e: Expr, outer: Relation)
    requires ev'.permissions == ev.permissions && ev'.placements == ev.placements
    requires ev'.earnedCredits == ev.earnedCredits
    requires forall code, relation | Reads(e, code, outer, relation) :: SameRecord(ev, ev', code)
    ensures Eligibility.Evaluate(e, ev) == Eligibility.Evaluate(e, ev')
  {
    match e
    case CourseRef(code) => assert Reads(e, code, outer, outer);
    case GradeAtLeast(course, _) => assert Reads(e, course, outer, outer);
    case CreditsAtLeast(_) =>
    case Predicate(_, _) =>
    case _ =>
      var inner := if e.CoRequisite? then Corequisite else outer;
      forall code, relation | AnyReads(e.items, code, inner, relation) ensures SameRecord(ev, ev', code) {
        assert Reads(e, code, outer, relation);
      }
      OnlyReadByItems(ev, ev', e.items, inner);
  }

  lemma {:induction false} OnlyReadByItems(
    ev: Eligibility.Evidence, ev': Eligibility.Evidence, items: seq<Expr>, outer: Relation)
    requires ev'.permissions == ev.permissions && ev'.placements == ev.placements
    requires ev'.earnedCredits == ev.earnedCredits
    requires forall code, relation | AnyReads(items, code, outer, relation) :: SameRecord(ev, ev', code)
    ensures forall i | 0 <= i < |items| :: Eligibility.Evaluate(items[i], ev) == Eligibility.Evaluate(items[i], ev')
  {
    forall i | 0 <= i < |items| ensures Eligibility.Evaluate(items[i], ev) == Eligibility.Evaluate(items[i], ev') {
      forall code, relation | Reads(items[i], code, outer, relation) ensures SameRecord(ev, ev', code) {
        assert AnyReads(items, code, outer, relation);
      }
      OnlyReadCoursesMatter(ev, ev', items[i], outer);
    }
  }

  // ---- Accepted catalogs can be taken ----

  /** Made of courses and AND alone. */
  predicate Conjunctive(e: Expr) {
    match e
    case CourseRef(_) => true
    case AllOf(items) => forall i | 0 <= i < |items| :: Conjunctive(items[i])
    case _ => false
  }

  /** A plan that takes every course with a prerequisite, and every prerequisite in an earlier term. */
  ghost predicate Fulfils(document: CatalogDocument, request: PlanRequest, a: Assignment) {
    && (forall code | code in a :: a[code] >= 0)
    && forall dependent | dependent in ExpressionsOf(document.courses) ::
      && dependent in a && a[dependent] >= 1
      && Holds(request, a, ExpressionsOf(document.courses)[dependent], a[dependent], false, 0)
  }

  /** Off a COREQ, a conjunction holds exactly if every course it reads comes earlier. */
  lemma {:induction false} ConjunctionMeans(request: PlanRequest, a: Assignment, e: Expr, target: int)
    requires Conjunctive(e) && request.completed == {}
    ensures Holds(request, a, e, target, false, 0) <==>
      forall code | Reads(e, code, Strict, Strict) :: code in a && a[code] != 0 && a[code] < target
    ensures forall code, relation | Reads(e, code, Strict, relation) :: relation == Strict
  {
    match e
    case CourseRef(code) => assert Reads(e, code, Strict, Strict);
    case AllOf(items) =>
      forall i | 0 <= i < |items|
        ensures Holds(request, a, items[i], target, false, 0) <==>
          forall code | Reads(items[i], code, Strict, Strict) :: code in a && a[code] != 0 && a[code] < target
        ensures forall code, relation | Reads(items[i], code, Strict, relation) :: relation == Strict
      {
        ConjunctionMeans(request, a, items[i], target);
      }
      forall code ensures Reads(e, code, Strict, Strict) <==>
        exists i :: 0 <= i < |items| && Reads(items[i], code, Strict, Strict)
      {
        assert Reads(e, code, Strict, Strict) <==> AnyReads(items, code, Strict, Strict);
      }
      forall code, relation | Reads(e, code, Strict, relation) ensures relation == Strict {
        assert AnyReads(items, code, Strict, relation);
      }
  }

  /** With conjunctive prerequisites and from no courses, a catalog can be layered exactly if it can be taken. */
  lemma RankedIffTakeable(document: CatalogDocument, request: PlanRequest)
    requires request.completed == {}
    requires forall code | code in ExpressionsOf(document.courses) :: Conjunctive(ExpressionsOf(document.courses)[code])
    ensures (exists rank :: Ranks(document, rank)) <==> exists a :: Fulfils(document, request, a)
  {
    if rank :| Ranks(document, rank) {
      var a := RankPlan(document, request, rank);
    }
    if a :| Fulfils(document, request, a) {
      var rank := PlanRank(document, request, a);
    }
  }

  /** Taking every course in the term of its rank. */
  lemma RankPlan(document: CatalogDocument, request: PlanRequest, rank: map<string, nat>) returns (a: Assignment)
    requires Ranks(document, rank) && request.completed == {}
    requires forall code | code in ExpressionsOf(document.courses) :: Conjunctive(ExpressionsOf(document.courses)[code])
    ensures Fulfils(document, request, a)
  {
    var expressions := ExpressionsOf(document.courses);
    a := map code | code in rank.Keys + expressions.Keys :: if code in rank then rank[code] + 1 else 1;
    forall dependent | dependent in expressions
      ensures Holds(request, a, expressions[dependent], a[dependent], false, 0)
    {
      ConjunctionMeans(request, a, expressions[dependent], a[dependent]);
      forall code | Reads(expressions[dependent], code, Strict, Strict)
        ensures code in a && a[code] != 0 && a[code] < a[dependent]
      {
        assert Requires(document, dependent, code, Strict);
      }
    }
  }

  lemma PlanRank(document: CatalogDocument, request: PlanRequest, a: Assignment) returns (rank: map<string, nat>)
    requires Fulfils(document, request, a) && request.completed == {}
    requires forall code | code in ExpressionsOf(document.courses) :: Conjunctive(ExpressionsOf(document.courses)[code])
    ensures Ranks(document, rank)
  {
    var expressions := ExpressionsOf(document.courses);
    rank := map code | code in a :: a[code] as nat;
    forall dependent, code, relation | Requires(document, dependent, code, relation)
      ensures code in rank && dependent in rank && rank[code] < rank[dependent]
    {
      ConjunctionMeans(request, a, expressions[dependent], a[dependent]);
    }
  }
}
