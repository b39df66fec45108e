/** The objectives posted to the constraint solver against those the oracle maximises. */
module Objectives {
  import opened Oracle
  import opened Ordering
  import opened PlanModel
  import opened PlanRules
  import opened Sums

  /** Every listed course has a term of the request, 0 standing for "not taken". */
  ghost predicate Placement(request: PlanRequest, a: Assignment) {
    && a.Keys == SetOf(Codes(request))
    && forall code | code in a :: 0 <= a[code] <= |request.terms|
  }

  // ---- Earliest completion ----

  /** The posted score: every selected course counts its earliness times its units. */
  function PostedEarliness(courses: seq<CourseSpec>, a: Assignment, n: nat): int {
    if courses == [] then 0 else
    var last := courses[|courses| - 1];
    PostedEarliness(courses[..|courses| - 1], a, n) + EarlinessOf(last, a, n) * last.creditUnits
  }

  function EarlinessOf(course: CourseSpec, a: Assignment, n: nat): int {
    if course.code in a && a[course.code] > 0 then n + 1 - a[course.code] else 0
  }

  /** The oracle's score as a sum over the list of courses. */
  function ListedEarliness(courses: seq<CourseSpec>, a: Assignment, n: nat): int {
    if courses == [] then 0 else
    var last := courses[|courses| - 1];
    ListedEarliness(courses[..|courses| - 1], a, n) + EarlinessOf(last, a, n)
  }

  ghost function ChosenUpto(request: PlanRequest, a: Assignment, k: nat): set<string>
    requires k <= |request.courses|
  {
    set code | code in Chosen(a) && code in Registered(request, k)
  }

  /** One more course adds itself to the chosen ones exactly if it is taken. */
  lemma ChosenStep(request: PlanRequest, a: Assignment, k: nat)
    requires Placement(request, a) && Distinct(Codes(request)) && 1 <= k <= |request.courses|
    ensures var code := request.courses[k - 1].code;
      && code in a && code !in ChosenUpto(request, a, k - 1)
      && ChosenUpto(request, a, k) == ChosenUpto(request, a, k - 1) + if a[code] > 0 then {code} else {}
  {
    var code := request.courses[k - 1].code;
    assert Codes(request)[k - 1] == code;
    assert code in SetOf(Codes(request));
    forall i | 0 <= i < k - 1 ensures request.courses[i].code != code {
      assert Codes(request)[i] != Codes(request)[k - 1];
    }
    forall other ensures other in Registered(request, k) <==> other in Registered(request, k - 1) || other == code {
      if other in Registered(request, k) {
        var i :| 0 <= i < k && request.courses[i].code == other;
        assert i < k - 1 || i == k - 1;
      }
    }
  }

  lemma {:induction false} EarlinessIsListed(request: PlanRequest, a: Assignment, k: nat)
    requires Placement(request, a) && Distinct(Codes(request)) && k <= |request.courses|
    ensures SumOver(ChosenUpto(request, a, k), Earliness(request, a))
      == ListedEarliness(request.courses[..k], a, |request.terms|)
  {
    hide Placement, ChosenUpto, Codes, Distinct, SumOver;
    if k == 0 {
      NothingChosen(request, a);
    } else {
      EarlinessIsListed(request, a, k - 1);
      ChosenStep(request, a, k);
      var code, before := request.courses[k - 1].code, ChosenUpto(request, a, k - 1);
      assert request.courses[..k][..k - 1] == request.courses[..k - 1];
      assert before + {} == before;
      if a[code] > 0 {
        SumInsert(before, Earliness(request, a), code);
      }
    }
  }

  lemma NothingChosen(request: PlanRequest, a: Assignment)
    ensures SumOver(ChosenUpto(request, a, 0), Earliness(request, a)) == 0
  {
    assert ChosenUpto(request, a, 0) == {};
  }

  /** The oracle's earliest-completion objective as a sum over the list. */
  lemma ObjectiveIsListed(request: PlanRequest, a: Assignment)
    requires Placement(request, a) && Distinct(Codes(request)) && |request.terms| >= 1
    requires request.objective == EarliestCompletion
    ensures ObjectiveValue(request, a) == ListedEarliness(request.courses, a, |request.terms|)
  {
    var n := |request.courses|;
    EarlinessIsListed(request, a, n);
    assert request.courses[..n] == request.courses;
    forall code | code in Chosen(a) ensures code in Registered(request, n) {
      var i :| 0 <= i < n && Codes(request)[i] == code;
      assert request.courses[i].code == code;
    }
    assert ChosenUpto(request, a, n) == Chosen(a);
  }

  /** Posted score and oracle put all placements in the same order. */
  ghost predicate SameOrder(request: PlanRequest)
    requires |request.terms| >= 1
  {
    forall a, b | Placement(request, a) && Placement(request, b) ::
      PostedEarliness(request.courses, a, |request.terms|) <= PostedEarliness(request.courses, b, |request.terms|)
      <==> ObjectiveValue(request, a) <= ObjectiveValue(request, b)
  }

  ghost predicate UniformUnits(courses: seq<CourseSpec>) {
    forall c, d | c in courses && d in courses :: c.creditUnits == d.creditUnits
  }

  lemma {:induction false} UniformScales(courses: seq<CourseSpec>, a: Assignment, n: nat, units: int)
    requires forall c | c in courses :: c.creditUnits == units
    ensures PostedEarliness(courses, a, n) == units * ListedEarliness(courses, a, n)
  {
    if courses != [] {
      UniformScales(courses[..|courses| - 1], a, n, units);
      var last := courses[|courses| - 1];
      Distributes(units, ListedEarliness(courses[..|courses| - 1], a, n), EarlinessOf(last, a, n));
    }
  }

  lemma Distributes(c: int, x: int, y: int)
    ensures c * (x + y) == c * x + c * y
  {
  }

  lemma Scales(c: int, x: int, y: int)
    requires c > 0
    ensures c * x <= c * y <==> x <= y
  {
    if x < y {
      assert c * (y - x) > 0;
    } else if y < x {
      assert c * (x - y) > 0;
    }
  }

  /** Only the course with this code, in the last term. */
  function OnlyOne(request: PlanRequest, code: string): Assignment {
    map c | c in SetOf(Codes(request)) :: if c == code then |request.terms| else 0
  }

  lemma SumsGrow(courses: seq<CourseSpec>, a: Assignment, k: nat, n: nat)
    requires 1 <= k <= |courses|
    ensures var before, last := courses[..k - 1], courses[k - 1];
      && ListedEarliness(courses[..k], a, n) == ListedEarliness(before, a, n) + EarlinessOf(last, a, n)
      && PostedEarliness(courses[..k], a, n)
        == PostedEarliness(before, a, n) + EarlinessOf(last, a, n) * last.creditUnits
  {
    assert courses[..k][..k - 1] == courses[..k - 1] && courses[..k][k - 1] == courses[k - 1];
  }

  lemma {:induction false} OnlyOneScores(request: PlanRequest, i: nat, k: nat)
    requires Distinct(Codes(request)) && i < |request.courses| && k <= |request.courses| && |request.terms| >= 1
    ensures var a, n := OnlyOne(request, request.courses[i].code), |request.terms|;
      && ListedEarliness(request.courses[..k], a, n) == (if i < k then 1 else 0)
      && PostedEarliness(request.courses[..k], a, n) == (if i < k then request.courses[i].creditUnits else 0)
  {
    hide ListedEarliness, PostedEarliness, Distinct;
    var a, n := OnlyOne(request, request.courses[i].code), |request.terms|;
    if k == 0 {
      NothingScores(a, n);
    } else {
      OnlyOneScores(request, i, k - 1);
      SumsGrow(request.courses, a, k, n);
      OnlyOneEarliness(request, i, k - 1);
    }
  }

  lemma NothingScores(a: Assignment, n: nat)
    ensures ListedEarliness([], a, n) == 0 && PostedEarliness([], a, n) == 0
  {
  }

  lemma OnlyOneEarliness(request: PlanRequest, i: nat, k: nat)
    requires Distinct(Codes(request)) && i < |request.courses| && k < |request.courses| && |request.terms| >= 1
    ensures EarlinessOf(request.courses[k], OnlyOne(request, request.courses[i].code), |request.terms|)
      == if k == i then 1 else 0
  {
    assert Codes(request)[k] == request.courses[k].code && Codes(request)[i] == request.courses[i].code;
    assert Codes(request)[k] in SetOf(Codes(request));
  }

  lemma OnlyOneMeans(request: PlanRequest, i: nat)
    requires Distinct(Codes(request)) && i < |request.courses| && |request.terms| >= 1
    requires request.objective == EarliestCompletion
    ensures var a := OnlyOne(request, request.courses[i].code);
      && Placement(request, a) && ObjectiveValue(request, a) == 1
      && PostedEarliness(request.courses, a, |request.terms|) == request.courses[i].creditUnits
  {
    var a := OnlyOne(request, request.courses[i].code);
    OnlyOneScores(request, i, |request.courses|);
    assert request.courses[..|request.courses|] == request.courses;
    ObjectiveIsListed(request, a);
  }

  /**
   The solver and the oracle prefer the same plans for earliest completion exactly if all courses carry the
   same credits.
   */
  lemma SameOrderIffUniform(request: PlanRequest)
    requires Distinct(Codes(request)) && |request.terms| >= 1 && request.objective == EarliestCompletion
    requires forall c | c in request.courses :: c.creditUnits > 0
    ensures SameOrder(request) <==> UniformUnits(request.courses)
  {
    if UniformUnits(request.courses) {
      forall a, b | Placement(request, a) && Placement(request, b)
        ensures PostedEarliness(request.courses, a, |request.terms|)
          <= PostedEarliness(request.courses, b, |request.terms|)
          <==> ObjectiveValue(request, a) <= ObjectiveValue(request, b)
      {
        UniformOrder(request, a, b);
      }
    } else {
      var c, d :| c in request.courses && d in request.courses && c.creditUnits > d.creditUnits;
      var i :| 0 <= i < |request.courses| && request.courses[i] == c;
      var j :| 0 <= j < |request.courses| && request.courses[j] == d;
      OnlyOneMeans(request, i);
      OnlyOneMeans(request, j);
    }
  }

  lemma UniformOrder(request: PlanRequest, a: Assignment, b: Assignment)
    requires Distinct(Codes(request)) && |request.terms| >= 1 && request.objective == EarliestCompletion
    requires UniformUnits(request.courses) && forall c | c in request.courses :: c.creditUnits > 0
    requires Placement(request, a) && Placement(request, b)
    ensures PostedEarliness(request.courses, a, |request.terms|) <= PostedEarliness(request.courses, b, |request.terms|)
      <==> ObjectiveValue(request, a) <= ObjectiveValue(request, b)
  {
    ObjectiveIsListed(request, a);
    ObjectiveIsListed(request, b);
    var n := |request.terms|;
    if request.courses != [] {
      var units := request.courses[0].creditUnits;
      assert request.courses[0] in request.courses;
      UniformScales(request.courses, a, n, units);
      UniformScales(request.courses, b, n, units);
      Scales(units, ListedEarliness(request.courses, a, n), ListedEarliness(request.courses, b, n));
    }
  }

  // ---- Preference satisfaction ----

  function PostedPreference(courses: seq<CourseSpec>, a: Assignment): int {
    if courses == [] then 0 else
    var last := courses[|courses| - 1];
    PostedPreference(courses[..|courses| - 1], a) + last.preferenceScore * if last.code in a && a[last.code] > 0 then 1
    else 0
  }

  lemma {:induction false} PreferenceIsListed(courses: seq<CourseSpec>, a: Assignment)
    requires forall code | code in a :: a[code] >= 0
    ensures PostedPreference(courses, a) == Preference(courses, a)
    ensures Chosen(a) == {} ==> Preference(courses, a) == 0
  {
    if courses != [] {
      PreferenceIsListed(courses[..|courses| - 1], a);
      var last := courses[|courses| - 1];
      assert last.code in a && a[last.code] != 0 ==> last.code in Chosen(a);
      if last.code in a && a[last.code] > 0 {
        assert last.preferenceScore * 1 == last.preferenceScore;
      } else {
        assert last.preferenceScore * 0 == 0;
      }
    }
  }

  /** The posted preference score is the oracle's. */
  lemma PreferencesAgree(request: PlanRequest, a: Assignment)
    requires Placement(request, a) && |request.terms| >= 1 && request.objective == PreferenceSatisfaction
    ensures PostedPreference(request.courses, a) == ObjectiveValue(request, a)
  {
    PreferenceIsListed(request.courses, a);
  }

  // ---- Balanced workload ----

  const MAX_WORKLOAD := 1_000_000

  /** A value the posted workload variable may take. */
  predicate Bounds(request: PlanRequest, a: Assignment, m: int) {
    0 <= m <= MAX_WORKLOAD && forall t | 1 <= t <= |request.terms| :: Workload(request.courses, a, t) <= m
  }

  ghost predicate LeastBound(request: PlanRequest, a: Assignment, m: int) {
    Bounds(request, a, m) && forall k | Bounds(request, a, k) :: m <= k
  }

  lemma {:induction false} PeakIsLargest(request: PlanRequest, a: Assignment, n: nat)
    requires n >= 1
    ensures forall t | 1 <= t <= n :: Workload(request.courses, a, t) <= PeakWorkload(request, a, n)
    ensures exists t :: 1 <= t <= n && Workload(request.courses, a, t) == PeakWorkload(request, a, n)
  {
    var here := Workload(request.courses, a, n);
    if n > 1 {
      PeakIsLargest(request, a, n - 1);
      if PeakWorkload(request, a, n) != here {
        var t :| 1 <= t <= n - 1 && Workload(request.courses, a, t) == PeakWorkload(request, a, n - 1);
        assert 1 <= t <= n && Workload(request.courses, a, t) == PeakWorkload(request, a, n);
      }
    }
  }

  lemma {:induction false} IdleIsFree(courses: seq<CourseSpec>, a: Assignment, t: int)
    requires Chosen(a) == {} && t >= 1
    ensures Workload(courses, a, t) == 0
  {
    if courses != [] {
      IdleIsFree(courses[..|courses| - 1], a, t);
      var last := courses[|courses| - 1];
      assert last.code in a && a[last.code] == t ==> last.code in Chosen(a);
    }
  }

  /** The least workload bound is the peak, or zero below it, and there is one exactly if the peak fits the variable. */
  lemma LeastBoundIsPeak(request: PlanRequest, a: Assignment, m: int)
    requires |request.terms| >= 1
    ensures var peak := PeakWorkload(request, a, |request.terms|);
      LeastBound(request, a, m) <==> peak <= MAX_WORKLOAD && m == if peak >= 0 then peak else 0
  {
    var peak := PeakWorkload(request, a, |request.terms|);
    PeakIsLargest(request, a, |request.terms|);
    var least := if peak >= 0 then peak else 0;
    if peak <= MAX_WORKLOAD {
      assert Bounds(request, a, least);
    }
  }

  /**
   The minimised bound is the oracle's score with its sign changed exactly if the peak lies between zero and
   the variable's bound.
   */
  lemma BalanceAgrees(request: PlanRequest, a: Assignment)
    requires Placement(request, a) && |request.terms| >= 1 && request.objective == BalancedWorkload
    ensures LeastBound(request, a, -ObjectiveValue(request, a)) <==>
      0 <= PeakWorkload(request, a, |request.terms|) <= MAX_WORKLOAD
  {
    var n := |request.terms|;
    LeastBoundIsPeak(request, a, -ObjectiveValue(request, a));
    if Chosen(a) == {} {
      PeakIsLargest(request, a, n);
      var t :| 1 <= t <= n && Workload(request.courses, a, t) == PeakWorkload(request, a, n);
      IdleIsFree(request.courses, a, t);
    }
  }
}
