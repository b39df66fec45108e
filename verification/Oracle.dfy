/** The exhaustive oracle behind the fallback solver, and the exactness of its statuses. */
module Oracle {
  import opened Ordering
  import opened Outcomes
  import opened PlanModel
  import opened Sums
  import opened Validator

  // ---- Objectives ----

  ghost function Chosen(a: Assignment): set<string> {
    set code | code in a && a[code] != 0
  }

  /** The workload of the listed courses that `a` places in `term`, in list order. */
  function Workload(courses: seq<CourseSpec>, a: Assignment, term: int): int {
    if courses == [] then 0 else
    var last := courses[|courses| - 1];
    Workload(courses[..|courses| - 1], a, term) + if last.code in a && a[last.code] == term then last.workloadHours
    else 0
  }

  function Preference(courses: seq<CourseSpec>, a: Assignment): int {
    if courses == [] then 0 else
    var last := courses[|courses| - 1];
    Preference(courses[..|courses| - 1], a) + if last.code in a && a[last.code] != 0 then last.preferenceScore else 0
  }

  /** The listed courses that `a` places in `term`. */
  ghost function PlacedIn(courses: seq<CourseSpec>, a: Assignment, term: int): set<string> {
    set i | 0 <= i < |courses| && courses[i].code in a && a[courses[i].code] == term :: courses[i].code
  }

  /** The listed courses that `a` takes. */
  ghost function TakenOf(courses: seq<CourseSpec>, a: Assignment): set<string> {
    set i | 0 <= i < |courses| && courses[i].code in a && a[courses[i].code] != 0 :: courses[i].code
  }

  ghost predicate DistinctCodes(courses: seq<CourseSpec>) {
    forall i, j | 0 <= i < j < |courses| :: courses[i].code != courses[j].code
  }

  /** The workload of a term is the sum of the hours of the courses placed in it. */
  lemma {:induction false} WorkloadMeans(courses: seq<CourseSpec>, a: Assignment, term: int, hours: string -> int)
    requires DistinctCodes(courses) && forall course | course in courses :: hours(course.code) == course.workloadHours
    ensures Workload(courses, a, term) == SumOver(PlacedIn(courses, a, term), hours)
  {
    if courses == [] {
      assert PlacedIn(courses, a, term) == {};
    } else {
      var front, last := courses[..|courses| - 1], courses[|courses| - 1];
      WorkloadMeans(front, a, term, hours);
      var before := PlacedIn(front, a, term);
      assert last.code !in before;
      if last.code in a && a[last.code] == term {
        assert PlacedIn(courses, a, term) == before + {last.code};
        SumInsert(before, hours, last.code);
      } else {
        assert PlacedIn(courses, a, term) == before;
      }
    }
  }

  /** The preference score is the sum of the scores of the courses taken. */
  lemma {:induction false} PreferenceMeans(courses: seq<CourseSpec>, a: Assignment, scores: string -> int)
    requires DistinctCodes(courses)
    requires forall course | course in courses :: scores(course.code) == course.preferenceScore
    ensures Preference(courses, a) == SumOver(TakenOf(courses, a), scores)
  {
    if courses == [] {
      assert TakenOf(courses, a) == {};
    } else {
      var front, last := courses[..|courses| - 1], courses[|courses| - 1];
      PreferenceMeans(front, a, scores);
      var before := TakenOf(front, a);
      assert last.code !in before;
      if last.code in a && a[last.code] != 0 {
        assert TakenOf(courses, a) == before + {last.code};
        SumInsert(before, scores, last.code);
      } else {
        assert TakenOf(courses, a) == before;
      }
    }
  }

  /** The largest workload of the terms 1 to `n`. */
  function PeakWorkload(request: PlanRequest, a: Assignment, n: nat): int
    requires n >= 1
  {
    var here := Workload(request.courses, a, n);
    if n == 1 then here else
    var before := PeakWorkload(request, a, n - 1);
    if before >= here then before else here
  }

  ghost function Earliness(request: PlanRequest, a: Assignment): string -> int {
    (code: string) => if code in a then |request.terms| + 1 - a[code] else 0
  }

  /** The score that the oracle maximises. The balanced objective needs at least one term. */
  ghost function ObjectiveValue(request: PlanRequest, a: Assignment): int
    requires Chosen(a) != {} ==> |request.terms| >= 1
  {
    if Chosen(a) == {} then 0
    else match request.objective
      case BalancedWorkload => -PeakWorkload(request, a, |request.terms|)
      case PreferenceSatisfaction => Preference(request.courses, a)
      case EarliestCompletion => SumOver(Chosen(a), Earliness(request, a))
  }

  method ComputeObjective(request: PlanRequest, a: Assignment) returns (score: int)
    requires Chosen(a) != {} ==> |request.terms| >= 1
    ensures score == ObjectiveValue(request, a)
  {
    var selected := set code | code in a && a[code] != 0;
    if |selected| == 0 {
      return 0;
    }
    match request.objective {
      case BalancedWorkload =>
        return -PeakWorkload(request, a, |request.terms|);
      case PreferenceSatisfaction =>
        return Preference(request.courses, a);
      case EarliestCompletion =>
        score := 0;
        var todo := selected;
        while |todo| > 0
          invariant todo <= selected
          invariant score + SumOver(todo, Earliness(request, a)) == SumOver(selected, Earliness(request, a))
          decreases |todo|
        {
          var code :| code in todo;
          SumRemove(todo, Earliness(request, a), code);
          score := score + (|request.terms| + 1 - a[code]);
          todo := todo - {code};
        }
        assert todo == {};
    }
  }

  // ---- Enumeration ----

  /** `product(*choices)`: all tuples, the last position varying fastest. */
  function Product(choices: seq<seq<int>>): seq<seq<int>> {
    if choices == [] then [[]] else PrefixAll(choices[0], Product(choices[1..]))
  }

  function PrefixAll(values: seq<int>, tails: seq<seq<int>>): seq<seq<int>> {
    if values == [] then [] else PrefixEach(values[0], tails) + PrefixAll(values[1..], tails)
  }

  function PrefixEach(value: int, tails: seq<seq<int>>): (r: seq<seq<int>>)
    ensures |r| == |tails|
    ensures forall i | 0 <= i < |tails| :: r[i] == [value] + tails[i]
  {
    seq(|tails|, i requires 0 <= i < |tails| => [value] + tails[i])
  }

  ghost predicate Rising(xs: seq<int>) {
    forall i, j | 0 <= i < j < |xs| :: xs[i] < xs[j]
  }

  /** `u` comes before `v`: it is smaller at the first difference. */
  ghost predicate Earlier(u: seq<int>, v: seq<int>) {
    exists k :: 0 <= k < |u| && k < |v| && u[..k] == v[..k] && u[k] < v[k]
  }

  ghost predicate AllEarlier(tuples: seq<seq<int>>) {
    forall i, j | 0 <= i < j < |tuples| :: Earlier(tuples[i], tuples[j])
  }

  lemma EarlierBelow(value: int, u: seq<int>, v: seq<int>)
    requires Earlier(u, v)
    ensures Earlier([value] + u, [value] + v)
  {
    var k :| 0 <= k < |u| && k < |v| && u[..k] == v[..k] && u[k] < v[k];
    assert ([value] + u)[..k + 1] == [value] + u[..k] && ([value] + v)[..k + 1] == [value] + v[..k];
    assert ([value] + u)[k + 1] == u[k] && ([value] + v)[k + 1] == v[k];
  }

  lemma {:induction false} PrefixAllRises(values: seq<int>, tails: seq<seq<int>>)
    requires Rising(values) && AllEarlier(tails)
    ensures AllEarlier(PrefixAll(values, tails))
  {
    if values != [] {
      var each, rest := PrefixEach(values[0], tails), PrefixAll(values[1..], tails);
      PrefixAllRises(values[1..], tails);
      forall i, j | 0 <= i < j < |each| ensures Earlier(each[i], each[j]) {
        EarlierBelow(values[0], tails[i], tails[j]);
      }
      forall i, j | 0 <= i < |each| && 0 <= j < |rest| ensures Earlier(each[i], rest[j]) {
        PrefixAllMembers(values[1..], tails, rest[j]);
        assert rest[j] in rest;
        var m :| 0 <= m < |values[1..]| && values[1..][m] == rest[j][0];
        assert values[m + 1] == rest[j][0];
        assert each[i][..0] == rest[j][..0] && each[i][0] < rest[j][0];
      }
    }
  }

  /** The product comes in lexicographic order if every list of choices rises. */
  lemma {:induction false} ProductRises(choices: seq<seq<int>>)
    requires forall i | 0 <= i < |choices| :: Rising(choices[i])
    ensures AllEarlier(Product(choices))
  {
    if choices != [] {
      ProductRises(choices[1..]);
      PrefixAllRises(choices[0], Product(choices[1..]));
    }
  }

  predicate Picks(choices: seq<seq<int>>, values: seq<int>) {
    |values| == |choices| && forall i | 0 <= i < |values| :: values[i] in choices[i]
  }

  lemma {:induction false} PrefixAllMembers(values: seq<int>, tails: seq<seq<int>>, v: seq<int>)
    ensures v in PrefixAll(values, tails) <==> v != [] && v[0] in values && v[1..] in tails
  {
    if values != [] {
      PrefixAllMembers(values[1..], tails, v);
      var each := PrefixEach(values[0], tails);
      if v != [] && v[0] == values[0] && v[1..] in tails {
        var i :| 0 <= i < |tails| && tails[i] == v[1..];
        assert each[i] == [v[0]] + v[1..] == v;
      }
      if v in each {
        var i :| 0 <= i < |each| && each[i] == v;
        assert v == [values[0]] + tails[i] && v[1..] == tails[i];
      }
      assert v != [] ==> (v[0] in values <==> v[0] == values[0] || v[0] in values[1..]);
    }
  }

  /** The product holds exactly the tuples with one choice per position. */
  lemma {:induction false} ProductMembers(choices: seq<seq<int>>, v: seq<int>)
    ensures v in Product(choices) <==> Picks(choices, v)
  {
    if choices == [] {
      assert v in [[]] <==> v == [];
    } else {
      PrefixAllMembers(choices[0], Product(choices[1..]), v);
      if v != [] {
        ProductMembers(choices[1..], v[1..]);
        assert Picks(choices, v) <==> v[0] in choices[0] && Picks(choices[1..], v[1..]);
      }
    }
  }

  /** `[0, *sorted(course.available_terms or all terms)]`. */
  function Choices(request: PlanRequest, course: CourseSpec): seq<int> {
    [0] + Ascending(if course.availableTerms != {} then course.availableTerms else SetOf(Indices(request)))
  }

  function Ascending(s: set<int>): (r: seq<int>)
    ensures forall x :: x in r <==> x in s
  {
    if s == {} then [] else
    var m := Smallest(s);
    [m] + Ascending(s - {m})
  }

  lemma {:induction false} AscendingRises(s: set<int>)
    ensures Rising(Ascending(s))
  {
    if s != {} {
      var m := Smallest(s);
      AscendingRises(s - {m});
      var rest := Ascending(s - {m});
      forall i, j | 0 <= i < j < |[m] + rest| ensures ([m] + rest)[i] < ([m] + rest)[j] {
        assert ([m] + rest)[j] == rest[j - 1] && rest[j - 1] in rest;
      }
    }
  }

  function Smallest(s: set<int>): (m: int)
    requires s != {}
    ensures m in s && forall x | x in s :: m <= x
  {
    SmallestExists(s);
    var m :| m in s && forall x | x in s :: m <= x;
    m
  }

  ghost function Pick<T>(s: set<T>): (x: T)
    requires s != {}
    ensures x in s
  {
    var x :| x in s;
    x
  }

  lemma {:induction false} SmallestExists(s: set<int>)
    requires s != {}
    ensures exists m :: m in s && forall x | x in s :: m <= x
    decreases |s|
  {
    var x := Pick(s);
    var rest := s - {x};
    if rest != {} {
      SmallestExists(rest);
      var m :| m in rest && forall y | y in rest :: m <= y;
      var least := if x <= m then x else m;
      forall y | y in s ensures least <= y {
        assert y == x || y in rest;
      }
      assert least in s;
    } else {
      forall y | y in s ensures y == x {
        assert y !in rest;
      }
    }
  }

  function AllChoices(request: PlanRequest): seq<seq<int>> {
    seq(|request.courses|, i requires 0 <= i < |request.courses| => Choices(request, request.courses[i]))
  }

  /** With terms from 1 on, the assignments are enumerated in lexicographic order, "not taken" first. */
  lemma EnumerationRises(request: PlanRequest)
    requires forall t | t in Indices(request) :: t >= 1
    requires forall course, t | course in request.courses && t in course.availableTerms :: t >= 1
    ensures AllEarlier(Product(AllChoices(request)))
  {
    var choices := AllChoices(request);
    forall i | 0 <= i < |choices| ensures Rising(choices[i]) {
      var course := request.courses[i];
      assert course in request.courses;
      var terms := if course.availableTerms != {} then course.availableTerms else SetOf(Indices(request));
      AscendingRises(terms);
      forall j | 0 <= j < |Ascending(terms)| ensures Ascending(terms)[j] >= 1 {
        assert Ascending(terms)[j] in terms;
      }
    }
    ProductRises(choices);
  }

  /** `dict(zip(codes, values))`: a later course of the same code wins. */
  function AssignmentOf(codes: seq<string>, values: seq<int>): (a: Assignment)
    requires |codes| == |values|
    ensures forall i | 0 <= i < |codes| :: codes[i] in a
    ensures forall c | c in a :: c in codes
  {
    if codes == [] then map[] else
    var n := |codes| - 1;
    AssignmentOf(codes[..n], values[..n])[codes[n] := values[n]]
  }

  lemma {:induction false} AssignmentAt(codes: seq<string>, values: seq<int>, i: nat)
    requires |codes| == |values| && i < |codes| && Distinct(codes)
    ensures codes[i] in AssignmentOf(codes, values) && AssignmentOf(codes, values)[codes[i]] == values[i]
  {
    var n := |codes| - 1;
    if i < n {
      var front := codes[..n];
      assert front[i] == codes[i] && values[..n][i] == values[i] && Distinct(front);
      AssignmentAt(front, values[..n], i);
      assert codes[i] != codes[n];
    }
  }

  // ---- The search ----

  /** `checked` counts assignments; `truncated` means that the limit was reached. */
  datatype OracleResult = OracleResult(
    assignment: Option<Assignment>, objective: Option<int>, checked: nat, truncated: bool)

  ghost predicate TotalPlan(request: PlanRequest, a: Assignment) {
    a.Keys == SetOf(Codes(request))
  }

  lemma ValidHasTerms(request: PlanRequest, a: Assignment)
    requires PlanPasses(request, a)
    ensures Chosen(a) != {} ==> |request.terms| >= 1
  {
    if |Chosen(a)| > 0 {
      var code :| code in Chosen(a);
      assert code in CourseMap(request.courses) && PlacementOk(request, a, code);
      TermMapAt(request.terms);
    }
  }

  /** `a` passes the validator and no passing assignment among `candidates` scores higher. */
  ghost predicate Best(request: PlanRequest, candidates: iset<Assignment>, a: Assignment, score: int) {
    && PlanPasses(request, a) && a in candidates
    && (Chosen(a) != {} ==> |request.terms| >= 1) && score == ObjectiveValue(request, a)
    && (forall b | b in candidates && PlanPasses(request, b) ::
          (Chosen(b) != {} ==> |request.terms| >= 1) && ObjectiveValue(request, b) <= score)
  }

  ghost predicate NonePasses(request: PlanRequest, candidates: iset<Assignment>) {
    forall b | b in candidates :: !PlanPasses(request, b)
  }

  /** The first `n` enumerated assignments. */
  ghost function Enumerated(request: PlanRequest, tuples: seq<seq<int>>, n: nat): iset<Assignment>
    requires n <= |tuples| && forall t | t in tuples :: |t| == |request.courses|
  {
    iset i | 0 <= i < n :: AssignmentOf(Codes(request), tuples[i])
  }

  ghost predicate Outcome(
    request: PlanRequest, candidates: iset<Assignment>, assignment: Option<Assignment>, objective: Option<int>)
  {
    match assignment
    case None => objective == None && NonePasses(request, candidates)
    case Some(a) => objective.Some? && Best(request, candidates, a, objective.value)
  }

  lemma OutcomeStep(
    request: PlanRequest, before: iset<Assignment>, after: iset<Assignment>, c: Assignment, score: int,
    assignment: Option<Assignment>, objective: Option<int>, assignment': Option<Assignment>, objective': Option<int>)
    requires after == before + iset{c} && Outcome(request, before, assignment, objective)
    requires PlanPasses(request, c) ==>
      (Chosen(c) != {} ==> |request.terms| >= 1) && score == ObjectiveValue(request, c)
    requires if PlanPasses(request, c) && (objective.None? || score > objective.value)
             then assignment' == Some(c) && objective' == Some(score)
             else assignment' == assignment && objective' == objective
    ensures Outcome(request, after, assignment', objective')
  {
  }

  /** The score of a plan; a request without terms has no other plan than the empty one. */
  ghost function ScoreOf(request: PlanRequest, a: Assignment): int {
    if Chosen(a) != {} && |request.terms| < 1 then 0 else ObjectiveValue(request, a)
  }

  /** Assignment `k` of the enumeration is `a`, and every passing one before it scores less. */
  ghost predicate FirstAt(request: PlanRequest, tuples: seq<seq<int>>, k: int, a: Assignment)
    requires forall t | t in tuples :: |t| == |request.courses|
  {
    && 0 <= k < |tuples| && AssignmentOf(Codes(request), tuples[k]) == a
    && forall i | 0 <= i < k && PlanPasses(request, AssignmentOf(Codes(request), tuples[i])) ::
      ScoreOf(request, AssignmentOf(Codes(request), tuples[i])) < ScoreOf(request, a)
  }

  ghost predicate IsFirst(request: PlanRequest, tuples: seq<seq<int>>, n: nat, best: Option<Assignment>)
    requires forall t | t in tuples :: |t| == |request.courses|
  {
    best.Some? ==> exists k :: k < n && FirstAt(request, tuples, k, best.value)
  }

  lemma FirstStep(
    request: PlanRequest, tuples: seq<seq<int>>, i: nat, best: Option<Assignment>, bestScore: Option<int>,
    c: Assignment, score: int, best': Option<Assignment>)
    requires forall t | t in tuples :: |t| == |request.courses|
    requires i < |tuples| && c == AssignmentOf(Codes(request), tuples[i])
    requires Outcome(request, Enumerated(request, tuples, i), best, bestScore) && IsFirst(request, tuples, i, best)
    requires PlanPasses(request, c) ==>
      (Chosen(c) != {} ==> |request.terms| >= 1) && score == ObjectiveValue(request, c)
    requires best' == if PlanPasses(request, c) && (bestScore.None? || score > bestScore.value) then Some(c) else best
    ensures IsFirst(request, tuples, i + 1, best')
  {
    hide PlanPasses, ObjectiveValue, AssignmentOf;
    if PlanPasses(request, c) && (bestScore.None? || score > bestScore.value) {
      forall k | 0 <= k < i && PlanPasses(request, AssignmentOf(Codes(request), tuples[k]))
        ensures ScoreOf(request, AssignmentOf(Codes(request), tuples[k])) < ScoreOf(request, c)
      {
        assert AssignmentOf(Codes(request), tuples[k]) in Enumerated(request, tuples, i);
      }
      assert FirstAt(request, tuples, i, c);
    } else if best.Some? {
      var k :| k < i && FirstAt(request, tuples, k, best.value);
      assert k < i + 1;
    }
  }

  /** After `n` assignments `best` is the first of the best ones, with its score. */
  ghost predicate Swept(
    request: PlanRequest, tuples: seq<seq<int>>, n: nat, best: Option<Assignment>, score: Option<int>)
    requires forall t | t in tuples :: |t| == |request.courses|
  {
    n <= |tuples| && Outcome(request, Enumerated(request, tuples, n), best, score) && IsFirst(request, tuples, n, best)
  }

  lemma SweepStart(request: PlanRequest, tuples: seq<seq<int>>)
    requires forall t | t in tuples :: |t| == |request.courses|
    ensures Swept(request, tuples, 0, None, None)
  {
  }

  lemma SweepStep(
    request: PlanRequest, tuples: seq<seq<int>>, i: nat, best: Option<Assignment>, bestScore: Option<int>,
    c: Assignment, score: int, best': Option<Assignment>, bestScore': Option<int>)
    requires forall t | t in tuples :: |t| == |request.courses|
    requires i < |tuples| && c == AssignmentOf(Codes(request), tuples[i])
    requires Swept(request, tuples, i, best, bestScore)
    requires PlanPasses(request, c) ==>
      (Chosen(c) != {} ==> |request.terms| >= 1) && score == ObjectiveValue(request, c)
    requires if PlanPasses(request, c) && (bestScore.None? || score > bestScore.value)
             then best' == Some(c) && bestScore' == Some(score)
             else best' == best && bestScore' == bestScore
    ensures Swept(request, tuples, i + 1, best', bestScore')
  {
    hide PlanPasses, ObjectiveValue, AssignmentOf, Outcome, IsFirst;
    EnumeratedStep(request, tuples, i);
    FirstStep(request, tuples, i, best, bestScore, c, score, best');
    OutcomeStep(request, Enumerated(request, tuples, i), Enumerated(request, tuples, i + 1), c, score, best, bestScore,
      best', bestScore');
  }

  method EnumerateOptimum(request: PlanRequest, maxAssignments: int) returns (result: OracleResult)
    ensures result.truncated <==> |Product(AllChoices(request))| >= maxAssignments
    ensures result.checked <= |Product(AllChoices(request))|
    ensures forall t | t in Product(AllChoices(request)) :: |t| == |request.courses|
    ensures Outcome(request, Enumerated(request, Product(AllChoices(request)), result.checked), result.assignment,
      result.objective)
    ensures IsFirst(request, Product(AllChoices(request)), result.checked, result.assignment)
    ensures !result.truncated ==> result.checked == |Product(AllChoices(request))|
  {
    hide PlanPasses, ObjectiveValue, AssignmentOf, Outcome, IsFirst, Product, AllChoices, Enumerated;
    var codes, tuples := Codes(request), Product(AllChoices(request));
    TuplesFit(request);
    EnumerationExists(request);
    SweepStart(request, tuples);
    var best: Option<Assignment>, bestScore: Option<int> := None, None;
    var checked := 0;
    for i := 0 to |tuples|
      invariant checked == i && (i > 0 ==> i < maxAssignments)
      invariant Swept(request, tuples, i, best, bestScore)
    {
      checked := checked + 1;
      var a := AssignmentOf(codes, tuples[i]);
      ghost var best0, score0 := best, bestScore;
      var result := ValidatePlan(request, a);
      var score := 0;
      if result.valid {
        ValidHasTerms(request, a);
        score := ComputeObjective(request, a);
        if bestScore.None? || score > bestScore.value {
          best, bestScore := Some(a), Some(score);
        }
      }
      SweepStep(request, tuples, i, best0, score0, a, score, best, bestScore);
      if checked >= maxAssignments {
        return OracleResult(best, bestScore, checked, true);
      }
    }
    result := OracleResult(best, bestScore, checked, false);
  }

  lemma EnumerationExists(request: PlanRequest)
    ensures |Product(AllChoices(request))| >= 1
  {
    ProductNonEmpty(AllChoices(request));
  }

  lemma EnumeratedStep(request: PlanRequest, tuples: seq<seq<int>>, i: nat)
    requires i < |tuples| && forall t | t in tuples :: |t| == |request.courses|
    ensures Enumerated(request, tuples, i + 1) ==
      Enumerated(request, tuples, i) + iset{AssignmentOf(Codes(request), tuples[i])}
  {
    hide AssignmentOf;
    var last := AssignmentOf(Codes(request), tuples[i]);
    forall a ensures a in Enumerated(request, tuples, i + 1) <==> a in Enumerated(request, tuples, i) || a == last {
      assert last in Enumerated(request, tuples, i + 1);
    }
  }

  lemma TuplesFit(request: PlanRequest)
    ensures forall t | t in Product(AllChoices(request)) :: |t| == |request.courses|
  {
    forall t | t in Product(AllChoices(request)) ensures |t| == |request.courses| {
      ProductMembers(AllChoices(request), t);
    }
  }

  lemma ProductNonEmpty(choices: seq<seq<int>>)
    requires forall i | 0 <= i < |choices| :: choices[i] != []
    ensures |Product(choices)| >= 1
  {
    var v := seq(|choices|, i requires 0 <= i < |choices| => choices[i][0]);
    ProductMembers(choices, v);
  }

  // ---- Nothing valid is missed ----

  /** Every valid total plan, with whatever integers for terms, is enumerated. */
  lemma ValidIsEnumerated(request: PlanRequest, a: Assignment)
    requires PlanPasses(request, a) && TotalPlan(request, a)
    ensures forall t | t in Product(AllChoices(request)) :: |t| == |request.courses|
    ensures a in Enumerated(request, Product(AllChoices(request)), |Product(AllChoices(request))|)
  {
    TuplesFit(request);
    var codes, tuples := Codes(request), Product(AllChoices(request));
    var v := seq(|codes|, i requires 0 <= i < |codes| => a[codes[i]]);
    MapKeys(request);
    assert |codes| == |request.courses| == |AllChoices(request)|;
    var choices := AllChoices(request);
    assert |choices| == |v|;
    forall i | 0 <= i < |v| ensures v[i] in choices[i] {
      assert codes[i] == request.courses[i].code && codes[i] in a;
      ValidPick(request, a, i);
    }
    ProductMembers(choices, v);
    var k :| 0 <= k < |tuples| && tuples[k] == v;
    Rebuilt(codes, v, a);
  }

  lemma Rebuilt(codes: seq<string>, v: seq<int>, a: Assignment)
    requires Distinct(codes) && a.Keys == SetOf(codes) && |v| == |codes| && forall i | 0 <= i < |codes| ::
      v[i] == a[codes[i]]
    ensures AssignmentOf(codes, v) == a
  {
    forall i | 0 <= i < |codes| ensures AssignmentOf(codes, v)[codes[i]] == a[codes[i]] {
      AssignmentAt(codes, v, i);
    }
    forall c | c in a ensures c in AssignmentOf(codes, v) {
      assert c in codes;
    }
  }

  lemma ValidPick(request: PlanRequest, a: Assignment, i: nat)
    requires PlanPasses(request, a) && i < |request.courses| && request.courses[i].code in a
    ensures a[request.courses[i].code] in Choices(request, request.courses[i])
  {
    var course := request.courses[i];
    forall j, k | 0 <= j < k < |request.courses| ensures request.courses[j].code != request.courses[k].code {
      assert Codes(request)[j] != Codes(request)[k];
    }
    CourseMapIndex(request.courses, i);
    MapKeys(request);
    assert PlacementOk(request, a, course.code);
  }

  lemma EnumeratedIsTotal(request: PlanRequest, n: nat, a: Assignment)
    requires n <= |Product(AllChoices(request))| && forall t | t in Product(AllChoices(request)) ::
      |t| == |request.courses|
    requires a in Enumerated(request, Product(AllChoices(request)), n)
    ensures TotalPlan(request, a)
  {
  }

  // ---- The fallback solver ----

  datatype Status = Optimal | Feasible | Infeasible | Unknown | InvalidModel

  datatype PlanResult = PlanResult(
    status: Status, assignment: Assignment, objective: Option<int>, validator: Option<ValidationResult>)

  ghost predicate MaximalAmongAll(request: PlanRequest, a: Assignment) {
    && PlanPasses(request, a) && TotalPlan(request, a) && (Chosen(a) != {} ==> |request.terms| >= 1)
    && (forall b | TotalPlan(request, b) && PlanPasses(request, b) ::
          (Chosen(b) != {} ==> |request.terms| >= 1) && ObjectiveValue(request, b) <= ObjectiveValue(request, a))
  }

  /** The number of assignments after which the fallback gives up. */
  const FALLBACK_LIMIT := 100_000

  method FallbackSolve(request: PlanRequest) returns (result: PlanResult)
    ensures result.status in {Optimal, Infeasible, Unknown}
    ensures result.status == Unknown <==> |Product(AllChoices(request))| >= FALLBACK_LIMIT
    ensures result.status == Optimal ==>
              MaximalAmongAll(request, result.assignment)
              && result.objective == Some(ObjectiveValue(request, result.assignment))
    ensures result.status == Infeasible ==> forall b: Assignment | TotalPlan(request, b) :: !PlanPasses(request, b)
    ensures result.validator.Some? <==> result.objective.Some?
    ensures result.validator.Some? ==> result.validator.value.valid && PlanPasses(request, result.assignment)
  {
    var oracle := EnumerateOptimum(request, FALLBACK_LIMIT);
    ghost var seen := Enumerated(request, Product(AllChoices(request)), oracle.checked);
    if !oracle.truncated {
      Complete(request, seen, oracle);
    }
    match oracle.assignment {
      case Some(a) =>
        var status := if oracle.truncated then Unknown else Optimal;
        var validation := ValidatePlan(request, a);
        result := PlanResult(status, a, oracle.objective, Some(validation));
      case None =>
        var status := if oracle.truncated then Unknown else Infeasible;
        result := PlanResult(status, map[], None, None);
    }
  }

  /** A search that was not truncated has seen every valid total plan. */
  lemma Complete(request: PlanRequest, seen: iset<Assignment>, oracle: OracleResult)
    requires forall t | t in Product(AllChoices(request)) :: |t| == |request.courses|
    requires oracle.checked == |Product(AllChoices(request))|
    requires seen == Enumerated(request, Product(AllChoices(request)), oracle.checked)
    requires Outcome(request, seen, oracle.assignment, oracle.objective)
    ensures oracle.assignment.Some? ==>
              MaximalAmongAll(request, oracle.assignment.value)
              && oracle.objective == Some(ObjectiveValue(request, oracle.assignment.value))
    ensures oracle.assignment.None? ==> forall b: Assignment | TotalPlan(request, b) :: !PlanPasses(request, b)
  {
    forall b: Assignment | TotalPlan(request, b) && PlanPasses(request, b) ensures b in seen {
      ValidIsEnumerated(request, b);
    }
    if oracle.assignment.Some? {
      EnumeratedIsTotal(request, oracle.checked, oracle.assignment.value);
    }
  }
}
