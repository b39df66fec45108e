/** Catalog acceptance: parsing every course's prerequisites and rejecting unorderable catalogs. */
module Catalog {
  import opened Ast
  import opened Digraph
  import opened Grammar
  import opened Graph
  import opened Ordering
  import opened Outcomes
  import Parser

  /** A prerequisite text: blank (or NONE, N/A), outside the token language, or a token list. */
  datatype Source = Blank | Untokenizable | Tokens(tokens: seq<Parser.Token>)

  datatype CatalogCourse = CatalogCourse(code: string, prerequisites: Source)

  datatype CatalogTerm = CatalogTerm(name: string, year: int)

  datatype CatalogDocument = CatalogDocument(courses: seq<CatalogCourse>, terms: seq<CatalogTerm>)

  datatype CatalogError =
    | DuplicateCourses
    | DuplicateTerms
    | UnknownPrerequisite(code: string)
    | StrictCycle(nodes: seq<string>)

  datatype CatalogValidation = CatalogValidation(
    errors: seq<CatalogError>, warnings: seq<string>, parsedCourses: nat, unsupportedCourses: nat)

  function ParsePrerequisites(source: Source): Option<Expr> {
    match source
    case Blank => Some(AllOf([]))
    case Untokenizable => None
    case Tokens(tokens) =>
      match Parser.ParseAll(tokens)
      case Success(e) => Some(e)
      case Failure(_) => None
  }

  /** The parsed expression of each course code; a later course of the same code wins. */
  function ExpressionsOf(courses: seq<CatalogCourse>): map<string, Expr> {
    if courses == [] then map[] else
    var front, last := ExpressionsOf(courses[..|courses| - 1]), courses[|courses| - 1];
    match ParsePrerequisites(last.prerequisites)
    case Some(e) => front[last.code := e]
    case None => front
  }

  /** The courses whose text stays unresolved, in document order. */
  function Unresolved(courses: seq<CatalogCourse>): seq<string> {
    if courses == [] then [] else
    var front, last := Unresolved(courses[..|courses| - 1]), courses[|courses| - 1];
    if ParsePrerequisites(last.prerequisites).None? then front + [last.code] else front
  }

  // ---- What acceptance means ----

  function CodesOf(courses: seq<CatalogCourse>): seq<string> {
    seq(|courses|, i requires 0 <= i < |courses| => courses[i].code)
  }

  /** Some course requires `code`, strictly or as a co-requisite. */
  ghost predicate Requires(document: CatalogDocument, dependent: string, code: string, relation: Relation) {
    var expressions := ExpressionsOf(document.courses);
    dependent in expressions && Reads(expressions[dependent], code, Strict, relation)
  }

  // ---- What the texts ask for ----

  /** The text is the yield of the tree. */
  ghost predicate Writes(source: Source, t: Tree) {
    source.Tokens? && Shaped(t, Phrase) && Yield(t) == source.tokens
  }

  /** A text is resolved if it is blank or in the grammar. */
  ghost predicate Resolved(source: Source) {
    source.Blank? || exists t :: Writes(source, t)
  }

  /** The text of course `i` is the last resolved one of its code. */
  ghost predicate Decides(courses: seq<CatalogCourse>, i: int) {
    0 <= i < |courses| && Resolved(courses[i].prerequisites)
    && forall j | i < j < |courses| && courses[j].code == courses[i].code :: !Resolved(courses[j].prerequisites)
  }

  lemma ParsedMeans(source: Source)
    ensures ParsePrerequisites(source).Some? <==> Resolved(source)
    ensures forall t | Writes(source, t) :: ParsePrerequisites(source) == Some(Grammar.Meaning(t))
    ensures source.Blank? ==> ParsePrerequisites(source) == Some(AllOf([]))
  {
    if source.Tokens? {
      match Parser.ParseAll(source.tokens)
      case Success(e) =>
        ParserDecidesGrammar(source.tokens, e);
      case Failure(_) =>
    }
    forall t | Writes(source, t) ensures ParsePrerequisites(source) == Some(Grammar.Meaning(t)) {
      ParserDecidesGrammar(source.tokens, Grammar.Meaning(t));
    }
  }

  lemma DecidesStep(courses: seq<CatalogCourse>, i: int)
    requires courses != []
    ensures var n := |courses| - 1;
      Decides(courses, i) <==>
        if i == n then Resolved(courses[n].prerequisites)
        else Decides(courses[..n], i) && !(courses[n].code == courses[i].code && Resolved(courses[n].prerequisites))
  {
    hide Resolved;
    var n := |courses| - 1;
    if Decides(courses[..n], i) && !(courses[n].code == courses[i].code && Resolved(courses[n].prerequisites)) {
      forall j | i < j < |courses| && courses[j].code == courses[i].code ensures !Resolved(courses[j].prerequisites) {
        assert j == n || courses[..n][j] == courses[j];
      }
    }
    if i < n && Decides(courses, i) {
      assert courses[..n][i] == courses[i];
    }
  }

  /** The expression kept for a code is that of its deciding text. */
  ghost predicate Keeps(courses: seq<CatalogCourse>, i: int, code: string) {
    Decides(courses, i) && courses[i].code == code && code in ExpressionsOf(courses)
    && ParsePrerequisites(courses[i].prerequisites) == Some(ExpressionsOf(courses)[code])
  }

  lemma {:induction false} ExpressionsMean(courses: seq<CatalogCourse>, code: string)
    ensures code in ExpressionsOf(courses) ==> exists i :: Keeps(courses, i, code)
    ensures forall i | Decides(courses, i) && courses[i].code == code :: Keeps(courses, i, code)
  {
    if courses != [] {
      var n := |courses| - 1;
      var front := courses[..n];
      ExpressionsMean(front, code);
      ParsedMeans(courses[n].prerequisites);
      hide Resolved, ParsePrerequisites, Decides;
      forall i ensures Keeps(courses, i, code) <==>
        if Resolved(courses[n].prerequisites) && courses[n].code == code then i == n else Keeps(front, i, code)
      {
        DecidesStep(courses, i);
        DecidesInRange(courses, i);
        DecidesInRange(front, i);
      }
      forall i | Decides(courses, i) && courses[i].code == code ensures Keeps(courses, i, code) {
        DecidesStep(courses, i);
        DecidesInRange(courses, i);
      }
    }
  }

  lemma DecidesInRange(courses: seq<CatalogCourse>, i: int)
    ensures Decides(courses, i) ==> 0 <= i < |courses|
  {
  }

  /** The deciding text of `dependent` is that of course `i`, is written by `t`, and reads `code`. */
  ghost predicate Asks(
    courses: seq<CatalogCourse>, i: int, t: Tree, dependent: string, code: string, relation: Relation)
  {
    Decides(courses, i) && courses[i].code == dependent && Writes(courses[i].prerequisites, t)
    && Reads(Grammar.Meaning(t), code, Strict, relation)
  }

  /** A course requires another exactly as the grammar tree of its deciding text reads it. */
  lemma RequiresMeans(document: CatalogDocument, dependent: string, code: string, relation: Relation)
    ensures Requires(document, dependent, code, relation) <==>
      exists i, t :: Asks(document.courses, i, t, dependent, code, relation)
  {
    var courses := document.courses;
    ExpressionsMean(courses, dependent);
    if Requires(document, dependent, code, relation) {
      var i :| Keeps(courses, i, dependent);
      ParsedMeans(courses[i].prerequisites);
      assert !AnyReads([], code, Strict, relation);
      assert !Reads(AllOf([]), code, Strict, relation);
      var t :| Writes(courses[i].prerequisites, t);
      assert Asks(courses, i, t, dependent, code, relation);
    }
    forall i, t | Asks(courses, i, t, dependent, code, relation) ensures Requires(document, dependent, code, relation) {
      assert Keeps(courses, i, dependent);
      ParsedMeans(courses[i].prerequisites);
    }
  }

  /** The unresolved courses are those whose text is neither blank nor in the grammar. */
  lemma {:induction false} UnresolvedMeans(courses: seq<CatalogCourse>, code: string)
    ensures code in Unresolved(courses) <==>
      exists i :: 0 <= i < |courses| && courses[i].code == code && !Resolved(courses[i].prerequisites)
  {
    if courses != [] {
      var front, n := courses[..|courses| - 1], |courses| - 1;
      UnresolvedMeans(front, code);
      ParsedMeans(courses[n].prerequisites);
      hide Resolved, ParsePrerequisites;
      assert forall i | 0 <= i < n :: front[i] == courses[i];
    }
  }

  /** Terms can be numbered so that strict prerequisites come earlier and co-requisites not later. */
  ghost predicate Ranks(document: CatalogDocument, rank: map<string, nat>) {
    forall dependent, code, relation | Requires(document, dependent, code, relation) ::
      && code in rank && dependent in rank && rank[code] <= rank[dependent]
      && (relation == Strict ==> rank[code] < rank[dependent])
  }

  ghost predicate EdgesRequire(document: CatalogDocument, edges: seq<GraphEdge>) {
    forall dependent, code, relation :: Requires(document, dependent, code, relation) <==>
      exists e :: e in edges && e.dependent == dependent && e.prerequisite == code && e.relation == relation
  }

  /** A strict edge inside a component of the graph. */
  ghost predicate StrictInside(edges: seq<GraphEdge>, C: set<string>) {
    exists e :: e in edges && e.relation == Strict && e.prerequisite in C && e.dependent in C
  }

  lemma WithinHasEdge(edges: seq<GraphEdge>, C: set<string>)
    requires IsComponent(Pairs(edges), C) && Reported(edges, C)
    ensures Within(edges, C) != []
    ensures ReportOf(edges, C).legitimateCorequisiteGroup <==> !StrictInside(edges, C)
  {
    ReportedIffCyclic(edges, C);
    var x :| x in C && OnCycle(Pairs(edges), x);
    var y :| (x, y) in Pairs(edges) && Reach(Pairs(edges), y, x);
    ReachEdge(Pairs(edges), x, y);
    assert Connected(Pairs(edges), x, y);
    var e :| e in edges && (e.prerequisite, e.dependent) == (x, y);
    assert e in Within(edges, C);
    var inside := Within(edges, C);
    if StrictInside(edges, C) {
      var s :| s in edges && s.relation == Strict && s.prerequisite in C && s.dependent in C;
      assert s in inside;
    }
    if !(forall s | s in inside :: s.relation == Corequisite) {
      var s :| s in inside && s.relation != Corequisite;
      assert s.relation == Strict;
    }
  }

  /** Components with a strict edge inside are cyclic. */
  lemma StrictInsideIsReported(edges: seq<GraphEdge>, C: set<string>)
    requires IsComponent(Pairs(edges), C) && StrictInside(edges, C)
    ensures Reported(edges, C)
  {
    var e :| e in edges && e.relation == Strict && e.prerequisite in C && e.dependent in C;
    assert (e.prerequisite, e.dependent) in Pairs(edges);
    assert Connected(Pairs(edges), e.prerequisite, e.dependent);
    assert OnCycle(Pairs(edges), e.prerequisite);
    ReportedIffCyclic(edges, C);
  }

  ghost predicate EdgeRanks(edges: seq<GraphEdge>, rank: map<string, nat>) {
    forall e | e in edges ::
      && e.prerequisite in rank && e.dependent in rank && rank[e.prerequisite] <= rank[e.dependent]
      && (e.relation == Strict ==> rank[e.prerequisite] < rank[e.dependent])
  }

  /** Counting components from the last emitted one backwards numbers the courses. */
  lemma EmissionRanks(edges: seq<GraphEdge>, comps: seq<set<string>>) returns (rank: map<string, nat>)
    requires EmissionOrder(edges, comps)
    requires forall i | 0 <= i < |comps| :: !StrictInside(edges, comps[i])
    ensures EdgeRanks(edges, rank)
  {
    var nodes := (set e | e in edges :: e.prerequisite) + (set e | e in edges :: e.dependent);
    forall x | x in nodes ensures Tarjan.Emitted(comps, x) {
    }
    rank := map x | x in nodes :: |comps| - Position(comps, x);
    forall e | e in edges ensures EdgeRanks([e], rank) {
      assert e.prerequisite in nodes && e.dependent in nodes;
      PositionOrder(edges, comps, e);
    }
    assert forall e | e in edges :: EdgeRanks([e], rank) && e in [e];
  }

  lemma PositionOrder(edges: seq<GraphEdge>, comps: seq<set<string>>, e: GraphEdge)
    requires EmissionOrder(edges, comps) && e in edges
    requires Tarjan.Emitted(comps, e.prerequisite) && Tarjan.Emitted(comps, e.dependent)
    requires forall i | 0 <= i < |comps| :: !StrictInside(edges, comps[i])
    ensures Position(comps, e.dependent) <= Position(comps, e.prerequisite)
    ensures e.relation == Strict ==> Position(comps, e.dependent) < Position(comps, e.prerequisite)
  {
    var i, j := Position(comps, e.prerequisite), Position(comps, e.dependent);
    assert (e.prerequisite, e.dependent) in Pairs(edges);
    assert Tarjan.EmittedBy(comps, i, e.dependent);
    var k :| 0 <= k <= i && k < |comps| && e.dependent in comps[k];
    assert j == k;
    var C := comps[i];
    assert e.dependent in C && e.relation == Strict ==> StrictInside(edges, C);
  }

  ghost function Position(comps: seq<set<string>>, x: string): (i: nat)
    requires Tarjan.Emitted(comps, x) && forall i, j | 0 <= i < j < |comps| :: comps[i] !! comps[j]
    ensures i < |comps| && x in comps[i]
    ensures forall k | 0 <= k < |comps| && x in comps[k] :: k == i
  {
    var i :| 0 <= i < |comps| && x in comps[i];
    assert forall k | 0 <= k < |comps| && x in comps[k] :: !(k < i) && !(i < k);
    i
  }

  /** A numbering never decreases along a walk, so no strict edge closes one. */
  lemma {:induction false} RankAlongWalk(edges: seq<GraphEdge>, rank: map<string, nat>, p: seq<string>)
    requires EdgeRanks(edges, rank) && IsWalk(Pairs(edges), p) && p[0] in rank
    ensures p[|p| - 1] in rank && rank[p[0]] <= rank[p[|p| - 1]]
    decreases |p|
  {
    if |p| > 1 {
      assert StepAt(Pairs(edges), p, 0);
      var e :| e in edges && (e.prerequisite, e.dependent) == (p[0], p[1]);
      forall i | 0 <= i < |p[1..]| - 1 ensures StepAt(Pairs(edges), p[1..], i) {
        assert StepAt(Pairs(edges), p, i + 1);
      }
      RankAlongWalk(edges, rank, p[1..]);
    }
  }

  lemma RankExcludesStrictInside(edges: seq<GraphEdge>, rank: map<string, nat>, C: set<string>)
    requires EdgeRanks(edges, rank) && IsComponent(Pairs(edges), C)
    ensures !StrictInside(edges, C)
  {
    if StrictInside(edges, C) {
      var e :| e in edges && e.relation == Strict && e.prerequisite in C && e.dependent in C;
      assert Connected(Pairs(edges), e.dependent, e.prerequisite);
      var p :| WalkBetween(Pairs(edges), p, e.dependent, e.prerequisite);
      RankAlongWalk(edges, rank, p);
    }
  }

  /** The strict-cycle errors are empty exactly when the catalog can be layered. */
  lemma AcceptedIffRanked(document: CatalogDocument, edges: seq<GraphEdge>, comps: seq<set<string>>)
    requires EmissionOrder(edges, comps) && EdgesRequire(document, edges)
    ensures (forall r | r in Reports(edges, comps) :: r.legitimateCorequisiteGroup) <==>
      exists rank :: Ranks(document, rank)
  {
    if forall r | r in Reports(edges, comps) :: r.legitimateCorequisiteGroup {
      forall i | 0 <= i < |comps| ensures !StrictInside(edges, comps[i]) {
        if StrictInside(edges, comps[i]) {
          StrictInsideIsReported(edges, comps[i]);
          WithinHasEdge(edges, comps[i]);
          ReportsMembers(edges, comps, ReportOf(edges, comps[i]));
        }
      }
      var rank := EmissionRanks(edges, comps);
      RanksAreEdgeRanks(document, edges, rank);
    }
    if rank :| Ranks(document, rank) {
      RanksAreEdgeRanks(document, edges, rank);
      forall r | r in Reports(edges, comps) ensures r.legitimateCorequisiteGroup {
        ReportsMembers(edges, comps, r);
        var i :| 0 <= i < |comps| && Reported(edges, comps[i]) && r == ReportOf(edges, comps[i]);
        RankExcludesStrictInside(edges, rank, comps[i]);
        WithinHasEdge(edges, comps[i]);
      }
    }
  }

  lemma RanksAreEdgeRanks(document: CatalogDocument, edges: seq<GraphEdge>, rank: map<string, nat>)
    requires EdgesRequire(document, edges)
    ensures Ranks(document, rank) <==> EdgeRanks(edges, rank)
  {
    if Ranks(document, rank) {
      forall e | e in edges ensures Requires(document, e.dependent, e.prerequisite, e.relation) {
      }
    }
  }

  // ---- The validation itself ----

  ghost predicate Accepts(document: CatalogDocument) {
    && Distinct(CodesOf(document.courses))
    && Distinct(document.terms)
    && (forall dependent, code, relation | Requires(document, dependent, code, relation) ::
      code in CodesOf(document.courses))
    && (exists rank :: Ranks(document, rank))
  }

  /** The errors there are in a catalog. */
  ghost predicate CatalogFault(document: CatalogDocument, error: CatalogError) {
    match error
    case DuplicateCourses => !Distinct(CodesOf(document.courses))
    case DuplicateTerms => !Distinct(document.terms)
    case UnknownPrerequisite(code) => code !in CodesOf(document.courses) && Needed(document, code)
    case StrictCycle(nodes) => exists edges :: EdgesRequire(document, edges) && CycleFault(edges, nodes)
  }

  /** Some course requires `code`. */
  ghost predicate Needed(document: CatalogDocument, code: string) {
    exists dependent, relation :: Requires(document, dependent, code, relation)
  }

  /** `nodes` lists a cyclic component of the graph that holds a strict edge. */
  ghost predicate CycleFault(edges: seq<GraphEdge>, nodes: seq<string>) {
    exists r :: NamesCyclicComponent(edges, r) && !r.legitimateCorequisiteGroup && r.nodes == nodes
  }

  /** Which components are cyclic does not depend on the order and the texts of the edges. */
  lemma CycleFaultOfAny(document: CatalogDocument, edges: seq<GraphEdge>, other: seq<GraphEdge>, nodes: seq<string>)
    requires EdgesRequire(document, edges) && EdgesRequire(document, other) && CycleFault(other, nodes)
    ensures CycleFault(edges, nodes)
  {
    SamePairs(document, edges, other);
    SamePairs(document, other, edges);
    var r :| NamesCyclicComponent(other, r) && !r.legitimateCorequisiteGroup && r.nodes == nodes;
    var C :| IsCyclicComponent(Pairs(other), C) && r == ReportOf(other, C);
    ReportedIffCyclic(other, C);
    ReportedIffCyclic(edges, C);
    WithinHasEdge(other, C);
    WithinHasEdge(edges, C);
    StrictInsideOfAny(document, edges, other, C);
    assert NamesCyclicComponent(edges, ReportOf(edges, C));
  }

  lemma SamePairs(document: CatalogDocument, edges: seq<GraphEdge>, other: seq<GraphEdge>)
    requires EdgesRequire(document, edges) && EdgesRequire(document, other)
    ensures Pairs(edges) == Pairs(other)
  {
    forall p | p in Pairs(edges) ensures p in Pairs(other) {
      var e :| e in edges && p == (e.prerequisite, e.dependent);
      assert Requires(document, e.dependent, e.prerequisite, e.relation);
    }
    forall p | p in Pairs(other) ensures p in Pairs(edges) {
      var e :| e in other && p == (e.prerequisite, e.dependent);
      assert Requires(document, e.dependent, e.prerequisite, e.relation);
    }
  }

  lemma StrictInsideOfAny(document: CatalogDocument, edges: seq<GraphEdge>, other: seq<GraphEdge>, C: set<string>)
    requires EdgesRequire(document, edges) && EdgesRequire(document, other) && StrictInside(other, C)
    ensures StrictInside(edges, C)
  {
    var e :| e in other && e.relation == Strict && e.prerequisite in C && e.dependent in C;
    assert Requires(document, e.dependent, e.prerequisite, Strict);
  }

  function UnknownErrors(codes: seq<string>): (errors: seq<CatalogError>)
    ensures |errors| == |codes|
    ensures forall error :: error in errors <==> error.UnknownPrerequisite? && error.code in codes
  {
    var errors := seq(|codes|, i requires 0 <= i < |codes| => UnknownPrerequisite(codes[i]));
    assert forall i | 0 <= i < |codes| :: errors[i] == UnknownPrerequisite(codes[i]);
    errors
  }

  function CycleErrors(reports: seq<CycleReport>): (errors: seq<CatalogError>)
    ensures forall error :: error in errors <==>
              exists r :: r in reports && !r.legitimateCorequisiteGroup && error == StrictCycle(r.nodes)
    ensures errors == [] <==> forall r | r in reports :: r.legitimateCorequisiteGroup
  {
    if reports == [] then [] else
    var front, last := CycleErrors(reports[..|reports| - 1]), reports[|reports| - 1];
    assert reports == reports[..|reports| - 1] + [last];
    if last.legitimateCorequisiteGroup then front else front + [StrictCycle(last.nodes)]
  }

  method ValidateCatalog(document: CatalogDocument) returns (result: CatalogValidation)
    ensures result.errors == [] <==> Accepts(document)
    ensures forall error :: error in result.errors <==> CatalogFault(document, error)
    ensures result.warnings == Unresolved(document.courses) && result.unsupportedCourses == |result.warnings|
    ensures result.parsedCourses + result.unsupportedCourses == |document.courses|
  {
    hide EdgesRequire, Requires, Ranks;
    var errors: seq<CatalogError> := [];
    var courses := document.courses;
    var codes := CodesOf(courses);
    DistinctIffCount(codes);
    if |codes| != |SetOf(codes)| {
      errors := errors + [DuplicateCourses];
    }
    DistinctIffCount(document.terms);
    if |SetOf(document.terms)| != |document.terms| {
      errors := errors + [DuplicateTerms];
    }
    var expressions, warnings, parsed := CollectExpressions(courses);
    var graph := new PrerequisiteGraph(expressions, map[]);
    GraphEdgesRequire(document, graph);
    var references := ReferenceFindings(document, graph, codes);
    var cycles := CycleFindings(document, graph);
    result := CatalogValidation(errors + references + cycles, warnings, parsed, |warnings|);
  }

  method ReferenceFindings(document: CatalogDocument, graph: PrerequisiteGraph, codes: seq<string>)
    returns (errors: seq<CatalogError>)
    requires EdgesRequire(document, graph.edges)
    ensures errors == [] <==>
      forall dependent, code, relation | Requires(document, dependent, code, relation) :: code in codes
    ensures forall error :: error in errors <==>
      error.UnknownPrerequisite? && error.code !in codes && Needed(document, error.code)
  {
    hide EdgesRequire, Requires, Needed;
    forall code ensures Needed(document, code) <==> exists e :: e in graph.edges && e.prerequisite == code {
      NeededIsRead(document, graph.edges, code);
    }
    var references := graph.UnknownReferences(SetOf(codes));
    var unknown := SortedSet(references);
    assert |unknown| == |references|;
    KnownReferences(document, graph.edges, SetOf(codes), references);
    errors := UnknownErrors(unknown);
  }

  lemma NeededIsRead(document: CatalogDocument, edges: seq<GraphEdge>, code: string)
    requires EdgesRequire(document, edges)
    ensures Needed(document, code) <==> exists e :: e in edges && e.prerequisite == code
  {
    if e :| e in edges && e.prerequisite == code {
      assert Requires(document, e.dependent, code, e.relation);
    }
  }

  method CycleFindings(document: CatalogDocument, graph: PrerequisiteGraph) returns (errors: seq<CatalogError>)
    requires EdgesRequire(document, graph.edges)
    ensures errors == [] <==> exists rank :: Ranks(document, rank)
    ensures forall error :: error in errors <==> error.StrictCycle? && CatalogFault(document, error)
  {
    hide EdgesRequire, Requires, Ranks, CycleFault;
    var reports := graph.StrictCycles();
    ghost var comps :| EmissionOrder(graph.edges, comps) && reports == Reports(graph.edges, comps);
    AcceptedIffRanked(document, graph.edges, comps);
    errors := CycleErrors(reports);
    forall error ensures error in errors <==> error.StrictCycle? && CatalogFault(document, error) {
      if error.StrictCycle? {
        CycleErrorIsFault(document, graph.edges, reports, error.nodes);
      }
    }
  }

  method CollectExpressions(courses: seq<CatalogCourse>)
    returns (expressions: map<string, Expr>, warnings: seq<string>, parsed: nat)
    ensures expressions == ExpressionsOf(courses) && warnings == Unresolved(courses)
    ensures parsed + |warnings| == |courses|
  {
    expressions, warnings, parsed := map[], [], 0;
    for i := 0 to |courses|
      invariant expressions == ExpressionsOf(courses[..i]) && warnings == Unresolved(courses[..i])
      invariant parsed + |warnings| == i
    {
      assert courses[..i + 1][..i] == courses[..i];
      match ParsePrerequisites(courses[i].prerequisites) {
        case Some(e) =>
          parsed := parsed + 1;
          expressions := expressions[courses[i].code := e];
        case None =>
          warnings := warnings + [courses[i].code];
      }
    }
    assert courses[..|courses|] == courses;
  }

  lemma GraphEdgesRequire(document: CatalogDocument, graph: PrerequisiteGraph)
    requires graph.Valid() && graph.expressions == ExpressionsOf(document.courses)
    ensures EdgesRequire(document, graph.edges)
  {
    forall dependent, code, relation ensures Requires(document, dependent, code, relation) <==>
      exists e :: e in graph.edges && e.dependent == dependent && e.prerequisite == code && e.relation == relation
    {
      var source := graph.SourceText(dependent);
      var edge := GraphEdge(code, dependent, relation, source);
      if dependent in graph.expressions {
        EdgesAreReadings(graph.expressions[dependent], dependent, Strict, source, edge);
        if Requires(document, dependent, code, relation) {
          assert edge in graph.CourseEdges(dependent);
          assert edge in graph.edges;
        }
      }
      if e :| e in graph.edges && e.dependent == dependent && e.prerequisite == code && e.relation == relation {
        EdgesAreReadings(graph.expressions[dependent], dependent, Strict, source, e);
      }
    }
  }

  lemma KnownReferences(document: CatalogDocument, edges: seq<GraphEdge>, codes: set<string>, unknown: set<string>)
    requires EdgesRequire(document, edges)
    requires forall c :: c in unknown <==> c !in codes && exists e :: e in edges && e.prerequisite == c
    ensures |unknown| == 0 <==>
            forall dependent, code, relation | Requires(document, dependent, code, relation) :: code in codes
  {
    if unknown == {} {
      forall dependent, code, relation | Requires(document, dependent, code, relation) ensures code in codes {
        assert code !in unknown;
      }
    } else {
      var c :| c in unknown;
      var e :| e in edges && e.prerequisite == c;
      assert Requires(document, e.dependent, c, e.relation);
    }
  }

  lemma CycleErrorIsFault(
    document: CatalogDocument, edges: seq<GraphEdge>, reports: seq<CycleReport>, nodes: seq<string>)
    requires EdgesRequire(document, edges) && forall r :: r in reports <==> NamesCyclicComponent(edges, r)
    ensures StrictCycle(nodes) in CycleErrors(reports) <==> CatalogFault(document, StrictCycle(nodes))
  {
    assert StrictCycle(nodes) in CycleErrors(reports) <==> CycleFault(edges, nodes);
    if other :| EdgesRequire(document, other) && CycleFault(other, nodes) {
      CycleFaultOfAny(document, edges, other, nodes);
    }
  }
}
