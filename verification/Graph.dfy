/** The prerequisite graph of a catalog: its edges, its strict cycles, its dependency paths. */
module Graph {
  import opened Ast
  import opened Bfs
  import opened Digraph
  import opened Ordering
  import opened Outcomes
  import opened Tarjan

  datatype Relation = Corequisite | Strict

  datatype GraphEdge = GraphEdge(prerequisite: string, dependent: string, relation: Relation, sourceText: string)

  datatype CycleReport = CycleReport(nodes: seq<string>, relations: seq<Relation>, legitimateCorequisiteGroup: bool)

  // ---- Edges of an expression ----

  function EdgesOf(e: Expr, dependent: string, relation: Relation, source: string): seq<GraphEdge> {
    match e
    case CourseRef(code) => [GraphEdge(code, dependent, relation, source)]
    case GradeAtLeast(course, _) => [GraphEdge(course, dependent, relation, source)]
    case CoRequisite(items) => EdgesOfAll(items, dependent, Corequisite, source)
    case AllOf(items) => EdgesOfAll(items, dependent, relation, source)
    case AnyOf(items) => EdgesOfAll(items, dependent, relation, source)
    case Predicate(_, _) => []
    case CreditsAtLeast(_) => []
  }

  function EdgesOfAll(items: seq<Expr>, dependent: string, relation: Relation, source: string): seq<GraphEdge> {
    if items == [] then []
    else
      EdgesOfAll(items[..|items| - 1], dependent, relation, source)
      + EdgesOf(items[|items| - 1], dependent, relation, source)
  }

  /** `e` reads course `code`, under a COREQ exactly when `relation` says so. */
  ghost predicate Reads(e: Expr, code: string, outer: Relation, relation: Relation) {
    match e
    case CourseRef(c) => c == code && relation == outer
    case GradeAtLeast(c, _) => c == code && relation == outer
    case CoRequisite(items) => AnyReads(items, code, Corequisite, relation)
    case AllOf(items) => AnyReads(items, code, outer, relation)
    case AnyOf(items) => AnyReads(items, code, outer, relation)
    case _ => false
  }

  ghost predicate AnyReads(items: seq<Expr>, code: string, outer: Relation, relation: Relation) {
    exists i :: 0 <= i < |items| && Reads(items[i], code, outer, relation)
  }

  lemma AnyReadsSplit(items: seq<Expr>, code: string, outer: Relation, relation: Relation)
    requires items != []
    ensures AnyReads(items, code, outer, relation) <==>
            AnyReads(items[..|items| - 1], code, outer, relation) || Reads(items[|items| - 1], code, outer, relation)
  {
    assert forall i | 0 <= i < |items| - 1 :: items[..|items| - 1][i] == items[i];
  }

  /** The edges of an expression are exactly the course readings inside it. */
  lemma {:induction false} EdgesAreReadings(
    e: Expr, dependent: string, outer: Relation, source: string, edge: GraphEdge)
    ensures edge in EdgesOf(e, dependent, outer, source) <==>
            edge.dependent == dependent && edge.sourceText == source
            && Reads(e, edge.prerequisite, outer, edge.relation)
  {
    match e
    case CoRequisite(items) => EdgesOfAllAreReadings(items, dependent, Corequisite, source, edge);
    case AllOf(items) => EdgesOfAllAreReadings(items, dependent, outer, source, edge);
    case AnyOf(items) => EdgesOfAllAreReadings(items, dependent, outer, source, edge);
    case _ =>
  }

  lemma {:induction false} EdgesOfAllAreReadings(
    items: seq<Expr>, dependent: string, outer: Relation, source: string, edge: GraphEdge)
    ensures edge in EdgesOfAll(items, dependent, outer, source) <==>
            edge.dependent == dependent && edge.sourceText == source
            && AnyReads(items, edge.prerequisite, outer, edge.relation)
  {
    if items != [] {
      var front, last := items[..|items| - 1], items[|items| - 1];
      EdgesOfAllAreReadings(front, dependent, outer, source, edge);
      EdgesAreReadings(last, dependent, outer, source, edge);
      AnyReadsSplit(items, edge.prerequisite, outer, edge.relation);
    }
  }

  // ---- Cycle reports ----

  /** The same edges read from dependent to prerequisite. */
  ghost function Requirements(edges: seq<GraphEdge>): Edges {
    set e | e in edges :: (e.dependent, e.prerequisite)
  }

  ghost function Pairs(edges: seq<GraphEdge>): Edges {
    set e | e in edges :: (e.prerequisite, e.dependent)
  }

  function Within(edges: seq<GraphEdge>, component: set<string>): (r: seq<GraphEdge>)
    ensures forall e :: e in r <==> e in edges && e.prerequisite in component && e.dependent in component
  {
    if edges == [] then [] else
    var rest := Within(edges[1..], component);
    if edges[0].prerequisite in component && edges[0].dependent in component then [edges[0]] + rest else rest
  }

  /** The distinct relations of some edges, in alphabetical order. */
  function Relations(edges: seq<GraphEdge>): (r: seq<Relation>)
    ensures r == [Corequisite] <==> edges != [] && forall e | e in edges :: e.relation == Corequisite
  {
    var coreq := exists e :: e in edges && e.relation == Corequisite;
    var strict := exists e :: e in edges && e.relation == Strict;
    assert edges != [] ==> edges[0] in edges;
    if coreq && strict then [Corequisite, Strict]
    else if coreq then [Corequisite]
    else if strict then [Strict]
    else []
  }

  predicate Reported(edges: seq<GraphEdge>, component: set<string>) {
    |component| > 1 || exists e :: e in Within(edges, component) && e.prerequisite == e.dependent
  }

  function ReportOf(edges: seq<GraphEdge>, component: set<string>): CycleReport {
    var relations := Relations(Within(edges, component));
    CycleReport(SortedSet(component), relations, relations == [Corequisite])
  }

  /** A report names exactly the nodes of the component, in order, and the relations of the edges inside. */
  lemma ReportMeans(edges: seq<GraphEdge>, component: set<string>)
    ensures var r := ReportOf(edges, component);
      && (forall n :: n in r.nodes <==> n in component)
      && Distinct(r.nodes) && SortedBy(r.nodes, StrLeq)
      && (forall relation :: relation in r.relations <==>
        exists e :: e in edges && e.relation == relation && e.prerequisite in component && e.dependent in component)
      && (r.legitimateCorequisiteGroup <==> Corequisite in r.relations && Strict !in r.relations)
  {
    SortedSetSorts(component);
    var r, inside := ReportOf(edges, component), Within(edges, component);
    forall relation ensures relation in r.relations <==>
      exists e :: e in edges && e.relation == relation && e.prerequisite in component && e.dependent in component
    {
      assert relation in r.relations <==> exists e :: e in inside && e.relation == relation;
    }
  }

  /** The reports of a sequence of components, in emission order. */
  ghost function Reports(edges: seq<GraphEdge>, comps: seq<set<string>>): seq<CycleReport> {
    if comps == [] then [] else
    var front, last := comps[..|comps| - 1], comps[|comps| - 1];
    Reports(edges, front) + if Reported(edges, last) then [ReportOf(edges, last)] else []
  }

  lemma {:induction false} ReportsMembers(edges: seq<GraphEdge>, comps: seq<set<string>>, r: CycleReport)
    ensures r in Reports(edges, comps) <==>
            exists i :: 0 <= i < |comps| && Reported(edges, comps[i]) && r == ReportOf(edges, comps[i])
  {
    hide Reported, ReportOf;
    if comps != [] {
      var front := comps[..|comps| - 1];
      ReportsMembers(edges, front, r);
      assert forall i | 0 <= i < |front| :: front[i] == comps[i];
    }
  }

  /** `n` is a node of the graph. */
  ghost predicate Touches(edges: seq<GraphEdge>, n: string) {
    exists x :: x in edges && (n == x.prerequisite || n == x.dependent)
  }

  ghost predicate AdjacencyOf(adjacency: map<string, seq<(string, Relation)>>, edges: seq<GraphEdge>) {
    && (forall n :: n in adjacency <==> Touches(edges, n))
    && (forall n, d | n in adjacency :: Lists(adjacency[n], d) <==> (n, d) in Pairs(edges))
  }

  ghost predicate Lists(neighbours: seq<(string, Relation)>, d: string) {
    exists k :: 0 <= k < |neighbours| && neighbours[k].0 == d
  }

  /** The components of `edges` in the order Tarjan's algorithm pops them. */
  ghost predicate EmissionOrder(edges: seq<GraphEdge>, comps: seq<set<string>>) {
    && Layered(Pairs(edges), comps)
    && (forall x :: Emitted(comps, x) <==> exists e :: e in edges && (x == e.prerequisite || x == e.dependent))
  }

  lemma ReportedIffCyclic(edges: seq<GraphEdge>, C: set<string>)
    requires IsComponent(Pairs(edges), C)
    ensures Reported(edges, C) <==> exists x :: x in C && OnCycle(Pairs(edges), x)
  {
    ComponentCycle(Pairs(edges), C);
    if e :| e in Within(edges, C) && e.prerequisite == e.dependent {
      assert (e.prerequisite, e.prerequisite) in Pairs(edges);
    }
    if x :| x in C && (x, x) in Pairs(edges) {
      var e :| e in edges && (e.prerequisite, e.dependent) == (x, x);
      assert e in Within(edges, C);
    }
  }

  /** A cyclic component is one of the emitted sets. */
  lemma CyclicIsEmitted(edges: seq<GraphEdge>, comps: seq<set<string>>, C: set<string>, x: string) returns (i: nat)
    requires EmissionOrder(edges, comps) && IsComponent(Pairs(edges), C) && x in C && OnCycle(Pairs(edges), x)
    ensures i < |comps| && comps[i] == C
  {
    var y :| (x, y) in Pairs(edges);
    assert Emitted(comps, x);
    i :| 0 <= i < |comps| && x in comps[i];
    assert IsComponent(Pairs(edges), comps[i]);
    forall z ensures z in C <==> z in comps[i] {
      assert z in C <==> Connected(Pairs(edges), x, z);
    }
  }

  /** `r` is the report of a strongly connected component that holds a cycle. */
  ghost predicate NamesCyclicComponent(edges: seq<GraphEdge>, r: CycleReport) {
    exists C :: IsCyclicComponent(Pairs(edges), C) && r == ReportOf(edges, C)
  }

  ghost predicate IsCyclicComponent(E: Edges, C: set<string>) {
    IsComponent(E, C) && exists x :: x in C && OnCycle(E, x)
  }

  /** The reports name exactly the strongly connected components that hold a cycle. */
  lemma ReportsAreCyclicComponents(edges: seq<GraphEdge>, comps: seq<set<string>>, r: CycleReport)
    requires EmissionOrder(edges, comps)
    ensures r in Reports(edges, comps) <==> NamesCyclicComponent(edges, r)
  {
    ReportsMembers(edges, comps, r);
    if i :| 0 <= i < |comps| && Reported(edges, comps[i]) && r == ReportOf(edges, comps[i]) {
      ReportedIffCyclic(edges, comps[i]);
      assert IsCyclicComponent(Pairs(edges), comps[i]);
    }
    if C :| IsCyclicComponent(Pairs(edges), C) && r == ReportOf(edges, C) {
      var x :| x in C && OnCycle(Pairs(edges), x);
      ReportedIffCyclic(edges, C);
      var i := CyclicIsEmitted(edges, comps, C, x);
    }
  }

  /** Every node is in exactly one component. */
  lemma ComponentsPartition(edges: seq<GraphEdge>, comps: seq<set<string>>)
    requires EmissionOrder(edges, comps)
    ensures forall e | e in edges :: Emitted(comps, e.prerequisite) && Emitted(comps, e.dependent)
    ensures forall i, j, x | 0 <= i < |comps| && 0 <= j < |comps| && x in comps[i] && x in comps[j] :: i == j
  {
    hide IsComponent, EmittedBy;
    assert forall i, j | 0 <= i < j < |comps| :: comps[i] !! comps[j];
  }

  /** A node on a cycle has its component reported. */
  lemma CycleIsReported(edges: seq<GraphEdge>, comps: seq<set<string>>, x: string)
    requires EmissionOrder(edges, comps) && OnCycle(Pairs(edges), x)
    ensures Reports(edges, comps) != []
  {
    hide Reports, ReportOf, IsComponent, EmittedBy;
    var y :| (x, y) in Pairs(edges);
    assert Emitted(comps, x);
    var i :| 0 <= i < |comps| && x in comps[i];
    assert IsCyclicComponent(Pairs(edges), comps[i]);
    ReportsAreCyclicComponents(edges, comps, ReportOf(edges, comps[i]));
  }

  /** There are no reports exactly when the graph is acyclic. */
  lemma NoReportsIffAcyclic(edges: seq<GraphEdge>, comps: seq<set<string>>)
    requires EmissionOrder(edges, comps)
    ensures Reports(edges, comps) == [] <==> Acyclic(Pairs(edges))
  {
    hide Reports, EmissionOrder, ReportOf, IsComponent, OnCycle;
    if x :| OnCycle(Pairs(edges), x) {
      CycleIsReported(edges, comps, x);
    }
    if Reports(edges, comps) != [] {
      ReportsAreCyclicComponents(edges, comps, Reports(edges, comps)[0]);
    }
  }

  // ---- The depth-first search with its shared stack ----

  /** Earlier nodes keep their numbers. */
  ghost predicate Keeps(num0: map<string, nat>, num1: map<string, nat>) {
    forall x | x in num0 :: x in num1 && num1[x] == num0[x]
  }

  /** Every edge from the segment to an entry below it has been folded into `bound`. */
  ghost predicate Bounds(E: Edges, num: map<string, nat>, segment: seq<string>, below: seq<string>, bound: nat) {
    forall x, y | x in segment && y in below && (x, y) in E :: y in num && bound <= num[y]
  }

  /** `bound` is the number of a stack entry that `node` reaches. */
  ghost predicate Witnessed(E: Edges, num: map<string, nat>, stack: seq<string>, node: string, bound: nat) {
    exists y :: y in stack && y in num && num[y] == bound && Reach(E, node, y)
  }

  /** The neighbours are visited, and those below the current segment are folded into `bound`. */
  ghost predicate Scanned(neighbours: seq<(string, Relation)>, num: map<string, nat>, below: seq<string>, bound: nat) {
    forall n | n in neighbours :: n.0 in num && (n.0 in below ==> bound <= num[n.0])
  }

  ghost predicate SuccessorsDone(E: Edges, node: string, num: map<string, nat>, below: seq<string>, bound: nat) {
    forall z | (node, z) in E :: z in num && (z in below ==> bound <= num[z])
  }

  lemma GrayOnStack(E: Edges, num: map<string, nat>, stack: seq<string>, gray: set<string>, comps: seq<set<string>>)
    requires Coherent(E, num, stack, gray, comps)
    ensures forall g | g in gray :: g in stack
    ensures forall x | x in stack :: x in num
  {
  }

  lemma FreshNotBelow(
    E: Edges, num: map<string, nat>, stack: seq<string>, gray: set<string>, comps: seq<set<string>>, x: string)
    requires Coherent(E, num, stack, gray, comps) && x !in num
    ensures x !in stack
  {
  }

  /** What a finished visit of `child` contributes to its caller `node`. */
  lemma FoldChild(
    E: Edges, num0: map<string, nat>, num1: map<string, nat>, below: seq<string>, top: seq<string>,
    added: seq<string>, node: string, child: string, bound: nat, childBound: nat)
    requires Keeps(num0, num1) && (node, child) in E && top != []
    requires Bounds(E, num0, top[1..], below, bound) && Witnessed(E, num0, below + top, node, bound)
    requires Bounds(E, num1, added, below + top, childBound)
    requires Witnessed(E, num1, below + top + added, child, childBound) || bound <= childBound
    ensures Bounds(E, num1, (top + added)[1..], below, Min(bound, childBound))
    ensures Witnessed(E, num1, below + (top + added), node, Min(bound, childBound))
  {
    var stack := below + (top + added);
    assert stack == below + top + added;
    assert (top + added)[1..] == top[1..] + added;
    forall x, y | x in (top + added)[1..] && y in below && (x, y) in E
      ensures y in num1 && Min(bound, childBound) <= num1[y]
    {
      if x in added {
        assert y in below + top;
      }
    }
    if childBound < bound {
      var y :| y in stack && y in num1 && num1[y] == childBound && Reach(E, child, y);
      ReachEdge(E, node, child);
      ReachTransitive(E, node, child, y);
    } else {
      var y :| y in below + top && y in num0 && num0[y] == bound && Reach(E, node, y);
      assert y in stack && num1[y] == bound;
    }
  }

  class SccSearch {
    const edges: seq<GraphEdge>
    const adjacency: map<string, seq<(string, Relation)>>
    var index: nat
    var indices: map<string, nat>
    var low: map<string, nat>
    var stack: seq<string>
    var onStack: set<string>
    var reports: seq<CycleReport>
    ghost var gray: set<string>
    ghost var comps: seq<set<string>>

    ghost predicate Valid()
      reads this
    {
      && AdjacencyOf(adjacency, edges)
      && indices.Keys == low.Keys && indices.Keys <= adjacency.Keys
      && index == |indices|
      && onStack == Elements(stack)
      && reports == Reports(edges, comps)
      && Coherent(Pairs(edges), indices, stack, gray, comps)
    }

    constructor (edges: seq<GraphEdge>, adjacency: map<string, seq<(string, Relation)>>)
      requires AdjacencyOf(adjacency, edges)
      ensures Valid() && gray == {} && this.edges == edges && this.adjacency == adjacency
    {
      this.edges, this.adjacency := edges, adjacency;
      index, indices, low, stack, onStack, reports := 0, map[], map[], [], {}, [];
      gray, comps := {}, [];
    }

    method Visit(node: string)
      requires Valid() && node in adjacency && node !in indices
      requires forall g | g in gray :: Reach(Pairs(edges), g, node)
      modifies this
      ensures Valid() && gray == old(gray) && node in indices
      ensures Keeps(old(indices), indices) && Keeps(old(low), low)
      ensures |old(stack)| <= |stack| && stack[..|old(stack)|] == old(stack)
      ensures low[node] <= indices[node] && |old(indices)| <= indices[node]
      ensures Bounds(Pairs(edges), indices, stack[|old(stack)|..], old(stack), low[node])
      ensures (stack == old(stack) && low[node] == indices[node])
        || Witnessed(Pairs(edges), indices, stack, node, low[node])
      decreases adjacency.Keys - indices.Keys, 0
    {
      hide Coherent, Reports, AdjacencyOf, Pairs, Reach, Bounds, Witnessed;
      ghost var below := stack;
      GrayOnStack(Pairs(edges), indices, stack, gray, comps);
      Enter(node);
      ghost var top := [node];
      assert top[1..] == [];
      ReachSelf(Pairs(edges), node);
      for i := 0 to |adjacency[node]|
        invariant Scanning(node, i, below, top, old(gray)) && indices[node] == |old(indices)|
        invariant Keeps(old(indices), indices) && Keeps(old(low), low)
      {
        top := Turn(node, i, below, top, old(gray));
      }
      assert adjacency[node][..|adjacency[node]|] == adjacency[node];
      NeighboursAreEdges(node, below, indices, low[node]);
      Finish(node, below, top);
    }

    /** The invariant of the neighbour loop once `i` neighbours are done; the stack is `below + top`. */
    ghost predicate Scanning(node: string, i: nat, below: seq<string>, top: seq<string>, gray0: set<string>)
      reads this
    {
      && Valid() && gray == gray0 + {node} && node in indices && i <= |adjacency[node]|
      && stack == below + top && top != [] && top[0] == node
      && low[node] <= indices[node] && Witnessed(Pairs(edges), indices, stack, node, low[node])
      && Bounds(Pairs(edges), indices, top[1..], below, low[node])
      && Scanned(adjacency[node][..i], indices, below, low[node])
    }

    method Turn(node: string, i: nat, ghost below: seq<string>, ghost top: seq<string>, ghost gray0: set<string>)
      returns (ghost top': seq<string>)
      requires Scanning(node, i, below, top, gray0) && i < |adjacency[node]|
      requires forall g | g in gray :: Reach(Pairs(edges), g, node)
      modifies this
      ensures Scanning(node, i + 1, below, top', gray0)
      ensures Keeps(old(indices), indices) && Keeps(old(low) - {node}, low)
      decreases adjacency.Keys - indices.Keys, 2
    {
      hide Coherent, Reports, AdjacencyOf, Pairs, Reach, Bounds, Witnessed;
      top' := top;
      var neighbour := adjacency[node][i].0;
      NeighbourIsEdge(node, i);
      if neighbour !in indices {
        FreshNotBelow(Pairs(edges), indices, stack, gray, comps, neighbour);
        top' := VisitNeighbour(node, neighbour, below, top);
      } else if neighbour in onStack {
        FoldIndex(node, neighbour, below, top);
      } else {
        assert neighbour !in below by {
          assert neighbour !in stack;
        }
      }
      assert adjacency[node][..i + 1] == adjacency[node][..i] + [adjacency[node][i]];
    }

    lemma NeighbourIsEdge(node: string, i: nat)
      requires AdjacencyOf(adjacency, edges) && node in adjacency && i < |adjacency[node]|
      ensures (node, adjacency[node][i].0) in Pairs(edges) && adjacency[node][i].0 in adjacency
    {
      assert Lists(adjacency[node], adjacency[node][i].0);
      assert (node, adjacency[node][i].0) in Pairs(edges);
    }

    lemma NeighboursAreEdges(node: string, below: seq<string>, num: map<string, nat>, bound: nat)
      requires AdjacencyOf(adjacency, edges) && node in adjacency
      requires Scanned(adjacency[node], num, below, bound)
      ensures SuccessorsDone(Pairs(edges), node, num, below, bound)
    {
      forall z | (node, z) in Pairs(edges) ensures z in num && (z in below ==> bound <= num[z]) {
        assert Lists(adjacency[node], z);
        var k :| 0 <= k < |adjacency[node]| && adjacency[node][k].0 == z;
        assert adjacency[node][k] in adjacency[node];
      }
    }

    method VisitAll(nodes: seq<string>)
      requires Valid() && gray == {} && forall n | n in nodes :: n in adjacency
      modifies this
      ensures Valid() && gray == {} && forall n | n in nodes :: n in indices
    {
      hide Coherent, Reports, AdjacencyOf, Pairs, Reach, Bounds, Witnessed;
      for i := 0 to |nodes|
        invariant Valid() && gray == {}
        invariant forall n | n in nodes[..i] :: n in indices
      {
        if nodes[i] !in indices {
          Visit(nodes[i]);
        }
        assert nodes[..i + 1] == nodes[..i] + [nodes[i]];
      }
      assert nodes[..|nodes|] == nodes;
    }

    /** At the end of the outer loop nothing is left on the stack, and every node is in a component. */
    lemma Complete()
      requires Valid() && gray == {} && forall n | n in adjacency :: n in indices
      ensures EmissionOrder(edges, comps)
    {
      NothingPending(Pairs(edges), indices, stack);
    }

    lemma NothingPending(E: Edges, num: map<string, nat>, stack: seq<string>)
      requires (forall x | x in stack :: x in num) && Anchored(E, num, stack, {})
      ensures stack == []
    {
      assert stack != [] ==> HasAnchor(E, num, {}, stack[0]);
    }

    /** Numbers a node and pushes it. */
    method Enter(node: string)
      requires Valid() && node in adjacency && node !in indices
      requires forall g | g in gray :: Reach(Pairs(edges), g, node)
      modifies this
      ensures Valid() && gray == old(gray) + {node} && stack == old(stack) + [node]
      ensures indices == old(indices)[node := |old(indices)|] && low == old(low)[node := |old(indices)|]
      ensures Witnessed(Pairs(edges), indices, stack, node, low[node])
      ensures Bounds(Pairs(edges), indices, [], old(stack), low[node])
      ensures Keeps(old(indices), indices) && Keeps(old(low), low)
    {
      hide Coherent, Reports, AdjacencyOf, Pairs, Reach;
      PushKeeps(Pairs(edges), indices, stack, gray, comps, node);
      indices := indices[node := index];
      low := low[node := index];
      index := index + 1;
      stack := stack + [node];
      onStack := onStack + {node};
      gray := gray + {node};
      ReachSelf(Pairs(edges), node);
    }

    /** One turn of the neighbour loop: visit an unvisited neighbour and fold its low number in. */
    method VisitNeighbour(node: string, neighbour: string, ghost below: seq<string>, ghost top: seq<string>)
      returns (ghost top': seq<string>)
      requires Valid() && node in gray && node in indices
      requires neighbour in adjacency && neighbour !in indices && (node, neighbour) in Pairs(edges)
      requires forall g | g in gray :: Reach(Pairs(edges), g, node)
      requires stack == below + top && top != [] && top[0] == node
      requires low[node] <= indices[node] && Witnessed(Pairs(edges), indices, stack, node, low[node])
      requires Bounds(Pairs(edges), indices, top[1..], below, low[node])
      modifies this
      ensures Valid() && gray == old(gray) && neighbour in indices && node in indices
      ensures Keeps(old(indices), indices) && Keeps(old(low) - {node}, low)
      ensures stack == below + top' && top' != [] && top'[0] == node
      ensures low[node] <= old(low)[node] && Witnessed(Pairs(edges), indices, stack, node, low[node])
      ensures Bounds(Pairs(edges), indices, top'[1..], below, low[node])
      ensures |old(indices)| < |indices|
      decreases adjacency.Keys - indices.Keys, 1
    {
      hide Coherent, Reports, AdjacencyOf, Pairs, Reach;
      ghost var E := Pairs(edges);
      ReachEdge(E, node, neighbour);
      forall g | g in gray ensures Reach(E, g, neighbour) {
        ReachTransitive(E, g, node, neighbour);
      }
      NumberBound(E, indices, stack, gray, comps, node);
      ghost var stack0 := stack;
      Visit(neighbour);
      MoreNumbers(old(indices), indices, neighbour);
      ghost var added := stack[|stack0|..];
      top' := top + added;
      assert stack == stack0 + added;
      FoldChild(E, old(indices), indices, below, top, added, node, neighbour, low[node], low[neighbour]);
      assert stack == below + top';
      low := low[node := Min(low[node], low[neighbour])];
    }

    lemma NumberBound(
      E: Edges, num: map<string, nat>, stack: seq<string>, gray: set<string>, comps: seq<set<string>>, node: string)
      requires Coherent(E, num, stack, gray, comps) && node in num
      ensures num[node] < |num|
    {
    }

    lemma MoreNumbers(num0: map<string, nat>, num1: map<string, nat>, x: string)
      requires forall k | k in num0 :: k in num1
      requires x in num1 && x !in num0
      ensures |num0| < |num1|
    {
      SubsetSize(num0.Keys, num1.Keys - {x});
    }

    /** The other turn: a neighbour still on the stack contributes its own number. */
    method FoldIndex(node: string, neighbour: string, ghost below: seq<string>, ghost top: seq<string>)
      requires Valid() && node in indices && neighbour in onStack && (node, neighbour) in Pairs(edges)
      requires stack == below + top && top != [] && top[0] == node
      requires low[node] <= indices[node] && Witnessed(Pairs(edges), indices, stack, node, low[node])
      requires Bounds(Pairs(edges), indices, top[1..], below, low[node])
      modifies `low
      ensures Valid() && neighbour in indices
      ensures low == old(low)[node := Min(old(low)[node], indices[neighbour])]
      ensures Witnessed(Pairs(edges), indices, stack, node, low[node])
      ensures Bounds(Pairs(edges), indices, top[1..], below, low[node])
    {
      hide Reports, AdjacencyOf, Pairs, Reach, Layered, Explored, Anchored;
      ReachEdge(Pairs(edges), node, neighbour);
      assert neighbour in stack && neighbour in indices;
      low := low[node := Min(low[node], indices[neighbour])];
    }

    /** After the neighbour loop: either `node` stays on the stack, or its component is popped and reported. */
    method Finish(node: string, ghost below: seq<string>, ghost top: seq<string>)
      requires Valid() && node in gray && node in indices
      requires stack == below + top && top != [] && top[0] == node
      requires forall g | g in gray && g != node :: g in below
      requires low[node] <= indices[node] && Witnessed(Pairs(edges), indices, stack, node, low[node])
      requires Bounds(Pairs(edges), indices, top[1..], below, low[node])
      requires SuccessorsDone(Pairs(edges), node, indices, below, low[node])
      modifies this
      ensures Valid() && gray == old(gray) - {node}
      ensures indices == old(indices) && low == old(low)
      ensures low[node] == indices[node] ==> stack == below
      ensures low[node] != indices[node] ==>
        stack == below + top && Witnessed(Pairs(edges), indices, stack, node, low[node])
      ensures Bounds(Pairs(edges), indices, stack[|below|..], below, low[node])
    {
      hide Coherent, Reports, AdjacencyOf, Pairs, Reach;
      ghost var E, gray1 := Pairs(edges), gray - {node};
      assert gray == gray1 + {node};
      if low[node] == indices[node] {
        Report(node, below, top);
        assert stack[|below|..] == [];
      } else {
        ghost var y :| y in stack && y in indices && indices[y] == low[node] && Reach(E, node, y);
        assert node in stack;
        KeepKeeps(E, indices, stack, gray1, comps, node, y);
        gray := gray1;
        assert stack[|below|..] == top && top == [node] + top[1..];
      }
    }

    /** Pops the component of `node` and reports it if it holds a cycle. */
    method Report(node: string, ghost below: seq<string>, ghost top: seq<string>)
      requires Valid() && node in gray && node in indices
      requires stack == below + top && top != [] && top[0] == node
      requires forall g | g in gray && g != node :: g in below
      requires low[node] == indices[node] && Bounds(Pairs(edges), indices, top[1..], below, low[node])
      requires SuccessorsDone(Pairs(edges), node, indices, below, low[node])
      modifies this
      ensures Valid() && gray == old(gray) - {node} && stack == below
      ensures indices == old(indices) && low == old(low)
    {
      hide Coherent, Reports, AdjacencyOf, Pairs, Reach, Bounds, SuccessorsDone, Cut, Elements, Distinct, Reported;
      hide ReportOf;
      ghost var E, gray1 := Pairs(edges), gray - {node};
      assert gray == gray1 + {node};
      CutHere(E, indices, below, top, comps, gray, low[node]);
      PopKeeps(E, indices, below, top, gray1, comps);
      StackDistinct(E, indices, stack, gray, comps);
      var component := PopComponent(node, below, top);
      ReportsStep(edges, comps, component);
      comps := comps + [component];
      if Reported(edges, component) {
        reports := reports + [ReportOf(edges, component)];
      }
      gray := gray1;
    }

    lemma ReportsStep(edges: seq<GraphEdge>, comps: seq<set<string>>, component: set<string>)
      ensures Reports(edges, comps + [component])
              == Reports(edges, comps) + if Reported(edges, component) then [ReportOf(edges, component)] else []
    {
      assert (comps + [component])[..|comps|] == comps;
    }

    lemma CutHere(
      E: Edges, num: map<string, nat>, below: seq<string>, top: seq<string>, comps: seq<set<string>>,
      gray: set<string>, bound: nat)
      requires top != [] && Coherent(E, num, below + top, gray, comps)
      requires top[0] in num && bound == num[top[0]]
      requires Bounds(E, num, top[1..], below, bound) && SuccessorsDone(E, top[0], num, below, bound)
      ensures Cut(E, below, top) && forall z | (top[0], z) in E :: z in num
    {
      SegmentsDisjoint(num, below, top, comps);
      assert top == [top[0]] + top[1..];
    }

    lemma StackDistinct(E: Edges, num: map<string, nat>, stack: seq<string>, gray: set<string>, comps: seq<set<string>>)
      requires Coherent(E, num, stack, gray, comps)
      ensures Distinct(stack)
    {
    }

    /** Pops down to and including `node`. */
    method PopComponent(node: string, ghost below: seq<string>, ghost top: seq<string>) returns (component: set<string>)
      requires stack == below + top && top != [] && top[0] == node && Distinct(stack) && onStack == Elements(stack)
      modifies `stack, `onStack
      ensures stack == below && component == Elements(top) && onStack == Elements(stack)
    {
      component := {};
      ghost var k := |top|;
      while true
        invariant 0 < k <= |top| && stack == below + top[..k] && component == Elements(top[k..])
        invariant onStack == Elements(stack)
        decreases k
      {
        var value := stack[|stack| - 1];
        assert value == top[k - 1] && top[..k] == top[..k - 1] + [value];
        assert top[k - 1..] == [value] + top[k..];
        PopOne(below + top[..k - 1], value, below + top, |below| + k - 1);
        stack := stack[..|stack| - 1];
        onStack := onStack - {value};
        component := component + {value};
        k := k - 1;
        if value == node {
          assert (below + top)[|below|] == node && (below + top)[|below| + k] == value;
          break;
        }
      }
      assert k == 0 && top[k..] == top && top[..k] == [];
    }

    lemma PopOne(rest: seq<string>, value: string, whole: seq<string>, k: nat)
      requires Distinct(whole) && k < |whole| && rest == whole[..k] && value == whole[k]
      ensures Elements(rest + [value]) - {value} == Elements(rest)
    {
      assert value !in rest;
    }
  }

  function Min(a: nat, b: nat): nat {
    if a <= b then a else b
  }

  // ---- The graph object ----

  class PrerequisiteGraph {
    const expressions: map<string, Expr>
    const provenance: map<string, string>
    var edges: seq<GraphEdge>

    /** The edges are exactly those of the expressions, with the course text as provenance. */
    ghost predicate Valid()
      reads this
    {
      forall e :: e in edges <==> e.dependent in expressions && e in CourseEdges(e.dependent)
    }

    function SourceText(dependent: string): string {
      if dependent in provenance then provenance[dependent] else ""
    }

    ghost function CourseEdges(dependent: string): seq<GraphEdge>
      requires dependent in expressions
    {
      EdgesOf(expressions[dependent], dependent, Strict, SourceText(dependent))
    }

    constructor (expressions: map<string, Expr>, provenance: map<string, string>)
      ensures Valid() && this.expressions == expressions && this.provenance == provenance
    {
      this.expressions, this.provenance := expressions, provenance;
      edges := [];
      new;
      var todo := expressions.Keys;
      while todo != {}
        invariant todo <= expressions.Keys
        invariant forall e :: e in edges <==> e.dependent in expressions.Keys - todo && e in CourseEdges(e.dependent)
      {
        var dependent :| dependent in todo;
        ghost var before := edges;
        WalkEdges(expressions[dependent], dependent, Strict);
        todo := todo - {dependent};
        forall e ensures e in CourseEdges(dependent) ==> e.dependent == dependent {
          EdgesAreReadings(expressions[dependent], dependent, Strict, SourceText(dependent), e);
        }
      }
    }

    method WalkEdges(expression: Expr, dependent: string, relation: Relation)
      modifies this
      ensures edges == old(edges) + EdgesOf(expression, dependent, relation, SourceText(dependent))
      decreases expression
    {
      match expression {
        case CourseRef(code) =>
          edges := edges + [GraphEdge(code, dependent, relation, SourceText(dependent))];
        case GradeAtLeast(course, _) =>
          edges := edges + [GraphEdge(course, dependent, relation, SourceText(dependent))];
        case CoRequisite(items) =>
          WalkItems(items, dependent, Corequisite);
        case AllOf(items) =>
          WalkItems(items, dependent, relation);
        case AnyOf(items) =>
          WalkItems(items, dependent, relation);
        case Predicate(_, _) =>
        case CreditsAtLeast(_) =>
      }
    }

    method WalkItems(items: seq<Expr>, dependent: string, relation: Relation)
      modifies this
      ensures edges == old(edges) + EdgesOfAll(items, dependent, relation, SourceText(dependent))
      decreases items
    {
      for i := 0 to |items|
        invariant edges == old(edges) + EdgesOfAll(items[..i], dependent, relation, SourceText(dependent))
      {
        assert items[..i + 1][..i] == items[..i];
        WalkEdges(items[i], dependent, relation);
      }
      assert items[..|items|] == items;
    }

    function UnknownReferences(known: set<string>): (r: set<string>)
      reads this
      ensures forall c :: c in r <==> c !in known && exists e :: e in edges && e.prerequisite == c
    {
      set e | e in edges && e.prerequisite !in known :: e.prerequisite
    }

    /** Tarjan's algorithm: the reports of the cyclic components, in the order they are popped. */
    method StrictCycles() returns (reports: seq<CycleReport>)
      ensures exists comps :: EmissionOrder(edges, comps) && reports == Reports(edges, comps)
      ensures forall r :: r in reports <==> NamesCyclicComponent(edges, r)
      ensures reports == [] <==> Acyclic(Pairs(edges))
    {
      hide AdjacencyOf, Coherent, Reports, EmissionOrder, Pairs, NamesCyclicComponent, Acyclic;
      var adjacency := BuildAdjacency();
      var search := new SccSearch(edges, adjacency);
      search.VisitAll(SortedSet(adjacency.Keys));
      reports := search.reports;
      search.Complete();
      forall r ensures r in reports <==> NamesCyclicComponent(edges, r) {
        ReportsAreCyclicComponents(edges, search.comps, r);
      }
      NoReportsIffAcyclic(edges, search.comps);
    }

    /** Breadth-first search from a course towards what it requires. */
    method DependencyPath(start: string, target: string) returns (path: Option<seq<string>>)
      ensures path.Some? ==> Shortest(Requirements(edges), path.value, start, target)
      ensures path.None? <==> !Reach(Requirements(edges), start, target)
    {
      hide Requirements;
      ghost var E := Requirements(edges);
      var adjacency := BuildRequirements();
      var frontier := [Entry(start, [start])];
      var visited := {start};
      ghost var done, d := {}, 1;
      ghost var universe := {start} + set e | e in edges :: e.prerequisite;
      Begin(E, start);
      while frontier != []
        invariant Searching(E, start, frontier, visited, done, d) && Expanded(E, done, visited)
        invariant frontier != [] ==> |frontier[0].path| == d
        invariant target !in done && visited <= universe
        decreases universe - done
      {
        var current := frontier[0];
        ghost var before := done;
        Dequeue(E, start, frontier, visited, done, d);
        frontier := frontier[1..];
        done := done + {current.node};
        if current.node == target {
          assert WalkBetween(E, current.path, start, target);
          return Some(current.path);
        }
        var listed := if current.node in adjacency then adjacency[current.node] else [];
        SortByPermutes(listed, StrLeq);
        frontier, visited := Expand(current, SortBy(listed, StrLeq), frontier, visited, start, done, before, d,
          universe);
        if frontier != [] && |frontier[0].path| == d + 1 {
          NextLevel(E, start, frontier, visited, done, d);
          d := d + 1;
        }
      }
      if Reach(E, start, target) {
        Exhausted(E, start, visited, done, d, target);
      }
      return None;
    }

    /** Enqueues the unvisited prerequisites of `current`. */
    method Expand(
      current: Entry, prerequisites: seq<string>, frontier0: seq<Entry>, visited0: set<string>, ghost start: string,
      ghost done: set<string>, ghost before: set<string>, ghost d: nat, ghost universe: set<string>)
      returns (frontier: seq<Entry>, visited: set<string>)
      requires Searching(Requirements(edges), start, frontier0, visited0, done, d)
      requires done == before + {current.node} && Expanded(Requirements(edges), before, visited0)
      requires WalkBetween(Requirements(edges), current.path, start, current.node) && |current.path| == d
      requires forall z :: z in prerequisites <==> (current.node, z) in Requirements(edges)
      requires visited0 <= universe && forall e | e in edges :: e.prerequisite in universe
      ensures Searching(Requirements(edges), start, frontier, visited, done, d)
      ensures Expanded(Requirements(edges), done, visited)
      ensures visited <= universe
    {
      hide Searching, Covers, WalkBetween;
      frontier, visited := frontier0, visited0;
      for i := 0 to |prerequisites|
        invariant Searching(Requirements(edges), start, frontier, visited, done, d)
        invariant visited0 <= visited <= universe
        invariant forall z | z in prerequisites[..i] :: z in visited
      {
        var prerequisite := prerequisites[i];
        assert prerequisite in prerequisites;
        assert (current.node, prerequisite) in Requirements(edges);
        if prerequisite !in visited {
          Enqueue(Requirements(edges), start, frontier, visited, done, d, current, prerequisite);
          visited := visited + {prerequisite};
          frontier := frontier + [Entry(prerequisite, current.path + [prerequisite])];
        }
        assert prerequisites[..i + 1] == prerequisites[..i] + [prerequisite];
      }
      assert prerequisites[..|prerequisites|] == prerequisites;
    }

    method BuildRequirements() returns (adjacency: map<string, seq<string>>)
      ensures forall n, z :: n in adjacency && z in adjacency[n] <==> (n, z) in Requirements(edges)
    {
      adjacency := map[];
      for i := 0 to |edges|
        invariant forall n, z :: n in adjacency && z in adjacency[n] <==> (n, z) in Requirements(edges[..i])
      {
        var e := edges[i];
        ghost var before := Requirements(edges[..i]);
        assert edges[..i + 1] == edges[..i] + [e];
        assert Requirements(edges[..i + 1]) == before + {(e.dependent, e.prerequisite)};
        var listed := if e.dependent in adjacency then adjacency[e.dependent] else [];
        adjacency := adjacency[e.dependent := listed + [e.prerequisite]];
      }
      assert edges[..|edges|] == edges;
    }

    method BuildAdjacency() returns (adjacency: map<string, seq<(string, Relation)>>)
      ensures AdjacencyOf(adjacency, edges)
    {
      hide AdjacencyOf;
      adjacency := map[];
      EmptyAdjacency();
      for i := 0 to |edges|
        invariant AdjacencyOf(adjacency, edges[..i])
      {
        var e := edges[i];
        var listed := (if e.prerequisite in adjacency then adjacency[e.prerequisite] else [])
          + [(e.dependent, e.relation)];
        AdjacencyStep(adjacency, edges[..i], e, listed);
        adjacency := adjacency[e.prerequisite := listed];
        if e.dependent !in adjacency {
          adjacency := adjacency[e.dependent := []];
        }
        assert edges[..i + 1] == edges[..i] + [e];
      }
      assert edges[..|edges|] == edges;
    }
  }

  lemma EmptyAdjacency()
    ensures AdjacencyOf(map[], [])
  {
  }

  lemma PairsGrow(edges: seq<GraphEdge>, e: GraphEdge)
    ensures Pairs(edges + [e]) == Pairs(edges) + {(e.prerequisite, e.dependent)}
  {
    assert forall x :: x in edges + [e] <==> x in edges || x == e;
  }

  lemma TouchesGrows(edges: seq<GraphEdge>, e: GraphEdge, n: string)
    ensures Touches(edges + [e], n) <==> Touches(edges, n) || n == e.prerequisite || n == e.dependent
  {
    assert forall x :: x in edges + [e] <==> x in edges || x == e;
  }

  lemma ListsAppend(before: seq<(string, Relation)>, entry: (string, Relation), d: string)
    ensures Lists(before + [entry], d) <==> Lists(before, d) || d == entry.0
  {
    var listed := before + [entry];
    if Lists(before, d) {
      var k :| 0 <= k < |before| && before[k].0 == d;
      assert listed[k].0 == d;
    }
    assert listed[|before|].0 == entry.0;
  }

  lemma AdjacencyStep(
    adjacency: map<string, seq<(string, Relation)>>, edges: seq<GraphEdge>, e: GraphEdge,
    listed: seq<(string, Relation)>)
    requires AdjacencyOf(adjacency, edges)
    requires listed ==
      (if e.prerequisite in adjacency then adjacency[e.prerequisite] else []) + [(e.dependent, e.relation)]
    ensures var first := adjacency[e.prerequisite := listed];
            AdjacencyOf(if e.dependent in first then first else first[e.dependent := []], edges + [e])
  {
    hide Lists, Touches, Pairs;
    var first := adjacency[e.prerequisite := listed];
    var after := if e.dependent in first then first else first[e.dependent := []];
    forall n ensures n in after <==> Touches(edges + [e], n) {
      TouchesGrows(edges, e, n);
    }
    PairsGrow(edges, e);
    forall n, d | n in after ensures Lists(after[n], d) <==> (n, d) in Pairs(edges + [e]) {
      ListedAfter(adjacency, edges, e, listed, n, d);
    }
  }

  /** The neighbours of one node after the edge `e`. */
  lemma ListedAfter(
    adjacency: map<string, seq<(string, Relation)>>, edges: seq<GraphEdge>, e: GraphEdge,
    listed: seq<(string, Relation)>, n: string, d: string)
    requires AdjacencyOf(adjacency, edges)
    requires listed ==
      (if e.prerequisite in adjacency then adjacency[e.prerequisite] else []) + [(e.dependent, e.relation)]
    ensures var neighbours := if n == e.prerequisite then listed else if n in adjacency then adjacency[n] else [];
            Lists(neighbours, d) <==> (n, d) in Pairs(edges) || (n, d) == (e.prerequisite, e.dependent)
  {
    hide Lists, Touches, Pairs;
    var before := if n in adjacency then adjacency[n] else [];
    ListsAppend(before, (e.dependent, e.relation), d);
    if n !in adjacency {
      NoNeighbours(edges, n, d);
    }
  }

  lemma NoNeighbours(edges: seq<GraphEdge>, n: string, d: string)
    requires !Touches(edges, n)
    ensures !Lists([], d) && (n, d) !in Pairs(edges)
  {
  }
}
