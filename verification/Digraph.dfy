/** Walks, reachability and strongly connected components of a finite directed graph. */
module Digraph {
  type Edges = set<(string, string)>

  ghost predicate IsWalk(E: Edges, p: seq<string>) {
    |p| >= 1 && forall i | 0 <= i < |p| - 1 :: StepAt(E, p, i)
  }

  ghost predicate StepAt(E: Edges, p: seq<string>, i: nat)
    requires i + 1 < |p|
  {
    (p[i], p[i + 1]) in E
  }

  ghost predicate WalkBetween(E: Edges, p: seq<string>, x: string, y: string) {
    IsWalk(E, p) && p[0] == x && p[|p| - 1] == y
  }

  ghost predicate Reach(E: Edges, x: string, y: string) {
    exists p :: WalkBetween(E, p, x, y)
  }

  lemma ReachSelf(E: Edges, x: string)
    ensures Reach(E, x, x)
  {
    assert WalkBetween(E, [x], x, x);
  }

  lemma ReachEdge(E: Edges, x: string, y: string)
    requires (x, y) in E
    ensures Reach(E, x, y)
  {
    assert StepAt(E, [x, y], 0);
    assert WalkBetween(E, [x, y], x, y);
  }

  lemma ReachTransitive(E: Edges, x: string, y: string, z: string)
    requires Reach(E, x, y) && Reach(E, y, z)
    ensures Reach(E, x, z)
  {
    var p :| WalkBetween(E, p, x, y);
    var q :| WalkBetween(E, q, y, z);
    var r := p + q[1..];
    forall i | 0 <= i < |r| - 1 ensures StepAt(E, r, i) {
      if i + 1 < |p| {
        assert StepAt(E, p, i);
      } else {
        assert StepAt(E, q, i + 1 - |p|);
        assert r[i] == q[i + 1 - |p|] && r[i + 1] == q[i + 2 - |p|];
      }
    }
    assert WalkBetween(E, r, x, z);
  }

  lemma WalkExtends(E: Edges, p: seq<string>, x: string, y: string, z: string)
    requires WalkBetween(E, p, x, y) && (y, z) in E
    ensures WalkBetween(E, p + [z], x, z)
  {
    var r := p + [z];
    forall i | 0 <= i < |r| - 1 ensures StepAt(E, r, i) {
      if i + 1 < |p| {
        assert StepAt(E, p, i);
      }
    }
  }

  ghost predicate Closed(E: Edges, S: set<string>) {
    forall x, y | (x, y) in E && x in S :: y in S
  }

  lemma ReachStaysIn(E: Edges, S: set<string>, x: string, y: string)
    requires Closed(E, S) && x in S && Reach(E, x, y)
    ensures y in S
  {
    var p :| WalkBetween(E, p, x, y);
    var i := 0;
    while i < |p| - 1
      invariant 0 <= i < |p| && p[i] in S
    {
      assert StepAt(E, p, i);
      i := i + 1;
    }
  }

  ghost predicate Connected(E: Edges, x: string, y: string) {
    Reach(E, x, y) && Reach(E, y, x)
  }

  /** A strongly connected component: a whole class of mutually reachable nodes. */
  ghost predicate IsComponent(E: Edges, C: set<string>) {
    C != {} && forall x, y | x in C :: y in C <==> Connected(E, x, y)
  }

  /** `x` lies on a closed walk of at least one edge. */
  ghost predicate OnCycle(E: Edges, x: string) {
    exists y :: (x, y) in E && Reach(E, y, x)
  }

  ghost predicate Acyclic(E: Edges) {
    forall x :: !OnCycle(E, x)
  }

  lemma FirstStep(E: Edges, x: string, y: string) returns (z: string)
    requires Reach(E, x, y) && x != y
    ensures (x, z) in E && Reach(E, z, y)
  {
    var p :| WalkBetween(E, p, x, y);
    z := p[1];
    assert StepAt(E, p, 0);
    forall i | 0 <= i < |p[1..]| - 1 ensures StepAt(E, p[1..], i) {
      assert StepAt(E, p, i + 1);
    }
    assert WalkBetween(E, p[1..], z, y);
  }

  /** A component holds a cycle exactly when it has two nodes or a self-loop. */
  lemma ComponentCycle(E: Edges, C: set<string>)
    requires IsComponent(E, C)
    ensures (|C| > 1 || exists x :: x in C && (x, x) in E) <==> exists x :: x in C && OnCycle(E, x)
  {
    if |C| > 1 {
      var x :| x in C;
      assert C - {x} != {} by {
        assert |C - {x}| == |C| - 1;
      }
      var y :| y in C - {x};
      assert Connected(E, x, y);
      var z := FirstStep(E, x, y);
      ReachTransitive(E, z, y, x);
      assert OnCycle(E, x);
    }
    if x :| x in C && (x, x) in E {
      ReachSelf(E, x);
      assert OnCycle(E, x);
    }
    if x :| x in C && OnCycle(E, x) {
      var y :| (x, y) in E && Reach(E, y, x);
      ReachEdge(E, x, y);
      assert Connected(E, x, y);
      assert y in C;
      if y != x {
        assert {x, y} <= C && |{x, y}| == 2;
        SubsetSize({x, y}, C);
      }
    }
  }

  lemma {:induction false} SubsetSize<T>(A: set<T>, B: set<T>)
    requires A <= B
    ensures |A| <= |B|
  {
    if A != {} {
      var x :| x in A;
      SubsetSize(A - {x}, B - {x});
    }
  }
}
