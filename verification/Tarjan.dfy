/**
 The state of Tarjan's algorithm between two steps, and what its three kinds of step keep:
 numbering a node, leaving a node on the stack, and popping a component.
 */
module Tarjan {
  import opened Digraph

  /** `x` was popped as part of a component. */
  ghost predicate Emitted(comps: seq<set<string>>, x: string) {
    exists i :: 0 <= i < |comps| && x in comps[i]
  }

  /** Visited nodes are numbered 0, 1, ... and are either on the stack or emitted, never both. */
  ghost predicate Numbered(num: map<string, nat>, stack: seq<string>, comps: seq<set<string>>) {
    && (forall x :: x in num <==> x in stack || Emitted(comps, x))
    && (forall x | x in stack :: !Emitted(comps, x))
    && (forall x | x in num :: num[x] < |num|)
    && (forall i, j | 0 <= i < j < |stack| :: num[stack[i]] < num[stack[j]])
  }

  /** Emitted sets are components, disjoint, and no edge leads from one to a later or unfinished one. */
  ghost predicate Layered(E: Edges, comps: seq<set<string>>) {
    && (forall i | 0 <= i < |comps| :: IsComponent(E, comps[i]))
    && (forall i, j | 0 <= i < j < |comps| :: comps[i] !! comps[j])
    && (forall i, x, y | 0 <= i < |comps| && x in comps[i] && (x, y) in E :: EmittedBy(comps, i, y))
  }

  ghost predicate EmittedBy(comps: seq<set<string>>, i: nat, y: string) {
    exists j :: 0 <= j <= i && j < |comps| && y in comps[j]
  }

  /** A finished node (visited, not on the current call chain `gray`) has only visited successors. */
  ghost predicate Explored(E: Edges, num: map<string, nat>, gray: set<string>) {
    forall x, y | x in num && x !in gray && (x, y) in E :: y in num
  }

  /** Stack entries reach the entries above them, and each reaches an unfinished entry not above it. */
  ghost predicate Anchored(E: Edges, num: map<string, nat>, stack: seq<string>, gray: set<string>)
    requires forall x | x in stack :: x in num
  {
    && (forall x | x in gray :: x in stack)
    && (forall i, j | 0 <= i <= j < |stack| :: Reach(E, stack[i], stack[j]))
    && (forall y {:trigger HasAnchor(E, num, gray, y)} | y in stack :: HasAnchor(E, num, gray, y))
  }

  ghost predicate HasAnchor(E: Edges, num: map<string, nat>, gray: set<string>, y: string)
    requires y in num
  {
    exists x :: x in gray && x in num && num[x] <= num[y] && Reach(E, y, x)
  }

  ghost predicate Coherent(
    E: Edges, num: map<string, nat>, stack: seq<string>, gray: set<string>, comps: seq<set<string>>)
  {
    && Numbered(num, stack, comps)
    && Layered(E, comps)
    && Explored(E, num, gray)
    && Anchored(E, num, stack, gray)
  }

  /** Numbering a fresh node that every unfinished node reaches. */
  lemma PushKeeps(
    E: Edges, num: map<string, nat>, stack: seq<string>, gray: set<string>, comps: seq<set<string>>, node: string)
    requires Coherent(E, num, stack, gray, comps)
    requires node !in num && forall g | g in gray :: Reach(E, g, node)
    ensures Coherent(E, num[node := |num|], stack + [node], gray + {node}, comps)
  {
    var num', stack', gray' := num[node := |num|], stack + [node], gray + {node};
    assert |num'| == |num| + 1;
    assert Numbered(num', stack', comps);
    ReachSelf(E, node);
    forall i, j | 0 <= i <= j < |stack'| ensures Reach(E, stack'[i], stack'[j]) {
      if i < |stack| == j {
        var y := stack[i];
        assert y in stack && HasAnchor(E, num, gray, y);
        var g :| g in gray && g in num && num[g] <= num[y] && Reach(E, y, g);
        ReachTransitive(E, y, g, node);
      }
    }
    forall y | y in stack' ensures HasAnchor(E, num', gray', y) {
      if y == node {
        assert node in gray' && num'[node] <= num'[y];
      } else {
        assert y in stack && HasAnchor(E, num, gray, y);
        var g :| g in gray && g in num && num[g] <= num[y] && Reach(E, y, g);
        assert g in gray' && num'[g] <= num'[y];
      }
    }
  }

  /** Finishing a node that reaches an earlier stack entry: it stays on the stack. */
  lemma KeepKeeps(
    E: Edges, num: map<string, nat>, stack: seq<string>, gray: set<string>, comps: seq<set<string>>, node: string,
    y: string)
    requires Coherent(E, num, stack, gray + {node}, comps)
    requires node in stack && node !in gray
    requires forall z | (node, z) in E :: z in num
    requires y in stack && num[y] < num[node] && Reach(E, node, y)
    ensures Coherent(E, num, stack, gray, comps)
  {
    KeepAnchors(E, num, stack, gray, gray + {node}, node, y);
  }

  lemma KeepAnchors(
    E: Edges, num: map<string, nat>, stack: seq<string>, gray: set<string>, before: set<string>, node: string,
    y: string)
    requires forall x | x in stack :: x in num
    requires before == gray + {node} && Anchored(E, num, stack, before)
    requires node in stack && y in stack && num[y] < num[node] && Reach(E, node, y)
    ensures Anchored(E, num, stack, gray)
  {
    assert HasAnchor(E, num, before, y);
    var x := AnchorOf(E, num, before, y);
    ReachTransitive(E, node, y, x);
    forall z | z in stack ensures HasAnchor(E, num, gray, z) {
      assert HasAnchor(E, num, before, z);
      var w := AnchorOf(E, num, before, z);
      if w == node {
        ReachTransitive(E, z, node, x);
        assert x in gray && num[x] <= num[z];
      } else {
        assert w in gray;
      }
    }
  }

  lemma AnchorOf(E: Edges, num: map<string, nat>, gray: set<string>, y: string) returns (x: string)
    requires y in num && HasAnchor(E, num, gray, y)
    ensures x in gray && x in num && num[x] <= num[y] && Reach(E, y, x)
  {
    x :| x in gray && x in num && num[x] <= num[y] && Reach(E, y, x);
  }

  // ---- Popping: the stack is `below + top`, and `top[0]` is the node being finished ----

  function Elements(s: seq<string>): set<string> {
    set x | x in s
  }

  /** No edge leads from the segment being popped to the entries below it. */
  ghost predicate Cut(E: Edges, below: seq<string>, top: seq<string>) {
    forall x, y | x in top && y in below :: (x, y) !in E
  }

  /** What is visited but not below the cut: the emitted nodes and the segment being popped. */
  ghost function Settled(num: map<string, nat>, below: seq<string>): set<string> {
    num.Keys - Elements(below)
  }

  lemma SegmentsDisjoint(num: map<string, nat>, below: seq<string>, top: seq<string>, comps: seq<set<string>>)
    requires Numbered(num, below + top, comps)
    ensures forall x | x in below :: x !in top && x in num && (forall y | y in top :: y in num && num[x] < num[y])
    ensures forall y | y in top :: y in num && num[top[0]] <= num[y]
    ensures forall x | x in Settled(num, below) :: x in top || Emitted(comps, x)
    ensures forall x | x in top || Emitted(comps, x) :: x in Settled(num, below)
  {
    var stack := below + top;
    forall x, y | x in below && y in top ensures x in num && y in num && num[x] < num[y] {
      var i :| 0 <= i < |below| && below[i] == x;
      var j :| 0 <= j < |top| && top[j] == y;
      assert stack[i] == x && stack[|below| + j] == y;
    }
    forall y | y in top ensures y in num && num[top[0]] <= num[y] {
      var j :| 0 <= j < |top| && top[j] == y;
      assert stack[|below| + j] == y && stack[|below|] == top[0];
      assert y in stack && top[0] in stack;
    }
    forall x | x in below ensures x in stack {
    }
  }

  lemma SettledClosed(
    E: Edges, num: map<string, nat>, below: seq<string>, top: seq<string>, gray: set<string>, comps: seq<set<string>>)
    requires Numbered(num, below + top, comps) && Layered(E, comps) && top != []
    requires Explored(E, num, gray + {top[0]}) && Cut(E, below, top)
    requires forall z | (top[0], z) in E :: z in num
    requires forall g | g in gray :: g in below
    ensures Closed(E, Settled(num, below))
  {
    SegmentsDisjoint(num, below, top, comps);
    var S := Settled(num, below);
    forall x, y | (x, y) in E && x in S ensures y in S {
      if x in top {
        assert x !in gray;
        assert y in num;
      } else {
        var i :| 0 <= i < |comps| && x in comps[i];
        assert EmittedBy(comps, i, y);
        assert Emitted(comps, y);
      }
    }
  }

  lemma PopIsComponent(
    E: Edges, num: map<string, nat>, below: seq<string>, top: seq<string>, gray: set<string>, comps: seq<set<string>>)
    requires top != [] && Coherent(E, num, below + top, gray + {top[0]}, comps)
    requires Cut(E, below, top)
    requires forall z | (top[0], z) in E :: z in num
    requires forall g | g in gray :: g in below
    ensures IsComponent(E, Elements(top))
  {
    var S, node := Settled(num, below), top[0];
    SegmentsDisjoint(num, below, top, comps);
    SettledClosed(E, num, below, top, gray, comps);
    forall x | x in top ensures Connected(E, node, x) {
      MemberConnected(E, num, below, top, gray, S, x);
    }
    forall x, y | x in top && y in top ensures Connected(E, x, y) {
      ReachTransitive(E, x, node, y);
      ReachTransitive(E, y, node, x);
    }
    forall x, y | x in top && Connected(E, x, y) ensures y in top {
      assert x in below + top && !Emitted(comps, x);
      ReachStaysIn(E, S, x, y);
      if y !in top {
        EmittedIsClass(E, comps, y, x);
      }
    }
    assert node in Elements(top);
  }

  /** Every member of the segment reaches `top[0]`, since its anchor cannot lie below the cut. */
  lemma MemberConnected(
    E: Edges, num: map<string, nat>, below: seq<string>, top: seq<string>, gray: set<string>, S: set<string>,
    x: string)
    requires forall y | y in below + top :: y in num
    requires top != [] && Anchored(E, num, below + top, gray + {top[0]})
    requires Closed(E, S) && (forall y | y in top :: y in S) && (forall y | y in below :: y !in S)
    requires forall g | g in gray :: g in below
    requires x in top
    ensures Connected(E, top[0], x)
  {
    var stack, node := below + top, top[0];
    var j :| 0 <= j < |top| && top[j] == x;
    assert stack[|below|] == node && stack[|below| + j] == x;
    assert Reach(E, stack[|below|], stack[|below| + j]);
    assert x in stack;
    assert HasAnchor(E, num, gray + {node}, x);
    var g := AnchorOf(E, num, gray + {node}, x);
    ReachStaysIn(E, S, x, g);
    assert g == node;
  }

  lemma EmittedIsClass(E: Edges, comps: seq<set<string>>, y: string, x: string)
    requires Layered(E, comps) && Emitted(comps, y) && Connected(E, x, y)
    ensures Emitted(comps, x)
  {
    var i :| 0 <= i < |comps| && y in comps[i];
    assert IsComponent(E, comps[i]) && Connected(E, y, x);
    assert x in comps[i];
  }

  /** Popping the top segment as the next component. */
  lemma PopKeeps(
    E: Edges, num: map<string, nat>, below: seq<string>, top: seq<string>, gray: set<string>, comps: seq<set<string>>)
    requires top != [] && Coherent(E, num, below + top, gray + {top[0]}, comps)
    requires Cut(E, below, top) && top[0] !in gray
    requires forall z | (top[0], z) in E :: z in num
    requires forall g | g in gray :: g in below
    ensures Coherent(E, num, below, gray, comps + [Elements(top)])
  {
    PopIsComponent(E, num, below, top, gray, comps);
    SegmentsDisjoint(num, below, top, comps);
    SettledClosed(E, num, below, top, gray, comps);
    EmittedAfter(comps, Elements(top));
    PopNumbers(num, below, top, comps);
    PopLayers(E, num, below, top, comps);
    PopAnchors(E, num, below, top, gray);
    forall x, y | x in num && x !in gray && (x, y) in E ensures y in num {
    }
  }

  lemma PopAnchors(E: Edges, num: map<string, nat>, below: seq<string>, top: seq<string>, gray: set<string>)
    requires forall y | y in below + top :: y in num
    requires top != [] && Anchored(E, num, below + top, gray + {top[0]})
    requires forall g | g in gray :: g in below
    requires forall x | x in below :: x in num && num[x] < num[top[0]]
    ensures Anchored(E, num, below, gray)
  {
    var stack, node := below + top, top[0];
    forall i, j | 0 <= i <= j < |below| ensures Reach(E, below[i], below[j]) {
      assert Reach(E, stack[i], stack[j]);
    }
    forall y | y in below ensures HasAnchor(E, num, gray, y) {
      assert y in stack;
      assert HasAnchor(E, num, gray + {node}, y);
      var g := AnchorOf(E, num, gray + {node}, y);
      assert g in gray;
    }
  }

  lemma EmittedAfter(comps: seq<set<string>>, C: set<string>)
    ensures forall x :: Emitted(comps + [C], x) <==> Emitted(comps, x) || x in C
  {
    var comps' := comps + [C];
    forall x ensures Emitted(comps', x) <==> Emitted(comps, x) || x in C {
      if Emitted(comps, x) {
        var i :| 0 <= i < |comps| && x in comps[i];
        assert x in comps'[i];
      }
      if x in C {
        assert x in comps'[|comps|];
      }
    }
  }

  lemma PopNumbers(num: map<string, nat>, below: seq<string>, top: seq<string>, comps: seq<set<string>>)
    requires Numbered(num, below + top, comps)
    ensures Numbered(num, below, comps + [Elements(top)])
  {
    var stack := below + top;
    SegmentsDisjoint(num, below, top, comps);
    EmittedAfter(comps, Elements(top));
    forall i, j | 0 <= i < j < |below| ensures num[below[i]] < num[below[j]] {
      assert stack[i] == below[i] && stack[j] == below[j];
    }
    forall x | x in below ensures !Emitted(comps, x) {
      assert x in stack;
    }
    forall x ensures x in stack <==> x in below || x in top {
    }
  }

  lemma PopLayers(E: Edges, num: map<string, nat>, below: seq<string>, top: seq<string>, comps: seq<set<string>>)
    requires Numbered(num, below + top, comps) && Layered(E, comps)
    requires Closed(E, Settled(num, below)) && IsComponent(E, Elements(top))
    ensures Layered(E, comps + [Elements(top)])
  {
    var C := Elements(top);
    var comps' := comps + [C];
    SegmentsDisjoint(num, below, top, comps);
    forall i | 0 <= i < |comps| ensures comps[i] !! C {
      forall x | x in C ensures x !in comps[i] {
        assert x in below + top;
        assert !Emitted(comps, x);
      }
    }
    forall i, x, y | 0 <= i < |comps'| && x in comps'[i] && (x, y) in E ensures EmittedBy(comps', i, y) {
      if i < |comps| {
        assert EmittedBy(comps, i, y);
        var j :| 0 <= j <= i && j < |comps| && y in comps[j];
        assert y in comps'[j];
      } else {
        assert y in Settled(num, below);
        if y in top {
          assert y in comps'[|comps|];
        } else {
          var j :| 0 <= j < |comps| && y in comps[j];
          assert y in comps'[j];
        }
      }
    }
  }
}
