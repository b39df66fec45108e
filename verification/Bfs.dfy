/** The state of a breadth-first search between two steps, and what its steps keep. */
module Bfs {
  import opened Digraph

  datatype Entry = Entry(node: string, path: seq<string>)

  ghost predicate Shortest(E: Edges, p: seq<string>, start: string, v: string) {
    WalkBetween(E, p, start, v) && forall q | WalkBetween(E, q, start, v) :: |p| <= |q|
  }

  /** Every node that a walk of at most `n` nodes leads to is in `S`. */
  ghost predicate Covers(E: Edges, start: string, S: set<string>, n: int) {
    forall q, v | WalkBetween(E, q, start, v) && |q| <= n :: v in S
  }

  /** The queue holds nodes of distance `d` (counted in nodes), then nodes of distance `d + 1`. */
  ghost predicate Queued(E: Edges, start: string, frontier: seq<Entry>, d: nat) {
    && (forall k | 0 <= k < |frontier| :: Shortest(E, frontier[k].path, start, frontier[k].node))
    && (forall k | 0 <= k < |frontier| :: d <= |frontier[k].path| <= d + 1)
    && (forall j, k | 0 <= j < k < |frontier| :: |frontier[j].path| <= |frontier[k].path|)
    && (forall j, k | 0 <= j < k < |frontier| :: frontier[j].node != frontier[k].node)
  }

  function Nodes(frontier: seq<Entry>): set<string> {
    set e | e in frontier :: e.node
  }

  /** `done` are the dequeued nodes; all but `open` of them have had their successors enqueued. */
  ghost predicate Searching(
    E: Edges, start: string, frontier: seq<Entry>, visited: set<string>, done: set<string>, d: nat)
  {
    && Queued(E, start, frontier, d)
    && visited == done + Nodes(frontier) && done !! Nodes(frontier)
    && start in visited
    && Covers(E, start, done, d - 1) && Covers(E, start, visited, d)
  }

  ghost predicate Expanded(E: Edges, done: set<string>, visited: set<string>) {
    forall x, y | x in done && (x, y) in E :: y in visited
  }

  lemma Begin(E: Edges, start: string)
    ensures Searching(E, start, [Entry(start, [start])], {start}, {}, 1)
  {
    var frontier := [Entry(start, [start])];
    assert WalkBetween(E, [start], start, start);
    assert Nodes(frontier) == {start} by {
      assert frontier[0] in frontier;
    }
  }

  /** Dequeuing the head, which is at distance `d`. */
  lemma Dequeue(E: Edges, start: string, frontier: seq<Entry>, visited: set<string>, done: set<string>, d: nat)
    requires Searching(E, start, frontier, visited, done, d)
    requires frontier != [] && |frontier[0].path| == d
    ensures Searching(E, start, frontier[1..], visited, done + {frontier[0].node}, d)
  {
    var head, rest := frontier[0], frontier[1..];
    hide Queued, Covers, Nodes;
    QueuedTail(E, start, frontier, d);
    NodesTail(frontier);
    CoversMore(E, start, done, done + {head.node}, d - 1);
  }

  lemma NodesTail(frontier: seq<Entry>)
    requires frontier != [] && forall e | e in frontier[1..] :: e.node != frontier[0].node
    ensures Nodes(frontier) == Nodes(frontier[1..]) + {frontier[0].node} && frontier[0].node !in Nodes(frontier[1..])
  {
    assert frontier == [frontier[0]] + frontier[1..];
  }

  lemma CoversMore(E: Edges, start: string, S: set<string>, T: set<string>, n: int)
    requires Covers(E, start, S, n) && S <= T
    ensures Covers(E, start, T, n)
  {
  }

  lemma QueuedTail(E: Edges, start: string, frontier: seq<Entry>, d: nat)
    requires Queued(E, start, frontier, d) && frontier != []
    ensures Queued(E, start, frontier[1..], d)
    ensures forall e | e in frontier[1..] :: e.node != frontier[0].node
  {
    hide Shortest;
    var rest := frontier[1..];
    assert forall k | 0 <= k < |rest| :: rest[k] == frontier[k + 1];
  }

  /** Enqueuing an unvisited successor of a node at distance `d`. */
  lemma Enqueue(
    E: Edges, start: string, frontier: seq<Entry>, visited: set<string>, done: set<string>, d: nat, current: Entry,
    next: string)
    requires Searching(E, start, frontier, visited, done, d)
    requires WalkBetween(E, current.path, start, current.node) && |current.path| == d
    requires (current.node, next) in E && next !in visited
    ensures Searching(E, start, frontier + [Entry(next, current.path + [next])], visited + {next}, done, d)
  {
    var entry := Entry(next, current.path + [next]);
    WalkExtends(E, current.path, start, current.node, next);
    forall q | WalkBetween(E, q, start, next) ensures |entry.path| <= |q| {
      assert |q| <= d ==> next in visited;
    }
    EnqueueNodes(frontier, entry);
    forall j | 0 <= j < |frontier| ensures frontier[j].node != next {
      assert frontier[j] in frontier;
    }
    EnqueueQueued(E, start, frontier, d, entry);
  }

  lemma EnqueueNodes(frontier: seq<Entry>, entry: Entry)
    ensures Nodes(frontier + [entry]) == Nodes(frontier) + {entry.node}
  {
    assert forall e | e in frontier + [entry] :: e in frontier || e == entry;
    assert forall e | e in frontier :: e in frontier + [entry];
    assert entry in frontier + [entry];
  }

  lemma EnqueueQueued(E: Edges, start: string, frontier: seq<Entry>, d: nat, entry: Entry)
    requires Queued(E, start, frontier, d)
    requires Shortest(E, entry.path, start, entry.node) && |entry.path| == d + 1
    requires forall j | 0 <= j < |frontier| :: frontier[j].node != entry.node
    ensures Queued(E, start, frontier + [entry], d)
  {
  }

  /** When only distance `d + 1` is left in the queue, everything at distance `d` is finished. */
  lemma NextLevel(E: Edges, start: string, frontier: seq<Entry>, visited: set<string>, done: set<string>, d: nat)
    requires Searching(E, start, frontier, visited, done, d) && Expanded(E, done, visited)
    requires forall k | 0 <= k < |frontier| :: |frontier[k].path| == d + 1
    ensures Searching(E, start, frontier, visited, done, d + 1)
  {
    forall q, v | WalkBetween(E, q, start, v) && |q| <= d ensures v in done {
      assert v in visited;
      assert forall k | 0 <= k < |frontier| :: frontier[k].node != v;
    }
    forall q, v | WalkBetween(E, q, start, v) && |q| <= d + 1 ensures v in visited {
      if |q| > 1 {
        var r := q[..|q| - 1];
        forall i | 0 <= i < |r| - 1 ensures StepAt(E, r, i) {
          assert StepAt(E, q, i);
        }
        assert WalkBetween(E, r, start, r[|r| - 1]);
        assert StepAt(E, q, |q| - 2);
        assert (r[|r| - 1], v) in E;
      }
    }
  }

  /** An empty queue: nothing outside `visited` is reachable. */
  lemma Exhausted(E: Edges, start: string, visited: set<string>, done: set<string>, d: nat, target: string)
    requires Searching(E, start, [], visited, done, d) && Expanded(E, done, visited)
    requires Reach(E, start, target)
    ensures target in done
  {
    assert Nodes([]) == {};
    ReachStaysIn(E, done, start, target);
  }
}
