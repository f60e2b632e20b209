/** The breadth-first `PathFinder.find_path` (src/navsystem/path_finding.py)
    over a plain adjacency map. */
module BreadthFirst {
  import opened Walks

  /** Node to its neighbours, in iteration order. */
  type AdjacencyMap = map<int, seq<int>>

  /** `graph.get(node, {})`: a missing node has no neighbours. */
  function Neighbours(graph: AdjacencyMap, u: int): (r: seq<int>)
    ensures u !in graph ==> r == []
  {
    if u in graph then graph[u] else []
  }

  ghost function Next(graph: AdjacencyMap): Successors {
    u => Neighbours(graph, u)
  }

  /** Every node the search can ever mark visited. */
  function Universe(graph: AdjacencyMap, start: int): (u: set<int>)
    ensures start in u
    ensures forall a, k :: a in graph && 0 <= k < |graph[a]| ==> graph[a][k] in u
  {
    {start} + set a, k | a in graph && 0 <= k < |graph[a]| :: graph[a][k]
  }

  predicate NoRepeats(p: seq<int>) {
    forall i, j :: 0 <= i < j < |p| ==> p[i] != p[j]
  }

  /** A queue item `(node, path)`. */
  datatype Item = Item(node: int, path: seq<int>)

  /** What every queued item satisfies: its path is a repetition-free walk
      from `start` to its node, through visited nodes only. */
  ghost predicate GoodItem(graph: AdjacencyMap, start: int, visited: set<int>, it: Item) {
    && IsWalk(Next(graph), it.path) && NoRepeats(it.path)
    && it.path[0] == start && it.path[|it.path| - 1] == it.node
    && forall i :: 0 <= i < |it.path| ==> it.path[i] in visited
  }

  /** Some queued item is for node `v`. */
  ghost predicate Queued(queue: seq<Item>, v: int) {
    exists k :: 0 <= k < |queue| && queue[k].node == v
  }

  /** Every visited node outside `busy` is still queued or has all its
      neighbours visited. */
  ghost predicate Explored(graph: AdjacencyMap, visited: set<int>, queue: seq<Item>, busy: set<int>) {
    forall v :: v in visited && v !in busy ==>
      Queued(queue, v) || forall k :: 0 <= k < |Neighbours(graph, v)| ==> Neighbours(graph, v)[k] in visited
  }

  ghost predicate Searching(graph: AdjacencyMap, start: int, goal: int, visited: set<int>, queue: seq<Item>) {
    && start in visited && goal !in visited && visited <= Universe(graph, start)
    && forall k :: 0 <= k < |queue| ==> GoodItem(graph, start, visited, queue[k])
  }

  /** `find_path(start, end)`: `[]` when there is no path. */
  method FindPath(graph: AdjacencyMap, start: int, goal: int) returns (r: seq<int>)
    ensures start == goal ==> r == [start]
    ensures r != [] ==> IsWalk(Next(graph), r) && r[0] == start && r[|r| - 1] == goal && NoRepeats(r)
    ensures r == [] <==> !Reachable(Next(graph), start, goal)
  {
    if start == goal {
      ReachableSelf(Next(graph), start);
      return [start];
    }
    var visited := {start};
    var queue := [Item(start, [start])];
    assert Queued(queue, start) by { assert queue[0].node == start; }
    while queue != []
      invariant Searching(graph, start, goal, visited, queue) && Explored(graph, visited, queue, {})
      decreases Universe(graph, start) - visited, |queue|
    {
      var item := queue[0];
      PopFront(graph, start, goal, visited, queue);
      var found;
      found, visited, queue := Visit(graph, start, goal, visited, queue[1..], item);
      if found != [] {
        WalkReaches(Next(graph), found);
        return found;
      }
    }
    Unreached(graph, start, goal, visited);
    r := [];
  }

  /** Taking the head item off the queue leaves every other visited node
      queued or explored. */
  lemma {:induction false} PopFront(graph: AdjacencyMap, start: int, goal: int, visited: set<int>, queue: seq<Item>)
    requires queue != [] && Searching(graph, start, goal, visited, queue) && Explored(graph, visited, queue, {})
    ensures Searching(graph, start, goal, visited, queue[1..]) && Explored(graph, visited, queue[1..], {queue[0].node})
    ensures GoodItem(graph, start, visited, queue[0])
  {
    forall v | Queued(queue, v) && v != queue[0].node ensures Queued(queue[1..], v) {
      var k :| 0 <= k < |queue| && queue[k].node == v;
      assert queue[1..][k - 1].node == v;
    }
    forall k | 0 <= k < |queue[1..]| ensures GoodItem(graph, start, visited, queue[1..][k]) {
      assert queue[1..][k] == queue[k + 1];
    }
  }

  /** An empty queue leaves the visited set closed, so the goal is out of
      reach. */
  lemma {:induction false} Unreached(graph: AdjacencyMap, start: int, goal: int, visited: set<int>)
    requires Searching(graph, start, goal, visited, []) && Explored(graph, visited, [], {})
    ensures !Reachable(Next(graph), start, goal)
  {
    forall u, k | u in visited && 0 <= k < |Next(graph)(u)| ensures Next(graph)(u)[k] in visited {
      assert Next(graph)(u) == Neighbours(graph, u);
    }
    ClosedSetSeparates(Next(graph), visited, start, goal);
  }

  /** The inner loop of `find_path`: looks at the neighbours of the popped
      item's node in order, returning the extended path as soon as the goal is
      among them, and otherwise marking and queueing each unvisited one. */
  method Visit(graph: AdjacencyMap, start: int, goal: int, visited0: set<int>, queue0: seq<Item>, item: Item)
    returns (r: seq<int>, visited: set<int>, queue: seq<Item>)
    requires Searching(graph, start, goal, visited0, queue0) && Explored(graph, visited0, queue0, {item.node})
    requires GoodItem(graph, start, visited0, item)
    ensures r != [] ==> IsWalk(Next(graph), r) && r[0] == start && r[|r| - 1] == goal && NoRepeats(r)
    ensures r == [] ==> Searching(graph, start, goal, visited, queue) && Explored(graph, visited, queue, {})
    ensures r == [] ==> visited0 <= visited && (visited == visited0 ==> queue == queue0)
  {
    visited, queue := visited0, queue0;
    var adj := Neighbours(graph, item.node);
    var k := 0;
    while k < |adj|
      invariant 0 <= k <= |adj|
      invariant Searching(graph, start, goal, visited, queue) && Explored(graph, visited, queue, {item.node})
      invariant GoodItem(graph, start, visited, item)
      invariant forall i :: 0 <= i < k ==> adj[i] in visited
      invariant visited0 <= visited && (visited == visited0 ==> queue == queue0)
    {
      var v := adj[k];
      if v !in visited {
        Extend(graph, start, visited, item, k);
        if v == goal {
          return item.path + [v], visited, queue;
        }
        Mark(graph, start, goal, visited, queue, item, k);
        visited := visited + {v};
        queue := queue + [Item(v, item.path + [v])];
      }
      k := k + 1;
    }
    r := [];
  }

  /** Stepping from an item's node to an unvisited neighbour extends its walk
      without repeating a node. */
  lemma {:induction false} Extend(graph: AdjacencyMap, start: int, visited: set<int>, item: Item, k: nat)
    requires GoodItem(graph, start, visited, item)
    requires k < |Neighbours(graph, item.node)| && Neighbours(graph, item.node)[k] !in visited
    ensures var v := Neighbours(graph, item.node)[k];
      GoodItem(graph, start, visited + {v}, Item(v, item.path + [v]))
  {
    var v := Neighbours(graph, item.node)[k];
    var p := item.path + [v];
    assert v in Next(graph)(item.node);
    forall i | 0 < i < |p| ensures p[i] in Next(graph)(p[i - 1]) {
      if i < |p| - 1 {
        assert p[i] == item.path[i] && p[i - 1] == item.path[i - 1];
      }
    }
  }

  /** Marking a new neighbour and queueing it keeps the search invariant. */
  lemma {:induction false} Mark(graph: AdjacencyMap, start: int, goal: int, visited: set<int>, queue: seq<Item>, item: Item, k: nat)
    requires Searching(graph, start, goal, visited, queue) && Explored(graph, visited, queue, {item.node})
    requires GoodItem(graph, start, visited, item)
    requires k < |Neighbours(graph, item.node)| && Neighbours(graph, item.node)[k] !in visited
    requires Neighbours(graph, item.node)[k] != goal
    ensures var v := Neighbours(graph, item.node)[k];
      var queue' := queue + [Item(v, item.path + [v])];
      && Searching(graph, start, goal, visited + {v}, queue')
      && Explored(graph, visited + {v}, queue', {item.node})
      && GoodItem(graph, start, visited + {v}, item)
  {
    var v := Neighbours(graph, item.node)[k];
    var queue' := queue + [Item(v, item.path + [v])];
    Extend(graph, start, visited, item, k);
    assert v in Universe(graph, start);
    forall j | 0 <= j < |queue'| ensures GoodItem(graph, start, visited + {v}, queue'[j]) {
      if j < |queue| {
        assert GoodItem(graph, start, visited, queue[j]);
      }
    }
    assert Queued(queue', v) by { assert queue'[|queue|].node == v; }
    forall x | Queued(queue, x) ensures Queued(queue', x) {
      var j :| 0 <= j < |queue| && queue[j].node == x;
      assert queue'[j].node == x;
    }
  }
}
