/** `PathFinder` (path_finding.py): snapping a position to the nearest keyframe,
    the straight-line heuristic, and A* over the proximity graph with
    back-pointer path reconstruction. */
module PathFinding {
  import opened Common
  import opened Keyframes
  import opened ProximityGraph
  import opened Walks

  /** `find_nearest_keyframe`: the id of the first item, in table order, at the
      least distance from `pos`; `None` for an empty table. */
  function NearestKeyframe(t: Table, pos: Point, dist: DistanceFn): (r: Option<int>)
    ensures r.None? <==> t == []
    ensures r.Some? ==> exists i :: (0 <= i < |t| && t[i].id == r.value
      && (forall j :: 0 <= j < |t| ==> dist(t[i].pos, pos) <= dist(t[j].pos, pos))
      && (forall j :: 0 <= j < i ==> dist(t[j].pos, pos) > dist(t[i].pos, pos)))
  {
    if t == [] then None else
      var ds := seq(|t|, j requires 0 <= j < |t| => dist(t[j].pos, pos));
      var i := FirstMin(ds);
      assert forall j :: 0 <= j < |t| ==> ds[j] == dist(t[j].pos, pos);
      Some(t[i].id)
  }

  /** Ties go to the earlier item, because only a strictly smaller distance
      replaces the current best. */
  lemma {:induction false} NearestKeyframeFirstOnTies(t: Table, pos: Point, dist: DistanceFn, i: nat)
    requires i < |t|
    requires forall j :: 0 <= j < |t| ==> dist(t[i].pos, pos) <= dist(t[j].pos, pos)
    requires forall j :: 0 <= j < i ==> dist(t[j].pos, pos) > dist(t[i].pos, pos)
    ensures NearestKeyframe(t, pos, dist) == Some(t[i].id)
  {
    var ds := seq(|t|, j requires 0 <= j < |t| => dist(t[j].pos, pos));
    FirstMinUnique(ds, i);
  }

  /** `heuristic(a, b)`: the distance between the stored positions. */
  function Heuristic(positions: map<int, Point>, dist: DistanceFn, a: int, b: int): (h: real)
    requires a in positions && b in positions
    ensures IsDistance(dist) ==> h >= 0.0
    ensures IsDistance(dist) && a == b ==> h == 0.0
  {
    dist(positions[a], positions[b])
  }

  /** The heuristic does not depend on the direction it is asked in. */
  lemma {:induction false} HeuristicSymmetric(positions: map<int, Point>, dist: DistanceFn, a: int, b: int)
    requires a in positions && b in positions && IsDistance(dist)
    ensures Heuristic(positions, dist, a, b) == Heuristic(positions, dist, b, a)
  {
  }

  /** The ids adjacent to `u`, in list order; a node missing from the graph
      has none (`graph.get(current, [])`). */
  function Successors(g: Graph, u: int): (r: seq<int>)
    ensures |r| == |Adjacency(g, u)|
    ensures forall k :: 0 <= k < |r| ==> r[k] == Adjacency(g, u)[k].to
  {
    var adj := Adjacency(g, u);
    seq(|adj|, k requires 0 <= k < |adj| => adj[k].to)
  }

  ghost function Next(g: Graph): Successors {
    u => Successors(g, u)
  }

  predicate NonNegativeWeights(g: Graph) {
    forall u, k :: u in g && 0 <= k < |g[u]| ==> g[u][k].weight >= 0.0
  }

  /** Every edge target has a stored position, so the heuristic is defined. */
  predicate TargetsPlaced(g: Graph, positions: map<int, Point>) {
    forall u, k :: u in g && 0 <= k < |g[u]| ==> g[u][k].to in positions
  }

  /** A heap entry: the tuple `(f_score, id)`. */
  datatype Entry = Entry(f: real, id: int)

  /** Tuple order, as `heapq` compares entries. */
  predicate EntryLe(a: Entry, b: Entry) {
    a.f < b.f || (a.f == b.f && a.id <= b.id)
  }

  /** The position of the entry `heappop` returns: a least one. */
  function LeastEntry(open: seq<Entry>): (m: nat)
    requires open != []
    ensures m < |open|
    ensures forall k :: 0 <= k < |open| ==> EntryLe(open[m], open[k])
  {
    if |open| == 1 then 0 else
      var b := LeastEntry(open[..|open| - 1]);
      if EntryLe(open[b], open[|open| - 1]) then b else |open| - 1
  }

  function Remove(open: seq<Entry>, m: nat): (r: seq<Entry>)
    requires m < |open|
    ensures |r| == |open| - 1
    ensures forall k :: 0 <= k < m ==> r[k] == open[k]
    ensures forall k :: m <= k < |r| ==> r[k] == open[k + 1]
  {
    open[..m] + open[m + 1..]
  }

  /** Some entry of the open set is for node `v`. */
  ghost predicate Queued(open: seq<Entry>, v: int) {
    exists k :: 0 <= k < |open| && open[k].id == v
  }

  /** The search state of `astar`: the heap, `came_from` and `g_score`. */
  datatype Frontier = Frontier(open: seq<Entry>, cameFrom: map<int, int>, gScore: map<int, real>)

  /** `a` comes before `b` in the order the scores were settled: a smaller
      score, or the same score assigned earlier. */
  ghost predicate Before(gScore: map<int, real>, stamp: map<int, nat>, a: int, b: int)
    requires a in gScore && b in gScore && a in stamp && b in stamp
  {
    gScore[a] < gScore[b] || (gScore[a] == gScore[b] && stamp[a] < stamp[b])
  }

  /** Every back-pointer leads to a node settled before its child. This is
      what makes `reconstruct_path` stop. */
  ghost predicate ParentsBefore(cameFrom: map<int, int>, gScore: map<int, real>, stamp: map<int, nat>) {
    && stamp.Keys == gScore.Keys
    && forall v :: v in cameFrom ==>
         v in gScore && cameFrom[v] in gScore && Before(gScore, stamp, cameFrom[v], v)
  }

  /** `reconstruct_path(came_from, current)`: follows back-pointers from
      `current` to a node without one and returns the nodes in forward order.
      The scores and stamps are ghost: they only witness termination. */
  method ReconstructPath(cameFrom: map<int, int>, current: int,
                         ghost gScore: map<int, real>, ghost stamp: map<int, nat>) returns (path: seq<int>)
    requires current in gScore && ParentsBefore(cameFrom, gScore, stamp)
    ensures path != [] && path[|path| - 1] == current && path[0] !in cameFrom
    ensures forall i :: 0 <= i < |path| ==> path[i] in gScore
    ensures forall i :: 0 < i < |path| ==> path[i] in cameFrom && cameFrom[path[i]] == path[i - 1]
    ensures current !in cameFrom ==> path == [current]
  {
    path := [current];
    var c := current;
    while c in cameFrom
      invariant path != [] && path[0] == c && path[|path| - 1] == current
      invariant forall i :: 0 <= i < |path| ==> path[i] in gScore
      invariant forall i :: 0 < i < |path| ==> Before(gScore, stamp, c, path[i])
      invariant forall i :: 0 < i < |path| ==> path[i] in cameFrom && cameFrom[path[i]] == path[i - 1]
      invariant current !in cameFrom ==> path == [current]
      decreases gScore.Keys - set i | 0 <= i < |path| :: path[i]
    {
      var p := cameFrom[c];
      ghost var prev := path;
      ghost var before := set i | 0 <= i < |path| :: path[i];
      path := [p] + path;
      assert p !in before by {
        forall i | 0 < i < |path| ensures path[i] != p {
          assert Before(gScore, stamp, p, path[i]);
        }
      }
      assert (set i | 0 <= i < |path| :: path[i]) == before + {p} by {
        forall x | x in before ensures exists i :: 0 <= i < |path| && path[i] == x {
          var i :| 0 <= i < |prev| && prev[i] == x;
          assert path[i + 1] == x;
        }
        assert path[0] == p;
      }
      c := p;
    }
  }

  /** What `astar` can end with: a path, `None` because the open set ran dry,
      or the step budget of this model was used up first. */
  datatype Outcome = Found(path: seq<int>) | NoPath | OutOfFuel

  /** The invariant of the search state. */
  ghost predicate Sound(g: Graph, start: int, s: Frontier, stamp: map<int, nat>, clock: nat) {
    && start in s.gScore && s.gScore[start] == 0.0 && start !in s.cameFrom
    && (forall v :: v in s.gScore ==> s.gScore[v] >= 0.0)
    && (forall v :: v in stamp ==> stamp[v] < clock)
    && ParentsBefore(s.cameFrom, s.gScore, stamp)
    && (forall v :: v in s.gScore && v != start ==> v in s.cameFrom)
    && (forall v :: v in s.cameFrom ==> v in Successors(g, s.cameFrom[v]))
    && (forall k :: 0 <= k < |s.open| ==> s.open[k].id in s.gScore)
  }

  /** Every scored node outside `busy` is still queued or has all its
      neighbours scored. */
  ghost predicate Explored(g: Graph, s: Frontier, busy: set<int>) {
    forall v :: v in s.gScore && v !in busy ==>
      Queued(s.open, v) || forall k :: 0 <= k < |Successors(g, v)| ==> Successors(g, v)[k] in s.gScore
  }

  /** Once the goal is scored it stays queued until it is popped. */
  ghost predicate GoalQueued(s: Frontier, goal: int) {
    goal in s.gScore ==> Queued(s.open, goal)
  }

  /** `astar(start_id, goal_id)`. The outer loop is bounded by `fuel` pops; the
      program itself loops until the open set is empty. */
  method AStar(g: Graph, positions: map<int, Point>, dist: DistanceFn, start: int, goal: int, fuel: nat)
    returns (r: Outcome)
    requires NonNegativeWeights(g) && TargetsPlaced(g, positions) && goal in positions
    ensures r.Found? ==> IsWalk(Next(g), r.path) && r.path[0] == start && r.path[|r.path| - 1] == goal
    ensures r.NoPath? ==> !Reachable(Next(g), start, goal)
    ensures start == goal && fuel > 0 ==> r == Found([start])
    ensures fuel == 0 ==> r == OutOfFuel
  {
    var s := Frontier([Entry(0.0, start)], map[], map[start := 0.0]);
    ghost var stamp: map<int, nat> := map[start := 0];
    ghost var clock: nat := 1;
    var steps := 0;
    assert Queued(s.open, start) by { assert s.open[0].id == start; }
    while s.open != [] && steps < fuel
      invariant Sound(g, start, s, stamp, clock) && Explored(g, s, {}) && GoalQueued(s, goal)
      invariant steps == 0 ==> s.open == [Entry(0.0, start)] && s.cameFrom == map[]
      invariant start == goal ==> steps == 0
      invariant steps <= fuel
      decreases fuel - steps
    {
      var m := LeastEntry(s.open);
      var u := s.open[m].id;
      var open := Remove(s.open, m);
      PopKeeps(g, s, m, goal);
      s := s.(open := open);
      if u == goal {
        var path := ReconstructPath(s.cameFrom, u, s.gScore, stamp);
        PathFollowsEdges(g, start, s, stamp, clock, path);
        return Found(path);
      }
      s, stamp, clock := Expand(g, positions, dist, start, goal, s, u, stamp, clock);
      steps := steps + 1;
    }
    if s.open == [] {
      NothingQueued(g, start, goal, s);
      return NoPath;
    }
    return OutOfFuel;
  }

  /** Popping an entry for `u` keeps every other node queued that was. */
  lemma {:induction false} PopKeeps(g: Graph, s: Frontier, m: nat, goal: int)
    requires m < |s.open|
    requires Explored(g, s, {}) && GoalQueued(s, goal)
    ensures var s' := s.(open := Remove(s.open, m));
      Explored(g, s', {s.open[m].id}) && (s.open[m].id != goal ==> GoalQueued(s', goal))
  {
    var open := Remove(s.open, m);
    forall v | Queued(s.open, v) && v != s.open[m].id ensures Queued(open, v) {
      var k :| 0 <= k < |s.open| && s.open[k].id == v;
      if k < m { assert open[k].id == v; } else { assert open[k - 1].id == v; }
    }
  }

  /** The reconstructed path starts at `start` and follows graph edges. */
  lemma {:induction false} PathFollowsEdges(g: Graph, start: int, s: Frontier, stamp: map<int, nat>, clock: nat, path: seq<int>)
    requires Sound(g, start, s, stamp, clock)
    requires path != [] && path[0] !in s.cameFrom
    requires forall i :: 0 <= i < |path| ==> path[i] in s.gScore
    requires forall i :: 0 < i < |path| ==> path[i] in s.cameFrom && s.cameFrom[path[i]] == path[i - 1]
    ensures IsWalk(Next(g), path) && path[0] == start
  {
    forall i | 0 < i < |path| ensures path[i] in Next(g)(path[i - 1]) {
      assert forall v :: v in s.cameFrom ==> v in Successors(g, s.cameFrom[v]);
    }
  }

  /** An empty open set leaves the scored nodes closed under the edges. */
  lemma {:induction false} NothingQueued(g: Graph, start: int, goal: int, s: Frontier)
    requires s.open == [] && start in s.gScore && Explored(g, s, {}) && GoalQueued(s, goal)
    ensures !Reachable(Next(g), start, goal)
  {
    var known := s.gScore.Keys;
    forall u, k | u in known && 0 <= k < |Next(g)(u)| ensures Next(g)(u)[k] in known {
      assert Next(g)(u) == Successors(g, u);
    }
    ClosedSetSeparates(Next(g), known, start, goal);
  }

  /** The inner loop of `astar`: relaxes every edge out of the popped node
      `u`, in list order, recording an improvement only when it is strict. */
  method Expand(g: Graph, positions: map<int, Point>, dist: DistanceFn, start: int, goal: int,
                s0: Frontier, u: int, ghost stamp0: map<int, nat>, ghost clock0: nat)
    returns (s: Frontier, ghost stamp: map<int, nat>, ghost clock: nat)
    requires NonNegativeWeights(g) && TargetsPlaced(g, positions) && goal in positions
    requires Sound(g, start, s0, stamp0, clock0) && u in s0.gScore && u != goal
    requires Explored(g, s0, {u}) && GoalQueued(s0, goal)
    ensures Sound(g, start, s, stamp, clock) && Explored(g, s, {}) && GoalQueued(s, goal)
    ensures s0.gScore.Keys <= s.gScore.Keys
  {
    s, stamp, clock := s0, stamp0, clock0;
    var adj := Adjacency(g, u);
    var k := 0;
    while k < |adj|
      invariant 0 <= k <= |adj|
      invariant Sound(g, start, s, stamp, clock) && Explored(g, s, {u}) && GoalQueued(s, goal)
      invariant u in s.gScore && s0.gScore.Keys <= s.gScore.Keys
      invariant forall i :: 0 <= i < k ==> adj[i].to in s.gScore
    {
      assert adj[k].to in positions by { assert u in g && g[u][k] == adj[k]; }
      var h := Heuristic(positions, dist, adj[k].to, goal);
      if Improves(g, s, u, k) {
        RelaxKeepsSound(g, start, s, u, k, h, stamp, clock);
        RelaxKeepsExplored(g, goal, s, u, k, h);
        stamp, clock := stamp[adj[k].to := clock], clock + 1;
      }
      s := Relax(g, s, u, k, h);
      k := k + 1;
    }
    ExpandDone(g, s, u);
  }

  /** The `k`-th edge out of `u` leads to a strictly better score than its
      target has, or to a target not scored yet. */
  predicate Improves(g: Graph, s: Frontier, u: int, k: nat)
    requires k < |Adjacency(g, u)| && u in s.gScore
  {
    var e := Adjacency(g, u)[k];
    e.to !in s.gScore || s.gScore[u] + e.weight < s.gScore[e.to]
  }

  /** One pass of the inner loop over the `k`-th edge out of `u`, given the
      heuristic `h` of its target: an improvement is recorded in `came_from`
      and `g_score` and pushed with f-score `tentative + h`; anything else
      leaves the state as it was. */
  function Relax(g: Graph, s: Frontier, u: int, k: nat, h: real): (r: Frontier)
    requires k < |Adjacency(g, u)| && u in s.gScore
    ensures u in r.gScore && s.gScore.Keys <= r.gScore.Keys && Adjacency(g, u)[k].to in r.gScore
    ensures var e := Adjacency(g, u)[k];
      if Improves(g, s, u, k)
      then Pushed(s, r, u, e.to, s.gScore[u] + e.weight) && r.open[|s.open|].f == s.gScore[u] + e.weight + h
      else r == s
  {
    var e := Adjacency(g, u)[k];
    var tentative := s.gScore[u] + e.weight;
    if Improves(g, s, u, k) then
      Frontier(s.open + [Entry(tentative + h, e.to)], s.cameFrom[e.to := u], s.gScore[e.to := tentative])
    else s
  }

  /** An improving pass scores and pushes the edge's target. */
  lemma {:induction false} RelaxPushes(g: Graph, s: Frontier, u: int, k: nat, h: real)
    requires k < |Adjacency(g, u)| && u in s.gScore && Improves(g, s, u, k)
    ensures Pushed(s, Relax(g, s, u, k, h), u, Adjacency(g, u)[k].to, s.gScore[u] + Adjacency(g, u)[k].weight)
  {
  }

  /** An improving pass keeps the search state sound, stamping the
      improved node with the current clock. */
  lemma {:induction false} RelaxKeepsSound(g: Graph, start: int, s: Frontier, u: int, k: nat, h: real,
                                           stamp: map<int, nat>, clock: nat)
    requires NonNegativeWeights(g) && k < |Adjacency(g, u)|
    requires Sound(g, start, s, stamp, clock) && u in s.gScore && Improves(g, s, u, k)
    ensures Sound(g, start, Relax(g, s, u, k, h), stamp[Adjacency(g, u)[k].to := clock], clock + 1)
  {
    var r := Relax(g, s, u, k, h);
    var e := Adjacency(g, u)[k];
    var v, tentative := e.to, s.gScore[u] + e.weight;
    assert u in g && g[u][k] == e && e.weight >= 0.0;
    assert v in Successors(g, u) by { assert Successors(g, u)[k] == v; }
    RelaxPushes(g, s, u, k, h);
    assert v != start && v != u;
    RelinkKeepsOrder(s.cameFrom, s.gScore, stamp, clock, u, v, tentative);
    forall j | 0 <= j < |r.open| ensures r.open[j].id in r.gScore {
      if j < |s.open| { assert r.open[j] == s.open[j]; }
    }
  }

  /** An improving pass keeps every explored node explored and the goal
      queued once scored. */
  lemma {:induction false} RelaxKeepsExplored(g: Graph, goal: int, s: Frontier, u: int, k: nat, h: real)
    requires k < |Adjacency(g, u)| && u in s.gScore && Improves(g, s, u, k)
    requires Explored(g, s, {u}) && GoalQueued(s, goal)
    ensures Explored(g, Relax(g, s, u, k, h), {u}) && GoalQueued(Relax(g, s, u, k, h), goal)
  {
    RelaxPushes(g, s, u, k, h);
    PushKeepsQueued(s.open, Relax(g, s, u, k, h).open, Adjacency(g, u)[k].to);
  }

  /** Pushing an entry for `v` after the queued ones keeps every queued node
      queued and queues `v`. */
  lemma {:induction false} PushKeepsQueued(open: seq<Entry>, open': seq<Entry>, v: int)
    requires |open'| == |open| + 1 && open'[|open|].id == v
    requires forall j :: 0 <= j < |open| ==> open'[j] == open[j]
    ensures Queued(open', v)
    ensures forall x :: Queued(open, x) ==> Queued(open', x)
  {
    assert open'[|open|].id == v;
    forall x | Queued(open, x) ensures Queued(open', x) {
      var j :| 0 <= j < |open| && open[j].id == x;
      assert open'[j].id == x;
    }
  }

  /** Once every neighbour of `u` is scored, `u` needs no queue entry. */
  lemma {:induction false} ExpandDone(g: Graph, s: Frontier, u: int)
    requires Explored(g, s, {u}) && u in s.gScore
    requires forall i :: 0 <= i < |Adjacency(g, u)| ==> Adjacency(g, u)[i].to in s.gScore
    ensures Explored(g, s, {})
  {
    assert forall i :: 0 <= i < |Successors(g, u)| ==> Successors(g, u)[i] in s.gScore;
  }

  /** `r` is `s` with `v` scored `tentative` through `u`, and an entry for
      `v` pushed after the entries already queued. */
  predicate Pushed(s: Frontier, r: Frontier, u: int, v: int, tentative: real) {
    && r.gScore == s.gScore[v := tentative] && r.cameFrom == s.cameFrom[v := u]
    && |r.open| == |s.open| + 1 && r.open[|s.open|].id == v
    && forall j :: 0 <= j < |s.open| ==> r.open[j] == s.open[j]
  }

  /** Giving `v` the parent `u` and a strictly better score, stamped now,
      keeps every parent settled before its child. */
  lemma {:induction false} RelinkKeepsOrder(cameFrom: map<int, int>, gScore: map<int, real>, stamp: map<int, nat>,
                                            clock: nat, u: int, v: int, tentative: real)
    requires ParentsBefore(cameFrom, gScore, stamp) && (forall x :: x in stamp ==> stamp[x] < clock)
    requires u in gScore && u != v && tentative >= gScore[u]
    requires v in gScore ==> tentative < gScore[v]
    ensures ParentsBefore(cameFrom[v := u], gScore[v := tentative], stamp[v := clock])
  {
    var cameFrom', gScore', stamp' := cameFrom[v := u], gScore[v := tentative], stamp[v := clock];
    forall c | c in cameFrom'
      ensures cameFrom'[c] in gScore' && Before(gScore', stamp', cameFrom'[c], c)
    {
      if c != v {
        assert Before(gScore, stamp, cameFrom[c], c);
      }
    }
  }
}
