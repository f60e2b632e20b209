/** `build_graph` (data_setup.py): every pair of distinct keyframes closer than
    the threshold becomes an undirected edge weighted by their distance. */
module ProximityGraph {
  import opened Common
  import opened Keyframes

  datatype Edge = Edge(to: int, weight: real)

  /** `dict` from id to its adjacency list, in append order. */
  type Graph = map<int, seq<Edge>>

  /** `graph.get(id, [])`. */
  function Adjacency(g: Graph, id: int): seq<Edge> {
    if id in g then g[id] else []
  }

  /** The weight `build_graph` stores for items `i` and `j`: the distance from
      the earlier item to the later one, on both sides of the edge. */
  function Weight(t: Table, dist: DistanceFn, i: nat, j: nat): real
    requires i < |t| && j < |t|
  {
    if i < j then dist(t[i].pos, t[j].pos) else dist(t[j].pos, t[i].pos)
  }

  predicate Close(t: Table, dist: DistanceFn, threshold: real, i: nat, j: nat)
    requires i < |t| && j < |t|
  {
    i != j && Weight(t, dist, i, j) < threshold
  }

  /** The edges of item `k` to the items before index `m`, in table order. */
  function NeighboursBelow(t: Table, dist: DistanceFn, threshold: real, k: nat, m: nat): seq<Edge>
    requires k < |t| && m <= |t|
  {
    if m == 0 then [] else
      NeighboursBelow(t, dist, threshold, k, m - 1)
      + (if Close(t, dist, threshold, k, m - 1) then [Edge(t[m - 1].id, Weight(t, dist, k, m - 1))] else [])
  }

  /** Item `k`'s full adjacency list: its close items, in table order. */
  function Neighbours(t: Table, dist: DistanceFn, threshold: real, k: nat): seq<Edge>
    requires k < |t|
  {
    NeighboursBelow(t, dist, threshold, k, |t|)
  }

  /** The graph `build_graph` returns, stated per id. Ids without neighbours are
      absent because the `defaultdict` never created them. */
  ghost predicate IsProximityGraph(g: Graph, t: Table, dist: DistanceFn, threshold: real) {
    && (forall id :: id in g ==> id in Ids(t) && g[id] != [])
    && (forall k {:trigger Adjacency(g, t[k].id)} :: 0 <= k < |t| ==> Adjacency(g, t[k].id) == Neighbours(t, dist, threshold, k))
  }

  /** How far the adjacency list of item `k` has been filled when the outer
      loop is at `i` and the inner loop at `j`. */
  function Filled(k: nat, i: nat, j: nat, n: nat): nat {
    if k < i then n else if k == i then j else if k < j then i + 1 else i
  }

  ghost predicate Progress(g: Graph, t: Table, dist: DistanceFn, threshold: real, i: nat, j: nat)
    requires i < |t| && j <= |t|
  {
    && (forall id :: id in g ==> id in Ids(t) && g[id] != [])
    && (forall k {:trigger Adjacency(g, t[k].id)} :: 0 <= k < |t| ==>
          Adjacency(g, t[k].id) == NeighboursBelow(t, dist, threshold, k, Filled(k, i, j, |t|)))
  }

  /** Both appends of one undirected edge. */
  function Link(g: Graph, a: int, b: int, w: real): Graph {
    var g1 := g[a := Adjacency(g, a) + [Edge(b, w)]];
    g1[b := Adjacency(g1, b) + [Edge(a, w)]]
  }

  /** One pass of the inner loop: the pair `(i, j)` is linked when the
      distance from item `i` to item `j` is below the threshold. */
  function Visit(g: Graph, t: Table, dist: DistanceFn, threshold: real, i: nat, j: nat): Graph
    requires i < |t| && j < |t|
  {
    var w := dist(t[i].pos, t[j].pos);
    if w < threshold then Link(g, t[i].id, t[j].id, w) else g
  }

  /** The lists after the outer loop has finished items `0..i-1`. */
  ghost predicate OuterDone(g: Graph, t: Table, dist: DistanceFn, threshold: real, i: nat)
    requires i <= |t|
  {
    && (forall id :: id in g ==> id in Ids(t) && g[id] != [])
    && (forall k {:trigger Adjacency(g, t[k].id)} :: 0 <= k < |t| ==>
          Adjacency(g, t[k].id) == NeighboursBelow(t, dist, threshold, k, if k < i then |t| else i))
  }

  /** `build_graph(keyframes, distance_threshold)`: the outer loop. */
  method BuildGraph(t: Table, dist: DistanceFn, threshold: real) returns (g: Graph)
    requires DistinctIds(t)
    ensures IsProximityGraph(g, t, dist, threshold)
  {
    g := map[];
    var i := 0;
    StartEmpty(t, dist, threshold);
    while i < |t|
      invariant 0 <= i <= |t|
      invariant OuterDone(g, t, dist, threshold, i)
    {
      g := LinkLater(g, t, dist, threshold, i);
      i := i + 1;
    }
    Finish(g, t, dist, threshold);
  }

  /** The inner loop of `build_graph`: links item `i` with every later item
      that is close enough. */
  method LinkLater(g0: Graph, t: Table, dist: DistanceFn, threshold: real, i: nat) returns (g: Graph)
    requires DistinctIds(t) && i < |t|
    requires OuterDone(g0, t, dist, threshold, i)
    ensures OuterDone(g, t, dist, threshold, i + 1)
  {
    g := g0;
    var j := i + 1;
    while j < |t|
      invariant i + 1 <= j <= |t|
      invariant g == InnerLinks(g0, t, dist, threshold, i, j)
    {
      g := Visit(g, t, dist, threshold, i, j);
      j := j + 1;
    }
    InnerLinksProgress(g0, t, dist, threshold, i, |t|);
    LeaveInner(g, t, dist, threshold, i);
  }

  /** The graph after the inner loop has visited the pairs `(i, i+1)` to
      `(i, j-1)`. */
  function InnerLinks(g0: Graph, t: Table, dist: DistanceFn, threshold: real, i: nat, j: nat): Graph
    requires i < j <= |t|
    decreases j
  {
    if j == i + 1 then g0 else Visit(InnerLinks(g0, t, dist, threshold, i, j - 1), t, dist, threshold, i, j - 1)
  }

  lemma {:induction false} InnerLinksProgress(g0: Graph, t: Table, dist: DistanceFn, threshold: real, i: nat, j: nat)
    requires DistinctIds(t) && i < j <= |t|
    requires OuterDone(g0, t, dist, threshold, i)
    ensures Progress(InnerLinks(g0, t, dist, threshold, i, j), t, dist, threshold, i, j)
  {
    EnterInner(g0, t, dist, threshold, i);
    var g := InnerLinks(g0, t, dist, threshold, i, j);
    forall k | 0 <= k < |t|
      ensures Adjacency(g, t[k].id) == NeighboursBelow(t, dist, threshold, k, Filled(k, i, j, |t|))
    {
      assert Unique(t, k);
      InnerLinksAt(g0, t, dist, threshold, i, j, k);
    }
    InnerLinksKeys(g0, t, dist, threshold, i, j);
  }

  /** Item `k`'s list as the inner loop goes, one item at a time. */
  lemma {:induction false} InnerLinksAt(g0: Graph, t: Table, dist: DistanceFn, threshold: real, i: nat, j: nat, k: nat)
    requires i < j <= |t| && k < |t| && Unique(t, k)
    requires Adjacency(g0, t[k].id) == NeighboursBelow(t, dist, threshold, k, Filled(k, i, i + 1, |t|))
    ensures Adjacency(InnerLinks(g0, t, dist, threshold, i, j), t[k].id)
      == NeighboursBelow(t, dist, threshold, k, Filled(k, i, j, |t|))
    decreases j
  {
    if j > i + 1 {
      var g := InnerLinks(g0, t, dist, threshold, i, j - 1);
      InnerLinksStep(g0, t, dist, threshold, i, j);
      InnerLinksAt(g0, t, dist, threshold, i, j - 1, k);
      VisitAt(g, t, dist, threshold, i, j - 1, k);
    }
  }

  lemma {:induction false} InnerLinksStep(g0: Graph, t: Table, dist: DistanceFn, threshold: real, i: nat, j: nat)
    requires i + 1 < j <= |t|
    ensures InnerLinks(g0, t, dist, threshold, i, j)
      == Visit(InnerLinks(g0, t, dist, threshold, i, j - 1), t, dist, threshold, i, j - 1)
  {
  }

  /** Every key of the graph stays a keyframe id with a non-empty list. */
  lemma {:induction false} InnerLinksKeys(g0: Graph, t: Table, dist: DistanceFn, threshold: real, i: nat, j: nat)
    requires i < j <= |t|
    requires forall id :: id in g0 ==> id in Ids(t) && g0[id] != []
    ensures var g := InnerLinks(g0, t, dist, threshold, i, j);
      forall id :: id in g ==> id in Ids(t) && g[id] != []
    decreases j
  {
    if j > i + 1 {
      var g := InnerLinks(g0, t, dist, threshold, i, j - 1);
      InnerLinksKeys(g0, t, dist, threshold, i, j - 1);
      var g' := Visit(g, t, dist, threshold, i, j - 1);
      forall id | id in g' ensures id in Ids(t) && g'[id] != [] {
        if id !in g {
          assert id == t[i].id || id == t[j - 1].id;
        }
      }
    }
  }

  lemma {:induction false} StartEmpty(t: Table, dist: DistanceFn, threshold: real)
    ensures OuterDone(map[], t, dist, threshold, 0)
  {
  }

  lemma {:induction false} Finish(g: Graph, t: Table, dist: DistanceFn, threshold: real)
    requires OuterDone(g, t, dist, threshold, |t|)
    ensures IsProximityGraph(g, t, dist, threshold)
  {
  }

  lemma {:induction false} EnterInner(g: Graph, t: Table, dist: DistanceFn, threshold: real, i: nat)
    requires i < |t| && OuterDone(g, t, dist, threshold, i)
    ensures Progress(g, t, dist, threshold, i, i + 1)
  {
    assert NeighboursBelow(t, dist, threshold, i, i + 1) == NeighboursBelow(t, dist, threshold, i, i);
    forall k | 0 <= k < |t|
      ensures Adjacency(g, t[k].id) == NeighboursBelow(t, dist, threshold, k, Filled(k, i, i + 1, |t|))
    {
    }
  }

  lemma {:induction false} LeaveInner(g: Graph, t: Table, dist: DistanceFn, threshold: real, i: nat)
    requires i < |t| && Progress(g, t, dist, threshold, i, |t|)
    ensures OuterDone(g, t, dist, threshold, i + 1)
  {
    forall k | 0 <= k < |t|
      ensures Adjacency(g, t[k].id) == NeighboursBelow(t, dist, threshold, k, if k < i + 1 then |t| else i + 1)
    {
      assert Filled(k, i, |t|, |t|) == if k < i + 1 then |t| else i + 1;
    }
  }

  /** One pass of the inner loop appends the pair's edge, if any, to both
      lists and leaves every other list alone. */
  lemma {:induction false} VisitAt(g: Graph, t: Table, dist: DistanceFn, threshold: real, i: nat, j: nat, k: nat)
    requires i < j < |t| && k < |t| && Unique(t, k)
    requires Adjacency(g, t[k].id) == NeighboursBelow(t, dist, threshold, k, Filled(k, i, j, |t|))
    ensures Adjacency(Visit(g, t, dist, threshold, i, j), t[k].id)
      == NeighboursBelow(t, dist, threshold, k, Filled(k, i, j + 1, |t|))
  {
    if k == i {
      assert Filled(k, i, j, |t|) == j && Filled(k, i, j + 1, |t|) == j + 1;
      assert t[j].id != t[i].id;
      VisitOuter(g, t, dist, threshold, i, j);
    } else if k == j {
      assert Filled(k, i, j, |t|) == i && Filled(k, i, j + 1, |t|) == i + 1;
      assert t[i].id != t[j].id;
      VisitInner(g, t, dist, threshold, i, j);
    } else {
      assert Filled(k, i, j, |t|) == Filled(k, i, j + 1, |t|);
      assert t[k].id != t[i].id && t[k].id != t[j].id;
      VisitOther(g, t, dist, threshold, i, j, k);
    }
  }

  /** Item `i`'s list grows by the edge to `j`, if the pair is close. */
  lemma {:induction false} VisitOuter(g: Graph, t: Table, dist: DistanceFn, threshold: real, i: nat, j: nat)
    requires i < j < |t| && t[i].id != t[j].id
    requires Adjacency(g, t[i].id) == NeighboursBelow(t, dist, threshold, i, j)
    ensures Adjacency(Visit(g, t, dist, threshold, i, j), t[i].id) == NeighboursBelow(t, dist, threshold, i, j + 1)
  {
    var w := dist(t[i].pos, t[j].pos);
    assert Weight(t, dist, i, j) == w;
    assert NeighboursBelow(t, dist, threshold, i, j + 1) == NeighboursBelow(t, dist, threshold, i, j)
      + (if w < threshold then [Edge(t[j].id, w)] else []);
  }

  /** Item `j`'s list grows by the edge to `i`, if the pair is close. */
  lemma {:induction false} VisitInner(g: Graph, t: Table, dist: DistanceFn, threshold: real, i: nat, j: nat)
    requires i < j < |t| && t[i].id != t[j].id
    requires Adjacency(g, t[j].id) == NeighboursBelow(t, dist, threshold, j, i)
    ensures Adjacency(Visit(g, t, dist, threshold, i, j), t[j].id) == NeighboursBelow(t, dist, threshold, j, i + 1)
  {
    var w := dist(t[i].pos, t[j].pos);
    assert Weight(t, dist, j, i) == w;
    assert NeighboursBelow(t, dist, threshold, j, i + 1) == NeighboursBelow(t, dist, threshold, j, i)
      + (if w < threshold then [Edge(t[i].id, w)] else []);
  }

  /** Every other list is left alone. */
  lemma {:induction false} VisitOther(g: Graph, t: Table, dist: DistanceFn, threshold: real, i: nat, j: nat, k: nat)
    requires i < j < |t| && k < |t| && t[k].id != t[i].id && t[k].id != t[j].id
    ensures Adjacency(Visit(g, t, dist, threshold, i, j), t[k].id) == Adjacency(g, t[k].id)
  {
  }

  /** No other item shares item `k`'s id. */
  predicate Unique(t: Table, k: nat)
    requires k < |t|
  {
    forall q :: 0 <= q < |t| && q != k ==> t[q].id != t[k].id
  }

  /** The edges below `m` are exactly the close items before `m`. */
  lemma {:induction false} NeighboursBelowMember(t: Table, dist: DistanceFn, threshold: real, k: nat, m: nat, e: Edge)
    requires k < |t| && m <= |t|
    ensures e in NeighboursBelow(t, dist, threshold, k, m) <==>
      exists q :: 0 <= q < m && Close(t, dist, threshold, k, q) && e == Edge(t[q].id, Weight(t, dist, k, q))
  {
    if m > 0 {
      NeighboursBelowMember(t, dist, threshold, k, m - 1, e);
    }
  }

  predicate NoRepeatedTargets(es: seq<Edge>) {
    forall a, b :: 0 <= a < b < |es| ==> es[a].to != es[b].to
  }

  /** Positions in a list of edges below `m` come from increasing items. */
  lemma {:induction false} NeighboursBelowDistinct(t: Table, dist: DistanceFn, threshold: real, k: nat, m: nat)
    requires DistinctIds(t) && k < |t| && m <= |t|
    ensures forall e :: e in NeighboursBelow(t, dist, threshold, k, m) ==> exists q :: 0 <= q < m && e.to == t[q].id
    ensures NoRepeatedTargets(NeighboursBelow(t, dist, threshold, k, m))
  {
    if m > 0 {
      NeighboursBelowDistinct(t, dist, threshold, k, m - 1);
      var ns := NeighboursBelow(t, dist, threshold, k, m);
      var prev := NeighboursBelow(t, dist, threshold, k, m - 1);
      var tail := if Close(t, dist, threshold, k, m - 1) then [Edge(t[m - 1].id, Weight(t, dist, k, m - 1))] else [];
      assert ns == prev + tail;
      forall e | e in ns ensures exists q :: 0 <= q < m && e.to == t[q].id {
        if e !in prev {
          assert e.to == t[m - 1].id;
        }
      }
      forall a, b | 0 <= a < b < |ns| ensures ns[a].to != ns[b].to {
        if b >= |prev| {
          assert ns[a] == prev[a];
          assert ns[a] in prev;
          var q :| 0 <= q < m - 1 && ns[a].to == t[q].id;
          assert ns[b] == tail[0];
          assert t[q].id != t[m - 1].id;
        } else {
          assert ns[a] == prev[a] && ns[b] == prev[b];
        }
      }
    }
  }

  /** The adjacency list of item `i` in the built graph holds exactly one edge
      per close item, weighted as `build_graph` weighs it. */
  lemma {:induction false} EdgeOfItem(g: Graph, t: Table, dist: DistanceFn, threshold: real, i: nat, e: Edge)
    requires DistinctIds(t) && i < |t| && IsProximityGraph(g, t, dist, threshold)
    ensures e in Adjacency(g, t[i].id) <==>
      exists q :: 0 <= q < |t| && Close(t, dist, threshold, i, q) && e == Edge(t[q].id, Weight(t, dist, i, q))
  {
    NeighboursBelowMember(t, dist, threshold, i, |t|, e);
  }

  /** No keyframe is linked to itself: the inner loop starts after the outer
      index and the ids are distinct. */
  lemma {:induction false} NoSelfEdge(g: Graph, t: Table, dist: DistanceFn, threshold: real, id: int, e: Edge)
    requires DistinctIds(t) && IsProximityGraph(g, t, dist, threshold)
    requires e in Adjacency(g, id)
    ensures e.to != id
  {
    var i := IndexOf(t, id);
    EdgeOfItem(g, t, dist, threshold, i, e);
  }

  /** Edges are undirected: `(b, w)` is among `a`'s neighbours exactly when
      `(a, w)` is among `b`'s, with the same weight. */
  lemma {:induction false} Symmetric(g: Graph, t: Table, dist: DistanceFn, threshold: real, a: int, b: int, w: real)
    requires DistinctIds(t) && IsProximityGraph(g, t, dist, threshold)
    ensures Edge(b, w) in Adjacency(g, a) <==> Edge(a, w) in Adjacency(g, b)
  {
    if Edge(b, w) in Adjacency(g, a) {
      OneWay(g, t, dist, threshold, a, b, w);
    }
    if Edge(a, w) in Adjacency(g, b) {
      OneWay(g, t, dist, threshold, b, a, w);
    }
  }

  lemma {:induction false} OneWay(g: Graph, t: Table, dist: DistanceFn, threshold: real, a: int, b: int, w: real)
    requires DistinctIds(t) && IsProximityGraph(g, t, dist, threshold)
    requires Edge(b, w) in Adjacency(g, a)
    ensures Edge(a, w) in Adjacency(g, b)
  {
    var i := IndexOf(t, a);
    EdgeOfItem(g, t, dist, threshold, i, Edge(b, w));
    var q :| 0 <= q < |t| && Close(t, dist, threshold, i, q) && Edge(b, w) == Edge(t[q].id, Weight(t, dist, i, q));
    assert Close(t, dist, threshold, q, i) && Weight(t, dist, q, i) == w;
    EdgeOfItem(g, t, dist, threshold, q, Edge(a, w));
  }

  /** Two distinct keyframes are linked, by an edge weighted with their
      distance, exactly when that distance is strictly below the threshold. */
  lemma {:induction false} LinkedIffClose(g: Graph, t: Table, dist: DistanceFn, threshold: real, i: nat, j: nat)
    requires DistinctIds(t) && i < |t| && j < |t| && IsProximityGraph(g, t, dist, threshold)
    requires IsDistance(dist)
    ensures Edge(t[j].id, dist(t[i].pos, t[j].pos)) in Adjacency(g, t[i].id)
      <==> i != j && dist(t[i].pos, t[j].pos) < threshold
    ensures forall e :: e in Adjacency(g, t[i].id) && e.to == t[j].id ==> e.weight == dist(t[i].pos, t[j].pos)
  {
    assert Weight(t, dist, i, j) == dist(t[i].pos, t[j].pos);
    EdgeOfItem(g, t, dist, threshold, i, Edge(t[j].id, dist(t[i].pos, t[j].pos)));
    forall e | e in Adjacency(g, t[i].id) && e.to == t[j].id ensures e.weight == dist(t[i].pos, t[j].pos) {
      EdgeOfItem(g, t, dist, threshold, i, e);
      var q :| 0 <= q < |t| && Close(t, dist, threshold, i, q) && e == Edge(t[q].id, Weight(t, dist, i, q));
      assert q == j;
    }
  }

  /** Each neighbour appears at most once in an adjacency list, and an id is a
      key of the graph exactly when it has at least one neighbour. */
  lemma {:induction false} ListsWithoutRepeats(g: Graph, t: Table, dist: DistanceFn, threshold: real, id: int)
    requires DistinctIds(t) && IsProximityGraph(g, t, dist, threshold)
    ensures NoRepeatedTargets(Adjacency(g, id))
    ensures id in g <==> Adjacency(g, id) != []
  {
    if id in Ids(t) {
      var k := IndexOf(t, id);
      assert Adjacency(g, t[k].id) == Neighbours(t, dist, threshold, k);
      NeighboursBelowDistinct(t, dist, threshold, k, |t|);
    }
  }

  /** With a distance function every weight is non-negative. */
  lemma {:induction false} WeightsNonNegative(g: Graph, t: Table, dist: DistanceFn, threshold: real, id: int, e: Edge)
    requires DistinctIds(t) && IsProximityGraph(g, t, dist, threshold) && IsDistance(dist)
    requires e in Adjacency(g, id)
    ensures e.weight >= 0.0
  {
    var i := IndexOf(t, id);
    EdgeOfItem(g, t, dist, threshold, i, e);
  }
}
