/** `DistanceCalculator` (distance_calculator.py, identical under
    src/navsystem/): path length, snapping to the nearest path node, distance
    to the next turn, the reporting threshold and the spoken rounding policy;
    plus `_calculate_remaining_distance` of the navigation session, which
    shares the snapping loop. */
module Progress {
  import opened Common
  import opened Text

  /** The summed segment lengths from node `i` to node `j`. */
  function Span(ps: seq<Point>, dist: DistanceFn, i: nat, j: nat): (r: real)
    requires i <= j < |ps|
    decreases j - i
  {
    if i == j then 0.0 else dist(ps[i], ps[i + 1]) + Span(ps, dist, i + 1, j)
  }

  /** Walking to `j` and then on to `k` covers the segments from `i` to `k`. */
  lemma {:induction false} SpanSplit(ps: seq<Point>, dist: DistanceFn, i: nat, j: nat, k: nat)
    requires i <= j <= k < |ps|
    ensures Span(ps, dist, i, k) == Span(ps, dist, i, j) + Span(ps, dist, j, k)
    decreases j - i
  {
    if i < j {
      SpanSplit(ps, dist, i + 1, j, k);
    }
  }

  lemma {:induction false} SpanNonNegative(ps: seq<Point>, dist: DistanceFn, i: nat, j: nat)
    requires i <= j < |ps|
    ensures IsDistance(dist) ==> Span(ps, dist, i, j) >= 0.0
    decreases j - i
  {
    if i < j {
      SpanNonNegative(ps, dist, i + 1, j);
    }
  }

  /** `calculate_path_distance`: 0 for fewer than two points. */
  function PathDistance(ps: seq<Point>, dist: DistanceFn): (r: real)
    ensures |ps| < 2 ==> r == 0.0
    ensures IsDistance(dist) ==> r >= 0.0
  {
    if |ps| < 2 then 0.0 else
      SpanNonNegative(ps, dist, 0, |ps| - 1);
      Span(ps, dist, 0, |ps| - 1)
  }

  /** Appending a point adds exactly the new last segment. */
  lemma {:induction false} PathDistanceSnoc(ps: seq<Point>, dist: DistanceFn, q: Point)
    requires |ps| >= 1
    ensures PathDistance(ps + [q], dist) == PathDistance(ps, dist) + dist(ps[|ps| - 1], q)
  {
    var qs := ps + [q];
    SpanSplit(qs, dist, 0, |ps| - 1, |ps|);
    SpanPrefix(ps, q, dist, 0, |ps| - 1);
  }

  lemma {:induction false} SpanPrefix(ps: seq<Point>, q: Point, dist: DistanceFn, i: nat, j: nat)
    requires i <= j < |ps|
    ensures Span(ps + [q], dist, i, j) == Span(ps, dist, i, j)
    decreases j - i
  {
    if i < j {
      SpanPrefix(ps, q, dist, i + 1, j);
    }
  }

  /** A Euclidean distance takes the value the square root would. */
  lemma {:induction false} EuclideanValue(dist: DistanceFn, p: Point, q: Point, v: real)
    requires IsEuclidean(dist) && v >= 0.0 && v * v == SquaredDistance(p, q)
    ensures dist(p, q) == v
  {
    SquareRootUnique(dist(p, q), v);
  }

  /** The calculator's test: the path (0,0,0), (3,0,0), (3,4,0) is 7 long. */
  lemma {:induction false} PathDistanceExample(dist: DistanceFn)
    requires IsEuclidean(dist)
    ensures PathDistance([Point(0.0, 0.0, 0.0), Point(3.0, 0.0, 0.0), Point(3.0, 4.0, 0.0)], dist) == 7.0
  {
    var ps := [Point(0.0, 0.0, 0.0), Point(3.0, 0.0, 0.0), Point(3.0, 4.0, 0.0)];
    EuclideanValue(dist, ps[0], ps[1], 3.0);
    EuclideanValue(dist, ps[1], ps[2], 4.0);
  }

  /** The distances from the current position to each path node. */
  function Offsets(pos: Point, ps: seq<Point>, dist: DistanceFn): (ds: seq<real>)
    ensures |ds| == |ps|
    ensures forall i :: 0 <= i < |ps| ==> ds[i] == dist(pos, ps[i])
  {
    seq(|ps|, i requires 0 <= i < |ps| => dist(pos, ps[i]))
  }

  /** `closest_node_idx`: the first node at the least distance, 0 when the
      path is empty. */
  function SnapIndex(pos: Point, ps: seq<Point>, dist: DistanceFn): (i: nat)
    ensures ps == [] ==> i == 0
    ensures ps != [] ==> i < |ps|
    ensures forall j :: 0 <= j < |ps| ==> dist(pos, ps[i]) <= dist(pos, ps[j])
    ensures forall j :: 0 <= j < i ==> dist(pos, ps[j]) > dist(pos, ps[i])
  {
    if ps == [] then 0 else FirstMin(Offsets(pos, ps, dist))
  }

  /** The position in `turns` of its first entry past `snap`. */
  function FirstPast(turns: seq<int>, snap: nat): (r: Option<nat>)
    ensures r.None? <==> forall k :: 0 <= k < |turns| ==> turns[k] <= snap
    ensures r.Some? ==> r.value < |turns| && turns[r.value] > snap
    ensures r.Some? ==> forall k :: 0 <= k < r.value ==> turns[k] <= snap
  {
    if turns == [] then None
    else if turns[0] > snap then Some(0)
    else match FirstPast(turns[1..], snap)
      case None => None
      case Some(k) => Some(k + 1)
  }

  /** What `calculate_distance_to_turn` can end with: `(None, None)`, a
      distance and node index, or the `IndexError` raised when the chosen turn
      index is not a node of the path. */
  datatype TurnAhead = NoTurnAhead | Ahead(distance: real, index: nat) | IndexOutOfRange

  /** `calculate_distance_to_turn(current, path_positions, turn_indices)`. */
  function DistanceToTurn(pos: Point, ps: seq<Point>, turns: seq<int>, dist: DistanceFn): (r: TurnAhead)
    ensures r.NoTurnAhead? <==> forall k :: 0 <= k < |turns| ==> turns[k] <= SnapIndex(pos, ps, dist)
    ensures r.Ahead? ==> exists k :: (0 <= k < |turns| && turns[k] == r.index
      && (forall l :: 0 <= l < k ==> turns[l] <= SnapIndex(pos, ps, dist)))
    ensures r.Ahead? ==> (SnapIndex(pos, ps, dist) < r.index < |ps|
      && r.distance == dist(pos, ps[SnapIndex(pos, ps, dist)]) + Span(ps, dist, SnapIndex(pos, ps, dist), r.index))
    ensures r.Ahead? && IsDistance(dist) ==> r.distance >= dist(pos, ps[SnapIndex(pos, ps, dist)])
  {
    var snap := SnapIndex(pos, ps, dist);
    match FirstPast(turns, snap)
    case None => NoTurnAhead
    case Some(k) =>
      var t := turns[k];
      if t >= |ps| then IndexOutOfRange else
        SpanNonNegative(ps, dist, snap, t);
        Ahead(dist(pos, ps[snap]) + Span(ps, dist, snap, t), t)
  }

  /** The index error happens exactly when the first turn past the snapped node
      lies beyond the path; turn indices taken from the path never cause it. */
  lemma {:induction false} DistanceToTurnInRange(pos: Point, ps: seq<Point>, turns: seq<int>, dist: DistanceFn)
    requires forall k :: 0 <= k < |turns| ==> turns[k] < |ps|
    ensures !DistanceToTurn(pos, ps, turns, dist).IndexOutOfRange?
  {
  }

  /** The calculator's test: from the origin along (0,0,0), (1,0,0), (2,0,0),
      (3,4,0) with turns at 2 and 3, the next turn is node 2, 2 metres away,
      for any distance that makes the first two segments 1 long (the
      Euclidean one does: `UnitSteps`). */
  lemma {:induction false} DistanceToTurnExample(dist: DistanceFn)
    requires IsDistance(dist)
    requires dist(Point(0.0, 0.0, 0.0), Point(1.0, 0.0, 0.0)) == 1.0
    requires dist(Point(1.0, 0.0, 0.0), Point(2.0, 0.0, 0.0)) == 1.0
    ensures DistanceToTurn(Point(0.0, 0.0, 0.0),
                           [Point(0.0, 0.0, 0.0), Point(1.0, 0.0, 0.0), Point(2.0, 0.0, 0.0), Point(3.0, 4.0, 0.0)],
                           [2, 3], dist) == Ahead(2.0, 2)
  {
    var o := Point(0.0, 0.0, 0.0);
    TurnTwoAhead(o, [o, Point(1.0, 0.0, 0.0), Point(2.0, 0.0, 0.0), Point(3.0, 4.0, 0.0)], [2, 3], dist);
  }

  lemma {:induction false} TurnTwoAhead(pos: Point, ps: seq<Point>, turns: seq<int>, dist: DistanceFn)
    requires IsDistance(dist) && |ps| == 4 && turns == [2, 3]
    requires dist(pos, ps[0]) == 0.0 && dist(ps[0], ps[1]) == 1.0 && dist(ps[1], ps[2]) == 1.0
    ensures DistanceToTurn(pos, ps, turns, dist) == Ahead(2.0, 2)
  {
    SnapAtStart(pos, ps, dist);
    TwoUnitSegments(ps, dist);
    assert FirstPast(turns, 0) == Some(0);
  }

  /** The Euclidean distance meets the example's requirements. */
  lemma {:induction false} UnitSteps(dist: DistanceFn)
    requires IsEuclidean(dist)
    ensures IsDistance(dist)
    ensures dist(Point(0.0, 0.0, 0.0), Point(1.0, 0.0, 0.0)) == 1.0
    ensures dist(Point(1.0, 0.0, 0.0), Point(2.0, 0.0, 0.0)) == 1.0
  {
    EuclideanIsDistance(dist);
    EuclideanValue(dist, Point(0.0, 0.0, 0.0), Point(1.0, 0.0, 0.0), 1.0);
    EuclideanValue(dist, Point(1.0, 0.0, 0.0), Point(2.0, 0.0, 0.0), 1.0);
  }

  /** Standing on the first node snaps to it. */
  lemma {:induction false} SnapAtStart(pos: Point, ps: seq<Point>, dist: DistanceFn)
    requires IsDistance(dist) && ps != [] && dist(pos, ps[0]) == 0.0
    ensures SnapIndex(pos, ps, dist) == 0
  {
  }

  lemma {:induction false} TwoUnitSegments(ps: seq<Point>, dist: DistanceFn)
    requires |ps| >= 3 && dist(ps[0], ps[1]) == 1.0 && dist(ps[1], ps[2]) == 1.0
    ensures Span(ps, dist, 0, 2) == 2.0
  {
    assert Span(ps, dist, 1, 2) == 1.0;
  }

  /** `_calculate_remaining_distance` (navigation_system.py): `None` without a
      path, else the snap distance plus every segment from the snapped node to
      the end. */
  function RemainingDistance(pos: Point, ps: seq<Point>, dist: DistanceFn): (r: Option<real>)
    ensures r.None? <==> ps == []
    ensures r.Some? && IsDistance(dist) ==> r.value >= dist(pos, ps[SnapIndex(pos, ps, dist)])
  {
    if ps == [] then None else
      var snap := SnapIndex(pos, ps, dist);
      SpanNonNegative(ps, dist, snap, |ps| - 1);
      Some(dist(pos, ps[snap]) + Span(ps, dist, snap, |ps| - 1))
  }

  /** The segments of a tail of the path are the segments of the path shifted
      by the tail's start. */
  lemma {:induction false} SpanDrop(ps: seq<Point>, dist: DistanceFn, a: nat, k: nat, m: nat)
    requires a + k <= a + m < |ps|
    ensures Span(ps[a..], dist, k, m) == Span(ps, dist, a + k, a + m)
    decreases m - k
  {
    if k < m {
      SpanDrop(ps, dist, a, k + 1, m);
      assert ps[a..][k] == ps[a + k] && ps[a..][k + 1] == ps[a + k + 1];
    }
  }

  /** On every path the remaining distance is the distance to the snapped node
      plus `calculate_path_distance` of the path from that node on. */
  lemma {:induction false} RemainingIsRestOfPath(pos: Point, ps: seq<Point>, dist: DistanceFn)
    requires ps != []
    ensures var snap := SnapIndex(pos, ps, dist);
      RemainingDistance(pos, ps, dist) == Some(dist(pos, ps[snap]) + PathDistance(ps[snap..], dist))
  {
    var snap := SnapIndex(pos, ps, dist);
    var rest := ps[snap..];
    if |rest| < 2 {
      assert Span(ps, dist, snap, |ps| - 1) == 0.0;
    } else {
      SpanDrop(ps, dist, snap, 0, |rest| - 1);
    }
  }

  /** The way to the end passes the next turn: the remaining distance is the
      distance to that turn plus the rest of the path after it. */
  lemma {:induction false} RemainingPassesTurn(pos: Point, ps: seq<Point>, turns: seq<int>, dist: DistanceFn)
    requires DistanceToTurn(pos, ps, turns, dist).Ahead?
    ensures var a := DistanceToTurn(pos, ps, turns, dist);
      RemainingDistance(pos, ps, dist) == Some(a.distance + Span(ps, dist, a.index, |ps| - 1))
  {
    var a := DistanceToTurn(pos, ps, turns, dist);
    var snap := SnapIndex(pos, ps, dist);
    assert snap < a.index < |ps| && a.distance == dist(pos, ps[snap]) + Span(ps, dist, snap, a.index);
    assert RemainingDistance(pos, ps, dist) == Some(dist(pos, ps[snap]) + Span(ps, dist, snap, |ps| - 1));
    SpanSplit(ps, dist, snap, a.index, |ps| - 1);
  }

  /** The reporting state: `distance_update_threshold` and
      `last_reported_distance`. */
  datatype Tracker = Tracker(threshold: real, last: real)

  /** A fresh calculator: threshold 1 metre, nothing reported yet. */
  const FreshTracker := Tracker(1.0, 0.0)

  /** `should_update_distance(new_distance)`: the answer and the state after. */
  function ShouldUpdate(tr: Tracker, d: real): (r: (bool, Tracker))
    ensures r.0 <==> Abs(d - tr.last) >= tr.threshold
    ensures r.1.threshold == tr.threshold
    ensures r.0 ==> r.1.last == d
    ensures !r.0 ==> r.1 == tr
  {
    if Abs(d - tr.last) >= tr.threshold then (true, tr.(last := d)) else (false, tr)
  }

  /** With a positive threshold, the value just reported is never reported
      again straight away. */
  lemma {:induction false} ShouldUpdateSettles(tr: Tracker, d: real)
    requires tr.threshold > 0.0
    ensures var (_, tr') := ShouldUpdate(tr, d);
      ShouldUpdate(tr', d) == (false, tr')
  {
  }

  /** Answers for a run of distances, the state threaded through. */
  function UpdateRun(tr: Tracker, ds: seq<real>): (r: seq<bool>)
    ensures |r| == |ds|
    decreases |ds|
  {
    if ds == [] then [] else
      var (b, tr') := ShouldUpdate(tr, ds[0]);
      [b] + UpdateRun(tr', ds[1..])
  }

  /** The calculator's test: threshold 5, last 0, distances 6 then 7. */
  lemma {:induction false} UpdateRunExample()
    ensures UpdateRun(Tracker(5.0, 0.0), [6.0, 7.0]) == [true, false]
  {
    assert ShouldUpdate(Tracker(5.0, 0.0), 6.0) == (true, Tracker(5.0, 6.0));
    assert ShouldUpdate(Tracker(5.0, 6.0), 7.0) == (false, Tracker(5.0, 6.0));
    assert [6.0, 7.0][1..] == [7.0];
  }

  /** Python's `int(x)`: truncation toward zero. */
  function Truncate(x: real): (n: int)
    ensures x >= 0.0 ==> n as real <= x < n as real + 1.0
    ensures x < 0.0 ==> n as real - 1.0 < x <= n as real
  {
    if x >= 0.0 then x.Floor else -((-x).Floor)
  }

  /** Python's `round(x)`: to the nearest integer, halves to the even one. */
  function RoundHalfEven(x: real): (n: int)
    ensures n as real - 0.5 <= x <= n as real + 0.5
    ensures x == n as real + 0.5 ==> n % 2 == 0
    ensures x == n as real - 0.5 ==> n % 2 == 0
  {
    var f := x.Floor;
    var frac := x - f as real;
    if frac < 0.5 then f
    else if frac > 0.5 then f + 1
    else if f % 2 == 0 then f else f + 1
  }

  /** What `get_distance_description` says: whole metres or kilometres in
      tenths. */
  datatype Spoken = Meters(n: int) | Kilometers(tenths: int)

  /** The banded rounding policy. The kilometre case renders `km:.1f`; the
      float formatting is taken as half-to-even rounding of the exact value to
      tenths. */
  function Speak(d: real): (s: Spoken)
    ensures d < 10.0 ==> s.Meters? && s.n == Truncate(d)
    ensures 10.0 <= d < 100.0 ==> s.Meters? && s.n % 5 == 0 && s.n as real - 2.5 <= d <= s.n as real + 2.5
    ensures 100.0 <= d < 1000.0 ==> s.Meters? && s.n % 10 == 0 && s.n as real - 5.0 <= d <= s.n as real + 5.0
    ensures d >= 1000.0 ==> (s.Kilometers? && s.tenths >= 10
      && s.tenths as real * 100.0 - 50.0 <= d <= s.tenths as real * 100.0 + 50.0)
  {
    if d < 10.0 then Meters(Truncate(d))
    else if d < 100.0 then Meters(RoundHalfEven(d / 5.0) * 5)
    else if d < 1000.0 then Meters(RoundHalfEven(d / 10.0) * 10)
    else Kilometers(RoundHalfEven(d / 1000.0 * 10.0))
  }

  /** The band edges: 10 metres or more is never said as less than 10, and
      under 1000 metres is never said in kilometres. */
  lemma {:induction false} SpeakBands(d: real)
    ensures 10.0 <= d < 100.0 ==> 10 <= Speak(d).n <= 100
    ensures 100.0 <= d < 1000.0 ==> 100 <= Speak(d).n <= 1000
  {
  }

  /** The text for a spoken distance. */
  function Render(s: Spoken): string {
    match s
    case Meters(n) => IntToString(n) + " meters"
    case Kilometers(t) =>
      IntToString(t / 10) + "." + [DigitChar(t % 10)] + " kilometers"
  }

  /** `get_distance_description(distance)`. */
  function Describe(d: real): (text: string)
    ensures d < 1000.0 ==> text == IntToString(Speak(d).n) + " meters"
    ensures d >= 1000.0 ==>
      text == IntToString(Speak(d).tenths / 10) + "." + [DigitChar(Speak(d).tenths % 10)] + " kilometers"
  {
    Render(Speak(d))
  }

  /** The unit and the amount can be read back from a description: different
      spoken distances are said differently, in either unit. */
  lemma {:induction false} RenderInjective(a: Spoken, b: Spoken)
    requires Render(a) == Render(b)
    ensures a == b
  {
    var t := Render(a);
    assert a.Meters? ==> |t| >= 7 && t[|t| - 7] == ' ';
    assert a.Kilometers? ==> |t| >= 11 && t[|t| - 7] == 'o';
    assert b.Meters? ==> t[|t| - 7] == ' ';
    assert b.Kilometers? ==> t[|t| - 7] == 'o';
    if a.Meters? {
      RenderMetersInjective(a.n, b.n);
    } else {
      KilometersInjective(a.tenths, b.tenths);
    }
  }

  /** Different tenths of a kilometre are said differently. */
  lemma {:induction false} KilometersInjective(m: int, n: int)
    requires Render(Kilometers(m)) == Render(Kilometers(n))
    ensures m == n
  {
    var a, b := IntToString(m / 10), IntToString(n / 10);
    var sa, sb := a + "." + [DigitChar(m % 10)] + " kilometers", b + "." + [DigitChar(n % 10)] + " kilometers";
    assert |a| == |b| by {
      assert |sa| == |a| + 13 && |sb| == |b| + 13;
    }
    assert a == sa[..|a|] && b == sb[..|b|];
    IntToStringInjective(m / 10, n / 10);
    assert sa[|a| + 1] == DigitChar(m % 10) && sb[|b| + 1] == DigitChar(n % 10);
  }

  /** Different metre counts are said differently. */
  lemma {:induction false} RenderMetersInjective(m: int, n: int)
    requires Render(Meters(m)) == Render(Meters(n))
    ensures m == n
  {
    var a, b := IntToString(m), IntToString(n);
    var sa, sb := a + " meters", b + " meters";
    assert |a| == |b| by {
      assert |sa| == |a| + 7 && |sb| == |b| + 7;
    }
    assert a == sa[..|a|] && b == sb[..|b|];
    IntToStringInjective(m, n);
  }

  /** The calculator's test cases. */
  lemma {:induction false} DescribeExamples()
    ensures Describe(6.2) == "6 meters"
    ensures Describe(43.0) == "45 meters"
    ensures Describe(853.0) == "850 meters"
    ensures Describe(1200.0) == "1.2 kilometers"
  {
    assert Truncate(6.2) == 6;
    assert RoundHalfEven(43.0 / 5.0) == 9;
    assert RoundHalfEven(853.0 / 10.0) == 85;
    assert RoundHalfEven(1200.0 / 1000.0 * 10.0) == 12;
  }
}
