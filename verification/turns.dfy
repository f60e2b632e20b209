/** `TurnRecognizer` (turn_recognition.py): angle normalisation, banded
    classification of a heading change, per-node turn detection along a path,
    and headings derived from path geometry. */
module Turns {
  import opened Common

  datatype TurnDirection = Left | Right | Straight
  datatype TurnType = Slight | Normal | Sharp | UTurn | NoTurn

  /** The enum's `.value` strings. */
  function DirectionValue(d: TurnDirection): string {
    match d
    case Left => "left"
    case Right => "right"
    case Straight => "straight"
  }

  function TypeValue(t: TurnType): string {
    match t
    case Slight => "slight"
    case Normal => "normal"
    case Sharp => "sharp"
    case UTurn => "u-turn"
    case NoTurn => "none"
  }

  /** Python's `a > b` on strings: code-point order, a proper prefix being
      smaller. */
  predicate StrGreater(a: string, b: string) {
    if a == [] then false
    else if b == [] then true
    else if a[0] != b[0] then a[0] > b[0]
    else StrGreater(a[1..], b[1..])
  }

  /** String comparison is a strict order: never both ways. */
  lemma {:induction false} StrGreaterAsymmetric(a: string, b: string)
    ensures !(StrGreater(a, b) && StrGreater(b, a))
  {
    if a != [] && b != [] && a[0] == b[0] {
      StrGreaterAsymmetric(a[1..], b[1..]);
    }
  }

  /** The thresholds in degrees; the constructor defaults are 15, 45, 90, 150. */
  datatype Thresholds = Thresholds(slight: real, normal: real, sharp: real, uturn: real)

  const Defaults := Thresholds(15.0, 45.0, 90.0, 150.0)

  /** `k` whole turns, in degrees. */
  function FullTurns(k: int): real {
    360.0 * k as real
  }

  /** How many 360-degree steps the first loop of `normalize_angle` still has
      to take. */
  function StepsDown(a: real): nat {
    if a > 180.0 then (a - 180.0).Floor + 1 else 0
  }

  function StepsUp(a: real): nat {
    if a < -180.0 then (-180.0 - a).Floor + 1 else 0
  }

  /** The first loop: subtract 360 while above 180. */
  function WrapDown(a: real): (r: real)
    decreases StepsDown(a)
    ensures r <= 180.0
    ensures a > 180.0 ==> r > -180.0
    ensures a <= 180.0 ==> r == a
    ensures exists k: int :: r == a - FullTurns(k)
  {
    if a > 180.0 then
      assert (a - 360.0 - 180.0).Floor == (a - 180.0).Floor - 360;
      var r := WrapDown(a - 360.0);
      var k: int :| r == a - 360.0 - FullTurns(k);
      assert r == a - FullTurns(k + 1);
      r
    else
      assert a == a - FullTurns(0);
      a
  }

  /** The second loop: add 360 while below -180. */
  function WrapUp(a: real): (r: real)
    decreases StepsUp(a)
    ensures r >= -180.0
    ensures a < -180.0 ==> r < 180.0
    ensures a >= -180.0 ==> r == a
    ensures exists k: int :: r == a + FullTurns(k)
  {
    if a < -180.0 then
      assert (-180.0 - (a + 360.0)).Floor == (-180.0 - a).Floor - 360;
      var r := WrapUp(a + 360.0);
      var k: int :| r == a + 360.0 + FullTurns(k);
      assert r == a + FullTurns(k + 1);
      r
    else
      assert a == a + FullTurns(0);
      a
  }

  /** `normalize_angle`: a value in the CLOSED interval [-180, 180] that differs
      from the input by a whole number of turns. */
  function NormalizeAngle(a: real): (r: real)
    ensures -180.0 <= r <= 180.0
    ensures exists k: int :: r == a + FullTurns(k)
    ensures -180.0 <= a <= 180.0 ==> r == a
    ensures a > 180.0 ==> r > -180.0
    ensures a < -180.0 ==> r < 180.0
  {
    var d := WrapDown(a);
    var k: int :| d == a - FullTurns(k);
    var r := WrapUp(d);
    var j: int :| r == d + FullTurns(j);
    assert r == a + FullTurns(j - k);
    r
  }

  /** Two angles in [-180, 180] a whole number of turns apart are equal, or
      they are -180 and 180. */
  lemma {:induction false} SameTurn(r: real, s: real, k: int)
    requires -180.0 <= r <= 180.0 && -180.0 <= s <= 180.0
    requires r == s + FullTurns(k)
    ensures r == s || (r == 180.0 && s == -180.0) || (r == -180.0 && s == 180.0)
  {
    if k >= 1 {
      assert FullTurns(k) >= 360.0;
    } else if k <= -1 {
      assert FullTurns(k) <= -360.0;
    }
  }

  /** Normalising twice is normalising once. */
  lemma {:induction false} NormalizeIdempotent(a: real)
    ensures NormalizeAngle(NormalizeAngle(a)) == NormalizeAngle(a)
  {
  }

  /** Inside the open interval the result is determined by the angle modulo
      360: any congruent value there is the result. */
  lemma {:induction false} NormalizeUnique(a: real, r: real, k: int)
    requires -180.0 < r < 180.0 && r == a + FullTurns(k)
    ensures NormalizeAngle(a) == r
  {
    var n := NormalizeAngle(a);
    var j: int :| n == a + FullTurns(j);
    assert n == r + FullTurns(j - k);
    SameTurn(n, r, j - k);
  }

  /** The values the recogniser's own unit test expects. */
  lemma {:induction false} NormalizeExamples()
    ensures NormalizeAngle(190.0) == -170.0
    ensures NormalizeAngle(-190.0) == 170.0
    ensures NormalizeAngle(360.0) == 0.0
    ensures NormalizeAngle(-360.0) == 0.0
    ensures NormalizeAngle(720.0) == 0.0
    ensures NormalizeAngle(180.0) == 180.0 && NormalizeAngle(-180.0) == -180.0
  {
    NormalizeUnique(190.0, -170.0, -1);
    NormalizeUnique(-190.0, 170.0, 1);
    NormalizeUnique(360.0, 0.0, -1);
    NormalizeUnique(-360.0, 0.0, 1);
    NormalizeUnique(720.0, 0.0, -2);
  }

  /** `(direction, turn_type, angle_diff)` as `detect_turn` returns it. */
  datatype Turn = Turn(direction: TurnDirection, kind: TurnType, angle: real)

  /** `detect_turn(prev, current)`. */
  function DetectTurn(th: Thresholds, prev: real, current: real): (r: Turn)
    ensures r.angle == Abs(NormalizeAngle(current - prev))
    ensures 0.0 <= r.angle <= 180.0
    ensures r.direction == Straight <==> r.kind == NoTurn
    ensures r.direction == Straight <==> r.angle < th.slight
    ensures r.direction == Right ==> NormalizeAngle(current - prev) > 0.0
    ensures r.direction == Left ==> NormalizeAngle(current - prev) <= 0.0
  {
    var diff := NormalizeAngle(current - prev);
    var direction := if Abs(diff) < th.slight then Straight else if diff > 0.0 then Right else Left;
    var absDiff := Abs(diff);
    if direction == Straight then Turn(Straight, NoTurn, absDiff)
    else if absDiff >= th.uturn then Turn(direction, UTurn, absDiff)
    else if absDiff >= th.sharp then Turn(direction, Sharp, absDiff)
    else if absDiff >= th.normal then Turn(direction, Normal, absDiff)
    else if absDiff >= th.slight then Turn(direction, Slight, absDiff)
    else Turn(Straight, NoTurn, absDiff)
  }

  /** The severity is the highest band the angle reaches, checked from the
      U-turn band down. */
  lemma {:induction false} DetectTurnBands(th: Thresholds, prev: real, current: real)
    ensures var r := DetectTurn(th, prev, current);
      r.direction != Straight ==>
        && (r.kind == UTurn <==> r.angle >= th.uturn)
        && (r.kind == Sharp <==> th.sharp <= r.angle < th.uturn)
        && (r.kind == Normal <==> th.normal <= r.angle && r.angle < th.sharp && r.angle < th.uturn)
        && (r.kind == Slight <==> r.angle < th.normal && r.angle < th.sharp && r.angle < th.uturn)
  {
  }

  /** Turning back the other way gives the opposite direction with the same
      severity and angle, unless the change is exactly half a turn. */
  lemma {:induction false} DetectTurnMirror(th: Thresholds, prev: real, current: real)
    requires 0.0 < Abs(NormalizeAngle(current - prev)) < 180.0
    ensures var there := DetectTurn(th, prev, current);
      var back := DetectTurn(th, current, prev);
      && back.angle == there.angle && back.kind == there.kind
      && (there.direction == Left <==> back.direction == Right)
      && (there.direction == Straight <==> back.direction == Straight)
  {
    var d := NormalizeAngle(current - prev);
    var k: int :| d == current - prev + FullTurns(k);
    NormalizeUnique(prev - current, -d, -k);
  }

  /** The unit test's cases under the default thresholds. */
  lemma {:induction false} DetectTurnExamples()
    ensures DetectTurn(Defaults, 0.0, 0.0) == Turn(Straight, NoTurn, 0.0)
    ensures DetectTurn(Defaults, 0.0, 10.0) == Turn(Straight, NoTurn, 10.0)
    ensures DetectTurn(Defaults, 0.0, 20.0) == Turn(Right, Slight, 20.0)
    ensures DetectTurn(Defaults, 0.0, 50.0) == Turn(Right, Normal, 50.0)
    ensures DetectTurn(Defaults, 0.0, 100.0) == Turn(Right, Sharp, 100.0)
    ensures DetectTurn(Defaults, 0.0, 200.0) == Turn(Left, UTurn, 160.0)
    ensures DetectTurn(Defaults, 0.0, -20.0) == Turn(Left, Slight, 20.0)
  {
    NormalizeUnique(200.0, -160.0, -1);
  }

  /** One element of `analyze_path`'s result: `(node_index, direction,
      turn_type, angle)`. */
  datatype TurnAt = TurnAt(index: int, direction: TurnDirection, kind: TurnType, angle: real)

  /** The decision at interior node `i`: a turn when the change into the node
      and the change out of it go the same non-straight way. Of the two
      severities the first is kept only when its `.value` string is greater,
      so on equal severities the second segment's angle is reported. */
  function TurnAtNode(th: Thresholds, os: seq<real>, i: nat): Option<TurnAt>
    requires 1 <= i && i + 1 < |os|
  {
    var a := DetectTurn(th, os[i - 1], os[i]);
    var b := DetectTurn(th, os[i], os[i + 1]);
    if a.direction == b.direction && a.direction != Straight then
      if StrGreater(TypeValue(a.kind), TypeValue(b.kind)) then Some(TurnAt(i, a.direction, a.kind, a.angle))
      else Some(TurnAt(i, a.direction, b.kind, b.angle))
    else None
  }

  /** The turns found at nodes `1 .. m-1`, in node order. */
  function TurnsBelow(th: Thresholds, os: seq<real>, m: nat): (r: seq<TurnAt>)
    requires 1 <= m < |os|
    ensures forall k :: 0 <= k < |r| ==> 1 <= r[k].index < m
    ensures forall k, l :: 0 <= k < l < |r| ==> r[k].index < r[l].index
  {
    if m == 1 then [] else
      var prev := TurnsBelow(th, os, m - 1);
      match TurnAtNode(th, os, m - 1)
      case None => prev
      case Some(t) => prev + [t]
  }

  /** A node appears in the list exactly when its decision is a turn, and then
      with that decision. */
  lemma {:induction false} TurnsBelowMember(th: Thresholds, os: seq<real>, m: nat, k: nat)
    requires 1 <= m < |os| && k < |TurnsBelow(th, os, m)|
    ensures var t := TurnsBelow(th, os, m)[k];
      TurnAtNode(th, os, t.index) == Some(t)
  {
    var prev := TurnsBelow(th, os, m - 1);
    if m > 1 && k < |prev| {
      TurnsBelowMember(th, os, m - 1, k);
    }
  }

  lemma {:induction false} TurnsBelowComplete(th: Thresholds, os: seq<real>, m: nat, i: nat)
    requires 1 <= m < |os| && 1 <= i < m && TurnAtNode(th, os, i).Some?
    ensures exists k :: 0 <= k < |TurnsBelow(th, os, m)| && TurnsBelow(th, os, m)[k].index == i
  {
    var prev := TurnsBelow(th, os, m - 1);
    TurnsBelowStep(th, os, m);
    if i < m - 1 {
      TurnsBelowComplete(th, os, m - 1, i);
      var k :| 0 <= k < |prev| && prev[k].index == i;
      assert TurnsBelow(th, os, m)[k] == prev[k];
    } else {
      assert TurnsBelow(th, os, m)[|prev|].index == i;
    }
  }

  /** One more node either adds its turn at the end or adds nothing. */
  lemma {:induction false} TurnsBelowStep(th: Thresholds, os: seq<real>, m: nat)
    requires 2 <= m < |os|
    ensures TurnAtNode(th, os, m - 1).None? ==> TurnsBelow(th, os, m) == TurnsBelow(th, os, m - 1)
    ensures TurnAtNode(th, os, m - 1).Some? ==>
      TurnsBelow(th, os, m) == TurnsBelow(th, os, m - 1) + [TurnAtNode(th, os, m - 1).value]
  {
  }

  /** The heading from `p` to `q` in the horizontal plane:
      `degrees(arctan2(q.y - p.y, q.x - p.x))`. */
  function Heading(bearing: BearingFn, p: Point, q: Point): real {
    bearing(q.y - p.y, q.x - p.x)
  }

  /** The first `m` headings of an orientation loop whose index-0 value is
      `first`: interior nodes face from their predecessor to their successor,
      and the last node repeats the heading before it. */
  function OrientationsUpTo(ps: seq<Point>, bearing: BearingFn, first: real, m: nat): (r: seq<real>)
    requires m <= |ps|
    ensures |r| == m
    ensures m > 0 ==> r[0] == first
    ensures forall i :: 0 < i < m && i < |ps| - 1 ==> r[i] == Heading(bearing, ps[i - 1], ps[i + 1])
    ensures m == |ps| && m > 1 ==> r[m - 1] == r[m - 2]
  {
    if m == 0 then [] else
      var prev := OrientationsUpTo(ps, bearing, first, m - 1);
      var i := m - 1;
      prev + [if i == 0 then first else if i == |ps| - 1 then prev[|prev| - 1]
              else Heading(bearing, ps[i - 1], ps[i + 1])]
  }

  /** `TurnRecognizer._calculate_orientations`: at least two positions are
      needed, since index 0 reads `positions[1]`. */
  function Orientations(ps: seq<Point>, bearing: BearingFn): (r: seq<real>)
    requires |ps| >= 2
    ensures |r| == |ps|
    ensures r[0] == Heading(bearing, ps[0], ps[1])
    ensures forall i :: 0 < i < |ps| - 1 ==> r[i] == Heading(bearing, ps[i - 1], ps[i + 1])
    ensures r[|ps| - 1] == r[|ps| - 2]
  {
    OrientationsUpTo(ps, bearing, Heading(bearing, ps[0], ps[1]), |ps|)
  }

  /** `NavigationSystem._calculate_orientations`: the same loop, but a single
      position gets heading 0 and no positions give no headings. */
  function NavOrientations(ps: seq<Point>, bearing: BearingFn): (r: seq<real>)
    ensures |r| == |ps|
    ensures |ps| == 1 ==> r == [0.0]
  {
    OrientationsUpTo(ps, bearing, if |ps| > 1 then Heading(bearing, ps[0], ps[1]) else 0.0, |ps|)
  }

  /** On every path the recogniser accepts, the two copies agree. */
  lemma {:induction false} NavOrientationsAgree(ps: seq<Point>, bearing: BearingFn)
    requires |ps| >= 2
    ensures NavOrientations(ps, bearing) == Orientations(ps, bearing)
  {
  }

  /** `analyze_path(path_positions, orientations)`: headings come from the
      positions when none are given; a given list must cover every node. */
  function AnalyzePath(th: Thresholds, ps: seq<Point>, orientations: Option<seq<real>>, bearing: BearingFn)
    : (r: seq<TurnAt>)
    requires |ps| >= 3 && orientations.Some? ==> |orientations.value| >= |ps|
    ensures |ps| < 3 ==> r == []
    ensures forall k :: 0 <= k < |r| ==> 1 <= r[k].index <= |ps| - 2
    ensures forall k, l :: 0 <= k < l < |r| ==> r[k].index < r[l].index
  {
    if |ps| < 3 then [] else
      var os := if orientations.Some? then orientations.value else Orientations(ps, bearing);
      TurnsBelow(th, os, |ps| - 1)
  }

  /** The decision at a node, in terms of the two heading changes. */
  lemma {:induction false} TurnAtNodeMeaning(th: Thresholds, os: seq<real>, i: nat)
    requires 1 <= i && i + 1 < |os|
    ensures var a := DetectTurn(th, os[i - 1], os[i]);
      var b := DetectTurn(th, os[i], os[i + 1]);
      var t := TurnAtNode(th, os, i);
      && (t.Some? <==> a.direction == b.direction && a.direction != Straight)
      && (t.Some? ==> t.value.index == i && t.value.direction == a.direction)
      && (t.Some? && StrGreater(TypeValue(a.kind), TypeValue(b.kind)) ==> t.value.kind == a.kind && t.value.angle == a.angle)
      && (t.Some? && !StrGreater(TypeValue(a.kind), TypeValue(b.kind)) ==> t.value.kind == b.kind && t.value.angle == b.angle)
  {
  }

  /** Node `i` is listed by `analyze_path` exactly when the changes into and
      out of it share a non-straight direction. */
  lemma {:induction false} AnalyzePathIndices(th: Thresholds, os: seq<real>, ps: seq<Point>, bearing: BearingFn, i: int)
    requires |ps| >= 3 && |os| >= |ps|
    ensures var r := AnalyzePath(th, ps, Some(os), bearing);
      (exists k :: 0 <= k < |r| && r[k].index == i) <==>
        (1 <= i <= |ps| - 2
         && DetectTurn(th, os[i - 1], os[i]).direction == DetectTurn(th, os[i], os[i + 1]).direction
         && DetectTurn(th, os[i - 1], os[i]).direction != Straight)
  {
    var r := AnalyzePath(th, ps, Some(os), bearing);
    assert r == TurnsBelow(th, os, |ps| - 1);
    if 1 <= i <= |ps| - 2 {
      TurnAtNodeMeaning(th, os, i);
      if TurnAtNode(th, os, i).Some? {
        TurnsBelowComplete(th, os, |ps| - 1, i);
      }
    }
    if exists k :: 0 <= k < |r| && r[k].index == i {
      var k :| 0 <= k < |r| && r[k].index == i;
      TurnsBelowMember(th, os, |ps| - 1, k);
      TurnAtNodeMeaning(th, os, i);
    }
  }

  /** Each listed turn carries the shared direction, and the severity and
      angle of the first change only when its `.value` string compares
      greater; otherwise those of the second. */
  lemma {:induction false} AnalyzePathEntry(th: Thresholds, os: seq<real>, ps: seq<Point>, bearing: BearingFn, k: nat)
    requires |ps| >= 3 && |os| >= |ps| && k < |AnalyzePath(th, ps, Some(os), bearing)|
    ensures var t := AnalyzePath(th, ps, Some(os), bearing)[k];
      var a := DetectTurn(th, os[t.index - 1], os[t.index]);
      var b := DetectTurn(th, os[t.index], os[t.index + 1]);
      && t.direction == a.direction && a.direction == b.direction
      && (StrGreater(TypeValue(a.kind), TypeValue(b.kind)) ==> t.kind == a.kind && t.angle == a.angle)
      && (!StrGreater(TypeValue(a.kind), TypeValue(b.kind)) ==> t.kind == b.kind && t.angle == b.angle)
  {
    var r := AnalyzePath(th, ps, Some(os), bearing);
    assert r == TurnsBelow(th, os, |ps| - 1);
    TurnsBelowMember(th, os, |ps| - 1, k);
    TurnAtNodeMeaning(th, os, r[k].index);
  }

  /** The recogniser's unit test: headings 0, 45, 90, 90 give one right turn
      of normal severity at node 1, reported with 45 degrees. */
  lemma {:induction false} AnalyzePathExample(bearing: BearingFn)
    ensures AnalyzePath(Defaults, [Point(0.0, 0.0, 0.0), Point(1.0, 0.0, 0.0), Point(1.0, 1.0, 0.0), Point(1.0, 2.0, 0.0)],
                        Some([0.0, 45.0, 90.0, 90.0]), bearing)
      == [TurnAt(1, Right, Normal, 45.0)]
  {
    var os := [0.0, 45.0, 90.0, 90.0];
    assert DetectTurn(Defaults, 0.0, 45.0) == Turn(Right, Normal, 45.0);
    assert DetectTurn(Defaults, 45.0, 90.0) == Turn(Right, Normal, 45.0);
    assert DetectTurn(Defaults, 90.0, 90.0) == Turn(Straight, NoTurn, 0.0);
    assert !StrGreater("normal", "normal");
    assert TurnAtNode(Defaults, os, 1) == Some(TurnAt(1, Right, Normal, 45.0));
    assert TurnAtNode(Defaults, os, 2) == None;
  }

  /** Severities are compared as strings, so a slight first change outranks a
      sharp second one: headings 0, 20, 120 report a slight right turn of 20
      degrees although the second change is 100 degrees. */
  lemma {:induction false} SlightOutranksSharp(bearing: BearingFn)
    ensures AnalyzePath(Defaults, [Point(0.0, 0.0, 0.0), Point(0.0, 0.0, 0.0), Point(0.0, 0.0, 0.0)],
                        Some([0.0, 20.0, 120.0]), bearing)
      == [TurnAt(1, Right, Slight, 20.0)]
  {
    var os := [0.0, 20.0, 120.0];
    assert DetectTurn(Defaults, 0.0, 20.0) == Turn(Right, Slight, 20.0);
    assert DetectTurn(Defaults, 20.0, 120.0) == Turn(Right, Sharp, 100.0);
    assert StrGreater("slight", "sharp");
    assert TurnAtNode(Defaults, os, 1) == Some(TurnAt(1, Right, Slight, 20.0));
  }
}
