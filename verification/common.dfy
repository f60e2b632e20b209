/** Shared vocabulary of the guidance engine: optional values, 3D points and
    the abstract Euclidean distance that every component measures with. */
module Common {

  /** Python's `None` or a value. */
  datatype Option<+T> = None | Some(value: T)

  /** A world-frame position in metres. */
  datatype Point = Point(x: real, y: real, z: real)

  /** The Euclidean norm of the difference of two points (`np.linalg.norm`,
      `np.sqrt`). Square roots are not expressible over exact reals, so every
      operation that measures takes this function as a parameter. */
  type DistanceFn = (Point, Point) -> real

  /** `np.degrees(np.arctan2(dy, dx))`, taking `dy` first as numpy does. */
  type BearingFn = (real, real) -> real

  /** What the engine relies on about its distance: non-negative, symmetric,
      zero between a point and itself. */
  ghost predicate IsDistance(dist: DistanceFn) {
    && (forall p, q :: dist(p, q) >= 0.0)
    && (forall p, q :: dist(p, q) == dist(q, p))
    && (forall p :: dist(p, p) == 0.0)
  }

  /** Sum of squared coordinate differences. */
  function SquaredDistance(p: Point, q: Point): real {
    (q.x - p.x) * (q.x - p.x) + (q.y - p.y) * (q.y - p.y) + (q.z - p.z) * (q.z - p.z)
  }

  /** The distance really is the square root of the sum of squares. */
  ghost predicate IsEuclidean(dist: DistanceFn) {
    forall p, q :: dist(p, q) >= 0.0 && dist(p, q) * dist(p, q) == SquaredDistance(p, q)
  }

  /** Two non-negative reals with the same square are equal. */
  lemma {:induction false} SquareRootUnique(a: real, b: real)
    requires a >= 0.0 && b >= 0.0 && a * a == b * b
    ensures a == b
  {
    var s := a + b;
    assert (a - b) * s == a * a - b * b;
    if s != 0.0 {
      assert a - b == ((a - b) * s) / s;
    }
  }

  /** The square root of the sum of squares has the three properties the engine
      relies on, so `IsDistance` is an honest abstraction of `calculate_distance`. */
  lemma {:induction false} EuclideanIsDistance(dist: DistanceFn)
    requires IsEuclidean(dist)
    ensures IsDistance(dist)
  {
    forall p, q ensures dist(p, q) == dist(q, p) {
      assert SquaredDistance(p, q) == SquaredDistance(q, p);
      SquareRootUnique(dist(p, q), dist(q, p));
    }
    forall p ensures dist(p, p) == 0.0 {
      assert SquaredDistance(p, p) == 0.0;
      SquareRootUnique(dist(p, p), 0.0);
    }
  }

  /** The 3-4-5 triangle of the distance calculator's own test. */
  lemma {:induction false} EuclideanExample(dist: DistanceFn)
    requires IsEuclidean(dist)
    ensures dist(Point(0.0, 0.0, 0.0), Point(3.0, 4.0, 0.0)) == 5.0
  {
    var p, q := Point(0.0, 0.0, 0.0), Point(3.0, 4.0, 0.0);
    assert SquaredDistance(p, q) == 25.0;
    SquareRootUnique(dist(p, q), 5.0);
  }

  /** Python's `abs` on a number. */
  function Abs(x: real): (r: real)
    ensures r >= 0.0 && (r == x || r == -x)
  {
    if x < 0.0 then -x else x
  }

  /** The index a scan with a strict `<` ends on: the first position of the
      least value. Both nearest-keyframe snapping and the distance calculator
      use this loop shape. */
  function FirstMin(xs: seq<real>): (i: nat)
    requires xs != []
    ensures i < |xs|
    ensures forall j :: 0 <= j < |xs| ==> xs[i] <= xs[j]
    ensures forall j :: 0 <= j < i ==> xs[j] > xs[i]
  {
    if |xs| == 1 then 0 else
      var b := FirstMin(xs[..|xs| - 1]);
      if xs[|xs| - 1] < xs[b] then |xs| - 1 else b
  }

  /** The first position of the least value is unique: any index that is
      minimal and preceded only by larger values is the one the scan returns. */
  lemma {:induction false} FirstMinUnique(xs: seq<real>, i: nat)
    requires i < |xs|
    requires forall j :: 0 <= j < |xs| ==> xs[i] <= xs[j]
    requires forall j :: 0 <= j < i ==> xs[j] > xs[i]
    ensures FirstMin(xs) == i
  {
    var m := FirstMin(xs);
    assert xs[m] <= xs[i] && xs[i] <= xs[m];
  }
}
