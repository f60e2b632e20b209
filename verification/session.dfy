/** `NavigationSystem` (navigation_system.py): the session state, its commands,
    and one iteration of the guidance loop as a step function from the state,
    the clock reading and the loop's own two variables to the next state and
    the announcements made. */
module Session {
  import opened Common
  import opened Keyframes
  import opened ProximityGraph
  import opened Walks
  import opened PathFinding
  import opened Turns
  import opened Progress
  import opened Speech

  /** What the session is built with and what stands in for the numeric
      libraries: the distance and bearing functions, the graph's linking
      threshold, and the bound on A* pops. */
  datatype Env = Env(dist: DistanceFn, bearing: BearingFn, threshold: real, fuel: nat)

  datatype Nav = Nav(
    keyframes: Table,
    graph: Graph,
    position: Option<Point>,
    orientation: Option<real>,
    destination: Option<int>,
    path: seq<int>,
    pathPositions: seq<Point>,
    orientations: seq<real>,
    turnIndices: seq<int>,
    navigating: bool,
    speaker: Speaker)

  const StartText := "Starting navigation. Please follow the instructions."
  const StopText := "Navigation stopped."

  /** The node indices of a turn list (`[info[0] for info in turn_info]`). */
  function IndicesOf(turns: seq<TurnAt>): (r: seq<int>)
    ensures |r| == |turns| && forall k :: 0 <= k < |r| ==> r[k] == turns[k].index
  {
    seq(|turns|, k requires 0 <= k < |turns| => turns[k].index)
  }

  /** The positions of the ids of a path, looked up in the keyframe table. */
  function PlacePath(t: Table, path: seq<int>): (ps: seq<Point>)
    requires forall i :: 0 <= i < |path| ==> path[i] in Ids(t)
    ensures |ps| == |path| && forall i :: 0 <= i < |ps| ==> ps[i] == Positions(t)[path[i]]
  {
    seq(|path|, i requires 0 <= i < |path| => Positions(t)[path[i]])
  }

  /** `analyze_path(path_positions, path_orientations)` with the default
      thresholds. */
  function PathTurns(ps: seq<Point>, os: seq<real>, env: Env): (r: seq<TurnAt>)
    requires |os| >= |ps|
    ensures forall k :: 0 <= k < |r| ==> 1 <= r[k].index <= |ps| - 2
  {
    AnalyzePath(Defaults, ps, Some(os), env.bearing)
  }

  /** What holds of every state the commands produce: the graph is the
      proximity graph of the table, the destination is a keyframe, the path
      data were all derived from one path, and a navigating session has a
      path. */
  ghost predicate Consistent(s: Nav, env: Env) {
    && DistinctIds(s.keyframes) && IsDistance(env.dist)
    && IsProximityGraph(s.graph, s.keyframes, env.dist, env.threshold)
    && (s.destination.Some? ==> s.destination.value in Ids(s.keyframes))
    && PathConsistent(s, env)
  }

  /** The path half of `Consistent`: positions, headings and turn indices all
      derive from the stored path, and a navigating session has one. */
  ghost predicate PathConsistent(s: Nav, env: Env) {
    && (forall i :: 0 <= i < |s.path| ==> s.path[i] in Ids(s.keyframes))
    && s.pathPositions == PlacePath(s.keyframes, s.path)
    && s.orientations == NavOrientations(s.pathPositions, env.bearing)
    && s.turnIndices == IndicesOf(PathTurns(s.pathPositions, s.orientations, env))
    && (s.navigating ==> s.path != [])
  }

  /** `NavigationSystem.__init__` after the keyframes are loaded: the graph is
      built, nothing else is set, and the speaker is idle. */
  method Create(t: Table, env: Env) returns (s: Nav)
    requires DistinctIds(t) && IsDistance(env.dist)
    ensures Consistent(s, env)
    ensures s.keyframes == t && s.position.None? && s.destination.None? && s.path == []
    ensures !s.navigating && s.speaker == Idle
  {
    var g := BuildGraph(t, env.dist, env.threshold);
    s := Nav(t, g, None, None, None, [], [], [], [], false, Idle);
  }

  /** `set_current_position(position, orientation)`. */
  function SetCurrentPosition(s: Nav, pos: Point, orientation: real): (r: Nav)
    ensures r.position == Some(pos) && r.orientation == Some(orientation)
    ensures r.(position := s.position, orientation := s.orientation) == s
  {
    s.(position := Some(pos), orientation := Some(orientation))
  }

  /** `set_destination(destination_id)`: only a keyframe id is accepted. */
  function SetDestination(s: Nav, id: int): (r: (bool, Nav))
    ensures r.0 <==> id in Ids(s.keyframes)
    ensures r.0 ==> r.1.destination == Some(id) && r.1.(destination := s.destination) == s
    ensures !r.0 ==> r.1 == s
  {
    if id !in Positions(s.keyframes) then (false, s) else (true, s.(destination := Some(id)))
  }

  /** Why `calculate_path` returned what it did; only `Calculated` is `True`.
      `GaveUp` is the search running out of its pop budget, which the program
      does not have. */
  datatype PathStatus = Calculated | NoPosition | NoDestination | NoRoute | GaveUp

  /** `calculate_path()`: A* from the keyframe nearest the current position to
      the destination; on success the path, its positions, its headings and
      its turn indices are replaced together. */
  method CalculatePath(s: Nav, env: Env) returns (status: PathStatus, r: Nav)
    requires Consistent(s, env)
    ensures Consistent(r, env)
    ensures s.position.None? ==> status == NoPosition
    ensures s.position.Some? && s.destination.None? ==> status == NoDestination
    ensures !status.Calculated? ==> r == s
    ensures status.Calculated? || status.NoRoute? ==>
      s.position.Some? && s.destination.Some? && NearestKeyframe(s.keyframes, s.position.value, env.dist).Some?
    ensures status.Calculated? ==>
      var start := NearestKeyframe(s.keyframes, s.position.value, env.dist).value;
      && IsWalk(Next(s.graph), r.path) && r.path[0] == start && r.path[|r.path| - 1] == s.destination.value
      && (start == s.destination.value ==> r.path == [start])
    ensures status.Calculated? ==>
      r.(path := s.path, pathPositions := s.pathPositions, orientations := s.orientations,
         turnIndices := s.turnIndices) == s
    ensures status.NoRoute? ==>
      !Reachable(Next(s.graph), NearestKeyframe(s.keyframes, s.position.value, env.dist).value, s.destination.value)
  {
    if s.position.None? {
      return NoPosition, s;
    }
    if s.destination.None? {
      return NoDestination, s;
    }
    var start := NearestStart(s, env, s.position.value);
    GraphReady(s, env);
    var found := AStar(s.graph, Positions(s.keyframes), env.dist, start, s.destination.value, env.fuel);
    match found
    case Found(path) =>
      status, r := Calculated, WithPath(s, env, path);
    case NoPath =>
      status, r := NoRoute, s;
    case OutOfFuel =>
      status, r := GaveUp, s;
  }

  /** The keyframe the search starts from: one exists, because the
      destination is a keyframe. */
  function NearestStart(s: Nav, env: Env, pos: Point): (start: int)
    requires Consistent(s, env) && s.destination.Some?
    ensures NearestKeyframe(s.keyframes, pos, env.dist) == Some(start) && start in Ids(s.keyframes)
  {
    assert s.keyframes != [];
    var start := NearestKeyframe(s.keyframes, pos, env.dist).value;
    start
  }

  /** The path state `calculate_path` stores for a path found by A*: the
      positions of its ids, their headings, and the indices of the turns the
      recogniser finds along them. */
  function WithPath(s: Nav, env: Env, path: seq<int>): (r: Nav)
    requires Consistent(s, env) && IsWalk(Next(s.graph), path) && path[0] in Ids(s.keyframes)
    ensures Consistent(r, env) && r.path == path
    ensures r.(path := s.path, pathPositions := s.pathPositions, orientations := s.orientations,
               turnIndices := s.turnIndices) == s
  {
    GraphReady(s, env);
    WalkPlaced(s.graph, s.keyframes, path);
    var ps := PlacePath(s.keyframes, path);
    var os := NavOrientations(ps, env.bearing);
    s.(path := path, pathPositions := ps, orientations := os, turnIndices := IndicesOf(PathTurns(ps, os, env)))
  }

  /** The graph of a consistent session meets A*'s demands: no negative weight
      and a position for every edge target. */
  lemma {:induction false} GraphReady(s: Nav, env: Env)
    requires Consistent(s, env)
    ensures NonNegativeWeights(s.graph) && TargetsPlaced(s.graph, Positions(s.keyframes))
  {
    forall u, k | u in s.graph && 0 <= k < |s.graph[u]|
      ensures s.graph[u][k].weight >= 0.0 && s.graph[u][k].to in Ids(s.keyframes)
    {
      var e := s.graph[u][k];
      assert e in Adjacency(s.graph, u);
      WeightsNonNegative(s.graph, s.keyframes, env.dist, env.threshold, u, e);
      var i := IndexOf(s.keyframes, u);
      EdgeOfItem(s.graph, s.keyframes, env.dist, env.threshold, i, e);
    }
  }

  /** Every node of a walk from a keyframe through a graph whose edge targets
      are keyframes is a keyframe, so the position lookups of `calculate_path`
      succeed. */
  lemma {:induction false} WalkPlaced(g: Graph, t: Table, path: seq<int>)
    requires TargetsPlaced(g, Positions(t)) && IsWalk(Next(g), path) && path[0] in Ids(t)
    ensures forall i :: 0 <= i < |path| ==> path[i] in Ids(t)
  {
    forall i | 0 < i < |path| ensures path[i] in Ids(t) {
      var u := path[i - 1];
      var succ := PathFinding.Successors(g, u);
      assert path[i] in succ;
      var k :| 0 <= k < |succ| && succ[k] == path[i];
      assert u in g && g[u][k].to == path[i];
    }
  }

  /** `start_navigation()`: nothing happens while navigating or without a
      path; otherwise the speaker starts, the welcome is queued at high
      priority, and the session is navigating. */
  function StartNavigation(s: Nav): (r: Nav)
    ensures s.navigating || s.path == [] ==> r == s
    ensures !s.navigating && s.path != [] ==>
      && r.navigating && r.speaker.running
      && r.speaker.queue == s.speaker.queue + [Item(Some(StartText), High)]
      && r.(navigating := s.navigating, speaker := s.speaker) == s
  {
    if s.navigating || s.path == [] then s
    else s.(speaker := Say(Start(s.speaker), StartText, High), navigating := true)
  }

  /** `stop_navigation()`: nothing happens unless navigating; otherwise the
      session stops, "Navigation stopped." is queued at high priority, and the
      speaker stops behind it. */
  function StopNavigation(s: Nav): (r: Nav)
    ensures !s.navigating ==> r == s
    ensures s.navigating ==>
      !r.navigating && !r.speaker.running && r.(navigating := s.navigating, speaker := s.speaker) == s
    ensures s.navigating && s.speaker.running ==>
      r.speaker.queue == s.speaker.queue + [Item(Some(StopText), High), Item(None, 0)]
  {
    if !s.navigating then s
    else s.(navigating := false, speaker := Stop(Say(s.speaker, StopText, High)))
  }

  /** The welcome is queued right after what the speaker had queued. The
      farewell is queued after everything before it and ahead of the stop
      marker; since the speaking thread may quit at any item once stopped, it
      says a prefix of that, and the farewell only if it takes every item
      queued before it. */
  lemma {:induction false} StartStopSpoken(s: Nav)
    requires !HasStopMarker(s.speaker.queue)
    ensures !s.navigating && s.path != [] ==>
      Utter(StartNavigation(s).speaker.queue) == Utter(s.speaker.queue) + [StartText]
    ensures s.navigating && s.speaker.running ==>
      Utter(StopNavigation(s).speaker.queue) == Utter(s.speaker.queue) + [StopText]
    ensures s.navigating && s.speaker.running ==>
      forall n :: 0 <= n <= |s.speaker.queue| ==>
        |UtterTaken(StopNavigation(s).speaker.queue, n)| <= |Utter(s.speaker.queue)|
  {
    if !s.navigating && s.path != [] {
      UtterAppend(s.speaker.queue, [Item(Some(StartText), High)]);
    }
    if s.navigating && s.speaker.running {
      var q, q' := s.speaker.queue, StopNavigation(s).speaker.queue;
      UtterAppend(q, [Item(Some(StopText), High), Item(None, 0)]);
      assert [Item(Some(StopText), High), Item(None, 0)][1..] == [Item(None, 0)];
      forall n | 0 <= n <= |q|
        ensures |UtterTaken(q', n)| <= |Utter(q)|
      {
        assert q'[..n] == q[..n];
        UtterPrefix(q, n);
      }
    }
  }

  /** The commands other than `calculate_path` keep the session consistent. */
  lemma {:induction false} CommandsKeepConsistent(s: Nav, env: Env, pos: Point, orientation: real, id: int)
    requires Consistent(s, env)
    ensures Consistent(SetCurrentPosition(s, pos, orientation), env)
    ensures Consistent(SetDestination(s, id).1, env)
    ensures Consistent(StartNavigation(s), env)
    ensures Consistent(StopNavigation(s), env)
  {
  }

  /** The two variables local to `_navigation_loop`. */
  datatype Loop = Loop(lastTurn: int, lastUpdate: real)

  /** The loop's start at clock reading `now`: no turn announced yet, and the
      last update pretended 10 seconds ago so that one is due at once. */
  function Begin(now: real): (l: Loop)
    ensures l.lastTurn < 0 && now - l.lastUpdate >= 10.0
  {
    Loop(-1, now - 10.0)
  }

  datatype Step = Step(nav: Nav, loop: Loop, said: seq<Announcement>)

  /** `_check_destination_reached()`: strictly within 2 metres of the last
      path position. */
  predicate Arrived(ps: seq<Point>, pos: Point, dist: DistanceFn) {
    ps != [] && dist(pos, ps[|ps| - 1]) < 2.0
  }

  /** The first entry of a turn list at node `idx`, as the loop's lookup finds
      it. */
  function FindTurn(turns: seq<TurnAt>, idx: int): (r: Option<TurnAt>)
    ensures r.None? <==> forall k :: 0 <= k < |turns| ==> turns[k].index != idx
    ensures r.Some? ==> r.value.index == idx
    ensures r.Some? ==> exists k :: 0 <= k < |turns| && turns[k] == r.value && forall l :: 0 <= l < k ==> turns[l].index != idx
  {
    if turns == [] then None
    else if turns[0].index == idx then Some(turns[0])
    else
      var r := FindTurn(turns[1..], idx);
      if r.Some? then
        ghost var k :| 0 <= k < |turns[1..]| && turns[1..][k] == r.value
          && forall l :: 0 <= l < k ==> turns[1..][l].index != idx;
        assert turns[k + 1] == r.value;
        r
      else r
  }

  /** The spoken instruction for a turn `distance` metres ahead. */
  function TurnText(turn: TurnAt, distance: real): string {
    TurnInstruction(DirectionValue(turn.direction), TypeValue(turn.kind), Some(Describe(distance)))
  }

  /** A step that changes nothing: the loop exited, or the iteration raised
      and the error was caught. */
  function NoEffect(s: Nav, l: Loop): Step {
    Step(s, l, [])
  }

  /** One pass of `_navigation_loop` at clock reading `now`. The arrival check
      comes first and ends the loop; otherwise the pass goes on to the turn and
      progress announcements. Without a position the distance functions raise
      and the pass has no effect. */
  function Tick(s: Nav, l: Loop, now: real, env: Env): (r: Step)
    ensures !s.navigating || s.position.None? ==> r == NoEffect(s, l)
    ensures r.nav.speaker == SayAll(s.speaker, r.said)
    ensures r.nav == s.(navigating := r.nav.navigating, speaker := r.nav.speaker)
    ensures r.nav.navigating ==> s.navigating
    ensures s.navigating && s.position.Some? && Arrived(s.pathPositions, s.position.value, env.dist) ==>
      !r.nav.navigating && r.loop == l && r.said == [Announcement(Arrival(None), High)]
    ensures s.navigating && s.position.Some? && !Arrived(s.pathPositions, s.position.value, env.dist) ==>
      r == Guide(s, l, now, env, s.position.value)
  {
    if !s.navigating || s.position.None? then NoEffect(s, l)
    else if Arrived(s.pathPositions, s.position.value, env.dist) then
      var said := [Announcement(Arrival(None), High)];
      Step(s.(navigating := false, speaker := SayAll(s.speaker, said)), l, said)
    else Guide(s, l, now, env, s.position.value)
  }

  /** The rest of a pass short of arrival: an index error from the distance
      calculator or from `analyze_path` abandons the pass; otherwise the turn
      announcement comes first, then the progress update. */
  function Guide(s: Nav, l: Loop, now: real, env: Env, pos: Point): (r: Step)
    ensures r.nav == s.(speaker := SayAll(s.speaker, r.said))
    ensures |r.said| <= 2
  {
    var ps := s.pathPositions;
    var ahead := DistanceToTurn(pos, ps, s.turnIndices, env.dist);
    if ahead.IndexOutOfRange? then NoEffect(s, l)
    else if ahead.Ahead? && ahead.index != l.lastTurn && |ps| >= 3 && |s.orientations| < |ps| then NoEffect(s, l)
    else Combine(s, TurnPart(s, l, env, ahead), UpdatePart(s, l, now, env, pos))
  }

  /** A pass says a turn instruction only first, only for the turn ahead, and
      exactly when it moves the last announced turn; it says a progress
      update only last, only when one is due, and exactly when it moves the
      time of the last update. */
  lemma {:induction false} GuideAnnouncements(s: Nav, l: Loop, now: real, env: Env, pos: Point)
    ensures var r := Guide(s, l, now, env, pos);
      forall k :: 0 <= k < |r.said| && r.said[k].priority == Medium ==>
        && k == 0 && r.loop.lastTurn != l.lastTurn
        && DistanceToTurn(pos, s.pathPositions, s.turnIndices, env.dist).Ahead?
        && DistanceToTurn(pos, s.pathPositions, s.turnIndices, env.dist).index == r.loop.lastTurn
    ensures var r := Guide(s, l, now, env, pos);
      r.loop.lastTurn != l.lastTurn ==> |r.said| >= 1 && r.said[0].priority == Medium
    ensures var r := Guide(s, l, now, env, pos);
      forall k :: 0 <= k < |r.said| && r.said[k].priority == Low ==>
        now - l.lastUpdate >= 10.0 && r.loop.lastUpdate == now
    ensures var r := Guide(s, l, now, env, pos);
      r.loop.lastUpdate != l.lastUpdate ==> |r.said| >= 1 && r.said[|r.said| - 1].priority == Low
  {
    var ps := s.pathPositions;
    var ahead := DistanceToTurn(pos, ps, s.turnIndices, env.dist);
    if !ahead.IndexOutOfRange? && !(ahead.Ahead? && ahead.index != l.lastTurn && |ps| >= 3 && |s.orientations| < |ps|) {
      var turn := TurnPart(s, l, env, ahead);
      var update := UpdatePart(s, l, now, env, pos);
      assert Guide(s, l, now, env, pos) == Combine(s, turn, update);
      PartsInOrder(turn.0, update.0);
    }
  }

  /** At most one turn instruction followed by at most one progress update:
      the medium-priority item can only be first, the low-priority one only
      last. */
  lemma {:induction false} PartsInOrder(turn: seq<Announcement>, update: seq<Announcement>)
    requires |turn| <= 1 && (turn != [] ==> turn[0].priority == Medium)
    requires |update| <= 1 && (update != [] ==> update[0].priority == Low)
    ensures forall k :: 0 <= k < |turn + update| && (turn + update)[k].priority == Medium ==> k == 0 && turn != []
    ensures forall k :: 0 <= k < |turn + update| && (turn + update)[k].priority == Low ==> update != []
    ensures turn != [] ==> (turn + update)[0] == turn[0]
    ensures update != [] ==> (turn + update)[|turn + update| - 1] == update[0]
  {
    forall k | 0 <= k < |turn + update|
      ensures (turn + update)[k] == if k < |turn| then turn[0] else update[0]
    {
    }
  }

  /** The turn announcement, then the progress update, each with the loop
      variable it sets. */
  function Combine(s: Nav, turn: (seq<Announcement>, int), update: (seq<Announcement>, real)): (r: Step)
    ensures r.said == turn.0 + update.0 && r.loop == Loop(turn.1, update.1)
    ensures r.nav == s.(speaker := SayAll(s.speaker, r.said))
  {
    var said := turn.0 + update.0;
    Step(s.(speaker := SayAll(s.speaker, said)), Loop(turn.1, update.1), said)
  }

  /** The turn announcement: for a turn ahead other than the last announced
      one, look it up in a fresh `analyze_path` result and, when found, say
      its instruction at medium priority and remember its index. */
  function TurnPart(s: Nav, l: Loop, env: Env, ahead: TurnAhead): (r: (seq<Announcement>, int))
    requires ahead.Ahead? && ahead.index != l.lastTurn && |s.pathPositions| >= 3 ==>
      |s.orientations| >= |s.pathPositions|
    ensures |r.0| <= 1 && (r.0 != [] <==> r.1 != l.lastTurn)
    ensures r.0 != [] ==> ahead.Ahead? && r.1 == ahead.index && r.0[0].priority == Medium
  {
    if ahead.Ahead? && ahead.index != l.lastTurn then
      match FindTurn(AnalyzePath(Defaults, s.pathPositions, Some(s.orientations), env.bearing), ahead.index)
      case Some(turn) => ([Announcement(TurnText(turn, ahead.distance), Medium)], ahead.index)
      case None => ([], l.lastTurn)
    else ([], l.lastTurn)
  }

  /** The progress update: due when 10 seconds have passed since the last
      one and there is a path; said at low priority. */
  function UpdatePart(s: Nav, l: Loop, now: real, env: Env, pos: Point): (r: (seq<Announcement>, real))
    ensures |r.0| <= 1 && (r.0 != [] <==> now - l.lastUpdate >= 10.0 && s.pathPositions != [])
    ensures r.0 != [] ==> r.1 == now && r.0[0].priority == Low
    ensures r.0 != [] ==> r.0[0].text == DistanceUpdate(Describe(RemainingDistance(pos, s.pathPositions, env.dist).value), None)
    ensures r.0 == [] ==> r.1 == l.lastUpdate
  {
    match RemainingDistance(pos, s.pathPositions, env.dist)
    case Some(d) =>
      if now - l.lastUpdate >= 10.0 then ([Announcement(DistanceUpdate(Describe(d), None), Low)], now)
      else ([], l.lastUpdate)
    case None => ([], l.lastUpdate)
  }

  /** The loop's lookup of the announced turn always succeeds: the turn
      indices and the lookup come from the same `analyze_path` result. */
  lemma {:induction false} TurnLookupSucceeds(s: Nav, env: Env, pos: Point)
    requires PathConsistent(s, env)
    requires DistanceToTurn(pos, s.pathPositions, s.turnIndices, env.dist).Ahead?
    ensures var idx := DistanceToTurn(pos, s.pathPositions, s.turnIndices, env.dist).index;
      var found := FindTurn(PathTurns(s.pathPositions, s.orientations, env), idx);
      found.Some? && found.value.index == idx
  {
    var idx := DistanceToTurn(pos, s.pathPositions, s.turnIndices, env.dist).index;
    var turns := PathTurns(s.pathPositions, s.orientations, env);
    var k :| 0 <= k < |s.turnIndices| && s.turnIndices[k] == idx;
    assert turns[k].index == idx;
  }

  /** In a consistent session, a new turn ahead is always announced, with the
      direction and severity the recogniser gave it. */
  lemma {:induction false} NewTurnAnnounced(s: Nav, l: Loop, now: real, env: Env)
    requires Consistent(s, env) && s.navigating && s.position.Some?
    requires !Arrived(s.pathPositions, s.position.value, env.dist)
    requires var a := DistanceToTurn(s.position.value, s.pathPositions, s.turnIndices, env.dist);
      a.Ahead? && a.index != l.lastTurn
    ensures var a := DistanceToTurn(s.position.value, s.pathPositions, s.turnIndices, env.dist);
      var r := Tick(s, l, now, env);
      var turn := FindTurn(PathTurns(s.pathPositions, s.orientations, env), a.index);
      && turn.Some? && r.loop.lastTurn == a.index
      && r.said[0] == Announcement(TurnText(turn.value, a.distance), Medium)
  {
    TurnLookupSucceeds(s, env, s.position.value);
  }

  /** A consistent session never hits the index error: every turn index is a
      node of the path, and a listed turn has room for its neighbours. */
  lemma {:induction false} NoIndexError(s: Nav, env: Env, pos: Point)
    requires PathConsistent(s, env)
    ensures !DistanceToTurn(pos, s.pathPositions, s.turnIndices, env.dist).IndexOutOfRange?
  {
    var turns := PathTurns(s.pathPositions, s.orientations, env);
    assert forall k :: 0 <= k < |s.turnIndices| ==> s.turnIndices[k] == turns[k].index;
    DistanceToTurnInRange(pos, s.pathPositions, s.turnIndices, env.dist);
  }

  /** A step keeps the session consistent. */
  lemma {:induction false} TickKeepsConsistent(s: Nav, l: Loop, now: real, env: Env)
    requires Consistent(s, env)
    ensures Consistent(Tick(s, l, now, env).nav, env)
  {
    var r := Tick(s, l, now, env);
    assert r.nav == s.(navigating := r.nav.navigating, speaker := r.nav.speaker);
  }

  /** Arrival is announced once: the step that announces it ends the loop, so
      every later step says nothing. */
  lemma {:induction false} ArrivalOnce(s: Nav, l: Loop, now: real, later: real, env: Env)
    requires s.navigating && s.position.Some? && Arrived(s.pathPositions, s.position.value, env.dist)
    ensures var r := Tick(s, l, now, env);
      r.said == [Announcement(Arrival(None), High)] && Tick(r.nav, r.loop, later, env).said == []
  {
  }

  /** A turn is announced once: after its announcement, a step that still sees
      it as the next turn says no turn instruction. */
  lemma {:induction false} TurnOnce(s: Nav, l: Loop, now: real, s2: Nav, later: real, env: Env)
    requires s2.position.Some?
    requires var r := Tick(s, l, now, env);
      && (exists k :: 0 <= k < |r.said| && r.said[k].priority == Medium)
      && DistanceToTurn(s2.position.value, s2.pathPositions, s2.turnIndices, env.dist).Ahead?
      && DistanceToTurn(s2.position.value, s2.pathPositions, s2.turnIndices, env.dist).index == r.loop.lastTurn
    ensures var r := Tick(s, l, now, env);
      forall k :: 0 <= k < |Tick(s2, r.loop, later, env).said| ==>
        Tick(s2, r.loop, later, env).said[k].priority != Medium
  {
    var r := Tick(s, l, now, env);
    if s.navigating && s.position.Some? && !Arrived(s.pathPositions, s.position.value, env.dist) {
      GuideAnnouncements(s, l, now, env, s.position.value);
    }
    if s2.navigating && !Arrived(s2.pathPositions, s2.position.value, env.dist) {
      GuideAnnouncements(s2, r.loop, later, env, s2.position.value);
    }
  }

  /** Progress updates are at least 10 seconds apart. */
  lemma {:induction false} UpdatesSpaced(s: Nav, l: Loop, now: real, s2: Nav, later: real, env: Env)
    requires var r := Tick(s, l, now, env);
      exists k :: 0 <= k < |r.said| && r.said[k].priority == Low
    requires later < now + 10.0
    ensures var r := Tick(s, l, now, env);
      forall k :: 0 <= k < |Tick(s2, r.loop, later, env).said| ==>
        Tick(s2, r.loop, later, env).said[k].priority != Low
  {
    var r := Tick(s, l, now, env);
    if s.navigating && s.position.Some? && !Arrived(s.pathPositions, s.position.value, env.dist) {
      GuideAnnouncements(s, l, now, env, s.position.value);
    }
    assert r.loop.lastUpdate == now;
    if s2.navigating && s2.position.Some? && !Arrived(s2.pathPositions, s2.position.value, env.dist) {
      GuideAnnouncements(s2, r.loop, later, env, s2.position.value);
    }
  }

  /** The first step of a navigation that has not arrived gives a progress
      update: the loop begins as if the last one were 10 seconds old. */
  lemma {:induction false} FirstUpdateDue(s: Nav, start: real, now: real, env: Env)
    requires Consistent(s, env) && s.navigating && s.position.Some? && start <= now
    requires !Arrived(s.pathPositions, s.position.value, env.dist)
    ensures var r := Tick(s, Begin(start), now, env);
      exists k :: 0 <= k < |r.said| && r.said[k].priority == Low
        && r.said[k].text == DistanceUpdate(Describe(RemainingDistance(s.position.value, s.pathPositions, env.dist).value), None)
  {
    var pos := s.position.value;
    NoIndexError(s, env, pos);
    var l := Begin(start);
    var ahead := DistanceToTurn(pos, s.pathPositions, s.turnIndices, env.dist);
    var turnSaid := TurnPart(s, l, env, ahead).0;
    var updateSaid := UpdatePart(s, l, now, env, pos).0;
    assert Tick(s, l, now, env).said == turnSaid + updateSaid;
    assert updateSaid != [];
    assert (turnSaid + updateSaid)[|turnSaid|] == updateSaid[0];
  }
}
