# NavSystem guidance engine in Dafny

NavSystem guides a walker along a route of mapped keyframes. The model covers
the host-side guidance engine and the byte framing of the camera link.

The guidance engine is made of these parts:

- **Keyframe loading.** It loads keyframes (id and position) from CSV rows.
- **Proximity graph.** It links every pair of keyframes that are closer than
  a threshold.
- **Start point.** It snaps the current position to the nearest keyframe.
- **Route search.** It runs A* to the destination and rebuilds the route from
  back-pointers.
- **Turns.** It derives headings along the route and classifies the heading
  changes into turns.
- **Guidance loop.** One pass of the loop:
  - announces arrival within 2 metres;
  - announces each upcoming turn once;
  - gives a progress update every 10 seconds;
  - queues all texts on a speech queue.

Two further pieces come from the voice interface:

- matching spoken commands by keyword;
- extracting a destination from a spoken phrase.

The camera unit sends video and audio over the link in frames: an 8-byte
header and then the payload. The host cuts frames off a receive buffer.

The Dafny modules follow the program's classes; four of them (`Common`, `Text`,
`Utf8`, `Walks`) hold shared definitions that no single Python module owns,
and `Framing` covers both ends of the camera link:

| Dafny module | file | Python |
|---|---|---|
| `Common` | common.dfy | points, optional values, the abstract distance |
| `Text` | text.dfy | the `str` operations the engine uses |
| `Utf8` | utf8.dfy | strict `bytes.decode('utf-8')` |
| `Keyframes` | keyframes.dfy | `load_keyframes` row handling |
| `ProximityGraph` | proximity_graph.dfy | `build_graph` |
| `Walks` | walks.dfy | walks and reachability, shared by both searches |
| `PathFinding` | astar.dfy | `PathFinder` of path_finding.py |
| `BreadthFirst` | bfs.dfy | `PathFinder.find_path` of src/navsystem/path_finding.py |
| `Turns` | turns.dfy | `TurnRecognizer` |
| `Progress` | progress.dfy | `DistanceCalculator`; also `_calculate_remaining_distance` |
| `Speech` | speech.dfy | `TTSSystem` |
| `Session` | session.dfy | `NavigationSystem` |
| `VoiceCommands` | voice_commands.dfy | the text side of `AudioToTextConverter` |
| `Framing` | framing.dfy | the sender's header and send step; the receiver's buffer loop |

How the model treats the program:

- **State.** Stateful objects become immutable records, and every operation is
  a function from the old record to the new one.
- **Threads.** The guidance loop, the sender threads and the receiver loop are
  each modelled as one loop-body step. A bounded run is a fold of that step.
- **Clock.** The loop's clock reading is a parameter.
- **Numbers.** Floating-point values are exact reals.
- **Distance.** `np.linalg.norm` is a parameter of type `DistanceFn`. Where a
  result depends on it, the model assumes only `IsDistance`: the distance is
  non-negative, symmetric, and zero from a point to itself.
  `Common.EuclideanIsDistance` shows that a true square root of the sum of
  squares meets these three properties.
- **Bearing.** `np.degrees(np.arctan2(dy, dx))` is a parameter too, and
  nothing is assumed about it.

Where the code and its documentation disagree, the model follows the code:

- **`normalize_angle`.** The docstring says "between -180 and 180". The two
  loops leave both 180 and -180 fixed, so the result lies in the closed
  interval.
- **Turn severity.** `analyze_path` compares turn severities by their `.value`
  strings. "slight" therefore outranks "sharp", and two equal severities
  report the second segment's angle. `Turns.SlightOutranksSharp` exhibits
  this.
- **`calculate_path`.** It imports `find_nearest_keyframe` from data_setup.py,
  which defines no such function, and unpacks a pair from its result. The
  model starts the search at `PathFinder.find_nearest_keyframe` of
  path_finding.py, which returns an id only.
- **Orientations.** `NavigationSystem._calculate_orientations` and
  `TurnRecognizer._calculate_orientations` are two separate copies.
  `Turns.NavOrientationsAgree` shows that they agree on every path of two or
  more positions. The session's copy also accepts one position or none.
- **distance_calculator.py.** The copy under src/navsystem/ is byte-identical
  to the root copy. One `Progress` module models both.

## Model

| member | source | states |
|---|---|---|
| Common.EuclideanIsDistance | distance_calculator.py:15-31 | a square root of the sum of squared coordinate differences is non-negative, symmetric and zero on equal points |
| Common.EuclideanExample | src/navsystem/test_distance_calculator.py:11-23 | the Euclidean distance from (0,0,0) to (3,4,0) is 5 |
| Common.SquareRootUnique | distance_calculator.py:31 | two non-negative reals with equal squares are equal, so the square root is determined |
| Common.Abs | turn_recognition.py:60-69 | `abs` is non-negative and is the value or its negation |
| Common.FirstMin | distance_calculator.py:62-70 | a scan with strict `<` ends on an index holding the least value, and every earlier index holds a larger one |
| Common.FirstMinUnique | distance_calculator.py:62-70 | the first index of the least value is the only index the scan can return |
| Text.SpacesFrom | data_setup.py:11 | the run of whitespace starting at an index is all whitespace and ends at a non-space or the end |
| Text.SpacesBefore | data_setup.py:11 | the run of whitespace ending at an index is all whitespace and starts after a non-space or the start |
| Text.LeadingSpaces | data_setup.py:11 | counts exactly the leading whitespace |
| Text.TrailingSpaces | data_setup.py:11 | counts exactly the trailing whitespace |
| Text.Strip | src/navsystem/audio_processor.py:263 | `str.strip()` returns an infix of the input that neither starts nor ends with whitespace; it is empty only for all-whitespace input and is the identity on whitespace-free input |
| Text.Lower | src/navsystem/audio_processor.py:176 | `str.lower()` on ASCII keeps the length, leaves no capital letter, and keeps every character that is not a capital |
| Text.LowerIdempotent | src/navsystem/audio_processor.py:176 | lower-casing twice is lower-casing once |
| Text.LowerAgrees | src/navsystem/audio_processor.py:176-180 | two texts lower-case alike exactly when they have the same length and agree character by character up to case |
| Text.FindFrom | src/navsystem/audio_processor.py:262-263 | the first occurrence of a pattern at or after a position, or none at all from there on |
| Text.Find | src/navsystem/audio_processor.py:262-263 | `pat in text` holds exactly when `text.index(pat)` succeeds, and the index is the first occurrence |
| Text.Join | src/navsystem/audio_processor.py:231 | `sep.join` gives the empty string for no parts and the part itself for one part |
| Text.JoinSnoc | src/navsystem/audio_processor.py:231 | for any number of parts, one more part is joined on after one separator |
| Text.JoinFive | src/navsystem/audio_processor.py:231 | joining five parts places one separator between each pair of neighbours |
| Text.NatToString | distance_calculator.py:117 | `str(n)` is a non-empty string of decimal digits without a leading zero |
| Text.IntToString | distance_calculator.py:117 | `str(i)` starts with '-' exactly for negative `i` |
| Text.NatToStringRoundTrip | distance_calculator.py:117 | reading back the decimal digits of `n` gives `n` |
| Text.IntToStringInjective | distance_calculator.py:117-125 | different integers are rendered as different strings |
| Text.NatToStringInjective | distance_calculator.py:117 | different naturals are rendered as different strings |
| Utf8.SequenceLength | bluetooth_receiver.py:135 | the length of a well-formed UTF-8 sequence is between 1 and 4 and fits before the end; ASCII is 1 byte; C0, C1, continuation bytes and F5-FF start nothing |
| Utf8.CodePoint | bluetooth_receiver.py:135 | each sequence length decodes to exactly its own code-point range, so no overlong form and no surrogate decodes |
| Utf8.DecodeRange | bluetooth_receiver.py:135 | decoding a byte range gives at most one character per byte |
| Utf8.Decode | bluetooth_receiver.py:135 | `bytes.decode('utf-8')` gives at most one character per byte, or fails |
| Utf8.RangeLocal | bluetooth_receiver.py:134-135 | decoding a range depends only on the bytes in that range |
| Utf8.DecodePrefix | bluetooth_receiver.py:134-135 | decoding the first n bytes in place equals decoding the slice `b[:n]` |
| Utf8.FullLengthIsAscii | bluetooth_receiver.py:135 | a decoded text as long as its bytes came from ASCII bytes, each of which stands for itself |
| Utf8.FullLengthFrom | bluetooth_receiver.py:135 | the same from any start index: each remaining byte is ASCII and decodes to itself |
| Utf8.AsciiBytes | raspberry_pi_sender.py:191-216 | an ASCII literal has one byte per character, equal to its code |
| Utf8.AsciiRoundTrip | bluetooth_receiver.py:135 | ASCII text survives encoding and decoding |
| Utf8.AsciiFrom | bluetooth_receiver.py:135 | every suffix of an ASCII text decodes from its bytes to itself |
| Utf8.DecodeExamples | bluetooth_receiver.py:135 | C3 A9 decodes to U+00E9; the overlong C0 80, the surrogate ED A0 80 and a lone 80 do not decode |
| Keyframes.Positions | data_setup.py:6-15 | the dict view of the table has exactly the table's ids as keys |
| Keyframes.IndexOf | data_setup.py:15 | finds the slot of an id that is present |
| Keyframes.Put | data_setup.py:15 | `keyframes[id] = pos` keeps ids distinct and maps `id` to `pos`; a new id is appended, a known id keeps its place in iteration order |
| Keyframes.PutPositions | data_setup.py:15 | overwriting a slot in place changes only that id's position |
| Keyframes.IdsSnoc | data_setup.py:15 | appending an entry adds exactly its id to the set of ids |
| Keyframes.SameIds | data_setup.py:15 | overwriting a known id keeps the ids distinct and the same |
| Keyframes.ParseRowKeeps | data_setup.py:10-17 | a row is kept exactly when it has at least five cells and id, x, y and z all parse after stripping; the timestamp and extra cells are ignored |
| Keyframes.Load | data_setup.py:5-18 | the loaded table never holds an id twice |
| Keyframes.LoadSkipsBadRow | data_setup.py:16-17 | a row that fails to parse leaves no trace, wherever it sits |
| Keyframes.LoadIds | data_setup.py:9-17 | the loaded ids are exactly the ids of the rows that parse |
| Keyframes.LoadLastWins | data_setup.py:15 | an id holds the position of the last row that parses to it |
| Keyframes.PositionsOfItem | data_setup.py:15 | with distinct ids each item's position is what the dict maps its id to |
| Keyframes.LoadStep | data_setup.py:9-17 | loading one more row adds its id exactly when it parses |
| Keyframes.LoadIdSource | data_setup.py:9-17 | every loaded id comes from a row that parses to it |
| Keyframes.LoadIdPresent | data_setup.py:9-17 | every row that parses contributes its id |
| Keyframes.RowGivesPrefix | data_setup.py:9-17 | a row that parses to an id still does so in any prefix of the rows that contains it |
| ProximityGraph.BuildGraph | data_setup.py:20-34 | the returned graph gives every keyframe exactly its close neighbours in table order, and holds no key without neighbours |
| ProximityGraph.LinkLater | data_setup.py:27-33 | one pass of the inner loop completes item i's list and extends every later item's list by i |
| ProximityGraph.InnerLinksProgress | data_setup.py:27-33 | the inner-loop invariant: lists are filled up to the loop counters, and every key is a keyframe with a non-empty list |
| ProximityGraph.InnerLinksAt | data_setup.py:27-33 | item k's list after the inner loop has reached j |
| ProximityGraph.InnerLinksStep | data_setup.py:27-33 | each further pair of the inner loop is one more visit of the graph built so far |
| ProximityGraph.InnerLinksKeys | data_setup.py:21-33 | the graph only ever gains keyframe ids with non-empty lists |
| ProximityGraph.VisitAt | data_setup.py:30-33 | one visited pair appends its edge to both lists and touches no other list |
| ProximityGraph.VisitOuter | data_setup.py:32 | the outer item's list gains the edge to the inner item when they are close |
| ProximityGraph.VisitInner | data_setup.py:33 | the inner item's list gains the edge back, with the same weight |
| ProximityGraph.VisitOther | data_setup.py:32-33 | lists of other ids are untouched |
| ProximityGraph.NeighboursBelowMember | data_setup.py:24-33 | an edge is in a list exactly when it leads to a close item at the weight `build_graph` computes |
| ProximityGraph.NeighboursBelowDistinct | data_setup.py:24-33 | with distinct ids no list names a neighbour twice |
| ProximityGraph.EdgeOfItem | data_setup.py:24-33 | in the built graph an edge is in item i's list exactly when it leads to an item close to i, weighted by their distance |
| ProximityGraph.NoSelfEdge | data_setup.py:24-27 | no keyframe is linked to itself |
| ProximityGraph.Symmetric | data_setup.py:32-33 | `(b, w)` is among a's neighbours exactly when `(a, w)` is among b's |
| ProximityGraph.OneWay | data_setup.py:32-33 | an edge from a to b implies the edge from b to a with the same weight |
| ProximityGraph.LinkedIffClose | data_setup.py:30-31 | two keyframes are linked exactly when they are distinct and strictly closer than the threshold, and every edge between them carries their distance |
| ProximityGraph.ListsWithoutRepeats | data_setup.py:21-34 | no neighbour repeats in a list, and an id is a key exactly when it has a neighbour |
| ProximityGraph.WeightsNonNegative | data_setup.py:30 | every weight is non-negative |
| ProximityGraph.StartEmpty | data_setup.py:21 | the empty graph satisfies the outer-loop invariant before the first item |
| ProximityGraph.Finish | data_setup.py:34 | the outer-loop invariant after the last item is the description of the result |
| ProximityGraph.EnterInner | data_setup.py:24-27 | entering the inner loop for item i establishes its invariant |
| ProximityGraph.LeaveInner | data_setup.py:24-33 | leaving the inner loop re-establishes the outer invariant for i + 1 |
| Walks.WalkStaysInside | path_finding.py:39 | a walk that starts in a set closed under successors stays in it |
| Walks.ClosedSetSeparates | path_finding.py:47 | a closed set holding the start but not the goal shows that the goal is unreachable |
| Walks.ReachableSelf | path_finding.py:36-37 | every node reaches itself |
| Walks.WalkReaches | src/navsystem/path_finding.py:41 | a walk shows that its last node is reachable from its first |
| PathFinding.NearestKeyframe | path_finding.py:13-21 | `None` exactly for an empty table; otherwise an id at the least distance, with every earlier item strictly farther |
| PathFinding.NearestKeyframeFirstOnTies | path_finding.py:18 | on ties the first item in iteration order wins |
| PathFinding.Heuristic | path_finding.py:23-26 | the heuristic is non-negative and zero from a node to itself |
| PathFinding.HeuristicSymmetric | path_finding.py:23-26 | the heuristic is the same in both directions |
| PathFinding.Successors | path_finding.py:39 | the neighbour ids in list order; a node missing from the graph has none |
| PathFinding.LeastEntry | path_finding.py:34 | `heappop` takes an entry least in `(f, id)` tuple order |
| PathFinding.Remove | path_finding.py:34 | popping removes exactly that entry and keeps the others in order |
| PathFinding.ReconstructPath | path_finding.py:49-54 | following back-pointers stops; the path ends at `current`, starts at a node without a parent, and each node's parent precedes it |
| PathFinding.AStar | path_finding.py:28-47 | a found path is a walk from start to goal; `None` means that the goal is unreachable; `astar(s, s)` is `[s]` |
| PathFinding.PopKeeps | path_finding.py:34 | popping one entry keeps every other queued node queued |
| PathFinding.PathFollowsEdges | path_finding.py:37-54 | the reconstructed path starts at the start node and each step follows a graph edge |
| PathFinding.NothingQueued | path_finding.py:33-47 | an empty open set leaves the scored nodes closed under edges, so the goal is unreachable |
| PathFinding.Expand | path_finding.py:39-45 | relaxing every edge out of the popped node keeps the search invariant, and every neighbour is then scored |
| PathFinding.Relax | path_finding.py:40-45 | an edge is recorded only on a strict improvement: parent, score and heap entry `(g + h, v)` are set and nothing else changes; otherwise the state is untouched |
| PathFinding.RelaxPushes | path_finding.py:42-45 | an improving edge sets parent and score and pushes one entry behind the heap |
| PathFinding.RelaxKeepsSound | path_finding.py:41-45 | with non-negative weights an improvement keeps the start without a parent and every parent settled before its child |
| PathFinding.RelaxKeepsExplored | path_finding.py:41-45 | an improvement keeps every explored node explored and the goal queued once it is scored |
| PathFinding.PushKeepsQueued | path_finding.py:45 | `heappush` keeps everything queued and queues the new node |
| PathFinding.ExpandDone | path_finding.py:39-45 | once all its neighbours are scored, the popped node needs no queue entry |
| PathFinding.RelinkKeepsOrder | path_finding.py:41-43 | a strictly better score through a settled parent keeps the back-pointers acyclic |
| BreadthFirst.Neighbours | src/navsystem/path_finding.py:38 | a node absent from the graph has no neighbours |
| BreadthFirst.Universe | src/navsystem/path_finding.py:32-43 | every node the search can mark lies in a finite set, which bounds the loop |
| BreadthFirst.FindPath | src/navsystem/path_finding.py:17-46 | `find_path(s, s)` is `[s]`; a non-empty result is a walk from start to end without repeated nodes; `[]` comes back exactly when the end is unreachable |
| BreadthFirst.PopFront | src/navsystem/path_finding.py:36 | `queue.pop(0)` keeps the search invariant for the rest of the queue |
| BreadthFirst.Unreached | src/navsystem/path_finding.py:46 | an empty queue means that the end is unreachable |
| BreadthFirst.Visit | src/navsystem/path_finding.py:38-44 | the neighbour loop returns a walk to the end as soon as it sees the end, and otherwise keeps the invariant |
| BreadthFirst.Extend | src/navsystem/path_finding.py:41-44 | `path + [neighbor]` for an unvisited neighbour is still a walk without repeats |
| BreadthFirst.Mark | src/navsystem/path_finding.py:43-44 | marking and queueing a new neighbour keeps the invariant |
| Turns.StrGreaterAsymmetric | turn_recognition.py:122 | string `>` never holds both ways |
| Turns.WrapDown | turn_recognition.py:39-40 | the first loop ends at or below 180, moved by whole turns, and above -180 if it moved |
| Turns.WrapUp | turn_recognition.py:41-42 | the second loop ends at or above -180, moved by whole turns, and below 180 if it moved |
| Turns.NormalizeAngle | turn_recognition.py:37-43 | the result lies in the closed interval [-180, 180], differs from the input by whole turns, and leaves values already in range alone |
| Turns.SameTurn | turn_recognition.py:37-43 | two in-range angles a whole number of turns apart are equal, or they are -180 and 180 |
| Turns.NormalizeIdempotent | turn_recognition.py:37-43 | normalising twice is normalising once |
| Turns.NormalizeUnique | turn_recognition.py:37-43 | strictly inside the range, the result is the one value congruent to the input |
| Turns.NormalizeExamples | src/navsystem/test_turn_recognition.py:8-21 | 190 gives -170, -190 gives 170, 360, -360 and 720 give 0, and 180 and -180 stay |
| Turns.DetectTurn | turn_recognition.py:45-84 | the angle is the absolute normalised change; straight exactly below the slight threshold, and then exactly with no turn type; right only for a positive change, left otherwise |
| Turns.DetectTurnBands | turn_recognition.py:68-82 | a turn's severity is the highest band its angle reaches, checked from the U-turn band down |
| Turns.DetectTurnMirror | turn_recognition.py:45-84 | reversing a change other than a half turn swaps left and right and keeps severity and angle |
| Turns.DetectTurnExamples | src/navsystem/test_turn_recognition.py:23-43 | the unit-test cases, including 0 to 200 being a left U-turn of 160 |
| Turns.TurnsBelow | turn_recognition.py:108-129 | emitted indices are strictly increasing and lie between 1 and the current node |
| Turns.TurnsBelowMember | turn_recognition.py:118-129 | every listed turn is the decision at its own node |
| Turns.TurnsBelowComplete | turn_recognition.py:108-129 | every node whose decision is a turn is listed |
| Turns.TurnsBelowStep | turn_recognition.py:129 | one more node appends its turn or nothing |
| Turns.OrientationsUpTo | turn_recognition.py:143-162 | the headings keep the length; interior nodes face from predecessor to successor; the last repeats the one before it |
| Turns.Orientations | turn_recognition.py:133-162 | with at least two positions: index 0 faces p0 to p1, interior nodes face their neighbours, the last equals the second-to-last, and the length is kept |
| Turns.NavOrientations | navigation_system.py:113-145 | the session's copy keeps the length and gives heading 0 to a lone position |
| Turns.NavOrientationsAgree | navigation_system.py:113-145 | on two or more positions the session's copy equals the recogniser's |
| Turns.AnalyzePath | turn_recognition.py:86-131 | fewer than three positions give no turns; indices are strictly increasing within 1 to n-2 |
| Turns.TurnAtNodeMeaning | turn_recognition.py:114-127 | a node is a turn exactly when both changes share a non-straight direction; the first change's type and angle win only if its `.value` string is greater |
| Turns.AnalyzePathIndices | turn_recognition.py:108-129 | node i is listed exactly when it is interior and the changes into and out of it share a non-straight direction |
| Turns.AnalyzePathEntry | turn_recognition.py:118-129 | each listed turn carries the shared direction and the type and angle chosen by string comparison |
| Turns.AnalyzePathExample | src/navsystem/test_turn_recognition.py:45-67 | headings 0, 45, 90, 90 give one normal right turn at node 1, of 45 degrees |
| Turns.SlightOutranksSharp | turn_recognition.py:122-127 | headings 0, 20, 120 report a slight turn, although the second change is sharp |
| Progress.SpanSplit | distance_calculator.py:86-87 | segment sums add up across an intermediate node |
| Progress.SpanNonNegative | distance_calculator.py:86-87 | segment sums are non-negative under a distance |
| Progress.PathDistance | distance_calculator.py:33-48 | 0 for fewer than two points and non-negative under a distance |
| Progress.PathDistanceSnoc | distance_calculator.py:45-46 | appending a point adds exactly the new last segment, so the total is the sum of consecutive distances |
| Progress.SpanPrefix | distance_calculator.py:45-46 | a point added at the end does not change earlier segment sums |
| Progress.EuclideanValue | distance_calculator.py:31 | the Euclidean distance takes the square-root value |
| Progress.PathDistanceExample | src/navsystem/test_distance_calculator.py:25-36 | the path (0,0,0), (3,0,0), (3,4,0) is 7 long |
| Progress.Offsets | distance_calculator.py:66-67 | the distances from the position to every node |
| Progress.SnapIndex | distance_calculator.py:62-70 | 0 for an empty path; otherwise the first node at the least distance |
| Progress.FirstPast | distance_calculator.py:72-77 | the first listed turn index past the snap index, or none when no listed index lies past it |
| Progress.DistanceToTurn | distance_calculator.py:50-89 | `(None, None)` exactly when no listed turn lies past the snap index; otherwise the first listed one, at the snap distance plus the segments up to it; an index past the path raises |
| Progress.DistanceToTurnInRange | distance_calculator.py:86-87 | turn indices within the path never raise |
| Progress.DistanceToTurnExample | src/navsystem/test_distance_calculator.py:38-58 | from the origin along (0,0,0), (1,0,0), (2,0,0), (3,4,0) with turns 2 and 3, the next turn is node 2 at distance 2 |
| Progress.TurnTwoAhead | distance_calculator.py:50-89 | the worked case of the example for any distance with unit first segments |
| Progress.UnitSteps | distance_calculator.py:15-31 | the Euclidean distance makes the example's first two segments 1 long |
| Progress.SnapAtStart | distance_calculator.py:62-70 | standing on the first node snaps to it |
| Progress.TwoUnitSegments | distance_calculator.py:86-87 | two unit segments add to 2 |
| Progress.RemainingDistance | navigation_system.py:288-317 | `None` exactly without a path; otherwise at least the snap distance |
| Progress.SpanDrop | navigation_system.py:313-315 | the segments of the path from a node on are the path's own segments from that node |
| Progress.RemainingIsRestOfPath | navigation_system.py:295-317 | on every non-empty path the remaining distance is the distance to the nearest node plus `calculate_path_distance` of the path from that node to the end, with or without a turn ahead |
| Progress.RemainingPassesTurn | navigation_system.py:288-317 | the remaining distance is the distance to the next turn plus the rest of the path after it |
| Progress.ShouldUpdate | distance_calculator.py:91-104 | true exactly when the change reaches the threshold, and only then is the new distance remembered |
| Progress.ShouldUpdateSettles | distance_calculator.py:101-104 | with a positive threshold, a value just reported is not reported again |
| Progress.UpdateRun | distance_calculator.py:91-104 | one answer per distance in the run |
| Progress.UpdateRunExample | src/navsystem/test_distance_calculator.py:60-73 | threshold 5, last 0, distances 6 then 7 give true then false |
| Progress.Truncate | distance_calculator.py:117 | `int(x)` truncates toward zero |
| Progress.RoundHalfEven | distance_calculator.py:120-124 | `round(x)` is within a half of x, and a tie goes to the even integer |
| Progress.Speak | distance_calculator.py:106-129 | below 10 the metres are truncated; below 100 they are a multiple of 5 within 2.5; below 1000 a multiple of 10 within 5; above that, tenths of a kilometre within 50 metres |
| Progress.SpeakBands | distance_calculator.py:116-125 | the 5 and 10 metre bands never go below their lower edge |
| Progress.Describe | distance_calculator.py:106-129 | below 1000 the text is the spoken metre count and " meters"; from 1000 on it is the spoken tenths as whole kilometres, a point, one digit and " kilometers" |
| Progress.RenderMetersInjective | distance_calculator.py:117-125 | different metre counts give different texts |
| Progress.RenderInjective | distance_calculator.py:106-129 | the unit and the amount can be read back: different spoken distances, in either unit, give different texts |
| Progress.KilometersInjective | distance_calculator.py:126-129 | different tenths of a kilometre give different texts |
| Progress.DescribeExamples | src/navsystem/test_distance_calculator.py:75-90 | 6.2 gives "6 meters", 43 "45 meters", 853 "850 meters", 1200 "1.2 kilometers" |
| Speech.Start | tts_system.py:37-44 | `start` leaves the system running and keeps the queue |
| Speech.Stop | tts_system.py:46-54 | `stop` on a running system stops it and queues the marker `(None, 0)`; otherwise nothing changes |
| Speech.Say | tts_system.py:84-97 | `speak` appends at the tail while running and changes nothing when stopped |
| Speech.ClearQueue | tts_system.py:99-106 | `clear_queue` leaves the queue empty |
| Speech.SayAll | tts_system.py:84-97 | several `speak` calls append their texts in order while running and are dropped when stopped |
| Speech.Utter | tts_system.py:56-82 | a consumer that keeps running says the queued texts in queue order, at most one per item, up to the first stop marker |
| Speech.UtterTaken | tts_system.py:49-58 | a consumer that finds `running` cleared after taking some items says a prefix of what the queue holds, at most one text per item taken |
| Speech.UtterPrefix | tts_system.py:58-66 | the texts of the first items come first in what the whole queue says |
| Speech.UtterAppend | tts_system.py:61-66 | behind a queue without a stop marker, later items are said after all earlier ones |
| Speech.SayIsFifo | tts_system.py:84-97 | a spoken text is said after everything queued, whatever its priority |
| Speech.StopSilences | tts_system.py:46-54 | after `stop` nothing is queued, and the marker adds nothing to what is said |
| Speech.StartStopIdempotent | tts_system.py:39-48 | starting twice is starting once, and stopping twice is stopping once |
| Speech.TurnInstruction | tts_system.py:108-132 | "In d, " prefix when a distance is given; "make a U-turn" for a U-turn, otherwise "type direction" |
| Speech.TurnInstructionParts | tts_system.py:120-132 | the prefix comes first, and a U-turn reads the same whichever way it goes |
| Speech.DistanceUpdate | tts_system.py:134-148 | the generic "Continue for" wording is used exactly when the name is falsy; a named update never reads like the generic one |
| Speech.DistanceUpdateReadsDistance | tts_system.py:145-148 | for a given name, different distances give different update texts |
| Speech.DistanceUpdateReadsName | tts_system.py:145-146 | for a given distance, different truthy names give different update texts |
| Speech.Arrival | tts_system.py:150-163 | the generic wording is used exactly when the name is falsy; a truthy name can be read back from the end of the text |
| Speech.ArrivalReadsName | tts_system.py:160-161 | different truthy names give different arrival texts |
| Speech.TurnExample | tts_system.py:120-132 | a normal right turn 45 metres ahead reads "In 45 meters, normal right" |
| Speech.GenericWordingExample | tts_system.py:145-163 | an empty name counts as none |
| Session.IndicesOf | navigation_system.py:153 | the turn indices, one per turn and in order |
| Session.PlacePath | navigation_system.py:99-103 | one position per path id, equal to the keyframe's stored position |
| Session.PathTurns | navigation_system.py:150 | every reported turn index is an interior node of the path |
| Session.Create | navigation_system.py:11-42 | a fresh session is consistent and has no position, destination or path; it is not navigating and its speaker is idle |
| Session.SetCurrentPosition | navigation_system.py:44-53 | sets position and orientation and nothing else |
| Session.SetDestination | navigation_system.py:55-70 | accepted exactly for a keyframe id, which is then stored; otherwise nothing changes |
| Session.CalculatePath | navigation_system.py:72-111 | fails without touching the state when position or destination is unset, when no route exists (the destination is then unreachable from the nearest keyframe), or when the search exhausts its pop budget (`GaveUp`, which the program has no counterpart for); on success the path is a graph walk from the nearest keyframe to the destination, and only the path fields change |
| Session.NearestStart | navigation_system.py:88 | a session with a destination has a nearest keyframe to start from |
| Session.WithPath | navigation_system.py:98-111 | the stored path, positions, headings and turn indices derive from the found path, and nothing else changes |
| Session.GraphReady | navigation_system.py:20-21 | the session's graph has non-negative weights and known edge targets |
| Session.WalkPlaced | navigation_system.py:101-103 | every node of a found path is a keyframe, so the position lookup succeeds |
| Session.StartNavigation | navigation_system.py:159-182 | a no-op while navigating or without a path; otherwise the welcome text is queued at high priority and the session navigates |
| Session.StopNavigation | navigation_system.py:184-198 | a no-op unless navigating; otherwise the session stops, "Navigation stopped." is queued at high priority, and the speaker stops behind it |
| Session.StartStopSpoken | navigation_system.py:159-198 | the welcome is queued after what was queued; the farewell is queued after everything before it and ahead of the stop marker, and a speaking thread that quits after `stop()` says the farewell only if it takes every item queued before it |
| Session.CommandsKeepConsistent | navigation_system.py:44-198 | every command except `calculate_path` keeps the session consistent |
| Session.Begin | navigation_system.py:202-203 | the loop starts with no turn announced and an update already due |
| Session.FindTurn | navigation_system.py:224-228 | the first entry for the index, or none when no entry has it |
| Session.Tick | navigation_system.py:205-266 | without navigation or position, nothing happens; within 2 metres of the end, the arrival is said once at high priority and the loop ends; otherwise the pass goes on to guidance and only the speaker changes |
| Session.Guide | navigation_system.py:214-266 | a pass changes only the speaker, by the announcements it makes, which are at most two |
| Session.GuideAnnouncements | navigation_system.py:222-259 | a turn instruction is said first, only for the turn ahead, and exactly when the last-announced turn changes; a progress update is said last, only when 10 seconds have passed, and exactly when the update time changes |
| Session.PartsInOrder | navigation_system.py:240-256 | the medium-priority item can only be first and the low-priority one only last |
| Session.Combine | navigation_system.py:240-256 | the turn part's texts come before the update part's, and both reach the speaker |
| Session.TurnPart | navigation_system.py:222-243 | a turn instruction only for a turn ahead other than the last announced one, at medium priority, and exactly when the last-announced turn changes |
| Session.UpdatePart | navigation_system.py:245-259 | an update exactly when 10 seconds have passed and there is a path: "Continue for" the remaining distance, at low priority, and the update time becomes now |
| Session.TurnLookupSucceeds | navigation_system.py:224-228 | the loop's lookup of the turn ahead always finds it |
| Session.NewTurnAnnounced | navigation_system.py:222-243 | in a consistent session a new turn ahead is announced first, with the recogniser's direction and severity |
| Session.NoIndexError | navigation_system.py:218-219 | a consistent session never hits the index error |
| Session.TickKeepsConsistent | navigation_system.py:200-266 | a pass keeps the session consistent |
| Session.ArrivalOnce | navigation_system.py:207-212 | after the arrival, the next pass says nothing |
| Session.TurnOnce | navigation_system.py:222-243 | a turn announced once is not announced again while it is still the next turn |
| Session.UpdatesSpaced | navigation_system.py:246-259 | progress updates are at least 10 seconds apart |
| Session.FirstUpdateDue | navigation_system.py:203-259 | the first pass away from the destination gives the remaining-distance update |
| VoiceCommands.FirstMatch | src/navsystem/audio_processor.py:178-182 | the first command from a position on that matches, with none matching before it, or none at all |
| VoiceCommands.IdentifyCommand | src/navsystem/audio_processor.py:163-185 | none for missing or empty text; otherwise the first command in table order with a keyword contained in the lower-cased text, or none when no keyword is contained |
| VoiceCommands.IdentifyIgnoresCase | src/navsystem/audio_processor.py:176-180 | texts equal up to case select the same command |
| VoiceCommands.DropPunctuation | src/navsystem/audio_processor.py:265-266 | exactly one trailing '.', '?' or '!' is removed, and nothing else |
| VoiceCommands.FirstPattern | src/navsystem/audio_processor.py:261-262 | the first pattern in order that occurs, with no earlier one occurring, or none |
| VoiceCommands.ExtractDestination | src/navsystem/audio_processor.py:245-271 | none exactly when no pattern occurs; otherwise the original-case text after the first occurrence of the first occurring pattern, stripped and less one mark; the result occurs in the text |
| VoiceCommands.DestinationAt | src/navsystem/audio_processor.py:261-267 | the destination found at the first occurrence of the first pattern meets that description |
| VoiceCommands.PieceOfTail | src/navsystem/audio_processor.py:263-266 | the destination is a piece of the original text and has no leading whitespace |
| VoiceCommands.StripKeeps | src/navsystem/audio_processor.py:263 | a string without whitespace at either end strips to itself |
| VoiceCommands.LowerAppend | src/navsystem/audio_processor.py:258 | lower-casing works piece by piece |
| VoiceCommands.ExtractAfterNavigateTo | src/navsystem/audio_processor.py:261-267 | "navigate to d" gives back d, for d without surrounding whitespace or closing mark |
| VoiceCommands.NavigateToFirst | src/navsystem/audio_processor.py:261-263 | in "navigate to ..." the first pattern is found at the start |
| VoiceCommands.NavigateToPrefix | src/navsystem/audio_processor.py:258-262 | "navigate to ..." lower-cased still starts with the pattern |
| VoiceCommands.NavigateToPlain | src/navsystem/audio_processor.py:261 | the pattern is lower-case ASCII |
| VoiceCommands.AsciiAppend | src/navsystem/audio_processor.py:258 | ASCII texts concatenate to ASCII |
| VoiceCommands.LowerKeeps | src/navsystem/audio_processor.py:180 | text without capitals is its own lower-case form |
| VoiceCommands.Actions | src/navsystem/audio_processor.py:231 | the actions of the table, in order |
| VoiceCommands.ExecuteCommand | src/navsystem/audio_processor.py:187-243 | navigation succeeds exactly with a non-empty destination, which it reports; stop, restart and location are reported; help lists the actions joined by ", "; any other action is refused |
| VoiceCommands.HandleText | src/navsystem/audio_processor.py:126-128 | text naming a command replaces the last command with the result of executing it; other text keeps it |
| VoiceCommands.TableActionsKnown | src/navsystem/audio_processor.py:198-237 | every action in the table is known, so a command is refused only for want of a destination |
| VoiceCommands.HelpText | src/navsystem/audio_processor.py:229-233 | the help text is "Available commands: navigate, stop, restart, get_location, help" |
| Framing.Tag | raspberry_pi_sender.py:191-216 | the tag is five bytes |
| Framing.SizeBytes | raspberry_pi_sender.py:191-216 | `to_bytes(3, 'big')` gives three bytes exactly when the length is below 2^24, and raises otherwise |
| Framing.ReadSize | bluetooth_receiver.py:136 | a 3-byte big-endian length is below 2^24 |
| Framing.SizeRoundTrip | bluetooth_receiver.py:136 | reading back a written length gives the length |
| Framing.Frame | raspberry_pi_sender.py:191-220 | a frame exists exactly for payloads below 2^24 and is 8 bytes longer than its payload |
| Framing.FrameLayout | raspberry_pi_sender.py:191-195 | a frame is the tag, a length field that reads back as the payload length, and the payload |
| Framing.Enqueue | raspberry_pi_sender.py:160-176 | queueing appends the payload and changes nothing else |
| Framing.SendStep | raspberry_pi_sender.py:178-230 | an empty queue waits; otherwise the head is taken and sent only while connected; an oversized payload sends nothing and reconnects when disconnected |
| Framing.SenderStreams | raspberry_pi_sender.py:182-195 | a connected sender whose sends write whole frames sends one frame per queued payload, in order, and stays connected |
| Framing.SendsHead | raspberry_pi_sender.py:182-195 | one connected step sends the head payload's whole frame |
| Framing.StepConnected | raspberry_pi_sender.py:194-195 | a connected step with a payload that fits appends its whole frame |
| Framing.FramesCons | raspberry_pi_sender.py:195 | the frames of a queue are the head's frame followed by the rest |
| Framing.DisconnectedDrops | raspberry_pi_sender.py:194-219 | a disconnected sender that cannot reconnect sends nothing and drains its queue |
| Framing.Handler | bluetooth_receiver.py:34-37 | a handler exists exactly for the names "video" and "audio" |
| Framing.HeaderLocal | bluetooth_receiver.py:134-136 | the header reads the first eight bytes and nothing else |
| Framing.FrameHeader | bluetooth_receiver.py:134-136 | a buffer starting with a frame's header names that frame's handler and payload length |
| Framing.TagIsExact | bluetooth_receiver.py:135-147 | five bytes select a handler exactly when they are that handler's tag |
| Framing.HeaderSelects | bluetooth_receiver.py:134-147 | a buffer's header names a handler exactly when the buffer starts with its tag |
| Framing.TagSelects | bluetooth_receiver.py:135-147 | each tag decodes to its name, which selects its handler |
| Framing.NamePlain | bluetooth_receiver.py:34-37 | the handler names are ASCII without whitespace |
| Framing.PlainRoundTrip | bluetooth_receiver.py:135 | such a name survives encoding, decoding and stripping |
| Framing.TagOnly | bluetooth_receiver.py:135-147 | only the tag itself selects its handler |
| Framing.StripKeepsFull | bluetooth_receiver.py:135 | stripping that keeps the full length removes nothing |
| Framing.Prepend | bluetooth_receiver.py:148 | earlier dispatches come first |
| Framing.Drain | bluetooth_receiver.py:132-158 | complete frames leave the front in order; an undecodable tag closes the connection and discards the buffer |
| Framing.DrainLeaves | bluetooth_receiver.py:132-144 | what is left is the unread end of the buffer, and it is less than a whole frame |
| Framing.SuffixOfSuffix | bluetooth_receiver.py:144 | an end of an end of the buffer is an end of the buffer |
| Framing.Emit | bluetooth_receiver.py:147-150 | a known tag dispatches its payload; an unknown one is skipped |
| Framing.DrainStep | bluetooth_receiver.py:143-150 | a complete frame is consumed as exactly 8 + size bytes, and the rest is kept |
| Framing.EmitThen | bluetooth_receiver.py:147-150 | dispatching commutes with continuing on later bytes |
| Framing.DrainAppend | bluetooth_receiver.py:129-150 | bytes that arrive later do not change what was already dispatched |
| Framing.FrameThen | bluetooth_receiver.py:143-144 | the frame step of the previous property |
| Framing.DropOfAppend | bluetooth_receiver.py:144 | slicing off the front commutes with appending |
| Framing.SliceOfAppend | bluetooth_receiver.py:143 | a payload slice is unaffected by later bytes |
| Framing.Receive | bluetooth_receiver.py:119-129 | an empty `recv` ends the loop with the buffer as it was |
| Framing.ChunkingIrrelevant | bluetooth_receiver.py:123-150 | however the bytes are split into `recv` results, the receiver dispatches what one pass over all of them would |
| Framing.ConcatCons | bluetooth_receiver.py:129 | appending chunk by chunk is appending their concatenation |
| Framing.NonEmptyTail | bluetooth_receiver.py:126-127 | later chunks stay non-empty |
| Framing.ReceiveStep | bluetooth_receiver.py:125-150 | one non-empty `recv` drains the buffer and goes on |
| Framing.WaitingDrains | bluetooth_receiver.py:132-140 | a buffer waiting for more data is left as it is |
| Framing.FrameDispatched | bluetooth_receiver.py:132-148 | a whole frame at the front is dispatched to its handler and removed |
| Framing.PartialFrameWaits | bluetooth_receiver.py:139-140 | a frame that has only partly arrived is kept whole, and nothing is dispatched |
| Framing.Messages | bluetooth_receiver.py:148 | one message per payload |
| Framing.FramesRoundTrip | bluetooth_receiver.py:132-148 | frames back to back decode to their payloads, in order, with nothing left over |
| Framing.EndToEnd | raspberry_pi_sender.py:178-230 | when every send writes its whole frame, what a connected sender queued reaches the matching handler in order, however the link splits the bytes |

## Left out

- Threads, sleeping and timing are not modelled. This covers the guidance loop thread, the speech thread, the sender threads, the accept loop and the audio worker. Each loop body is a step function, and the clock reading is a parameter.
- The text-to-speech engine (`pyttsx3`), the Bluetooth sockets, service discovery, the camera and microphone, `cv2` JPEG encoding and speech recognition are not modelled. They are hardware or foreign calls. The sender's payload is the encoded bytes, and the success of `connect()` is a parameter.
- The receiver's handlers `_handle_video_data` and `_handle_audio_data` are not modelled beyond being called. What they do with the payload is foreign code.
- `start_server`, `stop_server` and the receiver's `running` flag are not modelled. Stopping the server from another thread is concurrency.
- The video and audio sender threads share one socket, so their frames can interleave. Each thread is modelled alone.
- Framing.SendStep: socket errors from `send` other than the header overflow are not modelled. They depend on the link.
- Framing.SendStep: `socket.send` at raspberry_pi_sender.py:195 and :220 may write only part of a frame and report the count, which the sender ignores; the model writes the whole frame, as `sendall` would. A short write leaves the receiver out of step, so `Framing.SenderStreams`, `Framing.SendsHead`, `Framing.StepConnected` and `Framing.EndToEnd` hold only when every send writes its whole frame.
- Floating point is not modelled; all numbers are exact reals. `np.sqrt` and `np.arctan2` are abstract parameters.
- Progress.Speak: the kilometre case takes `km:.1f` as half-to-even rounding of the exact value. Python rounds the binary double, which can differ at an exact tie.
- CSV reading, and the `int` and `float` parsing of cells, are not modelled. Rows are given as lists of cells, and the parsers are a parameter (`Keyframes.Parsers`).
- PathFinding.AStar: the search is bounded by a number of pops (`fuel`), because termination of the lazy A* loop over reals is not shown. When the budget runs out, the model answers `OutOfFuel`, which the program has no counterpart for. The contract does not state that the search finds a path whenever the goal is reachable.
- PathFinding.AStar: optimality of the returned path is not stated. The heuristic is the straight-line distance between stored positions, and the edge weights are the same distances, so in exact arithmetic the heuristic is consistent and the first pop of the goal gives a least-weight route. That argument rests on the triangle inequality of the distance, which the abstract `IsDistance` does not assume, so the model does not prove it.
- PathFinding.Expand: the model computes the heuristic of each neighbour before the improvement test, while the code computes it only on improvement. The heuristic is a pure lookup, so the result is the same.
- BreadthFirst.FindPath: does not state that the path has the fewest edges. It states only walk shape, no repeats and exactly-when-unreachable.
- Session.CalculatePath: the `find_nearest_keyframe` that navigation_system.py imports from data_setup.py does not exist there. The model uses `PathFinder.find_nearest_keyframe`.
- Session.Tick: the loop's `except` swallows three errors a pass can raise, and the model gives each the same result, a pass without effect. They are the `TypeError` from unpacking a missing position in `calculate_distance` (distance_calculator.py:27, reached from the arrival check at navigation_system.py:208), which `Session.Tick` states for a session without a position; the index error of `calculate_distance_to_turn`; and a heading list shorter than the path in `analyze_path`. The printed message and the one-second back-off after an error are not modelled.
- Session.Create: `load_keyframes` is applied by the caller through `Keyframes.Load`. Opening the file is I/O.
- Speech.Utter: which consumer thread takes the stop marker after a stop and a restart depends on thread timing. `Utter` describes one consumer that reads the queue from the front.
- Speech.Utter: `stop()` clears `running` before it queues the marker, and the thread checks `running` before each `get`, so after `stop()` items still queued, the farewell included, may be abandoned. `Utter` gives what a consumer that keeps up says; `Speech.UtterTaken` gives the prefix a stopped one says, and how many items it takes before quitting is timing the model does not fix.
- VoiceCommands.IdentifyCommand: `Text.Lower` lower-cases ASCII only, so the contract matches the program on ASCII text. On other text Python's `lower()` can differ: the Kelvin sign becomes `k`, so "TA\u212AE ME" selects the navigate command in the program and nothing in the model. The same holds for `VoiceCommands.ExecuteCommand` and `VoiceCommands.HandleText`, which are built on it.
- VoiceCommands.ExtractDestination: texts are ASCII. Python's full Unicode `lower()` can change lengths and shift indices; ASCII keeps every index in place.
- VoiceCommands.ExecuteCommand: the timestamp in the report is not modelled; it is a clock reading. Writing transcripts is file I/O.
- Progress.DistanceToTurnExample: stated for any distance that makes the first two segments 1 long. `Progress.UnitSteps` shows that the Euclidean distance does.
- Session.Consistent requires the distance to satisfy `IsDistance`. The program's `np.linalg.norm` does.
