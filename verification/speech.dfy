/** `TTSSystem` (tts_system.py): the announcement texts and the speech queue
    as a state record. The speaking thread and the speech engine are outside
    the model; the queue is what the rest of the system can observe. */
module Speech {
  import opened Common
  import opened Text

  const High := 3
  const Medium := 2
  const Low := 1

  /** A queued `(text, priority)` pair; `None` text is the stop marker. */
  datatype Item = Item(text: Option<string>, priority: int)

  datatype Speaker = Speaker(running: bool, queue: seq<Item>)

  /** A new system: not running, nothing queued. */
  const Idle := Speaker(false, [])

  /** `start()`: only a stopped system changes, and it keeps its queue. */
  function Start(s: Speaker): (r: Speaker)
    ensures r.running && r.queue == s.queue
  {
    if !s.running then s.(running := true) else s
  }

  /** `stop()`: a running system stops and queues the stop marker `(None, 0)`. */
  function Stop(s: Speaker): (r: Speaker)
    ensures !r.running
    ensures s.running ==> r.queue == s.queue + [Item(None, 0)]
    ensures !s.running ==> r == s
  {
    if s.running then Speaker(false, s.queue + [Item(None, 0)]) else s
  }

  /** `speak(text, priority)`: appended at the tail while running, dropped
      otherwise. The priority is stored and never reorders the queue. */
  function Say(s: Speaker, text: string, priority: int): (r: Speaker)
    ensures r.running == s.running
    ensures s.running ==> r.queue == s.queue + [Item(Some(text), priority)]
    ensures !s.running ==> r == s
  {
    if s.running then s.(queue := s.queue + [Item(Some(text), priority)]) else s
  }

  /** `clear_queue()`. */
  function ClearQueue(s: Speaker): (r: Speaker)
    ensures r.running == s.running && r.queue == []
  {
    s.(queue := [])
  }

  /** One `speak(text, priority)` call. */
  datatype Announcement = Announcement(text: string, priority: int)

  function Queued(a: Announcement): Item {
    Item(Some(a.text), a.priority)
  }

  /** Several `speak` calls in a row: a running system queues them all, in
      order; a stopped one drops them all. */
  function SayAll(s: Speaker, said: seq<Announcement>): (r: Speaker)
    ensures r.running == s.running
    ensures s.running ==> |r.queue| == |s.queue| + |said| && r.queue[..|s.queue|] == s.queue
    ensures s.running ==> forall k :: 0 <= k < |said| ==> r.queue[|s.queue| + k] == Queued(said[k])
    ensures !s.running ==> r == s
    decreases |said|
  {
    if said == [] then s
    else SayAll(Say(s, said[0].text, said[0].priority), said[1..])
  }

  /** What the speaking thread says when it works through `q`: every text in
      queue order, up to the first stop marker. */
  function Utter(q: seq<Item>): (r: seq<string>)
    ensures |r| <= |q|
  {
    if q == [] || q[0].text.None? then [] else [q[0].text.value] + Utter(q[1..])
  }

  /** What a consumer says when it finds `running` cleared after taking the
      first `n` items: `stop()` clears the flag before it queues the marker,
      and the thread checks the flag before every `get`, so after `stop()` it
      says only a prefix of what the queue holds. */
  function UtterTaken(q: seq<Item>, n: nat): (r: seq<string>)
    requires n <= |q|
    ensures |r| <= n && r <= Utter(q)
  {
    UtterPrefix(q, n);
    Utter(q[..n])
  }

  /** The texts of the first `n` items come first in what the whole queue
      says. */
  lemma {:induction false} UtterPrefix(q: seq<Item>, n: nat)
    requires n <= |q|
    ensures |Utter(q[..n])| <= n && Utter(q[..n]) <= Utter(q)
    decreases n
  {
    if n > 0 && q[0].text.Some? {
      assert q[..n][0] == q[0] && q[..n][1..] == q[1..][..n - 1];
      UtterPrefix(q[1..], n - 1);
    }
  }

  predicate HasStopMarker(q: seq<Item>) {
    exists i :: 0 <= i < |q| && q[i].text.None?
  }

  /** Queue order is speaking order: what is queued after a marker-free queue
      is said after all of it. */
  lemma {:induction false} UtterAppend(q: seq<Item>, tail: seq<Item>)
    requires !HasStopMarker(q)
    ensures Utter(q + tail) == Utter(q) + Utter(tail)
  {
    if q == [] {
      assert q + tail == tail;
    } else {
      assert q[0].text.Some? && (q + tail)[0] == q[0];
      assert (q + tail)[1..] == q[1..] + tail;
      assert !HasStopMarker(q[1..]) by {
        forall i | 0 <= i < |q[1..]| ensures q[1..][i].text.Some? {
          assert q[1..][i] == q[i + 1];
        }
      }
      UtterAppend(q[1..], tail);
    }
  }

  /** A spoken announcement is said after everything already queued, whatever
      its priority. */
  lemma {:induction false} SayIsFifo(s: Speaker, text: string, p1: int, p2: int)
    requires s.running && !HasStopMarker(s.queue)
    ensures Utter(Say(s, text, p1).queue) == Utter(s.queue) + [text]
    ensures Utter(Say(s, text, p1).queue) == Utter(Say(s, text, p2).queue)
  {
    UtterAppend(s.queue, [Item(Some(text), p1)]);
    UtterAppend(s.queue, [Item(Some(text), p2)]);
  }

  /** Once stopped, nothing said afterwards is queued, and nothing after the
      marker would be spoken. */
  lemma {:induction false} StopSilences(s: Speaker, text: string, p: int)
    ensures Say(Stop(s), text, p) == Stop(s)
    ensures s.running && !HasStopMarker(s.queue) ==> Utter(Stop(s).queue) == Utter(s.queue)
  {
    if s.running && !HasStopMarker(s.queue) {
      UtterAppend(s.queue, [Item(None, 0)]);
    }
  }

  /** Starting and stopping twice is the same as once. */
  lemma {:induction false} StartStopIdempotent(s: Speaker)
    ensures Start(Start(s)) == Start(s)
    ensures Stop(Stop(s)) == Stop(s)
  {
  }

  /** `generate_turn_instruction(direction, turn_type, distance)`. */
  function TurnInstruction(direction: string, turnType: string, distance: Option<string>): (r: string)
    ensures distance.Some? ==> |r| > |distance.value| + 5 && r[..|distance.value| + 5] == "In " + distance.value + ", "
    ensures distance.None? && turnType != "u-turn" ==> r == turnType + " " + direction
    ensures distance.None? && turnType == "u-turn" ==> r == "make a U-turn"
  {
    var prefix := if distance.Some? then "In " + distance.value + ", " else "";
    prefix + (if turnType == "u-turn" then "make a U-turn" else turnType + " " + direction)
  }

  /** A U-turn reads the same whichever way it goes; any other turn names its
      severity and then its direction after the optional distance. */
  lemma {:induction false} TurnInstructionParts(direction: string, other: string, turnType: string, distance: Option<string>)
    ensures var prefix := if distance.Some? then "In " + distance.value + ", " else "";
      var r := TurnInstruction(direction, turnType, distance);
      && |r| >= |prefix|
      && r[..|prefix|] == prefix
      && (turnType == "u-turn" ==>
            r[|prefix|..] == "make a U-turn" && TurnInstruction(other, turnType, distance) == r)
      && (turnType != "u-turn" ==> r[|prefix|..] == turnType + " " + direction)
  {
  }

  /** Python's truthiness of an optional name: `None` and `""` are false. */
  predicate Truthy(name: Option<string>) {
    name.Some? && name.value != ""
  }

  /** `generate_distance_update(distance, destination_name)`: the generic
      wording is used exactly when the name is falsy; a named update never
      reads like the generic one. */
  function DistanceUpdate(distance: string, name: Option<string>): (r: string)
    ensures !Truthy(name) <==> r == "Continue for " + distance
  {
    if Truthy(name) then
      var named := name.value + " is " + distance + " away";
      assert named != "Continue for " + distance by {
        if |named| == |"Continue for " + distance| {
          assert |name.value| == 4;
          assert named[4] == ' ' && ("Continue for " + distance)[4] == 'i';
        }
      }
      named
    else "Continue for " + distance
  }

  /** The distance can be read back from an update: different distances give
      different texts. */
  lemma {:induction false} DistanceUpdateReadsDistance(d1: string, d2: string, name: Option<string>)
    requires DistanceUpdate(d1, name) == DistanceUpdate(d2, name)
    ensures d1 == d2
  {
    var t1, t2 := DistanceUpdate(d1, name), DistanceUpdate(d2, name);
    if Truthy(name) {
      var head := name.value + " is ";
      assert t1 == head + d1 + " away" && t2 == head + d2 + " away";
      assert |d1| == |d2|;
      assert d1 == t1[|head|..|head| + |d1|] && d2 == t2[|head|..|head| + |d2|];
    } else {
      assert d1 == t1[13..] && d2 == t2[13..];
    }
  }

  /** A truthy name can be read back from an update for a given distance. */
  lemma {:induction false} DistanceUpdateReadsName(d: string, n1: Option<string>, n2: Option<string>)
    requires Truthy(n1) && Truthy(n2) && DistanceUpdate(d, n1) == DistanceUpdate(d, n2)
    ensures n1 == n2
  {
    var t1, t2 := DistanceUpdate(d, n1), DistanceUpdate(d, n2);
    assert t1 == n1.value + (" is " + d + " away") && t2 == n2.value + (" is " + d + " away");
    assert |n1.value| == |n2.value|;
    assert n1.value == t1[..|n1.value|] && n2.value == t2[..|n2.value|];
  }

  /** `announce_arrival(destination_name)`: the generic wording is used
      exactly when the name is falsy, and a truthy name can be read back from
      the end of the text. */
  function Arrival(name: Option<string>): (r: string)
    ensures !Truthy(name) <==> r == "You have reached your destination"
    ensures Truthy(name) ==> |r| > 20 && r[20..] == name.value
  {
    if Truthy(name) then
      var named := "You have arrived at " + name.value;
      assert named[9] == 'a' && "You have reached your destination"[9] == 'r';
      named
    else "You have reached your destination"
  }

  /** Different truthy names give different arrival texts. */
  lemma {:induction false} ArrivalReadsName(n1: Option<string>, n2: Option<string>)
    requires Truthy(n1) && Truthy(n2) && Arrival(n1) == Arrival(n2)
    ensures n1 == n2
  {
  }

  /** The text for a normal right turn 45 metres ahead. */
  lemma {:induction false} TurnExample()
    ensures TurnInstruction("right", "normal", Some("45 meters")) == "In 45 meters, normal right"
  {
  }

  /** Without a destination name the update and the arrival use the generic
      wording; an empty name counts as none. */
  lemma {:induction false} GenericWordingExample()
    ensures DistanceUpdate("850 meters", Some("")) == "Continue for 850 meters"
    ensures Arrival(None) == "You have reached your destination"
  {
  }
}
