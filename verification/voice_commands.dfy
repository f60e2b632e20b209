/** The text side of `AudioToTextConverter` (src/navsystem/audio_processor.py):
    the command table, keyword matching, destination extraction and command
    dispatch. Speech recognition, transcripts and the worker thread are
    outside the model. Texts are ASCII, where the model's lower-casing is
    Python's and keeps every index in place. */
module VoiceCommands {
  import opened Common
  import opened Text

  datatype Command = Command(keywords: seq<string>, action: string, description: string)

  /** The table `_load_commands` installs, in matching order. */
  const Commands: seq<Command> := [
    Command(["navigate", "go", "take me"], "navigate", "Navigate to a specified location"),
    Command(["stop", "halt", "pause"], "stop", "Stop navigation"),
    Command(["restart", "resume", "continue"], "restart", "Restart or resume navigation"),
    Command(["where am i", "location", "position"], "get_location", "Get current location information"),
    Command(["help", "assistance", "commands"], "help", "List available commands")
  ]

  /** Some keyword of `c`, lower-cased, occurs in the lower-cased text. */
  predicate Matches(c: Command, lowered: string) {
    exists k :: 0 <= k < |c.keywords| && Find(lowered, Lower(c.keywords[k])).Some?
  }

  /** The first command of `cmds[from..]` that matches. */
  function FirstMatch(cmds: seq<Command>, lowered: string, from: nat): (r: Option<nat>)
    decreases |cmds| - from
    ensures r.Some? ==> from <= r.value < |cmds| && Matches(cmds[r.value], lowered)
    ensures r.Some? ==> forall j :: from <= j < r.value ==> !Matches(cmds[j], lowered)
    ensures r.None? ==> forall j :: from <= j < |cmds| ==> !Matches(cmds[j], lowered)
  {
    if from >= |cmds| then None
    else if exists k :: 0 <= k < |cmds[from].keywords| && Find(lowered, Lower(cmds[from].keywords[k])).Some? then Some(from)
    else FirstMatch(cmds, lowered, from + 1)
  }

  /** `_identify_command(text)`: nothing for a missing or empty text, else the
      first command in table order one of whose keywords is a substring of the
      lower-cased text. */
  function IdentifyCommand(cmds: seq<Command>, text: Option<string>): (r: Option<Command>)
    ensures text.None? || text == Some("") ==> r.None?
    ensures r.Some? ==> exists i :: (0 <= i < |cmds| && cmds[i] == r.value
      && (exists k :: 0 <= k < |r.value.keywords| && Contains(Lower(text.value), Lower(r.value.keywords[k])))
      && (forall j :: 0 <= j < i ==> !Matches(cmds[j], Lower(text.value))))
    ensures text.Some? && text.value != [] && r.None? ==>
      forall j, k :: 0 <= j < |cmds| && 0 <= k < |cmds[j].keywords| ==>
        !Contains(Lower(text.value), Lower(cmds[j].keywords[k]))
  {
    if text.None? || text.value == [] then None else
      match FirstMatch(cmds, Lower(text.value), 0)
      case None => None
      case Some(i) => Some(cmds[i])
  }

  /** Matching ignores case: texts equal up to case select the same command,
      and a text selects what its lower-cased form selects. */
  lemma {:induction false} IdentifyIgnoresCase(cmds: seq<Command>, a: string, b: string)
    requires Lower(a) == Lower(b)
    ensures IdentifyCommand(cmds, Some(a)) == IdentifyCommand(cmds, Some(b))
    ensures IdentifyCommand(cmds, Some(a)) == IdentifyCommand(cmds, Some(Lower(a)))
  {
    LowerIdempotent(a);
  }

  /** The phrases that start a destination, in the order they are tried. */
  const Patterns: seq<string> := [NavigateTo, "go to ", "take me to "]
  const NavigateTo := "navigate to "

  predicate IsPunctuation(c: char) {
    c == '.' || c == '?' || c == '!'
  }

  /** Drops one trailing `.`, `?` or `!`. */
  function DropPunctuation(s: string): (r: string)
    ensures s != [] && IsPunctuation(s[|s| - 1]) ==> r == s[..|s| - 1]
    ensures s == [] || !IsPunctuation(s[|s| - 1]) ==> r == s
  {
    if s != [] && IsPunctuation(s[|s| - 1]) then s[..|s| - 1] else s
  }

  /** The first pattern of `Patterns[from..]` that occurs in the text. */
  function FirstPattern(lowered: string, from: nat): (r: Option<nat>)
    decreases |Patterns| - from
    ensures r.Some? ==> from <= r.value < |Patterns| && Contains(lowered, Patterns[r.value])
    ensures r.Some? ==> forall j :: from <= j < r.value ==> !Contains(lowered, Patterns[j])
    ensures r.None? ==> forall j :: from <= j < |Patterns| ==> !Contains(lowered, Patterns[j])
  {
    if from >= |Patterns| then None
    else if Find(lowered, Patterns[from]).Some? then Some(from)
    else FirstPattern(lowered, from + 1)
  }

  /** `_extract_destination(text)`: the original-case text after the first
      occurrence of the first pattern present, stripped, less one trailing
      punctuation mark. */
  function ExtractDestination(text: string): (r: Option<string>)
    requires IsAscii(text)
    ensures r.None? <==> forall j :: 0 <= j < |Patterns| ==> !Contains(Lower(text), Patterns[j])
    ensures r.Some? ==> exists p, i :: (0 <= p < |Patterns| && OccursAt(Lower(text), Patterns[p], i)
      && (forall j :: 0 <= j < p ==> !Contains(Lower(text), Patterns[j]))
      && (forall j :: 0 <= j < i ==> !OccursAt(Lower(text), Patterns[p], j))
      && r.value == DropPunctuation(Strip(text[i + |Patterns[p]|..])))
    ensures r.Some? ==> (exists j :: OccursAt(text, r.value, j)) && (r.value == [] || !IsSpace(r.value[0]))
  {
    var lowered := Lower(text);
    match FirstPattern(lowered, 0)
    case None => None
    case Some(p) =>
      var i := Find(lowered, Patterns[p]).value;
      var d := DropPunctuation(Strip(text[i + |Patterns[p]|..]));
      PieceOfTail(text, i + |Patterns[p]|, d);
      DestinationAt(text, p, i, d);
      Some(d)
  }

  /** The destination found after the first occurrence `i` of the first
      present pattern `p` witnesses the description of the result. */
  lemma {:induction false} DestinationAt(text: string, p: nat, i: nat, d: string)
    requires IsAscii(text) && p < |Patterns| && OccursAt(Lower(text), Patterns[p], i)
    requires forall j :: 0 <= j < p ==> !Contains(Lower(text), Patterns[j])
    requires forall j :: 0 <= j < i ==> !OccursAt(Lower(text), Patterns[p], j)
    requires d == DropPunctuation(Strip(text[i + |Patterns[p]|..]))
    ensures exists p', i' :: (0 <= p' < |Patterns| && OccursAt(Lower(text), Patterns[p'], i')
      && (forall j :: 0 <= j < p' ==> !Contains(Lower(text), Patterns[j]))
      && (forall j :: 0 <= j < i' ==> !OccursAt(Lower(text), Patterns[p'], j))
      && d == DropPunctuation(Strip(text[i' + |Patterns[p']|..])))
  {
  }

  /** What is left of a tail of `text` after stripping and dropping a mark
      occurs in `text`: the destination keeps the case the speaker used, and
      has no whitespace in front. */
  lemma {:induction false} PieceOfTail(text: string, from: nat, d: string)
    requires from <= |text| && d == DropPunctuation(Strip(text[from..]))
    ensures exists j :: OccursAt(text, d, j)
    ensures d == [] || !IsSpace(d[0])
  {
    var tail := text[from..];
    var stripped := Strip(tail);
    if stripped != [] {
      var lead := LeadingSpaces(tail);
      var j := from + lead;
      assert d == stripped[..|d|];
      assert text[j..j + |d|] == tail[lead..lead + |d|];
      assert OccursAt(text, d, j);
    } else {
      assert OccursAt(text, d, 0);
    }
  }

  /** A stripped leading character and a stripped trailing character leave
      nothing to strip. */
  lemma {:induction false} StripKeeps(s: string)
    requires s != [] && !IsSpace(s[0]) && !IsSpace(s[|s| - 1])
    ensures Strip(s) == s
  {
    assert LeadingSpaces(s) == 0;
    assert TrailingSpaces(s) == 0;
    assert s[0..][..|s|] == s;
  }

  /** Lower-casing works character by character. */
  lemma {:induction false} LowerAppend(a: string, b: string)
    ensures Lower(a + b) == Lower(a) + Lower(b)
  {
    if a != [] {
      assert (a + b)[1..] == a[1..] + b;
      LowerAppend(a[1..], b);
    } else {
      assert a + b == b;
    }
  }

  /** Saying "navigate to" before a destination gives the destination back,
      when it has no surrounding whitespace and no closing punctuation. */
  lemma {:induction false} ExtractAfterNavigateTo(d: string)
    requires IsAscii(d) && d != [] && !IsSpace(d[0]) && !IsSpace(d[|d| - 1]) && !IsPunctuation(d[|d| - 1])
    ensures IsAscii(Patterns[0] + d)
    ensures ExtractDestination(Patterns[0] + d) == Some(d)
  {
    var text := Patterns[0] + d;
    NavigateToFirst(d);
    assert text[|Patterns[0]|..] == d;
    StripKeeps(d);
  }

  /** In "navigate to" followed by anything, the first pattern is found at
      the very start. */
  lemma {:induction false} NavigateToFirst(d: string)
    requires IsAscii(d)
    ensures IsAscii(Patterns[0] + d)
    ensures FirstPattern(Lower(Patterns[0] + d), 0) == Some(0)
    ensures Find(Lower(Patterns[0] + d), Patterns[0]) == Some(0)
  {
    NavigateToPrefix(d);
    var lowered := Lower(Patterns[0] + d);
    assert FindFrom(lowered, Patterns[0], 0) == Some(0);
  }

  lemma {:induction false} NavigateToPrefix(d: string)
    requires IsAscii(d)
    ensures IsAscii(Patterns[0] + d)
    ensures OccursAt(Lower(Patterns[0] + d), Patterns[0], 0)
  {
    var t := NavigateTo + d;
    NavigateToPlain();
    AsciiAppend(NavigateTo, d);
    assert forall i :: 0 <= i < |NavigateTo| ==> t[i] == NavigateTo[i];
    assert Lower(t)[0..|NavigateTo|] == NavigateTo;
  }

  lemma {:induction false} NavigateToPlain()
    ensures IsAscii(NavigateTo)
    ensures forall i :: 0 <= i < |NavigateTo| ==> !('A' <= NavigateTo[i] <= 'Z')
  {
  }

  lemma {:induction false} AsciiAppend(a: string, b: string)
    requires IsAscii(a) && IsAscii(b)
    ensures IsAscii(a + b)
  {
    assert forall i :: 0 <= i < |a| ==> (a + b)[i] == a[i];
    assert forall i :: |a| <= i < |a + b| ==> (a + b)[i] == b[i - |a|];
  }

  /** A text without capitals is its own lower-case form. */
  lemma {:induction false} LowerKeeps(s: string)
    requires forall i :: 0 <= i < |s| ==> !('A' <= s[i] <= 'Z')
    ensures Lower(s) == s
  {
  }

  /** What `_execute_command` reports, without its timestamp. */
  datatype Executed = Executed(action: string, text: string, destination: Option<string>, helpText: Option<string>)

  /** The actions of a command table, in order. */
  function Actions(cmds: seq<Command>): (r: seq<string>)
    ensures |r| == |cmds| && forall i :: 0 <= i < |r| ==> r[i] == cmds[i].action
  {
    seq(|cmds|, i requires 0 <= i < |cmds| => cmds[i].action)
  }

  /** `_execute_command(command, text)`: navigation needs a non-empty
      destination; stop, restart and location requests are reported as they
      are; help lists the table's actions; any other action is refused. */
  function ExecuteCommand(cmds: seq<Command>, c: Command, text: string): (r: Option<Executed>)
    requires IsAscii(text)
    ensures r.Some? ==> r.value.action == c.action && r.value.text == text
    ensures c.action == "navigate" ==>
      (r.Some? <==> ExtractDestination(text).Some? && ExtractDestination(text).value != [])
    ensures c.action == "navigate" && r.Some? ==> r.value.destination == ExtractDestination(text)
    ensures c.action in {"stop", "restart", "get_location"} ==> r == Some(Executed(c.action, text, None, None))
    ensures c.action == "help" ==>
      r == Some(Executed(c.action, text, None, Some("Available commands: " + Join(Actions(cmds), ", "))))
    ensures c.action !in {"navigate", "stop", "restart", "get_location", "help"} ==> r.None?
  {
    if c.action == "navigate" then
      match ExtractDestination(text)
      case Some(d) => if d != [] then Some(Executed(c.action, text, Some(d), None)) else None
      case None => None
    else if c.action in {"stop", "restart", "get_location"} then Some(Executed(c.action, text, None, None))
    else if c.action == "help" then
      Some(Executed(c.action, text, None, Some("Available commands: " + Join(Actions(cmds), ", "))))
    else None
  }

  /** The part of `_process_audio` after recognition: a text that names a
      command replaces the last command with the result of executing it,
      which is `None` when execution is refused; any other text leaves it. */
  function HandleText(cmds: seq<Command>, last: Option<Executed>, text: string): (r: Option<Executed>)
    requires IsAscii(text)
    ensures IdentifyCommand(cmds, Some(text)).None? ==> r == last
    ensures IdentifyCommand(cmds, Some(text)).Some? ==>
      r == ExecuteCommand(cmds, IdentifyCommand(cmds, Some(text)).value, text)
  {
    match IdentifyCommand(cmds, Some(text))
    case None => last
    case Some(c) => ExecuteCommand(cmds, c, text)
  }

  /** Every action in the table is one `_execute_command` knows, so a command
      the table identifies is refused only for want of a destination. */
  lemma {:induction false} TableActionsKnown(text: string)
    requires IsAscii(text) && IdentifyCommand(Commands, Some(text)).Some?
    ensures var c := IdentifyCommand(Commands, Some(text)).value;
      ExecuteCommand(Commands, c, text).None? ==>
        c.action == "navigate" && (ExtractDestination(text).None? || ExtractDestination(text).value == [])
  {
    var c := IdentifyCommand(Commands, Some(text)).value;
    var i :| 0 <= i < |Commands| && Commands[i] == c;
    assert c.action in {"navigate", "stop", "restart", "get_location", "help"};
  }

  /** The help text of the installed table. */
  lemma {:induction false} HelpText()
    ensures "Available commands: " + Join(Actions(Commands), ", ")
      == "Available commands: " + "navigate" + ", " + "stop" + ", " + "restart" + ", " + "get_location" + ", " + "help"
  {
    assert Actions(Commands) == ["navigate", "stop", "restart", "get_location", "help"];
    JoinFive("navigate", "stop", "restart", "get_location", "help", ", ");
  }
}
