/** Finding lines in a log: the line a step refers to, the range between two steps with its middle cut out, and the
    fatal lines grouped into events. */
module LogRange {
  import opened PyText
  import opened Ordered
  import opened Proximity

  const FALLBACK_MAX_LINES := 200
  const EVENT_GAP := 30
  const EXPECTED_LOOKBACK := 10

  // ---------------------------------------------------------------- the line a text refers to

  predicate IsCommandLine(line: string) {
    "# " <= Strip(line)
  }

  predicate Matches(line: string, text: string, commands: bool) {
    Contains(line, text) && (commands ==> IsCommandLine(line))
  }

  /** `_match_index`. */
  function MatchIndex(lines: seq<string>, text: string): (r: Option<nat>)
    ensures r.Some? ==> r.value < |lines|
  {
    var command := LastWhere(lines, (line: string) => Matches(line, text, true));
    if command.Some? then command else LastWhere(lines, (line: string) => Matches(line, text, false))
  }

  ghost predicate ShowsCommand(line: string) {
    exists command :: Strip(line) == "# " + command
  }

  lemma CommandLinesAre(line: string)
    ensures IsCommandLine(line) <==> ShowsCommand(line)
  {
    if IsCommandLine(line) {
      assert Strip(line) == "# " + Strip(line)[2..];
    }
  }

  /** Line `i` is the one that is preferred for `text`: the last command line that has it, or the last line if no
      command line has it. */
  ghost predicate Preferred(lines: seq<string>, text: string, i: nat) {
    && i < |lines| && Contains(lines[i], text)
    && (forall j | i < j < |lines| :: Contains(lines[j], text) ==> ShowsCommand(lines[i]) && !ShowsCommand(lines[j]))
    && (!ShowsCommand(lines[i]) ==> forall j | 0 <= j < i :: Contains(lines[j], text) ==> !ShowsCommand(lines[j]))
  }

  lemma MatchIndexIs(lines: seq<string>, text: string)
    ensures var r := MatchIndex(lines, text);
      && (r.None? <==> forall i | 0 <= i < |lines| :: !Contains(lines[i], text))
      && (r.Some? ==> Preferred(lines, text, r.value))
  {
    forall line ensures IsCommandLine(line) <==> ShowsCommand(line) {
      CommandLinesAre(line);
    }
    var command := LastWhere(lines, (line: string) => Matches(line, text, true));
    var other := LastWhere(lines, (line: string) => Matches(line, text, false));
    if command.Some? {
      assert Matches(lines[command.value], text, true);
      assert forall j | command.value < j < |lines| :: !Matches(lines[j], text, true);
    } else {
      assert forall j | 0 <= j < |lines| :: !Matches(lines[j], text, true);
      assert forall j | 0 <= j < |lines| :: Matches(lines[j], text, false) == Contains(lines[j], text);
    }
  }

  /** No other line is preferred. */
  lemma OnlyOnePreferred(lines: seq<string>, text: string, i: nat, j: nat)
    requires Preferred(lines, text, i) && Preferred(lines, text, j)
    ensures i == j
  {
  }

  /** The preferred line for a marker, if there is a marker and a line that has it. */
  function IndexOf(lines: seq<string>, marker: Option<string>): Option<nat> {
    if marker.None? || marker.value == "" then None else MatchIndex(lines, marker.value)
  }

  // ---------------------------------------------------------------- a line with its surroundings

  datatype Context = Context(before: seq<string>, matched: string, after: seq<string>)

  /** `lines[max(0, i):j]` of Python, for `j >= 0`. */
  function Slice<T>(s: seq<T>, i: int, j: nat): seq<T> {
    var lo, hi := if i < 0 then 0 else i, if j < |s| then j else |s|;
    if lo < hi then s[lo..hi] else []
  }

  function ContextOf(lines: seq<string>, i: nat, before: nat, after: nat): Context
    requires i < |lines|
  {
    Context(Slice(lines, i - before, i), lines[i], Slice(lines, i + 1, i + after + 1))
  }

  /** `find_in_log`. */
  function FindInLog(log: string, text: Option<string>, before: nat, after: nat): Option<Context> {
    var lines := Split(log, '\n');
    if text.None? || text.value == "" then None
    else
      var idx := MatchIndex(lines, text.value);
      if idx.None? then None else Some(ContextOf(lines, idx.value, before, after))
  }

  /** One run of lines around line `i`, cut short only by the log's ends. */
  ghost predicate RunAround(lines: seq<string>, i: nat, before: nat, after: nat, found: Context) {
    && i < |lines| && found.matched == lines[i]
    && found.before + [found.matched] + found.after == Slice(lines, i - before, i + after + 1)
    && |found.before| <= before && |found.after| <= after
  }

  lemma OneLine(line: string, text: string)
    requires Contains(line, text) && '\n' !in line
    ensures '\n' !in text
  {
    var i :| 0 <= i <= |line| && OccursAt(line, text, i);
    assert forall k | 0 <= k < |text| :: text[k] == line[i..i + |text|][k] && text[k] in line;
  }

  lemma ContextIsRun(lines: seq<string>, i: nat, before: nat, after: nat)
    requires i < |lines|
    ensures RunAround(lines, i, before, after, ContextOf(lines, i, before, after))
  {
    var lo, hi := if before < i then i - before else 0, if i + after + 1 < |lines| then i + after + 1 else |lines|;
    SliceAround(lines, lo, i, hi);
  }

  /** What is found is the run of lines around the preferred line; a text of several lines is never found. */
  lemma FoundIsOneRun(log: string, text: Option<string>, before: nat, after: nat)
    ensures var lines, found := Split(log, '\n'), FindInLog(log, text, before, after);
      match IndexOf(lines, text) {
        case None => found == None
        case Some(i) =>
          && '\n' !in text.value && Preferred(lines, text.value, i)
          && found.Some? && RunAround(lines, i, before, after, found.value)
      }
  {
    var lines, idx := Split(log, '\n'), IndexOf(Split(log, '\n'), text);
    if idx.Some? {
      MatchIndexIs(lines, text.value);
      OneLine(lines[idx.value], text.value);
      ContextIsRun(lines, idx.value, before, after);
    }
  }

  // ---------------------------------------------------------------- its index

  /** `_line_index`: it looks the found line up again by its content. */
  function LineIndex(log: string, lines: seq<string>, marker: Option<string>): Option<nat> {
    var found := FindInLog(log, marker, 0, 0);
    if found.None? then None else LastWhere(lines, (line: string) => line == found.value.matched)
  }

  lemma LastSame(lines: seq<string>, has: string -> bool, command: string -> bool, i: nat)
    requires i < |lines| && has(lines[i])
    requires forall j | i < j < |lines| && has(lines[j]) :: command(lines[i]) && !command(lines[j])
    ensures LastWhere(lines, (line: string) => line == lines[i]) == Some(i)
  {
    var again := LastWhere(lines, (line: string) => line == lines[i]);
    assert again.Some? && i <= again.value;
  }

  lemma PreferredAgain(lines: seq<string>, text: string, i: nat)
    requires Preferred(lines, text, i)
    ensures LastWhere(lines, (line: string) => line == lines[i]) == Some(i)
  {
    forall line ensures IsCommandLine(line) <==> ShowsCommand(line) {
      CommandLinesAre(line);
    }
    LastSame(lines, (line: string) => Contains(line, text), (line: string) => IsCommandLine(line), i);
  }

  lemma FoundAtIndex(log: string, marker: Option<string>)
    ensures var found, idx := FindInLog(log, marker, 0, 0), IndexOf(Split(log, '\n'), marker);
      && (found.None? <==> idx.None?)
      && (idx.Some? ==> idx.value < |Split(log, '\n')| && found.value.matched == Split(log, '\n')[idx.value])
  {
  }

  /** The look-up by content finds the index that was chosen, also when other lines are the same. */
  lemma LineIndexIsChosen(log: string, marker: Option<string>)
    ensures LineIndex(log, Split(log, '\n'), marker) == IndexOf(Split(log, '\n'), marker)
  {
    var lines := Split(log, '\n');
    FoundAtIndex(log, marker);
    var idx := IndexOf(lines, marker);
    if idx.Some? {
      MatchIndexIs(lines, marker.value);
      PreferredAgain(lines, marker.value, idx.value);
    }
  }

  // ---------------------------------------------------------------- the range between two markers

  function OmissionNote(n: nat): string {
    "[..." + Digits(n) + " lines omitted to fit context limit...]"
  }

  /** The number in the note is the count. */
  lemma OmissionNoteCounts(n: nat)
    ensures NumberOf(DigitsIn(OmissionNote(n))) == n
  {
    OneNumber("[...", n, " lines omitted to fit context limit...]");
  }

  /** A span that is longer than the limit keeps its first and last halves around a note. */
  function FitSpan(span: seq<string>, maxLines: Option<nat>): seq<string> {
    if maxLines.Some? && |span| > maxLines.value then
      var half := maxLines.value / 2;
      span[..half] + [OmissionNote(|span| - maxLines.value)] + if half > 0 then span[|span| - half..] else []
    else span
  }

  function RangeOf(lines: seq<string>, start: nat, end: Option<nat>, maxLines: Option<nat>): seq<string> {
    if end.None? || end.value < start
    then Slice(lines, start, start + if maxLines.None? then FALLBACK_MAX_LINES else maxLines.value)
    else FitSpan(Slice(lines, start, end.value + 1), maxLines)
  }

  /** `find_log_range`. */
  function FindLogRange(
    log: string, startMarker: Option<string>, endMarker: Option<string>, maxLines: Option<nat>): Option<seq<string>>
  {
    if log == "" then None
    else
      var lines := Split(log, '\n');
      var start := LineIndex(log, lines, startMarker);
      if start.None? then None
      else Some(RangeOf(lines, start.value, LineIndex(log, lines, endMarker), maxLines))
  }

  /** `r` is a first and a last part of `span`, each half of the limit, around a note of how many more lines than the
      limit there are. The note counts the lines left out if and only if the limit is even. */
  ghost predicate CutsMiddle(span: seq<string>, limit: nat, r: seq<string>, head: seq<string>, tail: seq<string>) {
    var n := |span| - limit;
    && 0 < n && r == head + [OmissionNote(n)] + tail
    && |head| == |tail| == limit / 2 && head <= span && EndsWith(span, tail)
    && (|head| + n + |tail| == |span| <==> limit % 2 == 0)
  }

  lemma NotFromNothing(text: string)
    requires text != ""
    ensures MatchIndex(Split("", '\n'), text) == None
  {
    MatchIndexIs(Split("", '\n'), text);
    assert !Contains("", text) by {
      if i :| 0 <= i <= 0 && OccursAt("", text, i) {
        assert false;
      }
    }
  }

  /** The range hangs on the preferred lines of the two markers alone. */
  lemma RangeIsOf(log: string, startMarker: Option<string>, endMarker: Option<string>, maxLines: Option<nat>)
    ensures var lines := Split(log, '\n');
      FindLogRange(log, startMarker, endMarker, maxLines) ==
      match IndexOf(lines, startMarker) {
        case None => None
        case Some(s) => Some(RangeOf(lines, s, IndexOf(lines, endMarker), maxLines))
      }
  {
    LineIndexIsChosen(log, startMarker);
    LineIndexIsChosen(log, endMarker);
    if log == "" && startMarker.Some? && startMarker.value != "" {
      NotFromNothing(startMarker.value);
    }
  }

  /** A range is known if and only if some line has a usable start marker. */
  lemma RangeIsFound(log: string, startMarker: Option<string>, endMarker: Option<string>, maxLines: Option<nat>)
    ensures FindLogRange(log, startMarker, endMarker, maxLines).Some? <==>
      && startMarker.Some? && startMarker.value != ""
      && exists i | 0 <= i < |Split(log, '\n')| :: Contains(Split(log, '\n')[i], startMarker.value)
  {
    RangeIsOf(log, startMarker, endMarker, maxLines);
    if startMarker.Some? {
      MatchIndexIs(Split(log, '\n'), startMarker.value);
    }
  }

  lemma OpenRangeOf(lines: seq<string>, s: nat, e: Option<nat>, maxLines: Option<nat>)
    requires s < |lines| && (e.None? || e.value < s)
    ensures var cap := if maxLines.None? then FALLBACK_MAX_LINES else maxLines.value;
      RangeOf(lines, s, e, maxLines) == lines[s..if s + cap < |lines| then s + cap else |lines|]
  {
    SliceFrom(lines, s, if maxLines.None? then FALLBACK_MAX_LINES else maxLines.value);
  }

  /** Without an end marker at or below it, the range is what fits from the start marker on. */
  lemma OpenRange(log: string, startMarker: Option<string>, endMarker: Option<string>, maxLines: Option<nat>, s: nat)
    requires IndexOf(Split(log, '\n'), startMarker) == Some(s) && s < |Split(log, '\n')|
    requires var e := IndexOf(Split(log, '\n'), endMarker); e.None? || e.value < s
    ensures var lines, cap := Split(log, '\n'), if maxLines.None? then FALLBACK_MAX_LINES else maxLines.value;
      FindLogRange(log, startMarker, endMarker, maxLines) ==
      Some(lines[s..if s + cap < |lines| then s + cap else |lines|])
  {
    RangeIsOf(log, startMarker, endMarker, maxLines);
    OpenRangeOf(Split(log, '\n'), s, IndexOf(Split(log, '\n'), endMarker), maxLines);
  }

  lemma SliceFrom<T>(s: seq<T>, i: nat, n: nat)
    requires i < |s|
    ensures Slice(s, i, i + n) == s[i..if i + n < |s| then i + n else |s|]
  {
  }

  lemma SliceTo<T>(s: seq<T>, i: nat, j: nat)
    requires i <= j <= |s|
    ensures Slice(s, i, j) == s[i..j]
  {
  }

  /** What `FitSpan` makes of a span. */
  ghost predicate Fits(span: seq<string>, maxLines: Option<nat>, r: seq<string>) {
    if maxLines.None? || |span| <= maxLines.value then r == span
    else exists head, tail :: CutsMiddle(span, maxLines.value, r, head, tail)
  }

  lemma LastPart(span: seq<string>, half: nat)
    requires half <= |span|
    ensures var tail := if half > 0 then span[|span| - half..] else []; |tail| == half && EndsWith(span, tail)
    ensures span[..half] <= span
  {
  }

  lemma FitSpanFits(span: seq<string>, maxLines: Option<nat>)
    ensures Fits(span, maxLines, FitSpan(span, maxLines))
  {
    if maxLines.Some? && |span| > maxLines.value {
      var half := maxLines.value / 2;
      LastPart(span, half);
      assert CutsMiddle(
        span, maxLines.value, FitSpan(span, maxLines), span[..half], if half > 0 then span[|span| - half..] else []);
    }
  }

  lemma ClosedRangeFits(lines: seq<string>, s: nat, e: nat, maxLines: Option<nat>)
    requires s <= e < |lines|
    ensures Fits(lines[s..e + 1], maxLines, RangeOf(lines, s, Some(e), maxLines))
  {
    SliceTo(lines, s, e + 1);
    FitSpanFits(lines[s..e + 1], maxLines);
  }

  /** Between two markers the range is the whole span, or its two halves around a count of the lines between them. The
      kept lines and the counted ones together are the span if and only if the limit is even. */
  lemma SpanIsAccounted(
    log: string, startMarker: Option<string>, endMarker: Option<string>, maxLines: Option<nat>, s: nat, e: nat)
    requires var lines := Split(log, '\n');
      IndexOf(lines, startMarker) == Some(s) && IndexOf(lines, endMarker) == Some(e) && s <= e < |lines|
    ensures var r := FindLogRange(log, startMarker, endMarker, maxLines);
      r.Some? && Fits(Split(log, '\n')[s..e + 1], maxLines, r.value)
  {
    RangeIsOf(log, startMarker, endMarker, maxLines);
    ClosedRangeFits(Split(log, '\n'), s, e, maxLines);
  }

  // ---------------------------------------------------------------- fatal lines

  /** The index of a line is its key. */
  function Index(i: nat): int {
    i
  }

  function IsFatal(lines: seq<string>, fatal: string -> bool): nat -> bool {
    (i: nat) => i < |lines| && fatal(lines[i])
  }

  /** The fatal ones of the first `n` lines. */
  function FatalLines(lines: seq<string>, fatal: string -> bool, n: nat): seq<nat> {
    Passing(n, IsFatal(lines, fatal))
  }

  function Events(lines: seq<string>, fatal: string -> bool): seq<seq<nat>> {
    Group(Index, FatalLines(lines, fatal, |lines|), EVENT_GAP)
  }

  lemma FatalLinesAre(lines: seq<string>, fatal: string -> bool)
    ensures var picked := FatalLines(lines, fatal, |lines|);
      && Ascending(picked) && Rising(Index, picked)
      && (forall i: nat :: i in picked <==> i < |lines| && fatal(lines[i]))
  {
    PassingAre(|lines|, IsFatal(lines, fatal));
  }

  /** The events of the first `i` lines. */
  ghost predicate EventsOf(lines: seq<string>, fatal: string -> bool, i: nat, events: seq<seq<nat>>) {
    events == Group(Index, FatalLines(lines, fatal, i), EVENT_GAP)
  }

  /** One more fatal line, as the loop adds it. */
  function WithLine(events: seq<seq<nat>>, i: nat): seq<seq<nat>> {
    if events != [] && i - LastOf(events) <= EVENT_GAP
    then events[..|events| - 1] + [events[|events| - 1] + [i]]
    else events + [[i]]
  }

  lemma NextLine(lines: seq<string>, fatal: string -> bool, i: nat, events: seq<seq<nat>>)
    requires EventsOf(lines, fatal, i, events) && i < |lines|
    ensures EventsOf(lines, fatal, i + 1, if fatal(lines[i]) then WithLine(events, i) else events)
  {
    PassingStep(i, IsFatal(lines, fatal));
    GroupSnoc(Index, FatalLines(lines, fatal, i), i, EVENT_GAP);
  }

  /** `_fatal_events`. */
  method FatalEvents(lines: seq<string>, fatal: string -> bool) returns (events: seq<seq<nat>>)
    ensures events == Events(lines, fatal)
  {
    events := [];
    for i := 0 to |lines|
      invariant EventsOf(lines, fatal, i, events)
    {
      NextLine(lines, fatal, i, events);
      if fatal(lines[i]) {
        if events != [] && i - LastOf(events) <= EVENT_GAP {
          var last := events[|events| - 1];
          events := events[..|events| - 1] + [last + [i]];
        } else {
          events := events + [[i]];
        }
      }
    }
  }

  /** Two fatal lines are of one event if and only if fatal lines at most `EVENT_GAP` apart lead from one to the other;
      and every fatal line is in exactly one place. */
  lemma EventsAreComponents(lines: seq<string>, fatal: string -> bool, x: nat, y: nat)
    ensures var picked := FatalLines(lines, fatal, |lines|);
      && (Together(Events(lines, fatal), x, y) <==> Linked(Index, picked, EVENT_GAP, x, y))
      && Flat(Events(lines, fatal)) == picked
      && (x in picked <==> x < |lines| && fatal(lines[x]))
  {
    var picked := FatalLines(lines, fatal, |lines|);
    FatalLinesAre(lines, fatal);
    GroupsAreComponents(Index, picked, EVENT_GAP, x, y);
    GroupIsGrouping(Index, picked, EVENT_GAP);
    GroupingIsPartition(Index, picked, EVENT_GAP, Events(lines, fatal));
  }

  /** Line `i` is where `_event_expected` looks for the crash that explains an event. */
  predicate InWindow(lines: seq<string>, event: seq<nat>, i: nat) {
    event != [] && i < |lines| && event[0] - EXPECTED_LOOKBACK <= i <= event[|event| - 1]
  }

  /** The lines that `_event_expected` searches. */
  function Window(lines: seq<string>, event: seq<nat>): seq<string>
    requires event != []
  {
    var from := WindowStart(event);
    var to := if event[|event| - 1] < |lines| then event[|event| - 1] + 1 else |lines|;
    if from < to then lines[from..to] else []
  }

  /** `_event_expected`. */
  predicate EventExpected(lines: seq<string>, event: seq<nat>, crash: string -> bool) {
    event != [] && exists k | 0 <= k < |Window(lines, event)| :: crash(Window(lines, event)[k])
  }

  /** Every line from `EXPECTED_LOOKBACK` above the event to its last one is looked at, and no other. */
  lemma EventExpectedIs(lines: seq<string>, event: seq<nat>, crash: string -> bool)
    ensures EventExpected(lines, event, crash) <==>
      exists i: nat :: i < |lines| && InWindow(lines, event, i) && crash(lines[i])
    ensures event != [] ==> forall i: nat :: InWindow(lines, event, i) <==>
      i < |lines| && event[0] <= i + EXPECTED_LOOKBACK && i <= event[|event| - 1]
  {
    if event != [] {
      var window := Window(lines, event);
      if EventExpected(lines, event, crash) {
        var k :| 0 <= k < |window| && crash(window[k]);
        WindowAt(lines, event, WindowStart(event) + k);
      }
      if i: nat :| i < |lines| && InWindow(lines, event, i) && crash(lines[i]) {
        WindowAt(lines, event, i);
      }
    }
  }

  function WindowStart(event: seq<nat>): nat
    requires event != []
  {
    if event[0] < EXPECTED_LOOKBACK then 0 else event[0] - EXPECTED_LOOKBACK
  }

  lemma WindowAt(lines: seq<string>, event: seq<nat>, i: nat)
    requires event != []
    ensures InWindow(lines, event, i) <==> WindowStart(event) <= i < WindowStart(event) + |Window(lines, event)|
    ensures InWindow(lines, event, i) ==> Window(lines, event)[i - WindowStart(event)] == lines[i]
  {
  }

  lemma WindowsAreApart(lines: seq<string>, picked: seq<nat>, events: seq<seq<nat>>, a: nat, b: nat, i: nat)
    requires Ascending(picked) && Rising(Index, picked) && Grouping(Index, picked, EVENT_GAP, events)
    requires a < b < |events|
    ensures !InWindow(lines, events[a], i) || !InWindow(lines, events[b], i)
  {
    if events[a] != [] && events[b] != [] {
      var x, y := events[a][|events[a]| - 1], events[b][0];
      GroupsAreFarApart(Index, picked, EVENT_GAP, events, a, b, x, y);
    }
  }

  /** A triggered crash explains one event at most: no line is looked at for two of them. */
  lemma OneCrashExplainsOneEvent(lines: seq<string>, fatal: string -> bool, a: nat, b: nat, i: nat)
    requires a < |Events(lines, fatal)| && b < |Events(lines, fatal)|
    requires InWindow(lines, Events(lines, fatal)[a], i) && InWindow(lines, Events(lines, fatal)[b], i)
    ensures a == b
  {
    var picked, events := FatalLines(lines, fatal, |lines|), Events(lines, fatal);
    FatalLinesAre(lines, fatal);
    GroupIsGrouping(Index, picked, EVENT_GAP);
    if a < b {
      WindowsAreApart(lines, picked, events, a, b, i);
    } else if b < a {
      WindowsAreApart(lines, picked, events, b, a, i);
    }
  }

  /** So expected events have a triggered crash each. */
  lemma ExpectedEventsHaveOwnCrashes(lines: seq<string>, fatal: string -> bool, crash: string -> bool, a: nat, b: nat)
    requires a < |Events(lines, fatal)| && b < |Events(lines, fatal)| && a != b
    requires EventExpected(lines, Events(lines, fatal)[a], crash)
    requires EventExpected(lines, Events(lines, fatal)[b], crash)
    ensures exists i: nat, j: nat | i < |lines| && j < |lines| && i != j ::
      && InWindow(lines, Events(lines, fatal)[a], i) && crash(lines[i])
      && InWindow(lines, Events(lines, fatal)[b], j) && crash(lines[j])
  {
    EventExpectedIs(lines, Events(lines, fatal)[a], crash);
    EventExpectedIs(lines, Events(lines, fatal)[b], crash);
    var i: nat :| i < |lines| && InWindow(lines, Events(lines, fatal)[a], i) && crash(lines[i]);
    var j: nat :| j < |lines| && InWindow(lines, Events(lines, fatal)[b], j) && crash(lines[j]);
    if i == j {
      OneCrashExplainsOneEvent(lines, fatal, a, b, i);
    }
  }
}
