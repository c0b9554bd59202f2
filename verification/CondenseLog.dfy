/** Condensing a log: noise and uninformative debug lines are dropped, needle polls collapse into one summary line. */
module CondenseLog {
  import opened PyText
  import opened Ordered
  import opened StackFrames

  type Score = r: real | 0.0 <= r

  datatype Poll = NotPoll | NoMatch(needle: string, score: Score) | NoChange | Slow

  /** What the regular expressions say of a line. */
  datatype Patterns = Patterns(
    clean: string -> string,           // the line without its terminal escapes
    noise: string -> bool,
    stamp: string -> Option<string>,   // the time stamp it begins with
    poll: string -> Poll,
    droppable: string -> bool,
    summary: Tally -> string)

  /** The fields of `_NeedlePolls`. */
  datatype Tally = Tally(noMatch: nat, same: nat, slow: nat, stamps: seq<string>, best: (string, real))

  const NO_POLLS := Tally(0, 0, 0, [], ("", -1.0))

  function Added(t: Tally, stamp: Option<string>, poll: Poll): Tally {
    var stamps := if stamp.Some? then t.stamps + [stamp.value] else t.stamps;
    match poll
    case NotPoll => t
    case NoMatch(needle, score) =>
      t.(noMatch := t.noMatch + 1, stamps := stamps, best := if t.best.1 < score then (needle, score) else t.best)
    case NoChange => t.(same := t.same + 1, stamps := stamps)
    case Slow => t.(slow := t.slow + 1, stamps := stamps)
  }

  class NeedlePolls {
    var noMatch: nat
    var same: nat
    var slow: nat
    var stamps: seq<string>
    var best: (string, real)

    function Value(): Tally
      reads this
    {
      Tally(noMatch, same, slow, stamps, best)
    }

    constructor ()
      ensures Value() == NO_POLLS
    {
      noMatch, same, slow, stamps, best := 0, 0, 0, [], ("", -1.0);
    }

    method Add(p: Patterns, line: string) returns (isPoll: bool)
      modifies this
      ensures isPoll <==> p.poll(line) != NotPoll
      ensures Value() == Added(old(Value()), p.stamp(line), p.poll(line))
    {
      var poll := p.poll(line);
      if poll.NotPoll? {
        return false;
      }
      var stamp := p.stamp(line);
      if stamp.Some? {
        stamps := stamps + [stamp.value];
      }
      if poll.NoMatch? {
        noMatch := noMatch + 1;
        if best.1 < poll.score {
          best := (poll.needle, poll.score);
        }
      } else if poll.NoChange? {
        same := same + 1;
      } else {
        slow := slow + 1;
      }
      return true;
    }
  }

  // ---------------------------------------------------------------- which lines are shown, said without a loop

  /** The nearest line before `i` that is stamped and no noise is a debug line to drop, and no poll. */
  ghost predicate UnderDropped(p: Patterns, lines: seq<string>, i: int) {
    exists j | 0 <= j < i && j < |lines| :: DropsUntil(p, lines, j, i)
  }

  ghost predicate DropsUntil(p: Patterns, lines: seq<string>, j: int, i: int)
    requires 0 <= j < |lines|
  {
    && !p.noise(lines[j]) && p.stamp(lines[j]).Some? && p.droppable(lines[j]) && p.poll(lines[j]).NotPoll?
    && forall k | j < k < i && k < |lines| :: p.noise(lines[k]) || p.stamp(lines[k]).None?
  }

  ghost predicate Survives(p: Patterns, lines: seq<string>, autoinst: bool, i: int)
    requires 0 <= i < |lines|
  {
    !p.noise(lines[i]) && !(autoinst && p.stamp(lines[i]).None? && UnderDropped(p, lines, i))
  }

  ghost predicate Counted(p: Patterns, lines: seq<string>, autoinst: bool, i: int) {
    0 <= i < |lines| && Survives(p, lines, autoinst, i) && p.poll(lines[i]) != NotPoll
  }

  ghost predicate Kept(p: Patterns, lines: seq<string>, autoinst: bool, i: int) {
    && 0 <= i < |lines| && Survives(p, lines, autoinst, i) && p.poll(lines[i]).NotPoll?
    && !(autoinst && p.stamp(lines[i]).Some? && p.droppable(lines[i]))
  }

  ghost predicate AnyCounted(p: Patterns, lines: seq<string>, autoinst: bool, n: int) {
    exists i | 0 <= i < n :: Counted(p, lines, autoinst, i)
  }

  /** The positions that leave a line in the condensed log: kept lines, and the first counted poll. */
  ghost predicate Picks(p: Patterns, lines: seq<string>, autoinst: bool, i: int) {
    Kept(p, lines, autoinst, i) || (Counted(p, lines, autoinst, i) && !AnyCounted(p, lines, autoinst, i))
  }

  ghost function Picked(p: Patterns, lines: seq<string>, autoinst: bool, n: nat): seq<int> {
    if n == 0 then []
    else Picked(p, lines, autoinst, n - 1) + if Picks(p, lines, autoinst, n - 1) then [n - 1] else []
  }

  ghost function LineFor(p: Patterns, lines: seq<string>, i: int, summary: string): string {
    if 0 <= i < |lines| && p.poll(lines[i]).NotPoll? then lines[i] else summary
  }

  ghost function Shown(p: Patterns, lines: seq<string>, autoinst: bool, n: nat, summary: string): seq<string> {
    var picked := Picked(p, lines, autoinst, n);
    seq(|picked|, k requires 0 <= k < |picked| => LineFor(p, lines, picked[k], summary))
  }

  ghost function TallyOf(p: Patterns, lines: seq<string>, autoinst: bool, n: nat): Tally {
    if n == 0 then NO_POLLS
    else
      var t := TallyOf(p, lines, autoinst, n - 1);
      if Counted(p, lines, autoinst, n - 1) then Added(t, p.stamp(lines[n - 1]), p.poll(lines[n - 1])) else t
  }

  function Cleaned(p: Patterns, lines: seq<string>): seq<string> {
    seq(|lines|, i requires 0 <= i < |lines| => p.clean(lines[i]))
  }

  /** `_keep_tail`'s marker. */
  function EarlierNote(n: nat): string {
    "[... " + Digits(n) + " earlier lines omitted ...]"
  }

  /** The number in the marker is the count. */
  lemma EarlierNoteCounts(n: nat)
    ensures NumberOf(DigitsIn(EarlierNote(n))) == n
  {
    OneNumber("[... ", n, " earlier lines omitted ...]");
  }

  function KeepTail(lines: seq<string>, maxLines: Option<int>): seq<string> {
    if maxLines.None? || |lines| <= maxLines.value then lines
    else [EarlierNote(|lines| - maxLines.value)] + if 0 < maxLines.value then lines[|lines| - maxLines.value..] else []
  }

  ghost function Condensed(p: Patterns, raw: seq<string>, autoinst: bool): seq<string> {
    var lines := Cleaned(p, raw);
    Shown(p, lines, autoinst, |lines|, p.summary(TallyOf(p, lines, autoinst, |lines|)))
  }

  // ---------------------------------------------------------------- the loop

  lemma DroppingStep(p: Patterns, lines: seq<string>, i: nat)
    requires i < |lines|
    ensures UnderDropped(p, lines, i + 1) <==>
      if p.noise(lines[i]) || p.stamp(lines[i]).None? then UnderDropped(p, lines, i)
      else p.droppable(lines[i]) && p.poll(lines[i]).NotPoll?
  {
    if UnderDropped(p, lines, i + 1) {
      var j :| 0 <= j < i + 1 && DropsUntil(p, lines, j, i + 1);
      if j < i {
        assert DropsUntil(p, lines, j, i);
      }
    }
    if p.noise(lines[i]) || p.stamp(lines[i]).None? {
      if UnderDropped(p, lines, i) {
        var j :| 0 <= j < i && DropsUntil(p, lines, j, i);
        assert DropsUntil(p, lines, j, i + 1);
      }
    } else if p.droppable(lines[i]) && p.poll(lines[i]).NotPoll? {
      assert DropsUntil(p, lines, i, i + 1);
    }
  }

  lemma AnyCountedStep(p: Patterns, lines: seq<string>, autoinst: bool, i: nat)
    ensures AnyCounted(p, lines, autoinst, i + 1) <==>
            AnyCounted(p, lines, autoinst, i) || Counted(p, lines, autoinst, i)
  {
  }

  lemma ShownStep(p: Patterns, lines: seq<string>, autoinst: bool, n: nat, summary: string)
    ensures Shown(p, lines, autoinst, n + 1, summary) ==
      Shown(p, lines, autoinst, n, summary) +
      if Picks(p, lines, autoinst, n) then [LineFor(p, lines, n, summary)] else []
  {
  }

  lemma {:induction false} PickedAt(p: Patterns, lines: seq<string>, autoinst: bool, n: nat, k: nat)
    requires k < |Picked(p, lines, autoinst, n)|
    ensures 0 <= Picked(p, lines, autoinst, n)[k] < n
    ensures Picks(p, lines, autoinst, Picked(p, lines, autoinst, n)[k])
  {
    if k < |Picked(p, lines, autoinst, n - 1)| {
      PickedAt(p, lines, autoinst, n - 1, k);
    }
  }

  /** `condense_log`. */
  method CondenseLog(p: Patterns, raw: seq<string>, autoinst: bool, maxLines: Option<int>) returns (r: seq<string>)
    ensures r == Trim(KeepTail(Condensed(p, raw, autoinst), maxLines), FRAMES_SHOWN)
  {
    ghost var lines := Cleaned(p, raw);
    var out: seq<string> := [];
    var polls := new NeedlePolls();
    var pollAt := -1;
    var dropping := false;
    for i := 0 to |raw|
      invariant autoinst ==> (dropping <==> UnderDropped(p, lines, i))
      invariant !autoinst ==> !dropping
      invariant out == Shown(p, lines, autoinst, i, "")
      invariant polls.Value() == TallyOf(p, lines, autoinst, i)
      invariant 0 <= pollAt <==> AnyCounted(p, lines, autoinst, i)
      invariant pollAt < |out|
      invariant 0 <= pollAt ==> PollAt(p, lines, autoinst, i, pollAt)
    {
      var line := p.clean(raw[i]);
      assert line == lines[i];
      DroppingStep(p, lines, i);
      AnyCountedStep(p, lines, autoinst, i);
      ShownStep(p, lines, autoinst, i, "");
      PollAtStep(p, lines, autoinst, i, pollAt);
      if p.noise(line) {
        continue;
      }
      var stamped := p.stamp(line).Some?;
      if autoinst && !stamped && dropping {
        continue;
      }
      if autoinst && stamped {
        dropping := false;
      }
      var isPoll := polls.Add(p, line);
      if isPoll {
        if pollAt < 0 {
          pollAt := |out|;
          out := out + [""];
        }
        continue;
      }
      if autoinst && stamped && p.droppable(line) {
        dropping := true;
        continue;
      }
      out := out + [line];
    }
    if 0 <= pollAt {
      SummaryAt(p, lines, autoinst, |lines|, pollAt, p.summary(polls.Value()));
      out := out[pollAt := p.summary(polls.Value())];
    } else {
      NoSummary(p, lines, autoinst, |lines|, p.summary(polls.Value()));
    }
    r := TrimStackFrames(KeepTail(out, maxLines), FRAMES_SHOWN);
  }

  /** The summary's place in the output. */
  ghost predicate PollAt(p: Patterns, lines: seq<string>, autoinst: bool, n: nat, at: int) {
    var picked := Picked(p, lines, autoinst, n);
    0 <= at < |picked| && Counted(p, lines, autoinst, picked[at])
  }

  lemma PollAtStep(p: Patterns, lines: seq<string>, autoinst: bool, n: nat, at: int)
    ensures PollAt(p, lines, autoinst, n, at) ==> PollAt(p, lines, autoinst, n + 1, at)
    ensures Counted(p, lines, autoinst, n) && !AnyCounted(p, lines, autoinst, n) ==>
      PollAt(p, lines, autoinst, n + 1, |Picked(p, lines, autoinst, n)|)
  {
  }

  lemma SummaryAt(p: Patterns, lines: seq<string>, autoinst: bool, n: nat, at: int, summary: string)
    requires n <= |lines| && PollAt(p, lines, autoinst, n, at)
    ensures at < |Shown(p, lines, autoinst, n, "")|
    ensures Shown(p, lines, autoinst, n, summary) == Shown(p, lines, autoinst, n, "")[at := summary]
  {
    var picked := Picked(p, lines, autoinst, n);
    PickedAt(p, lines, autoinst, n, at);
    forall k | 0 <= k < |picked| && k != at
      ensures LineFor(p, lines, picked[k], summary) == LineFor(p, lines, picked[k], "")
    {
      PickedAt(p, lines, autoinst, n, k);
      PickedIncreases(p, lines, autoinst, n, if k < at then k else at, if k < at then at else k);
      if Counted(p, lines, autoinst, picked[k]) {
        OnlyOnePoll(p, lines, autoinst, picked[k], picked[at]);
      }
    }
  }

  lemma OnlyOnePoll(p: Patterns, lines: seq<string>, autoinst: bool, i: int, j: int)
    requires Picks(p, lines, autoinst, i) && Counted(p, lines, autoinst, i)
    requires Picks(p, lines, autoinst, j) && Counted(p, lines, autoinst, j)
    ensures i == j
  {
  }

  lemma NoSummary(p: Patterns, lines: seq<string>, autoinst: bool, n: nat, summary: string)
    requires n <= |lines| && !AnyCounted(p, lines, autoinst, n)
    ensures Shown(p, lines, autoinst, n, summary) == Shown(p, lines, autoinst, n, "")
  {
    var picked := Picked(p, lines, autoinst, n);
    forall k | 0 <= k < |picked|
      ensures LineFor(p, lines, picked[k], summary) == LineFor(p, lines, picked[k], "")
    {
      PickedAt(p, lines, autoinst, n, k);
    }
  }

  lemma {:induction false} PickedIncreases(p: Patterns, lines: seq<string>, autoinst: bool, n: nat, k: nat, m: nat)
    requires k < m < |Picked(p, lines, autoinst, n)|
    ensures Picked(p, lines, autoinst, n)[k] < Picked(p, lines, autoinst, n)[m]
  {
    var before := Picked(p, lines, autoinst, n - 1);
    if m < |before| {
      PickedIncreases(p, lines, autoinst, n - 1, k, m);
    } else {
      PickedAt(p, lines, autoinst, n - 1, k);
    }
  }

  lemma {:induction false} PickedComplete(p: Patterns, lines: seq<string>, autoinst: bool, n: nat, i: nat)
    requires i < n && Picks(p, lines, autoinst, i)
    ensures i in Picked(p, lines, autoinst, n)
  {
    if i < n - 1 {
      PickedComplete(p, lines, autoinst, n - 1, i);
    }
  }

  // ---------------------------------------------------------------- what the condensed log is

  /** The condensed log shows exactly the kept lines, in order, and at the first counted poll, if there is any, one
      summary line. */
  lemma CondensedLines(p: Patterns, lines: seq<string>, autoinst: bool)
    ensures var picked := Picked(p, lines, autoinst, |lines|);
      && (forall k, m | 0 <= k < m < |picked| :: picked[k] < picked[m])
      && (forall i :: i in picked <==> Picks(p, lines, autoinst, i))
      && (forall i, j | i in picked && j in picked ::
            Counted(p, lines, autoinst, i) && Counted(p, lines, autoinst, j) ==> i == j)
      && ((exists i :: i in picked && Counted(p, lines, autoinst, i)) <==> AnyCounted(p, lines, autoinst, |lines|))
  {
    var n, picked := |lines|, Picked(p, lines, autoinst, |lines|);
    forall k, m | 0 <= k < m < |picked| ensures picked[k] < picked[m] {
      PickedIncreases(p, lines, autoinst, n, k, m);
    }
    forall i ensures i in picked <==> Picks(p, lines, autoinst, i) {
      if i in picked {
        var k :| 0 <= k < |picked| && picked[k] == i;
        PickedAt(p, lines, autoinst, n, k);
      }
      if Picks(p, lines, autoinst, i) {
        PickedComplete(p, lines, autoinst, n, i);
      }
    }
    if AnyCounted(p, lines, autoinst, n) {
      var i := FirstCounted(p, lines, autoinst, n);
      assert Picks(p, lines, autoinst, i);
    }
  }

  lemma {:induction false} FirstCounted(p: Patterns, lines: seq<string>, autoinst: bool, n: nat) returns (i: int)
    requires AnyCounted(p, lines, autoinst, n)
    ensures 0 <= i < n && Counted(p, lines, autoinst, i) && !AnyCounted(p, lines, autoinst, i)
  {
    AnyCountedStep(p, lines, autoinst, n - 1);
    if AnyCounted(p, lines, autoinst, n - 1) {
      i := FirstCounted(p, lines, autoinst, n - 1);
    } else {
      i := n - 1;
    }
  }

  ghost function CountedPolls(p: Patterns, lines: seq<string>, autoinst: bool, n: nat): set<int> {
    set i | 0 <= i < n && Counted(p, lines, autoinst, i)
  }

  ghost function NoMatches(p: Patterns, lines: seq<string>, autoinst: bool, n: nat): set<int> {
    set i | 0 <= i < n && Counted(p, lines, autoinst, i) && p.poll(lines[i]).NoMatch?
  }

  ghost function NoChanges(p: Patterns, lines: seq<string>, autoinst: bool, n: nat): set<int> {
    set i | 0 <= i < n && Counted(p, lines, autoinst, i) && p.poll(lines[i]).NoChange?
  }

  lemma OneMore(small: set<int>, big: set<int>, i: int)
    requires i !in small && big == small + {i}
    ensures |big| == |small| + 1
  {
  }

  lemma CountedStep(p: Patterns, lines: seq<string>, autoinst: bool, i: nat)
    ensures var before, now := CountedPolls(p, lines, autoinst, i), CountedPolls(p, lines, autoinst, i + 1);
      |now| == |before| + if Counted(p, lines, autoinst, i) then 1 else 0
  {
    var before, now := CountedPolls(p, lines, autoinst, i), CountedPolls(p, lines, autoinst, i + 1);
    if Counted(p, lines, autoinst, i) {
      OneMore(before, now, i);
    } else {
      assert now == before;
    }
  }

  lemma NoMatchStep(p: Patterns, lines: seq<string>, autoinst: bool, i: nat)
    ensures var before, now := NoMatches(p, lines, autoinst, i), NoMatches(p, lines, autoinst, i + 1);
      |now| == |before| + if Counted(p, lines, autoinst, i) && p.poll(lines[i]).NoMatch? then 1 else 0
  {
    var before, now := NoMatches(p, lines, autoinst, i), NoMatches(p, lines, autoinst, i + 1);
    if Counted(p, lines, autoinst, i) && p.poll(lines[i]).NoMatch? {
      OneMore(before, now, i);
    } else {
      assert now == before;
    }
  }

  lemma NoChangeStep(p: Patterns, lines: seq<string>, autoinst: bool, i: nat)
    ensures var before, now := NoChanges(p, lines, autoinst, i), NoChanges(p, lines, autoinst, i + 1);
      |now| == |before| + if Counted(p, lines, autoinst, i) && p.poll(lines[i]).NoChange? then 1 else 0
  {
    var before, now := NoChanges(p, lines, autoinst, i), NoChanges(p, lines, autoinst, i + 1);
    if Counted(p, lines, autoinst, i) && p.poll(lines[i]).NoChange? {
      OneMore(before, now, i);
    } else {
      assert now == before;
    }
  }

  /** Every surviving poll is counted by exactly one of the three counters. */
  lemma {:induction false} PollsAreCounted(p: Patterns, lines: seq<string>, autoinst: bool, n: nat)
    ensures TallyOf(p, lines, autoinst, n).noMatch == |NoMatches(p, lines, autoinst, n)|
    ensures TallyOf(p, lines, autoinst, n).same == |NoChanges(p, lines, autoinst, n)|
    ensures var t := TallyOf(p, lines, autoinst, n);
      t.noMatch + t.same + t.slow == |CountedPolls(p, lines, autoinst, n)|
  {
    if n > 0 {
      PollsAreCounted(p, lines, autoinst, n - 1);
      CountedStep(p, lines, autoinst, n - 1);
      NoMatchStep(p, lines, autoinst, n - 1);
      NoChangeStep(p, lines, autoinst, n - 1);
    } else {
      assert CountedPolls(p, lines, autoinst, n) == {};
      assert NoMatches(p, lines, autoinst, n) == {};
      assert NoChanges(p, lines, autoinst, n) == {};
    }
  }

  /** The stamps are those of the counted polls at these places, in order. */
  ghost predicate StampsAt(p: Patterns, lines: seq<string>, stamps: seq<string>, places: seq<nat>) {
    && Ascending(places) && |stamps| == |places|
    && forall k | 0 <= k < |places| :: places[k] < |lines| && p.stamp(lines[places[k]]) == Some(stamps[k])
  }

  /** So the summary's first and last stamps are those of the first and the last counted poll that has one. */
  lemma {:induction false} StampsInOrder(p: Patterns, lines: seq<string>, autoinst: bool, n: nat)
    returns (places: seq<nat>)
    ensures StampsAt(p, lines, TallyOf(p, lines, autoinst, n).stamps, places)
    ensures forall i: nat :: i in places <==> i < n && Counted(p, lines, autoinst, i) && p.stamp(lines[i]).Some?
  {
    places := [];
    if n > 0 {
      places := StampsInOrder(p, lines, autoinst, n - 1);
      if Counted(p, lines, autoinst, n - 1) && p.stamp(lines[n - 1]).Some? {
        assert forall k | 0 <= k < |places| :: places[k] in places;
        places := places + [n - 1];
      }
    }
  }

  /** Poll `i` has the highest score of the no-match polls before `n`, and is the first with it. */
  ghost predicate BestAt(p: Patterns, lines: seq<string>, autoinst: bool, n: nat, i: int) {
    && i in NoMatches(p, lines, autoinst, n)
    && forall j | j in NoMatches(p, lines, autoinst, n) ::
         && p.poll(lines[j]).score <= p.poll(lines[i]).score
         && (j < i ==> p.poll(lines[j]).score < p.poll(lines[i]).score)
  }

  lemma {:induction false} SummaryHasTheBest(p: Patterns, lines: seq<string>, autoinst: bool, n: nat)
    ensures var best := TallyOf(p, lines, autoinst, n).best;
      if NoMatches(p, lines, autoinst, n) == {} then best == ("", -1.0)
      else exists i :: BestAt(p, lines, autoinst, n, i) && best == (p.poll(lines[i]).needle, p.poll(lines[i]).score)
  {
    if n > 0 {
      var m := n - 1;
      SummaryHasTheBest(p, lines, autoinst, m);
      var before, now := NoMatches(p, lines, autoinst, m), NoMatches(p, lines, autoinst, n);
      var best := TallyOf(p, lines, autoinst, m).best;
      assert now == if m in now then before + {m} else before;
      if before != {} {
        var i :| BestAt(p, lines, autoinst, m, i) && best == (p.poll(lines[i]).needle, p.poll(lines[i]).score);
        if m !in now || p.poll(lines[m]).score <= best.1 {
          assert BestAt(p, lines, autoinst, n, i);
        } else {
          assert BestAt(p, lines, autoinst, n, m);
        }
      } else if m in now {
        assert BestAt(p, lines, autoinst, n, m);
      }
    }
  }

  /** A line that the filter neither drops nor counts for itself. */
  predicate Ordinary(p: Patterns, autoinst: bool, line: string) {
    && !p.noise(line) && p.poll(line).NotPoll?
    && !(autoinst && p.stamp(line).Some? && p.droppable(line))
  }

  /** A shown line is ordinary, or the summary if a poll was counted. */
  lemma ShownAreOrdinary(p: Patterns, lines: seq<string>, autoinst: bool, summary: string, l: string)
    requires l in Shown(p, lines, autoinst, |lines|, summary)
    ensures Ordinary(p, autoinst, l) || (l == summary && AnyCounted(p, lines, autoinst, |lines|))
  {
    var shown := Shown(p, lines, autoinst, |lines|, summary);
    var k :| 0 <= k < |shown| && shown[k] == l;
    PickedAt(p, lines, autoinst, |lines|, k);
  }

  /** The filter leaves ordinary lines alone. */
  lemma OrdinaryLinesStay(p: Patterns, lines: seq<string>, autoinst: bool, summary: string)
    requires forall k | 0 <= k < |lines| :: Ordinary(p, autoinst, lines[k])
    ensures Shown(p, lines, autoinst, |lines|, summary) == lines
  {
    forall k | 0 <= k < |lines| ensures Kept(p, lines, autoinst, k) {
    }
    AllKept(p, lines, autoinst, |lines|, summary);
    assert lines[..|lines|] == lines;
  }

  /** Condensing the result of `condense_log` without a line limit changes nothing, escapes and frames included, if the
      result holds no new escape and the lines that the code makes itself, the summary and the notes for frames, read as
      ordinary lines. */
  lemma CondensedTwice(p: Patterns, raw: seq<string>, autoinst: bool)
    requires var once := Condensed(p, raw, autoinst);
      var r, lines := Trim(once, FRAMES_SHOWN), Cleaned(p, raw);
      && (forall l | l in r :: p.clean(l) == l)
      && (forall l | l in r && l !in once :: Ordinary(p, autoinst, l))
      && (AnyCounted(p, lines, autoinst, |lines|) ==>
           Ordinary(p, autoinst, p.summary(TallyOf(p, lines, autoinst, |lines|))))
    ensures var r := Trim(KeepTail(Condensed(p, raw, autoinst), None), FRAMES_SHOWN);
      Trim(KeepTail(Condensed(p, r, autoinst), None), FRAMES_SHOWN) == r
  {
    var once, lines := Condensed(p, raw, autoinst), Cleaned(p, raw);
    var r := Trim(once, FRAMES_SHOWN);
    forall k | 0 <= k < |r| ensures p.clean(r[k]) == r[k] && Ordinary(p, autoinst, r[k]) {
      assert r[k] in r;
      if r[k] in once {
        ShownAreOrdinary(p, lines, autoinst, p.summary(TallyOf(p, lines, autoinst, |lines|)), r[k]);
      }
    }
    assert Cleaned(p, r) == r;
    OrdinaryLinesStay(p, r, autoinst, p.summary(TallyOf(p, r, autoinst, |r|)));
    TrimTwice(once, FRAMES_SHOWN);
  }

  lemma {:induction false} AllKept(p: Patterns, lines: seq<string>, autoinst: bool, n: nat, summary: string)
    requires n <= |lines| && forall k | 0 <= k < n :: Kept(p, lines, autoinst, k)
    ensures Shown(p, lines, autoinst, n, summary) == lines[..n]
  {
    if n > 0 {
      AllKept(p, lines, autoinst, n - 1, summary);
      ShownStep(p, lines, autoinst, n - 1, summary);
      assert Picks(p, lines, autoinst, n - 1);
    }
  }

  /** The last lines are kept: all of them without a limit or within it, else as many as the limit says. */
  lemma TailIsKept(lines: seq<string>, maxLines: Option<int>)
    ensures var r, n := KeepTail(lines, maxLines), if maxLines.None? then |lines| else maxLines.value;
      if |lines| <= n then r == lines
      else EndsWith(r, lines[|lines| - if 0 < n then n else 0..]) && |r| == 1 + if 0 < n then n else 0
  {
  }

  lemma {:induction false} NoFramesNoTrim(lines: seq<string>, keep: nat)
    requires forall i | 0 <= i < |lines| :: !IsFrame(lines[i])
    ensures Trim(lines, keep) == lines
  {
    if lines != [] {
      NoFramesNoTrim(lines[1..], keep);
      assert lines == [lines[0]] + lines[1..];
      TrimAfterLine(lines[0], lines[1..], keep);
    }
  }

  /** A log of ordinary lines within the limit, without stack frames, comes back cleaned and otherwise as it is. */
  lemma OrdinaryLogStays(p: Patterns, raw: seq<string>, autoinst: bool, maxLines: Option<int>)
    requires maxLines.Some? ==> |raw| <= maxLines.value
    requires forall i | 0 <= i < |raw| :: Ordinary(p, autoinst, p.clean(raw[i])) && !IsFrame(p.clean(raw[i]))
    ensures var r := Trim(KeepTail(Condensed(p, raw, autoinst), maxLines), FRAMES_SHOWN);
      |r| == |raw| && forall i | 0 <= i < |raw| :: r[i] == p.clean(raw[i])
  {
    var lines := Cleaned(p, raw);
    OrdinaryLinesStay(p, lines, autoinst, p.summary(TallyOf(p, lines, autoinst, |lines|)));
    NoFramesNoTrim(lines, FRAMES_SHOWN);
  }

  /** The marker announces exactly the lines cut off if and only if the limit is not negative. */
  lemma TailIsAnnounced(lines: seq<string>, maxLines: int)
    requires maxLines < |lines|
    ensures var r, omitted := KeepTail(lines, Some(maxLines)), |lines| - maxLines;
      && r[0] == EarlierNote(omitted) && r[1..] == lines[|lines| - |r[1..]|..]
      && (omitted + |r[1..]| == |lines| <==> 0 <= maxLines)
  {
    if maxLines <= 0 {
      assert lines[|lines|..] == [];
    }
  }
}
