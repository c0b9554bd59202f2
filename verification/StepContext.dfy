/** The step listing around a failing cluster: the steps before and after it, the step that failed, the one marker in
    front of it, and the steps of a long cluster that are left out with a count. */
module StepContext {
  import opened PyText
  import opened Ordered
  import opened Proximity
  import opened FailingCluster

  const STEPS_BEFORE_SCAN := 70
  const STEPS_AFTER_SCAN := 30
  const STEPS_BEFORE_SHOWN := 20
  const AFTER_COMMANDS := 3
  const HALF := 4   // CLUSTER_STEPS_SHOWN // 2

  // ---------------------------------------------------------------- the step to blame

  predicate TestDied(details: Details, i: nat) {
    i < |details| && details[i].testDied
  }

  /** The step names a command, not only the exit code of one. */
  predicate NamesCommand(details: Details, i: nat) {
    i < |details| && details[i].command.Some? && !("(exit " <= details[i].command.value)
  }

  /** The steps `failing_command` looks at: up to the last died one. */
  function Suspects(details: Details, c: seq<nat>): (r: seq<nat>)
    ensures r <= c
  {
    var died := LastWhere(c, (i: nat) => TestDied(details, i));
    if died.Some? then c[..died.value + 1] else c
  }

  /** `failing_command`, as the position of its step. */
  function FailingCommand(details: Details, c: seq<nat>): Option<nat> {
    var k := LastWhere(Suspects(details, c), (i: nat) => NamesCommand(details, i));
    if k.Some? then Some(c[k.value]) else None
  }

  function DiedStep(details: Details, c: seq<nat>): Option<nat> {
    var died := LastWhere(c, (i: nat) => TestDied(details, i));
    if died.Some? then Some(c[died.value]) else None
  }

  /** `failing_step`. */
  function FailingStep(details: Details, c: seq<nat>): nat
    requires c != []
  {
    var found, died := FailingCommand(details, c), DiedStep(details, c);
    if found.Some? then found.value else if died.Some? then died.value else c[|c| - 1]
  }

  /** Steps `0..u` are the suspects: up to the last died step, or all if none died. */
  ghost predicate SuspectsEnd(details: Details, c: seq<nat>, u: nat) {
    && u <= |c|
    && (forall d | u <= d < |c| && c[d] < |details| :: !details[c[d]].testDied)
    && if exists d | 0 <= d < |c| :: c[d] < |details| && details[c[d]].testDied
       then 0 < u && c[u - 1] < |details| && details[c[u - 1]].testDied
       else u == |c|
  }

  ghost predicate HasCommand(details: Details, i: nat) {
    i < |details| &&
    match details[i].command
    case None => false
    case Some(command) => !exists rest :: command == "(exit " + rest
  }

  lemma CommandOrExit(details: Details, i: nat)
    ensures NamesCommand(details, i) <==> HasCommand(details, i)
  {
    if i < |details| && details[i].command.Some? {
      var command := details[i].command.value;
      if "(exit " <= command {
        assert command == "(exit " + command[6..];
      }
    }
  }

  /** The last suspect that names a command, else the last suspect. */
  ghost predicate Blamed(details: Details, c: seq<nat>, u: nat, k: nat)
    requires u <= |c|
  {
    && k < u
    && (HasCommand(details, c[k]) || k == u - 1)
    && (forall j | k < j < u :: !HasCommand(details, c[j]))
    && (!HasCommand(details, c[k]) ==> forall j | 0 <= j < u :: !HasCommand(details, c[j]))
  }

  /** The blamed step is the last one with a command up to the last died step, else that died step, else the last. */
  lemma FailingStepIs(details: Details, c: seq<nat>)
    requires c != []
    ensures FailingStep(details, c) in c
    ensures DiedStep(details, c).Some? ==> DiedStep(details, c).value in c
    ensures exists u: nat, k: nat | u <= |c| && k < |c| ::
      SuspectsEnd(details, c, u) && Blamed(details, c, u, k) && c[k] == FailingStep(details, c)
  {
    var died := LastWhere(c, (i: nat) => TestDied(details, i));
    var u := if died.Some? then died.value + 1 else |c|;
    assert SuspectsEnd(details, c, u);
    assert Suspects(details, c) == c[..u];
    var found := LastWhere(c[..u], (i: nat) => NamesCommand(details, i));
    forall i ensures NamesCommand(details, i) <==> HasCommand(details, i) {
      CommandOrExit(details, i);
    }
    var k := if found.Some? then found.value else u - 1;
    if found.Some? {
      forall j | k < j < u ensures !NamesCommand(details, c[j]) {
        assert !NamesCommand(details, c[..u][j]);
      }
    } else {
      forall j | 0 <= j < u ensures !NamesCommand(details, c[j]) {
        assert !NamesCommand(details, c[..u][j]);
      }
    }
    assert Blamed(details, c, u, k);
  }

  // ---------------------------------------------------------------- the steps around the cluster

  function Range(lo: nat, hi: nat): seq<nat> {
    if lo < hi then seq(hi - lo, k requires 0 <= k => lo + k) else []
  }

  lemma RangeConcat(a: nat, b: nat, c: nat)
    requires a <= b <= c
    ensures Range(a, b) + Range(b, c) == Range(a, c)
  {
  }

  /** The first position whose num is at least `n`, else the number of steps. */
  function FirstAtLeast(details: Details, n: int): (r: nat)
    ensures r <= |details|
    ensures forall i | 0 <= i < r :: details[i].num < n
    ensures r < |details| ==> n <= details[r].num
  {
    if details == [] then 0
    else
      var r := FirstAtLeast(details[..|details| - 1], n);
      if r < |details| - 1 || n <= details[|details| - 1].num then r else |details|
  }

  /** One more than the last position whose num is at most `n`, else 0. */
  function AfterLastAtMost(details: Details, n: int): (r: nat)
    ensures r <= |details|
    ensures forall i | r <= i < |details| :: n < details[i].num
    ensures 0 < r ==> details[r - 1].num <= n
  {
    if details == [] then 0
    else if details[|details| - 1].num <= n then |details|
    else AfterLastAtMost(details[..|details| - 1], n)
  }

  /** `get_context_steps`. */
  function ContextSteps(details: Details, low: int, high: int, before: nat, after: nat): (seq<nat>, seq<nat>) {
    var first, next := FirstAtLeast(details, low), AfterLastAtMost(details, high);
    (Range(if before < first then first - before else 0, first),
     Range(next, if next + after < |details| then next + after else |details|))
  }

  function HasNumIn(details: Details, low: int, high: int): nat -> bool {
    (i: nat) => i < |details| && low <= details[i].num <= high
  }

  /** The steps with a num from `low` to `high`, in order. */
  function Between(details: Details, low: int, high: int): seq<nat> {
    Passing(|details|, HasNumIn(details, low, high))
  }

  lemma BetweenAre(details: Details, low: int, high: int)
    ensures Ascending(Between(details, low, high))
    ensures forall i: nat :: i in Between(details, low, high) <==> i < |details| && low <= details[i].num <= high
  {
    PassingAre(|details|, HasNumIn(details, low, high));
  }

  /** Of sorted steps those with a num in the range lie between two places. */
  lemma NumsBetween(details: Details, low: int, high: int)
    requires Sorted(details) && low <= high
    ensures FirstAtLeast(details, low) <= AfterLastAtMost(details, high)
    ensures forall i: nat | i < |details| ::
      HasNumIn(details, low, high)(i) <==> FirstAtLeast(details, low) <= i < AfterLastAtMost(details, high)
  {
    var first, next := FirstAtLeast(details, low), AfterLastAtMost(details, high);
    if 0 < first < |details| {
      assert details[first - 1].num < low;
    }
  }

  lemma RangeSnoc(lo: nat, n: nat)
    ensures Range(lo, n + 1) == if lo <= n then Range(lo, n) + [n] else []
  {
  }

  lemma {:induction false} PassingIsRange(n: nat, ok: nat -> bool, first: nat, next: nat)
    requires forall i: nat | i < n :: ok(i) <==> first <= i < next
    ensures Passing(n, ok) == Range(first, if n < next then n else next)
  {
    if n > 0 {
      PassingIsRange(n - 1, ok, first, next);
      PassingStep(n - 1, ok);
      if n <= next {
        RangeSnoc(first, n - 1);
      }
    }
  }

  lemma BetweenIsRange(details: Details, low: int, high: int)
    requires Sorted(details) && low <= high
    ensures FirstAtLeast(details, low) <= AfterLastAtMost(details, high)
    ensures Between(details, low, high) == Range(FirstAtLeast(details, low), AfterLastAtMost(details, high))
  {
    NumsBetween(details, low, high);
    PassingIsRange(
      |details|, HasNumIn(details, low, high), FirstAtLeast(details, low), AfterLastAtMost(details, high));
  }

  lemma RangeIsAscending(lo: nat, hi: nat)
    ensures Ascending(Range(lo, hi)) && forall i: nat :: i in Range(lo, hi) <==> lo <= i < hi
  {
    forall i: nat ensures i in Range(lo, hi) <==> lo <= i < hi {
      if lo <= i < hi {
        assert Range(lo, hi)[i - lo] == i;
      }
    }
  }

  lemma BeforeIs(details: Details, low: int, high: int, before: nat, after: nat)
    ensures var b := ContextSteps(details, low, high, before, after).0;
      && |b| <= before && Ascending(b) && (forall i | i in b :: i < |details| && details[i].num < low)
      && (Sorted(details) && |b| < before ==> forall i: nat | i < |details| && details[i].num < low :: i in b)
  {
    var first := FirstAtLeast(details, low);
    RangeIsAscending(if before < first then first - before else 0, first);
  }

  lemma AfterIs(details: Details, low: int, high: int, before: nat, after: nat)
    ensures var a := ContextSteps(details, low, high, before, after).1;
      && |a| <= after && Ascending(a) && (forall i | i in a :: i < |details| && high < details[i].num)
      && (Sorted(details) && |a| < after ==> forall i: nat | i < |details| && high < details[i].num :: i in a)
  {
    var next := AfterLastAtMost(details, high);
    RangeIsAscending(next, if next + after < |details| then next + after else |details|);
  }

  /** The steps before, of and after a cluster are one slice of the details, cut where the nums enter and leave the
      cluster's range. */
  lemma ContextIsOneSlice(details: Details, low: int, high: int, before: nat, after: nat)
    requires Sorted(details) && low <= high
    ensures var (b, a) := ContextSteps(details, low, high, before, after);
      var steps := Between(details, low, high);
      && IsSlice(details, b + steps + a)
      && |b| <= before && (forall i | i in b :: i < |details| && details[i].num < low)
      && (|b| < before ==> forall i: nat | i < |details| && details[i].num < low :: i in b)
      && |a| <= after && (forall i | i in a :: i < |details| && high < details[i].num)
      && (|a| < after ==> forall i: nat | i < |details| && high < details[i].num :: i in a)
  {
    BeforeIs(details, low, high, before, after);
    AfterIs(details, low, high, before, after);
    BetweenIsRange(details, low, high);
    var first, next := FirstAtLeast(details, low), AfterLastAtMost(details, high);
    RangesAreSlice(details, if before < first then first - before else 0, first, next,
      if next + after < |details| then next + after else |details|);
  }

  ghost predicate IsSlice(details: Details, s: seq<nat>) {
    exists from: nat, to: nat | from <= to <= |details| :: s == Range(from, to)
  }

  lemma RangesAreSlice(details: Details, from: nat, first: nat, next: nat, to: nat)
    requires from <= first <= next <= to <= |details|
    ensures IsSlice(details, Range(from, first) + Range(first, next) + Range(next, to))
  {
    RangeConcat(from, first, next);
    RangeConcat(from, next, to);
  }

  // ---------------------------------------------------------------- the steps shown around it

  /** The steps of `s` that are not noise. */
  function Telling(details: Details, s: seq<nat>): seq<nat> {
    if s == [] then []
    else
      var i := s[|s| - 1];
      Telling(details, s[..|s| - 1]) + if i < |details| && details[i].isNoise then [] else [i]
  }

  /** They are all there, in order. */
  lemma {:induction false} TellingAre(details: Details, s: seq<nat>)
    requires Ascending(s)
    ensures Ascending(Telling(details, s))
    ensures forall i: nat :: i in Telling(details, s) <==> i in s && (i < |details| ==> !details[i].isNoise)
  {
    if s != [] {
      TellingAre(details, s[..|s| - 1]);
      TwoParts(s, |s| - 1);
      var front := Telling(details, s[..|s| - 1]);
      forall a, b | 0 <= a < b < |Telling(details, s)| ensures Telling(details, s)[a] < Telling(details, s)[b] {
        assert front[a] in s[..|s| - 1];
      }
    }
  }

  function Newest(s: seq<nat>, n: nat): (r: seq<nat>)
    ensures EndsWith(s, r) && |r| <= n && (|r| < n ==> r == s)
  {
    if |s| > n then s[|s| - n..] else s
  }

  /** How many of the steps ran a command. */
  function Ran(details: Details, s: seq<nat>): nat {
    if s == [] then 0
    else
      var i := s[|s| - 1];
      Ran(details, s[..|s| - 1]) + if i < |details| && details[i].ranCommand then 1 else 0
  }

  lemma {:induction false} RanCounts(details: Details, s: seq<nat>)
    ensures Ran(details, s) == |set k | 0 <= k < |s| && s[k] < |details| && details[s[k]].ranCommand|
  {
    var ran := set k | 0 <= k < |s| && s[k] < |details| && details[s[k]].ranCommand;
    if s == [] {
      assert ran == {};
    } else {
      var n := |s| - 1;
      RanCounts(details, s[..n]);
      var before := set k | 0 <= k < |s[..n]| && s[..n][k] < |details| && details[s[..n][k]].ranCommand;
      assert ran == if s[n] < |details| && details[s[n]].ranCommand then before + {n} else before;
    }
  }

  /** `_steps_until_commands`: the shortest start of `steps`, of at least one step, that ran `n` commands; else all. */
  method StepsUntilCommands(details: Details, steps: seq<nat>, n: nat) returns (r: seq<nat>)
    ensures r <= steps
    ensures r == steps || (r != [] && n <= Ran(details, r))
    ensures forall k | 0 < k < |r| :: Ran(details, steps[..k]) < n
  {
    var seen := 0;
    for i := 0 to |steps|
      invariant seen == Ran(details, steps[..i])
      invariant forall k | 0 < k <= i :: Ran(details, steps[..k]) < n
    {
      assert steps[..i + 1][..i] == steps[..i];
      if steps[i] < |details| && details[steps[i]].ranCommand {
        seen := seen + 1;
      }
      if seen >= n {
        return steps[..i + 1];
      }
    }
    return steps;
  }

  // ---------------------------------------------------------------- the step the marker stands before

  /** A failed screen without a text. */
  ghost predicate BareFail(details: Details, i: nat) {
    i < |details| && details[i].failed && !details[i].hasText
  }

  /** The marker of `failing` stands before place `m` of the shown steps. */
  ghost predicate MarkerAt(details: Details, shown: seq<nat>, failing: nat, m: nat) {
    exists f | m <= f < |shown| ::
      && shown[f] == failing && failing !in shown[..f]
      && (forall k | m <= k < f :: BareFail(details, shown[k]))
      && (0 < m ==> !BareFail(details, shown[m - 1]))
  }

  /** What `_marker_step` returns. */
  ghost predicate Marked(details: Details, shown: seq<nat>, failing: nat, marker: Option<nat>) {
    && (marker.None? <==> failing !in shown)
    && (marker.Some? ==>
         exists m: nat | m < |shown| :: MarkerAt(details, shown, failing, m) && shown[m] == marker.value)
  }

  /** `_marker_step`. */
  method MarkerStep(details: Details, shown: seq<nat>, failing: nat) returns (r: Option<nat>)
    ensures Marked(details, shown, failing, r)
  {
    var idx := 0;
    while idx < |shown| && shown[idx] != failing
      invariant idx <= |shown| && failing !in shown[..idx]
    {
      idx := idx + 1;
    }
    if idx == |shown| {
      return None;
    }
    ghost var f := idx;
    while idx > 0 && shown[idx - 1] < |details| && details[shown[idx - 1]].failed && !details[shown[idx - 1]].hasText
      invariant idx <= f && forall k | idx <= k < f :: BareFail(details, shown[k])
    {
      idx := idx - 1;
    }
    assert MarkerAt(details, shown, failing, idx);
    return Some(shown[idx]);
  }

  // ---------------------------------------------------------------- the listing

  datatype Item = Shown(step: nat) | Marker | Omitted(count: nat)

  /** Read backwards, the listing accounts for the steps one by one: an item for each kept step, the marker right in
      front of its step and nowhere else, and one count for each run of hidden steps. */
  ghost predicate Lists(out: seq<Item>, shown: seq<nat>, hidden: set<nat>, marker: Option<nat>) {
    if out == [] then shown == []
    else
      var front, last := out[..|out| - 1], out[|out| - 1];
      match last
      case Marker => false
      case Omitted(n) =>
        && 0 < n <= |shown| && (front != [] ==> !front[|front| - 1].Omitted?)
        && (forall k | |shown| - n <= k < |shown| :: shown[k] in hidden)
        && Lists(front, shown[..|shown| - n], hidden, marker)
      case Shown(i) =>
        && shown != [] && shown[|shown| - 1] == i && i !in hidden
        && if marker != Some(i) then Lists(front, shown[..|shown| - 1], hidden, marker)
           else
             && front != [] && front[|front| - 1].Marker?
             && Lists(front[..|front| - 1], shown[..|shown| - 1], hidden, marker)
  }

  lemma ListsShown(out: seq<Item>, shown: seq<nat>, hidden: set<nat>, marker: Option<nat>, i: nat)
    requires Lists(out, shown, hidden, marker) && i !in hidden
    ensures marker != Some(i) ==> Lists(out + [Shown(i)], shown + [i], hidden, marker)
    ensures marker == Some(i) ==> Lists(out + [Marker] + [Shown(i)], shown + [i], hidden, marker)
  {
    assert (shown + [i])[..|shown|] == shown;
    assert (out + [Shown(i)])[..|out|] == out;
    var marked := out + [Marker];
    assert (marked + [Shown(i)])[..|marked|] == marked && marked[..|out|] == out;
  }

  lemma ListsOmitted(out: seq<Item>, shown: seq<nat>, hidden: set<nat>, marker: Option<nat>, skipped: seq<nat>)
    requires Lists(out, shown, hidden, marker) && skipped != []
    requires (forall i | i in skipped :: i in hidden) && (out != [] ==> !out[|out| - 1].Omitted?)
    ensures Lists(out + [Omitted(|skipped|)], shown + skipped, hidden, marker)
  {
    var all, n := shown + skipped, |skipped|;
    assert all[..|all| - n] == shown;
    assert (out + [Omitted(n)])[..|out|] == out;
    forall k | |all| - n <= k < |all| ensures all[k] in hidden {
      assert all[k] == skipped[k - |shown|];
    }
  }

  /** The steps that end the listing without a count for them. */
  function Uncounted(shown: seq<nat>, hidden: set<nat>): (r: nat)
    ensures r <= |shown|
  {
    if shown == [] || shown[|shown| - 1] !in hidden then 0 else 1 + Uncounted(shown[..|shown| - 1], hidden)
  }

  lemma {:induction false} UncountedAreHidden(shown: seq<nat>, hidden: set<nat>)
    ensures forall k | |shown| - Uncounted(shown, hidden) <= k < |shown| :: shown[k] in hidden
  {
    if shown != [] && shown[|shown| - 1] in hidden {
      UncountedAreHidden(shown[..|shown| - 1], hidden);
    }
  }

  /** `out` lists the steps so far, but for the `skipped` newest, which are hidden. */
  ghost predicate Listed(out: seq<Item>, steps: seq<nat>, hidden: set<nat>, marker: Option<nat>, skipped: nat) {
    && skipped == Uncounted(steps, hidden)
    && (out != [] ==> !out[|out| - 1].Omitted?)
    && Lists(out, steps[..|steps| - skipped], hidden, marker)
  }

  lemma HideStep(out: seq<Item>, steps: seq<nat>, hidden: set<nat>, marker: Option<nat>, skipped: nat, step: nat)
    requires Listed(out, steps, hidden, marker, skipped) && step in hidden
    ensures Listed(out, steps + [step], hidden, marker, skipped + 1)
  {
    var more := steps + [step];
    assert more[..|steps|] == steps && more[..|more| - (skipped + 1)] == steps[..|steps| - skipped];
  }

  /** The counted items, before a step that is shown. */
  function Flushed(out: seq<Item>, skipped: nat): seq<Item> {
    if skipped > 0 then out + [Omitted(skipped)] else out
  }

  lemma LastAreHidden(steps: seq<nat>, hidden: set<nat>, n: nat)
    requires n == |steps| - Uncounted(steps, hidden)
    ensures forall i | i in steps[n..] :: i in hidden
  {
    UncountedAreHidden(steps, hidden);
    forall i | i in steps[n..] ensures i in hidden {
      var k :| 0 <= k < |steps[n..]| && steps[n..][k] == i;
      assert steps[n + k] == i;
    }
  }

  lemma FlushSteps(out: seq<Item>, steps: seq<nat>, hidden: set<nat>, marker: Option<nat>, skipped: nat)
    requires Listed(out, steps, hidden, marker, skipped)
    ensures Lists(Flushed(out, skipped), steps, hidden, marker)
  {
    var n := |steps| - skipped;
    TwoParts(steps, n);
    if skipped > 0 {
      LastAreHidden(steps, hidden, n);
      ListsOmitted(out, steps[..n], hidden, marker, steps[n..]);
    } else {
      assert steps[..n] == steps;
    }
  }

  lemma ShowStep(out: seq<Item>, steps: seq<nat>, hidden: set<nat>, marker: Option<nat>, step: nat)
    requires Lists(out, steps, hidden, marker) && step !in hidden
    ensures var marked := if marker == Some(step) then out + [Marker] else out;
      Listed(marked + [Shown(step)], steps + [step], hidden, marker, 0)
  {
    ListsShown(out, steps, hidden, marker, step);
    var more := steps + [step];
    assert more[..|more| - 0] == more;
  }

  /** The items for a step that is shown. */
  function WithStep(out: seq<Item>, skipped: nat, marker: Option<nat>, step: nat): seq<Item> {
    var flushed := Flushed(out, skipped);
    (if marker == Some(step) then flushed + [Marker] else flushed) + [Shown(step)]
  }

  lemma NextShown(
    out: seq<Item>, shown: seq<nat>, n: nat, hidden: set<nat>, marker: Option<nat>, skipped: nat)
    requires n < |shown| && Listed(out, shown[..n], hidden, marker, skipped)
    ensures shown[n] in hidden ==> Listed(out, shown[..n + 1], hidden, marker, skipped + 1)
    ensures shown[n] !in hidden ==>
      Listed(WithStep(out, skipped, marker, shown[n]), shown[..n + 1], hidden, marker, 0)
  {
    assert shown[..n + 1] == shown[..n] + [shown[n]];
    if shown[n] in hidden {
      HideStep(out, shown[..n], hidden, marker, skipped, shown[n]);
    } else {
      FlushSteps(out, shown[..n], hidden, marker, skipped);
      ShowStep(Flushed(out, skipped), shown[..n], hidden, marker, shown[n]);
    }
  }

  /** The loop of `_step_context`. */
  method ListSteps(shown: seq<nat>, hidden: set<nat>, marker: Option<nat>) returns (out: seq<Item>)
    ensures Lists(out, shown[..|shown| - Uncounted(shown, hidden)], hidden, marker)
  {
    out := [];
    var skipped := 0;
    for n := 0 to |shown|
      invariant Listed(out, shown[..n], hidden, marker, skipped)
    {
      var step := shown[n];
      NextShown(out, shown, n, hidden, marker, skipped);
      if step in hidden {
        skipped := skipped + 1;
      } else {
        ghost var next := WithStep(out, skipped, marker, step);
        if skipped > 0 {
          out := out + [Omitted(skipped)];
          skipped := 0;
        }
        if marker == Some(step) {
          out := out + [Marker];
        }
        out := out + [Shown(step)];
        assert out == next;
      }
    }
    assert shown[..|shown|] == shown;
  }

  function Rendered(out: seq<Item>): seq<nat> {
    if out == [] then []
    else Rendered(out[..|out| - 1]) + if out[|out| - 1].Shown? then [out[|out| - 1].step] else []
  }

  function SumOmitted(out: seq<Item>): nat {
    if out == [] then 0
    else SumOmitted(out[..|out| - 1]) + if out[|out| - 1].Omitted? then out[|out| - 1].count else 0
  }

  function Markers(out: seq<Item>): nat {
    if out == [] then 0 else Markers(out[..|out| - 1]) + if out[|out| - 1].Marker? then 1 else 0
  }

  /** The steps that are not hidden. */
  function Kept(shown: seq<nat>, hidden: set<nat>): seq<nat> {
    if shown == [] then []
    else Kept(shown[..|shown| - 1], hidden) + if shown[|shown| - 1] in hidden then [] else [shown[|shown| - 1]]
  }

  lemma {:induction false} KeptDropsHidden(shown: seq<nat>, hidden: set<nat>, n: nat)
    requires n <= |shown| && forall k | |shown| - n <= k < |shown| :: shown[k] in hidden
    ensures Kept(shown, hidden) == Kept(shown[..|shown| - n], hidden)
  {
    if n > 0 {
      var front := shown[..|shown| - 1];
      KeptDropsHidden(front, hidden, n - 1);
      assert front[..|front| - (n - 1)] == shown[..|shown| - n];
    } else {
      assert shown[..|shown| - n] == shown;
    }
  }

  /** Nothing is lost or shown twice: the kept steps in order, and a count for all the others. */
  lemma {:induction false} ListingAccounts(out: seq<Item>, shown: seq<nat>, hidden: set<nat>, marker: Option<nat>)
    requires Lists(out, shown, hidden, marker)
    ensures Rendered(out) == Kept(shown, hidden)
    ensures |Rendered(out)| + SumOmitted(out) == |shown|
  {
    if out != [] {
      var front := out[..|out| - 1];
      match out[|out| - 1] {
        case Omitted(n) =>
          ListingAccounts(front, shown[..|shown| - n], hidden, marker);
          KeptDropsHidden(shown, hidden, n);
        case Shown(i) =>
          var before := shown[..|shown| - 1];
          if marker == Some(i) {
            ListingAccounts(front[..|front| - 1], before, hidden, marker);
          } else {
            ListingAccounts(front, before, hidden, marker);
          }
      }
    }
  }

  /** A marker stands right before its step. */
  ghost predicate MarkersBefore(out: seq<Item>, m: nat) {
    forall k | 0 <= k < |out| && out[k].Marker? :: k + 1 < |out| && out[k + 1] == Item.Shown(m)
  }

  lemma {:induction false} UncountedIs(shown: seq<nat>, hidden: set<nat>, n: nat)
    requires n <= |shown| && (forall k | |shown| - n <= k < |shown| :: shown[k] in hidden)
    requires n < |shown| ==> shown[|shown| - 1 - n] !in hidden
    ensures Uncounted(shown, hidden) == n
  {
    if n > 0 {
      UncountedIs(shown[..|shown| - 1], hidden, n - 1);
    }
  }

  /** The items a listing ends with, and the steps before the ones they stand for. */
  function LastItems(shown: seq<nat>, hidden: set<nat>, marker: Option<nat>): seq<Item>
    requires shown != []
  {
    var n, i := Uncounted(shown, hidden), shown[|shown| - 1];
    if n > 0 then [Omitted(n)] else if marker == Some(i) then [Marker, Item.Shown(i)] else [Item.Shown(i)]
  }

  function Earlier(shown: seq<nat>, hidden: set<nat>): (r: seq<nat>)
    requires shown != []
    ensures |r| < |shown|
  {
    var n := Uncounted(shown, hidden);
    shown[..|shown| - if n > 0 then n else 1]
  }

  lemma EndsWithLastItems(out: seq<Item>, shown: seq<nat>, hidden: set<nat>, marker: Option<nat>)
    returns (front: seq<Item>)
    requires Lists(out, shown, hidden, marker) && shown != []
    ensures out == front + LastItems(shown, hidden, marker)
    ensures Lists(front, Earlier(shown, hidden), hidden, marker)
  {
    front := out[..|out| - 1];
    match out[|out| - 1] {
      case Omitted(n) =>
        UncountedIs(shown, hidden, n);
      case Shown(i) =>
        if marker == Some(i) {
          var marked := front;
          front := marked[..|marked| - 1];
        }
    }
  }

  lemma MarkersConcat(front: seq<Item>, tail: seq<Item>, m: nat)
    requires (|tail| == 1 && !tail[0].Marker?) || tail == [Marker, Item.Shown(m)]
    ensures Markers(front + tail) == Markers(front) + |tail| - 1
    ensures MarkersBefore(front, m) ==> MarkersBefore(front + tail, m)
  {
    var out := front + tail;
    assert out[..|out| - 1] == front + tail[..|tail| - 1];
    if |tail| == 1 {
      assert out[..|out| - 1] == front;
    } else {
      assert out[..|out| - 1][..|front|] == front;
    }
  }

  lemma EarlierHolds(shown: seq<nat>, hidden: set<nat>, m: nat)
    requires Ascending(shown) && shown != [] && m !in hidden
    ensures Ascending(Earlier(shown, hidden))
    ensures m in shown <==> m in Earlier(shown, hidden) || shown[|shown| - 1] == m
    ensures shown[|shown| - 1] == m ==> m !in Earlier(shown, hidden)
  {
    UncountedAreHidden(shown, hidden);
    if m in shown && shown[|shown| - 1] != m {
      var k :| 0 <= k < |shown| && shown[k] == m;
      assert k < |Earlier(shown, hidden)| && Earlier(shown, hidden)[k] == m;
    }
  }

  lemma {:induction false} ListingMarks(out: seq<Item>, shown: seq<nat>, hidden: set<nat>, m: nat)
    requires Lists(out, shown, hidden, Some(m)) && Ascending(shown) && m !in hidden
    ensures Markers(out) == if m in shown then 1 else 0
    ensures MarkersBefore(out, m)
    decreases |shown|
  {
    if shown != [] {
      var front := EndsWithLastItems(out, shown, hidden, Some(m));
      EarlierHolds(shown, hidden, m);
      ListingMarks(front, Earlier(shown, hidden), hidden, m);
      MarkersConcat(front, LastItems(shown, hidden, Some(m)), m);
    }
  }

  /** No other listing accounts for the same steps. */
  lemma {:induction false} OnlyOneListing(
    out: seq<Item>, other: seq<Item>, shown: seq<nat>, hidden: set<nat>, marker: Option<nat>)
    requires Lists(out, shown, hidden, marker) && Lists(other, shown, hidden, marker)
    ensures out == other
    decreases |shown|
  {
    if shown != [] {
      var front := EndsWithLastItems(out, shown, hidden, marker);
      var rest := EndsWithLastItems(other, shown, hidden, marker);
      OnlyOneListing(front, rest, Earlier(shown, hidden), hidden, marker);
    }
  }

  // ---------------------------------------------------------------- the whole step context

  /** What the report hands over: telling steps before and after a cluster of a sorted module. */
  ghost predicate Around(details: Details, cluster: seq<nat>, before: seq<nat>, after: seq<nat>) {
    && Sorted(details) && cluster != [] && Ascending(cluster) && (forall i | i in cluster :: i < |details|)
    && Ascending(before) && (forall i | i in before :: i < |details| && details[i].num < Low(details, cluster))
    && Ascending(after) && (forall i | i in after :: i < |details| && High(details, cluster) < details[i].num)
  }

  function Low(details: Details, cluster: seq<nat>): int
    requires cluster != []
  {
    Num(details, cluster[0])
  }

  function High(details: Details, cluster: seq<nat>): int
    requires cluster != []
  {
    Num(details, cluster[|cluster| - 1])
  }

  function ClusterSteps(details: Details, cluster: seq<nat>): seq<nat>
    requires cluster != []
  {
    Between(details, Low(details, cluster), High(details, cluster))
  }

  /** The steps that have a body, `_step_bodies`: the failing one and the died one. */
  function Bodies(details: Details, cluster: seq<nat>): set<nat>
    requires cluster != []
  {
    {FailingStep(details, cluster)} + match DiedStep(details, cluster) { case None => {} case Some(i) => {i} }
  }

  function Elements(s: seq<nat>): set<nat> {
    set i | i in s
  }

  function Hidden(details: Details, cluster: seq<nat>, marker: Option<nat>): set<nat>
    requires cluster != []
  {
    var steps := ClusterSteps(details, cluster);
    if |steps| <= 2 * HALF then {}
    else
      Elements(steps[HALF..|steps| - HALF]) - Bodies(details, cluster) -
      match marker { case None => {} case Some(i) => {i} }
  }

  /** The cluster has more than twice `HALF` steps, and step `i` is none of the first or the last `HALF`. */
  ghost predicate InMiddle(details: Details, cluster: seq<nat>, i: nat)
    requires cluster != []
  {
    var steps := ClusterSteps(details, cluster);
    exists k | HALF <= k < |steps| - HALF :: steps[k] == i
  }

  /** The failing step, and the last one of the cluster at which the test died. */
  ghost predicate HasBody(details: Details, cluster: seq<nat>, i: nat)
    requires cluster != []
  {
    || i == FailingStep(details, cluster)
    || exists k | 0 <= k < |cluster| ::
         cluster[k] == i && i < |details| && details[i].testDied &&
         forall j | k < j < |cluster| && cluster[j] < |details| :: !details[cluster[j]].testDied
  }

  /** Exactly the steps in the middle of a long cluster are hidden that have no body and no marker before them. */
  lemma HiddenAre(details: Details, cluster: seq<nat>, marker: Option<nat>, i: nat)
    requires cluster != []
    ensures i in Hidden(details, cluster, marker) <==>
      InMiddle(details, cluster, i) && !HasBody(details, cluster, i) && marker != Some(i)
  {
    var steps := ClusterSteps(details, cluster);
    BodiesAre(details, cluster, i);
    if InMiddle(details, cluster, i) {
      var k :| HALF <= k < |steps| - HALF && steps[k] == i;
      assert steps[HALF..|steps| - HALF][k - HALF] == i;
    }
  }

  lemma BodiesAre(details: Details, cluster: seq<nat>, i: nat)
    requires cluster != []
    ensures i in Bodies(details, cluster) <==> HasBody(details, cluster, i)
  {
    var died := LastWhere(cluster, (i: nat) => TestDied(details, i));
  }

  lemma AscendingConcat(a: seq<nat>, b: seq<nat>)
    requires Ascending(a) && Ascending(b) && forall i, j | i in a && j in b :: i < j
    ensures Ascending(a + b)
  {
    forall i, j | 0 <= i < j < |a + b| ensures (a + b)[i] < (a + b)[j] {
      assert i < |a| ==> (a + b)[i] == a[i] && a[i] in a;
      assert j >= |a| ==> (a + b)[j] == b[j - |a|] && b[j - |a|] in b;
    }
  }

  lemma StepsAround(details: Details, cluster: seq<nat>, before: seq<nat>, after: seq<nat>)
    requires Around(details, cluster, before, after)
    ensures var steps := ClusterSteps(details, cluster);
      && Low(details, cluster) <= High(details, cluster)
      && Ascending(steps) && (forall i | i in cluster :: i in steps)
      && (forall i: nat :: i in steps <==>
           i < |details| && Low(details, cluster) <= details[i].num <= High(details, cluster))
      && (forall i, j | i in before && j in steps :: i < j) && (forall i, j | i in steps && j in after :: i < j)
  {
    var low, high := Low(details, cluster), High(details, cluster);
    assert cluster[0] in cluster && cluster[|cluster| - 1] in cluster;
    PassingAre(|details|, HasNumIn(details, low, high));
    ClusterIsInRange(details, cluster);
  }

  lemma ClusterIsInRange(details: Details, cluster: seq<nat>)
    requires Sorted(details) && cluster != [] && Ascending(cluster) && forall i | i in cluster :: i < |details|
    ensures forall i | i in cluster :: Low(details, cluster) <= details[i].num <= High(details, cluster)
  {
    assert cluster[0] in cluster && cluster[|cluster| - 1] in cluster;
    forall i | i in cluster ensures Low(details, cluster) <= details[i].num <= High(details, cluster) {
      var k :| 0 <= k < |cluster| && cluster[k] == i;
      assert cluster[0] <= i <= cluster[|cluster| - 1];
    }
  }

  lemma ShownIsAscending(details: Details, cluster: seq<nat>, before: seq<nat>, after: seq<nat>)
    requires Around(details, cluster, before, after)
    ensures Ascending(before + ClusterSteps(details, cluster) + after)
  {
    var steps := ClusterSteps(details, cluster);
    StepsAround(details, cluster, before, after);
    assert steps[0] in steps by { assert cluster[0] in cluster; }
    AscendingConcat(before, steps);
    forall i, j | i in before + steps && j in after ensures i < j {
      if i in before {
        assert i < steps[0];
      }
    }
    AscendingConcat(before + steps, after);
  }

  /** The last step is shown, so that no count is left over. */
  lemma NothingUncounted(details: Details, cluster: seq<nat>, before: seq<nat>, after: seq<nat>, marker: Option<nat>)
    requires Around(details, cluster, before, after)
    ensures Uncounted(before + ClusterSteps(details, cluster) + after, Hidden(details, cluster, marker)) == 0
  {
    var steps := ClusterSteps(details, cluster);
    var shown := before + steps + after;
    StepsAround(details, cluster, before, after);
    assert steps[0] in steps by { assert cluster[0] in cluster; }
    var last := shown[|shown| - 1];
    if after != [] {
      assert last in after;
    } else {
      assert last == steps[|steps| - 1];
    }
    assert |steps| > 2 * HALF ==> last !in steps[HALF..|steps| - HALF];
  }

  /** The one marker stands before the failing step, or before the topmost of the bare failed screens above it. */
  ghost predicate OneMarker(details: Details, shown: seq<nat>, failing: nat, out: seq<Item>) {
    && Markers(out) == 1
    && exists k: nat, m: nat | k + 1 < |out| && m < |shown| ::
         out[k].Marker? && out[k + 1] == Item.Shown(shown[m]) && MarkerAt(details, shown, failing, m)
  }

  /** What the listing of the steps `shown`, of `before`, the cluster's and `after`, shows of the cluster. */
  ghost predicate Shows(
    details: Details, cluster: seq<nat>, shown: seq<nat>, before: seq<nat>, after: seq<nat>, out: seq<Item>)
    requires cluster != []
  {
    && Ascending(shown)
    && OneMarker(details, shown, FailingStep(details, cluster), out)
    && |Rendered(out)| + SumOmitted(out) == |shown|
    && (forall i: nat | i in before || i in after || HasBody(details, cluster, i) :: i in Rendered(out))
    && exists marker: Option<nat> :: RendersAllBut(details, cluster, shown, marker, out)
  }

  /** Rendered are the steps before and after the cluster, the first and the last ones of it, and of the others those
      with a body or the marker. */
  ghost predicate RendersAllBut(
    details: Details, cluster: seq<nat>, shown: seq<nat>, marker: Option<nat>, out: seq<Item>)
    requires cluster != []
  {
    && Lists(out, shown, Hidden(details, cluster, marker), marker)
    && forall i: nat :: i in Rendered(out) <==>
         i in shown && (InMiddle(details, cluster, i) ==> HasBody(details, cluster, i) || marker == Some(i))
  }

  ghost predicate ShowsCluster(details: Details, cluster: seq<nat>, before: seq<nat>, after: seq<nat>, out: seq<Item>)
    requires cluster != []
  {
    Shows(details, cluster, before + ClusterSteps(details, cluster) + after, before, after, out)
  }

  lemma {:induction false} KeptHolds(shown: seq<nat>, hidden: set<nat>, i: nat)
    ensures i in Kept(shown, hidden) <==> i in shown && i !in hidden
  {
    if shown != [] {
      KeptHolds(shown[..|shown| - 1], hidden, i);
      TwoParts(shown, |shown| - 1);
    }
  }

  lemma ListingHasOneMarker(details: Details, shown: seq<nat>, failing: nat, hidden: set<nat>, m: nat, out: seq<Item>)
    requires Ascending(shown) && m < |shown| && MarkerAt(details, shown, failing, m) && shown[m] !in hidden
    requires Lists(out, shown, hidden, Some(shown[m]))
    ensures OneMarker(details, shown, failing, out)
  {
    ListingMarks(out, shown, hidden, shown[m]);
    MarkedIs(out, shown[m]);
  }

  /** The steps that must be shown are. */
  lemma NotHidden(details: Details, cluster: seq<nat>, before: seq<nat>, after: seq<nat>, marker: Option<nat>, i: nat)
    requires Around(details, cluster, before, after)
    requires i in before || i in after || i in Bodies(details, cluster)
    ensures i in before || i in ClusterSteps(details, cluster) || i in after
    ensures i !in Hidden(details, cluster, marker)
  {
    StepsAround(details, cluster, before, after);
    HiddenAreSteps(details, cluster, marker);
    if i in Bodies(details, cluster) {
      FailingStepIs(details, cluster);
    } else {
      assert i !in ClusterSteps(details, cluster);
      assert i !in Elements(ClusterSteps(details, cluster));
    }
  }

  /** Whatever lists the steps around a cluster with the marker at its place shows the cluster. */
  lemma ListingShows(
    details: Details, cluster: seq<nat>, shown: seq<nat>, before: seq<nat>, after: seq<nat>, marker: Option<nat>,
    out: seq<Item>)
    requires cluster != [] && Ascending(shown)
    requires FailingStep(details, cluster) in shown && Marked(details, shown, FailingStep(details, cluster), marker)
    requires forall i | i in before || i in after || i in Bodies(details, cluster) ::
      i in shown && i !in Hidden(details, cluster, marker)
    requires Lists(out, shown, Hidden(details, cluster, marker), marker)
    ensures Shows(details, cluster, shown, before, after, out)
  {
    var failing, hidden := FailingStep(details, cluster), Hidden(details, cluster, marker);
    var m: nat :| m < |shown| && MarkerAt(details, shown, failing, m) && shown[m] == marker.value;
    HiddenAreSteps(details, cluster, marker);
    ListingHasOneMarker(details, shown, failing, hidden, m, out);
    ListingAccounts(out, shown, hidden, marker);
    forall i: nat ensures i in Rendered(out) <==> i in shown && i !in hidden {
      KeptHolds(shown, hidden, i);
    }
    forall i: nat ensures
      && (i in hidden <==> InMiddle(details, cluster, i) && !HasBody(details, cluster, i) && marker != Some(i))
      && (i in Bodies(details, cluster) <==> HasBody(details, cluster, i))
    {
      HiddenAre(details, cluster, marker, i);
      BodiesAre(details, cluster, i);
    }
    assert RendersAllBut(details, cluster, shown, marker, out);
  }

  lemma HiddenAreSteps(details: Details, cluster: seq<nat>, marker: Option<nat>)
    requires cluster != []
    ensures Hidden(details, cluster, marker) <= Elements(ClusterSteps(details, cluster))
    ensures Hidden(details, cluster, marker) !! Bodies(details, cluster)
    ensures marker.Some? ==> marker.value !in Hidden(details, cluster, marker)
  {
  }

  lemma {:induction false} MarkedIs(out: seq<Item>, m: nat)
    requires Markers(out) > 0 && MarkersBefore(out, m)
    ensures exists k: nat | k + 1 < |out| :: out[k].Marker? && out[k + 1] == Item.Shown(m)
  {
    var k := SomeMarker(out);
    assert k + 1 < |out| && out[k + 1] == Item.Shown(m);
  }

  lemma {:induction false} SomeMarker(out: seq<Item>) returns (k: nat)
    requires Markers(out) > 0
    ensures k < |out| && out[k].Marker?
  {
    if out[|out| - 1].Marker? {
      k := |out| - 1;
    } else {
      k := SomeMarker(out[..|out| - 1]);
    }
  }

  lemma ThreeParts(before: seq<nat>, steps: seq<nat>, after: seq<nat>, i: nat)
    ensures i in before + steps + after <==> i in before || i in steps || i in after
  {
    assert i in before + steps + after <==> i in before + steps || i in after;
  }

  lemma MustBeShown(
    details: Details, cluster: seq<nat>, shown: seq<nat>, before: seq<nat>, after: seq<nat>, marker: Option<nat>)
    requires Around(details, cluster, before, after) && shown == before + ClusterSteps(details, cluster) + after
    ensures forall i | i in before || i in after || i in Bodies(details, cluster) ::
      i in shown && i !in Hidden(details, cluster, marker)
  {
    forall i | i in before || i in after || i in Bodies(details, cluster)
      ensures i in shown && i !in Hidden(details, cluster, marker)
    {
      NotHidden(details, cluster, before, after, marker, i);
      ThreeParts(before, ClusterSteps(details, cluster), after, i);
    }
  }

  /** `_step_context`: which steps it lists, and the marker and the counts between them. */
  method StepContext(details: Details, cluster: seq<nat>, before: seq<nat>, after: seq<nat>) returns (out: seq<Item>)
    requires Around(details, cluster, before, after)
    ensures ShowsCluster(details, cluster, before, after, out)
  {
    var shown := before + ClusterSteps(details, cluster) + after;
    var marker := MarkerStep(details, shown, FailingStep(details, cluster));
    out := ListSteps(shown, Hidden(details, cluster, marker), marker);
    NothingUncounted(details, cluster, before, after, marker);
    assert shown[..|shown| - 0] == shown;
    ShownIsAscending(details, cluster, before, after);
    MustBeShown(details, cluster, shown, before, after, marker);
    assert FailingStep(details, cluster) in Bodies(details, cluster);
    ListingShows(details, cluster, shown, before, after, marker, out);
  }

  lemma PartOf(s: seq<nat>, part: seq<nat>, lo: nat)
    requires Ascending(s) && lo + |part| <= |s| && part == s[lo..lo + |part|]
    ensures Ascending(part) && forall i | i in part :: i in s
  {
    forall a, b | 0 <= a < b < |part| ensures part[a] < part[b] {
      assert s[lo + a] < s[lo + b];
    }
  }

  lemma PartOfTelling(details: Details, s: seq<nat>, part: seq<nat>, lo: nat)
    requires Ascending(s) && lo + |part| <= |Telling(details, s)| && part == Telling(details, s)[lo..lo + |part|]
    ensures Ascending(part) && forall i | i in part :: i in s
  {
    TellingAre(details, s);
    PartOf(Telling(details, s), part, lo);
  }

  lemma RanAtMost(details: Details, steps: seq<nat>, r: seq<nat>, n: nat)
    requires r <= steps && 0 < n && forall k | 0 < k < |r| :: Ran(details, steps[..k]) < n
    ensures Ran(details, r) <= n
  {
    if |r| > 1 {
      assert r[..|r| - 1] == steps[..|r| - 1];
    }
  }

  lemma BeforeTelling(details: Details, scanned: seq<nat>, low: int, before: seq<nat>)
    requires Ascending(scanned) && forall i | i in scanned :: i < |details| && details[i].num < low
    requires before == Newest(Telling(details, scanned), STEPS_BEFORE_SHOWN)
    ensures Ascending(before) && forall i | i in before :: i < |details| && details[i].num < low
  {
    PartOfTelling(details, scanned, before, |Telling(details, scanned)| - |before|);
  }

  lemma AfterTelling(details: Details, scanned: seq<nat>, high: int, after: seq<nat>)
    requires Ascending(scanned) && forall i | i in scanned :: i < |details| && high < details[i].num
    requires after <= Telling(details, scanned)
    ensures Ascending(after) && forall i | i in after :: i < |details| && high < details[i].num
  {
    PartOfTelling(details, scanned, after, 0);
  }

  /** The step listing of `_cluster_report`, for any cluster of a sorted module. */
  method ClusterReport(details: Details, cluster: seq<nat>) returns (before: seq<nat>, after: seq<nat>, out: seq<Item>)
    requires Sorted(details) && cluster != [] && Ascending(cluster) && forall i | i in cluster :: i < |details|
    ensures var (b, a) := ContextSteps(
              details, Low(details, cluster), High(details, cluster), STEPS_BEFORE_SCAN, STEPS_AFTER_SCAN);
      && before == Newest(Telling(details, b), STEPS_BEFORE_SHOWN)
      && after <= Telling(details, a) && Ran(details, after) <= AFTER_COMMANDS
      && (after == Telling(details, a) || Ran(details, after) == AFTER_COMMANDS)
      && forall k | 0 < k < |after| :: Ran(details, Telling(details, a)[..k]) < AFTER_COMMANDS
    ensures ShowsCluster(details, cluster, before, after, out)
  {
    var low, high := Low(details, cluster), High(details, cluster);
    var around := ContextSteps(details, low, high, STEPS_BEFORE_SCAN, STEPS_AFTER_SCAN);
    before := Newest(Telling(details, around.0), STEPS_BEFORE_SHOWN);
    after := StepsUntilCommands(details, Telling(details, around.1), AFTER_COMMANDS);
    RanAtMost(details, Telling(details, around.1), after, AFTER_COMMANDS);
    BeforeIs(details, low, high, STEPS_BEFORE_SCAN, STEPS_AFTER_SCAN);
    BeforeTelling(details, around.0, low, before);
    AfterIs(details, low, high, STEPS_BEFORE_SCAN, STEPS_AFTER_SCAN);
    AfterTelling(details, around.1, high, after);
    out := StepContext(details, cluster, before, after);
  }
}
