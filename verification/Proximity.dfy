/** Grouping picked positions whose keys are close: used for failing steps by number and for fatal lines by index. */
module Proximity {
  import opened PyText
  import opened Ordered

  /** The key of a position. */
  type Keys = nat -> int

  function LastOf(groups: seq<seq<nat>>): nat {
    if groups == [] || groups[|groups| - 1] == [] then 0
    else groups[|groups| - 1][|groups[|groups| - 1]| - 1]
  }

  /** A position joins the newest group if its key is at most `gap` beyond the group's last one. */
  function Joined(keys: Keys, groups: seq<seq<nat>>, x: nat, gap: int): seq<seq<nat>> {
    if groups != [] && keys(x) - keys(LastOf(groups)) <= gap
    then groups[..|groups| - 1] + [groups[|groups| - 1] + [x]]
    else groups + [[x]]
  }

  /** The picked positions, one after the other. */
  function Group(keys: Keys, picked: seq<nat>, gap: int): seq<seq<nat>> {
    if picked == [] then []
    else Joined(keys, Group(keys, picked[..|picked| - 1], gap), picked[|picked| - 1], gap)
  }

  lemma GroupSnoc(keys: Keys, picked: seq<nat>, x: nat, gap: int)
    ensures Group(keys, picked + [x], gap) == Joined(keys, Group(keys, picked, gap), x, gap)
  {
    assert (picked + [x])[..|picked|] == picked;
  }

  function Flat(groups: seq<seq<nat>>): seq<nat> {
    if groups == [] then [] else Flat(groups[..|groups| - 1]) + groups[|groups| - 1]
  }

  lemma FlatSnoc(groups: seq<seq<nat>>, g: seq<nat>)
    ensures Flat(groups + [g]) == Flat(groups) + g
  {
    assert (groups + [g])[..|groups|] == groups;
  }

  // ---------------------------------------------------------------- what a grouping is

  ghost predicate StepsWithin(keys: Keys, g: seq<nat>, gap: int) {
    forall k, m | 0 <= k < |g| && m == k + 1 < |g| :: keys(g[m]) - keys(g[k]) <= gap
  }

  ghost predicate Apart(keys: Keys, a: seq<nat>, b: seq<nat>, gap: int) {
    a != [] && b != [] && gap < keys(b[0]) - keys(a[|a| - 1])
  }

  /** The positions in order, cut into groups exactly where the keys of neighbours differ by more than `gap`. */
  ghost predicate Grouping(keys: Keys, picked: seq<nat>, gap: int, groups: seq<seq<nat>>) {
    if groups == [] then picked == []
    else
      var front, last := groups[..|groups| - 1], groups[|groups| - 1];
      && last != [] && StepsWithin(keys, last, gap)
      && (front != [] ==> Apart(keys, front[|front| - 1], last, gap))
      && |last| <= |picked| && last == picked[|picked| - |last|..]
      && Grouping(keys, picked[..|picked| - |last|], gap, front)
  }

  lemma GroupingSnoc(keys: Keys, picked: seq<nat>, gap: int, front: seq<seq<nat>>, last: seq<nat>)
    ensures Grouping(keys, picked + last, gap, front + [last]) <==>
      && last != [] && StepsWithin(keys, last, gap)
      && (front != [] ==> Apart(keys, front[|front| - 1], last, gap))
      && Grouping(keys, picked, gap, front)
  {
    var groups, all := front + [last], picked + last;
    assert groups[..|groups| - 1] == front && all[|all| - |last|..] == last && all[..|all| - |last|] == picked;
  }

  /** A position that is near the newest one goes into its group. */
  lemma NearJoins(keys: Keys, before: seq<nat>, gap: int, front: seq<seq<nat>>, last: seq<nat>, x: nat)
    requires Grouping(keys, before + last, gap, front + [last]) && last != [] && keys(x) - keys(last[|last| - 1]) <= gap
    ensures Grouping(keys, before + (last + [x]), gap, front + [last + [x]])
  {
    GroupingSnoc(keys, before, gap, front, last);
    StepsSnoc(keys, last, x, gap);
    GroupingSnoc(keys, before, gap, front, last + [x]);
  }

  lemma JoinedIsGrouping(keys: Keys, picked: seq<nat>, gap: int, groups: seq<seq<nat>>, x: nat)
    requires Grouping(keys, picked, gap, groups)
    ensures Grouping(keys, picked + [x], gap, Joined(keys, groups, x, gap))
  {
    if groups != [] && keys(x) - keys(LastOf(groups)) <= gap {
      var front, last := groups[..|groups| - 1], groups[|groups| - 1];
      var before := picked[..|picked| - |last|];
      TwoParts(groups, |groups| - 1);
      TwoParts(picked, |picked| - |last|);
      NearJoins(keys, before, gap, front, last, x);
      Associative(before, last, [x]);
    } else {
      GroupingSnoc(keys, picked, gap, groups, [x]);
    }
  }

  lemma StepsSnoc(keys: Keys, g: seq<nat>, x: nat, gap: int)
    requires g != []
    ensures StepsWithin(keys, g + [x], gap) <==> StepsWithin(keys, g, gap) && keys(x) - keys(g[|g| - 1]) <= gap
  {
    var h := g + [x];
    assert forall k | 0 <= k < |g| :: h[k] == g[k];
    if StepsWithin(keys, h, gap) {
      assert keys(h[|g|]) - keys(h[|g| - 1]) <= gap;
      forall k, m | 0 <= k < |g| && m == k + 1 < |g| ensures keys(g[m]) - keys(g[k]) <= gap {
        assert keys(h[m]) - keys(h[k]) <= gap;
      }
    }
  }

  /** The loop's groups are a grouping. */
  lemma {:induction false} GroupIsGrouping(keys: Keys, picked: seq<nat>, gap: int)
    ensures Grouping(keys, picked, gap, Group(keys, picked, gap))
  {
    if picked != [] {
      var before, x := picked[..|picked| - 1], picked[|picked| - 1];
      GroupIsGrouping(keys, before, gap);
      JoinedIsGrouping(keys, before, gap, Group(keys, before, gap), x);
      GroupSnoc(keys, before, x, gap);
      TwoParts(picked, |picked| - 1);
    }
  }

  lemma LastOfGrouping(keys: Keys, picked: seq<nat>, gap: int, groups: seq<seq<nat>>)
    requires Grouping(keys, picked, gap, groups) && picked != []
    ensures groups != [] && groups[|groups| - 1] != []
    ensures groups[|groups| - 1][|groups[|groups| - 1]| - 1] == picked[|picked| - 1]
  {
  }

  /** The newest group ends with the newest position. */
  lemma NewestIsLast(keys: Keys, picked: seq<nat>, gap: int)
    ensures var groups := Group(keys, picked, gap);
      if picked == [] then groups == []
      else groups != [] && groups[|groups| - 1] != [] && LastOf(groups) == picked[|picked| - 1]
  {
    if picked != [] {
      GroupIsGrouping(keys, picked, gap);
      LastOfGrouping(keys, picked, gap, Group(keys, picked, gap));
    }
  }

  /** A group begins where the key jumps. */
  lemma JumpBeforeLast(keys: Keys, picked: seq<nat>, gap: int, groups: seq<seq<nat>>, i: int)
    requires Grouping(keys, picked, gap, groups) && groups != [] && i == |picked| - |groups[|groups| - 1]|
    ensures 0 <= i < |picked|
    ensures 0 < i ==> gap < keys(picked[i]) - keys(picked[i - 1])
  {
    if 0 < i {
      LastOfGrouping(keys, picked[..i], gap, groups[..|groups| - 1]);
    }
  }

  /** Within a group it does not. */
  lemma NoJumpInLast(keys: Keys, picked: seq<nat>, gap: int, groups: seq<seq<nat>>, i: int)
    requires Grouping(keys, picked, gap, groups) && groups != []
    ensures |picked| - |groups[|groups| - 1]| < i < |picked| ==> keys(picked[i]) - keys(picked[i - 1]) <= gap
  {
    var last := groups[|groups| - 1];
    var k := i - (|picked| - |last|);
    if 0 < k < |last| {
      assert last[k] == picked[i] && last[k - 1] == picked[i - 1];
      assert keys(last[k]) - keys(last[k - 1]) <= gap;
    }
  }

  lemma LastNotShorter(keys: Keys, picked: seq<nat>, gap: int, groups: seq<seq<nat>>, others: seq<seq<nat>>)
    requires Grouping(keys, picked, gap, groups) && Grouping(keys, picked, gap, others) && picked != []
    ensures groups != [] && others != [] && |others[|others| - 1]| <= |groups[|groups| - 1]|
  {
    var i := |picked| - |groups[|groups| - 1]|;
    JumpBeforeLast(keys, picked, gap, groups, i);
    NoJumpInLast(keys, picked, gap, others, i);
  }

  /** There is only one grouping. */
  lemma {:induction false} OnlyOneGrouping(
    keys: Keys, picked: seq<nat>, gap: int, groups: seq<seq<nat>>, others: seq<seq<nat>>)
    requires Grouping(keys, picked, gap, groups) && Grouping(keys, picked, gap, others)
    ensures groups == others
    decreases |picked|
  {
    if picked != [] {
      LastNotShorter(keys, picked, gap, groups, others);
      LastNotShorter(keys, picked, gap, others, groups);
      var last := groups[|groups| - 1];
      assert others[|others| - 1] == last;
      OnlyOneGrouping(keys, picked[..|picked| - |last|], gap, groups[..|groups| - 1], others[..|others| - 1]);
      TwoParts(groups, |groups| - 1);
      TwoParts(others, |others| - 1);
    }
  }

  // ---------------------------------------------------------------- connected components

  /** The keys do not fall from one picked position to the next. */
  ghost predicate Rising(keys: Keys, picked: seq<nat>) {
    forall a, b | 0 <= a <= b < |picked| :: keys(picked[a]) <= keys(picked[b])
  }

  ghost predicate Near(keys: Keys, picked: seq<nat>, gap: int, x: nat, y: nat) {
    x in picked && y in picked && -gap <= keys(y) - keys(x) <= gap
  }

  /** Some chain of picked positions, each near the one before it, leads from `x` to `y` in at most `n` steps. */
  ghost predicate Reaches(keys: Keys, picked: seq<nat>, gap: int, x: nat, y: nat, n: nat)
    decreases n
  {
    (x == y && x in picked) ||
    (n > 0 && exists z: nat :: Reaches(keys, picked, gap, x, z, n - 1) && Near(keys, picked, gap, z, y))
  }

  ghost predicate Linked(keys: Keys, picked: seq<nat>, gap: int, x: nat, y: nat) {
    exists n: nat :: Reaches(keys, picked, gap, x, y, n)
  }

  ghost predicate Together(groups: seq<seq<nat>>, x: nat, y: nat) {
    exists k | 0 <= k < |groups| :: x in groups[k] && y in groups[k]
  }

  lemma TogetherSnoc(front: seq<seq<nat>>, last: seq<nat>, x: nat, y: nat)
    ensures Together(front + [last], x, y) <==> (x in last && y in last) || Together(front, x, y)
  {
    var groups := front + [last];
    if x in last && y in last {
      assert x in groups[|front|] && y in groups[|front|];
    }
    if Together(front, x, y) {
      var k :| 0 <= k < |front| && x in front[k] && y in front[k];
      assert x in groups[k] && y in groups[k];
    }
  }

  /** The newest group of a grouping, and what came before it. */
  lemma Peel(keys: Keys, picked: seq<nat>, gap: int, groups: seq<seq<nat>>)
    returns (front: seq<seq<nat>>, last: seq<nat>, before: seq<nat>)
    requires groups != [] && Grouping(keys, picked, gap, groups) && Rising(keys, picked) && Ascending(picked)
    ensures groups == front + [last] && picked == before + last && last != [] && |front| < |groups|
    ensures Grouping(keys, before, gap, front) && Rising(keys, before) && Ascending(before)
    ensures StepsWithin(keys, last, gap) && Rising(keys, last)
    ensures forall x, y | x in before && y in last :: x < y && gap < keys(y) - keys(x)
  {
    front, last := groups[..|groups| - 1], groups[|groups| - 1];
    before := picked[..|picked| - |last|];
    TwoParts(groups, |groups| - 1);
    TwoParts(picked, |picked| - |last|);
    Pieces(keys, before, last);
    if before != [] {
      LastOfGrouping(keys, before, gap, front);
      AllFurther(keys, before, last, gap);
    }
  }

  lemma Pieces(keys: Keys, before: seq<nat>, last: seq<nat>)
    requires Rising(keys, before + last) && Ascending(before + last)
    ensures Rising(keys, before) && Ascending(before) && Rising(keys, last)
  {
    var picked := before + last;
    forall a, b | 0 <= a <= b < |before| ensures keys(before[a]) <= keys(before[b]) {
      assert keys(picked[a]) <= keys(picked[b]);
    }
    forall a, b | 0 <= a < b < |before| ensures before[a] < before[b] {
      assert picked[a] < picked[b];
    }
    forall a, b | 0 <= a <= b < |last| ensures keys(last[a]) <= keys(last[b]) {
      assert keys(picked[|before| + a]) <= keys(picked[|before| + b]);
    }
  }

  lemma AllFurther(keys: Keys, before: seq<nat>, last: seq<nat>, gap: int)
    requires Rising(keys, before + last) && Ascending(before + last) && before != [] && last != []
    requires gap < keys(last[0]) - keys(before[|before| - 1])
    ensures forall x, y | x in before && y in last :: x < y && gap < keys(y) - keys(x)
  {
    var picked := before + last;
    forall x, y | x in before && y in last ensures x < y && gap < keys(y) - keys(x) {
      var i :| 0 <= i < |before| && before[i] == x;
      var j :| 0 <= j < |last| && last[j] == y;
      assert picked[i] == x && picked[|before| + j] == y;
      assert picked[|before| - 1] == before[|before| - 1] && picked[|before|] == last[0];
    }
  }

  lemma {:induction false} TogetherArePicked(
    keys: Keys, picked: seq<nat>, gap: int, groups: seq<seq<nat>>, x: nat, y: nat)
    requires Grouping(keys, picked, gap, groups) && Rising(keys, picked) && Ascending(picked)
    ensures Together(groups, x, y) ==> x in picked && y in picked
    ensures Together(groups, x, x) <==> x in picked
    decreases |groups|
  {
    if groups != [] {
      var front, last, before := Peel(keys, picked, gap, groups);
      TogetherArePicked(keys, before, gap, front, x, y);
      TogetherSnoc(front, last, x, y);
      TogetherSnoc(front, last, x, x);
    }
  }

  lemma {:induction false} NearAreTogether(
    keys: Keys, picked: seq<nat>, gap: int, groups: seq<seq<nat>>, x: nat, y: nat)
    requires Grouping(keys, picked, gap, groups) && Rising(keys, picked) && Ascending(picked)
    requires Near(keys, picked, gap, x, y)
    ensures Together(groups, x, y)
    decreases |groups|
  {
    var front, last, before := Peel(keys, picked, gap, groups);
    TogetherSnoc(front, last, x, y);
    if x !in last || y !in last {
      assert x in before && y in before;
      NearAreTogether(keys, before, gap, front, x, y);
    }
  }

  lemma {:induction false} TogetherChains(
    keys: Keys, picked: seq<nat>, gap: int, groups: seq<seq<nat>>, x: nat, z: nat, y: nat)
    requires Grouping(keys, picked, gap, groups) && Rising(keys, picked) && Ascending(picked)
    requires Together(groups, x, z) && Together(groups, z, y)
    ensures Together(groups, x, y)
    decreases |groups|
  {
    var front, last, before := Peel(keys, picked, gap, groups);
    TogetherSnoc(front, last, x, z);
    TogetherSnoc(front, last, z, y);
    TogetherSnoc(front, last, x, y);
    TogetherArePicked(keys, before, gap, front, x, z);
    TogetherArePicked(keys, before, gap, front, z, y);
    if !(x in last && y in last) {
      assert z !in last || z !in before;
      TogetherChains(keys, before, gap, front, x, z, y);
    }
  }

  lemma {:induction false} ReachedAreTogether(
    keys: Keys, picked: seq<nat>, gap: int, groups: seq<seq<nat>>, x: nat, y: nat, n: nat)
    requires Grouping(keys, picked, gap, groups) && Rising(keys, picked) && Ascending(picked)
    requires Reaches(keys, picked, gap, x, y, n)
    ensures Together(groups, x, y)
    decreases n
  {
    if x == y && x in picked {
      TogetherArePicked(keys, picked, gap, groups, x, x);
    } else {
      var z: nat :| Reaches(keys, picked, gap, x, z, n - 1) && Near(keys, picked, gap, z, y);
      ReachedAreTogether(keys, picked, gap, groups, x, z, n - 1);
      NearAreTogether(keys, picked, gap, groups, z, y);
      TogetherChains(keys, picked, gap, groups, x, z, y);
    }
  }

  /** Along a group one gets from any member to any other, upwards and downwards. */
  lemma {:induction false} GroupIsLinked(keys: Keys, picked: seq<nat>, gap: int, g: seq<nat>, a: nat, b: nat)
    requires StepsWithin(keys, g, gap) && Rising(keys, g) && (forall x | x in g :: x in picked)
    requires a < |g| && b < |g|
    ensures Reaches(keys, picked, gap, g[a], g[b], if a <= b then b - a else a - b)
    decreases if a <= b then b - a else a - b
  {
    assert g[a] in g && g[b] in g;
    if a < b {
      GroupIsLinked(keys, picked, gap, g, a, b - 1);
      assert g[b - 1] in g && keys(g[b]) - keys(g[b - 1]) <= gap && keys(g[b - 1]) <= keys(g[b]);
      assert Near(keys, picked, gap, g[b - 1], g[b]);
    } else if b < a {
      GroupIsLinked(keys, picked, gap, g, a, b + 1);
      assert g[b + 1] in g && keys(g[b + 1]) - keys(g[b]) <= gap && keys(g[b]) <= keys(g[b + 1]);
      assert Near(keys, picked, gap, g[b + 1], g[b]);
    }
  }

  lemma {:induction false} TogetherAreLinked(
    keys: Keys, picked: seq<nat>, all: seq<nat>, gap: int, groups: seq<seq<nat>>, x: nat, y: nat)
    requires Grouping(keys, picked, gap, groups) && Rising(keys, picked) && Ascending(picked)
    requires (forall z | z in picked :: z in all) && Together(groups, x, y)
    ensures Linked(keys, all, gap, x, y)
    decreases |groups|
  {
    var front, last, before := Peel(keys, picked, gap, groups);
    TogetherSnoc(front, last, x, y);
    if x in last && y in last {
      var a :| 0 <= a < |last| && last[a] == x;
      var b :| 0 <= b < |last| && last[b] == y;
      assert forall z | z in last :: z in picked;
      GroupIsLinked(keys, all, gap, last, a, b);
    } else {
      assert forall z | z in before :: z in picked;
      TogetherAreLinked(keys, before, all, gap, front, x, y);
    }
  }

  /** The groups are the connected components: two picked positions are in one group if and only if a chain of picked
      positions, each at most `gap` from the next, links them. */
  lemma GroupsAreComponents(keys: Keys, picked: seq<nat>, gap: int, x: nat, y: nat)
    requires Rising(keys, picked) && Ascending(picked)
    ensures Together(Group(keys, picked, gap), x, y) <==> Linked(keys, picked, gap, x, y)
  {
    var groups := Group(keys, picked, gap);
    GroupIsGrouping(keys, picked, gap);
    if Linked(keys, picked, gap, x, y) {
      var n: nat :| Reaches(keys, picked, gap, x, y, n);
      ReachedAreTogether(keys, picked, gap, groups, x, y, n);
    }
    if Together(groups, x, y) {
      TogetherAreLinked(keys, picked, picked, gap, groups, x, y);
    }
  }

  /** Every picked position is in exactly one place of the groups, in order. */
  lemma {:induction false} GroupingIsPartition(keys: Keys, picked: seq<nat>, gap: int, groups: seq<seq<nat>>)
    requires Grouping(keys, picked, gap, groups)
    ensures Flat(groups) == picked
    decreases |groups|
  {
    if groups != [] {
      var last := groups[|groups| - 1];
      GroupingIsPartition(keys, picked[..|picked| - |last|], gap, groups[..|groups| - 1]);
    }
  }

  lemma {:induction false} MembersArePicked(
    keys: Keys, picked: seq<nat>, gap: int, groups: seq<seq<nat>>, i: nat, x: nat)
    requires Grouping(keys, picked, gap, groups) && i < |groups| && x in groups[i]
    ensures x in picked
    decreases |groups|
  {
    var last := groups[|groups| - 1];
    if i < |groups| - 1 {
      MembersArePicked(keys, picked[..|picked| - |last|], gap, groups[..|groups| - 1], i, x);
    }
  }

  /** Whatever is in an earlier group is more than the gap below whatever is in a later one. */
  lemma {:induction false} GroupsAreFarApart(
    keys: Keys, picked: seq<nat>, gap: int, groups: seq<seq<nat>>, i: nat, j: nat, x: nat, y: nat)
    requires Grouping(keys, picked, gap, groups) && Rising(keys, picked) && Ascending(picked)
    requires i < j < |groups| && x in groups[i] && y in groups[j]
    ensures x < y && gap < keys(y) - keys(x)
    decreases |groups|
  {
    var front, last, before := Peel(keys, picked, gap, groups);
    if j == |front| {
      MembersArePicked(keys, before, gap, front, i, x);
    } else {
      GroupsAreFarApart(keys, before, gap, front, i, j, x, y);
    }
  }
}
