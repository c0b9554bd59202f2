/** Which failing steps failed a module: clusters of failing steps, the part of them outside the post-fail hook, the
    retries of the same failure, and the step to blame. A step is known by its position in the module's details. */
module FailingCluster {
  import opened PyText
  import opened Ordered
  import opened Proximity

  /** A step of a module, with what the code reads off its texts. */
  datatype Step = Step(
    num: int,
    failed: bool,               // its result is "fail"
    hasText: bool,
    postMarker: bool,           // the step that opens the post-fail hook
    hookDied: bool,             // its text has `# Post fail hook died`
    testDied: bool,             // its text has `# Test died:`
    key: string,                // its normalised failure text
    command: Option<string>,    // the command its texts name
    isNoise: bool,
    ranCommand: bool)

  type Details = seq<Step>

  const GAP := 5

  function Num(details: Details, i: nat): int {
    if i < |details| then details[i].num else 0
  }

  function Nums(details: Details): Keys {
    (i: nat) => Num(details, i)
  }

  function HasFailed(details: Details): nat -> bool {
    (i: nat) => i < |details| && details[i].failed
  }

  /** The failing ones of the first `n` steps. */
  function Fails(details: Details, n: nat): seq<nat> {
    Passing(n, HasFailed(details))
  }

  function Clusters(details: Details, gap: int): seq<seq<nat>> {
    Group(Nums(details), Fails(details, |details|), gap)
  }

  /** `details` must be sorted by num (`extract_failed_modules` sorts them). */
  ghost predicate Sorted(details: Details) {
    forall i, j | 0 <= i <= j < |details| :: details[i].num <= details[j].num
  }

  lemma FailsAre(details: Details, n: nat)
    ensures Ascending(Fails(details, n))
    ensures forall i: nat :: i in Fails(details, n) <==> i < n && i < |details| && details[i].failed
    ensures Sorted(details) ==> Rising(Nums(details), Fails(details, n))
  {
    var fails := Fails(details, n);
    PassingAre(n, HasFailed(details));
    if Sorted(details) {
      forall a, b | 0 <= a <= b < |fails| ensures Nums(details)(fails[a]) <= Nums(details)(fails[b]) {
        assert fails[a] in fails && fails[b] in fails;
      }
    }
  }

  lemma LastIsFail(details: Details, n: nat, gap: int)
    requires n <= |details|
    ensures var clusters := Group(Nums(details), Fails(details, n), gap);
      clusters != [] ==> clusters[|clusters| - 1] != [] && LastOf(clusters) < n
  {
    var fails := Fails(details, n);
    NewestIsLast(Nums(details), fails, gap);
    FailsAre(details, n);
    if fails != [] {
      assert fails[|fails| - 1] in fails;
    }
  }

  /** The clusters of the first `i` steps. */
  ghost predicate ClustersOf(details: Details, gap: int, i: nat, clusters: seq<seq<nat>>) {
    clusters == Group(Nums(details), Fails(details, i), gap)
  }

  /** One more failing step, as the loop adds it. */
  function Appended(details: Details, clusters: seq<seq<nat>>, i: nat, gap: int): seq<seq<nat>>
    requires i < |details| && (clusters != [] ==> LastOf(clusters) < |details|)
  {
    if clusters != [] && details[i].num - details[LastOf(clusters)].num <= gap
    then clusters[..|clusters| - 1] + [clusters[|clusters| - 1] + [i]]
    else clusters + [[i]]
  }

  lemma NextStep(details: Details, gap: int, i: nat, clusters: seq<seq<nat>>)
    requires ClustersOf(details, gap, i, clusters) && i < |details|
    ensures clusters != [] ==> clusters[|clusters| - 1] != [] && LastOf(clusters) < i
    ensures !details[i].failed ==> ClustersOf(details, gap, i + 1, clusters)
    ensures details[i].failed ==> ClustersOf(details, gap, i + 1, Appended(details, clusters, i, gap))
  {
    LastIsFail(details, i, gap);
    PassingStep(i, HasFailed(details));
    if details[i].failed {
      GroupSnoc(Nums(details), Fails(details, i), i, gap);
    }
  }

  /** `group_failures_by_proximity`. */
  method GroupFailuresByProximity(details: Details, gap: int) returns (clusters: seq<seq<nat>>)
    ensures clusters == Clusters(details, gap)
  {
    clusters := [];
    for i := 0 to |details|
      invariant ClustersOf(details, gap, i, clusters)
    {
      NextStep(details, gap, i, clusters);
      if details[i].failed {
        ghost var next := Appended(details, clusters, i, gap);
        if clusters != [] && details[i].num - details[LastOf(clusters)].num <= gap {
          clusters := clusters[..|clusters| - 1] + [clusters[|clusters| - 1] + [i]];
          assert clusters == next;
        } else {
          clusters := clusters + [[i]];
          assert clusters == next;
        }
      }
    }
  }

  /** Two failing steps share a cluster if and only if a chain of failing steps, each at most `gap` away from the
      next, links them; and the clusters are the only ones with the failing steps in order, cut at each larger gap. */
  lemma ClustersAreComponents(details: Details, gap: int, x: nat, y: nat)
    requires Sorted(details)
    ensures Together(Clusters(details, gap), x, y) <==> Linked(Nums(details), Fails(details, |details|), gap, x, y)
    ensures Flat(Clusters(details, gap)) == Fails(details, |details|)
    ensures forall other | Grouping(Nums(details), Fails(details, |details|), gap, other) ::
      other == Clusters(details, gap)
  {
    var keys, fails := Nums(details), Fails(details, |details|);
    FailsAre(details, |details|);
    GroupsAreComponents(keys, fails, gap, x, y);
    GroupIsGrouping(keys, fails, gap);
    GroupingIsPartition(keys, fails, gap, Clusters(details, gap));
    forall other | Grouping(keys, fails, gap, other) ensures other == Clusters(details, gap) {
      OnlyOneGrouping(keys, fails, gap, other, Clusters(details, gap));
    }
  }

  // ---------------------------------------------------------------- outside the post-fail hook

  /** `post_fail_start`. */
  function PostFailStart(details: Details): Option<int> {
    if details == [] then None
    else
      var rest, last := PostFailStart(details[..|details| - 1]), details[|details| - 1];
      if last.postMarker && (rest.None? || last.num < rest.value) then Some(last.num) else rest
  }

  lemma {:induction false} PostFailStartIsTheFirst(details: Details)
    ensures PostFailStart(details).None? <==> forall s | s in details :: !s.postMarker
    ensures PostFailStart(details).Some? ==>
      && (exists s :: s in details && s.postMarker && s.num == PostFailStart(details).value)
      && (forall s | s in details && s.postMarker :: PostFailStart(details).value <= s.num)
  {
    if details != [] {
      var n := |details| - 1;
      PostFailStartIsTheFirst(details[..n]);
      assert details == details[..n] + [details[n]];
    }
  }

  predicate Secondary(s: Step, postStart: Option<int>) {
    s.hookDied || (postStart.Some? && postStart.value < s.num)
  }

  predicate IsPrimary(details: Details, i: nat) {
    i < |details| && !Secondary(details[i], PostFailStart(details))
  }

  /** The test itself failed at step `i`, not its post-fail hook: the step says nothing of the hook's death, and comes
      no later than any step that opens the hook. */
  ghost predicate TestFailed(details: Details, i: nat) {
    && i < |details| && details[i].failed && !details[i].hookDied
    && forall s | s in details && s.postMarker :: details[i].num <= s.num
  }

  lemma PrimaryIsOutsideTheHook(details: Details, i: nat)
    requires i < |details| && details[i].failed
    ensures IsPrimary(details, i) <==> TestFailed(details, i)
  {
    PostFailStartIsTheFirst(details);
  }

  function Primary(details: Details, cluster: seq<nat>): seq<nat> {
    if cluster == [] then []
    else
      var i := cluster[|cluster| - 1];
      Primary(details, cluster[..|cluster| - 1]) + if IsPrimary(details, i) then [i] else []
  }

  function PrimaryClusters(details: Details, clusters: seq<seq<nat>>): seq<seq<nat>> {
    if clusters == [] then []
    else
      var c := Primary(details, clusters[|clusters| - 1]);
      PrimaryClusters(details, clusters[..|clusters| - 1]) + if c != [] then [c] else []
  }

  lemma {:induction false} PrimaryConcat(details: Details, a: seq<nat>, b: seq<nat>)
    ensures Primary(details, a + b) == Primary(details, a) + Primary(details, b)
    decreases |b|
  {
    if b == [] {
      assert a + b == a;
    } else {
      var less, i := b[..|b| - 1], b[|b| - 1];
      PrimaryConcat(details, a, less);
      assert (a + b)[..|a + b| - 1] == a + less;
      Associative(Primary(details, a), Primary(details, less), if IsPrimary(details, i) then [i] else []);
    }
  }

  lemma {:induction false} PrimaryIs(details: Details, cluster: seq<nat>)
    ensures forall i :: i in Primary(details, cluster) <==> i in cluster && IsPrimary(details, i)
    ensures Ascending(cluster) ==> Ascending(Primary(details, cluster))
  {
    if cluster != [] {
      var n := |cluster| - 1;
      PrimaryIs(details, cluster[..n]);
      assert cluster == cluster[..n] + [cluster[n]];
      var before, c := Primary(details, cluster[..n]), Primary(details, cluster);
      if Ascending(cluster) {
        forall a, b | 0 <= a < b < |c| ensures c[a] < c[b] {
          assert c[a] in before;
          assert b < |before| ==> c[b] in before;
        }
      }
    }
  }

  lemma {:induction false} PrimaryFlat(details: Details, clusters: seq<seq<nat>>)
    ensures Flat(PrimaryClusters(details, clusters)) == Primary(details, Flat(clusters))
  {
    if clusters != [] {
      var front, last := clusters[..|clusters| - 1], clusters[|clusters| - 1];
      PrimaryFlat(details, front);
      PrimaryConcat(details, Flat(front), last);
      if Primary(details, last) != [] {
        FlatSnoc(PrimaryClusters(details, front), Primary(details, last));
      } else {
        assert PrimaryClusters(details, clusters) == PrimaryClusters(details, front);
      }
    }
  }

  // ---------------------------------------------------------------- retries of the same failure

  type KeySet = set<string>

  function KeysOf(details: Details, cluster: seq<nat>): KeySet {
    set i | i in cluster && i < |details| :: details[i].key
  }

  function KeySets(details: Details, clusters: seq<seq<nat>>): seq<KeySet> {
    seq(|clusters|, k requires 0 <= k < |clusters| => KeysOf(details, clusters[k]))
  }

  function FirstNum(details: Details, cluster: seq<nat>): int {
    if cluster == [] then 0 else Num(details, cluster[0])
  }

  predicate IsLast(ks: seq<KeySet>, c: nat) {
    c < |ks| && forall d | c < d < |ks| :: ks[d] != ks[c]
  }

  /** A cluster and the first numbers of its earlier retries. */
  type Collapsed = (seq<nat>, seq<int>)

  function FirstNums(details: Details, clusters: seq<seq<nat>>, places: seq<nat>): seq<int> {
    seq(|places|, k requires 0 <= k < |places| =>
      FirstNum(details, if places[k] < |clusters| then clusters[places[k]] else []))
  }

  /** Of the first `n` clusters those that are the last with their failures, with their earlier retries. */
  function CollapsedUpTo(details: Details, clusters: seq<seq<nat>>, n: nat): seq<Collapsed>
    requires n <= |clusters|
  {
    if n == 0 then []
    else
      var ks := KeySets(details, clusters);
      CollapsedUpTo(details, clusters, n - 1) +
      if IsLast(ks, n - 1)
      then [(clusters[n - 1], FirstNums(details, clusters, Places(ks[..n - 1], ks[n - 1])))] else []
  }

  function CollapsedOf(details: Details, clusters: seq<seq<nat>>): seq<Collapsed> {
    CollapsedUpTo(details, clusters, |clusters|)
  }

  /** The last place of a key set is where the cluster is that stands for it, the places before are its retries. */
  lemma {:induction false} LastPlace(ks: seq<KeySet>, c: nat)
    requires c < |ks|
    ensures var places := Places(ks, ks[c]);
      && places != []
      && (places[|places| - 1] == c <==> IsLast(ks, c))
      && (IsLast(ks, c) ==> places[..|places| - 1] == Places(ks[..c], ks[c]))
  {
    var key, n := ks[c], |ks| - 1;
    if ks[n] == key {
      if c == n {
        assert Places(ks, key)[..|Places(ks, key)| - 1] == Places(ks[..n], key);
      }
    } else {
      LastPlace(ks[..n], c);
      assert ks[..n][..c] == ks[..c];
      assert IsLast(ks, c) <==> IsLast(ks[..n], c);
      assert Places(ks, key) == Places(ks[..n], key);
    }
  }

  ghost predicate Collects(details: Details, clusters: seq<seq<nat>>, c: nat, r: seq<Collapsed>) {
    c <= |clusters| && r == CollapsedUpTo(details, clusters, c)
  }

  lemma NextCollapsed(details: Details, clusters: seq<seq<nat>>, c: nat, r: seq<Collapsed>, group: seq<nat>)
    requires Collects(details, clusters, c, r) && c < |clusters|
    requires group == Places(KeySets(details, clusters), KeysOf(details, clusters[c]))
    ensures group != []
    ensures var nums := FirstNums(details, clusters, group[..|group| - 1]);
      Collects(details, clusters, c + 1, if group[|group| - 1] == c then r + [(clusters[c], nums)] else r)
  {
    var ks := KeySets(details, clusters);
    assert ks[c] == KeysOf(details, clusters[c]);
    LastPlace(ks, c);
    assert r + [] == r;
  }

  /** `collapse_repeated_clusters`, with its dictionaries: the places of each key set, then the last of each. */
  method CollapseRepeatedClusters(details: Details, clusters: seq<seq<nat>>) returns (r: seq<Collapsed>)
    ensures r == CollapsedOf(details, clusters)
  {
    ghost var ks := KeySets(details, clusters);
    var groups: map<KeySet, seq<nat>> := map[];
    for c := 0 to |clusters|
      invariant HoldsPlaces(ks[..c], groups)
    {
      var key := KeysOf(details, clusters[c]);
      assert ks[..c + 1] == ks[..c] + [key];
      AppendHoldsPlaces(ks[..c], key, groups);
      groups := SetDefaultAppend(groups, key, c);
    }
    assert ks[..|clusters|] == ks;
    r := [];
    for c := 0 to |clusters|
      invariant Collects(details, clusters, c, r)
    {
      assert ks[c] == KeysOf(details, clusters[c]) && ks[c] in ks;
      var group := groups[KeysOf(details, clusters[c])];
      NextCollapsed(details, clusters, c, r, group);
      if group[|group| - 1] == c {
        r := r + [(clusters[c], FirstNums(details, clusters, group[..|group| - 1]))];
      }
    }
  }

  // ---------------------------------------------------------------- how many clusters the collapsed ones stand for

  function Attempts(r: seq<Collapsed>): nat {
    if r == [] then 0 else Attempts(r[..|r| - 1]) + 1 + |r[|r| - 1].1|
  }

  /** How often the key set of place `c` occurs from place `lo` up to `c`. */
  function Occurrences(ks: seq<KeySet>, lo: nat, c: nat): nat
    requires c < |ks|
    decreases c - lo
  {
    if c < lo then 0
    else (if lo == c || ks[lo] == ks[c] then 1 else 0) + if lo < c then Occurrences(ks, lo + 1, c) else 0
  }

  /** The occurrences since `lo` that the last places before `n` stand for. */
  function StoodFor(ks: seq<KeySet>, lo: nat, n: nat): nat
    requires n <= |ks|
  {
    if n == 0 then 0 else StoodFor(ks, lo, n - 1) + if IsLast(ks, n - 1) then Occurrences(ks, lo, n - 1) else 0
  }

  lemma {:induction false} StoodForOneMore(ks: seq<KeySet>, lo: nat, n: nat)
    requires lo < n <= |ks|
    ensures StoodFor(ks, lo, n) ==
      StoodFor(ks, lo + 1, n) + if exists c | lo <= c < n :: ks[c] == ks[lo] && IsLast(ks, c) then 1 else 0
    decreases n
  {
    if n == lo + 1 {
      NoneBefore(ks, lo, lo);
      NoneBefore(ks, lo + 1, lo);
    } else {
      StoodForOneMore(ks, lo, n - 1);
    }
  }

  lemma {:induction false} NoneBefore(ks: seq<KeySet>, lo: nat, n: nat)
    requires n <= lo && n <= |ks|
    ensures StoodFor(ks, lo, n) == 0
  {
    if n > 0 {
      NoneBefore(ks, lo, n - 1);
    }
  }

  lemma {:induction false} SomeLast(ks: seq<KeySet>, lo: nat) returns (c: nat)
    requires lo < |ks|
    ensures lo <= c < |ks| && ks[c] == ks[lo] && IsLast(ks, c)
    decreases |ks| - lo
  {
    if IsLast(ks, lo) {
      c := lo;
    } else {
      var d :| lo < d < |ks| && ks[d] == ks[lo];
      c := SomeLast(ks, d);
    }
  }

  lemma {:induction false} AllStoodFor(ks: seq<KeySet>, lo: nat)
    requires lo <= |ks|
    ensures StoodFor(ks, lo, |ks|) == |ks| - lo
    decreases |ks| - lo
  {
    if lo == |ks| {
      NoneBefore(ks, lo, |ks|);
    } else {
      AllStoodFor(ks, lo + 1);
      StoodForOneMore(ks, lo, |ks|);
      var c := SomeLast(ks, lo);
    }
  }

  lemma {:induction false} OccurrencesArePlaces(ks: seq<KeySet>, lo: nat, c: nat)
    requires lo <= c < |ks|
    ensures Occurrences(ks, lo, c) + |Places(ks[..lo], ks[c])| == |Places(ks[..c], ks[c])| + 1
    decreases c - lo
  {
    if lo < c {
      assert ks[..lo + 1] == ks[..lo] + [ks[lo]];
      PlacesSnoc(ks[..lo], ks[lo], ks[c]);
      OccurrencesArePlaces(ks, lo + 1, c);
    }
  }

  lemma {:induction false} AttemptsUpTo(details: Details, clusters: seq<seq<nat>>, n: nat)
    requires n <= |clusters|
    ensures Attempts(CollapsedUpTo(details, clusters, n)) == StoodFor(KeySets(details, clusters), 0, n)
  {
    if n > 0 {
      var ks := KeySets(details, clusters);
      AttemptsUpTo(details, clusters, n - 1);
      OccurrencesArePlaces(ks, 0, n - 1);
      var before, r := CollapsedUpTo(details, clusters, n - 1), CollapsedUpTo(details, clusters, n);
      if IsLast(ks, n - 1) {
        assert r[..|r| - 1] == before;
      } else {
        assert r == before;
      }
    }
  }

  /** Every cluster is either kept or a retry of exactly one that is. */
  lemma CollapseCountsAll(details: Details, clusters: seq<seq<nat>>)
    ensures Attempts(CollapsedOf(details, clusters)) == |clusters|
  {
    AttemptsUpTo(details, clusters, |clusters|);
    AllStoodFor(KeySets(details, clusters), 0);
  }

  /** One kept cluster per key set: of two places with the same failures only the later can be kept. */
  lemma OneKeptPerKeySet(ks: seq<KeySet>, c: nat)
    requires c < |ks|
    ensures exists d | c <= d < |ks| :: IsLast(ks, d) && ks[d] == ks[c]
    ensures forall d: nat, e: nat | d < |ks| && e < |ks| && IsLast(ks, d) && IsLast(ks, e) && ks[d] == ks[e] :: d == e
  {
    var d := SomeLast(ks, c);
  }

  // ---------------------------------------------------------------- the cluster that failed the module

  /** `failing_cluster`. */
  method FailingCluster(details: Details) returns (r: Option<Collapsed>)
    ensures r == FailingClusterOf(details)
  {
    var clusters := GroupFailuresByProximity(details, GAP);
    var collapsed := CollapseRepeatedClusters(details, PrimaryClusters(details, clusters));
    r := if collapsed == [] then None else Some(collapsed[|collapsed| - 1]);
  }

  function FailingClusterOf(details: Details): Option<Collapsed> {
    var collapsed := CollapsedOf(details, PrimaryClusters(details, Clusters(details, GAP)));
    if collapsed == [] then None else Some(collapsed[|collapsed| - 1])
  }

  lemma LastIsKept(details: Details, clusters: seq<seq<nat>>)
    ensures var r := CollapsedOf(details, clusters);
      if clusters == [] then r == []
      else
        var n, ks := |clusters| - 1, KeySets(details, clusters);
        r != [] && r[|r| - 1] == (clusters[n], FirstNums(details, clusters, Places(ks[..n], ks[n])))
  {
  }

  function HasPrimary(details: Details, clusters: seq<seq<nat>>): nat -> bool {
    (m: nat) => m < |clusters| && Primary(details, clusters[m]) != []
  }

  lemma {:induction false} PrimaryClustersAre(details: Details, clusters: seq<seq<nat>>, n: nat)
    requires n <= |clusters|
    ensures var cs, ms := PrimaryClusters(details, clusters[..n]), Passing(n, HasPrimary(details, clusters));
      && |cs| == |ms|
      && forall q | 0 <= q < |cs| :: ms[q] < n && cs[q] != [] && cs[q] == Primary(details, clusters[ms[q]])
  {
    if 0 < n {
      PrimaryClustersAre(details, clusters, n - 1);
      assert clusters[..n][..n - 1] == clusters[..n - 1];
    }
  }

  /** `c` are the steps of `cluster` at which the test failed, in order. */
  ghost predicate TestPart(details: Details, cluster: seq<nat>, c: seq<nat>) {
    Ascending(c) && forall i: nat :: i in c <==> i in cluster && TestFailed(details, i)
  }

  /** The parts of these clusters, the clusters at `ms`; no others have one. */
  ghost predicate TestParts(details: Details, clusters: seq<seq<nat>>, ms: seq<nat>, cs: seq<seq<nat>>) {
    && Ascending(ms) && |cs| == |ms|
    && (forall q | 0 <= q < |ms| :: ms[q] < |clusters| && cs[q] != [] && TestPart(details, clusters[ms[q]], cs[q]))
    && forall m: nat, i: nat | m < |clusters| && m !in ms && i in clusters[m] :: !TestFailed(details, i)
  }

  /** The same failure texts. */
  ghost predicate SameFailures(details: Details, a: seq<nat>, b: seq<nat>) {
    forall key: string :: FailsWith(details, a, key) <==> FailsWith(details, b, key)
  }

  predicate FailsWith(details: Details, c: seq<nat>, key: string) {
    exists i | i in c :: i < |details| && details[i].key == key
  }

  /** `retries` are the first nums of the clusters at `places`, which are those before the last one that failed as it
      did. */
  ghost predicate RetriesAt(details: Details, cs: seq<seq<nat>>, places: seq<nat>, retries: seq<int>)
    requires cs != []
  {
    var n := |cs| - 1;
    && Ascending(places) && |retries| == |places|
    && (forall j: nat :: j in places <==> j < n && SameFailures(details, cs[j], cs[n]))
    && forall q | 0 <= q < |places| :: places[q] < n && StartsAt(details, cs[places[q]], retries[q])
  }

  ghost predicate StartsAt(details: Details, c: seq<nat>, num: int) {
    c != [] && c[0] < |details| && num == details[c[0]].num
  }

  lemma KeysAreFailures(details: Details, a: seq<nat>, b: seq<nat>)
    ensures KeysOf(details, a) == KeysOf(details, b) <==> SameFailures(details, a, b)
  {
    forall key ensures key in KeysOf(details, a) <==> FailsWith(details, a, key) {
    }
    forall key ensures key in KeysOf(details, b) <==> FailsWith(details, b, key) {
    }
  }

  lemma PrimaryClustersAreParts(details: Details, clusters: seq<seq<nat>>)
    requires Flat(clusters) == Fails(details, |details|)
    ensures TestParts(details, clusters, Passing(|clusters|, HasPrimary(details, clusters)),
                      PrimaryClusters(details, clusters))
  {
    var ms := Passing(|clusters|, HasPrimary(details, clusters));
    assert clusters[..|clusters|] == clusters;
    PrimaryClustersAre(details, clusters, |clusters|);
    PassingAre(|clusters|, HasPrimary(details, clusters));
    forall m: nat | m < |clusters| ensures TestPart(details, clusters[m], Primary(details, clusters[m])) {
      ClusterIsPart(details, clusters, m);
    }
    forall m: nat, i: nat | m < |clusters| && m !in ms && i in clusters[m] ensures !TestFailed(details, i) {
      assert Primary(details, clusters[m]) == [];
      assert TestPart(details, clusters[m], []) && i !in [];
    }
  }

  lemma ClustersHoldFails(details: Details)
    ensures Flat(Clusters(details, GAP)) == Fails(details, |details|)
  {
    FailsAre(details, |details|);
    GroupIsGrouping(Nums(details), Fails(details, |details|), GAP);
    GroupingIsPartition(Nums(details), Fails(details, |details|), GAP, Clusters(details, GAP));
  }

  lemma ClusterIsPart(details: Details, clusters: seq<seq<nat>>, m: nat)
    requires m < |clusters| && Flat(clusters) == Fails(details, |details|)
    ensures TestPart(details, clusters[m], Primary(details, clusters[m]))
  {
    FailsAre(details, |details|);
    PartOfFlat(clusters, m);
    PrimaryIs(details, clusters[m]);
    forall i: nat | i in clusters[m] ensures IsPrimary(details, i) <==> TestFailed(details, i) {
      PrimaryIsOutsideTheHook(details, i);
    }
  }

  lemma {:induction false} PartOfFlat(clusters: seq<seq<nat>>, m: nat)
    requires m < |clusters| && Ascending(Flat(clusters))
    ensures Ascending(clusters[m]) && forall i | i in clusters[m] :: i in Flat(clusters)
  {
    var n := |clusters| - 1;
    AscendingParts(Flat(clusters[..n]), clusters[n]);
    if m < n {
      PartOfFlat(clusters[..n], m);
    }
  }

  lemma AscendingParts(a: seq<nat>, b: seq<nat>)
    requires Ascending(a + b)
    ensures Ascending(a) && Ascending(b) && (forall x | x in a :: x in a + b) && forall x | x in b :: x in a + b
  {
    forall i, j | 0 <= i < j < |a| ensures a[i] < a[j] {
      assert (a + b)[i] < (a + b)[j];
    }
    forall i, j | 0 <= i < j < |b| ensures b[i] < b[j] {
      assert (a + b)[|a| + i] < (a + b)[|a| + j];
    }
  }

  lemma {:induction false} FlatIsEmpty(clusters: seq<seq<nat>>)
    requires forall k | 0 <= k < |clusters| :: clusters[k] != []
    ensures Flat(clusters) == [] <==> clusters == []
  {
  }

  lemma {:induction false} PrimaryClustersAreNotEmpty(details: Details, clusters: seq<seq<nat>>)
    ensures forall k | 0 <= k < |PrimaryClusters(details, clusters)| :: PrimaryClusters(details, clusters)[k] != []
  {
    if clusters != [] {
      PrimaryClustersAreNotEmpty(details, clusters[..|clusters| - 1]);
    }
  }

  /** The test failed at step `i` for the last time. */
  ghost predicate LastFailure(details: Details, i: nat) {
    TestFailed(details, i) && forall j: nat | i < j :: !TestFailed(details, j)
  }

  lemma {:induction false} LastIsMost(s: seq<nat>)
    requires s != [] && Ascending(s)
    ensures forall x | x in s :: x <= s[|s| - 1]
  {
  }

  /** The clusters hold the primary failing steps, in order. */
  ghost predicate HoldPrimary(details: Details, cs: seq<seq<nat>>, primary: seq<nat>) {
    && Flat(cs) == primary && Ascending(primary)
    && (forall i: nat :: i in primary <==> TestFailed(details, i))
    && (cs == [] <==> primary == []) && forall k | 0 <= k < |cs| :: cs[k] != []
  }

  /** The test failed at these steps, in order, and at the last of them for the last time. */
  ghost predicate EndsPrimary(details: Details, c: seq<nat>) {
    c != [] && Ascending(c) && LastFailure(details, c[|c| - 1]) && forall i | i in c :: TestFailed(details, i)
  }

  lemma LastOfAllIsLastPrimary(details: Details, cs: seq<seq<nat>>, primary: seq<nat>)
    requires cs != [] && HoldPrimary(details, cs, primary)
    ensures EndsPrimary(details, cs[|cs| - 1])
  {
    var c, last := cs[|cs| - 1], LastOf(cs);
    AscendingParts(Flat(cs[..|cs| - 1]), c);
    assert forall i | i in c :: i in primary;
    assert primary[|primary| - 1] == last;
    LastIsMost(primary);
    assert last in primary;
    forall j: nat | last < j ensures !TestFailed(details, j) {
      assert j !in primary;
    }
  }

  lemma PrimaryAreAll(details: Details)
    ensures var primary := Primary(details, Fails(details, |details|));
      Ascending(primary) && forall i: nat :: i in primary <==> TestFailed(details, i)
  {
    var fails := Fails(details, |details|);
    FailsAre(details, |details|);
    PrimaryIs(details, fails);
    forall i: nat | i in fails ensures IsPrimary(details, i) <==> TestFailed(details, i) {
      PrimaryIsOutsideTheHook(details, i);
    }
  }

  /** All primary failing steps, in order, are what the primary clusters hold. */
  lemma PrimaryStepsInClusters(details: Details)
    ensures HoldPrimary(details, PrimaryClusters(details, Clusters(details, GAP)),
                        Primary(details, Fails(details, |details|)))
  {
    ClustersHoldFails(details);
    PrimaryAreAll(details);
    PartsHoldPrimary(details, Clusters(details, GAP), Fails(details, |details|));
  }

  lemma PartsHoldPrimary(details: Details, clusters: seq<seq<nat>>, fails: seq<nat>)
    requires Flat(clusters) == fails && Ascending(Primary(details, fails))
    requires forall i: nat :: i in Primary(details, fails) <==> TestFailed(details, i)
    ensures HoldPrimary(details, PrimaryClusters(details, clusters), Primary(details, fails))
  {
    PrimaryFlat(details, clusters);
    PrimaryClustersAreNotEmpty(details, clusters);
    FlatIsEmpty(PrimaryClusters(details, clusters));
  }

  /** There is no failing cluster if and only if the test failed nowhere but in its post-fail hook. */
  lemma NoFailingCluster(details: Details)
    ensures FailingClusterOf(details).None? <==> forall i: nat :: !TestFailed(details, i)
  {
    var cs, primary := PrimaryClusters(details, Clusters(details, GAP)), Primary(details, Fails(details, |details|));
    PrimaryStepsInClusters(details);
    LastIsKept(details, cs);
    if cs == [] {
      forall i: nat ensures !TestFailed(details, i) {
        assert i !in primary;
      }
    } else {
      assert primary[0] in primary;
    }
  }

  lemma LastCollapsed(details: Details, c: seq<nat>, retries: seq<int>)
    requires FailingClusterOf(details) == Some((c, retries))
    ensures var cs := PrimaryClusters(details, Clusters(details, GAP));
      && cs != [] && c == cs[|cs| - 1]
      && var ks, n := KeySets(details, cs), |cs| - 1;
         retries == FirstNums(details, cs, Places(ks[..n], ks[n]))
  {
    LastIsKept(details, PrimaryClusters(details, Clusters(details, GAP)));
  }

  lemma RetriesAreAt(details: Details, cs: seq<seq<nat>>)
    requires cs != [] && forall q | 0 <= q < |cs| :: cs[q] != [] && cs[q][0] < |details|
    ensures var ks, n := KeySets(details, cs), |cs| - 1;
      var places := Places(ks[..n], ks[n]);
      RetriesAt(details, cs, places, FirstNums(details, cs, places))
  {
    var ks, n := KeySets(details, cs), |cs| - 1;
    var places := Places(ks[..n], ks[n]);
    PlacesAre(ks[..n], ks[n]);
    forall j: nat ensures j in places <==> j < n && SameFailures(details, cs[j], cs[n]) {
      if j < n {
        KeysAreFailures(details, cs[j], cs[n]);
      }
    }
    forall q | 0 <= q < |places| ensures places[q] < n {
      assert places[q] in places;
    }
  }

  lemma LastPartEnds(details: Details, cs: seq<seq<nat>>) returns (ms: seq<nat>)
    requires cs == PrimaryClusters(details, Clusters(details, GAP)) && cs != []
    ensures EndsPrimary(details, cs[|cs| - 1]) && TestParts(details, Clusters(details, GAP), ms, cs)
    ensures forall q | 0 <= q < |cs| :: cs[q] != [] && cs[q][0] < |details|
  {
    ms := Passing(|Clusters(details, GAP)|, HasPrimary(details, Clusters(details, GAP)));
    PrimaryStepsInClusters(details);
    LastOfAllIsLastPrimary(details, cs, Primary(details, Fails(details, |details|)));
    ClustersHoldFails(details);
    PrimaryClustersAreParts(details, Clusters(details, GAP));
    forall q | 0 <= q < |cs| ensures cs[q] != [] && cs[q][0] < |details| {
      assert cs[q][0] in cs[q] && TestFailed(details, cs[q][0]);
    }
  }

  /** Otherwise it is the last part of a proximity cluster at which the test failed; it ends where the test failed for
      the last time, and its retries are the first nums of all earlier parts that failed with the same texts, in
      order. */
  lemma FailingClusterIs(details: Details, c: seq<nat>, retries: seq<int>)
    returns (ms: seq<nat>, cs: seq<seq<nat>>, places: seq<nat>)
    requires FailingClusterOf(details) == Some((c, retries))
    ensures EndsPrimary(details, c)
    ensures TestParts(details, Clusters(details, GAP), ms, cs) && cs != [] && c == cs[|cs| - 1]
    ensures RetriesAt(details, cs, places, retries)
  {
    LastCollapsed(details, c, retries);
    cs := PrimaryClusters(details, Clusters(details, GAP));
    ms := LastPartEnds(details, cs);
    RetriesAreAt(details, cs);
    places := Places(KeySets(details, cs)[..|cs| - 1], KeySets(details, cs)[|cs| - 1]);
  }

  // ---------------------------------------------------------------- the failed modules of a job

  datatype Module = Module(failed: bool, details: Details)

  function ByNum(details: Details): Rank {
    (i: nat) => (Num(details, i), 0)
  }

  /** The order into which the steps of a module are sorted, by num. */
  function StepOrder(details: Details): (r: seq<nat>)
    ensures forall k | 0 <= k < |r| :: r[k] < |details|
  {
    UpToIs(|details|);
    SortedIs(UpTo(|details|), ByNum(details));
    var r := SortedBy(UpTo(|details|), ByNum(details));
    assert forall k | 0 <= k < |r| :: r[k] in r;
    r
  }

  function SortSteps(details: Details): Details {
    var order := StepOrder(details);
    seq(|order|, k requires 0 <= k < |order| => details[order[k]])
  }

  /** The order holds every step once: by num, and as before where nums are equal. */
  lemma StepOrderIs(details: Details)
    ensures InRank(StepOrder(details), ByNum(details)) && |StepOrder(details)| == |details|
    ensures forall i: nat :: i in StepOrder(details) <==> i < |details|
  {
    UpToIs(|details|);
    SortedIs(UpTo(|details|), ByNum(details));
  }

  lemma SortKeepsSteps(details: Details)
    ensures multiset(SortSteps(details)) == multiset(details)
  {
    var order := StepOrder(details);
    assert order == SortedBy(UpTo(|details|), ByNum(details));
    SortedSame(SortSteps(details), details, ByNum(details));
  }

  lemma SortedByNum(details: Details)
    ensures Sorted(SortSteps(details))
  {
    StepOrderIs(details);
    var order := StepOrder(details);
    forall a, b | 0 <= a <= b < |order| ensures details[order[a]].num <= details[order[b]].num {
      if a < b {
        assert Precedes(ByNum(details), order[a], order[b]);
      }
    }
  }

  /** The sorted steps are the same ones, and do not fall in num. */
  lemma SortStepsSorts(details: Details)
    ensures Sorted(SortSteps(details)) && multiset(SortSteps(details)) == multiset(details)
  {
    SortedByNum(details);
    SortKeepsSteps(details);
  }

  /** The smallest num of a failing step. */
  function FirstFail(details: Details): (r: Option<int>)
    ensures r.None? <==> forall i | 0 <= i < |details| :: !details[i].failed
    ensures r.Some? ==> forall i | 0 <= i < |details| && details[i].failed :: r.value <= details[i].num
    ensures r.Some? ==> exists i | 0 <= i < |details| :: details[i].failed && details[i].num == r.value
  {
    if details == [] then None
    else
      var n := |details| - 1;
      var r := FirstFail(details[..n]);
      if details[n].failed && (r.None? || details[n].num < r.value) then Some(details[n].num) else r
  }

  function IsFailedModule(modules: seq<Module>): nat -> bool {
    (i: nat) => i < |modules| && modules[i].failed
  }

  /** `_first_fail_num` as a sort key: infinite for a module without a failing step. */
  function ByFirstFail(modules: seq<Module>): Rank {
    (i: nat) =>
      var first := if i < |modules| then FirstFail(modules[i].details) else None;
      if first.Some? then (0, first.value) else (1, 0)
  }

  /** `extract_failed_modules`: the failed modules by their first failing step, and their steps by num. */
  function FailedModules(modules: seq<Module>): seq<nat> {
    SortedBy(Passing(|modules|, IsFailedModule(modules)), ByFirstFail(modules))
  }

  /** Some step of `x` failed before all failing steps of `y`. */
  ghost predicate FailsFirst(x: Module, y: Module) {
    exists i | 0 <= i < |x.details| && x.details[i].failed ::
      forall j | 0 <= j < |y.details| && y.details[j].failed :: x.details[i].num < y.details[j].num
  }

  /** Module `a` fails first or, if `b` does not, was listed first. */
  ghost predicate ComesFirst(modules: seq<Module>, a: nat, b: nat) {
    && a < |modules| && b < |modules|
    && (FailsFirst(modules[a], modules[b]) || (!FailsFirst(modules[b], modules[a]) && a < b))
  }

  lemma LowerFailsFirst(modules: seq<Module>, a: nat, b: nat)
    requires a < |modules| && b < |modules|
    ensures Lower(ByFirstFail(modules)(a), ByFirstFail(modules)(b)) <==> FailsFirst(modules[a], modules[b])
  {
    var x, y := FirstFail(modules[a].details), FirstFail(modules[b].details);
    if x.Some? {
      var i :| 0 <= i < |modules[a].details| && modules[a].details[i].failed && modules[a].details[i].num == x.value;
      if y.None? || x.value < y.value {
        assert FailsFirst(modules[a], modules[b]);
      }
    }
  }

  /** The failed modules are all there, each once; an earlier one fails first or, if none does, was listed first; and
      whatever the job's details, the steps that the clustering reads are sorted. */
  lemma FailedModulesAre(modules: seq<Module>)
    ensures var r := FailedModules(modules);
      && (forall i: nat :: i in r <==> i < |modules| && modules[i].failed)
      && (forall a, b | 0 <= a < b < |r| :: ComesFirst(modules, r[a], r[b]))
      && (forall i | i in r :: Sorted(SortSteps(modules[i].details)))
  {
    PassingAre(|modules|, IsFailedModule(modules));
    SortedIs(Passing(|modules|, IsFailedModule(modules)), ByFirstFail(modules));
    var r := FailedModules(modules);
    forall a, b | 0 <= a < b < |r| ensures ComesFirst(modules, r[a], r[b]) {
      assert r[a] in r && r[b] in r && Precedes(ByFirstFail(modules), r[a], r[b]);
      LowerFailsFirst(modules, r[a], r[b]);
      LowerFailsFirst(modules, r[b], r[a]);
    }
    forall i | i in r ensures Sorted(SortSteps(modules[i].details)) {
      SortStepsSorts(modules[i].details);
    }
  }
}
