/** What similar runs failed with: failed jobs grouped by what they failed in, the best groups looked up in detail on a
    budget that all summaries of a report share, and the reviews of earlier runs. */
module RunHistory {
  import opened PyText
  import opened Proximity
  import opened Ordered

  const MAX_FETCHES := 8
  const MAX_GROUPS := 6
  const REVIEWS_LOOK_BACK := 20
  const REVIEWS_SHOWN := 5

  datatype Job = Job(id: int, sameFlavor: bool, test: string, result: string, modules: seq<string>)

  /** What makes two failures the same kind: flavor, test, result and failed modules. */
  type Kind = (bool, string, string, seq<string>)

  function KindOf(j: Job, withTest: bool): Kind {
    (j.sameFlavor, if withTest then j.test else "", j.result, j.modules)
  }

  /** Two failures are of one kind if nothing of that differs; the test only counts where several are mixed. */
  lemma SameKind(a: Job, b: Job, withTest: bool)
    ensures KindOf(a, withTest) == KindOf(b, withTest) <==>
      && a.sameFlavor == b.sameFlavor && a.result == b.result && a.modules == b.modules
      && (withTest ==> a.test == b.test)
    ensures (KindOf(a, withTest).0 <==> a.sameFlavor) && (KindOf(a, withTest).3 == [] <==> a.modules == [])
  {
  }

  function Kinds(jobs: seq<Job>, withTest: bool): (r: seq<Kind>)
    ensures |r| == |jobs| && forall i | 0 <= i < |jobs| :: r[i] == KindOf(jobs[i], withTest)
  {
    if jobs == [] then [] else Kinds(jobs[..|jobs| - 1], withTest) + [KindOf(jobs[|jobs| - 1], withTest)]
  }

  // ---------------------------------------------------------------- the groups, ranked

  /** How many jobs are in the `a`-th group; a group is known by the rank of its kind among the kinds first seen. */
  function GroupSize(kinds: seq<Kind>): nat -> nat {
    (a: nat) => if a < |FromKeys(kinds)| then |Places(kinds, FromKeys(kinds)[a])| else 0
  }

  /** The sort key of the `a`-th group: the own flavor first, then the larger group. */
  function GroupRank(kinds: seq<Kind>): Rank {
    (a: nat) =>
      if a < |FromKeys(kinds)|
      then (if FromKeys(kinds)[a].0 then 0 else 1, -|Places(kinds, FromKeys(kinds)[a])|) else (0, 0)
  }

  function AllGroups(kinds: seq<Kind>): seq<nat> {
    UpTo(|FromKeys(kinds)|)
  }

  /** The groups that are described, best first, and those that are only counted. */
  function Described(kinds: seq<Kind>): (r: seq<nat>)
    ensures |r| <= MAX_GROUPS
  {
    Top(AllGroups(kinds), GroupRank(kinds), MAX_GROUPS)
  }

  function Counted(kinds: seq<Kind>): seq<nat> {
    var sorted := SortedBy(AllGroups(kinds), GroupRank(kinds));
    if |sorted| < MAX_GROUPS then [] else sorted[MAX_GROUPS..]
  }

  /** Kind `x` is described before kind `y`: the own flavor first, then the more frequent, then the first seen. */
  predicate Before(kinds: seq<Kind>, x: Kind, y: Kind) {
    && x in kinds && y in kinds
    && if x.0 != y.0 then x.0
       else if |Places(kinds, x)| != |Places(kinds, y)| then |Places(kinds, x)| > |Places(kinds, y)|
       else FirstPlace(kinds, x) < FirstPlace(kinds, y)
  }

  lemma RankIsBefore(kinds: seq<Kind>, a: nat, b: nat)
    requires a < |FromKeys(kinds)| && b < |FromKeys(kinds)| && Precedes(GroupRank(kinds), a, b)
    ensures Before(kinds, FromKeys(kinds)[a], FromKeys(kinds)[b])
  {
    KeysAre(kinds);
    var keys := FromKeys(kinds);
    assert keys[a] in keys && keys[b] in keys;
    if a < b {
      KeysInOrder(kinds, a, b);
    }
  }

  lemma AllGroupsAre(kinds: seq<Kind>)
    ensures Ascending(AllGroups(kinds)) && |AllGroups(kinds)| == |FromKeys(kinds)|
    ensures forall a: nat :: a in AllGroups(kinds) <==> a < |FromKeys(kinds)|
  {
    UpToIs(|FromKeys(kinds)|);
  }

  /** The described groups are in order, and those only counted come after them. */
  lemma DescribedAreBest(kinds: seq<Kind>, a: nat, b: nat)
    requires a < |Described(kinds)| && b < |FromKeys(kinds)|
    requires b !in Described(kinds) || exists k | a < k < |Described(kinds)| :: Described(kinds)[k] == b
    ensures Described(kinds)[a] < |FromKeys(kinds)|
    ensures Before(kinds, FromKeys(kinds)[Described(kinds)[a]], FromKeys(kinds)[b])
  {
    AllGroupsAre(kinds);
    TopPrecedes(AllGroups(kinds), GroupRank(kinds), MAX_GROUPS, a, b);
    RankIsBefore(kinds, Described(kinds)[a], b);
  }

  lemma {:induction false} SizesHold(kinds: seq<Kind>, keys: seq<Kind>, size: nat -> nat, n: nat)
    requires n <= |keys| && forall a: nat | a < |keys| :: size(a) == |Places(kinds, keys[a])|
    ensures Total(size, UpTo(n)) == Held(kinds, keys[..n])
  {
    if n > 0 {
      SizesHold(kinds, keys, size, n - 1);
      TotalSnoc(size, UpTo(n - 1), n - 1);
      assert keys[..n][..n - 1] == keys[..n - 1];
    }
  }

  lemma DescribedThenCounted(kinds: seq<Kind>)
    ensures Described(kinds) + Counted(kinds) == SortedBy(AllGroups(kinds), GroupRank(kinds))
  {
    var sorted := SortedBy(AllGroups(kinds), GroupRank(kinds));
    if |sorted| >= MAX_GROUPS {
      TwoParts(sorted, MAX_GROUPS);
    }
  }

  lemma GroupsHoldAll(kinds: seq<Kind>)
    ensures Total(GroupSize(kinds), AllGroups(kinds)) == |kinds|
  {
    SizesHold(kinds, FromKeys(kinds), GroupSize(kinds), |FromKeys(kinds)|);
    assert FromKeys(kinds)[..|FromKeys(kinds)|] == FromKeys(kinds);
    KeysHoldAll(kinds);
  }

  /** Every failed job is in exactly one group: the sizes of the described and the counted groups add up. */
  lemma GroupsAddUp(kinds: seq<Kind>)
    ensures Total(GroupSize(kinds), Described(kinds)) + Total(GroupSize(kinds), Counted(kinds)) == |kinds|
    ensures |Described(kinds)| + |Counted(kinds)| == |FromKeys(kinds)|
  {
    GroupsHoldAll(kinds);
    AllGroupsAre(kinds);
    SortedIs(AllGroups(kinds), GroupRank(kinds));
    TotalOfSorted(GroupSize(kinds), AllGroups(kinds), GroupRank(kinds));
    DescribedThenCounted(kinds);
    TotalConcat(GroupSize(kinds), Described(kinds), Counted(kinds));
  }

  // ---------------------------------------------------------------- what is fetched

  /** The job with the highest id, the first of several. */
  function Latest(jobs: seq<Job>, places: seq<nat>): (r: nat)
    requires places != [] && forall k | 0 <= k < |places| :: places[k] < |jobs|
    ensures r in places && r < |jobs| && forall k | 0 <= k < |places| :: jobs[places[k]].id <= jobs[r].id
  {
    var last := places[|places| - 1];
    assert last in places;
    if |places| == 1 then last
    else
      TwoParts(places, |places| - 1);
      var best := Latest(jobs, places[..|places| - 1]);
      if jobs[last].id > jobs[best].id then last else best
  }

  lemma GroupIsThere(jobs: seq<Job>, withTest: bool, a: nat)
    requires a < |FromKeys(Kinds(jobs, withTest))|
    ensures var places := Places(Kinds(jobs, withTest), FromKeys(Kinds(jobs, withTest))[a]);
      places != [] && forall k | 0 <= k < |places| :: places[k] < |jobs|
  {
    var kinds := Kinds(jobs, withTest);
    KeysAre(kinds);
    var key := FromKeys(kinds)[a];
    PlacesAre(kinds, key);
    assert key in FromKeys(kinds);
    var i :| 0 <= i < |kinds| && kinds[i] == key;
    var places := Places(kinds, key);
    assert i in places;
    forall k | 0 <= k < |places| ensures places[k] < |jobs| {
      assert places[k] in places;
    }
  }

  /** The id of the job whose details stand for the `a`-th group. */
  function LatestId(jobs: seq<Job>, withTest: bool, a: nat): int {
    var kinds := Kinds(jobs, withTest);
    if a < |FromKeys(kinds)| then
      GroupIsThere(jobs, withTest, a);
      jobs[Latest(jobs, Places(kinds, FromKeys(kinds)[a]))].id
    else 0
  }

  /** That job is of the group's kind, and none of this kind has a higher id. */
  lemma LatestIdIs(jobs: seq<Job>, withTest: bool, a: nat) returns (i: nat)
    requires a < |FromKeys(Kinds(jobs, withTest))|
    ensures var kind := FromKeys(Kinds(jobs, withTest))[a];
      && i < |jobs| && KindOf(jobs[i], withTest) == kind && jobs[i].id == LatestId(jobs, withTest, a)
      && forall j | 0 <= j < |jobs| && KindOf(jobs[j], withTest) == kind :: jobs[j].id <= jobs[i].id
  {
    var kinds := Kinds(jobs, withTest);
    var kind := FromKeys(kinds)[a];
    var places := Places(kinds, kind);
    GroupIsThere(jobs, withTest, a);
    PlacesAre(kinds, kind);
    i := Latest(jobs, places);
    forall j | 0 <= j < |jobs| && KindOf(jobs[j], withTest) == kind ensures jobs[j].id <= jobs[i].id {
      assert j in places;
    }
  }

  predicate HasModules(kinds: seq<Kind>, a: nat) {
    a < |FromKeys(kinds)| && FromKeys(kinds)[a].3 != []
  }

  /** The jobs that one would like to fetch: of each of these groups that names failed modules, the latest. */
  function Wanted(jobs: seq<Job>, withTest: bool, groups: seq<nat>): (r: seq<int>)
    ensures |r| <= |groups|
  {
    if groups == [] then []
    else
      var a := groups[|groups| - 1];
      Wanted(jobs, withTest, groups[..|groups| - 1]) +
      if HasModules(Kinds(jobs, withTest), a) then [LatestId(jobs, withTest, a)] else []
  }

  function WantedBy(jobs: seq<Job>, withTest: bool): seq<int> {
    Wanted(jobs, withTest, Described(Kinds(jobs, withTest)))
  }

  /** The first of them, as far as the budget goes. */
  function Afforded(wanted: seq<int>, fetched: nat): (r: seq<int>)
    ensures r <= wanted && (fetched <= MAX_FETCHES ==> fetched + |r| <= MAX_FETCHES)
    ensures r == wanted || fetched + |r| >= MAX_FETCHES
  {
    var left := if fetched < MAX_FETCHES then MAX_FETCHES - fetched else 0;
    if |wanted| < left then wanted else wanted[..left]
  }

  lemma {:induction false} WantedGrows(jobs: seq<Job>, withTest: bool, groups: seq<nat>, n: nat)
    requires n <= |groups|
    ensures Wanted(jobs, withTest, groups[..n]) <= Wanted(jobs, withTest, groups)
  {
    var m := |groups| - 1;
    if n < |groups| {
      WantedGrows(jobs, withTest, groups[..m], n);
      assert groups[..m][..n] == groups[..n];
    } else {
      assert groups[..n] == groups;
    }
  }

  lemma WantedSnoc(jobs: seq<Job>, withTest: bool, front: seq<nat>, a: nat)
    ensures var before := Wanted(jobs, withTest, front);
      Wanted(jobs, withTest, front + [a]) ==
      if HasModules(Kinds(jobs, withTest), a) then before + [LatestId(jobs, withTest, a)] else before
  {
    var groups := front + [a];
    assert groups[..|groups| - 1] == front && groups[|groups| - 1] == a;
  }

  /** One after the other, the groups with failed modules take the next place among the wanted jobs. */
  lemma WantedInOrder(jobs: seq<Job>, withTest: bool, groups: seq<nat>, n: nat)
    requires n < |groups|
    ensures var kinds, a := Kinds(jobs, withTest), groups[n];
      var before := Wanted(jobs, withTest, groups[..n]);
      && Wanted(jobs, withTest, groups[..n + 1]) ==
           (if HasModules(kinds, a) then before + [LatestId(jobs, withTest, a)] else before)
      && Wanted(jobs, withTest, groups[..n + 1]) <= Wanted(jobs, withTest, groups)
  {
    assert groups[..n + 1] == groups[..n] + [groups[n]];
    WantedSnoc(jobs, withTest, groups[..n], groups[n]);
    WantedGrows(jobs, withTest, groups, n + 1);
  }

  /** Two groups with failed modules take their turns: the better one's latest job is wanted first. */
  ghost predicate TakeTurns(
    jobs: seq<Job>, withTest: bool, groups: seq<nat>, better: nat, worse: nat, wanted: seq<int>, ids: seq<int>)
    requires better < worse < |groups|
  {
    var turn, later := |Wanted(jobs, withTest, groups[..better])|, |Wanted(jobs, withTest, groups[..worse])|;
    && turn < later < |wanted|
    && (turn < |ids| ==> ids[turn] == LatestId(jobs, withTest, groups[better]))
    && (later < |ids| ==> ids[later] == LatestId(jobs, withTest, groups[worse]))
  }

  lemma WantedAt(jobs: seq<Job>, withTest: bool, groups: seq<nat>, n: nat)
    requires n < |groups| && HasModules(Kinds(jobs, withTest), groups[n])
    ensures Wanted(jobs, withTest, groups[..n]) + [LatestId(jobs, withTest, groups[n])]
            <= Wanted(jobs, withTest, groups)
  {
    WantedInOrder(jobs, withTest, groups, n);
  }

  lemma GroupsTakeTurns(
    jobs: seq<Job>, withTest: bool, groups: seq<nat>, better: nat, worse: nat, ids: seq<int>)
    requires better < worse < |groups| && ids <= Wanted(jobs, withTest, groups)
    requires HasModules(Kinds(jobs, withTest), groups[better]) && HasModules(Kinds(jobs, withTest), groups[worse])
    ensures TakeTurns(jobs, withTest, groups, better, worse, Wanted(jobs, withTest, groups), ids)
  {
    WantedAt(jobs, withTest, groups, worse);
    WantedAt(jobs, withTest, groups[..worse], better);
    assert groups[..worse][..better] == groups[..better];
    TurnsInOrder(Wanted(jobs, withTest, groups[..better]), LatestId(jobs, withTest, groups[better]),
                 Wanted(jobs, withTest, groups[..worse]), LatestId(jobs, withTest, groups[worse]),
                 Wanted(jobs, withTest, groups), ids);
  }

  /** The budget goes to the best groups first: a group's latest job is fetched, in its turn, only if those of all
      better groups with failed modules are. */
  lemma BestAreFetchedFirst(jobs: seq<Job>, withTest: bool, fetched: nat, better: nat, worse: nat)
    requires better < worse < |Described(Kinds(jobs, withTest))|
    requires var kinds := Kinds(jobs, withTest);
      HasModules(kinds, Described(kinds)[better]) && HasModules(kinds, Described(kinds)[worse])
    ensures var wanted := WantedBy(jobs, withTest);
      TakeTurns(jobs, withTest, Described(Kinds(jobs, withTest)), better, worse, wanted, Afforded(wanted, fetched))
  {
    GroupsTakeTurns(jobs, withTest, Described(Kinds(jobs, withTest)), better, worse,
                    Afforded(WantedBy(jobs, withTest), fetched));
  }

  lemma TurnsInOrder(p: seq<int>, x: int, q: seq<int>, y: int, all: seq<int>, ids: seq<int>)
    requires p + [x] <= q && q + [y] <= all && ids <= all
    ensures |p| < |q| < |all| && (|p| < |ids| ==> ids[|p|] == x) && (|q| < |ids| ==> ids[|q|] == y)
  {
    assert (p + [x])[|p|] == x && (q + [y])[|q|] == y;
  }

  /** A fetch: the job and the commands that its details gave. */
  type Fetched = (int, seq<string>)

  function Ids(fetches: seq<Fetched>): (r: seq<int>)
    ensures |r| == |fetches| && forall k | 0 <= k < |r| :: r[k] == fetches[k].0
  {
    if fetches == [] then [] else Ids(fetches[..|fetches| - 1]) + [fetches[|fetches| - 1].0]
  }

  lemma IdsConcat(a: seq<Fetched>, b: seq<Fetched>)
    ensures Ids(a + b) == Ids(a) + Ids(b)
  {
  }

  /** The commands that were fetched for a job, if it was fetched. */
  function AnswerFor(fetches: seq<Fetched>, id: int): seq<string> {
    if fetches == [] then []
    else if fetches[|fetches| - 1].0 == id then fetches[|fetches| - 1].1
    else AnswerFor(fetches[..|fetches| - 1], id)
  }

  /** The answer is that of the last fetch for the job, or empty without one. */
  lemma {:induction false} AnswerForIs(fetches: seq<Fetched>, id: int, k: int)
    requires k < |fetches| && (0 <= k ==> fetches[k].0 == id)
    requires forall j | k < j < |fetches| && 0 <= j :: fetches[j].0 != id
    ensures AnswerFor(fetches, id) == if 0 <= k then fetches[k].1 else []
  {
    if fetches != [] && k < |fetches| - 1 {
      AnswerForIs(fetches[..|fetches| - 1], id, k);
    }
  }

  /** The shared budget, with a record of the details that were fetched. */
  class Lookups {
    var fetched: nat
    ghost var log: seq<Fetched>

    ghost predicate Within()
      reads this
    {
      fetched == |log| <= MAX_FETCHES
    }

    constructor ()
      ensures Within() && log == []
    {
      fetched := 0;
      log := [];
    }

    /** `_failed_commands`: whatever the server answers. */
    method FailedCommands(id: int) returns (commands: seq<string>)
      modifies `log
      ensures log == old(log) + [(id, commands)]
    {
      commands := *;
      log := log + [(id, commands)];
    }
  }

  datatype Part = Part(count: nat, kind: Kind, commands: seq<string>, latest: int)

  /** What a part says of the `a`-th group, after these fetches. */
  ghost predicate Describes(jobs: seq<Job>, withTest: bool, a: nat, part: Part, fetches: seq<Fetched>) {
    var kinds := Kinds(jobs, withTest);
    && a < |FromKeys(kinds)| && part.kind == FromKeys(kinds)[a]
    && part.count == |Places(kinds, part.kind)| && part.latest == LatestId(jobs, withTest, a)
    && part.commands == if HasModules(kinds, a) then AnswerFor(fetches, part.latest) else []
  }

  /** The parts describe the best groups, one by one, and the others are counted. */
  ghost predicate DescribesAll(jobs: seq<Job>, withTest: bool, parts: seq<Part>, more: nat, fetches: seq<Fetched>) {
    var groups := Described(Kinds(jobs, withTest));
    && |parts| == |groups| && more == |Counted(Kinds(jobs, withTest))|
    && forall k | 0 <= k < |parts| :: Describes(jobs, withTest, groups[k], parts[k], fetches)
  }

  /** The keys of the dictionary in the order of insertion, and the places it holds for them. */
  ghost predicate Grouped(kinds: seq<Kind>, order: seq<Kind>, groups: map<Kind, seq<nat>>) {
    order == FromKeys(kinds) && HoldsPlaces(kinds, groups)
  }

  lemma AppendKeepsGrouped(kinds: seq<Kind>, kind: Kind, order: seq<Kind>, groups: map<Kind, seq<nat>>)
    requires Grouped(kinds, order, groups)
    ensures Grouped(
              kinds + [kind], if kind in groups then order else order + [kind],
              SetDefaultAppend(groups, kind, |kinds|))
  {
    FromKeysSnoc(kinds, kind);
    KeysAre(kinds);
    AppendHoldsPlaces(kinds, kind, groups);
  }

  /** The dictionary of groups, built job by job. */
  method GroupJobs(jobs: seq<Job>, withTest: bool) returns (order: seq<Kind>, groups: map<Kind, seq<nat>>)
    ensures Grouped(Kinds(jobs, withTest), order, groups)
  {
    order, groups := [], map[];
    ghost var kinds := Kinds(jobs, withTest);
    for i := 0 to |jobs|
      invariant Grouped(kinds[..i], order, groups)
    {
      var kind := KindOf(jobs[i], withTest);
      assert kinds[..i + 1] == kinds[..i] + [kind];
      AppendKeepsGrouped(kinds[..i], kind, order, groups);
      if kind !in groups {
        order := order + [kind];
      }
      groups := SetDefaultAppend(groups, kind, i);
    }
    assert kinds[..|jobs|] == kinds;
  }

  /** The sort of `_failure_groups`. */
  method RankGroups(jobs: seq<Job>, withTest: bool, order: seq<Kind>, groups: map<Kind, seq<nat>>)
    returns (ranked: seq<nat>)
    requires GroupsOf(jobs, withTest, order, groups)
    ensures ranked == Described(Kinds(jobs, withTest))
  {
    var rank := (a: nat) =>
      if a < |order| && order[a] in groups then (if order[a].0 then 0 else 1, -|groups[order[a]]|) else (0, 0);
    ghost var kinds := Kinds(jobs, withTest);
    AllGroupsAre(kinds);
    forall a: nat | a < |order| ensures rank(a) == GroupRank(kinds)(a) {
      assert order[a] in order;
    }
    SameRankSameOrder(AllGroups(kinds), rank, GroupRank(kinds));
    ranked := Top(UpTo(|order|), rank, MAX_GROUPS);
  }

  /** The dictionary of groups for these jobs. */
  ghost predicate GroupsOf(jobs: seq<Job>, withTest: bool, order: seq<Kind>, groups: map<Kind, seq<nat>>) {
    && order == FromKeys(Kinds(jobs, withTest))
    && forall kind | kind in order :: kind in groups && groups[kind] == Places(Kinds(jobs, withTest), kind)
  }

  lemma GroupAt(jobs: seq<Job>, withTest: bool, order: seq<Kind>, groups: map<Kind, seq<nat>>, a: nat)
    requires GroupsOf(jobs, withTest, order, groups) && a < |order|
    ensures order[a] in groups
    ensures var places := groups[order[a]];
      && places != [] && (forall k | 0 <= k < |places| :: places[k] < |jobs|)
      && jobs[Latest(jobs, places)].id == LatestId(jobs, withTest, a)
      && |places| == |Places(Kinds(jobs, withTest), order[a])|
  {
    assert order[a] in order;
    GroupIsThere(jobs, withTest, a);
  }

  method SelectFetches(
    jobs: seq<Job>, withTest: bool, order: seq<Kind>, groups: map<Kind, seq<nat>>, ranked: seq<nat>)
    returns (toFetch: seq<int>)
    requires GroupsOf(jobs, withTest, order, groups) && forall k | 0 <= k < |ranked| :: ranked[k] < |order|
    ensures toFetch == Wanted(jobs, withTest, ranked)
  {
    toFetch := [];
    for k := 0 to |ranked|
      invariant toFetch == Wanted(jobs, withTest, ranked[..k])
    {
      assert ranked[..k + 1][..k] == ranked[..k];
      GroupAt(jobs, withTest, order, groups, ranked[k]);
      if order[ranked[k]].3 != [] {
        toFetch := toFetch + [jobs[Latest(jobs, groups[order[ranked[k]]])].id];
      }
    }
    assert ranked[..|ranked|] == ranked;
  }

  lemma PartDescribes(
    jobs: seq<Job>, withTest: bool, order: seq<Kind>, groups: map<Kind, seq<nat>>, a: nat, part: Part,
    fetches: seq<Fetched>)
    requires GroupsOf(jobs, withTest, order, groups) && a < |order| && order[a] in groups
    requires part.kind == order[a] && part.count == |groups[order[a]]| && part.latest == LatestId(jobs, withTest, a)
    requires part.commands == if part.kind.3 != [] then AnswerFor(fetches, part.latest) else []
    ensures Describes(jobs, withTest, a, part, fetches)
  {
    GroupAt(jobs, withTest, order, groups, a);
  }

  method DescribeGroup(
    jobs: seq<Job>, withTest: bool, order: seq<Kind>, groups: map<Kind, seq<nat>>, a: nat,
    commands: map<int, seq<string>>, ghost fetches: seq<Fetched>)
    returns (part: Part)
    requires GroupsOf(jobs, withTest, order, groups) && a < |order|
    requires forall id :: AnswerFor(fetches, id) == if id in commands then commands[id] else []
    ensures Describes(jobs, withTest, a, part, fetches)
  {
    var kind := order[a];
    GroupAt(jobs, withTest, order, groups, a);
    var latest := jobs[Latest(jobs, groups[kind])].id;
    var found := if kind.3 != [] && latest in commands then commands[latest] else [];
    part := Part(|groups[kind]|, kind, found, latest);
    PartDescribes(jobs, withTest, order, groups, a, part, fetches);
  }

  method DescribeGroups(
    jobs: seq<Job>, withTest: bool, order: seq<Kind>, groups: map<Kind, seq<nat>>, ranked: seq<nat>,
    commands: map<int, seq<string>>, ghost fetches: seq<Fetched>)
    returns (parts: seq<Part>)
    requires GroupsOf(jobs, withTest, order, groups) && forall k | 0 <= k < |ranked| :: ranked[k] < |order|
    requires forall id :: AnswerFor(fetches, id) == if id in commands then commands[id] else []
    ensures |parts| == |ranked|
    ensures forall k | 0 <= k < |parts| :: Describes(jobs, withTest, ranked[k], parts[k], fetches)
  {
    parts := [];
    for k := 0 to |ranked|
      invariant |parts| == k
      invariant forall m | 0 <= m < k :: Describes(jobs, withTest, ranked[m], parts[m], fetches)
    {
      var part := DescribeGroup(jobs, withTest, order, groups, ranked[k], commands, fetches);
      parts := parts + [part];
    }
  }

  /** `_failure_groups`. */
  method FailureGroups(lookups: Lookups, jobs: seq<Job>, withTest: bool)
    returns (parts: seq<Part>, more: nat, ghost fetches: seq<Fetched>)
    requires lookups.Within()
    modifies lookups
    ensures lookups.Within() && lookups.log == old(lookups.log) + fetches
    ensures Ids(fetches) == Afforded(WantedBy(jobs, withTest), |old(lookups.log)|)
    ensures DescribesAll(jobs, withTest, parts, more, fetches)
  {
    var order, groups := GroupJobs(jobs, withTest);
    KeysAre(Kinds(jobs, withTest));
    var ranked := RankGroups(jobs, withTest, order, groups);
    DescribedAreGroups(Kinds(jobs, withTest));
    var wanted := SelectFetches(jobs, withTest, order, groups, ranked);
    var toFetch := Afforded(wanted, lookups.fetched);
    var commands;
    commands, fetches := Fetch(lookups, toFetch);
    parts := DescribeGroups(jobs, withTest, order, groups, ranked, commands, fetches);
    GroupsAddUp(Kinds(jobs, withTest));
    more := if |order| > MAX_GROUPS then |order| - MAX_GROUPS else 0;
  }

  lemma DescribedAreGroups(kinds: seq<Kind>)
    ensures forall k | 0 <= k < |Described(kinds)| :: Described(kinds)[k] < |FromKeys(kinds)|
    ensures |Described(kinds)| == if |FromKeys(kinds)| < MAX_GROUPS then |FromKeys(kinds)| else MAX_GROUPS
  {
    AllGroupsAre(kinds);
    TopIs(AllGroups(kinds), GroupRank(kinds), MAX_GROUPS);
    forall k | 0 <= k < |Described(kinds)| ensures Described(kinds)[k] < |FromKeys(kinds)| {
      assert Described(kinds)[k] in Described(kinds);
    }
  }

  /** The fetches, which the pool makes side by side; here in the order in which they are handed to it. */
  method Fetch(lookups: Lookups, ids: seq<int>) returns (commands: map<int, seq<string>>, ghost fetches: seq<Fetched>)
    requires lookups.Within() && lookups.fetched + |ids| <= MAX_FETCHES
    modifies lookups
    ensures lookups.Within() && lookups.log == old(lookups.log) + fetches && Ids(fetches) == ids
    ensures forall id :: AnswerFor(fetches, id) == if id in commands then commands[id] else []
  {
    lookups.fetched := lookups.fetched + |ids|;
    commands, fetches := map[], [];
    for k := 0 to |ids|
      invariant lookups.log == old(lookups.log) + fetches && Ids(fetches) == ids[..k]
      invariant lookups.fetched == |old(lookups.log)| + |ids|
      invariant forall id :: AnswerFor(fetches, id) == if id in commands then commands[id] else []
    {
      var found := lookups.FailedCommands(ids[k]);
      commands := commands[ids[k] := found];
      Associative(old(lookups.log), fetches, [(ids[k], found)]);
      ghost var before := fetches;
      fetches := before + [(ids[k], found)];
      assert fetches[..|before|] == before;
      assert ids[..k + 1] == ids[..k] + [ids[k]];
    }
    assert ids[..|ids|] == ids;
  }

  // ---------------------------------------------------------------- the budget over all calls

  /** One call of `_failure_groups`. */
  type Call = (seq<Job>, bool)

  /** What a report's calls fetch in all. */
  function Fetches(calls: seq<Call>): (r: seq<int>)
    ensures |r| <= MAX_FETCHES
  {
    if calls == [] then []
    else
      var before, call := Fetches(calls[..|calls| - 1]), calls[|calls| - 1];
      before + Afforded(WantedBy(call.0, call.1), |before|)
  }

  /** One more call adds what it can afford. */
  lemma NextFetches(calls: seq<Call>, call: Call, before: seq<Fetched>, fetches: seq<Fetched>)
    requires Ids(before) == Fetches(calls)
    requires Ids(fetches) == Afforded(WantedBy(call.0, call.1), |before|)
    ensures Ids(before + fetches) == Fetches(calls + [call])
  {
    IdsConcat(before, fetches);
    assert (calls + [call])[..|calls|] == calls;
  }

  function WantedInAll(calls: seq<Call>): nat {
    if calls == [] then 0
    else WantedInAll(calls[..|calls| - 1]) + |WantedBy(calls[|calls| - 1].0, calls[|calls| - 1].1)|
  }

  /** Any number of calls together fetch what they want or the whole budget, whichever is less. */
  lemma {:induction false} BudgetIsShared(calls: seq<Call>)
    ensures |Fetches(calls)| == if WantedInAll(calls) < MAX_FETCHES then WantedInAll(calls) else MAX_FETCHES
  {
    if calls != [] {
      BudgetIsShared(calls[..|calls| - 1]);
    }
  }

  /** One more summary of a report. */
  method NextSummary(lookups: Lookups, ghost calls: seq<Call>, call: Call)
    requires lookups.Within() && Ids(lookups.log) == Fetches(calls)
    modifies lookups
    ensures lookups.Within() && Ids(lookups.log) == Fetches(calls + [call])
  {
    ghost var before := lookups.log;
    var parts, more;
    ghost var fetches;
    parts, more, fetches := FailureGroups(lookups, call.0, call.1);
    NextFetches(calls, call, before, fetches);
  }

  /** Any sequence of calls that share the budget. */
  method AllSummaries(calls: seq<Call>) returns (lookups: Lookups)
    ensures fresh(lookups) && lookups.Within() && Ids(lookups.log) == Fetches(calls)
  {
    if calls == [] {
      lookups := new Lookups();
    } else {
      var n := |calls| - 1;
      lookups := AllSummaries(calls[..n]);
      NextSummary(lookups, calls[..n], calls[n]);
      TwoParts(calls, n);
    }
  }

  // ---------------------------------------------------------------- the results of some runs

  /** A row of the previous and next results. */
  datatype Run = Run(id: int, done: bool, result: string, modules: seq<string>, marks: seq<string>)

  predicate IsFailed(result: string) {
    result in ["failed", "incomplete", "timeout_exceeded", "parallel_failed"]
  }

  function Passed(runs: seq<Run>): seq<string> {
    if runs == [] then []
    else
      var r := runs[|runs| - 1];
      Passed(runs[..|runs| - 1]) + if IsFailed(r.result) then [] else [r.result]
  }

  function Failed(runs: seq<Run>): seq<Job> {
    if runs == [] then []
    else
      var r := runs[|runs| - 1];
      Failed(runs[..|runs| - 1]) + if IsFailed(r.result) then [Job(r.id, false, "", r.result, r.modules)] else []
  }

  lemma {:induction false} PassedAndFailed(runs: seq<Run>)
    ensures |Passed(runs)| + |Failed(runs)| == |runs|
  {
    if runs != [] {
      PassedAndFailed(runs[..|runs| - 1]);
    }
  }

  function FailedIn(runs: seq<Run>, failed: bool): nat -> bool {
    (i: nat) => i < |runs| && IsFailed(runs[i].result) == failed
  }

  /** The run as a job without a flavor and a test. */
  ghost predicate AsJob(r: Run, j: Job) {
    j.id == r.id && j.result == r.result && j.modules == r.modules && !j.sameFlavor && j.test == ""
  }

  lemma {:induction false} FailedUpTo(runs: seq<Run>, n: nat)
    requires n <= |runs|
    ensures var jobs, places := Failed(runs[..n]), Passing(n, FailedIn(runs, true));
      |jobs| == |places| && forall k | 0 <= k < |jobs| :: places[k] < n && AsJob(runs[places[k]], jobs[k])
  {
    if 0 < n {
      FailedUpTo(runs, n - 1);
      assert runs[..n][..n - 1] == runs[..n - 1];
    }
  }

  lemma {:induction false} PassedUpTo(runs: seq<Run>, n: nat)
    requires n <= |runs|
    ensures var results, places := Passed(runs[..n]), Passing(n, FailedIn(runs, false));
      |results| == |places| && forall k | 0 <= k < |results| :: places[k] < n && runs[places[k]].result == results[k]
  {
    if 0 < n {
      PassedUpTo(runs, n - 1);
      assert runs[..n][..n - 1] == runs[..n - 1];
    }
  }

  /** The runs are split into the failures, as jobs, and the results of the others, in order. */
  lemma RunsAreSplit(runs: seq<Run>) returns (failed: seq<nat>, others: seq<nat>)
    ensures Ascending(failed) && forall i: nat :: i in failed <==>
      i < |runs| && runs[i].result in {"failed", "incomplete", "timeout_exceeded", "parallel_failed"}
    ensures Ascending(others) && forall i: nat :: i in others <==> i < |runs| && i !in failed
    ensures |Failed(runs)| == |failed| && |Passed(runs)| == |others|
    ensures forall k | 0 <= k < |failed| :: failed[k] < |runs| && AsJob(runs[failed[k]], Failed(runs)[k])
    ensures forall k | 0 <= k < |others| :: others[k] < |runs| && runs[others[k]].result == Passed(runs)[k]
  {
    failed, others := Passing(|runs|, FailedIn(runs, true)), Passing(|runs|, FailedIn(runs, false));
    assert runs[..|runs|] == runs;
    FailedUpTo(runs, |runs|);
    PassedUpTo(runs, |runs|);
    PassingAre(|runs|, FailedIn(runs, true));
    PassingAre(|runs|, FailedIn(runs, false));
  }

  /** The counts of the results, in the order of first sight. */
  ghost predicate CountsOf(results: seq<string>, counts: seq<(string, nat)>) {
    && |counts| == |FromKeys(results)|
    && forall k | 0 <= k < |counts| :: counts[k] == (FromKeys(results)[k], |Places(results, FromKeys(results)[k])|)
  }

  function SumOf(counts: seq<(string, nat)>): nat {
    if counts == [] then 0 else SumOf(counts[..|counts| - 1]) + counts[|counts| - 1].1
  }

  lemma {:induction false} CountsHold(results: seq<string>, counts: seq<(string, nat)>, keys: seq<string>)
    requires |counts| == |keys| && forall k | 0 <= k < |counts| :: counts[k].1 == |Places(results, keys[k])|
    ensures SumOf(counts) == Held(results, keys)
  {
    if counts != [] {
      CountsHold(results, counts[..|counts| - 1], keys[..|keys| - 1]);
    }
  }

  /** Each run is counted once: with its result, or in a described or a counted group of failures. */
  lemma RunsAddUp(runs: seq<Run>, counts: seq<(string, nat)>)
    requires CountsOf(Passed(runs), counts)
    ensures var kinds := Kinds(Failed(runs), false);
      SumOf(counts) + Total(GroupSize(kinds), Described(kinds)) + Total(GroupSize(kinds), Counted(kinds)) == |runs|
  {
    CountsHold(Passed(runs), counts, FromKeys(Passed(runs)));
    KeysHoldAll(Passed(runs));
    GroupsAddUp(Kinds(Failed(runs), false));
    PassedAndFailed(runs);
  }

  /** The counter of the results, and its keys in the order of insertion. */
  ghost predicate Counts(results: seq<string>, order: seq<string>, seen: map<string, nat>) {
    && order == FromKeys(results)
    && (forall r :: r in seen <==> r in order)
    && forall r | r in seen :: seen[r] == |Places(results, r)|
  }

  lemma OneMoreResult(results: seq<string>, r: string, order: seq<string>, seen: map<string, nat>)
    requires Counts(results, order, seen)
    ensures Counts(results + [r], if r in seen then order else order + [r],
                   seen[r := (if r in seen then seen[r] else 0) + 1])
  {
    FromKeysSnoc(results, r);
    KeysAre(results);
    if r !in seen {
      NoPlaces(results, r);
    }
    var next := seen[r := (if r in seen then seen[r] else 0) + 1];
    forall k | k in next ensures next[k] == |Places(results + [r], k)| {
      PlacesSnoc(results, r, k);
    }
  }

  /** `Counter`, as a list of its items. */
  method CountResults(results: seq<string>) returns (counts: seq<(string, nat)>)
    ensures CountsOf(results, counts)
  {
    var order: seq<string> := [];
    var seen: map<string, nat> := map[];
    for i := 0 to |results|
      invariant Counts(results[..i], order, seen)
    {
      var r := results[i];
      assert results[..i + 1] == results[..i] + [r];
      OneMoreResult(results[..i], r, order, seen);
      if r !in seen {
        order := order + [r];
      }
      seen := seen[r := (if r in seen then seen[r] else 0) + 1];
    }
    assert results[..|results|] == results;
    counts := [];
    for k := 0 to |order|
      invariant |counts| == k
      invariant forall m | 0 <= m < k :: counts[m] == (order[m], |Places(results, order[m])|)
    {
      assert order[k] in order;
      counts := counts + [(order[k], seen[order[k]])];
    }
  }

  /** `_runs_text`. */
  method RunsText(lookups: Lookups, runs: seq<Run>)
    returns (counts: seq<(string, nat)>, parts: seq<Part>, more: nat, ghost fetches: seq<Fetched>)
    requires lookups.Within()
    modifies lookups
    ensures lookups.Within() && lookups.log == old(lookups.log) + fetches
    ensures Ids(fetches) == Afforded(WantedBy(Failed(runs), false), |old(lookups.log)|)
    ensures CountsOf(Passed(runs), counts)
    ensures DescribesAll(Failed(runs), false, parts, more, fetches)
  {
    counts := CountResults(Passed(runs));
    var failed := Failed(runs);
    parts, more, fetches := [], 0, [];
    if failed != [] {
      parts, more, fetches := FailureGroups(lookups, failed, false);
    } else {
      DescribedAreGroups(Kinds(failed, false));
      GroupsAddUp(Kinds(failed, false));
    }
  }

  // ---------------------------------------------------------------- the reviews of earlier runs

  function IsFinished(rows: seq<Run>, cur: int): nat -> bool {
    (i: nat) => i < |rows| && rows[i].done && rows[i].id < cur
  }

  /** The finished runs before the current one. */
  function Finished(rows: seq<Run>, cur: int): seq<nat> {
    Passing(|rows|, IsFinished(rows, cur))
  }

  function NewestFirst(rows: seq<Run>): Rank {
    (i: nat) => (if i < |rows| then -rows[i].id else 0, 0)
  }

  /** The runs whose reviews are read, the newest first. */
  function Considered(rows: seq<Run>, cur: int): seq<nat> {
    Top(Finished(rows, cur), NewestFirst(rows), REVIEWS_LOOK_BACK)
  }

  /** The failed modules of the current run's first row. */
  function OwnModules(rows: seq<Run>, cur: int): seq<string> {
    if rows == [] then [] else if rows[0].id == cur then rows[0].modules else OwnModules(rows[1..], cur)
  }

  /** They are those of the first row with the current id; there are none without such a row. */
  lemma {:induction false} OwnModulesAre(rows: seq<Run>, cur: int)
    ensures (forall i | 0 <= i < |rows| :: rows[i].id != cur) ==> OwnModules(rows, cur) == []
    ensures forall i | 0 <= i < |rows| && rows[i].id == cur && forall j | 0 <= j < i :: rows[j].id != cur ::
      OwnModules(rows, cur) == rows[i].modules
  {
    if rows != [] {
      OwnModulesAre(rows[1..], cur);
    }
  }

  /** Run `i` failed in all of these modules, of which there are some. */
  predicate FailedInAll(rows: seq<Run>, own: seq<string>, i: nat) {
    i < |rows| && own != [] && forall m | m in own :: m in rows[i].modules
  }

  function Carried(marks: seq<string>, i: nat): seq<(string, nat)> {
    if marks == [] then [] else Carried(marks[..|marks| - 1], i) + [(marks[|marks| - 1], i)]
  }

  /** The marks of these runs with the runs that carry them. */
  function Pairs(rows: seq<Run>, own: seq<string>, runs: seq<nat>): seq<(string, nat)> {
    if runs == [] then []
    else
      var i := runs[|runs| - 1];
      Pairs(rows, own, runs[..|runs| - 1]) + if FailedInAll(rows, own, i) then Carried(rows[i].marks, i) else []
  }

  predicate Named(found: seq<(string, nat)>, mark: string) {
    exists k | 0 <= k < |found| :: found[k].0 == mark
  }

  /** `setdefault` for one pair after the other. */
  function FirstPer(pairs: seq<(string, nat)>): seq<(string, nat)> {
    if pairs == [] then []
    else
      var found, last := FirstPer(pairs[..|pairs| - 1]), pairs[|pairs| - 1];
      if Named(found, last.0) then found else found + [last]
  }

  lemma FirstPerSnoc(pairs: seq<(string, nat)>, p: (string, nat))
    ensures FirstPer(pairs + [p]) == if Named(FirstPer(pairs), p.0) then FirstPer(pairs) else FirstPer(pairs) + [p]
  {
    assert (pairs + [p])[..|pairs|] == pairs;
  }

  /** The inner loop is at mark `m` of run `i`. */
  ghost predicate AtMark(found: seq<(string, nat)>, before: seq<(string, nat)>, marks: seq<string>, m: nat, i: nat) {
    m <= |marks| && found == FirstPer(before + Carried(marks[..m], i))
  }

  lemma StartMarks(before: seq<(string, nat)>, marks: seq<string>, i: nat)
    ensures AtMark(FirstPer(before), before, marks, 0, i)
  {
    assert before + Carried(marks[..0], i) == before;
  }

  lemma NextMark(found: seq<(string, nat)>, before: seq<(string, nat)>, marks: seq<string>, m: nat, i: nat)
    requires AtMark(found, before, marks, m, i) && m < |marks|
    ensures AtMark(if Named(found, marks[m]) then found else found + [(marks[m], i)], before, marks, m + 1, i)
  {
    assert marks[..m + 1][..m] == marks[..m];
    Associative(before, Carried(marks[..m], i), [(marks[m], i)]);
    FirstPerSnoc(before + Carried(marks[..m], i), (marks[m], i));
  }

  lemma AllMarks(found: seq<(string, nat)>, before: seq<(string, nat)>, marks: seq<string>, i: nat)
    requires AtMark(found, before, marks, |marks|, i)
    ensures found == FirstPer(before + Carried(marks, i))
  {
    assert marks[..|marks|] == marks;
  }

  lemma NextRun(rows: seq<Run>, own: seq<string>, runs: seq<nat>, n: nat)
    requires n < |runs| && runs[n] < |rows|
    ensures Pairs(rows, own, runs[..n + 1]) ==
      if FailedInAll(rows, own, runs[n]) then Pairs(rows, own, runs[..n]) + Carried(rows[runs[n]].marks, runs[n])
      else Pairs(rows, own, runs[..n])
  {
    assert runs[..n + 1][..n] == runs[..n];
  }

  /** The loops of `_earlier_reviews`. */
  method FindReviews(rows: seq<Run>, own: seq<string>, runs: seq<nat>) returns (found: seq<(string, nat)>)
    requires forall k | 0 <= k < |runs| :: runs[k] < |rows|
    ensures found == FirstPer(Pairs(rows, own, runs))
  {
    found := [];
    for n := 0 to |runs|
      invariant found == FirstPer(Pairs(rows, own, runs[..n]))
    {
      var i := runs[n];
      NextRun(rows, own, runs, n);
      if FailedInAll(rows, own, i) {
        ghost var before := Pairs(rows, own, runs[..n]);
        var marks := rows[i].marks;
        StartMarks(before, marks, i);
        for m := 0 to |marks|
          invariant AtMark(found, before, marks, m, i)
        {
          NextMark(found, before, marks, m, i);
          if !Named(found, marks[m]) {
            found := found + [(marks[m], i)];
          }
        }
        AllMarks(found, before, marks, i);
      }
    }
    assert runs[..|runs|] == runs;
  }

  /** `_earlier_reviews`: the marks that are shown, with the run each is named at. */
  method EarlierReviews(rows: seq<Run>, cur: int) returns (shown: seq<(string, nat)>)
    ensures var found := FirstPer(Pairs(rows, OwnModules(rows, cur), Considered(rows, cur)));
      shown == if |found| < REVIEWS_SHOWN then found else found[..REVIEWS_SHOWN]
  {
    ConsideredAre(rows, cur);
    var found := FindReviews(rows, OwnModules(rows, cur), Considered(rows, cur));
    shown := if |found| < REVIEWS_SHOWN then found else found[..REVIEWS_SHOWN];
  }

  lemma ConsideredAre(rows: seq<Run>, cur: int)
    ensures forall k | 0 <= k < |Considered(rows, cur)| :: Considered(rows, cur)[k] < |rows|
    ensures forall k, m | 0 <= k < m < |Considered(rows, cur)| ::
      rows[Considered(rows, cur)[m]].id <= rows[Considered(rows, cur)[k]].id
    ensures forall k | 0 <= k < |Considered(rows, cur)| ::
      rows[Considered(rows, cur)[k]].done && rows[Considered(rows, cur)[k]].id < cur
  {
    PassingAre(|rows|, IsFinished(rows, cur));
    TopIs(Finished(rows, cur), NewestFirst(rows), REVIEWS_LOOK_BACK);
    var runs := Considered(rows, cur);
    forall k | 0 <= k < |runs| ensures runs[k] < |rows| && rows[runs[k]].done && rows[runs[k]].id < cur {
      assert runs[k] in runs;
    }
    forall k, m | 0 <= k < m < |runs| ensures rows[runs[m]].id <= rows[runs[k]].id {
      assert Precedes(NewestFirst(rows), runs[k], runs[m]);
    }
  }

  /** The considered runs are the newest: any other finished one is no newer, and left out only beyond the twenty. */
  lemma ConsideredAreNewest(rows: seq<Run>, cur: int, i: nat)
    requires i < |rows| && rows[i].done && rows[i].id < cur && i !in Considered(rows, cur)
    ensures |Considered(rows, cur)| == REVIEWS_LOOK_BACK
    ensures forall k | 0 <= k < |Considered(rows, cur)| ::
      Considered(rows, cur)[k] < |rows| && rows[i].id <= rows[Considered(rows, cur)[k]].id
  {
    var finished, runs := Finished(rows, cur), Considered(rows, cur);
    PassingAre(|rows|, IsFinished(rows, cur));
    TopIs(finished, NewestFirst(rows), REVIEWS_LOOK_BACK);
    assert i in finished;
    ConsideredAre(rows, cur);
    forall k | 0 <= k < |runs| ensures rows[i].id <= rows[runs[k]].id {
      RestComeAfter(finished, NewestFirst(rows), REVIEWS_LOOK_BACK, i, k);
    }
    if runs != [] {
      RestComeAfter(finished, NewestFirst(rows), REVIEWS_LOOK_BACK, i, 0);
    }
  }

  /** Run `i` is among `runs`, failed in all of the modules and carries the mark. */
  ghost predicate Carries(rows: seq<Run>, own: seq<string>, runs: seq<nat>, mark: string, i: nat) {
    i in runs && i < |rows| && own != [] && (forall m | m in own :: m in rows[i].modules) && mark in rows[i].marks
  }

  lemma {:induction false} CarriedAre(marks: seq<string>, i: nat, p: (string, nat))
    ensures p in Carried(marks, i) <==> p.0 in marks && p.1 == i
  {
    if marks != [] {
      CarriedAre(marks[..|marks| - 1], i, p);
      TwoParts(marks, |marks| - 1);
    }
  }

  lemma {:induction false} PairsAre(rows: seq<Run>, own: seq<string>, runs: seq<nat>, p: (string, nat))
    ensures p in Pairs(rows, own, runs) <==> Carries(rows, own, runs, p.0, p.1)
  {
    if runs != [] {
      var i := runs[|runs| - 1];
      PairsAre(rows, own, runs[..|runs| - 1], p);
      TwoParts(runs, |runs| - 1);
      if FailedInAll(rows, own, i) {
        CarriedAre(rows[i].marks, i, p);
      }
    }
  }

  /** The runs that carry a mark, from the newest on: no run in `pairs` is older than a later one. */
  ghost predicate Descending(rows: seq<Run>, pairs: seq<(string, nat)>) {
    forall j, k | 0 <= j < k < |pairs| && pairs[j].1 < |rows| && pairs[k].1 < |rows| ::
      rows[pairs[k].1].id <= rows[pairs[j].1].id
  }

  lemma {:induction false} PairsDescend(rows: seq<Run>, own: seq<string>, runs: seq<nat>)
    requires forall k | 0 <= k < |runs| :: runs[k] < |rows|
    requires forall k, m | 0 <= k < m < |runs| :: rows[runs[m]].id <= rows[runs[k]].id
    ensures Descending(rows, Pairs(rows, own, runs))
  {
    if runs != [] {
      var front, i := runs[..|runs| - 1], runs[|runs| - 1];
      PairsDescend(rows, own, front);
      var before, pairs := Pairs(rows, own, front), Pairs(rows, own, runs);
      forall j, k | 0 <= j < k < |pairs| && pairs[j].1 < |rows| && pairs[k].1 < |rows|
        ensures rows[pairs[k].1].id <= rows[pairs[j].1].id
      {
        PairsAre(rows, own, front, pairs[j]);
        if k >= |before| {
          CarriedAre(rows[i].marks, i, pairs[j]);
          CarriedAre(rows[i].marks, i, pairs[k]);
          assert pairs[k] in Carried(rows[i].marks, i);
          assert pairs[j] in before || pairs[j] in Carried(rows[i].marks, i);
        }
      }
    }
  }

  /** `p` is the first pair with its mark, at place `k`. */
  ghost predicate FirstOf(pairs: seq<(string, nat)>, p: (string, nat), k: nat) {
    k < |pairs| && pairs[k] == p && forall j | 0 <= j < k :: pairs[j].0 != p.0
  }

  lemma NamedSnoc(pairs: seq<(string, nat)>, p: (string, nat), mark: string)
    ensures Named(pairs + [p], mark) <==> Named(pairs, mark) || p.0 == mark
  {
    var more := pairs + [p];
    assert more[|pairs|] == p;
    if Named(pairs, mark) {
      var k :| 0 <= k < |pairs| && pairs[k].0 == mark;
      assert more[k].0 == mark;
    }
  }

  lemma {:induction false} FirstPerIs(pairs: seq<(string, nat)>, mark: string)
    ensures Named(FirstPer(pairs), mark) <==> Named(pairs, mark)
    ensures forall n | 0 <= n < |FirstPer(pairs)| && FirstPer(pairs)[n].0 == mark ::
      exists k: nat :: FirstOf(pairs, FirstPer(pairs)[n], k)
  {
    if pairs != [] {
      var front, last := pairs[..|pairs| - 1], pairs[|pairs| - 1];
      FirstPerIs(front, mark);
      var before, found := FirstPer(front), FirstPer(pairs);
      TwoParts(pairs, |pairs| - 1);
      NamedSnoc(front, last, mark);
      NamedSnoc(before, last, mark);
      forall n | 0 <= n < |found| && found[n].0 == mark ensures exists k: nat :: FirstOf(pairs, found[n], k) {
        if n < |before| {
          var k: nat :| FirstOf(front, before[n], k);
          assert FirstOf(pairs, found[n], k);
        } else {
          assert !Named(before, mark);
          assert forall j | 0 <= j < |front| && front[j].0 == mark :: Named(front, mark);
          assert FirstOf(pairs, last, |front|);
        }
      }
    }
  }

  /** The runs are from the newest on. */
  ghost predicate NewestOn(rows: seq<Run>, runs: seq<nat>) {
    && (forall k | 0 <= k < |runs| :: runs[k] < |rows|)
    && forall k, m | 0 <= k < m < |runs| :: rows[runs[m]].id <= rows[runs[k]].id
  }

  lemma NamedIfCarried(rows: seq<Run>, own: seq<string>, runs: seq<nat>, mark: string)
    ensures Named(FirstPer(Pairs(rows, own, runs)), mark) <==> exists i: nat :: Carries(rows, own, runs, mark, i)
  {
    var pairs := Pairs(rows, own, runs);
    FirstPerIs(pairs, mark);
    if Named(pairs, mark) {
      var k :| 0 <= k < |pairs| && pairs[k].0 == mark;
      PairsAre(rows, own, runs, pairs[k]);
    }
    if i: nat :| Carries(rows, own, runs, mark, i) {
      PairsAre(rows, own, runs, (mark, i));
      var k :| 0 <= k < |pairs| && pairs[k] == (mark, i);
      assert pairs[k].0 == mark;
    }
  }

  /** Of the runs that carry the mark, `i` is one with the highest id. */
  ghost predicate LatestWith(rows: seq<Run>, own: seq<string>, runs: seq<nat>, mark: string, i: nat) {
    && Carries(rows, own, runs, mark, i)
    && forall j: nat | Carries(rows, own, runs, mark, j) :: rows[j].id <= rows[i].id
  }

  lemma FirstIsLatest(rows: seq<Run>, own: seq<string>, runs: seq<nat>, p: (string, nat), k: nat)
    requires NewestOn(rows, runs) && FirstOf(Pairs(rows, own, runs), p, k)
    ensures LatestWith(rows, own, runs, p.0, p.1)
  {
    var pairs := Pairs(rows, own, runs);
    PairsDescend(rows, own, runs);
    PairsAre(rows, own, runs, p);
    forall j: nat | Carries(rows, own, runs, p.0, j) ensures rows[j].id <= rows[p.1].id {
      PairsAre(rows, own, runs, (p.0, j));
      var m :| 0 <= m < |pairs| && pairs[m] == (p.0, j);
      assert k <= m;
    }
  }

  lemma FoundAreLatest(rows: seq<Run>, own: seq<string>, runs: seq<nat>, mark: string)
    requires NewestOn(rows, runs)
    ensures var found := FirstPer(Pairs(rows, own, runs));
      forall n | 0 <= n < |found| && found[n].0 == mark :: LatestWith(rows, own, runs, mark, found[n].1)
  {
    var pairs := Pairs(rows, own, runs);
    var found := FirstPer(pairs);
    FirstPerIs(pairs, mark);
    forall n | 0 <= n < |found| && found[n].0 == mark ensures LatestWith(rows, own, runs, mark, found[n].1) {
      var k: nat :| FirstOf(pairs, found[n], k);
      FirstIsLatest(rows, own, runs, found[n], k);
    }
  }

  /** Every mark of a considered run that failed in the same modules is found, and named at the latest run with it. */
  lemma ReviewsNameTheLatest(rows: seq<Run>, cur: int, mark: string)
    ensures var own, runs := OwnModules(rows, cur), Considered(rows, cur);
      var found := FirstPer(Pairs(rows, own, runs));
      && (Named(found, mark) <==> exists i: nat :: Carries(rows, own, runs, mark, i))
      && forall n | 0 <= n < |found| && found[n].0 == mark :: LatestWith(rows, own, runs, mark, found[n].1)
  {
    ConsideredAre(rows, cur);
    NamedIfCarried(rows, OwnModules(rows, cur), Considered(rows, cur), mark);
    FoundAreLatest(rows, OwnModules(rows, cur), Considered(rows, cur), mark);
  }
}
