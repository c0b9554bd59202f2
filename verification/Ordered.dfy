/** Python's ordered dictionaries and its stable sort, in terms of positions: the places of a key in a sequence, the
    keys in the order they are first seen, and the positions of a sequence ranked by a pair of numbers. */
module Ordered {
  import opened PyText

  predicate Ascending(picked: seq<nat>) {
    forall a, b | 0 <= a < b < |picked| :: picked[a] < picked[b]
  }

  /** The positions below `n` that pass. */
  function Passing(n: nat, ok: nat -> bool): seq<nat> {
    if n == 0 then [] else Passing(n - 1, ok) + if ok(n - 1) then [n - 1] else []
  }

  lemma PassingStep(n: nat, ok: nat -> bool)
    ensures Passing(n + 1, ok) == if ok(n) then Passing(n, ok) + [n] else Passing(n, ok)
  {
  }

  lemma {:induction false} PassingAre(n: nat, ok: nat -> bool)
    ensures Ascending(Passing(n, ok)) && |Passing(n, ok)| <= n
    ensures forall i: nat :: i in Passing(n, ok) <==> i < n && ok(i)
  {
    if n > 0 {
      PassingAre(n - 1, ok);
      var before, picked := Passing(n - 1, ok), Passing(n, ok);
      forall a, b | 0 <= a < b < |picked| ensures picked[a] < picked[b] {
        assert picked[a] in before;
      }
    }
  }

  /** The positions of a key, in order. */
  function Places<T(==)>(s: seq<T>, key: T): seq<nat> {
    if s == [] then [] else Places(s[..|s| - 1], key) + if s[|s| - 1] == key then [|s| - 1] else []
  }

  lemma {:induction false} PlacesAre<T>(s: seq<T>, key: T)
    ensures forall i: nat :: i in Places(s, key) <==> i < |s| && s[i] == key
    ensures Ascending(Places(s, key))
  {
    if s != [] {
      var n := |s| - 1;
      PlacesAre(s[..n], key);
      var before, places := Places(s[..n], key), Places(s, key);
      forall a, b | 0 <= a < b < |places| ensures places[a] < places[b] {
        assert places[a] in before;
      }
      forall i: nat ensures i in places <==> i < |s| && s[i] == key {
        assert i < n ==> s[..n][i] == s[i];
      }
    }
  }

  lemma PlacesSnoc<T>(s: seq<T>, x: T, key: T)
    ensures Places(s + [x], key) == if x == key then Places(s, key) + [|s|] else Places(s, key)
  {
    var t := s + [x];
    assert t[..|t| - 1] == s && t[|t| - 1] == x;
  }

  lemma {:induction false} NoPlaces<T>(s: seq<T>, key: T)
    requires key !in s
    ensures Places(s, key) == []
  {
    if s != [] {
      NoPlaces(s[..|s| - 1], key);
    }
  }

  /** A dictionary that holds for each key of `s` its places. */
  ghost predicate HoldsPlaces<T(!new)>(s: seq<T>, groups: map<T, seq<nat>>) {
    && (forall key :: key in groups <==> key in s)
    && forall key | key in groups :: groups[key] == Places(s, key)
  }

  /** `groups.setdefault(key, []).append(i)`. */
  function SetDefaultAppend<T(==)>(groups: map<T, seq<nat>>, key: T, i: nat): map<T, seq<nat>> {
    groups[key := (if key in groups then groups[key] else []) + [i]]
  }

  lemma AppendHoldsPlaces<T(!new)>(s: seq<T>, x: T, groups: map<T, seq<nat>>)
    requires HoldsPlaces(s, groups)
    ensures HoldsPlaces(s + [x], SetDefaultAppend(groups, x, |s|))
  {
    if x !in groups {
      NoPlaces(s, x);
    }
    forall key ensures Places(s + [x], key) == if x == key then Places(s, key) + [|s|] else Places(s, key) {
      PlacesSnoc(s, x, key);
    }
  }

  // ---------------------------------------------------------------- the keys of a dictionary

  /** `list(dict.fromkeys(s))`. */
  function FromKeys<T(==)>(s: seq<T>): seq<T> {
    if s == [] then []
    else
      var keys, x := FromKeys(s[..|s| - 1]), s[|s| - 1];
      if x in keys then keys else keys + [x]
  }

  lemma FromKeysSnoc<T>(s: seq<T>, x: T)
    ensures FromKeys(s + [x]) == if x in FromKeys(s) then FromKeys(s) else FromKeys(s) + [x]
  {
    assert (s + [x])[..|s|] == s;
  }

  ghost predicate Distinct<T(!new)>(s: seq<T>) {
    forall i, j | 0 <= i < j < |s| :: s[i] != s[j]
  }

  lemma {:induction false} KeysAre<T(!new)>(s: seq<T>)
    ensures Distinct(FromKeys(s))
    ensures forall x :: x in FromKeys(s) <==> x in s
  {
    if s != [] {
      KeysAre(s[..|s| - 1]);
      TwoParts(s, |s| - 1);
    }
  }

  /** Where `x` is first. */
  function FirstPlace<T(==)>(s: seq<T>, x: T): (r: nat)
    requires x in s
    ensures r < |s| && s[r] == x && x !in s[..r]
  {
    if x in s[..|s| - 1] then
      var r := FirstPlace(s[..|s| - 1], x);
      assert s[..|s| - 1][..r] == s[..r];
      r
    else |s| - 1
  }

  lemma FirstPlaceOnly<T>(s: seq<T>, x: T, r: nat)
    requires r < |s| && s[r] == x && x !in s[..r]
    ensures FirstPlace(s, x) == r
  {
    var f := FirstPlace(s, x);
    assert forall k | 0 <= k < r :: s[k] in s[..r];
    assert forall k | 0 <= k < f :: s[k] in s[..f];
  }

  /** The keys are in the order in which they are first seen. */
  lemma {:induction false} KeysInOrder<T(!new)>(s: seq<T>, i: nat, j: nat)
    requires i < j < |FromKeys(s)|
    ensures FromKeys(s)[i] in s && FromKeys(s)[j] in s
    ensures FirstPlace(s, FromKeys(s)[i]) < FirstPlace(s, FromKeys(s)[j])
  {
    var before, keys := s[..|s| - 1], FromKeys(s);
    KeysAre(s);
    KeysAre(before);
    assert keys[i] in keys && keys[j] in keys;
    if j < |FromKeys(before)| {
      KeysInOrder(before, i, j);
      FirstStays(before, s[|s| - 1], keys[i]);
      FirstStays(before, s[|s| - 1], keys[j]);
      TwoParts(s, |s| - 1);
    } else {
      assert keys[i] in before && keys[j] !in before;
      FirstStays(before, s[|s| - 1], keys[i]);
      TwoParts(s, |s| - 1);
      FirstPlaceOnly(s, keys[j], |s| - 1);
    }
  }

  lemma FirstStays<T>(s: seq<T>, x: T, y: T)
    requires y in s
    ensures y in s + [x] && FirstPlace(s + [x], y) == FirstPlace(s, y)
  {
    var f := FirstPlace(s, y);
    assert (s + [x])[..f] == s[..f];
    FirstPlaceOnly(s + [x], y, f);
  }

  /** How many of the elements have one of the first `k` of these keys. */
  function Held<T(==)>(s: seq<T>, keys: seq<T>): nat {
    if keys == [] then 0 else Held(s, keys[..|keys| - 1]) + |Places(s, keys[|keys| - 1])|
  }

  lemma {:induction false} HeldSnoc<T(!new)>(s: seq<T>, x: T, keys: seq<T>)
    requires Distinct(keys)
    ensures Held(s + [x], keys) == Held(s, keys) + if x in keys then 1 else 0
  {
    if keys != [] {
      HeldSnoc(s, x, keys[..|keys| - 1]);
      PlacesSnoc(s, x, keys[|keys| - 1]);
      TwoParts(keys, |keys| - 1);
    }
  }

  /** Every element is at a place of exactly one of the keys. */
  lemma {:induction false} KeysHoldAll<T(!new)>(s: seq<T>)
    ensures Held(s, FromKeys(s)) == |s|
  {
    if s != [] {
      var before, x := s[..|s| - 1], s[|s| - 1];
      KeysHoldAll(before);
      KeysAre(before);
      TwoParts(s, |s| - 1);
      var keys := FromKeys(before);
      HeldSnoc(before, x, keys);
      if x !in keys {
        NoPlaces(before, x);
        PlacesSnoc(before, x, x);
        assert (keys + [x])[..|keys|] == keys;
      }
    }
  }

  // ---------------------------------------------------------------- a stable sort

  type Rank = nat -> (int, int)

  predicate Lower(a: (int, int), b: (int, int)) {
    a.0 < b.0 || (a.0 == b.0 && a.1 < b.1)
  }

  /** Position `i` comes before position `j` in a stable sort by `rank`. */
  predicate Precedes(rank: Rank, i: nat, j: nat) {
    Lower(rank(i), rank(j)) || (rank(i) == rank(j) && i < j)
  }

  function Insert(r: seq<nat>, x: nat, rank: Rank): seq<nat> {
    if r != [] && Precedes(rank, x, r[|r| - 1]) then Insert(r[..|r| - 1], x, rank) + [r[|r| - 1]] else r + [x]
  }

  /** `sorted(..., key=rank)` of the elements at some ascending positions. */
  function SortedBy(picked: seq<nat>, rank: Rank): seq<nat> {
    if picked == [] then [] else Insert(SortedBy(picked[..|picked| - 1], rank), picked[|picked| - 1], rank)
  }

  /** The first `n` of them. */
  function Top(picked: seq<nat>, rank: Rank, n: nat): (r: seq<nat>)
    ensures |r| <= n
  {
    var sorted := SortedBy(picked, rank);
    if |sorted| < n then sorted else sorted[..n]
  }

  ghost predicate InRank(r: seq<nat>, rank: Rank) {
    forall a, b | 0 <= a < b < |r| :: Precedes(rank, r[a], r[b])
  }

  lemma {:induction false} InsertKeeps(r: seq<nat>, x: nat, rank: Rank)
    requires InRank(r, rank) && x !in r
    ensures InRank(Insert(r, x, rank), rank) && |Insert(r, x, rank)| == |r| + 1
    ensures forall i: nat :: i in Insert(r, x, rank) <==> i in r || i == x
  {
    if r != [] {
      var front, last := r[..|r| - 1], r[|r| - 1];
      TwoParts(r, |r| - 1);
      if Precedes(rank, x, last) {
        InsertKeeps(front, x, rank);
        var more := Insert(front, x, rank);
        forall a | 0 <= a < |more| ensures Precedes(rank, more[a], last) {
          assert more[a] in more;
        }
      }
    }
  }

  /** The sorted positions are the picked ones, and each precedes the later ones. */
  lemma {:induction false} SortedIs(picked: seq<nat>, rank: Rank)
    requires Ascending(picked)
    ensures |SortedBy(picked, rank)| == |picked| && InRank(SortedBy(picked, rank), rank)
    ensures forall i: nat :: i in SortedBy(picked, rank) <==> i in picked
  {
    if picked != [] {
      var front, last := picked[..|picked| - 1], picked[|picked| - 1];
      TwoParts(picked, |picked| - 1);
      SortedIs(front, rank);
      InsertKeeps(SortedBy(front, rank), last, rank);
    }
  }

  /** The first `n` are picked and in order, and there are fewer than `n` only if nothing is picked besides. */
  lemma TopIs(picked: seq<nat>, rank: Rank, n: nat)
    requires Ascending(picked)
    ensures var top := Top(picked, rank, n);
      && InRank(top, rank) && (forall i | i in top :: i in picked)
      && |top| <= |picked| && (|top| < n ==> |top| == |picked|)
  {
    SortedIs(picked, rank);
    var sorted, top := SortedBy(picked, rank), Top(picked, rank, n);
    forall a, b | 0 <= a < b < |top| ensures Precedes(rank, top[a], top[b]) {
      assert Precedes(rank, sorted[a], sorted[b]);
    }
  }

  /** What is picked but not among the first `n` comes after all of those. */
  lemma RestComeAfter(picked: seq<nat>, rank: Rank, n: nat, i: nat, a: nat)
    requires Ascending(picked) && i in picked && i !in Top(picked, rank, n) && a < |Top(picked, rank, n)|
    ensures Precedes(rank, Top(picked, rank, n)[a], i) && |Top(picked, rank, n)| == n
  {
    SortedIs(picked, rank);
    var sorted, top := SortedBy(picked, rank), Top(picked, rank, n);
    var b :| 0 <= b < |sorted| && sorted[b] == i;
    assert forall k | 0 <= k < |top| :: top[k] == sorted[k] && top[k] in top;
  }

  /** Among the first `n` each precedes the later ones and all that are not among them. */
  lemma TopPrecedes(picked: seq<nat>, rank: Rank, n: nat, a: nat, b: nat)
    requires Ascending(picked) && b in picked && a < |Top(picked, rank, n)|
    requires b !in Top(picked, rank, n) || exists k | a < k < |Top(picked, rank, n)| :: Top(picked, rank, n)[k] == b
    ensures Top(picked, rank, n)[a] in picked && Precedes(rank, Top(picked, rank, n)[a], b)
  {
    var top := Top(picked, rank, n);
    TopIs(picked, rank, n);
    assert top[a] in top;
    if b !in top {
      RestComeAfter(picked, rank, n, b, a);
    } else {
      var k :| a < k < |top| && top[k] == b;
      assert Precedes(rank, top[a], top[k]);
    }
  }

  /** Only the ranks of the picked positions matter. */
  lemma {:induction false} SameRankSameOrder(picked: seq<nat>, rank: Rank, other: Rank)
    requires Ascending(picked) && forall i | i in picked :: rank(i) == other(i)
    ensures SortedBy(picked, rank) == SortedBy(picked, other)
  {
    if picked != [] {
      var front, last := picked[..|picked| - 1], picked[|picked| - 1];
      TwoParts(picked, |picked| - 1);
      SameRankSameOrder(front, rank, other);
      SortedIs(front, rank);
      InsertSame(SortedBy(front, rank), last, rank, other);
    }
  }

  lemma {:induction false} InsertSame(r: seq<nat>, x: nat, rank: Rank, other: Rank)
    requires rank(x) == other(x) && forall i | i in r :: rank(i) == other(i)
    ensures Insert(r, x, rank) == Insert(r, x, other)
  {
    if r != [] {
      TwoParts(r, |r| - 1);
      assert r[|r| - 1] in r;
      InsertSame(r[..|r| - 1], x, rank, other);
    }
  }

  // ---------------------------------------------------------------- sums

  function Total(size: nat -> nat, r: seq<nat>): nat {
    if r == [] then 0 else Total(size, r[..|r| - 1]) + size(r[|r| - 1])
  }

  lemma TotalSnoc(size: nat -> nat, r: seq<nat>, x: nat)
    ensures Total(size, r + [x]) == Total(size, r) + size(x)
  {
    assert (r + [x])[..|r|] == r;
  }

  lemma {:induction false} TotalOfInsert(size: nat -> nat, r: seq<nat>, x: nat, rank: Rank)
    ensures Total(size, Insert(r, x, rank)) == Total(size, r) + size(x)
  {
    TotalSnoc(size, r, x);
    if r != [] {
      TotalOfInsert(size, r[..|r| - 1], x, rank);
      TotalSnoc(size, Insert(r[..|r| - 1], x, rank), r[|r| - 1]);
    }
  }

  /** Sorting changes no sum. */
  lemma {:induction false} TotalOfSorted(size: nat -> nat, picked: seq<nat>, rank: Rank)
    ensures Total(size, SortedBy(picked, rank)) == Total(size, picked)
  {
    if picked != [] {
      TotalOfSorted(size, picked[..|picked| - 1], rank);
      TotalOfInsert(size, SortedBy(picked[..|picked| - 1], rank), picked[|picked| - 1], rank);
    }
  }

  lemma {:induction false} TotalConcat(size: nat -> nat, a: seq<nat>, b: seq<nat>)
    ensures Total(size, a + b) == Total(size, a) + Total(size, b)
  {
    if b == [] {
      assert a + b == a;
    } else {
      TwoParts(b, |b| - 1);
      Associative(a, b[..|b| - 1], [b[|b| - 1]]);
      TotalConcat(size, a, b[..|b| - 1]);
      TotalSnoc(size, a + b[..|b| - 1], b[|b| - 1]);
    }
  }

  /** The first `n` positions. */
  function UpTo(n: nat): (r: seq<nat>)
    ensures |r| == n && forall i | 0 <= i < n :: r[i] == i
  {
    if n == 0 then [] else UpTo(n - 1) + [n - 1]
  }

  lemma UpToIs(n: nat)
    ensures Ascending(UpTo(n)) && forall i: nat :: i in UpTo(n) <==> i < n
  {
    forall i: nat | i < n ensures i in UpTo(n) {
      assert UpTo(n)[i] == i;
    }
  }

  lemma {:induction false} TotalCounts<T>(at: seq<T>, r: seq<nat>, x: T, size: nat -> nat)
    requires |at| == |r| && forall k | 0 <= k < |r| :: size(r[k]) == if at[k] == x then 1 else 0
    ensures multiset(at)[x] == Total(size, r)
  {
    if r != [] {
      var n := |r| - 1;
      TotalCounts(at[..n], r[..n], x, size);
      assert at == at[..n] + [at[n]];
    }
  }

  function IsAt<T(==)>(s: seq<T>, x: T): nat -> nat {
    (i: nat) => if i < |s| && s[i] == x then 1 else 0
  }

  ghost predicate ElementsAt<T>(at: seq<T>, s: seq<T>, order: seq<nat>) {
    |at| == |order| && forall k | 0 <= k < |order| :: order[k] < |s| && at[k] == s[order[k]]
  }

  lemma SameCounts<T>(at: seq<T>, s: seq<T>, order: seq<nat>, x: T)
    requires ElementsAt(at, s, order) && Total(IsAt(s, x), order) == Total(IsAt(s, x), UpTo(|s|))
    ensures multiset(at)[x] == multiset(s)[x]
  {
    TotalCounts(at, order, x, IsAt(s, x));
    TotalCounts(s, UpTo(|s|), x, IsAt(s, x));
  }

  /** Sorting changes nothing but the order: the elements in the sorted order are the same ones, as often. */
  lemma SortedSame<T(!new)>(at: seq<T>, s: seq<T>, rank: Rank)
    requires ElementsAt(at, s, SortedBy(UpTo(|s|), rank))
    ensures multiset(at) == multiset(s)
  {
    forall x: T ensures multiset(at)[x] == multiset(s)[x] {
      TotalOfSorted(IsAt(s, x), UpTo(|s|), rank);
      SameCounts(at, s, SortedBy(UpTo(|s|), rank), x);
    }
  }
}
