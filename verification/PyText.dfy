/** The few operations of Python's `str` and `bytes` that the modelled code leans on:
    white space, stripping, substring search, `split`/`join` on one separator, decimal numbers. */
module PyText {

  datatype Option<+T> = None | Some(value: T)

  /** `str.isspace` of one character. */
  predicate IsSpace(c: char) {
    var n := c as int;
    9 <= n <= 13 || 28 <= n <= 32 || n == 0x85 || n == 0xa0 || n == 0x1680 || 0x2000 <= n <= 0x200a ||
    n == 0x2028 || n == 0x2029 || n == 0x202f || n == 0x205f || n == 0x3000
  }

  /** `not s.strip()`. */
  predicate IsBlank(s: string) {
    forall c | c in s :: IsSpace(c)
  }

  function RStrip(s: string): (r: string)
    ensures r <= s
    ensures r != [] ==> !IsSpace(r[|r| - 1])
    ensures forall i | |r| <= i < |s| :: IsSpace(s[i])
  {
    if s == [] || !IsSpace(s[|s| - 1]) then s else RStrip(s[..|s| - 1])
  }

  function LStrip(s: string): (r: string)
    ensures |r| <= |s| && r == s[|s| - |r|..]
    ensures r != [] ==> !IsSpace(r[0])
    ensures forall i | 0 <= i < |s| - |r| :: IsSpace(s[i])
  {
    if s == [] || !IsSpace(s[0]) then s else LStrip(s[1..])
  }

  function Strip(s: string): string {
    RStrip(LStrip(s))
  }

  /** The white space in front of the first other character. */
  function Indent(s: string): (r: string)
    ensures r <= s && forall c | c in r :: IsSpace(c)
  {
    s[..|s| - |LStrip(s)|]
  }

  /** `s` holds `t` from position `i` on. */
  predicate OccursAt<T(==)>(s: seq<T>, t: seq<T>, i: int) {
    0 <= i <= |s| - |t| && s[i..i + |t|] == t
  }

  /** `t in s`. */
  predicate Contains<T(==)>(s: seq<T>, t: seq<T>) {
    exists i | 0 <= i <= |s| :: OccursAt(s, t, i)
  }

  lemma ContainsIs<T>(s: seq<T>, t: seq<T>)
    ensures Contains(s, t) <==> exists a, b :: s == a + t + b
  {
    if Contains(s, t) {
      var i :| 0 <= i <= |s| && OccursAt(s, t, i);
      assert s == s[..i] + t + s[i + |t|..];
    }
    if a, b :| s == a + t + b {
      assert s[|a|..|a| + |t|] == t;
      assert OccursAt(s, t, |a|);
    }
  }

  predicate EndsWith<T(==)>(s: seq<T>, t: seq<T>) {
    |t| <= |s| && s[|s| - |t|..] == t
  }

  /** The last place whose element passes. */
  function LastWhere<T>(s: seq<T>, ok: T -> bool): (r: Option<nat>)
    ensures r.None? <==> forall k | 0 <= k < |s| :: !ok(s[k])
    ensures r.Some? ==> r.value < |s| && ok(s[r.value]) && forall k | r.value < k < |s| :: !ok(s[k])
  {
    if s == [] then None else if ok(s[|s| - 1]) then Some(|s| - 1) else LastWhere(s[..|s| - 1], ok)
  }

  function Digits(n: nat): (r: string)
    ensures r != [] && forall c | c in r :: '0' <= c <= '9'
  {
    var last := [('0' as int + n % 10) as char];
    if n < 10 then last else Digits(n / 10) + last
  }

  /** The number that a text of digits denotes. */
  function NumberOf(s: string): int {
    if s == [] then 0 else 10 * NumberOf(s[..|s| - 1]) + (s[|s| - 1] as int - '0' as int)
  }

  /** A number is shown in decimal, without a leading zero. */
  lemma {:induction false} DigitsDenote(n: nat)
    ensures NumberOf(Digits(n)) == n && (Digits(n)[0] == '0' ==> n == 0)
  {
    var r := Digits(n);
    if 10 <= n {
      DigitsDenote(n / 10);
      assert r[..|r| - 1] == Digits(n / 10) && r[0] == Digits(n / 10)[0];
    } else {
      assert r[..|r| - 1] == [];
    }
  }

  /** The digits in a text. */
  function DigitsIn(s: string): string {
    if s == [] then []
    else DigitsIn(s[..|s| - 1]) + if '0' <= s[|s| - 1] <= '9' then [s[|s| - 1]] else []
  }

  lemma {:induction false} DigitsInConcat(a: string, b: string)
    ensures DigitsIn(a + b) == DigitsIn(a) + DigitsIn(b)
  {
    if b == [] {
      assert a + b == a;
    } else {
      DigitsInConcat(a, b[..|b| - 1]);
      assert (a + b)[..|a + b| - 1] == a + b[..|b| - 1];
    }
  }

  lemma {:induction false} AllDigits(s: string)
    requires forall i | 0 <= i < |s| :: '0' <= s[i] <= '9'
    ensures DigitsIn(s) == s
  {
    if s != [] {
      AllDigits(s[..|s| - 1]);
    }
  }

  lemma {:induction false} NoDigits(s: string)
    requires forall i | 0 <= i < |s| :: !('0' <= s[i] <= '9')
    ensures DigitsIn(s) == []
  {
    if s != [] {
      NoDigits(s[..|s| - 1]);
    }
  }

  lemma Between(a: string, b: string, d: string, r: string)
    requires a == [] && b == [] && r == a + d + b
    ensures r == d
  {
  }

  /** The one number in a text that shows `n` is `n`. */
  lemma OneNumber(a: string, n: nat, b: string)
    requires forall i | 0 <= i < |a| :: !('0' <= a[i] <= '9')
    requires forall i | 0 <= i < |b| :: !('0' <= b[i] <= '9')
    ensures NumberOf(DigitsIn(a + Digits(n) + b)) == n
  {
    var d := Digits(n);
    assert forall i | 0 <= i < |d| :: d[i] in d;
    NoDigits(a);
    AllDigits(d);
    NoDigits(b);
    DigitsInConcat(a, d);
    DigitsInConcat(a + d, b);
    Between(DigitsIn(a), DigitsIn(b), d, DigitsIn(a + d + b));
    DigitsDenote(n);
  }

  /** `s.split(sep)` for a separator of one element. */
  function Split<T(==)>(s: seq<T>, sep: T): (parts: seq<seq<T>>)
    ensures parts != []
    ensures forall p | p in parts :: sep !in p
  {
    if s == [] then [[]]
    else
      var rest := Split(s[1..], sep);
      if s[0] == sep then [[]] + rest else Grow(s[0], rest)
  }

  /** One element more at the front of the first part. */
  function Grow<T>(x: T, parts: seq<seq<T>>): seq<seq<T>>
    requires parts != []
  {
    [[x] + parts[0]] + parts[1..]
  }

  lemma GrowConcat<T>(x: T, p: seq<seq<T>>, q: seq<seq<T>>)
    requires p != []
    ensures Grow(x, p + q) == Grow(x, p) + q
  {
    assert (p + q)[1..] == p[1..] + q;
  }

  /** `sep.join(parts)`. */
  function Join<T>(parts: seq<seq<T>>, sep: T): seq<T> {
    if parts == [] then [] else if |parts| == 1 then parts[0] else parts[0] + [sep] + Join(parts[1..], sep)
  }

  function Count<T(==)>(s: seq<T>, x: T): nat {
    if s == [] then 0 else (if s[0] == x then 1 else 0) + Count(s[1..], x)
  }

  lemma BlankStrips(s: string)
    ensures RStrip(s) == [] <==> IsBlank(s)
    ensures IsBlank(RStrip(s)) <==> IsBlank(s)
  {
    if !IsBlank(s) {
      var c :| c in s && !IsSpace(c);
      var i :| 0 <= i < |s| && s[i] == c;
      assert i < |RStrip(s)| && RStrip(s)[i] == c;
    }
    if RStrip(s) == [] {
      assert forall i | 0 <= i < |s| :: IsSpace(s[i]);
    }
  }

  lemma RStripFixed(s: string)
    requires s == [] || !IsSpace(s[|s| - 1])
    ensures RStrip(s) == s
  {
  }

  lemma {:induction false} JoinOfSplit<T>(s: seq<T>, sep: T)
    ensures Join(Split(s, sep), sep) == s
  {
    if s != [] {
      JoinOfSplit(s[1..], sep);
      var rest := Split(s[1..], sep);
      if s[0] == sep {
        assert ([[]] + rest)[1..] == rest;
      } else if |rest| > 1 {
        assert Grow(s[0], rest)[1..] == rest[1..];
      }
    }
  }

  lemma SplitCons<T>(x: T, s: seq<T>, sep: T)
    ensures Split([x] + s, sep) == if x == sep then [[]] + Split(s, sep) else Grow(x, Split(s, sep))
  {
    assert ([x] + s)[1..] == s;
  }

  lemma {:induction false} SplitAtSeparator<T>(a: seq<T>, sep: T, b: seq<T>)
    ensures Split(a + [sep] + b, sep) == Split(a, sep) + Split(b, sep)
  {
    if a == [] {
      assert a + [sep] + b == [sep] + b;
      SplitCons(sep, b, sep);
    } else {
      var x, rest := a[0], a[1..];
      SplitAtSeparator(rest, sep, b);
      assert a + [sep] + b == [x] + (rest + [sep] + b);
      SplitCons(x, rest + [sep] + b, sep);
      if x != sep {
        GrowConcat(x, Split(rest, sep), Split(b, sep));
      } else {
        assert [[]] + (Split(rest, sep) + Split(b, sep)) == ([[]] + Split(rest, sep)) + Split(b, sep);
      }
    }
  }

  lemma {:induction false} SplitLength<T>(s: seq<T>, sep: T)
    ensures |Split(s, sep)| == Count(s, sep) + 1
    ensures sep !in s ==> Split(s, sep) == [s]
  {
    if s != [] {
      SplitLength(s[1..], sep);
      assert s == [s[0]] + s[1..];
    }
  }

  lemma {:induction false} SplitOfJoin<T>(parts: seq<seq<T>>, sep: T)
    requires parts != [] && forall p | p in parts :: sep !in p
    ensures Split(Join(parts, sep), sep) == parts
  {
    SplitLength(parts[0], sep);
    if |parts| > 1 {
      SplitOfJoin(parts[1..], sep);
      SplitAtSeparator(parts[0], sep, Join(parts[1..], sep));
    }
  }

  lemma {:induction false} CountConcat<T>(a: seq<T>, b: seq<T>, x: T)
    ensures Count(a + b, x) == Count(a, x) + Count(b, x)
  {
    if a == [] {
      assert a + b == b;
    } else {
      CountConcat(a[1..], b, x);
      assert (a + b)[1..] == a[1..] + b;
    }
  }

  lemma {:induction false} CountZero<T>(s: seq<T>, x: T)
    ensures Count(s, x) == 0 <==> x !in s
  {
    if s != [] {
      CountZero(s[1..], x);
    }
  }

  /** Whole parts in front: what `a` splits into stays in front, whatever follows the separator after it. */
  lemma LinesBefore<T>(a: seq<T>, sep: T, b: seq<T>, c: seq<T>)
    requires sep !in b
    ensures Count(a + [sep] + b, sep) == |Split(a, sep)|
    ensures Split((a + [sep] + b) + c, sep) == Split(a, sep) + Split(b + c, sep)
  {
    assert (a + [sep] + b) + c == a + [sep] + (b + c);
    SplitAtSeparator(a, sep, b + c);
    SplitLength(a, sep);
    CountOfSeparated(a, sep, b);
    CountZero(b, sep);
  }

  /** Whole parts at the end, likewise. */
  lemma LinesAfter<T>(c: seq<T>, b: seq<T>, sep: T, a: seq<T>)
    requires sep !in b
    ensures Count(b + [sep] + a, sep) == |Split(a, sep)|
    ensures Split(c + (b + [sep] + a), sep) == Split(c + b, sep) + Split(a, sep)
  {
    assert c + (b + [sep] + a) == (c + b) + [sep] + a;
    SplitAtSeparator(c + b, sep, a);
    SplitLength(a, sep);
    CountOfSeparated(b, sep, a);
    CountZero(b, sep);
  }

  lemma CountOfSeparated<T>(a: seq<T>, sep: T, b: seq<T>)
    ensures Count(a + [sep] + b, sep) == Count(a, sep) + 1 + Count(b, sep)
  {
    CountConcat(a + [sep], b, sep);
    CountConcat(a, [sep], sep);
  }

  lemma TwoParts<T>(s: seq<T>, n: nat)
    requires n <= |s|
    ensures s == s[..n] + s[n..]
    ensures n == |s| - 1 ==> s == s[..n] + [s[n]]
  {
  }

  lemma Associative<T>(a: seq<T>, b: seq<T>, c: seq<T>)
    ensures (a + b) + c == a + (b + c)
  {
  }

  lemma SliceAround<T>(s: seq<T>, lo: nat, i: nat, hi: nat)
    requires lo <= i < hi <= |s|
    ensures s[lo..i] + [s[i]] + s[i + 1..hi] == s[lo..hi]
  {
    var parts := s[lo..i] + [s[i]] + s[i + 1..hi];
    assert |parts| == hi - lo;
    assert forall k | 0 <= k < hi - lo :: parts[k] == s[lo + k] == s[lo..hi][k];
  }
}
