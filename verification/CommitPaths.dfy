/** Which commits touch a failed test: git's abbreviated file names against full paths, the files of the stack traces
    of an analysis, and the order and the counts of the marked commits. */
module CommitPaths {
  import opened PyText
  import opened Proximity
  import opened Ordered

  const ELLIPSIS := "..."
  const ABBREVIATED := ".../"
  const RENAME := " => "
  const TEST_DIED := "# Test died:"
  const TRACE_START := "--- Stack trace ---"
  const SECTION_END := "--- End of Log Section ---"
  const MAX_SHOWN := 10

  // ---------------------------------------------------------------- the tails of a path

  /** `_tails`. */
  function Tails(path: string): seq<string> {
    var parts := Split(path, '/');
    seq(|parts| - 1, i requires 0 <= i < |parts| => Join(parts[i..], '/'))
  }

  /** `t` has at least two components, which are the last ones of `path`. */
  predicate OnBoundary(t: string, path: string) {
    '/' in t && (t == path || EndsWith(path, "/" + t))
  }

  lemma {:induction false} JoinCut(parts: seq<string>, i: nat)
    requires 0 < i < |parts|
    ensures Join(parts, '/') == Join(parts[..i], '/') + (['/'] + Join(parts[i..], '/'))
  {
    if i > 1 {
      JoinCut(parts[1..], i - 1);
      assert parts[1..][..i - 1] == parts[..i][1..] && parts[1..][i - 1..] == parts[i..];
      JoinAssociative(parts[0], Join(parts[..i][1..], '/'), Join(parts[i..], '/'));
    } else {
      assert parts[..1] == [parts[0]];
      Associative(parts[0], ['/'], Join(parts[1..], '/'));
    }
  }

  lemma JoinAssociative(a: string, b: string, c: string)
    ensures a + ['/'] + (b + (['/'] + c)) == (a + ['/'] + b) + (['/'] + c)
  {
  }

  lemma TailIsOnBoundary(path: string, i: nat)
    requires i < |Split(path, '/')| - 1
    ensures OnBoundary(Join(Split(path, '/')[i..], '/'), path)
  {
    var parts := Split(path, '/');
    var t := Join(parts[i..], '/');
    SplitOfJoin(parts[i..], '/');
    SplitLength(t, '/');
    JoinOfSplit(path, '/');
    if i == 0 {
      assert parts[0..] == parts;
    } else {
      JoinCut(parts, i);
      SuffixOfConcat(Join(parts[..i], '/'), "/" + t);
    }
  }

  lemma SuffixOfConcat(a: string, b: string)
    ensures EndsWith(a + b, b)
  {
  }

  lemma BoundaryIsTail(path: string, t: string)
    requires OnBoundary(t, path)
    ensures t in Tails(path)
  {
    var parts := Split(path, '/');
    SplitLength(t, '/');
    CountSome(t, '/');
    JoinOfSplit(t, '/');
    if t == path {
      assert parts[0..] == parts;
      assert Tails(path)[0] == t;
    } else {
      var a := path[..|path| - |t| - 1];
      assert path == a + ['/'] + t;
      SplitAtSeparator(a, '/', t);
      var i := |Split(a, '/')|;
      assert parts[i..] == Split(t, '/');
      assert Tails(path)[i] == t;
    }
  }

  lemma {:induction false} CountSome(s: string, c: char)
    requires c in s
    ensures Count(s, c) > 0
  {
    if s[0] != c {
      assert c in s[1..];
      CountSome(s[1..], c);
    }
  }

  /** The tails are the ends of the path, from a component on, that have at least two components. */
  lemma TailsAre(path: string, t: string)
    ensures t in Tails(path) <==> OnBoundary(t, path)
  {
    if t in Tails(path) {
      var i :| 0 <= i < |Tails(path)| && Tails(path)[i] == t;
      TailIsOnBoundary(path, i);
    }
    if OnBoundary(t, path) {
      BoundaryIsTail(path, t);
    }
  }

  // ---------------------------------------------------------------- how git cuts a path

  lemma TakeCons(s: string, n: nat)
    requires 0 < n <= |s|
    ensures s[..n] == [s[0]] + s[1..][..n - 1]
  {
  }

  /** From the first `/` on. */
  function FromSlash(s: string): (r: string)
    requires '/' in s
    ensures EndsWith(s, r) && r != "" && r[0] == '/' && '/' !in s[..|s| - |r|]
  {
    if s[0] == '/' then s
    else
      var r := FromSlash(s[1..]);
      TakeCons(s, |s| - |r|);
      r
  }

  /** What a name column of `width` has room for behind the dots. */
  function Room(width: nat): nat {
    if width < |ELLIPSIS| then 0 else width - |ELLIPSIS|
  }

  /** `_abbreviated`. */
  function Abbreviated(path: string, width: nat): string {
    if |path| <= width then path
    else
      var kept := path[|path| - Room(width)..];
      ELLIPSIS + TailOf(kept)
  }

  /** A name is as wide as its column at most if and only if the dots have room, or the path is short anyway. */
  lemma AbbreviatedFits(path: string, width: nat)
    ensures |Abbreviated(path, width)| <= width <==> |path| <= width || 3 <= width
  {
  }

  predicate SlashTail(path: string, t: string) {
    t != "" && t[0] == '/' && EndsWith(path, t)
  }

  predicate Fitting(path: string, room: nat, t: string) {
    SlashTail(path, t) && |t| <= room
  }

  /** The longest tail from a `/` on that fits, or if none fits just the last characters. */
  ghost predicate BestTail(path: string, room: nat, t: string)
    requires room <= |path|
  {
    if exists u :: Fitting(path, room, u)
    then Fitting(path, room, t) && forall u | Fitting(path, room, u) :: |u| <= |t|
    else t == path[|path| - room..] && '/' !in t
  }

  function TailOf(kept: string): string {
    if '/' in kept then FromSlash(kept) else kept
  }

  lemma TailOfIsBest(path: string, room: nat)
    requires room <= |path|
    ensures BestTail(path, room, TailOf(path[|path| - room..]))
  {
    var kept := path[|path| - room..];
    if '/' in kept {
      EndsWithPart(path, kept, FromSlash(kept));
      assert Fitting(path, room, FromSlash(kept));
      forall u | Fitting(path, room, u) ensures |u| <= |FromSlash(kept)| {
        FirstSlashIsFirst(path, kept, u);
      }
    } else {
      forall u ensures !Fitting(path, room, u) {
        if Fitting(path, room, u) {
          TailIsInKept(path, kept, u);
        }
      }
    }
  }

  lemma EndsWithPart(a: string, b: string, c: string)
    requires EndsWith(a, b) && EndsWith(b, c)
    ensures EndsWith(a, c)
  {
  }

  /** A cut name is dots and the best tail. */
  lemma CutKeepsLongestTail(path: string, width: nat) returns (t: string)
    requires width < |path|
    ensures Abbreviated(path, width) == ELLIPSIS + t && BestTail(path, Room(width), t)
  {
    t := TailOf(path[|path| - Room(width)..]);
    TailOfIsBest(path, Room(width));
  }

  lemma TailIsInKept(path: string, kept: string, u: string)
    requires EndsWith(path, kept) && SlashTail(path, u) && |u| <= |kept|
    ensures kept[|kept| - |u|] == '/' && '/' in kept
  {
    assert path[|path| - |u|] == '/';
  }

  lemma FirstSlashIsFirst(path: string, kept: string, u: string)
    requires EndsWith(path, kept) && '/' in kept && SlashTail(path, u) && |u| <= |kept|
    ensures |u| <= |FromSlash(kept)|
  {
    var before := kept[..|kept| - |FromSlash(kept)|];
    TailIsInKept(path, kept, u);
    assert forall k | 0 <= k < |before| :: kept[k] in before;
  }

  // ---------------------------------------------------------------- is it the file?

  /** `_same_side`. */
  predicate SameSide(side: string, path: string, prefixed: bool) {
    var cut := ABBREVIATED <= side;
    var tail := if cut then side[|ABBREVIATED|..] else side;
    if !cut && !prefixed then path == side else tail in Tails(path)
  }

  /** `_is_file`, with `_sides` as a parameter. */
  predicate IsFile(name: string, width: nat, path: string, prefixed: bool, sides: string -> seq<string>) {
    if Contains(name, RENAME) then exists side | side in sides(name) :: SameSide(side, path, prefixed)
    else exists p | p in (if prefixed then Tails(path) else [path]) :: name == Abbreviated(p, width)
  }

  /** What a cut name can be the name of: a path that does not fit the column and has the rest as its best tail. */
  ghost predicate CutOf(rest: string, width: nat, path: string) {
    width < |path| && BestTail(path, Room(width), rest)
  }

  lemma BestTailOnly(path: string, room: nat, t: string, u: string)
    requires room <= |path| && BestTail(path, room, t) && BestTail(path, room, u)
    ensures t == u
  {
  }

  lemma SameEnd(path: string, p: string, u: string)
    requires EndsWith(path, p) && |u| <= |p|
    ensures EndsWith(path, u) <==> EndsWith(p, u)
  {
    assert path[|path| - |u|..] == p[|p| - |u|..];
  }

  /** The best tail of the end of a path is the best tail of the path. */
  lemma BestTailOfEnd(path: string, p: string, room: nat, t: string)
    requires EndsWith(path, p) && room <= |p|
    ensures BestTail(p, room, t) <==> BestTail(path, room, t)
  {
    forall u ensures Fitting(p, room, u) <==> Fitting(path, room, u) {
      if |u| <= room {
        SameEnd(path, p, u);
      }
    }
    assert path[|path| - room..] == p[|p| - room..];
  }

  lemma CutAs(p: string, width: nat, rest: string)
    requires width < |p|
    ensures Abbreviated(p, width) == ELLIPSIS + rest <==> CutOf(rest, width, p)
  {
    var t := CutKeepsLongestTail(p, width);
    assert (ELLIPSIS + t)[|ELLIPSIS|..] == t && (ELLIPSIS + rest)[|ELLIPSIS|..] == rest;
    if CutOf(rest, width, p) {
      BestTailOnly(p, Room(width), t, rest);
    }
  }

  lemma ShownAs(p: string, width: nat, name: string)
    ensures name == Abbreviated(p, width) <==>
      if |p| <= width then name == p else ELLIPSIS <= name && CutOf(name[|ELLIPSIS|..], width, p)
  {
    if width < |p| && ELLIPSIS <= name {
      TwoParts(name, |ELLIPSIS|);
      CutAs(p, width, name[|ELLIPSIS|..]);
    }
  }

  /** The name shown whole: the path, or for a prefixed path its end from a component on, of two components or more. */
  predicate WholeOf(name: string, width: nat, path: string, prefixed: bool) {
    |name| <= width && if prefixed then OnBoundary(name, path) else name == path
  }

  /** The paths that a name is compared with. */
  predicate IsCandidate(p: string, path: string, prefixed: bool) {
    if prefixed then OnBoundary(p, path) else p == path
  }

  lemma IsFileByCandidates(name: string, width: nat, path: string, prefixed: bool, sides: string -> seq<string>)
    requires !Contains(name, RENAME)
    ensures IsFile(name, width, path, prefixed, sides) <==>
      exists p :: IsCandidate(p, path, prefixed) && name == Abbreviated(p, width)
  {
    forall p ensures IsCandidate(p, path, prefixed) <==> p in if prefixed then Tails(path) else [path] {
      TailsAre(path, p);
    }
  }

  /** Both directions for every name that is no rename: it is shown whole, or it is cut and the path does not fit and
      has the rest of the name as its best tail; a prefixed path must have two components. */
  lemma NameIsFile(name: string, width: nat, path: string, prefixed: bool, sides: string -> seq<string>)
    requires !Contains(name, RENAME)
    ensures IsFile(name, width, path, prefixed, sides) <==>
      || WholeOf(name, width, path, prefixed)
      || (ELLIPSIS <= name && (prefixed ==> '/' in path) && CutOf(name[|ELLIPSIS|..], width, path))
  {
    IsFileByCandidates(name, width, path, prefixed, sides);
    if IsFile(name, width, path, prefixed, sides) {
      var p :| IsCandidate(p, path, prefixed) && name == Abbreviated(p, width);
      ShownAs(p, width, name);
      CandidateEnds(p, path, prefixed);
      if width < |p| {
        BestTailOfEnd(path, p, Room(width), name[|ELLIPSIS|..]);
      }
    }
    if WholeOf(name, width, path, prefixed) {
      ShownAs(name, width, name);
      assert IsCandidate(name, path, prefixed);
    } else if ELLIPSIS <= name && (prefixed ==> '/' in path) && CutOf(name[|ELLIPSIS|..], width, path) {
      ShownAs(path, width, name);
      assert IsCandidate(path, path, prefixed);
    }
  }

  lemma CandidateEnds(p: string, path: string, prefixed: bool)
    requires IsCandidate(p, path, prefixed)
    ensures EndsWith(path, p) && (prefixed ==> '/' in path)
  {
    if p != path {
      assert ("/" + p)[1..] == p;
      assert path[|path| - |p| - 1] == '/';
    }
  }

  /** A name that git did not cut is the file only if it is the path, or for a prefixed path its end from a component
      on, of at least two components. */
  lemma WholeNameIsFile(name: string, width: nat, path: string, prefixed: bool, sides: string -> seq<string>)
    requires !Contains(name, RENAME) && !(ELLIPSIS <= name)
    ensures IsFile(name, width, path, prefixed, sides) <==>
      |name| <= width && if prefixed then OnBoundary(name, path) else name == path
  {
    NameIsFile(name, width, path, prefixed, sides);
  }

  /** A name that git cut before a `/` is the file only if the path ends with the rest, from a component on. */
  lemma CutNameIsFile(
    name: string, rest: string, width: nat, path: string, prefixed: bool, sides: string -> seq<string>)
    requires !Contains(name, RENAME) && name == ELLIPSIS + rest
    ensures IsFile(name, width, path, prefixed, sides) <==>
      WholeOf(name, width, path, prefixed) || ((prefixed ==> '/' in path) && CutOf(rest, width, path))
    ensures IsFile(name, width, path, prefixed, sides) && rest != "" && rest[0] == '/' ==> SlashTail(path, rest)
  {
    NameIsFile(name, width, path, prefixed, sides);
    assert name[|ELLIPSIS|..] == rest;
    if rest != "" && rest[0] == '/' {
      if WholeOf(name, width, path, prefixed) {
        CandidateEnds(name, path, prefixed);
        SuffixOfConcat(ELLIPSIS, rest);
        EndsWithPart(path, name, rest);
      } else if CutOf(rest, width, path) {
        assert EndsWith(path, path[|path| - Room(width)..]);
      }
    }
  }

  /** The paths have the same name in a column of `width`: they are the same if both fit; if one does, it is dots and
      the best tail of the other; else they have the same best tail. */
  ghost predicate ShareName(p: string, q: string, width: nat) {
    if |p| <= width then
      if |q| <= width then p == q else ELLIPSIS <= p && CutOf(p[|ELLIPSIS|..], width, q)
    else if |q| <= width then ELLIPSIS <= q && CutOf(q[|ELLIPSIS|..], width, p)
    else exists t :: CutOf(t, width, p) && CutOf(t, width, q)
  }

  lemma SameNames(p: string, q: string, width: nat)
    ensures Abbreviated(p, width) == Abbreviated(q, width) <==> ShareName(p, q, width)
  {
    if |p| <= width {
      ShownAs(q, width, p);
    } else if |q| <= width {
      ShownAs(p, width, q);
    } else {
      var t := CutKeepsLongestTail(p, width);
      CutAs(q, width, t);
      if ShareName(p, q, width) {
        var u :| CutOf(u, width, p) && CutOf(u, width, q);
        BestTailOnly(p, Room(width), t, u);
      }
    }
  }

  /** The name of one path is taken for the test file of a module at another if and only if they share it. */
  lemma TakenForAnother(p: string, q: string, width: nat, sides: string -> seq<string>)
    requires !Contains(Abbreviated(p, width), RENAME)
    ensures IsFile(Abbreviated(p, width), width, q, false, sides) <==> ShareName(p, q, width)
  {
    SameNames(p, q, width);
    assert forall x | x in [q] :: x == q;
    assert q in [q];
  }

  /** So whatever was cut off can be anything: all paths `head + mid + end` share a name if `end` starts with the first
      `/` in what fits, and so do all `head + end` if nothing that fits has one. */
  lemma CutNamesCollide(head: string, mid: string, end: string, width: nat)
    requires |mid| + |end| + 3 == width && 3 < |head| && '/' !in mid
    requires (end != "" && end[0] == '/') || (mid == "" && '/' !in end)
    ensures Abbreviated(head + (mid + end), width) == ELLIPSIS + end
  {
    var path, kept := head + (mid + end), mid + end;
    assert path[|path| - Room(width)..] == kept;
    if end != "" && end[0] == '/' {
      FirstSlashIs(mid, end);
    } else {
      assert kept == end;
    }
  }

  lemma {:induction false} FirstSlashIs(mid: string, end: string)
    requires '/' !in mid && end != "" && end[0] == '/'
    ensures TailOf(mid + end) == end
  {
    assert (mid + end)[|mid|] == '/';
    if mid == "" {
      assert mid + end == end;
    } else {
      assert (mid + end)[1..] == mid[1..] + end;
      FirstSlashIs(mid[1..], end);
    }
  }

  /** A rename is the file if one of its sides is: cut or prefixed on a component boundary, else exactly. */
  lemma RenameIsFile(name: string, width: nat, path: string, prefixed: bool, sides: string -> seq<string>)
    requires Contains(name, RENAME)
    ensures IsFile(name, width, path, prefixed, sides) <==>
      exists side | side in sides(name) ::
        if ABBREVIATED <= side then OnBoundary(side[|ABBREVIATED|..], path)
        else if prefixed then OnBoundary(side, path) else side == path
  {
    forall t ensures t in Tails(path) <==> OnBoundary(t, path) {
      TailsAre(path, t);
    }
  }

  // ---------------------------------------------------------------- the files of the stack traces

  predicate Died(line: string) {
    Contains(line, TEST_DIED)
  }

  predicate IndentedFrame(line: string, files: string -> seq<string>) {
    line != "" && IsSpace(line[0]) && files(line) != []
  }

  /** Line `i` is in a stack trace section that is not closed yet. */
  ghost predicate InTrace(lines: seq<string>, i: nat) {
    exists s | 0 <= s <= i < |lines| ::
      lines[s] == TRACE_START && forall k | s < k <= i :: lines[k] != SECTION_END
  }

  /** Line `i` is a died message, or one of the indented frames that follow it without a gap. */
  ghost predicate InDied(lines: seq<string>, files: string -> seq<string>, i: nat) {
    exists d | 0 <= d <= i < |lines| :: Contains(lines[d], TEST_DIED) && forall k | d < k <= i ::
      lines[k] != "" && IsSpace(lines[k][0]) && files(lines[k]) != []
  }

  ghost predicate Contributes(lines: seq<string>, files: string -> seq<string>, i: nat) {
    InTrace(lines, i) || InDied(lines, files, i)
  }

  /** The files of the frames in the contributing lines among the first `n`. */
  ghost function Found(lines: seq<string>, files: string -> seq<string>, n: nat): seq<string>
    requires n <= |lines|
  {
    if n == 0 then []
    else Found(lines, files, n - 1) + if Contributes(lines, files, n - 1) then files(lines[n - 1]) else []
  }

  function Without(s: seq<string>, framework: string -> bool): seq<string> {
    if s == [] then []
    else Without(s[..|s| - 1], framework) + if framework(s[|s| - 1]) then [] else [s[|s| - 1]]
  }

  lemma InTraceStep(lines: seq<string>, i: nat)
    requires i < |lines|
    ensures InTrace(lines, i) <==>
      lines[i] == TRACE_START || (0 < i && InTrace(lines, i - 1) && lines[i] != SECTION_END)
  {
    if 0 < i && InTrace(lines, i - 1) && lines[i] != SECTION_END {
      var s :| 0 <= s <= i - 1 && lines[s] == TRACE_START && forall k | s < k <= i - 1 :: lines[k] != SECTION_END;
      assert forall k | s < k <= i :: lines[k] != SECTION_END;
    }
  }

  lemma InDiedStep(lines: seq<string>, files: string -> seq<string>, i: nat)
    requires i < |lines|
    ensures InDied(lines, files, i) <==>
      Died(lines[i]) || (0 < i && InDied(lines, files, i - 1) && IndentedFrame(lines[i], files))
  {
    if 0 < i && InDied(lines, files, i - 1) && IndentedFrame(lines[i], files) {
      var d :| 0 <= d <= i - 1 && Died(lines[d]) && forall k | d < k <= i - 1 :: IndentedFrame(lines[k], files);
      assert forall k | d < k <= i :: IndentedFrame(lines[k], files);
    }
  }

  /** The state of the scanner before line `i`. */
  ghost predicate Scanned(
    lines: seq<string>, files: string -> seq<string>, i: nat, found: seq<string>, inTrace: bool, inDied: bool)
    requires i <= |lines|
  {
    && found == Found(lines, files, i)
    && (inTrace <==> 0 < i && InTrace(lines, i - 1))
    && (inDied <==> 0 < i && InDied(lines, files, i - 1))
  }

  lemma NextScanned(
    lines: seq<string>, files: string -> seq<string>, i: nat, found: seq<string>, inTrace: bool, inDied: bool)
    requires i < |lines| && Scanned(lines, files, i, found, inTrace, inDied)
    ensures var traced := lines[i] == TRACE_START || (inTrace && lines[i] != SECTION_END);
      var died := Died(lines[i]) || (inDied && IndentedFrame(lines[i], files));
      Scanned(lines, files, i + 1, if traced || died then found + files(lines[i]) else found, traced, died)
  {
    InTraceStep(lines, i);
    InDiedStep(lines, files, i);
    assert found + [] == found;
  }

  /** `_stack_files`, with the files of a line's frames and the test for framework paths as parameters. */
  method StackFiles(lines: seq<string>, files: string -> seq<string>, framework: string -> bool)
    returns (r: seq<string>)
    ensures r == Without(FromKeys(Found(lines, files, |lines|)), framework)
  {
    var found: seq<string> := [];
    var inTrace, inDied := false, false;
    for i := 0 to |lines|
      invariant Scanned(lines, files, i, found, inTrace, inDied)
    {
      var line := lines[i];
      NextScanned(lines, files, i, found, inTrace, inDied);
      inTrace := line == TRACE_START || (inTrace && line != SECTION_END);
      inDied := Died(line) || (inDied && line != "" && IsSpace(line[0]) && files(line) != []);
      if inTrace || inDied {
        found := found + files(line);
      }
    }
    r := Without(FromKeys(found), framework);
  }

  /** Line `i` contributes the file `f`. */
  ghost predicate Gives(lines: seq<string>, files: string -> seq<string>, i: nat, f: string) {
    i < |lines| && Contributes(lines, files, i) && f in files(lines[i])
  }

  lemma {:induction false} FoundIs(lines: seq<string>, files: string -> seq<string>, n: nat, f: string)
    requires n <= |lines|
    ensures f in Found(lines, files, n) <==> exists i: nat | i < n :: Gives(lines, files, i, f)
  {
    if n > 0 {
      FoundIs(lines, files, n - 1, f);
      assert f in Found(lines, files, n) <==> f in Found(lines, files, n - 1) || Gives(lines, files, n - 1, f);
    }
  }

  /** The elements of `r` are in the order in which they are first in `s`. */
  ghost predicate InFirstOrder(s: seq<string>, r: seq<string>) {
    && (forall x | x in r :: x in s)
    && forall i, j | 0 <= i < j < |r| && r[i] in s && r[j] in s :: FirstPlace(s, r[i]) < FirstPlace(s, r[j])
  }

  lemma {:induction false} WithoutKeepsOrder(s: seq<string>, keys: seq<string>, framework: string -> bool)
    requires InFirstOrder(s, keys)
    ensures InFirstOrder(s, Without(keys, framework))
    ensures forall x :: x in Without(keys, framework) <==> x in keys && !framework(x)
  {
    if keys != [] {
      var front := keys[..|keys| - 1];
      TwoParts(keys, |keys| - 1);
      forall i, j | 0 <= i < j < |front| && front[i] in s && front[j] in s
        ensures FirstPlace(s, front[i]) < FirstPlace(s, front[j])
      {
        assert keys[i] == front[i] && keys[j] == front[j];
      }
      WithoutKeepsOrder(s, front, framework);
      LastIsFirstLast(s, keys);
      var r := Without(front, framework);
      forall i | 0 <= i < |r| ensures r[i] in front {
        assert r[i] in r;
      }
    }
  }

  lemma LastIsFirstLast(s: seq<string>, keys: seq<string>)
    requires keys != [] && InFirstOrder(s, keys)
    ensures forall x | x in keys[..|keys| - 1] && x in s && keys[|keys| - 1] in s ::
      FirstPlace(s, x) < FirstPlace(s, keys[|keys| - 1])
  {
  }

  /** The result: each file of a contributing line that is no framework path, once, in the order of first sight. */
  lemma StackFilesAre(lines: seq<string>, files: string -> seq<string>, framework: string -> bool)
    ensures var r := Without(FromKeys(Found(lines, files, |lines|)), framework);
      && InFirstOrder(Found(lines, files, |lines|), r)
      && forall f :: f in r <==> !framework(f) && exists i: nat :: Gives(lines, files, i, f)
  {
    var found := Found(lines, files, |lines|);
    var keys := FromKeys(found);
    KeysAre(found);
    forall i, j | 0 <= i < j < |keys| && keys[i] in found && keys[j] in found
      ensures FirstPlace(found, keys[i]) < FirstPlace(found, keys[j])
    {
      KeysInOrder(found, i, j);
    }
    WithoutKeepsOrder(found, keys, framework);
    forall f ensures f in found <==> exists i: nat :: Gives(lines, files, i, f) {
      FoundIs(lines, files, |lines|, f);
    }
  }

  // ---------------------------------------------------------------- the marked commits

  /** A file as `git log --stat` shows it, and the width of its name column. */
  type StatFile = (string, nat)

  datatype Marks = Marks(failedModule: bool, stack: bool)

  predicate IsModuleFile(f: StatFile, modules: seq<string>, sides: string -> seq<string>) {
    exists m | m in modules :: IsFile(f.0, f.1, m, false, sides)
  }

  predicate IsFrameFile(f: StatFile, frames: seq<string>, sides: string -> seq<string>) {
    exists frame | frame in frames :: IsFile(f.0, f.1, frame, true, sides)
  }

  /** `_marks`. */
  function MarksOf(
    files: seq<StatFile>, modules: seq<string>, frames: seq<string>, sides: string -> seq<string>): Marks
  {
    Marks(
      exists f | f in files :: IsModuleFile(f, modules, sides),
      exists f | f in files :: !IsModuleFile(f, modules, sides) && IsFrameFile(f, frames, sides))
  }

  /** The name denotes the path: a rename by one of its sides, any other whole or cut. */
  ghost predicate Denotes(name: string, width: nat, path: string, prefixed: bool, sides: string -> seq<string>) {
    if Contains(name, RENAME) then
      exists side | side in sides(name) ::
        if ABBREVIATED <= side then OnBoundary(side[|ABBREVIATED|..], path)
        else if prefixed then OnBoundary(side, path) else side == path
    else
      || WholeOf(name, width, path, prefixed)
      || (ELLIPSIS <= name && (prefixed ==> '/' in path) && CutOf(name[|ELLIPSIS|..], width, path))
  }

  lemma IsFileDenotes(name: string, width: nat, path: string, prefixed: bool, sides: string -> seq<string>)
    ensures IsFile(name, width, path, prefixed, sides) <==> Denotes(name, width, path, prefixed, sides)
  {
    if Contains(name, RENAME) {
      RenameIsFile(name, width, path, prefixed, sides);
    } else {
      NameIsFile(name, width, path, prefixed, sides);
    }
  }

  /** The file denotes one of the paths. */
  ghost predicate DenotesSome(f: StatFile, paths: seq<string>, prefixed: bool, sides: string -> seq<string>) {
    exists path | path in paths :: Denotes(f.0, f.1, path, prefixed, sides)
  }

  lemma FilesDenote(f: StatFile, modules: seq<string>, frames: seq<string>, sides: string -> seq<string>)
    ensures IsModuleFile(f, modules, sides) <==> DenotesSome(f, modules, false, sides)
    ensures IsFrameFile(f, frames, sides) <==> DenotesSome(f, frames, true, sides)
  {
    forall path, prefixed
      ensures IsFile(f.0, f.1, path, prefixed, sides) <==> Denotes(f.0, f.1, path, prefixed, sides)
    {
      IsFileDenotes(f.0, f.1, path, prefixed, sides);
    }
  }

  /** A commit is marked for a failed module if and only if one of its files denotes a test file of one, and for the
      stack if and only if a file that denotes none denotes a file of a frame. */
  lemma MarksAre(files: seq<StatFile>, modules: seq<string>, frames: seq<string>, sides: string -> seq<string>)
    ensures var marks := MarksOf(files, modules, frames, sides);
      && (marks.failedModule <==> exists f | f in files :: DenotesSome(f, modules, false, sides))
      && (marks.stack <==>
           exists f | f in files :: !DenotesSome(f, modules, false, sides) && DenotesSome(f, frames, true, sides))
  {
    forall f ensures IsModuleFile(f, modules, sides) <==> DenotesSome(f, modules, false, sides)
             ensures IsFrameFile(f, frames, sides) <==> DenotesSome(f, frames, true, sides) {
      FilesDenote(f, modules, frames, sides);
    }
  }

  /** The marks of the commits of a log. */
  function MarksOfAll(
    commits: seq<seq<StatFile>>, modules: seq<string>, frames: seq<string>, sides: string -> seq<string>): seq<Marks>
  {
    seq(|commits|, i requires 0 <= i < |commits| => MarksOf(commits[i], modules, frames, sides))
  }

  /** A commit touches the failure if one of its files denotes a test file of a failed module or a file of a frame. */
  ghost predicate Touches(
    files: seq<StatFile>, modules: seq<string>, frames: seq<string>, sides: string -> seq<string>)
  {
    exists f | f in files :: DenotesSome(f, modules, false, sides) || DenotesSome(f, frames, true, sides)
  }

  predicate IsMarked(m: Marks) {
    m.failedModule || m.stack
  }

  function MarkedAt(marks: seq<Marks>): nat -> bool {
    (i: nat) => i < |marks| && IsMarked(marks[i])
  }

  /** The marked commits, in git's order. */
  function Marked(marks: seq<Marks>): seq<nat> {
    Passing(|marks|, MarkedAt(marks))
  }

  /** The sort key of the marked commits: those of a failed module's file first. */
  function MarkRank(marks: seq<Marks>): Rank {
    (i: nat) => (if i < |marks| && marks[i].failedModule then 0 else 1, 0)
  }

  /** The commits that `commits_section` lists, and how many more marked ones and others it counts. */
  function Section(marks: seq<Marks>): (seq<nat>, nat, nat) {
    var marked := Marked(marks);
    var shown := Top(marked, MarkRank(marks), MAX_SHOWN);
    PassingAre(|marks|, MarkedAt(marks));
    TopIs(marked, MarkRank(marks), MAX_SHOWN);
    (shown, |marked| - |shown|, |marks| - |marked|)
  }

  /** Every commit is listed, counted as marked or counted as other. */
  lemma SectionCountsAll(marks: seq<Marks>)
    ensures var (shown, more, others) := Section(marks);
      && |shown| + more + others == |marks| && |shown| <= MAX_SHOWN && (0 < more ==> |shown| == MAX_SHOWN)
      && |shown| + more == |Marked(marks)|
  {
    PassingAre(|marks|, MarkedAt(marks));
    TopIs(Marked(marks), MarkRank(marks), MAX_SHOWN);
  }

  /** Commit `i` is listed before commit `j`: those that change a failed module's file first, then git's order. */
  ghost predicate CommitBefore(marks: seq<Marks>, i: nat, j: nat) {
    && i < |marks| && j < |marks| && IsMarked(marks[i]) && IsMarked(marks[j])
    && if marks[i].failedModule == marks[j].failedModule then i < j else marks[i].failedModule
  }

  /** The listed commits are marked and in order. */
  lemma SectionIsRanked(marks: seq<Marks>, a: nat, b: nat)
    requires a < b < |Section(marks).0|
    ensures CommitBefore(marks, Section(marks).0[a], Section(marks).0[b])
  {
    var marked := Marked(marks);
    var shown := Top(marked, MarkRank(marks), MAX_SHOWN);
    PassingAre(|marks|, MarkedAt(marks));
    TopIs(marked, MarkRank(marks), MAX_SHOWN);
    assert shown[a] in shown && shown[b] in shown;
    assert Precedes(MarkRank(marks), shown[a], shown[b]);
  }

  /** A marked commit that is only counted comes after every listed one. */
  lemma CountedComeAfter(marks: seq<Marks>, i: nat, a: nat)
    requires i < |marks| && IsMarked(marks[i]) && i !in Section(marks).0 && a < |Section(marks).0|
    ensures CommitBefore(marks, Section(marks).0[a], i)
  {
    var marked := Marked(marks);
    PassingAre(|marks|, MarkedAt(marks));
    TopIs(marked, MarkRank(marks), MAX_SHOWN);
    RestComeAfter(marked, MarkRank(marks), MAX_SHOWN, i, a);
    assert Section(marks).0[a] in Section(marks).0;
  }

  /** From the names in the log to the section: the listed commits and those counted as more marked ones are together
      exactly those that touch the failure; a listed one does. */
  lemma SectionIsWhatTouches(
    commits: seq<seq<StatFile>>, modules: seq<string>, frames: seq<string>, sides: string -> seq<string>)
    ensures var marks := MarksOfAll(commits, modules, frames, sides);
      var (shown, more, others) := Section(marks);
      && (forall i: nat :: i in Marked(marks) <==> i < |commits| && Touches(commits[i], modules, frames, sides))
      && (forall i | i in shown :: i in Marked(marks))
      && |shown| + more == |Marked(marks)| && |Marked(marks)| + others == |commits|
  {
    var marks := MarksOfAll(commits, modules, frames, sides);
    PassingAre(|marks|, MarkedAt(marks));
    TopIs(Marked(marks), MarkRank(marks), MAX_SHOWN);
    forall i | 0 <= i < |commits| ensures IsMarked(marks[i]) <==> Touches(commits[i], modules, frames, sides) {
      MarksAre(commits[i], modules, frames, sides);
    }
    SectionCountsAll(marks);
  }
}
