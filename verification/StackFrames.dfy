/** The two normalising passes over a failure text: runs of stack frames are trimmed, runs of blank lines squeezed. */
module StackFrames {
  import opened PyText

  const FRAME_MARK := " called at "
  const FRAMES_SHOWN := 5

  predicate IsFrame(line: string) {
    Contains(line, FRAME_MARK)
  }

  lemma FramesAre(line: string)
    ensures IsFrame(line) <==> exists caller, place :: line == caller + FRAME_MARK + place
  {
    ContainsIs(line, FRAME_MARK);
  }

  /** The line that stands for `count` frames, indented like the first of them. */
  function Note(first: string, count: nat): string {
    Indent(first) + "... (" + Digits(count) + " more stack frames)"
  }

  // ---------------------------------------------------------------- trimming runs of frames

  /** A line of the trimmed text: a line of the input, or a note for some of its lines. */
  datatype Item = Line(line: string) | Skipped(frames: seq<string>)

  function Shown(item: Item): string {
    match item
    case Line(l) => l
    case Skipped(frames) => Note(if frames == [] then "" else frames[0], |frames|)
  }

  function Rendered(items: seq<Item>): seq<string> {
    seq(|items|, i requires 0 <= i < |items| => Shown(items[i]))
  }

  function AsLines(lines: seq<string>): seq<Item> {
    seq(|lines|, i requires 0 <= i < |lines| => Line(lines[i]))
  }

  /** The lines an item stands for. */
  function Stands(item: Item): seq<string> {
    match item
    case Line(l) => [l]
    case Skipped(frames) => frames
  }

  function Expanded(items: seq<Item>): seq<string> {
    if items == [] then [] else Stands(items[0]) + Expanded(items[1..])
  }

  /** How many frames the lines begin with. */
  function FrameRun(lines: seq<string>): (n: nat)
    ensures n <= |lines| && forall i | 0 <= i < n :: IsFrame(lines[i])
    ensures n < |lines| ==> !IsFrame(lines[n])
  {
    if lines == [] || !IsFrame(lines[0]) then 0 else 1 + FrameRun(lines[1..])
  }

  /** A whole run of frames: its first `keep`, then one note for the others. */
  function TrimRun(run: seq<string>, keep: nat): seq<Item> {
    if |run| <= keep then AsLines(run) else AsLines(run[..keep]) + [Skipped(run[keep..])]
  }

  /** Run by run. */
  function TrimItems(lines: seq<string>, keep: nat): seq<Item>
    decreases |lines|
  {
    var n := FrameRun(lines);
    if lines == [] then []
    else if n == 0 then [Line(lines[0])] + TrimItems(lines[1..], keep)
    else TrimRun(lines[..n], keep) + TrimItems(lines[n..], keep)
  }

  function Trim(lines: seq<string>, keep: nat): seq<string> {
    Rendered(TrimItems(lines, keep))
  }

  lemma RenderedConcat(a: seq<Item>, b: seq<Item>)
    ensures Rendered(a + b) == Rendered(a) + Rendered(b)
  {
  }

  lemma {:induction false} ExpandedConcat(a: seq<Item>, b: seq<Item>)
    ensures Expanded(a + b) == Expanded(a) + Expanded(b)
  {
    if a == [] {
      assert a + b == b;
    } else {
      ExpandedConcat(a[1..], b);
      assert (a + b)[0] == a[0] && (a + b)[1..] == a[1..] + b;
      Associative(Stands(a[0]), Expanded(a[1..]), Expanded(b));
    }
  }

  lemma {:induction false} ExpandedLines(lines: seq<string>)
    ensures Expanded(AsLines(lines)) == lines
  {
    if lines != [] {
      ExpandedLines(lines[1..]);
      assert AsLines(lines)[1..] == AsLines(lines[1..]);
    }
  }

  /** The lines of a run that are shown. */
  function ShownRun(run: seq<string>, keep: nat): seq<string> {
    if |run| <= keep then run else run[..keep] + [Note(run[keep], |run| - keep)]
  }

  lemma TrimRunShows(run: seq<string>, keep: nat)
    ensures Rendered(TrimRun(run, keep)) == ShownRun(run, keep)
  {
  }

  lemma TrimRunExpands(run: seq<string>, keep: nat)
    ensures Expanded(TrimRun(run, keep)) == run
  {
    if |run| <= keep {
      ExpandedLines(run);
    } else {
      ExpandedLines(run[..keep]);
      ExpandedConcat(AsLines(run[..keep]), [Skipped(run[keep..])]);
      assert run == run[..keep] + run[keep..];
    }
  }

  /** The trimmed text, run by run. */
  lemma TrimUnfold(lines: seq<string>, keep: nat)
    requires lines != []
    ensures var n := FrameRun(lines);
      Trim(lines, keep) == if n == 0 then [lines[0]] + Trim(lines[1..], keep)
                           else ShownRun(lines[..n], keep) + Trim(lines[n..], keep)
  {
    var n := FrameRun(lines);
    if n == 0 {
      RenderedConcat([Line(lines[0])], TrimItems(lines[1..], keep));
    } else {
      TrimRunShows(lines[..n], keep);
      RenderedConcat(TrimRun(lines[..n], keep), TrimItems(lines[n..], keep));
    }
  }

  /** Nothing is lost: with each note replaced by the frames it counts, the trimmed text is the text again. */
  lemma {:induction false} TrimExpandsBack(lines: seq<string>, keep: nat)
    ensures Expanded(TrimItems(lines, keep)) == lines
    decreases |lines|
  {
    if lines != [] {
      var n := FrameRun(lines);
      if n == 0 {
        TrimExpandsBack(lines[1..], keep);
      } else {
        TrimExpandsBack(lines[n..], keep);
        TrimRunExpands(lines[..n], keep);
        ExpandedConcat(TrimRun(lines[..n], keep), TrimItems(lines[n..], keep));
      }
    }
  }

  predicate FrameLine(item: Item) {
    item.Line? && IsFrame(item.line)
  }

  /** A note stands for frames only, at least one, right behind the first `keep` frames of the same run, and the run
      ends with it. */
  ghost predicate NoteInPlace(items: seq<Item>, i: int, keep: nat) {
    0 <= i < |items| && items[i].Skipped? ==>
      && items[i].frames != [] && (forall f | f in items[i].frames :: IsFrame(f))
      && keep <= i && (forall j | i - keep <= j < i :: FrameLine(items[j]))
      && (keep < i ==> items[i - keep - 1].Line? && !FrameLine(items[i - keep - 1]))
      && (i + 1 < |items| ==> items[i + 1].Line? && !FrameLine(items[i + 1]))
  }

  /** Of the `keep + 1` items from `i` on, one is no frame. */
  ghost predicate NoLongRun(items: seq<Item>, i: int, keep: nat) {
    0 <= i && i + keep < |items| ==> exists j | i <= j <= i + keep :: !FrameLine(items[j])
  }

  // ---------------------------------------------------------------- the loop

  /** What is still to come in the middle of a run of which `run` frames were seen and `skipped` not shown. */
  function Rest(run: nat, skipped: seq<string>, lines: seq<string>, keep: nat): seq<string>
    decreases lines
  {
    if lines == [] then Flushed(skipped)
    else if !IsFrame(lines[0]) then Flushed(skipped) + ([lines[0]] + Rest(0, [], lines[1..], keep))
    else if keep <= run then Rest(run + 1, skipped + [lines[0]], lines[1..], keep)
    else [lines[0]] + Rest(run + 1, skipped, lines[1..], keep)
  }

  function Flushed(skipped: seq<string>): seq<string> {
    if skipped == [] then [] else [Note(skipped[0], |skipped|)]
  }

  function Front(run: seq<string>, keep: nat): seq<string> {
    if |run| <= keep then run else run[..keep]
  }

  function Beyond(run: seq<string>, keep: nat): seq<string> {
    if |run| <= keep then [] else run[keep..]
  }

  lemma ShownRunParts(run: seq<string>, keep: nat)
    ensures ShownRun(run, keep) == Front(run, keep) + Flushed(Beyond(run, keep))
  {
  }

  lemma NextFrame(prev: seq<string>, l: string, keep: nat)
    ensures |prev| < keep ==>
      Front(prev + [l], keep) == Front(prev, keep) + [l] && Beyond(prev + [l], keep) == Beyond(prev, keep)
    ensures keep <= |prev| ==>
      Front(prev + [l], keep) == Front(prev, keep) && Beyond(prev + [l], keep) == Beyond(prev, keep) + [l]
  {
  }

  /** In the middle of a run that began with `prev` the loop goes on as the whole run demands. */
  ghost predicate GoesOn(prev: seq<string>, lines: seq<string>, keep: nat) {
    Front(prev, keep) + Rest(|prev|, Beyond(prev, keep), lines, keep)
    == ShownRun(prev + lines[..FrameRun(lines)], keep) + Trim(lines[FrameRun(lines)..], keep)
  }

  lemma GoesOnAfterRun(prev: seq<string>, lines: seq<string>, keep: nat)
    requires FrameRun(lines) == 0
    requires lines != [] ==> Rest(0, [], lines[1..], keep) == Trim(lines[1..], keep)
    ensures GoesOn(prev, lines, keep)
  {
    assert prev + lines[..0] == prev && lines[0..] == lines;
    ShownRunParts(prev, keep);
    if lines != [] {
      TrimUnfold(lines, keep);
      Associative(Front(prev, keep), Flushed(Beyond(prev, keep)), Trim(lines, keep));
    }
  }

  lemma GoesOnInRun(prev: seq<string>, lines: seq<string>, keep: nat)
    requires lines != [] && IsFrame(lines[0]) && GoesOn(prev + [lines[0]], lines[1..], keep)
    ensures GoesOn(prev, lines, keep)
  {
    SameRun(prev, lines, FrameRun(lines));
    NextFrame(prev, lines[0], keep);
    ShownNext(Front(prev, keep), lines[0], |prev|, Beyond(prev, keep), lines, keep);
  }

  lemma SameRun(prev: seq<string>, lines: seq<string>, n: nat)
    requires 0 < n <= |lines|
    ensures (prev + [lines[0]]) + lines[1..][..n - 1] == prev + lines[..n]
    ensures lines[1..][n - 1..] == lines[n..]
  {
    assert lines[..n] == [lines[0]] + lines[1..][..n - 1];
    Associative(prev, [lines[0]], lines[1..][..n - 1]);
  }

  lemma ShownNext(front: seq<string>, l: string, run: nat, beyond: seq<string>, lines: seq<string>, keep: nat)
    requires lines != [] && IsFrame(lines[0]) && l == lines[0]
    ensures run < keep ==>
      front + Rest(run, beyond, lines, keep) == (front + [l]) + Rest(run + 1, beyond, lines[1..], keep)
    ensures keep <= run ==> Rest(run, beyond, lines, keep) == Rest(run + 1, beyond + [l], lines[1..], keep)
  {
    if run < keep {
      Associative(front, [l], Rest(run + 1, beyond, lines[1..], keep));
    }
  }

  lemma {:induction false} RestOfRun(prev: seq<string>, lines: seq<string>, keep: nat)
    ensures GoesOn(prev, lines, keep)
    decreases |lines|, 0
  {
    if FrameRun(lines) == 0 {
      if lines != [] {
        RestIsTrim(lines[1..], keep);
      }
      GoesOnAfterRun(prev, lines, keep);
    } else {
      RestOfRun(prev + [lines[0]], lines[1..], keep);
      GoesOnInRun(prev, lines, keep);
    }
  }

  /** The loop computes the trimmed text. */
  lemma {:induction false} RestIsTrim(lines: seq<string>, keep: nat)
    ensures Rest(0, [], lines, keep) == Trim(lines, keep)
    decreases |lines|, 1
  {
    RestOfRun([], lines, keep);
    var n := FrameRun(lines);
    assert [] + lines[..n] == lines[..n];
    assert [] + Rest(0, [], lines, keep) == Rest(0, [], lines, keep);
    if lines != [] {
      TrimUnfold(lines, keep);
      if n == 0 {
        assert lines[n..] == lines && [] + Trim(lines, keep) == Trim(lines, keep);
      }
    }
  }

  /** The loop is at line `i`: what it has and what is still to come make up the trimmed text. */
  ghost predicate ToCome(out: seq<string>, run: nat, skipped: seq<string>, lines: seq<string>, i: nat, keep: nat) {
    i <= |lines| && out + Rest(run, skipped, lines[i..], keep) == Trim(lines, keep)
  }

  lemma ToComeAtStart(lines: seq<string>, keep: nat)
    ensures ToCome([], 0, [], lines, 0, keep)
  {
    RestIsTrim(lines, keep);
    assert lines[0..] == lines && [] + Trim(lines, keep) == Trim(lines, keep);
  }

  lemma NextSkipped(out: seq<string>, run: nat, skipped: seq<string>, lines: seq<string>, i: nat, keep: nat)
    requires ToCome(out, run, skipped, lines, i, keep) && i < |lines| && IsFrame(lines[i]) && keep <= run
    ensures ToCome(out, run + 1, skipped + [lines[i]], lines, i + 1, keep)
  {
    assert lines[i..][1..] == lines[i + 1..];
  }

  lemma NextShown(out: seq<string>, run: nat, skipped: seq<string>, lines: seq<string>, i: nat, keep: nat)
    requires ToCome(out, run, skipped, lines, i, keep) && i < |lines| && IsFrame(lines[i]) && run < keep
    ensures ToCome(out + [lines[i]], run + 1, skipped, lines, i + 1, keep)
  {
    assert lines[i..][1..] == lines[i + 1..];
    Associative(out, [lines[i]], Rest(run + 1, skipped, lines[i + 1..], keep));
  }

  lemma NextLine(out: seq<string>, run: nat, skipped: seq<string>, lines: seq<string>, i: nat, keep: nat)
    requires ToCome(out, run, skipped, lines, i, keep) && i < |lines| && !IsFrame(lines[i])
    ensures ToCome(out + Flushed(skipped) + [lines[i]], 0, [], lines, i + 1, keep)
  {
    assert lines[i..][1..] == lines[i + 1..];
    Associative(out, Flushed(skipped), [lines[i]] + Rest(0, [], lines[i + 1..], keep));
    Associative(out + Flushed(skipped), [lines[i]], Rest(0, [], lines[i + 1..], keep));
  }

  lemma ToComeAtEnd(out: seq<string>, run: nat, skipped: seq<string>, lines: seq<string>, keep: nat)
    requires ToCome(out, run, skipped, lines, |lines|, keep)
    ensures Trim(lines, keep) == if skipped == [] then out else out + [Note(skipped[0], |skipped|)]
  {
    assert lines[|lines|..] == [];
  }

  /** `trim_stack_frames`. */
  method TrimStackFrames(lines: seq<string>, keep: nat) returns (out: seq<string>)
    ensures out == Trim(lines, keep)
  {
    out := [];
    var run := 0;
    var skipped: seq<string> := [];
    ToComeAtStart(lines, keep);
    for i := 0 to |lines|
      invariant ToCome(out, run, skipped, lines, i, keep)
    {
      var ln := lines[i];
      if IsFrame(ln) {
        if keep <= run {
          NextSkipped(out, run, skipped, lines, i, keep);
        } else {
          NextShown(out, run, skipped, lines, i, keep);
        }
        run := run + 1;
        if keep < run {
          skipped := skipped + [ln];
          continue;
        }
      } else {
        NextLine(out, run, skipped, lines, i, keep);
        ghost var next := out + Flushed(skipped);
        if skipped != [] {
          out := out + [Note(skipped[0], |skipped|)];
          skipped := [];
        }
        assert out == next;
        run := 0;
      }
      out := out + [ln];
    }
    ToComeAtEnd(out, run, skipped, lines, keep);
    if skipped != [] {
      out := out + [Note(skipped[0], |skipped|)];
    }
  }

  // ---------------------------------------------------------------- notes

  /** Every trimmed text has its notes in place, and shows no more than `keep` frames of a run. */
  lemma {:induction false} NotesInPlace(lines: seq<string>, keep: nat)
    ensures forall i :: NoteInPlace(TrimItems(lines, keep), i, keep)
    ensures forall i :: NoLongRun(TrimItems(lines, keep), i, keep)
    decreases |lines|
  {
    if lines != [] {
      var n := FrameRun(lines);
      if n == 0 {
        NotesInPlace(lines[1..], keep);
        InPlaceAfterLine(lines[0], TrimItems(lines[1..], keep), keep);
      } else {
        NotesInPlace(lines[n..], keep);
        FirstItem(lines[n..], keep);
        InPlaceAfterRun(lines[..n], TrimItems(lines[n..], keep), keep);
      }
    }
  }

  ghost predicate AllInPlace(items: seq<Item>, keep: nat) {
    (forall i :: NoteInPlace(items, i, keep)) && forall i :: NoLongRun(items, i, keep)
  }

  /** What is in place stays so behind a line that is no frame, as it is the end of a run before it that counts. */
  lemma InPlaceAfterLine(l: string, back: seq<Item>, keep: nat)
    requires !IsFrame(l) && AllInPlace(back, keep)
    ensures AllInPlace([Line(l)] + back, keep)
  {
    var items := [Line(l)] + back;
    forall i ensures NoteInPlace(items, i, keep) {
      assert NoteInPlace(back, i - 1, keep);
      assert items[0] == Line(l);
    }
    forall i ensures NoLongRun(items, i, keep) {
      assert NoLongRun(back, i - 1, keep);
      if 0 < i && i + keep < |items| {
        var j :| i - 1 <= j <= i - 1 + keep && !FrameLine(back[j]);
        assert !FrameLine(items[j + 1]);
      }
    }
  }

  lemma TrimRunItems(run: seq<string>, keep: nat)
    requires forall f | f in run :: IsFrame(f)
    ensures var front, n := TrimRun(run, keep), if |run| <= keep then |run| else keep;
      && |front| == (if |run| <= keep then n else n + 1)
      && (forall k | 0 <= k < n :: FrameLine(front[k]))
      && (keep < |run| ==>
           front[keep].Skipped? && front[keep].frames != [] && forall f | f in front[keep].frames :: IsFrame(f))
  {
    forall k | 0 <= k < |run| ensures IsFrame(run[k]) {
      assert run[k] in run;
    }
  }

  /** The trimmed run is in place, and so is what follows it. */
  lemma InPlaceAfterRun(run: seq<string>, back: seq<Item>, keep: nat)
    requires (forall f | f in run :: IsFrame(f)) && AllInPlace(back, keep)
    requires back != [] ==> back[0].Line? && !FrameLine(back[0])
    ensures AllInPlace(TrimRun(run, keep) + back, keep)
  {
    var front := TrimRun(run, keep);
    var items, n := front + back, |front|;
    TrimRunItems(run, keep);
    assert forall k | 0 <= k < n :: items[k] == front[k];
    forall i ensures NoteInPlace(items, i, keep) {
      if n <= i {
        NoteBehindRun(front, back, i, keep);
      }
    }
    forall i ensures NoLongRun(items, i, keep) {
      if n <= i && i + keep < |items| {
        assert NoLongRun(back, i - n, keep);
        var j :| i - n <= j <= i - n + keep && !FrameLine(back[j]);
        assert !FrameLine(items[n + j]);
      } else if 0 <= i && i + keep < |items| {
        assert !FrameLine(items[if |run| <= keep then n else keep]);
      }
    }
  }

  lemma NoteBehindRun(front: seq<Item>, back: seq<Item>, i: int, keep: nat)
    requires |front| <= i && AllInPlace(back, keep)
    requires back != [] ==> back[0].Line? && !FrameLine(back[0])
    ensures NoteInPlace(front + back, i, keep)
  {
    var items, n := front + back, |front|;
    if i < |items| && items[i].Skipped? {
      var k := i - n;
      assert NoteInPlace(back, k, keep);
      assert keep < k;
      assert forall j | n <= j < |items| :: items[j] == back[j - n];
    }
  }

  lemma FirstItem(lines: seq<string>, keep: nat)
    ensures lines != [] && !IsFrame(lines[0]) ==>
      TrimItems(lines, keep) != [] && TrimItems(lines, keep)[0] == Line(lines[0])
    ensures lines == [] ==> TrimItems(lines, keep) == []
  {
  }

  /** No space is followed by a `c`, so the frame mark cannot occur. */
  predicate NoMark(s: string) {
    forall i | 0 <= i < |s| - 1 :: s[i] == ' ' ==> s[i + 1] != 'c'
  }

  lemma NoMarkNoFrame(s: string)
    requires NoMark(s)
    ensures !IsFrame(s)
  {
    forall i ensures !OccursAt(s, FRAME_MARK, i) {
      if 0 <= i <= |s| - |FRAME_MARK| {
        var piece := s[i..i + |FRAME_MARK|];
        assert piece[0] == s[i] && piece[1] == s[i + 1];
      }
    }
  }

  lemma NoteIsNoFrame(first: string, count: nat)
    ensures !IsFrame(Note(first, count))
    ensures RStrip(Note(first, count)) == Note(first, count) && !IsBlank(Note(first, count))
  {
    var a, b, c, d := Indent(first), "... (", Digits(count), " more stack frames)";
    assert forall i | 0 <= i < |a| :: a[i] in a;
    assert forall i | 0 <= i < |c| :: c[i] in c;
    assert NoMark(d);
    assert d[0] == ' ' && d[|d| - 1] == ')';
    var note := Note(first, count);
    assert note[|note| - 1] == ')';
    assert note[|note| - 1] in note;
    NoMarkConcat(a, b);
    NoMarkConcat(a + b, c);
    NoMarkConcat(a + b + c, d);
    NoMarkNoFrame(note);
    RStripFixed(note);
  }

  /** The number in a note is the count. */
  lemma NoteCounts(first: string, count: nat)
    ensures NumberOf(DigitsIn(Note(first, count))) == count
  {
    var a := Indent(first);
    assert forall i | 0 <= i < |a| :: a[i] in a;
    OneNumber(a + "... (", count, " more stack frames)");
    Associative(a, "... (", Digits(count));
  }

  lemma NoMarkConcat(s: string, t: string)
    requires NoMark(s) && NoMark(t) && t != [] && (s != [] && s[|s| - 1] == ' ' ==> t[0] != 'c')
    ensures NoMark(s + t)
  {
  }

  // ---------------------------------------------------------------- trimming twice

  lemma {:induction false} FrameRunOf(run: seq<string>, t: seq<string>)
    requires (forall f | f in run :: IsFrame(f)) && (t != [] ==> !IsFrame(t[0]))
    ensures FrameRun(run + t) == |run|
  {
    if run == [] {
      assert run + t == t;
    } else {
      assert run[0] in run;
      FrameRunOf(run[1..], t);
      assert (run + t)[1..] == run[1..] + t;
    }
  }

  lemma TrimAfterRun(run: seq<string>, t: seq<string>, keep: nat)
    requires |run| <= keep && (forall f | f in run :: IsFrame(f)) && (t != [] ==> !IsFrame(t[0]))
    ensures Trim(run + t, keep) == run + Trim(t, keep)
  {
    FrameRunOf(run, t);
    if run == [] {
      assert run + t == t && run + Trim(t, keep) == Trim(t, keep);
    } else {
      TrimUnfold(run + t, keep);
      assert (run + t)[..|run|] == run && (run + t)[|run|..] == t;
    }
  }

  /** A trimmed text is not trimmed any further: its notes are no frames. */
  lemma {:induction false} TrimTwice(lines: seq<string>, keep: nat)
    ensures Trim(Trim(lines, keep), keep) == Trim(lines, keep)
    decreases |lines|
  {
    if lines != [] {
      var n := FrameRun(lines);
      TrimUnfold(lines, keep);
      if n == 0 {
        var t := Trim(lines[1..], keep);
        TrimTwice(lines[1..], keep);
        TrimAfterLine(lines[0], t, keep);
      } else {
        var t := Trim(lines[n..], keep);
        TrimTwice(lines[n..], keep);
        FirstItem(lines[n..], keep);
        TrimShownRun(lines[..n], t, keep);
      }
    }
  }

  lemma TrimShownRun(run: seq<string>, t: seq<string>, keep: nat)
    requires (forall f | f in run :: IsFrame(f)) && (t != [] ==> !IsFrame(t[0])) && Trim(t, keep) == t
    ensures Trim(ShownRun(run, keep) + t, keep) == ShownRun(run, keep) + t
  {
    if |run| <= keep {
      TrimAfterRun(run, t, keep);
    } else {
      var note := Note(run[keep], |run| - keep);
      NoteIsNoFrame(run[keep], |run| - keep);
      TrimAfterLine(note, t, keep);
      TrimAfterRun(run[..keep], [note] + t, keep);
      Associative(run[..keep], [note], t);
    }
  }

  lemma TrimAfterLine(l: string, t: seq<string>, keep: nat)
    requires !IsFrame(l)
    ensures Trim([l] + t, keep) == [l] + Trim(t, keep)
  {
    TrimUnfold([l] + t, keep);
    assert ([l] + t)[1..] == t;
  }

  // ---------------------------------------------------------------- squeezing blank lines

  function Stripped(lines: seq<string>): seq<string> {
    seq(|lines|, i requires 0 <= i < |lines| => RStrip(lines[i]))
  }

  function NonEmpty(parts: seq<seq<string>>): seq<seq<string>> {
    if parts == [] then [] else (if parts[0] == [] then [] else [parts[0]]) + NonEmpty(parts[1..])
  }

  /** The text as its paragraphs, one blank line between any two: what squeezing is for, said without a loop. */
  function Squeezed(lines: seq<string>): seq<string> {
    Join(NonEmpty(Split(Stripped(lines), "")), "")
  }

  /** What is still to come: `started` says that a line was shown, `gap` that blank lines follow it. */
  function Lazy(started: bool, gap: bool, lines: seq<string>): seq<string>
    decreases lines
  {
    if lines == [] then []
    else if IsBlank(lines[0]) then Lazy(started, true, lines[1..])
    else (if started && gap then [""] else []) + ([RStrip(lines[0])] + Lazy(true, false, lines[1..]))
  }

  predicate Gap(out: seq<string>) {
    out != [] && out[|out| - 1] == ""
  }

  /** The lines shown so far but for a blank one at the end. */
  function Body(out: seq<string>): seq<string> {
    if Gap(out) then out[..|out| - 1] else out
  }

  /** Lines that are blank only if they are empty, without two empty ones in a row. */
  predicate Tidy(out: seq<string>) {
    && (forall k | 0 <= k < |out| :: IsBlank(out[k]) ==> out[k] == "")
    && (forall k | 0 <= k < |out| - 1 :: out[k] == "" ==> out[k + 1] != "")
  }

  lemma TidySnoc(out: seq<string>, l: string)
    requires Tidy(out) && (IsBlank(l) ==> l == "" && !Gap(out))
    ensures Tidy(out + [l])
  {
  }

  lemma PopBlank(out: seq<string>)
    requires Tidy(out) && out != [] && IsBlank(out[|out| - 1])
    ensures Tidy(out[..|out| - 1]) && Body(out[..|out| - 1]) == Body(out)
  {
  }

  ghost predicate Underway(out: seq<string>, rest: seq<string>, all: seq<string>) {
    Body(out) + Lazy(out != [], Gap(out), rest) == Lazy(false, false, all)
  }

  lemma {:induction false} LazyGap(lines: seq<string>)
    ensures Lazy(false, true, lines) == Lazy(false, false, lines)
  {
  }

  lemma StepSkips(out: seq<string>, rest: seq<string>, all: seq<string>)
    requires Underway(out, rest, all) && rest != [] && IsBlank(rest[0]) && (out == [] || Gap(out))
    ensures Underway(out, rest[1..], all)
  {
    LazyGap(rest[1..]);
  }

  lemma StepBlank(out: seq<string>, rest: seq<string>, all: seq<string>)
    requires Underway(out, rest, all) && rest != [] && IsBlank(rest[0]) && out != [] && !Gap(out)
    ensures Underway(out + [""], rest[1..], all)
  {
    assert Body(out + [""]) == out;
  }

  lemma StepLine(out: seq<string>, rest: seq<string>, all: seq<string>)
    requires Underway(out, rest, all) && rest != [] && !IsBlank(rest[0])
    ensures Underway(out + [RStrip(rest[0])], rest[1..], all)
  {
    BlankStrips(rest[0]);
    var l, more := RStrip(rest[0]), Lazy(true, false, rest[1..]);
    if Gap(out) {
      assert out == Body(out) + [""];
      Associative(Body(out), [""], [l] + more);
      Associative(out, [l], more);
    } else {
      assert [] + ([l] + more) == [l] + more;
      Associative(out, [l], more);
    }
  }

  /** The loop is at line `i`. */
  ghost predicate Squeezing(out: seq<string>, lines: seq<string>, i: nat) {
    i <= |lines| && Tidy(out) && Underway(out, lines[i..], lines)
  }

  lemma StartSqueezing(lines: seq<string>)
    ensures Squeezing([], lines, 0)
  {
    assert lines[0..] == lines && [] + Lazy(false, false, lines) == Lazy(false, false, lines);
  }

  /** Blank: not shown at the start and after a blank one, else as an empty line. */
  lemma NextSqueezed(out: seq<string>, lines: seq<string>, i: nat)
    requires Squeezing(out, lines, i) && i < |lines|
    ensures var shown := !IsBlank(lines[i]) || (out != [] && !IsBlank(out[|out| - 1]));
      Squeezing(if shown then out + [RStrip(lines[i])] else out, lines, i + 1)
  {
    var ln := lines[i];
    assert lines[i..][1..] == lines[i + 1..];
    BlankStrips(ln);
    if !IsBlank(ln) {
      StepLine(out, lines[i..], lines);
      TidySnoc(out, RStrip(ln));
    } else if out != [] && !IsBlank(out[|out| - 1]) {
      StepBlank(out, lines[i..], lines);
      TidySnoc(out, RStrip(ln));
    } else {
      StepSkips(out, lines[i..], lines);
    }
  }

  /** Only blank lines at the end are too many. */
  ghost predicate Popping(out: seq<string>, lines: seq<string>) {
    Tidy(out) && Body(out) == Squeezed(lines)
  }

  lemma StartPopping(out: seq<string>, lines: seq<string>)
    requires Squeezing(out, lines, |lines|)
    ensures Popping(out, lines)
  {
    assert lines[|lines|..] == [] && Body(out) + [] == Body(out);
    LazyIsSqueezed(lines);
  }

  /** `_squeeze_blank`. */
  method SqueezeBlank(lines: seq<string>) returns (out: seq<string>)
    ensures out == Squeezed(lines)
  {
    out := [];
    StartSqueezing(lines);
    for i := 0 to |lines|
      invariant Squeezing(out, lines, i)
    {
      var ln := lines[i];
      NextSqueezed(out, lines, i);
      if !IsBlank(ln) || (out != [] && !IsBlank(out[|out| - 1])) {
        out := out + [RStrip(ln)];
      }
    }
    StartPopping(out, lines);
    while out != [] && IsBlank(out[|out| - 1])
      invariant Popping(out, lines)
      decreases |out|
    {
      PopBlank(out);
      out := out[..|out| - 1];
    }
  }

  // ---------------------------------------------------------------- what the loop computes

  /** The paragraphs of what is to come, when the first part continues a paragraph that was begun. */
  function Continued(parts: seq<seq<string>>): seq<string>
    requires parts != []
  {
    parts[0] + Separated(NonEmpty(parts[1..]))
  }

  function Separated(paragraphs: seq<seq<string>>): seq<string> {
    if paragraphs == [] then [] else [""] + Join(paragraphs, "")
  }

  lemma JoinUnfold(first: seq<string>, others: seq<seq<string>>)
    ensures Join([first] + others, "") == first + Separated(others)
  {
    if others == [] {
      assert [first] + others == [first];
    } else {
      assert ([first] + others)[1..] == others;
      Associative(first, [""], Join(others, ""));
    }
  }

  lemma {:induction false} LazyIsParagraphs(lines: seq<string>)
    ensures Lazy(false, false, lines) == Join(NonEmpty(Split(Stripped(lines), "")), "")
    ensures Lazy(true, false, lines) == Continued(Split(Stripped(lines), ""))
    ensures Lazy(true, true, lines) == Separated(NonEmpty(Split(Stripped(lines), "")))
  {
    var parts := Split(Stripped(lines), "");
    if lines == [] {
      assert parts == [[]];
    } else {
      var l, rest := RStrip(lines[0]), Stripped(lines[1..]);
      assert Stripped(lines) == [l] + rest;
      SplitCons(l, rest, "");
      LazyIsParagraphs(lines[1..]);
      BlankStrips(lines[0]);
      var more := Split(rest, "");
      if IsBlank(lines[0]) {
        LazyGap(lines[1..]);
        assert parts == [[]] + more && parts[1..] == more;
        assert [] + NonEmpty(more) == NonEmpty(more) && [] + Separated(NonEmpty(more)) == Separated(NonEmpty(more));
      } else {
        assert parts == Grow(l, more) && parts[0] == [l] + more[0] && parts[1..] == more[1..];
        LazyLine(l, more, NonEmpty(more[1..]));
      }
    }
  }

  lemma LazyLine(l: string, more: seq<seq<string>>, others: seq<seq<string>>)
    requires more != [] && others == NonEmpty(more[1..])
    ensures [l] + Continued(more) == ([l] + more[0]) + Separated(others)
    ensures [] + ([l] + Continued(more)) == [l] + Continued(more)
    ensures Join([[l] + more[0]] + others, "") == [l] + Continued(more)
  {
    Associative([l], more[0], Separated(others));
    JoinUnfold([l] + more[0], others);
  }

  lemma LazyIsSqueezed(lines: seq<string>)
    ensures Lazy(false, false, lines) == Squeezed(lines)
  {
    LazyIsParagraphs(lines);
  }

  // ---------------------------------------------------------------- the normal form

  /** After a blank line (or at the start) comes a line that is not blank; all lines are stripped at their end; the
      last line is not blank. */
  ghost predicate NormalFrom(afterBlank: bool, lines: seq<string>)
    decreases lines
  {
    if lines == [] then !afterBlank
    else RStrip(lines[0]) == lines[0] && (lines[0] == "" ==> !afterBlank) && NormalFrom(lines[0] == "", lines[1..])
  }

  ghost predicate Normal(lines: seq<string>) {
    lines == [] || NormalFrom(true, lines)
  }

  lemma {:induction false} LazyIsNormal(lines: seq<string>)
    ensures Normal(Lazy(false, false, lines))
    ensures NormalFrom(false, Lazy(true, false, lines))
    ensures Lazy(true, true, lines) == [] || NormalFrom(false, Lazy(true, true, lines))
  {
    if lines != [] {
      LazyIsNormal(lines[1..]);
      LazyGap(lines[1..]);
      BlankStrips(lines[0]);
      var l, more := RStrip(lines[0]), Lazy(true, false, lines[1..]);
      if l != "" {
        NormalLine(l, more);
      }
    }
  }

  lemma NormalLine(l: string, more: seq<string>)
    requires l != "" && !IsSpace(l[|l| - 1]) && NormalFrom(false, more)
    ensures [] + ([l] + more) == [l] + more
    ensures NormalFrom(true, [l] + more) && NormalFrom(false, [l] + more)
    ensures NormalFrom(false, [""] + ([l] + more))
  {
    RStripFixed(l);
    assert ([l] + more)[1..] == more;
    assert ([""] + ([l] + more))[1..] == [l] + more;
  }

  lemma {:induction false} NormalIsFixed(lines: seq<string>)
    ensures NormalFrom(true, lines) ==> Lazy(false, false, lines) == lines && Lazy(true, true, lines) == [""] + lines
    ensures NormalFrom(false, lines) ==> Lazy(true, false, lines) == lines
  {
    if lines != [] {
      NormalIsFixed(lines[1..]);
      BlankStrips(lines[0]);
      assert lines == [lines[0]] + lines[1..];
      if !IsBlank(lines[0]) {
        var more := [RStrip(lines[0])] + Lazy(true, false, lines[1..]);
        assert [] + more == more;
      }
    }
  }

  /** Squeezing leaves a text alone if and only if it is in normal form, and always produces one. */
  lemma SqueezedIffNormal(lines: seq<string>)
    ensures Squeezed(lines) == lines <==> Normal(lines)
    ensures Normal(Squeezed(lines)) && Squeezed(Squeezed(lines)) == Squeezed(lines)
  {
    LazyIsSqueezed(lines);
    LazyIsNormal(lines);
    NormalIsFixed(lines);
    LazyIsSqueezed(Squeezed(lines));
    NormalIsFixed(Squeezed(lines));
  }

  /** The lines that are not blank, stripped at their end. */
  function NonBlank(lines: seq<string>): seq<string> {
    if lines == [] then [] else (if IsBlank(lines[0]) then [] else [RStrip(lines[0])]) + NonBlank(lines[1..])
  }

  lemma {:induction false} NonBlankCons(l: string, lines: seq<string>)
    ensures NonBlank([l] + lines) == (if IsBlank(l) then [] else [RStrip(l)]) + NonBlank(lines)
  {
    assert ([l] + lines)[1..] == lines;
  }

  lemma {:induction false} LazyKeepsLines(started: bool, gap: bool, lines: seq<string>)
    ensures NonBlank(Lazy(started, gap, lines)) == NonBlank(lines)
    decreases lines
  {
    if lines != [] {
      var l, more := RStrip(lines[0]), Lazy(true, false, lines[1..]);
      BlankStrips(lines[0]);
      if IsBlank(lines[0]) {
        LazyKeepsLines(started, true, lines[1..]);
        assert [] + NonBlank(lines[1..]) == NonBlank(lines[1..]);
      } else {
        LazyKeepsLines(true, false, lines[1..]);
        RStripFixed(l);
        NonBlankCons(l, more);
        NonBlankCons("", [l] + more);
        assert [] + ([l] + more) == [l] + more;
        assert [] + NonBlank([l] + more) == NonBlank([l] + more);
      }
    }
  }

  /** Squeezing keeps every line that is not blank, in order. */
  lemma SqueezeKeepsLines(lines: seq<string>)
    ensures NonBlank(Squeezed(lines)) == NonBlank(lines)
  {
    LazyIsSqueezed(lines);
    LazyKeepsLines(false, false, lines);
  }

  // ---------------------------------------------------------------- both passes together

  ghost predicate StrippedLine(l: string) {
    l != "" && RStrip(l) == l
  }

  lemma {:induction false} NormalAfterLines(afterBlank: bool, run: seq<string>, rest: seq<string>)
    requires run != [] && "" !in run
    ensures NormalFrom(afterBlank, run + rest) <==> (forall l | l in run :: StrippedLine(l)) && NormalFrom(false, rest)
    decreases run
  {
    var l, more := run[0], run[1..];
    assert l in run && (run + rest)[0] == l;
    assert (run + rest)[1..] == more + rest;
    if more == [] {
      assert more + rest == rest && forall x | x in run :: x == l;
    } else {
      NormalAfterLines(false, more, rest);
      assert forall x :: x in run <==> x == l || x in more;
    }
  }

  lemma FrameIsNotEmpty(l: string)
    requires IsFrame(l)
    ensures l != ""
  {
    var i :| 0 <= i <= |l| && OccursAt(l, FRAME_MARK, i);
    assert |l| >= |FRAME_MARK|;
  }

  lemma ShownRunIsStripped(run: seq<string>, keep: nat)
    requires run != [] && (forall l | l in run :: StrippedLine(l))
    ensures ShownRun(run, keep) != [] && forall l | l in ShownRun(run, keep) :: StrippedLine(l)
  {
    if keep < |run| {
      NoteIsNoFrame(run[keep], |run| - keep);
      var note := Note(run[keep], |run| - keep);
      assert note != "";
    }
  }

  lemma NormalCons(afterBlank: bool, l: string, t: seq<string>)
    ensures NormalFrom(afterBlank, [l] + t) <==> RStrip(l) == l && (l == "" ==> !afterBlank) && NormalFrom(l == "", t)
  {
    assert ([l] + t)[1..] == t;
  }

  lemma {:induction false} TrimKeepsNormal(afterBlank: bool, lines: seq<string>, keep: nat)
    requires NormalFrom(afterBlank, lines)
    ensures NormalFrom(afterBlank, Trim(lines, keep))
    decreases |lines|
  {
    if lines != [] {
      var n := FrameRun(lines);
      TrimUnfold(lines, keep);
      if n == 0 {
        TrimKeepsNormal(lines[0] == "", lines[1..], keep);
        NormalCons(afterBlank, lines[0], Trim(lines[1..], keep));
      } else {
        var run, rest := lines[..n], lines[n..];
        TwoParts(lines, n);
        NormalRun(afterBlank, run, rest);
        TrimKeepsNormal(false, rest, keep);
        NormalShownRun(afterBlank, run, Trim(rest, keep), keep);
      }
    }
  }

  lemma NormalRun(afterBlank: bool, run: seq<string>, rest: seq<string>)
    requires run != [] && (forall l | l in run :: IsFrame(l)) && NormalFrom(afterBlank, run + rest)
    ensures NormalFrom(false, rest) && forall l | l in run :: StrippedLine(l)
  {
    FramesAreNotEmpty(run);
    NormalAfterLines(afterBlank, run, rest);
  }

  lemma NormalShownRun(afterBlank: bool, run: seq<string>, t: seq<string>, keep: nat)
    requires run != [] && (forall l | l in run :: StrippedLine(l)) && NormalFrom(false, t)
    ensures NormalFrom(afterBlank, ShownRun(run, keep) + t)
  {
    ShownRunIsStripped(run, keep);
    NormalAfterLines(afterBlank, ShownRun(run, keep), t);
  }

  lemma FramesAreNotEmpty(run: seq<string>)
    requires forall l | l in run :: IsFrame(l)
    ensures "" !in run
  {
    forall l | l in run ensures l != "" {
      FrameIsNotEmpty(l);
    }
  }

  /** Squeezed and then trimmed, as a failure text is, a text is stable under both passes. */
  lemma CleanTextIsStable(lines: seq<string>, keep: nat)
    ensures var clean := Trim(Squeezed(lines), keep);
      Squeezed(clean) == clean && Trim(clean, keep) == clean
  {
    var squeezed := Squeezed(lines);
    SqueezedIffNormal(lines);
    TrimTwice(squeezed, keep);
    if squeezed != [] {
      TrimKeepsNormal(true, squeezed, keep);
    }
    SqueezedIffNormal(Trim(squeezed, keep));
  }
}
