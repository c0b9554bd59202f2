/** Fetching job files: a streamed body is kept up to a cap, as its head and its tail around a note, and every file
    is fetched once. */
module BodyBuffer {
  import opened PyText

  newtype byte = x: int | 0 <= x < 256
  type Bytes = seq<byte>

  const NEWLINE: byte := 10

  function Concat(chunks: seq<Bytes>): Bytes {
    if chunks == [] then [] else Concat(chunks[..|chunks| - 1]) + chunks[|chunks| - 1]
  }

  /** The first `n` bytes, or all of them. */
  function First(b: Bytes, n: nat): Bytes {
    if |b| <= n then b else b[..n]
  }

  /** The last `n` bytes, or all of them. */
  function Last(b: Bytes, n: nat): Bytes {
    if |b| <= n then b else b[|b| - n..]
  }

  /** `del tail[:-half]`: keeps the last `half` bytes, except that -0 is 0 and deletes nothing. */
  function Trimmed(tail: Bytes, half: nat): Bytes {
    if half == 0 then tail else Last(tail, half)
  }

  /** What the two buffers hold after a body that came in any chunks. */
  function HeadOf(body: Bytes, half: nat): Bytes {
    First(body, half)
  }

  function TailOf(body: Bytes, half: nat): Bytes {
    Trimmed(body[|HeadOf(body, half)|..], half)
  }

  /** The text of a capped file: the body, or whole lines of its head and tail around the number of bytes left out. */
  datatype Capped = Whole(body: Bytes) | Cut(head: Bytes, omitted: int, tail: Bytes)

  /** `b.rsplit("\n", 1)[0]`. */
  function BeforeLastNewline(b: Bytes): (r: Bytes)
    ensures NEWLINE !in b ==> r == b
    ensures NEWLINE in b ==> r + [NEWLINE] <= b && NEWLINE !in b[|r| + 1..]
  {
    if NEWLINE !in b then b
    else if b[|b| - 1] == NEWLINE then b[..|b| - 1]
    else
      var r := BeforeLastNewline(b[..|b| - 1]);
      assert b[|r| + 1..] == b[..|b| - 1][|r| + 1..] + [b[|b| - 1]];
      r
  }

  /** `b.split("\n", 1)[-1]`. */
  function AfterFirstNewline(b: Bytes): (r: Bytes)
    ensures |r| <= |b| && r == b[|b| - |r|..]
    ensures NEWLINE !in b ==> r == b
    ensures NEWLINE in b ==> |r| < |b| && b[|b| - |r| - 1] == NEWLINE && NEWLINE !in b[..|b| - |r| - 1]
  {
    if NEWLINE !in b then b else if b[0] == NEWLINE then b[1..] else AfterFirstNewline(b[1..])
  }

  function CappedText(body: Bytes, maxBytes: nat): Capped {
    var head, tail := HeadOf(body, maxBytes / 2), TailOf(body, maxBytes / 2);
    if |body| <= maxBytes then Whole(head + tail)
    else Cut(BeforeLastNewline(head), |body| - |head| - |tail|, AfterFirstNewline(tail))
  }

  // ---------------------------------------------------------------- the streaming loop

  lemma TrimmedConcat(tail: Bytes, more: Bytes, half: nat)
    ensures Trimmed(Trimmed(tail, half) + more, half) == Trimmed(tail + more, half)
  {
  }

  lemma BuffersStep(body: Bytes, chunk: Bytes, half: nat)
    ensures var head, tail := HeadOf(body, half), TailOf(body, half);
      var room := half - |head|;
      && HeadOf(body + chunk, half) == head + First(chunk, room)
      && TailOf(body + chunk, half) == Trimmed(tail + chunk[|First(chunk, room)|..], half)
  {
    if half <= |body| {
      BuffersStepFull(body, chunk, half);
    } else {
      assert TailOf(body, half) == [];
      if half < |body| + |chunk| {
        assert (body + chunk)[half..] == chunk[half - |body|..];
      }
    }
  }

  lemma BuffersStepFull(body: Bytes, chunk: Bytes, half: nat)
    requires half <= |body|
    ensures HeadOf(body + chunk, half) == HeadOf(body, half)
    ensures TailOf(body + chunk, half) == Trimmed(TailOf(body, half) + chunk, half)
    ensures |HeadOf(body, half)| == half
  {
    assert (body + chunk)[half..] == body[half..] + chunk;
    TrimmedConcat(body[half..], chunk, half);
  }

  /** The buffers of the loop after `body`. */
  ghost predicate Buffers(body: Bytes, half: nat, head: Bytes, tail: Bytes) {
    head == HeadOf(body, half) && tail == TailOf(body, half)
  }

  lemma NextBuffers(body: Bytes, chunk: Bytes, half: nat, head: Bytes, tail: Bytes)
    requires Buffers(body, half, head, tail)
    ensures |head| <= half
    ensures var kept := First(chunk, half - |head|);
      Buffers(body + chunk, half, head + kept, Trimmed(tail + chunk[|kept|..], half))
  {
    BuffersStep(body, chunk, half);
  }

  /** The variables of the loop after the first `i` chunks. */
  ghost predicate Streamed(chunks: seq<Bytes>, i: nat, half: nat, head: Bytes, tail: Bytes, total: nat) {
    i <= |chunks| && total == |Concat(chunks[..i])| && Buffers(Concat(chunks[..i]), half, head, tail)
  }

  lemma NextChunk(chunks: seq<Bytes>, i: nat, half: nat, head: Bytes, tail: Bytes, total: nat)
    requires Streamed(chunks, i, half, head, tail, total) && i < |chunks|
    ensures |head| <= half
    ensures var kept := First(chunks[i], half - |head|);
      Streamed(chunks, i + 1, half, head + kept, Trimmed(tail + chunks[i][|kept|..], half), total + |chunks[i]|)
  {
    NextBuffers(Concat(chunks[..i]), chunks[i], half, head, tail);
    assert chunks[..i + 1][..i] == chunks[..i];
  }

  lemma StreamedText(chunks: seq<Bytes>, maxBytes: nat, head: Bytes, tail: Bytes, total: nat)
    requires Streamed(chunks, |chunks|, maxBytes / 2, head, tail, total)
    ensures CappedText(Concat(chunks), maxBytes) ==
      if total <= maxBytes then Whole(head + tail)
      else Cut(BeforeLastNewline(head), total - |head| - |tail|, AfterFirstNewline(tail))
  {
    assert chunks[..|chunks|] == chunks;
  }

  /** A cap of two bytes or more is kept to. */
  ghost predicate WithinTheCap(held: seq<nat>, maxBytes: nat) {
    2 <= maxBytes ==> forall k | 0 <= k < |held| :: held[k] <= maxBytes
  }

  lemma OneMoreWithin(
    held: seq<nat>, chunks: seq<Bytes>, i: nat, maxBytes: nat, head: Bytes, tail: Bytes, total: nat)
    requires WithinTheCap(held, maxBytes) && Streamed(chunks, i, maxBytes / 2, head, tail, total)
    ensures WithinTheCap(held + [|head| + |tail|], maxBytes)
  {
  }

  /** The stream of a response: the text does not depend on how the body was split, and with a cap of two bytes or
      more the buffers never hold more than the cap between chunks. `held` is what they hold after each chunk. */
  method CappedStream(chunks: seq<Bytes>, maxBytes: nat) returns (r: Capped, ghost held: seq<nat>)
    ensures r == CappedText(Concat(chunks), maxBytes)
    ensures |held| == |chunks| && WithinTheCap(held, maxBytes)
  {
    var half := maxBytes / 2;
    var head: Bytes, tail: Bytes, total: nat := [], [], 0;
    held := [];
    for i := 0 to |chunks|
      invariant Streamed(chunks, i, half, head, tail, total)
      invariant |held| == i && WithinTheCap(held, maxBytes)
    {
      var chunk := chunks[i];
      NextChunk(chunks, i, half, head, tail, total);
      total := total + |chunk|;
      var room := half - |head|;
      var kept := First(chunk, room);
      head, tail := head + kept, Trimmed(tail + chunk[|kept|..], half);
      OneMoreWithin(held, chunks, i + 1, maxBytes, head, tail, total);
      held := held + [|head| + |tail|];
    }
    StreamedText(chunks, maxBytes, head, tail, total);
    if total <= maxBytes {
      return Whole(head + tail), held;
    }
    return Cut(BeforeLastNewline(head), total - |head| - |tail|, AfterFirstNewline(tail)), held;
  }

  // ---------------------------------------------------------------- what is kept

  /** A body within the cap is returned unchanged, except for one that has exactly an odd cap's size: it loses its
      middle byte. */
  lemma WholeWithinTheCap(body: Bytes, maxBytes: nat)
    requires |body| <= maxBytes
    ensures CappedText(body, maxBytes) == Whole(body) <==> !(maxBytes % 2 == 1 && 1 < maxBytes && |body| == maxBytes)
  {
    var half := maxBytes / 2;
    var head, tail := HeadOf(body, half), TailOf(body, half);
    if |body| <= half {
      assert tail == [];
    } else if |body| <= 2 * half || half == 0 {
      assert tail == body[half..];
    } else {
      assert |head + tail| == 2 * half;
    }
  }

  lemma CutKeepsBothEnds(body: Bytes, half: nat)
    requires 0 < half && 2 * half <= |body|
    ensures HeadOf(body, half) == body[..half]
    ensures TailOf(body, half) == body[|body| - half..]
    ensures body == HeadOf(body, half) + body[half..|body| - half] + TailOf(body, half)
  {
    var rest := body[half..];
    assert rest[|rest| - half..] == body[|body| - half..];
  }

  /** A longer body is cut to its first and last half, and the omitted bytes are exactly its middle, if the cap is at
      least two; a smaller cap keeps everything as the tail. */
  lemma CutBeyondTheCap(body: Bytes, maxBytes: nat)
    requires maxBytes < |body|
    ensures var half := maxBytes / 2;
      && (0 < half ==>
            && HeadOf(body, half) == body[..half] && TailOf(body, half) == body[|body| - half..]
            && CappedText(body, maxBytes).omitted == |body[half..|body| - half]|)
      && (half == 0 ==>
            HeadOf(body, half) == [] && TailOf(body, half) == body && CappedText(body, maxBytes).omitted == 0)
  {
    if 0 < maxBytes / 2 {
      CutKeepsBothEnds(body, maxBytes / 2);
    }
  }

  ghost predicate FrontLines(body: Bytes, front: Bytes, k: nat) {
    k <= |Split(body, NEWLINE)| && Split(front, NEWLINE) == Split(body, NEWLINE)[..k]
  }

  ghost predicate BackLines(body: Bytes, back: Bytes, m: nat) {
    var lines := Split(body, NEWLINE);
    m <= |lines| && Split(back, NEWLINE) == lines[|lines| - m..]
  }

  lemma FrontOf(body: Bytes, r: Bytes, others: seq<Bytes>, k: nat)
    requires Split(body, NEWLINE) == Split(r, NEWLINE) + others && k == |Split(r, NEWLINE)|
    ensures FrontLines(body, r, k)
  {
  }

  lemma BackOf(body: Bytes, others: seq<Bytes>, r: Bytes, m: nat)
    requires Split(body, NEWLINE) == others + Split(r, NEWLINE) && m == |Split(r, NEWLINE)|
    ensures BackLines(body, r, m)
  {
  }

  lemma FrontOfPrefix(r: Bytes, partial: Bytes, rest: Bytes)
    requires NEWLINE !in partial
    ensures FrontLines(r + [NEWLINE] + partial + rest, r, Count(r + [NEWLINE] + partial, NEWLINE))
  {
    LinesBefore(r, NEWLINE, partial, rest);
    FrontOf(r + [NEWLINE] + partial + rest, r, Split(partial + rest, NEWLINE), |Split(r, NEWLINE)|);
  }

  lemma BackOfSuffix(rest: Bytes, partial: Bytes, r: Bytes)
    requires NEWLINE !in partial
    ensures BackLines(rest + (partial + [NEWLINE] + r), r, Count(partial + [NEWLINE] + r, NEWLINE))
  {
    LinesAfter(rest, partial, NEWLINE, r);
    BackOf(rest + (partial + [NEWLINE] + r), Split(rest + partial, NEWLINE), r, |Split(r, NEWLINE)|);
  }

  lemma PartsAround(b: Bytes, n: nat)
    requires n < |b|
    ensures b == b[..n] + [b[n]] + b[n + 1..]
  {
  }

  lemma CutAtLastNewline(b: Bytes) returns (partial: Bytes)
    requires NEWLINE in b
    ensures b == BeforeLastNewline(b) + [NEWLINE] + partial && NEWLINE !in partial
  {
    partial := b[|BeforeLastNewline(b)| + 1..];
    PartsAround(b, |BeforeLastNewline(b)|);
  }

  lemma CutAtFirstNewline(b: Bytes) returns (partial: Bytes)
    requires NEWLINE in b
    ensures b == partial + [NEWLINE] + AfterFirstNewline(b) && NEWLINE !in partial
  {
    var n := |b| - |AfterFirstNewline(b)| - 1;
    partial := b[..n];
    PartsAround(b, n);
    assert b[n] == NEWLINE && b[n + 1..] == AfterFirstNewline(b);
  }

  /** What is before the last newline of a prefix is its whole lines. */
  lemma PrefixLines(head: Bytes, rest: Bytes)
    requires NEWLINE in head
    ensures FrontLines(head + rest, BeforeLastNewline(head), Count(head, NEWLINE))
  {
    var partial := CutAtLastNewline(head);
    FrontOfPrefix(BeforeLastNewline(head), partial, rest);
  }

  /** What is after the first newline of a suffix is its whole lines. */
  lemma SuffixLines(rest: Bytes, tail: Bytes)
    requires NEWLINE in tail
    ensures BackLines(rest + tail, AfterFirstNewline(tail), Count(tail, NEWLINE))
  {
    var partial := CutAtFirstNewline(tail);
    BackOfSuffix(rest, partial, AfterFirstNewline(tail));
  }

  /** `front` is the first `k` lines of the body and `back` its last `m`, and no line is in both. */
  ghost predicate ShowsLines(body: Bytes, front: Bytes, back: Bytes, k: nat, m: nat) {
    0 < k && 0 < m && k + m <= |Split(body, NEWLINE)| && FrontLines(body, front, k) && BackLines(body, back, m)
  }

  lemma CountOfThreeParts(head: Bytes, middle: Bytes, tail: Bytes)
    requires NEWLINE in head && NEWLINE in tail
    ensures 0 < Count(head, NEWLINE) && 0 < Count(tail, NEWLINE)
    ensures Count(head, NEWLINE) + Count(tail, NEWLINE) <= |Split(head + middle + tail, NEWLINE)|
  {
    SplitLength(head + middle + tail, NEWLINE);
    CountConcat(head + middle, tail, NEWLINE);
    CountConcat(head, middle, NEWLINE);
    CountZero(head, NEWLINE);
    CountZero(tail, NEWLINE);
  }

  lemma LinesOfThreeParts(head: Bytes, middle: Bytes, tail: Bytes)
    requires NEWLINE in head && NEWLINE in tail
    ensures ShowsLines(head + middle + tail, BeforeLastNewline(head), AfterFirstNewline(tail),
                       Count(head, NEWLINE), Count(tail, NEWLINE))
  {
    assert head + middle + tail == head + (middle + tail);
    PrefixLines(head, middle + tail);
    SuffixLines(head + middle, tail);
    CountOfThreeParts(head, middle, tail);
  }

  /** When head and tail hold a newline each, a cut file shows the first k and the last m lines of the body, whole,
      where k and m are the newlines in the head and in the tail. */
  lemma CutShowsWholeLines(body: Bytes, maxBytes: nat)
    requires maxBytes < |body| && 2 <= maxBytes
    requires NEWLINE in HeadOf(body, maxBytes / 2) && NEWLINE in TailOf(body, maxBytes / 2)
    ensures ShowsLines(body, CappedText(body, maxBytes).head, CappedText(body, maxBytes).tail,
                       Count(HeadOf(body, maxBytes / 2), NEWLINE), Count(TailOf(body, maxBytes / 2), NEWLINE))
  {
    CutKeepsBothEnds(body, maxBytes / 2);
    var half := maxBytes / 2;
    LinesOfThreeParts(HeadOf(body, half), body[half..|body| - half], TailOf(body, half));
  }

  /** The note counts the bytes missing from the buffers only: the partial lines dropped at both cuts come on top. */
  lemma NoteCountsTheBuffers(body: Bytes, maxBytes: nat)
    requires maxBytes < |body|
    ensures var r := CappedText(body, maxBytes);
      |r.head| + r.omitted + |r.tail| == |body| <==>
      NEWLINE !in HeadOf(body, maxBytes / 2) && NEWLINE !in TailOf(body, maxBytes / 2)
  {
    var half := maxBytes / 2;
    var head, tail := HeadOf(body, half), TailOf(body, half);
    var h := BeforeLastNewline(head);
    assert NEWLINE in head ==> |h + [NEWLINE]| <= |head|;
  }

  // ---------------------------------------------------------------- the fetch cache

  type Path = string

  /** The cache and the requests sent so far. */
  datatype Store = Store(cache: map<Path, Capped>, requests: seq<Path>)

  /** One call of `text` or, if `keepsFailures`, of `job_file`, which remembers a failed request as an empty file. */
  datatype Call = Call(path: Path, keepsFailures: bool, reply: Option<Capped>)

  function Served(s: Store, c: Call): Store {
    if c.path in s.cache then s
    else
      var text := if c.reply.None? && c.keepsFailures then Some(Whole([])) else c.reply;
      Store(if text.Some? then s.cache[c.path := text.value] else s.cache, s.requests + [c.path])
  }

  function ServedAll(s: Store, calls: seq<Call>): Store {
    if calls == [] then s else Served(ServedAll(s, calls[..|calls| - 1]), calls[|calls| - 1])
  }

  function CallsFor(calls: seq<Call>, path: Path): nat {
    if calls == [] then 0
    else CallsFor(calls[..|calls| - 1], path) + if calls[|calls| - 1].path == path then 1 else 0
  }

  /** The call leaves the path in the cache, if it was not there already. */
  predicate Keeps(c: Call, path: Path) {
    c.path == path && (c.reply.Some? || c.keepsFailures)
  }

  /** A cached text never changes and is never requested again, whoever asks for it and whatever the server answers. */
  lemma {:induction false} FetchedOnce(s: Store, calls: seq<Call>, path: Path)
    requires path in s.cache
    ensures var s' := ServedAll(s, calls);
      path in s'.cache && s'.cache[path] == s.cache[path] && Count(s'.requests, path) == Count(s.requests, path)
  {
    if calls != [] {
      var n := |calls| - 1;
      FetchedOnce(s, calls[..n], path);
      CountConcat(ServedAll(s, calls[..n]).requests, [calls[n].path], path);
    }
  }

  /** As long as every call for it fails and none keeps the failure, each of them requests the path again. */
  lemma {:induction false} AskedAgain(s: Store, calls: seq<Call>, path: Path)
    requires path !in s.cache && forall c | c in calls :: !Keeps(c, path)
    ensures var s' := ServedAll(s, calls);
      path !in s'.cache && Count(s'.requests, path) == Count(s.requests, path) + CallsFor(calls, path)
  {
    if calls != [] {
      var n := |calls| - 1;
      assert calls[n] in calls && forall c | c in calls[..n] :: c in calls;
      AskedAgain(s, calls[..n], path);
      CountConcat(ServedAll(s, calls[..n]).requests, [calls[n].path], path);
    }
  }

  lemma {:induction false} ServedInTwo(s: Store, calls: seq<Call>, i: nat)
    requires i <= |calls|
    ensures ServedAll(s, calls) == ServedAll(ServedAll(s, calls[..i]), calls[i..])
    decreases |calls|
  {
    var n := |calls| - 1;
    if i < |calls| {
      ServedInTwo(s, calls[..n], i);
      assert calls[..n][..i] == calls[..i] && calls[..n][i..] == calls[i..][..n - i];
    } else {
      assert calls[..i] == calls;
    }
  }

  /** The first call that keeps the path decides: its text is what every later call gets, and it is the last to
      request it. */
  lemma FirstKeeperDecides(s: Store, calls: seq<Call>, path: Path, i: nat)
    requires path !in s.cache && i < |calls| && Keeps(calls[i], path)
    requires forall k | 0 <= k < i :: !Keeps(calls[k], path)
    ensures var s' := ServedAll(s, calls);
      && path in s'.cache && s'.cache[path] == (if calls[i].reply.Some? then calls[i].reply.value else Whole([]))
      && Count(s'.requests, path) == Count(s.requests, path) + CallsFor(calls[..i], path) + 1
  {
    AskedAgain(s, calls[..i], path);
    var before, after := ServedAll(s, calls[..i]), ServedAll(s, calls[..i + 1]);
    assert calls[..i + 1][..i] == calls[..i];
    CountConcat(before.requests, [path], path);
    ServedInTwo(s, calls, i + 1);
    FetchedOnce(after, calls[i + 1..], path);
  }

  lemma {:induction false} NoCallsFor(calls: seq<Call>, path: Path)
    requires forall c | c in calls :: c.path != path
    ensures CallsFor(calls, path) == 0
  {
    if calls != [] {
      NoCallsFor(calls[..|calls| - 1], path);
    }
  }

  /** A path that is first asked for as a job file is requested once, by that call, whatever the server answers. */
  lemma JobFilesOnce(s: Store, calls: seq<Call>, path: Path, i: nat)
    requires path !in s.cache && i < |calls| && calls[i].path == path && calls[i].keepsFailures
    requires forall k | 0 <= k < i :: calls[k].path != path
    ensures Count(ServedAll(s, calls).requests, path) == Count(s.requests, path) + 1
  {
    FirstKeeperDecides(s, calls, path, i);
    NoCallsFor(calls[..i], path);
  }

  class OpenQA {
    var cache: map<Path, Capped>
    ghost var requests: seq<Path>

    ghost function State(): Store
      reads this
    {
      Store(cache, requests)
    }

    constructor ()
      ensures State() == Store(map[], [])
    {
      cache, requests := map[], [];
    }

    /** `text`: None stands for the `AnalyzerError`. */
    method Text(path: Path) returns (r: Option<Capped>, ghost reply: Option<Capped>)
      modifies this
      ensures State() == Served(old(State()), Call(path, false, reply))
      ensures r == if path in cache then Some(cache[path]) else None
    {
      reply := None;
      if path !in cache {
        var fetched: Option<Capped> := *;
        reply, requests := fetched, requests + [path];
        if !fetched.Some? {
          return None, reply;
        }
        cache := cache[path := fetched.value];
      }
      return Some(cache[path]), reply;
    }

    /** `job_file`: the chunks of the response, or None for a failed request. */
    method JobFile(path: Path, response: Option<seq<Bytes>>, maxBytes: nat) returns (r: Capped)
      modifies this
      ensures State() == Served(old(State()), Call(path, true,
                if response.Some? then Some(CappedText(Concat(response.value), maxBytes)) else None))
      ensures path in cache && r == cache[path]
    {
      if path !in cache {
        requests := requests + [path];
        var text := Whole([]);
        if response.Some? {
          ghost var held;
          text, held := CappedStream(response.value, maxBytes);
        }
        cache := cache[path := text];
      }
      return cache[path];
    }
  }
}
