/** The host-to-last-reboot map that all host threads share in one JSON file.

    `record_reboot` is a read-modify-write under a process-wide lock: read the file, stamp the time, truncate and
    fill a fixed-name temporary file, rename it over the file, release. Every one of these is a step of its own
    here, any number of threads interleave at will, and each file operation may fail on its own. */
module RebootMap {
  import opened PyText

  type Host = string
  type Tid = nat

  /** A JSON value of the map: a number (Python counts booleans as 0 and 1) or anything else. */
  datatype Value = Num(seconds: real) | Other

  type Times = map<Host, Value>

  /** A file: missing, not the text of a JSON object (half written or corrupt), or a complete map. */
  datatype Content = Absent | Torn | Whole(times: Times)

  /** What `read_reboot_state` makes of a file that it could read, or that is missing. */
  function Parsed(c: Content): Times {
    match c
    case Whole(m) => m
    case _ => map[]
  }

  /** How one `record_reboot` call ended: its map replaced the file (`ok`: the read before it did not fail), or a
      write failed and the call gave up. */
  datatype Entry = Saved(tid: Tid, host: Host, time: real, ok: bool) | Dropped(tid: Tid, host: Host)

  /** The map after one call, done alone. */
  function Apply(m: Times, e: Entry): Times {
    match e
    case Saved(_, host, time, ok) => (if ok then m else map[])[host := Num(time)]
    case Dropped(_, _) => m
  }

  /** The map after a list of calls, done one after the other. */
  function Fold(m: Times, done: seq<Entry>): Times {
    if done == [] then m else Apply(Fold(m, done[..|done| - 1]), done[|done| - 1])
  }

  /** The hosts of the calls of one thread, in order. */
  function CallsOf(done: seq<Entry>, t: Tid): seq<Host> {
    if done == [] then []
    else CallsOf(done[..|done| - 1], t) + (if done[|done| - 1].tid == t then [done[|done| - 1].host] else [])
  }

  /** Where a thread is inside `record_reboot`. */
  datatype Pc =
    | Idle
    | Holding
    | HasRead(base: Times, ok: bool)
    | Stamped(next: Times, time: real, ok: bool)
    | TmpOpen(next: Times, time: real, ok: bool)
    | TmpFull(next: Times, time: real, ok: bool)
    | Releasing

  datatype Thread = Thread(pc: Pc, todo: seq<Host>)

  datatype State = State(
    file: Content, tmp: Content, holder: Option<Tid>, now: real, threads: seq<Thread>, done: seq<Entry>)

  datatype Action = Tick(to: real) | Acquire | Read(ok: bool) | Stamp | OpenTmp(ok: bool) | WriteTmp(ok: bool)
                  | Replace(ok: bool) | Release

  datatype Label = Label(tid: Tid, action: Action)

  predicate Enabled(s: State, l: Label) {
    if l.action.Tick? then s.now <= l.action.to else
    && l.tid < |s.threads|
    && var th := s.threads[l.tid];
       match l.action
       case Acquire => th.pc.Idle? && th.todo != [] && s.holder.None?
       case Read(_) => th.pc.Holding?
       case Stamp => th.pc.HasRead? && th.todo != []
       case OpenTmp(_) => th.pc.Stamped? && th.todo != []
       case WriteTmp(_) => th.pc.TmpOpen? && th.todo != []
       case Replace(_) => th.pc.TmpFull? && th.todo != []
       case Release => th.pc.Releasing? && th.todo != []
  }

  function At(s: State, t: Tid, pc: Pc): State
    requires t < |s.threads|
  {
    s.(threads := s.threads[t := s.threads[t].(pc := pc)])
  }

  /** A failed write: the call is over, the lock is still held. */
  function GivenUp(s: State, t: Tid): State
    requires t < |s.threads| && s.threads[t].todo != []
  {
    At(s, t, Releasing).(done := s.done + [Dropped(t, s.threads[t].todo[0])])
  }

  function Do(s: State, l: Label): State
    requires Enabled(s, l)
  {
    if l.action.Tick? then s.(now := l.action.to) else
    var t, th := l.tid, s.threads[l.tid];
    match l.action
    case Acquire => At(s, t, Holding).(holder := Some(t))
    case Read(ok) => At(s, t, HasRead(if ok then Parsed(s.file) else map[], ok))
    case Stamp => At(s, t, Stamped(th.pc.base[th.todo[0] := Num(s.now)], s.now, th.pc.ok))
    case OpenTmp(ok) =>
      if ok then At(s, t, TmpOpen(th.pc.next, th.pc.time, th.pc.ok)).(tmp := Torn) else GivenUp(s, t)
    case WriteTmp(ok) =>
      if ok then At(s, t, TmpFull(th.pc.next, th.pc.time, th.pc.ok)).(tmp := Whole(th.pc.next)) else GivenUp(s, t)
    case Replace(ok) =>
      if ok then
        At(s, t, Releasing).(file := s.tmp, tmp := Absent,
                             done := s.done + [Saved(t, th.todo[0], th.pc.time, th.pc.ok)])
      else GivenUp(s, t)
    case Release => s.(holder := None, threads := s.threads[t := Thread(Idle, th.todo[1..])])
  }

  /** `w` is an interleaving that takes `s` to `s'`. */
  ghost predicate Runs(s: State, w: seq<Label>, s': State)
    decreases w
  {
    if w == [] then s == s' else Enabled(s, w[0]) && Runs(Do(s, w[0]), w[1..], s')
  }

  /** Each thread is about to make the calls of its program; no thread is inside one. */
  function Start(file: Content, tmp: Content, now: real, program: seq<seq<Host>>): State {
    State(file, tmp, None, now, seq(|program|, t requires 0 <= t < |program| => Thread(Idle, program[t])), [])
  }

  // ---------------------------------------------------------------- the invariant

  ghost predicate Exclusive(s: State) {
    forall t | 0 <= t < |s.threads| :: !s.threads[t].pc.Idle? <==> s.holder == Some(t)
  }

  /** The map a thread inside a call is about to write, seen from the map that is in the file now. */
  ghost predicate InFlight(s: State, t: Tid)
    requires t < |s.threads|
  {
    var th := s.threads[t];
    && (!th.pc.Idle? ==> th.todo != [])
    && match th.pc
       case HasRead(base, ok) => base == if ok then Parsed(s.file) else map[]
       case Stamped(next, time, ok) => next == Apply(Parsed(s.file), Saved(t, th.todo[0], time, ok))
       case TmpOpen(next, time, ok) => next == Apply(Parsed(s.file), Saved(t, th.todo[0], time, ok))
       case TmpFull(next, time, ok) =>
         s.tmp == Whole(next) && next == Apply(Parsed(s.file), Saved(t, th.todo[0], time, ok))
       case _ => true
  }

  ghost predicate DoneInOrder(done: seq<Entry>, now: real) {
    && (forall i, j | 0 <= i <= j < |done| :: done[i].Saved? && done[j].Saved? ==> done[i].time <= done[j].time)
    && forall i | 0 <= i < |done| :: done[i].Saved? ==> done[i].time <= now
  }

  /** The time that a thread is about to write is not before any that is written, and not in the future. */
  ghost predicate StampInOrder(pc: Pc, done: seq<Entry>, now: real) {
    pc.Stamped? || pc.TmpOpen? || pc.TmpFull? ==>
      pc.time <= now && forall i | 0 <= i < |done| :: done[i].Saved? ==> done[i].time <= pc.time
  }

  ghost predicate Ordered(s: State) {
    DoneInOrder(s.done, s.now) && forall t | 0 <= t < |s.threads| :: StampInOrder(s.threads[t].pc, s.done, s.now)
  }

  lemma OneMoreInOrder(done: seq<Entry>, e: Entry, pc: Pc, now: real)
    requires DoneInOrder(done, now) && StampInOrder(pc, done, now)
    requires e.Saved? ==> pc.TmpFull? && e.time == pc.time
    ensures DoneInOrder(done + [e], now)
  {
  }

  /** The calls of a thread that are not over yet. */
  function Pending(th: Thread): seq<Host> {
    if th.pc.Releasing? && th.todo != [] then th.todo[1..] else th.todo
  }

  ghost predicate MapIsFold(s: State, init: Content) {
    && Parsed(s.file) == Fold(Parsed(init), s.done)
    && (s.file == init || s.file.Whole?)
  }

  ghost predicate FollowsProgram(s: State, program: seq<seq<Host>>) {
    && |s.threads| == |program|
    && forall t | 0 <= t < |program| :: CallsOf(s.done, t) + Pending(s.threads[t]) == program[t]
  }

  ghost predicate Inv(s: State, init: Content, program: seq<seq<Host>>) {
    && Exclusive(s)
    && (forall t | 0 <= t < |s.threads| :: InFlight(s, t))
    && Ordered(s)
    && MapIsFold(s, init)
    && FollowsProgram(s, program)
  }

  lemma StartInv(file: Content, tmp: Content, now: real, program: seq<seq<Host>>)
    ensures Inv(Start(file, tmp, now, program), file, program)
  {
  }

  lemma FoldSnoc(m: Times, done: seq<Entry>, e: Entry)
    ensures Fold(m, done + [e]) == Apply(Fold(m, done), e)
    ensures forall t :: CallsOf(done + [e], t) == CallsOf(done, t) + if e.tid == t then [e.host] else []
  {
    assert (done + [e])[..|done|] == done;
  }

  lemma StepKeepsExclusive(s: State, l: Label)
    requires Exclusive(s) && Enabled(s, l)
    ensures Exclusive(Do(s, l))
  {
  }

  lemma StepKeepsInFlight(s: State, l: Label, t: Tid)
    requires Exclusive(s) && (forall u | 0 <= u < |s.threads| :: InFlight(s, u)) && Enabled(s, l)
    requires t < |s.threads|
    ensures InFlight(Do(s, l), t)
  {
    assert InFlight(s, t);
    if !l.action.Tick? {
      assert InFlight(s, l.tid);
      assert t != l.tid && !l.action.Acquire? ==> s.threads[t].pc.Idle?;
    }
  }

  lemma StepKeepsOrdered(s: State, l: Label)
    requires Exclusive(s) && Ordered(s) && Enabled(s, l)
    ensures Ordered(Do(s, l))
  {
    if !l.action.Tick? {
      var th, s' := s.threads[l.tid], Do(s, l);
      assert forall t | 0 <= t < |s.threads| && t != l.tid && !l.action.Acquire? :: s.threads[t].pc.Idle?;
      assert StampInOrder(th.pc, s.done, s.now);
      if s'.done != s.done {
        OneMoreInOrder(s.done, s'.done[|s.done|], th.pc, s.now);
      }
    }
  }

  /** A step ends no call and leaves the file alone, or it ends one and changes the map as that call does. */
  ghost predicate AppliesEntry(s: State, s': State) {
    || (s'.done == s.done && s'.file == s.file)
    || exists e :: s'.done == s.done + [e] && Parsed(s'.file) == Apply(Parsed(s.file), e)
                   && (s'.file == s.file || s'.file.Whole?)
  }

  lemma StepAppliesEntry(s: State, l: Label)
    requires Enabled(s, l) && (l.action.Tick? || InFlight(s, l.tid))
    ensures AppliesEntry(s, Do(s, l))
  {
    if !l.action.Tick? {
      var t, th, s' := l.tid, s.threads[l.tid], Do(s, l);
      match l.action {
        case Replace(ok) =>
          var e := if ok then Saved(t, th.todo[0], th.pc.time, th.pc.ok) else Dropped(t, th.todo[0]);
          assert s'.done == s.done + [e] && Parsed(s'.file) == Apply(Parsed(s.file), e);
        case OpenTmp(ok) =>
          assert !ok ==> s'.done == s.done + [Dropped(t, th.todo[0])];
        case WriteTmp(ok) =>
          assert !ok ==> s'.done == s.done + [Dropped(t, th.todo[0])];
        case _ =>
      }
    }
  }

  lemma StepKeepsMap(s: State, l: Label, init: Content)
    requires MapIsFold(s, init) && Enabled(s, l) && (l.action.Tick? || InFlight(s, l.tid))
    ensures MapIsFold(Do(s, l), init)
  {
    var s' := Do(s, l);
    StepAppliesEntry(s, l);
    if s'.done != s.done {
      var e :| s'.done == s.done + [e] && Parsed(s'.file) == Apply(Parsed(s.file), e);
      FoldSnoc(Parsed(init), s.done, e);
    }
  }

  lemma StepKeepsOtherCalls(s: State, l: Label, t: Tid)
    requires Enabled(s, l) && t < |s.threads| && (l.action.Tick? || t != l.tid)
    ensures t < |Do(s, l).threads| && Do(s, l).threads[t] == s.threads[t]
    ensures CallsOf(Do(s, l).done, t) == CallsOf(s.done, t)
  {
    var s' := Do(s, l);
    if s'.done != s.done {
      assert s'.done[..|s.done|] == s.done && s'.done[|s.done|].tid == l.tid;
    }
  }

  lemma StepKeepsProgram(s: State, l: Label, program: seq<seq<Host>>)
    requires FollowsProgram(s, program) && Enabled(s, l)
    ensures FollowsProgram(Do(s, l), program)
  {
    forall t | 0 <= t < |program| ensures CallsOf(Do(s, l).done, t) + Pending(Do(s, l).threads[t]) == program[t] {
      if t == l.tid && !l.action.Tick? {
        StepKeepsOwnCalls(s, l, program[t]);
      } else {
        StepKeepsOtherCalls(s, l, t);
      }
    }
  }

  lemma StepKeepsOwnCalls(s: State, l: Label, calls: seq<Host>)
    requires Enabled(s, l) && !l.action.Tick?
    requires CallsOf(s.done, l.tid) + Pending(s.threads[l.tid]) == calls
    ensures CallsOf(Do(s, l).done, l.tid) + Pending(Do(s, l).threads[l.tid]) == calls
  {
    var s', th := Do(s, l), s.threads[l.tid];
    if s'.done != s.done {
      OneMoreCall(CallsOf(s.done, l.tid), th.todo);
      assert s'.done[..|s.done|] == s.done;
    }
  }

  lemma OneMoreCall(calls: seq<Host>, todo: seq<Host>)
    requires todo != []
    ensures calls + todo == (calls + [todo[0]]) + todo[1..]
  {
  }

  lemma StepKeepsInv(s: State, l: Label, init: Content, program: seq<seq<Host>>)
    requires Inv(s, init, program) && Enabled(s, l)
    ensures Inv(Do(s, l), init, program)
  {
    StepKeepsExclusive(s, l);
    StepKeepsOrdered(s, l);
    StepKeepsMap(s, l, init);
    StepKeepsProgram(s, l, program);
    forall t | 0 <= t < |s.threads| ensures InFlight(Do(s, l), t) {
      StepKeepsInFlight(s, l, t);
    }
  }

  lemma {:induction false} RunKeepsInv(s: State, w: seq<Label>, s': State, init: Content, program: seq<seq<Host>>)
    requires Inv(s, init, program) && Runs(s, w, s')
    ensures Inv(s', init, program)
    decreases w
  {
    if w != [] {
      StepKeepsInv(s, w[0], init, program);
      RunKeepsInv(Do(s, w[0]), w[1..], s', init, program);
    }
  }

  // ---------------------------------------------------------------- what the map holds

  /** The newest call for its host that reached the file. */
  ghost predicate Newest(done: seq<Entry>, i: nat) {
    && i < |done| && done[i].Saved?
    && forall j | i < j < |done| :: done[j].Saved? ==> done[j].host != done[i].host
  }

  /** After call `i` no call replaced the file whose own read had failed. */
  ghost predicate ReadsWorkAfter(done: seq<Entry>, i: int) {
    forall j | i < j < |done| && 0 <= j :: done[j].Saved? ==> done[j].ok
  }

  predicate Holds(m: Times, h: Host, v: Value) {
    h in m && m[h] == v
  }

  lemma {:induction false} NewestSurvives(m: Times, done: seq<Entry>, i: nat)
    requires Newest(done, i)
    ensures Holds(Fold(m, done), done[i].host, Num(done[i].time)) <==> ReadsWorkAfter(done, i)
    ensures done[i].host in Fold(m, done) ==> ReadsWorkAfter(done, i)
  {
    var n := |done| - 1;
    if i < n {
      NewestSurvives(m, done[..n], i);
      assert ReadsWorkAfter(done, i) <==> ReadsWorkAfter(done[..n], i) && (done[n].Saved? ==> done[n].ok);
    }
  }

  lemma {:induction false} OthersUntouched(m: Times, done: seq<Entry>, h: Host)
    requires forall j | 0 <= j < |done| :: done[j].Saved? ==> done[j].host != h
    ensures h !in m ==> h !in Fold(m, done)
    ensures h in m ==> (Holds(Fold(m, done), h, m[h]) <==> ReadsWorkAfter(done, -1))
    ensures h in Fold(m, done) ==> ReadsWorkAfter(done, -1)
  {
    var n := |done| - 1;
    if done != [] {
      OthersUntouched(m, done[..n], h);
      assert ReadsWorkAfter(done, -1) <==> ReadsWorkAfter(done[..n], -1) && (done[n].Saved? ==> done[n].ok);
    }
  }

  /** In every interleaving, with any failures: the newest recorded time of a host is in the map if and only if no
      later call of another host replaced the file after a failed read of its own, it is the largest recorded for
      that host, and an entry nobody recorded survives under the same condition. */
  lemma MapInEveryInterleaving(
    file: Content, tmp: Content, now: real, program: seq<seq<Host>>, w: seq<Label>, s: State)
    requires Runs(Start(file, tmp, now, program), w, s)
    ensures forall i: nat | Newest(s.done, i) ::
      && (Holds(Parsed(s.file), s.done[i].host, Num(s.done[i].time)) <==> ReadsWorkAfter(s.done, i))
      && (forall j | 0 <= j < |s.done| :: s.done[j].Saved? && s.done[j].host == s.done[i].host ==>
            s.done[j].time <= s.done[i].time)
    ensures forall h | (forall j | 0 <= j < |s.done| :: s.done[j].Saved? ==> s.done[j].host != h) ::
      && (h !in Parsed(file) ==> h !in Parsed(s.file))
      && (h in Parsed(file) ==> (Holds(Parsed(s.file), h, Parsed(file)[h]) <==> ReadsWorkAfter(s.done, -1)))
    ensures FollowsProgram(s, program)
  {
    StartInv(file, tmp, now, program);
    RunKeepsInv(Start(file, tmp, now, program), w, s, file, program);
    forall i: nat | Newest(s.done, i)
      ensures Holds(Parsed(s.file), s.done[i].host, Num(s.done[i].time)) <==> ReadsWorkAfter(s.done, i)
    {
      NewestSurvives(Parsed(file), s.done, i);
    }
    forall h | (forall j | 0 <= j < |s.done| :: s.done[j].Saved? ==> s.done[j].host != h)
      ensures h !in Parsed(file) ==> h !in Parsed(s.file)
      ensures h in Parsed(file) ==> (Holds(Parsed(s.file), h, Parsed(file)[h]) <==> ReadsWorkAfter(s.done, -1))
    {
      OthersUntouched(Parsed(file), s.done, h);
    }
  }

  // ---------------------------------------------------------------- when every file operation succeeds

  predicate Succeeds(a: Action) {
    match a
    case Read(ok) => ok
    case OpenTmp(ok) => ok
    case WriteTmp(ok) => ok
    case Replace(ok) => ok
    case _ => true
  }

  predicate Clean(s: State) {
    && (forall e | e in s.done :: e.Saved? && e.ok)
    && (forall th | th in s.threads ::
          th.pc.HasRead? || th.pc.Stamped? || th.pc.TmpOpen? || th.pc.TmpFull? ==> th.pc.ok)
  }

  lemma {:induction false} CleanRun(s: State, w: seq<Label>, s': State)
    requires Clean(s) && Runs(s, w, s') && forall l | l in w :: Succeeds(l.action)
    ensures Clean(s')
    decreases w
  {
    if w != [] {
      var l := w[0];
      assert Succeeds(l.action);
      if !l.action.Tick? {
        assert s.threads[l.tid] in s.threads;
      }
      CleanRun(Do(s, l), w[1..], s');
    }
  }

  ghost predicate Recorded(done: seq<Entry>, h: Host) {
    exists j | 0 <= j < |done| :: done[j].host == h
  }

  lemma {:induction false} NewestOf(done: seq<Entry>, h: Host) returns (i: nat)
    requires (forall e | e in done :: e.Saved?) && Recorded(done, h)
    ensures Newest(done, i) && done[i].host == h
  {
    var n := |done| - 1;
    if done[n].host == h {
      i := n;
    } else {
      var j :| 0 <= j < |done| && done[j].host == h;
      assert done[..n][j].host == h;
      i := NewestOf(done[..n], h);
    }
  }

  lemma {:induction false} CallsAreEntries(done: seq<Entry>, t: Tid, h: Host)
    requires h in CallsOf(done, t)
    ensures Recorded(done, h)
  {
    var n := |done| - 1;
    if done[n].tid == t && done[n].host == h {
    } else {
      CallsAreEntries(done[..n], t, h);
      var j :| 0 <= j < |done[..n]| && done[..n][j].host == h;
      assert done[j].host == h;
    }
  }

  /** No lost update: when every operation succeeds and every thread is through with its calls, the map holds the
      last time recorded for each host in the programs, which is the largest, and is otherwise what it was. */
  lemma NoLostUpdate(file: Content, tmp: Content, now: real, program: seq<seq<Host>>, w: seq<Label>, s: State)
    requires Runs(Start(file, tmp, now, program), w, s)
    requires forall l | l in w :: Succeeds(l.action)
    requires forall th | th in s.threads :: th.pc.Idle? && th.todo == []
    ensures forall t, h | 0 <= t < |program| && h in program[t] :: Recorded(s.done, h)
    ensures forall h | Recorded(s.done, h) :: exists i: nat ::
      && Newest(s.done, i) && s.done[i].host == h
      && Holds(Parsed(s.file), h, Num(s.done[i].time))
      && forall j | 0 <= j < |s.done| && s.done[j].host == h :: s.done[j].Saved? && s.done[j].time <= s.done[i].time
    ensures forall h | !Recorded(s.done, h) ::
      && (h in Parsed(s.file) <==> h in Parsed(file))
      && (h in Parsed(file) ==> Parsed(s.file)[h] == Parsed(file)[h])
  {
    MapInEveryInterleaving(file, tmp, now, program, w, s);
    CleanRun(Start(file, tmp, now, program), w, s);
    forall t, h | 0 <= t < |program| && h in program[t] ensures Recorded(s.done, h) {
      assert s.threads[t] in s.threads;
      assert CallsOf(s.done, t) == program[t];
      CallsAreEntries(s.done, t, h);
    }
    forall h | Recorded(s.done, h)
      ensures exists i: nat ::
        && Newest(s.done, i) && s.done[i].host == h
        && Holds(Parsed(s.file), h, Num(s.done[i].time))
        && forall j | 0 <= j < |s.done| && s.done[j].host == h :: s.done[j].Saved? && s.done[j].time <= s.done[i].time
    {
      var i := NewestOf(s.done, h);
      assert Newest(s.done, i) && ReadsWorkAfter(s.done, i);
    }
    assert ReadsWorkAfter(s.done, -1);
  }

  // ---------------------------------------------------------------- the two files

  predicate TouchesFiles(a: Action) {
    a.OpenTmp? || a.WriteTmp? || a.Replace?
  }

  /** Only the thread that holds the lock ever opens, fills or renames the temporary file, whether or not that works;
      and nothing else changes either file. */
  lemma OnlyTheHolderWrites(s: State, l: Label)
    requires Exclusive(s) && Enabled(s, l)
    ensures TouchesFiles(l.action) ==> s.holder == Some(l.tid)
    ensures Do(s, l).tmp != s.tmp || Do(s, l).file != s.file ==> TouchesFiles(l.action)
  {
    assert TouchesFiles(l.action) ==> !s.threads[l.tid].pc.Idle?;
  }

  lemma {:induction false} DoneGrows(s: State, w: seq<Label>, s': State)
    requires Runs(s, w, s')
    ensures s.done <= s'.done
    decreases w
  {
    if w != [] {
      DoneGrows(Do(s, w[0]), w[1..], s');
    }
  }

  /** A reader takes no lock: whichever moment between the start `s0` and the end `s2` of its call it opens the file
      at, it reads the whole map after some number of finished calls, at least those finished when it started and at
      most those finished when it ended. */
  lemma ReaderSeesASnapshot(
    file: Content, tmp: Content, now: real, program: seq<seq<Host>>,
    w0: seq<Label>, s0: State, w1: seq<Label>, s1: State, w2: seq<Label>, s2: State)
    requires Runs(Start(file, tmp, now, program), w0, s0) && Runs(s0, w1, s1) && Runs(s1, w2, s2)
    ensures s1.file == file || s1.file.Whole?
    ensures exists k | |s0.done| <= k <= |s2.done| :: Parsed(s1.file) == Fold(Parsed(file), s2.done[..k])
  {
    StartInv(file, tmp, now, program);
    RunKeepsInv(Start(file, tmp, now, program), w0, s0, file, program);
    RunKeepsInv(s0, w1, s1, file, program);
    DoneGrows(s0, w1, s1);
    DoneGrows(s1, w2, s2);
    assert s2.done[..|s1.done|] == s1.done;
  }

  // ---------------------------------------------------------------- the lock always comes free

  function StepsLeft(pc: Pc): nat {
    match pc
    case Idle => 0
    case Holding => 6
    case HasRead(_, _) => 5
    case Stamped(_, _, _) => 4
    case TmpOpen(_, _, _) => 3
    case TmpFull(_, _, _) => 2
    case Releasing => 1
  }

  /** The holder can always take a step, whatever its file operations return, and each one brings it closer to the
      release; nobody else can move it back. */
  lemma LockComesFree(s: State, t: Tid, l: Label)
    requires Exclusive(s) && (forall u | 0 <= u < |s.threads| :: InFlight(s, u))
    requires s.holder == Some(t) && t < |s.threads|
    ensures exists a: Action :: !a.Tick? && Enabled(s, Label(t, a))
    ensures Enabled(s, l) ==>
      var s' := Do(s, l);
      && StepsLeft(s'.threads[t].pc) <= StepsLeft(s.threads[t].pc)
      && (!l.action.Tick? ==> l.tid == t && StepsLeft(s'.threads[t].pc) < StepsLeft(s.threads[t].pc))
      && (StepsLeft(s'.threads[t].pc) == 0 <==> s'.holder == None)
  {
    assert InFlight(s, t);
    var a := match s.threads[t].pc
      case Holding => Read(true)
      case HasRead(_, _) => Stamp
      case Stamped(_, _, _) => OpenTmp(true)
      case TmpOpen(_, _, _) => WriteTmp(true)
      case TmpFull(_, _, _) => Replace(true)
      case _ => Release;
    assert Enabled(s, Label(t, a));
  }

  // ---------------------------------------------------------------- a failed read does lose updates

  /** One whole call of thread `t`, its read failing unless `ok`. */
  function CallLabels(t: Tid, ok: bool): seq<Label> {
    [Label(t, Acquire), Label(t, Read(ok)), Label(t, Stamp), Label(t, OpenTmp(true)), Label(t, WriteTmp(true)),
     Label(t, Replace(true)), Label(t, Release)]
  }

  /** A call can run with every file operation succeeding. */
  lemma CallsCanSucceed(t: Tid)
    ensures forall l | l in CallLabels(t, true) :: Succeeds(l.action)
  {
  }

  lemma CallRuns(s: State, t: Tid, ok: bool) returns (s': State)
    requires s.holder.None? && t < |s.threads| && s.threads[t].pc.Idle? && s.threads[t].todo != []
    ensures Runs(s, CallLabels(t, ok), s')
    ensures s'.holder.None? && s'.now == s.now && s'.threads == s.threads[t := Thread(Idle, s.threads[t].todo[1..])]
    ensures s'.done == s.done + [Saved(t, s.threads[t].todo[0], s.now, ok)]
    ensures s'.file == Whole(Apply(Parsed(s.file), Saved(t, s.threads[t].todo[0], s.now, ok)))
  {
    var w := CallLabels(t, ok);
    var s1 := Do(s, w[0]);
    var s2 := Do(s1, w[1]);
    var s3 := Do(s2, w[2]);
    var s4 := Do(s3, w[3]);
    var s5 := Do(s4, w[4]);
    var s6 := Do(s5, w[5]);
    s' := Do(s6, w[6]);
    assert Runs(s6, w[6..], s') && w[5..][1..] == w[6..];
    assert Runs(s5, w[5..], s') && w[4..][1..] == w[5..];
    assert Runs(s4, w[4..], s') && w[3..][1..] == w[4..];
    assert Runs(s3, w[3..], s') && w[2..][1..] == w[3..];
    assert Runs(s2, w[2..], s') && w[1..][1..] == w[2..];
    assert Runs(s1, w[1..], s');
  }

  lemma {:induction false} RunsConcat(s: State, w: seq<Label>, m: State, w': seq<Label>, s': State)
    requires Runs(s, w, m) && Runs(m, w', s')
    ensures Runs(s, w + w', s')
    decreases w
  {
    if w == [] {
      assert w + w' == w';
    } else {
      RunsConcat(Do(s, w[0]), w[1..], m, w', s');
      assert (w + w')[1..] == w[1..] + w';
    }
  }

  lemma FirstCallRuns(s: State) returns (s': State)
    requires s == Start(Absent, Absent, 0.0, [["a"], ["b"]])
    ensures Runs(s, CallLabels(0, true), s') && s'.holder.None? && s'.now == 0.0
    ensures s'.done == [Saved(0, "a", 0.0, true)]
    ensures |s'.threads| == 2 && s'.threads[0] == Thread(Idle, []) && s'.threads[1] == Thread(Idle, ["b"])
  {
    s' := CallRuns(s, 0, true);
  }

  lemma SecondCallRuns(s: State) returns (s': State)
    requires s.holder.None? && s.now == 0.0 && s.done == [Saved(0, "a", 0.0, true)]
    requires |s.threads| == 2 && s.threads[0] == Thread(Idle, []) && s.threads[1] == Thread(Idle, ["b"])
    ensures Runs(s, CallLabels(1, false), s') && s'.done == [Saved(0, "a", 0.0, true), Saved(1, "b", 0.0, false)]
    ensures "a" !in Parsed(s'.file) && forall th | th in s'.threads :: th == Thread(Idle, [])
  {
    s' := CallRuns(s, 1, false);
  }

  /** Two hosts record one reboot each, every write succeeds, and still the first one's time is gone at the end:
      the second call could not read the map and started from an empty one. */
  lemma FailedReadLosesAnUpdate() returns (w: seq<Label>, s: State)
    ensures Runs(Start(Absent, Absent, 0.0, [["a"], ["b"]]), w, s)
    ensures forall th | th in s.threads :: th.pc.Idle? && th.todo == []
    ensures s.done == [Saved(0, "a", 0.0, true), Saved(1, "b", 0.0, false)]
    ensures "a" !in Parsed(s.file)
  {
    var s0 := Start(Absent, Absent, 0.0, [["a"], ["b"]]);
    var s1 := FirstCallRuns(s0);
    s := SecondCallRuns(s1);
    w := CallLabels(0, true) + CallLabels(1, false);
    RunsConcat(s0, CallLabels(0, true), s1, CallLabels(1, false), s);
  }
}
