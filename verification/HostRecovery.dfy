/** One host thread of the reaper: detect, wait, record, reboot, reset over the HMC, retrigger. Commands, HMC replies,
    file operations and the clock are nondeterministic; `trace` records what the thread does, and every effect is
    logged through `Log`, which demands that the rules of `HostEvents` allow it. */
module HostRecovery {
  import opened PyText
  import opened Ordered
  import opened RebootMap
  import opened HmcDialogue
  import opened HostEvents

  const HMC_JOB_TIMEOUT := 900.0
  const HMC_STATUS_TIMEOUT := 900.0
  datatype Finding = Zombies(stuck: set<string>) | LibvirtUnhealthy | Down

  datatype Worker = Worker(workerClass: string, job: Option<int>)

  /** The jobs of the workers whose class mentions the host's short name. */
  function JobsOn(workers: seq<Worker>, host: Host): set<int> {
    set w | w in workers && Contains(w.workerClass, Split(host, '.')[0]) && w.job.Some? && w.job.value != 0 ::
      w.job.value
  }

  /** Which file operations of a `record_reboot` call work. */
  datatype Disk = Disk(canRead: bool, canOpen: bool, canWrite: bool, canRename: bool) {
    predicate Writes() {
      canOpen && canWrite && canRename
    }
  }

  function Deadline(m: Times, host: Host, now: real, cfg: Config): real {
    (if host in m && m[host].Num? then m[host].seconds else now) + (cfg.maxWaitMinutes * 60) as real
  }

  /** What a `record_reboot` call at time `at` comes to. */
  function EntryAt(t: Tid, host: Host, at: real, disk: Disk, cfg: Config): Entry {
    if cfg.hasStateFile && disk.Writes() then Saved(t, host, at, disk.canRead) else Dropped(t, host)
  }

  /** The reboot map after the records of one thread, the `k`-th of which met `disks(k)`. */
  ghost function AllRecorded(m: Times, t: Tid, host: Host, records: seq<real>, disks: nat -> Disk, cfg: Config): Times {
    if records == [] then m
    else
      var n := |records| - 1;
      Apply(AllRecorded(m, t, host, records[..n], disks, cfg), EntryAt(t, host, records[n], disks(n), cfg))
  }

  /** The newest record that is written counts: the next run's wait for the host goes by its time. */
  lemma {:induction false} NewestRecordCounts(
    m: Times, t: Tid, host: Host, records: seq<real>, disks: nat -> Disk, cfg: Config, k: nat, now: real)
    requires k < |records| && cfg.hasStateFile && disks(k).Writes()
    requires forall j: nat | k < j < |records| :: !disks(j).Writes()
    ensures Deadline(AllRecorded(m, t, host, records, disks, cfg), host, now, cfg) ==
            records[k] + (cfg.maxWaitMinutes * 60) as real
  {
    var n := |records| - 1;
    if k < n {
      NewestRecordCounts(m, t, host, records[..n], disks, cfg, k, now);
    }
  }

  /** Records that are not written change nothing, and the others change no other host's time if the map could be
      read. */
  lemma {:induction false} RecordsKeepOthers(
    m: Times, t: Tid, host: Host, records: seq<real>, disks: nat -> Disk, cfg: Config)
    ensures !cfg.hasStateFile || (forall k: nat | k < |records| :: !disks(k).Writes()) ==>
      AllRecorded(m, t, host, records, disks, cfg) == m
    ensures (forall k: nat | k < |records| && disks(k).Writes() :: disks(k).canRead) ==>
      AllRecorded(m, t, host, records, disks, cfg) - {host} == m - {host}
  {
    if records != [] {
      RecordsKeepOthers(m, t, host, records[..|records| - 1], disks, cfg);
    }
  }

  function Max(a: real, b: real): real {
    if a < b then b else a
  }

  /** Nothing but the stage of the partition changed, and the host was sent away. */
  predicate SameButStage(m: Watch, m': Watch) {
    m' == m.(sight := Gone(m.sight), stage := m'.stage)
  }

  /** Nothing was done but over the HMC, where the partition was reset once or left alone. */
  predicate HmcUsed(m: Watch, m': Watch) {
    && m' == m.(sight := m'.sight, announced := m'.announced, stage := m'.stage, resets := m'.resets)
    && (m.sight.answered.None? ==> m'.sight.answered.None?)
    && if m'.stage.Untouched? then m' == m else m'.resets == 1
  }

  /** The host is silent: a probe failed at or after `until`, or it answered one since it was watched as `m` and was
      lost again. */
  predicate JudgedDown(m: Watch, m': Watch, until: real) {
    && m'.sight.answered.None? && !m'.sight.silence.NotSilent?
    && (|| m.sight.answers < m'.sight.answers
        || (m'.sight.silence.ProbeFailed? && until <= m'.sight.silence.at))
  }

  /** The host was diagnosed by the checks that the watch goes by. */
  ghost predicate Diagnosed(t: seq<Event>, seen: seq<Event>, finding: Option<Finding>, m: Watch) {
    EndsWith(t, seen) && Diagnosis(seen, Ok(finding)) && m.sight.silence.NotSilent? && m.sight.checks == seen
  }

  lemma SessionOver(m: Watch, m': Watch, host: Host, at: real, cfg: Config)
    requires !m.session && m.sight.answered.None? && m.stage.Untouched? && HmcUsed(m.(session := true), m')
    ensures var m'' := After(m', HmcLogoff(host, at));
      && HmcUsed(m, m'') && m''.stage == m'.stage
      && (m''.stage.Operating? ==> MayProbe(m'', at, cfg))
  {
    assert 0.0 <= Pause(After(m', HmcLogoff(host, at)), cfg);
  }

  /** Recorded and rebooted over SSH at time `at`. */
  function Rebooted(m: Watch, at: real): Watch {
    m.(sight := Gone(m.sight).(looked := Some(at)), announced := false, rebootedAt := Some(at),
       records := m.records + [at])
  }

  /** A host that was just rebooted is ready to be waited for. */
  lemma RebootedIsReady(m: Watch, at: real, now: real, cfg: Config)
    requires SameDeeds(FRESH, m) && at <= now <= at + RebootTime(cfg)
    ensures var m' := Rebooted(m, at);
      && !m'.session && m'.resets == 0 && m'.stage.Untouched? && m'.restarts == [] && m'.sight.answered.None?
      && MayProbe(m', now, cfg) && m'.rebootedAt == Some(at) && m'.records == [at]
  {
  }

  lemma FirstRecord(m: Times, t: Tid, host: Host, at: real, disks: nat -> Disk, cfg: Config)
    ensures AllRecorded(m, t, host, [], disks, cfg) == m
    ensures AllRecorded(m, t, host, [at], disks, cfg) == Apply(m, EntryAt(t, host, at, disks(0), cfg))
  {
    assert [at][..0] == [];
  }

  /** At most one more record, made at some time from `start` to `end`. */
  predicate RecordsOnce(before: seq<real>, after: seq<real>, start: real, end: real) {
    after == before || (after != [] && after[..|after| - 1] == before && start <= after[|after| - 1] <= end)
  }

  /** The reboot map after it. */
  ghost function RecordedNext(
    m: Times, t: Tid, host: Host, before: seq<real>, after: seq<real>, disk: Disk, cfg: Config): Times
  {
    if after == before || after == [] then m else Apply(m, EntryAt(t, host, after[|after| - 1], disk, cfg))
  }

  predicate MadeWithin(records: seq<real>, start: real, end: real) {
    forall at | at in records :: start <= at <= end
  }

  lemma OneMoreRecord(
    m: Times, t: Tid, host: Host, before: seq<real>, after: seq<real>, disks: nat -> Disk, cfg: Config,
    start: real, mid: real, end: real)
    requires MadeWithin(before, start, mid) && start <= mid <= end && RecordsOnce(before, after, mid, end)
    ensures MadeWithin(after, start, end)
    ensures AllRecorded(m, t, host, after, disks, cfg) ==
            RecordedNext(AllRecorded(m, t, host, before, disks, cfg), t, host, before, after, disks(|before|), cfg)
    ensures before <= after
  {
    if after != before {
      TwoParts(after, |after| - 1);
    }
  }

  /** Nothing was done, and the host did not become one that answers probes. */
  predicate OnlyLooked(m: Watch, m': Watch) {
    m' == m.(sight := m'.sight) && Known(m.sight, m'.sight)
  }

  predicate Known(s: Sight, s': Sight) {
    s'.probes == s.probes && s'.answers == s.answers && (s'.answered == s.answered || s'.answered.None?)
  }

  lemma LookedTwice(m: Watch, m': Watch, m'': Watch)
    requires OnlyLooked(m, m') && OnlyLooked(m', m'')
    ensures OnlyLooked(m, m'')
  {
  }

  lemma StillSameDeeds(m: Watch, m': Watch, m'': Watch)
    requires OnlyLooked(m, m') && SameDeeds(m', m'')
    ensures SameDeeds(m, m'')
  {
  }

  /** The host could not be reached just now. */
  predicate LostSight(m: Watch, now: real) {
    m.sight.answered.None? && m.sight.silence.Unreached? && m.sight.looked == Some(now) && m.sight.checks == []
  }

  /** How a host with `jobs` may end: back, with all of them restarted; or given up after all was tried, with none. */
  ghost predicate Ended(jobs: seq<int>, answers: seq<Answer>, m: Watch, cfg: Config) {
    if m.sight.answered.Some? then m.restarts == jobs
    else m.restarts == [] && GaveUp(m, cfg) && AllTried(answers, m, cfg)
  }

  /** The fallback was used as far as the HMC let it, if there is one. */
  ghost predicate AllTried(answers: seq<Answer>, m: Watch, cfg: Config) {
    cfg.hmcFallback && cfg.hmcReady ==> HmcTried(answers, m.stage)
  }

  /** What `find_critical` must have seen, for each way it ends. */
  predicate Diagnosis(seen: seq<Event>, r: Res<Option<Finding>>) {
    seen != [] &&
    var last := seen[|seen| - 1];
    match r
    case Ok(Some(Zombies(stuck))) => Persistent(seen, stuck) && stuck != {}
    case Ok(Some(Down)) => false
    case Ok(other) =>
      Persistent(seen[..|seen| - 1], {}) && last.Virsh? && !Unanswered(last) && (other.None? <==> Healthy(last))
    case Unreachable => Unanswered(last)
    case Failed => false
    case Crashed => last.Scan? && last.result.OsError?
  }

  lemma CriticalIsIll(checks: seq<Event>, finding: Finding)
    requires Diagnosis(checks, Ok(Some(finding)))
    ensures Ill(checks)
  {
  }

  /** What one scan says. */
  predicate ScanSays(e: Event, r: Res<set<string>>) {
    && e.Scan?
    && match r
       case Ok(lines) => Scanned(e) && lines == e.lines
       case Unreachable => Unanswered(e)
       case Failed => false
       case Crashed => e.result.OsError?
  }

  /** What the scans of one diagnosis say. */
  predicate ScansSay(seen: seq<Event>, r: Res<set<string>>) {
    && seen != []
    && match r
       case Ok(stuck) => Persistent(seen, stuck)
       case _ => ScanSays(seen[|seen| - 1], r)
  }

  /** What the health check says. */
  predicate HealthSays(e: Event, r: Res<bool>) {
    && e.Virsh?
    && match r
       case Ok(healthy) => !Unanswered(e) && (healthy <==> Healthy(e))
       case Unreachable => Unanswered(e)
       case _ => false
  }

  lemma OneScanSays(e: Event, r: Res<set<string>>)
    requires ScanSays(e, r) && (r.Ok? ==> r.value == {})
    ensures ScansSay([e], r)
  {
  }

  lemma TwoScansSay(a: Event, b: Event, first: set<string>, r: Res<set<string>>)
    requires ScanSays(a, Ok(first)) && first != {} && ScanSays(b, r) && a.at + 10.0 <= b.at
    ensures ScansSay([a] + [b], if r.Ok? then Ok(first * r.value) else r)
  {
  }

  lemma DiagnosisByHealth(seen: seq<Event>, last: Event, healthy: Res<bool>)
    requires ScansSay(seen, Ok({})) && HealthSays(last, healthy)
    ensures Diagnosis(seen + [last],
              if !healthy.Ok? then Unreachable else Ok(if healthy.value then None else Some(LibvirtUnhealthy)))
  {
    assert (seen + [last])[..|seen|] == seen;
  }

  /** The time that `n` pauses take together. */
  ghost function Pauses(n: nat, pause: real): real {
    if n == 0 then 0.0 else Pauses(n - 1, pause) + pause
  }

  lemma {:induction false} PausesGrow(n: nat, m: nat, pause: real)
    requires n <= m && 0.0 <= pause
    ensures Pauses(n, pause) <= Pauses(m, pause)
  {
    if n < m {
      PausesGrow(n, m - 1, pause);
    }
  }

  lemma {:induction false} PausesAdd(n: nat, m: nat, pause: real)
    ensures Pauses(n + m, pause) == Pauses(n, pause) + Pauses(m, pause)
  {
    if m > 0 {
      PausesAdd(n, m - 1, pause);
    }
  }

  lemma {:induction false} PausesLonger(n: nat, m: nat, pause: real, longer: real)
    requires n <= m && 0.0 <= pause <= longer
    ensures Pauses(n, pause) <= Pauses(m, longer)
    ensures 0.0 <= Pauses(m, longer)
  {
    if 0 < m {
      PausesLonger(if n == m then n - 1 else n, m - 1, pause, longer);
    }
  }

  lemma {:induction false} PausesMultiply(n: nat, pause: real)
    ensures Pauses(n, pause) == n as real * pause
  {
    if n > 0 {
      PausesMultiply(n - 1, pause);
      assert n as real * pause == (n - 1) as real * pause + pause;
    }
  }

  /** A wait that began at `start`, watched as `m` and with `n` events before it, goes on at time `now`: nothing
      happened yet, or all probes failed and a pause is over. */
  ghost predicate Polling(
    m: Watch, t: seq<Event>, n: nat, host: Host, start: real, until: real, now: real, cfg: Config)
  {
    var pause := cfg.sshCheckInterval as real;
    && n <= |t| && !m.session && MayProbe(Watched(t, host), now, cfg)
    && start <= now <= Max(start, until + pause) && Pauses(|t| - n, pause) <= now - start
    && if |t| == n then Watched(t, host) == m && now == start
       else
         var last := t[|t| - 1];
         && Polls(t, n, host, start, cfg) && !Answered(last) && now == last.at + pause
         && Watched(t, host) == m.(sight := Waited(m.sight, false, last.at, |t| - n))
         && Pauses(|t| - n - 1, pause) < until - start
  }

  /** The wait is over at time `now`: polled until the first success, given up only at or after `until`, and back in
      time after a bounded number of probes. */
  ghost predicate WaitOver(
    m: Watch, t: seq<Event>, n: nat, host: Host, start: real, until: real, now: real, up: bool, cfg: Config)
  {
    && Polls(t, n, host, start, cfg)
    && Watched(t, host) == m.(sight := Waited(m.sight, up, now, |t| - n))
    && (|t| == n + 1 || Pauses(|t| - n - 2, cfg.sshCheckInterval as real) < until - start)
    && start <= now <= Max(start, until + cfg.sshCheckInterval as real) + ProbeTime(cfg)
    && (!up ==> until <= now)
  }

  lemma NextProbe(
    m: Watch, t: seq<Event>, e: Event, n: nat, host: Host, start: real, until: real, now: real, cfg: Config)
    requires Polling(m, t, n, host, start, until, now, cfg)
    requires e.Probe? && e.host == host && now <= e.at <= now + ProbeTime(cfg)
    ensures Answered(e) || until <= e.at ==> WaitOver(m, t + [e], n, host, start, until, e.at, Answered(e), cfg)
    ensures !Answered(e) && e.at < until ==>
      Polling(m, t + [e], n, host, start, until, e.at + cfg.sshCheckInterval as real, cfg)
  {
    WatchedSnoc(t, e, host);
    PollsSnoc(t, e, n, host, start, now, cfg);
    OneMoreProbe(m, Watched(t, host), t, e, n, host);
  }

  /** Probes that failed count together with one more. */
  lemma OneMoreProbe(m: Watch, before: Watch, t: seq<Event>, e: Event, n: nat, host: Host)
    requires n <= |t| && e.Probe?
    requires if |t| == n then before == m else before == m.(sight := Waited(m.sight, false, t[|t| - 1].at, |t| - n))
    ensures After(before, e) == m.(sight := Waited(m.sight, Answered(e), e.at, |t| + 1 - n))
  {
  }

  /** No more was slept than ten seconds for each of `n` answers. */
  ghost predicate Rested(from: real, to: real, n: nat) {
    to <= from + Pauses(n, 10.0)
  }

  lemma RestedPolls(from: real, to: real, n: nat, pause: real)
    requires 0 < n && 0.0 <= pause <= 10.0 && to == from + Pauses(n - 1, pause)
    ensures Rested(from, to, n)
  {
    PausesLonger(n - 1, n, pause, 10.0);
  }

  lemma RestedTwice(from: real, mid: real, to: real, n: nat, m: nat)
    requires Rested(from, mid, n) && Rested(mid, to, m)
    ensures Rested(from, to, n + m)
  {
    PausesAdd(n, m, 10.0);
  }

  lemma RestedMore(from: real, to: real, n: nat, m: nat)
    requires Rested(from, to, n) && n <= m
    ensures Rested(from, to, m)
  {
    PausesGrow(n, m, 10.0);
  }

  class HostRun {
    const host: Host
    const cfg: Config
    var clock: real
    var file: Content
    var tmp: Content
    ghost var trace: seq<Event>
    ghost var watch: Watch  // over the trace
    ghost var slept: real   // in pauses, all together
    ghost var fault: bool   // an exception was raised that nothing handles

    constructor (host: Host, cfg: Config, now: real, file: Content, tmp: Content)
      ensures this.host == host && this.cfg == cfg && clock == now && this.file == file && this.tmp == tmp
      ensures Valid() && trace == [] && !fault
    {
      this.host, this.cfg, clock, this.file, this.tmp := host, cfg, now, file, tmp;
      trace, watch, slept, fault := [], FRESH, 0.0, false;
    }

    ghost predicate Valid()
      reads this`trace, this`watch
    {
      Safe(trace, host, cfg) && watch == Watched(trace, host)
    }

    ghost function Seen(): Watch
      reads this`watch
    {
      watch
    }

    ghost method Log(e: Event)
      requires Valid() && e.host == host && e.at == clock && Allowed(Seen(), e, cfg)
      modifies this`trace, this`watch
      ensures Valid() && trace == old(trace) + [e] && Seen() == After(old(Seen()), e)
    {
      SafeSnoc(trace, e, host, cfg);
      WatchedSnoc(trace, e, host);
      trace, watch := trace + [e], After(watch, e);
    }

    /** Time passes, at most `limit` seconds of it. */
    method Spend(limit: real)
      requires 0.0 <= limit
      modifies this`clock
      ensures old(clock) <= clock <= old(clock) + limit
    {
      var d: real := *;
      if 0.0 <= d <= limit {
        clock := clock + d;
      }
    }

    method Sleep(seconds: real)
      requires 0.0 <= seconds
      modifies this`clock, this`slept
      ensures clock == old(clock) + seconds && slept == old(slept) + seconds
    {
      clock, slept := clock + seconds, slept + seconds;
    }

    method Run(timeout: nat) returns (r: Command)
      modifies this`clock
      ensures old(clock) <= clock <= old(clock) + timeout as real
    {
      Spend(timeout as real);
      r := *;
    }

    /** `run_cmd`, which handles a time-out and an exit code but not a command that cannot be started. */
    method RunCommand(timeout: nat) returns (r: Command)
      modifies this`clock, this`fault
      ensures old(clock) <= clock <= old(clock) + timeout as real
      ensures fault == (old(fault) || r.OsError?)
    {
      r := Run(timeout);
      fault := fault || r.OsError?;
    }

    /** `ssh HOST true`. */
    method RunProbe() returns (r: Command)
      requires Valid() && !Seen().session && MayProbe(Seen(), clock, cfg)
      modifies this`clock, this`trace, this`watch
      ensures old(clock) <= clock <= old(clock) + ProbeTime(cfg)
      ensures Valid() && trace == old(trace) + [Probe(host, clock, r)]
      ensures Seen() == After(old(Seen()), Probe(host, clock, r))
    {
      r := Run(cfg.sshTimeout + 5);
      Log(Probe(host, clock, r));
    }

    /** The zombie detector on the host, with the lines of its output. */
    method RunDetector() returns (r: Command, lines: set<string>)
      requires Valid() && Seen().records == []
      modifies this`clock, this`trace, this`watch, this`fault
      ensures fault == (old(fault) || r.OsError?)
      ensures old(clock) <= clock <= old(clock) + (cfg.sshTimeout + 15) as real
      ensures Valid() && trace == old(trace) + [Scan(host, clock, r, lines)]
      ensures Seen() == After(old(Seen()), Scan(host, clock, r, lines))
    {
      r := RunCommand(cfg.sshTimeout + 15);
      lines := *;
      Log(Scan(host, clock, r, lines));
    }

    /** `virsh list` on the host, and whether its output holds `error:`. */
    method RunVirsh() returns (r: Command, errorShown: bool)
      requires Valid() && Seen().records == []
      modifies this`clock, this`trace, this`watch
      ensures old(clock) <= clock <= old(clock) + 15.0
      ensures Valid() && trace == old(trace) + [Virsh(host, clock, r, errorShown)]
      ensures Seen() == After(old(Seen()), Virsh(host, clock, r, errorShown))
    {
      r := Run(15);
      errorShown := *;
      Log(Virsh(host, clock, r, errorShown));
    }

    // -------------------------------------------------------------- the reboot map

    /** `read_reboot_state`: a file that cannot be read counts as an empty map. */
    method ReadRebootState(readable: bool) returns (m: Times)
      ensures m == if cfg.hasStateFile && readable then Parsed(file) else map[]
    {
      m := if cfg.hasStateFile && readable then Parsed(file) else map[];
    }

    /** The writes of `record_reboot`: the temporary file, then the file; they end with the first failure. */
    method ReplaceFile(next: Times, disk: Disk) returns (ok: bool)
      modifies this`file, this`tmp
      ensures ok == disk.Writes()
      ensures file == if ok then Content.Whole(next) else old(file)
      ensures tmp == if ok then Absent else if !disk.canOpen then old(tmp)
                     else if disk.canWrite then Content.Whole(next) else Torn
    {
      ok := false;
      if disk.canOpen {
        tmp := Torn;
        if disk.canWrite {
          tmp := Content.Whole(next);
          if disk.canRename {
            file, tmp, ok := tmp, Absent, true;
          }
        }
      }
    }

    /** The part of `record_reboot` that works on the files, if there is a state file. */
    method SaveReboot(ghost t: Tid, disk: Disk) returns (ghost e: Entry)
      modifies this`file, this`tmp
      ensures e == EntryAt(t, host, clock, disk, cfg)
      ensures Parsed(file) == Apply(Parsed(old(file)), e)
      ensures if e.Saved? then file.Whole? && tmp == Absent else file == old(file)
    {
      e := Dropped(t, host);
      if cfg.hasStateFile {
        var state := ReadRebootState(disk.canRead);
        var saved := ReplaceFile(state[host := Num(clock)], disk);
        if saved {
          e := Saved(t, host, clock, disk.canRead);
        }
      }
    }

    /** `record_reboot` of one thread on its own: the same change to the map as one call in `RebootMap`. */
    method RecordReboot(ghost t: Tid, disk: Disk) returns (ghost e: Entry)
      requires Valid() && !cfg.dryRun
      modifies this`file, this`tmp, this`trace, this`watch
      ensures Valid() && Seen() == old(Seen()).(announced := true, records := old(Seen()).records + [clock])
      ensures e == EntryAt(t, host, clock, disk, cfg)
      ensures Parsed(file) == Apply(Parsed(old(file)), e)
      ensures if e.Saved? then file.Whole? && tmp == Absent else file == old(file)
    {
      Log(Record(host, clock));
      e := SaveReboot(t, disk);
    }

    method BootDeadline() returns (deadline: real)
      ensures deadline == clock + BootWait(cfg)
    {
      deadline := clock + (cfg.bootWaitMinutes * 60) as real;
    }

    method RebootDeadline(readable: bool) returns (deadline: real)
      ensures deadline == Deadline(if cfg.hasStateFile && readable then Parsed(file) else map[], host, clock, cfg)
    {
      var m := ReadRebootState(readable);
      var base := if host in m && m[host].Num? then m[host].seconds else clock;
      deadline := base + (cfg.maxWaitMinutes * 60) as real;
    }

    // -------------------------------------------------------------- waiting over SSH

    /** One probe of a wait that began with `n` events, watched as `m`, at time `start`. */
    method ProbeAgain(ghost m: Watch, ghost n: nat, ghost start: real, ghost until: real) returns (up: bool)
      requires Valid() && Polling(m, trace, n, host, start, until, clock, cfg)
      modifies this`clock, this`trace, this`watch
      ensures Valid() && old(trace) < trace
      ensures if up || until <= clock then WaitOver(m, trace, n, host, start, until, clock, up, cfg)
              else Polling(m, trace, n, host, start, until, clock + cfg.sshCheckInterval as real, cfg)
      ensures old(clock) <= clock
    {
      var r := RunProbe();
      NextProbe(m, old(trace), Probe(host, clock, r), n, host, start, until, old(clock), cfg);
      up := r == Exit(RET_SUCCESS);
    }

    /** `wait_for_host`: polls until the first success, gives up only at or after the deadline, and is back in time
        after a bounded number of probes. */
    method WaitForHost(deadline: Option<real>) returns (up: bool, ghost limit: real)
      requires Valid() && !Seen().session && MayProbe(Seen(), clock, cfg)
      modifies this`clock, this`trace, this`watch, this`slept
      ensures limit == if deadline.Some? then deadline.value else old(clock) + (cfg.maxWaitMinutes * 60) as real
      ensures Valid() && old(trace) < trace
      ensures WaitOver(old(Seen()), trace, |old(trace)|, host, old(clock), limit, clock, up, cfg)
    {
      var until := if deadline.Some? then deadline.value else clock + (cfg.maxWaitMinutes * 60) as real;
      limit := until;
      ghost var m, n, start := Seen(), |trace|, clock;
      while true
        invariant Valid() && old(trace) <= trace && Polling(m, trace, n, host, start, until, clock, cfg)
        decreases until - clock
      {
        up := ProbeAgain(m, n, start, until);
        if up {
          return;
        }
        if until <= clock {
          break;
        }
        Sleep(cfg.sshCheckInterval as real);
      }
    }

    // -------------------------------------------------------------- detection

    /** `get_zombie_candidates`. */
    method ZombieCandidates() returns (r: Res<set<string>>, ghost seen: Event)
      requires Valid() && Seen().records == []
      modifies this`clock, this`trace, this`watch, this`fault
      ensures fault == (old(fault) || r.Crashed?)
      ensures Valid() && trace == old(trace) + [seen] && old(clock) <= clock && OnlyLooked(old(Seen()), Seen())
      ensures seen.at == clock && ScanSays(seen, r)
      ensures r.Ok? ==> Seen().sight.silence.NotSilent? && Seen().sight.checks == old(Seen()).sight.checks + [seen]
      ensures r.Unreachable? ==> LostSight(Seen(), clock)
      ensures clock <= old(clock) + RebootTime(cfg)
    {
      var c, lines := RunDetector();
      seen := Scan(host, clock, c, lines);
      if c.OsError? {
        return Crashed, seen;
      }
      if c.TimedOut? || c.code == SSH_ERR_CONNECT {
        return Unreachable, seen;
      }
      return Ok(lines), seen;
    }

    /** `check_libvirt_health`: a check that cannot be run or takes too long counts as unhealthy. */
    method LibvirtHealth() returns (r: Res<bool>, ghost seen: Event)
      requires Valid() && Seen().records == []
      modifies this`clock, this`trace, this`watch
      ensures Valid() && trace == old(trace) + [seen] && old(clock) <= clock && OnlyLooked(old(Seen()), Seen())
      ensures HealthSays(seen, r)
      ensures r.Ok? && old(Seen().sight.silence.NotSilent?) ==> Seen().sight.silence.NotSilent?
      ensures r.Ok? ==> Seen().sight.checks == old(Seen()).sight.checks + [seen]
      ensures r.Unreachable? ==> LostSight(Seen(), clock)
      ensures clock <= old(clock) + 15.0
    {
      var c, errorShown := RunVirsh();
      seen := Virsh(host, clock, c, errorShown);
      if c == Exit(SSH_ERR_CONNECT) {
        return Unreachable, seen;
      }
      return Ok(c == Exit(RET_SUCCESS) && !errorShown), seen;
    }

    /** The first half of `find_critical`: a process counts only if a second scan finds it again, unchanged. */
    method PersistentZombies() returns (r: Res<set<string>>, ghost seen: seq<Event>)
      requires Valid() && Seen().records == [] && Seen().sight.checks == []
      modifies this`clock, this`trace, this`watch, this`fault, this`slept
      ensures fault == (old(fault) || r.Crashed?)
      ensures Valid() && trace == old(trace) + seen && old(clock) <= clock && OnlyLooked(old(Seen()), Seen())
      ensures ScansSay(seen, r)
      ensures r.Ok? ==> Seen().sight.silence.NotSilent? && Seen().sight.checks == seen
      ensures r.Unreachable? ==> LostSight(Seen(), clock)
      ensures clock <= old(clock) + 10.0 + 2.0 * RebootTime(cfg)
    {
      ghost var scan;
      r, scan := ZombieCandidates();
      seen := [scan];
      if r.Ok? && r.value != {} {
        var first := r.value;
        Sleep(10.0);
        ghost var again;
        r, again := ZombieCandidates();
        Associative(old(trace), [scan], [again]);
        seen := [scan] + [again];
        TwoScansSay(scan, again, first, r);
        if r.Ok? {
          r := Ok(first * r.value);
        }
      } else {
        OneScanSays(scan, r);
      }
    }

    method FindCritical() returns (r: Res<Option<Finding>>, ghost seen: seq<Event>)
      requires Valid() && Seen().records == [] && Seen().sight.checks == []
      modifies this`clock, this`trace, this`watch, this`fault, this`slept
      ensures fault == (old(fault) || r.Crashed?)
      ensures Valid() && trace == old(trace) + seen && old(clock) <= clock && OnlyLooked(old(Seen()), Seen())
      ensures Diagnosis(seen, r)
      ensures r.Ok? ==> Seen().sight.silence.NotSilent? && Seen().sight.checks == seen
      ensures r.Unreachable? ==> LostSight(Seen(), clock)
      ensures clock <= old(clock) + 25.0 + 2.0 * RebootTime(cfg)
    {
      var stuck;
      stuck, seen := PersistentZombies();
      if !stuck.Ok? {
        return stuck.PropagateFailure(), seen;
      }
      if stuck.value != {} {
        return Ok(Some(Zombies(stuck.value))), seen;
      }
      var healthy;
      ghost var last;
      ghost var before := Seen();
      healthy, last := LibvirtHealth();
      LookedTwice(old(Seen()), before, Seen());
      Associative(old(trace), seen, [last]);
      DiagnosisByHealth(seen, last, healthy);
      seen := seen + [last];
      if !healthy.Ok? {
        return Unreachable, seen;
      }
      return Ok(if healthy.value then None else Some(LibvirtUnhealthy)), seen;
    }

    /** The end of `check_host`, for a host that could not be reached. */
    method CheckAgain(readable: bool) returns (r: Res<Option<Finding>>, ghost seen: seq<Event>)
      requires Valid() && Seen().records == [] && !Seen().session && MayProbe(Seen(), clock, cfg)
      modifies this`clock, this`trace, this`watch, this`fault, this`slept
      ensures fault == (old(fault) || r.Crashed?)
      ensures Valid() && old(clock) <= clock && SameDeeds(old(Seen()), Seen())
      ensures match r
        case Ok(finding) => Diagnosed(trace, seen, finding, Seen())
        case Unreachable =>
          var until := Deadline(if cfg.hasStateFile && readable then Parsed(file) else map[], host, old(clock), cfg);
          && JudgedDown(old(Seen()), Seen(), until)
          && (Seen().sight.silence.ProbeFailed? ==>
               clock <= Max(old(clock), until + cfg.sshCheckInterval as real) + ProbeTime(cfg))
        case Failed => false
        case Crashed => true
    {
      seen := [];
      var deadline := RebootDeadline(readable);
      var up;
      ghost var limit;
      up, limit := WaitForHost(Some(deadline));
      if !up {
        return Unreachable, seen;
      }
      r, seen := FindCritical();
    }

    /** `check_host`: the critical finding, if any, and whether the host is down. A host counts as down before its
        reboot deadline only if it answered a probe and was lost again. */
    method CheckHost(readable: bool) returns (r: Res<(Option<Finding>, bool)>, ghost seen: seq<Event>)
      requires Valid() && Seen().records == [] && !Seen().session && Seen().sight.checks == []
      modifies this`clock, this`trace, this`watch, this`fault, this`slept
      ensures fault == (old(fault) || r.Crashed?)
      ensures Valid() && old(clock) <= clock && SameDeeds(old(Seen()), Seen())
      ensures r.Ok? || r.Crashed?
      ensures r.Ok? ==> (r.value.1 <==> r.value.0 == Some(Down))
      ensures r.Ok? && !r.value.1 ==> Diagnosed(trace, seen, r.value.0, Seen())
      ensures r.Ok? && r.value.1 ==>
        JudgedDown(old(Seen()), Seen(), Deadline(
          if cfg.hasStateFile && readable then Parsed(file) else map[], host, old(clock), cfg))
    {
      var finding;
      finding, seen := FindCritical();
      if finding.Unreachable? {
        ghost var before := Seen();
        finding, seen := CheckAgain(readable);
        StillSameDeeds(old(Seen()), before, Seen());
      }
      match finding {
        case Ok(critical) =>
          return Ok((critical, false)), seen;
        case Unreachable =>
          return Ok((Some(Down), true)), seen;
        case _ =>
          return Crashed, seen;
      }
    }

    // -------------------------------------------------------------- jobs

    /** `get_running_jobs`: each job of a worker of this host once, in some order. No worker list: no jobs. */
    method RunningJobs(listing: Res<seq<Worker>>) returns (r: Res<seq<int>>)
      modifies this`clock, this`fault
      ensures old(clock) <= clock <= old(clock) + cfg.cmdTimeout as real
      ensures fault == (old(fault) || r.Crashed?) && (r.Crashed? <==> listing.Crashed?) && (r.Ok? || r.Crashed?)
      ensures r.Ok? ==> Distinct(r.value)
      ensures r.Ok? ==> forall j :: j in r.value <==> listing.Ok? && j in JobsOn(listing.value, host)
    {
      Spend(cfg.cmdTimeout as real);
      if listing.Crashed? {
        fault := true;
        return Crashed;
      }
      if !listing.Ok? {
        return Ok([]);
      }
      var workers := listing.value;
      var found: set<int> := {};
      for i := 0 to |workers|
        invariant found == JobsOn(workers[..i], host)
      {
        var w := workers[i];
        assert workers[..i + 1] == workers[..i] + [w];
        if Contains(w.workerClass, Split(host, '.')[0]) && w.job.Some? && w.job.value != 0 {
          found := found + {w.job.value};
        }
      }
      assert workers[..|workers|] == workers;
      var jobs := [];
      var rest := found;
      while rest != {}
        invariant Distinct(jobs)
        invariant rest !! set j | j in jobs
        invariant found == rest + set j | j in jobs
        decreases rest
      {
        var j :| j in rest;
        jobs, rest := jobs + [j], rest - {j};
      }
      return Ok(jobs);
    }

    // -------------------------------------------------------------- rebooting and recovery

    method IssueReboot(ghost t: Tid, disk: Disk) returns (r: Res<()>)
      requires Valid() && Seen().rebootedAt.None? && Seen().resets == 0 && Seen().sight.silence.NotSilent?
      requires Ill(Seen().sight.checks)
      modifies this
      ensures fault == (old(fault) || r.Crashed?)
      ensures Valid()
      ensures r.Ok? || r.Crashed?
      ensures cfg.dryRun ==> r.Ok? && Seen() == old(Seen()) && file == old(file)
      ensures !cfg.dryRun ==>
        && Seen().rebootedAt.Some? && old(clock) <= Seen().rebootedAt.value <= clock
        && clock <= Seen().rebootedAt.value + RebootTime(cfg)
        && Seen() == Rebooted(old(Seen()), Seen().rebootedAt.value)
        && Parsed(file) == Apply(Parsed(old(file)), EntryAt(t, host, Seen().rebootedAt.value, disk, cfg))
      ensures old(clock) <= clock
    {
      if cfg.dryRun {
        return Ok(());
      }
      ghost var e := RecordReboot(t, disk);
      Log(SshReboot(host, clock));
      var c := RunCommand(cfg.sshTimeout + 15);
      return if c.OsError? then Crashed else Ok(());
    }

    /** `wait_for_host(..., deadline=boot_deadline(config))`. */
    method AwaitBoot() returns (up: bool)
      requires Valid() && !Seen().session && MayProbe(Seen(), clock, cfg)
      modifies this`clock, this`trace, this`watch, this`slept
      ensures Valid()
      ensures SameDeeds(old(Seen()), Seen())
      ensures if up then Seen().sight.answered == Some(clock)
              else Seen().sight.answered.None? && Seen().sight.silence == ProbeFailed(clock)
      ensures old(trace) < trace && Polls(trace, |old(trace)|, host, old(clock), cfg)
      ensures old(clock) <= clock && (!up ==> old(clock) + BootWait(cfg) <= clock)
    {
      var deadline := BootDeadline();
      ghost var limit;
      up, limit := WaitForHost(Some(deadline));
    }

    /** `recover_host`: up exactly if the last thing that happened is a probe that the host answered. */
    method RecoverHost(waitFirst: bool, ghost t: Tid, disk: Disk) returns (r: Res<bool>, ghost answers: seq<Answer>)
      requires Valid() && !cfg.dryRun && !Seen().session && Seen().sight.answered.None?
      requires Seen().resets == 0 && Seen().stage.Untouched?
      requires if waitFirst
               then MayProbe(Seen(), clock, cfg) && (Seen().rebootedAt.Some? ==> Seen().rebootedAt.value <= clock)
               else StayedAway(Seen(), cfg)
      modifies this
      ensures fault == (old(fault) || r.Crashed?)
      ensures Valid()
      ensures r.Ok? || r.Crashed?
      ensures r.Ok? ==> (r.value <==> Seen().sight.answered.Some?) && (r.value ==> Seen().sight.answered.value == clock)
      ensures r.Ok? && r.value && Seen().resets > 0 ==> Seen().stage.Operating?
      ensures Seen().rebootedAt == old(Seen()).rebootedAt && Seen().restarts == old(Seen()).restarts
      ensures Seen().resets <= 1 && !Seen().session && (Seen().resets == 1 ==> cfg.hmcFallback)
      ensures old(clock) <= clock
      ensures waitFirst && (r == Ok(false) || Seen().resets == 1) ==> old(clock) + BootWait(cfg) <= clock
      ensures r == Ok(false) && ((waitFirst && !cfg.hmcFallback) || Seen().stage.Operating?) ==>
        Seen().sight.silence == ProbeFailed(clock)
      ensures r == Ok(false) ==> GaveUp(Seen(), cfg) && AllTried(answers, Seen(), cfg)
      ensures RecordsOnce(old(Seen()).records, Seen().records, old(clock), clock)
      ensures Parsed(file) == RecordedNext(Parsed(old(file)), t, host, old(Seen()).records, Seen().records, disk, cfg)
    {
      answers := [];
      if waitFirst {
        var up := AwaitBoot();
        if up {
          return Ok(true), answers;
        }
      }
      if !cfg.hmcFallback {
        return Ok(false), answers;
      }
      r, answers := ForceBack(t, disk);
    }

    /** The second half of `recover_host`. */
    method ForceBack(ghost t: Tid, disk: Disk) returns (r: Res<bool>, ghost answers: seq<Answer>)
      requires Valid() && !cfg.dryRun && cfg.hmcFallback && !Seen().session && Seen().sight.answered.None?
      requires Seen().resets == 0 && Seen().stage.Untouched? && StayedAway(Seen(), cfg)
      modifies this
      ensures fault == (old(fault) || r.Crashed?)
      ensures Valid()
      ensures r.Ok? || r.Crashed?
      ensures r.Ok? ==> (r.value <==> Seen().sight.answered.Some?) && (r.value ==> Seen().sight.answered.value == clock)
      ensures r.Ok? && r.value ==> Seen().stage.Operating?
      ensures Seen().rebootedAt == old(Seen()).rebootedAt && Seen().restarts == old(Seen()).restarts
      ensures Seen().resets <= 1 && !Seen().session
      ensures old(clock) <= clock
      ensures r == Ok(false) ==> GaveUp(Seen(), cfg) && AllTried(answers, Seen(), cfg)
      ensures r == Ok(false) && Seen().stage.Operating? ==> Seen().sight.silence == ProbeFailed(clock)
      ensures Seen().records == old(Seen()).records + [old(clock)]
      ensures Parsed(file) == Apply(Parsed(old(file)), EntryAt(t, host, old(clock), disk, cfg))
    {
      ghost var e := RecordReboot(t, disk);
      r, answers := HmcForceReboot();
      if r != Ok(true) {
        return;
      }
      var up := AwaitBoot();
      return Ok(up), answers;
    }

    /** `hmc_force_reboot`: true only after a completed reset, a completed load and an operating partition, within a
        session that is logged off in every case. */
    method HmcForceReboot() returns (r: Res<bool>, ghost answers: seq<Answer>)
      requires Valid() && !cfg.dryRun && cfg.hmcFallback
      requires Seen().announced && !Seen().session && Seen().sight.answered.None? && StayedAway(Seen(), cfg)
      requires Seen().resets == 0 && Seen().stage.Untouched?
      modifies this`clock, this`trace, this`watch, this`fault, this`slept
      ensures fault == (old(fault) || r.Crashed?)
      ensures Valid()
      ensures r.Ok? || r.Crashed?
      ensures old(clock) <= clock
      ensures !cfg.hmcReady ==> r == Ok(false) && Seen() == old(Seen())
      ensures r.Ok? && cfg.hmcReady ==> HmcTried(answers, Seen().stage) && (r.value <==> ForcedThrough(answers))
      ensures r.Ok? ==> (r.value <==> Seen().stage.Operating?)
      ensures Seen().stage.Operating? ==> Seen().stage.since <= clock
      ensures HmcUsed(old(Seen()), Seen())
      ensures r == Ok(true) ==> MayProbe(Seen(), clock, cfg)
      ensures Rested(old(slept), slept, |answers|)
    {
      answers := [];
      if !cfg.hmcReady {
        return Ok(false), answers;
      }
      var hmc := new HmcSession(this);
      r := hmc.Force();
      answers := hmc.answers;
    }

    method RecoverForJobs(jobs: seq<int>, hostDown: bool, ghost t: Tid, disk: Disk)
      returns (r: Res<bool>, ghost answers: seq<Answer>)
      requires Valid() && !Seen().session && Seen().resets == 0 && Seen().stage.Untouched?
      requires !cfg.dryRun ==>
        && Seen().sight.answered.None?
        && if hostDown then StayedAway(Seen(), cfg)
           else MayProbe(Seen(), clock, cfg) && (Seen().rebootedAt.Some? ==> Seen().rebootedAt.value <= clock)
      modifies this
      ensures fault == (old(fault) || r.Crashed?)
      ensures Valid()
      ensures r.Ok? || r.Crashed?
      ensures cfg.dryRun ==> r == Ok(true) && Seen() == old(Seen()) && file == old(file)
      ensures !cfg.dryRun && r.Ok? ==> (r.value <==> Seen().sight.answered.Some?)
      ensures !cfg.dryRun && r == Ok(true) ==>
        && clock == Seen().sight.answered.value + (if jobs == [] then 0.0 else StabilityDelay(cfg))
        && (Seen().resets > 0 ==> Seen().stage.Operating?)
      ensures Seen().rebootedAt == old(Seen()).rebootedAt && Seen().restarts == old(Seen()).restarts
      ensures Seen().resets <= 1 && !Seen().session
      ensures r == Ok(false) ==> GaveUp(Seen(), cfg) && AllTried(answers, Seen(), cfg)
      ensures old(clock) <= clock
      ensures r == Ok(false) && !hostDown ==> old(clock) + BootWait(cfg) <= clock
      ensures r == Ok(false) && ((!hostDown && !cfg.hmcFallback) || Seen().stage.Operating?) ==>
        Seen().sight.silence == ProbeFailed(clock)
      ensures RecordsOnce(old(Seen()).records, Seen().records, old(clock), clock)
      ensures Parsed(file) == RecordedNext(Parsed(old(file)), t, host, old(Seen()).records, Seen().records, disk, cfg)
    {
      answers := [];
      if cfg.dryRun {
        return Ok(true), answers;
      }
      r, answers := RecoverHost(!hostDown, t, disk);
      if r != Ok(true) {
        return;
      }
      if jobs != [] && 0 < cfg.stabilityDelayMinutes {
        Sleep((cfg.stabilityDelayMinutes * 60) as real);
      }
    }

    /** The loop of `trigger_actions`: the jobs in order, all of them unless a command cannot be run. */
    method RestartJobs(jobs: seq<int>) returns (r: Res<()>)
      requires Valid() && Seen().restarts == []
      requires !cfg.dryRun && jobs != [] ==> Allowed(Seen(), Restart(host, clock, jobs[0]), cfg)
      modifies this`clock, this`trace, this`watch, this`fault
      ensures fault == (old(fault) || r.Crashed?)
      ensures Valid() && (r.Ok? || r.Crashed?)
      ensures cfg.dryRun || jobs == [] ==> r.Ok? && Seen() == old(Seen())
      ensures Seen() == old(Seen()).(restarts := Seen().restarts) && Seen().restarts <= jobs
      ensures r.Ok? && !cfg.dryRun ==> Seen().restarts == jobs
      ensures old(clock) <= clock <= old(clock) + Pauses(|jobs|, cfg.cmdTimeout as real)
    {
      for i := 0 to |jobs|
        invariant Valid() && fault == old(fault)
        invariant old(clock) <= clock <= old(clock) + Pauses(i, cfg.cmdTimeout as real)
        invariant i == 0 ==> clock == old(clock)
        invariant Seen() == if cfg.dryRun then old(Seen()) else old(Seen()).(restarts := jobs[..i])
      {
        if !cfg.dryRun {
          Log(Restart(host, clock, jobs[i]));
          assert jobs[..i + 1] == jobs[..i] + [jobs[i]];
          var c := RunCommand(cfg.cmdTimeout);
          PausesGrow(i + 1, |jobs|, cfg.cmdTimeout as real);
          if c.OsError? {
            return Crashed;
          }
        }
      }
      assert jobs[..|jobs|] == jobs;
      return Ok(());
    }

    /** The end of `trigger_actions`: recovers the host if it is down or has jobs, and restarts them. */
    method RecoverAndRestart(jobs: seq<int>, hostDown: bool, ghost t: Tid, disk: Disk)
      returns (r: Res<()>, ghost answers: seq<Answer>)
      requires Valid() && !Seen().session && Seen().resets == 0 && Seen().stage.Untouched? && Seen().restarts == []
      requires !cfg.dryRun ==>
        && Seen().sight.answered.None?
        && if hostDown then StayedAway(Seen(), cfg)
           else MayProbe(Seen(), clock, cfg) && Seen().rebootedAt.Some? && Seen().rebootedAt.value <= clock
      modifies this
      ensures fault == (old(fault) || r.Crashed?)
      ensures Valid() && old(clock) <= clock
      ensures r.Ok? || r.Crashed?
      ensures cfg.dryRun ==> r.Ok? && Seen() == old(Seen()) && file == old(file)
      ensures Seen().rebootedAt == old(Seen()).rebootedAt && Seen().restarts <= jobs && !Seen().session
      ensures r.Ok? && !cfg.dryRun && (jobs != [] || hostDown) ==> Ended(jobs, answers, Seen(), cfg)
      ensures jobs == [] && !hostDown ==> r.Ok? && Seen() == old(Seen()) && clock == old(clock)
      ensures RecordsOnce(old(Seen()).records, Seen().records, old(clock), clock)
      ensures Parsed(file) == RecordedNext(Parsed(old(file)), t, host, old(Seen()).records, Seen().records, disk, cfg)
    {
      answers := [];
      if jobs != [] || hostDown {
        var up;
        up, answers := RecoverForJobs(jobs, hostDown, t, disk);
        if !up.Ok? {
          return up.PropagateFailure(), answers;
        }
        if !up.value {
          return Ok(()), answers;
        }
      }
      r := RestartJobs(jobs);
    }

    /** `trigger_actions`: a run that ends normally restarts all the jobs if the host came back, else none, and then all
        was done to bring it back. */
    method TriggerActions(jobs: seq<int>, hostDown: bool, ghost t: Tid, disks: nat -> Disk)
      returns (r: Res<()>, ghost answers: seq<Answer>)
      requires Valid()
      requires SameDeeds(FRESH, Seen())
      requires if hostDown then Seen().sight.answered.None? && !Seen().sight.silence.NotSilent?
               else Seen().sight.silence.NotSilent? && Ill(Seen().sight.checks)
      modifies this
      ensures fault == (old(fault) || r.Crashed?)
      ensures Valid() && old(clock) <= clock
      ensures r.Ok? || r.Crashed?
      ensures cfg.dryRun ==> r.Ok? && Seen() == old(Seen()) && file == old(file)
      ensures Seen().restarts <= jobs && !Seen().session
      ensures r.Ok? && !cfg.dryRun && (jobs != [] || hostDown) ==> Ended(jobs, answers, Seen(), cfg)
      ensures jobs == [] && !hostDown && !cfg.dryRun ==>
        Seen().rebootedAt.Some? && Seen() == Rebooted(old(Seen()), Seen().rebootedAt.value)
      ensures if hostDown || cfg.dryRun then Seen().rebootedAt.None?
              else Seen().rebootedAt.Some? && [Seen().rebootedAt.value] <= Seen().records
      ensures Parsed(file) == AllRecorded(Parsed(old(file)), t, host, Seen().records, disks, cfg)
      ensures MadeWithin(Seen().records, old(clock), clock)
    {
      answers := [];
      FirstRecord(Parsed(file), t, host, clock, disks, cfg);
      if !hostDown {
        r := IssueReboot(t, disks(0));
        if !cfg.dryRun {
          FirstRecord(Parsed(old(file)), t, host, Seen().rebootedAt.value, disks, cfg);
          RebootedIsReady(old(Seen()), Seen().rebootedAt.value, clock, cfg);
        }
        if !r.Ok? {
          return;
        }
      }
      ghost var before, mid := Seen().records, clock;
      r, answers := RecoverAndRestart(jobs, hostDown, t, disks(if hostDown then 0 else 1));
      OneMoreRecord(Parsed(old(file)), t, host, before, Seen().records, disks, cfg, old(clock), mid, clock);
    }

    /** `handle_host` from the start of a run. */
    method HandleHost(readable: bool, listing: Res<seq<Worker>>, ghost t: Tid, disks: nat -> Disk)
      returns (r: Res<()>, critical: Option<Finding>, jobs: seq<int>, ghost answers: seq<Answer>)
      requires Valid() && trace == []
      modifies this
      ensures fault == (old(fault) || r.Crashed?)
      ensures Valid()
      ensures r.Ok? || r.Crashed?
      ensures Distinct(jobs)
      ensures forall j :: j in jobs <==> critical.Some? && listing.Ok? && j in JobsOn(listing.value, host)
      ensures Seen().restarts <= jobs && !Seen().session
      ensures critical.None? || cfg.dryRun ==> SameDeeds(FRESH, Seen()) && file == old(file)
      ensures r.Ok? && critical.Some? && !cfg.dryRun && (jobs != [] || critical == Some(Down)) ==>
        Ended(jobs, answers, Seen(), cfg)
      ensures r.Ok? && critical != Some(Down) && (critical.None? || cfg.dryRun) ==>
        Diagnosis(Seen().sight.checks, Ok(critical))
      ensures r.Ok? && critical.Some? && critical != Some(Down) && !cfg.dryRun && jobs == [] ==>
        && Seen().rebootedAt.Some? && Seen().records == [Seen().rebootedAt.value]
        && Seen().sight.looked == Seen().rebootedAt && Seen().resets == 0
      ensures critical == Some(Down) ==> Seen().rebootedAt.None?
      ensures r.Ok? && critical.Some? && critical != Some(Down) && !cfg.dryRun ==>
        Seen().rebootedAt.Some? && [Seen().rebootedAt.value] <= Seen().records
      ensures Parsed(file) == AllRecorded(Parsed(old(file)), t, host, Seen().records, disks, cfg)
      ensures old(clock) <= clock && MadeWithin(Seen().records, old(clock), clock)
    {
      critical, jobs, answers := None, [], [];
      var checked;
      ghost var seen;
      checked, seen := CheckHost(readable);
      if !checked.Ok? {
        return Crashed, None, [], answers;
      }
      critical := checked.value.0;
      if critical.None? {
        return Ok(()), None, [], answers;
      }
      var running := RunningJobs(listing);
      if !running.Ok? {
        return running.PropagateFailure(), critical, [], answers;
      }
      jobs := running.value;
      if !checked.value.1 {
        CriticalIsIll(seen, critical.value);
      }
      r, answers := TriggerActions(jobs, checked.value.1, t, disks);
    }
  }

  /** An HMC session. Requests may fail in any way and return anything; `answers` records what they returned. */
  class HmcSession {
    const run: HostRun
    var token: Option<string>
    ghost var answers: seq<Answer>

    constructor (run: HostRun)
      ensures this.run == run && token == None && answers == []
    {
      this.run, token, answers := run, None, [];
    }

    method Request() returns (r: Answer)
      modifies run`clock, this`answers, run`fault
      ensures run.fault == (old(run.fault) || r.Crashed?)
      ensures old(run.clock) <= run.clock
      ensures !r.Unreachable? && answers == old(answers) + [r]
    {
      var took: real := *;
      if 0.0 <= took {
        run.Spend(took);
      }
      var reply: Answer := *;
      r := if reply.Unreachable? then Failed else reply;
      run.fault := run.fault || r.Crashed?;
      answers := answers + [r];
    }

    method Get() returns (r: Res<Reply>, ghost answer: Answer)
      modifies run`clock, this`answers, run`fault
      ensures run.fault == (old(run.fault) || r.Crashed?)
      ensures old(run.clock) <= run.clock
      ensures !r.Unreachable? && answers == old(answers) + [answer]
      ensures if answer.Ok? then r == Ok(Body(answer)) else r == answer.PropagateFailure()
    {
      var reply := Request();
      answer := reply;
      if !reply.Ok? {
        return reply.PropagateFailure(), answer;
      }
      return Ok(if reply.value.1.Some? then reply.value.1.value else EMPTY_REPLY), answer;
    }

    /** `__enter__`: log on and keep the token. */
    method Enter() returns (r: Res<()>, ghost logon: Answer)
      requires run.Valid() && Allowed(run.Seen(), HmcLogon(run.host, run.clock), run.cfg)
      modifies this`token, this`answers, run`clock, run`trace, run`watch, run`fault
      ensures run.fault == (old(run.fault) || r.Crashed?)
      ensures run.Valid() && !r.Unreachable? && old(run.clock) <= run.clock
      ensures answers == old(answers) + [logon] && (r.Ok? <==> LoggedOn(logon))
      ensures if r.Ok? then token == Body(logon).session && run.Seen() == old(run.Seen()).(session := true)
              else run.Seen() == old(run.Seen())
    {
      var reply := Request();
      logon := reply;
      if !reply.Ok? {
        return reply.PropagateFailure(), logon;
      }
      if reply.value.1.None? || reply.value.1.value.session.None? {
        return Failed, logon;
      }
      token := reply.value.1.value.session;
      run.Log(HmcLogon(run.host, run.clock));
      return Ok(()), logon;
    }

    /** `__exit__`: log off, ignoring the failures it handles. */
    method Exit() returns (r: Res<()>, ghost logoff: Answer)
      requires run.Valid() && Allowed(run.Seen(), HmcLogoff(run.host, run.clock), run.cfg)
      modifies this`answers, run`clock, run`trace, run`watch, run`fault
      ensures run.fault == (old(run.fault) || r.Crashed?)
      ensures run.Valid() && (r.Ok? || r.Crashed?) && old(run.clock) <= run.clock
      ensures answers == old(answers) + [logoff]
      ensures run.Seen() == After(old(run.Seen()), HmcLogoff(run.host, run.clock))
    {
      var reply := Request();
      run.Log(HmcLogoff(run.host, run.clock));
      return if reply.Crashed? then Crashed else Ok(()), reply;
    }

    /** A deadline passed: the wait that began at `start` is over. */
    ghost method PassDeadline(start: real, timeout: real)
      requires start + timeout < run.clock
      modifies this`answers
      ensures answers == old(answers) + [Unreachable]
    {
      answers := answers + [Unreachable];
    }

    /** Polls until a status is the expected one; gives up without an answer that says so only after the deadline. */
    method PollStatus(expected: string, timeout: real, pause: real) returns (r: Res<Reply>, ghost seen: seq<Answer>)
      requires 0.0 < timeout && 1.0 <= pause
      modifies run`clock, this`answers, run`fault, run`slept
      ensures run.fault == (old(run.fault) || r.Crashed?)
      ensures old(run.clock) <= run.clock
      ensures !r.Unreachable? && answers == old(answers) + seen
      ensures if r.Ok? then StatusCame(seen, expected) else StatusFailed(seen, expected)
      ensures r.Ok? ==> r.value == Body(seen[|seen| - 1])
      ensures seen[|seen| - 1].Unreachable? ==> old(run.clock) + timeout < run.clock
      ensures 0 < Requested(seen) && run.slept == old(run.slept) + Pauses(Requested(seen) - 1, pause)
    {
      var deadline := run.clock + timeout;
      ghost var answer;
      r, answer := Get();
      seen := [answer];
      while r.Ok? && r.value.status != Some(expected)
        invariant old(run.clock) <= run.clock && !r.Unreachable? && run.fault == (old(run.fault) || r.Crashed?)
        invariant seen != [] && answers == old(answers) + seen && answer == seen[|seen| - 1] && !answer.Unreachable?
        invariant run.slept == old(run.slept) + Pauses(|seen| - 1, pause)
        invariant if answer.Ok? then r == Ok(Body(answer)) else r == answer.PropagateFailure()
        invariant forall k | 0 <= k < |seen| - 1 :: NotYet(seen[k], expected)
        decreases deadline - run.clock, r.Ok?
      {
        if r.value.status.None? {
          return Failed, seen;
        }
        if deadline < run.clock {
          PassDeadline(old(run.clock), timeout);
          Associative(old(answers), seen, [Unreachable]);
          seen := seen + [Unreachable];
          return Failed, seen;
        }
        run.Sleep(pause);
        r, answer := Get();
        Associative(old(answers), seen, [answer]);
        seen := seen + [answer];
      }
    }

    /** `_wait_for_job`. */
    method WaitForJob() returns (r: Res<()>, ghost seen: seq<Answer>)
      modifies run`clock, this`answers, run`fault, run`slept
      ensures run.fault == (old(run.fault) || r.Crashed?)
      ensures old(run.clock) <= run.clock
      ensures !r.Unreachable? && answers == old(answers) + seen
      ensures if r.Ok? then JobDone(seen) else JobFailed(seen)
      ensures seen != [] && (seen[|seen| - 1].Unreachable? ==> old(run.clock) + HMC_JOB_TIMEOUT < run.clock)
      ensures 0 < Requested(seen) && run.slept == old(run.slept) + Pauses(Requested(seen) - 1, 5.0)
    {
      var job;
      job, seen := PollStatus("complete", HMC_JOB_TIMEOUT, 5.0);
      if !job.Ok? {
        return job.PropagateFailure(), seen;
      }
      return if job.value.jobStatus == Some(JOB_STATUS_OK) then Ok(()) else Failed, seen;
    }

    /** What `operate` makes of the reply to its request. */
    method Finish(reply: Answer) returns (r: Res<()>, ghost polled: seq<Answer>)
      requires !reply.Unreachable? && (reply.Crashed? ==> run.fault)
      modifies run`clock, this`answers, run`fault, run`slept
      ensures run.fault == (old(run.fault) || r.Crashed?) && (reply.Crashed? ==> r.Crashed?)
      ensures old(run.clock) <= run.clock && !r.Unreachable?
      ensures answers == old(answers) + polled
      ensures if r.Ok? then OperationDone([reply] + polled) else OperationFailed([reply] + polled)
      ensures Rested(old(run.slept), run.slept, 1 + |polled|)
    {
      polled := [];
      RestedMore(run.slept, run.slept, 0, 1);
      assert [reply] + [] == [reply] && answers + [] == answers;
      if !reply.Ok? {
        NoJobFollows(reply);
        return reply.PropagateFailure(), polled;
      }
      if reply.value.0 == HTTP_NO_CONTENT {
        NoJobFollows(reply);
        return Ok(()), polled;
      }
      if reply.value.0 != HTTP_ACCEPTED || reply.value.1.None? || reply.value.1.value.jobUri.None? {
        NoJobFollows(reply);
        return Failed, polled;
      }
      r, polled := WaitForJob();
      RestedPolls(old(run.slept), run.slept, Requested(polled), 5.0);
      RestedMore(old(run.slept), run.slept, Requested(polled), 1 + |polled|);
      JobFollows(reply, polled);
    }

    /** `operate`: done at once, or after the job it started completed. */
    method Operate(ghost start: Event) returns (r: Res<()>, ghost seen: seq<Answer>)
      requires run.Valid() && start.host == run.host && start.at == run.clock && Allowed(run.Seen(), start, run.cfg)
      modifies run`clock, run`trace, run`watch, this`answers, run`fault, run`slept
      ensures run.fault == (old(run.fault) || r.Crashed?)
      ensures run.Valid() && !r.Unreachable? && old(run.clock) <= run.clock
      ensures run.Seen() == After(old(run.Seen()), start)
      ensures answers == old(answers) + seen && seen != []
      ensures if r.Ok? then OperationDone(seen) else OperationFailed(seen)
      ensures Rested(old(run.slept), run.slept, |seen|)
    {
      run.Log(start);
      var reply := Request();
      ghost var polled;
      r, polled := Finish(reply);
      Associative(old(answers), [reply], polled);
      seen := [reply] + polled;
    }

    /** `_wait_for_lpar_status`. */
    method WaitForLparStatus(expected: string) returns (r: Res<()>, ghost seen: seq<Answer>)
      modifies run`clock, this`answers, run`fault, run`slept
      ensures run.fault == (old(run.fault) || r.Crashed?)
      ensures old(run.clock) <= run.clock
      ensures !r.Unreachable? && answers == old(answers) + seen
      ensures if r.Ok? then StatusCame(seen, expected) else StatusFailed(seen, expected)
      ensures seen[|seen| - 1].Unreachable? ==> old(run.clock) + HMC_STATUS_TIMEOUT < run.clock
      ensures 0 < Requested(seen) && run.slept == old(run.slept) + Pauses(Requested(seen) - 1, 10.0)
    {
      var lpar;
      lpar, seen := PollStatus(expected, HMC_STATUS_TIMEOUT, 10.0);
      return if lpar.Ok? then Ok(()) else lpar.PropagateFailure(), seen;
    }

    /** The end of `_reset_and_load`, once the load is done. */
    method AwaitOperating() returns (r: Res<()>, ghost status: seq<Answer>)
      requires run.Valid() && !run.cfg.dryRun && run.Seen().session && run.Seen().stage.Loading?
      modifies run`clock, run`trace, run`watch, this`answers, run`fault, run`slept
      ensures run.fault == (old(run.fault) || r.Crashed?)
      ensures run.Valid() && !r.Unreachable? && old(run.clock) <= run.clock
      ensures answers == old(answers) + status && Rested(old(run.slept), run.slept, |status|)
      ensures if r.Ok? then StatusCame(status, "operating") else StatusFailed(status, "operating")
      ensures run.Seen() == old(run.Seen()).(stage := if r.Ok? then Operating(run.clock) else Loaded)
    {
      run.Log(HmcLoadDone(run.host, run.clock));
      r, status := WaitForLparStatus("operating");
      RestedPolls(old(run.slept), run.slept, Requested(status), 10.0);
      RestedMore(old(run.slept), run.slept, Requested(status), |status|);
      if r.Ok? {
        run.Log(HmcOperating(run.host, run.clock));
      }
    }

    /** The second half of `_reset_and_load`. */
    method Load() returns (r: Res<()>, ghost seen: seq<Answer>)
      requires run.Valid() && !run.cfg.dryRun && run.Seen().session && run.Seen().stage.Cleared?
      modifies run`clock, run`trace, run`watch, this`answers, run`fault, run`slept
      ensures run.fault == (old(run.fault) || r.Crashed?)
      ensures run.Valid() && !r.Unreachable? && old(run.clock) <= run.clock
      ensures SameButStage(old(run.Seen()), run.Seen())
      ensures answers == old(answers) + seen && LoadOutcome(seen, run.Seen().stage)
      ensures r.Ok? <==> run.Seen().stage.Operating?
      ensures r.Ok? ==> run.Seen().stage.since <= run.clock
      ensures Rested(old(run.slept), run.slept, |seen|)
    {
      ghost var status;
      r, seen := Operate(HmcLoad(run.host, run.clock));
      if !r.Ok? {
        return;
      }
      ghost var before := run.slept;
      r, status := AwaitOperating();
      Associative(old(answers), seen, status);
      RestedTwice(old(run.slept), before, run.slept, |seen|, |status|);
      LoadEnded(seen, status, run.clock);
      seen := seen + status;
    }

    /** The operations of `_reset_and_load`, on a partition with these properties. */
    method ResetThenLoad(props: Reply) returns (r: Res<()>, ghost seen: seq<Answer>)
      requires run.Valid() && Allowed(run.Seen(), HmcReset(run.host, run.clock), run.cfg) && run.Seen().stage.Untouched?
      modifies run`clock, run`trace, run`watch, this`answers, run`fault, run`slept
      ensures run.fault == (old(run.fault) || r.Crashed?)
      ensures run.Valid() && !r.Unreachable? && old(run.clock) <= run.clock
      ensures HmcUsed(old(run.Seen()), run.Seen())
      ensures answers == old(answers) + seen && ResetOutcome(seen, run.Seen().stage, props.loadAddress.Some?)
      ensures r.Ok? <==> run.Seen().stage.Operating?
      ensures r.Ok? ==> run.Seen().stage.since <= run.clock
      ensures Rested(old(run.slept), run.slept, |seen|)
    {
      ghost var rest;
      r, seen := Operate(HmcReset(run.host, run.clock));
      if !r.Ok? {
        return;
      }
      run.Log(HmcResetDone(run.host, run.clock));
      if props.loadAddress.None? {
        return Failed, seen;
      }
      ghost var before := run.slept;
      r, rest := Load();
      Associative(old(answers), seen, rest);
      RestedTwice(old(run.slept), before, run.slept, |seen|, |rest|);
      WentOn(seen, rest, run.Seen().stage);
      seen := seen + rest;
    }

    /** `_reset_and_load`: the load address is read before the reset but looked up after it, so a partition without
        one stays reset and is not loaded. */
    method ResetAndLoad() returns (r: Res<()>, ghost seen: seq<Answer>)
      requires run.Valid() && Allowed(run.Seen(), HmcReset(run.host, run.clock), run.cfg) && run.Seen().stage.Untouched?
      modifies run`clock, run`trace, run`watch, this`answers, run`fault, run`slept
      ensures run.fault == (old(run.fault) || r.Crashed?)
      ensures run.Valid() && !r.Unreachable? && old(run.clock) <= run.clock
      ensures HmcUsed(old(run.Seen()), run.Seen())
      ensures answers == old(answers) + seen
      ensures Outcome(seen, run.Seen().stage) && (r.Ok? <==> run.Seen().stage.Operating?)
      ensures r.Ok? ==> run.Seen().stage.since <= run.clock
      ensures r.Ok? <==> ResetAndLoaded(seen)
      ensures Rested(old(run.slept), run.slept, |seen|)
    {
      var props;
      ghost var answer, work;
      props, answer := Get();
      seen := [answer];
      RestedMore(run.slept, run.slept, 0, 1);
      if !props.Ok? || props.value.name.None? {
        NotRead(answer);
        return if props.Ok? then Failed else props.PropagateFailure(), seen;
      }
      r, work := ResetThenLoad(props.value);
      Associative(old(answers), [answer], work);
      RestedMore(old(run.slept), run.slept, |work|, |work| + 1);
      ReadAndReset(answer, work, run.Seen().stage);
      seen := [answer] + work;
    }

    /** The `with` block of `hmc_force_reboot`. */
    method Force() returns (r: Res<bool>)
      requires run.Valid() && !run.cfg.dryRun && run.cfg.hmcFallback && answers == []
      requires !run.Seen().session && run.Seen().announced && run.Seen().resets == 0 && StayedAway(run.Seen(), run.cfg)
      requires run.Seen().stage.Untouched? && run.Seen().sight.answered.None?
      modifies this`token, this`answers, run`clock, run`trace, run`watch, run`fault, run`slept
      ensures run.fault == (old(run.fault) || r.Crashed?)
      ensures run.Valid() && (r.Ok? || r.Crashed?) && old(run.clock) <= run.clock
      ensures HmcTried(answers, run.Seen().stage) && HmcUsed(old(run.Seen()), run.Seen())
      ensures r.Ok? ==> (r.value <==> ForcedThrough(answers)) && (r.value <==> run.Seen().stage.Operating?)
      ensures run.Seen().stage.Operating? ==> run.Seen().stage.since <= run.clock
      ensures r == Ok(true) ==> MayProbe(run.Seen(), run.clock, run.cfg)
      ensures Rested(old(run.slept), run.slept, |answers|)
    {
      var loggedOn;
      ghost var logon, work, logoff;
      loggedOn, logon := Enter();
      if !loggedOn.Ok? {
        NoLogon(logon);
        RestedMore(run.slept, run.slept, 0, 1);
        return if loggedOn.Crashed? then Crashed else Ok(false);
      }
      var done;
      done, work := ResetAndLoad();
      var closed;
      ghost var worked := run.Seen();
      closed, logoff := Exit();
      SessionOver(old(run.Seen()), worked, run.host, run.clock, run.cfg);
      WorkedInside(logon, work, logoff, run.Seen().stage);
      RestedMore(old(run.slept), run.slept, |work|, |work| + 2);
      if closed.Crashed? || done.Crashed? {
        return Crashed;
      }
      return Ok(done.Ok?);
    }
  }
}
