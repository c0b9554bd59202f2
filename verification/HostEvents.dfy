/** What one run of the reaper does to the outside world, event by event, and the rules each event must obey. */
module HostEvents {
  import opened PyText
  import opened RebootMap

  datatype Config = Config(
    dryRun: bool,
    maxWaitMinutes: int,
    bootWaitMinutes: int,
    stabilityDelayMinutes: int,
    sshTimeout: nat,
    cmdTimeout: nat,
    sshCheckInterval: Seconds,
    hmcFallback: bool,
    hmcReady: bool,      // an HMC host, credentials for it and an LPAR for this hypervisor are configured
    hasStateFile: bool)

  type Seconds = n: int | 0 < n witness 15

  const SSH_ERR_CONNECT := 255
  const RET_SUCCESS := 0

  /** How `subprocess.run` ended. */
  datatype Command = OsError | TimedOut | Exit(code: int)

  /** What a thread does to its host, at which time. */
  datatype Event =
    | Scan(host: Host, at: real, result: Command, lines: set<string>)  // the zombie detector over SSH
    | Virsh(host: Host, at: real, result: Command, errorShown: bool)   // `virsh list` over SSH
    | Probe(host: Host, at: real, result: Command)                     // `ssh HOST true`
    | Record(host: Host, at: real)                                     // `record_reboot`
    | SshReboot(host: Host, at: real)
    | HmcLogon(host: Host, at: real)
    | HmcReset(host: Host, at: real)
    | HmcResetDone(host: Host, at: real)
    | HmcLoad(host: Host, at: real)
    | HmcLoadDone(host: Host, at: real)
    | HmcOperating(host: Host, at: real)
    | HmcLogoff(host: Host, at: real)
    | Restart(host: Host, at: real, job: int)

  function StabilityDelay(cfg: Config): real {
    if 0 < cfg.stabilityDelayMinutes then (cfg.stabilityDelayMinutes * 60) as real else 0.0
  }

  function BootWait(cfg: Config): real {
    (cfg.bootWaitMinutes * 60) as real
  }

  /** How far the HMC has brought the partition. */
  datatype Stage = Untouched | Resetting | Cleared | Loading | Loaded | Operating(since: real)

  /** Whether the host is silent: its newest check was a probe that failed, or a scan or health check that could not
      reach it. */
  datatype Silence = NotSilent | Unreached | ProbeFailed(at: real)

  /** What is known of a host that can be reached or not. */
  datatype Sight = Sight(
    answered: Option<real>,    // when the newest probe succeeded, if no reboot, reset or lost connection came after it
    silence: Silence,          // what is known since the newest reboot or reset
    looked: Option<real>,      // when it was last probed or found unreachable, or when a wait for it began
    checks: seq<Event>,        // the scans and health checks that got through since then, or since it was last probed
    probes: nat,
    answers: nat)              // how many of the probes succeeded

  /** What matters of the events of one host so far. */
  datatype Watch = Watch(
    sight: Sight,
    rebootedAt: Option<real>,  // when it was rebooted over SSH
    announced: bool,           // a reboot was recorded and not used up by a reboot or a reset yet
    records: seq<real>,        // when reboots were recorded
    session: bool,             // an HMC session is open
    stage: Stage,
    resets: nat,
    restarts: seq<int>)

  const FRESH := Watch(Sight(None, NotSilent, None, [], 0, 0), None, false, [], false, Untouched, 0, [])

  /** The command could not reach the host. */
  predicate Unanswered(e: Event) {
    || (e.Scan? && (e.result.TimedOut? || e.result == Exit(SSH_ERR_CONNECT)))
    || (e.Virsh? && e.result == Exit(SSH_ERR_CONNECT))
  }

  /** The command ran on the host. */
  predicate Reached(e: Event) {
    (e.Scan? || e.Virsh?) && e.result.Exit? && e.result.code != SSH_ERR_CONNECT
  }

  /** The host answered the probe. */
  predicate Answered(e: Event) {
    e.Probe? && e.result == Exit(RET_SUCCESS)
  }

  /** The output of a scan that ended; its exit code does not matter unless it is the one of a failed connection. */
  predicate Scanned(e: Event) {
    e.Scan? && Reached(e)
  }

  predicate Healthy(e: Event) {
    e.Virsh? && e.result == Exit(RET_SUCCESS) && !e.errorShown
  }

  /** The scans found `stuck` to be there to stay: nothing at once, or what two scans ten seconds apart share. */
  predicate Persistent(scans: seq<Event>, stuck: set<string>) {
    && 1 <= |scans| <= 2 && Scanned(scans[0])
    && if |scans| == 1 then scans[0].lines == {} && stuck == {}
       else && Scanned(scans[1]) && scans[0].at + 10.0 <= scans[1].at
            && scans[0].lines != {} && stuck == scans[0].lines * scans[1].lines
  }

  /** The processes that both of two scans found. */
  function Stuck(scans: seq<Event>): set<string> {
    if |scans| == 2 && scans[0].Scan? && scans[1].Scan? then scans[0].lines * scans[1].lines else {}
  }

  /** The checks found zombies that are there to stay, or none and a libvirt that is not healthy. */
  predicate Ill(checks: seq<Event>) {
    checks != [] &&
    var last := checks[|checks| - 1];
    || (Persistent(checks, Stuck(checks)) && Stuck(checks) != {})
    || (Persistent(checks[..|checks| - 1], {}) && last.Virsh? && !Unanswered(last) && !Healthy(last))
  }

  /** A scan or health check found out whether the host can be reached; or it was stopped before it could. */
  function Checked(s: Sight, e: Event): Sight {
    if Unanswered(e) then s.(answered := None, silence := Unreached, looked := Some(e.at), checks := [])
    else s.(silence := if Reached(e) then NotSilent else s.silence, checks := s.checks + [e])
  }

  /** The host is sent away: nothing is known of it until the next check. */
  function Gone(s: Sight): Sight {
    s.(answered := None, silence := NotSilent, checks := [])
  }

  /** `n` probes, of which the last, at time `at`, is the first to succeed if one does. */
  function Waited(s: Sight, up: bool, at: real, n: nat): Sight {
    Sight(if up then Some(at) else None, if up then NotSilent else ProbeFailed(at), Some(at), [], s.probes + n,
          s.answers + if up then 1 else 0)
  }

  function After(m: Watch, e: Event): Watch {
    match e
    case Scan(_, _, _, _) => m.(sight := Checked(m.sight, e))
    case Virsh(_, _, _, _) => m.(sight := Checked(m.sight, e))
    case Probe(_, at, _) => m.(sight := Waited(m.sight, Answered(e), at, 1))
    case Record(_, at) => m.(announced := true, records := m.records + [at])
    case SshReboot(_, at) =>
      m.(sight := Gone(m.sight).(looked := Some(at)), announced := false, rebootedAt := Some(at))
    case HmcLogon(_, _) => m.(session := true)
    case HmcReset(_, _) =>
      m.(sight := Gone(m.sight), announced := false, stage := Resetting, resets := m.resets + 1)
    case HmcResetDone(_, _) => m.(stage := Cleared)
    case HmcLoad(_, _) => m.(sight := Gone(m.sight), stage := Loading)
    case HmcLoadDone(_, _) => m.(stage := Loaded)
    case HmcOperating(_, at) => m.(stage := Operating(at))
    case HmcLogoff(_, at) =>
      m.(session := false, sight := if m.stage.Operating? then m.sight.(looked := Some(at)) else m.sight)
    case Restart(_, _, job) => m.(restarts := m.restarts + [job])
  }

  /** Nothing was done to the host between two watches. */
  predicate SameDeeds(m: Watch, m': Watch) {
    m' == m.(sight := m'.sight)
  }

  /** The watch over the events of `host` in a trace that may hold other hosts' events too. */
  function Watched(t: seq<Event>, host: Host): Watch {
    if t == [] then FRESH
    else
      var m := Watched(t[..|t| - 1], host);
      if t[|t| - 1].host == host then After(m, t[|t| - 1]) else m
  }

  predicate Harmless(e: Event) {
    e.Scan? || e.Virsh? || e.Probe?
  }

  /** The host did not come back: a probe failed when the wait after its reboot over SSH was over; or it was not
      rebooted and could not be reached. */
  predicate StayedAway(m: Watch, cfg: Config) {
    if m.rebootedAt.Some? then m.sight.silence.ProbeFailed? && m.rebootedAt.value + BootWait(cfg) <= m.sight.silence.at
    else !m.sight.silence.NotSilent?
  }

  /** All was done to bring the host back. It is not answering; it stayed away and either there is no fallback or the
      fallback was recorded but did not get to a reset; or the reset or the load failed; or a probe failed when the wait
      after the load was over. */
  predicate GaveUp(m: Watch, cfg: Config) {
    && m.sight.answered.None?
    && match m.stage
       case Untouched => StayedAway(m, cfg) && (cfg.hmcFallback ==> m.announced)
       case Operating(since) => m.sight.silence.ProbeFailed? && since + BootWait(cfg) <= m.sight.silence.at
       case _ => cfg.hmcFallback && m.resets == 1
  }

  /** How long a probe takes at most, and how long it takes to send a reboot. */
  function ProbeTime(cfg: Config): real {
    (cfg.sshTimeout + 5) as real
  }

  function RebootTime(cfg: Config): real {
    (cfg.sshTimeout + 15) as real
  }

  /** The time between two probes of one wait, or before its first. */
  function Pause(m: Watch, cfg: Config): real {
    if m.sight.silence.ProbeFailed? then cfg.sshCheckInterval as real else RebootTime(cfg)
  }

  /** A probe may start at time `now`: the host has not answered, and it was looked at no longer than a pause ago. */
  predicate MayProbe(m: Watch, now: real, cfg: Config) {
    m.sight.answered.None? && (m.sight.looked.Some? ==> now <= m.sight.looked.value + Pause(m, cfg))
  }

  /** The host answered a probe, and the stability delay is over at time `at`. */
  predicate Settled(m: Watch, at: real, cfg: Config) {
    m.sight.answered.Some? && m.sight.answered.value + StabilityDelay(cfg) <= at
  }

  /** The rules: what may happen next to a host that was watched as `m`. */
  predicate Allowed(m: Watch, e: Event, cfg: Config) {
    && (cfg.dryRun ==> Harmless(e))
    && match e
       case Scan(_, _, _, _) => m.records == []
       case Virsh(_, _, _, _) => m.records == []
       case Probe(_, at, _) => MayProbe(m, at - ProbeTime(cfg), cfg) && !m.session
       case HmcLogon(_, _) => m.announced && m.resets == 0 && !m.session
       case HmcLogoff(_, _) => m.session
       case SshReboot(_, _) =>
         m.announced && m.rebootedAt.None? && m.resets == 0 && m.sight.silence.NotSilent? && Ill(m.sight.checks)
       case HmcReset(_, _) => m.announced && m.session && m.resets == 0 && cfg.hmcFallback && StayedAway(m, cfg)
       case HmcResetDone(_, _) => m.session && m.stage.Resetting?
       case HmcLoad(_, _) => m.session && m.stage.Cleared?
       case HmcLoadDone(_, _) => m.session && m.stage.Loading?
       case HmcOperating(_, _) => m.session && m.stage.Loaded?
       case Restart(_, at, _) =>
         && Settled(m, at, cfg) && !m.session && (m.resets > 0 ==> m.stage.Operating?)
         && (m.restarts == [] ==> at == m.sight.answered.value + StabilityDelay(cfg))
       case Record(_, _) => true
  }

  /** Every event of `host` in the trace was allowed when it happened. */
  ghost predicate Safe(t: seq<Event>, host: Host, cfg: Config) {
    t == [] ||
    var n := |t| - 1;
    Safe(t[..n], host, cfg) && (t[n].host == host ==> Allowed(Watched(t[..n], host), t[n], cfg))
  }

  lemma WatchedSnoc(t: seq<Event>, e: Event, host: Host)
    ensures Watched(t + [e], host) == if e.host == host then After(Watched(t, host), e) else Watched(t, host)
  {
    assert (t + [e])[..|t|] == t;
  }

  lemma SafeSnoc(t: seq<Event>, e: Event, host: Host, cfg: Config)
    ensures Safe(t + [e], host, cfg) <==>
            Safe(t, host, cfg) && (e.host == host ==> Allowed(Watched(t, host), e, cfg))
  {
    assert (t + [e])[..|t|] == t;
  }

  lemma {:induction false} SafeAt(t: seq<Event>, host: Host, cfg: Config, i: nat)
    requires Safe(t, host, cfg) && i < |t| && t[i].host == host
    ensures Allowed(Watched(t[..i], host), t[i], cfg)
  {
    var n := |t| - 1;
    if i < n {
      SafeAt(t[..n], host, cfg, i);
      assert t[..n][..i] == t[..i];
    }
  }

  // ---------------------------------------------------------------- what the rules mean for a whole run

  predicate Disruptive(e: Event) {
    e.SshReboot? || e.HmcReset? || e.HmcLoad?
  }

  ghost predicate Quiet(t: seq<Event>, host: Host, from: int, to: int) {
    forall k | from < k < to && 0 <= k < |t| :: t[k].host == host ==> !Disruptive(t[k])
  }

  /** `host` answered a probe at `p` and was left alone until `i`. */
  ghost predicate AnsweredAt(t: seq<Event>, host: Host, p: int, i: int) {
    0 <= p < i <= |t| && t[p].host == host && Answered(t[p]) && Quiet(t, host, p, i)
  }

  lemma WatchedStep(t: seq<Event>, host: Host, i: nat)
    requires 0 < i <= |t|
    ensures Watched(t[..i], host) ==
      if t[i - 1].host == host then After(Watched(t[..i - 1], host), t[i - 1]) else Watched(t[..i - 1], host)
  {
    assert t[..i][..i - 1] == t[..i - 1];
  }

  lemma {:induction false} AnsweredMeans(t: seq<Event>, host: Host, i: nat)
    requires i <= |t|
    ensures var answered := Watched(t[..i], host).sight.answered;
      answered.Some? ==> exists p :: AnsweredAt(t, host, p, i) && t[p].at == answered.value
  {
    if 0 < i {
      WatchedStep(t, host, i);
      if t[i - 1].host == host && Answered(t[i - 1]) {
        assert AnsweredAt(t, host, i - 1, i);
      } else if Watched(t[..i], host).sight.answered.Some? {
        AnsweredMeans(t, host, i - 1);
        var p :| AnsweredAt(t, host, p, i - 1) && t[p].at == Watched(t[..i - 1], host).sight.answered.value;
        assert AnsweredAt(t, host, p, i);
      }
    }
  }

  /** The check that failed to get through, or that did. */
  predicate Fails(e: Event) {
    Unanswered(e) || (e.Probe? && !Answered(e))
  }

  predicate GetsThrough(e: Event) {
    Reached(e) || Answered(e)
  }

  /** `host` failed a check at `p`, and until `i` no check got through to it and it was not rebooted or reset. */
  ghost predicate SilentFrom(t: seq<Event>, host: Host, p: int, i: int) {
    && 0 <= p < i <= |t| && t[p].host == host && Fails(t[p]) && Quiet(t, host, p, i)
    && forall k | p < k < i :: t[k].host == host ==> !GetsThrough(t[k])
  }

  /** That check is what the watch goes by. */
  ghost predicate SilentSince(t: seq<Event>, host: Host, p: int, i: int, silence: Silence) {
    && SilentFrom(t, host, p, i)
    && (silence.ProbeFailed? ==> t[p].Probe? && t[p].at == silence.at)
  }

  lemma SilenceLasts(t: seq<Event>, host: Host, p: int, i: int)
    requires SilentFrom(t, host, p, i) && i < |t|
    requires t[i].host == host ==> !GetsThrough(t[i]) && !Disruptive(t[i])
    ensures SilentFrom(t, host, p, i + 1)
  {
  }

  lemma {:induction false} SilenceMeans(t: seq<Event>, host: Host, i: nat)
    requires i <= |t|
    ensures var silence := Watched(t[..i], host).sight.silence;
      !silence.NotSilent? ==> exists p :: SilentSince(t, host, p, i, silence)
  {
    if 0 < i {
      WatchedStep(t, host, i);
      var silence := Watched(t[..i], host).sight.silence;
      if t[i - 1].host == host && Fails(t[i - 1]) {
        assert SilentSince(t, host, i - 1, i, silence);
      } else if !silence.NotSilent? {
        SilenceMeans(t, host, i - 1);
        var p :| SilentSince(t, host, p, i - 1, silence);
        SilenceLasts(t, host, p, i - 1);
        assert SilentSince(t, host, p, i, silence);
      }
    }
  }

  /** In a safe run there is one SSH reboot at most, at the time the watch goes by. */
  lemma {:induction false} RebootedMeans(t: seq<Event>, host: Host, cfg: Config, i: nat)
    requires i <= |t| && Safe(t[..i], host, cfg)
    ensures forall r | 0 <= r < i && t[r].host == host && t[r].SshReboot? ::
      Watched(t[..i], host).rebootedAt == Some(t[r].at)
  {
    if 0 < i {
      WatchedStep(t, host, i);
      assert t[..i][..i - 1] == t[..i - 1];
      RebootedMeans(t, host, cfg, i - 1);
    }
  }

  /** `host` was recorded at `r`, and not rebooted or reset until `i`. */
  ghost predicate RecordedAt(t: seq<Event>, host: Host, r: int, i: int) {
    && 0 <= r < i <= |t| && t[r].host == host && t[r].Record?
    && forall k | r < k < i :: t[k].host == host ==> !t[k].SshReboot? && !t[k].HmcReset?
  }

  lemma {:induction false} AnnouncedMeans(t: seq<Event>, host: Host, i: nat)
    requires i <= |t|
    ensures Watched(t[..i], host).announced ==> exists r :: RecordedAt(t, host, r, i)
  {
    if 0 < i {
      WatchedStep(t, host, i);
      if t[i - 1].host == host && t[i - 1].Record? {
        assert RecordedAt(t, host, i - 1, i);
      } else if Watched(t[..i], host).announced {
        AnnouncedMeans(t, host, i - 1);
        var r :| RecordedAt(t, host, r, i - 1);
        assert RecordedAt(t, host, r, i);
      }
    }
  }

  ghost predicate Restarted(t: seq<Event>, host: Host, i: int) {
    0 <= i < |t| && t[i].Restart? && t[i].host == host
  }

  /** In a safe run every restarted job comes after a probe that its host answered, with no reboot, reset or load of
      that host in between, and at least the stability delay later. */
  lemma RestartsFollowAnAnswer(t: seq<Event>, host: Host, cfg: Config, i: int)
    requires Safe(t, host, cfg) && Restarted(t, host, i)
    ensures exists p :: AnsweredAt(t, host, p, i) && t[p].at + StabilityDelay(cfg) <= t[i].at
  {
    SafeAt(t, host, cfg, i);
    AnsweredMeans(t, host, i);
  }

  /** Every SSH reboot before `i` is followed, at least the boot wait later, by the probe at `p`. */
  ghost predicate AfterBootWait(t: seq<Event>, host: Host, cfg: Config, p: int, i: int)
    requires 0 <= p < |t|
  {
    forall r | 0 <= r < i && r < |t| && t[r].host == host && t[r].SshReboot? ::
      r < p && t[p].Probe? && t[r].at + BootWait(cfg) <= t[p].at
  }

  /** In a safe run a host is reset only after a check that it failed, with none that got through since. If it was
      rebooted over SSH before, that check is a probe after the reboot, at least the boot wait later. */
  lemma ResetsFollowSilence(t: seq<Event>, host: Host, cfg: Config, i: int)
    requires Safe(t, host, cfg) && 0 <= i < |t| && t[i].host == host && t[i].HmcReset?
    ensures exists p :: SilentFrom(t, host, p, i) && AfterBootWait(t, host, cfg, p, i)
  {
    SafeAt(t, host, cfg, i);
    SafePrefix(t, host, cfg, i);
    SilenceMeans(t, host, i);
    RebootedMeans(t, host, cfg, i);
    var p :| SilentSince(t, host, p, i, Watched(t[..i], host).sight.silence);
    assert AfterBootWait(t, host, cfg, p, i);
  }

  /** What goes together in the watch over a safe run. */
  predicate Coherent(m: Watch) {
    && (m.announced || m.rebootedAt.Some? || 0 < m.resets ==> m.records != [])
    && (m.stage.Untouched? <==> m.resets == 0)
    && (m.session && 0 < m.resets ==> m.sight.silence.NotSilent?)
    && (m.sight.silence.ProbeFailed? ==> m.sight.looked == Some(m.sight.silence.at))
  }

  /** In a safe run a partition gets to operating once at most, at the time the watch goes by. */
  lemma {:induction false} OperatingMeans(t: seq<Event>, host: Host, cfg: Config, i: nat)
    requires i <= |t| && Safe(t[..i], host, cfg)
    ensures Coherent(Watched(t[..i], host))
    ensures forall o | 0 <= o < i && t[o].host == host && t[o].HmcOperating? ::
      Watched(t[..i], host).stage == Operating(t[o].at)
  {
    if 0 < i {
      WatchedStep(t, host, i);
      assert t[..i][..i - 1] == t[..i - 1];
      OperatingMeans(t, host, cfg, i - 1);
    }
  }

  /** The probe at `p` is at least the boot wait later than the partition's getting to operating. */
  ghost predicate AfterLoadWait(t: seq<Event>, host: Host, cfg: Config, p: int, i: int)
    requires 0 <= p < |t|
  {
    forall o | 0 <= o < i && o < |t| && t[o].host == host && t[o].HmcOperating? ::
      t[p].Probe? && t[o].at + BootWait(cfg) <= t[p].at
  }

  /** A safe run that ends given up, without a reset that failed half-way, ends in silence: after a check that the host
      failed, with none that got through since; at least the boot wait after an SSH reboot that was not followed by a
      reset, and after the partition's getting to operating. */
  lemma GivingUpFollowsSilence(t: seq<Event>, host: Host, cfg: Config)
    requires Safe(t, host, cfg) && GaveUp(Watched(t, host), cfg)
    requires Watched(t, host).stage.Untouched? || Watched(t, host).stage.Operating?
    ensures exists p :: SilentFrom(t, host, p, |t|) && AfterLoadWait(t, host, cfg, p, |t|)
                        && (Watched(t, host).stage.Untouched? ==> AfterBootWait(t, host, cfg, p, |t|))
  {
    var n, m := |t|, Watched(t, host);
    assert t[..n] == t;
    SilenceMeans(t, host, n);
    RebootedMeans(t, host, cfg, n);
    OperatingMeans(t, host, cfg, n);
    var p :| SilentSince(t, host, p, n, m.sight.silence);
    assert AfterLoadWait(t, host, cfg, p, n);
    assert m.stage.Untouched? ==> AfterBootWait(t, host, cfg, p, n);
  }

  /** The checks that count are those of these events. */
  ghost predicate ChecksAt(t: seq<Event>, host: Host, checks: seq<Event>, places: seq<nat>, i: nat) {
    && |places| == |checks| && (forall a, b | 0 <= a < b < |places| :: places[a] < places[b])
    && forall k | 0 <= k < |places| ::
         places[k] < i <= |t| && t[places[k]] == checks[k] && t[places[k]].host == host
  }

  lemma {:induction false} ChecksMean(t: seq<Event>, host: Host, i: nat) returns (places: seq<nat>)
    requires i <= |t|
    ensures ChecksAt(t, host, Watched(t[..i], host).sight.checks, places, i)
  {
    places := [];
    if 0 < i {
      WatchedStep(t, host, i);
      var before := ChecksMean(t, host, i - 1);
      var checks, now := Watched(t[..i - 1], host).sight.checks, Watched(t[..i], host).sight.checks;
      if now == checks {
        places := before;
      } else if now != [] {
        places := before + [i - 1];
      }
    }
  }

  /** `host` was found ill before `i`: an unhealthy libvirt at `k`, or a process at `j` and again at `k`. */
  ghost predicate FoundIll(t: seq<Event>, host: Host, j: int, k: int, i: int) {
    && 0 <= j <= k < i <= |t| && t[j].host == host && t[k].host == host
    && if t[k].Virsh? then !Unanswered(t[k]) && !Healthy(t[k])
       else && Scanned(t[j]) && Scanned(t[k]) && t[j].at + 10.0 <= t[k].at && t[j].lines * t[k].lines != {}
  }

  /** In a safe run a host is rebooted over SSH only after it was found ill. */
  lemma RebootsFollowAFinding(t: seq<Event>, host: Host, cfg: Config, i: int)
    requires Safe(t, host, cfg) && 0 <= i < |t| && t[i].host == host && t[i].SshReboot?
    ensures exists j, k :: FoundIll(t, host, j, k, i)
  {
    SafeAt(t, host, cfg, i);
    var checks := Watched(t[..i], host).sight.checks;
    var places := ChecksMean(t, host, i);
    var n := |checks| - 1;
    if checks[n].Virsh? {
      assert FoundIll(t, host, places[n], places[n], i);
    } else {
      assert FoundIll(t, host, places[0], places[1], i);
    }
  }

  // ---------------------------------------------------------------- the waits are polled

  /** From event `n` on the host was probed and nothing else: at once after `start`, then a pause after each probe that
      it did not answer. */
  ghost predicate Polls(t: seq<Event>, n: nat, host: Host, start: real, cfg: Config) {
    n < |t| &&
    var last := |t| - 1;
    && t[last].Probe? && t[last].host == host
    && if last == n then start <= t[n].at <= start + ProbeTime(cfg)
       else
         var next := t[last - 1].at + cfg.sshCheckInterval as real;
         Polls(t[..last], n, host, start, cfg) && !Answered(t[last - 1]) && next <= t[last].at <= next + ProbeTime(cfg)
  }

  lemma PollsSnoc(t: seq<Event>, e: Event, n: nat, host: Host, start: real, now: real, cfg: Config)
    requires n <= |t| && e.Probe? && e.host == host && now <= e.at <= now + ProbeTime(cfg)
    requires if |t| == n then now == start
             else Polls(t, n, host, start, cfg) && !Answered(t[|t| - 1]) &&
                  now == t[|t| - 1].at + cfg.sshCheckInterval as real
    ensures Polls(t + [e], n, host, start, cfg)
  {
    assert (t + [e])[..|t|] == t;
  }

  /** The longest time between two checks of a wait. */
  function Pace(cfg: Config): real {
    ProbeTime(cfg) + if RebootTime(cfg) < cfg.sshCheckInterval as real then cfg.sshCheckInterval as real
                     else RebootTime(cfg)
  }

  /** `host` was probed at time `x` or soon after. */
  ghost predicate ProbedSoon(t: seq<Event>, host: Host, cfg: Config, from: int, to: int, x: real) {
    exists k | from < k < to && 0 <= k < |t| ::
      t[k].host == host && t[k].Probe? && x <= t[k].at <= x + Pace(cfg)
  }

  /** A wait begins: with a check that could not reach the host, with an SSH reboot, or with the logoff from the HMC
      that got the partition to operating. */
  predicate Waits(m: Watch, e: Event) {
    Unanswered(e) || e.SshReboot? || (e.HmcLogoff? && m.stage.Operating?)
  }

  ghost predicate NoOtherWait(t: seq<Event>, host: Host, s: int, i: int)
    requires 0 <= s < i <= |t|
  {
    forall k | s < k < i && t[k].host == host :: !Waits(Watched(t[..k], host), t[k])
  }

  /** Since the wait that began at `s` nothing but a probe looked at `host`. */
  ghost predicate Waiting(t: seq<Event>, host: Host, s: int, i: int) {
    && 0 <= s < i <= |t| && t[s].host == host && Waits(Watched(t[..s], host), t[s])
    && NoOtherWait(t, host, s, i)
  }

  lemma NextLook(m: Watch, e: Event, cfg: Config)
    requires m.sight.looked.Some? && Allowed(m, e, cfg) && !Waits(m, e)
    ensures var looked := After(m, e).sight.looked;
      if e.Probe? then looked == Some(e.at) && e.at <= m.sight.looked.value + Pace(cfg) else looked == m.sight.looked
  {
  }

  /** While a host is waited for, it is probed again and again up to the newest probe, whatever comes of it. */
  lemma {:induction false} WaitsArePolled(t: seq<Event>, host: Host, cfg: Config, s: int, i: int)
    requires Safe(t, host, cfg) && Waiting(t, host, s, i)
    ensures var m := Watched(t[..i], host);
      m.sight.looked.Some? && forall x | t[s].at <= x < m.sight.looked.value :: ProbedSoon(t, host, cfg, s, i, x)
    decreases i
  {
    WatchedStep(t, host, i);
    if s + 1 < i {
      WaitsArePolled(t, host, cfg, s, i - 1);
      var before, m := Watched(t[..i - 1], host), Watched(t[..i], host);
      if t[i - 1].host == host {
        SafeAt(t, host, cfg, i - 1);
        NextLook(before, t[i - 1], cfg);
      }
      forall x | t[s].at <= x < m.sight.looked.value ensures ProbedSoon(t, host, cfg, s, i, x) {
        if x < before.sight.looked.value {
          assert ProbedSoon(t, host, cfg, s, i - 1, x);
        }
      }
    }
  }

  /** From its SSH reboot until the boot wait is over, a host that is reset or given up without a reset was probed again
      and again. */
  lemma BootWaitIsPolled(t: seq<Event>, host: Host, cfg: Config, r: int, i: int, x: real)
    requires Safe(t, host, cfg) && 0 <= r < i <= |t| && t[r].host == host && t[r].SshReboot?
    requires if i < |t| then t[i].host == host && t[i].HmcReset?
             else GaveUp(Watched(t, host), cfg) && Watched(t, host).stage.Untouched?
    requires t[r].at <= x < t[r].at + BootWait(cfg)
    ensures ProbedSoon(t, host, cfg, r, i, x)
  {
    var m := Watched(t[..i], host);
    if i < |t| {
      SafeAt(t, host, cfg, i);
    } else {
      assert t[..i] == t;
    }
    SafePrefix(t, host, cfg, i);
    RebootedMeans(t, host, cfg, i);
    OperatingMeans(t, host, cfg, i);
    forall k | r < k < i && t[k].host == host ensures !Waits(Watched(t[..k], host), t[k]) {
      AtMostOneOfEach(t, host, cfg, r, k);
      SafePrefix(t, host, cfg, k);
      OperatingMeans(t, host, cfg, k);
      RebootedMeans(t, host, cfg, k);
      SafeAt(t, host, cfg, k);
      WatchOnlyGrows(t, host, k, i);
    }
    WaitsArePolled(t, host, cfg, r, i);
  }

  /** And so was one that is given up after a load, from the logoff on until the wait after it is over. */
  lemma LoadWaitIsPolled(t: seq<Event>, host: Host, cfg: Config, l: int, x: real)
    requires Safe(t, host, cfg) && GaveUp(Watched(t, host), cfg) && Watched(t, host).stage.Operating?
    requires 0 <= l < |t| && t[l].host == host && t[l].HmcLogoff? && Watched(t[..l], host).stage.Operating?
    requires t[l].at <= x < Watched(t, host).stage.since + BootWait(cfg)
    ensures ProbedSoon(t, host, cfg, l, |t|, x)
  {
    assert t[..|t|] == t;
    OperatingMeans(t, host, cfg, |t|);
    SafePrefix(t, host, cfg, l);
    OperatingMeans(t, host, cfg, l);
    NoMoreSessions(t, host, cfg, l, |t|);
    WaitsArePolled(t, host, cfg, l, |t|);
  }

  lemma CoherentAt(t: seq<Event>, host: Host, cfg: Config, i: nat)
    requires Safe(t, host, cfg) && i <= |t|
    ensures Coherent(Watched(t[..i], host))
  {
    SafePrefix(t, host, cfg, i);
    OperatingMeans(t, host, cfg, i);
  }

  lemma NoSessionAgain(m: Watch, e: Event, cfg: Config)
    requires !m.session && 0 < m.resets && Coherent(m) && Allowed(m, e, cfg)
    ensures !After(m, e).session && 0 < After(m, e).resets && !Waits(m, e)
  {
  }

  lemma NoOtherWaitYet(t: seq<Event>, host: Host, s: int, i: int)
    requires 0 <= s < i < |t| && NoOtherWait(t, host, s, i)
    requires t[i].host == host ==> !Waits(Watched(t[..i], host), t[i])
    ensures NoOtherWait(t, host, s, i + 1)
  {
  }

  lemma {:induction false} NoMoreSessions(t: seq<Event>, host: Host, cfg: Config, l: int, i: int)
    requires Safe(t, host, cfg) && 0 <= l < i <= |t| && t[l].host == host && t[l].HmcLogoff?
    requires 0 < Watched(t[..l], host).resets
    ensures !Watched(t[..i], host).session && 0 < Watched(t[..i], host).resets
    ensures NoOtherWait(t, host, l, i)
    decreases i
  {
    WatchedStep(t, host, i);
    if l + 1 < i {
      NoMoreSessions(t, host, cfg, l, i - 1);
      if t[i - 1].host == host {
        SafeAt(t, host, cfg, i - 1);
        CoherentAt(t, host, cfg, i - 1);
        NoSessionAgain(Watched(t[..i - 1], host), t[i - 1], cfg);
      }
      NoOtherWaitYet(t, host, l, i - 1);
    }
  }

  /** In a safe run a host is rebooted over SSH only if its newest check did not fail. */
  lemma SilentHostsAreNotRebooted(t: seq<Event>, host: Host, cfg: Config, p: int, i: int)
    requires Safe(t, host, cfg) && 0 <= i < |t| && t[i].host == host && t[i].SshReboot?
    ensures !SilentFrom(t, host, p, i)
  {
    SafeAt(t, host, cfg, i);
    if SilentFrom(t, host, p, i) {
      StaysSilent(t, host, p, i);
    }
  }

  lemma {:induction false} StaysSilent(t: seq<Event>, host: Host, p: int, i: int)
    requires SilentFrom(t, host, p, i)
    ensures !Watched(t[..i], host).sight.silence.NotSilent?
    decreases i
  {
    assert t[..i][..i - 1] == t[..i - 1];
    if p < i - 1 {
      StaysSilent(t, host, p, i - 1);
    }
  }

  lemma {:induction false} SafePrefix(t: seq<Event>, host: Host, cfg: Config, i: nat)
    requires Safe(t, host, cfg) && i <= |t|
    ensures Safe(t[..i], host, cfg)
  {
    if i < |t| {
      SafePrefix(t[..|t| - 1], host, cfg, i);
      assert t[..|t| - 1][..i] == t[..i];
    } else {
      assert t[..i] == t;
    }
  }

  /** In a safe run each reboot or reset of a host has a record of its own before it. */
  lemma RebootsAreRecorded(t: seq<Event>, host: Host, cfg: Config, i: int)
    requires Safe(t, host, cfg) && 0 <= i < |t| && t[i].host == host && (t[i].SshReboot? || t[i].HmcReset?)
    ensures exists r :: RecordedAt(t, host, r, i)
  {
    SafeAt(t, host, cfg, i);
    AnnouncedMeans(t, host, i);
  }

  lemma {:induction false} WatchOnlyGrows(t: seq<Event>, host: Host, i: int, j: int)
    requires 0 <= i <= j <= |t|
    ensures Watched(t[..i], host).rebootedAt.Some? ==> Watched(t[..j], host).rebootedAt.Some?
    ensures Watched(t[..i], host).resets <= Watched(t[..j], host).resets
    decreases j
  {
    if i < j {
      WatchOnlyGrows(t, host, i, j - 1);
      assert t[..j][..j - 1] == t[..j - 1];
    }
  }

  /** In a safe run a host gets at most one reboot over SSH and one reset over the HMC, the reboot first. */
  lemma AtMostOneOfEach(t: seq<Event>, host: Host, cfg: Config, i: int, j: int)
    requires Safe(t, host, cfg) && 0 <= i < j < |t| && t[i].host == host && t[j].host == host
    ensures !(t[i].SshReboot? && t[j].SshReboot?)
    ensures !(t[i].HmcReset? && t[j].HmcReset?)
    ensures !(t[i].HmcReset? && t[j].SshReboot?)
  {
    SafeAt(t, host, cfg, j);
    WatchOnlyGrows(t, host, i + 1, j);
    assert t[..i + 1][..i] == t[..i];
  }

  /** A safe dry run only looks. */
  lemma DryRunsOnlyLook(t: seq<Event>, host: Host, cfg: Config, i: nat)
    requires Safe(t, host, cfg) && cfg.dryRun && i < |t| && t[i].host == host
    ensures Harmless(t[i])
  {
    SafeAt(t, host, cfg, i);
  }

  // ---------------------------------------------------------------- all host threads together

  /** The events of one host in the trace of all threads. */
  function Own(t: seq<Event>, host: Host): seq<Event> {
    if t == [] then []
    else Own(t[..|t| - 1], host) + if t[|t| - 1].host == host then [t[|t| - 1]] else []
  }

  lemma {:induction false} WatchedOwn(t: seq<Event>, host: Host)
    ensures Watched(Own(t, host), host) == Watched(t, host)
    ensures forall e | e in Own(t, host) :: e.host == host
  {
    if t != [] {
      WatchedOwn(t[..|t| - 1], host);
      WatchedSnoc(Own(t[..|t| - 1], host), t[|t| - 1], host);
      if t[|t| - 1].host != host {
        assert Own(t, host) == Own(t[..|t| - 1], host);
      }
    }
  }

  ghost predicate IsLocal(t: seq<Event>, host: Host, cfg: Config) {
    Safe(t, host, cfg) <==> Safe(Own(t, host), host, cfg)
  }

  lemma OwnSnoc(t: seq<Event>, e: Event, host: Host, cfg: Config)
    requires IsLocal(t, host, cfg)
    ensures IsLocal(t + [e], host, cfg)
  {
    assert (t + [e])[..|t|] == t;
    SafeSnoc(t, e, host, cfg);
    if e.host == host {
      WatchedOwn(t, host);
      SafeSnoc(Own(t, host), e, host, cfg);
      assert Own(t + [e], host) == Own(t, host) + [e];
    } else {
      assert Own(t + [e], host) == Own(t, host);
    }
  }

  lemma {:induction false} AllAreLocal(t: seq<Event>, host: Host, cfg: Config)
    ensures IsLocal(t, host, cfg)
  {
    if t != [] {
      var n := |t| - 1;
      AllAreLocal(t[..n], host, cfg);
      OwnSnoc(t[..n], t[n], host, cfg);
      TwoParts(t, n);
      assert t[n..] == [t[n]];
    }
  }

  /** However the host threads interleave, the whole run is safe for a host exactly if its own thread is. */
  lemma SafetyIsLocal(t: seq<Event>, host: Host, cfg: Config)
    ensures Safe(t, host, cfg) <==> Safe(Own(t, host), host, cfg)
  {
    AllAreLocal(t, host, cfg);
  }
}
