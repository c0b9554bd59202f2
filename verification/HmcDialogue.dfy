/** The dialogue with the HMC, judged by its answers alone: which answers say that an operation was done or a status
    came, and how far a sequence of answers brought the partition. */
module HmcDialogue {
  import opened PyText
  import opened HostEvents

  const HTTP_ACCEPTED := 202
  const HTTP_NO_CONTENT := 204
  const JOB_STATUS_OK := 204

  /** A result or an exception: `HostUnreachableError`, one that `hmc_force_reboot` handles (`OSError`, `HmcError`,
      `KeyError`), or one that nothing handles and that ends the thread. */
  datatype Res<+T> = Ok(value: T) | Unreachable | Failed | Crashed {
    predicate IsFailure() {
      !Ok?
    }

    function PropagateFailure<U>(): Res<U>
      requires IsFailure()
    {
      match this
      case Unreachable => Unreachable
      case Failed => Failed
      case Crashed => Crashed
    }
  }

  /** A JSON object from the HMC; a missing member is a `KeyError`. */
  datatype Reply = Reply(
    session: Option<string>, status: Option<string>, jobUri: Option<string>, jobStatus: Option<int>,
    loadAddress: Option<string>, name: Option<string>)

  const EMPTY_REPLY := Reply(None, None, None, None, None, None)

  /** What came of a request: a status with the JSON object of the body, if there is one. In a dialogue `Unreachable`
      stands for the deadline of a wait that passed. */
  type Answer = Res<(int, Option<Reply>)>

  function Body(a: Answer): Reply {
    if a.Ok? && a.value.1.Some? then a.value.1.value else EMPTY_REPLY
  }

  /** A status came, and not the expected one. */
  predicate NotYet(a: Answer, expected: string) {
    a.Ok? && Body(a).status.Some? && Body(a).status.value != expected
  }

  /** Polled until the status was the expected one. */
  ghost predicate StatusCame(answers: seq<Answer>, expected: string) {
    && answers != [] && (forall k | 0 <= k < |answers| - 1 :: NotYet(answers[k], expected))
    && answers[|answers| - 1].Ok? && Body(answers[|answers| - 1]).status == Some(expected)
  }

  /** Polled until an answer came that is no status, or none came, or the deadline passed. */
  ghost predicate StatusFailed(answers: seq<Answer>, expected: string) {
    && answers != [] && (forall k | 0 <= k < |answers| - 1 :: NotYet(answers[k], expected))
    && (answers[|answers| - 1].Ok? ==> Body(answers[|answers| - 1]).status.None?)
  }

  /** How many of the answers came: the passed deadline is none. */
  function Requested(answers: seq<Answer>): nat {
    if answers != [] && answers[|answers| - 1].Unreachable? then |answers| - 1 else |answers|
  }

  /** The job completed, with the code for success. */
  ghost predicate JobDone(answers: seq<Answer>) {
    StatusCame(answers, "complete") && Body(answers[|answers| - 1]).jobStatus == Some(JOB_STATUS_OK)
  }

  /** The operation was started as a job. */
  predicate Accepted(reply: Answer) {
    reply.Ok? && reply.value.0 == HTTP_ACCEPTED && Body(reply).jobUri.Some?
  }

  /** The operation was done at once, or accepted as a job that was done. */
  ghost predicate OperationDone(answers: seq<Answer>) {
    && answers != [] && answers[0].Ok?
    && if answers[0].value.0 == HTTP_NO_CONTENT then |answers| == 1
       else Accepted(answers[0]) && JobDone(answers[1..])
  }

  /** The job never completed, or it did without success. */
  ghost predicate JobFailed(answers: seq<Answer>) {
    StatusFailed(answers, "complete") || (StatusCame(answers, "complete") && !JobDone(answers))
  }

  /** The operation was refused, or accepted as a job that failed. */
  ghost predicate OperationFailed(answers: seq<Answer>) {
    answers != [] &&
    var reply := answers[0];
    if Accepted(reply) then JobFailed(answers[1..])
    else |answers| == 1 && (reply.Ok? ==> reply.value.0 != HTTP_NO_CONTENT)
  }

  /** No start of the answers says that the status came. */
  ghost predicate NeverCame(answers: seq<Answer>, expected: string) {
    forall k | 0 <= k <= |answers| :: !StatusCame(answers[..k], expected)
  }

  ghost predicate JobNeverDone(answers: seq<Answer>) {
    forall k | 0 <= k <= |answers| :: !JobDone(answers[..k])
  }

  /** No start of the answers says that the operation was done. */
  ghost predicate NeverDone(answers: seq<Answer>) {
    forall k | 0 <= k <= |answers| :: !OperationDone(answers[..k])
  }

  /** The partition was loaded and then found operating. */
  ghost predicate LoadDone(answers: seq<Answer>) {
    exists load, status :: answers == load + status && OperationDone(load) && StatusCame(status, "operating")
  }

  /** The properties of the partition came, with its name. */
  predicate Named(props: Answer) {
    props.Ok? && Body(props).name.Some?
  }

  predicate LoggedOn(logon: Answer) {
    logon.Ok? && Body(logon).session.Some?
  }

  /** The partition was reset and loaded. */
  ghost predicate WorkDone(answers: seq<Answer>) {
    exists reset, rest :: answers == reset + rest && OperationDone(reset) && LoadDone(rest)
  }

  /** The partition was read, with a load address, reset and loaded. */
  ghost predicate ResetAndLoaded(answers: seq<Answer>) {
    answers != [] && Named(answers[0]) && Body(answers[0]).loadAddress.Some? && WorkDone(answers[1..])
  }

  /** That, between a logon that gave a session and a logoff. */
  ghost predicate ForcedThrough(answers: seq<Answer>) {
    2 < |answers| && LoggedOn(answers[0]) && ResetAndLoaded(answers[1..|answers| - 1])
  }

  // ---------------------------------------------------------------- how far it went

  /** What the answers since the load was asked for must be, for each stage the partition can be left in. */
  ghost predicate LoadOutcome(answers: seq<Answer>, stage: Stage) {
    match stage
    case Loading => OperationFailed(answers)
    case Loaded =>
      exists load, status :: answers == load + status && OperationDone(load) && StatusFailed(status, "operating")
    case Operating(_) => LoadDone(answers)
    case _ => false
  }

  /** What they must be since the reset, if the load was asked for. */
  ghost predicate WorkOutcome(answers: seq<Answer>, stage: Stage) {
    exists reset, rest :: answers == reset + rest && OperationDone(reset) && LoadOutcome(rest, stage)
  }

  /** What they must be since the reset, for a partition with a load address or without one. */
  ghost predicate ResetOutcome(answers: seq<Answer>, stage: Stage, loadable: bool) {
    && answers != []
    && match stage
       case Untouched => false
       case Resetting => OperationFailed(answers)
       case Cleared => !loadable && OperationDone(answers)
       case _ => loadable && WorkOutcome(answers, stage)
  }

  /** What the answers of a reset and load must be: it went as far as the answers let it, and no further. */
  ghost predicate Outcome(answers: seq<Answer>, stage: Stage) {
    && answers != []
    && if stage.Untouched? then |answers| == 1 && !Named(answers[0])
       else Named(answers[0]) && ResetOutcome(answers[1..], stage, Body(answers[0]).loadAddress.Some?)
  }

  /** The same for a whole session: one answer to a logon that failed, else the logoff comes last. */
  ghost predicate HmcTried(answers: seq<Answer>, stage: Stage) {
    && answers != []
    && if LoggedOn(answers[0]) then 2 < |answers| && Outcome(answers[1..|answers| - 1], stage)
       else |answers| == 1 && stage.Untouched?
  }

  // ---------------------------------------------------------------- the answers decide

  lemma CameOnce(a: seq<Answer>, b: seq<Answer>, expected: string)
    requires StatusCame(a, expected) && StatusCame(b, expected) && a <= b
    ensures a == b
  {
    assert |a| < |b| ==> NotYet(b[|a| - 1], expected);
  }

  lemma DoneOnce(a: seq<Answer>, b: seq<Answer>)
    requires OperationDone(a) && OperationDone(b) && a <= b
    ensures a == b
  {
    if a[0].value.0 != HTTP_NO_CONTENT {
      assert a[1..] <= b[1..];
      CameOnce(a[1..], b[1..], "complete");
      assert |a| == |b|;
    }
  }

  /** Waiting answers and a last one that is not it: the status never came. */
  lemma WaitedInVain(answers: seq<Answer>, expected: string)
    requires answers != [] && forall k | 0 <= k < |answers| - 1 :: NotYet(answers[k], expected)
    requires !StatusCame(answers, expected)
    ensures NeverCame(answers, expected)
  {
    forall k | 0 <= k <= |answers| ensures !StatusCame(answers[..k], expected) {
      if k == |answers| {
        assert answers[..k] == answers;
      } else if 0 < k {
        assert answers[..k][k - 1] == answers[k - 1];
      }
    }
  }

  lemma StatusNeverCame(answers: seq<Answer>, expected: string)
    requires StatusFailed(answers, expected)
    ensures NeverCame(answers, expected)
  {
    WaitedInVain(answers, expected);
  }

  lemma JobInVain(answers: seq<Answer>)
    requires JobFailed(answers)
    ensures JobNeverDone(answers)
  {
    if StatusFailed(answers, "complete") {
      StatusNeverCame(answers, "complete");
    }
    forall k | 0 <= k <= |answers| ensures !JobDone(answers[..k]) {
      if JobDone(answers[..k]) {
        CameOnce(answers[..k], answers, "complete");
      }
    }
  }

  /** A reply that does not say it alone. */
  lemma NoJob(reply: Answer)
    requires reply.Ok? ==> reply.value.0 != HTTP_NO_CONTENT
    ensures NeverDone([reply])
  {
    forall k | 0 <= k <= 1 ensures !OperationDone([reply][..k]) {
      if k == 1 {
        assert [reply][..1][1..] == [];
      }
    }
  }

  lemma OperationInVain(reply: Answer, polled: seq<Answer>)
    requires JobNeverDone(polled)
    requires reply.Ok? ==> reply.value.0 != HTTP_NO_CONTENT
    ensures NeverDone([reply] + polled)
  {
    var answers := [reply] + polled;
    forall k | 0 <= k <= |answers| ensures !OperationDone(answers[..k]) {
      if 0 < k {
        assert answers[..k][1..] == polled[..k - 1];
      }
    }
  }

  lemma NoJobFollows(reply: Answer)
    requires !Accepted(reply)
    ensures if reply.Ok? && reply.value.0 == HTTP_NO_CONTENT then OperationDone([reply]) else OperationFailed([reply])
  {
  }

  lemma JobFollows(reply: Answer, polled: seq<Answer>)
    requires Accepted(reply)
    ensures JobDone(polled) ==> OperationDone([reply] + polled)
    ensures JobFailed(polled) ==> OperationFailed([reply] + polled)
  {
    assert ([reply] + polled)[1..] == polled;
  }

  /** Answers of a failed operation: no start of them is of one that was done. */
  lemma FailedNeverDone(answers: seq<Answer>)
    requires OperationFailed(answers)
    ensures NeverDone(answers)
  {
    var reply := answers[0];
    if Accepted(reply) {
      JobInVain(answers[1..]);
      OperationInVain(reply, answers[1..]);
      assert answers == [reply] + answers[1..];
    } else {
      NoJob(reply);
      assert answers == [reply];
    }
  }

  /** Two ways to cut the same answers behind a done operation are one. */
  lemma SameCut(reset: seq<Answer>, rest: seq<Answer>, other: seq<Answer>, more: seq<Answer>)
    requires reset + rest == other + more && OperationDone(reset) && OperationDone(other)
    ensures reset == other && rest == more
  {
    var all := reset + rest;
    assert reset == all[..|reset|] && other == all[..|other|];
    if |reset| <= |other| {
      assert reset <= other;
      DoneOnce(reset, other);
    } else {
      assert other <= reset;
      DoneOnce(other, reset);
    }
    assert rest == all[|reset|..] && more == all[|other|..];
  }

  lemma NeverDoneNoStart(answers: seq<Answer>, start: seq<Answer>, rest: seq<Answer>)
    requires NeverDone(answers) && answers == start + rest
    ensures !OperationDone(start)
  {
    assert start == answers[..|start|];
  }

  lemma NeverCameAtAll(answers: seq<Answer>, expected: string)
    requires NeverCame(answers, expected)
    ensures !StatusCame(answers, expected)
  {
    assert answers[..|answers|] == answers;
  }

  lemma LoadDecides(answers: seq<Answer>, stage: Stage)
    requires LoadOutcome(answers, stage)
    ensures LoadDone(answers) <==> stage.Operating?
  {
    if LoadDone(answers) && !stage.Operating? {
      var load, status :| answers == load + status && OperationDone(load) && StatusCame(status, "operating");
      if stage.Loading? {
        FailedNeverDone(answers);
        NeverDoneNoStart(answers, load, status);
      } else {
        var other, more :|
          answers == other + more && OperationDone(other) && StatusFailed(more, "operating");
        StatusNeverCame(more, "operating");
        NeverCameAtAll(more, "operating");
        SameCut(load, status, other, more);
      }
    }
  }

  lemma WorkDecides(answers: seq<Answer>, stage: Stage)
    requires WorkOutcome(answers, stage)
    ensures WorkDone(answers) <==> stage.Operating?
  {
    var reset, rest :| answers == reset + rest && OperationDone(reset) && LoadOutcome(rest, stage);
    LoadDecides(rest, stage);
    if WorkDone(answers) {
      var other, more :| answers == other + more && OperationDone(other) && LoadDone(more);
      SameCut(reset, rest, other, more);
    }
  }

  lemma NeverDoneNoWork(answers: seq<Answer>)
    requires NeverDone(answers)
    ensures !WorkDone(answers)
  {
    forall reset, rest | answers == reset + rest ensures !OperationDone(reset) {
      NeverDoneNoStart(answers, reset, rest);
    }
  }

  /** The answers say success if and only if the partition was left operating. */
  lemma OutcomeDecides(answers: seq<Answer>, stage: Stage)
    requires Outcome(answers, stage)
    ensures ResetAndLoaded(answers) <==> stage.Operating?
  {
    match stage {
      case Untouched =>
      case Resetting =>
        FailedNeverDone(answers[1..]);
        NeverDoneNoWork(answers[1..]);
      case Cleared =>
      case _ =>
        WorkDecides(answers[1..], stage);
    }
  }

  lemma LoadEnded(load: seq<Answer>, status: seq<Answer>, since: real)
    requires OperationDone(load)
    ensures StatusCame(status, "operating") ==> LoadOutcome(load + status, Operating(since))
    ensures StatusFailed(status, "operating") ==> LoadOutcome(load + status, Loaded)
  {
  }

  lemma NotRead(props: Answer)
    requires !Named(props)
    ensures Outcome([props], Untouched) && !ResetAndLoaded([props])
  {
  }

  lemma WentOn(reset: seq<Answer>, rest: seq<Answer>, stage: Stage)
    requires OperationDone(reset) && LoadOutcome(rest, stage)
    ensures ResetOutcome(reset + rest, stage, true)
  {
  }

  lemma ReadAndReset(props: Answer, work: seq<Answer>, stage: Stage)
    requires Named(props) && ResetOutcome(work, stage, Body(props).loadAddress.Some?)
    ensures Outcome([props] + work, stage) && (ResetAndLoaded([props] + work) <==> stage.Operating?)
  {
    assert ([props] + work)[1..] == work;
    OutcomeDecides([props] + work, stage);
  }

  /** And a session forced the host through if and only if it was. */
  lemma TriedDecides(answers: seq<Answer>, stage: Stage)
    requires HmcTried(answers, stage)
    ensures ForcedThrough(answers) <==> stage.Operating?
  {
    if 2 < |answers| && LoggedOn(answers[0]) {
      OutcomeDecides(answers[1..|answers| - 1], stage);
    }
  }

  lemma NoLogon(logon: Answer)
    requires !LoggedOn(logon)
    ensures HmcTried([logon], Untouched) && !ForcedThrough([logon])
  {
  }

  lemma WorkedInside(logon: Answer, work: seq<Answer>, logoff: Answer, stage: Stage)
    requires LoggedOn(logon) && Outcome(work, stage)
    ensures var answers := [logon] + work + [logoff];
      HmcTried(answers, stage) && (ForcedThrough(answers) <==> stage.Operating?)
  {
    var answers := [logon] + work + [logoff];
    assert answers[0] == logon && answers[1..|answers| - 1] == work;
    TriedDecides(answers, stage);
  }
}
