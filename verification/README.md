# Recovery protocol and log condensation

A Dafny model of two parts of the openQA helper scripts, with proofs of what they are for.

**The zombie reaper's recovery protocol** (`s390x-qemu-zombie-reaper.py`). `RebootMap.dfy` takes `record_reboot` apart
into the steps of any number of threads that share the lock, the map file and one temporary file, with failing reads
and writes, and proves an invariant of every interleaving. `HostEvents.dfy` says what may happen to a host after what;
`HmcDialogue.dfy` judges a dialogue with the HMC by its answers alone; `HostRecovery.dfy` is the code of one host thread
as a class, from detection to the restart of the jobs, which writes a trace of timed events that is proved to obey these
rules whatever the commands, the HMC and the clock answer, and to give a host up only after all was tried.

**The condensation engine of `openqa_llm_investigate`.** Each loop is a method, proved against a description that has no
loop, and the lemmas beside it say what that description preserves.

| file | models |
|---|---|
| `BodyBuffer.dfy` | the capped stream of a job file and the fetch cache |
| `StackFrames.dfy` | trimming runs of stack frames, squeezing blank lines |
| `CondenseLog.dfy` | the log condenser with its poll accumulator |
| `Proximity.dfy` | grouping positions by distance, shared by failing steps and fatal lines |
| `FailingCluster.dfy` | failed modules, failing clusters, retries, the cluster that failed a module |
| `StepContext.dfy` | the failing step, the steps around a cluster, the marker and the omission counts |
| `LogRange.dfy` | finding lines and ranges in logs, fatal events |
| `CommitPaths.dfy` | git's abbreviated names against paths, files of stack traces, marked commits |
| `RunHistory.dfy` | failure groups on a shared fetch budget, counts of runs, earlier reviews |
| `PyText.dfy`, `Ordered.dfy` | the string, dictionary and sorting operations of Python that the code leans on |

Regular expressions are parameters (functions on lines) or fields of a step; a step is known by its position in the
module's details, as the code knows it by identity. A command, a request or a file operation may return anything: it is
a nondeterministic value in the model. Times are real numbers.

Where the code does not do what one might expect, the exact condition is proved: a failed read of the map loses updates
(`MapInEveryInterleaving`, with an example in `FailedReadLosesAnUpdate`); an odd cap loses a byte of a body of exactly
its size and a cap below two is none (`WholeWithinTheCap`, `CutBeyondTheCap`); the omitted bytes do not include partial
lines (`NoteCountsTheBuffers`); an odd line limit announces one line too few (`SpanIsAccounted`); a name that git cut
is taken for the file of another path exactly if the two paths share the tail that fits the column, or one of them is
literally the cut name of the other (`SameNames`, `TakenForAnother`, with families of such paths in `CutNamesCollide`).

## Model

| member | source | states |
|---|---|---|
| `RebootMap.StepKeepsInv` | s390x-qemu-zombie-reaper.py:255-277 | Any step of any thread (lock, read, stamp, open, fill or rename the temporary file, unlock, failures included) keeps the invariant: the lock has one holder, what the holder is about to write is the map in the file plus its own entry, recorded times do not fall, the file is what the finished calls one after the other would make it, and each thread follows its program |
| `RebootMap.MapInEveryInterleaving` | s390x-qemu-zombie-reaper.py:266-277 | For any number of threads, calls and failures: the newest recorded time of a host is in the map if and only if no later call replaced the file after a failed read; it is the largest recorded for that host; entries nobody recorded survive under the same condition |
| `RebootMap.NoLostUpdate` | s390x-qemu-zombie-reaper.py:255-277 | If every file operation succeeds, the map ends up with the last recorded time of every host in the programs and leaves all other entries alone, in every interleaving |
| `RebootMap.FailedReadLosesAnUpdate` | s390x-qemu-zombie-reaper.py:259-271 | The condition on reads is needed: a concrete run in which every write succeeds and one failed read drops another host's time |
| `RebootMap.OnlyTheHolderWrites` | s390x-qemu-zombie-reaper.py:270-275 | The lock holder alone opens, fills or renames the temporary file, whether or not that works, and only these steps change either file |
| `RebootMap.ReaderSeesASnapshot` | s390x-qemu-zombie-reaper.py:255-263 | A reader without the lock sees a whole map: the one after some number of finished calls between the start and the end of its own |
| `RebootMap.LockComesFree` | s390x-qemu-zombie-reaper.py:270-277 | The holder can always take a step, every step of anyone leaves it no further from the release, and its own bring it closer |
| `HostEvents.RestartsFollowAnAnswer` | s390x-qemu-zombie-reaper.py:456-497 | In a run that obeys the rules a job restart comes at least the stability delay after a probe that the host answered, without a reboot, reset or load of it since |
| `HostEvents.ResetsFollowSilence` | s390x-qemu-zombie-reaper.py:422-430 | An HMC reset comes after a check that the host failed, with none that got through since; after an SSH reboot that check is a probe at least the boot wait later than the reboot |
| `HostEvents.GivingUpFollowsSilence` | s390x-qemu-zombie-reaper.py:422-430 | A run that gave up before any reset, or after the partition got to operating, ends after a check that the host failed, with none that got through since; without a reset that check is at least the boot wait after the SSH reboot, if there was one; after a load it is a probe at least the boot wait after the partition got to operating |
| `HostEvents.WaitsArePolled` | s390x-qemu-zombie-reaper.py:222-252 | In a run that obeys the rules a host that is waited for is probed again and again: from the start of a wait (a lost connection, an SSH reboot, the logoff after a load) to its newest probe no moment is followed by more than one pace, the longer of the check interval and the time to send a reboot plus the time a probe takes, without a probe |
| `HostEvents.BootWaitIsPolled` | s390x-qemu-zombie-reaper.py:422-430 | A host that is reset after an SSH reboot, or given up without a reset, was probed at that pace from the reboot until the boot wait was over |
| `HostEvents.LoadWaitIsPolled` | s390x-qemu-zombie-reaper.py:422-430 | A host that is given up after a load was probed at that pace from the logoff until the boot wait after the partition's getting to operating was over |
| `HostEvents.SilentHostsAreNotRebooted` | s390x-qemu-zombie-reaper.py:475-488 | No SSH reboot of a host whose newest check failed |
| `HostEvents.RebootsFollowAFinding` | s390x-qemu-zombie-reaper.py:537-602 | In a run that obeys the rules an SSH reboot comes only after the host was found ill: an unhealthy libvirt, or a process in two scans at least ten seconds apart |
| `HostEvents.RebootsAreRecorded` | s390x-qemu-zombie-reaper.py:422-453 | Every SSH reboot and every HMC reset has a record of its own before it |
| `HostEvents.AtMostOneOfEach` | s390x-qemu-zombie-reaper.py:422-497 | At most one SSH reboot and one HMC reset for a host, and no reboot after a reset |
| `HostEvents.DryRunsOnlyLook` | s390x-qemu-zombie-reaper.py:445-497 | A dry run holds nothing but scans, health checks and probes: no record, reboot, HMC event or restart |
| `HostEvents.SafetyIsLocal` | s390x-qemu-zombie-reaper.py:605-615 | With all host threads interleaved in any way, the whole trace obeys the rules for a host if and only if the events of its own thread do |
| `HostRecovery.HostRun.RecordReboot` | s390x-qemu-zombie-reaper.py:266-277 | Exactly one entry of the concurrent model: saved if and only if all writes work, with an empty map as its base if the read fails; a failed write leaves the file alone |
| `HostRecovery.HostRun.ReplaceFile` | s390x-qemu-zombie-reaper.py:271-277 | The states of both files for every way the writes can fail |
| `HostRecovery.HostRun.RebootDeadline` | s390x-qemu-zombie-reaper.py:285-289 | Counts from the recorded reboot if it is a number, else from now |
| `HostRecovery.NewestRecordCounts` | s390x-qemu-zombie-reaper.py:266-289 | The reboot deadline of the next run goes by the newest record of this one that was written |
| `HostRecovery.RecordsKeepOthers` | s390x-qemu-zombie-reaper.py:266-277 | A record that is not written changes nothing, and the others leave all other hosts' entries alone if the map could be read |
| `HostRecovery.HostRun.WaitForHost` | s390x-qemu-zombie-reaper.py:222-252 | Polls: the first probe at once, each further one a pause after the failed one before it, nothing else, until the first success; gives up only at or after the deadline, is back by `max(start, deadline + interval) + ssh_timeout + 5`, with a bounded number of probes |
| `HostRecovery.HostRun.ZombieCandidates` | s390x-qemu-zombie-reaper.py:124-138 | A time-out or exit code 255 of the detector means unreachable, any other end its output |
| `HostRecovery.HostRun.LibvirtHealth` | s390x-qemu-zombie-reaper.py:500-528 | Unreachable if and only if exit code 255; healthy if and only if exit code 0 without an error shown |
| `HostRecovery.PausesMultiply` | s390x-qemu-zombie-reaper.py:233-252 | The bound on the probes as a product: all pauses but the last two probes' fit between start and deadline |
| `HostRecovery.HostRun.PersistentZombies` | s390x-qemu-zombie-reaper.py:537-549 | A process counts only if two scans at least ten seconds apart found it; an unreachable host is reported as such; it takes no longer than the pause and the two scans |
| `HostRecovery.HostRun.FindCritical` | s390x-qemu-zombie-reaper.py:537-562 | What each outcome must have seen, down to exit codes: persistent zombies, or no zombies and an unhealthy libvirt, or neither, or an unanswered command |
| `HostRecovery.HostRun.CheckHost` | s390x-qemu-zombie-reaper.py:565-579 | A finding is what the last checks saw; a host is down only if its newest check failed, which before its reboot deadline needs an answered probe and a connection lost again, and else a probe that failed when it was over; nothing is done to the host |
| `HostRecovery.HostRun.CheckAgain` | s390x-qemu-zombie-reaper.py:573-579 | After a lost connection the host is polled until the reboot deadline: a finding is a new diagnosis, and without one a probe failed when the deadline was over or the host answered and was lost again |
| `HostRecovery.HostRun.RunningJobs` | s390x-qemu-zombie-reaper.py:192-219 | The jobs of the workers whose class mentions the short name, each once; none without a list; dies only if the command cannot be run |
| `HostRecovery.HostRun.IssueReboot` | s390x-qemu-zombie-reaper.py:445-453 | Records, then reboots, once, at the recorded time; the reboot map then has that time, as far as the file operations work; a dry run does nothing |
| `HostRecovery.HostRun.RecoverHost` | s390x-qemu-zombie-reaper.py:422-430 | True if and only if the last thing that happened to the host is a probe that it answered just now; giving up means that it is silent after all was tried: a failed probe when the wait after the reboot was over, or a host judged down, and with the fallback a reset and load that went as far as the HMC let it, and if the partition got to operating a failed probe when the wait after that was over; at most one reset, only with the fallback and with a record of its own in the map |
| `HostRecovery.HostRun.HmcForceReboot` | s390x-qemu-zombie-reaper.py:399-419 | Only for a host that stayed away; if an HMC is configured, true if and only if the answers show a logon, a done reset, a done load and an operating partition; else the stage the partition is left in is as far as the answers let it come; after a logon a logoff is always attempted |
| `HostRecovery.HostRun.RecoverForJobs` | s390x-qemu-zombie-reaper.py:456-472 | True only for a host that answered a probe, with jobs exactly the stability delay ago, without jobs just now; false only for a host that was given up as in `RecoverHost`; a dry run claims success and changes nothing |
| `HostRecovery.HostRun.RestartJobs` | s390x-qemu-zombie-reaper.py:490-497 | The jobs are restarted in order and once each, with no more than the command timeout between two, all of them unless a command cannot be run; none in a dry run |
| `HostRecovery.HostRun.TriggerActions` | s390x-qemu-zombie-reaper.py:475-497 | All jobs are restarted in order if the host came back, none if not; a host with jobs or a down one that is not answering at the end was given up as in `RecoverHost`, any other is rebooted and left alone; a host that is down gets no SSH reboot, any other exactly one, at its first recorded time; the reboot map is the old one with this run's records, as far as the file operations work; a run dies only of an exception that nothing handles |
| `HostRecovery.HostRun.HandleHost` | s390x-qemu-zombie-reaper.py:582-602 | The whole run of one host thread obeys the rules whatever the world answers; without a finding the last checks showed a healthy host, and nothing is done then or in a dry run; exactly the listed jobs, each restarted once if the host came back, and if it did not after a critical finding with jobs or a host that is down, then all was tried; the reboot map at the end is the old one with this run's records; a run dies only of an exception that nothing handles |
| `HostRecovery.HmcSession.Enter` | s390x-qemu-zombie-reaper.py:314-320 | A session is open, with the token of the answer, if and only if the answer has one |
| `HostRecovery.HmcSession.Exit` | s390x-qemu-zombie-reaper.py:322-325 | A logoff is attempted, and its failures that are handled are ignored |
| `HostRecovery.HmcSession.WaitForJob` | s390x-qemu-zombie-reaper.py:357-366 | Success if and only if the answers are waiting ones followed by a completed job with the code for success; else they are waiting ones followed by a completed job without it, a failed request, no status, or the deadline that passed; five seconds of sleep between two requests |
| `HostRecovery.HmcSession.WaitForLparStatus` | s390x-qemu-zombie-reaper.py:369-374 | Success if and only if the answers are waiting ones followed by the expected status; else they are followed by a failed request, no status, or the deadline that passed; ten seconds of sleep between two requests |
| `HostRecovery.HmcSession.Operate` | s390x-qemu-zombie-reaper.py:348-355 | The operation is started exactly once; success if and only if the answers say that it was done at once or that its job was; else that it was refused or that its job failed, and no start of the answers says otherwise |
| `HostRecovery.HmcSession.ResetAndLoad` | s390x-qemu-zombie-reaper.py:377-383 | Success if and only if the answers show the properties with a name and a load address, a done reset, a done load and operating status, in that order; for every other dialogue the stage in which the partition is left, as without a load address a reset that no load follows; at most one reset on every way out |
| `HmcDialogue.OutcomeDecides` | s390x-qemu-zombie-reaper.py:377-383 | The outcome says which answers leave the partition in which stage; of all answers exactly those of a reset and load that got through leave it operating, however they are cut into operations |
| `HmcDialogue.TriedDecides` | s390x-qemu-zombie-reaper.py:399-419 | The same for the whole session with its logon and logoff |
| `HmcDialogue.FailedNeverDone` | s390x-qemu-zombie-reaper.py:348-366 | No start of the answers of a failed operation is of one that was done |
| `HmcDialogue.SameCut` | s390x-qemu-zombie-reaper.py:348-366 | Two ways to cut the same answers behind an operation that was done are the same: no start of such answers says so already |
| `BodyBuffer.CappedStream` | openqa_llm_investigate/http.py:82-99 | The text depends on the concatenated body only; after each chunk the two buffers together hold no more than a cap of two or more |
| `BodyBuffer.WholeWithinTheCap` | openqa_llm_investigate/http.py:94-95 | A body within the cap comes back unchanged if and only if it is not exactly as long as an odd cap above one, which loses its middle byte |
| `BodyBuffer.CutBeyondTheCap` | openqa_llm_investigate/http.py:84-96 | A longer body keeps its first and last half of the cap and the omitted number is the length of the middle; with a cap below two everything stays |
| `BodyBuffer.CutShowsWholeLines` | openqa_llm_investigate/http.py:96-99 | With a newline in both parts the text is the first k and the last m lines of the body, whole, where k and m are the newlines kept |
| `BodyBuffer.NoteCountsTheBuffers` | openqa_llm_investigate/http.py:96-99 | The announced number accounts for all missing bytes if and only if no partial line was dropped at the cuts |
| `BodyBuffer.FetchedOnce` | openqa_llm_investigate/http.py:45-111 | Over any calls, of either kind and whatever the server answers, a cached text never changes and is not requested again |
| `BodyBuffer.AskedAgain` | openqa_llm_investigate/http.py:45-56 | As long as every call for a path fails and none keeps the failure, the path stays out of the cache and each of them requests it |
| `BodyBuffer.FirstKeeperDecides` | openqa_llm_investigate/http.py:45-111 | The first call that gets a path, or keeps its failure, is the last to request it, and what it got is what the cache holds after any further calls |
| `BodyBuffer.JobFilesOnce` | openqa_llm_investigate/http.py:101-111 | A path that is first asked for as a job file is requested exactly once, failures included |
| `BodyBuffer.OpenQA.Text` | openqa_llm_investigate/http.py:45-56 | Answers from the cache or with one request; a failed request leaves no trace in the cache |
| `BodyBuffer.OpenQA.JobFile` | openqa_llm_investigate/http.py:101-111 | Answers from the cache or with one request whose failure is remembered as an empty file |
| `StackFrames.TrimStackFrames` | openqa_llm_investigate/text.py:116-139 | The loop computes the run-by-run trimming |
| `StackFrames.TrimExpandsBack` | openqa_llm_investigate/text.py:116-139 | With each note replaced by the frames it counts the trimmed text is the original: no frame or line is lost, counted twice or moved |
| `StackFrames.NotesInPlace` | openqa_llm_investigate/text.py:120-139 | A note stands for frames only, at least one, right behind the first `keep` of the same run and with no frame behind it; of `keep + 1` items in a row one is no frame |
| `StackFrames.NoteIsNoFrame` | openqa_llm_investigate/text.py:122-125 | The text of a note is never itself a frame, blank or trailed by white space |
| `StackFrames.NoteCounts` | openqa_llm_investigate/text.py:122-125 | The one number that a note shows is the number of frames it stands for |
| `StackFrames.FramesAre` | openqa_llm_investigate/text.py:116-139 | A frame is a line that has the frame mark somewhere in it |
| `StackFrames.TrimTwice` | openqa_llm_investigate/text.py:116-139 | Trimming a trimmed text changes nothing |
| `StackFrames.SqueezeBlank` | openqa_llm_investigate/text.py:486-494 | The loop with its final pops yields the paragraphs of the text with one empty line between any two |
| `StackFrames.SqueezedIffNormal` | openqa_llm_investigate/text.py:486-494 | The result is in normal form, squeezing it again changes nothing, and exactly the texts in normal form are left alone |
| `StackFrames.SqueezeKeepsLines` | openqa_llm_investigate/text.py:486-494 | The lines that are not blank survive in order, stripped at their end |
| `StackFrames.TrimKeepsNormal` | openqa_llm_investigate/text.py:497-506 | Trimming frames keeps the normal form |
| `StackFrames.CleanTextIsStable` | openqa_llm_investigate/text.py:497-506 | A squeezed and trimmed text is a fixed point of both passes |
| `CondenseLog.CondenseLog` | openqa_llm_investigate/text.py:198-229 | The loop with its flags computes the filter that the predicates describe, then the tail and the frames are cut |
| `CondenseLog.CondensedLines` | openqa_llm_investigate/text.py:198-229 | Exactly the kept lines, in order, and one summary line, at the first counted poll, if and only if a poll was counted; a line without a stamp is dropped in autoinst mode if and only if the nearest stamped line above it that is no noise is a dropped debug line |
| `CondenseLog.PollsAreCounted` | openqa_llm_investigate/text.py:153-170 | Every surviving poll is counted in exactly one of the three counters |
| `CondenseLog.SummaryHasTheBest` | openqa_llm_investigate/text.py:163-166 | The best candidate is the first no-match poll with the highest score |
| `CondenseLog.StampsInOrder` | openqa_llm_investigate/text.py:159-161 | The stamps of the summary are those of the counted polls that have one, in order |
| `CondenseLog.CondensedTwice` | openqa_llm_investigate/text.py:198-229 | Condensing a result without a line limit again changes nothing, frames included, if the result holds no new escape and the summary and frame notes read as ordinary lines |
| `CondenseLog.TailIsAnnounced` | openqa_llm_investigate/text.py:191-195 | The marker counts exactly the lines cut off if and only if the limit is not negative |
| `CondenseLog.TailIsKept` | openqa_llm_investigate/text.py:191-195 | Without a limit or within it all lines stay; beyond it the last ones behind one marker, none for a limit below one |
| `CondenseLog.EarlierNoteCounts` | openqa_llm_investigate/text.py:195 | The one number that the marker shows is the count |
| `CondenseLog.OrdinaryLogStays` | openqa_llm_investigate/text.py:198-229 | A log of lines that the filter neither drops nor counts, without stack frames and within the limit, comes back line by line, only cleaned |
| `CondenseLog.NeedlePolls.Add` | openqa_llm_investigate/text.py:153-170 | The new value of all fields; true if and only if the line is a poll |
| `Proximity.GroupsAreComponents` | openqa_llm_investigate/failures.py:240-251 | Two picked positions are in one group if and only if a chain of picked positions, each at most `gap` from the next, links them |
| `Proximity.OnlyOneGrouping` | openqa_llm_investigate/failures.py:240-251 | There is one way only to cut positions into groups at the jumps beyond `gap` |
| `Proximity.GroupingIsPartition` | openqa_llm_investigate/failures.py:240-251 | Every picked position is in one place of the groups, in order |
| `Proximity.GroupsAreFarApart` | openqa_llm_investigate/logs.py:206-216 | Whatever is in an earlier group is more than `gap` below whatever is in a later one |
| `FailingCluster.GroupFailuresByProximity` | openqa_llm_investigate/failures.py:240-251 | The loop computes the groups of the failing steps |
| `FailingCluster.ClustersAreComponents` | openqa_llm_investigate/failures.py:240-251 | For steps sorted by num: the clusters are the connected components of the failing steps and partition them |
| `FailingCluster.PostFailStartIsTheFirst` | openqa_llm_investigate/failures.py:272-275 | The smallest num of a post-fail marker step; none if there is no such step |
| `FailingCluster.CollapseRepeatedClusters` | openqa_llm_investigate/failures.py:231-237 | The two passes over dictionaries keep the last cluster per key set with the first nums of the earlier ones, in order |
| `FailingCluster.CollapseCountsAll` | openqa_llm_investigate/failures.py:231-237 | The kept clusters and their retries together are all clusters |
| `FailingCluster.OneKeptPerKeySet` | openqa_llm_investigate/failures.py:231-237 | Each key set has exactly one kept cluster, at or after each of its occurrences |
| `FailingCluster.FailingCluster` | openqa_llm_investigate/failures.py:124-136 | The composition of grouping, filtering and collapsing |
| `FailingCluster.NoFailingCluster` | openqa_llm_investigate/failures.py:124-136 | None if and only if the test failed at no step: every failing step has the hook's death in its text or comes after a post-fail marker |
| `FailingCluster.FailingClusterIs` | openqa_llm_investigate/failures.py:124-136 | Otherwise the steps of the last proximity cluster at which the test failed outside the hook, if it did, ending where it failed for the last time; its retries are the nums at which all earlier such parts with the same failure texts start, in order |
| `FailingCluster.SortStepsSorts` | openqa_llm_investigate/failures.py:52-54 | The details come out sorted by num, which the clustering and the step context rely on, and they are the same steps, each as often as before |
| `FailingCluster.FailedModulesAre` | openqa_llm_investigate/failures.py:44-56 | The failed modules, each once; an earlier one has a failing step before all of the later one's, or was listed first and the later one has none before all of its own |
| `StepContext.FailingStepIs` | openqa_llm_investigate/failures.py:139-156 | The blamed step is the last one that names a command up to the last died step, else that died step, else the last |
| `StepContext.ContextIsOneSlice` | openqa_llm_investigate/failures.py:254-264 | Before, cluster range and after are one slice of the sorted details, cut exactly where the nums enter and leave the range, so they share no step; a side that is not full holds all steps there are |
| `StepContext.BetweenAre` | openqa_llm_investigate/analysis.py:290 | The steps of the cluster's range are exactly those with a num in it, in order |
| `StepContext.TellingAre` | openqa_llm_investigate/analysis.py:352-360 | Exactly the steps that are no noise stay, in order |
| `StepContext.RanCounts` | openqa_llm_investigate/analysis.py:334-341 | The counter is the number of steps that ran a command |
| `StepContext.StepsUntilCommands` | openqa_llm_investigate/analysis.py:334-341 | The shortest non-empty start with `n` commands, else all |
| `StepContext.MarkerStep` | openqa_llm_investigate/analysis.py:261-268 | The failing step, or the top of the maximal block of bare failed screens right above it |
| `StepContext.HiddenAre` | openqa_llm_investigate/analysis.py:294 | Hidden are exactly the steps of the cluster's range that are neither among its first nor its last four, are not blamed, are not the last at which the test died, and have no marker |
| `StepContext.ListSteps` | openqa_llm_investigate/analysis.py:300-319 | The loop lists the steps up to the hidden ones at the end |
| `StepContext.NothingUncounted` | openqa_llm_investigate/analysis.py:289-308 | There are no hidden steps at the end, so no count is left pending |
| `StepContext.ListingAccounts` | openqa_llm_investigate/analysis.py:300-319 | The rendered steps are the kept ones in order, and with the sum of all omission counts they are all steps |
| `StepContext.ListingMarks` | openqa_llm_investigate/analysis.py:309-310 | One marker, right before its step |
| `StepContext.OnlyOneListing` | openqa_llm_investigate/analysis.py:300-319 | No other sequence of items accounts for the same steps |
| `StepContext.StepContext` | openqa_llm_investigate/analysis.py:277-319 | One marker at its place, nothing lost, and rendered are exactly the steps before and after the cluster, its first and last four, the failing and the died step, and the one with the marker |
| `StepContext.ClusterReport` | openqa_llm_investigate/analysis.py:344-365 | The same for any cluster of a module with sorted details, with the steps before and after it as scanned, filtered and cut: after it the shortest telling start with three commands, else all telling steps |
| `LogRange.MatchIndexIs` | openqa_llm_investigate/logs.py:125-129 | None if and only if no line has the text, else the last command line that has it, or without one the last line |
| `LogRange.CommandLinesAre` | openqa_llm_investigate/logs.py:125-129 | A command line is one that, stripped, is a prompt and some command |
| `LogRange.OnlyOnePreferred` | openqa_llm_investigate/logs.py:125-129 | No other line has that property |
| `LogRange.FoundIsOneRun` | openqa_llm_investigate/logs.py:132-146 | The run of lines around the preferred one, cut short by the ends of the log only; a text with a newline is never found |
| `LogRange.LineIndexIsChosen` | openqa_llm_investigate/logs.py:170-175 | Looking the found line up by content gives the index that was chosen, duplicates or not |
| `LogRange.RangeIsFound` | openqa_llm_investigate/logs.py:186-191 | A range is returned if and only if some line has a usable start marker |
| `LogRange.OpenRange` | openqa_llm_investigate/logs.py:192-194 | Without an end marker at or below the start the lines from there on, up to the limit |
| `LogRange.SpanIsAccounted` | openqa_llm_investigate/logs.py:195-203 | Between two markers the whole span or its two halves around a note; kept and announced lines are the span if and only if the limit is even |
| `LogRange.OmissionNoteCounts` | openqa_llm_investigate/logs.py:198-202 | The one number that the note shows is the count |
| `LogRange.FatalEvents` | openqa_llm_investigate/logs.py:206-216 | The loop computes the groups of the fatal lines |
| `LogRange.EventsAreComponents` | openqa_llm_investigate/logs.py:206-216 | The events are the connected components of the fatal lines and partition them |
| `LogRange.EventExpectedIs` | openqa_llm_investigate/logs.py:219-221 | An event is expected if and only if a triggered crash is among the lines from ten above its first to its last |
| `LogRange.OneCrashExplainsOneEvent` | openqa_llm_investigate/logs.py:206-221 | The look-back is smaller than the gap, so no line is looked at for two events |
| `LogRange.ExpectedEventsHaveOwnCrashes` | openqa_llm_investigate/logs.py:219-221 | Two expected events have two different triggered crashes |
| `CommitPaths.TailsAre` | openqa_llm_investigate/commits.py:90-93 | The tails are exactly the path and its ends behind a `/` that hold another `/` |
| `CommitPaths.AbbreviatedFits` | openqa_llm_investigate/commits.py:79-87 | The name fits its column if and only if the path does or there is room for the dots |
| `CommitPaths.CutKeepsLongestTail` | openqa_llm_investigate/commits.py:79-87 | A cut name is dots and the longest tail from a `/` on that fits, or without one the last characters |
| `CommitPaths.NameIsFile` | openqa_llm_investigate/commits.py:112-120 | Both directions for every name but a rename: shown whole and equal, or for a prefixed path on a component boundary with two components; or cut, and the path does not fit and has the rest as its best tail |
| `CommitPaths.WholeNameIsFile` | openqa_llm_investigate/commits.py:112-120 | A name without leading dots is a module file only exactly, a stack frame's file only on a component boundary with two components, and both only within the column |
| `CommitPaths.CutNameIsFile` | openqa_llm_investigate/commits.py:112-120 | The same for a name with leading dots; with a `/` behind them the path ends with the rest, on a component boundary |
| `CommitPaths.SameNames` | openqa_llm_investigate/commits.py:79-87 | Two paths have the same name in a column if and only if they are the same and fit, or one fits and is dots and the best tail of the other, or neither fits and they have the same best tail |
| `CommitPaths.TakenForAnother` | openqa_llm_investigate/commits.py:112-120 | The name of one path is taken for the module's file at another if and only if they share it in that sense |
| `CommitPaths.CutNamesCollide` | openqa_llm_investigate/commits.py:79-120 | What was cut off can be anything: all paths with the same end share their name if the end starts with the first `/` in what fits, and so do all with the same last characters if none of them is a `/` |
| `CommitPaths.RenameIsFile` | openqa_llm_investigate/commits.py:104-120 | A rename matches through one side: exactly, or on a component boundary if cut or prefixed |
| `CommitPaths.StackFiles` | openqa_llm_investigate/commits.py:38-52 | The scanner with its two flags finds the files of the contributing lines |
| `CommitPaths.StackFilesAre` | openqa_llm_investigate/commits.py:38-52 | A file is listed if and only if it is no framework path and in a line that lies in an open stack trace section or follows a died message through indented frames only; each once, in the order of first sight |
| `CommitPaths.MarksAre` | openqa_llm_investigate/commits.py:123-128 | A commit is marked for a failed module if and only if one of its names denotes a test file of one, and for the stack if and only if a name that denotes none denotes a file of a frame |
| `CommitPaths.SectionCountsAll` | openqa_llm_investigate/commits.py:163-169 | Listed, more marked and other commits add up to all commits |
| `CommitPaths.SectionIsRanked` | openqa_llm_investigate/commits.py:166-167 | Listed commits are marked, those of a failed module's file first, each kind in git's order |
| `CommitPaths.CountedComeAfter` | openqa_llm_investigate/commits.py:166-168 | A marked commit that is only counted comes after every listed one |
| `CommitPaths.SectionIsWhatTouches` | openqa_llm_investigate/commits.py:162-168 | From names to section: the listed and the counted marked commits are exactly those with a name that denotes a test file or a frame's file |
| `RunHistory.GroupJobs` | openqa_llm_investigate/history.py:85-88 | The dictionary has the kinds in the order of first sight and for each the jobs of it |
| `RunHistory.SameKind` | openqa_llm_investigate/history.py:87 | Two failures are in one group if and only if flavor, result and failed modules agree, and the test where it counts |
| `RunHistory.LatestIdIs` | openqa_llm_investigate/history.py:91 | A group is described by a job of it with the highest id |
| `RunHistory.RankGroups` | openqa_llm_investigate/history.py:90 | The stable sort and the cap pick the described groups |
| `RunHistory.DescribedAreBest` | openqa_llm_investigate/history.py:89-90 | Own flavor first, then the larger group, then the one seen first; groups that are only counted come after all described ones |
| `RunHistory.GroupsAddUp` | openqa_llm_investigate/history.py:85-107 | The sizes of the described and the counted groups add up to the failed jobs |
| `RunHistory.WantedInOrder` | openqa_llm_investigate/history.py:92 | One after the other the described groups with failed modules, and no others, take a place among the wanted jobs |
| `RunHistory.BestAreFetchedFirst` | openqa_llm_investigate/history.py:89-93 | A group's latest job is fetched in its turn, so only if those of all better groups with failed modules are |
| `RunHistory.AnswerForIs` | openqa_llm_investigate/history.py:95-103 | What a part shows is the answer of the last fetch for its job, nothing without one |
| `RunHistory.FailureGroups` | openqa_llm_investigate/history.py:80-108 | Exactly the affordable first part of the wanted fetches is made; each part has its group's kind, size, latest job and, with failed modules, the commands fetched for that job, else none |
| `RunHistory.BudgetIsShared` | openqa_llm_investigate/history.py:32-38 | Any sequence of calls fetches what it wants or eight details, whichever is less |
| `RunHistory.AllSummaries` | openqa_llm_investigate/history.py:80-108 | The method calls one after the other on one budget make exactly these fetches |
| `RunHistory.RunsText` | openqa_llm_investigate/history.py:111-127 | The counts of the results in the order of first sight, and the parts that describe the groups of the failures |
| `RunHistory.RunsAreSplit` | openqa_llm_investigate/history.py:112-125 | Each run is a failure, described by its id, result and failed modules, or a result to count, both in order |
| `RunHistory.RunsAddUp` | openqa_llm_investigate/history.py:111-127 | Every run is counted once: with its result or in a group of failures |
| `RunHistory.EarlierReviews` | openqa_llm_investigate/history.py:159-174 | The loops with `setdefault` show the first marks found |
| `RunHistory.OwnModulesAre` | openqa_llm_investigate/history.py:165 | The own modules are those of the first row with the current id, none without one |
| `RunHistory.ConsideredAreNewest` | openqa_llm_investigate/history.py:166-168 | Any other finished run before the current one is no newer than every considered one, and there is one only if twenty are considered |
| `RunHistory.ReviewsNameTheLatest` | openqa_llm_investigate/history.py:159-174 | A mark is found if and only if a considered run that failed in all own modules carries it, and it is named at the latest such run |

## Left out

- HostRecovery.HmcSession.ResetAndLoad: how long a single request takes is not bounded.
- HostRecovery.HostRun.HandleHost: a thread that dies of an exception nothing catches (`Crashed`, only after such an exception was raised) is proved safe, not to have restarted all jobs or tried everything.
- HostRecovery.HostRun.WaitForHost: the time bound counts the probes and the pauses only, not the time that printing and process start-up take, and the clock does not run backwards.
- HostRecovery.HostRun.RecordReboot: models one thread's view; that other threads write the file in between is the matter of `RebootMap`.
- The polling loops of `_wait_for_job` and `_wait_for_lpar_status` are one method, `PollStatus`, here.
- CondenseLog.CondensedTwice: with a line limit a second pass would announce the marker of the first; and what the summary and notes read as is up to the regular expressions.
- CommitPaths.RenameIsFile: the split of a rename into its two sides is a parameter.
- RunHistory.FailureGroups: the pool makes its fetches side by side; the model lists them in the order in which they are handed over.
- Jobs that run on two hosts: each host's run restarts the jobs of its own list once; a job whose worker class mentions both is on both lists.
- Races between processes under `--no-lock`, and the durability of the rename across a crash of the machine.
- Regular expressions, key error rules, credential masking and the parsers of died messages: pattern data.
- Wording: titles, notes other than the ones that are counted, labels, output tails of steps, formatting of scores, pids and builds.
- Decoding of UTF-8: the buffers are bytes, where a newline is one byte.
- `collapse_repeated_clusters` looks the last cluster of a group up by identity; the model asks whether the cluster's place is the last of its group, which is the same.
- `extract_failed_modules` replaces the details in the parsed JSON; the model sorts values.
- The choice and order of the rows in `_neighbour_summary` and the query of `_sibling_summary`; what they share, the budget, is modelled for any sequence of calls.
- `command_output`, `kdump_oops_symbol`, the report of a crash and the excerpt of a job log: simple scans.
- HTTP, SSH, TLS, `.netrc` and command line handling, and all scripts of the repository other than the files named above.
