/** When remote CI evidence is obtained (scripts/local_closure_gate.py), exactly: over everything the
    outside may answer to the calls an observation or a dispatch makes. */
module RemoteVerdicts {
  import opened Text
  import opened RemoteBinding
  import opened RemoteAttempts

  // ---------- probes and listings ----------

  ghost predicate ProbesPass(a: Answers, log: Log) {
    && a.available(log + [Available])
    && a.enabled(log + [Available, WorkflowEnabled]) == Value(true)
    && a.online(log + [Available, WorkflowEnabled, RunnerOnline]) == Value(true)
  }

  /** Why a probe stops: the first of the three that does not answer yes. */
  ghost predicate ProbeStops(a: Answers, log: Log, reason: string) {
    var enabled, online := a.enabled(log + [Available, WorkflowEnabled]),
                           a.online(log + [Available, WorkflowEnabled, RunnerOnline]);
    if !a.available(log + [Available]) then reason == "gh_cli_unavailable"
    else if enabled == Value(true) then online != Value(true) && reason == ReasonFor(online, "runner_offline")
    else reason == ReasonFor(enabled, "workflow_disabled")
  }

  /** How a reply that does not help is reported. */
  function ReasonFor<T>(r: Reply<T>, otherwise: string): string {
    match r
    case Quota => "quota_exhausted"
    case Failure => "api_unavailable"
    case Value(_) => otherwise
  }

  lemma {:induction false} ProbeIsExact(a: Answers, log: Log)
    ensures Probed(a, log).0.None? <==> ProbesPass(a, log)
    ensures Probed(a, log).0.None? ==> Probed(a, log).1 == log + [Available, WorkflowEnabled, RunnerOnline]
    ensures Probed(a, log).0.Some? ==> ProbeStops(a, log, Probed(a, log).0.value)
  {
    assert log + [Available] + [WorkflowEnabled] == log + [Available, WorkflowEnabled];
    assert log + [Available] + [WorkflowEnabled] + [RunnerOnline] == log + [Available, WorkflowEnabled, RunnerOnline];
  }

  /** The first listed run of the commit that has concluded. */
  ghost predicate IsFirst(runs: seq<Run>, i: nat, commit: string) {
    && i < |runs| && HasConcluded(runs[i], commit)
    && forall j :: 0 <= j < i ==> !HasConcluded(runs[j], commit)
  }

  predicate HasConcluded(run: Run, commit: string) {
    run.headSha == commit && run.conclusion != ""
  }

  ghost predicate NoneConcluded(runs: seq<Run>, commit: string) {
    forall i :: 0 <= i < |runs| ==> !HasConcluded(runs[i], commit)
  }

  lemma {:induction false} FirstConcludedIsExact(runs: seq<Run>, commit: string)
    ensures var r := FirstConcluded(runs, commit);
            && (r.None? <==> NoneConcluded(runs, commit))
            && (r.Some? ==> exists i: nat :: i < |runs| && IsFirst(runs, i, commit) && runs[i] == r.value)
  {
    if runs != [] && !HasConcluded(runs[0], commit) {
      var rest := runs[1..];
      FirstConcludedIsExact(rest, commit);
      assert runs == [runs[0]] + rest;
      if FirstConcluded(rest, commit).Some? {
        var i: nat :| i < |rest| && IsFirst(rest, i, commit) && rest[i] == FirstConcluded(rest, commit).value;
        assert IsFirst(runs, i + 1, commit) && runs[i + 1] == rest[i];
      }
    } else if runs != [] {
      assert IsFirst(runs, 0, commit);
    }
  }

  lemma {:induction false} FirstIsUnique(runs: seq<Run>, i: nat, j: nat, commit: string)
    requires IsFirst(runs, i, commit) && IsFirst(runs, j, commit)
    ensures i == j
  {
    hide HasConcluded;
  }

  // ---------- evidence ----------

  /** The listing that ends this log holds evidence: its first concluded run of the commit, with its
      jobs, is bound. */
  ghost predicate IsEvidence(a: Answers, asked: Log, commit: string, repository: string, run: Run, jobs: seq<Job>) {
    && a.runs(asked).Value?
    && (exists i: nat :: i < |a.runs(asked).value| && IsFirst(a.runs(asked).value, i, commit)
                         && a.runs(asked).value[i] == run)
    && a.jobs(asked + [Jobs(run.runId)]) == Value(jobs)
    && IsBound(run, jobs, commit, repository, a.wall(asked + [Jobs(run.runId)]))
  }

  /** What follows a listing that found a run. */
  lemma {:induction false} AfterListing(a: Answers, asked: Log, commit: string, repository: string, dispatched: bool,
                                        run: Run, jobs: seq<Job>)
    requires var found := Found(a, asked, commit); found.Value? && found.value.Some?
    ensures var r := Bound(a, asked, Found(a, asked, commit).value.value, commit, repository, dispatched).0;
            && (r == Verified(run, jobs, dispatched) <==>
                  IsEvidence(a, asked, commit, repository, run, jobs) && run.conclusion == "success")
            && (r == Failed(run, jobs, dispatched) <==>
                  IsEvidence(a, asked, commit, repository, run, jobs) && run.conclusion != "success")
  {
    hide IsBound, BindingProblem, FirstConcluded, IsFirst;
    var runs := a.runs(asked).value;
    FirstConcludedIsExact(runs, commit);
    var first := FirstConcluded(runs, commit).value;
    var i: nat :| i < |runs| && IsFirst(runs, i, commit) && runs[i] == first;
    forall j: nat | IsFirst(runs, j, commit) ensures j == i { FirstIsUnique(runs, i, j, commit); }
    var jobsAsked := asked + [Jobs(first.runId)];
    if a.jobs(jobsAsked).Value? {
      BoundMeansNoProblem(first, a.jobs(jobsAsked).value, commit, repository, a.wall(jobsAsked));
    }
  }

  lemma {:induction false} NothingFound(a: Answers, asked: Log, commit: string, repository: string, run: Run,
                                        jobs: seq<Job>)
    requires var found := Found(a, asked, commit); !found.Value? || found.value.None?
    ensures !IsEvidence(a, asked, commit, repository, run, jobs)
  {
    if a.runs(asked).Value? { FirstConcludedIsExact(a.runs(asked).value, commit); }
  }

  // ---------- reasons ----------

  const REASONS := ["wrong_repository", "wrong_workflow", "wrong_event", "wrong_commit", "created_at_unparseable",
                    "stale_run", "missing_jobs"]

  const JOBS := ["backend", "web", "canonical-source-browser", "security", "package-validation",
                 "compose-integration"]

  predicate IsListed(jobs: seq<Job>, name: string) {
    exists i :: 0 <= i < |jobs| && jobs[i].name == name
  }

  /** The seven conditions that come before those on single jobs, in order. */
  predicate Meets(condition: nat, run: Run, jobs: seq<Job>, commit: string, repository: string, now: real) {
    match condition
    case 0 => run.repository == repository
    case 1 => run.workflow == "validate.yml"
    case 2 => run.event == "workflow_dispatch" || run.event == "pull_request"
    case 3 => run.headSha == commit
    case 4 => run.createdAt.Some?
    case 5 => run.createdAt.Some? && now - 86400.0 <= run.createdAt.value <= now + 300.0
    case _ => forall k :: 0 <= k < |JOBS| ==> IsListed(jobs, JOBS[k])
  }

  ghost predicate MeetsAll(run: Run, jobs: seq<Job>, commit: string, repository: string, now: real) {
    forall c: nat :: c < 7 ==> Meets(c, run, jobs, commit, repository, now)
  }

  /** The last job of a name succeeded, wherever it ran. */
  predicate Concluded(jobs: seq<Job>, name: string) {
    exists i :: 0 <= i < |jobs| && jobs[i].name == name && (forall j :: i < j < |jobs| ==> jobs[j].name != name)
                && jobs[i].conclusion == "success"
  }

  /** A reason names the first condition that fails, and after those the first job that does. */
  ghost predicate IsReason(run: Run, jobs: seq<Job>, commit: string, repository: string, now: real, reason: string) {
    || (exists c: nat :: c < 7 && !Meets(c, run, jobs, commit, repository, now) && reason == REASONS[c]
                         && forall d: nat :: d < c ==> Meets(d, run, jobs, commit, repository, now))
    || (&& MeetsAll(run, jobs, commit, repository, now)
        && exists k: nat :: k < |JOBS| && !Succeeded(jobs, JOBS[k])
                            && (forall j :: 0 <= j < k ==> Succeeded(jobs, JOBS[j]))
             && reason == if Concluded(jobs, JOBS[k]) then "runner_class_unverified" else "job_not_successful")
  }

  lemma {:induction false} JobsAreThese()
    ensures REQUIRED_JOBS == JOBS
  {
  }

  lemma {:induction false} MissingMeans(jobs: seq<Job>, names: seq<string>)
    ensures MissingFrom(jobs, names) <==> exists k :: 0 <= k < |names| && !IsListed(jobs, names[k])
  {
    if names != [] {
      MissingMeans(jobs, names[1..]);
      assert names == [names[0]] + names[1..];
    }
  }

  lemma {:induction false} ConcludedMeans(jobs: seq<Job>, name: string)
    ensures Concluded(jobs, name) <==> JobNamed(jobs, name).Some? && JobNamed(jobs, name).value.conclusion == "success"
  {
  }

  lemma {:induction false} JobProblemMeans(jobs: seq<Job>, names: seq<string>)
    requires JobProblem(jobs, names).Some?
    ensures exists k: nat :: k < |names| && !Succeeded(jobs, names[k])
              && (forall j :: 0 <= j < k ==> Succeeded(jobs, names[j]))
              && JobProblem(jobs, names)
                 == Some(if Concluded(jobs, names[k]) then "runner_class_unverified" else "job_not_successful")
  {
    hide Succeeded, Concluded, JobQualifies;
    SucceededMeans(jobs, names[0]);
    ConcludedMeans(jobs, names[0]);
    ConcludedOnly(jobs, names[0]);
    if Succeeded(jobs, names[0]) {
      var rest := names[1..];
      JobProblemMeans(jobs, rest);
      var k: nat :| k < |rest| && !Succeeded(jobs, rest[k]) && (forall j :: 0 <= j < k ==> Succeeded(jobs, rest[j]))
             && JobProblem(jobs, rest)
                == Some(if Concluded(jobs, rest[k]) then "runner_class_unverified" else "job_not_successful");
      assert names == [names[0]] + rest;
      forall j | 0 <= j < k + 1 ensures Succeeded(jobs, names[j]) { if j > 0 { assert names[j] == rest[j - 1]; } }
      assert names[k + 1] == rest[k];
    }
  }

  lemma {:induction false} ConcludedOnly(jobs: seq<Job>, name: string)
    ensures JobQualifies(jobs, name) ==>
      JobNamed(jobs, name).Some? && JobNamed(jobs, name).value.conclusion == "success"
  {
  }

  /** The reason against a run is the first condition it does not meet. */
  lemma {:induction false} ReasonIsFirst(run: Run, jobs: seq<Job>, commit: string, repository: string, now: real)
    ensures var p := BindingProblem(run, jobs, commit, repository, now);
            p.Some? ==> IsReason(run, jobs, commit, repository, now, p.value)
  {
    hide JobProblem, MissingFrom, Succeeded, Concluded, IsListed, JOBS, REQUIRED_JOBS;
    JobsAreThese();
    MissingMeans(jobs, JOBS);
    assert EVENTS[0] == "workflow_dispatch" && EVENTS[1] == "pull_request";
    var p := BindingProblem(run, jobs, commit, repository, now);
    if p.Some? {
      if MeetsAll(run, jobs, commit, repository, now) {
        assert Meets(0, run, jobs, commit, repository, now) && Meets(1, run, jobs, commit, repository, now);
        assert Meets(2, run, jobs, commit, repository, now) && Meets(3, run, jobs, commit, repository, now);
        assert Meets(4, run, jobs, commit, repository, now) && Meets(5, run, jobs, commit, repository, now);
        assert Meets(6, run, jobs, commit, repository, now);
        JobProblemMeans(jobs, JOBS);
      } else {
        FirstUnmet(run, jobs, commit, repository, now, p.value);
      }
    }
  }

  lemma {:induction false} FirstUnmet(run: Run, jobs: seq<Job>, commit: string, repository: string, now: real,
                                      reason: string)
    requires BindingProblem(run, jobs, commit, repository, now) == Some(reason)
    requires !MeetsAll(run, jobs, commit, repository, now)
    ensures IsReason(run, jobs, commit, repository, now, reason)
  {
    hide JobProblem, MissingFrom, Succeeded, Concluded, IsListed, JOBS, REQUIRED_JOBS;
    JobsAreThese();
    MissingMeans(jobs, JOBS);
    assert EVENTS[0] == "workflow_dispatch" && EVENTS[1] == "pull_request";
    var c: nat := if run.repository != repository then 0 else if run.workflow != WORKFLOW then 1
                  else if run.event !in EVENTS then 2 else if run.headSha != commit then 3
                  else if run.createdAt.None? then 4
                  else if now - run.createdAt.value > MAX_AGE || run.createdAt.value - now > MAX_SKEW then 5 else 6;
    assert !Meets(c, run, jobs, commit, repository, now) && reason == REASONS[c];
  }

  /** Why the listing that ends this log gives no evidence. */
  ghost predicate Explains(a: Answers, asked: Log, commit: string, repository: string, nothing: string,
                           reason: string) {
    match a.runs(asked)
    case Quota => reason == "quota_exhausted"
    case Failure => reason == "api_unavailable"
    case Value(runs) =>
      if NoneConcluded(runs, commit) then reason == nothing
      else
        exists i: nat :: i < |runs| && IsFirst(runs, i, commit)
          && var jobsAsked := asked + [Jobs(runs[i].runId)];
             match a.jobs(jobsAsked)
             case Quota => reason == "quota_exhausted"
             case Failure => reason == "api_unavailable"
             case Value(jobs) => IsReason(runs[i], jobs, commit, repository, a.wall(jobsAsked), reason)
  }

  /** The reason that is given after a listing. */
  lemma {:induction false} ListingExplains(a: Answers, asked: Log, commit: string, repository: string,
                                           dispatched: bool, nothing: string, r: Attempt)
    requires r.Unavailable? && r.dispatched == dispatched
    requires var found := Found(a, asked, commit);
             if !found.Value? then r.reason == ReasonFor(found, nothing)
             else if found.value.None? then r.reason == nothing
             else r == Bound(a, asked, found.value.value, commit, repository, dispatched).0
    ensures Explains(a, asked, commit, repository, nothing, r.reason)
  {
    hide IsReason, BindingProblem, FirstConcluded, IsFirst, NoneConcluded;
    if a.runs(asked).Value? {
      var runs := a.runs(asked).value;
      FirstConcludedIsExact(runs, commit);
      var first := FirstConcluded(runs, commit);
      if first.Some? {
        var i: nat :| i < |runs| && IsFirst(runs, i, commit) && runs[i] == first.value;
        var jobsAsked := asked + [Jobs(runs[i].runId)];
        if a.jobs(jobsAsked).Value? {
          ReasonIsFirst(runs[i], a.jobs(jobsAsked).value, commit, repository, a.wall(jobsAsked));
        }
      }
    }
  }

  // ---------- observing ----------

  function Listing(log: Log, commit: string): Log {
    log + [Available, WorkflowEnabled, RunnerOnline, ListRuns(commit)]
  }

  lemma {:induction false} ObservedUnfolds(a: Answers, log: Log, commit: string, repository: string)
    ensures var probed, asked := Probed(a, log), Probed(a, log).1 + [ListRuns(commit)];
            var found, r := Found(a, asked, commit), Observed(a, log, commit, repository).0;
            if probed.0.Some? then r == Unavailable(probed.0.value, false)
            else if !found.Value? then r == Unavailable(ReasonFor(found, ""), false)
            else if found.value.None? then r == Unavailable("no_completed_run", false)
            else r == Bound(a, asked, found.value.value, commit, repository, false).0
  {
    hide Bound, Found, Probed;
  }

  /** An observation, exactly: verified, or failed, if and only if the probes pass and the listing holds
      evidence whose conclusion is, or is not, a success; otherwise unavailable, for the first reason. */
  lemma {:induction false} ObservationIsExact(a: Answers, log: Log, commit: string, repository: string, run: Run,
                                              jobs: seq<Job>)
    ensures var r, asked := Observed(a, log, commit, repository).0, Listing(log, commit);
            && (r == Verified(run, jobs, false) <==>
                  && ProbesPass(a, log) && IsEvidence(a, asked, commit, repository, run, jobs)
                  && run.conclusion == "success")
            && (r == Failed(run, jobs, false) <==>
                  && ProbesPass(a, log) && IsEvidence(a, asked, commit, repository, run, jobs)
                  && run.conclusion != "success")
            && (r.Unavailable? ==>
                  && !r.dispatched
                  && if ProbesPass(a, log) then Explains(a, asked, commit, repository, "no_completed_run", r.reason)
                     else ProbeStops(a, log, r.reason))
  {
    hide Observed, ProbesPass, Probed, Bound, IsEvidence, FirstConcluded, NoneConcluded, ProbeStops, Explains;
    ObservedUnfolds(a, log, commit, repository);
    ProbeIsExact(a, log);
    var asked := Listing(log, commit);
    assert log + [Available, WorkflowEnabled, RunnerOnline] + [ListRuns(commit)] == asked;
    if a.runs(asked).Value? { FirstConcludedIsExact(a.runs(asked).value, commit); }
    var found := Found(a, asked, commit);
    if found.Value? && found.value.Some? {
      AfterListing(a, asked, commit, repository, false, run, jobs);
    } else {
      NothingFound(a, asked, commit, repository, run, jobs);
    }
    var r := Observed(a, log, commit, repository).0;
    if ProbesPass(a, log) && r.Unavailable? {
      NeverDispatched(a, asked, commit, repository);
      ListingExplains(a, asked, commit, repository, false, "no_completed_run", r);
    }
  }

  lemma {:induction false} NeverDispatched(a: Answers, asked: Log, commit: string, repository: string)
    ensures forall run, dispatched :: Bound(a, asked, run, commit, repository, dispatched).0.dispatched == dispatched
  {
    hide BindingProblem;
  }

  // ---------- waiting and dispatching ----------

  /** One fruitless round: a listing, and a pause of an interval or of the time that is left. */
  ghost function Round(a: Answers, log: Log, commit: string, deadline: int, interval: int): Log {
    var asked := log + [ListRuns(commit)];
    var left := deadline - a.clock(asked);
    asked + [Sleep(if interval < left then interval else left)]
  }

  ghost function Rounds(a: Answers, log: Log, commit: string, deadline: int, interval: int, n: nat): Log
    decreases n
  {
    if n == 0 then log else Rounds(a, Round(a, log, commit, deadline, interval), commit, deadline, interval, n - 1)
  }

  /** A listing that shows no concluded run of the commit, before the deadline. */
  ghost predicate IsFruitless(a: Answers, log: Log, commit: string, deadline: int) {
    var asked := log + [ListRuns(commit)];
    && a.runs(asked).Value? && NoneConcluded(a.runs(asked).value, commit) && a.clock(asked) < deadline
  }

  /** A wait, exactly: fruitless rounds, and then the reply to one more listing, which ends them because
      it shows a concluded run, because it fails, or because the deadline has passed. */
  lemma {:induction false} WaitIsExact(a: Answers, log: Log, commit: string, deadline: int, interval: int)
    returns (n: nat)
    requires Ticks(a) && interval > 0
    ensures forall k: nat :: k < n ==>
      IsFruitless(a, Rounds(a, log, commit, deadline, interval, k), commit, deadline)
    ensures var last := Rounds(a, log, commit, deadline, interval, n);
            var asked := last + [ListRuns(commit)];
            && !IsFruitless(a, last, commit, deadline)
            && Wait(a, log, commit, deadline, interval) == (Found(a, asked, commit), asked)
    decreases if deadline > a.clock(log) then deadline - a.clock(log) else 0
  {
    hide FirstConcluded, NoneConcluded;
    var asked := log + [ListRuns(commit)];
    assert a.clock(asked) >= a.clock(log);
    if a.runs(asked).Value? { FirstConcludedIsExact(a.runs(asked).value, commit); }
    n := 0;
    if IsFruitless(a, log, commit, deadline) {
      var next := Round(a, log, commit, deadline, interval);
      var pause := next[|next| - 1];
      assert a.clock(asked + [pause]) >= a.clock(asked) + pause.duration;
      var more := WaitIsExact(a, next, commit, deadline, interval);
      n := more + 1;
      assert Wait(a, log, commit, deadline, interval) == Wait(a, next, commit, deadline, interval);
      forall k: nat | k < n ensures IsFruitless(a, Rounds(a, log, commit, deadline, interval, k), commit, deadline) {
        if k > 0 { RoundsLater(a, log, commit, deadline, interval, k); }
      }
      RoundsLater(a, log, commit, deadline, interval, n);
    }
  }

  lemma {:induction false} RoundsLater(a: Answers, log: Log, commit: string, deadline: int, interval: int, k: nat)
    requires k > 0
    ensures Rounds(a, log, commit, deadline, interval, k)
            == Rounds(a, Round(a, log, commit, deadline, interval), commit, deadline, interval, k - 1)
  {
  }

  ghost predicate MayDispatch(a: Answers, log: Log, commit: string, clean: bool) {
    clean && ProbesPass(a, log)
    && a.mainHead(log + [Available, WorkflowEnabled, RunnerOnline, MainHead]) == Value(commit)
  }

  function Sent(log: Log): Log {
    log + [Available, WorkflowEnabled, RunnerOnline, MainHead, Dispatch("main")]
  }

  lemma {:induction false} DispatchedUnfolds(a: Answers, log: Log, commit: string, repository: string, clean: bool,
                                             timeout: int, interval: int)
    requires Ticks(a) && interval > 0
    ensures var probed := Probed(a, log);
            var head := probed.1 + [MainHead];
            var sent := head + [Dispatch("main")];
            var r := Dispatched(a, log, commit, repository, clean, timeout, interval).0;
            if !clean then r == Unavailable("dirty_worktree", false)
            else if probed.0.Some? then r == Unavailable(probed.0.value, false)
            else if a.mainHead(head) != Value(commit) then
              r == Unavailable(ReasonFor(a.mainHead(head), "head_not_on_remote_main"), false)
            else if a.dispatch(sent).Quota? then r == Unavailable("quota_exhausted", false)
            else if a.dispatch(sent).Failure? then r == Unavailable("dispatch_refused", false)
            else
              var w := Wait(a, sent, commit, a.clock(sent) + timeout, interval);
              if !w.0.Value? then r == Unavailable(ReasonFor(w.0, ""), true)
              else if w.0.value.None? then r == Unavailable("timeout", true)
              else r == Bound(a, w.1, w.0.value.value, commit, repository, true).0
  {
    hide Bound, Wait, Probed, Ticks;
  }

  /** Why nothing was dispatched. */
  ghost predicate NotSent(a: Answers, log: Log, commit: string, clean: bool, reason: string) {
    var head := a.mainHead(log + [Available, WorkflowEnabled, RunnerOnline, MainHead]);
    if !clean then reason == "dirty_worktree"
    else if !ProbesPass(a, log) then ProbeStops(a, log, reason)
    else if head != Value(commit) then reason == ReasonFor(head, "head_not_on_remote_main")
    else reason == if a.dispatch(Sent(log)).Quota? then "quota_exhausted" else "dispatch_refused"
  }

  /** A dispatch, exactly: verified, or failed, if and only if it may be made and is, and the listing that
      ends the wait holds evidence whose conclusion is, or is not, a success; otherwise unavailable, for the
      first reason, which is the timeout when no run of the commit had concluded by the deadline. */
  lemma {:induction false} DispatchIsExact(a: Answers, log: Log, commit: string, repository: string, clean: bool,
                                           timeout: int, interval: int, run: Run, jobs: seq<Job>) returns (n: nat)
    requires Ticks(a) && interval > 0
    ensures var sent := Sent(log);
            var deadline := a.clock(sent) + timeout;
            var asked := Rounds(a, sent, commit, deadline, interval, n) + [ListRuns(commit)];
            var r := Dispatched(a, log, commit, repository, clean, timeout, interval).0;
            var done := MayDispatch(a, log, commit, clean) && a.dispatch(sent).Value?;
            && (forall k: nat :: k < n ==>
                  IsFruitless(a, Rounds(a, sent, commit, deadline, interval, k), commit, deadline))
            && !IsFruitless(a, Rounds(a, sent, commit, deadline, interval, n), commit, deadline)
            && (r == Verified(run, jobs, true) <==>
                  done && IsEvidence(a, asked, commit, repository, run, jobs) && run.conclusion == "success")
            && (r == Failed(run, jobs, true) <==>
                  done && IsEvidence(a, asked, commit, repository, run, jobs) && run.conclusion != "success")
            && (r.Unavailable? ==>
                  && r.dispatched == done
                  && if done then Explains(a, asked, commit, repository, "timeout", r.reason)
                     else NotSent(a, log, commit, clean, r.reason))
  {
    hide Dispatched, ProbesPass, Probed, Bound, IsEvidence, FirstConcluded, NoneConcluded, Ticks, Wait, Rounds,
         Explains, ProbeStops;
    DispatchedUnfolds(a, log, commit, repository, clean, timeout, interval);
    ProbeIsExact(a, log);
    var sent := Sent(log);
    var probed := log + [Available, WorkflowEnabled, RunnerOnline];
    assert probed + [MainHead] == log + [Available, WorkflowEnabled, RunnerOnline, MainHead];
    assert probed + [MainHead] + [Dispatch("main")] == sent;
    var deadline := a.clock(sent) + timeout;
    n := WaitIsExact(a, sent, commit, deadline, interval);
    var asked := Rounds(a, sent, commit, deadline, interval, n) + [ListRuns(commit)];
    if a.runs(asked).Value? { FirstConcludedIsExact(a.runs(asked).value, commit); }
    var found := Found(a, asked, commit);
    if found.Value? && found.value.Some? {
      AfterListing(a, asked, commit, repository, true, run, jobs);
    } else {
      NothingFound(a, asked, commit, repository, run, jobs);
    }
    var r := Dispatched(a, log, commit, repository, clean, timeout, interval).0;
    if MayDispatch(a, log, commit, clean) && a.dispatch(sent).Value? && r.Unavailable? {
      NeverDispatched(a, asked, commit, repository);
      ListingExplains(a, asked, commit, repository, true, "timeout", r);
    }
  }

  /** The listing after n fruitless rounds is the one that ends the wait. */
  ghost predicate EndsWait(a: Answers, log: Log, commit: string, deadline: int, interval: int, n: nat) {
    && !IsFruitless(a, Rounds(a, log, commit, deadline, interval, n), commit, deadline)
    && forall k: nat :: k < n ==> IsFruitless(a, Rounds(a, log, commit, deadline, interval, k), commit, deadline)
  }

  lemma {:induction false} WaitEndsOnce(a: Answers, log: Log, commit: string, deadline: int, interval: int, m: nat,
                                        n: nat)
    requires EndsWait(a, log, commit, deadline, interval, m) && EndsWait(a, log, commit, deadline, interval, n)
    ensures m == n
  {
    hide Rounds, IsFruitless;
  }

  /** Evidence obtained by dispatching: it may be done and is, and the listing that ends the wait holds it. */
  ghost predicate IsDispatchedEvidence(a: Answers, log: Log, commit: string, repository: string, clean: bool,
                                       timeout: int, interval: int, run: Run, jobs: seq<Job>) {
    var sent := Sent(log);
    var deadline := a.clock(sent) + timeout;
    && MayDispatch(a, log, commit, clean) && a.dispatch(sent).Value?
    && exists n: nat :: EndsWait(a, sent, commit, deadline, interval, n)
         && IsEvidence(a, Rounds(a, sent, commit, deadline, interval, n) + [ListRuns(commit)], commit, repository, run,
                       jobs)
  }

  /** A dispatch gives a run and its jobs if and only if they are evidence obtained by dispatching. */
  lemma {:induction false} DispatchedEvidence(a: Answers, log: Log, commit: string, repository: string, clean: bool,
                                              timeout: int, interval: int, run: Run, jobs: seq<Job>)
    requires Ticks(a) && interval > 0
    ensures var r := Dispatched(a, log, commit, repository, clean, timeout, interval).0;
            var evidence := IsDispatchedEvidence(a, log, commit, repository, clean, timeout, interval, run, jobs);
            && (r == Verified(run, jobs, true) <==> evidence && run.conclusion == "success")
            && (r == Failed(run, jobs, true) <==> evidence && run.conclusion != "success")
            && (!r.Unavailable? ==> r.dispatched)
  {
    hide Dispatched, IsFruitless, IsEvidence, Ticks, Rounds, MayDispatch, Explains, NotSent;
    var n := DispatchIsExact(a, log, commit, repository, clean, timeout, interval, run, jobs);
    var sent := Sent(log);
    var deadline := a.clock(sent) + timeout;
    assert EndsWait(a, sent, commit, deadline, interval, n);
    forall m: nat | EndsWait(a, sent, commit, deadline, interval, m) ensures m == n {
      WaitEndsOnce(a, sent, commit, deadline, interval, m, n);
    }
    var r := Dispatched(a, log, commit, repository, clean, timeout, interval).0;
    FoundByDispatch(a, log, commit, repository, clean, timeout, interval);
  }

  lemma {:induction false} FoundByDispatch(a: Answers, log: Log, commit: string, repository: string, clean: bool,
                                           timeout: int, interval: int)
    requires Ticks(a) && interval > 0
    ensures var r := Dispatched(a, log, commit, repository, clean, timeout, interval).0;
            !r.Unavailable? ==> r.dispatched
  {
    hide Dispatched, Bound, Wait, Probed, Ticks;
    DispatchedUnfolds(a, log, commit, repository, clean, timeout, interval);
    var sent := Probed(a, log).1 + [MainHead] + [Dispatch("main")];
    NeverDispatched(a, Wait(a, sent, commit, a.clock(sent) + timeout, interval).1, commit, repository);
  }
}
