/** Observing and dispatching remote CI (scripts/local_closure_gate.py). The client is the only
    way out; it keeps a log of the calls made, and everything it answers may depend on that log. */
module RemoteAttempts {
  import opened Text
  import opened RemoteBinding

  datatype Reply<T> = Value(value: T) | Quota | Failure

  datatype Call = Available | WorkflowEnabled | RunnerOnline | ListRuns(commit: string) | Jobs(runId: int)
                | MainHead | Dispatch(ref: string) | Sleep(duration: int)

  type Log = seq<Call>

  /** What the outside would answer at each point: to the call that ends the log, and what the
      clocks read then. Monotonic time is in integer microseconds. */
  datatype Answers = Answers(available: Log -> bool, enabled: Log -> Reply<bool>, online: Log -> Reply<bool>,
                             runs: Log -> Reply<seq<Run>>, jobs: Log -> Reply<seq<Job>>, mainHead: Log -> Reply<string>,
                             dispatch: Log -> Reply<()>, wall: Log -> real, clock: Log -> int)

  /** Monotonic time does not run backwards, and sleeping takes at least as long as asked. */
  ghost predicate Ticks(a: Answers) {
    forall log, c :: a.clock(log + [c]) >= a.clock(log) + (if c.Sleep? then c.duration else 0)
  }

  class Client {
    const answers: Answers
    var log: Log

    constructor (answers: Answers)
      ensures this.answers == answers && log == []
    {
      this.answers := answers;
      log := [];
    }

    method GhAvailable() returns (r: bool)
      modifies this
      ensures log == old(log) + [Available] && r == answers.available(log)
    {
      log := log + [Available];
      r := answers.available(log);
    }

    method Enabled() returns (r: Reply<bool>)
      modifies this
      ensures log == old(log) + [WorkflowEnabled] && r == answers.enabled(log)
    {
      log := log + [WorkflowEnabled];
      r := answers.enabled(log);
    }

    method Online() returns (r: Reply<bool>)
      modifies this
      ensures log == old(log) + [RunnerOnline] && r == answers.online(log)
    {
      log := log + [RunnerOnline];
      r := answers.online(log);
    }

    method RunJobs(runId: int) returns (r: Reply<seq<Job>>)
      modifies this
      ensures log == old(log) + [Jobs(runId)] && r == answers.jobs(log)
    {
      log := log + [Jobs(runId)];
      r := answers.jobs(log);
    }

    method RemoteMainHead() returns (r: Reply<string>)
      modifies this
      ensures log == old(log) + [MainHead] && r == answers.mainHead(log)
    {
      log := log + [MainHead];
      r := answers.mainHead(log);
    }

    method RunWorkflow(ref: string) returns (r: Reply<()>)
      modifies this
      ensures log == old(log) + [Dispatch(ref)] && r == answers.dispatch(log)
    {
      log := log + [Dispatch(ref)];
      r := answers.dispatch(log);
    }

    /** `find_completed_run`: the first run of the commit that has concluded. */
    method FindCompletedRun(commit: string) returns (r: Reply<Option<Run>>)
      modifies this
      ensures log == old(log) + [ListRuns(commit)] && r == Found(answers, log, commit)
    {
      log := log + [ListRuns(commit)];
      var listing := answers.runs(log);
      if listing.Quota? { return Quota; }
      if listing.Failure? { return Failure; }
      var runs := listing.value;
      for i := 0 to |runs|
        invariant FirstConcluded(runs, commit) == FirstConcluded(runs[i..], commit)
      {
        assert runs[i..][1..] == runs[i + 1..];
        if runs[i].headSha == commit && runs[i].conclusion != [] { return Value(Some(runs[i])); }
      }
      return Value(None);
    }

    /** `wait_for_run`: poll until a run has concluded or the deadline has passed. */
    method WaitForRun(commit: string, timeout: int, interval: int) returns (r: Reply<Option<Run>>)
      requires Ticks(answers) && interval > 0
      modifies this
      ensures (r, log) == Wait(answers, old(log), commit, answers.clock(old(log)) + timeout, interval)
    {
      var deadline := answers.clock(log) + timeout;
      while true
        invariant Wait(answers, log, commit, deadline, interval) == Wait(answers, old(log), commit, deadline, interval)
        decreases if deadline > answers.clock(log) then deadline - answers.clock(log) else 0
      {
        r := FindCompletedRun(commit);
        if !r.Value? || r.value.Some? { return; }
        var remaining := deadline - answers.clock(log);
        if remaining <= 0 { return; }
        log := log + [Sleep(if interval < remaining then interval else remaining)];
      }
    }

    /** `_probe_remote`. */
    method Probe() returns (reason: Option<string>)
      modifies this
      ensures (reason, log) == Probed(answers, old(log))
    {
      var available := GhAvailable();
      if !available { return Some("gh_cli_unavailable"); }
      var enabled := Enabled();
      if enabled.Quota? { return Some("quota_exhausted"); }
      if enabled.Failure? { return Some("api_unavailable"); }
      if !enabled.value { return Some("workflow_disabled"); }
      var online := Online();
      if online.Quota? { return Some("quota_exhausted"); }
      if online.Failure? { return Some("api_unavailable"); }
      if !online.value { return Some("runner_offline"); }
      return None;
    }

    /** `_bound_attempt`. */
    method BoundAttempt(run: Run, commit: string, repository: string, dispatched: bool) returns (r: Attempt)
      modifies this
      ensures (r, log) == Bound(answers, old(log), run, commit, repository, dispatched)
    {
      var jobs := RunJobs(run.runId);
      if jobs.Quota? { return Unavailable("quota_exhausted", dispatched); }
      if jobs.Failure? { return Unavailable("api_unavailable", dispatched); }
      var reason := BindRemoteRun(run, jobs.value, commit, repository, answers.wall(log));
      if reason.Some? { return Unavailable(reason.value, dispatched); }
      return if run.conclusion == "success" then Verified(run, jobs.value, dispatched)
             else Failed(run, jobs.value, dispatched);
    }

    /** `observe_remote_ci`. */
    method Observe(commit: string, repository: string) returns (r: Attempt)
      modifies this
      ensures (r, log) == Observed(answers, old(log), commit, repository)
    {
      var probe := Probe();
      if probe.Some? { return Unavailable(probe.value, false); }
      var existing := FindCompletedRun(commit);
      if existing.Quota? { return Unavailable("quota_exhausted", false); }
      if existing.Failure? { return Unavailable("api_unavailable", false); }
      if existing.value.None? { return Unavailable("no_completed_run", false); }
      r := BoundAttempt(existing.value.value, commit, repository, false);
    }

    /** `dispatch_remote_ci`. */
    method DispatchAndWait(commit: string, repository: string, clean: bool, timeout: int,
                           interval: int) returns (r: Attempt)
      requires Ticks(answers) && interval > 0
      modifies this
      ensures (r, log) == Dispatched(answers, old(log), commit, repository, clean, timeout, interval)
    {
      hide Wait, Bound, Probed, Ticks;
      if !clean { return Unavailable("dirty_worktree", false); }
      var probe := Probe();
      if probe.Some? { return Unavailable(probe.value, false); }
      var head := RemoteMainHead();
      if head.Quota? { return Unavailable("quota_exhausted", false); }
      if head.Failure? { return Unavailable("api_unavailable", false); }
      if head.value != commit { return Unavailable("head_not_on_remote_main", false); }
      var sent := RunWorkflow("main");
      if sent.Quota? { return Unavailable("quota_exhausted", false); }
      if sent.Failure? { return Unavailable("dispatch_refused", false); }
      var result := WaitForRun(commit, timeout, interval);
      if result.Quota? { return Unavailable("quota_exhausted", true); }
      if result.Failure? { return Unavailable("api_unavailable", true); }
      if result.value.None? { return Unavailable("timeout", true); }
      r := BoundAttempt(result.value.value, commit, repository, true);
    }
  }

  // ---------- what the methods compute ----------

  datatype Attempt = Verified(run: Run, jobs: seq<Job>, dispatched: bool)
                   | Failed(run: Run, jobs: seq<Job>, dispatched: bool)
                   | Unavailable(reason: string, dispatched: bool)

  function FirstConcluded(runs: seq<Run>, commit: string): Option<Run> {
    if runs == [] then None
    else if runs[0].headSha == commit && runs[0].conclusion != [] then Some(runs[0])
    else FirstConcluded(runs[1..], commit)
  }

  function Found(a: Answers, log: Log, commit: string): Reply<Option<Run>> {
    match a.runs(log) {
      case Quota => Quota
      case Failure => Failure
      case Value(runs) => Value(FirstConcluded(runs, commit))
    }
  }

  ghost function Wait(a: Answers, log: Log, commit: string, deadline: int, interval: int): (Reply<Option<Run>>, Log)
    requires Ticks(a) && interval > 0
    decreases if deadline > a.clock(log) then deadline - a.clock(log) else 0
  {
    var asked := log + [ListRuns(commit)];
    var r := Found(a, asked, commit);
    var remaining := deadline - a.clock(asked);
    if !r.Value? || r.value.Some? || remaining <= 0 then (r, asked)
    else
      var pause := Sleep(if interval < remaining then interval else remaining);
      assert a.clock(asked + [pause]) >= a.clock(asked) + pause.duration;
      Wait(a, asked + [pause], commit, deadline, interval)
  }

  function Probed(a: Answers, log: Log): (Option<string>, Log) {
    var l1 := log + [Available];
    var l2 := l1 + [WorkflowEnabled];
    var l3 := l2 + [RunnerOnline];
    if !a.available(l1) then (Some("gh_cli_unavailable"), l1)
    else match a.enabled(l2) {
      case Quota => (Some("quota_exhausted"), l2)
      case Failure => (Some("api_unavailable"), l2)
      case Value(enabled) =>
        if !enabled then (Some("workflow_disabled"), l2)
        else match a.online(l3) {
          case Quota => (Some("quota_exhausted"), l3)
          case Failure => (Some("api_unavailable"), l3)
          case Value(online) => (if online then None else Some("runner_offline"), l3)
        }
    }
  }

  function Bound(a: Answers, log: Log, run: Run, commit: string, repository: string, dispatched: bool): (Attempt, Log) {
    var asked := log + [Jobs(run.runId)];
    (match a.jobs(asked) {
       case Quota => Unavailable("quota_exhausted", dispatched)
       case Failure => Unavailable("api_unavailable", dispatched)
       case Value(jobs) =>
         var reason := BindingProblem(run, jobs, commit, repository, a.wall(asked));
         if reason.Some? then Unavailable(reason.value, dispatched)
         else if run.conclusion == "success" then Verified(run, jobs, dispatched)
         else Failed(run, jobs, dispatched)
     }, asked)
  }

  function Observed(a: Answers, log: Log, commit: string, repository: string): (Attempt, Log) {
    var (probe, l) := Probed(a, log);
    if probe.Some? then (Unavailable(probe.value, false), l)
    else
      var asked := l + [ListRuns(commit)];
      match Found(a, asked, commit) {
        case Quota => (Unavailable("quota_exhausted", false), asked)
        case Failure => (Unavailable("api_unavailable", false), asked)
        case Value(None) => (Unavailable("no_completed_run", false), asked)
        case Value(Some(run)) => Bound(a, asked, run, commit, repository, false)
      }
  }

  ghost function Dispatched(a: Answers, log: Log, commit: string, repository: string, clean: bool, timeout: int,
                            interval: int): (Attempt, Log)
    requires Ticks(a) && interval > 0
  {
    if !clean then (Unavailable("dirty_worktree", false), log)
    else
      var (probe, l) := Probed(a, log);
      if probe.Some? then (Unavailable(probe.value, false), l)
      else
        var asked := l + [MainHead];
        match a.mainHead(asked) {
          case Quota => (Unavailable("quota_exhausted", false), asked)
          case Failure => (Unavailable("api_unavailable", false), asked)
          case Value(head) =>
            if head != commit then (Unavailable("head_not_on_remote_main", false), asked)
            else AfterMain(a, asked + [Dispatch("main")], commit, repository, timeout, interval)
        }
  }

  ghost function AfterMain(a: Answers, sent: Log, commit: string, repository: string, timeout: int,
                           interval: int): (Attempt, Log)
    requires Ticks(a) && interval > 0
  {
    match a.dispatch(sent) {
      case Quota => (Unavailable("quota_exhausted", false), sent)
      case Failure => (Unavailable("dispatch_refused", false), sent)
      case Value(_) =>
        var (result, l) := Wait(a, sent, commit, a.clock(sent) + timeout, interval);
        match result {
          case Quota => (Unavailable("quota_exhausted", true), l)
          case Failure => (Unavailable("api_unavailable", true), l)
          case Value(None) => (Unavailable("timeout", true), l)
          case Value(Some(run)) => Bound(a, l, run, commit, repository, true)
        }
    }
  }

  // ---------- what is proved of them ----------

  function Dispatches(log: Log): nat {
    if log == [] then 0 else Dispatches(log[..|log| - 1]) + (if log[|log| - 1].Dispatch? then 1 else 0)
  }

  function Listings(log: Log): nat {
    if log == [] then 0 else Listings(log[..|log| - 1]) + (if log[|log| - 1].ListRuns? then 1 else 0)
  }

  lemma {:induction false} OneMore(log: Log, c: Call)
    ensures Dispatches(log + [c]) == Dispatches(log) + (if c.Dispatch? then 1 else 0)
    ensures Listings(log + [c]) == Listings(log) + (if c.ListRuns? then 1 else 0)
  {
  }

  lemma {:induction false} ProbingDoesNotDispatch(a: Answers, log: Log)
    ensures Dispatches(Probed(a, log).1) == Dispatches(log) && log <= Probed(a, log).1
    ensures Probed(a, log).0.None? ==>
      && a.available(log + [Available])
      && a.enabled(log + [Available] + [WorkflowEnabled]) == Value(true)
      && a.online(log + [Available] + [WorkflowEnabled] + [RunnerOnline]) == Value(true)
  {
    hide Dispatches, Listings;
    var l1 := log + [Available];
    var l2 := l1 + [WorkflowEnabled];
    OneMore(log, Available);
    OneMore(l1, WorkflowEnabled);
    OneMore(l2, RunnerOnline);
  }

  /** A bounded wait only lists and sleeps. */
  lemma {:induction false} WaitingDoesNotDispatch(a: Answers, log: Log, commit: string, deadline: int, interval: int)
    requires Ticks(a) && interval > 0
    ensures var (r, l) := Wait(a, log, commit, deadline, interval);
            && Dispatches(l) == Dispatches(log) && log <= l
            && (r.Value? && r.value.Some? ==> r.value.value.headSha == commit && r.value.value.conclusion != [])
    decreases if deadline > a.clock(log) then deadline - a.clock(log) else 0
  {
    hide Dispatches, Listings;
    var asked := log + [ListRuns(commit)];
    OneMore(log, ListRuns(commit));
    var r := Found(a, asked, commit);
    if a.runs(asked).Value? { ConcludedRun(a.runs(asked).value, commit); }
    var remaining := deadline - a.clock(asked);
    assert a.clock(asked) >= a.clock(log);
    if r.Value? && r.value.None? && remaining > 0 {
      var pause := Sleep(if interval < remaining then interval else remaining);
      assert a.clock(asked + [pause]) >= a.clock(asked) + pause.duration;
      OneMore(asked, pause);
      WaitingDoesNotDispatch(a, asked + [pause], commit, deadline, interval);
    }
  }

  lemma {:induction false} ConcludedRun(runs: seq<Run>, commit: string)
    ensures var r := FirstConcluded(runs, commit);
            r.Some? ==> r.value in runs && r.value.headSha == commit && r.value.conclusion != []
  {
    if runs != [] { ConcludedRun(runs[1..], commit); }
  }

  /** The most listings a wait of some length can make: one more per interval begun. */
  function MaxListings(remaining: int, interval: int): (n: nat)
    requires interval > 0
    ensures n >= 1 && (remaining > 0 ==> interval * (n - 1) < remaining + interval)
    decreases if remaining > 0 then remaining else 0
  {
    if remaining <= 0 then 1
    else
      var fewer := MaxListings(remaining - interval, interval);
      assert interval * fewer == interval * (fewer - 1) + interval;
      1 + fewer
  }

  lemma {:induction false} MaxListingsIsMonotone(x: int, y: int, interval: int)
    requires interval > 0 && y <= x
    ensures MaxListings(y, interval) <= MaxListings(x, interval)
    decreases if x > 0 then x else 0
  {
    if x > 0 { MaxListingsIsMonotone(x - interval, y - interval, interval); }
  }

  lemma {:induction false} FewerListings(remaining: int, rest: int, interval: int)
    requires interval > 0 && remaining > 0 && (rest <= 0 || rest <= remaining - interval)
    ensures 1 + MaxListings(rest, interval) <= MaxListings(remaining, interval)
  {
    if rest > 0 { MaxListingsIsMonotone(remaining - interval, rest, interval); }
  }

  /** Polling is bounded: a wait asks for the runs at most once more per interval. */
  lemma {:induction false} PollingIsBounded(a: Answers, log: Log, commit: string, deadline: int, interval: int)
    requires Ticks(a) && interval > 0
    ensures Listings(Wait(a, log, commit, deadline, interval).1)
            <= Listings(log) + MaxListings(deadline - a.clock(log), interval)
    decreases if deadline > a.clock(log) then deadline - a.clock(log) else 0
  {
    hide Dispatches, Listings, MaxListings;
    var asked := log + [ListRuns(commit)];
    OneMore(log, ListRuns(commit));
    var r := Found(a, asked, commit);
    var remaining := deadline - a.clock(asked);
    assert a.clock(asked) >= a.clock(log);
    MaxListingsIsMonotone(deadline - a.clock(log), remaining, interval);
    if r.Value? && r.value.None? && remaining > 0 {
      var pause := Sleep(if interval < remaining then interval else remaining);
      assert a.clock(asked + [pause]) >= a.clock(asked) + pause.duration;
      OneMore(asked, pause);
      PollingIsBounded(a, asked + [pause], commit, deadline, interval);
      FewerListings(remaining, deadline - a.clock(asked + [pause]), interval);
    }
  }

  /** Observing never dispatches, whatever the outside answers. */
  lemma {:induction false} ObservingNeverDispatches(a: Answers, log: Log, commit: string, repository: string)
    ensures var (r, l) := Observed(a, log, commit, repository); Dispatches(l) == Dispatches(log) && !r.dispatched
  {
    hide Dispatches, Listings, Probed;
    ProbingDoesNotDispatch(a, log);
    var l := Probed(a, log).1;
    var asked := l + [ListRuns(commit)];
    OneMore(l, ListRuns(commit));
    var found := Found(a, asked, commit);
    if found.Value? && found.value.Some? { OneMore(asked, Jobs(found.value.value.runId)); }
  }

  /** Dispatching happens exactly when the worktree is clean, all probes pass and the head of
      main is the commit; then it happens once, for main, and the answer says whether it did. */
  lemma {:induction false} DispatchIsGuarded(a: Answers, log: Log, commit: string, repository: string, clean: bool,
                                             timeout: int, interval: int)
    requires Ticks(a) && interval > 0
    ensures var (r, l) := Dispatched(a, log, commit, repository, clean, timeout, interval);
            var head := Probed(a, log).1 + [MainHead];
            var guarded := clean && Probed(a, log).0.None? && a.mainHead(head) == Value(commit);
            && Dispatches(l) == Dispatches(log) + (if guarded then 1 else 0)
            && (guarded ==> head + [Dispatch("main")] <= l)
            && (r.dispatched <==> guarded && a.dispatch(head + [Dispatch("main")]).Value?)
  {
    hide Dispatches, Listings, Probed, Ticks, AfterMain;
    ProbingDoesNotDispatch(a, log);
    var l := Probed(a, log).1;
    var head := l + [MainHead];
    OneMore(l, MainHead);
    OneMore(head, Dispatch("main"));
    AfterMainWaits(a, head + [Dispatch("main")], commit, repository, timeout, interval);
  }

  lemma {:induction false} AfterMainWaits(a: Answers, sent: Log, commit: string, repository: string, timeout: int,
                                          interval: int)
    requires Ticks(a) && interval > 0
    ensures var (r, l) := AfterMain(a, sent, commit, repository, timeout, interval);
            Dispatches(l) == Dispatches(sent) && sent <= l && (r.dispatched <==> a.dispatch(sent).Value?)
  {
    hide Dispatches, Listings, Wait, Ticks, BindingProblem;
    var deadline := a.clock(sent) + timeout;
    WaitingDoesNotDispatch(a, sent, commit, deadline, interval);
    var (result, l) := Wait(a, sent, commit, deadline, interval);
    if result.Value? && result.value.Some? { OneMore(l, Jobs(result.value.value.runId)); }
  }

  // ---------- what an attempt means ----------

  const UNAVAILABLE_REASONS := {"gh_cli_unavailable", "quota_exhausted", "api_unavailable", "workflow_disabled",
                                "runner_offline", "repository_unresolvable", "no_completed_run", "dirty_worktree",
                                "head_not_on_remote_main", "dispatch_refused", "timeout"} + BINDING_REASONS

  /** A verified or failed attempt carries a run that is bound to the commit now, with its
      jobs; the two differ in the conclusion of the run alone. Anything else is unavailable,
      for a reason in the catalogue. */
  ghost predicate IsSound(r: Attempt, a: Answers, log: Log, commit: string, repository: string) {
    match r {
      case Verified(run, jobs, _) => IsBound(run, jobs, commit, repository, a.wall(log)) && run.conclusion == "success"
      case Failed(run, jobs, _) => IsBound(run, jobs, commit, repository, a.wall(log)) && run.conclusion != "success"
      case Unavailable(reason, _) => reason in UNAVAILABLE_REASONS
    }
  }

  lemma BoundIsSound(a: Answers, log: Log, run: Run, commit: string, repository: string, dispatched: bool)
    ensures var (r, l) := Bound(a, log, run, commit, repository, dispatched); IsSound(r, a, l, commit, repository)
  {
    hide BindingProblem, IsBound;
    var asked := log + [Jobs(run.runId)];
    if a.jobs(asked).Value? {
      BoundMeansNoProblem(run, a.jobs(asked).value, commit, repository, a.wall(asked));
      ProblemIsCatalogued(run, a.jobs(asked).value, commit, repository, a.wall(asked));
    }
  }

  lemma ProblemIsCatalogued(run: Run, jobs: seq<Job>, commit: string, repository: string, now: real)
    ensures var p := BindingProblem(run, jobs, commit, repository, now); p.Some? ==> p.value in BINDING_REASONS
  {
    JobProblemIsCatalogued(jobs, REQUIRED_JOBS);
  }

  lemma {:induction false} JobProblemIsCatalogued(jobs: seq<Job>, names: seq<string>)
    ensures var p := JobProblem(jobs, names); p.Some? ==> p.value in BINDING_REASONS
  {
    if names != [] { JobProblemIsCatalogued(jobs, names[1..]); }
  }

  lemma ObservedIsSound(a: Answers, log: Log, commit: string, repository: string)
    ensures var (r, l) := Observed(a, log, commit, repository); IsSound(r, a, l, commit, repository)
  {
    hide Bound, IsBound;
    var l := Probed(a, log).1 + [ListRuns(commit)];
    var found := Found(a, l, commit);
    if found.Value? && found.value.Some? { BoundIsSound(a, l, found.value.value, commit, repository, false); }
  }

  lemma DispatchedIsSound(a: Answers, log: Log, commit: string, repository: string, clean: bool, timeout: int,
                          interval: int)
    requires Ticks(a) && interval > 0
    ensures var (r, l) := Dispatched(a, log, commit, repository, clean, timeout, interval);
            IsSound(r, a, l, commit, repository)
  {
    hide Bound, IsBound, Wait, Ticks;
    var sent := Probed(a, log).1 + [MainHead] + [Dispatch("main")];
    var (result, l) := Wait(a, sent, commit, a.clock(sent) + timeout, interval);
    if result.Value? && result.value.Some? { BoundIsSound(a, l, result.value.value, commit, repository, true); }
  }

  /** When an obtained run counts as failed: if and only if it is bound, which takes every required
      job to have succeeded, and its own conclusion is another. */
  lemma {:induction false} FailedMeansBound(a: Answers, log: Log, run: Run, commit: string, repository: string,
                                            dispatched: bool)
    ensures var asked := log + [Jobs(run.runId)];
            var r := Bound(a, log, run, commit, repository, dispatched).0;
            a.jobs(asked).Value? ==>
              && (r.Failed? <==>
                    run.conclusion != "success" && IsBound(run, a.jobs(asked).value, commit, repository, a.wall(asked)))
              && (r.Verified? <==>
                    run.conclusion == "success" && IsBound(run, a.jobs(asked).value, commit, repository, a.wall(asked)))
  {
    hide BindingProblem, IsBound;
    var asked := log + [Jobs(run.runId)];
    if a.jobs(asked).Value? { BoundMeansNoProblem(run, a.jobs(asked).value, commit, repository, a.wall(asked)); }
  }

  /** So a run with a required job that does not qualify is never reported as failed, although it
      did fail: it is unavailable, and cannot make a gate fail. */
  lemma {:induction false} UnsuccessfulJobIsUnavailable(
      a: Answers, log: Log, run: Run, commit: string, repository: string, dispatched: bool, i: nat)
    requires i < |REQUIRED_JOBS|
    ensures var asked := log + [Jobs(run.runId)];
            a.jobs(asked).Value? && !JobQualifies(a.jobs(asked).value, REQUIRED_JOBS[i]) ==>
              Bound(a, log, run, commit, repository, dispatched).0.Unavailable?
  {
    hide JobQualifies, Bound, IsBound;
    FailedMeansBound(a, log, run, commit, repository, dispatched);
    var asked := log + [Jobs(run.runId)];
    if a.jobs(asked).Value? { BoundMeans(run, a.jobs(asked).value, commit, repository, a.wall(asked)); }
  }

  /** A run that failed because its first required job did, as it is reported: unavailable. */
  lemma {:induction false} FailedRunCanBeUnavailable(a: Answers, commit: string, repository: string)
    requires a.wall([Jobs(1)]) == 0.0
    requires a.jobs([Jobs(1)]) == Value([Job("backend", "failure", LABELS), Job("web", "success", LABELS),
                                         Job("canonical-source-browser", "success", LABELS),
                                         Job("security", "success", LABELS),
                                         Job("package-validation", "success", LABELS),
                                         Job("compose-integration", "success", LABELS)])
    ensures var run := Run(1, "failure", "", repository, WORKFLOW, "pull_request", commit, Some(0.0));
            Bound(a, [], run, commit, repository, false).0 == Unavailable("job_not_successful", false)
  {
    hide LABELS;
    var jobs := a.jobs([Jobs(1)]).value;
    assert [] + [Jobs(1)] == [Jobs(1)];
    assert REQUIRED_JOBS[0] == "backend";
    assert EVENTS[1] == "pull_request";
    EveryJobIsListed(jobs);
    FirstNamedIsFailed(jobs);
  }

  lemma {:induction false} EveryJobIsListed(jobs: seq<Job>)
    requires |jobs| == 6 && forall i :: 0 <= i < 6 ==> jobs[i].name == REQUIRED_JOBS[i]
    ensures !MissingFrom(jobs, REQUIRED_JOBS)
  {
    forall i | 0 <= i < 6 ensures JobNamed(jobs, REQUIRED_JOBS[i]).Some? { assert jobs[i].name == REQUIRED_JOBS[i]; }
    NoneMissing(jobs, REQUIRED_JOBS);
  }

  lemma {:induction false} NoneMissing(jobs: seq<Job>, names: seq<string>)
    requires forall i :: 0 <= i < |names| ==> JobNamed(jobs, names[i]).Some?
    ensures !MissingFrom(jobs, names)
  {
    if names != [] { NoneMissing(jobs, names[1..]); }
  }

  lemma {:induction false} FirstNamedIsFailed(jobs: seq<Job>)
    requires |jobs| == 6 && forall i :: 0 <= i < 6 ==> jobs[i].name == REQUIRED_JOBS[i]
    requires jobs[0].conclusion == "failure"
    ensures JobNamed(jobs, "backend") == Some(jobs[0])
  {
    var job := JobNamed(jobs, "backend");
    assert jobs[0].name == "backend";
    assert job.Some?;
    var i :| 0 <= i < 6 && jobs[i] == job.value;
    assert REQUIRED_JOBS[1][0] == 'w' && REQUIRED_JOBS[2][0] == 'c' && REQUIRED_JOBS[3][0] == 's';
    assert REQUIRED_JOBS[4][0] == 'p'
           && REQUIRED_JOBS[5][0] == 'c';
  }
}
