/** The verdict of a closure gate (scripts/local_closure_gate.py): local evidence decides, remote
    evidence can only add a refusal. */
module ClosureGate {
  import opened Text
  import opened RemoteBinding
  import opened RemoteAttempts
  import opened RemoteVerdicts

  /** What the checkout and the machine would answer. Commands are known by their labels;
      whether the worktree is clean afterwards depends on which of them ran. The missing tools
      are those of the default plan; an explicit plan requires none. */
  datatype Local = Local(preflight: seq<string>, lifecycle: Option<string>, containerLabel: bool,
                         containerDetected: bool,
                         cleanBefore: bool, cleanAfter: seq<string> -> bool, plan: seq<string>, passes: string -> bool,
                         missingTools: seq<string>)

  const LIFECYCLE_FAILED := "workspace lifecycle closure failed: "
  const NO_CONTAINER := "container environment label was not corroborated by the execution environment"
  const UNCLEAN_BEFORE := "Git worktree was not clean before the gate"
  const DRY_RUN := "dry run does not execute or validate closure commands"
  const UNCLEAN_AFTER := "Git worktree was not clean after the gate"
  const REMOTE_CONCLUDED := "remote CI run concluded "
  const COMMAND_FAILED := "command failed: "
  const TOOL_UNAVAILABLE := "required tool version unavailable: "

  datatype Record = Record(name: string, passed: bool)

  function Prefixed(prefix: string, names: seq<string>): (r: seq<string>)
    ensures |r| == |names| && forall i :: 0 <= i < |r| ==> r[i] == prefix + names[i]
  {
    if names == [] then [] else [prefix + names[0]] + Prefixed(prefix, names[1..])
  }

  function FailedLabels(plan: seq<string>, passes: string -> bool): (r: seq<string>)
    ensures r == [] <==> forall i :: 0 <= i < |plan| ==> passes(plan[i])
  {
    if plan == [] then []
    else
      var last := plan[|plan| - 1];
      FailedLabels(plan[..|plan| - 1], passes) + (if passes(last) then [] else [last])
  }

  function When(c: bool, text: string): seq<string> {
    if c then [text] else []
  }

  /** What stands in the way before any command is run. */
  function Before(l: Local, dryRun: bool): seq<string> {
    l.preflight
    + When(l.lifecycle.Some?, LIFECYCLE_FAILED + (if l.lifecycle.Some? then l.lifecycle.value else []))
    + When(l.containerLabel && !l.containerDetected, NO_CONTAINER)
    + When(!l.cleanBefore, UNCLEAN_BEFORE)
    + When(dryRun, DRY_RUN)
  }

  function Executed(l: Local, dryRun: bool): seq<string> {
    if Before(l, dryRun) == [] then l.plan else []
  }

  function RemoteBlocker(remote: Option<Attempt>): seq<string> {
    if remote.Some? && remote.value.Failed? then [REMOTE_CONCLUDED + remote.value.run.conclusion] else []
  }

  function Blockers(l: Local, dryRun: bool, remote: Option<Attempt>): seq<string> {
    Before(l, dryRun)
    + When(!l.cleanAfter(Executed(l, dryRun)), UNCLEAN_AFTER)
    + RemoteBlocker(remote)
    + Prefixed(COMMAND_FAILED, FailedLabels(Executed(l, dryRun), l.passes))
    + Prefixed(TOOL_UNAVAILABLE, l.missingTools)
  }

  /** The checkout closes: every local condition holds and every command of the plan passes. */
  predicate Closes(l: Local) {
    && l.preflight == [] && l.lifecycle.None? && (l.containerLabel ==> l.containerDetected)
    && l.cleanBefore && l.cleanAfter(l.plan) && l.missingTools == []
    && forall i :: 0 <= i < |l.plan| ==> l.passes(l.plan[i])
  }

  /** The checks made before any command. */
  method Preliminaries(l: Local, dryRun: bool) returns (blockers: seq<string>)
    ensures blockers == Before(l, dryRun)
  {
    hide LIFECYCLE_FAILED, NO_CONTAINER, UNCLEAN_BEFORE, DRY_RUN;
    blockers := l.preflight;
    if l.lifecycle.Some? { blockers := blockers + [LIFECYCLE_FAILED + l.lifecycle.value]; }
    if l.containerLabel && !l.containerDetected {
      blockers := blockers + [NO_CONTAINER];
    }
    if !l.cleanBefore { blockers := blockers + [UNCLEAN_BEFORE]; }
    if dryRun { blockers := blockers + [DRY_RUN]; }
  }

  method RunPlan(plan: seq<string>, passes: string -> bool) returns (records: seq<Record>)
    ensures |records| == |plan| && forall i :: 0 <= i < |records| ==> records[i] == Record(plan[i], passes(plan[i]))
  {
    records := [];
    for i := 0 to |plan|
      invariant |records| == i && forall k :: 0 <= k < i ==> records[k] == Record(plan[k], passes(plan[k]))
    {
      records := records + [Record(plan[i], passes(plan[i]))];
    }
  }

  /** The local part of `run_gate`: commands run only when nothing is in the way. */
  method Judge(l: Local, dryRun: bool, remote: Option<Attempt>)
    returns (passed: bool, blockers: seq<string>, records: seq<Record>)
    ensures passed <==> !dryRun && Closes(l) && !(remote.Some? && remote.value.Failed?)
    ensures passed <==> blockers == []
    ensures blockers == Blockers(l, dryRun, remote)
    ensures |records| == |Executed(l, dryRun)|
    ensures forall i :: 0 <= i < |records| ==> records[i] == Record(l.plan[i], l.passes(l.plan[i]))
  {
    hide Before, Closes, Blockers, FailedLabels, After;
    blockers := Preliminaries(l, dryRun);
    records := [];
    var executed := Executed(l, dryRun);
    if blockers == [] { records := RunPlan(l.plan, l.passes); }
    var failed := FailedRecords(records, l.passes, executed);
    var more := Aftermath(l, executed, failed, remote);
    blockers := blockers + more;
    BlockersSplit(l, dryRun, remote);
    NoBlockers(l, dryRun, remote);
    passed := !dryRun && blockers == [] && |records| == |l.plan| && failed == [];
    passed := passed && l.cleanBefore && l.cleanAfter(executed);
    if blockers == [] { ClosesWhenUnblocked(l, dryRun, remote); }
  }

  /** What stands in the way once the commands have run. */
  function After(l: Local, executed: seq<string>, failed: seq<string>, remote: Option<Attempt>): seq<string> {
    When(!l.cleanAfter(executed), UNCLEAN_AFTER) + RemoteBlocker(remote) + Prefixed(COMMAND_FAILED, failed)
    + Prefixed(TOOL_UNAVAILABLE, l.missingTools)
  }

  lemma {:induction false} BlockersSplit(l: Local, dryRun: bool, remote: Option<Attempt>)
    ensures var executed := Executed(l, dryRun);
            Blockers(l, dryRun, remote)
            == Before(l, dryRun) + After(l, executed, FailedLabels(executed, l.passes), remote)
  {
    hide Before, Prefixed, FailedLabels, UNCLEAN_AFTER, COMMAND_FAILED, TOOL_UNAVAILABLE, RemoteBlocker;
  }

  /** The checks made after the commands. */
  method Aftermath(l: Local, executed: seq<string>, failed: seq<string>,
                   remote: Option<Attempt>) returns (blockers: seq<string>)
    ensures blockers == After(l, executed, failed, remote)
  {
    hide Prefixed, UNCLEAN_AFTER, REMOTE_CONCLUDED, COMMAND_FAILED, TOOL_UNAVAILABLE;
    blockers := [];
    if !l.cleanAfter(executed) { blockers := blockers + [UNCLEAN_AFTER]; }
    if remote.Some? && remote.value.Failed? { blockers := blockers + [REMOTE_CONCLUDED + remote.value.run.conclusion]; }
    blockers := blockers + Prefixed(COMMAND_FAILED, failed);
    blockers := blockers + Prefixed(TOOL_UNAVAILABLE, l.missingTools);
  }

  method FailedRecords(records: seq<Record>, passes: string -> bool,
                       executed: seq<string>) returns (labels: seq<string>)
    requires |records| == |executed|
    requires forall i :: 0 <= i < |records| ==> records[i] == Record(executed[i], passes(executed[i]))
    ensures labels == FailedLabels(executed, passes)
  {
    labels := [];
    for i := 0 to |records|
      invariant labels == FailedLabels(executed[..i], passes)
    {
      assert executed[..i + 1][..i] == executed[..i];
      if !records[i].passed { labels := labels + [records[i].name]; }
    }
    assert executed[..|records|] == executed;
  }

  /** No blocker is left exactly when the checkout closes, the run was real and the remote did
      not fail. */
  lemma NoBlockers(l: Local, dryRun: bool, remote: Option<Attempt>)
    ensures Blockers(l, dryRun, remote) == [] <==> !dryRun && Closes(l) && !(remote.Some? && remote.value.Failed?)
  {
  }

  lemma ClosesWhenUnblocked(l: Local, dryRun: bool, remote: Option<Attempt>)
    requires Blockers(l, dryRun, remote) == []
    ensures Executed(l, dryRun) == l.plan && FailedLabels(l.plan, l.passes) == [] && l.cleanBefore
    ensures l.cleanAfter(l.plan)
  {
  }

  /** `run_gate`: the remote part, then the local one. */
  method RunGate(client: Client, l: Local, dryRun: bool, remote: bool, remoteDispatch: bool, repository: Option<string>,
                 commit: string, timeout: int, interval: int)
    returns (passed: bool, blockers: seq<string>, attempt: Option<Attempt>)
    requires Ticks(client.answers) && interval > 0
    modifies client
    ensures (attempt, client.log) == Attempted(client.answers, old(client.log), l, dryRun, remote, remoteDispatch,
                                               repository, commit, timeout, interval)
    ensures passed <==> !dryRun && Closes(l) && !(attempt.Some? && attempt.value.Failed?)
    ensures blockers == Blockers(l, dryRun, attempt)
  {
    attempt := None;
    if (remote || remoteDispatch) && !dryRun {
      if repository.None? {
        attempt := Some(Unavailable("repository_unresolvable", false));
      } else if remoteDispatch {
        var r := client.DispatchAndWait(commit, repository.value, l.cleanBefore, timeout, interval);
        attempt := Some(r);
      } else {
        var r := client.Observe(commit, repository.value);
        attempt := Some(r);
      }
    }
    var records;
    passed, blockers, records := Judge(l, dryRun, attempt);
  }

  ghost function Attempted(a: Answers, log: Log, l: Local, dryRun: bool, remote: bool, remoteDispatch: bool,
                           repository: Option<string>,
                           commit: string, timeout: int, interval: int): (Option<Attempt>, Log)
    requires Ticks(a) && interval > 0
  {
    if !(remote || remoteDispatch) || dryRun then (None, log)
    else if repository.None? then (Some(Unavailable("repository_unresolvable", false)), log)
    else if remoteDispatch then
      var (r, after) := Dispatched(a, log, commit, repository.value, l.cleanBefore, timeout, interval);
      (Some(r), after)
    else
      var (r, after) := Observed(a, log, commit, repository.value);
      (Some(r), after)
  }

  /** The gate's promise about remote evidence: it never replaces a local check, whatever was
      asked and answered. A remote attempt turns a pass into a failure only through a run that
      is bound to the commit, all its required jobs successful, and did not itself succeed. */
  lemma RemoteEvidenceIsSupplemental(a: Answers, log: Log, l: Local, dryRun: bool, remote: bool, remoteDispatch: bool,
                                     repository: Option<string>, commit: string, timeout: int, interval: int)
    requires Ticks(a) && interval > 0
    ensures var (attempt, after) := Attempted(a, log, l, dryRun, remote, remoteDispatch, repository, commit, timeout,
                                              interval);
            && (Blockers(l, dryRun, attempt) == [] ==> Blockers(l, dryRun, None) == [])
            && (Blockers(l, dryRun, None) == [] && Blockers(l, dryRun, attempt) != [] ==>
                  && attempt.Some? && attempt.value.Failed? && repository.Some?
                  && attempt.value.run.conclusion != "success"
                  && IsBound(attempt.value.run, attempt.value.jobs, commit, repository.value, a.wall(after)))
  {
    hide Blockers, Closes, IsBound, Observed, Dispatched, Ticks;
    var (attempt, after) := Attempted(a, log, l, dryRun, remote, remoteDispatch, repository, commit, timeout, interval);
    NoBlockers(l, dryRun, None);
    NoBlockers(l, dryRun, attempt);
    if repository.Some? {
      ObservedIsSound(a, log, commit, repository.value);
      DispatchedIsSound(a, log, commit, repository.value, l.cleanBefore, timeout, interval);
    }
  }

  /** A gate dispatches at most once, and only when told to, from a clean worktree. */
  lemma {:induction false} GateDispatchesOnRequestOnly(
      a: Answers, log: Log, l: Local, dryRun: bool, remote: bool, remoteDispatch: bool, repository: Option<string>,
      commit: string, timeout: int, interval: int)
    requires Ticks(a) && interval > 0
    ensures var after := Attempted(a, log, l, dryRun, remote, remoteDispatch, repository, commit, timeout, interval).1;
            var head := Probed(a, log).1 + [MainHead];
            Dispatches(after) == Dispatches(log) +
              (if remoteDispatch && !dryRun && repository.Some? && l.cleanBefore
                  && Probed(a, log).0.None? && a.mainHead(head) == Value(commit) then 1 else 0)
  {
    hide Dispatches, Observed, Dispatched, Ticks, Probed;
    if repository.Some? {
      ObservingNeverDispatches(a, log, commit, repository.value);
      DispatchIsGuarded(a, log, commit, repository.value, l.cleanBefore, timeout, interval);
    }
  }

  // ---------- the verdict ----------

  /** Failed commands are listed one by one, in the order of the plan. */
  lemma {:induction false} FailedInOrder(a: seq<string>, b: seq<string>, passes: string -> bool)
    ensures FailedLabels(a + b, passes) == FailedLabels(a, passes) + FailedLabels(b, passes)
  {
    hide FailedLabels;
    if b == [] {
      assert a + b == a;
      NoneFailed(passes);
    } else {
      var front, x := b[..|b| - 1], b[|b| - 1];
      assert b == front + [x] && a + b == (a + front) + [x];
      FailedInOrder(a, front, passes);
      FailedStep(front, x, passes);
      FailedStep(a + front, x, passes);
    }
  }

  lemma {:induction false} NoneFailed(passes: string -> bool)
    ensures FailedLabels([], passes) == []
  {
  }

  lemma {:induction false} FailedStep(front: seq<string>, x: string, passes: string -> bool)
    ensures FailedLabels(front + [x], passes) == FailedLabels(front, passes) + (if passes(x) then [] else [x])
  {
    assert (front + [x])[..|front|] == front;
  }

  lemma {:induction false} OneFailed(x: string, passes: string -> bool)
    ensures FailedLabels([x], passes) == if passes(x) then [] else [x]
  {
    assert [x][..0] == [];
  }

  /** What is reported, exactly: a blocker for every reason and nothing else. Commands count only when
      they ran, and they run only when nothing stood in the way before. */
  lemma {:induction false} BlockersAreThese(l: Local, dryRun: bool, remote: Option<Attempt>, b: string)
    ensures var clear := l.preflight == [] && l.lifecycle.None? && (l.containerLabel ==> l.containerDetected)
                         && l.cleanBefore && !dryRun;
            b in Blockers(l, dryRun, remote) <==>
              || b in l.preflight
              || (l.lifecycle.Some? && b == "workspace lifecycle closure failed: " + l.lifecycle.value)
              || (l.containerLabel && !l.containerDetected
                  && b == "container environment label was not corroborated by the execution environment")
              || (!l.cleanBefore && b == "Git worktree was not clean before the gate")
              || (dryRun && b == "dry run does not execute or validate closure commands")
              || (!l.cleanAfter(if clear then l.plan else []) && b == "Git worktree was not clean after the gate")
              || (remote.Some? && remote.value.Failed? && b == "remote CI run concluded " + remote.value.run.conclusion)
              || (clear && exists x :: x in l.plan && !l.passes(x) && b == "command failed: " + x)
              || (exists x :: x in l.missingTools && b == "required tool version unavailable: " + x)
  {
    hide FailedLabels, Prefixed;
    var executed := Executed(l, dryRun);
    FailedAreThese(executed, l.passes);
    var failed := FailedLabels(executed, l.passes);
    PrefixedAreThese(COMMAND_FAILED, failed, b);
    PrefixedAreThese(TOOL_UNAVAILABLE, l.missingTools, b);
  }

  lemma {:induction false} FailedAreThese(plan: seq<string>, passes: string -> bool)
    ensures forall x :: x in FailedLabels(plan, passes) <==> x in plan && !passes(x)
  {
    if plan != [] {
      var n := |plan| - 1;
      FailedAreThese(plan[..n], passes);
      assert plan == plan[..n] + [plan[n]];
    }
  }

  lemma {:induction false} PrefixedAreThese(prefix: string, names: seq<string>, b: string)
    ensures b in Prefixed(prefix, names) <==> exists x :: x in names && b == prefix + x
  {
  }

  /** Remote evidence against the commit: a bound run that did not succeed, found by the observation or
      the dispatch that was asked for. */
  ghost predicate RemoteFails(a: Answers, log: Log, l: Local, dryRun: bool, remote: bool, remoteDispatch: bool,
                              repository: Option<string>, commit: string, timeout: int, interval: int)
    requires Ticks(a) && interval > 0
  {
    && !dryRun && repository.Some?
    && exists run: Run, jobs: seq<Job> ::
         && run.conclusion != "success"
         && if remoteDispatch then IsDispatchedEvidence(a, log, commit, repository.value, l.cleanBefore, timeout,
                                                        interval, run, jobs)
            else remote && ProbesPass(a, log)
                 && IsEvidence(a, Listing(log, commit), commit, repository.value, run, jobs)
  }

  /** The gate, exactly: it passes if and only if the run is real, the checkout closes, and there is no
      remote evidence against the commit. */
  lemma {:induction false} GateIsExact(a: Answers, log: Log, l: Local, dryRun: bool, remote: bool, remoteDispatch: bool,
                                       repository: Option<string>, commit: string, timeout: int, interval: int)
    requires Ticks(a) && interval > 0
    ensures var attempt := Attempted(a, log, l, dryRun, remote, remoteDispatch, repository, commit, timeout,
                                     interval).0;
            Blockers(l, dryRun, attempt) == [] <==>
              && !dryRun && Closes(l)
              && !RemoteFails(a, log, l, dryRun, remote, remoteDispatch, repository, commit, timeout, interval)
  {
    hide Blockers, Closes, Observed, Dispatched, IsEvidence, IsDispatchedEvidence, ProbesPass, Ticks;
    var attempt := Attempted(a, log, l, dryRun, remote, remoteDispatch, repository, commit, timeout, interval).0;
    NoBlockers(l, dryRun, attempt);
    if repository.Some? && !dryRun {
      ObservingNeverDispatches(a, log, commit, repository.value);
      if attempt.Some? && attempt.value.Failed? {
        EvidenceAt(a, log, l, repository.value, commit, timeout, interval, attempt.value.run, attempt.value.jobs);
      }
      forall run: Run, jobs: seq<Job> {
        EvidenceAt(a, log, l, repository.value, commit, timeout, interval, run, jobs);
      }
    }
  }

  lemma {:induction false} EvidenceAt(a: Answers, log: Log, l: Local, repository: string, commit: string, timeout: int,
                                      interval: int, run: Run, jobs: seq<Job>)
    requires Ticks(a) && interval > 0
    ensures run.conclusion != "success" && ProbesPass(a, log)
            && IsEvidence(a, Listing(log, commit), commit, repository, run, jobs)
       <==> Observed(a, log, commit, repository).0 == Failed(run, jobs, false)
    ensures run.conclusion != "success"
            && IsDispatchedEvidence(a, log, commit, repository, l.cleanBefore, timeout, interval, run, jobs)
       <==> Dispatched(a, log, commit, repository, l.cleanBefore, timeout, interval).0 == Failed(run, jobs, true)
    ensures var r := Dispatched(a, log, commit, repository, l.cleanBefore, timeout, interval).0;
            r.Failed? ==> r.dispatched
  {
    hide Observed, Dispatched, IsEvidence, IsDispatchedEvidence, ProbesPass, Ticks;
    ObservationIsExact(a, log, commit, repository, run, jobs);
    DispatchedEvidence(a, log, commit, repository, l.cleanBefore, timeout, interval, run, jobs);
  }
}
