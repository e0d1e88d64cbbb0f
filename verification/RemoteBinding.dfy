/** When a remote CI run counts as evidence for a commit (scripts/local_closure_gate.py). */
module RemoteBinding {
  import opened Text

  const WORKFLOW := "validate.yml"
  const REQUIRED_JOBS := ["backend", "web", "canonical-source-browser", "security", "package-validation",
                          "compose-integration"]
  const EVENTS := ["workflow_dispatch", "pull_request"]
  const LABELS := {"self-hosted", "stateport"}
  const MAX_AGE := 86400.0
  const MAX_SKEW := 300.0
  const BINDING_REASONS := {"wrong_repository", "wrong_workflow", "wrong_event", "wrong_commit",
                            "created_at_unparseable",
                            "stale_run", "missing_jobs", "job_not_successful", "runner_class_unverified"}

  datatype Job = Job(name: string, conclusion: string, labels: set<string>)

  /** A run; `createdAt` is absent where its text is not a timestamp. */
  datatype Run = Run(runId: int, conclusion: string, url: string, repository: string, workflow: string, event: string,
                     headSha: string, createdAt: Option<real>)

  predicate IsLastOf(jobs: seq<Job>, i: nat, name: string)
    requires i < |jobs|
  {
    jobs[i].name == name && forall j :: i < j < |jobs| ==> jobs[j].name != name
  }

  /** The job a name stands for: the last one listed under it. */
  function JobNamed(jobs: seq<Job>, name: string): (r: Option<Job>)
    ensures r.Some? <==> exists i :: 0 <= i < |jobs| && jobs[i].name == name
    ensures r.Some? ==> exists i :: 0 <= i < |jobs| && jobs[i] == r.value && IsLastOf(jobs, i, name)
  {
    if jobs == [] then None
    else
      var before := jobs[..|jobs| - 1];
      assert forall i :: 0 <= i < |before| ==> before[i] == jobs[i];
      if jobs[|jobs| - 1].name == name then Some(jobs[|jobs| - 1]) else JobNamed(before, name)
  }

  predicate JobQualifies(jobs: seq<Job>, name: string) {
    var job := JobNamed(jobs, name);
    job.Some? && job.value.conclusion == "success" && LABELS <= job.value.labels
  }

  /** What binds a run to a commit of a repository at an instant: the workflow and its event, an age of
      at most a day, five minutes of skew, and six jobs that succeeded on the privileged runner. */
  predicate IsBound(run: Run, jobs: seq<Job>, commit: string, repository: string, now: real) {
    && run.repository == repository && run.workflow == "validate.yml"
    && (run.event == "workflow_dispatch" || run.event == "pull_request") && run.headSha == commit
    && run.createdAt.Some? && now - 86400.0 <= run.createdAt.value <= now + 300.0
    && Succeeded(jobs, "backend") && Succeeded(jobs, "web") && Succeeded(jobs, "canonical-source-browser")
    && Succeeded(jobs, "security") && Succeeded(jobs, "package-validation") && Succeeded(jobs, "compose-integration")
  }

  /** The last job listed under a name succeeded on a runner with both labels. */
  predicate Succeeded(jobs: seq<Job>, name: string) {
    exists i :: 0 <= i < |jobs| && jobs[i].name == name && (forall j :: i < j < |jobs| ==> jobs[j].name != name)
                && jobs[i].conclusion == "success" && "self-hosted" in jobs[i].labels && "stateport" in jobs[i].labels
  }

  lemma {:induction false} SucceededMeans(jobs: seq<Job>, name: string)
    ensures JobQualifies(jobs, name) <==> Succeeded(jobs, name)
  {
  }

  lemma {:induction false} BoundMeans(run: Run, jobs: seq<Job>, commit: string, repository: string, now: real)
    ensures IsBound(run, jobs, commit, repository, now) <==>
      && run.repository == repository && run.workflow == WORKFLOW && run.event in EVENTS && run.headSha == commit
      && run.createdAt.Some? && now - run.createdAt.value <= MAX_AGE && run.createdAt.value - now <= MAX_SKEW
      && forall i :: 0 <= i < |REQUIRED_JOBS| ==> JobQualifies(jobs, REQUIRED_JOBS[i])
  {
    hide JobQualifies, Succeeded;
    forall name { SucceededMeans(jobs, name); }
    assert REQUIRED_JOBS[0] == "backend" && REQUIRED_JOBS[1] == "web" && REQUIRED_JOBS[2] == "canonical-source-browser";
    assert REQUIRED_JOBS[3] == "security" && REQUIRED_JOBS[4] == "package-validation";
    assert REQUIRED_JOBS[5] == "compose-integration";
    assert EVENTS[0] == "workflow_dispatch" && EVENTS[1] == "pull_request";
  }

  method ByName(jobs: seq<Job>) returns (m: map<string, Job>)
    ensures IsByName(m, jobs)
  {
    m := map[];
    for i := 0 to |jobs|
      invariant forall name :: name in m <==> JobNamed(jobs[..i], name).Some?
      invariant forall name :: name in m ==> m[name] == JobNamed(jobs[..i], name).value
    {
      assert jobs[..i + 1][..i] == jobs[..i];
      m := m[jobs[i].name := jobs[i]];
    }
    assert jobs[..|jobs|] == jobs;
  }

  /** The jobs by name, as `ByName` gives them. */
  ghost predicate IsByName(byName: map<string, Job>, jobs: seq<Job>) {
    && (forall name :: name in byName <==> JobNamed(jobs, name).Some?)
    && (forall name :: name in byName ==> byName[name] == JobNamed(jobs, name).value)
  }

  /** Is a required job missing? */
  method AnyMissing(jobs: seq<Job>, byName: map<string, Job>, names: seq<string>) returns (missing: bool)
    requires IsByName(byName, jobs)
    ensures missing <==> MissingFrom(jobs, names)
    ensures missing <==> exists i :: 0 <= i < |names| && JobNamed(jobs, names[i]).None?
  {
    hide JobNamed;
    for i := 0 to |names|
      invariant forall j :: 0 <= j < i ==> JobNamed(jobs, names[j]).Some?
      invariant MissingFrom(jobs, names[i..]) <==> MissingFrom(jobs, names)
    {
      assert names[i..][1..] == names[i + 1..];
      if names[i] !in byName { return true; }
    }
    assert names[|names|..] == [];
    return false;
  }

  /** What is wrong with the first of the jobs that does not qualify. */
  method CheckJobs(jobs: seq<Job>, byName: map<string, Job>, names: seq<string>) returns (reason: Option<string>)
    requires IsByName(byName, jobs) && forall i :: 0 <= i < |names| ==> JobNamed(jobs, names[i]).Some?
    ensures reason == JobProblem(jobs, names)
    ensures reason.Some? ==> reason.value == "job_not_successful" || reason.value == "runner_class_unverified"
    ensures reason == Some("job_not_successful") ==> exists i ::
      && 0 <= i < |names| && JobNamed(jobs, names[i]).Some? && JobNamed(jobs, names[i]).value.conclusion != "success"
      && forall j :: 0 <= j < i ==> JobQualifies(jobs, names[j])
  {
    hide JobNamed, LABELS;
    for i := 0 to |names|
      invariant forall j :: 0 <= j < i ==> JobQualifies(jobs, names[j])
      invariant JobProblem(jobs, names[i..]) == JobProblem(jobs, names)
    {
      assert names[i..][1..] == names[i + 1..];
      var job := byName[names[i]];
      if job.conclusion != "success" { return Some("job_not_successful"); }
      if !(LABELS <= job.labels) { return Some("runner_class_unverified"); }
    }
    assert names[|names|..] == [];
    return None;
  }

  /** `bind_remote_run`: no reason exactly when the run is bound; a reason about jobs speaks of
      the first required job that does not qualify. */
  method BindRemoteRun(run: Run, jobs: seq<Job>, commit: string, repository: string,
                       now: real) returns (reason: Option<string>)
    ensures reason.None? <==> IsBound(run, jobs, commit, repository, now)
    ensures reason.Some? ==> reason.value in BINDING_REASONS
    ensures reason == Some("missing_jobs") ==>
      exists i :: 0 <= i < |REQUIRED_JOBS| && JobNamed(jobs, REQUIRED_JOBS[i]).None?
    ensures reason == Some("job_not_successful") ==> exists i ::
      && 0 <= i < |REQUIRED_JOBS| && JobNamed(jobs, REQUIRED_JOBS[i]).Some?
      && JobNamed(jobs, REQUIRED_JOBS[i]).value.conclusion != "success"
      && forall j :: 0 <= j < i ==> JobQualifies(jobs, REQUIRED_JOBS[j])
    ensures reason == BindingProblem(run, jobs, commit, repository, now)
  {
    hide IsBound, JobNamed, JobQualifies, JobProblem, MissingFrom;
    BoundMeans(run, jobs, commit, repository, now);
    NoJobProblem(jobs, REQUIRED_JOBS);
    if run.repository != repository { return Some("wrong_repository"); }
    if run.workflow != WORKFLOW { return Some("wrong_workflow"); }
    if run.event !in EVENTS { return Some("wrong_event"); }
    if run.headSha != commit { return Some("wrong_commit"); }
    if run.createdAt.None? { return Some("created_at_unparseable"); }
    if now - run.createdAt.value > MAX_AGE || run.createdAt.value - now > MAX_SKEW { return Some("stale_run"); }
    var byName := ByName(jobs);
    var missing := AnyMissing(jobs, byName, REQUIRED_JOBS);
    if missing { return Some("missing_jobs"); }
    reason := CheckJobs(jobs, byName, REQUIRED_JOBS);
  }

  predicate MissingFrom(jobs: seq<Job>, names: seq<string>) {
    names != [] && (JobNamed(jobs, names[0]).None? || MissingFrom(jobs, names[1..]))
  }

  function JobProblem(jobs: seq<Job>, names: seq<string>): Option<string> {
    if names == [] then None
    else if JobNamed(jobs, names[0]).None? then Some("job_not_successful")
    else if JobNamed(jobs, names[0]).value.conclusion != "success" then Some("job_not_successful")
    else if !JobQualifies(jobs, names[0]) then Some("runner_class_unverified")
    else JobProblem(jobs, names[1..])
  }

  /** The first reason against a run, in the order the checks are made. */
  function BindingProblem(run: Run, jobs: seq<Job>, commit: string, repository: string, now: real): Option<string> {
    if run.repository != repository then Some("wrong_repository")
    else if run.workflow != WORKFLOW then Some("wrong_workflow")
    else if run.event !in EVENTS then Some("wrong_event")
    else if run.headSha != commit then Some("wrong_commit")
    else if run.createdAt.None? then Some("created_at_unparseable")
    else if now - run.createdAt.value > MAX_AGE || run.createdAt.value - now > MAX_SKEW then Some("stale_run")
    else if MissingFrom(jobs, REQUIRED_JOBS) then Some("missing_jobs")
    else JobProblem(jobs, REQUIRED_JOBS)
  }

  lemma {:induction false} NoJobProblem(jobs: seq<Job>, names: seq<string>)
    ensures !MissingFrom(jobs, names) && JobProblem(jobs, names).None? <==>
      forall i :: 0 <= i < |names| ==> JobQualifies(jobs, names[i])
  {
    if names != [] {
      NoJobProblem(jobs, names[1..]);
      assert forall i :: 1 <= i < |names| ==> names[i] == names[1..][i - 1];
      if forall i :: 0 <= i < |names| ==> JobQualifies(jobs, names[i]) {
        assert forall i :: 0 <= i < |names[1..]| ==> JobQualifies(jobs, names[1..][i]);
      }
    }
  }

  /** There is no reason against a run exactly when it is bound. */
  lemma BoundMeansNoProblem(run: Run, jobs: seq<Job>, commit: string, repository: string, now: real)
    ensures BindingProblem(run, jobs, commit, repository, now).None? <==> IsBound(run, jobs, commit, repository, now)
  {
    hide JobQualifies, MissingFrom, JobProblem, IsBound;
    NoJobProblem(jobs, REQUIRED_JOBS);
    BoundMeans(run, jobs, commit, repository, now);
  }
}
