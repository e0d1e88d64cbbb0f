/** When a run of the collector returns (scripts/collect_release_evidence.py), and what it leaves
    behind wherever it is refused. */
module EvidenceProgress {
  import opened Text
  import opened ScanSuppression
  import opened ScanEvaluation
  import opened EvidenceStore
  import opened EvidenceRuns
  import opened EvidenceResume

  /** The manifest file of an image is complete, or lacks nothing but what does not keep it from being
      read. */
  predicate IsReadable(root: Root, image: string, m: Manifest) {
    && Name(image, Evidence) in root
    && ( || root[Name(image, Evidence)] == Whole(ManifestDoc(m))
         || root[Name(image, Evidence)] == Torn(ManifestDoc(m), true))
  }

  /** One image can be taken: its checkpoint is readable, of this release and passes on the day it
      is judged, or there is none and its scan passes now. */
  ghost predicate CanProceed(root: Root, image: string, e: Encounter, ctx: Context) {
    if Name(image, Evidence) in root then
      && (exists m :: IsReadable(root, image, m) && m.receiptDigest == ctx.receiptDigest
                      && m.databaseBuiltAt == ctx.databaseBuiltAt)
      && WouldPassToday(root, image, ctx, e.checkDay)
    else Passes(e.attempt.scan, image, e.attempt.today, ctx.policy)
  }

  lemma {:induction false} ReadableMeans(root: Root, image: string, ctx: Context, sha: Digest)
    requires ManifestSound(root, image, sha) && Name(image, Evidence) in root
    ensures Resumable(root, image, ctx) <==>
      exists m :: IsReadable(root, image, m) && m.receiptDigest == ctx.receiptDigest
                  && m.databaseBuiltAt == ctx.databaseBuiltAt
    ensures forall m :: Load(root[Name(image, Evidence)]) == Some(ManifestDoc(m)) <==> IsReadable(root, image, m)
  {
    hide Name, Backed;
    if Resumable(root, image, ctx) {
      var m := Load(root[Name(image, Evidence)]).value.manifest;
      assert IsReadable(root, image, m);
    }
  }

  /** The same for either kind of run: a fresh one looks at no checkpoint. */
  ghost predicate CanTake(root: Root, image: string, e: Encounter, ctx: Context, resume: bool) {
    if resume then CanProceed(root, image, e, ctx) else Passes(e.attempt.scan, image, e.attempt.today, ctx.policy)
  }

  /** In a sound root this is what the run finds. */
  lemma {:induction false} CheckpointNeedsThat(root: Root, image: string, ctx: Context, today: string, sha: Digest)
    requires ManifestSound(root, image, sha) && Name(image, Evidence) in root
    ensures Checkpoint(root, image, ctx, today, sha).Some? <==>
      Resumable(root, image, ctx) && WouldPassToday(root, image, ctx, today)
  {
    hide Name, WouldPassToday, Backed, Passes;
    if Resumable(root, image, ctx) { SoundCheckpointIsExact(root, image, ctx, today, sha); }
  }

  /** Taking one image changes nothing for another. */
  lemma {:induction false} TakeFrame(r: Root, s: Root, image: string, other: string, e: Encounter, ctx: Context,
                                     resume: bool)
    requires AgreeOutside(r, s, OwnNames(image)) && other != image
    ensures CanTake(r, other, e, ctx, resume) <==> CanTake(s, other, e, ctx, resume)
  {
    hide Name, OwnNames, Passes;
    ImagesAreDisjoint(image, other);
    NamesAreOwn(other);
    assert Name(other, Evidence) !in OwnNames(image) && Name(other, ScanVerdict) !in OwnNames(image);
    assert Name(other, Grype) !in OwnNames(image);
  }

  // ---------- one image ----------

  /** The files of a collected image, spelled out: the scan as observed, the verdict on it, the
      other outputs, and a manifest bound to the release that lists exactly the ten artifacts. */
  ghost predicate Published(r: Root, image: string, a: Attempt, ctx: Context, m: Manifest, sha: Digest) {
    var passed := Passes(a.scan, image, a.today, ctx.policy);
    && (forall o: Output :: Name(image, o) in r)
    && r[Name(image, Evidence)] == Whole(ManifestDoc(m))
    && r[Name(image, Grype)] == Whole(ScanDoc(a.scan))
    && r[Name(image, ScanVerdict)] == Whole(VerdictDoc(image, passed))
    && (forall o: Output :: o !in {Evidence, Grype, ScanVerdict} ==>
          r[Name(image, o)] == Whole(OtherDoc(if o in a.texts then a.texts[o] else "")))
    && m.image == image && m.receiptDigest == ctx.receiptDigest && m.databaseBuiltAt == ctx.databaseBuiltAt
    && (forall name :: name in m.artifacts <==> exists o: Output :: o != Evidence && name == Name(image, o))
    && (forall o: Output :: o != Evidence ==> m.artifacts[Name(image, o)] == sha(r[Name(image, o)]))
    && m.scanPolicy == Some(ScanClaim(Name(image, ScanVerdict), passed))
  }

  /** What a run leaves of an image it took: the files as they were when there was a checkpoint to
      take it from, and the published ones otherwise. */
  ghost predicate Taken(r: Root, root: Root, image: string, e: Encounter, ctx: Context, resume: bool, m: Manifest,
                        sha: Digest) {
    if resume && Name(image, Evidence) in root then
      SameFiles(r, root, image) && IsReadable(root, image, m)
    else Published(r, image, e.attempt, ctx, m, sha)
  }

  /** The image at which a run is refused: its checkpoint is left alone, and evidence of a scan that
      does not pass is retained. */
  ghost predicate Stuck(r: Root, root: Root, image: string, e: Encounter, ctx: Context, resume: bool, sha: Digest) {
    if resume && Name(image, Evidence) in root then SameFiles(r, root, image)
    else exists m :: Published(r, image, e.attempt, ctx, m, sha) && m.scanPolicy.value.passed == false
  }

  ghost predicate SameFiles(r: Root, root: Root, image: string) {
    forall o: Output :: (Name(image, o) in r <==> Name(image, o) in root)
                        && (Name(image, o) in r ==> r[Name(image, o)] == root[Name(image, o)])
  }

  lemma {:induction false} CollectionPublishes(root: Root, image: string, a: Attempt, ctx: Context, resume: bool,
                                               sha: Digest)
    requires resume || Clear(root, image)
    ensures var (r, ok) := Apply(root, ImageOps(root, image, a, ctx, resume, sha));
            && ok && AgreeOutside(r, root, OwnNames(image))
            && Published(r, image, a, ctx, ManifestOf(image, a, ctx, sha), sha)
  {
    hide Name, Passes, OwnNames, Apply, ImageOps, AgreeOutside;
    NoCreateOnlyCollision(root, image, a, ctx, resume, sha);
    var r := Apply(root, ImageOps(root, image, a, ctx, resume, sha)).0;
    CollectedIsPublished(r, image, a, ctx, sha);
  }

  lemma {:induction false} CollectedIsPublished(r: Root, image: string, a: Attempt, ctx: Context, sha: Digest)
    requires Collected(r, image, a, ctx, Whole(ManifestDoc(ManifestOf(image, a, ctx, sha))))
    ensures Published(r, image, a, ctx, ManifestOf(image, a, ctx, sha), sha)
  {
    hide Name, Passes;
    OutputOrders();
    NamesOfOutputs(image);
    assert Grype in ARTIFACTS && ScanVerdict in ARTIFACTS;
  }

  /** Files of an image that a later part of the run does not touch. */
  lemma {:induction false} TakenFrame(r: Root, s: Root, root: Root, image: string, e: Encounter, ctx: Context,
                                      resume: bool, m: Manifest, names: set<string>, sha: Digest)
    requires Taken(s, root, image, e, ctx, resume, m, sha) && AgreeOutside(r, s, names) && names !! OwnNames(image)
    ensures Taken(r, root, image, e, ctx, resume, m, sha)
  {
    hide Name, Passes, OwnNames;
    NamesAreOwn(image);
  }

  // ---------- whole runs ----------

  /** Where a run stands after its first image. */
  function AfterFirst(root: Root, image: string, e: Encounter, ctx: Context, resume: bool, sha: Digest): Root {
    if resume && Name(image, Evidence) in root then root
    else Apply(root, ImageOps(root, image, e.attempt, ctx, resume, sha)).0
  }

  lemma {:induction false} AfterFirstHolds(root: Root, requested: seq<string>, e: Encounter, ctx: Context,
                                           resume: bool, sha: Digest)
    requires requested != [] && Sound(root, sha) && Distinct(requested) && Ready(root, requested, resume)
    ensures var next := AfterFirst(root, requested[0], e, ctx, resume, sha);
            && Sound(next, sha) && Ready(next, requested[1..], resume)
            && (next == root || AgreeOutside(next, root, OwnNames(requested[0])))
  {
    hide Sound, Name, ImageOps, ManifestOf, Apply, OwnNames, AgreeOutside, Ready;
    var image := requested[0];
    ReadyForFirst(root, requested, resume);
    if !(resume && Name(image, Evidence) in root) {
      var ops := ImageOps(root, image, e.attempt, ctx, resume, sha);
      ImageRunFrame(root, image, e.attempt, ctx, resume, sha);
      InterruptedImageIsSound(root, image, e.attempt, ctx, resume, sha, |ops|, None);
      WholeRun(root, ops);
    }
    ReadyAfterOne(AfterFirst(root, image, e, ctx, resume, sha), root, requested, resume);
  }

  /** One step of a run, when its first image can be taken. */
  lemma {:induction false} OneStep(root: Root, requested: seq<string>, env: string -> Encounter, ctx: Context,
                                   resume: bool, sha: Digest) returns (m: Manifest, ops: seq<Op>)
    requires requested != [] && Sound(root, sha) && Ready(root, requested, resume)
    requires CanTake(root, requested[0], env(requested[0]), ctx, resume)
    ensures var next := AfterFirst(root, requested[0], env(requested[0]), ctx, resume, sha);
            var t := Execute(next, requested[1..], env, ctx, resume, sha);
            && Apply(root, ops) == (next, true)
            && Taken(next, root, requested[0], env(requested[0]), ctx, resume, m, sha)
            && Execute(root, requested, env, ctx, resume, sha) == Trace(ops + t.ops, Prepend(m, t.outcome))
  {
    hide Name, ImageOps, Checkpoint, Passes, ManifestOf, Apply, Resumable, WouldPassToday, ManifestSound, Published,
         AgreeOutside, Ready, Sound;
    var image, e := requested[0], env(requested[0]);
    ReadyForFirst(root, requested, resume);
    if resume && Name(image, Evidence) in root {
      CheckpointFound(root, image, ctx, e.checkDay, sha);
      m, ops := Checkpoint(root, image, ctx, e.checkDay, sha).value, [];
      EmptyRun(root);
      var t := Execute(root, requested[1..], env, ctx, resume, sha);
      assert ops + t.ops == t.ops;
    } else {
      m, ops := ManifestOf(image, e.attempt, ctx, sha), ImageOps(root, image, e.attempt, ctx, resume, sha);
      CollectionPublishes(root, image, e.attempt, ctx, resume, sha);
    }
  }

  lemma {:induction false} CheckpointFound(root: Root, image: string, ctx: Context, today: string, sha: Digest)
    requires Sound(root, sha) && Name(image, Evidence) in root
    ensures var c := Checkpoint(root, image, ctx, today, sha);
            && (c.Some? <==>
                  && (exists m :: IsReadable(root, image, m) && m.receiptDigest == ctx.receiptDigest
                                  && m.databaseBuiltAt == ctx.databaseBuiltAt)
                  && WouldPassToday(root, image, ctx, today))
            && (c.Some? ==> IsReadable(root, image, c.value))
  {
    hide Name, WouldPassToday, CheckpointHolds, ManifestSound, Resumable, IsReadable;
    assert ManifestSound(root, image, sha);
    CheckpointNeedsThat(root, image, ctx, today, sha);
    ReadableMeans(root, image, ctx, sha);
  }

  /** The step at which a run is refused. */
  lemma {:induction false} OneStop(root: Root, requested: seq<string>, env: string -> Encounter, ctx: Context,
                                   resume: bool, sha: Digest)
    requires requested != [] && Sound(root, sha) && Ready(root, requested, resume)
    requires !CanTake(root, requested[0], env(requested[0]), ctx, resume)
    ensures var t := Execute(root, requested, env, ctx, resume, sha);
            && t.outcome.Refused?
            && Apply(root, t.ops) == (AfterFirst(root, requested[0], env(requested[0]), ctx, resume, sha), true)
            && Stuck(Apply(root, t.ops).0, root, requested[0], env(requested[0]), ctx, resume, sha)
  {
    hide Name, ImageOps, Checkpoint, Passes, Apply, Resumable, WouldPassToday, ManifestSound, AgreeOutside, Ready,
         Sound;
    var image, e := requested[0], env(requested[0]);
    ReadyForFirst(root, requested, resume);
    if resume && Name(image, Evidence) in root {
      CheckpointFound(root, image, ctx, e.checkDay, sha);
      EmptyRun(root);
    } else {
      var m := ManifestOf(image, e.attempt, ctx, sha);
      CollectionPublishes(root, image, e.attempt, ctx, resume, sha);
      assert m.scanPolicy.value.passed == false;
    }
  }

  /** What was taken or left over another root counts for this one, when they agree on the image. */
  lemma {:induction false} SameStart(r: Root, next: Root, root: Root, image: string, other: string, e: Encounter,
                                     ctx: Context, resume: bool, sha: Digest)
    requires (next == root || AgreeOutside(next, root, OwnNames(image))) && other != image
    ensures forall m :: Taken(r, next, other, e, ctx, resume, m, sha) ==> Taken(r, root, other, e, ctx, resume, m, sha)
    ensures Stuck(r, next, other, e, ctx, resume, sha) ==> Stuck(r, root, other, e, ctx, resume, sha)
    ensures CanTake(next, other, e, ctx, resume) <==> CanTake(root, other, e, ctx, resume)
  {
    hide Name, OwnNames, Published, CanTake;
    if next != root {
      ImagesAreDisjoint(image, other);
      NamesAreOwn(other);
      assert forall o: Output :: Name(other, o) !in OwnNames(image);
      TakeFrame(next, root, image, other, e, ctx, resume);
    }
  }

  lemma {:induction false} AgreeInTurn(r: Root, next: Root, root: Root, image: string, others: seq<string>)
    requires AgreeOutside(r, next, AllNames(others)) && (next == root || AgreeOutside(next, root, OwnNames(image)))
    ensures AgreeOutside(r, root, AllNames([image] + others))
  {
    hide OwnNames;
    assert ([image] + others)[1..] == others;
  }

  /** The images a run has to do with, when the one after the first k stops it. */
  function Reached(requested: seq<string>, k: nat): seq<string> {
    if k < |requested| then requested[..k + 1] else requested
  }

  /** The whole of what a run does, resumed over a sound root or fresh, when its first k images can
      be taken and the next one, if there is one, cannot: it returns if and only if there is no next
      one, with a manifest for every image in order; the files of those k images are as taken, those
      of the next one are as described, and nothing else has changed. */
  lemma {:induction false} RunLeaves(root: Root, requested: seq<string>, env: string -> Encounter, ctx: Context,
                                     resume: bool, sha: Digest, k: nat) returns (ms: seq<Manifest>)
    requires Sound(root, sha) && Distinct(requested) && Ready(root, requested, resume) && k <= |requested|
    requires forall i :: 0 <= i < k ==> CanTake(root, requested[i], env(requested[i]), ctx, resume)
    requires k < |requested| ==> !CanTake(root, requested[k], env(requested[k]), ctx, resume)
    ensures var t := Execute(root, requested, env, ctx, resume, sha);
            var r := Apply(root, t.ops).0;
            && Apply(root, t.ops).1 && |ms| == k
            && t.outcome == (if k == |requested| then Returned(ms) else Refused)
            && (forall i :: 0 <= i < k ==>
                  Taken(r, root, requested[i], env(requested[i]), ctx, resume, ms[i], sha))
            && (k < |requested| ==> Stuck(r, root, requested[k], env(requested[k]), ctx, resume, sha))
            && AgreeOutside(r, root, AllNames(Reached(requested, k)))
    decreases |requested|
  {
    hide Sound, Name, Execute, Apply, AgreeOutside, Ready, Taken, Stuck, CanTake, AfterFirst, AllNames, OwnNames;
    if requested == [] {
      ms := [];
      NothingRequested(root, env, ctx, resume, sha);
      return;
    }
    var image, rest, e := requested[0], requested[1..], env(requested[0]);
    var next := AfterFirst(root, image, e, ctx, resume, sha);
    AfterFirstHolds(root, requested, e, ctx, resume, sha);
    if k == 0 {
      ms := [];
      OneStop(root, requested, env, ctx, resume, sha);
      assert AllNames([]) == {} && AgreeOutside(next, next, {}) by { NothingElse(next); }
      AgreeInTurn(next, next, root, image, []);
      assert Reached(requested, 0) == [image] + [];
      return;
    }
    var m, ops := OneStep(root, requested, env, ctx, resume, sha);
    forall i | 0 <= i < |rest|
      ensures CanTake(next, rest[i], env(rest[i]), ctx, resume) <==> CanTake(root, rest[i], env(rest[i]), ctx, resume)
    {
      assert rest[i] == requested[i + 1];
      SameStart(next, next, root, image, rest[i], env(rest[i]), ctx, resume, sha);
    }
    var later := RunLeaves(next, rest, env, ctx, resume, sha, k - 1);
    ms := [m] + later;
    var t := Execute(next, rest, env, ctx, resume, sha);
    var r := Apply(next, t.ops).0;
    ApplyConcat(root, ops, t.ops);
    assert Reached(requested, k) == [image] + Reached(rest, k - 1);
    AgreeInTurn(r, next, root, image, Reached(rest, k - 1));
    OthersDoNotTouch(image, Reached(rest, k - 1));
    TakenFrame(r, next, root, image, e, ctx, resume, m, AllNames(Reached(rest, k - 1)), sha);
    forall i | 0 <= i < k ensures Taken(r, root, requested[i], env(requested[i]), ctx, resume, ms[i], sha) {
      if i > 0 { SameStart(r, next, root, image, rest[i - 1], env(rest[i - 1]), ctx, resume, sha); }
    }
    if k < |requested| { SameStart(r, next, root, image, rest[k - 1], env(rest[k - 1]), ctx, resume, sha); }
  }

  lemma {:induction false} NothingElse(root: Root)
    ensures AllNames([]) == {} && AgreeOutside(root, root, {})
  {
  }

  lemma {:induction false} NothingRequested(root: Root, env: string -> Encounter, ctx: Context, resume: bool,
                                            sha: Digest)
    ensures Execute(root, [], env, ctx, resume, sha) == Trace([], Returned([]))
    ensures Apply(root, []) == (root, true) && AgreeOutside(root, root, AllNames([]))
  {
  }

  /** A run over a sound root, resumed or fresh, returns if and only if every requested image can be
      taken in the root as it was before the run. */
  lemma {:induction false} RunReturns(root: Root, requested: seq<string>, env: string -> Encounter, ctx: Context,
                                      resume: bool, sha: Digest)
    requires Sound(root, sha) && Distinct(requested) && Ready(root, requested, resume)
    ensures Execute(root, requested, env, ctx, resume, sha).outcome.Returned?
       <==> forall i :: 0 <= i < |requested| ==> CanTake(root, requested[i], env(requested[i]), ctx, resume)
  {
    hide Sound, Execute, Apply, AgreeOutside, Ready, Taken, Stuck, CanTake, AllNames;
    var k := FirstRefused(root, requested, env, ctx, resume);
    var ms := RunLeaves(root, requested, env, ctx, resume, sha, k);
  }

  lemma {:induction false} FirstRefused(root: Root, requested: seq<string>, env: string -> Encounter, ctx: Context,
                                        resume: bool) returns (k: nat)
    ensures k <= |requested|
    ensures forall i :: 0 <= i < k ==> CanTake(root, requested[i], env(requested[i]), ctx, resume)
    ensures k < |requested| ==> !CanTake(root, requested[k], env(requested[k]), ctx, resume)
  {
    hide CanTake;
    k := 0;
    while k < |requested| && CanTake(root, requested[k], env(requested[k]), ctx, resume)
      invariant k <= |requested|
      invariant forall i :: 0 <= i < k ==> CanTake(root, requested[i], env(requested[i]), ctx, resume)
    {
      k := k + 1;
    }
  }

  // ---------- from the command line ----------

  /** Something is requested, and the build receipt has all of it. */
  predicate Known(requested: seq<string>, ctx: Context) {
    requested != [] && forall x :: x in requested ==> x in ctx.available
  }

  /** Progress after any history: a resume that is not stopped returns if and only if something is
      requested, all of it is available, and every requested image can be taken. */
  lemma {:induction false} ResumeMakesProgress(history: seq<Run>, run: Run, sha: Digest)
    requires run.resume
    ensures var root, requested := RootAfter(history, sha), FirstOccurrences(run.imageIds);
            TraceOf(root, run, sha).outcome.Returned? <==>
              && Known(requested, run.ctx)
              && forall i :: 0 <= i < |requested| ==> CanProceed(root, requested[i], run.env(requested[i]), run.ctx)
  {
    hide Name, Execute, Sound, CanProceed;
    EveryReachableRootIsSound(history, sha);
    RunReturns(RootAfter(history, sha), FirstOccurrences(run.imageIds), run.env, run.ctx, true, sha);
  }

  /** A fresh run returns if and only if the root is empty, something is requested, all of it is
      available, and the scan of every requested image passes on its day; what is refused for another
      reason than a scan has not touched the root. */
  lemma {:induction false} FreshRunReturns(root: Root, run: Run, sha: Digest)
    requires !run.resume
    ensures var requested := FirstOccurrences(run.imageIds);
            TraceOf(root, run, sha).outcome.Returned? <==>
              && root == map[] && Known(requested, run.ctx)
              && forall x :: x in requested ==>
                   Passes(run.env(x).attempt.scan, x, run.env(x).attempt.today, run.ctx.policy)
    ensures root != map[] || !Known(FirstOccurrences(run.imageIds), run.ctx) ==>
              TraceOf(root, run, sha) == Trace([], Refused)
  {
    hide Name, Execute, Passes;
    if root == map[] {
      NothingIsSound(FirstOccurrences(run.imageIds), sha);
      RunReturns(root, FirstOccurrences(run.imageIds), run.env, run.ctx, false, sha);
    }
  }

  lemma {:induction false} NothingIsSound(requested: seq<string>, sha: Digest)
    ensures Sound(map[], sha) && Ready(map[], requested, false)
  {
  }

  /** A fresh run that returns gives one manifest per image, in order of first occurrence; at the end
      the root holds exactly the files of those images, each with the guarantee of a resume. */
  lemma {:induction false} FreshRunGuarantees(run: Run, sha: Digest)
    requires !run.resume && TraceOf(map[], run, sha).outcome.Returned?
    ensures var requested, t := FirstOccurrences(run.imageIds), TraceOf(map[], run, sha);
            var r, ms := Apply(map[], t.ops).0, t.outcome.manifests;
            && r.Keys == AllNames(requested) && |ms| == |requested|
            && forall i :: 0 <= i < |requested| ==>
                 var a := run.env(requested[i]).attempt;
                 && Published(r, requested[i], a, run.ctx, ms[i], sha)
                 && Guaranteed(r, requested[i], ms[i], run.ctx, a.today, sha)
  {
    hide Name, Execute, Passes, Published, Guaranteed, Apply, Sound, Ready, AgreeOutside, CanTake, Stuck, AllNames;
    var requested := FirstOccurrences(run.imageIds);
    NothingIsSound(requested, sha);
    RunReturns(map[], requested, run.env, run.ctx, false, sha);
    var ms := RunLeaves(map[], requested, run.env, run.ctx, false, sha, |requested|);
    RunGuarantees(map[], requested, run.env, run.ctx, false, sha);
    var r := Apply(map[], TraceOf(map[], run, sha).ops).0;
    forall i | 0 <= i < |requested|
      ensures Published(r, requested[i], run.env(requested[i]).attempt, run.ctx, ms[i], sha)
    {
      assert Taken(r, map[], requested[i], run.env(requested[i]), run.ctx, false, ms[i], sha);
    }
    assert Reached(requested, |requested|) == requested;
    KeysOfAll(r, requested, run.env, run.ctx, ms, sha);
  }

  lemma {:induction false} KeysOfAll(r: Root, requested: seq<string>, env: string -> Encounter, ctx: Context,
                                     ms: seq<Manifest>, sha: Digest)
    requires |ms| == |requested| && AgreeOutside(r, map[], AllNames(requested))
    requires forall i :: 0 <= i < |requested| ==> Published(r, requested[i], env(requested[i]).attempt, ctx, ms[i], sha)
    ensures r.Keys == AllNames(requested)
  {
    hide Name, Passes, Published, AllNames;
    forall name | name in AllNames(requested) ensures name in r {
      var i := OwnerOf(name, requested);
      var o: Output :| name == Name(requested[i], o);
      PublishedHasAll(r, requested[i], env(requested[i]).attempt, ctx, ms[i], sha, o);
    }
  }

  lemma {:induction false} PublishedHasAll(r: Root, image: string, a: Attempt, ctx: Context, m: Manifest, sha: Digest,
                                           o: Output)
    requires Published(r, image, a, ctx, m, sha)
    ensures Name(image, o) in r
  {
  }

  lemma {:induction false} OwnerOf(name: string, images: seq<string>) returns (i: nat)
    requires name in AllNames(images)
    ensures i < |images| && name in OwnNames(images[i])
  {
    hide OwnNames;
    if name in OwnNames(images[0]) { return 0; }
    i := OwnerOf(name, images[1..]);
    return i + 1;
  }

  // ---------- artifacts that changed ----------

  /** The manifest of an image lists a file of its own that is gone or has another digest. */
  ghost predicate HasChanged(root: Root, image: string, name: string, sha: Digest) {
    exists m :: IsReadable(root, image, m) && name in m.artifacts && name in OwnNames(image)
                && (name in root ==> sha(root[name]) != m.artifacts[name])
  }

  lemma {:induction false} ChangedIsNoCheckpoint(root: Root, image: string, name: string, ctx: Context, today: string,
                                                 sha: Digest)
    requires HasChanged(root, image, name, sha)
    ensures Name(image, Evidence) in root && Checkpoint(root, image, ctx, today, sha).None?
  {
    hide Name, OwnNames, Passes;
  }

  lemma {:induction false} ChangedFrame(r: Root, s: Root, image: string, other: string, name: string, sha: Digest)
    requires HasChanged(s, other, name, sha) && AgreeOutside(r, s, OwnNames(image)) && other != image
    ensures HasChanged(r, other, name, sha)
  {
    hide Name, OwnNames;
    ImagesAreDisjoint(image, other);
    NamesAreOwn(other);
    var m :| IsReadable(s, other, m) && name in m.artifacts && name in OwnNames(other)
             && (name in s ==> sha(s[name]) != m.artifacts[name]);
    assert Name(other, Evidence) !in OwnNames(image);
    assert IsReadable(r, other, m);
  }

  /** Whatever the root holds, a resume over an image with a changed artifact does not return: what a
      checkpoint lists is compared with what is there. */
  lemma {:induction false} ChangedArtifactRefuses(root: Root, requested: seq<string>, env: string -> Encounter,
                                                  ctx: Context, sha: Digest, i: nat, name: string)
    requires Distinct(requested) && i < |requested| && HasChanged(root, requested[i], name, sha)
    ensures Execute(root, requested, env, ctx, true, sha).outcome.Refused?
    decreases |requested|
  {
    hide Name, ImageOps, Checkpoint, Passes, ManifestOf, Apply, OwnNames, AgreeOutside, HasChanged;
    var image, rest := requested[0], requested[1..];
    if i == 0 {
      ChangedIsNoCheckpoint(root, image, name, ctx, env(image).checkDay, sha);
    } else {
      assert rest[i - 1] == requested[i];
      var a := env(image).attempt;
      var ops := ImageOps(root, image, a, ctx, true, sha);
      ImageRunFrame(root, image, a, ctx, true, sha);
      ChangedFrame(Apply(root, ops).0, root, image, requested[i], name, sha);
      ChangedArtifactRefuses(root, rest, env, ctx, sha, i - 1, name);
      ChangedArtifactRefuses(Apply(root, ops).0, rest, env, ctx, sha, i - 1, name);
    }
  }
}
