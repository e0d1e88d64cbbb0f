/** Every evidence root that crashed, refused and resumed runs can reach, and what a resume
    that returns guarantees about all of its images at once
    (scripts/collect_release_evidence.py). */
module EvidenceResume {
  import opened Text
  import opened ScanSuppression
  import opened ScanEvaluation
  import opened EvidenceStore
  import opened EvidenceRuns

  // ---------- the invariant ----------

  function ArtifactNames(image: string): set<string> {
    set o | o in ARTIFACTS :: Name(image, o)
  }

  /** A manifest m of this image that is fully backed by the files beside it. */
  ghost predicate Backed(root: Root, image: string, m: Manifest, sha: Digest) {
    && m.image == image && m.artifacts.Keys == ArtifactNames(image) && ArtifactsMatch(root, m.artifacts, sha)
    && m.scanPolicy.Some? && m.scanPolicy.value.evaluationArtifact == Name(image, ScanVerdict)
    && root[Name(image, ScanVerdict)] == Whole(VerdictDoc(image, m.scanPolicy.value.passed))
    && root[Name(image, Grype)].Whole? && root[Name(image, Grype)].doc.ScanDoc?
  }

  /** A manifest that can be read is one of this image and is backed. */
  ghost predicate ManifestSound(root: Root, image: string, sha: Digest) {
    Name(image, Evidence) in root && Load(root[Name(image, Evidence)]).Some? ==>
      var doc := Load(root[Name(image, Evidence)]).value;
      doc.ManifestDoc? && Backed(root, image, doc.manifest, sha)
  }

  ghost predicate Sound(root: Root, sha: Digest) {
    forall image :: ManifestSound(root, image, sha)
  }

  lemma NamesAreOwn(image: string)
    ensures forall o: Output :: Name(image, o) in OwnNames(image)
    ensures ArtifactNames(image) <= OwnNames(image)
    ensures Name(image, Grype) in ArtifactNames(image) && Name(image, ScanVerdict) in ArtifactNames(image)
  {
  }

  /** Soundness of an image depends on its own files only. */
  lemma ManifestSoundFrame(r: Root, s: Root, image: string, names: set<string>, sha: Digest)
    requires ManifestSound(s, image, sha) && AgreeOutside(r, s, names) && names !! OwnNames(image)
    ensures ManifestSound(r, image, sha)
  {
  }

  lemma SoundFrame(r: Root, s: Root, image: string, sha: Digest)
    requires Sound(s, sha) && AgreeOutside(r, s, OwnNames(image)) && ManifestSound(r, image, sha)
    ensures Sound(r, sha)
  {
    hide ManifestSound, OwnNames, AgreeOutside;
    forall other ensures ManifestSound(r, other, sha) {
      if other != image {
        ImagesAreDisjoint(image, other);
        ManifestSoundFrame(r, s, other, OwnNames(image), sha);
      }
    }
  }

  lemma CollectedIsSound(r: Root, image: string, a: Attempt, ctx: Context, manifest: File, sha: Digest)
    requires Collected(r, image, a, ctx, manifest)
    requires manifest.doc == ManifestDoc(ManifestOf(image, a, ctx, sha))
    ensures Backed(r, image, ManifestOf(image, a, ctx, sha), sha)
    ensures ManifestSound(r, image, sha)
    ensures r[Name(image, Grype)] == Whole(ScanDoc(a.scan))
  {
    hide Name, Passes;
    OutputOrders();
    NamesOfOutputs(image);
    var m := ManifestOf(image, a, ctx, sha);
    assert Grype in ARTIFACTS && ScanVerdict in ARTIFACTS;
    assert m.artifacts.Keys == ArtifactNames(image);
  }

  /** Wherever an image's collection stops, the root stays sound. */
  lemma InterruptedImageIsSound(root: Root, image: string, a: Attempt, ctx: Context, resume: bool, sha: Digest, n: nat,
                                torn: Option<bool>)
    requires Sound(root, sha) && Name(image, Evidence) !in root
    requires n <= |ImageOps(root, image, a, ctx, resume, sha)|
    ensures Sound(Interrupted(root, ImageOps(root, image, a, ctx, resume, sha), n, torn), sha)
  {
    hide Sound, Name, ManifestOf, BeforeManifest, ImageOps, OwnNames, ArtifactsPresent, Backed, Touches, AgreeOutside,
         Apply;
    var before := BeforeManifest(root, image, a, ctx, resume);
    var name, doc := Name(image, Evidence), ManifestDoc(ManifestOf(image, a, ctx, sha));
    var ops := ImageOps(root, image, a, ctx, resume, sha);
    ImageOpsSplit(root, image, a, ctx, resume, sha);
    BeforeManifestTouches(root, image, a, ctx, resume);
    BeforeManifestApplies(root, image, a, ctx, resume);
    assert ops == before + [Write(name, doc)];
    var r := Interrupted(root, ops, n, torn);
    InterruptedFrame(root, ops, n, torn, image) by {
      NamesAreOwn(image);
      TouchesAppend(before, Write(name, doc), OwnNames(image));
    }
    if name in r {
      ManifestComesLast(root, before, name, doc, n, torn);
      var s := Apply(root, before).0;
      assert Collected(r, image, a, ctx, r[name]) by { PresentSurvives(s, r, image, a, ctx, r[name]); }
      CollectedIsSound(r, image, a, ctx, r[name], sha);
    }
    SoundFrame(r, root, image, sha);
  }

  lemma TouchesAppend(ops: seq<Op>, op: Op, names: set<string>)
    requires Touches(ops, names) && op.name in names
    ensures Touches(ops + [op], names)
  {
  }

  lemma PresentSurvives(s: Root, r: Root, image: string, a: Attempt, ctx: Context, f: File)
    requires ArtifactsPresent(s, image, a, ctx) && r == s[Name(image, Evidence) := f]
    ensures Collected(r, image, a, ctx, f)
  {
    hide Name, ArtifactDoc;
    OutputOrders();
    NamesOfOutputs(image);
  }

  lemma TouchesPrefix(ops: seq<Op>, n: nat, names: set<string>)
    requires Touches(ops, names) && n <= |ops|
    ensures Touches(ops[..n], names)
  {
  }

  lemma InterruptedFrame(root: Root, ops: seq<Op>, n: nat, torn: Option<bool>, image: string)
    requires Touches(ops, OwnNames(image)) && n <= |ops|
    ensures AgreeOutside(Interrupted(root, ops, n, torn), root, OwnNames(image))
  {
    hide OwnNames, Apply;
    TouchesPrefix(ops, n, OwnNames(image));
    ApplyFrame(root, ops[..n], OwnNames(image));
  }

  /** A manifest appears only by the last operation, on top of everything before it. */
  lemma {:induction false} ManifestComesLast(root: Root, before: seq<Op>, name: string, doc: Document, n: nat,
                                             torn: Option<bool>)
    requires name !in root && n <= |before| + 1
    requires forall i :: 0 <= i < |before| && before[i].Write? ==> before[i].name != name
    requires name in Interrupted(root, before + [Write(name, doc)], n, torn)
    ensures var r := Interrupted(root, before + [Write(name, doc)], n, torn);
            && Apply(root, before).1 && r[name].doc == doc
            && r == Apply(root, before).0[name := r[name]]
  {
    var ops := before + [Write(name, doc)];
    if n <= |before| {
      assert ops[..n] == before[..n];
      NeverWritten(root, before[..n], name);
      if n == |before| { assert before[..n] == before; }
    } else {
      assert ops[..n] == ops;
      ApplyConcat(root, before, [Write(name, doc)]);
      NeverWritten(root, before, name);
      var s := Apply(root, before).0;
      assert Apply(s, [Write(name, doc)]) == (s[name := Whole(doc)], true) by { assert [Write(name, doc)][1..] == []; }
    }
  }

  // ---------- runs ----------

  /** What a run meets at one image: the day its checkpoint is judged on, and what a
      collection would observe. */
  datatype Encounter = Encounter(checkDay: string, attempt: Attempt)

  datatype Outcome = Refused | Returned(manifests: seq<Manifest>)

  datatype Trace = Trace(ops: seq<Op>, outcome: Outcome)

  function Prepend(m: Manifest, o: Outcome): Outcome {
    if o.Refused? then Refused else Returned([m] + o.manifests)
  }

  /** The image loop of `collect_many`. */
  function Execute(root: Root, requested: seq<string>, env: string -> Encounter, ctx: Context, resume: bool,
                   sha: Digest): Trace
    decreases |requested|
  {
    if requested == [] then Trace([], Returned([]))
    else
      var image := requested[0];
      if resume && Name(image, Evidence) in root then
        match Checkpoint(root, image, ctx, env(image).checkDay, sha)
        case None => Trace([], Refused)
        case Some(m) =>
          var t := Execute(root, requested[1..], env, ctx, resume, sha);
          Trace(t.ops, Prepend(m, t.outcome))
      else
        var a := env(image).attempt;
        var ops := ImageOps(root, image, a, ctx, resume, sha);
        var (r, ok) := Apply(root, ops);
        if !ok || !Passes(a.scan, image, a.today, ctx.policy) then Trace(ops, Refused)
        else
          var t := Execute(r, requested[1..], env, ctx, resume, sha);
          Trace(ops + t.ops, Prepend(ManifestOf(image, a, ctx, sha), t.outcome))
  }

  lemma {:induction false} InterruptedPrefix(root: Root, a: seq<Op>, b: seq<Op>, n: nat, torn: Option<bool>)
    requires n <= |a| + |b|
    ensures n < |a| ==> Interrupted(root, a + b, n, torn) == Interrupted(root, a, n, torn)
    ensures n >= |a| && Apply(root, a).1 ==>
              Interrupted(root, a + b, n, torn) == Interrupted(Apply(root, a).0, b, n - |a|, torn)
  {
    hide Apply;
    if n < |a| {
      assert (a + b)[..n] == a[..n];
    } else {
      assert (a + b)[..n] == a + b[..n - |a|];
      ApplyConcat(root, a, b[..n - |a|]);
    }
  }

  lemma {:induction false} WholeRun(root: Root, ops: seq<Op>)
    ensures Interrupted(root, ops, |ops|, None) == Apply(root, ops).0
  {
    assert ops[..|ops|] == ops;
  }

  ghost predicate NoManifests(root: Root, images: seq<string>) {
    forall i :: 0 <= i < |images| ==> Name(images[i], Evidence) !in root
  }

  lemma OtherManifestsUnchanged(r: Root, root: Root, image: string, others: seq<string>)
    requires AgreeOutside(r, root, OwnNames(image)) && NoManifests(root, others) && image !in others
    ensures NoManifests(r, others)
  {
    hide Name, OwnNames;
    forall i | 0 <= i < |others| ensures Name(others[i], Evidence) !in r {
      ImagesAreDisjoint(image, others[i]);
      NamesAreOwn(others[i]);
    }
  }

  lemma {:induction false} ImageRunFrame(root: Root, image: string, a: Attempt, ctx: Context, resume: bool, sha: Digest)
    ensures Touches(ImageOps(root, image, a, ctx, resume, sha), OwnNames(image))
    ensures AgreeOutside(Apply(root, ImageOps(root, image, a, ctx, resume, sha)).0, root, OwnNames(image))
  {
    hide Name, ManifestOf, BeforeManifest, ImageOps, OwnNames, Touches, AgreeOutside, Apply;
    var before := BeforeManifest(root, image, a, ctx, resume);
    ImageOpsSplit(root, image, a, ctx, resume, sha);
    BeforeManifestTouches(root, image, a, ctx, resume);
    NamesAreOwn(image);
    TouchesAppend(before, Write(Name(image, Evidence), ManifestDoc(ManifestOf(image, a, ctx, sha))), OwnNames(image));
    ApplyFrame(root, ImageOps(root, image, a, ctx, resume, sha), OwnNames(image));
  }

  /** Wherever a run stops, a sound root stays sound. */
  lemma {:induction false} InterruptedRunIsSound(
      root: Root, requested: seq<string>, env: string -> Encounter, ctx: Context, resume: bool, sha: Digest, n: nat,
      torn: Option<bool>)
    requires Sound(root, sha) && Distinct(requested) && (resume || NoManifests(root, requested))
    requires n <= |Execute(root, requested, env, ctx, resume, sha).ops|
    ensures Sound(Interrupted(root, Execute(root, requested, env, ctx, resume, sha).ops, n, torn), sha)
    decreases |requested|
  {
    hide Sound, Name, ImageOps, Interrupted, Checkpoint, Passes, ManifestOf, Apply, AgreeOutside, Touches, OwnNames;
    if requested == [] {
      NothingDone(root, torn);
    } else {
      var image, rest := requested[0], requested[1..];
      assert image !in rest;
      if resume && Name(image, Evidence) in root {
        if Checkpoint(root, image, ctx, env(image).checkDay, sha).None? {
          NothingDone(root, torn);
        } else {
          InterruptedRunIsSound(root, rest, env, ctx, resume, sha, n, torn);
        }
      } else {
        var a := env(image).attempt;
        var ops := ImageOps(root, image, a, ctx, resume, sha);
        var (r, ok) := Apply(root, ops);
        if !ok || !Passes(a.scan, image, a.today, ctx.policy) {
          InterruptedImageIsSound(root, image, a, ctx, resume, sha, n, torn);
        } else {
          var t := Execute(r, rest, env, ctx, resume, sha);
          InterruptedPrefix(root, ops, t.ops, n, torn);
          if n < |ops| {
            InterruptedImageIsSound(root, image, a, ctx, resume, sha, n, torn);
          } else {
            InterruptedImageIsSound(root, image, a, ctx, resume, sha, |ops|, None);
            WholeRun(root, ops);
            ImageRunFrame(root, image, a, ctx, resume, sha);
            if !resume { OtherManifestsUnchanged(r, root, image, rest); }
            InterruptedRunIsSound(r, rest, env, ctx, resume, sha, n - |ops|, torn);
          }
        }
      }
    }
  }

  lemma NothingDone(root: Root, torn: Option<bool>)
    ensures Interrupted(root, [], 0, torn) == root
  {
  }

  // ---------- what a returning run guarantees ----------

  /** What a run may start on: anything when it resumes, otherwise a root without files of the
      requested images. */
  ghost predicate Ready(root: Root, requested: seq<string>, resume: bool) {
    resume || forall i :: 0 <= i < |requested| ==> Clear(root, requested[i])
  }

  lemma {:induction false} ReadyForFirst(root: Root, requested: seq<string>, resume: bool)
    requires requested != [] && Ready(root, requested, resume)
    ensures resume || (Clear(root, requested[0]) && Name(requested[0], Evidence) !in root)
  {
  }

  lemma {:induction false} ReadyAfterOne(r: Root, root: Root, requested: seq<string>, resume: bool)
    requires requested != [] && Distinct(requested) && Ready(root, requested, resume)
    requires r == root || AgreeOutside(r, root, OwnNames(requested[0]))
    ensures Ready(r, requested[1..], resume)
  {
    hide Name, OwnNames;
    var image, rest := requested[0], requested[1..];
    if !resume {
      forall i | 0 <= i < |rest| ensures Clear(r, rest[i]) {
        assert rest[i] == requested[i + 1];
        assert Clear(root, rest[i]);
        ImagesAreDisjoint(image, rest[i]);
        NamesAreOwn(rest[i]);
      }
    }
  }

  ghost predicate Guaranteed(root: Root, image: string, m: Manifest, ctx: Context, today: string, sha: Digest) {
    && m.receiptDigest == ctx.receiptDigest && m.databaseBuiltAt == ctx.databaseBuiltAt
    && Backed(root, image, m, sha)
    && Passes(root[Name(image, Grype)].doc.scan, image, today, ctx.policy)
  }

  /** The day an image is judged on: when its checkpoint is read, or when it is collected. */
  function JudgedOn(root: Root, image: string, e: Encounter): string {
    if Name(image, Evidence) in root then e.checkDay else e.attempt.today
  }

  function AllNames(images: seq<string>): set<string> {
    if images == [] then {} else OwnNames(images[0]) + AllNames(images[1..])
  }

  lemma {:induction false} ExecuteTouches(root: Root, requested: seq<string>, env: string -> Encounter, ctx: Context,
                                          resume: bool, sha: Digest)
    ensures Touches(Execute(root, requested, env, ctx, resume, sha).ops, AllNames(requested))
    decreases |requested|
  {
    hide Name, ImageOps, Checkpoint, Passes, ManifestOf, Apply, AgreeOutside, OwnNames;
    if requested != [] {
      var image, rest := requested[0], requested[1..];
      var a := env(image).attempt;
      if resume && Name(image, Evidence) in root {
        ExecuteTouches(root, rest, env, ctx, resume, sha);
      } else {
        var ops := ImageOps(root, image, a, ctx, resume, sha);
        ImageRunFrame(root, image, a, ctx, resume, sha);
        ExecuteTouches(Apply(root, ops).0, rest, env, ctx, resume, sha);
      }
    }
  }

  lemma {:induction false} OthersDoNotTouch(image: string, others: seq<string>)
    requires image !in others
    ensures OwnNames(image) !! AllNames(others)
  {
    hide OwnNames;
    if others != [] {
      ImagesAreDisjoint(image, others[0]);
      OthersDoNotTouch(image, others[1..]);
    }
  }

  lemma GuaranteeFrame(r: Root, s: Root, image: string, m: Manifest, ctx: Context, today: string, names: set<string>,
                       sha: Digest)
    requires Guaranteed(s, image, m, ctx, today, sha) && AgreeOutside(r, s, names) && names !! OwnNames(image)
    ensures Guaranteed(r, image, m, ctx, today, sha)
  {
    hide Name, Passes, OwnNames;
    NamesAreOwn(image);
    assert r[Name(image, Grype)] == s[Name(image, Grype)];
  }

  lemma CheckpointGuarantees(root: Root, image: string, ctx: Context, today: string, sha: Digest)
    requires Sound(root, sha) && Name(image, Evidence) in root
    requires Checkpoint(root, image, ctx, today, sha).Some?
    ensures Guaranteed(root, image, Checkpoint(root, image, ctx, today, sha).value, ctx, today, sha)
  {
    hide Name, Passes, OwnNames;
    assert ManifestSound(root, image, sha);
  }

  lemma {:induction false} CollectionGuarantees(root: Root, image: string, a: Attempt, ctx: Context, resume: bool,
                                                sha: Digest)
    requires Passes(a.scan, image, a.today, ctx.policy) && (resume || Clear(root, image))
    ensures Guaranteed(Apply(root, ImageOps(root, image, a, ctx, resume, sha)).0, image,
                       ManifestOf(image, a, ctx, sha), ctx, a.today, sha)
  {
    hide Name, Passes, OwnNames, Apply, ImageOps, AgreeOutside;
    NoCreateOnlyCollision(root, image, a, ctx, resume, sha);
    var r := Apply(root, ImageOps(root, image, a, ctx, resume, sha)).0;
    CollectedIsSound(r, image, a, ctx, r[Name(image, Evidence)], sha);
  }

  /** A run over a sound root that returns, resumed or fresh: one manifest per requested image,
      in order, and when the run ends every one of them is still bound to the release, still matches
      every artifact it lists, and its scan passed on the day read at that image. */
  lemma {:induction false} RunGuarantees(root: Root, requested: seq<string>, env: string -> Encounter, ctx: Context,
                                         resume: bool, sha: Digest)
    requires Sound(root, sha) && Distinct(requested) && Ready(root, requested, resume)
    requires Execute(root, requested, env, ctx, resume, sha).outcome.Returned?
    ensures var t := Execute(root, requested, env, ctx, resume, sha);
            && Apply(root, t.ops).1
            && |t.outcome.manifests| == |requested|
            && forall i :: 0 <= i < |requested| ==>
                 Guaranteed(Apply(root, t.ops).0, requested[i], t.outcome.manifests[i], ctx,
                            JudgedOn(root, requested[i], env(requested[i])), sha)
    decreases |requested|
  {
    hide Sound, Name, ImageOps, Checkpoint, Passes, ManifestOf, Apply, AgreeOutside, Touches, OwnNames, Guaranteed,
         AllNames, Ready;
    var t := Execute(root, requested, env, ctx, resume, sha);
    if requested == [] {
      EmptyRun(root);
    } else {
      var image, rest := requested[0], requested[1..];
      var e := env(image);
      assert image !in rest;
      var start, first := root, t.outcome.manifests[0];
      var ops: seq<Op> := [];
      ReadyForFirst(root, requested, resume);
      if Name(image, Evidence) in root {
        CheckpointGuarantees(root, image, ctx, e.checkDay, sha);
        EmptyRun(root);
      } else {
        ops := ImageOps(root, image, e.attempt, ctx, resume, sha);
        start := Apply(root, ops).0;
        CollectionGuarantees(root, image, e.attempt, ctx, resume, sha);
        ImageRunFrame(root, image, e.attempt, ctx, resume, sha);
        InterruptedImageIsSound(root, image, e.attempt, ctx, resume, sha, |ops|, None);
        WholeRun(root, ops);
      }
      var t' := Execute(start, rest, env, ctx, resume, sha);
      assert t.ops == ops + t'.ops && t.outcome.manifests == [first] + t'.outcome.manifests;
      ReadyAfterOne(start, root, requested, resume);
      RunGuarantees(start, rest, env, ctx, resume, sha);
      ApplyConcat(root, ops, t'.ops);
      ExecuteTouches(start, rest, env, ctx, resume, sha);
      ApplyFrame(start, t'.ops, AllNames(rest));
      OthersDoNotTouch(image, rest);
      GuaranteeFrame(Apply(start, t'.ops).0, start, image, first, ctx, JudgedOn(root, image, e), AllNames(rest), sha);
      forall i | 0 <= i < |rest|
        ensures JudgedOn(start, rest[i], env(rest[i])) == JudgedOn(root, rest[i], env(rest[i]))
      {
        SameDay(start, root, image, rest[i], env(rest[i]));
      }
    }
  }

  lemma SameDay(r: Root, s: Root, image: string, other: string, e: Encounter)
    requires (r == s || AgreeOutside(r, s, OwnNames(image))) && other != image
    ensures JudgedOn(r, other, e) == JudgedOn(s, other, e)
  {
    hide OwnNames, Name;
    ImagesAreDisjoint(image, other);
    NamesAreOwn(other);
  }

  lemma {:induction false} EmptyRun(root: Root)
    ensures Apply(root, []) == (root, true)
  {
  }

  // ---------- every reachable root ----------

  /** `dict.fromkeys`: each requested image once, where it first occurs. */
  function FirstOccurrences(ids: seq<string>): (r: seq<string>)
    ensures forall x :: x in r <==> x in ids
    ensures Distinct(r)
  {
    if ids == [] then []
    else
      var r := FirstOccurrences(ids[..|ids| - 1]);
      var last := ids[|ids| - 1];
      assert ids == ids[..|ids| - 1] + [last];
      if last in r then r else r + [last]
  }

  /** The images come out in the order of their first occurrence. */
  lemma {:induction false} FirstOccurrencesInOrder(ids: seq<string>, i: nat, j: nat, q: nat)
    requires i < j < |FirstOccurrences(ids)| && q < |ids| && ids[q] == FirstOccurrences(ids)[j]
    ensures exists p :: 0 <= p < q && ids[p] == FirstOccurrences(ids)[i]
  {
    var init, last := ids[..|ids| - 1], ids[|ids| - 1];
    var r := FirstOccurrences(init);
    if q < |init| {
      assert init[q] == ids[q] && ids[q] in r;
      assert j < |r|;
      FirstOccurrencesInOrder(init, i, j, q);
      var p :| 0 <= p < q && init[p] == r[i];
      assert ids[p] == r[i];
    } else {
      var x := FirstOccurrences(ids)[i];
      assert x == r[i] && x in init;
      var p :| 0 <= p < |init| && init[p] == x;
      assert ids[p] == x;
    }
  }

  /** One invocation of the collector, stopped after some operations. */
  datatype Run = Run(imageIds: seq<string>, env: string -> Encounter, ctx: Context, resume: bool, stop: nat,
                     torn: Option<bool>)

  function TraceOf(root: Root, run: Run, sha: Digest): Trace {
    var requested := FirstOccurrences(run.imageIds);
    if !run.resume && root != map[] then Trace([], Refused)
    else if requested == [] || exists x :: x in requested && x !in run.ctx.available then Trace([], Refused)
    else Execute(root, requested, run.env, run.ctx, run.resume, sha)
  }

  function After(root: Root, run: Run, sha: Digest): Root {
    var ops := TraceOf(root, run, sha).ops;
    if run.stop < |ops| then Interrupted(root, ops, run.stop, run.torn) else Interrupted(root, ops, |ops|, None)
  }

  /** The root after a history of runs that starts in an empty directory. */
  function RootAfter(history: seq<Run>, sha: Digest): Root {
    if history == [] then map[] else After(RootAfter(history[..|history| - 1], sha), history[|history| - 1], sha)
  }

  /** Every root that any number of crashed, refused, interrupted or complete runs leaves is
      sound: a readable manifest is always backed by every artifact it lists. */
  lemma {:induction false} EveryReachableRootIsSound(history: seq<Run>, sha: Digest)
    ensures Sound(RootAfter(history, sha), sha)
  {
    hide Name, Execute, Interrupted;
    if history != [] {
      var before, run := RootAfter(history[..|history| - 1], sha), history[|history| - 1];
      EveryReachableRootIsSound(history[..|history| - 1], sha);
      var t := TraceOf(before, run, sha);
      NothingDone(before, run.torn);
      NothingDone(before, None);
      if t != Trace([], Refused) {
        var requested := FirstOccurrences(run.imageIds);
        if run.stop < |t.ops| {
          InterruptedRunIsSound(before, requested, run.env, run.ctx, run.resume, sha, run.stop, run.torn);
        } else {
          InterruptedRunIsSound(before, requested, run.env, run.ctx, run.resume, sha, |t.ops|, None);
        }
      }
    }
  }

  /** Crash-safe resume: after any history, a resume that runs to its end and returns yields
      each requested image once, in order of first occurrence, with the guarantee above. */
  lemma {:induction false} CrashSafeResume(history: seq<Run>, run: Run, sha: Digest)
    requires run.resume
    requires TraceOf(RootAfter(history, sha), run, sha).outcome.Returned?
    ensures var root, requested := RootAfter(history, sha), FirstOccurrences(run.imageIds);
            var t := TraceOf(root, run, sha);
            && |t.outcome.manifests| == |requested| > 0
            && forall i :: 0 <= i < |requested| ==>
                 Guaranteed(Apply(root, t.ops).0, requested[i], t.outcome.manifests[i], run.ctx,
                            JudgedOn(root, requested[i], run.env(requested[i])), sha)
  {
    hide Name, Execute, Sound, Guaranteed;
    EveryReachableRootIsSound(history, sha);
    RunGuarantees(RootAfter(history, sha), FirstOccurrences(run.imageIds), run.env, run.ctx, true, sha);
  }

  /** A checkpoint that is readable and belongs to this release. */
  ghost predicate Resumable(root: Root, image: string, ctx: Context) {
    && Name(image, Evidence) in root && Load(root[Name(image, Evidence)]).Some?
    && var doc := Load(root[Name(image, Evidence)]).value;
       && (doc.ManifestDoc? ==> doc.manifest.receiptDigest == ctx.receiptDigest)
       && (doc.ManifestDoc? ==> doc.manifest.databaseBuiltAt == ctx.databaseBuiltAt)
  }

  /** The stored verdict passed, and so does the stored scan today. */
  ghost predicate WouldPassToday(root: Root, image: string, ctx: Context, today: string) {
    var verdict, scan := Name(image, ScanVerdict), Name(image, Grype);
    && verdict in root && root[verdict] == Whole(VerdictDoc(image, true))
    && scan in root && root[scan].Whole? && root[scan].doc.ScanDoc?
    && Passes(root[scan].doc.scan, image, today, ctx.policy)
  }

  lemma SoundCheckpointIsExact(root: Root, image: string, ctx: Context, today: string, sha: Digest)
    requires ManifestSound(root, image, sha) && Resumable(root, image, ctx)
    ensures Checkpoint(root, image, ctx, today, sha).Some? <==> WouldPassToday(root, image, ctx, today)
  {
    hide Name, Passes, ArtifactNames, OwnNames;
    NamesAreOwn(image);
    assert ArtifactNames(image) != {};
  }

  /** A resume accepts exactly what a fresh collection would accept: in a reachable root, a
      readable checkpoint of this release passes if and only if its stored verdict passed and
      its own scan passes the ledger today. Nothing else can refuse it. */
  lemma {:induction false} CheckpointIsExact(history: seq<Run>, image: string, ctx: Context, today: string, sha: Digest)
    requires Resumable(RootAfter(history, sha), image, ctx)
    ensures Checkpoint(RootAfter(history, sha), image, ctx, today, sha).Some?
            <==> WouldPassToday(RootAfter(history, sha), image, ctx, today)
  {
    hide RootAfter, ManifestSound, Checkpoint, WouldPassToday, Name;
    EveryReachableRootIsSound(history, sha);
    SoundCheckpointIsExact(RootAfter(history, sha), image, ctx, today, sha);
  }
}
