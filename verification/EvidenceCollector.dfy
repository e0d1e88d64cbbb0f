/** The collector as it runs (scripts/collect_release_evidence.py): an output root whose files
    are created, removed and read step by step, each method proved against the operations and
    traces that the crash and resume theorems speak about. */
module EvidenceCollector {
  import opened Text
  import opened ScanSuppression
  import opened ScanEvaluation
  import opened EvidenceStore
  import opened EvidenceRuns
  import opened EvidenceResume

  class OutputRoot {
    var files: Root

    /** A root with whatever an earlier run left: nothing, for a new one. */
    constructor (files: Root)
      ensures this.files == files
    {
      this.files := files;
    }

    method WriteCreateOnly(name: string, doc: Document) returns (ok: bool)
      modifies this
      ensures (files, ok) == Apply(old(files), [Write(name, doc)])
      ensures forall n :: n in old(files) ==> n in files && files[n] == old(files)[n]
    {
      ok := name !in files;
      if ok { files := files[name := Whole(doc)]; }
      assert [Write(name, doc)][1..] == [];
    }

    /** `_discard_partial_image`: all eleven names, and nothing else. */
    method DiscardPartialImage(image: string)
      modifies this
      ensures files == old(files) - OwnNames(image)
      ensures Apply(old(files), Discards(old(files), image, DISCARDS)) == (files, true)
    {
      hide Name, Discards;
      for k := 0 to |DISCARDS|
        invariant files == old(files) - set o | o in DISCARDS[..k] :: Name(image, o)
      {
        var artifact := Name(image, DISCARDS[k]);
        assert DISCARDS[..k + 1] == DISCARDS[..k] + [DISCARDS[k]];
        if artifact in files {
          files := files - {artifact};
        }
      }
      assert DISCARDS[..|DISCARDS|] == DISCARDS;
      OutputOrders();
      assert (set o | o in DISCARDS :: Name(image, o)) == OwnNames(image);
      DiscardsApply(old(files), image, DISCARDS, old(files));
    }

    /** The writes of `_collect_image`: ten artifacts, then the manifest over them. A collision
        stops it; so does a failing verdict, but only after the manifest is published. */
    method CollectImage(image: string, a: Attempt, ctx: Context, sha: Digest) returns (m: Option<Manifest>)
      modifies this
      ensures files == Apply(old(files), Writes(image, a, ctx, sha)).0
      ensures m.Some? <==> Apply(old(files), Writes(image, a, ctx, sha)).1 && Passes(a.scan, image, a.today, ctx.policy)
      ensures m.Some? ==> m.value == ManifestOf(image, a, ctx, sha)
    {
      hide Name, Passes, Apply, ManifestOf;
      ghost var all := ArtifactWrites(image, a, ctx, ARTIFACTS);
      ghost var start := files;
      ghost var last := Write(Name(image, Evidence), ManifestDoc(ManifestOf(image, a, ctx, sha)));
      EmptyRun(files);
      assert ARTIFACTS[0..] == ARTIFACTS;
      ghost var done: seq<Op> := [];
      for k := 0 to |ARTIFACTS|
        invariant done + ArtifactWrites(image, a, ctx, ARTIFACTS[k..]) == all
        invariant Apply(start, done) == (files, true)
      {
        var doc := ArtifactDoc(image, a, ctx, ARTIFACTS[k]);
        ghost var op := Write(Name(image, ARTIFACTS[k]), doc);
        ghost var rest := ArtifactWrites(image, a, ctx, ARTIFACTS[k + 1..]);
        assert ARTIFACTS[k..][1..] == ARTIFACTS[k + 1..];
        assert done + ([op] + rest) == (done + [op]) + rest;
        ApplyConcat(start, done, [op]);
        var ok := WriteCreateOnly(Name(image, ARTIFACTS[k]), doc);
        if !ok {
          ApplyConcat(start, done + [op], rest + [last]);
          assert Writes(image, a, ctx, sha) == (done + [op]) + (rest + [last]);
          return None;
        }
        done := done + [op];
      }
      assert ARTIFACTS[|ARTIFACTS|..] == [] && done + [] == done;
      var manifest := ManifestOf(image, a, ctx, sha);
      ApplyConcat(start, done, [last]);
      var ok := WriteCreateOnly(Name(image, Evidence), ManifestDoc(manifest));
      if !ok || !Passes(a.scan, image, a.today, ctx.policy) { return None; }
      return Some(manifest);
    }

    /** `_verified_checkpoint` on an existing manifest, with its loop over the inventory. */
    method VerifiedCheckpoint(image: string, ctx: Context, today: string, sha: Digest) returns (r: Option<Manifest>)
      requires Name(image, Evidence) in files
      ensures r == Checkpoint(files, image, ctx, today, sha)
    {
      hide Name, Passes;
      var doc := Load(files[Name(image, Evidence)]);
      if doc.None? || !doc.value.ManifestDoc? { return None; }
      var m := doc.value.manifest;
      if m.image != image || m.receiptDigest != ctx.receiptDigest { return None; }
      if m.databaseBuiltAt != ctx.databaseBuiltAt || m.artifacts == map[] { return None; }
      var left := m.artifacts.Keys;
      while left != {}
        invariant left <= m.artifacts.Keys
        invariant forall name :: name in m.artifacts && name !in left ==>
          name in files && sha(files[name]) == m.artifacts[name]
      {
        var name :| name in left;
        if name !in files || sha(files[name]) != m.artifacts[name] { return None; }
        left := left - {name};
      }
      var verdict, scan := Name(image, ScanVerdict), Name(image, Grype);
      if m.scanPolicy.None? || verdict !in m.artifacts || m.scanPolicy.value.evaluationArtifact != verdict {
        return None;
      }
      if Load(files[verdict]) != Some(VerdictDoc(image, true)) || !m.scanPolicy.value.passed { return None; }
      if scan !in m.artifacts || Load(files[scan]).None? { return None; }
      if !Passes(AsScan(Load(files[scan]).value), image, today, ctx.policy) { return None; }
      return Some(m);
    }

    /** `collect_many`: the uninterrupted run performs exactly the trace of its inputs. */
    method CollectMany(imageIds: seq<string>, env: string -> Encounter, ctx: Context, resume: bool,
                       sha: Digest) returns (o: Outcome)
      modifies this
      ensures var t := TraceOf(old(files), Run(imageIds, env, ctx, resume, 0, None), sha);
              o == t.outcome && files == Apply(old(files), t.ops).0
    {
      hide Name, Passes, Apply, ImageOps, Checkpoint, ManifestOf, Writes, Discards;
      EmptyRun(files);
      if !resume && files != map[] { return Refused; }
      var requested := FirstOccurrences(imageIds);
      if requested == [] || exists x :: x in requested && x !in ctx.available { return Refused; }
      ghost var start := files;
      ghost var whole := Execute(start, requested, env, ctx, resume, sha);
      ghost var done: seq<Op> := [];
      var manifests: seq<Manifest> := [];
      assert requested[0..] == requested;
      for k := 0 to |requested|
        invariant Apply(start, done) == (files, true)
        invariant var t := Execute(files, requested[k..], env, ctx, resume, sha);
                  whole.ops == done + t.ops && whole.outcome == PrependAll(manifests, t.outcome)
      {
        var image := requested[k];
        ghost var before, rest := files, requested[k + 1..];
        assert requested[k..][1..] == rest;
        ghost var t := Execute(before, requested[k..], env, ctx, resume, sha);
        if resume && Name(image, Evidence) in files {
          var completed := VerifiedCheckpoint(image, ctx, env(image).checkDay, sha);
          if completed.None? {
            assert done + [] == done;
            return Refused;
          }
          PrependAllStep(manifests, completed.value, Execute(files, rest, env, ctx, resume, sha).outcome);
          manifests := manifests + [completed.value];
          continue;
        }
        ghost var ops := ImageOps(before, image, env(image).attempt, ctx, resume, sha);
        if resume { DiscardPartialImage(image); }
        ImageOpsApply(before, image, env(image).attempt, ctx, resume, sha, files);
        var manifest := CollectImage(image, env(image).attempt, ctx, sha);
        ApplyConcat(start, done, ops);
        if manifest.None? { return Refused; }
        ghost var t' := Execute(files, rest, env, ctx, resume, sha);
        assert (done + ops) + t'.ops == done + (ops + t'.ops);
        PrependAllStep(manifests, manifest.value, t'.outcome);
        done := done + ops;
        manifests := manifests + [manifest.value];
      }
      assert requested[|requested|..] == [] && done + [] == done;
      PrependAllNothing(manifests);
      return Returned(manifests);
    }
  }

  function PrependAll(ms: seq<Manifest>, o: Outcome): Outcome {
    if o.Refused? then Refused else Returned(ms + o.manifests)
  }

  lemma PrependAllStep(ms: seq<Manifest>, m: Manifest, o: Outcome)
    ensures PrependAll(ms, Prepend(m, o)) == PrependAll(ms + [m], o)
  {
    if o.Returned? { assert ms + ([m] + o.manifests) == (ms + [m]) + o.manifests; }
  }

  lemma PrependAllNothing(ms: seq<Manifest>)
    ensures PrependAll(ms, Returned([])) == Returned(ms)
  {
    assert ms + [] == ms;
  }

  lemma {:induction false} ImageOpsApply(root: Root, image: string, a: Attempt, ctx: Context, resume: bool, sha: Digest,
                                         start: Root)
    requires start == if resume then Apply(root, Discards(root, image, DISCARDS)).0 else root
    requires resume ==> Apply(root, Discards(root, image, DISCARDS)).1
    ensures Apply(root, ImageOps(root, image, a, ctx, resume, sha)) == Apply(start, Writes(image, a, ctx, sha))
  {
    hide Name, Discards, Writes;
    EmptyRun(root);
    ApplyConcat(root, if resume then Discards(root, image, DISCARDS) else [], Writes(image, a, ctx, sha));
  }
}
