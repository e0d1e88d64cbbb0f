/** Crash-safe resume (scripts/collect_release_evidence.py): runs over an evidence root that
    may stop between any two file operations or in the middle of a write, and what a later
    resume that returns guarantees. */
module EvidenceRuns {
  import opened Text
  import opened ScanSuppression
  import opened ScanEvaluation
  import opened EvidenceStore

  // ---------- performing operations ----------

  lemma {:induction false} ApplyConcat(root: Root, a: seq<Op>, b: seq<Op>)
    ensures Apply(root, a + b) == if Apply(root, a).1 then Apply(Apply(root, a).0, b) else Apply(root, a)
    decreases |a|
  {
    if a == [] {
      assert a + b == b;
    } else {
      DropAppend(a, b, 1);
      match a[0]
      case Remove(name) => ApplyConcat(root - {name}, a[1..], b);
      case Write(name, doc) => if name !in root { ApplyConcat(root[name := Whole(doc)], a[1..], b); }
    }
  }

  ghost predicate Touches(ops: seq<Op>, names: set<string>) {
    forall i :: 0 <= i < |ops| ==> ops[i].name in names
  }

  ghost predicate AgreeOutside(r: Root, s: Root, names: set<string>) {
    forall name :: name !in names ==> (name in r <==> name in s) && (name in r ==> r[name] == s[name])
  }

  lemma {:induction false} ApplyFrame(root: Root, ops: seq<Op>, names: set<string>)
    requires Touches(ops, names)
    ensures AgreeOutside(Apply(root, ops).0, root, names)
    decreases |ops|
  {
    if ops != [] {
      assert ops[0].name in names;
      assert Touches(ops[1..], names) by {
        forall i | 0 <= i < |ops| - 1 ensures ops[1..][i].name in names { assert ops[1..][i] == ops[i + 1]; }
      }
      match ops[0]
      case Remove(name) => ApplyFrame(root - {name}, ops[1..], names);
      case Write(name, doc) => if name !in root { ApplyFrame(root[name := Whole(doc)], ops[1..], names); }
    }
  }

  /** The state an interrupted run leaves: n operations done, and, if the next one is a write
      in flight, possibly a prefix of its document. */
  function Interrupted(root: Root, ops: seq<Op>, n: nat, torn: Option<bool>): Root
    requires n <= |ops|
  {
    var (r, ok) := Apply(root, ops[..n]);
    if ok && torn.Some? && n < |ops| && ops[n].Write? && ops[n].name !in r
    then r[ops[n].name := Torn(ops[n].doc, torn.value)] else r
  }

  // ---------- one image ----------

  lemma {:induction false} DiscardsTouch(root: Root, image: string, outputs: seq<Output>)
    ensures Touches(Discards(root, image, outputs), OwnNames(image))
    ensures forall i :: 0 <= i < |Discards(root, image, outputs)| ==> Discards(root, image, outputs)[i].Remove?
  {
    hide Name;
    if outputs != [] {
      DiscardsTouch(root, image, outputs[1..]);
      assert Name(image, outputs[0]) in OwnNames(image);
    }
  }

  lemma {:induction false} DiscardsApply(root: Root, image: string, outputs: seq<Output>, r: Root)
    requires r.Keys <= root.Keys
    ensures Apply(r, Discards(root, image, outputs)) == (r - (set o | o in outputs :: Name(image, o)), true)
  {
    hide Name;
    var names := set o | o in outputs :: Name(image, o);
    if outputs == [] {
      assert r - names == r;
    } else {
      var first, rest := Name(image, outputs[0]), Discards(root, image, outputs[1..]);
      var others := set o | o in outputs[1..] :: Name(image, o);
      assert outputs == [outputs[0]] + outputs[1..];
      assert names == {first} + others;
      if first in root {
        assert Discards(root, image, outputs) == [Remove(first)] + rest;
        assert ([Remove(first)] + rest)[1..] == rest;
        DiscardsApply(root, image, outputs[1..], r - {first});
        assert (r - {first}) - others == r - names;
      } else {
        assert Discards(root, image, outputs) == rest;
        DiscardsApply(root, image, outputs[1..], r);
        assert r - others == r - names;
      }
    }
  }

  lemma {:induction false} ArtifactWritesTouch(image: string, a: Attempt, ctx: Context, outputs: seq<Output>)
    requires Evidence !in outputs
    ensures var ops := ArtifactWrites(image, a, ctx, outputs);
            Touches(ops, OwnNames(image) - {Name(image, Evidence)})
  {
    hide Name, ArtifactDoc;
    if outputs != [] {
      ArtifactWritesTouch(image, a, ctx, outputs[1..]);
      NamesOfOutputs(image);
      assert Name(image, outputs[0]) in OwnNames(image);
    }
  }

  ghost predicate Distinct<T>(s: seq<T>) {
    forall i, j :: 0 <= i < j < |s| ==> s[i] != s[j]
  }

  lemma {:induction false} ArtifactWritesApply(root: Root, image: string, a: Attempt, ctx: Context,
                                               outputs: seq<Output>)
    requires Distinct(outputs)
    ensures var (r, ok) := Apply(root, ArtifactWrites(image, a, ctx, outputs));
            && (ok <==> forall o :: o in outputs ==> Name(image, o) !in root)
            && (ok ==> forall o :: o in outputs ==>
                    Name(image, o) in r && r[Name(image, o)] == Whole(ArtifactDoc(image, a, ctx, o)))
            && (ok ==> AgreeOutside(r, root, set o | o in outputs :: Name(image, o)))
    decreases |outputs|
  {
    hide Name, ArtifactDoc;
    if outputs != [] {
      var o := outputs[0];
      var first, doc := Name(image, o), ArtifactDoc(image, a, ctx, o);
      var rest := ArtifactWrites(image, a, ctx, outputs[1..]);
      NamesOfOutputs(image);
      assert outputs == [o] + outputs[1..] && o !in outputs[1..];
      assert ([Write(first, doc)] + rest)[1..] == rest;
      ArtifactWritesApply(root[first := Whole(doc)], image, a, ctx, outputs[1..]);
    }
  }

  lemma OutputOrders()
    ensures Distinct(ARTIFACTS) && Evidence !in ARTIFACTS
    ensures forall o: Output :: o in DISCARDS
    ensures forall o: Output :: o.Evidence? || o in ARTIFACTS
  {
    forall o: Output ensures o in DISCARDS && (o.Evidence? || o in ARTIFACTS) {
      match o
      case Cdx => assert DISCARDS[0] == o && ARTIFACTS[0] == o;
      case Spdx => assert DISCARDS[1] == o && ARTIFACTS[1] == o;
      case Syft => assert DISCARDS[2] == o && ARTIFACTS[2] == o;
      case Grype => assert DISCARDS[3] == o && ARTIFACTS[3] == o;
      case GrypeDb => assert DISCARDS[8] == o && ARTIFACTS[4] == o;
      case ScanVerdict => assert DISCARDS[4] == o && ARTIFACTS[5] == o;
      case Licenses => assert DISCARDS[5] == o && ARTIFACTS[6] == o;
      case DoubleBuild => assert DISCARDS[6] == o && ARTIFACTS[7] == o;
      case Healthcheck => assert DISCARDS[7] == o && ARTIFACTS[8] == o;
      case Provenance => assert DISCARDS[9] == o && ARTIFACTS[9] == o;
      case Evidence => assert DISCARDS[10] == o;
    }
  }

  /** The files a complete collection of an image leaves. */
  ghost predicate Collected(r: Root, image: string, a: Attempt, ctx: Context, manifest: File) {
    && Name(image, Evidence) in r && r[Name(image, Evidence)] == manifest
    && ArtifactsPresent(r, image, a, ctx)
  }

  ghost predicate ArtifactsPresent(r: Root, image: string, a: Attempt, ctx: Context) {
    forall o :: o in ARTIFACTS ==> Name(image, o) in r && r[Name(image, o)] == Whole(ArtifactDoc(image, a, ctx, o))
  }

  /** The operations of an image before its manifest. */
  function BeforeManifest(root: Root, image: string, a: Attempt, ctx: Context, resume: bool): seq<Op> {
    (if resume then Discards(root, image, DISCARDS) else []) + ArtifactWrites(image, a, ctx, ARTIFACTS)
  }

  lemma ImageOpsSplit(root: Root, image: string, a: Attempt, ctx: Context, resume: bool, sha: Digest)
    ensures ImageOps(root, image, a, ctx, resume, sha)
            == BeforeManifest(root, image, a, ctx, resume)
               + [Write(Name(image, Evidence), ManifestDoc(ManifestOf(image, a, ctx, sha)))]
  {
  }

  lemma BeforeManifestTouches(root: Root, image: string, a: Attempt, ctx: Context, resume: bool)
    ensures var ops := BeforeManifest(root, image, a, ctx, resume);
            && Touches(ops, OwnNames(image))
            && forall i :: 0 <= i < |ops| && ops[i].Write? ==> ops[i].name != Name(image, Evidence)
  {
    hide Name, Discards, ArtifactWrites;
    OutputOrders();
    DiscardsTouch(root, image, DISCARDS);
    ArtifactWritesTouch(image, a, ctx, ARTIFACTS);
  }

  lemma {:induction false} NeverWritten(root: Root, ops: seq<Op>, name: string)
    requires name !in root
    requires forall i :: 0 <= i < |ops| && ops[i].Write? ==> ops[i].name != name
    ensures name !in Apply(root, ops).0
    decreases |ops|
  {
    if ops != [] {
      forall i | 0 <= i < |ops| - 1 && ops[1..][i].Write? ensures ops[1..][i].name != name {
        assert ops[1..][i] == ops[i + 1];
      }
      match ops[0]
      case Remove(n) => NeverWritten(root - {n}, ops[1..], name);
      case Write(n, doc) => if n !in root { NeverWritten(root[n := Whole(doc)], ops[1..], name); }
    }
  }

  /** No file of this image is there. */
  ghost predicate Clear(root: Root, image: string) {
    forall o: Output :: Name(image, o) !in root
  }

  lemma {:induction false} BeforeManifestApplies(root: Root, image: string, a: Attempt, ctx: Context, resume: bool)
    ensures var (r, ok) := Apply(root, BeforeManifest(root, image, a, ctx, resume));
            && (resume || Clear(root, image) ==> ok && Name(image, Evidence) !in r)
            && (ok ==> ArtifactsPresent(r, image, a, ctx))
  {
    hide Name, Discards, ArtifactWrites, ArtifactDoc;
    OutputOrders();
    NamesOfOutputs(image);
    var discards, writes :=
      (if resume then Discards(root, image, DISCARDS) else []), ArtifactWrites(image, a, ctx, ARTIFACTS);
    if resume { DiscardsApply(root, image, DISCARDS, root); }
    ApplyConcat(root, discards, writes);
    var start := Apply(root, discards).0;
    assert Apply(root, discards).1;
    ArtifactWritesApply(start, image, a, ctx, ARTIFACTS);
  }

  /** Re-collecting an image on resume meets no create-only collision, whatever the root holds,
      and neither does a fresh collection where the image has no file yet; both leave the ten
      artifacts and the manifest that describes them. */
  lemma {:induction false} NoCreateOnlyCollision(root: Root, image: string, a: Attempt, ctx: Context, resume: bool,
                                                 sha: Digest)
    requires resume || Clear(root, image)
    ensures var (r, ok) := Apply(root, ImageOps(root, image, a, ctx, resume, sha));
            && ok
            && Collected(r, image, a, ctx, Whole(ManifestDoc(ManifestOf(image, a, ctx, sha))))
            && AgreeOutside(r, root, OwnNames(image))
  {
    hide Name, ArtifactDoc, ManifestOf, BeforeManifest;
    var before := BeforeManifest(root, image, a, ctx, resume);
    var last := [Write(Name(image, Evidence), ManifestDoc(ManifestOf(image, a, ctx, sha)))];
    ImageOpsSplit(root, image, a, ctx, resume, sha);
    BeforeManifestApplies(root, image, a, ctx, resume);
    BeforeManifestTouches(root, image, a, ctx, resume);
    ApplyConcat(root, before, last);
    var r := Apply(root, before).0;
    assert Apply(r, last) == (r[Name(image, Evidence) := Whole(last[0].doc)], true) by { assert last[1..] == []; }
    OutputOrders();
    NamesOfOutputs(image);
    assert Name(image, Evidence) in OwnNames(image);
    ApplyFrame(root, before, OwnNames(image));
  }

  // ---------- what is written, and in which order ----------

  const ENDINGS := [".cdx.json", ".spdx.json", ".syft.json", ".grype.json", ".grype-db.json", ".scan-evaluation.json",
                    ".licenses.json", ".double-build.json", ".healthcheck.json", ".provenance.json", ".evidence.json"]

  /** A collection writes eleven files. The scan and its verdict stand at fixed places, and the
      manifest, last, lists the ten files before it, each with the digest of what was written. */
  lemma {:induction false} WritesInOrder(image: string, a: Attempt, ctx: Context, sha: Digest)
    ensures var ops := Writes(image, a, ctx, sha);
            && |ops| == 11 && (forall i :: 0 <= i < 11 ==> ops[i].Write? && ops[i].name == image + ENDINGS[i])
            && ops[3].doc == ScanDoc(a.scan)
            && ops[5].doc == VerdictDoc(image, Passes(a.scan, image, a.today, ctx.policy))
            && ops[10].doc.ManifestDoc? && IsManifestOf(ops[10].doc.manifest, ops[..10], image, ctx, sha)
            && ops[10].doc.manifest.scanPolicy == Some(ScanClaim(image + ENDINGS[5], ops[5].doc.passed))
  {
    hide Passes, Name, ENDINGS, ManifestOf, IsManifestOf;
    var ops := Writes(image, a, ctx, sha);
    ArtifactWritesAt(image, a, ctx, ARTIFACTS);
    NamesAreThese(image);
    assert ARTIFACTS[3] == Grype && ARTIFACTS[5] == ScanVerdict;
    assert forall i :: 0 <= i < 10 ==> ops[i] == ArtifactWrites(image, a, ctx, ARTIFACTS)[i];
    assert ops[..10] == ArtifactWrites(image, a, ctx, ARTIFACTS);
    ManifestListsThem(image, a, ctx, sha);
  }

  lemma {:induction false} ManifestListsThem(image: string, a: Attempt, ctx: Context, sha: Digest)
    ensures var m := ManifestOf(image, a, ctx, sha);
            && IsManifestOf(m, ArtifactWrites(image, a, ctx, ARTIFACTS), image, ctx, sha)
            && m.scanPolicy == Some(ScanClaim(Name(image, ScanVerdict), Passes(a.scan, image, a.today, ctx.policy)))
  {
    hide Passes, Name, ArtifactDoc, ARTIFACTS;
    var m, written := ManifestOf(image, a, ctx, sha), ArtifactWrites(image, a, ctx, ARTIFACTS);
    ArtifactWritesAt(image, a, ctx, ARTIFACTS);
    NamesOfOutputs(image);
    assert forall i :: 0 <= i < |ARTIFACTS| ==> ARTIFACTS[i] in ARTIFACTS;
    forall name | name in m.artifacts ensures exists i :: 0 <= i < |written| && written[i].name == name {
      var o :| o in ARTIFACTS && Name(image, o) == name;
      var i :| 0 <= i < |ARTIFACTS| && ARTIFACTS[i] == o;
      assert written[i].name == name;
    }
  }

  ghost predicate IsManifestOf(m: Manifest, written: seq<Op>, image: string, ctx: Context, sha: Digest) {
    && m.image == image && m.receiptDigest == ctx.receiptDigest && m.databaseBuiltAt == ctx.databaseBuiltAt
    && (forall i :: 0 <= i < |written| ==> && written[i].Write? && written[i].name in m.artifacts
                                           && m.artifacts[written[i].name] == sha(Whole(written[i].doc)))
    && (forall name :: name in m.artifacts ==> exists i :: 0 <= i < |written| && written[i].name == name)
  }

  lemma {:induction false} ArtifactWritesAt(image: string, a: Attempt, ctx: Context, outputs: seq<Output>)
    ensures var ops := ArtifactWrites(image, a, ctx, outputs);
            && |ops| == |outputs|
            && forall i :: 0 <= i < |ops| ==>
                 ops[i] == Write(Name(image, outputs[i]), ArtifactDoc(image, a, ctx, outputs[i]))
  {
    hide Name, ArtifactDoc;
    if outputs != [] { ArtifactWritesAt(image, a, ctx, outputs[1..]); }
  }

  lemma NamesAreThese(image: string)
    ensures |ARTIFACTS| == 10 && |ENDINGS| == 11 && Name(image, Evidence) == image + ENDINGS[10]
    ensures forall i :: 0 <= i < 10 ==> Name(image, ARTIFACTS[i]) == image + ENDINGS[i]
  {
    hide Stem;
    forall i | 0 <= i < 11 ensures Name(image, if i < 10 then ARTIFACTS[i] else Evidence) == image + ENDINGS[i] {
      hide ENDINGS;
      EndingAt(i);
    }
  }

  lemma EndingAt(i: nat)
    requires i < 11
    ensures |ENDINGS| == 11 && "." + Stem(if i < 10 then ARTIFACTS[i] else Evidence) + ".json" == ENDINGS[i]
  {
    hide Stem, ENDINGS, ARTIFACTS;
    if i < 6 { EarlyEnding(i); } else { LateEnding(i); }
  }

  lemma EarlyEnding(i: nat)
    requires i < 6
    ensures |ENDINGS| == 11 && "." + Stem(ARTIFACTS[i]) + ".json" == ENDINGS[i]
  {
    match i
    case 0 => assert "." + "cdx" + ".json" == ".cdx.json";
    case 1 => assert "." + "spdx" + ".json" == ".spdx.json";
    case 2 => assert "." + "syft" + ".json" == ".syft.json";
    case 3 => assert "." + "grype" + ".json" == ".grype.json";
    case 4 => assert "." + "grype-db" + ".json" == ".grype-db.json";
    case 5 => assert "." + "scan-evaluation" + ".json" == ".scan-evaluation.json";
  }

  lemma LateEnding(i: nat)
    requires 6 <= i < 11
    ensures |ENDINGS| == 11 && "." + Stem(if i < 10 then ARTIFACTS[i] else Evidence) + ".json" == ENDINGS[i]
  {
    match i
    case 6 => assert "." + "licenses" + ".json" == ".licenses.json";
    case 7 => assert "." + "double-build" + ".json" == ".double-build.json";
    case 8 => assert "." + "healthcheck" + ".json" == ".healthcheck.json";
    case 9 => assert "." + "provenance" + ".json" == ".provenance.json";
    case 10 => assert "." + "evidence" + ".json" == ".evidence.json";
  }
}
