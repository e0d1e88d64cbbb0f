/** The evidence output root of the collector (scripts/collect_release_evidence.py): file
    names, documents, the operations one image costs, and the resume checkpoint. */
module EvidenceStore {
  import opened Text
  import opened ScanSuppression
  import opened ScanEvaluation

  // ---------- file names ----------

  /** The outputs of one image. */
  datatype Output = Cdx | Spdx | Syft | Grype | GrypeDb | ScanVerdict | Licenses | DoubleBuild | Healthcheck
                  | Provenance | Evidence

  function Stem(o: Output): (stem: string)
    ensures '.' !in stem
  {
    match o
    case Cdx => "cdx" case Spdx => "spdx" case Syft => "syft" case Grype => "grype" case GrypeDb => "grype-db"
    case ScanVerdict => "scan-evaluation" case Licenses => "licenses" case DoubleBuild => "double-build"
    case Healthcheck => "healthcheck" case Provenance => "provenance" case Evidence => "evidence"
  }

  /** The ten artifacts in the order they are written; the manifest follows them. */
  const ARTIFACTS: seq<Output> :=
    [Cdx, Spdx, Syft, Grype, GrypeDb, ScanVerdict, Licenses, DoubleBuild, Healthcheck, Provenance]

  /** Every output in the order partial outputs are discarded. */
  const DISCARDS: seq<Output> :=
    [Cdx, Spdx, Syft, Grype, ScanVerdict, Licenses, DoubleBuild, Healthcheck, GrypeDb, Provenance, Evidence]

  function Name(image: string, o: Output): string {
    image + "." + Stem(o) + ".json"
  }

  function OwnNames(image: string): set<string> {
    set o: Output | true :: Name(image, o)
  }

  lemma StemsDiffer(x: Output, y: Output)
    requires Stem(x) == Stem(y)
    ensures x == y
  {
  }

  lemma LastDotIsUnique(a: string, x: string, b: string, y: string)
    requires '.' !in x && '.' !in y && a + "." + x == b + "." + y
    ensures a == b && x == y
  {
    var s, t := a + "." + x, b + "." + y;
    assert s[|a|] == '.' && t[|b|] == '.';
    NoLaterDot(a, x);
    NoLaterDot(b, y);
    assert |a| == |b|;
    assert a == s[..|a|] && b == t[..|a|] && x == s[|a| + 1..] && y == t[|a| + 1..];
  }

  lemma {:induction false} NoLaterDot(a: string, x: string)
    requires '.' !in x
    ensures var s := a + "." + x; forall k :: |a| < k < |s| ==> s[k] != '.'
  {
    var s := a + "." + x;
    forall k | |a| < k < |s| ensures s[k] != '.' { assert s[k] == x[k - |a| - 1]; }
  }

  /** (image, output) -> file name is injective, for every image name whatsoever. */
  lemma NamesAreInjective(a: string, x: Output, b: string, y: Output)
    requires Name(a, x) == Name(b, y)
    ensures a == b && x == y
  {
    var s, t := a + "." + Stem(x), b + "." + Stem(y);
    assert Name(a, x) == s + ".json" && Name(b, y) == t + ".json";
    assert s == Name(a, x)[..|Name(a, x)| - 5] && t == Name(b, y)[..|Name(b, y)| - 5];
    LastDotIsUnique(a, Stem(x), b, Stem(y));
    StemsDiffer(x, y);
  }

  /** Two images never share an output name, so discarding one image's partial outputs never
      touches another image. */
  lemma ImagesAreDisjoint(a: string, b: string)
    requires a != b
    ensures OwnNames(a) !! OwnNames(b)
  {
    hide Name;
    forall name | name in OwnNames(a) && name in OwnNames(b) ensures false {
      var x: Output :| Name(a, x) == name;
      var y: Output :| Name(b, y) == name;
      NamesAreInjective(a, x, b, y);
    }
  }

  // ---------- documents ----------

  datatype ScanClaim = ScanClaim(evaluationArtifact: string, passed: bool)

  /** The evidence manifest of one image. */
  datatype Manifest = Manifest(image: string, receiptDigest: string, databaseBuiltAt: string,
                               artifacts: map<string, string>, scanPolicy: Option<ScanClaim>)

  datatype Document = ManifestDoc(manifest: Manifest) | VerdictDoc(image: string, passed: bool)
                    | ScanDoc(scan: Scan) | OtherDoc(text: string)

  /** The bytes of a file: a complete document, or the prefix an interrupted write left. Such
      a prefix still parses only when nothing but the final line feed is missing. */
  datatype File = Whole(doc: Document) | Torn(doc: Document, parses: bool)

  function Load(f: File): Option<Document> {
    if f.Whole? || f.parses then Some(f.doc) else None
  }

  /** How `evaluate_scan` reads a document: any other object holds no findings. */
  function AsScan(d: Document): Scan {
    if d.ScanDoc? then d.scan else Scan([], Suppressed([], [], None))
  }

  type Root = map<string, File>

  type Digest = File -> string

  /** The release-wide context of a run. */
  datatype Context = Context(receiptDigest: string, databaseBuiltAt: string, policy: Policy, available: set<string>)

  // ---------- the resume checkpoint ----------

  predicate ArtifactsMatch(root: Root, artifacts: map<string, string>, sha: Digest) {
    forall name :: name in artifacts ==> name in root && sha(root[name]) == artifacts[name]
  }

  /** What `_verified_checkpoint` requires of the manifest it finds. */
  predicate CheckpointHolds(root: Root, m: Manifest, image: string, ctx: Context, today: string, sha: Digest) {
    var verdict, scan := Name(image, ScanVerdict), Name(image, Grype);
    && m.image == image && m.receiptDigest == ctx.receiptDigest && m.databaseBuiltAt == ctx.databaseBuiltAt
    && m.artifacts != map[] && ArtifactsMatch(root, m.artifacts, sha)
    && m.scanPolicy.Some? && verdict in m.artifacts && m.scanPolicy.value.evaluationArtifact == verdict
    && Load(root[verdict]) == Some(VerdictDoc(image, true)) && m.scanPolicy.value.passed
    && scan in m.artifacts && Load(root[scan]).Some? && Passes(AsScan(Load(root[scan]).value), image, today, ctx.policy)
  }

  /** The manifest to resume from, or nothing: the run is refused. */
  function Checkpoint(root: Root, image: string, ctx: Context, today: string, sha: Digest): Option<Manifest>
    requires Name(image, Evidence) in root
  {
    var doc := Load(root[Name(image, Evidence)]);
    if doc.Some? && doc.value.ManifestDoc? && CheckpointHolds(root, doc.value.manifest, image, ctx, today, sha)
    then Some(doc.value.manifest) else None
  }

  // ---------- what collecting one image does ----------

  /** What one collection observes: the scan, the day it is judged on, and the other outputs. */
  datatype Attempt = Attempt(scan: Scan, today: string, texts: map<Output, string>)

  function ArtifactDoc(image: string, a: Attempt, ctx: Context, o: Output): Document {
    if o.Grype? then ScanDoc(a.scan)
    else if o.ScanVerdict? then VerdictDoc(image, Passes(a.scan, image, a.today, ctx.policy))
    else OtherDoc(if o in a.texts then a.texts[o] else "")
  }

  function ManifestOf(image: string, a: Attempt, ctx: Context, sha: Digest): Manifest {
    NamesOfOutputs(image);
    Manifest(image, ctx.receiptDigest, ctx.databaseBuiltAt,
             map o | o in ARTIFACTS :: Name(image, o) := sha(Whole(ArtifactDoc(image, a, ctx, o))),
             Some(ScanClaim(Name(image, ScanVerdict), Passes(a.scan, image, a.today, ctx.policy))))
  }

  lemma NamesOfOutputs(image: string)
    ensures forall x: Output, y: Output :: Name(image, x) == Name(image, y) ==> x == y
  {
    hide Name;
    forall x: Output, y: Output | Name(image, x) == Name(image, y) ensures x == y {
      NamesAreInjective(image, x, image, y);
    }
  }

  datatype Op = Remove(name: string) | Write(name: string, doc: Document)

  function Discards(root: Root, image: string, outputs: seq<Output>): seq<Op> {
    if outputs == [] then []
    else (if Name(image, outputs[0]) in root then [Remove(Name(image, outputs[0]))] else [])
         + Discards(root, image, outputs[1..])
  }

  function ArtifactWrites(image: string, a: Attempt, ctx: Context, outputs: seq<Output>): seq<Op> {
    if outputs == [] then []
    else [Write(Name(image, outputs[0]), ArtifactDoc(image, a, ctx, outputs[0]))]
         + ArtifactWrites(image, a, ctx, outputs[1..])
  }

  function Writes(image: string, a: Attempt, ctx: Context, sha: Digest): seq<Op> {
    ArtifactWrites(image, a, ctx, ARTIFACTS)
    + [Write(Name(image, Evidence), ManifestDoc(ManifestOf(image, a, ctx, sha)))]
  }

  function ImageOps(root: Root, image: string, a: Attempt, ctx: Context, resume: bool, sha: Digest): seq<Op> {
    (if resume then Discards(root, image, DISCARDS) else []) + Writes(image, a, ctx, sha)
  }

  /** Performs operations one by one; a write onto an existing name is refused and stops. */
  function Apply(root: Root, ops: seq<Op>): (Root, bool)
    decreases |ops|
  {
    if ops == [] then (root, true)
    else match ops[0]
      case Remove(name) => Apply(root - {name}, ops[1..])
      case Write(name, doc) => if name in root then (root, false) else Apply(root[name := Whole(doc)], ops[1..])
  }
}
