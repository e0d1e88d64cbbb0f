/** The manifest of a release tree: building it and validating a tree against it
    (scripts/build_public_release_bundle.py). */
module ReleaseTree {
  import opened Text

  type Bytes = seq<bv8>
  type Digest = Bytes -> string

  /** What a path of the tree is; directories and special files are neither files nor links. */
  datatype Entry = Regular(content: Bytes, mode: nat) | SymbolicLink | Other

  type Tree = map<string, Entry>

  const EXCLUDED := ["bundle-receipt.json", "provenance/candidate-provenance.yaml", "release-tree-manifest.json"]

  predicate IsSupported(mode: nat) {
    mode == 0x1a4 || mode == 0x1ed  // 0644 and 0755
  }

  datatype Item = Item(path: string, sha: string, size: nat, mode: nat)

  /** A file entry of a manifest as it is read: any of its fields may be missing or mistyped. */
  datatype RawItem = Malformed | RawItem(path: Option<string>, sha: Option<string>, size: Option<int>,
                                         mode: Option<nat>)

  /** A manifest as it is read. */
  datatype Document = Unreadable | Document(format: string, excluded: seq<string>, files: Option<seq<RawItem>>)

  const FORMAT := "stateport.release-tree-manifest/v1"

  predicate IsListed(t: Tree, path: string) {
    path in t && t[path].Regular? && path !in EXCLUDED
  }

  function ItemOf(t: Tree, path: string, digest: Digest): Item
    requires path in t && t[path].Regular?
  {
    Item(path, digest(t[path].content), |t[path].content|, t[path].mode)
  }

  // ---------- building ----------

  ghost predicate IsManifest(items: seq<Item>, t: Tree, digest: Digest) {
    && (forall i :: 0 <= i < |items| ==> IsListed(t, items[i].path) && items[i] == ItemOf(t, items[i].path, digest))
    && (forall i, j :: 0 <= i < j < |items| ==> Lt(items[i].path, items[j].path))
    && (forall path :: IsListed(t, path) ==> exists i :: 0 <= i < |items| && items[i].path == path)
  }

  predicate Buildable(t: Tree) {
    forall path :: path in t && IsListed(t, path) ==> IsSupported(t[path].mode)
  }

  /** `_release_manifest`: the listed files in order of path; links are passed over, and so are
      the modes of excluded files. */
  method BuildManifest(t: Tree, digest: Digest) returns (r: Option<seq<Item>>)
    ensures r.Some? <==> Buildable(t)
    ensures r.Some? ==> IsManifest(r.value, t, digest)
  {
    hide Le, Sorted, EXCLUDED, IsSupported, IsPart;
    var paths := Sorted(t.Keys);
    var items: seq<Item> := [];
    assert IsPart(items, t, paths, 0, digest) by { EmptyPart(t, paths, digest); }
    for k := 0 to |paths|
      invariant IsPart(items, t, paths, k, digest)
      invariant forall n :: 0 <= n < k && IsListed(t, paths[n]) ==> IsSupported(t[paths[n]].mode)
    {
      var path := paths[k];
      assert path in t.Keys;
      NextPart(items, t, paths, k, digest);
      if t[path].Regular? && path !in EXCLUDED {
        if !IsSupported(t[path].mode) { return None; }
        items := items + [ItemOf(t, path, digest)];
      }
    }
    WholePart(items, t, paths, digest);
    forall path | path in t && IsListed(t, path) ensures IsSupported(t[path].mode) {
      assert path in paths;
      var n :| 0 <= n < |paths| && paths[n] == path;
    }
    return Some(items);
  }

  /** The items of the first paths. */
  ghost predicate IsPart(items: seq<Item>, t: Tree, paths: seq<string>, k: nat, digest: Digest)
    requires k <= |paths|
  {
    && (forall i :: 0 <= i < |items| ==> IsListed(t, items[i].path) && items[i] == ItemOf(t, items[i].path, digest))
    && (forall i :: 0 <= i < |items| ==> items[i].path in paths[..k])
    && (forall i, j :: 0 <= i < j < |items| ==> Lt(items[i].path, items[j].path))
    && (forall n :: 0 <= n < k && IsListed(t, paths[n]) ==> exists i :: 0 <= i < |items| && items[i].path == paths[n])
  }

  lemma EmptyPart(t: Tree, paths: seq<string>, digest: Digest)
    ensures IsPart([], t, paths, 0, digest)
  {
  }

  lemma NextPart(items: seq<Item>, t: Tree, paths: seq<string>, k: nat, digest: Digest)
    requires k < |paths| && IsPart(items, t, paths, k, digest) && Increasing(paths)
    ensures !IsListed(t, paths[k]) ==> IsPart(items, t, paths, k + 1, digest)
    ensures IsListed(t, paths[k]) ==> IsPart(items + [ItemOf(t, paths[k], digest)], t, paths, k + 1, digest)
  {
    hide Le, EXCLUDED;
    var path := paths[k];
    assert paths[..k + 1] == paths[..k] + [path];
    if IsListed(t, path) {
      var more := items + [ItemOf(t, path, digest)];
      forall i | 0 <= i < |items| ensures Lt(items[i].path, path) {
        var n :| 0 <= n < k && paths[n] == items[i].path;
      }
      forall n | 0 <= n < k + 1 && IsListed(t, paths[n])
        ensures exists i :: 0 <= i < |more| && more[i].path == paths[n]
      {
        if n < k {
          var i :| 0 <= i < |items| && items[i].path == paths[n];
          assert more[i].path == paths[n];
        } else {
          assert more[|items|].path == paths[n];
        }
      }
    }
  }

  lemma WholePart(items: seq<Item>, t: Tree, paths: seq<string>, digest: Digest)
    requires IsPart(items, t, paths, |paths|, digest) && forall path :: path in paths <==> path in t
    ensures IsManifest(items, t, digest)
  {
  }

  // ---------- validating ----------

  predicate NoLinks(t: Tree) {
    forall path :: path in t ==> !t[path].SymbolicLink?
  }

  predicate SupportedModes(t: Tree) {
    forall path :: path in t && t[path].Regular? ==> IsSupported(t[path].mode)
  }

  predicate Matches(raw: RawItem, t: Tree, digest: Digest) {
    && raw.RawItem? && raw.path.Some? && IsListed(t, raw.path.value)
    && raw.sha == Some(digest(t[raw.path.value].content)) && raw.size == Some(|t[raw.path.value].content|)
    && raw.mode == Some(t[raw.path.value].mode)
  }

  /** What a valid tree is, for a document. */
  ghost predicate IsValid(t: Tree, doc: Document, digest: Digest) {
    && doc.Document? && doc.format == FORMAT && doc.excluded == EXCLUDED && doc.files.Some?
    && NoLinks(t) && SupportedModes(t)
    && IsCovered(t, doc.files.value, digest)
  }

  datatype Artifact = Artifact(sha: string, size: nat, mode: nat)

  /** The tree as the validator records it, in whatever order the paths come. */
  method Survey(t: Tree, paths: seq<string>, digest: Digest) returns (actual: Option<map<string, Artifact>>)
    requires forall path :: path in paths <==> path in t
    ensures actual.Some? <==> NoLinks(t) && SupportedModes(t)
    ensures actual.Some? ==> forall path :: path in actual.value <==> path in t && t[path].Regular?
    ensures actual.Some? ==> forall path :: path in actual.value ==>
      actual.value[path] == Artifact(digest(t[path].content), |t[path].content|, t[path].mode)
  {
    var seen: map<string, Artifact> := map[];
    for k := 0 to |paths|
      invariant forall path :: path in paths[..k] ==> !t[path].SymbolicLink?
      invariant forall path :: path in paths[..k] && t[path].Regular? ==> IsSupported(t[path].mode)
      invariant forall path :: path in seen <==> path in paths[..k] && t[path].Regular?
      invariant forall path :: path in seen ==>
        seen[path] == Artifact(digest(t[path].content), |t[path].content|, t[path].mode)
    {
      var path := paths[k];
      assert paths[..k + 1] == paths[..k] + [path];
      if t[path].SymbolicLink? { return None; }
      if t[path].Regular? {
        if !IsSupported(t[path].mode) { return None; }
        seen := seen[path := Artifact(digest(t[path].content), |t[path].content|, t[path].mode)];
      }
    }
    assert paths[..|paths|] == paths;
    return Some(seen);
  }

  /** `_validate_release_tree`. */
  method ValidateTree(t: Tree, paths: seq<string>, doc: Document, digest: Digest) returns (ok: bool)
    requires forall path :: path in paths <==> path in t
    ensures ok <==> IsValid(t, doc, digest)
  {
    hide NoLinks, SupportedModes, EXCLUDED, FORMAT;
    if doc.Unreadable? || doc.format != FORMAT || doc.excluded != EXCLUDED || doc.files.None? { return false; }
    var survey := Survey(t, paths, digest);
    if survey.None? { return false; }
    ok := Covers(t, survey.value, doc.files.value, digest);
  }

  /** The entries name the listed files, each once and as it is. */
  ghost predicate IsCovered(t: Tree, files: seq<RawItem>, digest: Digest) {
    && (forall i :: 0 <= i < |files| ==> Matches(files[i], t, digest))
    && (forall i, j :: 0 <= i < j < |files| ==> files[i].path != files[j].path)
    && (forall path :: IsListed(t, path) ==> exists i :: 0 <= i < |files| && files[i].path == Some(path))
  }

  method Covers(t: Tree, actual: map<string, Artifact>, files: seq<RawItem>, digest: Digest) returns (ok: bool)
    requires forall path :: path in actual <==> path in t && t[path].Regular?
    requires forall path :: path in actual ==>
      actual[path] == Artifact(digest(t[path].content), |t[path].content|, t[path].mode)
    ensures ok <==> IsCovered(t, files, digest)
  {
    hide EXCLUDED;
    var observed: set<string> := {};
    for k := 0 to |files|
      invariant forall i :: 0 <= i < k ==> Matches(files[i], t, digest)
      invariant forall i, j :: 0 <= i < j < k ==> files[i].path != files[j].path
      invariant forall path :: path in observed <==>
        exists i :: 0 <= i < k && files[i].RawItem? && files[i].path == Some(path)
    {
      var item := files[k];
      if item.Malformed? || item.path.None? { assert !Matches(files[k], t, digest); return false; }
      var path := item.path.value;
      if path in observed { return false; }
      if path in EXCLUDED || path !in actual { assert !Matches(files[k], t, digest); return false; }
      var found := actual[path];
      if item.sha != Some(found.sha) || item.size != Some(found.size) || item.mode != Some(found.mode) {
        assert !Matches(files[k], t, digest);
        return false;
      }
      observed := observed + {path};
    }
    var expected := set path | path in actual && path !in EXCLUDED;
    assert forall path :: path in expected <==> IsListed(t, path);
    ok := observed == expected;
  }

  // ---------- the manifest is exact ----------

  function RawOf(items: seq<Item>): (r: seq<RawItem>)
    ensures |r| == |items|
    ensures forall i :: 0 <= i < |r| ==>
      r[i] == RawItem(Some(items[i].path), Some(items[i].sha), Some(items[i].size), Some(items[i].mode))
  {
    if items == [] then []
    else [RawItem(Some(items[0].path), Some(items[0].sha), Some(items[0].size),
                  Some(items[0].mode))] + RawOf(items[1..])
  }

  function DocumentOf(items: seq<Item>): Document {
    Document(FORMAT, EXCLUDED, Some(RawOf(items)))
  }

  /** The two trees list the same files, with the same digest, size and mode. */
  ghost predicate Agree(t: Tree, u: Tree, digest: Digest) {
    && (forall path :: IsListed(t, path) <==> IsListed(u, path))
    && (forall path :: IsListed(t, path) && IsListed(u, path) ==> ItemOf(t, path, digest) == ItemOf(u, path, digest))
  }

  /** A tree validates against the manifest of another exactly when it has no links, only
      supported modes, and agrees with that tree outside the excluded paths. */
  lemma ManifestIsExact(items: seq<Item>, t: Tree, u: Tree, digest: Digest)
    requires IsManifest(items, t, digest)
    ensures IsValid(u, DocumentOf(items), digest) <==> NoLinks(u) && SupportedModes(u) && Agree(t, u, digest)
  {
    hide Le, NoLinks, SupportedModes, EXCLUDED, FORMAT;
    var raw := RawOf(items);
    if IsValid(u, DocumentOf(items), digest) {
      forall i | 0 <= i < |items| ensures IsListed(u, items[i].path) && items[i] == ItemOf(u, items[i].path, digest) {
        assert Matches(raw[i], u, digest);
      }
      forall path | IsListed(u, path) ensures exists i :: 0 <= i < |items| && items[i].path == path {
        var i :| 0 <= i < |raw| && raw[i].path == Some(path);
        assert items[i].path == path;
      }
      ListedInBoth(items, t, u, digest);
    }
    if NoLinks(u) && SupportedModes(u) && Agree(t, u, digest) {
      forall i | 0 <= i < |raw| ensures Matches(raw[i], u, digest) {
        assert IsListed(t, items[i].path);
        assert ItemOf(t, items[i].path, digest) == ItemOf(u, items[i].path, digest);
      }
      forall path | IsListed(u, path) ensures exists i :: 0 <= i < |raw| && raw[i].path == Some(path) {
        var i :| 0 <= i < |items| && items[i].path == path;
        assert raw[i].path == Some(path);
      }
    }
  }

  lemma ListedInBoth(items: seq<Item>, t: Tree, u: Tree, digest: Digest)
    requires IsManifest(items, t, digest)
    requires forall i :: 0 <= i < |items| ==> IsListed(u, items[i].path) && items[i] == ItemOf(u, items[i].path, digest)
    requires forall path :: IsListed(u, path) ==> exists i :: 0 <= i < |items| && items[i].path == path
    ensures Agree(t, u, digest)
  {
  }

  /** The same bytes, where the digest does not collide on the contents in play. */
  lemma AgreementIsEquality(t: Tree, u: Tree, digest: Digest)
    requires forall p, q :: p in t && q in u && t[p].Regular? && u[q].Regular? ==>
      digest(t[p].content) == digest(u[q].content) ==> t[p].content == u[q].content
    ensures Agree(t, u, digest) <==>
      && (forall path :: IsListed(t, path) <==> IsListed(u, path))
      && (forall path :: path in t && IsListed(t, path) && IsListed(u, path) ==> t[path] == u[path])
  {
  }

  /** Only excluded paths differ. */
  ghost predicate OnlyExcludedDiffer(t: Tree, u: Tree) {
    forall path :: path !in EXCLUDED ==> (path in t <==> path in u) && (path in t ==> t[path] == u[path])
  }

  /** Whatever is written to the excluded paths later, the manifest, the provenance and the
      receipt among it, the tree still validates exactly when it has no links and supported
      modes: the builder's check of its own manifest can fail for nothing else. */
  lemma StillValidAfterwards(items: seq<Item>, t: Tree, u: Tree, digest: Digest)
    requires IsManifest(items, t, digest) && OnlyExcludedDiffer(t, u)
    ensures IsValid(u, DocumentOf(items), digest) <==> NoLinks(u) && SupportedModes(u)
  {
    hide IsManifest, IsValid, NoLinks, SupportedModes, EXCLUDED;
    ManifestIsExact(items, t, u, digest);
    assert Agree(t, u, digest);
  }

  /** The modes the builder left unchecked are those of excluded files; with new files written
      0644 over them, a buildable tree without links stays valid. */
  lemma BuiltTreeValidates(items: seq<Item>, t: Tree, written: map<string, Bytes>, digest: Digest)
    requires IsManifest(items, t, digest) && Buildable(t) && NoLinks(t)
    requires forall path :: path in written ==> path in EXCLUDED
    requires forall path :: path in EXCLUDED && path in t && t[path].Regular? ==> path in written
    ensures var u := t + map path | path in written :: Regular(written[path], 0x1a4);
            IsValid(u, DocumentOf(items), digest)
  {
    hide IsManifest, IsValid, EXCLUDED;
    var u := t + map path | path in written :: Regular(written[path], 0x1a4);
    StillValidAfterwards(items, t, u, digest);
  }

  // ---------- the verdict spelled out ----------

  ghost predicate IsPublished(t: Tree, path: string) {
    && path in t && t[path].Regular? && path != "bundle-receipt.json" && path != "release-tree-manifest.json"
    && path != "provenance/candidate-provenance.yaml"
  }

  lemma ListedMeans(t: Tree)
    ensures forall path :: IsListed(t, path) <==> IsPublished(t, path)
  {
  }

  /** A tree and a document go together exactly when the document has the one format and the three
      exclusions, nothing in the tree is a link, every file is 0644 or 0755, and the entries are the
      published files, each once, with its digest, size and mode. */
  lemma VerdictIsExact(t: Tree, doc: Document, digest: Digest)
    ensures IsValid(t, doc, digest) <==>
      && doc.Document? && doc.format == "stateport.release-tree-manifest/v1" && doc.files.Some?
      && doc.excluded == ["bundle-receipt.json", "provenance/candidate-provenance.yaml", "release-tree-manifest.json"]
      && (forall path :: path in t ==> t[path] != SymbolicLink && (t[path].Regular? ==> t[path].mode in {420, 493}))
      && AreEntries(t, doc.files.value, digest)
  {
    hide IsListed, IsPublished, IsCovered, AreEntries, FORMAT, EXCLUDED;
    LiteralsAre();
    ModesMean(t);
    if doc.Document? && doc.files.Some? { CoveredMeans(t, doc.files.value, digest); }
  }

  lemma LiteralsAre()
    ensures FORMAT == "stateport.release-tree-manifest/v1"
    ensures EXCLUDED == ["bundle-receipt.json", "provenance/candidate-provenance.yaml", "release-tree-manifest.json"]
  {
  }

  lemma ModesMean(t: Tree)
    ensures NoLinks(t) && SupportedModes(t) <==>
      forall path :: path in t ==> t[path] != SymbolicLink && (t[path].Regular? ==> t[path].mode in {420, 493})
  {
    assert forall mode: nat :: IsSupported(mode) <==> mode in {420, 493};
  }

  lemma CoveredMeans(t: Tree, files: seq<RawItem>, digest: Digest)
    ensures IsCovered(t, files, digest) <==> AreEntries(t, files, digest)
  {
    hide IsListed, IsPublished;
    ListedMeans(t);
    forall i | 0 <= i < |files| ensures Matches(files[i], t, digest) <==> IsEntry(files[i], t, digest) {
      MatchesMeans(files[i], t, digest);
    }
    hide Matches, IsEntry;
  }

  lemma MatchesMeans(raw: RawItem, t: Tree, digest: Digest)
    ensures Matches(raw, t, digest) <==> IsEntry(raw, t, digest)
  {
    hide IsListed;
    ListedMeans(t);
    if Matches(raw, t, digest) {
      var path := raw.path.value;
      assert IsPublished(t, path) && raw == EntryOf(path, t[path].content, t[path].mode, digest);
    }
  }

  ghost predicate IsEntry(raw: RawItem, t: Tree, digest: Digest) {
    exists path :: IsPublished(t, path) && raw == EntryOf(path, t[path].content, t[path].mode, digest)
  }

  ghost predicate AreEntries(t: Tree, files: seq<RawItem>, digest: Digest) {
    && (forall i :: 0 <= i < |files| ==> IsEntry(files[i], t, digest))
    && (forall i, j :: 0 <= i < j < |files| ==> files[i].path != files[j].path)
    && (forall path :: IsPublished(t, path) ==> exists i :: 0 <= i < |files| && files[i].path == Some(path))
  }

  function EntryOf(path: string, content: Bytes, mode: nat, digest: Digest): RawItem {
    RawItem(Some(path), Some(digest(content)), Some(|content|), Some(mode))
  }

  /** A manifest can be built exactly when every published file is 0644 or 0755. */
  lemma BuildableMeans(t: Tree)
    ensures Buildable(t) <==> forall path :: path in t && IsPublished(t, path) ==> t[path].mode in {420, 493}
  {
    hide IsListed, IsPublished;
    ListedMeans(t);
  }
}
