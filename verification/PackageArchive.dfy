/** The Podman package bundle (scripts/build_public_release_bundle.py): the validator of an
    archive, the builder, and what acceptance says about the contents. An archive is its list of
    members; the tar and JSON formats are parameters. */
module PackageArchive {
  import opened Text
  import opened PackageLock

  const TOP := "podman-package-bundle"
  const MANIFEST := "podman-package-bundle/manifest.json"
  const SUMS := "podman-package-bundle/SHA256SUMS"
  const PACKAGES := "podman-package-bundle/packages"
  const MAX_MEMBERS := 256
  const MAX_TEXT := 0x10_0000  // 1 MiB

  datatype Kind = DirectoryMember | FileMember | OtherMember

  datatype Member = Member(name: string, kind: Kind, sparse: bool, content: Bytes)

  type Digest = Bytes -> string

  /** Reading and canonically writing a lock. */
  datatype Format = Format(parse: Bytes -> Option<Lock>, canonical: Lock -> Bytes)

  // ---------- the inventory ----------

  function DropSlashes(s: string): string {
    if s == [] || s[|s| - 1] != '/' then s else DropSlashes(s[..|s| - 1])
  }

  function NameOf(m: Member): string {
    if m.kind.DirectoryMember? then DropSlashes(m.name) else m.name
  }

  /** The components of a path: empty ones and single dots vanish. */
  function Components(parts: seq<string>): seq<string> {
    if parts == [] then []
    else (if parts[0] == "" || parts[0] == "." then [] else [parts[0]]) + Components(parts[1..])
  }

  predicate IsUnderTop(name: string) {
    var parts := Components(Split(name, '/'));
    parts != [] && parts[0] == TOP && forall i :: 0 <= i < |parts| ==> parts[i] != ".."
  }

  predicate IsSafe(m: Member) {
    var name := NameOf(m);
    name != "" && name[0] != '/' && IsUnderTop(name) && !m.kind.OtherMember? && !m.sparse
  }

  function Total(a: seq<Member>): nat {
    if a == [] then 0 else Total(a[..|a| - 1]) + |a[|a| - 1].content|
  }

  ghost predicate InventoryHolds(a: seq<Member>) {
    && (forall i :: 0 <= i < |a| ==> IsSafe(a[i]))
    && (forall i, j :: 0 <= i < j < |a| ==> NameOf(a[i]) != NameOf(a[j]))
    && Total(a) <= MAX_BYTES
  }

  function NamesOf(a: seq<Member>): set<string> {
    set m | m in a :: NameOf(m)
  }

  ghost predicate IsNormalized(normalized: map<string, Member>, total: nat, a: seq<Member>) {
    && InventoryHolds(a) && normalized.Keys == NamesOf(a) && total == Total(a)
    && forall i :: 0 <= i < |a| ==> NameOf(a[i]) in normalized && normalized[NameOf(a[i])] == a[i]
  }

  lemma {:induction false} TotalOfMore(a: seq<Member>, m: Member)
    ensures Total(a + [m]) == Total(a) + |m.content|
  {
    assert (a + [m])[..|a|] == a;
  }

  lemma NormalizeNext(normalized: map<string, Member>, total: nat, a: seq<Member>, m: Member)
    requires IsNormalized(normalized, total, a)
    requires IsSafe(m) && NameOf(m) !in normalized && total + |m.content| <= MAX_BYTES
    ensures IsNormalized(normalized[NameOf(m) := m], total + |m.content|, a + [m])
  {
    hide IsSafe, NameOf, Total;
    var more := a + [m];
    TotalOfMore(a, m);
    assert forall i :: 0 <= i < |a| ==> more[i] == a[i] && NameOf(a[i]) in NamesOf(a);
    assert NamesOf(more) == NamesOf(a) + {NameOf(m)};
  }

  lemma NormalizeStops(normalized: map<string, Member>, total: nat, a: seq<Member>, m: Member)
    requires IsNormalized(normalized, total, a)
    requires !IsSafe(m) || NameOf(m) in normalized || total + |m.content| > MAX_BYTES
    ensures !InventoryHolds(a + [m])
  {
    hide IsSafe, NameOf, Total;
    var more := a + [m];
    TotalOfMore(a, m);
    assert more[|a|] == m;
    if NameOf(m) in normalized {
      var n :| n in a && NameOf(n) == NameOf(m);
      var i :| 0 <= i < |a| && a[i] == n;
      assert more[i] == n;
    }
  }

  lemma {:induction false} PrefixFails(a: seq<Member>, k: nat)
    requires k <= |a| && !InventoryHolds(a[..k])
    ensures !InventoryHolds(a)
  {
    hide IsSafe, NameOf;
    assert forall i :: 0 <= i < k ==> a[..k][i] == a[i];
    TotalGrows(a, k);
  }

  lemma {:induction false} TotalGrows(a: seq<Member>, k: nat)
    requires k <= |a|
    ensures Total(a[..k]) <= Total(a)
  {
    if k < |a| {
      var b := a[..|a| - 1];
      assert b[..k] == a[..k];
      TotalGrows(b, k);
    } else {
      assert a[..k] == a;
    }
  }

  /** The first loop of the validator: members by normalized name. */
  method Normalize(a: seq<Member>) returns (r: Option<map<string, Member>>)
    ensures r.Some? <==> InventoryHolds(a)
    ensures r.Some? ==> r.value.Keys == NamesOf(a)
    ensures r.Some? ==> forall i :: 0 <= i < |a| ==> NameOf(a[i]) in r.value && r.value[NameOf(a[i])] == a[i]
  {
    hide IsSafe, NameOf, InventoryHolds;
    var normalized: map<string, Member> := map[];
    var total: nat := 0;
    assert a[..0] == [];
    assert IsNormalized(normalized, total, []) by { NothingNormalized(); }
    for k := 0 to |a|
      invariant IsNormalized(normalized, total, a[..k])
    {
      assert a[..k + 1] == a[..k] + [a[k]];
      if !IsSafe(a[k]) || NameOf(a[k]) in normalized || total + |a[k].content| > MAX_BYTES {
        NormalizeStops(normalized, total, a[..k], a[k]);
        PrefixFails(a, k + 1);
        return None;
      }
      NormalizeNext(normalized, total, a[..k], a[k]);
      total := total + |a[k].content|;
      normalized := normalized[NameOf(a[k]) := a[k]];
    }
    assert a[..|a|] == a;
    return Some(normalized);
  }

  lemma NothingNormalized()
    ensures IsNormalized(map[], 0, [])
  {
  }

  // ---------- acceptance ----------

  function PackagePath(file: string): string {
    PACKAGES + "/" + file
  }

  /** The archive holds a file of this name with this content. */
  ghost predicate Holds(a: seq<Member>, name: string, content: Bytes) {
    exists i :: 0 <= i < |a| && NameOf(a[i]) == name && a[i].kind.FileMember? && a[i].content == content
  }

  function ExpectedNames(rs: seq<Record>): set<string> {
    {TOP, SUMS, MANIFEST, PACKAGES} + set r | r in rs :: PackagePath(r.file)
  }

  ghost predicate PackageHolds(a: seq<Member>, r: Record, digest: Digest) {
    exists payload :: Holds(a, PackagePath(r.file), payload) && |payload| == r.size && digest(payload) == r.sha
  }

  /** What the validator demands of an archive with a given lock. */
  ghost predicate MatchesLock(a: seq<Member>, lock: Lock, digest: Digest) {
    && (forall i :: 0 <= i < |lock.packages| ==> PackageHolds(a, lock.packages[i], digest))
    && IsAscii(SumsText(lock.packages)) && |SumsText(lock.packages)| <= MAX_TEXT
    && Holds(a, SUMS, Ascii(SumsText(lock.packages)))
    && NamesOf(a) == ExpectedNames(lock.packages)
  }

  ghost predicate Accepts(a: seq<Member>, tarSize: nat, manifest: Bytes, lock: Lock, format: Format, digest: Digest) {
    && 1 <= tarSize <= MAX_BYTES && 1 <= |a| <= MAX_MEMBERS && InventoryHolds(a)
    && Holds(a, MANIFEST, manifest) && |manifest| <= MAX_TEXT
    && format.parse(manifest) == Some(lock) && IsValid(lock) && format.canonical(lock) == manifest
    && MatchesLock(a, lock, digest)
  }

  lemma OneContent(a: seq<Member>, name: string, x: Bytes, y: Bytes)
    requires InventoryHolds(a) && Holds(a, name, x) && Holds(a, name, y)
    ensures x == y
  {
    hide IsSafe, NameOf;
  }

  /** The bounded read of one member. */
  function Content(normalized: map<string, Member>, name: string, maximum: nat): Option<Bytes> {
    if name in normalized && normalized[name].kind.FileMember? && |normalized[name].content| <= maximum
    then Some(normalized[name].content) else None
  }

  lemma ContentIsHeld(a: seq<Member>, normalized: map<string, Member>, name: string, maximum: nat, content: Bytes)
    requires InventoryHolds(a) && normalized.Keys == NamesOf(a)
    requires forall i :: 0 <= i < |a| ==> NameOf(a[i]) in normalized && normalized[NameOf(a[i])] == a[i]
    ensures Content(normalized, name, maximum) == Some(content) <==> Holds(a, name, content) && |content| <= maximum
  {
    hide IsSafe, NameOf;
    if name in normalized {
      var m :| m in a && NameOf(m) == name;
      var i :| 0 <= i < |a| && a[i] == m;
    }
  }

  /** The package loop: payloads against their records. */
  method CheckPackages(a: seq<Member>, normalized: map<string, Member>, rs: seq<Record>,
                       digest: Digest) returns (ok: bool)
    requires InventoryHolds(a) && normalized.Keys == NamesOf(a) && RecordsHold(rs)
    requires forall i :: 0 <= i < |a| ==> NameOf(a[i]) in normalized && normalized[NameOf(a[i])] == a[i]
    ensures ok <==> forall i :: 0 <= i < |rs| ==> PackageHolds(a, rs[i], digest)
  {
    hide InventoryHolds, IsSafe, NameOf, NamesOf, Holds, PackagePath;
    for k := 0 to |rs|
      invariant forall i :: 0 <= i < k ==> PackageHolds(a, rs[i], digest)
    {
      PackageByContent(a, normalized, rs[k], digest);
      var payload := Content(normalized, PackagePath(rs[k].file), MAX_BYTES);
      if payload.None? || |payload.value| != rs[k].size || digest(payload.value) != rs[k].sha { return false; }
    }
    return true;
  }

  lemma PackageByContent(a: seq<Member>, normalized: map<string, Member>, r: Record, digest: Digest)
    requires InventoryHolds(a) && normalized.Keys == NamesOf(a) && IsRecord(r)
    requires forall i :: 0 <= i < |a| ==> NameOf(a[i]) in normalized && normalized[NameOf(a[i])] == a[i]
    ensures var payload := Content(normalized, PackagePath(r.file), MAX_BYTES);
            PackageHolds(a, r, digest) <==> payload.Some? && |payload.value| == r.size && digest(payload.value) == r.sha
  {
    hide InventoryHolds, IsSafe, NameOf, NamesOf, Holds, PackagePath, Content;
    var payload := Content(normalized, PackagePath(r.file), MAX_BYTES);
    if payload.Some? { ContentIsHeld(a, normalized, PackagePath(r.file), MAX_BYTES, payload.value); }
    if PackageHolds(a, r, digest) {
      var content :| Holds(a, PackagePath(r.file), content) && |content| == r.size && digest(content) == r.sha;
      ContentIsHeld(a, normalized, PackagePath(r.file), MAX_BYTES, content);
    }
  }

  /** `_podman_package_bundle_metadata`: the manifest bytes of an accepted archive. */
  method ValidateBundle(a: seq<Member>, tarSize: nat, format: Format, digest: Digest) returns (r: Option<Bytes>)
    ensures r.Some? ==>
      format.parse(r.value).Some? && Accepts(a, tarSize, r.value, format.parse(r.value).value, format, digest)
    ensures r.None? ==> forall manifest, lock :: !Accepts(a, tarSize, manifest, lock, format, digest)
  {
    hide InventoryHolds, NamesOf, NameOf, IsValid, PackageHolds, SumsText, ExpectedNames, Content, Holds, MANIFEST,
         SUMS;
    if tarSize < 1 || tarSize > MAX_BYTES || |a| < 1 || |a| > MAX_MEMBERS { return None; }
    var normalized := Normalize(a);
    if normalized.None? { return None; }
    var manifest := Content(normalized.value, MANIFEST, MAX_TEXT);
    forall bytes ensures manifest == Some(bytes) <==> Holds(a, MANIFEST, bytes) && |bytes| <= MAX_TEXT {
      ContentIsHeld(a, normalized.value, MANIFEST, MAX_TEXT, bytes);
    }
    if manifest.None? { return None; }
    var lock := format.parse(manifest.value);
    if lock.None? { return None; }
    var records := PackageRecords(lock.value);
    if records.None? || format.canonical(lock.value) != manifest.value { return None; }
    var ok := MatchesRest(a, normalized.value, lock.value, digest);
    return if ok then manifest else None;
  }

  method MatchesRest(a: seq<Member>, normalized: map<string, Member>, lock: Lock, digest: Digest) returns (ok: bool)
    requires InventoryHolds(a) && normalized.Keys == NamesOf(a) && IsValid(lock)
    requires forall i :: 0 <= i < |a| ==> NameOf(a[i]) in normalized && normalized[NameOf(a[i])] == a[i]
    ensures ok <==> MatchesLock(a, lock, digest)
  {
    hide InventoryHolds, NamesOf, NameOf, PackageHolds, SumsText, ExpectedNames, Content, Holds, RecordsHold,
         InstallHolds;
    ok := CheckPackages(a, normalized, lock.packages, digest);
    if !ok { return; }
    var text := SumsText(lock.packages);
    if !IsAscii(text) { return false; }
    ContentIsHeld(a, normalized, SUMS, MAX_TEXT, Ascii(text));
    if Content(normalized, SUMS, MAX_TEXT) != Some(Ascii(text)) { return false; }
    ok := normalized.Keys == ExpectedNames(lock.packages);
  }

  // ---------- what acceptance pins ----------

  /** No two of the payloads in two archives collide. */
  ghost predicate NoCollision(a: seq<Member>, b: seq<Member>, digest: Digest) {
    forall i, j :: 0 <= i < |a| && 0 <= j < |b| ==>
      digest(a[i].content) == digest(b[j].content) ==> a[i].content == b[j].content
  }

  /** Two accepted archives with the same manifest bytes have the same member names and, for every
      name but the two directories', the same contents. */
  lemma ManifestPinsContents(a: seq<Member>, b: seq<Member>, m: nat, n: nat, manifest: Bytes, lock: Lock, other: Lock,
                             format: Format, digest: Digest, name: string, x: Bytes, y: Bytes)
    requires Accepts(a, m, manifest, lock, format, digest) && Accepts(b, n, manifest, other, format, digest)
    requires NoCollision(a, b, digest)
    ensures NamesOf(a) == NamesOf(b)
    ensures name != TOP && name != PACKAGES && Holds(a, name, x) && Holds(b, name, y) ==> x == y
    ensures name in NamesOf(a) && name != TOP && name != PACKAGES ==> exists content :: Holds(a, name, content)
  {
    hide IsSafe, NameOf, InventoryHolds, Holds, IsValid, SumsText, PackagePath, TOP, MANIFEST, SUMS, PACKAGES,
         NoCollision;
    assert lock == other;
    if name in NamesOf(a) && name != TOP && name != PACKAGES {
      if name == MANIFEST {
        if Holds(a, name, x) { OneContent(a, name, x, manifest); }
        if Holds(b, name, y) { OneContent(b, name, y, manifest); }
      } else if name == SUMS {
        var sums := Ascii(SumsText(lock.packages));
        assert Holds(a, name, sums) && Holds(b, name, sums);
        if Holds(a, name, x) { OneContent(a, name, x, sums); }
        if Holds(b, name, y) { OneContent(b, name, y, sums); }
      } else {
        var r :| r in lock.packages && PackagePath(r.file) == name;
        var i :| 0 <= i < |lock.packages| && lock.packages[i] == r;
        assert PackageHolds(a, lock.packages[i], digest) && PackageHolds(b, lock.packages[i], digest);
        PackagePinned(a, b, r, digest, x, y);
      }
    }
    NamesAreHeld(a, name, x);
  }

  lemma NamesAreHeld(a: seq<Member>, name: string, x: Bytes)
    ensures Holds(a, name, x) ==> name in NamesOf(a)
  {
    hide NameOf;
  }

  lemma PackagePinned(a: seq<Member>, b: seq<Member>, r: Record, digest: Digest, x: Bytes, y: Bytes)
    requires InventoryHolds(a) && InventoryHolds(b) && NoCollision(a, b, digest)
    requires PackageHolds(a, r, digest) && PackageHolds(b, r, digest)
    ensures Holds(a, PackagePath(r.file), x) && Holds(b, PackagePath(r.file), y) ==> x == y
    ensures exists content :: Holds(a, PackagePath(r.file), content)
  {
    hide IsSafe, NameOf, InventoryHolds, PackagePath;
    var p :| Holds(a, PackagePath(r.file), p) && |p| == r.size && digest(p) == r.sha;
    var q :| Holds(b, PackagePath(r.file), q) && |q| == r.size && digest(q) == r.sha;
    assert p == q;
    if Holds(a, PackagePath(r.file), x) && Holds(b, PackagePath(r.file), y) {
      OneContent(a, PackagePath(r.file), x, p);
      OneContent(b, PackagePath(r.file), y, q);
    }
  }
}
