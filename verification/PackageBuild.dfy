/** Building the Podman package bundle and checking it at once
    (scripts/build_public_release_bundle.py). */
module PackageBuild {
  import opened Text
  import opened PackageLock
  import opened PackageArchive

  function DirectoryNamed(name: string): Member {
    Member(name, DirectoryMember, false, [])
  }

  function FileNamed(name: string, content: Bytes): Member {
    Member(name, FileMember, false, content)
  }

  function PackageMembers(files: seq<string>, payloads: map<string, Bytes>): (r: seq<Member>)
    requires forall i :: 0 <= i < |files| ==> files[i] in payloads
    ensures |r| == |files| && forall i :: 0 <= i < |r| ==> r[i] == FileNamed(PackagePath(files[i]), payloads[files[i]])
  {
    if files == [] then []
    else PackageMembers(files[..|files| - 1], payloads)
         + [FileNamed(PackagePath(files[|files| - 1]), payloads[files[|files| - 1]])]
  }

  /** Every package of the lock is there, with the locked size and digest. */
  ghost predicate PayloadsMatch(rs: seq<Record>, payloads: map<string, Bytes>, digest: Digest) {
    && payloads.Keys == Files(rs)
    && forall i :: 0 <= i < |rs| ==> PayloadMatches(rs[i], payloads, digest)
  }

  predicate PayloadMatches(r: Record, payloads: map<string, Bytes>, digest: Digest) {
    r.file in payloads && |payloads[r.file]| == r.size && digest(payloads[r.file]) == r.sha
  }

  /** The members in the order they are added. */
  function Built(rs: seq<Record>, manifest: Bytes, sums: Bytes, payloads: map<string, Bytes>): seq<Member>
    requires payloads.Keys == Files(rs)
  {
    [DirectoryNamed(TOP), DirectoryNamed(PACKAGES), FileNamed(SUMS, sums), FileNamed(MANIFEST, manifest)]
    + PackageMembers(Sorted(Files(rs)), payloads)
  }

  // ---------- the members are safe and distinct ----------

  lemma FileIsComponent(r: Record)
    requires IsRecord(r)
    ensures r.file != "" && r.file != "." && r.file != ".." && '/' !in r.file
  {
  }

  lemma PathComponents(file: string)
    requires file != "" && file != "." && file != ".." && '/' !in file
    ensures IsUnderTop(PackagePath(file)) && IsSafe(FileNamed(PackagePath(file), []))
  {
    hide Split;
    SplitAtFirst(TOP, "packages/" + file, '/');
    assert PackagePath(file) == TOP + ['/'] + ("packages/" + file);
    SplitAtFirst("packages", file, '/');
    assert "packages/" + file == "packages" + ['/'] + file;
    SplitWithout(file, '/');
    var parts := [TOP] + (["packages"] + [file]);
    assert Split(PackagePath(file), '/') == parts;
    ThreeComponents(parts);
  }

  lemma {:induction false} ThreeComponents(parts: seq<string>)
    requires |parts| == 3 && forall i :: 0 <= i < 3 ==> parts[i] != "" && parts[i] != "."
    ensures Components(parts) == parts
  {
    assert Components(parts[1..][1..][1..]) == [];
    assert Components(parts[1..][1..]) == [parts[2]];
    assert Components(parts[1..]) == [parts[1]] + [parts[2]];
  }

  lemma {:induction false} TwoComponents(parts: seq<string>)
    requires |parts| == 2 && forall i :: 0 <= i < 2 ==> parts[i] != "" && parts[i] != "."
    ensures Components(parts) == parts
  {
    assert Components(parts[1..][1..]) == [];
    assert Components(parts[1..]) == [parts[1]];
  }

  lemma FixedPath(last: string)
    requires last != "" && last != "." && last != ".." && '/' !in last
    ensures IsUnderTop(TOP + "/" + last)
  {
    hide Split;
    SplitAtFirst(TOP, last, '/');
    assert TOP + "/" + last == TOP + ['/'] + last;
    SplitWithout(last, '/');
    TwoComponents([TOP] + [last]);
  }

  lemma FixedMembersAreSafe(sums: Bytes, manifest: Bytes)
    ensures IsSafe(DirectoryNamed(TOP)) && IsSafe(DirectoryNamed(PACKAGES))
    ensures IsSafe(FileNamed(SUMS, sums)) && IsSafe(FileNamed(MANIFEST, manifest))
    ensures NameOf(DirectoryNamed(TOP)) == TOP && NameOf(DirectoryNamed(PACKAGES)) == PACKAGES
  {
    hide Split, IsUnderTop;
    FixedPath("packages");
    FixedPath("SHA256SUMS");
    FixedPath("manifest.json");
    assert PACKAGES == TOP + "/" + "packages" && SUMS == TOP + "/" + "SHA256SUMS";
    assert MANIFEST == TOP + "/" + "manifest.json";
    assert IsUnderTop(TOP) by { TopIsUnderTop(); }
  }

  lemma TopIsUnderTop()
    ensures IsUnderTop(TOP)
  {
    hide Split;
    SplitWithout(TOP, '/');
    assert [TOP][1..] == [];
    assert Components([TOP]) == [TOP];
  }

  lemma FixedNamesDiffer()
    ensures TOP != PACKAGES && TOP != SUMS && TOP != MANIFEST && PACKAGES != SUMS && PACKAGES != MANIFEST
    ensures SUMS != MANIFEST
  {
  }

  lemma PackagePathsDiffer(file: string, other: string)
    ensures PackagePath(file) != TOP && PackagePath(file) != PACKAGES && PackagePath(file) != SUMS
    ensures PackagePath(file) != MANIFEST
    ensures PackagePath(file) == PackagePath(other) ==> file == other
  {
    var p := PackagePath(file);
    assert p[22] == PACKAGES[22] == 'p' && SUMS[22] == 'S' && MANIFEST[22] == 'm';
    assert |TOP| == 21;
    assert p[|PACKAGES| + 1..] == file && PackagePath(other)[|PACKAGES| + 1..] == other;
  }

  // ---------- the self-check ----------

  lemma BuiltInventory(rs: seq<Record>, manifest: Bytes, sums: Bytes, payloads: map<string, Bytes>)
    requires payloads.Keys == Files(rs) && forall i :: 0 <= i < |rs| ==> IsRecord(rs[i])
    ensures var a := Built(rs, manifest, sums, payloads);
            && (InventoryHolds(a) <==> Total(a) <= MAX_BYTES)
            && |a| == 4 + |Files(rs)|
  {
    hide Built, Total, IsSafe, NameOf, IsRecord;
    var a := Built(rs, manifest, sums, payloads);
    BuiltSize(rs, manifest, sums, payloads);
    forall i | 0 <= i < |a| ensures IsSafe(a[i]) { BuiltIsSafe(rs, manifest, sums, payloads, i); }
    forall i, j | 0 <= i < j < |a| ensures NameOf(a[i]) != NameOf(a[j]) {
      BuiltNamesDiffer(rs, manifest, sums, payloads, i, j);
    }
  }

  lemma {:induction false} BuiltSize(rs: seq<Record>, manifest: Bytes, sums: Bytes, payloads: map<string, Bytes>)
    requires payloads.Keys == Files(rs)
    ensures |Built(rs, manifest, sums, payloads)| == 4 + |Files(rs)|
  {
    hide Sorted, TOP, PACKAGES, SUMS, MANIFEST, PackagePath;
  }

  /** A member of the built archive: one of the four fixed ones, or a package. */
  lemma {:induction false} BuiltMember(rs: seq<Record>, manifest: Bytes, sums: Bytes, payloads: map<string, Bytes>,
                                       i: nat)
    requires payloads.Keys == Files(rs) && i < |Built(rs, manifest, sums, payloads)|
    ensures var m, files := Built(rs, manifest, sums, payloads)[i], Sorted(Files(rs));
            if i == 0 then m == DirectoryNamed(TOP) else if i == 1 then m == DirectoryNamed(PACKAGES)
            else if i == 2 then m == FileNamed(SUMS, sums) else if i == 3 then m == FileNamed(MANIFEST, manifest)
            else i - 4 < |files| && m == FileNamed(PackagePath(files[i - 4]), payloads[files[i - 4]])
  {
    hide Sorted, TOP, PACKAGES, SUMS, MANIFEST, PackagePath;
  }

  lemma {:induction false} BuiltIsSafe(rs: seq<Record>, manifest: Bytes, sums: Bytes, payloads: map<string, Bytes>,
                                       i: nat)
    requires payloads.Keys == Files(rs) && i < |Built(rs, manifest, sums, payloads)|
    requires forall k :: 0 <= k < |rs| ==> IsRecord(rs[k])
    ensures IsSafe(Built(rs, manifest, sums, payloads)[i])
  {
    hide Built, Sorted, IsSafe, IsRecord, TOP, PACKAGES, SUMS, MANIFEST, PackagePath;
    BuiltMember(rs, manifest, sums, payloads, i);
    FixedMembersAreSafe(sums, manifest);
    var files := Sorted(Files(rs));
    if i >= 4 {
      assert files[i - 4] in files;
      PackageIsSafe(rs, files[i - 4], payloads[files[i - 4]]);
    }
  }

  lemma {:induction false} BuiltNamesDiffer(rs: seq<Record>, manifest: Bytes, sums: Bytes, payloads: map<string, Bytes>,
                                            i: nat, j: nat)
    requires payloads.Keys == Files(rs) && i < j < |Built(rs, manifest, sums, payloads)|
    ensures NameOf(Built(rs, manifest, sums, payloads)[i]) != NameOf(Built(rs, manifest, sums, payloads)[j])
  {
    hide Built, Sorted, IsSafe, TOP, PACKAGES, SUMS, MANIFEST, PackagePath, DropSlashes, Le;
    BuiltMember(rs, manifest, sums, payloads, i);
    BuiltMember(rs, manifest, sums, payloads, j);
    FixedMembersAreSafe(sums, manifest);
    FixedNamesDiffer();
    var files := Sorted(Files(rs));
    if j >= 4 {
      PackagePathsDiffer(files[j - 4], if i >= 4 then files[i - 4] else files[j - 4]);
      if i >= 4 { assert Lt(files[i - 4], files[j - 4]); }
    }
  }

  lemma PackageIsSafe(rs: seq<Record>, file: string, content: Bytes)
    requires file in Files(rs) && forall i :: 0 <= i < |rs| ==> IsRecord(rs[i])
    ensures IsSafe(FileNamed(PackagePath(file), content))
  {
    hide IsUnderTop, IsRecord;
    var r :| r in rs && r.file == file;
    FileIsComponent(r);
    PathComponents(file);
  }

  lemma BuiltNames(rs: seq<Record>, manifest: Bytes, sums: Bytes, payloads: map<string, Bytes>)
    requires payloads.Keys == Files(rs)
    ensures NamesOf(Built(rs, manifest, sums, payloads)) == ExpectedNames(rs)
  {
    hide Sorted, IsSafe, TOP, PACKAGES, SUMS, MANIFEST, PackagePath, NameOf, Built, PackageMembers;
    var a := Built(rs, manifest, sums, payloads);
    forall i | 0 <= i < |a| ensures NameOf(a[i]) in ExpectedNames(rs) {
      BuiltNameIsExpected(rs, manifest, sums, payloads, i);
    }
    forall name | name in ExpectedNames(rs) ensures name in NamesOf(a) {
      FixedNamesAreThere(rs, manifest, sums, payloads);
      if name in (set r | r in rs :: PackagePath(r.file)) {
        var r :| r in rs && PackagePath(r.file) == name;
        PackageIsHeld(rs, manifest, sums, payloads, r);
        NamesAreHeld(a, name, payloads[r.file]);
      }
    }
  }

  lemma FixedNamesAreThere(rs: seq<Record>, manifest: Bytes, sums: Bytes, payloads: map<string, Bytes>)
    requires payloads.Keys == Files(rs)
    ensures {TOP, SUMS, MANIFEST, PACKAGES} <= NamesOf(Built(rs, manifest, sums, payloads))
  {
    hide Sorted, IsSafe, TOP, PACKAGES, SUMS, MANIFEST, PackageMembers, DropSlashes;
    var a := Built(rs, manifest, sums, payloads);
    FixedMembersAreSafe(sums, manifest);
    assert a[0] == DirectoryNamed(TOP) && a[1] == DirectoryNamed(PACKAGES) && a[2] == FileNamed(SUMS, sums);
    assert a[3] == FileNamed(MANIFEST, manifest);
    assert a[0] in a && a[1] in a && a[2] in a && a[3] in a;
  }

  lemma BuiltNameIsExpected(rs: seq<Record>, manifest: Bytes, sums: Bytes, payloads: map<string, Bytes>, i: nat)
    requires payloads.Keys == Files(rs) && i < |Built(rs, manifest, sums, payloads)|
    ensures NameOf(Built(rs, manifest, sums, payloads)[i]) in ExpectedNames(rs)
  {
    hide Sorted, IsSafe, TOP, PACKAGES, SUMS, MANIFEST, PackagePath, DropSlashes;
    FixedMembersAreSafe(sums, manifest);
    var files := Sorted(Files(rs));
    if i >= 4 {
      assert Built(rs, manifest, sums, payloads)[i] == FileNamed(PackagePath(files[i - 4]), payloads[files[i - 4]]);
      assert files[i - 4] in Files(rs);
      var r :| r in rs && r.file == files[i - 4];
    }
  }

  lemma PackageIsHeld(rs: seq<Record>, manifest: Bytes, sums: Bytes, payloads: map<string, Bytes>, r: Record)
    requires payloads.Keys == Files(rs) && r in rs
    ensures r.file in payloads && Holds(Built(rs, manifest, sums, payloads), PackagePath(r.file), payloads[r.file])
  {
    hide Sorted, TOP, PACKAGES, SUMS, MANIFEST, PackagePath, DropSlashes;
    var files := Sorted(Files(rs));
    var a := Built(rs, manifest, sums, payloads);
    assert r.file in Files(rs) && r.file in files;
    var k :| 0 <= k < |files| && files[k] == r.file;
    assert a[k + 4] == FileNamed(PackagePath(r.file), payloads[r.file]);
  }

  lemma {:induction false} FewFiles(rs: seq<Record>)
    ensures |Files(rs)| <= |rs|
  {
    if rs != [] {
      var init, last := rs[..|rs| - 1], rs[|rs| - 1];
      FewFiles(init);
      assert Files(rs) == Files(init) + {last.file};
    } else {
      assert Files(rs) == {};
    }
  }

  /** The builder's check of what it has just built can fail on sizes alone: the archive, its
      expanded total, the manifest and the checksum inventory against their bounds. */
  lemma SelfCheckIsAboutSize(lock: Lock, payloads: map<string, Bytes>, tarSize: nat, format: Format, digest: Digest)
    requires IsValid(lock) && PayloadsMatch(lock.packages, payloads, digest) && IsAscii(SumsText(lock.packages))
    requires format.parse(format.canonical(lock)) == Some(lock)
    ensures var manifest, text := format.canonical(lock), SumsText(lock.packages);
            var a := Built(lock.packages, manifest, Ascii(text), payloads);
            Accepts(a, tarSize, manifest, lock, format, digest)
            <==> 1 <= tarSize <= MAX_BYTES && Total(a) <= MAX_BYTES && |manifest| <= MAX_TEXT && |text| <= MAX_TEXT
  {
    hide Built, InventoryHolds, InstallHolds, IsRecord, SumsText, Total, NamesOf, ExpectedNames, REQUIRED;
    var rs, manifest, text := lock.packages, format.canonical(lock), SumsText(lock.packages);
    var a := Built(rs, manifest, Ascii(text), payloads);
    BuiltInventory(rs, manifest, Ascii(text), payloads);
    BuiltNames(rs, manifest, Ascii(text), payloads);
    FewFiles(rs);
    TextsAreHeld(rs, manifest, Ascii(text), payloads);
    forall i | 0 <= i < |rs| ensures PackageHolds(a, rs[i], digest) {
      PackageIsHeld(rs, manifest, Ascii(text), payloads, rs[i]);
      assert PayloadMatches(rs[i], payloads, digest);
    }
  }

  lemma TextsAreHeld(rs: seq<Record>, manifest: Bytes, sums: Bytes, payloads: map<string, Bytes>)
    requires payloads.Keys == Files(rs)
    ensures Holds(Built(rs, manifest, sums, payloads), SUMS, sums)
    ensures Holds(Built(rs, manifest, sums, payloads), MANIFEST, manifest)
  {
    hide Sorted, TOP, PACKAGES, SUMS, MANIFEST, PackagePath;
    var a := Built(rs, manifest, sums, payloads);
    assert NameOf(a[2]) == SUMS && NameOf(a[3]) == MANIFEST;
  }

  // ---------- the builder ----------

  method CheckPayloads(rs: seq<Record>, payloads: map<string, Bytes>, described: Record -> bool,
                       digest: Digest) returns (ok: bool)
    requires payloads.Keys == Files(rs)
    ensures ok <==> forall i :: 0 <= i < |rs| ==> PayloadMatches(rs[i], payloads, digest) && described(rs[i])
  {
    for k := 0 to |rs|
      invariant forall i :: 0 <= i < k ==> PayloadMatches(rs[i], payloads, digest) && described(rs[i])
    {
      assert rs[k].file in Files(rs);
      var payload := payloads[rs[k].file];
      if |payload| != rs[k].size || digest(payload) != rs[k].sha || !described(rs[k]) { return false; }
    }
    return true;
  }

  method AddPackages(a: seq<Member>, files: seq<string>, payloads: map<string, Bytes>) returns (r: seq<Member>)
    requires forall i :: 0 <= i < |files| ==> files[i] in payloads
    ensures r == a + PackageMembers(files, payloads)
  {
    r := a;
    for k := 0 to |files|
      invariant r == a + PackageMembers(files[..k], payloads)
    {
      assert files[..k + 1][..k] == files[..k];
      r := r + [FileNamed(PackagePath(files[k]), payloads[files[k]])];
    }
    assert files[..|files|] == files;
  }

  /** The lock is valid and lists exactly the payloads, each as locked and as its metadata says. */
  ghost predicate IsReady(lock: Lock, payloads: map<string, Bytes>, described: Record -> bool, digest: Digest) {
    && IsValid(lock) && payloads.Keys == Files(lock.packages)
    && (forall i :: 0 <= i < |lock.packages| ==> PayloadMatches(lock.packages[i], payloads, digest))
    && (forall i :: 0 <= i < |lock.packages| ==> described(lock.packages[i]))
  }

  /** `build_podman_package_bundle`: the members of a bundle that passed its own check. `described`
      is the verdict on the Debian metadata. */
  method BuildBundle(lockBytes: Bytes, payloads: map<string, Bytes>, onlyFiles: bool, described: Record -> bool,
                     tarSize: seq<Member> -> nat, format: Format, digest: Digest) returns (r: Option<seq<Member>>)
    ensures r.Some? <==>
      && |lockBytes| <= 1024 * 1024 && format.parse(lockBytes).Some? && onlyFiles
      && IsReady(format.parse(lockBytes).value, payloads, described, digest)
      && SelfChecked(format.parse(lockBytes).value, payloads, tarSize, format, digest)
    ensures r.Some? ==>
      format.parse(lockBytes).Some? && IsBundle(r.value, format.parse(lockBytes).value, payloads, format)
  {
    hide IsValid, Sorted, SumsText, PayloadMatches, Accepts, TOP, PACKAGES, SUMS, MANIFEST, PackageMembers;
    if |lockBytes| > MAX_TEXT || format.parse(lockBytes).None? { return None; }
    var lock := format.parse(lockBytes).value;
    var records := PackageRecords(lock);
    if records.None? || !onlyFiles || payloads.Keys != Files(lock.packages) { return None; }
    var ok := CheckPayloads(lock.packages, payloads, described, digest);
    if !ok || !IsAscii(SumsText(lock.packages)) { return None; }
    var manifest, sums := format.canonical(lock), Ascii(SumsText(lock.packages));
    var fixed := [DirectoryNamed(TOP), DirectoryNamed(PACKAGES), FileNamed(SUMS, sums), FileNamed(MANIFEST, manifest)];
    var a := AddPackages(fixed, Sorted(Files(lock.packages)), payloads);
    assert a == Built(lock.packages, manifest, sums, payloads);
    var metadata := ValidateBundle(a, tarSize(a), format, digest);
    assert metadata.Some? <==> SelfChecked(lock, payloads, tarSize, format, digest);
    return if metadata.Some? then Some(a) else None;
  }

  ghost predicate IsBundle(a: seq<Member>, lock: Lock, payloads: map<string, Bytes>, format: Format) {
    && payloads.Keys == Files(lock.packages) && IsAscii(SumsText(lock.packages))
    && a == Built(lock.packages, format.canonical(lock), Ascii(SumsText(lock.packages)), payloads)
  }

  /** The archive that would be built is accepted, for whatever manifest it holds. */
  ghost predicate SelfChecked(lock: Lock, payloads: map<string, Bytes>, tarSize: seq<Member> -> nat, format: Format,
                              digest: Digest) {
    && payloads.Keys == Files(lock.packages) && IsAscii(SumsText(lock.packages))
    && var a := Built(lock.packages, format.canonical(lock), Ascii(SumsText(lock.packages)), payloads);
       exists manifest, other :: Accepts(a, tarSize(a), manifest, other, format, digest)
  }
}
