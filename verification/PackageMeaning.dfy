/** The Podman package bundle (scripts/build_public_release_bundle.py) in terms of the texts
    alone: which locks and members are accepted, and what a built bundle is made of. */
module PackageMeaning {
  import opened Text
  import opened PackageLock
  import opened PackageArchive
  import opened PackageBuild

  // ---------- the lock ----------

  const FIRST := "abcdefghijklmnopqrstuvwxyz0123456789"
  const HEX := "0123456789abcdef"
  const ESSENTIAL := ["aardvark-dns", "catatonit", "conmon", "containers-storage", "dbus-user-session",
                      "fuse-overlayfs", "golang-github-containers-common", "golang-github-containers-image",
                      "libslirp0", "libsubid4", "netavark", "podman", "python3-venv", "runc", "skopeo", "slirp4netns",
                      "stateport-crun", "uidmap"]

  ghost predicate NamesPackage(s: string) {
    1 <= |s| <= 128 && s[0] in FIRST && forall i :: 0 <= i < |s| ==> s[i] in FIRST || s[i] in "+.-"
  }

  ghost predicate IsNamed(file: string, ending: string) {
    exists stem :: '/' !in stem && file == stem + ending
  }

  ghost predicate IsEntry(r: Record) {
    && NamesPackage(r.name) && |r.sha| == 64 && (forall i :: 0 <= i < |r.sha| ==> r.sha[i] in HEX)
    && 1 <= r.size <= 512 * 1024 * 1024
    && |r.version| > 0 && (forall i :: 0 <= i < |r.version| ==> !IsSpace(r.version[i]))
    && ( || (r.architecture == "all" && IsNamed(r.file, "_all.deb"))
         || (r.architecture == "amd64" && IsNamed(r.file, "_amd64.deb")))
  }

  lemma FirstMeans(c: char)
    ensures IsLowerOrDigit(c) <==> c in FIRST
  {
  }

  lemma HexMeans(c: char)
    ensures '0' <= c <= '9' || 'a' <= c <= 'f' <==> c in HEX
  {
  }

  lemma NameMeans(s: string)
    ensures IsPackageName(s) <==> NamesPackage(s)
  {
    hide IsLowerOrDigit, FIRST;
    forall i | 0 <= i < |s| ensures IsLowerOrDigit(s[i]) <==> s[i] in FIRST { FirstMeans(s[i]); }
  }

  lemma ShaMeans(s: string)
    ensures IsSha(s) <==> |s| == 64 && forall i :: 0 <= i < |s| ==> s[i] in HEX
  {
    hide HEX;
    forall i | 0 <= i < |s| ensures '0' <= s[i] <= '9' || 'a' <= s[i] <= 'f' <==> s[i] in HEX { HexMeans(s[i]); }
  }

  lemma FileMeans(file: string, architecture: string)
    requires '/' !in architecture
    ensures IsPackageFile(file, architecture) <==> IsNamed(file, "_" + architecture + ".deb")
  {
    var ending := "_" + architecture + ".deb";
    assert '/' !in ending;
    if EndsWith(file, ending) {
      var stem := file[..|file| - |ending|];
      assert file == stem + ending;
    }
  }

  lemma RecordMeans(r: Record)
    ensures IsRecord(r) <==> IsEntry(r)
  {
    hide IsPackageName, NamesPackage, IsSha, IsPackageFile, IsNamed, HEX;
    NameMeans(r.name);
    ShaMeans(r.sha);
    FileMeans(r.file, "all");
    FileMeans(r.file, "amd64");
    assert "_" + "all" + ".deb" == "_all.deb" && "_" + "amd64" + ".deb" == "_amd64.deb";
  }

  ghost predicate IsPackage(rs: seq<Record>, name: string) {
    exists i :: 0 <= i < |rs| && rs[i].name == name
  }

  lemma NamesMean(rs: seq<Record>)
    ensures forall name :: name in Names(rs) <==> IsPackage(rs, name)
    ensures |Names(rs)| <= |rs|
  {
    forall name ensures name in Names(rs) <==> IsPackage(rs, name) {
      if name in Names(rs) {
        var r :| r in rs && r.name == name;
        var i :| 0 <= i < |rs| && rs[i] == r;
      }
    }
    FewNames(rs);
  }

  lemma {:induction false} FewNames(rs: seq<Record>)
    ensures |Names(rs)| <= |rs|
  {
    if rs == [] {
      assert Names(rs) == {};
    } else {
      var init, last := rs[..|rs| - 1], rs[|rs| - 1];
      FewNames(init);
      assert Names(rs) == Names(init) + {last.name};
    }
  }

  lemma RequiredMeans(names: set<string>)
    ensures REQUIRED <= names <==> forall i :: 0 <= i < |ESSENTIAL| ==> ESSENTIAL[i] in names
  {
    hide REQUIRED, ESSENTIAL;
    RequiredIsEssential();
    EssentialIsRequired();
  }

  lemma RequiredIsEssential()
    ensures forall e :: e in REQUIRED ==> e in ESSENTIAL
  {
  }

  lemma EssentialIsRequired()
    ensures forall i :: 0 <= i < |ESSENTIAL| ==> ESSENTIAL[i] in REQUIRED
  {
  }

  /** A lock is accepted exactly when its entries are well formed and share no name and no file,
      when it holds the eighteen essential packages and at most 128 in all, and when the install
      block lists each of its packages, in order, with its version. */
  lemma LockIsExact(lock: Lock)
    ensures IsValid(lock) <==>
      && lock.sameShape && lock.epoch > 0 && |lock.packages| <= 128
      && (forall i :: 0 <= i < |lock.packages| ==> IsEntry(lock.packages[i]))
      && (forall i, j :: 0 <= i < j < |lock.packages| ==>
            lock.packages[i].name != lock.packages[j].name && lock.packages[i].file != lock.packages[j].file)
      && (forall i :: 0 <= i < |ESSENTIAL| ==> IsPackage(lock.packages, ESSENTIAL[i]))
      && Increasing(lock.installNames) && (forall name :: name in lock.installNames <==> IsPackage(lock.packages, name))
      && (forall name :: name in lock.installVersions <==> IsPackage(lock.packages, name))
      && (forall i :: 0 <= i < |lock.packages| ==>
            && lock.packages[i].name in lock.installVersions
            && lock.installVersions[lock.packages[i].name] == lock.packages[i].version)
  {
    hide IsRecord, IsEntry, REQUIRED, ESSENTIAL, Names, IsPackage, Sorted, Increasing;
    var rs := lock.packages;
    forall i | 0 <= i < |rs| ensures IsRecord(rs[i]) <==> IsEntry(rs[i]) { RecordMeans(rs[i]); }
    NamesMean(rs);
    RequiredMeans(Names(rs));
    SortedMeans(lock.installNames, Names(rs));
    if REQUIRED <= Names(rs) { FewerWithin(REQUIRED, Names(rs)); }
    assert lock.installVersions.Keys == Names(rs)
      <==> forall name :: name in lock.installVersions <==> name in Names(rs);
  }

  lemma {:induction false} FewerWithin(a: set<string>, b: set<string>)
    requires a <= b
    ensures |a| <= |b|
  {
    assert b == a + (b - a);
  }

  lemma {:induction false} SortedMeans(list: seq<string>, names: set<string>)
    ensures list == Sorted(names) <==> Increasing(list) && forall name :: name in list <==> name in names
  {
    hide Increasing;
    if Increasing(list) && forall name :: name in list <==> name in names {
      IncreasingUnique(list, Sorted(names));
    }
  }

  // ---------- the checksum inventory ----------

  ghost predicate IsSumLine(rs: seq<Record>, line: string) {
    exists i :: 0 <= i < |rs| && line == rs[i].sha + "  packages/" + rs[i].file
  }

  /** SHA256SUMS holds one line for each package, in order, each ended by a line feed; read back
      line by line it gives exactly those lines, unless a file name holds a line feed. */
  lemma SumsReadBack(rs: seq<Record>) returns (lines: seq<string>)
    ensures Increasing(lines) && (forall line :: line in lines <==> IsSumLine(rs, line))
    ensures SumsText(rs) == Join(lines, "\n") + "\n"
    ensures rs != [] && (forall i :: 0 <= i < |rs| ==> '\n' !in rs[i].sha && '\n' !in rs[i].file)
            ==> Split(SumsText(rs), '\n') == lines + [""]
  {
    hide Increasing, Join, Split, IsSumLine;
    lines := Sorted(Lines(rs));
    LinesMean(rs);
    if rs != [] && forall i :: 0 <= i < |rs| ==> '\n' !in rs[i].sha && '\n' !in rs[i].file {
      LinesHoldNoLineFeed(rs, lines);
      LinesReadBack(lines);
    }
  }

  lemma LinesHoldNoLineFeed(rs: seq<Record>, lines: seq<string>)
    requires rs != [] && forall i :: 0 <= i < |rs| ==> '\n' !in rs[i].sha && '\n' !in rs[i].file
    requires forall line :: line in lines <==> IsSumLine(rs, line)
    ensures lines != [] && forall k :: 0 <= k < |lines| ==> '\n' !in lines[k]
  {
    assert IsSumLine(rs, rs[0].sha + "  packages/" + rs[0].file);
    forall k | 0 <= k < |lines| ensures '\n' !in lines[k] {
      assert lines[k] in lines;
      var i :| 0 <= i < |rs| && lines[k] == rs[i].sha + "  packages/" + rs[i].file;
      assert '\n' !in "  packages/";
    }
  }

  lemma {:induction false} LinesReadBack(lines: seq<string>)
    requires lines != [] && forall k :: 0 <= k < |lines| ==> '\n' !in lines[k]
    ensures Split(Join(lines, "\n") + "\n", '\n') == lines + [""]
  {
    hide Join, Split;
    SplitOfJoin(lines, '\n');
    SplitConcat(Join(lines, "\n"), "", '\n');
    SplitWithout("", '\n');
    assert Join(lines, "\n") + ['\n'] + "" == Join(lines, "\n") + "\n";
  }

  lemma LinesMean(rs: seq<Record>)
    ensures forall line :: line in Lines(rs) <==> IsSumLine(rs, line)
  {
    forall line ensures line in Lines(rs) <==> IsSumLine(rs, line) {
      if line in Lines(rs) {
        var r :| r in rs && Line(r) == line;
        var i :| 0 <= i < |rs| && rs[i] == r;
      }
      if IsSumLine(rs, line) {
        var i :| 0 <= i < |rs| && line == rs[i].sha + "  packages/" + rs[i].file;
        assert rs[i] in rs && Line(rs[i]) == line;
      }
    }
  }

  /** The checksum inventory can be encoded exactly when every file name is seven-bit text. */
  lemma SumsAreEncodable(rs: seq<Record>)
    requires forall i :: 0 <= i < |rs| ==> IsEntry(rs[i])
    ensures IsAscii(SumsText(rs)) <==> forall i :: 0 <= i < |rs| ==> IsSevenBit(rs[i].file)
  {
    hide Increasing, IsEntry, SumsText, Join;
    var lines := SumsReadBack(rs);
    AsciiIsSevenBit(SumsText(rs));
    JoinIsSevenBit(lines);
    assert IsSevenBit(SumsText(rs)) <==> IsSevenBit(Join(lines, "\n")) by { SevenBitConcat(Join(lines, "\n"), "\n"); }
    forall i | 0 <= i < |rs|
      ensures var line := rs[i].sha + "  packages/" + rs[i].file;
              line in lines && (IsSevenBit(line) <==> IsSevenBit(rs[i].file))
    {
      assert IsSumLine(rs, rs[i].sha + "  packages/" + rs[i].file);
      ShaIsSevenBit(rs[i]);
      SevenBitConcat(rs[i].sha + "  packages/", rs[i].file);
    }
    forall k | 0 <= k < |lines|
      ensures exists i :: 0 <= i < |rs| && lines[k] == rs[i].sha + "  packages/" + rs[i].file
    {
      assert lines[k] in lines;
    }
  }

  predicate IsSevenBit(s: string) {
    forall c :: c in s ==> c <= '\U{007f}'
  }

  lemma AsciiIsSevenBit(s: string)
    ensures IsAscii(s) <==> IsSevenBit(s)
  {
    if IsSevenBit(s) { assert forall i :: 0 <= i < |s| ==> s[i] in s; }
  }

  lemma SevenBitConcat(a: string, b: string)
    ensures IsSevenBit(a + b) <==> IsSevenBit(a) && IsSevenBit(b)
  {
    assert forall c :: c in a + b <==> c in a || c in b;
  }

  lemma ShaIsSevenBit(r: Record)
    requires IsEntry(r)
    ensures IsSevenBit(r.sha + "  packages/")
  {
    hide IsNamed, NamesPackage;
    assert forall c :: c in HEX ==> c <= '\U{007f}';
    SevenBitConcat(r.sha, "  packages/");
  }

  lemma {:induction false} JoinIsSevenBit(lines: seq<string>)
    ensures IsSevenBit(Join(lines, "\n")) <==> forall k :: 0 <= k < |lines| ==> IsSevenBit(lines[k])
  {
    hide IsSevenBit;
    if |lines| > 1 {
      JoinIsSevenBit(lines[1..]);
      SevenBitConcat(lines[0] + "\n", Join(lines[1..], "\n"));
      SevenBitConcat(lines[0], "\n");
      assert IsSevenBit("\n") by { LineFeedIsSevenBit(); }
      assert forall k :: 1 <= k < |lines| ==> lines[k] == lines[1..][k - 1];
    } else if lines == [] {
      assert IsSevenBit("") by { LineFeedIsSevenBit(); }
    }
  }

  lemma LineFeedIsSevenBit()
    ensures IsSevenBit("\n") && IsSevenBit("")
  {
  }

  // ---------- the members of an archive ----------

  predicate OnlySlashes(s: string) {
    forall i :: 0 <= i < |s| ==> s[i] == '/'
  }

  /** Only slashes are dropped, and all of them. */
  lemma {:induction false} DropSlashesIsExact(s: string) returns (tail: string)
    ensures s == DropSlashes(s) + tail && OnlySlashes(tail) && !EndsWith(DropSlashes(s), "/")
  {
    tail := "";
    if s != [] && s[|s| - 1] == '/' {
      tail := DropSlashesIsExact(s[..|s| - 1]);
      tail := tail + "/";
    }
  }

  predicate LeadsAt(parts: seq<string>, k: nat)
    requires k < |parts|
  {
    parts[k] == "podman-package-bundle" && forall i :: 0 <= i < k ==> parts[i] == "" || parts[i] == "."
  }

  /** The part of a path that counts first is the bundle's directory, and no part climbs. */
  ghost predicate LiesInBundle(parts: seq<string>) {
    ".." !in parts && exists k :: 0 <= k < |parts| && LeadsAt(parts, k)
  }

  lemma {:induction false} ComponentsMean(parts: seq<string>)
    ensures ".." in Components(parts) <==> ".." in parts
    ensures Components(parts) != [] && Components(parts)[0] == TOP
       <==> exists k :: 0 <= k < |parts| && LeadsAt(parts, k)
  {
    if parts != [] {
      var first, rest := parts[0], parts[1..];
      assert parts == [first] + rest;
      ComponentsMean(rest);
      if first == "" || first == "." {
        forall k | 0 <= k < |rest| ensures LeadsAt(rest, k) <==> LeadsAt(parts, k + 1) {
          assert forall i :: 0 <= i < k ==> parts[i + 1] == rest[i];
        }
        assert forall k :: 0 <= k < |parts| && LeadsAt(parts, k) ==> k > 0 && LeadsAt(rest, k - 1);
      } else {
        assert LeadsAt(parts, 0) <==> first == TOP;
      }
    }
  }

  lemma {:induction false} UnderTopMeans(name: string)
    ensures IsUnderTop(name) <==> LiesInBundle(Split(name, '/'))
  {
    hide Components, TOP, LeadsAt;
    ComponentsMean(Split(name, '/'));
  }

  ghost predicate IsEntryName(m: Member, name: string, tail: string) {
    && m.name == name + tail && OnlySlashes(tail)
    && (if m.kind.DirectoryMember? then !EndsWith(name, "/") else tail == "")
  }

  lemma EntryName(m: Member, name: string, tail: string)
    requires IsEntryName(m, name, tail)
    ensures NameOf(m) == name
  {
    if m.kind.DirectoryMember? {
      var other := DropSlashesIsExact(m.name);
      OneTrim(name, tail, NameOf(m), other);
    }
  }

  lemma OneTrim(a: string, x: string, b: string, y: string)
    requires a + x == b + y && OnlySlashes(x) && OnlySlashes(y) && !EndsWith(a, "/") && !EndsWith(b, "/")
    ensures a == b
  {
    var s := a + x;
    assert forall i :: |a| <= i < |s| ==> s[i] == x[i - |a|];
    assert forall i :: |b| <= i < |s| ==> s[i] == y[i - |b|];
    assert a != [] ==> a[|a| - 1..] == [s[|a| - 1]];
    assert b != [] ==> b[|b| - 1..] == [s[|b| - 1]];
    assert |a| == |b|;
    assert a == s[..|a|] && b == s[..|b|];
  }

  /** A plain file or directory whose name, without the slashes that end a directory's, is
      relative and lies in the bundle. */
  ghost predicate IsPlain(m: Member) {
    && !m.kind.OtherMember? && !m.sparse
    && exists name, tail :: IsEntryName(m, name, tail) && name != "" && name[0] != '/'
                            && LiesInBundle(Split(name, '/'))
  }

  lemma SafeMeans(m: Member)
    ensures IsSafe(m) <==> IsPlain(m)
  {
    hide IsUnderTop, LiesInBundle, Split, DropSlashes;
    var name, tail := NameOf(m), "";
    if m.kind.DirectoryMember? { tail := DropSlashesIsExact(m.name); }
    assert IsEntryName(m, name, tail);
    UnderTopMeans(name);
    forall other, rest | IsEntryName(m, other, rest) ensures other == name { EntryName(m, other, rest); }
  }

  lemma {:induction false} TotalConcat(a: seq<Member>, b: seq<Member>)
    ensures Total(a + b) == Total(a) + Total(b)
  {
    if b == [] {
      assert a + b == a;
    } else {
      TotalConcat(a, b[..|b| - 1]);
      assert (a + b)[..|a + b| - 1] == a + b[..|b| - 1];
    }
  }

  lemma {:induction false} TotalOfOne(m: Member)
    ensures Total([m]) == |m.content|
  {
    TotalOfMore([], m);
    assert [] + [m] == [m];
  }

  ghost predicate HasFile(a: seq<Member>, path: string, content: Bytes) {
    exists m :: m in a && m.kind == FileMember && m.name == path && m.content == content
  }

  ghost predicate HasPackage(a: seq<Member>, r: Record, digest: Digest) {
    exists payload :: && HasFile(a, "podman-package-bundle/packages/" + r.file, payload)
                      && |payload| == r.size && digest(payload) == r.sha
  }

  /** Where a member may stand. */
  ghost predicate IsOwned(name: string, rs: seq<Record>) {
    || name == "podman-package-bundle" || name == "podman-package-bundle/packages"
    || name == "podman-package-bundle/SHA256SUMS" || name == "podman-package-bundle/manifest.json"
    || exists i :: 0 <= i < |rs| && name == "podman-package-bundle/packages/" + rs[i].file
  }

  ghost predicate OwnedNames(a: seq<Member>, rs: seq<Record>) {
    && (forall i :: 0 <= i < |a| ==> IsOwned(NameOf(a[i]), rs))
    && (exists i :: 0 <= i < |a| && NameOf(a[i]) == "podman-package-bundle")
    && (exists i :: 0 <= i < |a| && NameOf(a[i]) == "podman-package-bundle/packages")
  }

  lemma FileIsHeld(a: seq<Member>, path: string, content: Bytes)
    ensures HasFile(a, path, content) <==> Holds(a, path, content)
  {
    if Holds(a, path, content) {
      var i :| 0 <= i < |a| && NameOf(a[i]) == path && a[i].kind.FileMember? && a[i].content == content;
      assert a[i] in a;
    }
    if HasFile(a, path, content) {
      var m :| m in a && m.kind == FileMember && m.name == path && m.content == content;
      var i :| 0 <= i < |a| && a[i] == m;
    }
  }

  lemma PackagesAreHeld(a: seq<Member>, rs: seq<Record>, digest: Digest)
    ensures forall i :: 0 <= i < |rs| ==> (HasPackage(a, rs[i], digest) <==> PackageHolds(a, rs[i], digest))
  {
    hide HasFile, Holds, PackagePath;
    forall i | 0 <= i < |rs| ensures HasPackage(a, rs[i], digest) <==> PackageHolds(a, rs[i], digest) {
      PathOfPackage(rs[i].file);
      var path := PackagePath(rs[i].file);
      forall payload ensures HasFile(a, path, payload) <==> Holds(a, path, payload) { FileIsHeld(a, path, payload); }
    }
  }

  lemma OwnedMeans(name: string, rs: seq<Record>)
    ensures IsOwned(name, rs) <==> name in ExpectedNames(rs)
  {
    hide PackagePath, TOP, PACKAGES, SUMS, MANIFEST;
    Layout();
    forall i | 0 <= i < |rs|
      ensures PackagePath(rs[i].file) == "podman-package-bundle/packages/" + rs[i].file && rs[i] in rs
    {
      PathOfPackage(rs[i].file);
    }
  }

  lemma NamesMeanIndices(a: seq<Member>)
    ensures forall name :: name in NamesOf(a) <==> exists i :: 0 <= i < |a| && NameOf(a[i]) == name
  {
    hide NameOf;
    forall name | name in NamesOf(a) ensures exists i :: 0 <= i < |a| && NameOf(a[i]) == name {
      var m :| m in a && NameOf(m) == name;
      var i :| 0 <= i < |a| && a[i] == m;
    }
  }

  lemma HeldNames(a: seq<Member>, rs: seq<Record>, sums: Bytes, manifest: Bytes, digest: Digest)
    requires Holds(a, SUMS, sums) && Holds(a, MANIFEST, manifest)
    requires forall i :: 0 <= i < |rs| ==> PackageHolds(a, rs[i], digest)
    ensures ExpectedNames(rs) - {TOP, PACKAGES} <= NamesOf(a)
  {
    hide Holds, PackagePath, NamesOf, TOP, PACKAGES, SUMS, MANIFEST;
    NamesAreHeld(a, SUMS, sums);
    NamesAreHeld(a, MANIFEST, manifest);
    forall r | r in rs ensures PackagePath(r.file) in NamesOf(a) {
      var i :| 0 <= i < |rs| && rs[i] == r;
      var payload :| Holds(a, PackagePath(rs[i].file), payload);
      NamesAreHeld(a, PackagePath(r.file), payload);
    }
  }

  lemma NamesAreOwned(a: seq<Member>, rs: seq<Record>, sums: Bytes, manifest: Bytes, digest: Digest)
    requires Holds(a, SUMS, sums) && Holds(a, MANIFEST, manifest)
    requires forall i :: 0 <= i < |rs| ==> PackageHolds(a, rs[i], digest)
    ensures NamesOf(a) == ExpectedNames(rs) <==> OwnedNames(a, rs)
  {
    hide Holds, PackageHolds, ExpectedNames, NamesOf, NameOf, IsOwned, TOP, PACKAGES, SUMS, MANIFEST;
    Layout();
    forall name ensures IsOwned(name, rs) <==> name in ExpectedNames(rs) { OwnedMeans(name, rs); }
    NamesMeanIndices(a);
    HeldNames(a, rs, sums, manifest, digest);
    FixedAreOwned(rs);
    assert OwnedNames(a, rs) ==> forall name :: name in NamesOf(a) ==> IsOwned(name, rs);
  }

  lemma FixedAreOwned(rs: seq<Record>)
    ensures TOP in ExpectedNames(rs) && PACKAGES in ExpectedNames(rs)
  {
  }

  /** An archive is accepted exactly when its sizes are within bounds, its members plain and of
      different names, its manifest the canonical text of a valid lock, every package of the lock
      there with its size and digest, the checksum inventory exact, and nothing else there. */
  lemma {:induction false} AcceptanceIsExact(a: seq<Member>, tarSize: nat, manifest: Bytes, lock: Lock,
                                             format: Format, digest: Digest)
    ensures Accepts(a, tarSize, manifest, lock, format, digest) <==>
      && 1 <= tarSize <= 512 * 1024 * 1024 && Total(a) <= 512 * 1024 * 1024 && 1 <= |a| <= 256
      && (forall i :: 0 <= i < |a| ==> IsPlain(a[i]))
      && (forall i, j :: 0 <= i < j < |a| ==> NameOf(a[i]) != NameOf(a[j]))
      && HasFile(a, "podman-package-bundle/manifest.json", manifest) && |manifest| <= 1024 * 1024
      && format.parse(manifest) == Some(lock) && format.canonical(lock) == manifest && IsValid(lock)
      && (forall i :: 0 <= i < |lock.packages| ==> HasPackage(a, lock.packages[i], digest))
      && IsAscii(SumsText(lock.packages)) && |SumsText(lock.packages)| <= 1024 * 1024
      && HasFile(a, "podman-package-bundle/SHA256SUMS", Ascii(SumsText(lock.packages)))
      && OwnedNames(a, lock.packages)
  {
    hide IsSafe, IsPlain, NameOf, Total, HasFile, Holds, HasPackage, PackageHolds, IsValid, SumsText, OwnedNames,
         NamesOf, ExpectedNames, TOP, PACKAGES, SUMS, MANIFEST;
    var rs := lock.packages;
    Layout();
    forall i | 0 <= i < |a| ensures IsSafe(a[i]) <==> IsPlain(a[i]) { SafeMeans(a[i]); }
    PackagesAreHeld(a, rs, digest);
    FileIsHeld(a, MANIFEST, manifest);
    if IsAscii(SumsText(rs)) {
      var sums := Ascii(SumsText(rs));
      FileIsHeld(a, SUMS, sums);
      if Holds(a, SUMS, sums) && Holds(a, MANIFEST, manifest)
         && forall i :: 0 <= i < |rs| ==> PackageHolds(a, rs[i], digest) {
        NamesAreOwned(a, rs, sums, manifest, digest);
      }
    }
  }

  // ---------- a built bundle ----------

  /** Two directories, the checksums, the manifest, then the packages by file name. */
  lemma BuiltInOrder(rs: seq<Record>, manifest: Bytes, sums: Bytes, payloads: map<string, Bytes>)
      returns (files: seq<string>)
    requires payloads.Keys == Files(rs)
    ensures Increasing(files) && (forall file :: file in files <==> exists i :: 0 <= i < |rs| && rs[i].file == file)
    ensures forall i :: 0 <= i < |files| ==> files[i] in payloads
    ensures var a := Built(rs, manifest, sums, payloads);
            && |a| == 4 + |files|
            && a[0] == Member("podman-package-bundle", DirectoryMember, false, [])
            && a[1] == Member("podman-package-bundle/packages", DirectoryMember, false, [])
            && a[2] == Member("podman-package-bundle/SHA256SUMS", FileMember, false, sums)
            && a[3] == Member("podman-package-bundle/manifest.json", FileMember, false, manifest)
            && forall i :: 0 <= i < |files| ==>
                 a[4 + i] == Member("podman-package-bundle/packages/" + files[i], FileMember, false, payloads[files[i]])
  {
    hide Sorted, Increasing, Built, PackagePath, TOP, PACKAGES, SUMS, MANIFEST;
    files := Sorted(Files(rs));
    FilesMean(rs);
    Layout();
    BuiltSize(rs, manifest, sums, payloads);
    var a := Built(rs, manifest, sums, payloads);
    forall i | 0 <= i < |a|
      ensures if i < 4 then a[i] == [DirectoryNamed(TOP), DirectoryNamed(PACKAGES), FileNamed(SUMS, sums),
                                     FileNamed(MANIFEST, manifest)][i]
              else a[i] == FileNamed("podman-package-bundle/packages/" + files[i - 4], payloads[files[i - 4]])
    {
      BuiltMember(rs, manifest, sums, payloads, i);
      if i >= 4 { PathOfPackage(files[i - 4]); }
    }
  }

  lemma Layout()
    ensures TOP == "podman-package-bundle" && PACKAGES == "podman-package-bundle/packages"
    ensures SUMS == "podman-package-bundle/SHA256SUMS" && MANIFEST == "podman-package-bundle/manifest.json"
  {
  }

  lemma PathOfPackage(file: string)
    ensures PackagePath(file) == "podman-package-bundle/packages/" + file
  {
    assert PACKAGES + "/" == "podman-package-bundle/packages/";
  }

  lemma FilesMean(rs: seq<Record>)
    ensures forall file :: file in Files(rs) <==> exists i :: 0 <= i < |rs| && rs[i].file == file
  {
    forall file ensures file in Files(rs) <==> exists i :: 0 <= i < |rs| && rs[i].file == file {
      if file in Files(rs) {
        var r :| r in rs && r.file == file;
        var i :| 0 <= i < |rs| && rs[i] == r;
      }
    }
  }

  /** When a build succeeds, exactly, for a format that reads its own canonical text back: the lock is
      one to accept, the payloads are the locked ones and described as locked, every file name is
      seven-bit text, and four sizes are within their bounds. */
  lemma BuildIsExact(lock: Lock, payloads: map<string, Bytes>, described: Record -> bool, tarSize: seq<Member> -> nat,
                     format: Format, digest: Digest)
    requires format.parse(format.canonical(lock)) == Some(lock)
    ensures IsReady(lock, payloads, described, digest) && SelfChecked(lock, payloads, tarSize, format, digest) <==>
      && IsValid(lock) && payloads.Keys == Files(lock.packages)
      && (forall r :: r in lock.packages ==>
            && r.file in payloads && |payloads[r.file]| == r.size && digest(payloads[r.file]) == r.sha
            && described(r) && IsSevenBit(r.file))
      && IsAscii(SumsText(lock.packages))
      && var text, manifest := SumsText(lock.packages), format.canonical(lock);
         var a := Built(lock.packages, manifest, Ascii(text), payloads);
         && 1 <= tarSize(a) <= 512 * 1024 * 1024 && Total(a) <= 512 * 1024 * 1024
         && |manifest| <= 1024 * 1024 && |text| <= 1024 * 1024
  {
    hide IsValid, SumsText, Built, Accepts, Total, IsSevenBit;
    var rs := lock.packages;
    assert forall r :: r in rs <==> exists i :: 0 <= i < |rs| && rs[i] == r;
    if IsValid(lock) {
      ValidEntries(lock);
      SumsAreEncodable(rs);
      if payloads.Keys == Files(rs) && IsAscii(SumsText(rs)) && PayloadsMatch(rs, payloads, digest) {
        SelfCheckMeans(lock, payloads, tarSize, format, digest);
      }
    }
  }

  lemma ValidEntries(lock: Lock)
    requires IsValid(lock)
    ensures forall i :: 0 <= i < |lock.packages| ==> IsEntry(lock.packages[i])
  {
    hide IsRecord, IsEntry;
    forall i | 0 <= i < |lock.packages| ensures IsEntry(lock.packages[i]) { RecordMeans(lock.packages[i]); }
  }

  lemma SelfCheckMeans(lock: Lock, payloads: map<string, Bytes>, tarSize: seq<Member> -> nat, format: Format,
                       digest: Digest)
    requires format.parse(format.canonical(lock)) == Some(lock) && IsValid(lock) && IsAscii(SumsText(lock.packages))
    requires PayloadsMatch(lock.packages, payloads, digest)
    ensures SelfChecked(lock, payloads, tarSize, format, digest) <==>
      var text, manifest := SumsText(lock.packages), format.canonical(lock);
      var a := Built(lock.packages, manifest, Ascii(text), payloads);
      && 1 <= tarSize(a) <= 512 * 1024 * 1024 && Total(a) <= 512 * 1024 * 1024
      && |manifest| <= 1024 * 1024 && |text| <= 1024 * 1024
  {
    hide IsValid, SumsText, Built, Total, InventoryHolds, Holds, MatchesLock, MANIFEST, SUMS;
    var text, manifest := SumsText(lock.packages), format.canonical(lock);
    var a := Built(lock.packages, manifest, Ascii(text), payloads);
    SelfCheckIsAboutSize(lock, payloads, tarSize(a), format, digest);
    TextsAreHeld(lock.packages, manifest, Ascii(text), payloads);
    forall other, found | Accepts(a, tarSize(a), other, found, format, digest)
      ensures other == manifest && found == lock
    {
      OneContent(a, MANIFEST, other, manifest);
    }
  }
}
