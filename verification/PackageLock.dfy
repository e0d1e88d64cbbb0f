/** The lock of the Podman package bundle (scripts/build_public_release_bundle.py): which locks
    are valid, and the checksum inventory that follows from one. */
module PackageLock {
  import opened Text

  type Bytes = seq<bv8>

  datatype Record = Record(name: string, architecture: string, file: string, sha: string, size: int, version: string)

  /** The parsed lock; `sameShape` stands for its exact key set, schema, target and root file
      system identity. */
  datatype Lock = Lock(sameShape: bool, epoch: int, packages: seq<Record>, installNames: seq<string>,
                       installVersions: map<string, string>)

  const REQUIRED: set<string> := {"aardvark-dns", "catatonit", "conmon", "containers-storage", "dbus-user-session",
                                  "fuse-overlayfs", "golang-github-containers-common", "golang-github-containers-image",
                                  "libslirp0", "libsubid4", "netavark", "podman", "python3-venv", "runc", "skopeo",
                                  "slirp4netns", "stateport-crun", "uidmap"}
  const MAX_PACKAGES := 128
  const MAX_BYTES := 0x2000_0000  // 512 MiB

  predicate IsLowerOrDigit(c: char) {
    'a' <= c <= 'z' || '0' <= c <= '9'
  }

  predicate IsPackageName(s: string) {
    && 1 <= |s| <= 128 && IsLowerOrDigit(s[0])
    && forall i :: 1 <= i < |s| ==> IsLowerOrDigit(s[i]) || s[i] == '+' || s[i] == '.' || s[i] == '-'
  }

  predicate IsSha(s: string) {
    |s| == 64 && forall i :: 0 <= i < |s| ==> '0' <= s[i] <= '9' || 'a' <= s[i] <= 'f'
  }

  /** A single path component with the suffix of its architecture. */
  predicate IsPackageFile(file: string, architecture: string) {
    '/' !in file && EndsWith(file, "_" + architecture + ".deb")
  }

  predicate IsRecord(r: Record) {
    && IsPackageName(r.name) && (r.architecture == "all" || r.architecture == "amd64")
    && IsPackageFile(r.file, r.architecture)
    && IsSha(r.sha) && 1 <= r.size <= MAX_BYTES
    && r.version != "" && forall i :: 0 <= i < |r.version| ==> !IsSpace(r.version[i])
  }

  function Names(rs: seq<Record>): set<string> {
    set r | r in rs :: r.name
  }

  function Files(rs: seq<Record>): set<string> {
    set r | r in rs :: r.file
  }

  ghost predicate RecordsHold(rs: seq<Record>) {
    && (forall i :: 0 <= i < |rs| ==> IsRecord(rs[i]))
    && (forall i, j :: 0 <= i < j < |rs| ==> rs[i].name != rs[j].name && rs[i].file != rs[j].file)
  }

  /** The records by name. */
  ghost predicate IsIndex(records: map<string, Record>, rs: seq<Record>) {
    && records.Keys == Names(rs)
    && forall i :: 0 <= i < |rs| ==> rs[i].name in records && records[rs[i].name] == rs[i]
  }

  /** The install block lists every package, in order, with its version. */
  ghost predicate InstallHolds(lock: Lock) {
    && REQUIRED <= Names(lock.packages) && lock.installNames == Sorted(Names(lock.packages))
    && lock.installVersions.Keys == Names(lock.packages)
    && (forall i :: 0 <= i < |lock.packages| ==> HasVersion(lock.installVersions, lock.packages[i]))
  }

  predicate HasVersion(versions: map<string, string>, r: Record) {
    r.name in versions && versions[r.name] == r.version
  }

  /** Which locks `_podman_package_records` accepts. */
  ghost predicate IsValid(lock: Lock) {
    && lock.sameShape && lock.epoch >= 1 && |REQUIRED| <= |lock.packages| <= MAX_PACKAGES
    && RecordsHold(lock.packages) && InstallHolds(lock)
  }

  ghost predicate IsCollected(records: map<string, Record>, filenames: set<string>, rs: seq<Record>) {
    RecordsHold(rs) && IsIndex(records, rs) && filenames == Files(rs)
  }

  lemma CollectNext(records: map<string, Record>, filenames: set<string>, rs: seq<Record>, r: Record)
    requires IsCollected(records, filenames, rs) && IsRecord(r) && r.name !in records && r.file !in filenames
    ensures IsCollected(records[r.name := r], filenames + {r.file}, rs + [r])
  {
    hide IsRecord, RecordsHold, IsIndex, Names, Files;
    OneMoreRecord(rs, r);
    assert records.Keys == Names(rs) by { IndexKeys(records, rs); }
    IndexNext(records, rs, r);
    RecordsHoldNext(rs, r);
  }

  lemma IndexKeys(records: map<string, Record>, rs: seq<Record>)
    requires IsIndex(records, rs)
    ensures records.Keys == Names(rs)
  {
  }

  lemma OneMoreRecord(rs: seq<Record>, r: Record)
    ensures Names(rs + [r]) == Names(rs) + {r.name} && Files(rs + [r]) == Files(rs) + {r.file}
  {
  }

  lemma RecordsHoldNext(rs: seq<Record>, r: Record)
    requires RecordsHold(rs) && IsRecord(r) && r.name !in Names(rs) && r.file !in Files(rs)
    ensures RecordsHold(rs + [r])
  {
  }

  lemma IndexNext(records: map<string, Record>, rs: seq<Record>, r: Record)
    requires IsIndex(records, rs) && r.name !in Names(rs)
    ensures IsIndex(records[r.name := r], rs + [r])
  {
  }

  lemma CollectStops(records: map<string, Record>, filenames: set<string>, rs: seq<Record>, r: Record)
    requires IsCollected(records, filenames, rs) && (!IsRecord(r) || r.name in records || r.file in filenames)
    ensures !RecordsHold(rs + [r])
  {
    hide IsRecord;
    var more := rs + [r];
    assert more[|rs|] == r;
    if r.name in records {
      var s :| s in rs && s.name == r.name;
      var i :| 0 <= i < |rs| && rs[i] == s;
      assert more[i] == s;
    } else if r.file in filenames {
      var s :| s in rs && s.file == r.file;
      var i :| 0 <= i < |rs| && rs[i] == s;
      assert more[i] == s;
    }
  }

  lemma PrefixHolds(rs: seq<Record>, k: nat)
    requires k <= |rs| && !RecordsHold(rs[..k])
    ensures !RecordsHold(rs)
  {
  }

  method CollectRecords(rs: seq<Record>) returns (r: Option<map<string, Record>>)
    ensures r.Some? <==> RecordsHold(rs)
    ensures r.Some? ==> IsIndex(r.value, rs)
  {
    hide IsRecord, RecordsHold, IsIndex, Files;
    var records: map<string, Record> := map[];
    var filenames: set<string> := {};
    assert IsCollected(records, filenames, rs[..0]) by { NothingCollected(); assert rs[..0] == []; }
    for k := 0 to |rs|
      invariant IsCollected(records, filenames, rs[..k])
    {
      assert rs[..k + 1] == rs[..k] + [rs[k]];
      if !IsRecord(rs[k]) || rs[k].name in records || rs[k].file in filenames {
        CollectStops(records, filenames, rs[..k], rs[k]);
        PrefixHolds(rs, k + 1);
        return None;
      }
      CollectNext(records, filenames, rs[..k], rs[k]);
      records := records[rs[k].name := rs[k]];
      filenames := filenames + {rs[k].file};
    }
    assert rs[..|rs|] == rs;
    return Some(records);
  }

  lemma NothingCollected()
    ensures IsCollected(map[], {}, [])
  {
  }

  /** `_podman_package_records`. */
  method PackageRecords(lock: Lock) returns (r: Option<map<string, Record>>)
    ensures r.Some? <==> IsValid(lock)
    ensures r.Some? ==> IsIndex(r.value, lock.packages)
  {
    hide RecordsHold, Sorted, REQUIRED, Names;
    if !lock.sameShape || lock.epoch < 1 || |lock.packages| < |REQUIRED| || |lock.packages| > MAX_PACKAGES {
      return None;
    }
    var records := CollectRecords(lock.packages);
    if records.None? { return None; }
    var names := records.value.Keys;
    var versions := map name | name in records.value :: records.value[name].version;
    SameVersions(lock, records.value, versions);
    if !(REQUIRED <= names) || lock.installNames != Sorted(names) || lock.installVersions != versions { return None; }
    return records;
  }

  lemma SameVersions(lock: Lock, records: map<string, Record>, versions: map<string, string>)
    requires IsIndex(records, lock.packages) && versions == map name | name in records :: records[name].version
    ensures lock.installVersions == versions
       <==> && lock.installVersions.Keys == Names(lock.packages)
            && forall i :: 0 <= i < |lock.packages| ==> HasVersion(lock.installVersions, lock.packages[i])
  {
  }

  // ---------- the checksum inventory ----------

  predicate IsAscii(s: string) {
    forall i :: 0 <= i < |s| ==> s[i] as int < 128
  }

  function Ascii(s: string): (b: Bytes)
    requires IsAscii(s)
    ensures |b| == |s| && forall i :: 0 <= i < |b| ==> b[i] == s[i] as bv8
  {
    seq(|s|, i requires 0 <= i < |s| => s[i] as bv8)
  }

  function Line(r: Record): string {
    r.sha + "  packages/" + r.file
  }

  function Lines(rs: seq<Record>): set<string> {
    set r | r in rs :: Line(r)
  }

  /** The text of SHA256SUMS: the lines in order. */
  function SumsText(rs: seq<Record>): string {
    Join(Sorted(Lines(rs)), "\n") + "\n"
  }

  /** Digests are of one width, so a line gives back its file: no two packages share a line. */
  lemma LinesAreDistinct(lock: Lock, i: nat, j: nat)
    requires IsValid(lock) && i < j < |lock.packages|
    ensures Line(lock.packages[i]) != Line(lock.packages[j])
  {
    hide Sorted, REQUIRED;
    var r, s := lock.packages[i], lock.packages[j];
    assert IsRecord(r) && IsRecord(s);
    LineEndsInFile(r);
    LineEndsInFile(s);
  }

  lemma LineEndsInFile(r: Record)
    requires IsSha(r.sha)
    ensures Line(r)[75..] == r.file
  {
  }
}
