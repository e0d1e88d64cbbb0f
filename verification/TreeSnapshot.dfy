/** The tree snapshot of the public export (scripts/export_public_candidate.py): the stream
    whose SHA-256 identifies a reviewed source tree, read from a NUL-separated listing. */
module TreeSnapshot {
  import opened Text

  const NUL: char := '\0'

  datatype Line = Line(path: string, mode: string, objectType: string, digest: string)

  function Fields(lines: seq<Line>): seq<string> {
    if lines == [] then []
    else [lines[0].path, lines[0].mode, lines[0].objectType, lines[0].digest] + Fields(lines[1..])
  }

  function Stream(fields: seq<string>): string {
    if fields == [] then [] else fields[0] + [NUL] + Stream(fields[1..])
  }

  function Encode(lines: seq<Line>): string {
    Stream(Fields(lines))
  }

  /** The updates of `_tree_snapshot_digest`, entry by entry. */
  method SnapshotStream(lines: seq<Line>) returns (stream: string)
    ensures stream == Encode(lines)
  {
    stream := [];
    assert lines[0..] == lines;
    for i := 0 to |lines|
      invariant stream + Encode(lines[i..]) == Encode(lines)
    {
      var line := lines[i];
      ghost var rest := Encode(lines[i + 1..]);
      assert lines[i..][1..] == lines[i + 1..];
      StreamStep(line, lines[i + 1..]);
      assert [line] + lines[i + 1..] == lines[i..];
      var record := line.path + [NUL] + line.mode + [NUL] + line.objectType + [NUL] + line.digest + [NUL];
      assert (stream + record) + rest == stream + (record + rest);
      stream := stream + record;
    }
    assert lines[|lines|..] == [] && stream + [] == stream;
  }

  lemma StreamStep(line: Line, rest: seq<Line>)
    ensures Encode([line] + rest) ==
            (line.path + [NUL] + line.mode + [NUL] + line.objectType + [NUL] + line.digest + [NUL]) + Encode(rest)
  {
    hide Stream;
    assert ([line] + rest)[1..] == rest;
    var f := Fields(rest);
    assert Fields([line] + rest)
        == [line.path] + ([line.mode] + ([line.objectType] + ([line.digest] + f)));
    StreamCons(line.digest, f);
    StreamCons(line.objectType, [line.digest] + f);
    StreamCons(line.mode, [line.objectType] + ([line.digest] + f));
    StreamCons(line.path, [line.mode] + ([line.objectType] + ([line.digest] + f)));
  }

  lemma {:induction false} StreamCons(field: string, fields: seq<string>)
    ensures Stream([field] + fields) == field + [NUL] + Stream(fields)
  {
  }

  predicate NulFree(fields: seq<string>) {
    forall i :: 0 <= i < |fields| ==> NUL !in fields[i]
  }

  predicate NulFreeLine(l: Line) {
    NUL !in l.path && NUL !in l.mode && NUL !in l.objectType && NUL !in l.digest
  }

  predicate NulFreeLines(lines: seq<Line>) {
    forall i :: 0 <= i < |lines| ==> NulFreeLine(lines[i])
  }

  /** Splitting the stream at its separators gives the fields back. */
  lemma {:induction false} StreamDecodes(fields: seq<string>)
    requires NulFree(fields)
    ensures Split(Stream(fields), NUL) == fields + [[]]
  {
    if fields != [] {
      assert NulFree(fields[1..]) by {
        forall i | 0 <= i < |fields| - 1 ensures NUL !in fields[1..][i] { assert fields[1..][i] == fields[i + 1]; }
      }
      StreamDecodes(fields[1..]);
      SplitAtFirst(fields[0], Stream(fields[1..]), NUL);
      assert [fields[0]] + (fields[1..] + [[]]) == fields + [[]];
    }
  }

  lemma {:induction false} FieldsAreNulFree(lines: seq<Line>)
    requires NulFreeLines(lines)
    ensures NulFree(Fields(lines)) && |Fields(lines)| == 4 * |lines|
  {
    if lines != [] {
      assert NulFreeLine(lines[0]);
      assert NulFreeLines(lines[1..]) by {
        forall i | 0 <= i < |lines| - 1 ensures NulFreeLine(lines[1..][i]) { assert lines[1..][i] == lines[i + 1]; }
      }
      FieldsAreNulFree(lines[1..]);
    }
  }

  lemma {:induction false} FieldsDetermineLines(a: seq<Line>, b: seq<Line>)
    requires Fields(a) == Fields(b) && |a| == |b|
    ensures a == b
  {
    if a != [] {
      var fa, fb := Fields(a), Fields(b);
      assert fa[0] == fb[0] && fa[1] == fb[1] && fa[2] == fb[2] && fa[3] == fb[3];
      assert fa[4..] == Fields(a[1..]) && fb[4..] == Fields(b[1..]);
      FieldsDetermineLines(a[1..], b[1..]);
      assert a == [a[0]] + a[1..] && b == [b[0]] + b[1..];
    }
  }

  /** The stream is uniquely decodable: equal streams come from equal ordered listings. */
  lemma SnapshotIsInjective(a: seq<Line>, b: seq<Line>)
    requires NulFreeLines(a) && NulFreeLines(b)
    requires Encode(a) == Encode(b)
    ensures a == b
  {
    hide Fields, Stream, Split;
    FieldsAreNulFree(a);
    FieldsAreNulFree(b);
    StreamDecodes(Fields(a));
    StreamDecodes(Fields(b));
    var fa, fb := Fields(a), Fields(b);
    assert |fa + [[]]| == |fb + [[]]|;
    assert fa == (fa + [[]])[..|fa|] && fb == (fb + [[]])[..|fb|];
    FieldsDetermineLines(a, b);
  }

  // ---------- the listing ----------

  /** A raw listing entry `mode SP type SP oid TAB path`, as `_verify_source` splits it. */
  function ParseEntry(raw: string): Option<(string, string, string)> {
    var halves := Split(raw, '\t');
    if |halves| < 2 then None
    else
      var metadata := Split(halves[0], ' ');
      if |metadata| < 3 then None
      else Some((Join(halves[1..], "\t"), metadata[0], metadata[1]))
  }

  function ParseListing(raws: seq<string>, digests: string -> string): Option<seq<Line>> {
    if raws == [] then Some([])
    else if raws[0] == [] then ParseListing(raws[1..], digests)
    else
      var first, rest := ParseEntry(raws[0]), ParseListing(raws[1..], digests);
      if first.None? || rest.None? then None
      else Some([Line(first.value.0, first.value.1, first.value.2, digests(first.value.0))] + rest.value)
  }

  lemma {:induction false} SplitKeepsOut(s: string, sep: char, c: char, k: nat)
    requires c !in s && k < |Split(s, sep)|
    ensures c !in Split(s, sep)[k]
  {
    if s != [] {
      var rest := Split(s[1..], sep);
      if s[0] == sep {
        if k > 0 { SplitKeepsOut(s[1..], sep, c, k - 1); }
      } else {
        SplitKeepsOut(s[1..], sep, c, k);
      }
    }
  }

  lemma {:induction false} JoinKeepsOut(parts: seq<string>, sep: string, c: char)
    requires c !in sep && forall i :: 0 <= i < |parts| ==> c !in parts[i]
    ensures c !in Join(parts, sep)
  {
    if |parts| > 1 { JoinKeepsOut(parts[1..], sep, c); }
  }

  lemma EntryIsNulFree(raw: string)
    requires NUL !in raw && ParseEntry(raw).Some?
    ensures var e := ParseEntry(raw).value; NUL !in e.0 && NUL !in e.1 && NUL !in e.2
  {
    hide Split, Join;
    var halves := Split(raw, '\t');
    forall k | 0 <= k < |halves| ensures NUL !in halves[k] { SplitKeepsOut(raw, '\t', NUL, k); }
    JoinKeepsOut(halves[1..], "\t", NUL);
    SplitKeepsOut(halves[0], ' ', NUL, 0);
    SplitKeepsOut(halves[0], ' ', NUL, 1);
  }

  lemma {:induction false} ListingIsNulFree(raws: seq<string>, digests: string -> string)
    requires NulFree(raws) && (forall p :: NUL !in digests(p))
    requires ParseListing(raws, digests).Some?
    ensures NulFreeLines(ParseListing(raws, digests).value)
  {
    hide ParseEntry;
    if raws != [] {
      assert NUL !in raws[0];
      assert NulFree(raws[1..]) by {
        forall i | 0 <= i < |raws| - 1 ensures NUL !in raws[1..][i] { assert raws[1..][i] == raws[i + 1]; }
      }
      ListingIsNulFree(raws[1..], digests);
      if raws[0] != [] { EntryIsNulFree(raws[0]); }
    }
  }

  /** Two listings with the same snapshot stream describe the same ordered tree, for every raw
      listing: splitting at NUL is what makes every field NUL-free. */
  lemma {:induction false} SameSnapshotSameTree(a: string, b: string, da: string -> string, db: string -> string)
    requires forall p :: NUL !in da(p) && NUL !in db(p)
    requires ParseListing(Split(a, NUL), da).Some? && ParseListing(Split(b, NUL), db).Some?
    requires Encode(ParseListing(Split(a, NUL), da).value) == Encode(ParseListing(Split(b, NUL), db).value)
    ensures ParseListing(Split(a, NUL), da) == ParseListing(Split(b, NUL), db)
  {
    hide ParseListing, Encode;
    ListingIsNulFree(Split(a, NUL), da);
    ListingIsNulFree(Split(b, NUL), db);
    SnapshotIsInjective(ParseListing(Split(a, NUL), da).value, ParseListing(Split(b, NUL), db).value);
  }

  // ---------- reading a listing ----------

  /** The text of an entry. */
  function EntryText(path: string, mode: string, objectType: string, oid: string): string {
    mode + " " + objectType + " " + oid + "\t" + path
  }

  predicate IsEntryText(raw: string, path: string, mode: string, objectType: string, oid: string) {
    && raw == EntryText(path, mode, objectType, oid) && ' ' !in mode && ' ' !in objectType
    && '\t' !in mode && '\t' !in objectType && '\t' !in oid
  }

  /** An entry is read exactly as it was written: the path is everything after the first tab. */
  lemma EntryIsExact(raw: string, path: string, mode: string, objectType: string)
    ensures ParseEntry(raw) == Some((path, mode, objectType)) <==>
            exists oid :: IsEntryText(raw, path, mode, objectType, oid)
  {
    hide Split, Join;
    forall oid | IsEntryText(raw, path, mode, objectType, oid)
      ensures ParseEntry(raw) == Some((path, mode, objectType))
    {
      EntryTextReads(path, mode, objectType, oid);
    }
    if ParseEntry(raw) == Some((path, mode, objectType)) {
      var oid := EntryReadsText(raw);
    }
  }

  lemma EntryTextReads(path: string, mode: string, objectType: string, oid: string)
    requires IsEntryText(EntryText(path, mode, objectType, oid), path, mode, objectType, oid)
    ensures ParseEntry(EntryText(path, mode, objectType, oid)) == Some((path, mode, objectType))
  {
    hide Split, Join;
    var head := mode + [' '] + (objectType + [' '] + oid);
    var raw := EntryText(path, mode, objectType, oid);
    assert raw == head + ['\t'] + path;
    SplitAtFirst(head, path, '\t');
    JoinSplit(path, '\t');
    SplitAtFirst(mode, objectType + [' '] + oid, ' ');
    SplitAtFirst(objectType, oid, ' ');
    assert Split(raw, '\t')[1..] == Split(path, '\t');
  }

  lemma EntryReadsText(raw: string) returns (oid: string)
    requires ParseEntry(raw).Some?
    ensures var e := ParseEntry(raw).value; IsEntryText(raw, e.0, e.1, e.2, oid)
  {
    hide Split, Join;
    var halves := Split(raw, '\t');
    var head, path := halves[0], Join(halves[1..], "\t");
    var metadata := Split(head, ' ');
    oid := Join(metadata[2..], " ");
    JoinSplit(raw, '\t');
    JoinSplit(head, ' ');
    JoinFirst(halves, "\t");
    JoinFirst(metadata, " ");
    JoinFirst(metadata[1..], " ");
    assert metadata[1..][1..] == metadata[2..];
    assert raw == EntryText(path, metadata[0], metadata[1], oid);
  }

  lemma {:induction false} JoinFirst(parts: seq<string>, sep: string)
    requires |parts| > 1
    ensures Join(parts, sep) == parts[0] + sep + Join(parts[1..], sep)
  {
  }

  /** The raw entries of a listing, in order. */
  ghost predicate AreEntries(raws: seq<string>, lines: seq<Line>) {
    && |raws| == |lines|
    && forall i :: 0 <= i < |raws| ==> IsRaw(raws[i], lines[i])
  }

  ghost predicate IsRaw(raw: string, l: Line) {
    NUL !in raw && exists oid :: IsEntryText(raw, l.path, l.mode, l.objectType, oid)
  }

  /** A NUL-terminated listing is read back line by line, in order, each with its blob's digest. */
  lemma {:induction false} ListingIsRead(raws: seq<string>, lines: seq<Line>, digests: string -> string)
    requires AreEntries(raws, lines) && forall i :: 0 <= i < |lines| ==> lines[i].digest == digests(lines[i].path)
    ensures ParseListing(Split(Stream(raws), NUL), digests) == Some(lines)
  {
    hide Split, Stream, ParseListing, IsEntryText;
    StreamDecodes(raws);
    EntriesAreRead(raws, lines, digests);
  }

  lemma {:induction false} EntriesAreRead(raws: seq<string>, lines: seq<Line>, digests: string -> string)
    requires AreEntries(raws, lines) && forall i :: 0 <= i < |lines| ==> lines[i].digest == digests(lines[i].path)
    ensures ParseListing(raws + [""], digests) == Some(lines)
  {
    hide ParseEntry, IsEntryText;
    var all := raws + [""];
    if raws == [] {
      assert all[1..] == [];
    } else {
      assert all[1..] == raws[1..] + [""];
      EntriesAreRead(raws[1..], lines[1..], digests);
      var l := lines[0];
      assert IsRaw(raws[0], l);
      EntryIsExact(raws[0], l.path, l.mode, l.objectType);
      EntryIsSomething(raws[0], l);
      assert lines == [l] + lines[1..];
    }
  }

  lemma EntryIsSomething(raw: string, l: Line)
    requires IsRaw(raw, l)
    ensures raw != ""
  {
  }
}
