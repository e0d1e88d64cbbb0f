/** All runs of the immutable-set tool against one manifest file
    (scripts/immutable_release_set.py): the interlock, the plan, the write decision, and
    what no sequence of runs and tree changes can do to a pinned entry. */
module ImmutableRuns {
  import opened Text
  import opened ImmutableSet

  /** What `lstat` finds. A regular file is represented by the SHA-256 of its bytes; Special
      is a symbolic link, a device or a file that cannot be read. */
  datatype Node = Regular(digest: string) | Directory | Special

  /** A release tree during one run. `outside(p)` says that p resolves out of the root, and
      `scoped` are the non-directory names of the declared scope that a walk lists. */
  datatype Tree = Tree(isDirectory: bool, lstat: string -> Option<Node>, outside: string -> bool, scoped: set<string>)

  ghost predicate Consistent(tree: Tree) {
    && (forall p :: p in tree.scoped ==> tree.lstat(p).Some? && !tree.lstat(p).value.Directory?)
    && (forall p :: p in tree.scoped && tree.lstat(p).value.Regular? ==> !IsAbsolute(p) && !tree.outside(p))
    && (forall p :: tree.lstat(p).Some? && tree.lstat(p).value.Regular? ==> IsDigest(tree.lstat(p).value.digest))
  }

  predicate IsAbsolute(p: string) {
    p != [] && p[0] == '/'
  }

  lemma {:induction false} SlashIsFirst()
    ensures forall p :: IsAbsolute(p) <==> "/" <= p
  {
    forall p ensures IsAbsolute(p) <==> "/" <= p { assert p != [] ==> p[..1] == [p[0]]; }
  }

  function DigestFile(tree: Tree, p: string): (r: Option<string>) {
    var node := tree.lstat(p);
    if node.Some? && node.value.Regular? then Some(node.value.digest) else None
  }

  // ---------- the interlock ----------

  datatype Check = Verified | Gone | Mismatched | Unverifiable

  function CheckEntry(tree: Tree, p: string, expected: string): Check {
    if IsAbsolute(p) || tree.outside(p) then Unverifiable
    else if tree.lstat(p).None? then Gone
    else if DigestFile(tree, p) == Some(expected) then Verified
    else Mismatched
  }

  /** `verify_existing`: the entries that are gone and those that changed, in sorted order, or nothing
      when an entry cannot be joined safely to the root. */
  method VerifyExisting(tree: Tree, manifest: Entries)
    returns (r: Option<(seq<string>, seq<string>)>)
    ensures r.None? <==> exists p :: p in manifest && ("/" <= p || tree.outside(p))
    ensures r.Some? ==> Increasing(r.value.0) && Increasing(r.value.1)
    ensures r.Some? ==> forall p :: p in r.value.0 <==> p in manifest && tree.lstat(p).None?
    ensures r.Some? ==> forall p :: p in r.value.1 <==>
      p in manifest && tree.lstat(p).Some? && tree.lstat(p).value != Regular(manifest[p])
  {
    hide Lt, Sorted;
    SlashIsFirst();
    var names := Sorted(manifest.Keys);
    var gone, mismatched: seq<string> := [], [];
    for i := 0 to |names|
      invariant forall p :: p in names[..i] ==> !IsAbsolute(p) && !tree.outside(p)
      invariant Increasing(gone) && Increasing(mismatched)
      invariant forall p :: p in gone <==> p in names[..i] && tree.lstat(p).None?
      invariant forall p :: p in mismatched <==>
        p in names[..i] && tree.lstat(p).Some? && tree.lstat(p).value != Regular(manifest[p])
    {
      var relative := names[i];
      assert relative in manifest;
      assert names[..i + 1] == names[..i] + [relative];
      IncreasingAppend(names, i, gone);
      IncreasingAppend(names, i, mismatched);
      if IsAbsolute(relative) || tree.outside(relative) {
        return None;
      }
      if tree.lstat(relative).None? {
        gone := gone + [relative];
      } else {
        var actual := DigestFile(tree, relative);
        if actual != Some(manifest[relative]) {
          mismatched := mismatched + [relative];
        }
      }
    }
    assert names[..|names|] == names;
    r := Some((gone, mismatched));
  }

  // ---------- the plan ----------

  predicate EveryEntryVerifies(tree: Tree, existing: Entries) {
    forall p :: p in existing ==> CheckEntry(tree, p, existing[p]) == Verified
  }

  predicate EveryScopedFileHashes(tree: Tree) {
    forall p :: p in tree.scoped ==> DigestFile(tree, p).Some?
  }

  /** The union the tool proposes: what is pinned, and the digest of every scoped file. */
  function Union(tree: Tree, existing: Entries): Entries
    requires EveryScopedFileHashes(tree)
  {
    existing + map p | p in tree.scoped :: DigestFile(tree, p).value
  }

  /** The tree still holds what is pinned, and everything in scope is a regular file: every pinned
      path stays inside the root and is a regular file with the pinned digest. */
  ghost predicate IsIntact(tree: Tree, pinned: Entries) {
    && tree.isDirectory
    && (forall p :: p in pinned ==> !("/" <= p) && !tree.outside(p) && tree.lstat(p) == Some(Regular(pinned[p])))
    && (forall p :: p in tree.scoped ==> tree.lstat(p).Some? && tree.lstat(p).value.Regular?)
  }

  /** What is pinned, and every file in scope with the digest it has now; nothing else. */
  ghost predicate Covers(union: Entries, tree: Tree, pinned: Entries) {
    && union.Keys == pinned.Keys + tree.scoped
    && (forall p :: p in pinned ==> union[p] == pinned[p])
    && (forall p :: p in tree.scoped ==> tree.lstat(p) == Some(Regular(union[p])))
  }

  lemma {:induction false} IntactMeans(tree: Tree, existing: Entries)
    ensures IsIntact(tree, existing)
       <==> EveryEntryVerifies(tree, existing) && tree.isDirectory && EveryScopedFileHashes(tree)
  {
    SlashIsFirst();
    forall p | p in existing
      ensures CheckEntry(tree, p, existing[p]) == Verified
         <==> !IsAbsolute(p) && !tree.outside(p) && tree.lstat(p) == Some(Regular(existing[p]))
    {
    }
  }

  lemma {:induction false} UnionCovers(tree: Tree, existing: Entries)
    requires IsIntact(tree, existing)
    ensures EveryScopedFileHashes(tree) && Covers(Union(tree, existing), tree, existing)
  {
    IntactMeans(tree, existing);
  }

  /** `plan`: a refusal exactly when a pinned entry is gone, changed or outside, the root is no
      directory, or a scoped file cannot be hashed; otherwise the union of the two. */
  method Plan(tree: Tree, existing: Entries) returns (r: Option<Entries>)
    ensures r.Some? <==> EveryEntryVerifies(tree, existing) && tree.isDirectory && EveryScopedFileHashes(tree)
    ensures r.Some? ==> r.value == Union(tree, existing)
    ensures r.Some? <==> IsIntact(tree, existing)
    ensures r.Some? ==> Covers(r.value, tree, existing)
  {
    hide Le, Lt, Increasing, IsIntact, Covers, EveryScopedFileHashes;
    IntactMeans(tree, existing);
    if IsIntact(tree, existing) { UnionCovers(tree, existing); }
    var failing := VerifyExisting(tree, existing);
    if failing.None? { return None; }
    if failing.value.0 != [] || failing.value.1 != [] {
      var p := if failing.value.0 != [] then failing.value.0[0] else failing.value.1[0];
      assert p in failing.value.0 || p in failing.value.1;
      return None;
    }
    assert EveryEntryVerifies(tree, existing);
    if !tree.isDirectory { return None; }
    r := PinScope(tree, existing);
  }

  /** The loop over the scope. */
  method PinScope(tree: Tree, existing: Entries) returns (r: Option<Entries>)
    ensures r.Some? <==> EveryScopedFileHashes(tree)
    ensures r.Some? ==> r.value == Union(tree, existing)
  {
    hide Le, Lt, Increasing, Sorted;
    var scoped := Sorted(tree.scoped);
    var entries := existing;
    for i := 0 to |scoped|
      invariant forall p :: p in scoped[..i] ==> DigestFile(tree, p).Some?
      invariant forall p :: p in entries <==> p in existing || p in scoped[..i]
      invariant forall p :: p in scoped[..i] ==> entries[p] == DigestFile(tree, p).value
      invariant forall p :: p in existing && p !in scoped[..i] ==> entries[p] == existing[p]
    {
      var relative := scoped[i];
      assert relative in tree.scoped;
      assert scoped[..i + 1] == scoped[..i] + [relative];
      var digest := DigestFile(tree, relative);
      if digest.None? { return None; }
      entries := entries[relative := digest.value];
    }
    assert scoped[..|scoped|] == scoped;
    assert entries == Union(tree, existing);
    r := Some(entries);
  }

  /** The interlock makes the union an extension: no pinned digest can change in it. */
  lemma UnionExtends(tree: Tree, existing: Entries)
    requires EveryEntryVerifies(tree, existing) && EveryScopedFileHashes(tree)
    ensures Extends(existing, Union(tree, existing))
  {
  }

  predicate Extends(before: Entries, after: Entries) {
    forall p :: p in before ==> p in after && after[p] == before[p]
  }

  // ---------- one run ----------

  datatype Mode = Mode(check: bool, replace: bool)

  /** One invocation: the tree it sees, its flags, and whether the final write succeeds. */
  datatype Invocation = Invocation(tree: Tree, mode: Mode, writable: bool)

  /** The exit code and the manifest file one run leaves. The manifest counts as current when its
      text, read with universal newlines, is the rendered one. */
  function Run(file: Option<string>, call: Invocation): (int, Option<string>) {
    if file.None? && call.mode.check then (2, file)
    else
      var existing := if file.None? then Ok(map[]) else Read(file.value);
      if existing.Err? then (2, file)
      else if !EveryEntryVerifies(call.tree, existing.value) then (1, file)
      else if !(call.tree.isDirectory && EveryScopedFileHashes(call.tree)) then (1, file)
      else
        var text := Render(Union(call.tree, existing.value));
        if call.mode.check then (0, file)
        else if file.Some? && !call.mode.replace then (2, file)
        else if file.Some? && Translate(file.value) == text then (0, file)
        else if call.writable then (0, Some(text))
        else (2, file)
  }

  /** The manifest on disk, as `main` reads and rewrites it. */
  class ManifestFile {
    var text: Option<string>

    constructor (text: Option<string>)
      ensures this.text == text
    {
      this.text := text;
    }

    method Execute(call: Invocation) returns (code: int)
      modifies this
      ensures (code, text) == Run(old(text), call)
    {
      var existing: Entries := map[];
      if text.None? {
        if call.mode.check { return 2; }
      } else {
        var parsed := ReadManifest(text.value);
        if parsed.Err? { return 2; }
        existing := parsed.value;
      }
      var proposed := Plan(call.tree, existing);
      if proposed.None? { return 1; }
      if call.mode.check { return 0; }
      if text.Some? && !call.mode.replace { return 2; }
      var rendered := Render(proposed.value);
      if text.Some? && Translate(text.value) == rendered { return 0; }
      if !call.writable { return 2; }
      text := Some(rendered);
      return 0;
    }
  }

  // ---------- all runs ----------

  /** What a manifest file pins; an unreadable file pins nothing a reader can use. */
  function Pinned(file: Option<string>): Entries {
    if file.Some? && Read(file.value).Ok? then Read(file.value).value else map[]
  }

  predicate Readable(file: Option<string>) {
    file.None? || Read(file.value).Ok?
  }

  predicate AllRoundTrip(names: set<string>) {
    forall p :: p in names ==> RoundTrippable(p)
  }

  lemma {:induction false} ReadGivesDigests(lines: seq<string>, acc: Entries)
    requires AllDigests(acc)
    ensures var r := ReadLines(lines, acc); r.Ok? ==> AllDigests(r.value)
  {
    if lines != [] {
      var parsed := ParseLine(lines[0]);
      if parsed.Ok? {
        var entry := parsed.value;
        ReadGivesDigests(lines[1..], if entry.None? then acc else acc[entry.value.0 := entry.value.1]);
      }
    }
  }

  /** A run that writes leaves a file that reads back as exactly the union if and only if
      every name in the union round trips: a condition on the names, checkable beforehand. */
  lemma WrittenFileReadsBack(file: Option<string>, call: Invocation)
    requires Consistent(call.tree) && Readable(file)
    requires Run(file, call).1 != file
    ensures var union, after := Union(call.tree, Pinned(file)), Run(file, call).1;
            after.Some? && (Read(after.value) == Ok(union) <==> AllRoundTrip(union.Keys))
  {
    hide Render, RoundTrippable, IsDigest, ReadLines, SplitLines;
    var union := Union(call.tree, Pinned(file));
    assert AllDigests(union) by { PinnedAreDigests(file); }
    RoundTripExact(union);
  }

  lemma PinnedAreDigests(file: Option<string>)
    ensures AllDigests(Pinned(file))
  {
    if file.Some? { ReadGivesDigests(SplitLines(file.value), map[]); }
  }

  /** The text on disk is already the one that would be written. */
  predicate IsCurrent(file: Option<string>, union: Entries) {
    file.Some? && Translate(file.value) == Render(union)
  }

  /** One run, exactly: 2 when the manifest is unreadable, or missing in check mode, or needs a flag or
      a write it does not get; 1 when the tree is not intact; 0 otherwise. The file changes only in the
      last case, outside check mode and when it is not current, and then to the rendered union. */
  lemma {:induction false} RunIsExact(file: Option<string>, call: Invocation)
    ensures var (code, after) := Run(file, call);
            var tree, check, replace := call.tree, call.mode.check, call.mode.replace;
            if !Readable(file) || (file.None? && check) then code == 2 && after == file
            else if !IsIntact(tree, Pinned(file)) then code == 1 && after == file
            else
              && EveryScopedFileHashes(tree)
              && var union := Union(tree, Pinned(file));
                 if check then code == 0 && after == file
                 else if file.Some? && !replace then code == 2 && after == file
                 else if IsCurrent(file, union) then code == 0 && after == file
                 else if call.writable then code == 0 && after == Some(Render(union))
                 else code == 2 && after == file
  {
    hide Render, Read, Translate, IsIntact, CheckEntry, DigestFile;
    IntactMeans(call.tree, Pinned(file));
  }

  /** What a run that succeeds outside check mode pins: everything pinned before and every file in
      scope, each with the digest it has now; every other run pins what was pinned. */
  lemma {:induction false} RunPins(file: Option<string>, call: Invocation)
    requires Consistent(call.tree) && Readable(file)
    requires AllRoundTrip(Pinned(file).Keys) && AllRoundTrip(call.tree.scoped)
    ensures var (code, after) := Run(file, call);
            if code == 0 && !call.mode.check then Covers(Pinned(after), call.tree, Pinned(file))
            else Pinned(after) == Pinned(file)
  {
    hide Run, Render, Read, RoundTrippable, IsDigest, IsIntact, Covers, Consistent;
    RunIsExact(file, call);
    if Run(file, call).0 == 0 && !call.mode.check {
      UnionCovers(call.tree, Pinned(file));
      var union := Union(call.tree, Pinned(file));
      assert AllDigests(union) && AllRoundTrip(union.Keys) by { UnionIsPlain(file, call.tree); }
      RoundTripExact(union);
      if IsCurrent(file, union) { CurrentPinsTheUnion(file, union); }
    }
  }

  lemma {:induction false} UnionIsPlain(file: Option<string>, tree: Tree)
    requires Consistent(tree) && IsIntact(tree, Pinned(file)) && EveryScopedFileHashes(tree)
    requires AllRoundTrip(Pinned(file).Keys) && AllRoundTrip(tree.scoped)
    ensures AllDigests(Union(tree, Pinned(file))) && AllRoundTrip(Union(tree, Pinned(file)).Keys)
  {
    hide Read, RoundTrippable, IsDigest;
    PinnedAreDigests(file);
  }

  lemma {:induction false} CurrentPinsTheUnion(file: Option<string>, union: Entries)
    requires IsCurrent(file, union) && Read(Render(union)) == Ok(union)
    ensures Pinned(file) == union
  {
    hide Render, ReadLines, SplitLines, Translate;
    TranslationKeepsLines(file.value);
  }

  /** One run never drops a pinned path and never changes its digest. */
  lemma RunExtends(file: Option<string>, call: Invocation)
    requires Consistent(call.tree) && Readable(file)
    requires AllRoundTrip(Pinned(file).Keys) && AllRoundTrip(call.tree.scoped)
    ensures var after := Run(file, call).1;
            && Readable(after)
            && Extends(Pinned(file), Pinned(after))
            && Pinned(after).Keys <= Pinned(file).Keys + call.tree.scoped
  {
    hide Render, Read, RoundTrippable, IsDigest;
    var after := Run(file, call).1;
    if after != file {
      WrittenFileReadsBack(file, call);
      UnionExtends(call.tree, Pinned(file));
    }
  }

  /** The manifest after the first n runs of a history. */
  function FileAfter(file: Option<string>, history: seq<Invocation>, n: nat): Option<string>
    requires n <= |history|
  {
    if n == 0 then file else Run(FileAfter(file, history, n - 1), history[n - 1]).1
  }

  ghost predicate OrderlyHistory(file: Option<string>, history: seq<Invocation>) {
    && Readable(file) && AllRoundTrip(Pinned(file).Keys)
    && forall i :: 0 <= i < |history| ==> Consistent(history[i].tree) && AllRoundTrip(history[i].tree.scoped)
  }

  lemma {:induction false} HistoryKeepsNames(file: Option<string>, history: seq<Invocation>, n: nat)
    requires OrderlyHistory(file, history) && n <= |history|
    ensures var now := FileAfter(file, history, n); Readable(now) && AllRoundTrip(Pinned(now).Keys)
  {
    hide Run, Pinned, Readable, Consistent, RoundTrippable;
    if n > 0 {
      HistoryKeepsNames(file, history, n - 1);
      RunExtends(FileAfter(file, history, n - 1), history[n - 1]);
    }
  }

  /** Extend-only over every history: trees may change arbitrarily between runs, runs may
      check, replace, refuse or fail to write, and still what was pinned after run i is
      pinned with the same digest after every later run j. */
  lemma {:induction false} ExtendOnly(file: Option<string>, history: seq<Invocation>, i: nat, j: nat)
    requires OrderlyHistory(file, history) && i <= j <= |history|
    ensures Extends(Pinned(FileAfter(file, history, i)), Pinned(FileAfter(file, history, j)))
  {
    hide Run, Pinned, Readable, Consistent, RoundTrippable;
    if i < j {
      ExtendOnly(file, history, i, j - 1);
      HistoryKeepsNames(file, history, j - 1);
      RunExtends(FileAfter(file, history, j - 1), history[j - 1]);
    }
  }

  /** A byte that changes behind a pinned path stops every later run that sees it: such a
      run exits with 1 and leaves the manifest untouched, whatever its flags. */
  lemma {:induction false} ChangedByteRefuses(file: Option<string>, history: seq<Invocation>, i: nat, j: nat, p: string)
    requires OrderlyHistory(file, history) && i <= j < |history|
    requires p in Pinned(FileAfter(file, history, i))
    requires DigestFile(history[j].tree, p) != Some(Pinned(FileAfter(file, history, i))[p])
    ensures Run(FileAfter(file, history, j), history[j]) == (1, FileAfter(file, history, j))
  {
    var now := FileAfter(file, history, j);
    ExtendOnly(file, history, i, j);
    HistoryKeepsNames(file, history, j);
    assert p in Pinned(now) && CheckEntry(history[j].tree, p, Pinned(now)[p]) != Verified;
  }

  /** A second `--replace` run on an unchanged tree exits with 0 and writes nothing. */
  lemma SecondRunWritesNothing(file: Option<string>, tree: Tree, writable: bool)
    requires Consistent(tree) && Readable(file)
    requires AllRoundTrip(Pinned(file).Keys) && AllRoundTrip(tree.scoped)
    requires Run(file, Invocation(tree, Mode(false, true), true)).0 == 0
    ensures var first := Run(file, Invocation(tree, Mode(false, true), true)).1;
            Run(first, Invocation(tree, Mode(false, true), writable)) == (0, first)
  {
    hide Render, RoundTrippable, IsDigest, ReadLines, SplitLines;
    var call := Invocation(tree, Mode(false, true), true);
    var first := Run(file, call).1;
    var union := Union(tree, Pinned(file));
    UnionExtends(tree, Pinned(file));
    assert AllDigests(union) by { PinnedAreDigests(file); }
    if first != file {
      RoundTripExact(union);
      assert first == Some(Render(union));
      forall p | p in union ensures CheckEntry(tree, p, union[p]) == Verified {
        if p in Pinned(file) { assert CheckEntry(tree, p, Pinned(file)[p]) == Verified; }
      }
      assert Union(tree, union) == union;
    }
    assert Translate(Render(union)) == Render(union) by { RenderedIsPlain(union); }
  }

  lemma {:induction false} RenderedIsPlain(entries: Entries)
    requires AllDigests(entries) && AllRoundTrip(entries.Keys)
    ensures Translate(Render(entries)) == Render(entries)
  {
    hide RoundTrippable, IsDigest;
    RenderedHasNoReturns(Sorted(entries.Keys), entries);
    TranslationOfPlainText(Render(entries));
  }

  /** A copy of the current manifest with other line ends is current too: a run keeps it. */
  lemma {:induction false} OtherLineEndsAreCurrent(text: string, copy: string, tree: Tree, writable: bool)
    requires Translate(copy) == Translate(text)
    ensures Readable(Some(copy)) <==> Readable(Some(text))
    ensures Pinned(Some(copy)) == Pinned(Some(text))
    ensures var call := Invocation(tree, Mode(false, true), writable);
            Run(Some(text), call) == (0, Some(text)) && Translate(text) == Render(Union(tree, Pinned(Some(text)))) ==>
              Run(Some(copy), call) == (0, Some(copy))
  {
    hide SplitLines, ReadLines, Translate, Render, Union;
    TranslationKeepsLines(copy);
    TranslationKeepsLines(text);
  }

  lemma EscapedLineReads(d: string)
    requires IsDigest(d)
    ensures Read(d + "  " + "\\a\\nb" + "\n") == Ok(map["a\nb" := d])
  {
    var name := "\\a\\nb";
    var line := d + "  " + name;
    assert SplitLines(line + "\n") == [line] by {
      forall i | 0 <= i < |line| ensures !IsLineBreak(line[i]) {
        if i < 64 { assert IsHexDigit(d[i]); }
      }
      SplitLinesPrefix(line, "\n");
      assert SplitLines("\n") == [[]] && line + [] == line;
    }
    ParseRendered(d, name);
    assert Unescape(DropStars(name)) == "a\nb" by {
      assert name[1..] == "a\\nb" && "a\\nb"[1..] == "\\nb" && "\\nb"[2..] == "b" && "b"[1..] == "";
    }
    assert ReadLines([line], map[]) == ReadLines([line][1..], map["a\nb" := d]);
  }

  lemma TwoLines()
    ensures SplitLines("a\nb" + "\n") == ["a", "b"]
  {
    SplitLinesPrefix("b", "\n");
    SplitLinesAppend("\n", "b\n");
    SplitLinesPrefix("a", "\nb\n");
    assert "b" + "\n" == "b\n" && "\n" + "b\n" == "\nb\n" && "a" + "\nb\n" == "a\nb" + "\n";
    assert SplitLines("\n") == [[]] && "b" + [] == "b" && "a" + [] == "a";
  }

  lemma UnescapedLineDoesNotRead(d: string)
    requires IsDigest(d)
    ensures Read(d + "  " + "a\nb" + "\n").Err?
  {
    hide SplitLines, ParseLine, IsDigest;
    LinesOfRendered(d, "a\nb");
    TwoLines();
    ParseRendered(d, "a");
    assert ParseLine("b").Err? by { PlainLineIsNoEntry(); }
    var lines := [d + "  " + "a"] + ["b"];
    assert SplitLines(d + "  " + "a\nb" + "\n") == lines;
    assert lines[1..] == ["b"];
    assert ReadLines(lines, map[]) == ReadLines(lines[1..], map[Unescape(DropStars("a")) := d]);
    assert forall acc :: ReadLines(["b"], acc).Err?;
  }

  lemma PlainLineIsNoEntry()
    ensures ParseLine("b").Err?
  {
  }

  lemma RenderOne(p: string, d: string)
    ensures Render(map[p := d]) == d + "  " + p + "\n"
  {
    var union: Entries := map[p := d];
    assert Sorted(union.Keys) == [p] by { IncreasingUnique(Sorted(union.Keys), [p]); }
    assert RenderPaths([p], union) == d + "  " + p + "\n" + RenderPaths([p][1..], union);
  }

  /** Why the names matter. A hand-written manifest pins, by an escaped line, a file whose
      name holds a line feed; the file still verifies, yet one `--replace` run leaves a
      manifest that no longer reads, because the renderer does not escape the name. */
  lemma EscapedNameBreaksTheManifest(d: string, tree: Tree)
    requires IsDigest(d) && tree.isDirectory && tree.scoped == {}
    requires tree.lstat("a\nb") == Some(Regular(d)) && !tree.outside("a\nb")
    ensures var file := Some(d + "  " + "\\a\\nb" + "\n");
            && Pinned(file) == map["a\nb" := d]
            && !Readable(Run(file, Invocation(tree, Mode(false, true), true)).1)
  {
    hide Read, Render, Translate;
    var union: Entries := map["a\nb" := d];
    EscapedLineReads(d);
    UnescapedLineDoesNotRead(d);
    RenderOne("a\nb", d);
    assert EveryEntryVerifies(tree, union) && Union(tree, union) == union;
    assert (d + "  " + "a\nb" + "\n")[66] != (d + "  " + "\\a\\nb" + "\n")[66];
    EscapedLineIsPlain(d);
  }

  lemma {:induction false} EscapedLineIsPlain(d: string)
    requires IsDigest(d)
    ensures var text := d + "  " + "\\a\\nb" + "\n"; Translate(text) == text
  {
    assert '\r' !in d by { assert !IsHexDigit('\r'); }
    TranslationOfPlainText(d + "  " + "\\a\\nb" + "\n");
  }
}
