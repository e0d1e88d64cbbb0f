/** What the manifest reader accepts and what the renderer writes (scripts/immutable_release_set.py),
    stated on the lines of the text. */
module ImmutableReader {
  import opened Text
  import opened ImmutableSet

  // ---------- lines ----------

  /** Sixty-four digits of a lower-case hexadecimal number. */
  predicate IsHex(d: string) {
    |d| == 64 && forall i :: 0 <= i < |d| ==> d[i] in "0123456789abcdef"
  }

  /** A digest, two blanks and a name that stands for this path. */
  ghost predicate IsEntryLine(line: string, path: string, digest: string) {
    IsHex(digest) && exists name :: line == digest + "  " + name && path == Unescape(DropStars(name))
  }

  lemma {:induction false} HexIsDigest(d: string)
    ensures IsHex(d) <==> IsDigest(d)
  {
    forall c: char ensures c in "0123456789abcdef" <==> IsHexDigit(c) { OneHexDigit(c); }
  }

  lemma {:induction false} OneHexDigit(c: char)
    ensures c in "0123456789abcdef" <==> IsHexDigit(c)
  {
    var s := "0123456789abcdef";
    if '0' <= c <= '9' { assert s[c as int - '0' as int] == c; }
    if 'a' <= c <= 'f' { assert s[10 + c as int - 'a' as int] == c; }
  }

  lemma {:induction false} BlankIsStripped(line: string)
    ensures Strip(line) == [] <==> AllSpaces(line)
  {
    var a, b := StripIsExact(line);
    var r := Strip(line);
    assert r != [] ==> line[|a|] == r[0];
  }

  /** One line, exactly: nothing for a blank one, an entry for a digest, two blanks and a name, and an
      error for every other. */
  lemma {:induction false} ParseLineIsExact(line: string, path: string, digest: string)
    ensures ParseLine(line) == Ok(None) <==> AllSpaces(line)
    ensures ParseLine(line) == Ok(Some((path, digest))) <==> IsEntryLine(line, path, digest)
  {
    hide Unescape, DropStars, Strip, AllSpaces, DoubleSpace;
    BlankIsStripped(line);
    HexIsDigest(digest);
    if IsEntryLine(line, path, digest) {
      var name :| line == digest + "  " + name && path == Unescape(DropStars(name));
      ParseRendered(digest, name);
    }
    if ParseLine(line) == Ok(Some((path, digest))) {
      var n := DoubleSpace(line).value;
      assert line == digest + "  " + line[n + 2..];
    }
  }

  // ---------- whole manifests ----------

  /** Some line lists the path with this digest. */
  ghost predicate Lists(lines: seq<string>, path: string, digest: string) {
    exists i :: 0 <= i < |lines| && IsEntryLine(lines[i], path, digest)
  }

  ghost predicate IsLine(line: string) {
    AllSpaces(line) || exists p, d :: IsEntryLine(line, p, d)
  }

  /** Blank lines and entries only, and no path with two digests. */
  ghost predicate IsManifest(lines: seq<string>) {
    && (forall i :: 0 <= i < |lines| ==> IsLine(lines[i]))
    && (forall p, d, e :: Lists(lines, p, d) && Lists(lines, p, e) ==> d == e)
  }

  ghost predicate Holds(entries: Entries, path: string, digest: string) {
    path in entries && entries[path] == digest
  }

  /** Listed in the remaining lines or entered before. */
  ghost predicate Known(lines: seq<string>, acc: Entries, path: string, digest: string) {
    Holds(acc, path, digest) || Lists(lines, path, digest)
  }

  ghost predicate Agrees(lines: seq<string>, acc: Entries) {
    && (forall i :: 0 <= i < |lines| ==> IsLine(lines[i]))
    && (forall p, d, e :: Known(lines, acc, p, d) && Known(lines, acc, p, e) ==> d == e)
  }

  lemma {:induction false} ListsStep(lines: seq<string>, p: string, d: string)
    requires lines != []
    ensures Lists(lines, p, d) <==> IsEntryLine(lines[0], p, d) || Lists(lines[1..], p, d)
  {
    hide IsEntryLine;
    if Lists(lines[1..], p, d) {
      var i :| 0 <= i < |lines[1..]| && IsEntryLine(lines[1..][i], p, d);
      assert lines[i + 1] == lines[1..][i];
    }
    if Lists(lines, p, d) && !IsEntryLine(lines[0], p, d) {
      var i :| 0 <= i < |lines| && IsEntryLine(lines[i], p, d);
      assert lines[1..][i - 1] == lines[i];
    }
  }

  lemma {:induction false} LinesStep(lines: seq<string>)
    requires lines != []
    ensures (forall i :: 0 <= i < |lines| ==> IsLine(lines[i]))
       <==> IsLine(lines[0]) && forall i :: 0 <= i < |lines[1..]| ==> IsLine(lines[1..][i])
  {
    hide IsLine;
    assert lines == [lines[0]] + lines[1..];
  }

  /** One line more or less makes no difference to what is known. */
  lemma {:induction false} KnownStep(lines: seq<string>, acc: Entries, next: Entries)
    requires lines != [] && IsLine(lines[0])
    requires forall p, d :: Holds(next, p, d) <==> Holds(acc, p, d) || IsEntryLine(lines[0], p, d)
    ensures forall p, d :: Known(lines[1..], next, p, d) <==> Known(lines, acc, p, d)
    ensures Agrees(lines[1..], next) <==> Agrees(lines, acc)
  {
    hide IsEntryLine, IsLine, Lists, Holds;
    forall p, d { ListsStep(lines, p, d); }
    LinesStep(lines);
  }

  lemma {:induction false} ReadLinesIsExact(lines: seq<string>, acc: Entries)
    ensures ReadLines(lines, acc).Ok? <==> Agrees(lines, acc)
    ensures ReadLines(lines, acc).Ok? ==>
      forall p, d :: Holds(ReadLines(lines, acc).value, p, d) <==> Known(lines, acc, p, d)
    decreases |lines|
  {
    hide IsEntryLine, ParseLine, AllSpaces, Known, Agrees;
    if lines == [] {
      NothingLeft(acc);
    } else {
      ParseLineIsExact(lines[0], [], []);
      forall p, d { ParseLineIsExact(lines[0], p, d); }
      match ParseLine(lines[0])
      case Err(_) => NotALine(lines, acc);
      case Ok(None) =>
        BlankLine(lines, acc);
        ReadLinesIsExact(lines[1..], acc);
      case Ok(Some((path, digest))) =>
        if path in acc && acc[path] != digest {
          Contradicted(lines, acc, path, digest);
        } else {
          var next := acc[path := digest];
          EntryLine(lines, acc, path, digest);
          ReadLinesIsExact(lines[1..], next);
        }
    }
  }

  lemma {:induction false} NothingLeft(acc: Entries)
    ensures Agrees([], acc) && forall p, d :: Holds(acc, p, d) <==> Known([], acc, p, d)
  {
  }

  lemma {:induction false} NotALine(lines: seq<string>, acc: Entries)
    requires lines != [] && !AllSpaces(lines[0]) && forall p, d :: !IsEntryLine(lines[0], p, d)
    ensures !Agrees(lines, acc)
  {
    hide IsEntryLine;
    assert !IsLine(lines[0]);
  }

  lemma {:induction false} BlankLine(lines: seq<string>, acc: Entries)
    requires lines != [] && AllSpaces(lines[0]) && forall p, d :: !IsEntryLine(lines[0], p, d)
    ensures forall p, d :: Known(lines[1..], acc, p, d) <==> Known(lines, acc, p, d)
    ensures Agrees(lines[1..], acc) <==> Agrees(lines, acc)
  {
    hide IsEntryLine, Known, Agrees;
    KnownStep(lines, acc, acc);
  }

  lemma {:induction false} Contradicted(lines: seq<string>, acc: Entries, path: string, digest: string)
    requires lines != [] && IsEntryLine(lines[0], path, digest) && path in acc && acc[path] != digest
    ensures !Agrees(lines, acc)
  {
    hide IsEntryLine;
    assert Known(lines, acc, path, digest) && Known(lines, acc, path, acc[path]);
  }

  lemma {:induction false} EntryLine(lines: seq<string>, acc: Entries, path: string, digest: string)
    requires lines != [] && !(path in acc && acc[path] != digest)
    requires forall p, d :: IsEntryLine(lines[0], p, d) <==> p == path && d == digest
    ensures var next := acc[path := digest];
            && (forall p, d :: Known(lines[1..], next, p, d) <==> Known(lines, acc, p, d))
            && (Agrees(lines[1..], next) <==> Agrees(lines, acc))
  {
    hide IsEntryLine, Known, Agrees;
    assert IsEntryLine(lines[0], path, digest) && IsLine(lines[0]);
    KnownStep(lines, acc, acc[path := digest]);
  }

  /** The reader accepts exactly the texts of blank lines and entries in which no path has two
      digests, and then its entries are exactly those listed. */
  lemma {:induction false} ReaderIsExact(text: string)
    ensures Read(text).Ok? <==> IsManifest(SplitLines(text))
    ensures Read(text).Ok? ==> forall p, d :: Holds(Read(text).value, p, d) <==> Lists(SplitLines(text), p, d)
  {
    hide Lists, IsLine, SplitLines;
    ReadLinesIsExact(SplitLines(text), map[]);
    assert forall p, d :: Known(SplitLines(text), map[], p, d) <==> Lists(SplitLines(text), p, d);
  }

  // ---------- names ----------

  /** The escape that the reader undoes: a mark in front, and backslash and line feed spelled out. */
  function Escaped(name: string): string {
    "\\" + EscapedBody(name)
  }

  function EscapedBody(name: string): string {
    if name == [] then []
    else (if name[0] == '\\' then "\\\\" else if name[0] == '\n' then "\\n" else [name[0]]) + EscapedBody(name[1..])
  }

  lemma {:induction false} BodyReadsBack(name: string)
    ensures UnescapeBody(EscapedBody(name)) == name
  {
    if name != [] {
      BodyReadsBack(name[1..]);
      var s, rest := EscapedBody(name), EscapedBody(name[1..]);
      if name[0] == '\\' || name[0] == '\n' {
        assert s[2..] == rest && s[0] == '\\';
      } else {
        assert s[1..] == rest;
      }
    }
  }

  /** An escaped name reads back as the name, whatever it holds; any other name stands for itself, without
      the stars in front that mark a binary file. */
  lemma {:induction false} NamesReadBack(name: string, stars: nat)
    ensures Unescape(DropStars(Stars(stars) + Escaped(name))) == name
    ensures name == [] || (name[0] != '*' && name[0] != '\\') ==> Unescape(DropStars(Stars(stars) + name)) == name
  {
    hide UnescapeBody;
    BodyReadsBack(name);
    StarsDrop(stars, Escaped(name));
    assert Escaped(name)[1..] == EscapedBody(name);
    if name == [] || name[0] != '*' { StarsDrop(stars, name); }
  }

  function Stars(n: nat): string { if n == 0 then [] else "*" + Stars(n - 1) }

  lemma {:induction false} StarsDrop(n: nat, name: string)
    requires name == [] || name[0] != '*'
    ensures DropStars(Stars(n) + name) == name
  {
    if n == 0 {
      assert Stars(0) + name == name;
    } else {
      assert (Stars(n) + name)[1..] == Stars(n - 1) + name;
      StarsDrop(n - 1, name);
    }
  }

  // ---------- what is written ----------

  /** The rendered text, line by line: each path once, in increasing order, after its digest. */
  lemma {:induction false} RenderedInOrder(entries: Entries) returns (paths: seq<string>)
    requires AllDigests(entries) && forall p :: p in entries ==> RoundTrippable(p)
    ensures Increasing(paths) && |paths| == |SplitLines(Render(entries))|
    ensures forall p :: p in entries <==> p in paths
    ensures forall i :: 0 <= i < |paths| ==>
      paths[i] in entries && SplitLines(Render(entries))[i] == entries[paths[i]] + "  " + paths[i]
  {
    paths := Sorted(entries.Keys);
    RenderedLines(paths, entries);
  }

  lemma {:induction false} RenderedLines(paths: seq<string>, entries: Entries)
    requires AllDigests(entries) && forall p :: p in paths ==> p in entries && RoundTrippable(p)
    ensures var lines := SplitLines(RenderPaths(paths, entries));
            && |lines| == |paths|
            && forall i :: 0 <= i < |paths| ==> lines[i] == entries[paths[i]] + "  " + paths[i]
  {
    hide SplitLines, RoundTrippable, IsDigest;
    if paths == [] {
      NoLines();
    } else {
      var p, d, rest := paths[0], entries[paths[0]], RenderPaths(paths[1..], entries);
      assert RenderPaths(paths, entries) == (d + "  " + p + "\n") + rest;
      SplitLinesAppend(d + "  " + p + "\n", rest);
      RoundTrippableLine(d, p);
      RenderedLines(paths[1..], entries);
    }
  }
}
