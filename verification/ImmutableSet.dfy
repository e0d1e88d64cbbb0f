/** The extend-only manifest behind the immutable-release-bytes gate
    (scripts/immutable_release_set.py): the `sha256sum` text format, its reader and
    renderer, and the state machine of all runs of the tool against one manifest file. */
module ImmutableSet {
  import opened Text

  type Entries = map<string, string>

  datatype ReadError = NotAManifestLine | NotHex | ListedTwice

  // ---------- the text format ----------

  /** The characters at which `str.splitlines` breaks a line. */
  predicate IsLineBreak(c: char) {
    || '\U{000a}' <= c <= '\U{000d}' || '\U{001c}' <= c <= '\U{001e}'
    || c == '\U{0085}' || c == '\U{2028}' || c == '\U{2029}'
  }

  /** `str.splitlines`: a final line break opens no empty line. */
  function SplitLines(s: string): (lines: seq<string>)
    ensures s != [] ==> lines != []
    decreases |s|
  {
    if s == [] then []
    else if IsLineBreak(s[0]) then
      [[]] + SplitLines(if s[0] == '\r' && |s| > 1 && s[1] == '\n' then s[2..] else s[1..])
    else
      var rest := SplitLines(s[1..]);
      if rest == [] then [[s[0]]] else [[s[0]] + rest[0]] + rest[1..]
  }

  predicate IsHexDigit(c: char) {
    '0' <= c <= '9' || 'a' <= c <= 'f'
  }

  predicate IsDigest(d: string) {
    |d| == 64 && forall i :: 0 <= i < 64 ==> IsHexDigit(d[i])
  }

  /** Where the first two-space separator of a line starts. */
  function DoubleSpace(s: string): (r: Option<nat>)
    ensures r.Some? ==> r.value + 2 <= |s| && s[r.value] == ' ' && s[r.value + 1] == ' '
  {
    if |s| < 2 then None
    else if s[0] == ' ' && s[1] == ' ' then Some(0)
    else match DoubleSpace(s[1..])
      case None => None
      case Some(n) => Some(n + 1)
  }

  function DropStars(name: string): (r: string)
    ensures |r| <= |name|
    ensures |r| == |name| ==> r == name && (name == [] || name[0] != '*')
  {
    if name != [] && name[0] == '*' then DropStars(name[1..]) else name
  }

  function UnescapeBody(body: string): (r: string)
    ensures |r| <= |body|
  {
    if body == [] then []
    else if body[0] == '\\' && |body| > 1 && (body[1] == '\\' || body[1] == 'n')
    then [if body[1] == '\\' then '\\' else '\n'] + UnescapeBody(body[2..])
    else [body[0]] + UnescapeBody(body[1..])
  }

  function Unescape(name: string): (r: string)
    ensures |r| <= |name|
    ensures |r| == |name| ==> r == name && (name == [] || name[0] != '\\')
  {
    if name == [] || name[0] != '\\' then name else UnescapeBody(name[1..])
  }

  /** One line of a manifest: nothing for a blank line, else a path and its digest. */
  function ParseLine(raw: string): Result<Option<(string, string)>, ReadError> {
    if Strip(raw) == [] then Ok(None)
    else match DoubleSpace(raw)
      case None => Err(NotAManifestLine)
      case Some(n) =>
        var digest := raw[..n];
        if |digest| != 64 then Err(NotAManifestLine)
        else if !IsDigest(digest) then Err(NotHex)
        else Ok(Some((Unescape(DropStars(raw[n + 2..])), digest)))
  }

  function ReadLines(lines: seq<string>, entries: Entries): Result<Entries, ReadError> {
    if lines == [] then Ok(entries)
    else match ParseLine(lines[0])
      case Err(e) => Err(e)
      case Ok(None) => ReadLines(lines[1..], entries)
      case Ok(Some((path, digest))) =>
        if path in entries && entries[path] != digest then Err(ListedTwice)
        else ReadLines(lines[1..], entries[path := digest])
  }

  function Read(text: string): Result<Entries, ReadError> {
    ReadLines(SplitLines(text), map[])
  }

  function RenderPaths(paths: seq<string>, entries: Entries): string
    requires forall p :: p in paths ==> p in entries
  {
    if paths == [] then []
    else entries[paths[0]] + "  " + paths[0] + "\n" + RenderPaths(paths[1..], entries)
  }

  function Render(entries: Entries): string {
    RenderPaths(Sorted(entries.Keys), entries)
  }

  /** `_unescape`, as the loop the tool runs. */
  method UnescapeName(name: string) returns (out: string)
    ensures out == Unescape(name)
  {
    hide UnescapeBody;
    if name == [] || name[0] != '\\' { return name; }
    var body := name[1..];
    assert body[0..] == body;
    var index := 0;
    out := [];
    while index < |body|
      invariant 0 <= index <= |body|
      invariant out + UnescapeBody(body[index..]) == UnescapeBody(body)
    {
      var rest := body[index..];
      assert rest[1..] == body[index + 1..];
      UnescapeStep(rest);
      if body[index] == '\\' && index + 1 < |body| && (body[index + 1] == '\\' || body[index + 1] == 'n') {
        assert rest[2..] == body[index + 2..];
        var plain := if body[index + 1] == '\\' then '\\' else '\n';
        AppendFirst(out, plain, UnescapeBody(rest[2..]));
        out := out + [plain];
        index := index + 2;
      } else {
        AppendFirst(out, body[index], UnescapeBody(rest[1..]));
        out := out + [body[index]];
        index := index + 1;
      }
    }
    assert body[|body|..] == [];
    NothingToUnescape();
  }

  lemma {:induction false} UnescapeStep(s: string)
    requires s != []
    ensures UnescapeBody(s) ==
      if s[0] == '\\' && |s| > 1 && (s[1] == '\\' || s[1] == 'n')
      then [if s[1] == '\\' then '\\' else '\n'] + UnescapeBody(s[2..])
      else [s[0]] + UnescapeBody(s[1..])
  {
  }

  lemma NothingToUnescape()
    ensures UnescapeBody([]) == []
  {
  }

  /** `read_manifest`, as the loop the tool runs over the lines of the file. */
  method ReadManifest(text: string) returns (r: Result<Entries, ReadError>)
    ensures r == Read(text)
  {
    var lines := SplitLines(text);
    var entries: Entries := map[];
    for number := 0 to |lines|
      invariant ReadLines(lines[number..], entries) == Read(text)
    {
      var raw := lines[number];
      assert lines[number..][1..] == lines[number + 1..];
      if Strip(raw) == [] { continue; }
      var at := DoubleSpace(raw);
      if at.None? || at.value != 64 { return Err(NotAManifestLine); }
      var digest, name := raw[..at.value], raw[at.value + 2..];
      if !IsDigest(digest) { return Err(NotHex); }
      var path := UnescapeName(DropStars(name));
      if path in entries && entries[path] != digest { return Err(ListedTwice); }
      entries := entries[path := digest];
    }
    assert lines[|lines|..] == [];
    r := Ok(entries);
  }

  // ---------- when the reader inverts the renderer ----------

  /** A name the renderer, which escapes nothing, can hand to the reader, which unescapes. */
  predicate RoundTrippable(name: string) {
    && (forall i :: 0 <= i < |name| ==> name[i] !in SEPARATORS)
    && (name == [] || (name[0] != '*' && name[0] != '\\'))
  }

  /** Line feed, vertical tab, form feed, carriage return, the file, group and record separators, and
      the three line ends of Unicode. */
  const SEPARATORS: set<char> :=
    {'\U{000a}', '\U{000b}', '\U{000c}', '\U{000d}', '\U{001c}', '\U{001d}', '\U{001e}', '\U{0085}', '\U{2028}',
     '\U{2029}'}

  predicate AllDigests(entries: Entries) {
    forall p :: p in entries ==> IsDigest(entries[p])
  }

  /** What remains after the line break a text starts with. */
  function AfterBreak(s: string): string
    requires s != []
  {
    if s[0] == '\r' && |s| > 1 && s[1] == '\n' then s[2..] else s[1..]
  }

  lemma AfterBreakAppend(a: string, b: string)
    requires a != [] && a[|a| - 1] == '\n'
    ensures AfterBreak(a + b) == AfterBreak(a) + b
    ensures |AfterBreak(a)| < |a| && (AfterBreak(a) == [] || AfterBreak(a)[|AfterBreak(a)| - 1] == '\n')
  {
  }

  lemma {:induction false} SplitLinesAppend(a: string, b: string)
    requires a == [] || a[|a| - 1] == '\n'
    ensures SplitLines(a + b) == SplitLines(a) + SplitLines(b)
    decreases |a|
  {
    hide SplitLines, IsLineBreak, AfterBreak;
    if a == [] {
      assert a + b == b;
      NoLines();
    } else if IsLineBreak(a[0]) {
      AfterBreakAppend(a, b);
      SplitLinesAppend(AfterBreak(a), b);
      SplitLinesBreak(a);
      SplitLinesBreak(a + b);
      assert ([[]] + SplitLines(AfterBreak(a))) + SplitLines(b) == [[]] + (SplitLines(AfterBreak(a)) + SplitLines(b));
    } else {
      NewLineBreaks();
      DropAppend(a, b, 1);
      SplitLinesAppend(a[1..], b);
      SplitLinesInk(a);
      SplitLinesInk(a + b);
      FirstLineAppend(a[0], SplitLines(a[1..]), SplitLines(b));
    }
  }

  lemma NoLines()
    ensures SplitLines([]) == []
  {
  }

  lemma FirstLineAppend(c: char, x: seq<string>, y: seq<string>)
    requires x != []
    ensures ([[c] + x[0]] + x[1..]) + y == [[c] + (x + y)[0]] + (x + y)[1..]
  {
  }

  lemma {:induction false} SplitLinesBreak(s: string)
    requires s != [] && IsLineBreak(s[0])
    ensures SplitLines(s) == [[]] + SplitLines(AfterBreak(s))
  {
  }

  lemma NewLineBreaks()
    ensures IsLineBreak('\n')
  {
  }

  lemma {:induction false} SplitLinesInk(s: string)
    requires |s| > 1 && !IsLineBreak(s[0])
    ensures var rest := SplitLines(s[1..]); rest != [] && SplitLines(s) == [[s[0]] + rest[0]] + rest[1..]
  {
  }

  /** Characters that break no line are a prefix of the first line. */
  lemma {:induction false} SplitLinesPrefix(x: string, y: string)
    requires y != []
    requires forall i :: 0 <= i < |x| ==> !IsLineBreak(x[i])
    ensures SplitLines(x + y) == [x + SplitLines(y)[0]] + SplitLines(y)[1..]
  {
    var lines := SplitLines(y);
    if x == [] {
      assert x + y == y && x + lines[0] == lines[0];
    } else {
      DropAppend(x, y, 1);
      SplitLinesPrefix(x[1..], y);
      assert [x[0]] + (x[1..] + lines[0]) == x + lines[0];
    }
  }

  lemma {:induction false} DoubleSpaceAfterDigest(d: string, name: string)
    requires forall i :: 0 <= i < |d| ==> d[i] != ' '
    ensures DoubleSpace(d + "  " + name) == Some(|d|)
  {
    var line := d + "  " + name;
    if d != [] {
      assert line[1..] == d[1..] + "  " + name;
      DoubleSpaceAfterDigest(d[1..], name);
    }
  }

  lemma {:induction false} ParseRendered(d: string, name: string)
    requires IsDigest(d)
    ensures ParseLine(d + "  " + name) == Ok(Some((Unescape(DropStars(name)), d)))
  {
    var line := d + "  " + name;
    assert IsHexDigit(d[0]);
    assert !IsSpace(line[0]);
    StripKeepsInk(line);
    forall i | 0 <= i < |d| ensures d[i] != ' ' { assert IsHexDigit(d[i]); }
    DoubleSpaceAfterDigest(d, name);
    assert line[..64] == d && line[66..] == name;
  }

  lemma {:induction false} StripKeepsInk(s: string)
    requires s != [] && !IsSpace(s[0])
    ensures Strip(s) != []
  {
    StripRightKeepsInk(s);
  }

  lemma {:induction false} StripRightKeepsInk(s: string)
    requires s != [] && !IsSpace(s[0])
    ensures StripRight(s) != []
  {
    if IsSpace(s[|s| - 1]) { StripRightKeepsInk(s[..|s| - 1]); }
  }

  /** The first line of a name that a line feed ends is the name itself exactly when the
      name breaks no line; every line is at most as long as the text. */
  lemma {:induction false} LinesOfName(p: string, k: nat)
    requires k < |SplitLines(p + "\n")|
    ensures var lines := SplitLines(p + "\n");
            && (k == 0 ==> lines[0] <= p && (lines[0] == p <==> forall i :: 0 <= i < |p| ==> !IsLineBreak(p[i])))
            && |lines[k]| <= |p|
    decreases |p|
  {
    if p == [] {
      assert (p + "\n")[1..] == [];
    } else {
      hide SplitLines, IsLineBreak;
      DropAppend(p, "\n", 1);
      if IsLineBreak(p[0]) {
        SplitLinesBreak(p + "\n");
        if p == "\r" {
          assert AfterBreak(p + "\n") == [];
          NoLines();
        } else if k > 0 {
          if |p| > 1 { DropAppend(p, "\n", 2); }
          assert AfterBreak(p + "\n") == AfterBreak(p) + "\n";
          LinesOfName(AfterBreak(p), k - 1);
        }
      } else {
        SplitLinesInk(p + "\n");
        LinesOfName(p[1..], k);
        assert p == [p[0]] + p[1..];
      }
    }
  }

  lemma {:induction false} LinesOfRendered(d: string, p: string)
    requires IsDigest(d)
    ensures var lines := SplitLines(p + "\n");
            SplitLines(d + "  " + p + "\n") == [d + "  " + lines[0]] + lines[1..]
  {
    forall i | 0 <= i < 66 ensures !IsLineBreak((d + "  ")[i]) {
      if i < 64 { assert IsHexDigit(d[i]); }
    }
    SplitLinesPrefix(d + "  ", p + "\n");
    assert d + "  " + (p + "\n") == d + "  " + p + "\n";
  }

  lemma KeyIsShort(raw: string, key: string)
    requires YieldsKey(raw, key)
    ensures |key| + 66 <= |raw|
  {
  }

  lemma {:induction false} FirstLineKey(p: string, line: string)
    requires line <= p
    requires line == p <==> forall i :: 0 <= i < |p| ==> !IsLineBreak(p[i])
    requires !RoundTrippable(p)
    ensures |Unescape(DropStars(line))| < |p|
  {
  }

  /** The paths the reader takes from the lines the renderer spends on one path: the path
      itself when it round trips, only strictly shorter ones when it does not. */
  lemma {:induction false} LinesOfOnePath(d: string, p: string, k: nat, key: string)
    requires IsDigest(d)
    requires k < |SplitLines(d + "  " + p + "\n")|
    requires YieldsKey(SplitLines(d + "  " + p + "\n")[k], key)
    ensures if RoundTrippable(p) then key == p else |key| < |p|
  {
    hide SplitLines, RoundTrippable, IsDigest;
    if RoundTrippable(p) {
      RoundTrippableLine(d, p);
    } else {
      var lines := SplitLines(p + "\n");
      LinesOfRendered(d, p);
      if k == 0 {
        LinesOfName(p, 0);
        ParseRendered(d, lines[0]);
        FirstLineKey(p, lines[0]);
      } else {
        LinesOfName(p, k);
        KeyIsShort(lines[k], key);
      }
    }
  }

  lemma {:induction false} RoundTrippableLine(d: string, p: string)
    requires IsDigest(d) && RoundTrippable(p)
    ensures SplitLines(d + "  " + p + "\n") == [d + "  " + p]
    ensures ParseLine(d + "  " + p) == Ok(Some((p, d)))
  {
    SplitLinesPrefix(d + "  " + p, "\n") by {
      forall i | 0 <= i < 66 + |p| ensures !IsLineBreak((d + "  " + p)[i]) {
        if i < 64 { assert IsHexDigit(d[i]); }
        else if i >= 66 { assert (d + "  " + p)[i] == p[i - 66]; }
      }
    }
    assert SplitLines("\n") == [[]];
    assert d + "  " + p + [] == d + "  " + p;
    ParseRendered(d, p);
  }

  lemma {:induction false} ReadRenderedPaths(paths: seq<string>, entries: Entries, acc: Entries)
    requires forall p :: p in paths ==> p in entries && RoundTrippable(p)
    requires AllDigests(entries)
    requires forall p :: p in acc ==> p in entries && acc[p] == entries[p]
    ensures var r := ReadLines(SplitLines(RenderPaths(paths, entries)), acc);
            && r.Ok?
            && (forall p :: p in r.value <==> p in acc || p in paths)
            && (forall p :: p in r.value ==> p in entries && r.value[p] == entries[p])
  {
    if paths != [] {
      var p, d := paths[0], entries[paths[0]];
      var line, rest := d + "  " + p + "\n", RenderPaths(paths[1..], entries);
      assert RenderPaths(paths, entries) == line + rest;
      SplitLinesAppend(line, rest);
      RoundTrippableLine(d, p);
      ReadRenderedPaths(paths[1..], entries, acc[p := d]);
      assert ([d + "  " + p] + SplitLines(rest))[1..] == SplitLines(rest);
      assert paths == [p] + paths[1..];
    }
  }

  /** Where an entry the reader returns came from. */
  lemma {:induction false} ReadKeysHaveOrigins(lines: seq<string>, acc: Entries, key: string)
    requires ReadLines(lines, acc).Ok? && key in ReadLines(lines, acc).value && key !in acc
    ensures exists k :: 0 <= k < |lines| && YieldsKey(lines[k], key)
  {
    if lines != [] {
      if YieldsKey(lines[0], key) {
      } else {
        var parsed := ParseLine(lines[0]).value;
        var acc' := if parsed.None? then acc else acc[parsed.value.0 := parsed.value.1];
        ReadKeysHaveOrigins(lines[1..], acc', key);
        var k :| 0 <= k < |lines[1..]| && YieldsKey(lines[1..][k], key);
        assert lines[k + 1] == lines[1..][k];
      }
    }
  }

  predicate YieldsKey(line: string, key: string) {
    var parsed := ParseLine(line);
    parsed.Ok? && parsed.value.Some? && parsed.value.value.0 == key
  }

  lemma {:induction false} RenderedLineOrigin(paths: seq<string>, entries: Entries, k: nat, key: string)
    requires forall p :: p in paths ==> p in entries
    requires AllDigests(entries)
    requires k < |SplitLines(RenderPaths(paths, entries))|
    requires YieldsKey(SplitLines(RenderPaths(paths, entries))[k], key)
    ensures exists p :: p in paths && (if RoundTrippable(p) then key == p else |key| < |p|)
  {
    hide SplitLines, RoundTrippable, YieldsKey, IsDigest;
    NoLines();
    if paths != [] {
      var p, d := paths[0], entries[paths[0]];
      var line, rest := d + "  " + p + "\n", RenderPaths(paths[1..], entries);
      assert RenderPaths(paths, entries) == line + rest;
      SplitLinesAppend(line, rest);
      var first := |SplitLines(line)|;
      if k < first {
        LinesOfOnePath(d, p, k, key);
      } else {
        RenderedLineOrigin(paths[1..], entries, k - first, key);
        var q :| q in paths[1..] && (if RoundTrippable(q) then key == q else |key| < |q|);
      }
    }
  }

  lemma LongestExists(s: set<string>)
    requires s != {}
    ensures exists m :: m in s && forall x :: x in s ==> |x| <= |m|
  {
    var x :| x in s;
    if s != {x} {
      LongestExists(s - {x});
      var m :| m in s - {x} && forall y :: y in s - {x} ==> |y| <= |m|;
      var best := if |m| < |x| then x else m;
      assert best in s && forall y :: y in s ==> |y| <= |best|;
    }
  }

  /** The round trip, with its exact condition: reading a rendered manifest gives the
      entries back if and only if every name is free of line separators and starts with
      neither `*` nor a backslash. */
  lemma RoundTripExact(entries: Entries)
    requires AllDigests(entries)
    ensures Read(Render(entries)) == Ok(entries) <==> forall p :: p in entries ==> RoundTrippable(p)
  {
    var paths := Sorted(entries.Keys);
    if forall p :: p in entries ==> RoundTrippable(p) {
      ReadRenderedPaths(paths, entries, map[]);
      assert Read(Render(entries)).value == entries;
    } else if Read(Render(entries)) == Ok(entries) {
      var bad := set p | p in entries && !RoundTrippable(p);
      LongestExists(bad);
      var m :| m in bad && forall x :: x in bad ==> |x| <= |m|;
      var lines := SplitLines(Render(entries));
      ReadKeysHaveOrigins(lines, map[], m);
      var k :| 0 <= k < |lines| && YieldsKey(lines[k], m);
      RenderedLineOrigin(paths, entries, k, m);
      assert false;
    }
  }

  // ---------- reading a file as text ----------

  /** Universal newlines: every carriage return, with the line feed after it if there is one, is read
      as a line feed. */
  function Translate(s: string): string
    decreases |s|
  {
    if s == [] then []
    else if s[0] == '\r' then ['\n'] + Translate(AfterBreak(s))
    else [s[0]] + Translate(s[1..])
  }

  /** Reading as text does not change the lines, so a manifest reads the same either way. */
  lemma {:induction false} TranslationKeepsLines(s: string)
    ensures SplitLines(Translate(s)) == SplitLines(s)
    decreases |s|
  {
    if s != [] {
      var t := Translate(s);
      assert IsLineBreak('\r') && IsLineBreak('\n');
      if IsLineBreak(s[0]) {
        var rest := AfterBreak(s);
        TranslationKeepsLines(rest);
        assert t[1..] == Translate(rest) && t[0] != '\r' && IsLineBreak(t[0]);
        SplitLinesBreak(t);
        SplitLinesBreak(s);
      } else {
        TranslationKeepsLines(s[1..]);
        assert t[1..] == Translate(s[1..]) && t[0] == s[0];
      }
    }
  }

  lemma {:induction false} TranslationOfPlainText(s: string)
    requires '\r' !in s
    ensures Translate(s) == s
  {
    if s != [] {
      assert s[0] in s;
      TranslationOfPlainText(s[1..]);
      assert [s[0]] + s[1..] == s;
    }
  }

  lemma {:induction false} RenderedHasNoReturns(paths: seq<string>, entries: Entries)
    requires forall p :: p in paths ==> p in entries && RoundTrippable(p)
    requires AllDigests(entries)
    ensures '\r' !in RenderPaths(paths, entries)
  {
    if paths != [] {
      var p := paths[0];
      assert p in paths && IsDigest(entries[p]) && RoundTrippable(p);
      assert '\r' !in p by { assert IsLineBreak('\r'); }
      assert '\r' !in entries[p] by { assert !IsHexDigit('\r'); }
      RenderedHasNoReturns(paths[1..], entries);
    }
  }
}
