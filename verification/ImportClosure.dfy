/** What the import check accepts (scripts/export_public_candidate.py), stated on the text of a
    specifier: where its components lead from the directory of the source, and which file is there. */
module ImportClosure {
  import opened Text
  import opened PosixPath
  import opened ModuleSpecifiers
  import opened WebImports

  /** What a place may be completed with, in order of preference. */
  const ENDINGS: seq<string> :=
    ["", ".ts", ".tsx", ".d.ts", ".js", ".jsx", ".mjs", ".cjs", ".json", ".css", ".svg", ".png", ".jpg", ".jpeg",
     ".webp", ".woff", ".woff2", "/index.ts", "/index.tsx", "/index.d.ts", "/index.js", "/index.jsx", "/index.mjs",
     "/index.cjs", "/index.json", "/index.css", "/index.svg", "/index.png", "/index.jpg", "/index.jpeg",
     "/index.webp", "/index.woff", "/index.woff2"]

  /** The directory of a file: where all components of its path but the last lead. */
  function DirectoryOf(path: string): Option<seq<string>> {
    var parts := Split(path, '/');
    Walk(parts[..|parts| - 1], [])
  }

  /** Where components lead from a directory. */
  function From(start: Option<seq<string>>, parts: seq<string>): Option<seq<string>> {
    match start case None => None case Some(place) => Walk(parts, place)
  }

  predicate IsLocal(specifier: string) {
    "@/" <= specifier || "." <= specifier
  }

  /** Where a local specifier leads: from apps/web/src after the alias, otherwise from the directory of
      the source. */
  function Place(sourcePath: string, specifier: string): Option<seq<string>> {
    if "@/" <= specifier then Walk(Split(specifier[2..], '/'), ["apps", "web", "src"])
    else From(DirectoryOf(sourcePath), Split(specifier, '/'))
  }

  /** Strictly below apps/web. */
  predicate IsBelowWeb(place: Option<seq<string>>) {
    place.Some? && |place.value| > 2 && place.value[0] == "apps" && place.value[1] == "web"
  }

  /** The k-th ending gives the first file there that is tracked. */
  ghost predicate IsTarget(place: seq<string>, k: nat, tracked: set<string>)
    ensures IsTarget(place, k, tracked) ==> k < |ENDINGS|
  {
    && k < |ENDINGS| && Join(place, "/") + ENDINGS[k] in tracked
    && forall j :: 0 <= j < k ==> Join(place, "/") + ENDINGS[j] !in tracked
  }

  predicate IsPlainlyWritten(s: Specifier) {
    !s.escaped && '\\' !in s.value && '\0' !in s.value
  }

  /** An absolute path or a remote address. */
  ghost predicate IsForeign(specifier: string) {
    || "/" <= specifier || "file:" <= specifier
    || exists i :: 0 <= i <= |specifier| && "://" <= specifier[i..]
  }

  /** A specifier that costs its source nothing: plainly written, and either a local one that leads
      strictly below apps/web to a file that is copyable, or a package. */
  ghost predicate IsClosedImport(sourcePath: string, s: Specifier, tracked: set<string>, copyable: set<string>) {
    && IsPlainlyWritten(s)
    && if IsLocal(s.value) then
         var place := Place(sourcePath, s.value);
         && IsBelowWeb(place)
         && exists k: nat :: IsTarget(place.value, k, tracked) && Join(place.value, "/") + ENDINGS[k] in copyable
       else !IsForeign(s.value)
  }

  // ---------- paths and walks ----------

  lemma {:induction false} WalkOn(a: seq<string>, b: seq<string>, place: seq<string>)
    ensures Walk(a + b, place) == From(Walk(a, place), b)
    decreases |a|
  {
    if a == [] {
      assert a + b == b;
    } else {
      assert (a + b)[1..] == a[1..] + b && (a + b)[0] == a[0];
      var part := a[0];
      if part == "" || part == "." {
        WalkOn(a[1..], b, place);
      } else if part != ".." {
        WalkOn(a[1..], b, place + [part]);
      } else if place != [] {
        WalkOn(a[1..], b, place[..|place| - 1]);
      }
    }
  }

  lemma {:induction false} NothingChanges(place: seq<string>)
    ensures Walk([""], place) == Some(place) && Walk([], place) == Some(place)
  {
    assert [""][1..] == [];
  }

  lemma {:induction false} SlashesAtTheEnd(s: string, place: seq<string>)
    ensures Walk(Split(DropTrailingSlashes(s), '/'), place) == Walk(Split(s, '/'), place)
  {
    hide Walk, Split;
    if s != [] && s[|s| - 1] == '/' {
      var t := s[..|s| - 1];
      assert s == t + ['/'] + [];
      SplitConcat(t, [], '/');
      SplitWithout([], '/');
      WalkOn(Split(t, '/'), [""], place);
      if Walk(Split(t, '/'), place).Some? { NothingChanges(Walk(Split(t, '/'), place).value); }
      SlashesAtTheEnd(t, place);
    }
  }

  /** The components of the directory name of a path are those of the path without the last. */
  lemma {:induction false} DirnameWalks(path: string)
    requires '/' in path
    ensures Walk(Split(DropTrailingSlashes(path[..LastSlash(path)]), '/'), []) == DirectoryOf(path)
  {
    hide Walk, Split, DropTrailingSlashes;
    var n := LastSlash(path);
    var i :| 0 <= i < |path| && path[i] == '/';
    assert n > 0;
    var head, tail := path[..n - 1], path[n..];
    assert path == head + ['/'] + tail && path[..n] == head + ['/'] + [];
    SplitConcat(head, tail, '/');
    SplitWithout(tail, '/');
    var parts := Split(path, '/');
    assert parts[..|parts| - 1] == Split(head, '/');
    SlashesAtTheEnd(path[..n], []);
    SplitConcat(head, [], '/');
    SplitWithout([], '/');
    WalkOn(Split(head, '/'), [""], []);
    if Walk(Split(head, '/'), []).Some? { NothingChanges(Walk(Split(head, '/'), []).value); }
  }

  /** A relative specifier leads where its components do, from the directory of the source. */
  lemma {:induction false} RelativeLeads(sourcePath: string, specifier: string)
    requires WEB_PREFIX <= sourcePath && "." <= specifier
    ensures Walk(Split(JoinPath(Dirname(sourcePath), specifier), '/'), [])
            == From(DirectoryOf(sourcePath), Split(specifier, '/'))
  {
    hide Walk, Split, DropTrailingSlashes, LastSlash;
    assert sourcePath[4] == '/';
    DirnameWalks(sourcePath);
    DirnameKeepsFront(sourcePath);
    var d := Dirname(sourcePath);
    assert d == DropTrailingSlashes(sourcePath[..LastSlash(sourcePath)]) && d != "" && d[|d| - 1] != '/' by {
      TrimmedEnd(sourcePath[..LastSlash(sourcePath)]);
    }
    assert specifier[0] == '.';
    assert JoinPath(d, specifier) == d + ['/'] + specifier;
    SplitConcat(d, specifier, '/');
    WalkOn(Split(d, '/'), Split(specifier, '/'), []);
  }

  lemma {:induction false} TrimmedEnd(s: string)
    ensures var t := DropTrailingSlashes(s); t != "" ==> t[|t| - 1] != '/'
  {
    if s != [] && s[|s| - 1] == '/' { TrimmedEnd(s[..|s| - 1]); }
  }

  /** An alias leads where its components do, from apps/web/src. */
  lemma {:induction false} AliasLeads(rest: string)
    ensures Walk(Split(ALIAS_ROOT + rest, '/'), []) == Walk(Split(rest, '/'), ["apps", "web", "src"])
  {
    hide Split, Walk;
    var a, b, c := "web/src/" + rest, "src/" + rest, rest;
    assert ALIAS_ROOT + rest == "apps" + ['/'] + a && a == "web" + ['/'] + b && b == "src" + ['/'] + c;
    SplitAtFirst("apps", a, '/');
    SplitAtFirst("web", b, '/');
    SplitAtFirst("src", c, '/');
    assert Split(ALIAS_ROOT + rest, '/') == ["apps", "web", "src"] + Split(rest, '/');
    WalkOn(["apps", "web", "src"], Split(rest, '/'), []);
    ThreeDown();
  }

  lemma {:induction false} ThreeDown()
    ensures Walk(["apps", "web", "src"], []) == Some(["apps", "web", "src"])
  {
    assert ["apps", "web", "src"] == ["apps"] + ["web", "src"] && ["web", "src"] == ["web"] + ["src"];
    assert ["src"] == ["src"] + [] && [] + ["apps"] == ["apps"];
    assert ["apps"] + ["web"] == ["apps", "web"] && ["apps", "web"] + ["src"] == ["apps", "web", "src"];
    OneDown("apps", ["web", "src"], []);
    OneDown("web", ["src"], ["apps"]);
    OneDown("src", [], ["apps", "web"]);
    NothingChanges(["apps", "web", "src"]);
  }

  lemma {:induction false} OneDown(part: string, rest: seq<string>, place: seq<string>)
    requires IsPlain(part)
    ensures Walk([part] + rest, place) == Walk(rest, place + [part])
  {
    assert ([part] + rest)[1..] == rest;
  }

  lemma {:induction false} DirnameKeepsFront(sourcePath: string)
    requires WEB_PREFIX <= sourcePath
    ensures var d := Dirname(sourcePath); d != "" && d[0] == 'a'
    ensures DropTrailingSlashes(sourcePath[..LastSlash(sourcePath)]) != ""
  {
    hide LastSlash, DropTrailingSlashes;
    var head := sourcePath[..LastSlash(sourcePath)];
    assert sourcePath[0] == 'a' && sourcePath[4] == '/';
    assert |head| >= 5;
    TrimKeepsFront(head);
  }

  lemma {:induction false} TrimKeepsFront(s: string)
    requires s != [] && s[0] == 'a'
    ensures var t := DropTrailingSlashes(s); t != [] && t[0] == 'a'
  {
    if s[|s| - 1] == '/' { TrimKeepsFront(s[..|s| - 1]); }
  }

  // ---------- the check ----------

  lemma {:induction false} LocalPathLeads(sourcePath: string, specifier: string)
    requires WEB_PREFIX <= sourcePath
    ensures LocalPath(sourcePath, specifier).Some? <==> IsLocal(specifier)
    ensures IsLocal(specifier) ==>
      var path := LocalPath(sourcePath, specifier).value;
      path != "" && !("/" <= path) && Walk(Split(path, '/'), []) == Place(sourcePath, specifier)
  {
    hide Walk, Split, Dirname, WEB_PREFIX, DirectoryOf;
    if "@/" <= specifier {
      AliasLeads(specifier[2..]);
      assert (ALIAS_ROOT + specifier[2..])[0] == 'a';
    } else if "." <= specifier {
      RelativeLeads(sourcePath, specifier);
      DirnameKeepsFront(sourcePath);
      assert specifier[0] == '.';
    }
  }

  lemma {:induction false} WebRootText()
    ensures Join(["apps", "web"], "/") + "/" == WEB_PREFIX && AllPlain(["apps", "web"])
  {
    assert ["apps", "web"][1..] == ["web"];
  }

  /** The guard on the normalised path, for a relative path. */
  lemma {:induction false} GuardMeansBelow(path: string)
    requires path != "" && !("/" <= path)
    ensures var base, place := NormPath(path), Walk(Split(path, '/'), []);
            && (base != "apps/web" && WEB_PREFIX <= base <==> IsBelowWeb(place))
            && (IsBelowWeb(place) ==> base == Join(place.value, "/") && AllPlain(place.value))
  {
    hide Walk, NormPath, Split, Join, AllPlain;
    WebRootText();
    NormPathStaysBelow(path, ["apps", "web"]);
    CollapseFollowsTheWalk(Split(path, '/'), []) by { assert AllPlain([]) by { NothingIsPlain(); } }
    var place := Walk(Split(path, '/'), []);
    if place.Some? && |place.value| > 2 {
      assert place.value[..2] == ["apps", "web"] <==> place.value[0] == "apps" && place.value[1] == "web";
    }
  }

  lemma {:induction false} NothingIsPlain()
    ensures AllPlain([])
  {
  }

  lemma {:induction false} JoinEndsPlainly(parts: seq<string>)
    requires parts != [] && AllPlain(parts)
    ensures var s := Join(parts, "/"); s != "" && s[|s| - 1] != '/'
  {
    assert IsPlain(parts[0]);
    if |parts| == 1 {
      var s := parts[0];
      assert s[|s| - 1] in s;
    } else {
      JoinEndsPlainly(parts[1..]);
      var tail := Join(parts[1..], "/");
      assert Join(parts, "/") == parts[0] + "/" + tail;
    }
  }

  lemma {:induction false} EndingsAreSuffixes(k: nat)
    requires k < 16
    ensures |ENDINGS| == 33 && |SUFFIXES| == 16
    ensures ENDINGS[k + 1] == SUFFIXES[k] && ENDINGS[k + 17] == "/index" + SUFFIXES[k]
  {
  }

  lemma {:induction false} CandidatesAreThese(base: string, k: nat)
    requires base != "" && base[|base| - 1] != '/'
    ensures |Candidates(base)| == |ENDINGS|
    ensures k < |ENDINGS| ==> Candidates(base)[k] == base + ENDINGS[k]
  {
    hide SUFFIXES, ENDINGS;
    assert JoinPath(base, "index") == base + "/" + "index" by { assert "index"[0] != '/'; }
    EndingsAreSuffixes(0);
    if k == 0 {
      assert Candidates(base)[0] == base;
      assert ENDINGS[0] == "" by { FirstEnding(); }
    } else if k < 17 {
      EndingsAreSuffixes(k - 1);
    } else if k < 33 {
      EndingsAreSuffixes(k - 17);
      assert Candidates(base)[k] == JoinPath(base, "index") + SUFFIXES[k - 17];
      assert "/" + "index" == "/index";
    }
  }

  lemma {:induction false} FirstEnding()
    ensures ENDINGS[0] == ""
  {
  }

  /** What the search over the candidates finds. */
  lemma {:induction false} SearchFinds(place: seq<string>, tracked: set<string>, k: nat)
    requires place != [] && AllPlain(place)
    ensures var found := FirstIn(Candidates(Join(place, "/")), tracked);
            && (found.None? <==> forall j :: 0 <= j < |ENDINGS| ==> Join(place, "/") + ENDINGS[j] !in tracked)
            && (IsTarget(place, k, tracked) ==> found == Some(Join(place, "/") + ENDINGS[k]))
            && (found.Some? ==> exists j :: IsTarget(place, j, tracked))
  {
    hide Candidates, Join, AllPlain, ENDINGS;
    var base := Join(place, "/");
    JoinEndsPlainly(place);
    var all := Candidates(base);
    forall j: nat | j < |ENDINGS| ensures |all| == |ENDINGS| && all[j] == base + ENDINGS[j] {
      CandidatesAreThese(base, j);
    }
    CandidatesAreThese(base, 0);
    var found := FirstIn(all, tracked);
    forall i: nat | IsTarget(place, i, tracked) ensures all[i] in tracked { }
    if found.Some? {
      var j: nat :| j < |all| && all[j] == found.value && forall i :: 0 <= i < j ==> all[i] !in tracked;
      assert IsTarget(place, j, tracked) by {
        forall i | 0 <= i < j ensures base + ENDINGS[i] !in tracked { assert all[i] !in tracked; }
      }
      if IsTarget(place, k, tracked) { OneTarget(place, j, k, tracked); }
    }
  }

  lemma {:induction false} OneTarget(place: seq<string>, j: nat, k: nat, tracked: set<string>)
    requires IsTarget(place, j, tracked) && IsTarget(place, k, tracked)
    ensures j == k
  {
    hide ENDINGS, Join;
  }

  lemma {:induction false} ContainsMeans(s: string)
    ensures Contains(s, "://") <==> exists i :: 0 <= i <= |s| && "://" <= s[i..]
  {
    if "://" <= s {
      assert s[0..] == s;
    } else if s == [] {
      assert forall i :: 0 <= i <= |s| ==> s[i..] == [];
    } else {
      var t := s[1..];
      ContainsMeans(t);
      if Contains(t, "://") {
        var i :| 0 <= i <= |t| && "://" <= t[i..];
        assert s[i + 1..] == t[i..];
      }
      forall i | 0 <= i <= |s| && "://" <= s[i..] ensures Contains(t, "://") {
        assert s[0..] == s;
        assert i > 0;
        assert t[i - 1..] == s[i..];
      }
    }
  }

  /** Every verdict on a specifier, exactly. */
  lemma {:induction false} IssueIsExact(sourcePath: string, s: Specifier, tracked: set<string>, copyable: set<string>)
    requires WEB_PREFIX <= sourcePath
    ensures var issue, local, place := IssueOf(sourcePath, s, tracked, copyable), IsLocal(s.value),
                                       Place(sourcePath, s.value);
            && (issue == None <==> IsClosedImport(sourcePath, s, tracked, copyable))
            && (issue == Some(UnsafeImport) <==>
                  !IsPlainlyWritten(s) || if local then !IsBelowWeb(place) else IsForeign(s.value))
            && (issue == Some(UnresolvedImport) <==>
                  && IsPlainlyWritten(s) && local && IsBelowWeb(place)
                  && forall k :: 0 <= k < |ENDINGS| ==> Join(place.value, "/") + ENDINGS[k] !in tracked)
  {
    hide Walk, NormPath, Split, Join, Candidates, LocalPath, AllPlain, Place, WEB_PREFIX, ENDINGS, Contains, IsTarget;
    LocalPathLeads(sourcePath, s.value);
    ContainsMeans(s.value);
    if IsLocal(s.value) {
      var path, place := LocalPath(sourcePath, s.value).value, Place(sourcePath, s.value);
      GuardMeansBelow(path);
      if IsBelowWeb(place) {
        SearchFinds(place.value, tracked, 0);
        forall k: nat | IsTarget(place.value, k, tracked)
          ensures FirstIn(Candidates(NormPath(path)), tracked) == Some(Join(place.value, "/") + ENDINGS[k])
        {
          SearchFinds(place.value, tracked, k);
        }
      }
    }
  }
}
