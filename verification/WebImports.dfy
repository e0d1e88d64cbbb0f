/** The import closure check of the public export (scripts/export_public_candidate.py): how a
    specifier in an exported web source resolves to a tracked and copyable file. */
module WebImports {
  import opened Text
  import opened PosixPath
  import opened ModuleSpecifiers

  const WEB_PREFIX := "apps/web/"
  const ALIAS_ROOT := "apps/web/src/"

  const SUFFIXES: seq<string> :=
    [".ts", ".tsx", ".d.ts", ".js", ".jsx", ".mjs", ".cjs", ".json",
     ".css", ".svg", ".png", ".jpg", ".jpeg", ".webp", ".woff", ".woff2"]

  datatype Issue = UnsafeImport | UnresolvedImport | NoncopyableImport

  predicate Contains(s: string, part: string) {
    part <= s || (s != [] && Contains(s[1..], part))
  }

  /** The path a local specifier names, before normalisation; nothing for a package. */
  function LocalPath(sourcePath: string, specifier: string): Option<string> {
    if "@/" <= specifier then Some(ALIAS_ROOT + specifier[2..])
    else if "." <= specifier then Some(JoinPath(Dirname(sourcePath), specifier))
    else None
  }

  function WithSuffixes(base: string, suffixes: seq<string>): (r: seq<string>)
    ensures |r| == |suffixes|
    ensures forall i :: 0 <= i < |r| ==> r[i] == base + suffixes[i]
  {
    if suffixes == [] then [] else [base + suffixes[0]] + WithSuffixes(base, suffixes[1..])
  }

  /** The files a resolved path may stand for, in order of preference. */
  function Candidates(base: string): seq<string> {
    [base] + WithSuffixes(base, SUFFIXES) + WithSuffixes(JoinPath(base, "index"), SUFFIXES)
  }

  function FirstIn(candidates: seq<string>, paths: set<string>): (r: Option<string>)
    ensures r.Some? ==> r.value in paths
    ensures r.Some? ==> exists k :: 0 <= k < |candidates| && candidates[k] == r.value
                                    && forall j :: 0 <= j < k ==> candidates[j] !in paths
    ensures r.None? ==> forall i :: 0 <= i < |candidates| ==> candidates[i] !in paths
  {
    if candidates == [] then None
    else if candidates[0] in paths then Some(candidates[0])
    else
      assert candidates == [candidates[0]] + candidates[1..];
      FirstIn(candidates[1..], paths)
  }

  /** What one specifier costs the source that holds it. */
  function IssueOf(sourcePath: string, s: Specifier, tracked: set<string>, copyable: set<string>): Option<Issue> {
    if s.escaped || '\\' in s.value || '\0' in s.value then Some(UnsafeImport)
    else match LocalPath(sourcePath, s.value)
      case None => if "/" <= s.value || "file:" <= s.value || Contains(s.value, "://") then Some(UnsafeImport) else None
      case Some(path) =>
        var base := NormPath(path);
        if base == "apps/web" || !(WEB_PREFIX <= base) then Some(UnsafeImport)
        else match FirstIn(Candidates(base), tracked)
          case None => Some(UnresolvedImport)
          case Some(target) => if target in copyable then None else Some(NoncopyableImport)
  }

  function IssuesOf(sourcePath: string, specifiers: seq<Specifier>, tracked: set<string>,
                    copyable: set<string>): (r: seq<Issue>)
    ensures r == [] <==>
      forall i :: 0 <= i < |specifiers| ==> IssueOf(sourcePath, specifiers[i], tracked, copyable).None?
  {
    if specifiers == [] then []
    else (match IssueOf(sourcePath, specifiers[0], tracked, copyable) case None => [] case Some(x) => [x])
         + IssuesOf(sourcePath, specifiers[1..], tracked, copyable)
  }

  /** `_web_dependency_issues`. */
  method WebDependencyIssues(sourcePath: string, specifiers: seq<Specifier>, tracked: set<string>,
                             copyable: set<string>)
    returns (issues: seq<Issue>)
    ensures issues == IssuesOf(sourcePath, specifiers, tracked, copyable)
  {
    hide NormPath, Candidates, Contains, LocalPath;
    issues := [];
    assert specifiers[0..] == specifiers;
    for i := 0 to |specifiers|
      invariant issues + IssuesOf(sourcePath, specifiers[i..], tracked, copyable)
                == IssuesOf(sourcePath, specifiers, tracked, copyable)
    {
      var s := specifiers[i];
      ghost var rest := IssuesOf(sourcePath, specifiers[i + 1..], tracked, copyable);
      assert specifiers[i..][1..] == specifiers[i + 1..];
      var issue: Option<Issue> := None;
      if s.escaped || '\\' in s.value || '\0' in s.value {
        issue := Some(UnsafeImport);
      } else {
        var path := LocalPath(sourcePath, s.value);
        if path.None? {
          if "/" <= s.value || "file:" <= s.value || Contains(s.value, "://") { issue := Some(UnsafeImport); }
        } else {
          var base := Normalize(path.value);
          if base == "apps/web" || !(WEB_PREFIX <= base) {
            issue := Some(UnsafeImport);
          } else {
            var target := FirstIn(Candidates(base), tracked);
            if target.None? {
              issue := Some(UnresolvedImport);
            } else if target.value !in copyable {
              issue := Some(NoncopyableImport);
            }
          }
        }
      }
      assert issue == IssueOf(sourcePath, s, tracked, copyable);
      if issue.Some? {
        assert (issues + [issue.value]) + rest == issues + ([issue.value] + rest);
        issues := issues + [issue.value];
      } else {
        assert [] + rest == rest;
      }
    }
    assert issues + [] == issues;
  }

  /** Issues are found specifier by specifier, in order. */
  lemma {:induction false} IssuesInOrder(sourcePath: string, a: seq<Specifier>, b: seq<Specifier>, tracked: set<string>,
                                         copyable: set<string>)
    ensures IssuesOf(sourcePath, a + b, tracked, copyable)
            == IssuesOf(sourcePath, a, tracked, copyable) + IssuesOf(sourcePath, b, tracked, copyable)
    ensures forall s :: IssuesOf(sourcePath, [s], tracked, copyable)
                        == match IssueOf(sourcePath, s, tracked, copyable) case None => [] case Some(x) => [x]
  {
    hide IssueOf;
    if a == [] {
      assert a + b == b;
    } else {
      assert (a + b)[1..] == a[1..] + b;
      IssuesInOrder(sourcePath, a[1..], b, tracked, copyable);
    }
  }
}
