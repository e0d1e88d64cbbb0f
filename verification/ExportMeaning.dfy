/** What an exported candidate is (scripts/export_public_candidate.py), spelled out on the tree, the
    policy and the bytes. */
module ExportMeaning {
  import opened Text
  import opened JavaScriptLexer
  import opened ModuleSpecifiers
  import opened WebImports
  import opened ImportClosure
  import opened ExportPolicy
  import opened ExportCandidate

  // ---------- classification ----------

  predicate IsSelected(rule: Rule, path: string) {
    path in rule.paths || exists p :: p in rule.prefixes && p <= path
  }

  /** The k-th rule selects the path, and no other does. */
  ghost predicate IsOnlyMatch(rules: seq<Rule>, k: nat, path: string) {
    && k < |rules| && IsSelected(rules[k], path)
    && forall j :: 0 <= j < |rules| && j != k ==> !IsSelected(rules[j], path)
  }

  /** The rule a path falls under: the only one that selects it, or the default when none does. */
  ghost predicate FallsUnder(policy: Policy, path: string, r: Rule) {
    || (exists k: nat :: k < |policy.rules| && IsOnlyMatch(policy.rules, k, path) && policy.rules[k] == r)
    || (r == policy.default && forall k :: 0 <= k < |policy.rules| ==> !IsSelected(policy.rules[k], path))
  }

  lemma {:induction false} SelectedMeans(rule: Rule, path: string)
    ensures Selects(rule, path) <==> IsSelected(rule, path)
  {
    if i :| 0 <= i < |rule.prefixes| && rule.prefixes[i] <= path { assert rule.prefixes[i] in rule.prefixes; }
    if p :| p in rule.prefixes && p <= path { var i :| 0 <= i < |rule.prefixes| && rule.prefixes[i] == p; }
  }

  lemma {:induction false} MatchesMean(rules: seq<Rule>, path: string)
    ensures var found := Matches(rules, path);
            && (found == [] <==> forall k :: 0 <= k < |rules| ==> !IsSelected(rules[k], path))
            && (|found| == 1 <==> exists k: nat :: IsOnlyMatch(rules, k, path))
            && (|found| == 1 ==> exists k: nat :: k < |rules| && IsOnlyMatch(rules, k, path) && rules[k] == found[0])
  {
    hide Selects, IsSelected;
    if rules != [] {
      var rest := rules[1..];
      MatchesMean(rest, path);
      SelectedMeans(rules[0], path);
      assert rules == [rules[0]] + rest;
      if IsSelected(rules[0], path) {
        assert IsOnlyMatch(rules, 0, path) <==> Matches(rest, path) == [] by {
          assert forall j :: 1 <= j < |rules| ==> rules[j] == rest[j - 1];
          assert forall j :: 0 <= j < |rest| ==> rest[j] == rules[j + 1];
        }
        forall k: nat | IsOnlyMatch(rules, k, path) ensures k == 0 { }
      } else {
        forall k: nat ensures IsOnlyMatch(rest, k, path) <==> IsOnlyMatch(rules, k + 1, path) {
          assert forall j :: 1 <= j < |rules| ==> rules[j] == rest[j - 1];
          assert forall j :: 0 <= j < |rest| ==> rest[j] == rules[j + 1];
        }
        forall k: nat | IsOnlyMatch(rules, k, path) ensures k > 0 && IsOnlyMatch(rest, k - 1, path) {
          assert IsOnlyMatch(rest, k - 1, path) <==> IsOnlyMatch(rules, k - 1 + 1, path);
        }
        if k: nat :| k < |rest| && IsOnlyMatch(rest, k, path) && Matches(rest, path) == [rest[k]] {
          assert rules[k + 1] == rest[k];
        }
      }
    }
  }

  lemma {:induction false} OneOnlyMatch(rules: seq<Rule>, j: nat, k: nat, path: string)
    requires IsOnlyMatch(rules, j, path) && IsOnlyMatch(rules, k, path)
    ensures j == k
  {
    hide IsSelected;
  }

  /** Classification, exactly; it fails if and only if two rules select the path. */
  lemma {:induction false} ClassifyIsExact(policy: Policy, path: string, r: Rule)
    ensures Classify(policy, path) == Some(r) <==> FallsUnder(policy, path, r)
  {
    hide Matches, IsOnlyMatch, IsSelected;
    MatchesMean(policy.rules, path);
    var found := Matches(policy.rules, path);
    if |found| == 1 {
      var k: nat :| k < |policy.rules| && IsOnlyMatch(policy.rules, k, path) && policy.rules[k] == found[0];
      forall j: nat | IsOnlyMatch(policy.rules, j, path) ensures j == k { OneOnlyMatch(policy.rules, j, k, path); }
    }
  }

  // ---------- one entry ----------

  predicate IsPublicClass(classification: string) {
    classification in {"public-source", "public-documentation", "public-generated", "third-party-reviewed"}
  }

  /** An entry that the policy lets be copied. */
  ghost predicate IsPublic(i: Input, e: Entry) {
    exists r :: FallsUnder(i.policy, e.path, r) && IsPublicClass(r.classification)
  }

  /** A plain file that is classified. */
  ghost predicate IsOrdinary(i: Input, e: Entry) {
    && (e.mode == "100644" || e.mode == "100755") && e.objectType == "blob"
    && exists r :: FallsUnder(i.policy, e.path, r) && r.classification != "unresolved-blocking"
  }

  /** A detector literal occurs somewhere in the bytes. */
  ghost predicate HasLiteral(data: Bytes, detectors: seq<Bytes>) {
    exists d, n :: d in detectors && 0 <= n <= |data| && d <= data[n..]
  }

  /** Text without a zero byte and without control characters other than tab and line ends. */
  predicate IsText(w: World, data: Bytes) {
    && 0 !in data && w.decode(data).Some?
    && forall c :: c in w.decode(data).value ==> ' ' <= c || c == '\t' || c == '\n' || c == '\r'
  }

  const FORBIDDEN_PATHS := {"AGENTS.md", "BACKLOG.md", "HANDOFF_BL_AI_VERTICAL_002.md", "LICENSE_DECISION.md",
                            "STATE.yaml", "WORKLOG.md", "config/public-release-policy.yaml"}

  predicate MayBePublished(path: string) {
    && path !in FORBIDDEN_PATHS
    && !("docs/evidence/" <= path) && !("docs/release/" <= path) && !("evidence/" <= path) && !("release/" <= path)
  }

  predicate IsWebFile(path: string) {
    "apps/web/" <= path
    && exists suffix :: suffix in {".ts", ".tsx", ".js", ".jsx", ".mjs", ".cjs", ".css"} && EndsWith(path, suffix)
  }

  /** The imports of a web source that can be read all lead to public files. */
  ghost predicate ImportsLeadInside(i: Input, e: Entry, tracked: set<string>, public: set<string>) {
    exists text, found ::
      ReadsAs(i, e, text, found) && forall s :: s in found ==> IsClosedImport(e.path, s, tracked, public)
  }

  /** The text of an entry and the specifiers in it, of a style sheet or a script. */
  predicate ReadsAs(i: Input, e: Entry, text: string, found: seq<Specifier>) {
    && i.world.decode(i.world.blob(e.oid)) == Some(text)
    && if EndsWith(e.path, ".css") then found == i.world.css(text) else Specifiers(i.world.letters, text) == Ok(found)
  }

  lemma {:induction false} LiteralMeans(data: Bytes, literal: Bytes)
    ensures Holds(data, literal) <==> exists n :: 0 <= n <= |data| && literal <= data[n..]
  {
    assert data[0..] == data;
    if data == [] {
      assert forall n :: 0 <= n <= |data| ==> data[n..] == data;
    } else {
      var t := data[1..];
      LiteralMeans(t, literal);
      forall n | 0 <= n <= |t| ensures data[n + 1..] == t[n..] { }
      forall n | 1 <= n <= |data| ensures data[n..] == t[n - 1..] { }
    }
  }

  lemma {:induction false} RestrictedMeans(data: Bytes, detectors: seq<Bytes>)
    ensures IsRestricted(data, detectors) <==> HasLiteral(data, detectors)
  {
    hide Holds;
    forall d { LiteralMeans(data, d); }
    if IsRestricted(data, detectors) {
      var k :| 0 <= k < |detectors| && Holds(data, detectors[k]);
      var n :| 0 <= n <= |data| && detectors[k] <= data[n..];
      assert detectors[k] in detectors;
    }
    if HasLiteral(data, detectors) {
      var d, n :| d in detectors && 0 <= n <= |data| && d <= data[n..];
      var k :| 0 <= k < |detectors| && detectors[k] == d;
      assert Holds(data, detectors[k]);
    }
  }

  lemma {:induction false} TextMeans(w: World, data: Bytes)
    ensures TextProblem(w, data).None? <==> IsText(w, data)
  {
    if w.decode(data).Some? {
      var text := w.decode(data).value;
      if forall c :: c in text ==> ' ' <= c || c == '\t' || c == '\n' || c == '\r' {
        forall k | 0 <= k < |text| ensures !IsControl(text[k]) { assert text[k] in text; }
      }
      if forall k :: 0 <= k < |text| ==> !IsControl(text[k]) {
        forall c | c in text ensures ' ' <= c || c == '\t' || c == '\n' || c == '\r' {
          var k :| 0 <= k < |text| && text[k] == c;
        }
      }
    }
  }

  lemma {:induction false} ForbiddenMeans(path: string)
    ensures IsForbidden(path) <==> !MayBePublished(path)
  {
  }

  lemma {:induction false} WebMeans(path: string)
    ensures IsWebSource(path) <==> IsWebFile(path)
  {
    hide EndsWith;
    assert ".ts" in {".ts", ".tsx", ".js", ".jsx", ".mjs", ".cjs", ".css"};
  }

  lemma {:induction false} PublicMeans(i: Input, e: Entry)
    requires Classify(i.policy, e.path).Some?
    ensures CopyableEntry(i, e) <==> IsPublic(i, e)
    ensures IsRegular(e) && RuleOf(i, e).classification != "unresolved-blocking" <==> IsOrdinary(i, e)
  {
    hide FallsUnder, Classify;
    forall r { ClassifyIsExact(i.policy, e.path, r); }
    ClassifyIsExact(i.policy, e.path, RuleOf(i, e));
  }

  // ---------- the verdict ----------

  ghost function PublicPaths(i: Input): set<string> {
    set k | 0 <= k < |i.entries| && IsPublic(i, i.entries[k]) :: i.entries[k].path
  }

  /** Everything that has to hold of one entry. */
  ghost predicate IsFit(i: Input, e: Entry) {
    && IsOrdinary(i, e)
    && (IsPublic(i, e) ==>
          && IsText(i.world, i.world.blob(e.oid)) && !HasLiteral(i.world.blob(e.oid), i.detectors)
          && MayBePublished(e.path)
          && (IsWebFile(e.path) ==> ImportsLeadInside(i, e, TrackedPaths(i.entries), PublicPaths(i))))
  }

  /** A candidate to export: every selector of the policy is used, every entry is fit, some are public,
      the manifest over them is clean, the policy carries no review and the tree held still. */
  ghost predicate IsExportable(i: Input)
    requires Unambiguous(i)
  {
    && (forall r, p :: r in i.policy.rules && p in r.paths ==> exists e :: e in i.entries && e.path == p)
    && (forall r, p :: r in i.policy.rules && p in r.prefixes ==> exists e :: e in i.entries && p <= e.path)
    && (forall k :: 0 <= k < |i.entries| ==> IsFit(i, i.entries[k]))
    && (exists k :: 0 <= k < |i.entries| && IsPublic(i, i.entries[k]))
    && !HasLiteral(i.world.manifest(Copied(i, i.entries)), i.detectors)
    && !i.reviewed && i.stable
  }

  predicate AreClassified(i: Input, entries: seq<Entry>) {
    forall k :: 0 <= k < |entries| ==> Classify(i.policy, entries[k].path).Some?
  }

  /** The payloads come entry by entry, in the order of the tree. */
  lemma {:induction false} PayloadsInOrder(i: Input, a: seq<Entry>, b: seq<Entry>)
    requires AreClassified(i, a) && AreClassified(i, b)
    ensures AreClassified(i, a + b) && Copied(i, a + b) == Copied(i, a) + Copied(i, b)
    decreases |a|
  {
    hide Classify, CopyableEntry;
    assert AreClassified(i, a + b);
    if a == [] {
      assert a + b == b;
    } else {
      assert (a + b)[1..] == a[1..] + b && (a + b)[0] == a[0];
      PayloadsInOrder(i, a[1..], b);
    }
  }

  ghost predicate IsPayload(i: Input, e: Entry, p: Payload) {
    p.entry == e && p.data == i.world.blob(e.oid) && FallsUnder(i.policy, e.path, p.rule) && IsPublic(i, e)
  }

  /** An entry gives one payload, with its rule and its bytes, when it is public, and none otherwise. */
  lemma {:induction false} OnePayload(i: Input, e: Entry)
    requires Classify(i.policy, e.path).Some?
    ensures var ps := Copied(i, [e]); if IsPublic(i, e) then |ps| == 1 && IsPayload(i, e, ps[0]) else ps == []
  {
    hide Classify, FallsUnder, IsPublic;
    assert [e][1..] == [];
    PublicMeans(i, e);
    ClassifyIsExact(i.policy, e.path, RuleOf(i, e));
  }

  lemma {:induction false} PayloadComesFrom(i: Input, entries: seq<Entry>, p: Payload)
    requires AreClassified(i, entries) && p in Copied(i, entries)
    ensures exists k :: 0 <= k < |entries| && IsPayload(i, entries[k], p)
    decreases |entries|
  {
    hide Classify, IsPayload;
    var first, rest := [entries[0]], entries[1..];
    assert entries == first + rest;
    PayloadsInOrder(i, first, rest);
    OnePayload(i, entries[0]);
    if p in Copied(i, first) {
      assert IsPayload(i, entries[0], p);
    } else {
      PayloadComesFrom(i, rest, p);
      var k :| 0 <= k < |rest| && IsPayload(i, rest[k], p);
      assert entries[k + 1] == rest[k];
    }
  }

  lemma {:induction false} PathsAreThese(i: Input)
    requires Unambiguous(i)
    ensures PathsOf(Copied(i, i.entries)) == PublicPaths(i)
    ensures PublicPaths(i) == set k | 0 <= k < |i.entries| && CopyableEntry(i, i.entries[k]) :: i.entries[k].path
  {
    hide Classify, Copied, FallsUnder, CopyableEntry, IsPublic;
    var ps := Copied(i, i.entries);
    forall k | 0 <= k < |i.entries| ensures CopyableEntry(i, i.entries[k]) <==> IsPublic(i, i.entries[k]) {
      PublicMeans(i, i.entries[k]);
    }
    forall path | path in PathsOf(ps) ensures path in PublicPaths(i) {
      var p :| p in ps && p.entry.path == path;
      PayloadComesFrom(i, i.entries, p);
    }
    forall path | path in PublicPaths(i) ensures path in PathsOf(ps) {
      var k :| 0 <= k < |i.entries| && IsPublic(i, i.entries[k]) && i.entries[k].path == path;
      CopiedHolds(i, i.entries, k);
    }
  }

  lemma {:induction false} ImportsMean(i: Input, ps: seq<Payload>, e: Entry, p: Payload)
    requires p.entry == e && p.data == i.world.blob(e.oid) && PathsOf(ps) == PublicPaths(i)
    ensures LocalImportsResolve(i, ps, p) <==> ImportsLeadInside(i, e, TrackedPaths(i.entries), PublicPaths(i))
  {
    hide Specifiers, IsClosedImport, PublicPaths, TrackedPaths;
    var specifiers := SpecifiersOf(i.world, e.path, p.data);
    if LocalImportsResolve(i, ps, p) {
      var text, found := i.world.decode(p.data).value, specifiers.value;
      forall s | s in found ensures IsClosedImport(e.path, s, TrackedPaths(i.entries), PublicPaths(i)) {
        var k :| 0 <= k < |found| && found[k] == s;
      }
      assert ReadsAs(i, e, text, found);
    }
  }

  lemma {:induction false} FitMeans(i: Input, ps: seq<Payload>, e: Entry, p: Payload)
    requires Classify(i.policy, e.path).Some? && PathsOf(ps) == PublicPaths(i)
    requires IsPublic(i, e) ==> IsPayload(i, e, p)
    ensures IsFit(i, e) <==>
      && IsRegular(e) && RuleOf(i, e).classification != "unresolved-blocking"
      && (IsPublic(i, e) ==> IsPublishable(i, p) && (IsWebSource(e.path) ==> LocalImportsResolve(i, ps, p)))
  {
    hide Classify, FallsUnder, IsPublic, TextProblem, IsText, IsRestricted, HasLiteral, IsForbidden, MayBePublished,
         IsWebSource, IsWebFile, LocalImportsResolve, ImportsLeadInside, PublicPaths, TrackedPaths, IsOrdinary;
    PublicMeans(i, e);
    if IsPublic(i, e) {
      TextMeans(i.world, p.data);
      RestrictedMeans(p.data, i.detectors);
      ForbiddenMeans(e.path);
      WebMeans(e.path);
      ImportsMean(i, ps, e, p);
    }
  }

  lemma {:induction false} SelectorsMean(i: Input)
    ensures SelectorsExist(i) <==>
      && (forall r, p :: r in i.policy.rules && p in r.paths ==> exists e :: e in i.entries && e.path == p)
      && (forall r, p :: r in i.policy.rules && p in r.prefixes ==> exists e :: e in i.entries && p <= e.path)
  {
  }

  lemma {:induction false} SealedMeans(i: Input)
    requires Unambiguous(i)
    ensures var ps := Copied(i, i.entries);
            Sealed(i, ps) <==>
              && (forall k :: 0 <= k < |i.entries| ==> IsFit(i, i.entries[k]))
              && !HasLiteral(i.world.manifest(ps), i.detectors)
  {
    hide Classify, Copied, FallsUnder, IsPublic, IsRestricted, HasLiteral, IsFit, IsPublishable, IsWebSource,
         LocalImportsResolve, PublicPaths, CopyableEntry, IsPayload, PathsOf;
    var ps := Copied(i, i.entries);
    PathsAreThese(i);
    RestrictedMeans(i.world.manifest(ps), i.detectors);
    if Sealed(i, ps) {
      forall k | 0 <= k < |i.entries| ensures IsFit(i, i.entries[k]) { SealedIsFit(i, ps, k); }
    }
    if (forall k :: 0 <= k < |i.entries| ==> IsFit(i, i.entries[k])) && !HasLiteral(i.world.manifest(ps), i.detectors) {
      forall k | 0 <= k < |i.entries|
        ensures IsRegular(i.entries[k]) && RuleOf(i, i.entries[k]).classification != "unresolved-blocking"
      {
        FitIsOrdinary(i, i.entries[k]);
      }
      forall n | 0 <= n < |ps|
        ensures IsPublishable(i, ps[n]) && (IsWebSource(ps[n].entry.path) ==> LocalImportsResolve(i, ps, ps[n]))
      {
        FitPayload(i, ps, n);
      }
    }
  }

  lemma {:induction false} FitIsOrdinary(i: Input, e: Entry)
    requires Classify(i.policy, e.path).Some? && IsFit(i, e)
    ensures IsRegular(e) && RuleOf(i, e).classification != "unresolved-blocking"
  {
    hide Classify, FallsUnder, IsPublic, IsOrdinary;
    PublicMeans(i, e);
  }

  lemma {:induction false} FitPayload(i: Input, ps: seq<Payload>, n: nat)
    requires Unambiguous(i) && ps == Copied(i, i.entries) && n < |ps| && PathsOf(ps) == PublicPaths(i)
    requires forall k :: 0 <= k < |i.entries| ==> IsFit(i, i.entries[k])
    ensures IsPublishable(i, ps[n]) && (IsWebSource(ps[n].entry.path) ==> LocalImportsResolve(i, ps, ps[n]))
  {
    hide Classify, Copied, IsPublic, IsFit, IsPublishable, IsWebSource, LocalImportsResolve, PublicPaths, PathsOf,
         FallsUnder;
    assert ps[n] in ps;
    PayloadComesFrom(i, i.entries, ps[n]);
    var k :| 0 <= k < |i.entries| && IsPayload(i, i.entries[k], ps[n]);
    FitMeans(i, ps, i.entries[k], ps[n]);
  }

  lemma {:induction false} SealedIsFit(i: Input, ps: seq<Payload>, k: nat)
    requires Unambiguous(i) && ps == Copied(i, i.entries) && k < |i.entries| && PathsOf(ps) == PublicPaths(i)
    requires Sealed(i, ps)
    ensures IsFit(i, i.entries[k])
  {
    hide Classify, Copied, IsPublic, IsFit, IsPublishable, IsWebSource, LocalImportsResolve, PublicPaths, PathsOf,
         FallsUnder, IsRestricted, CopyableEntry;
    var e := i.entries[k];
    PublicMeans(i, e);
    var p := Payload(e, RuleOf(i, e), i.world.blob(e.oid));
    ClassifyIsExact(i.policy, e.path, RuleOf(i, e));
    if IsPublic(i, e) {
      CopiedHolds(i, i.entries, k);
      var n :| 0 <= n < |ps| && ps[n] == p;
      assert IsPublishable(i, ps[n]);
    }
    FitMeans(i, ps, e, p);
  }

  lemma {:induction false} SomeIsPublic(i: Input)
    requires Unambiguous(i)
    ensures Copied(i, i.entries) != [] <==> exists k :: 0 <= k < |i.entries| && IsPublic(i, i.entries[k])
  {
    hide Classify, Copied, IsPublic, FallsUnder, CopyableEntry;
    var ps := Copied(i, i.entries);
    if ps != [] {
      assert ps[0] in ps;
      PayloadComesFrom(i, i.entries, ps[0]);
    }
    if k :| 0 <= k < |i.entries| && IsPublic(i, i.entries[k]) {
      PublicMeans(i, i.entries[k]);
      CopiedHolds(i, i.entries, k);
    }
  }

  /** The verdict, spelled out: a candidate is exported if and only if it is one to export, and then
      what is exported are its public entries. */
  lemma {:induction false} ExportIsExactly(i: Input)
    requires Unambiguous(i)
    ensures Decide(i) == if IsExportable(i) then Exported(Copied(i, i.entries)) else NotExported
  {
    hide Decide, Classify, Copied, IsPublic, IsFit, SelectorsExist, Sealed, HasLiteral;
    ExportIsExact(i);
    SelectorsMean(i);
    SealedMeans(i);
    SomeIsPublic(i);
  }
}
