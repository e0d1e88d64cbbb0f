/** The public export verdict (scripts/export_public_candidate.py): classification, content and
    import checks over every tracked entry, and the all-or-nothing decision they lead to. */
module ExportCandidate {
  import opened Text
  import opened JavaScriptLexer
  import opened ModuleSpecifiers
  import opened WebImports
  import opened ImportClosure
  import opened ExportPolicy

  type Bytes = seq<bv8>

  datatype Entry = Entry(mode: string, objectType: string, path: string, oid: string)

  /** What the exporter reads from outside: blobs, UTF-8 decoding, the style-sheet import
      finder, the letter tests, and the bytes of a rendered public manifest. */
  datatype World = World(blob: string -> Bytes, decode: Bytes -> Option<string>, css: string -> seq<Specifier>,
                         letters: Letters, manifest: seq<Payload> -> Bytes)

  datatype Payload = Payload(entry: Entry, rule: Rule, data: Bytes)

  datatype Problem = SymlinkEntry | GitlinkEntry | UnexpectedMode | BinaryContent | NonUtf8Content
                   | RestrictedContent | UnresolvedClassification | ForbiddenPublicPath

  // ---------- one entry ----------

  predicate IsCopyable(classification: string) {
    || classification == "public-source" || classification == "public-documentation"
    || classification == "public-generated" || classification == "third-party-reviewed"
  }

  predicate IsForbidden(path: string) {
    || path in {"AGENTS.md", "BACKLOG.md", "HANDOFF_BL_AI_VERTICAL_002.md", "LICENSE_DECISION.md", "STATE.yaml",
                "WORKLOG.md",
                "config/public-release-policy.yaml"}
    || "docs/evidence/" <= path || "docs/release/" <= path || "evidence/" <= path || "release/" <= path
  }

  predicate IsRegular(e: Entry) {
    (e.mode == "100644" || e.mode == "100755") && e.objectType == "blob"
  }

  predicate Holds(data: Bytes, literal: Bytes) {
    literal <= data || (data != [] && Holds(data[1..], literal))
  }

  predicate IsRestricted(data: Bytes, detectors: seq<Bytes>) {
    exists i :: 0 <= i < |detectors| && Holds(data, detectors[i])
  }

  predicate IsControl(c: char) {
    c < ' ' && c != '\t' && c != '\n' && c != '\r'
  }

  function TextProblem(w: World, data: Bytes): Option<Problem> {
    if 0 in data then Some(BinaryContent)
    else match w.decode(data)
      case None => Some(NonUtf8Content)
      case Some(text) => if exists i :: 0 <= i < |text| && IsControl(text[i]) then Some(BinaryContent) else None
  }

  function KindProblems(e: Entry): (r: seq<Problem>)
    ensures r == [] <==> IsRegular(e)
  {
    if e.mode == "120000" then [SymlinkEntry]
    else if e.mode == "160000" || e.objectType == "commit" then [GitlinkEntry]
    else if !IsRegular(e) then [UnexpectedMode]
    else []
  }

  function Problems(w: World, e: Entry, rule: Rule, detectors: seq<Bytes>): (r: seq<Problem>)
    ensures r == [] <==>
      && IsRegular(e) && rule.classification != "unresolved-blocking"
      && (IsCopyable(rule.classification) ==>
            TextProblem(w, w.blob(e.oid)).None? && !IsRestricted(w.blob(e.oid), detectors) && !IsForbidden(e.path))
  {
    var copyable := IsCopyable(rule.classification);
    var data := w.blob(e.oid);
    KindProblems(e)
    + (if IsRegular(e) && copyable && TextProblem(w, data).Some? then [TextProblem(w, data).value] else [])
    + (if IsRegular(e) && copyable && IsRestricted(data, detectors) then [RestrictedContent] else [])
    + (if rule.classification == "unresolved-blocking" then [UnresolvedClassification] else [])
    + (if copyable && IsForbidden(e.path) then [ForbiddenPublicPath] else [])
  }

  // ---------- web sources ----------

  predicate IsWebSource(path: string) {
    WEB_PREFIX <= path
    && (EndsWith(path, ".ts") || EndsWith(path, ".tsx") || EndsWith(path, ".js") || EndsWith(path, ".jsx")
        || EndsWith(path, ".mjs") || EndsWith(path, ".cjs") || EndsWith(path, ".css"))
  }

  /** The specifiers of a source, or nothing when it cannot be decoded or tokenized. */
  function SpecifiersOf(w: World, path: string, data: Bytes): Option<seq<Specifier>> {
    match w.decode(data)
    case None => None
    case Some(text) =>
      if EndsWith(path, ".css") then Some(w.css(text))
      else match Specifiers(w.letters, text)
        case Err(_) => None
        case Ok(found) => Some(found)
  }

  predicate ImportsAreClosed(w: World, path: string, data: Bytes, tracked: set<string>, copyable: set<string>) {
    IsWebSource(path) ==>
      var specifiers := SpecifiersOf(w, path, data);
      specifiers.Some? && IssuesOf(path, specifiers.value, tracked, copyable) == []
  }

  // ---------- the decision ----------

  datatype Outcome = NotExported | Exported(payloads: seq<Payload>)

  /** Everything the verdict depends on. `reviewed` says that the policy carries a review of a
      known source, which always adds an issue; `stable` that the tree did not change. */
  datatype Input = Input(world: World, entries: seq<Entry>, policy: Policy, detectors: seq<Bytes>, reviewed: bool,
                         stable: bool)

  function TrackedPaths(entries: seq<Entry>): set<string> {
    set e | e in entries :: e.path
  }

  predicate SelectorsExist(i: Input) {
    forall r :: r in i.policy.rules ==>
      && (forall p :: p in r.paths ==> p in TrackedPaths(i.entries))
      && (forall p :: p in r.prefixes ==> exists e :: e in i.entries && p <= e.path)
  }

  function RuleOf(i: Input, e: Entry): Rule
    requires Classify(i.policy, e.path).Some?
  {
    Classify(i.policy, e.path).value
  }

  predicate Unambiguous(i: Input) {
    forall k :: 0 <= k < |i.entries| ==> Classify(i.policy, i.entries[k].path).Some?
  }

  /** The payload candidates: copyable entries without a problem, in tree order. */
  function Selected(i: Input, entries: seq<Entry>): seq<Payload>
    requires forall k :: 0 <= k < |entries| ==> Classify(i.policy, entries[k].path).Some?
  {
    if entries == [] then []
    else
      var e, rule := entries[0], RuleOf(i, entries[0]);
      (if IsCopyable(rule.classification) && Problems(i.world, e, rule, i.detectors) == []
       then [Payload(e, rule, i.world.blob(e.oid))] else [])
      + Selected(i, entries[1..])
  }

  function PathsOf(ps: seq<Payload>): set<string> {
    set p | p in ps :: p.entry.path
  }

  /** `export_candidate`: classify and inspect every entry, check the imports of the selected
      web sources against the selected set, and export only if nothing at all was found. */
  method ExportCandidate(i: Input) returns (o: Outcome)
    requires Unambiguous(i)
    ensures o == Decide(i)
  {
    hide Problems, ImportsAreClosed, Classify, Selected, IsCopyable, IsRestricted;
    if !SelectorsExist(i) { return NotExported; }
    var payloads: seq<Payload> := [];
    var blocked := false;
    assert i.entries[0..] == i.entries;
    for k := 0 to |i.entries|
      invariant payloads + Selected(i, i.entries[k..]) == Selected(i, i.entries)
      invariant blocked <==>
        exists n :: 0 <= n < k && Problems(i.world, i.entries[n], RuleOf(i, i.entries[n]), i.detectors) != []
    {
      var e := i.entries[k];
      var rule := RuleOf(i, e);
      SelectedStep(i, i.entries[k..]);
      assert i.entries[k..][1..] == i.entries[k + 1..];
      ghost var rest := Selected(i, i.entries[k + 1..]);
      var found := Problems(i.world, e, rule, i.detectors);
      if found != [] {
        blocked := true;
      } else if IsCopyable(rule.classification) {
        var p := Payload(e, rule, i.world.blob(e.oid));
        AppendFirst(payloads, p, rest);
        payloads := payloads + [p];
      }
    }
    SelectedNothing(i);
    assert i.entries[|i.entries|..] == [] && payloads + [] == payloads;
    var tracked, copyable := TrackedPaths(i.entries), PathsOf(payloads);
    var closed := CheckImports(i.world, payloads, tracked, copyable);
    if blocked || !closed || i.reviewed || payloads == [] { return NotExported; }
    if IsRestricted(i.world.manifest(payloads), i.detectors) || !i.stable { return NotExported; }
    return Exported(payloads);
  }

  /** The loop over the selected web sources; one that cannot be read stops it. */
  method CheckImports(w: World, payloads: seq<Payload>, tracked: set<string>,
                      copyable: set<string>) returns (closed: bool)
    ensures closed <==> forall n :: 0 <= n < |payloads| ==>
      ImportsAreClosed(w, payloads[n].entry.path, payloads[n].data, tracked, copyable)
  {
    hide IssuesOf, SpecifiersOf, IsWebSource;
    closed := true;
    for k := 0 to |payloads|
      invariant closed <==>
        forall n :: 0 <= n < k ==> ImportsAreClosed(w, payloads[n].entry.path, payloads[n].data, tracked, copyable)
    {
      var p := payloads[k];
      if !IsWebSource(p.entry.path) { continue; }
      var specifiers := SpecifiersOf(w, p.entry.path, p.data);
      if specifiers.None? { return false; }
      var issues := WebDependencyIssues(p.entry.path, specifiers.value, tracked, copyable);
      if issues != [] { closed := false; }
    }
  }

  ghost predicate NoProblems(i: Input)
    requires Unambiguous(i)
  {
    forall n :: 0 <= n < |i.entries| ==> Problems(i.world, i.entries[n], RuleOf(i, i.entries[n]), i.detectors) == []
  }

  ghost function Decide(i: Input): Outcome
    requires Unambiguous(i)
  {
    var ps := Selected(i, i.entries);
    if && SelectorsExist(i) && NoProblems(i)
       && (forall n :: 0 <= n < |ps| ==>
             ImportsAreClosed(i.world, ps[n].entry.path, ps[n].data, TrackedPaths(i.entries), PathsOf(ps)))
       && !i.reviewed && ps != [] && !IsRestricted(i.world.manifest(ps), i.detectors) && i.stable
    then Exported(ps) else NotExported
  }

  lemma {:induction false} SelectedStep(i: Input, entries: seq<Entry>)
    requires entries != [] && forall k :: 0 <= k < |entries| ==> Classify(i.policy, entries[k].path).Some?
    ensures var e, rule := entries[0], RuleOf(i, entries[0]);
            Selected(i, entries) ==
              (if IsCopyable(rule.classification) && Problems(i.world, e, rule, i.detectors) == []
               then [Payload(e, rule, i.world.blob(e.oid))] else [])
              + Selected(i, entries[1..])
  {
  }

  lemma {:induction false} SelectedNothing(i: Input)
    ensures Selected(i, []) == []
  {
  }

  // ---------- what an export means ----------

  /** An entry whose own rule lets it be copied. */
  predicate CopyableEntry(i: Input, e: Entry)
    requires Classify(i.policy, e.path).Some?
  {
    IsCopyable(RuleOf(i, e).classification)
  }

  lemma {:induction false} SelectedIsCopyable(i: Input, entries: seq<Entry>)
    requires forall k :: 0 <= k < |entries| ==> Classify(i.policy, entries[k].path).Some?
    requires forall k :: 0 <= k < |entries| ==> Problems(i.world, entries[k], RuleOf(i, entries[k]), i.detectors) == []
    ensures forall p :: p in Selected(i, entries) <==>
              exists k :: 0 <= k < |entries| && CopyableEntry(i, entries[k])
                          && p == Payload(entries[k], RuleOf(i, entries[k]), i.world.blob(entries[k].oid))
  {
    hide Problems, Classify, IsCopyable;
    if entries != [] {
      var tail := entries[1..];
      assert forall k :: 0 <= k < |tail| ==> tail[k] == entries[k + 1];
      SelectedIsCopyable(i, tail);
      var first := Payload(entries[0], RuleOf(i, entries[0]), i.world.blob(entries[0].oid));
      forall p ensures p in Selected(i, entries) <==>
                 exists k :: 0 <= k < |entries| && CopyableEntry(i, entries[k])
                             && p == Payload(entries[k], RuleOf(i, entries[k]), i.world.blob(entries[k].oid))
      {
        if p in Selected(i, tail) {
          var k :| 0 <= k < |tail| && CopyableEntry(i, tail[k])
                   && p == Payload(tail[k], RuleOf(i, tail[k]), i.world.blob(tail[k].oid));
          assert entries[k + 1] == tail[k];
        }
        if k :| 0 <= k < |entries| && CopyableEntry(i, entries[k])
                && p == Payload(entries[k], RuleOf(i, entries[k]), i.world.blob(entries[k].oid)) {
          if k > 0 { assert tail[k - 1] == entries[k]; }
        }
      }
    }
  }

  /** The payloads of the copyable entries, in tree order, whatever their problems. */
  function Copied(i: Input, entries: seq<Entry>): seq<Payload>
    requires forall k :: 0 <= k < |entries| ==> Classify(i.policy, entries[k].path).Some?
  {
    if entries == [] then []
    else (if CopyableEntry(i, entries[0])
          then [Payload(entries[0], RuleOf(i, entries[0]), i.world.blob(entries[0].oid))] else [])
         + Copied(i, entries[1..])
  }

  /** Without problems, everything copyable is selected. */
  lemma {:induction false} SelectedIsCopied(i: Input, entries: seq<Entry>)
    requires forall k :: 0 <= k < |entries| ==> Classify(i.policy, entries[k].path).Some?
    requires forall k :: 0 <= k < |entries| ==> Problems(i.world, entries[k], RuleOf(i, entries[k]), i.detectors) == []
    ensures Selected(i, entries) == Copied(i, entries)
  {
    hide Problems, Classify, IsCopyable;
    if entries != [] { SelectedIsCopied(i, entries[1..]); }
  }

  /** The guarantee of an export, stated without the exporter's loops. */
  ghost predicate Sealed(i: Input, ps: seq<Payload>)
    requires Unambiguous(i)
  {
    // exactly the tracked paths with a copyable classification
    && PathsOf(ps) == (set k | 0 <= k < |i.entries| && CopyableEntry(i, i.entries[k]) :: i.entries[k].path)
    // every tracked entry is a regular file that some rule other than a blocking one classifies
    && (forall k :: 0 <= k < |i.entries| ==>
          IsRegular(i.entries[k]) && RuleOf(i, i.entries[k]).classification != "unresolved-blocking")
    // exported blobs are text on publishable paths; neither they nor the manifest hold a detector literal
    && (forall n :: 0 <= n < |ps| ==> IsPublishable(i, ps[n]))
    && !IsRestricted(i.world.manifest(ps), i.detectors)
    // every local import of an exported web source resolves to an exported file below apps/web
    && (forall n :: 0 <= n < |ps| && IsWebSource(ps[n].entry.path) ==> LocalImportsResolve(i, ps, ps[n]))
  }

  predicate IsPublishable(i: Input, p: Payload) {
    TextProblem(i.world, p.data).None? && !IsRestricted(p.data, i.detectors) && !IsForbidden(p.entry.path)
  }

  /** Every import is written plainly, and is a package or leads to an exported file below apps/web. */
  ghost predicate LocalImportsResolve(i: Input, ps: seq<Payload>, p: Payload) {
    var specifiers := SpecifiersOf(i.world, p.entry.path, p.data);
    && specifiers.Some?
    && forall k :: 0 <= k < |specifiers.value| ==>
         IsClosedImport(p.entry.path, specifiers.value[k], TrackedPaths(i.entries), PathsOf(ps))
  }

  lemma ClosedImportsResolve(i: Input, ps: seq<Payload>, p: Payload)
    requires IsWebSource(p.entry.path)
    ensures ImportsAreClosed(i.world, p.entry.path, p.data, TrackedPaths(i.entries), PathsOf(ps)) <==>
      LocalImportsResolve(i, ps, p)
  {
    hide IssueOf, IssuesOf, IsClosedImport, SpecifiersOf;
    var specifiers := SpecifiersOf(i.world, p.entry.path, p.data);
    if specifiers.Some? {
      forall k | 0 <= k < |specifiers.value|
        ensures IssueOf(p.entry.path, specifiers.value[k], TrackedPaths(i.entries), PathsOf(ps)).None?
           <==> IsClosedImport(p.entry.path, specifiers.value[k], TrackedPaths(i.entries), PathsOf(ps))
      {
        IssueIsExact(p.entry.path, specifiers.value[k], TrackedPaths(i.entries), PathsOf(ps));
      }
    }
  }

  /** All or nothing, and import-closed: whatever the exporter returns with success is sealed, in
      tree order. */
  lemma {:induction false} ExportIsSealed(i: Input)
    requires Unambiguous(i) && Decide(i).Exported?
    ensures Sealed(i, Decide(i).payloads) && Decide(i).payloads == Copied(i, i.entries)
  {
    hide Problems, Classify, IsCopyable, ImportsAreClosed, IsRestricted, IsForbidden, LocalImportsResolve, IsWebSource,
         Selected, TextProblem, SelectorsExist;
    var ps := Decide(i).payloads;
    SelectedIsCopyable(i, i.entries);
    SelectedIsCopied(i, i.entries);
    forall n | 0 <= n < |ps|
      ensures IsPublishable(i, ps[n])
      ensures IsWebSource(ps[n].entry.path) ==> LocalImportsResolve(i, ps, ps[n])
    {
      assert ps[n] in ps;
      var k :| 0 <= k < |i.entries| && CopyableEntry(i, i.entries[k])
               && ps[n] == Payload(i.entries[k], RuleOf(i, i.entries[k]), i.world.blob(i.entries[k].oid));
      assert Problems(i.world, i.entries[k], RuleOf(i, i.entries[k]), i.detectors) == [];
      if IsWebSource(ps[n].entry.path) { ClosedImportsResolve(i, ps, ps[n]); }
    }
    PathsAreTheCopyableOnes(i, ps);
  }

  lemma {:induction false} CopiedHolds(i: Input, entries: seq<Entry>, k: nat)
    requires forall n :: 0 <= n < |entries| ==> Classify(i.policy, entries[n].path).Some?
    requires k < |entries| && CopyableEntry(i, entries[k])
    ensures Payload(entries[k], RuleOf(i, entries[k]), i.world.blob(entries[k].oid)) in Copied(i, entries)
  {
    hide Classify, IsCopyable;
    if k > 0 { CopiedHolds(i, entries[1..], k - 1); }
  }

  /** A sealed set of copyable entries has no problems anywhere. */
  lemma {:induction false} SealedHasNoProblems(i: Input)
    requires Unambiguous(i) && Sealed(i, Copied(i, i.entries))
    ensures NoProblems(i)
  {
    hide Classify, IsCopyable, IsRestricted, IsForbidden, LocalImportsResolve, IsWebSource, TextProblem, Copied,
         KindProblems;
    var ps := Copied(i, i.entries);
    forall k | 0 <= k < |i.entries|
      ensures Problems(i.world, i.entries[k], RuleOf(i, i.entries[k]), i.detectors) == []
    {
      if CopyableEntry(i, i.entries[k]) {
        CopiedHolds(i, i.entries, k);
        var n :| 0 <= n < |ps|
                 && ps[n] == Payload(i.entries[k], RuleOf(i, i.entries[k]), i.world.blob(i.entries[k].oid));
        assert IsPublishable(i, ps[n]);
      }
    }
  }

  /** The verdict, exactly: a candidate is exported if and only if its selectors all exist, it is
      new, stable and not empty, and its copyable entries are sealed. */
  lemma {:induction false} ExportIsExact(i: Input)
    requires Unambiguous(i)
    ensures var ps := Copied(i, i.entries);
            Decide(i) == Exported(ps) <==> SelectorsExist(i) && !i.reviewed && i.stable && ps != [] && Sealed(i, ps)
    ensures Decide(i) == NotExported || Decide(i) == Exported(Copied(i, i.entries))
  {
    hide Problems, Classify, IsCopyable, IsRestricted, LocalImportsResolve, IsWebSource, Selected, Copied,
         SelectorsExist, ImportsAreClosed;
    var ps := Copied(i, i.entries);
    if Decide(i).Exported? { ExportIsSealed(i); }
    if SelectorsExist(i) && !i.reviewed && i.stable && ps != [] && Sealed(i, ps) {
      SealedHasNoProblems(i);
      SelectedIsCopied(i, i.entries);
      forall n | 0 <= n < |ps|
        ensures ImportsAreClosed(i.world, ps[n].entry.path, ps[n].data, TrackedPaths(i.entries), PathsOf(ps))
      {
        ClosedByResolution(i, ps, ps[n]) by {
          if IsWebSource(ps[n].entry.path) { assert LocalImportsResolve(i, ps, ps[n]); }
        }
      }
    }
  }

  lemma ClosedByResolution(i: Input, ps: seq<Payload>, p: Payload)
    requires IsWebSource(p.entry.path) ==> LocalImportsResolve(i, ps, p)
    ensures ImportsAreClosed(i.world, p.entry.path, p.data, TrackedPaths(i.entries), PathsOf(ps))
  {
    hide LocalImportsResolve, IssuesOf, SpecifiersOf, IsWebSource;
    if IsWebSource(p.entry.path) { ClosedImportsResolve(i, ps, p); }
  }

  lemma PathsAreTheCopyableOnes(i: Input, ps: seq<Payload>)
    requires Unambiguous(i)
    requires forall p :: p in ps <==>
               exists k :: 0 <= k < |i.entries| && CopyableEntry(i, i.entries[k])
                           && p == Payload(i.entries[k], RuleOf(i, i.entries[k]), i.world.blob(i.entries[k].oid))
    ensures PathsOf(ps) == (set k | 0 <= k < |i.entries| && CopyableEntry(i, i.entries[k]) :: i.entries[k].path)
  {
    hide Classify, IsCopyable;
    var wanted := set k | 0 <= k < |i.entries| && CopyableEntry(i, i.entries[k]) :: i.entries[k].path;
    forall path | path in wanted ensures path in PathsOf(ps) {
      var k :| 0 <= k < |i.entries| && CopyableEntry(i, i.entries[k]) && i.entries[k].path == path;
      assert Payload(i.entries[k], RuleOf(i, i.entries[k]), i.world.blob(i.entries[k].oid)) in ps;
    }
    forall path | path in PathsOf(ps) ensures path in wanted {
      var p :| p in ps && p.entry.path == path;
    }
  }

  /** With an accepted policy the classification error cannot occur, and a tracked path that
      only the default rule covers always stops the export. */
  lemma DefaultStopsTheExport(i: Input, k: nat)
    requires Clear(Selectors(i.policy.rules)) && i.policy.default.classification == "unresolved-blocking"
    requires k < |i.entries| && Matches(i.policy.rules, i.entries[k].path) == []
    ensures Unambiguous(i) && Decide(i) == NotExported
  {
    hide Problems, Selectors, Matches, SelectorsExist, ImportsAreClosed, Selected, IsRestricted;
    forall n | 0 <= n < |i.entries| ensures Classify(i.policy, i.entries[n].path).Some? {
      AtMostOneMatch(i.policy.rules, i.entries[n].path);
    }
    assert Problems(i.world, i.entries[k], RuleOf(i, i.entries[k]), i.detectors) != [];
  }
}
