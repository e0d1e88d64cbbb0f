/** The assembler's own check of the suppression record (scripts/assemble_release_index.py)
    and its agreement with the collector's verdict. */
module SuppressionAgreement {
  import opened Text
  import opened ScanSuppression

  /** What `_scan_suppression_record` projects from the verdict into the evidence manifest. */
  datatype Record = Record(
    resolvedOn: string, toolName: string, toolVersion: string, declaredToolVersion: string,
    total: int, gatedTotal: int, coveredByRule: map<string, nat>, uncoveredCount: int,
    declaredIds: seq<string>, declaredExpiresOn: string, appliedExpiresOn: string,
    effective: seq<IgnoreRule>, undeclared: seq<IgnoreRule>,
    expired: seq<string>, unjustified: seq<string>, refusals: seq<Refusal>)

  function Project(v: Verdict): Record {
    Record(v.resolvedOn, "grype", if v.observedVersion.Some? then v.observedVersion.value else [], v.declaredVersion,
           v.total, v.gatedTotal, v.coveredByRule, |v.uncovered|,
           v.declaredIds, v.declaredExpiresOn, v.appliedExpiresOn,
           v.effective, v.undeclared, v.expired, v.unjustified, v.refusals)
  }

  /** The rule a dictionary keyed by id keeps: the last one with that id. */
  predicate Kept(rules: seq<Rule>, i: nat)
    requires i < |rules|
  {
    forall j :: i < j < |rules| ==> rules[j].id != rules[i].id
  }

  predicate NamesAKeptRule(rules: seq<Rule>, entry: IgnoreRule) {
    exists i :: 0 <= i < |rules| && Kept(rules, i) && RawKey(rules[i]) == entry
  }

  /** The date on which the declaration lapses for this image. */
  function BindingExpiry(r: Record): string {
    if r.appliedExpiresOn != [] then r.appliedExpiresOn else r.declaredExpiresOn
  }

  /** The record declares the contract's rules, all justified, and nothing else was in effect. */
  ghost predicate RulesAreTheContracts(r: Record, c: Contract) {
    && r.declaredIds == Sorted(Ids(c.rules))
    && (forall i :: 0 <= i < |c.rules| && Kept(c.rules, i) ==> Justified(c.rules[i]))
    && (forall i :: 0 <= i < |r.effective| ==> NamesAKeptRule(c.rules, r.effective[i]))
  }

  predicate NothingReported(r: Record, listed: seq<Match>) {
    && r.undeclared == [] && r.expired == [] && r.unjustified == [] && r.refusals == []
    && listed == [] && r.uncoveredCount == 0
  }

  predicate ScannerIsPinned(r: Record, pinned: string) {
    r.toolName == "grype" && r.toolVersion == pinned && r.declaredToolVersion == pinned
  }

  /** The coverage counts name declared rules and account for every gated finding. */
  ghost predicate CoverageAccounts(r: Record, c: Contract) {
    && 0 <= r.gatedTotal <= r.total
    && (forall id :: id in r.coveredByRule ==> IsRuleId(id) && id in Ids(c.rules) && r.coveredByRule[id] > 0)
    && Sum(r.coveredByRule) == r.gatedTotal
  }

  predicate NotLapsed(r: Record, evaluatedOn: string) {
    && IsDate(r.declaredExpiresOn) && (r.appliedExpiresOn == [] || IsDate(r.appliedExpiresOn)) && IsDate(evaluatedOn)
    && Le(r.resolvedOn, BindingExpiry(r)) && Le(evaluatedOn, BindingExpiry(r))
  }

  /** Every condition of `_require_declared_suppression` on a record bound to contract c. */
  ghost predicate AssemblerAccepts(r: Record, listed: seq<Match>, evaluatedOn: string, c: Contract, pinned: string) {
    && RulesAreTheContracts(r, c)
    && NothingReported(r, listed)
    && ScannerIsPinned(r, pinned)
    && CoverageAccounts(r, c)
    && NotLapsed(r, evaluatedOn)
  }

  datatype SignedFacts = SignedFacts(total: int, gatedTotal: int, appliedRuleIds: seq<string>,
                                     evaluatedOn: string, expiresOn: string)

  /** `_require_declared_suppression`: the facts the release signs, or a refusal. */
  method RequireDeclaredSuppression(r: Record, listed: seq<Match>, evaluatedOn: string, c: Contract, pinned: string)
    returns (facts: Option<SignedFacts>)
    ensures facts.Some? <==> AssemblerAccepts(r, listed, evaluatedOn, c, pinned)
    ensures facts.Some? ==>
      facts.value == SignedFacts(r.total, r.gatedTotal, Sorted(r.coveredByRule.Keys), evaluatedOn, BindingExpiry(r))
  {
    hide Sorted, Ids, Justified, NamesAKeptRule, IsRuleId, IsDate, Le, Sum;
    if r.declaredIds != Sorted(Ids(c.rules)) { return None; }
    if exists i :: 0 <= i < |c.rules| && Kept(c.rules, i) && !Justified(c.rules[i]) { return None; }
    for n := 0 to |r.effective|
      invariant forall i :: 0 <= i < n ==> NamesAKeptRule(c.rules, r.effective[i])
    {
      if !NamesAKeptRule(c.rules, r.effective[n]) { return None; }
    }
    if r.undeclared != [] || r.expired != [] || r.unjustified != [] || r.refusals != [] { return None; }
    if listed != [] || r.uncoveredCount != 0 { return None; }
    if r.toolName != "grype" || r.toolVersion != pinned || r.declaredToolVersion != pinned { return None; }
    if !(0 <= r.gatedTotal <= r.total) { return None; }
    if exists id :: id in r.coveredByRule && !(IsRuleId(id) && id in Ids(c.rules)) { return None; }
    if exists id :: id in r.coveredByRule && r.coveredByRule[id] <= 0 { return None; }
    var total := SumValues(r.coveredByRule);
    if total != r.gatedTotal { return None; }
    if !IsDate(r.declaredExpiresOn) || !IsDate(evaluatedOn) { return None; }
    if !(r.appliedExpiresOn == [] || IsDate(r.appliedExpiresOn)) { return None; }
    var expiresOn := if r.appliedExpiresOn != [] then r.appliedExpiresOn else r.declaredExpiresOn;
    if !Le(r.resolvedOn, expiresOn) || !Le(evaluatedOn, expiresOn) { return None; }
    facts := Some(SignedFacts(r.total, r.gatedTotal, Sorted(r.coveredByRule.Keys), evaluatedOn, expiresOn));
  }

  /** `sum(covered.values())`. */
  method SumValues(counts: map<string, nat>) returns (total: nat)
    ensures total == Sum(counts)
  {
    var rest := counts;
    total := 0;
    while rest != map[]
      invariant total + Sum(rest) == Sum(counts)
      decreases |rest|
    {
      var k :| k in rest;
      SumRemove(rest, k);
      total := total + rest[k];
      assert k !in rest - {k} && |rest - {k}| < |rest| by { assert (rest - {k}).Keys == rest.Keys - {k}; }
      rest := rest - {k};
    }
  }

  // ---------- agreement ----------

  /** The expression of a rule matches some package name. */
  ghost predicate MatchesSome(rule: Rule, patterns: Patterns) {
    exists text :: patterns(Key(rule).package, text)
  }

  /** A rule that can cover a finding and still bind a contract that has not lapsed. */
  ghost predicate MayCover(c: Contract, i: nat, patterns: Patterns)
    requires i < |c.rules|
  {
    MatchesSome(c.rules[i], patterns) && Le(c.resolvedOn, Strip(c.rules[i].expiresOn))
  }

  /** Written without surrounding white space where the two checkers read it differently: the
      pinned version, what identifies a rule, and the ids of the rules that may cover. */
  ghost predicate WellWritten(c: Contract, pinned: string, patterns: Patterns) {
    && Trimmed(pinned)
    && (forall i :: 0 <= i < |c.rules| ==> RawKey(c.rules[i]) == Key(c.rules[i]))
    && (forall i :: 0 <= i < |c.rules| && MayCover(c, i, patterns) ==> Trimmed(c.rules[i].id))
  }

  /** The collector finds nothing to refuse, no declared rule has expired, and the binding
      expiry is not before the day the contract was resolved. */
  predicate Clean(v: Verdict) {
    v.refusals == [] && v.expired == [] && Le(v.resolvedOn, BindingExpiry(Project(v)))
  }

  /** Rule i, applied as entry k, explains the finding m. */
  ghost predicate Explains(rules: seq<Rule>, i: nat, k: nat, m: Match, today: string, patterns: Patterns)
    requires i < |rules| && k < |m.applied|
  {
    && RuleFor(rules, m.applied[k]) == Some(rules[i]) && Key(rules[i]) == m.applied[k]
    && Unexpired(rules[i], today)
    && (m.matchTypes == [] || m.applied[k].matchType in m.matchTypes)
    && patterns(m.applied[k].package, m.package)
  }

  lemma {:induction false} CoveringIdExplains(rules: seq<Rule>, from: nat, m: Match, today: string, patterns: Patterns)
    returns (i: nat, k: nat)
    requires from <= |m.applied|
    requires CoveringId(rules, m.applied[from..], m, today, patterns).Some?
    ensures i < |rules| && k < |m.applied| && Explains(rules, i, k, m, today, patterns)
    ensures CoveringId(rules, m.applied[from..], m, today, patterns) == Some(rules[i].id)
    decreases |m.applied| - from
  {
    hide RuleFor, Unexpired, Key, UnjustifiedIds;
    assert from < |m.applied|;
    assert m.applied[from..][0] == m.applied[from] && m.applied[from..][1..] == m.applied[from + 1..];
    if Qualifies(rules, m.applied[from], m, today, patterns) {
      var rule := RuleFor(rules, m.applied[from]).value;
      i :| 0 <= i < |rules| && rules[i] == rule;
      k := from;
    } else {
      i, k := CoveringIdExplains(rules, from + 1, m, today, patterns);
    }
  }

  /** The id a rule covered under is its own, and its expression matched. */
  lemma {:induction false} TalliedIdsAreDeclared(rules: seq<Rule>, ms: seq<Match>, today: string, patterns: Patterns,
                                                 id: string)
    requires id in CoveringIds(rules, ms, today, patterns)
    ensures exists i :: 0 <= i < |rules| && rules[i].id == id && MatchesSome(rules[i], patterns)
  {
    hide Qualifies, CoveringId, Uncovered;
    var m := ms[0];
    var first := CoveringId(rules, m.applied, m, today, patterns);
    if first == Some(id) {
      assert m.applied[0..] == m.applied;
      var i, k := CoveringIdExplains(rules, 0, m, today, patterns);
      assert rules[i].id == id && MatchesSome(rules[i], patterns);
    } else {
      TalliedIdsAreDeclared(rules, ms[1..], today, patterns, id);
    }
  }

  lemma {:induction false} UnexpiredRulesBindLater(rules: seq<Rule>, today: string)
    requires rules != []
    requires forall i :: 0 <= i < |rules| ==> Unexpired(rules[i], today)
    ensures var expiry := Earliest(Expiries(rules)); IsDate(expiry) && Le(today, expiry)
  {
  }

  lemma EveryRuleIsKept(c: Contract, compiles: set<string>, i: nat)
    requires Accepted(c, compiles) && i < |c.rules|
    ensures Kept(c.rules, i) && Justified(c.rules[i]) && (Trimmed(c.rules[i].id) ==> IsRuleId(c.rules[i].id))
    ensures forall j :: 0 <= j < |c.rules| && c.rules[j].id == c.rules[i].id ==> j == i
  {
    hide IsDate, IsVersion, IsRuleId;
    assert UsableRule(c.rules[i], compiles);
  }

  /** Every id with coverage belongs to a rule that may cover, when nothing has lapsed. */
  lemma CoveredIdsMayCover(c: Contract, compiles: set<string>, ids: seq<string>, gated: seq<Match>, today: string,
                           patterns: Patterns,
                           id: string) returns (i: nat)
    requires Accepted(c, compiles) && ids == CoveringIds(c.rules, gated, today, patterns) && id in ids
    requires Le(c.resolvedOn, Earliest(Expiries(Applied(c.rules, Tally(ids).Keys))))
    ensures i < |c.rules| && c.rules[i].id == id && MayCover(c, i, patterns)
  {
    hide Tally, CoveringIds, Le, Expiries, Earliest, MatchesSome, Accepted, Strip;
    TalliedIdsAreDeclared(c.rules, gated, today, patterns, id);
    i :| 0 <= i < |c.rules| && c.rules[i].id == id && MatchesSome(c.rules[i], patterns);
    var applied := Applied(c.rules, Tally(ids).Keys);
    assert c.rules[i] in applied;
    var n :| 0 <= n < |applied| && applied[n] == c.rules[i];
    assert UsableRule(applied[n], compiles) by { RulesAreUsable(c, compiles, i); }
    ExpiryIsListed(applied, compiles, n);
    LeTransitive(c.resolvedOn, Earliest(Expiries(applied)), Strip(c.rules[i].expiresOn));
  }

  lemma RulesAreUsable(c: Contract, compiles: set<string>, i: nat)
    requires Accepted(c, compiles) && i < |c.rules|
    ensures UsableRule(c.rules[i], compiles)
  {
  }

  lemma {:induction false} ExpiryIsListed(rules: seq<Rule>, compiles: set<string>, n: nat)
    requires n < |rules| && UsableRule(rules[n], compiles)
    ensures Le(Earliest(Expiries(rules)), Strip(rules[n].expiresOn))
  {
    hide Earliest, Expiries, Strip, IsDate, Le;
    assert Strip(rules[n].expiresOn) in Expiries(rules);
    EarliestIsLeast(Expiries(rules), Strip(rules[n].expiresOn));
  }

  lemma {:induction false} EffectiveRulesAreKept(c: Contract, compiles: set<string>, effective: seq<IgnoreRule>)
    requires Accepted(c, compiles) && forall i :: 0 <= i < |c.rules| ==> RawKey(c.rules[i]) == Key(c.rules[i])
    requires Undeclared(effective, c.rules) == []
    ensures forall i :: 0 <= i < |effective| ==> NamesAKeptRule(c.rules, effective[i])
  {
    hide Accepted, Key, RawKey, Undeclared, Kept;
    forall i | 0 <= i < |effective| ensures NamesAKeptRule(c.rules, effective[i]) {
      var rule := RuleFor(c.rules, effective[i]).value;
      var n :| 0 <= n < |c.rules| && c.rules[n] == rule;
      EveryRuleIsKept(c, compiles, n);
    }
  }

  lemma {:induction false} BindingExpiryIsUsable(rules: seq<Rule>, ids: seq<string>, today: string)
    requires rules != [] && ExpiredIds(rules, today) == []
    requires forall id :: id in ids ==> id in Ids(rules)
    ensures var declared, applied := Earliest(Expiries(rules)), Earliest(Expiries(Applied(rules, Tally(ids).Keys)));
            && IsDate(declared) && (applied == [] || IsDate(applied))
            && Le(today, if applied != [] then applied else declared)
  {
    hide IsDate, Le, Strip, Tally, Expiries, Earliest, ExpiredIds, Unexpired;
    UnexpiredRulesBindLater(rules, today);
    var applied := Applied(rules, Tally(ids).Keys);
    if applied == [] {
      assert Earliest(Expiries(applied)) == [] by { NoExpiry(); }
    } else {
      forall i | 0 <= i < |applied| ensures Unexpired(applied[i], today) {
        assert applied[i] in rules;
      }
      UnexpiredRulesBindLater(applied, today);
    }
  }

  lemma NoExpiry()
    ensures Earliest(Expiries([])) == []
  {
  }

  lemma AcceptedDeclaresSomething(c: Contract, compiles: set<string>)
    requires Accepted(c, compiles)
    ensures c.rules != [] && Strip(c.toolVersion) != [] && IsDate(c.resolvedOn)
  {
    NoVersionIsEmpty();
  }

  lemma NoVersionIsEmpty()
    ensures !IsVersion([])
  {
    assert Split([], '.')[0] == [];
  }

  lemma CleanRulesMatch(v: Verdict, scan: Suppressed, c: Contract, compiles: set<string>, threshold: int, today: string,
                        pinned: string, patterns: Patterns)
    requires Accepted(c, compiles) && WellWritten(c, pinned, patterns)
    requires v == Judge(scan, Some(c), threshold, today, pinned, patterns) && v.refusals == []
    ensures RulesAreTheContracts(Project(v), c)
  {
    hide Accepted, Sorted, Ids, Justified, NamesAKeptRule, Kept, MayCover, Judge, RawKey, Key;
    JudgeListsTheRules(scan, c, threshold, today, pinned, patterns);
    EffectiveRulesAreKept(c, compiles, scan.effective);
    forall i | 0 <= i < |c.rules| ensures Justified(c.rules[i]) { EveryRuleIsKept(c, compiles, i); }
  }

  lemma JudgeListsTheRules(scan: Suppressed, c: Contract, threshold: int, today: string, pinned: string,
                           patterns: Patterns)
    ensures var v := Judge(scan, Some(c), threshold, today, pinned, patterns);
            && v.effective == scan.effective && v.declaredIds == Sorted(Ids(c.rules))
            && (v.refusals == [] ==> Undeclared(scan.effective, c.rules) == [])
  {
    hide Tally, Expiries, Earliest, ExpiredIds, Applied, Sorted, Ids, Gated, CoveringIds, Uncovered, Undeclared,
         UnjustifiedIds, Strip;
  }

  lemma CleanCoverageAccounts(v: Verdict, scan: Suppressed, c: Contract, compiles: set<string>, threshold: int,
                              today: string,
                              pinned: string, patterns: Patterns)
    requires Accepted(c, compiles) && WellWritten(c, pinned, patterns)
    requires v == Judge(scan, Some(c), threshold, today, pinned, patterns) && Clean(v)
    ensures CoverageAccounts(Project(v), c)
  {
    hide Accepted, Tally, Expiries, Earliest, ExpiredIds, Applied, Sorted, Sum, Gated, CoveringIds, Uncovered, Le,
         Undeclared, UnjustifiedIds, Strip, IsRuleId, WellWritten, Ids;
    var gated := Gated(scan.ignored, threshold);
    var ids := CoveringIds(c.rules, gated, today, patterns);
    TallyConserves(ids);
    forall id | id in v.coveredByRule ensures IsRuleId(id) && id in Ids(c.rules) && v.coveredByRule[id] > 0 {
      assert id in ids;
      AppliedExpiryBinds(c, compiles, ids, gated, today, patterns, id);
      CoveredIdIsDeclared(c, compiles, ids, gated, today, pinned, patterns, id);
    }
  }

  lemma {:induction false} CoveredIdIsDeclared(c: Contract, compiles: set<string>, ids: seq<string>, gated: seq<Match>,
                                               today: string, pinned: string,
                            patterns: Patterns, id: string)
    requires Accepted(c, compiles) && WellWritten(c, pinned, patterns)
    requires ids == CoveringIds(c.rules, gated, today, patterns) && id in ids
    requires Le(c.resolvedOn, Earliest(Expiries(Applied(c.rules, Tally(ids).Keys))))
    ensures IsRuleId(id) && id in Ids(c.rules)
  {
    hide Accepted, Tally, Expiries, Earliest, Applied, CoveringIds, Le, Strip, IsRuleId, MayCover, Trimmed, Kept,
         Justified, Key, RawKey;
    var i := CoveredIdsMayCover(c, compiles, ids, gated, today, patterns, id);
    EveryRuleIsKept(c, compiles, i);
    assert c.rules[i] in c.rules;
  }

  /** Once something is covered, the applied expiry is a date, so it is the binding one. */
  lemma {:induction false} AppliedExpiryBinds(c: Contract, compiles: set<string>, ids: seq<string>, gated: seq<Match>,
                                              today: string,
                           patterns: Patterns, id: string)
    requires Accepted(c, compiles) && ids == CoveringIds(c.rules, gated, today, patterns) && id in ids
    ensures Earliest(Expiries(Applied(c.rules, Tally(ids).Keys))) != []
  {
    hide Tally, CoveringIds, Expiries, Earliest, MatchesSome, Accepted, Strip;
    TalliedIdsAreDeclared(c.rules, gated, today, patterns, id);
    var i :| 0 <= i < |c.rules| && c.rules[i].id == id && MatchesSome(c.rules[i], patterns);
    var applied := Applied(c.rules, Tally(ids).Keys);
    assert c.rules[i] in applied;
    var n :| 0 <= n < |applied| && applied[n] == c.rules[i];
    RulesAreUsable(c, compiles, i);
    assert Strip(applied[n].expiresOn) in Expiries(applied);
    assert IsDate(Earliest(Expiries(applied)));
  }

  lemma CleanHasNotLapsed(v: Verdict, scan: Suppressed, c: Contract, compiles: set<string>, threshold: int,
                          today: string,
                          pinned: string, patterns: Patterns)
    requires Accepted(c, compiles) && IsDate(today)
    requires v == Judge(scan, Some(c), threshold, today, pinned, patterns) && Clean(v)
    ensures NotLapsed(Project(v), today)
  {
    hide Accepted, Tally, Expiries, Earliest, ExpiredIds, Applied, Sorted, Gated, CoveringIds, Uncovered, Undeclared,
         UnjustifiedIds, Strip, IsRuleId, IsDate, Le, Refusals, MatchesSome;
    AcceptedDeclaresSomething(c, compiles);
    var gated := Gated(scan.ignored, threshold);
    var ids := CoveringIds(c.rules, gated, today, patterns);
    forall id | id in ids ensures id in Ids(c.rules) {
      TalliedIdsAreDeclared(c.rules, gated, today, patterns, id);
      var i :| 0 <= i < |c.rules| && c.rules[i].id == id && MatchesSome(c.rules[i], patterns);
      assert c.rules[i] in c.rules;
    }
    BindingExpiryIsUsable(c.rules, ids, today);
  }

  /** Two-checker agreement: for an accepted contract, where what the checkers read differently
      is written without surrounding white space, the assembler accepts the projected record if
      and only if the collector's verdict is clean. The collector trims the pinned version, the
      assembler compares it as it stands. */
  lemma CheckersAgree(scan: Suppressed, c: Contract, compiles: set<string>, threshold: int, today: string,
                      pinned: string, patterns: Patterns)
    requires Accepted(c, compiles) && WellWritten(c, pinned, patterns) && IsDate(today)
    ensures var v := Judge(scan, Some(c), threshold, today, pinned, patterns);
            AssemblerAccepts(Project(v), v.uncovered, today, c, pinned) <==> Clean(v)
  {
    hide AssemblerAccepts, WellWritten, Judge, Clean;
    var v := Judge(scan, Some(c), threshold, today, pinned, patterns);
    if AssemblerAccepts(Project(v), v.uncovered, today, c, pinned) { AcceptedIsClean(v, c, today, pinned); }
    if Clean(v) { CleanIsAccepted(v, scan, c, compiles, threshold, today, pinned, patterns); }
  }

  /** Whatever the contract, an accepted record comes from a clean verdict. */
  lemma AcceptedIsClean(v: Verdict, c: Contract, today: string, pinned: string)
    requires AssemblerAccepts(Project(v), v.uncovered, today, c, pinned)
    ensures Clean(v)
  {
    hide RulesAreTheContracts, CoverageAccounts, ScannerIsPinned, Le, IsDate;
  }

  lemma CleanIsAccepted(v: Verdict, scan: Suppressed, c: Contract, compiles: set<string>, threshold: int, today: string,
                        pinned: string, patterns: Patterns)
    requires Accepted(c, compiles) && WellWritten(c, pinned, patterns) && IsDate(today)
    requires v == Judge(scan, Some(c), threshold, today, pinned, patterns) && Clean(v)
    ensures AssemblerAccepts(Project(v), v.uncovered, today, c, pinned)
  {
    hide Accepted, RulesAreTheContracts, CoverageAccounts, NotLapsed, Tally, Expiries, Earliest, MayCover, RawKey, Key,
         ExpiredIds, Applied, Sorted, Ids, Gated, CoveringIds, Uncovered, Undeclared, UnjustifiedIds, IsDate, Le;
    AcceptedDeclaresSomething(c, compiles);
    CleanRulesMatch(v, scan, c, compiles, threshold, today, pinned, patterns);
    CleanCoverageAccounts(v, scan, c, compiles, threshold, today, pinned, patterns);
    CleanHasNotLapsed(v, scan, c, compiles, threshold, today, pinned, patterns);
  }

  /** What acceptance means: every suppressed finding at or above the threshold was filtered
      by a rule that the contract declares, justifies and has not let expire. */
  lemma AcceptanceExplainsEveryFinding(scan: Suppressed, c: Contract, compiles: set<string>, threshold: int,
                                       today: string,
                                       pinned: string, patterns: Patterns, n: nat)
    requires Accepted(c, compiles) && n < |scan.ignored| && Severity(scan.ignored[n].severity) >= threshold
    requires var v := Judge(scan, Some(c), threshold, today, pinned, patterns);
             AssemblerAccepts(Project(v), v.uncovered, today, c, pinned)
    ensures exists i, k :: 0 <= i < |c.rules| && 0 <= k < |scan.ignored[n].applied|
              && Justified(c.rules[i]) && Explains(c.rules, i, k, scan.ignored[n], today, patterns)
  {
    hide Accepted, Explains, Severity, CoveringId, Justified, AssemblerAccepts, Judge;
    var m := scan.ignored[n];
    AcceptedLeavesNothing(scan, c, threshold, today, pinned, patterns, m);
    assert m.applied[0..] == m.applied;
    var i, k := CoveringIdExplains(c.rules, 0, m, today, patterns);
    EveryRuleIsKept(c, compiles, i);
  }

  lemma {:induction false} AcceptedLeavesNothing(scan: Suppressed, c: Contract, threshold: int, today: string,
                                                 pinned: string, patterns: Patterns, m: Match)
    requires m in scan.ignored && Severity(m.severity) >= threshold
    requires var v := Judge(scan, Some(c), threshold, today, pinned, patterns);
             AssemblerAccepts(Project(v), v.uncovered, today, c, pinned)
    ensures CoveringId(c.rules, m.applied, m, today, patterns).Some?
  {
    hide Tally, Expiries, Earliest, ExpiredIds, Applied, Sorted, Ids, CoveringId, CoveringIds, Refusals, Severity,
         Gated, Uncovered, Undeclared, UnjustifiedIds, Strip, RulesAreTheContracts, CoverageAccounts, NotLapsed,
         ScannerIsPinned;
    var gated := Gated(scan.ignored, threshold);
    assert m in gated;
    var g :| 0 <= g < |gated| && gated[g] == m;
    assert Uncovered(c.rules, gated, today, patterns) == [];
  }
}
