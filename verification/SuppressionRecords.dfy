/** Which suppression contracts the collector accepts (scripts/collect_release_evidence.py) and which
    suppression records the assembler (scripts/assemble_release_index.py), for every contract and
    record whatever, in terms of what they say. */
module SuppressionRecords {
  import opened Text
  import opened ScanSuppression
  import opened SuppressionAgreement

  predicate IsDigits(s: string, n: nat) {
    |s| == n && forall i :: 0 <= i < |s| ==> s[i] in "0123456789"
  }

  ghost predicate IsDay(s: string) {
    exists y, m, d :: IsDigits(y, 4) && IsDigits(m, 2) && IsDigits(d, 2) && s == y + "-" + m + "-" + d
  }

  ghost predicate IsNumbered(s: string) {
    exists y, n :: IsDigits(y, 4) && IsDigits(n, 3) && s == "RS-" + y + "-" + n
  }

  lemma DigitsMean(s: string, lo: nat, hi: nat)
    requires lo <= hi <= |s|
    ensures AllDigits(s, lo, hi) <==> IsDigits(s[lo..hi], hi - lo)
  {
    assert forall c: char :: IsDigit(c) <==> c in "0123456789";
    assert forall i :: lo <= i < hi ==> s[i] == s[lo..hi][i - lo];
  }

  lemma DayMeans(s: string)
    ensures IsDate(s) <==> IsDay(s)
  {
    hide AllDigits, IsDigits;
    if |s| == 10 {
      DigitsMean(s, 0, 4);
      DigitsMean(s, 5, 7);
      DigitsMean(s, 8, 10);
    }
    if IsDate(s) { assert s == s[0..4] + "-" + s[5..7] + "-" + s[8..10]; }
    forall y, m, d | IsDigits(y, 4) && IsDigits(m, 2) && IsDigits(d, 2) && s == y + "-" + m + "-" + d
      ensures IsDate(s)
    {
      Widths(y, 4);
      Widths(m, 2);
      Widths(d, 2);
      assert s[0..4] == y && s[5..7] == m && s[8..10] == d;
    }
  }

  lemma Widths(s: string, n: nat)
    requires IsDigits(s, n)
    ensures |s| == n
  {
  }

  lemma NumberedMeans(s: string)
    ensures IsRuleId(s) <==> IsNumbered(s)
  {
    hide AllDigits, IsDigits;
    if |s| == 11 {
      DigitsMean(s, 3, 7);
      DigitsMean(s, 8, 11);
    }
    if IsRuleId(s) { assert s == "RS-" + s[3..7] + "-" + s[8..11]; }
    forall y, n | IsDigits(y, 4) && IsDigits(n, 3) && s == "RS-" + y + "-" + n ensures IsRuleId(s) {
      Widths(y, 4);
      Widths(n, 3);
      assert s[3..7] == y && s[8..11] == n;
    }
  }

  ghost predicate IsDeclared(rules: seq<Rule>, id: string) {
    exists i :: 0 <= i < |rules| && rules[i].id == id
  }

  ghost predicate IsLast(rules: seq<Rule>, i: nat)
    requires i < |rules|
  {
    forall j :: i < j < |rules| ==> rules[j].id != rules[i].id
  }

  /** The rule in effect is one of the contract's, word for word. */
  ghost predicate IsInContract(rules: seq<Rule>, entry: IgnoreRule) {
    exists i :: 0 <= i < |rules| && IsLast(rules, i) && rules[i].package == entry.package
                && rules[i].packageType == entry.packageType && rules[i].matchType == entry.matchType
  }

  function LapsesOn(r: Record): string {
    if r.appliedExpiresOn == "" then r.declaredExpiresOn else r.appliedExpiresOn
  }

  /** A record is accepted exactly when it lists the ids of the contract's rules in order; the last
      rule of each id has a justification of sixteen characters; every rule in effect is one of
      these; nothing is reported against it; the scanner is the pinned one; every count is positive
      and of a declared, numbered rule, and together they are the findings at or above the
      threshold; and the day it lapses on is not before the evaluation nor the resolution. */
  lemma {:induction false} AcceptanceIsExact(r: Record, listed: seq<Match>, evaluatedOn: string, c: Contract,
                                             pinned: string)
    ensures AssemblerAccepts(r, listed, evaluatedOn, c, pinned) <==>
      && Increasing(r.declaredIds) && (forall id :: id in r.declaredIds <==> IsDeclared(c.rules, id))
      && (forall i :: 0 <= i < |c.rules| && IsLast(c.rules, i) ==> |Strip(c.rules[i].justification)| >= 16)
      && (forall k :: 0 <= k < |r.effective| ==> IsInContract(c.rules, r.effective[k]))
      && r.undeclared == [] && r.expired == [] && r.unjustified == [] && r.refusals == []
      && listed == [] && r.uncoveredCount == 0
      && r.toolName == "grype" && r.toolVersion == pinned && r.declaredToolVersion == pinned
      && 0 <= r.gatedTotal <= r.total && Sum(r.coveredByRule) == r.gatedTotal
      && (forall id :: id in r.coveredByRule ==> IsNumbered(id) && IsDeclared(c.rules, id) && r.coveredByRule[id] > 0)
      && IsDay(r.declaredExpiresOn) && IsDay(evaluatedOn) && (r.appliedExpiresOn != "" ==> IsDay(r.appliedExpiresOn))
      && Le(r.resolvedOn, LapsesOn(r)) && Le(evaluatedOn, LapsesOn(r))
  {
    hide IsDate, IsDay, IsRuleId, IsNumbered, Sorted, Increasing, Ids, Strip, Sum, Le, IsDeclared;
    forall s ensures IsDate(s) <==> IsDay(s) { DayMeans(s); }
    forall s ensures IsRuleId(s) <==> IsNumbered(s) { NumberedMeans(s); }
    IdsMean(c.rules);
    OrderedIdsMean(r.declaredIds, Ids(c.rules));
    EffectiveMeans(r.effective, c.rules);
  }

  lemma IdsMean(rules: seq<Rule>)
    ensures forall id :: id in Ids(rules) <==> IsDeclared(rules, id)
  {
    forall id | id in Ids(rules) ensures IsDeclared(rules, id) {
      var rule :| rule in rules && rule.id == id;
      var i :| 0 <= i < |rules| && rules[i] == rule;
    }
  }

  lemma {:induction false} OrderedIdsMean(list: seq<string>, ids: set<string>)
    ensures list == Sorted(ids) <==> Increasing(list) && forall id :: id in list <==> id in ids
  {
    hide Increasing;
    if Increasing(list) && forall id :: id in list <==> id in ids { IncreasingUnique(list, Sorted(ids)); }
  }

  lemma EffectiveMeans(effective: seq<IgnoreRule>, rules: seq<Rule>)
    ensures forall k :: 0 <= k < |effective| ==>
      (NamesAKeptRule(rules, effective[k]) <==> IsInContract(rules, effective[k]))
  {
  }

  // ---------- the contract ----------

  /** Numbers with dots between them. */
  ghost predicate IsPointed(s: string) {
    exists parts :: parts != [] && s == Join(parts, ".")
                    && forall i :: 0 <= i < |parts| ==> |parts[i]| > 0 && IsDigits(parts[i], |parts[i]|)
  }

  lemma PointedMeans(s: string)
    ensures IsVersion(s) <==> IsPointed(s)
  {
    hide Split, Join, AllDigits, IsDigits;
    var parts := Split(s, '.');
    forall i | 0 <= i < |parts| ensures AllDigits(parts[i], 0, |parts[i]|) <==> IsDigits(parts[i], |parts[i]|) {
      DigitsMean(parts[i], 0, |parts[i]|);
      assert parts[i][0..|parts[i]|] == parts[i];
    }
    JoinSplit(s, '.');
    forall words | words != [] && s == Join(words, ".")
                   && forall i :: 0 <= i < |words| ==> |words[i]| > 0 && IsDigits(words[i], |words[i]|)
      ensures IsVersion(s)
    {
      forall i | 0 <= i < |words| ensures '.' !in words[i] { NoDotInDigits(words[i]); }
      SplitOfJoin(words, '.');
    }
  }

  lemma NoDotInDigits(s: string)
    requires IsDigits(s, |s|)
    ensures '.' !in s
  {
  }

  lemma StripMeansBlank(s: string)
    ensures Strip(s) == "" <==> AllSpaces(s)
  {
    var a, b := StripIsExact(s);
    if Strip(s) != "" {
      var t := Strip(s);
      assert !IsSpace(t[0]);
      assert s[|a|] == t[0];
    }
  }

  ghost predicate IsUsable(rule: Rule, compiles: set<string>) {
    && IsNumbered(Strip(rule.id)) && IsDay(Strip(rule.expiresOn)) && |Strip(rule.justification)| >= 16
    && !AllSpaces(rule.matchType) && !AllSpaces(rule.package) && !AllSpaces(rule.packageType)
    && Strip(rule.package) in compiles
  }

  ghost predicate AreApart(r: Rule, s: Rule) {
    && Strip(r.id) != Strip(s.id)
    && ( || Strip(r.package) != Strip(s.package) || Strip(r.packageType) != Strip(s.packageType)
         || Strip(r.matchType) != Strip(s.matchType))
  }

  lemma UsableMeans(rule: Rule, compiles: set<string>)
    ensures UsableRule(rule, compiles) <==> IsUsable(rule, compiles)
  {
    hide IsRuleId, IsNumbered, IsDate, IsDay, AllSpaces, Strip;
    NumberedMeans(Strip(rule.id));
    DayMeans(Strip(rule.expiresOn));
    StripMeansBlank(rule.matchType);
    StripMeansBlank(rule.package);
    StripMeansBlank(rule.packageType);
  }

  /** A contract is accepted exactly when it has a resolution day, a suppression rule, the tool grype
      with a dotted version and a provenance, and one to thirty-two rules, each with a numbered id, an
      expiry day, a justification of sixteen characters, a match type, a package type and a package
      expression that compiles, no two with the same id or the same three of these. */
  lemma ContractIsExact(c: Contract, compiles: set<string>)
    ensures Accepted(c, compiles) <==>
      && IsDay(c.resolvedOn) && !AllSpaces(c.suppressionRule) && !AllSpaces(c.provenance)
      && Strip(c.toolName) == "grype" && IsPointed(Strip(c.toolVersion)) && 1 <= |c.rules| <= 32
      && (forall i :: 0 <= i < |c.rules| ==> IsUsable(c.rules[i], compiles))
      && (forall i, j :: 0 <= i < j < |c.rules| ==> AreApart(c.rules[i], c.rules[j]))
  {
    hide IsDate, IsDay, IsVersion, IsPointed, AllSpaces, Strip, UsableRule, IsUsable;
    DayMeans(c.resolvedOn);
    StripMeansBlank(c.suppressionRule);
    StripMeansBlank(c.provenance);
    PointedMeans(Strip(c.toolVersion));
    forall i | 0 <= i < |c.rules| ensures UsableRule(c.rules[i], compiles) <==> IsUsable(c.rules[i], compiles) {
      UsableMeans(c.rules[i], compiles);
    }
  }
}
