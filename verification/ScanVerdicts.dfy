/** What the vulnerability gate accepts (scripts/collect_release_evidence.py), stated on the findings,
    the ledger and the suppression contract. */
module ScanVerdicts {
  import opened Text
  import opened ScanSuppression
  import opened ScanEvaluation

  // ---------- severity ----------

  const SEVERITIES := ["Negligible", "Low", "Medium", "High", "Critical"]

  /** At or above a threshold on the scale; a severity that is not on it lies below all that are. */
  predicate IsSevere(severity: string, threshold: int) {
    || (exists k :: 0 <= k < |SEVERITIES| && SEVERITIES[k] == severity && threshold <= k)
    || (severity !in SEVERITIES && threshold < 0)
  }

  lemma {:induction false} SeverityMeans(severity: string, threshold: int)
    ensures Severity(severity) >= threshold <==> IsSevere(severity, threshold)
  {
    assert SEVERITIES[0] == "Negligible" && SEVERITIES[1] == "Low" && SEVERITIES[2] == "Medium";
    assert SEVERITIES[3] == "High" && SEVERITIES[4] == "Critical";
  }

  // ---------- coverage ----------

  /** The rule that is in force under a key: the last one declared with it. */
  predicate IsInForce(rules: seq<Rule>, i: nat, key: IgnoreRule) {
    && i < |rules| && Key(rules[i]) == key
    && forall j :: i < j < |rules| ==> Key(rules[j]) != key
  }

  /** Every rule with this id is justified in at least sixteen characters. */
  predicate IsJustified(rules: seq<Rule>, id: string) {
    forall j :: 0 <= j < |rules| && rules[j].id == id ==> |Strip(rules[j].justification)| >= 16
  }

  predicate IsCurrent(rule: Rule, today: string) {
    IsDate(Strip(rule.expiresOn)) && IsDate(today) && Le(today, Strip(rule.expiresOn))
  }

  /** The rule in force under the k-th rule that filtered a finding explains it. */
  predicate Covers(rules: seq<Rule>, i: nat, k: nat, m: Match, today: string, patterns: Patterns) {
    && k < |m.applied| && IsInForce(rules, i, m.applied[k])
    && IsJustified(rules, rules[i].id) && IsCurrent(rules[i], today)
    && (m.matchTypes == [] || m.applied[k].matchType in m.matchTypes)
    && patterns(m.applied[k].package, m.package)
  }

  ghost predicate IsCovered(rules: seq<Rule>, m: Match, today: string, patterns: Patterns) {
    exists i: nat, k: nat :: Covers(rules, i, k, m, today, patterns)
  }

  lemma {:induction false} RuleForIsInForce(rules: seq<Rule>, key: IgnoreRule)
    ensures var r := RuleFor(rules, key);
            && (r.Some? ==> exists i: nat :: i < |rules| && IsInForce(rules, i, key) && rules[i] == r.value)
            && (r.None? <==> forall i: nat :: !IsInForce(rules, i, key))
  {
    hide Key;
    if rules != [] {
      var n := |rules| - 1;
      var init := rules[..n];
      assert rules == init + [rules[n]];
      if Key(rules[n]) == key {
        assert IsInForce(rules, n, key);
      } else {
        RuleForIsInForce(init, key);
        forall i: nat ensures IsInForce(rules, i, key) <==> IsInForce(init, i, key) { }
        if r: nat :| r < |init| && IsInForce(init, r, key) && init[r] == RuleFor(init, key).value {
          assert rules[r] == init[r];
        }
      }
    }
  }

  lemma {:induction false} OneInForce(rules: seq<Rule>, i: nat, j: nat, key: IgnoreRule)
    requires IsInForce(rules, i, key) && IsInForce(rules, j, key)
    ensures i == j
  {
    hide Key;
  }

  lemma {:induction false} JustifiedMeans(rules: seq<Rule>, id: string)
    ensures id !in UnjustifiedIds(rules) <==> IsJustified(rules, id)
  {
    if rules != [] {
      hide UnjustifiedIds, IsJustified, Strip;
      JustifiedMeans(rules[1..], id);
      UnjustifiedStep(rules);
      JustifiedStep(rules, id);
    }
  }

  lemma JustifiedStep(rules: seq<Rule>, id: string)
    requires rules != []
    ensures IsJustified(rules, id) <==> (rules[0].id == id ==> Justified(rules[0])) && IsJustified(rules[1..], id)
  {
    hide Strip;
    assert forall j :: 0 <= j < |rules[1..]| ==> rules[j + 1] == rules[1..][j];
    assert forall j :: 1 <= j < |rules| ==> rules[j] == rules[1..][j - 1];
  }

  lemma {:induction false} QualifiesMeans(rules: seq<Rule>, k: nat, m: Match, today: string, patterns: Patterns)
    requires k < |m.applied|
    ensures Qualifies(rules, m.applied[k], m, today, patterns) <==>
      exists i: nat :: Covers(rules, i, k, m, today, patterns)
    ensures forall i: nat :: Covers(rules, i, k, m, today, patterns) ==> RuleFor(rules, m.applied[k]) == Some(rules[i])
  {
    hide Key, UnjustifiedIds, IsInForce, IsJustified, RuleFor;
    var key := m.applied[k];
    RuleForIsInForce(rules, key);
    var r := RuleFor(rules, key);
    if r.Some? {
      var i: nat :| i < |rules| && IsInForce(rules, i, key) && rules[i] == r.value;
      JustifiedMeans(rules, rules[i].id);
      forall j: nat | IsInForce(rules, j, key) ensures j == i { OneInForce(rules, i, j, key); }
      assert Qualifies(rules, key, m, today, patterns) <==> Covers(rules, i, k, m, today, patterns);
    }
  }

  /** The finding is counted for the rule behind the first of its filters that explains it. */
  ghost predicate IsCoveredBy(rules: seq<Rule>, m: Match, today: string, patterns: Patterns, id: string) {
    exists i: nat, k: nat :: Covers(rules, i, k, m, today, patterns) && rules[i].id == id
                             && forall h: nat, j: nat :: h < k ==> !Covers(rules, j, h, m, today, patterns)
  }

  lemma {:induction false} CoveringIdFrom(rules: seq<Rule>, from: nat, m: Match, today: string, patterns: Patterns)
    requires from <= |m.applied|
    requires forall h: nat, j: nat :: h < from ==> !Covers(rules, j, h, m, today, patterns)
    ensures var r := CoveringId(rules, m.applied[from..], m, today, patterns);
            && (r.None? <==> !IsCovered(rules, m, today, patterns))
            && (r.Some? ==> IsCoveredBy(rules, m, today, patterns, r.value))
    decreases |m.applied| - from
  {
    hide Covers, Qualifies, RuleFor;
    if from < |m.applied| {
      assert m.applied[from..][0] == m.applied[from] && m.applied[from..][1..] == m.applied[from + 1..];
      QualifiesMeans(rules, from, m, today, patterns);
      if Qualifies(rules, m.applied[from], m, today, patterns) {
        var i: nat :| Covers(rules, i, from, m, today, patterns);
        assert i < |rules| by { CoversInside(rules, i, from, m, today, patterns); }
        assert IsCovered(rules, m, today, patterns);
      } else {
        CoveringIdFrom(rules, from + 1, m, today, patterns);
      }
    } else {
      forall j: nat, h: nat ensures !Covers(rules, j, h, m, today, patterns) {
        if h >= |m.applied| { OutOfRange(rules, j, h, m, today, patterns); }
      }
    }
  }

  lemma {:induction false} CoversInside(rules: seq<Rule>, i: nat, k: nat, m: Match, today: string, patterns: Patterns)
    requires Covers(rules, i, k, m, today, patterns)
    ensures i < |rules| && k < |m.applied|
  {
  }

  lemma {:induction false} OutOfRange(rules: seq<Rule>, i: nat, k: nat, m: Match, today: string, patterns: Patterns)
    requires k >= |m.applied|
    ensures !Covers(rules, i, k, m, today, patterns)
  {
  }

  /** Whether a suppressed finding is covered, and for which rule it is counted. */
  lemma {:induction false} CoverageIsExact(rules: seq<Rule>, m: Match, today: string, patterns: Patterns)
    ensures var r := CoveringId(rules, m.applied, m, today, patterns);
            && (r.None? <==> !IsCovered(rules, m, today, patterns))
            && (r.Some? ==> IsCoveredBy(rules, m, today, patterns, r.value))
  {
    hide Covers, CoveringId;
    assert m.applied[0..] == m.applied;
    CoveringIdFrom(rules, 0, m, today, patterns);
  }

  // ---------- the verdict ----------

  function RulesOf(config: Option<Contract>): seq<Rule> {
    if config.Some? then config.value.rules else []
  }

  /** Every effective ignore rule is declared, every declared rule justified, every suppressed finding at
      the threshold covered, and the contract is written for the scanner that ran and is pinned. */
  ghost predicate IsClean(scan: Suppressed, config: Option<Contract>, threshold: int, today: string, pinned: string,
                          patterns: Patterns) {
    var rules := RulesOf(config);
    && (forall e :: e in scan.effective ==> exists rule :: rule in rules && Key(rule) == e)
    && (forall rule :: rule in rules ==> |Strip(rule.justification)| >= 16)
    && (forall m :: m in scan.ignored && IsSevere(m.severity, threshold) ==> IsCovered(rules, m, today, patterns))
    && (config.Some? && Strip(config.value.toolVersion) != "" ==>
          scan.toolVersion == Some(Strip(config.value.toolVersion)) && Strip(pinned) == Strip(config.value.toolVersion))
  }

  lemma {:induction false} UndeclaredMeans(effective: seq<IgnoreRule>, rules: seq<Rule>)
    ensures Undeclared(effective, rules) == [] <==>
      forall e :: e in effective ==> exists rule :: rule in rules && Key(rule) == e
  {
    hide Key, RuleFor, Undeclared;
    forall e ensures RuleFor(rules, e).Some? <==> exists rule :: rule in rules && Key(rule) == e {
      if rule :| rule in rules && Key(rule) == e {
        var i :| 0 <= i < |rules| && rules[i] == rule;
      }
    }
    EachIsDeclared(effective, rules);
  }

  lemma {:induction false} EachIsDeclared(effective: seq<IgnoreRule>, rules: seq<Rule>)
    ensures (forall i :: 0 <= i < |effective| ==> RuleFor(rules, effective[i]).Some?)
       <==> (forall e :: e in effective ==> RuleFor(rules, e).Some?)
  {
    hide RuleFor;
    if forall i :: 0 <= i < |effective| ==> RuleFor(rules, effective[i]).Some? {
      forall e | e in effective ensures RuleFor(rules, e).Some? { var i :| 0 <= i < |effective| && effective[i] == e; }
    }
  }

  lemma {:induction false} UnjustifiedMeans(rules: seq<Rule>)
    ensures UnjustifiedIds(rules) == [] <==> forall rule :: rule in rules ==> |Strip(rule.justification)| >= 16
  {
    hide UnjustifiedIds, Strip;
    if forall i :: 0 <= i < |rules| ==> Justified(rules[i]) {
      forall rule | rule in rules ensures |Strip(rule.justification)| >= 16 {
        var i :| 0 <= i < |rules| && rules[i] == rule;
      }
    }
  }

  lemma {:induction false} UncoveredMeans(rules: seq<Rule>, ms: seq<Match>, threshold: int, today: string,
                                          patterns: Patterns)
    ensures Uncovered(rules, Gated(ms, threshold), today, patterns) == [] <==>
      forall m :: m in ms && IsSevere(m.severity, threshold) ==> IsCovered(rules, m, today, patterns)
  {
    hide Uncovered, Gated, CoveringId, IsCovered, IsSevere, Severity;
    var gated := Gated(ms, threshold);
    forall m: Match ensures m in gated <==> m in ms && IsSevere(m.severity, threshold) {
      SeverityMeans(m.severity, threshold);
    }
    forall m: Match
      ensures CoveringId(rules, m.applied, m, today, patterns).Some? <==> IsCovered(rules, m, today, patterns)
    {
      CoverageIsExact(rules, m, today, patterns);
    }
    if forall i :: 0 <= i < |gated| ==> CoveringId(rules, gated[i].applied, gated[i], today, patterns).Some? {
      forall m | m in ms && IsSevere(m.severity, threshold) ensures IsCovered(rules, m, today, patterns) {
        var i :| 0 <= i < |gated| && gated[i] == m;
      }
    }
  }

  /** The suppression verdict refuses nothing exactly then. */
  lemma {:induction false} VerdictIsExact(scan: Suppressed, config: Option<Contract>, threshold: int, today: string,
                                          pinned: string, patterns: Patterns)
    ensures var v := Judge(scan, config, threshold, today, pinned, patterns);
            && (v.refusals == [] <==> IsClean(scan, config, threshold, today, pinned, patterns))
            && (v.refusals == [] ==> v.uncovered == [])
  {
    hide Uncovered, Gated, CoveringIds, Tally, Undeclared, UnjustifiedIds, ExpiredIds, Sorted, Ids, Earliest, Expiries,
         Applied, Strip, Key, IsCovered, IsSevere;
    var rules := RulesOf(config);
    UndeclaredMeans(scan.effective, rules);
    UnjustifiedMeans(rules);
    UncoveredMeans(rules, scan.ignored, threshold, today, patterns);
  }

  // ---------- the gate ----------

  /** An exception that explains a finding in an image on a day. */
  predicate IsExcusedBy(f: Finding, e: Exception, image: string, today: string) {
    && e.advisory == f.advisory && e.package == f.package
    && (e.packageVersion == None || e.packageVersion == Some(f.version))
    && (e.artifactPath.Some? ==> e.artifactPath.value in f.paths)
    && image in e.images && Le(today, e.expiresOn)
  }

  /** A scan passes if and only if every finding at the threshold is excused by an exception in the ledger
      and the suppression verdict is clean. */
  lemma {:induction false} PassesIsExact(scan: Scan, image: string, today: string, p: Policy)
    ensures Passes(scan, image, today, p) <==>
      && (forall f :: f in scan.findings && IsSevere(f.severity, p.threshold) ==>
            exists e :: e in p.ledger && IsExcusedBy(f, e, image, today))
      && IsClean(scan.suppressed, p.contract, p.threshold, today, p.pinned, p.patterns)
  {
    hide Judge, IsClean, Unexplained, Severity, IsSevere, Le;
    VerdictIsExact(scan.suppressed, p.contract, p.threshold, today, p.pinned, p.patterns);
    forall f: Finding ensures Severity(f.severity) >= p.threshold <==> IsSevere(f.severity, p.threshold) {
      SeverityMeans(f.severity, p.threshold);
    }
    forall f: Finding, e: Exception ensures Applies(e, f, image, today) <==> IsExcusedBy(f, e, image, today) { }
    if forall i :: 0 <= i < |scan.findings| ==> !IsOpen(scan.findings[i], image, today, p) {
      forall f | f in scan.findings && IsSevere(f.severity, p.threshold)
        ensures exists e :: e in p.ledger && IsExcusedBy(f, e, image, today)
      {
        var i :| 0 <= i < |scan.findings| && scan.findings[i] == f;
        assert !IsOpen(f, image, today, p);
        var e :| e in p.ledger && Applies(e, f, image, today);
        assert IsExcusedBy(f, e, image, today);
      }
    }
  }

  // ---------- lists ----------

  /** Suppressed findings are gated, and found covered or not, one by one in the order of the scan. */
  lemma {:induction false} FindingsInOrder(a: seq<Match>, b: seq<Match>, rules: seq<Rule>, threshold: int,
                                           today: string, patterns: Patterns)
    ensures Gated(a + b, threshold) == Gated(a, threshold) + Gated(b, threshold)
    ensures Uncovered(rules, a + b, today, patterns)
            == Uncovered(rules, a, today, patterns) + Uncovered(rules, b, today, patterns)
    ensures CoveringIds(rules, a + b, today, patterns)
            == CoveringIds(rules, a, today, patterns) + CoveringIds(rules, b, today, patterns)
  {
    hide Gated, Uncovered, CoveringIds;
    GatedInOrder(a, b, threshold);
    UncoveredInOrder(a, b, rules, today, patterns);
    CoveringInOrder(a, b, rules, today, patterns);
  }

  lemma {:induction false} GatedInOrder(a: seq<Match>, b: seq<Match>, threshold: int)
    ensures Gated(a + b, threshold) == Gated(a, threshold) + Gated(b, threshold)
  {
    hide Severity;
    if a == [] {
      assert a + b == b;
    } else {
      assert (a + b)[1..] == a[1..] + b && (a + b)[0] == a[0];
      GatedInOrder(a[1..], b, threshold);
    }
  }

  lemma {:induction false} UncoveredInOrder(a: seq<Match>, b: seq<Match>, rules: seq<Rule>, today: string,
                                            patterns: Patterns)
    ensures Uncovered(rules, a + b, today, patterns)
            == Uncovered(rules, a, today, patterns) + Uncovered(rules, b, today, patterns)
  {
    hide CoveringId;
    if a == [] {
      assert a + b == b;
    } else {
      assert (a + b)[1..] == a[1..] + b && (a + b)[0] == a[0];
      UncoveredInOrder(a[1..], b, rules, today, patterns);
    }
  }

  lemma {:induction false} CoveringInOrder(a: seq<Match>, b: seq<Match>, rules: seq<Rule>, today: string,
                                           patterns: Patterns)
    ensures CoveringIds(rules, a + b, today, patterns)
            == CoveringIds(rules, a, today, patterns) + CoveringIds(rules, b, today, patterns)
  {
    if a == [] {
      assert a + b == b;
    } else {
      hide CoveringIds;
      var rest := CoveringIds(rules, b, today, patterns);
      assert (a + b)[1..] == a[1..] + b && (a + b)[0] == a[0];
      CoveringInOrder(a[1..], b, rules, today, patterns);
      CoveringStep(rules, a, today, patterns);
      CoveringStep(rules, a + b, today, patterns);
      AppendTo(OneId(rules, a[0], today, patterns), CoveringIds(rules, a[1..], today, patterns), rest);
    }
  }

  function OneId(rules: seq<Rule>, m: Match, today: string, patterns: Patterns): seq<string> {
    match CoveringId(rules, m.applied, m, today, patterns) case None => [] case Some(id) => [id]
  }

  lemma {:induction false} CoveringStep(rules: seq<Rule>, ms: seq<Match>, today: string, patterns: Patterns)
    requires ms != []
    ensures CoveringIds(rules, ms, today, patterns)
            == OneId(rules, ms[0], today, patterns) + CoveringIds(rules, ms[1..], today, patterns)
  {
    hide CoveringId, Uncovered;
  }

  lemma AppendTo(a: seq<string>, b: seq<string>, c: seq<string>)
    ensures a + (b + c) == (a + b) + c
  {
  }

  lemma {:induction false} OneFinding(m: Match, rules: seq<Rule>, threshold: int, today: string, patterns: Patterns)
    ensures Gated([m], threshold) == if IsSevere(m.severity, threshold) then [m] else []
    ensures Uncovered(rules, [m], today, patterns) == if IsCovered(rules, m, today, patterns) then [] else [m]
    ensures var ids := CoveringIds(rules, [m], today, patterns);
            if IsCovered(rules, m, today, patterns) then |ids| == 1 && IsCoveredBy(rules, m, today, patterns, ids[0])
            else ids == []
  {
    hide CoveringId, Severity, IsSevere, IsCovered, IsCoveredBy;
    SeverityMeans(m.severity, threshold);
    CoverageIsExact(rules, m, today, patterns);
    assert [m][1..] == [];
  }

  /** Rules are listed as expired, unjustified or undeclared one by one, in their order. */
  lemma {:induction false} RulesInOrder(a: seq<Rule>, b: seq<Rule>, today: string)
    ensures ExpiredIds(a + b, today) == ExpiredIds(a, today) + ExpiredIds(b, today)
    ensures UnjustifiedIds(a + b) == UnjustifiedIds(a) + UnjustifiedIds(b)
  {
    hide ExpiredIds, UnjustifiedIds;
    ExpiredInOrder(a, b, today);
    UnjustifiedInOrder(a, b);
  }

  lemma {:induction false} ExpiredInOrder(a: seq<Rule>, b: seq<Rule>, today: string)
    ensures ExpiredIds(a + b, today) == ExpiredIds(a, today) + ExpiredIds(b, today)
  {
    hide Unexpired;
    if a == [] {
      assert a + b == b;
    } else {
      assert (a + b)[1..] == a[1..] + b && (a + b)[0] == a[0];
      ExpiredInOrder(a[1..], b, today);
    }
  }

  lemma {:induction false} UnjustifiedInOrder(a: seq<Rule>, b: seq<Rule>)
    ensures UnjustifiedIds(a + b) == UnjustifiedIds(a) + UnjustifiedIds(b)
  {
    if a == [] {
      assert a + b == b;
    } else {
      hide UnjustifiedIds;
      assert (a + b)[1..] == a[1..] + b && (a + b)[0] == a[0];
      UnjustifiedInOrder(a[1..], b);
      UnjustifiedStep(a);
      UnjustifiedStep(a + b);
      AppendTo(if Justified(a[0]) then [] else [a[0].id], UnjustifiedIds(a[1..]), UnjustifiedIds(b));
    }
  }

  lemma {:induction false} UnjustifiedStep(rules: seq<Rule>)
    requires rules != []
    ensures UnjustifiedIds(rules) == (if Justified(rules[0]) then [] else [rules[0].id]) + UnjustifiedIds(rules[1..])
  {
    hide Justified;
  }

  lemma {:induction false} EntriesInOrder(a: seq<IgnoreRule>, b: seq<IgnoreRule>, rules: seq<Rule>)
    ensures Undeclared(a + b, rules) == Undeclared(a, rules) + Undeclared(b, rules)
  {
    hide RuleFor;
    if a == [] {
      assert a + b == b;
    } else {
      assert (a + b)[1..] == a[1..] + b;
      EntriesInOrder(a[1..], b, rules);
    }
  }

  lemma {:induction false} OneRule(rule: Rule, today: string)
    ensures ExpiredIds([rule], today) == if IsCurrent(rule, today) then [] else [rule.id]
    ensures UnjustifiedIds([rule]) == if |Strip(rule.justification)| >= 16 then [] else [rule.id]
  {
    assert [rule][1..] == [];
  }

  lemma {:induction false} OneEntry(e: IgnoreRule, rules: seq<Rule>)
    ensures Undeclared([e], rules) == if exists rule :: rule in rules && Key(rule) == e then [] else [e]
  {
    hide Key, RuleFor;
    assert [e][1..] == [];
    UndeclaredMeans([e], rules);
  }

  /** The findings of the report, one by one in the order of the scan. */
  lemma {:induction false} ReportInOrder(a: seq<Finding>, b: seq<Finding>, image: string, today: string, p: Policy)
    ensures Unexplained(a + b, image, today, p) == Unexplained(a, image, today, p) + Unexplained(b, image, today, p)
    ensures AppliedIds(a + b, image, today, p) == AppliedIds(a, image, today, p) + AppliedIds(b, image, today, p)
  {
    hide IsOpen, FirstApplying, Severity;
    if a == [] {
      assert a + b == b;
    } else {
      assert (a + b)[1..] == a[1..] + b;
      ReportInOrder(a[1..], b, image, today, p);
    }
  }

  predicate IsFirstExcuse(f: Finding, ledger: seq<Exception>, k: nat, image: string, today: string) {
    && k < |ledger| && IsExcusedBy(f, ledger[k], image, today)
    && forall j :: 0 <= j < k ==> !IsExcusedBy(f, ledger[j], image, today)
  }

  /** A finding below the threshold is not reported; one at it is either unexplained or listed under the first
      exception of the ledger that excuses it. */
  lemma {:induction false} OneReport(f: Finding, image: string, today: string, p: Policy)
    ensures var open, ids := Unexplained([f], image, today, p), AppliedIds([f], image, today, p);
            if !IsSevere(f.severity, p.threshold) then open == [] && ids == []
            else if forall e :: e in p.ledger ==> !IsExcusedBy(f, e, image, today) then open == [f] && ids == []
            else
              && open == []
              && exists k :: && 0 <= k < |p.ledger| && ids == [p.ledger[k].id]
                             && IsFirstExcuse(f, p.ledger, k, image, today)
  {
    hide Severity, IsSevere, FirstApplying, Le;
    SeverityMeans(f.severity, p.threshold);
    assert [f][1..] == [];
    FirstExcuses(p.ledger, f, image, today);
    forall e: Exception ensures Applies(e, f, image, today) <==> IsExcusedBy(f, e, image, today) { }
  }

  lemma {:induction false} FirstExcuses(ledger: seq<Exception>, f: Finding, image: string, today: string)
    ensures var r := FirstApplying(ledger, f, image, today);
            && (r.None? <==> forall e :: e in ledger ==> !IsExcusedBy(f, e, image, today))
            && (r.Some? ==> exists k :: 0 <= k < |ledger| && ledger[k] == r.value
                                        && IsFirstExcuse(f, ledger, k, image, today))
  {
    hide Le;
    if ledger != [] {
      var rest := ledger[1..];
      FirstExcuses(rest, f, image, today);
      assert ledger == [ledger[0]] + rest;
      if !IsExcusedBy(f, ledger[0], image, today) && FirstApplying(rest, f, image, today).Some? {
        var k :| 0 <= k < |rest| && rest[k] == FirstApplying(rest, f, image, today).value
                 && IsFirstExcuse(f, rest, k, image, today);
        assert ledger[k + 1] == rest[k];
        forall j | 0 <= j < k + 1 ensures !IsExcusedBy(f, ledger[j], image, today) {
          if j > 0 { assert ledger[j] == rest[j - 1]; }
        }
      }
    }
  }
}
