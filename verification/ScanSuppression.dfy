/** The suppression verdict of the evidence collector (scripts/collect_release_evidence.py):
    the declared contract, the classification of every suppressed finding, and the record
    the evidence manifest carries. */
module ScanSuppression {
  import opened Text

  datatype Rule = Rule(id: string, package: string, packageType: string, matchType: string,
                       justification: string, expiresOn: string)

  /** A contract document with the keys and the format version it must have. */
  datatype Contract = Contract(resolvedOn: string, suppressionRule: string, toolName: string, toolVersion: string,
                               provenance: string, rules: seq<Rule>)

  /** An ignore rule, as the scan document records the ones in effect and the ones applied. */
  datatype IgnoreRule = IgnoreRule(package: string, packageType: string, matchType: string)

  /** A finding the scanner suppressed. */
  datatype Match = Match(advisory: string, package: string, severity: string,
                         matchTypes: seq<string>, applied: seq<IgnoreRule>)

  /** What the verdict reads from a scan document. */
  datatype Suppressed = Suppressed(ignored: seq<Match>, effective: seq<IgnoreRule>, toolVersion: Option<string>)

  /** The expression engine: for which expression and text `re.fullmatch` succeeds. */
  type Patterns = (string, string) -> bool

  // ---------- the contract ----------

  predicate AllDigits(s: string, lo: nat, hi: nat)
    requires lo <= hi <= |s|
  {
    forall i :: lo <= i < hi ==> IsDigit(s[i])
  }

  predicate IsDate(s: string) {
    |s| == 10 && AllDigits(s, 0, 4) && s[4] == '-' && AllDigits(s, 5, 7) && s[7] == '-' && AllDigits(s, 8, 10)
  }

  predicate IsRuleId(s: string) {
    |s| == 11 && s[0] == 'R' && s[1] == 'S' && s[2] == '-' && AllDigits(s, 3, 7) && s[7] == '-' && AllDigits(s, 8, 11)
  }

  /** Numerals separated by dots. */
  predicate IsVersion(s: string) {
    var parts := Split(s, '.');
    forall i :: 0 <= i < |parts| ==> parts[i] != [] && AllDigits(parts[i], 0, |parts[i]|)
  }

  const MIN_JUSTIFICATION: nat := 16

  predicate Justified(rule: Rule) {
    |Strip(rule.justification)| >= MIN_JUSTIFICATION
  }

  function Key(rule: Rule): IgnoreRule {
    IgnoreRule(Strip(rule.package), Strip(rule.packageType), Strip(rule.matchType))
  }

  function RawKey(rule: Rule): IgnoreRule {
    IgnoreRule(rule.package, rule.packageType, rule.matchType)
  }

  predicate UsableRule(rule: Rule, compiles: set<string>) {
    && IsRuleId(Strip(rule.id))
    && IsDate(Strip(rule.expiresOn))
    && Justified(rule)
    && Key(rule).matchType != [] && Key(rule).package != [] && Key(rule).packageType != []
    && Key(rule).package in compiles
  }

  /** A contract `load_scan_suppression` accepts. `compiles` are the valid expressions. */
  ghost predicate Accepted(c: Contract, compiles: set<string>) {
    && IsDate(c.resolvedOn) && Strip(c.suppressionRule) != []
    && Strip(c.toolName) == "grype" && IsVersion(Strip(c.toolVersion)) && Strip(c.provenance) != []
    && 1 <= |c.rules| <= 32
    && (forall i :: 0 <= i < |c.rules| ==> UsableRule(c.rules[i], compiles))
    && AreDistinct(c.rules)
  }

  /** No two rules share an id or a key, white space aside. */
  ghost predicate AreDistinct(rules: seq<Rule>) {
    forall i, j :: 0 <= i < j < |rules| ==> Strip(rules[i].id) != Strip(rules[j].id) && Key(rules[i]) != Key(rules[j])
  }

  function TrimmedIds(rules: seq<Rule>): set<string> {
    set rule | rule in rules :: Strip(rule.id)
  }

  function Keys(rules: seq<Rule>): set<IgnoreRule> {
    set rule | rule in rules :: Key(rule)
  }

  lemma {:induction false} OneMoreIsDistinct(rules: seq<Rule>, rule: Rule)
    ensures AreDistinct(rules + [rule]) <==>
              AreDistinct(rules) && Strip(rule.id) !in TrimmedIds(rules) && Key(rule) !in Keys(rules)
  {
    hide Strip, Key;
    var more := rules + [rule];
    assert forall i :: 0 <= i < |rules| ==> more[i] == rules[i];
    if AreDistinct(more) {
      forall other | other in rules ensures Strip(other.id) != Strip(rule.id) && Key(other) != Key(rule) {
        var i :| 0 <= i < |rules| && rules[i] == other;
        assert more[i] == other && more[|rules|] == rule;
      }
    }
    if AreDistinct(rules) && Strip(rule.id) !in TrimmedIds(rules) && Key(rule) !in Keys(rules) {
      forall i, j | 0 <= i < j < |more| ensures Strip(more[i].id) != Strip(more[j].id) && Key(more[i]) != Key(more[j]) {
        assert more[i] in rules;
      }
    }
  }

  lemma {:induction false} PrefixIsDistinct(rules: seq<Rule>, n: nat)
    requires n <= |rules| && AreDistinct(rules)
    ensures AreDistinct(rules[..n])
  {
    hide Strip, Key;
  }

  /** `load_scan_suppression`, with the sets of identities seen so far. */
  method LoadContract(c: Contract, compiles: set<string>) returns (ok: bool)
    ensures ok <==> Accepted(c, compiles)
  {
    hide IsRuleId, IsDate, IsVersion, Strip, UsableRule, Key, AreDistinct, TrimmedIds, Keys;
    if !IsDate(c.resolvedOn) || Strip(c.suppressionRule) == [] { return false; }
    if Strip(c.toolName) != "grype" || !IsVersion(Strip(c.toolVersion)) || Strip(c.provenance) == [] { return false; }
    if |c.rules| == 0 || |c.rules| > 32 { return false; }
    var seenIds: set<string>, seenKeys: set<IgnoreRule> := {}, {};
    assert c.rules[..0] == [];
    NothingIsListed();
    for n := 0 to |c.rules|
      invariant forall i :: 0 <= i < n ==> UsableRule(c.rules[i], compiles)
      invariant AreDistinct(c.rules[..n]) && seenIds == TrimmedIds(c.rules[..n]) && seenKeys == Keys(c.rules[..n])
    {
      var rule := c.rules[n];
      assert c.rules[..n + 1] == c.rules[..n] + [rule];
      OneMoreIsDistinct(c.rules[..n], rule);
      OneMoreListed(c.rules[..n], rule);
      if !UsableRule(rule, compiles) { return false; }
      if Strip(rule.id) in seenIds || Key(rule) in seenKeys {
        if AreDistinct(c.rules) { PrefixIsDistinct(c.rules, n + 1); }
        return false;
      }
      seenIds := seenIds + {Strip(rule.id)};
      seenKeys := seenKeys + {Key(rule)};
    }
    assert c.rules[..|c.rules|] == c.rules;
    return true;
  }

  lemma {:induction false} NothingIsListed()
    ensures AreDistinct([]) && TrimmedIds([]) == {} && Keys([]) == {}
  {
  }

  lemma {:induction false} OneMoreListed(rules: seq<Rule>, rule: Rule)
    ensures TrimmedIds(rules + [rule]) == TrimmedIds(rules) + {Strip(rule.id)}
    ensures Keys(rules + [rule]) == Keys(rules) + {Key(rule)}
  {
    hide Strip, Key;
    assert forall r :: r in rules + [rule] <==> r in rules || r == rule;
  }

  // ---------- the verdict ----------

  predicate Unexpired(rule: Rule, today: string) {
    var expiry := Strip(rule.expiresOn);
    IsDate(expiry) && IsDate(today) && Le(today, expiry)
  }

  /** `declared_by_key[key]`: the last rule with that key. */
  function RuleFor(rules: seq<Rule>, key: IgnoreRule): (r: Option<Rule>)
    ensures r.Some? ==> r.value in rules && Key(r.value) == key
    ensures r.None? ==> forall i :: 0 <= i < |rules| ==> Key(rules[i]) != key
  {
    hide Key;
    if rules == [] then None
    else if Key(rules[|rules| - 1]) == key then Some(rules[|rules| - 1])
    else
      var init := rules[..|rules| - 1];
      assert forall i :: 0 <= i < |init| ==> rules[i] == init[i];
      RuleFor(init, key)
  }

  function UnjustifiedIds(rules: seq<Rule>): (ids: seq<string>)
    ensures ids == [] <==> forall i :: 0 <= i < |rules| ==> Justified(rules[i])
  {
    hide Justified;
    if rules == [] then []
    else
      assert forall i :: 1 <= i < |rules| ==> rules[i] == rules[1..][i - 1];
      (if Justified(rules[0]) then [] else [rules[0].id]) + UnjustifiedIds(rules[1..])
  }

  function ExpiredIds(rules: seq<Rule>, today: string): (ids: seq<string>)
    ensures ids == [] <==> forall i :: 0 <= i < |rules| ==> Unexpired(rules[i], today)
  {
    hide Unexpired;
    if rules == [] then []
    else
      assert forall i :: 1 <= i < |rules| ==> rules[i] == rules[1..][i - 1];
      (if Unexpired(rules[0], today) then [] else [rules[0].id]) + ExpiredIds(rules[1..], today)
  }

  function Undeclared(effective: seq<IgnoreRule>, rules: seq<Rule>): (r: seq<IgnoreRule>)
    ensures r == [] <==> forall i :: 0 <= i < |effective| ==> RuleFor(rules, effective[i]).Some?
  {
    hide RuleFor;
    if effective == [] then []
    else
      assert forall i :: 0 <= i < |effective| - 1 ==> effective[1..][i] == effective[i + 1];
      assert forall i :: 1 <= i < |effective| ==> effective[i] == effective[1..][i - 1];
      if RuleFor(rules, effective[0]).Some? then Undeclared(effective[1..], rules)
      else [effective[0]] + Undeclared(effective[1..], rules)
  }

  /** `qualifies`: a declared rule covers this finding and may explain it. */
  predicate Qualifies(rules: seq<Rule>, entry: IgnoreRule, m: Match, today: string, patterns: Patterns) {
    var rule := RuleFor(rules, entry);
    && rule.Some?
    && rule.value.id !in UnjustifiedIds(rules) && Unexpired(rule.value, today)
    && (m.matchTypes == [] || entry.matchType in m.matchTypes)
    && patterns(entry.package, m.package)
  }

  /** The id of the rule behind the first applied entry that qualifies. */
  function CoveringId(rules: seq<Rule>, applied: seq<IgnoreRule>, m: Match, today: string,
                      patterns: Patterns): Option<string> {
    if applied == [] then None
    else if Qualifies(rules, applied[0], m, today, patterns) then Some(RuleFor(rules, applied[0]).value.id)
    else CoveringId(rules, applied[1..], m, today, patterns)
  }

  function Severity(s: string): int {
    if s == "Negligible" then 0 else if s == "Low" then 1 else if s == "Medium" then 2
    else if s == "High" then 3 else if s == "Critical" then 4 else -1
  }

  /** The findings at or above the threshold, in scan order. */
  function Gated(ms: seq<Match>, threshold: int): (r: seq<Match>)
    ensures |r| <= |ms|
    ensures forall m :: m in r <==> m in ms && Severity(m.severity) >= threshold
  {
    if ms == [] then []
    else (if Severity(ms[0].severity) >= threshold then [ms[0]] else []) + Gated(ms[1..], threshold)
  }

  function Uncovered(rules: seq<Rule>, ms: seq<Match>, today: string, patterns: Patterns): (r: seq<Match>)
    ensures r == [] <==> forall i :: 0 <= i < |ms| ==> CoveringId(rules, ms[i].applied, ms[i], today, patterns).Some?
  {
    if ms == [] then []
    else (if CoveringId(rules, ms[0].applied, ms[0], today, patterns).Some? then [] else [ms[0]])
         + Uncovered(rules, ms[1..], today, patterns)
  }

  function CoveringIds(rules: seq<Rule>, ms: seq<Match>, today: string, patterns: Patterns): (r: seq<string>)
    ensures |r| + |Uncovered(rules, ms, today, patterns)| == |ms|
  {
    if ms == [] then []
    else (match CoveringId(rules, ms[0].applied, ms[0], today, patterns) case None => [] case Some(id) => [id])
         + CoveringIds(rules, ms[1..], today, patterns)
  }

  function Bump(counts: map<string, nat>, key: string): map<string, nat> {
    counts[key := (if key in counts then counts[key] else 0) + 1]
  }

  /** How often each string occurs. */
  function Tally(keys: seq<string>): (counts: map<string, nat>)
    ensures forall k :: k in counts <==> k in keys
    ensures forall k :: k in counts ==> counts[k] == multiset(keys)[k] > 0
  {
    assert keys != [] ==> keys == keys[..|keys| - 1] + [keys[|keys| - 1]];
    if keys == [] then map[] else Bump(Tally(keys[..|keys| - 1]), keys[|keys| - 1])
  }

  ghost function Sum(counts: map<string, nat>): nat {
    if counts == map[] then 0 else
      var k :| k in counts;
      counts[k] + Sum(counts - {k})
  }

  lemma {:induction false} SumRemove(counts: map<string, nat>, k: string)
    requires k in counts
    ensures Sum(counts) == counts[k] + Sum(counts - {k})
    decreases |counts|
  {
    var j :| j in counts && Sum(counts) == counts[j] + Sum(counts - {j});
    if j != k {
      SumRemove(counts - {j}, k);
      SumRemove(counts - {k}, j);
      assert counts - {j} - {k} == counts - {k} - {j};
    }
  }

  lemma {:induction false} SumBump(counts: map<string, nat>, key: string)
    ensures Sum(Bump(counts, key)) == Sum(counts) + 1
  {
    SumRemove(Bump(counts, key), key);
    assert Bump(counts, key) - {key} == counts - {key};
    if key in counts { SumRemove(counts, key); } else { assert counts - {key} == counts; }
  }

  /** Conservation: the tally accounts for every occurrence. */
  lemma {:induction false} TallyConserves(keys: seq<string>)
    ensures Sum(Tally(keys)) == |keys|
  {
    if keys != [] {
      TallyConserves(keys[..|keys| - 1]);
      SumBump(Tally(keys[..|keys| - 1]), keys[|keys| - 1]);
    }
  }

  /** The earliest of some dates, or the empty string. */
  function Earliest(dates: seq<string>): (r: string)
    ensures dates == [] ==> r == []
    ensures dates != [] ==> r in dates
  {
    if dates == [] then []
    else
      var rest := Earliest(dates[1..]);
      if |dates| == 1 || Le(dates[0], rest) then dates[0] else rest
  }

  lemma {:induction false} EarliestIsLeast(dates: seq<string>, d: string)
    requires d in dates
    ensures Le(Earliest(dates), d)
  {
    LeReflexive(dates[0]);
    if |dates| > 1 {
      var rest := Earliest(dates[1..]);
      LeTotal(dates[0], rest);
      if d == dates[0] {
      } else {
        EarliestIsLeast(dates[1..], d);
        if Le(dates[0], rest) { LeTransitive(dates[0], rest, d); }
      }
    }
  }

  function Expiries(rules: seq<Rule>): (dates: seq<string>)
    ensures forall d :: d in dates <==> IsDate(d) && exists i :: 0 <= i < |rules| && Strip(rules[i].expiresOn) == d
  {
    if rules == [] then []
    else
      var expiry := Strip(rules[0].expiresOn);
      var rest := Expiries(rules[1..]);
      assert forall i :: 1 <= i < |rules| ==> rules[i] == rules[1..][i - 1];
      if IsDate(expiry) then [expiry] + rest else rest
  }

  /** The rules, by id, that covered something. */
  function Applied(rules: seq<Rule>, ids: set<string>): (r: seq<Rule>)
    ensures forall rule :: rule in r <==> rule in rules && rule.id in ids
  {
    if rules == [] then []
    else (if rules[0].id in ids then [rules[0]] else []) + Applied(rules[1..], ids)
  }

  datatype Refusal = UndeclaredRules | UnjustifiedRules | UncoveredFindings
                   | OtherScannerVersion | NoScannerVersion | OtherPinnedVersion

  datatype Verdict = Verdict(
    resolvedOn: string, declaredVersion: string, observedVersion: Option<string>,
    total: nat, gatedTotal: nat, coveredByRule: map<string, nat>, uncovered: seq<Match>,
    declaredIds: seq<string>, declaredExpiresOn: string, appliedExpiresOn: string,
    effective: seq<IgnoreRule>, undeclared: seq<IgnoreRule>,
    expired: seq<string>, unjustified: seq<string>, refusals: seq<Refusal>)

  function Ids(rules: seq<Rule>): set<string> {
    set rule | rule in rules :: rule.id
  }

  function Refusals(undeclared: seq<IgnoreRule>, unjustified: seq<string>, uncovered: seq<Match>,
                    declared: string, observed: Option<string>, pinned: string): (r: seq<Refusal>)
    ensures uncovered != [] ==> UncoveredFindings in r
    ensures r == [] <==> undeclared == [] && unjustified == [] && uncovered == []
                         && (declared != [] ==> observed == Some(declared) && pinned == declared)
  {
    (if undeclared != [] then [UndeclaredRules] else [])
    + (if unjustified != [] then [UnjustifiedRules] else [])
    + (if uncovered != [] then [UncoveredFindings] else [])
    + (if declared != [] && observed.Some? && declared != observed.value then [OtherScannerVersion] else [])
    + (if declared != [] && observed.None? then [NoScannerVersion] else [])
    + (if declared != [] && declared != pinned then [OtherPinnedVersion] else [])
  }

  /** What `_suppression_verdict` reports. The pinned version is trimmed before it is compared. */
  function Judge(scan: Suppressed, config: Option<Contract>, threshold: int, today: string,
                 pinned: string, patterns: Patterns): Verdict
  {
    var rules := if config.Some? then config.value.rules else [];
    var declared := if config.Some? then Strip(config.value.toolVersion) else [];
    var gated := Gated(scan.ignored, threshold);
    var ids := CoveringIds(rules, gated, today, patterns);
    var uncovered := Uncovered(rules, gated, today, patterns);
    var undeclared := Undeclared(scan.effective, rules);
    var unjustified := UnjustifiedIds(rules);
    Verdict(
      if config.Some? then config.value.resolvedOn else [], declared, scan.toolVersion,
      |scan.ignored|, |gated|, Tally(ids), uncovered,
      Sorted(Ids(rules)), Earliest(Expiries(rules)), Earliest(Expiries(Applied(rules, Tally(ids).Keys))),
      scan.effective, undeclared, ExpiredIds(rules, today), unjustified,
      Refusals(undeclared, unjustified, uncovered, declared, scan.toolVersion, Strip(pinned)))
  }

  /** The classification loop of `_suppression_verdict`: counters, the coverage dictionary
      and the uncovered list, with nothing lost between them. */
  method Classify(ms: seq<Match>, rules: seq<Rule>, threshold: int, today: string, patterns: Patterns)
    returns (gatedTotal: nat, covered: map<string, nat>, uncovered: seq<Match>)
    ensures gatedTotal == |Gated(ms, threshold)| <= |ms|
    ensures uncovered == Uncovered(rules, Gated(ms, threshold), today, patterns)
    ensures covered == Tally(CoveringIds(rules, Gated(ms, threshold), today, patterns))
    ensures Sum(covered) + |uncovered| == gatedTotal
  {
    hide CoveringId, Gated, Uncovered, CoveringIds, Tally, Bump, Sum, Severity;
    gatedTotal, covered, uncovered := 0, map[], [];
    ghost var all := Gated(ms, threshold);
    ghost var ids: seq<string> := [];
    assert ms[0..] == ms;
    assert Tally([]) == map[] by { EmptyTally(); }
    for i := 0 to |ms|
      invariant gatedTotal + |Gated(ms[i..], threshold)| == |all|
      invariant uncovered + Uncovered(rules, Gated(ms[i..], threshold), today, patterns)
                == Uncovered(rules, all, today, patterns)
      invariant ids + CoveringIds(rules, Gated(ms[i..], threshold), today, patterns)
                == CoveringIds(rules, all, today, patterns)
      invariant covered == Tally(ids)
    {
      var m := ms[i];
      ClassifyStep(ms[i..], rules, threshold, today, patterns);
      assert ms[i..][1..] == ms[i + 1..];
      ghost var rest := Gated(ms[i + 1..], threshold);
      ghost var leftOut, left := Uncovered(rules, rest, today, patterns), CoveringIds(rules, rest, today, patterns);
      if Severity(m.severity) < threshold { continue; }
      gatedTotal := gatedTotal + 1;
      var covering := CoveringId(rules, m.applied, m, today, patterns);
      if covering.None? {
        AppendFirst(uncovered, m, leftOut);
        assert [] + left == left;
        uncovered := uncovered + [m];
      } else {
        TallyAppend(ids, covering.value);
        AppendFirst(ids, covering.value, left);
        assert [] + leftOut == leftOut;
        covered := Bump(covered, covering.value);
        ids := ids + [covering.value];
      }
    }
    assert ms[|ms|..] == [];
    NothingLeft(rules, threshold, today, patterns);
    assert ids + [] == ids && uncovered + [] == uncovered;
    TallyConserves(ids);
  }

  lemma {:induction false} ClassifyStep(ms: seq<Match>, rules: seq<Rule>, threshold: int, today: string,
                                        patterns: Patterns)
    requires ms != []
    ensures var m, rest := ms[0], Gated(ms[1..], threshold);
            if Severity(m.severity) < threshold then Gated(ms, threshold) == rest
            else
              var covering := CoveringId(rules, m.applied, m, today, patterns);
              && Gated(ms, threshold) == [m] + rest
              && Uncovered(rules, [m] + rest, today, patterns)
                 == (if covering.Some? then [] else [m]) + Uncovered(rules, rest, today, patterns)
              && CoveringIds(rules, [m] + rest, today, patterns)
                 == (if covering.Some? then [covering.value] else []) + CoveringIds(rules, rest, today, patterns)
  {
  }

  lemma {:induction false} NothingLeft(rules: seq<Rule>, threshold: int, today: string, patterns: Patterns)
    ensures Gated([], threshold) == []
    ensures Uncovered(rules, [], today, patterns) == [] && CoveringIds(rules, [], today, patterns) == []
  {
  }

  lemma EmptyTally()
    ensures Tally([]) == map[]
  {
  }

  /** `_suppression_verdict`. */
  method SuppressionVerdict(scan: Suppressed, config: Option<Contract>, threshold: int, today: string,
                            pinned: string, patterns: Patterns) returns (v: Verdict)
    ensures v == Judge(scan, config, threshold, today, pinned, patterns)
    ensures Sum(v.coveredByRule) + |v.uncovered| == v.gatedTotal <= v.total
    ensures v.uncovered != [] ==> UncoveredFindings in v.refusals
  {
    hide Sum, Gated, CoveringIds, Uncovered, Tally, Strip, Undeclared, UnjustifiedIds, ExpiredIds, Sorted, Ids,
         Earliest, Expiries, Applied;
    var rules := if config.Some? then config.value.rules else [];
    var declared := if config.Some? then Strip(config.value.toolVersion) else [];
    var gatedTotal, covered, uncovered := Classify(scan.ignored, rules, threshold, today, patterns);
    var undeclared, unjustified := Undeclared(scan.effective, rules), UnjustifiedIds(rules);
    v := Verdict(
      if config.Some? then config.value.resolvedOn else [], declared, scan.toolVersion,
      |scan.ignored|, gatedTotal, covered, uncovered,
      Sorted(Ids(rules)), Earliest(Expiries(rules)), Earliest(Expiries(Applied(rules, covered.Keys))),
      scan.effective, undeclared, ExpiredIds(rules, today), unjustified,
      Refusals(undeclared, unjustified, uncovered, declared, scan.toolVersion, Strip(pinned)));
  }

  lemma {:induction false} TallyAppend(ids: seq<string>, id: string)
    ensures Tally(ids + [id]) == Bump(Tally(ids), id)
  {
  }
}
