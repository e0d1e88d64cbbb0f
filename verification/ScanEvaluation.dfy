/** The vulnerability gate (scripts/collect_release_evidence.py): the exception ledger, the
    evaluation of one scan, and how its verdict moves with the day, the ledger and the
    threshold. */
module ScanEvaluation {
  import opened Text
  import opened ScanSuppression

  datatype Exception = Exception(id: string, advisory: string, package: string, packageVersion: Option<string>,
                                 artifactPath: Option<string>, images: set<string>, expiresOn: string)

  datatype Finding = Finding(advisory: string, package: string, version: string, severity: string, paths: set<string>)

  datatype Scan = Scan(findings: seq<Finding>, suppressed: Suppressed)

  /** What an evaluation is judged against: the ledger, the suppression contract, the
      threshold, the pinned scanner version and the expression matcher. */
  datatype Policy = Policy(ledger: seq<Exception>, contract: Option<Contract>, threshold: int,
                           pinned: string, patterns: Patterns)

  predicate Applies(e: Exception, f: Finding, image: string, today: string) {
    && e.advisory == f.advisory && e.package == f.package
    && (e.packageVersion.None? || e.packageVersion.value == f.version)
    && (e.artifactPath.None? || e.artifactPath.value in f.paths)
    && image in e.images && Le(today, e.expiresOn)
  }

  /** The exception a finding is explained by: the first of the ledger that applies. */
  function FirstApplying(ledger: seq<Exception>, f: Finding, image: string, today: string): Option<Exception> {
    if ledger == [] then None
    else if Applies(ledger[0], f, image, today) then Some(ledger[0])
    else FirstApplying(ledger[1..], f, image, today)
  }

  /** `_matching_exception`. */
  method MatchingException(ledger: seq<Exception>, f: Finding, image: string,
                           today: string) returns (r: Option<Exception>)
    ensures r == FirstApplying(ledger, f, image, today)
    ensures r.None? <==> !Explained(ledger, f, image, today)
    ensures r.Some? ==> exists k :: 0 <= k < |ledger| && ledger[k] == r.value && Applies(ledger[k], f, image, today)
                                    && forall j :: 0 <= j < k ==> !Applies(ledger[j], f, image, today)
  {
    hide Applies;
    for k := 0 to |ledger|
      invariant forall j :: 0 <= j < k ==> !Applies(ledger[j], f, image, today)
      invariant FirstApplying(ledger[k..], f, image, today) == FirstApplying(ledger, f, image, today)
    {
      assert ledger[k..][1..] == ledger[k + 1..];
      if Applies(ledger[k], f, image, today) { return Some(ledger[k]); }
    }
    return None;
  }

  predicate Explained(ledger: seq<Exception>, f: Finding, image: string, today: string) {
    exists e :: e in ledger && Applies(e, f, image, today)
  }

  function Unexplained(fs: seq<Finding>, image: string, today: string, p: Policy): (r: seq<Finding>)
    ensures r == [] <==> forall i :: 0 <= i < |fs| ==> !IsOpen(fs[i], image, today, p)
  {
    if fs == [] then []
    else (if IsOpen(fs[0], image, today, p) then [fs[0]] else []) + Unexplained(fs[1..], image, today, p)
  }

  /** A finding at or above the threshold that no exception explains. */
  predicate IsOpen(f: Finding, image: string, today: string, p: Policy) {
    Severity(f.severity) >= p.threshold && !Explained(p.ledger, f, image, today)
  }

  /** The ids of the exceptions that explain findings, one for each. */
  function AppliedIds(fs: seq<Finding>, image: string, today: string, p: Policy): seq<string> {
    if fs == [] then []
    else
      var e := FirstApplying(p.ledger, fs[0], image, today);
      (if Severity(fs[0].severity) >= p.threshold && e.Some? then [e.value.id] else [])
      + AppliedIds(fs[1..], image, today, p)
  }

  datatype Evaluation = Evaluation(image: string, evaluatedOn: string, unexplained: seq<Finding>,
                                   appliedIds: seq<string>, suppression: Verdict)

  predicate Passed(e: Evaluation) {
    e.unexplained == [] && e.suppression.uncovered == [] && e.suppression.refusals == []
  }

  /** `evaluate_scan`. */
  method EvaluateScan(scan: Scan, image: string, today: string, p: Policy) returns (e: Evaluation)
    ensures e.image == image && e.evaluatedOn == today
    ensures e.unexplained == Unexplained(scan.findings, image, today, p)
    ensures e.suppression == Judge(scan.suppressed, p.contract, p.threshold, today, p.pinned, p.patterns)
    ensures Passed(e) <==> Passes(scan, image, today, p)
    ensures e.appliedIds == AppliedIds(scan.findings, image, today, p)
  {
    hide Judge, Explained, Severity, Unexplained, Refusals, AppliedIds, FirstApplying;
    var unexplained: seq<Finding>, applied: seq<string> := [], [];
    for i := 0 to |scan.findings|
      invariant unexplained + Unexplained(scan.findings[i..], image, today, p)
                == Unexplained(scan.findings, image, today, p)
      invariant applied + AppliedIds(scan.findings[i..], image, today, p)
                == AppliedIds(scan.findings, image, today, p)
    {
      var f := scan.findings[i];
      ghost var rest := Unexplained(scan.findings[i + 1..], image, today, p);
      ghost var more := AppliedIds(scan.findings[i + 1..], image, today, p);
      UnexplainedStep(scan.findings[i..], image, today, p);
      AppliedStep(scan.findings[i..], image, today, p);
      assert scan.findings[i..][1..] == scan.findings[i + 1..];
      if Severity(f.severity) < p.threshold { continue; }
      var exception := MatchingException(p.ledger, f, image, today);
      if exception.None? {
        assert (unexplained + [f]) + rest == unexplained + ([f] + rest);
        unexplained := unexplained + [f];
      } else {
        AppendFirst(applied, exception.value.id, more);
        applied := applied + [exception.value.id];
      }
    }
    assert scan.findings[|scan.findings|..] == [] && unexplained + [] == unexplained && applied + [] == applied;
    NoneApplied(image, today, p);
    var verdict := SuppressionVerdict(scan.suppressed, p.contract, p.threshold, today, p.pinned, p.patterns);
    e := Evaluation(image, today, unexplained, applied, verdict);
  }

  lemma {:induction false} UnexplainedStep(fs: seq<Finding>, image: string, today: string, p: Policy)
    requires fs != []
    ensures Unexplained(fs, image, today, p)
            == (if IsOpen(fs[0], image, today, p) then [fs[0]] else []) + Unexplained(fs[1..], image, today, p)
    ensures Unexplained([], image, today, p) == []
  {
  }

  lemma {:induction false} AppliedStep(fs: seq<Finding>, image: string, today: string, p: Policy)
    requires fs != []
    ensures var e, rest := FirstApplying(p.ledger, fs[0], image, today), AppliedIds(fs[1..], image, today, p);
            AppliedIds(fs, image, today, p)
            == if Severity(fs[0].severity) >= p.threshold && e.Some? then [e.value.id] + rest else rest
  {
    hide FirstApplying, Severity;
  }

  lemma {:induction false} NoneApplied(image: string, today: string, p: Policy)
    ensures AppliedIds([], image, today, p) == []
  {
  }

  // ---------- the verdict as a relation ----------

  /** A scan passes: every finding at the threshold is explained, and the suppression verdict
      neither leaves a finding uncovered nor refuses. */
  predicate Passes(scan: Scan, image: string, today: string, p: Policy) {
    && Unexplained(scan.findings, image, today, p) == []
    && var v := Judge(scan.suppressed, p.contract, p.threshold, today, p.pinned, p.patterns);
       v.uncovered == [] && v.refusals == []
  }

  /** A laxer policy: more exceptions in any order, and a threshold at least as high. */
  ghost predicate Laxer(p: Policy, q: Policy) {
    && q.contract == p.contract && q.pinned == p.pinned && q.patterns == p.patterns
    && p.threshold <= q.threshold
    && forall e :: e in p.ledger ==> e in q.ledger
  }

  lemma {:induction false} UnexpiredEarlier(rule: Rule, today: string, earlier: string)
    requires Unexpired(rule, today) && IsDate(earlier) && Le(earlier, today)
    ensures Unexpired(rule, earlier)
  {
    LeTransitive(earlier, today, Strip(rule.expiresOn));
  }

  lemma {:induction false} CoveredEarlier(rules: seq<Rule>, applied: seq<IgnoreRule>, m: Match, today: string,
                                          earlier: string, patterns: Patterns)
    requires IsDate(earlier) && Le(earlier, today)
    requires CoveringId(rules, applied, m, today, patterns).Some?
    ensures CoveringId(rules, applied, m, earlier, patterns).Some?
  {
    hide Unexpired, UnjustifiedIds, RuleFor, Le, IsDate;
    var rule := RuleFor(rules, applied[0]);
    if Qualifies(rules, applied[0], m, today, patterns) {
      UnexpiredEarlier(rule.value, today, earlier);
    } else {
      CoveredEarlier(rules, applied[1..], m, today, earlier, patterns);
    }
  }

  lemma {:induction false} ExplainedEarlier(p: Policy, q: Policy, f: Finding, image: string, today: string,
                                            earlier: string)
    requires Laxer(p, q) && Le(earlier, today)
    requires Explained(p.ledger, f, image, today)
    ensures Explained(q.ledger, f, image, earlier)
  {
    var e :| e in p.ledger && Applies(e, f, image, today);
    LeTransitive(earlier, today, e.expiresOn);
    assert e in q.ledger && Applies(e, f, image, earlier);
  }

  lemma {:induction false} CoverageIsMonotone(rules: seq<Rule>, ms: seq<Match>, low: int, high: int, today: string,
                                              earlier: string, patterns: Patterns)
    requires IsDate(earlier) && Le(earlier, today) && low <= high
    requires Uncovered(rules, Gated(ms, low), today, patterns) == []
    ensures Uncovered(rules, Gated(ms, high), earlier, patterns) == []
  {
    hide IsDate, Le, CoveringId, Severity;
    var few, many := Gated(ms, high), Gated(ms, low);
    forall i | 0 <= i < |few| ensures CoveringId(rules, few[i].applied, few[i], earlier, patterns).Some? {
      assert few[i] in many;
      var j :| 0 <= j < |many| && many[j] == few[i];
      CoveredEarlier(rules, few[i].applied, few[i], today, earlier, patterns);
    }
  }

  /** The verdict is monotone: what passes on a day passes on every earlier day under the same
      or a laxer policy. Adding exceptions or raising the threshold never fails a scan. */
  lemma {:induction false} PassingIsMonotone(scan: Scan, image: string, today: string, earlier: string, p: Policy,
                                             q: Policy)
    requires Passes(scan, image, today, p)
    requires Laxer(p, q) && IsDate(earlier) && Le(earlier, today)
    ensures Passes(scan, image, earlier, q)
  {
    hide IsDate, Le, Gated, Uncovered, CoveringIds, Tally, Earliest, Expiries, Applied, Sorted, Ids, ExpiredIds,
         Explained, Unexplained, UnjustifiedIds, Undeclared, Strip, Severity;
    forall i | 0 <= i < |scan.findings| ensures !IsOpen(scan.findings[i], image, earlier, q) {
      var f := scan.findings[i];
      assert !IsOpen(f, image, today, p);
      if Explained(p.ledger, f, image, today) { ExplainedEarlier(p, q, f, image, today, earlier); }
    }
    var rules := if p.contract.Some? then p.contract.value.rules else [];
    CoverageIsMonotone(rules, scan.suppressed.ignored, p.threshold, q.threshold, today, earlier, p.patterns);
  }

  /** Reordering can change which exception is named: of two that apply, the first. */
  lemma {:induction false} NamedExceptionCanChange(a: Exception, b: Exception, f: Finding, image: string, today: string)
    requires a != b && Applies(a, f, image, today) && Applies(b, f, image, today)
    ensures multiset([a, b]) == multiset([b, a])
    ensures FirstApplying([a, b], f, image, today) == Some(a) && FirstApplying([b, a], f, image, today) == Some(b)
  {
    hide Applies;
    assert [a, b][1..] == [b] && [b, a][1..] == [a];
  }

  /** Reordering the ledger never changes pass or fail. */
  lemma LedgerOrderIsIrrelevant(scan: Scan, image: string, today: string, p: Policy, reordered: seq<Exception>)
    requires multiset(reordered) == multiset(p.ledger) && IsDate(today)
    ensures Passes(scan, image, today, p) <==> Passes(scan, image, today, p.(ledger := reordered))
  {
    hide Passes, IsDate;
    var q := p.(ledger := reordered);
    LeReflexive(today);
    assert forall e :: e in p.ledger <==> e in q.ledger by {
      forall e ensures e in p.ledger <==> e in q.ledger {
        assert e in p.ledger <==> e in multiset(p.ledger);
        assert e in q.ledger <==> e in multiset(reordered);
      }
    }
    if Passes(scan, image, today, p) { PassingIsMonotone(scan, image, today, today, p, q); }
    if Passes(scan, image, today, q) { PassingIsMonotone(scan, image, today, today, q, p); }
  }
}
