/** When the collector and the assembler agree on every scan: one side trims what the other
    compares as it stands, so the condition is about white space, and only where it can be seen. */
module SuppressionExactness {
  import opened Text
  import opened ScanSuppression
  import opened SuppressionAgreement

  // ---------- the days a clock can give ----------

  function Digit(c: char): int { c as int - '0' as int }

  function Year(s: string): int
    requires IsDate(s)
  {
    Digit(s[0]) * 1000 + Digit(s[1]) * 100 + Digit(s[2]) * 10 + Digit(s[3])
  }

  function Month(s: string): int
    requires IsDate(s)
  {
    Digit(s[5]) * 10 + Digit(s[6])
  }

  function DayOfMonth(s: string): int
    requires IsDate(s)
  {
    Digit(s[8]) * 10 + Digit(s[9])
  }

  function DaysIn(year: int, month: int): int {
    if month == 2 then (if year % 4 == 0 && (year % 100 != 0 || year % 400 == 0) then 29 else 28)
    else if month == 4 || month == 6 || month == 9 || month == 11 then 30
    else 31
  }

  /** A calendar day as `date.isoformat` writes it: years start at one. */
  predicate IsDay(s: string) {
    IsDate(s) && 1 <= Year(s) && 1 <= Month(s) <= 12 && 1 <= DayOfMonth(s) <= DaysIn(Year(s), Month(s))
  }

  const FIRST_DAY := "0001-01-01"

  lemma LaterTail(a: string, b: string, k: nat)
    requires k < |a| && k < |b|
    ensures a[k] < b[k] ==> Le(a[k..], b[k..])
    ensures a[k] == b[k] && Le(a[k + 1..], b[k + 1..]) ==> Le(a[k..], b[k..])
  {
    assert a[k..][1..] == a[k + 1..] && b[k..][1..] == b[k + 1..];
  }

  /** No calendar day comes before the first. */
  lemma {:induction false} FirstDayIsFirst(d: string)
    requires IsDay(d)
    ensures Le(FIRST_DAY, d)
  {
    hide Le;
    var f := FIRST_DAY;
    assert AllDigits(d, 0, 4);
    assert IsDigit(d[0]) && IsDigit(d[1]) && IsDigit(d[2]) && IsDigit(d[3]);
    MonthPartIsLate(d);
    assert d[0] == '0' && d[1] == '0' && d[2] == '0' ==> d[3] >= '1';
    LaterTail(f, d, 3);
    LaterTail(f, d, 2);
    LaterTail(f, d, 1);
    LaterTail(f, d, 0);
    assert f[0..] == f && d[0..] == d;
  }

  lemma MonthPartIsLate(d: string)
    requires IsDay(d)
    ensures Le(FIRST_DAY[4..], d[4..])
  {
    hide Le;
    var f := FIRST_DAY;
    assert AllDigits(d, 5, 7);
    assert IsDigit(d[5]) && IsDigit(d[6]);
    DayPartIsLate(d);
    LaterTail(f, d, 7);
    assert d[5] == '0' ==> d[6] >= '1';
    LaterTail(f, d, 6);
    LaterTail(f, d, 5);
    LaterTail(f, d, 4);
  }

  lemma DayPartIsLate(d: string)
    requires IsDay(d)
    ensures Le(FIRST_DAY[8..], d[8..])
  {
    hide Le;
    var f := FIRST_DAY;
    assert AllDigits(d, 8, 10);
    LeReflexive([]);
    assert IsDigit(d[8]) && IsDigit(d[9]);
    assert d[8] == '0' ==> d[9] >= '1';
    assert f[10..] == [] && d[10..] == [];
    LaterTail(f, d, 9);
    LaterTail(f, d, 8);
  }

  // ---------- agreement ----------

  /** The two checkers give the same answer for one scan. */
  ghost predicate AgreeOn(c: Contract, scan: Suppressed, threshold: int, today: string, pinned: string,
                          patterns: Patterns) {
    var v := Judge(scan, Some(c), threshold, today, pinned, patterns);
    AssemblerAccepts(Project(v), v.uncovered, today, c, pinned) <==> Clean(v)
  }

  /** They agree on every scan, at every threshold, on every day, with this pinned version and
      this expression engine. */
  ghost predicate AgreeOnEveryScan(c: Contract, pinned: string, patterns: Patterns) {
    forall scan: Suppressed, threshold: int, today: string ::
      IsDay(today) ==> AgreeOn(c, scan, threshold, today, pinned, patterns)
  }

  function LastDay(c: Contract): string { Earliest(Expiries(c.rules)) }

  /** Some verdict under this contract can be clean: there is a day on which no rule has expired,
      and the contract has not lapsed either as declared or as some covering rule binds it. */
  ghost predicate CanBeClean(c: Contract, patterns: Patterns) {
    && Le(FIRST_DAY, LastDay(c))
    && (Le(c.resolvedOn, LastDay(c)) || exists j :: 0 <= j < |c.rules| && MayCover(c, j, patterns))
  }

  // ---------- scans that show a difference ----------

  /** A scan with these rules in effect that suppresses one critical finding, by rule j, or none. */
  function Sample(c: Contract, effective: seq<IgnoreRule>, covering: Option<(nat, string)>): Suppressed
    requires covering.Some? ==> covering.value.0 < |c.rules|
  {
    var ignored := if covering.None? then []
                   else [Match("CVE", covering.value.1, "Critical", [], [Key(c.rules[covering.value.0])])];
    Suppressed(ignored, effective, Some(Strip(c.toolVersion)))
  }

  lemma NothingHasExpired(c: Contract, compiles: set<string>)
    requires Accepted(c, compiles) && Le(FIRST_DAY, LastDay(c))
    ensures ExpiredIds(c.rules, FIRST_DAY) == [] && UnjustifiedIds(c.rules) == []
    ensures forall i :: 0 <= i < |c.rules| ==> Unexpired(c.rules[i], FIRST_DAY)
  {
    hide IsDate, Le, Strip, IsRuleId, IsVersion, Earliest, Expiries, FIRST_DAY;
    assert IsDate(FIRST_DAY) by { FirstDayIsADate(); }
    forall i | 0 <= i < |c.rules| ensures Unexpired(c.rules[i], FIRST_DAY) {
      assert UsableRule(c.rules[i], compiles);
      ExpiryIsListed(c.rules, compiles, i);
      LeTransitive(FIRST_DAY, LastDay(c), Strip(c.rules[i].expiresOn));
    }
  }

  lemma FirstDayIsADate()
    ensures IsDate(FIRST_DAY) && IsDay(FIRST_DAY)
  {
  }

  /** Keys are distinct, so a key leads to its own rule. */
  lemma RuleForItsKey(c: Contract, compiles: set<string>, i: nat)
    requires Accepted(c, compiles) && i < |c.rules|
    ensures RuleFor(c.rules, Key(c.rules[i])) == Some(c.rules[i])
  {
    hide RuleFor, UsableRule, Key, IsDate, IsVersion;
    var r := RuleFor(c.rules, Key(c.rules[i]));
    assert r.Some?;
    var n :| 0 <= n < |c.rules| && c.rules[n] == r.value;
    assert Key(c.rules[n]) == Key(c.rules[i]);
  }

  lemma {:induction false} NothingApplied(rules: seq<Rule>, today: string, patterns: Patterns)
    ensures Gated([], 0) == [] && CoveringIds(rules, [], today, patterns) == []
    ensures Uncovered(rules, [], today, patterns) == []
    ensures Tally([]) == map[] && Applied(rules, {}) == [] && Earliest(Expiries([])) == []
  {
    NoneApply(rules);
  }

  lemma {:induction false} NoneApply(rules: seq<Rule>)
    ensures Applied(rules, {}) == []
  {
    if rules != [] { NoneApply(rules[1..]); }
  }

  /** The sample without a finding is clean wherever the contract as declared has not lapsed. */
  lemma {:induction false} QuietSampleIsClean(c: Contract, compiles: set<string>, effective: seq<IgnoreRule>,
                                              pinned: string, patterns: Patterns)
    requires Accepted(c, compiles) && Le(FIRST_DAY, LastDay(c)) && Le(c.resolvedOn, LastDay(c))
    requires Undeclared(effective, c.rules) == [] && Strip(pinned) == Strip(c.toolVersion)
    ensures Clean(Judge(Sample(c, effective, None), Some(c), 0, FIRST_DAY, pinned, patterns))
  {
    hide Accepted, IsDate, Le, Sorted, Ids, Strip, Key, Tally, Earliest, Expiries, Applied, ExpiredIds, UnjustifiedIds,
         Undeclared, Gated, CoveringIds, Uncovered, FIRST_DAY;
    NothingHasExpired(c, compiles);
    NothingApplied(c.rules, FIRST_DAY, patterns);
    assert Tally([]).Keys == {};
  }

  lemma {:induction false} OneCoveredFinding(c: Contract, compiles: set<string>, j: nat, text: string,
                                             patterns: Patterns, m: Match)
    requires Accepted(c, compiles) && Le(FIRST_DAY, LastDay(c)) && j < |c.rules|
    requires patterns(Key(c.rules[j]).package, text)
    requires m == Match("CVE", text, "Critical", [], [Key(c.rules[j])])
    ensures CoveringId(c.rules, m.applied, m, FIRST_DAY, patterns) == Some(c.rules[j].id)
  {
    hide Accepted, Unexpired, RuleFor, UnjustifiedIds, Key, FIRST_DAY, Le, LastDay;
    RuleForItsKey(c, compiles, j);
    NothingHasExpired(c, compiles);
    assert Qualifies(c.rules, m.applied[0], m, FIRST_DAY, patterns);
  }

  lemma {:induction false} OneFindingTallies(rules: seq<Rule>, m: Match, today: string, patterns: Patterns, id: string)
    requires CoveringId(rules, m.applied, m, today, patterns) == Some(id) && m.severity == "Critical"
    ensures Gated([m], 0) == [m] && CoveringIds(rules, [m], today, patterns) == [id]
    ensures Uncovered(rules, [m], today, patterns) == []
    ensures Tally([id]) == map[id := 1] && Tally([id]).Keys == {id}
  {
    hide CoveringId;
    assert [m][1..] == [];
    assert [id][..0] == [];
    assert CoveringIds(rules, [], today, patterns) == [];
  }

  /** The sample covered by one rule is clean wherever that rule may cover. */
  lemma {:induction false} CoveredSampleIsClean(c: Contract, compiles: set<string>, effective: seq<IgnoreRule>, j: nat,
                                                text: string, pinned: string, patterns: Patterns)
    requires Accepted(c, compiles) && Le(FIRST_DAY, LastDay(c)) && j < |c.rules|
    requires MayCover(c, j, patterns) && patterns(Key(c.rules[j]).package, text)
    requires Undeclared(effective, c.rules) == [] && Strip(pinned) == Strip(c.toolVersion)
    ensures var v := Judge(Sample(c, effective, Some((j, text))), Some(c), 0, FIRST_DAY, pinned, patterns);
            Clean(v) && v.coveredByRule == map[c.rules[j].id := 1]
  {
    hide Accepted, IsDate, Le, Sorted, Ids, Strip, Key, Tally, Earliest, Expiries, Applied, ExpiredIds, UnjustifiedIds,
         Undeclared, Gated, CoveringId, CoveringIds, Uncovered, FIRST_DAY, MatchesSome;
    var m := Match("CVE", text, "Critical", [], [Key(c.rules[j])]);
    OneCoveredFinding(c, compiles, j, text, patterns, m);
    OneFindingTallies(c.rules, m, FIRST_DAY, patterns, c.rules[j].id);
    NothingHasExpired(c, compiles);
    OnlyThatRuleApplies(c, compiles, j);
    assert Strip(c.rules[j].expiresOn) != [] by { ExpiryIsNotEmpty(c, compiles, j); }
  }

  lemma ExpiryIsNotEmpty(c: Contract, compiles: set<string>, j: nat)
    requires Accepted(c, compiles) && j < |c.rules|
    ensures Strip(c.rules[j].expiresOn) != []
  {
    hide IsVersion, IsRuleId, Strip;
    assert UsableRule(c.rules[j], compiles);
  }

  lemma OnlyThatRuleApplies(c: Contract, compiles: set<string>, j: nat)
    requires Accepted(c, compiles) && j < |c.rules|
    ensures Earliest(Expiries(Applied(c.rules, {c.rules[j].id}))) == Strip(c.rules[j].expiresOn)
  {
    hide Earliest, Expiries, Accepted, Strip, Kept, Justified, IsRuleId;
    var applied := Applied(c.rules, {c.rules[j].id});
    assert c.rules[j] in applied;
    EveryRuleIsKept(c, compiles, j);
    RulesAreUsable(c, compiles, j);
    forall k | 0 <= k < |applied| ensures applied[k] == c.rules[j] {
      assert applied[k] in c.rules;
      var n :| 0 <= n < |c.rules| && c.rules[n] == applied[k];
    }
    assert Strip(c.rules[j].expiresOn) in Expiries(applied);
    assert Earliest(Expiries(applied)) in Expiries(applied);
  }

  /** Under a contract that can be clean there is a clean sample with any declared rule, or none,
      in effect. */
  lemma SomeSampleIsClean(c: Contract, compiles: set<string>, effective: seq<IgnoreRule>, pinned: string,
                          patterns: Patterns)
    returns (scan: Suppressed)
    requires Accepted(c, compiles) && CanBeClean(c, patterns)
    requires Undeclared(effective, c.rules) == [] && Strip(pinned) == Strip(c.toolVersion)
    ensures Clean(Judge(scan, Some(c), 0, FIRST_DAY, pinned, patterns)) && scan.effective == effective
  {
    hide Accepted, Judge, Clean, Undeclared, Strip, Le, LastDay, FIRST_DAY, Key;
    if Le(c.resolvedOn, LastDay(c)) {
      scan := Sample(c, effective, None);
      QuietSampleIsClean(c, compiles, effective, pinned, patterns);
    } else {
      var j :| 0 <= j < |c.rules| && MayCover(c, j, patterns);
      var text :| patterns(Key(c.rules[j]).package, text);
      scan := Sample(c, effective, Some((j, text)));
      CoveredSampleIsClean(c, compiles, effective, j, text, pinned, patterns);
    }
  }

  /** White space around the pinned version: the collector trims it, the assembler does not. */
  lemma UntrimmedPinDisagrees(c: Contract, compiles: set<string>, pinned: string,
                              patterns: Patterns) returns (scan: Suppressed)
    requires Accepted(c, compiles) && CanBeClean(c, patterns) && Strip(pinned) == Strip(c.toolVersion)
    requires !Trimmed(pinned)
    ensures !AgreeOn(c, scan, 0, FIRST_DAY, pinned, patterns)
  {
    hide Accepted, Clean, CanBeClean, Strip, Trimmed, FIRST_DAY, Key, RulesAreTheContracts, NothingReported,
         CoverageAccounts, NotLapsed, Gated, CoveringIds, Uncovered, Tally, Sorted, Ids, Earliest, Expiries, Applied,
         ExpiredIds, UnjustifiedIds, Refusals;
    assert Undeclared([], c.rules) == [];
    scan := SomeSampleIsClean(c, compiles, [], pinned, patterns);
    assert Trimmed(Strip(pinned));
  }

  /** A rule in effect whose declaration carries white space: the collector knows it, the
      assembler does not. */
  lemma UntrimmedKeyDisagrees(c: Contract, compiles: set<string>, i: nat, pinned: string, patterns: Patterns)
    returns (scan: Suppressed)
    requires Accepted(c, compiles) && CanBeClean(c, patterns) && Strip(pinned) == Strip(c.toolVersion)
    requires i < |c.rules| && RawKey(c.rules[i]) != Key(c.rules[i])
    ensures !AgreeOn(c, scan, 0, FIRST_DAY, pinned, patterns)
  {
    hide Accepted, Clean, CanBeClean, Strip, FIRST_DAY, Key, RawKey, NothingReported, ScannerIsPinned,
         CoverageAccounts, NotLapsed, NamesAKeptRule, RuleFor, Gated, CoveringIds, Uncovered, Tally, Sorted, Ids,
         Earliest, Expiries, Applied, ExpiredIds, UnjustifiedIds, Refusals, Kept, Justified;
    var effective := [Key(c.rules[i])];
    RuleForItsKey(c, compiles, i);
    assert Undeclared(effective, c.rules) == [];
    scan := SomeSampleIsClean(c, compiles, effective, pinned, patterns);
    NoOtherRawKey(c, compiles, i);
    assert scan.effective[0] == Key(c.rules[i]);
  }

  lemma NoOtherRawKey(c: Contract, compiles: set<string>, i: nat)
    requires Accepted(c, compiles) && i < |c.rules| && RawKey(c.rules[i]) != Key(c.rules[i])
    ensures !NamesAKeptRule(c.rules, Key(c.rules[i]))
  {
    hide UsableRule, IsDate, IsVersion, Kept;
    forall j | 0 <= j < |c.rules| ensures RawKey(c.rules[j]) == Key(c.rules[i]) ==> j == i {
      if RawKey(c.rules[j]) == Key(c.rules[i]) { TrimmedKeysStay(c.rules[j], c.rules[i]); }
    }
  }

  lemma TrimmedKeysStay(r: Rule, s: Rule)
    requires RawKey(r) == Key(s)
    ensures Key(r) == Key(s)
  {
    hide Strip;
    assert Trimmed(r.package) && Trimmed(r.packageType) && Trimmed(r.matchType);
  }

  /** A covering rule whose id carries white space: the collector counts it under an id the
      assembler does not recognise. */
  lemma UntrimmedIdDisagrees(c: Contract, compiles: set<string>, i: nat, pinned: string, patterns: Patterns)
    returns (scan: Suppressed)
    requires Accepted(c, compiles) && Le(FIRST_DAY, LastDay(c)) && Strip(pinned) == Strip(c.toolVersion)
    requires i < |c.rules| && MayCover(c, i, patterns) && !Trimmed(c.rules[i].id)
    ensures !AgreeOn(c, scan, 0, FIRST_DAY, pinned, patterns)
  {
    hide Accepted, Clean, Le, LastDay, Strip, FIRST_DAY, RulesAreTheContracts, NothingReported, ScannerIsPinned,
         NotLapsed, Judge, Key, IsRuleId;
    var text :| patterns(Key(c.rules[i]).package, text);
    scan := Sample(c, [], Some((i, text)));
    assert Undeclared([], c.rules) == [];
    CoveredSampleIsClean(c, compiles, [], i, text, pinned, patterns);
    RuleIdsAreTrimmed(c.rules[i].id);
    var v := Judge(scan, Some(c), 0, FIRST_DAY, pinned, patterns);
    assert c.rules[i].id in Project(v).coveredByRule;
  }

  lemma RuleIdsAreTrimmed(id: string)
    ensures IsRuleId(id) ==> Trimmed(id)
  {
    if IsRuleId(id) { assert IsDigit(id[10]); }
  }

  // ---------- where nothing can differ ----------

  /** A clean verdict on some day shows that the contract can be clean, with this pinned version. */
  lemma CleanMeansCanBe(scan: Suppressed, c: Contract, compiles: set<string>, threshold: int, today: string,
                        pinned: string,
                        patterns: Patterns)
    requires Accepted(c, compiles) && IsDay(today)
    requires Clean(Judge(scan, Some(c), threshold, today, pinned, patterns))
    ensures CanBeClean(c, patterns) && Strip(pinned) == Strip(c.toolVersion)
  {
    hide Accepted, IsDate, Le, Sorted, Ids, Strip, Tally, Earliest, Expiries, Applied, ExpiredIds, UnjustifiedIds,
         Undeclared, Gated, CoveringIds, Uncovered, FIRST_DAY, MayCover, Unexpired;
    AcceptedDeclaresSomething(c, compiles);
    UnexpiredRulesBindLater(c.rules, today);
    FirstDayIsFirst(today);
    LeTransitive(FIRST_DAY, today, LastDay(c));
    var gated := Gated(scan.ignored, threshold);
    var ids := CoveringIds(c.rules, gated, today, patterns);
    if !Le(c.resolvedOn, LastDay(c)) {
      var id := AppliedMeansCovered(c, ids);
      var j := CoveredIdsMayCover(c, compiles, ids, gated, today, patterns, id);
    }
  }

  lemma AppliedMeansCovered(c: Contract, ids: seq<string>) returns (id: string)
    requires Earliest(Expiries(Applied(c.rules, Tally(ids).Keys))) != []
    ensures id in ids
  {
    hide Earliest, Expiries, Tally;
    var applied := Applied(c.rules, Tally(ids).Keys);
    NoExpiry();
    assert applied[0] in applied;
    id := applied[0].id;
  }

  /** The exact condition for agreement on every accepted contract, with any pinned version and any
      expression engine: either no verdict can be clean, or the pinned version is another one, or
      what the checkers read differently is written without surrounding white space. */
  lemma AgreementIsExact(c: Contract, compiles: set<string>, pinned: string, patterns: Patterns)
    requires Accepted(c, compiles)
    ensures AgreeOnEveryScan(c, pinned, patterns) <==>
      (CanBeClean(c, patterns) && Strip(pinned) == Strip(c.toolVersion) ==> WellWritten(c, pinned, patterns))
  {
    hide Judge, AssemblerAccepts, Clean, Accepted, IsDate, CanBeClean, Strip, WellWritten, FIRST_DAY;
    if CanBeClean(c, patterns) && Strip(pinned) == Strip(c.toolVersion) ==> WellWritten(c, pinned, patterns) {
      forall scan: Suppressed, threshold: int, today: string | IsDay(today)
        ensures AgreeOn(c, scan, threshold, today, pinned, patterns)
      {
        var v := Judge(scan, Some(c), threshold, today, pinned, patterns);
        if Clean(v) {
          CleanMeansCanBe(scan, c, compiles, threshold, today, pinned, patterns);
          CheckersAgree(scan, c, compiles, threshold, today, pinned, patterns);
        } else if AssemblerAccepts(Project(v), v.uncovered, today, c, pinned) {
          AcceptedIsClean(v, c, today, pinned);
        }
      }
    } else {
      FirstDayIsADate();
      var scan := BadlyWrittenDisagrees(c, compiles, pinned, patterns);
    }
  }

  lemma BadlyWrittenDisagrees(c: Contract, compiles: set<string>, pinned: string,
                              patterns: Patterns) returns (scan: Suppressed)
    requires Accepted(c, compiles) && CanBeClean(c, patterns) && Strip(pinned) == Strip(c.toolVersion)
    requires !WellWritten(c, pinned, patterns)
    ensures !AgreeOn(c, scan, 0, FIRST_DAY, pinned, patterns)
  {
    hide AgreeOn, Accepted, Strip, FIRST_DAY, Le, LastDay, MayCover, Key, RawKey, Trimmed;
    if !Trimmed(pinned) {
      scan := UntrimmedPinDisagrees(c, compiles, pinned, patterns);
    } else if i :| 0 <= i < |c.rules| && RawKey(c.rules[i]) != Key(c.rules[i]) {
      scan := UntrimmedKeyDisagrees(c, compiles, i, pinned, patterns);
    } else {
      var i :| 0 <= i < |c.rules| && MayCover(c, i, patterns) && !Trimmed(c.rules[i].id);
      scan := UntrimmedIdDisagrees(c, compiles, i, pinned, patterns);
    }
  }
}
