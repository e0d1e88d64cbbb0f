/** The public export allowlist (scripts/export_public_candidate.py): the incremental overlap
    check over path and prefix selectors, and the classification it makes unambiguous. */
module ExportPolicy {
  import opened Text

  datatype Rule = Rule(id: string, classification: string, paths: seq<string>, prefixes: seq<string>)

  datatype Policy = Policy(default: Rule, rules: seq<Rule>)

  datatype Selector = Exact(text: string) | Prefix(text: string)

  predicate Picks(s: Selector, path: string) {
    if s.Exact? then path == s.text else s.text <= path
  }

  predicate Selects(rule: Rule, path: string) {
    path in rule.paths || exists i :: 0 <= i < |rule.prefixes| && rule.prefixes[i] <= path
  }

  /** The textual test of the loader for one new selector against one it has seen. */
  predicate Overlaps(a: Selector, b: Selector) {
    match (a, b)
    case (Exact(s), Exact(t)) => s == t
    case (Exact(s), Prefix(t)) => t <= s
    case (Prefix(s), Exact(t)) => s <= t
    case (Prefix(s), Prefix(t)) => s <= t || t <= s
  }

  /** The test is exact: two selectors overlap if and only if some path is picked by both. Two
      prefixes of one string are comparable, which is what makes it complete. */
  lemma OverlapIsSharedPath(a: Selector, b: Selector)
    ensures Overlaps(a, b) <==> exists path :: Picks(a, path) && Picks(b, path)
  {
    if Overlaps(a, b) {
      var shared := if a.Exact? || (b.Prefix? && |b.text| <= |a.text|) then a.text else b.text;
      assert Picks(a, shared) && Picks(b, shared);
    }
    if exists path :: Picks(a, path) && Picks(b, path) {
      var path :| Picks(a, path) && Picks(b, path);
      if a.Prefix? && b.Prefix? {
        assert path[..|a.text|] == a.text && path[..|b.text|] == b.text;
        if |a.text| <= |b.text| { assert path[..|b.text|][..|a.text|] == a.text; }
        else { assert path[..|a.text|][..|b.text|] == b.text; }
      }
    }
  }

  function Exacts(paths: seq<string>): (r: seq<Selector>)
    ensures |r| == |paths| && forall i :: 0 <= i < |r| ==> r[i] == Exact(paths[i])
  {
    if paths == [] then [] else [Exact(paths[0])] + Exacts(paths[1..])
  }

  function Prefixes(prefixes: seq<string>): (r: seq<Selector>)
    ensures |r| == |prefixes| && forall i :: 0 <= i < |r| ==> r[i] == Prefix(prefixes[i])
  {
    if prefixes == [] then [] else [Prefix(prefixes[0])] + Prefixes(prefixes[1..])
  }

  function SelectorsOf(rule: Rule): seq<Selector> {
    Exacts(rule.paths) + Prefixes(rule.prefixes)
  }

  function Selectors(rules: seq<Rule>): seq<Selector> {
    if rules == [] then [] else SelectorsOf(rules[0]) + Selectors(rules[1..])
  }

  ghost predicate Clear(ss: seq<Selector>) {
    forall i, j :: 0 <= i < j < |ss| ==> !Overlaps(ss[i], ss[j])
  }

  ghost predicate Clashes(ss: seq<Selector>, s: Selector) {
    exists i :: 0 <= i < |ss| && Overlaps(ss[i], s)
  }

  lemma ClearAppend(ss: seq<Selector>, s: Selector)
    ensures Clear(ss + [s]) <==> Clear(ss) && !Clashes(ss, s)
  {
    if Clear(ss + [s]) {
      assert forall i :: 0 <= i < |ss| ==> (ss + [s])[i] == ss[i];
      forall i | 0 <= i < |ss| ensures !Overlaps(ss[i], s) { assert (ss + [s])[i] == ss[i] && (ss + [s])[|ss|] == s; }
      forall i, j | 0 <= i < j < |ss| ensures !Overlaps(ss[i], ss[j]) {
        assert (ss + [s])[i] == ss[i] && (ss + [s])[j] == ss[j];
      }
    }
  }

  lemma ClearPrefix(a: seq<Selector>, b: seq<Selector>)
    requires Clear(a + b)
    ensures Clear(a) && Clear(b)
    ensures forall i, j :: 0 <= i < |a| && 0 <= j < |b| ==> !Overlaps(a[i], b[j])
  {
    forall i, j | 0 <= i < j < |a| ensures !Overlaps(a[i], a[j]) { assert (a + b)[i] == a[i] && (a + b)[j] == a[j]; }
    forall i, j | 0 <= i < j < |b| ensures !Overlaps(b[i], b[j]) {
      assert (a + b)[|a| + i] == b[i] && (a + b)[|a| + j] == b[j];
    }
    forall i, j | 0 <= i < |a| && 0 <= j < |b| ensures !Overlaps(a[i], b[j]) {
      assert (a + b)[i] == a[i] && (a + b)[|a| + j] == b[j];
    }
  }

  /** The owner dictionaries hold exactly the selectors seen so far. */
  ghost predicate Records(exact: set<string>, prefixes: set<string>, seen: seq<Selector>) {
    && (forall t :: t in exact <==> Exact(t) in seen)
    && (forall t :: t in prefixes <==> Prefix(t) in seen)
  }

  predicate PathIsTaken(exact: set<string>, prefixes: set<string>, selected: string) {
    selected in exact || exists p :: p in prefixes && p <= selected
  }

  predicate PrefixIsTaken(exact: set<string>, prefixes: set<string>, selected: string) {
    || selected in prefixes
    || (exists p :: p in prefixes && (p <= selected || selected <= p))
    || (exists path :: path in exact && selected <= path)
  }

  lemma TakenIsClash(exact: set<string>, prefixes: set<string>, seen: seq<Selector>, t: string)
    requires Records(exact, prefixes, seen)
    ensures PathIsTaken(exact, prefixes, t) <==> Clashes(seen, Exact(t))
    ensures PrefixIsTaken(exact, prefixes, t) <==> Clashes(seen, Prefix(t))
  {
  }

  /** The loop over the paths of one rule. */
  method AddPaths(paths: seq<string>, owned: set<string>, prefixes: set<string>, ghost before: seq<Selector>)
    returns (ok: bool, exact: set<string>)
    requires Clear(before) && Records(owned, prefixes, before)
    ensures ok <==> Clear(before + Exacts(paths))
    ensures ok ==> Records(exact, prefixes, before + Exacts(paths))
  {
    hide PathIsTaken, Overlaps, Clear, Clashes;
    exact := owned;
    ghost var seen := before;
    for i := 0 to |paths|
      invariant seen == before + Exacts(paths)[..i]
      invariant Clear(seen) && Records(exact, prefixes, seen)
    {
      var selected := paths[i];
      TakenIsClash(exact, prefixes, seen, selected);
      ClearAppend(seen, Exact(selected));
      assert before + Exacts(paths)[..i + 1] == seen + [Exact(selected)];
      if PathIsTaken(exact, prefixes, selected) {
        Stopped(seen + [Exact(selected)], before + Exacts(paths));
        return false, exact;
      }
      seen := seen + [Exact(selected)];
      exact := exact + {selected};
    }
    assert Exacts(paths)[..|paths|] == Exacts(paths);
    return true, exact;
  }

  /** The loop over the prefixes of one rule. */
  method AddPrefixes(selectors: seq<string>, exact: set<string>, owned: set<string>, ghost before: seq<Selector>)
    returns (ok: bool, prefixes: set<string>)
    requires Clear(before) && Records(exact, owned, before)
    ensures ok <==> Clear(before + Prefixes(selectors))
    ensures ok ==> Records(exact, prefixes, before + Prefixes(selectors))
  {
    hide PrefixIsTaken, Overlaps, Clear, Clashes;
    prefixes := owned;
    ghost var seen := before;
    for i := 0 to |selectors|
      invariant seen == before + Prefixes(selectors)[..i]
      invariant Clear(seen) && Records(exact, prefixes, seen)
    {
      var selected := selectors[i];
      TakenIsClash(exact, prefixes, seen, selected);
      ClearAppend(seen, Prefix(selected));
      assert before + Prefixes(selectors)[..i + 1] == seen + [Prefix(selected)];
      if PrefixIsTaken(exact, prefixes, selected) {
        Stopped(seen + [Prefix(selected)], before + Prefixes(selectors));
        return false, prefixes;
      }
      seen := seen + [Prefix(selected)];
      prefixes := prefixes + {selected};
    }
    assert Prefixes(selectors)[..|selectors|] == Prefixes(selectors);
    return true, prefixes;
  }

  /** The overlap loops of `load_policy`: accepted exactly when no two selectors of the whole
      policy overlap. */
  method CheckOverlaps(rules: seq<Rule>) returns (ok: bool)
    ensures ok <==> Clear(Selectors(rules))
  {
    hide Overlaps, Exacts, Prefixes, Clear;
    var exact: set<string>, prefixes: set<string> := {}, {};
    ghost var all := Selectors(rules);
    ghost var seen: seq<Selector> := [];
    assert rules[0..] == rules;
    assert Clear([]) by { NothingOverlaps(); }
    for r := 0 to |rules|
      invariant seen + Selectors(rules[r..]) == all
      invariant Clear(seen) && Records(exact, prefixes, seen)
    {
      var rule := rules[r];
      ghost var paths, ends, later := Exacts(rule.paths), Prefixes(rule.prefixes), Selectors(rules[r + 1..]);
      assert rules[r..][1..] == rules[r + 1..];
      assert all == (seen + paths) + (ends + later) == ((seen + paths) + ends) + later;
      ok, exact := AddPaths(rule.paths, exact, prefixes, seen);
      if !ok { Stopped(seen + paths, all); return false; }
      ok, prefixes := AddPrefixes(rule.prefixes, exact, prefixes, seen + paths);
      if !ok { Stopped((seen + paths) + ends, all); return false; }
      seen := (seen + paths) + ends;
    }
    assert rules[|rules|..] == [] && seen + [] == seen;
    return true;
  }

  lemma NothingOverlaps()
    ensures Clear([])
  {
  }

  lemma Stopped(part: seq<Selector>, all: seq<Selector>)
    requires part <= all && !Clear(part)
    ensures !Clear(all)
  {
  }

  // ---------- classification ----------

  function Matches(rules: seq<Rule>, path: string): seq<Rule> {
    if rules == [] then []
    else (if Selects(rules[0], path) then [rules[0]] else []) + Matches(rules[1..], path)
  }

  /** `_classify`: the one matching rule or the default; more than one match is an error. */
  function Classify(policy: Policy, path: string): Option<Rule> {
    var found := Matches(policy.rules, path);
    if |found| > 1 then None else if |found| == 1 then Some(found[0]) else Some(policy.default)
  }

  lemma SelectingIsPicking(rule: Rule, path: string)
    ensures Selects(rule, path) <==> exists i :: 0 <= i < |SelectorsOf(rule)| && Picks(SelectorsOf(rule)[i], path)
  {
    var ss := SelectorsOf(rule);
    if Selects(rule, path) {
      if path in rule.paths {
        var i :| 0 <= i < |rule.paths| && rule.paths[i] == path;
        assert ss[i] == Exact(path);
      } else {
        var i :| 0 <= i < |rule.prefixes| && rule.prefixes[i] <= path;
        assert ss[|rule.paths| + i] == Prefix(rule.prefixes[i]);
      }
    }
  }

  lemma {:induction false} MatchHasASelector(rules: seq<Rule>, path: string)
    requires Matches(rules, path) != []
    ensures exists i :: 0 <= i < |Selectors(rules)| && Picks(Selectors(rules)[i], path)
  {
    hide Selects, Picks, SelectorsOf;
    var first, rest := SelectorsOf(rules[0]), Selectors(rules[1..]);
    if Selects(rules[0], path) {
      SelectingIsPicking(rules[0], path);
      var i :| 0 <= i < |first| && Picks(first[i], path);
      assert Selectors(rules)[i] == first[i];
    } else {
      MatchHasASelector(rules[1..], path);
      var i :| 0 <= i < |rest| && Picks(rest[i], path);
      assert Selectors(rules)[|first| + i] == rest[i];
    }
  }

  /** Policy unambiguity: once the overlap check accepts, no path string whatsoever is selected
      by two rules, so the multiple-match error of classification is unreachable. */
  lemma {:induction false} AtMostOneMatch(rules: seq<Rule>, path: string)
    requires Clear(Selectors(rules))
    ensures |Matches(rules, path)| <= 1
  {
    hide Selects, Picks, SelectorsOf, Overlaps;
    if rules != [] {
      var first, rest := SelectorsOf(rules[0]), Selectors(rules[1..]);
      ClearPrefix(first, rest);
      AtMostOneMatch(rules[1..], path);
      if Selects(rules[0], path) && Matches(rules[1..], path) != [] {
        SelectingIsPicking(rules[0], path);
        MatchHasASelector(rules[1..], path);
        var i :| 0 <= i < |first| && Picks(first[i], path);
        var j :| 0 <= j < |rest| && Picks(rest[j], path);
        OverlapIsSharedPath(first[i], rest[j]);
        assert false;
      }
    }
  }

  lemma {:induction false} MatchesByCount(rules: seq<Rule>, path: string, r: Rule)
    ensures multiset(Matches(rules, path))[r] == if Selects(r, path) then multiset(rules)[r] else 0
  {
    hide Selects;
    if rules != [] {
      MatchesByCount(rules[1..], path, r);
      assert rules == [rules[0]] + rules[1..];
    }
  }

  /** Classification does not depend on the order of the rules. */
  lemma RuleOrderIsIrrelevant(policy: Policy, reordered: seq<Rule>, path: string)
    requires Clear(Selectors(policy.rules)) && multiset(reordered) == multiset(policy.rules)
    ensures Classify(policy.(rules := reordered), path) == Classify(policy, path) != None
  {
    hide Selects, Matches, Selectors;
    AtMostOneMatch(policy.rules, path);
    var a, b := Matches(policy.rules, path), Matches(reordered, path);
    assert multiset(a) == multiset(b) by {
      forall r ensures multiset(a)[r] == multiset(b)[r] {
        MatchesByCount(policy.rules, path, r);
        MatchesByCount(reordered, path, r);
      }
    }
    assert |a| == |multiset(a)| == |multiset(b)| == |b|;
    if |a| == 1 {
      assert a == [a[0]] && b == [b[0]];
      assert b[0] in multiset(b);
      assert b[0] in multiset(a);
    }
  }
}
