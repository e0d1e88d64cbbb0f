/** Which names put bytes on the wire (scripts/probe_preserved_paths.py): the well-known ones and
    every local function that calls one, found by repeated passes. */
module SinkNames {
  import opened Text

  const SEEDS: set<string> := {"request", "urlopen", "open", "get", "post", "put", "delete", "patch", "fetch"}

  /** A function definition with the callees in its body; a callee that is neither a name nor an
      attribute has none. Several functions may share a name. */
  datatype Function = Function(name: string, callees: seq<Option<string>>)

  predicate Calls(fs: seq<Function>, a: string, b: string) {
    exists i :: 0 <= i < |fs| && fs[i].name == a && Some(b) in fs[i].callees
  }

  /** A chain of calls from a name to a well-known sink. */
  ghost predicate IsChain(fs: seq<Function>, chain: seq<string>) {
    && chain != [] && chain[|chain| - 1] in SEEDS
    && forall i :: 0 <= i < |chain| - 1 ==> Calls(fs, chain[i], chain[i + 1])
  }

  ghost predicate Reaches(fs: seq<Function>, name: string) {
    exists chain :: IsChain(fs, chain) && chain[0] == name
  }

  lemma SeedsReach(fs: seq<Function>, name: string)
    requires name in SEEDS
    ensures Reaches(fs, name)
  {
    hide SEEDS;
    assert IsChain(fs, [name]);
  }

  lemma CallersReach(fs: seq<Function>, a: string, b: string)
    requires Calls(fs, a, b) && Reaches(fs, b)
    ensures Reaches(fs, a)
  {
    hide SEEDS, Calls;
    var chain :| IsChain(fs, chain) && chain[0] == b;
    assert IsChain(fs, [a] + chain);
  }

  ghost predicate IsClosed(fs: seq<Function>, names: set<string>) {
    forall i, j :: 0 <= i < |fs| && 0 <= j < |fs[i].callees| ==>
      fs[i].callees[j].Some? && fs[i].callees[j].value in names ==> fs[i].name in names
  }

  /** Whatever holds the well-known names and is closed under calling holds every name with a
      chain: the reaching names are the least such set. */
  lemma {:induction false} ChainIsInside(fs: seq<Function>, names: set<string>, chain: seq<string>)
    requires SEEDS <= names && IsClosed(fs, names) && IsChain(fs, chain)
    ensures chain[0] in names
  {
    hide SEEDS;
    if |chain| > 1 {
      assert Calls(fs, chain[0], chain[1]);
      ChainIsInside(fs, names, chain[1..]);
      var i :| 0 <= i < |fs| && fs[i].name == chain[0] && Some(chain[1]) in fs[i].callees;
    }
  }

  function Names(fs: seq<Function>): set<string> {
    set f | f in fs :: f.name
  }

  lemma {:induction false} FewNames(fs: seq<Function>)
    ensures |Names(fs)| <= |fs|
  {
    if fs == [] {
      assert Names(fs) == {};
    } else {
      FewNames(fs[1..]);
      assert Names(fs) == Names(fs[1..]) + {fs[0].name};
    }
  }

  /** Does a function call one of the names? */
  method CallsAny(f: Function, sinks: set<string>) returns (found: bool)
    ensures found <==> exists j :: 0 <= j < |f.callees| && f.callees[j].Some? && f.callees[j].value in sinks
  {
    for j := 0 to |f.callees|
      invariant forall k :: 0 <= k < j ==> !(f.callees[k].Some? && f.callees[k].value in sinks)
    {
      if f.callees[j].Some? && f.callees[j].value in sinks { return true; }
    }
    return false;
  }

  /** What every pass keeps. */
  ghost predicate IsPartial(fs: seq<Function>, sinks: set<string>) {
    SEEDS <= sinks && sinks <= SEEDS + Names(fs) && forall name :: name in sinks ==> Reaches(fs, name)
  }

  lemma AddCaller(fs: seq<Function>, sinks: set<string>, i: nat, j: nat)
    requires IsPartial(fs, sinks) && i < |fs| && j < |fs[i].callees| && fs[i].callees[j].Some?
    requires fs[i].callees[j].value in sinks
    ensures IsPartial(fs, sinks + {fs[i].name})
  {
    hide SEEDS, Reaches;
    assert Some(fs[i].callees[j].value) in fs[i].callees;
    CallersReach(fs, fs[i].name, fs[i].callees[j].value);
    assert fs[i] in fs;
  }

  /** One pass over the functions: when it changes nothing, the names are closed. */
  method Pass(fs: seq<Function>, before: set<string>) returns (sinks: set<string>, changed: bool)
    requires IsPartial(fs, before)
    ensures IsPartial(fs, sinks) && before <= sinks
    ensures changed ==> before < sinks
    ensures !changed ==> sinks == before && IsClosed(fs, sinks)
  {
    hide SEEDS, IsPartial;
    sinks, changed := before, false;
    for i := 0 to |fs|
      invariant IsPartial(fs, sinks) && before <= sinks
      invariant changed ==> before < sinks
      invariant !changed ==> sinks == before && forall k, j ::
        0 <= k < i && 0 <= j < |fs[k].callees| ==>
          fs[k].callees[j].Some? && fs[k].callees[j].value in sinks ==> fs[k].name in sinks
    {
      if fs[i].name !in sinks {
        var found := CallsAny(fs[i], sinks);
        if found {
          ghost var j :| 0 <= j < |fs[i].callees| && fs[i].callees[j].Some? && fs[i].callees[j].value in sinks;
          AddCaller(fs, sinks, i, j);
          sinks := sinks + {fs[i].name};
          changed := true;
        }
      }
    }
  }

  lemma SmallerIsFewer(a: set<string>, b: set<string>)
    requires a < b
    ensures |a| < |b|
  {
    var x :| x in b && x !in a;
    SubsetIsNoMore(a, b - {x});
  }

  lemma {:induction false} SubsetIsNoMore(a: set<string>, b: set<string>)
    requires a <= b
    ensures |a| <= |b|
  {
    if a != {} {
      var x :| x in a;
      SubsetIsNoMore(a - {x}, b - {x});
    }
  }

  /** `_sink_names`: exactly the names with a chain of calls to a well-known sink, after at most
      one more pass than there are functions. */
  method FindSinks(fs: seq<Function>) returns (sinks: set<string>, passes: nat)
    ensures forall name :: name in sinks <==> Reaches(fs, name)
    ensures SEEDS <= sinks && IsClosed(fs, sinks)
    ensures forall names :: SEEDS <= names && IsClosed(fs, names) ==> sinks <= names
    ensures passes <= |fs| + 1
  {
    hide SEEDS, Reaches, IsClosed;
    sinks, passes := SEEDS, 0;
    StartIsPartial(fs);
    var changed := true;
    while changed
      invariant IsPartial(fs, sinks)
      invariant !changed ==> IsClosed(fs, sinks)
      invariant passes <= |sinks - SEEDS| + (if changed then 0 else 1)
      decreases (SEEDS + Names(fs)) - sinks, changed
    {
      var before := sinks;
      sinks, changed := Pass(fs, before);
      passes := passes + 1;
      if changed {
        assert before - SEEDS < sinks - SEEDS by { OneOutside(before, sinks); }
        SmallerIsFewer(before - SEEDS, sinks - SEEDS);
      }
    }
    SubsetIsNoMore(sinks - SEEDS, Names(fs));
    FewNames(fs);
    LeastSet(fs, sinks);
  }

  lemma OneOutside(before: set<string>, after: set<string>)
    requires SEEDS <= before < after
    ensures before - SEEDS < after - SEEDS
  {
    hide SEEDS;
    var x :| x in after && x !in before;
    assert x in after - SEEDS && x !in before - SEEDS;
  }

  lemma StartIsPartial(fs: seq<Function>)
    ensures IsPartial(fs, SEEDS)
  {
    hide SEEDS, Reaches;
    forall name | name in SEEDS ensures Reaches(fs, name) { SeedsReach(fs, name); }
  }

  lemma LeastSet(fs: seq<Function>, sinks: set<string>)
    requires IsPartial(fs, sinks) && IsClosed(fs, sinks)
    ensures forall name :: name in sinks <==> Reaches(fs, name)
    ensures forall names :: SEEDS <= names && IsClosed(fs, names) ==> sinks <= names
  {
    hide SEEDS, IsClosed;
    forall names, name | SEEDS <= names && IsClosed(fs, names) && Reaches(fs, name) ensures name in names {
      var chain :| IsChain(fs, chain) && chain[0] == name;
      ChainIsInside(fs, names, chain);
    }
  }

  /** Neither the order of the functions nor repetition matters. */
  lemma OrderIsIrrelevant(fs: seq<Function>, gs: seq<Function>, name: string)
    requires forall f :: f in fs <==> f in gs
    ensures Reaches(fs, name) <==> Reaches(gs, name)
  {
    hide SEEDS;
    if Reaches(fs, name) { ReachesFrom(fs, gs, name); }
    if Reaches(gs, name) { ReachesFrom(gs, fs, name); }
  }

  lemma ReachesFrom(fs: seq<Function>, gs: seq<Function>, name: string)
    requires (forall f :: f in fs ==> f in gs) && Reaches(fs, name)
    ensures Reaches(gs, name)
  {
    hide SEEDS;
    var chain :| IsChain(fs, chain) && chain[0] == name;
    forall i | 0 <= i < |chain| - 1 ensures Calls(gs, chain[i], chain[i + 1]) {
      assert Calls(fs, chain[i], chain[i + 1]);
      var k :| 0 <= k < |fs| && fs[k].name == chain[i] && Some(chain[i + 1]) in fs[k].callees;
      assert fs[k] in gs;
      var m :| 0 <= m < |gs| && gs[m] == fs[k];
    }
    assert IsChain(gs, chain);
  }

  /** Without local functions the sinks are the nine well-known names. */
  lemma WellKnownNames(name: string)
    ensures Reaches([], name) <==>
      name in ["request", "urlopen", "open", "get", "post", "put", "delete", "patch", "fetch"]
  {
    if Reaches([], name) {
      var chain :| IsChain([], chain) && chain[0] == name;
      assert |chain| > 1 ==> Calls([], chain[0], chain[1]);
    }
    if name in SEEDS { SeedsReach([], name); }
  }
}
