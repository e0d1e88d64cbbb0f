/** What the operations on release files leave behind, and when a descriptor stays open
    (scripts/release_safe_io.py): statements about every state before a call and every schedule. */
module SafeIOEffects {
  import opened Text
  import opened SafeIO

  // ---------- what the operations may change ----------

  /** Nothing that was there changed or went away. */
  ghost predicate Extends(after: Nodes, before: Nodes) {
    forall p :: p in before ==> p in after && after[p] == before[p]
  }

  /** Everything new is a private directory on the way from the root to the parts. */
  ghost predicate GrownAlong(after: Nodes, before: Nodes, root: Path, parts: seq<string>) {
    && Extends(after, before)
    && forall p :: p in after && p !in before ==> IsPrivate(after, p) && root < p <= root + parts
  }

  /** What a create-only write leaves, however it ends. */
  ghost predicate WriteEffect(after: Nodes, before: Nodes, root: Path, parts: seq<string>, content: Bytes,
                              outcome: Outcome)
    requires parts != []
  {
    var target := root + parts;
    && Extends(after, before)
    && (forall p :: p in after && p !in before && p != target ==> IsPrivate(after, p) && root < p < target)
    && (target in after && target !in before ==> after[target].File? && after[target].content <= content)
    && (outcome.Done? ==> target !in before && target in after && after[target] == File(content, 1))
  }

  lemma {:induction false} StepGrows(nodes: Nodes, p: Path, create: bool, w: World, calls: nat)
    ensures var e := Enters(nodes, p, create, w, calls);
            && Extends(e.nodes, nodes) && (forall q :: q in e.nodes && q !in nodes ==> q == p && IsPrivate(e.nodes, q))
            && (e.stop.Arrived? ==> IsPrivate(e.nodes, p)) && (!create ==> e.nodes == nodes)
  {
  }

  /** A walk makes only private directories on its way, and reaches a private one. */
  lemma {:induction false} WalkGrows(nodes: Nodes, at: Path, parts: seq<string>, create: bool, w: World, calls: nat)
    ensures var e := Walks(nodes, at, parts, create, w, calls);
            && GrownAlong(e.nodes, nodes, at, parts) && (!create ==> e.nodes == nodes)
            && (e.stop.Arrived? && parts != [] ==> IsPrivate(e.nodes, at + parts))
    decreases |parts|
  {
    hide Enters;
    if parts != [] {
      var p := at + [parts[0]];
      var first := Enters(nodes, p, create, w, calls);
      StepGrows(nodes, p, create, w, calls);
      assert at < p <= at + parts && p + parts[1..] == at + parts;
      if first.stop.Arrived? {
        WalkGrows(first.nodes, p, parts[1..], create, w, first.calls);
        if parts[1..] == [] { assert at + parts == p; }
      }
    }
  }

  lemma {:induction false} WriteHasItsEffect(nodes: Nodes, root: Path, parts: seq<string>, content: Bytes, w: World,
                                             calls: nat)
    requires parts != []
    ensures var e := WritesCreateOnly(nodes, root, parts, content, w, calls);
            WriteEffect(e.nodes, nodes, root, parts, content, e.outcome)
  {
    hide Walks, Creates;
    var init := parts[..|parts| - 1];
    WalkGrows(nodes, root, init, true, w, calls + 1);
    var walk := Walks(nodes, root, init, true, w, calls + 1);
    assert root + init < root + parts && !(root + parts <= root + init);
    CreatesOneFile(walk.nodes, root + parts, content, w, walk.calls);
  }

  /** Creating a file changes nothing, or adds it with a leading part of the content. */
  lemma {:induction false} CreatesOneFile(nodes: Nodes, p: Path, content: Bytes, w: World, calls: nat)
    ensures var e := Creates(nodes, p, content, w, calls);
            && (e.nodes == nodes || (p !in nodes && p in e.nodes && e.nodes == nodes[p := e.nodes[p]]
                                     && e.nodes[p].File? && e.nodes[p].content <= content))
            && (e.outcome.Done? ==> p !in nodes && e.nodes == nodes[p := File(content, 1)])
  {
    hide Writes;
  }

  /** What removing one file leaves. */
  ghost predicate RemoveFileEffect(after: Nodes, before: Nodes, root: Path, name: string, outcome: Outcome) {
    var target := root + [name];
    && (after == before || (IsSingleFile(before, target) && after == before - {target}))
    && (outcome.Done? ==> target in before && target !in after)
  }

  lemma {:induction false} RemoveFileHasItsEffect(nodes: Nodes, root: Path, name: string, w: World, calls: nat)
    ensures var e := RemovesFile(nodes, root, name, w, calls); RemoveFileEffect(e.nodes, nodes, root, name, e.outcome)
  {
  }

  /** What removing one directory leaves; when it fails, some of it may be gone already. */
  ghost predicate RemoveTreeEffect(after: Nodes, before: Nodes, root: Path, name: string, identity: nat,
                                   outcome: Outcome) {
    var top := root + [name];
    && (forall p :: p in after ==> p in before && after[p] == before[p])
    && (forall p :: p in before && p !in after ==> top <= p)
    && (after == before || (IsPrivate(before, top) && before[top].identity == identity))
    && (outcome.Done? ==> IsPrivate(before, top) && forall p :: p in after <==> p in before && !(top <= p))
  }

  lemma {:induction false} RemoveTreeHasItsEffect(nodes: Nodes, root: Path, name: string, identity: nat, w: World,
                                                  calls: nat)
    ensures var e := RemovesTree(nodes, root, name, identity, w, calls);
            RemoveTreeEffect(e.nodes, nodes, root, name, identity, e.outcome)
  {
  }

  // ---------- when a descriptor stays open ----------

  /** The calls it takes to pass some directories: one each, and three more to make a missing one. */
  function CallsThrough(nodes: Nodes, at: Path, parts: seq<string>): nat
    decreases |parts|
  {
    if parts == [] then 0
    else (if at + [parts[0]] in nodes then 1 else 4) + CallsThrough(nodes, at + [parts[0]], parts[1..])
  }

  /** The k-th directory on the way is shared, those before it are private or missing, and no call
      fails until it has been opened. */
  ghost predicate MeetsShared(nodes: Nodes, at: Path, parts: seq<string>, w: World, calls: nat, k: nat)
    requires 0 < k <= |parts|
  {
    && IsShared(nodes, at + parts[..k])
    && (forall j :: 0 < j < k ==> at + parts[..j] !in nodes || IsPrivate(nodes, at + parts[..j]))
    && forall c :: calls <= c <= calls + CallsThrough(nodes, at, parts[..k - 1]) ==> !w.fails(c)
  }

  /** Some directory among the first few is met so. */
  ghost predicate MeetsSome(nodes: Nodes, at: Path, parts: seq<string>, bound: nat, w: World, calls: nat)
    requires bound <= |parts|
  {
    exists k :: 0 < k <= bound && MeetsShared(nodes, at, parts, w, calls, k)
  }

  /** The walk of a write stops at a directory that is not private exactly when it meets a shared
      one that was there before. */
  lemma {:induction false} WalkMeetsShared(nodes: Nodes, at: Path, parts: seq<string>, w: World, calls: nat)
    ensures Walks(nodes, at, parts, true, w, calls).stop.NotPrivate?
       <==> MeetsSome(nodes, at, parts, |parts|, w, calls)
    decreases |parts|
  {
    hide Walks, MeetsShared;
    if parts == [] {
      WalkNowhere(nodes, at, w, calls);
    } else {
      var p, rest := at + [parts[0]], parts[1..];
      var first := Enters(nodes, p, true, w, calls);
      WalkOn(nodes, at, parts, w, calls);
      if first.stop.Arrived? {
        WalkMeetsShared(first.nodes, p, rest, w, first.calls);
        forall k | 0 < k <= |rest|
          ensures MeetsShared(first.nodes, p, rest, w, first.calls, k) <==>
            MeetsShared(nodes, at, parts, w, calls, k + 1)
        {
          MeetsLater(nodes, at, parts, w, calls, k);
        }
        assert !MeetsShared(nodes, at, parts, w, calls, 1) by { MeetsFirst(nodes, at, parts, w, calls); }
        if k :| 0 < k <= |parts| && MeetsShared(nodes, at, parts, w, calls, k) {
          assert MeetsShared(first.nodes, p, rest, w, first.calls, k - 1);
        }
        if k :| 0 < k <= |rest| && MeetsShared(first.nodes, p, rest, w, first.calls, k) {
          assert MeetsShared(nodes, at, parts, w, calls, k + 1);
        }
      } else {
        MeetsFirst(nodes, at, parts, w, calls);
        forall k | 1 < k <= |parts| ensures !MeetsShared(nodes, at, parts, w, calls, k) {
          if MeetsShared(nodes, at, parts, w, calls, k) { MeetingPassesTheFirst(nodes, at, parts, w, calls, k); }
        }
      }
    }
  }

  lemma {:induction false} WalkNowhere(nodes: Nodes, at: Path, w: World, calls: nat)
    ensures Walks(nodes, at, [], true, w, calls).stop.Arrived?
  {
  }

  lemma {:induction false} WalkOn(nodes: Nodes, at: Path, parts: seq<string>, w: World, calls: nat)
    requires parts != []
    ensures var p := at + [parts[0]];
            var first := Enters(nodes, p, true, w, calls);
            Walks(nodes, at, parts, true, w, calls).stop.NotPrivate? <==>
              if first.stop.Arrived? then Walks(first.nodes, p, parts[1..], true, w, first.calls).stop.NotPrivate?
              else first.stop.NotPrivate?
  {
    hide Enters;
  }

  lemma {:induction false} MeetsFirst(nodes: Nodes, at: Path, parts: seq<string>, w: World, calls: nat)
    requires parts != []
    ensures MeetsShared(nodes, at, parts, w, calls, 1) <==>
      Enters(nodes, at + [parts[0]], true, w, calls).stop.NotPrivate?
  {
    assert parts[..1] == [parts[0]] && parts[..0] == [];
  }

  lemma {:induction false} MeetingPassesTheFirst(nodes: Nodes, at: Path, parts: seq<string>, w: World, calls: nat,
                                                 k: nat)
    requires 1 < k <= |parts| && MeetsShared(nodes, at, parts, w, calls, k)
    ensures Enters(nodes, at + [parts[0]], true, w, calls).stop.Arrived?
  {
    var p := at + [parts[0]];
    assert parts[..1] == [parts[0]] && parts[..k - 1][0] == parts[0];
    var through := CallsThrough(nodes, at, parts[..k - 1]);
    assert through >= (if p in nodes then 1 else 4);
    assert at + parts[..1] !in nodes || IsPrivate(nodes, at + parts[..1]);
    assert !w.fails(calls);
    if p !in nodes { assert !w.fails(calls + 1) && !w.fails(calls + 2) && !w.fails(calls + 3); }
  }

  lemma {:induction false} MeetsLater(nodes: Nodes, at: Path, parts: seq<string>, w: World, calls: nat, k: nat)
    requires parts != [] && 0 < k < |parts|
    requires Enters(nodes, at + [parts[0]], true, w, calls).stop.Arrived?
    ensures var p := at + [parts[0]];
            var first := Enters(nodes, p, true, w, calls);
            MeetsShared(first.nodes, p, parts[1..], w, first.calls, k)
            <==> MeetsShared(nodes, at, parts, w, calls, k + 1)
  {
    hide Enters, CallsThrough, IsPrivate, IsShared;
    var p, rest := at + [parts[0]], parts[1..];
    var first := Enters(nodes, p, true, w, calls);
    StepPasses(nodes, p, w, calls);
    assert parts[..k][0] == parts[0] && parts[..k][1..] == rest[..k - 1];
    CallsSplit(nodes, at, parts[..k]);
    CallsFrame(first.nodes, nodes, p, p, rest[..k - 1]);
    assert forall j :: 0 < j <= |rest| ==> p + rest[..j] == at + parts[..j + 1] by { PathsShift(at, parts); }
    assert at + parts[..1] == p by { assert parts[..1] == [parts[0]]; }
    forall j | 0 < j <= k
      ensures p + rest[..j] in first.nodes <==> p + rest[..j] in nodes
      ensures IsPrivate(first.nodes, p + rest[..j]) == IsPrivate(nodes, p + rest[..j])
      ensures IsShared(first.nodes, p + rest[..j]) == IsShared(nodes, p + rest[..j])
    {
      SameNode(first.nodes, nodes, p, p + rest[..j]);
    }
    if MeetsShared(first.nodes, p, rest, w, first.calls, k) {
      forall j | 0 < j < k + 1 ensures at + parts[..j] !in nodes || IsPrivate(nodes, at + parts[..j]) {
        if j > 1 { assert at + parts[..j] == p + rest[..j - 1]; }
      }
    }
    if MeetsShared(nodes, at, parts, w, calls, k + 1) {
      forall j | 0 < j < k ensures p + rest[..j] !in first.nodes || IsPrivate(first.nodes, p + rest[..j]) {
        assert at + parts[..j + 1] == p + rest[..j];
      }
    }
  }

  lemma {:induction false} PathsShift(at: Path, parts: seq<string>)
    requires parts != []
    ensures forall j :: 0 < j < |parts| ==> (at + [parts[0]]) + parts[1..][..j] == at + parts[..j + 1]
  {
  }

  /** A step that arrives has made its calls without a failure and changed at most its own path. */
  lemma {:induction false} StepPasses(nodes: Nodes, p: Path, w: World, calls: nat)
    requires Enters(nodes, p, true, w, calls).stop.Arrived?
    ensures var e := Enters(nodes, p, true, w, calls);
            && e.calls == calls + (if p in nodes then 1 else 4) && (forall c :: calls <= c < e.calls ==> !w.fails(c))
            && (p !in nodes || IsPrivate(nodes, p)) && AgreeBut(e.nodes, nodes, p)
  {
  }

  ghost predicate AgreeBut(r: Nodes, s: Nodes, p: Path) {
    forall q :: q != p ==> (q in r <==> q in s) && (q in r ==> r[q] == s[q])
  }

  lemma {:induction false} SameNode(r: Nodes, s: Nodes, p: Path, q: Path)
    requires AgreeBut(r, s, p) && q != p
    ensures (q in r <==> q in s) && IsPrivate(r, q) == IsPrivate(s, q) && IsShared(r, q) == IsShared(s, q)
  {
  }

  lemma {:induction false} CallsSplit(nodes: Nodes, at: Path, parts: seq<string>)
    requires parts != []
    ensures var p := at + [parts[0]];
            CallsThrough(nodes, at, parts) == (if p in nodes then 1 else 4) + CallsThrough(nodes, p, parts[1..])
  {
  }

  lemma {:induction false} CallsFrame(r: Nodes, s: Nodes, p: Path, at: Path, parts: seq<string>)
    requires AgreeBut(r, s, p) && |p| <= |at|
    ensures CallsThrough(r, at, parts) == CallsThrough(s, at, parts)
    decreases |parts|
  {
    if parts != [] { CallsFrame(r, s, p, at + [parts[0]], parts[1..]); }
  }

  /** A write to these parts leaves a descriptor open. */
  ghost predicate Leaks(nodes: Nodes, root: Path, parts: seq<string>, w: World, calls: nat) {
    RootOpens(nodes, root, w, calls) && parts != [] && MeetsSome(nodes, root, parts, |parts| - 1, w, calls + 1)
  }

  /** Balance, exactly: the descriptors after a write are those before it, unless a directory on the
      way, there before the call, is shared and the walk gets to it before a call fails. */
  lemma {:induction false} LeakIsExact(nodes: Nodes, root: Path, parts: seq<string>, content: Bytes, w: World,
                                       calls: nat)
    requires parts != []
    ensures WritesCreateOnly(nodes, root, parts, content, w, calls).outcome.UnsafeDirectory? <==>
      Leaks(nodes, root, parts, w, calls)
  {
    hide Walks, Creates, MeetsShared;
    var init := parts[..|parts| - 1];
    var next := calls + 1;
    WalkMeetsShared(nodes, root, init, w, next);
    forall k | 0 < k < |parts|
      ensures MeetsShared(nodes, root, init, w, next, k) <==> MeetsShared(nodes, root, parts, w, next, k)
    {
      SameBeginning(nodes, root, init, parts, w, next, k);
    }
  }

  lemma {:induction false} SameBeginning(nodes: Nodes, at: Path, init: seq<string>, parts: seq<string>, w: World,
                                         calls: nat, k: nat)
    requires 0 < k <= |init| <= |parts| && init == parts[..|init|]
    ensures MeetsShared(nodes, at, init, w, calls, k) <==> MeetsShared(nodes, at, parts, w, calls, k)
  {
    hide CallsThrough;
    assert forall j :: 0 <= j <= k ==> init[..j] == parts[..j];
  }

  /** A leak, concretely: under a private root a directory `a` is shared; writing a/b leaves a
      descriptor on it open, whatever the content, when no call fails. */
  lemma {:induction false} SharedDirectoryLeaks(nodes: Nodes, root: Path, content: Bytes, w: World, calls: nat)
    requires IsPrivate(nodes, root) && IsShared(nodes, root + ["a"]) && forall c :: !w.fails(c)
    ensures PartsOf("a/b") == Some(["a", "b"])
    ensures Leaks(nodes, root, ["a", "b"], w, calls)
    ensures WritesCreateOnly(nodes, root, ["a", "b"], content, w, calls).outcome.UnsafeDirectory?
  {
    hide WritesCreateOnly;
    assert "a/b" == Join(["a", "b"], "/") by { assert ["a", "b"][1..] == ["b"]; }
    PartsRoundTrip("a/b", ["a", "b"]);
    assert ["a", "b"][..1] == ["a"] && ["a", "b"][..0] == [];
    assert MeetsShared(nodes, root, ["a", "b"], w, calls + 1, 1);
    LeakIsExact(nodes, root, ["a", "b"], content, w, calls);
  }

  // ---------- when a write succeeds ----------

  /** A schedule in which nothing goes wrong: no call fails and every write takes something. */
  ghost predicate IsKind(w: World) {
    forall c :: !w.fails(c) && w.writes(c) > 0
  }

  lemma {:induction false} KindWritesComplete(view: Bytes, w: World, calls: nat)
    requires IsKind(w)
    ensures Writes(view, w, calls).complete
    decreases |view|
  {
    if view != [] {
      assert !w.fails(calls) && w.writes(calls) > 0;
      KindWritesComplete(view[Takes(w, calls, |view|)..], w, calls + 1);
    }
  }

  lemma {:induction false} KindWalkArrives(nodes: Nodes, at: Path, parts: seq<string>, w: World, calls: nat)
    requires IsKind(w)
    ensures Walks(nodes, at, parts, true, w, calls).stop.Arrived?
       <==> forall j :: 0 < j <= |parts| ==> at + parts[..j] !in nodes || IsPrivate(nodes, at + parts[..j])
    decreases |parts|
  {
    if parts != [] {
      hide Walks;
      var p, rest := at + [parts[0]], parts[1..];
      var first := Enters(nodes, p, true, w, calls);
      assert parts[..1] == [parts[0]];
      assert first.stop.Arrived? <==> p !in nodes || IsPrivate(nodes, p) by { KindStep(nodes, p, w, calls); }
      WalkStep(nodes, at, parts, w, calls);
      if first.stop.Arrived? {
        hide Enters, IsPrivate;
        StepPasses(nodes, p, w, calls);
        KindWalkArrives(first.nodes, p, rest, w, first.calls);
        PathsShift(at, parts);
        forall j | 0 < j <= |rest|
          ensures p + rest[..j] == at + parts[..j + 1]
          ensures (p + rest[..j] in first.nodes <==> p + rest[..j] in nodes)
          ensures IsPrivate(first.nodes, p + rest[..j]) == IsPrivate(nodes, p + rest[..j])
        {
          SameNode(first.nodes, nodes, p, p + rest[..j]);
        }
        KindShift(nodes, first.nodes, at, parts);
      } else {
        assert at + parts[..1] == p;
      }
    }
  }

  lemma {:induction false} KindStep(nodes: Nodes, p: Path, w: World, calls: nat)
    requires IsKind(w)
    ensures Enters(nodes, p, true, w, calls).stop.Arrived? <==> p !in nodes || IsPrivate(nodes, p)
  {
    assert !w.fails(calls) && !w.fails(calls + 1) && !w.fails(calls + 2) && !w.fails(calls + 3);
  }

  lemma {:induction false} WalkStep(nodes: Nodes, at: Path, parts: seq<string>, w: World, calls: nat)
    requires parts != []
    ensures var p := at + [parts[0]];
            var first := Enters(nodes, p, true, w, calls);
            Walks(nodes, at, parts, true, w, calls).stop.Arrived? <==>
              first.stop.Arrived? && Walks(first.nodes, p, parts[1..], true, w, first.calls).stop.Arrived?
  {
    hide Enters;
  }

  lemma {:induction false} KindShift(nodes: Nodes, made: Nodes, at: Path, parts: seq<string>)
    requires parts != []
    requires var p, rest := at + [parts[0]], parts[1..];
             && (p !in nodes || IsPrivate(nodes, p))
             && forall j :: 0 < j <= |rest| ==>
                  && p + rest[..j] == at + parts[..j + 1] && (p + rest[..j] in made <==> p + rest[..j] in nodes)
                  && IsPrivate(made, p + rest[..j]) == IsPrivate(nodes, p + rest[..j])
    ensures var p, rest := at + [parts[0]], parts[1..];
            (forall j :: 0 < j <= |rest| ==> p + rest[..j] !in made || IsPrivate(made, p + rest[..j])) <==>
              forall j :: 0 < j <= |parts| ==> at + parts[..j] !in nodes || IsPrivate(nodes, at + parts[..j])
  {
    hide IsPrivate;
    var p, rest := at + [parts[0]], parts[1..];
    assert parts[..1] == [parts[0]];
    if forall j :: 0 < j <= |rest| ==> p + rest[..j] !in made || IsPrivate(made, p + rest[..j]) {
      forall j | 0 < j <= |parts| ensures at + parts[..j] !in nodes || IsPrivate(nodes, at + parts[..j]) {
        if j > 1 { assert p + rest[..j - 1] == at + parts[..j]; }
      }
    }
    if forall j :: 0 < j <= |parts| ==> at + parts[..j] !in nodes || IsPrivate(nodes, at + parts[..j]) {
      forall j | 0 < j <= |rest| ensures p + rest[..j] !in made || IsPrivate(made, p + rest[..j]) {
        assert p + rest[..j] == at + parts[..j + 1];
      }
    }
  }

  /** When nothing goes wrong, a write succeeds if and only if the root is private, every directory
      on the way is private or missing, and the target is not there. */
  lemma {:induction false} KindWriteSucceeds(nodes: Nodes, root: Path, parts: seq<string>, content: Bytes, w: World,
                                             calls: nat)
    requires parts != [] && IsKind(w)
    ensures WritesCreateOnly(nodes, root, parts, content, w, calls).outcome.Done? <==>
      && IsPrivate(nodes, root) && root + parts !in nodes
      && forall j :: 0 < j < |parts| ==> root + parts[..j] !in nodes || IsPrivate(nodes, root + parts[..j])
  {
    hide Walks, Writes, IsPrivate;
    var init := parts[..|parts| - 1];
    assert !w.fails(calls);
    KindWalkArrives(nodes, root, init, w, calls + 1);
    assert forall j :: 0 < j <= |init| ==> init[..j] == parts[..j];
    assert (forall j :: 0 < j <= |init| ==> root + init[..j] !in nodes || IsPrivate(nodes, root + init[..j]))
      <==> (forall j :: 0 < j < |parts| ==> root + parts[..j] !in nodes || IsPrivate(nodes, root + parts[..j])) by {
      SamePaths(nodes, root, init, parts);
    }
    WalkGrows(nodes, root, init, true, w, calls + 1);
    var walk := Walks(nodes, root, init, true, w, calls + 1);
    assert !(root + parts <= root + init);
    KindCreates(walk.nodes, root + parts, content, w, walk.calls);
  }

  lemma {:induction false} SamePaths(nodes: Nodes, root: Path, init: seq<string>, parts: seq<string>)
    requires parts != [] && init == parts[..|parts| - 1]
    ensures (forall j :: 0 < j <= |init| ==> root + init[..j] !in nodes || IsPrivate(nodes, root + init[..j]))
       <==> (forall j :: 0 < j < |parts| ==> root + parts[..j] !in nodes || IsPrivate(nodes, root + parts[..j]))
  {
    hide IsPrivate;
    assert forall j :: 0 <= j < |parts| ==> init[..j] == parts[..j];
    if forall j :: 0 < j <= |init| ==> root + init[..j] !in nodes || IsPrivate(nodes, root + init[..j]) {
      forall j | 0 < j < |parts| ensures root + parts[..j] !in nodes || IsPrivate(nodes, root + parts[..j]) {
        assert root + init[..j] == root + parts[..j];
      }
    }
  }

  lemma {:induction false} KindCreates(nodes: Nodes, p: Path, content: Bytes, w: World, calls: nat)
    requires IsKind(w)
    ensures Creates(nodes, p, content, w, calls).outcome.Done? <==> p !in nodes
  {
    hide Writes;
    KindWritesComplete(content, w, calls + 2);
    var r := Writes(content, w, calls + 2);
    assert !w.fails(calls) && !w.fails(calls + 1) && !w.fails(r.calls) && !w.fails(r.calls + 1);
    assert !w.fails(r.calls + 2);
  }
}
