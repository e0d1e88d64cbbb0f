/** What a release file operation that reports success has done (scripts/release_safe_io.py): every
    call it made went well, and none that it owes was left out. */
module SafeIODurability {
  import opened Text
  import opened SafeIO
  import opened SafeIOEffects

  /** No call between two counts fails. */
  ghost predicate AllWell(w: World, from: nat, to: nat) {
    forall c :: from <= c < to ==> !w.fails(c)
  }

  lemma {:induction false} EntersWell(nodes: Nodes, p: Path, create: bool, w: World, calls: nat)
    ensures var e := Enters(nodes, p, create, w, calls);
            && e.calls > calls
            && (e.stop.Arrived? ==> AllWell(w, calls, e.calls) && (p !in nodes || IsPrivate(nodes, p)))
            && (e.stop.Arrived? ==> e.calls == calls + (if p in nodes then 1 else 4))
  {
  }

  lemma {:induction false} WalksWell(nodes: Nodes, at: Path, parts: seq<string>, w: World, calls: nat)
    ensures var e := Walks(nodes, at, parts, true, w, calls);
            && e.calls >= calls
            && (e.stop.Arrived? ==> AllWell(w, calls, e.calls) && e.calls == calls + CallsThrough(nodes, at, parts))
            && (e.stop.Arrived? ==>
                  forall j :: 0 < j <= |parts| ==> at + parts[..j] !in nodes || IsPrivate(nodes, at + parts[..j]))
    decreases |parts|
  {
    hide Enters, IsPrivate;
    if parts != [] {
      var p, rest := at + [parts[0]], parts[1..];
      var first := Enters(nodes, p, true, w, calls);
      EntersWell(nodes, p, true, w, calls);
      if first.stop.Arrived? {
        StepPasses(nodes, p, w, calls);
        WalksWell(first.nodes, p, rest, w, first.calls);
        CallsFrom(nodes, first.nodes, p, p, rest);
        if Walks(first.nodes, p, rest, true, w, first.calls).stop.Arrived? {
          forall j | 0 < j <= |parts| ensures at + parts[..j] !in nodes || IsPrivate(nodes, at + parts[..j]) {
            if j == 1 {
              assert parts[..1] == [parts[0]];
            } else {
              assert parts[..j] == [parts[0]] + rest[..j - 1];
              assert at + parts[..j] == p + rest[..j - 1];
              SameNode(first.nodes, nodes, p, p + rest[..j - 1]);
            }
          }
        }
      }
    }
  }

  /** What lies further down is not touched by making one directory. */
  lemma {:induction false} CallsFrom(nodes: Nodes, made: Nodes, p: Path, at: Path, parts: seq<string>)
    requires p <= at && forall q :: q != p ==> (q in made <==> q in nodes)
    ensures CallsThrough(made, at, parts) == CallsThrough(nodes, at, parts)
    decreases |parts|
  {
    if parts != [] { CallsFrom(nodes, made, p, at + [parts[0]], parts[1..]); }
  }

  lemma {:induction false} WritesWell(view: Bytes, w: World, calls: nat)
    ensures var r := Writes(view, w, calls); r.calls >= calls && (r.complete ==> AllWell(w, calls, r.calls))
    decreases |view|
  {
    if view != [] {
      var n := Takes(w, calls, |view|);
      if n > 0 { WritesWell(view[n..], w, calls + 1); }
    }
  }

  /** A create-only write that reports success: none of its calls failed, the root and every directory on
      the way were private or missing, and besides the calls that wrote it made exactly those it owes. */
  lemma {:induction false} SuccessfulWrite(nodes: Nodes, root: Path, parts: seq<string>, content: Bytes, w: World,
                                           calls: nat)
    requires parts != [] && WritesCreateOnly(nodes, root, parts, content, w, calls).outcome.Done?
    ensures var e, init := WritesCreateOnly(nodes, root, parts, content, w, calls), parts[..|parts| - 1];
            var start := calls + 3 + CallsThrough(nodes, root, init);
            && AllWell(w, calls, e.calls) && IsPrivate(nodes, root)
            && (forall j :: 0 < j <= |init| ==> root + init[..j] !in nodes || IsPrivate(nodes, root + init[..j]))
            && e.calls == Writes(content, w, start).calls + 3
  {
    hide Walks, Writes, CallsThrough, IsPrivate;
    var init := parts[..|parts| - 1];
    WalksWell(nodes, root, init, w, calls + 1);
    var walk := Walks(nodes, root, init, true, w, calls + 1);
    CreatedWell(walk.nodes, root + parts, content, w, walk.calls);
  }

  lemma {:induction false} CreatedWell(nodes: Nodes, p: Path, content: Bytes, w: World, calls: nat)
    requires Creates(nodes, p, content, w, calls).outcome.Done?
    ensures var e := Creates(nodes, p, content, w, calls);
            AllWell(w, calls, e.calls) && e.calls == Writes(content, w, calls + 2).calls + 3
  {
    hide Writes;
    WritesWell(content, w, calls + 2);
  }

  /** A removal that reports success: its six calls all went well. With nothing going wrong it succeeds
      exactly on a singly linked file in a private root. */
  lemma {:induction false} SuccessfulRemoval(nodes: Nodes, root: Path, name: string, w: World, calls: nat)
    ensures var e := RemovesFile(nodes, root, name, w, calls);
            && (e.outcome.Done? ==> AllWell(w, calls, e.calls) && e.calls == calls + 6)
            && (AllWell(w, calls, calls + 6) ==>
                  (e.outcome.Done? <==>
                     IsPrivate(nodes, root) && root + [name] in nodes && nodes[root + [name]].File?
                     && nodes[root + [name]].links == 1))
  {
  }

  /** The same for a directory: four calls, and exactly on a private one with the expected identity. */
  lemma {:induction false} SuccessfulTreeRemoval(nodes: Nodes, root: Path, name: string, identity: nat, w: World,
                                                 calls: nat)
    ensures var e := RemovesTree(nodes, root, name, identity, w, calls);
            && (e.outcome.Done? ==> AllWell(w, calls, e.calls) && e.calls == calls + 4)
            && (AllWell(w, calls, calls + 4) ==>
                  (e.outcome.Done? <==>
                     && IsPrivate(nodes, root) && IsPrivate(nodes, root + [name])
                     && nodes[root + [name]].identity == identity))
  {
  }

  /** A write loop goes on until everything is written: with no failure and some progress each time, and
      each call takes what the schedule says, up to what is left. */
  lemma {:induction false} OneMoreWrite(view: Bytes, w: World, calls: nat)
    requires view != [] && !w.fails(calls) && w.writes(calls) > 0
    ensures var n := if w.writes(calls) < |view| then w.writes(calls) else |view|;
            var r, rest := Writes(view, w, calls), Writes(view[n..], w, calls + 1);
            r == Progress(view[..n] + rest.written, rest.complete, rest.calls)
  {
  }

  /** It stops at once when a call fails or writes nothing. */
  lemma {:induction false} NoMoreWrites(view: Bytes, w: World, calls: nat)
    requires view != [] && (w.fails(calls) || w.writes(calls) <= 0)
    ensures Writes(view, w, calls) == Progress([], false, calls + 1)
  {
  }
}
