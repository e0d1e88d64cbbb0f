/** Sequences of create-only writes and exact removals in one release root
    (scripts/release_safe_io.py). */
module SafeIORuns {
  import opened Text
  import opened SafeIO
  import opened SafeIOEffects
  import opened SafeFileSystem

  datatype Op =
    | Write(relative: string, content: Bytes)
    | RemoveFile(relative: string)
    | RemoveTree(relative: string, identity: nat)

  /** Whether an operation is allowed to remove what lies at a path. */
  predicate MayRemove(op: Op, root: Path, p: Path) {
    && !op.Write? && PartsOf(op.relative).Some?
    && |PartsOf(op.relative).value| == 1 && root + PartsOf(op.relative).value <= p
  }

  /** Whether an operation writes to a path. */
  predicate Targets(op: Op, root: Path, p: Path) {
    op.Write? && PartsOf(op.relative).Some? && p == root + PartsOf(op.relative).value
  }

  /** What one operation may do to the tree, whether it succeeds or not. */
  ghost predicate StepEffect(after: Nodes, before: Nodes, root: Path, op: Op) {
    if PartsOf(op.relative).None? then after == before
    else
      var parts := PartsOf(op.relative).value;
      match op {
        case Write(_, content) => parts != [] && WriteEffect(after, before, root, parts, content, Refused)
        case RemoveFile(_) =>
          if |parts| == 1 then RemoveFileEffect(after, before, root, parts[0], Refused) else after == before
        case RemoveTree(_, identity) =>
          if |parts| == 1 then RemoveTreeEffect(after, before, root, parts[0], identity, Refused) else after == before
      }
  }

  ghost predicate IsRun(states: seq<Nodes>, ops: seq<Op>, root: Path) {
    && |states| == |ops| + 1
    && forall i :: 0 <= i < |ops| ==> StepEffect(states[i + 1], states[i], root, ops[i])
  }

  method PerformOne(fs: FileSystem, root: Path, op: Op) returns (outcome: Outcome)
    requires fs.Valid()
    modifies fs
    ensures fs.Valid() && StepEffect(fs.nodes, old(fs.nodes), root, op)
    ensures fs.descriptors == old(fs.descriptors) <==> !StepLeaks(old(fs.nodes), root, op, fs.world, old(fs.calls))
  {
    hide PartsOf, Leaks, WriteEffect, RemoveFileEffect, RemoveTreeEffect;
    ghost var parts, before, calls := PartsOf(op.relative), fs.nodes, fs.calls;
    match op {
      case Write(relative, content) =>
        PartsAreSome(relative);
        outcome := fs.WriteBytesCreateOnly(root, relative, content);
        if parts.Some? { WeakerEffect(fs.nodes, before, root, parts.value, content, outcome); }
      case RemoveFile(relative) =>
        outcome := fs.RemoveFileExact(root, relative);
        if parts.Some? && |parts.value| == 1 {
          RemoveFileHasItsEffect(before, root, parts.value[0], fs.world, calls);
          WeakerRemoval(fs.nodes, before, root, parts.value[0], outcome);
        }
      case RemoveTree(relative, identity) =>
        outcome := fs.RemoveTreeExact(root, relative, identity);
        if parts.Some? && |parts.value| == 1 {
          RemoveTreeHasItsEffect(before, root, parts.value[0], identity, fs.world, calls);
          WeakerClearing(fs.nodes, before, root, parts.value[0], identity, outcome);
        }
    }
  }

  /** Whether an operation leaves a descriptor open. */
  ghost predicate StepLeaks(nodes: Nodes, root: Path, op: Op, w: World, calls: nat) {
    op.Write? && PartsOf(op.relative).Some? && Leaks(nodes, root, PartsOf(op.relative).value, w, calls)
  }

  lemma {:induction false} PartsAreSome(relative: string)
    ensures PartsOf(relative).Some? ==> PartsOf(relative).value != []
  {
  }

  lemma {:induction false} WeakerEffect(after: Nodes, before: Nodes, root: Path, parts: seq<string>, content: Bytes,
                                        outcome: Outcome)
    requires parts != [] && WriteEffect(after, before, root, parts, content, outcome)
    ensures WriteEffect(after, before, root, parts, content, Refused)
  {
  }

  lemma {:induction false} WeakerRemoval(after: Nodes, before: Nodes, root: Path, name: string, outcome: Outcome)
    requires RemoveFileEffect(after, before, root, name, outcome)
    ensures RemoveFileEffect(after, before, root, name, Refused)
  {
  }

  lemma {:induction false} WeakerClearing(after: Nodes, before: Nodes, root: Path, name: string, identity: nat,
                                          outcome: Outcome)
    requires RemoveTreeEffect(after, before, root, name, identity, outcome)
    ensures RemoveTreeEffect(after, before, root, name, identity, Refused)
  {
  }

  /** Every sequence of operations is a run, and descriptors are balanced whenever no operation
      met a shared directory. */
  method Perform(fs: FileSystem, root: Path, ops: seq<Op>)
    returns (outcomes: seq<Outcome>, ghost states: seq<Nodes>, ghost calls: seq<nat>)
    requires fs.Valid()
    modifies fs
    ensures fs.Valid() && |outcomes| == |ops| && IsRun(states, ops, root) && |calls| == |ops| + 1
    ensures states[0] == old(fs.nodes) && states[|ops|] == fs.nodes && calls[0] == old(fs.calls)
    ensures calls[|ops|] == fs.calls
    ensures (forall i :: 0 <= i < |ops| ==> !StepLeaks(states[i], root, ops[i], fs.world, calls[i])) ==>
      fs.descriptors == old(fs.descriptors)
  {
    hide StepEffect, StepLeaks;
    outcomes, states, calls := [], [fs.nodes], [fs.calls];
    for i := 0 to |ops|
      invariant fs.Valid() && |outcomes| == i && |states| == i + 1 && |calls| == i + 1
      invariant states[0] == old(fs.nodes) && states[i] == fs.nodes && calls[0] == old(fs.calls) && calls[i] == fs.calls
      invariant forall k :: 0 <= k < i ==> StepEffect(states[k + 1], states[k], root, ops[k])
      invariant (forall k :: 0 <= k < i ==> !StepLeaks(states[k], root, ops[k], fs.world, calls[k])) ==>
        fs.descriptors == old(fs.descriptors)
    {
      var outcome := PerformOne(fs, root, ops[i]);
      outcomes := outcomes + [outcome];
      states := states + [fs.nodes];
      calls := calls + [fs.calls];
    }
  }

  // ---------- one step ----------

  /** A step changes no node, and removes only what it is allowed to. */
  lemma StepKeeps(after: Nodes, before: Nodes, root: Path, op: Op, p: Path)
    requires StepEffect(after, before, root, op) && p in before
    ensures p in after ==> after[p] == before[p]
    ensures p in after || MayRemove(op, root, p)
  {
  }

  /** What a step adds lies strictly below the root; a file it adds is at its target and holds a
      leading part of its content. */
  lemma StepAdds(after: Nodes, before: Nodes, root: Path, op: Op, p: Path)
    requires StepEffect(after, before, root, op) && p in after && p !in before
    ensures root < p && op.Write?
    ensures !Targets(op, root, p) ==> IsPrivate(after, p)
    ensures Targets(op, root, p) ==> after[p].File? && after[p].content <= op.content
  {
  }

  // ---------- whole runs ----------

  /** Over any run, no node's bytes ever change: while a path stays in use, what it holds is what
      it held. */
  lemma {:induction false} BytesNeverChange(states: seq<Nodes>, ops: seq<Op>, root: Path, p: Path, i: nat, j: nat)
    requires IsRun(states, ops, root) && |states| == |ops| + 1 && i <= j < |states|
    requires forall k :: i <= k <= j ==> p in states[k]
    ensures states[j][p] == states[i][p]
  {
    hide StepEffect;
    if i < j {
      BytesNeverChange(states, ops, root, p, i, j - 1);
      StepKeeps(states[j], states[j - 1], root, ops[j - 1], p);
    }
  }

  /** What is there stays there until a removal names it. */
  lemma {:induction false} KeptUntilRemoved(states: seq<Nodes>, ops: seq<Op>, root: Path, p: Path, i: nat, j: nat)
    requires IsRun(states, ops, root) && |states| == |ops| + 1 && i <= j < |states| && p in states[i]
    requires forall k :: i <= k < j ==> !MayRemove(ops[k], root, p)
    ensures p in states[j] && states[j][p] == states[i][p]
  {
    hide StepEffect, MayRemove;
    if i < j {
      KeptUntilRemoved(states, ops, root, p, i, j - 1);
      StepKeeps(states[j], states[j - 1], root, ops[j - 1], p);
    }
  }

  /** Nothing outside the root is ever touched, nor the root itself. */
  lemma {:induction false} OutsideIsUntouched(states: seq<Nodes>, ops: seq<Op>, root: Path, p: Path, j: nat)
    requires IsRun(states, ops, root) && |states| == |ops| + 1 && j < |states| && !(root < p)
    ensures p in states[j] <==> p in states[0]
    ensures p in states[0] ==> states[j][p] == states[0][p]
  {
    hide StepEffect, PartsOf;
    if j > 0 {
      OutsideIsUntouched(states, ops, root, p, j - 1);
      if p in states[j - 1] { StepKeeps(states[j], states[j - 1], root, ops[j - 1], p); }
      if p in states[j] && p !in states[j - 1] { StepAdds(states[j], states[j - 1], root, ops[j - 1], p); }
      OutsideIsNotRemoved(ops[j - 1], root, p);
    }
  }

  lemma OutsideIsNotRemoved(op: Op, root: Path, p: Path)
    requires !(root < p)
    ensures !MayRemove(op, root, p)
  {
  }

  /** Every file that was not there from the start came from a write to its path and holds a
      leading part of that write's content. */
  lemma {:induction false} FilesComeFromWrites(states: seq<Nodes>, ops: seq<Op>, root: Path, p: Path, j: nat)
    requires IsRun(states, ops, root) && |states| == |ops| + 1 && j < |states| && p in states[j] && states[j][p].File?
    ensures (p in states[0] && states[0][p] == states[j][p])
      || exists k :: 0 <= k < j && Targets(ops[k], root, p) && states[j][p].content <= ops[k].content
  {
    hide StepEffect, PartsOf;
    if j > 0 {
      if p in states[j - 1] {
        StepKeeps(states[j], states[j - 1], root, ops[j - 1], p);
        FilesComeFromWrites(states, ops, root, p, j - 1);
      } else {
        StepAdds(states[j], states[j - 1], root, ops[j - 1], p);
      }
    }
  }
}
