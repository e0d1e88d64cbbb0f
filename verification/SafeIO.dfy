/** Descriptor-relative release files (scripts/release_safe_io.py). The operating system is a
    schedule: which of the calls fail, how much a write takes and what a removal spares; everything
    is proved for every schedule. Other processes stay outside. */
module SafeIO {
  import opened Text

  type Path = seq<string>
  type Bytes = seq<bv8>

  datatype Node = Directory(private: bool, identity: nat) | File(content: Bytes, links: nat) | SymbolicLink

  type Nodes = map<Path, Node>

  // ---------- names ----------

  predicate IsName(part: string) {
    part != "" && part != "." && part != ".." && '/' !in part && '\\' !in part && '\0' !in part
  }

  predicate NoDots(parts: seq<string>) {
    forall j :: 0 <= j < |parts| ==> parts[j] != "" && parts[j] != "." && parts[j] != ".."
  }

  /** The parts `_relative_parts` gives, or a refusal. */
  function PartsOf(relative: string): Option<seq<string>> {
    if relative == "" || '\0' in relative || '\\' in relative || relative[0] == '/' then None
    else if !NoDots(Split(relative, '/')) then None
    else Some(Split(relative, '/'))
  }

  /** The accepted texts are exactly the non-empty sequences of plain names joined by slashes. */
  lemma {:induction false} PartsRoundTrip(relative: string, parts: seq<string>)
    ensures PartsOf(relative) == Some(parts)
       <==> parts != [] && relative == Join(parts, "/") && forall j :: 0 <= j < |parts| ==> IsName(parts[j])
  {
    if PartsOf(relative) == Some(parts) {
      JoinSplit(relative, '/');
      PartsHoldNo(relative, '\0');
      PartsHoldNo(relative, '\\');
    }
    if parts != [] && relative == Join(parts, "/") && forall j :: 0 <= j < |parts| ==> IsName(parts[j]) {
      SplitOfJoin(parts, '/');
      JoinHoldsNo(parts, '\0');
      JoinHoldsNo(parts, '\\');
      JoinStart(parts);
    }
  }

  lemma {:induction false} PartsHoldNo(s: string, c: char)
    requires c !in s
    ensures forall j :: 0 <= j < |Split(s, '/')| ==> c !in Split(s, '/')[j]
  {
    if s != [] { PartsHoldNo(s[1..], c); }
  }

  lemma {:induction false} JoinHoldsNo(parts: seq<string>, c: char)
    requires c != '/' && forall j :: 0 <= j < |parts| ==> c !in parts[j]
    ensures c !in Join(parts, "/")
  {
    if |parts| > 1 { JoinHoldsNo(parts[1..], c); }
  }

  lemma {:induction false} JoinStart(parts: seq<string>)
    requires parts != [] && IsName(parts[0])
    ensures Join(parts, "/") != "" && Join(parts, "/")[0] == parts[0][0] && parts[0][0] != '/'
  {
  }

  /** Where looking up a name leads: the two dots lead elsewhere. */
  function Enter(at: Path, part: string): Path {
    if part == "." || part == "" then at
    else if part == ".." then (if at == [] then [] else at[..|at| - 1])
    else at + [part]
  }

  // ---------- the operating system ----------

  /** What the n-th call does: whether it fails, how many bytes a write takes, the identity a new
      directory gets, and what a recursive removal that fails has not yet removed. */
  datatype World = World(fails: nat -> bool, writes: nat -> int, identity: nat -> nat, spares: nat -> set<Path>)

  predicate IsPrivate(nodes: Nodes, p: Path) {
    p in nodes && nodes[p].Directory? && nodes[p].private
  }

  /** A directory that others may reach. */
  predicate IsShared(nodes: Nodes, p: Path) {
    p in nodes && nodes[p].Directory? && !nodes[p].private
  }

  /** How a walk ends: at its goal, at a call that failed, or at a directory that is not private. */
  datatype Stop = Arrived | Broken | NotPrivate(depth: nat)

  datatype WalkEnd = WalkEnd(stop: Stop, nodes: Nodes, calls: nat)

  /** One directory further, made where missing. */
  function Enters(nodes: Nodes, p: Path, create: bool, w: World, calls: nat): (r: WalkEnd)
    ensures r.stop.NotPrivate? ==> r.stop.depth == 0
  {
    if w.fails(calls) then WalkEnd(Broken, nodes, calls + 1)
    else if p in nodes then
      WalkEnd(if !nodes[p].Directory? then Broken else if nodes[p].private then Arrived else NotPrivate(0), nodes,
              calls + 1)
    else if !create then WalkEnd(Broken, nodes, calls + 1)
    else if w.fails(calls + 1) then WalkEnd(Broken, nodes, calls + 2)
    else
      var made := nodes[p := Directory(true, w.identity(calls + 1))];
      if w.fails(calls + 2) then WalkEnd(Broken, made, calls + 3)
      else WalkEnd(if w.fails(calls + 3) then Broken else Arrived, made, calls + 4)
  }

  function Walks(nodes: Nodes, at: Path, parts: seq<string>, create: bool, w: World, calls: nat): WalkEnd
    decreases |parts|
  {
    if parts == [] then WalkEnd(Arrived, nodes, calls)
    else
      var p := at + [parts[0]];
      var first := Enters(nodes, p, create, w, calls);
      if !first.stop.Arrived? then first
      else
        Deeper(Walks(first.nodes, p, parts[1..], create, w, first.calls), 1)
  }

  /** The end of a walk that began some steps further up. */
  function Deeper(e: WalkEnd, steps: nat): WalkEnd {
    if e.stop.NotPrivate? then e.(stop := NotPrivate(e.stop.depth + steps)) else e
  }

  datatype Outcome = Done | Refused | UnsafeDirectory

  datatype End = End(outcome: Outcome, nodes: Nodes, calls: nat)

  /** How far a write loop gets: the bytes written, whether that is all, and the next call. */
  datatype Progress = Progress(written: Bytes, complete: bool, calls: nat)

  function Onto(written: Bytes, r: Progress): Progress {
    r.(written := written + r.written)
  }

  function Takes(w: World, calls: nat, size: nat): int {
    if w.fails(calls) then 0 else if w.writes(calls) > size then size else w.writes(calls)
  }

  function Writes(view: Bytes, w: World, calls: nat): (r: Progress)
    ensures r.written <= view && (r.complete <==> r.written == view)
    decreases |view|
  {
    if view == [] then Progress([], true, calls)
    else
      var n := Takes(w, calls, |view|);
      if n <= 0 then Progress([], false, calls + 1)
      else
        var rest := Writes(view[n..], w, calls + 1);
        assert view == view[..n] + view[n..];
        Onto(view[..n], rest)
  }

  /** From the identity check of a new file to the sync of its directory. */
  function Fills(nodes: Nodes, p: Path, content: Bytes, w: World, calls: nat): (r: End)
    ensures !r.outcome.UnsafeDirectory?
  {
    if w.fails(calls) then End(Refused, nodes, calls + 1)
    else
      var r := Writes(content, w, calls + 1);
      var filled := nodes[p := File(r.written, 1)];
      if !r.complete then End(Refused, filled, r.calls)
      else if w.fails(r.calls) then End(Refused, filled, r.calls + 1)
      else if w.fails(r.calls + 1) then End(Refused, filled, r.calls + 2)
      else End(if w.fails(r.calls + 2) then Refused else Done, filled, r.calls + 3)
  }

  function Creates(nodes: Nodes, p: Path, content: Bytes, w: World, calls: nat): (r: End)
    ensures !r.outcome.UnsafeDirectory?
  {
    if w.fails(calls) || p in nodes then End(Refused, nodes, calls + 1)
    else Fills(nodes[p := File([], 1)], p, content, w, calls + 1)
  }

  /** What a create-only write does between opening and closing the root. */
  function WritesUnder(nodes: Nodes, root: Path, parts: seq<string>, content: Bytes, w: World, calls: nat): End
    requires parts != []
  {
    var walk := Walks(nodes, root, parts[..|parts| - 1], true, w, calls);
    match walk.stop {
      case Arrived => Creates(walk.nodes, root + parts, content, w, walk.calls)
      case Broken => End(Refused, walk.nodes, walk.calls)
      case NotPrivate(_) => End(UnsafeDirectory, walk.nodes, walk.calls)
    }
  }

  predicate RootOpens(nodes: Nodes, root: Path, w: World, calls: nat) {
    !w.fails(calls) && IsPrivate(nodes, root)
  }

  function WritesCreateOnly(nodes: Nodes, root: Path, parts: seq<string>, content: Bytes, w: World, calls: nat): End
    requires parts != []
  {
    if !RootOpens(nodes, root, w, calls) then End(Refused, nodes, calls + 1)
    else WritesUnder(nodes, root, parts, content, w, calls + 1)
  }

  predicate IsSingleFile(nodes: Nodes, p: Path) {
    p in nodes && nodes[p].File? && nodes[p].links == 1
  }

  /** Stat, open, compare, unlink and sync; the sync may fail after the file is gone. */
  function Unlinks(nodes: Nodes, p: Path, w: World, calls: nat): End {
    if w.fails(calls) || !IsSingleFile(nodes, p) then End(Refused, nodes, calls + 1)
    else if w.fails(calls + 1) then End(Refused, nodes, calls + 2)
    else UnlinksOpened(nodes, p, w, calls + 2)
  }

  function UnlinksOpened(nodes: Nodes, p: Path, w: World, calls: nat): End {
    if w.fails(calls) then End(Refused, nodes, calls + 1)
    else if w.fails(calls + 1) then End(Refused, nodes, calls + 2)
    else End(if w.fails(calls + 2) then Refused else Done, nodes - {p}, calls + 3)
  }

  function RemovesFile(nodes: Nodes, root: Path, name: string, w: World, calls: nat): End {
    if !RootOpens(nodes, root, w, calls) then End(Refused, nodes, calls + 1)
    else Unlinks(nodes, root + [name], w, calls + 1)
  }

  function Below(nodes: Nodes, top: Path): set<Path> {
    set p | p in nodes && top <= p
  }

  /** A recursive removal and its sync; one that fails may have spared something. */
  function Clears(nodes: Nodes, top: Path, w: World, calls: nat): End {
    if w.fails(calls) then End(Refused, nodes - (Below(nodes, top) - w.spares(calls)), calls + 1)
    else End(if w.fails(calls + 1) then Refused else Done, nodes - Below(nodes, top), calls + 2)
  }

  function RemovesTree(nodes: Nodes, root: Path, name: string, identity: nat, w: World, calls: nat): End {
    var top := root + [name];
    if !RootOpens(nodes, root, w, calls) then End(Refused, nodes, calls + 1)
    else if w.fails(calls + 1) || !IsPrivate(nodes, top) || nodes[top].identity != identity then
      End(Refused, nodes, calls + 2)
    else Clears(nodes, top, w, calls + 2)
  }
}
