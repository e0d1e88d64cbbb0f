/** The library as it runs (scripts/release_safe_io.py): nodes and descriptors changed call by call,
    each method proved against what the schedule makes it do. */
module SafeFileSystem {
  import opened Text
  import opened SafeIO
  import opened SafeIOEffects

  /** `_relative_parts`. */
  method RelativeParts(relative: string) returns (parts: Option<seq<string>>)
    ensures parts == PartsOf(relative)
  {
    if relative == "" || '\0' in relative || '\\' in relative { return None; }
    if relative[0] == '/' { return None; }
    var split := Split(relative, '/');
    for i := 0 to |split|
      invariant forall j :: 0 <= j < i ==> split[j] != "" && split[j] != "." && split[j] != ".."
    {
      if split[i] == "" || split[i] == "." || split[i] == ".." { return None; }
    }
    return Some(split);
  }

  datatype Opened = Got(fd: nat) | Missing | Failed

  /** How a walk ends for its caller: `Unsafe` names the directory refused and its descriptor. */
  datatype Walked = Reached(fd: nat) | Stopped | Unsafe(fd: nat, depth: nat)

  function StopOf(r: Walked): Stop {
    match r case Reached(_) => Arrived case Stopped => Broken case Unsafe(_, depth) => NotPrivate(depth)
  }

  class FileSystem {
    const world: World
    var nodes: Nodes
    var descriptors: map<nat, Path>
    var next: nat
    var calls: nat

    ghost predicate Valid() reads this {
      forall d :: d in descriptors ==> d < next
    }

    constructor (nodes: Nodes, world: World)
      ensures Valid() && this.nodes == nodes && this.world == world && descriptors == map[] && calls == 0
    {
      this.nodes := nodes;
      this.world := world;
      descriptors := map[];
      next := 0;
      calls := 0;
    }

    // System calls.

    method Allocate(p: Path) returns (fd: nat)
      requires Valid()
      modifies this`descriptors, this`next
      ensures Valid() && fd !in old(descriptors) && descriptors == old(descriptors)[fd := p]
    {
      fd := next;
      descriptors := descriptors[fd := p];
      next := next + 1;
    }

    method Close(fd: nat)
      requires Valid() && fd in descriptors
      modifies this`descriptors
      ensures Valid() && descriptors == old(descriptors) - {fd}
    {
      descriptors := descriptors - {fd};
    }

    /** A call that only succeeds or fails: a sync, a stat, a comparison of identities. */
    method Call() returns (ok: bool)
      modifies this`calls
      ensures calls == old(calls) + 1 && ok == !world.fails(old(calls))
    {
      ok := !world.fails(calls);
      calls := calls + 1;
    }

    /** Open the private root by its absolute path. */
    method OpenRoot(root: Path) returns (fd: Option<nat>)
      requires Valid()
      modifies this`descriptors, this`next, this`calls
      ensures Valid() && calls == old(calls) + 1
      ensures fd.Some? <==> RootOpens(nodes, root, world, old(calls))
      ensures fd.None? ==> descriptors == old(descriptors)
      ensures fd.Some? ==> fd.value !in old(descriptors) && descriptors == old(descriptors)[fd.value := root]
    {
      var ok := Call();
      if !ok || !IsPrivate(nodes, root) { return None; }
      var d := Allocate(root);
      return Some(d);
    }

    method OpenDirectory(at: nat, part: string) returns (r: Opened)
      requires Valid() && at in descriptors
      modifies this`descriptors, this`next, this`calls
      ensures Valid() && calls == old(calls) + 1
      ensures var p := Enter(old(descriptors)[at], part);
              && (r.Got? <==> !world.fails(old(calls)) && p in nodes && nodes[p].Directory?)
              && (r.Missing? <==> !world.fails(old(calls)) && p !in nodes)
              && (r.Got? ==> r.fd !in old(descriptors) && descriptors == old(descriptors)[r.fd := p])
              && (!r.Got? ==> descriptors == old(descriptors))
    {
      var p := Enter(descriptors[at], part);
      var ok := Call();
      if !ok { return Failed; }
      if p !in nodes { return Missing; }
      if !nodes[p].Directory? { return Failed; }
      var d := Allocate(p);
      return Got(d);
    }

    method MakeDirectory(at: nat, part: string) returns (ok: bool)
      requires at in descriptors && Enter(descriptors[at], part) !in nodes
      modifies this`nodes, this`calls
      ensures calls == old(calls) + 1 && ok == !world.fails(old(calls))
      ensures var p, made := Enter(descriptors[at], part), Directory(true, world.identity(old(calls)));
              nodes == if ok then old(nodes)[p := made] else old(nodes)
    {
      var id := world.identity(calls);
      ok := Call();
      if ok { nodes := nodes[Enter(descriptors[at], part) := Directory(true, id)]; }
    }

    /** Create a file that must not exist yet, and open it. */
    method CreateFile(at: nat, part: string) returns (fd: Option<nat>)
      requires Valid() && at in descriptors
      modifies this
      ensures Valid() && calls == old(calls) + 1
      ensures var p := Enter(old(descriptors)[at], part);
              && (fd.Some? <==> !world.fails(old(calls)) && p !in old(nodes))
              && (fd.None? ==> nodes == old(nodes) && descriptors == old(descriptors))
              && (fd.Some? ==> nodes == old(nodes)[p := File([], 1)] && fd.value !in old(descriptors)
                               && descriptors == old(descriptors)[fd.value := p])
    {
      var p := Enter(descriptors[at], part);
      var ok := Call();
      if !ok || p in nodes { return None; }
      nodes := nodes[p := File([], 1)];
      var d := Allocate(p);
      return Some(d);
    }

    /** Append some leading part of the data: none of it when the call fails. */
    method Write(fd: nat, data: Bytes) returns (written: int)
      requires fd in descriptors && descriptors[fd] in nodes && nodes[descriptors[fd]].File?
      modifies this`nodes, this`calls
      ensures calls == old(calls) + 1 && written == Takes(world, old(calls), |data|)
      ensures var p, f := descriptors[fd], old(nodes)[descriptors[fd]];
              nodes == if written <= 0 then old(nodes) else old(nodes)[p := File(f.content + data[..written], f.links)]
    {
      written := Takes(world, calls, |data|);
      calls := calls + 1;
      if written > 0 {
        var p := descriptors[fd];
        nodes := nodes[p := File(nodes[p].content + data[..written], nodes[p].links)];
      }
    }

    // The library.

    /** One directory further, made where missing. */
    method Descend(fd: nat, part: string, create: bool) returns (r: Walked)
      requires Valid() && fd in descriptors && NoDots([part])
      modifies this
      ensures Valid()
      ensures var p := old(descriptors)[fd] + [part];
              && WalkEnd(StopOf(r), nodes, calls) == Enters(old(nodes), p, create, world, old(calls))
              && match r {
                case Reached(child) =>
                  child !in old(descriptors) && descriptors == (old(descriptors) - {fd})[child := p]
                case Stopped => descriptors == old(descriptors) - {fd}
                case Unsafe(child, _) =>
                  child !in old(descriptors) && descriptors == (old(descriptors) - {fd})[child := p]
              }
    {
      assert Enter(descriptors[fd], part) == descriptors[fd] + [part] by { assert [part][0] == part; }
      var child := OpenDirectory(fd, part);
      if child.Missing? {
        if !create { Close(fd); return Stopped; }
        var made := MakeDirectory(fd, part);
        if !made { Close(fd); return Stopped; }
        var synced := Call();
        if !synced { Close(fd); return Stopped; }
        child := OpenDirectory(fd, part);
      }
      if !child.Got? { Close(fd); return Stopped; }
      var private := nodes[descriptors[child.fd]].private;
      Close(fd);
      return if private then Reached(child.fd) else Unsafe(child.fd, 0);
    }

    /** `_walk_private_directories`: the start is left open, and so is the descriptor of a
        directory that turns out not to be private. */
    method WalkPrivate(at: nat, parts: seq<string>, create: bool, ghost root: Path) returns (r: Walked)
      requires Valid() && at in descriptors && descriptors[at] == root && NoDots(parts)
      modifies this
      ensures Valid() && WalkEnd(StopOf(r), nodes, calls) == Walks(old(nodes), root, parts, create, world, old(calls))
      ensures match r {
        case Reached(fd) => fd !in old(descriptors) && descriptors == old(descriptors)[fd := root + parts]
        case Stopped => descriptors == old(descriptors)
        case Unsafe(fd, depth) =>
          fd !in old(descriptors) && depth < |parts| && descriptors == old(descriptors)[fd := root + parts[..depth + 1]]
      }
    {
      hide Enters;
      var fd := Allocate(descriptors[at]);
      assert root + parts[..0] == root && parts[0..] == parts;
      for i := 0 to |parts|
        invariant Valid() && fd !in old(descriptors) && descriptors == old(descriptors)[fd := root + parts[..i]]
        invariant Deeper(Walks(nodes, root + parts[..i], parts[i..], create, world, calls), i)
               == Walks(old(nodes), root, parts, create, world, old(calls))
      {
        assert (root + parts[..i]) + [parts[i]] == root + parts[..i + 1] && parts[i..][1..] == parts[i + 1..];
        assert parts[i..][0] == parts[i];
        assert descriptors - {fd} == old(descriptors);
        assert NoDots([parts[i]]);
        var step := Descend(fd, parts[i], create);
        match step {
          case Reached(child) => fd := child;
          case Stopped => return Stopped;
          case Unsafe(child, _) => return Unsafe(child, i);
        }
      }
      assert parts[..|parts|] == parts && parts[|parts|..] == [];
      return Reached(fd);
    }

    /** The write loop: partial writes are continued, and no progress stops it. */
    method WriteAll(fd: nat, content: Bytes) returns (ok: bool)
      requires fd in descriptors && descriptors[fd] in nodes && nodes[descriptors[fd]] == File([], 1)
      modifies this`nodes, this`calls
      ensures var r := Writes(content, world, old(calls));
              ok == r.complete && calls == r.calls && nodes == old(nodes)[descriptors[fd] := File(r.written, 1)]
    {
      var view := content;
      ghost var p, sofar := descriptors[fd], [];
      while view != []
        invariant p in nodes && nodes[p] == File(sofar, 1) && nodes == old(nodes)[p := File(sofar, 1)]
        invariant Onto(sofar, Writes(view, world, calls)) == Writes(content, world, old(calls))
        decreases |view|
      {
        var written := Write(fd, view);
        if written <= 0 { assert sofar + [] == sofar; return false; }
        ghost var rest := Writes(view[written..], world, calls);
        assert (sofar + view[..written]) + rest.written == sofar + (view[..written] + rest.written);
        sofar := sofar + view[..written];
        view := view[written..];
      }
      assert sofar + [] == sofar;
      return true;
    }

    /** From the identity check of the new file to the sync of its directory. */
    method FillFile(file: nat, content: Bytes) returns (outcome: Outcome)
      requires file in descriptors && descriptors[file] in nodes && nodes[descriptors[file]] == File([], 1)
      modifies this`nodes, this`calls
      ensures End(outcome, nodes, calls) == Fills(old(nodes), descriptors[file], content, world, old(calls))
    {
      var same := Call();
      if !same { return Refused; }
      var ok := WriteAll(file, content);
      if !ok { return Refused; }
      ok := Call();
      if !ok { return Refused; }
      same := Call();
      if !same { return Refused; }
      ok := Call();
      return if ok then Done else Refused;
    }

    /** Create the file in its directory and fill it, with its descriptor closed again. */
    method CreateIn(parent: nat, last: string, content: Bytes) returns (outcome: Outcome)
      requires Valid() && parent in descriptors && NoDots([last])
      modifies this
      ensures Valid() && descriptors == old(descriptors)
      ensures End(outcome, nodes, calls)
              == Creates(old(nodes), descriptors[parent] + [last], content, world, old(calls))
    {
      hide Fills;
      assert Enter(descriptors[parent], last) == descriptors[parent] + [last] by { assert [last][0] == last; }
      var created := CreateFile(parent, last);
      if created.None? { return Refused; }
      outcome := FillFile(created.value, content);
      Close(created.value);
      assert descriptors == old(descriptors);
    }

    /** Everything between opening and closing the root. */
    method CreateUnder(rootFd: nat, parts: seq<string>, content: Bytes, ghost root: Path) returns (outcome: Outcome)
      requires Valid() && rootFd in descriptors && descriptors[rootFd] == root && parts != [] && NoDots(parts)
      modifies this
      ensures Valid() && End(outcome, nodes, calls) == WritesUnder(old(nodes), root, parts, content, world, old(calls))
      ensures if outcome.UnsafeDirectory? then LeavesOneOpen(descriptors, old(descriptors), root, parts)
              else descriptors == old(descriptors)
    {
      hide Creates, Walks;
      var init, last := parts[..|parts| - 1], parts[|parts| - 1];
      assert (root + init) + [last] == root + parts;
      assert NoDots(init) && NoDots([last]);
      var walked := WalkPrivate(rootFd, init, true, root);
      match walked {
        case Stopped => return Refused;
        case Unsafe(fd, depth) =>
          assert init[..depth + 1] == parts[..depth + 1];
          assert IsTheOne(descriptors, old(descriptors), fd, root, parts);
          return UnsafeDirectory;
        case Reached(parent) =>
          outcome := CreateIn(parent, last, content);
          Close(parent);
          assert descriptors == old(descriptors);
      }
    }

    /** `write_bytes_create_only`. */
    method WriteBytesCreateOnly(root: Path, relative: string, content: Bytes) returns (outcome: Outcome)
      requires Valid()
      modifies this
      ensures Valid()
      ensures var parts := PartsOf(relative);
              if parts.None? then
                outcome.Refused? && nodes == old(nodes) && calls == old(calls) && descriptors == old(descriptors)
              else
                && End(outcome, nodes, calls)
                   == WritesCreateOnly(old(nodes), root, parts.value, content, world, old(calls))
                && WriteEffect(nodes, old(nodes), root, parts.value, content, outcome)
                && (descriptors == old(descriptors) <==> !Leaks(old(nodes), root, parts.value, world, old(calls)))
                && (Leaks(old(nodes), root, parts.value, world, old(calls)) ==>
                      LeavesOneOpen(descriptors, old(descriptors), root, parts.value))
    {
      hide Split, WritesUnder, Leaks, WriteEffect;
      var parts := RelativeParts(relative);
      if parts.None? { return Refused; }
      LeakIsExact(nodes, root, parts.value, content, world, calls);
      WriteHasItsEffect(nodes, root, parts.value, content, world, calls);
      var rootFd := OpenRoot(root);
      if rootFd.None? { return Refused; }
      ghost var between := descriptors;
      outcome := CreateUnder(rootFd.value, parts.value, content, root);
      if outcome.UnsafeDirectory? {
        StillOneOpen(descriptors, between, old(descriptors), rootFd.value, root, parts.value);
        OneOpenIsMore(descriptors - {rootFd.value}, old(descriptors), root, parts.value);
      }
      Close(rootFd.value);
      assert !outcome.UnsafeDirectory? ==> descriptors == old(descriptors);
    }

    /** `remove_file_exact`. */
    method RemoveFileExact(root: Path, relative: string) returns (outcome: Outcome)
      requires Valid()
      modifies this
      ensures Valid() && descriptors == old(descriptors)
      ensures var parts := PartsOf(relative);
              if parts.None? || |parts.value| != 1 then outcome.Refused? && nodes == old(nodes)
              else End(outcome, nodes, calls) == RemovesFile(old(nodes), root, parts.value[0], world, old(calls))
    {
      hide Split;
      var parts := RelativeParts(relative);
      if parts.None? { return Refused; }
      var rootFd := OpenRoot(root);
      if rootFd.None? { return Refused; }
      if |parts.value| == 1 { outcome := UnlinkFile(root + [parts.value[0]]); } else { outcome := Refused; }
      Close(rootFd.value);
      assert descriptors == old(descriptors);
    }

    method UnlinkFile(target: Path) returns (outcome: Outcome)
      requires Valid()
      modifies this
      ensures Valid() && descriptors == old(descriptors)
      ensures End(outcome, nodes, calls) == Unlinks(old(nodes), target, world, old(calls))
    {
      hide UnlinksOpened;
      var ok := Call();
      if !ok || !IsSingleFile(nodes, target) { return Refused; }
      ok := Call();
      if !ok { return Refused; }
      var fd := Allocate(target);
      outcome := UnlinkOpened(target);
      Close(fd);
      assert descriptors == old(descriptors);
    }

    method UnlinkOpened(target: Path) returns (outcome: Outcome)
      modifies this`nodes, this`calls
      ensures End(outcome, nodes, calls) == UnlinksOpened(old(nodes), target, world, old(calls))
    {
      var ok := Call();
      if !ok { return Refused; }
      ok := Call();
      if !ok { return Refused; }
      nodes := nodes - {target};
      ok := Call();
      return if ok then Done else Refused;
    }

    /** `remove_tree_exact`: one private child of the root, and only with the identity expected. */
    method RemoveTreeExact(root: Path, relative: string, identity: nat) returns (outcome: Outcome)
      requires Valid()
      modifies this
      ensures Valid() && descriptors == old(descriptors)
      ensures var parts := PartsOf(relative);
              if parts.None? || |parts.value| != 1 then outcome.Refused? && nodes == old(nodes)
              else
                End(outcome, nodes, calls) == RemovesTree(old(nodes), root, parts.value[0], identity, world, old(calls))
    {
      hide Split, Below;
      var parts := RelativeParts(relative);
      if parts.None? || |parts.value| != 1 { return Refused; }
      var rootFd := OpenRoot(root);
      if rootFd.None? { return Refused; }
      var name := parts.value[0];
      var top := root + [name];
      assert Enter(root, name) == top;
      var child := OpenDirectory(rootFd.value, name);
      outcome := Refused;
      if child.Got? {
        var node := nodes[top];
        Close(child.fd);
        if node.private && node.identity == identity { outcome := RemoveAll(top); }
      }
      Close(rootFd.value);
      assert descriptors == old(descriptors);
    }

    method RemoveAll(top: Path) returns (outcome: Outcome)
      modifies this`nodes, this`calls
      ensures End(outcome, nodes, calls) == Clears(old(nodes), top, world, old(calls))
    {
      var spared := world.spares(calls);
      var ok := Call();
      if !ok {
        nodes := nodes - (Below(nodes, top) - spared);
        return Refused;
      }
      nodes := nodes - Below(nodes, top);
      ok := Call();
      return if ok then Done else Refused;
    }
  }

  /** What a refused directory leaves behind: exactly one more descriptor, strictly on the way. */
  ghost predicate LeavesOneOpen(after: map<nat, Path>, before: map<nat, Path>, root: Path, parts: seq<string>) {
    exists fd: nat :: IsTheOne(after, before, fd, root, parts)
  }

  /** The one descriptor that is new, and where it stands. */
  predicate IsTheOne(after: map<nat, Path>, before: map<nat, Path>, fd: nat, root: Path, parts: seq<string>) {
    fd in after && fd !in before && after == before[fd := after[fd]] && root < after[fd] < root + parts
  }

  lemma {:induction false} StillOneOpen(after: map<nat, Path>, between: map<nat, Path>, before: map<nat, Path>,
                                        rootFd: nat, root: Path,
                                        parts: seq<string>)
    requires rootFd !in before && between == before[rootFd := root] && LeavesOneOpen(after, between, root, parts)
    ensures rootFd in after && LeavesOneOpen(after - {rootFd}, before, root, parts)
  {
    var fd: nat :| IsTheOne(after, between, fd, root, parts);
    var left := after - {rootFd};
    assert left == before[fd := left[fd]];
    assert IsTheOne(left, before, fd, root, parts);
  }

  lemma {:induction false} OneOpenIsMore(after: map<nat, Path>, before: map<nat, Path>, root: Path, parts: seq<string>)
    requires LeavesOneOpen(after, before, root, parts)
    ensures after != before
  {
  }
}
