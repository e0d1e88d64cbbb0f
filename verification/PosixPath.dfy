/** Lexical path normalisation (`posixpath.normpath`, `join`, `dirname`) and its meaning: the
    directory walk a path describes. */
module PosixPath {
  import opened Text

  predicate EndsInParent(stack: seq<string>) {
    stack != [] && stack[|stack| - 1] == ".."
  }

  /** The component loop of `normpath`. */
  function Collapse(parts: seq<string>, stack: seq<string>, rooted: bool): seq<string>
    decreases |parts|
  {
    if parts == [] then stack
    else
      var part, rest := parts[0], parts[1..];
      if part == "" || part == "." then Collapse(rest, stack, rooted)
      else if part != ".." || (!rooted && stack == []) || EndsInParent(stack) then
        Collapse(rest, stack + [part], rooted)
      else if stack != [] then Collapse(rest, stack[..|stack| - 1], rooted)
      else Collapse(rest, stack, rooted)
  }

  function LeadingSlashes(path: string): (n: nat)
    ensures n <= 2
  {
    if !("/" <= path) then 0 else if "//" <= path && !("///" <= path) then 2 else 1
  }

  function NormPath(path: string): string {
    if path == "" then "."
    else
      var slashes := LeadingSlashes(path);
      var body := (if slashes == 0 then "" else if slashes == 1 then "/" else "//")
                  + Join(Collapse(Split(path, '/'), [], slashes > 0), "/");
      if body == "" then "." else body
  }

  method Normalize(path: string) returns (r: string)
    ensures r == NormPath(path)
  {
    if path == "" { return "."; }
    var slashes := LeadingSlashes(path);
    var parts := Split(path, '/');
    var stack: seq<string> := [];
    assert parts[0..] == parts;
    for i := 0 to |parts|
      invariant Collapse(parts[i..], stack, slashes > 0) == Collapse(parts, [], slashes > 0)
    {
      var part := parts[i];
      assert parts[i..][1..] == parts[i + 1..];
      if part == "" || part == "." { continue; }
      if part != ".." || (slashes == 0 && stack == []) || EndsInParent(stack) {
        stack := stack + [part];
      } else if stack != [] {
        stack := stack[..|stack| - 1];
      }
    }
    assert parts[|parts|..] == [];
    r := (if slashes == 0 then "" else if slashes == 1 then "/" else "//") + Join(stack, "/");
    if r == "" { return "."; }
  }

  function LastSlash(path: string): (n: nat)
    ensures n <= |path|
    ensures n > 0 ==> path[n - 1] == '/'
    ensures forall i :: n <= i < |path| ==> path[i] != '/'
  {
    if path == [] || path[|path| - 1] == '/' then |path| else LastSlash(path[..|path| - 1])
  }

  function DropTrailingSlashes(s: string): string {
    if s != [] && s[|s| - 1] == '/' then DropTrailingSlashes(s[..|s| - 1]) else s
  }

  function Dirname(path: string): string {
    var head := path[..LastSlash(path)];
    var trimmed := DropTrailingSlashes(head);
    if trimmed == "" then head else trimmed
  }

  function JoinPath(a: string, b: string): string {
    if "/" <= b then b
    else if a == "" || a[|a| - 1] == '/' then a + b
    else a + "/" + b
  }

  // ---------- the meaning of a relative path ----------

  /** Follows components down and up from a directory; climbing above the root fails. */
  function Walk(parts: seq<string>, place: seq<string>): Option<seq<string>>
    decreases |parts|
  {
    if parts == [] then Some(place)
    else
      var part, rest := parts[0], parts[1..];
      if part == "" || part == "." then Walk(rest, place)
      else if part != ".." then Walk(rest, place + [part])
      else if place == [] then None
      else Walk(rest, place[..|place| - 1])
  }

  predicate IsPlain(part: string) {
    part != "" && part != "." && part != ".." && '/' !in part
  }

  predicate AllPlain(parts: seq<string>) {
    forall i :: 0 <= i < |parts| ==> IsPlain(parts[i])
  }

  predicate SlashFree(parts: seq<string>) {
    forall i :: 0 <= i < |parts| ==> '/' !in parts[i]
  }

  lemma SlashFreeTail(parts: seq<string>)
    requires SlashFree(parts) && parts != []
    ensures SlashFree(parts[1..]) && '/' !in parts[0]
  {
  }

  /** While the walk stays below the root, collapsing computes it. */
  lemma {:induction false} CollapseFollowsTheWalk(parts: seq<string>, place: seq<string>)
    requires SlashFree(parts) && AllPlain(place)
    ensures var w := Walk(parts, place);
            && (w.Some? ==> AllPlain(w.value) && Collapse(parts, place, false) == w.value)
            && (w.None? ==> Climbs(Collapse(parts, place, false)))
    decreases |parts|
  {
    if parts != [] {
      SlashFreeTail(parts);
      var part, rest := parts[0], parts[1..];
      if part == "" || part == "." {
        CollapseFollowsTheWalk(rest, place);
      } else if part != ".." {
        assert IsPlain(part);
        assert AllPlain(place + [part]);
        CollapseFollowsTheWalk(rest, place + [part]);
      } else if place == [] {
        assert place + [part] == [".."];
        assert Collapse(parts, place, false) == Collapse(rest, [".."], false);
        CollapseKeepsClimbing(rest, [".."]);
      } else {
        assert !EndsInParent(place) by { assert IsPlain(place[|place| - 1]); }
        assert AllPlain(place[..|place| - 1]);
        CollapseFollowsTheWalk(rest, place[..|place| - 1]);
      }
    }
  }

  /** A collapsed path that starts above the root. */
  predicate Climbs(stack: seq<string>) {
    stack != [] && stack[0] == ".."
  }

  lemma {:induction false} CollapseKeepsClimbing(parts: seq<string>, stack: seq<string>)
    requires Climbs(stack)
    ensures Climbs(Collapse(parts, stack, false))
    decreases |parts|
  {
    if parts != [] {
      var part, rest := parts[0], parts[1..];
      if part == "" || part == "." {
        CollapseKeepsClimbing(rest, stack);
      } else if part != ".." || EndsInParent(stack) {
        CollapseKeepsClimbing(rest, stack + [part]);
      } else {
        CollapseKeepsClimbing(rest, stack[..|stack| - 1]);
      }
    }
  }

  lemma {:induction false} CollapseIsSlashFree(parts: seq<string>, stack: seq<string>, rooted: bool)
    requires SlashFree(parts) && SlashFree(stack)
    ensures SlashFree(Collapse(parts, stack, rooted))
    decreases |parts|
  {
    if parts != [] {
      SlashFreeTail(parts);
      var part, rest := parts[0], parts[1..];
      if part == "" || part == "." {
        CollapseIsSlashFree(rest, stack, rooted);
      } else if part != ".." || (!rooted && stack == []) || EndsInParent(stack) {
        CollapseIsSlashFree(rest, stack + [part], rooted);
      } else if stack != [] {
        CollapseIsSlashFree(rest, stack[..|stack| - 1], rooted);
      } else {
        CollapseIsSlashFree(rest, stack, rooted);
      }
    }
  }

  /** Being textually below a directory, component by component. */
  lemma {:induction false} PrefixIsComponents(top: seq<string>, parts: seq<string>)
    requires top != [] && SlashFree(top) && SlashFree(parts) && parts != []
    ensures Join(top, "/") + "/" <= Join(parts, "/") <==> |top| < |parts| && parts[..|top|] == top
  {
    hide SlashFree, Join;
    if Join(top, "/") + "/" <= Join(parts, "/") { PrefixGivesComponents(top, parts); }
    if |top| < |parts| && parts[..|top|] == top { ComponentsGivePrefix(top, parts); }
  }

  lemma {:induction false} ComponentsGivePrefix(top: seq<string>, parts: seq<string>)
    requires top != [] && |top| < |parts| && parts[..|top|] == top
    ensures Join(top, "/") + "/" <= Join(parts, "/")
  {
    var rest := Join(parts[1..], "/");
    assert Join(parts, "/") == parts[0] + "/" + rest && parts[0] == parts[..|top|][0];
    if |top| > 1 {
      assert parts[1..][..|top| - 1] == top[1..];
      ComponentsGivePrefix(top[1..], parts[1..]);
      var head := Join(top[1..], "/") + "/";
      assert rest == head + rest[|head|..];
      assert parts[0] + "/" + (head + rest[|head|..]) == (top[0] + "/" + head) + rest[|head|..];
      assert Join(top, "/") + "/" == top[0] + "/" + head;
    }
  }

  /** The first component of a path that is textually below a directory, and what follows it. */
  lemma {:induction false} FirstComponent(first: string, more: string, parts: seq<string>)
    requires SlashFree(parts) && parts != [] && '/' !in first && first + ['/'] + more <= Join(parts, "/")
    ensures |parts| > 1 && parts[0] == first && more <= Join(parts[1..], "/")
  {
    var whole, head := Join(parts, "/"), first + ['/'];
    var tail := whole[|head|..];
    assert whole == first + ['/'] + tail && more <= tail by { assert whole[..|head + more|] == head + more; }
    SplitOfJoin(parts, '/');
    SplitAtFirst(first, tail, '/');
    assert parts[1..] == Split(tail, '/');
    JoinSplit(tail, '/');
  }

  lemma {:induction false} PrefixGivesComponents(top: seq<string>, parts: seq<string>)
    requires top != [] && SlashFree(top) && SlashFree(parts) && parts != [] && Join(top, "/") + "/" <= Join(parts, "/")
    ensures |top| < |parts| && parts[..|top|] == top
  {
    hide Join;
    SlashFreeTail(top);
    SlashFreeTail(parts);
    if |top| == 1 {
      assert Join(top, "/") == top[0] by { JoinOfOne(top); }
      assert Join(top, "/") + "/" == top[0] + ['/'] + [];
      FirstComponent(top[0], [], parts);
      assert parts[..1] == [parts[0]];
    } else {
      var more := Join(top[1..], "/") + "/";
      assert Join(top, "/") + "/" == top[0] + ['/'] + more by { JoinOfMore(top); }
      FirstComponent(top[0], more, parts);
      PrefixGivesComponents(top[1..], parts[1..]);
      assert parts[..|top|] == [parts[0]] + parts[1..][..|top| - 1];
      assert top == [top[0]] + top[1..];
    }
  }

  lemma {:induction false} JoinOfOne(parts: seq<string>)
    requires |parts| == 1
    ensures Join(parts, "/") == parts[0]
  {
  }

  lemma {:induction false} JoinOfMore(parts: seq<string>)
    requires |parts| > 1
    ensures Join(parts, "/") + "/" == parts[0] + ['/'] + (Join(parts[1..], "/") + "/")
  {
  }

  /** The exact meaning of the guard `normpath(p).startswith(top + "/")` on a relative path: the
      walk that p describes never climbs above the root and ends strictly below `top`. */
  lemma {:induction false} NormPathStaysBelow(path: string, top: seq<string>)
    requires path != "" && !("/" <= path)
    requires top != [] && AllPlain(top)
    ensures Join(top, "/") + "/" <= NormPath(path) <==>
              var w := Walk(Split(path, '/'), []);
              w.Some? && |top| < |w.value| && w.value[..|top|] == top
    ensures Join(top, "/") + "/" <= NormPath(path) ==>
              NormPath(path) == Join(Walk(Split(path, '/'), []).value, "/")
  {
    hide Walk, Collapse, Split, Join;
    var parts := Split(path, '/');
    var stack := Collapse(parts, [], false);
    assert SlashFree(parts) && SlashFree(top);
    CollapseIsSlashFree(parts, [], false);
    CollapseFollowsTheWalk(parts, []);
    if stack == [] {
      assert Join(stack, "/") == "" by { JoinNothing(); }
      assert !(Join(top, "/") + "/" <= ".") by { NotADot(top); }
    } else {
      assert NormPath(path) == Join(stack, "/") by { JoinIsNotEmpty(stack, parts); }
      PrefixIsComponents(top, stack);
      if Climbs(stack) && |top| < |stack| {
        assert stack[..|top|][0] == ".." && IsPlain(top[0]);
      }
    }
  }

  lemma JoinNothing()
    ensures Join([], "/") == ""
  {
  }

  lemma {:induction false} NotADot(top: seq<string>)
    requires top != [] && AllPlain(top)
    ensures !(Join(top, "/") + "/" <= ".")
  {
  }

  lemma {:induction false} JoinIsNotEmpty(stack: seq<string>, parts: seq<string>)
    requires stack == Collapse(parts, [], false) && stack != []
    ensures Join(stack, "/") != ""
  {
    CollapseSkipsEmpty(parts, [], false);
    assert stack[0] != "";
  }

  predicate NoneEmpty(parts: seq<string>) {
    forall i :: 0 <= i < |parts| ==> parts[i] != ""
  }

  lemma {:induction false} CollapseSkipsEmpty(parts: seq<string>, stack: seq<string>, rooted: bool)
    requires NoneEmpty(stack)
    ensures NoneEmpty(Collapse(parts, stack, rooted))
    decreases |parts|
  {
    if parts != [] {
      var part, rest := parts[0], parts[1..];
      if part == "" || part == "." {
        CollapseSkipsEmpty(rest, stack, rooted);
      } else if part != ".." || (!rooted && stack == []) || EndsInParent(stack) {
        CollapseSkipsEmpty(rest, stack + [part], rooted);
      } else if stack != [] {
        CollapseSkipsEmpty(rest, stack[..|stack| - 1], rooted);
      } else {
        CollapseSkipsEmpty(rest, stack, rooted);
      }
    }
  }

  // ---------- the normal form ----------

  /** Only plain names, after climbing parts that a rooted path does not have. */
  ghost predicate IsNormal(stack: seq<string>, rooted: bool) {
    exists k :: 0 <= k <= |stack| && ClimbsFor(stack, k) && (rooted ==> k == 0)
  }

  predicate ClimbsFor(stack: seq<string>, k: nat)
    requires k <= |stack|
  {
    (forall i :: 0 <= i < k ==> stack[i] == "..") && AllPlain(stack[k..])
  }

  lemma {:induction false} CollapseIsNormal(parts: seq<string>, stack: seq<string>, rooted: bool)
    requires SlashFree(parts) && IsNormal(stack, rooted)
    ensures IsNormal(Collapse(parts, stack, rooted), rooted)
    decreases |parts|
  {
    if parts != [] {
      SlashFreeTail(parts);
      var part, rest := parts[0], parts[1..];
      var k :| 0 <= k <= |stack| && ClimbsFor(stack, k) && (rooted ==> k == 0);
      if part == "" || part == "." {
        CollapseIsNormal(rest, stack, rooted);
      } else if part != ".." {
        assert (stack + [part])[k..] == stack[k..] + [part];
        assert ClimbsFor(stack + [part], k);
        CollapseIsNormal(rest, stack + [part], rooted);
      } else if (!rooted && stack == []) || EndsInParent(stack) {
        if stack != [] { LastPart(stack, k); }
        assert ClimbsFor(stack + [part], k + 1);
        CollapseIsNormal(rest, stack + [part], rooted);
      } else if stack != [] {
        LastPart(stack, k);
        assert stack[..|stack| - 1][k..] == stack[k..][..|stack| - 1 - k];
        assert ClimbsFor(stack[..|stack| - 1], k);
        CollapseIsNormal(rest, stack[..|stack| - 1], rooted);
      } else {
        CollapseIsNormal(rest, stack, rooted);
      }
    }
  }

  lemma LastPart(stack: seq<string>, k: nat)
    requires k <= |stack| && ClimbsFor(stack, k) && stack != []
    ensures EndsInParent(stack) <==> k == |stack|
  {
    assert forall i :: k <= i < |stack| ==> stack[k..][i - k] == stack[i];
    assert k < |stack| ==> IsPlain(stack[|stack| - 1]);
  }

  /** Collapsing leaves a normal form as it is. */
  lemma {:induction false} CollapseOfNormal(parts: seq<string>, stack: seq<string>, rooted: bool)
    requires IsNormal(stack + parts, rooted)
    ensures Collapse(parts, stack, rooted) == stack + parts
    decreases |parts|
  {
    if parts != [] {
      var part, rest := parts[0], parts[1..];
      assert (stack + [part]) + rest == stack + parts;
      var whole := stack + parts;
      var k :| 0 <= k <= |whole| && ClimbsFor(whole, k) && (rooted ==> k == 0);
      assert whole[|stack|] == part;
      if |stack| >= k {
        assert IsPlain(whole[k..][|stack| - k]);
      } else {
        assert stack != [] ==> stack[|stack| - 1] == whole[|stack| - 1];
      }
      CollapseOfNormal(rest, stack + [part], rooted);
    } else {
      assert stack + parts == stack;
    }
  }

  function Slashes(n: nat): string {
    if n == 0 then "" else if n == 1 then "/" else "//"
  }

  /** A normalised path: its leading slashes, at most two, then the parts of a normal form. */
  lemma NormalForm(path: string) returns (n: nat, stack: seq<string>)
    ensures n <= 2 && Slashes(n) <= path && (n == 0 ==> !("/" <= path))
    ensures n == 1 ==> "///" <= path || !("//" <= path)
    ensures n == 2 ==> !("///" <= path)
    ensures SlashFree(stack) && IsNormal(stack, n > 0)
    ensures NormPath(path) == if n == 0 && stack == [] then "." else Slashes(n) + Join(stack, "/")
  {
    hide Collapse, Split, Join;
    n := LeadingSlashes(path);
    stack := if path == "" then [] else Collapse(Split(path, '/'), [], n > 0);
    NothingIsNormal(n > 0);
    if path != "" {
      CollapseIsNormal(Split(path, '/'), [], n > 0);
      CollapseIsSlashFree(Split(path, '/'), [], n > 0);
      JoinOfNormal(stack, n > 0);
      assert n > 0 ==> Slashes(n) + Join(stack, "/") != "";
    }
  }

  lemma NothingIsNormal(rooted: bool)
    ensures IsNormal([], rooted)
  {
    assert ClimbsFor([], 0);
  }

  lemma {:induction false} JoinOfNormal(stack: seq<string>, rooted: bool)
    requires IsNormal(stack, rooted) && SlashFree(stack)
    ensures (Join(stack, "/") == "" <==> stack == []) && !("/" <= Join(stack, "/"))
  {
    if stack != [] {
      var k :| 0 <= k <= |stack| && ClimbsFor(stack, k) && (rooted ==> k == 0);
      assert k == 0 ==> IsPlain(stack[k..][0]);
      assert stack[0] != "" && stack[0][0] != '/';
      assert Join(stack, "/")[0] == stack[0][0];
    }
  }

  /** Normalising twice changes nothing, for every path. */
  lemma NormPathIsIdempotent(path: string)
    ensures NormPath(NormPath(path)) == NormPath(path)
  {
    hide Collapse, Split, Join, NormPath, IsNormal;
    var n, stack := NormalForm(path);
    JoinOfNormal(stack, n > 0);
    if n == 0 && stack == [] {
      DotIsNormal();
    } else {
      RenderedIsNormal(n, stack);
    }
  }

  lemma {:induction false} DotIsNormal()
    ensures NormPath(".") == "."
  {
    SplitWithout(".", '/');
    assert ["."][1..] == [];
    assert Collapse(["."], [], false) == [];
  }

  lemma {:induction false} RenderedIsNormal(n: nat, stack: seq<string>)
    requires n <= 2 && SlashFree(stack) && IsNormal(stack, n > 0) && (n > 0 || stack != [])
    ensures var p := Slashes(n) + Join(stack, "/"); NormPath(p) == p
  {
    hide Collapse, Split, Join, IsNormal;
    var body := Join(stack, "/");
    var p := Slashes(n) + body;
    JoinOfNormal(stack, n > 0);
    LeadingOfRendered(n, body);
    SplitOfRendered(n, stack);
    RenderedCollapses(n, stack);
  }

  lemma LeadingOfRendered(n: nat, body: string)
    requires n <= 2 && !("/" <= body)
    ensures LeadingSlashes(Slashes(n) + body) == n
  {
    var p := Slashes(n) + body;
    assert body != "" ==> body[..1] == [body[0]];
    assert |p| > n ==> p[n] == body[0];
    assert forall i :: 0 <= i < n ==> p[i] == '/';
    assert "/" <= p <==> |p| > 0 && p[0] == '/' by { if |p| > 0 { assert p[..1] == [p[0]]; } }
    assert "//" <= p <==> |p| > 1 && p[0] == '/' && p[1] == '/' by { if |p| > 1 { assert p[..2] == [p[0], p[1]]; } }
    assert |p| > 2 ==> p[..3] == [p[0], p[1], p[2]];
  }

  function Empties(n: nat): seq<string> {
    if n == 0 then [] else if n == 1 then [""] else ["", ""]
  }

  lemma {:induction false} SplitOfRendered(n: nat, stack: seq<string>)
    requires n <= 2 && SlashFree(stack)
    ensures Split(Slashes(n) + Join(stack, "/"), '/') == Empties(n) + (if stack == [] then [""] else stack)
  {
    hide Split, Join;
    var body := Join(stack, "/");
    if stack == [] {
      assert body == "" by { JoinNothing(); }
      SplitWithout("", '/');
    } else {
      SplitOfJoin(stack, '/');
    }
    if n == 1 {
      SplitAtFirst("", body, '/');
      assert "" + ['/'] + body == Slashes(n) + body;
    } else if n == 2 {
      SplitAtFirst("", body, '/');
      SplitAtFirst("", "/" + body, '/');
      assert "" + ['/'] + body == "/" + body;
      assert "" + ['/'] + ("/" + body) == Slashes(n) + body;
    } else {
      assert Slashes(n) + body == body;
    }
  }

  lemma {:induction false} RenderedCollapses(n: nat, stack: seq<string>)
    requires n <= 2 && IsNormal(stack, n > 0)
    ensures Collapse(Empties(n) + (if stack == [] then [""] else stack), [], n > 0) == stack
  {
    var tail := if stack == [] then [""] else stack;
    assert Collapse(tail, [], n > 0) == stack by {
      if stack == [] {
        assert [""][1..] == [];
      } else {
        assert [] + stack == stack;
        CollapseOfNormal(stack, [], n > 0);
      }
    }
    if n == 1 {
      assert ([""] + tail)[1..] == tail;
    } else if n == 2 {
      assert (["", ""] + tail)[1..] == [""] + tail && ([""] + tail)[1..] == tail;
      assert Collapse([""] + tail, [], true) == stack;
    } else {
      assert [] + tail == tail;
    }
  }

  // ---------- rooted paths ----------

  /** In a rooted path a walk that stays below the root is followed, and one that climbs out goes on
      from the root. */
  lemma {:induction false} RootedFollowsTheWalk(parts: seq<string>, place: seq<string>) returns (a: seq<string>)
    requires SlashFree(parts) && AllPlain(place)
    ensures Walk(parts, place).Some? ==> Collapse(parts, place, true) == Walk(parts, place).value
    ensures Walk(parts, place).None? ==>
      && a + [".."] <= parts && Walk(a, place) == Some([])
      && Collapse(parts, place, true) == Collapse(parts[|a| + 1..], [], true)
    decreases |parts|
  {
    a := [];
    if parts != [] {
      SlashFreeTail(parts);
      var part, rest := parts[0], parts[1..];
      if part == ".." && place == [] {
        assert Collapse(parts, place, true) == Collapse(rest, [], true);
      } else {
        var next := if part == "" || part == "." then place
                    else if part != ".." then place + [part] else place[..|place| - 1];
        assert part == ".." ==> IsPlain(place[|place| - 1]);
        assert AllPlain(next);
        var b := RootedFollowsTheWalk(rest, next);
        a := [part] + b;
        assert a[1..] == b;
        if Walk(parts, place).None? {
          assert a + [".."] == [part] + (b + [".."]);
          assert rest[|b| + 1..] == parts[|a| + 1..];
        }
      }
    }
  }
}
