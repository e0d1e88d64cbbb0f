/** Which authentication challenges are read, and as what (scripts/assemble_release_index.py): the
    language of sections 5.6.4 and 11.6.1 of RFC 9110 that the parser accepts. */
module AuthGrammar {
  import opened Text
  import opened AuthChallenge
  import S = Semver

  // ---------- parts ----------

  /** The inside of a quoted string: escapes of any character, otherwise no quote. */
  predicate IsInside(s: string) {
    if s == [] then true
    else if s[0] == '\\' then |s| >= 2 && IsInside(s[2..])
    else s[0] != '"' && IsInside(s[1..])
  }

  /** Closed text: quoted strings, and outside of them no comma. */
  ghost predicate IsPart(s: string)
    decreases |s|
  {
    if s == [] then true
    else if s[0] == '"' then exists n :: 1 <= n < |s| && s[n] == '"' && IsInside(s[1..n]) && IsPart(s[n + 1..])
    else s[0] != ',' && IsPart(s[1..])
  }

  const INSIDE := State(true, false)

  /** From inside quotes, an inside and its closing quote lead out again. */
  lemma {:induction false} InsideCloses(m: string, rest: string)
    requires IsInside(m)
    ensures After(m + "\"" + rest, INSIDE) == After(rest, START)
    ensures IsUncut(m + "\"" + rest, INSIDE) <==> IsUncut(rest, START)
    decreases |m|
  {
    var s := m + "\"" + rest;
    if m == [] {
      assert s[0] == '"' && s[1..] == rest;
    } else if m[0] == '\\' {
      assert s[0] == '\\' && s[1..][1..] == m[2..] + "\"" + rest;
      InsideCloses(m[2..], rest);
    } else {
      assert s[0] == m[0] && s[1..] == m[1..] + "\"" + rest;
      InsideCloses(m[1..], rest);
    }
  }

  /** From inside quotes, text that leads out has such a closing quote. */
  lemma {:induction false} FindsClosing(s: string) returns (n: nat)
    requires After(s, INSIDE) == START
    ensures n < |s| && s[n] == '"' && IsInside(s[..n])
    decreases |s|
  {
    assert s != [];
    if s[0] == '"' {
      n := 0;
      assert s[..0] == [];
    } else if s[0] == '\\' {
      assert s[1..] != [];
      assert s[1..][1..] == s[2..];
      var k := FindsClosing(s[2..]);
      n := k + 2;
      assert s[..n][0] == '\\' && s[..n][2..] == s[2..][..k];
    } else {
      var k := FindsClosing(s[1..]);
      n := k + 1;
      assert s[..n][0] == s[0] && s[..n][1..] == s[1..][..k];
    }
  }

  lemma {:induction false} PartMeans(s: string)
    ensures IsPart(s) <==> IsUncut(s, START) && After(s, START) == START
    decreases |s|
  {
    if s != [] && s[0] == '"' {
      hide IsPart, IsUncut, After, IsInside;
      if IsPart(s) {
        var n := PartCloses(s);
        PartMeans(s[n + 1..]);
        ClosedGoesOn(s, n);
      }
      if IsUncut(s, START) && After(s, START) == START {
        var n := UncutCloses(s);
        ClosedGoesOn(s, n);
        PartMeans(s[n + 1..]);
        ClosedIsPart(s, n);
      }
    } else if s != [] {
      PartMeans(s[1..]);
    }
  }

  lemma {:induction false} PartCloses(s: string) returns (n: nat)
    requires s != [] && s[0] == '"' && IsPart(s)
    ensures 1 <= n < |s| && s[n] == '"' && IsInside(s[1..n]) && IsPart(s[n + 1..])
  {
    n :| 1 <= n < |s| && s[n] == '"' && IsInside(s[1..n]) && IsPart(s[n + 1..]);
  }

  lemma {:induction false} ClosedIsPart(s: string, n: nat)
    requires 1 <= n < |s| && s[0] == '"' && s[n] == '"' && IsInside(s[1..n]) && IsPart(s[n + 1..])
    ensures IsPart(s)
  {
  }

  /** Past a quoted text the state is as at its start. */
  lemma {:induction false} ClosedGoesOn(s: string, n: nat)
    requires 1 <= n < |s| && s[0] == '"' && s[n] == '"' && IsInside(s[1..n])
    ensures After(s, START) == After(s[n + 1..], START) && (IsUncut(s, START) <==> IsUncut(s[n + 1..], START))
  {
    hide IsInside;
    assert s[1..] == s[1..n] + "\"" + s[n + 1..];
    InsideCloses(s[1..n], s[n + 1..]);
    OpensQuote(s);
  }

  lemma {:induction false} OpensQuote(s: string)
    requires s != [] && s[0] == '"'
    ensures After(s, START) == After(s[1..], INSIDE) && (IsUncut(s, START) <==> IsUncut(s[1..], INSIDE))
  {
  }

  lemma {:induction false} UncutCloses(s: string) returns (n: nat)
    requires s != [] && s[0] == '"' && After(s, START) == START
    ensures 1 <= n < |s| && s[n] == '"' && IsInside(s[1..n])
  {
    hide IsInside, After;
    OpensQuote(s);
    var k := FindsClosing(s[1..]);
    n := k + 1;
    assert s[1..n] == s[1..][..k];
  }

  // ---------- splitting ----------

  /** How each piece of a text is read: the first from the state before it, the others from the start;
      all but the last are closed, and the last ends where the text does. */
  ghost predicate Splits(ps: seq<string>, s: string, st: State) {
    && |ps| >= 1 && IsUncut(ps[0], st)
    && (forall i :: 1 <= i < |ps| ==> IsUncut(ps[i], START))
    && (forall i :: 0 <= i < |ps| - 1 ==> After(ps[i], if i == 0 then st else START) == START)
    && After(ps[|ps| - 1], if |ps| == 1 then st else START) == After(s, st)
  }

  lemma {:induction false} PiecesSplit(s: string, st: State)
    requires !(st.escaped && !st.quoted)
    ensures Splits(Pieces(s, st), s, st)
    decreases |s|
  {
    if s != [] {
      hide Splits;
      var next := Next(st, s[0]);
      PiecesSplit(s[1..], next);
      if IsCut(st, s[0]) {
        CutSplits(Pieces(s[1..], next), s);
      } else {
        UncutSplits(Pieces(s[1..], next), s, st);
      }
    }
  }

  lemma {:induction false} CutSplits(rest: seq<string>, s: string)
    requires s != [] && IsCut(START, s[0]) && Splits(rest, s[1..], START)
    ensures Splits([[]] + rest, s, START)
  {
    hide IsUncut;
    var ps := [[]] + rest;
    assert IsUncut([], START) by { NothingIsUncut(); }
    assert After(s, START) == After(s[1..], START);
    forall i | 1 <= i < |ps| ensures ps[i] == rest[i - 1] { }
  }

  lemma {:induction false} NothingIsUncut()
    ensures IsUncut([], START)
  {
  }

  lemma {:induction false} UncutSplits(rest: seq<string>, s: string, st: State)
    requires s != [] && !IsCut(st, s[0]) && Splits(rest, s[1..], Next(st, s[0]))
    ensures Splits([[s[0]] + rest[0]] + rest[1..], s, st)
  {
    hide IsCut;
    var ps := [[s[0]] + rest[0]] + rest[1..];
    assert ps[0][1..] == rest[0] && ps[0][0] == s[0];
    assert forall i :: 1 <= i < |ps| ==> ps[i] == rest[i];
    OneMore(s[0], rest[0], st);
  }

  lemma {:induction false} OneMore(c: char, s: string, st: State)
    requires !IsCut(st, c)
    ensures After([c] + s, st) == After(s, Next(st, c)) && (IsUncut([c] + s, st) <==> IsUncut(s, Next(st, c)))
  {
    assert ([c] + s)[1..] == s;
  }

  /** A part and what follows it after a comma. */
  lemma {:induction false} PartThenMore(part: string, rest: string)
    requires IsPart(part)
    ensures Pieces(part + "," + rest, START) == [part] + Pieces(rest, START)
    ensures After(part + "," + rest, START) == After(rest, START)
  {
    PartMeans(part);
    var tail := "," + rest;
    assert part + "," + rest == part + tail && tail[1..] == rest;
    UncutStays(part, tail, START);
    AfterOn(part, tail, START);
    assert Pieces(tail, START) == [[]] + Pieces(rest, START);
    OntoCut(part, Pieces(rest, START));
  }

  lemma {:induction false} AfterOn(a: string, b: string, st: State)
    ensures After(a + b, st) == After(b, After(a, st))
    decreases |a|
  {
    if a == [] {
      assert a + b == b;
    } else {
      assert (a + b)[1..] == a[1..] + b && (a + b)[0] == a[0];
      AfterOn(a[1..], b, Next(st, a[0]));
    }
  }

  lemma {:induction false} OnePart(part: string)
    requires IsPart(part)
    ensures Pieces(part, START) == [part] && After(part, START) == START
  {
    PartMeans(part);
    UncutStays(part, [], START);
    assert part + [] == part;
    assert Pieces([], START) == [[]];
    OntoCut(part, []);
  }

  lemma {:induction false} PartsAreSplit(parts: seq<string>)
    requires parts != [] && forall i :: 0 <= i < |parts| ==> IsPart(parts[i])
    ensures Pieces(Join(parts, ","), START) == parts && After(Join(parts, ","), START) == START
  {
    hide Pieces, After, IsPart;
    if |parts| == 1 {
      OnePart(parts[0]);
    } else {
      PartsAreSplit(parts[1..]);
      PartThenMore(parts[0], Join(parts[1..], ","));
      assert parts == [parts[0]] + parts[1..];
    }
  }

  /** Splitting, exactly: a challenge with no quote left open is cut into closed parts, at every comma
      between them and nowhere else, and there is one way to do so. */
  lemma {:induction false} SplitIsExact(challenge: string, parts: seq<string>)
    ensures After(challenge, START) == START && Pieces(challenge, START) == parts <==>
      parts != [] && (forall i :: 0 <= i < |parts| ==> IsPart(parts[i])) && Join(parts, ",") == challenge
  {
    hide IsPart, Pieces, After;
    if After(challenge, START) == START && Pieces(challenge, START) == parts {
      PiecesSplit(challenge, START);
      PiecesRejoin(challenge, START);
      forall i | 0 <= i < |parts| ensures IsPart(parts[i]) { PartMeans(parts[i]); }
    }
    if parts != [] && (forall i :: 0 <= i < |parts| ==> IsPart(parts[i])) && Join(parts, ",") == challenge {
      PartsAreSplit(parts);
    }
  }

  // ---------- the scheme ----------

  predicate SpellsBearer(s: string) {
    |s| == 6 && forall i :: 0 <= i < 6 ==> s[i] == "bearer"[i] || s[i] == "BEARER"[i]
  }

  /** The scheme, alone or before white space. */
  predicate IsScheme(part: string) {
    |part| >= 6 && SpellsBearer(part[..6]) && (|part| == 6 || IsSpace(part[6]))
  }

  lemma {:induction false} LowerAt(s: string, i: nat)
    requires i < |s|
    ensures Lower(s)[i] == LowerChar(s[i])
  {
    if i > 0 { LowerAt(s[1..], i - 1); }
  }

  lemma {:induction false} SchemeMeans(part: string)
    ensures IsBearer(part) <==> IsScheme(part)
  {
    hide Lower, IsSpace;
    if |part| >= 6 {
      var s := part[..6];
      forall i | 0 <= i < 6
        ensures Lower(s)[i] == "bearer"[i] <==> s[i] == "bearer"[i] || s[i] == "BEARER"[i]
      {
        LowerAt(s, i);
      }
      if SpellsBearer(s) { assert Lower(s) == "bearer"; }
    }
  }

  /** The parameters start after the scheme, in the first part that has it. */
  ghost predicate AreItems(parts: seq<string>, b: nat, items: seq<string>) {
    && b < |parts| && IsScheme(parts[b]) && (forall i :: 0 <= i < b ==> !IsScheme(parts[i]))
    && items == [StripLeft(parts[b][6..])] + parts[b + 1..]
  }

  lemma {:induction false} ItemsAreFound(parts: seq<string>)
    ensures BearerItems(parts).None? <==> forall i :: 0 <= i < |parts| ==> !IsScheme(parts[i])
    ensures forall items :: BearerItems(parts) == Some(items) <==> exists b: nat :: AreItems(parts, b, items)
  {
    hide StripLeft, IsScheme, IsBearer;
    if parts != [] {
      SchemeMeans(parts[0]);
      if IsScheme(parts[0]) {
        assert AreItems(parts, 0, [StripLeft(parts[0][6..])] + parts[1..]) by { SchemeIsLong(parts[0]); }
        forall b: nat, items | AreItems(parts, b, items) ensures b == 0 { }
      } else {
        var rest := parts[1..];
        ItemsAreFound(rest);
        assert parts == [parts[0]] + rest;
        forall b: nat, items | AreItems(rest, b, items) ensures AreItems(parts, b + 1, items) {
          assert parts[b + 2..] == rest[b + 1..] && parts[b + 1] == rest[b];
          forall i | 0 <= i < b + 1 ensures !IsScheme(parts[i]) { if i > 0 { assert parts[i] == rest[i - 1]; } }
        }
        forall b: nat, items | AreItems(parts, b, items) ensures b > 0 && AreItems(rest, b - 1, items) {
          assert parts[b + 1..] == rest[b..] && parts[b] == rest[b - 1];
          forall i | 0 <= i < b - 1 ensures !IsScheme(rest[i]) { assert rest[i] == parts[i + 1]; }
        }
      }
    }
  }

  lemma {:induction false} SchemeIsLong(part: string)
    requires IsScheme(part)
    ensures |part| >= 6
  {
  }

  // ---------- parameters ----------

  predicate IsAsciiLetter(c: char) { 'a' <= c <= 'z' || 'A' <= c <= 'Z' }

  /** A letter, and then letters, digits, underscores and hyphens. */
  predicate IsName(s: string) {
    && s != [] && IsAsciiLetter(s[0])
    && forall i :: 0 <= i < |s| ==> IsAsciiLetter(s[i]) || '0' <= s[i] <= '9' || s[i] == '_' || s[i] == '-'
  }

  lemma {:induction false} NameMeans(s: string)
    ensures IsKey(s) <==> IsName(s)
  {
  }

  /** Letters in lower case, everything else as it is. */
  predicate IsLowered(s: string, r: string) {
    |r| == |s| && forall i :: 0 <= i < |s| ==>
      r[i] == if 'A' <= s[i] && s[i] <= 'Z' then (s[i] as int - 'A' as int + 'a' as int) as char else s[i]
  }

  /** A name, an equals sign, and a value between quotes, with white space around both. */
  ghost predicate IsParameter(item: string, key: string, value: string) {
    exists name, text :: IsWrittenAs(item, key, value, name, text)
  }

  ghost predicate IsWrittenAs(item: string, key: string, value: string, name: string, text: string) {
    && item == name + "=" + text && '=' !in name
    && IsName(Strip(name)) && IsLowered(Strip(name), key)
    && Strip(text) == "\"" + value + "\""
  }

  lemma {:induction false} FirstEquals(name: string, text: string)
    requires '=' !in name
    ensures var item := name + "=" + text;
            '=' in item && S.Before(item, '=') == name && S.AfterFirst(item, '=') == text
  {
    var item := name + "=" + text;
    assert item[..|name|] == name && item[|name|] == '=' && item[|name| + 1..] == text;
    S.FindUnchanged(item, |name|, '=');
  }

  lemma {:induction false} LoweredMeans(s: string, r: string)
    ensures Lower(s) == r <==> IsLowered(s, r)
  {
    hide Lower;
    forall i | 0 <= i < |s| ensures Lower(s)[i] == LowerChar(s[i]) { LowerAt(s, i); }
  }

  lemma {:induction false} ParameterReads(item: string, key: string, value: string, name: string, text: string)
    requires IsWrittenAs(item, key, value, name, text)
    ensures ParseItem(item) == Some((key, value))
  {
    hide Strip, Lower, IsKey, IsName, IsLowered, S.Find, S.Before, S.AfterFirst;
    FirstEquals(name, text);
    NameMeans(Strip(name));
    LoweredMeans(Strip(name), key);
    var v := "\"" + value + "\"";
    assert v[0] == '"' && v[|v| - 1] == '"' && v[1..|v| - 1] == value;
  }

  lemma {:induction false} ParameterIsWritten(item: string)
    requires ParseItem(item).Some?
    ensures var (key, value) := ParseItem(item).value;
            IsWrittenAs(item, key, value, S.Before(item, '='), S.AfterFirst(item, '='))
  {
    hide Strip, Lower, IsKey, IsName, IsLowered;
    var name, text := S.Before(item, '='), S.AfterFirst(item, '=');
    var n := S.Find(item, '=');
    assert item == item[..n] + "=" + item[n + 1..];
    NameMeans(Strip(name));
    LoweredMeans(Strip(name), Lower(Strip(name)));
    var v := Strip(text);
    assert v == "\"" + v[1..|v| - 1] + "\"";
  }

  /** One parameter, exactly. */
  lemma {:induction false} ItemIsExact(item: string, key: string, value: string)
    ensures ParseItem(item) == Some((key, value)) <==> IsParameter(item, key, value)
  {
    hide ParseItem, IsWrittenAs;
    if IsParameter(item, key, value) {
      var name, text :| IsWrittenAs(item, key, value, name, text);
      ParameterReads(item, key, value, name, text);
    }
    if ParseItem(item) == Some((key, value)) { ParameterIsWritten(item); }
  }

  ghost predicate IsSomeParameter(item: string) {
    exists k, v :: IsParameter(item, k, v)
  }

  predicate Holds(values: map<string, string>, key: string, value: string) {
    key in values && values[key] == value
  }

  /** All parameters, exactly: every item is one, no name occurs twice, and these are the values. */
  ghost predicate AreParameters(items: seq<string>, values: map<string, string>) {
    && (forall i :: 0 <= i < |items| ==> IsSomeParameter(items[i]))
    && (forall i, j, k, v, w :: 0 <= i < j < |items| && IsParameter(items[i], k, v) ==> !IsParameter(items[j], k, w))
    && (forall k, v :: Holds(values, k, v) <==> exists i :: 0 <= i < |items| && IsParameter(items[i], k, v))
  }

  /** What reading the items gives, in terms of the single ones. */
  ghost predicate Collects(items: seq<string>, values: map<string, string>) {
    && (forall i :: 0 <= i < |items| ==> ParseItem(items[i]).Some?)
    && (forall i, j :: 0 <= i < j < |items| ==> ParseItem(items[i]).value.0 != ParseItem(items[j]).value.0)
    && (forall k, v :: Holds(values, k, v) <==> exists i :: 0 <= i < |items| && ParseItem(items[i]) == Some((k, v)))
  }

  lemma {:induction false} CollectsMeans(items: seq<string>, values: map<string, string>)
    ensures Collects(items, values) <==> AreParameters(items, values)
  {
    hide ParseItem, IsParameter, Holds;
    forall i, k, v | 0 <= i < |items| ensures ParseItem(items[i]) == Some((k, v)) <==> IsParameter(items[i], k, v) {
      ItemIsExact(items[i], k, v);
    }
    forall i | 0 <= i < |items| && ParseItem(items[i]).Some?
      ensures IsParameter(items[i], ParseItem(items[i]).value.0, ParseItem(items[i]).value.1)
    {
      ItemIsExact(items[i], ParseItem(items[i]).value.0, ParseItem(items[i]).value.1);
    }
    if AreParameters(items, values) {
      forall i | 0 <= i < |items| ensures ParseItem(items[i]).Some? {
        var k, v :| IsParameter(items[i], k, v);
        assert ParseItem(items[i]) == Some((k, v));
      }
      forall i, j | 0 <= i < j < |items| ensures ParseItem(items[i]).value.0 != ParseItem(items[j]).value.0 {
        var p, q := ParseItem(items[i]).value, ParseItem(items[j]).value;
        assert IsParameter(items[i], p.0, p.1) && IsParameter(items[j], q.0, q.1);
      }
      assert Collects(items, values);
    }
    if Collects(items, values) { ParametersCollected(items, values); }
  }

  lemma {:induction false} ParametersCollected(items: seq<string>, values: map<string, string>)
    requires Collects(items, values)
    ensures AreParameters(items, values)
  {
    hide ParseItem, IsParameter, Holds;
    forall i, k, v | 0 <= i < |items| ensures ParseItem(items[i]) == Some((k, v)) <==> IsParameter(items[i], k, v) {
      ItemIsExact(items[i], k, v);
    }
    forall i | 0 <= i < |items| ensures IsSomeParameter(items[i]) {
      var (k, v) := ParseItem(items[i]).value;
      assert IsParameter(items[i], k, v);
    }
    forall i, j, k, v, w | 0 <= i < j < |items| && IsParameter(items[i], k, v) ensures !IsParameter(items[j], k, w) {
      assert ParseItem(items[i]) == Some((k, v));
      var other := items[j];
      assert IsParameter(other, k, w) ==> ParseItem(other) == Some((k, w));
    }
    forall k, v ensures Holds(values, k, v) <==> exists i :: 0 <= i < |items| && IsParameter(items[i], k, v) {
      if i :| 0 <= i < |items| && IsParameter(items[i], k, v) { assert ParseItem(items[i]) == Some((k, v)); }
      if i :| 0 <= i < |items| && ParseItem(items[i]) == Some((k, v)) { assert IsParameter(items[i], k, v); }
    }
  }

  lemma {:induction false} CollectsStep(items: seq<string>, last: string, before: map<string, string>,
                                        values: map<string, string>)
    requires Collects(items, before) && ParseItem(last).Some? && ParseItem(last).value.0 !in before
    requires values == before[ParseItem(last).value.0 := ParseItem(last).value.1]
    ensures Collects(items + [last], values)
  {
    hide ParseItem;
    var all := items + [last];
    var (key, value) := ParseItem(last).value;
    assert all[|items|] == last && forall i :: 0 <= i < |items| ==> all[i] == items[i];
    forall i | 0 <= i < |items| ensures ParseItem(items[i]).value.0 != key {
      assert Holds(before, ParseItem(items[i]).value.0, ParseItem(items[i]).value.1);
    }
    forall k, v ensures Holds(values, k, v) <==> exists i :: 0 <= i < |all| && ParseItem(all[i]) == Some((k, v)) {
      if k == key {
        assert Holds(values, k, v) <==> v == value;
      } else {
        assert Holds(values, k, v) <==> Holds(before, k, v);
      }
    }
  }

  /** Reading the items, exactly. */
  lemma {:induction false} ItemsAreExact(items: seq<string>, values: map<string, string>)
    ensures ParseItems(items) == Some(values) <==> AreParameters(items, values)
  {
    hide ParseItem, AreParameters, Collects;
    CollectsMeans(items, values);
    ItemsCollect(items);
    if Collects(items, values) {
      EveryItemReads(items, values);
      OneCollection(items, values, ParseItems(items).value);
    }
  }

  lemma {:induction false} ItemsCollect(items: seq<string>)
    ensures ParseItems(items).Some? ==> Collects(items, ParseItems(items).value)
    decreases |items|
  {
    hide ParseItem;
    if items != [] && ParseItems(items).Some? {
      var init, last := items[..|items| - 1], items[|items| - 1];
      ItemsCollect(init);
      assert items == init + [last];
      CollectsStep(init, last, ParseItems(init).value, ParseItems(items).value);
    }
  }

  lemma {:induction false} EveryItemReads(items: seq<string>, values: map<string, string>)
    requires Collects(items, values)
    ensures ParseItems(items).Some?
    decreases |items|
  {
    hide ParseItem;
    if items != [] {
      var n := |items| - 1;
      var init, last := items[..n], items[n];
      assert forall i :: 0 <= i < n ==> init[i] == items[i];
      var shorter := map k | k in values && k != ParseItem(last).value.0 :: values[k];
      CollectsInit(items, values, shorter);
      EveryItemReads(init, shorter);
      ItemsCollect(init);
      OneCollection(init, shorter, ParseItems(init).value);
      assert ParseItem(items[n]).Some?;
    }
  }

  lemma {:induction false} CollectsInit(items: seq<string>, values: map<string, string>, shorter: map<string, string>)
    requires items != [] && Collects(items, values)
    requires shorter == map k | k in values && k != ParseItem(items[|items| - 1]).value.0 :: values[k]
    ensures Collects(items[..|items| - 1], shorter)
  {
    hide ParseItem;
    var n := |items| - 1;
    var init := items[..n];
    assert forall i :: 0 <= i < n ==> init[i] == items[i];
    forall k, v ensures Holds(shorter, k, v) <==> exists i :: 0 <= i < n && ParseItem(init[i]) == Some((k, v)) {
      if Holds(shorter, k, v) {
        assert Holds(values, k, v);
        var i :| 0 <= i < |items| && ParseItem(items[i]) == Some((k, v));
        assert i < n && init[i] == items[i];
      }
      if i :| 0 <= i < n && ParseItem(init[i]) == Some((k, v)) {
        assert ParseItem(items[i]) == Some((k, v));
        assert Holds(values, k, v);
      }
    }
  }

  lemma {:induction false} OneCollection(items: seq<string>, a: map<string, string>, b: map<string, string>)
    requires Collects(items, a) && Collects(items, b)
    ensures a == b
  {
    hide ParseItem;
    forall k, v ensures Holds(a, k, v) <==> Holds(b, k, v) { }
    forall k | k in a ensures k in b && b[k] == a[k] { assert Holds(a, k, a[k]); }
    forall k | k in b ensures k in a { assert Holds(b, k, b[k]); }
  }

  // ---------- challenges ----------

  /** Closed parts between commas. */
  ghost predicate AreParts(parts: seq<string>, challenge: string) {
    parts != [] && (forall i :: 0 <= i < |parts| ==> IsPart(parts[i])) && Join(parts, ",") == challenge
  }

  /** A challenge with these values: closed parts between commas, trimmed, of which the first with the
      scheme starts the parameters. */
  ghost predicate IsChallenge(challenge: string, values: map<string, string>) {
    exists parts, b: nat, items ::
      AreParts(parts, challenge) && AreItems(StripAll(parts), b, items) && AreParameters(items, values)
  }

  /** The parser accepts exactly the challenges, with exactly their values. */
  lemma {:induction false} ParseIsExact(challenge: string, values: map<string, string>)
    ensures Parse(challenge) == Some(values) <==> IsChallenge(challenge, values)
  {
    hide Pieces, After, AreParts, StripAll, BearerItems, AreItems, ParseItems, AreParameters;
    if Parse(challenge) == Some(values) {
      var parts := Pieces(challenge, START);
      SplitGivesParts(challenge, parts);
      ItemsAreFound(StripAll(parts));
      var items := BearerItems(StripAll(parts)).value;
      var b: nat :| AreItems(StripAll(parts), b, items);
      ItemsAreExact(items, values);
    }
    if IsChallenge(challenge, values) {
      var parts, b: nat, items :|
        AreParts(parts, challenge) && AreItems(StripAll(parts), b, items) && AreParameters(items, values);
      SplitGivesParts(challenge, parts);
      ItemsAreFound(StripAll(parts));
      assert BearerItems(StripAll(parts)) == Some(items);
      ItemsAreExact(items, values);
    }
  }

  lemma {:induction false} SplitGivesParts(challenge: string, parts: seq<string>)
    ensures After(challenge, START) == START && Pieces(challenge, START) == parts <==> AreParts(parts, challenge)
  {
    hide Pieces, After, IsPart;
    SplitIsExact(challenge, parts);
  }
}
