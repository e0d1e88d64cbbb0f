/** Registry authentication challenges (scripts/assemble_release_index.py): splitting at commas
    outside quotes and reading the Bearer parameters, as in sections 5.6.4 and 11.6.1 of RFC 9110
    and section 3 of RFC 6750. */
module AuthChallenge {
  import opened Text
  import S = Semver

  // ---------- splitting ----------

  datatype State = State(quoted: bool, escaped: bool)

  const START := State(false, false)

  function Next(st: State, c: char): State {
    if st.escaped then State(st.quoted, false)
    else if c == '\\' && st.quoted then State(true, true)
    else if c == '"' then State(!st.quoted, false)
    else st
  }

  function After(s: string, st: State): State {
    if s == [] then st else After(s[1..], Next(st, s[0]))
  }

  predicate IsCut(st: State, c: char) {
    !st.escaped && !st.quoted && c == ','
  }

  /** The text between the commas that cut. */
  function Pieces(s: string, st: State): (r: seq<string>)
    ensures |r| >= 1
  {
    if s == [] then [[]]
    else
      var rest := Pieces(s[1..], Next(st, s[0]));
      if IsCut(st, s[0]) then [[]] + rest else Onto([s[0]], rest)
  }

  /** Text put before the first piece. */
  function Onto(x: string, pieces: seq<string>): (r: seq<string>)
    requires |pieces| >= 1
    ensures |r| == |pieces|
  {
    [x + pieces[0]] + pieces[1..]
  }

  lemma OntoTwice(x: string, y: string, pieces: seq<string>)
    requires |pieces| >= 1
    ensures Onto(x, Onto(y, pieces)) == Onto(x + y, pieces)
  {
    assert x + (y + pieces[0]) == (x + y) + pieces[0];
  }

  /** The pieces, joined by commas again, are the text: nothing is lost or added. */
  lemma {:induction false} PiecesRejoin(s: string, st: State)
    ensures Join(Pieces(s, st), ",") == s
  {
    if s != [] {
      var rest := Pieces(s[1..], Next(st, s[0]));
      PiecesRejoin(s[1..], Next(st, s[0]));
      assert [s[0]] + s[1..] == s;
      if IsCut(st, s[0]) {
        assert ([[]] + rest)[1..] == rest;
      } else {
        JoinOnto(s[0], rest);
      }
    }
  }

  lemma {:induction false} JoinOnto(c: char, pieces: seq<string>)
    requires |pieces| >= 1
    ensures Join(Onto([c], pieces), ",") == [c] + Join(pieces, ",")
  {
    var r := Onto([c], pieces);
    assert r[1..] == pieces[1..] && r[0] == [c] + pieces[0];
    if |pieces| > 1 { Regroup([c], pieces[0], Join(pieces[1..], ",")); }
  }

  lemma Regroup(x: string, y: string, z: string)
    ensures (x + y) + "," + z == x + (y + "," + z)
  {
  }

  /** Text in which no comma cuts. */
  predicate IsUncut(s: string, st: State) {
    s == [] || (!IsCut(st, s[0]) && IsUncut(s[1..], Next(st, s[0])))
  }

  /** Uncut text stays in one piece with what follows. */
  lemma {:induction false} UncutStays(u: string, rest: string, st: State)
    requires IsUncut(u, st)
    ensures Pieces(u + rest, st) == Onto(u, Pieces(rest, After(u, st)))
  {
    if u == [] {
      assert u + rest == rest;
      OntoNothing(Pieces(rest, st));
    } else {
      assert (u + rest)[1..] == u[1..] + rest;
      UncutStays(u[1..], rest, Next(st, u[0]));
      OntoTwice([u[0]], u[1..], Pieces(rest, After(u, st)));
      assert [u[0]] + u[1..] == u;
    }
  }

  /** Between quotes nothing cuts: a quoted text free of quotes and backslashes is uncut, commas
      and all, and leaves the quotes closed. */
  lemma {:induction false} QuotedIsUncut(v: string)
    requires '"' !in v && '\\' !in v
    ensures IsUncut(v + "\"", State(true, false)) && After(v + "\"", State(true, false)) == START
  {
    if v == [] {
      assert (v + "\"")[1..] == [] && (v + "\"")[0] == '"';
    } else {
      assert v[0] in v;
      assert (v + "\"")[1..] == v[1..] + "\"" && (v + "\"")[0] == v[0];
      QuotedIsUncut(v[1..]);
    }
  }

  lemma {:induction false} PlainIsUncut(k: string)
    requires '"' !in k && ',' !in k
    ensures IsUncut(k, START) && After(k, START) == START
  {
    if k != [] {
      assert k[0] in k;
      PlainIsUncut(k[1..]);
    }
  }

  lemma {:induction false} UncutConcat(a: string, b: string, st: State)
    requires IsUncut(a, st) && IsUncut(b, After(a, st))
    ensures IsUncut(a + b, st) && After(a + b, st) == After(b, After(a, st))
  {
    if a == [] {
      assert a + b == b;
    } else {
      assert (a + b)[1..] == a[1..] + b;
      UncutConcat(a[1..], b, Next(st, a[0]));
    }
  }

  function StripAll(pieces: seq<string>): (r: seq<string>)
    ensures |r| == |pieces| && forall i :: 0 <= i < |r| ==> r[i] == Strip(pieces[i])
  {
    if pieces == [] then [] else [Strip(pieces[0])] + StripAll(pieces[1..])
  }

  /** The splitting loop of `_registry_token_url`; nothing when a quote is left open. */
  method SplitChallenge(challenge: string) returns (r: Option<seq<string>>)
    ensures r == if After(challenge, START) == START then Some(StripAll(Pieces(challenge, START))) else None
  {
    hide StripAll, Pieces, Strip, Onto;
    var parts: seq<string> := [];
    var start: nat := 0;
    var st := START;
    assert challenge[0..] == challenge && challenge[0..0] == [];
    OntoNothing(Pieces(challenge, START));
    for position := 0 to |challenge|
      invariant start <= position
      invariant After(challenge[position..], st) == After(challenge, START)
      invariant parts + StripAll(Onto(challenge[start..position],
                                      Pieces(challenge[position..], st))) == StripAll(Pieces(challenge, START))
    {
      var c := challenge[position];
      assert challenge[position..][1..] == challenge[position + 1..] && challenge[position..][0] == c;
      assert challenge[start..position] + [c] == challenge[start..position + 1];
      SplitStep(challenge[start..position], challenge[position..], st);
      if IsCut(st, c) {
        assert (parts + [Strip(challenge[start..position])]) + StripAll(Pieces(challenge[position + 1..], st))
            == parts + ([Strip(challenge[start..position])] + StripAll(Pieces(challenge[position + 1..], st)));
        parts := parts + [Strip(challenge[start..position])];
        start := position + 1;
        OntoNothing(Pieces(challenge[position + 1..], st));
        assert challenge[start..position + 1] == [];
      }
      st := Next(st, c);
    }
    assert challenge[|challenge|..] == [];
    assert challenge[start..|challenge|] == challenge[start..];
    LastPiece(challenge[start..], st);
    parts := parts + [Strip(challenge[start..])];
    if st != START { return None; }
    return Some(parts);
  }

  lemma OntoNothing(pieces: seq<string>)
    requires |pieces| >= 1
    ensures Onto([], pieces) == pieces
  {
    assert [] + pieces[0] == pieces[0];
  }

  lemma OntoCut(x: string, rest: seq<string>)
    ensures Onto(x, [[]] + rest) == [x] + rest
    ensures Onto(x, [[]]) == [x]
  {
    assert x + [] == x;
  }

  lemma {:induction false} SplitStep(x: string, s: string, st: State)
    requires s != []
    ensures IsCut(st, s[0]) ==>
      Next(st, s[0]) == st && StripAll(Onto(x, Pieces(s, st))) == [Strip(x)] + StripAll(Pieces(s[1..], st))
    ensures !IsCut(st, s[0]) ==> Onto(x, Pieces(s, st)) == Onto(x + [s[0]], Pieces(s[1..], Next(st, s[0])))
  {
    hide Strip;
    var rest := Pieces(s[1..], Next(st, s[0]));
    if IsCut(st, s[0]) {
      OntoCut(x, rest);
      assert ([x] + rest)[1..] == rest;
    } else {
      OntoTwice(x, [s[0]], rest);
    }
  }

  lemma {:induction false} LastPiece(x: string, st: State)
    ensures StripAll(Onto(x, Pieces([], st))) == [Strip(x)]
  {
    hide Strip;
    OntoCut(x, []);
    assert [x][1..] == [];
  }

  // ---------- parameters ----------

  predicate IsLetter(c: char) {
    'a' <= c <= 'z' || 'A' <= c <= 'Z'
  }

  predicate IsKey(s: string) {
    && s != [] && IsLetter(s[0])
    && forall i :: 0 <= i < |s| ==> IsLetter(s[i]) || IsDigit(s[i]) || s[i] == '_' || s[i] == '-'
  }

  function LowerChar(c: char): char {
    if 'A' <= c <= 'Z' then (c as int + 32) as char else c
  }

  function Lower(s: string): (r: string)
    ensures |r| == |s|
  {
    if s == [] then [] else [LowerChar(s[0])] + Lower(s[1..])
  }

  predicate IsBearer(part: string) {
    |part| >= 6 && Lower(part[..6]) == "bearer" && (|part| == 6 || IsSpace(part[6]))
  }

  /** One parameter: a key and a value between quotes. */
  function ParseItem(item: string): Option<(string, string)> {
    if '=' !in item then None
    else
      var key, value := Strip(S.Before(item, '=')), Strip(S.AfterFirst(item, '='));
      if !IsKey(key) || |value| < 2 || value[0] != '"' || value[|value| - 1] != '"' then None
      else Some((Lower(key), value[1..|value| - 1]))
  }

  /** All parameters, none repeated. */
  function ParseItems(items: seq<string>): Option<map<string, string>> {
    if items == [] then Some(map[])
    else
      var before, last := ParseItems(items[..|items| - 1]), ParseItem(items[|items| - 1]);
      if before.None? || last.None? || last.value.0 in before.value then None
      else Some(before.value[last.value.0 := last.value.1])
  }

  function BearerItems(parts: seq<string>): Option<seq<string>> {
    if parts == [] then None
    else if IsBearer(parts[0]) then Some([StripLeft(parts[0][6..])] + parts[1..])
    else BearerItems(parts[1..])
  }

  function Parse(challenge: string): Option<map<string, string>> {
    if After(challenge, START) != START then None
    else
      var items := BearerItems(StripAll(Pieces(challenge, START)));
      if items.None? then None else ParseItems(items.value)
  }

  method FindBearer(parts: seq<string>) returns (r: Option<seq<string>>)
    ensures r == BearerItems(parts)
  {
    hide Lower, IsSpace;
    for i := 0 to |parts|
      invariant BearerItems(parts[i..]) == BearerItems(parts)
    {
      assert parts[i..][1..] == parts[i + 1..];
      if IsBearer(parts[i]) { return Some([StripLeft(parts[i][6..])] + parts[i + 1..]); }
    }
    return None;
  }

  method ParameterLoop(items: seq<string>) returns (r: Option<map<string, string>>)
    ensures r == ParseItems(items)
  {
    hide ParseItem;
    var values: map<string, string> := map[];
    for i := 0 to |items|
      invariant ParseItems(items[..i]) == Some(values)
    {
      assert items[..i + 1][..i] == items[..i];
      var item := ParseItem(items[i]);
      if item.None? || item.value.0 in values { ParseStops(items, i + 1); return None; }
      values := values[item.value.0 := item.value.1];
    }
    assert items[..|items|] == items;
    return Some(values);
  }

  lemma {:induction false} ParseStops(items: seq<string>, k: nat)
    requires k <= |items| && ParseItems(items[..k]).None?
    ensures ParseItems(items).None?
  {
    if k < |items| {
      var init := items[..|items| - 1];
      assert init[..k] == items[..k];
      ParseStops(init, k);
    } else {
      assert items[..k] == items;
    }
  }

  /** The parsing part of `_registry_token_url`. */
  method ParseChallenge(challenge: string) returns (r: Option<map<string, string>>)
    ensures r == Parse(challenge)
  {
    hide After, Pieces, StripAll, BearerItems, ParseItems;
    var parts := SplitChallenge(challenge);
    if parts.None? { return None; }
    var items := FindBearer(parts.value);
    if items.None? { return None; }
    r := ParameterLoop(items.value);
  }

  // ---------- the round trip ----------

  datatype Parameter = Parameter(key: string, value: string)

  predicate IsPlain(p: Parameter) {
    IsKey(p.key) && '"' !in p.value && '\\' !in p.value
  }

  function Item(p: Parameter): string {
    p.key + "=\"" + (p.value + "\"")
  }

  function Items(ps: seq<Parameter>): (r: seq<string>)
    ensures |r| == |ps| && forall i :: 0 <= i < |r| ==> r[i] == Item(ps[i])
  {
    if ps == [] then [] else [Item(ps[0])] + Items(ps[1..])
  }

  /** A challenge with these parameters. */
  function Challenge(ps: seq<Parameter>): string {
    "Bearer " + Join(Items(ps), ", ")
  }

  lemma KeyChars(k: string)
    requires IsKey(k)
    ensures '"' !in k && ',' !in k && '=' !in k && !IsSpace(k[0]) && !IsSpace(k[|k| - 1]) && Trimmed(k)
  {
  }

  lemma ItemIsUncut(p: Parameter)
    requires IsPlain(p)
    ensures IsUncut(Item(p), START) && After(Item(p), START) == START
  {
    hide IsUncut, After;
    KeyChars(p.key);
    var head, tail := p.key + "=", "\"" + (p.value + "\"");
    PlainIsUncut(head);
    QuotedIsUncut(p.value);
    OpenQuote(p.value + "\"");
    UncutConcat(head, tail, START);
    assert Item(p) == head + tail;
  }

  lemma {:induction false} OpenQuote(rest: string)
    requires IsUncut(rest, State(true, false)) && After(rest, State(true, false)) == START
    ensures IsUncut("\"" + rest, START) && After("\"" + rest, START) == START
  {
  }

  lemma ItemIsTrimmed(p: Parameter)
    requires IsPlain(p)
    ensures Trimmed(Item(p)) && Strip(" " + Item(p)) == Item(p) && StripLeft(" " + Item(p)) == Item(p)
    ensures Trimmed("Bearer " + Item(p))
  {
    KeyChars(p.key);
    var item := Item(p);
    assert item[0] == p.key[0] && item[|item| - 1] == '"';
    assert (" " + item)[1..] == item && (" " + item)[0] == ' ';
    assert StripLeft(item) == item && StripRight(item) == item;
  }

  /** The raw pieces after some uncut text: that text with the first item, then each further item
      behind a space. */
  function RawPieces(head: string, ps: seq<Parameter>): (r: seq<string>)
    requires ps != []
    ensures |r| == |ps|
    decreases |ps|
  {
    [head + Item(ps[0])] + if |ps| == 1 then [] else RawPieces(" ", ps[1..])
  }

  lemma {:induction false} JoinedItems(ps: seq<Parameter>)
    requires ps != []
    ensures |ps| == 1 ==> Join(Items(ps), ", ") == Item(ps[0])
    ensures |ps| > 1 ==>
      Join(Items(ps), ", ") == Item(ps[0]) + ([','] + (" " + Join(Items(ps[1..]), ", ")))
  {
    hide Item;
    if |ps| > 1 {
      assert Items(ps)[1..] == Items(ps[1..]);
      CommaSpace(Item(ps[0]), Join(Items(ps[1..]), ", "));
    }
  }

  lemma CommaSpace(x: string, y: string)
    ensures x + ", " + y == x + ([','] + (" " + y))
  {
  }

  lemma {:induction false} PiecesOfItems(head: string, ps: seq<Parameter>)
    requires ps != [] && (forall i :: 0 <= i < |ps| ==> IsPlain(ps[i]))
    requires IsUncut(head, START) && After(head, START) == START
    ensures var s := head + Join(Items(ps), ", "); Pieces(s, START) == RawPieces(head, ps) && After(s, START) == START
    decreases |ps|
  {
    hide IsUncut, IsPlain, After, Item, Items, Join, Onto, Pieces;
    var item := Item(ps[0]);
    ItemIsUncut(ps[0]);
    UncutConcat(head, item, START);
    JoinedItems(ps);
    if |ps| == 1 {
      UncutAlone(head + item);
    } else {
      PlainIsUncut(" ");
      PiecesOfItems(" ", ps[1..]);
      var tail := " " + Join(Items(ps[1..]), ", ");
      UncutThenComma(head + item, tail);
      assert head + (item + ([','] + tail)) == (head + item) + ([','] + tail);
    }
  }

  lemma {:induction false} UncutAlone(first: string)
    requires IsUncut(first, START) && After(first, START) == START
    ensures Pieces(first, START) == [first]
  {
    hide IsUncut, After;
    assert first + [] == first;
    UncutStays(first, [], START);
    OntoCut(first, []);
  }

  lemma {:induction false} UncutThenComma(first: string, tail: string)
    requires IsUncut(first, START) && After(first, START) == START
    ensures Pieces(first + ([','] + tail), START) == [first] + Pieces(tail, START)
    ensures After(first + ([','] + tail), START) == After(tail, START)
  {
    hide IsUncut, After, Onto, Pieces;
    UncutStays(first, [','] + tail, START);
    CommaCuts(tail);
    OntoCut(first, Pieces(tail, START));
    AfterConcat(first, [','] + tail, START);
  }

  lemma {:induction false} CommaCuts(tail: string)
    ensures Pieces([','] + tail, START) == [[]] + Pieces(tail, START)
    ensures After([','] + tail, START) == After(tail, START)
  {
  }

  lemma {:induction false} AfterConcat(a: string, b: string, st: State)
    ensures After(a + b, st) == After(b, After(a, st))
  {
    if a == [] {
      assert a + b == b;
    } else {
      assert (a + b)[1..] == a[1..] + b;
      AfterConcat(a[1..], b, Next(st, a[0]));
    }
  }

  lemma {:induction false} StrippedPieces(ps: seq<Parameter>)
    requires ps != [] && forall i :: 0 <= i < |ps| ==> IsPlain(ps[i])
    ensures StripAll(RawPieces(" ", ps)) == Items(ps)
  {
    hide IsPlain, Item, Strip, StripLeft;
    ItemIsTrimmed(ps[0]);
    if |ps| > 1 {
      StrippedPieces(ps[1..]);
      assert RawPieces(" ", ps)[1..] == RawPieces(" ", ps[1..]);
    } else {
      assert RawPieces(" ", ps)[1..] == [];
    }
  }

  lemma FirstPart(p: Parameter)
    requires IsPlain(p)
    ensures var part := "Bearer " + Item(p); Strip(part) == part && IsBearer(part) && StripLeft(part[6..]) == Item(p)
  {
    var part := "Bearer " + Item(p);
    ItemIsTrimmed(p);
    assert part[6..] == " " + Item(p) && part[6] == ' ';
    assert part[..6] == "Bearer";
    assert Lower("Bearer") == "bearer" by { LowerBearer(); }
  }

  lemma LowerBearer()
    ensures Lower("Bearer") == "bearer"
  {
  }

  lemma ParseOfItem(p: Parameter)
    requires IsPlain(p)
    ensures ParseItem(Item(p)) == Some((Lower(p.key), p.value))
  {
    hide Lower, Strip, IsKey, Trimmed;
    KeyChars(p.key);
    var item, quoted := Item(p), "\"" + (p.value + "\"");
    assert item == p.key + ['='] + quoted;
    S.FindUnchanged(item, |p.key|, '=') by { assert item[..|p.key|] == p.key; }
    assert item[..|p.key|] == p.key && item[|p.key| + 1..] == quoted;
    assert Trimmed(quoted) by { QuotedIsTrimmed(quoted); }
    Unquoted(p.value);
  }

  lemma Unquoted(v: string)
    ensures var quoted := "\"" + (v + "\""); quoted[1..|quoted| - 1] == v
  {
  }

  lemma QuotedIsTrimmed(quoted: string)
    requires |quoted| >= 2 && quoted[0] == '"' && quoted[|quoted| - 1] == '"'
    ensures Trimmed(quoted)
  {
  }

  ghost predicate AreDistinct(ps: seq<Parameter>) {
    forall i, j :: 0 <= i < j < |ps| ==> Lower(ps[i].key) != Lower(ps[j].key)
  }

  /** The map holds exactly these parameters. */
  ghost predicate IsMapOf(m: map<string, string>, ps: seq<Parameter>) {
    && m.Keys == (set p | p in ps :: Lower(p.key))
    && forall i :: 0 <= i < |ps| ==> Lower(ps[i].key) in m && m[Lower(ps[i].key)] == ps[i].value
  }

  lemma OneMoreParameter(m: map<string, string>, ps: seq<Parameter>, p: Parameter)
    requires IsMapOf(m, ps) && AreDistinct(ps + [p])
    ensures Lower(p.key) !in m && IsMapOf(m[Lower(p.key) := p.value], ps + [p])
  {
    hide Lower;
    var more := ps + [p];
    assert more[|ps|] == p && forall i :: 0 <= i < |ps| ==> more[i] == ps[i];
    assert forall i :: 0 <= i < |ps| ==> Lower(more[i].key) != Lower(more[|ps|].key);
    assert (set q | q in more :: Lower(q.key)) == (set q | q in ps :: Lower(q.key)) + {Lower(p.key)};
  }

  lemma {:induction false} ParseNext(items: seq<string>, item: string)
    requires ParseItems(items).Some? && ParseItem(item).Some? && ParseItem(item).value.0 !in ParseItems(items).value
    ensures var before, last := ParseItems(items).value, ParseItem(item).value;
            ParseItems(items + [item]) == Some(before[last.0 := last.1])
  {
  }

  lemma {:induction false} ParseOfItems(ps: seq<Parameter>)
    requires (forall i :: 0 <= i < |ps| ==> IsPlain(ps[i])) && AreDistinct(ps)
    ensures ParseItems(Items(ps)).Some? && IsMapOf(ParseItems(Items(ps)).value, ps)
  {
    hide IsPlain, Item, Items, Lower, ParseItem, IsMapOf;
    if ps == [] {
      NoParameters();
      assert Items([]) == [];
    } else {
      hide ParseItems, AreDistinct;
      var init, last := ps[..|ps| - 1], ps[|ps| - 1];
      ItemsOfMore(init, last);
      InitIsDistinct(ps);
      ParseOfItems(init);
      ParseOfItem(last);
      assert ps == init + [last];
      OneMoreParameter(ParseItems(Items(init)).value, init, last);
      ParseNext(Items(init), Item(last));
    }
  }

  lemma {:induction false} ItemsOfMore(ps: seq<Parameter>, p: Parameter)
    ensures Items(ps + [p]) == Items(ps) + [Item(p)]
  {
  }

  lemma InitIsDistinct(ps: seq<Parameter>)
    requires ps != [] && AreDistinct(ps)
    ensures AreDistinct(ps[..|ps| - 1])
  {
  }

  lemma NoParameters()
    ensures IsMapOf(map[], [])
  {
  }

  /** The round trip: reading a challenge made of any plain parameters with distinct names gives
      exactly those parameters, whatever commas and spaces their values hold. */
  lemma RoundTrip(ps: seq<Parameter>)
    requires ps != [] && (forall i :: 0 <= i < |ps| ==> IsPlain(ps[i])) && AreDistinct(ps)
    ensures Parse(Challenge(ps)).Some? && IsMapOf(Parse(Challenge(ps)).value, ps)
  {
    hide IsPlain, Item, IsUncut, After, Pieces, Lower, IsBearer, Strip, StripLeft, ParseItems, AreDistinct, IsMapOf,
         Join;
    assert "Bearer " == "Bearer" + " ";
    PlainIsUncut("Bearer ");
    PiecesOfItems("Bearer ", ps);
    var raw := RawPieces("Bearer ", ps);
    FirstPart(ps[0]);
    var more := ps[1..];
    if more != [] {
      StrippedPieces(more);
      assert raw[1..] == RawPieces(" ", more);
    } else {
      assert raw[1..] == [];
    }
    assert StripAll(raw[1..]) == Items(more);
    assert StripAll(raw) == ["Bearer " + Item(ps[0])] + Items(more);
    assert StripAll(raw)[1..] == Items(more);
    assert BearerItems(StripAll(raw)).value == [Item(ps[0])] + Items(more);
    assert Items(ps) == [Item(ps[0])] + Items(more);
    ParseOfItems(ps);
  }
}
