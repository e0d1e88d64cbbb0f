/** Which specifiers are reported, exactly (scripts/export_public_candidate.py): the three forms an
    import can take, stated without the finder's loops. */
module SpecifierForms {
  import opened Text
  import opened JavaScriptLexer
  import opened ModuleSpecifiers

  predicate Opens(t: Token) { t.value == "(" || t.value == "[" || t.value == "{" }

  predicate Closes(t: Token) { t.value == ")" || t.value == "]" || t.value == "}" }

  /** How many brackets opened since the cursor are still open. */
  function Depth(tokens: seq<Token>, cursor: nat, at: nat): nat
    requires cursor <= at <= |tokens|
  {
    if at == cursor then 0
    else
      var before := Depth(tokens, cursor, at - 1);
      if Opens(tokens[at - 1]) then before + 1
      else if Closes(tokens[at - 1]) then (if before == 0 then 0 else before - 1)
      else before
  }

  /** A token that ends a declaration: outside brackets, a semicolon or the next declaration. */
  predicate Ends(tokens: seq<Token>, cursor: nat, at: nat)
    requires cursor <= at < |tokens|
  {
    Depth(tokens, cursor, at) == 0
    && (tokens[at].value == ";" || (at > cursor && (IsWord(tokens[at], "import") || IsWord(tokens[at], "export"))))
  }

  predicate IsFrom(tokens: seq<Token>, cursor: nat, at: nat)
    requires cursor <= at < |tokens|
  {
    Depth(tokens, cursor, at) == 0 && IsWord(tokens[at], "from")
  }

  /** The token at an index is this string, or this template where one may stand. */
  predicate Names(tokens: seq<Token>, index: nat, templates: bool, s: Specifier) {
    && index < |tokens| && (tokens[index].kind.StringLiteral? || (templates && tokens[index].kind.Template?))
    && s == Specifier(tokens[index].value, tokens[index].escaped)
  }

  lemma {:induction false} NamesMeans(tokens: seq<Token>, index: nat, templates: bool, s: Specifier)
    ensures AsSpecifier(tokens, index, templates) == Some(s) <==> Names(tokens, index, templates, s)
  {
  }

  /** The first `from` of a declaration, before its end, is followed by this string. */
  ghost predicate NamedBy(tokens: seq<Token>, cursor: nat, at: nat, limit: nat, s: Specifier)
    requires cursor <= at <= limit <= |tokens|
  {
    exists j ::
      && at <= j < limit && IsFrom(tokens, cursor, j)
      && Names(tokens, NextSignificant(tokens, j + 1), false, s)
      && forall k :: at <= k < j ==> !IsFrom(tokens, cursor, k) && !Ends(tokens, cursor, k)
  }

  lemma WordsAreNoBrackets(t: Token)
    ensures t.value == ";" || IsWord(t, "import") || IsWord(t, "export") || IsWord(t, "from") ==>
      !Opens(t) && !Closes(t)
    ensures IsWord(t, "from") ==> t.value != ";" && !IsWord(t, "import") && !IsWord(t, "export")
  {
  }

  lemma {:induction false} FromClauseIsFirst(tokens: seq<Token>, cursor: nat, at: nat, limit: nat, s: Specifier)
    requires cursor <= at <= limit <= |tokens|
    ensures FromClause(tokens, at, cursor, limit, Depth(tokens, cursor, at)) == Some(s) <==>
      NamedBy(tokens, cursor, at, limit, s)
    decreases limit - at
  {
    if at < limit {
      hide IsWord, NextSignificant, AsSpecifier, Names;
      var t := tokens[at];
      WordsAreNoBrackets(t);
      NamesMeans(tokens, NextSignificant(tokens, at + 1), false, s);
      if Ends(tokens, cursor, at) || IsFrom(tokens, cursor, at) {
        FromClauseHere(tokens, cursor, at, limit);
        if IsFrom(tokens, cursor, at) && AsSpecifier(tokens, NextSignificant(tokens, at + 1), false) == Some(s) {
          assert NamedBy(tokens, cursor, at, limit, s);
        }
      } else {
        FromClauseOn(tokens, cursor, at, limit);
        FromClauseIsFirst(tokens, cursor, at + 1, limit, s);
        NamedFurtherOn(tokens, cursor, at, limit, s);
      }
    }
  }

  lemma {:induction false} FromClauseHere(tokens: seq<Token>, cursor: nat, at: nat, limit: nat)
    requires cursor <= at < limit <= |tokens| && (Ends(tokens, cursor, at) || IsFrom(tokens, cursor, at))
    ensures FromClause(tokens, at, cursor, limit, Depth(tokens, cursor, at)) ==
              if IsFrom(tokens, cursor, at) then AsSpecifier(tokens, NextSignificant(tokens, at + 1), false) else None
  {
  }

  lemma FromClauseOn(tokens: seq<Token>, cursor: nat, at: nat, limit: nat)
    requires cursor <= at < limit <= |tokens| && !Ends(tokens, cursor, at) && !IsFrom(tokens, cursor, at)
    ensures FromClause(tokens, at, cursor, limit, Depth(tokens, cursor, at)) ==
              FromClause(tokens, at + 1, cursor, limit, Depth(tokens, cursor, at + 1))
  {
  }

  lemma NamedFurtherOn(tokens: seq<Token>, cursor: nat, at: nat, limit: nat, s: Specifier)
    requires cursor <= at < limit <= |tokens| && !Ends(tokens, cursor, at) && !IsFrom(tokens, cursor, at)
    ensures NamedBy(tokens, cursor, at, limit, s) <==> NamedBy(tokens, cursor, at + 1, limit, s)
  {
  }

  // ---------- the three forms ----------

  /** Reached through a dot, line ends aside. */
  ghost predicate IsProperty(tokens: seq<Token>, index: nat)
    requires index < |tokens|
  {
    exists p :: 0 <= p < index && !tokens[p].kind.Newline? && tokens[p].value == "."
                && forall i :: p < i < index ==> tokens[i].kind.Newline?
  }

  /** Right after a closing angle bracket that ends no arrow. */
  predicate IsAfterTag(tokens: seq<Token>, index: nat)
    requires index < |tokens|
  {
    && index > 0 && !tokens[index - 1].kind.Newline? && tokens[index - 1].value == ">"
    && !(index > 1 && tokens[index - 2].value == "=")
  }

  lemma {:induction false} ShadowedMeans(tokens: seq<Token>, index: nat)
    requires index < |tokens|
    ensures IsShadowed(tokens, index) <==> IsProperty(tokens, index) || IsAfterTag(tokens, index)
  {
    var before := tokens[..index];
    var p := LastSignificant(before);
    if p >= 0 { assert before[p] == tokens[p]; }
    forall i | p < i < index ensures tokens[i].kind.Newline? { assert tokens[i] == before[i]; }
  }

  /** A keyword that is neither a property nor text after a closing tag, with the token after it. */
  ghost predicate IsKeyword(tokens: seq<Token>, index: nat, word: string, cursor: nat)
    requires index < |tokens|
  {
    && IsWord(tokens[index], word) && !IsProperty(tokens, index) && !IsAfterTag(tokens, index)
    && cursor == NextSignificant(tokens, index + 1) && cursor < |tokens|
  }

  /** `import "m"`. */
  ghost predicate IsBareImport(tokens: seq<Token>, index: nat, s: Specifier)
    requires index < |tokens|
  {
    var cursor := NextSignificant(tokens, index + 1);
    IsKeyword(tokens, index, "import", cursor) && Names(tokens, cursor, false, s)
  }

  /** `import("m")` or `require("m")`, with a string or a template that has no substitution. */
  ghost predicate IsCall(tokens: seq<Token>, index: nat, s: Specifier)
    requires index < |tokens|
  {
    var cursor := NextSignificant(tokens, index + 1);
    && (IsKeyword(tokens, index, "import", cursor) || IsKeyword(tokens, index, "require", cursor))
    && tokens[cursor].value == "(" && !(IsWord(tokens[index], "import") && tokens[cursor].kind.StringLiteral?)
    && Names(tokens, NextSignificant(tokens, cursor + 1), true, s)
  }

  /** How far a declaration is searched. */
  function Limit(tokens: seq<Token>, cursor: nat): (n: nat)
    requires cursor < |tokens|
    ensures cursor < n <= |tokens|
  {
    if |tokens| < cursor + 512 then |tokens| else cursor + 512
  }

  /** `import ... from "m"` or `export ... from "m"`, with the string among the next tokens. */
  ghost predicate IsDeclaration(tokens: seq<Token>, index: nat, s: Specifier)
    requires index < |tokens|
  {
    var cursor := NextSignificant(tokens, index + 1);
    && cursor < |tokens|
    && NamedBy(tokens, cursor, cursor, Limit(tokens, cursor), s)
    && (IsKeyword(tokens, index, "export", cursor)
        || (IsKeyword(tokens, index, "import", cursor) && !tokens[cursor].kind.StringLiteral?
            && tokens[cursor].value != "(" && tokens[cursor].value != "." && tokens[cursor].value != ":"))
  }

  lemma FormAt(tokens: seq<Token>, index: nat, s: Specifier)
    requires index < |tokens|
    ensures SpecifierAt(tokens, index) == Some(s) <==> IsForm(tokens, index, s)
  {
    hide IsShadowed, NextSignificant, FromClause, NamedBy, IsProperty, IsAfterTag, Names, AsSpecifier;
    KeywordsDiffer(tokens[index]);
    ShadowedMeans(tokens, index);
    var cursor := NextSignificant(tokens, index + 1);
    NamesMeans(tokens, cursor, false, s);
    StringIsNamed(tokens, cursor, s);
    if cursor < |tokens| { NamesMeans(tokens, NextSignificant(tokens, cursor + 1), true, s); }
    if cursor < |tokens| {
      FromClauseIsFirst(tokens, cursor, cursor, Limit(tokens, cursor), s);
    }
  }

  lemma KeywordsDiffer(t: Token)
    ensures !(IsWord(t, "import") && IsWord(t, "export")) && !(IsWord(t, "import") && IsWord(t, "require"))
    ensures !(IsWord(t, "export") && IsWord(t, "require"))
  {
  }

  lemma {:induction false} StringIsNamed(tokens: seq<Token>, index: nat, s: Specifier)
    ensures Names(tokens, index, false, s) ==> index < |tokens| && tokens[index].kind.StringLiteral?
  {
  }

  /** One of the three forms stands at this index. */
  ghost predicate IsForm(tokens: seq<Token>, index: nat, s: Specifier)
    requires index < |tokens|
  {
    IsBareImport(tokens, index, s) || IsCall(tokens, index, s) || IsDeclaration(tokens, index, s)
  }

  /** The places of the reported specifiers, from some index on. */
  function Places(tokens: seq<Token>, start: nat): (at: seq<nat>)
    requires start <= |tokens|
    ensures forall index :: index in at <==> start <= index < |tokens| && SpecifierAt(tokens, index).Some?
    ensures forall i, j :: 0 <= i < j < |at| ==> at[i] < at[j]
    decreases |tokens| - start
  {
    hide SpecifierAt;
    if start == |tokens| then []
    else
      var later := Places(tokens, start + 1);
      assert forall i :: 0 <= i < |later| ==> later[i] in later;
      if SpecifierAt(tokens, start).Some? then [start] + later else later
  }

  lemma {:induction false} PlacesStep(tokens: seq<Token>, start: nat)
    requires start < |tokens|
    ensures var at, found := Places(tokens, start + 1), SpecifiersFrom(tokens, start + 1);
            match SpecifierAt(tokens, start)
            case None => Places(tokens, start) == at && SpecifiersFrom(tokens, start) == found
            case Some(s) => Places(tokens, start) == [start] + at && SpecifiersFrom(tokens, start) == [s] + found
  {
    hide SpecifierAt;
  }

  lemma {:induction false} NoPlaces(tokens: seq<Token>)
    ensures Places(tokens, |tokens|) == [] && SpecifiersFrom(tokens, |tokens|) == []
  {
  }

  lemma {:induction false} PlacesAreThese(tokens: seq<Token>, start: nat)
    requires start <= |tokens|
    ensures |Places(tokens, start)| == |SpecifiersFrom(tokens, start)|
    ensures forall i :: 0 <= i < |Places(tokens, start)| ==>
      Found(tokens, Places(tokens, start)[i], SpecifiersFrom(tokens, start)[i])
    decreases |tokens| - start
  {
    hide SpecifierAt, Places, SpecifiersFrom;
    if start == |tokens| {
      NoPlaces(tokens);
    } else {
      PlacesStep(tokens, start);
      PlacesAreThese(tokens, start + 1);
    }
  }

  predicate Found(tokens: seq<Token>, index: nat, s: Specifier) {
    index < |tokens| && SpecifierAt(tokens, index) == Some(s)
  }

  /** What is reported, exactly: one specifier for every bare import, call and declaration, in their
      order, and nothing else; none is missed, repeated or made up. */
  lemma {:induction false} ReportedExactly(tokens: seq<Token>) returns (at: seq<nat>)
    ensures var found := SpecifiersFrom(tokens, 0);
            && |at| == |found| && (forall i, j :: 0 <= i < j < |at| ==> at[i] < at[j])
            && (forall i :: 0 <= i < |at| ==> at[i] < |tokens| && IsForm(tokens, at[i], found[i]))
            && (forall index: nat, s :: index < |tokens| && IsForm(tokens, index, s) ==> index in at)
  {
    hide SpecifierAt, SpecifiersFrom, Places, IsForm;
    at := Places(tokens, 0);
    PlacesAreThese(tokens, 0);
    forall index: nat, s | index < |tokens|
      ensures SpecifierAt(tokens, index) == Some(s) <==> IsForm(tokens, index, s)
    {
      FormAt(tokens, index, s);
    }
  }
}
