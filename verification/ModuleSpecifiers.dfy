/** The module-specifier finder of the public export (scripts/export_public_candidate.py):
    which import, export and require tokens name a module, and where that name comes from. */
module ModuleSpecifiers {
  import opened Text
  import opened JavaScriptLexer
  import opened LexerTheorems
  import opened JavaScriptTokenizer

  datatype Specifier = Specifier(value: string, escaped: bool)

  function NextSignificant(tokens: seq<Token>, index: nat): (r: nat)
    requires index <= |tokens|
    ensures index <= r <= |tokens|
    ensures r < |tokens| ==> !tokens[r].kind.Newline?
    ensures forall i :: index <= i < r ==> tokens[i].kind.Newline?
    decreases |tokens| - index
  {
    if index < |tokens| && tokens[index].kind.Newline? then NextSignificant(tokens, index + 1) else index
  }

  predicate IsWord(t: Token, word: string) {
    t.kind.Identifier? && t.value == word
  }

  /** A keyword reached through a dot, or in text after a closing tag on the same line. */
  predicate IsShadowed(tokens: seq<Token>, index: nat)
    requires index < |tokens|
  {
    var previous := LastSignificant(tokens[..index]);
    && previous >= 0
    && (tokens[previous].value == "."
        || (tokens[previous].value == ">" && previous == index - 1
            && (previous == 0 || tokens[previous - 1].value != "=")))
  }

  function AsSpecifier(tokens: seq<Token>, index: nat, templates: bool): (r: Option<Specifier>) {
    if index < |tokens| && (tokens[index].kind.StringLiteral? || (templates && tokens[index].kind.Template?))
    then Some(Specifier(tokens[index].value, tokens[index].escaped)) else None
  }

  /** The `from` clause of a declaration, searched to `limit` at bracket depth zero. */
  function FromClause(tokens: seq<Token>, at: nat, cursor: nat, limit: nat, depth: nat): Option<Specifier>
    requires cursor <= at <= limit <= |tokens|
    decreases limit - at
  {
    if at == limit then None
    else
      var v := tokens[at].value;
      if v == "(" || v == "[" || v == "{" then FromClause(tokens, at + 1, cursor, limit, depth + 1)
      else if v == ")" || v == "]" || v == "}" then
        FromClause(tokens, at + 1, cursor, limit, if depth == 0 then 0 else depth - 1)
      else if v == ";" && depth == 0 then None
      else if at > cursor && depth == 0 && (IsWord(tokens[at], "import") || IsWord(tokens[at], "export")) then None
      else if depth == 0 && IsWord(tokens[at], "from") then AsSpecifier(tokens, NextSignificant(tokens, at + 1), false)
      else FromClause(tokens, at + 1, cursor, limit, depth)
  }

  const WINDOW: nat := 512

  /** The specifier that the keyword at an index introduces, if any. */
  function SpecifierAt(tokens: seq<Token>, index: nat): Option<Specifier>
    requires index < |tokens|
  {
    var t := tokens[index];
    if !(IsWord(t, "import") || IsWord(t, "export") || IsWord(t, "require")) || IsShadowed(tokens, index) then None
    else
      var cursor := NextSignificant(tokens, index + 1);
      if cursor >= |tokens| then None
      else if t.value == "import" && tokens[cursor].kind.StringLiteral? then AsSpecifier(tokens, cursor, false)
      else if t.value != "export" && tokens[cursor].value == "(" then
        AsSpecifier(tokens, NextSignificant(tokens, cursor + 1), true)
      else if t.value == "require" then None
      else if t.value == "import" && (tokens[cursor].value == "." || tokens[cursor].value == ":") then None
      else FromClause(tokens, cursor, cursor, if |tokens| < cursor + WINDOW then |tokens| else cursor + WINDOW, 0)
  }

  function SpecifiersFrom(tokens: seq<Token>, index: nat): seq<Specifier>
    requires index <= |tokens|
    decreases |tokens| - index
  {
    if index == |tokens| then []
    else (match SpecifierAt(tokens, index) case None => [] case Some(s) => [s]) + SpecifiersFrom(tokens, index + 1)
  }

  method FindNextSignificant(tokens: seq<Token>, index: nat) returns (r: nat)
    requires index <= |tokens|
    ensures r == NextSignificant(tokens, index)
  {
    r := index;
    while r < |tokens| && tokens[r].kind.Newline?
      invariant index <= r <= |tokens|
      invariant NextSignificant(tokens, r) == NextSignificant(tokens, index)
    {
      r := r + 1;
    }
  }

  method FindFromClause(tokens: seq<Token>, cursor: nat) returns (r: Option<Specifier>)
    requires cursor < |tokens|
    ensures r == FromClause(tokens, cursor, cursor, if |tokens| < cursor + WINDOW then |tokens| else cursor + WINDOW, 0)
  {
    var limit := if |tokens| < cursor + WINDOW then |tokens| else cursor + WINDOW;
    var depth := 0;
    for at := cursor to limit
      invariant depth >= 0
      invariant FromClause(tokens, at, cursor, limit, depth) == FromClause(tokens, cursor, cursor, limit, 0)
    {
      var candidate := tokens[at];
      if candidate.value == "(" || candidate.value == "[" || candidate.value == "{" {
        depth := depth + 1;
      } else if candidate.value == ")" || candidate.value == "]" || candidate.value == "}" {
        depth := if depth == 0 then 0 else depth - 1;
      } else if candidate.value == ";" && depth == 0 {
        return None;
      } else if at > cursor && depth == 0 && (IsWord(candidate, "import") || IsWord(candidate, "export")) {
        return None;
      } else if IsWord(candidate, "from") && depth == 0 {
        var source := FindNextSignificant(tokens, at + 1);
        return AsSpecifier(tokens, source, false);
      }
    }
    return None;
  }

  /** `_javascript_module_specifiers` over the tokens of a source. */
  method FindSpecifiers(tokens: seq<Token>) returns (specifiers: seq<Specifier>)
    ensures specifiers == SpecifiersFrom(tokens, 0)
  {
    hide FromClause, NextSignificant, IsWord;
    specifiers := [];
    for index := 0 to |tokens|
      invariant specifiers + SpecifiersFrom(tokens, index) == SpecifiersFrom(tokens, 0)
    {
      var found := FindSpecifierAt(tokens, index);
      ghost var rest := SpecifiersFrom(tokens, index + 1);
      if found.Some? {
        assert (specifiers + [found.value]) + rest == specifiers + ([found.value] + rest);
        specifiers := specifiers + [found.value];
      } else {
        assert [] + rest == rest;
      }
    }
    assert specifiers + [] == specifiers;
  }

  method FindSpecifierAt(tokens: seq<Token>, index: nat) returns (r: Option<Specifier>)
    requires index < |tokens|
    ensures r == SpecifierAt(tokens, index)
  {
    hide FromClause, NextSignificant;
    var token := tokens[index];
    if !(IsWord(token, "import") || IsWord(token, "export") || IsWord(token, "require")) { return None; }
    var previous := index - 1;
    var lineBreakBefore := previous >= 0 && tokens[previous].kind.Newline?;
    while previous >= 0 && tokens[previous].kind.Newline?
      invariant -1 <= previous < index
      invariant forall i :: previous < i < index ==> tokens[i].kind.Newline?
      invariant lineBreakBefore <==> index > 0 && tokens[index - 1].kind.Newline?
    {
      previous := previous - 1;
    }
    assert previous == LastSignificant(tokens[..index]) by {
      var p := LastSignificant(tokens[..index]);
      if p >= 0 { assert !tokens[p].kind.Newline?; }
      if previous >= 0 { assert tokens[..index][previous] == tokens[previous]; }
    }
    if previous >= 0 && tokens[previous].value == "." { return None; }
    if previous >= 0 && tokens[previous].value == ">" && !lineBreakBefore {
      if previous == 0 || tokens[previous - 1].value != "=" { return None; }
    }
    var cursor := FindNextSignificant(tokens, index + 1);
    if cursor >= |tokens| { return None; }
    var current := tokens[cursor];
    if token.value == "import" && current.kind.StringLiteral? {
      return Some(Specifier(current.value, current.escaped));
    }
    if (token.value == "import" || token.value == "require") && current.value == "(" {
      var argument := FindNextSignificant(tokens, cursor + 1);
      return AsSpecifier(tokens, argument, true);
    }
    if token.value == "require" { return None; }
    if token.value == "import" && (current.value == "." || current.value == ":") { return None; }
    r := FindFromClause(tokens, cursor);
  }

  /** Every specifier of a source, found from its tokens. */
  function Specifiers(u: Letters, source: string): Result<seq<Specifier>, LexError> {
    match Lex(u, source, [])
    case Err(e) => Err(e)
    case Ok(tokens) => Ok(SpecifiersFrom(tokens, 0))
  }

  method JavaScriptModuleSpecifiers(u: Letters, source: string) returns (r: Result<seq<Specifier>, LexError>)
    ensures r == Specifiers(u, source)
  {
    var tokens := JavaScriptTokens(u, source);
    if tokens.Err? { return Err(tokens.error); }
    var found := FindSpecifiers(tokens.value);
    return Ok(found);
  }

  // ---------- provenance ----------

  ghost predicate Named(tokens: seq<Token>, s: Specifier, k: nat) {
    k < |tokens| && (tokens[k].kind.StringLiteral? || tokens[k].kind.Template?)
    && tokens[k].value == s.value && tokens[k].escaped == s.escaped
  }

  lemma {:induction false} FromClauseNamesALiteral(tokens: seq<Token>, at: nat, cursor: nat, limit: nat, depth: nat)
    requires cursor <= at <= limit <= |tokens|
    ensures var r := FromClause(tokens, at, cursor, limit, depth);
            r.Some? ==> exists k :: Named(tokens, r.value, k)
    decreases limit - at
  {
    if at < limit {
      var v := tokens[at].value;
      if depth == 0 && IsWord(tokens[at], "from") {
        var k := NextSignificant(tokens, at + 1);
        if AsSpecifier(tokens, k, false).Some? { assert Named(tokens, AsSpecifier(tokens, k, false).value, k); }
      }
      FromClauseNamesALiteral(tokens, at + 1, cursor, limit, depth + 1);
      FromClauseNamesALiteral(tokens, at + 1, cursor, limit, if depth == 0 then 0 else depth - 1);
      FromClauseNamesALiteral(tokens, at + 1, cursor, limit, depth);
    }
  }

  lemma SpecifierNamesALiteral(tokens: seq<Token>, index: nat)
    requires index < |tokens|
    ensures var r := SpecifierAt(tokens, index);
            r.Some? ==> exists k :: Named(tokens, r.value, k)
  {
    hide FromClause, IsShadowed;
    var cursor := NextSignificant(tokens, index + 1);
    if cursor < |tokens| {
      var limit := if |tokens| < cursor + WINDOW then |tokens| else cursor + WINDOW;
      FromClauseNamesALiteral(tokens, cursor, cursor, limit, 0);
      var k := NextSignificant(tokens, cursor + 1);
      if AsSpecifier(tokens, k, true).Some? { assert Named(tokens, AsSpecifier(tokens, k, true).value, k); }
      if AsSpecifier(tokens, cursor, false).Some? {
        assert Named(tokens, AsSpecifier(tokens, cursor, false).value, cursor);
      }
    }
  }

  lemma {:induction false} SpecifiersNameLiterals(tokens: seq<Token>, index: nat, s: Specifier)
    requires index <= |tokens| && s in SpecifiersFrom(tokens, index)
    ensures exists k :: Named(tokens, s, k)
    decreases |tokens| - index
  {
    hide SpecifierAt;
    if SpecifierAt(tokens, index) == Some(s) {
      SpecifierNamesALiteral(tokens, index);
    } else {
      SpecifiersNameLiterals(tokens, index + 1, s);
    }
  }

  /** Every specifier reported for a source is the quoted text of a piece of that source that
      is neither comment nor regular expression. */
  lemma {:induction false} SpecifiersAreQuotedText(u: Letters, source: string, s: Specifier)
    requires Specifiers(u, source).Ok? && s in Specifiers(u, source).value
    ensures exists i, t :: 0 <= i < |Pieces(u, source, [])| && IsQuotation(Pieces(u, source, [])[i], t)
                           && t.value == s.value && t.escaped == s.escaped
  {
    hide Lex, Pieces, IsQuotation, SpecifiersFrom;
    var tokens := Lex(u, source, []).value;
    SpecifiersNameLiterals(tokens, 0, s);
    var k: nat :| Named(tokens, s, k);
    LiteralIsQuotedText(u, source, tokens[k]);
  }
}
