/** From the text of an import to the specifier that is reported (scripts/export_public_candidate.py):
    no form of import slips through the tokenizer or the finder. */
module ImportTexts {
  import opened Text
  import opened JavaScriptLexer
  import opened Lexemes
  import opened ModuleSpecifiers
  import opened SpecifierForms

  predicate IsAsciiLetter(c: char) { 'a' <= c <= 'z' || 'A' <= c <= 'Z' }

  /** Letter tests that answer on ASCII as `str.isalpha` and `str.isalnum` do. */
  ghost predicate IsAscii(u: Letters) {
    forall c: char :: c < '\U{0080}' ==>
      && (u.isAlpha(c) <==> IsAsciiLetter(c))
      && (u.isAlnum(c) <==> IsAsciiLetter(c) || '0' <= c <= '9')
  }

  lemma {:induction false} AsciiIsSane(u: Letters)
    requires IsAscii(u)
    ensures IsSane(u)
  {
  }

  /** A name an import can bind. */
  ghost predicate IsName(u: Letters, w: string) {
    && w != [] && StartsWord(u, w[0]) && (forall i :: 1 <= i < |w| ==> GoesOn(u, w[i]))
    && w != "import" && w != "export" && w != "require" && w != "from"
  }

  function Id(w: string): Token { Token(Identifier, w, false) }

  function Mark(c: char): Token { Token(Punctuation, [c], false) }

  function Literal(m: string): Token { Token(StringLiteral, m, '\\' in m) }

  // ---------- reading on ----------

  lemma {:induction false} WordOn(u: Letters, w: string, tokens: seq<Token>, rest: string)
    requires IsAscii(u) && w != [] && StartsWord(u, w[0]) && (forall i :: 1 <= i < |w| ==> GoesOn(u, w[i]))
    requires rest == [] || rest[0] in {' ', '(', ')', '"', '\''}
    ensures Lex(u, w + rest, tokens) == Lex(u, rest, tokens + [Id(w)])
  {
    hide Lex;
    AsciiIsSane(u);
    LexemeStep(u, Word(w), tokens, rest);
  }

  /** A keyword, spelled in letters. */
  lemma {:induction false} KeywordOn(u: Letters, w: string, tokens: seq<Token>, rest: string)
    requires IsAscii(u) && w != [] && forall i :: 0 <= i < |w| ==> IsAsciiLetter(w[i])
    requires rest == [] || rest[0] in {' ', '(', ')', '"', '\''}
    ensures Lex(u, w + rest, tokens) == Lex(u, rest, tokens + [Id(w)])
  {
    hide Lex;
    WordOn(u, w, tokens, rest);
  }

  lemma {:induction false} BlankOn(u: Letters, tokens: seq<Token>, rest: string)
    requires IsAscii(u)
    ensures Lex(u, " " + rest, tokens) == Lex(u, rest, tokens)
  {
    hide Lex;
    AsciiIsSane(u);
    LexemeStep(u, Blank(' '), tokens, rest);
    assert tokens + TokensOf(Blank(' ')) == tokens;
  }

  lemma {:induction false} MarkOn(u: Letters, c: char, tokens: seq<Token>, rest: string)
    requires IsAscii(u) && c in {'(', ')', '{', '}', '*'}
    ensures Lex(u, [c] + rest, tokens) == Lex(u, rest, tokens + [Mark(c)])
  {
    hide Lex;
    AsciiIsSane(u);
    LexemeStep(u, Sign(c), tokens, rest);
  }

  lemma {:induction false} LiteralOn(u: Letters, quote: char, m: string, tokens: seq<Token>, t: Token, rest: string)
    requires IsAscii(u) && IsQuote(quote) && IsInside(m, quote, true) && t in {Id("from"), Id("import"), Mark('(')}
    ensures Lex(u, [quote] + m + [quote] + rest, tokens + [t]) == Lex(u, rest, tokens + [t, Literal(m)])
  {
    hide Lex, IsInside;
    AsciiIsSane(u);
    StringsAreFound(u, tokens, t, quote, m, rest);
  }

  // ---------- from tokens to the report ----------

  predicate IsKeywordToken(t: Token) {
    IsWord(t, "import") || IsWord(t, "export") || IsWord(t, "require")
  }

  /** Where only the first token is a keyword, only its specifier is reported. */
  lemma {:induction false} OneReport(tokens: seq<Token>, s: Specifier)
    requires tokens != [] && IsForm(tokens, 0, s)
    requires forall i :: 1 <= i < |tokens| ==> !IsKeywordToken(tokens[i])
    ensures SpecifiersFrom(tokens, 0) == [s]
  {
    hide IsForm, SpecifiersFrom, SpecifierAt;
    FormAt(tokens, 0, s);
    PlacesStep(tokens, 0);
    NoReports(tokens, 1);
  }

  lemma {:induction false} NoReports(tokens: seq<Token>, start: nat)
    requires start <= |tokens| && forall i :: start <= i < |tokens| ==> !IsKeywordToken(tokens[i])
    ensures SpecifiersFrom(tokens, start) == []
    decreases |tokens| - start
  {
    hide IsShadowed, NextSignificant, FromClause;
    if start < |tokens| { NoReports(tokens, start + 1); }
  }

  /** What may stand between a keyword and its from clause: no keyword, no semicolon, no other from,
      and no bracket left open. */
  ghost predicate IsClause(clause: seq<Token>) {
    && 0 < |clause| < 512 && Depth(clause, 0, |clause|) == 0
    && !clause[0].kind.Newline? && !clause[0].kind.StringLiteral? && clause[0].value !in {"(", ".", ":"}
    && forall i :: 0 <= i < |clause| ==>
         clause[i].value != ";" && !IsKeywordToken(clause[i]) && !IsWord(clause[i], "from")
  }

  lemma {:induction false} DepthOfPart(tokens: seq<Token>, clause: seq<Token>, n: nat)
    requires n <= |clause| && 1 + n <= |tokens| && forall i :: 0 <= i < n ==> tokens[1 + i] == clause[i]
    ensures Depth(tokens, 1, 1 + n) == Depth(clause, 0, n)
  {
    if n > 0 { DepthOfPart(tokens, clause, n - 1); }
  }

  lemma {:induction false} ClauseNames(tokens: seq<Token>, clause: seq<Token>, s: Specifier)
    requires var j := 1 + |clause|;
             && IsClause(clause) && |tokens| == j + 2 && tokens[j] == Id("from") && tokens[j + 1] == Literal(s.value)
             && s == Specifier(s.value, '\\' in s.value) && (forall i :: 1 <= i < j ==> tokens[i] == clause[i - 1])
             && Depth(tokens, 1, j) == 0 && NextSignificant(tokens, j + 1) == j + 1
    ensures NamedBy(tokens, 1, 1, Limit(tokens, 1), s)
  {
    hide Depth, NextSignificant;
    var j := 1 + |clause|;
    assert IsFrom(tokens, 1, j) && Names(tokens, j + 1, false, s);
    forall k | 1 <= k < j ensures !IsFrom(tokens, 1, k) && !Ends(tokens, 1, k) { assert tokens[k] == clause[k - 1]; }
  }

  lemma {:induction false} DeclarationIsReported(word: string, clause: seq<Token>, m: string)
    requires (word == "import" || word == "export") && IsClause(clause)
    ensures SpecifiersFrom([Id(word)] + clause + [Id("from"), Literal(m)], 0) == [Specifier(m, '\\' in m)]
  {
    hide Depth, SpecifiersFrom, IsForm, NextSignificant;
    var tokens, s := [Id(word)] + clause + [Id("from"), Literal(m)], Specifier(m, '\\' in m);
    var j := 1 + |clause|;
    assert tokens[0] == Id(word) && tokens[j] == Id("from") && tokens[j + 1] == Literal(m);
    assert forall i :: 1 <= i < j ==> tokens[i] == clause[i - 1];
    DepthOfPart(tokens, clause, |clause|);
    assert NextSignificant(tokens, 1) == 1;
    assert NextSignificant(tokens, j + 1) == j + 1;
    ClauseNames(tokens, clause, s);
    assert IsKeyword(tokens, 0, word, 1);
    assert IsDeclaration(tokens, 0, s);
    assert IsForm(tokens, 0, s) by { DeclarationIsAForm(tokens, s); }
    OneReport(tokens, s);
  }

  lemma {:induction false} DeclarationIsAForm(tokens: seq<Token>, s: Specifier)
    requires tokens != [] && (IsDeclaration(tokens, 0, s) || IsBareImport(tokens, 0, s) || IsCall(tokens, 0, s))
    ensures IsForm(tokens, 0, s)
  {
  }

  lemma {:induction false} BareImportIsReported(m: string)
    ensures SpecifiersFrom([Id("import"), Literal(m)], 0) == [Specifier(m, '\\' in m)]
  {
    hide SpecifiersFrom, IsForm, NextSignificant;
    var tokens, s := [Id("import"), Literal(m)], Specifier(m, '\\' in m);
    assert !tokens[1].kind.Newline?;
    assert NextSignificant(tokens, 1) == 1;
    assert IsBareImport(tokens, 0, s);
    DeclarationIsAForm(tokens, s);
    OneReport(tokens, s);
  }

  lemma {:induction false} CallIsReported(word: string, m: string)
    requires word == "import" || word == "require"
    ensures SpecifiersFrom([Id(word), Mark('('), Literal(m), Mark(')')], 0) == [Specifier(m, '\\' in m)]
  {
    hide SpecifiersFrom, IsForm, NextSignificant;
    var tokens, s := [Id(word), Mark('('), Literal(m), Mark(')')], Specifier(m, '\\' in m);
    assert !tokens[1].kind.Newline? && !tokens[2].kind.Newline?;
    assert NextSignificant(tokens, 1) == 1 && NextSignificant(tokens, 2) == 2;
    assert IsCall(tokens, 0, s);
    DeclarationIsAForm(tokens, s);
    OneReport(tokens, s);
  }

  // ---------- from text to the report ----------

  lemma {:induction false} NoMore(u: Letters, tokens: seq<Token>)
    ensures Lex(u, [], tokens) == Ok(tokens)
  {
  }

  function Tail(quote: char, m: string): string { " from " + [quote] + m + [quote] }

  lemma {:induction false} TailReads(u: Letters, quote: char, m: string, tokens: seq<Token>)
    requires IsAscii(u) && IsQuote(quote) && IsInside(m, quote, true)
    ensures Lex(u, Tail(quote, m), tokens) == Ok(tokens + [Id("from"), Literal(m)])
  {
    hide Lex, IsInside, IsAscii;
    var t2 := [quote] + m + [quote] + [];
    var t1 := " " + t2;
    assert Tail(quote, m) == " " + ("from" + t1);
    BlankOn(u, tokens, "from" + t1);
    KeywordOn(u, "from", tokens, t1);
    BlankOn(u, tokens + [Id("from")], t2);
    LiteralOn(u, quote, m, tokens, Id("from"), []);
    NoMore(u, tokens + [Id("from"), Literal(m)]);
  }

  /** `import w from "m"`. */
  lemma {:induction false} DefaultImport(u: Letters, w: string, quote: char, m: string)
    requires IsAscii(u) && IsName(u, w) && IsQuote(quote) && IsInside(m, quote, true)
    ensures Specifiers(u, "import " + w + Tail(quote, m)) == Ok([Specifier(m, '\\' in m)])
  {
    hide Lex, IsInside, IsAscii, SpecifiersFrom;
    var t1 := w + Tail(quote, m);
    assert "import " + w + Tail(quote, m) == "import" + (" " + t1);
    KeywordOn(u, "import", [], " " + t1);
    assert [] + [Id("import")] == [Id("import")];
    BlankOn(u, [Id("import")], t1);
    WordOn(u, w, [Id("import")], Tail(quote, m));
    TailReads(u, quote, m, [Id("import")] + [Id(w)]);
    NameIsAClause(u, w);
    DeclarationIsReported("import", [Id(w)], m);
  }

  lemma {:induction false} NameIsAClause(u: Letters, w: string)
    requires IsAscii(u) && IsName(u, w)
    ensures IsClause([Id(w)]) && IsClause([Mark('{'), Id(w), Mark('}')]) && IsClause([Mark('*')])
  {
    hide Depth, IsAscii;
    PlainName(u, w);
    DepthOfClauses(w);
  }

  lemma PlainName(u: Letters, w: string)
    requires IsAscii(u) && IsName(u, w)
    ensures var t := Id(w); t.value !in {"(", ".", ":", ";"} && !IsKeywordToken(t) && !IsWord(t, "from")
    ensures !Opens(Id(w)) && !SpecifierForms.Closes(Id(w))
  {
    assert forall c :: w == [c] ==> w[0] == c;
  }

  lemma {:induction false} DepthOfClauses(w: string)
    requires !Opens(Id(w)) && !SpecifierForms.Closes(Id(w))
    ensures Depth([Id(w)], 0, 1) == 0 && Depth([Mark('*')], 0, 1) == 0
    ensures Depth([Mark('{'), Id(w), Mark('}')], 0, 3) == 0
  {
    hide Opens, SpecifierForms.Closes;
    var one, three, star := [Id(w)], [Mark('{'), Id(w), Mark('}')], [Mark('*')];
    WhatOpens();
    assert Depth(one, 0, 0) == 0 && Depth(star, 0, 0) == 0 && Depth(three, 0, 0) == 0;
    assert Depth(three, 0, 1) == 1;
    assert Depth(three, 0, 2) == 1;
  }

  lemma WhatOpens()
    ensures !Opens(Mark('*')) && !SpecifierForms.Closes(Mark('*'))
    ensures Opens(Mark('{')) && !Opens(Mark('}')) && SpecifierForms.Closes(Mark('}'))
  {
  }

  /** `import { w } from "m"`, and the same with export. */
  lemma {:induction false} NamedImport(u: Letters, word: string, w: string, quote: char, m: string)
    requires IsAscii(u) && IsName(u, w) && IsQuote(quote) && IsInside(m, quote, true)
    requires word == "import" || word == "export"
    ensures Specifiers(u, word + " { " + w + " }" + Tail(quote, m)) == Ok([Specifier(m, '\\' in m)])
  {
    hide Lex, IsInside, IsAscii, SpecifiersFrom;
    var t4 := ['}'] + Tail(quote, m);
    var t3 := w + (" " + t4);
    var t2 := ['{'] + (" " + t3);
    assert word + " { " + w + " }" + Tail(quote, m) == word + (" " + t2);
    var a := [Id(word)];
    var b := a + [Mark('{')];
    var c := b + [Id(w)];
    KeywordOn(u, word, [], " " + t2);
    assert [] + a == a;
    BlankOn(u, a, t2);
    MarkOn(u, '{', a, " " + t3);
    BlankOn(u, b, t3);
    WordOn(u, w, b, " " + t4);
    BlankOn(u, c, t4);
    MarkOn(u, '}', c, Tail(quote, m));
    TailReads(u, quote, m, c + [Mark('}')]);
    NameIsAClause(u, w);
    DeclarationIsReported(word, [Mark('{'), Id(w), Mark('}')], m);
    assert c + [Mark('}')] == [Id(word)] + [Mark('{'), Id(w), Mark('}')];
  }

  /** `export * from "m"`. */
  lemma {:induction false} StarExport(u: Letters, quote: char, m: string)
    requires IsAscii(u) && IsQuote(quote) && IsInside(m, quote, true)
    ensures Specifiers(u, "export *" + Tail(quote, m)) == Ok([Specifier(m, '\\' in m)])
  {
    hide Lex, IsInside, IsAscii, SpecifiersFrom;
    var t1 := ['*'] + Tail(quote, m);
    assert "export *" + Tail(quote, m) == "export" + (" " + t1);
    KeywordOn(u, "export", [], " " + t1);
    assert [] + [Id("export")] == [Id("export")];
    BlankOn(u, [Id("export")], t1);
    MarkOn(u, '*', [Id("export")], Tail(quote, m));
    TailReads(u, quote, m, [Id("export")] + [Mark('*')]);
    LetterIsAName(u);
    NameIsAClause(u, "a");
    DeclarationIsReported("export", [Mark('*')], m);
  }

  lemma {:induction false} LetterIsAName(u: Letters)
    requires IsAscii(u)
    ensures IsName(u, "a")
  {
    assert "a"[0] == 'a' && IsAsciiLetter('a');
  }

  /** `import "m"`. */
  lemma {:induction false} BareImport(u: Letters, quote: char, m: string)
    requires IsAscii(u) && IsQuote(quote) && IsInside(m, quote, true)
    ensures Specifiers(u, "import " + [quote] + m + [quote]) == Ok([Specifier(m, '\\' in m)])
  {
    hide Lex, IsInside, IsAscii, SpecifiersFrom;
    var t1 := [quote] + m + [quote] + [];
    assert "import " + [quote] + m + [quote] == "import" + (" " + t1);
    KeywordOn(u, "import", [], " " + t1);
    assert [] + [Id("import")] == [Id("import")];
    BlankOn(u, [Id("import")], t1);
    LiteralOn(u, quote, m, [], Id("import"), []);
    assert [] + [Id("import"), Literal(m)] == [Id("import"), Literal(m)];
    NoMore(u, [Id("import"), Literal(m)]);
    BareImportIsReported(m);
  }

  /** `import("m")` and `require("m")`. */
  lemma {:induction false} CalledImport(u: Letters, word: string, quote: char, m: string)
    requires IsAscii(u) && IsQuote(quote) && IsInside(m, quote, true)
    requires word == "import" || word == "require"
    ensures Specifiers(u, word + "(" + [quote] + m + [quote] + ")") == Ok([Specifier(m, '\\' in m)])
  {
    hide Lex, IsInside, IsAscii, SpecifiersFrom;
    var t1 := [quote] + m + [quote] + ")";
    assert word + "(" + [quote] + m + [quote] + ")" == word + (['('] + t1);
    KeywordOn(u, word, [], ['('] + t1);
    assert [] + [Id(word)] == [Id(word)];
    MarkOn(u, '(', [Id(word)], t1);
    LiteralOn(u, quote, m, [Id(word)], Mark('('), ")");
    var tokens := [Id(word)] + [Mark('('), Literal(m)];
    assert ")" == [')'] + [];
    MarkOn(u, ')', tokens, []);
    NoMore(u, tokens + [Mark(')')]);
    assert tokens + [Mark(')')] == [Id(word), Mark('('), Literal(m), Mark(')')];
    CallIsReported(word, m);
  }
}
