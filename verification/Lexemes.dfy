/** The tokenizer of the public export (scripts/export_public_candidate.py) against a description
    of its language: which stretch of text is which lexeme, and after which tokens a quote opens a
    string and a slash a regular expression. The tokenizer reads exactly this language. */
module Lexemes {
  import opened Text
  import opened JavaScriptLexer
  import LexerTheorems

  datatype Lexeme =
    | Blank(c: char)
    | LineEnd(text: string)
    | LineComment(body: string)
    | BlockComment(body: string)
    | Quoted(quote: char, body: string)
    | LoneQuote(quote: char)
    | TemplateText(body: string)
    | RegexText(body: string, flags: string)
    | Word(word: string)
    | Sign(c: char)

  function TextOf(x: Lexeme): string {
    match x
    case Blank(c) => [c]
    case LineEnd(text) => text
    case LineComment(body) => "//" + body
    case BlockComment(body) => "/*" + body + "*/"
    case Quoted(quote, body) => [quote] + body + [quote]
    case LoneQuote(quote) => [quote]
    case TemplateText(body) => "`" + body + "`"
    case RegexText(body, flags) => "/" + body + "/" + flags
    case Word(word) => word
    case Sign(c) => [c]
  }

  function TokensOf(x: Lexeme): seq<Token> {
    match x
    case Blank(_) => []
    case LineEnd(_) => [Token(Newline, "\n", false)]
    case LineComment(_) => []
    case BlockComment(body) => seq(multiset(body)['\n'], _ => Token(Newline, "\n", false))
    case Quoted(_, body) => [Token(StringLiteral, body, '\\' in body)]
    case LoneQuote(quote) => [Token(Punctuation, [quote], false)]
    case TemplateText(body) =>
      [Token(if Substitutes(body) then TemplateExpression else Template, body, '\\' in body)]
    case RegexText(_, _) => [Token(Regex, "regex", false)]
    case Word(word) => [Token(Identifier, word, false)]
    case Sign(c) => [Token(Punctuation, [c], false)]
  }

  // ---------- bodies ----------

  /** The inside of a string or a template: escapes of any character, otherwise no closing quote
      and, in a string, no line end. */
  predicate IsInside(s: string, quote: char, oneLine: bool) {
    if s == [] then true
    else if s[0] == '\\' then |s| >= 2 && IsInside(s[2..], quote, oneLine)
    else !Stops(s[0], quote, oneLine) && IsInside(s[1..], quote, oneLine)
  }

  predicate Stops(c: char, quote: char, oneLine: bool) {
    c == quote || (oneLine && (c == '\r' || c == '\n'))
  }

  /** An unescaped dollar sign before an opening brace. */
  predicate Substitutes(s: string) {
    if |s| < 2 then false
    else if s[0] == '\\' then Substitutes(s[2..])
    else (s[0] == '$' && s[1] == '{') || Substitutes(s[1..])
  }

  /** The inside of a regular expression: escapes, no line end, a slash only within a class, and no
      class left open. */
  predicate IsRegexText(s: string, inClass: bool) {
    if s == [] then !inClass
    else if s[0] == '\\' then |s| >= 2 && IsRegexText(s[2..], inClass)
    else if s[0] == '\r' || s[0] == '\n' then false
    else if s[0] == '[' then IsRegexText(s[1..], true)
    else if s[0] == ']' then IsRegexText(s[1..], false)
    else (s[0] == '/' ==> inClass) && IsRegexText(s[1..], inClass)
  }

  ghost predicate HasCommentEnd(s: string) {
    exists i :: 0 <= i < |s| - 1 && s[i] == '*' && s[i + 1] == '/'
  }

  // ---------- what came before ----------

  /** The last token that is no line end. */
  predicate IsLast(tokens: seq<Token>, p: nat) {
    p < |tokens| && !tokens[p].kind.Newline? && forall i :: p < i < |tokens| ==> tokens[i].kind.Newline?
  }

  ghost predicate AtStart(tokens: seq<Token>) {
    forall i :: 0 <= i < |tokens| ==> tokens[i].kind.Newline?
  }

  /** The token at p is the last one of an arrow. */
  predicate EndsArrow(tokens: seq<Token>, p: nat)
    requires p < |tokens|
  {
    tokens[p].value == ">" && p > 0 && tokens[p - 1].value == "="
  }

  predicate IsAnOperator(v: string) {
    v in {"(", "[", "{", "=", ",", ":", ";", "!", "?", "&", "|", "+", "-", "*", "%", "~"}
  }

  ghost predicate OpensRegex(tokens: seq<Token>) {
    AtStart(tokens) || exists p: nat :: IsLast(tokens, p) && OpensRegexAfter(tokens, p)
  }

  predicate OpensRegexAfter(tokens: seq<Token>, p: nat)
    requires p < |tokens|
  {
    || IsAnOperator(tokens[p].value) || EndsArrow(tokens, p)
    || (tokens[p].kind.Identifier? && tokens[p].value in {"return", "case", "throw", "yield", "await"})
  }

  ghost predicate OpensString(tokens: seq<Token>) {
    AtStart(tokens) || exists p: nat :: IsLast(tokens, p) && OpensStringAfter(tokens, p)
  }

  predicate OpensStringAfter(tokens: seq<Token>, p: nat)
    requires p < |tokens|
  {
    || IsAnOperator(tokens[p].value) || EndsArrow(tokens, p) || tokens[p].value == "=>"
    || (tokens[p].kind.Identifier?
        && tokens[p].value in {"from", "import", "return", "case", "throw", "yield", "await"})
  }

  // ---------- the language ----------

  predicate IsQuote(c: char) { c == '\'' || c == '"' }

  /** No letter: white space, line ends, the slash and the quotes. */
  predicate IsReserved(c: char) {
    IsBlankCharacter(c) || c == '\r' || c == '\n' || c == '/' || IsQuote(c) || c == '`'
  }

  predicate IsBlankCharacter(c: char) { c in {' ', '\t', '\U{000c}', '\U{000b}'} }

  /** Letter tests that take none of those for a letter. */
  ghost predicate IsSane(u: Letters) {
    forall c :: IsReserved(c) ==> !u.isAlpha(c)
  }

  predicate StartsWord(u: Letters, c: char) { u.isAlpha(c) || c == '_' || c == '$' }

  predicate GoesOn(u: Letters, c: char) { u.isAlnum(c) || c == '_' || c == '$' }

  /** A regular expression closes in this text. */
  ghost predicate ClosesRegex(rest: string) {
    exists n :: 0 <= n < |rest| && rest[n] == '/' && IsRegexText(rest[..n], false)
  }

  ghost predicate Fits(u: Letters, x: Lexeme, tokens: seq<Token>, rest: string) {
    match x
    case Blank(c) => IsBlankCharacter(c)
    case LineEnd(text) => text == "\n" || text == "\r\n" || (text == "\r" && !("\n" <= rest))
    case LineComment(body) => '\n' !in body && (rest == [] || rest[0] == '\n')
    case BlockComment(body) => !HasCommentEnd(body)
    case Quoted(quote, body) => IsQuote(quote) && IsInside(body, quote, true) && OpensString(tokens)
    case LoneQuote(quote) => IsQuote(quote) && !OpensString(tokens)
    case TemplateText(body) => IsInside(body, '`', false)
    case RegexText(body, flags) =>
      && OpensRegex(tokens) && IsRegexText(body, false) && body != [] && body[0] != '*'
      && (forall i :: 0 <= i < |flags| ==> u.isAlpha(flags[i])) && (rest == [] || !u.isAlpha(rest[0]))
    case Word(word) =>
      && word != [] && StartsWord(u, word[0]) && (forall i :: 1 <= i < |word| ==> GoesOn(u, word[i]))
      && (rest == [] || !GoesOn(u, rest[0]))
    case Sign(c) =>
      && !StartsWord(u, c) && (IsReserved(c) ==> c == '/')
      && (c == '/' ==> !("/" <= rest) && !("*" <= rest) && !(OpensRegex(tokens) && ClosesRegex(rest)))
  }

  /** A text that no lexeme begins, and how it is reported. */
  ghost predicate IsOpen(s: string, tokens: seq<Token>, e: LexError) {
    match e
    case OpenComment => "/*" <= s && !HasCommentEnd(s[2..])
    case OpenString => s != [] && IsQuote(s[0]) && OpensString(tokens)
                       && !Closes(s[1..], s[0], true) && !EndsInEscape(s[1..], s[0], true)
    case OpenStringEscape => s != [] && IsQuote(s[0]) && OpensString(tokens) && EndsInEscape(s[1..], s[0], true)
    case OpenTemplate => "`" <= s && !Closes(s[1..], '`', false) && !EndsInEscape(s[1..], '`', false)
    case OpenTemplateEscape => "`" <= s && EndsInEscape(s[1..], '`', false)
  }

  ghost predicate Closes(rest: string, quote: char, oneLine: bool) {
    exists n :: 0 <= n < |rest| && rest[n] == quote && IsInside(rest[..n], quote, oneLine)
  }

  /** The text runs out right after a backslash. */
  predicate EndsInEscape(rest: string, quote: char, oneLine: bool) {
    rest != [] && rest[|rest| - 1] == '\\' && IsInside(rest[..|rest| - 1], quote, oneLine)
  }

  // ---------- looking back ----------

  lemma LookBack(tokens: seq<Token>)
    ensures RegexMayStart(Look(tokens)) <==> OpensRegex(tokens)
    ensures StringMayStart(Look(tokens)) <==> OpensString(tokens)
  {
    var p := LastSignificant(tokens);
    if p >= 0 {
      assert IsLast(tokens, p);
      OperatorsAreThese(tokens[p].value);
    }
  }

  lemma OperatorsAreThese(v: string)
    ensures IsOperator(v) <==> IsAnOperator(v)
  {
    if |v| == 1 { assert v == [v[0]]; }
  }

  // ---------- strings and templates ----------

  /** How much of an inside is read at once. */
  function Stride(s: string): nat
    requires s != []
  {
    if s[0] == '\\' then 2 else 1
  }

  lemma {:induction false} InsideTail(s: string, quote: char, oneLine: bool, n: nat)
    requires s != [] && quote != '\\' && !Stops(s[0], quote, oneLine) && Stride(s) <= n <= |s|
    ensures IsInside(s[..n], quote, oneLine) <==> IsInside(s[Stride(s)..][..n - Stride(s)], quote, oneLine)
  {
    assert s[..n][0] == s[0] && s[..n][Stride(s)..] == s[Stride(s)..][..n - Stride(s)];
  }

  lemma {:induction false} LoneBackslash(s: string, quote: char, oneLine: bool)
    requires s != [] && s[0] == '\\'
    ensures !IsInside(s[..1], quote, oneLine)
  {
    assert s[..1] == [s[0]];
  }

  lemma {:induction false} ClosesTail(s: string, quote: char, oneLine: bool)
    requires s != [] && quote != '\\' && !Stops(s[0], quote, oneLine) && Stride(s) <= |s|
    ensures Closes(s, quote, oneLine) <==> Closes(s[Stride(s)..], quote, oneLine)
  {
    var k := Stride(s);
    var tail := s[k..];
    if Closes(tail, quote, oneLine) {
      var n :| 0 <= n < |tail| && tail[n] == quote && IsInside(tail[..n], quote, oneLine);
      InsideTail(s, quote, oneLine, n + k);
      assert s[n + k] == quote;
    }
    if k == 2 { LoneBackslash(s, quote, oneLine); }
    if Closes(s, quote, oneLine) {
      var n :| 0 <= n < |s| && s[n] == quote && IsInside(s[..n], quote, oneLine);
      assert n >= k;
      InsideTail(s, quote, oneLine, n);
      assert tail[n - k] == quote;
    }
  }

  lemma {:induction false} EscapeTail(s: string, quote: char, oneLine: bool)
    requires s != [] && quote != '\\' && !Stops(s[0], quote, oneLine) && Stride(s) <= |s|
    ensures EndsInEscape(s, quote, oneLine) <==> EndsInEscape(s[Stride(s)..], quote, oneLine)
  {
    var k := Stride(s);
    if k == 2 { LoneBackslash(s, quote, oneLine); }
    if k < |s| {
      InsideTail(s, quote, oneLine, |s| - 1);
      assert s[k..][|s| - k - 1] == s[|s| - 1];
      assert s[k..][..|s| - k - 1] == s[k..][..|s| - 1 - k];
    }
  }

  /** At the closing quote, at a line end that may not be there, and at the end of the text. */
  lemma {:induction false} InsideStops(s: string, quote: char, oneLine: bool)
    requires quote != '\\' && (s == [] || Stops(s[0], quote, oneLine))
    ensures !EndsInEscape(s, quote, oneLine)
    ensures Closes(s, quote, oneLine) <==> s != [] && s[0] == quote
    ensures s != [] ==> IsInside(s[..0], quote, oneLine)
  {
    forall n | 0 < n < |s| && s[0] != '\\' ensures !IsInside(s[..n], quote, oneLine) { assert s[..n][0] == s[0]; }
    if s != [] { assert s[..0] == []; }
  }

  lemma {:induction false} LastBackslash(s: string, quote: char, oneLine: bool)
    requires s == "\\" && quote != '\\'
    ensures EndsInEscape(s, quote, oneLine) && !Closes(s, quote, oneLine)
  {
    assert s[..0] == [];
  }

  /** What the scan of a string finds, exactly. */
  lemma {:induction false} StringBodyIsExact(s: string, quote: char)
    requires IsQuote(quote)
    ensures var b := StringBody(s, quote);
            && (b.Closed? <==> Closes(s, quote, true))
            && (b.Closed? ==> s[b.length - 1] == quote && IsInside(s[..b.length - 1], quote, true))
            && (b.Closed? ==> b.escaped == ('\\' in s[..b.length - 1]))
            && (b.Broken? ==> b.error == if EndsInEscape(s, quote, true) then OpenStringEscape else OpenString)
    decreases |s|
  {
    hide Closes, EndsInEscape;
    if s == [] || Stops(s[0], quote, true) {
      InsideStops(s, quote, true);
    } else if Stride(s) > |s| {
      assert s == "\\";
      LastBackslash(s, quote, true);
    } else {
      var k := Stride(s);
      StringBodyIsExact(s[k..], quote);
      ClosesTail(s, quote, true);
      EscapeTail(s, quote, true);
      var b := StringBody(s, quote);
      if b.Closed? {
        InsideTail(s, quote, true, b.length - 1);
        BackslashTail(s, b.length - 1);
      }
    }
  }

  lemma {:induction false} BackslashTail(s: string, n: nat)
    requires s != [] && Stride(s) <= n <= |s|
    ensures '\\' in s[..n] <==> s[0] == '\\' || '\\' in s[Stride(s)..][..n - Stride(s)]
  {
    var k := Stride(s);
    assert s[..n] == s[..k] + s[k..][..n - k] && s[..k][0] == s[0];
    if k == 1 { assert s[..1] == [s[0]]; }
  }

  lemma {:induction false} TemplateBodyIsExact(s: string)
    ensures var b := TemplateBody(s);
            && (b.Closed? <==> Closes(s, '`', false))
            && (b.Closed? ==> s[b.length - 1] == '`' && IsInside(s[..b.length - 1], '`', false))
            && (b.Closed? ==> b.escaped == ('\\' in s[..b.length - 1]))
            && (b.Closed? ==> b.substitution == Substitutes(s[..b.length - 1]))
            && (b.Broken? ==> b.error == if EndsInEscape(s, '`', false) then OpenTemplateEscape else OpenTemplate)
    decreases |s|
  {
    hide Closes, EndsInEscape;
    if s == [] || Stops(s[0], '`', false) {
      InsideStops(s, '`', false);
    } else if Stride(s) > |s| {
      assert s == "\\";
      LastBackslash(s, '`', false);
    } else {
      var k := Stride(s);
      TemplateBodyIsExact(s[k..]);
      ClosesTail(s, '`', false);
      EscapeTail(s, '`', false);
      var b := TemplateBody(s);
      if b.Closed? {
        InsideTail(s, '`', false, b.length - 1);
        BackslashTail(s, b.length - 1);
        SubstitutionTail(s, b.length - 1);
      }
    }
  }

  lemma {:induction false} SubstitutionTail(s: string, n: nat)
    requires s != [] && Stride(s) <= n < |s| && s[n] == '`'
    ensures Substitutes(s[..n]) <==>
      (s[0] == '$' && s[1] == '{') || Substitutes(s[Stride(s)..][..n - Stride(s)])
  {
    var k := Stride(s);
    assert s[..n][k..] == s[k..][..n - k];
    if n >= 2 { assert s[..n][0] == s[0] && s[..n][1] == s[1]; }
  }

  /** A text closes in one way only. */
  lemma {:induction false} OneClosing(body: string, quote: char, oneLine: bool, rest: string, n: nat)
    requires quote != '\\' && IsInside(body, quote, oneLine)
    requires var s := body + [quote] + rest; n < |s| && s[n] == quote && IsInside(s[..n], quote, oneLine)
    ensures n == |body|
    decreases |body|
  {
    var s := body + [quote] + rest;
    forall m | 0 < m < |s| && s[0] == quote ensures !IsInside(s[..m], quote, oneLine) { assert s[..m][0] == quote; }
    if body == [] {
      assert s[0] == quote;
    } else {
      assert s[0] == body[0];
      var k := Stride(s);
      if k == 2 { LoneBackslash(s, quote, oneLine); }
      assert n >= k;
      InsideTail(s, quote, oneLine, n);
      assert s[k..] == body[k..] + [quote] + rest;
      OneClosing(body[k..], quote, oneLine, rest, n - k);
    }
  }

  // ---------- regular expressions ----------

  /** What a character of a regular expression does to its class. */
  function ClassAfter(s: string, inClass: bool): bool
    requires s != []
  {
    if s[0] == '[' then true else if s[0] == ']' then false else inClass
  }

  /** A regular expression ends here, or may not go on. */
  predicate RegexStops(s: string, inClass: bool) {
    s == [] || s[0] == '\r' || s[0] == '\n' || (s[0] == '/' && !inClass)
  }

  lemma {:induction false} RegexTail(s: string, inClass: bool, n: nat)
    requires s != [] && !RegexStops(s, inClass) && Stride(s) <= n <= |s|
    ensures IsRegexText(s[..n], inClass) <==> IsRegexText(s[Stride(s)..][..n - Stride(s)], ClassAfter(s, inClass))
  {
    assert s[..n][0] == s[0] && s[..n][Stride(s)..] == s[Stride(s)..][..n - Stride(s)];
  }

  lemma {:induction false} RegexHere(s: string, inClass: bool, n: nat)
    requires n < |s| && s[n] == '/' && IsRegexText(s[..n], inClass)
    ensures RegexStops(s, inClass) ==> n == 0 && s[0] == '/'
    ensures !RegexStops(s, inClass) ==> Stride(s) <= n
  {
    assert n > 0 ==> s[..n][0] == s[0];
    assert n == 1 ==> s[..n] == [s[0]];
    assert n == 0 ==> s[..n] == [];
  }

  /** A regular expression closes in one way only, and the scan finds it. */
  lemma {:induction false} RegexClosesHere(s: string, inClass: bool, n: nat)
    requires n < |s| && s[n] == '/' && IsRegexText(s[..n], inClass)
    ensures RegexEnd(s, inClass) == Some(n + 1)
    decreases |s|
  {
    hide IsRegexText;
    RegexHere(s, inClass, n);
    if !RegexStops(s, inClass) {
      var k := Stride(s);
      RegexTail(s, inClass, n);
      assert s[k..][n - k] == '/';
      RegexClosesHere(s[k..], ClassAfter(s, inClass), n - k);
    }
  }

  lemma {:induction false} RegexEndCloses(s: string, inClass: bool)
    requires RegexEnd(s, inClass).Some?
    ensures var n := RegexEnd(s, inClass).value - 1; s[n] == '/' && IsRegexText(s[..n], inClass)
    decreases |s|
  {
    if RegexStops(s, inClass) {
      assert s[..0] == [];
    } else {
      hide IsRegexText;
      var k, n := Stride(s), RegexEnd(s, inClass).value - 1;
      RegexEndCloses(s[k..], ClassAfter(s, inClass));
      assert RegexEnd(s[k..], ClassAfter(s, inClass)) == Some(n + 1 - k);
      RegexTail(s, inClass, n);
    }
  }

  // ---------- comments, words and flags ----------

  lemma {:induction false} CommentEndIsExact(s: string)
    ensures var r := CommentEndAt(s);
            && (r.None? <==> !HasCommentEnd(s))
            && (r.Some? ==> s[r.value..][..2] == "*/" && !HasCommentEnd(s[..r.value + 1]))
  {
    if |s| >= 2 {
      if s[0] == '*' && s[1] == '/' {
        assert s[0..][..2] == "*/";
      } else {
        hide HasCommentEnd;
        CommentEndIsExact(s[1..]);
        NoEndInFront(s);
        var r := CommentEndAt(s);
        if r.Some? {
          assert s[r.value..] == s[1..][r.value - 1..];
          NoEndInFront(s[..r.value + 1]);
          assert s[..r.value + 1][1..] == s[1..][..r.value];
        }
      }
    } else {
      assert !HasCommentEnd(s);
    }
  }

  lemma NoEndInFront(s: string)
    requires |s| >= 2 && !(s[0] == '*' && s[1] == '/')
    ensures HasCommentEnd(s) <==> HasCommentEnd(s[1..])
  {
    var t := s[1..];
    if HasCommentEnd(s) {
      var i :| 0 <= i < |s| - 1 && s[i] == '*' && s[i + 1] == '/';
      assert t[i - 1] == '*' && t[i] == '/';
    }
    if HasCommentEnd(t) {
      var i :| 0 <= i < |t| - 1 && t[i] == '*' && t[i + 1] == '/';
      assert s[i + 1] == '*' && s[i + 2] == '/';
    }
  }

  lemma {:induction false} FirstCommentEnd(body: string, rest: string)
    requires !HasCommentEnd(body)
    ensures CommentEndAt(body + "*/" + rest) == Some(|body|)
  {
    var s := body + "*/" + rest;
    if body == [] {
      assert s[0] == '*' && s[1] == '/';
    } else {
      var t := body[1..];
      forall i | 0 <= i < |t| - 1 ensures !(t[i] == '*' && t[i + 1] == '/') {
        assert t[i] == body[i + 1] && t[i + 1] == body[i + 2];
      }
      assert s[0] == body[0] && s[1] == (if |body| > 1 then body[1] else '*');
      assert s[1..] == t + "*/" + rest;
      FirstCommentEnd(t, rest);
    }
  }

  lemma {:induction false} LineFeedsAreCounted(s: string)
    ensures LineFeeds(s) == multiset(s)['\n']
  {
    if s != [] {
      LineFeedsAreCounted(s[1..]);
      assert s == [s[0]] + s[1..];
    }
  }

  lemma {:induction false} LineFeedIsFirst(s: string)
    ensures var n := LineFeedAt(s); '\n' !in s[..n] && (n < |s| ==> s[n] == '\n')
  {
    if s != [] && s[0] != '\n' {
      LineFeedIsFirst(s[1..]);
      assert s[..LineFeedAt(s)] == [s[0]] + s[1..][..LineFeedAt(s) - 1];
    }
  }

  lemma {:induction false} WordRunIsLongest(u: Letters, s: string)
    ensures var n := WordRun(u, s);
            (forall i :: 0 <= i < n ==> GoesOn(u, s[i])) && (n < |s| ==> !GoesOn(u, s[n]))
  {
    if s != [] && GoesOn(u, s[0]) {
      WordRunIsLongest(u, s[1..]);
      forall i | 0 <= i < WordRun(u, s) ensures GoesOn(u, s[i]) { if i > 0 { assert s[i] == s[1..][i - 1]; } }
    }
  }

  lemma {:induction false} AlphaRunIsLongest(u: Letters, s: string)
    ensures var n := AlphaRun(u, s);
            (forall i :: 0 <= i < n ==> u.isAlpha(s[i])) && (n < |s| ==> !u.isAlpha(s[n]))
  {
    if s != [] && u.isAlpha(s[0]) {
      AlphaRunIsLongest(u, s[1..]);
      forall i | 0 <= i < AlphaRun(u, s) ensures u.isAlpha(s[i]) { if i > 0 { assert s[i] == s[1..][i - 1]; } }
    }
  }

  // ---------- one round ----------

  lemma {:induction false} Cut(a: string, b: string, c: string)
    ensures (a + b + c)[|a|..] == b + c && (a + b)[|a|..] == b && (a + b)[..|a|] == a
  {
  }

  /** A lexeme that fits is what the round reads. */
  lemma {:induction false} StringReads(u: Letters, quote: char, body: string, rest: string, view: View)
    requires IsQuote(quote) && IsInside(body, quote, true) && StringMayStart(view)
    ensures NextStep(u, [quote] + body + [quote] + rest, view)
            == Advance(|body| + 2, [Token(StringLiteral, body, '\\' in body)])
  {
    hide IsInside, StringBody, StringMayStart, RegexMayStart, Closes, RegexEnd, TemplateBody, WordRun, AlphaRun;
    var text := [quote] + body + [quote] + rest;
    var s := text[1..];
    assert s == body + [quote] + rest && s[..|body|] == body;
    StringBodyIsExact(s, quote);
    assert Closes(s, quote, true) by { ClosesAt(s, quote, true, |body|); }
    var n := StringBody(s, quote).length;
    OneClosing(body, quote, true, rest, n - 1);
    assert text[1..n] == body;
  }

  lemma {:induction false} ClosesAt(s: string, quote: char, oneLine: bool, n: nat)
    requires n < |s| && s[n] == quote && IsInside(s[..n], quote, oneLine)
    ensures Closes(s, quote, oneLine)
  {
  }

  lemma {:induction false} TemplateReads(u: Letters, body: string, rest: string, view: View)
    requires IsInside(body, '`', false)
    ensures NextStep(u, "`" + body + "`" + rest, view)
            == Advance(|body| + 2, TokensOf(TemplateText(body)))
  {
    hide IsInside, TemplateBody, StringMayStart, RegexMayStart, Closes, RegexEnd, StringBody, WordRun, AlphaRun,
         Substitutes;
    var text := "`" + body + "`" + rest;
    var s := text[1..];
    assert s == body + ['`'] + rest && s[..|body|] == body;
    TemplateBodyIsExact(s);
    assert Closes(s, '`', false) by { ClosesAt(s, '`', false, |body|); }
    var n := TemplateBody(s).length;
    OneClosing(body, '`', false, rest, n - 1);
    assert text[1..n] == body;
  }

  lemma {:induction false} RegexReads(u: Letters, body: string, flags: string, rest: string, view: View)
    requires RegexMayStart(view) && IsRegexText(body, false) && body != [] && body[0] != '*'
    requires (forall i :: 0 <= i < |flags| ==> u.isAlpha(flags[i])) && (rest == [] || !u.isAlpha(rest[0]))
    ensures NextStep(u, "/" + body + "/" + flags + rest, view)
            == Advance(|body| + |flags| + 2, [Token(Regex, "regex", false)])
  {
    hide TemplateBody, StringMayStart, RegexMayStart, RegexEnd, StringBody, WordRun;
    var text := "/" + body + "/" + flags + rest;
    var s := text[1..];
    assert s[..|body|] == body && s[|body|] == '/' && s[0] == body[0];
    RegexClosesHere(s, false, |body|);
    assert text[|body| + 2..] == flags + rest;
    RunOfFlags(u, flags, rest);
  }

  lemma {:induction false} RunOfFlags(u: Letters, flags: string, rest: string)
    requires (forall i :: 0 <= i < |flags| ==> u.isAlpha(flags[i])) && (rest == [] || !u.isAlpha(rest[0]))
    ensures AlphaRun(u, flags + rest) == |flags|
  {
    if flags == [] {
      assert flags + rest == rest;
    } else {
      assert (flags + rest)[1..] == flags[1..] + rest;
      RunOfFlags(u, flags[1..], rest);
    }
  }

  lemma {:induction false} RunOfWord(u: Letters, word: string, rest: string)
    requires (forall i :: 0 <= i < |word| ==> GoesOn(u, word[i])) && (rest == [] || !GoesOn(u, rest[0]))
    ensures WordRun(u, word + rest) == |word|
  {
    if word == [] {
      assert word + rest == rest;
    } else {
      assert (word + rest)[1..] == word[1..] + rest;
      RunOfWord(u, word[1..], rest);
    }
  }

  lemma {:induction false} WordReads(u: Letters, word: string, rest: string, view: View)
    requires IsSane(u) && Fits(u, Word(word), [], rest)
    ensures NextStep(u, word + rest, view) == Advance(|word|, [Token(Identifier, word, false)])
  {
    hide TemplateBody, StringMayStart, RegexMayStart, RegexEnd, StringBody, AlphaRun;
    var text := word + rest;
    assert text[0] == word[0] && !IsReserved(word[0]);
    assert text[1..] == word[1..] + rest;
    RunOfWord(u, word[1..], rest);
    assert text[..|word|] == word;
  }

  lemma {:induction false} SignReads(u: Letters, c: char, tokens: seq<Token>, rest: string)
    requires Fits(u, Sign(c), tokens, rest)
    ensures NextStep(u, [c] + rest, Look(tokens)) == Advance(1, [Token(Punctuation, [c], false)])
  {
    hide TemplateBody, RegexEnd, StringBody, AlphaRun, WordRun, Look, RegexMayStart, StringMayStart, OpensRegex,
         OpensString;
    var text := [c] + rest;
    assert text[1..] == rest;
    LookBack(tokens);
    if c == '/' && RegexEnd(rest, false).Some? { RegexEndCloses(rest, false); }
    if c == '/' && rest != [] { assert rest[0] != '/' && rest[0] != '*' by { FirstIs(rest); } }
  }

  lemma {:induction false} FirstIs(s: string)
    requires s != []
    ensures forall c :: [c] <= s <==> s[0] == c
  {
  }

  lemma {:induction false} OthersRead(u: Letters, x: Lexeme, tokens: seq<Token>, rest: string)
    requires Fits(u, x, tokens, rest) && (x.Blank? || x.LineEnd? || x.LoneQuote?)
    ensures NextStep(u, TextOf(x) + rest, Look(tokens)) == Advance(|TextOf(x)|, TokensOf(x))
  {
    hide TemplateBody, RegexEnd, StringBody, AlphaRun, WordRun, Look, RegexMayStart, StringMayStart, OpensRegex,
         OpensString;
    LookBack(tokens);
    if x.LineEnd? && rest != [] { FirstIs(rest); }
  }

  lemma {:induction false} LineCommentReads(u: Letters, body: string, rest: string, view: View)
    requires '\n' !in body && (rest == [] || rest[0] == '\n')
    ensures NextStep(u, "//" + body + rest, view) == Advance(|body| + 2, [])
  {
    hide SignificantStep, LineFeedAt, CommentEndAt, LineFeeds;
    assert ("//" + body + rest)[2..] == body + rest;
    LexerTheorems.LineFeedAtEnd(body, rest);
  }

  lemma {:induction false} LineFeedsOfComment(body: string)
    ensures LineFeeds("/*" + body + "*/") == multiset(body)['\n']
  {
    LexerTheorems.LineFeedsAppend("/*" + body, "*/");
    LexerTheorems.LineFeedsAppend("/*", body);
    assert LineFeeds("/*") == 0 && LineFeeds("*/") == 0 by {
      assert "/*"[1..] == "*" && "*/"[1..] == "/" && "*"[1..] == "" && "/"[1..] == "";
    }
    LineFeedsAreCounted(body);
  }

  lemma {:induction false} BlockCommentReads(u: Letters, body: string, rest: string, view: View)
    requires !HasCommentEnd(body)
    ensures NextStep(u, "/*" + body + "*/" + rest, view) == Advance(|body| + 4, TokensOf(BlockComment(body)))
  {
    hide SignificantStep, LineFeedAt, CommentEndAt, LineFeeds, HasCommentEnd;
    var comment := "/*" + body + "*/";
    var text := comment + rest;
    assert text[2..] == body + "*/" + rest && text[..|comment|] == comment;
    FirstCommentEnd(body, rest);
    LineFeedsOfComment(body);
  }

  /** Every lexeme, wherever it fits, is read as it is written. */
  lemma {:induction false} LexemeIsRead(u: Letters, x: Lexeme, tokens: seq<Token>, rest: string)
    requires IsSane(u) && Fits(u, x, tokens, rest)
    ensures NextStep(u, TextOf(x) + rest, Look(tokens)) == Advance(|TextOf(x)|, TokensOf(x))
  {
    hide NextStep, Look, RegexMayStart, StringMayStart, OpensRegex, OpensString, IsSane, Substitutes, IsInside,
         IsRegexText, HasCommentEnd, ClosesRegex;
    LookBack(tokens);
    match x
    case Blank(_) => OthersRead(u, x, tokens, rest);
    case LineEnd(_) => OthersRead(u, x, tokens, rest);
    case LoneQuote(_) => OthersRead(u, x, tokens, rest);
    case LineComment(body) => LineCommentReads(u, body, rest, Look(tokens));
    case BlockComment(body) => BlockCommentReads(u, body, rest, Look(tokens));
    case Quoted(quote, body) => StringReads(u, quote, body, rest, Look(tokens));
    case TemplateText(body) => TemplateReads(u, body, rest, Look(tokens));
    case RegexText(body, flags) => RegexReads(u, body, flags, rest, Look(tokens));
    case Word(word) => WordReads(u, word, rest, Look(tokens));
    case Sign(c) => SignReads(u, c, tokens, rest);
  }

  // ---------- every round reads a lexeme ----------

  /** What a round that advances has read. */
  lemma {:induction false} LexemeAtFront(u: Letters, s: string, tokens: seq<Token>) returns (x: Lexeme, rest: string)
    requires IsSane(u) && s != [] && NextStep(u, s, Look(tokens)).Advance?
    ensures s == TextOf(x) + rest && TextOf(x) != [] && Fits(u, x, tokens, rest)
  {
    hide SignificantStep, Look, LineFeedAt, CommentEndAt, LineFeeds, HasCommentEnd, IsInside, IsRegexText, OpensRegex,
         OpensString, ClosesRegex, Substitutes;
    var c := s[0];
    var n := NextStep(u, s, Look(tokens)).length;
    if IsBlank(c) {
      x, rest := Blank(c), s[1..];
    } else if c == '\r' || c == '\n' {
      x, rest := LineEnd(s[..n]), s[n..];
      LineEndIs(s, n);
    } else if c == '/' && |s| > 1 && s[1] == '/' {
      x, rest := LineComment(s[2..n]), s[n..];
      LineFeedIsFirst(s[2..]);
      assert s[2..n] == s[2..][..n - 2] && s == "//" + s[2..n] + s[n..];
    } else if c == '/' && |s| > 1 && s[1] == '*' {
      x, rest := BlockComment(s[2..n - 2]), s[n..];
      BlockCommentIs(s, n);
    } else {
      x, rest := SignificantAtFront(u, s, tokens);
    }
  }

  lemma {:induction false} LineEndIs(s: string, n: nat)
    requires s != [] && (s[0] == '\r' || s[0] == '\n')
    requires n == if s[0] == '\r' && |s| > 1 && s[1] == '\n' then 2 else 1
    ensures s[..n] == "\n" || s[..n] == "\r\n" || (s[..n] == "\r" && !("\n" <= s[n..]))
  {
    if n < |s| { FirstIs(s[n..]); }
    assert n == 1 ==> s[..n] == [s[0]];
  }

  lemma {:induction false} BlockCommentIs(s: string, n: nat)
    requires |s| > 1 && s[0] == '/' && s[1] == '*' && CommentEndAt(s[2..]) == Some(n - 4) && n >= 4
    ensures s == "/*" + s[2..n - 2] + "*/" + s[n..] && !HasCommentEnd(s[2..n - 2])
  {
    hide CommentEndAt;
    var t := s[2..];
    CommentEndIsExact(t);
    assert t[n - 4..][..2] == s[n - 2..n];
    var a, b := s[2..n - 2], t[..n - 3];
    forall i | 0 <= i < |a| - 1 ensures !(a[i] == '*' && a[i + 1] == '/') {
      assert a[i] == b[i] && a[i + 1] == b[i + 1];
    }
  }

  lemma {:induction false} QuotedAtFront(u: Letters, s: string, tokens: seq<Token>) returns (x: Lexeme, rest: string)
    requires s != [] && IsQuote(s[0]) && OpensString(tokens) && StringBody(s[1..], s[0]).Closed?
    ensures s == TextOf(x) + rest && TextOf(x) != [] && Fits(u, x, tokens, rest)
  {
    hide IsInside, OpensString, StringBody;
    var c := s[0];
    var n := StringBody(s[1..], c).length;
    x, rest := Quoted(c, s[1..n]), s[n + 1..];
    StringBodyIsExact(s[1..], c);
    assert s[1..n] == s[1..][..n - 1] && s[n] == s[1..][n - 1];
    assert s == [c] + s[1..n] + [c] + s[n + 1..];
  }

  lemma {:induction false} TemplateAtFront(u: Letters, s: string, tokens: seq<Token>) returns (x: Lexeme, rest: string)
    requires s != [] && s[0] == '`' && TemplateBody(s[1..]).Closed?
    ensures s == TextOf(x) + rest && TextOf(x) != [] && Fits(u, x, tokens, rest)
  {
    hide IsInside, TemplateBody;
    var n := TemplateBody(s[1..]).length;
    x, rest := TemplateText(s[1..n]), s[n + 1..];
    TemplateBodyIsExact(s[1..]);
    assert s[1..n] == s[1..][..n - 1] && s[n] == s[1..][n - 1];
    assert s == "`" + s[1..n] + "`" + s[n + 1..];
  }

  lemma {:induction false} SignificantAtFront(u: Letters, s: string, tokens: seq<Token>)
    returns (x: Lexeme, rest: string)
    requires IsSane(u) && s != [] && SignificantStep(u, s, Look(tokens)).Advance?
    requires !IsBlank(s[0]) && s[0] != '\r' && s[0] != '\n'
    requires s[0] == '/' && |s| > 1 ==> s[1] != '/' && s[1] != '*'
    ensures s == TextOf(x) + rest && TextOf(x) != [] && Fits(u, x, tokens, rest)
  {
    hide Look, IsInside, IsRegexText, OpensRegex, OpensString, ClosesRegex, Substitutes, RegexEnd, StringBody,
         TemplateBody, AlphaRun, WordRun, RegexMayStart, StringMayStart;
    var c := s[0];
    LookBack(tokens);
    if c == '/' && RegexMayStart(Look(tokens)) && RegexEnd(s[1..], false).Some? {
      x, rest := RegexAtFront(u, s, tokens);
    } else if IsQuote(c) && StringMayStart(Look(tokens)) {
      x, rest := QuotedAtFront(u, s, tokens);
    } else if IsQuote(c) {
      x, rest := LoneQuote(c), s[1..];
    } else if c == '`' {
      x, rest := TemplateAtFront(u, s, tokens);
    } else if StartsWord(u, c) {
      x, rest := WordAtFront(u, s, tokens);
    } else {
      x, rest := Sign(c), s[1..];
      if c == '/' { SlashIsASign(s, tokens); }
    }
  }

  lemma {:induction false} RegexAtFront(u: Letters, s: string, tokens: seq<Token>) returns (x: Lexeme, rest: string)
    requires |s| > 1 && s[0] == '/' && s[1] != '/' && s[1] != '*' && OpensRegex(tokens)
    requires RegexEnd(s[1..], false).Some?
    ensures s == TextOf(x) + rest && TextOf(x) != [] && Fits(u, x, tokens, rest)
  {
    hide OpensRegex, RegexEnd, AlphaRun, IsRegexText;
    var t := s[1..];
    RegexEndCloses(t, false);
    var n := RegexEnd(t, false).value;
    AlphaRunIsLongest(u, t[n..]);
    var k := AlphaRun(u, t[n..]);
    assert n > 1 by { assert t[0] == s[1]; }
    x, rest := RegexText(t[..n - 1], t[n..][..k]), t[n..][k..];
    RegexPieces(s, n, k);
  }

  lemma RegexPieces(s: string, n: nat, k: nat)
    requires 1 < n < |s| && s[0] == '/' && s[n] == '/' && n + 1 + k <= |s|
    ensures var t := s[1..];
            s == "/" + t[..n - 1] + "/" + t[n..][..k] + t[n..][k..] && t[..n - 1] != [] && t[..n - 1][0] == s[1]
  {
    var t := s[1..];
    assert t == t[..n - 1] + "/" + t[n..];
    assert t[n..] == t[n..][..k] + t[n..][k..];
    assert s == "/" + t;
  }

  lemma {:induction false} WordAtFront(u: Letters, s: string, tokens: seq<Token>) returns (x: Lexeme, rest: string)
    requires s != [] && StartsWord(u, s[0])
    ensures s == TextOf(x) + rest && TextOf(x) != [] && Fits(u, x, tokens, rest)
  {
    hide WordRun;
    var n := 1 + WordRun(u, s[1..]);
    WordRunIsLongest(u, s[1..]);
    x, rest := Word(s[..n]), s[n..];
    forall i | 1 <= i < n ensures GoesOn(u, s[..n][i]) { assert s[..n][i] == s[1..][i - 1]; }
    if n < |s| { assert rest[0] == s[1..][n - 1]; }
  }

  lemma {:induction false} SlashIsASign(s: string, tokens: seq<Token>)
    requires s != [] && (|s| > 1 ==> s[1] != '/' && s[1] != '*')
    requires OpensRegex(tokens) ==> RegexEnd(s[1..], false).None?
    ensures var rest := s[1..]; !("/" <= rest) && !("*" <= rest) && !(OpensRegex(tokens) && ClosesRegex(rest))
  {
    hide OpensRegex, RegexEnd, IsRegexText;
    var rest := s[1..];
    if rest != [] { FirstIs(rest); }
    if ClosesRegex(rest) {
      var n :| 0 <= n < |rest| && rest[n] == '/' && IsRegexText(rest[..n], false);
      RegexClosesHere(rest, false, n);
    }
  }

  /** A round fails exactly on a text that nothing closes. */
  lemma {:induction false} FailsWhenOpen(u: Letters, s: string, tokens: seq<Token>, e: LexError)
    requires s != []
    ensures NextStep(u, s, Look(tokens)) == Fail(e) <==> IsOpen(s, tokens, e)
  {
    hide Look, LineFeedAt, CommentEndAt, LineFeeds, HasCommentEnd, IsInside, OpensRegex, OpensString, RegexEnd,
         StringBody, TemplateBody, AlphaRun, WordRun, RegexMayStart, StringMayStart, Closes, EndsInEscape;
    LookBack(tokens);
    var c := s[0];
    if |s| > 1 { CommentEndIsExact(s[2..]); }
    if IsQuote(c) { StringBodyIsExact(s[1..], c); OneFailure(s[1..], c, true); }
    TemplateBodyIsExact(s[1..]);
    OneFailure(s[1..], '`', false);
    assert "`" <= s <==> c == '`';
    assert "/*" <= s <==> |s| > 1 && c == '/' && s[1] == '*';
  }

  /** A text that closes does not run out in an escape. */
  lemma {:induction false} OneFailure(s: string, quote: char, oneLine: bool)
    requires quote != '\\'
    ensures !(Closes(s, quote, oneLine) && EndsInEscape(s, quote, oneLine))
    decreases |s|
  {
    hide Closes, EndsInEscape;
    if s == [] || Stops(s[0], quote, oneLine) {
      InsideStops(s, quote, oneLine);
    } else if Stride(s) > |s| {
      assert s == "\\";
      LastBackslash(s, quote, oneLine);
    } else {
      ClosesTail(s, quote, oneLine);
      EscapeTail(s, quote, oneLine);
      OneFailure(s[Stride(s)..], quote, oneLine);
    }
  }

  // ---------- whole texts ----------

  /** Reading these lexemes off the front of s, after some tokens, leaves a rest and more tokens. */
  ghost predicate Reads(u: Letters, xs: seq<Lexeme>, s: string, tokens: seq<Token>, rest: string, read: seq<Token>) {
    if xs == [] then s == rest && tokens == read
    else
      var n := |TextOf(xs[0])|;
      && TextOf(xs[0]) <= s && Fits(u, xs[0], tokens, s[n..])
      && Reads(u, xs[1..], s[n..], tokens + TokensOf(xs[0]), rest, read)
  }

  /** From every state, a lexeme that fits becomes its tokens. */
  lemma {:induction false} LexemeStep(u: Letters, x: Lexeme, tokens: seq<Token>, rest: string)
    requires IsSane(u) && Fits(u, x, tokens, rest)
    ensures Lex(u, TextOf(x) + rest, tokens) == Lex(u, rest, tokens + TokensOf(x))
  {
    hide NextStep, Look, Fits, TokensOf;
    LexemeIsRead(u, x, tokens, rest);
    LexemesAreNotEmpty(u, x, tokens, rest);
    assert (TextOf(x) + rest)[|TextOf(x)|..] == rest;
  }

  lemma {:induction false} LexemesAreNotEmpty(u: Letters, x: Lexeme, tokens: seq<Token>, rest: string)
    requires Fits(u, x, tokens, rest)
    ensures TextOf(x) != []
  {
  }

  lemma {:induction false} LexFollows(u: Letters, xs: seq<Lexeme>, s: string, tokens: seq<Token>, rest: string,
                                      read: seq<Token>)
    requires IsSane(u) && Reads(u, xs, s, tokens, rest, read)
    ensures Lex(u, s, tokens) == Lex(u, rest, read)
    decreases |xs|
  {
    hide Lex, Fits, TextOf, TokensOf, IsSane;
    if xs != [] {
      var n := |TextOf(xs[0])|;
      assert s == TextOf(xs[0]) + s[n..];
      LexemeStep(u, xs[0], tokens, s[n..]);
      LexFollows(u, xs[1..], s[n..], tokens + TokensOf(xs[0]), rest, read);
    }
  }

  /** A text is read lexeme by lexeme, to its end or to something open. */
  lemma {:induction false} LexReads(u: Letters, s: string, tokens: seq<Token>)
    returns (xs: seq<Lexeme>, rest: string, read: seq<Token>)
    requires IsSane(u)
    ensures Reads(u, xs, s, tokens, rest, read)
    ensures Lex(u, s, tokens).Ok? ==> rest == [] && Lex(u, s, tokens).value == read
    ensures Lex(u, s, tokens).Err? ==> rest != [] && NextStep(u, rest, Look(read)) == Fail(Lex(u, s, tokens).error)
    decreases |s|
  {
    hide NextStep, Look, Fits, TextOf, TokensOf, IsSane;
    xs, rest, read := [], s, tokens;
    if s != [] && NextStep(u, s, Look(tokens)).Advance? {
      var x, tail := LexemeAtFront(u, s, tokens);
      var n := |TextOf(x)|;
      assert s[n..] == tail;
      LexemeIsRead(u, x, tokens, tail);
      var more: seq<Lexeme>;
      more, rest, read := LexReads(u, tail, tokens + TokensOf(x));
      xs := [x] + more;
      assert xs[1..] == more;
    }
  }

  /** The tokenizer reads exactly this language: a text has tokens if and only if it is a sequence
      of lexemes that fit, and those are the tokens; otherwise it reports what is left open after the
      lexemes before it. */
  lemma {:induction false} LexIsExact(u: Letters, source: string)
    requires IsSane(u)
    ensures forall read :: Lex(u, source, []) == Ok(read) <==> exists xs :: Reads(u, xs, source, [], [], read)
    ensures forall e :: Lex(u, source, []) == Err(e) <==>
      exists xs, rest, read :: Reads(u, xs, source, [], rest, read) && IsOpen(rest, read, e)
  {
    hide NextStep, Look, Fits, TextOf, TokensOf, IsSane, Reads, Lex, IsOpen;
    var xs, rest, read := LexReads(u, source, []);
    if rest != [] { forall e { FailsWhenOpen(u, rest, read, e); } }
    forall xs, read | Reads(u, xs, source, [], [], read) ensures Lex(u, source, []) == Ok(read) {
      LexFollows(u, xs, source, [], [], read);
      EmptyText(u, read);
    }
    forall xs, rest, read, e | Reads(u, xs, source, [], rest, read) && IsOpen(rest, read, e)
      ensures Lex(u, source, []) == Err(e)
    {
      LexFollows(u, xs, source, [], rest, read);
      OpenText(u, rest, read, e);
    }
  }

  lemma {:induction false} EmptyText(u: Letters, tokens: seq<Token>)
    ensures Lex(u, [], tokens) == Ok(tokens)
  {
  }

  lemma {:induction false} OpenText(u: Letters, s: string, tokens: seq<Token>, e: LexError)
    requires IsOpen(s, tokens, e)
    ensures Lex(u, s, tokens) == Err(e)
  {
    hide NextStep, Look, Closes, EndsInEscape, HasCommentEnd, OpensString;
    FailsWhenOpen(u, s, tokens, e);
  }

  /** No string is missed: at the start of a text and after from, import or an opening bracket a
      quoted text is a string, whatever stands before and after. */
  lemma {:induction false} StringsAreFound(u: Letters, tokens: seq<Token>, previous: Token, quote: char, m: string,
                                           rest: string)
    requires IsSane(u) && IsQuote(quote) && IsInside(m, quote, true)
    requires previous in {Token(Identifier, "from", false), Token(Identifier, "import", false),
                          Token(Punctuation, "(", false)}
    ensures Lex(u, [quote] + m + [quote] + rest, tokens + [previous])
            == Lex(u, rest, tokens + [previous, Token(StringLiteral, m, '\\' in m)])
    ensures Lex(u, [quote] + m + [quote] + rest, []) == Lex(u, rest, [Token(StringLiteral, m, '\\' in m)])
  {
    hide Lex, IsInside, IsSane;
    var before, x := tokens + [previous], Quoted(quote, m);
    assert OpensString(before) by {
      assert IsLast(before, |tokens|);
      assert OpensStringAfter(before, |tokens|);
    }
    LexemeStep(u, x, before, rest);
    LexemeStep(u, x, [], rest);
    assert [] + TokensOf(x) == [Token(StringLiteral, m, '\\' in m)];
    assert before + TokensOf(x) == tokens + [previous, Token(StringLiteral, m, '\\' in m)];
  }
}
