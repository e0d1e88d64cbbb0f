/** The JavaScript tokenizer of the public export (scripts/export_public_candidate.py), as a
    step function on the remaining text and the tokens read so far, and as the index-driven
    loop the exporter runs. */
module JavaScriptLexer {
  import opened Text

  datatype Kind = Newline | Identifier | StringLiteral | Template | TemplateExpression | Regex | Punctuation

  datatype Token = Token(kind: Kind, value: string, escaped: bool)

  const NEWLINE := Token(Newline, "\n", false)
  const REGEX := Token(Regex, "regex", false)

  datatype LexError = OpenComment | OpenString | OpenStringEscape | OpenTemplate | OpenTemplateEscape

  /** The Unicode letter tests the tokenizer delegates to. */
  datatype Letters = Letters(isAlpha: char -> bool, isAlnum: char -> bool)

  // ---------- looking back ----------

  function LastSignificant(tokens: seq<Token>): (p: int)
    ensures -1 <= p < |tokens|
    ensures p >= 0 ==> !tokens[p].kind.Newline?
    ensures forall i :: p < i < |tokens| ==> tokens[i].kind.Newline?
  {
    if tokens == [] then -1
    else if !tokens[|tokens| - 1].kind.Newline? then |tokens| - 1
    else LastSignificant(tokens[..|tokens| - 1])
  }

  /** What a look-back sees: the last significant token and the token right before it. */
  datatype View = View(last: Option<Token>, before: Option<Token>)

  function Look(tokens: seq<Token>): View {
    var p := LastSignificant(tokens);
    View(if p >= 0 then Some(tokens[p]) else None, if p > 0 then Some(tokens[p - 1]) else None)
  }

  predicate IsOperator(v: string) {
    |v| == 1 && var c := v[0];
    || c == '(' || c == '[' || c == '{' || c == '=' || c == ',' || c == ':' || c == ';' || c == '!'
    || c == '?' || c == '&' || c == '|' || c == '+' || c == '-' || c == '*' || c == '%' || c == '~'
  }

  predicate AfterArrow(v: View) {
    v.last.Some? && v.last.value.value == ">" && v.before.Some? && v.before.value.value == "="
  }

  predicate RegexMayStart(v: View) {
    || v.last.None? || IsOperator(v.last.value.value) || AfterArrow(v)
    || (v.last.value.kind.Identifier? && v.last.value.value in {"return", "case", "throw", "yield", "await"})
  }

  predicate StringMayStart(v: View) {
    || v.last.None? || IsOperator(v.last.value.value) || v.last.value.value == "=>" || AfterArrow(v)
    || (v.last.value.kind.Identifier?
        && v.last.value.value in {"from", "import", "return", "case", "throw", "yield", "await"})
  }

  // ---------- scanning forward ----------

  function LineFeedAt(s: string): (n: nat)
    ensures n <= |s|
  {
    if s == [] || s[0] == '\n' then 0 else 1 + LineFeedAt(s[1..])
  }

  function CommentEndAt(s: string): (r: Option<nat>)
    ensures r.Some? ==> r.value + 2 <= |s|
  {
    if |s| < 2 then None
    else if s[0] == '*' && s[1] == '/' then Some(0)
    else match CommentEndAt(s[1..]) case None => None case Some(n) => Some(n + 1)
  }

  function LineFeeds(s: string): (n: nat)
    ensures n <= |s|
  {
    if s == [] then 0 else (if s[0] == '\n' then 1 else 0) + LineFeeds(s[1..])
  }

  /** How much of s a regular expression body takes, with its closing slash. */
  function RegexEnd(s: string, inClass: bool): (r: Option<nat>)
    ensures r.Some? ==> 1 <= r.value <= |s|
  {
    if s == [] then None
    else if s[0] == '\\' then (if |s| < 2 then None else Add(RegexEnd(s[2..], inClass), 2))
    else if s[0] == '\r' || s[0] == '\n' then None
    else if s[0] == '[' then Add(RegexEnd(s[1..], true), 1)
    else if s[0] == ']' then Add(RegexEnd(s[1..], false), 1)
    else if s[0] == '/' && !inClass then Some(1)
    else Add(RegexEnd(s[1..], inClass), 1)
  }

  function Add(r: Option<nat>, k: nat): Option<nat> {
    if r.None? then None else Some(r.value + k)
  }

  function AlphaRun(u: Letters, s: string): (n: nat)
    ensures n <= |s|
  {
    if s == [] || !u.isAlpha(s[0]) then 0 else 1 + AlphaRun(u, s[1..])
  }

  predicate ContinuesWord(u: Letters, c: char) {
    u.isAlnum(c) || c == '_' || c == '$'
  }

  function WordRun(u: Letters, s: string): (n: nat)
    ensures n <= |s|
  {
    if s == [] || !ContinuesWord(u, s[0]) then 0 else 1 + WordRun(u, s[1..])
  }

  /** A quoted body: how far it runs with its closing quote, and what was met on the way. */
  datatype Body = Closed(length: nat, escaped: bool, substitution: bool) | Broken(error: LexError)

  function Longer(b: Body, k: nat, escape: bool, substitution: bool): Body {
    match b
    case Closed(n, e, s) => Closed(n + k, e || escape, s || substitution)
    case Broken(e) => Broken(e)
  }

  function StringBody(s: string, quote: char): (b: Body)
    ensures b.Closed? ==> 1 <= b.length <= |s| && s[b.length - 1] == quote
  {
    if s == [] then Broken(OpenString)
    else if s[0] == quote then Closed(1, false, false)
    else if s[0] == '\r' || s[0] == '\n' then Broken(OpenString)
    else if s[0] == '\\' then
      (if |s| < 2 then Broken(OpenStringEscape) else Longer(StringBody(s[2..], quote), 2, true, false))
    else Longer(StringBody(s[1..], quote), 1, false, false)
  }

  function TemplateBody(s: string): (b: Body)
    ensures b.Closed? ==> 1 <= b.length <= |s| && s[b.length - 1] == '`'
  {
    if s == [] then Broken(OpenTemplate)
    else if s[0] == '\\' then
      (if |s| < 2 then Broken(OpenTemplateEscape) else Longer(TemplateBody(s[2..]), 2, true, false))
    else if s[0] == '`' then Closed(1, false, false)
    else Longer(TemplateBody(s[1..]), 1, false, s[0] == '$' && |s| > 1 && s[1] == '{')
  }

  // ---------- one step and the whole ----------

  datatype Step = Fail(error: LexError) | Advance(length: nat, emitted: seq<Token>)

  predicate IsBlank(c: char) {
    c == ' ' || c == '\t' || c == '\U{000c}' || c == '\U{000b}'
  }

  function Newlines(n: nat): (r: seq<Token>)
    ensures |r| == n
  {
    seq(n, _ => NEWLINE)
  }

  function StringStep(rest: string, quote: char): Step
    requires rest != []
  {
    match StringBody(rest[1..], quote)
    case Broken(e) => Fail(e)
    case Closed(n, escaped, _) => Advance(n + 1, [Token(StringLiteral, rest[1..n], escaped)])
  }

  function TemplateStep(rest: string): Step
    requires rest != []
  {
    match TemplateBody(rest[1..])
    case Broken(e) => Fail(e)
    case Closed(n, escaped, substitution) =>
      Advance(n + 1, [Token(if substitution then TemplateExpression else Template, rest[1..n], escaped)])
  }

  /** The token at the front of a text that starts with neither blank nor comment. */
  function SignificantStep(u: Letters, rest: string, view: View): (s: Step)
    requires rest != []
    ensures s.Advance? ==> 1 <= s.length <= |rest| && |s.emitted| == 1
  {
    var c := rest[0];
    var regex := if c == '/' && RegexMayStart(view) then RegexEnd(rest[1..], false) else None;
    if regex.Some? then Advance(1 + regex.value + AlphaRun(u, rest[1 + regex.value..]), [REGEX])
    else if c == '\'' || c == '"' then
      if StringMayStart(view) then StringStep(rest, c) else Advance(1, [Token(Punctuation, [c], false)])
    else if c == '`' then TemplateStep(rest)
    else if u.isAlpha(c) || c == '_' || c == '$' then
      var n := 1 + WordRun(u, rest[1..]);
      Advance(n, [Token(Identifier, rest[..n], false)])
    else Advance(1, [Token(Punctuation, [c], false)])
  }

  /** The token, if any, that starts at the front of the text, or the blank or comment there. */
  function NextStep(u: Letters, rest: string, view: View): (s: Step)
    requires rest != []
    ensures s.Advance? ==> 1 <= s.length <= |rest| && |s.emitted| <= s.length
  {
    var c := rest[0];
    if IsBlank(c) then Advance(1, [])
    else if c == '\r' || c == '\n' then
      Advance(if c == '\r' && |rest| > 1 && rest[1] == '\n' then 2 else 1, [NEWLINE])
    else if c == '/' && |rest| > 1 && rest[1] == '/' then Advance(2 + LineFeedAt(rest[2..]), [])
    else if c == '/' && |rest| > 1 && rest[1] == '*' then
      match CommentEndAt(rest[2..])
      case None => Fail(OpenComment)
      case Some(n) => Advance(n + 4, Newlines(LineFeeds(rest[..n + 4])))
    else SignificantStep(u, rest, view)
  }

  /** The tokens of the remaining text after the tokens already read. */
  function Lex(u: Letters, rest: string, tokens: seq<Token>): Result<seq<Token>, LexError>
    decreases |rest|
  {
    if rest == [] then Ok(tokens)
    else match NextStep(u, rest, Look(tokens))
      case Fail(e) => Err(e)
      case Advance(n, emitted) => Lex(u, rest[n..], tokens + emitted)
  }

  /** At most one token per character. */
  lemma {:induction false} TokenBound(u: Letters, rest: string, tokens: seq<Token>)
    ensures var r := Lex(u, rest, tokens); r.Ok? ==> |r.value| <= |tokens| + |rest|
    decreases |rest|
  {
    hide NextStep, Look;
    if rest != [] {
      var s := NextStep(u, rest, Look(tokens));
      if s.Advance? { TokenBound(u, rest[s.length..], tokens + s.emitted); }
    }
  }
}
