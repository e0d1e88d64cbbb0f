/** The tokenizer loop of the public export (scripts/export_public_candidate.py), with its
    index and its inner scanning loops, proved to compute `JavaScriptLexer.Lex`. */
module JavaScriptTokenizer {
  import opened Text
  import opened JavaScriptLexer

  /** The look-back loop over trailing newline tokens. */
  method LookBack(tokens: seq<Token>) returns (view: View)
    ensures view == Look(tokens)
  {
    var previous := |tokens| - 1;
    while previous >= 0 && tokens[previous].kind.Newline?
      invariant -1 <= previous < |tokens|
      invariant LastSignificant(tokens) == LastSignificant(tokens[..previous + 1])
    {
      assert tokens[..previous + 1][..previous] == tokens[..previous];
      previous := previous - 1;
    }
    view := View(if previous >= 0 then Some(tokens[previous]) else None,
                 if previous > 0 then Some(tokens[previous - 1]) else None);
  }

  method ScanFlags(u: Letters, source: string, start: nat) returns (cursor: nat)
    requires start <= |source|
    ensures cursor == start + AlphaRun(u, source[start..])
  {
    cursor := start;
    while cursor < |source| && u.isAlpha(source[cursor])
      invariant start <= cursor <= |source|
      invariant cursor + AlphaRun(u, source[cursor..]) == start + AlphaRun(u, source[start..])
    {
      assert source[cursor..][1..] == source[cursor + 1..];
      cursor := cursor + 1;
    }
  }

  lemma RegexEndStep(s: string, inClass: bool)
    requires s != []
    ensures RegexEnd(s, inClass) ==
      if s[0] == '\\' then (if |s| < 2 then None else Add(RegexEnd(s[2..], inClass), 2))
      else if s[0] == '\r' || s[0] == '\n' then None
      else if s[0] == '/' && !inClass then Some(1)
      else Add(RegexEnd(s[1..], s[0] == '[' || (s[0] != ']' && inClass)), 1)
    ensures RegexEnd([], inClass) == None
  {
  }

  /** The regular-expression loop: the index after the literal and its flags, if it closes on
      this line. */
  method ScanRegex(u: Letters, source: string, index: nat) returns (end: Option<nat>)
    requires index < |source|
    ensures var body := RegexEnd(source[index + 1..], false);
            end == if body.None? then None
                   else Some(index + 1 + body.value + AlphaRun(u, source[index + 1 + body.value..]))
  {
    hide RegexEnd, AlphaRun;
    var cursor := index + 1;
    var inClass := false;
    ghost var whole := RegexEnd(source[index + 1..], false);
    while cursor < |source|
      invariant index + 1 <= cursor <= |source| + 1
      invariant cursor <= |source| ==> whole == Add(RegexEnd(source[cursor..], inClass), cursor - index - 1)
      invariant cursor > |source| ==> whole.None?
    {
      var current := source[cursor];
      ghost var rest := source[cursor..];
      RegexEndStep(rest, inClass);
      assert rest[1..] == source[cursor + 1..];
      if current == '\\' {
        if cursor + 1 < |source| { assert rest[2..] == source[cursor + 2..]; }
        cursor := cursor + 2;
        continue;
      }
      if current == '\r' || current == '\n' { break; }
      if current == '[' {
        inClass := true;
      } else if current == ']' {
        inClass := false;
      } else if current == '/' && !inClass {
        cursor := ScanFlags(u, source, cursor + 1);
        return Some(cursor);
      }
      cursor := cursor + 1;
    }
    if cursor == |source| {
      assert source[cursor..] == [];
      RegexEndStep("/", inClass);
    }
    return None;
  }

  /** The quoted-string loop. */
  method ScanString(source: string, index: nat, quote: char) returns (body: Body)
    requires index <= |source|
    ensures body == StringBody(source[index..], quote)
  {
    hide StringBody;
    var cursor := index;
    var escaped := false;
    ghost var whole := StringBody(source[index..], quote);
    while cursor < |source|
      invariant index <= cursor <= |source|
      invariant whole == Longer(StringBody(source[cursor..], quote), cursor - index, escaped, false)
    {
      ghost var rest := source[cursor..];
      assert rest[1..] == source[cursor + 1..];
      StringBodyStep(rest, quote);
      if source[cursor] == quote { return Closed(cursor + 1 - index, escaped, false); }
      if source[cursor] == '\r' || source[cursor] == '\n' { return Broken(OpenString); }
      if source[cursor] == '\\' {
        if cursor + 1 >= |source| { return Broken(OpenStringEscape); }
        assert rest[2..] == source[cursor + 2..];
        escaped := true;
        cursor := cursor + 2;
      } else {
        cursor := cursor + 1;
      }
    }
    assert source[cursor..] == [];
    NoStringLeft(quote);
    return Broken(OpenString);
  }

  lemma {:induction false} StringBodyStep(s: string, quote: char)
    requires s != []
    ensures StringBody(s, quote) ==
      if s[0] == quote then Closed(1, false, false)
      else if s[0] == '\r' || s[0] == '\n' then Broken(OpenString)
      else if s[0] == '\\' then
        (if |s| < 2 then Broken(OpenStringEscape) else Longer(StringBody(s[2..], quote), 2, true, false))
      else Longer(StringBody(s[1..], quote), 1, false, false)
  {
  }

  lemma {:induction false} NoStringLeft(quote: char)
    ensures StringBody([], quote) == Broken(OpenString)
  {
  }

  lemma {:induction false} TemplateBodyStep(s: string)
    requires s != []
    ensures TemplateBody(s) ==
      if s[0] == '\\' then
        (if |s| < 2 then Broken(OpenTemplateEscape) else Longer(TemplateBody(s[2..]), 2, true, false))
      else if s[0] == '`' then Closed(1, false, false)
      else Longer(TemplateBody(s[1..]), 1, false, s[0] == '$' && |s| > 1 && s[1] == '{')
    ensures TemplateBody([]) == Broken(OpenTemplate)
  {
  }

  /** The template loop. */
  method ScanTemplate(source: string, index: nat) returns (body: Body)
    requires index <= |source|
    ensures body == TemplateBody(source[index..])
  {
    hide TemplateBody;
    var cursor := index;
    var escaped, substitution := false, false;
    ghost var whole := TemplateBody(source[index..]);
    while cursor < |source|
      invariant index <= cursor <= |source|
      invariant whole == Longer(TemplateBody(source[cursor..]), cursor - index, escaped, substitution)
    {
      ghost var rest := source[cursor..];
      TemplateBodyStep(rest);
      assert rest[1..] == source[cursor + 1..];
      if source[cursor] == '\\' {
        if cursor + 1 >= |source| { return Broken(OpenTemplateEscape); }
        assert rest[2..] == source[cursor + 2..];
        escaped := true;
        cursor := cursor + 2;
        continue;
      }
      if source[cursor] == '`' { return Closed(cursor + 1 - index, escaped, substitution); }
      if source[cursor] == '$' && cursor + 1 < |source| && source[cursor + 1] == '{' { substitution := true; }
      cursor := cursor + 1;
    }
    assert source[cursor..] == [];
    TemplateBodyStep("`");
    return Broken(OpenTemplate);
  }

  method ScanWord(u: Letters, source: string, index: nat) returns (end: nat)
    requires index <= |source|
    ensures end == index + WordRun(u, source[index..]) <= |source|
  {
    end := index;
    while end < |source| && ContinuesWord(u, source[end])
      invariant index <= end <= |source|
      invariant end + WordRun(u, source[end..]) == index + WordRun(u, source[index..])
    {
      assert source[end..][1..] == source[end + 1..];
      end := end + 1;
    }
  }

  /** The part of a round that meets neither blank nor comment. */
  method SignificantStepAt(u: Letters, source: string, index: nat, view: View) returns (step: Step)
    requires index < |source|
    ensures step == SignificantStep(u, source[index..], view)
  {
    hide RegexMayStart, StringMayStart, RegexEnd, AlphaRun, WordRun, StringBody, TemplateBody;
    var c := source[index];
    ghost var rest := source[index..];
    assert rest[1..] == source[index + 1..];
    if c == '/' && RegexMayStart(view) {
      var end := ScanRegex(u, source, index);
      if end.Some? {
        ghost var body := RegexEnd(rest[1..], false);
        assert rest[1 + body.value..] == source[index + 1 + body.value..];
        return Advance(end.value - index, [REGEX]);
      }
    }
    if c == '\'' || c == '"' {
      if !StringMayStart(view) { return Advance(1, [Token(Punctuation, [c], false)]); }
      var body := ScanString(source, index + 1, c);
      if body.Broken? { return Fail(body.error); }
      assert rest[1..body.length] == source[index + 1..index + body.length];
      return Advance(body.length + 1, [Token(StringLiteral, source[index + 1..index + body.length], body.escaped)]);
    }
    if c == '`' {
      var body := ScanTemplate(source, index + 1);
      if body.Broken? { return Fail(body.error); }
      assert rest[1..body.length] == source[index + 1..index + body.length];
      return Advance(body.length + 1, [Token(if body.substitution then TemplateExpression else Template,
                                             source[index + 1..index + body.length], body.escaped)]);
    }
    if u.isAlpha(c) || c == '_' || c == '$' {
      var end := ScanWord(u, source, index + 1);
      assert rest[..end - index] == source[index..end];
      return Advance(end - index, [Token(Identifier, source[index..end], false)]);
    }
    return Advance(1, [Token(Punctuation, [c], false)]);
  }

  /** One round of the tokenizer loop: what it appends and how far it moves the index. */
  method StepAt(u: Letters, source: string, index: nat, tokens: seq<Token>) returns (step: Step)
    requires index < |source|
    ensures step == NextStep(u, source[index..], Look(tokens))
  {
    hide Look, SignificantStep, CommentEndAt, LineFeedAt, LineFeeds;
    var c := source[index];
    ghost var rest := source[index..];
    assert rest[1..] == source[index + 1..];
    if IsBlank(c) { return Advance(1, []); }
    if c == '\r' || c == '\n' {
      return Advance(if c == '\r' && index + 1 < |source| && source[index + 1] == '\n' then 2 else 1, [NEWLINE]);
    }
    if c == '/' && index + 1 < |source| && source[index + 1] == '/' {
      assert rest[2..] == source[index + 2..];
      return Advance(2 + LineFeedAt(source[index + 2..]), []);
    }
    if c == '/' && index + 1 < |source| && source[index + 1] == '*' {
      assert rest[2..] == source[index + 2..];
      var end := CommentEndAt(source[index + 2..]);
      if end.None? { return Fail(OpenComment); }
      var comment := source[index..index + 4 + end.value];
      assert comment == rest[..end.value + 4];
      return Advance(end.value + 4, Newlines(LineFeeds(comment)));
    }
    var view := LookBack(tokens);
    step := SignificantStepAt(u, source, index, view);
  }

  /** `_javascript_tokens`: the loop reads only the text from its index on and the tokens it
      has, moves strictly forward, and ends with at most one token per character. */
  method JavaScriptTokens(u: Letters, source: string) returns (r: Result<seq<Token>, LexError>)
    ensures r == Lex(u, source, [])
    ensures r.Ok? ==> |r.value| <= |source|
  {
    hide NextStep, Look;
    TokenBound(u, source, []);
    var tokens: seq<Token> := [];
    var index := 0;
    assert source[0..] == source;
    while index < |source|
      invariant 0 <= index <= |source|
      invariant Lex(u, source[index..], tokens) == Lex(u, source, [])
      decreases |source| - index
    {
      var step := StepAt(u, source, index, tokens);
      if step.Fail? { return Err(step.error); }
      assert source[index..][step.length..] == source[index + step.length..];
      tokens := tokens + step.emitted;
      index := index + step.length;
    }
    assert source[index..] == [];
    return Ok(tokens);
  }
}
