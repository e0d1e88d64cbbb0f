/** What holds of the tokenizer on every source (scripts/export_public_candidate.py): it is a
    transducer with a three-token memory, comments are worth exactly their line feeds, and
    every literal token is the quoted text of one piece of the source. */
module LexerTheorems {
  import opened Text
  import opened JavaScriptLexer

  // ---------- finite memory ----------

  /** All the tokenizer ever uses of the tokens behind it. */
  datatype Memory = Memory(raw: Option<Token>, view: View)

  function MemoryOf(tokens: seq<Token>): Memory {
    Memory(if tokens == [] then None else Some(tokens[|tokens| - 1]), Look(tokens))
  }

  function Remember(m: Memory, t: Token): Memory {
    Memory(Some(t), if t.kind.Newline? then m.view else View(Some(t), m.raw))
  }

  function RememberAll(m: Memory, ts: seq<Token>): Memory
    decreases |ts|
  {
    if ts == [] then m else RememberAll(Remember(m, ts[0]), ts[1..])
  }

  lemma MemoryOfNext(tokens: seq<Token>, t: Token)
    ensures MemoryOf(tokens + [t]) == Remember(MemoryOf(tokens), t)
  {
    assert (tokens + [t])[..|tokens|] == tokens;
  }

  lemma {:induction false} MemoryOfAll(tokens: seq<Token>, ts: seq<Token>)
    ensures MemoryOf(tokens + ts) == RememberAll(MemoryOf(tokens), ts)
    decreases |ts|
  {
    hide MemoryOf, Remember;
    if ts == [] {
      assert tokens + ts == tokens;
    } else {
      MemoryOfNext(tokens, ts[0]);
      assert tokens + ts == (tokens + [ts[0]]) + ts[1..];
      MemoryOfAll(tokens + [ts[0]], ts[1..]);
    }
  }

  /** What the remaining text contributes, given only the memory. */
  function Emit(u: Letters, rest: string, m: Memory): Result<seq<Token>, LexError>
    decreases |rest|
  {
    if rest == [] then Ok([])
    else match NextStep(u, rest, m.view)
      case Fail(e) => Err(e)
      case Advance(n, emitted) =>
        match Emit(u, rest[n..], RememberAll(m, emitted))
        case Err(e) => Err(e)
        case Ok(more) => Ok(emitted + more)
  }

  /** Locality: from any state, the continuation is a function of the remaining text and of
      three look-back tokens; the tokens already read are never changed. */
  lemma {:induction false} LexIsATransducer(u: Letters, rest: string, tokens: seq<Token>)
    ensures Lex(u, rest, tokens) ==
              match Emit(u, rest, MemoryOf(tokens))
              case Err(e) => Err(e)
              case Ok(more) => Ok(tokens + more)
    decreases |rest|
  {
    hide NextStep, RememberAll, Look;
    if rest == [] {
      assert tokens + [] == tokens;
    } else {
      var s := NextStep(u, rest, Look(tokens));
      if s.Advance? {
        MemoryOfAll(tokens, s.emitted);
        LexIsATransducer(u, rest[s.length..], tokens + s.emitted);
        var r := Emit(u, rest[s.length..], MemoryOf(tokens + s.emitted));
        if r.Ok? { assert (tokens + s.emitted) + r.value == tokens + (s.emitted + r.value); }
      }
    }
  }

  // ---------- comments ----------

  function LineFeedText(n: nat): string {
    if n == 0 then [] else "\n" + LineFeedText(n - 1)
  }

  lemma {:induction false} LexLineFeeds(u: Letters, n: nat, rest: string, tokens: seq<Token>)
    ensures Lex(u, LineFeedText(n) + rest, tokens) == Lex(u, rest, tokens + Newlines(n))
  {
    hide Look;
    if n == 0 {
      assert LineFeedText(0) + rest == rest && tokens + Newlines(0) == tokens;
    } else {
      var text := LineFeedText(n) + rest;
      assert text[0] == '\n' && text[1..] == LineFeedText(n - 1) + rest;
      assert NextStep(u, text, Look(tokens)) == Advance(1, [NEWLINE]);
      LexLineFeeds(u, n - 1, rest, tokens + [NEWLINE]);
      assert tokens + [NEWLINE] + Newlines(n - 1) == tokens + Newlines(n);
    }
  }

  lemma {:induction false} CommentEndIsFirst(x: string, y: string)
    requires CommentEndAt(x).Some?
    ensures CommentEndAt(x + y) == CommentEndAt(x)
  {
    if x[0] == '*' && x[1] == '/' {
    } else {
      assert (x + y)[1..] == x[1..] + y;
      CommentEndIsFirst(x[1..], y);
    }
  }

  lemma {:induction false} LineFeedsAppend(x: string, y: string)
    ensures LineFeeds(x + y) == LineFeeds(x) + LineFeeds(y)
  {
    if x == [] {
      assert x + y == y;
    } else {
      assert (x + y)[1..] == x[1..] + y;
      LineFeedsAppend(x[1..], y);
    }
  }

  /** A body that the first closing mark after it ends. */
  predicate IsCommentBody(body: string) {
    CommentEndAt(body + "*/") == Some(|body|)
  }

  /** From every state, a block comment behaves exactly like the line feeds inside it. */
  lemma {:induction false} BlockCommentIsItsLineFeeds(u: Letters, body: string, rest: string, tokens: seq<Token>)
    requires IsCommentBody(body)
    ensures Lex(u, "/*" + body + "*/" + rest, tokens) == Lex(u, LineFeedText(LineFeeds(body)) + rest, tokens)
  {
    hide Look, RegexMayStart, StringMayStart, RegexEnd, StringBody, TemplateBody, WordRun, AlphaRun, CommentEndAt;
    var comment := "/*" + body + "*/";
    var text := comment + rest;
    CommentEndIsFirst(body + "*/", rest);
    assert text[2..] == body + "*/" + rest;
    assert text[..|comment|] == comment && text[|comment|..] == rest;
    LineFeedsAppend("/*" + body, "*/");
    LineFeedsAppend("/*", body);
    assert LineFeeds("/*") == 0 && LineFeeds("*/") == 0 by {
      assert "/*"[1..] == "*" && "*/"[1..] == "/" && "*"[1..] == "" && "/"[1..] == "";
    }
    assert LineFeeds(comment) == LineFeeds(body);
    assert NextStep(u, text, Look(tokens)) == Advance(|comment|, Newlines(LineFeeds(body)));
    LexLineFeeds(u, LineFeeds(body), rest, tokens);
  }

  lemma {:induction false} LineFeedAtEnd(body: string, rest: string)
    requires '\n' !in body && (rest == [] || rest[0] == '\n')
    ensures LineFeedAt(body + rest) == |body|
  {
    if body == [] {
      assert body + rest == rest;
    } else {
      assert (body + rest)[1..] == body[1..] + rest;
      LineFeedAtEnd(body[1..], rest);
    }
  }

  /** From every state, a line comment contributes nothing at all. */
  lemma {:induction false} LineCommentIsInvisible(u: Letters, body: string, rest: string, tokens: seq<Token>)
    requires '\n' !in body && (rest == [] || rest[0] == '\n')
    ensures Lex(u, "//" + body + rest, tokens) == Lex(u, rest, tokens)
  {
    hide Look, RegexMayStart, StringMayStart, RegexEnd, StringBody, TemplateBody, WordRun, AlphaRun, CommentEndAt;
    var text := "//" + body + rest;
    assert text[2..] == body + rest;
    LineFeedAtEnd(body, rest);
    assert NextStep(u, text, Look(tokens)) == Advance(2 + |body|, []);
    assert text[2 + |body|..] == rest && tokens + [] == tokens;
  }

  // ---------- pieces ----------

  /** A stretch of source the tokenizer takes in one step, and the tokens it yields. */
  datatype Piece = Piece(text: string, tokens: seq<Token>)

  predicate IsComment(text: string) {
    |text| >= 2 && text[0] == '/' && (text[1] == '/' || text[1] == '*')
  }

  /** Comments yield only line ends; a literal token is the whole quoted text of its piece. */
  ghost predicate WellShaped(p: Piece) {
    && (IsComment(p.text) ==> forall i :: 0 <= i < |p.tokens| ==> p.tokens[i].kind.Newline?)
    && (forall i :: 0 <= i < |p.tokens| ==> Quotes(p, p.tokens[i]))
  }

  predicate Quotes(p: Piece, t: Token) {
    && (t.kind.StringLiteral? ==> p.tokens == [t] && (p.text == "'" + t.value + "'" || p.text == "\"" + t.value + "\""))
    && (t.kind.Template? || t.kind.TemplateExpression? ==> p.tokens == [t] && p.text == "`" + t.value + "`")
  }

  function Pieces(u: Letters, rest: string, tokens: seq<Token>): seq<Piece>
    decreases |rest|
  {
    if rest == [] then []
    else match NextStep(u, rest, Look(tokens))
      case Fail(_) => []
      case Advance(n, emitted) => [Piece(rest[..n], emitted)] + Pieces(u, rest[n..], tokens + emitted)
  }

  function TextOf(ps: seq<Piece>): string {
    if ps == [] then [] else ps[0].text + TextOf(ps[1..])
  }

  function TokensOf(ps: seq<Piece>): seq<Token> {
    if ps == [] then [] else ps[0].tokens + TokensOf(ps[1..])
  }

  lemma {:induction false} CommentsStayComments(u: Letters, rest: string, view: View)
    requires rest != [] && NextStep(u, rest, view).Advance?
    ensures var s := NextStep(u, rest, view);
            IsComment(rest[..s.length]) ==> forall i :: 0 <= i < |s.emitted| ==> s.emitted[i].kind.Newline?
  {
    hide RegexMayStart, StringMayStart, RegexEnd, StringBody, TemplateBody, WordRun, AlphaRun, CommentEndAt,
         LineFeedAt, LineFeeds;
    var s := NextStep(u, rest, view);
    if IsComment(rest[..s.length]) {
      assert rest[..s.length][0] == rest[0] && rest[..s.length][1] == rest[1];
    }
  }

  lemma {:induction false} LiteralsAreQuoted(u: Letters, rest: string, view: View)
    requires rest != [] && NextStep(u, rest, view).Advance?
    ensures var s := NextStep(u, rest, view);
            forall i :: 0 <= i < |s.emitted| ==> Quotes(Piece(rest[..s.length], s.emitted), s.emitted[i])
  {
    hide SignificantStep, Quotes, CommentEndAt, LineFeedAt, LineFeeds;
    if SignificantStep(u, rest, view).Advance? { SignificantIsQuoted(u, rest, view); }
    NewlinesAreNoLiterals(Piece(rest[..NextStep(u, rest, view).length], NextStep(u, rest, view).emitted));
  }

  lemma {:induction false} NewlinesAreNoLiterals(p: Piece)
    ensures Quotes(p, NEWLINE)
  {
  }

  lemma {:induction false} SignificantIsQuoted(u: Letters, rest: string, view: View)
    requires rest != [] && SignificantStep(u, rest, view).Advance?
    ensures var s := SignificantStep(u, rest, view); Quotes(Piece(rest[..s.length], s.emitted), s.emitted[0])
  {
    hide RegexMayStart, StringMayStart, RegexEnd, StringStep, TemplateStep, WordRun, AlphaRun, Quotes;
    var s := SignificantStep(u, rest, view);
    if StringStep(rest, rest[0]).Advance? && (rest[0] == '\'' || rest[0] == '"') { StringIsQuoted(rest); }
    if rest[0] == '`' && TemplateStep(rest).Advance? { TemplateIsQuoted(rest); }
    OthersAreNoLiterals(Piece(rest[..s.length], s.emitted), s.emitted[0]);
  }

  lemma {:induction false} OthersAreNoLiterals(p: Piece, t: Token)
    ensures !t.kind.StringLiteral? && !t.kind.Template? && !t.kind.TemplateExpression? ==> Quotes(p, t)
  {
  }

  lemma {:induction false} Enclosed(rest: string, n: nat)
    requires 2 <= n <= |rest|
    ensures rest[..n] == [rest[0]] + rest[1..n - 1] + [rest[n - 1]] && rest[1..][n - 2] == rest[n - 1]
  {
  }

  lemma {:induction false} StringIsQuoted(rest: string)
    requires rest != [] && (rest[0] == '\'' || rest[0] == '"') && StringStep(rest, rest[0]).Advance?
    ensures var s := StringStep(rest, rest[0]); Quotes(Piece(rest[..s.length], s.emitted), s.emitted[0])
  {
    hide StringBody;
    Enclosed(rest, StringStep(rest, rest[0]).length);
  }

  lemma {:induction false} TemplateIsQuoted(rest: string)
    requires rest != [] && rest[0] == '`' && TemplateStep(rest).Advance?
    ensures var s := TemplateStep(rest); Quotes(Piece(rest[..s.length], s.emitted), s.emitted[0])
  {
    hide TemplateBody;
    Enclosed(rest, TemplateStep(rest).length);
  }

  /** The pieces tile the source, and the tokens are theirs in order. */
  lemma {:induction false} PiecesTile(u: Letters, rest: string, tokens: seq<Token>)
    requires Lex(u, rest, tokens).Ok?
    ensures var ps := Pieces(u, rest, tokens);
            && TextOf(ps) == rest
            && Lex(u, rest, tokens).value == tokens + TokensOf(ps)
            && forall i :: 0 <= i < |ps| ==> WellShaped(ps[i])
    decreases |rest|
  {
    hide NextStep, Look, WellShaped;
    if rest == [] {
      assert tokens + [] == tokens;
    } else {
      var s := NextStep(u, rest, Look(tokens));
      var first, tail := Piece(rest[..s.length], s.emitted), Pieces(u, rest[s.length..], tokens + s.emitted);
      PiecesTile(u, rest[s.length..], tokens + s.emitted);
      assert ([first] + tail)[1..] == tail;
      assert rest[..s.length] + rest[s.length..] == rest;
      assert (tokens + s.emitted) + TokensOf(tail) == tokens + (s.emitted + TokensOf(tail));
      assert WellShaped(first) by {
        CommentsStayComments(u, rest, Look(tokens));
        LiteralsAreQuoted(u, rest, Look(tokens));
        PieceIsShaped(first);
      }
    }
  }

  lemma PieceIsShaped(p: Piece)
    requires IsComment(p.text) ==> forall i :: 0 <= i < |p.tokens| ==> p.tokens[i].kind.Newline?
    requires forall i :: 0 <= i < |p.tokens| ==> Quotes(p, p.tokens[i])
    ensures WellShaped(p)
  {
  }

  lemma {:induction false} TokenHasAPiece(ps: seq<Piece>, t: Token)
    requires t in TokensOf(ps)
    ensures exists i :: 0 <= i < |ps| && t in ps[i].tokens
  {
    if t !in ps[0].tokens {
      TokenHasAPiece(ps[1..], t);
      var i :| 0 <= i < |ps[1..]| && t in ps[1..][i].tokens;
      assert ps[i + 1] == ps[1..][i];
    }
  }

  /** Where a literal token comes from: a piece of the source that is its value between
      quotes, and that is no comment. */
  lemma {:induction false} LiteralIsQuotedText(u: Letters, source: string, t: Token)
    requires Lex(u, source, []).Ok? && t in Lex(u, source, []).value
    requires t.kind.StringLiteral? || t.kind.Template?
    ensures exists i :: 0 <= i < |Pieces(u, source, [])| && IsQuotation(Pieces(u, source, [])[i], t)
  {
    hide Lex, Pieces, Quotes;
    PiecesTile(u, source, []);
    var ps := Pieces(u, source, []);
    assert [] + TokensOf(ps) == TokensOf(ps);
    TokenHasAPiece(ps, t);
    var i :| 0 <= i < |ps| && t in ps[i].tokens;
    assert WellShaped(ps[i]);
    var k :| 0 <= k < |ps[i].tokens| && ps[i].tokens[k] == t;
    assert IsQuotation(ps[i], t) by { QuotedPiece(ps[i], t); }
  }

  predicate IsQuotation(p: Piece, t: Token) {
    && !IsComment(p.text) && p.tokens == [t]
    && (p.text == "'" + t.value + "'" || p.text == "\"" + t.value + "\"" || p.text == "`" + t.value + "`")
  }

  lemma QuotedPiece(p: Piece, t: Token)
    requires Quotes(p, t) && (t.kind.StringLiteral? || t.kind.Template?)
    ensures IsQuotation(p, t)
  {
  }
}
