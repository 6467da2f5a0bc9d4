/** Rust source as tokens: which printed tokens the policy scan reads as they are meant,
    and what blanking makes of them. */
module RustTokens {
  import opened ByteCodec
  import opened RustLexer
  import opened CfgTree

  /** Everything but delimiters. Words are identifiers, keywords and numbers. */
  datatype Token =
    | Word(name: string)
    | RawWord(name: string)
    | Lifetime(name: string)
    | Mark(c: char)
    | Slash
    | Str(literal: Literal)
    | ByteRaw(hashes: nat, body: string)
    | Quote(c: char)
    | EscapedQuote(rest: string)
    | BlockComment(body: string)
    | LineComment(body: string)

  /** Tokens with balanced delimiters. */
  datatype Tokens = Done | Flat(t: Token, rest: Tokens) | Nest(open: char, inner: Tokens, rest: Tokens)

  function ShowToken(t: Token): (s: string) {
    match t
    case Word(name) => name
    case RawWord(name) => "r#" + name
    case Lifetime(name) => ['\''] + name
    case Mark(c) => [c]
    case Slash => "/"
    case Str(l) => ShowLiteral(l)
    case ByteRaw(hashes, body) => ['b'] + ShowLiteral(Raw(hashes, body))
    case Quote(c) => ['\'', c, '\'']
    case EscapedQuote(rest) => ['\'', '\\'] + rest + ['\'']
    case BlockComment(body) => "/*" + body + "*/"
    case LineComment(body) => "//" + body
  }

  function Closer(open: char): (c: char) {
    if open == '(' then ')' else if open == '[' then ']' else '}'
  }

  /** The printed tokens followed by `post`. */
  function ShowTokens(ts: Tokens, post: string): (s: string) {
    match ts
    case Done => post
    case Flat(t, rest) => ShowToken(t) + ShowTokens(rest, post)
    case Nest(open, inner, rest) => [open] + ShowTokens(inner, [Closer(open)] + ShowTokens(rest, post))
  }

  predicate IsDelimiter(c: char) {
    c == '(' || c == ')' || c == '[' || c == ']' || c == '{' || c == '}'
  }

  /** The token is spelled as its kind demands. A character literal holds no further quote. */
  predicate TokenOk(t: Token) {
    match t
    case Word(name) => IsName(name)
    case RawWord(name) => IsName(name)
    case Lifetime(name) => IsName(name)
    case Mark(c) => !IdentChar(c) && !IsDelimiter(c) && c != '"' && c != '\'' && c != '/'
    case Slash => true
    case Str(l) => LiteralOk(l)
    case ByteRaw(hashes, body) => LiteralOk(Raw(hashes, body))
    case Quote(c) => c != '\'' && c != '\\'
    case EscapedQuote(rest) => '\'' !in rest
    case BlockComment(body) => BlockBody(body, 1)
    case LineComment(body) => '\n' !in body
  }

  predicate StartsWith(s: string, c: char) {
    s != [] && s[0] == c
  }

  /** What follows does not merge with the word into a longer one or a raw string. */
  predicate WordEnds(name: string, post: string)
    requires name != []
  {
    post != [] ==> !IdentChar(post[0]) && (name[|name| - 1] == 'r' ==> post[0] != '"' && post[0] != '#')
  }

  /** What follows does not merge with the token. */
  predicate FollowOk(t: Token, post: string)
    requires TokenOk(t)
  {
    match t
    case Word(name) => WordEnds(name, post)
    case RawWord(name) => WordEnds(name, post)
    case Lifetime(name) => WordEnds(name, post) && (|name| == 1 ==> !StartsWith(post, '\''))
    case Slash => !StartsWith(post, '/') && !StartsWith(post, '*')
    case LineComment(_) => post == [] || post[0] == '\n'
    case _ => true
  }

  predicate TokensOk(ts: Tokens, post: string) {
    match ts
    case Done => true
    case Flat(t, rest) => TokenOk(t) && FollowOk(t, ShowTokens(rest, post)) && TokensOk(rest, post)
    case Nest(open, inner, rest) =>
      && (open == '(' || open == '[' || open == '{')
      && TokensOk(inner, [Closer(open)] + ShowTokens(rest, post)) && TokensOk(rest, post)
  }

  /** Comments and literals; the others are code. */
  predicate IsSpan(t: Token) {
    t.Str? || t.ByteRaw? || t.Quote? || t.EscapedQuote? || t.BlockComment? || t.LineComment?
  }

  /** Every character of `text`, in front of `post`, is read as code. */
  ghost predicate AllCode(text: string, post: string) {
    forall k | 0 <= k < |text| :: SpanLen(text[k..] + post).None?
  }

  // ---- Character literals -------------------------------------------------

  /** An escaped character literal is read whole exactly when no quote stands inside it. */
  lemma EscapedQuoteRead(rest: string, post: string)
    ensures CharLen(['\'', '\\'] + rest + ['\''] + post) == Some(|rest| + 3) <==> '\'' !in rest
  {
    var s := ['\'', '\\'] + rest + ['\''] + post;
    assert s[2..] == rest + ['\''] + post;
    if '\'' !in rest {
      FindsFirst(rest, '\'', post);
    } else {
      var i :| 0 <= i < |rest| && rest[i] == '\'';
      assert s[2..][i] == '\'';
    }
  }

  /** An unescaped one is read whole exactly when its character is not the quote itself. */
  lemma QuoteRead(c: char, post: string)
    ensures CharLen(['\'', c, '\''] + post) == Some(3) <==> c != '\''
  {
    var s := ['\'', c, '\''] + post;
    assert s[1] == c && s[2] == '\'';
    if c == '\\' { assert s[2..][0] == '\''; }
  }

  // ---- The scan reads the tokens ------------------------------------------

  lemma QuoteOpensChar(s: string)
    requires s != [] && s[0] == '\''
    ensures SpanLen(s) == CharLen(s)
  {
    assert RawOpener(s).None?;
  }

  lemma SpanTokenRead(t: Token, post: string)
    requires TokenOk(t) && FollowOk(t, post) && IsSpan(t)
    ensures SpanLen(ShowToken(t) + post) == Some(|ShowToken(t)|)
  {
    hide SpanLen, CharLen;
    match t
    case Str(l) => LiteralIsSpan(l, post);
    case ByteRaw(hashes, body) => ByteRawIsSpan(hashes, body, post);
    case Quote(c) =>
      QuoteRead(c, post);
      QuoteOpensChar(['\'', c, '\''] + post);
    case EscapedQuote(rest) =>
      EscapedQuoteRead(rest, post);
      QuoteOpensChar(['\'', '\\'] + rest + ['\''] + post);
    case BlockComment(body) => CommentIsSpan(body, post);
    case LineComment(body) =>
      if post == [] {
        LineAtEnd(body);
        assert "//" + body + [] == "//" + body;
      } else {
        LineIsSpan(body, post[1..]);
        assert post == "\n" + post[1..];
      }
  }

  lemma {:induction false} NotFound(s: string, c: char)
    requires c !in s
    ensures Find(s, c) == |s|
  {
    if s != [] { NotFound(s[1..], c); }
  }

  lemma LineAtEnd(body: string)
    requires '\n' !in body
    ensures SpanLen("//" + body) == Some(|body| + 2)
  {
    var s := "//" + body;
    NotFound(s, '\n');
    assert s[0] == '/' && s[1] == '/' && "//" <= s;
  }

  lemma ByteRawIsSpan(hashes: nat, body: string, post: string)
    requires LiteralOk(Raw(hashes, body))
    ensures var t := ['b'] + ShowLiteral(Raw(hashes, body)); SpanLen(t + post) == Some(|t|)
  {
    hide FindText, Terminator, Hashes, RawStart, RawOpener;
    var t, raw := Terminator(hashes), ShowLiteral(Raw(hashes, body));
    var s := ['b'] + raw + post;
    TerminatorFound(body, hashes, post);
    assert raw + post == RawStart(hashes) + (body + t + post);
    ByteRawOpens(hashes, body + t + post);
    assert s == ['b'] + (raw + post);
    assert (raw + post)[hashes + 2..] == body + t + post && s[hashes + 3..] == body + t + post;
    assert s[0] == 'b';
  }

  lemma ByteRawOpens(hashes: nat, post: string)
    ensures RawOpener(['b'] + (RawStart(hashes) + post)) == Some((hashes + 3, hashes))
  {
    hide Hashes;
    var s := ['b'] + (RawStart(hashes) + post);
    HashesCounted(hashes, post);
    assert s[2..] == seq(hashes, _ => '#') + ['"'] + post;
    assert s[0] == 'b' && s[1] == 'r' && s[2 + hashes] == '"';
  }

  lemma WordIsCode(name: string, post: string)
    requires IsName(name) && WordEnds(name, post)
    ensures SpanLen(name + post).None?
  {
    var s := name + post;
    assert s[0] == name[0];
    var p := if s[0] == 'b' then 1 else 0;
    if p < |s| && s[p] == 'r' {
      assert p < |name| && (p + 1 < |name| ==> IdentChar(s[p + 1]));
      assert p + 1 == |name| < |s| ==> s[p + 1] == post[0];
      assert Hashes(s[p + 1..]) == 0;
    }
  }

  lemma WordAllCode(name: string, post: string)
    requires IsName(name) && WordEnds(name, post)
    ensures AllCode(name, post)
  {
    hide SpanLen;
    forall k | 0 <= k < |name| ensures SpanLen(name[k..] + post).None? { WordIsCode(name[k..], post); }
  }

  lemma AllCodeCons(c: char, text: string, post: string)
    requires AllCode(text, post) && SpanLen([c] + (text + post)).None?
    ensures AllCode([c] + text, post)
  {
    hide SpanLen;
    var all := [c] + text;
    forall k | 0 <= k < |all| ensures SpanLen(all[k..] + post).None? {
      if k == 0 { assert all[0..] + post == [c] + (text + post); } else { assert all[k..] == text[k - 1..]; }
    }
  }

  lemma MarkIsCode(c: char, post: string)
    requires TokenOk(Mark(c)) || IsDelimiter(c) || c == '#'
    ensures SpanLen([c] + post).None?
  {
    var s := [c] + post;
    assert s[0] == c && RawOpener(s).None?;
  }

  lemma RawWordIsCode(name: string, post: string)
    requires IsName(name)
    ensures SpanLen(['r'] + (['#'] + name + post)).None?
  {
    var s := ['r'] + (['#'] + name + post);
    assert s[0] == 'r' && s[1] == '#' && s[2] == name[0] && s[1..][1..][0] == name[0];
    assert Hashes(s[1..]) == 1 + Hashes(s[1..][1..]) == 1;
  }

  lemma LifetimeIsCode(name: string, post: string)
    requires TokenOk(Lifetime(name)) && FollowOk(Lifetime(name), post)
    ensures SpanLen(['\''] + (name + post)).None?
  {
    var s := ['\''] + (name + post);
    assert s[0] == '\'' && s[1] == name[0];
    if |name| > 1 { assert s[2] == name[1]; } else if post != [] { assert s[2] == post[0]; }
    QuoteOpensChar(s);
  }

  lemma SlashIsDivision(post: string)
    requires FollowOk(Slash, post)
    ensures SpanLen("/" + post).None?
  {
    var s := "/" + post;
    assert s[0] == '/' && (|s| > 1 ==> s[1] == post[0]);
    assert RawOpener(s).None?;
  }

  lemma CodeTokenRead(t: Token, post: string)
    requires TokenOk(t) && FollowOk(t, post) && !IsSpan(t)
    ensures AllCode(ShowToken(t), post)
  {
    hide SpanLen;
    match t
    case Word(name) => WordAllCode(name, post);
    case RawWord(name) =>
      WordAllCode(name, post);
      MarkIsCode('#', name + post);
      AllCodeCons('#', name, post);
      RawWordIsCode(name, post);
      AllCodeCons('r', ['#'] + name, post);
      assert "r#" + name == ['r'] + (['#'] + name);
    case Lifetime(name) =>
      WordAllCode(name, post);
      LifetimeIsCode(name, post);
      AllCodeCons('\'', name, post);
    case Mark(c) =>
      MarkIsCode(c, post);
      assert [c][0..] == [c];
    case Slash =>
      SlashIsDivision(post);
      assert "/"[0..] == "/";
  }

  // ---- Blanking -----------------------------------------------------------

  /** The tokens with every comment and literal blanked and all code unchanged. */
  function Masked(ts: Tokens, post: string): (s: string) {
    match ts
    case Done => post
    case Flat(t, rest) => (if IsSpan(t) then Blank(ShowToken(t)) else ShowToken(t)) + Masked(rest, post)
    case Nest(open, inner, rest) => [open] + Masked(inner, [Closer(open)] + Masked(rest, post))
  }

  lemma BlankSpan(text: string, post: string)
    requires text != [] && SpanLen(text + post) == Some(|text|)
    ensures Blanked(text + post) == Blank(text) + Blanked(post)
  {
    hide SpanLen, Blank;
    assert (text + post)[..|text|] == text && (text + post)[|text|..] == post;
  }

  lemma BlankCodeChar(c: char, post: string)
    requires SpanLen([c] + post).None?
    ensures Blanked([c] + post) == [c] + Blanked(post)
  {
    hide SpanLen;
    assert ([c] + post)[1..] == post && ([c] + post)[..1] == [c];
  }

  lemma {:induction false} BlankCode(text: string, post: string)
    requires AllCode(text, post)
    ensures Blanked(text + post) == text + Blanked(post)
  {
    hide SpanLen, Blanked;
    if text == [] {
      assert text + post == post;
    } else {
      var tail := text[1..];
      DropFirstCode(text, post);
      BlankCode(tail, post);
      assert text[0..] == text && text + post == [text[0]] + (tail + post);
      BlankCodeChar(text[0], tail + post);
      assert [text[0]] + (tail + Blanked(post)) == text + Blanked(post);
    }
  }

  lemma DropFirstCode(text: string, post: string)
    requires AllCode(text, post) && text != []
    ensures AllCode(text[1..], post) && SpanLen(text + post).None?
  {
    hide SpanLen;
    assert text[0..] == text;
    forall k | 0 <= k < |text[1..]| ensures SpanLen(text[1..][k..] + post).None? {
      assert text[1..][k..] == text[k + 1..];
    }
  }

  lemma SpanIsNotEmpty(t: Token)
    requires TokenOk(t) && IsSpan(t)
    ensures ShowToken(t) != []
  {
  }

  /** On every printed token list blanking hides exactly the comments and literals. */
  lemma {:induction false} BlankingIsExact(ts: Tokens, post: string)
    requires TokensOk(ts, post)
    ensures Blanked(ShowTokens(ts, post)) == Masked(ts, Blanked(post))
    decreases ts
  {
    hide SpanLen, Blanked, TokenOk, FollowOk, ShowToken, Blank, IsSpan;
    match ts
    case Done =>
    case Flat(t, rest) =>
      BlankingIsExact(rest, post);
      if IsSpan(t) {
        SpanIsNotEmpty(t);
        SpanTokenRead(t, ShowTokens(rest, post));
        BlankSpan(ShowToken(t), ShowTokens(rest, post));
      } else {
        CodeTokenRead(t, ShowTokens(rest, post));
        BlankCode(ShowToken(t), ShowTokens(rest, post));
      }
    case Nest(open, inner, rest) =>
      var after := [Closer(open)] + ShowTokens(rest, post);
      BlankingIsExact(rest, post);
      MarkIsCode(Closer(open), ShowTokens(rest, post));
      BlankCodeChar(Closer(open), ShowTokens(rest, post));
      BlankingIsExact(inner, after);
      MarkIsCode(open, ShowTokens(inner, after));
      BlankCodeChar(open, ShowTokens(inner, after));
  }
}
