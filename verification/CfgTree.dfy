/** Rust `cfg` predicates as trees: their meaning and their printed text, which the attribute
    scanner and the term splitter read back. */
module CfgTree {
  import opened ByteCodec
  import opened RustLexer
  import opened RustPolicy

  datatype Operator = All | Any | Not

  /** White space, block comments and line comments between two tokens. */
  datatype Trivia =
    | Tight
    | Space(c: char, more: Trivia)
    | Comment(body: string, more: Trivia)
    | Line(body: string, more: Trivia)

  datatype Literal = Quoted(body: string) | Raw(hashes: nat, body: string)

  datatype Cfg =
    | Flag(name: string)
    | Setting(key: string, beforeEq: Trivia, afterEq: Trivia, value: Literal)
    | Group(op: Operator, gap: Trivia, args: Args)

  datatype Arg = Arg(before: Trivia, term: Cfg, after: Trivia)

  /** An argument list; `End` closes an empty list or follows a trailing comma. */
  datatype Args = End(gap: Trivia) | Only(arg: Arg) | Comma(arg: Arg, rest: Args)

  /** What a build sets. */
  datatype Config = Config(flags: set<string>, settings: set<(string, string)>)

  predicate Holds(c: Cfg, config: Config) {
    match c
    case Flag(name) => name in config.flags
    case Setting(key, _, _, value) => (key, value.body) in config.settings
    case Group(op, _, args) =>
      match op
      case All => AllHold(args, config)
      case Any => SomeHolds(args, config)
      case Not => !SomeHolds(args, config)
  }

  predicate AllHold(args: Args, config: Config) {
    match args
    case End(_) => true
    case Only(a) => Holds(a.term, config)
    case Comma(a, rest) => Holds(a.term, config) && AllHold(rest, config)
  }

  predicate SomeHolds(args: Args, config: Config) {
    match args
    case End(_) => false
    case Only(a) => Holds(a.term, config)
    case Comma(a, rest) => Holds(a.term, config) || SomeHolds(rest, config)
  }

  // ---- Printing -----------------------------------------------------------

  predicate IdentChar(c: char) {
    'a' <= c <= 'z' || 'A' <= c <= 'Z' || '0' <= c <= '9' || c == '_'
  }

  predicate IsName(s: string) {
    s != [] && forall i | 0 <= i < |s| :: IdentChar(s[i])
  }

  /** String text whose quotes and backslashes are escaped. */
  predicate Escaped(body: string) {
    if body == [] then true
    else if body[0] == '\\' then |body| >= 2 && Escaped(body[2..])
    else body[0] != '"' && Escaped(body[1..])
  }

  /** Text after which `depth` block comments are open and the next closing delimiter closes the last. */
  predicate BlockBody(body: string, depth: nat) {
    if body == [] then depth == 1
    else if body == "/" then false
    else if "/*" <= body then BlockBody(body[2..], depth + 1)
    else if "*/" <= body then depth > 1 && BlockBody(body[2..], depth - 1)
    else BlockBody(body[1..], depth)
  }

  predicate LiteralOk(l: Literal) {
    match l
    case Quoted(body) => Escaped(body)
    case Raw(hashes, body) => FindText(body, Terminator(hashes)).None?
  }

  predicate TriviaOk(t: Trivia) {
    match t
    case Tight => true
    case Space(c, more) => IsSpace(c) && TriviaOk(more)
    case Comment(body, more) => BlockBody(body, 1) && TriviaOk(more)
    case Line(body, more) => '\n' !in body && TriviaOk(more)
  }

  predicate CfgOk(c: Cfg) {
    match c
    case Flag(name) => IsName(name)
    case Setting(key, g, h, value) => IsName(key) && TriviaOk(g) && TriviaOk(h) && LiteralOk(value)
    case Group(_, gap, args) => TriviaOk(gap) && ArgsOk(args)
  }

  predicate ArgOk(a: Arg) {
    TriviaOk(a.before) && CfgOk(a.term) && TriviaOk(a.after)
  }

  predicate ArgsOk(args: Args) {
    match args
    case End(gap) => TriviaOk(gap)
    case Only(a) => ArgOk(a)
    case Comma(a, rest) => ArgOk(a) && ArgsOk(rest)
  }

  /** The printed trivia followed by `post`. */
  function ShowTrivia(t: Trivia, post: string): (s: string) {
    match t
    case Tight => post
    case Space(c, more) => [c] + ShowTrivia(more, post)
    case Comment(body, more) => "/*" + body + "*/" + ShowTrivia(more, post)
    case Line(body, more) => "//" + body + ("\n" + ShowTrivia(more, post))
  }

  function ShowLiteral(l: Literal): (s: string)
    ensures s != []
  {
    match l
    case Quoted(body) => "\"" + body + "\""
    case Raw(hashes, body) => RawStart(hashes) + body + Terminator(hashes)
  }

  function RawStart(hashes: nat): (s: string)
    ensures |s| == hashes + 2
  {
    ['r'] + seq(hashes, _ => '#') + ['"']
  }

  function OperatorName(op: Operator): (s: string) {
    match op case All => "all" case Any => "any" case Not => "not"
  }

  /** The printed predicate followed by `post`. */
  function Show(c: Cfg, post: string): (s: string) {
    match c
    case Flag(name) => name + post
    case Setting(key, g, h, value) =>
      key + ShowTrivia(g, "=" + ShowTrivia(h, ShowLiteral(value) + post))
    case Group(op, gap, args) =>
      OperatorName(op) + ShowTrivia(gap, "(" + ShowArgs(args, ")" + post))
  }

  function ShowArg(a: Arg, post: string): (s: string) {
    ShowTrivia(a.before, Show(a.term, ShowTrivia(a.after, post)))
  }

  function ShowArgs(args: Args, post: string): (s: string) {
    match args
    case End(gap) => ShowTrivia(gap, post)
    case Only(a) => ShowArg(a, post)
    case Comma(a, rest) => ShowArg(a, "," + ShowArgs(rest, post))
  }

  /** The printed arguments one by one. */
  function ShowList(args: Args): (s: seq<string>)
    ensures s != []
  {
    match args
    case End(gap) => [ShowTrivia(gap, "")]
    case Only(a) => [ShowArg(a, "")]
    case Comma(a, rest) => [ShowArg(a, "")] + ShowList(rest)
  }

  // ---- Scanning printed text ----------------------------------------------

  /** Text in which parentheses balance outside comments and literals. */
  datatype Text =
    | Nil
    | Plain(c: char, rest: Text)
    | Span(text: string, rest: Text)
    | Paren(inner: Text, rest: Text)

  /** The text followed by `post`. */
  function Put(t: Text, post: string): (s: string) {
    match t
    case Nil => post
    case Plain(c, rest) => [c] + Put(rest, post)
    case Span(text, rest) => text + Put(rest, post)
    case Paren(inner, rest) => ['('] + Put(inner, [')'] + Put(rest, post))
  }

  /** In front of `post`, the lexer sees exactly the pieces of `t`. */
  predicate Lexes(t: Text, post: string) {
    match t
    case Nil => true
    case Plain(c, rest) =>
      c != '(' && c != ')' && SpanLen([c] + Put(rest, post)).None? && Lexes(rest, post)
    case Span(text, rest) =>
      text != [] && SpanLen(text + Put(rest, post)) == Some(|text|) && Lexes(rest, post)
    case Paren(inner, rest) => Lexes(inner, [')'] + Put(rest, post)) && Lexes(rest, post)
  }

  predicate NoOuterComma(t: Text) {
    match t
    case Nil => true
    case Plain(c, rest) => c != ',' && NoOuterComma(rest)
    case Span(_, rest) => NoOuterComma(rest)
    case Paren(_, rest) => NoOuterComma(rest)
  }

  lemma ParenIsCode(c: char, post: string)
    requires c == '(' || c == ')' || c == ','
    ensures SpanLen([c] + post).None?
  {
    var s := [c] + post;
    assert s[0] == c && RawOpener(s).None?;
  }

  lemma {:induction false} PutLength(t: Text, post: string)
    ensures |Put(t, post)| == |Put(t, [])| + |post|
  {
    match t
    case Nil =>
    case Plain(c, rest) => PutLength(rest, post);
    case Span(_, rest) => PutLength(rest, post);
    case Paren(inner, rest) =>
      PutLength(rest, post);
      PutLength(inner, [')'] + Put(rest, post));
      PutLength(inner, [')'] + Put(rest, []));
  }

  lemma CloseParenAtCode(c: char, s: string, depth: nat)
    requires c != '(' && c != ')' && SpanLen([c] + s).None?
    ensures CloseParen([c] + s, depth) == Shift(CloseParen(s, depth), 1)
  {
    hide SpanLen;
    assert ([c] + s)[1..] == s;
  }

  lemma CloseParenAtSpan(text: string, s: string, depth: nat)
    requires text != [] && SpanLen(text + s) == Some(|text|)
    ensures CloseParen(text + s, depth) == Shift(CloseParen(s, depth), |text|)
  {
    hide SpanLen;
    assert (text + s)[|text|..] == s;
  }

  /** Balanced text never closes the depth it is entered at. */
  lemma {:induction false} CloseParenPasses(t: Text, post: string, depth: nat)
    requires Lexes(t, post) && depth >= 1
    ensures CloseParen(Put(t, post), depth) == Shift(CloseParen(post, depth), |Put(t, [])|)
    decreases t
  {
    hide SpanLen, CloseParen;
    match t
    case Nil =>
    case Plain(c, rest) =>
      CloseParenPasses(rest, post, depth);
      CloseParenAtCode(c, Put(rest, post), depth);
    case Span(text, rest) =>
      CloseParenPasses(rest, post, depth);
      CloseParenAtSpan(text, Put(rest, post), depth);
    case Paren(inner, rest) => CloseParenPassesParen(inner, rest, post, depth);
  }

  lemma CloseParenAtParens(s: string, depth: nat)
    requires depth >= 1
    ensures CloseParen(['('] + s, depth) == Shift(CloseParen(s, depth + 1), 1)
    ensures CloseParen([')'] + s, depth + 1) == Shift(CloseParen(s, depth), 1)
  {
    hide SpanLen;
    ParenIsCode('(', s);
    ParenIsCode(')', s);
    assert (['('] + s)[1..] == s && ([')'] + s)[1..] == s;
  }

  lemma {:induction false} CloseParenPassesParen(inner: Text, rest: Text, post: string, depth: nat)
    requires Lexes(Paren(inner, rest), post) && depth >= 1
    ensures CloseParen(Put(Paren(inner, rest), post), depth)
         == Shift(CloseParen(post, depth), |Put(Paren(inner, rest), [])|)
    decreases Paren(inner, rest), 0
  {
    hide SpanLen, CloseParen;
    var after := [')'] + Put(rest, post);
    CloseParenPasses(rest, post, depth);
    CloseParenAtParens(Put(rest, post), depth);
    CloseParenPasses(inner, after, depth + 1);
    CloseParenAtParens(Put(inner, after), depth);
    PutLength(inner, [')'] + Put(rest, []));
  }

  lemma PrependMerges(a: string, b: string, terms: seq<string>)
    requires terms != []
    ensures Prepend(a, Prepend(b, terms)) == Prepend(a + b, terms)
  {
    assert a + (b + terms[0]) == a + b + terms[0];
  }

  lemma {:induction false} PutAppends(t: Text, post: string)
    ensures Put(t, post) == Put(t, []) + post
  {
    match t
    case Nil =>
    case Plain(_, rest) => PutAppends(rest, post);
    case Span(_, rest) => PutAppends(rest, post);
    case Paren(inner, rest) =>
      PutAppends(rest, post);
      PutAppends(inner, [')'] + Put(rest, post));
      PutAppends(inner, [')'] + Put(rest, []));
  }

  /** Balanced text without an outer comma stays inside one term. */
  lemma {:induction false} TermsPass(t: Text, post: string, depth: nat)
    requires Lexes(t, post) && (depth > 0 || NoOuterComma(t))
    ensures Terms(Put(t, post), depth) == Prepend(Put(t, []), Terms(post, depth))
    decreases t
  {
    hide SpanLen;
    var tail := Terms(post, depth);
    match t
    case Nil => PrependNothing(tail);
    case Plain(c, rest) =>
      TermsPass(rest, post, depth);
      PrependMerges([c], Put(rest, []), tail);
      assert ([c] + Put(rest, post))[..1] == [c];
    case Span(text, rest) =>
      TermsPass(rest, post, depth);
      PrependMerges(text, Put(rest, []), tail);
      assert (text + Put(rest, post))[..|text|] == text;
      assert (text + Put(rest, post))[|text|..] == Put(rest, post);
    case Paren(inner, rest) => TermsPassParen(inner, rest, post, depth);
  }

  lemma {:induction false} TermsPassParen(inner: Text, rest: Text, post: string, depth: nat)
    requires Lexes(Paren(inner, rest), post) && (depth > 0 || NoOuterComma(rest))
    ensures Terms(Put(Paren(inner, rest), post), depth) == Prepend(Put(Paren(inner, rest), []), Terms(post, depth))
    decreases Paren(inner, rest), 0
  {
    hide SpanLen;
    var tail := Terms(post, depth);
    var after := [')'] + Put(rest, post);
    TermsPass(rest, post, depth);
    ParenIsCode(')', Put(rest, post));
    assert Terms(after, depth + 1) == Prepend([')'], Terms(Put(rest, post), depth)) by {
      assert after[..1] == [')'];
    }
    PrependMerges([')'], Put(rest, []), tail);
    TermsPass(inner, after, depth + 1);
    PrependMerges(Put(inner, []), [')'] + Put(rest, []), tail);
    PutAppends(inner, [')'] + Put(rest, []));
    ParenIsCode('(', Put(inner, after));
    assert (['('] + Put(inner, after))[..1] == ['('];
    PrependMerges(['('], Put(inner, [')'] + Put(rest, [])), tail);
  }

  // ---- Printed predicates are balanced text -------------------------------

  function NameText(name: string, rest: Text): (t: Text) {
    if name == [] then rest else Plain(name[0], NameText(name[1..], rest))
  }

  function TriviaText(t: Trivia, rest: Text): (r: Text) {
    match t
    case Tight => rest
    case Space(c, more) => Plain(c, TriviaText(more, rest))
    case Comment(body, more) => Span("/*" + body + "*/", TriviaText(more, rest))
    case Line(body, more) => Span("//" + body, Plain('\n', TriviaText(more, rest)))
  }

  function CfgText(c: Cfg, rest: Text): (t: Text) {
    match c
    case Flag(name) => NameText(name, rest)
    case Setting(key, g, h, value) =>
      NameText(key, TriviaText(g, Plain('=', TriviaText(h, Span(ShowLiteral(value), rest)))))
    case Group(op, gap, args) =>
      NameText(OperatorName(op), TriviaText(gap, Paren(ArgsText(args), rest)))
  }

  function ArgText(a: Arg, rest: Text): (t: Text) {
    TriviaText(a.before, CfgText(a.term, TriviaText(a.after, rest)))
  }

  function ArgsText(args: Args): (t: Text) {
    match args
    case End(gap) => TriviaText(gap, Nil)
    case Only(a) => ArgText(a, Nil)
    case Comma(a, rest) => ArgText(a, Plain(',', ArgsText(rest)))
  }

  /** Text that cannot extend a name into a raw string opener. */
  predicate EndsName(post: string) {
    post == [] || (!IdentChar(post[0]) && post[0] != '"' && post[0] != '#')
  }

  lemma NameIsCode(name: string, post: string)
    requires IsName(name) && EndsName(post)
    ensures SpanLen(name + post).None?
  {
    var s := name + post;
    assert s[0] == name[0];
    var p := if s[0] == 'b' then 1 else 0;
    if p < |s| && s[p] == 'r' {
      assert p < |name|;
      assert Hashes(s[p + 1..]) == 0;
    }
  }

  lemma {:induction false} NameLexes(name: string, rest: Text, post: string)
    requires IsName(name) && EndsName(Put(rest, post)) && Lexes(rest, post)
    ensures Put(NameText(name, rest), post) == name + Put(rest, post)
    ensures Lexes(NameText(name, rest), post)
    decreases |name|
  {
    hide SpanLen;
    NameIsCode(name, Put(rest, post));
    if |name| > 1 {
      NameLexes(name[1..], rest, post);
    } else {
      assert name[1..] == [];
    }
    assert name == [name[0]] + name[1..];
    assert [name[0]] + (name[1..] + Put(rest, post)) == name + Put(rest, post);
  }

  lemma {:induction false} CommentCloses(body: string, post: string, depth: nat)
    requires BlockBody(body, depth) && depth >= 1
    ensures BlockLen(body + "*/" + post, depth) == |body| + 2
  {
    var s := body + "*/" + post;
    if body == [] {
      assert s[0] == '*' && s[1] == '/';
      assert "/*"[0] == '/' && !("/*" <= s);
      assert "*/" <= s;
    } else if "/*" <= body {
      CommentCloses(body[2..], post, depth + 1);
      assert s[2..] == body[2..] + "*/" + post && "/*" <= s;
    } else if "*/" <= body {
      CommentCloses(body[2..], post, depth - 1);
      assert s[2..] == body[2..] + "*/" + post && s[0] == '*' && "*/" <= s;
    } else {
      CommentCloses(body[1..], post, depth);
      assert s[1..] == body[1..] + "*/" + post;
      NoDelimiter(body, post);
    }
  }

  lemma NoDelimiter(body: string, post: string)
    requires body != [] && body != "/" && !("/*" <= body) && !("*/" <= body)
    ensures !("/*" <= body + "*/" + post) && !("*/" <= body + "*/" + post)
  {
    var s := body + "*/" + post;
    assert s[0] == body[0];
    if |body| > 1 {
      assert s[1] == body[1] && s[..2] == body[..2];
    } else {
      assert s[1] == '*' && body == [body[0]];
    }
  }

  lemma CommentIsSpan(body: string, post: string)
    requires BlockBody(body, 1)
    ensures SpanLen("/*" + body + "*/" + post) == Some(|body| + 4)
  {
    hide SpanLen, BlockLen, BlockBody;
    var s := "/*" + body + "*/" + post;
    CommentCloses(body, post, 1);
    assert s[2..] == body + "*/" + post;
    BlockOpens(s);
  }

  lemma BlockOpens(s: string)
    requires "/*" <= s
    ensures SpanLen(s) == Some(2 + BlockLen(s[2..], 1))
  {
    assert s[0] == '/' && s[1] == '*';
  }

  lemma {:induction false} FindsFirst(body: string, c: char, post: string)
    requires c !in body
    ensures Find(body + [c] + post, c) == |body|
  {
    var s := body + [c] + post;
    if body != [] {
      FindsFirst(body[1..], c, post);
      assert s[1..] == body[1..] + [c] + post;
    }
  }

  lemma LineIsSpan(body: string, post: string)
    requires '\n' !in body
    ensures SpanLen("//" + body + ("\n" + post)) == Some(|body| + 2)
  {
    var s := "//" + body + ("\n" + post);
    FindsFirst("//" + body, '\n', post);
    assert s == "//" + body + ['\n'] + post;
    assert s[0] == '/' && s[1] == '/' && "//" <= s;
  }

  lemma SpaceIsCode(c: char, post: string)
    requires IsSpace(c) || c == '='
    ensures SpanLen([c] + post).None?
  {
    var s := [c] + post;
    assert s[0] == c && RawOpener(s).None?;
  }

  lemma {:induction false} QuotedCloses(body: string, post: string)
    requires Escaped(body)
    ensures QuotedLen(body + "\"" + post) == |body| + 1
  {
    var s := body + "\"" + post;
    if body == [] {
      assert s == "\"" + post;
    } else if body[0] == '\\' {
      QuotedCloses(body[2..], post);
      assert s[2..] == body[2..] + "\"" + post;
    } else {
      QuotedCloses(body[1..], post);
      assert s[1..] == body[1..] + "\"" + post;
    }
  }

  lemma QuotedIsSpan(body: string, post: string)
    requires Escaped(body)
    ensures SpanLen("\"" + body + "\"" + post) == Some(|body| + 2)
  {
    hide SpanLen, QuotedLen;
    QuotedCloses(body, post);
    QuoteOpens("\"" + body + "\"" + post, body + "\"" + post);
  }

  lemma {:induction false} HashesCounted(n: nat, post: string)
    ensures Hashes(seq(n, _ => '#') + ['"'] + post) == n
  {
    var s := seq(n, _ => '#') + ['"'] + post;
    if n > 0 {
      HashesCounted(n - 1, post);
      assert s[1..] == seq(n - 1, _ => '#') + ['"'] + post;
    }
  }

  lemma RawOpens(hashes: nat, post: string)
    ensures RawOpener(RawStart(hashes) + post) == Some((hashes + 2, hashes))
  {
    var s := RawStart(hashes) + post;
    HashesCounted(hashes, post);
    assert s[1..] == seq(hashes, _ => '#') + ['"'] + post;
    assert s[0] == 'r' && s[1 + hashes] == '"';
  }

  /** A terminator found before the text ends was already in it. */
  lemma {:induction false} TerminatorFound(body: string, hashes: nat, post: string)
    requires FindText(body, Terminator(hashes)).None?
    ensures FindText(body + Terminator(hashes) + post, Terminator(hashes)) == Some(|body|)
  {
    var t := Terminator(hashes);
    var s := body + t + post;
    if body == [] {
      assert s[..|t|] == t;
    } else {
      TerminatorFound(body[1..], hashes, post);
      assert s[1..] == body[1..] + t + post;
      TerminatorNotEarly(body, hashes, post);
    }
  }

  lemma TerminatorNotEarly(body: string, hashes: nat, post: string)
    requires body != [] && !(Terminator(hashes) <= body)
    ensures !(Terminator(hashes) <= body + Terminator(hashes) + post)
  {
    var t := Terminator(hashes);
    var s := body + t + post;
    if |t| <= |body| {
      assert s[..|t|] == body[..|t|];
    } else {
      assert s[|body|] == t[0] == '"' && t[|body|] == '#';
    }
  }

  lemma RawIsSpan(hashes: nat, body: string, post: string)
    requires LiteralOk(Raw(hashes, body))
    ensures SpanLen(ShowLiteral(Raw(hashes, body)) + post) == Some(|ShowLiteral(Raw(hashes, body))|)
  {
    hide FindText, RawOpener, RawStart, Terminator;
    var t := Terminator(hashes);
    var s := ShowLiteral(Raw(hashes, body)) + post;
    TerminatorFound(body, hashes, post);
    RawOpens(hashes, body + t + post);
    assert s == RawStart(hashes) + (body + t + post);
    assert s[hashes + 2..] == body + t + post;
    assert s[0] == 'r' by { RawStartsWithR(hashes); }
  }

  lemma RawStartsWithR(hashes: nat)
    ensures RawStart(hashes)[0] == 'r'
  {
  }

  lemma LiteralIsSpan(l: Literal, post: string)
    requires LiteralOk(l)
    ensures SpanLen(ShowLiteral(l) + post) == Some(|ShowLiteral(l)|)
  {
    hide SpanLen;
    match l
    case Quoted(body) => QuotedIsSpan(body, post);
    case Raw(hashes, body) => RawIsSpan(hashes, body, post);
  }

  lemma QuoteOpens(s: string, rest: string)
    requires s == ['"'] + rest
    ensures SpanLen(s) == Some(1 + QuotedLen(rest))
  {
    hide QuotedLen;
    assert s[0] == '"' && s[1..] == rest;
  }

  lemma {:induction false} TriviaLexes(t: Trivia, rest: Text, post: string)
    requires TriviaOk(t) && Lexes(rest, post)
    ensures Put(TriviaText(t, rest), post) == ShowTrivia(t, Put(rest, post))
    ensures Lexes(TriviaText(t, rest), post)
    decreases t
  {
    hide SpanLen;
    match t
    case Tight =>
    case Space(c, more) =>
      TriviaLexes(more, rest, post);
      SpaceIsCode(c, Put(TriviaText(more, rest), post));
    case Comment(body, more) =>
      TriviaLexes(more, rest, post);
      CommentIsSpan(body, Put(TriviaText(more, rest), post));
    case Line(body, more) =>
      TriviaLexes(more, rest, post);
      SpaceIsCode('\n', Put(TriviaText(more, rest), post));
      LineIsSpan(body, Put(TriviaText(more, rest), post));
  }

  lemma TriviaEndsName(t: Trivia, post: string)
    requires TriviaOk(t) && EndsName(post)
    ensures EndsName(ShowTrivia(t, post))
  {
    match t
    case Tight =>
    case Space(c, more) =>
    case Comment(body, more) =>
      assert ("/*" + body + "*/")[0] == '/';
    case Line(body, more) =>
      assert ("//" + body)[0] == '/';
  }

  /** A printed predicate is what the lexer sees, piece by piece. */
  lemma {:induction false} CfgLexes(c: Cfg, rest: Text, post: string)
    requires CfgOk(c) && Lexes(rest, post) && EndsName(Put(rest, post))
    ensures Put(CfgText(c, rest), post) == Show(c, Put(rest, post))
    ensures Lexes(CfgText(c, rest), post)
    decreases c
  {
    hide SpanLen, Lexes;
    match c
    case Flag(name) => NameLexes(name, rest, post);
    case Setting(key, g, h, value) => SettingLexes(key, g, h, value, rest, post);
    case Group(op, gap, args) =>
      var group := Paren(ArgsText(args), rest);
      ArgsLex(args, [')'] + Put(rest, post));
      ParenLexes(ArgsText(args), rest, post);
      TriviaLexes(gap, group, post);
      TriviaEndsName(gap, Put(group, post));
      NameLexes(OperatorName(op), TriviaText(gap, group), post);
  }

  lemma ParenLexes(inner: Text, rest: Text, post: string)
    requires Lexes(inner, [')'] + Put(rest, post)) && Lexes(rest, post)
    ensures Lexes(Paren(inner, rest), post)
  {
  }

  lemma SettingLexes(key: string, g: Trivia, h: Trivia, value: Literal, rest: Text, post: string)
    requires CfgOk(Setting(key, g, h, value)) && Lexes(rest, post)
    ensures Put(CfgText(Setting(key, g, h, value), rest), post) == Show(Setting(key, g, h, value), Put(rest, post))
    ensures Lexes(CfgText(Setting(key, g, h, value), rest), post)
  {
    hide SpanLen, ShowLiteral, LiteralOk;
    var span := Span(ShowLiteral(value), rest);
    LiteralIsSpan(value, Put(rest, post));
    TriviaLexes(h, span, post);
    var eq := Plain('=', TriviaText(h, span));
    SpaceIsCode('=', Put(TriviaText(h, span), post));
    TriviaLexes(g, eq, post);
    TriviaEndsName(g, Put(eq, post));
    NameLexes(key, TriviaText(g, eq), post);
  }

  lemma {:induction false} ArgLexes(a: Arg, rest: Text, post: string)
    requires ArgOk(a) && Lexes(rest, post) && EndsName(Put(rest, post))
    ensures Put(ArgText(a, rest), post) == ShowArg(a, Put(rest, post))
    ensures Lexes(ArgText(a, rest), post)
    decreases a, 1
  {
    hide SpanLen, Lexes;
    var inner := TriviaText(a.after, rest);
    TriviaLexes(a.after, rest, post);
    TriviaEndsName(a.after, Put(rest, post));
    CfgLexes(a.term, inner, post);
    TriviaLexes(a.before, CfgText(a.term, inner), post);
  }

  lemma {:induction false} ArgsLex(args: Args, post: string)
    requires ArgsOk(args) && EndsName(post)
    ensures Put(ArgsText(args), post) == ShowArgs(args, post)
    ensures Lexes(ArgsText(args), post)
    decreases args, 2
  {
    hide SpanLen;
    match args
    case End(gap) => TriviaLexes(gap, Nil, post);
    case Only(a) => ArgLexes(a, Nil, post);
    case Comma(a, rest) =>
      ArgsLex(rest, post);
      ParenIsCode(',', Put(ArgsText(rest), post));
      ArgLexes(a, Plain(',', ArgsText(rest)), post);
  }

  // ---- The answer on printed predicates -----------------------------------

  predicate OnlySpaces(t: Trivia) {
    match t
    case Tight => true
    case Space(_, more) => OnlySpaces(more)
    case Comment(_, _) => false
    case Line(_, _) => false
  }

  /** The two shapes that qualify: a bare `test`, or an `all(..)` with a qualifying argument. */
  predicate Qualifies(c: Cfg) {
    match c
    case Flag(name) => name == "test"
    case Setting(_, _, _, _) => false
    case Group(op, gap, args) => op.All? && gap.Tight? && SomeQualifies(args)
  }

  predicate ArgQualifies(a: Arg) {
    OnlySpaces(a.before) && OnlySpaces(a.after) && Qualifies(a.term)
  }

  predicate SomeQualifies(args: Args) {
    match args
    case End(_) => false
    case Only(a) => ArgQualifies(a)
    case Comma(a, rest) => ArgQualifies(a) || SomeQualifies(rest)
  }

  lemma ShowAppends(c: Cfg, post: string)
    requires CfgOk(c) && EndsName(post)
    ensures Show(c, post) == Show(c, []) + post
  {
    CfgLexes(c, Nil, post);
    CfgLexes(c, Nil, []);
    PutAppends(CfgText(c, Nil), post);
  }

  lemma ShowArgsAppends(args: Args, post: string)
    requires ArgsOk(args) && EndsName(post)
    ensures ShowArgs(args, post) == ShowArgs(args, []) + post
  {
    ArgsLex(args, post);
    ArgsLex(args, []);
    PutAppends(ArgsText(args), post);
  }

  lemma {:induction false} TriviaHasNoComma(t: Trivia, rest: Text)
    requires TriviaOk(t)
    ensures NoOuterComma(TriviaText(t, rest)) == NoOuterComma(rest)
  {
    match t
    case Tight =>
    case Space(_, more) => TriviaHasNoComma(more, rest);
    case Comment(_, more) => TriviaHasNoComma(more, rest);
    case Line(_, more) => TriviaHasNoComma(more, rest);
  }

  lemma {:induction false} NameHasNoComma(name: string, rest: Text)
    requires forall i | 0 <= i < |name| :: IdentChar(name[i])
    ensures NoOuterComma(NameText(name, rest)) == NoOuterComma(rest)
  {
    if name != [] { NameHasNoComma(name[1..], rest); }
  }

  lemma CfgHasNoComma(c: Cfg, rest: Text)
    requires CfgOk(c)
    ensures NoOuterComma(CfgText(c, rest)) == NoOuterComma(rest)
  {
    match c
    case Flag(name) => NameHasNoComma(name, rest);
    case Setting(key, g, h, value) =>
      var span := Span(ShowLiteral(value), rest);
      TriviaHasNoComma(h, span);
      TriviaHasNoComma(g, Plain('=', TriviaText(h, span)));
      NameHasNoComma(key, TriviaText(g, Plain('=', TriviaText(h, span))));
    case Group(op, gap, args) =>
      TriviaHasNoComma(gap, Paren(ArgsText(args), rest));
      NameHasNoComma(OperatorName(op), TriviaText(gap, Paren(ArgsText(args), rest)));
  }

  lemma ArgHasNoComma(a: Arg)
    requires ArgOk(a)
    ensures NoOuterComma(ArgText(a, Nil))
  {
    var inner := TriviaText(a.after, Nil);
    TriviaHasNoComma(a.after, Nil);
    CfgHasNoComma(a.term, inner);
    TriviaHasNoComma(a.before, CfgText(a.term, inner));
  }

  lemma ArgIsOneTerm(a: Arg, post: string)
    requires ArgOk(a) && EndsName(post)
    ensures Terms(ShowArg(a, post), 0) == Prepend(ShowArg(a, []), Terms(post, 0))
  {
    hide Terms, Prepend;
    ArgLexes(a, Nil, post);
    ArgLexes(a, Nil, []);
    ArgHasNoComma(a);
    TermsPass(ArgText(a, Nil), post, 0);
  }

  lemma CommaSplits(post: string)
    ensures Terms([','] + post, 0) == [[]] + Terms(post, 0)
  {
    hide SpanLen;
    ParenIsCode(',', post);
    assert ([','] + post)[1..] == post;
  }

  /** The printed arguments one by one, with `j` behind the last. */
  function ShowListWith(args: Args, j: string): (s: seq<string>)
    ensures s != []
  {
    match args
    case End(gap) => [ShowTrivia(gap, j)]
    case Only(a) => [ShowArg(a, j)]
    case Comma(a, rest) => [ShowArg(a, "")] + ShowListWith(rest, j)
  }

  /** The splitter inverts the printer even in front of text that it does not split. */
  lemma {:induction false} SplitterWithTail(args: Args, j: string)
    requires ArgsOk(args) && EndsName(j) && Terms(j, 0) == [j]
    ensures Terms(ShowArgs(args, j), 0) == ShowListWith(args, j)
    decreases args
  {
    hide SpanLen, Terms;
    match args
    case End(gap) =>
      TriviaLexes(gap, Nil, j);
      TriviaLexes(gap, Nil, []);
      TriviaHasNoComma(gap, Nil);
      TermsPass(TriviaText(gap, Nil), j, 0);
      PutAppends(TriviaText(gap, Nil), j);
    case Only(a) =>
      ArgIsOneTerm(a, j);
      ArgLexes(a, Nil, j);
      ArgLexes(a, Nil, []);
      PutAppends(ArgText(a, Nil), j);
    case Comma(a, rest) =>
      SplitterWithTail(rest, j);
      CommaSplits(ShowArgs(rest, j));
      ArgIsOneTerm(a, [','] + ShowArgs(rest, j));
      PrependToEmpty(ShowArg(a, []), ShowListWith(rest, j));
  }

  lemma {:induction false} ListWithNothing(args: Args)
    ensures ShowListWith(args, []) == ShowList(args)
  {
    match args
    case End(_) =>
    case Only(_) =>
    case Comma(_, rest) => ListWithNothing(rest);
  }

  /** The comma splitter inverts the printer, whatever is nested in the arguments. */
  lemma SplitterInvertsPrinter(args: Args)
    requires ArgsOk(args)
    ensures Terms(ShowArgs(args, []), 0) == ShowList(args)
  {
    TermsEmpty(0);
    SplitterWithTail(args, []);
    ListWithNothing(args);
  }

  /** The attribute scanner returns exactly the printed predicate and the attribute's end. */
  lemma ScannerInvertsPrinter(a: Arg, post: string)
    requires ArgOk(a)
    ensures CfgAttribute(CFG_PREFIX + ShowArg(a, ")]" + post)) ==
            Some((ShowArg(a, []), |CFG_PREFIX| + |ShowArg(a, [])| + 2))
  {
    hide SpanLen, CloseParen, ShowArg, Put, ArgText, Lexes, CfgAttribute;
    var after := ")]" + post;
    NilPuts(after);
    NilPuts([]);
    ArgLexes(a, Nil, after);
    ArgLexes(a, Nil, []);
    PutAppends(ArgText(a, Nil), after);
    CloseParenPasses(ArgText(a, Nil), after, 1);
    CloseParenHere([']'] + post);
    assert after == [')'] + ([']'] + post);
    assert after[1] == ']';
    AttributeParts(CFG_PREFIX, ShowArg(a, []), after);
  }

  lemma NilPuts(post: string)
    ensures Put(Nil, post) == post && Lexes(Nil, post)
  {
  }

  lemma PrefixDropped(prefix: string, body: string)
    ensures prefix <= prefix + body && (prefix + body)[|prefix|..] == body
  {
  }

  lemma BodyParts(text: string, after: string)
    requires |after| >= 2
    ensures (text + after)[..|text|] == text && (text + after)[|text| + 1] == after[1]
  {
  }

  lemma AttributeOf(s: string, body: string, n: nat)
    requires CFG_PREFIX <= s && s[|CFG_PREFIX|..] == body
    requires CloseParen(body, 1) == Some(n) && n + 1 < |body| && body[n + 1] == ']'
    ensures CfgAttribute(s) == Some((body[..n], |CFG_PREFIX| + n + 2))
  {
    hide CloseParen, SpanLen;
  }

  lemma AttributeParts(prefix: string, text: string, after: string)
    requires prefix == CFG_PREFIX && |after| >= 2 && after[1] == ']' && CloseParen(text + after, 1) == Some(|text|)
    ensures CfgAttribute(prefix + (text + after)) == Some((text, |prefix| + |text| + 2))
  {
    hide CloseParen, CfgAttribute;
    var body := text + after;
    BodyParts(text, after);
    PrefixDropped(prefix, body);
    AttributeOf(prefix + body, body, |text|);
  }

  lemma CloseParenHere(post: string)
    ensures CloseParen([')'] + post, 1) == Some(0)
  {
    hide SpanLen;
    ParenIsCode(')', post);
  }

  lemma {:induction false} StripLeftTrivia(t: Trivia, x: string)
    requires TriviaOk(t) && x != [] && !IsSpace(x[0])
    ensures OnlySpaces(t) ==> StripLeft(ShowTrivia(t, x)) == x
    ensures !OnlySpaces(t) ==> "/" <= StripLeft(ShowTrivia(t, x))
  {
    match t
    case Tight =>
    case Space(c, more) => StripLeftTrivia(more, x);
    case Comment(body, more) =>
      var s := "/*" + body + "*/" + ShowTrivia(more, x);
      assert s[0] == '/' && !IsSpace('/');
    case Line(body, more) =>
      var s := "//" + body + ("\n" + ShowTrivia(more, x));
      assert s[0] == '/' && !IsSpace('/');
  }

  lemma {:induction false} StripRightTail(x: string, y: string)
    ensures StripRight(y) != [] ==> StripRight(x + y) == x + StripRight(y)
    ensures StripRight(y) == [] ==> StripRight(x + y) == StripRight(x)
    decreases |y|
  {
    if y == [] {
      assert x + y == x;
    } else if IsSpace(y[|y| - 1]) {
      StripRightTail(x, y[..|y| - 1]);
      assert (x + y)[..|x + y| - 1] == x + y[..|y| - 1];
    }
  }

  lemma {:induction false} CodeKept(y: string, c: char)
    requires c in y && !IsSpace(c)
    ensures c in StripRight(y)
    decreases |y|
  {
    hide IsSpace;
    if IsSpace(y[|y| - 1]) { CodeKept(y[..|y| - 1], c); }
  }

  lemma {:induction false} CommentsHaveSlash(t: Trivia, x: string)
    requires !OnlySpaces(t)
    ensures '/' in ShowTrivia(t, x)
  {
    match t
    case Space(_, more) => CommentsHaveSlash(more, x);
    case Comment(body, more) => assert ("/*" + body + "*/" + ShowTrivia(more, x))[0] == '/';
    case Line(body, more) => assert ("//" + body + ("\n" + ShowTrivia(more, x)))[0] == '/';
  }

  lemma {:induction false} SpacesVanish(t: Trivia)
    requires TriviaOk(t) && OnlySpaces(t)
    ensures StripRight(ShowTrivia(t, [])) == []
    decreases t
  {
    if t.Space? {
      SpacesVanish(t.more);
      StripRightTail([t.c], ShowTrivia(t.more, []));
      assert [t.c][..0] == [];
    }
  }

  lemma SlashIsCode()
    ensures !IsSpace('/')
  {
  }

  lemma {:induction false} StripRightKeepsFirst(s: string)
    requires s != [] && !IsSpace(s[0])
    ensures s[..1] <= StripRight(s)
  {
    if IsSpace(s[|s| - 1]) {
      StripRightKeepsFirst(s[..|s| - 1]);
    }
  }

  lemma SlashKept(s: string)
    requires "/" <= s
    ensures "/" <= StripRight(s)
  {
    assert s[0] == '/' && !IsSpace('/');
    StripRightKeepsFirst(s);
  }

  lemma {:induction false} TriviaKeepsLast(t: Trivia, x: string)
    requires x != []
    ensures var s := ShowTrivia(t, x); s != [] && s[|s| - 1] == x[|x| - 1]
  {
    match t
    case Tight =>
    case Space(_, more) => TriviaKeepsLast(more, x);
    case Comment(body, more) =>
      TriviaKeepsLast(more, x);
      var c := "/*" + body + "*/";
      assert (c + ShowTrivia(more, x))[|c + ShowTrivia(more, x)| - 1] == x[|x| - 1];
    case Line(body, more) =>
      TriviaKeepsLast(more, x);
      var c := "//" + body + ("\n" + ShowTrivia(more, x));
      assert c[|c| - 1] == ShowTrivia(more, x)[|ShowTrivia(more, x)| - 1];
  }

  /** The last character of each printed form. */
  function LastChar(c: Cfg): (r: char)
    requires CfgOk(c)
  {
    match c
    case Flag(name) => name[|name| - 1]
    case Setting(_, _, _, value) => if value.Raw? && value.hashes > 0 then '#' else '"'
    case Group(_, _, _) => ')'
  }

  lemma ShowEnds(c: Cfg)
    requires CfgOk(c)
    ensures var s := Show(c, []); s != [] && IdentChar(s[0]) && s[|s| - 1] == LastChar(c)
  {
    match c
    case Flag(name) => assert name + [] == name;
    case Setting(key, g, h, value) =>
      var literal := ShowLiteral(value) + [];
      assert literal[|literal| - 1] == LastChar(c);
      TriviaKeepsLast(h, literal);
      TriviaKeepsLast(g, "=" + ShowTrivia(h, literal));
    case Group(op, gap, args) =>
      ShowArgsAppends(args, ")" + []);
      TriviaKeepsLast(gap, "(" + ShowArgs(args, ")" + []));
      assert IdentChar(OperatorName(op)[0]);
  }

  lemma ShowEndsInCode(c: Cfg)
    requires CfgOk(c)
    ensures Show(c, []) != [] && !IsSpace(Show(c, [])[0])
    ensures StripRight(Show(c, [])) == Show(c, [])
    ensures Strip(Show(c, [])) == Show(c, [])
  {
    hide Show;
    ShowEnds(c);
    assert !IsSpace(LastChar(c));
  }

  lemma FlagAnswer(name: string)
    requires IsName(name)
    ensures Show(Flag(name), []) == name && !("all(" <= name)
  {
    assert name + [] == name;
    assert "all("[3] == '(';
  }

  lemma GroupPrefix(op: Operator, gap: Trivia, args: Args)
    requires CfgOk(Group(op, gap, args))
    ensures var p := Show(Group(op, gap, args), []);
            ("all(" <= p <==> op.All? && gap.Tight?) && p != "test"
  {
    var tail := ShowTrivia(gap, "(" + ShowArgs(args, ")" + []));
    var p := OperatorName(op) + tail;
    ShowEnds(Group(op, gap, args));
    assert "all("[0] == 'a' && "all("[1] == 'l' && "all("[3] == '(';
    assert tail != [] && p[3] == tail[0];
    match gap
    case Tight =>
    case Space(c, more) =>
    case Comment(body, more) =>
      assert tail == "/*" + body + "*/" + ShowTrivia(more, "(" + ShowArgs(args, ")" + []));
      assert tail[0] == '/';
    case Line(body, more) =>
      assert tail == "//" + body + ("\n" + ShowTrivia(more, "(" + ShowArgs(args, ")" + [])));
      assert tail[0] == '/';
  }

  lemma GroupBody(args: Args)
    requires ArgsOk(args)
    ensures var p := Show(Group(All, Tight, args), []);
            |p| >= 5 && p[4..|p| - 1] == ShowArgs(args, []) && p[|p| - 1] == ')'
  {
    var p, inner := Show(Group(All, Tight, args), []), ShowArgs(args, []);
    ShowArgsAppends(args, ")" + []);
    assert p == "all" + ("(" + (inner + ")"));
    assert p == "all(" + inner + ")";
  }
}
