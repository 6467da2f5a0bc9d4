/** How far the removal of an annotated node reaches, in terms of the node's tokens:
    exactly when it stays inside the node, and two inputs on which it does not. */
module RustItems {
  import opened ByteCodec
  import opened RustLexer
  import opened RustPolicy
  import opened CfgTree
  import opened CfgSoundness
  import opened RustTokens
  import opened RustRemoval

  // ---- Where the scan stops in a printed node -----------------------------

  predicate Ends(t: Token) {
    t == Mark(';') || t == Mark(',')
  }

  /** The node has a semicolon or comma outside all delimiters, or a brace block anywhere. */
  predicate Bounded(ts: Tokens, nested: bool) {
    match ts
    case Done => false
    case Flat(t, rest) => (!nested && Ends(t)) || Bounded(rest, nested)
    case Nest(open, inner, rest) => open == '{' || Bounded(inner, true) || Bounded(rest, nested)
  }

  function Length(ts: Tokens): (n: nat) {
    |ShowTokens(ts, [])|
  }

  /** Characters up to the first such place, with the semicolon or brace but not the comma. */
  function Reach(ts: Tokens, nested: bool): (n: nat)
    requires Bounded(ts, nested)
  {
    match ts
    case Flat(t, rest) =>
      if !nested && Ends(t) then (if t == Mark(';') then 1 else 0) else |ShowToken(t)| + Reach(rest, nested)
    case Nest(open, inner, rest) =>
      if open == '{' then Length(inner) + 2
      else if Bounded(inner, true) then 1 + Reach(inner, true)
      else Length(inner) + 2 + Reach(rest, nested)
  }

  lemma {:induction false} ShowLength(ts: Tokens, post: string)
    ensures |ShowTokens(ts, post)| == Length(ts) + |post|
  {
    match ts
    case Done =>
    case Flat(t, rest) =>
      ShowLength(rest, post);
    case Nest(open, inner, rest) =>
      ShowLength(rest, post);
      ShowLength(inner, [Closer(open)] + ShowTokens(rest, post));
      ShowLength(inner, [Closer(open)] + ShowTokens(rest, []));
  }

  lemma GroupLength(open: char, inner: Tokens, rest: Tokens)
    ensures Length(Nest(open, inner, rest)) == Length(inner) + 2 + Length(rest)
  {
    ShowLength(inner, [Closer(open)] + ShowTokens(rest, []));
  }

  lemma {:induction false} ReachInside(ts: Tokens, nested: bool)
    requires Bounded(ts, nested)
    ensures Reach(ts, nested) <= Length(ts)
  {
    match ts
    case Flat(t, rest) =>
      if nested || !Ends(t) { ReachInside(rest, nested); }
    case Nest(open, inner, rest) =>
      GroupLength(open, inner, rest);
      if open != '{' {
        if Bounded(inner, true) { ReachInside(inner, true); } else { ReachInside(rest, nested); }
      }
  }

  // ---- Scanning token by token --------------------------------------------

  lemma ItemAtSpan(text: string, post: string, b: nat, p: nat)
    requires text != [] && SpanLen(text + post) == Some(|text|)
    ensures ItemLen(text + post, b, p) == |text| + ItemLen(post, b, p)
  {
    hide SpanLen;
    assert (text + post)[|text|..] == post;
  }

  /** One code character: what the scan does with it. */
  lemma ItemAtChar(c: char, post: string, b: nat, p: nat)
    requires SpanLen([c] + post).None?
    ensures ItemLen([c] + post, b, p) ==
              if c == '{' then 1 + ItemLen(post, b + 1, p)
              else if c == '}' then (if b == 0 then 0 else if b == 1 then 1 else 1 + ItemLen(post, b - 1, p))
              else if c == '(' || c == '[' then 1 + ItemLen(post, b, p + 1)
              else if c == ')' || c == ']' then (if p == 0 then 0 else 1 + ItemLen(post, b, p - 1))
              else if c == ';' && b == 0 && p == 0 then 1
              else if c == ',' && b == 0 && p == 0 then 0
              else 1 + ItemLen(post, b, p)
  {
    hide SpanLen;
    assert ([c] + post)[1..] == post;
  }

  /** Code without delimiters, semicolons and commas is passed over. */
  lemma {:induction false} ItemPassesCode(text: string, post: string, b: nat, p: nat)
    requires AllCode(text, post)
    requires forall i | 0 <= i < |text| :: !IsDelimiter(text[i]) && text[i] != ';' && text[i] != ','
    ensures ItemLen(text + post, b, p) == |text| + ItemLen(post, b, p)
  {
    hide SpanLen, ItemLen;
    if text == [] {
      assert text + post == post;
    } else {
      DropFirstCode(text, post);
      ItemPassesCode(text[1..], post, b, p);
      assert text + post == [text[0]] + (text[1..] + post);
      ItemAtChar(text[0], text[1..] + post, b, p);
    }
  }

  lemma CodeTokenIsPlain(t: Token)
    requires TokenOk(t) && !IsSpan(t) && !Ends(t)
    ensures forall i | 0 <= i < |ShowToken(t)| :: var c := ShowToken(t)[i]; !IsDelimiter(c) && c != ';' && c != ','
  {
    var s := ShowToken(t);
    forall i | 0 <= i < |s| ensures !IsDelimiter(s[i]) && s[i] != ';' && s[i] != ',' {
      if t.RawWord? && i >= 2 { assert s[i] == t.name[i - 2]; }
      if t.Lifetime? && i >= 1 { assert s[i] == t.name[i - 1]; }
    }
  }

  /** A token at which the scan does not stop. */
  lemma ItemPassesToken(t: Token, post: string, b: nat, p: nat)
    requires TokenOk(t) && FollowOk(t, post) && (Ends(t) ==> b > 0 || p > 0)
    ensures ItemLen(ShowToken(t) + post, b, p) == |ShowToken(t)| + ItemLen(post, b, p)
  {
    hide SpanLen, ItemLen, AllCode;
    if IsSpan(t) {
      SpanIsNotEmpty(t);
      SpanTokenRead(t, post);
      ItemAtSpan(ShowToken(t), post, b, p);
    } else if Ends(t) {
      MarkIsCode(t.c, post);
      ItemAtChar(t.c, post, b, p);
    } else {
      CodeTokenRead(t, post);
      CodeTokenIsPlain(t);
      ItemPassesCode(ShowToken(t), post, b, p);
    }
  }

  /** Inside a brace block balanced tokens are passed over. */
  lemma {:induction false} BlockPasses(ts: Tokens, post: string, b: nat, p: nat)
    requires TokensOk(ts, post) && b >= 1
    ensures ItemLen(ShowTokens(ts, post), b, p) == Length(ts) + ItemLen(post, b, p)
    decreases ts
  {
    hide SpanLen, ItemLen, TokenOk, FollowOk, ShowToken;
    match ts
    case Done =>
    case Flat(t, rest) =>
      BlockPasses(rest, post, b, p);
      ItemPassesToken(t, ShowTokens(rest, post), b, p);
    case Nest(open, inner, rest) =>
      var tail := ShowTokens(rest, post);
      var after, b1, p1 := [Closer(open)] + tail, if open == '{' then b + 1 else b, if open == '{' then p else p + 1;
      GroupLength(open, inner, rest);
      BlockPasses(rest, post, b, p);
      BlockPasses(inner, after, b1, p1);
      MarkIsCode(open, ShowTokens(inner, after));
      MarkIsCode(Closer(open), tail);
      ItemAtChar(open, ShowTokens(inner, after), b, p);
      ItemAtChar(Closer(open), tail, b1, p1);
  }

  /** Outside braces the scan stops at the first stopping place, or passes over the tokens. */
  lemma {:induction false} NodeScanned(ts: Tokens, post: string, p: nat)
    requires TokensOk(ts, post)
    ensures ItemLen(ShowTokens(ts, post), 0, p) ==
              if Bounded(ts, p > 0) then Reach(ts, p > 0) else Length(ts) + ItemLen(post, 0, p)
    decreases ts
  {
    hide SpanLen, ItemLen, TokenOk, FollowOk, ShowToken;
    match ts
    case Done =>
    case Flat(t, rest) =>
      if p == 0 && Ends(t) {
        ItemAtEnd(t, ShowTokens(rest, post));
      } else {
        NodeScanned(rest, post, p);
        ItemPassesToken(t, ShowTokens(rest, post), 0, p);
      }
    case Nest(open, inner, rest) =>
      var tail := ShowTokens(rest, post);
      var after := [Closer(open)] + tail;
      GroupLength(open, inner, rest);
      MarkIsCode(open, ShowTokens(inner, after));
      MarkIsCode(Closer(open), tail);
      ItemAtChar(open, ShowTokens(inner, after), 0, p);
      if open == '{' {
        BlockPasses(inner, after, 1, p);
        ItemAtChar('}', tail, 1, p);
      } else {
        NodeScanned(inner, after, p + 1);
        ItemAtChar(Closer(open), tail, 0, p + 1);
        NodeScanned(rest, post, p);
      }
  }

  lemma ItemAtEnd(t: Token, post: string)
    requires Ends(t)
    ensures ItemLen(ShowToken(t) + post, 0, 0) == if t == Mark(';') then 1 else 0
  {
    hide SpanLen, ItemLen;
    MarkIsCode(t.c, post);
    ItemAtChar(t.c, post, 0, 0);
  }

  // ---- The exact condition ------------------------------------------------

  /** The text begins with a comma or with a delimiter that closes an enclosing group. */
  predicate Closes(post: string) {
    post == [] || post[0] == ',' || post[0] == ')' || post[0] == ']' || post[0] == '}'
  }

  lemma NothingTaken(post: string)
    ensures ItemLen(post, 0, 0) == 0 <==> Closes(post)
  {
    hide SpanLen, ItemLen;
    if post != [] {
      assert post == [post[0]] + post[1..];
      if SpanLen(post).Some? {
        SpanTaken(post);
      } else {
        ItemAtChar(post[0], post[1..], 0, 0);
      }
    } else {
      EmptyTaken();
    }
  }

  lemma EmptyTaken()
    ensures ItemLen([], 0, 0) == 0
  {
  }

  lemma SpanTaken(post: string)
    requires post != [] && SpanLen(post).Some?
    ensures ItemLen(post, 0, 0) > 0 && !Closes(post)
  {
    hide ItemLen;
    var n := SpanLen(post).value;
    assert post == post[..n] + post[n..];
    ItemAtSpan(post[..n], post[n..], 0, 0);
  }

  /** The deletion stays inside the annotated node exactly when the node has a stopping
      place of its own, or what follows it starts with a comma or a closing delimiter. */
  lemma DeletionStaysInside(ts: Tokens, post: string)
    requires TokensOk(ts, post)
    ensures ItemLen(ShowTokens(ts, post), 0, 0) <= Length(ts) <==> Bounded(ts, false) || Closes(post)
  {
    hide ItemLen, TokensOk;
    NodeScanned(ts, post, 0);
    NothingTaken(post);
    if Bounded(ts, false) { ReachInside(ts, false); }
  }

  /** An item: it ends with a semicolon outside all delimiters, or with a brace block. */
  predicate IsItem(ts: Tokens) {
    match ts
    case Done => false
    case Flat(t, rest) => if rest.Done? then t == Mark(';') else IsItem(rest)
    case Nest(open, _, rest) => if rest.Done? then open == '{' else IsItem(rest)
  }

  lemma {:induction false} ItemIsBounded(ts: Tokens)
    requires IsItem(ts)
    ensures Bounded(ts, false)
  {
    match ts
    case Flat(t, rest) => if !rest.Done? { ItemIsBounded(rest); }
    case Nest(_, _, rest) => if !rest.Done? { ItemIsBounded(rest); }
  }

  // ---- Items, whatever follows them ---------------------------------------

  predicate SameStart(x: string, y: string) {
    (x == [] <==> y == []) && (x != [] ==> x[0] == y[0])
  }

  lemma {:induction false} StartsAlike(ts: Tokens, x: string, y: string)
    requires SameStart(x, y)
    ensures SameStart(ShowTokens(ts, x), ShowTokens(ts, y))
  {
    match ts
    case Done =>
    case Flat(t, rest) => StartsAlike(rest, x, y);
    case Nest(_, _, _) =>
  }

  lemma FollowByStart(t: Token, x: string, y: string)
    requires TokenOk(t) && SameStart(x, y)
    ensures FollowOk(t, x) == FollowOk(t, y)
  {
  }

  /** Whether tokens merge with what follows depends on its first character only. */
  lemma {:induction false} OkByStart(ts: Tokens, x: string, y: string)
    requires SameStart(x, y) && TokensOk(ts, x)
    ensures TokensOk(ts, y)
    decreases ts
  {
    hide TokenOk, FollowOk;
    match ts
    case Done =>
    case Flat(t, rest) =>
      OkByStart(rest, x, y);
      StartsAlike(rest, x, y);
      FollowByStart(t, ShowTokens(rest, x), ShowTokens(rest, y));
    case Nest(open, inner, rest) =>
      OkByStart(rest, x, y);
      OkByStart(inner, [Closer(open)] + ShowTokens(rest, x), [Closer(open)] + ShowTokens(rest, y));
  }

  lemma TokenIsNotEmpty(t: Token)
    requires TokenOk(t)
    ensures ShowToken(t) != []
  {
  }

  lemma ItemStart(ts: Tokens, x: string, y: string)
    requires IsItem(ts) && TokensOk(ts, x)
    ensures SameStart(ShowTokens(ts, x), ShowTokens(ts, y))
  {
    if ts.Flat? { TokenIsNotEmpty(ts.t); }
  }

  /** An item merges with nothing that follows it. */
  lemma {:induction false} ItemMergesWithNothing(ts: Tokens, x: string, y: string)
    requires IsItem(ts) && TokensOk(ts, x)
    ensures TokensOk(ts, y)
    decreases ts
  {
    hide TokenOk, FollowOk;
    match ts
    case Flat(t, rest) =>
      if rest.Done? {
        SemicolonFollow(x, y);
      } else {
        ItemMergesWithNothing(rest, x, y);
        ItemStart(rest, x, y);
        FollowByStart(t, ShowTokens(rest, x), ShowTokens(rest, y));
      }
    case Nest(open, inner, rest) =>
      OkByStart(inner, [Closer(open)] + ShowTokens(rest, x), [Closer(open)] + ShowTokens(rest, y));
      if !rest.Done? { ItemMergesWithNothing(rest, x, y); }
  }

  lemma SemicolonFollow(x: string, y: string)
    ensures TokenOk(Mark(';')) && FollowOk(Mark(';'), x) && FollowOk(Mark(';'), y)
  {
  }

  /** The deletion of an item never takes a character behind the item. */
  lemma ItemsAreContained(ts: Tokens, post: string)
    requires IsItem(ts) && TokensOk(ts, [])
    ensures ItemLen(ShowTokens(ts, post), 0, 0) <= Length(ts)
  {
    hide ItemLen, TokensOk;
    ItemMergesWithNothing(ts, [], post);
    ItemIsBounded(ts);
    DeletionStaysInside(ts, post);
  }

  /** What a removal deletes behind its attribute: only text of the annotated node exactly under
      the stated condition, always so for an item, and nothing that a build without `test` compiles. */
  lemma RemovedTextIsTheNode(source: string, r: Removal, a: Arg, ts: Tokens, post: string, config: Config)
    requires r in Removals(source, 0) && r.start <= |source| && ArgOk(a) && TokensOk(ts, post)
    requires source[r.start..] == CFG_PREFIX + ShowArg(a, ")]" + ShowTokens(ts, post))
    ensures Holds(a.term, config) ==> "test" in config.flags
    ensures r.body <= |source| && source[r.body..] == ShowTokens(ts, post)
    ensures r.end <= r.body + Length(ts) <==> Bounded(ts, false) || Closes(post)
    ensures IsItem(ts) ==> r.end <= r.body + Length(ts)
  {
    hide SpanLen, CfgAttribute, ItemLen, HoldsOnlyUnderTest, Holds, TokensOk, ShowTokens, ShowArg;
    var rest := ShowTokens(ts, post);
    EverySpanIsARemoval(source, 0, r);
    ScannerInvertsPrinter(a, rest);
    BehindAttribute(source, r, a, rest);
    DeletionStaysInside(ts, post);
    if IsItem(ts) { ItemIsBounded(ts); }
    if Holds(a.term, config) { AnswerIsSound(a, config); }
  }

  lemma BehindAttribute(source: string, r: Removal, a: Arg, rest: string)
    requires r.start <= r.body <= |source| && ArgOk(a)
    requires source[r.start..] == CFG_PREFIX + ShowArg(a, ")]" + rest)
    requires r.body == r.start + |CFG_PREFIX| + |ShowArg(a, [])| + 2
    ensures source[r.body..] == rest
  {
    hide ShowArg;
    ShowArgAppends(a, ")]" + rest);
    var prefix, text, after := CFG_PREFIX, ShowArg(a, []), ")]" + rest;
    assert source[r.body..] == source[r.start..][|prefix| + |text| + 2..];
    DropThree(prefix, text, after);
    assert after[2..] == rest;
  }

  lemma ShowArgAppends(a: Arg, post: string)
    requires ArgOk(a) && EndsName(post)
    ensures ShowArg(a, post) == ShowArg(a, []) + post
  {
    ArgLexes(a, Nil, post);
    ArgLexes(a, Nil, []);
    PutAppends(ArgText(a, Nil), post);
  }

  lemma DropThree(prefix: string, text: string, after: string)
    requires |after| >= 2
    ensures (prefix + (text + after))[|prefix| + |text| + 2..] == after[2..]
  {
  }

  // ---- Two inputs on which the deletion leaves the node -------------------

  /** The last generic parameter of a function: the deletion takes the function's body. */
  lemma GenericParameterOverruns(post: string)
    ensures var node := Flat(Word("T"), Done);
            && TokensOk(node, ">(){}" + post) && Length(node) == 1
            && ItemLen(ShowTokens(node, ">(){}" + post), 0, 0) == 6
  {
    hide SpanLen, ItemLen;
    var node, tail := Flat(Word("T"), Done), Flat(Mark('>'), Nest('(', Done, Nest('{', Done, Done)));
    assert ShowTokens(Nest('{', Done, Done), post) == "{}" + post && TokensOk(Nest('{', Done, Done), post);
    var call := Nest('(', Done, Nest('{', Done, Done));
    assert ShowTokens(call, post) == "(){}" + post && TokensOk(call, post);
    assert ShowTokens(tail, post) == ">(){}" + post;
    assert TokensOk(tail, post);
    NodeScanned(tail, post, 0);
    assert Length(Done) == 0 && Reach(tail, false) == 5;
    NodeScanned(node, ">(){}" + post, 0);
  }

  /** An array of characters with an escaped quote in it: the eleven characters of the item are
      deleted together with the brace of the block around it. */
  lemma QuoteLiteralOverruns(post: string)
    ensures |"['\\'','{'];"| == 11 && ItemLen("['\\'','{'];" + ("}" + post), 0, 0) == 12
  {
    hide SpanLen, ItemLen;
    var s6 := [';'] + (['}'] + post);
    var s5 := [']'] + s6;
    var s4 := ['\''] + s5;
    var s3 := ['{'] + s4;
    var s2 := ['\'', ',', '\''] + s3;
    var s1 := ['\'', '\\', '\''] + s2;
    assert "['\\'','{'];" + ("}" + post) == ['['] + s1;
    MarkIsCode('[', s1);
    ItemAtChar('[', s1, 0, 0);
    EscapedQuoteRead([], s2);
    assert ['\'', '\\'] + [] + ['\''] + s2 == s1;
    QuoteOpensChar(s1);
    ItemAtSpan(['\'', '\\', '\''], s2, 0, 1);
    QuoteRead(',', s3);
    QuoteOpensChar(s2);
    ItemAtSpan(['\'', ',', '\''], s3, 0, 1);
    MarkIsCode('{', s4);
    ItemAtChar('{', s4, 0, 1);
    QuoteOpensChar(s4);
    assert CharLen(s4).None?;
    ItemAtChar('\'', s5, 1, 1);
    MarkIsCode(']', s6);
    ItemAtChar(']', s6, 1, 1);
    MarkIsCode(';', ['}'] + post);
    ItemAtChar(';', ['}'] + post, 1, 0);
    MarkIsCode('}', post);
    ItemAtChar('}', post, 1, 0);
  }

  /** Blanking the same literal leaves the text of the next one visible as code. */
  lemma QuoteLiteralShows(post: string)
    ensures |Blanked("'\\'','{'" + post)| > 6 && Blanked("'\\'','{'" + post)[6] == '{'
  {
    hide SpanLen, Blanked, Blank;
    var s3 := ['{'] + (['\''] + post);
    var s2 := ['\'', ',', '\''] + s3;
    var s1 := ['\'', '\\', '\''] + s2;
    assert "'\\'','{'" + post == s1;
    EscapedQuoteRead([], s2);
    assert ['\'', '\\'] + [] + ['\''] + s2 == s1;
    QuoteOpensChar(s1);
    BlankSpan(['\'', '\\', '\''], s2);
    QuoteRead(',', s3);
    QuoteOpensChar(s2);
    BlankSpan(['\'', ',', '\''], s3);
    MarkIsCode('{', ['\''] + post);
    BlankCodeChar('{', ['\''] + post);
  }
}
