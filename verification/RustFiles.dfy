/** Whole Rust source files with `cfg` attributes in them: the removal deletes exactly the
    items that are annotated as test-only, at every nesting depth. */
module RustFiles {
  import opened ByteCodec
  import opened RustLexer
  import opened RustPolicy
  import opened CfgTree
  import opened CfgSoundness
  import opened RustTokens
  import opened RustRemoval
  import opened RustItems

  /** Tokens, groups, `cfg` attributes that may hold without `test`, and test-only items. */
  datatype File =
    | Stop
    | Plain(t: Token, rest: File)
    | Block(open: char, inner: File, rest: File)
    | Shipped(a: Arg, rest: File)
    | TestItem(a: Arg, item: Tokens, rest: File)

  function ShowFile(f: File, post: string): (s: string) {
    match f
    case Stop => post
    case Plain(t, rest) => ShowToken(t) + ShowFile(rest, post)
    case Block(open, inner, rest) => [open] + ShowFile(inner, [Closer(open)] + ShowFile(rest, post))
    case Shipped(a, rest) => CFG_PREFIX + ShowArg(a, ")]" + ShowFile(rest, post))
    case TestItem(a, item, rest) => CFG_PREFIX + ShowArg(a, ")]" + ShowTokens(item, ShowFile(rest, post)))
  }

  /** The file without its test-only items. */
  function ShowShipped(f: File, post: string): (s: string) {
    match f
    case Stop => post
    case Plain(t, rest) => ShowToken(t) + ShowShipped(rest, post)
    case Block(open, inner, rest) => [open] + ShowShipped(inner, [Closer(open)] + ShowShipped(rest, post))
    case Shipped(a, rest) => CFG_PREFIX + ShowArg(a, []) + ")]" + ShowShipped(rest, post)
    case TestItem(_, _, rest) => ShowShipped(rest, post)
  }

  /** The first stopping place of the item is its last character. */
  predicate Whole(item: Tokens) {
    Bounded(item, false) && Reach(item, false) == Length(item)
  }

  predicate FileOk(f: File, post: string) {
    match f
    case Stop => true
    case Plain(t, rest) =>
      && TokenOk(t) && FollowOk(t, ShowFile(rest, post)) && FileOk(rest, post)
      && (t == Mark('#') ==> !("[cfg(" <= ShowFile(rest, post)))
    case Block(open, inner, rest) =>
      && (open == '(' || open == '[' || open == '{')
      && FileOk(inner, [Closer(open)] + ShowFile(rest, post)) && FileOk(rest, post)
    case Shipped(a, rest) => ArgOk(a) && !Yes(a, []) && FileOk(rest, post)
    case TestItem(a, item, rest) =>
      ArgOk(a) && Yes(a, []) && Whole(item) && TokensOk(item, ShowFile(rest, post)) && FileOk(rest, post)
  }

  // ---- Steps of the removal -----------------------------------------------

  lemma OutsideSpan(text: string, post: string)
    requires text != [] && SpanLen(text + post) == Some(|text|)
    ensures Outside(text + post) == text + Outside(post)
  {
    hide SpanLen, CfgAttribute, ItemLen, HoldsOnlyUnderTest;
    var s := text + post;
    assert s[..|text|] == text && s[|text|..] == post;
  }

  lemma OutsideCodeChar(c: char, post: string)
    requires SpanLen([c] + post).None? && !(CFG_PREFIX <= [c] + post)
    ensures Outside([c] + post) == [c] + Outside(post)
  {
    hide SpanLen, ItemLen, HoldsOnlyUnderTest;
    var s := [c] + post;
    assert s[..1] == [c] && s[1..] == post;
  }

  lemma PrefixParts(s: string)
    requires CFG_PREFIX <= s
    ensures |s| > 1 && s[0] == '#' && s[1] == '[' && "[cfg(" <= s[1..]
  {
    assert s[0] == CFG_PREFIX[0] && s[1] == CFG_PREFIX[1];
    assert s[1..][..5] == CFG_PREFIX[1..] == "[cfg(";
  }

  lemma NoPrefix(s: string)
    requires s != [] && (s[0] != '#' || (|s| > 1 && s[1] != '[') || !("[cfg(" <= s[1..]))
    ensures !(CFG_PREFIX <= s)
  {
    if CFG_PREFIX <= s { PrefixParts(s); }
  }

  /** Code in which no attribute starts is kept. */
  lemma {:induction false} OutsideCode(text: string, post: string)
    requires AllCode(text, post)
    requires forall i | 0 <= i < |text| && text[i] == '#' :: i + 1 < |text| && text[i + 1] != '['
    ensures Outside(text + post) == text + Outside(post)
  {
    hide SpanLen, Outside;
    if text == [] {
      assert text + post == post;
    } else {
      var tail := text[1..];
      DropFirstCode(text, post);
      forall i | 0 <= i < |tail| && tail[i] == '#' ensures i + 1 < |tail| && tail[i + 1] != '[' {
        assert text[i + 1] == '#';
      }
      OutsideCode(tail, post);
      assert text + post == [text[0]] + (tail + post);
      assert |text| > 1 ==> (text + post)[1] == text[1];
      NoPrefix(text + post);
      OutsideCodeChar(text[0], tail + post);
      assert [text[0]] + (tail + Outside(post)) == text + Outside(post);
    }
  }

  lemma HashesInCode(t: Token)
    requires TokenOk(t) && !IsSpan(t) && t != Mark('#')
    ensures forall i | 0 <= i < |ShowToken(t)| && ShowToken(t)[i] == '#' ::
              i + 1 < |ShowToken(t)| && ShowToken(t)[i + 1] != '['
  {
    if t.RawWord? {
      var s := ShowToken(t);
      assert s[2..] == t.name && s[0] == 'r' && s[2] == t.name[0];
      assert forall i | 2 <= i < |s| :: s[i] == t.name[i - 2];
    }
  }

  lemma OutsideToken(t: Token, post: string)
    requires TokenOk(t) && FollowOk(t, post) && (t == Mark('#') ==> !("[cfg(" <= post))
    ensures Outside(ShowToken(t) + post) == ShowToken(t) + Outside(post)
  {
    hide SpanLen, Outside, AllCode;
    if IsSpan(t) {
      SpanIsNotEmpty(t);
      SpanTokenRead(t, post);
      OutsideSpan(ShowToken(t), post);
    } else if t == Mark('#') {
      MarkIsCode('#', post);
      assert ([t.c] + post)[1..] == post;
      NoPrefix([t.c] + post);
      OutsideCodeChar('#', post);
    } else {
      CodeTokenRead(t, post);
      HashesInCode(t);
      OutsideCode(ShowToken(t), post);
    }
  }

  lemma OutsideDelimiter(c: char, post: string)
    requires IsDelimiter(c)
    ensures Outside([c] + post) == [c] + Outside(post)
  {
    hide Outside;
    MarkIsCode(c, post);
    NoPrefix([c] + post);
    OutsideCodeChar(c, post);
  }

  /** What the removal does at an attribute. */
  lemma AtAttribute(s: string, text: string, n: nat)
    requires s != [] && SpanLen(s).None? && CfgAttribute(s) == Some((text, n))
    ensures n <= |s|
    ensures Outside(s) == if HoldsOnlyUnderTest(text) then Outside(s[n + ItemLen(s[n..], 0, 0)..])
                          else s[..n] + Outside(s[n..])
  {
    hide SpanLen, CfgAttribute, ItemLen, HoldsOnlyUnderTest;
  }

  lemma OutsideAttribute(a: Arg, post: string)
    requires ArgOk(a)
    ensures var s := CFG_PREFIX + ShowArg(a, ")]" + post);
            Outside(s) == if Yes(a, []) then Outside(post[ItemLen(post, 0, 0)..])
                          else CFG_PREFIX + ShowArg(a, []) + ")]" + Outside(post)
  {
    hide SpanLen, CfgAttribute, ItemLen, HoldsOnlyUnderTest, ShowArg, Outside, Yes;
    var prefix, text, after := CFG_PREFIX, ShowArg(a, []), ")]" + post;
    var s := prefix + ShowArg(a, after);
    var n := |prefix| + |text| + 2;
    ShowArgAppends(a, after);
    ScannerInvertsPrinter(a, post);
    AnswerIsExact(a);
    AttributeIsCode(s);
    AtAttribute(s, text, n);
    SplitAttribute(prefix, text, after, s);
    assert after[2..] == post && after[..2] == ")]";
    if Yes(a, []) {
      assert s[n + ItemLen(post, 0, 0)..] == s[n..][ItemLen(post, 0, 0)..];
    }
  }

  lemma AttributeIsCode(s: string)
    requires CFG_PREFIX <= s
    ensures SpanLen(s).None?
  {
    assert s[0] == CFG_PREFIX[0] == '#';
    MarkIsCode('#', s[1..]);
    assert s == ['#'] + s[1..];
  }

  lemma SplitAttribute(prefix: string, text: string, after: string, s: string)
    requires s == prefix + (text + after) && |after| >= 2
    ensures var n := |prefix| + |text| + 2; s[n..] == after[2..] && s[..n] == prefix + text + after[..2]
  {
  }

  /** A test-only item disappears with its attribute. */
  lemma OutsideItem(a: Arg, item: Tokens, post: string)
    requires ArgOk(a) && Yes(a, []) && Whole(item) && TokensOk(item, post)
    ensures Outside(CFG_PREFIX + ShowArg(a, ")]" + ShowTokens(item, post))) == Outside(post)
  {
    hide ItemLen, Outside, Yes, ShowArg, TokensOk;
    NodeScanned(item, post, 0);
    OutsideAttribute(a, ShowTokens(item, post));
    TokensThenPost(item, post);
  }

  lemma {:induction false} TokensThenPost(ts: Tokens, post: string)
    ensures |ShowTokens(ts, post)| >= Length(ts) && ShowTokens(ts, post)[Length(ts)..] == post
  {
    match ts
    case Done =>
    case Flat(t, rest) =>
      TokensThenPost(rest, post);
      assert ShowTokens(ts, post)[Length(ts)..] == ShowTokens(rest, post)[Length(rest)..];
    case Nest(open, inner, rest) =>
      var after := [Closer(open)] + ShowTokens(rest, post);
      TokensThenPost(rest, post);
      TokensThenPost(inner, after);
      GroupLength(open, inner, rest);
      assert ShowTokens(ts, post)[Length(ts)..] == ShowTokens(inner, after)[Length(inner) + 1 + Length(rest)..];
      assert ShowTokens(inner, after)[Length(inner)..][1 + Length(rest)..] == after[1 + Length(rest)..];
      assert after[1 + Length(rest)..] == ShowTokens(rest, post)[Length(rest)..];
  }

  /** The removal deletes exactly the test-only items of the file and keeps everything else. */
  lemma {:induction false} RemovalIsExact(f: File, post: string)
    requires FileOk(f, post)
    ensures Outside(ShowFile(f, post)) == ShowShipped(f, Outside(post))
    decreases f
  {
    hide Outside, TokenOk, FollowOk, ShowToken, Yes, Whole, TokensOk, ShowArg, ArgOk;
    match f
    case Stop =>
    case Plain(t, rest) =>
      RemovalIsExact(rest, post);
      OutsideToken(t, ShowFile(rest, post));
    case Block(open, inner, rest) =>
      var after := [Closer(open)] + ShowFile(rest, post);
      RemovalIsExact(rest, post);
      OutsideDelimiter(Closer(open), ShowFile(rest, post));
      RemovalIsExact(inner, after);
      OutsideDelimiter(open, ShowFile(inner, after));
    case Shipped(a, rest) =>
      RemovalIsExact(rest, post);
      OutsideAttribute(a, ShowFile(rest, post));
    case TestItem(a, item, rest) =>
      RemovalIsExact(rest, post);
      OutsideItem(a, item, ShowFile(rest, post));
  }
}
