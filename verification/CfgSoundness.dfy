/** What the policy scan answers on every printed predicate, however it is commented:
    exactly when it says yes, that a yes is sound, and that a no need not be right. */
module CfgSoundness {
  import opened ByteCodec
  import opened RustLexer
  import opened RustPolicy
  import opened CfgTree

  // ---- Soundness on every printed predicate -------------------------------

  /** The predicate holds only in configurations that set `test`. */
  ghost predicate TestOnly(c: Cfg) {
    forall config | Holds(c, config) :: "test" in config.flags
  }

  /** Blanks, closing parentheses and comments, the last of which may be cut short. */
  predicate Dull(x: string) {
    x == [] || x == "/"
    || (if "//" <= x || "/*" <= x then Dull(x[SpanLen(x).value..])
        else (IsSpace(x[0]) || x[0] == ')') && Dull(x[1..]))
  }

  lemma DullCode(x: string)
    requires x != [] && (IsSpace(x[0]) || x[0] == ')' || x == "/") && !("//" <= x || "/*" <= x)
    ensures SpanLen(x).None?
  {
    assert RawOpener(x).None?;
  }

  lemma {:induction false} DullIsOneTerm(x: string, depth: int)
    requires Dull(x)
    ensures Terms(x, depth) == [x]
    decreases |x|
  {
    if x == [] {
    } else if "//" <= x || "/*" <= x {
      var n := SpanLen(x).value;
      DullIsOneTerm(x[n..], depth);
      assert x[..n] + x[n..] == x;
    } else {
      DullCode(x);
      assert x[1..] == [] || Dull(x[1..]);
      DullIsOneTerm(x[1..], DepthAfter(x[0], depth));
      assert x[..1] + x[1..] == x;
      assert x[0] != ',' by { if x != "/" { CommaIsNoSpace(); } }
    }
  }

  lemma CommaIsNoSpace()
    ensures !IsSpace(',')
  {
  }

  lemma {:induction false} DullTrivia(t: Trivia, j: string)
    requires TriviaOk(t) && Dull(j)
    ensures Dull(ShowTrivia(t, j))
  {
    hide SpanLen;
    match t
    case Tight =>
    case Space(c, more) =>
      DullTrivia(more, j);
      DullSpace(c, ShowTrivia(more, j));
    case Comment(body, more) =>
      DullTrivia(more, j);
      CommentIsSpan(body, ShowTrivia(more, j));
      DullSpan("/*" + body + "*/", ShowTrivia(more, j));
    case Line(body, more) =>
      DullTrivia(more, j);
      DullSpace('\n', ShowTrivia(more, j));
      LineIsSpan(body, ShowTrivia(more, j));
      DullSpan("//" + body, "\n" + ShowTrivia(more, j));
  }

  lemma DullSpace(c: char, x: string)
    requires (IsSpace(c) || c == ')') && Dull(x)
    ensures Dull([c] + x)
  {
    hide SpanLen;
    assert ([c] + x)[0] == c && ([c] + x)[1..] == x;
    assert c != '/' by { SlashIsCode(); }
  }

  lemma DullSpan(text: string, x: string)
    requires ("//" <= text || "/*" <= text) && SpanLen(text + x) == Some(|text|) && Dull(x)
    ensures Dull(text + x)
  {
    hide SpanLen;
    assert (text + x)[|text|..] == x;
    assert (text + x)[..2] == text[..2];
  }

  lemma {:induction false} FindInPrefix(x: string, c: char, n: nat)
    requires n <= |x|
    ensures Find(x[..n], c) == if n < Find(x, c) then n else Find(x, c)
  {
    if n > 0 && x[0] != c {
      FindInPrefix(x[1..], c, n - 1);
      assert x[..n][1..] == x[1..][..n - 1];
    }
  }

  lemma BlockStep(x: string, depth: nat)
    requires |x| >= 2
    ensures BlockLen(x, depth) ==
              if x[0] == '/' && x[1] == '*' then 2 + BlockLen(x[2..], depth + 1)
              else if x[0] == '*' && x[1] == '/' then (if depth <= 1 then 2 else 2 + BlockLen(x[2..], depth - 1))
              else 1 + BlockLen(x[1..], depth)
  {
    assert x[..2] == [x[0], x[1]];
  }

  lemma PrefixDrop(x: string, n: nat, k: nat)
    requires k <= n <= |x|
    ensures x[..n][k..] == x[k..][..n - k]
  {
  }

  lemma {:induction false} BlockInPrefix(x: string, depth: nat, n: nat)
    requires n <= |x|
    ensures BlockLen(x[..n], depth) == if n < BlockLen(x, depth) then n else BlockLen(x, depth)
    decreases |x|
  {
    hide BlockLen;
    if n <= 1 {
      ShortBlock(x, depth, n);
    } else {
      BlockStep(x, depth);
      BlockStep(x[..n], depth);
      PrefixDrop(x, n, 1);
      PrefixDrop(x, n, 2);
      if x[0] == '/' && x[1] == '*' {
        BlockInPrefix(x[2..], depth + 1, n - 2);
      } else if x[0] != '*' || x[1] != '/' {
        BlockInPrefix(x[1..], depth, n - 1);
      } else if depth > 1 {
        BlockInPrefix(x[2..], depth - 1, n - 2);
      }
    }
  }

  lemma ShortBlock(x: string, depth: nat, n: nat)
    requires n <= |x| && n <= 1
    ensures BlockLen(x[..n], depth) == n && (n == 1 ==> BlockLen(x, depth) >= 1)
  {
    if n == 1 { assert x[..n][1..] == []; }
  }

  lemma CommentInPrefix(x: string, n: nat)
    requires ("//" <= x || "/*" <= x) && 2 <= n <= |x|
    ensures SpanLen(x).Some? && ("//" <= x[..n] || "/*" <= x[..n])
    ensures SpanLen(x[..n]) == Some(if n < SpanLen(x).value then n else SpanLen(x).value)
  {
    hide Find, BlockLen;
    assert x[..n][..2] == x[..2];
    if "//" <= x { FindInPrefix(x, '\n', n); } else { BlockInPrefix(x, 0, n); }
  }

  lemma {:induction false} DullPrefix(x: string, n: nat)
    requires Dull(x) && n <= |x|
    ensures Dull(x[..n])
    decreases |x|
  {
    hide SpanLen;
    if n == |x| {
      assert x[..n] == x;
    } else if "//" <= x || "/*" <= x {
      if n >= 2 {
        CommentInPrefix(x, n);
        var k := SpanLen(x).value;
        if k <= n {
          DullPrefix(x[k..], n - k);
          assert x[..n][k..] == x[k..][..n - k];
        } else {
          assert x[..n][n..] == [];
        }
      } else {
        assert n == 1 ==> x[..n] == "/";
      }
    } else if n > 0 {
      DullPrefix(x[1..], n - 1);
      assert x[..n] == [x[0]] + x[1..][..n - 1];
      DullSpace(x[0], x[1..][..n - 1]);
    }
  }

  lemma {:induction false} StripRightIsPrefix(y: string)
    ensures StripRight(y) == y[..|StripRight(y)|]
  {
    if y != [] && IsSpace(y[|y| - 1]) {
      StripRightIsPrefix(y[..|y| - 1]);
    }
  }

  /** Dull text that is not blank shows a slash or a parenthesis. */
  lemma {:induction false} DullShows(y: string)
    requires Dull(y) && StripRight(y) != []
    ensures '/' in StripRight(y) || ')' in StripRight(y)
    decreases |y|
  {
    hide SpanLen;
    SlashIsCode();
    if IsSpace(y[0]) {
      assert y == [y[0]] + y[1..];
      StripRightTail([y[0]], y[1..]);
      assert [y[0]][..0] == [];
      DullShows(y[1..]);
    } else {
      CodeKept(y, y[0]);
    }
  }

  /** Dull text cannot extend a name to `all(`. */
  lemma DullStarts(y: string)
    requires Dull(y)
    ensures EndsName(y) && (y != [] ==> y[0] != '(')
  {
    hide SpanLen;
    if y != [] { NamesHaveNoSpace(y[0]); }
  }

  lemma NamesHaveNoSpace(c: char)
    ensures IsSpace(c) ==> !IdentChar(c) && c != '"' && c != '#' && c != '('
  {
  }

  lemma OnlyFlagShowsTest(c: Cfg)
    requires CfgOk(c) && Show(c, []) == "test"
    ensures c == Flag("test")
  {
    ShowEnds(c);
    assert "test"[3] == 't';
    if c.Flag? { assert c.name + [] == c.name; }
  }

  lemma SettingNotAll(key: string, g: Trivia, h: Trivia, value: Literal, y: string)
    requires CfgOk(Setting(key, g, h, value))
    ensures !("all(" <= Show(Setting(key, g, h, value), []) + y)
  {
    hide ShowTrivia, ShowLiteral, LiteralOk;
    var x := "=" + ShowTrivia(h, ShowLiteral(value) + []);
    var rest := ShowTrivia(g, x);
    TriviaFirst(g, x);
    assert key + rest + y == key + (rest + y);
    NameStopsAll(key, rest + y);
  }

  lemma GroupNotAll(op: Operator, gap: Trivia, args: Args, y: string)
    requires CfgOk(Group(op, gap, args)) && "all(" <= Show(Group(op, gap, args), []) + y
    ensures op.All? && gap.Tight?
  {
    hide Show, CfgOk;
    var core := Show(Group(op, gap, args), []);
    GroupPrefix(op, gap, args);
    GroupIsLong(op, gap, args);
    assert (core + y)[..4] == core[..4];
  }

  /** Only an `all` group written tightly shows `all(`. */
  lemma AllIsGroup(c: Cfg, y: string)
    requires CfgOk(c) && Dull(y) && "all(" <= Show(c, []) + y
    ensures c.Group? && c.op.All? && c.gap.Tight?
  {
    hide Dull, Show, ShowTrivia, IsSpace;
    match c
    case Flag(name) =>
      DullStarts(y);
      FlagAnswer(name);
      NameStopsAll(name, y);
    case Setting(key, g, h, value) => SettingNotAll(key, g, h, value, y);
    case Group(op, gap, args) => GroupNotAll(op, gap, args, y);
  }

  lemma NameStopsAll(name: string, rest: string)
    requires IsName(name) && (rest != [] ==> rest[0] != '(' && !IdentChar(rest[0]))
    ensures !("all(" <= name + rest)
  {
    var p := name + rest;
    if |p| >= 4 {
      assert "all("[3] == '(' && "all("[0] == 'a' && "all("[1] == 'l' && "all("[2] == 'l';
      if |name| > 3 { assert p[3] == name[3]; } else { assert p[|name|] == rest[0]; }
    }
  }

  lemma TriviaFirst(t: Trivia, x: string)
    requires TriviaOk(t) && "=" <= x
    ensures var s := ShowTrivia(t, x); s != [] && s[0] != '(' && !IdentChar(s[0])
  {
    match t
    case Tight => assert x[0] == '=';
    case Space(c, more) => NamesHaveNoSpace(c);
    case Comment(body, more) => assert ("/*" + body + "*/")[0] == '/';
    case Line(body, more) => assert ("//" + body)[0] == '/';
  }

  lemma GroupIsLong(op: Operator, gap: Trivia, args: Args)
    requires CfgOk(Group(op, gap, args))
    ensures |Show(Group(op, gap, args), [])| >= 4
  {
    ShowArgsAppends(args, ")" + []);
    TriviaKeepsLast(gap, "(" + ShowArgs(args, ")" + []));
  }

  /** What stripping makes of a printed argument in front of dull text. */
  lemma StripMessy(a: Arg, j: string)
    requires ArgOk(a) && Dull(j)
    ensures var s, core, z := Strip(ShowArg(a, j)), Show(a.term, []), StripRight(ShowTrivia(a.after, j));
            if OnlySpaces(a.before) then s == core + z else "/" <= s
  {
    hide Show, ShowTrivia, OnlySpaces, StripLeft, StripRight, IsSpace, Dull;
    var core, y := Show(a.term, []), ShowTrivia(a.after, j);
    DullTrivia(a.after, j);
    DullStarts(y);
    ShowAppends(a.term, y);
    ShowEndsInCode(a.term);
    StripLeftTrivia(a.before, core + y);
    StripRightTail(core, y);
    if !OnlySpaces(a.before) { SlashKept(StripLeft(ShowArg(a, j))); }
  }

  /** The scan says yes on the argument when `j` follows it. A closing parenthesis at the end of
      the trailing text, even in a line comment, is taken for the one that closes an `all`. */
  predicate Yes(a: Arg, j: string)
    decreases a, 1
  {
    var z := StripRight(ShowTrivia(a.after, j));
    && OnlySpaces(a.before)
    && match a.term
       case Flag(name) => name == "test" && z == []
       case Setting(_, _, _, _) => false
       case Group(op, gap, args) =>
         op.All? && gap.Tight? && Parenthesized(z) && SomeYes(args, Behind(z))
  }

  /** Some argument is answered yes when `j` follows the last one. */
  predicate SomeYes(args: Args, j: string)
    decreases args, 2
  {
    match args
    case End(_) => false
    case Only(a) => Yes(a, j)
    case Comma(a, rest) => Yes(a, []) || SomeYes(rest, j)
  }

  predicate Parenthesized(z: string) {
    z == [] || z[|z| - 1] == ')'
  }

  /** What follows the arguments of an `all` group that `z` follows, up to the last parenthesis. */
  function Behind(z: string): (j: string) {
    if z == [] then [] else [')'] + z[..|z| - 1]
  }

  /** Some term of the text is answered yes. */
  ghost predicate SomeTerm(body: string) {
    exists x | x in Terms(body, 0) :: HoldsOnlyUnderTest(x)
  }

  lemma AnswerUnfolds(text: string)
    ensures var p := Strip(text);
            HoldsOnlyUnderTest(text) == (p == "test" || ("all(" <= p && p[|p| - 1] == ')' && SomeTerm(p[4..|p| - 1])))
  {
    hide Strip, Terms;
    var p := Strip(text);
    if "all(" <= p && p[|p| - 1] == ')' {
      assert "all("[3] == '(' && |p| >= 5;
      if SomeTerm(p[4..|p| - 1]) {
        var x :| x in Terms(p[4..|p| - 1], 0) && HoldsOnlyUnderTest(x);
        assert HoldsOnlyUnderTest(text);
      }
    }
  }

  /** On every printed predicate the scan says yes exactly where `Yes` does. */
  lemma {:induction false} YesIsExact(a: Arg, j: string)
    requires ArgOk(a) && Dull(j)
    ensures HoldsOnlyUnderTest(ShowArg(a, j)) <==> Yes(a, j)
    decreases a, 1
  {
    hide Show, ShowTrivia, Terms, StripLeft, StripRight, IsSpace, Dull, SpanLen, Strip, OnlySpaces, HoldsOnlyUnderTest;
    hide SomeYes, SomeTerm;
    var core, y := Show(a.term, []), ShowTrivia(a.after, j);
    var z, p := StripRight(y), Strip(ShowArg(a, j));
    AnswerUnfolds(ShowArg(a, j));
    StripMessy(a, j);
    SlashRefused(p);
    DullTrivia(a.after, j);
    StripRightIsPrefix(y);
    DullPrefix(y, |z|);
    if OnlySpaces(a.before) {
      if p == "test" { MessyTest(core, z, y, p); OnlyFlagShowsTest(a.term); }
      if "all(" <= p { AllIsGroup(a.term, z); }
      match a.term
      case Flag(name) =>
        FlagAnswer(name);
        assert core + [] == core;
      case Setting(_, _, _, _) =>
      case Group(op, gap, args) =>
        if op.All? && gap.Tight? {
          GroupPrefix(op, gap, args);
          GroupBody(args);
          AllIsExact(args, y, z, p);
        }
    }
  }

  lemma SlashRefused(p: string)
    ensures "/" <= p ==> p != "test" && !("all(" <= p)
  {
    assert "all("[0] == 'a' && "test"[0] == 't';
  }

  lemma {:induction false} AllIsExact(args: Args, y: string, z: string, p: string)
    requires ArgsOk(args) && Dull(y) && z == StripRight(y) && p == Show(Group(All, Tight, args), []) + z
    ensures |p| >= 5 && "all(" <= p && (p[|p| - 1] == ')' <==> Parenthesized(z))
    ensures Parenthesized(z) ==>
              (SomeTerm(p[4..|p| - 1]) <==> SomeYes(args, Behind(z)))
    decreases args, 4
  {
    hide Show, Terms, StripRight, Dull, HoldsOnlyUnderTest, SomeYes, SomeTerm;
    var core, inner := Show(Group(All, Tight, args), []), ShowArgs(args, []);
    GroupBody(args);
    GroupPrefix(All, Tight, args);
    if z == [] {
      assert core + [] == core;
      DullNothing();
      GroupIsExact(args, [], p[4..|p| - 1]);
    } else if Parenthesized(z) {
      var k := z[..|z| - 1];
      StripRightIsPrefix(y);
      DullPrefix(y, |k|);
      assert y[..|k|] == k && z == k + [')'];
      DullParen(k);
      ShowArgsAppends(args, [')'] + k);
      CutLast(core, inner, k, p);
      GroupIsExact(args, [')'] + k, p[4..|p| - 1]);
    }
  }

  lemma CutLast(core: string, inner: string, k: string, p: string)
    requires |core| >= 5 && core[4..|core| - 1] == inner && core[|core| - 1] == ')' && p == core + (k + [')'])
    ensures p[4..|p| - 1] == inner + ([')'] + k)
  {
    var n := |core| - 1;
    assert core == core[..4] + inner + [')'];
    assert p[4..|p| - 1] == core[4..] + k;
    assert core[4..] == inner + [')'];
  }

  lemma DullParen(k: string)
    requires Dull(k)
    ensures Dull([')'] + k) && EndsName([')'] + k)
  {
    DullSpace(')', k);
    DullStarts([')'] + k);
  }

  lemma MessyTest(core: string, z: string, y: string, p: string)
    requires Dull(y) && z == StripRight(y) && p == core + z == "test"
    ensures core == "test"
  {
    hide Dull;
    if z != [] {
      NoMarks(core, z);
      DullShows(y);
    } else {
      assert core + [] == core;
    }
  }

  lemma NoMarks(core: string, z: string)
    requires core + z == "test"
    ensures '/' !in z && ')' !in z
  {
    forall c | c in z ensures c in "test" { assert c in core + z; }
  }

  lemma DullNothing()
    ensures Dull([]) && EndsName([])
  {
  }

  lemma {:induction false} GroupIsExact(args: Args, j: string, body: string)
    requires ArgsOk(args) && Dull(j) && EndsName(j) && body == ShowArgs(args, j)
    ensures SomeTerm(body) <==> SomeYes(args, j)
    decreases args, 3
  {
    hide Terms, Dull, HoldsOnlyUnderTest, SomeYes;
    DullIsOneTerm(j, 0);
    SplitterWithTail(args, j);
    ListIsExact(args, j);
  }

  lemma {:induction false} ListIsExact(args: Args, j: string)
    requires ArgsOk(args) && Dull(j)
    ensures (exists x | x in ShowListWith(args, j) :: HoldsOnlyUnderTest(x)) <==> SomeYes(args, j)
    decreases args, 2
  {
    hide Dull, HoldsOnlyUnderTest, Yes, ShowArg, ShowTrivia;
    match args
    case End(gap) => GapIsNoAnswer(gap, j);
    case Only(a) => YesIsExact(a, j);
    case Comma(a, rest) =>
      DullNothing();
      YesIsExact(a, []);
      ListIsExact(rest, j);
  }

  lemma GapIsNoAnswer(gap: Trivia, j: string)
    requires TriviaOk(gap) && Dull(j)
    ensures !HoldsOnlyUnderTest(ShowTrivia(gap, j))
  {
    hide Dull, Terms, StripRight, ShowTrivia, IsSpace;
    var y := ShowTrivia(gap, j);
    DullTrivia(gap, j);
    DullStripLeft(y);
    var w := StripLeft(y);
    if w != [] { StripRightKeepsFirst(w); }
  }

  lemma {:induction false} DullStripLeft(y: string)
    requires Dull(y)
    ensures var w := StripLeft(y); w == [] || ((w[0] == '/' || w[0] == ')') && !IsSpace(w[0]))
    decreases |y|
  {
    hide SpanLen;
    SlashIsCode();
    if y != [] && IsSpace(y[0]) { DullStripLeft(y[1..]); }
  }

  /** On every printed predicate the answer is exactly `Yes`. */
  lemma AnswerIsExact(a: Arg)
    requires ArgOk(a)
    ensures HoldsOnlyUnderTest(ShowArg(a, [])) <==> Yes(a, [])
  {
    hide HoldsOnlyUnderTest, Yes;
    DullNothing();
    YesIsExact(a, []);
  }

  lemma {:induction false} YesIsSound(a: Arg, j: string)
    requires Yes(a, j)
    ensures TestOnly(a.term)
    decreases a, 1
  {
    hide StripRight, OnlySpaces;
    if a.term.Group? { SomeYesIsSound(a.term.args, Behind(StripRight(ShowTrivia(a.after, j)))); }
  }

  lemma {:induction false} SomeYesIsSound(args: Args, j: string)
    requires SomeYes(args, j)
    ensures forall config | AllHold(args, config) :: "test" in config.flags
    decreases args, 2
  {
    hide Yes;
    match args
    case Only(a) => YesIsSound(a, j);
    case Comma(a, rest) => if Yes(a, []) { YesIsSound(a, []); } else { SomeYesIsSound(rest, j); }
  }

  /** A yes is sound: no configuration without `test` satisfies the predicate. */
  lemma AnswerIsSound(a: Arg, config: Config)
    requires ArgOk(a)
    requires HoldsOnlyUnderTest(ShowArg(a, [])) && Holds(a.term, config)
    ensures "test" in config.flags
  {
    hide HoldsOnlyUnderTest, Yes;
    AnswerIsExact(a);
    YesIsSound(a, []);
  }

  /** The last character that is not white space, if any, is not a closing parenthesis. */
  predicate NoFinalParen(s: string) {
    var z := StripRight(s);
    z != [] ==> z[|z| - 1] != ')'
  }

  /** No line comment behind an argument ends in a closing parenthesis. */
  predicate Tidy(a: Arg) {
    NoFinalParen(ShowTrivia(a.after, [])) && (a.term.Group? ==> TidyArgs(a.term.args))
  }

  predicate TidyArgs(args: Args) {
    match args
    case End(_) => true
    case Only(a) => Tidy(a)
    case Comma(a, rest) => Tidy(a) && TidyArgs(rest)
  }

  lemma TrailingTrivia(t: Trivia)
    requires TriviaOk(t)
    ensures StripRight(ShowTrivia(t, [])) == [] <==> OnlySpaces(t)
  {
    if OnlySpaces(t) {
      SpacesVanish(t);
    } else {
      CommentsHaveSlash(t, []);
      SlashIsCode();
      CodeKept(ShowTrivia(t, []), '/');
    }
  }

  /** On tidy predicates a yes means one of the two documented shapes. */
  lemma {:induction false} TidyAnswer(a: Arg)
    requires ArgOk(a) && Tidy(a)
    ensures Yes(a, []) <==> ArgQualifies(a)
    decreases a, 1
  {
    hide StripRight, ShowTrivia, OnlySpaces;
    TrailingTrivia(a.after);
    if a.term.Group? { TidyArgsAnswer(a.term.args); }
  }

  lemma {:induction false} TidyArgsAnswer(args: Args)
    requires ArgsOk(args) && TidyArgs(args)
    ensures SomeYes(args, []) <==> SomeQualifies(args)
    decreases args, 2
  {
    hide Yes, ArgQualifies;
    match args
    case End(_) =>
    case Only(a) => TidyAnswer(a);
    case Comma(a, rest) =>
      TidyAnswer(a);
      TidyArgsAnswer(rest);
  }

  /** Without tidiness the scan may say yes on another shape: a line comment behind the group
      lends it a closing parenthesis. */
  lemma UntidyAnswer()
    ensures var test := Arg(Tight, Flag("test"), Tight);
            var a := Arg(Tight, Group(All, Tight, Comma(test, End(Tight))), Line(")", Tight));
            ArgOk(a) && HoldsOnlyUnderTest(ShowArg(a, [])) && !ArgQualifies(a)
  {
    hide HoldsOnlyUnderTest;
    var test := Arg(Tight, Flag("test"), Tight);
    var comment := Line(")", Tight);
    var a := Arg(Tight, Group(All, Tight, Comma(test, End(Tight))), comment);
    var y, z := ShowTrivia(comment, []), ['/', '/', ')'];
    assert y == z + ['\n'] && y[..3] == z;
    assert StripRight(z) == z;
    assert StripRight(y) == z;
    assert Yes(test, []);
    AnswerIsExact(a);
  }

  /** The answer is not complete: `any(test)` holds only under test and is refused. */
  lemma AnswerIsNotComplete()
    ensures var c := Group(Any, Tight, Only(Arg(Tight, Flag("test"), Tight)));
            && ArgOk(Arg(Tight, c, Tight))
            && !HoldsOnlyUnderTest(ShowArg(Arg(Tight, c, Tight), []))
            && forall config :: Holds(c, config) ==> "test" in config.flags
  {
    var c := Group(Any, Tight, Only(Arg(Tight, Flag("test"), Tight)));
    AnswerIsExact(Arg(Tight, c, Tight));
    forall config | Holds(c, config) ensures "test" in config.flags {
      assert SomeHolds(c.args, config) == Holds(Flag("test"), config);
    }
  }
}
