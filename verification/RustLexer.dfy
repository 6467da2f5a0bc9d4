/** The comment and literal recogniser of the Rust source policy scan, and the
    transformation that blanks what it recognises. */
module RustLexer {
  import opened ByteCodec

  /** Index of the first `c`, or the length when there is none. */
  function Find(s: string, c: char): (n: nat)
    ensures n <= |s|
    ensures forall k | 0 <= k < n :: s[k] != c
    ensures n < |s| ==> s[n] == c
  {
    if s == [] || s[0] == c then 0 else 1 + Find(s[1..], c)
  }

  /** Index of the first occurrence of `t`, or none. */
  function FindText(s: string, t: string): (n: Option<nat>)
    ensures n.Some? ==> n.value + |t| <= |s|
  {
    if t <= s then Some(0)
    else if s == [] then None
    else
      var rest := FindText(s[1..], t);
      if rest.None? then None else Some(1 + rest.value)
  }

  /** Characters of nested block comment text up to the delimiter that closes `depth`. */
  function BlockLen(s: string, depth: nat): (n: nat)
    ensures n <= |s|
  {
    if s == [] then 0
    else if "/*" <= s then 2 + BlockLen(s[2..], depth + 1)
    else if "*/" <= s then (if depth <= 1 then 2 else 2 + BlockLen(s[2..], depth - 1))
    else 1 + BlockLen(s[1..], depth)
  }

  function Hashes(s: string): (n: nat)
    ensures n <= |s|
  {
    if s == [] || s[0] != '#' then 0 else 1 + Hashes(s[1..])
  }

  /** Length of a raw string opener `r"`, `r#"`, `br##"`, and so on, with its hash count. */
  function RawOpener(s: string): (r: Option<(nat, nat)>)
    ensures r.Some? ==> 2 <= r.value.0 <= |s| && s[r.value.0 - 1] == '"'
    ensures r.Some? ==> s[0] == 'b' || s[0] == 'r'
  {
    var p := if s != [] && s[0] == 'b' then 1 else 0;
    if p < |s| && s[p] == 'r' then
      var n := Hashes(s[p + 1..]);
      if p + 1 + n < |s| && s[p + 1 + n] == '"' then Some((p + 2 + n, n)) else None
    else None
  }

  function Terminator(hashes: nat): (t: string)
    ensures |t| == 1 + hashes
  {
    ['"'] + seq(hashes, _ => '#')
  }

  function RawLen(s: string, opener: (nat, nat)): (n: nat)
    requires 2 <= opener.0 <= |s|
    ensures 0 < n <= |s|
  {
    var close := FindText(s[opener.0..], Terminator(opener.1));
    if close.None? then |s| else opener.0 + close.value + 1 + opener.1
  }

  /** Characters of string text after the opening quote, closing quote included. */
  function QuotedLen(s: string): (n: nat)
    ensures n <= |s|
  {
    if s == [] then 0
    else if s[0] == '\\' then (if |s| < 2 then |s| else 2 + QuotedLen(s[2..]))
    else if s[0] == '"' then 1
    else 1 + QuotedLen(s[1..])
  }

  /** A quote that closes as a character literal; any other quote is a lifetime. */
  function CharLen(s: string): (n: Option<nat>)
    requires s != [] && s[0] == '\''
    ensures n.Some? ==> 3 <= n.value <= |s|
  {
    if |s| < 3 then None
    else if s[1] == '\\' then
      var k := Find(s[2..], '\'');
      if 2 + k < |s| then Some(3 + k) else None
    else if s[1] != '\'' && s[2] == '\'' then Some(3)
    else None
  }

  /** Length of the comment or literal that `s` starts with; none when it starts with code. */
  function SpanLen(s: string): (n: Option<nat>)
    requires s != []
    ensures n.Some? ==> 0 < n.value <= |s|
  {
    if "//" <= s then Some(Find(s, '\n'))
    else if "/*" <= s then Some(BlockLen(s, 0))
    else if RawOpener(s).Some? then Some(RawLen(s, RawOpener(s).value))
    else if s[0] == '"' then Some(1 + QuotedLen(s[1..]))
    else if s[0] == '\'' then CharLen(s)
    else None
  }

  function SpanEnd(source: string, index: nat): (end: Option<nat>)
    requires index < |source|
    ensures end.Some? ==> index < end.value <= |source|
  {
    var n := SpanLen(source[index..]);
    if n.None? then None else Some(index + n.value)
  }

  /** The two search loops of `str.find`. */
  method FindFrom(source: string, start: nat, t: string) returns (r: Option<nat>)
    requires start <= |source|
    ensures var n := FindText(source[start..], t);
            r == (if n.None? then None else Some(start + n.value))
  {
    var k := start;
    while k < |source|
      invariant start <= k <= |source|
      invariant var n, m := FindText(source[start..], t), FindText(source[k..], t);
                n.None? == m.None? && (n.Some? ==> start + n.value == k + m.value)
    {
      if t <= source[k..] {
        return Some(k);
      }
      assert source[k..][1..] == source[k + 1..];
      k := k + 1;
    }
    return if t == [] then Some(k) else None;
  }

  lemma BlockUnfolds(source: string, at: nat, depth: nat)
    requires at < |source|
    ensures BlockLen(source[at..], depth) ==
              if "/*" <= source[at..] then 2 + BlockLen(source[at + 2..], depth + 1)
              else if "*/" <= source[at..] then (if depth <= 1 then 2 else 2 + BlockLen(source[at + 2..], depth - 1))
              else 1 + BlockLen(source[at + 1..], depth)
  {
    assert source[at..][1..] == source[at + 1..];
    if at + 2 <= |source| {
      assert source[at..][2..] == source[at + 2..];
    }
  }

  method BlockCommentEnd(source: string, index: nat) returns (end: nat)
    requires index < |source| && "/*" <= source[index..]
    ensures end == index + BlockLen(source[index..], 0)
  {
    hide BlockLen;
    var depth: nat := 0;
    end := index;
    while end < |source|
      invariant index <= end <= |source|
      invariant depth == 0 ==> end == index
      invariant end + BlockLen(source[end..], depth) == index + BlockLen(source[index..], 0)
    {
      BlockUnfolds(source, end, depth);
      if "/*" <= source[end..] {
        depth, end := depth + 1, end + 2;
      } else if "*/" <= source[end..] {
        depth, end := depth - 1, end + 2;
        if depth == 0 { return; }
      } else {
        end := end + 1;
      }
    }
  }

  method QuotedEnd(source: string, index: nat) returns (end: nat)
    requires index < |source|
    ensures end == index + 1 + QuotedLen(source[index + 1..])
  {
    end := index + 1;
    while end < |source|
      invariant index < end <= |source|
      invariant end + QuotedLen(source[end..]) == index + 1 + QuotedLen(source[index + 1..])
    {
      assert source[end..][1..] == source[end + 1..];
      if source[end] == '\\' {
        if end + 2 <= |source| {
          assert source[end..][2..] == source[end + 2..];
          end := end + 2;
        } else {
          end := |source|;
        }
      } else if source[end] == '"' {
        return end + 1;
      } else {
        end := end + 1;
      }
    }
  }

  method LiteralOrCommentEnd(source: string, index: nat) returns (end: Option<nat>)
    requires index < |source|
    ensures end == SpanEnd(source, index)
  {
    hide Find, BlockLen, RawOpener, FindText, QuotedLen, CharLen;
    var s := source[index..];
    if "//" <= s {
      var line := Find(s, '\n');
      return Some(index + line);
    }
    if "/*" <= s {
      var close := BlockCommentEnd(source, index);
      return Some(close);
    }
    var raw := RawOpener(s);
    if raw.Some? {
      assert source[index + raw.value.0..] == s[raw.value.0..];
      var close := FindFrom(source, index + raw.value.0, Terminator(raw.value.1));
      return if close.None? then Some(|source|) else Some(close.value + 1 + raw.value.1);
    }
    if source[index] == '"' {
      assert s[1..] == source[index + 1..];
      var close := QuotedEnd(source, index);
      return Some(close);
    }
    if source[index] == '\'' {
      var character := CharLen(s);
      return if character.None? then None else Some(index + character.value);
    }
    return None;
  }

  function Blank(span: string): (r: string)
    ensures |r| == |span|
  {
    seq(|span|, i requires 0 <= i < |span| => if span[i] == '\n' then '\n' else ' ')
  }

  /** The source with every comment and literal blanked out. */
  function Blanked(s: string): (r: string)
    ensures |r| == |s|
  {
    if s == [] then []
    else match SpanLen(s)
      case None => [s[0]] + Blanked(s[1..])
      case Some(n) => Blank(s[..n]) + Blanked(s[n..])
  }

  /** The scan visits position `k` as ordinary code. */
  predicate IsCode(s: string, k: int) {
    if s == [] || k < 0 then false
    else match SpanLen(s)
      case None => k == 0 || IsCode(s[1..], k - 1)
      case Some(n) => IsCode(s[n..], k - n)
  }

  method CodeWithoutCommentsOrLiterals(source: string) returns (kept: string)
    ensures kept == Blanked(source)
  {
    hide SpanLen;
    kept := [];
    var index := 0;
    while index < |source|
      invariant 0 <= index <= |source|
      invariant kept + Blanked(source[index..]) == Blanked(source)
    {
      var skip := LiteralOrCommentEnd(source, index);
      BlankedUnfolds(source, index);
      var next, text := index + 1, [source[index]];
      if skip.Some? {
        next, text := skip.value, Blank(source[index..skip.value]);
      }
      assert kept + (text + Blanked(source[next..])) == (kept + text) + Blanked(source[next..]);
      kept, index := kept + text, next;
    }
  }

  lemma BlankedUnfolds(source: string, index: nat)
    requires index < |source|
    ensures var end := SpanEnd(source, index);
            Blanked(source[index..]) ==
              if end.None? then [source[index]] + Blanked(source[index + 1..])
              else Blank(source[index..end.value]) + Blanked(source[end.value..])
  {
    hide SpanLen;
    var s, n := source[index..], SpanLen(source[index..]);
    if n.None? {
      assert s[1..] == source[index + 1..];
    } else {
      assert s[..n.value] == source[index..index + n.value];
      assert s[n.value..] == source[index + n.value..];
    }
  }

  lemma {:induction false} CodeBounds(s: string, k: int)
    requires IsCode(s, k)
    ensures 0 <= k < |s|
    ensures SpanLen(s[k..]).None?
    decreases |s|
  {
    hide SpanLen;
    match SpanLen(s) {
      case None =>
        if k > 0 {
          CodeBounds(s[1..], k - 1);
          assert s[1..][k - 1..] == s[k..];
        } else {
          assert s[0..] == s;
        }
      case Some(n) =>
        CodeBounds(s[n..], k - n);
        assert s[n..][k - n..] == s[k..];
    }
  }

  /** Code characters and every newline survive blanking; all else becomes a space. */
  lemma {:induction false} BlankedAt(s: string, k: int)
    requires 0 <= k < |s|
    ensures Blanked(s)[k] == if IsCode(s, k) || s[k] == '\n' then s[k] else ' '
    decreases |s|
  {
    hide SpanLen;
    match SpanLen(s) {
      case None =>
        if k > 0 { BlankedAt(s[1..], k - 1); }
      case Some(n) =>
        if k >= n { BlankedAt(s[n..], k - n); } else { CodeNotBelow(s[n..], k - n); }
    }
  }

  lemma CodeNotBelow(s: string, k: int)
    requires k < 0
    ensures !IsCode(s, k)
  {
  }

  lemma DropTwice(s: string, i: nat, k: nat)
    requires i <= k <= |s|
    ensures s[i..][k - i..] == s[k..]
  {
  }

  lemma DropPrefix(a: string, b: string, k: nat)
    requires |a| <= k <= |a| + |b|
    ensures (a + b)[k..] == b[k - |a|..]
  {
  }

  /** Blanking commutes with dropping everything before a code position. */
  lemma {:induction false} BlankedSuffix(s: string, k: int)
    requires IsCode(s, k)
    ensures 0 <= k < |s| && Blanked(s)[k..] == Blanked(s[k..])
    decreases |s|
  {
    hide SpanLen;
    CodeBounds(s, k);
    match SpanLen(s) {
      case None =>
        if k > 0 {
          BlankedSuffix(s[1..], k - 1);
          DropTwice(s, 1, k);
          DropPrefix([s[0]], Blanked(s[1..]), k);
        } else {
          assert s[0..] == s;
        }
      case Some(n) =>
        BlankedSuffix(s[n..], k - n);
        DropTwice(s, n, k);
        DropPrefix(Blank(s[..n]), Blanked(s[n..]), k);
    }
  }

  /** A blanked position holds neither a quote nor a comment opener. */
  lemma QuotesAreCode(s: string, k: int)
    requires 0 <= k < |s|
    requires Blanked(s)[k] != ' ' && Blanked(s)[k] != '\n'
    ensures IsCode(s, k) && Blanked(s)[k] == s[k] && s[k] != '"'
  {
    BlankedAt(s, k);
    CodeBounds(s, k);
  }

  /** Text that starts with code still starts with code once blanked. */
  lemma BlankedStartsWithCode(s: string)
    requires s != [] && SpanLen(s).None?
    ensures SpanLen(Blanked(s)).None?
  {
    var o := Blanked(s);
    assert o[0] == s[0];
    if |s| > 1 && (o[1] == '/' || o[1] == '*') {
      QuotesAreCode(s, 1);
    }
    if RawOpener(o).Some? {
      QuotesAreCode(s, RawOpener(o).value.0 - 1);
    }
    if s[0] == '\'' && CharLen(o).Some? {
      BlankedQuoteStaysOpen(s);
    }
  }

  lemma BlankedQuoteStaysOpen(s: string)
    requires s != [] && s[0] == '\'' && CharLen(s).None?
    ensures Blanked(s)[0] == '\'' && CharLen(Blanked(s)).None?
  {
    var o := Blanked(s);
    if |s| >= 3 {
      if o[1] == '\\' {
        QuotesAreCode(s, 1);
        EscapedQuoteStaysOpen(s);
      } else if o[2] == '\'' {
        QuotesAreCode(s, 2);
        QuoteTwoAhead(s);
      }
    }
  }

  lemma EscapedQuoteStaysOpen(s: string)
    requires |s| >= 3 && s[0] == '\'' && s[1] == '\\' && CharLen(s).None?
    ensures '\'' !in Blanked(s)[2..]
  {
    var o := Blanked(s);
    forall k | 2 <= k < |o| ensures o[k] != '\'' {
      BlankedAt(s, k);
      assert s[2..][k - 2] == s[k];
    }
  }

  /** Two quotes at distance two, neither of them opening a literal, enclose a quote. */
  lemma QuoteTwoAhead(s: string)
    requires |s| >= 3 && s[0] == '\'' && CharLen(s).None?
    requires IsCode(s, 2) && s[2] == '\''
    ensures Blanked(s)[1] == s[1] == '\'' || Blanked(s)[1] == s[1] == '\\'
  {
    assert s[1] == '\\' || s[1] == '\'';
    BlankedAt(s, 1);
  }

  /** No comment or literal starts anywhere in the blanked text. */
  lemma NothingStartsInBlanked(s: string, k: int)
    requires 0 <= k < |s|
    ensures SpanLen(Blanked(s)[k..]).None?
  {
    hide SpanLen;
    var o := Blanked(s);
    if IsCode(s, k) {
      BlankedSuffix(s, k);
      CodeBounds(s, k);
      BlankedStartsWithCode(s[k..]);
    } else {
      BlankedAt(s, k);
      PlainIsCode(o[k..]);
    }
  }

  lemma PlainIsCode(s: string)
    requires s != [] && (s[0] == ' ' || s[0] == '\n')
    ensures SpanLen(s).None?
  {
  }

  lemma {:induction false} BlankedFixpoint(o: string)
    requires forall k | 0 <= k < |o| :: SpanLen(o[k..]).None?
    ensures Blanked(o) == o
  {
    hide SpanLen;
    if o != [] {
      assert o[0..] == o;
      forall k | 0 <= k < |o[1..]| ensures SpanLen(o[1..][k..]).None? {
        assert o[1..][k..] == o[k + 1..];
      }
      BlankedFixpoint(o[1..]);
    }
  }

  /** Blanking twice is blanking once. */
  lemma BlankingIsIdempotent(s: string)
    ensures Blanked(Blanked(s)) == Blanked(s)
  {
    hide SpanLen;
    forall k | 0 <= k < |Blanked(s)| ensures SpanLen(Blanked(s)[k..]).None? {
      NothingStartsInBlanked(s, k);
    }
    BlankedFixpoint(Blanked(s));
  }
}
