/** The `cfg` attribute scan of the Rust source policy: the extent of an attribute, the split
    of its predicate into terms, and the answer whether it holds only under `test`. */
module RustPolicy {
  import opened ByteCodec
  import opened RustLexer

  const CFG_PREFIX := "#[cfg("

  function Shift(n: Option<nat>, amount: nat): (r: Option<nat>) {
    if n.None? then None else Some(amount + n.value)
  }

  /** Offset of the parenthesis that closes `depth`, outside comments and literals. */
  function CloseParen(t: string, depth: nat): (n: Option<nat>)
    ensures n.Some? ==> n.value < |t|
  {
    if t == [] then None
    else
      var span := SpanLen(t);
      if span.Some? then Shift(CloseParen(t[span.value..], depth), span.value)
      else if t[0] == '(' then Shift(CloseParen(t[1..], depth + 1), 1)
      else if t[0] == ')' then (if depth <= 1 then Some(0) else Shift(CloseParen(t[1..], depth - 1), 1))
      else Shift(CloseParen(t[1..], depth), 1)
  }

  /** The predicate text and total length of the attribute that `s` starts with. */
  function CfgAttribute(s: string): (r: Option<(string, nat)>)
    ensures r.Some? ==> 0 < r.value.1 <= |s|
  {
    if !(CFG_PREFIX <= s) then None
    else
      var body := s[|CFG_PREFIX|..];
      var close := CloseParen(body, 1);
      if close.Some? && close.value + 1 < |body| && body[close.value + 1] == ']'
      then Some((body[..close.value], |CFG_PREFIX| + close.value + 2))
      else None
  }

  function Prepend(text: string, terms: seq<string>): (r: seq<string>)
    requires terms != []
    ensures |r| == |terms|
  {
    [text + terms[0]] + terms[1..]
  }

  /** The text split at the commas at depth zero, outside comments and literals. */
  function Terms(t: string, depth: int): (r: seq<string>)
    ensures r != []
    decreases |t|
  {
    if t == [] then [[]]
    else
      var span := SpanLen(t);
      if span.Some? then Prepend(t[..span.value], Terms(t[span.value..], depth))
      else if t[0] == ',' && depth == 0 then [[]] + Terms(t[1..], 0)
      else Prepend(t[..1], Terms(t[1..], DepthAfter(t[0], depth)))
  }

  lemma {:induction false} TermsAreShorter(t: string, depth: int)
    ensures forall x | x in Terms(t, depth) :: |x| <= |t|
    decreases |t|
  {
    hide SpanLen;
    if t != [] {
      var span := SpanLen(t);
      if span.Some? {
        TermsAreShorter(t[span.value..], depth);
      } else if t[0] == ',' && depth == 0 {
        TermsAreShorter(t[1..], 0);
      } else {
        TermsAreShorter(t[1..], DepthAfter(t[0], depth));
      }
    }
  }

  function DepthAfter(c: char, depth: int): (r: int) {
    if c == '(' then depth + 1 else if c == ')' then depth - 1 else depth
  }

  /** Unicode white space, as `str.strip` removes it. */
  predicate IsSpace(c: char) {
    var n := c as int;
    || 9 <= n <= 13 || 28 <= n <= 32 || n == 0x85 || n == 0xA0 || n == 0x1680
    || 0x2000 <= n <= 0x200A || n == 0x2028 || n == 0x2029 || n == 0x202F || n == 0x205F || n == 0x3000
  }

  function StripLeft(s: string): (r: string)
    ensures |r| <= |s|
  {
    if s != [] && IsSpace(s[0]) then StripLeft(s[1..]) else s
  }

  function StripRight(s: string): (r: string)
    ensures |r| <= |s|
  {
    if s != [] && IsSpace(s[|s| - 1]) then StripRight(s[..|s| - 1]) else s
  }

  function Strip(s: string): (r: string)
    ensures |r| <= |s|
  {
    StripRight(StripLeft(s))
  }

  /** Whether the predicate text is a bare `test`, or an `all(..)` one of whose terms is. */
  predicate HoldsOnlyUnderTest(predicate_: string)
    decreases |predicate_|
  {
    var p := Strip(predicate_);
    if p == "test" then true
    else if "all(" <= p && p[|p| - 1] == ')' then
      TermsAreShorter(p[4..|p| - 1], 0);
      exists term | term in Terms(p[4..|p| - 1], 0) :: HoldsOnlyUnderTest(term)
    else false
  }

  method CfgAttributeAt(source: string, index: nat) returns (r: Option<(string, nat)>)
    requires index < |source|
    ensures var a := CfgAttribute(source[index..]);
            r == if a.None? then None else Some((a.value.0, index + a.value.1))
  {
    hide SpanLen, CloseParen;
    if !(CFG_PREFIX <= source[index..]) {
      return None;
    }
    var start := index + |CFG_PREFIX|;
    var depth: nat, cursor := 1, start;
    ghost var body := source[index..][|CFG_PREFIX|..];
    assert body == source[start..];
    while cursor < |source|
      invariant start <= cursor <= |source| && depth >= 1
      invariant Shift(CloseParen(source[cursor..], depth), cursor - start) == CloseParen(body, 1)
    {
      var skip := LiteralOrCommentEnd(source, cursor);
      CloseParenUnfolds(source, cursor, depth);
      if skip.Some? {
        cursor := skip.value;
        continue;
      }
      if source[cursor] == '(' {
        depth := depth + 1;
      } else if source[cursor] == ')' {
        depth := depth - 1;
        if depth == 0 {
          assert body[..cursor - start] == source[start..cursor];
          if cursor + 1 < |source| && source[cursor + 1] == ']' {
            return Some((source[start..cursor], cursor + 2));
          }
          return None;
        }
      }
      cursor := cursor + 1;
    }
    CloseParenEmpty(depth);
    return None;
  }

  lemma CloseParenEmpty(depth: nat)
    ensures CloseParen([], depth).None?
  {
  }

  lemma CloseParenUnfolds(source: string, at: nat, depth: nat)
    requires at < |source|
    ensures var end := SpanEnd(source, at);
            CloseParen(source[at..], depth) ==
              if end.Some? then Shift(CloseParen(source[end.value..], depth), end.value - at)
              else if source[at] == '(' then Shift(CloseParen(source[at + 1..], depth + 1), 1)
              else if source[at] == ')' then
                (if depth <= 1 then Some(0) else Shift(CloseParen(source[at + 1..], depth - 1), 1))
              else Shift(CloseParen(source[at + 1..], depth), 1)
  {
    hide SpanLen;
    var t := source[at..];
    assert t[1..] == source[at + 1..];
    if SpanLen(t).Some? {
      assert t[SpanLen(t).value..] == source[at + SpanLen(t).value..];
    }
  }

  method PredicateTerms(text: string) returns (terms: seq<string>)
    ensures terms == Terms(text, 0)
  {
    hide SpanLen, Terms;
    terms := [];
    var depth, start, index := 0, 0, 0;
    assert text[0..] == text;
    PrependNothing(Terms(text, 0));
    while index < |text|
      invariant 0 <= start <= index <= |text|
      invariant terms + Prepend(text[start..index], Terms(text[index..], depth)) == Terms(text, 0)
    {
      var skip := LiteralOrCommentEnd(text, index);
      TermsUnfold(text, index, depth);
      if skip.Some? {
        PrependTwice(text, start, index, skip.value, Terms(text[skip.value..], depth));
        index := skip.value;
        continue;
      }
      var next := Terms(text[index + 1..], DepthAfter(text[index], depth));
      if text[index] == ',' && depth == 0 {
        PrependToEmpty(text[start..index], next);
        PrependNothing(next);
        assert terms + ([text[start..index]] + next) == (terms + [text[start..index]]) + next;
        assert text[index + 1..index + 1] == [];
        terms := terms + [text[start..index]];
        start := index + 1;
      } else {
        PrependTwice(text, start, index, index + 1, next);
        depth := DepthAfter(text[index], depth);
      }
      index := index + 1;
    }
    TermsEmpty(depth);
    PrependOnly(text[start..]);
    assert text[index..] == [] && text[start..index] == text[start..];
    terms := terms + [text[start..]];
  }

  lemma TermsEmpty(depth: int)
    ensures Terms([], depth) == [[]]
  {
  }

  lemma PrependNothing(terms: seq<string>)
    requires terms != []
    ensures Prepend([], terms) == terms
  {
    assert [] + terms[0] == terms[0];
  }

  lemma PrependToEmpty(text: string, terms: seq<string>)
    ensures Prepend(text, [[]] + terms) == [text] + terms
  {
    assert text + [] == text;
    assert ([[]] + terms)[1..] == terms;
  }

  lemma PrependOnly(text: string)
    ensures Prepend(text, [[]]) == [text]
  {
    assert text + [] == text;
  }

  lemma PrependTwice(text: string, i: nat, j: nat, k: nat, terms: seq<string>)
    requires i <= j <= k <= |text| && terms != []
    ensures Prepend(text[i..j], Prepend(text[j..k], terms)) == Prepend(text[i..k], terms)
  {
    assert text[i..k] == text[i..j] + text[j..k];
    assert text[i..j] + (text[j..k] + terms[0]) == text[i..k] + terms[0];
  }

  lemma TermsUnfold(text: string, at: nat, depth: int)
    requires at < |text|
    ensures var end := SpanEnd(text, at);
            Terms(text[at..], depth) ==
              if end.Some? then Prepend(text[at..end.value], Terms(text[end.value..], depth))
              else if text[at] == ',' && depth == 0 then [[]] + Terms(text[at + 1..], DepthAfter(text[at], depth))
              else Prepend(text[at..at + 1], Terms(text[at + 1..], DepthAfter(text[at], depth)))
  {
    hide SpanLen;
    var t := text[at..];
    assert t[1..] == text[at + 1..] && t[..1] == text[at..at + 1];
    if SpanLen(t).Some? {
      var n := SpanLen(t).value;
      assert t[n..] == text[at + n..] && t[..n] == text[at..at + n];
    }
  }
}
