/** Removal of the Rust items that only a test build compiles: where a removed
    item ends, and exactly which spans of the source the removal deletes. */
module RustRemoval {
  import opened ByteCodec
  import opened RustLexer
  import opened RustPolicy
  import opened CfgTree
  import opened CfgSoundness

  /** Length of the item that `t` starts with, given the depths already open. */
  function ItemLen(t: string, braces: nat, brackets: nat): (n: nat)
    ensures n <= |t|
    decreases |t|
  {
    if t == [] then 0
    else
      var span, c := SpanLen(t), t[0];
      if span.Some? then span.value + ItemLen(t[span.value..], braces, brackets)
      else if c == '{' then 1 + ItemLen(t[1..], braces + 1, brackets)
      else if c == '}' then
        (if braces == 0 then 0 else if braces == 1 then 1 else 1 + ItemLen(t[1..], braces - 1, brackets))
      else if c == '(' || c == '[' then 1 + ItemLen(t[1..], braces, brackets + 1)
      else if c == ')' || c == ']' then (if brackets == 0 then 0 else 1 + ItemLen(t[1..], braces, brackets - 1))
      else if c == ';' && braces == 0 && brackets == 0 then 1
      else if c == ',' && braces == 0 && brackets == 0 then 0
      else 1 + ItemLen(t[1..], braces, brackets)
  }

  method AnnotatedItemEnd(source: string, start: nat) returns (index: nat)
    requires start <= |source|
    ensures index == start + ItemLen(source[start..], 0, 0)
  {
    hide SpanLen, ItemLen;
    index := start;
    var braces, brackets := 0, 0;
    while index < |source|
      invariant start <= index <= |source| && braces >= 0 && brackets >= 0
      invariant index + ItemLen(source[index..], braces, brackets) == start + ItemLen(source[start..], 0, 0)
    {
      var skip := LiteralOrCommentEnd(source, index);
      ItemUnfolds(source, index, braces, brackets);
      if skip.Some? {
        index := skip.value;
        continue;
      }
      var c := source[index];
      if c == '{' {
        braces := braces + 1;
      } else if c == '}' {
        braces := braces - 1;
        if braces < 0 { return; }
        if braces == 0 { return index + 1; }
      } else if c == '(' || c == '[' {
        brackets := brackets + 1;
      } else if c == ')' || c == ']' {
        brackets := brackets - 1;
        if brackets < 0 { return; }
      } else if c == ';' && braces == 0 && brackets == 0 {
        return index + 1;
      } else if c == ',' && braces == 0 && brackets == 0 {
        return;
      }
      index := index + 1;
    }
  }

  lemma ItemUnfolds(source: string, at: nat, braces: nat, brackets: nat)
    requires at < |source|
    ensures var end, c, rest := SpanEnd(source, at), source[at], source[at + 1..];
            ItemLen(source[at..], braces, brackets) ==
              if end.Some? then end.value - at + ItemLen(source[end.value..], braces, brackets)
              else if c == '{' then 1 + ItemLen(rest, braces + 1, brackets)
              else if c == '}' then
                (if braces == 0 then 0 else if braces == 1 then 1 else 1 + ItemLen(rest, braces - 1, brackets))
              else if c == '(' || c == '[' then 1 + ItemLen(rest, braces, brackets + 1)
              else if c == ')' || c == ']' then (if brackets == 0 then 0 else 1 + ItemLen(rest, braces, brackets - 1))
              else if c == ';' && braces == 0 && brackets == 0 then 1
              else if c == ',' && braces == 0 && brackets == 0 then 0
              else 1 + ItemLen(rest, braces, brackets)
  {
    hide SpanLen;
    var t := source[at..];
    assert t[1..] == source[at + 1..];
    if SpanLen(t).Some? {
      assert t[SpanLen(t).value..] == source[at + SpanLen(t).value..];
    }
  }

  function BraceDelta(c: char): (d: int) {
    if c == '{' then 1 else if c == '}' then -1 else 0
  }

  function BracketDelta(c: char): (d: int) {
    if c == '(' || c == '[' then 1 else if c == ')' || c == ']' then -1 else 0
  }

  /** Braces opened minus braces closed by the code before position `k`. */
  function Braces(t: string, k: int): (d: int)
    decreases |t|
  {
    if t == [] || k <= 0 then 0
    else match SpanLen(t)
      case None => BraceDelta(t[0]) + Braces(t[1..], k - 1)
      case Some(n) => Braces(t[n..], k - n)
  }

  /** Parentheses and square brackets, pooled, opened minus closed before `k`. */
  function Brackets(t: string, k: int): (d: int)
    decreases |t|
  {
    if t == [] || k <= 0 then 0
    else match SpanLen(t)
      case None => BracketDelta(t[0]) + Brackets(t[1..], k - 1)
      case Some(n) => Brackets(t[n..], k - n)
  }

  /** A code character at which an item entered at depths `b` and `p` must end. */
  predicate Stops(t: string, k: nat, b: int, p: int)
    requires k < |t|
  {
    && IsCode(t, k)
    && var braces, brackets := b + Braces(t, k), p + Brackets(t, k);
    || (t[k] == '}' && braces <= 1)
    || ((t[k] == ')' || t[k] == ']') && brackets <= 0)
    || ((t[k] == ';' || t[k] == ',') && braces == 0 && brackets == 0)
  }

  /** The stopping character belongs to the item. */
  predicate Included(t: string, k: nat, b: int)
    requires k < |t|
  {
    t[k] == ';' || (t[k] == '}' && b + Braces(t, k) == 1)
  }

  /** `k` is the first stop of `t`, or its end when it has none. */
  ghost predicate FirstStop(t: string, k: nat, b: int, p: int) {
    && k <= |t|
    && (forall j | 0 <= j < k :: !Stops(t, j, b, p))
    && (k < |t| ==> Stops(t, k, b, p))
  }

  lemma StopsAfterChar(t: string, k: nat, b: int, p: int)
    requires 0 < k < |t| && SpanLen(t).None?
    ensures Stops(t, k, b, p) == Stops(t[1..], k - 1, b + BraceDelta(t[0]), p + BracketDelta(t[0]))
    ensures b + Braces(t, k) == b + BraceDelta(t[0]) + Braces(t[1..], k - 1)
    ensures Included(t, k, b) == Included(t[1..], k - 1, b + BraceDelta(t[0]))
  {
    hide SpanLen;
  }

  lemma StopsAfterSpan(t: string, n: nat, k: nat, b: int, p: int)
    requires k < |t| && SpanLen(t) == Some(n)
    ensures k < n ==> !Stops(t, k, b, p)
    ensures k >= n ==> Stops(t, k, b, p) == Stops(t[n..], k - n, b, p)
    ensures k >= n ==> Included(t, k, b) == Included(t[n..], k - n, b)
  {
    hide SpanLen;
    if k < n { CodeNotBelow(t[n..], k - n); }
  }

  lemma FirstStopAfterChar(t: string, k: nat, b: int, p: int)
    requires t != [] && SpanLen(t).None? && !Stops(t, 0, b, p)
    requires FirstStop(t[1..], k, b + BraceDelta(t[0]), p + BracketDelta(t[0]))
    ensures FirstStop(t, k + 1, b, p)
  {
    hide SpanLen, Stops;
    forall j | 0 <= j < k + 1 ensures !Stops(t, j, b, p) {
      if j > 0 { StopsAfterChar(t, j, b, p); }
    }
    if k + 1 < |t| { StopsAfterChar(t, k + 1, b, p); }
  }

  lemma FirstStopAfterSpan(t: string, n: nat, k: nat, b: int, p: int)
    requires t != [] && SpanLen(t) == Some(n)
    requires FirstStop(t[n..], k, b, p)
    ensures FirstStop(t, n + k, b, p)
  {
    hide SpanLen, Stops;
    forall j | 0 <= j < n + k ensures !Stops(t, j, b, p) {
      StopsAfterSpan(t, n, j, b, p);
    }
    if n + k < |t| { StopsAfterSpan(t, n, n + k, b, p); }
  }

  /** The item ends at the first stop, counting the stop itself only when it closes the item. */
  lemma {:induction false} ItemEndsAtFirstStop(t: string, b: nat, p: nat) returns (k: nat)
    ensures FirstStop(t, k, b, p)
    ensures ItemLen(t, b, p) == k + (if k < |t| && Included(t, k, b) then 1 else 0)
    decreases |t|
  {
    hide SpanLen, FirstStop, IsCode, Included, Stops;
    if t == [] {
      k := 0;
      NoStopInNothing(b, p);
    } else if SpanLen(t).Some? {
      var n := SpanLen(t).value;
      assert ItemLen(t, b, p) == n + ItemLen(t[n..], b, p);
      k := ItemEndsAtFirstStop(t[n..], b, p);
      FirstStopAfterSpan(t, n, k, b, p);
      if n + k < |t| { StopsAfterSpan(t, n, n + k, b, p); }
      k := n + k;
    } else if Stops(t, 0, b, p) {
      k := 0;
      ItemAtCode(t, b, p);
      FirstStopHere(t, b, p);
    } else {
      ItemAtCode(t, b, p);
      k := ItemEndsAtFirstStop(t[1..], b + BraceDelta(t[0]), p + BracketDelta(t[0]));
      FirstStopAfterChar(t, k, b, p);
      if k + 1 < |t| { StopsAfterChar(t, k + 1, b, p); }
      k := k + 1;
    }
  }

  lemma ItemAtCode(t: string, b: nat, p: nat)
    requires t != [] && SpanLen(t).None?
    ensures Stops(t, 0, b, p) ==> ItemLen(t, b, p) == (if Included(t, 0, b) then 1 else 0)
    ensures !Stops(t, 0, b, p) ==>
              && b + BraceDelta(t[0]) >= 0 && p + BracketDelta(t[0]) >= 0
              && ItemLen(t, b, p) == 1 + ItemLen(t[1..], b + BraceDelta(t[0]), p + BracketDelta(t[0]))
  {
    hide SpanLen;
  }

  lemma NoStopInNothing(b: int, p: int)
    ensures FirstStop([], 0, b, p)
  {
  }

  lemma FirstStopHere(t: string, b: int, p: int)
    requires t != [] && Stops(t, 0, b, p)
    ensures FirstStop(t, 0, b, p)
  {
  }

  /** Up to the end it finds, the scan counts no closing delimiter more than it has counted
      opening ones. */
  lemma {:induction false} DepthsStayOpen(t: string, b: nat, p: nat, k: int)
    requires 0 <= k <= ItemLen(t, b, p)
    ensures b + Braces(t, k) >= 0 && p + Brackets(t, k) >= 0
    decreases |t|
  {
    hide SpanLen;
    if t != [] && k > 0 {
      if SpanLen(t).Some? {
        var n := SpanLen(t).value;
        if k > n { DepthsStayOpen(t[n..], b, p, k - n); }
      } else if k == 1 {
      } else {
        DepthsStayOpen(t[1..], b + BraceDelta(t[0]), p + BracketDelta(t[0]), k - 1);
      }
    }
  }

  /** What the scan does at the front of `s`: keep or drop that many characters. */
  datatype Step = Keep(n: nat) | Drop(attribute: nat, n: nat)

  function NextStep(s: string): (step: Step)
    requires s != []
    ensures 0 < step.n <= |s|
  {
    var span := SpanLen(s);
    if span.Some? then Keep(span.value)
    else
      var a := CfgAttribute(s);
      if a.None? then Keep(1)
      else if !HoldsOnlyUnderTest(a.value.0) then Keep(a.value.1)
      else Drop(a.value.1, a.value.1 + ItemLen(s[a.value.1..], 0, 0))
  }

  /** The source without the items whose predicate can hold only under test. */
  function Outside(s: string): (kept: string) {
    if s == [] then []
    else
      var step := NextStep(s);
      (if step.Keep? then s[..step.n] else []) + Outside(s[step.n..])
  }

  method OutsideTestConfiguration(source: string) returns (kept: string)
    ensures kept == Outside(source)
  {
    hide SpanLen, CfgAttribute, ItemLen, HoldsOnlyUnderTest, NextStep, Outside;
    kept := [];
    var index := 0;
    assert source[0..] == source;
    while index < |source|
      invariant 0 <= index <= |source|
      invariant kept + Outside(source[index..]) == Outside(source)
    {
      OutsideUnfolds(source, index);
      var text, next := [source[index]], index + 1;
      var skip := LiteralOrCommentEnd(source, index);
      if skip.Some? {
        StepOverSpan(source, index);
        text, next := source[index..skip.value], skip.value;
      } else {
        var attribute := CfgAttributeAt(source, index);
        StepOverCode(source, index);
        if attribute.Some? {
          var end := attribute.value.1;
          if !HoldsOnlyUnderTest(attribute.value.0) {
            text, next := source[index..end], end;
          } else {
            text := [];
            next := AnnotatedItemEnd(source, end);
          }
        }
      }
      KeepText(kept, text, Outside(source[next..]));
      kept, index := kept + text, next;
    }
    assert source[index..] == [];
    OutsideNothing();
  }

  lemma OutsideNothing()
    ensures Outside([]) == []
  {
  }

  lemma KeepText(kept: string, text: string, rest: string)
    ensures kept + (text + rest) == (kept + text) + rest
  {
  }

  lemma OutsideUnfolds(source: string, at: nat)
    requires at < |source|
    ensures var step := NextStep(source[at..]);
            Outside(source[at..]) ==
              (if step.Keep? then source[at..at + step.n] else []) + Outside(source[at + step.n..])
  {
    hide NextStep;
    var s, step := source[at..], NextStep(source[at..]);
    assert s[step.n..] == source[at + step.n..];
    assert s[..step.n] == source[at..at + step.n];
  }

  lemma StepOverSpan(source: string, at: nat)
    requires at < |source| && SpanEnd(source, at).Some?
    ensures NextStep(source[at..]) == Keep(SpanEnd(source, at).value - at)
  {
    hide SpanLen, CfgAttribute, ItemLen, HoldsOnlyUnderTest;
  }

  lemma StepOverCode(source: string, at: nat)
    requires at < |source| && SpanEnd(source, at).None?
    ensures var a := CfgAttribute(source[at..]);
            NextStep(source[at..]) ==
              if a.None? then Keep(1)
              else if !HoldsOnlyUnderTest(a.value.0) then Keep(a.value.1)
              else Drop(a.value.1, a.value.1 + ItemLen(source[at + a.value.1..], 0, 0))
  {
    hide SpanLen, CfgAttribute, ItemLen, HoldsOnlyUnderTest;
    var a := CfgAttribute(source[at..]);
    if a.Some? {
      assert source[at..][a.value.1..] == source[at + a.value.1..];
    }
  }

  /** One deleted span: its attribute, then the item the attribute annotates. */
  datatype Removal = Removal(start: nat, body: nat, end: nat)

  /** The spans that the scan of `source` deletes from position `at` on. */
  function Removals(source: string, at: nat): (r: seq<Removal>)
    requires at <= |source|
    decreases |source| - at
  {
    if at == |source| then []
    else
      var step := NextStep(source[at..]);
      var rest := Removals(source, at + step.n);
      if step.Keep? then rest else [Removal(at, at + step.attribute, at + step.n)] + rest
  }

  /** `source` from `at` on, with the spans cut out. */
  function Cut(source: string, at: nat, spans: seq<Removal>): (r: string)
    requires InOrder(source, at, spans)
    decreases |spans|
  {
    if spans == [] then source[at..]
    else source[at..spans[0].start] + Cut(source, spans[0].end, spans[1..])
  }

  /** The spans lie in the source, in order and without overlap. */
  predicate InOrder(source: string, at: nat, spans: seq<Removal>)
    decreases |spans|
  {
    && at <= |source|
    && (spans != [] ==>
          && at <= spans[0].start < spans[0].body <= spans[0].end <= |source|
          && InOrder(source, spans[0].end, spans[1..]))
  }

  lemma {:induction false} InOrderFromEarlier(source: string, at: nat, later: nat, spans: seq<Removal>)
    requires at <= later && InOrder(source, later, spans)
    ensures InOrder(source, at, spans)
    ensures Cut(source, at, spans) == source[at..later] + Cut(source, later, spans)
  {
    if spans == [] {
      assert source[at..] == source[at..later] + source[later..];
    } else {
      var tail := Cut(source, spans[0].end, spans[1..]);
      assert source[at..spans[0].start] == source[at..later] + source[later..spans[0].start];
      assert source[at..later] + (source[later..spans[0].start] + tail) == source[at..spans[0].start] + tail;
    }
  }

  /** The result is the source with disjoint spans deleted and nothing else changed. */
  lemma {:induction false} RemovalCutsSpans(source: string, at: nat)
    requires at <= |source|
    ensures InOrder(source, at, Removals(source, at))
    ensures Outside(source[at..]) == Cut(source, at, Removals(source, at))
    decreases |source| - at
  {
    hide NextStep;
    if at < |source| {
      var step := NextStep(source[at..]);
      var next := at + step.n;
      RemovalCutsSpans(source, next);
      OutsideUnfolds(source, at);
      if step.Keep? {
        InOrderFromEarlier(source, at, next, Removals(source, next));
      } else {
        DropIsAttribute(source, at);
        var spans := Removals(source, at);
        assert spans[1..] == Removals(source, next);
        assert source[at..at] == [];
      }
    } else {
      assert source[at..] == [];
    }
  }

  lemma DropIsAttribute(source: string, at: nat)
    requires at < |source| && NextStep(source[at..]).Drop?
    ensures IsRemoval(source, Removal(at, at + NextStep(source[at..]).attribute, at + NextStep(source[at..]).n))
  {
    hide SpanLen, CfgAttribute, ItemLen, HoldsOnlyUnderTest;
    var a := CfgAttribute(source[at..]).value.1;
    assert source[at..][a..] == source[at + a..];
  }

  /** A span that starts, in code, at an attribute that can hold only under test,
      and ends where the annotated item ends. */
  predicate IsRemoval(source: string, r: Removal) {
    && r.start < r.body <= r.end <= |source|
    && SpanLen(source[r.start..]).None?
    && CfgAttribute(source[r.start..]).Some?
    && HoldsOnlyUnderTest(CfgAttribute(source[r.start..]).value.0)
    && r.body == r.start + CfgAttribute(source[r.start..]).value.1
    && r.end == r.body + ItemLen(source[r.body..], 0, 0)
  }

  lemma {:induction false} EverySpanIsARemoval(source: string, at: nat, r: Removal)
    requires at <= |source| && r in Removals(source, at)
    ensures IsRemoval(source, r)
    decreases |source| - at
  {
    hide NextStep, IsRemoval;
    var next := at + NextStep(source[at..]).n;
    if r in Removals(source, next) {
      EverySpanIsARemoval(source, next, r);
    } else {
      DropIsAttribute(source, at);
    }
  }

  /** Every deleted item is annotated with a predicate that no build without `test`
      satisfies, and the depths the scan counts inside it are never negative. */
  lemma RemovedItemsAreTestOnly(source: string, r: Removal, k: nat, a: Arg, post: string, config: Config)
    requires r in Removals(source, 0) && r.start <= r.body <= k <= r.end <= |source|
    requires ArgOk(a) && source[r.start..] == CFG_PREFIX + ShowArg(a, ")]" + post)
    ensures Holds(a.term, config) ==> "test" in config.flags
    ensures Braces(source[r.body..], k - r.body) >= 0 && Brackets(source[r.body..], k - r.body) >= 0
  {
    hide SpanLen, CfgAttribute, ItemLen, HoldsOnlyUnderTest, Holds;
    EverySpanIsARemoval(source, 0, r);
    ScannerInvertsPrinter(a, post);
    DepthsStayOpen(source[r.body..], 0, 0, k - r.body);
    if Holds(a.term, config) { AnswerIsSound(a, config); }
  }
}
