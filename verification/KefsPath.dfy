/** Absolute paths of a KEFS tree: byte-lexical order, components and parents. */
module KefsPath {
  import opened ByteCodec
  import Utf8

  const SLASH := 0x2F
  const MAX_PATH := 256

  // ---- Byte-lexical order -------------------------------------------------

  predicate Less(a: Bytes, b: Bytes) {
    b != [] && (a == [] || a[0] < b[0] || (a[0] == b[0] && Less(a[1..], b[1..])))
  }

  lemma {:induction false} Trichotomy(a: Bytes, b: Bytes)
    ensures a == b || Less(a, b) || Less(b, a)
    ensures !(Less(a, b) && Less(b, a)) && !Less(a, a)
  {
    if a != [] && b != [] {
      Trichotomy(a[1..], b[1..]);
      assert a == [a[0]] + a[1..] && b == [b[0]] + b[1..];
    }
    if a != [] { Irreflexive(a); }
  }

  lemma {:induction false} Irreflexive(a: Bytes)
    ensures !Less(a, a)
  {
    if a != [] { Irreflexive(a[1..]); }
  }

  lemma {:induction false} Transitive(a: Bytes, b: Bytes, c: Bytes)
    requires Less(a, b) && Less(b, c)
    ensures Less(a, c)
  {
    if a != [] && a[0] == b[0] == c[0] { Transitive(a[1..], b[1..], c[1..]); }
  }

  /** A proper prefix comes first. */
  lemma {:induction false} PrefixIsLess(a: Bytes, b: Bytes)
    requires a <= b && a != b
    ensures Less(a, b)
  {
    if a != [] { PrefixIsLess(a[1..], b[1..]); }
  }

  // ---- Components ---------------------------------------------------------

  /** The parts between slashes. */
  function Split(s: Bytes): (parts: seq<Bytes>)
    ensures |parts| > 0
  {
    if s == [] then [[]]
    else
      var rest := Split(s[1..]);
      if s[0] == SLASH then [[]] + rest else [[s[0]] + rest[0]] + rest[1..]
  }

  lemma SplitCons(c: Byte, s: Bytes)
    ensures Split([c] + s) == if c == SLASH then [[]] + Split(s) else [[c] + Split(s)[0]] + Split(s)[1..]
  {
    assert ([c] + s)[1..] == s;
  }

  lemma {:induction false} SplitJoined(a: Bytes, b: Bytes)
    ensures Split(a + [SLASH] + b) == Split(a) + Split(b)
  {
    hide Split;
    if a == [] {
      assert a + [SLASH] + b == [SLASH] + b;
      SplitCons(SLASH, b);
      SplitEmpty();
    } else {
      var t := a[1..];
      SplitJoined(t, b);
      assert a + [SLASH] + b == [a[0]] + (t + [SLASH] + b) && a == [a[0]] + t;
      SplitCons(a[0], t);
      SplitCons(a[0], t + [SLASH] + b);
    }
  }

  lemma SplitEmpty()
    ensures Split([]) == [[]]
  {
  }

  lemma {:induction false} SplitPlain(a: Bytes)
    requires SLASH !in a
    ensures Split(a) == [a]
  {
    if a != [] {
      SplitPlain(a[1..]);
      assert [a[0]] + a[1..] == a;
    }
  }

  /** A path component that names something. */
  predicate ComponentOk(c: Bytes) {
    c != [] && c != Utf8.Ascii(".") && c != Utf8.Ascii("..")
  }

  predicate ComponentsOk(parts: seq<Bytes>) {
    forall i | 0 <= i < |parts| :: ComponentOk(parts[i])
  }

  /** A normalized absolute path other than the root. */
  predicate PathOk(p: Bytes) {
    && 0 < |p| <= MAX_PATH && Utf8.Valid(p)
    && p[0] == SLASH && p != [SLASH] && 0 !in p
    && ComponentsOk(Split(p)[1..])
  }

  // ---- Parents ------------------------------------------------------------

  function LastSlash(p: Bytes): (i: int)
    ensures -1 <= i < |p|
    ensures i >= 0 ==> p[i] == SLASH
  {
    if p == [] then -1 else if p[|p| - 1] == SLASH then |p| - 1 else LastSlash(p[..|p| - 1])
  }

  /** The path before the last slash, or the root. */
  function Parent(p: Bytes): (r: Bytes) {
    var i := LastSlash(p);
    if i < 0 then p else if i == 0 then [SLASH] else p[..i]
  }

  lemma {:induction false} LastSlashAppend(a: Bytes, r: Bytes)
    requires LastSlash(r) >= 0
    ensures LastSlash(a + r) == |a| + LastSlash(r)
    decreases |r|
  {
    if r[|r| - 1] != SLASH {
      LastSlashAppend(a, r[..|r| - 1]);
      assert (a + r)[..|a + r| - 1] == a + r[..|r| - 1];
    }
  }

  lemma {:induction false} LeadingSlashFound(p: Bytes)
    requires p != [] && p[0] == SLASH
    ensures LastSlash(p) >= 0
    decreases |p|
  {
    if |p| > 1 { LeadingSlashFound(p[..|p| - 1]); }
  }

  lemma ParentIsPrefix(p: Bytes)
    requires p != [] && p[0] == SLASH && Parent(p) != [SLASH]
    ensures Parent(p) < p && Less(Parent(p), p)
  {
    LeadingSlashFound(p);
    PrefixIsLess(Parent(p), p);
  }

  /** `p` is `prefix` or lies below it. */
  predicate Under(prefix: Bytes, p: Bytes) {
    p == prefix || prefix + [SLASH] <= p
  }

  /** What lies below a prefix keeps its parent structure under another prefix. */
  lemma ParentUnder(prefix: Bytes, r: Bytes)
    requires prefix != [] && r != [] && r[0] == SLASH
    ensures LastSlash(r) >= 0 && Parent(prefix + r) == prefix + r[..LastSlash(r)]
  {
    LeadingSlashFound(r);
    LastSlashAppend(prefix, r);
  }

  /** A path whose parent lies under a prefix lies under it too. */
  lemma UnderIsInherited(prefix: Bytes, p: Bytes)
    requires prefix != [SLASH] && p != [] && p[0] == SLASH && Under(prefix, Parent(p)) && Parent(p) != [SLASH]
    ensures Under(prefix, p)
  {
    LeadingSlashFound(p);
    var i := LastSlash(p);
    assert p[..i] == Parent(p) && p[i] == SLASH;
    if Parent(p) == prefix { assert prefix + [SLASH] == p[..i + 1]; }
  }
}
