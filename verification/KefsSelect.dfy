/** Sorting an entry list by path bytes and projecting one architecture of a source
    tree into the flat runtime tree. */
module KefsSelect {
  import opened ByteCodec
  import opened KefsPath
  import opened Kefs
  import Utf8

  const BIN: Bytes := Utf8.Ascii("/bin")

  function Prefix(architecture: Bytes): (p: Bytes) {
    BIN + [SLASH] + architecture
  }

  const X86_64: Bytes := Utf8.Ascii("x86_64")
  const AARCH64: Bytes := Utf8.Ascii("aarch64")

  // ---- Sorting ------------------------------------------------------------

  /** Ascending, with equal paths allowed. */
  predicate Sorted(es: seq<Entry>) {
    forall i | 0 < i < |es| :: !Less(es[i].path, es[i - 1].path)
  }

  /** Inserts `e` after every entry whose path is not greater. */
  function Insert(es: seq<Entry>, e: Entry): (r: seq<Entry>)
    ensures multiset(r) == multiset(es) + multiset{e}
  {
    if es == [] || !Less(e.path, es[|es| - 1].path) then es + [e]
    else
      assert es == es[..|es| - 1] + [es[|es| - 1]];
      Insert(es[..|es| - 1], e) + [es[|es| - 1]]
  }

  lemma {:induction false} InsertSorted(es: seq<Entry>, e: Entry)
    requires Sorted(es)
    ensures Sorted(Insert(es, e)) && |Insert(es, e)| == |es| + 1
    ensures var last := Insert(es, e)[|es|]; last == e || (es != [] && last == es[|es| - 1])
  {
    if es != [] && Less(e.path, es[|es| - 1].path) {
      var n := |es| - 1;
      InsertSorted(es[..n], e);
      Trichotomy(e.path, es[n].path);
    }
  }

  lemma {:induction false} InsertLength(es: seq<Entry>, e: Entry)
    ensures |Records(Insert(es, e))| == |Records(es)| + |Record(e)|
  {
    hide Record;
    if es != [] && Less(e.path, es[|es| - 1].path) {
      var n := |es| - 1;
      InsertLength(es[..n], e);
      assert (Insert(es[..n], e) + [es[n]])[..|Insert(es[..n], e)|] == Insert(es[..n], e);
    } else {
      assert (es + [e])[..|es|] == es;
    }
  }

  /** The entries with the given path, in order. */
  function WithPath(es: seq<Entry>, path: Bytes): (r: seq<Entry>) {
    if es == [] then []
    else WithPath(es[..|es| - 1], path) + (if es[|es| - 1].path == path then [es[|es| - 1]] else [])
  }

  lemma WithPathAppend(es: seq<Entry>, e: Entry, path: Bytes)
    ensures WithPath(es + [e], path) == WithPath(es, path) + (if e.path == path then [e] else [])
  {
    assert (es + [e])[..|es|] == es;
  }

  /** An inserted entry comes behind every entry with its own path. */
  lemma {:induction false} InsertStable(es: seq<Entry>, e: Entry, path: Bytes)
    ensures WithPath(Insert(es, e), path) == WithPath(es, path) + (if e.path == path then [e] else [])
  {
    if es != [] && Less(e.path, es[|es| - 1].path) {
      var n := |es| - 1;
      InsertStable(es[..n], e, path);
      WithPathAppend(Insert(es[..n], e), es[n], path);
      Irreflexive(e.path);
    } else {
      WithPathAppend(es, e, path);
    }
  }

  /** `r` keeps the order of `es` among entries with the same path. */
  ghost predicate StableFrom(r: seq<Entry>, es: seq<Entry>) {
    forall path :: WithPath(r, path) == WithPath(es, path)
  }

  lemma InsertKeepsStable(r: seq<Entry>, es: seq<Entry>, e: Entry)
    requires StableFrom(r, es)
    ensures StableFrom(Insert(r, e), es + [e])
  {
    hide WithPath;
    forall path ensures WithPath(Insert(r, e), path) == WithPath(es + [e], path) {
      InsertStable(r, e, path);
      WithPathAppend(es, e, path);
    }
  }

  lemma NothingSorted()
    ensures Sorted([]) && StableFrom([], [])
  {
  }

  /** A stable sort by path bytes. */
  method SortByPath(es: seq<Entry>) returns (r: seq<Entry>)
    ensures Sorted(r) && multiset(r) == multiset(es) && |Records(r)| == |Records(es)|
    ensures StableFrom(r, es)
  {
    hide Record, Sorted, StableFrom, Insert;
    NothingSorted();
    r := [];
    for i := 0 to |es|
      invariant Sorted(r) && multiset(r) == multiset(es[..i]) && |Records(r)| == |Records(es[..i])|
      invariant StableFrom(r, es[..i])
    {
      InsertKeepsStable(r, es[..i], es[i]);
      InsertSorted(r, es[i]);
      InsertLength(r, es[i]);
      assert es[..i + 1] == es[..i] + [es[i]] && es[..i + 1][..i] == es[..i];
      r := Insert(r, es[i]);
    }
    assert es[..|es|] == es;
  }

  predicate DistinctPaths(es: seq<Entry>) {
    forall i, j | 0 <= i < j < |es| :: es[i].path != es[j].path
  }

  function PathSet(es: seq<Entry>): (s: set<Bytes>) {
    set e | e in es :: e.path
  }

  lemma {:induction false} DistinctBySize(es: seq<Entry>)
    ensures |PathSet(es)| <= |es|
    ensures DistinctPaths(es) <==> |PathSet(es)| == |es|
  {
    if es == [] {
      assert PathSet(es) == {};
    } else {
      var n := |es| - 1;
      DistinctBySize(es[..n]);
      assert es == es[..n] + [es[n]];
      assert PathSet(es) == PathSet(es[..n]) + {es[n].path};
      NewPath(es[..n], es[n]);
    }
  }

  lemma NewPath(es: seq<Entry>, e: Entry)
    ensures DistinctPaths(es + [e]) <==> DistinctPaths(es) && e.path !in PathSet(es)
  {
    var all := es + [e];
    assert forall i | 0 <= i < |es| :: all[i] == es[i];
    if e.path in PathSet(es) {
      var f :| f in es && f.path == e.path;
      var i :| 0 <= i < |es| && es[i] == f;
      assert all[i].path == all[|es|].path;
    } else {
      assert forall i | 0 <= i < |es| :: es[i] in es && es[i].path in PathSet(es);
    }
  }

  lemma SamePaths(a: seq<Entry>, b: seq<Entry>)
    requires multiset(a) == multiset(b)
    ensures DistinctPaths(a) <==> DistinctPaths(b)
  {
    hide DistinctPaths;
    DistinctBySize(a);
    DistinctBySize(b);
    assert |a| == |multiset(a)| == |b|;
    forall e: Entry ensures e in a <==> e in b { assert e in a <==> e in multiset(a); }
    assert PathSet(a) == PathSet(b);
  }

  /** In a sorted list distinct neighbours mean strictly ascending paths. */
  lemma DistinctNeighbours(es: seq<Entry>)
    requires Sorted(es)
    ensures Ascending(es) <==> forall i | 0 < i < |es| :: es[i - 1].path != es[i].path
    ensures Ascending(es) <==> DistinctPaths(es)
  {
    forall i | 0 < i < |es|
      ensures Less(es[i - 1].path, es[i].path) <==> es[i - 1].path != es[i].path
    {
      Trichotomy(es[i - 1].path, es[i].path);
    }
    if Ascending(es) {
      forall i, j | 0 <= i < j < |es| ensures es[i].path != es[j].path {
        AscendingPairs(es, i, j);
        Irreflexive(es[j].path);
      }
    }
  }

  // ---- Projection ---------------------------------------------------------

  /** An entry under no architecture stays, one below the selected one moves to /bin, the rest go. */
  function Project(architecture: Bytes, e: Entry): (r: Option<Entry>) {
    var selected := Prefix(architecture);
    if Under(Prefix(X86_64), e.path) then
      (if selected == Prefix(X86_64) && e.path != selected then Some(Move(selected, e)) else None)
    else if Under(Prefix(AARCH64), e.path) then
      (if selected == Prefix(AARCH64) && e.path != selected then Some(Move(selected, e)) else None)
    else Some(e)
  }

  /** The path belongs to no architecture. */
  predicate Neutral(path: Bytes) {
    !Under(Prefix(X86_64), path) && !Under(Prefix(AARCH64), path)
  }

  function Move(selected: Bytes, e: Entry): (r: Entry)
    requires |selected| <= |e.path|
  {
    e.(path := BIN + e.path[|selected|..])
  }

  function Projected(architecture: Bytes, es: seq<Entry>): (r: seq<Entry>) {
    if es == [] then []
    else
      var before, last := Projected(architecture, es[..|es| - 1]), Project(architecture, es[|es| - 1]);
      if last.Some? then before + [last.value] else before
  }

  predicate Known(architecture: Bytes) {
    architecture == X86_64 || architecture == AARCH64
  }

  lemma {:induction false} ProjectedFrom(architecture: Bytes, es: seq<Entry>, e: Entry) returns (f: Entry)
    requires e in Projected(architecture, es)
    ensures f in es && Project(architecture, f) == Some(e)
  {
    hide Project;
    var n := |es| - 1;
    if Project(architecture, es[n]) == Some(e) {
      f := es[n];
    } else {
      f := ProjectedFrom(architecture, es[..n], e);
    }
  }

  lemma {:induction false} ProjectedHas(architecture: Bytes, es: seq<Entry>, f: Entry)
    requires f in es && Project(architecture, f).Some?
    ensures Project(architecture, f).value in Projected(architecture, es)
  {
    hide Project;
    var n := |es| - 1;
    if f != es[n] { ProjectedHas(architecture, es[..n], f); }
  }

  lemma {:induction false} ProjectedSize(architecture: Bytes, es: seq<Entry>)
    requires Known(architecture)
    ensures |Projected(architecture, es)| <= |es|
    ensures |Records(Projected(architecture, es))| <= |Records(es)|
  {
    hide Project;
    if es != [] {
      var n := |es| - 1;
      ProjectedSize(architecture, es[..n]);
      var before, last := Projected(architecture, es[..n]), Project(architecture, es[n]);
      if last.Some? {
        assert (before + [last.value])[..|before|] == before;
        ProjectShrinks(architecture, es[n]);
      }
    }
  }

  lemma ProjectShrinks(architecture: Bytes, e: Entry)
    requires Project(architecture, e).Some?
    ensures |Record(Project(architecture, e).value)| <= |Record(e)|
  {
  }

  lemma OwnersDiffer(p: Bytes)
    ensures !(Under(Prefix(X86_64), p) && Under(Prefix(AARCH64), p))
  {
    var x, a := Prefix(X86_64), Prefix(AARCH64);
    assert x[5] == X86_64[0] == 'x' as int && a[5] == AARCH64[0] == 'a' as int;
    if Under(x, p) { assert p[5] == x[5]; }
    if Under(a, p) { assert p[5] == a[5]; }
  }

  /** What the projection does, for a known architecture. */
  lemma ProjectCases(architecture: Bytes, e: Entry)
    requires Known(architecture)
    ensures Neutral(e.path) ==> Project(architecture, e) == Some(e)
    ensures var selected := Prefix(architecture);
            Under(selected, e.path) && e.path != selected ==> Project(architecture, e) == Some(Move(selected, e))
    ensures var r := Project(architecture, e);
            r.Some? ==> (Neutral(e.path) && r.value == e)
                        || (Under(Prefix(architecture), e.path) && e.path != Prefix(architecture)
                            && r.value == Move(Prefix(architecture), e))
  {
    hide Under;
    OwnersDiffer(e.path);
    UnderIsLonger(Prefix(architecture), e.path);
  }

  lemma UnderIsLonger(prefix: Bytes, p: Bytes)
    ensures Under(prefix, p) ==> |prefix| <= |p|
  {
  }

  lemma BinComponents()
    ensures |BIN| == 4 && BIN[0] == SLASH && Split(BIN) == [[], Utf8.Ascii("bin")]
    ensures 0 !in BIN && Utf8.IsAscii(BIN)
  {
    var bin := Utf8.Ascii("bin");
    assert BIN == [] + [SLASH] + bin;
    SplitJoined([], bin);
    SplitPlain([]);
    SplitPlain(bin);
  }

  lemma PrefixIsAscii(architecture: Bytes)
    requires Known(architecture)
    ensures Utf8.IsAscii(Prefix(architecture)) && SLASH !in architecture
  {
    BinComponents();
  }

  /** A normalized path below the selected architecture is still normalized under /bin. */
  lemma MovedPathOk(architecture: Bytes, r: Bytes)
    requires Known(architecture) && r != [] && r[0] == SLASH && PathOk(Prefix(architecture) + r)
    ensures PathOk(BIN + r)
  {
    hide Split, Utf8.Valid, Utf8.Ascii;
    var selected, t, bin := Prefix(architecture), r[1..], Utf8.Ascii("bin");
    BinComponents();
    PrefixIsAscii(architecture);
    Utf8.AsciiPrefix(selected, r);
    Utf8.AsciiPrefix(BIN, r);
    assert r == [SLASH] + t;
    assert selected + r == selected + [SLASH] + t && BIN + r == BIN + [SLASH] + t;
    SplitJoined(selected, t);
    SplitJoined(BIN, t);
    var parts := Split(selected + r)[1..];
    assert parts == Split(selected)[1..] + Split(t);
    forall i | 0 <= i < |Split(t)| ensures ComponentOk(Split(t)[i]) {
      assert parts[|Split(selected)| - 1 + i] == Split(t)[i];
    }
    assert Split(BIN + r)[1..] == [bin] + Split(t);
    forall x | x in BIN + r ensures x != 0 { if x in r { assert x in selected + r; } }
  }

  lemma ProjectedEntryOk(architecture: Bytes, f: Entry)
    requires Known(architecture) && EntryOk(f) && Project(architecture, f).Some?
    ensures EntryOk(Project(architecture, f).value)
  {
    hide Project, PathOk;
    ProjectCases(architecture, f);
    var selected := Prefix(architecture);
    if Under(selected, f.path) && f.path != selected {
      var r := f.path[|selected|..];
      assert f.path == selected + r;
      MovedPathOk(architecture, r);
    }
  }

  lemma PrefixParent(architecture: Bytes)
    requires Known(architecture)
    ensures Parent(Prefix(architecture)) == BIN != [SLASH]
    ensures !Under(Prefix(X86_64), BIN) && !Under(Prefix(AARCH64), BIN)
  {
    hide Known, Utf8.Ascii;
    var r := [SLASH] + architecture;
    assert Prefix(architecture) == BIN + r;
    BinComponents();
    PrefixIsAscii(architecture);
    ParentUnder(BIN, r);
    assert LastSlash(r) == 0 && r[..0] == [];
  }

  lemma BinStays(architecture: Bytes, es: seq<Entry>)
    requires Known(architecture) && TreeOk(es) && Entry(DIRECTORY, Prefix(architecture), []) in es
    ensures HasDirectory(Projected(architecture, es), BIN)
  {
    hide EntryOk, Fits, Project, Parent, Under;
    var selected := Prefix(architecture);
    var k :| 0 <= k < |es| && es[k] == Entry(DIRECTORY, selected, []);
    assert HasParent(es, es[k].path);
    PrefixParent(architecture);
    var j :| 0 <= j < |es| && IsDirectory(es[j], BIN);
    ProjectCases(architecture, es[j]);
    ProjectedHas(architecture, es, es[j]);
  }

  predicate HasDirectory(es: seq<Entry>, path: Bytes) {
    exists e | e in es :: IsDirectory(e, path)
  }

  lemma ParentDirectory(es: seq<Entry>, path: Bytes)
    ensures HasParent(es, path) <==> Parent(path) == [SLASH] || HasDirectory(es, Parent(path))
  {
    hide Parent;
    if HasDirectory(es, Parent(path)) {
      var e :| e in es && IsDirectory(e, Parent(path));
      var j :| 0 <= j < |es| && es[j] == e;
    }
  }

  lemma ProjectedParent(architecture: Bytes, es: seq<Entry>, f: Entry)
    requires Known(architecture) && TreeOk(es) && Entry(DIRECTORY, Prefix(architecture), []) in es
    requires f in es && Project(architecture, f).Some?
    ensures HasParent(Projected(architecture, es), Project(architecture, f).value.path)
  {
    hide Project, EntryOk, Fits, Parent, Projected;
    var k :| 0 <= k < |es| && es[k] == f;
    assert HasParent(es, f.path) && EntryOk(f);
    ProjectCases(architecture, f);
    ParentDirectory(Projected(architecture, es), Project(architecture, f).value.path);
    if Under(Prefix(architecture), f.path) && f.path != Prefix(architecture) {
      MovedParent(architecture, es, f);
    } else if Parent(f.path) != [SLASH] {
      KeptParent(architecture, es, f);
    }
  }

  lemma KeptParent(architecture: Bytes, es: seq<Entry>, f: Entry)
    requires Known(architecture) && HasParent(es, f.path) && EntryOk(f) && Parent(f.path) != [SLASH]
    requires Neutral(f.path)
    ensures HasDirectory(Projected(architecture, es), Parent(f.path))
  {
    hide Project, Parent, Under, Projected;
    var j :| 0 <= j < |es| && IsDirectory(es[j], Parent(f.path));
    if Under(Prefix(X86_64), es[j].path) { UnderIsInherited(Prefix(X86_64), f.path); }
    if Under(Prefix(AARCH64), es[j].path) { UnderIsInherited(Prefix(AARCH64), f.path); }
    ProjectCases(architecture, es[j]);
    ProjectedHas(architecture, es, es[j]);
  }

  lemma MovedParent(architecture: Bytes, es: seq<Entry>, f: Entry)
    requires Known(architecture) && TreeOk(es) && Entry(DIRECTORY, Prefix(architecture), []) in es
    requires HasParent(es, f.path) && Under(Prefix(architecture), f.path) && f.path != Prefix(architecture)
    ensures HasDirectory(Projected(architecture, es), Parent(Move(Prefix(architecture), f).path))
  {
    hide Project, Parent, Projected, TreeOk;
    var selected := Prefix(architecture);
    var r := f.path[|selected|..];
    assert f.path == selected + r && r[0] == SLASH;
    BinComponents();
    ParentUnder(selected, r);
    ParentUnder(BIN, r);
    var s := r[..LastSlash(r)];
    if s == [] {
      BinStays(architecture, es);
      assert BIN + s == BIN;
    } else {
      assert Parent(f.path) == selected + s && |selected + s| > 1;
      var j :| 0 <= j < |es| && IsDirectory(es[j], selected + s);
      assert Under(selected, es[j].path) by { assert selected + s == selected + [SLASH] + s[1..]; }
      ProjectCases(architecture, es[j]);
      assert Move(selected, es[j]).path == BIN + s;
      ProjectedHas(architecture, es, es[j]);
    }
  }

  /** The sorted projection of a tree is accepted by the decoder. */
  lemma ProjectionIsWellFormed(architecture: Bytes, es: seq<Entry>, r: seq<Entry>)
    requires Known(architecture) && TreeOk(es) && Entry(DIRECTORY, Prefix(architecture), []) in es
    requires Ascending(r) && multiset(r) == multiset(Projected(architecture, es))
    requires |Records(r)| == |Records(Projected(architecture, es))|
    ensures WellFormed(r)
  {
    hide Project, EntryOk, Parent, Projected, Ascending, HasParent;
    var projected := Projected(architecture, es);
    ProjectedSize(architecture, es);
    assert |r| == |multiset(r)| == |projected|;
    forall i | 0 <= i < |r| ensures EntryOk(r[i]) && Encodable(r[i]) && HasParent(r, r[i].path) {
      assert r[i] in multiset(r);
      var f := ProjectedFrom(architecture, es, r[i]);
      ProjectedEntryOk(architecture, f);
      EntryEncodes(r[i]);
      ProjectedParent(architecture, es, f);
      SameParents(r, projected, r[i].path);
    }
    SortedTree(r);
  }

  lemma SameParents(a: seq<Entry>, b: seq<Entry>, path: Bytes)
    requires multiset(a) == multiset(b) && HasParent(b, path)
    ensures HasParent(a, path)
  {
    hide Parent;
    ParentDirectory(a, path);
    ParentDirectory(b, path);
    if Parent(path) != [SLASH] {
      var e :| e in b && IsDirectory(e, Parent(path));
      assert e in multiset(b);
      assert e in a;
    }
  }

  // ---- Collisions ---------------------------------------------------------

  predicate HasPath(es: seq<Entry>, path: Bytes) {
    exists i :: 0 <= i < |es| && es[i].path == path
  }

  /** A neutral entry already stands where the selected entry at `r` moves to. */
  predicate CollidesAt(architecture: Bytes, es: seq<Entry>, r: Bytes) {
    && r != [] && r[0] == SLASH && Neutral(BIN + r)
    && HasPath(es, BIN + r) && HasPath(es, Prefix(architecture) + r)
  }

  ghost predicate Collides(architecture: Bytes, es: seq<Entry>) {
    exists r :: CollidesAt(architecture, es, r)
  }

  /** Both entries are kept, under one path. */
  predicate Clash(architecture: Bytes, f: Entry, g: Entry) {
    var a, b := Project(architecture, f), Project(architecture, g);
    a.Some? && b.Some? && a.value.path == b.value.path
  }

  predicate NoClash(architecture: Bytes, es: seq<Entry>) {
    forall i, j | 0 <= i < j < |es| :: !Clash(architecture, es[i], es[j])
  }

  lemma DistinctAppend(es: seq<Entry>, e: Entry)
    ensures DistinctPaths(es + [e]) <==> DistinctPaths(es) && !HasPath(es, e.path)
  {
    var all := es + [e];
    if DistinctPaths(all) {
      forall i, j | 0 <= i < j < |es| ensures es[i].path != es[j].path { assert all[i].path != all[j].path; }
      forall i | 0 <= i < |es| ensures es[i].path != e.path { assert all[i].path != all[|es|].path; }
    }
  }

  lemma ProjectedPath(architecture: Bytes, es: seq<Entry>, e: Entry)
    requires Project(architecture, e).Some?
    ensures HasPath(Projected(architecture, es), Project(architecture, e).value.path)
            <==> exists i :: 0 <= i < |es| && Clash(architecture, es[i], e)
  {
    hide Project, Projected;
    var rs, p := Projected(architecture, es), Project(architecture, e).value.path;
    if HasPath(rs, p) {
      var k :| 0 <= k < |rs| && rs[k].path == p;
      var f := ProjectedFrom(architecture, es, rs[k]);
      var i :| 0 <= i < |es| && es[i] == f;
      assert Clash(architecture, es[i], e);
    }
    if i :| 0 <= i < |es| && Clash(architecture, es[i], e) {
      ProjectedHas(architecture, es, es[i]);
      var k :| 0 <= k < |rs| && rs[k] == Project(architecture, es[i]).value;
      assert rs[k].path == p;
    }
  }

  lemma {:induction false} DistinctIsNoClash(architecture: Bytes, es: seq<Entry>)
    ensures DistinctPaths(Projected(architecture, es)) <==> NoClash(architecture, es)
  {
    hide Project;
    if es != [] {
      var n := |es| - 1;
      var before, last := es[..n], es[n];
      DistinctIsNoClash(architecture, before);
      if Project(architecture, last).Some? {
        DistinctAppend(Projected(architecture, before), Project(architecture, last).value);
        ProjectedPath(architecture, before, last);
      }
    }
  }

  /** `f` is neutral and stands where `g` moves to. */
  predicate Lands(architecture: Bytes, f: Entry, g: Entry) {
    && Neutral(f.path) && Under(Prefix(architecture), g.path) && g.path != Prefix(architecture)
    && f.path == BIN + g.path[|Prefix(architecture)|..]
  }

  lemma MovedApart(architecture: Bytes, f: Entry, g: Entry)
    requires f.path != g.path && Under(Prefix(architecture), f.path) && Under(Prefix(architecture), g.path)
    ensures Move(Prefix(architecture), f).path != Move(Prefix(architecture), g).path
  {
    var n, x, y := |Prefix(architecture)|, Move(Prefix(architecture), f).path, Move(Prefix(architecture), g).path;
    assert f.path == Prefix(architecture) + x[|BIN|..] && g.path == Prefix(architecture) + y[|BIN|..];
  }

  /** Two entries with different paths clash exactly when one is neutral and the other moves there. */
  lemma ClashIsCollision(architecture: Bytes, f: Entry, g: Entry)
    requires Known(architecture) && f.path != g.path
    ensures Clash(architecture, f, g) <==> Lands(architecture, f, g) || Lands(architecture, g, f)
  {
    hide Project, Under;
    ProjectCases(architecture, f);
    ProjectCases(architecture, g);
    if Under(Prefix(architecture), f.path) && Under(Prefix(architecture), g.path) {
      MovedApart(architecture, f, g);
    }
  }

  lemma LandsCollides(architecture: Bytes, es: seq<Entry>, f: Entry, g: Entry)
    requires f in es && g in es && Lands(architecture, f, g)
    ensures Collides(architecture, es)
  {
    var n := |Prefix(architecture)|;
    var r := g.path[n..];
    assert g.path == Prefix(architecture) + r && r[0] == SLASH;
    var i :| 0 <= i < |es| && es[i] == f;
    var j :| 0 <= j < |es| && es[j] == g;
    assert CollidesAt(architecture, es, r);
  }

  lemma CollisionLands(architecture: Bytes, es: seq<Entry>, r: Bytes) returns (i: nat, j: nat)
    requires CollidesAt(architecture, es, r)
    ensures i < |es| && j < |es| && Lands(architecture, es[i], es[j])
  {
    i :| 0 <= i < |es| && es[i].path == BIN + r;
    j :| 0 <= j < |es| && es[j].path == Prefix(architecture) + r;
    assert es[j].path == Prefix(architecture) + [SLASH] + r[1..];
    assert es[j].path[|Prefix(architecture)|..] == r;
  }

  /** On a source with distinct paths the projection repeats a path exactly when it collides. */
  lemma CollisionIsExact(architecture: Bytes, es: seq<Entry>)
    requires Known(architecture) && DistinctPaths(es)
    ensures DistinctPaths(Projected(architecture, es)) <==> !Collides(architecture, es)
  {
    hide Clash, Lands, Projected, CollidesAt;
    DistinctIsNoClash(architecture, es);
    forall i, j | 0 <= i < j < |es| && Clash(architecture, es[i], es[j]) ensures Collides(architecture, es) {
      ClashIsCollision(architecture, es[i], es[j]);
      if Lands(architecture, es[i], es[j]) {
        LandsCollides(architecture, es, es[i], es[j]);
      } else {
        LandsCollides(architecture, es, es[j], es[i]);
      }
    }
    if r :| CollidesAt(architecture, es, r) {
      var i, j := CollisionLands(architecture, es, r);
      LandsOnAnother(architecture, es[i], es[j]);
      if i < j {
        ClashIsCollision(architecture, es[i], es[j]);
      } else {
        ClashIsCollision(architecture, es[j], es[i]);
      }
    }
  }

  lemma LandsOnAnother(architecture: Bytes, f: Entry, g: Entry)
    requires Known(architecture) && Lands(architecture, f, g)
    ensures f.path != g.path
  {
  }

  method SelectArchitecture(es: seq<Entry>, architecture: Bytes) returns (r: Option<seq<Entry>>)
    ensures r.Some? <==> Known(architecture) && Entry(DIRECTORY, Prefix(architecture), []) in es
                         && DistinctPaths(Projected(architecture, es))
    ensures DistinctPaths(es) ==>
              (r.Some? <==> Known(architecture) && Entry(DIRECTORY, Prefix(architecture), []) in es
                            && !Collides(architecture, es))
    ensures r.Some? ==> Ascending(r.value) && multiset(r.value) == multiset(Projected(architecture, es))
    ensures r.Some? && TreeOk(es) ==> WellFormed(r.value)
  {
    hide Less, Project, Collides, StableFrom;
    if !Known(architecture) || Entry(DIRECTORY, Prefix(architecture), []) !in es { return None; }
    if DistinctPaths(es) { CollisionIsExact(architecture, es); }
    var projected: seq<Entry> := [];
    for i := 0 to |es|
      invariant projected == Projected(architecture, es[..i])
    {
      assert es[..i + 1][..i] == es[..i];
      var p := Project(architecture, es[i]);
      if p.Some? { projected := projected + [p.value]; }
    }
    assert es[..|es|] == es;
    var sorted := SortByPath(projected);
    DistinctNeighbours(sorted);
    SamePaths(sorted, projected);
    var i := 1;
    while i < |sorted|
      invariant i >= 1
      invariant forall k | 0 < k < i && k < |sorted| :: sorted[k - 1].path != sorted[k].path
    {
      if sorted[i - 1].path == sorted[i].path { return None; }
      i := i + 1;
    }
    if TreeOk(es) { ProjectionIsWellFormed(architecture, es, sorted); }
    return Some(sorted);
  }
}
