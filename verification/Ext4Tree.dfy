/** The directory tree of an ext4 image: the breadth-first walk accepts exactly the
    images whose active inodes, apart from the journal, form the expected tree. */
module Ext4Tree {
  import opened ByteCodec
  import opened Ext4Format
  import opened Ext4Files
  import opened Ext4Directory
  import Utf8

  const DOT: Bytes := Utf8.Ascii(".")
  const DOT_DOT: Bytes := Utf8.Ascii("..")
  const SLASH: Bytes := Utf8.Ascii("/")

  /** What the walk reads: the image, the allocated inode numbers and the decoded active inodes. */
  datatype Volume = Volume(image: Bytes, inodes: set<nat>, records: map<nat, Inode>)

  predicate Valid(v: Volume) {
    && |v.image| == IMAGE_BYTES
    && forall n | n in v.records :: Sane(v.records[n].extents, v.records[n].size)
  }

  function Dir(v: Volume, d: nat): (r: Option<seq<Entry>>)
    requires Valid(v)
  {
    if d in v.records && v.records[d].kind.Directory? then DirectoryOf(v.image, v.inodes, v.records[d]) else None
  }

  /** The entries other than dot and dot-dot. */
  function Visible(es: seq<Entry>): (r: seq<Entry>)
    ensures forall e :: e in r <==> e in es && e.name != DOT && e.name != DOT_DOT
  {
    if es == [] then []
    else
      var e, rest := es[|es| - 1], Visible(es[..|es| - 1]);
      if e.name == DOT || e.name == DOT_DOT then rest else rest + [e]
  }

  function Children(v: Volume, d: nat): (r: seq<Entry>)
    requires Valid(v)
  {
    if Dir(v, d).Some? then Visible(Dir(v, d).value) else []
  }

  /** Directory `d` has the non-dot entry `e`. */
  predicate Names(v: Volume, d: nat, e: Entry)
    requires Valid(v)
  {
    e in Children(v, d)
  }

  function KindsOf(es: seq<Entry>): (m: map<Bytes, Kind>) {
    if es == [] then map[] else KindsOf(es[..|es| - 1])[es[|es| - 1].name := es[|es| - 1].kind]
  }

  // ---- The expected tree --------------------------------------------------

  function ExpectedChildren(path: Bytes, content: Option<Bytes>): (m: Option<map<Bytes, Kind>>) {
    var root := map[Utf8.Ascii("hello.txt") := File, Utf8.Ascii("lost+found") := Directory,
                    Utf8.Ascii("nested") := Directory, Utf8.Ascii("config") := Directory];
    if path == SLASH then
      Some(if content.Some? then root[Utf8.Ascii("system.cspk") := File] else root)
    else if path == Utf8.Ascii("/lost+found") || path == Utf8.Ascii("/config") then Some(map[])
    else if path == Utf8.Ascii("/nested") then Some(map[Utf8.Ascii("state.txt") := File])
    else None
  }

  function ExpectedFile(path: Bytes, content: Option<Bytes>): (b: Option<Bytes>) {
    if path == Utf8.Ascii("/hello.txt") then Some(Utf8.Ascii("native ext4 mount\n"))
    else if path == Utf8.Ascii("/nested/state.txt") then Some(Utf8.Ascii("read-only activation complete\n"))
    else if path == Utf8.Ascii("/system.cspk") then content
    else None
  }

  function ChildPath(path: Bytes, name: Bytes): (r: Bytes) {
    if path == SLASH then path + name else path + SLASH + name
  }

  // ---- Trees --------------------------------------------------------------

  /** The entry that names an inode, and the directory it is in. */
  datatype Link = Link(parent: nat, entry: Entry)

  /** A path for every directory and one link for every inode below the root. */
  datatype Tree = Tree(path: map<nat, Bytes>, link: map<nat, Link>)

  predicate ReadsAs(v: Volume, n: nat, expected: Option<Bytes>)
    requires Valid(v) && n in v.records
  {
    v.records[n].size <= MAX_FILE_BYTES && expected == Some(FileBytes(v.image, v.records[n]))
  }

  /** The inode an entry leads to has the entry's kind, and the expected contents if it is a file. */
  predicate TargetOk(v: Volume, content: Option<Bytes>, path: Bytes, e: Entry)
    requires Valid(v)
  {
    && e.inode in v.records && v.records[e.inode].kind == e.kind
    && (e.kind.File? ==> ReadsAs(v, e.inode, ExpectedFile(ChildPath(path, e.name), content)))
  }

  predicate EntryOk(v: Volume, content: Option<Bytes>, t: Tree, d: nat, e: Entry)
    requires Valid(v) && d in t.path
  {
    && TargetOk(v, content, t.path[d], e)
    && e.inode in t.link && t.link[e.inode] == Link(d, e)
    && (e.kind.Directory? ==> e.inode in t.path && t.path[e.inode] == ChildPath(t.path[d], e.name))
  }

  /** The root is its own parent. */
  function ParentOf(t: Tree, d: nat): (p: nat)
    requires d != ROOT_INODE ==> d in t.link
  {
    if d == ROOT_INODE then ROOT_INODE else t.link[d].parent
  }

  /** A directory's own entries: dot, dot-dot to the parent, and the names expected at its path. */
  predicate ListingOk(v: Volume, content: Option<Bytes>, path: Bytes, d: nat, parent: nat)
    requires Valid(v)
  {
    && Dir(v, d).Some?
    && Entry(DOT, d, Directory) in Dir(v, d).value && Entry(DOT_DOT, parent, Directory) in Dir(v, d).value
    && ExpectedChildren(path, content) == Some(KindsOf(Children(v, d)))
  }

  predicate DirOk(v: Volume, content: Option<Bytes>, t: Tree, d: nat)
    requires Valid(v) && d in t.path
  {
    && (d != ROOT_INODE ==> d in t.link)
    && ListingOk(v, content, t.path[d], d, ParentOf(t, d))
    && forall e | e in Children(v, d) :: EntryOk(v, content, t, d, e)
  }

  predicate Rooted(t: Tree) {
    ROOT_INODE in t.path && t.path[ROOT_INODE] == SLASH && ROOT_INODE !in t.link
  }

  predicate LinkOk(v: Volume, t: Tree, n: nat)
    requires Valid(v) && n in t.link
  {
    var l := t.link[n];
    l.parent in t.path && Names(v, l.parent, l.entry) && l.entry.inode == n
  }

  /** `t` is the tree of the whole volume. */
  ghost predicate TreeIs(v: Volume, content: Option<Bytes>, t: Tree)
    requires Valid(v)
  {
    && Rooted(t)
    && (forall d | d in t.path :: DirOk(v, content, t, d))
    && (forall n | n in t.link :: LinkOk(v, t, n))
    && v.records.Keys == {ROOT_INODE} + t.link.Keys + {JOURNAL_INODE}
  }

  ghost predicate TreeOk(v: Volume, content: Option<Bytes>)
    requires Valid(v)
  {
    exists t :: TreeIs(v, content, t)
  }

  // ---- What an accepted tree means ----------------------------------------

  lemma DirectoriesHavePaths(v: Volume, content: Option<Bytes>, t: Tree, d: nat)
    requires Valid(v) && TreeIs(v, content, t) && d in v.records && v.records[d].kind.Directory?
    requires JOURNAL_INODE in v.records && v.records[JOURNAL_INODE].kind.File?
    ensures d in t.path
  {
    hide ListingOk, Children, ReadsAs;
    if d != ROOT_INODE {
      var l := t.link[d];
      assert LinkOk(v, t, d);
      assert DirOk(v, content, t, l.parent);
      assert EntryOk(v, content, t, l.parent, l.entry);
    }
  }

  lemma NamedEntryOk(v: Volume, content: Option<Bytes>, t: Tree, d: nat, e: Entry)
    requires Valid(v) && TreeIs(v, content, t) && Names(v, d, e)
    requires JOURNAL_INODE in v.records && v.records[JOURNAL_INODE].kind.File?
    ensures d in t.path && DirOk(v, content, t, d) && EntryOk(v, content, t, d, e)
  {
    DirectoriesHavePaths(v, content, t, d);
  }

  /** Every active inode but the root and the journal is named by exactly one entry of one directory. */
  lemma NamedExactlyOnce(v: Volume, content: Option<Bytes>, n: nat) returns (d: nat, e: Entry)
    requires Valid(v) && TreeOk(v, content) && n in v.records && n != ROOT_INODE && n != JOURNAL_INODE
    requires JOURNAL_INODE in v.records && v.records[JOURNAL_INODE].kind.File?
    ensures Names(v, d, e) && e.inode == n
    ensures forall d', e' | Names(v, d', e') && e'.inode == n :: d' == d && e' == e
  {
    hide ListingOk, Children, TargetOk;
    var t :| TreeIs(v, content, t);
    assert LinkOk(v, t, n);
    d, e := t.link[n].parent, t.link[n].entry;
    forall d', e' | Names(v, d', e') && e'.inode == n ensures d' == d && e' == e {
      NamedEntryOk(v, content, t, d', e');
    }
  }

  /** No entry names the root, the journal or an inode that is not active. */
  lemma OnlyOrdinaryInodesNamed(v: Volume, content: Option<Bytes>, d: nat, e: Entry)
    requires Valid(v) && TreeOk(v, content) && Names(v, d, e)
    requires JOURNAL_INODE in v.records && JournalOk(v.image, v.records[JOURNAL_INODE])
    ensures e.inode in v.records && e.inode != ROOT_INODE && e.inode != JOURNAL_INODE
  {
    hide ListingOk, Children, FileBytes;
    var t :| TreeIs(v, content, t);
    NamedEntryOk(v, content, t, d, e);
    JournalIsUnreadable(v.image, v.records[JOURNAL_INODE]);
  }

  /** The dot-dot entry of a directory leads to the directory that names it. */
  lemma DotDotIsParent(v: Volume, content: Option<Bytes>, d: nat, e: Entry)
    requires Valid(v) && TreeOk(v, content) && Names(v, d, e) && e.kind.Directory?
    requires JOURNAL_INODE in v.records && v.records[JOURNAL_INODE].kind.File?
    ensures Dir(v, e.inode).Some? && Entry(DOT_DOT, d, Directory) in Dir(v, e.inode).value
  {
    hide Children, TargetOk, Dir;
    var t :| TreeIs(v, content, t);
    NamedEntryOk(v, content, t, d, e);
    assert DirOk(v, content, t, e.inode);
  }

  /** Directory `d` names directory `n`. */
  ghost predicate Descends(v: Volume, d: nat, n: nat)
    requires Valid(v)
  {
    exists e :: Names(v, d, e) && e.inode == n && e.kind.Directory?
  }

  /** Each inode of the chain is a directory that names the next one. */
  ghost predicate Chain(v: Volume, c: seq<nat>)
    requires Valid(v)
  {
    forall i | 0 <= i < |c| - 1 :: Descends(v, c[i], c[i + 1])
  }

  lemma NameIsNotEmpty(v: Volume, d: nat, e: Entry)
    requires Valid(v) && Names(v, d, e)
    ensures |e.name| > 0
  {
    DirectoryIsWellFormed(v.image, v.inodes, v.records[d]);
  }

  lemma PathGrows(v: Volume, content: Option<Bytes>, t: Tree, d: nat, n: nat)
    requires Valid(v) && TreeIs(v, content, t) && Descends(v, d, n)
    requires JOURNAL_INODE in v.records && v.records[JOURNAL_INODE].kind.File?
    ensures d in t.path && n in t.path && |t.path[d]| < |t.path[n]|
  {
    hide Names, ListingOk, TargetOk, DirOk, TreeIs;
    var e :| Names(v, d, e) && e.inode == n && e.kind.Directory?;
    NamedEntryOk(v, content, t, d, e);
    NameIsNotEmpty(v, d, e);
  }

  lemma {:induction false} PathsGrow(v: Volume, content: Option<Bytes>, t: Tree, c: seq<nat>)
    requires Valid(v) && TreeIs(v, content, t) && Chain(v, c) && |c| > 1
    requires JOURNAL_INODE in v.records && v.records[JOURNAL_INODE].kind.File?
    ensures c[0] in t.path && c[|c| - 1] in t.path && |t.path[c[0]]| < |t.path[c[|c| - 1]]|
  {
    hide Descends, TreeIs;
    var k := |c| - 2;
    PathGrows(v, content, t, c[k], c[k + 1]);
    if k > 0 { PathsGrow(v, content, t, c[..k + 1]); }
  }

  /** The directory graph has no cycle. */
  lemma NoCycle(v: Volume, content: Option<Bytes>, c: seq<nat>)
    requires Valid(v) && TreeOk(v, content) && Chain(v, c) && |c| > 1
    requires JOURNAL_INODE in v.records && v.records[JOURNAL_INODE].kind.File?
    ensures c[0] != c[|c| - 1]
  {
    var t :| TreeIs(v, content, t);
    PathsGrow(v, content, t, c);
  }
}
