/** The breadth-first walk that checks the exact tree: it terminates and accepts
    exactly when the volume has such a tree. */
module Ext4Walk {
  import opened ByteCodec
  import opened Ext4Format
  import opened Ext4Files
  import opened Ext4Directory
  import opened Ext4Tree

  /** A directory waiting to be read: its path, its inode and the inode that names it. */
  datatype Job = Job(path: Bytes, inode: nat, parent: nat)

  // ---- The part of the tree found so far ----------------------------------

  ghost predicate Extends(t: Tree, u: Tree) {
    && (forall d | d in t.path :: d in u.path && u.path[d] == t.path[d])
    && (forall n | n in t.link :: n in u.link && u.link[n] == t.link[n])
  }

  function Attach(t: Tree, d: nat, e: Entry): (u: Tree)
    requires d in t.path
  {
    Tree(if e.kind.Directory? then t.path[e.inode := ChildPath(t.path[d], e.name)] else t.path,
         t.link[e.inode := Link(d, e)])
  }

  ghost predicate LinkFound(v: Volume, l: Link, n: nat, done: set<nat>, cur: nat, k: nat)
    requires Valid(v) && k <= |Children(v, cur)|
  {
    && Names(v, l.parent, l.entry) && l.entry.inode == n
    && (l.parent in done || (l.parent == cur && l.entry in Children(v, cur)[..k]))
  }

  /** `t` holds all of the directories `done` and the first `k` entries of `cur`, and nothing else. */
  ghost predicate Found(v: Volume, content: Option<Bytes>, t: Tree, done: set<nat>, cur: nat, k: nat)
    requires Valid(v)
  {
    && Rooted(t) && done <= t.path.Keys <= {ROOT_INODE} + t.link.Keys
    && k <= |Children(v, cur)| && (k > 0 ==> cur in t.path)
    && (forall d | d in done :: DirOk(v, content, t, d))
    && (forall j | 0 <= j < k :: EntryOk(v, content, t, cur, Children(v, cur)[j]))
    && (forall n | n in t.link :: n in v.records && LinkFound(v, t.link[n], n, done, cur, k))
  }

  ghost predicate JobOk(v: Volume, t: Tree, done: set<nat>, q: Job) {
    && q.inode in t.path && q.inode !in done && t.path[q.inode] == q.path
    && (q.inode != ROOT_INODE ==> q.inode in t.link) && ParentOf(t, q.inode) == q.parent
    && q.inode in v.records && v.records[q.inode].kind.Directory?
  }

  /** The queue holds exactly the directories found but not yet done, once each. */
  ghost predicate Jobs(v: Volume, t: Tree, done: set<nat>, queue: seq<Job>) {
    && (forall i | 0 <= i < |queue| :: JobOk(v, t, done, queue[i]))
    && (forall i, j | 0 <= i < j < |queue| :: queue[i].inode != queue[j].inode)
    && (forall d | d in t.path :: d in done || exists i :: 0 <= i < |queue| && queue[i].inode == d)
  }

  // ---- Steps --------------------------------------------------------------

  lemma EntryStays(v: Volume, content: Option<Bytes>, t: Tree, u: Tree, d: nat, e: Entry)
    requires Valid(v) && Extends(t, u) && d in t.path && EntryOk(v, content, t, d, e)
    ensures EntryOk(v, content, u, d, e)
  {
    hide TargetOk;
  }

  lemma DirStays(v: Volume, content: Option<Bytes>, t: Tree, u: Tree, d: nat)
    requires Valid(v) && Extends(t, u) && d in t.path && DirOk(v, content, t, d)
    ensures DirOk(v, content, u, d)
  {
    hide ListingOk, EntryOk, Children;
    forall e | e in Children(v, d) ensures EntryOk(v, content, u, d, e) {
      EntryStays(v, content, t, u, d, e);
    }
  }

  lemma FoundAttach(v: Volume, content: Option<Bytes>, t: Tree, done: set<nat>, cur: nat, k: nat, e: Entry)
    requires Valid(v) && Found(v, content, t, done, cur, k) && k < |Children(v, cur)| && e == Children(v, cur)[k]
    requires cur in t.path && TargetOk(v, content, t.path[cur], e) && e.inode !in {ROOT_INODE} + t.link.Keys
    ensures Extends(t, Attach(t, cur, e)) && Found(v, content, Attach(t, cur, e), done, cur, k + 1)
  {
    hide DirOk, EntryOk, TargetOk, Children;
    var u := Attach(t, cur, e);
    assert Extends(t, u);
    forall d | d in done ensures DirOk(v, content, u, d) { DirStays(v, content, t, u, d); }
    forall j | 0 <= j < k + 1 ensures EntryOk(v, content, u, cur, Children(v, cur)[j]) {
      if j < k {
        EntryStays(v, content, t, u, cur, Children(v, cur)[j]);
      } else {
        AttachedIsOk(v, content, t, cur, e);
      }
    }
    assert Children(v, cur)[..k + 1] == Children(v, cur)[..k] + [e];
    TargetActive(v, content, t.path[cur], e);
  }

  lemma AttachedIsOk(v: Volume, content: Option<Bytes>, t: Tree, cur: nat, e: Entry)
    requires Valid(v) && cur in t.path && TargetOk(v, content, t.path[cur], e) && e.inode != cur
    ensures EntryOk(v, content, Attach(t, cur, e), cur, e)
  {
    hide TargetOk;
  }

  lemma TargetActive(v: Volume, content: Option<Bytes>, path: Bytes, e: Entry)
    requires Valid(v) && TargetOk(v, content, path, e)
    ensures e.inode in v.records && v.records[e.inode].kind == e.kind
  {
  }

  function Enqueue(queue: seq<Job>, path: Bytes, cur: nat, e: Entry): (r: seq<Job>) {
    if e.kind.Directory? then queue + [Job(ChildPath(path, e.name), e.inode, cur)] else queue
  }

  lemma JobsAttach(v: Volume, t: Tree, done: set<nat>, queue: seq<Job>, cur: nat, e: Entry)
    requires Jobs(v, t, done, queue) && cur in t.path && e.inode in v.records && v.records[e.inode].kind == e.kind
    requires e.inode !in {ROOT_INODE} + t.link.Keys && done <= t.path.Keys <= {ROOT_INODE} + t.link.Keys
    ensures Jobs(v, Attach(t, cur, e), done, Enqueue(queue, t.path[cur], cur, e))
  {
    var u, after := Attach(t, cur, e), Enqueue(queue, t.path[cur], cur, e);
    forall i | 0 <= i < |after| ensures JobOk(v, u, done, after[i]) {
      if i < |queue| { assert after[i] == queue[i] && JobOk(v, t, done, queue[i]); }
    }
    forall d | d in u.path ensures d in done || exists i :: 0 <= i < |after| && after[i].inode == d {
      if d in t.path && d !in done {
        var i :| 0 <= i < |queue| && queue[i].inode == d;
        assert after[i].inode == d;
      } else if d !in done {
        assert after[|queue|].inode == d;
      }
    }
  }

  /** Taking the first job leaves the rest valid once its directory counts as done. */
  lemma JobsPop(v: Volume, t: Tree, done: set<nat>, queue: seq<Job>)
    requires Jobs(v, t, done, queue) && queue != []
    ensures Jobs(v, t, done + {queue[0].inode}, queue[1..])
  {
    var rest, after := queue[1..], done + {queue[0].inode};
    forall i | 0 <= i < |rest| ensures JobOk(v, t, after, rest[i]) {
      assert rest[i] == queue[i + 1];
    }
    forall d | d in t.path ensures d in after || exists i :: 0 <= i < |rest| && rest[i].inode == d {
      if d !in after {
        var i :| 0 <= i < |queue| && queue[i].inode == d;
        assert rest[i - 1].inode == d;
      }
    }
  }

  lemma FoundAll(v: Volume, content: Option<Bytes>, t: Tree, done: set<nat>, job: Job)
    requires Valid(v) && Found(v, content, t, done, job.inode, |Children(v, job.inode)|) && JobOk(v, t, done, job)
    requires ListingOk(v, content, job.path, job.inode, job.parent)
    ensures Found(v, content, t, done + {job.inode}, 0, 0)
  {
    hide ListingOk, EntryOk, Children;
    var all := Children(v, job.inode);
    assert all[..|all|] == all;
    assert DirOk(v, content, t, job.inode);
    forall n | n in t.link ensures LinkFound(v, t.link[n], n, done + {job.inode}, 0, 0) {
      assert LinkFound(v, t.link[n], n, done, job.inode, |all|);
    }
  }

  // ---- The walk finds the tree when there is one --------------------------

  lemma {:induction false} VisibleDistinct(es: seq<Entry>)
    requires forall i, j | 0 <= i < j < |es| :: es[i].name != es[j].name
    ensures forall i, j | 0 <= i < j < |Visible(es)| :: Visible(es)[i] != Visible(es)[j]
  {
    if es != [] {
      var n := |es| - 1;
      VisibleDistinct(es[..n]);
      forall i | 0 <= i < |Visible(es[..n])| ensures Visible(es[..n])[i] != es[n] {
        assert Visible(es[..n])[i] in es[..n];
      }
    }
  }

  lemma ChildrenDistinct(v: Volume, d: nat, k: nat)
    requires Valid(v) && k < |Children(v, d)|
    ensures Children(v, d)[k] !in Children(v, d)[..k]
  {
    hide DirectoryOf, NameOk;
    DirectoryIsWellFormed(v.image, v.inodes, v.records[d]);
    VisibleDistinct(Dir(v, d).value);
  }

  lemma ListingExpected(v: Volume, content: Option<Bytes>, t: Tree, whole: Tree, done: set<nat>, job: Job)
    requires Valid(v) && TreeIs(v, content, whole) && Extends(t, whole) && JobOk(v, t, done, job)
    ensures ListingOk(v, content, job.path, job.inode, job.parent)
  {
    hide ListingOk, EntryOk, Children;
    assert DirOk(v, content, whole, job.inode);
  }

  lemma EntryOfWhole(v: Volume, content: Option<Bytes>, t: Tree, whole: Tree, cur: nat, e: Entry)
    requires Valid(v) && TreeIs(v, content, whole) && Extends(t, whole) && cur in t.path && e in Children(v, cur)
    ensures cur in whole.path && whole.path[cur] == t.path[cur] && EntryOk(v, content, whole, cur, e)
    ensures ROOT_INODE !in whole.link
  {
    hide EntryOk, ListingOk, Children, LinkOk;
    assert DirOk(v, content, whole, cur);
  }

  lemma EntryExpected(v: Volume, content: Option<Bytes>, t: Tree, whole: Tree, done: set<nat>, cur: nat, k: nat)
    requires Valid(v) && TreeIs(v, content, whole) && Extends(t, whole)
    requires Found(v, content, t, done, cur, k) && k < |Children(v, cur)| && cur in t.path && cur !in done
    ensures var e := Children(v, cur)[k];
            && TargetOk(v, content, t.path[cur], e) && e.inode !in {ROOT_INODE} + t.link.Keys
            && Extends(Attach(t, cur, e), whole)
  {
    hide TargetOk, Children, TreeIs, DirOk, Names;
    EntryOfWhole(v, content, t, whole, cur, Children(v, cur)[k]);
    ChildrenDistinct(v, cur, k);
  }

  /** A finished walk has found every link of the tree. */
  lemma {:induction false} AllFound(v: Volume, content: Option<Bytes>, t: Tree, whole: Tree, n: nat)
    requires Valid(v) && TreeIs(v, content, whole) && Extends(t, whole)
    requires Found(v, content, t, t.path.Keys, 0, 0) && n in whole.link
    ensures n in t.link
    decreases |whole.path[whole.link[n].parent]|
  {
    hide ListingOk, TargetOk, Names, Children;
    var l := whole.link[n];
    assert LinkOk(v, whole, n) && DirOk(v, content, whole, l.parent);
    InChildren(v, l.parent, l.entry);
    if l.parent != ROOT_INODE {
      ParentIsShorter(v, content, whole, l.parent);
      AllFound(v, content, t, whole, l.parent);
      LinkedDirectoryHasPath(v, content, t, whole, l.parent);
    }
    assert DirOk(v, content, t, l.parent);
    assert EntryOk(v, content, t, l.parent, l.entry);
  }

  lemma InChildren(v: Volume, d: nat, e: Entry)
    requires Valid(v) && Names(v, d, e)
    ensures e in Children(v, d)
  {
  }

  lemma ParentIsShorter(v: Volume, content: Option<Bytes>, whole: Tree, d: nat)
    requires Valid(v) && TreeIs(v, content, whole) && d in whole.path && d != ROOT_INODE
    ensures d in whole.link && whole.link[d].parent in whole.path
    ensures |whole.path[whole.link[d].parent]| < |whole.path[d]|
  {
    hide TargetOk, Children, Dir;
    assert DirOk(v, content, whole, d) && LinkOk(v, whole, d);
    var l := whole.link[d];
    assert DirOk(v, content, whole, l.parent) && EntryOk(v, content, whole, l.parent, l.entry);
    DirectoryKind(v, content, whole, d);
    TargetActive(v, content, whole.path[l.parent], l.entry);
    NameIsNotEmpty(v, l.parent, l.entry);
  }

  lemma DirectoryKind(v: Volume, content: Option<Bytes>, t: Tree, d: nat)
    requires Valid(v) && d in t.path && DirOk(v, content, t, d)
    ensures d in v.records && v.records[d].kind.Directory?
  {
  }

  lemma LinkedDirectoryHasPath(v: Volume, content: Option<Bytes>, t: Tree, whole: Tree, d: nat)
    requires Valid(v) && TreeIs(v, content, whole) && Found(v, content, t, t.path.Keys, 0, 0)
    requires d in t.link && d in whole.path
    ensures d in t.path
  {
    hide ListingOk, TargetOk, Children;
    assert DirOk(v, content, whole, d);
    DirectoryKind(v, content, whole, d);
    var l := t.link[d];
    assert LinkFound(v, l, d, t.path.Keys, 0, 0);
    assert DirOk(v, content, t, l.parent) && EntryOk(v, content, t, l.parent, l.entry);
    TargetActive(v, content, t.path[l.parent], l.entry);
  }

  lemma FoundIsWhole(v: Volume, content: Option<Bytes>, t: Tree, whole: Tree)
    requires Valid(v) && TreeIs(v, content, whole) && Extends(t, whole) && Found(v, content, t, t.path.Keys, 0, 0)
    ensures v.records.Keys == {ROOT_INODE} + t.link.Keys + {JOURNAL_INODE}
  {
    hide DirOk, LinkOk, Found;
    forall n | n in whole.link ensures n in t.link { AllFound(v, content, t, whole, n); }
    assert t.link.Keys == whole.link.Keys;
  }

  lemma FoundIsTree(v: Volume, content: Option<Bytes>, t: Tree)
    requires Valid(v) && Found(v, content, t, t.path.Keys, 0, 0)
    requires v.records.Keys == {ROOT_INODE} + t.link.Keys + {JOURNAL_INODE}
    ensures TreeIs(v, content, t)
  {
    hide DirOk, Names;
    forall n | n in t.link ensures LinkOk(v, t, n) {
      assert LinkFound(v, t.link[n], n, t.path.Keys, 0, 0);
    }
  }

  lemma FoundBounds(v: Volume, content: Option<Bytes>, t: Tree, done: set<nat>, cur: nat, k: nat)
    requires Valid(v) && Found(v, content, t, done, cur, k)
    ensures done <= t.path.Keys <= {ROOT_INODE} + t.link.Keys && k <= |Children(v, cur)|
    ensures Found(v, content, t, done, 0, 0) ==> forall c :: Found(v, content, t, done, c, 0)
  {
    hide DirOk, EntryOk;
  }

  lemma JobRecord(v: Volume, t: Tree, done: set<nat>, queue: seq<Job>)
    requires Jobs(v, t, done, queue) && queue != []
    ensures JobOk(v, t, done, queue[0])
    ensures var n := queue[0].inode;
            n in t.path && n !in done && n in v.records && v.records[n].kind.Directory? && t.path[n] == queue[0].path
  {
  }

  lemma Start(v: Volume, content: Option<Bytes>, t: Tree)
    requires Valid(v) && ROOT_INODE in v.records && v.records[ROOT_INODE].kind.Directory?
    requires t == Tree(map[ROOT_INODE := SLASH], map[])
    ensures Found(v, content, t, {}, 0, 0) && Jobs(v, t, {}, [Job(SLASH, ROOT_INODE, ROOT_INODE)])
  {
    hide Children, ListingOk, EntryOk;
    assert [Job(SLASH, ROOT_INODE, ROOT_INODE)][0].inode == ROOT_INODE;
  }

  lemma RootIsDirectory(v: Volume, content: Option<Bytes>)
    requires Valid(v) && TreeOk(v, content)
    ensures ROOT_INODE in v.records && v.records[ROOT_INODE].kind.Directory?
  {
    hide LinkOk;
    var t :| TreeIs(v, content, t);
    DirectoryKind(v, content, t, ROOT_INODE);
  }

  lemma Finished(v: Volume, t: Tree, done: set<nat>, queue: seq<Job>)
    requires Jobs(v, t, done, queue) && queue == [] && done <= t.path.Keys
    ensures done == t.path.Keys
  {
  }

  method VerifyExactTree(v: Volume, content: Option<Bytes>) returns (ok: bool)
    requires Valid(v)
    ensures ok <==> TreeOk(v, content)
  {
    hide Valid, Found, Jobs, JobOk, TreeIs, Extends, Rooted, TargetOk, ListingOk, DirectoryOf, ReadsAs;
    if TreeOk(v, content) { RootIsDirectory(v, content); }
    if ROOT_INODE !in v.records || !v.records[ROOT_INODE].kind.Directory? { return false; }
    ghost var t := Tree(map[ROOT_INODE := SLASH], map[]);
    ghost var done: set<nat> := {};
    ghost var whole := t;
    if TreeOk(v, content) {
      whole :| TreeIs(v, content, whole);
      WholeExtendsStart(v, content, t, whole);
    }
    Start(v, content, t);
    var queue := [Job(SLASH, ROOT_INODE, ROOT_INODE)];
    var reached, linked := {ROOT_INODE}, {ROOT_INODE};
    while queue != []
      invariant Found(v, content, t, done, 0, 0) && Jobs(v, t, done, queue)
      invariant reached == linked == {ROOT_INODE} + t.link.Keys
      invariant TreeOk(v, content) ==> TreeIs(v, content, whole) && Extends(t, whole)
      decreases v.records.Keys - linked, |queue|
    {
      ghost var before, waiting := linked, |queue|;
      var job := queue[0];
      JobRecord(v, t, done, queue);
      JobsPop(v, t, done, queue);
      FoundBounds(v, content, t, done, 0, 0);
      if TreeOk(v, content) { ListingExpected(v, content, t, whole, done, job); }
      queue := queue[1..];
      var visible := CheckListing(v, content, job);
      if visible.None? { return false; }
      for k := 0 to |visible.value|
        invariant Found(v, content, t, done, job.inode, k) && Jobs(v, t, done + {job.inode}, queue)
        invariant JobOk(v, t, done, job) && job.inode in t.path && t.path[job.inode] == job.path
        invariant reached == linked == {ROOT_INODE} + t.link.Keys
        invariant before <= linked && (linked == before ==> |queue| == waiting - 1)
        invariant v.records.Keys - linked <= v.records.Keys - before
        invariant linked == before || v.records.Keys - linked < v.records.Keys - before
        invariant TreeOk(v, content) ==> TreeIs(v, content, whole) && Extends(t, whole)
      {
        var e := visible.value[k];
        FoundBounds(v, content, t, done, job.inode, k);
        if TreeOk(v, content) { EntryExpected(v, content, t, whole, done, job.inode, k); }
        var fits := CheckTarget(v, content, job.path, e);
        if !fits || e.inode in linked { return false; }
        TargetActive(v, content, job.path, e);
        linked, reached := linked + {e.inode}, reached + {e.inode};
        FoundAttach(v, content, t, done, job.inode, k, e);
        JobsAttach(v, t, done + {job.inode}, queue, job.inode, e);
        JobStays(v, t, Attach(t, job.inode, e), done, job);
        queue := Enqueue(queue, job.path, job.inode, e);
        t := Attach(t, job.inode, e);
      }
      FoundAll(v, content, t, done, job);
      done := done + {job.inode};
    }
    FoundBounds(v, content, t, done, 0, 0);
    Finished(v, t, done, queue);
    if TreeOk(v, content) { FoundIsWhole(v, content, t, whole); }
    ok := v.records.Keys == reached + {JOURNAL_INODE};
    if ok { FoundIsTree(v, content, t); }
  }

  lemma JobStays(v: Volume, t: Tree, u: Tree, done: set<nat>, job: Job)
    requires JobOk(v, t, done, job) && Extends(t, u)
    ensures JobOk(v, u, done, job) && u.path[job.inode] == job.path
  {
  }

  lemma WholeExtendsStart(v: Volume, content: Option<Bytes>, t: Tree, whole: Tree)
    requires Valid(v) && TreeIs(v, content, whole) && t == Tree(map[ROOT_INODE := SLASH], map[])
    ensures Extends(t, whole)
  {
    hide DirOk, LinkOk;
  }

  /** Reads a directory and returns its visible entries if the listing is the expected one. */
  method CheckListing(v: Volume, content: Option<Bytes>, job: Job) returns (r: Option<seq<Entry>>)
    requires Valid(v) && job.inode in v.records && v.records[job.inode].kind.Directory?
    ensures r.Some? <==> ListingOk(v, content, job.path, job.inode, job.parent)
    ensures r.Some? ==> r.value == Children(v, job.inode)
  {
    hide DirectoryOf, ExpectedChildren, KindsOf;
    var entries := DirectoryEntries(v.image, v.inodes, v.records[job.inode]);
    if entries.None? || Entry(DOT, job.inode, Directory) !in entries.value { return None; }
    if Entry(DOT_DOT, job.parent, Directory) !in entries.value { return None; }
    var visible := Visible(entries.value);
    if ExpectedChildren(job.path, content) != Some(KindsOf(visible)) { return None; }
    return Some(visible);
  }

  method CheckTarget(v: Volume, content: Option<Bytes>, path: Bytes, e: Entry) returns (ok: bool)
    requires Valid(v)
    ensures ok <==> TargetOk(v, content, path, e)
  {
    hide ExpectedFile, ChildPath, FileBytes;
    if e.inode !in v.records || v.records[e.inode].kind != e.kind { return false; }
    if e.kind.Directory? { return true; }
    var payload := ReadFile(v.image, v.records[e.inode]);
    return payload.Some? && ExpectedFile(ChildPath(path, e.name), content) == payload;
  }
}
