/** File allocation tables of the boot volumes: two files in consecutive clusters,
    for any entry width. */
module Fat {
  import opened ByteCodec

  /** Entry width in bytes, reserved values, first file cluster, last data cluster, table size. */
  datatype Geometry = Geometry(width: nat, media: nat, endOfChain: nat, firstFile: nat, maxCluster: nat, fatBytes: nat)

  predicate GeometryOk(g: Geometry) {
    && (g.width == 2 || g.width == 4) && g.fatBytes % g.width == 0
    && 2 < g.firstFile && g.firstFile <= g.maxCluster + 1 && (g.maxCluster + 1) * g.width <= g.fatBytes
    && 0 < g.media < Pow256(g.width) && g.fatBytes / g.width <= g.endOfChain < Pow256(g.width)
  }

  function EntryCount(g: Geometry): (n: nat)
    requires g.width > 0
  {
    g.fatBytes / g.width
  }

  /** The two files fit the data clusters. */
  predicate ClustersFit(g: Geometry, f: nat, m: nat) {
    g.firstFile + f + m <= g.maxCluster + 1
  }

  /** The next cluster in a run of `n` clusters from `first`. */
  function InChain(g: Geometry, first: nat, n: nat, c: nat): (v: nat) {
    if c + 1 == first + n then g.endOfChain else c + 1
  }

  /** The value of entry `c` when the first file has `f` clusters and the second has `m`. */
  function Expected(g: Geometry, f: nat, m: nat, c: nat): (v: nat) {
    if c == 0 then g.media
    else if c < g.firstFile then g.endOfChain
    else if c < g.firstFile + f then InChain(g, g.firstFile, f, c)
    else if c < g.firstFile + f + m then InChain(g, g.firstFile + f, m, c)
    else 0
  }

  lemma ExpectedFits(g: Geometry, f: nat, m: nat, c: nat)
    requires GeometryOk(g) && ClustersFit(g, f, m)
    ensures Expected(g, f, m, c) < Pow256(g.width)
    ensures Expected(g, f, m, c) == 0 <==> c >= g.firstFile + f + m
  {
  }

  function Table(g: Geometry, f: nat, m: nat): (b: Bytes)
    requires GeometryOk(g)
    ensures |b| == g.fatBytes
  {
    seq(g.fatBytes, i requires 0 <= i < g.fatBytes => ToLE(Expected(g, f, m, i / g.width), g.width)[i % g.width])
  }

  function Entry(g: Geometry, fat: Bytes, c: nat): (v: nat)
    requires g.width > 0 && |fat| == g.fatBytes && c < EntryCount(g)
  {
    EntryInside(g, c);
    Field(fat, c * g.width, g.width)
  }

  lemma EntryInside(g: Geometry, c: nat)
    requires g.width > 0 && c < EntryCount(g)
    ensures (c + 1) * g.width <= g.fatBytes && c * g.width + g.width == (c + 1) * g.width
  {
    var n := EntryCount(g);
    assert n * g.width <= g.fatBytes;
    assert (c + 1) * g.width <= n * g.width;
  }

  lemma EntryBytes(g: Geometry, fat: Bytes, c: nat, v: nat)
    requires GeometryOk(g) && |fat| == g.fatBytes && c < EntryCount(g) && v < Pow256(g.width)
    ensures (c + 1) * g.width <= |fat|
    ensures Entry(g, fat, c) == v <==> fat[c * g.width..(c + 1) * g.width] == ToLE(v, g.width)
  {
    EntryInside(g, c);
    ToLEThenLE(v, g.width);
    LEThenToLE(fat[c * g.width..(c + 1) * g.width]);
  }

  lemma TableSlice(g: Geometry, f: nat, m: nat, c: nat)
    requires GeometryOk(g) && c < EntryCount(g)
    ensures (c + 1) * g.width <= g.fatBytes
    ensures Table(g, f, m)[c * g.width..(c + 1) * g.width] == ToLE(Expected(g, f, m, c), g.width)
  {
    hide Expected;
    EntryInside(g, c);
    var t, v := Table(g, f, m), ToLE(Expected(g, f, m, c), g.width);
    forall k | 0 <= k < g.width ensures t[c * g.width + k] == v[k] {
      assert (c * g.width + k) / g.width == c && (c * g.width + k) % g.width == k;
    }
  }

  /** A table is the expected one exactly when every entry is. */
  lemma TableByEntries(g: Geometry, f: nat, m: nat, fat: Bytes)
    requires GeometryOk(g) && ClustersFit(g, f, m) && |fat| == g.fatBytes
    ensures fat == Table(g, f, m) <==> forall c: nat | c < EntryCount(g) :: Entry(g, fat, c) == Expected(g, f, m, c)
  {
    hide Expected, Entry, Table;
    forall c: nat | c < EntryCount(g)
      ensures (c + 1) * g.width <= g.fatBytes
      ensures Entry(g, fat, c) == Expected(g, f, m, c)
         <==> fat[c * g.width..(c + 1) * g.width] == Table(g, f, m)[c * g.width..(c + 1) * g.width]
    {
      ExpectedFits(g, f, m, c);
      EntryBytes(g, fat, c, Expected(g, f, m, c));
      TableSlice(g, f, m, c);
    }
    if forall c: nat | c < EntryCount(g) :: Entry(g, fat, c) == Expected(g, f, m, c) {
      forall i | 0 <= i < g.fatBytes ensures fat[i] == Table(g, f, m)[i] {
        var c, k := i / g.width, i % g.width;
        assert Entry(g, fat, c) == Expected(g, f, m, c);
        assert i == c * g.width + k && i < (c + 1) * g.width;
        assert fat[i] == fat[c * g.width..(c + 1) * g.width][k];
        assert Table(g, f, m)[i] == Table(g, f, m)[c * g.width..(c + 1) * g.width][k];
      }
    }
  }

  // ---- Building and checking ----------------------------------------------

  /** The first `n` entries are set and the others still zero. */
  ghost predicate Filled(g: Geometry, f: nat, m: nat, fat: Bytes, n: nat) {
    && GeometryOk(g) && |fat| == g.fatBytes
    && forall c: nat | c < EntryCount(g) :: Entry(g, fat, c) == if c < n then Expected(g, f, m, c) else 0
  }

  lemma SetOthers(g: Geometry, fat: Bytes, n: nat, v: Bytes, c: nat)
    requires GeometryOk(g) && |fat| == g.fatBytes && n < EntryCount(g) && c < EntryCount(g) && c != n && |v| == g.width
    ensures n * g.width + |v| <= |fat|
    ensures Entry(g, Patch(fat, n * g.width, v), c) == Entry(g, fat, c)
  {
    hide Patch;
    EntryInside(g, n);
    EntryInside(g, c);
    var after := Patch(fat, n * g.width, v);
    assert c < n ==> (c + 1) * g.width <= n * g.width;
    assert c > n ==> (n + 1) * g.width <= c * g.width;
    assert after[c * g.width..c * g.width + g.width] == fat[c * g.width..c * g.width + g.width];
  }

  lemma FillNext(g: Geometry, f: nat, m: nat, fat: Bytes, n: nat)
    requires Filled(g, f, m, fat, n) && ClustersFit(g, f, m) && n < EntryCount(g)
    ensures n * g.width + g.width <= |fat|
    ensures Filled(g, f, m, Patch(fat, n * g.width, ToLE(Expected(g, f, m, n), g.width)), n + 1)
  {
    hide Entry, Expected, Patch;
    EntryInside(g, n);
    var v := ToLE(Expected(g, f, m, n), g.width);
    var after := Patch(fat, n * g.width, v);
    forall c: nat | c < EntryCount(g)
      ensures Entry(g, after, c) == if c < n + 1 then Expected(g, f, m, c) else 0
    {
      if c == n {
        ExpectedFits(g, f, m, n);
        EntryBytes(g, after, n, Expected(g, f, m, n));
      } else {
        SetOthers(g, fat, n, v, c);
      }
    }
  }

  lemma NothingFilled(g: Geometry, f: nat, m: nat, fat: Bytes)
    requires GeometryOk(g) && |fat| == g.fatBytes && AllZero(fat)
    ensures Filled(g, f, m, fat, 0)
  {
    forall c: nat | c < EntryCount(g) ensures Entry(g, fat, c) == 0 {
      EntryInside(g, c);
      LEZeros(fat[c * g.width..c * g.width + g.width]);
    }
  }

  lemma AllFilled(g: Geometry, f: nat, m: nat, fat: Bytes)
    requires Filled(g, f, m, fat, g.firstFile + f + m) && ClustersFit(g, f, m)
    ensures fat == Table(g, f, m)
  {
    hide Entry, Table;
    forall c: nat | c < EntryCount(g) ensures Entry(g, fat, c) == Expected(g, f, m, c) {
      ExpectedFits(g, f, m, c);
    }
    TableByEntries(g, f, m, fat);
  }

  lemma ClustersInTable(g: Geometry)
    requires GeometryOk(g)
    ensures g.maxCluster < EntryCount(g)
  {
    assert (g.maxCluster + 1) * g.width / g.width == g.maxCluster + 1;
  }

  /** Links `n` consecutive clusters from `first` and ends the chain. */
  method FillChain(g: Geometry, f: nat, m: nat, fat: array<Byte>, first: nat, n: nat)
    requires GeometryOk(g) && ClustersFit(g, f, m) && Filled(g, f, m, fat[..], first)
    requires (first == g.firstFile && n == f) || (first == g.firstFile + f && n == m)
    modifies fat
    ensures Filled(g, f, m, fat[..], first + n)
  {
    hide Filled, Patch;
    ClustersInTable(g);
    for index := 0 to n
      invariant Filled(g, f, m, fat[..], first + index)
    {
      var c := first + index;
      var following := if index + 1 == n then g.endOfChain else c + 1;
      FillNext(g, f, m, fat[..], c);
      Blit(fat, c * g.width, ToLE(following, g.width));
    }
  }

  /** Fills the table: the reserved entries, then one chain after the other. */
  method BuildTable(g: Geometry, f: nat, m: nat) returns (table: Bytes)
    requires GeometryOk(g) && ClustersFit(g, f, m)
    ensures table == Table(g, f, m)
  {
    hide Filled, Patch, Table;
    var fat := new Byte[g.fatBytes](_ => 0);
    ClustersInTable(g);
    NothingFilled(g, f, m, fat[..]);
    FillNext(g, f, m, fat[..], 0);
    Blit(fat, 0, ToLE(g.media, g.width));
    for c := 1 to g.firstFile
      invariant Filled(g, f, m, fat[..], c)
    {
      FillNext(g, f, m, fat[..], c);
      Blit(fat, c * g.width, ToLE(g.endOfChain, g.width));
    }
    FillChain(g, f, m, fat, g.firstFile, f);
    FillChain(g, f, m, fat, g.firstFile + f, m);
    AllFilled(g, f, m, fat[..]);
    table := fat[..];
  }

  method CheckTable(g: Geometry, f: nat, m: nat, fat: Bytes) returns (ok: bool)
    requires GeometryOk(g) && ClustersFit(g, f, m) && |fat| == g.fatBytes
    ensures ok <==> fat == Table(g, f, m)
  {
    hide Table, Entry, Expected;
    TableByEntries(g, f, m, fat);
    for c := 0 to EntryCount(g)
      invariant forall k: nat | k < c :: Entry(g, fat, k) == Expected(g, f, m, k)
    {
      if Entry(g, fat, c) != Expected(g, f, m, c) { return false; }
    }
    return true;
  }

  // ---- Chains and free space ----------------------------------------------

  function Run(first: nat, n: nat): (cs: seq<nat>)
    ensures |cs| == n && forall i | 0 <= i < n :: cs[i] == first + i
  {
    seq(n, i => first + i)
  }

  /** `cs` is a complete cluster chain of the table. */
  ghost predicate IsChain(g: Geometry, fat: Bytes, cs: seq<nat>)
    requires GeometryOk(g) && |fat| == g.fatBytes
  {
    && |cs| > 0 && (forall i | 0 <= i < |cs| :: cs[i] < EntryCount(g))
    && (forall i | 0 <= i < |cs| - 1 :: Entry(g, fat, cs[i]) == cs[i + 1])
    && Entry(g, fat, cs[|cs| - 1]) == g.endOfChain
  }

  /** A chain is determined by its first cluster. */
  lemma {:induction false} ChainUnique(g: Geometry, fat: Bytes, cs: seq<nat>, ds: seq<nat>)
    requires GeometryOk(g) && |fat| == g.fatBytes && IsChain(g, fat, cs) && IsChain(g, fat, ds) && cs[0] == ds[0]
    ensures cs == ds
    decreases |cs|
  {
    hide Entry;
    assert |cs| > 1 ==> Entry(g, fat, cs[0]) == cs[1] < EntryCount(g);
    assert |ds| > 1 ==> Entry(g, fat, ds[0]) == ds[1] < EntryCount(g);
    if |cs| > 1 && |ds| > 1 {
      ChainUnique(g, fat, cs[1..], ds[1..]);
      assert cs == [cs[0]] + cs[1..] && ds == [ds[0]] + ds[1..];
    }
  }

  lemma TableEntry(g: Geometry, f: nat, m: nat, c: nat)
    requires GeometryOk(g) && ClustersFit(g, f, m) && c < EntryCount(g)
    ensures Entry(g, Table(g, f, m), c) == Expected(g, f, m, c)
  {
    hide Entry, Table, Expected;
    TableByEntries(g, f, m, Table(g, f, m));
  }

  /** Each file's chain is its own run of consecutive clusters. */
  lemma RunsAreChains(g: Geometry, f: nat, m: nat)
    requires GeometryOk(g) && ClustersFit(g, f, m)
    ensures f > 0 ==> IsChain(g, Table(g, f, m), Run(g.firstFile, f))
    ensures m > 0 ==> IsChain(g, Table(g, f, m), Run(g.firstFile + f, m))
  {
    hide Entry, Table;
    ClustersInTable(g);
    forall c: nat | c < EntryCount(g) ensures Entry(g, Table(g, f, m), c) == Expected(g, f, m, c) {
      TableEntry(g, f, m, c);
    }
  }

  /** The two chains are disjoint and are exactly the allocated file clusters. */
  lemma ChainsTile(g: Geometry, f: nat, m: nat, efi: seq<nat>, manifest: seq<nat>, c: nat)
    requires GeometryOk(g) && ClustersFit(g, f, m) && g.firstFile <= c < EntryCount(g)
    requires f > 0 && IsChain(g, Table(g, f, m), efi) && efi[0] == g.firstFile
    requires if m == 0 then manifest == [] else IsChain(g, Table(g, f, m), manifest) && manifest[0] == g.firstFile + f
    ensures !(c in efi && c in manifest)
    ensures Entry(g, Table(g, f, m), c) != 0 <==> c in efi || c in manifest
  {
    hide Entry, Table, IsChain;
    RunsAreChains(g, f, m);
    ChainUnique(g, Table(g, f, m), efi, Run(g.firstFile, f));
    if m > 0 { ChainUnique(g, Table(g, f, m), manifest, Run(g.firstFile + f, m)); }
    TableEntry(g, f, m, c);
    ExpectedFits(g, f, m, c);
    assert c in efi <==> g.firstFile <= c < g.firstFile + f by { RunMembers(g.firstFile, f, c); }
    assert c in manifest <==> g.firstFile + f <= c < g.firstFile + f + m by { RunMembers(g.firstFile + f, m, c); }
  }

  lemma RunMembers(first: nat, n: nat, c: nat)
    ensures c in Run(first, n) <==> first <= c < first + n
  {
    if first <= c < first + n { assert Run(first, n)[c - first] == c; }
  }

  /** Zero entries among the data clusters below `n`. */
  function FreeCount(g: Geometry, fat: Bytes, n: nat): (k: nat)
    requires g.width > 0 && |fat| == g.fatBytes && 2 <= n <= EntryCount(g)
  {
    if n == 2 then 0 else FreeCount(g, fat, n - 1) + (if Entry(g, fat, n - 1) == 0 then 1 else 0)
  }

  lemma {:induction false} FreeBelow(g: Geometry, f: nat, m: nat, n: nat)
    requires GeometryOk(g) && ClustersFit(g, f, m) && 2 <= n <= EntryCount(g)
    ensures FreeCount(g, Table(g, f, m), n) == if n <= g.firstFile + f + m then 0 else n - (g.firstFile + f + m)
    decreases n
  {
    hide Entry, Table, Expected;
    if n > 2 {
      FreeBelow(g, f, m, n - 1);
      TableEntry(g, f, m, n - 1);
      ExpectedFits(g, f, m, n - 1);
    }
  }

  /** Free clusters, file clusters and the clusters before the files are all the data clusters. */
  lemma ClustersConserved(g: Geometry, f: nat, m: nat)
    requires GeometryOk(g) && ClustersFit(g, f, m)
    ensures g.maxCluster < EntryCount(g)
    ensures FreeCount(g, Table(g, f, m), g.maxCluster + 1) + f + m + (g.firstFile - 2) == g.maxCluster - 1
  {
    ClustersInTable(g);
    FreeBelow(g, f, m, g.maxCluster + 1);
  }
}
