/** Building the FAT16 boot image and extracting its files. */
module Fat16Codec {
  import opened ByteCodec
  import opened FatDirectory
  import opened Fat
  import opened Fat16
  import opened Regions
  import Utf8

  // ---- Expected directories -----------------------------------------------

  predicate EntriesOk(es: seq<Bytes>) {
    forall i | 0 <= i < |es| :: |es[i]| == ENTRY_BYTES && es[i][0] != 0
  }

  lemma {:induction false} EvenOffsets(es: seq<Bytes>, i: nat)
    requires EntriesOk(es) && i <= |es|
    ensures Offset(es, i) == i * ENTRY_BYTES
  {
    if i > 0 { EvenOffsets(es, i - 1); }
  }

  /** A directory lists the entries exactly when it is their concatenation and zeros. */
  lemma ListsByConcat(directory: Bytes, es: seq<Bytes>)
    requires EntriesOk(es) && |directory| % ENTRY_BYTES == 0 && |es| * ENTRY_BYTES <= |directory|
    ensures |Concat(es)| == |es| * ENTRY_BYTES
    ensures Lists(directory, es) <==> directory == Concat(es) + Zeros(|directory| - |es| * ENTRY_BYTES)
  {
    hide Concat, Offset;
    var n := |es| * ENTRY_BYTES;
    var front, tail := directory[..n], directory[n..];
    EvenOffsets(es, |es|);
    ConcatLength(es);
    ConcatByRegions(front, es);
    forall i | 0 <= i < |es|
      ensures RegionIs(front, es, i) <==> directory[i * ENTRY_BYTES..(i + 1) * ENTRY_BYTES] == es[i]
    {
      EvenOffsets(es, i);
      EvenOffsets(es, i + 1);
      assert (i + 1) * ENTRY_BYTES <= n;
      assert front[i * ENTRY_BYTES..(i + 1) * ENTRY_BYTES] == directory[i * ENTRY_BYTES..(i + 1) * ENTRY_BYTES];
    }
    assert directory == front + tail;
    if AllZero(tail) { AllZeroIsZeros(tail); }
    var z := Concat(es) + Zeros(|tail|);
    assert z[..n] == Concat(es) && z[n..] == Zeros(|tail|);
  }

  lemma ConcatFew(a: Bytes, b: Bytes, c: Bytes, d: Bytes)
    ensures Concat([a, b]) == a + b && Concat([a, b, c]) == a + b + c && Concat([a, b, c, d]) == a + b + c + d
  {
    assert Concat([]) == [];
    assert [a][..0] == [] && [a, b][..1] == [a] && [a, b, c][..2] == [a, b] && [a, b, c, d][..3] == [a, b, c];
    assert Concat([a]) == a;
  }

  function Dot(cluster: nat): (e: Bytes) {
    DirectoryEntry(Utf8.Ascii(".          "), DIRECTORY, cluster, 0)
  }

  function DotDot(cluster: nat): (e: Bytes) {
    DirectoryEntry(Utf8.Ascii("..         "), DIRECTORY, cluster, 0)
  }

  function RootList(): (es: seq<Bytes>) {
    [DirectoryEntry(VOLUME_LABEL, VOLUME, 0, 0), DirectoryEntry(Utf8.Ascii("EFI        "), DIRECTORY, EFI_CLUSTER, 0)]
  }

  function EfiList(): (es: seq<Bytes>) {
    [Dot(EFI_CLUSTER), DotDot(0), DirectoryEntry(Utf8.Ascii("BOOT       "), DIRECTORY, BOOT_CLUSTER, 0)]
  }

  function BootList(bootName: Bytes, efi: Extent, manifest: Option<Extent>): (es: seq<Bytes>)
    requires KnownBootName(bootName)
  {
    [Dot(BOOT_CLUSTER), DotDot(EFI_CLUSTER), FileEntry(bootName, efi)]
    + (if manifest.Some? then [FileEntry(MANIFEST_NAME, manifest.value)] else [])
  }

  lemma NameFirst(name: Bytes, attributes: Byte, cluster: nat, size: nat)
    requires |name| == 11 && name[0] != 0
    ensures |DirectoryEntry(name, attributes, cluster, size)| == ENTRY_BYTES
    ensures DirectoryEntry(name, attributes, cluster, size)[0] != 0
  {
  }

  lemma RootListed(b: Bytes)
    requires |b| == ROOT_SECTORS * SECTOR_BYTES
    ensures Lists(b, RootList()) <==> b == RootRegion()
  {
    hide DirectoryEntry, Concat, Lists;
    var l, n := VOLUME_LABEL, Utf8.Ascii("EFI        ");
    NameFirst(l, VOLUME, 0, 0);
    NameFirst(n, DIRECTORY, EFI_CLUSTER, 0);
    ListsByConcat(b, RootList());
    ConcatFew(RootList()[0], RootList()[1], [], []);
  }

  lemma EfiListed(b: Bytes)
    requires |b| == SECTOR_BYTES
    ensures Lists(b, EfiList()) <==> b == EfiSector()
  {
    hide DirectoryEntry, Concat, Lists;
    NameFirst(Utf8.Ascii(".          "), DIRECTORY, EFI_CLUSTER, 0);
    NameFirst(Utf8.Ascii("..         "), DIRECTORY, 0, 0);
    NameFirst(Utf8.Ascii("BOOT       "), DIRECTORY, BOOT_CLUSTER, 0);
    ListsByConcat(b, EfiList());
    ConcatFew(EfiList()[0], EfiList()[1], EfiList()[2], []);
  }

  lemma BootListOk(bootName: Bytes, efi: Extent, manifest: Option<Extent>)
    requires KnownBootName(bootName)
    ensures EntriesOk(BootList(bootName, efi, manifest))
  {
    hide DirectoryEntry;
    NameFirst(Utf8.Ascii(".          "), DIRECTORY, BOOT_CLUSTER, 0);
    NameFirst(Utf8.Ascii("..         "), DIRECTORY, EFI_CLUSTER, 0);
    NameFirst(bootName, ARCHIVE, efi.cluster, efi.size);
    if manifest.Some? { NameFirst(MANIFEST_NAME, ARCHIVE, manifest.value.cluster, manifest.value.size); }
  }

  lemma BootListed(b: Bytes, bootName: Bytes, efi: Extent, manifest: Option<Extent>)
    requires |b| == SECTOR_BYTES && KnownBootName(bootName)
    ensures Lists(b, BootList(bootName, efi, manifest))
       <==> b == BootDirectory(bootName, BOOT_CLUSTER, EFI_CLUSTER, efi, manifest)
  {
    hide DirectoryEntry, Concat, Lists, Utf8.Ascii;
    var es, dots := BootList(bootName, efi, manifest), Dots(BOOT_CLUSTER, EFI_CLUSTER);
    BootListOk(bootName, efi, manifest);
    ListsByConcat(b, es);
    var file := FileEntry(bootName, efi);
    if manifest.Some? {
      ConcatFew(es[0], es[1], file, FileEntry(MANIFEST_NAME, manifest.value));
      assert es == [es[0], es[1], file, FileEntry(MANIFEST_NAME, manifest.value)];
    } else {
      ConcatFew(es[0], es[1], file, []);
      assert es == [es[0], es[1], file];
      assert Zeros(ENTRY_BYTES) + Zeros(384) == Zeros(416);
      assert dots + file + Zeros(ENTRY_BYTES) + Zeros(384) == dots + file + (Zeros(ENTRY_BYTES) + Zeros(384));
    }
  }

  // ---- Chains -------------------------------------------------------------

  function ClusterAt(c: nat): (at: nat)
    requires c >= 2
  {
    (FIRST_DATA_SECTOR + (c - 2)) * SECTOR_BYTES
  }

  /** Follows one file's chain; on the expected table it is the file's run of clusters. */
  method ExtractChain(b: Bytes, fat: Bytes, f: nat, m: nat, first: nat, clusters: nat, byteCount: nat)
    returns (r: Option<Bytes>)
    requires |b| == IMAGE_BYTES && GeometryOk(GEOMETRY) && ClustersFit(GEOMETRY, f, m) && fat == Table(GEOMETRY, f, m)
    requires (first == FIRST_FILE_CLUSTER && clusters == f) || (first == FIRST_FILE_CLUSTER + f && clusters == m)
    requires clusters > 0 && byteCount <= clusters * SECTOR_BYTES
    ensures var run := b[ClusterAt(first)..ClusterAt(first + clusters)];
            r == if AllZero(run[byteCount..]) then Some(run[..byteCount]) else None
  {
    hide Table, Entry;
    ClustersInTable(GEOMETRY);
    var cluster, payload: Bytes := first, [];
    for index := 0 to clusters
      invariant payload == b[ClusterAt(first)..ClusterAt(first + index)]
      invariant cluster == if index < clusters then first + index else END_OF_CHAIN
    {
      assert cluster == first + index;
      var at := ClusterAt(cluster);
      assert b[ClusterAt(first)..at + SECTOR_BYTES] == b[ClusterAt(first)..at] + b[at..at + SECTOR_BYTES];
      payload := payload + b[at..at + SECTOR_BYTES];
      TableEntry(GEOMETRY, f, m, cluster);
      cluster := Entry(GEOMETRY, fat, cluster);
    }
    assert cluster == END_OF_CHAIN;
    if !AllZero(payload[byteCount..]) { return None; }
    return Some(payload[..byteCount]);
  }

  // ---- Extraction ---------------------------------------------------------

  /** What a file entry says. */
  function ExtentOf(entry: Bytes): (e: Extent)
    requires |entry| == ENTRY_BYTES
  {
    Extent(Field(entry, 26, 2), Field(entry, 28, 4))
  }

  lemma ExtentReadsBack(name: Bytes, e: Extent)
    requires |name| == 11 && e.cluster < U16 && e.size < U32
    ensures ExtentOf(FileEntry(name, e)) == e
  {
    hide FileEntry;
    EntryFields(name, e);
    Widths();
    ToLEThenLE(e.cluster, 2);
  }

  lemma FitsFields(fs: Files)
    requires FilesFit(fs)
    ensures |fs.efi| < U32
            && (fs.manifest.Some? ==> |fs.manifest.value| < U32 && ManifestExtent(fs).value.cluster < U16)
    ensures |fs.efi| <= EfiClusters(fs) * SECTOR_BYTES && |ManifestBytes(fs)| <= ManifestClusters(fs) * SECTOR_BYTES
    ensures ManifestAt(fs) <= UnusedAt(fs) <= IMAGE_BYTES
  {
  }

  /** What every check of the extraction sees on the image of `fs`. */
  ghost predicate ChecksPass(b: Bytes, bootName: Bytes, fs: Files)
    requires |b| == IMAGE_BYTES && KnownBootName(bootName) && FilesFit(fs)
  {
    GeometryIsOk();
    var f, m := EfiClusters(fs), ManifestClusters(fs);
    && b[..FAT_AT] == BootSector() && Lists(b[ROOT_AT..EFI_AT], RootList()) && Lists(b[EFI_AT..BOOT_AT], EfiList())
    && Lists(b[BOOT_AT..FILES_AT], BootList(bootName, Extent(FIRST_FILE_CLUSTER, |fs.efi|), ManifestExtent(fs)))
    && b[FAT_AT..SECOND_FAT_AT] == b[SECOND_FAT_AT..ROOT_AT] == Table(GEOMETRY, f, m)
    && b[FILES_AT..ManifestAt(fs)] == Padded(fs.efi, f)
    && b[ManifestAt(fs)..UnusedAt(fs)] == Padded(ManifestBytes(fs), m) && AllZero(b[UnusedAt(fs)..])
  }

  /** An image holds the files exactly when every check passes for them. */
  lemma ImageChecks(b: Bytes, bootName: Bytes, fs: Files)
    requires |b| == IMAGE_BYTES && KnownBootName(bootName) && FilesFit(fs)
    ensures b == BootImage(bootName, fs) <==> ChecksPass(b, bootName, fs)
  {
    hide BootSector, Table, RootRegion, EfiSector, BootDirectory, Padded, BootImage, Lists, BootList, EfiClusters,
         ManifestClusters;
    ImageIsLaidOut(b, bootName, fs);
    RootListed(b[ROOT_AT..EFI_AT]);
    EfiListed(b[EFI_AT..BOOT_AT]);
    BootListed(b[BOOT_AT..FILES_AT], bootName, Extent(FIRST_FILE_CLUSTER, |fs.efi|), ManifestExtent(fs));
  }

  /** The extents of the BOOT directory's files, when its listing is canonical. */
  method ReadBootDirectory(boot: Bytes, bootName: Bytes) returns (r: Option<(Extent, Option<Extent>)>)
    requires |boot| == SECTOR_BYTES && KnownBootName(bootName)
    ensures r.Some? ==> Lists(boot, BootList(bootName, r.value.0, r.value.1))
    ensures forall e, m | Lists(boot, BootList(bootName, e, m)) && e.cluster < U16 && e.size < U32
              && (m.Some? ==> m.value.cluster < U16 && m.value.size < U32) :: r == Some((e, m))
  {
    hide Lists, FileEntry, Dot, DotDot;
    var entries := EnumerateDirectory(boot);
    forall e, m | Lists(boot, BootList(bootName, e, m)) && e.cluster < U16 && e.size < U32
                  && (m.Some? ==> m.value.cluster < U16 && m.value.size < U32)
      ensures entries.Some? && |entries.value| == (if m.Some? then 4 else 3)
      ensures |entries.value[2]| == ENTRY_BYTES && ExtentOf(entries.value[2]) == e
      ensures m.Some? ==> |entries.value[3]| == ENTRY_BYTES && ExtentOf(entries.value[3]) == m.value
    {
      ExtentReadsBack(bootName, e);
      if m.Some? { ExtentReadsBack(MANIFEST_NAME, m.value); }
    }
    if entries.None? || (|entries.value| != 3 && |entries.value| != 4) { return None; }
    ListedLengths(boot, entries.value);
    var efi := ExtentOf(entries.value[2]);
    var manifest := if |entries.value| == 4 then Some(ExtentOf(entries.value[3])) else None;
    if entries.value != BootList(bootName, efi, manifest) { return None; }
    return Some((efi, manifest));
  }

  lemma ListedLengths(directory: Bytes, es: seq<Bytes>)
    requires Lists(directory, es)
    ensures forall i | 0 <= i < |es| :: |es[i]| == ENTRY_BYTES
  {
  }

  /** Returns the files of exactly the images that are built from some files. */
  method ExtractFiles(b: Bytes, bootName: Bytes) returns (r: Option<Files>)
    ensures r.Some? ==> KnownBootName(bootName) && FilesFit(r.value) && b == BootImage(bootName, r.value)
    ensures forall fs | KnownBootName(bootName) && FilesFit(fs) && b == BootImage(bootName, fs) :: r == Some(fs)
  {
    hide BootSector, Table, Padded, BootImage, Lists, BootList, RootList, EfiList;
    if KnownBootName(bootName) {
      forall fs | FilesFit(fs) && b == BootImage(bootName, fs)
        ensures |b| == IMAGE_BYTES && ChecksPass(b, bootName, fs)
      {
        ImageLength(bootName, fs);
        ImageChecks(b, bootName, fs);
      }
    }
    if !KnownBootName(bootName) || |b| != IMAGE_BYTES || b[..FAT_AT] != BootSector() { return None; }
    var fat := b[FAT_AT..SECOND_FAT_AT];
    if fat != b[SECOND_FAT_AT..ROOT_AT] { return None; }
    var root := RequireDirectory(b[ROOT_AT..EFI_AT], RootList());
    var efiDirectory := RequireDirectory(b[EFI_AT..BOOT_AT], EfiList());
    if !root || !efiDirectory { return None; }
    var named := ReadBootDirectory(b[BOOT_AT..FILES_AT], bootName);
    forall fs | FilesFit(fs) && b == BootImage(bootName, fs)
      ensures named == Some((Extent(FIRST_FILE_CLUSTER, |fs.efi|), ManifestExtent(fs)))
    {
      FitsFields(fs);
    }
    if named.None? || named.value.0.cluster != FIRST_FILE_CLUSTER { return None; }
    r := ExtractNamed(b, bootName, named.value.0.size, named.value.1);
  }

  predicate NamedFit(size: nat, manifest: Option<Extent>) {
    && ClustersFit(GEOMETRY, Clusters(size), if manifest.Some? then Clusters(manifest.value.size) else 0)
    && (manifest.Some? ==> manifest.value.size != 0 && manifest.value.cluster == FIRST_FILE_CLUSTER + Clusters(size))
  }

  /** The files have the sizes and places that the directory names. */
  predicate NamesFiles(size: nat, manifest: Option<Extent>, fs: Files) {
    |fs.efi| == size && ManifestExtent(fs) == manifest
  }

  /** The rest of the extraction once the directories are known to be canonical. */
  method ExtractNamed(b: Bytes, bootName: Bytes, size: nat, manifest: Option<Extent>) returns (r: Option<Files>)
    requires |b| == IMAGE_BYTES && KnownBootName(bootName) && b[..FAT_AT] == BootSector()
    requires b[FAT_AT..SECOND_FAT_AT] == b[SECOND_FAT_AT..ROOT_AT]
    requires Lists(b[ROOT_AT..EFI_AT], RootList()) && Lists(b[EFI_AT..BOOT_AT], EfiList())
    requires Lists(b[BOOT_AT..FILES_AT], BootList(bootName, Extent(FIRST_FILE_CLUSTER, size), manifest))
    ensures r.Some? ==> FilesFit(r.value) && b == BootImage(bootName, r.value)
    ensures forall fs | FilesFit(fs) && b == BootImage(bootName, fs) && NamesFiles(size, manifest, fs) :: r == Some(fs)
  {
    hide BootSector, Table, Padded, BootImage, Lists, BootList, RootList, EfiList;
    forall fs | FilesFit(fs) && b == BootImage(bootName, fs) ensures ChecksPass(b, bootName, fs) {
      ImageChecks(b, bootName, fs);
    }
    if !NamedFit(size, manifest) { return None; }
    var f, m := Clusters(size), if manifest.Some? then Clusters(manifest.value.size) else 0;
    GeometryIsOk();
    var table := BuildTable(GEOMETRY, f, m);
    if b[FAT_AT..SECOND_FAT_AT] != table { return None; }
    var efi := ExtractChain(b, table, f, m, FIRST_FILE_CLUSTER, f, size);
    var second: Option<Bytes> := None;
    if manifest.Some? {
      second := ExtractChain(b, table, f, m, FIRST_FILE_CLUSTER + f, m, manifest.value.size);
    }
    ChainsAreFiles(b, bootName, size, manifest, f, m, efi, second);
    if efi.None? || (manifest.Some? && second.None?) { return None; }
    var fs := Files(efi.value, second);
    if !AllZero(b[UnusedAt(fs)..]) { return None; }
    ImageChecks(b, bootName, fs);
    return Some(fs);
  }

  function RunOf(b: Bytes, first: nat, n: nat): (run: Bytes)
    requires |b| == IMAGE_BYTES && first >= 2 && first + n <= MAX_CLUSTER + 1
    ensures |run| == n * SECTOR_BYTES
  {
    b[ClusterAt(first)..ClusterAt(first + n)]
  }

  function Trimmed(run: Bytes, size: nat): (r: Option<Bytes>)
    requires size <= |run|
  {
    if AllZero(run[size..]) then Some(run[..size]) else None
  }

  /** A trimmed run is exactly the payload it is the padding of. */
  lemma TrimmedIsPadded(run: Bytes, payload: Bytes, clusters: nat)
    requires |payload| <= clusters * SECTOR_BYTES == |run|
    ensures Trimmed(run, |payload|) == Some(payload) <==> run == Padded(payload, clusters)
  {
    hide Padded;
    PaddedByTail(run, payload, clusters);
  }

  lemma ChainsAreFiles(b: Bytes, bootName: Bytes, size: nat, manifest: Option<Extent>, f: nat, m: nat,
                       efi: Option<Bytes>, second: Option<Bytes>)
    requires |b| == IMAGE_BYTES && KnownBootName(bootName) && NamedFit(size, manifest)
    requires f == Clusters(size) && m == if manifest.Some? then Clusters(manifest.value.size) else 0
    requires efi == Trimmed(RunOf(b, FIRST_FILE_CLUSTER, f), size)
    requires second ==
             if manifest.Some? then Trimmed(RunOf(b, FIRST_FILE_CLUSTER + f, m), manifest.value.size) else None
    ensures efi.Some? && (manifest.Some? ==> second.Some?) ==>
              && var fs := Files(efi.value, second);
              && FilesFit(fs) && NamesFiles(size, manifest, fs) && EfiClusters(fs) == f && ManifestClusters(fs) == m
              && UnusedAt(fs) <= |b|
              && b[FILES_AT..ManifestAt(fs)] == Padded(fs.efi, f)
              && b[ManifestAt(fs)..UnusedAt(fs)] == Padded(ManifestBytes(fs), m)
    ensures forall fs | FilesFit(fs) && NamesFiles(size, manifest, fs) && ChecksPass(b, bootName, fs) ::
              efi.Some? && (manifest.Some? ==> second.Some?) && fs == Files(efi.value, second)
  {
    hide Padded, BootSector, Table, Lists, BootList, RootList, EfiList;
    forall fs: Files | FilesFit(fs) && NamesFiles(size, manifest, fs)
      ensures EfiClusters(fs) == f && ManifestClusters(fs) == m
      ensures ManifestAt(fs) <= UnusedAt(fs) <= |b|
      ensures efi == Some(fs.efi) <==> b[FILES_AT..ManifestAt(fs)] == Padded(fs.efi, f)
      ensures second == fs.manifest <==> b[ManifestAt(fs)..UnusedAt(fs)] == Padded(ManifestBytes(fs), m)
    {
      FilesByRuns(b, size, manifest, fs, f, m);
    }
  }

  lemma FilesByRuns(b: Bytes, size: nat, manifest: Option<Extent>, fs: Files, f: nat, m: nat)
    requires |b| == IMAGE_BYTES && NamedFit(size, manifest) && FilesFit(fs) && NamesFiles(size, manifest, fs)
    requires f == Clusters(size) && m == if manifest.Some? then Clusters(manifest.value.size) else 0
    ensures EfiClusters(fs) == f && ManifestClusters(fs) == m && ManifestAt(fs) <= UnusedAt(fs) <= |b|
    ensures Trimmed(RunOf(b, FIRST_FILE_CLUSTER, f), size) == Some(fs.efi)
       <==> b[FILES_AT..ManifestAt(fs)] == Padded(fs.efi, f)
    ensures (if manifest.Some? then Trimmed(RunOf(b, FIRST_FILE_CLUSTER + f, m), manifest.value.size) else None)
            == fs.manifest
       <==> b[ManifestAt(fs)..UnusedAt(fs)] == Padded(ManifestBytes(fs), m)
  {
    hide Trimmed;
    FitsFields(fs);
    TrimmedIsPadded(RunOf(b, FIRST_FILE_CLUSTER, f), fs.efi, f);
    if fs.manifest.Some? { TrimmedIsPadded(RunOf(b, FIRST_FILE_CLUSTER + f, m), fs.manifest.value, m); }
  }

  // ---- Construction -------------------------------------------------------

  /** Builds the image of every fitting pair of files, the empty executable included. */
  method Build(fs: Files, bootName: Bytes) returns (r: Option<Bytes>)
    ensures r.Some? <==> KnownBootName(bootName) && FilesFit(fs)
    ensures r.Some? ==> r.value == BootImage(bootName, fs)
  {
    hide BootSector, Table, RootRegion, EfiSector, BootSectorOf, Padded, Concat;
    if !KnownBootName(bootName) || fs.manifest == Some([]) { return None; }
    var f, m := EfiClusters(fs), ManifestClusters(fs);
    if 3 + f + m > MAX_CLUSTER { return None; }
    GeometryIsOk();
    var fat := BuildTable(GEOMETRY, f, m);
    var unused := MAX_CLUSTER + 1 - FIRST_FILE_CLUSTER - f - m;
    var image := Assemble([BootSector(), fat, fat, RootRegion(), EfiSector(), BootSectorOf(bootName, fs),
                           Padded(fs.efi, f), Padded(ManifestBytes(fs), m), Zeros(unused * SECTOR_BYTES)]);
    return Some(image);
  }
}
