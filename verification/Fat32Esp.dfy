/** The fixed-media FAT32 EFI System Partition: built from its files, and parsed back
    over every byte. */
module Fat32Esp {
  import opened ByteCodec
  import opened FatDirectory
  import opened Fat
  import opened Regions
  import Utf8

  const ESP_START_LBA := 2048
  const ESP_SECTORS := 69_632
  const ESP_BYTES := ESP_SECTORS * SECTOR_BYTES
  const RESERVED_SECTORS := 32
  const FAT_COUNT := 2
  const FAT_SECTORS := 536
  const FAT_BYTES := FAT_SECTORS * SECTOR_BYTES
  const FIRST_DATA_SECTOR := RESERVED_SECTORS + FAT_COUNT * FAT_SECTORS
  const CLUSTER_COUNT := ESP_SECTORS - FIRST_DATA_SECTOR
  const MAX_CLUSTER := CLUSTER_COUNT + 1
  const ROOT_CLUSTER := 2
  const EFI_CLUSTER := 3
  const BOOT_CLUSTER := 4
  const FIRST_FILE_CLUSTER := 5
  const MEDIA := 0xF8
  const END_OF_CHAIN := 0x0FFF_FFFF
  const VOLUME_IDENTIFIER := 0x5452_4F45
  const VOLUME_LABEL: Bytes := Utf8.Ascii("TROE ESP   ")

  const GEOMETRY := Geometry(4, 0x0FFF_FF00 + MEDIA, END_OF_CHAIN, FIRST_FILE_CLUSTER, MAX_CLUSTER, FAT_BYTES)

  const FAT_AT := RESERVED_SECTORS * SECTOR_BYTES
  const SECOND_FAT_AT := FAT_AT + FAT_BYTES
  const ROOT_AT := FIRST_DATA_SECTOR * SECTOR_BYTES
  const EFI_AT := ROOT_AT + SECTOR_BYTES
  const BOOT_AT := EFI_AT + SECTOR_BYTES
  const FILES_AT := BOOT_AT + SECTOR_BYTES

  /** Jump, OEM name and the parameters every FAT volume has. */
  function CommonParameters(): (b: Bytes)
    ensures |b| == 36
  {
    [0xEB, 0x58, 0x90] + Utf8.Ascii("TROEFAT ")
    + ToLE(SECTOR_BYTES, 2) + [1] + ToLE(RESERVED_SECTORS, 2) + [FAT_COUNT, 0, 0, 0, 0, MEDIA, 0, 0]
    + ToLE(63, 2) + ToLE(255, 2) + ToLE(ESP_START_LBA, 4) + ToLE(ESP_SECTORS, 4)
  }

  /** FAT length, root cluster, FSInfo and backup boot sectors. */
  function Fat32Parameters(): (b: Bytes)
    ensures |b| == 28
  {
    ToLE(FAT_SECTORS, 4) + Zeros(4) + ToLE(ROOT_CLUSTER, 4) + ToLE(1, 2) + ToLE(6, 2) + Zeros(12)
  }

  function BootSector(): (b: Bytes)
    ensures |b| == SECTOR_BYTES
  {
    CommonParameters() + Fat32Parameters() + [0x80, 0x00, 0x29] + ToLE(VOLUME_IDENTIFIER, 4) + VOLUME_LABEL
    + Utf8.Ascii("FAT32   ")
    + Zeros(420) + [0x55, 0xAA]
  }

  /** The free count and the next free cluster, all ones when there is none. */
  function FsInfo(f: nat, m: nat): (b: Bytes)
    requires ClustersFit(GEOMETRY, f, m)
    ensures |b| == SECTOR_BYTES
  {
    var next := FIRST_FILE_CLUSTER + f + m;
    ToLE(0x4161_5252, 4) + Zeros(480) + ToLE(0x6141_7272, 4) + ToLE(CLUSTER_COUNT - (3 + f + m), 4)
    + ToLE(if next > MAX_CLUSTER then 0xFFFF_FFFF else next, 4) + Zeros(12) + ToLE(0xAA55_0000, 4)
  }

  function Clusters(bytes: nat): (n: nat) {
    (bytes + SECTOR_BYTES - 1) / SECTOR_BYTES
  }

  function EfiClusters(fs: Files): (n: nat) {
    Clusters(|fs.efi|)
  }

  function ManifestClusters(fs: Files): (n: nat) {
    if fs.manifest.Some? then Clusters(|fs.manifest.value|) else 0
  }

  /** Non-empty files that fit the data clusters. */
  predicate FilesFit(fs: Files) {
    && fs.efi != [] && fs.manifest != Some([])
    && ClustersFit(GEOMETRY, EfiClusters(fs), ManifestClusters(fs))
  }

  function ManifestBytes(fs: Files): (b: Bytes) {
    if fs.manifest.Some? then fs.manifest.value else []
  }

  function ManifestExtent(fs: Files): (e: Option<Extent>) {
    if fs.manifest.Some? then Some(Extent(FIRST_FILE_CLUSTER + EfiClusters(fs), |fs.manifest.value|)) else None
  }

  /** The BOOT directory for the files. */
  function BootSectorOf(bootName: Bytes, fs: Files): (b: Bytes)
    requires KnownBootName(bootName)
    ensures |b| == SECTOR_BYTES
  {
    BootDirectory(bootName, BOOT_CLUSTER, EFI_CLUSTER, Extent(FIRST_FILE_CLUSTER, |fs.efi|), ManifestExtent(fs))
  }

  function RootSector(): (b: Bytes)
    ensures |b| == SECTOR_BYTES
  {
    RootEntries(VOLUME_LABEL, EFI_CLUSTER) + Zeros(448)
  }

  function EfiSector(): (b: Bytes)
    ensures |b| == SECTOR_BYTES
  {
    EfiEntries(EFI_CLUSTER, ROOT_CLUSTER, BOOT_CLUSTER) + Zeros(416)
  }

  lemma GeometryIsOk()
    ensures GeometryOk(GEOMETRY)
  {
    Widths();
  }

  /** Every region of the partition in order. */
  function Parts(bootName: Bytes, fs: Files): (parts: seq<Bytes>)
    requires KnownBootName(bootName) && FilesFit(fs)
    ensures |parts| == 14
  {
    GeometryIsOk();
    var f, m := EfiClusters(fs), ManifestClusters(fs);
    var fat := Table(GEOMETRY, f, m);
    [BootSector(), FsInfo(f, m), Zeros(4 * SECTOR_BYTES), BootSector(), FsInfo(f, m), Zeros(24 * SECTOR_BYTES),
     fat, fat, RootSector(), EfiSector(), BootSectorOf(bootName, fs),
     Padded(fs.efi, f), Padded(ManifestBytes(fs), m),
     Zeros((MAX_CLUSTER + 1 - FIRST_FILE_CLUSTER - f - m) * SECTOR_BYTES)]
  }

  /** The partition that holds exactly these files. */
  function Esp(bootName: Bytes, fs: Files): (b: Bytes)
    requires KnownBootName(bootName) && FilesFit(fs)
  {
    Concat(Parts(bootName, fs))
  }

  function ManifestAt(fs: Files): (at: nat) {
    FILES_AT + EfiClusters(fs) * SECTOR_BYTES
  }

  function UnusedAt(fs: Files): (at: nat) {
    FILES_AT + (EfiClusters(fs) + ManifestClusters(fs)) * SECTOR_BYTES
  }

  lemma Offsets(bootName: Bytes, fs: Files)
    requires KnownBootName(bootName) && FilesFit(fs)
    ensures var p := Parts(bootName, fs);
            && Offset(p, 0) == 0 && Offset(p, 1) == 512 && Offset(p, 2) == 1024 && Offset(p, 3) == 3072
            && Offset(p, 4) == 3584 && Offset(p, 5) == 4096 && Offset(p, 6) == FAT_AT && Offset(p, 7) == SECOND_FAT_AT
            && Offset(p, 8) == ROOT_AT && Offset(p, 9) == EFI_AT && Offset(p, 10) == BOOT_AT
            && Offset(p, 11) == FILES_AT
            && Offset(p, 12) == ManifestAt(fs) && Offset(p, 13) == UnusedAt(fs) && Offset(p, 14) == ESP_BYTES
  {
    hide BootSector, FsInfo, Table, RootSector, EfiSector, BootSectorOf, Padded, EfiClusters, ManifestClusters,
         ManifestBytes;
    var p := Parts(bootName, fs);
    assert Offset(p, 2) == 1024 && Offset(p, 4) == 3584 && Offset(p, 6) == FAT_AT;
    assert Offset(p, 8) == ROOT_AT && Offset(p, 10) == BOOT_AT && Offset(p, 12) == ManifestAt(fs);
  }

  /** Every region of `b`, at its place, is the one these files need. */
  predicate LaidOut(b: Bytes, bootName: Bytes, fs: Files)
    requires |b| == ESP_BYTES && KnownBootName(bootName) && FilesFit(fs)
  {
    GeometryIsOk();
    var f, m := EfiClusters(fs), ManifestClusters(fs);
    && b[..512] == BootSector() && b[3072..3584] == BootSector()
    && b[512..1024] == FsInfo(f, m) && b[3584..4096] == FsInfo(f, m)
    && AllZero(b[1024..3072]) && AllZero(b[4096..FAT_AT])
    && b[FAT_AT..SECOND_FAT_AT] == Table(GEOMETRY, f, m) && b[SECOND_FAT_AT..ROOT_AT] == Table(GEOMETRY, f, m)
    && b[ROOT_AT..EFI_AT] == RootSector() && b[EFI_AT..BOOT_AT] == EfiSector()
    && b[BOOT_AT..FILES_AT] == BootSectorOf(bootName, fs)
    && b[FILES_AT..ManifestAt(fs)] == Padded(fs.efi, f)
    && b[ManifestAt(fs)..UnusedAt(fs)] == Padded(ManifestBytes(fs), m)
    && AllZero(b[UnusedAt(fs)..])
  }

  lemma ZeroRegion(b: Bytes)
    ensures AllZero(b) <==> b == Zeros(|b|)
  {
    if AllZero(b) { AllZeroIsZeros(b); }
  }

  lemma RegionsOf(b: Bytes, bootName: Bytes, fs: Files)
    requires |b| == ESP_BYTES && KnownBootName(bootName) && FilesFit(fs)
    ensures LaidOut(b, bootName, fs) <==> forall i | 0 <= i < 14 :: RegionIs(b, Parts(bootName, fs), i)
  {
    hide BootSector, FsInfo, Table, RootSector, EfiSector, BootSectorOf, Padded, EfiClusters, ManifestClusters,
         ManifestBytes;
    hide Offset, Zeros;
    Offsets(bootName, fs);
    var p := Parts(bootName, fs);
    ZeroRegion(b[1024..3072]);
    ZeroRegion(b[4096..FAT_AT]);
    ZeroRegion(b[UnusedAt(fs)..]);
    assert b[UnusedAt(fs)..] == b[UnusedAt(fs)..ESP_BYTES] && b[..512] == b[0..512];
    if forall i | 0 <= i < 14 :: RegionIs(b, p, i) {
      assert RegionIs(b, p, 0) && RegionIs(b, p, 1) && RegionIs(b, p, 2) && RegionIs(b, p, 3) && RegionIs(b, p, 4);
      assert RegionIs(b, p, 5) && RegionIs(b, p, 6) && RegionIs(b, p, 7) && RegionIs(b, p, 8) && RegionIs(b, p, 9);
      assert RegionIs(b, p, 10) && RegionIs(b, p, 11) && RegionIs(b, p, 12) && RegionIs(b, p, 13);
    }
  }

  /** A partition of the right size is the image of the files exactly when it is laid out for them. */
  lemma EspIsLaidOut(b: Bytes, bootName: Bytes, fs: Files)
    requires |b| == ESP_BYTES && KnownBootName(bootName) && FilesFit(fs)
    ensures b == Esp(bootName, fs) <==> LaidOut(b, bootName, fs)
  {
    hide LaidOut, RegionIs, Offset, Parts;
    RegionsOf(b, bootName, fs);
    Offsets(bootName, fs);
    ConcatByRegions(b, Parts(bootName, fs));
  }

  lemma EspLength(bootName: Bytes, fs: Files)
    requires KnownBootName(bootName) && FilesFit(fs)
    ensures |Esp(bootName, fs)| == ESP_BYTES
  {
    hide Offset, Parts;
    Offsets(bootName, fs);
    ConcatLength(Parts(bootName, fs));
  }

  // ---- Extraction ---------------------------------------------------------

  /** The file sizes that a BOOT directory names; none when a size is zero. */
  function NamedSizes(boot: Bytes): (r: Option<(nat, Option<nat>)>)
    requires |boot| == SECTOR_BYTES
  {
    var size := Field(boot, 92, 4);
    if size == 0 then None
    else if boot[96..107] == MANIFEST_NAME then
      (if Field(boot, 124, 4) == 0 then None else Some((size, Some(Field(boot, 124, 4)))))
    else Some((size, None))
  }

  function SizesOf(fs: Files): (r: (nat, Option<nat>)) {
    (|fs.efi|, if fs.manifest.Some? then Some(|fs.manifest.value|) else None)
  }

  lemma SizesReadBack(bootName: Bytes, fs: Files)
    requires KnownBootName(bootName) && FilesFit(fs)
    ensures NamedSizes(BootSectorOf(bootName, fs)) == Some(SizesOf(fs))
  {
    hide BootDirectory;
    FitsField(fs);
    BootDirectoryReads(bootName, BOOT_CLUSTER, EFI_CLUSTER, Extent(FIRST_FILE_CLUSTER, |fs.efi|), ManifestExtent(fs));
  }

  lemma FitsField(fs: Files)
    requires FilesFit(fs)
    ensures |fs.efi| < U32 && (fs.manifest.Some? ==> |fs.manifest.value| < U32)
  {
  }

  /** The files of the named sizes, cut out of the data area. */
  function Cut(b: Bytes, size: nat, manifest: Option<nat>): (fs: Files)
    requires |b| == ESP_BYTES
             && ClustersFit(GEOMETRY, Clusters(size), if manifest.Some? then Clusters(manifest.value) else 0)
    ensures SizesOf(fs) == (size, manifest)
  {
    var at := FILES_AT + Clusters(size) * SECTOR_BYTES;
    Files(b[FILES_AT..FILES_AT + size], if manifest.Some? then Some(b[at..at + manifest.value]) else None)
  }

  lemma CutIsFiles(b: Bytes, bootName: Bytes, fs: Files)
    requires |b| == ESP_BYTES && KnownBootName(bootName) && FilesFit(fs) && LaidOut(b, bootName, fs)
    ensures Cut(b, |fs.efi|, SizesOf(fs).1) == fs
  {
    hide BootSector, FsInfo, Table, RootSector, EfiSector, BootSectorOf;
    var f, at := EfiClusters(fs), ManifestAt(fs);
    SubSlice(b, FILES_AT, at, 0, |fs.efi|);
    assert b[FILES_AT..at][0..|fs.efi|] == fs.efi;
    if fs.manifest.Some? {
      SubSlice(b, at, UnusedAt(fs), 0, |fs.manifest.value|);
      assert b[at..UnusedAt(fs)][0..|fs.manifest.value|] == fs.manifest.value;
    }
  }

  lemma PaddingIsZero(b: Bytes, fs: Files)
    requires |b| == ESP_BYTES && FilesFit(fs) && fs == Cut(b, |fs.efi|, SizesOf(fs).1)
    ensures FILES_AT + |fs.efi| <= ManifestAt(fs) && ManifestAt(fs) + |ManifestBytes(fs)| <= UnusedAt(fs) <= ESP_BYTES
    ensures b[FILES_AT..ManifestAt(fs)] == Padded(fs.efi, EfiClusters(fs))
       <==> AllZero(b[FILES_AT + |fs.efi|..ManifestAt(fs)])
    ensures b[ManifestAt(fs)..UnusedAt(fs)] == Padded(ManifestBytes(fs), ManifestClusters(fs))
       <==> AllZero(b[ManifestAt(fs) + |ManifestBytes(fs)|..UnusedAt(fs)])
  {
    hide Padded;
    var n, k, at, end := |fs.efi|, |ManifestBytes(fs)|, ManifestAt(fs), UnusedAt(fs);
    PaddedByTail(b[FILES_AT..at], fs.efi, EfiClusters(fs));
    PaddedByTail(b[at..end], ManifestBytes(fs), ManifestClusters(fs));
    assert b[FILES_AT..at][..n] == b[FILES_AT..FILES_AT + n] && b[FILES_AT..at][n..] == b[FILES_AT + n..at];
    assert b[at..end][..k] == b[at..at + k] && b[at..end][k..] == b[at + k..end];
  }

  /** The boot sectors, reserved sectors and fixed directories. */
  predicate FixedOk(b: Bytes)
    requires |b| == ESP_BYTES
  {
    && b[..512] == BootSector() && b[3072..3584] == b[..512] && b[3584..4096] == b[512..1024]
    && AllZero(b[1024..3072]) && AllZero(b[4096..FAT_AT])
    && b[ROOT_AT..EFI_AT] == RootSector() && b[EFI_AT..BOOT_AT] == EfiSector()
  }

  /** Returns the files of exactly the partitions that are the image of some files. */
  method ExtractFiles(b: Bytes, bootName: Bytes) returns (r: Option<Files>)
    ensures r.Some? ==> KnownBootName(bootName) && FilesFit(r.value) && b == Esp(bootName, r.value)
    ensures forall fs | KnownBootName(bootName) && FilesFit(fs) && b == Esp(bootName, fs) :: r == Some(fs)
  {
    hide BootSector, FsInfo, Table, RootSector, EfiSector, BootSectorOf, Padded, Esp, LaidOut, NamedSizes, Cut, FixedOk;
    if KnownBootName(bootName) {
      forall fs | FilesFit(fs) && b == Esp(bootName, fs)
        ensures |b| == ESP_BYTES && ChecksPass(b, bootName, fs)
      {
        ImageExpected(b, bootName, fs);
      }
    }
    if |b| != ESP_BYTES || !KnownBootName(bootName) || !FixedOk(b) { return None; }
    var boot := b[BOOT_AT..FILES_AT];
    var sizes := NamedSizes(boot);
    if sizes.None? { return None; }
    var size, manifestSize := sizes.value.0, sizes.value.1;
    var f, m := Clusters(size), if manifestSize.Some? then Clusters(manifestSize.value) else 0;
    if !ClustersFit(GEOMETRY, f, m) { return None; }
    var fs := Cut(b, size, manifestSize);
    NamedFilesFit(boot, fs);
    if boot != BootSectorOf(bootName, fs) || b[FAT_AT..SECOND_FAT_AT] != b[SECOND_FAT_AT..ROOT_AT] { return None; }
    GeometryIsOk();
    var table := CheckTable(GEOMETRY, f, m, b[FAT_AT..SECOND_FAT_AT]);
    if !table || b[512..1024] != FsInfo(f, m) { return None; }
    PaddingIsZero(b, fs);
    if !AllZero(b[FILES_AT + |fs.efi|..ManifestAt(fs)]) { return None; }
    if !AllZero(b[ManifestAt(fs) + |ManifestBytes(fs)|..UnusedAt(fs)]) || !AllZero(b[UnusedAt(fs)..]) { return None; }
    LaidOutByChecks(b, bootName, fs);
    EspIsLaidOut(b, bootName, fs);
    return Some(fs);
  }

  /** What every check of the extraction sees on the image of `fs`. */
  ghost predicate ChecksPass(b: Bytes, bootName: Bytes, fs: Files)
    requires |b| == ESP_BYTES && KnownBootName(bootName) && FilesFit(fs)
  {
    GeometryIsOk();
    var f, m := EfiClusters(fs), ManifestClusters(fs);
    && FixedOk(b) && b[BOOT_AT..FILES_AT] == BootSectorOf(bootName, fs)
    && NamedSizes(b[BOOT_AT..FILES_AT]) == Some(SizesOf(fs)) && Cut(b, |fs.efi|, SizesOf(fs).1) == fs
    && b[FAT_AT..SECOND_FAT_AT] == b[SECOND_FAT_AT..ROOT_AT] == Table(GEOMETRY, f, m) && b[512..1024] == FsInfo(f, m)
    && b[FILES_AT..ManifestAt(fs)] == Padded(fs.efi, f)
    && b[ManifestAt(fs)..UnusedAt(fs)] == Padded(ManifestBytes(fs), m) && AllZero(b[UnusedAt(fs)..])
  }

  lemma ImageExpected(b: Bytes, bootName: Bytes, fs: Files)
    requires KnownBootName(bootName) && FilesFit(fs) && b == Esp(bootName, fs)
    ensures |b| == ESP_BYTES && ChecksPass(b, bootName, fs)
  {
    hide BootSector, FsInfo, Table, RootSector, EfiSector, BootSectorOf, Padded, Esp, NamedSizes, Cut;
    EspLength(bootName, fs);
    EspIsLaidOut(b, bootName, fs);
    SizesReadBack(bootName, fs);
    CutIsFiles(b, bootName, fs);
  }

  lemma NamedFilesFit(boot: Bytes, fs: Files)
    requires |boot| == SECTOR_BYTES && NamedSizes(boot) == Some(SizesOf(fs))
    requires ClustersFit(GEOMETRY, EfiClusters(fs), ManifestClusters(fs))
    ensures FilesFit(fs)
  {
  }

  lemma LaidOutByChecks(b: Bytes, bootName: Bytes, fs: Files)
    requires |b| == ESP_BYTES && KnownBootName(bootName) && FilesFit(fs) && GeometryOk(GEOMETRY)
    requires FixedOk(b) && b[BOOT_AT..FILES_AT] == BootSectorOf(bootName, fs)
    requires b[FAT_AT..SECOND_FAT_AT] == b[SECOND_FAT_AT..ROOT_AT]
             == Table(GEOMETRY, EfiClusters(fs), ManifestClusters(fs))
    requires b[512..1024] == FsInfo(EfiClusters(fs), ManifestClusters(fs))
    requires b[FILES_AT..ManifestAt(fs)] == Padded(fs.efi, EfiClusters(fs))
    requires b[ManifestAt(fs)..UnusedAt(fs)] == Padded(ManifestBytes(fs), ManifestClusters(fs))
             && AllZero(b[UnusedAt(fs)..])
    ensures LaidOut(b, bootName, fs)
  {
    hide BootSector, FsInfo, Table, RootSector, EfiSector, BootSectorOf, Padded;
  }

  // ---- Construction -------------------------------------------------------

  /** Builds the partition of every fitting pair of files; its own check never fails. */
  method BuildEsp(fs: Files, bootName: Bytes) returns (r: Option<Bytes>)
    ensures r.Some? <==> KnownBootName(bootName) && FilesFit(fs)
    ensures r.Some? ==> r.value == Esp(bootName, fs)
  {
    hide BootSector, FsInfo, Table, RootSector, EfiSector, BootSectorOf, Padded, Concat;
    if fs.manifest == Some([]) || !KnownBootName(bootName) || fs.efi == [] { return None; }
    var f, m := EfiClusters(fs), ManifestClusters(fs);
    if FIRST_FILE_CLUSTER + f + m - 1 > MAX_CLUSTER { return None; }
    GeometryIsOk();
    var fat := BuildTable(GEOMETRY, f, m);
    var boot, fsinfo, unused := BootSector(), FsInfo(f, m), MAX_CLUSTER + 1 - FIRST_FILE_CLUSTER - f - m;
    var image := Assemble([boot, fsinfo, Zeros(4 * SECTOR_BYTES), boot, fsinfo, Zeros(24 * SECTOR_BYTES), fat, fat,
                           RootSector(), EfiSector(), BootSectorOf(bootName, fs),
                           Padded(fs.efi, f), Padded(ManifestBytes(fs), m), Zeros(unused * SECTOR_BYTES)]);
    var extracted := ExtractFiles(image, bootName);
    assert extracted == Some(fs);
    return Some(image);
  }

  /** The FSInfo free count is the number of zero entries over the data clusters. */
  lemma FsInfoCountsFree(bootName: Bytes, fs: Files)
    requires KnownBootName(bootName) && FilesFit(fs)
    ensures |Esp(bootName, fs)| == ESP_BYTES && GeometryOk(GEOMETRY) && MAX_CLUSTER < EntryCount(GEOMETRY)
    ensures Field(Esp(bootName, fs)[512..1024], 488, 4)
         == FreeCount(GEOMETRY, Esp(bootName, fs)[FAT_AT..SECOND_FAT_AT], MAX_CLUSTER + 1)
  {
    hide BootSector, FsInfo, Table, RootSector, EfiSector, BootSectorOf, Padded, Esp, EfiClusters, ManifestClusters;
    var b, f, m := Esp(bootName, fs), EfiClusters(fs), ManifestClusters(fs);
    EspLength(bootName, fs);
    EspIsLaidOut(b, bootName, fs);
    GeometryIsOk();
    ClustersConserved(GEOMETRY, f, m);
    FreeField(f, m);
  }

  lemma FreeField(f: nat, m: nat)
    requires ClustersFit(GEOMETRY, f, m)
    ensures Field(FsInfo(f, m), 488, 4) == CLUSTER_COUNT - (3 + f + m)
  {
    var free := CLUSTER_COUNT - (3 + f + m);
    assert FsInfo(f, m)[488..492] == ToLE(free, 4);
    Widths();
    ToLEThenLE(free, 4);
  }
}
