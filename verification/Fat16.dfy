/** The deterministic 8 MiB FAT16 boot image: built from its files, and parsed back over
    every byte by listing directories and following cluster chains. */
module Fat16 {
  import opened ByteCodec
  import opened FatDirectory
  import opened Fat
  import opened Regions
  import Utf8

  const TOTAL_SECTORS := 16_384
  const IMAGE_BYTES := TOTAL_SECTORS * SECTOR_BYTES
  const FAT_SECTORS := 64
  const FAT_BYTES := FAT_SECTORS * SECTOR_BYTES
  const ROOT_ENTRIES := 224
  const ROOT_SECTORS := 14
  const FIRST_DATA_SECTOR := 1 + 2 * FAT_SECTORS + ROOT_SECTORS
  const MAX_CLUSTER := TOTAL_SECTORS - FIRST_DATA_SECTOR + 1
  const EFI_CLUSTER := 2
  const BOOT_CLUSTER := 3
  const FIRST_FILE_CLUSTER := 4
  const MEDIA := 0xF8
  const END_OF_CHAIN := 0xFFFF
  const VOLUME_IDENTIFIER := 0x5545_4649
  const VOLUME_LABEL: Bytes := Utf8.Ascii("UEFI BOOT  ")

  const GEOMETRY := Geometry(2, 0xFF00 + MEDIA, END_OF_CHAIN, FIRST_FILE_CLUSTER, MAX_CLUSTER, FAT_BYTES)

  const FAT_AT := SECTOR_BYTES
  const SECOND_FAT_AT := FAT_AT + FAT_BYTES
  const ROOT_AT := SECOND_FAT_AT + FAT_BYTES
  const EFI_AT := FIRST_DATA_SECTOR * SECTOR_BYTES
  const BOOT_AT := EFI_AT + SECTOR_BYTES
  const FILES_AT := BOOT_AT + SECTOR_BYTES

  // ---- Layout -------------------------------------------------------------

  function Parameters(): (b: Bytes)
    ensures |b| == 36
  {
    [0xEB, 0x3C, 0x90] + Utf8.Ascii("UEFIBOOT")
    + ToLE(SECTOR_BYTES, 2) + [1, 1, 0, 2] + ToLE(ROOT_ENTRIES, 2) + ToLE(TOTAL_SECTORS, 2) + [MEDIA]
    + ToLE(FAT_SECTORS, 2) + ToLE(32, 2) + ToLE(2, 2) + Zeros(8)
  }

  function BootSector(): (b: Bytes)
    ensures |b| == SECTOR_BYTES
  {
    Parameters() + [0x00, 0x00, 0x29] + ToLE(VOLUME_IDENTIFIER, 4) + VOLUME_LABEL + Utf8.Ascii("FAT16   ")
    + Zeros(448) + [0x55, 0xAA]
  }

  /** At least one cluster, even for an empty file. */
  function Clusters(bytes: nat): (n: nat) {
    var n := (bytes + SECTOR_BYTES - 1) / SECTOR_BYTES;
    if n < 1 then 1 else n
  }

  function EfiClusters(fs: Files): (n: nat) {
    Clusters(|fs.efi|)
  }

  function ManifestClusters(fs: Files): (n: nat) {
    if fs.manifest.Some? then Clusters(|fs.manifest.value|) else 0
  }

  predicate FilesFit(fs: Files) {
    fs.manifest != Some([]) && ClustersFit(GEOMETRY, EfiClusters(fs), ManifestClusters(fs))
  }

  function ManifestBytes(fs: Files): (b: Bytes) {
    if fs.manifest.Some? then fs.manifest.value else []
  }

  function ManifestExtent(fs: Files): (e: Option<Extent>) {
    if fs.manifest.Some? then Some(Extent(FIRST_FILE_CLUSTER + EfiClusters(fs), |fs.manifest.value|)) else None
  }

  function RootRegion(): (b: Bytes)
    ensures |b| == ROOT_SECTORS * SECTOR_BYTES
  {
    RootEntries(VOLUME_LABEL, EFI_CLUSTER) + Zeros(ROOT_SECTORS * SECTOR_BYTES - 64)
  }

  function EfiSector(): (b: Bytes)
    ensures |b| == SECTOR_BYTES
  {
    EfiEntries(EFI_CLUSTER, 0, BOOT_CLUSTER) + Zeros(416)
  }

  function BootSectorOf(bootName: Bytes, fs: Files): (b: Bytes)
    requires KnownBootName(bootName)
    ensures |b| == SECTOR_BYTES
  {
    BootDirectory(bootName, BOOT_CLUSTER, EFI_CLUSTER, Extent(FIRST_FILE_CLUSTER, |fs.efi|), ManifestExtent(fs))
  }

  lemma GeometryIsOk()
    ensures GeometryOk(GEOMETRY)
  {
    Widths();
  }

  /** Every region of the image in order. */
  function Parts(bootName: Bytes, fs: Files): (parts: seq<Bytes>)
    requires KnownBootName(bootName) && FilesFit(fs)
    ensures |parts| == 9
  {
    GeometryIsOk();
    var f, m := EfiClusters(fs), ManifestClusters(fs);
    var fat := Table(GEOMETRY, f, m);
    [BootSector(), fat, fat, RootRegion(), EfiSector(), BootSectorOf(bootName, fs),
     Padded(fs.efi, f), Padded(ManifestBytes(fs), m),
     Zeros((MAX_CLUSTER + 1 - FIRST_FILE_CLUSTER - f - m) * SECTOR_BYTES)]
  }

  /** The boot image that holds exactly these files. */
  function BootImage(bootName: Bytes, fs: Files): (b: Bytes)
    requires KnownBootName(bootName) && FilesFit(fs)
  {
    Concat(Parts(bootName, fs))
  }

  function ManifestAt(fs: Files): (at: nat) {
    FILES_AT + EfiClusters(fs) * SECTOR_BYTES
  }

  function UnusedAt(fs: Files): (at: nat) {
    FILES_AT + (EfiClusters(fs) + ManifestClusters(fs)) * SECTOR_BYTES
  }

  lemma Offsets(bootName: Bytes, fs: Files)
    requires KnownBootName(bootName) && FilesFit(fs)
    ensures var p := Parts(bootName, fs);
            && Offset(p, 0) == 0 && Offset(p, 1) == FAT_AT && Offset(p, 2) == SECOND_FAT_AT && Offset(p, 3) == ROOT_AT
            && Offset(p, 4) == EFI_AT && Offset(p, 5) == BOOT_AT && Offset(p, 6) == FILES_AT
            && Offset(p, 7) == ManifestAt(fs) && Offset(p, 8) == UnusedAt(fs) && Offset(p, 9) == IMAGE_BYTES
  {
    hide BootSector, Table, RootRegion, EfiSector, BootSectorOf, Padded, EfiClusters, ManifestClusters, ManifestBytes;
    var p := Parts(bootName, fs);
    assert Offset(p, 2) == SECOND_FAT_AT && Offset(p, 4) == EFI_AT && Offset(p, 6) == FILES_AT;
  }

  /** Every region of `b`, at its place, is the one these files need. */
  predicate LaidOut(b: Bytes, bootName: Bytes, fs: Files)
    requires |b| == IMAGE_BYTES && KnownBootName(bootName) && FilesFit(fs)
  {
    GeometryIsOk();
    var f, m := EfiClusters(fs), ManifestClusters(fs);
    && b[..FAT_AT] == BootSector()
    && b[FAT_AT..SECOND_FAT_AT] == Table(GEOMETRY, f, m) && b[SECOND_FAT_AT..ROOT_AT] == Table(GEOMETRY, f, m)
    && b[ROOT_AT..EFI_AT] == RootRegion() && b[EFI_AT..BOOT_AT] == EfiSector()
    && b[BOOT_AT..FILES_AT] == BootSectorOf(bootName, fs)
    && b[FILES_AT..ManifestAt(fs)] == Padded(fs.efi, f)
    && b[ManifestAt(fs)..UnusedAt(fs)] == Padded(ManifestBytes(fs), m)
    && AllZero(b[UnusedAt(fs)..])
  }

  lemma RegionsOf(b: Bytes, bootName: Bytes, fs: Files)
    requires |b| == IMAGE_BYTES && KnownBootName(bootName) && FilesFit(fs)
    ensures LaidOut(b, bootName, fs) <==> forall i | 0 <= i < 9 :: RegionIs(b, Parts(bootName, fs), i)
  {
    hide BootSector, Table, RootRegion, EfiSector, BootSectorOf, Padded, EfiClusters, ManifestClusters, ManifestBytes;
    hide Offset, Zeros;
    Offsets(bootName, fs);
    var p, tail := Parts(bootName, fs), b[UnusedAt(fs)..];
    if AllZero(tail) { AllZeroIsZeros(tail); }
    assert tail == b[UnusedAt(fs)..IMAGE_BYTES] && b[..FAT_AT] == b[0..FAT_AT];
    if forall i | 0 <= i < 9 :: RegionIs(b, p, i) {
      assert RegionIs(b, p, 0) && RegionIs(b, p, 1) && RegionIs(b, p, 2) && RegionIs(b, p, 3) && RegionIs(b, p, 4);
      assert RegionIs(b, p, 5) && RegionIs(b, p, 6) && RegionIs(b, p, 7) && RegionIs(b, p, 8);
    }
  }

  /** An image of the right size holds the files exactly when it is laid out for them. */
  lemma ImageIsLaidOut(b: Bytes, bootName: Bytes, fs: Files)
    requires |b| == IMAGE_BYTES && KnownBootName(bootName) && FilesFit(fs)
    ensures b == BootImage(bootName, fs) <==> LaidOut(b, bootName, fs)
  {
    hide LaidOut, RegionIs, Offset, Parts;
    RegionsOf(b, bootName, fs);
    Offsets(bootName, fs);
    ConcatByRegions(b, Parts(bootName, fs));
  }

  lemma ImageLength(bootName: Bytes, fs: Files)
    requires KnownBootName(bootName) && FilesFit(fs)
    ensures |BootImage(bootName, fs)| == IMAGE_BYTES
  {
    hide Offset, Parts;
    Offsets(bootName, fs);
    ConcatLength(Parts(bootName, fs));
  }

  // ---- Directories --------------------------------------------------------

  /** `entries` in order, none starting with zero, then zeros to the end. */
  predicate Lists(directory: Bytes, entries: seq<Bytes>) {
    && |entries| * ENTRY_BYTES <= |directory| && |directory| % ENTRY_BYTES == 0
    && (forall i | 0 <= i < |entries| :: |entries[i]| == ENTRY_BYTES && entries[i][0] != 0)
    && (forall i | 0 <= i < |entries| :: directory[i * ENTRY_BYTES..(i + 1) * ENTRY_BYTES] == entries[i])
    && AllZero(directory[|entries| * ENTRY_BYTES..])
  }

  function Slot(directory: Bytes, i: nat): (e: Bytes)
    requires (i + 1) * ENTRY_BYTES <= |directory|
    ensures |e| == ENTRY_BYTES
  {
    directory[i * ENTRY_BYTES..(i + 1) * ENTRY_BYTES]
  }

  /** The entries among the first `n` slots, and whether a zero slot was seen. */
  ghost predicate ListedSoFar(directory: Bytes, n: nat, entries: seq<Bytes>, terminated: bool) {
    && |entries| <= n && n * ENTRY_BYTES <= |directory| && (!terminated ==> |entries| == n)
    && (forall i | 0 <= i < |entries| :: |entries[i]| == ENTRY_BYTES && entries[i][0] != 0)
    && (forall i | 0 <= i < |entries| :: directory[i * ENTRY_BYTES..(i + 1) * ENTRY_BYTES] == entries[i])
    && AllZero(directory[|entries| * ENTRY_BYTES..n * ENTRY_BYTES])
  }

  /** Any listing of the directory agrees with the slots read so far. */
  ghost predicate ListingAgrees(directory: Bytes, n: nat, entries: seq<Bytes>, terminated: bool) {
    forall es | Lists(directory, es) :: entries == es[..Min(n, |es|)] && (terminated ==> n > |es|)
  }

  lemma SlotExpected(directory: Bytes, es: seq<Bytes>, n: nat)
    requires Lists(directory, es) && (n + 1) * ENTRY_BYTES <= |directory|
    ensures n < |es| ==> Slot(directory, n) == es[n] && es[n][0] != 0
    ensures n >= |es| ==> AllZero(Slot(directory, n))
  {
    if n >= |es| {
      var at := |es| * ENTRY_BYTES;
      forall k | 0 <= k < ENTRY_BYTES ensures Slot(directory, n)[k] == 0 {
        assert Slot(directory, n)[k] == directory[at..][n * ENTRY_BYTES + k - at];
      }
    }
  }

  lemma ListEmptySlot(directory: Bytes, n: nat, entries: seq<Bytes>, terminated: bool)
    requires ListedSoFar(directory, n, entries, terminated) && (n + 1) * ENTRY_BYTES <= |directory|
    requires AllZero(Slot(directory, n))
    ensures ListedSoFar(directory, n + 1, entries, true)
  {
    var at := |entries| * ENTRY_BYTES;
    forall x | at <= x < (n + 1) * ENTRY_BYTES ensures directory[x] == 0 {
      if x < n * ENTRY_BYTES {
        assert directory[x] == directory[at..n * ENTRY_BYTES][x - at];
      } else {
        assert directory[x] == Slot(directory, n)[x - n * ENTRY_BYTES];
      }
    }
  }

  lemma ListLiveSlot(directory: Bytes, n: nat, entries: seq<Bytes>)
    requires ListedSoFar(directory, n, entries, false) && (n + 1) * ENTRY_BYTES <= |directory|
    requires Slot(directory, n)[0] != 0
    ensures ListedSoFar(directory, n + 1, entries + [Slot(directory, n)], false)
  {
    var all := entries + [Slot(directory, n)];
    assert all[n] == Slot(directory, n);
    assert forall i | 0 <= i < n :: all[i] == entries[i];
    assert directory[|all| * ENTRY_BYTES..(n + 1) * ENTRY_BYTES] == [];
  }

  lemma AgreesOnSlot(directory: Bytes, n: nat, entries: seq<Bytes>, terminated: bool)
    requires ListingAgrees(directory, n, entries, terminated) && (n + 1) * ENTRY_BYTES <= |directory|
    ensures AllZero(Slot(directory, n)) ==> ListingAgrees(directory, n + 1, entries, true)
    ensures !AllZero(Slot(directory, n)) ==> ListingAgrees(directory, n + 1, entries + [Slot(directory, n)], terminated)
    ensures !AllZero(Slot(directory, n)) && (exists es :: Lists(directory, es))
            ==> !terminated && Slot(directory, n)[0] != 0
  {
    hide Lists, Slot;
    forall es | Lists(directory, es)
      ensures AllZero(Slot(directory, n)) ==> n >= |es|
      ensures !AllZero(Slot(directory, n)) ==> n < |es| && es[n] == Slot(directory, n) && Slot(directory, n)[0] != 0
    {
      SlotExpected(directory, es, n);
    }
  }

  /** Every live entry; refused when live entries follow a zero one. */
  method EnumerateDirectory(directory: Bytes) returns (r: Option<seq<Bytes>>)
    ensures r.Some? ==> Lists(directory, r.value)
    ensures forall es | Lists(directory, es) :: r == Some(es)
  {
    hide Lists, ListedSoFar, ListingAgrees, Slot;
    ListsWhole(directory);
    if |directory| % ENTRY_BYTES != 0 { return None; }
    var entries: seq<Bytes>, terminated := [], false;
    NothingListed(directory);
    for n := 0 to |directory| / ENTRY_BYTES
      invariant ListedSoFar(directory, n, entries, terminated) && ListingAgrees(directory, n, entries, terminated)
    {
      var entry := Slot(directory, n);
      AgreesOnSlot(directory, n, entries, terminated);
      if AllZero(entry) {
        ListEmptySlot(directory, n, entries, terminated);
        terminated := true;
        continue;
      }
      if entry[0] == 0 || terminated { return None; }
      ListLiveSlot(directory, n, entries);
      entries := entries + [entry];
    }
    ListingEnds(directory, entries, terminated);
    return Some(entries);
  }

  lemma ListsWhole(directory: Bytes)
    ensures (exists es :: Lists(directory, es)) ==> |directory| % ENTRY_BYTES == 0
  {
  }

  lemma NothingListed(directory: Bytes)
    ensures ListedSoFar(directory, 0, [], false) && ListingAgrees(directory, 0, [], false)
  {
    hide Lists;
  }

  lemma ListingEnds(directory: Bytes, entries: seq<Bytes>, terminated: bool)
    requires |directory| % ENTRY_BYTES == 0
    requires ListedSoFar(directory, |directory| / ENTRY_BYTES, entries, terminated)
    requires ListingAgrees(directory, |directory| / ENTRY_BYTES, entries, terminated)
    ensures Lists(directory, entries) && forall es | Lists(directory, es) :: entries == es
  {
    var n := |directory| / ENTRY_BYTES;
    assert n * ENTRY_BYTES == |directory|;
    assert directory[|entries| * ENTRY_BYTES..n * ENTRY_BYTES] == directory[|entries| * ENTRY_BYTES..];
    forall es | Lists(directory, es) ensures entries == es { assert es[..|es|] == es; }
  }

  /** The directory holds exactly the expected entries. */
  method RequireDirectory(directory: Bytes, expected: seq<Bytes>) returns (ok: bool)
    ensures ok <==> Lists(directory, expected)
  {
    hide Lists;
    var entries := EnumerateDirectory(directory);
    return entries == Some(expected);
  }
}
