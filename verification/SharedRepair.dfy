/** The persistent shared FAT32 medium: validation, and the two-write repair of the
    unclean-unmount marker with its crash points. */
module SharedRepair {
  import opened ByteCodec
  import opened Crc
  import opened GptHeader
  import Utf8

  const DISK_BYTES := 1024 * 1024 * 1024
  const TOTAL_SECTORS := DISK_BYTES / SECTOR_BYTES
  const PARTITION_START := 2048
  const BACKUP_HEADER_LBA := TOTAL_SECTORS - 1
  const BACKUP_ARRAY_LBA := BACKUP_HEADER_LBA - ARRAY_SECTORS
  const LAST_USABLE_LBA := BACKUP_ARRAY_LBA - 1
  const PARTITION_END := LAST_USABLE_LBA
  const PARTITION_SECTORS := PARTITION_END - PARTITION_START + 1
  const PARTITION_OFFSET := PARTITION_START * SECTOR_BYTES

  const SECTORS_PER_CLUSTER := 8
  const RESERVED_SECTORS := 32
  const FAT_COUNT := 2
  const ROOT_CLUSTER := 2
  const FSINFO_SECTOR := 1
  const BACKUP_BOOT_SECTOR := 6
  const BACKUP_FSINFO_SECTOR := BACKUP_BOOT_SECTOR + FSINFO_SECTOR
  const MEDIA := 0xF8
  const STATE_OFFSET := 65
  const STATE_DIRTY := 0x01
  const VOLUME_ID := 0x5452_4F45
  const MIN_CLUSTERS := 65_525
  const MAX_CLUSTERS := 0x0FFF_FFF5

  const DISK_GUID: Bytes :=
    [0x45, 0x4F, 0x52, 0x54, 0x48, 0x53, 0x52, 0x41, 0x45, 0x44, 0x46, 0x41, 0x54, 0x33, 0x32, 0x00]
  const PARTITION_GUID: Bytes :=
    [0x45, 0x4F, 0x52, 0x54, 0x48, 0x53, 0x52, 0x41, 0x45, 0x44, 0x46, 0x41, 0x54, 0x33, 0x32, 0x01]
  const BASIC_DATA_GUID: Bytes :=
    [0xA2, 0xA0, 0xD0, 0xEB, 0xE5, 0xB9, 0x33, 0x44, 0x87, 0xC0, 0x68, 0xB6, 0xB7, 0x26, 0x99, 0xC7]

  // ---- Layout -------------------------------------------------------------

  datatype Layout = Layout(fatSectors: nat, dataStart: nat, clusterCount: nat)

  /** Sectors a FAT needs for as many clusters as remain beside it. */
  function Clusters(fatSectors: nat): (n: int) {
    (PARTITION_SECTORS - RESERVED_SECTORS - FAT_COUNT * fatSectors) / SECTORS_PER_CLUSTER
  }

  function Required(fatSectors: nat): (n: int) {
    ((Clusters(fatSectors) + 2) * 4 + SECTOR_BYTES - 1) / SECTOR_BYTES
  }

  /** The FAT length is exactly what its own cluster count needs. */
  predicate LayoutOk(l: Layout) {
    && Required(l.fatSectors) == l.fatSectors && Clusters(l.fatSectors) == l.clusterCount
    && l.dataStart == RESERVED_SECTORS + FAT_COUNT * l.fatSectors
    && MIN_CLUSTERS <= l.clusterCount < MAX_CLUSTERS
    && l.dataStart + l.clusterCount * SECTORS_PER_CLUSTER <= PARTITION_SECTORS
  }

  const LAYOUT := Layout(2042, 4116, 261_369)

  lemma RequiredFalls(f: nat, g: nat)
    requires f <= g
    ensures Clusters(g) <= Clusters(f) && Required(g) <= Required(f)
  {
    var a, b := (Clusters(f) + 2) * 4 + SECTOR_BYTES - 1, (Clusters(g) + 2) * 4 + SECTOR_BYTES - 1;
    assert Clusters(g) <= Clusters(f);
    assert b <= a;
  }

  /** A longer FAT never needs to be longer, so there is only one layout to find. */
  lemma LayoutIsUnique(l: Layout)
    requires LayoutOk(l)
    ensures l == LAYOUT
  {
    assert LayoutOk(LAYOUT);
    if l.fatSectors < LAYOUT.fatSectors {
      RequiredFalls(l.fatSectors, LAYOUT.fatSectors);
    } else {
      RequiredFalls(LAYOUT.fatSectors, l.fatSectors);
    }
  }

  /** Iterates the FAT length to its fixed point, which it reaches for this partition. */
  method Fat32Layout() returns (l: Option<Layout>)
    ensures l == Some(LAYOUT) && LayoutOk(LAYOUT)
  {
    var fatSectors := 1;
    for i := 0 to 32
      invariant i == 0 ==> fatSectors == 1
      invariant i == 1 ==> fatSectors == 2046
      invariant i == 2 ==> fatSectors == 2042
      invariant i <= 2
    {
      assert PARTITION_SECTORS - RESERVED_SECTORS - FAT_COUNT * fatSectors > 0;
      var clusterCount, required := Clusters(fatSectors), Required(fatSectors);
      if required == fatSectors {
        return Some(Layout(fatSectors, RESERVED_SECTORS + FAT_COUNT * fatSectors, clusterCount));
      }
      fatSectors := required;
    }
  }

  // ---- Expected metadata --------------------------------------------------

  const PARTITION_NAME: Bytes := Utf8.Ascii("TROE Shared")

  /** The single-partition entry array. */
  function Entries(): (b: Bytes)
    ensures |b| == ARRAY_BYTES
  {
    var entry := BASIC_DATA_GUID + PARTITION_GUID + LbaRange(PARTITION_START, PARTITION_END) + Wide(PARTITION_NAME);
    entry + Zeros(ARRAY_BYTES - |entry|)
  }

  function PrimaryHeader(): (h: Header) {
    Header(1, BACKUP_HEADER_LBA, FIRST_USABLE_LBA, LAST_USABLE_LBA, DISK_GUID, 2, Crc32Of(Entries()))
  }

  function BackupHeader(): (h: Header) {
    Header(BACKUP_HEADER_LBA, 1, FIRST_USABLE_LBA, LAST_USABLE_LBA, DISK_GUID, BACKUP_ARRAY_LBA, Crc32Of(Entries()))
  }

  /** The BIOS parameter block and identity of the boot sector, up to the drive number. */
  function BootPrefix(): (b: Bytes)
    ensures |b| == STATE_OFFSET
  {
    [0xEB, 0x58, 0x90] + Utf8.Ascii("TROEFAT ")
    + ToLE(SECTOR_BYTES, 2) + ToLE(SECTORS_PER_CLUSTER, 1) + ToLE(RESERVED_SECTORS, 2) + ToLE(FAT_COUNT, 1)
    + Zeros(4) + ToLE(MEDIA, 1) + Zeros(2) + ToLE(63, 2) + ToLE(255, 2)
    + ToLE(PARTITION_START, 4) + ToLE(PARTITION_SECTORS, 4) + ToLE(LAYOUT.fatSectors, 4) + Zeros(4)
    + ToLE(ROOT_CLUSTER, 4) + ToLE(1, 2) + ToLE(6, 2) + Zeros(12) + [0x80]
  }

  function BootSuffix(): (b: Bytes)
    ensures |b| == SECTOR_BYTES - STATE_OFFSET - 1
  {
    [0x29] + ToLE(VOLUME_ID, 4) + Utf8.Ascii("TROE SHARE ") + Utf8.Ascii("FAT32   ") + Zeros(420) + [0x55, 0xAA]
  }

  /** The boot sector of a cleanly unmounted volume; the state byte is zero. */
  function CleanBoot(): (b: Bytes)
    ensures |b| == SECTOR_BYTES && b[STATE_OFFSET] == 0
  {
    BootPrefix() + [0] + BootSuffix()
  }

  // ---- Validation ---------------------------------------------------------

  predicate FsInfoOk(b: Bytes)
    requires |b| == SECTOR_BYTES
  {
    && Field(b, 0, 4) == 0x4161_5252 && Field(b, 484, 4) == 0x6141_7272 && Field(b, 508, 4) == 0xAA55_0000
    && var free, next := Field(b, 488, 4), Field(b, 492, 4);
    && (free == 0xFFFF_FFFF || free <= LAYOUT.clusterCount)
    && (next == 0xFFFF_FFFF || ROOT_CLUSTER <= next <= LAYOUT.clusterCount + 1)
  }

  /** Only the state byte differs from the clean sector, and it says dirty. */
  predicate DirtyBoot(b: Bytes)
    requires |b| == SECTOR_BYTES
  {
    b[STATE_OFFSET] == STATE_DIRTY && b[STATE_OFFSET := 0] == CleanBoot()
  }

  predicate BootOk(b: Bytes)
    requires |b| == SECTOR_BYTES
  {
    b == CleanBoot() || DirtyBoot(b)
  }

  predicate FatOk(fat: Bytes)
    requires |fat| >= 12
  {
    var media, reserved, root := Field(fat, 0, 4), Field(fat, 4, 4), Field(fat, 8, 4);
    && media % 0x1000_0000 == 0x0FFF_FFF8
    && reserved >= 0x0FFF_FFF8 && reserved / 0x0400_0000 % 4 == 3
    && root >= 0x0FFF_FFF8
  }

  const FAT_OFFSET := PARTITION_OFFSET + RESERVED_SECTORS * SECTOR_BYTES
  const FAT_BYTES := LAYOUT.fatSectors * SECTOR_BYTES
  const BOOT_AT := PARTITION_OFFSET
  const BACKUP_BOOT_AT := PARTITION_OFFSET + BACKUP_BOOT_SECTOR * SECTOR_BYTES
  const FSINFO_AT := PARTITION_OFFSET + FSINFO_SECTOR * SECTOR_BYTES
  const BACKUP_FSINFO_AT := PARTITION_OFFSET + BACKUP_FSINFO_SECTOR * SECTOR_BYTES

  function Sector(image: Bytes, at: nat): (b: Bytes)
    requires |image| == DISK_BYTES && at + SECTOR_BYTES <= DISK_BYTES
    ensures |b| == SECTOR_BYTES
  {
    image[at..at + SECTOR_BYTES]
  }

  predicate GptOk(image: Bytes)
    requires |image| == DISK_BYTES
  {
    && Sector(image, 0) == ProtectiveMbr(TOTAL_SECTORS)
    && HeaderIs(Sector(image, SECTOR_BYTES), PrimaryHeader())
    && image[2 * SECTOR_BYTES..2 * SECTOR_BYTES + ARRAY_BYTES] == Entries()
    && image[BACKUP_ARRAY_LBA * SECTOR_BYTES..BACKUP_ARRAY_LBA * SECTOR_BYTES + ARRAY_BYTES] == Entries()
    && HeaderIs(Sector(image, BACKUP_HEADER_LBA * SECTOR_BYTES), BackupHeader())
  }

  predicate TablesOk(image: Bytes)
    requires |image| == DISK_BYTES
  {
    && FsInfoOk(Sector(image, FSINFO_AT)) && FsInfoOk(Sector(image, BACKUP_FSINFO_AT))
    && var primary := image[FAT_OFFSET..FAT_OFFSET + FAT_BYTES];
    && primary == image[FAT_OFFSET + FAT_BYTES..FAT_OFFSET + 2 * FAT_BYTES]
    && FatOk(primary)
  }

  /** None when the image is refused, otherwise whether it needs repair. */
  function Validated(image: Bytes): (r: Option<bool>) {
    if |image| != DISK_BYTES || !GptOk(image) then None
    else
      var boot, backup := Sector(image, BOOT_AT), Sector(image, BACKUP_BOOT_AT);
      if BootOk(boot) && BootOk(backup) && TablesOk(image)
      then Some(boot != CleanBoot() || backup != CleanBoot()) else None
  }

  // ---- Repair -------------------------------------------------------------

  const STATE_AT := BOOT_AT + STATE_OFFSET
  const BACKUP_STATE_AT := BACKUP_BOOT_AT + STATE_OFFSET

  /** The image after either, both or none of the two writes. */
  function Written(image: Bytes, first: bool, second: bool): (r: Bytes)
    requires |image| == DISK_BYTES
    ensures |r| == DISK_BYTES
  {
    var half := if first then image[STATE_AT := 0] else image;
    if second then half[BACKUP_STATE_AT := 0] else half
  }

  function Repaired(image: Bytes): (r: Bytes)
    requires |image| == DISK_BYTES
  {
    Written(image, true, true)
  }

  /** A write of one state byte leaves everything but its own boot sector alone. */
  lemma WriteIsLocal(image: Bytes, at: nat)
    requires |image| == DISK_BYTES && (at == STATE_AT || at == BACKUP_STATE_AT)
    ensures var after := image[at := 0];
            && (GptOk(after) <==> GptOk(image)) && (TablesOk(after) <==> TablesOk(image))
  {
    hide HeaderIs, FsInfoOk, FatOk, Entries, ProtectiveMbr, PrimaryHeader, BackupHeader;
    var after := image[at := 0];
    var array_, backupArray := 2 * SECTOR_BYTES, BACKUP_ARRAY_LBA * SECTOR_BYTES;
    assert Sector(after, 0) == Sector(image, 0) && Sector(after, SECTOR_BYTES) == Sector(image, SECTOR_BYTES);
    assert after[array_..array_ + ARRAY_BYTES] == image[array_..array_ + ARRAY_BYTES];
    assert after[backupArray..backupArray + ARRAY_BYTES] == image[backupArray..backupArray + ARRAY_BYTES];
    assert Sector(after, BACKUP_HEADER_LBA * SECTOR_BYTES) == Sector(image, BACKUP_HEADER_LBA * SECTOR_BYTES);
    assert Sector(after, FSINFO_AT) == Sector(image, FSINFO_AT);
    assert Sector(after, BACKUP_FSINFO_AT) == Sector(image, BACKUP_FSINFO_AT);
    assert after[FAT_OFFSET..FAT_OFFSET + FAT_BYTES] == image[FAT_OFFSET..FAT_OFFSET + FAT_BYTES];
    assert after[FAT_OFFSET + FAT_BYTES..FAT_OFFSET + 2 * FAT_BYTES]
           == image[FAT_OFFSET + FAT_BYTES..FAT_OFFSET + 2 * FAT_BYTES];
  }

  /** Clearing the state byte of an accepted boot sector gives the clean one. */
  lemma ClearedIsClean(image: Bytes, boot: nat, other: nat)
    requires (boot == BOOT_AT && other == BACKUP_BOOT_AT) || (boot == BACKUP_BOOT_AT && other == BOOT_AT)
    requires |image| == DISK_BYTES && BootOk(Sector(image, boot))
    ensures var after := image[boot + STATE_OFFSET := 0];
            Sector(after, boot) == CleanBoot() && Sector(after, other) == Sector(image, other)
  {
    hide CleanBoot;
    var after, b := image[boot + STATE_OFFSET := 0], Sector(image, boot);
    assert Sector(after, boot) == b[STATE_OFFSET := 0];
    assert b == CleanBoot() ==> b[STATE_OFFSET := 0] == b;
    assert Sector(after, other) == Sector(image, other);
  }

  /** Whichever of the two writes reached the disk, the image still validates, needs a repair
      exactly when a boot sector is still marked, and its repair gives the same result. */
  lemma CrashIsRepairable(image: Bytes, first: bool, second: bool)
    requires |image| == DISK_BYTES && Validated(image).Some?
    ensures Validated(Written(image, first, second)) ==
            Some((!first && Sector(image, BOOT_AT) != CleanBoot())
                 || (!second && Sector(image, BACKUP_BOOT_AT) != CleanBoot()))
    ensures Repaired(Written(image, first, second)) == Repaired(image)
  {
    hide GptOk, TablesOk, BootOk, CleanBoot, Sector;
    CleanIsOk();
    if first {
      WriteIsLocal(image, STATE_AT);
      ClearedIsClean(image, BOOT_AT, BACKUP_BOOT_AT);
    }
    if second {
      var half := Written(image, first, false);
      WriteIsLocal(half, BACKUP_STATE_AT);
      ClearedIsClean(half, BACKUP_BOOT_AT, BOOT_AT);
    }
  }

  lemma CleanIsOk()
    ensures BootOk(CleanBoot())
  {
  }

  /** A completed repair is clean. */
  lemma RepairedIsClean(image: Bytes)
    requires |image| == DISK_BYTES && Validated(image).Some?
    ensures Validated(Repaired(image)) == Some(false)
  {
    hide GptOk, TablesOk, BootOk, CleanBoot, Sector, Validated;
    CrashIsRepairable(image, true, true);
  }

  /** An image that validates as clean has nothing to repair. */
  lemma CleanNeedsNothing(image: Bytes)
    requires |image| == DISK_BYTES && Validated(image) == Some(false)
    ensures Repaired(image) == image
  {
    hide GptOk, TablesOk, CleanBoot;
    assert Sector(image, BOOT_AT)[STATE_OFFSET] == image[STATE_AT] == 0;
    assert Sector(image, BACKUP_BOOT_AT)[STATE_OFFSET] == image[BACKUP_STATE_AT] == 0;
  }

  /** Refuses, leaves a clean image alone, or clears exactly the two state bytes. */
  method RepairImage(image: array<Byte>) returns (r: Option<bool>)
    modifies image
    ensures r == old(Validated(image[..]))
    ensures r != Some(true) ==> image[..] == old(image[..])
    ensures r == Some(true) ==> image.Length == DISK_BYTES && image[..] == Repaired(old(image[..]))
    ensures r == Some(true) ==> Validated(image[..]) == Some(false)
  {
    hide Validated;
    var needed := Validated(image[..]);
    if needed != Some(true) { return needed; }
    ValidatedLength(image[..]);
    ghost var before := image[..];
    RepairedIsClean(before);
    image[STATE_AT] := 0;
    assert image[..] == Written(before, true, false);
    image[BACKUP_STATE_AT] := 0;
    assert image[..] == Repaired(before);
    var verified := Validated(image[..]);
    assert verified == Some(false);
    return Some(true);
  }

  lemma ValidatedLength(image: Bytes)
    requires Validated(image).Some?
    ensures |image| == DISK_BYTES
  {
  }
}
