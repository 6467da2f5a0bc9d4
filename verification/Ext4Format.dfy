/** On-disk structures of the constrained single-group ext4 profile: superblock,
    group descriptor, allocation bitmaps, inodes and inline extents. */
module Ext4Format {
  import opened ByteCodec
  import opened Crc

  const SECTOR_BYTES := 512
  const BLOCK_BYTES := 4096
  const IMAGE_BYTES := 32_768 * SECTOR_BYTES
  const BLOCKS := IMAGE_BYTES / BLOCK_BYTES
  const INODES := 4096
  const INODE_BYTES := 256
  const BLOCKS_PER_GROUP := 32_768
  const INODE_TABLE_BLOCKS := INODES * INODE_BYTES / BLOCK_BYTES
  const DESCRIPTOR_BYTES := 32
  const FIRST_NON_RESERVED_INODE := 11
  const ROOT_INODE := 2
  const JOURNAL_INODE := 8
  const JOURNAL_BLOCKS := 4 * 1024 * 1024 / BLOCK_BYTES
  const JOURNAL_FIRST_BLOCK := 1
  const EXTENTS_FLAG := 0x0008_0000
  const EXTENT_MAGIC := 0xF30A
  const MAX_ACTIVE_INODES := 64
  const MAX_DIRECTORY_BLOCKS := 256
  const MAX_DIRECTORY_ENTRIES := 4096
  const MAX_FILE_BYTES := 1024 * 1024
  const MAX_NAME_BYTES := 64
  const DIRECTORY_TAIL_BYTES := 12
  const FAKE_TIME := 1_704_067_200
  const ALL_ONES := 0xFFFF_FFFF

  const FILESYSTEM_UUID: Bytes :=
    [0x00, 0x11, 0x22, 0x33, 0x44, 0x55, 0x66, 0x77, 0x88, 0x99, 0xAA, 0xBB, 0xCC, 0xDD, 0xEE, 0xFF]
  const VOLUME_LABEL: Bytes := [0x54, 0x52, 0x4F, 0x45, 0x5F, 0x52, 0x4F, 0x4F, 0x54, 0, 0, 0, 0, 0, 0, 0]

  // ---- Superblock ---------------------------------------------------------

  /** A fixed superblock field: offset, width and required value. */
  datatype Exact = Exact(offset: nat, width: nat, value: nat)

  const EXACT_FIELDS: seq<Exact> := [
    Exact(56, 2, 0xEF53), Exact(58, 2, 1), Exact(72, 4, 0), Exact(76, 4, 1),
    Exact(84, 4, FIRST_NON_RESERVED_INODE), Exact(88, 2, INODE_BYTES), Exact(92, 4, 0x0C), Exact(96, 4, 0x42),
    Exact(100, 4, 0x443), Exact(206, 2, 0), Exact(224, 4, JOURNAL_INODE), Exact(228, 4, 0), Exact(232, 4, 0),
    Exact(260, 4, 0), Exact(336, 4, 0), Exact(340, 4, 0), Exact(344, 4, 0), Exact(348, 2, 32), Exact(350, 2, 32),
    Exact(373, 1, 1), Exact(624, 4, 0)]

  const GEOMETRY_FIELDS: seq<Exact> := [
    Exact(20, 4, 0), Exact(24, 4, 2), Exact(28, 4, 2), Exact(4, 4, BLOCKS), Exact(0, 4, INODES),
    Exact(32, 4, BLOCKS_PER_GROUP), Exact(36, 4, BLOCKS_PER_GROUP), Exact(40, 4, INODES)]

  predicate FieldIs(b: Bytes, e: Exact) {
    e.offset + e.width <= |b| && Field(b, e.offset, e.width) == e.value
  }

  predicate AllFieldsAre(b: Bytes, es: seq<Exact>) {
    forall i | 0 <= i < |es| :: FieldIs(b, es[i])
  }

  function Superblock(image: Bytes): (b: Bytes)
    requires |image| == IMAGE_BYTES
    ensures |b| == 1024
  {
    image[1024..2048]
  }

  predicate SuperblockOk(image: Bytes) {
    && |image| == IMAGE_BYTES
    && var sb := Superblock(image);
    && AllFieldsAre(sb, EXACT_FIELDS)
    && (Field(sb, 254, 2) == 0 || Field(sb, 254, 2) == DESCRIPTOR_BYTES)
    && sb[104..120] == FILESYSTEM_UUID
    && sb[120..136] == VOLUME_LABEL
    && AllZero(sb[208..224])
    && sb[236..252] == FILESYSTEM_UUID
    && Field(sb, 1020, 4) == Crc32cOf(ALL_ONES, sb[..1020])
    && AllFieldsAre(sb, GEOMETRY_FIELDS)
  }

  function FreeBlocks(image: Bytes): (n: nat)
    requires |image| == IMAGE_BYTES
  {
    Field(Superblock(image), 12, 4)
  }

  function FreeInodes(image: Bytes): (n: nat)
    requires |image| == IMAGE_BYTES
  {
    Field(Superblock(image), 16, 4)
  }

  function ChecksumSeed(): (n: nat) {
    Crc32cOf(ALL_ONES, FILESYSTEM_UUID)
  }

  /** No corruption of four consecutive covered superblock bytes is accepted. */
  lemma SuperblockBurstRefused(a: Bytes, b: Bytes, at: nat)
    requires SuperblockOk(a) && |b| == |a| && 1024 <= at && at + 4 <= 2044
    requires forall i | 0 <= i < |a| && !(at <= i < at + 4) :: a[i] == b[i]
    requires a != b
    ensures !SuperblockOk(b)
  {
    hide AllFieldsAre, Crc.Crc;
    var x, y := Superblock(a), Superblock(b);
    assert forall i | 0 <= i < 1020 && !(at - 1024 <= i < at - 1024 + 4) ::
        x[..1020][i] == a[1024 + i] == b[1024 + i] == y[..1020][i];
    assert forall i | 1020 <= i < 1024 :: x[i] == a[1024 + i] == b[1024 + i] == y[i];
    assert x[1020..1024] == y[1020..1024];
    var i :| 0 <= i < |a| && a[i] != b[i];
    assert x[..1020][i - 1024] != y[..1020][i - 1024];
    BurstDetected(CRC32C_POLYNOMIAL, ALL_ONES, x[..1020], y[..1020], at - 1024);
  }

  // ---- Blocks and bitmaps -------------------------------------------------

  function Block(image: Bytes, n: nat): (b: Bytes)
    requires |image| == IMAGE_BYTES && n < BLOCKS
    ensures |b| == BLOCK_BYTES
  {
    image[n * BLOCK_BYTES..(n + 1) * BLOCK_BYTES]
  }

  predicate ByteBit(b: Byte, k: nat)
    decreases k
  {
    if k == 0 then b % 2 == 1 else ByteBit(b / 2, k - 1)
  }

  predicate Bit(bitmap: Bytes, i: nat)
    requires i < 8 * |bitmap|
  {
    ByteBit(bitmap[i / 8], i % 8)
  }

  /** The first `n` positions whose bit is set. */
  function SetBits(bitmap: Bytes, n: nat): (s: set<nat>)
    requires n <= 8 * |bitmap|
  {
    set i: nat | 0 <= i < n && Bit(bitmap, i)
  }

  function ClearCount(bitmap: Bytes, n: nat): (c: nat)
    requires n <= 8 * |bitmap|
  {
    if n == 0 then 0 else ClearCount(bitmap, n - 1) + (if Bit(bitmap, n - 1) then 0 else 1)
  }

  /** Clear bits and set bits together are all bits. */
  lemma {:induction false} BitsAddUp(bitmap: Bytes, n: nat)
    requires n <= 8 * |bitmap|
    ensures |SetBits(bitmap, n)| + ClearCount(bitmap, n) == n
  {
    if n == 0 {
      assert SetBits(bitmap, 0) == {};
    } else {
      BitsAddUp(bitmap, n - 1);
      if Bit(bitmap, n - 1) {
        assert SetBits(bitmap, n) == SetBits(bitmap, n - 1) + {n - 1};
      } else {
        assert SetBits(bitmap, n) == SetBits(bitmap, n - 1);
      }
    }
  }

  /** Clear bits at the top of the first `n` positions. */
  function TrailingClear(bitmap: Bytes, n: nat): (c: nat)
    requires n <= 8 * |bitmap|
  {
    if n == 0 || Bit(bitmap, n - 1) then 0 else 1 + TrailingClear(bitmap, n - 1)
  }

  // ---- Group descriptor ---------------------------------------------------

  /** The single group descriptor, at the start of block 1. */
  function Descriptor(image: Bytes): (d: Bytes)
    requires |image| == IMAGE_BYTES
    ensures |d| == DESCRIPTOR_BYTES
  {
    Block(image, 1)[..DESCRIPTOR_BYTES]
  }

  /** The numbers of the block bitmap, the inode bitmap and the first inode-table block. */
  function BlockBitmapAt(image: Bytes): (n: nat)
    requires |image| == IMAGE_BYTES
  {
    Field(Descriptor(image), 0, 4)
  }

  function InodeBitmapAt(image: Bytes): (n: nat)
    requires |image| == IMAGE_BYTES
  {
    Field(Descriptor(image), 4, 4)
  }

  function InodeTableAt(image: Bytes): (n: nat)
    requires |image| == IMAGE_BYTES
  {
    Field(Descriptor(image), 8, 4)
  }

  function DescriptorChecksum(d: Bytes): (n: nat)
    requires |d| == DESCRIPTOR_BYTES
  {
    Crc32cOf(Crc32cOf(ChecksumSeed(), [0, 0, 0, 0]), d[..30] + [0, 0])
  }

  function IntervalSet(start: nat, n: nat): (s: set<nat>)
    ensures forall b: nat :: b in s <==> start <= b < start + n
  {
    if n == 0 then {} else IntervalSet(start, n - 1) + {start + n - 1}
  }

  /** Superblock, descriptor table, both bitmaps and the inode table. */
  function MetadataBlocks(image: Bytes): (s: set<nat>)
    requires |image| == IMAGE_BYTES
  {
    {BlockBitmapAt(image), InodeBitmapAt(image)} + IntervalSet(InodeTableAt(image), INODE_TABLE_BLOCKS)
  }

  function FixedBlocks(image: Bytes): (s: set<nat>)
    requires |image| == IMAGE_BYTES
  {
    {0, 1} + MetadataBlocks(image)
  }

  lemma {:induction false} IntervalSize(start: nat, n: nat)
    ensures |IntervalSet(start, n)| == n
  {
    if n > 0 { IntervalSize(start, n - 1); }
  }

  /** The bitmaps, table and fixed blocks lie in the volume and are pairwise distinct. */
  predicate PlacementOk(image: Bytes)
    requires |image| == IMAGE_BYTES
  {
    var bb, ib, it := BlockBitmapAt(image), InodeBitmapAt(image), InodeTableAt(image);
    && bb < BLOCKS && ib < BLOCKS && it + INODE_TABLE_BLOCKS <= BLOCKS
    && bb != ib && !(it <= bb < it + INODE_TABLE_BLOCKS) && !(it <= ib < it + INODE_TABLE_BLOCKS)
    && bb > 1 && ib > 1 && it > 1
  }

  function BlockBitmap(image: Bytes): (b: Bytes)
    requires |image| == IMAGE_BYTES && PlacementOk(image)
    ensures |b| == BLOCK_BYTES
  {
    Block(image, BlockBitmapAt(image))
  }

  function InodeBitmap(image: Bytes): (b: Bytes)
    requires |image| == IMAGE_BYTES && PlacementOk(image)
    ensures |b| == BLOCK_BYTES
  {
    Block(image, InodeBitmapAt(image))
  }

  predicate GroupOk(image: Bytes) {
    && |image| == IMAGE_BYTES
    && var d := Descriptor(image);
    && Field(d, 30, 2) == DescriptorChecksum(d) % U16
    && Field(d, 18, 2) == 0x0004 && Field(d, 20, 4) == 0
    && PlacementOk(image)
    && var bitmap, inodeBitmap := BlockBitmap(image), InodeBitmap(image);
    && Field(d, 24, 2) == Crc32cOf(ChecksumSeed(), bitmap) % U16
    && Field(d, 26, 2) == Crc32cOf(ChecksumSeed(), inodeBitmap[..INODES / 8]) % U16
    && (forall i | INODES / 8 <= i < BLOCK_BYTES :: inodeBitmap[i] == 0xFF)
    && (forall i | BLOCKS <= i < BLOCKS_PER_GROUP :: Bit(bitmap, i))
    && ClearCount(bitmap, BLOCKS) == Field(d, 12, 2) == FreeBlocks(image)
    && ClearCount(inodeBitmap, INODES) == Field(d, 14, 2) == FreeInodes(image)
    && TrailingClear(inodeBitmap, INODES) == Field(d, 28, 2)
    && (forall i | 0 <= i < FIRST_NON_RESERVED_INODE - 1 :: Bit(inodeBitmap, i))
  }

  function AllocatedBlocks(image: Bytes): (s: set<nat>)
    requires |image| == IMAGE_BYTES && PlacementOk(image)
  {
    SetBits(BlockBitmap(image), BLOCKS)
  }

  predicate InodeAllocated(image: Bytes, n: nat)
    requires |image| == IMAGE_BYTES && PlacementOk(image)
  {
    1 <= n <= INODES && Bit(InodeBitmap(image), n - 1)
  }

  /** The fixed metadata is 260 distinct blocks. */
  lemma FixedBlockCount(image: Bytes)
    requires |image| == IMAGE_BYTES && PlacementOk(image)
    ensures |FixedBlocks(image)| == 4 + INODE_TABLE_BLOCKS
  {
    var bb, ib, it := BlockBitmapAt(image), InodeBitmapAt(image), InodeTableAt(image);
    IntervalSize(it, INODE_TABLE_BLOCKS);
    var table := IntervalSet(it, INODE_TABLE_BLOCKS);
    assert |{bb, ib}| == 2 && |{0, 1}| == 2;
    assert {bb, ib} !! table && {0, 1} !! ({bb, ib} + table);
  }

  // ---- Inodes -------------------------------------------------------------

  datatype Kind = Directory | File

  datatype Extent = Extent(logical: nat, physical: nat, blocks: nat, unwritten: bool)

  datatype Inode = Inode(number: nat, generation: nat, kind: Kind, size: nat, extents: seq<Extent>)

  /** The 256 raw bytes of inode `n` in the inode table. */
  function RawInode(image: Bytes, n: nat): (raw: Bytes)
    requires |image| == IMAGE_BYTES && PlacementOk(image) && 1 <= n <= INODES
    ensures |raw| == INODE_BYTES
  {
    var at := InodeTableAt(image) * BLOCK_BYTES + (n - 1) * INODE_BYTES;
    image[at..at + INODE_BYTES]
  }

  function InodeSeed(number: nat, generation: nat): (c: nat) {
    Crc32cOf(Crc32cOf(ChecksumSeed(), ToLE(number, 4)), ToLE(generation, 4))
  }

  /** The raw inode with both checksum halves zeroed. */
  function Unchecked(raw: Bytes): (b: Bytes)
    requires |raw| == INODE_BYTES
  {
    raw[..124] + [0, 0] + raw[126..130] + [0, 0] + raw[132..]
  }

  predicate InodeChecksumOk(n: nat, raw: Bytes)
    requires |raw| == INODE_BYTES
  {
    var c := Crc32cOf(InodeSeed(n, Field(raw, 100, 4)), Unchecked(raw));
    && Field(raw, 124, 2) == c % U16
    && (if Field(raw, 128, 2) >= 4 then Field(raw, 130, 2) == c / U16 else Field(raw, 130, 2) == 0)
  }

  /** The file-type bits of the mode. */
  function ModeType(raw: Bytes): (m: nat)
    requires |raw| == INODE_BYTES
  {
    Field(raw, 0, 2) / 0x1000
  }

  function KindOf(raw: Bytes): (k: Option<Kind>)
    requires |raw| == INODE_BYTES
  {
    if ModeType(raw) == 4 then Some(Directory) else if ModeType(raw) == 8 then Some(File) else None
  }

  function SizeOf(raw: Bytes): (n: nat)
    requires |raw| == INODE_BYTES
  {
    Field(raw, 4, 4) + Field(raw, 108, 4) * U32
  }

  function CeilBlocks(size: nat): (n: nat) {
    (size + BLOCK_BYTES - 1) / BLOCK_BYTES
  }

  function ExtentCount(raw: Bytes): (n: nat)
    requires |raw| == INODE_BYTES
  {
    Field(raw, 42, 2)
  }

  /** Inline extent `i`, with the unwritten bit decoded. */
  function ExtentAt(raw: Bytes, i: nat): (e: Extent)
    requires |raw| == INODE_BYTES && i < 4
  {
    var at := 52 + i * 12;
    var encoded := Field(raw, at + 4, 2);
    Extent(Field(raw, at, 4), Field(raw, at + 8, 4),
           if encoded > 0x8000 then encoded - 0x8000 else encoded, encoded > 0x8000)
  }

  predicate ExtentHeaderOk(raw: Bytes)
    requires |raw| == INODE_BYTES
  {
    && Field(raw, 40, 2) == EXTENT_MAGIC && Field(raw, 44, 2) == 4
    && Field(raw, 46, 2) == 0 && Field(raw, 48, 4) == 0
    && ExtentCount(raw) <= 4
  }

  /** One extent lies in the volume and in the file, after the previous extent. */
  predicate ExtentOk(raw: Bytes, kind: Kind, size: nat, i: nat, previousEnd: nat)
    requires |raw| == INODE_BYTES && i < 4
  {
    var e := ExtentAt(raw, i);
    && e.blocks != 0 && Field(raw, 52 + i * 12 + 6, 2) == 0
    && e.physical != 0 && e.physical + e.blocks <= BLOCKS
    && e.logical + e.blocks <= CeilBlocks(size)
    && (i != 0 ==> e.logical >= previousEnd)
    && (kind.Directory? ==> !e.unwritten)
  }

  function LogicalEnd(es: seq<Extent>): (n: nat) {
    if es == [] then 0 else es[|es| - 1].logical + es[|es| - 1].blocks
  }

  function FirstExtents(raw: Bytes, n: nat): (es: seq<Extent>)
    requires |raw| == INODE_BYTES && n <= 4
    ensures |es| == n
  {
    if n == 0 then [] else FirstExtents(raw, n - 1) + [ExtentAt(raw, n - 1)]
  }

  predicate FirstExtentsOk(raw: Bytes, kind: Kind, size: nat, n: nat)
    requires |raw| == INODE_BYTES && n <= 4
  {
    n == 0 || (FirstExtentsOk(raw, kind, size, n - 1)
               && ExtentOk(raw, kind, size, n - 1, LogicalEnd(FirstExtents(raw, n - 1))))
  }

  function BlockSum(es: seq<Extent>): (n: nat) {
    if es == [] then 0 else BlockSum(es[..|es| - 1]) + es[|es| - 1].blocks
  }

  /** Every extent starts where the one before it ended. */
  predicate Contiguous(es: seq<Extent>) {
    forall i | 0 <= i < |es| :: es[i].logical == BlockSum(es[..i])
  }

  predicate ExtentsOk(raw: Bytes, kind: Kind, size: nat)
    requires |raw| == INODE_BYTES
  {
    && ExtentHeaderOk(raw)
    && FirstExtentsOk(raw, kind, size, ExtentCount(raw))
    && var es := FirstExtents(raw, ExtentCount(raw));
    kind.Directory? ==> Contiguous(es) && BlockSum(es) == CeilBlocks(size)
  }

  predicate TimesOk(raw: Bytes)
    requires |raw| == INODE_BYTES
  {
    Field(raw, 8, 4) == Field(raw, 12, 4) == Field(raw, 16, 4) == Field(raw, 144, 4) == FAKE_TIME
  }

  /** The plain fields of an allocated inode with a file type. */
  predicate FieldsOk(n: nat, raw: Bytes)
    requires |raw| == INODE_BYTES
  {
    && KindOf(raw).Some?
    && var kind, size := KindOf(raw).value, SizeOf(raw);
    && Field(raw, 128, 2) == 32
    && Field(raw, 26, 2) != 0
    && Field(raw, 32, 4) == EXTENTS_FLAG
    && Field(raw, 104, 4) == 0 && Field(raw, 118, 2) == 0
    && AllZero(raw[160..])
    && Field(raw, 20, 4) == 0
    && (kind.File? && n != JOURNAL_INODE ==> size <= MAX_FILE_BYTES)
    && (kind.Directory? ==> size != 0 && size % BLOCK_BYTES == 0 && size / BLOCK_BYTES <= MAX_DIRECTORY_BLOCKS)
  }

  /** The sector count agrees with the extents. */
  predicate SectorsOk(raw: Bytes, es: seq<Extent>)
    requires |raw| == INODE_BYTES
  {
    Field(raw, 28, 4) + Field(raw, 116, 2) * U32 == BlockSum(es) * (BLOCK_BYTES / SECTOR_BYTES)
  }

  /** An allocated inode with a file type, apart from which blocks its extents share. */
  predicate ActiveOk(n: nat, raw: Bytes)
    requires |raw| == INODE_BYTES
  {
    && FieldsOk(n, raw) && TimesOk(raw)
    && ExtentsOk(raw, KindOf(raw).value, SizeOf(raw))
    && SectorsOk(raw, FirstExtents(raw, ExtentCount(raw)))
  }

  predicate IsActive(image: Bytes, n: nat)
    requires |image| == IMAGE_BYTES && PlacementOk(image)
  {
    InodeAllocated(image, n) && ModeType(RawInode(image, n)) != 0
  }

  predicate InodeOk(image: Bytes, n: nat)
    requires |image| == IMAGE_BYTES && PlacementOk(image) && 1 <= n <= INODES
  {
    var raw := RawInode(image, n);
    if !InodeAllocated(image, n) then AllZero(raw)
    else
      && InodeChecksumOk(n, raw)
      && (if ModeType(raw) == 0
          then n < FIRST_NON_RESERVED_INODE && n != ROOT_INODE && n != JOURNAL_INODE
          else ActiveOk(n, raw))
  }

  /** The decoded form of an active inode. */
  function InodeOf(image: Bytes, n: nat): (i: Inode)
    requires |image| == IMAGE_BYTES && PlacementOk(image) && IsActive(image, n) && InodeOk(image, n)
  {
    var raw := RawInode(image, n);
    Inode(n, Field(raw, 100, 4), KindOf(raw).value, SizeOf(raw), FirstExtents(raw, ExtentCount(raw)))
  }
}
