/** The stateful ext4 profile verifier: it accepts exactly the images that meet the
    specification of the other ext4 modules. */
module Ext4Verifier {
  import opened ByteCodec
  import opened Crc
  import opened Ext4Format
  import opened Ext4Ownership
  import opened Ext4Files
  import Ext4Directory
  import opened Ext4Tree
  import opened Ext4Walk

  // ---- Specification ------------------------------------------------------

  /** The inode numbers whose bitmap bit is set. */
  function AllocatedInodes(image: Bytes): (s: set<nat>)
    requires |image| == IMAGE_BYTES && PlacementOk(image)
  {
    set n: nat | 1 <= n <= INODES && InodeAllocated(image, n)
  }

  /** The decoded active inodes up to `n`. */
  function Records(image: Bytes, n: nat): (m: map<nat, Inode>)
    requires DecodesTo(image, n)
  {
    if n == 0 then map[]
    else if IsActive(image, n) then Records(image, n - 1)[n := InodeOf(image, n)]
    else Records(image, n - 1)
  }

  function DirectoryCount(image: Bytes, n: nat): (c: nat)
    requires DecodesTo(image, n)
  {
    if n == 0 then 0
    else DirectoryCount(image, n - 1) + (if IsActive(image, n) && InodeOf(image, n).kind.Directory? then 1 else 0)
  }

  predicate InodesOk(image: Bytes) {
    && DecodesTo(image, INODES) && ClaimsFresh(image, INODES)
    && |Records(image, INODES)| <= MAX_ACTIVE_INODES
    && DirectoryCount(image, INODES) == Field(Descriptor(image), 16, 2)
  }

  function VolumeOf(image: Bytes): (v: Volume)
    requires DecodesTo(image, INODES)
  {
    Volume(image, AllocatedInodes(image), Records(image, INODES))
  }

  predicate HasJournal(v: Volume)
    requires |v.image| == IMAGE_BYTES
  {
    JOURNAL_INODE in v.records && JournalOk(v.image, v.records[JOURNAL_INODE])
  }

  lemma {:induction false} RecordsAreDecoded(image: Bytes, n: nat)
    requires DecodesTo(image, n)
    ensures forall m: nat :: m in Records(image, n) <==> 1 <= m <= n && IsActive(image, m)
    ensures forall m: nat | m in Records(image, n) :: Records(image, n)[m] == InodeOf(image, m)
  {
    hide IsActive, InodeOf, InodeOk, PlacementOk;
    if n > 0 { RecordsAreDecoded(image, n - 1); }
  }

  lemma ActiveIsSane(image: Bytes, n: nat)
    requires |image| == IMAGE_BYTES && PlacementOk(image) && 1 <= n <= INODES
    requires InodeOk(image, n) && IsActive(image, n)
    ensures Sane(InodeOf(image, n).extents, InodeOf(image, n).size)
  {
    hide PlacementOk, Sane, FirstExtents, FirstExtentsOk, InodeChecksumOk, SectorsOk, RawInode, Field;
    var raw := RawInode(image, n);
    ExtentsAreSane(raw, KindOf(raw).value, SizeOf(raw), ExtentCount(raw));
  }

  lemma VolumeIsValid(image: Bytes)
    requires DecodesTo(image, INODES)
    ensures Valid(VolumeOf(image))
  {
    hide IsActive, InodeOf, InodeOk, PlacementOk, Sane, Records;
    RecordsAreDecoded(image, INODES);
    forall n | n in Records(image, INODES)
      ensures Sane(Records(image, INODES)[n].extents, Records(image, INODES)[n].size)
    {
      ActiveIsSane(image, n);
    }
  }

  /** Everything an accepted image satisfies. */
  ghost predicate Accepted(image: Bytes, content: Option<Bytes>) {
    && SuperblockOk(image) && GroupOk(image) && InodesOk(image)
    && AllocatedBlocks(image) == Claimed(image, INODES)
    && HasJournal(VolumeOf(image))
    && Valid(VolumeOf(image)) && TreeOk(VolumeOf(image), content)
  }

  /** Accepted images have exact block ownership and a true tree. */
  lemma AcceptedAllocates(image: Bytes, content: Option<Bytes>)
    requires Accepted(image, content)
    ensures AllocationOk(image)
  {
    hide SuperblockOk, GroupOk, ClaimsFresh, Claimed, TreeOk, JournalOk;
  }

  /** On an accepted image every active inode but the root and the journal has exactly one name. */
  lemma AcceptedInodeNamedOnce(image: Bytes, content: Option<Bytes>, n: nat) returns (d: nat, e: Ext4Directory.Entry)
    requires Accepted(image, content) && IsActive(image, n) && n != ROOT_INODE && n != JOURNAL_INODE
    ensures Names(VolumeOf(image), d, e) && e.inode == n
    ensures forall d', e' | Names(VolumeOf(image), d', e') && e'.inode == n :: d' == d && e' == e
  {
    hide SuperblockOk, GroupOk, ClaimsFresh, Claimed, TreeOk, Names, IsActive, Records, PlacementOk, AllocatedBlocks,
         InodeOk;
    ActiveInRange(image, n);
    RecordsAreDecoded(image, INODES);
    d, e := NamedExactlyOnce(VolumeOf(image), content, n);
  }

  lemma ActiveInRange(image: Bytes, n: nat)
    requires |image| == IMAGE_BYTES && PlacementOk(image) && IsActive(image, n)
    ensures 1 <= n <= INODES
  {
  }

  // ---- Methods that only read ---------------------------------------------

  method FieldsMatch(b: Bytes, es: seq<Exact>) returns (ok: bool)
    ensures ok <==> AllFieldsAre(b, es)
  {
    for i := 0 to |es|
      invariant AllFieldsAre(b, es[..i])
    {
      assert es[..i + 1] == es[..i] + [es[i]];
      if !FieldIs(b, es[i]) { return false; }
    }
    assert es[..|es|] == es;
    return true;
  }

  /** Scans a bitmap: the set positions, the clear count, and the padding past `n` all set. */
  method ScanBitmap(bitmap: Bytes, n: nat, total: nat) returns (ok: bool, used: set<nat>, clear: nat)
    requires n <= total <= 8 * |bitmap|
    ensures ok <==> forall i | n <= i < total :: Bit(bitmap, i)
    ensures ok ==> used == SetBits(bitmap, n) && clear == ClearCount(bitmap, n)
  {
    hide Bit;
    used, clear := {}, 0;
    for bit := 0 to total
      invariant used == SetBits(bitmap, Min(bit, n)) && clear == ClearCount(bitmap, Min(bit, n))
      invariant forall i | n <= i < bit :: Bit(bitmap, i)
    {
      if bit < n {
        if Bit(bitmap, bit) { used := used + {bit}; } else { clear := clear + 1; }
      } else if !Bit(bitmap, bit) {
        return false, used, clear;
      }
    }
    ok := true;
  }

  method CountTrailing(bitmap: Bytes, n: nat) returns (c: nat)
    requires n <= 8 * |bitmap|
    ensures c == TrailingClear(bitmap, n)
  {
    hide Bit;
    c := 0;
    for bit := n downto 0
      invariant c + TrailingClear(bitmap, bit) == TrailingClear(bitmap, n)
    {
      if Bit(bitmap, bit) { break; }
      c := c + 1;
    }
  }

  /** The end of an extent list without holes. */
  method ContiguousEnd(es: seq<Extent>) returns (r: Option<nat>)
    ensures r == if Contiguous(es) then Some(BlockSum(es)) else None
  {
    var next := 0;
    for i := 0 to |es|
      invariant next == BlockSum(es[..i]) && forall k | 0 <= k < i :: es[k].logical == BlockSum(es[..k])
    {
      if es[i].logical != next { return None; }
      assert es[..i + 1][..i] == es[..i];
      next := next + es[i].blocks;
    }
    assert es[..|es|] == es;
    return Some(next);
  }

  // ---- The verifier object ------------------------------------------------

  lemma PairCount(a: nat, b: nat, s: set<nat>)
    ensures |{a, b} + s| == |s| + 2 <==> a != b && a !in s && b !in s
  {
    var t := {b} + s;
    assert {a, b} + s == {a} + t;
    assert if b in s then t == s else |t| == |s| + 1;
    assert if a in t then {a} + t == t else |{a} + t| == |t| + 1;
  }

  lemma MetadataCount(bb: nat, ib: nat, it: nat, n: nat)
    ensures |{bb, ib} + IntervalSet(it, n)| == n + 2
            <==> bb != ib && !(it <= bb < it + n) && !(it <= ib < it + n)
  {
    IntervalSize(it, n);
    PairCount(bb, ib, IntervalSet(it, n));
  }

  lemma MetadataAboveFixed(bb: nat, ib: nat, it: nat, n: nat)
    requires n > 0
    ensures {0, 1} !! {bb, ib} + IntervalSet(it, n) <==> bb > 1 && ib > 1 && it > 1
  {
    var all := {bb, ib} + IntervalSet(it, n);
    assert bb in all && ib in all && it in all;
  }

  lemma {:induction false} PrefixOk(taken: set<nat>, raw: Bytes, kind: Kind, size: nat, m: nat, n: nat)
    requires |raw| == INODE_BYTES && m <= n <= 4
    requires FirstExtentsOk(raw, kind, size, n) && Fresh(taken, FirstExtents(raw, n))
    ensures FirstExtentsOk(raw, kind, size, m) && Fresh(taken, FirstExtents(raw, m))
    decreases n
  {
    hide ExtentOk, ExtentAt;
    if m < n {
      assert FirstExtents(raw, n)[..n - 1] == FirstExtents(raw, n - 1);
      PrefixOk(taken, raw, kind, size, m, n - 1);
    }
  }

  /** The first `n` extents are in order and fresh, and their blocks have been added to `taken`. */
  ghost predicate Parsed(taken: set<nat>, referenced: set<nat>, raw: Bytes, kind: Kind, size: nat, n: nat) {
    && |raw| == INODE_BYTES && n <= 4
    && FirstExtentsOk(raw, kind, size, n) && Fresh(taken, FirstExtents(raw, n))
    && referenced == taken + BlocksOf(FirstExtents(raw, n))
  }

  lemma ParseStart(taken: set<nat>, raw: Bytes, kind: Kind, size: nat)
    requires |raw| == INODE_BYTES
    ensures Parsed(taken, taken, raw, kind, size, 0) && FirstExtents(raw, 0) == [] && LogicalEnd([]) == 0
  {
  }

  lemma FreshAppend(taken: set<nat>, es: seq<Extent>, e: Extent)
    ensures Fresh(taken, es + [e]) <==> Fresh(taken, es) && ExtentBlocks(e) !! taken + BlocksOf(es)
    ensures BlocksOf(es + [e]) == BlocksOf(es) + ExtentBlocks(e)
  {
    hide ExtentBlocks;
    assert (es + [e])[..|es|] == es;
  }

  /** The next extent is accepted whenever the whole list is, and then the list grows by it. */
  lemma ParseStep(taken: set<nat>, referenced: set<nat>, raw: Bytes, kind: Kind, size: nat, n: nat, count: nat)
    requires Parsed(taken, referenced, raw, kind, size, n) && n < count <= 4
    ensures var es, e := FirstExtents(raw, n), ExtentAt(raw, n);
            var fits := ExtentOk(raw, kind, size, n, LogicalEnd(es)) && ExtentBlocks(e) !! referenced;
            && (FirstExtentsOk(raw, kind, size, count) && Fresh(taken, FirstExtents(raw, count)) ==> fits)
            && (fits ==> Parsed(taken, referenced + ExtentBlocks(e), raw, kind, size, n + 1))
            && FirstExtents(raw, n + 1) == es + [e] && LogicalEnd(es + [e]) == e.logical + e.blocks
  {
    hide ExtentOk, ExtentAt, ExtentBlocks, Fresh, BlocksOf;
    var es, e := FirstExtents(raw, n), ExtentAt(raw, n);
    FreshAppend(taken, es, e);
    if FirstExtentsOk(raw, kind, size, count) && Fresh(taken, FirstExtents(raw, count)) {
      PrefixOk(taken, raw, kind, size, n + 1, count);
    }
  }

  lemma ParseEnd(taken: set<nat>, referenced: set<nat>, raw: Bytes, kind: Kind, size: nat, n: nat)
    requires Parsed(taken, referenced, raw, kind, size, n)
    ensures FirstExtentsOk(raw, kind, size, n) && Fresh(taken, FirstExtents(raw, n))
    ensures referenced == taken + BlocksOf(FirstExtents(raw, n))
  {
  }

  class Verifier {
    const image: Bytes
    const content: Option<Bytes>
    var freeBlocks: nat
    var freeInodes: nat
    var usedDirectories: nat
    var allocatedBlocks: set<nat>
    var allocatedInodes: set<nat>
    var referencedBlocks: set<nat>
    var inodeRecords: map<nat, Inode>

    constructor (image: Bytes, content: Option<Bytes>)
      ensures this.image == image && this.content == content
      ensures referencedBlocks == {} && inodeRecords == map[]
    {
      this.image, this.content := image, content;
      freeBlocks, freeInodes, usedDirectories := 0, 0, 0;
      allocatedBlocks, allocatedInodes, referencedBlocks, inodeRecords := {}, {}, {}, map[];
    }

    method VerifySuperblock() returns (ok: bool)
      modifies this`freeBlocks, this`freeInodes
      ensures ok <==> SuperblockOk(image)
      ensures ok ==> freeBlocks == FreeBlocks(image) && freeInodes == FreeInodes(image)
    {
      hide AllFieldsAre, Crc.Crc;
      if |image| != IMAGE_BYTES { return false; }
      var superblock := Superblock(image);
      var exact := FieldsMatch(superblock, EXACT_FIELDS);
      if !exact || !(Field(superblock, 254, 2) == 0 || Field(superblock, 254, 2) == DESCRIPTOR_BYTES) { return false; }
      if superblock[104..120] != FILESYSTEM_UUID || superblock[120..136] != VOLUME_LABEL { return false; }
      if !AllZero(superblock[208..224]) || superblock[236..252] != FILESYSTEM_UUID { return false; }
      var checksum := ComputeCrc32c(ALL_ONES, superblock[..1020]);
      if Field(superblock, 1020, 4) != checksum { return false; }
      freeBlocks, freeInodes := Field(superblock, 12, 4), Field(superblock, 16, 4);
      ok := FieldsMatch(superblock, GEOMETRY_FIELDS);
    }

    method VerifyPlacement() returns (ok: bool)
      requires |image| == IMAGE_BYTES && referencedBlocks == {}
      modifies this`referencedBlocks
      ensures ok <==> PlacementOk(image)
      ensures ok ==> referencedBlocks == FixedBlocks(image)
    {
      hide Descriptor, IntervalSet;
      referencedBlocks := referencedBlocks + {0, 1};
      var bb, ib, it := BlockBitmapAt(image), InodeBitmapAt(image), InodeTableAt(image);
      if !(bb < BLOCKS && ib < BLOCKS && it + INODE_TABLE_BLOCKS <= BLOCKS) { return false; }
      var metadata := MetadataBlocks(image);
      MetadataCount(bb, ib, it, INODE_TABLE_BLOCKS);
      MetadataAboveFixed(bb, ib, it, INODE_TABLE_BLOCKS);
      if |metadata| != INODE_TABLE_BLOCKS + 2 { return false; }
      if !(referencedBlocks !! metadata) { return false; }
      referencedBlocks := referencedBlocks + metadata;
      return true;
    }

    method VerifyGroupsAndBitmaps() returns (ok: bool)
      requires |image| == IMAGE_BYTES && referencedBlocks == {}
      requires freeBlocks == FreeBlocks(image) && freeInodes == FreeInodes(image)
      modifies this`usedDirectories, this`allocatedBlocks, this`allocatedInodes, this`referencedBlocks
      ensures ok <==> GroupOk(image)
      ensures ok ==> usedDirectories == Field(Descriptor(image), 16, 2)
      ensures ok ==> allocatedBlocks == AllocatedBlocks(image) && allocatedInodes == AllocatedInodes(image)
      ensures ok ==> referencedBlocks == FixedBlocks(image)
    {
      hide Crc.Crc, PlacementOk, Bit, BlockBitmap, InodeBitmap, Descriptor, FixedBlocks, ClearCount, TrailingClear,
           FreeBlocks, FreeInodes;
      var d := Descriptor(image);
      if Field(d, 30, 2) != DescriptorChecksum(d) % U16 { return false; }
      if Field(d, 18, 2) != 0x0004 || Field(d, 20, 4) != 0 { return false; }
      var placed := VerifyPlacement();
      if !placed { return false; }
      var bitmap, inodeBitmap := BlockBitmap(image), InodeBitmap(image);
      if Field(d, 24, 2) != Crc32cOf(ChecksumSeed(), bitmap) % U16 { return false; }
      if Field(d, 26, 2) != Crc32cOf(ChecksumSeed(), inodeBitmap[..INODES / 8]) % U16 { return false; }
      if exists i | INODES / 8 <= i < BLOCK_BYTES :: inodeBitmap[i] != 0xFF { return false; }
      var padded, used, clearBlocks := ScanBitmap(bitmap, BLOCKS, BLOCKS_PER_GROUP);
      if !padded { return false; }
      allocatedBlocks := used;
      var _, bits, clearInodes := ScanBitmap(inodeBitmap, INODES, INODES);
      allocatedInodes := set bit: nat | bit in bits :: bit + 1;
      ShiftedBits(image, bits, allocatedInodes);
      var trailing := CountTrailing(inodeBitmap, INODES);
      if clearBlocks != Field(d, 12, 2) || clearInodes != Field(d, 14, 2) || trailing != Field(d, 28, 2) {
        return false;
      }
      if Field(d, 12, 2) != freeBlocks || Field(d, 14, 2) != freeInodes { return false; }
      usedDirectories := Field(d, 16, 2);
      BitsAddUp(bitmap, BLOCKS);
      BitsAddUp(inodeBitmap, INODES);
      assert |allocatedBlocks| == BLOCKS - freeBlocks && |bits| == INODES - freeInodes;
      return forall i | 0 <= i < FIRST_NON_RESERVED_INODE - 1 :: Bit(inodeBitmap, i);
    }

    method ClaimExtent(e: Extent) returns (ok: bool)
      modifies this`referencedBlocks
      ensures ok <==> ExtentBlocks(e) !! old(referencedBlocks)
      ensures ok ==> referencedBlocks == old(referencedBlocks) + ExtentBlocks(e)
    {
      for index := 0 to e.blocks
        invariant referencedBlocks == old(referencedBlocks) + IntervalSet(e.physical, index)
        invariant IntervalSet(e.physical, index) !! old(referencedBlocks)
      {
        var block := e.physical + index;
        if block in referencedBlocks {
          assert block in ExtentBlocks(e) && block !in IntervalSet(e.physical, index);
          return false;
        }
        referencedBlocks := referencedBlocks + {block};
      }
      return true;
    }

    method ParseExtents(raw: Bytes, kind: Kind, size: nat) returns (r: Option<seq<Extent>>)
      requires |raw| == INODE_BYTES
      modifies this`referencedBlocks
      ensures r.Some? <==>
              ExtentsOk(raw, kind, size) && Fresh(old(referencedBlocks), FirstExtents(raw, ExtentCount(raw)))
      ensures r.Some? ==> r.value == FirstExtents(raw, ExtentCount(raw))
      ensures r.Some? ==> referencedBlocks == old(referencedBlocks) + BlocksOf(r.value)
    {
      hide ExtentOk, ExtentAt, Parsed, Field, Contiguous, BlockSum, FirstExtents, FirstExtentsOk, Fresh, BlocksOf,
           LogicalEnd;
      ghost var taken := referencedBlocks;
      if !ExtentHeaderOk(raw) { return None; }
      var count, extents, previousEnd := ExtentCount(raw), [], 0;
      ParseStart(taken, raw, kind, size);
      for index := 0 to count
        invariant extents == FirstExtents(raw, index) && previousEnd == LogicalEnd(extents)
        invariant Parsed(taken, referencedBlocks, raw, kind, size, index)
      {
        var e := ExtentAt(raw, index);
        ParseStep(taken, referencedBlocks, raw, kind, size, index, count);
        if !ExtentOk(raw, kind, size, index, previousEnd) { return None; }
        var claimed := ClaimExtent(e);
        if !claimed { return None; }
        extents, previousEnd := extents + [e], e.logical + e.blocks;
      }
      ParseEnd(taken, referencedBlocks, raw, kind, size, count);
      if kind.Directory? {
        var end := ContiguousEnd(extents);
        if end != Some(CeilBlocks(size)) { return None; }
      }
      return Some(extents);
    }

    /** One inode-table entry. `stamped` is false when only its timestamps are wrong. */
    method VerifyInode(n: nat) returns (ok: bool, stamped: bool, directory: bool)
      requires |image| == IMAGE_BYTES && PlacementOk(image) && 1 <= n <= INODES
      requires allocatedInodes == AllocatedInodes(image)
      modifies this`referencedBlocks, this`inodeRecords
      ensures !ok ==> !(InodeOk(image, n) && Fresh(old(referencedBlocks), ExtentsAt(image, n)))
      ensures ok && !stamped ==> !InodeOk(image, n)
      ensures ok && stamped ==> InodeOk(image, n) && Fresh(old(referencedBlocks), ExtentsAt(image, n))
      ensures ok && stamped ==> referencedBlocks == old(referencedBlocks) + BlocksOf(ExtentsAt(image, n))
      ensures ok && stamped ==>
                inodeRecords ==
                if IsActive(image, n) then old(inodeRecords)[n := InodeOf(image, n)] else old(inodeRecords)
      ensures ok && stamped ==> directory == (IsActive(image, n) && InodeOf(image, n).kind.Directory?)
    {
      hide PlacementOk, RawInode, InodeChecksumOk, ModeType, SizeOf, ExtentCount, TimesOk, ExtentsOk, SectorsOk,
           FirstExtents;
      hide Field, Fresh, BlocksOf;
      var raw := RawInode(image, n);
      NoExtents(referencedBlocks);
      if n !in allocatedInodes { return AllZero(raw), true, false; }
      if !InodeChecksumOk(n, raw) { return false, true, false; }
      if ModeType(raw) == 0 {
        return n < FIRST_NON_RESERVED_INODE && n != ROOT_INODE && n != JOURNAL_INODE, true, false;
      }
      if !FieldsOk(n, raw) { return false, true, false; }
      stamped := TimesOk(raw);
      var kind, size := KindOf(raw).value, SizeOf(raw);
      var extents := ParseExtents(raw, kind, size);
      if extents.None? || !SectorsOk(raw, extents.value) { return false, true, false; }
      inodeRecords := inodeRecords[n := Inode(n, Field(raw, 100, 4), kind, size, extents.value)];
      return true, stamped, kind.Directory?;
    }

    method VerifyInodesAndExtents() returns (ok: bool)
      requires |image| == IMAGE_BYTES && PlacementOk(image)
      requires allocatedInodes == AllocatedInodes(image) && referencedBlocks == FixedBlocks(image)
      requires inodeRecords == map[] && usedDirectories == Field(Descriptor(image), 16, 2)
      modifies this`referencedBlocks, this`inodeRecords
      ensures ok <==> InodesOk(image)
      ensures ok ==> referencedBlocks == Claimed(image, INODES) && inodeRecords == Records(image, INODES)
    {
      hide PlacementOk, InodeOk, IsActive, InodeOf, ExtentsAt, Fresh, BlocksOf, Scanned, Descriptor, Field, FixedBlocks;
      var nondeterministic: set<nat> := {};
      var directories := 0;
      ScanStart(image);
      for number := 1 to INODES + 1
        invariant nondeterministic == {} ==> Scanned(image, number - 1, referencedBlocks, inodeRecords, directories)
        invariant nondeterministic != {} ==> !DecodesTo(image, INODES)
      {
        ghost var referenced, records := referencedBlocks, inodeRecords;
        var good, stamped, directory := VerifyInode(number);
        if nondeterministic == {} { ScanStep(image, number, referenced, records, directories); }
        if !good { return false; }
        if !stamped { nondeterministic := nondeterministic + {number}; }
        if directory { directories := directories + 1; }
      }
      if nondeterministic == {} { ScanEnd(image, referencedBlocks, inodeRecords, directories); }
      if |inodeRecords| > MAX_ACTIVE_INODES || nondeterministic != {} { return false; }
      return directories == usedDirectories;
    }

    /** Accepts exactly the images of the profile. */
    method Verify() returns (ok: bool)
      requires referencedBlocks == {} && inodeRecords == map[]
      modifies this
      ensures ok <==> Accepted(image, content)
    {
      hide SuperblockOk, GroupOk, InodesOk, AllocatedBlocks, Claimed, JournalOk, TreeOk, Valid, FixedBlocks,
           Descriptor, Field;
      hide FreeBlocks, FreeInodes;
      ok := VerifySuperblock();
      if !ok { return; }
      SuperblockLength(image);
      ok := VerifyGroupsAndBitmaps();
      if !ok { return; }
      GroupPlacement(image);
      ok := VerifyInodesAndExtents();
      if !ok { return; }
      InodesDecode(image);
      if allocatedBlocks != referencedBlocks { return false; }
      if JOURNAL_INODE !in inodeRecords { return false; }
      ok := CheckJournal(image, inodeRecords[JOURNAL_INODE]);
      if !ok { return; }
      VolumeIsValid(image);
      ok := VerifyExactTree(Volume(image, allocatedInodes, inodeRecords), content);
    }
  }

  lemma SuperblockLength(image: Bytes)
    requires SuperblockOk(image)
    ensures |image| == IMAGE_BYTES
  {
  }

  lemma GroupPlacement(image: Bytes)
    requires GroupOk(image)
    ensures PlacementOk(image)
  {
  }

  lemma InodesDecode(image: Bytes)
    requires InodesOk(image)
    ensures DecodesTo(image, INODES)
  {
  }

  lemma NoExtents(taken: set<nat>)
    ensures Fresh(taken, []) && BlocksOf([]) == {}
  {
  }

  /** The running state after inodes 1 to `n`. */
  ghost predicate Scanned(image: Bytes, n: nat, referenced: set<nat>, records: map<nat, Inode>, directories: nat) {
    && DecodesTo(image, n) && ClaimsFresh(image, n)
    && referenced == Claimed(image, n) && records == Records(image, n) && directories == DirectoryCount(image, n)
  }

  lemma ScanStart(image: Bytes)
    requires |image| == IMAGE_BYTES && PlacementOk(image)
    ensures Scanned(image, 0, FixedBlocks(image), map[], 0)
  {
  }

  lemma ScanStep(image: Bytes, n: nat, referenced: set<nat>, records: map<nat, Inode>, directories: nat)
    requires 1 <= n <= INODES && Scanned(image, n - 1, referenced, records, directories)
    ensures DecodesTo(image, INODES) && ClaimsFresh(image, INODES) ==>
              InodeOk(image, n) && Fresh(referenced, ExtentsAt(image, n))
    ensures !InodeOk(image, n) ==> !DecodesTo(image, INODES)
    ensures InodeOk(image, n) && Fresh(referenced, ExtentsAt(image, n)) ==>
              Scanned(image, n, referenced + BlocksOf(ExtentsAt(image, n)),
                      if IsActive(image, n) then records[n := InodeOf(image, n)] else records,
                      if IsActive(image, n) && InodeOf(image, n).kind.Directory? then directories + 1 else directories)
  {
    hide PlacementOk, InodeOk, IsActive, InodeOf, ExtentsAt, Fresh, BlocksOf;
    if DecodesTo(image, INODES) && ClaimsFresh(image, INODES) { FreshBefore(image, n, INODES); }
  }

  lemma ScanEnd(image: Bytes, referenced: set<nat>, records: map<nat, Inode>, directories: nat)
    requires Scanned(image, INODES, referenced, records, directories)
    ensures DecodesTo(image, INODES) && ClaimsFresh(image, INODES)
    ensures referenced == Claimed(image, INODES) && records == Records(image, INODES)
    ensures directories == DirectoryCount(image, INODES)
  {
  }

  lemma ShiftedBits(image: Bytes, bits: set<nat>, shifted: set<nat>)
    requires |image| == IMAGE_BYTES && PlacementOk(image) && bits == SetBits(InodeBitmap(image), INODES)
    requires shifted == set bit: nat | bit in bits :: bit + 1
    ensures shifted == AllocatedInodes(image)
  {
    hide Bit, InodeBitmap, PlacementOk;
    forall n: nat ensures n in shifted <==> n in AllocatedInodes(image) {
      if n in AllocatedInodes(image) { assert n - 1 in bits; }
    }
  }
}
