/** Damage to one directory block of an accepted ext4 image: whatever the image is then
    expected to hold, it is no longer accepted. */
module Ext4Damage {
  import opened ByteCodec
  import opened Crc
  import opened Ext4Format
  import opened Ext4Ownership
  import opened Ext4Files
  import opened Ext4Directory
  import T = Ext4Tree
  import opened Ext4Verifier

  /** The images agree on every block but `p`. */
  ghost predicate SameOutside(a: Bytes, b: Bytes, p: nat) {
    && |a| == |b| == IMAGE_BYTES && p < BLOCKS
    && forall q: nat | q < BLOCKS && q != p :: Block(a, q) == Block(b, q)
  }

  lemma BlocksMakeTheImage(a: Bytes, b: Bytes)
    requires |a| == |b| == IMAGE_BYTES && forall q: nat | q < BLOCKS :: Block(a, q) == Block(b, q)
    ensures a == b
  {
    forall i | 0 <= i < IMAGE_BYTES ensures a[i] == b[i] {
      var q := i / BLOCK_BYTES;
      assert Block(a, q)[i % BLOCK_BYTES] == Block(b, q)[i % BLOCK_BYTES];
    }
  }

  // ---- Metadata is not touched --------------------------------------------

  /** An inode lies in one block of the inode table. */
  lemma InodeInBlock(image: Bytes, n: nat) returns (q: nat)
    requires |image| == IMAGE_BYTES && PlacementOk(image) && 1 <= n <= INODES
    ensures InodeTableAt(image) <= q < InodeTableAt(image) + INODE_TABLE_BLOCKS && q < BLOCKS
    ensures q == InodeTableAt(image) + (n - 1) / 16
    ensures var at := (n - 1) % 16 * INODE_BYTES; RawInode(image, n) == Block(image, q)[at..at + INODE_BYTES]
  {
    hide Field, Descriptor;
    q := InodeTableAt(image) + (n - 1) / 16;
    var at := (n - 1) % 16 * INODE_BYTES;
    SubSlice(image, q * BLOCK_BYTES, (q + 1) * BLOCK_BYTES, at, at + INODE_BYTES);
  }

  lemma SameMetadata(a: Bytes, b: Bytes, p: nat)
    requires SameOutside(a, b, p) && PlacementOk(a) && p !in FixedBlocks(a)
    ensures Descriptor(a) == Descriptor(b) && PlacementOk(b) && InodeBitmap(a) == InodeBitmap(b)
  {
    hide Field, Block;
    assert p != 1;
    assert Block(a, 1) == Block(b, 1);
  }

  lemma SameInode(a: Bytes, b: Bytes, p: nat, n: nat)
    requires SameOutside(a, b, p) && PlacementOk(a) && p !in FixedBlocks(a)
    requires IsActive(a, n) && InodeOk(a, n)
    ensures PlacementOk(b) && IsActive(b, n) && InodeOk(b, n) && InodeOf(a, n) == InodeOf(b, n)
  {
    hide Field, Block, Descriptor, InodeChecksumOk, ActiveOk, ModeType, KindOf, SizeOf, FirstExtents;
    SameMetadata(a, b, p);
    var q := InodeInBlock(a, n);
    var q' := InodeInBlock(b, n);
    assert q == q' && q != p;
  }

  // ---- Directories of an accepted image -----------------------------------

  lemma AcceptedIsDecoded(image: Bytes, content: Option<Bytes>, n: nat)
    requires Accepted(image, content) && IsActive(image, n)
    ensures |image| == IMAGE_BYTES && PlacementOk(image) && 1 <= n <= INODES && InodeOk(image, n)
  {
    hide SuperblockOk, GroupOk, ClaimsFresh, Claimed, AllocatedBlocks, InodeOk, T.TreeOk, JournalOk;
    hide Ext4Verifier.Records;
  }

  lemma DirectoryParses(image: Bytes, content: Option<Bytes>, d: nat)
    requires Accepted(image, content) && IsActive(image, d) && InodeOf(image, d).kind.Directory?
    ensures DirectoryOf(image, AllocatedInodes(image), InodeOf(image, d)).Some?
  {
    hide SuperblockOk, GroupOk, ClaimsFresh, Claimed, AllocatedBlocks, IsActive, InodeOf, InodeOk, PlacementOk;
    hide Ext4Verifier.Records, DirectoryOf;
    RecordsAreDecoded(image, INODES);
    ActiveInRange(image, d);
    var v := VolumeOf(image);
    var t :| T.TreeIs(v, content, t);
    T.DirectoriesHavePaths(v, content, t, d);
    assert T.DirOk(v, content, t, d);
  }

  /** Every block of a directory that parses has a valid tail. */
  lemma {:induction false} TailsAreChecked(image: Bytes, inodes: set<nat>, i: Inode, start: nat,
                                             es: seq<Entry>, logical: nat)
    requires |image| == IMAGE_BYTES && Entries(image, inodes, i, start, es).Some?
    requires start <= logical < i.size / BLOCK_BYTES
    ensures var m := MappedBlock(i.extents, logical);
            m.Some? && m.value.0 < BLOCKS && TailOk(Block(image, m.value.0), i.number, i.generation)
    decreases logical - start
  {
    hide TailOk, MappedBlock, Block, Ext4Directory.Records;
    if start < logical {
      var block := Block(image, MappedBlock(i.extents, start).value.0);
      var more := Ext4Directory.Records(inodes, block, 0, es);
      TailsAreChecked(image, inodes, i, start + 1, more.value, logical);
    }
  }

  lemma AcceptedTail(image: Bytes, content: Option<Bytes>, d: nat, logical: nat)
    requires Accepted(image, content) && IsActive(image, d) && InodeOf(image, d).kind.Directory?
    requires logical < InodeOf(image, d).size / BLOCK_BYTES
    ensures var i := InodeOf(image, d); var m := MappedBlock(i.extents, logical);
            m.Some? && m.value.0 < BLOCKS && TailOk(Block(image, m.value.0), i.number, i.generation)
  {
    hide Accepted, IsActive, InodeOf, InodeOk, PlacementOk, TailOk, MappedBlock, Entries;
    AcceptedIsDecoded(image, content, d);
    DirectoryParses(image, content, d);
    TailsAreChecked(image, AllocatedInodes(image), InodeOf(image, d), 0, [], logical);
  }

  lemma {:induction false} MappedIsOwned(es: seq<Extent>, logical: nat) returns (j: nat, k: nat)
    requires MappedBlock(es, logical).Some?
    ensures OwnsData(es, j, k, MappedBlock(es, logical).value.0)
  {
    if Covers(es[0], logical) {
      j, k := 0, logical - es[0].logical;
    } else {
      j, k := MappedIsOwned(es[1..], logical);
      j := j + 1;
    }
  }

  /** Directory blocks are not metadata. */
  lemma DirectoryBlockIsData(image: Bytes, content: Option<Bytes>, d: nat, logical: nat)
    requires Accepted(image, content) && IsActive(image, d) && MappedBlock(InodeOf(image, d).extents, logical).Some?
    ensures MappedBlock(InodeOf(image, d).extents, logical).value.0 !in FixedBlocks(image)
  {
    hide SuperblockOk, GroupOk, ClaimsFresh, Claimed, AllocatedBlocks, IsActive, InodeOf, InodeOk, PlacementOk;
    hide T.TreeOk, JournalOk, Ext4Verifier.Records, MappedBlock, FixedBlocks, OwnsData;
    ActiveInRange(image, d);
    var j, k := MappedIsOwned(InodeOf(image, d).extents, logical);
    DataIsNotFixed(image, d, j, k, MappedBlock(InodeOf(image, d).extents, logical).value.0);
  }

  /** An accepted image with four consecutive bytes of one directory block changed is not accepted,
      for any expected content. */
  lemma DirectoryDamageRefused(a: Bytes, b: Bytes, content: Option<Bytes>, other: Option<Bytes>,
                               d: nat, logical: nat, p: nat, at: nat)
    requires Accepted(a, content) && IsActive(a, d) && InodeOf(a, d).kind.Directory?
    requires logical < InodeOf(a, d).size / BLOCK_BYTES
    requires var m := MappedBlock(InodeOf(a, d).extents, logical); m.Some? && m.value.0 == p
    requires SameOutside(a, b, p) && DifferOnlyWithin(Block(a, p), Block(b, p), at) && a != b
    ensures !Accepted(b, other)
  {
    hide Accepted, IsActive, InodeOf, InodeOk, PlacementOk, TailOk, MappedBlock, Block, FixedBlocks;
    AcceptedIsDecoded(a, content, d);
    AcceptedTail(a, content, d, logical);
    DirectoryBlockIsData(a, content, d, logical);
    SameInode(a, b, p, d);
    if Block(a, p) == Block(b, p) { BlocksMakeTheImage(a, b); }
    var i := InodeOf(a, d);
    DirectoryBurstRefused(Block(a, p), Block(b, p), i.number, i.generation, at);
    if Accepted(b, other) { AcceptedTail(b, other, d, logical); }
  }
}
