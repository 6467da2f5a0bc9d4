/** Who owns each block of an accepted ext4 image, and that the accounting adds up. */
module Ext4Ownership {
  import opened ByteCodec
  import opened Ext4Format

  function ExtentBlocks(e: Extent): (s: set<nat>) {
    IntervalSet(e.physical, e.blocks)
  }

  function BlocksOf(es: seq<Extent>): (s: set<nat>) {
    if es == [] then {} else BlocksOf(es[..|es| - 1]) + ExtentBlocks(es[|es| - 1])
  }

  /** No extent reuses a block of `taken` or of an earlier extent. */
  predicate Fresh(taken: set<nat>, es: seq<Extent>) {
    es == []
    || (var n := |es| - 1;
        Fresh(taken, es[..n]) && ExtentBlocks(es[n]) !! taken + BlocksOf(es[..n]))
  }

  /** The extents of inode `n`, none when it is not active. */
  function ExtentsAt(image: Bytes, n: nat): (es: seq<Extent>)
    requires |image| == IMAGE_BYTES && PlacementOk(image) && (1 <= n <= INODES ==> InodeOk(image, n))
  {
    if IsActive(image, n) then InodeOf(image, n).extents else []
  }

  /** The inodes up to `n` decode. */
  predicate DecodesTo(image: Bytes, n: nat) {
    && |image| == IMAGE_BYTES && PlacementOk(image) && n <= INODES
    && forall m | 1 <= m <= n :: InodeOk(image, m)
  }

  /** The fixed metadata blocks and the blocks of inodes 1 to `n`. */
  function Claimed(image: Bytes, n: nat): (s: set<nat>)
    requires DecodesTo(image, n)
  {
    if n == 0 then FixedBlocks(image) else Claimed(image, n - 1) + BlocksOf(ExtentsAt(image, n))
  }

  /** No block is claimed twice by inodes 1 to `n`. */
  predicate ClaimsFresh(image: Bytes, n: nat)
    requires DecodesTo(image, n)
  {
    n == 0 || (ClaimsFresh(image, n - 1) && Fresh(Claimed(image, n - 1), ExtentsAt(image, n)))
  }

  function ExtentTotal(image: Bytes, n: nat): (t: nat)
    requires DecodesTo(image, n)
  {
    if n == 0 then 0 else ExtentTotal(image, n - 1) + BlockSum(ExtentsAt(image, n))
  }

  lemma {:induction false} FreshCount(taken: set<nat>, es: seq<Extent>)
    requires Fresh(taken, es)
    ensures taken !! BlocksOf(es) && |BlocksOf(es)| == BlockSum(es)
  {
    if es != [] {
      var n := |es| - 1;
      FreshCount(taken, es[..n]);
      IntervalSize(es[n].physical, es[n].blocks);
    }
  }

  /** Claimed blocks number exactly the fixed metadata plus all extent lengths. */
  lemma {:induction false} ClaimedCount(image: Bytes, n: nat)
    requires DecodesTo(image, n) && ClaimsFresh(image, n)
    ensures |Claimed(image, n)| == 4 + INODE_TABLE_BLOCKS + ExtentTotal(image, n)
  {
    hide FixedBlocks, BlocksOf, Fresh, BlockSum, InodeOk, ExtentsAt, PlacementOk;
    if n == 0 {
      FixedBlockCount(image);
    } else {
      ClaimedCount(image, n - 1);
      FreshCount(Claimed(image, n - 1), ExtentsAt(image, n));
    }
  }

  /** The block bitmap describes exactly the claimed blocks, and its free count is the superblock's. */
  predicate AllocationOk(image: Bytes) {
    && SuperblockOk(image) && GroupOk(image)
    && DecodesTo(image, INODES) && ClaimsFresh(image, INODES)
    && AllocatedBlocks(image) == Claimed(image, INODES)
  }

  /** Fixed metadata, extent lengths and free blocks add up to the whole volume. */
  lemma BlocksConserved(image: Bytes)
    requires AllocationOk(image)
    ensures 4 + INODE_TABLE_BLOCKS + ExtentTotal(image, INODES) + FreeBlocks(image) == BLOCKS
  {
    hide Claimed, ClaimsFresh, InodeOk, ExtentTotal, SuperblockOk;
    ClaimedCount(image, INODES);
    BitsAddUp(BlockBitmap(image), BLOCKS);
  }

  // ---- Ownership ----------------------------------------------------------

  datatype Owner =
    | SuperblockOwner
    | DescriptorTableOwner
    | BlockBitmapOwner
    | InodeBitmapOwner
    | InodeTableOwner(index: nat)
    | DataOwner(inode: nat, extent: nat, index: nat)

  /** `o` is a place in the image that block `b` serves. */
  predicate Owns(image: Bytes, o: Owner, b: nat)
    requires DecodesTo(image, INODES)
  {
    match o
    case SuperblockOwner => b == 0
    case DescriptorTableOwner => b == 1
    case BlockBitmapOwner => b == BlockBitmapAt(image)
    case InodeBitmapOwner => b == InodeBitmapAt(image)
    case InodeTableOwner(k) => k < INODE_TABLE_BLOCKS && b == InodeTableAt(image) + k
    case DataOwner(n, j, k) => 1 <= n <= INODES && OwnsData(ExtentsAt(image, n), j, k, b)
  }

  predicate OwnsData(es: seq<Extent>, j: nat, k: nat, b: nat) {
    j < |es| && k < es[j].blocks && b == es[j].physical + k
  }

  lemma {:induction false} DataIsClaimed(es: seq<Extent>, j: nat, k: nat, b: nat)
    requires OwnsData(es, j, k, b)
    ensures b in BlocksOf(es)
    decreases |es|
  {
    var n := |es| - 1;
    if j < n { DataIsClaimed(es[..n], j, k, b); }
  }

  lemma {:induction false} ClaimedByData(es: seq<Extent>, b: nat) returns (j: nat, k: nat)
    requires b in BlocksOf(es)
    ensures OwnsData(es, j, k, b)
    decreases |es|
  {
    var n := |es| - 1;
    if b in ExtentBlocks(es[n]) {
      j, k := n, b - es[n].physical;
    } else {
      j, k := ClaimedByData(es[..n], b);
    }
  }

  lemma EarlierIsNotLast(taken: set<nat>, es: seq<Extent>, j: nat, k: nat, b: nat)
    requires Fresh(taken, es) && OwnsData(es, j, k, b) && j < |es| - 1
    ensures b !in ExtentBlocks(es[|es| - 1]) && OwnsData(es[..|es| - 1], j, k, b)
  {
    hide BlocksOf, IntervalSet;
    DataIsClaimed(es[..|es| - 1], j, k, b);
  }

  /** Inside one fresh extent list a block has one position. */
  lemma {:induction false} OnePosition(taken: set<nat>, es: seq<Extent>, j: nat, k: nat, j': nat, k': nat, b: nat)
    requires Fresh(taken, es) && OwnsData(es, j, k, b) && OwnsData(es, j', k', b)
    ensures j == j' && k == k' && b !in taken
    decreases |es|
  {
    hide BlocksOf;
    var n := |es| - 1;
    FreshCount(taken, es);
    DataIsClaimed(es, j, k, b);
    if j < n { EarlierIsNotLast(taken, es, j, k, b); }
    if j' < n { EarlierIsNotLast(taken, es, j', k', b); }
    if j < n && j' < n {
      OnePosition(taken, es[..n], j, k, j', k', b);
    }
  }

  lemma {:induction false} ClaimedGrows(image: Bytes, m: nat, n: nat)
    requires m <= n && DecodesTo(image, n)
    ensures DecodesTo(image, m) && Claimed(image, m) <= Claimed(image, n)
    decreases n
  {
    hide BlocksOf, InodeOk, FixedBlocks, ExtentsAt, PlacementOk;
    if m < n { ClaimedGrows(image, m, n - 1); }
  }

  lemma {:induction false} FreshBefore(image: Bytes, m: nat, n: nat)
    requires 1 <= m <= n && DecodesTo(image, n) && ClaimsFresh(image, n)
    ensures DecodesTo(image, m) && Fresh(Claimed(image, m - 1), ExtentsAt(image, m))
    decreases n
  {
    hide BlocksOf, InodeOk, FixedBlocks, ExtentsAt, PlacementOk, Fresh, Claimed;
    if m < n { FreshBefore(image, m, n - 1); }
  }

  lemma DataInClaimed(image: Bytes, n: nat, j: nat, k: nat, b: nat)
    requires DecodesTo(image, INODES) && 1 <= n <= INODES && OwnsData(ExtentsAt(image, n), j, k, b)
    ensures DecodesTo(image, n) && b in Claimed(image, n)
  {
    hide InodeOk, FixedBlocks, ExtentsAt, PlacementOk;
    DataIsClaimed(ExtentsAt(image, n), j, k, b);
  }

  /** Two data positions that share a block are the same position. */
  lemma OneDataOwner(image: Bytes, n: nat, j: nat, k: nat, n': nat, j': nat, k': nat, b: nat)
    requires DecodesTo(image, INODES) && ClaimsFresh(image, INODES)
    requires 1 <= n <= n' <= INODES
    requires OwnsData(ExtentsAt(image, n), j, k, b) && OwnsData(ExtentsAt(image, n'), j', k', b)
    ensures n == n' && j == j' && k == k'
  {
    hide InodeOk, FixedBlocks, ExtentsAt, PlacementOk, Claimed, ClaimsFresh, Fresh, OwnsData;
    FreshBefore(image, n', INODES);
    OnePosition(Claimed(image, n' - 1), ExtentsAt(image, n'), j', k', j', k', b);
    if n < n' {
      DataInClaimed(image, n, j, k, b);
      ClaimedGrows(image, n, n' - 1);
    } else {
      OnePosition(Claimed(image, n' - 1), ExtentsAt(image, n'), j, k, j', k', b);
    }
  }

  /** Fixed metadata never carries data. */
  lemma DataIsNotFixed(image: Bytes, n: nat, j: nat, k: nat, b: nat)
    requires DecodesTo(image, INODES) && ClaimsFresh(image, INODES)
    requires 1 <= n <= INODES && OwnsData(ExtentsAt(image, n), j, k, b)
    ensures b !in FixedBlocks(image)
  {
    hide InodeOk, FixedBlocks, ExtentsAt, PlacementOk, ClaimsFresh, Fresh, OwnsData;
    FreshBefore(image, n, INODES);
    OnePosition(Claimed(image, n - 1), ExtentsAt(image, n), j, k, j, k, b);
    ClaimedGrows(image, 0, n - 1);
  }

  /** Every allocated block of an accepted image has at most one owner. */
  lemma OwnerIsUnique(image: Bytes, o: Owner, o': Owner, b: nat)
    requires AllocationOk(image) && Owns(image, o, b) && Owns(image, o', b)
    ensures o == o'
  {
    hide InodeOk, ExtentsAt, ClaimsFresh, Claimed, OwnsData, SuperblockOk;
    if o.DataOwner? { DataIsNotFixed(image, o.inode, o.extent, o.index, b); }
    if o'.DataOwner? { DataIsNotFixed(image, o'.inode, o'.extent, o'.index, b); }
    if o.DataOwner? && o'.DataOwner? {
      if o.inode <= o'.inode {
        OneDataOwner(image, o.inode, o.extent, o.index, o'.inode, o'.extent, o'.index, b);
      } else {
        OneDataOwner(image, o'.inode, o'.extent, o'.index, o.inode, o.extent, o.index, b);
      }
    }
  }

  lemma {:induction false} ClaimHasOwner(image: Bytes, n: nat, b: nat) returns (o: Owner)
    requires DecodesTo(image, INODES) && n <= INODES && DecodesTo(image, n) && b in Claimed(image, n)
    ensures Owns(image, o, b)
    decreases n
  {
    hide InodeOk, ExtentsAt, BlocksOf, OwnsData;
    if n == 0 {
      o := if b == 0 then SuperblockOwner else if b == 1 then DescriptorTableOwner
           else if b == BlockBitmapAt(image) then BlockBitmapOwner
           else if b == InodeBitmapAt(image) then InodeBitmapOwner
           else InodeTableOwner(b - InodeTableAt(image));
    } else if b in BlocksOf(ExtentsAt(image, n)) {
      var j, k := ClaimedByData(ExtentsAt(image, n), b);
      o := DataOwner(n, j, k);
    } else {
      o := ClaimHasOwner(image, n - 1, b);
    }
  }

  lemma OwnedIsClaimed(image: Bytes, o: Owner, b: nat)
    requires DecodesTo(image, INODES) && Owns(image, o, b)
    ensures b in Claimed(image, INODES)
  {
    hide InodeOk, ExtentsAt, BlocksOf, OwnsData, Claimed;
    if o.DataOwner? {
      DataInClaimed(image, o.inode, o.extent, o.index, b);
      ClaimedGrows(image, o.inode, INODES);
    } else {
      ClaimedGrows(image, 0, INODES);
      FixedIsClaimed(image);
    }
  }

  lemma FixedIsClaimed(image: Bytes)
    requires DecodesTo(image, 0)
    ensures Claimed(image, 0) == FixedBlocks(image)
  {
  }

  /** A block is marked allocated exactly when something owns it. */
  lemma AllocatedIffOwned(image: Bytes, b: nat)
    requires AllocationOk(image)
    ensures b in AllocatedBlocks(image) <==> exists o :: Owns(image, o, b)
  {
    hide InodeOk, ExtentsAt, BlocksOf, OwnsData, Claimed, Owns, SuperblockOk, GroupOk, PlacementOk, ClaimsFresh;
    if b in Claimed(image, INODES) {
      var o := ClaimHasOwner(image, INODES, b);
    }
    forall o | Owns(image, o, b) ensures b in Claimed(image, INODES) {
      OwnedIsClaimed(image, o, b);
    }
  }
}
