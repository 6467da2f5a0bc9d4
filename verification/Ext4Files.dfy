/** File contents in the ext4 profile: block mapping, the block-wise reader, and
    the internal journal. */
module Ext4Files {
  import opened ByteCodec
  import opened Ext4Format

  predicate Covers(e: Extent, logical: nat) {
    e.logical <= logical < e.logical + e.blocks
  }

  /** The physical block behind a logical block, with its unwritten flag; none in a hole. */
  function MappedBlock(es: seq<Extent>, logical: nat): (r: Option<(nat, bool)>) {
    if es == [] then None
    else if Covers(es[0], logical) then Some((es[0].physical + logical - es[0].logical, es[0].unwritten))
    else MappedBlock(es[1..], logical)
  }

  /** Ascending, non-overlapping extents that stay in the volume and in the file. */
  predicate Sane(es: seq<Extent>, size: nat) {
    && (forall i | 0 <= i < |es| ::
          es[i].physical + es[i].blocks <= BLOCKS && es[i].logical + es[i].blocks <= CeilBlocks(size))
    && (forall i, j | 0 <= i < j < |es| :: es[i].logical + es[i].blocks <= es[j].logical)
  }

  lemma {:induction false} ExtentsAreSane(raw: Bytes, kind: Kind, size: nat, n: nat)
    requires |raw| == INODE_BYTES && n <= 4 && FirstExtentsOk(raw, kind, size, n)
    ensures Sane(FirstExtents(raw, n), size)
  {
    if n > 0 {
      ExtentsAreSane(raw, kind, size, n - 1);
      var es, e := FirstExtents(raw, n - 1), ExtentAt(raw, n - 1);
      assert ExtentOk(raw, kind, size, n - 1, LogicalEnd(es));
      SaneAppend(es, e, size);
    }
  }

  lemma SaneAppend(es: seq<Extent>, e: Extent, size: nat)
    requires Sane(es, size) && e.physical + e.blocks <= BLOCKS && e.logical + e.blocks <= CeilBlocks(size)
    requires es != [] ==> e.logical >= LogicalEnd(es)
    ensures Sane(es + [e], size)
  {
    var all := es + [e];
    forall i, j | 0 <= i < j < |all| ensures all[i].logical + all[i].blocks <= all[j].logical {
      if j == |es| && i < |es| - 1 {
        assert es[i].logical + es[i].blocks <= es[|es| - 1].logical;
      }
    }
  }

  /** The simple reader: the byte of the mapped block, zero in a hole or unwritten extent. */
  function ByteOf(image: Bytes, es: seq<Extent>, x: nat): (b: Byte)
    requires |image| == IMAGE_BYTES
  {
    var m := MappedBlock(es, x / BLOCK_BYTES);
    if m.Some? && !m.value.1 && m.value.0 < BLOCKS then Block(image, m.value.0)[x % BLOCK_BYTES] else 0
  }

  function FileBytes(image: Bytes, i: Inode): (b: Bytes)
    requires |image| == IMAGE_BYTES
    ensures |b| == i.size
  {
    seq(i.size, x requires 0 <= x < i.size => ByteOf(image, i.extents, x))
  }

  lemma {:induction false} MappedAppend(es: seq<Extent>, e: Extent, logical: nat)
    ensures MappedBlock(es + [e], logical) ==
            if MappedBlock(es, logical).Some? then MappedBlock(es, logical)
            else if Covers(e, logical) then Some((e.physical + logical - e.logical, e.unwritten)) else None
  {
    if es == [] {
      assert es + [e] == [e] && [e][1..] == [];
    } else {
      MappedAppend(es[1..], e, logical);
      assert (es + [e])[1..] == es[1..] + [e];
    }
  }

  lemma {:induction false} UnmappedAbove(es: seq<Extent>, logical: nat)
    requires forall i | 0 <= i < |es| :: es[i].logical + es[i].blocks <= logical
    ensures MappedBlock(es, logical).None?
  {
    if es != [] { UnmappedAbove(es[1..], logical); }
  }

  /** The output so far equals the simple reader over the extents handled so far. */
  ghost predicate ReadSoFar(output: Bytes, image: Bytes, es: seq<Extent>) {
    |image| == IMAGE_BYTES && forall x | 0 <= x < |output| :: output[x] == ByteOf(image, es, x)
  }

  function Cut(e: Extent, n: nat): (r: Extent) {
    e.(blocks := n)
  }

  /** Growing the last extent by one block changes the mapping of that block only. */
  lemma MappedGrows(es: seq<Extent>, e: Extent, n: nat, logical: nat)
    requires n < e.blocks && forall i | 0 <= i < |es| :: es[i].logical + es[i].blocks <= e.logical
    ensures logical != e.logical + n ==>
              MappedBlock(es + [Cut(e, n + 1)], logical) == MappedBlock(es + [Cut(e, n)], logical)
    ensures logical == e.logical + n ==>
              MappedBlock(es + [Cut(e, n + 1)], logical) == Some((e.physical + n, e.unwritten))
  {
    MappedAppend(es, Cut(e, n + 1), logical);
    MappedAppend(es, Cut(e, n), logical);
    if logical == e.logical + n { UnmappedAbove(es, logical); }
  }

  lemma CutToNothing(es: seq<Extent>, e: Extent, output: Bytes, image: Bytes)
    requires ReadSoFar(output, image, es)
    ensures ReadSoFar(output, image, es + [Cut(e, 0)])
  {
    forall x: nat | 0 <= x < |output| ensures ByteOf(image, es, x) == ByteOf(image, es + [Cut(e, 0)], x) {
      MappedAppend(es, Cut(e, 0), x / BLOCK_BYTES);
    }
  }

  /** An unwritten extent reads as the hole it replaces. */
  lemma UnwrittenReadsZero(es: seq<Extent>, e: Extent, output: Bytes, image: Bytes)
    requires ReadSoFar(output, image, es) && e.unwritten
    ensures ReadSoFar(output, image, es + [e])
  {
    forall x: nat | 0 <= x < |output| ensures ByteOf(image, es, x) == ByteOf(image, es + [e], x) {
      MappedAppend(es, e, x / BLOCK_BYTES);
    }
  }

  /** Copying one physical block extends what is read by that block. */
  lemma CopyBlock(output: Bytes, image: Bytes, es: seq<Extent>, e: Extent, n: nat, start: nat, count: nat)
    requires ReadSoFar(output, image, es + [Cut(e, n)]) && n < e.blocks && !e.unwritten
    requires e.physical + e.blocks <= BLOCKS
    requires forall i | 0 <= i < |es| :: es[i].logical + es[i].blocks <= e.logical
    requires start == (e.logical + n) * BLOCK_BYTES < |output|
    requires count == Min(BLOCK_BYTES, |output| - start)
    ensures ReadSoFar(Patch(output, start, Block(image, e.physical + n)[..count]), image, es + [Cut(e, n + 1)])
  {
    hide Patch, MappedBlock;
    var block := Block(image, e.physical + n);
    var after := Patch(output, start, block[..count]);
    forall x: nat | 0 <= x < |after| ensures after[x] == ByteOf(image, es + [Cut(e, n + 1)], x) {
      MappedGrows(es, e, n, x / BLOCK_BYTES);
      if start <= x < start + count {
        assert x / BLOCK_BYTES == e.logical + n && x % BLOCK_BYTES == x - start;
        assert after[x] == after[start..start + count][x - start] == block[x - start];
      } else {
        assert x / BLOCK_BYTES != e.logical + n;
      }
    }
  }

  /** The bounded block-wise reader equals the simple per-byte reader on every accepted extent list. */
  method ReadFile(image: Bytes, i: Inode) returns (r: Option<Bytes>)
    requires |image| == IMAGE_BYTES && Sane(i.extents, i.size)
    ensures r == if i.size > MAX_FILE_BYTES then None else Some(FileBytes(image, i))
  {
    hide ReadSoFar, Patch, MappedBlock, Block;
    if i.size > MAX_FILE_BYTES { return None; }
    var output := new Byte[i.size](_ => 0);
    NothingRead(output[..], image);
    for k := 0 to |i.extents|
      invariant ReadSoFar(output[..], image, i.extents[..k])
    {
      var e, es := i.extents[k], i.extents[..k];
      assert i.extents[..k + 1] == es + [e];
      if e.unwritten {
        UnwrittenReadsZero(es, e, output[..], image);
        continue;
      }
      CutToNothing(es, e, output[..], image);
      for index := 0 to e.blocks
        invariant ReadSoFar(output[..], image, es + [Cut(e, index)])
      {
        var start := (e.logical + index) * BLOCK_BYTES;
        assert start < i.size;
        var count := Min(BLOCK_BYTES, i.size - start);
        CopyBlock(output[..], image, es, e, index, start, count);
        Blit(output, start, Block(image, e.physical + index)[..count]);
      }
      assert Cut(e, e.blocks) == e;
    }
    assert i.extents[..|i.extents|] == i.extents;
    AllRead(output[..], image, i);
    return Some(output[..]);
  }

  lemma NothingRead(output: Bytes, image: Bytes)
    requires |image| == IMAGE_BYTES && AllZero(output)
    ensures ReadSoFar(output, image, [])
  {
  }

  lemma AllRead(output: Bytes, image: Bytes, i: Inode)
    requires ReadSoFar(output, image, i.extents) && |output| == i.size
    ensures output == FileBytes(image, i)
  {
  }

  // ---- Journal ------------------------------------------------------------

  /** Big-endian field of the journal superblock. */
  function BE(b: Bytes): (n: nat) {
    if b == [] then 0 else 256 * BE(b[..|b| - 1]) + b[|b| - 1]
  }

  /** A hole-free, written, pinned-length journal with a consistent superblock. */
  predicate JournalOk(image: Bytes, j: Inode)
    requires |image| == IMAGE_BYTES
  {
    && j.kind.File? && j.size != 0
    && Contiguous(j.extents) && (forall i | 0 <= i < |j.extents| :: !j.extents[i].unwritten)
    && BlockSum(j.extents) == CeilBlocks(j.size) == JOURNAL_BLOCKS
    && var m := MappedBlock(j.extents, 0);
    && m.Some? && m.value.0 < BLOCKS
    && var b := Block(image, m.value.0);
    && BE(b[16..20]) == JOURNAL_BLOCKS && BE(b[20..24]) == JOURNAL_FIRST_BLOCK
    && BE(b[0..4]) == 0xC03B_3998 && BE(b[4..8]) == 4 && BE(b[12..16]) == BLOCK_BYTES
    && b[48..64] == FILESYSTEM_UUID
  }

  /** The pinned journal is longer than any file the verifier will read. */
  lemma JournalIsUnreadable(image: Bytes, j: Inode)
    requires |image| == IMAGE_BYTES && JournalOk(image, j)
    ensures j.size > MAX_FILE_BYTES
  {
  }

  method CheckJournal(image: Bytes, j: Inode) returns (ok: bool)
    requires |image| == IMAGE_BYTES
    ensures ok <==> JournalOk(image, j)
  {
    if !j.kind.File? || j.size == 0 { return false; }
    var nextLogical := 0;
    for i := 0 to |j.extents|
      invariant nextLogical == BlockSum(j.extents[..i])
      invariant forall k | 0 <= k < i :: j.extents[k].logical == BlockSum(j.extents[..k]) && !j.extents[k].unwritten
    {
      if j.extents[i].logical != nextLogical || j.extents[i].unwritten { return false; }
      assert j.extents[..i + 1][..i] == j.extents[..i];
      nextLogical := nextLogical + j.extents[i].blocks;
    }
    assert j.extents[..|j.extents|] == j.extents;
    if nextLogical != CeilBlocks(j.size) { return false; }
    var mapped := MappedBlock(j.extents, 0);
    if mapped.None? || mapped.value.0 >= BLOCKS { return false; }
    var b := Block(image, mapped.value.0);
    if CeilBlocks(j.size) != JOURNAL_BLOCKS || BE(b[16..20]) != JOURNAL_BLOCKS
       || BE(b[20..24]) != JOURNAL_FIRST_BLOCK {
      return false;
    }
    return BE(b[0..4]) == 0xC03B_3998 && BE(b[4..8]) == 4 && BE(b[12..16]) == BLOCK_BYTES
           && b[48..64] == FILESYSTEM_UUID;
  }
}
