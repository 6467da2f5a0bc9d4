/** Directory blocks of the ext4 profile: record parsing and the checksum tail
    that binds a block to its inode. */
module Ext4Directory {
  import opened ByteCodec
  import opened Crc
  import opened Ext4Format
  import opened Ext4Files
  import Utf8

  const TAIL_OFFSET := BLOCK_BYTES - DIRECTORY_TAIL_BYTES

  datatype Entry = Entry(name: Bytes, inode: nat, kind: Kind)

  // ---- Checksum tail ------------------------------------------------------

  predicate TailOk(block: Bytes, number: nat, generation: nat)
    requires |block| == BLOCK_BYTES
  {
    && Field(block, TAIL_OFFSET, 4) == 0 && Field(block, TAIL_OFFSET + 4, 2) == DIRECTORY_TAIL_BYTES
    && Field(block, TAIL_OFFSET + 6, 1) == 0 && Field(block, TAIL_OFFSET + 7, 1) == 0xDE
    && Field(block, TAIL_OFFSET + 8, 4) == Crc32cOf(InodeSeed(number, generation), block[..TAIL_OFFSET])
  }

  lemma SameField(a: Bytes, b: Bytes, at: nat, n: nat)
    requires |a| == |b| && at + n <= |a| && Field(a, at, n) == Field(b, at, n)
    ensures a[at..at + n] == b[at..at + n]
  {
    LEInjective(a[at..at + n], b[at..at + n]);
  }

  lemma TailsAgree(a: Bytes, b: Bytes, number: nat, generation: nat)
    requires |a| == |b| == BLOCK_BYTES && TailOk(a, number, generation) && TailOk(b, number, generation)
    ensures a[TAIL_OFFSET..TAIL_OFFSET + 8] == b[TAIL_OFFSET..TAIL_OFFSET + 8]
    ensures a[..TAIL_OFFSET] == b[..TAIL_OFFSET] ==> a == b
  {
    hide Field, Crc.Crc;
    var t := TAIL_OFFSET;
    SameField(a, b, t, 4);
    SameField(a, b, t + 4, 2);
    SameField(a, b, t + 6, 1);
    SameField(a, b, t + 7, 1);
    assert a[t..t + 8] == a[t..t + 4] + a[t + 4..t + 6] + a[t + 6..t + 7] + a[t + 7..t + 8];
    assert b[t..t + 8] == b[t..t + 4] + b[t + 4..t + 6] + b[t + 6..t + 7] + b[t + 7..t + 8];
    if a[..t] == b[..t] {
      SameField(a, b, t + 8, 4);
      assert a == a[..t] + a[t..t + 8] + a[t + 8..t + 12] && b == b[..t] + b[t..t + 8] + b[t + 8..t + 12];
    }
  }

  /** No corruption of four consecutive bytes of a directory block is accepted, wherever they lie. */
  lemma DirectoryBurstRefused(a: Bytes, b: Bytes, number: nat, generation: nat, at: nat)
    requires |a| == |b| == BLOCK_BYTES && TailOk(a, number, generation)
    requires DifferOnlyWithin(a, b, at) && a != b
    ensures !TailOk(b, number, generation)
  {
    hide Crc.Crc, Field;
    if TailOk(b, number, generation) {
      var x, y, t := a[..TAIL_OFFSET], b[..TAIL_OFFSET], TAIL_OFFSET;
      TailsAgree(a, b, number, generation);
      var i :| 0 <= i < t && x[i] != y[i];
      assert at <= i < at + 4;
      assert a[t + 8..t + 12] == b[t + 8..t + 12];
      var seed := Crc32cOf(ChecksumSeed(), ToLE(number, 4));
      CrcBound(CRC32C_POLYNOMIAL, ALL_ONES, FILESYSTEM_UUID);
      CrcBound(CRC32C_POLYNOMIAL, ChecksumSeed(), ToLE(number, 4));
      CrcBound(CRC32C_POLYNOMIAL, seed, ToLE(generation, 4));
      BurstDetected(CRC32C_POLYNOMIAL, InodeSeed(number, generation), x, y, at);
      SameSlice(a, b, t + 8, 4);
    }
  }

  lemma SameSlice(a: Bytes, b: Bytes, at: nat, n: nat)
    requires |a| == |b| && at + n <= |a| && a[at..at + n] == b[at..at + n]
    ensures Field(a, at, n) == Field(b, at, n)
  {
  }

  /** A block whose tail is valid for one inode number is valid for no other of the same generation. */
  lemma TailBindsInode(block: Bytes, n: nat, m: nat, generation: nat)
    requires |block| == BLOCK_BYTES && n < U32 && m < U32 && n != m
    requires TailOk(block, n, generation)
    ensures !TailOk(block, m, generation)
  {
    hide Crc.Crc;
    var seed, a, b, g := ChecksumSeed(), ToLE(n, 4), ToLE(m, 4), ToLE(generation, 4);
    Widths();
    ToLEThenLE(n, 4);
    ToLEThenLE(m, 4);
    CrcBound(CRC32C_POLYNOMIAL, ALL_ONES, FILESYSTEM_UUID);
    ShortWordsDiffer(CRC32C_POLYNOMIAL, seed, a, b);
    CrcBound(CRC32C_POLYNOMIAL, seed, a);
    CrcBound(CRC32C_POLYNOMIAL, seed, b);
    var c, d := Crc32cOf(seed, a), Crc32cOf(seed, b);
    StatesStayDistinct(CRC32C_POLYNOMIAL, c, d, g);
    CrcBound(CRC32C_POLYNOMIAL, c, g);
    CrcBound(CRC32C_POLYNOMIAL, d, g);
    StatesStayDistinct(CRC32C_POLYNOMIAL, InodeSeed(n, generation), InodeSeed(m, generation), block[..TAIL_OFFSET]);
  }

  // ---- Records ------------------------------------------------------------

  predicate HasName(es: seq<Entry>, name: Bytes) {
    exists i | 0 <= i < |es| :: es[i].name == name
  }

  predicate NameOk(name: Bytes) {
    0 !in name && 0x2F !in name && Utf8.Valid(name)
  }

  function TypeOf(fileType: nat): (k: Option<Kind>) {
    if fileType == 1 then Some(File) else if fileType == 2 then Some(Directory) else None
  }

  function RecordBytes(block: Bytes, at: nat): (n: nat)
    requires |block| == BLOCK_BYTES && at < TAIL_OFFSET
  {
    Field(block, at + 4, 2)
  }

  predicate BoundsOk(block: Bytes, at: nat)
    requires |block| == BLOCK_BYTES && at < TAIL_OFFSET
  {
    var n := RecordBytes(block, at);
    n >= 8 && n % 4 == 0 && at + n <= TAIL_OFFSET && Field(block, at + 6, 1) <= n - 8
  }

  function NameAt(block: Bytes, at: nat): (name: Bytes)
    requires |block| == BLOCK_BYTES && at < TAIL_OFFSET && BoundsOk(block, at)
  {
    block[at + 8..at + 8 + Field(block, at + 6, 1)]
  }

  /** A live record that names an allocated inode and is not a duplicate. */
  predicate LiveOk(inodes: set<nat>, block: Bytes, at: nat, es: seq<Entry>)
    requires |block| == BLOCK_BYTES && at < TAIL_OFFSET && BoundsOk(block, at)
  {
    && Field(block, at, 4) in inodes
    && 0 < Field(block, at + 6, 1) <= MAX_NAME_BYTES
    && NameOk(NameAt(block, at))
    && TypeOf(Field(block, at + 7, 1)).Some?
    && !HasName(es, NameAt(block, at))
    && |es| < MAX_DIRECTORY_ENTRIES
  }

  function EntryAt(block: Bytes, at: nat): (e: Entry)
    requires |block| == BLOCK_BYTES && at < TAIL_OFFSET && BoundsOk(block, at)
    requires TypeOf(Field(block, at + 7, 1)).Some?
  {
    Entry(NameAt(block, at), Field(block, at, 4), TypeOf(Field(block, at + 7, 1)).value)
  }

  /** The entries after reading the records of `block` from `at` on, or none when one is refused. */
  function Records(inodes: set<nat>, block: Bytes, at: nat, es: seq<Entry>): (r: Option<seq<Entry>>)
    requires |block| == BLOCK_BYTES && at <= TAIL_OFFSET
    decreases TAIL_OFFSET - at
  {
    if at == TAIL_OFFSET then Some(es)
    else if !BoundsOk(block, at) then None
    else
      var next := at + RecordBytes(block, at);
      if Field(block, at, 4) == 0 then
        (if Field(block, at + 6, 1) == 0 && Field(block, at + 7, 1) == 0
         then Records(inodes, block, next, es) else None)
      else if LiveOk(inodes, block, at, es) then Records(inodes, block, next, es + [EntryAt(block, at)])
      else None
  }

  /** The entries after reading logical blocks `logical` and up. */
  function Entries(image: Bytes, inodes: set<nat>, i: Inode, logical: nat, es: seq<Entry>): (r: Option<seq<Entry>>)
    requires |image| == IMAGE_BYTES
    decreases i.size / BLOCK_BYTES - logical
  {
    if logical >= i.size / BLOCK_BYTES then Some(es)
    else
      var m := MappedBlock(i.extents, logical);
      if m.None? || m.value.1 || m.value.0 >= BLOCKS then None
      else
        var block := Block(image, m.value.0);
        if !TailOk(block, i.number, i.generation) then None
        else
          var more := Records(inodes, block, 0, es);
          if more.None? then None else Entries(image, inodes, i, logical + 1, more.value)
  }

  /** All entries of a directory. */
  function DirectoryOf(image: Bytes, inodes: set<nat>, i: Inode): (r: Option<seq<Entry>>)
    requires |image| == IMAGE_BYTES
  {
    Entries(image, inodes, i, 0, [])
  }

  method ParseRecords(inodes: set<nat>, block: Bytes, before: seq<Entry>) returns (r: Option<seq<Entry>>)
    requires |block| == BLOCK_BYTES
    ensures r == Records(inodes, block, 0, before)
  {
    hide LiveOk, BoundsOk, EntryAt;
    var entries, offset: nat := before, 0;
    while offset < TAIL_OFFSET
      invariant offset <= TAIL_OFFSET
      invariant Records(inodes, block, offset, entries) == Records(inodes, block, 0, before)
      decreases TAIL_OFFSET - offset
    {
      if !BoundsOk(block, offset) { return None; }
      BoundsAdvance(block, offset);
      if Field(block, offset, 4) == 0 {
        if Field(block, offset + 6, 1) != 0 || Field(block, offset + 7, 1) != 0 { return None; }
      } else {
        if !LiveOk(inodes, block, offset, entries) { return None; }
        LiveHasType(inodes, block, offset, entries);
        entries := entries + [EntryAt(block, offset)];
      }
      offset := offset + RecordBytes(block, offset);
    }
    return Some(entries);
  }

  lemma BoundsAdvance(block: Bytes, at: nat)
    requires |block| == BLOCK_BYTES && at < TAIL_OFFSET && BoundsOk(block, at)
    ensures 8 <= RecordBytes(block, at) <= TAIL_OFFSET - at
  {
  }

  lemma LiveHasType(inodes: set<nat>, block: Bytes, at: nat, es: seq<Entry>)
    requires |block| == BLOCK_BYTES && at < TAIL_OFFSET && BoundsOk(block, at) && LiveOk(inodes, block, at, es)
    ensures TypeOf(Field(block, at + 7, 1)).Some?
  {
  }

  method DirectoryEntries(image: Bytes, inodes: set<nat>, i: Inode) returns (r: Option<seq<Entry>>)
    requires |image| == IMAGE_BYTES
    ensures r == DirectoryOf(image, inodes, i)
  {
    hide Records, TailOk, MappedBlock, Block;
    var entries: seq<Entry> := [];
    for logical := 0 to i.size / BLOCK_BYTES
      invariant Entries(image, inodes, i, logical, entries) == DirectoryOf(image, inodes, i)
    {
      var mapped := MappedBlock(i.extents, logical);
      if mapped.None? || mapped.value.1 || mapped.value.0 >= BLOCKS { return None; }
      var block := Block(image, mapped.value.0);
      if !TailOk(block, i.number, i.generation) { return None; }
      var more := ParseRecords(inodes, block, entries);
      if more.None? { return None; }
      entries := more.value;
    }
    return Some(entries);
  }

  // ---- What a parsed directory holds --------------------------------------

  /** Distinct, canonical names of allocated inodes, within the entry ceiling. */
  predicate WellFormedEntries(inodes: set<nat>, es: seq<Entry>) {
    && |es| <= MAX_DIRECTORY_ENTRIES
    && (forall i | 0 <= i < |es| :: NameOk(es[i].name) && 0 < |es[i].name| <= MAX_NAME_BYTES && es[i].inode in inodes)
    && (forall i, j | 0 <= i < j < |es| :: es[i].name != es[j].name)
  }

  lemma {:induction false} RecordsWellFormed(inodes: set<nat>, block: Bytes, at: nat, es: seq<Entry>)
    requires |block| == BLOCK_BYTES && at <= TAIL_OFFSET && WellFormedEntries(inodes, es)
    ensures var r := Records(inodes, block, at, es); r.Some? ==> WellFormedEntries(inodes, r.value)
    decreases TAIL_OFFSET - at
  {
    hide NameOk;
    if at < TAIL_OFFSET && BoundsOk(block, at) {
      var next := at + RecordBytes(block, at);
      if Field(block, at, 4) == 0 {
        RecordsWellFormed(inodes, block, next, es);
      } else if LiveOk(inodes, block, at, es) {
        var e := EntryAt(block, at);
        assert forall i | 0 <= i < |es| :: es[i].name != e.name;
        RecordsWellFormed(inodes, block, next, es + [e]);
      }
    }
  }

  lemma {:induction false} EntriesWellFormed(image: Bytes, inodes: set<nat>, i: Inode, logical: nat, es: seq<Entry>)
    requires |image| == IMAGE_BYTES && WellFormedEntries(inodes, es)
    ensures var r := Entries(image, inodes, i, logical, es); r.Some? ==> WellFormedEntries(inodes, r.value)
    decreases i.size / BLOCK_BYTES - logical
  {
    hide Records, TailOk, WellFormedEntries, MappedBlock, Block;
    if logical < i.size / BLOCK_BYTES {
      var m := MappedBlock(i.extents, logical);
      if m.Some? && !m.value.1 && m.value.0 < BLOCKS {
        var block := Block(image, m.value.0);
        RecordsWellFormed(inodes, block, 0, es);
        var more := Records(inodes, block, 0, es);
        if more.Some? { EntriesWellFormed(image, inodes, i, logical + 1, more.value); }
      }
    }
  }

  /** Every directory that parses has distinct names. */
  lemma DirectoryIsWellFormed(image: Bytes, inodes: set<nat>, i: Inode)
    requires |image| == IMAGE_BYTES && DirectoryOf(image, inodes, i).Some?
    ensures WellFormedEntries(inodes, DirectoryOf(image, inodes, i).value)
  {
    EntriesWellFormed(image, inodes, i, 0, []);
  }
}
