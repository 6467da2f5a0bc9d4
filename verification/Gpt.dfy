/** The cloud disk's GPT codec: a disk with one to sixteen partitions and the exact
    image of it, built in place and parsed independently. */
module Gpt {
  import opened ByteCodec
  import opened Crc
  import opened GptHeader

  const ALIGNMENT_SECTORS := 2048
  const MAX_DISK_BYTES := 64 * 1024 * 1024
  const MAX_PARTITIONS := 16
  const MAX_NAME := 36
  const ARRAY_AT := 2 * SECTOR_BYTES
  const USABLE_AT := FIRST_USABLE_LBA * SECTOR_BYTES

  datatype Partition = Partition(name: Bytes, typeGuid: Bytes, uniqueGuid: Bytes, first: nat, last: nat, payload: Bytes)

  datatype Disk = Disk(guid: Bytes, sectors: nat, partitions: seq<Partition>)

  // ---- Partitions ---------------------------------------------------------

  predicate Alphanumeric(c: Byte) {
    0x61 <= c <= 0x7A || 0x30 <= c <= 0x39
  }

  predicate NameChar(c: Byte) {
    Alphanumeric(c) || c == 0x5F || c == 0x2D
  }

  predicate NameOk(name: Bytes) {
    0 < |name| <= MAX_NAME && Alphanumeric(name[0]) && forall i | 0 <= i < |name| :: NameChar(name[i])
  }

  predicate GuidOk(g: Bytes) {
    |g| == 16 && !AllZero(g)
  }

  predicate PartitionOk(p: Partition) {
    GuidOk(p.typeGuid) && GuidOk(p.uniqueGuid) && NameOk(p.name) && p.first <= p.last
  }

  function NameField(name: Bytes): (b: Bytes)
    requires |name| <= MAX_NAME
    ensures |b| == 72
  {
    Wide(name) + Zeros(72 - 2 * |name|)
  }

  function EntryBytes(p: Partition): (b: Bytes)
    requires PartitionOk(p)
    ensures |b| == ENTRY_BYTES
  {
    p.typeGuid + p.uniqueGuid + LbaRange(p.first, p.last) + NameField(p.name)
  }

  function StartOf(p: Partition): (x: nat) {
    p.first * SECTOR_BYTES
  }

  function EndOf(p: Partition): (x: nat) {
    (p.last + 1) * SECTOR_BYTES
  }

  function Names(ps: seq<Partition>): (s: set<Bytes>) {
    set p | p in ps :: p.name
  }

  function Guids(ps: seq<Partition>): (s: set<Bytes>) {
    set p | p in ps :: p.uniqueGuid
  }

  function PreviousEnd(ps: seq<Partition>): (lba: nat) {
    if ps == [] then FIRST_USABLE_LBA - 1 else ps[|ps| - 1].last
  }

  /** `p` may come after the partitions `ps`. */
  predicate Joins(ps: seq<Partition>, p: Partition, lastUsable: nat) {
    && PartitionOk(p) && p.name !in Names(ps) && p.uniqueGuid !in Guids(ps)
    && p.first % ALIGNMENT_SECTORS == 0 && PreviousEnd(ps) < p.first && p.last <= lastUsable
  }

  /** Aligned, ascending, disjoint partitions with distinct names and identities. */
  predicate ListOk(ps: seq<Partition>, lastUsable: nat) {
    ps == [] || (ListOk(ps[..|ps| - 1], lastUsable) && Joins(ps[..|ps| - 1], ps[|ps| - 1], lastUsable))
  }

  predicate SizesOk(ps: seq<Partition>) {
    forall i | 0 <= i < |ps| :: |ps[i].payload| == EndOf(ps[i]) - StartOf(ps[i])
  }

  predicate SectorsOk(sectors: nat) {
    sectors * SECTOR_BYTES <= MAX_DISK_BYTES && sectors > 2 * ARRAY_SECTORS + 2
  }

  function LastUsable(sectors: nat): (lba: nat)
    requires SectorsOk(sectors)
  {
    sectors - 1 - ARRAY_SECTORS - 1
  }

  predicate Valid(d: Disk) {
    && SectorsOk(d.sectors) && GuidOk(d.guid) && 1 <= |d.partitions| <= MAX_PARTITIONS
    && ListOk(d.partitions, LastUsable(d.sectors)) && SizesOk(d.partitions)
  }

  lemma {:induction false} MemberOk(ps: seq<Partition>, lastUsable: nat, i: nat)
    requires ListOk(ps, lastUsable) && i < |ps|
    ensures PartitionOk(ps[i]) && FIRST_USABLE_LBA <= ps[i].first && ps[i].last <= lastUsable
    ensures ListOk(ps[..i], lastUsable) && Joins(ps[..i], ps[i], lastUsable)
    decreases |ps|
  {
    hide PartitionOk;
    var n := |ps| - 1;
    if i < n {
      MemberOk(ps[..n], lastUsable, i);
      assert ps[..n][..i] == ps[..i];
    }
    EndsAscend(ps[..n], lastUsable);
  }

  lemma {:induction false} EndsAscend(ps: seq<Partition>, lastUsable: nat)
    requires ListOk(ps, lastUsable)
    ensures PreviousEnd(ps) >= FIRST_USABLE_LBA - 1
  {
    hide PartitionOk;
    if ps != [] {
      EndsAscend(ps[..|ps| - 1], lastUsable);
      LastAfterFirst(ps[|ps| - 1]);
    }
  }

  lemma LastAfterFirst(p: Partition)
    requires PartitionOk(p)
    ensures p.first <= p.last
  {
  }

  /** Partitions follow each other without overlap. */
  lemma {:induction false} Apart(ps: seq<Partition>, lastUsable: nat, i: nat, j: nat)
    requires ListOk(ps, lastUsable) && i < j < |ps|
    ensures ps[i].last < ps[j].first
    decreases j
  {
    hide PartitionOk;
    MemberOk(ps, lastUsable, j);
    if i < j - 1 {
      Apart(ps, lastUsable, i, j - 1);
      MemberOk(ps, lastUsable, j - 1);
      LastAfterFirst(ps[j - 1]);
    }
  }

  lemma ListAppend(ps: seq<Partition>, p: Partition, lastUsable: nat)
    ensures ListOk(ps + [p], lastUsable) <==> ListOk(ps, lastUsable) && Joins(ps, p, lastUsable)
  {
    hide Joins;
    assert (ps + [p])[..|ps|] == ps;
  }

  // ---- The image of a disk ------------------------------------------------

  predicate SlotIs(array_: Bytes, ps: seq<Partition>, i: nat)
    requires |array_| == ARRAY_BYTES && i < ENTRY_COUNT
  {
    var slot := array_[i * ENTRY_BYTES..(i + 1) * ENTRY_BYTES];
    if i < |ps| then PartitionOk(ps[i]) && slot == EntryBytes(ps[i]) else AllZero(slot)
  }

  /** One entry for each partition, then zeros. */
  predicate ArrayIs(array_: Bytes, ps: seq<Partition>) {
    |array_| == ARRAY_BYTES && forall i | 0 <= i < ENTRY_COUNT :: SlotIs(array_, ps, i)
  }

  predicate Inside(p: Partition, x: nat) {
    StartOf(p) <= x < EndOf(p)
  }

  predicate Covered(ps: seq<Partition>, x: nat) {
    exists i | 0 <= i < |ps| :: Inside(ps[i], x)
  }

  function PrimaryHeader(d: Disk, crc: nat): (h: Header)
    requires SectorsOk(d.sectors)
  {
    Header(1, d.sectors - 1, FIRST_USABLE_LBA, LastUsable(d.sectors), d.guid, 2, crc)
  }

  function BackupHeader(d: Disk, crc: nat): (h: Header)
    requires SectorsOk(d.sectors)
  {
    Header(d.sectors - 1, 1, FIRST_USABLE_LBA, LastUsable(d.sectors), d.guid, d.sectors - 1 - ARRAY_SECTORS, crc)
  }

  function BackupArrayAt(sectors: nat): (x: nat)
    requires SectorsOk(sectors)
  {
    (sectors - 1 - ARRAY_SECTORS) * SECTOR_BYTES
  }

  function BackupHeaderAt(sectors: nat): (x: nat)
    requires SectorsOk(sectors)
  {
    (sectors - 1) * SECTOR_BYTES
  }

  /** The metadata at the front of the disk. */
  predicate FrontIs(image: Bytes, d: Disk) {
    && SectorsOk(d.sectors) && |image| == d.sectors * SECTOR_BYTES
    && image[..SECTOR_BYTES] == ProtectiveMbr(d.sectors)
    && ArrayIs(image[ARRAY_AT..USABLE_AT], d.partitions)
    && HeaderIs(image[SECTOR_BYTES..ARRAY_AT], PrimaryHeader(d, Crc32Of(image[ARRAY_AT..USABLE_AT])))
  }

  predicate BackIs(image: Bytes, d: Disk) {
    && SectorsOk(d.sectors) && |image| == d.sectors * SECTOR_BYTES
    && var crc := Crc32Of(image[ARRAY_AT..USABLE_AT]);
    && image[BackupArrayAt(d.sectors)..BackupHeaderAt(d.sectors)] == image[ARRAY_AT..USABLE_AT]
    && HeaderIs(image[BackupHeaderAt(d.sectors)..], BackupHeader(d, crc))
  }

  predicate PayloadIs(image: Bytes, p: Partition) {
    StartOf(p) <= EndOf(p) <= |image| && image[StartOf(p)..EndOf(p)] == p.payload
  }

  predicate PayloadsAre(image: Bytes, ps: seq<Partition>) {
    forall i | 0 <= i < |ps| :: PayloadIs(image, ps[i])
  }

  /** Everything from the usable area up to `end` that no partition covers is zero. */
  predicate GapsAreZero(image: Bytes, ps: seq<Partition>, end: nat)
    requires end <= |image|
  {
    forall x | USABLE_AT <= x < end && !Covered(ps, x) :: image[x] == 0
  }

  /** `image` is the canonical image of `d`. */
  predicate IsImage(image: Bytes, d: Disk) {
    && FrontIs(image, d) && BackIs(image, d)
    && PayloadsAre(image, d.partitions) && GapsAreZero(image, d.partitions, BackupArrayAt(d.sectors))
  }

  lemma ArrayUnique(a: Bytes, b: Bytes, ps: seq<Partition>)
    requires ArrayIs(a, ps) && ArrayIs(b, ps)
    ensures a == b
  {
    hide EntryBytes, PartitionOk;
    forall x | 0 <= x < ARRAY_BYTES ensures a[x] == b[x] {
      var i, k := x / ENTRY_BYTES, x % ENTRY_BYTES;
      assert SlotIs(a, ps, i) && SlotIs(b, ps, i);
      assert a[x] == a[i * ENTRY_BYTES..(i + 1) * ENTRY_BYTES][k];
      assert b[x] == b[i * ENTRY_BYTES..(i + 1) * ENTRY_BYTES][k];
    }
  }

  lemma FrontUnique(a: Bytes, b: Bytes, d: Disk)
    requires FrontIs(a, d) && FrontIs(b, d)
    ensures a[..USABLE_AT] == b[..USABLE_AT]
  {
    hide HeaderIs, ArrayIs, Crc32Of, ProtectiveMbr;
    ArrayUnique(a[ARRAY_AT..USABLE_AT], b[ARRAY_AT..USABLE_AT], d.partitions);
    HeaderSectorUnique(a[SECTOR_BYTES..ARRAY_AT], b[SECTOR_BYTES..ARRAY_AT],
                       PrimaryHeader(d, Crc32Of(a[ARRAY_AT..USABLE_AT])));
    assert a[..USABLE_AT] == a[..SECTOR_BYTES] + a[SECTOR_BYTES..ARRAY_AT] + a[ARRAY_AT..USABLE_AT];
    assert b[..USABLE_AT] == b[..SECTOR_BYTES] + b[SECTOR_BYTES..ARRAY_AT] + b[ARRAY_AT..USABLE_AT];
  }

  lemma BackUnique(a: Bytes, b: Bytes, d: Disk)
    requires BackIs(a, d) && BackIs(b, d) && a[ARRAY_AT..USABLE_AT] == b[ARRAY_AT..USABLE_AT]
    ensures a[BackupArrayAt(d.sectors)..] == b[BackupArrayAt(d.sectors)..]
  {
    hide HeaderIs, Crc32Of;
    var at, end := BackupArrayAt(d.sectors), BackupHeaderAt(d.sectors);
    HeaderSectorUnique(a[end..], b[end..], BackupHeader(d, Crc32Of(a[ARRAY_AT..USABLE_AT])));
    assert a[at..] == a[at..end] + a[end..] && b[at..] == b[at..end] + b[end..];
  }

  /** A disk has exactly one image. */
  lemma ImageUnique(a: Bytes, b: Bytes, d: Disk)
    requires Valid(d) && IsImage(a, d) && IsImage(b, d)
    ensures a == b
  {
    hide FrontIs, BackIs, Valid, SlotIs;
    FrontUnique(a, b, d);
    ImageLength(a, d);
    ImageLength(b, d);
    assert a[ARRAY_AT..USABLE_AT] == a[..USABLE_AT][ARRAY_AT..] && b[ARRAY_AT..USABLE_AT] == b[..USABLE_AT][ARRAY_AT..];
    BackUnique(a, b, d);
    var end := BackupArrayAt(d.sectors);
    forall x | 0 <= x < |a| ensures a[x] == b[x] {
      if x < USABLE_AT {
        assert a[x] == a[..USABLE_AT][x] && b[x] == b[..USABLE_AT][x];
      } else if x >= end {
        assert a[x] == a[end..][x - end] && b[x] == b[end..][x - end];
      } else if Covered(d.partitions, x) {
        var i :| 0 <= i < |d.partitions| && Inside(d.partitions[i], x);
        var p := d.partitions[i];
        assert PayloadIs(a, p) && PayloadIs(b, p);
        assert a[x] == a[StartOf(p)..EndOf(p)][x - StartOf(p)] && b[x] == b[StartOf(p)..EndOf(p)][x - StartOf(p)];
      }
    }
  }

  lemma ImageLength(image: Bytes, d: Disk)
    requires FrontIs(image, d)
    ensures SectorsOk(d.sectors) && |image| == d.sectors * SECTOR_BYTES && |image| > USABLE_AT
  {
  }
}
