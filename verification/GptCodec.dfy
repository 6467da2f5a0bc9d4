/** Building and parsing GPT disks: the two are inverse over every byte of the image. */
module GptCodec {
  import opened ByteCodec
  import opened Crc
  import opened GptHeader
  import opened Gpt
  import S = Struct

  // ---- Building -----------------------------------------------------------

  lemma NoEntries(array_: Bytes)
    requires |array_| == ARRAY_BYTES && AllZero(array_)
    ensures ArrayIs(array_, [])
  {
  }

  lemma EntryPlaced(array_: Bytes, ps: seq<Partition>, p: Partition)
    requires ArrayIs(array_, ps) && |ps| < ENTRY_COUNT && PartitionOk(p)
    ensures ArrayIs(Patch(array_, |ps| * ENTRY_BYTES, EntryBytes(p)), ps + [p])
  {
    hide EntryBytes, PartitionOk, Patch;
    var n, all := |ps|, ps + [p];
    var after := Patch(array_, n * ENTRY_BYTES, EntryBytes(p));
    forall i | 0 <= i < ENTRY_COUNT ensures SlotIs(after, all, i) {
      assert SlotIs(array_, ps, i);
      if i != n {
        assert i < n ==> i * ENTRY_BYTES + ENTRY_BYTES <= n * ENTRY_BYTES;
        assert i > n ==> n * ENTRY_BYTES + ENTRY_BYTES <= i * ENTRY_BYTES;
        assert after[i * ENTRY_BYTES..(i + 1) * ENTRY_BYTES] == array_[i * ENTRY_BYTES..(i + 1) * ENTRY_BYTES];
      }
    }
  }

  lemma SetsGrow(ps: seq<Partition>, p: Partition)
    ensures Names(ps + [p]) == Names(ps) + {p.name} && Guids(ps + [p]) == Guids(ps) + {p.uniqueGuid}
    ensures PreviousEnd(ps + [p]) == p.last
  {
    forall q | q in ps ensures q in ps + [p] {}
    assert p in ps + [p];
  }

  lemma NoSets()
    ensures Names([]) == {} && Guids([]) == {} && PreviousEnd([]) == FIRST_USABLE_LBA - 1
  {
  }

  lemma NothingOk(lastUsable: nat)
    ensures ListOk([], lastUsable)
  {
  }

  method BuildArray(ps: seq<Partition>, lastUsable: nat) returns (r: Option<Bytes>)
    requires |ps| <= MAX_PARTITIONS
    ensures r.Some? <==> ListOk(ps, lastUsable) && SizesOk(ps)
    ensures r.Some? ==> ArrayIs(r.value, ps)
  {
    hide ArrayIs, EntryBytes, PartitionOk, Patch, StartOf, EndOf, Names, Guids, PreviousEnd, ListOk;
    NoSets();
    NothingOk(lastUsable);
    var names: set<Bytes>, identities: set<Bytes>, previousEnd := {}, {}, FIRST_USABLE_LBA - 1;
    var entries := new Byte[ARRAY_BYTES](_ => 0);
    NoEntries(entries[..]);
    for i := 0 to |ps|
      invariant names == Names(ps[..i]) && identities == Guids(ps[..i]) && previousEnd == PreviousEnd(ps[..i])
      invariant ListOk(ps[..i], lastUsable) && SizesOk(ps[..i]) && ArrayIs(entries[..], ps[..i])
    {
      var p := ps[i];
      if ListOk(ps, lastUsable) { MemberOk(ps, lastUsable, i); }
      if p.name in names || p.uniqueGuid in identities || p.first % ALIGNMENT_SECTORS != 0 || p.first <= previousEnd
         || p.last > lastUsable || |p.payload| != EndOf(p) - StartOf(p) || !PartitionOk(p) {
        return None;
      }
      ListAppend(ps[..i], p, lastUsable);
      EntryPlaced(entries[..], ps[..i], p);
      SetsGrow(ps[..i], p);
      assert ps[..i + 1] == ps[..i] + [p];
      names, identities, previousEnd := names + {p.name}, identities + {p.uniqueGuid}, p.last;
      Blit(entries, i * ENTRY_BYTES, EntryBytes(p));
    }
    assert ps[..|ps|] == ps;
    return Some(entries[..]);
  }

  /** The front of the disk and its first `k` payloads are in place, the rest is zero. */
  ghost predicate Stage(image: Bytes, d: Disk, k: nat) {
    && k <= |d.partitions| && FrontIs(image, d) && PayloadsAre(image, d.partitions[..k])
    && forall x | USABLE_AT <= x < |image| && !Covered(d.partitions[..k], x) :: image[x] == 0
  }

  lemma FrontLaid(image: Bytes, d: Disk, header: Bytes, array_: Bytes)
    requires SectorsOk(d.sectors) && |image| == d.sectors * SECTOR_BYTES && AllZero(image)
    requires ArrayIs(array_, d.partitions) && HeaderIs(header, PrimaryHeader(d, Crc32Of(array_)))
    ensures Stage(Patch(Patch(Patch(image, 0, ProtectiveMbr(d.sectors)), SECTOR_BYTES, header), ARRAY_AT, array_), d, 0)
  {
    hide HeaderIs, Crc32Of, ProtectiveMbr, Patch, SlotIs, PrimaryHeader;
    HeaderLength(header, PrimaryHeader(d, Crc32Of(array_)));
    var a := Patch(image, 0, ProtectiveMbr(d.sectors));
    var b := Patch(a, SECTOR_BYTES, header);
    var c := Patch(b, ARRAY_AT, array_);
    assert c[..SECTOR_BYTES] == a[0..SECTOR_BYTES] && c[SECTOR_BYTES..ARRAY_AT] == b[SECTOR_BYTES..ARRAY_AT];
    assert c[ARRAY_AT..USABLE_AT] == array_;
  }

  lemma HeaderLength(sector: Bytes, h: Header)
    requires HeaderIs(sector, h)
    ensures |sector| == SECTOR_BYTES
  {
  }

  lemma FrontKept(image: Bytes, d: Disk, at: nat, v: Bytes)
    requires FrontIs(image, d) && at >= USABLE_AT && at + |v| <= |image|
    ensures FrontIs(Patch(image, at, v), d)
  {
    hide HeaderIs, Crc32Of, ProtectiveMbr, Patch, ArrayIs, PrimaryHeader;
    var after := Patch(image, at, v);
    assert after[..SECTOR_BYTES] == image[..SECTOR_BYTES]
           && after[SECTOR_BYTES..ARRAY_AT] == image[SECTOR_BYTES..ARRAY_AT];
    assert after[ARRAY_AT..USABLE_AT] == image[ARRAY_AT..USABLE_AT];
  }

  lemma PayloadKept(image: Bytes, p: Partition, at: nat, v: Bytes)
    requires PayloadIs(image, p) && at + |v| <= |image| && (EndOf(p) <= at || at + |v| <= StartOf(p))
    ensures PayloadIs(Patch(image, at, v), p)
  {
    hide Patch, StartOf, EndOf;
    assert Patch(image, at, v)[StartOf(p)..EndOf(p)] == image[StartOf(p)..EndOf(p)];
  }

  /** Where a partition of a valid disk lies. */
  lemma Location(d: Disk, k: nat)
    requires Valid(d) && k < |d.partitions|
    ensures USABLE_AT <= StartOf(d.partitions[k]) < EndOf(d.partitions[k]) <= BackupArrayAt(d.sectors)
    ensures |d.partitions[k].payload| == EndOf(d.partitions[k]) - StartOf(d.partitions[k])
  {
    hide Joins, ListOk;
    MemberOk(d.partitions, LastUsable(d.sectors), k);
  }

  lemma PayloadPlaced(image: Bytes, d: Disk, k: nat)
    requires Valid(d) && Stage(image, d, k) && k < |d.partitions|
    ensures StartOf(d.partitions[k]) + |d.partitions[k].payload| <= |image|
    ensures Stage(Patch(image, StartOf(d.partitions[k]), d.partitions[k].payload), d, k + 1)
  {
    hide FrontIs, Valid, Patch, StartOf, EndOf;
    var ps, p := d.partitions, d.partitions[k];
    Location(d, k);
    ImageLength(image, d);
    BackupInside(d.sectors);
    FrontKept(image, d, StartOf(p), p.payload);
    var after := Patch(image, StartOf(p), p.payload);
    var placed := ps[..k + 1];
    assert placed == ps[..k] + [p];
    forall i | 0 <= i < k + 1 ensures PayloadIs(after, placed[i]) {
      if i < k {
        ApartBytes(d, i, k);
        assert ps[..k][i] == ps[i];
        PayloadKept(image, ps[i], StartOf(p), p.payload);
      }
    }
    forall x | USABLE_AT <= x < |after| && !Covered(placed, x) ensures after[x] == 0 {
      assert !Inside(placed[k], x);
      CoveredByMore(ps[..k], p, x);
    }
  }

  lemma CoveredByMore(ps: seq<Partition>, p: Partition, x: nat)
    ensures Covered(ps, x) ==> Covered(ps + [p], x)
  {
    if Covered(ps, x) {
      var i :| 0 <= i < |ps| && Inside(ps[i], x);
      assert Inside((ps + [p])[i], x);
    }
  }

  lemma ApartBytes(d: Disk, i: nat, j: nat)
    requires Valid(d) && i < j < |d.partitions|
    ensures EndOf(d.partitions[i]) <= StartOf(d.partitions[j])
  {
    hide Joins, ListOk;
    Apart(d.partitions, LastUsable(d.sectors), i, j);
  }

  lemma BackupInside(sectors: nat)
    requires SectorsOk(sectors)
    ensures USABLE_AT <= BackupArrayAt(sectors) && BackupArrayAt(sectors) + ARRAY_BYTES == BackupHeaderAt(sectors)
    ensures BackupHeaderAt(sectors) + SECTOR_BYTES == sectors * SECTOR_BYTES
  {
  }

  lemma BackLaid(image: Bytes, d: Disk, header: Bytes, array_: Bytes)
    requires Valid(d) && Stage(image, d, |d.partitions|) && array_ == image[ARRAY_AT..USABLE_AT]
    requires HeaderIs(header, BackupHeader(d, Crc32Of(array_)))
    ensures |header| == SECTOR_BYTES && BackupHeaderAt(d.sectors) + SECTOR_BYTES == |image|
    ensures BackupArrayAt(d.sectors) + ARRAY_BYTES == BackupHeaderAt(d.sectors)
    ensures IsImage(Patch(Patch(image, BackupArrayAt(d.sectors), array_), BackupHeaderAt(d.sectors), header), d)
  {
    hide HeaderIs, Crc32Of, Patch, FrontIs, Valid, StartOf, EndOf, BackupHeader;
    ImageLength(image, d);
    var at, end, ps := BackupArrayAt(d.sectors), BackupHeaderAt(d.sectors), d.partitions;
    BackupInside(d.sectors);
    HeaderLength(header, BackupHeader(d, Crc32Of(array_)));
    var b := Patch(image, at, array_);
    var c := Patch(b, end, header);
    FrontKept(image, d, at, array_);
    FrontKept(b, d, end, header);
    assert ps[..|ps|] == ps;
    forall i | 0 <= i < |ps| ensures PayloadIs(c, ps[i]) {
      Location(d, i);
      PayloadKept(image, ps[i], at, array_);
      PayloadKept(b, ps[i], end, header);
    }
    assert c[ARRAY_AT..USABLE_AT] == image[ARRAY_AT..USABLE_AT];
    assert c[at..end] == b[at..at + ARRAY_BYTES] && c[end..] == c[end..end + SECTOR_BYTES];
    assert GapsAreZero(c, ps, at);
  }

  lemma HeadersFit(d: Disk, crc: nat)
    requires Valid(d) && crc < U32
    ensures HeaderFits(PrimaryHeader(d, crc)) && HeaderFits(BackupHeader(d, crc))
    ensures HeaderPlausible(PrimaryHeader(d, crc), 1, d.sectors)
    ensures HeaderPlausible(BackupHeader(d, crc), d.sectors - 1, d.sectors)
  {
  }

  /** The image of every valid disk; anything else is refused. */
  method BuildGpt(d: Disk) returns (r: Option<Bytes>)
    ensures r.Some? <==> Valid(d)
    ensures r.Some? ==> IsImage(r.value, d)
  {
    hide ListOk, SizesOk, ArrayIs, IsImage, Stage, HeaderIs, Crc32Of, ProtectiveMbr, Patch, StartOf, PrimaryHeader,
         BackupHeader;
    hide HeaderFits, HeaderPlausible;
    if !SectorsOk(d.sectors) || d.partitions == [] || |d.partitions| > MAX_PARTITIONS { return None; }
    var entries := BuildArray(d.partitions, LastUsable(d.sectors));
    if entries.None? || !GuidOk(d.guid) { return None; }
    var array_ := entries.value;
    ArrayLength(array_, d.partitions);
    var crc := Crc32Of(array_);
    Crc32Bound(array_);
    HeadersFit(d, crc);
    var primary := BuildHeader(PrimaryHeader(d, crc));
    var backup := BuildHeader(BackupHeader(d, crc));
    var image := new Byte[d.sectors * SECTOR_BYTES](_ => 0);
    FrontLaid(image[..], d, primary.value, array_);
    HeaderLength(primary.value, PrimaryHeader(d, crc));
    Blit(image, 0, ProtectiveMbr(d.sectors));
    Blit(image, SECTOR_BYTES, primary.value);
    Blit(image, ARRAY_AT, array_);
    for k := 0 to |d.partitions|
      invariant Stage(image[..], d, k)
    {
      PayloadPlaced(image[..], d, k);
      Blit(image, StartOf(d.partitions[k]), d.partitions[k].payload);
    }
    StageArray(image[..], d, |d.partitions|, array_);
    BackLaid(image[..], d, backup.value, array_);
    Blit(image, BackupArrayAt(d.sectors), array_);
    Blit(image, BackupHeaderAt(d.sectors), backup.value);
    var parsed := ParseGpt(image[..]);
    assert Decodes(image[..], d) && parsed == Some(d);
    return Some(image[..]);
  }

  lemma ArrayLength(array_: Bytes, ps: seq<Partition>)
    requires ArrayIs(array_, ps)
    ensures |array_| == ARRAY_BYTES
  {
  }

  lemma StageArray(image: Bytes, d: Disk, k: nat, array_: Bytes)
    requires Stage(image, d, k) && ArrayIs(array_, d.partitions)
    ensures array_ == image[ARRAY_AT..USABLE_AT]
  {
    hide SlotIs, HeaderIs, Crc32Of;
    ArrayUnique(array_, image[ARRAY_AT..USABLE_AT], d.partitions);
  }

  // ---- Parsing ------------------------------------------------------------

  ghost predicate Decodes(image: Bytes, d: Disk) {
    Valid(d) && IsImage(image, d)
  }

  /** The low bytes of the code units before the first zero unit. */
  function NameOf(raw: Bytes): (name: Bytes) {
    if |raw| < 2 || (raw[0] == 0 && raw[1] == 0) then [] else [raw[0]] + NameOf(raw[2..])
  }

  lemma {:induction false} NameOfWide(name: Bytes, zeros: nat)
    requires 0 !in name
    ensures NameOf(Wide(name) + Zeros(zeros)) == name
  {
    if name == [] {
      assert Wide(name) + Zeros(zeros) == Zeros(zeros);
    } else {
      NameOfWide(name[1..], zeros);
      var all := Wide(name) + Zeros(zeros);
      assert all[2..] == Wide(name[1..]) + Zeros(zeros);
      assert all[0] == name[0];
    }
  }

  lemma EntryParts(p: Partition)
    requires PartitionOk(p) && p.first < U64 && p.last < U64
    ensures S.Size([8, 8, 8]) == 24
    ensures var e := EntryBytes(p);
            && e[..16] == p.typeGuid && e[16..32] == p.uniqueGuid && NameOf(e[56..]) == p.name
            && S.UnpackFrom([8, 8, 8], e, 32) == [p.first, p.last, 0] && !AllZero(e)
  {
    hide S.Pack, S.Unpack;
    S.Sizes(8, 8, 8, 0, 0, 0);
    Widths();
    var e, v: seq<nat> := EntryBytes(p), [p.first, p.last, 0];
    assert e[..16] == p.typeGuid && e[16..32] == p.uniqueGuid && e[32..56] == LbaRange(p.first, p.last);
    assert e[56..] == NameField(p.name);
    S.SliceIsPacked([8, 8, 8], e, 32, v);
    assert 0 !in p.name;
    NameOfWide(p.name, 72 - 2 * |p.name|);
    var i :| 0 <= i < 16 && p.typeGuid[i] != 0;
    assert e[i] == e[..16][i];
  }

  /** One live entry with the payload it names; none unless it may follow `ps` and is canonical. */
  method DecodeEntry(image: Bytes, entry: Bytes, ps: seq<Partition>, names: set<Bytes>, identities: set<Bytes>,
                     previousEnd: nat, lastUsable: nat) returns (r: Option<Partition>)
    requires |entry| == ENTRY_BYTES && (lastUsable + 1) * SECTOR_BYTES <= |image| && lastUsable < U64
    requires names == Names(ps) && identities == Guids(ps) && previousEnd == PreviousEnd(ps)
    ensures r.Some? ==> Joins(ps, r.value, lastUsable) && entry == EntryBytes(r.value) && PayloadIs(image, r.value)
    ensures forall p | Joins(ps, p, lastUsable) && entry == EntryBytes(p) && PayloadIs(image, p) :: r == Some(p)
  {
    hide S.UnpackFrom, EntryBytes, NameOf, Names, Guids;
    S.Sizes(8, 8, 8, 0, 0, 0);
    var typeGuid, uniqueGuid, name := entry[..16], entry[16..32], NameOf(entry[56..]);
    var lbas := S.UnpackFrom([8, 8, 8], entry, 32);
    forall p | Joins(ps, p, lastUsable) && entry == EntryBytes(p)
      ensures typeGuid == p.typeGuid && uniqueGuid == p.uniqueGuid && name == p.name && lbas == [p.first, p.last, 0]
    {
      EntryParts(p);
    }
    var first, last := lbas[0], lbas[1];
    if AllZero(typeGuid) || AllZero(uniqueGuid) || lbas[2] != 0 || !NameOk(name) || name in names
       || uniqueGuid in identities || first % ALIGNMENT_SECTORS != 0 || first <= previousEnd || last < first
       || last > lastUsable {
      return None;
    }
    var p := Partition(name, typeGuid, uniqueGuid, first, last, []);
    p := p.(payload := image[StartOf(p)..EndOf(p)]);
    if entry != EntryBytes(p) { return None; }
    return Some(p);
  }

  function EntryOf(array_: Bytes, i: nat): (b: Bytes)
    requires |array_| == ARRAY_BYTES && i < ENTRY_COUNT
    ensures |b| == ENTRY_BYTES
  {
    array_[i * ENTRY_BYTES..(i + 1) * ENTRY_BYTES]
  }

  /** The partitions are those of the first `index` entries. */
  ghost predicate Listed(image: Bytes, array_: Bytes, index: nat, ps: seq<Partition>, seenEmpty: bool,
                         lastUsable: nat) {
    && |array_| == ARRAY_BYTES && |ps| <= index <= ENTRY_COUNT && |ps| <= MAX_PARTITIONS
    && (!seenEmpty ==> |ps| == index)
    && ListOk(ps, lastUsable) && PayloadsAre(image, ps)
    && forall i | 0 <= i < index :: SlotIs(array_, ps, i)
  }

  /** Every disk with this image starts with these partitions. */
  ghost predicate Agrees(image: Bytes, index: nat, ps: seq<Partition>, seenEmpty: bool) {
    forall d | Decodes(image, d) ::
      ps == d.partitions[..Min(index, |d.partitions|)] && (seenEmpty ==> index > |d.partitions|)
  }

  lemma SkipEmpty(image: Bytes, array_: Bytes, index: nat, ps: seq<Partition>, seenEmpty: bool, lastUsable: nat)
    requires Listed(image, array_, index, ps, seenEmpty, lastUsable) && index < ENTRY_COUNT
    requires AllZero(EntryOf(array_, index))
    ensures Listed(image, array_, index + 1, ps, true, lastUsable)
  {
    hide ListOk, EntryBytes, PartitionOk;
    assert SlotIs(array_, ps, index);
  }

  lemma TakeEntry(image: Bytes, array_: Bytes, index: nat, ps: seq<Partition>, p: Partition, lastUsable: nat)
    requires Listed(image, array_, index, ps, false, lastUsable) && index < MAX_PARTITIONS
    requires Joins(ps, p, lastUsable) && EntryOf(array_, index) == EntryBytes(p) && PayloadIs(image, p)
    ensures Listed(image, array_, index + 1, ps + [p], false, lastUsable)
  {
    hide ListOk, EntryBytes, PayloadIs;
    ListAppend(ps, p, lastUsable);
    forall i | 0 <= i < index + 1 ensures SlotIs(array_, ps + [p], i) {
      if i < index { assert SlotIs(array_, ps, i); }
    }
  }

  /** What an entry must be, for any disk with this image. */
  lemma EntryExpected(image: Bytes, array_: Bytes, d: Disk, index: nat)
    requires Decodes(image, d) && |image| > USABLE_AT && array_ == image[ARRAY_AT..USABLE_AT] && index < ENTRY_COUNT
    ensures index >= |d.partitions| ==> AllZero(EntryOf(array_, index))
    ensures index < |d.partitions| ==>
              && Joins(d.partitions[..index], d.partitions[index], LastUsable(d.sectors))
              && EntryOf(array_, index) == EntryBytes(d.partitions[index]) && !AllZero(EntryOf(array_, index))
              && PayloadIs(image, d.partitions[index])
  {
    hide EntryBytes, PayloadIs, HeaderIs, ListOk, Crc32Of;
    assert SlotIs(array_, d.partitions, index);
    if index < |d.partitions| {
      MemberOk(d.partitions, LastUsable(d.sectors), index);
      EntryParts(d.partitions[index]);
    }
  }

  lemma AgreesEmpty(image: Bytes, array_: Bytes, index: nat, ps: seq<Partition>, seenEmpty: bool)
    requires Agrees(image, index, ps, seenEmpty) && index < ENTRY_COUNT
    requires |image| > USABLE_AT && array_ == image[ARRAY_AT..USABLE_AT] && AllZero(EntryOf(array_, index))
    ensures Agrees(image, index + 1, ps, true)
  {
    hide Decodes, Joins, PayloadIs, EntryBytes;
    forall d | Decodes(image, d)
      ensures ps == d.partitions[..Min(index + 1, |d.partitions|)] && index + 1 > |d.partitions|
    {
      EntryExpected(image, array_, d, index);
    }
  }

  lemma AgreesTake(image: Bytes, array_: Bytes, index: nat, ps: seq<Partition>, seenEmpty: bool, sectors: nat,
                   next: Option<Partition>)
    requires Agrees(image, index, ps, seenEmpty) && index < ENTRY_COUNT && SectorsOk(sectors)
    requires |image| == sectors * SECTOR_BYTES && |image| > USABLE_AT
    requires array_ == image[ARRAY_AT..USABLE_AT] && !AllZero(EntryOf(array_, index))
    requires forall p | Joins(ps, p, LastUsable(sectors)) && EntryOf(array_, index) == EntryBytes(p)
                        && PayloadIs(image, p) ::
               next == Some(p)
    ensures (exists d :: Decodes(image, d)) ==> !seenEmpty && |ps| < MAX_PARTITIONS && next.Some?
    ensures next.Some? ==> Agrees(image, index + 1, ps + [next.value], seenEmpty)
  {
    hide Joins, PayloadIs, EntryBytes, Decodes;
    forall d | Decodes(image, d)
      ensures !seenEmpty && |ps| < MAX_PARTITIONS && next.Some?
      ensures ps + [next.value] == d.partitions[..Min(index + 1, |d.partitions|)]
    {
      DecodedSize(image, d);
      EntryExpected(image, array_, d, index);
    }
  }

  lemma DecodedSize(image: Bytes, d: Disk)
    requires Decodes(image, d)
    ensures SectorsOk(d.sectors) && |image| == d.sectors * SECTOR_BYTES && 1 <= |d.partitions| <= MAX_PARTITIONS
  {
  }

  method ParseEntries(image: Bytes, array_: Bytes, sectors: nat) returns (r: Option<seq<Partition>>)
    requires SectorsOk(sectors) && |image| == sectors * SECTOR_BYTES && |image| > USABLE_AT
    requires array_ == image[ARRAY_AT..USABLE_AT]
    ensures r.Some? ==> ListOk(r.value, LastUsable(sectors)) && PayloadsAre(image, r.value) && ArrayIs(array_, r.value)
    ensures r.Some? ==> 1 <= |r.value| <= MAX_PARTITIONS
    ensures forall d | Decodes(image, d) :: r == Some(d.partitions)
  {
    hide Listed, Agrees, Decodes, ListOk, PayloadIs, EntryBytes, Joins, SlotIs;
    var lastUsable := LastUsable(sectors);
    var ps: seq<Partition>, seenEmpty := [], false;
    var names: set<Bytes>, identities: set<Bytes>, previousEnd := {}, {}, FIRST_USABLE_LBA - 1;
    NothingListed(image, array_, lastUsable);
    for index := 0 to ENTRY_COUNT
      invariant Listed(image, array_, index, ps, seenEmpty, lastUsable) && Agrees(image, index, ps, seenEmpty)
      invariant names == Names(ps) && identities == Guids(ps) && previousEnd == PreviousEnd(ps)
    {
      var entry := EntryOf(array_, index);
      if AllZero(entry) {
        SkipEmpty(image, array_, index, ps, seenEmpty, lastUsable);
        AgreesEmpty(image, array_, index, ps, seenEmpty);
        seenEmpty := true;
        continue;
      }
      var next := DecodeEntry(image, entry, ps, names, identities, previousEnd, lastUsable);
      AgreesTake(image, array_, index, ps, seenEmpty, sectors, next);
      if seenEmpty || |ps| >= MAX_PARTITIONS || next.None? { return None; }
      var p := next.value;
      ListedBounds(image, array_, index, ps, seenEmpty, lastUsable);
      TakeEntry(image, array_, index, ps, p, lastUsable);
      ps, names, identities, previousEnd := ps + [p], names + {p.name}, identities + {p.uniqueGuid}, p.last;
    }
    AgreesEnd(image, ps, seenEmpty);
    ListedEnd(image, array_, ps, seenEmpty, lastUsable);
    if ps == [] { return None; }
    return Some(ps);
  }

  lemma NothingListed(image: Bytes, array_: Bytes, lastUsable: nat)
    requires |array_| == ARRAY_BYTES
    ensures Listed(image, array_, 0, [], false, lastUsable) && Agrees(image, 0, [], false)
  {
    hide Decodes;
  }

  lemma ListedBounds(image: Bytes, array_: Bytes, index: nat, ps: seq<Partition>, seenEmpty: bool, lastUsable: nat)
    requires Listed(image, array_, index, ps, seenEmpty, lastUsable)
    ensures !seenEmpty ==> |ps| == index
  {
  }

  lemma ListedEnd(image: Bytes, array_: Bytes, ps: seq<Partition>, seenEmpty: bool, lastUsable: nat)
    requires Listed(image, array_, ENTRY_COUNT, ps, seenEmpty, lastUsable)
    ensures ListOk(ps, lastUsable) && PayloadsAre(image, ps) && ArrayIs(array_, ps) && |ps| <= MAX_PARTITIONS
  {
  }

  lemma AgreesEnd(image: Bytes, ps: seq<Partition>, seenEmpty: bool)
    requires Agrees(image, ENTRY_COUNT, ps, seenEmpty)
    ensures forall d | Decodes(image, d) :: ps == d.partitions && ps != []
  {
    hide Decodes;
    forall d | Decodes(image, d) ensures ps == d.partitions && ps != [] {
      DecodedSize(image, d);
      assert d.partitions[..|d.partitions|] == d.partitions;
    }
  }

  // ---- Unused sectors -----------------------------------------------------

  function CursorAfter(ps: seq<Partition>, k: nat): (x: nat)
    requires k <= |ps|
  {
    if k == 0 then USABLE_AT else EndOf(ps[k - 1])
  }

  /** Between two partitions nothing is covered. */
  lemma GapUncovered(ps: seq<Partition>, lastUsable: nat, k: nat, x: nat)
    requires ListOk(ps, lastUsable) && k <= |ps| && CursorAfter(ps, k) <= x && (k < |ps| ==> x < StartOf(ps[k]))
    ensures !Covered(ps, x)
  {
    hide ListOk, Joins, PartitionOk;
    forall i | 0 <= i < |ps| ensures !Inside(ps[i], x) {
      if i < k - 1 { Apart(ps, lastUsable, i, k - 1); MemberOk(ps, lastUsable, k - 1); LastAfterFirst(ps[k - 1]); }
      if i > k { Apart(ps, lastUsable, k, i); MemberOk(ps, lastUsable, k); LastAfterFirst(ps[k]); }
    }
  }

  lemma CursorBounds(ps: seq<Partition>, lastUsable: nat, k: nat)
    requires ListOk(ps, lastUsable) && k <= |ps| && lastUsable >= FIRST_USABLE_LBA - 1
    ensures USABLE_AT <= CursorAfter(ps, k) <= (lastUsable + 1) * SECTOR_BYTES
    ensures k < |ps| ==> CursorAfter(ps, k) <= StartOf(ps[k]) && EndOf(ps[k]) <= (lastUsable + 1) * SECTOR_BYTES
  {
    hide ListOk, PartitionOk, Joins;
    if k > 0 {
      MemberOk(ps, lastUsable, k - 1);
      LastAfterFirst(ps[k - 1]);
      if k < |ps| { Apart(ps, lastUsable, k - 1, k); }
    }
    if k < |ps| { MemberOk(ps, lastUsable, k); }
  }

  /** A zero gap extends what is known to be zero up to the end of the next partition. */
  lemma GapStep(image: Bytes, ps: seq<Partition>, lastUsable: nat, k: nat, cursor: nat, start: nat, end: nat)
    requires ListOk(ps, lastUsable) && k <= |ps| && cursor == CursorAfter(ps, k) <= start <= end <= |image|
    requires k < |ps| ==> start == StartOf(ps[k]) && end == EndOf(ps[k])
    requires k == |ps| ==> end == start
    ensures GapsAreZero(image, ps, cursor) && AllZero(image[cursor..start]) ==> GapsAreZero(image, ps, end)
    ensures GapsAreZero(image, ps, end) && cursor >= USABLE_AT ==> AllZero(image[cursor..start])
  {
    hide ListOk;
    forall x | start <= x < end ensures Covered(ps, x) { assert Inside(ps[k], x); }
    if GapsAreZero(image, ps, cursor) && AllZero(image[cursor..start]) {
      forall x | USABLE_AT <= x < end && !Covered(ps, x) ensures image[x] == 0 {
        if cursor <= x { assert image[x] == image[cursor..start][x - cursor]; }
      }
    }
    if GapsAreZero(image, ps, end) && cursor >= USABLE_AT {
      forall x | cursor <= x < start ensures image[x] == 0 { GapUncovered(ps, lastUsable, k, x); }
    }
  }

  method CheckGaps(image: Bytes, ps: seq<Partition>, lastUsable: nat) returns (ok: bool)
    requires ListOk(ps, lastUsable) && lastUsable >= FIRST_USABLE_LBA - 1 && (lastUsable + 1) * SECTOR_BYTES <= |image|
    ensures ok <==> GapsAreZero(image, ps, (lastUsable + 1) * SECTOR_BYTES)
  {
    hide ListOk, Covered, StartOf, EndOf;
    var cursor := USABLE_AT;
    for k := 0 to |ps|
      invariant cursor == CursorAfter(ps, k) && cursor <= |image| && GapsAreZero(image, ps, cursor)
    {
      CursorBounds(ps, lastUsable, k);
      CursorBounds(ps, lastUsable, k + 1);
      var start := StartOf(ps[k]);
      StartBeforeEnd(ps, lastUsable, k);
      GapStep(image, ps, lastUsable, k, cursor, start, EndOf(ps[k]));
      if !AllZero(image[cursor..start]) { return false; }
      cursor := EndOf(ps[k]);
    }
    CursorBounds(ps, lastUsable, |ps|);
    var end := (lastUsable + 1) * SECTOR_BYTES;
    GapStep(image, ps, lastUsable, |ps|, cursor, end, end);
    return AllZero(image[cursor..end]);
  }

  lemma StartBeforeEnd(ps: seq<Partition>, lastUsable: nat, k: nat)
    requires ListOk(ps, lastUsable) && k < |ps|
    ensures StartOf(ps[k]) <= EndOf(ps[k])
  {
    hide ListOk;
    MemberOk(ps, lastUsable, k);
  }

  // ---- The parser ---------------------------------------------------------

  lemma DecodedHeaders(image: Bytes, d: Disk)
    requires Decodes(image, d)
    ensures SectorsOk(d.sectors) && |image| == d.sectors * SECTOR_BYTES
            && image[..SECTOR_BYTES] == ProtectiveMbr(d.sectors)
    ensures var crc := Crc32Of(image[ARRAY_AT..USABLE_AT]);
            && HeaderFits(PrimaryHeader(d, crc)) && HeaderPlausible(PrimaryHeader(d, crc), 1, d.sectors)
            && HeaderFits(BackupHeader(d, crc)) && HeaderPlausible(BackupHeader(d, crc), d.sectors - 1, d.sectors)
            && HeaderIs(image[SECTOR_BYTES..ARRAY_AT], PrimaryHeader(d, crc))
            && HeaderIs(image[BackupHeaderAt(d.sectors)..], BackupHeader(d, crc))
            && image[BackupArrayAt(d.sectors)..BackupHeaderAt(d.sectors)] == image[ARRAY_AT..USABLE_AT]
            && GapsAreZero(image, d.partitions, BackupArrayAt(d.sectors))
  {
    hide HeaderIs, Crc32Of, HeaderFits, HeaderPlausible, ProtectiveMbr, GapsAreZero, ArrayIs, PayloadsAre, ListOk;
    Crc32Bound(image[ARRAY_AT..USABLE_AT]);
    HeadersFit(d, Crc32Of(image[ARRAY_AT..USABLE_AT]));
  }

  /** The disk identity, when both headers and both arrays agree. */
  method ParseHeaders(image: Bytes, sectors: nat) returns (r: Option<Bytes>)
    requires SectorsOk(sectors) && |image| == sectors * SECTOR_BYTES && |image| > USABLE_AT
    ensures r.Some? ==>
              && GuidOk(r.value)
              && var d, crc := Disk(r.value, sectors, []), Crc32Of(image[ARRAY_AT..USABLE_AT]);
              && HeaderIs(image[SECTOR_BYTES..ARRAY_AT], PrimaryHeader(d, crc))
              && HeaderIs(image[BackupHeaderAt(sectors)..], BackupHeader(d, crc))
              && image[BackupArrayAt(sectors)..BackupHeaderAt(sectors)] == image[ARRAY_AT..USABLE_AT]
    ensures forall d | Decodes(image, d) :: r == Some(d.guid)
  {
    hide HeaderIs, Crc32Of, Decodes, ProtectiveMbr, HeaderPlausible;
    var array_, crc := image[ARRAY_AT..USABLE_AT], Crc32Of(image[ARRAY_AT..USABLE_AT]);
    forall d | Decodes(image, d)
      ensures d.sectors == sectors && image[BackupArrayAt(sectors)..BackupHeaderAt(sectors)] == array_
      ensures HeaderFits(PrimaryHeader(d, crc)) && HeaderIs(image[SECTOR_BYTES..ARRAY_AT], PrimaryHeader(d, crc))
      ensures HeaderFits(BackupHeader(d, crc)) && HeaderIs(image[BackupHeaderAt(sectors)..], BackupHeader(d, crc))
      ensures HeaderPlausible(PrimaryHeader(d, crc), 1, sectors)
              && HeaderPlausible(BackupHeader(d, crc), sectors - 1, sectors)
    {
      DecodedHeaders(image, d);
    }
    var primary := ParseHeader(image[SECTOR_BYTES..ARRAY_AT], 1, sectors);
    var backup := ParseHeader(image[BackupHeaderAt(sectors)..], sectors - 1, sectors);
    if primary.None? || backup.None? { return None; }
    var guid := primary.value.diskGuid;
    var d := Disk(guid, sectors, []);
    if primary.value != PrimaryHeader(d, primary.value.entryCrc)
       || backup.value != BackupHeader(d, primary.value.entryCrc) {
      return None;
    }
    if image[BackupArrayAt(sectors)..BackupHeaderAt(sectors)] != array_ || crc != primary.value.entryCrc {
      return None;
    }
    return Some(guid);
  }

  /** An image parses to a disk exactly when the disk is valid and this is its image. */
  method ParseGpt(image: Bytes) returns (r: Option<Disk>)
    ensures r.Some? ==> Decodes(image, r.value)
    ensures forall d | Decodes(image, d) :: r == Some(d)
  {
    hide HeaderIs, Crc32Of, Decodes, ProtectiveMbr, ListOk, PayloadIs, PayloadsAre, ArrayIs, GapsAreZero,
         PrimaryHeader, BackupHeader;
    forall d | Decodes(image, d)
      ensures SectorsOk(d.sectors) && |image| == d.sectors * SECTOR_BYTES
              && image[..SECTOR_BYTES] == ProtectiveMbr(d.sectors)
      ensures GapsAreZero(image, d.partitions, BackupArrayAt(d.sectors))
    {
      DecodedHeaders(image, d);
    }
    if image == [] || |image| > MAX_DISK_BYTES || |image| % SECTOR_BYTES != 0 { return None; }
    var sectors := |image| / SECTOR_BYTES;
    if !SectorsOk(sectors) || image[..SECTOR_BYTES] != ProtectiveMbr(sectors) { return None; }
    BackupInside(sectors);
    var guid := ParseHeaders(image, sectors);
    if guid.None? { return None; }
    var ps := ParseEntries(image, image[ARRAY_AT..USABLE_AT], sectors);
    if ps.None? { return None; }
    var ok := CheckGaps(image, ps.value, LastUsable(sectors));
    if !ok { return None; }
    var d := Disk(guid.value, sectors, ps.value);
    Assembled(image, d);
    return Some(d);
  }

  lemma Assembled(image: Bytes, d: Disk)
    requires SectorsOk(d.sectors) && |image| == d.sectors * SECTOR_BYTES
             && image[..SECTOR_BYTES] == ProtectiveMbr(d.sectors)
    requires GuidOk(d.guid) && |image| > USABLE_AT && 1 <= |d.partitions| <= MAX_PARTITIONS
    requires ListOk(d.partitions, LastUsable(d.sectors)) && PayloadsAre(image, d.partitions)
    requires ArrayIs(image[ARRAY_AT..USABLE_AT], d.partitions)
    requires var e, crc := Disk(d.guid, d.sectors, []), Crc32Of(image[ARRAY_AT..USABLE_AT]);
             && HeaderIs(image[SECTOR_BYTES..ARRAY_AT], PrimaryHeader(e, crc))
             && HeaderIs(image[BackupHeaderAt(d.sectors)..], BackupHeader(e, crc))
             && image[BackupArrayAt(d.sectors)..BackupHeaderAt(d.sectors)] == image[ARRAY_AT..USABLE_AT]
    requires GapsAreZero(image, d.partitions, BackupArrayAt(d.sectors))
    ensures Decodes(image, d)
  {
    hide HeaderIs, Crc32Of, ProtectiveMbr, ListOk, ArrayIs, GapsAreZero;
    forall i | 0 <= i < |d.partitions|
      ensures |d.partitions[i].payload| == EndOf(d.partitions[i]) - StartOf(d.partitions[i])
    {
      assert PayloadIs(image, d.partitions[i]);
    }
  }
}
