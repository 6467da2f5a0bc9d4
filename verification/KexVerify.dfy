/** The independent KEX decoder: it accepts exactly the canonical encodings. */
module KexVerify {
  import opened ByteCodec
  import opened Struct
  import opened Kex

  /** `a` is the canonical encoding of `k`. */
  ghost predicate Encodes(a: Bytes, k: Container) {
    WellFormed(k) && a == Encode(k)
  }

  function Count(a: Bytes): (n: nat)
    requires |a| >= HEADER_BYTES
  {
    Sizes(2, 2, 0, 0, 0, 0);
    UnpackFrom([2, 2], a, 32)[0]
  }

  function SpanPages(a: Bytes): (n: nat)
    requires |a| >= HEADER_BYTES
  {
    Sizes(4, 0, 0, 0, 0, 0);
    UnpackFrom([4], a, 36)[0]
  }

  function Entry(a: Bytes): (n: nat)
    requires |a| >= HEADER_BYTES
  {
    Sizes(8, 0, 0, 0, 0, 0);
    UnpackFrom([8], a, 24)[0]
  }

  function StackAndHeap(a: Bytes): (f: seq<nat>)
    requires |a| >= HEADER_BYTES
    ensures |f| == 2
  {
    Sizes(8, 8, 0, 0, 0, 0);
    UnpackFrom([8, 8], a, 40)
  }

  /** The fixed fields, reserved fields, table offsets and declared length. */
  predicate FixedFieldsOk(a: Bytes, target: Target)
    requires |a| >= HEADER_BYTES
  {
    Sizes(2, 2, 2, 2, 2, 0);
    Sizes(4, 4, 2, 2, 4, 0);
    Sizes(8, 0, 0, 0, 0, 0);
    var start := PayloadStart(Count(a));
    && a[..8] == MAGIC
    && UnpackFrom(IDENTITY_FORMAT, a, 8) == [1, 2]
    && UnpackFrom([2], a, 12) == [TargetCode(target)]
    && UnpackFrom(FIXED_FORMAT, a, 14) == [HEADER_BYTES, RECORD_BYTES, 1, 3, 0]
    && 1 <= Count(a) <= MAX_RECORDS
    && UnpackFrom([2, 2], a, 32)[1] == 0
    && UnpackFrom([8], a, 88) == [0]
    && UnpackFrom([4, 4], a, 56) == [HEADER_BYTES, start]
    && UnpackFrom(RELOCATION_FORMAT, a, 64) == [start, 0, RELOCATION_BYTES, 0, 0]
    && UnpackFrom([8], a, 80) == [|a|]
  }

  lemma One(s: seq<nat>, v: nat)
    requires |s| == 1
    ensures s == [v] <==> s[0] == v
  {
  }

  lemma Two(s: seq<nat>, v: nat, w: nat)
    requires |s| == 2
    ensures s == [v, w] <==> s[0] == v && s[1] == w
  {
  }

  lemma HeaderAgreesStart(a: Bytes, k: Container)
    requires |a| >= HEADER_BYTES && WellFormed(k)
    ensures Size(IDENTITY_FORMAT) == 4 && Size([2]) == 2 && Size(FIXED_FORMAT) == 10
    ensures UnpackFrom(IDENTITY_FORMAT, a, 8) == [1, 2] <==> a[8..12] == Pack(IDENTITY_FORMAT, [1, 2])
    ensures UnpackFrom([2], a, 12) == [TargetCode(k.target)] <==> a[12..14] == Pack([2], [TargetCode(k.target)])
    ensures UnpackFrom(FIXED_FORMAT, a, 14) == [HEADER_BYTES, RECORD_BYTES, 1, 3, 0]
       <==> a[14..24] == Pack(FIXED_FORMAT, [HEADER_BYTES, RECORD_BYTES, 1, 3, 0])
    ensures Entry(a) == k.entry <==> a[24..32] == Pack([8], [k.entry])
    ensures Count(a) == |k.records| && UnpackFrom([2, 2], a, 32)[1] == 0
       <==> a[32..36] == Pack([2, 2], [|k.records|, 0])
    ensures SpanPages(a) == ImageSpan(ImageEnd(k.records)) / PAGE_BYTES
       <==> a[36..40] == Pack([4], [ImageSpan(ImageEnd(k.records)) / PAGE_BYTES])
  {
    hide Pack, Unpack, Size, UnpackFrom, WellFormed, ImageSpan;
    Widths();
    FieldsFit(k);
    CountFits(k);
    Sizes(2, 2, 2, 2, 2, 0);
    Sizes(8, 0, 0, 0, 0, 0);
    Sizes(4, 0, 0, 0, 0, 0);
    SliceIsPacked(IDENTITY_FORMAT, a, 8, [1, 2]);
    SliceIsPacked([2], a, 12, [TargetCode(k.target)]);
    SliceIsPacked(FIXED_FORMAT, a, 14, [HEADER_BYTES, RECORD_BYTES, 1, 3, 0]);
    SliceIsPacked([8], a, 24, [k.entry]);
    SliceIsPacked([2, 2], a, 32, [|k.records|, 0]);
    SliceIsPacked([4], a, 36, [ImageSpan(ImageEnd(k.records)) / PAGE_BYTES]);
    One(UnpackFrom([8], a, 24), k.entry);
    One(UnpackFrom([4], a, 36), ImageSpan(ImageEnd(k.records)) / PAGE_BYTES);
    Two(UnpackFrom([2, 2], a, 32), |k.records|, 0);
  }

  lemma HeaderAgreesEnd(a: Bytes, k: Container)
    requires |a| >= HEADER_BYTES && WellFormed(k) && |a| == ArtifactBytes(k.records)
    ensures Size([4, 4]) == 8 && Size([8]) == 8 && Size(RELOCATION_FORMAT) == 16
    ensures var start := PayloadStart(|k.records|);
            && (StackAndHeap(a) == [k.stack, k.heap] <==> a[40..56] == Pack([8, 8], [k.stack, k.heap]))
            && (UnpackFrom([4, 4], a, 56) == [HEADER_BYTES, start]
                <==> a[56..64] == Pack([4, 4], [HEADER_BYTES, start]))
            && (UnpackFrom(RELOCATION_FORMAT, a, 64) == [start, 0, RELOCATION_BYTES, 0, 0]
                <==> a[64..80] == Pack(RELOCATION_FORMAT, [start, 0, RELOCATION_BYTES, 0, 0]))
            && (UnpackFrom([8], a, 80) == [|a|] <==> a[80..88] == Pack([8], [ArtifactBytes(k.records)]))
            && (UnpackFrom([8], a, 88) == [0] <==> a[88..96] == Pack([8], [0]))
  {
    hide Pack, Unpack, Size, UnpackFrom, WellFormed, ImageSpan, Payloads;
    Widths();
    FieldsFit(k);
    Sizes(8, 8, 0, 0, 0, 0);
    Sizes(4, 4, 2, 2, 4, 0);
    var start := PayloadStart(|k.records|);
    SliceIsPacked([8, 8], a, 40, [k.stack, k.heap]);
    SliceIsPacked([4, 4], a, 56, [HEADER_BYTES, start]);
    SliceIsPacked(RELOCATION_FORMAT, a, 64, [start, 0, RELOCATION_BYTES, 0, 0]);
    SliceIsPacked([8], a, 80, [|a|]);
    SliceIsPacked([8], a, 88, [0]);
  }

  /** The header agrees with `k` field by field exactly when its bytes do. */
  lemma HeaderAgrees(a: Bytes, k: Container)
    requires |a| >= HEADER_BYTES && WellFormed(k) && |a| == ArtifactBytes(k.records)
    ensures HeaderIs(a, k) <==>
            && FixedFieldsOk(a, k.target)
            && Count(a) == |k.records| && SpanPages(a) == ImageSpan(ImageEnd(k.records)) / PAGE_BYTES
            && Entry(a) == k.entry && StackAndHeap(a) == [k.stack, k.heap]
  {
    hide Pack, Unpack, Size, UnpackFrom, WellFormed, ImageSpan, Payloads, Count, SpanPages, Entry, StackAndHeap;
    CountFits(k);
    HeaderAgreesStart(a, k);
    HeaderAgreesEnd(a, k);
  }

  lemma CountFits(k: Container)
    requires WellFormed(k)
    ensures 1 <= |k.records| <= MAX_RECORDS
  {
  }

  lemma EncodeLength(k: Container)
    ensures |Encode(k)| == ArtifactBytes(k.records)
  {
    TableLength(k.records, PayloadStart(|k.records|));
  }

  /** The table and payload regions of an artifact. */
  ghost predicate BodyIs(a: Bytes, rs: seq<Record>, start: nat)
  {
    && start == HEADER_BYTES + |Table(rs, start)|
    && start + |Payloads(rs)| <= |a|
    && a[HEADER_BYTES..start] == Table(rs, start)
    && a[start..start + |Payloads(rs)|] == Payloads(rs)
  }

  /** An artifact is an encoding when header, table and payloads all match and nothing follows. */
  lemma EncodesByParts(a: Bytes, k: Container)
    requires WellFormed(k)
    ensures Encodes(a, k) <==>
            && |a| == ArtifactBytes(k.records) && HeaderIs(a, k)
            && BodyIs(a, k.records, PayloadStart(|k.records|))
  {
    hide Table, Payloads, HeaderIs, WellFormed, HeaderStart, HeaderEnd;
    var start := PayloadStart(|k.records|);
    EncodeLength(k);
    TableLength(k.records, start);
    if |a| == ArtifactBytes(k.records) {
      HeaderTiles(a, k);
      var header := HeaderStart(k) + HeaderEnd(k);
      var table, payloads := Table(k.records, start), Payloads(k.records);
      var e := header + table + payloads;
      assert e[..96] == header && e[96..start] == table && e[start..] == payloads;
      assert a == a[..96] + a[96..start] + a[start..];
      assert a[start..start + |payloads|] == a[start..];
    }
  }

  lemma RecordFieldsFit(k: Container, i: nat)
    requires WellFormed(k) && i < |k.records|
    ensures Fits(RECORD_FORMAT, RecordFields(k.records[i], PayloadStart(|k.records|) + |Payloads(k.records[..i])|))
  {
    hide WellFormed;
    FieldsFit(k);
    Widths();
    RecordIsOk(k, i);
    PayloadAt(k.records, i);
  }

  lemma RecordIsOk(k: Container, i: nat)
    requires WellFormed(k) && i < |k.records|
    ensures RecordOk(k.records[i])
  {
  }

  lemma EncodedRecordSlice(a: Bytes, k: Container, i: nat)
    requires Encodes(a, k) && i < |k.records|
    ensures var at, start := HEADER_BYTES + i * RECORD_BYTES, PayloadStart(|k.records|);
            && at + RECORD_BYTES <= |a|
            && a[at..at + RECORD_BYTES]
               == Pack(RECORD_FORMAT, RecordFields(k.records[i], start + |Payloads(k.records[..i])|))
  {
    hide Table, Payloads, HeaderIs, Pack, Size, WellFormed;
    var start := PayloadStart(|k.records|);
    EncodesByParts(a, k);
    TableAt(k.records, start, i);
    SubSlice(a, HEADER_BYTES, start, i * RECORD_BYTES, (i + 1) * RECORD_BYTES);
  }

  lemma EncodedPayloads(a: Bytes, k: Container)
    requires Encodes(a, k)
    ensures var start, n := PayloadStart(|k.records|), |Payloads(k.records)|;
            start + n <= |a| && a[start..start + n] == Payloads(k.records)
  {
    hide Table, Payloads, HeaderIs, WellFormed, Encode;
    EncodesByParts(a, k);
  }

  lemma EncodedPayload(a: Bytes, k: Container, i: nat)
    requires Encodes(a, k) && i < |k.records|
    ensures var offset, n := PayloadStart(|k.records|) + |Payloads(k.records[..i])|, |k.records[i].payload|;
            && offset + n <= |a| && a[offset..offset + n] == k.records[i].payload
  {
    hide Payloads, Encodes;
    var start, p := PayloadStart(|k.records|), |Payloads(k.records[..i])|;
    EncodedPayloads(a, k);
    PayloadAt(k.records, i);
    SubSlice(a, start, start + |Payloads(k.records)|, p, p + |k.records[i].payload|);
  }

  /** What an encoding stores for record `i`. */
  lemma EncodedRecordReads(a: Bytes, k: Container, i: nat)
    requires Encodes(a, k) && i < |k.records|
    ensures var at, start := HEADER_BYTES + i * RECORD_BYTES, PayloadStart(|k.records|);
            && at + RECORD_BYTES <= |a| && Size(RECORD_FORMAT) == RECORD_BYTES
            && UnpackFrom(RECORD_FORMAT, a, at)
               == RecordFields(k.records[i], start + |Payloads(k.records[..i])|)
  {
    hide Payloads, Encode, Pack, Unpack, UnpackFrom, Size, RecordFields, WellFormed;
    var at := HEADER_BYTES + i * RECORD_BYTES;
    Sizes(8, 8, 8, 8, 4, 4);
    EncodedRecordSlice(a, k, i);
    RecordFieldsFit(k, i);
    SliceIsPacked(RECORD_FORMAT, a, at,
                  RecordFields(k.records[i], PayloadStart(|k.records|) + |Payloads(k.records[..i])|));
  }

  /** Everything decoded so far agrees with the bytes read so far. */
  ghost predicate Decoded(a: Bytes, rs: seq<Record>, count: nat, next: nat) {
    var start := PayloadStart(count);
    && |rs| <= count
    && RecordsOk(rs)
    && next == start + |Payloads(rs)| <= |a|
    && HEADER_BYTES + |Table(rs, start)| <= |a|
    && a[HEADER_BYTES..HEADER_BYTES + |Table(rs, start)|] == Table(rs, start)
    && a[start..next] == Payloads(rs)
  }

  lemma DecodedNothing(a: Bytes, count: nat)
    requires PayloadStart(count) <= |a|
    ensures Decoded(a, [], count, PayloadStart(count))
  {
  }

  /** One more table entry and its payload extend what is decoded. */
  lemma DecodedOneMore(a: Bytes, rs: seq<Record>, r: Record, count: nat, next: nat)
    requires |rs| < count && PayloadStart(count) <= |a| && Decoded(a, rs, count, next)
    requires RecordOk(r) && ImageEnd(rs) <= r.imageOffset
    requires Size(RECORD_FORMAT) == RECORD_BYTES
    requires UnpackFrom(RECORD_FORMAT, a, HEADER_BYTES + |rs| * RECORD_BYTES) == RecordFields(r, next)
    requires next + |r.payload| <= |a| && a[next..next + |r.payload|] == r.payload
    ensures Decoded(a, rs + [r], count, next + |r.payload|)
  {
    hide Pack, Unpack, UnpackFrom, Size, Table, Payloads, RecordFields;
    var start, more := PayloadStart(count), rs + [r];
    TableLength(rs, start);
    BodyGrows(rs, r, start);
    var at := HEADER_BYTES + |rs| * RECORD_BYTES;
    UnpackedSliceIsPacked(a, at, RecordFields(r, next));
    SliceExtends(a, HEADER_BYTES, at, at + RECORD_BYTES);
    SliceExtends(a, start, next, next + |r.payload|);
  }

  lemma BodyGrows(rs: seq<Record>, r: Record, start: nat)
    ensures Table(rs + [r], start)
         == Table(rs, start) + Pack(RECORD_FORMAT, RecordFields(r, start + |Payloads(rs)|))
    ensures Payloads(rs + [r]) == Payloads(rs) + r.payload
  {
    hide Pack, RecordFields;
    assert (rs + [r])[..|rs|] == rs;
  }

  lemma SliceExtends(a: Bytes, i: nat, j: nat, k: nat)
    requires i <= j <= k <= |a|
    ensures a[i..k] == a[i..j] + a[j..k]
  {
  }

  lemma UnpackedSliceIsPacked(a: Bytes, at: nat, values: seq<nat>)
    requires Size(RECORD_FORMAT) == RECORD_BYTES && at + RECORD_BYTES <= |a|
    requires UnpackFrom(RECORD_FORMAT, a, at) == values
    ensures |values| == |RECORD_FORMAT| && a[at..at + RECORD_BYTES] == Pack(RECORD_FORMAT, values)
  {
    hide Pack, Unpack, Size;
    UnpackThenPack(RECORD_FORMAT, a[at..at + RECORD_BYTES]);
  }

  /** The load-record loop. The result is none when some record is refused. */
  method DecodeRecords(a: Bytes, count: nat) returns (r: Option<(seq<Record>, nat, nat)>)
    requires PayloadStart(count) <= |a|
    ensures r.Some? ==> var (rs, next, pages) := r.value;
              |rs| == count && Decoded(a, rs, count, next) && pages == ImagePages(rs)
    ensures forall k | Encodes(a, k) && |k.records| == count :: r.Some? && r.value.0 == k.records
  {
    hide Encodes, Decoded, UnpackFrom, Size, RecordFields, RecordCheck, NextRecord, Payloads, RecordsOk;
    var rs: seq<Record>, next: nat, pages: nat, previousEnd: nat := [], PayloadStart(count), 0, 0;
    DecodedNothing(a, count);
    Sizes(8, 8, 8, 8, 4, 4);
    for i := 0 to count
      invariant |rs| == i && Decoded(a, rs, count, next)
      invariant pages == ImagePages(rs) && previousEnd == ImageEnd(rs)
      invariant forall k | Encodes(a, k) && |k.records| == count :: rs == k.records[..i]
    {
      var f := UnpackFrom(RECORD_FORMAT, a, HEADER_BYTES + i * RECORD_BYTES);
      DecodedBounds(a, rs, count, next);
      forall k | Encodes(a, k) && |k.records| == count
        ensures RecordCheck(a, f, next, previousEnd) && RecordAt(a, f) == k.records[i]
      {
        EncodedNext(a, k, i, rs, next);
        NextRecordPasses(a, k, i, next, previousEnd, f);
      }
      if !RecordCheck(a, f, next, previousEnd) {
        return None;
      }
      var record := RecordAt(a, f);
      CheckedRecord(a, f, next, previousEnd);
      DecodedOneMore(a, rs, record, count, next);
      assert (rs + [record])[..i] == rs;
      rs := rs + [record];
      next, previousEnd := next + f[2], f[0] + f[3];
      pages := pages + f[3] / PAGE_BYTES;
    }
    forall k | Encodes(a, k) && |k.records| == count ensures rs == k.records {
      assert k.records[..count] == k.records;
    }
    return Some((rs, next, pages));
  }

  /** The fields that an encoding of `k` must hold for record `i`. */
  ghost predicate NextRecord(a: Bytes, k: Container, i: nat, next: nat, previousEnd: nat, f: seq<nat>) {
    && i < |k.records| && RecordOk(k.records[i]) && previousEnd <= k.records[i].imageOffset
    && f == RecordFields(k.records[i], next)
    && next + |k.records[i].payload| <= |a|
    && a[next..next + |k.records[i].payload|] == k.records[i].payload
  }

  lemma EncodedNext(a: Bytes, k: Container, i: nat, rs: seq<Record>, next: nat)
    requires Encodes(a, k) && i < |k.records| && rs == k.records[..i]
    requires next == PayloadStart(|k.records|) + |Payloads(rs)|
    ensures Size(RECORD_FORMAT) == RECORD_BYTES && HEADER_BYTES + (i + 1) * RECORD_BYTES <= |a|
    ensures NextRecord(a, k, i, next, ImageEnd(rs), UnpackFrom(RECORD_FORMAT, a, HEADER_BYTES + i * RECORD_BYTES))
  {
    hide Encode, UnpackFrom, Size, Payloads;
    EncodedRecordReads(a, k, i);
    EncodedPayload(a, k, i);
  }

  lemma DecodedBounds(a: Bytes, rs: seq<Record>, count: nat, next: nat)
    requires Decoded(a, rs, count, next)
    ensures next == PayloadStart(count) + |Payloads(rs)| <= |a|
  {
  }

  /** The conditions on one load record; any other record is refused. */
  predicate RecordCheck(a: Bytes, f: seq<nat>, next: nat, previousEnd: nat)
    requires |f| == 6
  {
    && f[0] % PAGE_BYTES == 0
    && f[3] != 0 && f[3] % PAGE_BYTES == 0
    && f[2] <= f[3]
    && 1 <= f[4] <= 3
    && f[5] == 0
    && f[1] == next && f[1] <= |a| && f[2] <= |a| - f[1]
    && f[0] >= previousEnd
  }

  function RecordAt(a: Bytes, f: seq<nat>): (r: Record)
    requires |f| == 6
  {
    Record(f[0], if f[1] + f[2] <= |a| then a[f[1]..f[1] + f[2]] else [], f[3], f[4])
  }

  lemma NextRecordPasses(a: Bytes, k: Container, i: nat, next: nat, previousEnd: nat, f: seq<nat>)
    requires NextRecord(a, k, i, next, previousEnd, f)
    ensures RecordCheck(a, f, next, previousEnd) && RecordAt(a, f) == k.records[i]
  {
  }

  lemma CheckedRecord(a: Bytes, f: seq<nat>, next: nat, previousEnd: nat)
    requires |f| == 6 && RecordCheck(a, f, next, previousEnd)
    ensures var r := RecordAt(a, f);
            && RecordOk(r) && r.imageOffset >= previousEnd && f == RecordFields(r, next)
            && |r.payload| == f[2] && next + f[2] <= |a| && a[next..next + f[2]] == r.payload
            && r.memoryBytes == f[3] && r.imageOffset == f[0]
  {
  }

  /** `k` meets the caller's optional expectations. */
  predicate Expected(k: Container, target: Target, records: Option<seq<Record>>, entry: Option<nat>,
                     stack: Option<nat>, heap: Option<nat>) {
    && k.target == target
    && (records.Some? ==> k.records == records.value)
    && (entry.Some? ==> k.entry == entry.value)
    && (stack.Some? ==> k.stack == stack.value)
    && (heap.Some? ==> k.heap == heap.value)
  }

  /** The artifact is the canonical encoding of some container that meets the expectations. */
  ghost predicate Accepts(a: Bytes, target: Target, records: Option<seq<Record>>, entry: Option<nat>,
                          stack: Option<nat>, heap: Option<nat>) {
    exists k :: Encodes(a, k) && Expected(k, target, records, entry, stack, heap)
  }

  /** The header conditions that need no record. */
  predicate HeaderCheck(a: Bytes, target: Target)
    requires |a| >= HEADER_BYTES
  {
    var span := SpanPages(a) * PAGE_BYTES;
    && |a| <= MAX_ENCODED_BYTES
    && FixedFieldsOk(a, target)
    && span != 0 && span <= MAX_IMAGE_SPAN_BYTES && span % IMAGE_ALIGNMENT == 0
    && (target.Aarch64? ==> Entry(a) % 4 == 0)
    && STACK_MIN <= StackAndHeap(a)[0] <= STACK_MAX
    && StackAndHeap(a)[1] <= HEAP_MAX
  }

  lemma EncodedHeaderPasses(a: Bytes, k: Container)
    requires Encodes(a, k)
    ensures |a| >= HEADER_BYTES && HeaderCheck(a, k.target) && |a| == ArtifactBytes(k.records)
    ensures Count(a) == |k.records| && PayloadStart(Count(a)) <= |a|
    ensures Entry(a) == k.entry && StackAndHeap(a) == [k.stack, k.heap]
    ensures SpanPages(a) * PAGE_BYTES == ImageSpan(ImageEnd(k.records))
  {
    hide FixedFieldsOk, Count, SpanPages, Entry, StackAndHeap, Encode, HeaderIs, BodyIs;
    EncodesByParts(a, k);
    HeaderAgrees(a, k);
    CeilingsNeverBind(k);
  }

  /** The final container of an accepting run is encoded by the artifact. */
  lemma RunEncodes(a: Bytes, k: Container, next: nat)
    requires |a| >= HEADER_BYTES && HeaderCheck(a, k.target) && Count(a) == |k.records|
    requires Decoded(a, k.records, |k.records|, next) && next == |a|
    requires EntryExecutable(k.entry, k.records)
    requires Entry(a) == k.entry && StackAndHeap(a) == [k.stack, k.heap]
    requires SpanPages(a) * PAGE_BYTES == ImageSpan(ImageEnd(k.records))
    ensures Encodes(a, k)
  {
    hide Count, SpanPages, Entry, StackAndHeap, Encode, Table, Payloads, HeaderIs;
    TableLength(k.records, PayloadStart(|k.records|));
    assert WellFormed(k);
    HeaderAgrees(a, k);
    EncodesByParts(a, k);
  }

  /** The container that the artifact encodes, or none when it encodes none. */
  method DecodeKex(a: Bytes, target: Target) returns (r: Option<Container>)
    ensures r.Some? ==> Encodes(a, r.value) && r.value.target == target
    ensures r.None? ==> forall k | Encodes(a, k) :: k.target != target
  {
    hide Encodes, HeaderCheck, Decoded, Count, SpanPages, Entry, StackAndHeap, EntryExecutable, ImageSpan, Payloads,
         ImagePages;
    ghost var possible := exists k :: Encodes(a, k) && k.target == target;
    ghost var k;
    if possible {
      k :| Encodes(a, k) && k.target == target;
      EncodedHeaderPasses(a, k);
      EncodedBodyPasses(a, k);
    }
    if |a| < HEADER_BYTES { return None; }
    if !HeaderCheck(a, target) { return None; }
    var count, entry, stack, heap := Count(a), Entry(a), StackAndHeap(a)[0], StackAndHeap(a)[1];
    if PayloadStart(count) > |a| { return None; }
    var decoded := DecodeRecords(a, count);
    if decoded.None? { return None; }
    var (rs, next, imagePages) := decoded.value;
    DecodedBounds(a, rs, count, next);
    assert possible ==> rs == k.records;
    if next != |a| || !EntryExecutable(entry, rs) { return None; }
    if ImageEnd(rs) > SpanPages(a) * PAGE_BYTES { return None; }
    if SpanPages(a) * PAGE_BYTES != ImageSpan(ImageEnd(rs)) { return None; }
    var privatePages := imagePages + 3 + stack + heap;
    var tables := MaximumTablePages(privatePages);
    if privatePages + tables > RESIDENT_LIMIT { return None; }
    assert StackAndHeap(a) == [stack, heap];
    r := Some(Container(target, entry, stack, heap, rs));
    RunEncodes(a, r.value, next);
  }

  method VerifyKex(a: Bytes, target: Target, records: Option<seq<Record>>, entryOffset: Option<nat>,
                   stackPages: Option<nat>, heapPages: Option<nat>) returns (ok: bool)
    ensures ok <==> Accepts(a, target, records, entryOffset, stackPages, heapPages)
  {
    hide Encodes;
    var decoded := DecodeKex(a, target);
    if decoded.None? { return false; }
    forall k | Encodes(a, k) && k.target == target ensures k == decoded.value {
      EncodeInjective(a, k, decoded.value);
    }
    return Expected(decoded.value, target, records, entryOffset, stackPages, heapPages);
  }

  lemma EncodedBodyPasses(a: Bytes, k: Container)
    requires Encodes(a, k)
    ensures EntryExecutable(k.entry, k.records)
    ensures ResidentPages(ImagePages(k.records) + 3 + k.stack + k.heap) <= RESIDENT_LIMIT
  {
    CeilingsNeverBind(k);
  }

  lemma TargetIsRead(a: Bytes, k: Container, k': Container)
    requires |a| >= HEADER_BYTES && HeaderCheck(a, k.target) && HeaderCheck(a, k'.target)
    ensures k.target == k'.target
  {
    assert TargetCode(k.target) == TargetCode(k'.target);
  }

  /** Canonical: two containers with the same encoding are the same container. */
  lemma EncodeInjective(a: Bytes, k: Container, k': Container)
    requires Encodes(a, k) && Encodes(a, k')
    ensures k == k'
  {
    hide Encode, HeaderCheck;
    EncodedHeaderPasses(a, k);
    EncodedHeaderPasses(a, k');
    RecordsAgree(a, k, k', |k.records|);
    assert k.records[..|k.records|] == k.records && k'.records[..|k.records|] == k'.records;
    assert StackAndHeap(a)[0] == k.stack && StackAndHeap(a)[1] == k.heap;
    TargetIsRead(a, k, k');
  }

  lemma {:induction false} RecordsAgree(a: Bytes, k: Container, k': Container, n: nat)
    requires Encodes(a, k) && Encodes(a, k') && |k.records| == |k'.records| && n <= |k.records|
    ensures k.records[..n] == k'.records[..n]
  {
    hide Encodes, NextRecord;
    if n > 0 {
      var i := n - 1;
      RecordsAgree(a, k, k', i);
      var rs := k.records[..i];
      var next := PayloadStart(|k.records|) + |Payloads(rs)|;
      EncodedNext(a, k, i, rs, next);
      EncodedNext(a, k', i, rs, next);
      var f := UnpackFrom(RECORD_FORMAT, a, HEADER_BYTES + i * RECORD_BYTES);
      NextRecordPasses(a, k, i, next, ImageEnd(rs), f);
      NextRecordPasses(a, k', i, next, ImageEnd(rs), f);
      assert k.records[..n] == rs + [k.records[i]] && k'.records[..n] == rs + [k'.records[i]];
    }
  }
}
