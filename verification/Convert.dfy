/** ELF64 to KEX conversion: parsing, re-laying of segments, and what the result
    means once loaded. */
module Convert {
  import opened ByteCodec
  import opened Struct
  import opened Kex
  import opened KexVerify
  import opened Elf
  import opened Coverage

  // ---- Parsing ------------------------------------------------------------

  function FileRanges(ls: seq<Load>): (rs: seq<Range>) {
    if ls == [] then []
    else
      var l := ls[|ls| - 1];
      FileRanges(ls[..|ls| - 1]) + (if l.fileBytes > 0 then [Range(l.fileOffset, l.fileOffset + l.fileBytes)] else [])
  }

  /** All file ranges that the headers, tables, loads and sections describe. */
  function DescribedRanges(image: Bytes, ls: seq<Load>, sectionRanges: seq<Range>): (rs: seq<Range>)
    requires |image| >= ELF_HEADER_BYTES
  {
    [Range(0, ELF_HEADER_BYTES),
     Range(ELF_HEADER_BYTES, ELF_HEADER_BYTES + ProgramCount(image) * PROGRAM_HEADER_BYTES)]
    + FileRanges(ls) + sectionRanges
    + (if SectionCount(image) > 0
       then [Range(SectionOffset(image), SectionOffset(image) + SectionCount(image) * SECTION_HEADER_BYTES)] else [])
  }

  ghost predicate ElfAccepted(image: Bytes, expected: Option<Target>) {
    && HeaderOk(image, expected)
    && var hs, ss := ProgramHeaders(image, ProgramCount(image)), Sections(image);
    var ls := LoadsOf(hs);
    && ProgramHeadersOk(|image|, |hs|, hs)
    && ls != [] && LayoutOk(ls) && EntryOk(ls, EntryOf(image))
    && PhdrCovered(hs)
    && SectionsOk(image, ss, StringIndex(image), ls)
    && Covered(image, DescribedRanges(image, ls, SectionRanges(ss)))
  }

  /** Target, entry and loads of a file whose header and program table are readable. */
  function ParsedOf(image: Bytes): (p: Parsed) {
    if |image| >= ELF_HEADER_BYTES && Machine(image).Some?
       && ELF_HEADER_BYTES + ProgramCount(image) * PROGRAM_HEADER_BYTES <= |image|
    then Parsed(Machine(image).value, EntryOf(image), LoadsOf(ProgramHeaders(image, ProgramCount(image))))
    else Parsed(X86_64, 0, [])
  }

  lemma {:induction false} LoadsAreOk(fileSize: nat, count: nat, hs: seq<ProgramHeader>)
    requires forall i | 0 <= i < |hs| :: ProgramHeaderOk(fileSize, count, hs[i])
    ensures forall i | 0 <= i < |LoadsOf(hs)| :: GoodLoad(fileSize, LoadsOf(hs)[i])
  {
    if hs != [] {
      var n := |hs| - 1;
      forall i | 0 <= i < n ensures ProgramHeaderOk(fileSize, count, hs[..n][i]) {
        assert hs[..n][i] == hs[i];
      }
      LoadsAreOk(fileSize, count, hs[..n]);
      assert ProgramHeaderOk(fileSize, count, hs[n]);
    }
  }

  /** What one accepted load satisfies. */
  predicate GoodLoad(fileSize: nat, l: Load) {
    && 4 <= l.flags <= 6 && l.virtualAddress % PAGE_BYTES == 0
    && 0 < l.memoryBytes && l.fileBytes <= l.memoryBytes
    && l.fileOffset + l.fileBytes <= fileSize
  }

  lemma {:induction false} FileRangesIn(ls: seq<Load>, size: nat)
    requires forall i | 0 <= i < |ls| :: GoodLoad(size, ls[i])
    ensures RangesIn(FileRanges(ls), size)
  {
    if ls != [] {
      var n := |ls| - 1;
      forall i | 0 <= i < n ensures GoodLoad(size, ls[..n][i]) {
        assert ls[..n][i] == ls[i];
      }
      FileRangesIn(ls[..n], size);
      assert GoodLoad(size, ls[n]);
    }
  }

  lemma {:induction false} SectionRangesIn(image: Bytes, ss: seq<SectionHeader>, count: nat, names: Bytes,
                                           ls: seq<Load>)
    requires forall i | 1 <= i < |ss| :: SectionOk(|image|, count, names, ls, ss[i])
    ensures RangesIn(SectionRanges(ss), |image|)
  {
    if |ss| > 1 {
      var n := |ss| - 1;
      forall i | 1 <= i < n ensures SectionOk(|image|, count, names, ls, ss[..n][i]) {
        assert ss[..n][i] == ss[i];
      }
      SectionRangesIn(image, ss[..n], count, names, ls);
      assert SectionOk(|image|, count, names, ls, ss[n]);
    }
  }

  lemma RangesInAppend(a: seq<Range>, b: seq<Range>, size: nat)
    requires RangesIn(a, size) && RangesIn(b, size)
    ensures RangesIn(a + b, size)
  {
  }

  lemma DescribedIn(image: Bytes, expected: Option<Target>, ls: seq<Load>, sectionRanges: seq<Range>)
    requires HeaderOk(image, expected)
    requires RangesIn(FileRanges(ls), |image|) && RangesIn(sectionRanges, |image|)
    ensures RangesIn(DescribedRanges(image, ls, sectionRanges), |image|)
  {
    hide FileRanges;
    var fixed := [Range(0, ELF_HEADER_BYTES),
                  Range(ELF_HEADER_BYTES, ELF_HEADER_BYTES + ProgramCount(image) * PROGRAM_HEADER_BYTES)];
    RangesInAppend(fixed, FileRanges(ls), |image|);
    RangesInAppend(fixed + FileRanges(ls), sectionRanges, |image|);
  }

  method ParseElf(image: Bytes, expected: Option<Target>) returns (r: Option<Parsed>)
    ensures r.Some? <==> ElfAccepted(image, expected)
    ensures r.Some? ==> r.value == ParsedOf(image)
  {
    hide HeaderOk, ProgramHeadersOk, LayoutOk, EntryOk, PhdrCovered, SectionsOk, Covered, DescribedRanges;
    if !HeaderOk(image, expected) { return None; }
    HeaderBounds(image, expected);
    var hs := ProgramHeaders(image, ProgramCount(image));
    var loads, _ := CollectLoads(|image|, hs);
    if loads.None? { return None; }
    var ls := loads.value;
    var layout := CheckLayout(ls, EntryOf(image));
    if !layout { return None; }
    if !PhdrCovered(hs) { return None; }
    var ss := Sections(image);
    var ranges := ValidateSections(image, ss, StringIndex(image), ls);
    if ranges.None? { return None; }
    AcceptedRangesIn(image, expected, hs, ss, ls);
    var covered := CheckCoverage(image, DescribedRanges(image, ls, ranges.value));
    if !covered { return None; }
    return Some(Parsed(Machine(image).value, EntryOf(image), ls));
  }

  lemma HeaderBounds(image: Bytes, expected: Option<Target>)
    requires HeaderOk(image, expected)
    ensures |image| >= ELF_HEADER_BYTES && Machine(image).Some?
    ensures ELF_HEADER_BYTES + ProgramCount(image) * PROGRAM_HEADER_BYTES <= |image|
    ensures SectionOffset(image) + SectionCount(image) * SECTION_HEADER_BYTES <= |image| || SectionCount(image) == 0
  {
  }

  lemma AcceptedRangesIn(image: Bytes, expected: Option<Target>, hs: seq<ProgramHeader>, ss: seq<SectionHeader>,
                         ls: seq<Load>)
    requires HeaderOk(image, expected) && ProgramHeadersOk(|image|, |hs|, hs) && ls == LoadsOf(hs)
    requires SectionsOk(image, ss, StringIndex(image), ls)
    ensures RangesIn(DescribedRanges(image, ls, SectionRanges(ss)), |image|)
  {
    hide HeaderOk, ProgramHeaderOk, SectionOk, NameTable, DescribedRanges, FileRanges, SectionRanges, LoadsOf;
    HeaderBounds(image, expected);
    LoadsAreOk(|image|, |hs|, hs);
    FileRangesIn(ls, |image|);
    if ss != [] {
      SectionRangesIn(image, ss, |ss|, NameTable(image, ss, StringIndex(image)).value, ls);
    } else {
      SectionRangesIn(image, ss, 0, [], ls);
    }
    DescribedIn(image, expected, ls, SectionRanges(ss));
  }

  // ---- Re-laying ----------------------------------------------------------

  /** KEX permissions of one load: read, read-execute or read-write. */
  function PermissionsOf(flags: nat): (p: nat) {
    if flags == 4 then 1 else if flags == 5 then 2 else 3
  }

  function RecordOf(image: Bytes, l: Load): (r: Record)
    requires l.fileOffset + l.fileBytes <= |image| && l.virtualAddress >= IMAGE_BASE
  {
    Record(l.virtualAddress - IMAGE_BASE, image[l.fileOffset..l.fileOffset + l.fileBytes],
           RoundUpPage(l.memoryBytes), PermissionsOf(l.flags))
  }

  predicate Convertible(image: Bytes, ls: seq<Load>) {
    && LayoutOk(ls)
    && forall i | 0 <= i < |ls| :: GoodLoad(|image|, ls[i])
  }

  function RecordsOf(image: Bytes, ls: seq<Load>): (rs: seq<Record>)
    requires Convertible(image, ls)
    ensures |rs| == |ls|
    ensures forall i | 0 <= i < |ls| :: rs[i] == RecordOf(image, ls[i])
  {
    seq(|ls|, i requires 0 <= i < |ls| => RecordOf(image, ls[i]))
  }

  lemma RecordsAreOk(image: Bytes, ls: seq<Load>)
    requires Convertible(image, ls)
    ensures RecordsOk(RecordsOf(image, ls))
    ensures ImageEnd(RecordsOf(image, ls)) < U64
  {
    var rs := RecordsOf(image, ls);
    forall i | 0 <= i < |rs| ensures RecordOk(rs[i]) {
      assert GoodLoad(|image|, ls[i]);
    }
    forall i | 0 < i < |rs| ensures RecordEnd(rs[i - 1]) <= rs[i].imageOffset {
    }
  }

  lemma AcceptedIsConvertible(image: Bytes, expected: Option<Target>)
    requires ElfAccepted(image, expected)
    ensures var p := ParsedOf(image);
            && Convertible(image, p.loads) && 1 <= |p.loads| <= MAX_RECORDS
            && EntryOk(p.loads, p.entry) && (p.target.Aarch64? ==> p.entry % 4 == 0)
  {
    hide ProgramHeaderOk, SectionsOk, Covered, LayoutOk, EntryOk, FilesDisjoint, LoadsOf, PhdrCovered;
    var hs := ProgramHeaders(image, ProgramCount(image));
    LoadsAreOk(|image|, |hs|, hs);
  }

  /** The converted entry falls in an executable record. */
  lemma EntryStaysExecutable(image: Bytes, ls: seq<Load>, entry: nat)
    requires Convertible(image, ls) && EntryOk(ls, entry)
    ensures entry >= IMAGE_BASE && EntryExecutable(entry - IMAGE_BASE, RecordsOf(image, ls))
  {
    var i :| 0 <= i < |ls| && HoldsEntry(ls[i], entry);
    assert GoodLoad(|image|, ls[i]);
    var r := RecordsOf(image, ls)[i];
    assert r.permissions == 2 && r.imageOffset <= entry - IMAGE_BASE < RecordEnd(r);
  }

  /** The container a conversion produces. */
  function ContainerOf(image: Bytes, p: Parsed, stack: nat, heap: nat): (k: Container)
    requires Convertible(image, p.loads) && p.entry >= IMAGE_BASE
  {
    Container(p.target, p.entry - IMAGE_BASE, stack, heap, RecordsOf(image, p.loads))
  }

  /** The three policy limits that decide a conversion. */
  predicate WithinPolicy(rs: seq<Record>, stackPages: int, heapPages: int) {
    && ImageSpan(ImageEnd(rs)) <= MAX_IMAGE_SPAN_BYTES
    && STACK_MIN <= stackPages <= STACK_MAX
    && 0 <= heapPages <= HEAP_MAX
  }

  /** Acceptance and policy make the container well formed. */
  lemma ConversionIsWellFormed(image: Bytes, expected: Option<Target>, stack: nat, heap: nat)
    requires ElfAccepted(image, expected)
    requires Convertible(image, ParsedOf(image).loads)
    requires WithinPolicy(RecordsOf(image, ParsedOf(image).loads), stack, heap)
    ensures ParsedOf(image).entry >= IMAGE_BASE
    ensures WellFormed(ContainerOf(image, ParsedOf(image), stack, heap))
  {
    hide ElfAccepted, Convertible, ParsedOf, RecordsOf, ImageSpan, EntryOk, EntryExecutable, RecordsOk;
    AcceptedIsConvertible(image, expected);
    var p := ParsedOf(image);
    RecordsAreOk(image, p.loads);
    EntryStaysExecutable(image, p.loads, p.entry);
  }

  function MaxEnd(rs: seq<Record>): (n: nat) {
    if rs == [] then 0 else Max(MaxEnd(rs[..|rs| - 1]), RecordEnd(rs[|rs| - 1]))
  }

  lemma {:induction false} MaxEndIsImageEnd(rs: seq<Record>)
    requires RecordsOk(rs)
    ensures MaxEnd(rs) == ImageEnd(rs)
  {
    if rs != [] { MaxEndIsImageEnd(rs[..|rs| - 1]); }
  }

  const FIRST_FORMAT: seq<nat> := IDENTITY_FORMAT + [2] + FIXED_FORMAT + [8] + [2, 2] + [4] + [8, 8] + [4, 4]

  function FirstFields(k: Container): (f: seq<nat>) {
    [1, 2] + [TargetCode(k.target)] + [HEADER_BYTES, RECORD_BYTES, 1, 3, 0] + [k.entry] + [|k.records|, 0]
    + [ImageSpan(ImageEnd(k.records)) / PAGE_BYTES] + [k.stack, k.heap] + [HEADER_BYTES, PayloadStart(|k.records|)]
  }

  lemma AppendGroup(prefix: Bytes, w: seq<nat>, v: seq<nat>, w2: seq<nat>, v2: seq<nat>)
    requires |w| == |v| && |w2| == |v2|
    ensures prefix + Pack(w + w2, v + v2) == prefix + Pack(w, v) + Pack(w2, v2)
    ensures Size(w + w2) == Size(w) + Size(w2)
  {
    hide Pack, Size;
    PackAppend(w, v, w2, v2);
    SizeAppend(w, w2);
  }

  /** The sixteen fields packed in one call are the first eight groups of the header. */
  lemma FirstFieldsAreGroups(k: Container)
    ensures Size(FIRST_FORMAT) == 56 && |FirstFields(k)| == |FIRST_FORMAT|
    ensures MAGIC + Pack(FIRST_FORMAT, FirstFields(k)) ==
            HeaderStart(k) + Pack([8, 8], [k.stack, k.heap]) + Pack([4, 4], [HEADER_BYTES, PayloadStart(|k.records|)])
  {
    hide Pack, Size, ImageSpan;
    var fixed := [HEADER_BYTES, RECORD_BYTES, 1, 3, 0];
    Sizes(2, 2, 2, 2, 2, 0);
    Sizes(8, 8, 0, 0, 0, 0);
    Sizes(4, 4, 0, 0, 0, 0);
    var w1, v1 := IDENTITY_FORMAT + [2], [1, 2] + [TargetCode(k.target)];
    AppendGroup(MAGIC, IDENTITY_FORMAT, [1, 2], [2], [TargetCode(k.target)]);
    AppendGroup(MAGIC, w1, v1, FIXED_FORMAT, fixed);
    var w2, v2 := w1 + FIXED_FORMAT, v1 + fixed;
    AppendGroup(MAGIC, w2, v2, [8], [k.entry]);
    var w3, v3 := w2 + [8], v2 + [k.entry];
    AppendGroup(MAGIC, w3, v3, [2, 2], [|k.records|, 0]);
    var w4, v4 := w3 + [2, 2], v3 + [|k.records|, 0];
    var span := ImageSpan(ImageEnd(k.records)) / PAGE_BYTES;
    AppendGroup(MAGIC, w4, v4, [4], [span]);
    var w5, v5 := w4 + [4], v4 + [span];
    AppendGroup(MAGIC, w5, v5, [8, 8], [k.stack, k.heap]);
    AppendGroup(MAGIC, w5 + [8, 8], v5 + [k.stack, k.heap], [4, 4], [HEADER_BYTES, PayloadStart(|k.records|)]);
  }

  // ---- Writing ------------------------------------------------------------

  lemma {:induction false} ToLEZero(width: nat)
    ensures ToLE(0, width) == Zeros(width)
  {
    if width > 0 { ToLEZero(width - 1); }
  }

  lemma PackZero()
    ensures Size([8]) == 8 && Pack([8], [0]) == Zeros(8)
  {
    Sizes(8, 0, 0, 0, 0, 0);
    ToLEZero(8);
    assert Pack([8], [0]) == ToLE(0, 8) + Pack([8][1..], [0][1..]);
    assert [8][1..] == [];
  }

  /** Four writes into a zeroed buffer produce the canonical header. */
  lemma HeaderWrites(k: Container, b: Bytes, head: Bytes, relocation: Bytes, total: Bytes)
    requires |b| >= HEADER_BYTES && |head| == 64 && |relocation| == 16 && |total| == 8
    requires b[..64] == head && b[64..80] == relocation && b[80..88] == total && AllZero(b[88..96])
    requires Size(FIRST_FORMAT) == 56 && |FirstFields(k)| == |FIRST_FORMAT|
    requires head == MAGIC + Pack(FIRST_FORMAT, FirstFields(k))
    requires relocation == Pack(RELOCATION_FORMAT, [PayloadStart(|k.records|), 0, RELOCATION_BYTES, 0, 0])
    requires total == Pack([8], [ArtifactBytes(k.records)])
    ensures b[..96] == HeaderStart(k) + HeaderEnd(k)
  {
    hide Pack, HeaderStart, FirstFields;
    FirstFieldsAreGroups(k);
    PackZero();
    AllZeroIsZeros(b[88..96]);
    Sizes(8, 8, 0, 0, 0, 0);
    Sizes(4, 4, 0, 0, 0, 0);
    var s88, s44 := Pack([8, 8], [k.stack, k.heap]), Pack([4, 4], [HEADER_BYTES, PayloadStart(|k.records|)]);
    FiveParts(HeaderStart(k), s88, s44, relocation, total, Zeros(8));
    assert b[..96] == b[..64] + b[64..80] + b[80..88] + b[88..96];
  }

  lemma FiveParts(h: Bytes, a: Bytes, b: Bytes, c: Bytes, d: Bytes, e: Bytes)
    ensures h + a + b + c + d + e == h + (a + b + c + d + e)
  {
  }

  method WriteHeader(a: array<Byte>, k: Container)
    requires a.Length >= HEADER_BYTES && AllZero(a[..])
    modifies a
    ensures a[..96] == HeaderStart(k) + HeaderEnd(k)
  {
    hide Pack, Size, FirstFields, HeaderStart, HeaderEnd;
    FirstFieldsAreGroups(k);
    Sizes(4, 4, 2, 2, 4, 0);
    Sizes(8, 0, 0, 0, 0, 0);
    var first := Pack(FIRST_FORMAT, FirstFields(k));
    var relocation := Pack(RELOCATION_FORMAT, [PayloadStart(|k.records|), 0, RELOCATION_BYTES, 0, 0]);
    var total := Pack([8], [ArtifactBytes(k.records)]);
    ghost var zero := a[..];
    Blit(a, 0, MAGIC);
    Blit(a, 8, first);
    Blit(a, 64, relocation);
    Blit(a, 80, total);
    FourPatches(zero, MAGIC, first, relocation, total);
    HeaderWrites(k, a[..], MAGIC + first, relocation, total);
    assert a[..][..96] == a[..96];
  }

  lemma FourPatches(zero: Bytes, magic: Bytes, first: Bytes, relocation: Bytes, total: Bytes)
    requires |zero| >= HEADER_BYTES && AllZero(zero)
    requires |magic| == 8 && |first| == 56 && |relocation| == 16 && |total| == 8
    ensures var b := Patch(Patch(Patch(Patch(zero, 0, magic), 8, first), 64, relocation), 80, total);
            && b[..64] == magic + first && b[64..80] == relocation && b[80..88] == total && AllZero(b[88..96])
  {
    hide Patch;
    var p1 := Patch(zero, 0, magic);
    var p2 := Patch(p1, 8, first);
    var p3 := Patch(p2, 64, relocation);
    var p4 := Patch(p3, 80, total);
    assert forall i | 0 <= i < 8 :: p4[i] == p3[i] == p2[i] == p1[i] == p1[0..8][i] == magic[i];
    assert forall i | 8 <= i < 64 :: p4[i] == p3[i] == p2[i] == p2[8..64][i - 8] == first[i - 8];
    assert forall i | 64 <= i < 80 :: p4[i] == p3[i] == p3[64..80][i - 64] == relocation[i - 64];
    assert forall i | 88 <= i < 96 :: p4[i] == p3[i] == p2[i] == p1[i] == zero[i];
  }

  /** The header, and the table entries and payloads of `rs`, are in place. */
  ghost predicate Written(b: Bytes, header: Bytes, rs: seq<Record>, start: nat, offset: nat) {
    && |header| == 96 && |Table(rs, start)| == |rs| * RECORD_BYTES
    && offset == start + |Payloads(rs)| <= |b| && 96 + |rs| * RECORD_BYTES <= start
    && b[..96] == header
    && b[96..96 + |rs| * RECORD_BYTES] == Table(rs, start)
    && b[start..offset] == Payloads(rs)
  }

  method WriteArtifact(k: Container) returns (artifact: Bytes)
    ensures artifact == Encode(k)
  {
    hide Pack, Size, HeaderStart, HeaderEnd, Table, Payloads, Written, Patch;
    var start := PayloadStart(|k.records|);
    var output := new Byte[ArtifactBytes(k.records)](_ => 0);
    WriteHeader(output, k);
    var offset: nat := start;
    ghost var header := output[..96];
    HeaderWritten(output[..], header, start);
    for i := 0 to |k.records|
      invariant offset == start + |Payloads(k.records[..i])| <= output.Length
      invariant Written(output[..], header, k.records[..i], start, offset)
    {
      var r, at := k.records[i], HEADER_BYTES + i * RECORD_BYTES;
      Sizes(8, 8, 8, 8, 4, 4);
      TablePrefix(k.records, start, i);
      RecordWritten(output[..], header, k.records, i, start, offset);
      Blit(output, at, Pack(RECORD_FORMAT, RecordFields(r, offset)));
      Blit(output, offset, r.payload);
      offset := offset + |r.payload|;
    }
    assert k.records[..|k.records|] == k.records;
    artifact := output[..];
    AllWritten(artifact, header, k.records, start, offset);
  }

  lemma HeaderWritten(b: Bytes, header: Bytes, start: nat)
    requires 96 <= start <= |b| && b[..96] == header
    ensures Written(b, header, [], start, start) && Payloads([]) == []
  {
  }

  lemma AllWritten(b: Bytes, header: Bytes, rs: seq<Record>, start: nat, offset: nat)
    requires Written(b, header, rs, start, offset) && start == PayloadStart(|rs|) && offset == |b|
    ensures b == header + Table(rs, start) + Payloads(rs)
  {
    hide Table, Payloads;
    assert b == b[..96] + b[96..start] + b[start..];
  }

  lemma RecordWritten(b: Bytes, header: Bytes, rs: seq<Record>, i: nat, start: nat, offset: nat)
    requires i < |rs| && start == PayloadStart(|rs|) && offset + |rs[i].payload| <= |b|
    requires Size(RECORD_FORMAT) == RECORD_BYTES && Written(b, header, rs[..i], start, offset)
    ensures var entry, at := Pack(RECORD_FORMAT, RecordFields(rs[i], offset)), HEADER_BYTES + i * RECORD_BYTES;
            Written(Patch(Patch(b, at, entry), offset, rs[i].payload), header, rs[..i + 1], start,
                    offset + |rs[i].payload|)
  {
    hide Table, Payloads, Pack, Size, Patch;
    TablePrefix(rs, start, i);
    TwoPatches(b, HEADER_BYTES + i * RECORD_BYTES, Pack(RECORD_FORMAT, RecordFields(rs[i], offset)), offset,
               rs[i].payload, start);
  }

  lemma TablePrefix(rs: seq<Record>, start: nat, i: nat)
    requires i < |rs|
    ensures Table(rs[..i + 1], start)
         == Table(rs[..i], start) + Pack(RECORD_FORMAT, RecordFields(rs[i], start + |Payloads(rs[..i])|))
    ensures Payloads(rs[..i + 1]) == Payloads(rs[..i]) + rs[i].payload
    ensures |Payloads(rs[..i + 1])| <= |Payloads(rs)|
  {
    hide Pack, Table, Payloads;
    assert rs[..i + 1] == rs[..i] + [rs[i]];
    BodyGrows(rs[..i], rs[i], start);
    PayloadPrefix(rs, i + 1);
  }

  /** A table entry and a payload written past what is already there extend both regions. */
  lemma TwoPatches(b: Bytes, at: nat, entry: Bytes, offset: nat, payload: Bytes, start: nat)
    requires 96 <= at && at + |entry| <= start <= offset && offset + |payload| <= |b|
    ensures var c := Patch(Patch(b, at, entry), offset, payload);
            && c[..96] == b[..96] && c[96..at + |entry|] == b[96..at] + entry
            && c[start..offset + |payload|] == b[start..offset] + payload
  {
    hide Patch;
    var m := Patch(b, at, entry);
    var c := Patch(m, offset, payload);
    assert forall i | 0 <= i < at :: c[i] == m[i] == b[i];
    assert forall i | at <= i < at + |entry| :: c[i] == m[i] == m[at..at + |entry|][i - at] == entry[i - at];
    assert forall i | start <= i < offset :: c[i] == m[i] == b[i];
  }

  // ---- Converting ---------------------------------------------------------

  /** An accepted ELF within policy; nothing else decides whether a conversion succeeds. */
  ghost predicate Converts(image: Bytes, expected: Option<Target>, stackPages: int, heapPages: int) {
    && ElfAccepted(image, expected)
    && Convertible(image, ParsedOf(image).loads)
    && WithinPolicy(RecordsOf(image, ParsedOf(image).loads), stackPages, heapPages)
  }

  /** `artifact` is the encoding of the container that the ELF and the policy determine. */
  ghost predicate Converted(image: Bytes, expected: Option<Target>, stack: int, heap: int, artifact: Bytes) {
    && Converts(image, expected, stack, heap)
    && ParsedOf(image).entry >= IMAGE_BASE
    && Encodes(artifact, ContainerOf(image, ParsedOf(image), stack, heap))
  }

  method ConvertElf(image: Bytes, expected: Option<Target>, stackPages: int, heapPages: int)
    returns (r: Option<Bytes>)
    ensures r.Some? <==> Converts(image, expected, stackPages, heapPages)
    ensures r.Some? ==> Converted(image, expected, stackPages, heapPages, r.value)
  {
    hide ElfAccepted, HeaderOk, Convertible, ParsedOf, RecordsOf, Encode, WellFormed, ImageSpan, ImagePages, Payloads;
    var accepted := ParseElf(image, expected);
    if accepted.None? { return None; }
    AcceptedIsConvertible(image, expected);
    var parsed := accepted.value;
    var records := RecordsOf(image, parsed.loads);
    RecordsAreOk(image, parsed.loads);
    MaxEndIsImageEnd(records);
    var imageEnd, artifactBytes := MaxEnd(records), ArtifactBytes(records);
    var privatePages := ImagePages(records) + 3 + stackPages + heapPages;
    if WithinPolicy(records, stackPages, heapPages) {
      ConversionIsWellFormed(image, expected, stackPages, heapPages);
      CeilingsNeverBind(ContainerOf(image, parsed, stackPages, heapPages));
    }
    if |records| > MAX_RECORDS || ImageSpan(imageEnd) > MAX_IMAGE_SPAN_BYTES
       || !(STACK_MIN <= stackPages <= STACK_MAX) || !(0 <= heapPages <= HEAP_MAX)
       || ResidentPages(privatePages) > RESIDENT_LIMIT || artifactBytes > MAX_ENCODED_BYTES {
      return None;
    }
    var k := ContainerOf(image, parsed, stackPages, heapPages);
    var artifact := WriteArtifact(k);
    var ok := VerifyKex(artifact, parsed.target, Some(records), Some(parsed.entry - IMAGE_BASE), Some(stackPages),
                        Some(heapPages));
    assert Encodes(artifact, k);
    assert ok;
    return Some(artifact);
  }

  // ---- Meaning ------------------------------------------------------------

  /** The byte an ELF loader puts at `address`: file bytes, then zero fill. */
  function ElfByte(image: Bytes, l: Load, address: nat): (b: Byte)
    requires l.fileOffset + l.fileBytes <= |image| && l.virtualAddress <= address
  {
    var x := address - l.virtualAddress;
    if x < l.fileBytes then image[l.fileOffset + x] else 0
  }

  /** One mapped byte: its value and its permissions. */
  datatype Cell = Cell(value: Byte, permissions: nat)

  function RecordCell(r: Record, x: int): (c: Cell)
    requires r.imageOffset <= x < RecordEnd(r)
  {
    Cell(if x - r.imageOffset < |r.payload| then r.payload[x - r.imageOffset] else 0, r.permissions)
  }

  /** Zeroed, unmapped memory after the records are loaded into it in order. */
  ghost function Memory(rs: seq<Record>): (m: map<int, Cell>) {
    if rs == [] then map[]
    else
      var r := rs[|rs| - 1];
      Memory(rs[..|rs| - 1]) + (map x: int | r.imageOffset <= x < RecordEnd(r) :: RecordCell(r, x))
  }

  /** Nothing is mapped at or above the image end. */
  lemma {:induction false} MemoryBelowEnd(rs: seq<Record>)
    requires RecordsOk(rs)
    ensures forall x | x in Memory(rs) :: 0 <= x < ImageEnd(rs)
  {
    if rs != [] { MemoryBelowEnd(rs[..|rs| - 1]); }
  }

  /** Loading keeps every record's cells: no record overwrites another. */
  lemma {:induction false} MemoryOfRecord(rs: seq<Record>, i: nat, x: int)
    requires RecordsOk(rs) && i < |rs| && rs[i].imageOffset <= x < RecordEnd(rs[i])
    ensures x in Memory(rs) && Memory(rs)[x] == RecordCell(rs[i], x)
    decreases |rs|
  {
    var n := |rs| - 1;
    if i < n {
      MemoryOfRecord(rs[..n], i, x);
      EndsAscend(rs[..n], i);
    }
  }

  /** Every mapped byte comes from some record. */
  lemma {:induction false} MemoryFromRecord(rs: seq<Record>, x: int) returns (i: nat)
    requires x in Memory(rs)
    ensures i < |rs| && rs[i].imageOffset <= x < RecordEnd(rs[i])
    decreases |rs|
  {
    var n := |rs| - 1;
    if rs[n].imageOffset <= x < RecordEnd(rs[n]) {
      i := n;
    } else {
      i := MemoryFromRecord(rs[..n], x);
    }
  }

  /** No page is claimed by two records. */
  lemma PagesHaveOneOwner(rs: seq<Record>, i: nat, j: nat, x: int, y: int)
    requires RecordsOk(rs) && i < |rs| && j < |rs| && x / PAGE_BYTES == y / PAGE_BYTES
    requires rs[i].imageOffset <= x < RecordEnd(rs[i]) && rs[j].imageOffset <= y < RecordEnd(rs[j])
    ensures i == j
  {
    if i < j { OneOwner(rs, i, j, x, y); }
    if j < i { OneOwner(rs, j, i, y, x); }
  }

  lemma OneOwner(rs: seq<Record>, i: nat, j: nat, x: int, y: int)
    requires RecordsOk(rs) && i < j < |rs|
    requires x < RecordEnd(rs[i]) && rs[j].imageOffset <= y
    ensures x / PAGE_BYTES != y / PAGE_BYTES
  {
    EndsAscend(rs[..j], i);
    assert RecordOk(rs[j]) && RecordEnd(rs[j - 1]) <= rs[j].imageOffset;
    assert x < rs[j].imageOffset <= y;
  }

  /** `address` is mapped with the byte and the permissions that the load gives it. */
  ghost predicate MappedAsElf(image: Bytes, l: Load, m: map<int, Cell>, address: nat) {
    && l.fileOffset + l.fileBytes <= |image| && l.virtualAddress <= address
    && address - IMAGE_BASE in m
    && m[address - IMAGE_BASE] == Cell(ElfByte(image, l, address), PermissionsOf(l.flags))
  }

  lemma LoadsKeepMeaning(image: Bytes, p: Parsed, k: Container, i: nat, address: nat)
    requires Convertible(image, p.loads) && k.records == RecordsOf(image, p.loads) && i < |p.loads|
    requires var l := p.loads[i]; l.virtualAddress <= address < l.virtualAddress + l.memoryBytes
    ensures MappedAsElf(image, p.loads[i], Memory(k.records), address)
  {
    hide Memory, RecordsOk, LayoutOk;
    assert GoodLoad(|image|, p.loads[i]);
    RecordsAreOk(image, p.loads);
    MemoryOfRecord(k.records, i, address - IMAGE_BASE);
  }

  /** A decoded artifact is the container the conversion produced. */
  lemma DecodedIsConverted(image: Bytes, expected: Option<Target>, stack: int, heap: int, artifact: Bytes, k: Container)
    requires Converted(image, expected, stack, heap, artifact)
    requires Encodes(artifact, k)
    ensures stack >= 0 && heap >= 0 && k == ContainerOf(image, ParsedOf(image), stack, heap)
  {
    hide ElfAccepted, Encodes, Convertible, RecordsOf, ParsedOf;
    EncodeInjective(artifact, k, ContainerOf(image, ParsedOf(image), stack, heap));
  }

  /** Every address of every load holds, after loading the artifact, the ELF byte and the ELF permissions. */
  lemma MeaningPreserved(image: Bytes, expected: Option<Target>, stack: int, heap: int,
                         artifact: Bytes, k: Container, i: nat, address: nat)
    requires Converted(image, expected, stack, heap, artifact)
    requires Encodes(artifact, k)
    requires i < |ParsedOf(image).loads|
    requires var l := ParsedOf(image).loads[i]; l.virtualAddress <= address < l.virtualAddress + l.memoryBytes
    ensures MappedAsElf(image, ParsedOf(image).loads[i], Memory(k.records), address)
    ensures k.entry + IMAGE_BASE == ParsedOf(image).entry
  {
    hide ElfAccepted, Encodes, Memory, Convertible, RecordsOf, ParsedOf, MappedAsElf;
    DecodedIsConverted(image, expected, stack, heap, artifact, k);
    LoadsKeepMeaning(image, ParsedOf(image), k, i, address);
  }

  /** A load is never both writable and executable once converted. */
  lemma PermissionsAreExclusive(l: Load, fileSize: nat)
    requires GoodLoad(fileSize, l)
    ensures PermissionsOf(l.flags) == 3 <==> Writable(l.flags)
    ensures PermissionsOf(l.flags) == 2 <==> Executable(l.flags)
  {
  }

  /** Nothing else is mapped: every mapped byte lies in the page rounding of exactly the load that owns
      its page, and is zero past the bytes that the load takes from the file. */
  lemma NothingElseMapped(image: Bytes, expected: Option<Target>, stack: int, heap: int,
                          artifact: Bytes, k: Container, x: int) returns (i: nat)
    requires Converted(image, expected, stack, heap, artifact)
    requires Encodes(artifact, k)
    requires x in Memory(k.records)
    ensures 0 <= x < ImageEnd(k.records)
    ensures i < |ParsedOf(image).loads|
    ensures var l := ParsedOf(image).loads[i];
            && l.virtualAddress <= IMAGE_BASE + x < LoadEnd(l)
            && (Memory(k.records)[x].permissions == 3 <==> Writable(l.flags))
            && (Memory(k.records)[x].permissions == 2 <==> Executable(l.flags))
            && MappedAsElf(image, l, Memory(k.records), IMAGE_BASE + x)
            && (IMAGE_BASE + x >= l.virtualAddress + l.fileBytes ==> Memory(k.records)[x].value == 0)
  {
    hide ElfAccepted, Encodes, Memory, ParsedOf, RecordsOk, LayoutOk, Writable, Executable, PermissionsOf;
    DecodedIsConverted(image, expected, stack, heap, artifact, k);
    var p := ParsedOf(image);
    RecordsAreOk(image, p.loads);
    MemoryBelowEnd(k.records);
    i := MemoryFromRecord(k.records, x);
    assert GoodLoad(|image|, p.loads[i]);
    PermissionsAreExclusive(p.loads[i], |image|);
    MemoryOfRecord(k.records, i, x);
  }
}
