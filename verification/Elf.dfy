/** The closed static ELF64 input contract of the KEX converter. */
module Elf {
  import opened ByteCodec
  import opened Kex

  const ELF_HEADER_BYTES := 64
  const PROGRAM_HEADER_BYTES := 56
  const SECTION_HEADER_BYTES := 64
  const MAX_ELF_BYTES := 64 * 1024 * 1024
  const MAX_PROGRAM_HEADERS := 64
  const MAX_SECTION_HEADERS := 4096
  const IMAGE_BASE := 0x0000_4000_0000_0000

  const PT_NULL := 0
  const PT_LOAD := 1
  const PT_PHDR := 6
  const PT_GNU_STACK := 0x6474_E551
  const SHT_PROGBITS := 1
  const SHT_SYMTAB := 2
  const SHT_STRTAB := 3
  const SHT_NOBITS := 8

  const IDENTIFICATION: Bytes := [0x7F, 0x45, 0x4C, 0x46, 2, 1, 1, 0, 0, 0, 0, 0, 0, 0, 0, 0]

  /** One validated ELF PT_LOAD entry. */
  datatype Load = Load(fileOffset: nat, virtualAddress: nat, fileBytes: nat, memoryBytes: nat, flags: nat)

  datatype Parsed = Parsed(target: Target, entry: nat, loads: seq<Load>)

  datatype ProgramHeader = ProgramHeader(
    kind: nat, flags: nat, offset: nat, virtualAddress: nat, physicalAddress: nat,
    fileBytes: nat, memoryBytes: nat, align: nat)

  datatype SectionHeader = SectionHeader(
    name: nat, kind: nat, flags: nat, address: nat, offset: nat, size: nat,
    link: nat, info: nat, align: nat, entrySize: nat)

  // ---- Bits ---------------------------------------------------------------

  predicate Writable(flags: nat) { flags / 2 % 2 == 1 }
  predicate Executable(flags: nat) { flags % 2 == 1 }

  /** Bitwise and. */
  function And(a: nat, b: nat): (r: nat)
    decreases a
  {
    if a == 0 then 0 else 2 * And(a / 2, b / 2) + (if a % 2 == 1 && b % 2 == 1 then 1 else 0)
  }

  predicate PowerOfTwo(v: nat) {
    v > 0 && And(v, v - 1) == 0
  }

  lemma {:induction false} AndSelf(a: nat)
    ensures And(a, a) == a
  {
    if a > 0 { AndSelf(a / 2); }
  }

  lemma HalveEven(v: nat)
    requires v > 0 && v % 2 == 0
    ensures PowerOfTwo(v) <==> PowerOfTwo(v / 2)
  {
    assert And(v, v - 1) == 2 * And(v / 2, v / 2 - 1);
  }

  /** The bit trick recognises exactly the powers of two. */
  lemma {:induction false} PowerOfTwoIsExact(v: nat)
    ensures PowerOfTwo(v) <==> exists k: nat :: v == Pow2(k)
  {
    hide And;
    if v == 1 {
      OneIsPower(v);
      ZerothPower(0);
    } else if v > 1 && v % 2 == 0 {
      HalveEven(v);
      PowerOfTwoIsExact(v / 2);
      if PowerOfTwo(v / 2) {
        var k: nat :| v / 2 == Pow2(k);
        assert v == Pow2(k + 1);
      }
      forall k: nat | v == Pow2(k) ensures PowerOfTwo(v / 2) {
        assert v / 2 == Pow2(k - 1);
      }
    } else if v > 1 {
      OddIsNot(v);
    }
  }

  lemma ZerothPower(k: nat)
    requires k == 0
    ensures Pow2(k) == 1
  {
  }

  lemma OneIsPower(v: nat)
    requires v == 1
    ensures PowerOfTwo(v)
  {
  }

  lemma OddIsNot(v: nat)
    requires v > 1 && v % 2 == 1
    ensures !PowerOfTwo(v) && forall k: nat :: v != Pow2(k)
  {
    AndSelf(v / 2);
    assert And(v, v - 1) == 2 * And(v / 2, v / 2);
  }

  function RoundUpPage(n: nat): (r: nat)
    ensures r >= n && r % PAGE_BYTES == 0 && r < n + PAGE_BYTES
  {
    n + PAGE_BYTES - 1 - (n + PAGE_BYTES - 1) % PAGE_BYTES
  }

  // ---- Decoding -----------------------------------------------------------

  function ProgramHeaderAt(image: Bytes, i: nat): (h: ProgramHeader)
    requires ELF_HEADER_BYTES + (i + 1) * PROGRAM_HEADER_BYTES <= |image|
  {
    var at := ELF_HEADER_BYTES + i * PROGRAM_HEADER_BYTES;
    ProgramHeader(Field(image, at, 4), Field(image, at + 4, 4), Field(image, at + 8, 8), Field(image, at + 16, 8),
                  Field(image, at + 24, 8), Field(image, at + 32, 8), Field(image, at + 40, 8),
                  Field(image, at + 48, 8))
  }

  function SectionHeaderAt(image: Bytes, table: nat, i: nat): (h: SectionHeader)
    requires table + (i + 1) * SECTION_HEADER_BYTES <= |image|
  {
    var at := table + i * SECTION_HEADER_BYTES;
    SectionHeader(Field(image, at, 4), Field(image, at + 4, 4), Field(image, at + 8, 8), Field(image, at + 16, 8),
                  Field(image, at + 24, 8), Field(image, at + 32, 8), Field(image, at + 40, 4),
                  Field(image, at + 44, 4),
                  Field(image, at + 48, 8), Field(image, at + 56, 8))
  }

  function Machine(image: Bytes): (t: Option<Target>)
    requires |image| >= ELF_HEADER_BYTES
  {
    var m := Field(image, 18, 2);
    if m == 62 then Some(X86_64) else if m == 183 then Some(Aarch64) else None
  }

  function EntryOf(image: Bytes): (n: nat)
    requires |image| >= ELF_HEADER_BYTES
  {
    Field(image, 24, 8)
  }

  function ProgramCount(image: Bytes): (n: nat)
    requires |image| >= ELF_HEADER_BYTES
  {
    Field(image, 56, 2)
  }

  function SectionOffset(image: Bytes): (n: nat)
    requires |image| >= ELF_HEADER_BYTES
  {
    Field(image, 40, 8)
  }

  function SectionCount(image: Bytes): (n: nat)
    requires |image| >= ELF_HEADER_BYTES
  {
    Field(image, 60, 2)
  }

  function StringIndex(image: Bytes): (n: nat)
    requires |image| >= ELF_HEADER_BYTES
  {
    Field(image, 62, 2)
  }

  /** The file header, with both tables inside the file. */
  predicate HeaderOk(image: Bytes, expected: Option<Target>) {
    && ELF_HEADER_BYTES <= |image| <= MAX_ELF_BYTES
    && image[..16] == IDENTIFICATION
    && Machine(image).Some?
    && (expected.Some? ==> Machine(image) == expected)
    && (Machine(image) == Some(Aarch64) ==> EntryOf(image) % 4 == 0)
    && Field(image, 16, 2) == 2 && Field(image, 20, 4) == 1 && Field(image, 48, 4) == 0
    && Field(image, 52, 2) == ELF_HEADER_BYTES && Field(image, 54, 2) == PROGRAM_HEADER_BYTES
    && Field(image, 32, 8) == ELF_HEADER_BYTES
    && 0 < ProgramCount(image) <= MAX_PROGRAM_HEADERS
    && (if SectionCount(image) == 0
        then SectionOffset(image) == 0 && Field(image, 58, 2) == 0 && StringIndex(image) == 0
        else Field(image, 58, 2) == SECTION_HEADER_BYTES && SectionCount(image) <= MAX_SECTION_HEADERS)
    && ELF_HEADER_BYTES + ProgramCount(image) * PROGRAM_HEADER_BYTES <= |image|
    && (SectionCount(image) > 0 ==> SectionOffset(image) + SectionCount(image) * SECTION_HEADER_BYTES <= |image|)
  }

  // ---- Program headers ----------------------------------------------------

  predicate LoadOk(fileSize: nat, h: ProgramHeader) {
    && (h.flags == 4 || h.flags == 5 || h.flags == 6)
    && h.align == PAGE_BYTES && h.offset % PAGE_BYTES == 0 && h.virtualAddress % PAGE_BYTES == 0
    && (h.physicalAddress == 0 || h.physicalAddress == h.virtualAddress)
    && h.memoryBytes != 0 && h.fileBytes <= h.memoryBytes
    && h.offset + h.fileBytes <= fileSize
  }

  /** One program header is null, a program-table record, a stack record or a load, each canonical. */
  predicate ProgramHeaderOk(fileSize: nat, count: nat, h: ProgramHeader) {
    if h.kind == PT_NULL then
      h == ProgramHeader(PT_NULL, 0, 0, 0, 0, 0, 0, 0)
    else if h.kind == PT_PHDR then
      && h.flags == 4 && h.offset == ELF_HEADER_BYTES
      && h.fileBytes == h.memoryBytes == count * PROGRAM_HEADER_BYTES
      && (h.align == 8 || h.align == PAGE_BYTES)
      && (h.physicalAddress == 0 || h.physicalAddress == h.virtualAddress)
    else if h.kind == PT_GNU_STACK then
      && h.flags == 6 && h.offset == h.virtualAddress == h.physicalAddress == 0
      && h.fileBytes == h.memoryBytes == 0 && (h.align == 0 || h.align == 16)
    else h.kind == PT_LOAD && LoadOk(fileSize, h)
  }

  function LoadOf(h: ProgramHeader): (l: Load) {
    Load(h.offset, h.virtualAddress, h.fileBytes, h.memoryBytes, h.flags)
  }

  /** The loads among the program headers, in order. */
  function LoadsOf(hs: seq<ProgramHeader>): (ls: seq<Load>) {
    if hs == [] then []
    else
      var h := hs[|hs| - 1];
      LoadsOf(hs[..|hs| - 1]) + (if h.kind == PT_LOAD then [LoadOf(h)] else [])
  }

  function CountKind(hs: seq<ProgramHeader>, kind: nat): (n: nat) {
    if hs == [] then 0
    else CountKind(hs[..|hs| - 1], kind) + (if hs[|hs| - 1].kind == kind then 1 else 0)
  }

  /** Two file ranges share a byte. */
  predicate FilesOverlap(a: Load, b: Load) {
    && a.fileBytes > 0 && b.fileBytes > 0
    && a.fileOffset < b.fileOffset + b.fileBytes && b.fileOffset < a.fileOffset + a.fileBytes
  }

  predicate FilesDisjoint(ls: seq<Load>) {
    forall i, j | 0 <= i < j < |ls| :: !FilesOverlap(ls[i], ls[j])
  }

  predicate ProgramHeadersOk(fileSize: nat, count: nat, hs: seq<ProgramHeader>) {
    && (forall i | 0 <= i < |hs| :: ProgramHeaderOk(fileSize, count, hs[i]))
    && CountKind(hs, PT_PHDR) <= 1 && CountKind(hs, PT_GNU_STACK) <= 1
    && |LoadsOf(hs)| <= MAX_RECORDS
    && FilesDisjoint(LoadsOf(hs))
  }

  function ProgramHeaders(image: Bytes, n: nat): (hs: seq<ProgramHeader>)
    requires ELF_HEADER_BYTES + n * PROGRAM_HEADER_BYTES <= |image|
    ensures |hs| == n
  {
    seq(n, i requires 0 <= i < n => ProgramHeaderAt(image, i))
  }

  lemma {:induction false} CountKindBound(hs: seq<ProgramHeader>, i: nat, kind: nat)
    requires i <= |hs|
    ensures CountKind(hs[..i], kind) <= CountKind(hs, kind)
    ensures LoadsOf(hs[..i]) <= LoadsOf(hs)
    decreases |hs| - i
  {
    if i < |hs| {
      CountKindBound(hs, i + 1, kind);
      assert hs[..i + 1][..i] == hs[..i];
    } else {
      assert hs[..i] == hs;
    }
  }

  /** The program-header loop. */
  method CollectLoads(fileSize: nat, hs: seq<ProgramHeader>) returns (r: Option<seq<Load>>, phdrSeen: bool)
    ensures r.Some? <==> ProgramHeadersOk(fileSize, |hs|, hs)
    ensures r.Some? ==> r.value == LoadsOf(hs) && phdrSeen == (CountKind(hs, PT_PHDR) == 1)
  {
    hide ProgramHeaderOk, FilesOverlap;
    var loads: seq<Load> := [];
    phdrSeen := false;
    var stackSeen := false;
    for i := 0 to |hs|
      invariant loads == LoadsOf(hs[..i])
      invariant CountKind(hs[..i], PT_PHDR) == (if phdrSeen then 1 else 0)
      invariant CountKind(hs[..i], PT_GNU_STACK) == (if stackSeen then 1 else 0)
      invariant |loads| <= MAX_RECORDS && FilesDisjoint(loads)
      invariant forall j | 0 <= j < i :: ProgramHeaderOk(fileSize, |hs|, hs[j])
    {
      var h := hs[i];
      assert hs[..i + 1][..i] == hs[..i];
      CountKindBound(hs, i + 1, PT_PHDR);
      CountKindBound(hs, i + 1, PT_GNU_STACK);
      if !ProgramHeaderOk(fileSize, |hs|, h) { return None, phdrSeen; }
      if h.kind == PT_PHDR {
        if phdrSeen { return None, phdrSeen; }
        phdrSeen := true;
      } else if h.kind == PT_GNU_STACK {
        if stackSeen { return None, phdrSeen; }
        stackSeen := true;
      } else if h.kind == PT_LOAD {
        if |loads| >= MAX_RECORDS { return None, phdrSeen; }
        var load := LoadOf(h);
        var clash := OverlapsPrior(loads, load);
        if clash {
          NotDisjoint(LoadsOf(hs), loads, load);
          return None, phdrSeen;
        }
        loads := loads + [load];
      }
    }
    assert hs[..|hs|] == hs;
    return Some(loads), phdrSeen;
  }

  lemma NotDisjoint(all: seq<Load>, loads: seq<Load>, load: Load)
    requires loads + [load] <= all
    requires exists i | 0 <= i < |loads| :: FilesOverlap(loads[i], load)
    ensures !FilesDisjoint(all)
  {
    hide FilesOverlap;
    var i :| 0 <= i < |loads| && FilesOverlap(loads[i], load);
    assert all[i] == loads[i] && all[|loads|] == load;
  }

  method OverlapsPrior(loads: seq<Load>, load: Load) returns (clash: bool)
    ensures clash <==> exists i | 0 <= i < |loads| :: FilesOverlap(loads[i], load)
  {
    for i := 0 to |loads|
      invariant forall j | 0 <= j < i :: !FilesOverlap(loads[j], load)
    {
      if FilesOverlap(loads[i], load) { return true; }
    }
    return false;
  }

  // ---- Layout -------------------------------------------------------------

  function LoadEnd(l: Load): (n: nat) {
    l.virtualAddress + RoundUpPage(l.memoryBytes)
  }

  /** Loads ascend from the image base, do not overlap after page rounding, and stay in 64 bits. */
  predicate LayoutOk(ls: seq<Load>) {
    forall i | 0 <= i < |ls| ::
      && ls[i].virtualAddress >= (if i == 0 then IMAGE_BASE else LoadEnd(ls[i - 1]))
      && ls[i].virtualAddress >= IMAGE_BASE
      && ls[i].memoryBytes + PAGE_BYTES - 1 < U64
      && LoadEnd(ls[i]) < U64
  }

  predicate HoldsEntry(l: Load, entry: nat) {
    Executable(l.flags) && l.virtualAddress <= entry < l.virtualAddress + l.fileBytes
  }

  /** The entry lies in file-backed executable bytes. */
  predicate EntryOk(ls: seq<Load>, entry: nat) {
    exists i | 0 <= i < |ls| :: HoldsEntry(ls[i], entry)
  }

  /** The layout loop. */
  method CheckLayout(ls: seq<Load>, entry: nat) returns (ok: bool)
    ensures ok <==> ls != [] && LayoutOk(ls) && EntryOk(ls, entry)
  {
    if ls == [] { return false; }
    var previousEnd, executableEntry := IMAGE_BASE, false;
    for i := 0 to |ls|
      invariant previousEnd == (if i == 0 then IMAGE_BASE else LoadEnd(ls[i - 1]))
      invariant LayoutOk(ls[..i])
      invariant executableEntry <==> EntryOk(ls[..i], entry)
    {
      var l := ls[i];
      assert ls[..i + 1][..i] == ls[..i];
      if l.virtualAddress < IMAGE_BASE || l.memoryBytes + PAGE_BYTES - 1 >= U64
         || LoadEnd(l) >= U64 || l.virtualAddress < previousEnd {
        return false;
      }
      assert LayoutOk(ls[..i + 1]);
      previousEnd := LoadEnd(l);
      if HoldsEntry(l, entry) { executableEntry := true; }
      assert executableEntry <==> EntryOk(ls[..i + 1], entry) by {
        if EntryOk(ls[..i + 1], entry) {
          var j :| 0 <= j < i + 1 && HoldsEntry(ls[..i + 1][j], entry);
          assert j < i ==> HoldsEntry(ls[..i][j], entry);
        }
        if EntryOk(ls[..i], entry) {
          var j :| 0 <= j < i && HoldsEntry(ls[..i][j], entry);
          assert HoldsEntry(ls[..i + 1][j], entry);
        }
        assert ls[..i + 1][i] == l;
      }
    }
    assert ls[..|ls|] == ls;
    return executableEntry;
  }

  function FirstPhdr(hs: seq<ProgramHeader>): (v: nat) {
    if hs == [] then 0 else if hs[0].kind == PT_PHDR then hs[0].virtualAddress else FirstPhdr(hs[1..])
  }

  /** The program table is mapped by some load where its record says it is. */
  predicate PhdrCovered(hs: seq<ProgramHeader>) {
    var end := ELF_HEADER_BYTES + |hs| * PROGRAM_HEADER_BYTES;
    CountKind(hs, PT_PHDR) == 1 ==>
      exists l | l in LoadsOf(hs) ::
        && l.fileOffset <= ELF_HEADER_BYTES && end <= l.fileOffset + l.fileBytes
        && l.virtualAddress + ELF_HEADER_BYTES - l.fileOffset == FirstPhdr(hs)
  }

  // ---- Sections -----------------------------------------------------------

  const FORBIDDEN_NAMES: seq<Bytes> := [
    [0x2E, 0x69, 0x6E, 0x74, 0x65, 0x72, 0x70], [0x2E, 0x64, 0x79, 0x6E, 0x61, 0x6D, 0x69, 0x63],
    [0x2E, 0x64, 0x79, 0x6E, 0x73, 0x79, 0x6D], [0x2E, 0x74, 0x64, 0x61, 0x74, 0x61], [0x2E, 0x74, 0x62, 0x73, 0x73]]

  /** The zero-terminated name at `offset`, or none when it has no terminator. */
  function NameAt(table: Bytes, offset: nat): (name: Option<Bytes>)
    requires offset <= |table|
    decreases |table| - offset
  {
    if offset == |table| then None
    else if table[offset] == 0 then Some([])
    else
      var rest := NameAt(table, offset + 1);
      if rest.None? then None else Some([table[offset]] + rest.value)
  }

  predicate NameOk(table: Bytes, offset: nat) {
    offset == 0
    || (offset < |table| && NameAt(table, offset).Some? && NameAt(table, offset).value !in FORBIDDEN_NAMES)
  }

  predicate Contains(l: Load, s: SectionHeader) {
    l.virtualAddress <= s.address && s.address + s.size <= l.virtualAddress + l.memoryBytes
  }

  /** The first load that contains the section. */
  function Owner(ls: seq<Load>, s: SectionHeader): (l: Option<Load>) {
    if ls == [] then None else if Contains(ls[0], s) then Some(ls[0]) else Owner(ls[1..], s)
  }

  predicate AllocatedOk(ls: seq<Load>, s: SectionHeader) {
    var owner := Owner(ls, s);
    && s.address + s.size < U64
    && owner.Some?
    && owner.value.flags / 4 % 2 == 1
    && (s.flags % 2 == 1 ==> Writable(owner.value.flags))
    && (s.flags / 4 % 2 == 1 ==> Executable(owner.value.flags))
    && (s.kind != SHT_NOBITS && s.size != 0 ==>
          && s.offset - owner.value.fileOffset == s.address - owner.value.virtualAddress
          && s.offset + s.size <= owner.value.fileOffset + owner.value.fileBytes)
  }

  predicate SectionOk(fileSize: nat, count: nat, names: Bytes, ls: seq<Load>, s: SectionHeader) {
    && (s.align <= 1 || PowerOfTwo(s.align))
    && (s.align > 1 && s.address != 0 ==> s.address % s.align == 0)
    && (s.kind == SHT_PROGBITS || s.kind == SHT_SYMTAB || s.kind == SHT_STRTAB || s.kind == SHT_NOBITS)
    && s.flags / 0x400 % 2 == 0
    && !(s.flags % 2 == 1 && s.flags / 4 % 2 == 1)
    && NameOk(names, s.name)
    && (if s.kind == SHT_NOBITS then s.offset <= fileSize else s.offset + s.size <= fileSize)
    && (if s.flags / 2 % 2 == 1 then AllocatedOk(ls, s) else s.address == 0)
    && (s.link < count || s.link == 0)
    && (s.kind == SHT_SYMTAB ==> s.entrySize != 0)
  }

  function Sections(image: Bytes): (ss: seq<SectionHeader>)
    requires |image| >= ELF_HEADER_BYTES
    requires SectionOffset(image) + SectionCount(image) * SECTION_HEADER_BYTES <= |image| || SectionCount(image) == 0
    ensures |ss| == SectionCount(image)
  {
    seq(SectionCount(image), i requires 0 <= i < SectionCount(image) => SectionHeaderAt(image, SectionOffset(image), i))
  }

  /** The section-name table, or none when it is not canonical. */
  function NameTable(image: Bytes, ss: seq<SectionHeader>, index: nat): (t: Option<Bytes>) {
    if index >= |ss| then None
    else if index == 0 then Some([])
    else
      var s := ss[index];
      if s.kind != SHT_STRTAB || s.flags / 2 % 2 == 1 || s.offset + s.size > |image| || s.size == 0 then None
      else
        var t := image[s.offset..s.offset + s.size];
        if t[0] != 0 || t[|t| - 1] != 0 then None else Some(t)
  }

  predicate SectionsOk(image: Bytes, ss: seq<SectionHeader>, index: nat, ls: seq<Load>) {
    if ss == [] then index == 0
    else
      && ss[0] == SectionHeader(0, 0, 0, 0, 0, 0, 0, 0, 0, 0)
      && NameTable(image, ss, index).Some?
      && forall i | 1 <= i < |ss| :: SectionOk(|image|, |ss|, NameTable(image, ss, index).value, ls, ss[i])
  }

  /** A half-open file range. */
  datatype Range = Range(start: nat, end: nat)

  /** The file ranges that sections describe. */
  function SectionRanges(ss: seq<SectionHeader>): (rs: seq<Range>) {
    if |ss| <= 1 then []
    else
      var s := ss[|ss| - 1];
      SectionRanges(ss[..|ss| - 1])
      + (if s.kind != SHT_NOBITS && s.size != 0 then [Range(s.offset, s.offset + s.size)] else [])
  }

  /** The section loop. */
  method ValidateSections(image: Bytes, ss: seq<SectionHeader>, index: nat, ls: seq<Load>)
    returns (r: Option<seq<Range>>)
    ensures r.Some? <==> SectionsOk(image, ss, index, ls)
    ensures r.Some? ==> r.value == SectionRanges(ss)
  {
    hide SectionOk, NameTable;
    if ss == [] {
      return if index != 0 then None else Some([]);
    }
    if ss[0] != SectionHeader(0, 0, 0, 0, 0, 0, 0, 0, 0, 0) { return None; }
    var names := NameTable(image, ss, index);
    if names.None? { return None; }
    var described: seq<Range> := [];
    assert ss[..1][..0] == [];
    for i := 1 to |ss|
      invariant described == SectionRanges(ss[..i])
      invariant forall j | 1 <= j < i :: SectionOk(|image|, |ss|, names.value, ls, ss[j])
    {
      var s := ss[i];
      if !SectionOk(|image|, |ss|, names.value, ls, s) { return None; }
      assert ss[..i + 1][..i] == ss[..i];
      if s.kind != SHT_NOBITS && s.size != 0 {
        described := described + [Range(s.offset, s.offset + s.size)];
      }
    }
    assert ss[..|ss|] == ss;
    return Some(described);
  }
}
