/** The KEX v1 executable container: its ceilings, well-formedness and canonical encoding. */
module Kex {
  import opened ByteCodec
  import opened Struct

  const MAGIC: Bytes := [0x4B, 0x45, 0x58, 0, 0x46, 0x4D, 0x54, 0]
  const HEADER_BYTES := 96
  const RECORD_BYTES := 40
  const RELOCATION_BYTES := 16
  const PAGE_BYTES := 4096
  const IMAGE_ALIGNMENT := 2 * 1024 * 1024
  const MAX_IMAGE_SPAN_BYTES := 1024 * 1024 * 1024
  const MAX_IMAGE_SPAN_PAGES := MAX_IMAGE_SPAN_BYTES / PAGE_BYTES
  const MAX_ENCODED_BYTES := 2 * MAX_IMAGE_SPAN_BYTES
  const MAX_RECORDS := 16
  const STACK_MIN := 4
  const STACK_MAX := U32
  const HEAP_MAX := U32
  const LAUNCH_REGIONS := 5
  const TABLE_ENTRIES := 512
  const TABLE_LEVELS_BELOW_ROOT := 3
  const MAX_PRIVATE_PAGES := MAX_IMAGE_SPAN_PAGES + 3 + STACK_MAX + HEAP_MAX

  datatype Target = X86_64 | Aarch64

  function TargetCode(t: Target): (c: nat) {
    match t case X86_64 => 1 case Aarch64 => 2
  }

  datatype Record = Record(imageOffset: nat, payload: Bytes, memoryBytes: nat, permissions: nat)

  datatype Container = Container(target: Target, entry: nat, stack: nat, heap: nat, records: seq<Record>)

  // ---- Ceilings -----------------------------------------------------------

  function CeilDiv(n: nat, d: nat): (q: nat)
    requires d > 0
  {
    (n + d - 1) / d
  }

  lemma MulMonotone(d: nat, a: nat, b: nat)
    requires a <= b
    ensures d * a <= d * b
  {
  }

  lemma CeilDivMonotone(m: nat, n: nat, d: nat)
    requires d > 0 && m <= n
    ensures CeilDiv(m, d) <= CeilDiv(n, d)
  {
    var q, r := CeilDiv(m, d), CeilDiv(n, d);
    assert d * q <= m + d - 1 && n + d - 1 < d * (r + 1);
    if q >= r + 1 { MulMonotone(d, r + 1, q); }
  }

  /** The kernel's pre-admission bound on page-table pages. */
  function TablePages(mapped: nat): (n: nat) {
    1 + CeilDiv(mapped, 512) + CeilDiv(mapped, 512 * 512) + CeilDiv(mapped, 512 * 512 * 512) + 3 * LAUNCH_REGIONS
  }

  method MaximumTablePages(mapped: nat) returns (total: nat)
    ensures total == TablePages(mapped)
  {
    total := 1;
    var coverage := TABLE_ENTRIES;
    for level := 0 to TABLE_LEVELS_BELOW_ROOT
      invariant coverage == (if level == 0 then 512 else if level == 1 then 512 * 512
                             else if level == 2 then 512 * 512 * 512 else 512 * 512 * 512 * 512)
      invariant total == 1 + level * LAUNCH_REGIONS
                         + (if level >= 1 then CeilDiv(mapped, 512) else 0)
                         + (if level >= 2 then CeilDiv(mapped, 512 * 512) else 0)
                         + (if level >= 3 then CeilDiv(mapped, 512 * 512 * 512) else 0)
    {
      total := total + CeilDiv(mapped, coverage) + LAUNCH_REGIONS;
      coverage := coverage * TABLE_ENTRIES;
    }
  }

  /** The bound grows with the pages mapped. */
  lemma TablePagesMonotone(m: nat, n: nat)
    requires m <= n
    ensures TablePages(m) <= TablePages(n)
  {
    hide CeilDiv;
    CeilDivMonotone(m, n, 512);
    CeilDivMonotone(m, n, 512 * 512);
    CeilDivMonotone(m, n, 512 * 512 * 512);
  }

  function ResidentPages(private_: nat): (n: nat) {
    private_ + TablePages(private_)
  }

  const RESIDENT_LIMIT := ResidentPages(MAX_PRIVATE_PAGES)

  /** One image end rounded up to the declared-span alignment. */
  function ImageSpan(end: nat): (n: nat)
    ensures n >= end && n % IMAGE_ALIGNMENT == 0 && n < end + IMAGE_ALIGNMENT
    ensures n % PAGE_BYTES == 0
  {
    CeilDiv(end, IMAGE_ALIGNMENT) * IMAGE_ALIGNMENT
  }

  // ---- Well-formed containers ---------------------------------------------

  predicate RecordOk(r: Record) {
    && r.imageOffset % PAGE_BYTES == 0
    && r.memoryBytes > 0 && r.memoryBytes % PAGE_BYTES == 0
    && |r.payload| <= r.memoryBytes
    && 1 <= r.permissions <= 3
  }

  function RecordEnd(r: Record): (n: nat) {
    r.imageOffset + r.memoryBytes
  }

  /** Records are well formed, ascending and do not overlap. */
  predicate RecordsOk(rs: seq<Record>) {
    && (forall i | 0 <= i < |rs| :: RecordOk(rs[i]))
    && (forall i | 0 < i < |rs| :: RecordEnd(rs[i - 1]) <= rs[i].imageOffset)
  }

  function ImageEnd(rs: seq<Record>): (n: nat) {
    if rs == [] then 0 else RecordEnd(rs[|rs| - 1])
  }

  predicate EntryExecutable(entry: nat, rs: seq<Record>) {
    exists i | 0 <= i < |rs| :: rs[i].permissions == 2 && rs[i].imageOffset <= entry < RecordEnd(rs[i])
  }

  predicate WellFormed(k: Container) {
    && 1 <= |k.records| <= MAX_RECORDS
    && RecordsOk(k.records)
    && ImageSpan(ImageEnd(k.records)) <= MAX_IMAGE_SPAN_BYTES
    && EntryExecutable(k.entry, k.records)
    && (k.target.Aarch64? ==> k.entry % 4 == 0)
    && STACK_MIN <= k.stack <= STACK_MAX
    && k.heap <= HEAP_MAX
  }

  // ---- Encoding -----------------------------------------------------------

  function Payloads(rs: seq<Record>): (b: Bytes) {
    if rs == [] then [] else Payloads(rs[..|rs| - 1]) + rs[|rs| - 1].payload
  }

  /** File offset of the first payload. */
  function PayloadStart(count: nat): (n: nat) {
    HEADER_BYTES + count * RECORD_BYTES
  }

  const RECORD_FORMAT: seq<nat> := [8, 8, 8, 8, 4, 4]

  function RecordFields(r: Record, fileOffset: nat): (f: seq<nat>) {
    [r.imageOffset, fileOffset, |r.payload|, r.memoryBytes, r.permissions, 0]
  }

  /** The table entries of `rs`, whose payloads are laid out from `start`. */
  function Table(rs: seq<Record>, start: nat): (b: Bytes) {
    if rs == [] then []
    else
      var n := |rs| - 1;
      Table(rs[..n], start) + Pack(RECORD_FORMAT, RecordFields(rs[n], start + |Payloads(rs[..n])|))
  }

  function ArtifactBytes(rs: seq<Record>): (n: nat) {
    PayloadStart(|rs|) + |Payloads(rs)|
  }

  const IDENTITY_FORMAT: seq<nat> := [2, 2]
  const FIXED_FORMAT: seq<nat> := [2, 2, 2, 2, 2]
  const RELOCATION_FORMAT: seq<nat> := [4, 4, 2, 2, 4]

  function HeaderStart(k: Container): (b: Bytes)
    ensures |b| == 40
  {
    Sizes(2, 2, 2, 2, 2, 0);
    Sizes(8, 0, 0, 0, 0, 0);
    Sizes(4, 0, 0, 0, 0, 0);
    MAGIC + Pack(IDENTITY_FORMAT, [1, 2]) + Pack([2], [TargetCode(k.target)])
    + Pack(FIXED_FORMAT, [HEADER_BYTES, RECORD_BYTES, 1, 3, 0])
    + Pack([8], [k.entry]) + Pack([2, 2], [|k.records|, 0])
    + Pack([4], [ImageSpan(ImageEnd(k.records)) / PAGE_BYTES])
  }

  function HeaderEnd(k: Container): (b: Bytes)
    ensures |b| == 56
  {
    var start := PayloadStart(|k.records|);
    Sizes(8, 8, 0, 0, 0, 0);
    Sizes(4, 4, 2, 2, 4, 0);
    Pack([8, 8], [k.stack, k.heap]) + Pack([4, 4], [HEADER_BYTES, start])
    + Pack(RELOCATION_FORMAT, [start, 0, RELOCATION_BYTES, 0, 0])
    + Pack([8], [ArtifactBytes(k.records)]) + Pack([8], [0])
  }

  /** The one canonical byte string of a container. */
  function Encode(k: Container): (b: Bytes) {
    HeaderStart(k) + HeaderEnd(k) + Table(k.records, PayloadStart(|k.records|)) + Payloads(k.records)
  }

  // ---- Reading fields back ------------------------------------------------

  /** The header slices of `b`, one per field group the verifier unpacks. */
  predicate HeaderIs(b: Bytes, k: Container)
    requires |b| >= HEADER_BYTES
  {
    var start := PayloadStart(|k.records|);
    && b[..8] == MAGIC
    && b[8..12] == Pack(IDENTITY_FORMAT, [1, 2])
    && b[12..14] == Pack([2], [TargetCode(k.target)])
    && b[14..24] == Pack(FIXED_FORMAT, [HEADER_BYTES, RECORD_BYTES, 1, 3, 0])
    && b[24..32] == Pack([8], [k.entry])
    && b[32..36] == Pack([2, 2], [|k.records|, 0])
    && b[36..40] == Pack([4], [ImageSpan(ImageEnd(k.records)) / PAGE_BYTES])
    && b[40..56] == Pack([8, 8], [k.stack, k.heap])
    && b[56..64] == Pack([4, 4], [HEADER_BYTES, start])
    && b[64..80] == Pack(RELOCATION_FORMAT, [start, 0, RELOCATION_BYTES, 0, 0])
    && b[80..88] == Pack([8], [ArtifactBytes(k.records)])
    && b[88..96] == Pack([8], [0])
  }

  lemma Tile7(b: Bytes, a: Bytes, c: Bytes, d: Bytes, e: Bytes, f: Bytes, g: Bytes, h: Bytes)
    requires |b| == 40 && |a| == 8 && |c| == 4 && |d| == 2 && |e| == 10 && |f| == 8 && |g| == 4 && |h| == 4
    ensures b == a + c + d + e + f + g + h <==>
            b[..8] == a && b[8..12] == c && b[12..14] == d && b[14..24] == e
            && b[24..32] == f && b[32..36] == g && b[36..40] == h
  {
    var s := a + c + d + e + f + g + h;
    assert s[..8] == a && s[8..12] == c && s[12..14] == d && s[14..24] == e
        && s[24..32] == f && s[32..36] == g && s[36..40] == h;
    assert b == b[..8] + b[8..12] + b[12..14] + b[14..24] + b[24..32] + b[32..36] + b[36..40];
  }

  lemma Tile5(b: Bytes, a: Bytes, c: Bytes, d: Bytes, e: Bytes, f: Bytes)
    requires |b| == 56 && |a| == 16 && |c| == 8 && |d| == 16 && |e| == 8 && |f| == 8
    ensures b == a + c + d + e + f <==>
            b[..16] == a && b[16..24] == c && b[24..40] == d && b[40..48] == e && b[48..56] == f
  {
    var s := a + c + d + e + f;
    assert s[..16] == a && s[16..24] == c && s[24..40] == d && s[40..48] == e && s[48..56] == f;
    assert b == b[..16] + b[16..24] + b[24..40] + b[40..48] + b[48..56];
  }

  /** The verifier's field groups tile the header exactly. */
  lemma HeaderTiles(b: Bytes, k: Container)
    requires |b| >= HEADER_BYTES
    ensures b[..96] == HeaderStart(k) + HeaderEnd(k) <==> HeaderIs(b, k)
  {
    hide Pack, Size, ImageSpan;
    var start := PayloadStart(|k.records|);
    Sizes(2, 2, 2, 2, 2, 0);
    Sizes(8, 8, 0, 0, 0, 0);
    Sizes(4, 4, 2, 2, 4, 0);
    Tile7(b[..40], MAGIC, Pack(IDENTITY_FORMAT, [1, 2]), Pack([2], [TargetCode(k.target)]),
          Pack(FIXED_FORMAT, [HEADER_BYTES, RECORD_BYTES, 1, 3, 0]), Pack([8], [k.entry]),
          Pack([2, 2], [|k.records|, 0]), Pack([4], [ImageSpan(ImageEnd(k.records)) / PAGE_BYTES]));
    Tile5(b[40..96], Pack([8, 8], [k.stack, k.heap]), Pack([4, 4], [HEADER_BYTES, start]),
          Pack(RELOCATION_FORMAT, [start, 0, RELOCATION_BYTES, 0, 0]),
          Pack([8], [ArtifactBytes(k.records)]), Pack([8], [0]));
    HeaderSlices(b);
    assert b[..96] == b[..40] + b[40..96];
  }

  lemma HeaderSlices(b: Bytes)
    requires |b| >= HEADER_BYTES
    ensures b[..40][..8] == b[..8] && b[..40][8..12] == b[8..12] && b[..40][12..14] == b[12..14]
    ensures b[..40][14..24] == b[14..24] && b[..40][24..32] == b[24..32]
    ensures b[..40][32..36] == b[32..36] && b[..40][36..40] == b[36..40]
    ensures b[40..96][..16] == b[40..56] && b[40..96][16..24] == b[56..64] && b[40..96][24..40] == b[64..80]
    ensures b[40..96][40..48] == b[80..88] && b[40..96][48..56] == b[88..96]
  {
  }

  lemma {:induction false} TableLength(rs: seq<Record>, start: nat)
    ensures |Table(rs, start)| == |rs| * RECORD_BYTES
  {
    Sizes(8, 8, 8, 8, 4, 4);
    if rs != [] { TableLength(rs[..|rs| - 1], start); }
  }

  lemma {:induction false} PayloadPrefix(rs: seq<Record>, i: nat)
    requires i <= |rs|
    ensures Payloads(rs[..i]) <= Payloads(rs)
    decreases |rs| - i
  {
    if i < |rs| {
      PayloadPrefix(rs, i + 1);
      assert rs[..i + 1][..i] == rs[..i];
    } else {
      assert rs[..i] == rs;
    }
  }

  /** Table entry `i` and its payload, wherever they end up in the artifact. */
  lemma {:induction false} TableAt(rs: seq<Record>, start: nat, i: nat)
    requires i < |rs|
    ensures |Table(rs, start)| == |rs| * RECORD_BYTES
    ensures Table(rs, start)[i * RECORD_BYTES..(i + 1) * RECORD_BYTES]
         == Pack(RECORD_FORMAT, RecordFields(rs[i], start + |Payloads(rs[..i])|))
    decreases |rs|
  {
    hide Pack, Payloads, Size;
    var n := |rs| - 1;
    Sizes(8, 8, 8, 8, 4, 4);
    TableLength(rs, start);
    TableLength(rs[..n], start);
    var table := Table(rs[..n], start);
    if i < n {
      TableAt(rs[..n], start, i);
      assert rs[..n][..i] == rs[..i];
      assert Table(rs, start)[..|table|] == table;
    } else {
      assert Table(rs, start)[|table|..] == Pack(RECORD_FORMAT, RecordFields(rs[n], start + |Payloads(rs[..n])|));
    }
  }

  lemma {:induction false} PayloadAt(rs: seq<Record>, i: nat)
    requires i < |rs|
    ensures |Payloads(rs[..i])| + |rs[i].payload| <= |Payloads(rs)|
    ensures Payloads(rs)[|Payloads(rs[..i])|..|Payloads(rs[..i])| + |rs[i].payload|] == rs[i].payload
  {
    PayloadPrefix(rs, i + 1);
    assert rs[..i + 1][..i] == rs[..i];
  }

  // ---- Ceilings follow from disjointness ----------------------------------

  /** Pages of all records. */
  function ImagePages(rs: seq<Record>): (n: nat) {
    if rs == [] then 0 else ImagePages(rs[..|rs| - 1]) + rs[|rs| - 1].memoryBytes / PAGE_BYTES
  }

  /** Disjoint records inside the span occupy, and carry, no more than the span. */
  lemma {:induction false} PagesFitSpan(rs: seq<Record>)
    requires RecordsOk(rs)
    ensures ImagePages(rs) * PAGE_BYTES <= ImageEnd(rs)
    ensures |Payloads(rs)| <= ImageEnd(rs)
  {
    if rs != [] {
      PagesFitSpan(rs[..|rs| - 1]);
    }
  }

  /** Neither the resident-page nor the encoded-byte ceiling can refuse a well-formed container. */
  lemma CeilingsNeverBind(k: Container)
    requires WellFormed(k)
    ensures ResidentPages(ImagePages(k.records) + 3 + k.stack + k.heap) <= RESIDENT_LIMIT
    ensures ArtifactBytes(k.records) <= MAX_ENCODED_BYTES
  {
    PagesFitSpan(k.records);
    TablePagesMonotone(ImagePages(k.records) + 3 + k.stack + k.heap, MAX_PRIVATE_PAGES);
  }

  /** Every field of a well-formed container fits the width it is packed in. */
  lemma FieldsFit(k: Container)
    requires WellFormed(k)
    ensures k.entry < U64 && k.stack < U64 && k.heap < U64
    ensures PayloadStart(|k.records|) < U32 && ArtifactBytes(k.records) < U64
    ensures ImageSpan(ImageEnd(k.records)) / PAGE_BYTES < U32
    ensures forall i | 0 <= i < |k.records| :: RecordEnd(k.records[i]) <= ImageEnd(k.records) < U32
  {
    CeilingsNeverBind(k);
    forall i | 0 <= i < |k.records| ensures RecordEnd(k.records[i]) <= ImageEnd(k.records) {
      EndsAscend(k.records, i);
    }
  }

  lemma {:induction false} EndsAscend(rs: seq<Record>, i: nat)
    requires RecordsOk(rs) && i < |rs|
    ensures RecordEnd(rs[i]) <= ImageEnd(rs)
    decreases |rs| - i
  {
    if i + 1 < |rs| { EndsAscend(rs, i + 1); }
  }
}
