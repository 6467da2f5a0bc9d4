/** GPT protective MBR and header sectors (sections 5.2.3 and 5.3.2 of the UEFI
    Specification 2.11), as the disk builders write them. */
module GptHeader {
  import opened ByteCodec
  import opened Crc
  import S = Struct

  const SECTOR_BYTES := 512
  const GPT_REVISION := 0x0001_0000
  const HEADER_BYTES := 92
  const ENTRY_COUNT := 128
  const ENTRY_BYTES := 128
  const ARRAY_BYTES := ENTRY_COUNT * ENTRY_BYTES
  const ARRAY_SECTORS := ARRAY_BYTES / SECTOR_BYTES
  const FIRST_USABLE_LBA := 2 + ARRAY_SECTORS
  const GPT_MAGIC: Bytes := [0x45, 0x46, 0x49, 0x20, 0x50, 0x41, 0x52, 0x54]

  const FIXED_WIDTHS: seq<nat> := [4, 4, 4, 4]
  const LBA_WIDTHS: seq<nat> := [8, 8, 8, 8]
  const ARRAY_WIDTHS: seq<nat> := [8, 4, 4, 4]

  function ProtectiveMbr(totalSectors: nat): (b: Bytes)
    requires totalSectors >= 2
    ensures |b| == SECTOR_BYTES
  {
    Zeros(447) + [0x00, 0x02, 0x00, 0xEE, 0xFF, 0xFF, 0xFF] + ToLE(1, 4)
    + ToLE(if totalSectors - 1 < 0xFFFF_FFFF then totalSectors - 1 else 0xFFFF_FFFF, 4) + Zeros(48) + [0x55, 0xAA]
  }

  datatype Header = Header(current: nat, backup: nat, firstUsable: nat, lastUsable: nat,
                           diskGuid: Bytes, entryLba: nat, entryCrc: nat)

  predicate HeaderFits(h: Header) {
    && h.current < U64 && h.backup < U64 && h.firstUsable < U64 && h.lastUsable < U64
    && h.entryLba < U64 && h.entryCrc < U32
    && |h.diskGuid| == 16 && !AllZero(h.diskGuid)
  }

  /** ASCII text as UTF-16LE. */
  function Wide(s: Bytes): (r: Bytes)
    ensures |r| == 2 * |s|
  {
    if s == [] then [] else [s[0], 0] + Wide(s[1..])
  }

  function LbaRange(first: nat, last: nat): (b: Bytes)
    ensures |b| == 24
  {
    S.Sizes(8, 8, 8, 0, 0, 0);
    S.Pack([8, 8, 8], [first, last, 0])
  }

  /** The checksummed bytes with the checksum zeroed. */
  function Unchecked(sector: Bytes): (b: Bytes)
    requires |sector| == SECTOR_BYTES
  {
    Patch(sector[..HEADER_BYTES], 16, [0, 0, 0, 0])
  }

  function FixedFields(crc: nat): (b: Bytes)
    ensures |b| == 16
  {
    S.Sizes(4, 4, 4, 4, 0, 0);
    S.Pack(FIXED_WIDTHS, [GPT_REVISION, HEADER_BYTES, crc, 0])
  }

  function LbaFields(h: Header): (b: Bytes)
    ensures |b| == 32
  {
    S.Sizes(8, 8, 8, 8, 0, 0);
    S.Pack(LBA_WIDTHS, [h.current, h.backup, h.firstUsable, h.lastUsable])
  }

  function ArrayFields(h: Header): (b: Bytes)
    ensures |b| == 20
  {
    S.Sizes(8, 4, 4, 4, 0, 0);
    S.Pack(ARRAY_WIDTHS, [h.entryLba, ENTRY_COUNT, ENTRY_BYTES, h.entryCrc])
  }

  /** `sector` is the header `h` with its own checksum. */
  predicate HeaderIs(sector: Bytes, h: Header) {
    && |sector| == SECTOR_BYTES
    && sector[..8] == GPT_MAGIC
    && sector[8..24] == FixedFields(Crc32Of(Unchecked(sector)))
    && sector[24..56] == LbaFields(h)
    && sector[56..72] == h.diskGuid
    && sector[72..HEADER_BYTES] == ArrayFields(h)
    && AllZero(sector[HEADER_BYTES..])
  }

  lemma FixedSplits(crc: nat)
    ensures FixedFields(crc) == FixedFields(0)[..8] + ToLE(crc, 4) + Zeros(4)
  {
    S.Sizes(4, 4, 4, 4, 0, 0);
    var w: seq<nat>, v: seq<nat> := [4, 4], [GPT_REVISION, HEADER_BYTES];
    PackPair(crc);
    PackPair(0);
    S.PackAppend(w, v, w, [crc, 0]);
    S.PackAppend(w, v, w, [0, 0]);
    assert w + w == FIXED_WIDTHS && v + [crc, 0] == [GPT_REVISION, HEADER_BYTES, crc, 0];
    assert v + [0, 0] == [GPT_REVISION, HEADER_BYTES, 0, 0];
  }

  lemma PackPair(x: nat)
    ensures S.Size([4, 4]) == 8 && S.Pack([4, 4], [x, 0]) == ToLE(x, 4) + Zeros(4)
  {
    S.Sizes(4, 4, 0, 0, 0, 0);
    assert S.Pack([], []) == [];
    assert [4][1..] == [] && [0][1..] == [];
    assert S.Pack([4], [0]) == ToLE(0, 4) + S.Pack([], []);
    LEThenToLE(Zeros(4));
    LEZeros(Zeros(4));
    assert [4, 4][1..] == [4] && [x, 0][1..] == [0];
  }

  lemma SameCheckedByte(a: Bytes, b: Bytes, h: Header, i: nat)
    requires HeaderIs(a, h) && HeaderIs(b, h) && i < HEADER_BYTES
    ensures Unchecked(a)[i] == Unchecked(b)[i]
  {
    hide Crc32Of, FixedFields, LbaFields, ArrayFields, Patch;
    var x, y := Unchecked(a), Unchecked(b);
    if 8 <= i < 24 {
      FixedSplits(Crc32Of(x));
      FixedSplits(Crc32Of(y));
      if 16 <= i < 20 {
        assert x[i] == x[16..20][i - 16] && y[i] == y[16..20][i - 16];
      } else {
        assert a[i] == a[8..24][i - 8] && b[i] == b[8..24][i - 8];
      }
    } else {
      SameByte(a, b, h, i);
    }
  }

  /** A header has exactly one sector. */
  lemma HeaderSectorUnique(a: Bytes, b: Bytes, h: Header)
    requires HeaderIs(a, h) && HeaderIs(b, h)
    ensures a == b
  {
    hide Crc32Of, FixedFields, LbaFields, ArrayFields, Patch;
    forall i | 0 <= i < HEADER_BYTES ensures Unchecked(a)[i] == Unchecked(b)[i] { SameCheckedByte(a, b, h, i); }
    assert Unchecked(a) == Unchecked(b);
    forall i | 0 <= i < SECTOR_BYTES ensures a[i] == b[i] {
      if 8 <= i < 24 { assert a[i] == a[8..24][i - 8] && b[i] == b[8..24][i - 8]; } else { SameByte(a, b, h, i); }
    }
  }

  lemma SameByte(a: Bytes, b: Bytes, h: Header, i: nat)
    requires HeaderIs(a, h) && HeaderIs(b, h) && i < SECTOR_BYTES && !(8 <= i < 24)
    ensures a[i] == b[i]
  {
    hide Crc32Of, FixedFields, LbaFields, ArrayFields, Unchecked;
    if i < 8 { assert a[i] == a[..8][i] == b[..8][i]; }
    else if i < 56 { assert a[i] == a[24..56][i - 24] == b[24..56][i - 24]; }
    else if i < 72 { assert a[i] == a[56..72][i - 56] == b[56..72][i - 56]; }
    else if i < HEADER_BYTES { assert a[i] == a[72..HEADER_BYTES][i - 72] == b[72..HEADER_BYTES][i - 72]; }
    else { assert a[HEADER_BYTES..][i - HEADER_BYTES] == 0 == b[HEADER_BYTES..][i - HEADER_BYTES]; }
  }

  // ---- Building and parsing -----------------------------------------------

  /** Every field but the checksum is in place. */
  ghost predicate Laid(sector: Bytes, h: Header) {
    && |sector| == SECTOR_BYTES
    && sector[..8] == GPT_MAGIC && sector[8..24] == FixedFields(0)
    && sector[24..56] == LbaFields(h) && sector[56..72] == h.diskGuid
    && sector[72..HEADER_BYTES] == ArrayFields(h) && AllZero(sector[HEADER_BYTES..])
  }

  lemma LayFields(h: Header)
    requires |h.diskGuid| == 16
    ensures Laid(Patch(Patch(Patch(Patch(Patch(Zeros(SECTOR_BYTES), 0, GPT_MAGIC), 8, FixedFields(0)),
                                   24, LbaFields(h)), 56, h.diskGuid), 72, ArrayFields(h)), h)
  {
    hide FixedFields, LbaFields, ArrayFields, Patch;
    var a := Patch(Zeros(SECTOR_BYTES), 0, GPT_MAGIC);
    var b := Patch(a, 8, FixedFields(0));
    var c := Patch(b, 24, LbaFields(h));
    var d := Patch(c, 56, h.diskGuid);
    var e := Patch(d, 72, ArrayFields(h));
    assert e[..8] == a[..8] && e[8..24] == b[8..24] && e[24..56] == c[24..56] && e[56..72] == d[56..72];
    assert forall i | HEADER_BYTES <= i < SECTOR_BYTES :: e[i] == 0;
  }

  lemma SealHeader(sector: Bytes, h: Header, crc: nat)
    requires Laid(sector, h) && crc == Crc32Of(Unchecked(sector))
    ensures HeaderIs(Patch(sector, 16, ToLE(crc, 4)), h)
  {
    hide Crc32Of, FixedFields, LbaFields, ArrayFields, Patch;
    var sealed := Patch(sector, 16, ToLE(crc, 4));
    FixedSplits(crc);
    FixedSplits(0);
    forall i | 0 <= i < HEADER_BYTES ensures Unchecked(sealed)[i] == Unchecked(sector)[i] {
      if 16 <= i < 20 {
        assert Unchecked(sealed)[i] == Unchecked(sealed)[16..20][i - 16];
        assert Unchecked(sector)[i] == Unchecked(sector)[16..20][i - 16];
      }
    }
    assert Unchecked(sealed) == Unchecked(sector);
    forall i | 8 <= i < 24 ensures sealed[i] == FixedFields(crc)[i - 8] {
      if 16 <= i < 20 {
        assert sealed[i] == sealed[16..20][i - 16];
      } else {
        assert sealed[i] == sector[i] == sector[8..24][i - 8] == FixedFields(0)[i - 8];
      }
    }
    assert sealed[8..24] == FixedFields(crc);
    assert sealed[..8] == sector[..8] && sealed[24..56] == sector[24..56] && sealed[56..72] == sector[56..72];
    assert sealed[72..HEADER_BYTES] == sector[72..HEADER_BYTES] && sealed[HEADER_BYTES..] == sector[HEADER_BYTES..];
  }

  method BuildHeader(h: Header) returns (r: Option<Bytes>)
    ensures r.Some? <==> HeaderFits(h)
    ensures r.Some? ==> HeaderIs(r.value, h)
  {
    hide Crc32Of, FixedFields, LbaFields, ArrayFields, Patch, Laid, HeaderIs, Unchecked;
    if !HeaderFits(h) { return None; }
    var sector := new Byte[SECTOR_BYTES](_ => 0);
    assert sector[..] == Zeros(SECTOR_BYTES);
    LayFields(h);
    Blit(sector, 0, GPT_MAGIC);
    Blit(sector, 8, FixedFields(0));
    Blit(sector, 24, LbaFields(h));
    Blit(sector, 56, h.diskGuid);
    Blit(sector, 72, ArrayFields(h));
    var crc := Crc32Of(Unchecked(sector[..]));
    SealHeader(sector[..], h, crc);
    Blit(sector, 16, ToLE(crc, 4));
    return Some(sector[..]);
  }

  /** What the parser checks of the fields themselves. */
  predicate HeaderPlausible(h: Header, lba: nat, totalSectors: nat) {
    && h.current == lba && h.backup < totalSectors && h.firstUsable <= h.lastUsable < totalSectors
    && !AllZero(h.diskGuid)
  }

  lemma FieldsByUnpack(sector: Bytes, h: Header)
    requires |sector| == SECTOR_BYTES && HeaderFits(h)
    ensures S.Size(FIXED_WIDTHS) == 16 && S.Size(LBA_WIDTHS) == 32 && S.Size(ARRAY_WIDTHS) == 20
    ensures sector[24..56] == LbaFields(h)
       <==> S.UnpackFrom(LBA_WIDTHS, sector, 24) == [h.current, h.backup, h.firstUsable, h.lastUsable]
    ensures sector[72..HEADER_BYTES] == ArrayFields(h)
       <==> S.UnpackFrom(ARRAY_WIDTHS, sector, 72) == [h.entryLba, ENTRY_COUNT, ENTRY_BYTES, h.entryCrc]
  {
    hide S.Pack, S.UnpackFrom, S.Size;
    Widths();
    S.Sizes(4, 4, 4, 4, 0, 0);
    S.Sizes(8, 8, 8, 8, 0, 0);
    S.Sizes(8, 4, 4, 4, 0, 0);
    S.SliceIsPacked(LBA_WIDTHS, sector, 24, [h.current, h.backup, h.firstUsable, h.lastUsable]);
    S.SliceIsPacked(ARRAY_WIDTHS, sector, 72, [h.entryLba, ENTRY_COUNT, ENTRY_BYTES, h.entryCrc]);
  }

  lemma FixedByUnpack(sector: Bytes)
    requires |sector| == SECTOR_BYTES
    ensures S.Size(FIXED_WIDTHS) == 16
    ensures sector[8..24] == FixedFields(Crc32Of(Unchecked(sector)))
       <==> S.UnpackFrom(FIXED_WIDTHS, sector, 8) == [GPT_REVISION, HEADER_BYTES, Crc32Of(Unchecked(sector)), 0]
  {
    hide S.Pack, S.UnpackFrom, S.Size, Crc32Of, Unchecked;
    Widths();
    S.Sizes(4, 4, 4, 4, 0, 0);
    Crc32Bound(Unchecked(sector));
    S.SliceIsPacked(FIXED_WIDTHS, sector, 8, [GPT_REVISION, HEADER_BYTES, Crc32Of(Unchecked(sector)), 0]);
  }

  /** Accepts exactly the sectors that are some plausible header, and returns that header. */
  method ParseHeader(sector: Bytes, lba: nat, totalSectors: nat) returns (r: Option<Header>)
    requires |sector| == SECTOR_BYTES
    ensures r.Some? ==> HeaderFits(r.value) && HeaderIs(sector, r.value) && HeaderPlausible(r.value, lba, totalSectors)
    ensures forall h | HeaderFits(h) && HeaderIs(sector, h) && HeaderPlausible(h, lba, totalSectors) :: r == Some(h)
  {
    hide Crc32Of, FixedFields, LbaFields, ArrayFields, Unchecked, S.Size, S.UnpackFrom;
    FixedByUnpack(sector);
    if sector[..8] != GPT_MAGIC { return None; }
    var fixed := S.UnpackFrom(FIXED_WIDTHS, sector, 8);
    if fixed[0] != GPT_REVISION || fixed[1] != HEADER_BYTES || fixed[3] != 0 { return None; }
    if !AllZero(sector[HEADER_BYTES..]) { return None; }
    if fixed[2] != Crc32Of(Unchecked(sector)) { return None; }
    assert fixed == [GPT_REVISION, HEADER_BYTES, fixed[2], 0];
    forall h | HeaderFits(h) && HeaderIs(sector, h)
      ensures S.Size(LBA_WIDTHS) == 32 && S.Size(ARRAY_WIDTHS) == 20
      ensures S.UnpackFrom(LBA_WIDTHS, sector, 24) == [h.current, h.backup, h.firstUsable, h.lastUsable]
      ensures S.UnpackFrom(ARRAY_WIDTHS, sector, 72) == [h.entryLba, ENTRY_COUNT, ENTRY_BYTES, h.entryCrc]
    {
      FieldsByUnpack(sector, h);
    }
    S.Sizes(8, 8, 8, 8, 0, 0);
    S.Sizes(8, 4, 4, 4, 0, 0);
    var lbas, array_ := S.UnpackFrom(LBA_WIDTHS, sector, 24), S.UnpackFrom(ARRAY_WIDTHS, sector, 72);
    var h := Header(lbas[0], lbas[1], lbas[2], lbas[3], sector[56..72], array_[0], array_[3]);
    if !HeaderPlausible(h, lba, totalSectors) { return None; }
    if array_[1] != ENTRY_COUNT || array_[2] != ENTRY_BYTES { return None; }
    UnpackedFits(sector, h);
    FieldsByUnpack(sector, h);
    assert lbas == [lbas[0], lbas[1], lbas[2], lbas[3]];
    assert array_ == [array_[0], ENTRY_COUNT, ENTRY_BYTES, array_[3]];
    return Some(h);
  }

  lemma UnpackedFits(sector: Bytes, h: Header)
    requires |sector| == SECTOR_BYTES && S.Size(LBA_WIDTHS) == 32 && S.Size(ARRAY_WIDTHS) == 20
    requires var l, a := S.UnpackFrom(LBA_WIDTHS, sector, 24), S.UnpackFrom(ARRAY_WIDTHS, sector, 72);
             h == Header(l[0], l[1], l[2], l[3], sector[56..72], a[0], a[3])
    requires !AllZero(h.diskGuid)
    ensures HeaderFits(h)
  {
    hide S.UnpackFrom;
    Widths();
  }
}
