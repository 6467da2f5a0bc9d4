/** The KEFS v1 image: encoder, independent decoder, and their being mutually inverse. */
module Kefs {
  import opened ByteCodec
  import opened KefsPath
  import S = Struct

  const MAGIC: Bytes := [0x4B, 0x45, 0x46, 0x53, 0x76, 0x31, 0, 0]
  const HEADER_SIZE := 16
  const MAX_ENTRIES := 0xFFFF
  const FILE := 1
  const DIRECTORY := 2
  const RECORD_WIDTHS: seq<nat> := [1, 2, 4]
  const HEADER_WIDTHS: seq<nat> := [2, 2, 4]

  datatype Entry = Entry(kind: nat, path: Bytes, payload: Bytes)

  // ---- Layout -------------------------------------------------------------

  /** The record fields fit their widths. */
  predicate Encodable(e: Entry) {
    e.kind < 256 && |e.path| < U16 && |e.payload| < U32
  }

  function RecordHeader(e: Entry): (b: Bytes)
    ensures |b| == 7
  {
    S.Sizes(1, 2, 4, 0, 0, 0);
    S.Pack(RECORD_WIDTHS, [e.kind, |e.path|, |e.payload|])
  }

  function Record(e: Entry): (b: Bytes)
    ensures |b| == 7 + |e.path| + |e.payload|
  {
    RecordHeader(e) + e.path + e.payload
  }

  function Records(es: seq<Entry>): (b: Bytes) {
    if es == [] then [] else Records(es[..|es| - 1]) + Record(es[|es| - 1])
  }

  function Header(count: nat, total: nat): (b: Bytes)
    ensures |b| == HEADER_SIZE
  {
    S.Sizes(2, 2, 4, 0, 0, 0);
    MAGIC + S.Pack(HEADER_WIDTHS, [count, 0, total])
  }

  function Image(es: seq<Entry>): (b: Bytes)
    ensures |b| == HEADER_SIZE + |Records(es)|
  {
    Header(|es|, HEADER_SIZE + |Records(es)|) + Records(es)
  }

  /** Everything fits the fields of an image. */
  predicate Fits(es: seq<Entry>) {
    |es| <= MAX_ENTRIES && HEADER_SIZE + |Records(es)| < U32 && forall i | 0 <= i < |es| :: Encodable(es[i])
  }

  method Encode(es: seq<Entry>) returns (r: Option<Bytes>)
    ensures r == if Fits(es) then Some(Image(es)) else None
  {
    hide Record;
    if |es| > MAX_ENTRIES { return None; }
    var records: Bytes := [];
    for i := 0 to |es|
      invariant records == Records(es[..i]) && forall k | 0 <= k < i :: Encodable(es[k])
    {
      if !Encodable(es[i]) { return None; }
      assert es[..i + 1][..i] == es[..i];
      records := records + Record(es[i]);
    }
    assert es[..|es|] == es;
    var total := HEADER_SIZE + |records|;
    if total >= U32 { return None; }
    return Some(Header(|es|, total) + records);
  }

  // ---- Well-formed entry lists --------------------------------------------

  predicate EntryOk(e: Entry) {
    && (e.kind == FILE || e.kind == DIRECTORY)
    && PathOk(e.path) && |e.payload| < U32
    && (e.kind == DIRECTORY ==> e.payload == [])
  }

  predicate IsDirectory(e: Entry, path: Bytes) {
    e.path == path && e.kind == DIRECTORY
  }

  /** The parent of `path` is the root or a directory of the list. */
  predicate HasParent(es: seq<Entry>, path: Bytes) {
    Parent(path) == [SLASH] || exists j :: 0 <= j < |es| && IsDirectory(es[j], Parent(path))
  }

  predicate Ascending(es: seq<Entry>) {
    forall i | 0 < i < |es| :: Less(es[i - 1].path, es[i].path)
  }

  /** What the decoder requires of the entries in order. */
  predicate Ordered(es: seq<Entry>) {
    && (forall i | 0 <= i < |es| :: EntryOk(es[i]))
    && Ascending(es)
    && (forall i | 0 <= i < |es| :: HasParent(es[..i], es[i].path))
  }

  predicate WellFormed(es: seq<Entry>) {
    Ordered(es) && Fits(es)
  }

  /** A tree in any order: every parent is somewhere in it. */
  predicate TreeOk(es: seq<Entry>) {
    && Fits(es)
    && (forall i | 0 <= i < |es| :: EntryOk(es[i]))
    && (forall i | 0 <= i < |es| :: HasParent(es, es[i].path))
  }

  lemma {:induction false} AscendingPairs(es: seq<Entry>, i: nat, j: nat)
    requires Ascending(es) && i < j < |es|
    ensures Less(es[i].path, es[j].path)
    decreases j
  {
    if i < j - 1 {
      AscendingPairs(es, i, j - 1);
      Transitive(es[i].path, es[j - 1].path, es[j].path);
    }
  }

  /** Sorting by path bytes puts every parent before its children. */
  lemma ParentComesFirst(es: seq<Entry>, i: nat)
    requires Ascending(es) && i < |es| && EntryOk(es[i]) && HasParent(es, es[i].path)
    ensures HasParent(es[..i], es[i].path)
  {
    var p := es[i].path;
    if Parent(p) != [SLASH] {
      var j :| 0 <= j < |es| && IsDirectory(es[j], Parent(p));
      ParentIsPrefix(p);
      if j == i {
        Irreflexive(p);
      } else if i < j {
        AscendingPairs(es, i, j);
        Trichotomy(p, Parent(p));
      }
      assert IsDirectory(es[..i][j], Parent(p));
    }
  }

  /** A list sorted by path bytes is accepted exactly when it is a tree. */
  lemma SortedTree(es: seq<Entry>)
    requires Ascending(es)
    ensures WellFormed(es) <==> TreeOk(es)
  {
    hide EntryOk, Fits, Parent;
    if TreeOk(es) {
      forall i | 0 <= i < |es| ensures HasParent(es[..i], es[i].path) { ParentComesFirst(es, i); }
    }
    if WellFormed(es) {
      forall i | 0 <= i < |es| ensures HasParent(es, es[i].path) {
        assert HasParent(es[..i], es[i].path);
        if Parent(es[i].path) != [SLASH] {
          var j :| 0 <= j < i && IsDirectory(es[..i][j], Parent(es[i].path));
          assert IsDirectory(es[j], Parent(es[i].path));
        }
      }
    }
  }

  // ---- Records in an image ------------------------------------------------

  lemma HeaderBytes(e: Entry, b: Bytes)
    requires Encodable(e) && |b| == 7
    ensures |b| == S.Size(RECORD_WIDTHS)
    ensures S.Unpack(RECORD_WIDTHS, b) == [e.kind, |e.path|, |e.payload|] <==> b == RecordHeader(e)
  {
    hide S.Pack, S.Unpack, S.Size;
    Widths();
    S.Sizes(1, 2, 4, 0, 0, 0);
    var v: seq<nat> := [e.kind, |e.path|, |e.payload|];
    assert S.Fits(RECORD_WIDTHS, v);
    S.PackThenUnpack(RECORD_WIDTHS, v);
    S.UnpackThenPack(RECORD_WIDTHS, b);
  }

  /** The three parts of a record at `at`. */
  predicate RecordParts(image: Bytes, at: nat, e: Entry) {
    var p, d := at + 7, at + 7 + |e.path|;
    d + |e.payload| <= |image|
    && image[at..p] == RecordHeader(e) && image[p..d] == e.path && image[d..d + |e.payload|] == e.payload
  }

  lemma RecordAt(image: Bytes, at: nat, e: Entry)
    requires at + |Record(e)| <= |image|
    ensures image[at..at + |Record(e)|] == Record(e) <==> RecordParts(image, at, e)
  {
    hide RecordHeader;
    var p, d, end := at + 7, at + 7 + |e.path|, at + |Record(e)|;
    var s, h := image[at..end], RecordHeader(e);
    assert s[..7] == image[at..p] && s[7..7 + |e.path|] == image[p..d] && s[7 + |e.path|..] == image[d..end];
    if s == Record(e) {
      assert (h + e.path + e.payload)[..7] == h && (h + e.path + e.payload)[7..7 + |e.path|] == e.path;
      assert (h + e.path + e.payload)[7 + |e.path|..] == e.payload;
    }
    if RecordParts(image, at, e) {
      assert s == s[..7] + s[7..7 + |e.path|] + s[7 + |e.path|..];
    }
  }

  lemma {:induction false} RecordsPrefix(es: seq<Entry>, n: nat)
    requires n <= |es|
    ensures Records(es[..n]) <= Records(es)
    decreases |es|
  {
    hide Record;
    if n < |es| {
      RecordsPrefix(es[..|es| - 1], n);
      assert es[..|es| - 1][..n] == es[..n];
    } else {
      assert es[..n] == es;
    }
  }

  /** Where record `n` of a list starts. */
  function Offset(es: seq<Entry>, n: nat): (at: nat)
    requires n <= |es|
  {
    HEADER_SIZE + |Records(es[..n])|
  }

  lemma RecordOfImage(es: seq<Entry>, n: nat)
    requires n < |es|
    ensures Offset(es, n + 1) == Offset(es, n) + |Record(es[n])| <= |Image(es)|
    ensures RecordParts(Image(es), Offset(es, n), es[n])
  {
    hide Record, Header, RecordParts;
    assert es[..n + 1][..n] == es[..n];
    var before, r := Records(es[..n]), Record(es[n]);
    assert Records(es[..n + 1]) == before + r;
    RecordsPrefix(es, n + 1);
    var all := Records(es);
    assert all[..|before| + |r|] == before + r;
    SubSlice(all, 0, |before| + |r|, |before|, |before| + |r|);
    assert all[0..|before| + |r|] == before + r;
    assert all[|before|..|before| + |r|] == r;
    assert Image(es)[HEADER_SIZE + |before|..HEADER_SIZE + |before| + |r|] == all[|before|..|before| + |r|];
    RecordAt(Image(es), Offset(es, n), es[n]);
  }

  // ---- Decoder ------------------------------------------------------------

  /** `image` is the encoding of the well-formed list `es`. */
  predicate Decodes(image: Bytes, es: seq<Entry>) {
    WellFormed(es) && image == Image(es)
  }

  /** The records read so far. */
  ghost predicate ReadSoFar(image: Bytes, es: seq<Entry>, at: nat) {
    && HEADER_SIZE <= at <= |image| && Ordered(es)
    && image[HEADER_SIZE..at] == Records(es)
    && forall i | 0 <= i < |es| :: Encodable(es[i])
  }

  ghost predicate KindsAre(kinds: map<Bytes, nat>, es: seq<Entry>) {
    && (forall i | 0 <= i < |es| :: es[i].path in kinds && kinds[es[i].path] == es[i].kind)
    && (forall p | p in kinds :: exists i :: 0 <= i < |es| && es[i].path == p && es[i].kind == kinds[p])
  }

  predicate ParentOk(kinds: map<Bytes, nat>, path: Bytes) {
    var p := Parent(path);
    p == [SLASH] || (p in kinds && kinds[p] == DIRECTORY)
  }

  lemma ParentByKinds(kinds: map<Bytes, nat>, es: seq<Entry>, path: Bytes)
    requires KindsAre(kinds, es)
    ensures ParentOk(kinds, path) <==> HasParent(es, path)
  {
    hide Parent;
    var p := Parent(path);
    if p in kinds && kinds[p] == DIRECTORY {
      var i :| 0 <= i < |es| && es[i].path == p && es[i].kind == kinds[p];
      assert IsDirectory(es[i], p);
    }
  }

  /** The path may follow the entries read so far. */
  predicate Follows(es: seq<Entry>, path: Bytes) {
    es == [] || Less(es[|es| - 1].path, path)
  }

  lemma ReadOne(image: Bytes, es: seq<Entry>, at: nat, e: Entry)
    requires ReadSoFar(image, es, at) && RecordParts(image, at, e)
    requires EntryOk(e) && Follows(es, e.path) && HasParent(es, e.path)
    ensures ReadSoFar(image, es + [e], at + |Record(e)|)
  {
    hide EntryOk, RecordParts, HasParent, Record;
    var end, all := at + |Record(e)|, es + [e];
    RecordEnd(image, at, e);
    RecordAt(image, at, e);
    assert all[..|es|] == es;
    assert image[HEADER_SIZE..end] == image[HEADER_SIZE..at] + image[at..end];
    OrderedAppend(es, e);
    EntryEncodes(e);
  }

  lemma RecordEnd(image: Bytes, at: nat, e: Entry)
    requires RecordParts(image, at, e)
    ensures at + |Record(e)| <= |image|
  {
  }

  lemma EntryEncodes(e: Entry)
    requires EntryOk(e)
    ensures Encodable(e)
  {
  }

  lemma OrderedAppend(es: seq<Entry>, e: Entry)
    requires Ordered(es)
    ensures Ordered(es + [e]) <==> EntryOk(e) && Follows(es, e.path) && HasParent(es, e.path)
  {
    hide EntryOk, HasParent, Less;
    var all := es + [e];
    assert all[..|es|] == es && all[|es|] == e;
    forall i | 0 <= i < |es| ensures all[i] == es[i] && all[..i] == es[..i] {}
    if Ordered(all) { assert EntryOk(all[|es|]) && HasParent(all[..|es|], all[|es|].path); }
  }

  lemma OrderedPrefix(es: seq<Entry>, n: nat)
    requires Ordered(es) && n <= |es|
    ensures Ordered(es[..n])
  {
    hide EntryOk, HasParent, Less;
    forall i | 0 <= i < n ensures es[..n][..i] == es[..i] {}
    assert forall i | 0 <= i < n :: es[..n][i] == es[i];
  }

  /** The next record of an encoded list passes every check. */
  lemma NextIsAccepted(image: Bytes, all: seq<Entry>, n: nat)
    requires Decodes(image, all) && n < |all|
    ensures RecordParts(image, Offset(all, n), all[n])
    ensures EntryOk(all[n]) && Follows(all[..n], all[n].path) && HasParent(all[..n], all[n].path)
    ensures Offset(all, n + 1) == Offset(all, n) + |Record(all[n])|
  {
    hide EntryOk, HasParent, Less, RecordParts, Record, Image;
    RecordOfImage(all, n);
    OrderedPrefix(all, n);
    OrderedPrefix(all, n + 1);
    assert all[..n + 1] == all[..n] + [all[n]];
    OrderedAppend(all[..n], all[n]);
  }

  /** One record: its entry and the offset after it. */
  method DecodeRecord(image: Bytes, at: nat) returns (r: Option<(Entry, nat)>)
    requires at <= |image|
    ensures r.Some? ==> EntryOk(r.value.0) && RecordParts(image, at, r.value.0) && r.value.1 == at + |Record(r.value.0)|
    ensures forall e | EntryOk(e) && RecordParts(image, at, e) :: r == Some((e, at + |Record(e)|))
  {
    hide S.Unpack, PathOk, RecordHeader;
    S.Sizes(1, 2, 4, 0, 0, 0);
    if at + 7 > |image| { return None; }
    var header := S.Unpack(RECORD_WIDTHS, image[at..at + 7]);
    forall e | EntryOk(e) && RecordParts(image, at, e) ensures header == [e.kind, |e.path|, |e.payload|] {
      EntryEncodes(e);
      HeaderBytes(e, image[at..at + 7]);
    }
    Widths();
    var kind, pathLength, dataLength := header[0], header[1], header[2];
    if !(kind == FILE || kind == DIRECTORY) || at + 7 + pathLength > |image| { return None; }
    var path := image[at + 7..at + 7 + pathLength];
    if !PathOk(path) { return None; }
    var data := at + 7 + pathLength;
    if data + dataLength > |image| { return None; }
    var payload := image[data..data + dataLength];
    if kind == DIRECTORY && payload != [] { return None; }
    var e := Entry(kind, path, payload);
    HeaderBytes(e, image[at..at + 7]);
    assert header == [kind, pathLength, dataLength];
    return Some((e, data + dataLength));
  }

  /** Every list that encodes to `image` starts with `es` and continues at `at`. */
  ghost predicate Agrees(image: Bytes, es: seq<Entry>, at: nat) {
    forall all | Decodes(image, all) :: |es| <= |all| && es == all[..|es|] && at == Offset(all, |es|)
  }

  lemma AgreesStep(image: Bytes, es: seq<Entry>, at: nat, next: Option<(Entry, nat)>)
    requires Agrees(image, es, at) && forall all | Decodes(image, all) :: |es| < |all|
    requires forall e | EntryOk(e) && RecordParts(image, at, e) :: next == Some((e, at + |Record(e)|))
    ensures (exists all :: Decodes(image, all)) ==>
              next.Some? && Follows(es, next.value.0.path) && HasParent(es, next.value.0.path)
    ensures next.Some? ==> Agrees(image, es + [next.value.0], next.value.1)
  {
    hide Decodes, EntryOk, RecordParts, Record, Follows, HasParent, Offset;
    forall all | Decodes(image, all)
      ensures next.Some? && Follows(es, next.value.0.path) && HasParent(es, next.value.0.path)
      ensures es + [next.value.0] == all[..|es| + 1] && next.value.1 == Offset(all, |es| + 1)
    {
      NextIsAccepted(image, all, |es|);
    }
  }

  lemma HeaderFields(image: Bytes, count: nat)
    requires |image| >= HEADER_SIZE && |image| < U32 && count < U16
    ensures S.Size(HEADER_WIDTHS) == 8
    ensures image[..HEADER_SIZE] == Header(count, |image|)
       <==> image[..8] == MAGIC && S.UnpackFrom(HEADER_WIDTHS, image, 8) == [count, 0, |image|]
  {
    hide S.Pack, S.UnpackFrom, S.Size;
    Widths();
    S.Sizes(2, 2, 4, 0, 0, 0);
    var v: seq<nat> := [count, 0, |image|];
    S.SliceIsPacked(HEADER_WIDTHS, image, 8, v);
    assert image[..HEADER_SIZE] == image[..8] + image[8..16];
    assert image[..HEADER_SIZE][..8] == image[..8] && image[..HEADER_SIZE][8..] == image[8..16];
    assert Header(count, |image|)[..8] == MAGIC && Header(count, |image|)[8..] == S.Pack(HEADER_WIDTHS, v);
  }

  lemma DecodedHeader(image: Bytes, es: seq<Entry>)
    requires Decodes(image, es)
    ensures |image| >= HEADER_SIZE && |image| < U32 && |es| < U16 && image[..HEADER_SIZE] == Header(|es|, |image|)
    ensures Offset(es, |es|) == |image|
  {
    hide Header, Records, Ordered;
    assert es[..|es|] == es;
  }

  /** The record count of a header that is canonical for this image. */
  method CheckHeader(image: Bytes) returns (r: Option<nat>)
    ensures r.Some? ==>
              |image| >= HEADER_SIZE && |image| < U32 && r.value < U16
              && image[..HEADER_SIZE] == Header(r.value, |image|)
    ensures forall es | Decodes(image, es) :: r == Some(|es|)
  {
    hide Decodes, Header, S.Unpack;
    forall es | Decodes(image, es)
      ensures |image| >= HEADER_SIZE && S.Size(HEADER_WIDTHS) == 8
      ensures image[..8] == MAGIC && S.UnpackFrom(HEADER_WIDTHS, image, 8) == [|es|, 0, |image|]
    {
      DecodedHeader(image, es);
      HeaderFields(image, |es|);
    }
    if |image| < HEADER_SIZE || image[..8] != MAGIC { return None; }
    S.Sizes(2, 2, 4, 0, 0, 0);
    var fields := S.UnpackFrom(HEADER_WIDTHS, image, 8);
    if fields[1] != 0 || fields[2] != |image| { return None; }
    Widths();
    assert fields[2] < Pow256(HEADER_WIDTHS[2]) && fields[0] < Pow256(HEADER_WIDTHS[0]);
    HeaderFields(image, fields[0]);
    assert fields == [fields[0], 0, |image|];
    return Some(fields[0]);
  }

  lemma DecodeStart(image: Bytes)
    requires |image| >= HEADER_SIZE
    ensures ReadSoFar(image, [], HEADER_SIZE) && KindsAre(map[], []) && Agrees(image, [], HEADER_SIZE)
  {
    hide Decodes;
    assert image[HEADER_SIZE..HEADER_SIZE] == [];
  }

  lemma ReadBounds(image: Bytes, es: seq<Entry>, at: nat)
    requires ReadSoFar(image, es, at)
    ensures at <= |image|
  {
  }

  lemma KindsGrow(kinds: map<Bytes, nat>, es: seq<Entry>, e: Entry)
    requires KindsAre(kinds, es) && Ordered(es) && Follows(es, e.path)
    ensures KindsAre(kinds[e.path := e.kind], es + [e])
  {
    hide EntryOk, HasParent;
    forall i | 0 <= i < |es| ensures es[i].path != e.path {
      if i < |es| - 1 {
        AscendingPairs(es, i, |es| - 1);
        Transitive(es[i].path, es[|es| - 1].path, e.path);
      }
      Irreflexive(e.path);
    }
    var all, after := es + [e], kinds[e.path := e.kind];
    assert all[|es|] == e && forall i | 0 <= i < |es| :: all[i] == es[i];
    forall p | p in after ensures exists i :: 0 <= i < |all| && all[i].path == p && all[i].kind == after[p] {
      if p != e.path {
        var i :| 0 <= i < |es| && es[i].path == p && es[i].kind == kinds[p];
        assert all[i].path == p;
      }
    }
  }

  lemma Complete(image: Bytes, es: seq<Entry>)
    requires ReadSoFar(image, es, |image|) && |image| < U32 && |es| < U16
    requires |image| >= HEADER_SIZE && image[..HEADER_SIZE] == Header(|es|, |image|)
    ensures Decodes(image, es)
  {
    hide Header, Records, Ordered;
    assert image == image[..HEADER_SIZE] + image[HEADER_SIZE..|image|];
  }

  lemma ReadOrdered(image: Bytes, es: seq<Entry>, at: nat)
    requires ReadSoFar(image, es, at)
    ensures Ordered(es)
  {
  }

  /** An image decodes to a list exactly when it is the encoding of that list and the list is well-formed. */
  method Decode(image: Bytes) returns (r: Option<seq<Entry>>)
    ensures r.Some? ==> Decodes(image, r.value)
    ensures forall es | Decodes(image, es) :: r == Some(es)
  {
    hide ReadSoFar, KindsAre, RecordParts, Record, EntryOk, HasParent, Decodes, Ordered, Follows, Agrees, Offset,
         ParentOk;
    var count := CheckHeader(image);
    if count.None? { return None; }
    var entries: seq<Entry>, kinds: map<Bytes, nat>, offset: nat := [], map[], HEADER_SIZE;
    DecodeStart(image);
    for n := 0 to count.value
      invariant |entries| == n && offset <= |image|
      invariant ReadSoFar(image, entries, offset) && KindsAre(kinds, entries) && Agrees(image, entries, offset)
    {
      var next := DecodeRecord(image, offset);
      AgreesStep(image, entries, offset, next);
      if next.None? { return None; }
      var e := next.value.0;
      if !Follows(entries, e.path) { return None; }
      ParentByKinds(kinds, entries, e.path);
      if !ParentOk(kinds, e.path) { return None; }
      ReadOrdered(image, entries, offset);
      KindsGrow(kinds, entries, e);
      ReadOne(image, entries, offset, e);
      ReadBounds(image, entries + [e], next.value.1);
      entries, kinds, offset := entries + [e], kinds[e.path := e.kind], next.value.1;
    }
    AgreesEnd(image, entries, offset);
    if offset != |image| { return None; }
    Complete(image, entries);
    return Some(entries);
  }

  lemma AgreesEnd(image: Bytes, es: seq<Entry>, at: nat)
    requires Agrees(image, es, at) && forall all | Decodes(image, all) :: |es| == |all|
    ensures forall all | Decodes(image, all) :: es == all && at == |image|
  {
    hide Decodes;
    forall all | Decodes(image, all) ensures es == all && at == |image| {
      DecodedHeader(image, all);
      assert all[..|all|] == all;
    }
  }
}
