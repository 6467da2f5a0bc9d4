/** Directory blocks from the writer's side: the record parser inverts the layout of
    any list of records. */
module Ext4Records {
  import opened ByteCodec
  import opened Ext4Format
  import opened Ext4Directory

  /** A directory record with the unused bytes behind its name. */
  datatype Record = Free(slack: Bytes) | Live(entry: Entry, slack: Bytes)

  function Ino(r: Record): (n: nat) {
    if r.Live? then r.entry.inode else 0
  }

  function Name(r: Record): (name: Bytes) {
    if r.Live? then r.entry.name else []
  }

  function TypeByte(r: Record): (b: Byte) {
    if r.Free? then 0 else if r.entry.kind.File? then 1 else 2
  }

  function Length(r: Record): (n: nat) {
    8 + |Name(r)| + |r.slack|
  }

  /** Inode, record length, name length, type, name, slack. */
  function Show(r: Record): (b: Bytes)
    requires |Name(r)| < 256
    ensures |b| == Length(r)
  {
    ToLE(Ino(r), 4) + ToLE(Length(r), 2) + [|Name(r)|, TypeByte(r)] + Name(r) + r.slack
  }

  predicate RecordOk(r: Record) {
    && Length(r) % 4 == 0 && Length(r) <= TAIL_OFFSET
    && (r.Live? ==> 0 < r.entry.inode < U32 && 0 < |r.entry.name| <= MAX_NAME_BYTES && NameOk(r.entry.name))
  }

  function ShowAll(rs: seq<Record>): (b: Bytes)
    requires forall i | 0 <= i < |rs| :: RecordOk(rs[i])
  {
    if rs == [] then []
    else
      assert RecordOk(rs[0]);
      Show(rs[0]) + ShowAll(rs[1..])
  }

  /** The records fill the block from `at` to the checksum tail. */
  ghost predicate LaidOut(block: Bytes, at: nat, rs: seq<Record>) {
    && |block| == BLOCK_BYTES && at <= TAIL_OFFSET
    && (forall i | 0 <= i < |rs| :: RecordOk(rs[i]))
    && block[at..TAIL_OFFSET] == ShowAll(rs)
  }

  /** The live records may follow the entries `es`: allocated inodes, new names, within the ceiling. */
  predicate Acceptable(inodes: set<nat>, es: seq<Entry>, rs: seq<Record>)
    decreases |rs|
  {
    if rs == [] then true
    else if rs[0].Free? then Acceptable(inodes, es, rs[1..])
    else
      var e := rs[0].entry;
      && e.inode in inodes && !HasName(es, e.name) && |es| < MAX_DIRECTORY_ENTRIES
      && Acceptable(inodes, es + [e], rs[1..])
  }

  function Entries(rs: seq<Record>): (es: seq<Entry>) {
    if rs == [] then []
    else if rs[0].Free? then Entries(rs[1..]) else [rs[0].entry] + Entries(rs[1..])
  }

  // ---- One record ---------------------------------------------------------

  lemma ShownParts(r: Record)
    requires |Name(r)| < 256
    ensures var b, n := Show(r), |Name(r)|;
            && b[0..4] == ToLE(Ino(r), 4) && b[4..6] == ToLE(Length(r), 2) && b[6..7] == [n] && b[7..8] == [TypeByte(r)]
            && b[8..8 + n] == Name(r) && b[8 + n..] == r.slack
  {
  }

  lemma ByteField(b: Bytes, at: nat, v: Byte)
    requires at < |b|
    ensures Field(b, at, 1) == v <==> b[at..at + 1] == [v]
  {
    var s := b[at..at + 1];
    assert s[1..] == [] && LE(s[1..]) == 0 && LE(s) == s[0];
  }

  lemma WordField(b: Bytes, at: nat, width: nat, v: nat)
    requires at + width <= |b| && v < Pow256(width)
    ensures Field(b, at, width) == v <==> b[at..at + width] == ToLE(v, width)
  {
    ToLEThenLE(v, width);
    LEThenToLE(b[at..at + width]);
  }

  /** The fields at `at` are those of the record. */
  predicate FieldsAre(block: Bytes, at: nat, r: Record)
    requires |block| == BLOCK_BYTES && at + Length(r) <= TAIL_OFFSET
  {
    var n := |Name(r)|;
    && Field(block, at, 4) == Ino(r) && Field(block, at + 4, 2) == Length(r)
    && Field(block, at + 6, 1) == n && Field(block, at + 7, 1) == TypeByte(r)
    && block[at + 8..at + 8 + n] == Name(r) && block[at + 8 + n..at + Length(r)] == r.slack
  }

  /** The bytes of a record and its fields determine each other. */
  lemma FieldsShow(block: Bytes, at: nat, r: Record)
    requires |block| == BLOCK_BYTES && at + Length(r) <= TAIL_OFFSET && |Name(r)| < 256 && Ino(r) < U32
    ensures block[at..at + Length(r)] == Show(r) <==> FieldsAre(block, at, r)
  {
    hide Field, ToLE, Show;
    var n, end, s := |Name(r)|, Length(r), block[at..at + Length(r)];
    Widths();
    WordField(block, at, 4, Ino(r));
    WordField(block, at + 4, 2, end);
    ByteField(block, at + 6, n);
    ByteField(block, at + 7, TypeByte(r));
    ShownParts(r);
    SlicesOf(block, at, end, n);
    SixParts(s, n);
    SixParts(Show(r), n);
  }

  lemma SlicesOf(block: Bytes, at: nat, end: nat, n: nat)
    requires at + end <= |block| && 8 + n <= end
    ensures var s := block[at..at + end];
            && s[0..4] == block[at..at + 4] && s[4..6] == block[at + 4..at + 6] && s[6..7] == block[at + 6..at + 7]
            && s[7..8] == block[at + 7..at + 8] && s[8..8 + n] == block[at + 8..at + 8 + n]
            && s[8 + n..] == block[at + 8 + n..at + end]
  {
    SubSlice(block, at, at + end, 0, 4);
    SubSlice(block, at, at + end, 4, 6);
    SubSlice(block, at, at + end, 6, 7);
    SubSlice(block, at, at + end, 7, 8);
    SubSlice(block, at, at + end, 8, 8 + n);
    SubSlice(block, at, at + end, 8 + n, end);
  }

  lemma SixParts(s: Bytes, n: nat)
    requires 8 + n <= |s|
    ensures s == s[0..4] + s[4..6] + s[6..7] + s[7..8] + s[8..8 + n] + s[8 + n..]
  {
  }

  // ---- Both directions ----------------------------------------------------

  lemma FirstRecord(block: Bytes, at: nat, rs: seq<Record>)
    requires LaidOut(block, at, rs) && rs != []
    ensures at + Length(rs[0]) <= TAIL_OFFSET && FieldsAre(block, at, rs[0])
    ensures LaidOut(block, at + Length(rs[0]), rs[1..])
  {
    hide FieldsAre, NameOk, Show;
    var r, s := rs[0], block[at..TAIL_OFFSET];
    var n := Length(r);
    assert s == Show(r) + ShowAll(rs[1..]);
    assert s[..n] == Show(r) && s[n..] == ShowAll(rs[1..]);
    assert block[at..at + n] == s[..n] && block[at + n..TAIL_OFFSET] == s[n..];
    FieldsShow(block, at, r);
  }

  /** A printed record passes the parser's checks and reads back as itself. */
  lemma RecordPasses(block: Bytes, at: nat, r: Record)
    requires |block| == BLOCK_BYTES && RecordOk(r) && at + Length(r) <= TAIL_OFFSET && FieldsAre(block, at, r)
    ensures BoundsOk(block, at) && RecordBytes(block, at) == Length(r)
    ensures Field(block, at, 4) == 0 <==> r.Free?
    ensures r.Free? ==> Field(block, at + 6, 1) == 0 && Field(block, at + 7, 1) == 0
    ensures r.Live? ==> TypeOf(Field(block, at + 7, 1)).Some? && EntryAt(block, at) == r.entry
  {
    hide Field;
  }

  /** Every block laid out from acceptable records parses to exactly their live entries. */
  lemma {:induction false} ParsesLayout(inodes: set<nat>, block: Bytes, at: nat, es: seq<Entry>, rs: seq<Record>)
    requires LaidOut(block, at, rs) && Acceptable(inodes, es, rs)
    ensures Records(inodes, block, at, es) == Some(es + Entries(rs))
    decreases |rs|
  {
    hide Field, FieldsAre, BoundsOk, EntryAt, NameOk, ShowAll;
    if rs == [] {
      NothingLeft(block, at);
      assert es + [] == es;
    } else {
      var r := rs[0];
      FirstRecord(block, at, rs);
      RecordPasses(block, at, r);
      var next := at + Length(r);
      if r.Free? {
        ParsesLayout(inodes, block, next, es, rs[1..]);
      } else {
        ParsesLayout(inodes, block, next, es + [r.entry], rs[1..]);
        LivePasses(inodes, block, at, es, r);
        assert es + [r.entry] + Entries(rs[1..]) == es + ([r.entry] + Entries(rs[1..]));
      }
    }
  }

  lemma NothingLeft(block: Bytes, at: nat)
    requires LaidOut(block, at, [])
    ensures at == TAIL_OFFSET
  {
  }

  lemma NothingLaid(block: Bytes)
    requires |block| == BLOCK_BYTES
    ensures LaidOut(block, TAIL_OFFSET, [])
  {
    assert block[TAIL_OFFSET..TAIL_OFFSET] == [];
  }

  lemma LivePasses(inodes: set<nat>, block: Bytes, at: nat, es: seq<Entry>, r: Record)
    requires |block| == BLOCK_BYTES && RecordOk(r) && r.Live? && at + Length(r) <= TAIL_OFFSET
             && FieldsAre(block, at, r)
    requires r.entry.inode in inodes && !HasName(es, r.entry.name) && |es| < MAX_DIRECTORY_ENTRIES
             && BoundsOk(block, at)
    ensures LiveOk(inodes, block, at, es)
  {
    hide Field;
  }

  /** The record that an accepted position holds. */
  function RecordAt(block: Bytes, at: nat): (r: Record)
    requires |block| == BLOCK_BYTES && at < TAIL_OFFSET && BoundsOk(block, at)
    requires Field(block, at, 4) != 0 ==> TypeOf(Field(block, at + 7, 1)).Some?
  {
    var slack := block[at + 8 + Field(block, at + 6, 1)..at + RecordBytes(block, at)];
    if Field(block, at, 4) == 0 then Free(slack) else Live(EntryAt(block, at), slack)
  }

  lemma AcceptedRecord(inodes: set<nat>, block: Bytes, at: nat, es: seq<Entry>)
    requires |block| == BLOCK_BYTES && at < TAIL_OFFSET && BoundsOk(block, at)
    requires if Field(block, at, 4) == 0 then Field(block, at + 6, 1) == 0 && Field(block, at + 7, 1) == 0
             else LiveOk(inodes, block, at, es)
    ensures var r := RecordAt(block, at);
            RecordOk(r) && Length(r) == RecordBytes(block, at) && block[at..at + Length(r)] == Show(r)
  {
    hide Field, Show;
    var r := RecordAt(block, at);
    FieldRange(block, at);
    FieldsShow(block, at, r);
  }

  lemma FieldRange(block: Bytes, at: nat)
    requires |block| == BLOCK_BYTES && at < TAIL_OFFSET
    ensures Field(block, at, 4) < U32 && Field(block, at + 6, 1) < 256
  {
    Widths();
  }

  /** Every accepted block is the layout of acceptable records, and yields exactly their live entries. */
  lemma {:induction false} ParsedIsLayout(inodes: set<nat>, block: Bytes, at: nat, es: seq<Entry>)
    returns (rs: seq<Record>)
    requires |block| == BLOCK_BYTES && at <= TAIL_OFFSET && Records(inodes, block, at, es).Some?
    ensures LaidOut(block, at, rs) && Acceptable(inodes, es, rs)
    ensures Records(inodes, block, at, es) == Some(es + Entries(rs))
    decreases TAIL_OFFSET - at
  {
    hide Field, BoundsOk, EntryAt, NameOk, Show, RecordOk, LiveOk, LaidOut, Length;
    if at == TAIL_OFFSET {
      rs := [];
      NothingLaid(block);
      assert es + [] == es;
    } else {
      BoundsAdvance(block, at);
      if Field(block, at, 4) != 0 { LiveHasType(inodes, block, at, es); }
      AcceptedRecord(inodes, block, at, es);
      var r, next := RecordAt(block, at), at + RecordBytes(block, at);
      var more := if r.Free? then es else es + [r.entry];
      var rest := ParsedIsLayout(inodes, block, next, more);
      rs := [r] + rest;
      LayoutGrows(block, at, r, rest);
      if r.Live? {
        LiveIsAcceptable(inodes, block, at, es);
        assert es + [r.entry] + Entries(rest) == es + ([r.entry] + Entries(rest));
      }
      assert rs[0] == r && rs[1..] == rest;
    }
  }

  lemma LayoutGrows(block: Bytes, at: nat, r: Record, rest: seq<Record>)
    requires |block| == BLOCK_BYTES && RecordOk(r) && at + Length(r) <= TAIL_OFFSET
    requires block[at..at + Length(r)] == Show(r) && LaidOut(block, at + Length(r), rest)
    ensures LaidOut(block, at, [r] + rest)
  {
    hide Show, RecordOk;
    var rs, next := [r] + rest, at + Length(r);
    assert rs[1..] == rest && rs[0] == r;
    assert block[at..TAIL_OFFSET] == block[at..next] + block[next..TAIL_OFFSET];
  }

  lemma LiveIsAcceptable(inodes: set<nat>, block: Bytes, at: nat, es: seq<Entry>)
    requires |block| == BLOCK_BYTES && at < TAIL_OFFSET && BoundsOk(block, at) && LiveOk(inodes, block, at, es)
    ensures var e := EntryAt(block, at);
            e.inode in inodes && !HasName(es, e.name) && |es| < MAX_DIRECTORY_ENTRIES
  {
  }
}
