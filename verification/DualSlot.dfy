/** TXSLOT v1: two checksummed slots of which the newest valid one is the state, and
    the tool that corrupts the newest slot to exercise recovery. */
module DualSlot {
  import opened ByteCodec
  import opened Crc

  const DISK_BYTES := 4096 * 512
  const PARTITION_OFFSET := 2048 * 512
  const SLOT_BYTES := 1024
  const DATA_BYTES := 512
  const CHECKSUM_OFFSET := 20
  const PAYLOAD_OFFSET := 32
  const MAX_PAYLOAD := DATA_BYTES - PAYLOAD_OFFSET
  const DATA_MAGIC: Bytes := [0x54, 0x58, 0x44, 0x54, 0x76, 0x31, 0, 0]
  const COMMIT_MAGIC: Bytes := [0x54, 0x58, 0x43, 0x4D, 0x76, 0x31, 0, 0]

  datatype State = State(generation: nat, payload: Bytes)

  // ---- One slot -----------------------------------------------------------

  function SlotAt(slot: nat): (at: nat) {
    PARTITION_OFFSET + slot * SLOT_BYTES
  }

  function Data(image: Bytes, slot: nat): (b: Bytes)
    requires |image| == DISK_BYTES && slot < 2
    ensures |b| == DATA_BYTES
  {
    image[SlotAt(slot)..SlotAt(slot) + DATA_BYTES]
  }

  function Commit(image: Bytes, slot: nat): (b: Bytes)
    requires |image| == DISK_BYTES && slot < 2
    ensures |b| == DATA_BYTES
  {
    image[SlotAt(slot) + DATA_BYTES..SlotAt(slot) + SLOT_BYTES]
  }

  /** The sector with its checksum field zeroed. */
  function Unchecked(b: Bytes): (r: Bytes)
    requires |b| == DATA_BYTES
  {
    Patch(b, CHECKSUM_OFFSET, [0, 0, 0, 0])
  }

  predicate DataOk(data: Bytes)
    requires |data| == DATA_BYTES
  {
    var length := Field(data, 16, 4);
    && data[..8] == DATA_MAGIC && Field(data, 8, 8) != 0 && length <= MAX_PAYLOAD
    && AllZero(data[24..32]) && AllZero(data[PAYLOAD_OFFSET + length..])
    && Crc32Of(Unchecked(data)) == Field(data, CHECKSUM_OFFSET, 4)
  }

  /** The commit sector seals exactly this data sector. */
  predicate CommitOk(data: Bytes, commit: Bytes)
    requires |data| == |commit| == DATA_BYTES
  {
    && commit[..8] == COMMIT_MAGIC && Field(commit, 8, 8) == Field(data, 8, 8)
    && Field(commit, 16, 4) == Field(data, CHECKSUM_OFFSET, 4) && AllZero(commit[24..])
    && Crc32Of(Unchecked(commit)) == Field(commit, CHECKSUM_OFFSET, 4)
  }

  function SlotState(data: Bytes, commit: Bytes): (s: Option<State>)
    requires |data| == |commit| == DATA_BYTES
  {
    if DataOk(data) && CommitOk(data, commit)
    then Some(State(Field(data, 8, 8), data[PAYLOAD_OFFSET..PAYLOAD_OFFSET + Field(data, 16, 4)]))
    else None
  }

  function StateOf(image: Bytes, slot: nat): (s: Option<State>)
    requires |image| == DISK_BYTES && slot < 2
  {
    SlotState(Data(image, slot), Commit(image, slot))
  }

  /** No change to four consecutive data bytes that leaves the checksum field alone stays valid. */
  lemma BurstInvalidates(data: Bytes, bad: Bytes, at: nat)
    requires |data| == DATA_BYTES && DataOk(data) && DifferOnlyWithin(data, bad, at) && data != bad
    requires data[CHECKSUM_OFFSET..CHECKSUM_OFFSET + 4] == bad[CHECKSUM_OFFSET..CHECKSUM_OFFSET + 4]
    ensures !DataOk(bad)
  {
    hide Crc32Of, Patch;
    var x, y, c := Unchecked(data), Unchecked(bad), CHECKSUM_OFFSET;
    var i :| 0 <= i < DATA_BYTES && data[i] != bad[i];
    assert forall j | 0 <= j < DATA_BYTES && !(c <= j < c + 4) :: x[j] == data[j] && y[j] == bad[j];
    assert forall j | c <= j < c + 4 :: x[j] == x[c..c + 4][j - c] == y[c..c + 4][j - c] == y[j];
    assert forall j | c <= j < c + 4 :: data[j] == data[c..c + 4][j - c] == bad[c..c + 4][j - c] == bad[j];
    assert x[i] != y[i];
    BurstDetectedByCrc32(x, y, at);
  }

  lemma SameField(a: Bytes, b: Bytes, at: nat, n: nat)
    requires |a| == |b| && at + n <= |a|
    ensures Field(a, at, n) == Field(b, at, n) <==> a[at..at + n] == b[at..at + n]
  {
    if Field(a, at, n) == Field(b, at, n) { LEInjective(a[at..at + n], b[at..at + n]); }
  }

  /** A data sector has only one commit sector. */
  lemma CommitIsDetermined(data: Bytes, a: Bytes, b: Bytes)
    requires |data| == |a| == |b| == DATA_BYTES && CommitOk(data, a) && CommitOk(data, b)
    ensures a == b
  {
    hide Field, Crc32Of, Patch;
    SameField(a, b, 8, 8);
    SameField(a, b, 16, 4);
    AllZeroIsZeros(a[24..]);
    AllZeroIsZeros(b[24..]);
    var c := CHECKSUM_OFFSET;
    assert a[..c] == a[..8] + a[8..16] + a[16..c] && b[..c] == b[..8] + b[8..16] + b[16..c];
    SameUnchecked(a, b);
    SameField(a, b, c, 4);
    assert a == a[..c] + a[c..c + 4] + a[c + 4..] && b == b[..c] + b[c..c + 4] + b[c + 4..];
  }

  lemma SameUnchecked(a: Bytes, b: Bytes)
    requires |a| == |b| == DATA_BYTES
    requires a[..CHECKSUM_OFFSET] == b[..CHECKSUM_OFFSET] && a[CHECKSUM_OFFSET + 4..] == b[CHECKSUM_OFFSET + 4..]
    ensures Unchecked(a) == Unchecked(b)
  {
  }

  /** No change to four consecutive bytes anywhere in a slot, checksum fields included, leaves it valid. */
  lemma SlotBurstInvalidates(image: Bytes, bad: Bytes, slot: nat, at: nat)
    requires |image| == DISK_BYTES && slot < 2 && StateOf(image, slot).Some? && DifferOnlyWithin(image, bad, at)
    requires Data(image, slot) != Data(bad, slot) || Commit(image, slot) != Commit(bad, slot)
    ensures StateOf(bad, slot).None?
  {
    hide DataOk, Field, SlotState;
    var d, e, c, s := Data(image, slot), Data(bad, slot), CHECKSUM_OFFSET, SlotAt(slot);
    SlotParts(d, Commit(image, slot));
    SlotParts(e, Commit(bad, slot));
    if d == e {
      if CommitOk(e, Commit(bad, slot)) { CommitIsDetermined(d, Commit(image, slot), Commit(bad, slot)); }
    } else {
      var i :| 0 <= i < DATA_BYTES && d[i] != e[i];
      assert image[s + i] != bad[s + i];
      if d[c..c + 4] == e[c..c + 4] {
        var from := if at >= s then at - s else 0;
        assert DifferOnlyWithin(d, e, from);
        BurstInvalidates(d, e, from);
      } else {
        var j :| 0 <= j < 4 && d[c..c + 4][j] != e[c..c + 4][j];
        assert image[s + c + j] != bad[s + c + j];
        assert Commit(image, slot) == Commit(bad, slot);
        SameField(d, e, c, 4);
      }
    }
  }

  lemma SlotParts(data: Bytes, commit: Bytes)
    requires |data| == |commit| == DATA_BYTES
    ensures SlotState(data, commit).Some? <==> DataOk(data) && CommitOk(data, commit)
  {
  }

  // ---- Recovery -----------------------------------------------------------

  /** The newest of the valid slots; none when there is none or two have the same generation. */
  function Newest(a: Option<State>, b: Option<State>): (s: Option<State>) {
    if a.None? then b
    else if b.None? then a
    else if a.value.generation == b.value.generation then None
    else if a.value.generation > b.value.generation then a else b
  }

  function Recovered(image: Bytes): (s: Option<State>)
    requires |image| == DISK_BYTES
  {
    Newest(StateOf(image, 0), StateOf(image, 1))
  }

  method DualSlotState(image: Bytes) returns (s: Option<State>)
    ensures s == if |image| == DISK_BYTES then Recovered(image) else None
  {
    hide DataOk, CommitOk;
    if |image| != DISK_BYTES { return None; }
    var generations: seq<State> := [];
    for slot := 0 to 2
      invariant slot == 0 ==> generations == []
      invariant slot == 1 ==> generations == Found(StateOf(image, 0))
      invariant slot == 2 ==> generations == Found(StateOf(image, 0)) + Found(StateOf(image, 1))
    {
      var data, commit := Data(image, slot), Commit(image, slot);
      ZerosAreInvalid(data, commit);
      if AllZero(data) && AllZero(commit) { continue; }
      if DataOk(data) && CommitOk(data, commit) {
        generations := generations + [SlotState(data, commit).value];
      }
    }
    if generations == [] || (|generations| == 2 && generations[0].generation == generations[1].generation) {
      return None;
    }
    s := Some(generations[0]);
    if |generations| == 2 && generations[1].generation > generations[0].generation { s := Some(generations[1]); }
  }

  function Found(s: Option<State>): (r: seq<State>) {
    if s.Some? then [s.value] else []
  }

  lemma ZerosAreInvalid(data: Bytes, commit: Bytes)
    requires |data| == |commit| == DATA_BYTES
    ensures AllZero(data) ==> SlotState(data, commit).None?
  {
    if AllZero(data) { assert data[..8][0] != DATA_MAGIC[0]; }
  }

  /** Bytes that do not validate in the older slot leave the recovered state as it was. */
  lemma OlderSlotIsIrrelevant(before: Bytes, after: Bytes, newest: nat)
    requires |before| == |after| == DISK_BYTES && newest < 2
    requires Recovered(before).Some? && StateOf(before, newest) == Recovered(before)
    requires Data(after, newest) == Data(before, newest) && Commit(after, newest) == Commit(before, newest)
    requires StateOf(after, 1 - newest).None?
    ensures Recovered(after) == Recovered(before)
  {
    hide SlotState, Data, Commit;
  }

  // ---- Corrupting the newest slot -----------------------------------------

  /** A slice clamped to the sequence, as the host language takes it. */
  function Clamped(b: Bytes, i: nat, j: nat): (r: Bytes)
    requires i <= j
  {
    var n := |b|;
    b[if i < n then i else n..if j < n then j else n]
  }

  /** The generation both sectors of a slot name, without checking checksums. */
  function SlotGeneration(image: Bytes, slot: nat): (g: Option<nat>) {
    var base := SlotAt(slot);
    var data := Clamped(image, base, base + DATA_BYTES);
    var commit := Clamped(image, base + DATA_BYTES, base + SLOT_BYTES);
    if Clamped(data, 0, 8) != DATA_MAGIC || Clamped(commit, 0, 8) != COMMIT_MAGIC then None
    else
      var generation := LE(Clamped(data, 8, 16));
      if generation == 0 || LE(Clamped(commit, 8, 16)) != generation then None else Some(generation)
  }

  function Flip(b: Byte): (r: Byte)
    ensures r != b
  {
    if b < 0x80 then b + 0x80 else b - 0x80
  }

  /** Both slots name a generation; the later one, the second on a tie. */
  predicate TwoCommitted(image: Bytes) {
    SlotGeneration(image, 0).Some? && SlotGeneration(image, 1).Some?
  }

  function LatestSlot(image: Bytes): (slot: nat)
    requires TwoCommitted(image)
    ensures slot < 2
  {
    if SlotGeneration(image, 0).value > SlotGeneration(image, 1).value then 0 else 1
  }

  function PayloadAt(slot: nat): (at: nat) {
    SlotAt(slot) + PAYLOAD_OFFSET
  }

  lemma PayloadInImage(image: Bytes, slot: nat)
    requires slot < 2 && SlotGeneration(image, slot).Some?
    ensures PayloadAt(slot) < |image|
  {
    var base := SlotAt(slot);
    var commit := Clamped(image, base + DATA_BYTES, base + SLOT_BYTES);
    assert |Clamped(commit, 0, 8)| == 8;
  }

  /** Flips one bit of the newest slot's payload; nothing else changes. */
  method CorruptLatestStateSlot(image: array<Byte>) returns (generation: Option<nat>)
    modifies image
    ensures generation.Some? <==> old(TwoCommitted(image[..]))
    ensures generation.None? ==> image[..] == old(image[..])
    ensures generation.Some? ==>
              && var slot := old(LatestSlot(image[..]));
              && old(SlotGeneration(image[..], slot)) == generation && PayloadAt(slot) < image.Length
              && image[..] == old(image[..])[PayloadAt(slot) := Flip(old(image[..])[PayloadAt(slot)])]
  {
    hide SlotGeneration;
    var first, second := SlotGeneration(image[..], 0), SlotGeneration(image[..], 1);
    if first.None? || second.None? { return None; }
    var slot := if first.value > second.value then 0 else 1;
    PayloadInImage(image[..], slot);
    image[PayloadAt(slot)] := Flip(image[PayloadAt(slot)]);
    return if slot == 0 then first else second;
  }

  lemma ValidNamesGeneration(image: Bytes, slot: nat)
    requires |image| == DISK_BYTES && slot < 2 && StateOf(image, slot).Some?
    ensures SlotGeneration(image, slot) == Some(StateOf(image, slot).value.generation)
  {
    hide Crc32Of;
    var base := SlotAt(slot);
    var data, commit := Data(image, slot), Commit(image, slot);
    assert Clamped(image, base, base + DATA_BYTES) == data;
    assert Clamped(image, base + DATA_BYTES, base + SLOT_BYTES) == commit;
    assert Clamped(data, 0, 8) == data[..8] && Clamped(commit, 0, 8) == commit[..8];
    assert Clamped(data, 8, 16) == data[8..16] && Clamped(commit, 8, 16) == commit[8..16];
  }

  /** The image after the corruption. */
  function Corrupted(image: Bytes): (r: Bytes)
    requires |image| == DISK_BYTES && TwoCommitted(image)
  {
    var at := PayloadAt(LatestSlot(image));
    image[at := Flip(image[at])]
  }

  lemma FlippedSlot(image: Bytes, slot: nat)
    requires |image| == DISK_BYTES && slot < 2 && StateOf(image, slot).Some?
    ensures var after := image[PayloadAt(slot) := Flip(image[PayloadAt(slot)])];
            && StateOf(after, slot).None? && StateOf(after, 1 - slot) == StateOf(image, 1 - slot)
  {
    hide DataOk, CommitOk;
    var after := image[PayloadAt(slot) := Flip(image[PayloadAt(slot)])];
    var good, bad := Data(image, slot), Data(after, slot);
    assert bad[PAYLOAD_OFFSET] != good[PAYLOAD_OFFSET];
    assert good[CHECKSUM_OFFSET..CHECKSUM_OFFSET + 4] == bad[CHECKSUM_OFFSET..CHECKSUM_OFFSET + 4];
    BurstInvalidates(good, bad, PAYLOAD_OFFSET);
    assert Data(after, 1 - slot) == Data(image, 1 - slot);
    assert Commit(after, 1 - slot) == Commit(image, 1 - slot);
  }

  /** With two valid slots of distinct generations, corrupting the newest recovers exactly the older one. */
  lemma CorruptionFallsBack(image: Bytes)
    requires |image| == DISK_BYTES && StateOf(image, 0).Some? && StateOf(image, 1).Some?
    requires StateOf(image, 0).value.generation != StateOf(image, 1).value.generation
    ensures TwoCommitted(image) && Recovered(image) == StateOf(image, LatestSlot(image))
    ensures Recovered(Corrupted(image)) == StateOf(image, 1 - LatestSlot(image))
  {
    hide StateOf, SlotGeneration;
    ValidNamesGeneration(image, 0);
    ValidNamesGeneration(image, 1);
    FlippedSlot(image, LatestSlot(image));
  }
}
