/** Images made of consecutive regions: an image is the concatenation of its regions
    exactly when every region's slice is right. */
module Regions {
  import opened ByteCodec

  function Concat(parts: seq<Bytes>): (b: Bytes) {
    if parts == [] then [] else Concat(parts[..|parts| - 1]) + parts[|parts| - 1]
  }

  /** Where region `i` starts. */
  function Offset(parts: seq<Bytes>, i: nat): (at: nat)
    requires i <= |parts|
  {
    if i == 0 then 0 else Offset(parts, i - 1) + |parts[i - 1]|
  }

  lemma {:induction false} OffsetOfPrefix(parts: seq<Bytes>, n: nat, i: nat)
    requires i <= n <= |parts|
    ensures Offset(parts[..n], i) == Offset(parts, i)
  {
    if i > 0 { OffsetOfPrefix(parts, n, i - 1); }
  }

  lemma {:induction false} ConcatLength(parts: seq<Bytes>)
    ensures |Concat(parts)| == Offset(parts, |parts|)
  {
    if parts != [] {
      var n := |parts| - 1;
      ConcatLength(parts[..n]);
      OffsetOfPrefix(parts, n, n);
    }
  }

  lemma {:induction false} OffsetsAscend(parts: seq<Bytes>, i: nat, j: nat)
    requires i <= j <= |parts|
    ensures Offset(parts, i) <= Offset(parts, j)
    decreases j
  {
    if i < j { OffsetsAscend(parts, i, j - 1); }
  }

  /** Region `i` of `b` is `parts[i]`. */
  ghost predicate RegionIs(b: Bytes, parts: seq<Bytes>, i: nat)
    requires i < |parts|
  {
    Offset(parts, i + 1) <= |b| && b[Offset(parts, i)..Offset(parts, i + 1)] == parts[i]
  }

  lemma RegionOfPrefix(b: Bytes, parts: seq<Bytes>, n: nat, i: nat)
    requires i < n <= |parts| <= n + 1 && Offset(parts, n) <= |b|
    ensures RegionIs(b[..Offset(parts, n)], parts[..n], i) <==> RegionIs(b, parts, i)
  {
    OffsetOfPrefix(parts, n, i);
    OffsetOfPrefix(parts, n, i + 1);
    OffsetsAscend(parts, i + 1, n);
    var at, end, k := Offset(parts, i), Offset(parts, i + 1), Offset(parts, n);
    assert b[..k][at..end] == b[at..end];
  }

  /** An image is its regions in order exactly when each slice is the region. */
  lemma {:induction false} ConcatByRegions(b: Bytes, parts: seq<Bytes>)
    requires |b| == Offset(parts, |parts|)
    ensures b == Concat(parts) <==> forall i | 0 <= i < |parts| :: RegionIs(b, parts, i)
    decreases |parts|
  {
    hide RegionIs;
    if parts != [] {
      var n := |parts| - 1;
      var k, last := Offset(parts, n), parts[n];
      var front := b[..k];
      OffsetOfPrefix(parts, n, n);
      ConcatByRegions(front, parts[..n]);
      ConcatLength(parts[..n]);
      forall i | 0 <= i < n ensures RegionIs(front, parts[..n], i) <==> RegionIs(b, parts, i) {
        RegionOfPrefix(b, parts, n, i);
      }
      LastRegion(b, parts);
      assert b == front + b[k..];
      assert b == Concat(parts) ==> front == Concat(parts[..n]) && b[k..] == last;
    }
  }

  lemma LastRegion(b: Bytes, parts: seq<Bytes>)
    requires parts != [] && |b| == Offset(parts, |parts|)
    ensures RegionIs(b, parts, |parts| - 1) <==> b[Offset(parts, |parts| - 1)..] == parts[|parts| - 1]
  {
  }

  /** Writes every region into a zeroed buffer. */
  method Assemble(parts: seq<Bytes>) returns (b: Bytes)
    ensures b == Concat(parts)
  {
    hide RegionIs, Patch;
    ConcatLength(parts);
    var image := new Byte[Offset(parts, |parts|)](_ => 0);
    for i := 0 to |parts|
      invariant forall j | 0 <= j < i :: RegionIs(image[..], parts, j)
    {
      OffsetsAscend(parts, i + 1, |parts|);
      WriteRegion(image[..], parts, i);
      Blit(image, Offset(parts, i), parts[i]);
    }
    b := image[..];
    ConcatByRegions(b, parts);
  }

  lemma WriteKeepsRegion(b: Bytes, parts: seq<Bytes>, at: nat, v: Bytes, j: nat)
    requires j < |parts| && RegionIs(b, parts, j) && Offset(parts, j + 1) <= at && at + |v| <= |b|
    ensures RegionIs(Patch(b, at, v), parts, j)
  {
    hide Patch;
    var i, k := Offset(parts, j), Offset(parts, j + 1);
    assert Patch(b, at, v)[i..k] == b[i..k];
  }

  lemma WriteRegion(b: Bytes, parts: seq<Bytes>, i: nat)
    requires i < |parts| && Offset(parts, i) + |parts[i]| <= |b|
    requires forall j | 0 <= j < i :: RegionIs(b, parts, j)
    ensures forall j | 0 <= j < i + 1 :: RegionIs(Patch(b, Offset(parts, i), parts[i]), parts, j)
  {
    hide Patch, RegionIs, Offset;
    var after := Patch(b, Offset(parts, i), parts[i]);
    forall j | 0 <= j < i + 1 ensures RegionIs(after, parts, j) {
      if j < i {
        OffsetsAscend(parts, j + 1, i);
        WriteKeepsRegion(b, parts, Offset(parts, i), parts[i], j);
      } else {
        WrittenRegion(after, parts, i);
      }
    }
  }

  lemma WrittenRegion(b: Bytes, parts: seq<Bytes>, i: nat)
    requires i < |parts| && Offset(parts, i) + |parts[i]| <= |b|
    requires b[Offset(parts, i)..Offset(parts, i) + |parts[i]|] == parts[i]
    ensures RegionIs(b, parts, i)
  {
  }
}
