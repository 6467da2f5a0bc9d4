/** Byte strings, little-endian integers and in-place buffer writes shared by
    every on-media format in this project. */
module ByteCodec {

  type Byte = x: int | 0 <= x < 256
  type Bytes = seq<Byte>

  datatype Option<+T> = None | Some(value: T)

  const U16 := 0x1_0000
  const U32 := 0x1_0000_0000
  const U64 := 0x1_0000_0000_0000_0000

  function Zeros(n: nat): (b: Bytes)
    ensures |b| == n
    ensures AllZero(b)
  {
    seq(n, _ => 0)
  }

  predicate AllZero(b: Bytes) {
    forall i | 0 <= i < |b| :: b[i] == 0
  }

  lemma AllZeroIsZeros(b: Bytes)
    requires AllZero(b)
    ensures b == Zeros(|b|)
  {
  }

  function Min(a: nat, b: nat): (m: nat) {
    if a < b then a else b
  }

  function Pow2(k: nat): (p: nat)
    ensures p >= 1
  {
    if k == 0 then 1 else 2 * Pow2(k - 1)
  }

  function Pow256(k: nat): (p: nat)
    ensures p >= 1
  {
    if k == 0 then 1 else 256 * Pow256(k - 1)
  }

  lemma Widths()
    ensures Pow256(1) == 256 && Pow256(2) == U16 && Pow256(4) == U32 && Pow256(8) == U64
  {
    assert Pow256(3) == 0x100_0000;
    assert Pow256(5) == 0x100_0000_0000;
    assert Pow256(6) == 0x1_0000_0000_0000;
    assert Pow256(7) == 0x100_0000_0000_0000;
  }

  /** The unsigned little-endian value of a byte string. */
  function LE(b: Bytes): (n: nat)
    ensures n < Pow256(|b|)
  {
    if b == [] then 0 else b[0] + 256 * LE(b[1..])
  }

  /** The `width` low-order bytes of `n`, least significant first. */
  function ToLE(n: nat, width: nat): (b: Bytes)
    ensures |b| == width
  {
    if width == 0 then [] else [n % 256] + ToLE(n / 256, width - 1)
  }

  lemma {:induction false} ToLEThenLE(n: nat, width: nat)
    requires n < Pow256(width)
    ensures LE(ToLE(n, width)) == n
  {
    if width > 0 {
      ToLEThenLE(n / 256, width - 1);
      assert ToLE(n, width)[1..] == ToLE(n / 256, width - 1);
    }
  }

  lemma {:induction false} LEThenToLE(b: Bytes)
    ensures ToLE(LE(b), |b|) == b
  {
    if b != [] {
      LEThenToLE(b[1..]);
      assert LE(b) / 256 == LE(b[1..]) && LE(b) % 256 == b[0];
    }
  }

  /** Equal-width byte strings with equal values are equal. */
  lemma LEInjective(a: Bytes, b: Bytes)
    requires |a| == |b| && LE(a) == LE(b)
    ensures a == b
  {
    LEThenToLE(a);
    LEThenToLE(b);
  }

  lemma LEZeros(b: Bytes)
    ensures LE(b) == 0 <==> AllZero(b)
  {
    if b != [] {
      LEZeros(b[1..]);
      if LE(b) == 0 {
        assert AllZero(b[1..]) && b[0] == 0;
        assert forall i | 0 < i < |b| :: b[i] == b[1..][i - 1];
      }
    }
  }

  lemma SubSlice<T>(s: seq<T>, start: nat, end: nat, i: nat, j: nat)
    requires start <= end <= |s| && i <= j <= end - start
    ensures s[start..end][i..j] == s[start + i..start + j]
  {
    var outer, inner := s[start..end][i..j], s[start + i..start + j];
    assert |outer| == |inner| && forall k | 0 <= k < j - i :: outer[k] == s[start + i + k] == inner[k];
  }

  /** The `width`-byte little-endian field at `offset`. */
  function Field(b: Bytes, offset: nat, width: nat): (n: nat)
    requires offset + width <= |b|
    ensures n < Pow256(width)
  {
    LE(b[offset..offset + width])
  }

  /** `b` with `v` written over it at `offset`. */
  function Patch(b: Bytes, offset: nat, v: Bytes): (r: Bytes)
    requires offset + |v| <= |b|
    ensures |r| == |b|
    ensures r[offset..offset + |v|] == v
    ensures forall i | 0 <= i < |b| && !(offset <= i < offset + |v|) :: r[i] == b[i]
  {
    b[..offset] + v + b[offset + |v|..]
  }

  /** Slice assignment into a fixed-size buffer. */
  method Blit(a: array<Byte>, offset: nat, v: Bytes)
    requires offset + |v| <= a.Length
    modifies a
    ensures a[..] == Patch(old(a[..]), offset, v)
  {
    ghost var before := a[..];
    for i := 0 to |v|
      invariant forall k | 0 <= k < i :: a[offset + k] == v[k]
      invariant forall k | 0 <= k < a.Length && !(offset <= k < offset + i) :: a[k] == before[k]
    {
      a[offset + i] := v[i];
    }
    assert a[offset..offset + |v|] == v;
    assert a[..] == a[..offset] + a[offset..offset + |v|] + a[offset + |v|..];
  }
}
