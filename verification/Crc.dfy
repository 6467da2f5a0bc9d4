/** Reflected 32-bit cyclic redundancy checks: the CRC32C of ext4 metadata and
    the CRC-32 of zlib, with what they are guaranteed to detect. */
module Crc {
  import opened ByteCodec

  const CRC32C_POLYNOMIAL := 0x82F6_3B78
  const CRC32_POLYNOMIAL := 0xEDB8_8320
  const U31 := 0x8000_0000

  /** Bitwise exclusive or of two natural numbers. */
  function Xor(a: nat, b: nat): (r: nat)
    decreases a + b
  {
    if a == 0 && b == 0 then 0
    else 2 * Xor(a / 2, b / 2) + (if a % 2 == b % 2 then 0 else 1)
  }

  lemma {:induction false} XorCommutes(a: nat, b: nat)
    ensures Xor(a, b) == Xor(b, a)
    decreases a + b
  {
    if a + b > 0 { XorCommutes(a / 2, b / 2); }
  }

  lemma {:induction false} XorZero(a: nat)
    ensures Xor(a, 0) == a && Xor(0, a) == a
  {
    if a > 0 { XorZero(a / 2); }
  }

  /** Xor halves and keeps parities, for every pair of operands. */
  lemma XorStep(a: nat, b: nat)
    ensures Xor(a, b) / 2 == Xor(a / 2, b / 2)
    ensures Xor(a, b) % 2 == (if a % 2 == b % 2 then 0 else 1)
  {
  }

  lemma {:induction false} XorAssociates(a: nat, b: nat, c: nat)
    ensures Xor(Xor(a, b), c) == Xor(a, Xor(b, c))
    decreases a + b + c
  {
    XorStep(a, b);
    XorStep(b, c);
    if a + b + c > 0 { XorAssociates(a / 2, b / 2, c / 2); }
    XorStep(Xor(a, b), c);
    XorStep(a, Xor(b, c));
  }

  lemma {:induction false} XorSelf(a: nat)
    ensures Xor(a, a) == 0
  {
    if a > 0 { XorSelf(a / 2); }
  }

  lemma XorCancels(a: nat, b: nat)
    ensures Xor(Xor(a, b), b) == a
  {
    XorAssociates(a, b, b);
    XorSelf(b);
    XorZero(a);
  }

  lemma {:induction false} XorBound(a: nat, b: nat, k: nat)
    requires a < Pow2(k) && b < Pow2(k)
    ensures Xor(a, b) < Pow2(k)
  {
    if k > 0 { XorBound(a / 2, b / 2, k - 1); }
  }

  /** Two operands below 2^(k+1) xor to at least 2^k exactly when one of them does. */
  lemma {:induction false} XorTopBit(a: nat, b: nat, k: nat)
    requires a < Pow2(k) && Pow2(k) <= b < Pow2(k + 1)
    ensures Pow2(k) <= Xor(a, b) < Pow2(k + 1)
  {
    if k > 0 {
      XorTopBit(a / 2, b / 2, k - 1);
    } else {
      assert Pow2(1) == 2;
      assert a == 0 && b == 1;
      XorZero(1);
    }
  }

  lemma Pow2Width()
    ensures Pow2(31) == U31 && Pow2(32) == U32
  {
    assert Pow2(8) == 256;
    assert Pow2(16) == 65536;
    assert Pow2(24) == 0x100_0000;
  }

  /** A 32-bit polynomial whose bit 31 is set. */
  ghost predicate IsPolynomial(poly: nat) {
    U31 <= poly < U32
  }

  /** One bit of the reflected division. */
  function BitStep(poly: nat, c: nat): (r: nat) {
    Xor(c / 2, if c % 2 == 1 then poly else 0)
  }

  function BitSteps(poly: nat, c: nat, n: nat): (r: nat)
    decreases n, c
  {
    if n == 0 then c else BitSteps(poly, BitStep(poly, c), n - 1)
  }

  function ByteStep(poly: nat, c: nat, b: Byte): (r: nat) {
    BitSteps(poly, Xor(c, b), 8)
  }

  /** The checksum register after `data`, with no final complement. */
  function Crc(poly: nat, seed: nat, data: Bytes): (r: nat) {
    if data == [] then seed
    else ByteStep(poly, Crc(poly, seed, data[..|data| - 1]), data[|data| - 1])
  }

  function Crc32cOf(seed: nat, data: Bytes): (r: nat) {
    Crc(CRC32C_POLYNOMIAL, seed, data)
  }

  /** zlib.crc32: all-ones seed and final complement. */
  function Crc32Of(data: Bytes): (r: nat) {
    Xor(Crc(CRC32_POLYNOMIAL, 0xFFFF_FFFF, data), 0xFFFF_FFFF)
  }

  /** The eight conditional shifts of one byte. */
  method FoldByte(poly: nat, before: nat, value: Byte) returns (checksum: nat)
    requires IsPolynomial(poly) && before < U32
    ensures checksum == ByteStep(poly, before, value)
    ensures checksum < U32
  {
    checksum := Xor(before, value);
    XorBound32(before, value);
    for bit := 0 to 8
      invariant checksum < U32
      invariant BitSteps(poly, checksum, 8 - bit) == BitSteps(poly, Xor(before, value), 8)
    {
      BitStepBound(poly, checksum);
      checksum := Xor(checksum / 2, if checksum % 2 == 1 then poly else 0);
    }
  }

  /** The table-free loop of the ext4 verifier. */
  method ComputeCrc32c(seed: nat, data: Bytes) returns (checksum: nat)
    requires seed < U32
    ensures checksum == Crc32cOf(seed, data)
    ensures checksum < U32
  {
    checksum := seed;
    for i := 0 to |data|
      invariant checksum == Crc(CRC32C_POLYNOMIAL, seed, data[..i])
      invariant checksum < U32
    {
      checksum := FoldByte(CRC32C_POLYNOMIAL, checksum, data[i]);
      assert data[..i + 1][..i] == data[..i];
    }
    assert data[..|data|] == data;
    checksum := checksum % U32;
  }

  lemma XorBound32(a: nat, b: nat)
    requires a < U32 && b < U32
    ensures Xor(a, b) < U32
  {
    Pow2Width();
    XorBound(a, b, 32);
  }

  lemma BitStepBound(poly: nat, c: nat)
    requires IsPolynomial(poly) && c < U32
    ensures BitStep(poly, c) < U32
  {
    XorBound32(c / 2, if c % 2 == 1 then poly else 0);
  }

  lemma {:induction false} BitStepsBound(poly: nat, c: nat, n: nat)
    requires IsPolynomial(poly) && c < U32
    ensures BitSteps(poly, c, n) < U32
    decreases n
  {
    if n > 0 {
      BitStepBound(poly, c);
      BitStepsBound(poly, BitStep(poly, c), n - 1);
    }
  }

  lemma {:induction false} CrcBound(poly: nat, seed: nat, data: Bytes)
    requires IsPolynomial(poly) && seed < U32
    ensures Crc(poly, seed, data) < U32
  {
    if data != [] {
      var prefix := data[..|data| - 1];
      CrcBound(poly, seed, prefix);
      var c := Crc(poly, seed, prefix);
      XorBound32(c, data[|data| - 1]);
      BitStepsBound(poly, Xor(c, data[|data| - 1]), 8);
    }
  }

  /** The bit that the step shifts out reappears as bit 31, so it is recoverable. */
  lemma BitStepTop(poly: nat, c: nat)
    requires IsPolynomial(poly) && c < U32
    ensures BitStep(poly, c) >= U31 <==> c % 2 == 1
  {
    Pow2Width();
    if c % 2 == 1 {
      XorTopBit(c / 2, poly, 31);
    } else {
      XorZero(c / 2);
    }
  }

  lemma BitStepInjective(poly: nat, c: nat, d: nat)
    requires IsPolynomial(poly) && c < U32 && d < U32
    requires BitStep(poly, c) == BitStep(poly, d)
    ensures c == d
  {
    BitStepTop(poly, c);
    BitStepTop(poly, d);
    var mask := if c % 2 == 1 then poly else 0;
    XorCancels(c / 2, mask);
    XorCancels(d / 2, mask);
  }

  lemma {:induction false} BitStepsInjective(poly: nat, c: nat, d: nat, n: nat)
    requires IsPolynomial(poly) && c < U32 && d < U32
    requires BitSteps(poly, c, n) == BitSteps(poly, d, n)
    ensures c == d
    decreases n
  {
    if n > 0 {
      BitStepBound(poly, c);
      BitStepBound(poly, d);
      BitStepsInjective(poly, BitStep(poly, c), BitStep(poly, d), n - 1);
      BitStepInjective(poly, c, d);
    }
  }

  lemma {:induction false} BitStepsAdd(poly: nat, c: nat, m: nat, n: nat)
    ensures BitSteps(poly, BitSteps(poly, c, m), n) == BitSteps(poly, c, m + n)
    decreases m
  {
    if m > 0 { BitStepsAdd(poly, BitStep(poly, c), m - 1, n); }
  }

  lemma XorSwap(a: nat, b: nat, c: nat)
    ensures Xor(Xor(a, b), c) == Xor(Xor(a, c), b)
  {
    XorAssociates(a, b, c);
    XorCommutes(b, c);
    XorAssociates(a, c, b);
  }

  /** Bits above the one shifted out pass through a step untouched. */
  lemma BitStepLinear(poly: nat, c: nat, y: nat)
    ensures BitStep(poly, Xor(c, 2 * y)) == Xor(BitStep(poly, c), y)
  {
    var d := Xor(c, 2 * y);
    assert d / 2 == Xor(c / 2, y) && d % 2 == c % 2 by { XorStep(c, 2 * y); }
    XorSwap(c / 2, y, if c % 2 == 1 then poly else 0);
  }

  /** `y` shifted left by `n` bits. */
  function Shl(y: nat, n: nat): (r: nat)
    decreases n
  {
    if n == 0 then y else 2 * Shl(y, n - 1)
  }

  lemma {:induction false} BitStepsLinear(poly: nat, c: nat, y: nat, n: nat)
    ensures BitSteps(poly, Xor(c, Shl(y, n)), n) == Xor(BitSteps(poly, c, n), y)
    decreases n
  {
    if n > 0 {
      BitStepLinear(poly, c, Shl(y, n - 1));
      BitStepsLinear(poly, BitStep(poly, c), y, n - 1);
    }
  }

  /** Disjoint bit ranges: adding a number below a shifted one is xor. */
  lemma {:induction false} XorShift(b: nat, y: nat, k: nat)
    requires b < Pow2(k)
    ensures Xor(b, Shl(y, k)) == b + Shl(y, k)
    decreases k
  {
    if k == 0 {
      XorZero(y);
    } else {
      XorShift(b / 2, y, k - 1);
      XorStep(b, Shl(y, k));
    }
  }

  lemma {:induction false} CrcAppend(poly: nat, seed: nat, a: Bytes, b: Bytes)
    ensures Crc(poly, seed, a + b) == Crc(poly, Crc(poly, seed, a), b)
    decreases |b|
  {
    if b == [] {
      assert a + b == a;
    } else {
      var n := |b| - 1;
      assert (a + b)[..|a + b| - 1] == a + b[..n];
      CrcAppend(poly, seed, a, b[..n]);
    }
  }

  lemma CrcCons(poly: nat, seed: nat, data: Bytes)
    requires data != []
    ensures Crc(poly, seed, data) == Crc(poly, ByteStep(poly, seed, data[0]), data[1..])
  {
    assert data == [data[0]] + data[1..];
    CrcAppend(poly, seed, [data[0]], data[1..]);
    assert Crc(poly, seed, []) == seed;
    assert [data[0]][..0] == [];
  }

  /** Stepping past the low byte leaves the higher bytes xored in, unshifted. */
  lemma ByteThenRest(poly: nat, c: nat, b: Byte, rest: nat, n: nat)
    requires n == 8
    ensures BitSteps(poly, Xor(c, b + 256 * rest), n) == Xor(BitSteps(poly, Xor(c, b), n), rest)
  {
    assert Pow2(8) == 256;
    assert Shl(rest, 8) == 256 * rest;
    XorShift(b, rest, 8);
    XorAssociates(c, b, 256 * rest);
    BitStepsLinear(poly, Xor(c, b), rest, n);
  }

  /** Feeding k bytes is feeding their little-endian value and then stepping 8k bits. */
  lemma {:induction false} CrcOfWord(poly: nat, c: nat, word: Bytes, bits: nat)
    requires bits == 8 * |word|
    ensures Crc(poly, c, word) == BitSteps(poly, Xor(c, LE(word)), bits)
    decreases |word|
  {
    if word == [] {
      XorZero(c);
    } else {
      var b, rest := word[0], word[1..];
      var next := ByteStep(poly, c, b);
      assert Crc(poly, c, word) == Crc(poly, next, rest) by { CrcCons(poly, c, word); }
      assert Crc(poly, next, rest) == BitSteps(poly, Xor(next, LE(rest)), bits - 8) by {
        CrcOfWord(poly, next, rest, bits - 8);
      }
      assert LE(word) == b + 256 * LE(rest);
      WordStep(poly, c, b, LE(rest), bits - 8);
    }
  }

  lemma WordStep(poly: nat, c: nat, b: Byte, rest: nat, more: nat)
    ensures BitSteps(poly, Xor(ByteStep(poly, c, b), rest), more)
         == BitSteps(poly, Xor(c, b + 256 * rest), more + 8)
  {
    ByteThenRest(poly, c, b, rest, 8);
    BitStepsAdd(poly, Xor(c, b + 256 * rest), 8, more);
  }

  /** A register of 32 bits tells apart every two short words, from any state. */
  lemma ShortWordsDiffer(poly: nat, c: nat, v: Bytes, w: Bytes)
    requires IsPolynomial(poly) && c < U32
    requires |v| == |w| <= 4 && v != w
    ensures Crc(poly, c, v) != Crc(poly, c, w)
  {
    CrcOfWord(poly, c, v, 8 * |v|);
    CrcOfWord(poly, c, w, 8 * |v|);
    Pow256Bound(|v|);
    XorBound32(c, LE(v));
    XorBound32(c, LE(w));
    if Crc(poly, c, v) == Crc(poly, c, w) {
      BitStepsInjective(poly, Xor(c, LE(v)), Xor(c, LE(w)), 8 * |v|);
      XorCommutes(c, LE(v));
      XorCommutes(c, LE(w));
      XorCancels(LE(v), c);
      XorCancels(LE(w), c);
      LEInjective(v, w);
    }
  }

  lemma Pow256Bound(k: nat)
    requires k <= 4
    ensures Pow256(k) <= U32
  {
    Widths();
    assert Pow256(3) == 0x100_0000;
    assert Pow256(0) == 1;
  }

  /** Distinct registers stay distinct whatever message follows. */
  lemma {:induction false} StatesStayDistinct(poly: nat, c: nat, d: nat, data: Bytes)
    requires IsPolynomial(poly) && c < U32 && d < U32 && c != d
    ensures Crc(poly, c, data) != Crc(poly, d, data)
  {
    if data != [] {
      var prefix, b := data[..|data| - 1], data[|data| - 1];
      StatesStayDistinct(poly, c, d, prefix);
      CrcBound(poly, c, prefix);
      CrcBound(poly, d, prefix);
      var p, q := Crc(poly, c, prefix), Crc(poly, d, prefix);
      XorBound32(p, b);
      XorBound32(q, b);
      if ByteStep(poly, p, b) == ByteStep(poly, q, b) {
        BitStepsInjective(poly, Xor(p, b), Xor(q, b), 8);
        XorCancels(p, b);
        XorCancels(q, b);
      }
    }
  }

  /** `a` and `b` agree outside the bytes `at .. at + 4`. */
  ghost predicate DifferOnlyWithin(a: Bytes, b: Bytes, at: nat) {
    && |a| == |b|
    && forall i | 0 <= i < |a| && !(at <= i < at + 4) :: a[i] == b[i]
  }

  /** Every corruption confined to four consecutive bytes changes the checksum. */
  lemma BurstDetected(poly: nat, seed: nat, a: Bytes, b: Bytes, at: nat)
    requires IsPolynomial(poly) && seed < U32
    requires DifferOnlyWithin(a, b, at) && a != b
    ensures Crc(poly, seed, a) != Crc(poly, seed, b)
  {
    var n := |a|;
    var i := if at < n then at else n;
    var j := if at + 4 < n then at + 4 else n;
    assert a[..i] == b[..i] && a[j..] == b[j..];
    assert a == a[..i] + a[i..j] + a[j..] && b == b[..i] + b[i..j] + b[j..];
    assert a[i..j] != b[i..j];
    var c := Crc(poly, seed, a[..i]);
    CrcBound(poly, seed, a[..i]);
    CrcAppend(poly, seed, a[..i], a[i..j]);
    CrcAppend(poly, seed, b[..i], b[i..j]);
    CrcAppend(poly, seed, a[..i] + a[i..j], a[j..]);
    CrcAppend(poly, seed, b[..i] + b[i..j], b[j..]);
    ShortWordsDiffer(poly, c, a[i..j], b[i..j]);
    CrcBound(poly, c, a[i..j]);
    CrcBound(poly, c, b[i..j]);
    StatesStayDistinct(poly, Crc(poly, c, a[i..j]), Crc(poly, c, b[i..j]), a[j..]);
  }

  /** zlib's complemented form detects the same bursts, and stays in 32 bits. */
  lemma BurstDetectedByCrc32(a: Bytes, b: Bytes, at: nat)
    requires DifferOnlyWithin(a, b, at) && a != b
    ensures Crc32Of(a) != Crc32Of(b)
  {
    BurstDetected(CRC32_POLYNOMIAL, 0xFFFF_FFFF, a, b, at);
    XorCancels(Crc(CRC32_POLYNOMIAL, 0xFFFF_FFFF, a), 0xFFFF_FFFF);
    XorCancels(Crc(CRC32_POLYNOMIAL, 0xFFFF_FFFF, b), 0xFFFF_FFFF);
  }

  lemma Crc32Bound(data: Bytes)
    ensures Crc32Of(data) < U32
  {
    CrcBound(CRC32_POLYNOMIAL, 0xFFFF_FFFF, data);
    XorBound32(Crc(CRC32_POLYNOMIAL, 0xFFFF_FFFF, data), 0xFFFF_FFFF);
  }
}
