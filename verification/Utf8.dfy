/** Well-formed UTF-8 byte strings (Table 3-7 of the Unicode Standard), as strict
    decoders accept them. */
module Utf8 {
  import opened ByteCodec

  predicate Continuation(b: Byte) {
    0x80 <= b <= 0xBF
  }

  /** Length of the well-formed sequence that `s` starts with; zero when it starts with none. */
  function SequenceLen(s: Bytes): (n: nat)
    ensures n <= |s| && n <= 4
  {
    if s == [] then 0
    else if s[0] < 0x80 then 1
    else if 0xC2 <= s[0] <= 0xDF then (if |s| >= 2 && Continuation(s[1]) then 2 else 0)
    else if 0xE0 <= s[0] <= 0xEF then
      (if |s| >= 3 && Continuation(s[1]) && Continuation(s[2])
          && (s[0] == 0xE0 ==> s[1] >= 0xA0) && (s[0] == 0xED ==> s[1] <= 0x9F) then 3 else 0)
    else if 0xF0 <= s[0] <= 0xF4 then
      (if |s| >= 4 && Continuation(s[1]) && Continuation(s[2]) && Continuation(s[3])
          && (s[0] == 0xF0 ==> s[1] >= 0x90) && (s[0] == 0xF4 ==> s[1] <= 0x8F) then 4 else 0)
    else 0
  }

  predicate Valid(s: Bytes) {
    s == [] || (SequenceLen(s) > 0 && Valid(s[SequenceLen(s)..]))
  }

  predicate IsAscii(s: Bytes) {
    forall i | 0 <= i < |s| :: s[i] < 0x80
  }

  /** An ASCII prefix does not change the validity of what follows it. */
  lemma {:induction false} AsciiPrefix(a: Bytes, s: Bytes)
    requires IsAscii(a)
    ensures Valid(a + s) <==> Valid(s)
  {
    if a == [] {
      assert a + s == s;
    } else {
      AsciiPrefix(a[1..], s);
      assert (a + s)[1..] == a[1..] + s && SequenceLen(a + s) == 1;
    }
  }

  /** The bytes of an ASCII string literal. */
  function Ascii(s: string): (b: Bytes)
    ensures |b| == |s| && IsAscii(b)
  {
    seq(|s|, i requires 0 <= i < |s| => var n := s[i] as int; if n < 0x80 then n else 0)
  }
}
