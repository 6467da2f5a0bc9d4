/** Packed little-endian records: the `struct.pack` and `struct.unpack` of the
    image tools, as functions on field widths and field values. */
module Struct {
  import opened ByteCodec

  function Size(widths: seq<nat>): (n: nat) {
    if widths == [] then 0 else widths[0] + Size(widths[1..])
  }

  /** Every value fits its field. */
  predicate Fits(widths: seq<nat>, values: seq<nat>) {
    |widths| == |values| && forall i | 0 <= i < |values| :: values[i] < Pow256(widths[i])
  }

  function Pack(widths: seq<nat>, values: seq<nat>): (b: Bytes)
    requires |widths| == |values|
    ensures |b| == Size(widths)
  {
    if widths == [] then [] else ToLE(values[0], widths[0]) + Pack(widths[1..], values[1..])
  }

  function Unpack(widths: seq<nat>, b: Bytes): (values: seq<nat>)
    requires |b| == Size(widths)
    ensures Fits(widths, values)
  {
    if widths == [] then []
    else [LE(b[..widths[0]])] + Unpack(widths[1..], b[widths[0]..])
  }

  lemma {:induction false} PackThenUnpack(widths: seq<nat>, values: seq<nat>)
    requires Fits(widths, values)
    ensures Unpack(widths, Pack(widths, values)) == values
  {
    if widths != [] {
      var b := Pack(widths, values);
      ToLEThenLE(values[0], widths[0]);
      PackThenUnpack(widths[1..], values[1..]);
      assert b[..widths[0]] == ToLE(values[0], widths[0]);
      assert b[widths[0]..] == Pack(widths[1..], values[1..]);
    }
  }

  lemma {:induction false} UnpackThenPack(widths: seq<nat>, b: Bytes)
    requires |b| == Size(widths)
    ensures Pack(widths, Unpack(widths, b)) == b
  {
    if widths != [] {
      var w, rest := widths[0], Unpack(widths[1..], b[widths[0]..]);
      LEThenToLE(b[..w]);
      UnpackThenPack(widths[1..], b[w..]);
      var values := Unpack(widths, b);
      assert values == [LE(b[..w])] + rest && values[1..] == rest;
      assert Pack(widths, values) == b[..w] + b[w..];
    }
  }

  lemma {:induction false} PackAppend(w1: seq<nat>, v1: seq<nat>, w2: seq<nat>, v2: seq<nat>)
    requires |w1| == |v1| && |w2| == |v2|
    ensures Pack(w1 + w2, v1 + v2) == Pack(w1, v1) + Pack(w2, v2)
  {
    if w1 == [] {
      assert w1 + w2 == w2 && v1 + v2 == v2;
    } else {
      PackAppend(w1[1..], v1[1..], w2, v2);
      assert (w1 + w2)[1..] == w1[1..] + w2 && (v1 + v2)[1..] == v1[1..] + v2;
    }
  }

  /** The fields at `offset`, as `struct.unpack_from` reads them. */
  function UnpackFrom(widths: seq<nat>, b: Bytes, offset: nat): (values: seq<nat>)
    requires offset + Size(widths) <= |b|
    ensures Fits(widths, values)
  {
    Unpack(widths, b[offset..offset + Size(widths)])
  }

  lemma {:induction false} SizeAppend(a: seq<nat>, b: seq<nat>)
    ensures Size(a + b) == Size(a) + Size(b)
  {
    if a == [] {
      assert a + b == b;
    } else {
      SizeAppend(a[1..], b);
      assert (a + b)[1..] == a[1..] + b;
    }
  }

  /** Sizes of short formats. */
  lemma Sizes(a: nat, b: nat, c: nat, d: nat, e: nat, f: nat)
    ensures Size([a]) == a
    ensures Size([a, b]) == a + b
    ensures Size([a, b, c]) == a + b + c
    ensures Size([a, b, c, d]) == a + b + c + d
    ensures Size([a, b, c, d, e]) == a + b + c + d + e
    ensures Size([a, b, c, d, e, f]) == a + b + c + d + e + f
  {
    assert Size([]) == 0;
    forall x: nat ensures Size([x]) == x {
      assert [x][1..] == [];
    }
    SizeAppend([a], [b]);
    assert [a] + [b] == [a, b];
    SizeAppend([a, b], [c]);
    assert [a, b] + [c] == [a, b, c];
    SizeAppend([a, b, c], [d]);
    assert [a, b, c] + [d] == [a, b, c, d];
    SizeAppend([a, b, c, d], [e]);
    assert [a, b, c, d] + [e] == [a, b, c, d, e];
    SizeAppend([a, b, c, d, e], [f]);
    assert [a, b, c, d, e] + [f] == [a, b, c, d, e, f];
  }

  /** A slice decodes to `values` exactly when it is their encoding. */
  lemma SliceIsPacked(widths: seq<nat>, b: Bytes, offset: nat, values: seq<nat>)
    requires offset + Size(widths) <= |b| && Fits(widths, values)
    ensures UnpackFrom(widths, b, offset) == values
       <==> b[offset..offset + Size(widths)] == Pack(widths, values)
  {
    hide Pack, Unpack, Size;
    PackThenUnpack(widths, values);
    UnpackThenPack(widths, b[offset..offset + Size(widths)]);
  }
}
