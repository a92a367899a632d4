/**
 Octets, big-endian numbers and a few facts about sequences that every layer of
 the protocol stack shares.
 */
module Bytes {

  /** One octet, kept as a number so that lengths and addresses are plain arithmetic. */
  type byte = x: int | 0 <= x < 256

  type Octets = seq<byte>

  /** Sizes are 64-bit numbers. */
  const SIZE_RANGE: nat := 0x1_0000_0000_0000_0000

  /** The bits of an octet, for the operations the stack performs bitwise. */
  function Bits(b: byte): bv8 {
    b as bv8
  }

  function FromBits(v: bv8): byte {
    v as int
  }

  lemma FromBitsRoundTrip(v: bv8)
    ensures Bits(FromBits(v)) == v
  {
  }

  lemma SuccessorBits(v: bv8)
    requires v != 255
    ensures FromBits(v + 1) == FromBits(v) + 1
  {
  }

  lemma {:induction false} EveryOctetHasBits(b: byte) returns (v: bv8)
    ensures FromBits(v) == b
  {
    if b == 0 {
      v := 0;
    } else {
      v := EveryOctetHasBits(b - 1);
      assert FromBits(255) == 255;
      SuccessorBits(v);
      v := v + 1;
    }
  }

  lemma BitsRoundTrip(b: byte)
    ensures FromBits(Bits(b)) == b
  {
    var v := EveryOctetHasBits(b);
    FromBitsRoundTrip(v);
  }

  function XorBits(x: bv8, y: bv8): bv8 {
    x ^ y
  }

  function Xor(a: byte, b: byte): byte {
    FromBits(XorBits(Bits(a), Bits(b)))
  }

  lemma XorBitsInvolutive(x: bv8, y: bv8)
    ensures XorBits(XorBits(x, y), y) == x
  {
  }

  lemma XorInvolutive(a: byte, b: byte)
    ensures Xor(Xor(a, b), b) == a
  {
    hide Bits, FromBits, XorBits;
    FromBitsRoundTrip(XorBits(Bits(a), Bits(b)));
    XorBitsInvolutive(Bits(a), Bits(b));
    BitsRoundTrip(a);
  }

  /** Concatenation of a list of chunks. */
  function Concat<T>(chunks: seq<seq<T>>): seq<T> {
    if chunks == [] then [] else chunks[0] + Concat(chunks[1..])
  }

  lemma ConcatNothing<T>()
    ensures Concat<T>([]) == []
  {
  }

  lemma {:induction false} ConcatAppend<T>(a: seq<seq<T>>, b: seq<seq<T>>)
    ensures Concat(a + b) == Concat(a) + Concat(b)
  {
    if a == [] {
      assert a + b == b;
    } else {
      assert (a + b)[0] == a[0];
      assert (a + b)[1..] == a[1..] + b;
      ConcatAppend(a[1..], b);
    }
  }

  lemma ConcatSnoc<T>(a: seq<seq<T>>, c: seq<T>)
    ensures Concat(a + [c]) == Concat(a) + c
  {
    ConcatAppend(a, [c]);
    assert Concat([c]) == c + Concat<T>([]);
  }

  lemma AppendAssociates<T>(a: seq<T>, b: seq<T>, c: seq<T>)
    ensures (a + b) + c == a + (b + c)
  {
  }

  lemma SplitSlice<T>(x: seq<T>, p: nat, q: nat, a: seq<T>, b: seq<T>)
    requires p <= q <= |x| && x[p..q] == a + b
    ensures p + |a| <= q && x[p..p + |a|] == a && x[p + |a|..q] == b
  {
    assert |x[p..q]| == |a| + |b|;
    assert x[p..p + |a|] == x[p..q][..|a|];
    assert x[p + |a|..q] == x[p..q][|a|..];
  }

  lemma JoinSlices<T>(x: seq<T>, p: nat, q: nat, r: nat)
    requires p <= q <= r <= |x|
    ensures x[p..r] == x[p..q] + x[q..r]
  {
  }

  lemma TakeOfSlice<T>(x: seq<T>, p: nat, q: nat, k: nat)
    requires p + k <= q <= |x|
    ensures x[p..q][..k] == x[p..p + k]
  {
  }

  lemma SliceOfSlice<T>(x: seq<T>, p: nat, q: nat, i: nat, j: nat)
    requires p <= q <= |x| && i <= j <= q - p
    ensures x[p..q][i..j] == x[p + i..p + j]
    ensures j == q - p ==> x[p..q][i..] == x[p + i..q]
  {
    var y, z := x[p..q][i..j], x[p + i..p + j];
    assert |y| == |z| == j - i;
    assert forall k :: 0 <= k < j - i ==> y[k] == x[p + i + k] == z[k];
  }

  // ---- Buffers written through a moving offset ----

  /** `before` with `data` written over it at `offset`. */
  function Overlay<T>(before: seq<T>, offset: nat, data: seq<T>): (r: seq<T>)
    requires offset + |data| <= |before|
    ensures |r| == |before|
  {
    before[..offset] + data + before[offset + |data|..]
  }

  lemma OverlayNext<T>(before: seq<T>, offset: nat, data: seq<T>, x: T)
    requires offset + |data| < |before|
    ensures Overlay(before, offset, data)[offset + |data| := x] == Overlay(before, offset, data + [x])
  {
  }

  lemma OverlayTwice<T>(before: seq<T>, offset: nat, a: seq<T>, b: seq<T>)
    requires offset + |a| + |b| <= |before|
    ensures Overlay(Overlay(before, offset, a), offset + |a|, b) == Overlay(before, offset, a + b)
  {
  }

  /** Writes one more element after `data`. */
  method Put<T>(output: array<T>, at: nat, x: T, ghost before: seq<T>, ghost offset: nat, ghost data: seq<T>)
    requires at == offset + |data| < output.Length == |before|
    requires output[..] == Overlay(before, offset, data)
    modifies output
    ensures output[..] == Overlay(before, offset, data + [x])
  {
    hide Overlay;
    ghost var current := output[..];
    output[at] := x;
    assert output[..] == current[at := x];
    OverlayNext(before, offset, data, x);
  }

  /** Copies `data` into the buffer at `offset`. */
  method CopyInto<T>(data: seq<T>, output: array<T>, offset: nat)
    requires offset + |data| <= output.Length
    modifies output
    ensures output[..] == Overlay(old(output[..]), offset, data)
  {
    for i := 0 to |data|
      invariant output[..] == Overlay(old(output[..]), offset, data[..i])
    {
      Put(output, offset + i, data[i], old(output[..]), offset, data[..i]);
      assert data[..i] + [data[i]] == data[..i + 1];
    }
    assert data[..|data|] == data;
  }
}
