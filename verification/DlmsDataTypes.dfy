/**
 What each data tag means: the octets of every value of every supported type, written
 out, and what they decode to.
 */
module DlmsDataTypes {
  import opened Bytes
  import opened Numbers
  import opened Apdu
  import opened Axdr
  import opened DlmsData

  // ---- Integers ----

  datatype Option<+T> = None | Some(value: T)

  /** The octets behind the tag of an integer type, and the half of its range for signed types. */
  datatype Range = Range(octets: Octets, bound: int)

  /** integer, long, double-long and long64. */
  function SignedType(tag: byte, x: int): Option<Range> {
    if tag == 0x0f then Some(Range(Octets1(x), 0x80))
    else if tag == 0x10 then Some(Range(Octets2(x), 0x8000))
    else if tag == 0x05 then Some(Range(Octets4(x), 0x8000_0000))
    else if tag == 0x14 then Some(Range(Octets8(x), 0x8000_0000_0000_0000))
    else None
  }

  /** unsigned and enum, long-unsigned, double-long-unsigned and long64-unsigned. */
  function UnsignedType(tag: byte, x: int): Option<Range> {
    if tag == 0x11 || tag == 0x16 then Some(Range(Octets1(x), 0x100))
    else if tag == 0x12 then Some(Range(Octets2(x), 0x1_0000))
    else if tag == 0x06 then Some(Range(Octets4(x), 0x1_0000_0000))
    else if tag == 0x15 then Some(Range(Octets8(x), 0x1_0000_0000_0000_0000))
    else None
  }

  lemma Widths()
    ensures Pow256(1) == 0x100 && Pow256(2) == 0x1_0000 && Pow256(4) == 0x1_0000_0000
    ensures Pow256(8) == 0x1_0000_0000_0000_0000
  {
    assert Pow256(4) == 0x1_0000_0000;
  }

  lemma SignedBody(v: Data)
    requires SignedType(v.tag, v.signedValue).Some?
    ensures EmitBody(v) == Plain(SignedType(v.tag, v.signedValue).value.octets)
  {
    hide Pow256, BigEndian, LowOctets, Octets1, Octets2, Octets4, Octets8;
    var x := v.signedValue;
    FourLow(x);
    EightLow(x);
    TruncatedOctets(x, 1);
    TruncatedOctets(x, 2);
    TruncatedOctets(x, 4);
    TruncatedOctets(x, 8);
  }

  lemma UnsignedBody(v: Data)
    requires UnsignedType(v.tag, v.unsignedValue).Some?
    ensures EmitBody(v) == Plain(UnsignedType(v.tag, v.unsignedValue).value.octets)
  {
    hide Pow256, BigEndian, Octets1, Octets2, Octets4, Octets8;
    BigEndianWritten(v.unsignedValue);
  }

  /** An encoding that succeeds: its octets, and what they decode to when it does not nest. */
  ghost predicate Means(v: Data, octets: Octets, meaning: Data, depth: nat) {
    && Emit(v) == Plain(octets)
    && (depth > 0 ==> forall tail :: Decode(octets + tail, depth) == Got(meaning, tail))
  }

  lemma LeafMeans(v: Data, body: Octets, meaning: Data, depth: nat)
    requires EmitBody(v) == Plain(body) && Sized(v) && ShapeOf(v.tag) != List && Canonical(v) == meaning
    ensures Means(v, [v.tag] + body, meaning, depth)
  {
    hide Decode, EmitBody, Canonical, ShapeOf, Sized;
    assert Emit(v) == Then(Plain([v.tag]), EmitBody(v));
    assert Emit(v).octets == [v.tag] + body;
    if depth > 0 {
      forall tail: Octets
        ensures Decode([v.tag] + body + tail, depth) == Got(meaning, tail)
      {
        LeafDecodes(v, depth, tail);
      }
    }
  }

  /**
   A signed integer is its tag and one, two, four or eight octets of two's complement;
   every value in the range of its type comes back.
   */
  lemma SignedLaw(v: Data, depth: nat)
    requires Sized(v)
    requires SignedType(v.tag, v.signedValue).Some?
    requires var r := SignedType(v.tag, v.signedValue).value; -r.bound <= v.signedValue < r.bound
    ensures var r := SignedType(v.tag, v.signedValue).value;
      Means(v, [v.tag] + r.octets, Blank(v.tag).(signedValue := v.signedValue), depth)
  {
    hide Pow256, Octets1, Octets2, Octets4, Octets8, Means, EmitBody, Sized;
    Widths();
    SignedBody(v);
    assert Canonical(v) == Blank(v.tag).(signedValue := v.signedValue) by {
      match ShapeOf(v.tag)
      case Signed(w) => SignExtendTruncate(v.signedValue, w);
      case _ =>
    }
    LeafMeans(v, SignedType(v.tag, v.signedValue).value.octets, Blank(v.tag).(signedValue := v.signedValue), depth);
  }

  lemma UnsignedLaw(v: Data, depth: nat)
    requires Sized(v)
    requires UnsignedType(v.tag, v.unsignedValue).Some?
    requires v.unsignedValue < UnsignedType(v.tag, v.unsignedValue).value.bound
    ensures var r := UnsignedType(v.tag, v.unsignedValue).value;
      Means(v, [v.tag] + r.octets, Blank(v.tag).(unsignedValue := v.unsignedValue), depth)
  {
    hide Pow256, Octets1, Octets2, Octets4, Octets8, Means, EmitBody, Sized;
    Widths();
    UnsignedBody(v);
    LeafMeans(v, UnsignedType(v.tag, v.unsignedValue).value.octets, Blank(v.tag).(unsignedValue := v.unsignedValue), depth);
  }

  // ---- The other types ----

  lemma NullLaw(v: Data, depth: nat)
    requires Sized(v) && v.tag == 0x00
    ensures Means(v, [0x00], Blank(0x00), depth)
  {
    hide Means, Sized;
    LeafMeans(v, [], Blank(v.tag), depth);
    assert [v.tag] + [] == [0x00];
  }

  /** A boolean is written as 0 or 1, and every other octet but 0 is read as true. */
  lemma BooleanLaw(v: Data, depth: nat, x: byte, tail: Octets)
    requires Sized(v) && v.tag == 0x03
    ensures Means(v, [0x03, if v.booleanValue then 1 else 0], Blank(0x03).(booleanValue := v.booleanValue), depth)
    ensures depth > 0 ==> Decode([0x03, x] + tail, depth) == Got(Blank(0x03).(booleanValue := x != 0), tail)
  {
    hide Means, Sized;
    var b: byte := if v.booleanValue then 1 else 0;
    LeafMeans(v, [b], Blank(v.tag).(booleanValue := v.booleanValue), depth);
    assert [v.tag] + [b] == [0x03, b];
    assert ([0x03, x] + tail)[1..] == [x] + tail;
    ReadU8Front(x, tail);
  }

  lemma StringLaw(v: Data, depth: nat)
    requires Sized(v) && v.tag == 0x09
    ensures Means(v, [0x09] + (LengthOctets(|v.bytes|) + v.bytes), Blank(0x09).(bytes := v.bytes), depth)
  {
    hide Means, Sized, LengthOctets;
    LeafMeans(v, LengthOctets(|v.bytes|) + v.bytes, Blank(v.tag).(bytes := v.bytes), depth);
  }

  /** date-time, date and time have twelve, five and four octets; other sizes are refused. */
  lemma FixedLaw(v: Data, depth: nat)
    requires Sized(v) && (v.tag == 0x19 || v.tag == 0x1a || v.tag == 0x1b)
    ensures var size := if v.tag == 0x19 then 12 else if v.tag == 0x1a then 5 else 4;
      if |v.bytes| == size then Means(v, [v.tag] + v.bytes, Blank(v.tag).(bytes := v.bytes), depth)
      else Emit(v).fault == InvalidLength
  {
    hide Means, Sized;
    if EmitBody(v).fault == Ok {
      LeafMeans(v, v.bytes, Blank(v.tag).(bytes := v.bytes), depth);
    }
  }

  /** The encodings of the elements one after the other, up to the first that cannot be encoded. */
  function Chained(vs: seq<Data>): Octets {
    if vs == [] then []
    else if Emit(vs[0]).fault != Ok then Emit(vs[0]).octets
    else Emit(vs[0]).octets + Chained(vs[1..])
  }

  lemma {:induction false} ElementsChained(vs: seq<Data>)
    ensures EmitAll(vs).octets == Chained(vs)
    ensures EmitAll(vs).fault == Ok <==> forall i :: 0 <= i < |vs| ==> Emit(vs[i]).fault == Ok
  {
    hide Emit;
    if vs != [] {
      ElementsChained(vs[1..]);
      if EmitAll(vs).fault == Ok {
        forall i | 0 <= i < |vs|
          ensures Emit(vs[i]).fault == Ok
        {
          if i > 0 {
            assert vs[1..][i - 1] == vs[i];
          }
        }
      } else if Emit(vs[0]).fault == Ok {
        var i :| 0 <= i < |vs[1..]| && Emit(vs[1..][i]).fault != Ok;
        assert vs[i + 1] == vs[1..][i];
      }
    }
  }

  lemma {:induction false} CanonicalAt(vs: seq<Data>, i: nat)
    requires i < |vs|
    ensures CanonicalAll(vs)[i] == Canonical(vs[i])
  {
    hide Canonical;
    if i > 0 {
      CanonicalAt(vs[1..], i - 1);
    }
  }

  /** The height of a list is one more than that of its highest element. */
  lemma {:induction false} HeightBound(vs: seq<Data>, depth: nat)
    ensures HeightAll(vs) <= depth <==> forall i :: 0 <= i < |vs| ==> Height(vs[i]) <= depth
  {
    hide Height;
    if vs != [] {
      HeightBound(vs[1..], depth);
      if HeightAll(vs) <= depth {
        forall i | 0 <= i < |vs|
          ensures Height(vs[i]) <= depth
        {
          if i > 0 {
            assert vs[1..][i - 1] == vs[i];
          }
        }
      } else if Height(vs[0]) <= depth {
        var i :| 0 <= i < |vs[1..]| && Height(vs[1..][i]) > depth;
        assert vs[i + 1] == vs[1..][i];
      }
    }
  }

  /**
   An array or structure is its tag, the number of its elements and their encodings; it
   can be encoded exactly when they all can, and comes back, element by element, exactly
   when each of them is within one level less.
   */
  lemma ListLaw(v: Data, depth: nat, tail: Octets)
    requires Sized(v) && (v.tag == 0x01 || v.tag == 0x02)
    ensures Emit(v).octets == [v.tag] + (LengthOctets(|v.elements|) + Chained(v.elements))
    ensures Emit(v).fault == Ok <==> forall i :: 0 <= i < |v.elements| ==> Emit(v.elements[i]).fault == Ok
    ensures Emit(v).fault == Ok ==>
      var r := Decode(Emit(v).octets + tail, depth);
      if depth > 0 && forall i :: 0 <= i < |v.elements| ==> Height(v.elements[i]) < depth then
        && r.Got? && r.rest == tail
        && r.value == Blank(v.tag).(elements := r.value.elements) && |r.value.elements| == |v.elements|
        && forall i :: 0 <= i < |v.elements| ==> r.value.elements[i] == Canonical(v.elements[i])
      else r == No(InvalidData)
  {
    hide Emit, EmitAll, Decode, LengthOctets, Chained, HeightAll, CanonicalAll, Sized;
    ListParts(v);
    ElementsChained(v.elements);
    if Emit(v).fault == Ok {
      DecodeEncoded(v, depth, tail);
      if depth > 0 {
        HeightBound(v.elements, depth - 1);
      }
      forall i | 0 <= i < |v.elements|
        ensures CanonicalAll(v.elements)[i] == Canonical(v.elements[i])
      {
        CanonicalAt(v.elements, i);
      }
    }
  }

  predicate Known(tag: byte) {
    tag in {0x00, 0x01, 0x02, 0x03, 0x05, 0x06, 0x09, 0x0f, 0x10, 0x11, 0x12, 0x14, 0x15, 0x16, 0x19, 0x1a, 0x1b}
  }

  /** These are all the tags, in either direction. */
  lemma KnownExact(v: Data, depth: nat, tail: Octets)
    requires depth > 0
    ensures !Known(v.tag) ==>
      Emit(v) == Emission([v.tag], UnsupportedDataType) && Decode([v.tag] + tail, depth) == No(UnsupportedDataType)
    ensures Known(v.tag) && v.tag != 0x01 && v.tag != 0x02 ==>
      Emit(v).fault != UnsupportedDataType && Decode([v.tag] + tail, depth) != No(UnsupportedDataType)
  {
    hide ReadLength, ReadString, BigEndian, LengthOctets, FromBig, Pow256, Truncate, SignExtend;
    assert Emit(v).fault == EmitBody(v).fault;
    assert ([v.tag] + tail)[1..] == tail;
    assert [v.tag] + [] == [v.tag];
    StringFaults(tail);
  }

  lemma StringFaults(s: Octets)
    ensures ReadString(s) != No(UnsupportedDataType)
  {
  }
}
