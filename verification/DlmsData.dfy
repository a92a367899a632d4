/**
 The recursive data values of xDLMS: what their encoding is, what the depth-limited
 decoder makes of any input, and how the two fit together.
 */
module DlmsData {
  import opened Bytes
  import opened Numbers
  import opened Apdu
  import opened Axdr

  type int64 = x: int | -0x8000_0000_0000_0000 <= x < 0x8000_0000_0000_0000
  type uint64 = x: int | 0 <= x < 0x1_0000_0000_0000_0000

  /** One record for all types; which fields matter depends on the tag. */
  datatype Data = Data(
    tag: byte,
    booleanValue: bool,
    signedValue: int64,
    unsignedValue: uint64,
    bytes: Octets,
    elements: seq<Data>)

  /** A record of which only the tag is set. */
  function Blank(tag: byte): Data {
    Data(tag, false, 0, 0, [], [])
  }

  /** What follows a tag. */
  datatype Shape =
    | Nothing
    | List
    | Boolean
    | Signed(width: nat)
    | Unsigned(width: nat)
    | String
    | Fixed(size: nat)
    | Unsupported

  function ShapeOf(tag: byte): Shape {
    if tag == 0x00 then Nothing
    else if tag == 0x01 || tag == 0x02 then List
    else if tag == 0x03 then Boolean
    else if tag == 0x05 then Signed(4)
    else if tag == 0x06 then Unsigned(4)
    else if tag == 0x09 then String
    else if tag == 0x0f then Signed(1)
    else if tag == 0x10 then Signed(2)
    else if tag == 0x11 || tag == 0x16 then Unsigned(1)
    else if tag == 0x12 then Unsigned(2)
    else if tag == 0x14 then Signed(8)
    else if tag == 0x15 then Unsigned(8)
    else if tag == 0x19 then Fixed(12)
    else if tag == 0x1a then Fixed(5)
    else if tag == 0x1b then Fixed(4)
    else Unsupported
  }

  // ---- Integers of a given width ----

  /** A number of `width` octets read as two's complement. */
  function SignExtend(v: nat, width: nat): int {
    if v < Pow256(width) / 2 then v else v - Pow256(width)
  }

  /** The two's complement of a number in `width` octets. */
  function Truncate(v: int, width: nat): nat {
    v % Pow256(width)
  }

  lemma Powers(tag: byte)
    ensures match ShapeOf(tag)
            case Signed(w) => 1 <= w && 2 <= Pow256(w) <= 0x1_0000_0000_0000_0000 && Pow256(w) % 2 == 0
            case Unsigned(w) => 1 <= w && 2 <= Pow256(w) <= 0x1_0000_0000_0000_0000
            case _ => true
  {
    assert Pow256(1) == 0x100 && Pow256(2) == 0x1_0000 && Pow256(4) == 0x1_0000_0000;
    assert Pow256(8) == 0x1_0000_0000_0000_0000;
  }

  lemma ShiftedRemainder(t: int, p: int)
    requires 0 <= t < p
    ensures (t - p) % p == t && t % p == t
  {
    assert t - p == p * (-1) + t;
  }

  lemma TruncateSignExtend(n: nat, width: nat)
    requires n < Pow256(width)
    ensures Truncate(SignExtend(n, width), width) == n
  {
    hide Pow256;
    ShiftedRemainder(n, Pow256(width));
  }

  lemma SignExtendTruncate(v: int, width: nat)
    requires Pow256(width) % 2 == 0 && 0 - Pow256(width) <= 2 * v < Pow256(width)
    ensures SignExtend(Truncate(v, width), width) == v
  {
    hide Pow256;
    var p := Pow256(width);
    if v < 0 {
      ShiftedRemainder(v + p, p);
    } else {
      ShiftedRemainder(v, p);
    }
  }

  // ---- Encoding ----

  /** The tag, then what its shape asks for. */
  function Emit(v: Data): Emission
    decreases v, 2
  {
    Then(Plain([v.tag]), EmitBody(v))
  }

  function EmitBody(v: Data): Emission
    decreases v, 1
  {
    match ShapeOf(v.tag)
    case Nothing => Plain([])
    case List => Then(Plain(LengthOctets(|v.elements|)), EmitAll(v.elements))
    case Boolean => Plain([BooleanOctet(v.booleanValue)])
    case Signed(w) => Plain(BigEndian(Truncate(v.signedValue, w), w))
    case Unsigned(w) => Plain(BigEndian(v.unsignedValue, w))
    case String => Plain(StringOctets(v.bytes))
    case Fixed(n) => if |v.bytes| != n then Emission([], InvalidLength) else Plain(v.bytes)
    case Unsupported => Emission([], UnsupportedDataType)
  }

  function EmitAll(vs: seq<Data>): Emission
    decreases vs, 3
  {
    if vs == [] then Plain([]) else Then(Emit(vs[0]), EmitAll(vs[1..]))
  }

  /** All sizes are numbers a 64-bit machine can hold. */
  predicate Sized(v: Data)
    decreases v, 0
  {
    |v.bytes| < SIZE_RANGE && |v.elements| < SIZE_RANGE && AllSized(v.elements)
  }

  predicate AllSized(vs: seq<Data>)
    decreases vs, 1
  {
    vs == [] || (Sized(vs[0]) && AllSized(vs[1..]))
  }

  predicate WellFormed(v: Data) {
    Emit(v).fault == Ok
  }

  // ---- Decoding ----

  function WithSigned(tag: byte, n: nat, width: nat): Data
    requires ShapeOf(tag) == Signed(width) && n < Pow256(width)
  {
    Powers(tag);
    Blank(tag).(signedValue := SignExtend(n, width))
  }

  function WithUnsigned(tag: byte, n: nat, width: nat): Data
    requires ShapeOf(tag) == Unsigned(width) && n < Pow256(width)
  {
    Powers(tag);
    Blank(tag).(unsignedValue := n)
  }

  function DecodeSigned(tag: byte, s: Octets, width: nat): Read<Data>
    requires ShapeOf(tag) == Signed(width)
  {
    if |s| < width then No(NeedMoreData)
    else
      FromBigBound(s[..width]);
      Got(WithSigned(tag, FromBig(s[..width]), width), s[width..])
  }

  function DecodeUnsigned(tag: byte, s: Octets, width: nat): Read<Data>
    requires ShapeOf(tag) == Unsigned(width)
  {
    if |s| < width then No(NeedMoreData)
    else
      FromBigBound(s[..width]);
      Got(WithUnsigned(tag, FromBig(s[..width]), width), s[width..])
  }

  function WithBytes(tag: byte, r: Read<Octets>): Read<Data> {
    match r
    case No(e) => No(e)
    case Got(x, rest) => Got(Blank(tag).(bytes := x), rest)
  }

  function Decode(s: Octets, depth: nat): Read<Data>
    decreases depth, 0
  {
    if depth == 0 then No(InvalidData)
    else if s == [] then No(NeedMoreData)
    else
      var tag, r := s[0], s[1..];
      match ShapeOf(tag)
      case Nothing => Got(Blank(tag), r)
      case List =>
        (match ReadLength(r)
         case No(e) => No(e)
         case Got(n, r') =>
           match DecodeAll(r', n, depth - 1)
           case No(e) => No(e)
           case Got(vs, rest) => Got(Blank(tag).(elements := vs), rest))
      case Boolean =>
        (match ReadU8(r)
         case No(e) => No(e)
         case Got(b, rest) => Got(Blank(tag).(booleanValue := b != 0), rest))
      case Signed(w) => DecodeSigned(tag, r, w)
      case Unsigned(w) => DecodeUnsigned(tag, r, w)
      case String => WithBytes(tag, ReadString(r))
      case Fixed(n) => WithBytes(tag, ReadBytes(r, n))
      case Unsupported => No(UnsupportedDataType)
  }

  function DecodeAll(s: Octets, count: nat, depth: nat): Read<seq<Data>>
    decreases depth, count + 1
  {
    if count == 0 then Got([], s)
    else
      match Decode(s, depth)
      case No(e) => No(e)
      case Got(v, r) =>
        match DecodeAll(r, count - 1, depth)
        case No(e) => No(e)
        case Got(vs, rest) => Got([v] + vs, rest)
  }

  /** Decoding of a complete input. */
  function DecodeData(s: Octets, depth: nat): Read<Data> {
    match Decode(s, depth)
    case No(e) => No(e)
    case Got(v, rest) => if rest == [] then Got(v, []) else No(InvalidLength)
  }

  // ---- What a value means ----

  /** The value a record stands for: unused fields blank, integers cut down to their width. */
  function Canonical(v: Data): Data
    decreases v, 0
  {
    match ShapeOf(v.tag)
    case List => Blank(v.tag).(elements := CanonicalAll(v.elements))
    case Boolean => Blank(v.tag).(booleanValue := v.booleanValue)
    case Signed(w) => Powers(v.tag); WithSigned(v.tag, Truncate(v.signedValue, w), w)
    case Unsigned(w) => Powers(v.tag); WithUnsigned(v.tag, v.unsignedValue % Pow256(w), w)
    case String => Blank(v.tag).(bytes := v.bytes)
    case Fixed(_) => Blank(v.tag).(bytes := v.bytes)
    case _ => Blank(v.tag)
  }

  function CanonicalAll(vs: seq<Data>): (r: seq<Data>)
    ensures |r| == |vs|
    decreases vs, 1
  {
    if vs == [] then [] else [Canonical(vs[0])] + CanonicalAll(vs[1..])
  }

  function Max(a: nat, b: nat): nat {
    if a < b then b else a
  }

  function Height(v: Data): nat
    decreases v, 0
  {
    1 + (if ShapeOf(v.tag) == List then HeightAll(v.elements) else 0)
  }

  function HeightAll(vs: seq<Data>): nat
    decreases vs, 1
  {
    if vs == [] then 0 else Max(Height(vs[0]), HeightAll(vs[1..]))
  }

  function Nodes(v: Data): nat
    decreases v, 0
  {
    1 + NodesAll(v.elements)
  }

  function NodesAll(vs: seq<Data>): nat
    decreases vs, 1
  {
    if vs == [] then 0 else Nodes(vs[0]) + NodesAll(vs[1..])
  }

  // ---- Decoding inverts encoding ----

  lemma TagFirst(tag: byte, body: Octets, tail: Octets)
    ensures ([tag] + body) + tail != []
    ensures (([tag] + body) + tail)[0] == tag
    ensures (([tag] + body) + tail)[1..] == body + tail
  {
  }

  lemma NumberDecodes(v: Data, tail: Octets)
    requires ShapeOf(v.tag).Signed? || ShapeOf(v.tag).Unsigned?
    ensures match ShapeOf(v.tag)
      case Signed(w) =>
        DecodeSigned(v.tag, BigEndian(Truncate(v.signedValue, w), w) + tail, w) == Got(Canonical(v), tail)
      case Unsigned(w) =>
        DecodeUnsigned(v.tag, BigEndian(v.unsignedValue, w) + tail, w) == Got(Canonical(v), tail)
      case _ => true
  {
    hide Pow256, BigEndian, FromBig;
    Powers(v.tag);
    match ShapeOf(v.tag)
    case Signed(w) =>
      var t := Truncate(v.signedValue, w);
      ReadNumberFront(t, w, tail);
      ShiftedRemainder(t, Pow256(w));
    case Unsigned(w) => ReadNumberFront(v.unsignedValue, w, tail);
  }

  lemma LeafDecodes(v: Data, depth: nat, tail: Octets)
    requires WellFormed(v) && Sized(v) && ShapeOf(v.tag) != List && depth > 0
    ensures Decode(Emit(v).octets + tail, depth) == Got(Canonical(v), tail)
  {
    hide BigEndian, LengthOctets, StringOctets, ReadLength, ReadString, Pow256, DecodeSigned, DecodeUnsigned,
      Truncate, WithSigned, WithUnsigned;
    LeafFault(v);
    match ShapeOf(v.tag)
    case Nothing =>
      TagFirst(v.tag, [], tail);
      assert [] + tail == tail;
    case Boolean =>
      var b := BooleanOctet(v.booleanValue);
      TagFirst(v.tag, [b], tail);
      ReadU8Front(b, tail);
    case Signed(w) =>
      TagFirst(v.tag, BigEndian(Truncate(v.signedValue, w), w), tail);
      NumberDecodes(v, tail);
    case Unsigned(w) =>
      TagFirst(v.tag, BigEndian(v.unsignedValue, w), tail);
      NumberDecodes(v, tail);
    case String =>
      TagFirst(v.tag, StringOctets(v.bytes), tail);
      StringRoundTrip(v.bytes, tail);
    case Fixed(n) =>
      TagFirst(v.tag, v.bytes, tail);
      ReadBytesFront(v.bytes, tail);
  }

  lemma ListParts(v: Data)
    requires ShapeOf(v.tag) == List
    ensures Emit(v) == Emission(
      [v.tag] + (LengthOctets(|v.elements|) + EmitAll(v.elements).octets), EmitAll(v.elements).fault)
  {
    hide LengthOctets, EmitAll;
    assert EmitBody(v) == Then(Plain(LengthOctets(|v.elements|)), EmitAll(v.elements));
  }

  lemma LeafFault(v: Data)
    requires ShapeOf(v.tag) != List
    ensures WellFormed(v) <==>
      ShapeOf(v.tag) != Unsupported && (ShapeOf(v.tag).Fixed? ==> |v.bytes| == ShapeOf(v.tag).size)
  {
    hide StringOctets, BigEndian, Truncate;
    assert Emit(v).fault == EmitBody(v).fault;
  }

  /** The exact encoding of a value, whatever follows it, decodes to it, or is found too deep. */
  lemma {:induction false} DecodeEncoded(v: Data, depth: nat, tail: Octets)
    requires WellFormed(v) && Sized(v)
    ensures Decode(Emit(v).octets + tail, depth) ==
      if Height(v) <= depth then Got(Canonical(v), tail) else No(InvalidData)
    decreases v, 0
  {
    hide LengthOctets, ReadLength, EmitAll, HeightAll, CanonicalAll, AllSized, DecodeAll;
    if depth > 0 {
      if ShapeOf(v.tag) == List {
        var a, b := LengthOctets(|v.elements|), EmitAll(v.elements).octets;
        ListParts(v);
        TagFirst(v.tag, a + b, tail);
        assert (a + b) + tail == a + (b + tail);
        LengthRoundTrip(|v.elements|, b + tail);
        DecodeAllEncoded(v.elements, depth - 1, tail);
      } else {
        LeafDecodes(v, depth, tail);
      }
    }
  }

  lemma {:induction false} DecodeAllEncoded(vs: seq<Data>, depth: nat, tail: Octets)
    requires EmitAll(vs).fault == Ok && AllSized(vs)
    ensures DecodeAll(EmitAll(vs).octets + tail, |vs|, depth) ==
      if HeightAll(vs) <= depth then Got(CanonicalAll(vs), tail) else No(InvalidData)
    decreases vs, 1
  {
    hide Decode, Emit, Height, Canonical, Sized;
    if vs == [] {
      assert [] + tail == tail;
    } else {
      var a, b := Emit(vs[0]).octets, EmitAll(vs[1..]).octets;
      assert EmitAll(vs).octets + tail == a + (b + tail);
      DecodeEncoded(vs[0], depth, b + tail);
      DecodeAllEncoded(vs[1..], depth, tail);
    }
  }

  /** Integers within their width, and nothing in a field the tag does not use. */
  predicate InRange(v: Data)
    decreases v, 0
  {
    match ShapeOf(v.tag)
    case List => v == Blank(v.tag).(elements := v.elements) && AllInRange(v.elements)
    case Boolean => v == Blank(v.tag).(booleanValue := v.booleanValue)
    case Signed(w) =>
      v == Blank(v.tag).(signedValue := v.signedValue) && 0 - Pow256(w) <= 2 * v.signedValue < Pow256(w)
    case Unsigned(w) => v == Blank(v.tag).(unsignedValue := v.unsignedValue) && v.unsignedValue < Pow256(w)
    case String => v == Blank(v.tag).(bytes := v.bytes)
    case Fixed(_) => v == Blank(v.tag).(bytes := v.bytes)
    case _ => v == Blank(v.tag)
  }

  predicate AllInRange(vs: seq<Data>)
    decreases vs, 1
  {
    vs == [] || (InRange(vs[0]) && AllInRange(vs[1..]))
  }

  /** Encoding and decoding gives a value back exactly when it is in range. */
  lemma {:induction false} CanonicalExact(v: Data)
    ensures Canonical(v) == v <==> InRange(v)
    decreases v, 0
  {
    hide Pow256, CanonicalAll, AllInRange;
    Powers(v.tag);
    match ShapeOf(v.tag)
    case List => CanonicalAllExact(v.elements);
    case Signed(w) =>
      if 0 - Pow256(w) <= 2 * v.signedValue < Pow256(w) {
        SignExtendTruncate(v.signedValue, w);
      }
    case Unsigned(w) =>
      if v.unsignedValue < Pow256(w) {
        ShiftedRemainder(v.unsignedValue, Pow256(w));
      }
    case _ =>
  }

  lemma {:induction false} CanonicalAllExact(vs: seq<Data>)
    ensures CanonicalAll(vs) == vs <==> AllInRange(vs)
    decreases vs, 1
  {
    hide Canonical, InRange;
    if vs != [] {
      CanonicalExact(vs[0]);
      CanonicalAllExact(vs[1..]);
      assert vs == [vs[0]] + vs[1..];
      assert CanonicalAll(vs)[1..] == CanonicalAll(vs[1..]);
    }
  }

  // ---- More input ----

  lemma {:induction false} DecodeStays(s: Octets, depth: nat, more: Octets)
    ensures StaysRead(Decode(s, depth), Decode(s + more, depth), more)
    decreases depth, 0
  {
    hide ReadLength, ReadString, FromBig, DecodeAll;
    if depth > 0 && s != [] {
      var tag, r := s[0], s[1..];
      assert (s + more)[1..] == r + more;
      match ShapeOf(tag)
      case List =>
        LengthStays(r, more);
        if ReadLength(r).Got? {
          DecodeAllStays(ReadLength(r).rest, ReadLength(r).value, depth - 1, more);
        }
      case Signed(w) => ReadsStay(r, w, more);
      case Unsigned(w) => ReadsStay(r, w, more);
      case String => StringStays(r, more);
      case Fixed(n) => ReadsStay(r, n, more);
      case _ => ReadsStay(r, 1, more);
    }
  }

  lemma {:induction false} DecodeAllStays(s: Octets, count: nat, depth: nat, more: Octets)
    ensures StaysRead(DecodeAll(s, count, depth), DecodeAll(s + more, count, depth), more)
    decreases depth, count + 1
  {
    hide Decode;
    if count > 0 {
      DecodeStays(s, depth, more);
      if Decode(s, depth).Got? {
        DecodeAllStays(Decode(s, depth).rest, count - 1, depth, more);
      }
    }
  }

  /**
   The three cases of an input that begins like an encoding: the exact encoding gives
   the value (or is too deep), every strict prefix needs more, every extension is too long.
   */
  lemma Trichotomy(v: Data, depth: nat, input: Octets)
    requires WellFormed(v) && Sized(v)
    ensures input == Emit(v).octets ==>
      DecodeData(input, depth) == if Height(v) <= depth then Got(Canonical(v), []) else No(InvalidData)
    ensures Height(v) <= depth && input < Emit(v).octets ==> DecodeData(input, depth) == No(NeedMoreData)
    ensures Height(v) <= depth && Emit(v).octets < input ==> DecodeData(input, depth) == No(InvalidLength)
  {
    hide Decode, Emit, Height, Canonical, Sized;
    var e := Emit(v).octets;
    assert e + [] == e;
    DecodeEncoded(v, depth, []);
    if Height(v) <= depth && input < e {
      var more := e[|input|..];
      assert input + more == e;
      DecodeStays(input, depth, more);
    }
    if Height(v) <= depth && e < input {
      assert input == e + input[|e|..];
      DecodeEncoded(v, depth, input[|e|..]);
    }
  }

  // ---- What the decoder returns ----

  /** A decoded value has no more nodes than octets, fits the depth, and is canonical. */
  lemma {:induction false} DecodedIsCanonical(s: Octets, depth: nat)
    ensures Decode(s, depth).Got? ==>
      var v, rest := Decode(s, depth).value, Decode(s, depth).rest;
      && Nodes(v) + |rest| <= |s|
      && Height(v) <= depth
      && Canonical(v) == v && WellFormed(v)
    decreases depth, 0
  {
    hide ReadLength, FromBig, DecodeAll, NodesAll, HeightAll, CanonicalAll, EmitAll, LengthOctets, BigEndian, Pow256,
      Truncate, SignExtend;
    if Decode(s, depth).Got? {
      var tag, r := s[0], s[1..];
      LengthConsumes(r);
      NoElements();
      var v := Decode(s, depth).value;
      if ShapeOf(tag) != List {
        LeafFault(v);
      }
      match ShapeOf(tag)
      case List =>
        ListParts(v);
        DecodedAllCanonical(ReadLength(r).rest, ReadLength(r).value, depth - 1);
      case Signed(w) =>
        Powers(tag);
        FromBigBound(r[..w]);
        TruncateSignExtend(FromBig(r[..w]), w);
      case Unsigned(w) =>
        Powers(tag);
        FromBigBound(r[..w]);
        ShiftedRemainder(FromBig(r[..w]), Pow256(w));
      case _ =>
    }
  }

  lemma NoElements()
    ensures NodesAll([]) == 0 && HeightAll([]) == 0 && CanonicalAll([]) == []
  {
  }

  lemma {:induction false} DecodedAllCanonical(s: Octets, count: nat, depth: nat)
    ensures DecodeAll(s, count, depth).Got? ==>
      var vs, rest := DecodeAll(s, count, depth).value, DecodeAll(s, count, depth).rest;
      && |vs| == count
      && NodesAll(vs) + |rest| <= |s|
      && HeightAll(vs) <= depth
      && CanonicalAll(vs) == vs && EmitAll(vs).fault == Ok
    decreases depth, count + 1
  {
    hide Decode, Nodes, Height, Canonical, Emit;
    if count > 0 && DecodeAll(s, count, depth).Got? {
      var v, r := Decode(s, depth).value, Decode(s, depth).rest;
      DecodedIsCanonical(s, depth);
      DecodedAllCanonical(r, count - 1, depth);
      var vs := DecodeAll(s, count, depth).value;
      assert vs[0] == v && vs[1..] == DecodeAll(r, count - 1, depth).value;
    }
  }
}
