/**
 The recursive decoder and encoder of data values over the cursors, and the client's
 loop that doubles its buffer until a value fits.
 */
module DlmsDataCodec {
  import opened Bytes
  import opened Numbers
  import opened Apdu
  import opened Axdr
  import opened ApduCursor
  import D = DlmsData
  import opened DlmsData

  // ---- Decoding ----

  lemma NextElement(s: Octets, count: nat, depth: nat)
    requires count > 0
    ensures match Decode(s, depth)
            case No(e) => DecodeAll(s, count, depth) == No(e)
            case Got(v, r) =>
              match DecodeAll(r, count - 1, depth)
              case No(e) => DecodeAll(s, count, depth) == No(e)
              case Got(vs, rest) => DecodeAll(s, count, depth) == Got([v] + vs, rest)
  {
    hide Decode;
  }

  lemma NoElement(s: Octets, depth: nat)
    ensures DecodeAll(s, 0, depth) == Got([], s)
  {
  }

  method DecodeElements(reader: ApduReader, count: nat, depth: nat) returns (status: ApduStatus, elements: seq<Data>)
    requires reader.Valid()
    modifies reader`position
    ensures reader.Valid()
    ensures match DecodeAll(old(reader.Rest()), count, depth)
            case Got(vs, rest) => status == Ok && elements == vs && reader.Rest() == rest
            case No(e) => status == e
    decreases depth, 1
  {
    hide Decode, DecodeAll;
    elements := [];
    ghost var all := DecodeAll(reader.Rest(), count, depth);
    RemainsStart(all);
    for i := 0 to count
      invariant reader.Valid()
      invariant Remains(all, elements, DecodeAll(reader.Rest(), count - i, depth))
    {
      NextElement(reader.Rest(), count - i, depth);
      var element;
      status, element := DecodeValue(reader, depth);
      if status != Ok {
        return status, elements;
      }
      RemainsNext(all, elements, element, DecodeAll(reader.Rest(), count - i - 1, depth));
      elements := elements + [element];
    }
    NoElement(reader.Rest(), depth);
    RemainsEnd(all, elements, reader.Rest());
    return Ok, elements;
  }

  /** One value, at most `depth` levels deep. */
  method DecodeValue(reader: ApduReader, depth: nat) returns (status: ApduStatus, output: Data)
    requires reader.Valid()
    modifies reader`position
    ensures reader.Valid()
    ensures match Decode(old(reader.Rest()), depth)
            case Got(v, rest) => status == Ok && output == v && reader.Rest() == rest
            case No(e) => status == e
    decreases depth, 0
  {
    hide ReadLength, ReadString, FromBig, DecodeAll, SignExtend, Pow256;
    output := Blank(0);
    if depth == 0 {
      return InvalidData, output;
    }
    var tag;
    status, tag := reader.Next();
    if status != Ok {
      return status, output;
    }
    output := Blank(tag);
    match ShapeOf(tag) {
      case Nothing => return Ok, output;
      case List =>
        var count, elements;
        status, count := ReadAxdrLength(reader);
        if status != Ok {
          return status, output;
        }
        status, elements := DecodeElements(reader, count, depth - 1);
        if status != Ok {
          return status, output;
        }
        return Ok, output.(elements := elements);
      case Boolean =>
        var raw;
        status, raw := reader.Next();
        if status != Ok {
          return status, output;
        }
        return Ok, output.(booleanValue := raw != 0);
      case Signed(w) =>
        ghost var s := reader.Rest();
        var n;
        status, n := ReadUnsigned(reader, w);
        if status != Ok {
          return status, output;
        }
        FromBigBound(s[..w]);
        return Ok, WithSigned(tag, n, w);
      case Unsigned(w) =>
        ghost var s := reader.Rest();
        var n;
        status, n := ReadUnsigned(reader, w);
        if status != Ok {
          return status, output;
        }
        FromBigBound(s[..w]);
        return Ok, WithUnsigned(tag, n, w);
      case String =>
        var x;
        status, x := ReadAxdrOctetString(reader);
        if status != Ok {
          return status, output;
        }
        return Ok, output.(bytes := x);
      case Fixed(n) =>
        var x;
        status, x := reader.Take(n);
        if status != Ok {
          return status, output;
        }
        return Ok, output.(bytes := x);
      case Unsupported => return UnsupportedDataType, output;
    }
  }

  method DecodeDlmsData(input: Octets, depth: nat) returns (status: ApduStatus, output: Data)
    ensures match DecodeData(input, depth)
            case Got(v, _) => status == Ok && output == v
            case No(e) => status == e
  {
    hide Decode;
    var reader := new ApduReader(input);
    status, output := DecodeValue(reader, depth);
    if status != Ok {
      return status, output;
    }
    var n := reader.Remaining();
    if n != 0 {
      return InvalidLength, output;
    }
  }

  // ---- Encoding ----

  lemma {:induction false} EmitAllSnoc(vs: seq<Data>, v: Data)
    ensures EmitAll(vs + [v]) == Then(EmitAll(vs), Emit(v))
    decreases |vs|
  {
    hide Emit;
    if vs == [] {
      assert ([] + [v])[1..] == [];
      ThenNothing(Emit(v));
      assert EmitAll([v]) == Then(Emit(v), EmitAll([v][1..]));
    } else {
      assert (vs + [v])[0] == vs[0] && (vs + [v])[1..] == vs[1..] + [v];
      EmitAllSnoc(vs[1..], v);
      ThenAssociates(Emit(vs[0]), EmitAll(vs[1..]), Emit(v));
    }
  }

  /** What follows a failing element does not change the status. */
  lemma {:induction false} EmitAllFails(vs: seq<Data>, i: nat, room: nat)
    requires i <= |vs| && StatusIn(EmitAll(vs[..i]), room) != Ok
    ensures StatusIn(EmitAll(vs), room) == StatusIn(EmitAll(vs[..i]), room)
    decreases |vs| - i
  {
    hide Emit, EmitAll;
    if i < |vs| {
      assert vs[..i + 1] == vs[..i] + [vs[i]];
      EmitAllSnoc(vs[..i], vs[i]);
      ThenStatus(EmitAll(vs[..i]), Emit(vs[i]), room);
      EmitAllFails(vs, i + 1, room);
    } else {
      assert vs[..i] == vs;
    }
  }

  method EncodeElements(writer: ApduWriter, vs: seq<Data>) returns (status: ApduStatus)
    requires writer.Valid()
    modifies writer`position, writer.data
    ensures writer.Took(EmitAll(vs), status)
    decreases vs, 3
  {
    hide Emit, EmitAll;
    ghost var room := writer.Room();
    assert EmitAll([]) == Plain([]) by { EmitNone(); }
    for i := 0 to |vs|
      invariant writer.Valid() && old(writer.position) <= writer.position
      invariant writer.data[..old(writer.position)] == old(writer.Written())
      invariant StatusIn(EmitAll(vs[..i]), room) == Ok
      invariant writer.Written() == old(writer.Written()) + EmitAll(vs[..i]).octets
    {
      assert vs[..i + 1] == vs[..i] + [vs[i]];
      EmitAllSnoc(vs[..i], vs[i]);
      ThenStatus(EmitAll(vs[..i]), Emit(vs[i]), room);
      ghost var before := writer.Written();
      assert writer.Room() == room - |EmitAll(vs[..i]).octets|;
      status := EncodeValue(writer, vs[i]);
      assert writer.data[..old(writer.position)] == old(writer.Written()) by {
        PrefixKept(old(writer.Written()), before, writer.data[..]);
      }
      if status != Ok {
        EmitAllFails(vs, i + 1, room);
        return status;
      }
      assert (old(writer.Written()) + EmitAll(vs[..i]).octets) + Emit(vs[i]).octets ==
        old(writer.Written()) + EmitAll(vs[..i + 1]).octets;
    }
    assert vs[..|vs|] == vs;
    return Ok;
  }

  lemma EmitNone()
    ensures EmitAll([]) == Plain([])
  {
  }

  lemma PrefixKept(a: Octets, b: Octets, c: Octets)
    requires a <= b && |b| <= |c| && c[..|b|] == b
    ensures c[..|a|] == a
  {
    assert c[..|b|][..|a|] == c[..|a|];
    assert b[..|a|] == a;
  }

  method EncodeValue(writer: ApduWriter, v: Data) returns (status: ApduStatus)
    requires writer.Valid()
    modifies writer`position, writer.data
    ensures writer.Took(Emit(v), status)
    decreases v, 2
  {
    hide EmitBody;
    ghost var room := writer.Room();
    ThenStatus(Plain([v.tag]), EmitBody(v), room);
    status := writer.Put(v.tag);
    if status != Ok {
      return status;
    }
    status := EncodeBody(writer, v);
    assert (old(writer.Written()) + [v.tag]) + EmitBody(v).octets == old(writer.Written()) + Emit(v).octets;
  }

  method EncodeBody(writer: ApduWriter, v: Data) returns (status: ApduStatus)
    requires writer.Valid()
    modifies writer`position, writer.data
    ensures writer.Took(EmitBody(v), status)
    decreases v, 1
  {
    hide LengthOctets, StringOctets, BigEndian, EmitAll, Truncate, Pow256;
    match ShapeOf(v.tag) {
      case Nothing => return Ok;
      case List => status := EncodeList(writer, v.elements);
      case Boolean => status := writer.Put(BooleanOctet(v.booleanValue));
      case Signed(w) => status := WriteUnsigned(writer, Truncate(v.signedValue, w), w);
      case Unsigned(w) => status := WriteUnsigned(writer, v.unsignedValue, w);
      case String => status := WriteAxdrOctetString(writer, v.bytes);
      case Fixed(n) =>
        if |v.bytes| != n {
          return InvalidLength;
        }
        status := writer.PutBytes(v.bytes);
      case Unsupported => return UnsupportedDataType;
    }
  }

  method EncodeList(writer: ApduWriter, vs: seq<Data>) returns (status: ApduStatus)
    requires writer.Valid()
    modifies writer`position, writer.data
    ensures writer.Took(Then(Plain(LengthOctets(|vs|)), EmitAll(vs)), status)
    decreases vs, 4
  {
    hide LengthOctets, EmitAll;
    ghost var room := writer.Room();
    ThenStatus(Plain(LengthOctets(|vs|)), EmitAll(vs), room);
    status := WriteAxdrLength(writer, |vs|);
    if status != Ok {
      return status;
    }
    status := EncodeElements(writer, vs);
    assert (old(writer.Written()) + LengthOctets(|vs|)) + EmitAll(vs).octets ==
      old(writer.Written()) + (LengthOctets(|vs|) + EmitAll(vs).octets);
  }

  // ---- The client's growth loop ----

  datatype ClientStatus = ClientOk | ClientInvalidArgument | ClientInternalError

  function MapDataStatus(s: ApduStatus): ClientStatus {
    match s
    case Ok => ClientOk
    case OutputBufferTooSmall | PduTooLarge | InternalError => ClientInternalError
    case _ => ClientInvalidArgument
  }

  /**
   Doubles the buffer until the value fits: the result is the encoding of the value, or
   the status of what is wrong with it, and does not depend on the size of any buffer.
   */
  method EncodeData(v: Data) returns (status: ClientStatus, encoded: Octets)
    ensures WellFormed(v) ==> status == ClientOk && encoded == Emit(v).octets
    ensures !WellFormed(v) ==> status == ClientInvalidArgument && encoded == []
  {
    EmitFaults(v);
    hide Emit;
    var size := 16;
    while true
      invariant size >= 16
      decreases |Emit(v).octets| - size
    {
      var buffer := new byte[size](_ => 0);
      var writer := new ApduWriter(buffer);
      var s := EncodeValue(writer, v);
      if s == Ok {
        encoded := buffer[..writer.position];
        return ClientOk, encoded;
      }
      if s != OutputBufferTooSmall {
        return MapDataStatus(s), [];
      }
      size := size * 2;
    }
  }

  /** An emission stops only for a wrong size or an unsupported type. */
  lemma {:induction false} EmitFaults(v: Data)
    ensures Emit(v).fault in {Ok, InvalidLength, UnsupportedDataType}
    decreases v, 0
  {
    hide EmitAll;
    if ShapeOf(v.tag) == List {
      EmitAllFaults(v.elements);
    }
  }

  lemma {:induction false} EmitAllFaults(vs: seq<Data>)
    ensures EmitAll(vs).fault in {Ok, InvalidLength, UnsupportedDataType}
    decreases vs, 1
  {
    hide Emit;
    if vs != [] {
      EmitFaults(vs[0]);
      EmitAllFaults(vs[1..]);
    }
  }
}
