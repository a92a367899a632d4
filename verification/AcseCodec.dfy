/**
 BER elements, initiate messages, AARQ and AARE over the cursors.
 */
module AcseCodec {
  import opened Bytes
  import opened Numbers
  import opened Apdu
  import opened Axdr
  import opened ApduCursor
  import opened Ber
  import I = Initiate
  import opened Initiate
  import A = Acse
  import opened Acse

  // ---- BER ----

  method ReadBerLengthOctets(reader: ApduReader) returns (status: ApduStatus, length: nat)
    requires reader.Valid()
    modifies reader`position
    ensures reader.Valid()
    ensures match ReadBerLength(old(reader.Rest()))
            case Got(v, rest) => status == Ok && length == v && reader.Rest() == rest
            case No(e) => status == e
  {
    var first;
    status, first := reader.Next();
    if status != Ok {
      return status, 0;
    }
    if first < 0x80 {
      return Ok, first as int;
    }
    var lengthOctets := first as int - 0x80;
    if lengthOctets == 0 {
      return UnsupportedFeature, 0;
    }
    if lengthOctets > 8 {
      return InvalidLength, 0;
    }
    status, length := ReadUnsigned(reader, lengthOctets);
    if status == Ok && length < 0x80 {
      return InvalidLength, 0;
    }
  }

  method ReadBerTlv(reader: ApduReader) returns (status: ApduStatus, tlv: Tlv)
    requires reader.Valid()
    modifies reader`position
    ensures reader.Valid()
    ensures match ReadTlv(old(reader.Rest()))
            case Got(v, rest) => status == Ok && tlv == v && reader.Rest() == rest
            case No(e) => status == e
  {
    hide ReadBerLength;
    tlv := Tlv(0, []);
    var tag, length, value;
    status, tag := reader.Next();
    if status != Ok {
      return status, tlv;
    }
    if LongTag(tag) {
      return UnsupportedFeature, tlv;
    }
    status, length := ReadBerLengthOctets(reader);
    if status != Ok {
      return status, tlv;
    }
    status, value := reader.Take(length);
    if status != Ok {
      return status, tlv;
    }
    return Ok, Tlv(tag, value);
  }

  method WriteBerTlv(writer: ApduWriter, tag: byte, value: Octets) returns (status: ApduStatus)
    requires writer.Valid()
    modifies writer`position, writer.data
    ensures writer.Took(EmitTlv(tag, value), status)
  {
    hide LengthOctets;
    if LongTag(tag) {
      return UnsupportedFeature;
    }
    var size := LengthSize(|value|);
    if writer.Room() < 1 + size + |value| {
      return OutputBufferTooSmall;
    }
    ghost var n := LengthOctets(|value|);
    status := writer.Put(tag);
    if status != Ok {
      return status;
    }
    status := WriteAxdrLength(writer, |value|);
    if status != Ok {
      return status;
    }
    assert writer.Written() == old(writer.Written()) + [tag] + n;
    status := writer.PutBytes(value);
    assert (old(writer.Written()) + [tag] + n) + value == old(writer.Written()) + TlvOctets(tag, value);
  }

  // ---- Initiate messages ----

  method DecodeOptionalInt8(reader: ApduReader) returns (status: ApduStatus, value: Option<int8>)
    requires reader.Valid()
    modifies reader`position
    ensures reader.Valid()
    ensures match ReadOptionalInt8(old(reader.Rest()))
            case Got(v, rest) => status == Ok && value == v && reader.Rest() == rest
            case No(e) => status == e
  {
    value := None;
    var present, raw;
    status, present := ReadAxdrOptionalFlag(reader);
    if status != Ok || !present {
      return status, value;
    }
    status, raw := reader.Next();
    if status != Ok {
      return status, value;
    }
    return Ok, Some(SignedOf(raw));
  }

  method DecodeConformance(reader: ApduReader) returns (status: ApduStatus, value: Conformance)
    requires reader.Valid()
    modifies reader`position
    ensures reader.Valid()
    ensures match ReadConformance(old(reader.Rest()))
            case Got(v, rest) => status == Ok && value == v && reader.Rest() == rest
            case No(e) => status == e
  {
    value := [0, 0, 0];
    ghost var s := reader.Rest();
    var header, octets;
    status, header := ReadEach(reader, 4);
    if status != Ok {
      return status, value;
    }
    if header != CONFORMANCE_HEADER {
      return InvalidConformance, value;
    }
    status, octets := ReadEach(reader, 3);
    if status != Ok {
      return status, value;
    }
    assert s[4..][..3] == s[4..7] && s[4..][3..] == s[7..];
    return Ok, octets;
  }

  method DecodeU16(reader: ApduReader) returns (status: ApduStatus, value: uint16)
    requires reader.Valid()
    modifies reader`position
    ensures reader.Valid()
    ensures match I.ReadU16(old(reader.Rest()))
            case Got(v, rest) => status == Ok && value == v && reader.Rest() == rest
            case No(e) => status == e
  {
    hide FromBig;
    ghost var s := reader.Rest();
    var n;
    status, n := ReadUnsigned(reader, 2);
    if status != Ok {
      return status, 0;
    }
    FromBigBound(s[..2]);
    assert Pow256(2) == 0x1_0000;
    return Ok, n;
  }

  method DecodeTerms(reader: ApduReader) returns (status: ApduStatus, value: Terms)
    requires reader.Valid()
    modifies reader`position
    ensures reader.Valid()
    ensures match ReadTerms(old(reader.Rest()))
            case Got(v, rest) => status == Ok && value == v && reader.Rest() == rest
            case No(e) => status == e
  {
    hide ReadConformance, I.ReadU16;
    value := Terms(0, [0, 0, 0], 0);
    var version, conformance, size;
    status, version := reader.Next();
    if status != Ok {
      return status, value;
    }
    status, conformance := DecodeConformance(reader);
    if status != Ok {
      return status, value;
    }
    status, size := DecodeU16(reader);
    if status != Ok {
      return status, value;
    }
    return Ok, Terms(version, conformance, size);
  }

  method DecodeOptionalString(reader: ApduReader) returns (status: ApduStatus, value: Option<Octets>)
    requires reader.Valid()
    modifies reader`position
    ensures reader.Valid()
    ensures match ReadOptionalString(old(reader.Rest()))
            case Got(v, rest) => status == Ok && value == v && reader.Rest() == rest
            case No(e) => status == e
  {
    hide ReadString;
    value := None;
    var present, x;
    status, present := ReadAxdrOptionalFlag(reader);
    if status != Ok || !present {
      return status, value;
    }
    status, x := ReadAxdrOctetString(reader);
    if status != Ok {
      return status, value;
    }
    return Ok, Some(x);
  }

  method DecodeDefaultTrue(reader: ApduReader) returns (status: ApduStatus, value: bool)
    requires reader.Valid()
    modifies reader`position
    ensures reader.Valid()
    ensures match ReadDefaultTrue(old(reader.Rest()))
            case Got(v, rest) => status == Ok && value == v && reader.Rest() == rest
            case No(e) => status == e
  {
    value := true;
    var present, raw;
    status, present := ReadAxdrOptionalFlag(reader);
    if status != Ok || !present {
      return status, value;
    }
    status, raw := reader.Next();
    if status != Ok {
      return status, value;
    }
    return Ok, raw != 0;
  }

  method DecodeRequestBody(reader: ApduReader) returns (status: ApduStatus, output: InitiateRequest)
    requires reader.Valid()
    modifies reader`position
    ensures reader.Valid()
    ensures match ReadRequestBody(old(reader.Rest()))
            case Got(v, rest) => status == Ok && output == v && reader.Rest() == rest
            case No(e) => status == e
  {
    hide ReadOptionalString, ReadDefaultTrue, ReadOptionalInt8, ReadTerms;
    output := NoRequest();
    var key, allowed, qos, terms;
    status, key := DecodeOptionalString(reader);
    if status != Ok {
      return status, output;
    }
    status, allowed := DecodeDefaultTrue(reader);
    if status != Ok {
      return status, output;
    }
    status, qos := DecodeOptionalInt8(reader);
    if status != Ok {
      return status, output;
    }
    status, terms := DecodeTerms(reader);
    if status != Ok {
      return status, output;
    }
    return Ok, InitiateRequest(key, allowed, qos, terms.version, terms.conformance, terms.size);
  }

  method DecodeInitiateRequest(input: Octets) returns (status: ApduStatus, output: InitiateRequest)
    ensures match ReadRequest(input)
            case Got(v, _) => status == Ok && output == v
            case No(e) => status == e
  {
    hide ReadRequest;
    var reader := new ApduReader(input);
    status, output := DecodeRequestFrom(reader);
  }

  method DecodeRequestFrom(reader: ApduReader) returns (status: ApduStatus, output: InitiateRequest)
    requires reader.Valid()
    modifies reader`position
    ensures match ReadRequest(old(reader.Rest()))
            case Got(v, _) => status == Ok && output == v
            case No(e) => status == e
  {
    hide ReadRequestBody, NoRequest;
    output := NoRequest();
    var tag;
    status, tag := reader.Next();
    if status != Ok {
      return status, output;
    }
    if tag != 0x01 {
      return InvalidTag, output;
    }
    status, output := DecodeRequestBody(reader);
    if status != Ok {
      return status, output;
    }
    var left := reader.Remaining();
    if left != 0 {
      return InvalidLength, output;
    }
  }

  method DecodeResponseBody(reader: ApduReader) returns (status: ApduStatus, output: InitiateResponse)
    requires reader.Valid()
    modifies reader`position
    ensures reader.Valid()
    ensures match ReadResponseBody(old(reader.Rest()))
            case Got(v, rest) => status == Ok && output == v && reader.Rest() == rest
            case No(e) => status == e
  {
    hide ReadOptionalInt8, ReadTerms, I.ReadU16;
    output := NoResponse();
    var qos, terms, vaaName;
    status, qos := DecodeOptionalInt8(reader);
    if status != Ok {
      return status, output;
    }
    status, terms := DecodeTerms(reader);
    if status != Ok {
      return status, output;
    }
    status, vaaName := DecodeU16(reader);
    if status != Ok {
      return status, output;
    }
    return Ok, InitiateResponse(qos, terms.version, terms.conformance, terms.size, vaaName);
  }

  method DecodeInitiateResponse(input: Octets) returns (status: ApduStatus, output: InitiateResponse)
    ensures match ReadResponse(input)
            case Got(v, _) => status == Ok && output == v
            case No(e) => status == e
  {
    hide ReadResponse;
    var reader := new ApduReader(input);
    status, output := DecodeResponseFrom(reader);
  }

  method DecodeResponseFrom(reader: ApduReader) returns (status: ApduStatus, output: InitiateResponse)
    requires reader.Valid()
    modifies reader`position
    ensures match ReadResponse(old(reader.Rest()))
            case Got(v, _) => status == Ok && output == v
            case No(e) => status == e
  {
    hide ReadResponseBody, NoResponse;
    output := NoResponse();
    var tag;
    status, tag := reader.Next();
    if status != Ok {
      return status, output;
    }
    if tag != 0x08 {
      return InvalidTag, output;
    }
    status, output := DecodeResponseBody(reader);
    if status != Ok {
      return status, output;
    }
    var left := reader.Remaining();
    if left != 0 {
      return InvalidLength, output;
    }
  }

  /** Version, conformance and PDU size. */
  method EncodeTerms(writer: ApduWriter, version: byte, conformance: Conformance, size: uint16) returns (status: ApduStatus)
    requires writer.Valid()
    modifies writer`position, writer.data
    ensures writer.Took(Plain(TermsOctets(version, conformance, size)), status)
  {
    hide BigEndian;
    ghost var head := [version] + (CONFORMANCE_HEADER + conformance);
    status := writer.Put(version);
    if status != Ok {
      return status;
    }
    status := writer.PutBytes(CONFORMANCE_HEADER + conformance);
    if status != Ok {
      return status;
    }
    assert writer.Written() == old(writer.Written()) + head;
    status := WriteUnsigned(writer, size, 2);
    assert (old(writer.Written()) + head) + BigEndian(size, 2) ==
      old(writer.Written()) + TermsOctets(version, conformance, size);
  }

  method EncodeInitiateRequest(writer: ApduWriter, q: InitiateRequest) returns (status: ApduStatus)
    requires writer.Valid()
    modifies writer`position, writer.data
    ensures writer.Took(Plain(RequestOctets(q)), status)
  {
    hide OptionalStringOctets, TermsOctets, DefaultTrueOctets, OptionalInt8Octets, RequestOctets;
    ghost var start := writer.Written();
    ghost var k, t := OptionalStringOctets(q.dedicatedKey), TermsOctets(q.version, q.conformance, q.maxPduSize);
    ghost var flags := DefaultTrueOctets(q.responseAllowed) + OptionalInt8Octets(q.qualityOfService);
    assert RequestOctets(q) == ((([0x01] + k) + flags) + t) by { RequestParts(q); }
    status := writer.Put(0x01);
    if status != Ok {
      return status;
    }
    status := EncodeOptionalString(writer, q.dedicatedKey);
    if status != Ok {
      return status;
    }
    AppendAssociates(start, [0x01], k);
    assert writer.Written() == start + ([0x01] + k);
    status := writer.PutBytes(DefaultTrueOctets(q.responseAllowed) + OptionalInt8Octets(q.qualityOfService));
    if status != Ok {
      return status;
    }
    AppendAssociates(start, [0x01] + k, flags);
    assert writer.Written() == start + (([0x01] + k) + flags);
    status := EncodeTerms(writer, q.version, q.conformance, q.maxPduSize);
    AppendAssociates(start, ([0x01] + k) + flags, t);
  }

  lemma RequestParts(q: InitiateRequest)
    ensures RequestOctets(q) ==
      ([0x01] + OptionalStringOctets(q.dedicatedKey))
      + (DefaultTrueOctets(q.responseAllowed) + OptionalInt8Octets(q.qualityOfService))
      + TermsOctets(q.version, q.conformance, q.maxPduSize)
  {
    hide OptionalStringOctets, TermsOctets, DefaultTrueOctets, OptionalInt8Octets;
  }

  method EncodeOptionalString(writer: ApduWriter, x: Option<Octets>) returns (status: ApduStatus)
    requires writer.Valid()
    modifies writer`position, writer.data
    ensures writer.Took(Plain(OptionalStringOctets(x)), status)
  {
    hide StringOctets;
    status := writer.Put(BooleanOctet(x.Some?));
    if status != Ok || x.None? {
      return status;
    }
    status := WriteAxdrOctetString(writer, x.value);
    AppendAssociates(old(writer.Written()), [1], StringOctets(x.value));
  }

  method EncodeInitiateResponse(writer: ApduWriter, q: InitiateResponse) returns (status: ApduStatus)
    requires writer.Valid()
    modifies writer`position, writer.data
    ensures writer.Took(Plain(ResponseOctets(q)), status)
  {
    hide TermsOctets, BigEndian;
    ghost var start := writer.Written();
    ghost var h, t := [0x08] + OptionalInt8Octets(q.qualityOfService), TermsOctets(q.version, q.conformance, q.maxPduSize);
    ghost var v := BigEndian(q.vaaName, 2);
    assert ResponseOctets(q) == (h + t) + v;
    status := writer.PutBytes([0x08] + OptionalInt8Octets(q.qualityOfService));
    if status != Ok {
      return status;
    }
    status := EncodeTerms(writer, q.version, q.conformance, q.maxPduSize);
    if status != Ok {
      return status;
    }
    AppendAssociates(start, h, t);
    assert writer.Written() == start + (h + t);
    status := WriteUnsigned(writer, q.vaaName, 2);
    AppendAssociates(start, h + t, v);
  }

  // ---- AARQ and AARE ----

  method ReadSingleTlv(input: Octets, expectedTag: byte) returns (status: ApduStatus, value: Octets)
    ensures match ReadSingle(input, expectedTag)
            case Got(v, _) => status == Ok && value == v
            case No(e) => status == e
  {
    hide ReadTlv;
    var reader := new ApduReader(input);
    var tlv;
    status, tlv := ReadBerTlv(reader);
    if status != Ok {
      return status, [];
    }
    if tlv.tag != expectedTag {
      return InvalidTag, [];
    }
    var left := reader.Remaining();
    return if left == 0 then Ok else InvalidLength, tlv.value;
  }

  /** The user-information element: an octet string that holds an initiate message. */
  method TakeRequest(value: Octets) returns (status: ApduStatus, q: InitiateRequest)
    ensures match ReadSingle(value, OCTET_STRING_TAG)
            case No(e) => status == e
            case Got(x, _) =>
              match ReadRequest(x)
              case No(e) => status == e
              case Got(v, _) => status == Ok && q == v
  {
    hide ReadSingle, ReadRequest;
    var xdlms;
    status, xdlms := ReadSingleTlv(value, OCTET_STRING_TAG);
    if status != Ok {
      q := NoRequest();
      return status, q;
    }
    status, q := DecodeInitiateRequest(xdlms);
  }

  /** One element of an AARQ. */
  method TakeAarqElement(reader: ApduReader, a: Aarq, seen: bool) returns (status: ApduStatus, next: Aarq, seen': bool)
    requires reader.Valid() && reader.Rest() != []
    modifies reader`position
    ensures reader.Valid()
    ensures status == Ok ==> |reader.Rest()| < |old(reader.Rest())|
    ensures status == Ok ==> ReadAarqBody(old(reader.Rest()), a, seen) == ReadAarqBody(reader.Rest(), next, seen')
    ensures status != Ok ==> ReadAarqBody(old(reader.Rest()), a, seen) == No(status)
  {
    hide ReadTlv, ReadSingle, ReadRequest, ReadAarqBody;
    next, seen' := a, seen;
    ghost var s := reader.Rest();
    AarqElement(s, a, seen);
    var start := reader.position;
    var child;
    status, child := ReadBerTlv(reader);
    if status != Ok {
      return;
    }
    if child.tag != USER_INFORMATION_TAG {
      var encoded := reader.data[start..reader.position];
      assert encoded == Front(s, reader.Rest());
      next := next.(fields := next.fields + [Field(child.tag, encoded)]);
    } else {
      var q;
      status, q := TakeRequest(child.value);
      next := next.(initiate := q);
      seen' := true;
    }
  }

  method DecodeAarqApdu(input: Octets) returns (status: ApduStatus, output: Aarq)
    ensures match DecodeAarq(input)
            case Got(v, _) => status == Ok && output == v
            case No(e) => status == e
  {
    hide ReadSingle, ReadAarqBody, NoRequest, NoResponse;
    output := Aarq([], NoRequest());
    var value, seen := [], false;
    status, value := ReadSingleTlv(input, AARQ_TAG);
    if status != Ok {
      return status, output;
    }
    var reader := new ApduReader(value);
    var left := reader.Remaining();
    while left != 0
      invariant reader.Valid() && left == |reader.Rest()|
      invariant DecodeAarq(input) == ReadAarqBody(reader.Rest(), output, seen)
      decreases left
    {
      status, output, seen := TakeAarqElement(reader, output, seen);
      if status != Ok {
        return status, output;
      }
      left := reader.Remaining();
    }
    AarqDone(output, seen);
    return if seen then Ok else InvalidData, output;
  }

  lemma AarqDone(a: Aarq, seen: bool)
    ensures ReadAarqBody([], a, seen) == if seen then Got(a, []) else No(InvalidData)
  {
  }

  /** One element of the loop. */
  lemma AarqElement(s: Octets, a: Aarq, seen: bool)
    requires s != []
    ensures ReadTlv(s).No? ==> ReadAarqBody(s, a, seen) == No(ReadTlv(s).status)
    ensures ReadTlv(s).Got? ==>
      var t, rest := ReadTlv(s).value, ReadTlv(s).rest;
      && |rest| < |s|
      && (t.tag != USER_INFORMATION_TAG ==>
            ReadAarqBody(s, a, seen) ==
            ReadAarqBody(rest, a.(fields := a.fields + [Field(t.tag, Front(s, rest))]), seen))
      && (t.tag == USER_INFORMATION_TAG ==>
            var x := ReadSingle(t.value, OCTET_STRING_TAG);
            && (x.No? ==> ReadAarqBody(s, a, seen) == No(x.status))
            && (x.Got? && ReadRequest(x.value).No? ==> ReadAarqBody(s, a, seen) == No(ReadRequest(x.value).status))
            && (x.Got? && ReadRequest(x.value).Got? ==>
                  ReadAarqBody(s, a, seen) == ReadAarqBody(rest, a.(initiate := ReadRequest(x.value).value), true)))
  {
    hide ReadTlv, ReadSingle, ReadRequest;
    TlvConsumes(s);
  }

  method DecodeInteger(value: Octets) returns (status: ApduStatus, result: int)
    ensures match IntegerOf(value)
            case Got(v, _) => status == Ok && result == v
            case No(e) => status == e
  {
    if |value| == 0 || |value| > 4 {
      return InvalidLength, 0;
    }
    result := 0;
    for i := 0 to |value|
      invariant result == FromBig(value[..i])
    {
      assert value[..i + 1] == value[..i] + [value[i]];
      FromBigSnoc(value[..i], value[i]);
      result := 256 * result + value[i] as int;
    }
    assert value[..|value|] == value;
    if value[0] >= 0x80 {
      result := result - Pow256(|value|);
    }
    return Ok, result;
  }

  method DecodeNestedInteger(value: Octets, innerTag: byte) returns (status: ApduStatus, result: int)
    ensures match ReadNestedInteger(value, innerTag)
            case Got(v, _) => status == Ok && result == v
            case No(e) => status == e
  {
    hide ReadTlv, IntegerOf;
    result := 0;
    var outer := new ApduReader(value);
    var first;
    status, first := ReadBerTlv(outer);
    if status != Ok {
      return status, result;
    }
    var left := outer.Remaining();
    if left != 0 {
      return InvalidLength, result;
    }
    if first.tag == INTEGER_TAG {
      status, result := DecodeInteger(first.value);
      return status, result;
    }
    if first.tag != innerTag {
      return InvalidTag, result;
    }
    var inner := new ApduReader(first.value);
    var second;
    status, second := ReadBerTlv(inner);
    if status != Ok {
      return status, result;
    }
    left := inner.Remaining();
    if left != 0 {
      return InvalidLength, result;
    }
    if second.tag != INTEGER_TAG {
      return InvalidTag, result;
    }
    status, result := DecodeInteger(second.value);
  }

  /** Notes the association result or the diagnostic of an element. */
  method NoteElement(input: Aare, t: Tlv) returns (status: ApduStatus, output: Aare)
    ensures match NoteInteger(input, t)
            case Got(v, _) => status == Ok && output == v
            case No(e) => status == e
  {
    hide ReadNestedInteger;
    output := input;
    var n;
    if t.tag == RESULT_TAG {
      status, n := DecodeNestedInteger(t.value, INTEGER_TAG);
      output := input.(result := Some(n));
    } else if t.tag == DIAGNOSTIC_TAG {
      status, n := DecodeNestedInteger(t.value, SERVICE_USER_TAG);
      output := input.(diagnostic := Some(n));
    } else {
      status := Ok;
    }
  }

  /** The user-information element: an octet string that holds an initiate message. */
  method TakeResponse(value: Octets) returns (status: ApduStatus, q: InitiateResponse)
    ensures match ReadSingle(value, OCTET_STRING_TAG)
            case No(e) => status == e
            case Got(x, _) =>
              match ReadResponse(x)
              case No(e) => status == e
              case Got(v, _) => status == Ok && q == v
  {
    hide ReadSingle, ReadResponse;
    var xdlms;
    status, xdlms := ReadSingleTlv(value, OCTET_STRING_TAG);
    if status != Ok {
      q := NoResponse();
      return status, q;
    }
    status, q := DecodeInitiateResponse(xdlms);
  }

  /** One element of an AARE. */
  method TakeAareElement(reader: ApduReader, a: Aare, seen: bool) returns (status: ApduStatus, next: Aare, seen': bool)
    requires reader.Valid() && reader.Rest() != []
    modifies reader`position
    ensures reader.Valid()
    ensures status == Ok ==> |reader.Rest()| < |old(reader.Rest())|
    ensures status == Ok ==> ReadAareBody(old(reader.Rest()), a, seen) == ReadAareBody(reader.Rest(), next, seen')
    ensures status != Ok ==> ReadAareBody(old(reader.Rest()), a, seen) == No(status)
  {
    hide ReadTlv, ReadSingle, ReadResponse, ReadAareBody, NoteInteger;
    next, seen' := a, seen;
    ghost var s := reader.Rest();
    AareElement(s, a, seen);
    var start := reader.position;
    var child;
    status, child := ReadBerTlv(reader);
    if status != Ok {
      return;
    }
    status, next := NoteElement(a, child);
    if status != Ok {
      return;
    }
    if child.tag != USER_INFORMATION_TAG {
      var encoded := reader.data[start..reader.position];
      assert encoded == Front(s, reader.Rest());
      next := next.(fields := next.fields + [Field(child.tag, encoded)]);
    } else {
      var q;
      status, q := TakeResponse(child.value);
      next := next.(initiate := q);
      seen' := true;
    }
  }

  method DecodeAareApdu(input: Octets) returns (status: ApduStatus, output: Aare)
    ensures match DecodeAare(input)
            case Got(v, _) => status == Ok && output == v
            case No(e) => status == e
  {
    hide ReadSingle, ReadAareBody, NoRequest, NoResponse;
    output := Aare([], None, None, NoResponse());
    var value, seen := [], false;
    status, value := ReadSingleTlv(input, AARE_TAG);
    if status != Ok {
      return status, output;
    }
    var reader := new ApduReader(value);
    var left := reader.Remaining();
    while left != 0
      invariant reader.Valid() && left == |reader.Rest()|
      invariant DecodeAare(input) == ReadAareBody(reader.Rest(), output, seen)
      decreases left
    {
      status, output, seen := TakeAareElement(reader, output, seen);
      if status != Ok {
        return status, output;
      }
      left := reader.Remaining();
    }
    AareDone(output, seen);
    return if seen then Ok else InvalidData, output;
  }

  lemma AareDone(a: Aare, seen: bool)
    ensures ReadAareBody([], a, seen) == if seen then Got(a, []) else No(InvalidData)
  {
  }

  lemma AareElement(s: Octets, a: Aare, seen: bool)
    requires s != []
    ensures ReadTlv(s).No? ==> ReadAareBody(s, a, seen) == No(ReadTlv(s).status)
    ensures ReadTlv(s).Got? ==>
      var t, rest, noted := ReadTlv(s).value, ReadTlv(s).rest, NoteInteger(a, ReadTlv(s).value);
      && |rest| < |s|
      && (noted.No? ==> ReadAareBody(s, a, seen) == No(noted.status))
      && (noted.Got? && t.tag != USER_INFORMATION_TAG ==>
            ReadAareBody(s, a, seen) ==
            ReadAareBody(rest, noted.value.(fields := noted.value.fields + [Field(t.tag, Front(s, rest))]), seen))
      && (noted.Got? && t.tag == USER_INFORMATION_TAG ==>
            var x := ReadSingle(t.value, OCTET_STRING_TAG);
            && (x.No? ==> ReadAareBody(s, a, seen) == No(x.status))
            && (x.Got? && ReadResponse(x.value).No? ==> ReadAareBody(s, a, seen) == No(ReadResponse(x.value).status))
            && (x.Got? && ReadResponse(x.value).Got? ==>
                  ReadAareBody(s, a, seen) ==
                  ReadAareBody(rest, noted.value.(initiate := ReadResponse(x.value).value), true)))
  {
    hide ReadTlv, ReadSingle, ReadResponse, NoteInteger;
    TlvConsumes(s);
  }

  // ---- Encoding ----

  lemma {:induction false} EmitFieldsFrom(fields: seq<Field>, i: nat)
    requires i <= |fields| && forall k :: 0 <= k < i ==> fields[k].tag != USER_INFORMATION_TAG
    ensures EmitFields(fields) == Then(Plain(EmitFields(fields[..i]).octets), EmitFields(fields[i..]))
    ensures EmitFields(fields[..i]).fault == Ok
    decreases i
  {
    if i == 0 {
      assert fields[..0] == [] && fields[0..] == fields;
      ThenNothing(EmitFields(fields));
    } else {
      var tail := fields[1..];
      EmitFieldsFrom(tail, i - 1);
      assert fields[..i][1..] == tail[..i - 1];
      assert fields[i..] == tail[i - 1..];
      assert fields[..i][0] == fields[0];
      ThenAssociates(Plain(fields[0].encoded), Plain(EmitFields(tail[..i - 1]).octets), EmitFields(fields[i..]));
    }
  }

  /** What is known when the loop has come to field `i`. */
  lemma FieldsAt(fields: seq<Field>, i: nat, room: nat)
    requires i < |fields| && forall k :: 0 <= k < i ==> fields[k].tag != USER_INFORMATION_TAG
    requires |EmitFields(fields[..i]).octets| <= room
    ensures fields[i].tag == USER_INFORMATION_TAG ==> StatusIn(EmitFields(fields), room) == InvalidArgument
    ensures fields[i].tag != USER_INFORMATION_TAG ==>
      && EmitFields(fields[..i + 1]).octets == EmitFields(fields[..i]).octets + fields[i].encoded
      && (|EmitFields(fields[..i + 1]).octets| > room ==> StatusIn(EmitFields(fields), room) == OutputBufferTooSmall)
  {
    EmitFieldsFrom(fields, i);
    assert fields[i..][0] == fields[i];
    if fields[i].tag == USER_INFORMATION_TAG {
      assert EmitFields(fields[i..]) == Emission([], InvalidArgument);
    } else {
      EmitFieldsFrom(fields[..i + 1], i);
      assert fields[..i + 1][..i] == fields[..i];
      assert fields[..i + 1][i..] == [fields[i]];
      OneField(fields[i]);
      EmitFieldsFrom(fields, i + 1);
    }
  }

  lemma OneField(f: Field)
    requires f.tag != USER_INFORMATION_TAG
    ensures EmitFields([f]) == Plain(f.encoded)
  {
    assert [f][1..] == [];
    ThenNothing(Plain(f.encoded));
    assert EmitFields([]) == Plain([]);
  }

  method EncodeFields(writer: ApduWriter, fields: seq<Field>) returns (status: ApduStatus)
    requires writer.Valid()
    modifies writer`position, writer.data
    ensures writer.Took(EmitFields(fields), status)
  {
    ghost var room, start := writer.Room(), writer.Written();
    EmitFieldsFrom(fields, 0);
    assert fields[..0] == [];
    hide EmitFields;
    assert EmitFields([]) == Plain([]) by { EmitNoFields(); }
    for i := 0 to |fields|
      invariant writer.Valid() && old(writer.position) <= writer.position
      invariant writer.data[..old(writer.position)] == start
      invariant forall k :: 0 <= k < i ==> fields[k].tag != USER_INFORMATION_TAG
      invariant writer.Written() == start + EmitFields(fields[..i]).octets
    {
      FieldsAt(fields, i, room);
      if fields[i].tag == USER_INFORMATION_TAG {
        return InvalidArgument;
      }
      ghost var before := writer.Written();
      AppendAssociates(start, EmitFields(fields[..i]).octets, fields[i].encoded);
      status := writer.PutBytes(fields[i].encoded);
      assert writer.data[..old(writer.position)] == start by {
        assert start <= before;
        assert writer.data[..|before|][..|start|] == writer.data[..|start|];
      }
      if status != Ok {
        return status;
      }
    }
    EmitFieldsFrom(fields, |fields|);
    assert fields[..|fields|] == fields;
    return Ok;
  }

  /** The octet string goes through a buffer of 512 octets. */
  method WriteUserInformation(writer: ApduWriter, xdlms: Octets) returns (status: ApduStatus)
    requires writer.Valid()
    modifies writer`position, writer.data
    ensures writer.Took(
      if |TlvOctets(OCTET_STRING_TAG, xdlms)| > 512 then Emission([], OutputBufferTooSmall) else Plain(UserInformation(xdlms)),
      status)
  {
    hide TlvOctets;
    var octetString := new byte[512](_ => 0);
    var octetWriter := new ApduWriter(octetString);
    status := WriteBerTlv(octetWriter, OCTET_STRING_TAG, xdlms);
    if status != Ok {
      return status;
    }
    assert [] + TlvOctets(OCTET_STRING_TAG, xdlms) == TlvOctets(OCTET_STRING_TAG, xdlms);
    var value := octetString[..octetWriter.position];
    status := WriteBerTlv(writer, USER_INFORMATION_TAG, value);
  }

  /** Fields and user information go through a buffer of 1024 octets. */
  method EncodeAssociationApdu(writer: ApduWriter, tag: byte, fields: seq<Field>, xdlms: Octets) returns (status: ApduStatus)
    requires writer.Valid() && |xdlms| <= 256 && !LongTag(tag)
    modifies writer`position, writer.data
    ensures match EncodeAssociation(tag, fields, xdlms, old(writer.Room()))
            case Got(x, _) => writer.Took(Plain(x), status) && status == Ok
            case No(e) => status == e
  {
    hide TlvOctets, EmitFields, UserInformation;
    var value := new byte[1024](_ => 0);
    var valueWriter := new ApduWriter(value);
    ghost var u := if |TlvOctets(OCTET_STRING_TAG, xdlms)| > 512 then Emission([], OutputBufferTooSmall)
      else Plain(UserInformation(xdlms));
    ThenStatus(EmitFields(fields), u, 1024);
    status := EncodeFields(valueWriter, fields);
    if status != Ok {
      return status;
    }
    assert [] + EmitFields(fields).octets == EmitFields(fields).octets;
    status := WriteUserInformation(valueWriter, xdlms);
    if status != Ok {
      return status;
    }
    ghost var v := AssociationValue(fields, xdlms);
    assert valueWriter.Written() == v.octets;
    var octets := value[..valueWriter.position];
    status := WriteBerTlv(writer, tag, octets);
  }

  /** An AARQ; the initiate request goes through a buffer of 256 octets. */
  method EncodeAarqApdu(a: Aarq, room: nat) returns (status: ApduStatus, output: Octets)
    ensures match EncodeAarq(a, room)
            case Got(x, _) => status == Ok && output == x
            case No(e) => status == e
  {
    hide EncodeAssociation, RequestOctets;
    assert |RequestOctets(a.initiate)| > 256 ==> EncodeAarq(a, room) == No(OutputBufferTooSmall) by {
      TooLong(AARQ_TAG, a.fields, RequestOctets(a.initiate), room);
    }
    output := [];
    var xdlms := new byte[256](_ => 0);
    var xdlmsWriter := new ApduWriter(xdlms);
    status := EncodeInitiateRequest(xdlmsWriter, a.initiate);
    if status != Ok {
      return status, output;
    }
    assert [] + RequestOctets(a.initiate) == RequestOctets(a.initiate);
    var request := xdlms[..xdlmsWriter.position];
    var buffer := new byte[room](_ => 0);
    var writer := new ApduWriter(buffer);
    status := EncodeAssociationApdu(writer, AARQ_TAG, a.fields, request);
    if status != Ok {
      return status, output;
    }
    output := buffer[..writer.position];
    return Ok, output;
  }

  lemma TooLong(tag: byte, fields: seq<Field>, xdlms: Octets, room: nat)
    ensures |xdlms| > 256 ==> EncodeAssociation(tag, fields, xdlms, room) == No(OutputBufferTooSmall)
  {
  }

  method EncodeAareApdu(a: Aare, room: nat) returns (status: ApduStatus, output: Octets)
    ensures match EncodeAare(a, room)
            case Got(x, _) => status == Ok && output == x
            case No(e) => status == e
  {
    hide EncodeAssociation, ResponseOctets;
    assert |ResponseOctets(a.initiate)| > 256 ==> EncodeAare(a, room) == No(OutputBufferTooSmall) by {
      TooLong(AARE_TAG, a.fields, ResponseOctets(a.initiate), room);
    }
    output := [];
    var xdlms := new byte[256](_ => 0);
    var xdlmsWriter := new ApduWriter(xdlms);
    status := EncodeInitiateResponse(xdlmsWriter, a.initiate);
    if status != Ok {
      return status, output;
    }
    assert [] + ResponseOctets(a.initiate) == ResponseOctets(a.initiate);
    var response := xdlms[..xdlmsWriter.position];
    var buffer := new byte[room](_ => 0);
    var writer := new ApduWriter(buffer);
    status := EncodeAssociationApdu(writer, AARE_TAG, a.fields, response);
    if status != Ok {
      return status, output;
    }
    output := buffer[..writer.position];
    return Ok, output;
  }
}
