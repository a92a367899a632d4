/**
 The xDLMS initiate request and response that travel inside an association.
 */
module Initiate {
  import opened Bytes
  import opened Numbers
  import opened Apdu
  import opened Axdr

  type int8 = x: int | -128 <= x < 128

  datatype Option<+T> = None | Some(value: T)

  /** The three conformance octets. */
  type Conformance = s: Octets | |s| == 3 witness [0, 0, 0]

  datatype InitiateRequest = InitiateRequest(
    dedicatedKey: Option<Octets>,
    responseAllowed: bool,
    qualityOfService: Option<int8>,
    version: byte,
    conformance: Conformance,
    maxPduSize: uint16)

  datatype InitiateResponse = InitiateResponse(
    qualityOfService: Option<int8>,
    version: byte,
    conformance: Conformance,
    maxPduSize: uint16,
    vaaName: uint16)

  // ---- Parts ----

  function OptionalStringOctets(x: Option<Octets>): Octets {
    match x case None => [0] case Some(v) => [1] + StringOctets(v)
  }

  function ReadOptionalString(s: Octets): Read<Option<Octets>> {
    match ReadFlag(s)
    case No(e) => No(e)
    case Got(present, r) =>
      if !present then Got(None, r)
      else match ReadString(r) case No(e) => No(e) case Got(v, rest) => Got(Some(v), rest)
  }

  /** Absent means true. */
  function DefaultTrueOctets(b: bool): Octets {
    if b then [0] else [1, 0]
  }

  function ReadDefaultTrue(s: Octets): Read<bool> {
    match ReadFlag(s)
    case No(e) => No(e)
    case Got(present, r) =>
      if !present then Got(true, r)
      else match ReadU8(r) case No(e) => No(e) case Got(b, rest) => Got(b != 0, rest)
  }

  function SignedOctet(v: int8): byte {
    if v < 0 then v + 256 else v
  }

  function SignedOf(b: byte): int8 {
    if b < 128 then b else b - 256
  }

  function OptionalInt8Octets(x: Option<int8>): Octets {
    match x case None => [0] case Some(v) => [1, SignedOctet(v)]
  }

  function ReadOptionalInt8(s: Octets): Read<Option<int8>> {
    match ReadFlag(s)
    case No(e) => No(e)
    case Got(present, r) =>
      if !present then Got(None, r)
      else match ReadU8(r) case No(e) => No(e) case Got(b, rest) => Got(Some(SignedOf(b)), rest)
  }

  const CONFORMANCE_HEADER: Octets := [0x5f, 0x1f, 0x04, 0x00]

  function ReadConformance(s: Octets): Read<Conformance> {
    if |s| < 4 then No(NeedMoreData)
    else if s[..4] != CONFORMANCE_HEADER then No(InvalidConformance)
    else if |s| < 7 then No(NeedMoreData)
    else Got(s[4..7], s[7..])
  }

  function ReadU16(s: Octets): Read<uint16> {
    if |s| < 2 then No(NeedMoreData)
    else
      FromBigBound(s[..2]);
      assert Pow256(2) == 0x1_0000;
      Got(FromBig(s[..2]), s[2..])
  }

  lemma OptionalStringRoundTrip(x: Option<Octets>, tail: Octets)
    requires x.Some? ==> |x.value| < SIZE_RANGE
    ensures ReadOptionalString(OptionalStringOctets(x) + tail) == Got(x, tail)
  {
    hide ReadString, StringOctets;
    FlagRoundTrip(false, tail);
    if x.Some? {
      var v := StringOctets(x.value);
      assert ([1] + v) + tail == [1] + (v + tail);
      FlagRoundTrip(true, v + tail);
      StringRoundTrip(x.value, tail);
    }
  }

  lemma DefaultTrueRoundTrip(b: bool, tail: Octets)
    ensures ReadDefaultTrue(DefaultTrueOctets(b) + tail) == Got(b, tail)
  {
    FlagRoundTrip(false, tail);
    if !b {
      assert [1, 0] + tail == [1] + ([0] + tail);
      FlagRoundTrip(true, [0] + tail);
      ReadU8Front(0, tail);
    }
  }

  lemma OptionalInt8RoundTrip(x: Option<int8>, tail: Octets)
    ensures ReadOptionalInt8(OptionalInt8Octets(x) + tail) == Got(x, tail)
  {
    FlagRoundTrip(false, tail);
    if x.Some? {
      var b := SignedOctet(x.value);
      assert [1, b] + tail == [1] + ([b] + tail);
      FlagRoundTrip(true, [b] + tail);
      ReadU8Front(b, tail);
    }
  }

  lemma ConformanceRoundTrip(c: Conformance, tail: Octets)
    ensures ReadConformance((CONFORMANCE_HEADER + c) + tail) == Got(c, tail)
  {
    var x := (CONFORMANCE_HEADER + c) + tail;
    assert x[..4] == CONFORMANCE_HEADER && x[4..7] == c && x[7..] == tail;
  }

  lemma U16RoundTrip(n: uint16, tail: Octets)
    ensures ReadU16(BigEndian(n, 2) + tail) == Got(n, tail)
  {
    hide BigEndian, FromBig;
    var x := BigEndian(n, 2);
    assert (x + tail)[..2] == x && (x + tail)[2..] == tail;
    BigEndianRoundTrip(n, 2);
    assert Pow256(2) == 0x1_0000;
  }

  // ---- Requests ----

  /** Version, conformance and PDU size, which both messages share. */
  function TermsOctets(version: byte, conformance: Conformance, size: uint16): Octets {
    [version] + ((CONFORMANCE_HEADER + conformance) + BigEndian(size, 2))
  }

  datatype Terms = Terms(version: byte, conformance: Conformance, size: uint16)

  function ReadTerms(s: Octets): Read<Terms> {
    match ReadU8(s)
    case No(e) => No(e)
    case Got(version, r) =>
      match ReadConformance(r)
      case No(e) => No(e)
      case Got(c, r') =>
        match ReadU16(r')
        case No(e) => No(e)
        case Got(n, rest) => Got(Terms(version, c, n), rest)
  }

  lemma TermsRoundTrip(version: byte, c: Conformance, n: uint16, tail: Octets)
    ensures ReadTerms(TermsOctets(version, c, n) + tail) == Got(Terms(version, c, n), tail)
  {
    hide ReadConformance, ReadU16, BigEndian;
    var h, b := CONFORMANCE_HEADER + c, BigEndian(n, 2);
    assert TermsOctets(version, c, n) + tail == [version] + (h + (b + tail));
    ReadU8Front(version, h + (b + tail));
    ConformanceRoundTrip(c, b + tail);
    U16RoundTrip(n, tail);
  }

  function RequestOctets(q: InitiateRequest): Octets {
    [0x01] + (OptionalStringOctets(q.dedicatedKey) + (DefaultTrueOctets(q.responseAllowed)
    + (OptionalInt8Octets(q.qualityOfService) + TermsOctets(q.version, q.conformance, q.maxPduSize))))
  }

  function ReadRequestBody(s: Octets): Read<InitiateRequest> {
    match ReadOptionalString(s)
    case No(e) => No(e)
    case Got(key, s1) =>
      match ReadDefaultTrue(s1)
      case No(e) => No(e)
      case Got(allowed, s2) =>
        match ReadOptionalInt8(s2)
        case No(e) => No(e)
        case Got(qos, s3) =>
          match ReadTerms(s3)
          case No(e) => No(e)
          case Got(t, rest) => Got(InitiateRequest(key, allowed, qos, t.version, t.conformance, t.size), rest)
  }

  /** A value and nothing behind it. */
  function Whole<T>(r: Read<T>): Read<T> {
    if r.Got? && r.rest != [] then No(InvalidLength) else r
  }

  function ReadRequest(s: Octets): Read<InitiateRequest> {
    if s == [] then No(NeedMoreData) else if s[0] != 0x01 then No(InvalidTag) else Whole(ReadRequestBody(s[1..]))
  }

  predicate SizedRequest(q: InitiateRequest) {
    q.dedicatedKey.Some? ==> |q.dedicatedKey.value| < SIZE_RANGE
  }

  lemma RequestRoundTrip(q: InitiateRequest)
    requires SizedRequest(q)
    ensures ReadRequest(RequestOctets(q)) == Got(q, [])
  {
    hide ReadOptionalString, OptionalStringOctets, ReadDefaultTrue, DefaultTrueOctets, ReadOptionalInt8, OptionalInt8Octets,
      ReadTerms, TermsOctets;
    var a, b := OptionalStringOctets(q.dedicatedKey), DefaultTrueOctets(q.responseAllowed);
    var c := OptionalInt8Octets(q.qualityOfService);
    var d := TermsOctets(q.version, q.conformance, q.maxPduSize);
    assert RequestOctets(q)[1..] == a + (b + (c + d));
    OptionalStringRoundTrip(q.dedicatedKey, b + (c + d));
    DefaultTrueRoundTrip(q.responseAllowed, c + d);
    OptionalInt8RoundTrip(q.qualityOfService, d);
    TermsRoundTrip(q.version, q.conformance, q.maxPduSize, []);
    assert d + [] == d;
  }

  // ---- Responses ----

  function ResponseOctets(q: InitiateResponse): Octets {
    [0x08] + (OptionalInt8Octets(q.qualityOfService)
    + (TermsOctets(q.version, q.conformance, q.maxPduSize) + BigEndian(q.vaaName, 2)))
  }

  function ReadResponseBody(s: Octets): Read<InitiateResponse> {
    match ReadOptionalInt8(s)
    case No(e) => No(e)
    case Got(qos, s1) =>
      match ReadTerms(s1)
      case No(e) => No(e)
      case Got(t, s2) =>
        match ReadU16(s2)
        case No(e) => No(e)
        case Got(vaa, rest) => Got(InitiateResponse(qos, t.version, t.conformance, t.size, vaa), rest)
  }

  function ReadResponse(s: Octets): Read<InitiateResponse> {
    if s == [] then No(NeedMoreData) else if s[0] != 0x08 then No(InvalidTag) else Whole(ReadResponseBody(s[1..]))
  }

  lemma ResponseRoundTrip(q: InitiateResponse)
    ensures ReadResponse(ResponseOctets(q)) == Got(q, [])
  {
    hide ReadOptionalInt8, OptionalInt8Octets, ReadTerms, TermsOctets, ReadU16, BigEndian;
    var c, d := OptionalInt8Octets(q.qualityOfService), TermsOctets(q.version, q.conformance, q.maxPduSize);
    var v := BigEndian(q.vaaName, 2);
    assert ResponseOctets(q)[1..] == c + (d + v);
    OptionalInt8RoundTrip(q.qualityOfService, d + v);
    TermsRoundTrip(q.version, q.conformance, q.maxPduSize, v);
    U16RoundTrip(q.vaaName, []);
    assert v + [] == v;
  }
}
