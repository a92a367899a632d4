/**
 The octets of the AARQ and of the AARE, written out for every client and every server.
 */
module AssociationWire {
  import opened Bytes
  import opened Numbers
  import opened Axdr
  import opened Ber
  import opened Initiate
  import opened Acse
  import opened Association
  import P = Apdu

  /** An octet string in an element, both with one octet of length. */
  function Wrapped(tag: byte, inner: byte, value: Octets): Octets
    requires |value| <= 125
  {
    [tag, |value| + 2, inner, |value|] + value
  }

  /** Version, conformance block and PDU size. */
  function TermsLine(version: byte, conformance: Conformance, maxPduSize: uint16): Octets {
    [version, 0x5f, 0x1f, 0x04, 0x00] + conformance + Octets2(maxPduSize)
  }

  /** The optional parts of an initiate message: a flag, and the value behind it; a flag alone allows the response. */
  function KeyLine(key: Option<Octets>): Octets {
    match key case None => [0x00] case Some(k) => [0x01] + (LengthOctets(|k|) + k)
  }

  function QualityLine(quality: Option<int8>): Octets {
    match quality case None => [0x00] case Some(q) => [0x01, q % 256]
  }

  function InitiateRequestLine(q: InitiateRequest): Octets {
    [0x01] + KeyLine(q.dedicatedKey) + (if q.responseAllowed then [0x00] else [0x01, 0x00])
    + QualityLine(q.qualityOfService) + TermsLine(q.version, q.conformance, q.maxPduSize)
  }

  function InitiateResponseLine(q: InitiateResponse): Octets {
    [0x08] + QualityLine(q.qualityOfService) + TermsLine(q.version, q.conformance, q.maxPduSize) + Octets2(q.vaaName)
  }

  /** The octets of every initiate request and response. */
  lemma InitiateOnTheLine(q: InitiateRequest, r: InitiateResponse)
    ensures RequestOctets(q) == InitiateRequestLine(q) && ResponseOctets(r) == InitiateResponseLine(r)
  {
    hide TermsOctets, TermsLine, BigEndian, LengthOctets, Octets2;
    TermsAre(q.version, q.conformance, q.maxPduSize);
    TermsAre(r.version, r.conformance, r.maxPduSize);
    BigEndianWritten(r.vaaName);
    var a, b := KeyLine(q.dedicatedKey), if q.responseAllowed then [0x00] else [0x01, 0x00];
    var c, d := QualityLine(q.qualityOfService), TermsLine(q.version, q.conformance, q.maxPduSize);
    assert [0x01] + (a + (b + (c + d))) == [0x01] + a + b + c + d;
  }

  /** What a client proposes: no dedicated key, and the server may answer. */
  function RequestLine(o: ClientOptions): Octets {
    [0x01, 0x00, 0x00] + QualityLine(o.qualityOfService) + TermsLine(o.version, o.conformance, o.maxPduSize)
  }

  function ResponseLine(o: ServerOptions): Octets {
    [0x08, 0x00] + TermsLine(o.version, o.conformance, o.maxPduSize) + Octets2(o.vaaName)
  }

  /** With low-level security: the requirement, the mechanism and the credential; then the title, if there is one. */
  function ClientLine(o: ClientOptions): Octets
    requires GoodClient(o)
  {
    (if o.mode == LowLevelSecurity then
       [0x8a, 0x02, 0x07, 0x80] + [0x8b, 0x07, 0x60, 0x85, 0x74, 0x05, 0x08, 0x02, 0x01] + Wrapped(0xac, 0x80, o.credential)
     else [])
    + (if o.callingTitle == [] then [] else Wrapped(0xa6, 0x04, o.callingTitle))
  }

  /** Accepted, authentication diagnostic 14, and the title, if there is one. */
  function ServerLine(o: ServerOptions): Octets
    requires |o.respondingTitle| <= 125
  {
    [0xa2, 0x03, 0x02, 0x01, 0x00] + [0xa3, 0x05, 0xa1, 0x03, 0x02, 0x01, 0x0e]
    + (if o.respondingTitle == [] then [] else Wrapped(0xa4, 0x04, o.respondingTitle))
  }

  /** An association message: the fields, and an initiate message as the user information. */
  function MessageLine(tag: byte, fields: Octets, xdlms: Octets): Octets
    requires |xdlms| <= 125
  {
    var value := fields + Wrapped(0xbe, 0x04, xdlms);
    [tag] + (LengthOctets(|value|) + value)
  }

  lemma TermsAre(version: byte, conformance: Conformance, maxPduSize: uint16)
    ensures TermsOctets(version, conformance, maxPduSize) == TermsLine(version, conformance, maxPduSize)
  {
    hide BigEndian;
    BigEndianWritten(maxPduSize);
  }

  lemma RequestIs(o: ClientOptions)
    ensures RequestOctets(RequestOf(o)) == RequestLine(o) && |RequestLine(o)| <= 125
  {
    hide TermsOctets;
    TermsAre(o.version, o.conformance, o.maxPduSize);
  }

  lemma ResponseIs(o: ServerOptions)
    ensures ResponseOctets(ResponseOf(o)) == ResponseLine(o) && |ResponseLine(o)| <= 125
  {
    hide TermsOctets, BigEndian;
    TermsAre(o.version, o.conformance, o.maxPduSize);
    BigEndianWritten(o.vaaName);
  }

  lemma ValueIs(tag: byte, inner: byte, value: Octets)
    requires |value| <= 125
    ensures ValueOctets(tag, inner, value) == Wrapped(tag, inner, value)
  {
  }

  lemma {:induction false} FieldsAppend(a: seq<Field>, b: seq<Field>)
    requires EmitFields(a).fault == P.Ok && EmitFields(b).fault == P.Ok
    ensures EmitFields(a + b) == P.Plain(EmitFields(a).octets + EmitFields(b).octets)
  {
    if a == [] {
      assert a + b == b;
      assert [] + EmitFields(b).octets == EmitFields(b).octets;
    } else {
      assert (a + b)[1..] == a[1..] + b;
      FieldsAppend(a[1..], b);
    }
  }

  lemma OneField(encoded: Octets)
    requires encoded != [] && encoded[0] != 0xbe
    ensures EmitFields([RawField(encoded)]) == P.Plain(encoded)
  {
    var f := [RawField(encoded)];
    assert f[1..] == [] && EmitFields([]) == P.Plain([]);
    assert encoded + [] == encoded;
  }

  lemma NoField()
    ensures EmitFields([]) == P.Plain([])
  {
  }

  lemma ClientFieldsAre(o: ClientOptions)
    requires GoodClient(o)
    ensures EmitFields(ClientFields(o)) == P.Plain(ClientLine(o))
  {
    hide EmitFields, ValueOctets, Wrapped, RequirementsOctets, MechanismOctets;
    var title := if o.callingTitle == [] then [] else [RawField(ValueOctets(0xa6, 0x04, o.callingTitle))];
    var r, m := RequirementsOctets(), MechanismOctets();
    NoField();
    ValueIs(0xa6, 0x04, o.callingTitle);
    OneField(ValueOctets(0xa6, 0x04, o.callingTitle));
    if o.mode == LowLevelSecurity {
      var v := ValueOctets(0xac, 0x80, o.credential);
      ValueIs(0xac, 0x80, o.credential);
      FixedLines();
      OneField(r);
      OneField(m);
      OneField(v);
      FieldsAppend([RawField(r)], [RawField(m)]);
      FieldsAppend([RawField(r)] + [RawField(m)], [RawField(v)]);
      assert [RawField(r)] + [RawField(m)] + [RawField(v)] == [RawField(r), RawField(m), RawField(v)];
      FieldsAppend([RawField(r), RawField(m), RawField(v)], title);
    } else {
      FieldsAppend([], title);
    }
  }

  lemma FixedLines()
    ensures RequirementsOctets() == [0x8a, 0x02, 0x07, 0x80]
    ensures MechanismOctets() == [0x8b, 0x07, 0x60, 0x85, 0x74, 0x05, 0x08, 0x02, 0x01]
  {
  }

  lemma ServerFieldsAre(o: ServerOptions)
    requires |o.respondingTitle| <= 125
    ensures EmitFields(ServerFields(o)) == P.Plain(ServerLine(o))
  {
    hide EmitFields, ValueOctets, Wrapped;
    var title := if o.respondingTitle == [] then [] else [RawField(ValueOctets(0xa4, 0x04, o.respondingTitle))];
    var r, d: Octets := [0xa2, 0x03, 0x02, 0x01, 0x00], [0xa3, 0x05, 0xa1, 0x03, 0x02, 0x01, 0x0e];
    NoField();
    ValueIs(0xa4, 0x04, o.respondingTitle);
    OneField(ValueOctets(0xa4, 0x04, o.respondingTitle));
    OneField(r);
    OneField(d);
    FieldsAppend([RawField(r)], [RawField(d)]);
    assert [RawField(r)] + [RawField(d)] == [RawField(r), RawField(d)];
    FieldsAppend([RawField(r), RawField(d)], title);
  }

  /** An encoded message with short user information. */
  lemma MessageIs(tag: byte, fields: seq<Field>, line: Octets, xdlms: Octets)
    requires EmitFields(fields) == P.Plain(line) && |xdlms| <= 125
    requires EncodeAssociation(tag, fields, xdlms, 2048).Got?
    ensures EncodeAssociation(tag, fields, xdlms, 2048) == P.Got(MessageLine(tag, line, xdlms), [])
  {
    hide EmitFields;
    assert LengthOctets(|xdlms|) == [|xdlms|] && LengthOctets(|xdlms| + 2) == [|xdlms| + 2];
    assert TlvOctets(0x04, xdlms) == [0x04, |xdlms|] + xdlms;
    assert UserInformation(xdlms) == Wrapped(0xbe, 0x04, xdlms);
  }

  /** The request of every client that can be understood. */
  lemma AarqOnTheLine(o: ClientOptions)
    requires GoodClient(o)
    ensures |RequestLine(o)| <= 125
    ensures BuildAarq(o) == P.Got(MessageLine(0x60, ClientLine(o), RequestLine(o)), [])
  {
    hide EncodeAssociation, EmitFields, RequestOctets, RequestLine, ClientLine, ClientFields, DecodeAarq, MessageLine;
    RequestArrives(o);
    RequestIs(o);
    ClientFieldsAre(o);
    MessageIs(0x60, ClientFields(o), ClientLine(o), RequestLine(o));
  }

  /** The accepting reply of every valid server. */
  lemma AareOnTheLine(o: ServerOptions)
    requires ValidateServer(o) == Ok
    ensures |o.respondingTitle| <= 125 && |ResponseLine(o)| <= 125
    ensures BuildAare(o) == P.Got(MessageLine(0x61, ServerLine(o), ResponseLine(o)), [])
  {
    hide EncodeAssociation, EmitFields, ResponseOctets, ResponseLine, ServerLine, ServerFields, MessageLine, DecodeReply;
    ReplyArrives(o);
    ResponseIs(o);
    ServerFieldsAre(o);
    MessageIs(0x61, ServerFields(o), ServerLine(o), ResponseLine(o));
  }
}
