/**
 AARQ and AARE: raw fields and one user-information field around an initiate message.
 */
module Acse {
  import opened Bytes
  import Numbers
  import opened Apdu
  import opened Axdr
  import opened Ber
  import opened Initiate

  const AARQ_TAG: byte := 0x60
  const AARE_TAG: byte := 0x61
  const USER_INFORMATION_TAG: byte := 0xbe
  const OCTET_STRING_TAG: byte := 0x04
  const RESULT_TAG: byte := 0xa2
  const DIAGNOSTIC_TAG: byte := 0xa3
  const SERVICE_USER_TAG: byte := 0xa1
  const INTEGER_TAG: byte := 0x02

  /** A field with its complete encoding. */
  datatype Field = Field(tag: byte, encoded: Octets)

  datatype Aarq = Aarq(fields: seq<Field>, initiate: InitiateRequest)

  datatype Aare = Aare(
    fields: seq<Field>, result: Option<int>, diagnostic: Option<int>, initiate: InitiateResponse)

  // ---- Encoding ----

  /** Fields are copied as they are; user information is none of them. */
  function EmitFields(fields: seq<Field>): Emission {
    if fields == [] then Plain([])
    else if fields[0].tag == USER_INFORMATION_TAG then Emission([], InvalidArgument)
    else Then(Plain(fields[0].encoded), EmitFields(fields[1..]))
  }

  function UserInformation(xdlms: Octets): Octets {
    TlvOctets(USER_INFORMATION_TAG, TlvOctets(OCTET_STRING_TAG, xdlms))
  }

  /** What goes between the outer tag and length: at most 1024 octets, of which 512 for the octet string. */
  function AssociationValue(fields: seq<Field>, xdlms: Octets): Emission {
    Then(EmitFields(fields),
      if |TlvOctets(OCTET_STRING_TAG, xdlms)| > 512 then Emission([], OutputBufferTooSmall) else Plain(UserInformation(xdlms)))
  }

  /** The status and the octets of an association message in a buffer of a given size. */
  function EncodeAssociation(tag: byte, fields: seq<Field>, xdlms: Octets, room: nat): Read<Octets> {
    var v := AssociationValue(fields, xdlms);
    if |xdlms| > 256 then No(OutputBufferTooSmall)
    else if StatusIn(v, 1024) != Ok then No(StatusIn(v, 1024))
    else if |TlvOctets(tag, v.octets)| > room then No(OutputBufferTooSmall)
    else Got(TlvOctets(tag, v.octets), [])
  }

  function EncodeAarq(a: Aarq, room: nat): Read<Octets> {
    EncodeAssociation(AARQ_TAG, a.fields, RequestOctets(a.initiate), room)
  }

  function EncodeAare(a: Aare, room: nat): Read<Octets> {
    EncodeAssociation(AARE_TAG, a.fields, ResponseOctets(a.initiate), room)
  }

  // ---- Decoding ----

  /** One element with the expected tag and nothing behind it. */
  function ReadSingle(s: Octets, tag: byte): Read<Octets> {
    match ReadTlv(s)
    case No(e) => No(e)
    case Got(t, rest) =>
      if t.tag != tag then No(InvalidTag) else if rest != [] then No(InvalidLength) else Got(t.value, [])
  }

  function ReadUserInformation(value: Octets): Read<Octets> {
    ReadSingle(value, OCTET_STRING_TAG)
  }

  /** The encoding of the element at the front of `s` when `rest` is what follows it. */
  function Front(s: Octets, rest: Octets): Octets
    requires |rest| <= |s|
  {
    s[..|s| - |rest|]
  }

  /** The loop over the elements of an AARQ; the last user information counts. */
  function ReadAarqBody(s: Octets, a: Aarq, seen: bool): Read<Aarq>
    decreases |s|
  {
    if s == [] then (if seen then Got(a, []) else No(InvalidData))
    else
      TlvConsumes(s);
      match ReadTlv(s)
      case No(e) => No(e)
      case Got(t, rest) =>
        if t.tag != USER_INFORMATION_TAG then
          ReadAarqBody(rest, a.(fields := a.fields + [Field(t.tag, Front(s, rest))]), seen)
        else
          match ReadUserInformation(t.value)
          case No(e) => No(e)
          case Got(x, _) =>
            match ReadRequest(x)
            case No(e) => No(e)
            case Got(q, _) => ReadAarqBody(rest, a.(initiate := q), true)
  }

  /** What the records hold before anything is decoded. */
  function NoRequest(): InitiateRequest {
    InitiateRequest(None, false, None, 0, [0, 0, 0], 0)
  }

  function NoResponse(): InitiateResponse {
    InitiateResponse(None, 0, [0, 0, 0], 0, 0)
  }

  function DecodeAarq(s: Octets): Read<Aarq> {
    match ReadSingle(s, AARQ_TAG)
    case No(e) => No(e)
    case Got(value, _) => ReadAarqBody(value, Aarq([], NoRequest()), false)
  }

  /** An integer of one to four octets, two's complement. */
  function IntegerOf(value: Octets): Read<int> {
    if |value| == 0 || |value| > 4 then No(InvalidLength)
    else
      var n := Numbers.FromBig(value);
      Got(if value[0] >= 0x80 then n - Numbers.Pow256(|value|) else n, [])
  }

  function ReadNestedInteger(value: Octets, innerTag: byte): Read<int> {
    match ReadTlv(value)
    case No(e) => No(e)
    case Got(t, rest) =>
      if rest != [] then No(InvalidLength)
      else if t.tag == INTEGER_TAG then IntegerOf(t.value)
      else if t.tag != innerTag then No(InvalidTag)
      else
        match ReadTlv(t.value)
        case No(e) => No(e)
        case Got(u, rest') =>
          if rest' != [] then No(InvalidLength) else if u.tag != INTEGER_TAG then No(InvalidTag) else IntegerOf(u.value)
  }

  /** Result and diagnostic are noted besides being kept as fields. */
  function NoteInteger(a: Aare, t: Tlv): Read<Aare> {
    if t.tag == RESULT_TAG then
      match ReadNestedInteger(t.value, INTEGER_TAG) case No(e) => No(e) case Got(n, _) => Got(a.(result := Some(n)), [])
    else if t.tag == DIAGNOSTIC_TAG then
      match ReadNestedInteger(t.value, SERVICE_USER_TAG) case No(e) => No(e) case Got(n, _) => Got(a.(diagnostic := Some(n)), [])
    else Got(a, [])
  }

  function ReadAareBody(s: Octets, a: Aare, seen: bool): Read<Aare>
    decreases |s|
  {
    if s == [] then (if seen then Got(a, []) else No(InvalidData))
    else
      TlvConsumes(s);
      match ReadTlv(s)
      case No(e) => No(e)
      case Got(t, rest) =>
        match NoteInteger(a, t)
        case No(e) => No(e)
        case Got(a', _) =>
          if t.tag != USER_INFORMATION_TAG then
            ReadAareBody(rest, a'.(fields := a'.fields + [Field(t.tag, Front(s, rest))]), seen)
          else
            match ReadUserInformation(t.value)
            case No(e) => No(e)
            case Got(x, _) =>
              match ReadResponse(x)
              case No(e) => No(e)
              case Got(q, _) => ReadAareBody(rest, a'.(initiate := q), true)
  }

  function DecodeAare(s: Octets): Read<Aare> {
    match ReadSingle(s, AARE_TAG)
    case No(e) => No(e)
    case Got(value, _) => ReadAareBody(value, Aare([], None, None, NoResponse()), false)
  }

  // ---- Round trip ----

  /** A field that is one complete element with its own tag, and not user information. */
  predicate CompleteField(f: Field) {
    && f.tag != USER_INFORMATION_TAG
    && ReadTlv(f.encoded).Got? && ReadTlv(f.encoded).value.tag == f.tag && ReadTlv(f.encoded).rest == []
  }

  predicate CompleteFields(fields: seq<Field>) {
    forall i :: 0 <= i < |fields| ==> CompleteField(fields[i])
  }

  lemma SingleRoundTrip(tag: byte, value: Octets)
    requires !LongTag(tag) && |value| < SIZE_RANGE
    ensures ReadSingle(TlvOctets(tag, value), tag) == Got(value, [])
  {
    hide ReadTlv, TlvOctets;
    TlvRoundTrip(tag, value, []);
    assert TlvOctets(tag, value) + [] == TlvOctets(tag, value);
  }

  lemma UserInformationFront(xdlms: Octets, tail: Octets)
    requires |xdlms| <= 256
    ensures var inner := TlvOctets(OCTET_STRING_TAG, xdlms);
      && ReadTlv(UserInformation(xdlms) + tail) == Got(Tlv(USER_INFORMATION_TAG, inner), tail)
      && ReadUserInformation(inner) == Got(xdlms, [])
      && |inner| <= 512
  {
    hide ReadTlv;
    assert |TlvOctets(OCTET_STRING_TAG, xdlms)| <= 512 by { SmallTlv(OCTET_STRING_TAG, xdlms); }
    hide TlvOctets;
    TlvRoundTrip(USER_INFORMATION_TAG, TlvOctets(OCTET_STRING_TAG, xdlms), tail);
    SingleRoundTrip(OCTET_STRING_TAG, xdlms);
  }

  lemma SmallTlv(tag: byte, value: Octets)
    requires |value| < SIZE_RANGE
    ensures |TlvOctets(tag, value)| <= |value| + 10
  {
    SizeDigits(|value|);
  }

  lemma FieldFront(f: Field, tail: Octets)
    requires CompleteField(f)
    ensures f.encoded + tail != []
    ensures var r := ReadTlv(f.encoded + tail);
      r.Got? && r.value == ReadTlv(f.encoded).value && r.rest == tail && Front(f.encoded + tail, tail) == f.encoded
  {
    hide ReadTlv;
    TlvStays(f.encoded, tail);
    assert [] + tail == tail;
    TlvConsumes(f.encoded);
  }

  /** The decoder keeps a complete field and goes on behind it. */
  lemma AarqField(f: Field, tail: Octets, a: Aarq, seen: bool)
    requires CompleteField(f)
    ensures ReadAarqBody(f.encoded + tail, a, seen) == ReadAarqBody(tail, a.(fields := a.fields + [f]), seen)
  {
    hide ReadTlv, ReadUserInformation, ReadRequest;
    FieldFront(f, tail);
  }

  lemma AareField(f: Field, tail: Octets, a: Aare, seen: bool)
    requires CompleteField(f) && NoteInteger(a, ReadTlv(f.encoded).value).Got?
    ensures var a' := NoteInteger(a, ReadTlv(f.encoded).value).value;
      ReadAareBody(f.encoded + tail, a, seen) == ReadAareBody(tail, a'.(fields := a'.fields + [f]), seen)
  {
    hide ReadTlv, ReadUserInformation, ReadResponse, NoteInteger;
    FieldFront(f, tail);
  }

  lemma FieldsSplit(fields: seq<Field>, u: Octets)
    requires fields != [] && CompleteFields(fields) && EmitFields(fields[1..]).fault == Ok
    ensures CompleteField(fields[0])
    ensures EmitFields(fields).fault == Ok
    ensures EmitFields(fields).octets + u == fields[0].encoded + (EmitFields(fields[1..]).octets + u)
  {
    hide ReadTlv;
  }

  lemma {:induction false} AarqBodyRoundTrip(done: seq<Field>, fields: seq<Field>, q: InitiateRequest)
    requires CompleteFields(fields) && SizedRequest(q) && |RequestOctets(q)| <= 256
    ensures EmitFields(fields).fault == Ok
    ensures ReadAarqBody(EmitFields(fields).octets + UserInformation(RequestOctets(q)), Aarq(done, NoRequest()), false) ==
      Got(Aarq(done + fields, q), [])
    decreases |fields|
  {
    hide RequestOctets, UserInformation, ReadAarqBody, EmitFields, CompleteField;
    var u := UserInformation(RequestOctets(q));
    if fields == [] {
      AarqEnd(done, q);
      assert EmitFields(fields) == Plain([]) by { EmitNoFields(); }
      assert [] + u == u;
      assert done + fields == done;
    } else {
      var f := fields[0];
      AarqBodyRoundTrip(done + [f], fields[1..], q);
      FieldsSplit(fields, u);
      AarqField(f, EmitFields(fields[1..]).octets + u, Aarq(done, NoRequest()), false);
      assert done + fields == (done + [f]) + fields[1..];
    }
  }

  lemma EmitNoFields()
    ensures EmitFields([]) == Plain([])
  {
  }

  lemma AarqEnd(done: seq<Field>, q: InitiateRequest)
    requires SizedRequest(q) && |RequestOctets(q)| <= 256
    ensures ReadAarqBody(UserInformation(RequestOctets(q)), Aarq(done, NoRequest()), false) == Got(Aarq(done, q), [])
  {
    var xdlms := RequestOctets(q);
    RequestRoundTrip(q);
    UserInformationFront(xdlms, []);
    hide ReadTlv, RequestOctets, ReadUserInformation, ReadRequest;
    assert UserInformation(xdlms) + [] == UserInformation(xdlms);
    assert UserInformation(xdlms) != [];
    hide UserInformation;
    assert ReadAarqBody([], Aarq(done, q), true) == Got(Aarq(done, q), []);
  }

  /**
   For any list of complete fields other than user information, an AARQ that encodes
   decodes to the same fields in the same order and the same initiate request.
   */
  lemma AarqRoundTrip(a: Aarq, room: nat)
    requires CompleteFields(a.fields) && SizedRequest(a.initiate) && EncodeAarq(a, room).Got?
    ensures DecodeAarq(EncodeAarq(a, room).value) == Got(a, [])
  {
    hide ReadAarqBody, UserInformation, RequestOctets, TlvOctets, EmitFields, ReadSingle;
    var v := AssociationValue(a.fields, RequestOctets(a.initiate));
    AarqBodyRoundTrip([], a.fields, a.initiate);
    SingleRoundTrip(AARQ_TAG, v.octets);
    assert [] + a.fields == a.fields;
  }

  /** Every field the decoder returns is complete. */
  lemma {:induction false} DecodedFieldsComplete(s: Octets, a: Aarq, seen: bool)
    requires CompleteFields(a.fields) && ReadAarqBody(s, a, seen).Got?
    ensures CompleteFields(ReadAarqBody(s, a, seen).value.fields)
    decreases |s|
  {
    hide ReadTlv, ReadUserInformation, ReadRequest;
    if s != [] {
      TlvConsumes(s);
      TlvFront(s);
      var t, rest := ReadTlv(s).value, ReadTlv(s).rest;
      if t.tag != USER_INFORMATION_TAG {
        DecodedFieldsComplete(rest, a.(fields := a.fields + [Field(t.tag, Front(s, rest))]), seen);
      } else {
        DecodedFieldsComplete(rest, a.(initiate := ReadRequest(ReadUserInformation(t.value).value).value), true);
      }
    }
  }

  /** The round trip succeeds exactly for messages whose fields are complete. */
  lemma AarqRoundTripExact(a: Aarq, room: nat)
    requires SizedRequest(a.initiate) && EncodeAarq(a, room).Got?
    ensures DecodeAarq(EncodeAarq(a, room).value) == Got(a, []) <==> CompleteFields(a.fields)
  {
    hide ReadAarqBody, UserInformation, RequestOctets, TlvOctets, EmitFields, CompleteField;
    if CompleteFields(a.fields) {
      AarqRoundTrip(a, room);
    } else if DecodeAarq(EncodeAarq(a, room).value) == Got(a, []) {
      DecodedFieldsComplete(ReadSingle(EncodeAarq(a, room).value, AARQ_TAG).value, Aarq([], NoRequest()), false);
    }
  }

  /** The fields of an AARE that carry integers can be read. */
  function Noted(fields: seq<Field>, a: Aare): Read<Aare> {
    if fields == [] then Got(a, [])
    else if ReadTlv(fields[0].encoded).No? then No(ReadTlv(fields[0].encoded).status)
    else
      match NoteInteger(a, ReadTlv(fields[0].encoded).value)
      case No(e) => No(e)
      case Got(a', _) => Noted(fields[1..], a'.(fields := a'.fields + [fields[0]]))
  }

  lemma NotedFirst(fields: seq<Field>, a: Aare)
    requires fields != [] && CompleteField(fields[0]) && Noted(fields, a).Got?
    ensures NoteInteger(a, ReadTlv(fields[0].encoded).value).Got?
    ensures var a' := NoteInteger(a, ReadTlv(fields[0].encoded).value).value;
      Noted(fields, a) == Noted(fields[1..], a'.(fields := a'.fields + [fields[0]]))
  {
    hide ReadTlv, NoteInteger;
  }

  lemma {:induction false} AareBodyRoundTrip(a: Aare, fields: seq<Field>, q: InitiateResponse)
    requires CompleteFields(fields) && |ResponseOctets(q)| <= 256
    requires Noted(fields, a).Got?
    ensures EmitFields(fields).fault == Ok
    ensures ReadAareBody(EmitFields(fields).octets + UserInformation(ResponseOctets(q)), a, false) ==
      Got(Noted(fields, a).value.(initiate := q), [])
    decreases |fields|
  {
    var u := UserInformation(ResponseOctets(q));
    if fields == [] {
      AareEnd(a, q);
      assert EmitFields(fields).octets + u == u;
    } else {
      hide ReadTlv, ResponseOctets, UserInformation, NoteInteger, ReadAareBody, EmitFields, Noted;
      var f := fields[0];
      assert CompleteField(f);
      NotedFirst(fields, a);
      var a' := NoteInteger(a, ReadTlv(f.encoded).value).value;
      AareBodyRoundTrip(a'.(fields := a'.fields + [f]), fields[1..], q);
      FieldsSplit(fields, u);
      AareField(f, EmitFields(fields[1..]).octets + u, a, false);
    }
  }

  lemma AareEnd(a: Aare, q: InitiateResponse)
    requires |ResponseOctets(q)| <= 256
    ensures ReadAareBody(UserInformation(ResponseOctets(q)), a, false) == Got(a.(initiate := q), [])
  {
    var xdlms := ResponseOctets(q);
    ResponseRoundTrip(q);
    UserInformationFront(xdlms, []);
    hide ReadTlv, ResponseOctets, ReadUserInformation, ReadResponse;
    assert UserInformation(xdlms) + [] == UserInformation(xdlms);
    assert UserInformation(xdlms) != [];
    hide UserInformation;
    assert NoteInteger(a, Tlv(USER_INFORMATION_TAG, TlvOctets(OCTET_STRING_TAG, xdlms))) == Got(a, []);
    assert ReadAareBody([], a.(initiate := q), true) == Got(a.(initiate := q), []);
  }

  /** An AARE that encodes decodes to its fields, the integers noted in them, and the initiate response. */
  lemma AareRoundTrip(a: Aare, room: nat)
    requires CompleteFields(a.fields) && EncodeAare(a, room).Got?
    requires Noted(a.fields, Aare([], None, None, NoResponse())).Got?
    ensures DecodeAare(EncodeAare(a, room).value) ==
      Got(Noted(a.fields, Aare([], None, None, NoResponse())).value.(initiate := a.initiate), [])
  {
    hide ReadAareBody, UserInformation, ResponseOctets, TlvOctets, EmitFields, ReadSingle, Noted;
    var v := AssociationValue(a.fields, ResponseOctets(a.initiate));
    AareBodyRoundTrip(Aare([], None, None, NoResponse()), a.fields, a.initiate);
    SingleRoundTrip(AARE_TAG, v.octets);
  }
}
