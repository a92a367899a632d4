/**
 The association handshake of a client and a server, without and with low-level
 security: both end up associated on the same terms, or neither does.
 */
module Association {
  import opened Bytes
  import opened Numbers
  import opened Axdr
  import opened Ber
  import opened Initiate
  import opened Acse
  import P = Apdu

  datatype AssociationStatus =
    | Ok
    | InvalidArgument
    | InvalidState
    | AlreadyAssociated
    | UnsupportedAuthentication
    | EncodeFailed
    | ReceiveFailed
    | DecodeFailed
    | AssociationRejected
    | NegotiationFailed

  datatype AssociationState = Closed | Open | Associating | Associated

  datatype Mode = NoAuthentication | LowLevelSecurity

  datatype ClientOptions = ClientOptions(
    mode: Mode,
    credential: Octets,
    callingTitle: Octets,
    qualityOfService: Option<int8>,
    version: byte,
    conformance: Conformance,
    maxPduSize: uint16)

  datatype ServerOptions = ServerOptions(
    mode: Mode,
    credential: Octets,
    respondingTitle: Octets,
    version: byte,
    conformance: Conformance,
    maxPduSize: uint16,
    vaaName: uint16)

  datatype AssociationResult = AssociationResult(
    version: byte,
    conformance: Conformance,
    maxPduSize: uint16,
    vaaName: uint16,
    aareResult: Option<int>,
    aareDiagnostic: Option<int>,
    callingTitle: Octets,
    respondingTitle: Octets)

  function EmptyResult(): AssociationResult {
    AssociationResult(0, [0, 0, 0], 0, 0, None, None, [], [])
  }

  datatype Party = Party(state: AssociationState, result: AssociationResult)

  const MAX_SHORT_VALUE: nat := 125

  const REQUIREMENTS_TAG: byte := 0x8a
  const MECHANISM_TAG: byte := 0x8b
  const RESPONDING_TITLE_TAG: byte := 0xa4
  const CALLING_TITLE_TAG: byte := 0xa6
  const CALLING_VALUE_TAG: byte := 0xac
  const CHARSTRING_TAG: byte := 0x80

  // ---- Fields ----

  /** A field whose tag is its first octet. */
  function RawField(encoded: Octets): Field
    requires encoded != []
  {
    Field(encoded[0], encoded)
  }

  function RequirementsOctets(): Octets {
    [0x8a, 0x02, 0x07, 0x80]
  }

  function MechanismOctets(): Octets {
    [0x8b, 0x07, 0x60, 0x85, 0x74, 0x05, 0x08, 0x02, 0x01]
  }

  /** A value in two short elements, one inside the other; sizes are cut to one octet. */
  function ValueOctets(tag: byte, inner: byte, value: Octets): (r: Octets)
    ensures |r| == 4 + |value| && r[0] == tag
  {
    [tag, (|value| + 2) % 256, inner, |value| % 256] + value
  }

  /** What such a field holds. */
  function DecodeValue(f: Field, tag: byte, inner: byte): Option<Octets> {
    var e := f.encoded;
    if f.tag != tag || |e| < 4 || e[0] != tag || e[2] != inner then None
    else if e[3] as int + 4 != |e| || e[3] as int + 2 != e[1] as int then None
    else Some(e[4..])
  }

  function ClientFields(o: ClientOptions): seq<Field> {
    (if o.mode == LowLevelSecurity then
       [RawField(RequirementsOctets()), RawField(MechanismOctets()),
        RawField(ValueOctets(CALLING_VALUE_TAG, CHARSTRING_TAG, o.credential))]
     else [])
    + (if o.callingTitle != [] then [RawField(ValueOctets(CALLING_TITLE_TAG, OCTET_STRING_TAG, o.callingTitle))] else [])
  }

  function ServerFields(o: ServerOptions): seq<Field> {
    [RawField([0xa2, 0x03, 0x02, 0x01, 0x00]), RawField([0xa3, 0x05, 0xa1, 0x03, 0x02, 0x01, 0x0e])]
    + (if o.respondingTitle != [] then [RawField(ValueOctets(RESPONDING_TITLE_TAG, OCTET_STRING_TAG, o.respondingTitle))] else [])
  }

  // ---- The client ----

  function ValidateClient(o: ClientOptions): AssociationStatus {
    if o.mode == LowLevelSecurity && o.credential == [] then UnsupportedAuthentication
    else if o.mode == LowLevelSecurity && |o.credential| > MAX_SHORT_VALUE then InvalidArgument
    else if o.version == 0 || o.maxPduSize == 0 then InvalidArgument
    else Ok
  }

  function RequestOf(o: ClientOptions): InitiateRequest {
    InitiateRequest(None, true, o.qualityOfService, o.version, o.conformance, o.maxPduSize)
  }

  function BuildAarq(o: ClientOptions): P.Read<Octets> {
    EncodeAarq(Aarq(ClientFields(o), RequestOf(o)), 2048)
  }

  /** A call, what it leaves of the party, and what it sends. */
  datatype Call = Call(status: AssociationStatus, party: Party, sent: Option<Octets>)

  /** The first half of Establish: everything up to the request that is sent. */
  function EstablishBegin(o: ClientOptions, p: Party): Call {
    if p.state == Closed then Call(InvalidState, p, None)
    else if p.state == Associated then Call(AlreadyAssociated, p, None)
    else if ValidateClient(o) != Ok then Call(ValidateClient(o), p, None)
    else
      match BuildAarq(o)
      case No(_) => Call(EncodeFailed, Party(Open, EmptyResult()), None)
      case Got(x, _) => Call(Ok, Party(Associating, EmptyResult()), Some(x))
  }

  /** The first responding title that can be read. */
  function RespondingTitle(fields: seq<Field>): Octets {
    if fields == [] then []
    else if (fields[0].tag == RESPONDING_TITLE_TAG || fields[0].tag == CALLING_TITLE_TAG)
         && DecodeValue(fields[0], fields[0].tag, OCTET_STRING_TAG).Some? then
      DecodeValue(fields[0], fields[0].tag, OCTET_STRING_TAG).value
    else RespondingTitle(fields[1..])
  }

  datatype Decoded = Decoded(status: AssociationStatus, result: AssociationResult)

  function DecodeReply(reply: Octets): Decoded {
    match DecodeAare(reply)
    case No(_) => Decoded(DecodeFailed, EmptyResult())
    case Got(a, _) =>
      var noted := EmptyResult().(aareResult := a.result, aareDiagnostic := a.diagnostic);
      if a.result.Some? && a.result.value != 0 then Decoded(AssociationRejected, noted)
      else if a.initiate.version == 0 || a.initiate.maxPduSize == 0 then Decoded(NegotiationFailed, noted)
      else Decoded(Ok, noted.(
        version := a.initiate.version, conformance := a.initiate.conformance,
        maxPduSize := a.initiate.maxPduSize, vaaName := a.initiate.vaaName,
        respondingTitle := RespondingTitle(a.fields)))
  }

  /** The second half: the reply, or the failure to receive one. */
  function EstablishEnd(p: Party, reply: Option<Octets>): Call {
    match reply
    case None => Call(ReceiveFailed, p.(state := Open), None)
    case Some(x) =>
      var d := DecodeReply(x);
      Call(d.status, Party(if d.status == Ok then Associated else Open, d.result), None)
  }

  // ---- The server ----

  function ValidateServer(o: ServerOptions): AssociationStatus {
    if o.mode == LowLevelSecurity && o.credential == [] then UnsupportedAuthentication
    else if |o.respondingTitle| > MAX_SHORT_VALUE then InvalidArgument
    else if o.version == 0 || o.maxPduSize == 0 then InvalidArgument
    else Ok
  }

  function Matching(fields: seq<Field>, tag: byte): seq<Field> {
    if fields == [] then []
    else (if fields[0].tag == tag then [fields[0]] else []) + Matching(fields[1..], tag)
  }

  predicate HasAuthentication(fields: seq<Field>) {
    Matching(fields, REQUIREMENTS_TAG) != [] || Matching(fields, MECHANISM_TAG) != [] || Matching(fields, CALLING_VALUE_TAG) != []
  }

  /** Each authentication field exactly once, with the expected contents. */
  function ValidateLowLevel(fields: seq<Field>, credential: Octets): AssociationStatus {
    var r, m, v := Matching(fields, REQUIREMENTS_TAG), Matching(fields, MECHANISM_TAG), Matching(fields, CALLING_VALUE_TAG);
    if |r| != 1 || |m| != 1 || |v| != 1 then UnsupportedAuthentication
    else if r[0].encoded != RequirementsOctets() || m[0].encoded != MechanismOctets() then UnsupportedAuthentication
    else if DecodeValue(v[0], CALLING_VALUE_TAG, CHARSTRING_TAG) != Some(credential) then UnsupportedAuthentication
    else Ok
  }

  /** The checks on a decoded request, in their order. */
  function Judge(o: ServerOptions, a: Aarq): Decoded {
    var titles := Matching(a.fields, CALLING_TITLE_TAG);
    if o.mode == NoAuthentication && HasAuthentication(a.fields) then Decoded(UnsupportedAuthentication, EmptyResult())
    else if titles != [] && DecodeValue(titles[0], CALLING_TITLE_TAG, OCTET_STRING_TAG).None? then
      Decoded(DecodeFailed, EmptyResult())
    else
      var titled := if titles == [] then EmptyResult()
        else EmptyResult().(callingTitle := DecodeValue(titles[0], CALLING_TITLE_TAG, OCTET_STRING_TAG).value);
      if o.mode == LowLevelSecurity && ValidateLowLevel(a.fields, o.credential) != Ok then
        Decoded(ValidateLowLevel(a.fields, o.credential), titled)
      else if a.initiate.version == 0 || a.initiate.maxPduSize == 0 then Decoded(NegotiationFailed, titled)
      else Decoded(Ok, titled)
  }

  function DecodeRequest(o: ServerOptions, request: Octets): Decoded {
    match DecodeAarq(request)
    case No(_) => Decoded(DecodeFailed, EmptyResult())
    case Got(a, _) => Judge(o, a)
  }

  function ResponseOf(o: ServerOptions): InitiateResponse {
    InitiateResponse(None, o.version, o.conformance, o.maxPduSize, o.vaaName)
  }

  function BuildAare(o: ServerOptions): P.Read<Octets> {
    EncodeAare(Aare(ServerFields(o), Some(0), Some(0x0e), ResponseOf(o)), 2048)
  }

  function AcceptedResult(o: ServerOptions, d: AssociationResult): AssociationResult {
    d.(version := o.version, conformance := o.conformance, maxPduSize := o.maxPduSize, vaaName := o.vaaName,
       aareResult := Some(0), aareDiagnostic := Some(0x0e))
  }

  function Accept(o: ServerOptions, p: Party, request: Option<Octets>): Call {
    if p.state == Closed then Call(InvalidState, p, None)
    else if p.state == Associated then Call(AlreadyAssociated, p, None)
    else if ValidateServer(o) != Ok then Call(ValidateServer(o), p, None)
    else if request.None? then Call(ReceiveFailed, Party(Open, EmptyResult()), None)
    else
      var d := DecodeRequest(o, request.value);
      if d.status != Ok then Call(d.status, Party(Open, d.result), None)
      else
        match BuildAare(o)
        case No(_) => Call(EncodeFailed, Party(Open, d.result), None)
        case Got(x, _) => Call(Ok, Party(Associated, AcceptedResult(o, d.result)), Some(x))
  }

  /** Exactly which options are accepted. */
  lemma OptionsExact(c: ClientOptions, s: ServerOptions)
    ensures ValidateClient(c) == Ok <==>
      (c.mode == LowLevelSecurity ==> 1 <= |c.credential| <= 125) && c.version != 0 && c.maxPduSize != 0
    ensures ValidateServer(s) == Ok <==>
      && (s.mode == LowLevelSecurity ==> s.credential != [])
      && |s.respondingTitle| <= 125 && s.version != 0 && s.maxPduSize != 0
  {
  }

  // ---- Agreement ----

  lemma ShortFieldComplete(tag: byte, body: Octets)
    requires !LongTag(tag) && |body| < 128 && tag != USER_INFORMATION_TAG
    ensures CompleteField(Field(tag, [tag, |body|] + body))
  {
    hide ReadTlv;
    TlvRoundTrip(tag, body, []);
    assert TlvOctets(tag, body) + [] == [tag, |body|] + body;
  }

  lemma ValueFieldComplete(tag: byte, inner: byte, value: Octets)
    requires !LongTag(tag) && tag != USER_INFORMATION_TAG && |value| <= MAX_SHORT_VALUE
    ensures CompleteField(RawField(ValueOctets(tag, inner, value)))
    ensures DecodeValue(RawField(ValueOctets(tag, inner, value)), tag, inner) == Some(value)
  {
    hide CompleteField;
    var body := [inner, |value|] + value;
    ShortFieldComplete(tag, body);
    assert [tag, |body|] + body == ValueOctets(tag, inner, value);
    assert ValueOctets(tag, inner, value)[4..] == value;
  }

  lemma FixedFieldsComplete()
    ensures CompleteField(RawField(RequirementsOctets())) && CompleteField(RawField(MechanismOctets()))
    ensures CompleteField(RawField([0xa2, 0x03, 0x02, 0x01, 0x00]))
    ensures CompleteField(RawField([0xa3, 0x05, 0xa1, 0x03, 0x02, 0x01, 0x0e]))
  {
    hide CompleteField;
    ShortFieldComplete(0x8a, [0x07, 0x80]);
    assert [0x8a, 2] + [0x07, 0x80] == RequirementsOctets();
    ShortFieldComplete(0x8b, [0x60, 0x85, 0x74, 0x05, 0x08, 0x02, 0x01]);
    assert [0x8b, 7] + [0x60, 0x85, 0x74, 0x05, 0x08, 0x02, 0x01] == MechanismOctets();
    ShortFieldComplete(0xa2, [0x02, 0x01, 0x00]);
    assert [0xa2, 3] + [0x02, 0x01, 0x00] == [0xa2, 0x03, 0x02, 0x01, 0x00];
    ShortFieldComplete(0xa3, [0xa1, 0x03, 0x02, 0x01, 0x0e]);
    assert [0xa3, 5] + [0xa1, 0x03, 0x02, 0x01, 0x0e] == [0xa3, 0x05, 0xa1, 0x03, 0x02, 0x01, 0x0e];
  }

  /** Sizes of fields, all of them small. */
  lemma {:induction false} FieldsSize(fields: seq<Field>, bound: nat)
    requires forall i :: 0 <= i < |fields| ==> fields[i].tag != USER_INFORMATION_TAG && |fields[i].encoded| <= bound
    ensures EmitFields(fields).fault == P.Ok && |EmitFields(fields).octets| <= bound * |fields|
  {
    if fields != [] {
      FieldsSize(fields[1..], bound);
    }
  }

  lemma AssociationEncodes(tag: byte, fields: seq<Field>, xdlms: Octets)
    requires EmitFields(fields).fault == P.Ok && |EmitFields(fields).octets| <= 600 && |xdlms| <= 100
    ensures EncodeAssociation(tag, fields, xdlms, 2048).Got?
  {
    SmallTlv(OCTET_STRING_TAG, xdlms);
    SmallTlv(USER_INFORMATION_TAG, TlvOctets(OCTET_STRING_TAG, xdlms));
    hide TlvOctets, EmitFields;
    SmallTlv(tag, AssociationValue(fields, xdlms).octets);
  }

  lemma SmallAssociationEncodes(tag: byte, fields: seq<Field>, xdlms: Octets)
    requires CompleteFields(fields) && |fields| <= 4 && |xdlms| <= 100
    requires forall i :: 0 <= i < |fields| ==> |fields[i].encoded| <= 129
    ensures EncodeAssociation(tag, fields, xdlms, 2048).Got?
  {
    FieldsSize(fields, 129);
    hide EncodeAssociation, EmitFields;
    AssociationEncodes(tag, fields, xdlms);
  }

  lemma RequestSize(o: ClientOptions)
    ensures |RequestOctets(RequestOf(o))| <= 100 && SizedRequest(RequestOf(o))
  {
  }

  lemma ResponseSize(o: ServerOptions)
    ensures |ResponseOctets(ResponseOf(o))| <= 100
  {
  }

  predicate GoodClient(o: ClientOptions) {
    ValidateClient(o) == Ok && |o.callingTitle| <= MAX_SHORT_VALUE
  }

  /** What the client sends is what the server decodes. */
  lemma RequestArrives(o: ClientOptions)
    requires GoodClient(o)
    ensures BuildAarq(o).Got?
    ensures DecodeAarq(BuildAarq(o).value) == P.Got(Aarq(ClientFields(o), RequestOf(o)), [])
    ensures var q := DecodeAarq(BuildAarq(o).value).value.initiate;
      && q.version == o.version && q.conformance == o.conformance && q.maxPduSize == o.maxPduSize
      && q.qualityOfService == o.qualityOfService && q.responseAllowed && q.dedicatedKey == None
  {
    hide CompleteField, DecodeAarq, EncodeAssociation, ValueOctets;
    FixedFieldsComplete();
    if o.mode == LowLevelSecurity {
      ValueFieldComplete(CALLING_VALUE_TAG, CHARSTRING_TAG, o.credential);
    }
    ValueFieldComplete(CALLING_TITLE_TAG, OCTET_STRING_TAG, o.callingTitle);
    RequestSize(o);
    assert CompleteFields(ClientFields(o));
    SmallAssociationEncodes(AARQ_TAG, ClientFields(o), RequestOctets(RequestOf(o)));
    AarqRoundTrip(Aarq(ClientFields(o), RequestOf(o)), 2048);
  }

  lemma NotedFields(o: ServerOptions)
    requires |o.respondingTitle| <= MAX_SHORT_VALUE
    ensures CompleteFields(ServerFields(o))
    ensures Noted(ServerFields(o), Aare([], None, None, NoResponse())) ==
      P.Got(Aare(ServerFields(o), Some(0), Some(0x0e), NoResponse()), [])
  {
    hide CompleteField, ReadTlv, NoteInteger, ValueOctets;
    FixedFieldsComplete();
    ValueFieldComplete(RESPONDING_TITLE_TAG, OCTET_STRING_TAG, o.respondingTitle);
    var fields := ServerFields(o);
    var a0 := Aare([], None, None, NoResponse());
    var a1 := Aare([fields[0]], Some(0), None, NoResponse());
    var a2 := Aare([fields[0], fields[1]], Some(0), Some(0x0e), NoResponse());
    ResultNoted(a0);
    NotedNext(fields, a0, a1);
    DiagnosticNoted(a1);
    NotedNext(fields[1..], a1, a2);
    assert fields[1..][1..] == fields[2..];
    if o.respondingTitle == [] {
      assert fields[2..] == [];
      assert [fields[0], fields[1]] == fields;
    } else {
      TitleNoted(o.respondingTitle, a2);
      NotedNext(fields[2..], a2, a2.(fields := a2.fields + [fields[2]]));
      assert fields[2..][1..] == [];
      assert [fields[0], fields[1]] + [fields[2]] == fields;
    }
  }

  lemma NotedNext(fields: seq<Field>, a: Aare, b: Aare)
    requires fields != [] && CompleteField(fields[0])
    requires NoteInteger(a, ReadTlv(fields[0].encoded).value) == P.Got(b.(fields := a.fields), [])
    requires b.fields == a.fields + [fields[0]]
    ensures Noted(fields, a) == Noted(fields[1..], b)
  {
    hide ReadTlv, NoteInteger;
  }

  lemma ResultNoted(a: Aare)
    ensures var r := ReadTlv([0xa2, 0x03, 0x02, 0x01, 0x00]);
      r.Got? && NoteInteger(a, r.value) == P.Got(a.(result := Some(0)), [])
  {
    hide ReadTlv;
    ShortTlv(0xa2, [0x02, 0x01, 0x00]);
    ShortTlv(0x02, [0x00]);
    assert [0xa2, 3] + [0x02, 0x01, 0x00] == [0xa2, 0x03, 0x02, 0x01, 0x00];
    assert [0x02, 1] + [0x00] == [0x02, 0x01, 0x00];
    OneOctetInteger(0);
  }

  lemma DiagnosticNoted(a: Aare)
    ensures var r := ReadTlv([0xa3, 0x05, 0xa1, 0x03, 0x02, 0x01, 0x0e]);
      r.Got? && NoteInteger(a, r.value) == P.Got(a.(diagnostic := Some(0x0e)), [])
  {
    hide ReadTlv;
    ShortTlv(0xa3, [0xa1, 0x03, 0x02, 0x01, 0x0e]);
    ShortTlv(0xa1, [0x02, 0x01, 0x0e]);
    ShortTlv(0x02, [0x0e]);
    assert [0xa3, 5] + [0xa1, 0x03, 0x02, 0x01, 0x0e] == [0xa3, 0x05, 0xa1, 0x03, 0x02, 0x01, 0x0e];
    assert [0xa1, 3] + [0x02, 0x01, 0x0e] == [0xa1, 0x03, 0x02, 0x01, 0x0e];
    assert [0x02, 1] + [0x0e] == [0x02, 0x01, 0x0e];
    OneOctetInteger(0x0e);
  }

  lemma OneOctetInteger(b: byte)
    requires b < 0x80
    ensures IntegerOf([b]) == P.Got(b as int, [])
  {
    OneOctet(b);
  }

  lemma ShortTlv(tag: byte, body: Octets)
    requires !LongTag(tag) && |body| < 128
    ensures ReadTlv([tag, |body|] + body) == P.Got(Tlv(tag, body), [])
  {
    hide ReadTlv;
    TlvRoundTrip(tag, body, []);
    assert TlvOctets(tag, body) + [] == [tag, |body|] + body;
  }

  lemma TitleNoted(title: Octets, a: Aare)
    requires |title| <= MAX_SHORT_VALUE
    ensures var t := ReadTlv(ValueOctets(RESPONDING_TITLE_TAG, OCTET_STRING_TAG, title));
      t.Got? && NoteInteger(a, t.value) == P.Got(a, [])
  {
    hide ReadTlv;
    var body := [OCTET_STRING_TAG, |title|] + title;
    ShortTlv(RESPONDING_TITLE_TAG, body);
    assert [RESPONDING_TITLE_TAG, |body|] + body == ValueOctets(RESPONDING_TITLE_TAG, OCTET_STRING_TAG, title);
  }

  /** What the server answers is what the client decodes. */
  lemma ReplyArrives(o: ServerOptions)
    requires ValidateServer(o) == Ok
    ensures BuildAare(o).Got?
    ensures DecodeReply(BuildAare(o).value) ==
      Decoded(Ok, AcceptedResult(o, EmptyResult().(respondingTitle := o.respondingTitle)))
  {
    hide CompleteField, DecodeAare, EncodeAssociation, Noted, ValueOctets, DecodeValue;
    NotedFields(o);
    ResponseSize(o);
    SmallAssociationEncodes(AARE_TAG, ServerFields(o), ResponseOctets(ResponseOf(o)));
    AareRoundTrip(Aare(ServerFields(o), Some(0), Some(0x0e), ResponseOf(o)), 2048);
    TitleFound(o);
  }

  lemma TitleFound(o: ServerOptions)
    requires |o.respondingTitle| <= MAX_SHORT_VALUE
    ensures RespondingTitle(ServerFields(o)) == o.respondingTitle
  {
    hide DecodeValue, ValueOctets, RespondingTitle, CompleteField;
    var fields := ServerFields(o);
    TitleNotHere(fields);
    TitleNotHere(fields[1..]);
    assert fields[1..][1..] == fields[2..];
    if o.respondingTitle == [] {
      assert fields[2..] == [];
      NoTitle();
    } else {
      ValueFieldComplete(RESPONDING_TITLE_TAG, OCTET_STRING_TAG, o.respondingTitle);
      TitleHere(fields[2..]);
    }
  }

  lemma NoTitle()
    ensures RespondingTitle([]) == []
  {
  }

  lemma TitleNotHere(fields: seq<Field>)
    requires fields != [] && fields[0].tag != RESPONDING_TITLE_TAG && fields[0].tag != CALLING_TITLE_TAG
    ensures RespondingTitle(fields) == RespondingTitle(fields[1..])
  {
  }

  lemma TitleHere(fields: seq<Field>)
    requires fields != [] && fields[0].tag == RESPONDING_TITLE_TAG
    requires DecodeValue(fields[0], RESPONDING_TITLE_TAG, OCTET_STRING_TAG).Some?
    ensures RespondingTitle(fields) == DecodeValue(fields[0], RESPONDING_TITLE_TAG, OCTET_STRING_TAG).value
  {
    hide DecodeValue;
  }

  lemma {:induction false} MatchingAppend(a: seq<Field>, b: seq<Field>, tag: byte)
    ensures Matching(a + b, tag) == Matching(a, tag) + Matching(b, tag)
  {
    if a == [] {
      assert a + b == b;
    } else {
      assert (a + b)[0] == a[0] && (a + b)[1..] == a[1..] + b;
      MatchingAppend(a[1..], b, tag);
      MatchingFirst(a, tag);
      MatchingFirst(a + b, tag);
      hide Matching;
      var x := if a[0].tag == tag then [a[0]] else [];
      assert x + (Matching(a[1..], tag) + Matching(b, tag)) == (x + Matching(a[1..], tag)) + Matching(b, tag);
    }
  }

  lemma MatchingFirst(a: seq<Field>, tag: byte)
    requires a != []
    ensures Matching(a, tag) == (if a[0].tag == tag then [a[0]] else []) + Matching(a[1..], tag)
  {
  }

  lemma MatchingOne(f: Field, tag: byte)
    ensures Matching([f], tag) == if f.tag == tag then [f] else []
  {
    assert [f][1..] == [];
  }

  /** Where each field of the client is found. */
  lemma ClientMatching(o: ClientOptions, tag: byte)
    ensures Matching(ClientFields(o), tag) ==
      if o.mode == LowLevelSecurity && tag == REQUIREMENTS_TAG then [RawField(RequirementsOctets())]
      else if o.mode == LowLevelSecurity && tag == MECHANISM_TAG then [RawField(MechanismOctets())]
      else if o.mode == LowLevelSecurity && tag == CALLING_VALUE_TAG then
        [RawField(ValueOctets(CALLING_VALUE_TAG, CHARSTRING_TAG, o.credential))]
      else if o.callingTitle != [] && tag == CALLING_TITLE_TAG then
        [RawField(ValueOctets(CALLING_TITLE_TAG, OCTET_STRING_TAG, o.callingTitle))]
      else []
  {
    hide Matching, ValueOctets;
    var r, m := RawField(RequirementsOctets()), RawField(MechanismOctets());
    var v := RawField(ValueOctets(CALLING_VALUE_TAG, CHARSTRING_TAG, o.credential));
    var t := RawField(ValueOctets(CALLING_TITLE_TAG, OCTET_STRING_TAG, o.callingTitle));
    MatchingOne(r, tag);
    MatchingOne(m, tag);
    MatchingOne(v, tag);
    MatchingOne(t, tag);
    MatchingNone(tag);
    MatchingAppend([r], [m], tag);
    MatchingAppend([r] + [m], [v], tag);
    assert [r] + [m] + [v] == [r, m, v];
    MatchingAppend([r, m, v], [t], tag);
    MatchingAppend([r, m, v], [], tag);
    assert [r, m, v] + [] == [r, m, v] && [] + [t] == [t];
    MatchingAppend([], [t], tag);
  }

  lemma MatchingNone(tag: byte)
    ensures Matching([], tag) == []
  {
  }

  /** Both ends use the same mode and, with low-level security, the same credential. */
  predicate Compatible(c: ClientOptions, s: ServerOptions) {
    c.mode == s.mode && (c.mode == LowLevelSecurity ==> c.credential == s.credential)
  }

  /** The low-level security check accepts exactly the fields a client with this credential makes. */
  lemma LowLevelExact(c: ClientOptions, credential: Octets)
    requires GoodClient(c)
    ensures ValidateLowLevel(ClientFields(c), credential) == Ok <==> c.mode == LowLevelSecurity && c.credential == credential
  {
    hide ValueOctets, DecodeValue, Matching, CompleteField, RequirementsOctets, MechanismOctets, ClientFields;
    ClientMatching(c, REQUIREMENTS_TAG);
    ClientMatching(c, MECHANISM_TAG);
    ClientMatching(c, CALLING_VALUE_TAG);
    if c.mode == LowLevelSecurity {
      ValueFieldComplete(CALLING_VALUE_TAG, CHARSTRING_TAG, c.credential);
    }
  }

  lemma AuthenticationExact(c: ClientOptions)
    ensures HasAuthentication(ClientFields(c)) <==> c.mode == LowLevelSecurity
  {
    hide ValueOctets, Matching, RequirementsOctets, MechanismOctets, ClientFields;
    ClientMatching(c, REQUIREMENTS_TAG);
    ClientMatching(c, MECHANISM_TAG);
    ClientMatching(c, CALLING_VALUE_TAG);
  }

  lemma ServerDecides(c: ClientOptions, s: ServerOptions)
    requires GoodClient(c) && ValidateServer(s) == Ok
    ensures BuildAarq(c).Got?
    ensures var d := DecodeRequest(s, BuildAarq(c).value);
      && (d.status == Ok <==> Compatible(c, s))
      && (d.status == Ok ==> d.result == EmptyResult().(callingTitle := c.callingTitle))
  {
    hide BuildAarq, DecodeAarq, ValueOctets, DecodeValue, Matching, CompleteField, HasAuthentication, ValidateLowLevel, ClientFields;
    RequestArrives(c);
    LowLevelExact(c, s.credential);
    AuthenticationExact(c);
    ClientMatching(c, CALLING_TITLE_TAG);
    ValueFieldComplete(CALLING_TITLE_TAG, OCTET_STRING_TAG, c.callingTitle);
  }

  /** The whole exchange over a channel that loses nothing; without an answer the client's receive fails. */
  datatype Exchange = Exchange(client: Party, server: Party)

  function Handshake(c: ClientOptions, s: ServerOptions, client: Party, server: Party): Exchange {
    var begun := EstablishBegin(c, client);
    if begun.status != Ok then Exchange(begun.party, server)
    else
      var accepted := Accept(s, server, begun.sent);
      Exchange(EstablishEnd(begun.party, accepted.sent).party, accepted.party)
  }

  /**
   Client and server both end up associated exactly when their modes and credentials
   agree, and then hold the same version, conformance, PDU size and VAA name; otherwise
   neither is associated.
   */
  lemma AssociationAgreement(c: ClientOptions, s: ServerOptions, client: Party, server: Party)
    requires GoodClient(c) && ValidateServer(s) == Ok
    requires client.state == Open && server.state == Open
    ensures var e := Handshake(c, s, client, server);
      && (e.client.state == Associated <==> Compatible(c, s))
      && (e.server.state == Associated <==> Compatible(c, s))
      && (Compatible(c, s) ==>
            && e.client.result.version == e.server.result.version == s.version
            && e.client.result.conformance == e.server.result.conformance == s.conformance
            && e.client.result.maxPduSize == e.server.result.maxPduSize == s.maxPduSize
            && e.client.result.vaaName == e.server.result.vaaName == s.vaaName
            && e.client.result.respondingTitle == s.respondingTitle
            && e.server.result.callingTitle == c.callingTitle)
      && (!Compatible(c, s) ==> e.client.state == Open && e.server.state == Open)
  {
    hide BuildAarq, BuildAare, DecodeRequest, DecodeReply;
    ServerDecides(c, s);
    ReplyArrives(s);
  }

  // ---- Calling titles that do not fit a short element ----

  lemma {:induction false} LeadingOctet(x: Octets)
    requires x != []
    ensures FromBig(x) >= x[0] as int * Pow256(|x| - 1)
    decreases |x|
  {
    if |x| == 1 {
      OneOctet(x[0]);
      assert x == [x[0]];
      assert Pow256(0) == 1;
    } else {
      LeadingOctet(x[..|x| - 1]);
      var p := Pow256(|x| - 2);
      assert Pow256(|x| - 1) == 256 * p;
      assert x[0] as int * (256 * p) == 256 * (x[0] as int * p);
    }
  }

  lemma OneOctet(b: byte)
    ensures FromBig([b]) == b as int
  {
    FromBigSnoc([], b);
    assert [] + [b] == [b];
  }

  lemma PowerAtLeast(k: nat)
    requires k >= 1
    ensures Pow256(k) >= 256
  {
    if k > 1 {
      PowerAtLeast(k - 1);
    }
  }

  /** The length octet such a title gets. */
  function TitleLength(title: Octets): nat {
    (|title| + 2) % 256
  }

  /** A length octet that announces the long form is followed by no length that fits. */
  lemma LongFormUnreadable(title: Octets, tail: Octets)
    requires TitleLength(title) >= 128 && |title| + |tail| <= 1020
    ensures ReadTlv(ValueOctets(CALLING_TITLE_TAG, OCTET_STRING_TAG, title) + tail).No?
  {
    hide FromBig, Pow256;
    var s := ValueOctets(CALLING_TITLE_TAG, OCTET_STRING_TAG, title) + tail;
    var r := s[1..];
    var k := TitleLength(title) - 0x80;
    assert r[0] == TitleLength(title) && r[1..][0] == 0x04;
    if 1 <= k <= 8 {
      var x := r[1..][..k];
      LeadingOctet(x);
      if k == 1 {
        assert x == [0x04];
        OneOctet(0x04);
      } else {
        PowerAtLeast(k - 1);
      }
    }
  }

  /** A length octet in the short form takes at most 127 octets of what follows. */
  lemma ShortFormTakesLittle(title: Octets, tail: Octets)
    requires TitleLength(title) < 128
    ensures var s := ValueOctets(CALLING_TITLE_TAG, OCTET_STRING_TAG, title) + tail;
      ReadTlv(s).Got? ==>
        |ReadTlv(s).rest| <= |s| && |Front(s, ReadTlv(s).rest)| == 2 + TitleLength(title) && ReadTlv(s).value.tag == CALLING_TITLE_TAG
  {
    hide FromBig;
    var s := ValueOctets(CALLING_TITLE_TAG, OCTET_STRING_TAG, title) + tail;
    assert s[0] == CALLING_TITLE_TAG && s[1..][0] == TitleLength(title);
  }

  /** Decoding only ever adds fields. */
  lemma {:induction false} FieldsGrow(s: Octets, a: Aarq, seen: bool)
    requires ReadAarqBody(s, a, seen).Got?
    ensures a.fields <= ReadAarqBody(s, a, seen).value.fields
    decreases |s|
  {
    hide ReadTlv, ReadUserInformation, ReadRequest;
    if s != [] {
      TlvConsumes(s);
      var t, rest := ReadTlv(s).value, ReadTlv(s).rest;
      if t.tag != USER_INFORMATION_TAG {
        FieldsGrow(rest, a.(fields := a.fields + [Field(t.tag, Front(s, rest))]), seen);
      } else {
        FieldsGrow(rest, a.(initiate := ReadRequest(ReadUserInformation(t.value).value).value), true);
      }
    }
  }

  /** What the decoder makes of complete fields and a title behind them. */
  lemma {:induction false} TitleAfter(first: seq<Field>, x: Octets, u: Octets, a: Aarq)
    requires CompleteFields(first) && x != [] && x[0] != USER_INFORMATION_TAG
    ensures EmitFields(first + [RawField(x)]).fault == P.Ok
    ensures ReadAarqBody(EmitFields(first + [RawField(x)]).octets + u, a, false) ==
      ReadAarqBody(x + u, a.(fields := a.fields + first), false)
    decreases |first|
  {
    hide ReadAarqBody, CompleteField;
    var t := RawField(x);
    if first == [] {
      assert [] + [t] == [t] && [t][1..] == [];
      assert EmitFields([t]).octets == x by {
        assert EmitFields([]) == P.Plain([]);
        assert x + [] == x;
      }
      assert a.fields + first == a.fields;
    } else {
      hide EmitFields;
      var f := first[0];
      assert CompleteField(f);
      var a' := a.(fields := a.fields + [f]);
      TitleAfter(first[1..], x, u, a');
      assert (first + [t])[0] == f && (first + [t])[1..] == first[1..] + [t];
      NotUserInformation(f);
      FirstField(first + [t]);
      var rest := EmitFields(first[1..] + [t]).octets;
      assert (f.encoded + rest) + u == f.encoded + (rest + u);
      AarqField(f, rest + u, a, false);
      assert a'.fields + first[1..] == a.fields + first;
    }
  }

  lemma NotUserInformation(f: Field)
    requires CompleteField(f)
    ensures f.tag != USER_INFORMATION_TAG
  {
  }

  lemma FirstField(fields: seq<Field>)
    requires fields != [] && fields[0].tag != USER_INFORMATION_TAG
    ensures EmitFields(fields) == P.Then(P.Plain(fields[0].encoded), EmitFields(fields[1..]))
  {
  }

  lemma TitleComesLast(c: ClientOptions)
    requires ValidateClient(c) == Ok && c.callingTitle != []
    ensures CompleteFields(ClientFields(c.(callingTitle := [])))
    ensures ClientFields(c) == ClientFields(c.(callingTitle := []))
      + [RawField(ValueOctets(CALLING_TITLE_TAG, OCTET_STRING_TAG, c.callingTitle))]
  {
    hide CompleteField, ValueOctets;
    FixedFieldsComplete();
    if c.mode == LowLevelSecurity {
      ValueFieldComplete(CALLING_VALUE_TAG, CHARSTRING_TAG, c.credential);
    }
  }

  /** What is decoded of a request that was built, and how large it can be. */
  lemma BuiltRequest(c: ClientOptions)
    requires ValidateClient(c) == Ok && c.callingTitle != [] && BuildAarq(c).Got?
    ensures var x := ValueOctets(CALLING_TITLE_TAG, OCTET_STRING_TAG, c.callingTitle);
      var u := UserInformation(RequestOctets(RequestOf(c)));
      && |x| + |u| <= 1024
      && DecodeAarq(BuildAarq(c).value) ==
         ReadAarqBody(x + u, Aarq(ClientFields(c.(callingTitle := [])), NoRequest()), false)
  {
    hide RequestOctets, ReadAarqBody, ReadTlv, ValueOctets, CompleteFields, UserInformation, TlvOctets, ReadSingle, EmitFields,
      ClientFields, RequestOf;
    var first := ClientFields(c.(callingTitle := []));
    var x := ValueOctets(CALLING_TITLE_TAG, OCTET_STRING_TAG, c.callingTitle);
    var xdlms := RequestOctets(RequestOf(c));
    var v := AssociationValue(ClientFields(c), xdlms);
    TitleComesLast(c);
    TitleAfter(first, x, UserInformation(xdlms), Aarq([], NoRequest()));
    assert [] + first == first;
    FieldsAtLeast(first, RawField(x));
    SingleRoundTrip(AARQ_TAG, v.octets);
  }

  lemma {:induction false} FieldsAtLeast(first: seq<Field>, t: Field)
    requires EmitFields(first + [t]).fault == P.Ok
    ensures |EmitFields(first + [t]).octets| >= |t.encoded|
    decreases |first|
  {
    if first == [] {
      assert [] + [t] == [t];
    } else {
      assert (first + [t])[0] == first[0] && (first + [t])[1..] == first[1..] + [t];
      FieldsAtLeast(first[1..], t);
    }
  }

  /**
   A longer title: if the request can be decoded at all, the first calling title in it
   has at most 129 octets with its header, because the length octet has wrapped.
   */
  lemma LongTitleDecodes(c: ClientOptions)
    requires ValidateClient(c) == Ok && |c.callingTitle| > MAX_SHORT_VALUE && BuildAarq(c).Got?
    ensures DecodeAarq(BuildAarq(c).value).Got? ==>
      var titles := Matching(DecodeAarq(BuildAarq(c).value).value.fields, CALLING_TITLE_TAG);
      titles != [] && |titles[0].encoded| <= 129
  {
    hide RequestOctets, ReadTlv, ValueOctets, UserInformation, ClientFields, RequestOf, BuildAarq, DecodeAarq, Matching,
      ReadAarqBody, EmitFields;
    BuiltRequest(c);
    if DecodeAarq(BuildAarq(c).value).Got? {
      var first := ClientFields(c.(callingTitle := []));
      var u := UserInformation(RequestOctets(RequestOf(c)));
      var s := ValueOctets(CALLING_TITLE_TAG, OCTET_STRING_TAG, c.callingTitle) + u;
      AarqStarts(s, Aarq(first, NoRequest()));
      if TitleLength(c.callingTitle) >= 128 {
        LongFormUnreadable(c.callingTitle, u);
      }
      ShortFormTakesLittle(c.callingTitle, u);
      var f := Field(CALLING_TITLE_TAG, Front(s, ReadTlv(s).rest));
      FieldsGrow(ReadTlv(s).rest, Aarq(first + [f], NoRequest()), false);
      ClientMatching(c.(callingTitle := []), CALLING_TITLE_TAG);
      FirstMatching(first, f, DecodeAarq(BuildAarq(c).value).value.fields, CALLING_TITLE_TAG);
    }
  }

  lemma FirstMatching(first: seq<Field>, f: Field, all: seq<Field>, tag: byte)
    requires Matching(first, tag) == [] && f.tag == tag && first + [f] <= all
    ensures Matching(all, tag) != [] && Matching(all, tag)[0] == f
  {
    hide Matching;
    var more := all[|first| + 1..];
    assert all == (first + [f]) + more;
    MatchingAppend(first, [f], tag);
    MatchingOne(f, tag);
    MatchingAppend(first + [f], more, tag);
  }

  lemma AarqStarts(s: Octets, a: Aarq)
    requires s != [] && ReadAarqBody(s, a, false).Got?
    ensures ReadTlv(s).Got?
    ensures ReadTlv(s).value.tag != USER_INFORMATION_TAG ==>
      |ReadTlv(s).rest| < |s| &&
      ReadAarqBody(s, a, false) ==
      ReadAarqBody(ReadTlv(s).rest, a.(fields := a.fields + [Field(ReadTlv(s).value.tag, Front(s, ReadTlv(s).rest))]), false)
  {
    hide ReadTlv, ReadUserInformation, ReadRequest;
    TlvConsumes(s);
  }

  /**
   The calling title arrives exactly when it has at most 125 octets. Nothing checks it
   under low-level security or without authentication: a longer one makes a request that
   is not encoded or not decoded, or of which the server reads a shorter title.
   */
  lemma CallingTitleExact(c: ClientOptions, s: ServerOptions, client: Party, server: Party)
    requires ValidateClient(c) == Ok && ValidateServer(s) == Ok && Compatible(c, s)
    requires client.state == Open && server.state == Open
    ensures var e := Handshake(c, s, client, server);
      (e.client.state == Associated && e.server.state == Associated && e.server.result.callingTitle == c.callingTitle) <==>
      |c.callingTitle| <= MAX_SHORT_VALUE
  {
    hide BuildAarq, BuildAare, DecodeAarq, DecodeReply, Matching, ValidateLowLevel, HasAuthentication;
    if |c.callingTitle| <= MAX_SHORT_VALUE {
      AssociationAgreement(c, s, client, server);
    } else if BuildAarq(c).Got? {
      LongTitleDecodes(c);
    }
  }

  lemma LongTitleFails(c: ClientOptions, s: ServerOptions, client: Party, server: Party)
    requires ValidateClient(c) == Ok && ValidateServer(s) == Ok && 126 <= |c.callingTitle| <= 253
    requires client.state == Open && server.state == Open
    ensures var e := Handshake(c, s, client, server);
      e.client.state == Open && e.server.state == Open
  {
    hide DecodeAarq, BuildAarq, ValidateServer, DecodeReply, BuildAare;
    if BuildAarq(c).Got? {
      LongTitleUndecodable(c);
    }
  }

  /** A title of 126 to 253 octets gets a length octet in the long form. */
  lemma LongTitleUndecodable(c: ClientOptions)
    requires ValidateClient(c) == Ok && 126 <= |c.callingTitle| <= 253 && BuildAarq(c).Got?
    ensures DecodeAarq(BuildAarq(c).value).No?
  {
    hide RequestOctets, ReadTlv, ValueOctets, UserInformation, ClientFields, RequestOf, BuildAarq, DecodeAarq;
    BuiltRequest(c);
    var u := UserInformation(RequestOctets(RequestOf(c)));
    LongFormUnreadable(c.callingTitle, u);
    var a := Aarq(ClientFields(c.(callingTitle := [])), NoRequest());
    var x := ValueOctets(CALLING_TITLE_TAG, OCTET_STRING_TAG, c.callingTitle) + u;
    if ReadAarqBody(x, a, false).Got? {
      AarqStarts(x, a);
    }
  }

  // ---- A title whose length octet wraps ----

  /** Empty elements with tag 80h, one after the other. */
  function Pairs(k: nat): (r: Octets)
    ensures |r| == 2 * k
  {
    if k == 0 then [] else [0x80, 0x00] + Pairs(k - 1)
  }

  function Repeated(k: nat): (r: seq<Field>)
    ensures |r| == k
  {
    if k == 0 then [] else [Field(0x80, [0x80, 0x00])] + Repeated(k - 1)
  }

  lemma {:induction false} RepeatedFields(k: nat)
    ensures EmitFields(Repeated(k)) == P.Plain(Pairs(k))
    ensures CompleteFields(Repeated(k))
    ensures forall tag: byte :: tag != 0x80 ==> Matching(Repeated(k), tag) == []
  {
    if k > 0 {
      RepeatedFields(k - 1);
      assert Repeated(k)[1..] == Repeated(k - 1);
      assert CompleteField(Field(0x80, [0x80, 0x00])) by {
        ShortFieldComplete(0x80, []);
        assert [0x80, 0] + [] == [0x80, 0x00];
      }
      hide CompleteField;
      forall tag: byte | tag != 0x80
        ensures Matching(Repeated(k), tag) == []
      {
        MatchingFirst(Repeated(k), tag);
      }
    }
  }

  /** What the server reads of a title made of such elements when the length octets wrap to the empty title. */
  function WrappedFields(k: nat): seq<Field> {
    [Field(CALLING_TITLE_TAG, [0xa6, 0x02, 0x04, 0x00])] + Repeated(k)
  }

  lemma WrappedFieldsComplete(k: nat)
    ensures CompleteFields(WrappedFields(k))
    ensures EmitFields(WrappedFields(k)) == P.Plain([0xa6, 0x02, 0x04, 0x00] + Pairs(k))
  {
    hide Pairs, Repeated, Matching;
    RepeatedFields(k);
    var fields := WrappedFields(k);
    assert fields[1..] == Repeated(k);
    assert CompleteField(fields[0]) by {
      ShortFieldComplete(CALLING_TITLE_TAG, [0x04, 0x00]);
      assert [CALLING_TITLE_TAG, 2] + [0x04, 0x00] == [0xa6, 0x02, 0x04, 0x00];
    }
    hide CompleteField;
    FirstField(fields);
  }

  lemma WrappedFieldsJudged(k: nat, o: ServerOptions, q: InitiateRequest)
    requires o.mode == NoAuthentication && q.version != 0 && q.maxPduSize != 0
    ensures Judge(o, Aarq(WrappedFields(k), q)) == Decoded(Ok, EmptyResult())
  {
    hide Pairs, Repeated, CompleteField, EmitFields;
    RepeatedFields(k);
    hide Matching;
    var fields := WrappedFields(k);
    assert fields[1..] == Repeated(k);
    MatchingFirst(fields, CALLING_TITLE_TAG);
    MatchingFirst(fields, REQUIREMENTS_TAG);
    MatchingFirst(fields, MECHANISM_TAG);
    MatchingFirst(fields, CALLING_VALUE_TAG);
    assert fields[0].encoded[4..] == [];
  }

  lemma WrappedRequest(c: ClientOptions, k: nat)
    requires ValidateClient(c) == Ok && c.mode == NoAuthentication && k == 128 && c.callingTitle == Pairs(k)
    ensures BuildAarq(c).Got?
    ensures DecodeAarq(BuildAarq(c).value) == P.Got(Aarq(WrappedFields(k), RequestOf(c)), [])
  {
    hide RequestOctets, ReadAarqBody, UserInformation, BuildAarq, DecodeAarq, WrappedFields, Pairs, CompleteField, EmitFields;
    var x := ValueOctets(CALLING_TITLE_TAG, OCTET_STRING_TAG, c.callingTitle);
    assert x == [0xa6, 0x02, 0x04, 0x00] + Pairs(k);
    hide ValueOctets;
    RequestSize(c);
    WrappedFieldsComplete(k);
    assert ClientFields(c) == [RawField(x)] && ClientFields(c.(callingTitle := [])) == [];
    FirstField(ClientFields(c));
    assert ClientFields(c)[1..] == [];
    EmitNoFields();
    assert x + [] == x;
    WrappedEncodes(c);
    BuiltRequest(c);
    AarqBodyRoundTrip([], WrappedFields(k), RequestOf(c));
    assert [] + WrappedFields(k) == WrappedFields(k);
  }

  /**
   A calling title of 256 octets with which both ends become associated although the
   server holds an empty calling title.
   */
  lemma WrappedTitle(c: ClientOptions, s: ServerOptions, client: Party, server: Party, k: nat)
    requires ValidateClient(c) == Ok && ValidateServer(s) == Ok
    requires c.mode == NoAuthentication == s.mode && k == 128 && c.callingTitle == Pairs(k)
    requires client.state == Open && server.state == Open
    ensures var e := Handshake(c, s, client, server);
      && e.client.state == Associated && e.server.state == Associated
      && e.server.result.callingTitle == [] != c.callingTitle
  {
    hide BuildAarq, BuildAare, DecodeAarq, DecodeReply, Judge, WrappedFields, Pairs;
    WrappedRequest(c, k);
    WrappedFieldsJudged(k, s, RequestOf(c));
    ReplyArrives(s);
  }

  lemma WrappedEncodes(c: ClientOptions)
    requires EmitFields(ClientFields(c)).fault == P.Ok && |EmitFields(ClientFields(c)).octets| <= 600
    ensures BuildAarq(c).Got?
  {
    RequestSize(c);
    hide RequestOctets, EmitFields, ClientFields, EncodeAssociation, RequestOf;
    AssociationEncodes(AARQ_TAG, ClientFields(c), RequestOctets(RequestOf(c)));
  }
}
