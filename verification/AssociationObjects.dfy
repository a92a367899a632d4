/**
 The association client and server as objects over a channel of APDUs.
 */
module AssociationObjects {
  import opened Bytes
  import opened Initiate
  import opened Acse
  import opened AcseCodec
  import S = Association
  import opened Association
  import P = Apdu

  /** A channel: the APDUs its receives will return, and those sent on it. */
  class ApduChannel {
    var incoming: seq<Octets>
    var outgoing: seq<Octets>

    constructor (incoming: seq<Octets>)
      ensures this.incoming == incoming && outgoing == []
    {
      this.incoming := incoming;
      outgoing := [];
    }

    function Next(): Option<Octets>
      reads this
    {
      if incoming == [] then None else Some(incoming[0])
    }

    method Send(apdu: Octets)
      modifies this`outgoing
      ensures outgoing == old(outgoing) + [apdu]
    {
      outgoing := outgoing + [apdu];
    }

    method Receive() returns (apdu: Option<Octets>)
      modifies this`incoming
      ensures apdu == old(Next())
      ensures incoming == if old(incoming) == [] then [] else old(incoming)[1..]
    {
      if incoming == [] {
        return None;
      }
      apdu := Some(incoming[0]);
      incoming := incoming[1..];
    }
  }

  /** The first responding title that can be read. */
  method FindRespondingTitle(fields: seq<Field>) returns (title: Octets)
    ensures title == RespondingTitle(fields)
  {
    hide DecodeValue;
    assert fields[0..] == fields;
    for i := 0 to |fields|
      invariant RespondingTitle(fields) == RespondingTitle(fields[i..])
    {
      assert fields[i..][0] == fields[i] && fields[i..][1..] == fields[i + 1..];
      if fields[i].tag == RESPONDING_TITLE_TAG || fields[i].tag == CALLING_TITLE_TAG {
        var decoded := DecodeValue(fields[i], fields[i].tag, OCTET_STRING_TAG);
        if decoded.Some? {
          return decoded.value;
        }
      }
    }
    return [];
  }

  class AssociationClient {
    const options: ClientOptions
    const channel: ApduChannel
    var state: AssociationState
    var result: AssociationResult

    function Value(): Party
      reads this
    {
      Party(state, result)
    }

    constructor (options: ClientOptions, channel: ApduChannel)
      ensures this.options == options && this.channel == channel
      ensures Value() == Party(Closed, EmptyResult())
    {
      this.options := options;
      this.channel := channel;
      state := Closed;
      result := EmptyResult();
    }

    method OpenChannel()
      modifies this
      ensures Value() == if old(state) != Closed then old(Value()) else Party(Open, EmptyResult())
    {
      if state == Closed {
        result := EmptyResult();
        state := Open;
      }
    }

    method DecodeAareReply(input: Octets) returns (status: AssociationStatus)
      requires result == EmptyResult()
      modifies this`result
      ensures Decoded(status, result) == DecodeReply(input)
    {
      hide DecodeAare, RespondingTitle;
      var decodeStatus, a := DecodeAareApdu(input);
      if decodeStatus != P.Ok {
        return DecodeFailed;
      }
      result := result.(aareResult := a.result, aareDiagnostic := a.diagnostic);
      if a.result.Some? && a.result.value != 0 {
        return AssociationRejected;
      }
      if a.initiate.version == 0 || a.initiate.maxPduSize == 0 {
        return NegotiationFailed;
      }
      var title := FindRespondingTitle(a.fields);
      result := result.(
        version := a.initiate.version, conformance := a.initiate.conformance,
        maxPduSize := a.initiate.maxPduSize, vaaName := a.initiate.vaaName, respondingTitle := title);
      return Ok;
    }

    /** Sends the AARQ and takes the next APDU of the channel as the answer. */
    method Establish() returns (status: AssociationStatus)
      modifies this, channel
      ensures var begun := EstablishBegin(options, old(Value()));
        if begun.status != Ok then
          Value() == begun.party && status == begun.status && channel.outgoing == old(channel.outgoing)
        else
          && begun.sent.Some? && channel.outgoing == old(channel.outgoing) + [begun.sent.value]
          && var end := EstablishEnd(begun.party, old(channel.Next()));
             Value() == end.party && status == end.status
    {
      hide EncodeAarq, ClientFields, DecodeReply;
      if state == Closed {
        return InvalidState;
      }
      if state == Associated {
        return AlreadyAssociated;
      }
      status := ValidateClient(options);
      if status != Ok {
        return status;
      }
      state := Associating;
      result := EmptyResult();
      var encodeStatus, aarq := EncodeAarqApdu(Aarq(ClientFields(options), RequestOf(options)), 2048);
      if encodeStatus != P.Ok {
        state := Open;
        return EncodeFailed;
      }
      channel.Send(aarq);
      var reply := channel.Receive();
      if reply.None? {
        state := Open;
        return ReceiveFailed;
      }
      status := DecodeAareReply(reply.value);
      if status != Ok {
        state := Open;
        return status;
      }
      state := Associated;
    }
  }

  /** The only field with a tag, if there is exactly one. */
  method FindSingleField(fields: seq<Field>, tag: byte) returns (found: bool, field: Field)
    ensures found == (|Matching(fields, tag)| == 1)
    ensures found ==> field == Matching(fields, tag)[0]
  {
    field := Field(tag, []);
    found := false;
    assert fields[0..] == fields;
    ghost var seen: seq<Field> := [];
    assert seen + Matching(fields, tag) == Matching(fields, tag);
    hide Matching;
    for i := 0 to |fields|
      invariant Matching(fields, tag) == seen + Matching(fields[i..], tag)
      invariant found == (seen != []) && |seen| <= 1 && (found ==> seen == [field])
    {
      MatchingFirst(fields[i..], tag);
      assert fields[i..][0] == fields[i] && fields[i..][1..] == fields[i + 1..];
      if fields[i].tag == tag {
        if found {
          assert |seen + ([fields[i]] + Matching(fields[i + 1..], tag))| >= 2;
          return false, field;
        }
        field := fields[i];
        found := true;
        assert seen + ([fields[i]] + Matching(fields[i + 1..], tag)) == [field] + Matching(fields[i + 1..], tag);
        seen := [field];
      } else {
        assert [] + Matching(fields[i + 1..], tag) == Matching(fields[i + 1..], tag);
      }
    }
    assert fields[|fields|..] == [];
    MatchingNone(tag);
  }

  /** The first field with a tag, if there is one. */
  method FindFirstField(fields: seq<Field>, tag: byte) returns (found: bool, field: Field)
    ensures found == (Matching(fields, tag) != [])
    ensures found ==> field == Matching(fields, tag)[0]
  {
    hide Matching;
    field := Field(tag, []);
    assert fields[0..] == fields;
    for i := 0 to |fields|
      invariant Matching(fields, tag) == Matching(fields[i..], tag)
    {
      MatchingFirst(fields[i..], tag);
      assert fields[i..][0] == fields[i] && fields[i..][1..] == fields[i + 1..];
      if fields[i].tag == tag {
        return true, fields[i];
      }
      assert [] + Matching(fields[i + 1..], tag) == Matching(fields[i + 1..], tag);
    }
    assert fields[|fields|..] == [];
    MatchingNone(tag);
    return false, field;
  }

  method ValidateLowLevelSecurityAarq(fields: seq<Field>, credential: Octets) returns (status: AssociationStatus)
    ensures status == ValidateLowLevel(fields, credential)
  {
    hide Matching, DecodeValue;
    var hasRequirements, requirements := FindSingleField(fields, REQUIREMENTS_TAG);
    if !hasRequirements {
      return UnsupportedAuthentication;
    }
    var hasMechanism, mechanism := FindSingleField(fields, MECHANISM_TAG);
    if !hasMechanism {
      return UnsupportedAuthentication;
    }
    var hasValue, value := FindSingleField(fields, CALLING_VALUE_TAG);
    if !hasValue {
      return UnsupportedAuthentication;
    }
    if requirements.encoded != RequirementsOctets() || mechanism.encoded != MechanismOctets() {
      return UnsupportedAuthentication;
    }
    var decoded := DecodeValue(value, CALLING_VALUE_TAG, CHARSTRING_TAG);
    if decoded.None? {
      return UnsupportedAuthentication;
    }
    return if decoded.value == credential then Ok else UnsupportedAuthentication;
  }

  class AssociationServer {
    const options: ServerOptions
    const channel: ApduChannel
    var state: AssociationState
    var result: AssociationResult

    function Value(): Party
      reads this
    {
      Party(state, result)
    }

    constructor (options: ServerOptions, channel: ApduChannel)
      ensures this.options == options && this.channel == channel
      ensures Value() == Party(Closed, EmptyResult())
    {
      this.options := options;
      this.channel := channel;
      state := Closed;
      result := EmptyResult();
    }

    method OpenChannel()
      modifies this
      ensures Value() == if old(state) != Closed then old(Value()) else Party(Open, EmptyResult())
    {
      if state == Closed {
        result := EmptyResult();
        state := Open;
      }
    }

    method DecodeAarqRequest(input: Octets) returns (status: AssociationStatus)
      requires result == EmptyResult()
      modifies this`result
      ensures Decoded(status, result) == DecodeRequest(options, input)
    {
      hide DecodeAarq, Matching, DecodeValue, ValidateLowLevel;
      var decodeStatus, a := DecodeAarqApdu(input);
      if decodeStatus != P.Ok {
        return DecodeFailed;
      }
      var requirements, _ := FindFirstField(a.fields, REQUIREMENTS_TAG);
      var mechanism, _ := FindFirstField(a.fields, MECHANISM_TAG);
      var value, _ := FindFirstField(a.fields, CALLING_VALUE_TAG);
      if options.mode == NoAuthentication && (requirements || mechanism || value) {
        return UnsupportedAuthentication;
      }
      var hasTitle, title := FindFirstField(a.fields, CALLING_TITLE_TAG);
      if hasTitle {
        var decoded := DecodeValue(title, CALLING_TITLE_TAG, OCTET_STRING_TAG);
        if decoded.None? {
          return DecodeFailed;
        }
        result := result.(callingTitle := decoded.value);
      }
      if options.mode == LowLevelSecurity {
        status := ValidateLowLevelSecurityAarq(a.fields, options.credential);
        if status != Ok {
          return status;
        }
      }
      if a.initiate.version == 0 || a.initiate.maxPduSize == 0 {
        return NegotiationFailed;
      }
      return Ok;
    }

    /** Takes the next APDU of the channel as the AARQ and answers it. */
    method AcceptRequest() returns (status: AssociationStatus)
      modifies this, channel
      ensures var call := Accept(options, old(Value()), old(channel.Next()));
        && Value() == call.party && status == call.status
        && channel.outgoing == old(channel.outgoing) + (if call.sent.Some? then [call.sent.value] else [])
    {
      hide EncodeAare, ServerFields, DecodeRequest;
      assert channel.outgoing + [] == channel.outgoing;
      if state == Closed {
        return InvalidState;
      }
      if state == Associated {
        return AlreadyAssociated;
      }
      status := ValidateServer(options);
      if status != Ok {
        return status;
      }
      state := Associating;
      result := EmptyResult();
      var request := channel.Receive();
      if request.None? {
        state := Open;
        return ReceiveFailed;
      }
      status := DecodeAarqRequest(request.value);
      if status != Ok {
        state := Open;
        return status;
      }
      var encodeStatus, aare := EncodeAareApdu(Aare(ServerFields(options), Some(0), Some(0x0e), ResponseOf(options)), 2048);
      if encodeStatus != P.Ok {
        state := Open;
        return EncodeFailed;
      }
      channel.Send(aare);
      result := AcceptedResult(options, result);
      state := Associated;
    }
  }
}
