/**
 The SNRM/UA exchange between two fresh sessions, with and without the parameter block:
 which limits each end is left with, and when the two ends agree.
 */
module HdlcHandshake {
  import opened Bytes
  import opened HdlcTypes
  import opened HdlcCodec
  import opened HdlcNegotiation
  import opened HdlcSession

  /** The default codec limits, whatever may be reassembled. */
  predicate StackLimits(l: CodecLimits) {
    l.maximumFrameSize == DEFAULT_LIMITS.maximumFrameSize
    && l.maximumInformationFieldSize == DEFAULT_LIMITS.maximumInformationFieldSize
  }

  /** A client and a server configured for each other. */
  predicate Paired(co: Options, so: Options) {
    && co.role == Client && so.role == Server
    && co.clientAddress == so.clientAddress && co.serverAddress == so.serverAddress
    && StackLimits(co.limits) && StackLimits(so.limits)
    && co.negotiation.transmitLength <= 65535 && co.negotiation.receiveLength <= 65535
  }

  /** Each direction limited by its sender's transmit and its receiver's receive capability, seen by the client. */
  function AgreedLimits(co: Options, so: Options): Limits {
    var c, s := Normalise(co.negotiation), Normalise(so.negotiation);
    Limits(
      Min(c.transmitLength, s.receiveLength), Min(c.receiveLength, s.transmitLength),
      Min(c.transmitWindow, s.receiveWindow), Min(c.receiveWindow, s.transmitWindow))
  }

  /** The same agreement seen from the other end. */
  function Mirrored(l: Limits): Limits {
    Limits(l.receiveLength, l.transmitLength, l.receiveWindow, l.transmitWindow)
  }

  /** What the client is left with: the agreement if its SNRM carried the block, its own limits otherwise. */
  function ClientLimits(co: Options, so: Options, negotiate: bool): Limits {
    if negotiate then AgreedLimits(co, so) else Normalise(co.negotiation)
  }

  function ServerLimits(co: Options, so: Options, negotiate: bool): Limits {
    if negotiate then Mirrored(AgreedLimits(co, so)) else Normalise(so.negotiation)
  }

  function Request(co: Options, negotiate: bool, user: Octets): Outcome {
    ConnectRequest(NewSession(co), negotiate, user)
  }

  /** User information comes with the block only; a plain SNRM is empty. */
  predicate Sendable(negotiate: bool, user: Octets) {
    negotiate || user == []
  }

  /** A plain connect leaves the block out exactly when the limits are the defaults. */
  function CarriesBlock(co: Options): bool {
    Normalise(co.negotiation) != DEFAULT_NEGOTIATION
  }

  /** The server session after it received the request. */
  function Received(so: Options, request: Octets): Outcome {
    match DecodeFrame(request, so.limits)
    case Good(f) => ReceiveFrame(NewSession(so), f)
    case Bad(s) => Outcome(NewSession(so), s, [])
  }

  /** The client session after it received the answer, read under the limits it started with. */
  function Confirmed(co: Options, client: Session, response: Octets): Outcome {
    match DecodeFrame(response, co.limits)
    case Good(f) => ReceiveFrame(client, f)
    case Bad(s) => Outcome(client, s, [])
  }

  lemma BuiltDecodes(o: Options, control: HdlcControl, information: Octets, limits: CodecLimits)
    requires Encodable(BuiltFrame(o, control, information), limits) == Ok
    requires Encodable(BuiltFrame(o, control, information), o.limits) == Ok
    ensures Built(o, control, information).Good?
    ensures DecodeFrame(Built(o, control, information).value, limits) == Good(BuiltFrame(o, control, information))
  {
    hide FrameOctets, DecodeFrame, Encodable;
    DecodeInvertsEncode(BuiltFrame(o, control, information), limits);
  }

  lemma SameEncodable(f: HdlcFrame, a: CodecLimits, b: CodecLimits)
    requires StackLimits(a) && StackLimits(b)
    ensures Encodable(f, a) == Encodable(f, b)
  {
  }

  /** A frame without information always fits. */
  lemma EmptyEncodes(f: HdlcFrame, limits: CodecLimits)
    requires f.information == [] && StackLimits(limits)
    ensures Encodable(f, limits) == Ok
  {
    HeaderSizeBound(f.destination, f.source);
  }

  /** The server receives the proposal, if there is one, and the user information. */
  lemma RequestArrives(co: Options, so: Options, negotiate: bool, user: Octets)
    requires Paired(co, so) && Sendable(negotiate, user)
    requires Request(co, negotiate, user).status == Ok
    ensures var c := ProposedParams(Normalise(co.negotiation));
      Received(so, Request(co, negotiate, user).output) ==
      Outcome(NewSession(so).(
        proposal := if negotiate then Proposal(c) else NoProposal,
        userInformation := user, connectResponsePending := true), Ok, [])
  {
    hide FrameOctets, DecodeFrame, Encodable, Block, ParseInfoField, Normalise, LegalAddress;
    var c := NewSession(co);
    var block := if negotiate then Block(ProposedParams(c.options.negotiation)) else [];
    ProposalFits(co);
    SameEncodable(BuiltFrame(c.options, SNRM_CONTROL, block + user), co.limits, so.limits);
    BuiltDecodes(c.options, SNRM_CONTROL, block + user, so.limits);
    assert UnnumberedKindOf(SNRM_CONTROL) == Snrm;
    if negotiate {
      BlockRoundTrip(ProposedParams(c.options.negotiation), user);
      assert (block + user)[23..] == user;
      if user == [] {
        assert block + user == block;
      }
    } else {
      NoBlock();
      assert block + user == [];
    }
  }

  lemma NoBlock()
    ensures ParseInfoField([]) == Good(Parsed(DEFAULT_PARAMS, 0))
  {
  }

  lemma ProposalFits(co: Options)
    requires co.negotiation.transmitLength <= 65535 && co.negotiation.receiveLength <= 65535
    ensures var p := ProposedParams(Normalise(co.negotiation));
      p.maxInfoTx < 65536 && p.maxInfoRx < 65536 && p.windowTx < 256 && p.windowRx < 256
  {
  }

  /** A plain SNRM can always be built. */
  lemma PlainRequestBuilt(co: Options)
    requires co.role == Client && StackLimits(co.limits)
    ensures Request(co, false, []).status == Ok
  {
    hide FrameOctets, Encodable, LegalAddress;
    var o := NewSession(co).options;
    var nothing: Octets := [];
    assert nothing + nothing == nothing;
    EmptyEncodes(BuiltFrame(o, SNRM_CONTROL, nothing), o.limits);
  }

  /** What the server is about to confirm, as parameters. */
  function AgreedParams(co: Options, so: Options): Params {
    var l := AgreedLimits(co, so);
    Params(l.transmitLength, l.receiveLength, l.transmitWindow, l.receiveWindow)
  }

  lemma AgreedIsNegotiated(co: Options, so: Options)
    ensures Negotiate(ProposedParams(Normalise(co.negotiation)), Normalise(so.negotiation)) == AgreedParams(co, so)
  {
  }

  /** Sequence numbers start at zero, and only the length of the information field was adapted, if anything. */
  predicate JustConnected(s: Session, before: Session, length: nat) {
    && s.state == Connected
    && s.sendSequence == 0 && s.receiveSequence == 0 && s.acknowledgeSequence == 0
    && s.options == before.options.(limits := before.options.limits.(maximumInformationFieldSize := length))
  }

  /** The information field of the UA. */
  function ConfirmingBlock(co: Options, so: Options, negotiate: bool): Octets {
    if negotiate then Block(AgreedParams(co, so)) else []
  }

  /** The length the codec of an end is limited to after the exchange; zero leaves the default. */
  function CodecLength(l: Limits, negotiate: bool): nat {
    if negotiate then l.transmitLength else 0
  }

  /** The answer can be built exactly when there is no block to confirm or the negotiated length leaves room for it. */
  lemma ResponseExact(co: Options, so: Options, negotiate: bool, user: Octets)
    requires Paired(co, so) && Sendable(negotiate, user)
    requires Request(co, negotiate, user).status == Ok
    ensures var response := ConnectResponse(Received(so, Request(co, negotiate, user).output).next);
      var limits := ServerLimits(co, so, negotiate);
      && (response.status == Ok <==> (negotiate ==> AgreedLimits(co, so).receiveLength >= 23))
      && (response.status == Ok ==>
            && JustConnected(response.next, NewSession(so), CodecLength(limits, negotiate))
            && response.next.negotiated == limits
            && response.next.windowSizeTransmit == limits.transmitWindow
            && response.next.userInformation == user
            && DecodeFrame(response.output, co.limits)
               == Good(BuiltFrame(NewSession(so).options, UA_CONTROL, ConfirmingBlock(co, so, negotiate))))
      && (response.status != Ok ==>
            response.status == InformationFieldTooLarge && response.next.state == Disconnected && response.output == [])
  {
    hide Received, Request;
    RequestArrives(co, so, negotiate, user);
    if negotiate {
      BlockResponse(co, so, user);
    } else {
      PlainResponse(co, so);
    }
  }

  /** The server session that waits for its answer. */
  function Asked(co: Options, so: Options, negotiate: bool, user: Octets): Session {
    NewSession(so).(
      proposal := if negotiate then Proposal(ProposedParams(Normalise(co.negotiation))) else NoProposal,
      userInformation := user, connectResponsePending := true)
  }

  lemma BlockResponse(co: Options, so: Options, user: Octets)
    requires Paired(co, so)
    ensures var response := ConnectResponse(Asked(co, so, true, user));
      var agreed := AgreedLimits(co, so);
      && (response.status == Ok <==> agreed.receiveLength >= 23)
      && (response.status == Ok ==>
            && JustConnected(response.next, NewSession(so), agreed.receiveLength)
            && response.next.negotiated == Mirrored(agreed)
            && response.next.windowSizeTransmit == agreed.receiveWindow
            && response.next.userInformation == user
            && DecodeFrame(response.output, co.limits)
               == Good(BuiltFrame(NewSession(so).options, UA_CONTROL, Block(AgreedParams(co, so)))))
      && (response.status != Ok ==>
            response.status == InformationFieldTooLarge && response.next.state == Disconnected && response.output == [])
  {
    hide FrameOctets, DecodeFrame, Block, ParseInfoField, Normalise, LegalAddress, Negotiate;
    AgreedIsNegotiated(co, so);
    var n := AgreedParams(co, so);
    var o := Adopt(Asked(co, so, true, user), n).options;
    HeaderSizeBound(o.clientAddress, o.serverAddress);
    HeaderSizeBound(o.serverAddress, o.clientAddress);
    if n.maxInfoRx >= 23 {
      BuiltDecodes(o, UA_CONTROL, Block(n), co.limits);
    }
  }

  lemma PlainResponse(co: Options, so: Options)
    requires Paired(co, so)
    ensures var response := ConnectResponse(Asked(co, so, false, []));
      && response.status == Ok
      && JustConnected(response.next, NewSession(so), 0)
      && response.next.negotiated == Normalise(so.negotiation)
      && response.next.windowSizeTransmit == Normalise(so.negotiation).transmitWindow
      && response.next.userInformation == []
      && DecodeFrame(response.output, co.limits) == Good(BuiltFrame(NewSession(so).options, UA_CONTROL, []))
  {
    hide FrameOctets, DecodeFrame, Encodable, Block, ParseInfoField, Normalise, LegalAddress, Negotiate;
    var o := NewSession(so).options;
    EmptyEncodes(BuiltFrame(o, UA_CONTROL, []), co.limits);
    EmptyEncodes(BuiltFrame(o, UA_CONTROL, []), o.limits);
    BuiltDecodes(o, UA_CONTROL, [], co.limits);
  }

  lemma ClientConfirms(co: Options, so: Options, negotiate: bool, user: Octets)
    requires Paired(co, so) && Request(co, negotiate, user).status == Ok
    ensures var c := ReceiveFrame(
        Request(co, negotiate, user).next,
        BuiltFrame(NewSession(so).options, UA_CONTROL, ConfirmingBlock(co, so, negotiate)));
      var limits := ClientLimits(co, so, negotiate);
      && c.status == Ok
      && JustConnected(c.next, NewSession(co), CodecLength(limits, negotiate))
      && c.next.negotiated == limits && c.next.windowSizeTransmit == limits.transmitWindow
  {
    hide FrameOctets, Block, ParseInfoField, Normalise, LegalAddress, Built, AgreedLimits;
    assert UnnumberedKindOf(UA_CONTROL) == Ua;
    if negotiate {
      var n := AgreedParams(co, so);
      AgreedFits(co, so);
      BlockRoundTrip(n, []);
      assert Block(n) + [] == Block(n);
    } else {
      NoBlock();
    }
  }

  /**
   With the block both ends come out connected and hold the same limits, each the minimum
   of what its two ends can do, exactly when the agreed length for the server is at least
   the 23 octets of its answer; user information arrives unchanged. Without the block
   both ends always connect and each keeps its own limits. A server that cannot answer
   stays disconnected and sends nothing.
   */
  lemma NegotiationAgreement(co: Options, so: Options, negotiate: bool, user: Octets)
    requires Paired(co, so) && Sendable(negotiate, user)
    requires Request(co, negotiate, user).status == Ok
    ensures var received := Received(so, Request(co, negotiate, user).output);
      var response := ConnectResponse(received.next);
      var confirmed := Confirmed(co, Request(co, negotiate, user).next, response.output);
      && received.status == Ok && received.next.userInformation == user
      && (response.status == Ok <==> (negotiate ==> AgreedLimits(co, so).receiveLength >= 23))
      && (response.status == Ok ==>
            && confirmed.status == Ok
            && confirmed.next.negotiated == ClientLimits(co, so, negotiate)
            && response.next.negotiated == ServerLimits(co, so, negotiate)
            && confirmed.next.windowSizeTransmit == ClientLimits(co, so, negotiate).transmitWindow
            && response.next.windowSizeTransmit == ServerLimits(co, so, negotiate).transmitWindow
            && JustConnected(confirmed.next, NewSession(co), CodecLength(ClientLimits(co, so, negotiate), negotiate))
            && JustConnected(response.next, NewSession(so), CodecLength(ServerLimits(co, so, negotiate), negotiate)))
      && (response.status != Ok ==> response.next.state == Disconnected && response.output == [])
  {
    hide DecodeFrame, Request, Received, ConnectResponse, ReceiveFrame, ConfirmingBlock, ClientLimits, ServerLimits;
    RequestArrives(co, so, negotiate, user);
    ResponseExact(co, so, negotiate, user);
    ClientConfirms(co, so, negotiate, user);
  }

  /** The two ends hold the same limits exactly when the block was carried or their own limits match. */
  lemma LimitsAgreeExact(co: Options, so: Options, negotiate: bool)
    ensures ClientLimits(co, so, negotiate) == Mirrored(ServerLimits(co, so, negotiate)) <==>
      negotiate || Normalise(co.negotiation) == Mirrored(Normalise(so.negotiation))
  {
    hide Normalise;
  }

  /**
   What a plain connect brings about: the SNRM carries the block unless the client's
   limits are the defaults, and the two ends then hold the same limits exactly when the
   client's limits are not the defaults or the server's are.
   */
  lemma PlainConnectAgreement(co: Options, so: Options)
    requires Paired(co, so)
    requires Request(co, CarriesBlock(co), []).status == Ok
    ensures var negotiate := CarriesBlock(co);
      var response := ConnectResponse(Received(so, Request(co, negotiate, []).output).next);
      var confirmed := Confirmed(co, Request(co, negotiate, []).next, response.output);
      response.status == Ok ==>
        (confirmed.next.negotiated == Mirrored(response.next.negotiated) <==>
         Normalise(co.negotiation) != DEFAULT_NEGOTIATION || Normalise(so.negotiation) == DEFAULT_NEGOTIATION)
  {
    hide Request, Received, ConnectResponse, Confirmed, ClientLimits, ServerLimits, Normalise;
    NegotiationAgreement(co, so, CarriesBlock(co), []);
    LimitsAgreeExact(co, so, CarriesBlock(co));
  }

  lemma AgreedFits(co: Options, so: Options)
    requires co.negotiation.transmitLength <= 65535 && co.negotiation.receiveLength <= 65535
    ensures var p := AgreedParams(co, so);
      p.maxInfoTx < 65536 && p.maxInfoRx < 65536 && p.windowTx < 256 && p.windowRx < 256
  {
  }
}
