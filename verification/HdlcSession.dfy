/**
 The HDLC session: connection and disconnection, parameter negotiation, and the
 three-bit sequence numbers of the sliding window. The transitions are functions on
 values; the class updates the same fields in place.
 */
module HdlcSession {
  import opened Bytes
  import opened HdlcTypes
  import opened HdlcCodec
  import opened HdlcNegotiation

  datatype Role = Client | Server

  datatype LinkState = Disconnected | AwaitingConnection | Connected | AwaitingDisconnect

  /** A three-bit sequence number. */
  type Sequence = x: int | 0 <= x < 8

  datatype Options = Options(
    role: Role,
    clientAddress: HdlcAddress,
    serverAddress: HdlcAddress,
    limits: CodecLimits,
    negotiation: Limits)

  /** What an SNRM with a parameter block asked for, until it is answered. */
  datatype Proposal = NoProposal | Proposal(params: Params)

  datatype Session = Session(
    options: Options,
    state: LinkState,
    sendSequence: Sequence,
    receiveSequence: Sequence,
    acknowledgeSequence: Sequence,
    connectResponsePending: bool,
    disconnectResponsePending: bool,
    dmResponsePending: bool,
    proposal: Proposal,
    negotiated: Limits,
    windowSizeTransmit: byte,
    userInformation: Octets)

  /** A new endpoint, with zero limits replaced by the protocol defaults. */
  function NewSession(o: Options): Session {
    var local := Normalise(o.negotiation);
    Session(
      o.(negotiation := local), Disconnected, 0, 0, 0, false, false, false,
      NoProposal, local, local.transmitWindow, [])
  }

  function LocalAddress(o: Options): HdlcAddress {
    if o.role == Client then o.clientAddress else o.serverAddress
  }

  function RemoteAddress(o: Options): HdlcAddress {
    if o.role == Client then o.serverAddress else o.clientAddress
  }

  // ---- Sequence numbers and control fields ----

  function NextSequence(s: Sequence): Sequence {
    (s + 1) % 8
  }

  /** How far `to` is ahead of `from`, modulo 8. */
  function Ahead(to: Sequence, from: Sequence): Sequence {
    (to - from) % 8
  }

  function InformationControl(send: Sequence, receive: Sequence, pollFinal: bool): (c: HdlcControl)
    ensures KindOf(c) == Information && SendSequenceOf(c) == send && ReceiveSequenceOf(c) == receive
    ensures PollFinal(c) == pollFinal
  {
    var high := 2 * receive + (if pollFinal then 1 else 0);
    assert (16 * high + 2 * send) / 2 == 8 * high + send;
    assert (16 * high + 2 * send) / 16 == high;
    16 * high + 2 * send
  }

  function ReceiveReadyControl(receive: Sequence, pollFinal: bool): (c: HdlcControl)
    ensures KindOf(c) == Supervisory && c % 16 == 1 && ReceiveSequenceOf(c) == receive
    ensures PollFinal(c) == pollFinal
  {
    var c := 32 * receive + (if pollFinal then 17 else 1);
    assert c % 16 == 1 && c / 32 == receive;
    c
  }

  const SNRM_CONTROL: HdlcControl := 0x93
  const UA_CONTROL: HdlcControl := 0x73
  const DISC_CONTROL: HdlcControl := 0x53
  const DM_CONTROL: HdlcControl := 0x1f

  predicate CanSendInformation(s: Session) {
    Ahead(s.sendSequence, s.acknowledgeSequence) < s.windowSizeTransmit
  }

  /** An acknowledgement lies between the last one and what was sent, modulo 8. */
  predicate AcknowledgementInWindow(s: Session, nr: Sequence) {
    Ahead(nr, s.acknowledgeSequence) <= Ahead(s.sendSequence, s.acknowledgeSequence)
  }

  // ---- Transitions ----

  datatype Outcome = Outcome(next: Session, status: HdlcStatus, output: Octets)

  function BuiltFrame(o: Options, control: HdlcControl, information: Octets): HdlcFrame {
    HdlcFrame(false, RemoteAddress(o), LocalAddress(o), control, information)
  }

  function Built(o: Options, control: HdlcControl, information: Octets): Result<Octets> {
    EncodeFrame(BuiltFrame(o, control, information), o.limits)
  }

  function WithSequences(s: Session, send: Sequence, receive: Sequence, acknowledge: Sequence): Session {
    s.(sendSequence := send, receiveSequence := receive, acknowledgeSequence := acknowledge)
  }

  /** The session after a build that succeeded, or the session it started from. */
  function Finish(before: Session, r: Result<Octets>, after: Session): Outcome {
    match r
    case Good(x) => Outcome(after, Ok, x)
    case Bad(s) => Outcome(before, s, [])
  }

  function ProposedParams(l: Limits): Params {
    Params(l.transmitLength, l.receiveLength, l.transmitWindow, l.receiveWindow)
  }

  function ConnectRequest(s: Session, includeNegotiation: bool, user: Octets): Outcome {
    if s.options.role != Client then Outcome(s, UnsupportedFeature, [])
    else if s.state != Disconnected then Outcome(s, UnsupportedFrame, [])
    else
      var block := if includeNegotiation then Block(ProposedParams(s.options.negotiation)) else [];
      Finish(s, Built(s.options, SNRM_CONTROL, block + user),
        WithSequences(s, 0, 0, 0).(state := AwaitingConnection))
  }

  /** The server takes over what it is about to confirm before it builds the UA. */
  function Adopt(s: Session, n: Params): Session {
    s.(negotiated := Limits(n.maxInfoRx, n.maxInfoTx, n.windowRx % 256, n.windowTx % 256),
       options := s.options.(limits := s.options.limits.(maximumInformationFieldSize := n.maxInfoRx)),
       windowSizeTransmit := n.windowRx % 256)
  }

  function ConnectResponse(s: Session): Outcome {
    if s.options.role != Server then Outcome(s, UnsupportedFeature, [])
    else if !s.connectResponsePending then Outcome(s, UnsupportedFrame, [])
    else
      var n := if s.proposal.NoProposal? then DEFAULT_PARAMS else Negotiate(s.proposal.params, s.options.negotiation);
      var adopted := if s.proposal.NoProposal? then s else Adopt(s, n);
      var information := if s.proposal.NoProposal? then [] else Block(n);
      Finish(adopted, Built(adopted.options, UA_CONTROL, information),
        WithSequences(adopted, 0, 0, 0).(state := Connected, connectResponsePending := false, proposal := NoProposal))
  }

  function DisconnectRequest(s: Session, user: Octets): Outcome {
    if s.state != Connected then Outcome(s, UnsupportedFrame, [])
    else Finish(s, Built(s.options, DISC_CONTROL, user), s.(state := AwaitingDisconnect))
  }

  function DisconnectResponse(s: Session): Outcome {
    if !s.disconnectResponsePending then Outcome(s, UnsupportedFrame, [])
    else Finish(s, Built(s.options, UA_CONTROL, []),
      WithSequences(s, 0, 0, 0).(state := Disconnected, disconnectResponsePending := false))
  }

  function DmResponse(s: Session): Outcome {
    if !s.dmResponsePending then Outcome(s, UnsupportedFrame, [])
    else Finish(s, Built(s.options, DM_CONTROL, []), s.(dmResponsePending := false))
  }

  function InformationRequest(s: Session, information: Octets, pollFinal: bool): Outcome {
    if s.state != Connected || !CanSendInformation(s) then Outcome(s, UnsupportedFrame, [])
    else Finish(s, Built(s.options, InformationControl(s.sendSequence, s.receiveSequence, pollFinal), information),
      s.(sendSequence := NextSequence(s.sendSequence)))
  }

  function ReceiveReadyRequest(s: Session, pollFinal: bool): Outcome {
    if s.state != Connected then Outcome(s, UnsupportedFrame, [])
    else Finish(s, Built(s.options, ReceiveReadyControl(s.receiveSequence, pollFinal), []), s)
  }

  function ReceiveInformation(s: Session, f: HdlcFrame): Outcome {
    var nr := ReceiveSequenceOf(f.control);
    if s.state != Connected then Outcome(s, UnsupportedFrame, [])
    else if SendSequenceOf(f.control) != s.receiveSequence then Outcome(s, InvalidControlField, [])
    else if !AcknowledgementInWindow(s, nr) then Outcome(s, InvalidControlField, [])
    else Outcome(s.(acknowledgeSequence := nr, receiveSequence := NextSequence(s.receiveSequence)), Ok, [])
  }

  function ReceiveSupervisory(s: Session, f: HdlcFrame): Outcome {
    var nr := ReceiveSequenceOf(f.control);
    if s.state != Connected then Outcome(s, UnsupportedFrame, [])
    else if !AcknowledgementInWindow(s, nr) then Outcome(s, InvalidControlField, [])
    else Outcome(s.(acknowledgeSequence := nr), Ok, [])
  }

  function ReceiveSnrm(s: Session, f: HdlcFrame): Outcome {
    if s.options.role != Server || s.state != Disconnected then Outcome(s, UnsupportedFrame, [])
    else
      var cleared := s.(userInformation := [], proposal := NoProposal);
      match ParseInfoField(f.information)
      case Bad(e) => Outcome(cleared.(dmResponsePending := true), e, [])
      case Good(p) =>
        Outcome(WithSequences(cleared, 0, 0, 0).(
          proposal := if p.consumed > 0 then Proposal(p.params) else NoProposal,
          userInformation := if p.consumed < |f.information| then f.information[p.consumed..] else [],
          connectResponsePending := true), Ok, [])
  }

  /** The client takes over what the server confirmed. */
  function Confirm(s: Session, n: Params): Session {
    s.(negotiated := Limits(n.maxInfoTx, n.maxInfoRx, n.windowTx % 256, n.windowRx % 256),
       options := s.options.(limits := s.options.limits.(maximumInformationFieldSize := n.maxInfoTx)),
       windowSizeTransmit := n.windowTx % 256)
  }

  function ReceiveUa(s: Session, f: HdlcFrame): Outcome {
    match s.state
    case AwaitingConnection =>
      var parsed := ParseInfoField(f.information);
      var confirmed := if parsed.Good? && parsed.value.consumed > 0 then Confirm(s, parsed.value.params) else s;
      Outcome(WithSequences(confirmed, 0, 0, 0).(state := Connected), Ok, [])
    case AwaitingDisconnect =>
      Outcome(WithSequences(s, 0, 0, 0).(state := Disconnected), Ok, [])
    case _ => Outcome(s, UnsupportedFrame, [])
  }

  function ReceiveUnnumbered(s: Session, f: HdlcFrame): Outcome
    requires KindOf(f.control) == Unnumbered
  {
    match UnnumberedKindOf(f.control)
    case Snrm => ReceiveSnrm(s, f)
    case Ua => ReceiveUa(s, f)
    case Disc =>
      if s.state != Connected then Outcome(s, UnsupportedFrame, [])
      else Outcome(s.(userInformation := f.information, disconnectResponsePending := true), Ok, [])
    case Dm => Outcome(WithSequences(s, 0, 0, 0).(state := Disconnected), Ok, [])
    case _ => Outcome(s, UnsupportedFrame, [])
  }

  function ReceiveFrame(s: Session, f: HdlcFrame): Outcome {
    if f.destination != LocalAddress(s.options) || f.source != RemoteAddress(s.options) then
      Outcome(s, InvalidAddress, [])
    else
      match KindOf(f.control)
      case Information => ReceiveInformation(s, f)
      case Supervisory => ReceiveSupervisory(s, f)
      case Unnumbered => ReceiveUnnumbered(s, f)
  }

  // ---- Every run keeps the session consistent ----

  datatype Event =
    | DoConnectRequest(includeNegotiation: bool, user: Octets)
    | DoConnectResponse
    | DoDisconnectRequest(user: Octets)
    | DoDisconnectResponse
    | DoDmResponse
    | DoInformation(information: Octets, pollFinal: bool)
    | DoReceiveReady(pollFinal: bool)
    | DoReceive(frame: HdlcFrame)

  function Apply(s: Session, e: Event): Outcome {
    match e
    case DoConnectRequest(n, u) => ConnectRequest(s, n, u)
    case DoConnectResponse => ConnectResponse(s)
    case DoDisconnectRequest(u) => DisconnectRequest(s, u)
    case DoDisconnectResponse => DisconnectResponse(s)
    case DoDmResponse => DmResponse(s)
    case DoInformation(i, p) => InformationRequest(s, i, p)
    case DoReceiveReady(p) => ReceiveReadyRequest(s, p)
    case DoReceive(f) => ReceiveFrame(s, f)
  }

  function ApplyAll(s: Session, events: seq<Event>): Session {
    if events == [] then s
    else Apply(ApplyAll(s, events[..|events| - 1]), events[|events| - 1]).next
  }

  predicate Consistent(s: Session) {
    && (s.state in {Disconnected, AwaitingConnection} ==>
          s.sendSequence == 0 && s.receiveSequence == 0 && s.acknowledgeSequence == 0)
    && (s.state == AwaitingConnection ==> s.options.role == Client)
    && (s.connectResponsePending ==> s.options.role == Server && s.state == Disconnected)
    && Ahead(s.sendSequence, s.acknowledgeSequence) <= s.windowSizeTransmit
  }

  /** What no call ever changes. */
  predicate SameIdentity(s: Session, t: Session) {
    && s.options.role == t.options.role
    && s.options.clientAddress == t.options.clientAddress
    && s.options.serverAddress == t.options.serverAddress
    && s.options.negotiation == t.options.negotiation
    && s.options.limits.maximumFrameSize == t.options.limits.maximumFrameSize
  }

  lemma AheadFacts(send: Sequence, acknowledged: Sequence)
    ensures Ahead(acknowledged, acknowledged) == 0
    ensures Ahead(NextSequence(send), acknowledged) <= Ahead(send, acknowledged) + 1
  {
  }

  lemma AcknowledgeShrinks(send: Sequence, nr: Sequence, acknowledged: Sequence)
    requires Ahead(nr, acknowledged) <= Ahead(send, acknowledged)
    ensures Ahead(send, nr) <= Ahead(send, acknowledged)
  {
  }

  lemma ReceiveConsistent(s: Session, f: HdlcFrame)
    requires Consistent(s)
    ensures Consistent(ReceiveFrame(s, f).next) && SameIdentity(s, ReceiveFrame(s, f).next)
  {
    hide ParseInfoField, Ahead, NextSequence, LegalAddress, LegalControl, WithoutPollFinal;
    AheadFacts(s.sendSequence, 0);
    if KindOf(f.control) != Unnumbered && AcknowledgementInWindow(s, ReceiveSequenceOf(f.control)) {
      AcknowledgeShrinks(s.sendSequence, ReceiveSequenceOf(f.control), s.acknowledgeSequence);
    }
  }

  lemma BuildConsistent(s: Session, e: Event)
    requires Consistent(s) && !e.DoReceive?
    ensures Consistent(Apply(s, e).next) && SameIdentity(s, Apply(s, e).next)
  {
    hide Built, Block, Negotiate, Ahead, NextSequence, LegalAddress, InformationControl, ReceiveReadyControl;
    AheadFacts(s.sendSequence, 0);
    AheadFacts(s.sendSequence, s.acknowledgeSequence);
  }

  lemma StepConsistent(s: Session, e: Event)
    requires Consistent(s)
    ensures Consistent(Apply(s, e).next) && SameIdentity(s, Apply(s, e).next)
  {
    hide ReceiveFrame, Consistent;
    if e.DoReceive? {
      ReceiveConsistent(s, e.frame);
    } else {
      BuildConsistent(s, e);
    }
  }

  /** Every run of builds and arbitrary received frames leaves a consistent session. */
  lemma {:induction false} RunConsistent(o: Options, events: seq<Event>)
    ensures Consistent(ApplyAll(NewSession(o), events))
    ensures SameIdentity(NewSession(o), ApplyAll(NewSession(o), events))
  {
    hide Apply;
    if events != [] {
      RunConsistent(o, events[..|events| - 1]);
      StepConsistent(ApplyAll(NewSession(o), events[..|events| - 1]), events[|events| - 1]);
    }
  }

  /** A call that fails builds nothing and leaves the state and the sequence variables alone. */
  lemma FailureKeepsLink(s: Session, e: Event)
    requires Apply(s, e).status != Ok
    ensures var t := Apply(s, e);
      && t.output == []
      && t.next.state == s.state
      && t.next.sendSequence == s.sendSequence
      && t.next.receiveSequence == s.receiveSequence
      && t.next.acknowledgeSequence == s.acknowledgeSequence
  {
    hide Built, ParseInfoField, Block, Negotiate, Ahead, NextSequence, LegalAddress, WithoutPollFinal;
  }
}
