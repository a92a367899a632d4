/**
 The session as an object whose methods update its fields in place, each proved to
 perform the transition of the same name.
 */
module HdlcSessionObject {
  import opened Bytes
  import opened HdlcTypes
  import opened HdlcCodec
  import opened HdlcNegotiation
  import S = HdlcSession
  import opened HdlcSession

  class HdlcSessionEndpoint {
    var options: Options
    var state: LinkState
    var sendSequence: Sequence
    var receiveSequence: Sequence
    var acknowledgeSequence: Sequence
    var connectResponsePending: bool
    var disconnectResponsePending: bool
    var dmResponsePending: bool
    var proposal: Proposal
    var negotiated: Limits
    var windowSizeTransmit: byte
    var userInformation: Octets

    function Value(): Session
      reads this
    {
      Session(
        options, state, sendSequence, receiveSequence, acknowledgeSequence,
        connectResponsePending, disconnectResponsePending, dmResponsePending,
        proposal, negotiated, windowSizeTransmit, userInformation)
    }

    constructor (o: Options)
      ensures Value() == NewSession(o)
      ensures Consistent(Value())
    {
      var local := o.negotiation;
      if local.transmitLength == 0 {
        local := local.(transmitLength := 128);
      }
      if local.receiveLength == 0 {
        local := local.(receiveLength := 128);
      }
      if local.transmitWindow == 0 {
        local := local.(transmitWindow := 1);
      }
      if local.receiveWindow == 0 {
        local := local.(receiveWindow := 1);
      }
      options := o.(negotiation := local);
      state := Disconnected;
      sendSequence, receiveSequence, acknowledgeSequence := 0, 0, 0;
      connectResponsePending, disconnectResponsePending, dmResponsePending := false, false, false;
      proposal := NoProposal;
      negotiated := local;
      windowSizeTransmit := local.transmitWindow;
      userInformation := [];
    }

    method CanSendInformationFrame() returns (can: bool)
      ensures can == CanSendInformation(Value())
    {
      var outstanding := (sendSequence - acknowledgeSequence) % 8;
      can := outstanding < windowSizeTransmit;
    }

    method BuildFrame(control: HdlcControl, information: Octets) returns (status: HdlcStatus, output: Octets)
      ensures match Built(options, control, information)
              case Good(x) => status == Ok && output == x
              case Bad(s) => status == s && output == []
    {
      hide FrameOctets;
      status, output := EncodeFrameToVector(BuiltFrame(options, control, information), options.limits);
    }

    method ResetSequences()
      modifies this`sendSequence, this`receiveSequence, this`acknowledgeSequence
      ensures sendSequence == 0 && receiveSequence == 0 && acknowledgeSequence == 0
    {
      sendSequence := 0;
      receiveSequence := 0;
      acknowledgeSequence := 0;
    }

    method BuildConnectRequest(includeNegotiation: bool, user: Octets) returns (status: HdlcStatus, output: Octets)
      modifies this
      ensures Outcome(Value(), status, output) == ConnectRequest(old(Value()), includeNegotiation, user)
    {
      hide Built, Block;
      output := [];
      if options.role != Client {
        return UnsupportedFeature, [];
      }
      if state != Disconnected {
        return UnsupportedFrame, [];
      }
      var info: Octets := [];
      if includeNegotiation {
        info := Block(Params(
          options.negotiation.transmitLength, options.negotiation.receiveLength,
          options.negotiation.transmitWindow, options.negotiation.receiveWindow));
      }
      info := info + user;
      status, output := BuildFrame(SNRM_CONTROL, info);
      if status == Ok {
        state := AwaitingConnection;
        ResetSequences();
      }
    }

    /** Takes over the negotiated limits and returns the information field that confirms them. */
    method AdoptProposal() returns (information: Octets)
      modifies this`negotiated, this`options, this`windowSizeTransmit
      ensures old(proposal).NoProposal? ==> Value() == old(Value()) && information == []
      ensures old(proposal).Proposal? ==>
        var n := Negotiate(old(proposal).params, old(options).negotiation);
        Value() == Adopt(old(Value()), n) && information == Block(n)
    {
      hide Block, Negotiate, LegalAddress;
      if proposal.NoProposal? {
        return [];
      }
      var agreed := Negotiate(proposal.params, options.negotiation);
      negotiated := Limits(agreed.maxInfoRx, agreed.maxInfoTx, agreed.windowRx % 256, agreed.windowTx % 256);
      options := options.(limits := options.limits.(maximumInformationFieldSize := negotiated.transmitLength));
      windowSizeTransmit := negotiated.transmitWindow;
      return Block(agreed);
    }

    method BuildConnectResponse() returns (status: HdlcStatus, output: Octets)
      modifies this
      ensures Outcome(Value(), status, output) == ConnectResponse(old(Value()))
    {
      hide Built, Block, Negotiate, Adopt, LegalAddress;
      if options.role != Server {
        return UnsupportedFeature, [];
      }
      if !connectResponsePending {
        return UnsupportedFrame, [];
      }
      var info := AdoptProposal();
      status, output := BuildFrame(UA_CONTROL, info);
      if status == Ok {
        state := Connected;
        connectResponsePending := false;
        proposal := NoProposal;
        ResetSequences();
      }
    }

    method BuildDisconnectRequest(user: Octets) returns (status: HdlcStatus, output: Octets)
      modifies this`state
      ensures Outcome(Value(), status, output) == DisconnectRequest(old(Value()), user)
    {
      hide Built;
      if state != Connected {
        return UnsupportedFrame, [];
      }
      status, output := BuildFrame(DISC_CONTROL, user);
      if status == Ok {
        state := AwaitingDisconnect;
      }
    }

    method BuildDisconnectResponse() returns (status: HdlcStatus, output: Octets)
      modifies this
      ensures Outcome(Value(), status, output) == DisconnectResponse(old(Value()))
    {
      hide Built;
      if !disconnectResponsePending {
        return UnsupportedFrame, [];
      }
      status, output := BuildFrame(UA_CONTROL, []);
      if status == Ok {
        state := Disconnected;
        disconnectResponsePending := false;
        ResetSequences();
      }
    }

    method BuildDmResponse() returns (status: HdlcStatus, output: Octets)
      modifies this`dmResponsePending
      ensures Outcome(Value(), status, output) == DmResponse(old(Value()))
    {
      hide Built;
      if !dmResponsePending {
        return UnsupportedFrame, [];
      }
      status, output := BuildFrame(DM_CONTROL, []);
      if status == Ok {
        dmResponsePending := false;
      }
    }

    method BuildInformationFrame(information: Octets, pollFinal: bool) returns (status: HdlcStatus, output: Octets)
      modifies this`sendSequence
      ensures Outcome(Value(), status, output) == InformationRequest(old(Value()), information, pollFinal)
    {
      hide Built, InformationControl;
      if state != Connected {
        return UnsupportedFrame, [];
      }
      var can := CanSendInformationFrame();
      if !can {
        return UnsupportedFrame, [];
      }
      status, output := BuildFrame(InformationControl(sendSequence, receiveSequence, pollFinal), information);
      if status == Ok {
        sendSequence := NextSequence(sendSequence);
      }
    }

    method BuildReceiveReadyFrame(pollFinal: bool) returns (status: HdlcStatus, output: Octets)
      ensures Outcome(Value(), status, output) == ReceiveReadyRequest(Value(), pollFinal)
    {
      hide Built, ReceiveReadyControl;
      if state != Connected {
        return UnsupportedFrame, [];
      }
      status, output := BuildFrame(ReceiveReadyControl(receiveSequence, pollFinal), []);
    }

    method ReceiveFrame(f: HdlcFrame) returns (status: HdlcStatus)
      modifies this
      ensures Outcome(Value(), status, []) == S.ReceiveFrame(old(Value()), f)
    {
      hide S.ReceiveInformation, S.ReceiveSupervisory, S.ReceiveUnnumbered;
      if f.destination != LocalAddress(options) || f.source != RemoteAddress(options) {
        return InvalidAddress;
      }
      match KindOf(f.control) {
        case Information => status := ReceiveInformationFrame(f);
        case Supervisory => status := ReceiveSupervisoryFrame(f);
        case Unnumbered => status := ReceiveUnnumberedFrame(f);
      }
    }

    method ReceiveInformationFrame(f: HdlcFrame) returns (status: HdlcStatus)
      modifies this`acknowledgeSequence, this`receiveSequence
      ensures Outcome(Value(), status, []) == S.ReceiveInformation(old(Value()), f)
    {
      if state != Connected {
        return UnsupportedFrame;
      }
      if SendSequenceOf(f.control) != receiveSequence {
        return InvalidControlField;
      }
      var nr := ReceiveSequenceOf(f.control);
      var ackToNr := (nr - acknowledgeSequence) % 8;
      var ackToSend := (sendSequence - acknowledgeSequence) % 8;
      if ackToNr > ackToSend {
        return InvalidControlField;
      }
      acknowledgeSequence := nr;
      receiveSequence := NextSequence(receiveSequence);
      return Ok;
    }

    method ReceiveSupervisoryFrame(f: HdlcFrame) returns (status: HdlcStatus)
      modifies this`acknowledgeSequence
      ensures Outcome(Value(), status, []) == S.ReceiveSupervisory(old(Value()), f)
    {
      if state != Connected {
        return UnsupportedFrame;
      }
      var nr := ReceiveSequenceOf(f.control);
      var ackToNr := (nr - acknowledgeSequence) % 8;
      var ackToSend := (sendSequence - acknowledgeSequence) % 8;
      if ackToNr > ackToSend {
        return InvalidControlField;
      }
      acknowledgeSequence := nr;
      return Ok;
    }

    method ReceiveSnrmFrame(f: HdlcFrame) returns (status: HdlcStatus)
      modifies this
      ensures Outcome(Value(), status, []) == S.ReceiveSnrm(old(Value()), f)
    {
      hide ParseInfoField, LegalAddress, LegalControl;
      if options.role != Server || state != Disconnected {
        return UnsupportedFrame;
      }
      userInformation := [];
      proposal := NoProposal;
      EmptyField();
      if f.information != [] {
        var parsed := ParseField(f.information);
        if parsed.Bad? {
          dmResponsePending := true;
          return parsed.status;
        }
        if parsed.value.consumed > 0 {
          proposal := Proposal(parsed.value.params);
        }
        if parsed.value.consumed < |f.information| {
          userInformation := f.information[parsed.value.consumed..];
        }
      }
      connectResponsePending := true;
      ResetSequences();
      return Ok;
    }

    method ReceiveUaFrame(f: HdlcFrame) returns (status: HdlcStatus)
      modifies this
      ensures Outcome(Value(), status, []) == S.ReceiveUa(old(Value()), f)
    {
      hide ParseInfoField, LegalAddress, LegalControl;
      EmptyField();
      if state == AwaitingConnection {
        if f.information != [] {
          var parsed := ParseField(f.information);
          if parsed.Good? && parsed.value.consumed > 0 {
            var params := parsed.value.params;
            negotiated := Limits(params.maxInfoTx, params.maxInfoRx, params.windowTx % 256, params.windowRx % 256);
            options := options.(limits := options.limits.(maximumInformationFieldSize := negotiated.transmitLength));
            windowSizeTransmit := negotiated.transmitWindow;
          }
        }
        state := Connected;
        ResetSequences();
        return Ok;
      }
      if state == AwaitingDisconnect {
        state := Disconnected;
        ResetSequences();
        return Ok;
      }
      return UnsupportedFrame;
    }

    method ReceiveUnnumberedFrame(f: HdlcFrame) returns (status: HdlcStatus)
      requires KindOf(f.control) == Unnumbered
      modifies this
      ensures Outcome(Value(), status, []) == S.ReceiveUnnumbered(old(Value()), f)
    {
      hide S.ReceiveSnrm, S.ReceiveUa;
      match UnnumberedKindOf(f.control) {
        case Snrm =>
          status := ReceiveSnrmFrame(f);
        case Ua =>
          status := ReceiveUaFrame(f);
        case Disc =>
          if state != Connected {
            return UnsupportedFrame;
          }
          userInformation := f.information;
          disconnectResponsePending := true;
          return Ok;
        case Dm =>
          state := Disconnected;
          ResetSequences();
          return Ok;
        case _ =>
          return UnsupportedFrame;
      }
    }
  }

  method ParseField(data: Octets) returns (r: Result<Parsed>)
    ensures r == ParseInfoField(data)
  {
    hide ParseInfoField;
    var status, params, consumed := ParseSnrmInfoField(data);
    r := if status == Ok then Good(Parsed(params, consumed)) else Bad(status);
  }

  lemma EmptyField()
    ensures ParseInfoField([]) == Good(Parsed(DEFAULT_PARAMS, 0))
  {
  }
}
