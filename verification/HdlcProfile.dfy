/**
 The HDLC profile channel: one APDU becomes an LLC header, segments, windowed I-frames
 and receive-ready frames, and comes back at the other end. The operations of one
 endpoint are functions on values here.
 */
module HdlcProfile {
  import opened Bytes
  import opened HdlcTypes
  import opened HdlcCodec
  import opened HdlcSession
  import opened HdlcNegotiation
  import opened HdlcSegmentation
  import Llc

  datatype ProfileStatus =
    | POk
    | PNeedMoreData
    | POutputBufferTooSmall
    | PInvalidArgument
    | PNotOpen
    | PWouldBlock
    | PInvalidFrame
    | PInvalidLength
    | PInvalidAddress
    | PPayloadTooLarge
    | PUnsupportedFeature
    | PInternalError

  function MapHdlcStatus(s: HdlcStatus): ProfileStatus {
    match s
    case Ok => POk
    case NeedMoreData | SegmentationIncomplete => PNeedMoreData
    case OutputBufferTooSmall => POutputBufferTooSmall
    case InvalidArgument => PInvalidArgument
    case InvalidFlag | InvalidFrameFormat | InvalidFrameType | InvalidControlField
       | InvalidHeaderChecksum | InvalidFrameChecksum | SegmentationError => PInvalidFrame
    case InvalidFrameLength => PInvalidLength
    case InvalidAddress => PInvalidAddress
    case FrameTooLarge | InformationFieldTooLarge | SegmentationOverflow => PPayloadTooLarge
    case UnsupportedFrame | UnsupportedAddress | UnsupportedFeature => PUnsupportedFeature
    case InternalError => PInternalError
  }

  function MapLlcStatus(s: Llc.LlcStatus): ProfileStatus {
    match s
    case Ok => POk
    case NeedMoreData => PNeedMoreData
    case InvalidDsap | InvalidSsap => PInvalidFrame
    case BroadcastForbidden | UnsupportedControl => PUnsupportedFeature
  }

  /** Which link statuses each profile status stands for. */
  lemma StatusExact(s: HdlcStatus)
    ensures MapHdlcStatus(s) == POk <==> s == Ok
    ensures MapHdlcStatus(s) == PNeedMoreData <==> s in {NeedMoreData, SegmentationIncomplete}
    ensures MapHdlcStatus(s) == POutputBufferTooSmall <==> s == OutputBufferTooSmall
    ensures MapHdlcStatus(s) == PInvalidArgument <==> s == InvalidArgument
    ensures MapHdlcStatus(s) == PInvalidLength <==> s == InvalidFrameLength
    ensures MapHdlcStatus(s) == PInvalidAddress <==> s == InvalidAddress
    ensures MapHdlcStatus(s) == PPayloadTooLarge <==> s in {FrameTooLarge, InformationFieldTooLarge, SegmentationOverflow}
    ensures MapHdlcStatus(s) == PUnsupportedFeature <==> s in {UnsupportedFrame, UnsupportedAddress, UnsupportedFeature}
    ensures MapHdlcStatus(s) == PInternalError <==> s == InternalError
    ensures MapHdlcStatus(s) !in {PNotOpen, PWouldBlock}
  {
  }

  /** The session part of a profile channel. */
  datatype Endpoint = Endpoint(
    session: Session,
    codecLimits: CodecLimits,
    reassemblyLimits: CodecLimits,
    reassembly: Pending,
    pendingApdus: seq<Octets>,
    direction: Llc.Direction,
    maximumApduSize: nat)

  /** An endpoint after one operation, the status, and the frames it wrote. */
  datatype Acted = Acted(endpoint: Endpoint, status: ProfileStatus, written: seq<HdlcFrame>)

  // ---- Sending ----

  /** How much of an LPDU goes into one frame. */
  function ChunkSize(e: Endpoint, lpduSize: nat): nat {
    if e.session.negotiated.transmitLength == 0 then lpduSize else e.session.negotiated.transmitLength
  }

  /** The codec follows the negotiated transmit length before anything is sent. */
  function PreparedToSend(e: Endpoint): Endpoint {
    e.(codecLimits := e.codecLimits.(maximumInformationFieldSize := e.session.negotiated.transmitLength))
  }

  /**
   One I-frame. A segmented one is built by the session, decoded, marked and encoded
   again; the poll bit goes with the last one.
   */
  function SendInformation(e: Endpoint, information: Octets, final: bool): Acted {
    var r := InformationRequest(e.session, information, final);
    if r.status != Ok then Acted(e.(session := r.next), MapHdlcStatus(r.status), [])
    else
      var control := InformationControl(e.session.sendSequence, e.session.receiveSequence, final);
      var built := BuiltFrame(e.session.options, control, information);
      var after := e.(session := r.next);
      if final then Acted(after, POk, [built])
      else
        match DecodeFrame(r.output, e.codecLimits)
        case Bad(s) => Acted(after, MapHdlcStatus(s), [])
        case Good(decoded) =>
          var marked := decoded.(segmented := true);
          match EncodeFrame(marked, e.codecLimits)
          case Bad(s) => Acted(after, MapHdlcStatus(s), [])
          case Good(_) => Acted(after, POk, [marked])
  }

  function SendReceiveReady(e: Endpoint): Acted {
    var r := ReceiveReadyRequest(e.session, true);
    if r.status != Ok then Acted(e, MapHdlcStatus(r.status), [])
    else
      var control := ReceiveReadyControl(e.session.receiveSequence, true);
      Acted(e, POk, [BuiltFrame(e.session.options, control, [])])
  }

  // ---- Receiving ----

  function DecodeComplete(e: Endpoint, information: Octets): Acted {
    var lpdu := Llc.DecodeLpdu(information);
    if lpdu.status != Llc.Ok then Acted(e, MapLlcStatus(lpdu.status), [])
    else if e.maximumApduSize != 0 && |lpdu.lsdu| > e.maximumApduSize then Acted(e, PPayloadTooLarge, [])
    else Acted(e.(pendingApdus := e.pendingApdus + [lpdu.lsdu]), POk, [])
  }

  /** A frame while an APDU is expected: reassembly first, then the session, then the answer. */
  function ReceiveToPending(e: Endpoint, f: HdlcFrame): Acted {
    var pushed := PushFrame(e.reassemblyLimits, e.reassembly, f);
    var e1 := e.(reassembly := pushed.next);
    if pushed.status != Ok && pushed.status != SegmentationIncomplete then
      Acted(e1.(reassembly := Idle), MapHdlcStatus(pushed.status), [])
    else
      var r := ReceiveFrame(e.session, f);
      var e2 := e1.(session := r.next);
      if r.status != Ok then Acted(e2.(reassembly := Idle), MapHdlcStatus(r.status), [])
      else if pushed.status == SegmentationIncomplete then
        var ready := SendReceiveReady(e2);
        if ready.status == POk then Acted(e2, PNeedMoreData, ready.written) else ready
      else if pushed.completed == [] || pushed.completed[0].information == [] then Acted(e2, POk, [])
      else DecodeComplete(e2, pushed.completed[0].information)
  }

  /** A frame while the window is closed. */
  function ReceiveControl(e: Endpoint, f: HdlcFrame): Acted {
    if KindOf(f.control) == Information then ReceiveToPending(e, f)
    else
      var r := ReceiveFrame(e.session, f);
      Acted(e.(session := r.next), MapHdlcStatus(r.status), [])
  }

  // ---- What each operation does when it succeeds ----

  /** A frame with `size` octets of information can be encoded under the limits. */
  predicate Room(destination: HdlcAddress, source: HdlcAddress, size: nat, limits: CodecLimits) {
    && size <= EffectiveMaximumInformationFieldSize(destination, source, limits)
    && HeaderSize(destination, source) + 4 + size <= MAXIMUM_FORMAT_FIELD_LENGTH
    && HeaderSize(destination, source) + 6 + size <= EffectiveMaximumFrameSize(limits)
  }

  lemma RoomEncodes(f: HdlcFrame, size: nat, limits: CodecLimits)
    requires |f.information| <= size && Room(f.destination, f.source, size, limits)
    ensures Encodable(f, limits) == Ok
  {
  }

  /** Chunks of this size can be sent: the session and the codec both let them through. */
  predicate CanCarry(e: Endpoint, size: nat) {
    var o := e.session.options;
    && Room(RemoteAddress(o), LocalAddress(o), size, o.limits)
    && Room(RemoteAddress(o), LocalAddress(o), size, e.codecLimits)
  }

  /** An I-frame as it appears on the line. */
  function InformationFrame(o: Options, send: Sequence, receive: Sequence, information: Octets, final: bool): (f: HdlcFrame)
    ensures KindOf(f.control) == Information
    ensures SendSequenceOf(f.control) == send && ReceiveSequenceOf(f.control) == receive
  {
    HdlcFrame(!final, RemoteAddress(o), LocalAddress(o), InformationControl(send, receive, final), information)
  }

  function ReadyFrame(o: Options, receive: Sequence): (f: HdlcFrame)
    ensures KindOf(f.control) == Supervisory && ReceiveSequenceOf(f.control) == receive
  {
    BuiltFrame(o, ReceiveReadyControl(receive, true), [])
  }

  lemma Sends(e: Endpoint, information: Octets, final: bool)
    requires e.session.state == Connected && CanSendInformation(e.session)
    requires CanCarry(e, |information|)
    ensures SendInformation(e, information, final) ==
      Acted(e.(session := e.session.(sendSequence := NextSequence(e.session.sendSequence))), POk,
        [InformationFrame(e.session.options, e.session.sendSequence, e.session.receiveSequence, information, final)])
  {
    hide FrameOctets, DecodeFrame, Encodable, LegalAddress, LegalControl, Room, CanSendInformation, InformationControl;
    var o := e.session.options;
    var control := InformationControl(e.session.sendSequence, e.session.receiveSequence, final);
    var built := BuiltFrame(o, control, information);
    RoomEncodes(built, |information|, o.limits);
    RoomEncodes(built, |information|, e.codecLimits);
    RoomEncodes(built.(segmented := true), |information|, e.codecLimits);
    DecodeInvertsEncode(built, e.codecLimits);
  }

  /** The frame comes from the peer. */
  predicate FromPeer(s: Session, f: HdlcFrame) {
    f.destination == LocalAddress(s.options) && f.source == RemoteAddress(s.options)
  }

  /** A receive-ready frame moves the acknowledgement, and nothing else, however it is read. */
  lemma TakesReady(e: Endpoint, f: HdlcFrame)
    requires e.session.state == Connected && FromPeer(e.session, f) && e.reassembly == Idle
    requires KindOf(f.control) == Supervisory && f.information == [] && !f.segmented
    requires AcknowledgementInWindow(e.session, ReceiveSequenceOf(f.control))
    ensures var after := Acted(
        e.(session := e.session.(acknowledgeSequence := ReceiveSequenceOf(f.control))), POk, []);
      ReceiveToPending(e, f) == after && ReceiveControl(e, f) == after
  {
    hide LegalAddress, LegalControl, Ahead, ReceiveSequenceOf, KindOf;
  }

  /** What is pending, and what the next segment makes of it. */
  function PendingOctets(p: Pending): Octets {
    if p.Idle? then [] else p.frame.information
  }

  /** A segment of the peer that continues what is pending and fits. */
  predicate Continues(e: Endpoint, f: HdlcFrame) {
    var maximum := EffectiveReassemblySize(e.reassemblyLimits);
    && FromPeer(e.session, f)
    && KindOf(f.control) == Information
    && (e.reassembly.Partial? ==> FromPeer(e.session, e.reassembly.frame) && KindOf(e.reassembly.frame.control) == Information)
    && |PendingOctets(e.reassembly)| + |f.information| <= maximum < SIZE_RANGE
    && e.session.state == Connected
    && SendSequenceOf(f.control) == e.session.receiveSequence
    && AcknowledgementInWindow(e.session, ReceiveSequenceOf(f.control))
  }

  function Accepted(s: Session, f: HdlcFrame): Session {
    s.(acknowledgeSequence := ReceiveSequenceOf(f.control), receiveSequence := NextSequence(s.receiveSequence))
  }

  function Joined(p: Pending, f: HdlcFrame): HdlcFrame {
    if p.Idle? then f else p.frame.(information := p.frame.information + f.information)
  }

  lemma SessionTakes(e: Endpoint, f: HdlcFrame)
    requires Continues(e, f)
    ensures ReceiveFrame(e.session, f) == Outcome(Accepted(e.session, f), Ok, [])
    ensures PushFrame(e.reassemblyLimits, e.reassembly, f) ==
      if f.segmented then Pushed(Partial(Joined(e.reassembly, f)), SegmentationIncomplete, [])
      else Pushed(Idle, Ok, [Joined(e.reassembly, f).(segmented := false)])
    ensures Joined(e.reassembly, f).information == PendingOctets(e.reassembly) + f.information
  {
    hide LegalAddress, LegalControl, Ahead, ReceiveSequenceOf, SendSequenceOf, SizeMinus, EffectiveReassemblySize;
    SizeMinusExact(EffectiveReassemblySize(e.reassemblyLimits), |f.information|);
    assert [] + f.information == f.information;
  }

  lemma TakesSegment(e: Endpoint, f: HdlcFrame)
    requires Continues(e, f) && f.segmented
    requires var o := e.session.options; Room(RemoteAddress(o), LocalAddress(o), 0, o.limits)
    ensures ReceiveToPending(e, f) ==
      Acted(e.(reassembly := Partial(Joined(e.reassembly, f)), session := Accepted(e.session, f)), PNeedMoreData,
        [ReadyFrame(e.session.options, NextSequence(e.session.receiveSequence))])
  {
    hide PushFrame, ReceiveFrame, Continues, LegalAddress, LegalControl, ReceiveReadyControl, Encodable, Room, FrameOctets;
    SessionTakes(e, f);
    var s := Accepted(e.session, f);
    assert s.state == Connected by { ContinuesConnected(e, f); }
    RoomEncodes(BuiltFrame(s.options, ReceiveReadyControl(s.receiveSequence, true), []), 0, s.options.limits);
  }

  lemma ContinuesConnected(e: Endpoint, f: HdlcFrame)
    requires Continues(e, f)
    ensures e.session.state == Connected
  {
  }

  lemma TakesLast(e: Endpoint, f: HdlcFrame, direction: Llc.Direction, apdu: Octets)
    requires Continues(e, f) && !f.segmented
    requires PendingOctets(e.reassembly) + f.information == Llc.EncodeLpdu(direction, apdu)
    requires e.maximumApduSize == 0 || |apdu| <= e.maximumApduSize
    ensures ReceiveToPending(e, f) ==
      Acted(e.(reassembly := Idle, session := Accepted(e.session, f), pendingApdus := e.pendingApdus + [apdu]), POk, [])
  {
    hide PushFrame, ReceiveFrame, Continues, LegalAddress, LegalControl, Llc.DecodeLpdu;
    SessionTakes(e, f);
    Llc.LpduRoundTrip(direction, apdu);
    assert |Llc.EncodeLpdu(direction, apdu)| == 3 + |apdu|;
  }

  /**
   An I-frame or an unsegmented frame that is refused, for whatever reason, hands nothing
   over, is not answered and leaves nothing pending.
   */
  lemma RefusalClears(e: Endpoint, f: HdlcFrame)
    requires var o := e.session.options; Room(RemoteAddress(o), LocalAddress(o), 0, o.limits)
    requires KindOf(f.control) == Information || !f.segmented
    ensures var r := ReceiveToPending(e, f);
      r.status != POk && r.status != PNeedMoreData ==>
        r.endpoint.reassembly == Idle && r.endpoint.pendingApdus == e.pendingApdus && r.written == []
  {
    hide LegalAddress, LegalControl, ReceiveReadyControl, Encodable, Room, FrameOctets, Llc.DecodeLpdu, Ahead,
      EffectiveReassemblySize, SizeMinus;
    if KindOf(f.control) == Information && ReceiveFrame(e.session, f).status == Ok {
      var s := ReceiveFrame(e.session, f).next;
      RoomEncodes(BuiltFrame(s.options, ReceiveReadyControl(s.receiveSequence, true), []), 0, s.options.limits);
    }
  }

  /** Exactly which complete LPDUs are taken: those with an accepted header whose payload fits; the payload is queued. */
  lemma CompleteExact(e: Endpoint, x: Octets)
    ensures var r := DecodeComplete(e, x);
      && (r.status == POk <==>
            && |x| >= 3 && x[0] == 0xe6 && (x[1] == 0xe6 || x[1] == 0xe7) && x[2] == 0x00
            && (e.maximumApduSize == 0 || |x| - 3 <= e.maximumApduSize))
      && (r.status == POk ==> r.endpoint == e.(pendingApdus := e.pendingApdus + [x[3..]]))
      && (r.status != POk ==> r.endpoint == e)
      && r.written == []
  {
    hide Llc.DecodeLpdu;
    Llc.LpduExact(Llc.ClientToServer, x);
  }
}
