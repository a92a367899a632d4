/**
 The life of a connection after its handshake: when an end is connected, which answers
 it owes in any run, and the DISC/UA and SNRM/DM exchanges over their octets.
 */
module HdlcLifecycle {
  import opened Bytes
  import opened HdlcTypes
  import opened HdlcCodec
  import opened HdlcNegotiation
  import opened HdlcSession

  /** An unnumbered frame of the peer, its kind told from the control octet without the poll/final bit. */
  predicate Gets(s: Session, e: Event, code: byte) {
    && e.DoReceive?
    && e.frame.destination == LocalAddress(s.options) && e.frame.source == RemoteAddress(s.options)
    && (e.frame.control == code || e.frame.control == code + 16)
  }

  const SNRM_CODE: byte := 0x83
  const UA_CODE: byte := 0x63
  const DISC_CODE: byte := 0x43
  const DM_CODE: byte := 0x0f

  /** The same with the bit, as the exchanges use them. */
  const SNRM_OCTET: HdlcControl := 0x93
  const UA_OCTET: HdlcControl := 0x73
  const DISC_OCTET: HdlcControl := 0x53
  const DM_OCTET: HdlcControl := 0x1f

  lemma WithAndWithoutBit(c: byte, v: byte)
    requires v / 16 % 2 == 0 && v + 16 < 256
    ensures WithoutPollFinal(c) == v <==> c == v || c == v + 16
  {
  }

  lemma KindsOfCodes(c: HdlcControl)
    ensures KindOf(c) == Unnumbered && UnnumberedKindOf(c) == Snrm <==> c == SNRM_CODE || c == SNRM_CODE + 16
    ensures KindOf(c) == Unnumbered && UnnumberedKindOf(c) == Ua <==> c == UA_CODE || c == UA_CODE + 16
    ensures KindOf(c) == Unnumbered && UnnumberedKindOf(c) == Disc <==> c == DISC_CODE || c == DISC_CODE + 16
    ensures KindOf(c) == Unnumbered && UnnumberedKindOf(c) == Dm <==> c == DM_CODE || c == DM_CODE + 16
  {
    hide WithoutPollFinal;
    WithAndWithoutBit(c, SNRM_CODE);
    WithAndWithoutBit(c, UA_CODE);
    WithAndWithoutBit(c, DISC_CODE);
    WithAndWithoutBit(c, DM_CODE);
  }

  lemma ExchangedKinds()
    ensures KindOf(SNRM_OCTET) == Unnumbered && UnnumberedKindOf(SNRM_OCTET) == Snrm
    ensures KindOf(UA_OCTET) == Unnumbered && UnnumberedKindOf(UA_OCTET) == Ua
    ensures KindOf(DISC_OCTET) == Unnumbered && UnnumberedKindOf(DISC_OCTET) == Disc
    ensures KindOf(DM_OCTET) == Unnumbered && UnnumberedKindOf(DM_OCTET) == Dm
  {
    hide WithoutPollFinal, KindOf, UnnumberedKindOf;
    KindsOfCodes(SNRM_OCTET);
    KindsOfCodes(UA_OCTET);
    KindsOfCodes(DISC_OCTET);
    KindsOfCodes(DM_OCTET);
  }

  // ---- When an end is connected ----

  /** A connection begins exactly with a UA that is sent as an answer or received in wait for it. */
  predicate Connects(s: Session, e: Event) {
    || (e.DoConnectResponse? && Apply(s, e).status == Ok)
    || (Gets(s, e, UA_CODE) && s.state == AwaitingConnection)
  }

  /** It ends exactly with a DISC or UA that is sent, or with a DM. */
  predicate Leaves(s: Session, e: Event) {
    || ((e.DoDisconnectRequest? || e.DoDisconnectResponse?) && Apply(s, e).status == Ok)
    || Gets(s, e, DM_CODE)
  }

  lemma ConnectedExact(s: Session, e: Event)
    ensures s.state != Connected ==> (Apply(s, e).next.state == Connected <==> Connects(s, e))
    ensures s.state == Connected && !Connects(s, e) ==> (Apply(s, e).next.state != Connected <==> Leaves(s, e))
  {
    hide Built, ParseInfoField, Block, Negotiate, Ahead, NextSequence, LegalAddress, LegalControl, WithoutPollFinal,
      UnnumberedKindOf, KindOf, InformationControl, ReceiveReadyControl;
    if e.DoReceive? {
      KindsOfCodes(e.frame.control);
    }
  }

  // ---- Which answers an end owes ----

  datatype Answer = ConnectAnswer | DisconnectAnswer | DmAnswer

  predicate Due(s: Session, a: Answer) {
    match a
    case ConnectAnswer => s.connectResponsePending
    case DisconnectAnswer => s.disconnectResponsePending
    case DmAnswer => s.dmResponsePending
  }

  /** A connected end is asked by DISC; a disconnected server by SNRM, whose block decides what for. */
  predicate Asked(s: Session, e: Event, a: Answer) {
    match a
    case DisconnectAnswer => Gets(s, e, DISC_CODE) && s.state == Connected
    case ConnectAnswer => SnrmInTime(s, e) && ParseInfoField(e.frame.information).Good?
    case DmAnswer => SnrmInTime(s, e) && ParseInfoField(e.frame.information).Bad?
  }

  predicate SnrmInTime(s: Session, e: Event) {
    Gets(s, e, SNRM_CODE) && s.options.role == Server && s.state == Disconnected
  }

  predicate Answers(s: Session, e: Event, a: Answer) {
    && Apply(s, e).status == Ok
    && match a
       case ConnectAnswer => e.DoConnectResponse?
       case DisconnectAnswer => e.DoDisconnectResponse?
       case DmAnswer => e.DoDmResponse?
  }

  /** One call: an answer is due after it when it was asked for, or was due and has not been given. */
  lemma StepDue(s: Session, e: Event, a: Answer)
    ensures Due(Apply(s, e).next, a) <==> Asked(s, e, a) || (Due(s, a) && !Answers(s, e, a))
    ensures Answers(s, e, a) ==> Due(s, a)
  {
    hide ReceiveFrame, Due, Asked;
    assert !e.DoReceive? ==> !Asked(s, e, a) by { OnlyFramesAsk(s, e, a); }
    if e.DoReceive? {
      FrameDue(s, e, a);
    } else {
      CallDue(s, e, a);
    }
  }

  lemma OnlyFramesAsk(s: Session, e: Event, a: Answer)
    ensures Asked(s, e, a) ==> e.DoReceive?
  {
    hide ParseInfoField;
  }

  lemma FrameDue(s: Session, e: Event, a: Answer)
    requires e.DoReceive?
    ensures Due(ReceiveFrame(s, e.frame).next, a) <==> Asked(s, e, a) || Due(s, a)
  {
    hide ParseInfoField, Ahead, NextSequence, LegalAddress, LegalControl, WithoutPollFinal, UnnumberedKindOf, KindOf;
    KindsOfCodes(e.frame.control);
  }

  lemma CallDue(s: Session, e: Event, a: Answer)
    requires !e.DoReceive?
    ensures Due(Apply(s, e).next, a) <==> Due(s, a) && !Answers(s, e, a)
    ensures Answers(s, e, a) ==> Due(s, a)
  {
    hide Built, Block, Negotiate, Ahead, NextSequence, LegalAddress, InformationControl, ReceiveReadyControl;
  }

  /** The answer was asked for by event `k` of a run and has not been given since. */
  ghost predicate AskedSince(o: Options, events: seq<Event>, a: Answer, k: nat)
    requires k < |events|
  {
    && Asked(ApplyAll(NewSession(o), events[..k]), events[k], a)
    && forall j :: k < j < |events| ==> !Answers(ApplyAll(NewSession(o), events[..j]), events[j], a)
  }

  /**
   In every run of builds and arbitrary received frames, an answer is due exactly when some
   frame asked for it and it has not been given since.
   */
  lemma {:induction false} DueExact(o: Options, events: seq<Event>, a: Answer)
    ensures Due(ApplyAll(NewSession(o), events), a) <==>
      exists k :: 0 <= k < |events| && AskedSince(o, events, a, k)
  {
    hide Apply, Due, Asked, Answers;
    if events == [] {
      assert !Due(NewSession(o), a) by { NothingDue(o, a); }
    } else {
      var n := |events| - 1;
      var init, e := events[..n], events[n];
      var s := ApplyAll(NewSession(o), init);
      DueExact(o, init, a);
      StepDue(s, e, a);
      assert forall k :: 0 <= k < n ==> init[..k] == events[..k] && init[k] == events[k];
      if Asked(s, e, a) {
        assert AskedSince(o, events, a, n);
      } else if Due(s, a) && !Answers(s, e, a) {
        var k :| 0 <= k < n && AskedSince(o, init, a, k);
        assert AskedSince(o, events, a, k) by { SinceMore(o, events, a, k); }
      }
      if k :| 0 <= k < |events| && AskedSince(o, events, a, k) {
        if k < n {
          assert !Answers(s, e, a);
          assert AskedSince(o, init, a, k) by { SinceLess(o, events, a, k); }
        }
      }
    }
  }

  lemma SinceMore(o: Options, events: seq<Event>, a: Answer, k: nat)
    requires events != [] && k < |events| - 1
    requires AskedSince(o, events[..|events| - 1], a, k)
    requires !Answers(ApplyAll(NewSession(o), events[..|events| - 1]), events[|events| - 1], a)
    ensures AskedSince(o, events, a, k)
  {
    hide ApplyAll, Answers, Asked;
    var init := events[..|events| - 1];
    assert init[..k] == events[..k] && init[k] == events[k];
    forall j | k < j < |events|
      ensures !Answers(ApplyAll(NewSession(o), events[..j]), events[j], a)
    {
      if j < |init| {
        assert init[..j] == events[..j] && init[j] == events[j];
      }
    }
  }

  lemma SinceLess(o: Options, events: seq<Event>, a: Answer, k: nat)
    requires events != [] && k < |events| - 1
    requires AskedSince(o, events, a, k)
    ensures AskedSince(o, events[..|events| - 1], a, k)
  {
    hide ApplyAll, Answers, Asked;
    var init := events[..|events| - 1];
    assert init[..k] == events[..k] && init[k] == events[k];
    forall j | k < j < |init|
      ensures !Answers(ApplyAll(NewSession(o), init[..j]), init[j], a)
    {
      assert init[..j] == events[..j] && init[j] == events[j];
    }
  }

  lemma NothingDue(o: Options, a: Answer)
    ensures !Due(NewSession(o), a)
  {
  }

  // ---- Exchanges ----

  /** Two ends of one link. */
  predicate Opposed(a: Session, b: Session) {
    LocalAddress(a.options) == RemoteAddress(b.options) && RemoteAddress(a.options) == LocalAddress(b.options)
  }

  /** Disconnected, all sequence variables zero. */
  predicate AtRest(s: Session) {
    s.state == Disconnected && s.sendSequence == 0 && s.receiveSequence == 0 && s.acknowledgeSequence == 0
  }

  /** A frame of one end as the other end sees it. */
  function FrameFrom(s: Session, control: HdlcControl, information: Octets): HdlcFrame {
    HdlcFrame(false, RemoteAddress(s.options), LocalAddress(s.options), control, information)
  }

  /** What an end builds can be decoded under all limits that let the frame through. */
  lemma BuiltArrives(s: Session, control: HdlcControl, information: Octets, limits: CodecLimits)
    requires Encodable(FrameFrom(s, control, information), s.options.limits) == Ok
    requires Encodable(FrameFrom(s, control, information), limits) == Ok
    ensures Built(s.options, control, information).Good?
    ensures DecodeFrame(Built(s.options, control, information).value, limits) == Good(FrameFrom(s, control, information))
  {
    hide FrameOctets, DecodeFrame, Encodable;
    DecodeInvertsEncode(FrameFrom(s, control, information), limits);
  }

  /**
   DISC and UA between two connected ends, over the octets and under any limits of the two
   decoders that let the frames through: the request is built exactly when it fits, the
   peer stays connected until it has answered and holds the user information unchanged,
   and then both ends are at rest. The answer can be given once.
   */
  lemma DisconnectExchange(a: Session, b: Session, user: Octets, forth: CodecLimits, back: CodecLimits)
    requires Opposed(a, b) && a.state == Connected == b.state
    requires Encodable(FrameFrom(a, DISC_OCTET, user), forth) == Ok && Encodable(FrameFrom(b, UA_OCTET, []), back) == Ok
    ensures var request := DisconnectRequest(a, user);
      && request.status == Encodable(FrameFrom(a, DISC_OCTET, user), a.options.limits)
      && (request.status == Ok ==>
            && request.next.state == AwaitingDisconnect
            && DecodeFrame(request.output, forth) == Good(FrameFrom(a, DISC_OCTET, user))
            && var received := ReceiveFrame(b, FrameFrom(a, DISC_OCTET, user));
            && received.status == Ok
            && received.next.state == Connected && received.next.userInformation == user
            && var response := DisconnectResponse(received.next);
            && response.status == Encodable(FrameFrom(b, UA_OCTET, []), b.options.limits)
            && (response.status == Ok ==>
                  && AtRest(response.next) && response.next.userInformation == user
                  && DisconnectResponse(response.next).status == UnsupportedFrame
                  && DecodeFrame(response.output, back) == Good(FrameFrom(b, UA_OCTET, []))
                  && var confirmed := ReceiveFrame(request.next, FrameFrom(b, UA_OCTET, []));
                  confirmed.status == Ok && AtRest(confirmed.next)))
  {
    hide FrameOctets, DecodeFrame, Encodable, LegalAddress, WithoutPollFinal, UnnumberedKindOf, KindOf;
    ExchangedKinds();
    if Encodable(FrameFrom(a, DISC_OCTET, user), a.options.limits) == Ok {
      BuiltArrives(a, DISC_OCTET, user, forth);
    }
    if Encodable(FrameFrom(b, UA_OCTET, []), b.options.limits) == Ok {
      BuiltArrives(b, UA_OCTET, [], back);
    }
  }

  /** A frame without information fits whenever fifteen octets do. */
  lemma EmptyFits(f: HdlcFrame, limits: CodecLimits)
    requires f.information == [] && EffectiveMaximumFrameSize(limits) >= 15
    ensures Encodable(f, limits) == Ok
  {
    HeaderSizeBound(f.destination, f.source);
  }

  /** Without user information nothing can stand in the way, whatever was negotiated. */
  lemma PlainDisconnect(a: Session, b: Session)
    requires Opposed(a, b) && a.state == Connected == b.state
    requires EffectiveMaximumFrameSize(a.options.limits) >= 15 && EffectiveMaximumFrameSize(b.options.limits) >= 15
    ensures var request := DisconnectRequest(a, []);
      && request.status == Ok
      && DecodeFrame(request.output, DEFAULT_LIMITS).Good?
      && var received := ReceiveFrame(b, DecodeFrame(request.output, DEFAULT_LIMITS).value);
      && received.status == Ok
      && var response := DisconnectResponse(received.next);
      && response.status == Ok && AtRest(response.next)
      && DecodeFrame(response.output, DEFAULT_LIMITS).Good?
      && var confirmed := ReceiveFrame(request.next, DecodeFrame(response.output, DEFAULT_LIMITS).value);
         confirmed.status == Ok && AtRest(confirmed.next)
  {
    hide DecodeFrame, Encodable, ReceiveFrame, DisconnectRequest, DisconnectResponse;
    EmptyFits(FrameFrom(a, DISC_OCTET, []), DEFAULT_LIMITS);
    EmptyFits(FrameFrom(b, UA_OCTET, []), DEFAULT_LIMITS);
    EmptyFits(FrameFrom(a, DISC_OCTET, []), a.options.limits);
    EmptyFits(FrameFrom(b, UA_OCTET, []), b.options.limits);
    DisconnectExchange(a, b, [], DEFAULT_LIMITS, DEFAULT_LIMITS);
  }

  /**
   An SNRM whose block cannot be parsed: the server reports the error, owes a DM and no
   UA, and stays disconnected; the DM, over its octets, brings the client back to rest
   from whatever state it is in.
   */
  lemma RefusalExchange(client: Session, server: Session, information: Octets, why: Failure, back: CodecLimits)
    requires Opposed(client, server) && server.options.role == Server && server.state == Disconnected
    requires !server.connectResponsePending
    requires ParseInfoField(information) == Bad(why)
    requires Encodable(FrameFrom(server, DM_OCTET, []), back) == Ok
    ensures var received := ReceiveFrame(server, FrameFrom(client, SNRM_OCTET, information));
      && received.status == why
      && received.next.state == Disconnected && received.next.userInformation == []
      && ConnectResponse(received.next).status == UnsupportedFrame
      && var response := DmResponse(received.next);
      && response.status == Encodable(FrameFrom(server, DM_OCTET, []), server.options.limits)
      && (response.status == Ok ==>
            && response.next.state == Disconnected
            && DmResponse(response.next).status == UnsupportedFrame
            && DecodeFrame(response.output, back) == Good(FrameFrom(server, DM_OCTET, []))
            && var told := ReceiveFrame(client, FrameFrom(server, DM_OCTET, []));
               told.status == Ok && AtRest(told.next))
  {
    hide FrameOctets, DecodeFrame, Encodable, LegalAddress, WithoutPollFinal, UnnumberedKindOf, KindOf, ParseInfoField;
    ExchangedKinds();
    if Encodable(FrameFrom(server, DM_OCTET, []), server.options.limits) == Ok {
      BuiltArrives(server, DM_OCTET, [], back);
    }
  }
}
