/**
 What stands on the two lines of a link in every run: which frames carry the poll/final
 bit, and how full the segments are.
 */
module HdlcTraffic {
  import opened Bytes
  import opened HdlcTypes
  import opened HdlcCodec
  import opened HdlcSession
  import opened HdlcSegmentation
  import opened HdlcProfile
  import opened HdlcDelivery
  import HdlcWindow
  import HdlcNegotiation
  import Llc

  /**
   An I-frame carries the poll/final bit exactly when it is the last of its APDU; every
   other frame is an empty receive-ready frame with the bit. Told from the control octet.
   */
  predicate Polled(f: HdlcFrame) {
    if f.control % 2 == 0 then f.control / 16 % 2 == 1 <==> !f.segmented
    else f.control % 32 == 17 && !f.segmented && f.information == []
  }

  /** Every segment but the last is as long as was negotiated, and the last one is not longer; zero means no limit. */
  predicate Full(f: HdlcFrame, length: nat) {
    f.control % 2 == 0 ==>
      && (f.segmented ==> |f.information| == length > 0)
      && (!f.segmented && length > 0 ==> |f.information| <= length)
  }

  predicate Lawful(frames: seq<HdlcFrame>, length: nat) {
    forall i :: 0 <= i < |frames| ==> Polled(frames[i]) && Full(frames[i], length)
  }

  /** An end whose negotiated transmit length stays `length`. */
  predicate Steady(n: Node, length: nat) {
    && n.endpoint.session.state != AwaitingConnection
    && n.endpoint.session.negotiated.transmitLength == length
    && (n.phase.Sending? ==> if length == 0 then |n.phase.rest| <= n.phase.chunk else n.phase.chunk == length)
  }

  // ---- One end ----

  /** No received frame starts a connection or changes what was negotiated, unless a connection is awaited. */
  lemma ReceiveSteady(s: Session, f: HdlcFrame)
    requires s.state != AwaitingConnection
    ensures var t := ReceiveFrame(s, f).next; t.state != AwaitingConnection && t.negotiated == s.negotiated
  {
    hide HdlcNegotiation.ParseInfoField, LegalAddress, LegalControl, WithoutPollFinal, Ahead;
  }

  /** The frame an end sends, whatever its codec makes of it. */
  lemma SentFrame(e: Endpoint, information: Octets, final: bool)
    requires SendInformation(e, information, final).written != []
    ensures SendInformation(e, information, final).written ==
      [InformationFrame(e.session.options, e.session.sendSequence, e.session.receiveSequence, information, final)]
  {
    hide FrameOctets, DecodeFrame, LegalAddress, LegalControl, CanSendInformation, InformationControl;
    if !final {
      var control := InformationControl(e.session.sendSequence, e.session.receiveSequence, final);
      var built := BuiltFrame(e.session.options, control, information);
      DecodeInvertsEncode(built, e.session.options.limits);
      DecodeSame(FrameOctets(built), e.session.options.limits, e.codecLimits);
    }
  }

  lemma SendLawful(e: Endpoint, information: Octets, final: bool, length: nat)
    requires if final then length > 0 ==> |information| <= length else |information| == length > 0
    ensures Lawful(SendInformation(e, information, final).written, length)
    ensures var s, t := e.session, SendInformation(e, information, final).endpoint.session;
      t.state == s.state && t.negotiated == s.negotiated
  {
    hide FrameOctets, DecodeFrame, Encodable, LegalAddress, LegalControl, CanSendInformation, InformationControl;
    if SendInformation(e, information, final).written != [] {
      SentFrame(e, information, final);
    }
  }

  lemma ReceiveLawful(e: Endpoint, f: HdlcFrame, length: nat)
    requires e.session.state != AwaitingConnection
    ensures Lawful(ReceiveToPending(e, f).written, length) && Lawful(ReceiveControl(e, f).written, length)
    ensures var s := ReceiveToPending(e, f).endpoint.session;
      s.state != AwaitingConnection && s.negotiated == e.session.negotiated
    ensures var s := ReceiveControl(e, f).endpoint.session;
      s.state != AwaitingConnection && s.negotiated == e.session.negotiated
  {
    hide PushFrame, ReceiveFrame, Encodable, FrameOctets, LegalAddress, LegalControl, Llc.DecodeLpdu, ReceiveReadyControl;
    ReceiveSteady(e.session, f);
  }

  /** One pass of an end's loop, in any state of its session. */
  lemma PassLawful(n: Node, inbox: seq<HdlcFrame>, length: nat)
    requires Steady(n, length)
    ensures var t := Advance(n, inbox); Steady(t.node, length) && Lawful(t.written, length)
  {
    hide SendInformation, ReceiveToPending, ReceiveControl, CanSendInformation, Lawful;
    match n.phase
    case Sending(rest, chunk, _) =>
      NothingLawful(length);
      SendLawful(n.endpoint, rest[..Smaller(chunk, |rest|)], |rest| <= chunk, length);
      if inbox != [] {
        ReceiveLawful(n.endpoint, inbox[0], length);
      }
    case Listening =>
      NothingLawful(length);
      if inbox != [] {
        ReceiveLawful(n.endpoint, inbox[0], length);
      }
    case _ => NothingLawful(length);
  }

  lemma NothingLawful(length: nat)
    ensures Lawful([], length)
  {
  }

  lemma BeginSteady(n: Node, apdu: Octets, length: nat)
    requires Steady(n, length)
    ensures Steady(Begin(n, apdu), length)
  {
  }

  // ---- Both ends ----

  predicate LinesLawful(s: Link, left: nat, right: nat) {
    Steady(s.left, left) && Steady(s.right, right) && Lawful(s.toRight, left) && Lawful(s.toLeft, right)
  }

  lemma MoveLawful(s: Link, m: Move, left: nat, right: nat)
    requires LinesLawful(s, left, right)
    ensures LinesLawful(MoveLeft(s, m), left, right)
  {
    hide Advance, Begin, Steady, Polled, Full;
    match m
    case DoBegin(_, apdu) => BeginSteady(s.left, apdu, left);
    case DoAdvance(_) =>
      PassLawful(s.left, s.toLeft, left);
      var t := Advance(s.left, s.toLeft);
      assert t.inbox == s.toLeft || (s.toLeft != [] && t.inbox == s.toLeft[1..]) by { ReadsFront(s.left, s.toLeft); }
  }

  lemma ReadsFront(n: Node, inbox: seq<HdlcFrame>)
    ensures var rest := Advance(n, inbox).inbox; rest == inbox || (inbox != [] && rest == inbox[1..])
  {
    hide SendInformation, ReceiveToPending, ReceiveControl, CanSendInformation;
  }

  /**
   In every run, whatever the ends are configured to and even if calls fail: the last
   frame of an APDU polls and no segment before it does, acknowledgements are empty
   receive-ready frames that poll, and all segments but the last have the negotiated length.
   */
  lemma {:induction false} TrafficLaw(s: Link, moves: seq<Move>)
    requires s.toLeft == [] && s.toRight == []
    requires !s.left.phase.Sending? && !s.right.phase.Sending?
    requires s.left.endpoint.session.state != AwaitingConnection && s.right.endpoint.session.state != AwaitingConnection
    ensures LinesLawful(Play(s, moves),
      s.left.endpoint.session.negotiated.transmitLength, s.right.endpoint.session.negotiated.transmitLength)
  {
    hide Moved, MoveLeft, Lawful, Polled, Full;
    var left, right := s.left.endpoint.session.negotiated.transmitLength, s.right.endpoint.session.negotiated.transmitLength;
    if moves == [] {
      NothingLawful(left);
      NothingLawful(right);
    } else {
      var before, m := Play(s, moves[..|moves| - 1]), moves[|moves| - 1];
      TrafficLaw(s, moves[..|moves| - 1]);
      SideLawful(before, m, left, right);
    }
  }

  lemma SideLawful(s: Link, m: Move, left: nat, right: nat)
    requires LinesLawful(s, left, right)
    ensures LinesLawful(Moved(s, m), left, right)
  {
    hide MoveLeft, Steady, Lawful;
    if m.side == HdlcWindow.Left {
      MoveLawful(s, m, left, right);
    } else {
      MoveLawful(Reflect(s), m, right, left);
    }
  }
}
