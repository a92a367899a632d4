/**
 The sliding window of two connected sessions over channels that may lose frames
 but not reorder them, for every run.
 */
module HdlcWindow {
  import opened Bytes
  import opened HdlcTypes
  import opened HdlcCodec
  import opened HdlcSession

  /**
   A frame under way. The two counters are history: the number of I-frames its
   sender had built before this one, and the number it had accepted.
   */
  datatype Packet = Packet(frame: HdlcFrame, index: nat, ack: nat)

  /** One end: its session, and the history of what it built, accepted and was acknowledged. */
  datatype Peer = Peer(session: Session, built: seq<Octets>, accepted: seq<Octets>, acked: nat)

  datatype System = System(left: Peer, right: Peer, toRight: seq<Packet>, toLeft: seq<Packet>)

  datatype Side = Left | Right

  datatype Step =
    | Send(sender: Side, information: Octets, pollFinal: bool)
    | Ready(reader: Side, readyPollFinal: bool)
    | Deliver(target: Side)
    | Lose(towards: Side, position: nat)

  function Mirror(s: System): System {
    System(s.right, s.left, s.toLeft, s.toRight)
  }

  function MirrorSide(d: Side): Side {
    if d == Left then Right else Left
  }

  // ---- Steps, seen from the left ----

  function FrameOf(p: Peer, control: HdlcControl, information: Octets): HdlcFrame {
    BuiltFrame(p.session.options, control, information)
  }

  /** The left end builds an I-frame; when it cannot, nothing happens. */
  function SendLeft(s: System, information: Octets, pollFinal: bool): System {
    var p := s.left;
    var r := InformationRequest(p.session, information, pollFinal);
    if r.status != Ok then s
    else
      var control := InformationControl(p.session.sendSequence, p.session.receiveSequence, pollFinal);
      var packet := Packet(FrameOf(p, control, information), |p.built|, |p.accepted|);
      s.(left := p.(session := r.next, built := p.built + [information]), toRight := s.toRight + [packet])
  }

  function ReadyLeft(s: System, pollFinal: bool): System {
    var p := s.left;
    var r := ReceiveReadyRequest(p.session, pollFinal);
    if r.status != Ok then s
    else
      var control := ReceiveReadyControl(p.session.receiveSequence, pollFinal);
      s.(toRight := s.toRight + [Packet(FrameOf(p, control, []), |p.built|, |p.accepted|)])
  }

  /** What receiving a packet does to one end. */
  function Receive(p: Peer, packet: Packet): Peer {
    var r := ReceiveFrame(p.session, packet.frame);
    if r.status != Ok then p.(session := r.next)
    else p.(
      session := r.next,
      acked := packet.ack,
      accepted := if KindOf(packet.frame.control) == Information then p.accepted + [packet.frame.information] else p.accepted)
  }

  function DeliverLeft(s: System): System {
    if s.toLeft == [] then s
    else s.(left := Receive(s.left, s.toLeft[0]), toLeft := s.toLeft[1..])
  }

  function LoseLeft(s: System, at: nat): System {
    if at >= |s.toLeft| then s else s.(toLeft := s.toLeft[..at] + s.toLeft[at + 1..])
  }

  function NextLeft(s: System, step: Step): System {
    match step
    case Send(_, i, p) => SendLeft(s, i, p)
    case Ready(_, p) => ReadyLeft(s, p)
    case Deliver(_) => DeliverLeft(s)
    case Lose(_, k) => LoseLeft(s, k)
  }

  function SideOf(step: Step): Side {
    match step
    case Send(d, _, _) => d
    case Ready(d, _) => d
    case Deliver(d) => d
    case Lose(d, _) => d
  }

  function Next(s: System, step: Step): System {
    if SideOf(step) == Left then NextLeft(s, step) else Mirror(NextLeft(Mirror(s), step))
  }

  function Run(s: System, steps: seq<Step>): System {
    if steps == [] then s else Next(Run(s, steps[..|steps| - 1]), steps[|steps| - 1])
  }

  // ---- The invariant ----

  predicate IsInformation(p: Packet) {
    KindOf(p.frame.control) == Information
  }

  /** Packets under way from `a` to `b`. */
  ghost predicate Flight(a: Peer, b: Peer, channel: seq<Packet>) {
    && (forall i :: 0 <= i < |channel| ==>
          && KindOf(channel[i].frame.control) != Unnumbered
          && channel[i].frame.destination == LocalAddress(b.session.options)
          && channel[i].frame.source == RemoteAddress(b.session.options))
    && (forall i :: 0 <= i < |channel| && IsInformation(channel[i]) ==>
          && |b.accepted| <= channel[i].index < |a.built|
          && SendSequenceOf(channel[i].frame.control) == channel[i].index % 8
          && channel[i].frame.information == a.built[channel[i].index])
    && (forall i, j :: 0 <= i < j < |channel| && IsInformation(channel[i]) && IsInformation(channel[j]) ==>
          channel[i].index < channel[j].index)
  }

  /** Acknowledgements under way from `b` back to `a`. */
  ghost predicate Acknowledgements(a: Peer, b: Peer, channel: seq<Packet>) {
    && (forall i :: 0 <= i < |channel| ==>
          && a.acked <= channel[i].ack <= |b.accepted|
          && ReceiveSequenceOf(channel[i].frame.control) == channel[i].ack % 8)
    && (forall i, j :: 0 <= i < j < |channel| ==> channel[i].ack <= channel[j].ack)
  }

  /** The three-bit variables are the unbounded counters modulo 8. */
  ghost predicate Counters(a: Peer, b: Peer) {
    && a.session.state == Connected
    && a.session.sendSequence == |a.built| % 8
    && a.session.acknowledgeSequence == a.acked % 8
    && b.session.receiveSequence == |b.accepted| % 8
    && a.acked <= |b.accepted| <= |a.built|
    && |a.built| - a.acked <= a.session.windowSizeTransmit <= 7
    && b.accepted == a.built[..|b.accepted|]
    && LocalAddress(a.session.options) == RemoteAddress(b.session.options)
  }

  ghost predicate Direction(a: Peer, b: Peer, forth: seq<Packet>, back: seq<Packet>) {
    Counters(a, b) && Flight(a, b, forth) && Acknowledgements(a, b, back)
  }

  ghost predicate Invariant(s: System) {
    && Direction(s.left, s.right, s.toRight, s.toLeft)
    && Direction(s.right, s.left, s.toLeft, s.toRight)
  }

  // ---- Modulo 8 ----

  lemma AheadIsDifference(to: nat, from: nat)
    requires from <= to <= from + 7
    ensures Ahead(to % 8, from % 8) == to - from
  {
  }

  lemma SameResidue(a: nat, b: nat)
    requires a <= b < a + 8 && a % 8 == b % 8
    ensures a == b
  {
  }

  lemma NextResidue(a: nat)
    ensures NextSequence(a % 8) == (a + 1) % 8
  {
  }

  // ---- Every step keeps the invariant ----

  lemma SendKeeps(s: System, information: Octets, pollFinal: bool)
    requires Invariant(s)
    ensures Invariant(SendLeft(s, information, pollFinal))
  {
    hide Built, InformationControl, LegalAddress, LegalControl;
    var a, b := s.left, s.right;
    AheadIsDifference(|a.built|, a.acked);
    NextResidue(|a.built|);
    var t := SendLeft(s, information, pollFinal);
    if t != s {
      var n := |s.toRight|;
      assert t.toRight[..n] == s.toRight;
      assert t.left.built[..|b.accepted|] == a.built[..|b.accepted|];
      FlightAfterSend(s, t);
    }
  }

  lemma FlightAfterSend(s: System, t: System)
    requires Invariant(s)
    requires t.right == s.right && t.left.accepted == s.left.accepted
    requires t.left.session.options == s.left.session.options
    requires |t.toRight| == |s.toRight| + 1 && t.toRight[..|s.toRight|] == s.toRight
    requires |t.left.built| == |s.left.built| + 1 && t.left.built[..|s.left.built|] == s.left.built
    requires var p := t.toRight[|s.toRight|];
      && IsInformation(p) && p.index == |s.left.built| && p.ack == |s.left.accepted|
      && p.frame == FrameOf(s.left, p.frame.control, t.left.built[|s.left.built|])
      && SendSequenceOf(p.frame.control) == p.index % 8
      && ReceiveSequenceOf(p.frame.control) == p.ack % 8
    ensures Flight(t.left, t.right, t.toRight)
    ensures Acknowledgements(t.right, t.left, t.toRight)
  {
    hide LegalAddress, LegalControl;
    var n := |s.toRight|;
    assert forall i :: 0 <= i < n ==> t.toRight[i] == s.toRight[i];
  }

  lemma ReadyKeeps(s: System, pollFinal: bool)
    requires Invariant(s)
    ensures Invariant(ReadyLeft(s, pollFinal))
  {
    hide Built, ReceiveReadyControl, LegalAddress, LegalControl;
    var t := ReadyLeft(s, pollFinal);
    if t != s {
      assert forall i :: 0 <= i < |s.toRight| ==> t.toRight[i] == s.toRight[i];
    }
  }

  lemma FlightLoses(a: Peer, b: Peer, channel: seq<Packet>, at: nat)
    requires Flight(a, b, channel) && at < |channel|
    ensures Flight(a, b, channel[..at] + channel[at + 1..])
  {
    hide LegalAddress, LegalControl, KindOf, SendSequenceOf;
    var shorter := channel[..at] + channel[at + 1..];
    assert forall i :: 0 <= i < |shorter| ==> shorter[i] == channel[if i < at then i else i + 1];
  }

  lemma AcknowledgementsLose(a: Peer, b: Peer, channel: seq<Packet>, at: nat)
    requires Acknowledgements(a, b, channel) && at < |channel|
    ensures Acknowledgements(a, b, channel[..at] + channel[at + 1..])
  {
    hide LegalAddress, LegalControl, KindOf, ReceiveSequenceOf;
    var shorter := channel[..at] + channel[at + 1..];
    assert forall i :: 0 <= i < |shorter| ==> shorter[i] == channel[if i < at then i else i + 1];
  }

  lemma LoseKeeps(s: System, at: nat)
    requires Invariant(s)
    ensures Invariant(LoseLeft(s, at))
  {
    hide Flight, Acknowledgements, Counters;
    if at < |s.toLeft| {
      FlightLoses(s.right, s.left, s.toLeft, at);
      AcknowledgementsLose(s.left, s.right, s.toLeft, at);
    }
  }

  /**
   The next packet is accepted exactly when it is supervisory or the I-frame the
   receiver is waiting for, counted without a modulus; its acknowledgement is
   never the reason for a rejection.
   */
  lemma DeliveryExact(s: System)
    requires Invariant(s) && s.toLeft != []
    ensures var p := s.toLeft[0];
      (ReceiveFrame(s.left.session, p.frame).status == Ok <==> (IsInformation(p) ==> p.index == |s.left.accepted|))
    ensures AcknowledgementInWindow(s.left.session, ReceiveSequenceOf(s.toLeft[0].frame.control))
  {
    hide LegalAddress, LegalControl, Ahead;
    var a, b, p := s.left, s.right, s.toLeft[0];
    AheadIsDifference(p.ack, a.acked);
    AheadIsDifference(|a.built|, a.acked);
    if IsInformation(p) && p.index % 8 == |a.accepted| % 8 {
      SameResidue(|a.accepted|, p.index);
    }
  }

  /** What delivering the next packet does to the receiver. */
  lemma Delivered(s: System)
    requires Invariant(s) && s.toLeft != []
    ensures var a, p := s.left, s.toLeft[0];
      var r := Receive(a, p);
      && (IsInformation(p) && p.index != |a.accepted| ==> r == a)
      && (!IsInformation(p) ==> r == a.(acked := p.ack, session := a.session.(acknowledgeSequence := p.ack % 8)))
      && (IsInformation(p) && p.index == |a.accepted| ==>
            r == a.(acked := p.ack, accepted := a.accepted + [p.frame.information],
                    session := a.session.(acknowledgeSequence := p.ack % 8, receiveSequence := (|a.accepted| + 1) % 8)))
  {
    hide LegalAddress, LegalControl, Ahead, NextSequence, SendSequenceOf, ReceiveUnnumbered;
    DeliveryExact(s);
    NextResidue(|s.left.accepted|);
  }

  lemma DeliverKeepsSending(s: System)
    requires Invariant(s) && s.toLeft != []
    ensures var t := DeliverLeft(s); Direction(t.left, t.right, t.toRight, t.toLeft)
  {
    hide LegalAddress, LegalControl, Receive, KindOf, SendSequenceOf, ReceiveSequenceOf;
    var t := DeliverLeft(s);
    Delivered(s);
    assert forall i :: 0 <= i < |t.toLeft| ==> t.toLeft[i] == s.toLeft[i + 1];
  }

  lemma DeliverKeepsReceiving(s: System)
    requires Invariant(s) && s.toLeft != []
    ensures var t := DeliverLeft(s); Direction(t.right, t.left, t.toLeft, t.toRight)
  {
    hide LegalAddress, LegalControl, Receive, KindOf, SendSequenceOf, ReceiveSequenceOf;
    var a, b, p := s.left, s.right, s.toLeft[0];
    var t := DeliverLeft(s);
    Delivered(s);
    assert forall i :: 0 <= i < |t.toLeft| ==> t.toLeft[i] == s.toLeft[i + 1];
    if IsInformation(p) && p.index == |a.accepted| {
      assert b.built[..|a.accepted| + 1] == b.built[..|a.accepted|] + [b.built[|a.accepted|]];
    }
  }

  lemma DeliverKeeps(s: System)
    requires Invariant(s)
    ensures Invariant(DeliverLeft(s))
  {
    hide Direction, Receive;
    if s.toLeft != [] {
      DeliverKeepsSending(s);
      DeliverKeepsReceiving(s);
    }
  }

  lemma NextLeftKeeps(s: System, step: Step)
    requires Invariant(s)
    ensures Invariant(NextLeft(s, step))
  {
    hide Invariant, SendLeft, ReadyLeft, DeliverLeft, LoseLeft;
    match step
    case Send(_, i, p) => SendKeeps(s, i, p);
    case Ready(_, p) => ReadyKeeps(s, p);
    case Deliver(_) => DeliverKeeps(s);
    case Lose(_, k) => LoseKeeps(s, k);
  }

  lemma MirrorKeeps(s: System)
    ensures Invariant(Mirror(s)) == Invariant(s)
  {
    hide Direction;
  }

  lemma NextKeeps(s: System, step: Step)
    requires Invariant(s)
    ensures Invariant(Next(s, step))
  {
    hide Invariant, NextLeft;
    if SideOf(step) == Left {
      NextLeftKeeps(s, step);
    } else {
      MirrorKeeps(s);
      NextLeftKeeps(Mirror(s), step);
      MirrorKeeps(NextLeft(Mirror(s), step));
    }
  }

  // ---- Whole runs ----

  /** Two sessions that have just connected to each other, and empty channels. */
  ghost predicate Initial(s: System) {
    && s.toRight == [] && s.toLeft == []
    && Fresh(s.left) && Fresh(s.right)
    && LocalAddress(s.left.session.options) == RemoteAddress(s.right.session.options)
    && LocalAddress(s.right.session.options) == RemoteAddress(s.left.session.options)
  }

  predicate Fresh(p: Peer) {
    && p.built == [] && p.accepted == [] && p.acked == 0
    && p.session.state == Connected
    && p.session.sendSequence == 0 && p.session.receiveSequence == 0 && p.session.acknowledgeSequence == 0
  }

  lemma {:induction false} RunKeeps(s: System, steps: seq<Step>)
    requires Initial(s)
    requires s.left.session.windowSizeTransmit <= 7 && s.right.session.windowSizeTransmit <= 7
    ensures Invariant(Run(s, steps))
    ensures Run(s, steps).left.session.windowSizeTransmit == s.left.session.windowSizeTransmit
    ensures Run(s, steps).right.session.windowSizeTransmit == s.right.session.windowSizeTransmit
  {
    if steps != [] {
      var before := Run(s, steps[..|steps| - 1]);
      RunKeeps(s, steps[..|steps| - 1]);
      hide Invariant;
      NextKeeps(before, steps[|steps| - 1]);
      NextKeepsWindow(before, steps[|steps| - 1]);
    }
  }

  lemma NextKeepsWindow(s: System, step: Step)
    requires Invariant(s)
    ensures Next(s, step).left.session.windowSizeTransmit == s.left.session.windowSizeTransmit
    ensures Next(s, step).right.session.windowSizeTransmit == s.right.session.windowSizeTransmit
  {
    hide Built, InformationControl, ReceiveReadyControl, LegalAddress, LegalControl, Ahead, NextSequence;
    hide Direction, ReceiveUnnumbered;
    assert forall i :: 0 <= i < |s.toLeft| ==> KindOf(s.toLeft[i].frame.control) != Unnumbered by { NoUnnumbered(s); }
    assert forall i :: 0 <= i < |s.toRight| ==> KindOf(s.toRight[i].frame.control) != Unnumbered by { NoUnnumbered(s); }
  }

  lemma NoUnnumbered(s: System)
    requires Invariant(s)
    ensures forall i :: 0 <= i < |s.toLeft| ==> KindOf(s.toLeft[i].frame.control) != Unnumbered
    ensures forall i :: 0 <= i < |s.toRight| ==> KindOf(s.toRight[i].frame.control) != Unnumbered
  {
  }

  /** What each end accepted is a prefix of what the other end built. */
  predicate InOrder(s: System) {
    s.right.accepted <= s.left.built && s.left.accepted <= s.right.built
  }

  /** Frames an end has built and not yet seen acknowledged never exceed its window. */
  predicate WithinWindows(s: System) {
    && |s.left.built| - s.left.acked <= s.left.session.windowSizeTransmit
    && |s.right.built| - s.right.acked <= s.right.session.windowSizeTransmit
  }

  /** Safety of the window protocol, for all runs over lossy channels. */
  lemma WindowSafety(s: System, steps: seq<Step>)
    requires Initial(s)
    requires s.left.session.windowSizeTransmit <= 7 && s.right.session.windowSizeTransmit <= 7
    ensures InOrder(Run(s, steps)) && WithinWindows(Run(s, steps))
  {
    hide Run;
    RunKeeps(s, steps);
    var t := Run(s, steps);
    assert Counters(t.left, t.right) && Counters(t.right, t.left);
  }

  /** What travels is the frame: the octets a session builds decode to the packet's frame. */
  lemma PacketOnTheLine(s: System, information: Octets, pollFinal: bool, limits: CodecLimits)
    requires var r := InformationRequest(s.left.session, information, pollFinal); r.status == Ok
    requires SendLeft(s, information, pollFinal).toRight != []
    requires var t := SendLeft(s, information, pollFinal); Encodable(t.toRight[|t.toRight| - 1].frame, limits) == Ok
    ensures var t := SendLeft(s, information, pollFinal);
      DecodeFrame(InformationRequest(s.left.session, information, pollFinal).output, limits)
      == Good(t.toRight[|t.toRight| - 1].frame)
  {
    hide FrameOctets, DecodeFrame, InformationControl, LegalAddress;
    var t := SendLeft(s, information, pollFinal);
    DecodeInvertsEncode(t.toRight[|t.toRight| - 1].frame, limits);
  }

  // ---- Windows above seven ----

  function MirrorStep(step: Step): Step {
    match step
    case Send(d, i, p) => Send(MirrorSide(d), i, p)
    case Ready(d, p) => Ready(MirrorSide(d), p)
    case Deliver(d) => Deliver(MirrorSide(d))
    case Lose(d, k) => Lose(MirrorSide(d), k)
  }

  function MirrorSteps(steps: seq<Step>): seq<Step> {
    seq(|steps|, i requires 0 <= i < |steps| => MirrorStep(steps[i]))
  }

  lemma {:induction false} MirrorRun(s: System, steps: seq<Step>)
    ensures Run(Mirror(s), MirrorSteps(steps)) == Mirror(Run(s, steps))
  {
    hide NextLeft;
    if steps != [] {
      var init, last := steps[..|steps| - 1], steps[|steps| - 1];
      MirrorRun(s, init);
      var mirrored := MirrorSteps(steps);
      assert mirrored[..|mirrored| - 1] == MirrorSteps(init);
      assert Next(Mirror(Run(s, init)), MirrorStep(last)) == Mirror(Next(Run(s, init), last)) by {
        hide NextLeft;
        SameNextLeft(Run(s, init), last);
        SameNextLeft(Mirror(Run(s, init)), last);
      }
    }
  }

  lemma SameNextLeft(s: System, step: Step)
    ensures NextLeft(s, step) == NextLeft(s, MirrorStep(step))
  {
  }

  lemma RunSnoc(s: System, steps: seq<Step>, step: Step)
    ensures Run(s, steps + [step]) == Next(Run(s, steps), step)
  {
    assert (steps + [step])[..|steps|] == steps;
  }

  /** The session's limits let a frame with one information octet through. */
  predicate CanCarry(p: Peer) {
    Encodable(FrameOf(p, 0, [0]), p.session.options.limits) == Ok
  }

  lemma CarriesAll(p: Peer, control: HdlcControl)
    requires CanCarry(p)
    ensures Built(p.session.options, control, [0]).Good? && Built(p.session.options, control, []).Good?
  {
    hide FrameOctets;
  }

  function Flood(k: nat): seq<Step> {
    seq(k, _ => Send(Left, [], false))
  }

  /** With a window of eight or more the modulo-8 count never stops the sender. */
  lemma {:induction false} FloodState(s: System, k: nat)
    requires Initial(s) && CanCarry(s.left) && s.left.session.windowSizeTransmit >= 8
    ensures var t := Run(s, Flood(k));
      && t.right == s.right && t.toLeft == []
      && t.left.session == s.left.session.(sendSequence := k % 8)
      && t.left.accepted == []
      && |t.left.built| == k && (k > 0 ==> t.left.built[0] == [])
      && |t.toRight| == k
  {
    hide Built, LegalAddress, InformationControl, CanCarry, SendLeft;
    if k > 0 {
      FloodState(s, k - 1);
      assert Flood(k) == Flood(k - 1) + [Send(Left, [], false)];
      RunSnoc(s, Flood(k - 1), Send(Left, [], false));
      var t := Run(s, Flood(k - 1));
      CarriesAll(s.left, InformationControl(t.left.session.sendSequence, 0, false));
      NextResidue(k - 1);
      SendResult(t, [], false);
    }
  }

  function Drops(k: nat): seq<Step> {
    seq(k, _ => Lose(Right, 0))
  }

  lemma {:induction false} DropState(s: System, before: seq<Step>, k: nat)
    requires k <= |Run(s, before).toRight|
    ensures Run(s, before + Drops(k)) == Run(s, before).(toRight := Run(s, before).toRight[k..])
  {
    hide Run, Next;
    var t := Run(s, before);
    if k == 0 {
      assert before + Drops(0) == before;
      assert t.toRight[0..] == t.toRight;
    } else {
      DropState(s, before, k - 1);
      assert before + Drops(k) == (before + Drops(k - 1)) + [Lose(Right, 0)];
      RunSnoc(s, before + Drops(k - 1), Lose(Right, 0));
      LoseFirst(Run(s, before + Drops(k - 1)));
      assert t.toRight[k - 1..][1..] == t.toRight[k..];
    }
  }

  lemma LoseFirst(s: System)
    requires s.toRight != []
    ensures Next(s, Lose(Right, 0)) == s.(toRight := s.toRight[1..])
  {
    assert s.toRight[..0] + s.toRight[1..] == s.toRight[1..];
  }

  /** Nine frames, the first eight lost: the ninth is taken for the first. */
  function Overrun(): seq<Step> {
    ((Flood(8) + [Send(Left, [0], false)]) + Drops(8)) + [Deliver(Right)]
  }

  /** A send that is allowed and encodable, spelled out. */
  lemma SendResult(s: System, information: Octets, pollFinal: bool)
    requires s.left.session.state == Connected && CanSendInformation(s.left.session)
    requires Built(s.left.session.options,
      InformationControl(s.left.session.sendSequence, s.left.session.receiveSequence, pollFinal), information).Good?
    ensures var p := s.left;
      var control := InformationControl(p.session.sendSequence, p.session.receiveSequence, pollFinal);
      SendLeft(s, information, pollFinal) == System(
        p.(session := p.session.(sendSequence := NextSequence(p.session.sendSequence)), built := p.built + [information]),
        s.right,
        s.toRight + [Packet(FrameOf(p, control, information), |p.built|, |p.accepted|)],
        s.toLeft)
  {
    hide Built, InformationControl, LegalAddress, CanSendInformation;
  }

  lemma NinthFrame(s: System)
    requires Initial(s) && CanCarry(s.left) && s.left.session.windowSizeTransmit >= 8
    ensures var t := Run(s, Flood(8) + [Send(Left, [0], false)]);
      && t.right == s.right
      && |t.left.built| == 9 && t.left.built[0] == []
      && |t.toRight| == 9
      && t.toRight[8].frame == FrameOf(s.left, InformationControl(0, 0, false), [0])
  {
    hide Run, Built, LegalAddress, LegalControl, InformationControl, CanCarry, SendLeft, ReadyLeft, DeliverLeft, LoseLeft, Flood;
    FloodState(s, 8);
    var eight := Run(s, Flood(8));
    RunSnoc(s, Flood(8), Send(Left, [0], false));
    CarriesAll(s.left, InformationControl(0, 0, false));
    assert eight.left.session == s.left.session.(sendSequence := 0);
    SendResult(eight, [0], false);
  }

  lemma TakenForTheFirst(s: System, p: Packet)
    requires Initial(s)
    requires p.frame == FrameOf(s.left, InformationControl(0, 0, false), [0])
    ensures Receive(s.right, p).accepted == [[0]]
  {
    hide LegalAddress, LegalControl;
    assert [] + [[0]] == [[0]];
  }

  lemma OverrunBreaksOrder(s: System)
    requires Initial(s) && CanCarry(s.left) && s.left.session.windowSizeTransmit >= 8
    ensures !InOrder(Run(s, Overrun()))
  {
    hide Run, LegalAddress, LegalControl, Receive, FrameOf, InformationControl;
    var nine := Flood(8) + [Send(Left, [0], false)];
    NinthFrame(s);
    var t9 := Run(s, nine);
    DropState(s, nine, 8);
    assert Run(s, nine + Drops(8)).toRight == [t9.toRight[8]];
    RunSnoc(s, nine + Drops(8), Deliver(Right));
    TakenForTheFirst(s, t9.toRight[8]);
    var final := Run(s, Overrun());
    assert final.right.accepted == [[0]];
    assert final.left.built[0] == [];
  }

  /** In-order delivery holds on every run exactly when both windows are at most seven. */
  lemma WindowsExact(s: System)
    requires Initial(s) && CanCarry(s.left) && CanCarry(s.right)
    ensures (forall steps :: InOrder(Run(s, steps))) <==>
      s.left.session.windowSizeTransmit <= 7 && s.right.session.windowSizeTransmit <= 7
  {
    hide Run, Overrun, InOrder;
    if s.left.session.windowSizeTransmit > 7 {
      OverrunBreaksOrder(s);
    } else if s.right.session.windowSizeTransmit > 7 {
      OverrunBreaksOrder(Mirror(s));
      MirrorRun(s, MirrorSteps(Overrun()));
      MirrorTwice(Overrun());
      MirrorOrder(Run(s, MirrorSteps(Overrun())));
    } else {
      forall steps: seq<Step>
        ensures InOrder(Run(s, steps))
      {
        WindowSafety(s, steps);
      }
    }
  }

  lemma MirrorTwice(steps: seq<Step>)
    ensures MirrorSteps(MirrorSteps(steps)) == steps
  {
  }

  lemma MirrorOrder(s: System)
    ensures InOrder(Mirror(s)) == InOrder(s)
  {
  }
}
