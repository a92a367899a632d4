/**
 Two profile channels that take turns, over lines that lose nothing: every APDU sent
 is received octet for octet, in both directions and for every interleaving of the
 two ends.
 */
module HdlcDelivery {
  import opened Bytes
  import opened HdlcTypes
  import opened HdlcCodec
  import opened HdlcSession
  import opened HdlcSegmentation
  import opened HdlcProfile
  import HdlcWindow
  import HdlcHandshake
  import HdlcNegotiation
  import Llc

  /** Where an end is in its current call. `granted` says that it has just read a frame to open its window. */
  datatype Phase =
    | MayBegin
    | Sending(rest: Octets, chunk: nat, granted: bool)
    | Listening
    | Stopped(status: ProfileStatus)

  /** One end, with the history of the APDUs it sent and received. */
  datatype Node = Node(endpoint: Endpoint, phase: Phase, sent: seq<Octets>, received: seq<Octets>)

  /** An end after one step, what is left of its input, and what it wrote. */
  datatype Turn = Turn(node: Node, inbox: seq<HdlcFrame>, written: seq<HdlcFrame>)

  // ---- One end ----

  function Smaller(a: nat, b: nat): (r: nat)
    ensures r <= a && r <= b
  {
    if a < b then a else b
  }

  /** SendApdu: refused outside the end's turn or when the APDU is too large. */
  function Begin(n: Node, apdu: Octets): Node {
    var e := n.endpoint;
    if n.phase != MayBegin || e.session.state != Connected || (e.maximumApduSize != 0 && |apdu| > e.maximumApduSize) then n
    else
      var lpdu := Llc.EncodeLpdu(e.direction, apdu);
      n.(endpoint := PreparedToSend(e), phase := Sending(lpdu, ChunkSize(e, |lpdu|), false), sent := n.sent + [apdu])
  }

  /** The end after an operation: on with the call, or out of it with a status. */
  function Settle(n: Node, r: Acted, phase: Phase): Node {
    n.(endpoint := r.endpoint, phase := if r.status == POk then phase else Stopped(r.status))
  }

  /** One pass of the loop the end is in. A read on an empty line waits. */
  function Advance(n: Node, inbox: seq<HdlcFrame>): Turn {
    var e := n.endpoint;
    match n.phase
    case MayBegin => Turn(n, inbox, [])
    case Stopped(_) => Turn(n, inbox, [])
    case Sending(rest, chunk, granted) =>
      if granted || CanSendInformation(e.session) then
        var size := Smaller(chunk, |rest|);
        var final := |rest| <= chunk;
        var r := SendInformation(e, rest[..size], final);
        Turn(Settle(n, r, if final then Listening else Sending(rest[size..], chunk, false)), inbox, r.written)
      else if inbox == [] then Turn(n, inbox, [])
      else
        var r := ReceiveControl(e, inbox[0]);
        Turn(Settle(n, r, Sending(rest, chunk, true)), inbox[1..], r.written)
    case Listening =>
      if e.pendingApdus != [] then
        Turn(n.(endpoint := e.(pendingApdus := e.pendingApdus[1..]), phase := MayBegin,
                received := n.received + [e.pendingApdus[0]]), inbox, [])
      else if inbox == [] then Turn(n, inbox, [])
      else
        var r := ReceiveToPending(e, inbox[0]);
        var node := if r.status == PNeedMoreData then n.(endpoint := r.endpoint) else Settle(n, r, Listening);
        Turn(node, inbox[1..], r.written)
  }

  // ---- Both ends ----

  datatype Link = Link(left: Node, right: Node, toRight: seq<HdlcFrame>, toLeft: seq<HdlcFrame>)

  datatype Move = DoBegin(side: HdlcWindow.Side, apdu: Octets) | DoAdvance(side: HdlcWindow.Side)

  function Reflect(s: Link): Link {
    Link(s.right, s.left, s.toLeft, s.toRight)
  }

  function MoveLeft(s: Link, m: Move): Link {
    match m
    case DoBegin(_, apdu) => s.(left := Begin(s.left, apdu))
    case DoAdvance(_) =>
      var t := Advance(s.left, s.toLeft);
      Link(t.node, s.right, s.toRight + t.written, t.inbox)
  }

  function Moved(s: Link, m: Move): Link {
    if m.side == HdlcWindow.Left then MoveLeft(s, m) else Reflect(MoveLeft(Reflect(s), m))
  }

  function Play(s: Link, moves: seq<Move>): Link {
    if moves == [] then s else Moved(Play(s, moves[..|moves| - 1]), moves[|moves| - 1])
  }

  // ---- What is on the lines ----

  /** Receive-ready frames for the counts strictly between `from` and `to`. */
  function Acks(o: Options, from: nat, to: nat): seq<HdlcFrame>
    decreases if from < to then to - from else 0
  {
    if from + 1 >= to then [] else [ReadyFrame(o, (from + 1) % 8)] + Acks(o, from + 1, to)
  }

  lemma {:induction false} AcksSnoc(o: Options, from: nat, to: nat)
    requires from < to
    ensures Acks(o, from, to + 1) == Acks(o, from, to) + [ReadyFrame(o, to % 8)]
    decreases if from < to then to - from else 0
  {
    hide ReadyFrame;
    if from + 1 < to {
      AcksSnoc(o, from + 1, to);
    } else {
      assert Acks(o, to, to + 1) == [];
    }
  }

  /** The I-frames that carry the first `count` chunks of `octets`, numbered from `send`. */
  function Flight(o: Options, octets: Octets, chunk: nat, count: nat, send: nat, receive: nat): seq<HdlcFrame>
    requires chunk > 0
  {
    if count == 0 || octets == [] then []
    else
      var size := Smaller(chunk, |octets|);
      [InformationFrame(o, send % 8, receive % 8, octets[..size], |octets| <= chunk)]
      + Flight(o, octets[size..], chunk, count - 1, send + 1, receive)
  }

  /** What is left of `octets` after `count` chunks. */
  function After(octets: Octets, chunk: nat, count: nat): Octets
    requires chunk > 0
  {
    if count == 0 || octets == [] then octets
    else After(octets[Smaller(chunk, |octets|)..], chunk, count - 1)
  }

  lemma {:induction false} FlightSnoc(o: Options, octets: Octets, chunk: nat, count: nat, send: nat, receive: nat)
    requires chunk > 0 && After(octets, chunk, count) != []
    ensures var rest := After(octets, chunk, count);
      var size := Smaller(chunk, |rest|);
      && Flight(o, octets, chunk, count + 1, send, receive) ==
         Flight(o, octets, chunk, count, send, receive)
         + [InformationFrame(o, (send + count) % 8, receive % 8, rest[..size], |rest| <= chunk)]
      && After(octets, chunk, count + 1) == rest[size..]
      && |Flight(o, octets, chunk, count, send, receive)| == count
    decreases count
  {
    hide InformationFrame;
    var size := Smaller(chunk, |octets|);
    if count == 0 {
      assert Flight(o, octets[size..], chunk, 0, send + 1, receive) == [];
      assert After(octets[size..], chunk, 0) == octets[size..];
    } else {
      FlightSnoc(o, octets[size..], chunk, count - 1, send + 1, receive);
    }
  }

  // ---- The invariant ----

  /** Unbounded counts of the I-frames one end has built, accepted and seen acknowledged. */
  datatype Ledger = Ledger(built: nat, accepted: nat, acked: nat)

  /**
   What the talker has not yet got across, how many chunks of it are under way, their
   size, and whether the talker is the end that spoke first.
   */
  datatype Talk = Talk(talker: Ledger, listener: Ledger, left: Octets, count: nat, chunk: nat, first: bool)

  /** The configuration of one end, as the other end and its own frames need it. */
  predicate Configured(e: Endpoint, peer: Endpoint) {
    && e.session.state == Connected
    && LocalAddress(e.session.options) == RemoteAddress(peer.session.options)
    && RemoteAddress(e.session.options) == LocalAddress(peer.session.options)
    && 1 <= e.session.windowSizeTransmit <= 7
    && 0 < e.maximumApduSize == peer.maximumApduSize
    && e.maximumApduSize + 3 <= EffectiveReassemblySize(e.reassemblyLimits) < SIZE_RANGE
    && CanCarry(PreparedToSend(e), ChunkSize(e, e.maximumApduSize + 3))
  }

  ghost predicate Numbered(s: Session, l: Ledger) {
    && s.sendSequence == l.built % 8
    && s.receiveSequence == l.accepted % 8
    && s.acknowledgeSequence == l.acked % 8
    && l.acked <= l.built <= l.acked + s.windowSizeTransmit
  }

  predicate Partway(n: Node) {
    n.endpoint.reassembly.Partial?
  }

  ghost predicate Counted(t: Node, l: Node, k: Talk) {
    && Numbered(t.endpoint.session, k.talker)
    && Numbered(l.endpoint.session, k.listener)
    && k.talker.accepted == k.listener.built
    && k.listener.accepted + k.count == k.talker.built
    && k.talker.acked <= k.listener.accepted
    && (Partway(l) || l.endpoint.pendingApdus != [] ==> k.listener.acked == k.listener.built)
    && (!Partway(l) && l.endpoint.pendingApdus == [] ==> k.talker.acked == k.listener.accepted)
  }

  ghost predicate OnTheLines(t: Node, l: Node, toListener: seq<HdlcFrame>, toTalker: seq<HdlcFrame>, k: Talk)
    requires k.chunk > 0
  {
    var to, lo := t.endpoint.session.options, l.endpoint.session.options;
    && toListener ==
       Acks(to, k.listener.acked, k.listener.built)
       + Flight(to, k.left, k.chunk, k.count, k.listener.accepted, k.talker.accepted)
    && |Flight(to, k.left, k.chunk, k.count, k.listener.accepted, k.talker.accepted)| == k.count
    && toTalker == Acks(lo, k.talker.acked, k.listener.accepted + (if Partway(l) then 1 else 0))
  }

  /** The APDU being said, split between what the listener holds and what is left. */
  ghost predicate Said(t: Node, l: Node, k: Talk)
    requires k.chunk > 0
  {
    var e, p := t.endpoint, l.endpoint;
    var rest := After(k.left, k.chunk, k.count);
    && l.phase == Listening
    && e.reassembly == Idle && e.pendingApdus == []
    && (p.reassembly.Partial? ==>
          && FromPeer(p.session, p.reassembly.frame)
          && KindOf(p.reassembly.frame.control) == Information)
    && t.received == l.sent
    && |t.sent| + (if k.first then 0 else 1) == |l.sent| + (if t.phase == MayBegin then 0 else 1)
    && match t.phase
       case Stopped(_) => false
       case MayBegin =>
         l.received == t.sent && k.left == [] && p.reassembly == Idle && p.pendingApdus == []
       case Sending(r, chunk, granted) =>
         && Saying(t, l, k)
         && r == rest != [] && chunk == k.chunk && CanCarry(e, chunk)
         && p.pendingApdus == []
         && (granted ==> k.talker.built < k.talker.acked + e.session.windowSizeTransmit)
       case Listening =>
         && Saying(t, l, k) && rest == []
         && (p.pendingApdus != [] <==> k.left == [])
  }

  ghost predicate Saying(t: Node, l: Node, k: Talk) {
    var e, p := t.endpoint, l.endpoint;
    && |t.sent| > 0
    && var apdu := t.sent[|t.sent| - 1];
    && l.received == t.sent[..|t.sent| - 1]
    && |apdu| <= e.maximumApduSize
    && (p.pendingApdus == [] ==> PendingOctets(p.reassembly) + k.left == Llc.EncodeLpdu(e.direction, apdu))
    && (p.pendingApdus != [] ==> p.pendingApdus == [apdu] && p.reassembly == Idle)
  }

  ghost predicate Talking(t: Node, l: Node, toListener: seq<HdlcFrame>, toTalker: seq<HdlcFrame>, k: Talk) {
    && k.chunk > 0
    && Configured(t.endpoint, l.endpoint) && Configured(l.endpoint, t.endpoint)
    && Counted(t, l, k)
    && OnTheLines(t, l, toListener, toTalker, k)
    && Said(t, l, k)
  }

  // ---- Every step keeps the invariant ----

  lemma CarriesLess(e: Endpoint, size: nat, less: nat)
    requires CanCarry(e, size) && less <= size
    ensures CanCarry(e, less)
  {
  }

  /** The next acknowledgement an end can read moves its count by one. */
  lemma ReadyCounts(s: Session, l: Ledger)
    requires Numbered(s, l) && l.acked < l.built && s.windowSizeTransmit <= 7
    ensures AcknowledgementInWindow(s, (l.acked + 1) % 8)
    ensures Numbered(s.(acknowledgeSequence := (l.acked + 1) % 8), l.(acked := l.acked + 1))
  {
    hide Ahead;
    HdlcWindow.AheadIsDifference(l.acked + 1, l.acked);
    HdlcWindow.AheadIsDifference(l.built, l.acked);
  }

  lemma WindowCounts(s: Session, l: Ledger)
    requires Numbered(s, l) && s.windowSizeTransmit <= 7
    ensures CanSendInformation(s) <==> l.built < l.acked + s.windowSizeTransmit
    ensures AcknowledgementInWindow(s, l.built % 8)
    ensures NextSequence(s.sendSequence) == (l.built + 1) % 8
    ensures NextSequence(s.receiveSequence) == (l.accepted + 1) % 8
  {
    hide Ahead, NextSequence;
    HdlcWindow.AheadIsDifference(l.built, l.acked);
    HdlcWindow.NextResidue(l.built);
    HdlcWindow.NextResidue(l.accepted);
  }

  lemma TalkerBegins(t: Node, l: Node, toListener: seq<HdlcFrame>, toTalker: seq<HdlcFrame>, k: Talk, apdu: Octets)
    returns (k': Talk)
    requires Talking(t, l, toListener, toTalker, k)
    ensures k'.first == k.first
    ensures Talking(Begin(t, apdu), l, toListener, toTalker, k')
  {
    hide Room, Acks, LegalAddress, EffectiveReassemblySize, Llc.HeaderOf;
    var e := t.endpoint;
    k' := k;
    if Begin(t, apdu) != t {
      var lpdu := Llc.EncodeLpdu(e.direction, apdu);
      k' := k.(left := lpdu, count := 0, chunk := ChunkSize(e, |lpdu|));
      CarriesLess(PreparedToSend(e), ChunkSize(e, e.maximumApduSize + 3), k'.chunk);
      assert [] + lpdu == lpdu;
      assert (t.sent + [apdu])[..|t.sent|] == t.sent;
    }
  }

  lemma TalkerSends(t: Node, l: Node, toListener: seq<HdlcFrame>, toTalker: seq<HdlcFrame>, k: Talk) returns (k': Talk)
    requires Talking(t, l, toListener, toTalker, k)
    requires t.phase.Sending? && (t.phase.granted || CanSendInformation(t.endpoint.session))
    ensures k'.first == k.first
    ensures var turn := Advance(t, toTalker); Talking(turn.node, l, toListener + turn.written, turn.inbox, k')
  {
    hide Acks, Flight, After, LegalAddress, EffectiveReassemblySize, SendInformation, CanSendInformation,
      InformationFrame, NextSequence, Room;
    var e, rest := t.endpoint, t.phase.rest;
    var size := Smaller(k.chunk, |rest|);
    WindowCounts(e.session, k.talker);
    CarriesLess(e, k.chunk, size);
    Sends(e, rest[..size], |rest| <= k.chunk);
    FlightSnoc(e.session.options, k.left, k.chunk, k.count, k.listener.accepted, k.talker.accepted);
    k' := k.(count := k.count + 1, talker := k.talker.(built := k.talker.built + 1));
    AppendAssociates(Acks(e.session.options, k.listener.acked, k.listener.built),
      Flight(e.session.options, k.left, k.chunk, k.count, k.listener.accepted, k.talker.accepted),
      Advance(t, toTalker).written);
    NothingLeft(k);
  }

  lemma NothingLeft(k: Talk)
    requires k.chunk > 0 && After(k.left, k.chunk, k.count) != []
    ensures k.left != []
  {
  }

  lemma TalkerReads(t: Node, l: Node, toListener: seq<HdlcFrame>, toTalker: seq<HdlcFrame>, k: Talk) returns (k': Talk)
    requires Talking(t, l, toListener, toTalker, k)
    requires toTalker != []
    requires t.phase.Listening? || (t.phase.Sending? && !t.phase.granted && !CanSendInformation(t.endpoint.session))
    ensures k'.first == k.first
    ensures var turn := Advance(t, toTalker);
      && turn.inbox == toTalker[1..] && turn.written == []
      && Talking(turn.node, l, toListener, turn.inbox, k')
  {
    hide Flight, After, LegalAddress, EffectiveReassemblySize, CanSendInformation,
      Room, ReceiveToPending, ReceiveControl, KindOf, AcknowledgementInWindow, Llc.EncodeLpdu, PendingOctets;
    var e := t.endpoint;
    WindowCounts(e.session, k.talker);
    var f := ReadyFrame(l.endpoint.session.options, (k.talker.acked + 1) % 8);
    assert toTalker[0] == f;
    ReadyCounts(e.session, k.talker);
    TakesReady(e, f);
    k' := k.(talker := k.talker.(acked := k.talker.acked + 1));
  }

  /** The listener reads an acknowledgement left over from its own last turn. */
  lemma ListenerReadsReady(t: Node, l: Node, toListener: seq<HdlcFrame>, toTalker: seq<HdlcFrame>, k: Talk)
    returns (k': Talk)
    requires Talking(t, l, toListener, toTalker, k)
    requires k.listener.acked + 1 < k.listener.built
    ensures k'.first == k.first
    ensures toListener != []
    ensures var turn := Advance(l, toListener);
      && turn.inbox == toListener[1..] && turn.written == []
      && Talking(t, turn.node, turn.inbox, toTalker, k')
  {
    hide Flight, After, LegalAddress, EffectiveReassemblySize, Room, ReceiveToPending, KindOf, AcknowledgementInWindow,
      CanSendInformation, Llc.HeaderOf;
    var e := l.endpoint;
    var to := t.endpoint.session.options;
    var f := ReadyFrame(to, (k.listener.acked + 1) % 8);
    assert toListener[0] == f;
    ReadyCounts(e.session, k.listener);
    TakesReady(e, f);
    k' := k.(listener := k.listener.(acked := k.listener.acked + 1));
    assert toListener[1..] == Acks(to, k'.listener.acked, k'.listener.built)
      + Flight(to, k.left, k.chunk, k.count, k.listener.accepted, k.talker.accepted);
  }

  /** `f` is the next chunk and heads the listener's line; `k'` is the talk once it is accepted. */
  ghost predicate Heads(t: Node, toListener: seq<HdlcFrame>, k: Talk, f: HdlcFrame, k': Talk)
    requires k.chunk > 0
  {
    var size := Smaller(k.chunk, |k.left|);
    && k.left != [] && k.count > 0 && toListener != []
    && toListener[0] == f
    && f == InformationFrame(t.endpoint.session.options, k.listener.accepted % 8, k.talker.accepted % 8,
         k.left[..size], |k.left| <= k.chunk)
    && k' == k.(left := k.left[size..], count := k.count - 1,
         listener := Ledger(k.listener.built, k.listener.accepted + 1, k.listener.built))
    && toListener[1..] ==
       Flight(t.endpoint.session.options, k'.left, k.chunk, k'.count, k'.listener.accepted, k'.talker.accepted)
    && |toListener[1..]| == k'.count
    && After(k'.left, k.chunk, k'.count) == After(k.left, k.chunk, k.count)
  }

  lemma FlightHead(o: Options, octets: Octets, chunk: nat, count: nat, send: nat, receive: nat)
    requires chunk > 0 && Flight(o, octets, chunk, count, send, receive) != []
    ensures octets != [] && count > 0
    ensures var size := Smaller(chunk, |octets|);
      var flight := Flight(o, octets, chunk, count, send, receive);
      && flight[0] == InformationFrame(o, send % 8, receive % 8, octets[..size], |octets| <= chunk)
      && flight[1..] == Flight(o, octets[size..], chunk, count - 1, send + 1, receive)
      && After(octets, chunk, count) == After(octets[size..], chunk, count - 1)
  {
    hide InformationFrame;
  }

  lemma NextChunk(t: Node, l: Node, toListener: seq<HdlcFrame>, toTalker: seq<HdlcFrame>, k: Talk)
    returns (f: HdlcFrame, k': Talk)
    requires Talking(t, l, toListener, toTalker, k)
    requires k.listener.acked + 1 >= k.listener.built && toListener != []
    ensures Heads(t, toListener, k, f, k')
  {
    hide LegalAddress, EffectiveReassemblySize, Configured, Counted, Said, InformationFrame, Flight, After, Smaller;
    var to := t.endpoint.session.options;
    assert Acks(to, k.listener.acked, k.listener.built) == [];
    assert toListener == Flight(to, k.left, k.chunk, k.count, k.listener.accepted, k.talker.accepted);
    FlightHead(to, k.left, k.chunk, k.count, k.listener.accepted, k.talker.accepted);
    f := toListener[0];
    k' := k.(left := k.left[Smaller(k.chunk, |k.left|)..], count := k.count - 1,
      listener := Ledger(k.listener.built, k.listener.accepted + 1, k.listener.built));
  }

  lemma AcceptCounts(s: Session, l: Ledger, f: HdlcFrame)
    requires Numbered(s, l) && s.windowSizeTransmit <= 7
    requires ReceiveSequenceOf(f.control) == l.built % 8
    ensures AcknowledgementInWindow(s, ReceiveSequenceOf(f.control))
    ensures Numbered(Accepted(s, f), Ledger(l.built, l.accepted + 1, l.built))
    ensures NextSequence(s.receiveSequence) == (l.accepted + 1) % 8
  {
    WindowCounts(s, l);
  }

  /** The listener can take it, and the octets add up. */
  lemma ChunkContinues(t: Node, l: Node, toListener: seq<HdlcFrame>, k: Talk, f: HdlcFrame, k': Talk)
    requires k.chunk > 0 && Heads(t, toListener, k, f, k')
    requires Configured(t.endpoint, l.endpoint) && Configured(l.endpoint, t.endpoint)
    requires Counted(t, l, k) && Said(t, l, k) && l.endpoint.pendingApdus == []
    ensures Saying(t, l, k)
    ensures Continues(l.endpoint, f)
    ensures (PendingOctets(l.endpoint.reassembly) + f.information) + k'.left
         == Llc.EncodeLpdu(t.endpoint.direction, t.sent[|t.sent| - 1])
    ensures f.segmented <==> k'.left != []
  {
    hide After, Flight, LegalAddress, EffectiveReassemblySize, Room, KindOf, AcknowledgementInWindow, Llc.HeaderOf;
    var size := Smaller(k.chunk, |k.left|);
    var before := PendingOctets(l.endpoint.reassembly);
    AcceptCounts(l.endpoint.session, k.listener, f);
    assert k.left == k.left[..size] + k.left[size..];
    AppendAssociates(before, k.left[..size], k.left[size..]);
    assert |before + k.left| == |t.sent[|t.sent| - 1]| + 3;
  }

  /** One more acknowledgement on the talker's line. */
  lemma ReadyFollows(o: Options, acked: nat, accepted: nat, partway: bool)
    requires acked <= accepted && (!partway ==> acked == accepted)
    ensures Acks(o, acked, accepted + (if partway then 1 else 0)) + [ReadyFrame(o, (accepted + 1) % 8)]
      == Acks(o, acked, accepted + 2)
    ensures Acks(o, acked, accepted + (if partway then 1 else 0)) == Acks(o, acked, accepted + 1)
  {
    hide ReadyFrame;
    AcksSnoc(o, acked, accepted + 1);
  }

  lemma NoAcks(o: Options, n: nat)
    ensures Acks(o, n, n) == []
  {
  }

  lemma RoomForReady(e: Endpoint, peer: Endpoint)
    requires Configured(e, peer)
    ensures var o := e.session.options; Room(RemoteAddress(o), LocalAddress(o), 0, o.limits)
  {
  }

  /** The listener after a chunk: either it holds more and acknowledges, or it has the whole APDU. */
  function AfterChunk(l: Node, f: HdlcFrame, apdu: Octets): Node {
    var e := l.endpoint;
    l.(endpoint :=
      if f.segmented then e.(reassembly := Partial(Joined(e.reassembly, f)), session := Accepted(e.session, f))
      else e.(reassembly := Idle, session := Accepted(e.session, f), pendingApdus := e.pendingApdus + [apdu]))
  }

  lemma ChunkTurn(t: Node, l: Node, toListener: seq<HdlcFrame>, k: Talk, f: HdlcFrame, k': Talk)
    requires k.chunk > 0 && Heads(t, toListener, k, f, k')
    requires Configured(t.endpoint, l.endpoint) && Configured(l.endpoint, t.endpoint)
    requires Counted(t, l, k) && Said(t, l, k) && l.endpoint.pendingApdus == []
    ensures |t.sent| > 0
    ensures Advance(l, toListener) == Turn(
      AfterChunk(l, f, t.sent[|t.sent| - 1]), toListener[1..],
      if f.segmented then [ReadyFrame(l.endpoint.session.options, NextSequence(l.endpoint.session.receiveSequence))] else [])
  {
    ChunkContinues(t, l, toListener, k, f, k');
    RoomForReady(l.endpoint, t.endpoint);
    hide After, Flight, LegalAddress, Room, EffectiveReassemblySize, KindOf, Continues, Configured, Counted,
      Llc.EncodeLpdu, ReadyFrame, NextSequence, ReceiveToPending;
    assert Saying(t, l, k);
    var apdu := t.sent[|t.sent| - 1];
    if f.segmented {
      TakesSegment(l.endpoint, f);
    } else {
      var all := PendingOctets(l.endpoint.reassembly) + f.information;
      assert all + [] == all;
      assert |apdu| <= l.endpoint.maximumApduSize by { SameMaximum(t.endpoint, l.endpoint); }
      TakesLast(l.endpoint, f, t.endpoint.direction, apdu);
    }
  }

  lemma SameMaximum(e: Endpoint, peer: Endpoint)
    requires Configured(e, peer)
    ensures e.maximumApduSize == peer.maximumApduSize
  {
  }

  lemma JoinedFrom(e: Endpoint, f: HdlcFrame)
    requires Continues(e, f)
    ensures FromPeer(e.session, Joined(e.reassembly, f))
    ensures KindOf(Joined(e.reassembly, f).control) == Information
    ensures Joined(e.reassembly, f).information == PendingOctets(e.reassembly) + f.information
  {
    assert [] + f.information == f.information;
  }

  lemma SaidAfterChunk(t: Node, l: Node, toListener: seq<HdlcFrame>, k: Talk, f: HdlcFrame, k': Talk)
    requires k.chunk > 0 && Heads(t, toListener, k, f, k')
    requires Configured(t.endpoint, l.endpoint) && Configured(l.endpoint, t.endpoint)
    requires Counted(t, l, k) && Said(t, l, k) && l.endpoint.pendingApdus == []
    ensures |t.sent| > 0
    ensures Said(t, AfterChunk(l, f, t.sent[|t.sent| - 1]), k')
  {
    ChunkContinues(t, l, toListener, k, f, k');
    JoinedFrom(l.endpoint, f);
    hide Flight, LegalAddress, Room, EffectiveReassemblySize, KindOf, Continues, Configured, Counted,
      Llc.EncodeLpdu, NextSequence, CanCarry, Joined;
  }

  lemma ListenerReadsChunk(t: Node, l: Node, toListener: seq<HdlcFrame>, toTalker: seq<HdlcFrame>, k: Talk)
    returns (k': Talk)
    requires Talking(t, l, toListener, toTalker, k)
    requires k.listener.acked + 1 >= k.listener.built && toListener != [] && l.endpoint.pendingApdus == []
    ensures k'.first == k.first
    ensures var turn := Advance(l, toListener);
      && turn.inbox == toListener[1..]
      && Talking(t, turn.node, turn.inbox, toTalker + turn.written, k')
  {
    hide Flight, After, Acks, LegalAddress, EffectiveReassemblySize, Room, KindOf, Continues, Advance, Said,
      CanSendInformation, ReadyFrame, NextSequence, Smaller, AcknowledgementInWindow, InformationFrame;
    var f;
    f, k' := NextChunk(t, l, toListener, toTalker, k);
    ChunkTurn(t, l, toListener, k, f, k');
    SaidAfterChunk(t, l, toListener, k, f, k');
    AcceptCounts(l.endpoint.session, k.listener, f);
    ReadyFollows(l.endpoint.session.options, k.talker.acked, k.listener.accepted, Partway(l));
    NoAcks(t.endpoint.session.options, k'.listener.built);
    assert [] + toListener[1..] == toListener[1..];
    assert toTalker + [] == toTalker;
    assert k.talker.accepted == k.listener.built;
  }

  /** The listener hands the APDU over and has the turn. */
  lemma ListenerDelivers(t: Node, l: Node, toListener: seq<HdlcFrame>, toTalker: seq<HdlcFrame>, k: Talk)
    returns (k': Talk)
    requires Talking(t, l, toListener, toTalker, k)
    requires l.endpoint.pendingApdus != []
    ensures k'.first == !k.first
    ensures var turn := Advance(l, toListener);
      && turn.inbox == toListener && turn.written == []
      && Talking(turn.node, t, toTalker, toListener, k')
  {
    hide LegalAddress, EffectiveReassemblySize, Room, KindOf, Llc.EncodeLpdu, InformationFrame, ReadyFrame;
    k' := Talk(k.listener, k.talker, [], 0, k.chunk, !k.first);
    var apdu := t.sent[|t.sent| - 1];
    assert t.sent == t.sent[..|t.sent| - 1] + [apdu];
    NoAcks(t.endpoint.session.options, k.listener.built);
    assert toTalker + [] == toTalker;
  }

  // ---- Runs ----

  /** One of the two ends has the floor; `leftFirst` says which one spoke first. */
  ghost predicate Invariant(s: Link, k: Talk, leftFirst: bool) {
    || (Talking(s.left, s.right, s.toRight, s.toLeft, k) && k.first == leftFirst)
    || (Talking(s.right, s.left, s.toLeft, s.toRight, k) && k.first != leftFirst)
  }

  lemma TalkerMoves(s: Link, m: Move, k: Talk) returns (k': Talk)
    requires Talking(s.left, s.right, s.toRight, s.toLeft, k)
    ensures Invariant(MoveLeft(s, m), k', k.first)
  {
    hide Talking, Begin, SendInformation, ReceiveControl, ReceiveToPending, CanSendInformation;
    k' := k;
    var t := s.left;
    match m
    case DoBegin(_, apdu) => k' := TalkerBegins(t, s.right, s.toRight, s.toLeft, k, apdu);
    case DoAdvance(_) =>
      assert s.toRight + [] == s.toRight;
      NothingPending(t, s.right, s.toRight, s.toLeft, k);
      if t.phase.Sending? && (t.phase.granted || CanSendInformation(t.endpoint.session)) {
        k' := TalkerSends(t, s.right, s.toRight, s.toLeft, k);
      } else if s.toLeft != [] && (t.phase.Sending? || t.phase.Listening?) {
        k' := TalkerReads(t, s.right, s.toRight, s.toLeft, k);
      }
  }

  lemma NothingPending(t: Node, l: Node, toListener: seq<HdlcFrame>, toTalker: seq<HdlcFrame>, k: Talk)
    requires Talking(t, l, toListener, toTalker, k)
    ensures t.endpoint.pendingApdus == [] && l.phase == Listening && !t.phase.Stopped?
  {
  }

  lemma ListenerMoves(s: Link, m: Move, k: Talk) returns (k': Talk)
    requires Talking(s.right, s.left, s.toLeft, s.toRight, k)
    ensures Invariant(MoveLeft(s, m), k', !k.first)
  {
    hide Talking, SendInformation, ReceiveControl, ReceiveToPending, CanSendInformation;
    k' := k;
    var l := s.left;
    NothingPending(s.right, l, s.toLeft, s.toRight, k);
    assert s.toRight + [] == s.toRight;
    if m.DoAdvance? {
      if l.endpoint.pendingApdus != [] {
        k' := ListenerDelivers(s.right, l, s.toLeft, s.toRight, k);
      } else if s.toLeft != [] {
        if k.listener.acked + 1 < k.listener.built {
          k' := ListenerReadsReady(s.right, l, s.toLeft, s.toRight, k);
        } else {
          k' := ListenerReadsChunk(s.right, l, s.toLeft, s.toRight, k);
        }
      }
    }
  }

  lemma MoveKeeps(s: Link, m: Move, k: Talk, leftFirst: bool) returns (k': Talk)
    requires Invariant(s, k, leftFirst)
    ensures Invariant(Moved(s, m), k', leftFirst)
  {
    hide Talking, MoveLeft;
    var here := m.side == HdlcWindow.Left;
    var s' := if here then s else Reflect(s);
    if Talking(s'.left, s'.right, s'.toRight, s'.toLeft, k) && k.first == (leftFirst == here) {
      k' := TalkerMoves(s', m, k);
    } else {
      k' := ListenerMoves(s', m, k);
    }
  }

  /** Two channels that have just connected; the left one may speak first. */
  ghost predicate Opening(s: Link) {
    && s.toLeft == [] && s.toRight == []
    && Silent(s.left) && Silent(s.right)
    && s.left.phase == MayBegin && s.right.phase == Listening
    && Configured(s.left.endpoint, s.right.endpoint) && Configured(s.right.endpoint, s.left.endpoint)
  }

  predicate Silent(n: Node) {
    var e := n.endpoint;
    && e.session.sendSequence == 0 && e.session.receiveSequence == 0 && e.session.acknowledgeSequence == 0
    && e.reassembly == Idle && e.pendingApdus == []
    && n.sent == [] && n.received == []
  }

  lemma {:induction false} PlayKeeps(s: Link, moves: seq<Move>) returns (k: Talk)
    requires Opening(s)
    ensures Invariant(Play(s, moves), k, true)
  {
    if moves == [] {
      k := Talk(Ledger(0, 0, 0), Ledger(0, 0, 0), [], 0, 1, true);
      hide Talking, Opening;
      OpeningTalks(s, k);
    } else {
      hide Invariant, Moved, Opening;
      var before := PlayKeeps(s, moves[..|moves| - 1]);
      k := MoveKeeps(Play(s, moves[..|moves| - 1]), moves[|moves| - 1], before, true);
    }
  }

  lemma OpeningTalks(s: Link, k: Talk)
    requires Opening(s) && k == Talk(Ledger(0, 0, 0), Ledger(0, 0, 0), [], 0, 1, true)
    ensures Talking(s.left, s.right, s.toRight, s.toLeft, k)
  {
    hide CanCarry, LegalAddress, EffectiveReassemblySize;
  }

  /** What `to` received is what `from` sent, but for at most the APDU under way. */
  predicate InStep(from: Node, to: Node) {
    to.received == from.sent || (|from.sent| > 0 && to.received == from.sent[..|from.sent| - 1])
  }

  /** Nothing is under way and one end has the turn. */
  predicate AllDelivered(s: Link) {
    && s.right.received == s.left.sent && s.left.received == s.right.sent
    && (s.left.phase == MayBegin || s.right.phase == MayBegin)
  }

  /**
   Profile delivery, for every run: no call ever fails, each end receives exactly the
   APDUs the other one sent, in order and octet for octet, the ends alternate, and
   when an end may speak again everything sent before has arrived.
   */
  lemma ProfileDelivery(s: Link, moves: seq<Move>)
    requires Opening(s)
    ensures var r := Play(s, moves);
      && !r.left.phase.Stopped? && !r.right.phase.Stopped?
      && InStep(r.left, r.right) && InStep(r.right, r.left)
      && (r.right.received == r.left.sent || r.left.received == r.right.sent)
      && (r.left.phase == MayBegin || r.right.phase == MayBegin ==> AllDelivered(r))
      && |r.right.sent| <= |r.left.sent| <= |r.right.sent| + 1
  {
    hide Play, Opening;
    var k := PlayKeeps(s, moves);
    var r := Play(s, moves);
    if Talking(r.left, r.right, r.toRight, r.toLeft, k) && k.first {
      TalkingDelivers(r.left, r.right, r.toRight, r.toLeft, k);
    } else {
      TalkingDelivers(r.right, r.left, r.toLeft, r.toRight, k);
    }
  }

  lemma TalkingDelivers(t: Node, l: Node, toListener: seq<HdlcFrame>, toTalker: seq<HdlcFrame>, k: Talk)
    requires Talking(t, l, toListener, toTalker, k)
    ensures !t.phase.Stopped? && l.phase == Listening
    ensures InStep(t, l) && t.received == l.sent
    ensures t.phase == MayBegin ==> l.received == t.sent
    ensures k.first ==> |l.sent| <= |t.sent| <= |l.sent| + 1
    ensures !k.first ==> |t.sent| <= |l.sent| <= |t.sent| + 1
  {
    hide Configured, Counted, OnTheLines, After, Llc.EncodeLpdu, CanCarry;
  }

  /** The link as one of its ends sees it. */
  function From(s: Link, side: HdlcWindow.Side): Link {
    if side == HdlcWindow.Left then s else Reflect(s)
  }

  /** A blocked sender, at either end, that reads one frame can send again. */
  lemma WindowReopens(s: Link, moves: seq<Move>, side: HdlcWindow.Side)
    requires Opening(s)
    requires var r := From(Play(s, moves), side);
      r.left.phase.Sending? && !CanSendInformation(r.left.endpoint.session) && r.toLeft != []
    ensures var r := From(Play(s, moves), side);
      var turn := Advance(r.left, r.toLeft);
      turn.inbox == r.toLeft[1..] && turn.node.phase == r.left.phase.(granted := true)
      && CanSendInformation(turn.node.endpoint.session)
  {
    hide Play, Opening;
    var k := PlayKeeps(s, moves);
    var r := From(Play(s, moves), side);
    hide Advance, CanSendInformation, Talking;
    if Talking(r.left, r.right, r.toRight, r.toLeft, k) {
      TalkingReopens(r.left, r.right, r.toRight, r.toLeft, k);
    } else {
      TalkingDelivers(r.right, r.left, r.toLeft, r.toRight, k);
    }
  }

  lemma TalkingReopens(t: Node, l: Node, toListener: seq<HdlcFrame>, toTalker: seq<HdlcFrame>, k: Talk)
    requires Talking(t, l, toListener, toTalker, k)
    requires t.phase.Sending? && !CanSendInformation(t.endpoint.session) && toTalker != []
    ensures var turn := Advance(t, toTalker);
      turn.inbox == toTalker[1..] && turn.node.phase == t.phase.(granted := true)
      && CanSendInformation(turn.node.endpoint.session)
  {
    hide OnTheLines, Configured, CanSendInformation, ReceiveControl, After, Llc.EncodeLpdu, CanCarry, Saying;
    WindowAtMostSeven(t.endpoint, l.endpoint);
    WindowCounts(t.endpoint.session, k.talker);
    var k' := TalkerReads(t, l, toListener, toTalker, k);
    var t' := Advance(t, toTalker).node;
    WindowAtMostSeven(t'.endpoint, l.endpoint);
    WindowCounts(t'.endpoint.session, k'.talker);
  }

  lemma WindowAtMostSeven(e: Endpoint, peer: Endpoint)
    requires Configured(e, peer)
    ensures 1 <= e.session.windowSizeTransmit <= 7
  {
  }

  // ---- Progress ----

  /** Somebody can always move until an end may speak again. */
  lemma SomebodyMoves(t: Node, l: Node, toListener: seq<HdlcFrame>, toTalker: seq<HdlcFrame>, k: Talk)
    requires Talking(t, l, toListener, toTalker, k) && t.phase != MayBegin
    ensures Advance(t, toTalker) != Turn(t, toTalker, []) || Advance(l, toListener) != Turn(l, toListener, [])
  {
    hide LegalAddress, EffectiveReassemblySize, Room, KindOf, Llc.EncodeLpdu, InformationFrame, ReadyFrame,
      SendInformation, CanSendInformation, ReceiveControl, ReceiveToPending;
    WindowCounts(t.endpoint.session, k.talker);
    var e := t.endpoint;
    if l.endpoint.pendingApdus != [] || toListener != [] || toTalker != [] {
      return;
    }
    assert k.count == 0;
    assert t.phase.Sending?;
    assert t.phase.granted || CanSendInformation(e.session);
    var size := Smaller(k.chunk, |t.phase.rest|);
    CarriesLess(e, k.chunk, size);
    Sends(e, t.phase.rest[..size], |t.phase.rest| <= k.chunk);
  }

  function FrameEffort(f: HdlcFrame): nat {
    if KindOf(f.control) == Information then 5 else 2
  }

  function LineEffort(line: seq<HdlcFrame>): nat {
    if line == [] then 0 else FrameEffort(line[0]) + LineEffort(line[1..])
  }

  function NodeEffort(n: Node): nat {
    |n.endpoint.pendingApdus|
    + match n.phase
      case Sending(rest, _, granted) => 8 * |rest| + 6 + (if granted then 1 else 0)
      case Listening => 0
      case _ => 0
  }

  /** What is still to be done before an end may speak again. */
  function Effort(s: Link): nat {
    NodeEffort(s.left) + NodeEffort(s.right) + LineEffort(s.toLeft) + LineEffort(s.toRight)
  }

  lemma {:induction false} LineEffortAppend(a: seq<HdlcFrame>, b: seq<HdlcFrame>)
    ensures LineEffort(a + b) == LineEffort(a) + LineEffort(b)
  {
    hide FrameEffort;
    if a == [] {
      assert a + b == b;
    } else {
      assert (a + b)[1..] == a[1..] + b;
      LineEffortAppend(a[1..], b);
    }
  }

  lemma OneFrameEffort(f: HdlcFrame)
    ensures LineEffort([f]) == FrameEffort(f)
  {
    assert [f][1..] == [];
  }

  /** Sending writes at most one frame and keeps what is pending. */
  lemma SendEffort(e: Endpoint, information: Octets, final: bool)
    ensures var r := SendInformation(e, information, final);
      LineEffort(r.written) <= 5 && r.endpoint.pendingApdus == e.pendingApdus
  {
    hide DecodeFrame, EncodeFrame, InformationRequest, LegalAddress;
    var r := SendInformation(e, information, final);
    if r.written != [] {
      assert r.written == [r.written[0]];
      OneFrameEffort(r.written[0]);
    }
  }

  /** Reading a frame costs less than the frame was worth. */
  lemma ReadEffort(e: Endpoint, f: HdlcFrame)
    requires KindOf(f.control) != Information ==> !f.segmented
    ensures var r := ReceiveToPending(e, f);
      LineEffort(r.written) + |r.endpoint.pendingApdus| < FrameEffort(f) + |e.pendingApdus|
    ensures var r := ReceiveControl(e, f);
      LineEffort(r.written) + |r.endpoint.pendingApdus| + 1 < FrameEffort(f) + |e.pendingApdus|
  {
    hide ReceiveFrame, Llc.DecodeLpdu, LegalAddress, EffectiveReassemblySize, SizeMinus;
  }

  /** Nothing on the line looks like a segment without being an I-frame. */
  predicate Plain(line: seq<HdlcFrame>) {
    line != [] && KindOf(line[0].control) != Information ==> !line[0].segmented
  }

  /** Every step that does anything leaves less to do. */
  lemma AdvanceEffort(n: Node, inbox: seq<HdlcFrame>)
    requires n.phase.Sending? ==> n.phase.chunk > 0
    requires Plain(inbox)
    ensures var turn := Advance(n, inbox);
      turn == Turn(n, inbox, []) ||
      NodeEffort(turn.node) + LineEffort(turn.inbox) + LineEffort(turn.written) < NodeEffort(n) + LineEffort(inbox)
  {
    hide SendInformation, ReceiveControl, ReceiveToPending, CanSendInformation, KindOf, FrameEffort, LegalAddress;
    var e := n.endpoint;
    if n.phase.Sending? && (n.phase.granted || CanSendInformation(e.session)) {
      SendEffort(e, n.phase.rest[..Smaller(n.phase.chunk, |n.phase.rest|)], |n.phase.rest| <= n.phase.chunk);
    } else if inbox != [] {
      ReadEffort(e, inbox[0]);
    }
  }

  lemma TalkingIsPlain(t: Node, l: Node, toListener: seq<HdlcFrame>, toTalker: seq<HdlcFrame>, k: Talk)
    requires Talking(t, l, toListener, toTalker, k)
    ensures Plain(toListener) && Plain(toTalker)
    ensures t.phase.Sending? ==> t.phase.chunk > 0
    ensures l.phase == Listening
  {
    hide LegalAddress, EffectiveReassemblySize, Room, KindOf, Llc.EncodeLpdu, Configured, Counted;
  }

  lemma MoveEffort(s: Link, k: Talk, side: HdlcWindow.Side)
    requires Invariant(s, k, true)
    ensures var r := Moved(s, DoAdvance(side)); r == s || Effort(r) < Effort(s)
  {
    hide Talking, Advance, NodeEffort, LineEffort, Plain;
    if Talking(s.left, s.right, s.toRight, s.toLeft, k) && k.first {
      TalkingIsPlain(s.left, s.right, s.toRight, s.toLeft, k);
    } else {
      TalkingIsPlain(s.right, s.left, s.toLeft, s.toRight, k);
    }
    var r := From(s, side);
    AdvanceEffort(r.left, r.toLeft);
    LineEffortAppend(r.toRight, Advance(r.left, r.toLeft).written);
    assert r.toRight + [] == r.toRight;
  }

  /**
   No deadlock and no livelock: after any run, every advance that changes anything
   leaves strictly less to do, and as long as neither end may speak one of the two
   advances does change something.
   */
  lemma ProfileProgress(s: Link, moves: seq<Move>)
    requires Opening(s)
    ensures var r := Play(s, moves);
      && (forall side :: var after := Moved(r, DoAdvance(side)); after == r || Effort(after) < Effort(r))
      && (AllDelivered(r) || exists side :: Moved(r, DoAdvance(side)) != r)
  {
    hide Play, Opening, Effort, Moved, AllDelivered;
    var k := PlayKeeps(s, moves);
    var r := Play(s, moves);
    ProfileDelivery(s, moves);
    forall side
      ensures var after := Moved(r, DoAdvance(side)); after == r || Effort(after) < Effort(r)
    {
      MoveEffort(r, k, side);
    }
    if !AllDelivered(r) {
      MoveExists(r, k);
    }
  }

  lemma MoveExists(r: Link, k: Talk)
    requires Invariant(r, k, true) && r.left.phase != MayBegin && r.right.phase != MayBegin
    ensures Moved(r, DoAdvance(HdlcWindow.Left)) != r || Moved(r, DoAdvance(HdlcWindow.Right)) != r
  {
    hide Talking, Advance;
    if Talking(r.left, r.right, r.toRight, r.toLeft, k) && k.first {
      SomebodyMoves(r.left, r.right, r.toRight, r.toLeft, k);
    } else {
      SomebodyMoves(r.right, r.left, r.toLeft, r.toRight, k);
    }
    AppendChanges(r.toRight, Advance(r.left, r.toLeft).written);
    AppendChanges(r.toLeft, Advance(r.right, r.toRight).written);
  }

  lemma AppendChanges<T>(a: seq<T>, b: seq<T>)
    ensures a + b == a <==> b == []
  {
    assert |a + b| == |a| + |b|;
  }

  /** From every point of every run the two ends can finish, and whatever was sent has then arrived. */
  lemma {:induction false} ProfileCompletes(s: Link, moves: seq<Move>) returns (more: seq<Move>)
    requires Opening(s)
    ensures forall i :: 0 <= i < |more| ==> more[i].DoAdvance?
    ensures AllDelivered(Play(s, moves + more))
    ensures |more| <= Effort(Play(s, moves))
    decreases Effort(Play(s, moves))
  {
    hide Opening, Effort, Moved, AllDelivered;
    ProfileProgress(s, moves);
    var r := Play(s, moves);
    if AllDelivered(r) {
      more := [];
      assert moves + more == moves;
    } else {
      var side :| Moved(r, DoAdvance(side)) != r;
      var next := moves + [DoAdvance(side)];
      assert next[..|next| - 1] == moves;
      var rest := ProfileCompletes(s, next);
      more := [DoAdvance(side)] + rest;
      assert moves + more == next + rest;
    }
  }

  // ---- From the handshake to the first APDU ----

  /** The codec limits of a channel: room to reassemble its largest APDU behind the LLC header. */
  function ChannelLimits(maximumApduSize: nat): CodecLimits {
    var needed := if maximumApduSize == 0 then DEFAULT_LIMITS.maximumReassembledInformationSize else maximumApduSize + 3;
    if DEFAULT_LIMITS.maximumReassembledInformationSize < needed
    then DEFAULT_LIMITS.(maximumReassembledInformationSize := needed) else DEFAULT_LIMITS
  }

  /** A channel whose session has just connected. */
  function FreshNode(s: Session, direction: Llc.Direction, maximumApduSize: nat, phase: Phase): Node {
    var limits := ChannelLimits(maximumApduSize);
    Node(Endpoint(s, limits, limits, Idle, [], direction, maximumApduSize), phase, [], [])
  }

  /** Limits under which an end can send: chunks up to the largest default segment, windows up to seven. */
  predicate CanSendUnder(l: HdlcNegotiation.Limits) {
    l.transmitLength <= 2030 && l.transmitWindow <= 7
  }

  /**
   Delivery starts from what the handshake leaves behind, with or without the parameter
   block and for every APDU size a 64-bit machine can add three to.
   */
  lemma HandshakeOpens(co: Options, so: Options, negotiate: bool, user: Octets, size: nat)
    requires HdlcHandshake.Paired(co, so) && HdlcHandshake.Sendable(negotiate, user)
    requires co.limits == ChannelLimits(size) == so.limits
    requires HdlcHandshake.Request(co, negotiate, user).status == Ok
    requires 0 < size && size + 3 < SIZE_RANGE
    requires negotiate ==> HdlcHandshake.AgreedLimits(co, so).receiveLength >= 23
    requires CanSendUnder(HdlcHandshake.ClientLimits(co, so, negotiate))
    requires CanSendUnder(HdlcHandshake.ServerLimits(co, so, negotiate))
    ensures var request := HdlcHandshake.Request(co, negotiate, user);
      var response := ConnectResponse(HdlcHandshake.Received(so, request.output).next);
      var client := HdlcHandshake.Confirmed(co, request.next, response.output).next;
      Opening(Link(
        FreshNode(client, Llc.ClientToServer, size, MayBegin),
        FreshNode(response.next, Llc.ServerToClient, size, Listening), [], []))
  {
    hide HdlcHandshake.Request, ConnectResponse, HdlcHandshake.Received, HdlcHandshake.Confirmed, LegalAddress, CanCarry,
      HdlcHandshake.ClientLimits, HdlcHandshake.ServerLimits, EffectiveReassemblySize;
    HdlcHandshake.NegotiationAgreement(co, so, negotiate, user);
    LimitsPositive(co, so, negotiate);
    ReassemblyFits(size);
    var request := HdlcHandshake.Request(co, negotiate, user);
    var response := ConnectResponse(HdlcHandshake.Received(so, request.output).next);
    var client := HdlcHandshake.Confirmed(co, request.next, response.output).next;
    var c, s := HdlcHandshake.ClientLimits(co, so, negotiate), HdlcHandshake.ServerLimits(co, so, negotiate);
    FreshCarries(client, HdlcHandshake.CodecLength(c, negotiate), size, Llc.ClientToServer, MayBegin);
    FreshCarries(response.next, HdlcHandshake.CodecLength(s, negotiate), size, Llc.ServerToClient, Listening);
  }

  lemma LimitsPositive(co: Options, so: Options, negotiate: bool)
    ensures var c, s := HdlcHandshake.ClientLimits(co, so, negotiate), HdlcHandshake.ServerLimits(co, so, negotiate);
      c.transmitLength > 0 && c.transmitWindow > 0 && s.transmitLength > 0 && s.transmitWindow > 0
  {
  }

  lemma ReassemblyFits(size: nat)
    requires size + 3 < SIZE_RANGE
    ensures size + 3 <= EffectiveReassemblySize(ChannelLimits(size)) < SIZE_RANGE
  {
  }

  /** A session limited to its own transmit length, or not at all, carries chunks of that length. */
  lemma FreshCarries(s: Session, length: nat, size: nat, direction: Llc.Direction, phase: Phase)
    requires 0 < s.negotiated.transmitLength <= 2030
    requires length == s.negotiated.transmitLength || length == 0
    requires s.options.limits == ChannelLimits(size).(maximumInformationFieldSize := length)
    ensures var e := FreshNode(s, direction, size, phase).endpoint;
      CanCarry(PreparedToSend(e), s.negotiated.transmitLength)
  {
    HeaderSizeBound(RemoteAddress(s.options), LocalAddress(s.options));
  }

  /** The default limits of one end, for APDUs of up to 65535 octets. */
  function DefaultOptions(role: Role, client: HdlcAddress, server: HdlcAddress): Options {
    Options(role, client, server, ChannelLimits(65535), HdlcNegotiation.DEFAULT_NEGOTIATION)
  }

  /** Two channels with the default configuration, connected without the parameter block, are ready for delivery. */
  lemma DefaultsOpen(client: HdlcAddress, server: HdlcAddress)
    ensures var co, so := DefaultOptions(Client, client, server), DefaultOptions(Server, client, server);
      var request := HdlcHandshake.Request(co, HdlcHandshake.CarriesBlock(co), []);
      var response := ConnectResponse(HdlcHandshake.Received(so, request.output).next);
      Opening(Link(
        FreshNode(HdlcHandshake.Confirmed(co, request.next, response.output).next, Llc.ClientToServer, 65535, MayBegin),
        FreshNode(response.next, Llc.ServerToClient, 65535, Listening), [], []))
  {
    hide HdlcHandshake.Request, ConnectResponse, HdlcHandshake.Received, HdlcHandshake.Confirmed, LegalAddress, Opening;
    var co, so := DefaultOptions(Client, client, server), DefaultOptions(Server, client, server);
    HdlcHandshake.PlainRequestBuilt(co);
    HandshakeOpens(co, so, false, [], 65535);
  }
}
