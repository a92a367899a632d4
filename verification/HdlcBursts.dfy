/**
 Whole send and receive calls of one end, as sequences of single passes over what its
 reads will bring: frames, and reads that fail.
 */
module HdlcBursts {
  import opened Bytes
  import opened HdlcTypes
  import opened HdlcSession
  import opened HdlcProfile
  import opened HdlcDelivery
  import HdlcWindow
  import Llc

  /** What a failing read returns; waiting for input is not among it. */
  type ReadFailure = s: ProfileStatus | s != POk && s != PWouldBlock witness PNeedMoreData

  /** The outcome of one read of a frame. */
  datatype Arrival = Arrived(frame: HdlcFrame) | Failed(status: ReadFailure)

  /** An end after a number of passes, the reads still to come, and the frames it wrote. */
  datatype Burst = Burst(node: Node, tape: seq<Arrival>, written: seq<HdlcFrame>)

  /** Reads that all bring frames. */
  function Frames(frames: seq<HdlcFrame>): (r: seq<Arrival>)
    ensures |r| == |frames|
  {
    seq(|frames|, i requires 0 <= i < |frames| => Arrived(frames[i]))
  }

  // ---- Passes ----

  /** The next pass of the end's loop reads a frame. */
  predicate Reads(n: Node) {
    match n.phase
    case Sending(_, _, granted) => !granted && !CanSendInformation(n.endpoint.session)
    case Listening => n.endpoint.pendingApdus == []
    case _ => false
  }

  /** One pass of a loop; a failing read ends the call. */
  function Pass(n: Node, tape: seq<Arrival>): Burst {
    if !Reads(n) then
      var t := Advance(n, []);
      Burst(t.node, tape, t.written)
    else if tape == [] then Burst(n, tape, [])
    else
      match tape[0]
      case Failed(s) => Burst(n.(phase := Stopped(s)), tape[1..], [])
      case Arrived(f) =>
        var t := Advance(n, [f]);
        Burst(t.node, tape[1..], t.written)
  }

  /** A step of the delivery model is a pass over a line of frames. */
  lemma AdvanceIsPass(n: Node, inbox: seq<HdlcFrame>)
    ensures var t := Advance(n, inbox);
      && Pass(n, Frames(inbox)) == Burst(t.node, Frames(t.inbox), t.written)
      && t.inbox == (if Reads(n) && inbox != [] then inbox[1..] else inbox)
  {
    hide SendInformation, ReceiveControl, ReceiveToPending, CanSendInformation;
    if inbox != [] {
      assert Frames(inbox)[1..] == Frames(inbox[1..]);
    } else {
      assert Frames(inbox) == [];
    }
  }

  // ---- Calls ----

  datatype CallKind = SendCall | ReceiveCall

  predicate InCall(n: Node, kind: CallKind) {
    match kind case SendCall => n.phase.Sending? case ReceiveCall => n.phase.Listening?
  }

  /** Chunks are not empty. */
  predicate Chunked(n: Node) {
    n.phase.Sending? ==> n.phase.chunk > 0
  }

  predicate Blocked(n: Node, tape: seq<Arrival>) {
    Reads(n) && tape == []
  }

  function Rank(n: Node): nat {
    match n.phase
    case Sending(rest, _, _) => |rest| + 2
    case Listening => if n.endpoint.pendingApdus == [] then 0 else 1
    case _ => 0
  }

  lemma PassShrinks(n: Node, tape: seq<Arrival>, kind: CallKind)
    requires Chunked(n) && InCall(n, kind) && !Blocked(n, tape)
    ensures var p := Pass(n, tape);
      && Chunked(p.node)
      && (|p.tape| < |tape| || (p.tape == tape && Rank(p.node) < Rank(n)))
  {
    hide SendInformation, ReceiveControl, ReceiveToPending, CanSendInformation;
  }

  /** Passes until the call is over or has to wait for input. */
  function WholeCall(n: Node, tape: seq<Arrival>, kind: CallKind): Burst
    requires Chunked(n)
    decreases |tape|, Rank(n)
  {
    if !InCall(n, kind) || Blocked(n, tape) then Burst(n, tape, [])
    else
      PassShrinks(n, tape, kind);
      var p := Pass(n, tape);
      var u := WholeCall(p.node, p.tape, kind);
      Burst(u.node, u.tape, p.written + u.written)
  }

  /** A call has come from one point to another and written `w` on its way. */
  ghost predicate Onward(n: Node, tape: seq<Arrival>, n': Node, tape': seq<Arrival>, w: seq<HdlcFrame>, kind: CallKind)
    requires Chunked(n) && Chunked(n')
  {
    var u := WholeCall(n', tape', kind);
    WholeCall(n, tape, kind) == Burst(u.node, u.tape, w + u.written)
  }

  lemma OnwardStart(n: Node, tape: seq<Arrival>, kind: CallKind)
    requires Chunked(n)
    ensures Onward(n, tape, n, tape, [], kind)
  {
    hide WholeCall;
    var u := WholeCall(n, tape, kind);
    assert [] + u.written == u.written;
  }

  lemma OnwardPass(n: Node, tape: seq<Arrival>, n': Node, tape': seq<Arrival>, w: seq<HdlcFrame>, kind: CallKind)
    requires Chunked(n) && Chunked(n') && Onward(n, tape, n', tape', w, kind)
    requires InCall(n', kind) && !Blocked(n', tape')
    ensures var p := Pass(n', tape');
      Chunked(p.node) && Onward(n, tape, p.node, p.tape, w + p.written, kind)
  {
    hide Pass;
    PassShrinks(n', tape', kind);
    var p := Pass(n', tape');
    AppendAssociates(w, p.written, WholeCall(p.node, p.tape, kind).written);
  }

  lemma OnwardEnd(n: Node, tape: seq<Arrival>, n': Node, tape': seq<Arrival>, w: seq<HdlcFrame>, kind: CallKind)
    requires Chunked(n) && Chunked(n') && Onward(n, tape, n', tape', w, kind)
    requires !InCall(n', kind) || Blocked(n', tape')
    ensures WholeCall(n, tape, kind) == Burst(n', tape', w)
  {
    assert w + [] == w;
  }

  // ---- Reads that come later ----

  lemma PassMore(n: Node, tape: seq<Arrival>, more: seq<Arrival>)
    requires !Blocked(n, tape)
    ensures Pass(n, tape + more) == Burst(Pass(n, tape).node, Pass(n, tape).tape + more, Pass(n, tape).written)
  {
    hide Advance, Reads;
    if tape != [] {
      assert (tape + more)[0] == tape[0] && (tape + more)[1..] == tape[1..] + more;
    }
  }

  /** A call over more reads goes on where the call over fewer reads stopped. */
  lemma {:induction false} CallMore(n: Node, tape: seq<Arrival>, more: seq<Arrival>, kind: CallKind)
    requires Chunked(n)
    ensures var t := WholeCall(n, tape, kind);
      Chunked(t.node) && Onward(n, tape + more, t.node, t.tape + more, t.written, kind)
    decreases |tape|, Rank(n)
  {
    hide Pass, Reads;
    if !InCall(n, kind) || Blocked(n, tape) {
      OnwardStart(n, tape + more, kind);
    } else {
      PassShrinks(n, tape, kind);
      PassMore(n, tape, more);
      var p := Pass(n, tape);
      CallMore(p.node, p.tape, more, kind);
      assert !Blocked(n, tape + more);
      var t := WholeCall(p.node, p.tape, kind);
      var u := WholeCall(t.node, t.tape + more, kind);
      AppendAssociates(p.written, t.written, u.written);
    }
  }

  /** A call that is over leaves later reads alone. */
  lemma CompletedCall(n: Node, tape: seq<Arrival>, more: seq<Arrival>, kind: CallKind)
    requires Chunked(n) && !InCall(WholeCall(n, tape, kind).node, kind)
    ensures var t := WholeCall(n, tape, kind);
      WholeCall(n, tape + more, kind) == Burst(t.node, t.tape + more, t.written)
  {
    hide Onward, WholeCall;
    CallMore(n, tape, more, kind);
    var t := WholeCall(n, tape, kind);
    OnwardEnd(n, tape + more, t.node, t.tape + more, t.written, kind);
  }

  lemma OnwardMore(
    n: Node, tape: seq<Arrival>, n': Node, tape': seq<Arrival>, w: seq<HdlcFrame>, more: seq<Arrival>, kind: CallKind)
    requires Chunked(n) && Chunked(n') && Onward(n, tape, n', tape', w, kind)
    ensures Onward(n, tape + more, n', tape' + more, w, kind)
  {
    hide WholeCall;
    CallMore(n, tape, more, kind);
    CallMore(n', tape', more, kind);
    var t, t' := WholeCall(n, tape, kind), WholeCall(n', tape', kind);
    var u := WholeCall(t.node, t.tape + more, kind);
    AppendAssociates(w, t'.written, u.written);
  }

  // ---- Calls and runs of the delivery model ----

  lemma {:induction false} PlayFirst(s: Link, m: Move, moves: seq<Move>)
    ensures Play(s, [m] + moves) == Play(Moved(s, m), moves)
  {
    var all := [m] + moves;
    if moves == [] {
      assert all[..|all| - 1] == [];
      assert Play(s, []) == s;
    } else {
      assert all[..|all| - 1] == [m] + moves[..|moves| - 1];
      PlayFirst(s, m, moves[..|moves| - 1]);
    }
  }

  /** A call while the other end rests is a run of the delivery model. */
  lemma {:induction false} CallIsPlay(s: Link, kind: CallKind) returns (moves: seq<Move>, rest: seq<HdlcFrame>)
    requires Chunked(s.left)
    ensures var t := WholeCall(s.left, Frames(s.toLeft), kind);
      t.tape == Frames(rest) && Play(s, moves) == Link(t.node, s.right, s.toRight + t.written, rest)
    decreases |s.toLeft|, Rank(s.left)
  {
    hide Advance, Pass, Reads, Begin;
    var tape := Frames(s.toLeft);
    if !InCall(s.left, kind) || Blocked(s.left, tape) {
      moves, rest := [], s.toLeft;
      assert s.toRight + [] == s.toRight;
    } else {
      PassShrinks(s.left, tape, kind);
      AdvanceIsPass(s.left, s.toLeft);
      var t := Advance(s.left, s.toLeft);
      var m := DoAdvance(HdlcWindow.Left);
      var later;
      later, rest := CallIsPlay(Moved(s, m), kind);
      PlayFirst(s, m, later);
      moves := [m] + later;
      AppendAssociates(s.toRight, t.written, WholeCall(t.node, Frames(t.inbox), kind).written);
    }
  }

  /** What an end reads, what reaches it, what leaves its own line, and what it writes, during a call. */
  datatype Traffic = Traffic(
    consumed: seq<HdlcFrame>, arrived: seq<HdlcFrame>, taken: seq<HdlcFrame>, written: seq<HdlcFrame>)

  /** Nothing is lost or made up between two points of a run. */
  predicate Accounts(s: Link, r: Link, x: Traffic) {
    s.toLeft + x.arrived == x.consumed + r.toLeft && s.toRight + x.written == x.taken + r.toRight
  }

  /** One move during a call of the left end. */
  lemma CallMove(n: Node, x: Traffic, s: Link, b: Link, m: Move, own: bool, kind: CallKind) returns (y: Traffic)
    requires Chunked(n) && Chunked(b.left) && InCall(b.left, kind) && Accounts(s, b, x)
    requires Onward(n, Frames(x.consumed), b.left, [], x.written, kind)
    ensures var r := if own then MoveLeft(b, m) else Reflect(MoveLeft(Reflect(b), m));
      Chunked(r.left) && Accounts(s, r, y) && Onward(n, Frames(y.consumed), r.left, [], y.written, kind)
  {
    hide Onward, Pass, Reads, Advance;
    y := x;
    if !own {
      if m.DoAdvance? {
        var t := Advance(b.right, b.toRight);
        AdvanceIsPass(b.right, b.toRight);
        var read := b.toRight[..|b.toRight| - |t.inbox|];
        assert b.toRight == read + t.inbox;
        y := x.(arrived := x.arrived + t.written, taken := x.taken + read);
        AppendAssociates(s.toLeft, x.arrived, t.written);
        AppendAssociates(x.consumed, b.toLeft, t.written);
        AppendAssociates(x.taken, read, t.inbox);
      }
    } else if m.DoBegin? {
      BeginOutsideTurn(b.left, m.apdu, kind);
    } else {
      y := CallAdvance(n, x, s, b, kind);
    }
  }

  lemma BeginOutsideTurn(n: Node, apdu: Octets, kind: CallKind)
    requires InCall(n, kind)
    ensures Begin(n, apdu) == n
  {
  }

  lemma CallAdvance(n: Node, x: Traffic, s: Link, b: Link, kind: CallKind) returns (y: Traffic)
    requires Chunked(n) && Chunked(b.left) && InCall(b.left, kind) && Accounts(s, b, x)
    requires Onward(n, Frames(x.consumed), b.left, [], x.written, kind)
    ensures var t := Advance(b.left, b.toLeft);
      var r := Link(t.node, b.right, b.toRight + t.written, t.inbox);
      Chunked(r.left) && Accounts(s, r, y) && Onward(n, Frames(y.consumed), r.left, [], y.written, kind)
  {
    hide Onward, Pass, Advance;
    var t := Advance(b.left, b.toLeft);
    AdvanceIsPass(b.left, b.toLeft);
    var read := b.toLeft[..|b.toLeft| - |t.inbox|];
    assert b.toLeft == read + t.inbox;
    y := x.(consumed := x.consumed + read, written := x.written + t.written);
    AppendAssociates(x.consumed, read, t.inbox);
    AppendAssociates(s.toRight, x.written, t.written);
    AppendAssociates(x.taken, b.toRight, t.written);
    assert Frames(x.consumed + read) == Frames(x.consumed) + Frames(read);
    OnwardMore(n, Frames(x.consumed), b.left, [], x.written, Frames(read), kind);
    assert [] + Frames(read) == Frames(read);
    PassOfRead(b.left, b.toLeft);
    if Blocked(b.left, Frames(read)) {
      assert Frames(read) == [] && t == Turn(b.left, b.toLeft, []) by { BlockedStays(b.left, b.toLeft); }
      assert x.written + [] == x.written;
    } else {
      OnwardPass(n, Frames(x.consumed + read), b.left, Frames(read), x.written, kind);
    }
  }

  /** A pass reads what a step of the model reads, and no more. */
  lemma PassOfRead(n: Node, inbox: seq<HdlcFrame>)
    ensures var t := Advance(n, inbox);
      |t.inbox| <= |inbox| && Pass(n, Frames(inbox[..|inbox| - |t.inbox|])) == Burst(t.node, [], t.written)
  {
    hide SendInformation, ReceiveControl, ReceiveToPending, CanSendInformation;
    AdvanceIsPass(n, inbox);
  }

  lemma BlockedStays(n: Node, inbox: seq<HdlcFrame>)
    requires Reads(n) && |Advance(n, inbox).inbox| == |inbox|
    ensures Advance(n, inbox) == Turn(n, inbox, [])
  {
    hide SendInformation, ReceiveControl, ReceiveToPending, CanSendInformation;
  }

  /** How a move of either end looks from one end. */
  lemma MovedFrom(b: Link, m: Move, side: HdlcWindow.Side)
    ensures From(Moved(b, m), side) ==
      if m.side == side then MoveLeft(From(b, side), m) else Reflect(MoveLeft(Reflect(From(b, side)), m))
  {
    hide MoveLeft;
  }

  /**
   A call inside any run, at either end, however the other end moves meanwhile: the frames
   the end has read since the call began make the call, over these frames alone, come to
   the same node with the same output; when the call is over, they make it end there.
   */
  lemma {:induction false} CallInRun(s: Link, moves: seq<Move>, side: HdlcWindow.Side, kind: CallKind) returns (x: Traffic)
    requires Chunked(From(s, side).left)
    requires forall k :: 0 <= k < |moves| ==> InCall(From(Play(s, moves[..k]), side).left, kind)
    ensures var r := From(Play(s, moves), side);
      && Accounts(From(s, side), r, x)
      && Chunked(r.left)
      && Onward(From(s, side).left, Frames(x.consumed), r.left, [], x.written, kind)
      && (!InCall(r.left, kind) ==>
            WholeCall(From(s, side).left, Frames(x.consumed), kind) == Burst(r.left, [], x.written))
    decreases |moves|
  {
    var n := From(s, side).left;
    hide Onward, Moved, InCall, WholeCall;
    if moves == [] {
      x := Traffic([], [], [], []);
      assert Frames([]) == [];
      OnwardStart(n, [], kind);
    } else {
      var init, m := moves[..|moves| - 1], moves[|moves| - 1];
      assert forall k :: 0 <= k < |init| ==> init[..k] == moves[..k];
      var y := CallInRun(s, init, side, kind);
      var b := Play(s, init);
      x := CallMove(n, y, From(s, side), From(b, side), m, m.side == side, kind);
      MovedFrom(b, m, side);
    }
    var r := From(Play(s, moves), side);
    if !InCall(r.left, kind) {
      OnwardEnd(n, Frames(x.consumed), r.left, [], x.written, kind);
    }
  }

  // ---- What the loops of a channel need ----

  /** An end inside a receive call, or inside a send call. */
  function Ear(e: Endpoint): Node {
    Node(e, Listening, [], [])
  }

  function Mouth(e: Endpoint, rest: Octets, chunk: nat): Node {
    Node(e, Sending(rest, chunk, false), [], [])
  }

  /** The phase a call ends in: done, waiting for input, or stopped by an error. */
  function PhaseAfter(status: ProfileStatus, done: Phase, waiting: Phase): Phase {
    if status == POk then done else if status == PWouldBlock then waiting else Stopped(status)
  }

  /** The next read of a receive loop without an APDU. */
  lemma HearsNext(n: Node, tape: seq<Arrival>, e: Endpoint, tape': seq<Arrival>, w: seq<HdlcFrame>)
    requires Chunked(n) && Onward(n, tape, Ear(e), tape', w, ReceiveCall)
    requires e.pendingApdus == [] && tape' != []
    ensures tape'[0].Failed? ==>
      WholeCall(n, tape, ReceiveCall) == Burst(Node(e, Stopped(tape'[0].status), [], []), tape'[1..], w)
    ensures tape'[0].Arrived? ==>
      var r := ReceiveToPending(e, tape'[0].frame);
      if r.status == POk || r.status == PNeedMoreData then
        Onward(n, tape, Ear(r.endpoint), tape'[1..], w + r.written, ReceiveCall)
      else WholeCall(n, tape, ReceiveCall) == Burst(Node(r.endpoint, Stopped(r.status), [], []), tape'[1..], w + r.written)
  {
    hide Onward, WholeCall, ReceiveToPending, LegalAddress;
    OnwardPass(n, tape, Ear(e), tape', w, ReceiveCall);
    var p := Pass(Ear(e), tape');
    assert w + [] == w;
    if !p.node.phase.Listening? {
      OnwardEnd(n, tape, p.node, p.tape, w + p.written, ReceiveCall);
    }
  }

  /** A receive loop that has an APDU hands it over; one without input waits. */
  lemma HearsEnd(n: Node, tape: seq<Arrival>, e: Endpoint, tape': seq<Arrival>, w: seq<HdlcFrame>)
    requires Chunked(n) && Onward(n, tape, Ear(e), tape', w, ReceiveCall)
    requires e.pendingApdus != [] || tape' == []
    ensures WholeCall(n, tape, ReceiveCall) ==
      if e.pendingApdus == [] then Burst(Ear(e), [], w)
      else Burst(Node(e.(pendingApdus := e.pendingApdus[1..]), MayBegin, [], [e.pendingApdus[0]]), tape', w)
  {
    hide Onward, WholeCall;
    if e.pendingApdus == [] {
      OnwardEnd(n, tape, Ear(e), tape', w, ReceiveCall);
    } else {
      OnwardPass(n, tape, Ear(e), tape', w, ReceiveCall);
      var p := Pass(Ear(e), tape');
      assert w + [] == w && [] + [e.pendingApdus[0]] == [e.pendingApdus[0]];
      OnwardEnd(n, tape, p.node, p.tape, w, ReceiveCall);
    }
  }

  /** One I-frame of a send loop that may send. */
  lemma SaysFrame(n: Node, tape: seq<Arrival>, e: Endpoint, phase: Phase, tape': seq<Arrival>, w: seq<HdlcFrame>)
    requires Chunked(n) && phase.Sending? && phase.chunk > 0
    requires Onward(n, tape, Node(e, phase, [], []), tape', w, SendCall)
    requires phase.granted || CanSendInformation(e.session)
    ensures var size := Smaller(phase.chunk, |phase.rest|);
      var final := |phase.rest| <= phase.chunk;
      var r := SendInformation(e, phase.rest[..size], final);
      var next := Node(r.endpoint,
        if r.status != POk then Stopped(r.status)
        else if final then Listening
        else Sending(phase.rest[size..], phase.chunk, false), [], []);
      Onward(n, tape, next, tape', w + r.written, SendCall)
  {
    hide SendInformation, CanSendInformation, Onward, LegalAddress;
    OnwardPass(n, tape, Node(e, phase, [], []), tape', w, SendCall);
  }

  /** The read of a send loop whose window is closed. */
  lemma SaysRead(n: Node, tape: seq<Arrival>, e: Endpoint, phase: Phase, tape': seq<Arrival>, w: seq<HdlcFrame>)
    requires Chunked(n) && phase.Sending? && phase.chunk > 0 && !phase.granted && !CanSendInformation(e.session)
    requires Onward(n, tape, Node(e, phase, [], []), tape', w, SendCall)
    ensures tape' == [] ==> WholeCall(n, tape, SendCall) == Burst(Node(e, phase, [], []), [], w)
    ensures tape' != [] && tape'[0].Failed? ==>
      WholeCall(n, tape, SendCall) == Burst(Node(e, Stopped(tape'[0].status), [], []), tape'[1..], w)
    ensures tape' != [] && tape'[0].Arrived? ==>
      var r := ReceiveControl(e, tape'[0].frame);
      && (r.status == POk ==>
            Onward(n, tape, Node(r.endpoint, phase.(granted := true), [], []), tape'[1..], w + r.written, SendCall))
      && (r.status != POk ==>
            WholeCall(n, tape, SendCall) == Burst(Node(r.endpoint, Stopped(r.status), [], []), tape'[1..], w + r.written))
  {
    hide ReceiveControl, CanSendInformation, Onward, LegalAddress, WholeCall;
    var m := Node(e, phase, [], []);
    if tape' == [] {
      OnwardEnd(n, tape, m, tape', w, SendCall);
    } else {
      OnwardPass(n, tape, m, tape', w, SendCall);
      var p := Pass(m, tape');
      assert w + [] == w;
      if !p.node.phase.Sending? {
        OnwardEnd(n, tape, p.node, p.tape, w + p.written, SendCall);
      }
    }
  }

  /** The chunk size, which only an empty LPDU could make zero. */
  function PositiveChunk(e: Endpoint, size: nat): (r: nat)
    ensures r > 0
  {
    if ChunkSize(e, size) == 0 then 1 else ChunkSize(e, size)
  }

  /** How a send call ends, for each status it returns. */
  ghost predicate Finished(
    n: Node, tape: seq<Arrival>, e': Endpoint, tape': seq<Arrival>, w: seq<HdlcFrame>, status: ProfileStatus)
    requires Chunked(n)
  {
    var t := WholeCall(n, tape, SendCall);
    && t.node.endpoint == e' && t.tape == tape' && t.written == w
    && (status == POk <==> t.node.phase.Listening?)
    && (status == PWouldBlock <==> t.node.phase.Sending?)
    && (t.node.phase.Stopped? ==> t.node.phase.status == status)
  }

  lemma FinishedAt(n: Node, tape: seq<Arrival>, n': Node, tape': seq<Arrival>, w: seq<HdlcFrame>, status: ProfileStatus)
    requires Chunked(n)
    requires status == POk ==> n'.phase.Listening?
    requires status == PWouldBlock ==> n'.phase.Sending?
    requires status != POk && status != PWouldBlock ==> n'.phase == Stopped(status)
    requires WholeCall(n, tape, SendCall) == Burst(n', tape', w)
    ensures Finished(n, tape, n'.endpoint, tape', w, status)
  {
    hide WholeCall;
  }

  /** A send call did what the same end does pass by pass. */
  ghost predicate Spoken(
    e: Endpoint, lpdu: Octets, tape: seq<Arrival>, e': Endpoint, tape': seq<Arrival>, w: seq<HdlcFrame>, status: ProfileStatus)
  {
    Finished(Mouth(PreparedToSend(e), lpdu, PositiveChunk(e, |lpdu|)), tape, e', tape', w, status)
  }

  /** How many chunks an LPDU needs. */
  function FrameCount(size: nat, chunk: nat): nat
    requires size > 0 ==> chunk > 0
  {
    if size == 0 then 1 else (size + chunk - 1) / chunk
  }

  lemma FrameCountBounds(size: nat, chunk: nat)
    requires size > 0 && chunk > 0
    ensures FrameCount(size, chunk) > 0
    ensures (FrameCount(size, chunk) - 1) * chunk < size <= FrameCount(size, chunk) * chunk
  {
    var total, n := size + chunk - 1, (size + chunk - 1) / chunk;
    assert total == n * chunk + total % chunk;
  }

  /** The frame at position `i` is the last one exactly when the rest fits one chunk. */
  lemma LastFrame(size: nat, chunk: nat, i: nat)
    requires size > 0 && chunk > 0 && i < FrameCount(size, chunk)
    ensures i * chunk < size
    ensures i + 1 == FrameCount(size, chunk) <==> size - i * chunk <= chunk
  {
    FrameCountBounds(size, chunk);
    var n := FrameCount(size, chunk);
    assert (i + 1) * chunk == i * chunk + chunk;
    if i + 1 < n {
      assert (i + 1) * chunk <= (n - 1) * chunk;
    }
  }

  /** Where the chunk at position `i` begins. */
  function StartOf(i: nat, chunk: nat): nat {
    i * chunk
  }

  /** What the loop computes about the frame at position `i`. */
  lemma ChunkAt(size: nat, chunk: nat, i: nat)
    requires (size > 0 ==> chunk > 0) && i < FrameCount(size, chunk)
    ensures StartOf(i, chunk) <= size
    ensures var final := i + 1 == FrameCount(size, chunk);
      var remaining := size - StartOf(i, chunk);
      && (final <==> remaining <= (if chunk == 0 then 1 else chunk))
      && (!final ==> Smaller(chunk, remaining) == chunk && StartOf(i + 1, chunk) == StartOf(i, chunk) + chunk)
      && (size == 0 ==> remaining == 0)
      && (size > 0 ==> Smaller(chunk, remaining) <= remaining)
  {
    if size > 0 {
      LastFrame(size, chunk, i);
    } else {
      assert i == 0;
    }
  }

  lemma FirstStart(size: nat, chunk: nat)
    requires size > 0 ==> chunk > 0
    ensures StartOf(0, chunk) == 0 && FrameCount(size, chunk) > 0
  {
    if size > 0 {
      FrameCountBounds(size, chunk);
    }
  }
}
