/**
 The HDLC profile channel as an object over a byte stream: its send and receive loops
 do what the same end does pass by pass, whatever its reads bring: frames cut anywhere,
 octets that do not decode, empty reads and errors of the transport.
 */
module HdlcChannel {
  import opened Bytes
  import opened HdlcTypes
  import opened HdlcCodec
  import S = HdlcSession
  import opened HdlcSession
  import opened HdlcSessionObject
  import opened HdlcSegmentation
  import opened HdlcStream
  import opened StreamDecoding
  import P = HdlcProfile
  import opened HdlcProfile
  import opened HdlcDelivery
  import opened HdlcBursts
  import HdlcTraffic
  import HdlcWindow
  import Llc

  // ---- Octets on the line ----

  function WireOctets(f: HdlcFrame): Octets {
    if FormatFieldLength(f) <= MAXIMUM_FORMAT_FIELD_LENGTH then FrameOctets(f) else []
  }

  function LineOctets(frames: seq<HdlcFrame>): Octets {
    if frames == [] then [] else WireOctets(frames[0]) + LineOctets(frames[1..])
  }

  lemma {:induction false} LineOctetsAppend(a: seq<HdlcFrame>, b: seq<HdlcFrame>)
    ensures LineOctets(a + b) == LineOctets(a) + LineOctets(b)
  {
    hide WireOctets;
    if a == [] {
      assert a + b == b;
    } else {
      assert (a + b)[1..] == a[1..] + b;
      LineOctetsAppend(a[1..], b);
    }
  }

  lemma OneFrame(f: HdlcFrame)
    ensures LineOctets([f]) == WireOctets(f)
  {
    assert [f][1..] == [];
  }

  /** What one read of a byte stream brings: octets, or an error of the transport. */
  datatype Reading = Data(octets: Octets) | Broken(status: ReadFailure)

  /** A byte stream: what its next reads return, and what was written to it. */
  class ByteStream {
    var incoming: seq<Reading>
    var outgoing: Octets

    constructor (incoming: seq<Reading>)
      ensures this.incoming == incoming && outgoing == []
    {
      this.incoming := incoming;
      outgoing := [];
    }

    method ReadSome() returns (status: ProfileStatus, data: Octets)
      modifies this`incoming
      ensures old(incoming) == [] ==> status == PWouldBlock && data == [] && incoming == []
      ensures old(incoming) != [] ==> incoming == old(incoming)[1..]
      ensures old(incoming) != [] && old(incoming)[0].Data? ==> status == POk && data == old(incoming)[0].octets
      ensures old(incoming) != [] && old(incoming)[0].Broken? ==> status == old(incoming)[0].status && data == []
    {
      if incoming == [] {
        return PWouldBlock, [];
      }
      var reading := incoming[0];
      incoming := incoming[1..];
      match reading {
        case Data(octets) => return POk, octets;
        case Broken(error) => return error, [];
      }
    }

    method WriteAll(data: Octets)
      modifies this`outgoing
      ensures outgoing == old(outgoing) + data
    {
      outgoing := outgoing + data;
    }
  }

  // ---- What the reads of a channel bring ----

  /** A channel's input after reading: the status, the frames now held, the decoder's buffer and the reads left. */
  datatype Fetched = Fetched(status: ProfileStatus, held: seq<HdlcFrame>, buffer: Octets, incoming: seq<Reading>)

  /** The frames in the octets a decoder has got, and what it makes of the rest. */
  ghost function Decoding(options: StreamOptions, input: Octets): Scanned<HdlcFrame, Failure> {
    StepStable(options);
    Scan(StepOf(options), input)
  }

  /** What a channel makes of one push: an error drops the frames of the push that met it. */
  function Pushed(r: Scanned<HdlcFrame, Failure>, rest: seq<Reading>): (f: Fetched)
    ensures f.status != PWouldBlock && (f.status != POk ==> f.held == []) && f.incoming == rest
  {
    if r.end.Waiting? then Fetched(POk, r.frames, r.end.buffer, rest)
    else if MapHdlcStatus(r.end.error) == PNeedMoreData then Fetched(POk, [], [], rest)
    else Fetched(MapHdlcStatus(r.end.error), [], [], rest)
  }

  /** One read: Ok with the frames it completes, or an error. */
  ghost function FetchOne(options: StreamOptions, buffer: Octets, incoming: seq<Reading>): (r: Fetched)
    requires incoming != []
    ensures r.status != PWouldBlock && (r.status != POk ==> r.held == []) && r.incoming == incoming[1..]
  {
    var rest := incoming[1..];
    match incoming[0]
    case Broken(error) => Fetched(error, [], buffer, rest)
    case Data(octets) =>
      if octets == [] then Fetched(PNeedMoreData, [], buffer, rest) else Pushed(Decoding(options, buffer + octets), rest)
  }

  /** Reads until there are frames or an error. */
  ghost function Fetch(options: StreamOptions, buffer: Octets, incoming: seq<Reading>): Fetched
    decreases |incoming|
  {
    if incoming == [] then Fetched(PWouldBlock, [], buffer, [])
    else
      var f := FetchOne(options, buffer, incoming);
      if f.status == POk && f.held == [] then Fetch(options, f.buffer, f.incoming) else f
  }

  ghost function ArrivalsOf(f: Fetched): seq<Arrival>
    requires f.status != PWouldBlock
  {
    if f.status == POk then Frames(f.held) else [Arrival.Failed(f.status)]
  }

  /** All that a channel will get out of its input, read by read. */
  ghost function Arrivals(options: StreamOptions, buffer: Octets, incoming: seq<Reading>): seq<Arrival>
    decreases |incoming|
  {
    if incoming == [] then []
    else
      var f := FetchOne(options, buffer, incoming);
      ArrivalsOf(f) + Arrivals(options, f.buffer, f.incoming)
  }

  /** What one fetch takes away from the input. */
  lemma {:induction false} FetchTakes(options: StreamOptions, buffer: Octets, incoming: seq<Reading>)
    ensures var f := Fetch(options, buffer, incoming);
      && (f.status == PWouldBlock ==> f.incoming == [] && Arrivals(options, buffer, incoming) == [])
      && (f.status == POk ==> f.held != [])
      && (f.status != POk ==> f.held == [])
      && (f.status != PWouldBlock ==>
            Arrivals(options, buffer, incoming) == ArrivalsOf(f) + Arrivals(options, f.buffer, f.incoming))
    decreases |incoming|
  {
    hide FetchOne;
    if incoming != [] {
      var f := FetchOne(options, buffer, incoming);
      if f.status == POk && f.held == [] {
        FetchTakes(options, f.buffer, f.incoming);
        assert Frames([]) == [];
      }
    }
  }

  /** Reads that all succeed. */
  function Delivered(chunks: seq<Octets>): (r: seq<Reading>)
    ensures |r| == |chunks|
  {
    seq(|chunks|, i requires 0 <= i < |chunks| => Data(chunks[i]))
  }

  /** One successful read of a well-formed input. */
  lemma CleanRead(options: StreamOptions, buffer: Octets, chunk: Octets, later: Octets, rest: seq<Reading>)
    requires Stable(StepOf(options)) && chunk != []
    requires Scan(StepOf(options), buffer + (chunk + later)).end.Waiting?
    ensures var f := FetchOne(options, buffer, [Data(chunk)] + rest);
      && f.status == POk && f.incoming == rest
      && StepOf(options)(f.buffer) == More(f.buffer)
      && Scan(StepOf(options), buffer + (chunk + later)) ==
         Scanned(f.held + Scan(StepOf(options), f.buffer + later).frames, Scan(StepOf(options), f.buffer + later).end)
  {
    hide Stable, Scan, StepOf;
    var step := StepOf(options);
    assert buffer + (chunk + later) == (buffer + chunk) + later;
    ScanAppend(step, buffer + chunk, later);
    WaitingIsIdle(step, buffer + chunk);
    assert ([Data(chunk)] + rest)[1..] == rest;
  }

  /** Well-formed input that is cut into non-empty reads brings its frames. */
  lemma {:induction false} CleanArrivals(options: StreamOptions, buffer: Octets, chunks: seq<Octets>)
    requires Stable(StepOf(options)) && StepOf(options)(buffer) == More(buffer)
    requires Scan(StepOf(options), buffer + Concat(chunks)).end.Waiting?
    requires forall i :: 0 <= i < |chunks| ==> chunks[i] != []
    ensures Arrivals(options, buffer, Delivered(chunks)) == Frames(Scan(StepOf(options), buffer + Concat(chunks)).frames)
    decreases |chunks|
  {
    hide Stable, Scan, StepOf, FetchOne;
    if chunks == [] {
      assert buffer + [] == buffer;
      ScanCases(StepOf(options), buffer);
    } else {
      var rest := chunks[1..];
      assert Delivered(chunks) == [Data(chunks[0])] + Delivered(rest);
      CleanRead(options, buffer, chunks[0], Concat(rest), Delivered(rest));
      var f := FetchOne(options, buffer, Delivered(chunks));
      CleanArrivals(options, f.buffer, rest);
      var later := Scan(StepOf(options), f.buffer + Concat(rest)).frames;
      assert Frames(f.held + later) == Frames(f.held) + Frames(later);
    }
  }

  class HdlcProfileChannel {
    const stream: ByteStream
    const session: HdlcSessionEndpoint
    const decoder: HdlcStreamDecoder
    const reassembler: HdlcReassembler
    const direction: Llc.Direction
    const maximumApduSize: nat
    var hdlcLimits: CodecLimits
    var pendingHdlcFrames: seq<HdlcFrame>
    var pendingApdus: seq<Octets>

    constructor (
      stream: ByteStream, session: HdlcSessionEndpoint, decoder: HdlcStreamDecoder, reassembler: HdlcReassembler,
      direction: Llc.Direction, maximumApduSize: nat, limits: CodecLimits)
      ensures this.stream == stream && this.session == session && this.decoder == decoder
      ensures this.reassembler == reassembler
      ensures Value() == Endpoint(
        session.Value(), limits, reassembler.limits, reassembler.State(), [], direction, maximumApduSize)
      ensures pendingHdlcFrames == []
    {
      this.stream := stream;
      this.session := session;
      this.decoder := decoder;
      this.reassembler := reassembler;
      this.direction := direction;
      this.maximumApduSize := maximumApduSize;
      hdlcLimits := limits;
      pendingHdlcFrames := [];
      pendingApdus := [];
    }

    function Value(): Endpoint
      reads this, session, reassembler
    {
      Endpoint(session.Value(), hdlcLimits, reassembler.limits, reassembler.State(), pendingApdus, direction, maximumApduSize)
    }

    /** What this channel's reads will bring: the frames it holds, and the rest of its input. */
    ghost function Tape(): seq<Arrival>
      reads this, decoder, stream
    {
      Frames(pendingHdlcFrames) + Arrivals(decoder.options, decoder.buffer, stream.incoming)
    }

    /** Reads until a push delivers frames; all of them are then held. */
    method ReadFrames() returns (status: ProfileStatus)
      requires pendingHdlcFrames == []
      modifies this`pendingHdlcFrames, decoder, stream`incoming
      ensures Fetched(status, pendingHdlcFrames, decoder.buffer, stream.incoming) ==
        old(Fetch(decoder.options, decoder.buffer, stream.incoming))
    {
      hide Stable, Scan, StepOf, LegalAddress;
      while true
        invariant pendingHdlcFrames == []
        invariant Fetch(decoder.options, decoder.buffer, stream.incoming) ==
          old(Fetch(decoder.options, decoder.buffer, stream.incoming))
        decreases |stream.incoming|
      {
        var readStatus, data := stream.ReadSome();
        if readStatus != POk {
          return readStatus;
        }
        if data == [] {
          return PNeedMoreData;
        }
        var pushed, frames := decoder.Push(data);
        var decodeStatus := MapHdlcStatus(pushed);
        if decodeStatus == POk {
          pendingHdlcFrames := frames;
          return if frames == [] then PNeedMoreData else POk;
        }
        if decodeStatus != PNeedMoreData {
          decoder.Reset();
          return decodeStatus;
        }
      }
    }

    /** The next frame of the stream, however it was cut into reads, or the error of a read. */
    method ReceiveDecodedFrame() returns (status: ProfileStatus, frame: HdlcFrame)
      modifies this`pendingHdlcFrames, decoder, stream`incoming
      ensures old(Tape()) == [] ==> status == PWouldBlock && Tape() == []
      ensures old(Tape()) != [] ==> Tape() == old(Tape())[1..]
      ensures old(Tape()) != [] && old(Tape())[0].Arrived? ==> status == POk && frame == old(Tape())[0].frame
      ensures old(Tape()) != [] && old(Tape())[0].Failed? ==> status == old(Tape())[0].status
      ensures var f := if old(pendingHdlcFrames) != []
          then old(Fetched(POk, pendingHdlcFrames, decoder.buffer, stream.incoming))
          else old(Fetch(decoder.options, decoder.buffer, stream.incoming));
        && status == f.status && decoder.buffer == f.buffer && stream.incoming == f.incoming
        && (status == POk ==> f.held == [frame] + pendingHdlcFrames)
        && (status != POk ==> pendingHdlcFrames == [])
    {
      hide Arrivals, Fetch;
      status := POk;
      frame := HdlcFrame(false, DEFAULT_ADDRESS, DEFAULT_ADDRESS, 0, []);
      assert Frames([]) == [];
      if pendingHdlcFrames == [] {
        FetchTakes(decoder.options, decoder.buffer, stream.incoming);
        status := ReadFrames();
        NoReads(decoder.options, decoder.buffer);
      }
      if status == POk {
        frame := pendingHdlcFrames[0];
        pendingHdlcFrames := pendingHdlcFrames[1..];
      }
    }

    // ---- Sending ----

    /** One encoded I-frame; a segmented one is decoded, marked and encoded again. */
    method BuildSessionInformationFrame(information: Octets, final: bool) returns (status: ProfileStatus, octets: Octets)
      modifies session
      ensures var r := SendInformation(old(Value()), information, final);
        Value() == r.endpoint && status == r.status && octets == LineOctets(r.written)
      ensures status == POk <==> SendInformation(old(Value()), information, final).written != []
    {
      hide FrameOctets, DecodeFrame, Encodable, LegalAddress, CanSendInformation, InformationControl, LineOctets;
      ghost var e := Value();
      ghost var r := SendInformation(e, information, final);
      NoFrames();
      if r.written != [] {
        SentIsEncoded(e, information, final);
        OneFrame(r.written[0]);
      }
      var built;
      built, octets := session.BuildInformationFrame(information, final);
      status := MapHdlcStatus(built);
      if status != POk {
        return status, [];
      }
      if final {
        return POk, octets;
      }
      var decodeStatus, decoded := DecodeFrameToVector(octets, hdlcLimits);
      if decodeStatus != Ok {
        return MapHdlcStatus(decodeStatus), [];
      }
      var encodeStatus, marked := EncodeFrameToVector(decoded.(segmented := true), hdlcLimits);
      if encodeStatus != Ok {
        return MapHdlcStatus(encodeStatus), [];
      }
      return POk, marked;
    }

    method SendSessionReceiveReady() returns (status: ProfileStatus)
      modifies stream`outgoing
      ensures var r := SendReceiveReady(Value());
        status == r.status && stream.outgoing == old(stream.outgoing) + LineOctets(r.written)
    {
      hide FrameOctets, Encodable, LegalAddress, ReceiveReadyControl, LineOctets;
      ghost var r := SendReceiveReady(Value());
      NoFrames();
      assert stream.outgoing + [] == stream.outgoing;
      if r.written != [] {
        ReadyIsEncoded(Value());
        OneFrame(r.written[0]);
      }
      var built, octets := session.BuildReceiveReadyFrame(true);
      status := MapHdlcStatus(built);
      if status == POk {
        stream.WriteAll(octets);
      }
    }

    // ---- Receiving ----

    method DecodeCompleteInformationToPendingApdu(information: Octets) returns (status: ProfileStatus)
      modifies this`pendingApdus
      ensures var r := P.DecodeComplete(old(Value()), information);
        Value() == r.endpoint && status == r.status && r.written == []
    {
      hide Llc.DecodeLpdu;
      var lpdu := Llc.DecodeLpdu(information);
      if lpdu.status != Llc.Ok {
        return MapLlcStatus(lpdu.status);
      }
      if maximumApduSize != 0 && |lpdu.lsdu| > maximumApduSize {
        return PPayloadTooLarge;
      }
      pendingApdus := pendingApdus + [lpdu.lsdu];
      return POk;
    }

    method DecodeFrameToPendingApdu(frame: HdlcFrame) returns (status: ProfileStatus)
      modifies this`pendingApdus, session, reassembler, stream`outgoing
      ensures var r := ReceiveToPending(old(Value()), frame);
        Value() == r.endpoint && status == r.status && stream.outgoing == old(stream.outgoing) + LineOctets(r.written)
    {
      hide PushFrame, S.ReceiveFrame, SendReceiveReady, P.DecodeComplete, LineOctets, LegalAddress, LegalControl;
      NoFrames();
      assert stream.outgoing + [] == stream.outgoing;
      var pushed, completed := reassembler.Push(frame);
      if pushed != Ok && pushed != SegmentationIncomplete {
        reassembler.Reset();
        return MapHdlcStatus(pushed);
      }
      var received := session.ReceiveFrame(frame);
      if received != Ok {
        reassembler.Reset();
        return MapHdlcStatus(received);
      }
      if pushed == SegmentationIncomplete {
        ReadyKeeps(Value());
        status := SendSessionReceiveReady();
        return if status == POk then PNeedMoreData else status;
      }
      if completed == [] || completed[0].information == [] {
        return POk;
      }
      status := DecodeCompleteInformationToPendingApdu(completed[0].information);
    }

    method TakeControlFrame(frame: HdlcFrame) returns (status: ProfileStatus)
      modifies this`pendingApdus, session, reassembler, stream`outgoing
      ensures var r := ReceiveControl(old(Value()), frame);
        Value() == r.endpoint && status == r.status && stream.outgoing == old(stream.outgoing) + LineOctets(r.written)
    {
      hide S.ReceiveFrame, ReceiveToPending, LineOctets, LegalAddress, LegalControl, KindOf;
      NoFrames();
      assert stream.outgoing + [] == stream.outgoing;
      if KindOf(frame.control) == Information {
        status := DecodeFrameToPendingApdu(frame);
      } else {
        var received := session.ReceiveFrame(frame);
        status := MapHdlcStatus(received);
      }
    }

    /** Reads frames until an APDU is complete; `w` is what that wrote. */
    method ReceiveNextApdu() returns (status: ProfileStatus, ghost w: seq<HdlcFrame>)
      requires pendingApdus == []
      modifies this`pendingApdus, this`pendingHdlcFrames, session, reassembler, decoder, stream
      ensures status == POk <==> pendingApdus != []
      ensures stream.outgoing == old(stream.outgoing) + LineOctets(w)
      ensures status == POk ==> Onward(Ear(old(Value())), old(Tape()), Ear(Value()), Tape(), w, ReceiveCall)
      ensures status != POk ==>
        WholeCall(Ear(old(Value())), old(Tape()), ReceiveCall) ==
        Burst(Node(Value(), PhaseAfter(status, MayBegin, Listening), [], []), Tape(), w)
    {
      hide ReceiveToPending, LineOctets, Onward, WholeCall, Arrivals, Fetch, LegalAddress;
      w := [];
      NoFrames();
      assert stream.outgoing + [] == stream.outgoing;
      ghost var n, tape := Ear(Value()), Tape();
      OnwardStart(n, tape, ReceiveCall);
      while true
        invariant pendingApdus == []
        invariant stream.outgoing == old(stream.outgoing) + LineOctets(w)
        invariant Onward(n, tape, Ear(Value()), Tape(), w, ReceiveCall)
        decreases |Tape()|
      {
        ghost var e, before := Value(), Tape();
        if before == [] {
          HearsEnd(n, tape, e, before, w);
        } else {
          HearsNext(n, tape, e, before, w);
        }
        var frame;
        status, frame := ReceiveDecodedFrame();
        assert Value() == e;
        if status != POk {
          return status, w;
        }
        ReadKeepsPending(e, frame);
        status := DecodeFrameToPendingApdu(frame);
        ghost var r := ReceiveToPending(e, frame);
        assert stream.outgoing == old(stream.outgoing) + LineOctets(w + r.written) by {
          LineOctetsAppend(w, r.written);
          AppendAssociates(old(stream.outgoing), LineOctets(w), LineOctets(r.written));
        }
        w := w + r.written;
        if status != PNeedMoreData {
          if status != POk || pendingApdus != [] {
            return status, w;
          }
        }
      }
    }

    /** The next APDU, once all its segments have come. */
    method ReceiveApdu() returns (status: ProfileStatus, apdu: Octets, ghost w: seq<HdlcFrame>)
      modifies this`pendingApdus, this`pendingHdlcFrames, session, reassembler, decoder, stream
      ensures stream.outgoing == old(stream.outgoing) + LineOctets(w)
      ensures WholeCall(Ear(old(Value())), old(Tape()), ReceiveCall) == Burst(
        Node(Value(), PhaseAfter(status, MayBegin, Listening), [], if status == POk then [apdu] else []), Tape(), w)
    {
      hide ReceiveToPending, LineOctets, Onward, WholeCall, Arrivals, LegalAddress;
      w := [];
      apdu := [];
      NoFrames();
      assert stream.outgoing + [] == stream.outgoing;
      ghost var n, tape := Ear(Value()), Tape();
      OnwardStart(n, tape, ReceiveCall);
      if pendingApdus == [] {
        status, w := ReceiveNextApdu();
        if status != POk {
          return status, [], w;
        }
      }
      HearsEnd(n, tape, Value(), Tape(), w);
      apdu := pendingApdus[0];
      pendingApdus := pendingApdus[1..];
      return POk, apdu, w;
    }

    // ---- The send loop ----

    /** Reads one frame and takes it; `more` is what that wrote. */
    method ReceiveSessionControlFrame() returns (status: ProfileStatus, ghost more: seq<HdlcFrame>)
      modifies this`pendingApdus, this`pendingHdlcFrames, session, reassembler, decoder, stream
      ensures stream.outgoing == old(stream.outgoing) + LineOctets(more)
      ensures Tape() == if old(Tape()) == [] then [] else old(Tape())[1..]
      ensures old(Tape()) == [] ==> status == PWouldBlock && Value() == old(Value()) && more == []
      ensures old(Tape()) != [] && old(Tape())[0].Failed? ==>
        status == old(Tape())[0].status && Value() == old(Value()) && more == []
      ensures old(Tape()) != [] && old(Tape())[0].Arrived? ==>
        Acted(Value(), status, more) == ReceiveControl(old(Value()), old(Tape())[0].frame)
    {
      hide ReceiveControl, LineOctets, Arrivals, Fetch, LegalAddress;
      NoFrames();
      assert stream.outgoing + [] == stream.outgoing;
      ghost var e := Value();
      more := [];
      var frame;
      status, frame := ReceiveDecodedFrame();
      assert Value() == e;
      if status == POk {
        status := TakeControlFrame(frame);
        more := ReceiveControl(e, frame).written;
      }
    }

    /** Reads one frame if the window is closed. */
    method OpenWindow(ghost n: Node, ghost tape: seq<Arrival>, ghost phase: Phase, ghost w: seq<HdlcFrame>)
      returns (status: ProfileStatus, ghost granted: bool, ghost more: seq<HdlcFrame>)
      requires Chunked(n) && phase.Sending? && phase.chunk > 0 && !phase.granted
      requires Onward(n, tape, Node(Value(), phase, [], []), Tape(), w, SendCall)
      modifies this`pendingApdus, this`pendingHdlcFrames, session, reassembler, decoder, stream
      ensures stream.outgoing == old(stream.outgoing) + LineOctets(more)
      ensures status == POk ==>
        && (granted || CanSendInformation(session.Value()))
        && Onward(n, tape, Node(Value(), phase.(granted := granted), [], []), Tape(), w + more, SendCall)
      ensures status != POk ==>
        WholeCall(n, tape, SendCall) == Burst(Node(Value(), PhaseAfter(status, Listening, phase), [], []), Tape(), w + more)
    {
      hide ReceiveControl, CanSendInformation, LineOctets, Onward, WholeCall, Tape, LegalAddress;
      NoFrames();
      assert stream.outgoing + [] == stream.outgoing;
      assert w + [] == w;
      granted := false;
      more := [];
      status := POk;
      var can := session.CanSendInformationFrame();
      if !can {
        ghost var e, before := Value(), Tape();
        SaysRead(n, tape, e, phase, before, w);
        if before != [] && before[0].Arrived? {
          ReadKeepsPending(e, before[0].frame);
        }
        status, more := ReceiveSessionControlFrame();
        granted := true;
      }
    }

    /** Builds and writes the next I-frame, reading a frame first if the window is closed. */
    method SendChunk(
      chunk: Octets, final: bool, ghost n: Node, ghost tape: seq<Arrival>, ghost phase: Phase, ghost w: seq<HdlcFrame>)
      returns (status: ProfileStatus, ghost more: seq<HdlcFrame>)
      requires Chunked(n) && phase.Sending? && phase.chunk > 0 && !phase.granted
      requires final == (|phase.rest| <= phase.chunk) && chunk == phase.rest[..Smaller(phase.chunk, |phase.rest|)]
      requires Onward(n, tape, Node(Value(), phase, [], []), Tape(), w, SendCall)
      modifies this`pendingApdus, this`pendingHdlcFrames, session, reassembler, decoder, stream
      ensures stream.outgoing == old(stream.outgoing) + LineOctets(more)
      ensures status == POk ==>
        var next := if final then Listening else Sending(phase.rest[|chunk|..], phase.chunk, false);
        Onward(n, tape, Node(Value(), next, [], []), Tape(), w + more, SendCall)
      ensures status != POk ==>
        WholeCall(n, tape, SendCall) == Burst(Node(Value(), PhaseAfter(status, Listening, phase), [], []), Tape(), w + more)
    {
      hide SendInformation, CanSendInformation, LineOctets, Onward, WholeCall, Arrivals, LegalAddress;
      ghost var granted;
      status, granted, more := OpenWindow(n, tape, phase, w);
      if status != POk {
        return;
      }
      ghost var e, before := Value(), Tape();
      ghost var r := SendInformation(e, chunk, final);
      SendNeverBlocks(e, chunk, final);
      SaysFrame(n, tape, e, phase.(granted := granted), before, w + more);
      AppendAssociates(w, more, r.written);
      if r.status != POk {
        OnwardEnd(n, tape, Node(r.endpoint, Stopped(r.status), [], []), before, (w + more) + r.written, SendCall);
      }
      LineOctetsAppend(more, r.written);
      AppendAssociates(old(stream.outgoing), LineOctets(more), LineOctets(r.written));
      var octets;
      status, octets := BuildSessionInformationFrame(chunk, final);
      more := more + r.written;
      stream.WriteAll(octets);
    }

    /** The loop over the chunks of an LPDU. */
    method SendChunks(lpdu: Octets, chunkSize: nat) returns (status: ProfileStatus, ghost w: seq<HdlcFrame>)
      requires lpdu != [] ==> chunkSize > 0
      modifies this`pendingApdus, this`pendingHdlcFrames, session, reassembler, decoder, stream
      ensures stream.outgoing == old(stream.outgoing) + LineOctets(w)
      ensures var n := Mouth(old(Value()), lpdu, if chunkSize == 0 then 1 else chunkSize);
        Finished(n, old(Tape()), Value(), Tape(), w, status)
    {
      hide LineOctets, Onward, WholeCall, Arrivals, LegalAddress, FrameCount, StartOf, Finished;
      ghost var n, tape := Mouth(Value(), lpdu, if chunkSize == 0 then 1 else chunkSize), Tape();
      w := [];
      FirstStart(|lpdu|, chunkSize);
      NoFrames();
      assert stream.outgoing + [] == stream.outgoing;
      OnwardStart(n, tape, SendCall);
      assert lpdu[0..] == lpdu;
      var frameCount := FrameCount(|lpdu|, chunkSize);
      ghost var chunk, phase := n.phase.chunk, n.phase;
      var offset := 0;
      for i := 0 to frameCount
        invariant offset <= |lpdu|
        invariant i < frameCount ==> offset == StartOf(i, chunkSize) && phase == Sending(lpdu[offset..], chunk, false)
        invariant i == frameCount ==> phase == Listening
        invariant stream.outgoing == old(stream.outgoing) + LineOctets(w)
        invariant Onward(n, tape, Node(Value(), phase, [], []), Tape(), w, SendCall)
      {
        ChunkAt(|lpdu|, chunkSize, i);
        var remaining := |lpdu| - offset;
        var currentSize := if lpdu == [] then 0 else Smaller(chunkSize, remaining);
        var finalFrame := i + 1 == frameCount;
        SliceOfRest(lpdu, offset, currentSize);
        ghost var more;
        status, more := SendChunk(lpdu[offset..offset + currentSize], finalFrame, n, tape, phase, w);
        LineOctetsAppend(w, more);
        AppendAssociates(old(stream.outgoing), LineOctets(w), LineOctets(more));
        w := w + more;
        if status != POk {
          FinishedAt(n, tape, Node(Value(), PhaseAfter(status, Listening, phase), [], []), Tape(), w, status);
          return status, w;
        }
        offset := offset + currentSize;
        phase := if finalFrame then Listening else Sending(lpdu[offset..], chunk, false);
      }
      OnwardEnd(n, tape, Node(Value(), Listening, [], []), Tape(), w, SendCall);
      FinishedAt(n, tape, Node(Value(), Listening, [], []), Tape(), w, POk);
      return POk, w;
    }

    /** Sends one LPDU. */
    method SendSessionInformation(lpdu: Octets) returns (status: ProfileStatus, ghost w: seq<HdlcFrame>)
      modifies this, session, reassembler, decoder, stream
      ensures stream.outgoing == old(stream.outgoing) + LineOctets(w)
      ensures old(session.state) != Connected ==>
        status == PNotOpen && w == [] && Value() == old(Value()) && Tape() == old(Tape())
      ensures old(session.state) == Connected ==> Spoken(old(Value()), lpdu, old(Tape()), Value(), Tape(), w, status)
    {
      hide LineOctets, Finished, Arrivals, LegalAddress;
      w := [];
      NoFrames();
      assert stream.outgoing + [] == stream.outgoing;
      if session.state != Connected {
        return PNotOpen, w;
      }
      var limits := session.negotiated;
      hdlcLimits := hdlcLimits.(maximumInformationFieldSize := limits.transmitLength);
      assert Value() == PreparedToSend(old(Value()));
      var chunkSize := if limits.transmitLength == 0 then |lpdu| else limits.transmitLength;
      status, w := SendChunks(lpdu, chunkSize);
    }

    /** Sends one APDU behind its LLC header. */
    method SendApdu(apdu: Octets) returns (status: ProfileStatus, ghost w: seq<HdlcFrame>)
      modifies this, session, reassembler, decoder, stream
      ensures stream.outgoing == old(stream.outgoing) + LineOctets(w)
      ensures maximumApduSize != 0 && |apdu| > maximumApduSize ==>
        status == PPayloadTooLarge && w == [] && Value() == old(Value()) && Tape() == old(Tape())
      ensures !(maximumApduSize != 0 && |apdu| > maximumApduSize) && old(session.state) != Connected ==>
        status == PNotOpen && w == [] && Value() == old(Value()) && Tape() == old(Tape())
      ensures !(maximumApduSize != 0 && |apdu| > maximumApduSize) && old(session.state) == Connected ==>
        Spoken(old(Value()), Llc.EncodeLpdu(direction, apdu), old(Tape()), Value(), Tape(), w, status)
    {
      hide LineOctets, Spoken, Arrivals, LegalAddress;
      w := [];
      NoFrames();
      assert stream.outgoing + [] == stream.outgoing;
      if maximumApduSize != 0 && |apdu| > maximumApduSize {
        return PPayloadTooLarge, w;
      }
      status, w := SendSessionInformation(Llc.EncodeLpdu(direction, apdu));
    }
  }

  lemma NoReads(options: StreamOptions, buffer: Octets)
    ensures Arrivals(options, buffer, []) == []
  {
  }

  lemma SliceOfRest(x: Octets, offset: nat, size: nat)
    requires offset + size <= |x|
    ensures x[offset..][..size] == x[offset..offset + size]
    ensures x[offset..][size..] == x[offset + size..]
  {
  }

  lemma SendNeverBlocks(e: Endpoint, information: Octets, final: bool)
    ensures SendInformation(e, information, final).status != PWouldBlock
  {
    hide InformationRequest, DecodeFrame, EncodeFrame;
  }

  /** Only success hands anything over, and a frame that was read never blocks. */
  lemma ReadKeepsPending(e: Endpoint, f: HdlcFrame)
    ensures ReceiveToPending(e, f).status != POk ==>
      ReceiveToPending(e, f).endpoint.pendingApdus == e.pendingApdus
    ensures ReceiveToPending(e, f).status != PWouldBlock
    ensures ReceiveControl(e, f).status != PWouldBlock
  {
    hide PushFrame, S.ReceiveFrame, Llc.DecodeLpdu, LegalAddress;
  }

  lemma ReadyKeeps(e: Endpoint)
    ensures SendReceiveReady(e).endpoint == e
  {
  }

  lemma NoFrames()
    ensures LineOctets([]) == []
  {
  }

  lemma EncodableIsWire(f: HdlcFrame, limits: CodecLimits)
    requires Encodable(f, limits) == Ok
    ensures EncodeFrame(f, limits) == Good(WireOctets(f))
  {
    hide FrameOctets;
  }

  lemma SentIsEncoded(e: Endpoint, information: Octets, final: bool)
    requires SendInformation(e, information, final).written != []
    ensures var written := SendInformation(e, information, final).written;
      var request := InformationRequest(e.session, information, final);
      && |written| == 1 && written == [written[0]]
      && request.status == Ok
      && (final ==> WireOctets(written[0]) == request.output)
      && (!final ==>
            && DecodeFrame(request.output, e.codecLimits).Good?
            && var marked := DecodeFrame(request.output, e.codecLimits).value.(segmented := true);
               written[0] == marked && EncodeFrame(marked, e.codecLimits) == Good(WireOctets(marked)))
  {
    hide FrameOctets, DecodeFrame, LegalAddress, CanSendInformation, InformationControl, WireOctets, Encodable;
    var f := SendInformation(e, information, final).written[0];
    if final {
      EncodableIsWire(f, e.session.options.limits);
    } else {
      EncodableIsWire(f, e.codecLimits);
    }
  }

  lemma ReadyIsEncoded(e: Endpoint)
    requires SendReceiveReady(e).written != []
    ensures var written := SendReceiveReady(e).written;
      written == [written[0]] && ReceiveReadyRequest(e.session, true).output == WireOctets(written[0])
  {
    hide FrameOctets, LegalAddress, ReceiveReadyControl, WireOctets, Encodable;
    EncodableIsWire(SendReceiveReady(e).written[0], e.session.options.limits);
  }

  // ---- What is written can be read ----

  lemma FitsDefault(f: HdlcFrame, limits: CodecLimits)
    requires Encodable(f, limits) == Ok
    ensures Encodable(f, DEFAULT_LIMITS) == Ok
  {
  }

  /** Every frame an end ever writes is one that a decoder with the default limits accepts. */
  lemma AdvanceWritesDecodable(n: Node, inbox: seq<HdlcFrame>)
    ensures AllEncodable(Advance(n, inbox).written, DEFAULT_LIMITS)
  {
    var e := n.endpoint;
    hide SendInformation, ReceiveToPending, ReceiveControl, CanSendInformation, Encodable, LegalAddress;
    match n.phase
    case Sending(rest, chunk, _) =>
      SendWritesDecodable(e, rest[..Smaller(chunk, |rest|)], |rest| <= chunk);
      if inbox != [] {
        ReceiveWritesDecodable(e, inbox[0]);
      }
    case Listening =>
      if inbox != [] {
        ReceiveWritesDecodable(e, inbox[0]);
      }
    case _ =>
  }

  lemma SendWritesDecodable(e: Endpoint, information: Octets, final: bool)
    ensures AllEncodable(SendInformation(e, information, final).written, DEFAULT_LIMITS)
  {
    hide FrameOctets, DecodeFrame, Encodable, LegalAddress, CanSendInformation, InformationControl;
    var written := SendInformation(e, information, final).written;
    if written != [] {
      FitsDefault(written[0], if final then e.session.options.limits else e.codecLimits);
    }
  }

  lemma ReceiveWritesDecodable(e: Endpoint, f: HdlcFrame)
    ensures AllEncodable(ReceiveToPending(e, f).written, DEFAULT_LIMITS)
    ensures AllEncodable(ReceiveControl(e, f).written, DEFAULT_LIMITS)
  {
    hide PushFrame, S.ReceiveFrame, FrameOctets, Encodable, LegalAddress, Llc.DecodeLpdu, ReceiveReadyControl;
    var written := ReceiveToPending(e, f).written;
    if written != [] {
      FitsDefault(written[0], S.ReceiveFrame(e.session, f).next.options.limits);
    }
  }

  /** The octets of decodable frames, cut into any non-empty reads, bring just these frames. */
  lemma LineIsClean(options: StreamOptions, frames: seq<HdlcFrame>, chunks: seq<Octets>)
    requires AllEncodable(frames, options.limits) && Concat(chunks) == LineOctets(frames)
    requires forall i :: 0 <= i < |chunks| ==> chunks[i] != []
    ensures Arrivals(options, [], Delivered(chunks)) == Frames(frames)
  {
    hide Stable, Scan, FrameOctets, DecoderStep, LineOctets, Encodable;
    var step := StepOf(options);
    StepStable(options);
    EmptyDecoderStep(options);
    var pieces := Encoded(frames, options.limits);
    LineIsEncoded(frames, options.limits);
    forall i | 0 <= i < |frames|
      ensures step(pieces[i]) == Emit(frames[i], [])
    {
      StepOfFrame(options, frames[i]);
    }
    ScanPieces(step, pieces, frames);
    assert [] + Concat(chunks) == Concat(chunks);
    CleanArrivals(options, [], chunks);
  }

  lemma {:induction false} LineIsEncoded(frames: seq<HdlcFrame>, limits: CodecLimits)
    requires AllEncodable(frames, limits)
    ensures LineOctets(frames) == Concat(Encoded(frames, limits))
  {
    hide FrameOctets;
    if frames != [] {
      LineIsEncoded(frames[1..], limits);
      assert Encoded(frames, limits)[1..] == Encoded(frames[1..], limits);
      assert Encodable(frames[0], limits) == Ok;
    }
  }

  /**
   In every state of every run, what is under way in either direction can stand on the
   line as octets cut into any reads: a channel with the default limits finds there just
   the frames of the model.
   */
  lemma {:induction false} LinesCarryOctets(s: Link, moves: seq<Move>)
    requires s.toLeft == [] && s.toRight == []
    ensures AllEncodable(Play(s, moves).toLeft, DEFAULT_LIMITS)
    ensures AllEncodable(Play(s, moves).toRight, DEFAULT_LIMITS)
  {
    hide Encodable;
    if moves != [] {
      var before, m := Play(s, moves[..|moves| - 1]), moves[|moves| - 1];
      LinesCarryOctets(s, moves[..|moves| - 1]);
      var side := if m.side == HdlcWindow.Left then before else Reflect(before);
      hide Play;
      MoveCarriesOctets(side, m);
      assert Play(s, moves) == Moved(before, m) by { LastMove(s, moves); }
    }
  }

  lemma LastMove(s: Link, moves: seq<Move>)
    requires moves != []
    ensures Play(s, moves) == Moved(Play(s, moves[..|moves| - 1]), moves[|moves| - 1])
  {
  }

  lemma MoveCarriesOctets(s: Link, m: Move)
    requires AllEncodable(s.toLeft, DEFAULT_LIMITS) && AllEncodable(s.toRight, DEFAULT_LIMITS)
    ensures var t := MoveLeft(s, m); AllEncodable(t.toLeft, DEFAULT_LIMITS) && AllEncodable(t.toRight, DEFAULT_LIMITS)
  {
    hide Encodable, Begin;
    if m.DoAdvance? {
      AdvanceWritesDecodable(s.left, s.toLeft);
      HdlcTraffic.ReadsFront(s.left, s.toLeft);
    }
  }
}
