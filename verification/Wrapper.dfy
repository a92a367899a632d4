/**
 The wrapper for TCP and UDP: WPDU headers and frames, and the incremental decoder of
 a WPDU stream.
 */
module Wrapper {
  import opened Bytes
  import opened Numbers
  import opened StreamDecoding

  datatype WrapperStatus =
    | Ok
    | NeedMoreData
    | OutputBufferTooSmall
    | InvalidVersion
    | InvalidLength
    | InvalidSourcePort
    | InvalidDestinationPort
    | DataTooLarge
    | FrameTooLarge

  datatype WrapperLimits = WrapperLimits(maximumDataSize: nat, maximumFrameSize: nat)

  datatype WrapperFrame = WrapperFrame(sourcePort: uint16, destinationPort: uint16, data: Octets)

  datatype WrapperHeader = WrapperHeader(version: uint16, sourcePort: uint16, destinationPort: uint16, dataLength: uint16)

  const HEADER_SIZE: nat := 8
  const MAXIMUM_DATA_LENGTH: nat := 65535

  /** Port 0 belongs to no station. */
  predicate NoStation(port: uint16) {
    port == 0
  }

  // ---- Headers and frames ----

  function U16Octets(v: uint16): (r: Octets)
    ensures |r| == 2
  {
    [v / 256, v % 256]
  }

  function U16Of(hi: byte, lo: byte): uint16 {
    256 * hi as int + lo as int
  }

  lemma U16RoundTrip(v: uint16)
    ensures U16Of(v / 256, v % 256) == v
  {
  }

  lemma U16RoundTripBack(hi: byte, lo: byte)
    ensures U16Octets(U16Of(hi, lo)) == [hi, lo]
  {
  }

  function HeaderOctets(h: WrapperHeader): (r: Octets)
    ensures |r| == HEADER_SIZE
  {
    U16Octets(h.version) + U16Octets(h.sourcePort) + U16Octets(h.destinationPort) + U16Octets(h.dataLength)
  }

  function HeaderOf(s: Octets): WrapperHeader
    requires |s| >= HEADER_SIZE
  {
    WrapperHeader(U16Of(s[0], s[1]), U16Of(s[2], s[3]), U16Of(s[4], s[5]), U16Of(s[6], s[7]))
  }

  /** Why a frame cannot be encoded, or Ok. */
  function Encodable(f: WrapperFrame, limits: WrapperLimits): WrapperStatus {
    if |f.data| > MAXIMUM_DATA_LENGTH || |f.data| > limits.maximumDataSize then DataTooLarge
    else if HEADER_SIZE + |f.data| > limits.maximumFrameSize then FrameTooLarge
    else if NoStation(f.sourcePort) then InvalidSourcePort
    else if NoStation(f.destinationPort) then InvalidDestinationPort
    else Ok
  }

  function FrameOctets(f: WrapperFrame): (r: Octets)
    requires |f.data| <= MAXIMUM_DATA_LENGTH
    ensures |r| == HEADER_SIZE + |f.data|
  {
    HeaderOctets(WrapperHeader(1, f.sourcePort, f.destinationPort, |f.data|)) + f.data
  }

  function ValidateHeader(h: WrapperHeader, limits: WrapperLimits, available: nat): WrapperStatus {
    if h.version != 1 then InvalidVersion
    else if h.dataLength > limits.maximumDataSize then DataTooLarge
    else if HEADER_SIZE + h.dataLength > limits.maximumFrameSize then FrameTooLarge
    else if available < h.dataLength then NeedMoreData
    else if available > h.dataLength then InvalidLength
    else Ok
  }

  datatype DecodedWpdu = DecodedWpdu(status: WrapperStatus, frame: WrapperFrame)

  const NO_FRAME := WrapperFrame(0, 0, [])

  function DecodeWpdu(s: Octets, limits: WrapperLimits): DecodedWpdu {
    if |s| < HEADER_SIZE then DecodedWpdu(NeedMoreData, NO_FRAME)
    else
      var h := HeaderOf(s);
      var v := ValidateHeader(h, limits, |s| - HEADER_SIZE);
      if v != Ok then DecodedWpdu(v, NO_FRAME)
      else if NoStation(h.sourcePort) then DecodedWpdu(InvalidSourcePort, NO_FRAME)
      else if NoStation(h.destinationPort) then DecodedWpdu(InvalidDestinationPort, NO_FRAME)
      else DecodedWpdu(Ok, WrapperFrame(h.sourcePort, h.destinationPort, s[HEADER_SIZE..]))
  }

  lemma HeaderRoundTrip(h: WrapperHeader, tail: Octets)
    ensures HeaderOf(HeaderOctets(h) + tail) == h
  {
    hide U16Of;
    U16RoundTrip(h.version);
    U16RoundTrip(h.sourcePort);
    U16RoundTrip(h.destinationPort);
    U16RoundTrip(h.dataLength);
  }

  lemma HeaderRoundTripBack(s: Octets)
    requires |s| >= HEADER_SIZE
    ensures HeaderOctets(HeaderOf(s)) == s[..HEADER_SIZE]
  {
    hide U16Of, U16Octets;
    U16RoundTripBack(s[0], s[1]);
    U16RoundTripBack(s[2], s[3]);
    U16RoundTripBack(s[4], s[5]);
    U16RoundTripBack(s[6], s[7]);
    assert s[..8] == [s[0], s[1]] + [s[2], s[3]] + [s[4], s[5]] + [s[6], s[7]];
  }

  /** Version 1, source, destination and length, two octets each, highest first, and then the data. */
  lemma WpduOnTheLine(f: WrapperFrame)
    requires |f.data| <= 65535
    ensures FrameOctets(f) ==
      [0, 1] + Octets2(f.sourcePort) + Octets2(f.destinationPort) + Octets2(|f.data|) + f.data
  {
    assert f.sourcePort / 256 % 256 == f.sourcePort / 256 && f.destinationPort / 256 % 256 == f.destinationPort / 256;
  }

  /** Decoding accepts exactly the encodings of frames that fit the limits, and gives the frame back. */
  lemma WpduExact(s: Octets, limits: WrapperLimits, f: WrapperFrame)
    ensures DecodeWpdu(s, limits) == DecodedWpdu(Ok, f) <==> Encodable(f, limits) == Ok && s == FrameOctets(f)
  {
    hide HeaderOctets, HeaderOf;
    if Encodable(f, limits) == Ok && s == FrameOctets(f) {
      var h := WrapperHeader(1, f.sourcePort, f.destinationPort, |f.data|);
      HeaderRoundTrip(h, f.data);
      assert s[8..] == f.data;
    }
    if DecodeWpdu(s, limits) == DecodedWpdu(Ok, f) {
      HeaderRoundTripBack(s);
      assert s == s[..8] + s[8..];
    }
  }

  /** Exactly which octets are accepted: version 1, two stations, and as much data as announced, within the limits. */
  lemma AcceptedWpdu(s: Octets, limits: WrapperLimits)
    ensures DecodeWpdu(s, limits).status == Ok <==>
      && |s| >= 8 && s[0] == 0 && s[1] == 1
      && (s[2] != 0 || s[3] != 0) && (s[4] != 0 || s[5] != 0)
      && 256 * s[6] as int + s[7] as int == |s| - 8
      && |s| - 8 <= limits.maximumDataSize && |s| <= limits.maximumFrameSize
  {
  }

  // ---- Buffers ----

  method EncodeWpduToBuffer(f: WrapperFrame, limits: WrapperLimits, output: array<byte>)
    returns (status: WrapperStatus, written: nat)
    modifies output
    ensures status == BufferStatus(f, limits, output.Length)
    ensures status == Ok ==>
      && Encodable(f, limits) == Ok && written == HEADER_SIZE + |f.data| <= output.Length
      && output[..] == Overlay(old(output[..]), 0, FrameOctets(f))
    ensures status != Ok ==> output[..] == old(output[..])
    ensures status != Ok ==> written == if status == OutputBufferTooSmall then HEADER_SIZE + |f.data| else 0
  {
    hide HeaderOctets;
    if NoStation(f.sourcePort) {
      return InvalidSourcePort, 0;
    }
    if NoStation(f.destinationPort) {
      return InvalidDestinationPort, 0;
    }
    if |f.data| > MAXIMUM_DATA_LENGTH || |f.data| > limits.maximumDataSize {
      return DataTooLarge, 0;
    }
    var frameSize := HEADER_SIZE + |f.data|;
    if frameSize > limits.maximumFrameSize {
      return FrameTooLarge, 0;
    }
    if output.Length < frameSize {
      return OutputBufferTooSmall, frameSize;
    }
    ghost var before := output[..];
    var header := HeaderOctets(WrapperHeader(1, f.sourcePort, f.destinationPort, |f.data|));
    CopyInto(header, output, 0);
    CopyInto(f.data, output, HEADER_SIZE);
    OverlayTwice(before, 0, header, f.data);
    return Ok, frameSize;
  }

  /** The order in which the buffer routine checks. */
  function BufferStatus(f: WrapperFrame, limits: WrapperLimits, size: nat): WrapperStatus {
    if NoStation(f.sourcePort) then InvalidSourcePort
    else if NoStation(f.destinationPort) then InvalidDestinationPort
    else if Encodable(f, limits) != Ok then Encodable(f, limits)
    else if size < HEADER_SIZE + |f.data| then OutputBufferTooSmall
    else Ok
  }

  // ---- The stream ----

  /** What stops a decoder; a lack of input is not among it. */
  type StreamFailure = s: WrapperStatus | s != Ok && s != NeedMoreData witness InvalidVersion

  type WrapperStep = Step<WrapperFrame, StreamFailure>

  function DecoderStep(limits: WrapperLimits, b: Octets): WrapperStep {
    if |b| < HEADER_SIZE then More(b)
    else
      var h := HeaderOf(b);
      var v := ValidateHeader(h, limits, |b| - HEADER_SIZE);
      if v == NeedMoreData then More(b)
      else if v != Ok && v != InvalidLength then Fail(v)
      else
        var size := HEADER_SIZE + h.dataLength;
        var d := DecodeWpdu(b[..size], limits);
        if d.status == NeedMoreData then More(b)
        else if d.status != Ok then Fail(d.status)
        else Emit(d.frame, b[size..])
  }

  function StepOf(limits: WrapperLimits): Octets -> WrapperStep {
    b => DecoderStep(limits, b)
  }

  lemma StepStableAt(limits: WrapperLimits, b: Octets, x: Octets)
    ensures DecoderStep(limits, b).Fail? ==> DecoderStep(limits, b + x) == DecoderStep(limits, b)
    ensures DecoderStep(limits, b).Emit? ==>
      && DecoderStep(limits, b + x) == Emit(DecoderStep(limits, b).frame, DecoderStep(limits, b).rest + x)
      && |DecoderStep(limits, b).rest| < |b|
    ensures DecoderStep(limits, b).More? ==> DecoderStep(limits, b).rest == b
  {
    hide U16Of, DecodeWpdu;
    if |b| >= HEADER_SIZE {
      assert HeaderOf(b + x) == HeaderOf(b);
      var size := HEADER_SIZE + HeaderOf(b).dataLength;
      if size <= |b| {
        assert (b + x)[..size] == b[..size];
        assert (b + x)[size..] == b[size..] + x;
      }
    }
  }

  /** A frame cut out by its own length never needs more. */
  lemma CutIsComplete(limits: WrapperLimits, b: Octets)
    requires |b| >= HEADER_SIZE
    requires ValidateHeader(HeaderOf(b), limits, |b| - HEADER_SIZE) in {Ok, InvalidLength}
    ensures var size := HEADER_SIZE + HeaderOf(b).dataLength;
      size <= |b| && DecodeWpdu(b[..size], limits).status != NeedMoreData
  {
    hide U16Of;
    var size := HEADER_SIZE + HeaderOf(b).dataLength;
    assert HeaderOf(b[..size]) == HeaderOf(b);
  }

  lemma StepStable(limits: WrapperLimits)
    ensures Stable(StepOf(limits))
  {
    hide DecoderStep;
    var step := StepOf(limits);
    assert step([]) == More([]) by { EmptyStep(limits); }
    forall b: Octets, x: Octets {:trigger step(b), step(b + x)}
      ensures step(b).Fail? ==> step(b + x) == step(b)
      ensures step(b).Emit? ==> step(b + x) == Emit(step(b).frame, step(b).rest + x)
    {
      StepStableAt(limits, b, x);
    }
    forall b: Octets, x: Octets {:trigger step(step(b).rest + x)}
      ensures step(b).More? ==> step(step(b).rest + x) == step(b + x)
    {
      StepStableAt(limits, b, x);
    }
    forall b: Octets {:trigger step(b)}
      ensures step(b).Emit? ==> |step(b).rest| < |b|
      ensures step(b).More? ==> step(step(b).rest) == More(step(b).rest)
    {
      StepStableAt(limits, b, []);
    }
  }

  lemma EmptyStep(limits: WrapperLimits)
    ensures DecoderStep(limits, []) == More([])
  {
  }

  class WrapperStreamDecoder {
    const limits: WrapperLimits
    var buffer: Octets

    constructor (limits: WrapperLimits)
      ensures this.limits == limits && buffer == []
    {
      this.limits := limits;
      buffer := [];
    }

    method Reset()
      modifies this`buffer
      ensures buffer == []
    {
      buffer := [];
    }

    /** Appends a chunk and cuts out every complete frame; an error drops the buffer. */
    method Push(data: Octets) returns (status: WrapperStatus, frames: seq<WrapperFrame>)
      modifies this`buffer
      ensures Stable(StepOf(limits))
      ensures var r := Scan(StepOf(limits), old(buffer) + data);
        && frames == r.frames
        && (r.end.Waiting? ==> buffer == r.end.buffer && status == (if frames == [] then NeedMoreData else Ok))
        && (r.end.Failed? ==> buffer == [] && status == r.end.error)
    {
      hide Stable, Scan, Progress, DecodeWpdu, HeaderOf;
      StepStable(limits);
      ghost var step := StepOf(limits);
      ghost var input := buffer + data;
      frames := [];
      buffer := buffer + data;
      ProgressStart(step, input);
      while |buffer| >= HEADER_SIZE
        invariant Progress(step, input, frames, buffer)
        decreases |buffer|
      {
        ProgressStep(step, input, frames, buffer);
        var header := HeaderOf(buffer);
        status := ValidateHeader(header, limits, |buffer| - HEADER_SIZE);
        if status == NeedMoreData {
          return if frames == [] then NeedMoreData else Ok, frames;
        }
        if status != Ok && status != InvalidLength {
          Reset();
          return status, frames;
        }
        CutIsComplete(limits, buffer);
        var frameSize := HEADER_SIZE + header.dataLength;
        var d := DecodeWpdu(buffer[..frameSize], limits);
        if d.status != Ok {
          Reset();
          return d.status, frames;
        }
        frames := frames + [d.frame];
        buffer := buffer[frameSize..];
      }
      ProgressStep(step, input, frames, buffer);
      return if frames == [] then NeedMoreData else Ok, frames;
    }
  }

  /** What a caller has got: the frames so far, and the first error or Ok. */
  ghost function Visible(s: Scanned<WrapperFrame, StreamFailure>): (seq<WrapperFrame>, WrapperStatus) {
    (s.frames, if s.end.Failed? then s.end.error else Ok)
  }

  /**
   A caller that pushes chunks until an error: frames and error depend on the
   concatenated input only.
   */
  method PushUntilError(decoder: WrapperStreamDecoder, chunks: seq<Octets>)
    returns (frames: seq<WrapperFrame>, error: WrapperStatus)
    requires decoder.buffer == []
    modifies decoder`buffer
    ensures Stable(StepOf(decoder.limits))
    ensures (frames, error) == Visible(Scan(StepOf(decoder.limits), Concat(chunks)))
  {
    hide Stable, Scan, Concat;
    StepStable(decoder.limits);
    ghost var step: Octets -> WrapperStep := StepOf(decoder.limits);
    frames := [];
    ConcatNothing<byte>();
    EmptyScan(decoder.limits);
    assert chunks[..0] == [];
    for k := 0 to |chunks|
      invariant Scan(step, Concat(chunks[..k])) == Scanned(frames, Waiting(decoder.buffer))
    {
      assert chunks[..k + 1] == chunks[..k] + [chunks[k]];
      ConcatSnoc(chunks[..k], chunks[k]);
      ScanAppend(step, Concat(chunks[..k]), chunks[k]);
      ErrorsAreVisible(decoder.limits, decoder.buffer + chunks[k]);
      var status, more := decoder.Push(chunks[k]);
      frames := frames + more;
      if status != Ok && status != NeedMoreData {
        RestIgnored(step, chunks, k + 1);
        return frames, status;
      }
    }
    assert chunks[..|chunks|] == chunks;
    return frames, Ok;
  }

  /** No failure of a scan looks like a wish for more input. */
  lemma {:induction false} ErrorsAreVisible(limits: WrapperLimits, b: Octets)
    requires Stable(StepOf(limits))
    ensures var end := Scan(StepOf(limits), b).end; end.Failed? ==> end.error != Ok && end.error != NeedMoreData
    decreases |b|
  {
    hide Stable, Scan, DecoderStep;
    var r := DecoderStep(limits, b);
    ScanCases(StepOf(limits), b);
    if r.Emit? {
      ErrorsAreVisible(limits, r.rest);
    }
  }

  lemma EmptyScan(limits: WrapperLimits)
    requires Stable(StepOf(limits))
    ensures Scan(StepOf(limits), []) == Scanned([], Waiting([]))
  {
    hide Stable, Scan;
    EmptyStep(limits);
    ScanCases(StepOf(limits), []);
  }

  /** After a failure nothing that follows matters. */
  lemma RestIgnored(step: Octets -> WrapperStep, chunks: seq<Octets>, k: nat)
    requires Stable(step) && k <= |chunks| && Scan(step, Concat(chunks[..k])).end.Failed?
    ensures Scan(step, Concat(chunks)) == Scan(step, Concat(chunks[..k]))
  {
    hide Stable, Scan, Concat;
    assert chunks == chunks[..k] + chunks[k..];
    ConcatAppend(chunks[..k], chunks[k..]);
    ScanAppend(step, Concat(chunks[..k]), Concat(chunks[k..]));
  }

  predicate AllEncodable(frames: seq<WrapperFrame>, limits: WrapperLimits) {
    forall i :: 0 <= i < |frames| ==> Encodable(frames[i], limits) == Ok
  }

  /** Frames on the line, one after the other. */
  function Encoded(frames: seq<WrapperFrame>, limits: WrapperLimits): seq<Octets>
    requires AllEncodable(frames, limits)
  {
    seq(|frames|, i requires 0 <= i < |frames| => FrameOctets(frames[i]))
  }

  /** Encoded frames come out of the decoder as they went in, however the stream is cut up. */
  lemma StreamDeliversFrames(limits: WrapperLimits, frames: seq<WrapperFrame>, chunks: seq<Octets>)
    requires AllEncodable(frames, limits) && Concat(chunks) == Concat(Encoded(frames, limits))
    ensures Stable(StepOf(limits))
    ensures PushAll(StepOf(limits), Fresh(), chunks) == Scanned(frames, Waiting([]))
  {
    hide Stable, Scan, PushAll, DecoderStep;
    var step := StepOf(limits);
    StepStable(limits);
    ChunkingIndependence(step, chunks);
    var pieces := Encoded(frames, limits);
    forall i | 0 <= i < |frames|
      ensures step(pieces[i]) == Emit(frames[i], [])
    {
      StepOfFrame(limits, frames[i]);
    }
    ScanPieces(step, pieces, frames);
  }

  lemma StepOfFrame(limits: WrapperLimits, f: WrapperFrame)
    requires Encodable(f, limits) == Ok
    ensures DecoderStep(limits, FrameOctets(f)) == Emit(f, [])
  {
    hide HeaderOctets, HeaderOf;
    var x := FrameOctets(f);
    WpduExact(x, limits, f);
    HeaderRoundTrip(WrapperHeader(1, f.sourcePort, f.destinationPort, |f.data|), f.data);
    assert x[..|x|] == x && x[|x|..] == [];
  }
}
