/**
 The incremental HDLC stream decoder: frames are cut out of the byte stream by
 their length field, whatever their payload contains.
 */
module HdlcStream {
  import opened Bytes
  import opened HdlcTypes
  import opened HdlcCodec
  import opened StreamDecoding
  import HdlcCrc
  import opened HdlcAddressCodec

  datatype NoisePolicy = IgnoreUntilOpeningFlag | ReportError

  datatype StreamOptions = StreamOptions(limits: CodecLimits, noisePolicy: NoisePolicy)

  type HdlcStep = Step<HdlcFrame, Failure>

  /** The buffer from its first flag on. */
  function DropNoise(buffer: Octets): (r: Octets)
    ensures |r| <= |buffer| && (r == [] || r[0] == HDLC_FLAG)
  {
    if buffer == [] || buffer[0] == HDLC_FLAG then buffer else DropNoise(buffer[1..])
  }

  /** What the decoder does with a buffer that starts at a flag. */
  function FrameStep(limits: CodecLimits, b: Octets): HdlcStep {
    if |b| < 3 then More(b)
    else if !IsFormatType3(b[1]) then Fail(InvalidFrameFormat)
    else
      var full := FormatLength(b[1], b[2]) + 2;
      if full < 8 then Fail(InvalidFrameLength)
      else if full > EffectiveMaximumFrameSize(limits) then Fail(FrameTooLarge)
      else if |b| < full then More(b)
      else
        match DecodeFrame(b[..full], limits)
        case Bad(s) => Fail(s)
        case Good(f) => Emit(f, b[full..])
  }

  function DecoderStep(options: StreamOptions, buffer: Octets): HdlcStep {
    if buffer != [] && buffer[0] != HDLC_FLAG && options.noisePolicy == ReportError then Fail(InvalidFlag)
    else FrameStep(options.limits, DropNoise(buffer))
  }

  /** The step as a value, so that it can be scanned. */
  function StepOf(options: StreamOptions): Octets -> HdlcStep {
    b => DecoderStep(options, b)
  }

  // ---- More input does not undo a decision ----

  lemma DropNoiseAtFlag(b: Octets)
    requires b == [] || b[0] == HDLC_FLAG
    ensures DropNoise(b) == b
  {
  }

  lemma {:induction false} DropNoiseAppend(b: Octets, x: Octets)
    ensures DropNoise(b + x) == DropNoise(DropNoise(b) + x)
    ensures DropNoise(b) != [] ==> DropNoise(b + x) == DropNoise(b) + x
  {
    if b == [] {
      assert b + x == x;
    } else if b[0] != HDLC_FLAG {
      assert (b + x)[1..] == b[1..] + x;
      DropNoiseAppend(b[1..], x);
    }
  }

  lemma FrameStepStable(limits: CodecLimits, b: Octets, x: Octets)
    ensures FrameStep(limits, b).Fail? ==> FrameStep(limits, b + x) == FrameStep(limits, b)
    ensures FrameStep(limits, b).Emit? ==>
      FrameStep(limits, b + x) == Emit(FrameStep(limits, b).frame, FrameStep(limits, b).rest + x)
    ensures FrameStep(limits, b).More? ==> FrameStep(limits, b).rest == b
    ensures FrameStep(limits, b).Emit? ==> |FrameStep(limits, b).rest| < |b|
  {
    hide DecodeFrame, IsFormatType3, FormatLength;
    if |b| >= 3 {
      var full := FormatLength(b[1], b[2]) + 2;
      if full <= |b| {
        assert (b + x)[..full] == b[..full];
        assert (b + x)[full..] == b[full..] + x;
      }
    }
  }

  lemma EmptyStep(limits: CodecLimits)
    ensures FrameStep(limits, []) == More([])
  {
  }

  lemma StepStableAt(options: StreamOptions, b: Octets, x: Octets)
    ensures DecoderStep(options, b).Fail? ==> DecoderStep(options, b + x) == DecoderStep(options, b)
    ensures DecoderStep(options, b).Emit? ==>
      && DecoderStep(options, b + x) == Emit(DecoderStep(options, b).frame, DecoderStep(options, b).rest + x)
      && |DecoderStep(options, b).rest| < |b|
    ensures DecoderStep(options, b).More? ==>
      DecoderStep(options, DecoderStep(options, b).rest + x) == DecoderStep(options, b + x)
  {
    hide FrameStep, DropNoise;
    var limits, d := options.limits, DropNoise(b);
    EmptyStep(limits);
    if b == [] {
      assert b + x == x;
      DropNoiseAtFlag(b);
    } else if b[0] != HDLC_FLAG && options.noisePolicy == ReportError {
      assert (b + x)[0] == b[0];
    } else {
      DropNoiseAppend(b, x);
      assert (b + x)[0] == b[0];
      if d == [] {
        assert d + x == x;
        if b[0] == HDLC_FLAG {
          DropNoiseAtFlag(b);
        }
      } else {
        assert (d + x)[0] == HDLC_FLAG;
        DropNoiseAtFlag(d + x);
        FrameStepStable(limits, d, x);
      }
    }
  }

  lemma StepStable(options: StreamOptions)
    ensures Stable(StepOf(options))
  {
    hide DecoderStep;
    var step := StepOf(options);
    assert step([]) == More([]) by { EmptyDecoderStep(options); }
    forall b: Octets, x: Octets {:trigger step(b), step(b + x)}
      ensures step(b).Fail? ==> step(b + x) == step(b)
      ensures step(b).Emit? ==> step(b + x) == Emit(step(b).frame, step(b).rest + x)
    {
      StepStableAt(options, b, x);
    }
    forall b: Octets, x: Octets {:trigger step(step(b).rest + x)}
      ensures step(b).More? ==> step(step(b).rest + x) == step(b + x)
    {
      StepStableAt(options, b, x);
    }
    forall b: Octets {:trigger step(b)}
      ensures step(b).Emit? ==> |step(b).rest| < |b|
      ensures step(b).More? ==> step(step(b).rest) == More(step(b).rest)
    {
      StepStableAt(options, b, []);
      assert b + [] == b;
      if step(b).More? {
        assert step(b).rest + [] == step(b).rest;
        RestIsIdle(options, b);
      }
    }
  }

  lemma EmptyDecoderStep(options: StreamOptions)
    ensures DecoderStep(options, []) == More([])
  {
  }

  lemma RestIsIdle(options: StreamOptions, b: Octets)
    requires DecoderStep(options, b).More?
    ensures var rest := DecoderStep(options, b).rest; DecoderStep(options, rest) == More(rest)
  {
    hide FrameStep, DropNoise;
    FrameStepStable(options.limits, DropNoise(b), []);
    DropNoiseAtFlag(DropNoise(b));
  }

  // ---- The decoder ----

  method FindFlag(buffer: Octets) returns (at: nat)
    ensures at <= |buffer|
    ensures buffer[at..] == DropNoise(buffer)
  {
    at := 0;
    while at < |buffer| && buffer[at] != HDLC_FLAG
      invariant at <= |buffer|
      invariant DropNoise(buffer[at..]) == DropNoise(buffer)
    {
      assert buffer[at..][1..] == buffer[at + 1..];
      at := at + 1;
    }
  }

  class HdlcStreamDecoder {
    const options: StreamOptions
    var buffer: Octets

    constructor (options: StreamOptions)
      ensures this.options == options && buffer == []
    {
      this.options := options;
      buffer := [];
    }

    method Reset()
      modifies this`buffer
      ensures buffer == []
    {
      buffer := [];
    }

    /**
     Appends a chunk and cuts out every complete frame. A failure drops the buffer;
     frames completed earlier in the same push are still delivered.
     */
    method Push(data: Octets) returns (status: HdlcStatus, frames: seq<HdlcFrame>)
      modifies this`buffer
      ensures Stable(StepOf(options))
      ensures var r := Scan(StepOf(options), old(buffer) + data);
        && frames == r.frames
        && (r.end.Waiting? ==> buffer == r.end.buffer && status == (if frames == [] then NeedMoreData else Ok))
        && (r.end.Failed? ==> buffer == [] && status == r.end.error)
    {
      hide FrameStep, Stable, Scan, DropNoise, Progress;
      StepStable(options);
      ghost var step := StepOf(options);
      ghost var input := buffer + data;
      frames := [];
      buffer := buffer + data;
      ProgressStart(step, input);
      while true
        invariant Progress(step, input, frames, buffer)
        decreases |buffer|
      {
        ProgressStep(step, input, frames, buffer);
        var at := FindFlag(buffer);
        if buffer != [] && buffer[0] == HDLC_FLAG {
          DropNoiseAtFlag(buffer);
        }
        if at != 0 && options.noisePolicy == ReportError {
          Reset();
          return InvalidFlag, frames;
        }
        if at == |buffer| {
          EmptyStep(options.limits);
          buffer := [];
          return if frames == [] then NeedMoreData else Ok, frames;
        }
        ghost var entry := buffer;
        buffer := buffer[at..];
        var outcome := NextFrame(options.limits, buffer);
        assert step(entry) == outcome;
        FrameStepStable(options.limits, buffer, []);
        match outcome {
          case More(_) =>
            return if frames == [] then NeedMoreData else Ok, frames;
          case Fail(s) =>
            Reset();
            return s, frames;
          case Emit(frame, rest) =>
            frames := frames + [frame];
            buffer := rest;
        }
      }
    }
  }

  /** The checks on the octets after a flag, and the decoding of a complete frame. */
  method NextFrame(limits: CodecLimits, b: Octets) returns (r: HdlcStep)
    ensures r == FrameStep(limits, b)
  {
    hide DecodeFrame;
    if |b| < 3 {
      return More(b);
    }
    if !IsFormatType3(b[1]) {
      return Fail(InvalidFrameFormat);
    }
    var formatFieldLength := FormatLength(b[1], b[2]);
    var fullFrameSize := formatFieldLength + 2;
    if formatFieldLength < 6 {
      return Fail(InvalidFrameLength);
    }
    if fullFrameSize > EffectiveMaximumFrameSize(limits) {
      return Fail(FrameTooLarge);
    }
    if |b| < fullFrameSize {
      return More(b);
    }
    var status, frame := DecodeFrameToVector(b[..fullFrameSize], limits);
    if status != Ok {
      return Fail(status);
    }
    return Emit(frame, b[fullFrameSize..]);
  }

  // ---- Noise ----

  predicate Noise(x: Octets) {
    x != [] && forall i :: 0 <= i < |x| ==> x[i] != 0x7e
  }

  lemma {:induction false} NoiseDropped(noise: Octets, x: Octets)
    requires forall i :: 0 <= i < |noise| ==> noise[i] != HDLC_FLAG
    ensures DropNoise(noise + x) == DropNoise(x)
  {
    if noise == [] {
      assert noise + x == x;
    } else {
      assert (noise + x)[1..] == noise[1..] + x;
      NoiseDropped(noise[1..], x);
    }
  }

  /** Octets before a flag either change nothing or end the push with InvalidFlag, as the options say. */
  lemma NoiseLaw(options: StreamOptions, noise: Octets, x: Octets)
    requires Noise(noise) && (x == [] || x[0] == 0x7e)
    ensures Stable(StepOf(options))
    ensures match options.noisePolicy
      case IgnoreUntilOpeningFlag => Scan(StepOf(options), noise + x) == Scan(StepOf(options), x)
      case ReportError => Scan(StepOf(options), noise + x) == Scanned([], Failed(InvalidFlag))
  {
    hide Stable, Scan, FrameStep, DropNoise;
    var step := StepOf(options);
    StepStable(options);
    NoiseDropped(noise, x);
    assert (noise + x)[0] == noise[0];
    ScanCases(step, noise + x);
    if options.noisePolicy == IgnoreUntilOpeningFlag {
      SameStep(step, noise + x, x);
    }
  }

  // ---- Whole streams ----

  predicate AllEncodable(frames: seq<HdlcFrame>, limits: CodecLimits) {
    forall i :: 0 <= i < |frames| ==> Encodable(frames[i], limits) == Ok
  }

  /** Frames on the line, one after the other. */
  function Encoded(frames: seq<HdlcFrame>, limits: CodecLimits): seq<Octets>
    requires AllEncodable(frames, limits)
  {
    seq(|frames|, i requires 0 <= i < |frames| => FrameOctets(frames[i]))
  }

  lemma StepOfFrame(options: StreamOptions, f: HdlcFrame)
    requires Encodable(f, options.limits) == Ok
    ensures StepOf(options)(FrameOctets(f)) == Emit(f, [])
  {
    hide Header, Covered, FrameOctets, DropNoise, FormatLength, IsFormatType3, LegalAddress;
    var x, limits := FrameOctets(f), options.limits;
    DecodeInvertsEncode(f, limits);
    CompleteFrame(x, limits);
    DropNoiseAtFlag(x);
    assert x[..|x|] == x && x[|x|..] == [];
    hide DecodeFrame;
  }

  /** Encoded frames come out of the decoder as they went in, however the stream is cut up. */
  lemma StreamDeliversFrames(options: StreamOptions, frames: seq<HdlcFrame>, chunks: seq<Octets>)
    requires AllEncodable(frames, options.limits)
    requires Concat(chunks) == Concat(Encoded(frames, options.limits))
    ensures Stable(StepOf(options))
    ensures PushAll(StepOf(options), Fresh(), chunks) == Scanned(frames, Waiting([]))
  {
    hide Stable, Scan, PushAll, FrameOctets, DecoderStep;
    var step := StepOf(options);
    StepStable(options);
    ChunkingIndependence(step, chunks);
    forall i | 0 <= i < |frames|
      ensures step(Encoded(frames, options.limits)[i]) == Emit(frames[i], [])
    {
      StepOfFrame(options, frames[i]);
    }
    ScanPieces(step, Encoded(frames, options.limits), frames);
  }

  /** Between pushes the decoder holds less than one frame. */
  lemma WaitingBufferBound(options: StreamOptions, input: Octets)
    ensures Stable(StepOf(options))
    ensures var end := Scan(StepOf(options), input).end;
      end.Waiting? ==> |end.buffer| < 3 || |end.buffer| < EffectiveMaximumFrameSize(options.limits)
  {
    hide Stable, Scan, DropNoise, FormatLength, IsFormatType3, DecodeFrame;
    var step := StepOf(options);
    StepStable(options);
    var end := Scan(step, input).end;
    if end.Waiting? {
      WaitingIsIdle(step, input);
      FrameStepStable(options.limits, DropNoise(end.buffer), []);
    }
  }

  // ---- What a caller can see ----

  /** All frames up to the first push that reports an error; Ok when none does. */
  datatype Seen = Seen(frames: seq<HdlcFrame>, error: HdlcStatus)

  /** A caller that pushes chunks until a status other than Ok or NeedMoreData comes back. */
  ghost function Observe(options: StreamOptions, buffer: Octets, chunks: seq<Octets>): Seen
    requires Stable(StepOf(options))
    decreases |chunks|
  {
    if chunks == [] then Seen([], Ok)
    else
      var r := Scan(StepOf(options), buffer + chunks[0]);
      if r.end.Failed? && r.end.error != NeedMoreData then Seen(r.frames, r.end.error)
      else
        var kept := if r.end.Waiting? then r.end.buffer else [];
        var later := Observe(options, kept, chunks[1..]);
        Seen(r.frames + later.frames, later.error)
  }

  lemma ObserveNothing(options: StreamOptions, buffer: Octets)
    requires Stable(StepOf(options))
    ensures Observe(options, buffer, []) == Seen([], Ok)
  {
  }

  lemma ObserveNext(options: StreamOptions, buffer: Octets, chunk: Octets, chunks: seq<Octets>)
    requires Stable(StepOf(options))
    ensures var r := Scan(StepOf(options), buffer + chunk);
      Observe(options, buffer, [chunk] + chunks) ==
      if r.end.Failed? && r.end.error != NeedMoreData then Seen(r.frames, r.end.error)
      else
        var later := Observe(options, if r.end.Waiting? then r.end.buffer else [], chunks);
        Seen(r.frames + later.frames, later.error)
  {
    hide Stable, Scan, StepOf;
    assert ([chunk] + chunks)[1..] == chunks;
  }

  /** A loop that has got `frames` and still has to push `rest` into a decoder that holds `buffer`. */
  ghost predicate Pushing(options: StreamOptions, all: Seen, frames: seq<HdlcFrame>, buffer: Octets, rest: seq<Octets>)
    requires Stable(StepOf(options))
  {
    all == Seen(frames + Observe(options, buffer, rest).frames, Observe(options, buffer, rest).error)
  }

  lemma PushingStart(options: StreamOptions, buffer: Octets, chunks: seq<Octets>)
    requires Stable(StepOf(options))
    ensures Pushing(options, Observe(options, buffer, chunks), [], buffer, chunks)
  {
    hide Stable, Observe;
    var all := Observe(options, buffer, chunks);
    assert [] + all.frames == all.frames;
  }

  lemma PushingStep(options: StreamOptions, all: Seen, frames: seq<HdlcFrame>, buffer: Octets, chunk: Octets, rest: seq<Octets>)
    requires Stable(StepOf(options)) && Pushing(options, all, frames, buffer, [chunk] + rest)
    ensures var r := Scan(StepOf(options), buffer + chunk);
      if r.end.Failed? && r.end.error != NeedMoreData then all == Seen(frames + r.frames, r.end.error)
      else Pushing(options, all, frames + r.frames, if r.end.Waiting? then r.end.buffer else [], rest)
  {
    hide Stable, Scan, Observe;
    ObserveNext(options, buffer, chunk, rest);
    var r := Scan(StepOf(options), buffer + chunk);
    var later := Observe(options, if r.end.Waiting? then r.end.buffer else [], rest);
    assert frames + (r.frames + later.frames) == (frames + r.frames) + later.frames;
  }

  lemma PushingEnd(options: StreamOptions, all: Seen, frames: seq<HdlcFrame>, buffer: Octets)
    requires Stable(StepOf(options)) && Pushing(options, all, frames, buffer, [])
    ensures all == Seen(frames, Ok)
  {
    hide Stable;
    ObserveNothing(options, buffer);
    assert frames + [] == frames;
  }

  /** That caller, over the real decoder. */
  method PushUntilError(decoder: HdlcStreamDecoder, chunks: seq<Octets>)
    returns (frames: seq<HdlcFrame>, error: HdlcStatus)
    modifies decoder`buffer
    ensures Stable(StepOf(decoder.options))
    ensures Seen(frames, error) == Observe(decoder.options, old(decoder.buffer), chunks)
  {
    hide Stable, Scan, StepOf, Observe, Pushing, LegalAddress;
    StepStable(decoder.options);
    frames := [];
    ghost var all := Observe(decoder.options, decoder.buffer, chunks);
    PushingStart(decoder.options, decoder.buffer, chunks);
    assert chunks[0..] == chunks;
    for k := 0 to |chunks|
      invariant Pushing(decoder.options, all, frames, decoder.buffer, chunks[k..])
    {
      assert chunks[k..] == [chunks[k]] + chunks[k + 1..];
      PushingStep(decoder.options, all, frames, decoder.buffer, chunks[k], chunks[k + 1..]);
      var status, more := decoder.Push(chunks[k]);
      frames := frames + more;
      if status != Ok && status != NeedMoreData {
        return frames, status;
      }
    }
    assert chunks[|chunks|..] == [];
    PushingEnd(decoder.options, all, frames, decoder.buffer);
    return frames, Ok;
  }

  ghost function View(s: Scanned<HdlcFrame, Failure>): Seen {
    Seen(s.frames, if s.end.Failed? then s.end.error else Ok)
  }

  lemma {:induction false} ObserveFollowsScan(options: StreamOptions, buffer: Octets, chunks: seq<Octets>)
    requires Stable(StepOf(options))
    requires StepOf(options)(buffer) == More(buffer)
    requires Scan(StepOf(options), buffer + Concat(chunks)).end != Failed(NeedMoreData)
    ensures Observe(options, buffer, chunks) == View(Scan(StepOf(options), buffer + Concat(chunks)))
    decreases |chunks|
  {
    hide Stable, Scan, StepOf;
    var step := StepOf(options);
    if chunks == [] {
      assert buffer + Concat(chunks) == buffer;
      ScanCases(step, buffer);
    } else {
      var first, tail := buffer + chunks[0], Concat(chunks[1..]);
      assert buffer + Concat(chunks) == first + tail;
      ScanAppend(step, first, tail);
      var r := Scan(step, first);
      if r.end.Waiting? {
        WaitingIsIdle(step, first);
        ObserveFollowsScan(options, r.end.buffer, chunks[1..]);
      }
    }
  }

  /** A complete candidate frame: flags, type and length are right. */
  predicate CompleteCandidate(b: Octets, limits: CodecLimits) {
    && 8 <= |b| <= EffectiveMaximumFrameSize(limits)
    && b[0] == HDLC_FLAG == b[|b| - 1]
    && IsFormatType3(b[1])
    && FormatLength(b[1], b[2]) == |b| - 2
  }

  /** Its source address runs into the end of the frame. */
  predicate TruncatedSource(b: Octets)
    requires |b| >= 8
  {
    match ParseAddress(b[3..|b| - 1])
    case Bad(_) => false
    case Good(d) =>
      EncodeInvertsParse(b[3..|b| - 1]);
      var window := b[3 + d.consumed..|b| - 1];
      |window| < 4 && Terminator(window) == 4
  }

  /** A complete frame is answered with NeedMoreData exactly when its source address is truncated. */
  lemma NeedMoreDataExact(b: Octets, limits: CodecLimits)
    requires CompleteCandidate(b, limits)
    ensures DecodeFrame(b, limits) == Bad(NeedMoreData) <==> TruncatedSource(b)
  {
    hide HdlcCrc.CrcOctets, FormatLength, IsFormatType3, SegmentationBit, Groups, AddressOctets;
    CompleteDecode(b, limits);
  }

  // ---- Where the decoder stops without saying so ----

  /** The buffers at which the decoder starts a frame, from the whole input on. */
  ghost function Boundaries(options: StreamOptions, input: Octets): (r: seq<Octets>)
    requires Stable(StepOf(options))
    ensures |r| > 0
    decreases |input|
  {
    match StepOf(options)(input)
    case Emit(_, rest) => [input] + Boundaries(options, rest)
    case _ => [input]
  }

  /** A complete frame with a truncated source address stands where the decoder looks. */
  predicate StartsTruncated(options: StreamOptions, b: Octets) {
    var d := DropNoise(b);
    && (b != [] && b[0] != HDLC_FLAG ==> options.noisePolicy != ReportError)
    && |d| >= 3
    && var full := FormatLength(d[1], d[2]) + 2;
    && full <= |d|
    && CompleteCandidate(d[..full], options.limits)
    && TruncatedSource(d[..full])
  }

  /** Such a frame at one of the boundaries the decoder reaches. */
  ghost predicate HoldsTruncated(options: StreamOptions, input: Octets)
    requires Stable(StepOf(options))
  {
    exists i :: 0 <= i < |Boundaries(options, input)| && StartsTruncated(options, Boundaries(options, input)[i])
  }

  lemma FullFrameStep(limits: CodecLimits, d: Octets)
    requires |d| >= 3 && IsFormatType3(d[1]) && d[0] == HDLC_FLAG
    requires 8 <= FormatLength(d[1], d[2]) + 2 <= EffectiveMaximumFrameSize(limits)
    requires FormatLength(d[1], d[2]) + 2 <= |d|
    ensures var x := d[..FormatLength(d[1], d[2]) + 2];
      FrameStep(limits, d) == Fail(NeedMoreData) <==> CompleteCandidate(x, limits) && TruncatedSource(x)
  {
    hide FormatLength, IsFormatType3, TruncatedSource;
    var x := d[..FormatLength(d[1], d[2]) + 2];
    if x[|x| - 1] == HDLC_FLAG {
      NeedMoreDataExact(x, limits);
      hide DecodeFrame;
    } else {
      assert DecodeFrame(x, limits) == Bad(InvalidFlag);
      hide DecodeFrame;
    }
  }

  /** One step fails with NeedMoreData exactly at such a frame. */
  lemma SilentStepExact(options: StreamOptions, b: Octets)
    ensures StepOf(options)(b) == Fail(NeedMoreData) <==> StartsTruncated(options, b)
  {
    hide DropNoise, FormatLength, IsFormatType3, TruncatedSource, DecodeFrame;
    var limits, d := options.limits, DropNoise(b);
    if |d| >= 3 && IsFormatType3(d[1]) {
      var full := FormatLength(d[1], d[2]) + 2;
      if 8 <= full <= EffectiveMaximumFrameSize(limits) && full <= |d| {
        FullFrameStep(limits, d);
      }
    }
  }

  /** A scan ends in NeedMoreData exactly when it reaches a complete frame with a truncated source address. */
  lemma {:induction false} SilentFailureExact(options: StreamOptions, input: Octets)
    requires Stable(StepOf(options))
    ensures Scan(StepOf(options), input).end == Failed(NeedMoreData) <==> HoldsTruncated(options, input)
    decreases |input|
  {
    hide Stable, Scan, DecoderStep, StartsTruncated;
    var step := StepOf(options);
    var all := Boundaries(options, input);
    ScanCases(step, input);
    SilentStepExact(options, input);
    assert all[0] == input;
    if step(input).Emit? {
      var rest := step(input).rest;
      SilentFailureExact(options, rest);
      assert all[1..] == Boundaries(options, rest);
      if HoldsTruncated(options, rest) {
        var i :| 0 <= i < |all[1..]| && StartsTruncated(options, all[1..][i]);
        assert all[i + 1] == all[1..][i];
      }
      if HoldsTruncated(options, input) {
        var i :| 0 <= i < |all| && StartsTruncated(options, all[i]);
        assert i > 0;
        assert all[1..][i - 1] == all[i];
      }
    }
  }

  /**
   What a caller sees does not depend on the chunking, as long as the stream holds no
   complete frame with a truncated source address where the decoder looks for one.
   */
  lemma VisibleChunkingIndependence(options: StreamOptions, chunks: seq<Octets>)
    requires Stable(StepOf(options))
    requires !HoldsTruncated(options, Concat(chunks))
    ensures Observe(options, [], chunks) == Observe(options, [], [Concat(chunks)])
  {
    SilentFailureExact(options, Concat(chunks));
    hide Stable, Scan, Observe, DecoderStep, HoldsTruncated;
    EmptyDecoderStep(options);
    var input := Concat(chunks);
    assert [] + input == input;
    ObserveFollowsScan(options, [], chunks);
    assert Concat([input]) == input + Concat<byte>([]);
    assert input + [] == input;
    ObserveFollowsScan(options, [], [input]);
  }

  lemma CandidateStep(options: StreamOptions, b: Octets)
    requires CompleteCandidate(b, options.limits)
    ensures StepOf(options)(b) ==
      match DecodeFrame(b, options.limits) case Bad(s) => Fail(s) case Good(f) => Emit(f, [])
  {
    hide DecodeFrame, FormatLength, IsFormatType3, DropNoise;
    DropNoiseAtFlag(b);
    assert b[..|b|] == b && b[|b|..] == [];
  }

  lemma BadFormatStep(options: StreamOptions)
    ensures StepOf(options)([HDLC_FLAG, 0, 0]) == Fail(InvalidFrameFormat)
  {
    DropNoiseAtFlag([HDLC_FLAG, 0, 0]);
  }

  /**
   Cutting the stream right after a complete frame is invisible, whatever follows,
   exactly when that frame's source address is not truncated. With a truncated
   source the decoder drops the rest of the push without reporting an error.
   */
  lemma BoundaryExact(options: StreamOptions, b: Octets)
    requires Stable(StepOf(options))
    requires CompleteCandidate(b, options.limits)
    ensures (forall t :: Observe(options, [], [b + t]) == Observe(options, [], [b, t])) <==> !TruncatedSource(b)
  {
    hide Stable, Scan, DecoderStep, FormatLength, IsFormatType3, DecodeFrame, TruncatedSource;
    var step := StepOf(options);
    NeedMoreDataExact(b, options.limits);
    CandidateStep(options, b);
    if TruncatedSource(b) {
      var t := [HDLC_FLAG, 0, 0];
      BadFormatStep(options);
      DroppedSilently(options, b, t);
    } else {
      forall t: Octets
        ensures Observe(options, [], [b + t]) == Observe(options, [], [b, t])
      {
        CutAfter(options, b, t);
      }
    }
  }

  lemma DroppedSilently(options: StreamOptions, b: Octets, t: Octets)
    requires Stable(StepOf(options))
    requires StepOf(options)(b) == Fail(NeedMoreData)
    requires StepOf(options)(t) == Fail(InvalidFrameFormat)
    ensures Observe(options, [], [b + t]) == Seen([], Ok)
    ensures Observe(options, [], [b, t]) == Seen([], InvalidFrameFormat)
  {
    hide Stable, Scan, StepOf;
    var step := StepOf(options);
    assert [] + (b + t) == b + t && [] + b == b && [] + t == t;
    assert step(b + t) == Fail(NeedMoreData) by { FailureStays(step, b, t); }
    ScanCases(step, b);
    ScanCases(step, b + t);
    ScanCases(step, t);
    assert [b + t][1..] == [] && [b, t][1..] == [t] && [t][1..] == [];
    assert Observe(options, [], [t]) == Seen([], InvalidFrameFormat);
  }

  lemma FailureStays(step: Octets -> HdlcStep, b: Octets, t: Octets)
    requires Stable(step) && step(b).Fail?
    ensures step(b + t) == step(b)
  {
  }

  /** Cutting after a frame that is delivered or rejected aloud. */
  lemma CutAfter(options: StreamOptions, b: Octets, t: Octets)
    requires Stable(StepOf(options))
    requires match StepOf(options)(b)
             case Fail(s) => s != NeedMoreData
             case Emit(_, rest) => rest == []
             case More(_) => false
    ensures Observe(options, [], [b + t]) == Observe(options, [], [b, t])
  {
    hide Stable, Scan, DecoderStep;
    var step := StepOf(options);
    assert [] + (b + t) == b + t && [] + b == b && [] + t == t;
    assert [b + t][1..] == [] && [b, t][1..] == [t] && [t][1..] == [];
    ScanCases(step, b);
    ScanCases(step, b + t);
    ScanCases(step, []);
    EmptyDecoderStep(options);
    ScanAppend(step, b, t);
    if step(b).Emit? {
      var r := Scan(step, t);
      var f := step(b).frame;
      assert [f] + [] == [f];
      assert [f] + (r.frames + []) == ([f] + r.frames) + [];
      assert Observe(options, [], [t]).frames == r.frames + [];
    }
  }

  /** A frame of eight octets whose four-octet destination leaves no room for a source. */
  const TRUNCATED_FRAME: Octets := [0x7e, 0xa0, 0x06, 0x02, 0x02, 0x02, 0x03, 0x7e]

  lemma TruncatedFrameExists(limits: CodecLimits)
    requires EffectiveMaximumFrameSize(limits) >= 8
    ensures CompleteCandidate(TRUNCATED_FRAME, limits) && TruncatedSource(TRUNCATED_FRAME)
  {
    var b := TRUNCATED_FRAME;
    assert b[3..7] == [0x02, 0x02, 0x02, 0x03];
    assert Terminator(b[3..7]) == 3;
    EncodeInvertsParse(b[3..7]);
    assert b[7..7] == [];
  }
}
