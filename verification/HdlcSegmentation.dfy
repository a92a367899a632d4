/**
 Splitting an information field over several frames and putting it together again.
 */
module HdlcSegmentation {
  import opened Bytes
  import opened HdlcTypes
  import opened HdlcCodec
  import opened HdlcStream
  import opened StreamDecoding

  function EffectiveSegmentSize(limits: CodecLimits): (r: nat)
    ensures r > 0
  {
    if limits.maximumInformationFieldSize == 0 then 2030 else limits.maximumInformationFieldSize
  }

  function EffectiveReassemblySize(limits: CodecLimits): (r: nat)
    ensures r > 0
  {
    if limits.maximumReassembledInformationSize == 0 then 65535 else limits.maximumReassembledInformationSize
  }

  // ---- Segmentation ----

  function Segment(base: HdlcFrame, more: bool, information: Octets): HdlcFrame {
    base.(segmented := more, information := information)
  }

  /** All segments but the last are full and marked; the last one is not. */
  function Segments(base: HdlcFrame, information: Octets, maximum: nat): (r: seq<HdlcFrame>)
    requires maximum > 0
    ensures |r| > 0
  {
    if |information| <= maximum then [Segment(base, false, information)]
    else [Segment(base, true, information[..maximum])] + Segments(base, information[maximum..], maximum)
  }

  function Remaining(base: HdlcFrame, information: Octets, offset: nat, maximum: nat): seq<HdlcFrame>
    requires maximum > 0 && offset <= |information|
  {
    if offset == |information| then [] else Segments(base, information[offset..], maximum)
  }

  lemma NextSegment(base: HdlcFrame, information: Octets, offset: nat, maximum: nat)
    requires maximum > 0 && offset < |information|
    ensures var size := if maximum < |information| - offset then maximum else |information| - offset;
      Remaining(base, information, offset, maximum) ==
      [Segment(base, offset + size < |information|, information[offset..offset + size])]
      + Remaining(base, information, offset + size, maximum)
  {
    var rest := information[offset..];
    if maximum < |rest| {
      assert rest[maximum..] == information[offset + maximum..];
      assert rest[..maximum] == information[offset..offset + maximum];
    } else {
      assert rest == information[offset..offset + |rest|];
      assert Segments(base, rest, maximum) == [Segment(base, false, rest)] + [];
    }
  }

  method SegmentInformation(limits: CodecLimits, base: HdlcFrame, information: Octets)
    returns (status: HdlcStatus, frames: seq<HdlcFrame>)
    ensures status == Ok && frames == Segments(base, information, EffectiveSegmentSize(limits))
  {
    hide Segments, Remaining, LegalAddress, EffectiveSegmentSize;
    var maximum := EffectiveSegmentSize(limits);
    if |information| <= maximum {
      OneSegment(base, information, maximum);
      return Ok, [Segment(base, false, information)];
    }
    frames := [];
    var offset := 0;
    assert Segments(base, information, maximum) == [] + Remaining(base, information, 0, maximum) by {
      WholeRemaining(base, information, maximum);
    }
    while offset < |information|
      invariant offset <= |information|
      invariant Segments(base, information, maximum) == frames + Remaining(base, information, offset, maximum)
    {
      var remaining := |information| - offset;
      var chunkSize := if maximum < remaining then maximum else remaining;
      var hasMore := offset + chunkSize < |information|;
      NextSegment(base, information, offset, maximum);
      frames := frames + [Segment(base, hasMore, information[offset..offset + chunkSize])];
      offset := offset + chunkSize;
    }
    assert Remaining(base, information, offset, maximum) == [] by { NothingRemaining(base, information, maximum); }
    return Ok, frames;
  }

  /** The limit of the information field, or 2030 octets when there is none. */
  lemma SegmentSizeExact(limits: CodecLimits, base: HdlcFrame, information: Octets)
    ensures limits.maximumInformationFieldSize == 0 ==>
      Segments(base, information, EffectiveSegmentSize(limits)) == Segments(base, information, 2030)
    ensures limits.maximumInformationFieldSize > 0 ==>
      Segments(base, information, EffectiveSegmentSize(limits))
      == Segments(base, information, limits.maximumInformationFieldSize)
  {
  }

  lemma OneSegment(base: HdlcFrame, information: Octets, maximum: nat)
    requires 0 < maximum && |information| <= maximum
    ensures Segments(base, information, maximum) == [Segment(base, false, information)]
  {
  }

  lemma WholeRemaining(base: HdlcFrame, information: Octets, maximum: nat)
    requires maximum > 0 && information != []
    ensures Remaining(base, information, 0, maximum) == Segments(base, information, maximum)
  {
    assert information[0..] == information;
  }

  lemma NothingRemaining(base: HdlcFrame, information: Octets, maximum: nat)
    requires maximum > 0
    ensures Remaining(base, information, |information|, maximum) == []
  {
  }

  function Payloads(frames: seq<HdlcFrame>): seq<Octets> {
    seq(|frames|, i requires 0 <= i < |frames| => frames[i].information)
  }

  /**
   What the segments are: the information in order, every segment but the last full and
   marked, the last one unmarked and empty only if there is nothing to send; everything
   else is that of the base frame.
   */
  lemma {:induction false} SegmentsExact(base: HdlcFrame, information: Octets, maximum: nat)
    requires maximum > 0
    ensures var r := Segments(base, information, maximum); var n := |r|;
      && Concat(Payloads(r)) == information
      && (forall i :: 0 <= i < n - 1 ==> r[i].segmented && |r[i].information| == maximum)
      && !r[n - 1].segmented && |r[n - 1].information| <= maximum
      && (r[n - 1].information == [] ==> information == [])
      && (forall i :: 0 <= i < n ==> r[i] == base.(segmented := r[i].segmented, information := r[i].information))
    decreases |information|
  {
    var r := Segments(base, information, maximum);
    if |information| <= maximum {
      assert Payloads(r) == [information];
      ConcatSnoc([], information);
      ConcatNothing<byte>();
      assert [] + [information] == [information] && [] + information == information;
    } else {
      var head, rest := information[..maximum], information[maximum..];
      SegmentsExact(base, rest, maximum);
      var later := Segments(base, rest, maximum);
      assert r == [Segment(base, true, head)] + later;
      assert Payloads(r)[1..] == Payloads(later) && Payloads(r)[0] == head;
      assert head + rest == information;
    }
  }

  // ---- Reassembly ----

  /** Unsigned subtraction of 64-bit sizes. */
  function SizeMinus(a: nat, b: nat): nat {
    (a - b) % SIZE_RANGE
  }

  lemma SizeMinusExact(a: nat, b: nat)
    requires a < SIZE_RANGE && b < SIZE_RANGE
    ensures SizeMinus(a, b) == if b <= a then a - b else a - b + SIZE_RANGE
  {
  }

  datatype Pending = Idle | Partial(frame: HdlcFrame)

  datatype Pushed = Pushed(next: Pending, status: HdlcStatus, completed: seq<HdlcFrame>)

  predicate Compatible(p: HdlcFrame, f: HdlcFrame) {
    p.destination == f.destination && p.source == f.source && KindOf(p.control) == KindOf(f.control)
  }

  function PushFrame(limits: CodecLimits, p: Pending, f: HdlcFrame): Pushed {
    var maximum := EffectiveReassemblySize(limits);
    match p
    case Idle =>
      if |f.information| > maximum then Pushed(Idle, SegmentationOverflow, [])
      else if !f.segmented then Pushed(Idle, Ok, [f])
      else Pushed(Partial(f), SegmentationIncomplete, [])
    case Partial(q) =>
      if !Compatible(q, f) then Pushed(Idle, SegmentationError, [])
      else if |q.information| > SizeMinus(maximum, |f.information|) then Pushed(Idle, SegmentationOverflow, [])
      else
        var joined := q.(information := q.information + f.information);
        if f.segmented then Pushed(Partial(joined), SegmentationIncomplete, [])
        else Pushed(Idle, Ok, [joined.(segmented := false)])
  }

  class HdlcReassembler {
    const limits: CodecLimits
    var hasPending: bool
    var pendingFrame: HdlcFrame

    function State(): Pending
      reads this
    {
      if hasPending then Partial(pendingFrame) else Idle
    }

    constructor (limits: CodecLimits)
      ensures this.limits == limits && State() == Idle
    {
      this.limits := limits;
      hasPending := false;
      pendingFrame := HdlcFrame(false, DEFAULT_ADDRESS, DEFAULT_ADDRESS, 0, []);
    }

    method Reset()
      modifies this
      ensures State() == Idle
    {
      hasPending := false;
      pendingFrame := HdlcFrame(false, DEFAULT_ADDRESS, DEFAULT_ADDRESS, 0, []);
    }

    method Push(f: HdlcFrame) returns (status: HdlcStatus, completed: seq<HdlcFrame>)
      modifies this
      ensures Pushed(State(), status, completed) == PushFrame(limits, old(State()), f)
    {
      var maximum := EffectiveReassemblySize(limits);
      if !hasPending {
        if |f.information| > maximum {
          return SegmentationOverflow, [];
        }
        if !f.segmented {
          return Ok, [f];
        }
        pendingFrame := f;
        hasPending := true;
        return SegmentationIncomplete, [];
      }
      if !(pendingFrame.destination == f.destination && pendingFrame.source == f.source) ||
         KindOf(pendingFrame.control) != KindOf(f.control) {
        Reset();
        return SegmentationError, [];
      }
      if |pendingFrame.information| > SizeMinus(maximum, |f.information|) {
        Reset();
        return SegmentationOverflow, [];
      }
      pendingFrame := pendingFrame.(information := pendingFrame.information + f.information);
      if f.segmented {
        return SegmentationIncomplete, [];
      }
      completed := [pendingFrame.(segmented := false)];
      Reset();
      return Ok, completed;
    }
  }

  // ---- Runs of the reassembler ----

  function PendingSize(p: Pending): nat {
    if p.Idle? then 0 else |p.frame.information|
  }

  /** The state after a run, with the segments accepted since nothing was pending. */
  datatype Run = Run(state: Pending, since: seq<Octets>, last: Pushed)

  function After(limits: CodecLimits, frames: seq<HdlcFrame>): Run {
    if frames == [] then Run(Idle, [], Pushed(Idle, Ok, []))
    else
      var before := After(limits, frames[..|frames| - 1]);
      var f := frames[|frames| - 1];
      var r := PushFrame(limits, before.state, f);
      Run(r.next, if r.next.Idle? then [] else before.since + [f.information], r)
  }

  /**
   Over any run whose single payloads are within the limit, what is pending is the
   concatenation of the segments since the last completion or reset and never
   exceeds the limit, an error leaves nothing pending, and a completed frame
   carries everything since then.
   */
  lemma {:induction false} RunInvariant(limits: CodecLimits, frames: seq<HdlcFrame>)
    requires EffectiveReassemblySize(limits) < SIZE_RANGE
    requires forall i :: 0 <= i < |frames| ==> |frames[i].information| <= EffectiveReassemblySize(limits)
    ensures var r := After(limits, frames);
      && PendingSize(r.state) <= EffectiveReassemblySize(limits)
      && (r.state.Partial? ==> r.state.frame.information == Concat(r.since))
      && (r.state.Idle? ==> r.since == [])
      && (r.last.status != SegmentationIncomplete ==> r.state.Idle?)
      && (frames != [] && r.last.status == Ok ==>
            && |r.last.completed| == 1
            && var before := After(limits, frames[..|frames| - 1]);
               r.last.completed[0].information == Concat(before.since + [frames[|frames| - 1].information])
               && |r.last.completed[0].information| <= EffectiveReassemblySize(limits))
  {
    hide SizeMinus, EffectiveReassemblySize, LegalAddress, Concat;
    if frames != [] {
      var init, f := frames[..|frames| - 1], frames[|frames| - 1];
      RunInvariant(limits, init);
      SizeMinusExact(EffectiveReassemblySize(limits), |f.information|);
      ConcatSnoc(After(limits, init).since, f.information);
      ConcatSnoc([], f.information);
      assert Concat<byte>([]) == [] by { ConcatNothing<byte>(); }
      assert [] + f.information == f.information;
    } else {
      ConcatNothing<byte>();
    }
  }

  /**
   One push keeps the limit, whatever was pending within it, exactly when nothing
   was pending, the frame does not continue it, or the payload itself is within
   the limit: an oversized payload makes the unsigned difference wrap around.
   */
  lemma PushKeepsLimitExact(limits: CodecLimits, p: Pending, f: HdlcFrame)
    requires EffectiveReassemblySize(limits) < SIZE_RANGE
    requires |f.information| < SIZE_RANGE
    requires PendingSize(p) <= EffectiveReassemblySize(limits)
    requires PendingSize(p) + |f.information| < SIZE_RANGE
    ensures var r := PushFrame(limits, p, f);
      (&& PendingSize(r.next) <= EffectiveReassemblySize(limits)
       && forall c :: c in r.completed ==> |c.information| <= EffectiveReassemblySize(limits))
      <==> (p.Idle? || !Compatible(p.frame, f) || |f.information| <= EffectiveReassemblySize(limits))
  {
    hide SizeMinus, EffectiveReassemblySize, LegalAddress;
    SizeMinusExact(EffectiveReassemblySize(limits), |f.information|);
    var r := PushFrame(limits, p, f);
    if p.Partial? && Compatible(p.frame, f) && |f.information| > EffectiveReassemblySize(limits) {
      if !f.segmented {
        assert r.completed[0] in r.completed;
      }
    }
  }

  /** A frame of another kind, or between other stations, cannot continue what is pending, and no other is refused so. */
  lemma ForeignExact(limits: CodecLimits, q: HdlcFrame, f: HdlcFrame)
    ensures PushFrame(limits, Partial(q), f).status == SegmentationError <==>
      || q.destination != f.destination || q.source != f.source
      || q.control % 2 != f.control % 2 || (q.control % 2 == 1 && (q.control % 4 == 1) != (f.control % 4 == 1))
    ensures PushFrame(limits, Idle, f).status != SegmentationError
    ensures PushFrame(limits, Idle, f).status == SegmentationOverflow <==>
      |f.information| > (if limits.maximumReassembledInformationSize == 0 then 65535 else limits.maximumReassembledInformationSize)
  {
  }

  // ---- Segments reassemble ----

  /** Pushing frames until the first status that is neither Ok nor SegmentationIncomplete. */
  datatype Fed = Fed(state: Pending, completed: seq<HdlcFrame>, failure: HdlcStatus)

  function Feed(limits: CodecLimits, p: Pending, frames: seq<HdlcFrame>): Fed
    decreases |frames|
  {
    if frames == [] then Fed(p, [], Ok)
    else
      var r := PushFrame(limits, p, frames[0]);
      if r.status != Ok && r.status != SegmentationIncomplete then Fed(r.next, r.completed, r.status)
      else
        var later := Feed(limits, r.next, frames[1..]);
        Fed(later.state, r.completed + later.completed, later.failure)
  }

  lemma {:induction false} FeedPartial(
    limits: CodecLimits, base: HdlcFrame, done: Octets, information: Octets, maximum: nat)
    requires 0 < maximum <= EffectiveReassemblySize(limits) < SIZE_RANGE
    requires |done| <= EffectiveReassemblySize(limits)
    ensures var whole := done + information;
      Feed(limits, Partial(Segment(base, true, done)), Segments(base, information, maximum)) ==
      if |whole| <= EffectiveReassemblySize(limits) then Fed(Idle, [Segment(base, false, whole)], Ok)
      else Fed(Idle, [], SegmentationOverflow)
    decreases |information|
  {
    hide SizeMinus, EffectiveReassemblySize, LegalAddress;
    var frames := Segments(base, information, maximum);
    SizeMinusExact(EffectiveReassemblySize(limits), |frames[0].information|);
    var p := Segment(base, true, done);
    if |information| <= maximum {
      assert frames[1..] == [];
    } else {
      var first, rest := information[..maximum], information[maximum..];
      assert frames[0] == Segment(base, true, first);
      assert frames[1..] == Segments(base, rest, maximum);
      assert (done + first) + rest == done + information;
      if |done + first| <= EffectiveReassemblySize(limits) {
        FeedPartial(limits, base, done + first, rest, maximum);
        assert Segment(base, true, done + first) == p.(information := done + first);
      }
    }
  }

  /** Segmenting and reassembling gives the whole back exactly when it fits the reassembly limit. */
  lemma ReassembleSegments(limits: CodecLimits, base: HdlcFrame, information: Octets, maximum: nat)
    requires 0 < maximum <= EffectiveReassemblySize(limits) < SIZE_RANGE
    ensures Feed(limits, Idle, Segments(base, information, maximum)) ==
      if |information| <= EffectiveReassemblySize(limits) then Fed(Idle, [Segment(base, false, information)], Ok)
      else Fed(Idle, [], SegmentationOverflow)
  {
    var frames := Segments(base, information, maximum);
    if |information| <= maximum {
      assert frames[1..] == [];
    } else {
      var first, rest := information[..maximum], information[maximum..];
      assert frames[1..] == Segments(base, rest, maximum);
      FeedPartial(limits, base, first, rest, maximum);
      assert first + rest == information;
    }
  }

  // ---- The whole pipeline ----

  lemma {:induction false} SegmentsAre(base: HdlcFrame, information: Octets, maximum: nat, i: nat)
    requires maximum > 0
    requires i < |Segments(base, information, maximum)|
    ensures var f := Segments(base, information, maximum)[i];
      |f.information| <= maximum && f == Segment(base, f.segmented, f.information)
    decreases |information|
  {
    if |information| > maximum && i > 0 {
      SegmentsAre(base, information[maximum..], maximum, i - 1);
    }
  }

  /** A segment of the default size encodes under the default limits for every legal address pair. */
  lemma DefaultSegmentEncodes(f: HdlcFrame)
    requires |f.information| <= 2030
    ensures Encodable(f, DEFAULT_LIMITS) == Ok
  {
    HeaderSizeBound(f.destination, f.source);
  }

  /**
   With the default limits, information that is segmented, encoded, concatenated, cut
   into arbitrary chunks, stream-decoded and reassembled comes back whole exactly
   when it has at most 65535 octets.
   */
  lemma PipelineRoundTrip(base: HdlcFrame, information: Octets, policy: NoisePolicy, chunks: seq<Octets>)
    requires AllEncodable(Segments(base, information, 2030), DEFAULT_LIMITS) ==>
      Concat(chunks) == Concat(Encoded(Segments(base, information, 2030), DEFAULT_LIMITS))
    ensures AllEncodable(Segments(base, information, 2030), DEFAULT_LIMITS)
    ensures Stable(StepOf(StreamOptions(DEFAULT_LIMITS, policy)))
    ensures var s := PushAll(StepOf(StreamOptions(DEFAULT_LIMITS, policy)), Fresh(), chunks);
      && s.end == Waiting([])
      && Feed(DEFAULT_LIMITS, Idle, s.frames) ==
         if |information| <= 65535 then Fed(Idle, [Segment(base, false, information)], Ok)
         else Fed(Idle, [], SegmentationOverflow)
  {
    hide Stable, Scan, PushAll, FrameOctets, Segments, Feed;
    var options := StreamOptions(DEFAULT_LIMITS, policy);
    var frames := Segments(base, information, 2030);
    forall i | 0 <= i < |frames|
      ensures Encodable(frames[i], DEFAULT_LIMITS) == Ok
    {
      SegmentsAre(base, information, 2030, i);
      DefaultSegmentEncodes(frames[i]);
    }
    StreamDeliversFrames(options, frames, chunks);
    ReassembleSegments(DEFAULT_LIMITS, base, information, 2030);
  }
}
