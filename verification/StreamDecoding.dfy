/**
 Incremental decoders over a byte stream, abstractly: a step looks at the buffered
 octets and asks for more, emits a frame, or fails. When more input never changes
 what a step has already decided, the result of a whole stream does not depend on
 how it was cut into pushes.
 */
module StreamDecoding {
  import opened Bytes

  datatype Step<+F, +E> =
    | More(rest: Octets)
    | Emit(frame: F, rest: Octets)
    | Fail(error: E)

  datatype End<+E> = Waiting(buffer: Octets) | Failed(error: E)

  /** Frames emitted so far, and whether the decoder still waits for input. */
  datatype Scanned<+F, +E> = Scanned(frames: seq<F>, end: End<E>)

  /**
   More input does not undo a decision: a failure stays, an emitted frame stays
   and its rest only grows, and what a waiting step keeps is as good as what it saw.
   */
  ghost predicate Stable<F(!new), E(!new)>(step: Octets -> Step<F, E>) {
    && step([]) == More([])
    && (forall b, x {:trigger step(b), step(b + x)} ::
          && (step(b).Fail? ==> step(b + x) == step(b))
          && (step(b).Emit? ==> step(b + x) == Emit(step(b).frame, step(b).rest + x)))
    && (forall b, x {:trigger step(step(b).rest + x)} :: step(b).More? ==> step(step(b).rest + x) == step(b + x))
    && (forall b {:trigger step(b)} :: step(b).Emit? ==> |step(b).rest| < |b|)
    && (forall b {:trigger step(b)} :: step(b).More? ==> step(step(b).rest) == More(step(b).rest))
  }

  /** Steps until the decoder waits or fails. */
  ghost function Scan<F(!new), E(!new)>(step: Octets -> Step<F, E>, buffer: Octets): Scanned<F, E>
    requires Stable(step)
    decreases |buffer|
  {
    match step(buffer)
    case More(rest) => Scanned([], Waiting(rest))
    case Fail(e) => Scanned([], Failed(e))
    case Emit(f, rest) =>
      var later := Scan(step, rest);
      Scanned([f] + later.frames, later.end)
  }

  /** The three cases of a scan, for loops that follow it step by step. */
  lemma ScanCases<F(!new), E(!new)>(step: Octets -> Step<F, E>, b: Octets)
    requires Stable(step)
    ensures step(b).More? ==> Scan(step, b) == Scanned([], Waiting(step(b).rest))
    ensures step(b).Fail? ==> Scan(step, b) == Scanned([], Failed(step(b).error))
    ensures step(b).Emit? ==>
      && |step(b).rest| < |b|
      && Scan(step, b) ==
         Scanned([step(b).frame] + Scan(step, step(b).rest).frames, Scan(step, step(b).rest).end)
  {
  }

  /** A loop that has emitted `frames` and still has to scan `b` takes one more step. */
  ghost predicate Progress<F(!new), E(!new)>(
    step: Octets -> Step<F, E>, input: Octets, frames: seq<F>, b: Octets)
    requires Stable(step)
  {
    Scan(step, input) == Scanned(frames + Scan(step, b).frames, Scan(step, b).end)
  }

  lemma ProgressStart<F(!new), E(!new)>(step: Octets -> Step<F, E>, input: Octets)
    requires Stable(step)
    ensures Progress(step, input, [], input)
  {
    assert [] + Scan(step, input).frames == Scan(step, input).frames;
  }

  lemma ProgressStep<F(!new), E(!new)>(step: Octets -> Step<F, E>, input: Octets, frames: seq<F>, b: Octets)
    requires Stable(step) && Progress(step, input, frames, b)
    ensures step(b).More? ==> Scan(step, input) == Scanned(frames, Waiting(step(b).rest))
    ensures step(b).Fail? ==> Scan(step, input) == Scanned(frames, Failed(step(b).error))
    ensures step(b).Emit? ==>
      |step(b).rest| < |b| && Progress(step, input, frames + [step(b).frame], step(b).rest)
  {
    ScanCases(step, b);
    assert frames + [] == frames;
    if step(b).Emit? {
      var later := Scan(step, step(b).rest).frames;
      assert frames + ([step(b).frame] + later) == (frames + [step(b).frame]) + later;
    }
  }

  /** One push into a decoder that has not failed; a failed decoder is left alone. */
  ghost function Push<F(!new), E(!new)>(step: Octets -> Step<F, E>, s: Scanned<F, E>, chunk: Octets): Scanned<F, E>
    requires Stable(step)
  {
    if s.end.Failed? then s
    else
      var r := Scan(step, s.end.buffer + chunk);
      Scanned(s.frames + r.frames, r.end)
  }

  ghost function PushAll<F(!new), E(!new)>(
    step: Octets -> Step<F, E>, s: Scanned<F, E>, chunks: seq<Octets>): Scanned<F, E>
    requires Stable(step)
  {
    if chunks == [] then s
    else Push(step, PushAll(step, s, chunks[..|chunks| - 1]), chunks[|chunks| - 1])
  }

  ghost function Fresh<F, E>(): Scanned<F, E> {
    Scanned([], Waiting([]))
  }

  /** Scanning more input continues where scanning less input stopped. */
  lemma {:induction false} ScanAppend<F(!new), E(!new)>(step: Octets -> Step<F, E>, b: Octets, x: Octets)
    requires Stable(step)
    ensures Scan(step, b + x) == Push(step, Scan(step, b), x)
    decreases |b|
  {
    hide Scan;
    ScanCases(step, b);
    ScanCases(step, b + x);
    match step(b)
    case More(rest) =>
      assert step(rest + x) == step(b + x);
      SameStep(step, rest + x, b + x);
      assert [] + Scan(step, rest + x).frames == Scan(step, rest + x).frames;
    case Fail(_) =>
      assert step(b + x) == step(b);
    case Emit(f, rest) =>
      assert step(b + x) == Emit(f, rest + x);
      ScanAppend(step, rest, x);
      var later := Scan(step, rest);
      if later.end.Waiting? {
        var r := Scan(step, later.end.buffer + x);
        assert [f] + (later.frames + r.frames) == ([f] + later.frames) + r.frames;
      }
  }

  lemma SameStep<F(!new), E(!new)>(step: Octets -> Step<F, E>, a: Octets, b: Octets)
    requires Stable(step) && step(a) == step(b)
    ensures Scan(step, a) == Scan(step, b)
  {
  }

  /** However a stream is cut into pushes, the frames and the first failure are the same. */
  lemma {:induction false} ChunkingIndependence<F(!new), E(!new)>(
    step: Octets -> Step<F, E>, chunks: seq<Octets>)
    requires Stable(step)
    ensures PushAll(step, Fresh(), chunks) == Scan(step, Concat(chunks))
  {
    if chunks == [] {
      assert Concat(chunks) == [];
    } else {
      var init, last := chunks[..|chunks| - 1], chunks[|chunks| - 1];
      ChunkingIndependence(step, init);
      assert init + [last] == chunks;
      ConcatSnoc(init, last);
      ScanAppend(step, Concat(init), last);
    }
  }

  /** A decoder that waits keeps nothing it could still use. */
  lemma {:induction false} WaitingIsIdle<F(!new), E(!new)>(step: Octets -> Step<F, E>, b: Octets)
    requires Stable(step)
    requires Scan(step, b).end.Waiting?
    ensures var rest := Scan(step, b).end.buffer; step(rest) == More(rest)
    decreases |b|
  {
    if step(b).Emit? {
      WaitingIsIdle(step, step(b).rest);
    }
  }

  /** A stream made of pieces that each yield one frame and leave nothing. */
  lemma {:induction false} ScanPieces<F(!new), E(!new)>(
    step: Octets -> Step<F, E>, pieces: seq<Octets>, frames: seq<F>)
    requires Stable(step)
    requires |pieces| == |frames|
    requires forall i :: 0 <= i < |pieces| ==> step(pieces[i]) == Emit(frames[i], [])
    ensures Scan(step, Concat(pieces)) == Scanned(frames, Waiting([]))
  {
    if pieces == [] {
      assert Concat(pieces) == [];
    } else {
      var tail := Concat(pieces[1..]);
      assert step(pieces[0] + tail) == Emit(frames[0], [] + tail);
      assert [] + tail == tail;
      ScanPieces(step, pieces[1..], frames[1..]);
      assert [frames[0]] + frames[1..] == frames;
    }
  }
}
