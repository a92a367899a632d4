/**
 The HDLC frame codec (frame format type 3): what a frame looks like on the line,
 the buffer routines that write and read it, and the proof that they are inverse
 to each other and reject every short burst error.
 */
module HdlcCodec {
  import opened Bytes
  import opened HdlcTypes
  import opened HdlcAddressCodec
  import opened HdlcCrc

  const HDLC_FLAG: byte := 0x7e
  const MAXIMUM_FORMAT_FIELD_LENGTH: nat := 2047

  // ---- The line format ----

  function HeaderSize(destination: HdlcAddress, source: HdlcAddress): nat {
    2 + destination.size + source.size + 1
  }

  function EffectiveMaximumInformationFieldSize(
    destination: HdlcAddress, source: HdlcAddress, limits: CodecLimits): nat
  {
    var maximum := EffectiveMaximumFrameSize(limits);
    var overhead := 2 + HeaderSize(destination, source) + 2 + 2;
    if limits.maximumInformationFieldSize != 0 then limits.maximumInformationFieldSize
    else if maximum < overhead then 0
    else maximum - overhead
  }

  function FormatFieldLength(f: HdlcFrame): nat {
    HeaderSize(f.destination, f.source) + (if f.information == [] then 0 else 2) + |f.information| + 2
  }

  /** The two format octets: type 3 in the high nibble, the segmentation bit, an eleven-bit length. */
  function FormatOctets(segmented: bool, length: nat): (r: Octets)
    requires length <= MAXIMUM_FORMAT_FIELD_LENGTH
    ensures |r| == 2
  {
    [0xa0 + (if segmented then 8 else 0) + length / 256, length % 256]
  }

  function Header(f: HdlcFrame): (r: Octets)
    requires FormatFieldLength(f) <= MAXIMUM_FORMAT_FIELD_LENGTH
    ensures |r| == HeaderSize(f.destination, f.source)
  {
    FormatOctets(f.segmented, FormatFieldLength(f))
    + AddressOctets(f.destination) + AddressOctets(f.source) + [f.control]
  }

  /** Everything the frame check sequence covers. */
  function Covered(f: HdlcFrame): (r: Octets)
    requires FormatFieldLength(f) <= MAXIMUM_FORMAT_FIELD_LENGTH
    ensures |r| == FormatFieldLength(f) - 2
  {
    if f.information == [] then Header(f)
    else Header(f) + CrcOctets(Header(f)) + f.information
  }

  function FrameOctets(f: HdlcFrame): (r: Octets)
    requires FormatFieldLength(f) <= MAXIMUM_FORMAT_FIELD_LENGTH
    ensures |r| == FormatFieldLength(f) + 2
  {
    [HDLC_FLAG] + Covered(f) + CrcOctets(Covered(f)) + [HDLC_FLAG]
  }

  /** Why a frame cannot be encoded under the limits, or Ok. */
  function Encodable(f: HdlcFrame, limits: CodecLimits): HdlcStatus {
    if |f.information| > EffectiveMaximumInformationFieldSize(f.destination, f.source, limits) then
      InformationFieldTooLarge
    else if FormatFieldLength(f) > MAXIMUM_FORMAT_FIELD_LENGTH then
      InvalidFrameLength
    else if FormatFieldLength(f) + 2 > EffectiveMaximumFrameSize(limits) then
      FrameTooLarge
    else
      Ok
  }

  function EncodeFrame(f: HdlcFrame, limits: CodecLimits): Result<Octets> {
    if Encodable(f, limits) == Ok then Good(FrameOctets(f)) else Bad(Encodable(f, limits))
  }

  // ---- Reading a frame ----

  predicate IsFormatType3(hi: byte) {
    hi / 16 == 10
  }

  predicate SegmentationBit(hi: byte) {
    hi / 8 % 2 == 1
  }

  function FormatLength(hi: byte, lo: byte): nat {
    256 * (hi % 8) + lo as int
  }

  /** Where the fields of a complete frame begin and end. */
  datatype Layout = Layout(
    destination: HdlcAddress, source: HdlcAddress, control: HdlcControl, headerEnd: nat, before: nat)

  /** Addresses and control of a complete frame, with the number of octets between control and FCS. */
  function ParseLayout(input: Octets): (r: Result<Layout>)
    requires |input| >= 8
    ensures r.Good? ==> 6 <= r.value.headerEnd && r.value.headerEnd + r.value.before + 3 == |input|
    ensures r.Bad? ==> r.status != InformationFieldTooLarge
  {
    var n := |input|;
    match ParseAddress(input[3..n - 1])
    case Bad(s) => Bad(s)
    case Good(d) =>
      EncodeInvertsParse(input[3..n - 1]);
      var afterDestination := 3 + d.consumed;
      match ParseAddress(input[afterDestination..n - 1])
      case Bad(s) => Bad(s)
      case Good(s) =>
        EncodeInvertsParse(input[afterDestination..n - 1]);
        var offset := afterDestination + s.consumed;
        if offset >= n - 3 then Bad(InvalidFrameLength)
        else if !LegalControl(input[offset]) then Bad(InvalidControlField)
        else Good(Layout(d.address, s.address, input[offset], offset + 1, n - 3 - (offset + 1)))
  }

  /** The checks on a complete frame whose length field and flags are right. */
  function DecodeComplete(input: Octets, limits: CodecLimits): Result<HdlcFrame>
    requires |input| >= 8
  {
    match ParseLayout(input)
    case Bad(s) => Bad(s)
    case Good(l) =>
      var n := |input|;
      if l.before == 1 then
        Bad(InvalidFrameLength)
      else if l.before != 0 && CrcOctets(input[1..l.headerEnd]) != input[l.headerEnd..l.headerEnd + 2] then
        Bad(InvalidHeaderChecksum)
      else if CrcOctets(input[1..n - 3]) != input[n - 3..n - 1] then
        Bad(InvalidFrameChecksum)
      else
        var information := if l.before == 0 then [] else input[l.headerEnd + 2..n - 3];
        if |information| > EffectiveMaximumInformationFieldSize(l.destination, l.source, limits) then
          Bad(InformationFieldTooLarge)
        else
          Good(HdlcFrame(SegmentationBit(input[1]), l.destination, l.source, l.control, information))
  }

  function DecodeFrame(input: Octets, limits: CodecLimits): Result<HdlcFrame> {
    if |input| < 4 then Bad(NeedMoreData)
    else if input[0] != HDLC_FLAG then Bad(InvalidFlag)
    else if !IsFormatType3(input[1]) then Bad(InvalidFrameFormat)
    else
      var length := FormatLength(input[1], input[2]);
      if length < 6 then Bad(InvalidFrameLength)
      else if length + 2 > EffectiveMaximumFrameSize(limits) then Bad(FrameTooLarge)
      else if |input| < length + 2 then Bad(NeedMoreData)
      else if |input| != length + 2 then Bad(InvalidFrameLength)
      else if input[length + 1] != HDLC_FLAG then Bad(InvalidFlag)
      else DecodeComplete(input, limits)
  }

  /** Right flags, type and length: what is left is the check of the complete frame. */
  lemma CompleteDecode(x: Octets, limits: CodecLimits)
    requires 8 <= |x| <= EffectiveMaximumFrameSize(limits)
    requires x[0] == HDLC_FLAG == x[|x| - 1]
    requires IsFormatType3(x[1]) && FormatLength(x[1], x[2]) == |x| - 2
    ensures DecodeFrame(x, limits) == DecodeComplete(x, limits)
  {
  }

  lemma CompleteFrame(x: Octets, limits: CodecLimits)
    requires DecodeFrame(x, limits).Good?
    ensures 8 <= |x| <= EffectiveMaximumFrameSize(limits)
    ensures x[0] == HDLC_FLAG == x[|x| - 1]
    ensures IsFormatType3(x[1]) && FormatLength(x[1], x[2]) == |x| - 2
    ensures DecodeFrame(x, limits) == DecodeComplete(x, limits)
  {
  }

  // ---- Decoding inverts encoding ----

  lemma FormatRoundTrip(segmented: bool, length: nat)
    requires length <= MAXIMUM_FORMAT_FIELD_LENGTH
    ensures var o := FormatOctets(segmented, length);
      IsFormatType3(o[0]) && SegmentationBit(o[0]) == segmented && FormatLength(o[0], o[1]) == length
  {
  }

  lemma FormatRoundTripBack(hi: byte, lo: byte)
    requires IsFormatType3(hi)
    ensures FormatLength(hi, lo) <= MAXIMUM_FORMAT_FIELD_LENGTH
    ensures FormatOctets(SegmentationBit(hi), FormatLength(hi, lo)) == [hi, lo]
  {
  }

  /** A frame put together from its header, what follows the header, and a check sequence. */
  function Assemble(header: Octets, after: Octets, check: Octets): Octets {
    [HDLC_FLAG] + (header + after) + check + [HDLC_FLAG]
  }

  function HeaderFields(format: Octets, d: HdlcAddress, s: HdlcAddress, c: HdlcControl): Octets {
    format + AddressOctets(d) + AddressOctets(s) + [c]
  }

  lemma AssembledPieces(header: Octets, after: Octets, check: Octets)
    requires |check| == 2
    ensures var x := Assemble(header, after, check); var n := |x|;
      && n == |header| + |after| + 4
      && x[0] == HDLC_FLAG == x[n - 1]
      && x[1..1 + |header|] == header
      && x[1 + |header|..n - 3] == after
      && x[1..n - 3] == header + after
      && x[n - 3..n - 1] == check
  {
  }

  lemma AddressSlices(front: Octets, d: Octets, s: Octets, tail: Octets, end: byte)
    requires |front| == 3
    ensures var x := front + d + s + tail + [end]; var n, p, q := |x|, 3 + |d|, 3 + |d| + |s|;
      && x[3..n - 1] == d + x[p..n - 1] && x[p..n - 1] == s + x[q..n - 1] && x[q..n - 1] == tail
  {
    var x := front + d + s + tail + [end];
    var n, p, q := |x|, 3 + |d|, 3 + |d| + |s|;
    assert x[3..p] == d && x[p..q] == s && x[q..n - 1] == tail;
    assert x[3..n - 1] == x[3..p] + x[p..n - 1] && x[p..n - 1] == x[p..q] + x[q..n - 1];
  }

  lemma AssembledFlat(
    format: Octets, d: HdlcAddress, s: HdlcAddress, c: HdlcControl, after: Octets, check: Octets)
    requires |format| == 2 == |check|
    ensures var x := Assemble(HeaderFields(format, d, s, c), after, check);
      && |x| == HeaderSize(d, s) + |after| + 4
      && x[1] == format[0] && x[2] == format[1]
      && x == ([HDLC_FLAG] + format) + AddressOctets(d) + AddressOctets(s) + ([c] + after + check) + [HDLC_FLAG]
  {
    hide AddressOctets, LegalAddress;
  }

  lemma AssembledLayout(
    format: Octets, d: HdlcAddress, s: HdlcAddress, c: HdlcControl, after: Octets, check: Octets)
    requires |format| == 2 == |check|
    ensures var x := Assemble(HeaderFields(format, d, s, c), after, check);
      && |x| == HeaderSize(d, s) + |after| + 4
      && x[1] == format[0] && x[2] == format[1]
      && ParseLayout(x) == Good(Layout(d, s, c, 1 + HeaderSize(d, s), |after|))
  {
    hide ParseAddress, AddressOctets, Assemble, HeaderFields;
    var x := Assemble(HeaderFields(format, d, s, c), after, check);
    var n, p, q := |x|, 3 + d.size, 3 + d.size + s.size;
    var tail := [c] + after + check;
    HeaderSizeBound(d, s);
    AssembledFlat(format, d, s, c, after, check);
    AddressSlices([HDLC_FLAG] + format, AddressOctets(d), AddressOctets(s), tail, HDLC_FLAG);
    assert x[q..n - 1][0] == tail[0] == c;
    ParseInvertsEncode(d, x[p..n - 1]);
    ParseInvertsEncode(s, x[q..n - 1]);
  }

  /** What lies between the control field and the frame check sequence. */
  function AfterHeader(f: HdlcFrame): Octets
    requires FormatFieldLength(f) <= MAXIMUM_FORMAT_FIELD_LENGTH
  {
    if f.information == [] then [] else CrcOctets(Header(f)) + f.information
  }

  lemma FrameAssembled(f: HdlcFrame)
    requires FormatFieldLength(f) <= MAXIMUM_FORMAT_FIELD_LENGTH
    ensures Header(f) ==
      HeaderFields(FormatOctets(f.segmented, FormatFieldLength(f)), f.destination, f.source, f.control)
    ensures Header(f) + AfterHeader(f) == Covered(f)
    ensures FrameOctets(f) == Assemble(Header(f), AfterHeader(f), CrcOctets(Covered(f)))
  {
    hide CrcOctets, AddressOctets, FormatOctets;
    assert Header(f) + [] == Header(f);
  }

  lemma HeaderSizeBound(d: HdlcAddress, s: HdlcAddress)
    ensures 5 <= HeaderSize(d, s) <= 11
  {
  }

  /** A complete frame, its layout known and both check sequences right. */
  lemma CompleteFromParts(x: Octets, limits: CodecLimits, l: Layout, information: Octets)
    requires |x| >= 8 && ParseLayout(x) == Good(l) && l.before != 1
    requires l.before == 0 ==> information == []
    requires l.before != 0 ==>
      && CrcOctets(x[1..l.headerEnd]) == x[l.headerEnd..l.headerEnd + 2]
      && information == x[l.headerEnd + 2..|x| - 3]
    requires CrcOctets(x[1..|x| - 3]) == x[|x| - 3..|x| - 1]
    requires |information| <= EffectiveMaximumInformationFieldSize(l.destination, l.source, limits)
    ensures DecodeComplete(x, limits) ==
      Good(HdlcFrame(SegmentationBit(x[1]), l.destination, l.source, l.control, information))
  {
    hide ParseLayout, CrcOctets, SegmentationBit, EffectiveMaximumInformationFieldSize, LegalAddress;
  }

  /** The checks on a complete frame succeed on what the encoder wrote. */
  lemma DecodeCompleteInvertsEncode(f: HdlcFrame, limits: CodecLimits)
    requires Encodable(f, limits) == Ok
    ensures DecodeComplete(FrameOctets(f), limits) == Good(f)
  {
    hide ParseLayout, CrcOctets, FrameOctets, Header, Covered, FormatOctets, FormatLength, DecodeComplete;
    hide SegmentationBit, IsFormatType3, HeaderFields, Assemble, LegalAddress, AddressOctets;
    hide EffectiveMaximumInformationFieldSize, EffectiveMaximumFrameSize;
    var format := FormatOctets(f.segmented, FormatFieldLength(f));
    var after, check := AfterHeader(f), CrcOctets(Covered(f));
    FrameAssembled(f);
    FormatRoundTrip(f.segmented, FormatFieldLength(f));
    AssembledLayout(format, f.destination, f.source, f.control, after, check);
    AssembledPieces(Header(f), after, check);
    HeaderSizeBound(f.destination, f.source);
    var x, h := FrameOctets(f), HeaderSize(f.destination, f.source);
    var n := |x|;
    if f.information != [] {
      SplitSlice(x, 1 + h, n - 3, CrcOctets(Header(f)), f.information);
    }
    CompleteFromParts(x, limits, Layout(f.destination, f.source, f.control, 1 + h, |after|), f.information);
  }

  /** Every frame that encodes decodes under the same limits to itself. */
  lemma DecodeInvertsEncode(f: HdlcFrame, limits: CodecLimits)
    requires Encodable(f, limits) == Ok
    ensures DecodeFrame(FrameOctets(f), limits) == Good(f)
  {
    hide CrcOctets, FrameOctets, Header, Covered, FormatOctets, FormatLength;
    hide IsFormatType3, HeaderFields, Assemble, DecodeFrame, DecodeComplete, LegalAddress;
    var format := FormatOctets(f.segmented, FormatFieldLength(f));
    var after, check := AfterHeader(f), CrcOctets(Covered(f));
    FrameAssembled(f);
    FormatRoundTrip(f.segmented, FormatFieldLength(f));
    AssembledLayout(format, f.destination, f.source, f.control, after, check);
    AssembledPieces(Header(f), after, check);
    HeaderSizeBound(f.destination, f.source);
    DecodeCompleteInvertsEncode(f, limits);
    CompleteDecode(FrameOctets(f), limits);
  }

  /** Limits decide whether a frame is accepted, never what it is. */
  lemma DecodeSame(x: Octets, a: CodecLimits, b: CodecLimits)
    requires DecodeFrame(x, a).Good? && DecodeFrame(x, b).Good?
    ensures DecodeFrame(x, a) == DecodeFrame(x, b)
  {
    hide ParseLayout, CrcOctets, FormatLength, IsFormatType3, SegmentationBit;
  }

  // ---- Encoding inverts decoding, except on one shape ----

  lemma LayoutSound(input: Octets)
    requires |input| >= 8
    requires ParseLayout(input).Good?
    ensures var l := ParseLayout(input).value;
      && l.headerEnd == 1 + HeaderSize(l.destination, l.source)
      && l.headerEnd <= |input|
      && input[3..l.headerEnd] == AddressOctets(l.destination) + AddressOctets(l.source) + [l.control]
  {
    hide ParseAddress, AddressOctets, LegalAddress;
    var n := |input|;
    EncodeInvertsParse(input[3..n - 1]);
    var d := ParseAddress(input[3..n - 1]).value;
    var at := 3 + d.consumed;
    TakeOfSlice(input, 3, n - 1, d.consumed);
    EncodeInvertsParse(input[at..n - 1]);
    var s := ParseAddress(input[at..n - 1]).value;
    TakeOfSlice(input, at, n - 1, s.consumed);
    JoinSlices(input, 3, at, at + s.consumed);
    JoinSlices(input, 3, at + s.consumed, at + s.consumed + 1);
  }

  /** Size of a frame that carries a header check sequence but no information. */
  function BareChecksumSize(f: HdlcFrame): nat {
    HeaderSize(f.destination, f.source) + 6
  }

  /** Octets between flags whose header fields are known, taken apart and put together again. */
  lemma Reassembled(x: Octets, d: HdlcAddress, s: HdlcAddress, c: HdlcControl)
    requires |x| >= 4 + HeaderSize(d, s)
    requires x[0] == HDLC_FLAG == x[|x| - 1]
    requires x[3..1 + HeaderSize(d, s)] == AddressOctets(d) + AddressOctets(s) + [c]
    ensures var n, h, header := |x|, HeaderSize(d, s), HeaderFields([x[1], x[2]], d, s, c);
      && x[1..1 + h] == header
      && x == Assemble(header, x[1 + h..n - 3], x[n - 3..n - 1])
  {
    hide AddressOctets, LegalAddress;
    var n, h := |x|, HeaderSize(d, s);
    assert x[1..1 + h] == [x[1], x[2]] + x[3..1 + h];
    assert x[1..1 + h] == HeaderFields([x[1], x[2]], d, s, c);
    assert x[1..n - 3] == x[1..1 + h] + x[1 + h..n - 3];
    assert x == [x[0]] + x[1..n - 3] + x[n - 3..n - 1] + [x[n - 1]];
  }

  /** An accepted octet string, field by field. */
  lemma AcceptedShape(x: Octets, limits: CodecLimits)
    requires DecodeFrame(x, limits).Good?
    ensures var f := DecodeFrame(x, limits).value; var n, h := |x|, HeaderSize(f.destination, f.source);
      && 4 + h <= n <= MAXIMUM_FORMAT_FIELD_LENGTH + 2
      && n <= EffectiveMaximumFrameSize(limits)
      && |f.information| <= EffectiveMaximumInformationFieldSize(f.destination, f.source, limits)
      && x[0] == HDLC_FLAG == x[n - 1]
      && [x[1], x[2]] == FormatOctets(f.segmented, n - 2)
      && x[3..1 + h] == AddressOctets(f.destination) + AddressOctets(f.source) + [f.control]
      && x[n - 3..n - 1] == CrcOctets(x[1..n - 3])
      && if n == 4 + h then f.information == [] else
         n >= 6 + h && x[1 + h..n - 3] == CrcOctets(x[1..1 + h]) + f.information
  {
    hide ParseLayout, CrcOctets, AddressOctets, FormatOctets, FormatLength;
    LayoutSound(x);
    FormatRoundTripBack(x[1], x[2]);
    var n, l := |x|, ParseLayout(x).value;
    if l.before != 0 {
      JoinSlices(x, l.headerEnd, l.headerEnd + 2, n - 3);
    }
  }

  /**
   An accepted octet string encodes back to itself exactly when it is not a
   header check sequence followed by nothing.
   */
  lemma EncodeInvertsDecode(x: Octets, limits: CodecLimits)
    requires DecodeFrame(x, limits).Good?
    ensures var f := DecodeFrame(x, limits).value;
      && Encodable(f, limits) == Ok
      && (FrameOctets(f) == x <==> |x| != BareChecksumSize(f))
  {
    hide DecodeFrame, CrcOctets, AddressOctets, FormatOctets, HeaderFields, Assemble, Header, Covered, FrameOctets;
    AcceptedShape(x, limits);
    var f := DecodeFrame(x, limits).value;
    var h, n := HeaderSize(f.destination, f.source), |x|;
    Reassembled(x, f.destination, f.source, f.control);
    FrameAssembled(f);
    if n != BareChecksumSize(f) {
      assert x[1..1 + h] == Header(f);
      if n == 4 + h {
        assert x[1 + h..n - 3] == [];
      }
      assert x[1..n - 3] == x[1..1 + h] + x[1 + h..n - 3];
    }
  }

  /** A header check sequence followed by nothing. */
  function BareChecksumOctets(f: HdlcFrame): Octets {
    var header := HeaderFields(
      FormatOctets(f.segmented, HeaderSize(f.destination, f.source) + 4), f.destination, f.source, f.control);
    Assemble(header, CrcOctets(header), CrcOctets(header + CrcOctets(header)))
  }

  /** For every header the exceptional shape exists, is accepted, and encodes back to something else. */
  lemma BareChecksumAccepted(f: HdlcFrame, limits: CodecLimits)
    requires f.information == []
    requires BareChecksumSize(f) <= EffectiveMaximumFrameSize(limits)
    ensures var x := BareChecksumOctets(f);
      |x| == BareChecksumSize(f) && DecodeFrame(x, limits) == Good(f) && FrameOctets(f) != x
  {
    hide ParseLayout, CrcOctets, FormatOctets, FormatLength, SegmentationBit, IsFormatType3;
    hide HeaderFields, Assemble, DecodeFrame, FrameOctets, AddressOctets, LegalAddress;
    var h := HeaderSize(f.destination, f.source);
    HeaderSizeBound(f.destination, f.source);
    var format := FormatOctets(f.segmented, h + 4);
    var header := HeaderFields(format, f.destination, f.source, f.control);
    var after, check := CrcOctets(header), CrcOctets(header + CrcOctets(header));
    FormatRoundTrip(f.segmented, h + 4);
    AssembledLayout(format, f.destination, f.source, f.control, after, check);
    AssembledPieces(header, after, check);
    var x := BareChecksumOctets(f);
    assert x[1 + h..1 + h + 2] == x[1 + h..|x| - 3];
    CompleteDecode(x, limits);
  }

  // ---- Burst errors ----

  /** What an accepted frame's check sequence guarantees about the octets between the flags. */
  lemma AcceptedResidue(x: Octets, limits: CodecLimits)
    requires DecodeFrame(x, limits).Good?
    ensures |x| >= 8 && x[0] == HDLC_FLAG == x[|x| - 1]
    ensures Register(INITIAL_FCS, x[1..|x| - 1]) == GOOD_FCS
  {
    hide CrcOctets, Register, ParseLayout, FormatLength, IsFormatType3;
    var n := |x|;
    var message := x[1..n - 3];
    assert x[1..n - 1] == message + [x[n - 3], x[n - 2]];
    assert x[n - 3..n - 1] == [x[n - 3], x[n - 2]];
    ResidueExact(message, x[n - 3], x[n - 2]);
  }

  /** No change confined to two adjacent octets turns an accepted frame into another accepted frame. */
  lemma BurstRejected(x: Octets, y: Octets, at: int, limits: CodecLimits)
    requires DecodeFrame(x, limits).Good?
    requires DifferInBurst(x, y, at)
    ensures DecodeFrame(y, limits).Bad?
  {
    hide DecodeFrame, Register;
    if DecodeFrame(y, limits).Good? {
      AcceptedResidue(x, limits);
      AcceptedResidue(y, limits);
      var inner, inner' := x[1..|x| - 1], y[1..|y| - 1];
      assert x == [HDLC_FLAG] + inner + [HDLC_FLAG];
      assert y == [HDLC_FLAG] + inner' + [HDLC_FLAG];
      BurstChangesRegister(INITIAL_FCS, inner, inner', at - 1);
    }
  }

  lemma CompleteBadChecksum(x: Octets, limits: CodecLimits, l: Layout)
    requires |x| >= 8 && ParseLayout(x) == Good(l) && l.before >= 2
    requires CrcOctets(x[1..l.headerEnd]) == x[l.headerEnd..l.headerEnd + 2]
    requires CrcOctets(x[1..|x| - 3]) != x[|x| - 3..|x| - 1]
    ensures DecodeComplete(x, limits) == Bad(InvalidFrameChecksum)
  {
    hide ParseLayout, CrcOctets, SegmentationBit, EffectiveMaximumInformationFieldSize, LegalAddress;
  }

  lemma CompleteChecksums(x: Octets, limits: CodecLimits)
    requires |x| >= 8 && DecodeComplete(x, limits).Good?
    ensures ParseLayout(x).Good?
    ensures var f, l := DecodeComplete(x, limits).value, ParseLayout(x).value;
      && l.destination == f.destination && l.source == f.source
      && (l.before != 0 ==> l.before >= 2 && CrcOctets(x[1..l.headerEnd]) == x[l.headerEnd..l.headerEnd + 2])
      && CrcOctets(x[1..|x| - 3]) == x[|x| - 3..|x| - 1]
  {
    hide ParseLayout, CrcOctets, SegmentationBit, EffectiveMaximumInformationFieldSize, LegalAddress;
  }

  /** Where the information field of a decoded frame begins; it ends before the check sequence and the flag. */
  function InformationStart(f: HdlcFrame): nat {
    1 + HeaderSize(f.destination, f.source) + 2
  }

  /** The two strings agree outside the information field. */
  ghost predicate AgreeOutsideInformation(x: Octets, y: Octets, start: nat) {
    |x| == |y| && forall i :: 0 <= i < |x| && (i < start || i >= |x| - 3) ==> x[i] == y[i]
  }

  /** A change of at most two adjacent information octets is reported as a bad frame check sequence. */
  lemma InformationBurstStatus(x: Octets, y: Octets, at: int, limits: CodecLimits)
    requires DecodeFrame(x, limits).Good?
    requires DifferInBurst(x, y, at)
    requires AgreeOutsideInformation(x, y, InformationStart(DecodeFrame(x, limits).value))
    ensures DecodeFrame(y, limits) == Bad(InvalidFrameChecksum)
  {
    hide CrcOctets, FormatLength, IsFormatType3, SegmentationBit, DecodeFrame, DecodeComplete;
    hide ParseLayout, LegalAddress, HeaderSize;
    CompleteFrame(x, limits);
    CompleteChecksums(x, limits);
    LayoutSound(x);
    var n, l := |x|, ParseLayout(x).value;
    assert forall i :: 0 <= i < l.headerEnd + 2 && i < n - 3 ==> x[i] == y[i];
    assert x[..l.headerEnd] == y[..l.headerEnd];
    SameLayout(x, y);
    assert x[1..l.headerEnd] == y[1..l.headerEnd];
    assert l.before != 0 ==> x[l.headerEnd..l.headerEnd + 2] == y[l.headerEnd..l.headerEnd + 2];
    assert x[n - 3..n - 1] == y[n - 3..n - 1];
    CoveredBurst(x, y, at);
    CompleteDecode(y, limits);
    CompleteBadChecksum(y, limits, l);
  }

  lemma CoveredBurst(x: Octets, y: Octets, at: int)
    requires |x| >= 8 && DifferInBurst(x, y, at)
    requires x[0] == y[0] && x[|x| - 3..] == y[|x| - 3..]
    ensures CrcOctets(x[1..|x| - 3]) != CrcOctets(y[1..|y| - 3])
  {
    hide CrcOctets;
    var a, b := x[1..|x| - 3], y[1..|y| - 3];
    assert x == [x[0]] + a + x[|x| - 3..];
    assert y == [y[0]] + b + y[|y| - 3..];
    BurstDetected(a, b, at - 1);
    CrcOctetsInjective(a, b);
  }

  /** Frames that agree up to the end of the control field have the same layout. */
  lemma SameLayout(x: Octets, y: Octets)
    requires |x| == |y| >= 8
    requires y[0] == HDLC_FLAG == y[|y| - 1]
    requires ParseLayout(x).Good?
    requires x[..ParseLayout(x).value.headerEnd] == y[..ParseLayout(x).value.headerEnd]
    ensures ParseLayout(y) == ParseLayout(x)
  {
    hide AddressOctets, HeaderFields, Assemble, LegalAddress, ParseLayout;
    LayoutSound(x);
    var n, l := |x|, ParseLayout(x).value;
    assert y[3..l.headerEnd] == y[..l.headerEnd][3..] == x[3..l.headerEnd];
    Reassembled(y, l.destination, l.source, l.control);
    AssembledLayout([y[1], y[2]], l.destination, l.source, l.control, y[l.headerEnd..n - 3], y[n - 3..n - 1]);
  }

  // ---- The buffer routines ----

  lemma OverlayFront<T>(before: seq<T>, data: seq<T>, from: nat)
    requires from <= |data| <= |before|
    ensures Overlay(before, 0, data)[from..|data|] == data[from..]
  {
  }

  lemma OctetsOfCrc(data: Octets)
    ensures CrcOctets(data) == [LowByte(Crc(data)), HighByte(Crc(data))]
  {
    hide Crc, LowByte, HighByte;
  }

  /** Appends the check sequence of everything after the opening flag. */
  method WriteChecksum(output: array<byte>, offset: nat)
    requires 1 <= offset && offset + 2 <= output.Length
    modifies output
    ensures output[..] == Overlay(old(output[..]), offset, CrcOctets(old(output[1..offset])))
  {
    hide Crc, CrcOctets, LowByte, HighByte;
    var crc := CalculateHdlcCrc(output[1..offset]);
    OctetsOfCrc(output[1..offset]);
    CopyInto([LowByte(crc), HighByte(crc)], output, offset);
  }

  method WriteHeader(f: HdlcFrame, output: array<byte>) returns (offset: nat)
    requires FormatFieldLength(f) <= MAXIMUM_FORMAT_FIELD_LENGTH
    requires 1 + HeaderSize(f.destination, f.source) <= output.Length
    modifies output
    ensures offset == 1 + HeaderSize(f.destination, f.source)
    ensures output[..] == Overlay(old(output[..]), 0, [HDLC_FLAG] + Header(f))
  {
    hide AddressOctets, FormatOctets, LegalAddress, Overlay, Header;
    HeaderInOrder(f);
    ghost var before := output[..];
    var start := [HDLC_FLAG] + FormatOctets(f.segmented, FormatFieldLength(f));
    ghost var d, s := AddressOctets(f.destination), AddressOctets(f.source);
    ghost var to1, to2, to3 := start + d, start + d + s, start + d + s + [f.control];
    CopyInto(start, output, 0);
    offset := 3;
    var status, addressSize := EncodeAddress(f.destination, output, offset);
    OverlayTwice(before, 0, start, d);
    assert output[..] == Overlay(before, 0, to1);
    offset := offset + addressSize;
    status, addressSize := EncodeAddress(f.source, output, offset);
    OverlayTwice(before, 0, to1, s);
    assert output[..] == Overlay(before, 0, to2);
    offset := offset + addressSize;
    CopyInto([f.control], output, offset);
    OverlayTwice(before, 0, to2, [f.control]);
    assert output[..] == Overlay(before, 0, to3);
    offset := offset + 1;
  }

  lemma HeaderInOrder(f: HdlcFrame)
    requires FormatFieldLength(f) <= MAXIMUM_FORMAT_FIELD_LENGTH
    ensures var start := [HDLC_FLAG] + FormatOctets(f.segmented, FormatFieldLength(f));
      start + AddressOctets(f.destination) + AddressOctets(f.source) + [f.control] == [HDLC_FLAG] + Header(f)
  {
    hide AddressOctets, FormatOctets, LegalAddress;
  }

  lemma InformationInOrder(f: HdlcFrame)
    requires FormatFieldLength(f) <= MAXIMUM_FORMAT_FIELD_LENGTH
    ensures [HDLC_FLAG] + Covered(f) ==
      if f.information == [] then [HDLC_FLAG] + Header(f)
      else [HDLC_FLAG] + Header(f) + CrcOctets(Header(f)) + f.information
  {
    hide CrcOctets, Header, LegalAddress;
  }

  /** The header check sequence and the information field, or nothing. */
  method WriteInformation(f: HdlcFrame, output: array<byte>, start: nat, ghost before: Octets)
    returns (offset: nat)
    requires FormatFieldLength(f) <= MAXIMUM_FORMAT_FIELD_LENGTH
    requires FormatFieldLength(f) + 2 <= output.Length == |before|
    requires start == 1 + |Header(f)|
    requires output[..] == Overlay(before, 0, [HDLC_FLAG] + Header(f))
    modifies output
    ensures offset == 1 + |Covered(f)|
    ensures output[..] == Overlay(before, 0, [HDLC_FLAG] + Covered(f))
  {
    hide CrcOctets, Header, Covered, Overlay, LegalAddress;
    InformationInOrder(f);
    offset := start;
    if f.information != [] {
      ghost var h, check := [HDLC_FLAG] + Header(f), CrcOctets(Header(f));
      OverlayFront(before, h, 1);
      assert output[1..offset] == output[..][1..offset] == Header(f);
      WriteChecksum(output, offset);
      OverlayTwice(before, 0, h, check);
      offset := offset + 2;
      CopyInto(f.information, output, offset);
      OverlayTwice(before, 0, h + check, f.information);
      offset := offset + |f.information|;
    }
  }

  method WriteFrame(f: HdlcFrame, output: array<byte>) returns (offset: nat)
    requires FormatFieldLength(f) <= MAXIMUM_FORMAT_FIELD_LENGTH
    requires FormatFieldLength(f) + 2 <= output.Length
    modifies output
    ensures offset == FormatFieldLength(f) + 2
    ensures output[..] == Overlay(old(output[..]), 0, FrameOctets(f))
  {
    hide CrcOctets, Header, Covered, Overlay, LegalAddress;
    ghost var before := output[..];
    offset := WriteHeader(f, output);
    offset := WriteInformation(f, output, offset, before);
    ghost var c, check := [HDLC_FLAG] + Covered(f), CrcOctets(Covered(f));
    OverlayFront(before, c, 1);
    assert output[1..offset] == output[..][1..offset] == Covered(f);
    WriteChecksum(output, offset);
    OverlayTwice(before, 0, c, check);
    offset := offset + 2;
    CopyInto([HDLC_FLAG], output, offset);
    OverlayTwice(before, 0, c + check, [HDLC_FLAG]);
    offset := offset + 1;
  }

  /** Writes one frame at the start of the buffer, if it is encodable and fits. */
  method EncodeFrameToBuffer(f: HdlcFrame, limits: CodecLimits, output: array<byte>)
    returns (status: HdlcStatus, written: nat)
    modifies output
    ensures status ==
      if Encodable(f, limits) != Ok then Encodable(f, limits)
      else if output.Length < FormatFieldLength(f) + 2 then OutputBufferTooSmall
      else Ok
    ensures status == Ok ==>
      written == |FrameOctets(f)| && output[..] == Overlay(old(output[..]), 0, FrameOctets(f))
    ensures status != Ok ==> output[..] == old(output[..])
    ensures status != Ok ==> written == if status == OutputBufferTooSmall then FormatFieldLength(f) + 2 else 0
  {
    hide FrameOctets;
    if |f.information| > EffectiveMaximumInformationFieldSize(f.destination, f.source, limits) {
      return InformationFieldTooLarge, 0;
    }
    var hasInformation := |f.information| != 0;
    var headerSize := 2 + f.destination.size + f.source.size + 1;
    var formatFieldLength := headerSize + (if hasInformation then 2 else 0) + |f.information| + 2;
    var fullFrameSize := formatFieldLength + 2;
    if formatFieldLength > MAXIMUM_FORMAT_FIELD_LENGTH {
      return InvalidFrameLength, 0;
    }
    if fullFrameSize > EffectiveMaximumFrameSize(limits) {
      return FrameTooLarge, 0;
    }
    if output.Length < fullFrameSize {
      return OutputBufferTooSmall, fullFrameSize;
    }
    written := WriteFrame(f, output);
    return Ok, written;
  }

  /** Reads the two addresses and the control field of a complete frame. */
  method ReadLayout(input: Octets) returns (status: HdlcStatus, layout: Layout)
    requires |input| >= 8
    ensures match ParseLayout(input)
            case Good(l) => status == Ok && layout == l
            case Bad(s) => status == s
  {
    hide ParseAddress, AddressOctets, LegalAddress;
    layout := Layout(DEFAULT_ADDRESS, DEFAULT_ADDRESS, 0, 0, 0);
    var n := |input|;
    var offset := 3;
    var destination, source, consumed;
    status, destination, consumed := FromBytes(input[offset..n - 1]);
    if status != Ok {
      return status, layout;
    }
    EncodeInvertsParse(input[offset..n - 1]);
    offset := offset + consumed;
    status, source, consumed := FromBytes(input[offset..n - 1]);
    if status != Ok {
      return status, layout;
    }
    EncodeInvertsParse(input[offset..n - 1]);
    offset := offset + consumed;
    if offset >= n - 3 {
      return InvalidFrameLength, layout;
    }
    if !LegalControl(input[offset]) {
      return InvalidControlField, layout;
    }
    return Ok, Layout(destination, source, input[offset], offset + 1, n - 3 - (offset + 1));
  }

  method ChecksumMatches(input: Octets, from: nat, to: nat) returns (same: bool)
    requires from <= to && to + 2 <= |input|
    ensures same == (CrcOctets(input[from..to]) == input[to..to + 2])
  {
    hide Crc, LowByte, HighByte;
    var crc := CalculateHdlcCrc(input[from..to]);
    OctetsOfCrc(input[from..to]);
    same := LowByte(crc) == input[to] && HighByte(crc) == input[to + 1];
    assert input[to..to + 2] == [input[to], input[to + 1]];
  }

  /** The status of decoding into a buffer with room for `room` information octets. */
  function DecodeStatus(input: Octets, limits: CodecLimits, room: nat): HdlcStatus {
    match DecodeFrame(input, limits)
    case Good(f) => if room < |f.information| then OutputBufferTooSmall else Ok
    case Bad(s) =>
      if s == InformationFieldTooLarge && ParseLayout(input).value.before > room + 2 then OutputBufferTooSmall else s
  }

  /** Reads one complete frame and copies its information field into the caller's buffer. */
  method DecodeFrameFromBuffer(input: Octets, limits: CodecLimits, buffer: array<byte>)
    returns (status: HdlcStatus, frame: HdlcFrame, informationSize: nat)
    modifies buffer
    ensures status == DecodeStatus(input, limits, buffer.Length)
    ensures status == Ok ==>
      && DecodeFrame(input, limits) == Good(frame)
      && informationSize == |frame.information|
      && buffer[..] == Overlay(old(buffer[..]), 0, frame.information)
    ensures status != Ok ==> informationSize == 0 && buffer[..] == old(buffer[..])
  {
    hide CrcOctets, ParseLayout;
    frame := HdlcFrame(false, DEFAULT_ADDRESS, DEFAULT_ADDRESS, 0, []);
    if |input| < 4 {
      return NeedMoreData, frame, 0;
    }
    if input[0] != HDLC_FLAG {
      return InvalidFlag, frame, 0;
    }
    if !IsFormatType3(input[1]) {
      return InvalidFrameFormat, frame, 0;
    }
    var formatFieldLength := FormatLength(input[1], input[2]);
    var fullFrameSize := formatFieldLength + 2;
    if formatFieldLength < 6 {
      return InvalidFrameLength, frame, 0;
    }
    if fullFrameSize > EffectiveMaximumFrameSize(limits) {
      return FrameTooLarge, frame, 0;
    }
    if |input| < fullFrameSize {
      return NeedMoreData, frame, 0;
    }
    if |input| != fullFrameSize {
      return InvalidFrameLength, frame, 0;
    }
    if input[fullFrameSize - 1] != HDLC_FLAG {
      return InvalidFlag, frame, 0;
    }
    status, frame, informationSize := DecodeCompleteFromBuffer(input, limits, buffer);
  }

  method DecodeCompleteFromBuffer(input: Octets, limits: CodecLimits, buffer: array<byte>)
    returns (status: HdlcStatus, frame: HdlcFrame, informationSize: nat)
    requires |input| >= 8
    modifies buffer
    ensures status == match DecodeComplete(input, limits)
      case Good(f) => if buffer.Length < |f.information| then OutputBufferTooSmall else Ok
      case Bad(s) =>
        if s == InformationFieldTooLarge && ParseLayout(input).value.before > buffer.Length + 2
        then OutputBufferTooSmall else s
    ensures status == Ok ==>
      && DecodeComplete(input, limits) == Good(frame)
      && informationSize == |frame.information|
      && buffer[..] == Overlay(old(buffer[..]), 0, frame.information)
    ensures status != Ok ==> informationSize == 0 && buffer[..] == old(buffer[..])
  {
    hide CrcOctets, ParseLayout, SegmentationBit, EffectiveMaximumInformationFieldSize, Overlay, LegalAddress;
    frame := HdlcFrame(false, DEFAULT_ADDRESS, DEFAULT_ADDRESS, 0, []);
    var n := |input|;
    var l, same;
    status, l := ReadLayout(input);
    if status != Ok {
      return status, frame, 0;
    }
    if l.before == 1 {
      return InvalidFrameLength, frame, 0;
    }
    if l.before != 0 {
      same := ChecksumMatches(input, 1, l.headerEnd);
      if !same {
        return InvalidHeaderChecksum, frame, 0;
      }
    }
    same := ChecksumMatches(input, 1, n - 3);
    if !same {
      return InvalidFrameChecksum, frame, 0;
    }
    var information := if l.before == 0 then [] else input[l.headerEnd + 2..n - 3];
    if |information| > buffer.Length {
      return OutputBufferTooSmall, frame, 0;
    }
    if |information| > EffectiveMaximumInformationFieldSize(l.destination, l.source, limits) {
      return InformationFieldTooLarge, frame, 0;
    }
    CopyInto(information, buffer, 0);
    return Ok, HdlcFrame(SegmentationBit(input[1]), l.destination, l.source, l.control, information), |information|;
  }

  lemma RoomEnough(input: Octets, limits: CodecLimits)
    ensures DecodeStatus(input, limits, EffectiveMaximumFrameSize(limits)) ==
      match DecodeFrame(input, limits) case Good(_) => Ok case Bad(s) => s
  {
    hide CrcOctets, ParseLayout, FormatLength, IsFormatType3, SegmentationBit;
  }

  /** Decodes into a buffer as large as the largest frame, so room is never the problem. */
  method DecodeFrameToVector(input: Octets, limits: CodecLimits) returns (status: HdlcStatus, frame: HdlcFrame)
    ensures match DecodeFrame(input, limits)
            case Good(f) => status == Ok && frame == f
            case Bad(s) => status == s
  {
    hide DecodeFrame, DecodeStatus;
    var information := new byte[EffectiveMaximumFrameSize(limits)](_ => 0);
    var informationSize;
    status, frame, informationSize := DecodeFrameFromBuffer(input, limits, information);
    RoomEnough(input, limits);
  }

  /** Encodes into a buffer as large as the largest frame and keeps what was written. */
  method EncodeFrameToVector(f: HdlcFrame, limits: CodecLimits) returns (status: HdlcStatus, output: Octets)
    ensures match EncodeFrame(f, limits)
            case Good(x) => status == Ok && output == x
            case Bad(s) => status == s && output == []
  {
    hide FrameOctets;
    var buffer := new byte[EffectiveMaximumFrameSize(limits)](_ => 0);
    var written;
    status, written := EncodeFrameToBuffer(f, limits, buffer);
    output := if status == Ok then buffer[..written] else [];
  }
}
