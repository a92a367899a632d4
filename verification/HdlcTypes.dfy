/**
 Status codes, limits, addresses, control fields and frames of the HDLC link.
 */
module HdlcTypes {
  import opened Bytes

  datatype HdlcStatus =
    | Ok
    | NeedMoreData
    | OutputBufferTooSmall
    | InvalidArgument
    | InvalidFlag
    | InvalidFrameFormat
    | InvalidFrameType
    | InvalidFrameLength
    | InvalidAddress
    | InvalidControlField
    | InvalidHeaderChecksum
    | InvalidFrameChecksum
    | FrameTooLarge
    | InformationFieldTooLarge
    | SegmentationError
    | SegmentationIncomplete
    | SegmentationOverflow
    | UnsupportedFrame
    | UnsupportedAddress
    | UnsupportedFeature
    | InternalError

  type Failure = s: HdlcStatus | s != Ok witness NeedMoreData

  /** A value, or the status that explains why there is none. */
  datatype Result<+T> = Good(value: T) | Bad(status: Failure)

  /** Zero means "use the default" in each field. */
  datatype CodecLimits = CodecLimits(
    maximumFrameSize: nat,
    maximumInformationFieldSize: nat,
    maximumReassembledInformationSize: nat)

  const DEFAULT_LIMITS := CodecLimits(2049, 0, 65535)

  function EffectiveMaximumFrameSize(limits: CodecLimits): nat {
    if limits.maximumFrameSize == 0 then 2049 else limits.maximumFrameSize
  }

  // ---- Addresses ----

  datatype Address = Address(raw: nat, size: nat)

  predicate IsSupportedEncodedSize(size: nat) {
    size == 1 || size == 2 || size == 4
  }

  function AddressSpace(size: nat): nat {
    if size == 1 then 0x80 else if size == 2 then 0x4000 else 0x1000_0000
  }

  predicate LegalAddress(a: Address) {
    IsSupportedEncodedSize(a.size) && a.raw < AddressSpace(a.size)
  }

  /** Only the default constructor, FromBytes and FromRaw make addresses, so all are legal. */
  type HdlcAddress = a: Address | LegalAddress(a) witness Address(0, 1)

  /** What the default constructor makes. */
  const DEFAULT_ADDRESS: HdlcAddress := Address(0, 1)

  // ---- Control fields ----

  datatype FrameKind = Information | Supervisory | Unnumbered

  function KindOf(value: byte): FrameKind {
    if value % 2 == 0 then Information
    else if value % 4 == 1 then Supervisory
    else Unnumbered
  }

  /** The control byte with its poll/final bit (0x10) cleared. */
  function WithoutPollFinal(value: byte): byte {
    value - (value / 16 % 2) * 16
  }

  predicate IsSupportedUnnumbered(value: byte) {
    var v := WithoutPollFinal(value);
    v == 0x83 || v == 0x63 || v == 0x43 || v == 0x0f || v == 0x87 || v == 0x03
  }

  predicate LegalControl(value: byte) {
    KindOf(value) != Unnumbered || IsSupportedUnnumbered(value)
  }

  /** Only Decode makes control fields, so all are legal. */
  type HdlcControl = c: byte | LegalControl(c) witness 0

  datatype UnnumberedKind = Snrm | Ua | Disc | Dm | Frmr | Ui

  function UnnumberedKindOf(c: HdlcControl): UnnumberedKind
    requires KindOf(c) == Unnumbered
  {
    var v := WithoutPollFinal(c);
    if v == 0x83 then Snrm
    else if v == 0x63 then Ua
    else if v == 0x43 then Disc
    else if v == 0x0f then Dm
    else if v == 0x87 then Frmr
    else Ui
  }

  /** N(S) of an I-frame. */
  function SendSequenceOf(c: HdlcControl): nat {
    if KindOf(c) != Information then 0 else c / 2 % 8
  }

  /** N(R) of an I- or S-frame. */
  function ReceiveSequenceOf(c: HdlcControl): nat {
    if KindOf(c) == Unnumbered then 0 else c / 32
  }

  /** The poll/final bit. */
  predicate PollFinal(c: HdlcControl) {
    c / 16 % 2 == 1
  }

  // ---- Frames ----

  datatype HdlcFrame = HdlcFrame(
    segmented: bool,
    destination: HdlcAddress,
    source: HdlcAddress,
    control: HdlcControl,
    information: Octets)
}
