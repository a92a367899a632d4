/**
 The octets on the line, written out: addresses, frames, and what a session sends in each
 state, independently of the functions that build them.
 */
module HdlcWire {
  import opened Bytes
  import opened HdlcTypes
  import opened HdlcAddressCodec
  import opened HdlcCrc
  import opened HdlcCodec
  import opened HdlcPolynomial
  import opened HdlcNegotiation
  import opened HdlcSession
  import opened HdlcLifecycle

  // ---- Addresses ----

  /** Seven bits an octet, most significant first; the low bit marks the last octet. */
  lemma AddressOnTheLine(a: HdlcAddress)
    ensures a.size == 1 ==> AddressOctets(a) == [2 * a.raw + 1]
    ensures a.size == 2 ==> AddressOctets(a) == [2 * (a.raw / 128), 2 * (a.raw % 128) + 1]
    ensures a.size == 4 ==>
      AddressOctets(a) ==
      [2 * (a.raw / 0x20_0000), 2 * (a.raw / 0x4000 % 128), 2 * (a.raw / 128 % 128), 2 * (a.raw % 128) + 1]
  {
    LegalSize(a);
    hide LegalAddress, AddressOctets, ShiftedBy;
    GroupsOf(a.raw);
    OctetAt(a, a.size - 1);
    OctetAt(a, 0);
    if a.size == 4 {
      OctetAt(a, 1);
      OctetAt(a, 2);
      assert a.raw / 0x20_0000 < 128;
    } else if a.size == 2 {
      assert a.raw / 128 < 128;
    }
  }

  lemma GroupsOf(raw: nat)
    ensures ShiftedBy(raw, 0) == raw && ShiftedBy(raw, 1) == raw / 128
    ensures ShiftedBy(raw, 2) == raw / 0x4000 && ShiftedBy(raw, 3) == raw / 0x20_0000
  {
    assert ShiftedBy(raw, 1) == ShiftedBy(raw, 0) / 128;
    assert ShiftedBy(raw, 2) == ShiftedBy(raw, 1) / 128;
    assert ShiftedBy(raw, 3) == ShiftedBy(raw, 2) / 128;
  }

  /** Two numbers of fourteen bits in one of 28. */
  lemma GroupsOfPair(logical: nat, physical: nat)
    requires logical <= 0x3fff && physical <= 0x3fff
    ensures var raw := logical * 0x4000 + physical;
      && raw / 0x20_0000 == logical / 128 && raw / 0x4000 % 128 == logical % 128
      && raw / 128 % 128 == physical / 128 && raw % 128 == physical % 128
  {
    var raw := logical * 0x4000 + physical;
    assert raw / 0x4000 == logical;
    assert raw / 0x20_0000 == raw / 0x4000 / 128;
    assert raw / 128 == 128 * logical + physical / 128;
    assert physical / 128 < 128;
  }

  /**
   A server address: the logical device alone, both devices in one octet each, or both
   in two octets each; numbers above 14 bits are refused.
   */
  lemma ServerOnTheLine(logical: nat, physical: nat)
    ensures MakeServerAddress(logical, physical).Good? <==> logical <= 0x3fff && physical <= 0x3fff
    ensures MakeServerAddress(logical, physical).Good? ==>
      AddressOctets(MakeServerAddress(logical, physical).value) ==
      if physical == 0 && logical <= 0x7f then [2 * logical + 1]
      else if logical <= 0x7f && physical <= 0x7f then [2 * logical, 2 * physical + 1]
      else [2 * (logical / 128), 2 * (logical % 128), 2 * (physical / 128), 2 * (physical % 128) + 1]
  {
    hide AddressOctets;
    if logical <= 0x3fff && physical <= 0x3fff {
      AddressOnTheLine(MakeServerAddress(logical, physical).value);
      GroupsOfPair(logical, physical);
      if logical <= 0x7f && physical <= 0x7f {
        DivideGroup(logical, physical);
      }
    }
  }

  /** A client address is one octet; numbers above seven bits are refused. */
  lemma ClientOnTheLine(client: byte)
    ensures MakeClientAddress(client).Good? <==> client <= 0x7f
    ensures MakeClientAddress(client).Good? ==> AddressOctets(MakeClientAddress(client).value) == [2 * client + 1]
  {
    hide AddressOctets;
    if client <= 0x7f {
      AddressOnTheLine(MakeClientAddress(client).value);
    }
  }

  // ---- Frames ----

  /**
   A frame between its flags: format type 3 with the segmentation bit and the length of
   what stands between the flags, both addresses, the control octet, the information, if
   there is any behind a check sequence of its own, and the check sequence of all of it.
   */
  lemma FrameOnTheLine(f: HdlcFrame)
    requires FormatFieldLength(f) <= 2047
    ensures var x, c := FrameOctets(f), 3 + f.destination.size + f.source.size;
      var n := |x|;
      && n == c + 4 + (if f.information == [] then 0 else 2 + |f.information|)
      && x[0] == 0x7e == x[n - 1]
      && x[1] == 0xa0 + (if f.segmented then 8 else 0) + (n - 2) / 256 && x[2] == (n - 2) % 256
      && x[3..3 + f.destination.size] == AddressOctets(f.destination)
      && x[3 + f.destination.size..c] == AddressOctets(f.source)
      && x[c] == f.control
      && (f.information != [] ==>
            && Transmitted(x[c + 1..c + 3]) == CheckSequence(x[1..c + 1])
            && x[c + 3..n - 3] == f.information)
      && Transmitted(x[n - 3..n - 1]) == CheckSequence(x[1..n - 3])
  {
    hide CrcOctets, AddressOctets, Transmitted, CheckSequence, LegalAddress, Header, Covered, FrameOctets;
    var x, c := FrameOctets(f), 3 + f.destination.size + f.source.size;
    var n := |x|;
    FrameParts(f);
    HeaderParts(f);
    var h := Header(f);
    assert x[1] == h[0] && x[2] == h[1] && x[c] == h[c - 1] by {
      assert x[1..c + 1][0] == x[1] && x[1..c + 1][1] == x[2] && x[1..c + 1][c - 1] == x[c];
    }
    SliceOfSlice(x, 1, c + 1, 2, 2 + f.destination.size);
    SliceOfSlice(x, 1, c + 1, 2 + f.destination.size, c - 1);
    CrcIsRemainder(Covered(f));
    CrcIsRemainder(h);
  }

  lemma HeaderParts(f: HdlcFrame)
    requires FormatFieldLength(f) <= 2047
    ensures var h, d := Header(f), f.destination.size;
      var l, c := FormatFieldLength(f), 3 + d + f.source.size;
      && |h| == c
      && h[0] == 0xa0 + (if f.segmented then 8 else 0) + l / 256 && h[1] == l % 256
      && h[2..2 + d] == AddressOctets(f.destination) && h[2 + d..c - 1] == AddressOctets(f.source)
      && h[c - 1] == f.control
  {
    hide AddressOctets, LegalAddress;
  }

  lemma FrameParts(f: HdlcFrame)
    requires FormatFieldLength(f) <= 2047
    ensures var x, c := FrameOctets(f), 3 + f.destination.size + f.source.size;
      var n := |x|;
      && n == FormatFieldLength(f) + 2 && n >= c + 4
      && x[0] == 0x7e == x[n - 1]
      && x[1..c + 1] == Header(f)
      && x[1..n - 3] == Covered(f) && x[n - 3..n - 1] == CrcOctets(Covered(f))
      && (f.information != [] ==>
            n == c + 6 + |f.information| && x[c + 1..c + 3] == CrcOctets(Header(f)) && x[c + 3..n - 3] == f.information)
  {
    hide CrcOctets, LegalAddress, Header;
    var x, c := FrameOctets(f), 3 + f.destination.size + f.source.size;
    var n := |x|;
    assert x[1..n - 3] == Covered(f);
    assert x[1..c + 1] == Covered(f)[..c];
    if f.information != [] {
      assert x[c + 1..c + 3] == Covered(f)[c..c + 2];
      assert x[c + 3..n - 3] == Covered(f)[c + 2..];
    }
  }

  /** How many octets a frame has on the line. */
  function LineSize(f: HdlcFrame): nat {
    7 + f.destination.size + f.source.size + (if f.information == [] then 0 else 2 + |f.information|)
  }

  /**
   A frame fits exactly when its information is within the limit for it, or within what the
   largest frame leaves, and all of it within eleven bits of length and the largest frame;
   zero stands for a largest frame of 2049 octets and for no limit of its own.
   */
  lemma FitsExact(f: HdlcFrame, limits: CodecLimits)
    ensures var largest := if limits.maximumFrameSize == 0 then 2049 else limits.maximumFrameSize;
      Encodable(f, limits) == Ok <==>
        && (limits.maximumInformationFieldSize != 0 ==> |f.information| <= limits.maximumInformationFieldSize)
        && (limits.maximumInformationFieldSize == 0 && f.information != [] ==>
              |f.information| + 9 + f.destination.size + f.source.size <= largest)
        && LineSize(f) <= 2049 && LineSize(f) <= largest
  {
    hide LegalAddress;
  }

  /** The control octets that exist: all I- and S-frames, and six unnumbered frames with either bit. */
  lemma ControlExact(c: byte)
    ensures LegalControl(c) <==>
      c % 4 != 3 || c in {0x83, 0x93, 0x63, 0x73, 0x43, 0x53, 0x0f, 0x1f, 0x87, 0x97, 0x03, 0x13}
  {
    hide WithoutPollFinal;
    WithAndWithoutBit(c, 0x83);
    WithAndWithoutBit(c, 0x63);
    WithAndWithoutBit(c, 0x43);
    WithAndWithoutBit(c, 0x0f);
    WithAndWithoutBit(c, 0x87);
    WithAndWithoutBit(c, 0x03);
  }

  // ---- What a session sends ----

  /** An unsegmented frame to the other end of the link. */
  function Outgoing(o: Options, control: HdlcControl, information: Octets): HdlcFrame {
    match o.role
    case Client => HdlcFrame(false, o.serverAddress, o.clientAddress, control, information)
    case Server => HdlcFrame(false, o.clientAddress, o.serverAddress, control, information)
  }

  lemma BuiltOnTheLine(o: Options, control: HdlcControl, information: Octets)
    ensures Built(o, control, information) == EncodeFrame(Outgoing(o, control, information), o.limits)
  {
    hide EncodeFrame;
  }

  /** Zero stands for the default: 128 octets, window 1. */
  function OrDefault(x: nat, default: nat): nat {
    if x == 0 then default else x
  }

  /** The parameter block: four tags in ascending order, lengths in two octets, windows in four. */
  function BlockOf(tx: nat, rx: nat, windowTx: nat, windowRx: nat): Octets {
    [0x81, 0x80, 20,
     5, 2, tx / 256 % 256, tx % 256, 6, 2, rx / 256 % 256, rx % 256,
     7, 4, 0, 0, 0, windowTx % 256, 8, 4, 0, 0, 0, windowRx % 256]
  }

  /** A client's limits in a block: 5 and 7 what it transmits, 6 and 8 what it receives. */
  function LimitsBlock(n: Limits): Octets {
    BlockOf(OrDefault(n.transmitLength, 128), OrDefault(n.receiveLength, 128),
      OrDefault(n.transmitWindow, 1), OrDefault(n.receiveWindow, 1))
  }

  lemma ProposedBlock(n: Limits)
    ensures Block(ProposedParams(Normalise(n))) == LimitsBlock(n)
  {
  }

  /** A client's SNRM. */
  lemma SnrmOnTheLine(o: Options, negotiate: bool, user: Octets)
    requires o.role == Client
    ensures var r := ConnectRequest(NewSession(o), negotiate, user);
      var f := Outgoing(o, SNRM_OCTET, (if negotiate then LimitsBlock(o.negotiation) else []) + user);
      if Encodable(f, o.limits) == Ok then r.status == Ok && r.output == FrameOctets(f)
      else r.status == Encodable(f, o.limits) && r.output == []
  {
    hide FrameOctets, Encodable, LegalAddress, Block, LimitsBlock, Normalise;
    ProposedBlock(o.negotiation);
  }

  function Least(a: nat, b: nat): nat {
    if a < b then a else b
  }

  /** What a server confirms: each proposal cut down to what it can do in that direction. */
  function ConfirmedBlock(p: Params, local: Limits): Octets {
    BlockOf(Least(p.maxInfoTx, local.receiveLength), Least(p.maxInfoRx, local.transmitLength),
      Least(p.windowTx, local.receiveWindow), Least(p.windowRx, local.transmitWindow))
  }

  lemma ConfirmedIs(p: Params, local: Limits)
    ensures Block(Negotiate(p, local)) == ConfirmedBlock(p, local)
  {
  }

  /** A server's UA, if it can be built. */
  lemma UaOnTheLine(s: Session)
    requires s.options.role == Server && s.connectResponsePending && ConnectResponse(s).status == Ok
    ensures var block := if s.proposal.NoProposal? then [] else ConfirmedBlock(s.proposal.params, s.options.negotiation);
      var f := Outgoing(s.options, UA_OCTET, block);
      FormatFieldLength(f) <= 2047 && ConnectResponse(s).output == FrameOctets(f)
  {
    hide FrameOctets, LegalAddress, Block, ConfirmedBlock, Negotiate;
    if s.proposal.Proposal? {
      ConfirmedIs(s.proposal.params, s.options.negotiation);
    }
  }

  /** An I-frame carries N(R), the poll/final bit and N(S), from the high bit down. */
  lemma InformationOnTheLine(s: Session, information: Octets, pollFinal: bool)
    requires s.state == Connected && CanSendInformation(s)
    ensures var r := InformationRequest(s, information, pollFinal);
      var c := 32 * s.receiveSequence + (if pollFinal then 16 else 0) + 2 * s.sendSequence;
      && LegalControl(c)
      && var f := Outgoing(s.options, c, information);
         if Encodable(f, s.options.limits) == Ok then r.status == Ok && r.output == FrameOctets(f)
         else r.status == Encodable(f, s.options.limits) && r.output == []
  {
    hide FrameOctets, Encodable, LegalAddress, CanSendInformation;
    assert 16 * (2 * s.receiveSequence + (if pollFinal then 1 else 0)) + 2 * s.sendSequence ==
      32 * s.receiveSequence + (if pollFinal then 16 else 0) + 2 * s.sendSequence;
  }

  /** A receive-ready frame carries N(R) and the bit, and no information. */
  lemma ReadyOnTheLine(s: Session, pollFinal: bool)
    requires s.state == Connected
    ensures var r := ReceiveReadyRequest(s, pollFinal);
      var c := 32 * s.receiveSequence + (if pollFinal then 17 else 1);
      && LegalControl(c)
      && var f := Outgoing(s.options, c, []);
         if Encodable(f, s.options.limits) == Ok then r.status == Ok && r.output == FrameOctets(f)
         else r.status == Encodable(f, s.options.limits) && r.output == []
  {
    hide FrameOctets, Encodable, LegalAddress, LegalControl, WithoutPollFinal, KindOf;
    assert ReceiveReadyControl(s.receiveSequence, pollFinal) == 32 * s.receiveSequence + (if pollFinal then 17 else 1);
  }
}
