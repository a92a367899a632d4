/**
 The three-octet LLC header in front of every APDU on an HDLC link.
 */
module Llc {
  import opened Bytes

  datatype Direction = ClientToServer | ServerToClient

  datatype LlcStatus = Ok | NeedMoreData | UnsupportedControl | BroadcastForbidden | InvalidDsap | InvalidSsap

  /** DSAP E6, SSAP E6 or E7, control 00. */
  function HeaderOf(d: Direction): (r: Octets)
    ensures |r| == 3
  {
    [0xe6, if d == ClientToServer then 0xe6 else 0xe7, 0x00]
  }

  function EncodeLpdu(d: Direction, lsdu: Octets): (r: Octets)
    ensures |r| == 3 + |lsdu|
  {
    HeaderOf(d) + lsdu
  }

  /** The order in which a header is checked. */
  function ValidateHeader(dsap: byte, ssap: byte, control: byte): LlcStatus {
    if control != 0x00 then UnsupportedControl
    else if dsap == 0xff then BroadcastForbidden
    else if dsap != 0xe6 then InvalidDsap
    else if ssap != 0xe6 && ssap != 0xe7 then InvalidSsap
    else Ok
  }

  datatype Lpdu = Lpdu(status: LlcStatus, lsdu: Octets)

  function DecodeLpdu(input: Octets): Lpdu {
    if |input| < 3 then Lpdu(NeedMoreData, [])
    else
      var s := ValidateHeader(input[0], input[1], input[2]);
      if s == Ok then Lpdu(Ok, input[3..]) else Lpdu(s, [])
  }

  lemma LpduRoundTrip(d: Direction, lsdu: Octets)
    ensures DecodeLpdu(EncodeLpdu(d, lsdu)) == Lpdu(Ok, lsdu)
  {
    assert EncodeLpdu(d, lsdu)[3..] == lsdu;
  }

  /**
   The header in front of a payload, and exactly which headers are accepted; the first
   reason to refuse one is its control octet, then the broadcast address, then the rest.
   */
  lemma LpduExact(d: Direction, x: Octets)
    ensures EncodeLpdu(d, x) == [0xe6, match d case ClientToServer => 0xe6 case ServerToClient => 0xe7, 0x00] + x
    ensures DecodeLpdu(x).status == Ok <==> |x| >= 3 && x[0] == 0xe6 && (x[1] == 0xe6 || x[1] == 0xe7) && x[2] == 0x00
    ensures DecodeLpdu(x).lsdu == if DecodeLpdu(x).status == Ok then x[3..] else []
    ensures |x| >= 3 && x[2] != 0x00 ==> DecodeLpdu(x).status == UnsupportedControl
    ensures |x| >= 3 && x[2] == 0x00 && x[0] == 0xff ==> DecodeLpdu(x).status == BroadcastForbidden
  {
  }

  /** Writes header and payload into a buffer, the way the encoder does. */
  method EncodeLpduToBuffer(d: Direction, lsdu: Octets, output: array<byte>) returns (ok: bool, written: nat)
    modifies output
    ensures ok == (3 + |lsdu| <= output.Length)
    ensures written == 3 + |lsdu|
    ensures ok ==> output[..] == Overlay(old(output[..]), 0, EncodeLpdu(d, lsdu))
    ensures !ok ==> output[..] == old(output[..])
  {
    written := 3 + |lsdu|;
    if output.Length < written {
      return false, written;
    }
    ghost var before := output[..];
    CopyInto(HeaderOf(d), output, 0);
    CopyInto(lsdu, output, 3);
    OverlayTwice(before, 0, HeaderOf(d), lsdu);
    return true, written;
  }
}
