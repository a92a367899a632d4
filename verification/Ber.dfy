/**
 BER tag-length-value elements with short tags (section 8.1 of ITU-T X.690).
 */
module Ber {
  import opened Bytes
  import opened Numbers
  import opened Apdu
  import opened Axdr

  datatype Tlv = Tlv(tag: byte, value: Octets)

  /** Tags whose low five bits are all set continue in further octets, which is not supported. */
  predicate LongTag(tag: byte) {
    tag % 32 == 31
  }

  /** Definite lengths only; the long form must not be used below 128. */
  function ReadBerLength(s: Octets): Read<nat> {
    if s == [] then No(NeedMoreData)
    else if s[0] == 0x80 then No(UnsupportedFeature)
    else ReadLength(s)
  }

  function ReadTlv(s: Octets): Read<Tlv> {
    if s == [] then No(NeedMoreData)
    else if LongTag(s[0]) then No(UnsupportedFeature)
    else
      match ReadBerLength(s[1..])
      case No(e) => No(e)
      case Got(n, r) =>
        match ReadBytes(r, n)
        case No(e) => No(e)
        case Got(x, rest) => Got(Tlv(s[0], x), rest)
  }

  /** BER and A-XDR write lengths alike. */
  function TlvOctets(tag: byte, value: Octets): Octets {
    [tag] + (LengthOctets(|value|) + value)
  }

  function EmitTlv(tag: byte, value: Octets): Emission {
    if LongTag(tag) then Emission([], UnsupportedFeature) else Plain(TlvOctets(tag, value))
  }

  lemma BerLengthRoundTrip(n: nat, tail: Octets)
    requires n < SIZE_RANGE
    ensures ReadBerLength(LengthOctets(n) + tail) == Got(n, tail)
  {
    hide ReadLength, Digits;
    LengthRoundTrip(n, tail);
    if n >= 0x80 {
      SizeDigits(n);
      assert (LengthOctets(n) + tail)[0] == (0x80 + |Digits(n)|) % 256;
    }
  }

  lemma TlvRoundTrip(tag: byte, value: Octets, tail: Octets)
    requires !LongTag(tag) && |value| < SIZE_RANGE
    ensures ReadTlv(TlvOctets(tag, value) + tail) == Got(Tlv(tag, value), tail)
  {
    hide ReadBerLength, LengthOctets;
    var n := LengthOctets(|value|);
    var x := TlvOctets(tag, value) + tail;
    assert x[1..] == n + (value + tail);
    BerLengthRoundTrip(|value|, value + tail);
    ReadBytesFront(value, tail);
  }

  lemma TlvStays(s: Octets, more: Octets)
    ensures StaysRead(ReadTlv(s), ReadTlv(s + more), more)
  {
    hide ReadLength, ReadBytes;
    if s != [] && !LongTag(s[0]) {
      var r := s[1..];
      assert (s + more)[1..] == r + more;
      LengthStays(r, more);
      if r != [] {
        assert (r + more)[0] == r[0];
      }
      if ReadBerLength(r).Got? {
        ReadsStay(ReadBerLength(r).rest, ReadBerLength(r).value, more);
      }
    }
  }

  lemma TlvConsumes(s: Octets)
    ensures ReadTlv(s).Got? ==> |ReadTlv(s).rest| < |s| && |ReadTlv(s).value.value| < |s|
  {
    hide ReadLength;
    if s != [] {
      LengthConsumes(s[1..]);
    }
  }

  /** What an element took from the input is, on its own, just that element. */
  lemma LengthFront(s: Octets)
    requires ReadBerLength(s).Got?
    ensures var rest := ReadBerLength(s).rest;
      |rest| < |s| && ReadBerLength(s[..|s| - |rest|]) == Got(ReadBerLength(s).value, [])
      && s == s[..|s| - |rest|] + rest
  {
    hide FromBig;
    var rest := ReadBerLength(s).rest;
    var x := s[..|s| - |rest|];
    if s[0] < 0x80 {
      assert x == [s[0]];
    } else {
      var k: nat := s[0] as int - 0x80;
      assert |rest| == |s| - 1 - k;
      assert x[1..][..k] == s[1..][..k];
      assert x[1..][k..] == [];
    }
  }

  lemma TlvFront(s: Octets)
    requires ReadTlv(s).Got?
    ensures var rest := ReadTlv(s).rest;
      |rest| <= |s| && ReadTlv(s[..|s| - |rest|]) == Got(ReadTlv(s).value, [])
  {
    TlvConsumes(s);
    LengthFront(s[1..]);
    hide ReadBerLength;
    var rest := ReadTlv(s).rest;
    var n, r := ReadBerLength(s[1..]).value, ReadBerLength(s[1..]).rest;
    var header := s[1..][..|s| - 1 - |r|];
    var x := s[..|s| - |rest|];
    var value := r[..n];
    assert rest == r[n..];
    assert x[0] == s[0] && x[1..] == header + value;
    BerLengthStays(header, value);
    assert [] + value == value && value + [] == value;
    ReadBytesFront(value, []);
    hide ReadBytes;
  }

  lemma BerLengthStays(s: Octets, more: Octets)
    ensures StaysRead(ReadBerLength(s), ReadBerLength(s + more), more)
  {
    hide ReadLength;
    LengthStays(s, more);
    if s != [] {
      assert (s + more)[0] == s[0];
    }
  }
}
