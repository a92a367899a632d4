/**
 A-XDR lengths, octet strings, booleans and flags.
 */
module Axdr {
  import opened Bytes
  import opened Numbers
  import opened Apdu

  // ---- Lengths ----

  /** The octets of a number without leading zeros. */
  function Digits(n: nat): Octets {
    if n == 0 then [] else Digits(n / 256) + [n % 256]
  }

  lemma {:induction false} DigitsValue(n: nat)
    ensures FromBig(Digits(n)) == n
  {
    if n > 0 {
      DigitsValue(n / 256);
      FromBigSnoc(Digits(n / 256), n % 256);
    }
  }

  lemma {:induction false} DigitsSize(n: nat, k: nat)
    requires n < Pow256(k)
    ensures |Digits(n)| <= k
  {
    if n > 0 && k > 0 {
      DigitsSize(n / 256, k - 1);
    }
  }

  lemma SizeDigits(n: nat)
    requires n < SIZE_RANGE
    ensures |Digits(n)| <= 8
    ensures n > 0 ==> 1 <= |Digits(n)|
  {
    assert Pow256(8) == SIZE_RANGE by {
      assert Pow256(4) == 0x1_0000_0000;
    }
    DigitsSize(n, 8);
  }

  /** One octet below 128; otherwise the number of octets with the high bit set, and the octets. */
  function LengthOctets(n: nat): Octets {
    if n < 0x80 then [n] else [(0x80 + |Digits(n)|) % 256] + Digits(n)
  }

  function ReadLength(s: Octets): Read<nat> {
    if s == [] then No(NeedMoreData)
    else if s[0] < 0x80 then Got(s[0] as int, s[1..])
    else
      var k: nat := s[0] as int - 0x80;
      if k == 0 || k > 8 then No(InvalidLength)
      else
        match ReadNumber(s[1..], k)
        case No(e) => No(e)
        case Got(v, rest) => if v < 0x80 then No(InvalidLength) else Got(v, rest)
  }

  lemma LengthRoundTrip(n: nat, tail: Octets)
    requires n < SIZE_RANGE
    ensures ReadLength(LengthOctets(n) + tail) == Got(n, tail)
  {
    hide Digits, FromBig;
    var x := LengthOctets(n) + tail;
    if n < 0x80 {
      assert x[1..] == tail;
    } else {
      SizeDigits(n);
      DigitsValue(n);
      var d := Digits(n);
      assert x[1..] == d + tail;
      assert (d + tail)[..|d|] == d && (d + tail)[|d|..] == tail;
    }
  }

  lemma {:induction false} DigitsLead(n: nat)
    requires n > 0
    ensures Digits(n) != [] && Digits(n)[0] != 0
  {
    if n >= 256 {
      DigitsLead(n / 256);
    } else {
      assert Digits(n / 256) == [];
    }
  }

  /**
   A length below 128 is one octet; any other is the number of its octets with the high
   bit set, and then those octets, highest first and without a leading zero.
   */
  lemma LengthOnTheLine(n: nat)
    requires n < SIZE_RANGE
    ensures var x := LengthOctets(n);
      if n < 128 then x == [n]
      else
        && 2 <= |x| <= 9 && x[0] as int == 128 + (|x| - 1) && x[1] != 0
        && FromBig(x[1..]) == n
  {
    hide Digits, FromBig;
    if n >= 128 {
      SizeDigits(n);
      DigitsValue(n);
      DigitsLead(n);
      assert LengthOctets(n)[1..] == Digits(n);
    }
  }

  /**
   Exactly which lengths are read: one octet below 128, or one to eight octets behind their
   number whose value is at least 128; leading zeros are let through.
   */
  lemma LengthExact(s: Octets, n: nat, rest: Octets)
    ensures ReadLength(s) == Got(n, rest) <==>
      || (s != [] && s[0] < 128 && n == s[0] as int && rest == s[1..])
      || (|s| >= 2 && 129 <= s[0] <= 136 && var k := s[0] as int - 128;
          |s| >= 1 + k && n == FromBig(s[1..1 + k]) >= 128 && rest == s[1 + k..])
  {
    hide FromBig;
    if s != [] && s[0] > 128 && |s| >= 1 + (s[0] as int - 128) {
      var k := s[0] as int - 128;
      assert s[1..][..k] == s[1..1 + k] && s[1..][k..] == s[1 + k..];
    }
  }

  lemma LengthStays(s: Octets, more: Octets)
    ensures StaysRead(ReadLength(s), ReadLength(s + more), more)
  {
    hide ReadNumber;
    if s != [] {
      assert (s + more)[1..] == s[1..] + more;
      if s[0] >= 0x80 {
        ReadsStay(s[1..], s[0] as int - 0x80, more);
      }
    }
  }

  lemma LengthConsumes(s: Octets)
    ensures ReadLength(s).Got? ==> |ReadLength(s).rest| < |s| && ReadLength(s).value < SIZE_RANGE
  {
    if ReadLength(s).Got? && s[0] >= 0x80 {
      var k: nat := s[0] as int - 0x80;
      FromBigBound(s[1..][..k]);
      assert Pow256(k) <= SIZE_RANGE by { PowersFit(k); }
    }
  }

  lemma PowersFit(k: nat)
    requires k <= 8
    ensures Pow256(k) <= SIZE_RANGE
  {
    assert Pow256(4) == 0x1_0000_0000;
    assert Pow256(8) == SIZE_RANGE;
  }

  // ---- Octet strings ----

  function StringOctets(x: Octets): Octets {
    LengthOctets(|x|) + x
  }

  function ReadString(s: Octets): Read<Octets> {
    match ReadLength(s)
    case No(e) => No(e)
    case Got(n, rest) => ReadBytes(rest, n)
  }

  lemma StringRoundTrip(x: Octets, tail: Octets)
    requires |x| < SIZE_RANGE
    ensures ReadString(StringOctets(x) + tail) == Got(x, tail)
  {
    hide LengthOctets, ReadLength;
    assert StringOctets(x) + tail == LengthOctets(|x|) + (x + tail);
    LengthRoundTrip(|x|, x + tail);
    ReadBytesFront(x, tail);
  }

  lemma StringStays(s: Octets, more: Octets)
    ensures StaysRead(ReadString(s), ReadString(s + more), more)
  {
    hide ReadLength, ReadBytes;
    LengthStays(s, more);
    if ReadLength(s).Got? {
      ReadsStay(ReadLength(s).rest, ReadLength(s).value, more);
    }
  }

  // ---- Flags ----

  function BooleanOctet(b: bool): byte {
    if b then 1 else 0
  }

  function ReadFlag(s: Octets): Read<bool> {
    if s == [] then No(NeedMoreData) else if s[0] > 1 then No(InvalidAxdr) else Got(s[0] != 0, s[1..])
  }

  lemma FlagRoundTrip(b: bool, tail: Octets)
    ensures ReadFlag([BooleanOctet(b)] + tail) == Got(b, tail)
  {
    assert ([BooleanOctet(b)] + tail)[1..] == tail;
  }
}
