/**
 HDLC address fields: one, two or four octets of seven bits each, the last one
 marked by its low bit.
 */
module HdlcAddressCodec {
  import opened Bytes
  import opened HdlcTypes

  datatype Parsed = Parsed(address: HdlcAddress, consumed: nat)

  /** Index of the first octet with its low bit set, or 4 when none of the first four has it. */
  function Terminator(data: Octets): (r: nat)
    ensures r <= 4
    ensures r < 4 ==> r < |data| && data[r] % 2 == 1
    ensures forall i :: 0 <= i < r && i < |data| ==> data[i] % 2 == 0
  {
    if |data| >= 1 && data[0] % 2 == 1 then 0
    else if |data| >= 2 && data[1] % 2 == 1 then 1
    else if |data| >= 3 && data[2] % 2 == 1 then 2
    else if |data| >= 4 && data[3] % 2 == 1 then 3
    else 4
  }

  /** The seven value bits of an octet. */
  function Septet(b: byte): nat {
    b / 2
  }

  /** The number whose seven-bit groups are `data`, most significant first. */
  function Groups(data: Octets): nat {
    if data == [] then 0 else 128 * Groups(data[..|data| - 1]) + Septet(data[|data| - 1])
  }

  lemma GroupsOne(data: Octets)
    requires |data| == 1
    ensures Groups(data) == Septet(data[0])
  {
    assert data[..0] == [];
  }

  lemma GroupsTwo(data: Octets)
    requires |data| == 2
    ensures Groups(data) == 128 * Septet(data[0]) + Septet(data[1])
  {
    GroupsOne(data[..1]);
  }

  lemma GroupsFour(data: Octets)
    requires |data| == 4
    ensures Groups(data) ==
      0x200000 * Septet(data[0]) + 0x4000 * Septet(data[1]) + 128 * Septet(data[2]) + Septet(data[3])
  {
    GroupsTwo(data[..3][..2]);
    assert data[..3][..2][0] == data[0] && data[..3][..2][1] == data[1];
  }

  lemma GroupsInSpace(data: Octets)
    requires IsSupportedEncodedSize(|data|)
    ensures Groups(data) < AddressSpace(|data|)
  {
    if |data| == 1 {
      GroupsOne(data);
    } else if |data| == 2 {
      GroupsTwo(data);
    } else {
      GroupsFour(data);
    }
  }

  function ParseAddress(data: Octets): Result<Parsed> {
    var t := Terminator(data);
    if t == 4 then
      Bad(if |data| < 4 then NeedMoreData else InvalidAddress)
    else if t == 2 then
      Bad(UnsupportedAddress)
    else
      GroupsInSpace(data[..t + 1]);
      Good(Parsed(Address(Groups(data[..t + 1]), t + 1), t + 1))
  }

  /** The loop that reads an address field. */
  method FromBytes(data: Octets) returns (status: HdlcStatus, address: HdlcAddress, consumed: nat)
    ensures match ParseAddress(data)
            case Good(p) => status == Ok && address == p.address && consumed == p.consumed
            case Bad(s) => status == s && consumed == 0
  {
    address := Address(0, 1);
    var raw: nat := 0;
    var index := 0;
    while index < |data| && index < 4
      invariant index <= 4 && index <= |data|
      invariant raw == Groups(data[..index])
      invariant forall i :: 0 <= i < index ==> data[i] % 2 == 0
    {
      assert data[..index + 1][..index] == data[..index];
      raw := raw * 128 + Septet(data[index]);
      consumed := index + 1;
      if data[index] % 2 == 1 {
        assert Terminator(data) == index;
        if !IsSupportedEncodedSize(consumed) {
          return UnsupportedAddress, address, 0;
        }
        GroupsInSpace(data[..index + 1]);
        return Ok, Address(raw, consumed), consumed;
      }
      index := index + 1;
    }
    assert Terminator(data) == 4;
    return if |data| < 4 then NeedMoreData else InvalidAddress, address, 0;
  }

  /** `raw` shifted right by seven bits for each group. */
  function ShiftedBy(raw: nat, groups: nat): nat {
    if groups == 0 then raw else ShiftedBy(raw, groups - 1) / 128
  }

  /** The octet that carries one seven-bit group. */
  function GroupOctet(raw: nat, groups: nat): byte {
    2 * (ShiftedBy(raw, groups) % 128) + (if groups == 0 then 1 else 0)
  }

  function AddressOctets(a: HdlcAddress): (r: Octets)
    ensures |r| == a.size
  {
    seq(a.size, i requires 0 <= i < a.size => GroupOctet(a.raw, a.size - 1 - i))
  }

  lemma OctetAt(a: HdlcAddress, index: nat)
    requires index < a.size
    ensures AddressOctets(a)[index] ==
      2 * (ShiftedBy(a.raw, a.size - index - 1) % 128) + (if index + 1 == a.size then 1 else 0)
  {
    assert AddressOctets(a)[index] == GroupOctet(a.raw, a.size - 1 - index);
  }

  /** Writes an address field at `offset` and leaves the rest of the buffer alone. */
  method EncodeAddress(a: HdlcAddress, output: array<byte>, offset: nat)
    returns (status: HdlcStatus, written: nat)
    requires offset <= output.Length
    modifies output
    ensures status == (if output.Length - offset < a.size then OutputBufferTooSmall else Ok)
    ensures status != Ok ==> written == 0 && output[..] == old(output[..])
    ensures status == Ok ==> written == a.size
    ensures status == Ok ==>
      output[..] == Overlay(old(output[..]), offset, AddressOctets(a))
  {
    if output.Length - offset < a.size {
      return OutputBufferTooSmall, 0;
    }
    hide ShiftedBy, LegalAddress, AddressOctets;
    for index := 0 to a.size
      invariant output[..] == Overlay(old(output[..]), offset, AddressOctets(a)[..index])
    {
      var shift := a.size - index - 1;
      var value := 2 * (ShiftedBy(a.raw, shift) % 128);
      if index + 1 == a.size {
        value := value + 1;
      }
      OctetAt(a, index);
      Put(output, offset + index, value, old(output[..]), offset, AddressOctets(a)[..index]);
      assert AddressOctets(a)[..index] + [value] == AddressOctets(a)[..index + 1];
    }
    assert AddressOctets(a)[..a.size] == AddressOctets(a);
    return Ok, a.size;
  }

  // ---- Both directions ----

  lemma {:induction false} ShiftedStep(raw: nat, groups: nat)
    ensures ShiftedBy(raw, groups) == 128 * ShiftedBy(raw, groups + 1) + ShiftedBy(raw, groups) % 128
  {
  }

  lemma {:induction false} ShiftedZero(raw: nat, size: nat)
    requires IsSupportedEncodedSize(size) && raw < AddressSpace(size)
    ensures ShiftedBy(raw, size) == 0
  {
    ShiftedStep(raw, 0);
    ShiftedStep(raw, 1);
    ShiftedStep(raw, 2);
    ShiftedStep(raw, 3);
    assert ShiftedBy(raw, 0) == raw;
  }

  /** The first groups of an encoding are the number without its last groups. */
  lemma {:induction false} GroupsOfPrefix(a: HdlcAddress, k: nat)
    requires k <= a.size
    ensures Groups(AddressOctets(a)[..k]) == ShiftedBy(a.raw, a.size - k)
  {
    hide ShiftedBy, LegalAddress;
    if k == 0 {
      LegalSize(a);
      ShiftedZero(a.raw, a.size);
    } else {
      GroupsOfPrefix(a, k - 1);
      ShiftedStep(a.raw, a.size - k);
      var data := AddressOctets(a)[..k];
      assert data[..k - 1] == AddressOctets(a)[..k - 1];
      assert data[k - 1] == GroupOctet(a.raw, a.size - k);
    }
  }

  lemma LegalSize(a: HdlcAddress)
    ensures IsSupportedEncodedSize(a.size) && a.raw < AddressSpace(a.size)
  {
  }

  lemma GroupsOfEncoding(a: HdlcAddress)
    ensures Groups(AddressOctets(a)) == a.raw
  {
    GroupsOfPrefix(a, a.size);
    assert AddressOctets(a)[..a.size] == AddressOctets(a);
  }

  lemma ParseInvertsEncode(a: HdlcAddress, rest: Octets)
    ensures ParseAddress(AddressOctets(a) + rest) == Good(Parsed(a, a.size))
  {
    hide Groups, ShiftedBy;
    var data := AddressOctets(a) + rest;
    assert forall i :: 0 <= i < a.size ==> data[i] == GroupOctet(a.raw, a.size - 1 - i);
    assert forall i :: 0 <= i < a.size ==> data[i] % 2 == (if i == a.size - 1 then 1 else 0);
    assert Terminator(data) == a.size - 1;
    assert data[..a.size] == AddressOctets(a);
    GroupsOfEncoding(a);
  }

  lemma DivideGroup(q: nat, s: nat)
    requires s < 128
    ensures (128 * q + s) / 128 == q && (128 * q + s) % 128 == s
  {
  }

  /** Shifting a number built from groups drops its last groups. */
  lemma {:induction false} ShiftedGroups(field: Octets, k: nat)
    requires k <= |field|
    ensures ShiftedBy(Groups(field), k) == Groups(field[..|field| - k])
  {
    if k == 0 {
      assert field[..|field|] == field;
    } else {
      ShiftedGroups(field, k - 1);
      var f := field[..|field| - k + 1];
      assert f[..|f| - 1] == field[..|field| - k];
      DivideGroup(Groups(f[..|f| - 1]), Septet(f[|f| - 1]));
    }
  }

  lemma EncodeInvertsParse(data: Octets)
    requires ParseAddress(data).Good?
    ensures var p := ParseAddress(data).value;
      p.consumed == p.address.size <= |data| && AddressOctets(p.address) == data[..p.consumed]
  {
    hide Groups, ShiftedBy;
    var t := Terminator(data);
    var field := data[..t + 1];
    forall i | 0 <= i <= t
      ensures GroupOctet(Groups(field), t - i) == field[i]
    {
      ShiftedGroups(field, t - i);
      LastGroup(field[..i + 1]);
    }
  }

  lemma LastGroup(field: Octets)
    requires field != []
    ensures Groups(field) % 128 == Septet(field[|field| - 1])
  {
    DivideGroup(Groups(field[..|field| - 1]), Septet(field[|field| - 1]));
  }

  /** An address field that parses is not affected by what follows it. */
  lemma ParseStable(data: Octets, more: Octets)
    requires ParseAddress(data).Good?
    ensures ParseAddress(data + more) == ParseAddress(data)
  {
    var t := Terminator(data);
    assert Terminator(data + more) == t;
    assert (data + more)[..t + 1] == data[..t + 1];
  }

  // ---- Constructors ----

  function FromRaw(raw: nat, size: nat): Result<HdlcAddress> {
    if !IsSupportedEncodedSize(size) then Bad(UnsupportedAddress)
    else if raw >= AddressSpace(size) then Bad(InvalidAddress)
    else Good(Address(raw, size))
  }

  function MakeClientAddress(client: byte): Result<HdlcAddress> {
    if client > 0x7f then Bad(InvalidAddress) else FromRaw(client, 1)
  }

  function MakeServerAddress(logical: nat, physical: nat): Result<HdlcAddress> {
    if logical > 0x3fff || physical > 0x3fff then Bad(InvalidAddress)
    else if physical == 0 && logical <= 0x7f then FromRaw(logical, 1)
    else if logical <= 0x7f && physical <= 0x7f then FromRaw(logical * 0x80 + physical, 2)
    else FromRaw(logical * 0x4000 + physical, 4)
  }

  /** Distinct device address pairs never share a server address. */
  lemma ServerAddressInjective(l1: nat, p1: nat, l2: nat, p2: nat)
    requires MakeServerAddress(l1, p1).Good?
    requires MakeServerAddress(l1, p1) == MakeServerAddress(l2, p2)
    ensures l1 == l2 && p1 == p2
  {
  }
}
