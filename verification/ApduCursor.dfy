/**
 The cursors every APDU codec moves: a reader over an input and a writer over a buffer
 of fixed size, with the A-XDR routines on top of them.
 */
module ApduCursor {
  import opened Bytes
  import opened Numbers
  import opened Apdu
  import opened Axdr

  class ApduReader {
    const data: Octets
    var position: nat

    ghost predicate Valid()
      reads this
    {
      position <= |data|
    }

    /** What has not been read yet. */
    ghost function Rest(): Octets
      requires Valid()
      reads this
    {
      data[position..]
    }

    constructor (data: Octets)
      ensures Valid() && Rest() == data
    {
      this.data := data;
      position := 0;
    }

    method Remaining() returns (n: nat)
      requires Valid()
      ensures n == |Rest()|
    {
      n := |data| - position;
    }

    method Next() returns (status: ApduStatus, value: byte)
      requires Valid()
      modifies this`position
      ensures Valid()
      ensures match ReadU8(old(Rest()))
              case Got(v, rest) => status == Ok && value == v && Rest() == rest
              case No(e) => status == e && position == old(position)
    {
      if |data| - position < 1 {
        return NeedMoreData, 0;
      }
      value := data[position];
      position := position + 1;
      return Ok, value;
    }

    method Take(size: nat) returns (status: ApduStatus, value: Octets)
      requires Valid()
      modifies this`position
      ensures Valid()
      ensures match ReadBytes(old(Rest()), size)
              case Got(v, rest) => status == Ok && value == v && Rest() == rest
              case No(e) => status == e && position == old(position)
    {
      if |data| - position < size {
        return NeedMoreData, [];
      }
      value := data[position..position + size];
      position := position + size;
      return Ok, value;
    }
  }

  /** Reads a number octet by octet. */
  method ReadUnsigned(reader: ApduReader, size: nat) returns (status: ApduStatus, value: nat)
    requires reader.Valid()
    modifies reader`position
    ensures reader.Valid()
    ensures match ReadNumber(old(reader.Rest()), size)
            case Got(v, rest) => status == Ok && value == v && reader.Rest() == rest
            case No(e) => status == e
  {
    ghost var s := reader.Rest();
    value := 0;
    for i := 0 to size
      invariant reader.Valid() && i <= |s| && reader.Rest() == s[i..]
      invariant value == FromBig(s[..i])
    {
      var b;
      status, b := reader.Next();
      if status != Ok {
        return status, value;
      }
      assert s[..i + 1] == s[..i] + [b];
      FromBigSnoc(s[..i], b);
      value := 256 * value + b as int;
    }
    return Ok, value;
  }

  /** Reads octets one by one. */
  method ReadEach(reader: ApduReader, size: nat) returns (status: ApduStatus, value: Octets)
    requires reader.Valid()
    modifies reader`position
    ensures reader.Valid()
    ensures match ReadBytes(old(reader.Rest()), size)
            case Got(v, rest) => status == Ok && value == v && reader.Rest() == rest
            case No(e) => status == e
  {
    ghost var s := reader.Rest();
    value := [];
    for i := 0 to size
      invariant reader.Valid() && i <= |s| && reader.Rest() == s[i..] && value == s[..i]
    {
      var b;
      status, b := reader.Next();
      if status != Ok {
        return status, value;
      }
      value := value + [b];
    }
    return Ok, value;
  }

  method ReadAxdrLength(reader: ApduReader) returns (status: ApduStatus, length: nat)
    requires reader.Valid()
    modifies reader`position
    ensures reader.Valid()
    ensures match ReadLength(old(reader.Rest()))
            case Got(v, rest) => status == Ok && length == v && reader.Rest() == rest
            case No(e) => status == e
  {
    var first;
    status, first := reader.Next();
    if status != Ok {
      return status, 0;
    }
    if first < 0x80 {
      return Ok, first as int;
    }
    var lengthOctets := first as int - 0x80;
    if lengthOctets == 0 || lengthOctets > 8 {
      return InvalidLength, 0;
    }
    status, length := ReadUnsigned(reader, lengthOctets);
    if status == Ok && length < 0x80 {
      return InvalidLength, 0;
    }
  }

  method ReadAxdrOctetString(reader: ApduReader) returns (status: ApduStatus, value: Octets)
    requires reader.Valid()
    modifies reader`position
    ensures reader.Valid()
    ensures match ReadString(old(reader.Rest()))
            case Got(v, rest) => status == Ok && value == v && reader.Rest() == rest
            case No(e) => status == e
  {
    hide ReadLength;
    var length;
    status, length := ReadAxdrLength(reader);
    if status != Ok {
      return status, [];
    }
    status, value := reader.Take(length);
  }

  method ReadAxdrOptionalFlag(reader: ApduReader) returns (status: ApduStatus, present: bool)
    requires reader.Valid()
    modifies reader`position
    ensures reader.Valid()
    ensures match ReadFlag(old(reader.Rest()))
            case Got(v, rest) => status == Ok && present == v && reader.Rest() == rest
            case No(e) => status == e
  {
    var raw;
    status, raw := reader.Next();
    if status != Ok {
      return status, false;
    }
    if raw > 1 {
      return InvalidAxdr, false;
    }
    return Ok, raw != 0;
  }

  // ---- Writing ----

  class ApduWriter {
    const data: array<byte>
    var position: nat

    ghost predicate Valid()
      reads this
    {
      position <= data.Length
    }

    ghost function Written(): Octets
      requires Valid()
      reads this, data
    {
      data[..position]
    }

    function Room(): nat
      requires Valid()
      reads this
    {
      data.Length - position
    }

    /** The writer took as much of an emission as it had room for, and kept what it held. */
    twostate predicate Took(e: Emission, status: ApduStatus)
      requires old(Valid())
      reads this, data
    {
      && Valid()
      && status == StatusIn(e, old(Room()))
      && old(position) <= position
      && data[..old(position)] == old(Written())
      && (status == Ok ==> Written() == old(Written()) + e.octets)
    }

    constructor (data: array<byte>)
      ensures this.data == data && Valid() && Written() == [] && Room() == data.Length
    {
      this.data := data;
      position := 0;
    }

    method Put(value: byte) returns (status: ApduStatus)
      requires Valid()
      modifies this`position, data
      ensures Took(Plain([value]), status)
    {
      if data.Length - position < 1 {
        return OutputBufferTooSmall;
      }
      data[position] := value;
      position := position + 1;
      return Ok;
    }

    method PutBytes(value: Octets) returns (status: ApduStatus)
      requires Valid()
      modifies this`position, data
      ensures Took(Plain(value), status)
    {
      if data.Length - position < |value| {
        return OutputBufferTooSmall;
      }
      CopyInto(value, data, position);
      position := position + |value|;
      return Ok;
    }
  }

  lemma {:induction false} BigEndianAt(v: nat, n: nat, i: nat)
    requires i < n
    ensures BigEndian(v, n)[i] as int == v / Pow256(n - 1 - i) % 256
  {
    if i < n - 1 {
      BigEndianAt(v / 256, n - 1, i);
      DivideTwice(v, Pow256(n - 2 - i));
    } else {
      assert Pow256(0) == 1;
    }
  }

  lemma DivideTwice(v: nat, p: nat)
    requires p > 0
    ensures v / 256 / p == v / (256 * p)
  {
    var q := v / 256;
    var a, b := q / p, q % p;
    assert v == 256 * (p * a + b) + v % 256;
    assert 256 * (p * a) == (256 * p) * a;
    var r := 256 * b + v % 256;
    assert v == (256 * p) * a + r && 0 <= r < 256 * p;
    UniqueRemainder(v, 256 * p, a, r);
    SameQuotient(v, 256 * p, a, r);
  }

  lemma SameQuotient(v: nat, m: nat, a: nat, r: nat)
    requires m > 0 && v == m * a + r && v % m == r
    ensures v / m == a
  {
    assert m * (v / m - a) == 0;
    MultipleOf(m, v / m - a);
  }

  /** Writes the low octets of a number, most significant first. */
  method WriteUnsigned(writer: ApduWriter, value: nat, size: nat) returns (status: ApduStatus)
    requires writer.Valid()
    modifies writer`position, writer.data
    ensures writer.Took(Plain(BigEndian(value, size)), status)
  {
    ghost var x := BigEndian(value, size);
    hide BigEndian;
    for i := 0 to size
      invariant writer.Valid() && writer.position == old(writer.position) + i
      invariant writer.data[..old(writer.position)] == old(writer.Written())
      invariant writer.Written() == old(writer.Written()) + x[..i]
    {
      BigEndianAt(value, size, i);
      var b: byte := value / Pow256(size - 1 - i) % 256;
      status := writer.Put(b);
      if status != Ok {
        return status;
      }
      assert x[..i] + [b] == x[..i + 1];
    }
    assert x[..size] == x;
    return Ok;
  }

  /** How many octets a length takes. */
  method LengthSize(length: nat) returns (size: nat)
    ensures size == |LengthOctets(length)|
  {
    if length < 0x80 {
      return 1;
    }
    var encodedSize := 0;
    var remaining := length;
    while remaining != 0
      invariant encodedSize + |Digits(remaining)| == |Digits(length)|
    {
      remaining := remaining / 256;
      encodedSize := encodedSize + 1;
    }
    return 1 + encodedSize;
  }

  /** The octets of a length, peeled off from the end. */
  method LengthDigits(length: nat) returns (encoded: Octets)
    ensures encoded == Digits(length)
  {
    encoded := [];
    var remaining := length;
    while remaining != 0
      invariant Digits(remaining) + encoded == Digits(length)
    {
      assert (Digits(remaining / 256) + [remaining % 256]) + encoded == Digits(remaining / 256) + ([remaining % 256] + encoded);
      encoded := [remaining % 256] + encoded;
      remaining := remaining / 256;
    }
    assert [] + encoded == encoded;
  }

  method WriteAxdrLength(writer: ApduWriter, length: nat) returns (status: ApduStatus)
    requires writer.Valid()
    modifies writer`position, writer.data
    ensures writer.Took(Plain(LengthOctets(length)), status)
  {
    var size := LengthSize(length);
    if writer.Room() < size {
      return OutputBufferTooSmall;
    }
    if length < 0x80 {
      status := writer.Put(length);
      return status;
    }
    var encoded := LengthDigits(length);
    status := PutBoth(writer, (0x80 + |encoded|) % 256, encoded);
  }

  method PutBoth(writer: ApduWriter, first: byte, rest: Octets) returns (status: ApduStatus)
    requires writer.Valid()
    modifies writer`position, writer.data
    ensures writer.Took(Plain([first] + rest), status)
  {
    status := writer.Put(first);
    if status != Ok {
      return status;
    }
    status := writer.PutBytes(rest);
    assert (old(writer.Written()) + [first]) + rest == old(writer.Written()) + ([first] + rest);
  }

  method WriteAxdrOctetString(writer: ApduWriter, value: Octets) returns (status: ApduStatus)
    requires writer.Valid()
    modifies writer`position, writer.data
    ensures writer.Took(Plain(StringOctets(value)), status)
  {
    hide LengthOctets;
    var size := LengthSize(|value|);
    if writer.Room() < size + |value| {
      return OutputBufferTooSmall;
    }
    status := WriteAxdrLength(writer, |value|);
    if status != Ok {
      return status;
    }
    status := writer.PutBytes(value);
    assert (old(writer.Written()) + LengthOctets(|value|)) + value == old(writer.Written()) + StringOctets(value);
  }
}
