/**
 The 16-bit HDLC check sequence (the CRC of Appendix C.2 of RFC 1662): the bit
 and byte loops that compute it, and what it detects.
 */
module HdlcCrc {
  import opened Bytes

  const INITIAL_FCS: bv16 := 0xffff

  /** The register value left by a message followed by its own check sequence. */
  const GOOD_FCS: bv16 := 0xf0b8

  // ---- The register ----

  /** One bit through the register; 0x8408 is the reflected generator polynomial. */
  function ShiftBit(crc: bv16): bv16 {
    if crc & 1 != 0 then (crc >> 1) ^ 0x8408 else crc >> 1
  }

  function Shift(crc: bv16, bits: nat): bv16 {
    if bits == 0 then crc else ShiftBit(Shift(crc, bits - 1))
  }

  function ShiftOctet(crc: bv16): bv16 {
    ShiftBit(ShiftBit(ShiftBit(ShiftBit(ShiftBit(ShiftBit(ShiftBit(ShiftBit(crc))))))))
  }

  function Mix(crc: bv16, v: bv8): bv16 {
    crc ^ (v as bv16)
  }

  function AbsorbBits(crc: bv16, v: bv8): bv16 {
    ShiftOctet(Mix(crc, v))
  }

  function Absorb(crc: bv16, b: byte): bv16 {
    AbsorbBits(crc, Bits(b))
  }

  function Register(crc: bv16, data: Octets): bv16 {
    if data == [] then crc else Absorb(Register(crc, data[..|data| - 1]), data[|data| - 1])
  }

  /** The value the sender transmits. */
  function Crc(data: Octets): bv16 {
    Register(INITIAL_FCS, data) ^ 0xffff
  }

  function LowByte(v: bv16): byte {
    FromBits((v & 0xff) as bv8)
  }

  function HighByte(v: bv16): byte {
    FromBits((v >> 8) as bv8)
  }

  /** The check sequence as it stands in a frame: low byte first. */
  function CrcOctets(data: Octets): (r: Octets)
    ensures |r| == 2
  {
    [LowByte(Crc(data)), HighByte(Crc(data))]
  }

  // ---- The loops ----

  method UpdateCrc(initial: bv16, value: byte) returns (crc: bv16)
    ensures crc == Absorb(initial, value)
  {
    hide Mix, Bits;
    var start := Mix(initial, Bits(value));
    crc := start;
    for bit := 0 to 8
      invariant crc == Shift(start, bit)
    {
      if crc & 1 != 0 {
        crc := (crc >> 1) ^ 0x8408;
      } else {
        crc := crc >> 1;
      }
    }
    EightShifts(start);
  }

  method CalculateHdlcCrc(data: Octets) returns (crc: bv16)
    ensures crc == Crc(data)
  {
    crc := INITIAL_FCS;
    for index := 0 to |data|
      invariant crc == Register(INITIAL_FCS, data[..index])
    {
      crc := UpdateCrc(crc, data[index]);
      assert data[..index + 1][..index] == data[..index];
    }
    assert data[..|data|] == data;
    crc := crc ^ 0xffff;
  }

  lemma EightShifts(c: bv16)
    ensures Shift(c, 8) == ShiftOctet(c)
  {
    assert Shift(c, 1) == ShiftBit(c);
    assert Shift(c, 3) == ShiftBit(ShiftBit(Shift(c, 1)));
    assert Shift(c, 5) == ShiftBit(ShiftBit(Shift(c, 3)));
    assert Shift(c, 7) == ShiftBit(ShiftBit(Shift(c, 5)));
  }

  // ---- Algebra of the register ----

  lemma {:induction false} RegisterAppend(crc: bv16, a: Octets, b: Octets)
    ensures Register(crc, a + b) == Register(Register(crc, a), b)
  {
    hide Absorb;
    if b == [] {
      assert a + b == a;
    } else {
      RegisterAppend(crc, a, b[..|b| - 1]);
      assert (a + b)[..|a + b| - 1] == a + b[..|b| - 1];
    }
  }

  lemma ShiftOctetInjective(c: bv16, d: bv16)
    requires ShiftOctet(c) == ShiftOctet(d)
    ensures c == d
  {
  }

  /** The high half after eight shifts determines the octet that was shifted out. */
  lemma HighHalfDetermines(v: bv16, w: bv16)
    requires ShiftOctet(v) >> 8 == ShiftOctet(w) >> 8
    ensures v & 0xff == w & 0xff
  {
  }

  lemma XorCancel(a: bv16, b: bv16, x: bv16)
    requires a ^ x == b ^ x
    ensures a == b
  {
  }

  lemma MixInjective(c: bv16, d: bv16, v: bv8)
    requires Mix(c, v) == Mix(d, v)
    ensures c == d
  {
  }

  lemma MixSeparates(c: bv16, v: bv8, w: bv8)
    requires Mix(c, v) & 0xff == Mix(c, w) & 0xff
    ensures v == w
  {
  }

  lemma MixKeepsHighHalf(p: bv16, q: bv16, v: bv8, w: bv8)
    requires Mix(p, v) == Mix(q, w)
    ensures p >> 8 == q >> 8
  {
  }

  lemma AbsorbBitsInjective(c: bv16, d: bv16, v: bv8)
    requires AbsorbBits(c, v) == AbsorbBits(d, v)
    ensures c == d
  {
    hide ShiftOctet, Mix;
    ShiftOctetInjective(Mix(c, v), Mix(d, v));
    MixInjective(c, d, v);
  }

  lemma AbsorbBitsSeparates(c: bv16, v: bv8, w: bv8)
    requires AbsorbBits(c, v) == AbsorbBits(c, w)
    ensures v == w
  {
    hide ShiftOctet, Mix;
    ShiftOctetInjective(Mix(c, v), Mix(c, w));
    MixSeparates(c, v, w);
  }

  /** Two octets always leave different registers: sixteen bits through sixteen bits. */
  lemma PairOfBitsSeparates(c: bv16, v: bv8, w: bv8, v': bv8, w': bv8)
    requires AbsorbBits(AbsorbBits(c, v), w) == AbsorbBits(AbsorbBits(c, v'), w')
    ensures v == v' && w == w'
  {
    hide ShiftOctet, Mix;
    var p, q := AbsorbBits(c, v), AbsorbBits(c, v');
    ShiftOctetInjective(Mix(p, w), Mix(q, w'));
    MixKeepsHighHalf(p, q, w, w');
    HighHalfDetermines(Mix(c, v), Mix(c, v'));
    MixSeparates(c, v, v');
    AbsorbBitsSeparates(p, w, w');
  }

  lemma AbsorbInjective(c: bv16, d: bv16, b: byte)
    requires Absorb(c, b) == Absorb(d, b)
    ensures c == d
  {
    hide AbsorbBits;
    AbsorbBitsInjective(c, d, Bits(b));
  }

  lemma BitsInjective(a: byte, b: byte)
    requires Bits(a) == Bits(b)
    ensures a == b
  {
    BitsRoundTrip(a);
    BitsRoundTrip(b);
  }

  lemma AbsorbSeparates(c: bv16, a: byte, b: byte)
    requires Absorb(c, a) == Absorb(c, b)
    ensures a == b
  {
    hide AbsorbBits;
    AbsorbBitsSeparates(c, Bits(a), Bits(b));
    BitsInjective(a, b);
  }

  lemma AbsorbPairSeparates(c: bv16, a: byte, b: byte, a': byte, b': byte)
    requires Absorb(Absorb(c, a), b) == Absorb(Absorb(c, a'), b')
    ensures a == a' && b == b'
  {
    hide AbsorbBits;
    PairOfBitsSeparates(c, Bits(a), Bits(b), Bits(a'), Bits(b'));
    BitsInjective(a, a');
    BitsInjective(b, b');
  }

  lemma {:induction false} RegisterInjective(c: bv16, d: bv16, data: Octets)
    requires Register(c, data) == Register(d, data)
    ensures c == d
  {
    hide Absorb;
    if data != [] {
      var init, last := data[..|data| - 1], data[|data| - 1];
      AbsorbInjective(Register(c, init), Register(d, init), last);
      RegisterInjective(c, d, init);
    }
  }

  lemma RegisterSingle(crc: bv16, a: byte)
    ensures Register(crc, [a]) == Absorb(crc, a)
  {
    hide Absorb;
    assert [a][..0] == [];
  }

  lemma RegisterPair(crc: bv16, a: byte, b: byte)
    ensures Register(crc, [a, b]) == Absorb(Absorb(crc, a), b)
  {
    hide Absorb;
    RegisterSingle(crc, a);
    assert [a, b][..1] == [a];
  }

  // ---- What it detects ----

  /** The two strings agree everywhere outside positions `at` and `at + 1`. */
  ghost predicate DifferInBurst(x: Octets, y: Octets, at: int) {
    && |x| == |y|
    && x != y
    && forall i :: 0 <= i < |x| && i != at && i != at + 1 ==> x[i] == y[i]
  }

  lemma PairedBurst(crc: bv16, x: Octets, y: Octets, at: nat)
    requires DifferInBurst(x, y, at)
    requires at + 2 <= |x|
    ensures Register(crc, x) != Register(crc, y)
  {
    hide Absorb;
    var head, tail := x[..at], x[at + 2..];
    var px, py := [x[at], x[at + 1]], [y[at], y[at + 1]];
    assert x == head + px + tail;
    assert y == head + py + tail;
    RegisterAppend(crc, head + px, tail);
    RegisterAppend(crc, head + py, tail);
    RegisterAppend(crc, head, px);
    RegisterAppend(crc, head, py);
    var r := Register(crc, head);
    RegisterPair(r, x[at], x[at + 1]);
    RegisterPair(r, y[at], y[at + 1]);
    if Register(crc, x) == Register(crc, y) {
      RegisterInjective(Register(r, px), Register(r, py), tail);
      AbsorbPairSeparates(r, x[at], x[at + 1], y[at], y[at + 1]);
    }
  }

  /** Any change confined to two adjacent octets changes the register, wherever it is. */
  lemma BurstChangesRegister(crc: bv16, x: Octets, y: Octets, at: int)
    requires DifferInBurst(x, y, at)
    ensures Register(crc, x) != Register(crc, y)
  {
    hide Absorb;
    if |x| == 1 {
      assert x == [x[0]] && y == [y[0]];
      RegisterSingle(crc, x[0]);
      RegisterSingle(crc, y[0]);
      if Absorb(crc, x[0]) == Absorb(crc, y[0]) {
        AbsorbSeparates(crc, x[0], y[0]);
      }
    } else if |x| >= 2 {
      PairedBurst(crc, x, y, if at < 0 then 0 else if at + 2 > |x| then |x| - 2 else at);
    }
  }

  /** Two equal-length messages that differ in at most two adjacent octets never share a CRC. */
  lemma BurstDetected(x: Octets, y: Octets, at: int)
    requires DifferInBurst(x, y, at)
    ensures Crc(x) != Crc(y)
  {
    BurstChangesRegister(INITIAL_FCS, x, y, at);
    if Crc(x) == Crc(y) {
      XorCancel(Register(INITIAL_FCS, x), Register(INITIAL_FCS, y), 0xffff);
    }
  }

  lemma HalvesInjective(v: bv16, w: bv16)
    requires (v & 0xff) as bv8 == (w & 0xff) as bv8 && (v >> 8) as bv8 == (w >> 8) as bv8
    ensures v == w
  {
  }

  lemma CrcOctetsInjective(x: Octets, y: Octets)
    requires Crc(x) != Crc(y)
    ensures CrcOctets(x) != CrcOctets(y)
  {
    hide Crc, FromBits;
    var v, w := Crc(x), Crc(y);
    if CrcOctets(x) == CrcOctets(y) {
      assert CrcOctets(x)[0] == CrcOctets(y)[0] && CrcOctets(x)[1] == CrcOctets(y)[1];
      FromBitsRoundTrip((v & 0xff) as bv8);
      FromBitsRoundTrip((w & 0xff) as bv8);
      FromBitsRoundTrip((v >> 8) as bv8);
      FromBitsRoundTrip((w >> 8) as bv8);
      HalvesInjective(v, w);
    }
  }

  // ---- The residue ----

  lemma ResidueOfOwnCrc(r: bv16)
    ensures ShiftOctet(ShiftOctet(r ^ ((r ^ 0xffff) & 0xff)) ^ ((r ^ 0xffff) >> 8)) == 0xf0b8
  {
  }

  lemma AbsorbOwnCrcBits(r: bv16)
    ensures AbsorbBits(AbsorbBits(r, ((r ^ 0xffff) & 0xff) as bv8), ((r ^ 0xffff) >> 8) as bv8) == GOOD_FCS
  {
    ResidueOfOwnCrc(r);
    assert (((r ^ 0xffff) & 0xff) as bv8) as bv16 == (r ^ 0xffff) & 0xff;
    assert (((r ^ 0xffff) >> 8) as bv8) as bv16 == (r ^ 0xffff) >> 8;
  }

  lemma AbsorbOwnCrc(r: bv16)
    ensures Absorb(Absorb(r, LowByte(r ^ 0xffff)), HighByte(r ^ 0xffff)) == GOOD_FCS
  {
    hide AbsorbBits;
    FromBitsRoundTrip(((r ^ 0xffff) & 0xff) as bv8);
    FromBitsRoundTrip(((r ^ 0xffff) >> 8) as bv8);
    AbsorbOwnCrcBits(r);
  }

  /** A message and two more octets leave the good register exactly when the octets are its CRC. */
  lemma ResidueExact(message: Octets, lo: byte, hi: byte)
    ensures Register(INITIAL_FCS, message + [lo, hi]) == GOOD_FCS <==> [lo, hi] == CrcOctets(message)
  {
    hide Absorb;
    var r := Register(INITIAL_FCS, message);
    var l, h := LowByte(r ^ 0xffff), HighByte(r ^ 0xffff);
    RegisterAppend(INITIAL_FCS, message, [lo, hi]);
    RegisterPair(r, lo, hi);
    AbsorbOwnCrc(r);
    if Absorb(Absorb(r, lo), hi) == GOOD_FCS {
      AbsorbPairSeparates(r, lo, hi, l, h);
    }
  }
}
