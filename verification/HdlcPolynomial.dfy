/**
 The check sequence as a polynomial remainder (Appendix C.1 of RFC 1662): the register of
 the shifting loops holds what long division by the generator leaves.
 */
module HdlcPolynomial {
  import opened Bytes
  import opened HdlcCrc

  // ---- Division, on coefficients from the highest power down ----

  function Zeros(n: nat): (r: seq<bool>)
    ensures |r| == n
  {
    seq(n, _ => false)
  }

  function Ones(n: nat): (r: seq<bool>)
    ensures |r| == n
  {
    seq(n, _ => true)
  }

  /** x^16 + x^12 + x^5 + 1. */
  function Generator(): (r: seq<bool>)
    ensures |r| == 17
  {
    seq(17, i => i == 16 - 16 || i == 16 - 12 || i == 16 - 5 || i == 16 - 0)
  }

  /** The sum of two polynomials that are aligned at their highest powers. */
  function AddFront(x: seq<bool>, y: seq<bool>): (r: seq<bool>)
    requires |y| <= |x|
    ensures |r| == |x|
  {
    seq(|x|, i requires 0 <= i < |x| => if i < |y| then x[i] != y[i] else x[i])
  }

  /** Long division: the generator is subtracted wherever the highest coefficient is set. */
  function Remainder(dividend: seq<bool>): (r: seq<bool>)
    requires |dividend| >= 16
    ensures |r| == 16
    decreases |dividend|
  {
    if |dividend| == 16 then dividend
    else Remainder((if dividend[0] then AddFront(dividend, Generator()) else dividend)[1..])
  }

  function Half(v: bv16): bv16 {
    v >> 1
  }

  predicate Odd(v: bv16) {
    v & 1 != 0
  }

  /** Bit `i` of a word, counted from the low end. */
  predicate Bit(v: bv16, i: nat) {
    if i == 0 then Odd(v) else Bit(Half(v), i - 1)
  }

  function Widened(v: bv8): bv16 {
    v as bv16
  }

  function BitsOf(v: bv8): (r: seq<bool>)
    ensures |r| == 8
  {
    seq(8, i requires 0 <= i < 8 => Bit(Widened(v), i))
  }

  /** Octets in the order of transmission: the low bit of each octet first. */
  function Transmitted(data: Octets): seq<bool> {
    if data == [] then [] else BitsOf(data[0] as bv8) + Transmitted(data[1..])
  }

  /**
   The message times x^16, its sixteen highest coefficients complemented, divided by the
   generator; the complement of the remainder is transmitted behind the message.
   */
  function CheckSequence(data: Octets): seq<bool> {
    AddFront(Remainder(AddFront(Transmitted(data) + Zeros(16), Ones(16))), Ones(16))
  }

  // ---- The register ----

  function WordBits(v: bv16): (r: seq<bool>)
    ensures |r| == 16
  {
    seq(16, i requires 0 <= i < 16 => Bit(v, i))
  }

  function Sum(a: bv16, b: bv16): bv16 {
    a ^ b
  }

  function Common(a: bv16, b: bv16): bv16 {
    a & b
  }

  lemma HalfOfSum(a: bv16, b: bv16)
    ensures Half(Sum(a, b)) == Sum(Half(a), Half(b))
  {
  }

  lemma HalfOfCommon(a: bv16, b: bv16)
    ensures Half(Common(a, b)) == Common(Half(a), Half(b))
  {
  }

  lemma OddSum(a: bv16, b: bv16)
    ensures Odd(Sum(a, b)) == (Odd(a) != Odd(b))
  {
    assert (a ^ b) & 1 == (a & 1) ^ (b & 1);
    assert (a & 1 == 0 || a & 1 == 1) && (b & 1 == 0 || b & 1 == 1);
  }

  lemma OddCommon(a: bv16, b: bv16)
    ensures Odd(Common(a, b)) == (Odd(a) && Odd(b))
  {
    assert (a & b) & 1 == (a & 1) & (b & 1);
    assert (a & 1 == 0 || a & 1 == 1) && (b & 1 == 0 || b & 1 == 1);
  }

  lemma {:induction false} BitOfSum(a: bv16, b: bv16, i: nat)
    ensures Bit(Sum(a, b), i) == (Bit(a, i) != Bit(b, i)) && Bit(Common(a, b), i) == (Bit(a, i) && Bit(b, i))
    decreases i
  {
    hide Sum, Common, Half, Odd;
    OddSum(a, b);
    OddCommon(a, b);
    HalfOfSum(a, b);
    HalfOfCommon(a, b);
    if i > 0 {
      BitOfSum(Half(a), Half(b), i - 1);
    }
  }

  function Fourth(v: bv16): bv16 {
    v >> 4
  }

  function Eighth(v: bv16): bv16 {
    v >> 8
  }

  lemma FourShifts(v: bv16)
    ensures Half(Half(Half(Half(v)))) == Fourth(v)
    ensures Fourth(Fourth(v)) == Eighth(v) && Eighth(Eighth(v)) == 0
  {
  }

  lemma BitFour(v: bv16, i: nat)
    ensures Bit(v, i + 4) == Bit(Fourth(v), i)
  {
    FourShifts(v);
    hide Half, Odd, Fourth;
    var a := Half(v);
    var b := Half(a);
    var c := Half(b);
    assert Bit(v, i + 4) == Bit(a, i + 3) == Bit(b, i + 2) == Bit(c, i + 1) == Bit(Half(c), i);
  }

  lemma {:induction false} NoBit(i: nat)
    ensures !Bit(0, i)
  {
    if i > 0 {
      assert Half(0) == 0;
      NoBit(i - 1);
    }
  }

  /** Bits move with a shift by eight, and none lies beyond the word. */
  lemma BitsMove(v: bv16, i: nat)
    ensures Bit(v, i + 8) == Bit(Eighth(v), i) && !Bit(v, 16)
  {
    FourShifts(v);
    FourShifts(Eighth(v));
    hide Bit, Fourth, Eighth;
    BitFour(v, i + 4);
    BitFour(Fourth(v), i);
    BitFour(v, 12);
    BitFour(Fourth(v), 8);
    BitFour(Eighth(v), 4);
    BitFour(Fourth(Eighth(v)), 0);
    NoBit(0);
  }

  lemma ConstantShifts()
    ensures Fourth(0x8408) == 0x840 && Fourth(0x840) == 0x84 && Fourth(0x84) == 8
    ensures Fourth(0xffff) == 0xfff && Fourth(0xfff) == 0xff && Fourth(0xff) == 0xf && Eighth(0xff) == 0
  {
  }

  /** The four low bits of a word. */
  lemma LowNibble(v: bv16)
    ensures Bit(v, 0) == Odd(v) && Bit(v, 1) == Odd(Half(v)) && Bit(v, 2) == Odd(Half(Half(v)))
    ensures Bit(v, 3) == Odd(Half(Half(Half(v))))
  {
    hide Odd, Half;
    var a := Half(v);
    var b := Half(a);
    assert Bit(v, 1) == Bit(a, 0) && Bit(v, 2) == Bit(a, 1) == Bit(b, 0);
    assert Bit(v, 3) == Bit(a, 2) == Bit(b, 1) == Bit(Half(b), 0);
  }

  lemma ConstantBits()
    ensures !Odd(0x8408) && !Odd(Half(0x8408)) && !Odd(Half(Half(0x8408))) && Odd(Half(Half(Half(0x8408))))
    ensures !Odd(0x840) && !Odd(Half(0x840)) && !Odd(Half(Half(0x840))) && !Odd(Half(Half(Half(0x840))))
    ensures !Odd(0x84) && !Odd(Half(0x84)) && Odd(Half(Half(0x84))) && !Odd(Half(Half(Half(0x84))))
    ensures !Odd(8) && !Odd(Half(8)) && !Odd(Half(Half(8))) && Odd(Half(Half(Half(8))))
  {
  }

  lemma NibbleOfOnes(v: bv16)
    requires v == 0xf || v == 0xff || v == 0xfff || v == 0xffff
    ensures Odd(v) && Odd(Half(v)) && Odd(Half(Half(v))) && Odd(Half(Half(Half(v))))
  {
  }

  /** The constant of the register step holds the generator without its highest power. */
  lemma GeneratorBits(i: nat)
    requires i < 16
    ensures Bit(0x8408, i) == Generator()[i + 1]
  {
    ConstantShifts();
    ConstantBits();
    hide Bit, Odd, Half, Fourth, Eighth;
    LowNibble(0x8408);
    LowNibble(0x840);
    LowNibble(0x84);
    LowNibble(8);
    if i >= 4 {
      BitFour(0x8408, i - 4);
    }
    if i >= 8 {
      BitFour(0x840, i - 8);
    }
    if i >= 12 {
      BitFour(0x84, i - 12);
    }
  }

  /** Masks of sixteen and of eight ones. */
  lemma MaskBits(i: nat)
    requires i < 16
    ensures Bit(0xffff, i) && (Bit(0xff, i) <==> i < 8)
  {
    ConstantShifts();
    NibbleOfOnes(0xffff);
    NibbleOfOnes(0xfff);
    NibbleOfOnes(0xff);
    NibbleOfOnes(0xf);
    hide Bit, Odd, Half, Fourth, Eighth;
    LowNibble(0xffff);
    LowNibble(0xfff);
    LowNibble(0xff);
    LowNibble(0xf);
    if i >= 4 {
      BitFour(0xffff, i - 4);
      BitFour(0xff, i - 4);
    }
    if i >= 8 {
      BitFour(0xfff, i - 8);
      BitsMove(0xff, i - 8);
      NoBit(i - 8);
    }
    if i >= 12 {
      BitFour(0xff, i - 12);
    }
  }

  lemma ShiftAsSum(v: bv16)
    ensures ShiftBit(v) == if Odd(v) then Sum(Half(v), 0x8408) else Half(v)
  {
  }

  lemma ShiftedAt(v: bv16, i: nat)
    requires i < 16
    ensures WordBits(ShiftBit(v))[i] ==
      ((if i < 15 then WordBits(v)[i + 1] else false) != (WordBits(v)[0] && Generator()[i + 1]))
  {
    hide Generator, Half, Odd, Sum, ShiftBit;
    ShiftAsSum(v);
    GeneratorBits(i);
    BitOfSum(Half(v), 0x8408, i);
    BitsMove(v, 0);
    assert Bit(Half(v), i) == Bit(v, i + 1);
  }

  /** One step of the division is one shift of the register. */
  lemma DivideOnce(v: bv16, r: seq<bool>)
    requires |r| >= 16
    ensures Remainder(AddFront([false] + r, WordBits(v))) == Remainder(AddFront(r, WordBits(ShiftBit(v))))
  {
    hide WordBits, ShiftBit, Generator;
    var d := AddFront([false] + r, WordBits(v));
    var next := (if d[0] then AddFront(d, Generator()) else d)[1..];
    var goal := AddFront(r, WordBits(ShiftBit(v)));
    assert d[0] == WordBits(v)[0];
    forall i | 0 <= i < |r|
      ensures next[i] == goal[i]
    {
      assert ([false] + r)[i + 1] == r[i];
      if i < 16 {
        ShiftedAt(v, i);
      }
    }
    assert next == goal;
  }

  lemma {:induction false} DivideOften(v: bv16, k: nat, r: seq<bool>)
    requires |r| >= 16
    ensures Remainder(AddFront(Zeros(k) + r, WordBits(v))) == Remainder(AddFront(r, WordBits(Shift(v, k))))
  {
    hide WordBits, ShiftBit, Remainder;
    if k == 0 {
      assert Zeros(0) + r == r;
    } else {
      assert Zeros(k) + r == Zeros(k - 1) + ([false] + r);
      DivideOften(v, k - 1, [false] + r);
      DivideOnce(Shift(v, k - 1), r);
    }
  }

  lemma OctetAsWord(v: bv16, b: bv8)
    ensures Common(Widened(b), 0xff) == Widened(b) && Mix(v, b) == Sum(v, Widened(b))
  {
  }

  lemma MixedAt(v: bv16, b: bv8, i: nat)
    requires i < 16
    ensures Bit(Mix(v, b), i) == (Bit(v, i) != (i < 8 && Bit(Widened(b), i)))
  {
    hide Bit, Mix, Widened, Sum, Common;
    OctetAsWord(v, b);
    BitOfSum(v, Widened(b), i);
    BitOfSum(Widened(b), 0xff, i);
    MaskBits(i);
  }

  /** An octet of the message may as well be added to the register. */
  lemma OctetMixed(v: bv16, b: bv8, r: seq<bool>)
    requires |r| >= 8
    ensures AddFront(BitsOf(b) + r, WordBits(v)) == AddFront(Zeros(8) + r, WordBits(Mix(v, b)))
  {
    hide Bit, Mix;
    var x, y := AddFront(BitsOf(b) + r, WordBits(v)), AddFront(Zeros(8) + r, WordBits(Mix(v, b)));
    forall i | 0 <= i < |x|
      ensures x[i] == y[i]
    {
      if i < 16 {
        MixedAt(v, b, i);
      }
    }
  }

  /** The register after a message is the remainder of that message, started from any register. */
  lemma {:induction false} RegisterIsRemainder(v: bv16, data: Octets)
    ensures Remainder(AddFront(Transmitted(data) + Zeros(16), WordBits(v))) == WordBits(Register(v, data))
    decreases |data|
  {
    hide WordBits, Remainder, BitsOf, Mix, ShiftBit;
    if data == [] {
      assert AddFront(Transmitted([]) + Zeros(16), WordBits(v)) == WordBits(v);
      assert Remainder(WordBits(v)) == WordBits(v) by { SmallRemainder(WordBits(v)); }
    } else {
      var b, rest := data[0], data[1..];
      var r := Transmitted(rest) + Zeros(16);
      assert Transmitted(data) + Zeros(16) == BitsOf(Bits(b)) + r;
      OctetMixed(v, Bits(b), r);
      DivideOften(Mix(v, Bits(b)), 8, r);
      EightShifts(Mix(v, Bits(b)));
      RegisterIsRemainder(Absorb(v, b), rest);
      assert data == [b] + rest;
      RegisterAppend(v, [b], rest);
      RegisterSingle(v, b);
    }
  }

  lemma SmallRemainder(d: seq<bool>)
    requires |d| == 16
    ensures Remainder(d) == d
  {
  }

  lemma ComplementedBits(v: bv16)
    ensures WordBits(Sum(v, 0xffff)) == AddFront(WordBits(v), Ones(16))
  {
    hide Bit, Sum;
    var x, y := WordBits(Sum(v, 0xffff)), AddFront(WordBits(v), Ones(16));
    forall i | 0 <= i < 16
      ensures x[i] == y[i]
    {
      BitOfSum(v, 0xffff, i);
      MaskBits(i);
    }
  }

  lemma HalfWords(v: bv16)
    ensures Widened((v & 0xff) as bv8) == Common(v, 0xff) && Widened((v >> 8) as bv8) == Eighth(v)
  {
  }

  lemma HalvesInOrder(v: bv16)
    ensures BitsOf((v & 0xff) as bv8) + BitsOf((v >> 8) as bv8) == WordBits(v)
  {
    hide Bit, Widened, Common, Eighth;
    HalfWords(v);
    var x, y := BitsOf((v & 0xff) as bv8) + BitsOf((v >> 8) as bv8), WordBits(v);
    forall i | 0 <= i < 16
      ensures x[i] == y[i]
    {
      if i < 8 {
        BitOfSum(v, 0xff, i);
        MaskBits(i);
      } else {
        BitsMove(v, i - 8);
      }
    }
  }

  /** Two octets hold the word, low octet and low bit first. */
  lemma WordTransmitted(v: bv16)
    ensures Transmitted([LowByte(v), HighByte(v)]) == WordBits(v)
  {
    hide WordBits, BitsOf;
    var lo, hi := LowByte(v), HighByte(v);
    FromBitsRoundTrip((v & 0xff) as bv8);
    FromBitsRoundTrip((v >> 8) as bv8);
    HalvesInOrder(v);
    assert [lo, hi][1..] == [hi] && [hi][1..] == [];
    assert Transmitted([hi]) == BitsOf(Bits(hi)) + Transmitted([]);
    assert BitsOf(Bits(hi)) + [] == BitsOf(Bits(hi));
  }

  lemma AllOnes()
    ensures WordBits(0xffff) == Ones(16)
  {
    hide Bit;
    forall i | 0 <= i < 16
      ensures Bit(0xffff, i)
    {
      MaskBits(i);
    }
  }

  /** The check octets of a frame, as they are transmitted, are the complemented remainder. */
  lemma CrcIsRemainder(data: Octets)
    ensures Transmitted(CrcOctets(data)) == CheckSequence(data)
  {
    hide WordBits, Remainder, Register, Transmitted;
    AllOnes();
    RegisterIsRemainder(0xffff, data);
    ComplementedBits(Register(INITIAL_FCS, data));
    WordTransmitted(Crc(data));
  }
}
