/**
 Numbers as octets, most significant octet first.
 */
module Numbers {
  import opened Bytes

  type uint16 = x: int | 0 <= x < 0x1_0000
  type uint32 = x: int | 0 <= x < 0x1_0000_0000

  function Pow256(n: nat): (r: nat)
    ensures r > 0
  {
    if n == 0 then 1 else 256 * Pow256(n - 1)
  }

  /** The low `n` octets of a number. */
  function BigEndian(v: nat, n: nat): (r: Octets)
    ensures |r| == n
  {
    if n == 0 then [] else BigEndian(v / 256, n - 1) + [v % 256]
  }

  function FromBig(s: Octets): nat {
    if s == [] then 0 else 256 * FromBig(s[..|s| - 1]) + s[|s| - 1] as int
  }

  lemma FromBigSnoc(s: Octets, b: byte)
    ensures FromBig(s + [b]) == 256 * FromBig(s) + b as int
  {
    assert (s + [b])[..|s|] == s;
  }

  lemma SplitModulo(v: nat, p: nat)
    requires p > 0
    ensures v % (256 * p) == 256 * (v / 256 % p) + v % 256
  {
    var q, r := v / 256, v % 256;
    var a, b := q / p, q % p;
    assert q == p * a + b;
    assert 256 * (p * a) == (256 * p) * a;
    assert v == (256 * p) * a + (256 * b + r);
    assert 0 <= 256 * b + r < 256 * p;
    UniqueRemainder(v, 256 * p, a, 256 * b + r);
  }

  lemma MultipleOf(m: int, d: int)
    requires m > 0
    ensures d >= 1 ==> m * d >= m
    ensures d <= -1 ==> m * d <= 0 - m
  {
  }

  lemma UniqueRemainder(v: nat, m: nat, a: nat, r: nat)
    requires m > 0 && v == m * a + r && r < m
    ensures v % m == r
  {
    assert m * (v / m - a) == r - v % m;
    MultipleOf(m, v / m - a);
  }

  lemma {:induction false} BigEndianRoundTrip(v: nat, n: nat)
    ensures FromBig(BigEndian(v, n)) == v % Pow256(n)
  {
    if n > 0 {
      BigEndianRoundTrip(v / 256, n - 1);
      FromBigSnoc(BigEndian(v / 256, n - 1), v % 256);
      SplitModulo(v, Pow256(n - 1));
    }
  }

  lemma {:induction false} FromBigBound(s: Octets)
    ensures FromBig(s) < Pow256(|s|)
  {
    if s != [] {
      FromBigBound(s[..|s| - 1]);
    }
  }

  lemma {:induction false} BigEndianOfValue(s: Octets)
    ensures BigEndian(FromBig(s), |s|) == s
  {
    if s != [] {
      var init, last := s[..|s| - 1], s[|s| - 1];
      assert FromBig(s) / 256 == FromBig(init) && FromBig(s) % 256 == last as int;
      BigEndianOfValue(init);
      assert s == init + [last];
    }
  }

  // ---- Octets written out, from the highest down; integers may be of either sign ----

  function Octets1(x: int): Octets {
    [x % 256]
  }

  function Octets2(x: int): Octets {
    [x / 0x100 % 256, x % 256]
  }

  function Octets4(x: int): Octets {
    [x / 0x100_0000 % 256, x / 0x1_0000 % 256, x / 0x100 % 256, x % 256]
  }

  function Octets8(x: int): Octets {
    Octets4(x / 0x1_0000_0000) + Octets4(x)
  }

  /** The low `n` octets of an integer of either sign. */
  function LowOctets(x: int, n: nat): Octets
    decreases n
  {
    if n == 0 then [] else LowOctets(x / 256, n - 1) + [x % 256]
  }

  lemma LowSplit(x: int, p: int)
    requires p > 0
    ensures x % (256 * p) / 256 == x / 256 % p && x % (256 * p) % 256 == x % 256
  {
    var q, r := x / 256, x % 256;
    var a, b := q / p, q % p;
    assert x == (256 * p) * a + (256 * b + r) by {
      assert q == p * a + b;
      assert 256 * (p * a) == (256 * p) * a;
    }
    RemainderOf(x, 256 * p, a, 256 * b + r);
  }

  lemma RemainderOf(x: int, m: int, a: int, r: int)
    requires m > 0 && x == m * a + r && 0 <= r < m
    ensures x % m == r
  {
    assert m * (x / m - a) == r - x % m;
    MultipleOf(m, x / m - a);
  }

  lemma {:induction false} TruncatedOctets(x: int, n: nat)
    ensures BigEndian(x % Pow256(n), n) == LowOctets(x, n)
    decreases n
  {
    if n > 0 {
      LowSplit(x, Pow256(n - 1));
      TruncatedOctets(x / 256, n - 1);
    }
  }

  lemma {:induction false} NumberOctets(x: nat, n: nat)
    ensures BigEndian(x, n) == LowOctets(x, n)
  {
    if n > 0 {
      NumberOctets(x / 256, n - 1);
    }
  }

  lemma Divisions(x: int)
    ensures x / 256 / 256 == x / 0x1_0000 && x / 256 / 256 / 256 == x / 0x100_0000
  {
  }

  lemma LastOctet(x: int, n: nat)
    ensures LowOctets(x, 0) == [] && LowOctets(x, n + 1) == LowOctets(x / 256, n) + [x % 256]
  {
  }

  lemma FourLow(x: int)
    ensures LowOctets(x, 1) == Octets1(x) && LowOctets(x, 2) == Octets2(x) && LowOctets(x, 4) == Octets4(x)
  {
    hide LowOctets;
    var a := x / 256;
    var b := a / 256;
    var c := b / 256;
    Divisions(x);
    LastOctet(x, 0);
    LastOctet(x, 1);
    LastOctet(x, 3);
    LastOctet(a, 0);
    LastOctet(a, 2);
    LastOctet(b, 1);
    LastOctet(c, 0);
    LastOctet(c / 256, 0);
  }

  lemma {:induction false} LowAppend(x: int, n: nat, m: nat)
    ensures LowOctets(x, n + m) == LowOctets(Quotient(x, m), n) + LowOctets(x, m)
    decreases m
  {
    if m == 0 {
      assert LowOctets(x, n) + [] == LowOctets(x, n);
    } else {
      LowAppend(x / 256, n, m - 1);
    }
  }

  function Quotient(x: int, m: nat): int
    decreases m
  {
    if m == 0 then x else Quotient(x / 256, m - 1)
  }

  lemma EightLow(x: int)
    ensures LowOctets(x, 8) == Octets8(x)
  {
    LowAppend(x, 4, 4);
    FourLow(x);
    FourLow(x / 0x1_0000_0000);
    var a := x / 256;
    var b := a / 256;
    var c := b / 256;
    assert b == x / 0x1_0000 && c == x / 0x100_0000 && c / 256 == x / 0x1_0000_0000;
    assert Quotient(x, 4) == Quotient(a, 3) == Quotient(b, 2) == Quotient(c, 1) == c / 256;
  }

  /** Numbers of one, two, four and eight octets. */
  lemma BigEndianWritten(x: nat)
    ensures BigEndian(x, 1) == Octets1(x) && BigEndian(x, 2) == Octets2(x)
    ensures BigEndian(x, 4) == Octets4(x) && BigEndian(x, 8) == Octets8(x)
  {
    hide BigEndian, LowOctets, Octets1, Octets2, Octets4, Octets8;
    NumberOctets(x, 1);
    NumberOctets(x, 2);
    NumberOctets(x, 4);
    NumberOctets(x, 8);
    FourLow(x);
    EightLow(x);
  }

  /** Each octet counts by its place: the first of `n + 1` octets stands for its value times 256 to the `n`. */
  lemma {:induction false} FromBigPlaces(b: byte, s: Octets)
    ensures FromBig([b] + s) == b as int * Pow256(|s|) + FromBig(s)
  {
    if s == [] {
      assert [b] + s == [] + [b];
      FromBigSnoc([], b);
    } else {
      var init, last := s[..|s| - 1], s[|s| - 1];
      FromBigPlaces(b, init);
      assert [b] + s == ([b] + init) + [last] && s == init + [last];
      FromBigSnoc([b] + init, last);
      FromBigSnoc(init, last);
      assert 256 * (b as int * Pow256(|init|)) == b as int * (256 * Pow256(|init|));
    }
  }
}
