/**
 The key wrap as a shift register, the first form in which section 2.2.1 of RFC 3394
 states it: the nested loops over indexed registers compute the same.
 */
module KeyWrapRegister {
  import opened Bytes
  import opened Numbers
  import opened Security
  import opened KeyWrap

  /** A and the registers R1 and R2, eight octets each. */
  datatype Shifted = Shifted(a: Octets, r1: Octets, r2: Octets)

  predicate Sized(s: Shifted) {
    |s.a| == 8 && |s.r1| == 8 && |s.r2| == 8
  }

  /** Exclusive or, octet by octet. */
  function Added(x: Octets, y: Octets): (r: Octets)
    requires |x| == |y|
    ensures |r| == |x|
  {
    seq(|x|, i requires 0 <= i < |x| => Xor(x[i], y[i]))
  }

  /** `t` steps: the cipher works on A and R1, the registers move up, and R2 takes the lower half. */
  ghost function Forth(encrypt: Cipher, key: Octets, s: Shifted, t: nat): (r: Shifted)
    requires KeepsSize(encrypt, key) && Sized(s)
    ensures Sized(r)
  {
    if t == 0 then s
    else
      var p := Forth(encrypt, key, s, t - 1);
      var b := encrypt(key, p.a + p.r1);
      Shifted(Added(b[..8], BigEndian(t, 8)), p.r2, b[8..])
  }

  /** The same backwards, from step `t` down to the first. */
  ghost function Back(decrypt: Cipher, key: Octets, s: Shifted, t: nat): (r: Shifted)
    requires KeepsSize(decrypt, key) && Sized(s)
    ensures Sized(r)
    decreases t
  {
    if t == 0 then s
    else
      var b := decrypt(key, Added(s.a, BigEndian(t, 8)) + s.r2);
      Back(decrypt, key, Shifted(b[..8], b[8..], s.r1), t - 1)
  }

  // ---- The counter ----

  lemma ZeroBits(x: bv8)
    ensures XorBits(x, 0) == x
  {
  }

  lemma XorZero(x: byte)
    ensures Xor(x, 0) == x
  {
    BitsRoundTrip(x);
    ZeroBits(Bits(x));
  }

  lemma {:induction false} CounterAdded(a: Octets, t: nat)
    ensures XorCounter(a, t) == Added(a, BigEndian(t, |a|))
  {
    hide Xor;
    if a != [] {
      var init, last := a[..|a| - 1], a[|a| - 1];
      CounterAdded(init, t / 256);
      if t == 0 {
        XorZero(last);
        assert init + [last] == a;
      }
      assert Added(a, BigEndian(t, |a|)) == Added(init, BigEndian(t / 256, |init|)) + [Xor(last, t % 256)];
    }
  }

  // ---- The indexed registers move in the shift register ----

  /** After an even number of steps R1 is the first indexed register, after an odd number the second. */
  predicate Matches(s: Shifted, g: Registers, t: nat) {
    && Proper(g) && s.a == g.a
    && s.r1 == g.r[t % 2] && s.r2 == g.r[(t + 1) % 2]
  }

  lemma {:induction false} ForthMatches(encrypt: Cipher, decrypt: Cipher, key: Octets, s: Shifted, g: Registers, t: nat)
    requires Inverse(encrypt, decrypt, key) && Sized(s) && Matches(s, g, 0)
    ensures KeepsSize(encrypt, key)
    ensures Matches(Forth(encrypt, key, s, t), Wrapped(encrypt, decrypt, key, g, t), t)
  {
    hide XorCounter, Inverse, KeepsSize, BigEndian, Added;
    InverseSizes(encrypt, decrypt, key);
    if t > 0 {
      ForthMatches(encrypt, decrypt, key, s, g, t - 1);
      NextWrapped(encrypt, decrypt, key, g, t);
      var h := Wrapped(encrypt, decrypt, key, g, t - 1);
      CounterAdded(HalfBlock(encrypt, key, h.a + h.r[(t - 1) % 2]), t);
    }
  }

  function HalfBlock(cipher: Cipher, key: Octets, x: Octets): (r: Octets)
    requires KeepsSize(cipher, key) && |x| == 16
    ensures |r| == 8
  {
    cipher(key, x)[..8]
  }

  lemma {:induction false} BackMatches(encrypt: Cipher, decrypt: Cipher, key: Octets, s: Shifted, g: Registers, t: nat)
    requires Inverse(encrypt, decrypt, key) && Sized(s) && Matches(s, g, t)
    ensures KeepsSize(decrypt, key)
    ensures Matches(Back(decrypt, key, s, t), Unwrapped(encrypt, decrypt, key, g, t), 0)
    decreases t
  {
    hide XorCounter, Inverse, BigEndian, Added;
    InverseSizes(encrypt, decrypt, key);
    if t == 0 {
      NothingUnwrapped(encrypt, decrypt, key, g);
    } else {
      NextUnwrapped(encrypt, decrypt, key, g, t);
      CounterAdded(g.a, t);
      var b := decrypt(key, Added(s.a, BigEndian(t, 8)) + s.r2);
      BackMatches(encrypt, decrypt, key, Shifted(b[..8], b[8..], s.r1), Backward(decrypt, key, g, t), t - 1);
    }
  }

  /** Eight octets A6. */
  function InitialValue(): (r: Octets)
    ensures |r| == 8
  {
    seq(8, _ => 0xa6)
  }

  /** A wrapped key is what twelve steps of the shift register make of the initial value and the key. */
  lemma WrapIsShiftRegister(encrypt: Cipher, decrypt: Cipher, key: Octets, plain: Octets)
    requires Inverse(encrypt, decrypt, key) && |plain| == 16
    ensures KeepsSize(encrypt, key)
    ensures var s := Forth(encrypt, key, Shifted(InitialValue(), plain[..8], plain[8..]), 12);
      WrapKey(encrypt, decrypt, key, plain) == s.a + s.r1 + s.r2
  {
    hide Inverse, Forth, Wrapped, KeepsSize;
    ForthMatches(encrypt, decrypt, key, Shifted(InitialValue(), plain[..8], plain[8..]), Load(INTEGRITY_VALUE, plain), 12);
  }

  /** Unwrapping is twelve steps back; the key is accepted exactly when the initial value comes out. */
  lemma UnwrapIsShiftRegister(encrypt: Cipher, decrypt: Cipher, key: Octets, wrapped: Octets)
    requires Inverse(encrypt, decrypt, key) && |wrapped| == 24
    ensures KeepsSize(decrypt, key)
    ensures var s := Back(decrypt, key, Shifted(wrapped[..8], wrapped[8..16], wrapped[16..]), 12);
      UnwrapKey(encrypt, decrypt, key, wrapped) ==
      if s.a == InitialValue() then Done(s.r1 + s.r2) else Refused(AuthenticationFailed)
  {
    hide Inverse, Back, Unwrapped, KeepsSize;
    var g := Load(wrapped[..8], wrapped[8..]);
    assert wrapped[8..][..8] == wrapped[8..16] && wrapped[8..][8..] == wrapped[16..];
    BackMatches(encrypt, decrypt, key, Shifted(wrapped[..8], wrapped[8..16], wrapped[16..]), g, 12);
    assert InitialValue() == INTEGRITY_VALUE;
  }
}
