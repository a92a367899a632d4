/**
 AES key wrap (sections 2.2.1 and 2.2.2 of RFC 3394) for 16-octet keys, over any block
 permutation and its inverse.
 */
module KeyWrap {
  import opened Bytes
  import opened Security

  const INTEGRITY_VALUE: Octets := [0xa6, 0xa6, 0xa6, 0xa6, 0xa6, 0xa6, 0xa6, 0xa6]

  /** A block cipher: for a key, a permutation of 16-octet blocks. */
  type Cipher = (Octets, Octets) -> Octets

  ghost predicate KeepsSize(cipher: Cipher, key: Octets) {
    forall x :: |x| == 16 ==> |cipher(key, x)| == 16
  }

  /** The two directions of a cipher undo each other under this key. */
  ghost predicate Inverse(encrypt: Cipher, decrypt: Cipher, key: Octets) {
    && KeepsSize(encrypt, key) && KeepsSize(decrypt, key)
    && (forall x :: |x| == 16 ==> decrypt(key, encrypt(key, x)) == x)
    && (forall x :: |x| == 16 ==> encrypt(key, decrypt(key, x)) == x)
  }

  /** The identity is a cipher in this sense, so the laws below are about something. */
  lemma CipherExists(key: Octets) returns (encrypt: Cipher, decrypt: Cipher)
    ensures Inverse(encrypt, decrypt, key)
  {
    encrypt := (k: Octets, x: Octets) => x;
    decrypt := (k: Octets, x: Octets) => x;
  }

  // ---- The counter ----

  /** `t` added to the octets bit by bit, from the last octet on, until nothing is left of it. */
  function XorCounter(a: Octets, t: nat): (r: Octets)
    ensures |r| == |a|
  {
    if a == [] || t == 0 then a
    else XorCounter(a[..|a| - 1], t / 256) + [Xor(a[|a| - 1], t % 256)]
  }

  lemma {:induction false} XorCounterTwice(a: Octets, t: nat)
    ensures XorCounter(XorCounter(a, t), t) == a
  {
    hide Xor;
    if a != [] && t != 0 {
      var init, last := a[..|a| - 1], a[|a| - 1];
      XorCounterTwice(init, t / 256);
      XorInvolutive(last, t % 256);
      var x := XorCounter(a, t);
      assert x[..|x| - 1] == XorCounter(init, t / 256);
      assert a == init + [last];
    }
  }

  /** The same in place, from the last octet to the first. */
  method XorAWithT(a: array<byte>, t: nat)
    modifies a
    ensures a[..] == XorCounter(old(a[..]), t)
  {
    hide Xor, XorCounter;
    ghost var before := a[..];
    var i := a.Length;
    var rest := t;
    ghost var tail: Octets := [];
    assert before[..i] == before && before + tail == before;
    assert XorCounter(before, t) + tail == XorCounter(before, t);
    while i > 0 && rest != 0
      invariant 0 <= i <= a.Length
      invariant a[..] == before[..i] + tail
      invariant XorCounter(before, t) == XorCounter(before[..i], rest) + tail
    {
      var x := Xor(a[i - 1], rest % 256);
      assert before[..i][..i - 1] == before[..i - 1];
      XorCounterLast(before[..i], rest);
      AppendAssociates(XorCounter(before[..i - 1], rest / 256), [x], tail);
      ReplaceLast(before[..i], tail, x);
      ghost var current := a[..];
      a[i - 1] := x;
      assert a[..] == current[i - 1 := x];
      tail := [x] + tail;
      i := i - 1;
      rest := rest / 256;
    }
    XorCounterEnd(before[..i], rest);
  }

  lemma ReplaceLast(a: Octets, tail: Octets, x: byte)
    requires a != []
    ensures (a + tail)[|a| - 1 := x] == a[..|a| - 1] + ([x] + tail)
  {
  }

  lemma XorCounterLast(a: Octets, t: nat)
    requires a != [] && t != 0
    ensures XorCounter(a, t) == XorCounter(a[..|a| - 1], t / 256) + [Xor(a[|a| - 1], t % 256)]
  {
  }

  lemma XorCounterEnd(a: Octets, t: nat)
    requires a == [] || t == 0
    ensures XorCounter(a, t) == a
  {
  }

  // ---- Rounds ----

  /** The registers A and R[1], R[2]. */
  datatype Registers = Registers(a: Octets, r: seq<Octets>)

  predicate Proper(g: Registers) {
    |g.a| == 8 && |g.r| == 2 && |g.r[0]| == 8 && |g.r[1]| == 8
  }

  /** The register that step `t` (counted from 1) works on. */
  function Index(t: nat): nat
    requires t > 0
  {
    (t - 1) % 2
  }

  function Forward(encrypt: Cipher, key: Octets, g: Registers, t: nat): Registers
    requires Proper(g) && t > 0
    requires KeepsSize(encrypt, key)
  {
    var b := encrypt(key, g.a + g.r[Index(t)]);
    Registers(XorCounter(b[..8], t), g.r[Index(t) := b[8..]])
  }

  function Backward(decrypt: Cipher, key: Octets, g: Registers, t: nat): Registers
    requires Proper(g) && t > 0
    requires KeepsSize(decrypt, key)
  {
    var b := decrypt(key, XorCounter(g.a, t) + g.r[Index(t)]);
    Registers(b[..8], g.r[Index(t) := b[8..]])
  }

  lemma BackwardForward(encrypt: Cipher, decrypt: Cipher, key: Octets, g: Registers, t: nat)
    requires Inverse(encrypt, decrypt, key) && Proper(g) && t > 0
    ensures Proper(Forward(encrypt, key, g, t))
    ensures Backward(decrypt, key, Forward(encrypt, key, g, t), t) == g
  {
    hide XorCounter;
    var x := g.a + g.r[Index(t)];
    var b := encrypt(key, x);
    XorCounterTwice(b[..8], t);
    assert b[..8] + b[8..] == b;
    assert x[..8] == g.a && x[8..] == g.r[Index(t)];
  }

  lemma ForwardBackward(encrypt: Cipher, decrypt: Cipher, key: Octets, g: Registers, t: nat)
    requires Inverse(encrypt, decrypt, key) && Proper(g) && t > 0
    ensures Proper(Backward(decrypt, key, g, t))
    ensures Forward(encrypt, key, Backward(decrypt, key, g, t), t) == g
  {
    hide XorCounter;
    var x := XorCounter(g.a, t) + g.r[Index(t)];
    var b := decrypt(key, x);
    assert b[..8] + b[8..] == b;
    assert x[..8] == XorCounter(g.a, t) && x[8..] == g.r[Index(t)];
    XorCounterTwice(g.a, t);
  }

  ghost function Wrapped(encrypt: Cipher, decrypt: Cipher, key: Octets, g: Registers, t: nat): (h: Registers)
    requires Inverse(encrypt, decrypt, key) && Proper(g)
    ensures Proper(h)
  {
    if t == 0 then g
    else
      var h := Wrapped(encrypt, decrypt, key, g, t - 1);
      InverseSizes(encrypt, decrypt, key);
      BackwardForward(encrypt, decrypt, key, h, t);
      Forward(encrypt, key, h, t)
  }

  ghost function Unwrapped(encrypt: Cipher, decrypt: Cipher, key: Octets, g: Registers, t: nat): (h: Registers)
    requires Inverse(encrypt, decrypt, key) && Proper(g)
    ensures Proper(h)
    decreases t
  {
    if t == 0 then g
    else
      InverseSizes(encrypt, decrypt, key);
      ForwardBackward(encrypt, decrypt, key, g, t);
      Unwrapped(encrypt, decrypt, key, Backward(decrypt, key, g, t), t - 1)
  }

  /** All steps back undo all steps forth, and the other way round. */
  lemma {:induction false} RoundsInvert(encrypt: Cipher, decrypt: Cipher, key: Octets, g: Registers, t: nat)
    requires Inverse(encrypt, decrypt, key) && Proper(g)
    ensures Unwrapped(encrypt, decrypt, key, Wrapped(encrypt, decrypt, key, g, t), t) == g
    ensures Wrapped(encrypt, decrypt, key, Unwrapped(encrypt, decrypt, key, g, t), t) == g
    decreases t
  {
    hide Forward, Backward, Inverse, KeepsSize;
    InverseSizes(encrypt, decrypt, key);
    if t > 0 {
      BackwardForward(encrypt, decrypt, key, Wrapped(encrypt, decrypt, key, g, t - 1), t);
      ForwardBackward(encrypt, decrypt, key, g, t);
      RoundsInvert(encrypt, decrypt, key, g, t - 1);
      RoundsInvert(encrypt, decrypt, key, Backward(decrypt, key, g, t), t - 1);
    }
  }

  // ---- Keys ----

  function Load(a: Octets, r: Octets): Registers
    requires |r| == 16
  {
    Registers(a, [r[..8], r[8..]])
  }

  function Store(g: Registers): Octets
    requires Proper(g)
  {
    g.a + g.r[0] + g.r[1]
  }

  ghost function WrapKey(encrypt: Cipher, decrypt: Cipher, key: Octets, plain: Octets): (w: Octets)
    requires Inverse(encrypt, decrypt, key) && |plain| == 16
    ensures |w| == 24
  {
    Store(Wrapped(encrypt, decrypt, key, Load(INTEGRITY_VALUE, plain), 12))
  }

  ghost function UnwrapKey(encrypt: Cipher, decrypt: Cipher, key: Octets, wrapped: Octets): Outcome<Octets>
    requires Inverse(encrypt, decrypt, key) && |wrapped| == 24
  {
    var g := Unwrapped(encrypt, decrypt, key, Load(wrapped[..8], wrapped[8..]), 12);
    if g.a == INTEGRITY_VALUE then Done(g.r[0] + g.r[1]) else Refused(AuthenticationFailed)
  }

  lemma LoadStore(a: Octets, r: Octets)
    requires |a| == 8 && |r| == 16
    ensures Store(Load(a, r)) == a + r
  {
    assert r[..8] + r[8..] == r;
  }

  lemma StoreLoad(g: Registers)
    requires Proper(g)
    ensures var w := Store(g); |w| == 24 && Load(w[..8], w[8..]) == g
  {
    var w := Store(g);
    assert w[8..][..8] == g.r[0] && w[8..][8..] == g.r[1] && w[..8] == g.a;
  }

  /**
   A wrapped key is accepted exactly when it is the wrapping of the key it yields;
   anything else fails authentication.
   */
  lemma KeyWrapExact(encrypt: Cipher, decrypt: Cipher, key: Octets, wrapped: Octets)
    requires Inverse(encrypt, decrypt, key) && |wrapped| == 24
    ensures forall p :: |p| == 16 ==>
      (UnwrapKey(encrypt, decrypt, key, wrapped) == Done(p) <==> wrapped == WrapKey(encrypt, decrypt, key, p))
    ensures UnwrapKey(encrypt, decrypt, key, wrapped) == Refused(AuthenticationFailed) <==>
      forall p :: |p| == 16 ==> wrapped != WrapKey(encrypt, decrypt, key, p)
  {
    hide Inverse, Wrapped, Unwrapped, Store;
    forall p | |p| == 16
      ensures UnwrapKey(encrypt, decrypt, key, wrapped) == Done(p) <==> wrapped == WrapKey(encrypt, decrypt, key, p)
    {
      UnwrapOfWrap(encrypt, decrypt, key, p);
      if UnwrapKey(encrypt, decrypt, key, wrapped) == Done(p) {
        WrapOfUnwrap(encrypt, decrypt, key, wrapped, p);
      }
    }
    var u := UnwrapKey(encrypt, decrypt, key, wrapped);
    if u.Done? {
      assert |u.value| == 16;
      WrapOfUnwrap(encrypt, decrypt, key, wrapped, u.value);
    }
  }

  lemma UnwrapOfWrap(encrypt: Cipher, decrypt: Cipher, key: Octets, p: Octets)
    requires Inverse(encrypt, decrypt, key) && |p| == 16
    ensures UnwrapKey(encrypt, decrypt, key, WrapKey(encrypt, decrypt, key, p)) == Done(p)
  {
    hide Inverse, Wrapped, Unwrapped, Store;
    var g := Load(INTEGRITY_VALUE, p);
    StoreLoad(Wrapped(encrypt, decrypt, key, g, 12));
    RoundsInvert(encrypt, decrypt, key, g, 12);
    assert p[..8] + p[8..] == p;
  }

  lemma WrapOfUnwrap(encrypt: Cipher, decrypt: Cipher, key: Octets, w: Octets, p: Octets)
    requires Inverse(encrypt, decrypt, key) && |w| == 24
    requires UnwrapKey(encrypt, decrypt, key, w) == Done(p)
    ensures |p| == 16 && WrapKey(encrypt, decrypt, key, p) == w
  {
    hide Inverse, Wrapped, Unwrapped, Store;
    var g := Load(w[..8], w[8..]);
    var h := Unwrapped(encrypt, decrypt, key, g, 12);
    assert p[..8] == h.r[0] && p[8..] == h.r[1];
    assert Load(INTEGRITY_VALUE, p) == h;
    RoundsInvert(encrypt, decrypt, key, g, 12);
    LoadStore(w[..8], w[8..]);
    assert w[..8] + w[8..] == w;
  }

  // ---- The loops ----

  function ValidateInput(key: Octets, input: Octets, expectedSize: nat): SecurityStatus {
    if ValidateKey(key) != Ok then ValidateKey(key)
    else if |input| != expectedSize then InvalidArgument
    else Ok
  }

  /** One step forth on the registers. */
  method StepForth(encrypt: Cipher, key: Octets, a: array<byte>, r: seq<Octets>, t: nat) returns (r': seq<Octets>)
    requires a.Length == 8 && Proper(Registers(a[..], r)) && t > 0
    requires KeepsSize(encrypt, key)
    modifies a
    ensures Registers(a[..], r') == Forward(encrypt, key, old(Registers(a[..], r)), t)
  {
    hide XorCounter;
    var i := Index(t);
    var block := encrypt(key, a[..] + r[i]);
    CopyInto(block[..8], a, 0);
    assert a[..] == block[..8];
    XorAWithT(a, t);
    r' := r[i := block[8..]];
  }

  /** One step back. */
  method StepBack(decrypt: Cipher, key: Octets, a: Octets, r: seq<Octets>, t: nat) returns (a': Octets, r': seq<Octets>)
    requires Proper(Registers(a, r)) && t > 0
    requires KeepsSize(decrypt, key)
    ensures Registers(a', r') == Backward(decrypt, key, Registers(a, r), t)
  {
    hide XorCounter;
    var i := Index(t);
    var block := new byte[8](_ => 0);
    CopyInto(a, block, 0);
    assert block[..] == a;
    XorAWithT(block, t);
    var decrypted := decrypt(key, block[..] + r[i]);
    a' := decrypted[..8];
    r' := r[i := decrypted[8..]];
  }

  lemma InverseSizes(encrypt: Cipher, decrypt: Cipher, key: Octets)
    requires Inverse(encrypt, decrypt, key)
    ensures KeepsSize(encrypt, key) && KeepsSize(decrypt, key)
  {
    hide KeepsSize;
  }

  lemma NextWrapped(encrypt: Cipher, decrypt: Cipher, key: Octets, g: Registers, t: nat)
    requires Inverse(encrypt, decrypt, key) && Proper(g) && t > 0
    ensures Wrapped(encrypt, decrypt, key, g, t) ==
      Forward(encrypt, key, Wrapped(encrypt, decrypt, key, g, t - 1), t)
  {
  }

  lemma NextUnwrapped(encrypt: Cipher, decrypt: Cipher, key: Octets, g: Registers, t: nat)
    requires Inverse(encrypt, decrypt, key) && Proper(g) && t > 0
    ensures Proper(Backward(decrypt, key, g, t))
    ensures Unwrapped(encrypt, decrypt, key, g, t) ==
      Unwrapped(encrypt, decrypt, key, Backward(decrypt, key, g, t), t - 1)
  {
    ForwardBackward(encrypt, decrypt, key, g, t);
  }

  method Wrap(encrypt: Cipher, ghost decrypt: Cipher, key: Octets, plainKey: Octets)
    returns (status: SecurityStatus, wrappedKey: Octets)
    requires Inverse(encrypt, decrypt, key)
    ensures status == ValidateInput(key, plainKey, 16)
    ensures status == Ok <==> |key| == 16 && |plainKey| == 16
    ensures status == Ok ==> wrappedKey == WrapKey(encrypt, decrypt, key, plainKey)
    ensures status != Ok ==> wrappedKey == []
  {
    hide Inverse, KeepsSize, Forward, Wrapped;
    InverseSizes(encrypt, decrypt, key);
    status := ValidateInput(key, plainKey, 16);
    if status != Ok {
      return status, [];
    }
    ghost var start := Load(INTEGRITY_VALUE, plainKey);
    var a := new byte[8](_ => 0);
    CopyInto(INTEGRITY_VALUE, a, 0);
    assert a[..] == INTEGRITY_VALUE;
    var r := [plainKey[..8], plainKey[8..]];
    NothingWrapped(encrypt, decrypt, key, start);
    for j := 0 to 6
      invariant Registers(a[..], r) == Wrapped(encrypt, decrypt, key, start, 2 * j)
    {
      for i := 0 to 2
        invariant Registers(a[..], r) == Wrapped(encrypt, decrypt, key, start, 2 * j + i)
      {
        NextWrapped(encrypt, decrypt, key, start, 2 * j + i + 1);
        r := StepForth(encrypt, key, a, r, 2 * j + i + 1);
      }
    }
    return Ok, a[..] + r[0] + r[1];
  }

  method Unwrap(ghost encrypt: Cipher, decrypt: Cipher, key: Octets, wrappedKey: Octets)
    returns (status: SecurityStatus, plainKey: Octets)
    requires Inverse(encrypt, decrypt, key)
    ensures ValidateInput(key, wrappedKey, 24) == Ok <==> |key| == 16 && |wrappedKey| == 24
    ensures ValidateInput(key, wrappedKey, 24) != Ok ==> status == ValidateInput(key, wrappedKey, 24) && plainKey == []
    ensures ValidateInput(key, wrappedKey, 24) == Ok ==>
      match UnwrapKey(encrypt, decrypt, key, wrappedKey)
      case Done(p) => status == Ok && plainKey == p
      case Refused(s) => status == s && plainKey == []
  {
    hide Inverse, KeepsSize, Backward, Unwrapped;
    InverseSizes(encrypt, decrypt, key);
    status := ValidateInput(key, wrappedKey, 24);
    if status != Ok {
      return status, [];
    }
    ghost var start := Load(wrappedKey[..8], wrappedKey[8..]);
    ghost var all := Unwrapped(encrypt, decrypt, key, start, 12);
    var a := wrappedKey[..8];
    var r := [wrappedKey[8..16], wrappedKey[16..]];
    assert wrappedKey[8..][..8] == wrappedKey[8..16] && wrappedKey[8..][8..] == wrappedKey[16..];
    var j := 6;
    while j > 0
      invariant 0 <= j <= 6 && Proper(Registers(a, r))
      invariant all == Unwrapped(encrypt, decrypt, key, Registers(a, r), 2 * j)
    {
      var i := 2;
      while i > 0
        invariant 0 <= i <= 2 && Proper(Registers(a, r))
        invariant all == Unwrapped(encrypt, decrypt, key, Registers(a, r), 2 * (j - 1) + i)
      {
        NextUnwrapped(encrypt, decrypt, key, Registers(a, r), 2 * (j - 1) + i);
        a, r := StepBack(decrypt, key, a, r, 2 * (j - 1) + i);
        i := i - 1;
      }
      j := j - 1;
    }
    NothingUnwrapped(encrypt, decrypt, key, Registers(a, r));
    if a != INTEGRITY_VALUE {
      return AuthenticationFailed, [];
    }
    return Ok, r[0] + r[1];
  }

  lemma NothingWrapped(encrypt: Cipher, decrypt: Cipher, key: Octets, g: Registers)
    requires Inverse(encrypt, decrypt, key) && Proper(g)
    ensures Wrapped(encrypt, decrypt, key, g, 0) == g
  {
  }

  lemma NothingUnwrapped(encrypt: Cipher, decrypt: Cipher, key: Octets, g: Registers)
    requires Inverse(encrypt, decrypt, key) && Proper(g)
    ensures Unwrapped(encrypt, decrypt, key, g, 0) == g
  {
  }
}
