/**
 Ciphered APDUs and their invocation counters: what a sender protects a receiver
 recovers once and in order, for every run, over any authenticated cipher.
 */
module Ciphering {
  import opened Bytes
  import opened Numbers
  import opened Security

  const MAX_COUNTER: uint32 := 0xffff_ffff
  const TAG_SIZE: nat := 12
  const HEADER_SIZE: nat := 5

  type SystemTitle = s: Octets | |s| == 8 witness [0, 0, 0, 0, 0, 0, 0, 0]

  // ---- The cipher ----

  /** Cipher text and authentication tag. */
  datatype Sealed = Sealed(cipherText: Octets, tag: Octets)

  /** Sealing and opening under a key, a nonce and additional authenticated data. */
  datatype Aead = Aead(
    seal: (Octets, Octets, Octets, Octets) -> Sealed,
    open: (Octets, Octets, Octets, Sealed) -> Outcome<Octets>)

  /** Opening yields a text exactly for what sealing made of it, and fails otherwise. */
  ghost predicate Sound(c: Aead) {
    && (forall k, n, a, p :: |c.seal(k, n, a, p).cipherText| == |p| && |c.seal(k, n, a, p).tag| == TAG_SIZE)
    && (forall k, n, a, p :: c.open(k, n, a, c.seal(k, n, a, p)) == Done(p))
    && (forall k, n, a, s :: c.open(k, n, a, s) ==
          Refused(AuthenticationFailed) || (c.open(k, n, a, s).Done? && c.seal(k, n, a, c.open(k, n, a, s).value) == s))
  }

  /** There is such a cipher: one that changes nothing and tags everything alike. */
  lemma SoundCipherExists() returns (c: Aead)
    ensures Sound(c)
  {
    var tag: Octets := seq(TAG_SIZE, _ => 0);
    c := Aead((k: Octets, n: Octets, a: Octets, p: Octets) => Sealed(p, tag),
      (k: Octets, n: Octets, a: Octets, s: Sealed) => if s.tag == tag then Done(s.cipherText) else Refused(AuthenticationFailed));
  }

  lemma SealOpens(c: Aead, k: Octets, n: Octets, a: Octets, p: Octets)
    requires Sound(c)
    ensures |c.seal(k, n, a, p).cipherText| == |p| && |c.seal(k, n, a, p).tag| == TAG_SIZE
    ensures c.open(k, n, a, c.seal(k, n, a, p)) == Done(p)
  {
  }

  lemma OpenedIsSealed(c: Aead, k: Octets, n: Octets, a: Octets, s: Sealed)
    requires Sound(c)
    ensures match c.open(k, n, a, s)
            case Done(p) => c.seal(k, n, a, p) == s
            case Refused(e) => e == AuthenticationFailed
  {
  }

  // ---- Counters ----

  datatype Counters = Counters(nextLocal: uint32, highestRemote: uint32, byTitle: map<Octets, uint32>)

  const FRESH := Counters(1, 0, map[])

  datatype Issued = Issued(status: SecurityStatus, counter: uint32, after: Counters)

  function NextLocal(c: Counters): Issued {
    if c.nextLocal == MAX_COUNTER then Issued(InvocationCounterExhausted, 0, c)
    else Issued(Ok, c.nextLocal, c.(nextLocal := c.nextLocal + 1))
  }

  datatype Validated = Validated(status: SecurityStatus, after: Counters)

  function ValidateRemote(c: Counters, n: uint32): Validated {
    if n == 0 then Validated(InvalidInvocationCounter, c)
    else if n <= c.highestRemote then Validated(ReplayDetected, c)
    else Validated(Ok, c.(highestRemote := n))
  }

  function ValidateFor(c: Counters, title: Octets, n: uint32): Validated {
    if |title| != 8 then Validated(InvalidSystemTitle, c)
    else if n == 0 then Validated(InvalidInvocationCounter, c)
    else if title in c.byTitle && n <= c.byTitle[title] then Validated(ReplayDetected, c)
    else Validated(Ok, c.(byTitle := c.byTitle[title := n]))
  }

  class InMemoryInvocationCounterStore {
    var nextLocal: uint32
    var highestRemote: uint32
    var highestRemoteBySystemTitle: map<Octets, uint32>

    function Value(): Counters
      reads this
    {
      Counters(nextLocal, highestRemote, highestRemoteBySystemTitle)
    }

    constructor ()
      ensures Value() == FRESH
    {
      nextLocal := 1;
      highestRemote := 0;
      highestRemoteBySystemTitle := map[];
    }

    method SetLocalCounter(n: uint32)
      modifies this
      ensures Value() == old(Value()).(nextLocal := n)
    {
      nextLocal := n;
    }

    method Next() returns (status: SecurityStatus, counter: uint32)
      modifies this
      ensures Issued(status, counter, Value()) == NextLocal(old(Value()))
    {
      if nextLocal == MAX_COUNTER {
        return InvocationCounterExhausted, 0;
      }
      counter := nextLocal;
      nextLocal := nextLocal + 1;
      return Ok, counter;
    }

    method Validate(n: uint32) returns (status: SecurityStatus)
      modifies this
      ensures Validated(status, Value()) == ValidateRemote(old(Value()), n)
    {
      if n == 0 {
        return InvalidInvocationCounter;
      }
      if n <= highestRemote {
        return ReplayDetected;
      }
      highestRemote := n;
      return Ok;
    }

    method ValidateRemoteForSystemTitle(title: Octets, n: uint32) returns (status: SecurityStatus)
      modifies this
      ensures Validated(status, Value()) == ValidateFor(old(Value()), title, n)
    {
      if |title| != 8 {
        return InvalidSystemTitle;
      }
      if n == 0 {
        return InvalidInvocationCounter;
      }
      if title in highestRemoteBySystemTitle {
        if n <= highestRemoteBySystemTitle[title] {
          return ReplayDetected;
        }
      }
      highestRemoteBySystemTitle := highestRemoteBySystemTitle[title := n];
      return Ok;
    }

    method ResetAfterKeyRotation()
      modifies this
      ensures Value() == FRESH
    {
      nextLocal := 1;
      highestRemote := 0;
      highestRemoteBySystemTitle := map[];
    }
  }

  // ---- Contexts ----

  datatype Policy = NoSecurity | Authenticated | Encrypted | AuthenticatedAndEncrypted

  datatype Context = Context(
    suite: nat,
    policy: Policy,
    clientSap: nat,
    serverSap: nat,
    localTitle: SystemTitle,
    remoteTitle: SystemTitle)

  /** What the key store answers for the encryption key and for the authentication key. */
  datatype Keys = Keys(encryption: Outcome<Octets>, authentication: Outcome<Octets>)

  predicate ValidTitle(t: SystemTitle) {
    exists i :: 0 <= i < 8 && t[i] != 0
  }

  function ValidateContext(x: Context): SecurityStatus {
    if x.suite != 0 then UnsupportedFeature
    else if x.clientSap == 0 || x.serverSap == 0 then InvalidContext
    else if x.policy == NoSecurity then Ok
    else if !ValidTitle(x.localTitle) || !ValidTitle(x.remoteTitle) then InvalidSystemTitle
    else if x.policy != AuthenticatedAndEncrypted then UnsupportedFeature
    else Ok
  }

  function GetKey(k: Outcome<Octets>): Outcome<Octets> {
    match k
    case Refused(s) => Refused(s)
    case Done(key) => if ValidateKey(key) != Ok then Refused(ValidateKey(key)) else Done(key)
  }

  /** Only the encrypted and authenticated policy gets this far. */
  const SECURITY_CONTROL: byte := 0x30

  function Nonce(title: SystemTitle, counter: uint32): Octets {
    title + BigEndian(counter, 4)
  }

  function Aad(authenticationKey: Octets): Octets {
    [SECURITY_CONTROL] + authenticationKey
  }

  // ---- Protecting and recovering ----

  datatype Processed = Processed(status: SecurityStatus, octets: Octets, after: Counters)

  function ProtectedOctets(counter: uint32, s: Sealed): Octets {
    [SECURITY_CONTROL] + BigEndian(counter, 4) + s.cipherText + s.tag
  }

  function Protect(c: Aead, x: Context, keys: Keys, before: Counters, plain: Octets): Processed {
    if ValidateContext(x) != Ok then Processed(ValidateContext(x), [], before)
    else if x.policy == NoSecurity then Processed(Ok, plain, before)
    else
      match GetKey(keys.encryption)
      case Refused(s) => Processed(s, [], before)
      case Done(ek) =>
        match GetKey(keys.authentication)
        case Refused(s) => Processed(s, [], before)
        case Done(ak) =>
          var i := NextLocal(before);
          if i.status != Ok then Processed(i.status, [], i.after)
          else Processed(Ok, ProtectedOctets(i.counter, c.seal(ek, Nonce(x.localTitle, i.counter), Aad(ak), plain)), i.after)
  }

  function CounterOf(apdu: Octets): uint32
    requires |apdu| >= HEADER_SIZE
  {
    FromBigBound(apdu[1..5]);
    assert Pow256(4) == 0x1_0000_0000;
    FromBig(apdu[1..5])
  }

  function SealedOf(apdu: Octets): Sealed
    requires |apdu| >= HEADER_SIZE + TAG_SIZE
  {
    Sealed(apdu[HEADER_SIZE..|apdu| - TAG_SIZE], apdu[|apdu| - TAG_SIZE..])
  }

  function Unprotect(c: Aead, x: Context, keys: Keys, before: Counters, apdu: Octets): Processed {
    if ValidateContext(x) != Ok then Processed(ValidateContext(x), [], before)
    else if x.policy == NoSecurity then Processed(Ok, apdu, before)
    else if |apdu| < HEADER_SIZE + TAG_SIZE then Processed(InvalidArgument, [], before)
    else if apdu[0] != SECURITY_CONTROL then Processed(AuthenticationFailed, [], before)
    else
      match GetKey(keys.encryption)
      case Refused(s) => Processed(s, [], before)
      case Done(ek) =>
        match GetKey(keys.authentication)
        case Refused(s) => Processed(s, [], before)
        case Done(ak) =>
          match c.open(ek, Nonce(x.remoteTitle, CounterOf(apdu)), Aad(ak), SealedOf(apdu))
          case Refused(s) => Processed(s, [], before)
          case Done(plain) =>
            var v := ValidateFor(before, x.remoteTitle, CounterOf(apdu));
            Processed(v.status, if v.status == Ok then plain else [], v.after)
  }

  class CipheredApduProcessor {
    const cipher: Aead
    const context: Context
    const keys: Keys
    const counters: InMemoryInvocationCounterStore

    constructor (cipher: Aead, context: Context, keys: Keys, counters: InMemoryInvocationCounterStore)
      ensures this.cipher == cipher && this.context == context && this.keys == keys && this.counters == counters
    {
      this.cipher := cipher;
      this.context := context;
      this.keys := keys;
      this.counters := counters;
    }

    method ProtectApdu(plain: Octets) returns (status: SecurityStatus, apdu: Octets)
      modifies counters
      ensures Processed(status, apdu, counters.Value()) == Protect(cipher, context, keys, old(counters.Value()), plain)
    {
      hide BigEndian;
      apdu := [];
      status := ValidateContext(context);
      if status != Ok {
        return status, apdu;
      }
      if context.policy == NoSecurity {
        return Ok, plain;
      }
      var encryption := GetKey(keys.encryption);
      if encryption.Refused? {
        return encryption.status, apdu;
      }
      var authentication := GetKey(keys.authentication);
      if authentication.Refused? {
        return authentication.status, apdu;
      }
      var counter;
      status, counter := counters.Next();
      if status != Ok {
        return status, apdu;
      }
      var sealed := cipher.seal(
        encryption.value, Nonce(context.localTitle, counter), Aad(authentication.value), plain);
      apdu := [SECURITY_CONTROL];
      apdu := apdu + BigEndian(counter, 4);
      apdu := apdu + sealed.cipherText;
      apdu := apdu + sealed.tag;
      return Ok, apdu;
    }

    method UnprotectApdu(apdu: Octets) returns (status: SecurityStatus, plain: Octets)
      modifies counters
      ensures Processed(status, plain, counters.Value()) == Unprotect(cipher, context, keys, old(counters.Value()), apdu)
    {
      hide BigEndian, FromBig;
      plain := [];
      status := ValidateContext(context);
      if status != Ok {
        return status, plain;
      }
      if context.policy == NoSecurity {
        return Ok, apdu;
      }
      if |apdu| < HEADER_SIZE + TAG_SIZE {
        return InvalidArgument, plain;
      }
      if apdu[0] != SECURITY_CONTROL {
        return AuthenticationFailed, plain;
      }
      var encryption := GetKey(keys.encryption);
      if encryption.Refused? {
        return encryption.status, plain;
      }
      var authentication := GetKey(keys.authentication);
      if authentication.Refused? {
        return authentication.status, plain;
      }
      var counter := CounterOf(apdu);
      var plaintext := cipher.open(
        encryption.value, Nonce(context.remoteTitle, counter), Aad(authentication.value), SealedOf(apdu));
      if plaintext.Refused? {
        return plaintext.status, plain;
      }
      status := counters.ValidateRemoteForSystemTitle(context.remoteTitle, counter);
      if status != Ok {
        return status, plain;
      }
      return Ok, plaintext.value;
    }
  }

  // ---- Runs ----

  /** A valid context that encrypts and authenticates, with both keys there. */
  ghost predicate Ciphers(c: Aead, x: Context, keys: Keys) {
    && Sound(c)
    && ValidateContext(x) == Ok && x.policy == AuthenticatedAndEncrypted
    && GetKey(keys.encryption).Done? && GetKey(keys.authentication).Done?
  }

  /** Two contexts of one link, both encrypting and authenticating under the same keys. */
  ghost predicate Linked(c: Aead, sender: Context, receiver: Context, keys: Keys) {
    && Ciphers(c, sender, keys) && Ciphers(c, receiver, keys)
    && sender.localTitle == receiver.remoteTitle
  }

  lemma ProtectedParts(counter: uint32, s: Sealed)
    requires |s.tag| == TAG_SIZE
    ensures var x := ProtectedOctets(counter, s);
      && |x| >= HEADER_SIZE + TAG_SIZE && x[0] == SECURITY_CONTROL
      && CounterOf(x) == counter && SealedOf(x) == s
  {
    hide BigEndian, FromBig;
    var x, b := ProtectedOctets(counter, s), BigEndian(counter, 4);
    assert x[1..5] == b;
    BigEndianRoundTrip(counter, 4);
    assert Pow256(4) == 0x1_0000_0000;
    assert x[5..|x| - 12] == s.cipherText && x[|x| - 12..] == s.tag;
  }

  /**
   A protected APDU, at whatever state of the receiver, is recovered exactly when its
   counter is not zero and above all counters accepted from that sender.
   */
  lemma RecoveryExact(c: Aead, sender: Context, receiver: Context, keys: Keys, at: Counters, plain: Octets, there: Counters)
    requires Linked(c, sender, receiver, keys)
    requires at.nextLocal != MAX_COUNTER
    ensures var p := Protect(c, sender, keys, at, plain);
      && p.status == Ok && p.after == at.(nextLocal := at.nextLocal + 1)
      && var u := Unprotect(c, receiver, keys, there, p.octets);
         var title := sender.localTitle;
         if at.nextLocal == 0 then u == Processed(InvalidInvocationCounter, [], there)
         else if title in there.byTitle && at.nextLocal <= there.byTitle[title] then u == Processed(ReplayDetected, [], there)
         else u == Processed(Ok, plain, there.(byTitle := there.byTitle[title := at.nextLocal]))
  {
    hide Sound, BigEndian, FromBig, ProtectedOctets, SealedOf, CounterOf, ValidateContext, Nonce, Aad, GetKey;
    var ek, ak := GetKey(keys.encryption).value, GetKey(keys.authentication).value;
    var n := Nonce(sender.localTitle, at.nextLocal);
    SealOpens(c, ek, n, Aad(ak), plain);
    ProtectedParts(at.nextLocal, c.seal(ek, n, Aad(ak), plain));
  }

  /** Whatever a receiver accepts is the sealing of what it returns, under a counter it had not accepted before. */
  lemma AcceptedIsSealed(c: Aead, x: Context, keys: Keys, before: Counters, apdu: Octets)
    requires Ciphers(c, x, keys)
    ensures var u := Unprotect(c, x, keys, before, apdu);
      && (u.status != Ok ==> u.octets == [] && u.after == before)
      && (u.status == Ok ==>
            && |apdu| >= HEADER_SIZE + TAG_SIZE
            && var n := CounterOf(apdu);
            && apdu == ProtectedOctets(n, c.seal(
                 GetKey(keys.encryption).value, Nonce(x.remoteTitle, n), Aad(GetKey(keys.authentication).value), u.octets))
            && n != 0 && (x.remoteTitle in before.byTitle ==> before.byTitle[x.remoteTitle] < n)
            && u.after == before.(byTitle := before.byTitle[x.remoteTitle := n]))
  {
    hide Sound, BigEndian, FromBig, ValidateContext, Nonce, Aad, GetKey, CounterOf;
    if |apdu| >= HEADER_SIZE + TAG_SIZE && apdu[0] == SECURITY_CONTROL {
      var n := CounterOf(apdu);
      OpenedIsSealed(c, GetKey(keys.encryption).value, Nonce(x.remoteTitle, n), Aad(GetKey(keys.authentication).value),
        SealedOf(apdu));
      PartsOfApdu(apdu);
    }
  }

  lemma PartsOfApdu(apdu: Octets)
    requires |apdu| >= HEADER_SIZE + TAG_SIZE && apdu[0] == SECURITY_CONTROL
    ensures ProtectedOctets(CounterOf(apdu), SealedOf(apdu)) == apdu
  {
    BigEndianOfValue(apdu[1..5]);
    hide BigEndian, FromBig;
    assert |apdu[1..5]| == 4;
    assert BigEndian(CounterOf(apdu), 4) == apdu[1..5];
    assert apdu == [apdu[0]] + apdu[1..5] + apdu[5..|apdu| - 12] + apdu[|apdu| - 12..];
  }

  /** The APDUs a sender protects one after the other, starting from a counter. */
  function ProtectAll(c: Aead, x: Context, keys: Keys, before: Counters, plains: seq<Octets>): seq<Processed>
    decreases |plains|
  {
    if plains == [] then []
    else
      var p := Protect(c, x, keys, before, plains[0]);
      [p] + ProtectAll(c, x, keys, p.after, plains[1..])
  }

  /**
   Issued counters follow each other: they never repeat and never wrap, and once they
   are used up nothing is protected any more.
   */
  lemma {:induction false} CountersNeverRepeat(c: Aead, x: Context, keys: Keys, before: Counters, plains: seq<Octets>, i: nat)
    requires Ciphers(c, x, keys)
    requires i < |plains|
    ensures |ProtectAll(c, x, keys, before, plains)| == |plains|
    ensures var p := ProtectAll(c, x, keys, before, plains)[i];
      if before.nextLocal + i < MAX_COUNTER then
        && p == Protect(c, x, keys, before.(nextLocal := before.nextLocal + i), plains[i])
        && p.status == Ok && |p.octets| >= HEADER_SIZE && CounterOf(p.octets) == before.nextLocal + i
        && p.after.nextLocal == before.nextLocal + i + 1
      else p.status == InvocationCounterExhausted && p.octets == [] && p.after.nextLocal == MAX_COUNTER
    decreases |plains|
  {
    hide Sound, BigEndian, FromBig, ProtectedOctets, CounterOf, ValidateContext, Nonce, Aad, GetKey, Ciphers;
    var p := Protect(c, x, keys, before, plains[0]);
    ProtectStatus(c, x, keys, before, plains[0]);
    if i == 0 {
      assert before.(nextLocal := before.nextLocal + 0) == before;
      if |plains| > 1 {
        CountersNeverRepeat(c, x, keys, p.after, plains[1..], 0);
      } else {
        assert ProtectAll(c, x, keys, p.after, []) == [];
      }
    } else {
      CountersNeverRepeat(c, x, keys, p.after, plains[1..], i - 1);
    }
  }

  lemma ProtectStatus(c: Aead, x: Context, keys: Keys, before: Counters, plain: Octets)
    requires Ciphers(c, x, keys)
    ensures var p := Protect(c, x, keys, before, plain);
      if before.nextLocal < MAX_COUNTER then
        && p.status == Ok && |p.octets| >= HEADER_SIZE && CounterOf(p.octets) == before.nextLocal
        && p.after == before.(nextLocal := before.nextLocal + 1)
      else p == Processed(InvocationCounterExhausted, [], before)
  {
    hide Sound, BigEndian, FromBig, ProtectedOctets, SealedOf, CounterOf, ValidateContext, Nonce, Aad, GetKey;
    if before.nextLocal < MAX_COUNTER {
      var ek, ak := GetKey(keys.encryption).value, GetKey(keys.authentication).value;
      var n := Nonce(x.localTitle, before.nextLocal);
      SealOpens(c, ek, n, Aad(ak), plain);
      ProtectedParts(before.nextLocal, c.seal(ek, n, Aad(ak), plain));
    }
  }

  /**
   A protected APDU written out: security control, counter, cipher text and tag. Its nonce
   is the sender's title followed by its own octets 1 to 4, and what is authenticated with
   it is the security control and the authentication key.
   */
  lemma ProtectedOnTheLine(c: Aead, x: Context, keys: Keys, before: Counters, plain: Octets)
    requires Ciphers(c, x, keys) && before.nextLocal < MAX_COUNTER
    ensures var p := Protect(c, x, keys, before, plain);
      && |p.octets| == 5 + |plain| + 12
      && p.octets[..5] == [0x30] + Octets4(before.nextLocal)
      && Sealed(p.octets[5..5 + |plain|], p.octets[5 + |plain|..]) ==
         c.seal(keys.encryption.value, x.localTitle + p.octets[1..5], [0x30] + keys.authentication.value, plain)
  {
    hide Sound, BigEndian, ValidateContext;
    var ek, ak := GetKey(keys.encryption).value, GetKey(keys.authentication).value;
    var n := before.nextLocal;
    SealOpens(c, ek, Nonce(x.localTitle, n), Aad(ak), plain);
    BigEndianWritten(n);
    var s := c.seal(ek, Nonce(x.localTitle, n), Aad(ak), plain);
    var y := ProtectedOctets(n, s);
    assert y[..5] == [0x30] + Octets4(n) && y[1..5] == BigEndian(n, 4);
    assert y[5..5 + |plain|] == s.cipherText && y[5 + |plain|..] == s.tag;
  }

  /** A receiver opens an APDU under the same nonce: the sender's title and octets 1 to 4. */
  lemma NonceOfApdu(title: SystemTitle, apdu: Octets)
    requires |apdu| >= 5
    ensures Nonce(title, CounterOf(apdu)) == title + apdu[1..5]
  {
    BigEndianOfValue(apdu[1..5]);
  }

  /** No two APDUs of a run are sealed under the same nonce. */
  lemma NoncesDistinct(c: Aead, x: Context, keys: Keys, before: Counters, plains: seq<Octets>, i: nat, j: nat)
    requires Ciphers(c, x, keys) && i < j < |plains| && before.nextLocal + j < MAX_COUNTER
    ensures |ProtectAll(c, x, keys, before, plains)| == |plains|
    ensures var sent := ProtectAll(c, x, keys, before, plains);
      && |sent[i].octets| >= 5 && |sent[j].octets| >= 5
      && x.localTitle + sent[i].octets[1..5] != x.localTitle + sent[j].octets[1..5]
  {
    hide Ciphers, Protect, ProtectAll, CounterOf, BigEndian, FromBig;
    CountersNeverRepeat(c, x, keys, before, plains, i);
    CountersNeverRepeat(c, x, keys, before, plains, j);
    var a, b := ProtectAll(c, x, keys, before, plains)[i].octets, ProtectAll(c, x, keys, before, plains)[j].octets;
    CountersApart(a, b);
    assert (x.localTitle + a[1..5])[8..] == a[1..5] && (x.localTitle + b[1..5])[8..] == b[1..5];
  }

  lemma CountersApart(a: Octets, b: Octets)
    requires |a| >= 5 && |b| >= 5 && CounterOf(a) != CounterOf(b)
    ensures a[1..5] != b[1..5]
  {
  }

  /** The keys are there and have 16 octets each. */
  predicate GoodKeys(keys: Keys) {
    && keys.encryption.Done? && |keys.encryption.value| == 16
    && keys.authentication.Done? && |keys.authentication.value| == 16
  }

  predicate GoodContext(x: Context) {
    && x.suite == 0 && x.clientSap != 0 && x.serverSap != 0
    && (x.policy == NoSecurity || x.policy == AuthenticatedAndEncrypted)
    && (x.policy != NoSecurity ==> x.localTitle != seq(8, _ => 0) && x.remoteTitle != seq(8, _ => 0))
  }

  /**
   Exactly when a sender can protect: suite 0, both stations, no security at all or the one
   supported policy with titles that are not all zero, both keys, and counters left.
   */
  lemma ProtectExact(c: Aead, x: Context, keys: Keys, before: Counters, plain: Octets)
    ensures Protect(c, x, keys, before, plain).status == Ok <==>
      GoodContext(x) && (x.policy == NoSecurity || (GoodKeys(keys) && before.nextLocal != 0xffff_ffff))
    ensures x.policy == NoSecurity && GoodContext(x) ==>
      && Protect(c, x, keys, before, plain) == Processed(Ok, plain, before)
      && Unprotect(c, x, keys, before, plain) == Processed(Ok, plain, before)
    ensures Protect(c, x, keys, before, plain).status != Ok ==>
      Protect(c, x, keys, before, plain) == Processed(Protect(c, x, keys, before, plain).status, [], before)
  {
    hide BigEndian, FromBig, Nonce, ProtectedOctets, ValidTitle;
    ZeroTitle(x.localTitle);
    ZeroTitle(x.remoteTitle);
  }

  lemma ZeroTitle(t: SystemTitle)
    ensures ValidTitle(t) <==> t != seq(8, _ => 0)
  {
    var zero: Octets := seq(8, _ => 0);
    if !ValidTitle(t) {
      assert t == zero;
    } else {
      var i :| 0 <= i < 8 && t[i] != 0;
      assert zero[i] == 0;
    }
  }

  /** The receiver's counters after a series of APDUs. */
  function ReceiverAfter(c: Aead, x: Context, keys: Keys, before: Counters, apdus: seq<Octets>): Counters {
    if apdus == [] then before
    else Unprotect(c, x, keys, ReceiverAfter(c, x, keys, before, apdus[..|apdus| - 1]), apdus[|apdus| - 1]).after
  }

  /** The APDUs that arrive when the sender's APDUs come in a given order, with gaps and repetitions. */
  function Arrivals(sent: seq<Processed>, order: seq<nat>): (r: seq<Octets>)
    requires forall k :: 0 <= k < |order| ==> order[k] < |sent|
    ensures |r| == |order|
  {
    seq(|order|, k requires 0 <= k < |order| => sent[order[k]].octets)
  }

  /** The sender's counters are fresh for a receiver: at least 1, above what it accepted, and not used up. */
  ghost predicate FreshFor(sender: Context, at: Counters, count: nat, there: Counters) {
    && 1 <= at.nextLocal && at.nextLocal + count <= MAX_COUNTER
    && (sender.localTitle in there.byTitle ==> there.byTitle[sender.localTitle] < at.nextLocal)
  }

  /** All positions in an order lie below `bound`. */
  predicate Below(order: seq<nat>, bound: nat) {
    forall k :: 0 <= k < |order| ==> order[k] < bound
  }

  /** The highest counter a receiver holds is that of the latest APDU that has arrived. */
  ghost predicate Holds(title: SystemTitle, start: uint32, order: seq<nat>, there: Counters, now: Counters) {
    if order == [] then now == there
    else
      && title in now.byTitle
      && (exists k :: 0 <= k < |order| && now.byTitle[title] == start + order[k])
      && (forall k :: 0 <= k < |order| ==> start + order[k] <= now.byTitle[title])
  }

  lemma OneArrival(
    c: Aead, sender: Context, receiver: Context, keys: Keys, at: Counters, plains: seq<Octets>, there: Counters,
    order: seq<nat>, now: Counters, next: nat)
    requires Linked(c, sender, receiver, keys)
    requires FreshFor(sender, at, |plains|, there)
    requires Below(order, |plains|) && next < |plains|
    requires Holds(sender.localTitle, at.nextLocal, order, there, now)
    ensures |ProtectAll(c, sender, keys, at, plains)| == |plains|
    ensures var u := Unprotect(c, receiver, keys, now, ProtectAll(c, sender, keys, at, plains)[next].octets);
      && u.status == (if Below(order, next) then Ok else ReplayDetected)
      && u.octets == (if Below(order, next) then plains[next] else [])
      && Holds(sender.localTitle, at.nextLocal, order + [next], there, u.after)
  {
    hide Ciphers, Protect, Unprotect, CounterOf, ProtectAll;
    CountersNeverRepeat(c, sender, keys, at, plains, next);
    RecoveryExact(c, sender, receiver, keys, at.(nextLocal := at.nextLocal + next), plains[next], now);
    var all := order + [next];
    assert all[|order|] == next;
    assert forall k :: 0 <= k < |order| ==> all[k] == order[k];
    if order != [] && !Below(order, next) {
      var k :| 0 <= k < |order| && now.byTitle[sender.localTitle] == at.nextLocal + order[k];
      assert all[k] == order[k];
    }
  }

  lemma {:induction false} ReceiverHolds(
    c: Aead, sender: Context, receiver: Context, keys: Keys, at: Counters, plains: seq<Octets>, there: Counters,
    order: seq<nat>)
    requires Linked(c, sender, receiver, keys)
    requires FreshFor(sender, at, |plains|, there) && Below(order, |plains|)
    requires |ProtectAll(c, sender, keys, at, plains)| == |plains|
    ensures var apdus := Arrivals(ProtectAll(c, sender, keys, at, plains), order);
      Holds(sender.localTitle, at.nextLocal, order, there, ReceiverAfter(c, receiver, keys, there, apdus))
    decreases |order|
  {
    hide Linked, Unprotect, ProtectAll, FreshFor;
    if order != [] {
      var init, last := order[..|order| - 1], order[|order| - 1];
      var sent := ProtectAll(c, sender, keys, at, plains);
      ReceiverHolds(c, sender, receiver, keys, at, plains, there, init);
      var apdus := Arrivals(sent, order);
      assert apdus[..|order| - 1] == Arrivals(sent, init);
      OneArrival(c, sender, receiver, keys, at, plains, there, init,
        ReceiverAfter(c, receiver, keys, there, Arrivals(sent, init)), last);
      assert order == init + [last];
    }
  }

  /**
   Whatever the order in which protected APDUs arrive, with gaps and repetitions, each
   one is recovered octet for octet exactly when everything that arrived before it was
   sent before it; otherwise it is refused as a replay.
   */
  lemma CipheredRun(
    c: Aead, sender: Context, receiver: Context, keys: Keys, at: Counters, plains: seq<Octets>, there: Counters,
    order: seq<nat>, k: nat)
    requires Linked(c, sender, receiver, keys)
    requires FreshFor(sender, at, |plains|, there) && Below(order, |plains|) && k < |order|
    ensures |ProtectAll(c, sender, keys, at, plains)| == |plains|
    ensures var apdus := Arrivals(ProtectAll(c, sender, keys, at, plains), order);
      var u := Unprotect(c, receiver, keys, ReceiverAfter(c, receiver, keys, there, apdus[..k]), apdus[k]);
      if forall j :: 0 <= j < k ==> order[j] < order[k]
      then u.status == Ok && u.octets == plains[order[k]]
      else u.status == ReplayDetected && u.octets == []
  {
    hide Ciphers, Unprotect, ProtectAll, FreshFor, ReceiverAfter, Holds;
    assert order[k] < |plains|;
    CountersNeverRepeat(c, sender, keys, at, plains, order[k]);
    var sent := ProtectAll(c, sender, keys, at, plains);
    var apdus := Arrivals(sent, order);
    var init := order[..k];
    assert Arrivals(sent, init) == apdus[..k];
    ReceiverHolds(c, sender, receiver, keys, at, plains, there, init);
    OneArrival(c, sender, receiver, keys, at, plains, there, init,
      ReceiverAfter(c, receiver, keys, there, apdus[..k]), order[k]);
    assert Below(init, order[k]) <==> forall j :: 0 <= j < k ==> order[j] < order[k] by {
      assert forall j :: 0 <= j < k ==> init[j] == order[j];
    }
  }
}
