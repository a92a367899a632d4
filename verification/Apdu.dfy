/**
 Status codes, the reading of octet strings from the front, and what an encoder emits:
 the vocabulary of every APDU codec.
 */
module Apdu {
  import opened Bytes
  import opened Numbers

  datatype ApduStatus =
    | Ok
    | NeedMoreData
    | OutputBufferTooSmall
    | InvalidArgument
    | InvalidTag
    | InvalidLength
    | InvalidBer
    | InvalidAxdr
    | InvalidChoice
    | InvalidData
    | InvalidInvokeId
    | InvalidDescriptor
    | InvalidConformance
    | UnsupportedApdu
    | UnsupportedAcseField
    | UnsupportedXdlmsService
    | UnsupportedDataType
    | UnsupportedFeature
    | PduTooLarge
    | InternalError

  type ApduFailure = s: ApduStatus | s != Ok witness NeedMoreData

  /** A value read from the front of the input and what follows it, or why there is none. */
  datatype Read<+T> = Got(value: T, rest: Octets) | No(status: ApduFailure)

  /** More input does not change a value that was read, nor a failure other than a lack of input. */
  predicate StaysRead<T(==)>(before: Read<T>, after: Read<T>, more: Octets) {
    match before
    case Got(v, rest) => after == Got(v, rest + more)
    case No(s) => s != NeedMoreData ==> after == before
  }

  // ---- Lists, read in a loop ----

  /** What the rest of a list makes of the elements read so far. */
  ghost predicate Remains<T(!new)>(all: Read<seq<T>>, done: seq<T>, later: Read<seq<T>>) {
    match later
    case Got(vs, rest) => all == Got(done + vs, rest)
    case No(e) => all == No(e)
  }

  lemma RemainsStart<T(!new)>(all: Read<seq<T>>)
    ensures Remains(all, [], all)
  {
    if all.Got? {
      assert [] + all.value == all.value;
    }
  }

  /** One more element. */
  lemma RemainsNext<T(!new)>(all: Read<seq<T>>, done: seq<T>, v: T, later: Read<seq<T>>)
    requires later.Got? ==> Remains(all, done, Got([v] + later.value, later.rest))
    requires later.No? ==> Remains(all, done, later)
    ensures Remains(all, done + [v], later)
  {
    if later.Got? {
      assert done + ([v] + later.value) == (done + [v]) + later.value;
    }
  }

  lemma RemainsEnd<T(!new)>(all: Read<seq<T>>, done: seq<T>, rest: Octets)
    requires Remains(all, done, Got([], rest))
    ensures all == Got(done, rest)
  {
    assert done + [] == done;
  }

  // ---- Reading ----

  function ReadU8(s: Octets): Read<byte> {
    if s == [] then No(NeedMoreData) else Got(s[0], s[1..])
  }

  function ReadBytes(s: Octets, n: nat): Read<Octets> {
    if |s| < n then No(NeedMoreData) else Got(s[..n], s[n..])
  }

  function ReadNumber(s: Octets, n: nat): Read<nat> {
    if |s| < n then No(NeedMoreData) else Got(FromBig(s[..n]), s[n..])
  }

  lemma ReadU8Front(b: byte, tail: Octets)
    ensures ReadU8([b] + tail) == Got(b, tail)
  {
    assert ([b] + tail)[1..] == tail;
  }

  lemma ReadBytesFront(x: Octets, tail: Octets)
    ensures ReadBytes(x + tail, |x|) == Got(x, tail)
  {
    assert (x + tail)[..|x|] == x && (x + tail)[|x|..] == tail;
  }

  lemma ReadNumberFront(v: nat, n: nat, tail: Octets)
    ensures ReadNumber(BigEndian(v, n) + tail, n) == Got(v % Pow256(n), tail)
  {
    var x := BigEndian(v, n);
    assert (x + tail)[..n] == x && (x + tail)[n..] == tail;
    BigEndianRoundTrip(v, n);
  }

  lemma ReadsStay(s: Octets, n: nat, more: Octets)
    ensures StaysRead(ReadU8(s), ReadU8(s + more), more)
    ensures StaysRead(ReadBytes(s, n), ReadBytes(s + more, n), more)
    ensures StaysRead(ReadNumber(s, n), ReadNumber(s + more, n), more)
  {
    hide FromBig;
    if s != [] {
      assert (s + more)[1..] == s[1..] + more;
    }
    if n <= |s| {
      assert (s + more)[..n] == s[..n];
      assert (s + more)[n..] == s[n..] + more;
    }
  }

  // ---- Emission ----

  /** What an encoder writes before it stops, and why it stops; Ok when it is done. */
  datatype Emission = Emission(octets: Octets, fault: ApduStatus)

  function Plain(octets: Octets): Emission {
    Emission(octets, Ok)
  }

  function Then(a: Emission, b: Emission): Emission {
    if a.fault != Ok then a else Emission(a.octets + b.octets, b.fault)
  }

  /** What an encoder reports that has room for `room` octets. */
  function StatusIn(e: Emission, room: nat): ApduStatus {
    if |e.octets| > room then OutputBufferTooSmall else e.fault
  }

  lemma ThenStatus(a: Emission, b: Emission, room: nat)
    ensures StatusIn(a, room) != Ok ==> StatusIn(Then(a, b), room) == StatusIn(a, room)
    ensures StatusIn(a, room) == Ok ==> StatusIn(Then(a, b), room) == StatusIn(b, room - |a.octets|)
  {
  }

  lemma ThenAssociates(a: Emission, b: Emission, c: Emission)
    ensures Then(Then(a, b), c) == Then(a, Then(b, c))
  {
    assert (a.octets + b.octets) + c.octets == a.octets + (b.octets + c.octets);
  }

  lemma ThenNothing(a: Emission)
    ensures Then(a, Plain([])) == a && Then(Plain([]), a) == a
  {
    assert a.octets + [] == a.octets && [] + a.octets == a.octets;
  }
}
