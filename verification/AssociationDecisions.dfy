/**
 Exactly which requests a server accepts and which replies a client accepts, whoever sent
 them.
 */
module AssociationDecisions {
  import opened Bytes
  import opened Axdr
  import opened Ber
  import opened Initiate
  import opened Acse
  import opened Association
  import Numbers
  import P = Apdu

  // ---- Fields ----

  predicate Absent(fields: seq<Field>, tag: byte) {
    forall i :: 0 <= i < |fields| ==> fields[i].tag != tag
  }

  predicate FirstAt(fields: seq<Field>, tag: byte, i: nat) {
    i < |fields| && fields[i].tag == tag && forall j :: 0 <= j < i ==> fields[j].tag != tag
  }

  predicate OnlyAt(fields: seq<Field>, tag: byte, i: nat) {
    FirstAt(fields, tag, i) && forall j :: i < j < |fields| ==> fields[j].tag != tag
  }

  lemma {:induction false} MatchingEmpty(fields: seq<Field>, tag: byte)
    ensures Matching(fields, tag) == [] <==> Absent(fields, tag)
  {
    if fields != [] {
      MatchingEmpty(fields[1..], tag);
      if Matching(fields, tag) == [] {
        assert forall i :: 1 <= i < |fields| ==> fields[i] == fields[1..][i - 1];
      } else if fields[0].tag != tag {
        var i :| 0 <= i < |fields[1..]| && fields[1..][i].tag == tag;
        assert fields[i + 1].tag == tag;
      }
    }
  }

  lemma {:induction false} MatchingFirst(fields: seq<Field>, tag: byte, i: nat)
    requires FirstAt(fields, tag, i)
    ensures Matching(fields, tag) != [] && Matching(fields, tag)[0] == fields[i]
    ensures |Matching(fields, tag)| == 1 <==> OnlyAt(fields, tag, i)
  {
    if i == 0 {
      MatchingEmpty(fields[1..], tag);
      assert forall j :: 0 < j < |fields| ==> fields[j] == fields[1..][j - 1];
      if Absent(fields[1..], tag) {
        assert OnlyAt(fields, tag, i);
      } else {
        var j :| 0 <= j < |fields[1..]| && fields[1..][j].tag == tag;
        assert fields[j + 1].tag == tag;
      }
    } else {
      var rest := fields[1..];
      assert forall j :: 0 <= j < |rest| ==> rest[j] == fields[j + 1];
      MatchingFirst(rest, tag, i - 1);
      if OnlyAt(rest, tag, i - 1) {
        forall j | i < j < |fields|
          ensures fields[j].tag != tag
        {
          assert rest[j - 1] == fields[j];
        }
      }
    }
  }

  lemma {:induction false} FirstExists(fields: seq<Field>, tag: byte) returns (i: nat)
    requires !Absent(fields, tag)
    ensures FirstAt(fields, tag, i)
  {
    if fields[0].tag == tag {
      i := 0;
    } else {
      var rest := fields[1..];
      assert !Absent(rest, tag) by {
        var k :| 0 <= k < |fields| && fields[k].tag == tag;
        assert rest[k - 1].tag == tag;
      }
      i := FirstExists(rest, tag);
      i := i + 1;
      forall j | 0 <= j < i
        ensures fields[j].tag != tag
      {
        if j > 0 {
          assert rest[j - 1] == fields[j];
        }
      }
    }
  }

  /** A field holds a value exactly when it is two elements with one octet of length each, one inside the other. */
  lemma ValueExact(f: Field, tag: byte, inner: byte, value: Octets)
    ensures DecodeValue(f, tag, inner) == Some(value) <==>
      f.tag == tag && |value| <= 253 && f.encoded == [tag, |value| + 2, inner, |value|] + value
  {
    var e := f.encoded;
    if DecodeValue(f, tag, inner) == Some(value) {
      assert e == e[..4] + e[4..];
      assert e[..4] == [e[0], e[1], e[2], e[3]];
    }
  }

  // ---- The server ----

  /** A field that is there once, with these octets. */
  ghost predicate Single(fields: seq<Field>, tag: byte, encoded: Octets) {
    exists i: nat :: OnlyAt(fields, tag, i) && fields[i].encoded == encoded
  }

  /** What low-level security asks for: the requirement, the mechanism and the credential, once each. */
  ghost predicate Authenticates(fields: seq<Field>, credential: Octets) {
    && Single(fields, 0x8a, [0x8a, 0x02, 0x07, 0x80])
    && Single(fields, 0x8b, [0x8b, 0x07, 0x60, 0x85, 0x74, 0x05, 0x08, 0x02, 0x01])
    && |credential| <= 253
    && Single(fields, 0xac, [0xac, |credential| + 2, 0x80, |credential|] + credential)
  }

  /** The title a request names: the first calling title field must hold one, and no field means none. */
  ghost predicate Names(fields: seq<Field>, title: Octets) {
    if Absent(fields, 0xa6) then title == []
    else |title| <= 253 && exists i: nat :: FirstAt(fields, 0xa6, i) && fields[i].encoded == [0xa6, |title| + 2, 0x04, |title|] + title
  }

  ghost predicate Acceptable(o: ServerOptions, a: Aarq) {
    && (o.mode == NoAuthentication ==> Absent(a.fields, 0x8a) && Absent(a.fields, 0x8b) && Absent(a.fields, 0xac))
    && (o.mode == LowLevelSecurity ==> Authenticates(a.fields, o.credential))
    && (exists title :: Names(a.fields, title))
    && a.initiate.version != 0 && a.initiate.maxPduSize != 0
  }

  lemma SingleExact(fields: seq<Field>, tag: byte, encoded: Octets)
    ensures Single(fields, tag, encoded) <==>
      |Matching(fields, tag)| == 1 && Matching(fields, tag)[0].encoded == encoded
  {
    hide Matching;
    MatchingEmpty(fields, tag);
    if !Absent(fields, tag) {
      var i := FirstExists(fields, tag);
      MatchingFirst(fields, tag, i);
      if Single(fields, tag, encoded) {
        var k: nat :| OnlyAt(fields, tag, k) && fields[k].encoded == encoded;
        MatchingFirst(fields, tag, k);
      }
    }
  }

  lemma {:induction false} MatchingTag(fields: seq<Field>, tag: byte)
    ensures forall i :: 0 <= i < |Matching(fields, tag)| ==> Matching(fields, tag)[i].tag == tag
  {
    if fields != [] {
      MatchingTag(fields[1..], tag);
    }
  }

  lemma CheckExact(fields: seq<Field>, credential: Octets)
    ensures ValidateLowLevel(fields, credential) == Ok <==> Authenticates(fields, credential)
  {
    hide Matching, Single, DecodeValue;
    SingleExact(fields, 0x8a, [0x8a, 0x02, 0x07, 0x80]);
    SingleExact(fields, 0x8b, [0x8b, 0x07, 0x60, 0x85, 0x74, 0x05, 0x08, 0x02, 0x01]);
    MatchingTag(fields, 0xac);
    if |Matching(fields, 0xac)| == 1 {
      ValueExact(Matching(fields, 0xac)[0], 0xac, 0x80, credential);
    }
    if |credential| <= 253 {
      SingleExact(fields, 0xac, [0xac, |credential| + 2, 0x80, |credential|] + credential);
    }
  }

  /** The title the server takes over. */
  lemma TitleExact(fields: seq<Field>, title: Octets)
    ensures Names(fields, title) <==>
      var titles := Matching(fields, 0xa6);
      if titles == [] then title == [] else DecodeValue(titles[0], 0xa6, 0x04) == Some(title)
  {
    hide Matching, DecodeValue;
    MatchingEmpty(fields, 0xa6);
    if !Absent(fields, 0xa6) {
      var i := FirstExists(fields, 0xa6);
      MatchingFirst(fields, 0xa6, i);
      MatchingTag(fields, 0xa6);
      ValueExact(Matching(fields, 0xa6)[0], 0xa6, 0x04, title);
      if Names(fields, title) {
        var k: nat :| FirstAt(fields, 0xa6, k) && fields[k].encoded == [0xa6, |title| + 2, 0x04, |title|] + title;
        MatchingFirst(fields, 0xa6, k);
      }
    }
  }

  /**
   Exactly which requests a server accepts, whoever sent them, and what it then holds: its
   own terms and the title the request names.
   */
  lemma AcceptExact(o: ServerOptions, p: Party, request: Option<Octets>)
    requires ValidateServer(o) == Ok && p.state != Closed && p.state != Associated
    ensures var after := Accept(o, p, request).party;
      && (after.state == Associated <==>
            request.Some? && DecodeAarq(request.value).Got? && Acceptable(o, DecodeAarq(request.value).value))
      && (after.state == Associated ==>
            && Names(DecodeAarq(request.value).value.fields, after.result.callingTitle)
            && after.result == AssociationResult(o.version, o.conformance, o.maxPduSize, o.vaaName,
                 Some(0), Some(14), after.result.callingTitle, []))
      && (after.state != Associated ==> after.state == Open)
  {
    hide DecodeAarq, BuildAare, DecodeReply, Matching, ValidateLowLevel, DecodeValue, Names, Authenticates;
    ReplyArrives(o);
    if request.Some? && DecodeAarq(request.value).Got? {
      var fields := DecodeAarq(request.value).value.fields;
      MatchingEmpty(fields, 0x8a);
      MatchingEmpty(fields, 0x8b);
      MatchingEmpty(fields, 0xac);
      CheckExact(fields, o.credential);
      var titles := Matching(fields, 0xa6);
      var title := if titles == [] then [] else
        match DecodeValue(titles[0], 0xa6, 0x04) case None => [] case Some(t) => t;
      TitleExact(fields, title);
      if t :| Names(fields, t) {
        TitleExact(fields, t);
      }
    }
  }

  // ---- The client ----

  /**
   Exactly which replies make a client associated: an AARE without a result other than 0
   and with terms that are not zero; a rejection is reported with its result and diagnostic.
   */
  lemma EstablishExact(p: Party, reply: Octets)
    ensures var call := EstablishEnd(p, Some(reply));
      if DecodeAare(reply).No? then call.status == DecodeFailed && call.party == Party(Open, EmptyResult())
      else
        var a := DecodeAare(reply).value;
        && (call.party.state == Associated <==>
              (a.result.None? || a.result.value == 0) && a.initiate.version != 0 && a.initiate.maxPduSize != 0)
        && (call.party.state != Associated ==> call.party.state == Open && call.status != Ok)
        && (a.result.Some? && a.result.value != 0 <==> call.status == AssociationRejected)
        && call.party.result.aareResult == a.result && call.party.result.aareDiagnostic == a.diagnostic
        && (call.party.state == Associated ==>
              var r := call.party.result;
              && r.version == a.initiate.version && r.conformance == a.initiate.conformance
              && r.maxPduSize == a.initiate.maxPduSize && r.vaaName == a.initiate.vaaName)
  {
    hide DecodeAare;
  }

  /** One octet as a signed number. */
  function SignedOctet(n: byte): int {
    if n < 128 then n else n - 256
  }

  /** A result stands in its field as an integer, a diagnostic in one element more; other fields note nothing. */
  lemma NotedInteger(a: Aare, n: byte, other: Tlv)
    requires other.tag != 0xa2 && other.tag != 0xa3
    ensures NoteInteger(a, Tlv(0xa2, [0x02, 0x01, n])) == P.Got(a.(result := Some(SignedOctet(n))), [])
    ensures NoteInteger(a, Tlv(0xa3, [0xa1, 0x03, 0x02, 0x01, n])) == P.Got(a.(diagnostic := Some(SignedOctet(n))), [])
    ensures NoteInteger(a, other) == P.Got(a, [])
  {
    hide ReadTlv;
    TlvRoundTrip(0x02, [n], []);
    assert TlvOctets(0x02, [n]) + [] == [0x02, 0x01, n];
    TlvRoundTrip(0xa1, [0x02, 0x01, n], []);
    assert TlvOctets(0xa1, [0x02, 0x01, n]) + [] == [0xa1, 0x03, 0x02, 0x01, n];
    Numbers.FromBigSnoc([], n);
    assert [] + [n] == [n];
    assert Numbers.Pow256(1) == 256;
  }

  /** A field from which a client reads a title: responding or calling, with short lengths. */
  predicate TitleField(f: Field, title: Octets) {
    (f.tag == 0xa4 || f.tag == 0xa6) && |title| <= 253 && f.encoded == [f.tag, |title| + 2, 0x04, |title|] + title
  }

  ghost predicate NoTitle(f: Field) {
    forall title :: !TitleField(f, title)
  }

  /** The title a client takes from a reply is that of the first field that holds one. */
  lemma {:induction false} ReplyTitleExact(fields: seq<Field>, i: nat, title: Octets)
    requires i <= |fields| && (forall j :: 0 <= j < i ==> NoTitle(fields[j]))
    ensures i == |fields| ==> RespondingTitle(fields) == []
    ensures i < |fields| && TitleField(fields[i], title) ==> RespondingTitle(fields) == title
  {
    hide DecodeValue;
    if i > 0 {
      var rest := fields[1..];
      assert forall j :: 0 <= j < |rest| ==> rest[j] == fields[j + 1];
      ReplyTitleExact(rest, i - 1, title);
      var f := fields[0];
      if DecodeValue(f, f.tag, 0x04).Some? {
        ValueExact(f, f.tag, 0x04, DecodeValue(f, f.tag, 0x04).value);
        assert !TitleField(f, DecodeValue(f, f.tag, 0x04).value);
      }
    } else if fields != [] {
      ValueExact(fields[0], fields[0].tag, 0x04, title);
    }
  }
}
