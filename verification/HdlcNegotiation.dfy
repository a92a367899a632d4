/**
 The SNRM/UA parameter block: its encoding, the loop that parses it, and the
 negotiation rule.
 */
module HdlcNegotiation {
  import opened Bytes
  import opened Numbers
  import opened HdlcTypes

  /** Limits of one endpoint; zero means the protocol default. */
  datatype Limits = Limits(
    transmitLength: nat, receiveLength: nat, transmitWindow: byte, receiveWindow: byte)

  const DEFAULT_NEGOTIATION := Limits(128, 128, 1, 1)

  function Normalise(l: Limits): (r: Limits)
    ensures r.transmitLength > 0 && r.receiveLength > 0 && r.transmitWindow > 0 && r.receiveWindow > 0
  {
    Limits(
      if l.transmitLength == 0 then 128 else l.transmitLength,
      if l.receiveLength == 0 then 128 else l.receiveLength,
      if l.transmitWindow == 0 then 1 else l.transmitWindow,
      if l.receiveWindow == 0 then 1 else l.receiveWindow)
  }

  /** What tags 05h to 08h carry, from the point of view of the client. */
  datatype Params = Params(maxInfoTx: nat, maxInfoRx: nat, windowTx: nat, windowRx: nat)

  const DEFAULT_PARAMS := Params(128, 128, 1, 1)

  function Min(a: nat, b: nat): nat {
    if a <= b then a else b
  }

  /** Each proposal is cut down to what the other end can do in that direction. */
  function Negotiate(proposed: Params, local: Limits): Params {
    Params(
      Min(proposed.maxInfoTx, local.receiveLength),
      Min(proposed.maxInfoRx, local.transmitLength),
      Min(proposed.windowTx, local.receiveWindow),
      Min(proposed.windowRx, local.transmitWindow))
  }

  // ---- The block ----

  function Low(v: nat): byte {
    v % 256
  }

  function High(v: nat): byte {
    v / 256 % 256
  }

  /** Header 81 80 14, then lengths in two octets and windows in four. */
  function Block(p: Params): (r: Octets)
    ensures |r| == 23
  {
    [0x81, 0x80, 0x14,
     0x05, 0x02, High(p.maxInfoTx), Low(p.maxInfoTx),
     0x06, 0x02, High(p.maxInfoRx), Low(p.maxInfoRx),
     0x07, 0x04, 0, 0, 0, Low(p.windowTx),
     0x08, 0x04, 0, 0, 0, Low(p.windowRx)]
  }

  method ParseBeValue(data: Octets) returns (value: nat)
    requires |data| <= 4
    ensures value == FromBig(data)
  {
    value := 0;
    for i := 0 to |data|
      invariant value == FromBig(data[..i])
    {
      assert data[..i + 1][..i] == data[..i];
      value := value * 256 + data[i] as int;
    }
    assert data[..|data|] == data;
  }

  /** The parameters, and how many octets the block takes (none when there is no block). */
  datatype Parsed = Parsed(params: Params, consumed: nat)

  function Store(p: Params, tag: byte, value: nat): Result<Params> {
    if tag == 0x05 then Good(p.(maxInfoTx := value))
    else if tag == 0x06 then Good(p.(maxInfoRx := value))
    else if tag == 0x07 then Good(p.(windowTx := value))
    else if tag == 0x08 then Good(p.(windowRx := value))
    else Bad(UnsupportedFeature)
  }

  /** One tag, a length of one to four, and the value, over and over. */
  function ParseGroup(group: Octets, p: Params): Result<Params>
    decreases |group|
  {
    if group == [] then Good(p)
    else if |group| < 2 then Bad(InvalidFrameFormat)
    else
      var length := group[1] as int;
      if length == 0 || length > 4 || 2 + length > |group| then Bad(InvalidFrameFormat)
      else
        match Store(p, group[0], FromBig(group[2..2 + length]))
        case Bad(s) => Bad(s)
        case Good(q) => ParseGroup(group[2 + length..], q)
  }

  function ParseInfoField(data: Octets): Result<Parsed> {
    if |data| < 3 || data[0] != 0x81 || data[1] != 0x80 then Good(Parsed(DEFAULT_PARAMS, 0))
    else
      var end := 3 + data[2] as int;
      if end > |data| then Bad(InvalidFrameFormat)
      else
        match ParseGroup(data[3..end], DEFAULT_PARAMS)
        case Bad(s) => Bad(s)
        case Good(p) => Good(Parsed(p, end))
  }

  /** One tag of the block, read in place. */
  lemma GroupInPlace(data: Octets, pos: nat, end: nat, p: Params)
    requires pos < end <= |data|
    ensures ParseGroup(data[pos..end], p) ==
      if pos + 2 > end then Bad(InvalidFrameFormat)
      else
        var length := data[pos + 1] as int;
        if length == 0 || length > 4 || pos + 2 + length > end then Bad(InvalidFrameFormat)
        else
          match Store(p, data[pos], FromBig(data[pos + 2..pos + 2 + length]))
          case Bad(s) => Bad(s)
          case Good(q) => ParseGroup(data[pos + 2 + length..end], q)
  {
    hide FromBig, Store;
    if pos + 2 <= end {
      var length := data[pos + 1] as int;
      if pos + 2 + length <= end {
        SliceOfSlice(data, pos, end, 2, 2 + length);
        SliceOfSlice(data, pos, end, 2 + length, end - pos);
      }
    }
  }

  /** The loop over the tags of the block. */
  method ParseSnrmInfoField(data: Octets) returns (status: HdlcStatus, params: Params, consumed: nat)
    ensures match ParseInfoField(data)
            case Good(r) => status == Ok && params == r.params && consumed == r.consumed
            case Bad(s) => status == s
  {
    hide FromBig, ParseGroup;
    params := DEFAULT_PARAMS;
    consumed := 0;
    if |data| < 3 || data[0] != 0x81 || data[1] != 0x80 {
      return Ok, params, 0;
    }
    var end := 3 + data[2] as int;
    if end > |data| {
      return InvalidFrameFormat, params, 0;
    }
    consumed := end;
    var pos := 3;
    while pos < end
      invariant 3 <= pos <= end
      invariant ParseGroup(data[3..end], DEFAULT_PARAMS) == ParseGroup(data[pos..end], params)
    {
      GroupInPlace(data, pos, end, params);
      if pos + 2 > end {
        return InvalidFrameFormat, params, consumed;
      }
      var tag, length := data[pos], data[pos + 1] as int;
      pos := pos + 2;
      if length == 0 || length > 4 || pos + length > end {
        return InvalidFrameFormat, params, consumed;
      }
      var value := ParseBeValue(data[pos..pos + length]);
      pos := pos + length;
      match Store(params, tag, value) {
        case Bad(s) => return s, params, consumed;
        case Good(q) => params := q;
      }
    }
    assert data[pos..end] == [];
    EmptyGroup(params);
    return Ok, params, consumed;
  }

  // ---- Exactly which groups parse ----

  /** A tag and a value of one to four octets. */
  datatype Entry = Entry(tag: byte, value: Octets)

  predicate LegalEntry(e: Entry) {
    5 <= e.tag <= 8 && 1 <= |e.value| <= 4
  }

  predicate AllLegal(entries: seq<Entry>) {
    forall i :: 0 <= i < |entries| ==> LegalEntry(entries[i])
  }

  function Written(entries: seq<Entry>): Octets
    requires AllLegal(entries)
  {
    if entries == [] then []
    else [entries[0].tag, |entries[0].value|] + entries[0].value + Written(entries[1..])
  }

  /** The value of the last entry with a tag, or what it was before. */
  function LastOf(entries: seq<Entry>, tag: byte, before: nat): nat {
    if entries == [] then before
    else LastOf(entries[1..], tag, if entries[0].tag == tag then FromBig(entries[0].value) else before)
  }

  /** 5 and 6 are lengths, 7 and 8 windows; odd ones what the client transmits, even ones what it receives. */
  function Settled(entries: seq<Entry>, p: Params): Params {
    Params(LastOf(entries, 5, p.maxInfoTx), LastOf(entries, 6, p.maxInfoRx),
      LastOf(entries, 7, p.windowTx), LastOf(entries, 8, p.windowRx))
  }

  lemma LastOfOne(e: Entry, tag: byte, before: nat)
    ensures LastOf([e], tag, before) == if e.tag == tag then FromBig(e.value) else before
  {
    assert [e][1..] == [];
  }

  lemma OneSettled(e: Entry, p: Params)
    ensures Settled([e], p) == Params(
      if e.tag == 5 then FromBig(e.value) else p.maxInfoTx, if e.tag == 6 then FromBig(e.value) else p.maxInfoRx,
      if e.tag == 7 then FromBig(e.value) else p.windowTx, if e.tag == 8 then FromBig(e.value) else p.windowRx)
  {
    hide LastOf, FromBig;
    LastOfOne(e, 5, p.maxInfoTx);
    LastOfOne(e, 6, p.maxInfoRx);
    LastOfOne(e, 7, p.windowTx);
    LastOfOne(e, 8, p.windowRx);
  }

  lemma OneEntry(e: Entry, p: Params)
    requires LegalEntry(e)
    ensures Store(p, e.tag, FromBig(e.value)) == Good(Settled([e], p))
  {
    hide Settled, FromBig;
    OneSettled(e, p);
  }

  lemma SettledNext(entries: seq<Entry>, p: Params)
    requires entries != []
    ensures Settled(entries, p) == Settled(entries[1..], Settled([entries[0]], p))
  {
    hide FromBig;
    OneSettled(entries[0], p);
  }

  lemma {:induction false} EntriesParse(entries: seq<Entry>, p: Params)
    requires AllLegal(entries)
    ensures ParseGroup(Written(entries), p) == Good(Settled(entries, p))
  {
    hide FromBig, Store, ParseGroup;
    if entries == [] {
      EmptyGroup(p);
    } else {
      var e, q := entries[0], Settled([entries[0]], p);
      OneEntry(e, p);
      GroupStep(e.tag, e.value, Written(entries[1..]), p, q);
      EntriesParse(entries[1..], q);
      SettledNext(entries, p);
    }
  }

  lemma {:induction false} ParsedEntries(group: Octets, p: Params) returns (entries: seq<Entry>)
    requires ParseGroup(group, p).Good?
    ensures AllLegal(entries) && Written(entries) == group
    decreases |group|
  {
    hide FromBig, Store, ParseGroup, Written;
    if group == [] {
      entries := [];
      NothingWritten();
    } else {
      FirstEntry(group, p);
      var length := group[1] as int;
      var e := Entry(group[0], group[2..2 + length]);
      var later := ParsedEntries(group[2 + length..], Store(p, e.tag, FromBig(e.value)).value);
      entries := [e] + later;
      WrittenFirst(e, later);
      assert [e.tag, |e.value|] + e.value + group[2 + length..] == group;
    }
  }

  lemma NothingWritten()
    ensures Written([]) == []
  {
  }

  lemma WrittenFirst(e: Entry, later: seq<Entry>)
    requires LegalEntry(e) && AllLegal(later)
    ensures AllLegal([e] + later) && Written([e] + later) == [e.tag, |e.value|] + e.value + Written(later)
  {
    var all := [e] + later;
    assert all[1..] == later && all[0] == e;
    assert AllLegal(all);
  }

  /** What the first entry of a group that parses looks like. */
  lemma FirstEntry(group: Octets, p: Params)
    requires group != [] && ParseGroup(group, p).Good?
    ensures |group| >= 2 && 1 <= group[1] as int <= 4 && 2 + group[1] as int <= |group| && 5 <= group[0] <= 8
    ensures var next := Store(p, group[0], FromBig(group[2..2 + group[1] as int]));
      next.Good? && ParseGroup(group[2 + group[1] as int..], next.value).Good?
  {
    hide FromBig;
  }

  /**
   A group parses exactly when it is a series of tags 5 to 8 with values of one to four
   octets; of several values for a tag the last one counts.
   */
  lemma GroupExact(group: Octets, p: Params)
    ensures ParseGroup(group, p).Good? <==> exists entries :: AllLegal(entries) && Written(entries) == group
    ensures forall entries :: AllLegal(entries) && Written(entries) == group ==>
      ParseGroup(group, p) == Good(Settled(entries, p))
  {
    hide ParseGroup, Written, Settled;
    if ParseGroup(group, p).Good? {
      var entries := ParsedEntries(group, p);
    }
    forall entries | AllLegal(entries) && Written(entries) == group
      ensures ParseGroup(group, p) == Good(Settled(entries, p))
    {
      EntriesParse(entries, p);
    }
  }

  /** A field is read as a block exactly when it begins with 81 80; a block that runs past its end is refused. */
  lemma FieldExact(data: Octets)
    ensures var block := |data| >= 3 && data[0] == 0x81 && data[1] == 0x80;
      && (!block ==> ParseInfoField(data) == Good(Parsed(Params(128, 128, 1, 1), 0)))
      && (block && 3 + data[2] as int > |data| ==> ParseInfoField(data) == Bad(InvalidFrameFormat))
      && (block && 3 + data[2] as int <= |data| ==>
            var g := ParseGroup(data[3..3 + data[2] as int], Params(128, 128, 1, 1));
            && (g.Bad? ==> ParseInfoField(data) == Bad(g.status))
            && (g.Good? ==> ParseInfoField(data) == Good(Parsed(g.value, 3 + data[2] as int))))
  {
    hide ParseGroup;
  }

  // ---- The block round trip ----

  lemma TwoOctets(v: nat)
    requires v < 65536
    ensures FromBig([High(v), Low(v)]) == v
  {
    var d := [High(v), Low(v)];
    assert d[..1] == [High(v)];
    assert d[..1][..0] == [];
    assert FromBig(d[..1]) == High(v);
  }

  lemma FourOctets(v: nat)
    requires v < 256
    ensures FromBig([0, 0, 0, Low(v)]) == v
  {
    var d := [0, 0, 0, Low(v)];
    assert d[..3] == [0, 0, 0];
    assert d[..3][..2] == [0, 0];
    assert d[..3][..2][..1] == [0];
    assert FromBig([]) == 0;
    assert FromBig([0]) == 256 * FromBig([0][..0]) + 0;
    assert FromBig([0, 0]) == 256 * FromBig([0, 0][..1]) + 0;
  }

  lemma GroupStep(tag: byte, value: Octets, rest: Octets, p: Params, q: Params)
    requires 1 <= |value| <= 4
    requires Store(p, tag, FromBig(value)) == Good(q)
    ensures ParseGroup([tag, |value|] + value + rest, p) == ParseGroup(rest, q)
  {
    var group := [tag, |value|] + value + rest;
    assert group[2..2 + |value|] == value;
    assert group[2 + |value|..] == rest;
  }

  /** A block of two-octet lengths and one-octet windows parses to what was encoded. */
  lemma BlockRoundTrip(p: Params, user: Octets)
    requires p.maxInfoTx < 65536 && p.maxInfoRx < 65536 && p.windowTx < 256 && p.windowRx < 256
    ensures ParseInfoField(Block(p) + user) == Good(Parsed(p, 23))
  {
    hide FromBig, ParseGroup, Low, High;
    var data := Block(p) + user;
    var tx, rx := [High(p.maxInfoTx), Low(p.maxInfoTx)], [High(p.maxInfoRx), Low(p.maxInfoRx)];
    var wt, wr := [0, 0, 0, Low(p.windowTx)], [0, 0, 0, Low(p.windowRx)];
    TwoOctets(p.maxInfoTx);
    TwoOctets(p.maxInfoRx);
    FourOctets(p.windowTx);
    FourOctets(p.windowRx);
    var g4 := [0x08, |wr|] + wr + [];
    var g3 := [0x07, |wt|] + wt + g4;
    var g2 := [0x06, |rx|] + rx + g3;
    var g1 := [0x05, |tx|] + tx + g2;
    assert data[3..23] == g1;
    var p1 := DEFAULT_PARAMS.(maxInfoTx := p.maxInfoTx);
    var p2 := p1.(maxInfoRx := p.maxInfoRx);
    var p3 := p2.(windowTx := p.windowTx);
    GroupStep(0x05, tx, g2, DEFAULT_PARAMS, p1);
    GroupStep(0x06, rx, g3, p1, p2);
    GroupStep(0x07, wt, g4, p2, p3);
    GroupStep(0x08, wr, [], p3, p);
    assert ParseGroup([], p) == Good(p) by { EmptyGroup(p); }
  }

  lemma EmptyGroup(p: Params)
    ensures ParseGroup([], p) == Good(p)
  {
  }
}
