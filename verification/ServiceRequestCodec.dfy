/**
 The GET, SET and ACTION request codecs over the cursors.
 */
module ServiceRequestCodec {
  import opened Bytes
  import opened Numbers
  import opened Apdu
  import opened Axdr
  import opened ApduCursor
  import D = DlmsData
  import opened DlmsData
  import opened DlmsDataCodec
  import R = ServiceRequests
  import opened ServiceRequests

  // ---- Decoding ----

  method DecodeDescriptor(reader: ApduReader) returns (status: ApduStatus, output: Descriptor)
    requires reader.Valid()
    modifies reader`position
    ensures reader.Valid()
    ensures match ReadDescriptor(old(reader.Rest()))
            case Got(v, rest) => status == Ok && output == v && reader.Rest() == rest
            case No(e) => status == e
  {
    hide FromBig;
    output := NoDescriptor();
    ghost var s := reader.Rest();
    var classId, id;
    status, classId := ReadUnsigned(reader, 2);
    if status != Ok {
      return status, output;
    }
    var name: Octets := [];
    for i := 0 to 6
      invariant reader.Valid() && 2 + i <= |s| && reader.Rest() == s[2 + i..] && name == s[2..2 + i]
    {
      var b;
      status, b := reader.Next();
      if status != Ok {
        return status, output;
      }
      name := name + [b];
    }
    status, id := reader.Next();
    if status != Ok {
      return status, output;
    }
    FromBigBound(s[..2]);
    assert Pow256(2) == 0x1_0000;
    return Ok, Descriptor(classId, name, id);
  }

  method DecodeOptional(reader: ApduReader, kind: ItemKind, d: Descriptor, depth: nat)
    returns (status: ApduStatus, output: Item)
    requires reader.Valid()
    modifies reader`position
    ensures reader.Valid()
    ensures match ReadOptional(kind, d, old(reader.Rest()), depth)
            case Got(v, rest) => status == Ok && output == v && reader.Rest() == rest
            case No(e) => status == e
  {
    hide Decode;
    output := Item(d, false, 0, Blank(0));
    if kind == Bare {
      return Ok, output;
    }
    var flag, data;
    status, flag := reader.Next();
    if status != Ok {
      return status, output;
    }
    if flag > 1 {
      return InvalidChoice, output;
    }
    if flag == 0 {
      return Ok, output;
    }
    var selector := 0;
    if kind == WithSelection {
      status, selector := reader.Next();
      if status != Ok {
        return status, output;
      }
    }
    status, data := DecodeValue(reader, depth);
    if status != Ok {
      return status, output;
    }
    return Ok, Item(d, true, selector, data);
  }

  method DecodeItem(reader: ApduReader, kind: ItemKind, depth: nat) returns (status: ApduStatus, output: Item)
    requires reader.Valid()
    modifies reader`position
    ensures reader.Valid()
    ensures match ReadItem(kind, old(reader.Rest()), depth)
            case Got(v, rest) => status == Ok && output == v && reader.Rest() == rest
            case No(e) => status == e
  {
    hide ReadDescriptor, ReadOptional;
    var d;
    status, d := DecodeDescriptor(reader);
    output := Item(d, false, 0, Blank(0));
    if status != Ok {
      return status, output;
    }
    status, output := DecodeOptional(reader, kind, d, depth);
  }

  lemma NextItem(kind: ItemKind, s: Octets, count: nat, depth: nat)
    requires count > 0
    ensures match ReadItem(kind, s, depth)
            case No(e) => ReadItems(kind, s, count, depth) == No(e)
            case Got(v, r) =>
              match ReadItems(kind, r, count - 1, depth)
              case No(e) => ReadItems(kind, s, count, depth) == No(e)
              case Got(vs, rest) => ReadItems(kind, s, count, depth) == Got([v] + vs, rest)
  {
    hide ReadItem;
  }

  lemma NoItem(kind: ItemKind, s: Octets, depth: nat)
    ensures ReadItems(kind, s, 0, depth) == Got([], s)
  {
  }

  method DecodeItems(reader: ApduReader, kind: ItemKind, count: nat, depth: nat)
    returns (status: ApduStatus, items: seq<Item>)
    requires reader.Valid()
    modifies reader`position
    ensures reader.Valid()
    ensures match ReadItems(kind, old(reader.Rest()), count, depth)
            case Got(vs, rest) => status == Ok && items == vs && reader.Rest() == rest
            case No(e) => status == e
  {
    hide ReadItem, ReadItems;
    items := [];
    ghost var all := ReadItems(kind, reader.Rest(), count, depth);
    RemainsStart(all);
    for i := 0 to count
      invariant reader.Valid()
      invariant Remains(all, items, ReadItems(kind, reader.Rest(), count - i, depth))
    {
      NextItem(kind, reader.Rest(), count - i, depth);
      var item;
      status, item := DecodeItem(reader, kind, depth);
      if status != Ok {
        return status, items;
      }
      RemainsNext(all, items, item, ReadItems(kind, reader.Rest(), count - i - 1, depth));
      items := items + [item];
    }
    NoItem(kind, reader.Rest(), depth);
    RemainsEnd(all, items, reader.Rest());
    return Ok, items;
  }

  method DecodeU32(reader: ApduReader) returns (status: ApduStatus, output: uint32)
    requires reader.Valid()
    modifies reader`position
    ensures reader.Valid()
    ensures match R.ReadU32(old(reader.Rest()))
            case Got(v, rest) => status == Ok && output == v && reader.Rest() == rest
            case No(e) => status == e
  {
    hide FromBig;
    ghost var s := reader.Rest();
    var n;
    status, n := ReadUnsigned(reader, 4);
    if status != Ok {
      return status, 0;
    }
    FromBigBound(s[..4]);
    assert Pow256(4) == 0x1_0000_0000;
    return Ok, n;
  }

  method DecodeDataBlock(reader: ApduReader) returns (status: ApduStatus, output: Block)
    requires reader.Valid()
    modifies reader`position
    ensures reader.Valid()
    ensures match ReadBlock(old(reader.Rest()))
            case Got(v, rest) => status == Ok && output == v && reader.Rest() == rest
            case No(e) => status == e
  {
    hide R.ReadU32, ReadString;
    output := Block(false, 0, []);
    var last, number, raw;
    status, last := reader.Next();
    if status != Ok {
      return status, output;
    }
    status, number := DecodeU32(reader);
    if status != Ok {
      return status, output;
    }
    status, raw := ReadAxdrOctetString(reader);
    if status != Ok {
      return status, output;
    }
    return Ok, Block(last != 0, number, raw);
  }

  /** One part of a choice, stored into its field of the record. */
  method DecodePart(reader: ApduReader, part: Part, input: Request, depth: nat)
    returns (status: ApduStatus, output: Request)
    requires reader.Valid()
    modifies reader`position
    ensures reader.Valid()
    ensures match ReadPart(part, old(reader.Rest()), input, depth)
            case Got(v, rest) => status == Ok && output == v && reader.Rest() == rest
            case No(e) => status == e
  {
    hide ReadItem, ReadItems, Decode, DecodeAll, ReadBlock, R.ReadU32, ReadLength;
    output := input;
    match part {
      case OneItem(kind) =>
        var item;
        status, item := DecodeItem(reader, kind, depth);
        output := input.(item := item);
      case ManyItems(kind) =>
        var count, items;
        status, count := ReadAxdrLength(reader);
        if status != Ok {
          return status, output;
        }
        status, items := DecodeItems(reader, kind, count, depth);
        output := input.(list := items);
      case OneData =>
        var data;
        status, data := DecodeValue(reader, depth);
        output := input.(data := data);
      case ManyData =>
        var count, values;
        status, count := ReadAxdrLength(reader);
        if status != Ok {
          return status, output;
        }
        if count != |input.list| {
          return InvalidLength, output;
        }
        status, values := DecodeElements(reader, count, depth);
        output := input.(values := values);
      case Number =>
        var number;
        status, number := DecodeU32(reader);
        output := input.(blockNumber := number);
      case OneBlock =>
        var block;
        status, block := DecodeDataBlock(reader);
        output := input.(block := block);
    }
  }

  /** Tag, choice and invoke-id of a request. */
  method DecodeHeader(reader: ApduReader, service: Service) returns (status: ApduStatus, output: Request)
    requires reader.Valid()
    modifies reader`position
    ensures reader.Valid()
    ensures var s := old(reader.Rest());
      && (status == Ok <==> |s| >= 3 && s[0] == TagOf(service))
      && (status == Ok ==> output == Empty(service, s[1], s[2]) && reader.Rest() == s[3..])
      && (status != Ok ==> status == if s == [] || s[0] == TagOf(service) then NeedMoreData else InvalidTag)
  {
    hide Empty;
    output := Empty(service, 0, 0);
    var tag, choice, invoke;
    status, tag := reader.Next();
    if status != Ok {
      return status, output;
    }
    if tag != TagOf(service) {
      return InvalidTag, output;
    }
    status, choice := reader.Next();
    if status != Ok {
      return status, output;
    }
    status, invoke := reader.Next();
    if status != Ok {
      return status, output;
    }
    return Ok, Empty(service, choice, invoke);
  }

  /** The parts of a choice, which has one or two of them, and nothing behind them. */
  method DecodeBody(reader: ApduReader, input: Request, parts: seq<Part>, depth: nat)
    returns (status: ApduStatus, output: Request)
    requires reader.Valid() && 1 <= |parts| <= 2
    modifies reader`position
    ensures match ReadParts(parts, old(reader.Rest()), input, depth)
            case Got(v, rest) => status == (if rest == [] then Ok else InvalidLength) && output == v
            case No(e) => status == e
  {
    hide ReadPart, ReadParts;
    TwoParts(parts, reader.Rest(), input, depth);
    status, output := DecodePart(reader, parts[0], input, depth);
    if status != Ok {
      return status, output;
    }
    if |parts| == 2 {
      status, output := DecodePart(reader, parts[1], output, depth);
      if status != Ok {
        return status, output;
      }
    }
    var left := reader.Remaining();
    return if left == 0 then Ok else InvalidLength, output;
  }

  lemma TwoParts(parts: seq<Part>, s: Octets, r: Request, depth: nat)
    requires 1 <= |parts| <= 2
    ensures ReadParts(parts, s, r, depth) ==
      match ReadPart(parts[0], s, r, depth)
      case No(e) => No(e)
      case Got(r', rest) => if |parts| == 1 then Got(r', rest) else ReadPart(parts[1], rest, r', depth)
  {
    hide ReadPart;
    var first := ReadPart(parts[0], s, r, depth);
    if first.Got? {
      NoParts(first.rest, first.value, depth);
      if |parts| == 1 {
        assert parts[1..] == [];
      } else {
        var second := ReadPart(parts[1], first.rest, first.value, depth);
        assert parts[1..][0] == parts[1] && parts[1..][1..] == [];
        if second.Got? {
          NoParts(second.rest, second.value, depth);
        }
      }
    }
  }

  lemma NoParts(s: Octets, r: Request, depth: nat)
    ensures ReadParts([], s, r, depth) == Got(r, s)
  {
  }

  method DecodeGetRequest(input: Octets, depth: nat) returns (status: ApduStatus, output: Request)
    ensures match ReadRequest(Get, input, depth)
            case Got(v, _) => status == Ok && output == v
            case No(e) => status == e
  {
    hide ReadRequest;
    var reader := new ApduReader(input);
    status, output := DecodeGetFrom(reader, depth);
  }

  method DecodeGetFrom(reader: ApduReader, depth: nat) returns (status: ApduStatus, output: Request)
    requires reader.Valid()
    modifies reader`position
    ensures match ReadRequest(Get, old(reader.Rest()), depth)
            case Got(v, _) => status == Ok && output == v
            case No(e) => status == e
  {
    hide ReadParts, Empty;
    status, output := DecodeHeader(reader, Get);
    if status != Ok {
      return status, output;
    }
    if output.choice == 1 {
      status, output := DecodeBody(reader, output, [OneItem(WithSelection)], depth);
    } else if output.choice == 2 {
      status, output := DecodeBody(reader, output, [Number], depth);
    } else if output.choice == 3 {
      status, output := DecodeBody(reader, output, [ManyItems(WithSelection)], depth);
    } else {
      status := UnsupportedXdlmsService;
    }
  }

  method DecodeSetRequest(input: Octets, depth: nat) returns (status: ApduStatus, output: Request)
    ensures match ReadRequest(Set, input, depth)
            case Got(v, _) => status == Ok && output == v
            case No(e) => status == e
  {
    hide ReadRequest;
    var reader := new ApduReader(input);
    status, output := DecodeSetFrom(reader, depth);
  }

  method DecodeSetFrom(reader: ApduReader, depth: nat) returns (status: ApduStatus, output: Request)
    requires reader.Valid()
    modifies reader`position
    ensures match ReadRequest(Set, old(reader.Rest()), depth)
            case Got(v, _) => status == Ok && output == v
            case No(e) => status == e
  {
    hide ReadParts, Empty;
    status, output := DecodeHeader(reader, Set);
    if status != Ok {
      return status, output;
    }
    if output.choice == 1 {
      status, output := DecodeBody(reader, output, [OneItem(WithSelection), OneData], depth);
    } else if output.choice == 2 {
      status, output := DecodeBody(reader, output, [OneItem(WithSelection), OneBlock], depth);
    } else if output.choice == 3 {
      status, output := DecodeBody(reader, output, [OneBlock], depth);
    } else if output.choice == 4 {
      status, output := DecodeBody(reader, output, [ManyItems(WithSelection), ManyData], depth);
    } else if output.choice == 5 {
      status, output := DecodeBody(reader, output, [ManyItems(WithSelection), OneBlock], depth);
    } else {
      status := UnsupportedXdlmsService;
    }
  }

  method DecodeActionRequest(input: Octets, depth: nat) returns (status: ApduStatus, output: Request)
    ensures match ReadRequest(Action, input, depth)
            case Got(v, _) => status == Ok && output == v
            case No(e) => status == e
  {
    hide ReadRequest;
    var reader := new ApduReader(input);
    status, output := DecodeActionFrom(reader, depth);
  }

  method DecodeActionFrom(reader: ApduReader, depth: nat) returns (status: ApduStatus, output: Request)
    requires reader.Valid()
    modifies reader`position
    ensures match ReadRequest(Action, old(reader.Rest()), depth)
            case Got(v, _) => status == Ok && output == v
            case No(e) => status == e
  {
    hide ReadParts, Empty;
    status, output := DecodeHeader(reader, Action);
    if status != Ok {
      return status, output;
    }
    if output.choice == 1 {
      status, output := DecodeBody(reader, output, [OneItem(WithParameter)], depth);
    } else if output.choice == 2 {
      status, output := DecodeBody(reader, output, [Number], depth);
    } else if output.choice == 3 {
      status, output := DecodeBody(reader, output, [ManyItems(WithParameter)], depth);
    } else if output.choice == 4 {
      status, output := DecodeBody(reader, output, [OneItem(Bare), OneBlock], depth);
    } else if output.choice == 5 {
      status, output := DecodeBody(reader, output, [ManyItems(Bare), OneBlock], depth);
    } else if output.choice == 6 {
      status, output := DecodeBody(reader, output, [OneBlock], depth);
    } else {
      status := UnsupportedXdlmsService;
    }
  }

  // ---- Encoding ----

  method EncodeDescriptor(writer: ApduWriter, d: Descriptor) returns (status: ApduStatus)
    requires writer.Valid()
    modifies writer`position, writer.data
    ensures writer.Took(Plain(DescriptorOctets(d)), status)
  {
    hide BigEndian;
    ghost var x, c := DescriptorOctets(d), BigEndian(d.classId, 2);
    status := WriteUnsigned(writer, d.classId, 2);
    if status != Ok {
      return status;
    }
    assert x[..2] == c;
    for i := 0 to 6
      invariant writer.Valid() && writer.position == old(writer.position) + 2 + i
      invariant writer.data[..old(writer.position)] == old(writer.Written())
      invariant writer.Written() == old(writer.Written()) + x[..2 + i]
    {
      status := writer.Put(d.logicalName[i]);
      if status != Ok {
        return status;
      }
      assert x[..2 + i] + [d.logicalName[i]] == x[..2 + i + 1];
    }
    status := writer.Put(d.id);
    assert x[..8] + [d.id] == x;
  }

  /** The flag of an optional part, its selector if it has one, and its data. */
  method EncodeOptional(writer: ApduWriter, kind: ItemKind, i: Item) returns (status: ApduStatus)
    requires writer.Valid()
    modifies writer`position, writer.data
    ensures writer.Took(EmitOptional(kind, i), status)
  {
    hide Emit;
    if kind == Bare {
      return Ok;
    }
    ghost var head := if kind == WithSelection then [1, i.selector] else [1];
    ThenStatus(Plain(head), Emit(i.data), writer.Room());
    status := writer.Put(BooleanOctet(i.present));
    if status != Ok || !i.present {
      return status;
    }
    if kind == WithSelection {
      status := writer.Put(i.selector);
      if status != Ok {
        return status;
      }
    }
    assert writer.Written() == old(writer.Written()) + head;
    status := EncodeValue(writer, i.data);
    assert (old(writer.Written()) + head) + Emit(i.data).octets == old(writer.Written()) + (head + Emit(i.data).octets);
  }

  method EncodeItem(writer: ApduWriter, kind: ItemKind, i: Item) returns (status: ApduStatus)
    requires writer.Valid()
    modifies writer`position, writer.data
    ensures writer.Took(EmitItem(kind, i), status)
  {
    hide DescriptorOctets, EmitOptional;
    ghost var d, o := DescriptorOctets(i.descriptor), EmitOptional(kind, i);
    ThenStatus(Plain(d), o, writer.Room());
    status := EncodeDescriptor(writer, i.descriptor);
    if status != Ok {
      return status;
    }
    status := EncodeOptional(writer, kind, i);
    assert (old(writer.Written()) + d) + o.octets == old(writer.Written()) + (d + o.octets);
  }

  lemma {:induction false} EmitItemsSnoc(kind: ItemKind, items: seq<Item>, i: Item)
    ensures EmitItems(kind, items + [i]) == Then(EmitItems(kind, items), EmitItem(kind, i))
    decreases |items|
  {
    hide EmitItem;
    if items == [] {
      assert ([] + [i])[1..] == [];
      ThenNothing(EmitItem(kind, i));
      assert EmitItems(kind, [i]) == Then(EmitItem(kind, i), EmitItems(kind, [i][1..]));
    } else {
      assert (items + [i])[0] == items[0] && (items + [i])[1..] == items[1..] + [i];
      EmitItemsSnoc(kind, items[1..], i);
      ThenAssociates(EmitItem(kind, items[0]), EmitItems(kind, items[1..]), EmitItem(kind, i));
    }
  }

  lemma {:induction false} EmitItemsFails(kind: ItemKind, items: seq<Item>, k: nat, room: nat)
    requires k <= |items| && StatusIn(EmitItems(kind, items[..k]), room) != Ok
    ensures StatusIn(EmitItems(kind, items), room) == StatusIn(EmitItems(kind, items[..k]), room)
    decreases |items| - k
  {
    hide EmitItem, EmitItems;
    if k < |items| {
      assert items[..k + 1] == items[..k] + [items[k]];
      EmitItemsSnoc(kind, items[..k], items[k]);
      ThenStatus(EmitItems(kind, items[..k]), EmitItem(kind, items[k]), room);
      EmitItemsFails(kind, items, k + 1, room);
    } else {
      assert items[..k] == items;
    }
  }

  method EncodeItems(writer: ApduWriter, kind: ItemKind, items: seq<Item>) returns (status: ApduStatus)
    requires writer.Valid()
    modifies writer`position, writer.data
    ensures writer.Took(EmitItems(kind, items), status)
  {
    hide EmitItem, EmitItems;
    ghost var room := writer.Room();
    assert EmitItems(kind, []) == Plain([]) by { EmitNoItems(kind); }
    for i := 0 to |items|
      invariant writer.Valid() && old(writer.position) <= writer.position
      invariant writer.data[..old(writer.position)] == old(writer.Written())
      invariant StatusIn(EmitItems(kind, items[..i]), room) == Ok
      invariant writer.Written() == old(writer.Written()) + EmitItems(kind, items[..i]).octets
    {
      assert items[..i + 1] == items[..i] + [items[i]];
      EmitItemsSnoc(kind, items[..i], items[i]);
      ThenStatus(EmitItems(kind, items[..i]), EmitItem(kind, items[i]), room);
      ghost var before := writer.Written();
      assert writer.Room() == room - |EmitItems(kind, items[..i]).octets|;
      status := EncodeItem(writer, kind, items[i]);
      assert writer.data[..old(writer.position)] == old(writer.Written()) by {
        PrefixKept(old(writer.Written()), before, writer.data[..]);
      }
      if status != Ok {
        EmitItemsFails(kind, items, i + 1, room);
        return status;
      }
      assert (old(writer.Written()) + EmitItems(kind, items[..i]).octets) + EmitItem(kind, items[i]).octets ==
        old(writer.Written()) + EmitItems(kind, items[..i + 1]).octets;
    }
    assert items[..|items|] == items;
    return Ok;
  }

  lemma EmitNoItems(kind: ItemKind)
    ensures EmitItems(kind, []) == Plain([])
  {
  }

  method EncodeDataBlock(writer: ApduWriter, b: Block) returns (status: ApduStatus)
    requires writer.Valid()
    modifies writer`position, writer.data
    ensures writer.Took(Plain(BlockOctets(b)), status)
  {
    hide BigEndian, StringOctets;
    ghost var f, n, x := [BooleanOctet(b.lastBlock)], BigEndian(b.blockNumber, 4), StringOctets(b.rawData);
    status := writer.Put(BooleanOctet(b.lastBlock));
    if status != Ok {
      return status;
    }
    status := WriteUnsigned(writer, b.blockNumber, 4);
    if status != Ok {
      return status;
    }
    assert writer.Written() == old(writer.Written()) + (f + n);
    status := WriteAxdrOctetString(writer, b.rawData);
    assert (old(writer.Written()) + (f + n)) + x == old(writer.Written()) + BlockOctets(b);
  }

  method EncodePart(writer: ApduWriter, part: Part, r: Request) returns (status: ApduStatus)
    requires writer.Valid()
    modifies writer`position, writer.data
    ensures writer.Took(EmitPart(part, r), status)
  {
    hide EmitItem, Emit, EmitAll, LengthOctets, BigEndian, BlockOctets;
    match part {
      case OneItem(kind) => status := EncodeItem(writer, kind, r.item);
      case ManyItems(kind) => status := EncodeItemList(writer, kind, r.list);
      case OneData => status := EncodeValue(writer, r.data);
      case ManyData => status := EncodeList(writer, r.values);
      case Number => status := WriteUnsigned(writer, r.blockNumber, 4);
      case OneBlock => status := EncodeDataBlock(writer, r.block);
    }
  }

  method EncodeItemList(writer: ApduWriter, kind: ItemKind, items: seq<Item>) returns (status: ApduStatus)
    requires writer.Valid()
    modifies writer`position, writer.data
    ensures writer.Took(Then(Plain(LengthOctets(|items|)), EmitItems(kind, items)), status)
  {
    hide EmitItems, LengthOctets;
    ghost var n, e := LengthOctets(|items|), EmitItems(kind, items);
    ThenStatus(Plain(n), e, writer.Room());
    status := WriteAxdrLength(writer, |items|);
    if status != Ok {
      return status;
    }
    status := EncodeItems(writer, kind, items);
    assert (old(writer.Written()) + n) + e.octets == old(writer.Written()) + (n + e.octets);
  }

  method EncodeParts(writer: ApduWriter, parts: seq<Part>, r: Request) returns (status: ApduStatus)
    requires writer.Valid() && 1 <= |parts| <= 2
    modifies writer`position, writer.data
    ensures writer.Took(R.EmitParts(parts, r), status)
  {
    hide EmitPart, R.EmitParts;
    ghost var a := EmitPart(parts[0], r);
    EmitTwoParts(parts, r);
    status := EncodePart(writer, parts[0], r);
    if status != Ok || |parts| == 1 {
      return status;
    }
    ghost var b := EmitPart(parts[1], r);
    status := EncodePart(writer, parts[1], r);
    assert (old(writer.Written()) + a.octets) + b.octets == old(writer.Written()) + (a.octets + b.octets);
  }

  lemma EmitTwoParts(parts: seq<Part>, r: Request)
    requires 1 <= |parts| <= 2
    ensures R.EmitParts(parts, r) ==
      if |parts| == 1 then EmitPart(parts[0], r) else Then(EmitPart(parts[0], r), EmitPart(parts[1], r))
  {
    hide EmitPart;
    ThenNothing(EmitPart(parts[0], r));
    assert R.EmitParts([], r) == Plain([]);
    if |parts| == 1 {
      assert parts[1..] == [];
    } else {
      ThenNothing(EmitPart(parts[1], r));
      assert parts[1..][0] == parts[1] && parts[1..][1..] == [];
    }
  }

  method EncodeRequest(writer: ApduWriter, r: Request) returns (status: ApduStatus)
    requires writer.Valid()
    modifies writer`position, writer.data
    ensures writer.Took(EmitRequest(r), status)
  {
    hide R.EmitParts;
    ghost var head := [TagOf(r.service), r.choice, r.invokeIdAndPriority];
    ThenStatus(Plain(head), R.EmitBody(r), writer.Room());
    status := writer.Put(TagOf(r.service));
    if status != Ok {
      return status;
    }
    status := PutBoth(writer, r.choice, [r.invokeIdAndPriority]);
    if status != Ok {
      return status;
    }
    assert writer.Written() == old(writer.Written()) + head;
    match PartsOf(r.service, r.choice) {
      case Unknown => return InvalidChoice;
      case Parts(parts) =>
        if ManyData in parts && |r.list| != |r.values| {
          return InvalidLength;
        }
        status := EncodeParts(writer, parts, r);
        assert (old(writer.Written()) + head) + R.EmitBody(r).octets == old(writer.Written()) + EmitRequest(r).octets;
    }
  }
}
