/**
 GET, SET and ACTION requests: which parts each choice consists of, how the parts are
 encoded, and the proof that every request of every choice survives the round trip.
 */
module ServiceRequests {
  import opened Bytes
  import opened Numbers
  import opened Apdu
  import opened Axdr
  import opened DlmsData

  /** A six-octet logical name. */
  type LogicalName = s: Octets | |s| == 6 witness [0, 0, 0, 0, 0, 0]

  /** An attribute or method of a COSEM object. */
  datatype Descriptor = Descriptor(classId: uint16, logicalName: LogicalName, id: byte)

  /** What may follow a descriptor: a selective access, an invocation parameter, or nothing. */
  datatype ItemKind = WithSelection | WithParameter | Bare

  /** A descriptor with the optional data of its kind; the selector matters only with a selection. */
  datatype Item = Item(descriptor: Descriptor, present: bool, selector: byte, data: Data)

  datatype Block = Block(lastBlock: bool, blockNumber: uint32, rawData: Octets)

  datatype Service = Get | Set | Action

  /** The fields of all three request records; which ones matter depends on service and choice. */
  datatype Request = Request(
    service: Service,
    choice: byte,
    invokeIdAndPriority: byte,
    item: Item,
    data: Data,
    blockNumber: uint32,
    block: Block,
    list: seq<Item>,
    values: seq<Data>)

  function NoDescriptor(): Descriptor {
    Descriptor(0, [0, 0, 0, 0, 0, 0], 0)
  }

  /** A request of which only the header is set. */
  function Empty(service: Service, choice: byte, invoke: byte): (r: Request)
    ensures r.service == service && r.choice == choice && r.invokeIdAndPriority == invoke
    ensures r.list == []
  {
    Request(service, choice, invoke, Item(NoDescriptor(), false, 0, Blank(0)), Blank(0), 0, Block(false, 0, []), [], [])
  }

  function TagOf(service: Service): byte {
    match service case Get => 0xc0 case Set => 0xc1 case Action => 0xc3
  }

  // ---- Which parts a choice has ----

  datatype Part = OneItem(kind: ItemKind) | ManyItems(kind: ItemKind) | OneData | ManyData | Number | OneBlock

  datatype Parts = Parts(parts: seq<Part>) | Unknown

  function PartsOf(service: Service, choice: byte): Parts {
    match service
    case Get =>
      if choice == 1 then Parts([OneItem(WithSelection)])
      else if choice == 2 then Parts([Number])
      else if choice == 3 then Parts([ManyItems(WithSelection)])
      else Unknown
    case Set =>
      if choice == 1 then Parts([OneItem(WithSelection), OneData])
      else if choice == 2 then Parts([OneItem(WithSelection), OneBlock])
      else if choice == 3 then Parts([OneBlock])
      else if choice == 4 then Parts([ManyItems(WithSelection), ManyData])
      else if choice == 5 then Parts([ManyItems(WithSelection), OneBlock])
      else Unknown
    case Action =>
      if choice == 1 then Parts([OneItem(WithParameter)])
      else if choice == 2 then Parts([Number])
      else if choice == 3 then Parts([ManyItems(WithParameter)])
      else if choice == 4 then Parts([OneItem(Bare), OneBlock])
      else if choice == 5 then Parts([ManyItems(Bare), OneBlock])
      else if choice == 6 then Parts([OneBlock])
      else Unknown
  }

  // ---- Encoding ----

  function DescriptorOctets(d: Descriptor): Octets {
    BigEndian(d.classId, 2) + d.logicalName + [d.id]
  }

  function EmitOptional(kind: ItemKind, i: Item): Emission {
    if kind == Bare then Plain([])
    else if !i.present then Plain([0])
    else if kind == WithSelection then Then(Plain([1, i.selector]), Emit(i.data))
    else Then(Plain([1]), Emit(i.data))
  }

  function EmitItem(kind: ItemKind, i: Item): Emission {
    Then(Plain(DescriptorOctets(i.descriptor)), EmitOptional(kind, i))
  }

  function EmitItems(kind: ItemKind, items: seq<Item>): Emission {
    if items == [] then Plain([]) else Then(EmitItem(kind, items[0]), EmitItems(kind, items[1..]))
  }

  function BlockOctets(b: Block): Octets {
    [BooleanOctet(b.lastBlock)] + BigEndian(b.blockNumber, 4) + StringOctets(b.rawData)
  }

  function EmitPart(part: Part, r: Request): Emission {
    match part
    case OneItem(kind) => EmitItem(kind, r.item)
    case ManyItems(kind) => Then(Plain(LengthOctets(|r.list|)), EmitItems(kind, r.list))
    case OneData => Emit(r.data)
    case ManyData => Then(Plain(LengthOctets(|r.values|)), EmitAll(r.values))
    case Number => Plain(BigEndian(r.blockNumber, 4))
    case OneBlock => Plain(BlockOctets(r.block))
  }

  function EmitParts(parts: seq<Part>, r: Request): Emission {
    if parts == [] then Plain([]) else Then(EmitPart(parts[0], r), EmitParts(parts[1..], r))
  }

  function EmitBody(r: Request): Emission {
    match PartsOf(r.service, r.choice)
    case Unknown => Emission([], InvalidChoice)
    case Parts(parts) =>
      if ManyData in parts && |r.list| != |r.values| then Emission([], InvalidLength) else EmitParts(parts, r)
  }

  function EmitRequest(r: Request): Emission {
    Then(Plain([TagOf(r.service), r.choice, r.invokeIdAndPriority]), EmitBody(r))
  }

  // ---- Decoding ----

  function ReadDescriptor(s: Octets): Read<Descriptor> {
    if |s| < 9 then No(NeedMoreData)
    else
      FromBigBound(s[..2]);
      assert Pow256(2) == 0x1_0000;
      Got(Descriptor(FromBig(s[..2]), s[2..8], s[8]), s[9..])
  }

  function ReadOptional(kind: ItemKind, d: Descriptor, s: Octets, depth: nat): Read<Item> {
    var item := Item(d, false, 0, Blank(0));
    if kind == Bare then Got(item, s)
    else
      match ReadU8(s)
      case No(e) => No(e)
      case Got(flag, r) =>
        if flag > 1 then No(InvalidChoice)
        else if flag == 0 then Got(item, r)
        else
          match (if kind == WithSelection then ReadU8(r) else Got(0, r))
          case No(e) => No(e)
          case Got(selector, r') =>
            match Decode(r', depth)
            case No(e) => No(e)
            case Got(v, rest) => Got(Item(d, true, selector, v), rest)
  }

  function ReadItem(kind: ItemKind, s: Octets, depth: nat): Read<Item> {
    match ReadDescriptor(s)
    case No(e) => No(e)
    case Got(d, r) => ReadOptional(kind, d, r, depth)
  }

  function ReadItems(kind: ItemKind, s: Octets, count: nat, depth: nat): Read<seq<Item>>
    decreases count
  {
    if count == 0 then Got([], s)
    else
      match ReadItem(kind, s, depth)
      case No(e) => No(e)
      case Got(i, r) =>
        match ReadItems(kind, r, count - 1, depth)
        case No(e) => No(e)
        case Got(later, rest) => Got([i] + later, rest)
  }

  function ReadU32(s: Octets): Read<uint32> {
    if |s| < 4 then No(NeedMoreData)
    else
      FromBigBound(s[..4]);
      assert Pow256(4) == 0x1_0000_0000;
      Got(FromBig(s[..4]), s[4..])
  }

  function ReadBlock(s: Octets): Read<Block> {
    match ReadU8(s)
    case No(e) => No(e)
    case Got(last, r) =>
      match ReadU32(r)
      case No(e) => No(e)
      case Got(n, r') =>
        match ReadString(r')
        case No(e) => No(e)
        case Got(x, rest) => Got(Block(last != 0, n, x), rest)
  }

  /** One part, stored into its field. */
  function ReadPart(part: Part, s: Octets, r: Request, depth: nat): Read<Request> {
    match part
    case OneItem(kind) =>
      (match ReadItem(kind, s, depth) case No(e) => No(e) case Got(i, rest) => Got(r.(item := i), rest))
    case ManyItems(kind) =>
      (match ReadLength(s)
       case No(e) => No(e)
       case Got(n, s') =>
         match ReadItems(kind, s', n, depth) case No(e) => No(e) case Got(later, rest) => Got(r.(list := later), rest))
    case OneData =>
      (match Decode(s, depth) case No(e) => No(e) case Got(v, rest) => Got(r.(data := v), rest))
    case ManyData =>
      (match ReadLength(s)
       case No(e) => No(e)
       case Got(n, s') =>
         if n != |r.list| then No(InvalidLength)
         else match DecodeAll(s', n, depth) case No(e) => No(e) case Got(vs, rest) => Got(r.(values := vs), rest))
    case Number =>
      (match ReadU32(s) case No(e) => No(e) case Got(n, rest) => Got(r.(blockNumber := n), rest))
    case OneBlock =>
      (match ReadBlock(s) case No(e) => No(e) case Got(b, rest) => Got(r.(block := b), rest))
  }

  function ReadParts(parts: seq<Part>, s: Octets, r: Request, depth: nat): Read<Request> {
    if parts == [] then Got(r, s)
    else
      match ReadPart(parts[0], s, r, depth)
      case No(e) => No(e)
      case Got(r', rest) => ReadParts(parts[1..], rest, r', depth)
  }

  /** A complete request of one service. */
  function ReadRequest(service: Service, s: Octets, depth: nat): Read<Request> {
    if s == [] then No(NeedMoreData)
    else if s[0] != TagOf(service) then No(InvalidTag)
    else if |s| < 3 then No(NeedMoreData)
    else
      match PartsOf(service, s[1])
      case Unknown => No(UnsupportedXdlmsService)
      case Parts(parts) =>
        match ReadParts(parts, s[3..], Empty(service, s[1], s[2]), depth)
        case No(e) => No(e)
        case Got(r, rest) => if rest == [] then Got(r, []) else No(InvalidLength)
  }

  // ---- What a request means ----

  function CanonicalItem(kind: ItemKind, i: Item): Item {
    if kind == Bare || !i.present then Item(i.descriptor, false, 0, Blank(0))
    else Item(i.descriptor, true, if kind == WithSelection then i.selector else 0, Canonical(i.data))
  }

  function CanonicalItems(kind: ItemKind, items: seq<Item>): (r: seq<Item>)
    ensures |r| == |items|
  {
    if items == [] then [] else [CanonicalItem(kind, items[0])] + CanonicalItems(kind, items[1..])
  }

  /** `to` with the field of one part taken over from `from`. */
  function CanonicalPart(part: Part, from: Request, to: Request): Request {
    match part
    case OneItem(kind) => to.(item := CanonicalItem(kind, from.item))
    case ManyItems(kind) => to.(list := CanonicalItems(kind, from.list))
    case OneData => to.(data := Canonical(from.data))
    case ManyData => to.(values := CanonicalAll(from.values))
    case Number => to.(blockNumber := from.blockNumber)
    case OneBlock => to.(block := from.block)
  }

  function CanonicalParts(parts: seq<Part>, from: Request, to: Request): Request {
    if parts == [] then to else CanonicalParts(parts[1..], from, CanonicalPart(parts[0], from, to))
  }

  /** The choice and the fields of that choice; everything else blank. */
  function CanonicalRequest(r: Request): Request {
    match PartsOf(r.service, r.choice)
    case Unknown => r
    case Parts(parts) => CanonicalParts(parts, r, Empty(r.service, r.choice, r.invokeIdAndPriority))
  }

  predicate SizedItem(i: Item) {
    Sized(i.data)
  }

  predicate SizedRequest(r: Request) {
    && SizedItem(r.item) && Sized(r.data) && |r.block.rawData| < SIZE_RANGE
    && |r.list| < SIZE_RANGE && |r.values| < SIZE_RANGE
    && (forall i :: 0 <= i < |r.list| ==> SizedItem(r.list[i]))
    && AllSized(r.values)
  }

  predicate ItemFits(kind: ItemKind, i: Item, depth: nat) {
    kind != Bare && i.present ==> Height(i.data) <= depth
  }

  predicate PartFits(part: Part, r: Request, depth: nat) {
    match part
    case OneItem(kind) => ItemFits(kind, r.item, depth)
    case ManyItems(kind) => forall i :: 0 <= i < |r.list| ==> ItemFits(kind, r.list[i], depth)
    case OneData => Height(r.data) <= depth
    case ManyData => HeightAll(r.values) <= depth
    case _ => true
  }

  /** All data of the choice within the depth limit. */
  predicate Fits(r: Request, depth: nat) {
    match PartsOf(r.service, r.choice)
    case Unknown => false
    case Parts(parts) => forall p :: p in parts ==> PartFits(p, r, depth)
  }

  // ---- Round trip, part by part ----

  lemma DescriptorRoundTrip(d: Descriptor, tail: Octets)
    ensures ReadDescriptor(DescriptorOctets(d) + tail) == Got(d, tail)
  {
    hide BigEndian, FromBig;
    var c := BigEndian(d.classId, 2);
    var x := DescriptorOctets(d) + tail;
    assert x[..2] == c && x[2..8] == d.logicalName && x[8] == d.id && x[9..] == tail;
    BigEndianRoundTrip(d.classId, 2);
    assert Pow256(2) == 0x1_0000;
  }

  lemma OptionalRoundTrip(kind: ItemKind, i: Item, tail: Octets, depth: nat)
    requires EmitOptional(kind, i).fault == Ok && SizedItem(i)
    ensures ReadOptional(kind, i.descriptor, EmitOptional(kind, i).octets + tail, depth) ==
      if ItemFits(kind, i, depth) then Got(CanonicalItem(kind, i), tail) else No(InvalidData)
  {
    hide Decode, Emit, Height, Canonical, Sized;
    if kind == Bare {
      assert [] + tail == tail;
    } else if !i.present {
      ReadU8Front(0, tail);
    } else {
      var e := Emit(i.data).octets;
      DecodeEncoded(i.data, depth, tail);
      if kind == WithSelection {
        assert ([1, i.selector] + e) + tail == [1] + ([i.selector] + (e + tail));
        ReadU8Front(1, [i.selector] + (e + tail));
        ReadU8Front(i.selector, e + tail);
      } else {
        assert ([1] + e) + tail == [1] + (e + tail);
        ReadU8Front(1, e + tail);
      }
    }
  }

  lemma ItemRoundTrip(kind: ItemKind, i: Item, tail: Octets, depth: nat)
    requires EmitItem(kind, i).fault == Ok && SizedItem(i)
    ensures ReadItem(kind, EmitItem(kind, i).octets + tail, depth) ==
      if ItemFits(kind, i, depth) then Got(CanonicalItem(kind, i), tail) else No(InvalidData)
  {
    hide ReadDescriptor, DescriptorOctets, ReadOptional, EmitOptional, SizedItem, ItemFits, CanonicalItem;
    var d, o := DescriptorOctets(i.descriptor), EmitOptional(kind, i).octets;
    assert (d + o) + tail == d + (o + tail);
    DescriptorRoundTrip(i.descriptor, o + tail);
    OptionalRoundTrip(kind, i, tail, depth);
  }

  lemma {:induction false} ItemsRoundTrip(kind: ItemKind, items: seq<Item>, tail: Octets, depth: nat)
    requires EmitItems(kind, items).fault == Ok
    requires forall i :: 0 <= i < |items| ==> SizedItem(items[i])
    ensures ReadItems(kind, EmitItems(kind, items).octets + tail, |items|, depth) ==
      if forall i :: 0 <= i < |items| ==> ItemFits(kind, items[i], depth)
      then Got(CanonicalItems(kind, items), tail) else No(InvalidData)
  {
    hide ReadItem, EmitItem, SizedItem, ItemFits, CanonicalItem;
    if items == [] {
      assert [] + tail == tail;
    } else {
      var a, b := EmitItem(kind, items[0]).octets, EmitItems(kind, items[1..]).octets;
      assert (a + b) + tail == a + (b + tail);
      ItemRoundTrip(kind, items[0], b + tail, depth);
      ItemsRoundTrip(kind, items[1..], tail, depth);
      if forall i :: 0 <= i < |items| ==> ItemFits(kind, items[i], depth) {
        assert forall i :: 0 <= i < |items[1..]| ==> ItemFits(kind, items[1..][i], depth);
      } else if ItemFits(kind, items[0], depth) {
        var k :| 0 <= k < |items| && !ItemFits(kind, items[k], depth);
        assert items[1..][k - 1] == items[k];
      }
    }
  }

  lemma U32RoundTrip(n: uint32, tail: Octets)
    ensures ReadU32(BigEndian(n, 4) + tail) == Got(n, tail)
  {
    hide BigEndian, FromBig;
    var x := BigEndian(n, 4);
    assert (x + tail)[..4] == x && (x + tail)[4..] == tail;
    BigEndianRoundTrip(n, 4);
    assert Pow256(4) == 0x1_0000_0000;
  }

  lemma BlockRoundTrip(b: Block, tail: Octets)
    requires |b.rawData| < SIZE_RANGE
    ensures ReadBlock(BlockOctets(b) + tail) == Got(b, tail)
  {
    hide BigEndian, ReadU32, StringOctets, ReadString;
    var n, x := BigEndian(b.blockNumber, 4), StringOctets(b.rawData);
    var f := BooleanOctet(b.lastBlock);
    assert BlockOctets(b) + tail == [f] + (n + (x + tail));
    ReadU8Front(f, n + (x + tail));
    U32RoundTrip(b.blockNumber, x + tail);
    StringRoundTrip(b.rawData, tail);
  }

  lemma PartRoundTrip(part: Part, r: Request, to: Request, tail: Octets, depth: nat)
    requires EmitPart(part, r).fault == Ok && SizedRequest(r)
    requires part == ManyData ==> |to.list| == |r.values|
    ensures ReadPart(part, EmitPart(part, r).octets + tail, to, depth) ==
      if PartFits(part, r, depth) then Got(CanonicalPart(part, r, to), tail) else No(InvalidData)
  {
    hide ReadItem, EmitItem, ReadItems, EmitItems, Decode, DecodeAll, Emit, EmitAll, ReadLength, LengthOctets,
      ReadBlock, BlockOctets, ReadU32, BigEndian, Height, HeightAll, Canonical, CanonicalAll, Sized, AllSized, SizedItem,
      ItemFits, CanonicalItem, CanonicalItems;
    match part
    case OneItem(kind) => ItemRoundTrip(kind, r.item, tail, depth);
    case ManyItems(kind) =>
      var n, e := LengthOctets(|r.list|), EmitItems(kind, r.list).octets;
      assert (n + e) + tail == n + (e + tail);
      LengthRoundTrip(|r.list|, e + tail);
      ItemsRoundTrip(kind, r.list, tail, depth);
    case OneData => DecodeEncoded(r.data, depth, tail);
    case ManyData =>
      var n, e := LengthOctets(|r.values|), EmitAll(r.values).octets;
      assert (n + e) + tail == n + (e + tail);
      LengthRoundTrip(|r.values|, e + tail);
      DecodeAllEncoded(r.values, depth, tail);
    case Number => U32RoundTrip(r.blockNumber, tail);
    case OneBlock => BlockRoundTrip(r.block, tail);
  }

  /** A list of values comes after the list of items it belongs to. */
  predicate ListFirst(parts: seq<Part>, to: Request, r: Request) {
    forall i :: 0 <= i < |parts| && parts[i] == ManyData ==>
      |r.list| == |r.values| && ((exists j :: 0 <= j < i && parts[j].ManyItems?) || |to.list| == |r.list|)
  }

  lemma {:induction false} PartsRoundTrip(parts: seq<Part>, r: Request, to: Request, tail: Octets, depth: nat)
    requires EmitParts(parts, r).fault == Ok && SizedRequest(r)
    requires ListFirst(parts, to, r)
    ensures ReadParts(parts, EmitParts(parts, r).octets + tail, to, depth) ==
      if forall p :: p in parts ==> PartFits(p, r, depth) then Got(CanonicalParts(parts, r, to), tail) else No(InvalidData)
  {
    hide ReadPart, EmitPart, PartFits, SizedRequest;
    if parts == [] {
      assert [] + tail == tail;
    } else {
      var a, b := EmitPart(parts[0], r).octets, EmitParts(parts[1..], r).octets;
      assert (a + b) + tail == a + (b + tail);
      PartRoundTrip(parts[0], r, to, b + tail, depth);
      var to' := CanonicalPart(parts[0], r, to);
      forall i | 0 <= i < |parts[1..]| && parts[1..][i] == ManyData
        ensures |r.list| == |r.values| && ((exists j :: 0 <= j < i && parts[1..][j].ManyItems?) || |to'.list| == |r.list|)
      {
        assert parts[i + 1] == ManyData;
        if !(|to.list| == |r.list|) {
          var j :| 0 <= j < i + 1 && parts[j].ManyItems?;
          if j > 0 {
            assert parts[1..][j - 1].ManyItems?;
          }
        }
      }
      PartsRoundTrip(parts[1..], r, to', tail, depth);
      assert forall p :: p in parts <==> p == parts[0] || p in parts[1..];
    }
  }

  /**
   Every request of every choice that encodes decodes to the same choice and the same
   fields of that choice exactly when its data is within the depth limit.
   */
  lemma RequestRoundTrip(r: Request, depth: nat)
    requires EmitRequest(r).fault == Ok && SizedRequest(r)
    ensures ReadRequest(r.service, EmitRequest(r).octets, depth) ==
      if Fits(r, depth) then Got(CanonicalRequest(r), []) else No(InvalidData)
  {
    hide ReadParts, EmitParts, SizedRequest, PartFits, CanonicalParts;
    var parts := PartsOf(r.service, r.choice).parts;
    var header := [TagOf(r.service), r.choice, r.invokeIdAndPriority];
    var to := Empty(r.service, r.choice, r.invokeIdAndPriority);
    var body := EmitParts(parts, r).octets;
    var x := EmitRequest(r).octets;
    assert x == header + body;
    assert x[3..] == body && body + [] == body;
    assert forall i :: 0 <= i < |parts| && parts[i] == ManyData ==> i == 1 && parts[0].ManyItems? && ManyData in parts;
    PartsRoundTrip(parts, r, to, [], depth);
  }
}
