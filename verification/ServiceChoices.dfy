/**
 GET, SET and ACTION requests choice by choice: the octets of every request, written out,
 and the fields of the record they decode to.
 */
module ServiceChoices {
  import opened Bytes
  import opened Numbers
  import opened Apdu
  import opened Axdr
  import opened DlmsData
  import opened DlmsDataTypes
  import opened ServiceRequests

  // ---- Parts, as octets ----

  /** Class, logical name, and attribute or method. */
  function DescriptorLine(d: Descriptor): Octets {
    [d.classId / 256, d.classId % 256] + d.logicalName + [d.id]
  }

  /** A descriptor with what may follow it: a flag, and then the selector and parameters, or the parameters alone. */
  function ItemLine(kind: ItemKind, i: Item): Octets {
    DescriptorLine(i.descriptor)
    + (match kind
       case Bare => []
       case WithSelection => if i.present then [1, i.selector] + Emit(i.data).octets else [0]
       case WithParameter => if i.present then [1] + Emit(i.data).octets else [0])
  }

  function ItemLines(kind: ItemKind, items: seq<Item>): Octets {
    if items == [] then [] else ItemLine(kind, items[0]) + ItemLines(kind, items[1..])
  }

  function ListLine(kind: ItemKind, items: seq<Item>): Octets {
    LengthOctets(|items|) + ItemLines(kind, items)
  }

  function ValuesLine(values: seq<Data>): Octets {
    LengthOctets(|values|) + Chained(values)
  }

  function BlockLine(b: Block): Octets {
    [if b.lastBlock then 1 else 0] + Octets4(b.blockNumber) + (LengthOctets(|b.rawData|) + b.rawData)
  }

  lemma DescriptorIs(d: Descriptor)
    ensures DescriptorOctets(d) == DescriptorLine(d)
  {
    hide BigEndian;
    BigEndianWritten(d.classId);
    assert d.classId / 256 % 256 == d.classId / 256;
  }

  lemma ItemIs(kind: ItemKind, i: Item)
    requires EmitItem(kind, i).fault == Ok
    ensures EmitItem(kind, i).octets == ItemLine(kind, i)
  {
    hide Emit, DescriptorOctets, DescriptorLine;
    DescriptorIs(i.descriptor);
  }

  lemma {:induction false} ItemsAre(kind: ItemKind, items: seq<Item>)
    requires EmitItems(kind, items).fault == Ok
    ensures EmitItems(kind, items).octets == ItemLines(kind, items)
  {
    hide EmitItem, ItemLine;
    if items != [] {
      ItemIs(kind, items[0]);
      ItemsAre(kind, items[1..]);
    }
  }

  lemma BlockIs(b: Block)
    ensures BlockOctets(b) == BlockLine(b)
  {
    hide BigEndian, Octets4, LengthOctets;
    BigEndianWritten(b.blockNumber);
  }

  /** The octets of one part of a request that encodes. */
  function PartLine(part: Part, r: Request): Octets {
    match part
    case OneItem(kind) => ItemLine(kind, r.item)
    case ManyItems(kind) => ListLine(kind, r.list)
    case OneData => Emit(r.data).octets
    case ManyData => ValuesLine(r.values)
    case Number => Octets4(r.blockNumber)
    case OneBlock => BlockLine(r.block)
  }

  lemma PartIs(part: Part, r: Request)
    requires EmitPart(part, r).fault == Ok
    ensures EmitPart(part, r).octets == PartLine(part, r)
  {
    hide EmitItem, EmitItems, ItemLine, ItemLines, Emit, EmitAll, Chained, LengthOctets, BigEndian, Octets4, BlockOctets, BlockLine;
    match part
    case OneItem(kind) => ItemIs(kind, r.item);
    case ManyItems(kind) => ItemsAre(kind, r.list);
    case OneData =>
    case ManyData => ElementsChained(r.values);
    case Number => BigEndianWritten(r.blockNumber);
    case OneBlock => BlockIs(r.block);
  }

  // ---- Requests ----

  /**
   A request of one choice: its octets are the service's tag, the choice, the invoke id and
   `body`, and they decode to `meaning` when the data is within the depth limit.
   */
  predicate Carried(r: Request, tag: byte, body: Octets, meaning: Request, fits: bool, depth: nat) {
    var x := EmitRequest(r).octets;
    && x == [tag, r.choice, r.invokeIdAndPriority] + body
    && ReadRequest(r.service, x, depth) == if fits then Got(meaning, []) else No(InvalidData)
  }

  /** The record with its header alone. */
  function HeaderOf(r: Request): Request {
    Empty(r.service, r.choice, r.invokeIdAndPriority)
  }

  predicate ListFits(kind: ItemKind, items: seq<Item>, depth: nat) {
    forall i :: 0 <= i < |items| ==> ItemFits(kind, items[i], depth)
  }

  lemma OnePart(r: Request, part: Part, depth: nat)
    requires EmitRequest(r).fault == Ok && SizedRequest(r)
    requires PartsOf(r.service, r.choice) == Parts([part])
    ensures Carried(r, TagOf(r.service), PartLine(part, r), CanonicalPart(part, r, HeaderOf(r)), PartFits(part, r, depth), depth)
  {
    hide EmitPart, PartLine, CanonicalPart, PartFits, SizedRequest, ReadRequest, PartsOf;
    RequestRoundTrip(r, depth);
    var parts := [part];
    assert parts[1..] == [];
    assert EmitParts([], r) == Plain([]);
    ThenNothing(EmitPart(part, r));
    assert EmitParts(parts, r) == EmitPart(part, r);
    assert CanonicalParts(parts, r, HeaderOf(r)) == CanonicalPart(part, r, HeaderOf(r));
    assert (forall p :: p in parts ==> PartFits(p, r, depth)) <==> PartFits(part, r, depth);
    assert EmitRequest(r) == Then(Plain([TagOf(r.service), r.choice, r.invokeIdAndPriority]), EmitPart(part, r));
    PartIs(part, r);
  }

  lemma TwoParts(r: Request, a: Part, b: Part, depth: nat)
    requires EmitRequest(r).fault == Ok && SizedRequest(r)
    requires PartsOf(r.service, r.choice) == Parts([a, b])
    ensures Carried(r, TagOf(r.service), PartLine(a, r) + PartLine(b, r),
      CanonicalPart(b, r, CanonicalPart(a, r, HeaderOf(r))), PartFits(a, r, depth) && PartFits(b, r, depth), depth)
  {
    hide EmitPart, PartLine, CanonicalPart, PartFits, SizedRequest, ReadRequest, PartsOf;
    RequestRoundTrip(r, depth);
    var parts := [a, b];
    assert parts[1..] == [b] && [b][1..] == [];
    assert EmitParts([], r) == Plain([]);
    ThenNothing(EmitPart(b, r));
    assert EmitParts([b], r) == EmitPart(b, r);
    assert EmitParts(parts, r) == Then(EmitPart(a, r), EmitPart(b, r));
    assert CanonicalParts([b], r, CanonicalPart(a, r, HeaderOf(r))) == CanonicalPart(b, r, CanonicalPart(a, r, HeaderOf(r)));
    assert (forall p :: p in parts ==> PartFits(p, r, depth)) <==> PartFits(a, r, depth) && PartFits(b, r, depth);
    assert EmitRequest(r) == Then(Plain([TagOf(r.service), r.choice, r.invokeIdAndPriority]), EmitParts(parts, r));
    PartIs(a, r);
    PartIs(b, r);
  }

  /** GET: an attribute with selective access, the next block, or a list of attributes. */
  lemma GetLaw(r: Request, depth: nat)
    requires r.service == Get && EmitRequest(r).fault == Ok && SizedRequest(r)
    ensures 1 <= r.choice <= 3
    ensures r.choice == 1 ==>
      Carried(r, 0xc0, ItemLine(WithSelection, r.item),
        HeaderOf(r).(item := CanonicalItem(WithSelection, r.item)), ItemFits(WithSelection, r.item, depth), depth)
    ensures r.choice == 2 ==>
      Carried(r, 0xc0, Octets4(r.blockNumber), HeaderOf(r).(blockNumber := r.blockNumber), true, depth)
    ensures r.choice == 3 ==>
      Carried(r, 0xc0, ListLine(WithSelection, r.list),
        HeaderOf(r).(list := CanonicalItems(WithSelection, r.list)), ListFits(WithSelection, r.list, depth), depth)
  {
    hide Carried, SizedRequest, EmitParts, ItemLine, ListLine, Octets4, CanonicalItem, CanonicalItems, ItemFits;
    if r.choice == 1 {
      OnePart(r, OneItem(WithSelection), depth);
    } else if r.choice == 2 {
      OnePart(r, Number, depth);
    } else {
      OnePart(r, ManyItems(WithSelection), depth);
    }
  }

  /**
   SET: an attribute and its value, an attribute and its first block, a further block, a
   list of attributes and as many values, or a list of attributes and the first block.
   */
  lemma SetLaw(r: Request, depth: nat)
    requires r.service == Set && EmitRequest(r).fault == Ok && SizedRequest(r)
    ensures 1 <= r.choice <= 5
    ensures r.choice == 1 ==>
      Carried(r, 0xc1, ItemLine(WithSelection, r.item) + Emit(r.data).octets,
        HeaderOf(r).(item := CanonicalItem(WithSelection, r.item), data := Canonical(r.data)),
        ItemFits(WithSelection, r.item, depth) && Height(r.data) <= depth, depth)
    ensures r.choice == 2 ==>
      Carried(r, 0xc1, ItemLine(WithSelection, r.item) + BlockLine(r.block),
        HeaderOf(r).(item := CanonicalItem(WithSelection, r.item), block := r.block),
        ItemFits(WithSelection, r.item, depth), depth)
    ensures r.choice == 3 ==> Carried(r, 0xc1, BlockLine(r.block), HeaderOf(r).(block := r.block), true, depth)
    ensures r.choice == 4 ==>
      && |r.list| == |r.values|
      && Carried(r, 0xc1, ListLine(WithSelection, r.list) + ValuesLine(r.values),
           HeaderOf(r).(list := CanonicalItems(WithSelection, r.list), values := CanonicalAll(r.values)),
           ListFits(WithSelection, r.list, depth) && HeightAll(r.values) <= depth, depth)
    ensures r.choice == 5 ==>
      Carried(r, 0xc1, ListLine(WithSelection, r.list) + BlockLine(r.block),
        HeaderOf(r).(list := CanonicalItems(WithSelection, r.list), block := r.block),
        ListFits(WithSelection, r.list, depth), depth)
  {
    hide Carried, SizedRequest, EmitParts, ItemLine, ListLine, ValuesLine, BlockLine, CanonicalItem, CanonicalItems,
      ItemFits, Emit, Canonical, CanonicalAll, Height, HeightAll;
    if r.choice == 1 {
      TwoParts(r, OneItem(WithSelection), OneData, depth);
    } else if r.choice == 2 {
      TwoParts(r, OneItem(WithSelection), OneBlock, depth);
    } else if r.choice == 3 {
      OnePart(r, OneBlock, depth);
    } else if r.choice == 4 {
      TwoParts(r, ManyItems(WithSelection), ManyData, depth);
      assert ManyData in [ManyItems(WithSelection), ManyData];
    } else {
      TwoParts(r, ManyItems(WithSelection), OneBlock, depth);
    }
  }

  /**
   ACTION: a method with its parameter, the next block, a list of methods with their
   parameters, a method or a list of methods and the first block, or a further block.
   */
  lemma ActionLaw(r: Request, depth: nat)
    requires r.service == Action && EmitRequest(r).fault == Ok && SizedRequest(r)
    ensures 1 <= r.choice <= 6
    ensures r.choice == 1 ==>
      Carried(r, 0xc3, ItemLine(WithParameter, r.item),
        HeaderOf(r).(item := CanonicalItem(WithParameter, r.item)), ItemFits(WithParameter, r.item, depth), depth)
    ensures r.choice == 2 ==>
      Carried(r, 0xc3, Octets4(r.blockNumber), HeaderOf(r).(blockNumber := r.blockNumber), true, depth)
    ensures r.choice == 3 ==>
      Carried(r, 0xc3, ListLine(WithParameter, r.list),
        HeaderOf(r).(list := CanonicalItems(WithParameter, r.list)), ListFits(WithParameter, r.list, depth), depth)
    ensures r.choice == 4 ==>
      Carried(r, 0xc3, ItemLine(Bare, r.item) + BlockLine(r.block),
        HeaderOf(r).(item := CanonicalItem(Bare, r.item), block := r.block), true, depth)
    ensures r.choice == 5 ==>
      Carried(r, 0xc3, ListLine(Bare, r.list) + BlockLine(r.block),
        HeaderOf(r).(list := CanonicalItems(Bare, r.list), block := r.block), true, depth)
    ensures r.choice == 6 ==> Carried(r, 0xc3, BlockLine(r.block), HeaderOf(r).(block := r.block), true, depth)
  {
    hide Carried, SizedRequest, EmitParts, ItemLine, ListLine, BlockLine, Octets4, CanonicalItem, CanonicalItems;
    if r.choice == 1 {
      OnePart(r, OneItem(WithParameter), depth);
    } else if r.choice == 2 {
      OnePart(r, Number, depth);
    } else if r.choice == 3 {
      OnePart(r, ManyItems(WithParameter), depth);
    } else if r.choice == 4 {
      TwoParts(r, OneItem(Bare), OneBlock, depth);
    } else if r.choice == 5 {
      TwoParts(r, ManyItems(Bare), OneBlock, depth);
    } else {
      OnePart(r, OneBlock, depth);
    }
  }

  /** What an item comes back as, by its kind: selectors and data that are not sent are blank. */
  lemma ItemMeaning(i: Item)
    ensures CanonicalItem(WithSelection, i) ==
      if i.present then i.(data := Canonical(i.data)) else Item(i.descriptor, false, 0, Blank(0))
    ensures CanonicalItem(WithParameter, i) ==
      if i.present then i.(selector := 0, data := Canonical(i.data)) else Item(i.descriptor, false, 0, Blank(0))
    ensures CanonicalItem(Bare, i) == Item(i.descriptor, false, 0, Blank(0))
  {
    hide Canonical;
  }

  lemma {:induction false} ItemsMeaning(kind: ItemKind, items: seq<Item>, i: nat)
    requires i < |items|
    ensures CanonicalItems(kind, items)[i] == CanonicalItem(kind, items[i])
  {
    hide CanonicalItem;
    if i > 0 {
      ItemsMeaning(kind, items[1..], i - 1);
    }
  }

  // ---- Which requests encode ----

  predicate ItemEncodes(kind: ItemKind, i: Item) {
    kind != Bare && i.present ==> WellFormed(i.data)
  }

  predicate ListEncodes(kind: ItemKind, items: seq<Item>) {
    forall i :: 0 <= i < |items| ==> ItemEncodes(kind, items[i])
  }

  predicate ValuesEncode(values: seq<Data>) {
    forall i :: 0 <= i < |values| ==> WellFormed(values[i])
  }

  /** The data a choice carries can be encoded, and lists go with as many values. */
  predicate Encodes(r: Request) {
    match r.service
    case Get =>
      || (r.choice == 1 && ItemEncodes(WithSelection, r.item))
      || r.choice == 2
      || (r.choice == 3 && ListEncodes(WithSelection, r.list))
    case Set =>
      || (r.choice == 1 && ItemEncodes(WithSelection, r.item) && WellFormed(r.data))
      || (r.choice == 2 && ItemEncodes(WithSelection, r.item))
      || r.choice == 3
      || (r.choice == 4 && |r.list| == |r.values| && ListEncodes(WithSelection, r.list) && ValuesEncode(r.values))
      || (r.choice == 5 && ListEncodes(WithSelection, r.list))
    case Action =>
      || (r.choice == 1 && ItemEncodes(WithParameter, r.item))
      || r.choice == 2
      || (r.choice == 3 && ListEncodes(WithParameter, r.list))
      || 4 <= r.choice <= 6
  }

  lemma {:induction false} ItemsEncode(kind: ItemKind, items: seq<Item>)
    ensures EmitItems(kind, items).fault == Ok <==> ListEncodes(kind, items)
  {
    hide DescriptorOctets, Emit;
    if items != [] {
      ItemsEncode(kind, items[1..]);
      assert EmitItem(kind, items[0]).fault == Ok <==> ItemEncodes(kind, items[0]);
      if ListEncodes(kind, items) {
        assert forall i :: 0 <= i < |items[1..]| ==> items[1..][i] == items[i + 1];
      } else if ItemEncodes(kind, items[0]) {
        var i :| 0 <= i < |items| && !ItemEncodes(kind, items[i]);
        assert items[1..][i - 1] == items[i];
      }
    }
  }

  lemma PartEncodes(part: Part, r: Request)
    ensures EmitPart(part, r).fault == Ok <==>
      match part
      case OneItem(kind) => ItemEncodes(kind, r.item)
      case ManyItems(kind) => ListEncodes(kind, r.list)
      case OneData => WellFormed(r.data)
      case ManyData => ValuesEncode(r.values)
      case _ => true
  {
    hide DescriptorOctets, Emit, EmitAll, EmitItems, LengthOctets, ListEncodes;
    match part
    case OneItem(kind) => assert EmitItem(kind, r.item).fault == EmitOptional(kind, r.item).fault;
    case ManyItems(kind) => ItemsEncode(kind, r.list);
    case ManyData =>
      ElementsChained(r.values);
      assert forall i :: 0 <= i < |r.values| ==> (WellFormed(r.values[i]) <==> Emit(r.values[i]).fault == Ok);
    case _ =>
  }

  lemma PartsEncode(a: Part, b: Part, r: Request)
    ensures EmitParts([a], r).fault == Ok <==> EmitPart(a, r).fault == Ok
    ensures EmitParts([a, b], r).fault == Ok <==> EmitPart(a, r).fault == Ok && EmitPart(b, r).fault == Ok
  {
    hide EmitPart;
    assert [a, b][1..] == [b] && [b][1..] == [] && [a][1..] == [];
    assert EmitParts([], r) == Plain([]);
    assert EmitParts([b], r) == Then(EmitPart(b, r), Plain([]));
  }

  lemma BareEncodes(r: Request)
    ensures ListEncodes(Bare, r.list) && ItemEncodes(Bare, r.item)
  {
  }

  /** A request encodes exactly when its choice is known and the data of that choice can be encoded. */
  lemma EncodesExact(r: Request)
    ensures EmitRequest(r).fault == Ok <==> Encodes(r)
  {
    hide EmitParts, EmitPart, ItemEncodes, ListEncodes, ValuesEncode, WellFormed;
    assert EmitRequest(r).fault == ServiceRequests.EmitBody(r).fault;
    BareEncodes(r);
    match PartsOf(r.service, r.choice)
    case Unknown =>
    case Parts(parts) =>
      assert 1 <= |parts| <= 2;
      var a, b := parts[0], parts[|parts| - 1];
      assert parts == if |parts| == 1 then [a] else [a, b];
      PartsEncode(a, b, r);
      PartEncodes(a, r);
      PartEncodes(b, r);
  }

  /** These are all the choices, in either direction. */
  lemma ChoicesExact(r: Request, tail: Octets, depth: nat)
    requires r.choice == 0 || r.choice > (match r.service case Get => 3 case Set => 5 case Action => 6)
    ensures EmitRequest(r).fault == InvalidChoice
    ensures ReadRequest(r.service, [match r.service case Get => 0xc0 case Set => 0xc1 case Action => 0xc3, r.choice,
      r.invokeIdAndPriority] + tail, depth) == No(UnsupportedXdlmsService)
  {
  }
}
