/**
 * What an entry of a configuration means: its window, and for every register content what is published of it, by store,
 * format, size and swap settings (src/config_parser.cpp, src/mqtt_converters.cpp).
 */
module Entries {
  import opened Modbus
  import opened Dispatch
  import opened Converters
  import opened ByteConverters
  import opened Observers
  import opened Config
  import opened Windows
  import opened Layouts
  import opened Queries
  import opened ModbusServer
  import opened Writes
  import opened Gateway

  /** A format the entry may have; coils and discrete inputs have none. */
  predicate HasFormat(store: StoreType, item: Item) {
    store in {Coil, DiscreteInput} || item.format in {"varchar", "float", "signed", "unsigned", "bcd"}
  }

  /** How many cells a message on the entry's topic writes, and a write publishes. */
  function CellCount(store: StoreType, item: Item): nat {
    if store in {Coil, DiscreteInput} then 1
    else if item.format == "varchar" then if item.size < 0 then 1 else item.size
    else if item.format == "float" then if 0 <= item.size <= 4 then 2 else 4
    else if 0 <= item.size <= 2 then 1
    else if 0 <= item.size <= 4 then 2
    else 4
  }

  /** How many cells the entry observes. */
  function WindowWidth(store: StoreType, item: Item): nat {
    if store in {Coil, DiscreteInput} then 1
    else if item.format == "varchar" then if item.size < 0 then 1 else item.size
    else if item.size < 2 then 0
    else item.size / 2
  }

  /** The bits of a number in the entry's cells. */
  function WordOf(item: Item, w: seq<int>): int {
    Positional(65536, Turned(w, if item.format == "float" then !item.byteSwap else item.byteSwap, item.wordSwap))
  }

  /** Cells that can be published: all but those of a BCD entry with more than nine digits. */
  predicate IsReadable(store: StoreType, item: Item, w: seq<int>) {
    store !in {Coil, DiscreteInput} && item.format == "bcd" ==> WordOf(item, w) < 0x10_0000_0000
  }

  /** The kind of integer a format stands for. */
  function KindOf(format: string): IntegerType {
    if format == "signed" then Signed else if format == "bcd" then Bcd else Unsigned
  }

  /** What such cells mean. */
  ghost predicate IsMeant(store: StoreType, item: Item, w: seq<int>, reading: Reading)
    requires |w| == CellCount(store, item) && AllWords(w)
  {
    if store in {Coil, DiscreteInput} then reading == Number(if w[0] == 0 then 0 else 1)
    else if item.format == "varchar" then reading.Characters? && IsText(w, item.byteSwap, item.wordSwap, reading.text)
    else
      var word := WordOf(item, w);
      word >= 0 && reading == Number(
        if item.format == "float" then word else Meant(KindOf(item.format), 2 * CellCount(store, item), word))
  }

  /** The converter reads cells as the entry means them. */
  ghost predicate ReadsAsMeant(c: Converter, store: StoreType, item: Item) {
    && Proper(c) && Footprint(c) == CellCount(store, item)
    && forall w: seq<int> | |w| == CellCount(store, item) && AllWords(w) ::
         && (Unpackable(c, w) <==> IsReadable(store, item, w))
         && (Unpackable(c, w) ==> IsMeant(store, item, w, Unpacked(c, w)))
  }

  /** What a text without whitespace leaves in registers: a character each, in one byte, and NUL behind its end. */
  ghost predicate IsTextLeft(item: Item, was: seq<int>, text: Payload, w: seq<int>) {
    && |was| == |w|
    && forall p | 0 <= p < |w| ::
         var i := if item.wordSwap then |w| - 1 - p else p;
         var b: int := if i < |text| then text[i] else 0;
         w[p] == if item.byteSwap then 256 * b + was[p] % 256 else was[p] / 256 * 256 + b
  }

  /** What a message leaves in the entry's cells; of a text this says so if there is no whitespace to be skipped. */
  ghost predicate IsLeft(store: StoreType, item: Item, was: seq<int>, number: int, text: Payload, w: seq<int>) {
    if store in {Coil, DiscreteInput} then w == [if number == 0 then 0 else 1]
    else if item.format == "varchar" then
      (exists k :: 0 <= k < |w| && k < |text| && IsWhite(text[k])) || IsTextLeft(item, was, text, w)
    else if item.format == "float" then WordOf(item, w) == number
    else IsBitsOf(KindOf(item.format), |w|, number, WordOf(item, w))
  }

  /** The converter packs messages as the entry means them. */
  ghost predicate PacksAsMeant(c: Converter, store: StoreType, item: Item) {
    && Footprint(c) == CellCount(store, item)
    && forall was: seq<int>, number: int, text: Payload |
         |was| == CellCount(store, item) && AllWords(was) && Packable(c, number) ::
         IsLeft(store, item, was, number, text, Packed(c, was, number, text))
  }

  /** The window of an entry. */
  ghost predicate IsWindowFor(p: Placement, store: StoreType, item: Item) {
    && p.slot.unit == item.unit && p.slot.store == store && p.address == item.address
    && p.width == WindowWidth(store, item) && p.topic == item.topic && p.number == item.number
    && ReadsAsMeant(p.conv, store, item) && PacksAsMeant(p.conv, store, item)
  }

  /** The converter and the window of an entry. */
  lemma ConverterOf(store: StoreType, item: Item)
    requires InSchema(store, item) && HasFormat(store, item)
    ensures Compile(store, item).Ready? && Compile(store, item).width == WindowWidth(store, item)
    ensures var n := CellCount(store, item);
      Compile(store, item).conv ==
      if store in {Coil, DiscreteInput} then Discr
      else if item.format == "varchar" then Text(n, item.byteSwap, item.wordSwap)
      else if item.format == "float" then Float(2 * n, item.byteSwap, item.wordSwap)
      else Integer(KindOf(item.format), 2 * n, item.byteSwap, item.wordSwap)
  {
    if store !in {Coil, DiscreteInput} {
      assert item.size >= 0 ==> Unsigned32(item.size) == item.size;
      assert item.size < 0 ==> Unsigned32(item.size) == 0xFFFF_FFFF;
    }
  }

  lemma CellsMean(store: StoreType, item: Item, w: seq<int>)
    requires InSchema(store, item) && HasFormat(store, item) && |w| == CellCount(store, item) && AllWords(w)
    ensures Compile(store, item).Ready? && Footprint(Compile(store, item).conv) == |w|
    ensures var c := Compile(store, item).conv;
      && (Unpackable(c, w) <==> IsReadable(store, item, w))
      && (Unpackable(c, w) ==> IsMeant(store, item, w, Unpacked(c, w)))
  {
    ConverterOf(store, item);
    var c := Compile(store, item).conv;
    match c
    case Discr =>
    case Integer(_, _, _, _) => IntegerMeans(c, w);
    case Float(_, _, _) => FloatMeans(c, w);
    case Text(_, _, _) => TextMeans(c, w);
  }

  lemma TextLeft(item: Item, was: seq<int>, text: Payload)
    requires AllWords(was) && forall k | 0 <= k < |was| && k < |text| :: !IsWhite(text[k])
    ensures IsTextLeft(item, was, text, TextRegisters(Text(|was|, item.byteSwap, item.wordSwap), was, text))
  {
    forall p | 0 <= p < |was| {
      TextLeaves(Text(|was|, item.byteSwap, item.wordSwap), was, text, p);
    }
  }

  lemma CellsLeft(store: StoreType, item: Item, was: seq<int>, number: int, text: Payload)
    requires InSchema(store, item) && HasFormat(store, item) && |was| == CellCount(store, item) && AllWords(was)
    requires Compile(store, item).Ready? && Footprint(Compile(store, item).conv) == |was|
    requires Packable(Compile(store, item).conv, number)
    ensures IsLeft(store, item, was, number, text, Packed(Compile(store, item).conv, was, number, text))
  {
    ConverterOf(store, item);
    var c := Compile(store, item).conv;
    match c
    case Discr =>
    case Integer(_, _, _, _) => IntegerLeaves(c, number);
    case Float(_, _, _) => FloatLeaves(c, number);
    case Text(_, _, _) =>
      if forall k | 0 <= k < |was| && k < |text| :: !IsWhite(text[k]) {
        TextLeft(item, was, text);
      }
  }

  /** Main result: what an entry of any store, format, size and swap settings becomes, for every register content. */
  lemma EntryMeans(store: StoreType, item: Item)
    requires InSchema(store, item) && HasFormat(store, item)
    ensures Compile(store, item).Ready? && IsWindowFor(PlacementOf(store, item), store, item)
  {
    ConverterOf(store, item);
    forall w: seq<int> | |w| == CellCount(store, item) && AllWords(w)
      ensures var c := Compile(store, item).conv;
        && (Unpackable(c, w) <==> IsReadable(store, item, w))
        && (Unpackable(c, w) ==> IsMeant(store, item, w, Unpacked(c, w)))
    {
      CellsMean(store, item, w);
    }
    forall was: seq<int>, number: int, text: Payload |
      |was| == CellCount(store, item) && AllWords(was) && Packable(Compile(store, item).conv, number)
      ensures IsLeft(store, item, was, number, text, Packed(Compile(store, item).conv, was, number, text))
    {
      CellsLeft(store, item, was, number, text);
    }
  }

  /** An enabled entry of one of the lists, and the store it is for. */
  ghost predicate IsEntry(rs: Registers, store: StoreType, item: Item) {
    && item.enabled
    && match store
       case Coil => item in rs.coils
       case DiscreteInput => item in rs.discretes
       case HoldingRegister => item in rs.holdings
       case InputRegister => item in rs.inputs
  }

  lemma ListsAreInSchema(rs: Registers)
    requires AllInSchema(rs)
    ensures ListInSchema(Coil, rs.coils) && ListInSchema(DiscreteInput, rs.discretes)
    ensures ListInSchema(HoldingRegister, rs.holdings) && ListInSchema(InputRegister, rs.inputs)
  {
    assert ListInSchema(StoreAt(0), ListAt(rs, 0)) && ListInSchema(StoreAt(1), ListAt(rs, 1));
    assert ListInSchema(StoreAt(2), ListAt(rs, 2)) && ListInSchema(StoreAt(3), ListAt(rs, 3));
  }

  /** The lists follow one another in the order in which they are built. */
  lemma ListsInOrder(rs: Registers)
    requires AllInSchema(rs)
    ensures ListInSchema(Coil, rs.coils) && ListInSchema(DiscreteInput, rs.discretes)
    ensures ListInSchema(HoldingRegister, rs.holdings) && ListInSchema(InputRegister, rs.inputs)
    ensures PlacementsOf(rs, 4)
         == Placements(Coil, rs.coils, |rs.coils|) + Placements(DiscreteInput, rs.discretes, |rs.discretes|)
            + Placements(HoldingRegister, rs.holdings, |rs.holdings|)
            + Placements(InputRegister, rs.inputs, |rs.inputs|)
  {
    ListsAreInSchema(rs);
    NextList(rs, 0);
    NextList(rs, 1);
    NextList(rs, 2);
    NextList(rs, 3);
    assert [] + Placements(Coil, rs.coils, |rs.coils|) == Placements(Coil, rs.coils, |rs.coils|);
  }

  lemma NextList(rs: Registers, n: nat)
    requires AllInSchema(rs) && n < 4
    ensures ListInSchema(StoreAt(n), ListAt(rs, n)) && PlacementsOf(rs, 0) == []
    ensures PlacementsOf(rs, n + 1)
         == PlacementsOf(rs, n) + Placements(StoreAt(n), ListAt(rs, n), |ListAt(rs, n)|)
  {
  }

  /** p is the window of an enabled entry of the list. */
  ghost predicate IsOfList(p: Placement, store: StoreType, list: seq<Item>) {
    exists item :: item in list && item.enabled && HasFormat(store, item) && IsWindowFor(p, store, item)
  }

  lemma {:induction false} ListPlaced(store: StoreType, list: seq<Item>, n: nat, p: Placement)
    requires n <= |list| && ListInSchema(store, list) && p in Placements(store, list, n)
    ensures IsOfList(p, store, list)
  {
    var item := list[n - 1];
    if p in Placements(store, list, n - 1) {
      ListPlaced(store, list, n - 1, p);
    } else {
      assert item in list && HasFormat(store, item);
      EntryMeans(store, item);
    }
  }

  lemma {:induction false} EntryPlaced(store: StoreType, list: seq<Item>, n: nat, i: nat)
    requires i < n <= |list| && ListInSchema(store, list) && list[i].enabled && HasFormat(store, list[i])
    ensures exists p :: p in Placements(store, list, n) && IsWindowFor(p, store, list[i])
  {
    if i < n - 1 {
      EntryPlaced(store, list, n - 1, i);
      var p :| p in Placements(store, list, n - 1) && IsWindowFor(p, store, list[i]);
      assert p in Placements(store, list, n);
    } else {
      EntryMeans(store, list[i]);
      assert PlacementOf(store, list[i]) in Placements(store, list, n);
    }
  }

  /** Main result: every window of a configuration is that of one of its enabled entries. */
  lemma WindowHasEntry(rs: Registers, j: nat) returns (store: StoreType, item: Item)
    requires AllInSchema(rs) && j < |PlacementsOf(rs, 4)|
    ensures IsEntry(rs, store, item) && HasFormat(store, item) && IsWindowFor(PlacementsOf(rs, 4)[j], store, item)
  {
    ListsInOrder(rs);
    var p := PlacementsOf(rs, 4)[j];
    if p in Placements(Coil, rs.coils, |rs.coils|) {
      store := Coil;
      ListPlaced(store, rs.coils, |rs.coils|, p);
      item :| item in rs.coils && item.enabled && HasFormat(store, item) && IsWindowFor(p, store, item);
    } else if p in Placements(DiscreteInput, rs.discretes, |rs.discretes|) {
      store := DiscreteInput;
      ListPlaced(store, rs.discretes, |rs.discretes|, p);
      item :| item in rs.discretes && item.enabled && HasFormat(store, item) && IsWindowFor(p, store, item);
    } else if p in Placements(HoldingRegister, rs.holdings, |rs.holdings|) {
      store := HoldingRegister;
      ListPlaced(store, rs.holdings, |rs.holdings|, p);
      item :| item in rs.holdings && item.enabled && HasFormat(store, item) && IsWindowFor(p, store, item);
    } else {
      store := InputRegister;
      ListPlaced(store, rs.inputs, |rs.inputs|, p);
      item :| item in rs.inputs && item.enabled && HasFormat(store, item) && IsWindowFor(p, store, item);
    }
  }

  /** Main result: and every enabled entry with a format has its window there. */
  lemma EntryHasWindow(rs: Registers, store: StoreType, item: Item)
    requires AllInSchema(rs) && IsEntry(rs, store, item) && HasFormat(store, item)
    ensures exists p :: p in PlacementsOf(rs, 4) && IsWindowFor(p, store, item)
  {
    ListsInOrder(rs);
    var list := match store
      case Coil => rs.coils
      case DiscreteInput => rs.discretes
      case HoldingRegister => rs.holdings
      case InputRegister => rs.inputs;
    var i :| 0 <= i < |list| && list[i] == item;
    EntryPlaced(store, list, |list|, i);
    var p :| p in Placements(store, list, |list|) && IsWindowFor(p, store, item);
    assert p in PlacementsOf(rs, 4);
  }

  /** The values a write has for the cells of an entry. */
  function ValuesOfEntry(store: StoreType, item: Item, r: Request): (w: seq<int>)
    requires r.Write? && r.start <= item.address && item.address - r.start + CellCount(store, item) <= |r.values|
    ensures |w| == CellCount(store, item)
  {
    var at := item.address - r.start;
    r.values[at..at + CellCount(store, item)]
  }

  /** m publishes on the entry's topic what the values a write has for it mean. */
  ghost predicate Publishes(store: StoreType, item: Item, r: Request, m: Message) {
    && r.Write? && r.slot.store == store && r.slot.unit == item.unit && AllWords(r.values)
    && r.start <= item.address && item.address - r.start + CellCount(store, item) <= |r.values|
    && IsReadable(store, item, ValuesOfEntry(store, item, r))
    && m.topic == item.topic + "/on" && m.qos == 1 && !m.retained
    && IsMeant(store, item, ValuesOfEntry(store, item, r), m.reading)
  }

  lemma ReadMeans(c: Converter, store: StoreType, item: Item, w: seq<int>)
    requires ReadsAsMeant(c, store, item) && |w| == CellCount(store, item) && AllWords(w) && Unpackable(c, w)
    ensures IsReadable(store, item, w) && IsMeant(store, item, w, Unpacked(c, w))
  {
  }

  lemma SameValues(p: Placement, store: StoreType, item: Item, r: Request)
    requires HasValue(p, r) && p.address == item.address && Footprint(p.conv) == CellCount(store, item)
    ensures r.start <= item.address && item.address - r.start + CellCount(store, item) <= |r.values|
    ensures ValuesFor(p, r) == ValuesOfEntry(store, item, r) && AllWords(ValuesFor(p, r))
  {
  }

  /** Main result: every message published for a write is what the values mean for the entry of its window. */
  lemma PublishedIsMeant(rs: Registers, run: seq<nat>, r: Request, published: seq<Message>, i: nat)
    returns (store: StoreType, item: Item)
    requires AllInSchema(rs) && r.Write? && CoversRow(PlacementsOf(rs, 4), run, r)
    requires IsPublished(PlacementsOf(rs, 4), run, r, published) && i < |published|
    ensures IsEntry(rs, store, item) && HasFormat(store, item)
    ensures IsWindowFor(PlacementsOf(rs, 4)[run[i]], store, item) && Publishes(store, item, r, published[i])
  {
    store, item := WindowHasEntry(rs, run[i]);
    var p := PlacementsOf(rs, 4)[run[i]];
    assert HasValue(p, r) && published[i] == MessageFor(p, r);
    SameValues(p, store, item, r);
    ReadMeans(p.conv, store, item, ValuesFor(p, r));
  }

  /** The windows of a row of single cells follow one another. */
  lemma {:induction false} RowOfCells(ps: seq<Placement>, run: seq<nat>, slot: Slot, start: int, end: int, i: nat)
    requires IsRow(ps, run, slot, start, end) && (forall j | 0 <= j < |run| :: ps[run[j]].width == 1) && i < |run|
    ensures ps[run[i]].address == start + i
  {
    if i > 0 {
      RowOfCells(ps, run, slot, start, end, i - 1);
    }
  }

  /** Entries of coils have one cell. */
  lemma CoilWindows(rs: Registers, run: seq<nat>, r: Request)
    requires AllInSchema(rs) && CoversRow(PlacementsOf(rs, 4), run, r) && r.slot.store == Coil
    ensures |run| == r.count
    ensures forall i | 0 <= i < |run| ::
      PlacementsOf(rs, 4)[run[i]].width == 1 && PlacementsOf(rs, 4)[run[i]].address == r.start + i
  {
    var ps := PlacementsOf(rs, 4);
    forall i | 0 <= i < |run|
      ensures ps[run[i]].width == 1
    {
      var store, item := WindowHasEntry(rs, run[i]);
    }
    forall i | 0 <= i < |run|
      ensures ps[run[i]].address == r.start + i
    {
      RowOfCells(ps, run, r.slot, r.start, r.start + r.count, i);
    }
  }

  /** What is published for coil i of a write. */
  lemma CoilPublished(rs: Registers, run: seq<nat>, r: Request, published: seq<Message>, i: nat)
    requires AllInSchema(rs) && r.Write? && CoversRow(PlacementsOf(rs, 4), run, r) && r.slot.store == Coil
    requires IsPublished(PlacementsOf(rs, 4), run, r, published) && i < |published| && |r.values| == r.count
    ensures i < r.count && run[i] < |PlacementsOf(rs, 4)|
    ensures published[i] ==
      Message(PlacementsOf(rs, 4)[run[i]].topic + "/on", Number(if r.values[i] == 0 then 0 else 1), 1, false)
  {
    CoilWindows(rs, run, r);
    var store, item := PublishedIsMeant(rs, run, r, published, i);
    assert ValuesOfEntry(store, item, r) == [r.values[i]];
  }

  /**
   * Main result: a write of any coils to a row of configured ones publishes, for each of them in order, 1 if it is
   * switched on and 0 if it is switched off.
   */
  lemma CoilsPublished(rs: Registers, run: seq<nat>, header: seq<Byte>, hi: Byte, lo: Byte, count: Byte,
                       coils: seq<bool>, tail: seq<Byte>, q: Query, published: seq<Message>)
    requires AllInSchema(rs) && |coils| < 65536
    requires q == QueryOf(header, 15, hi, lo, |coils| / 256, |coils| % 256, [count] + PackCoils(coils) + tail)
    requires Supported(q) && CoversRow(PlacementsOf(rs, 4), run, RequestOf(q)) && |published| == |run|
    requires IsPublished(PlacementsOf(rs, 4), run, RequestOf(q), published)
    ensures |published| == |coils|
    ensures forall i | 0 <= i < |coils| ::
      var p := PlacementsOf(rs, 4)[run[i]];
      && p.address == 256 * hi + lo + i
      && published[i] == Message(p.topic + "/on", Number(if coils[i] then 1 else 0), 1, false)
  {
    var r := RequestOf(q);
    RequestOfBytes(header, 15, hi, lo, |coils| / 256, |coils| % 256, [count] + PackCoils(coils) + tail);
    CoilWindows(rs, run, r);
    forall i | 0 <= i < |coils|
      ensures r.values[i] == (if coils[i] then 255 else 0) && |r.values| == |coils|
      ensures var p := PlacementsOf(rs, 4)[run[i]];
        published[i] == Message(p.topic + "/on", Number(if coils[i] then 1 else 0), 1, false)
    {
      CoilValues(header, hi, lo, count, coils, tail, i);
      CoilPublished(rs, run, r, published, i);
    }
  }

  /** The same for a single coil, which is written as FF00 or 0000. */
  lemma SingleCoilPublished(rs: Registers, run: seq<nat>, header: seq<Byte>, hi: Byte, lo: Byte, on: bool,
                            tail: seq<Byte>, q: Query, published: seq<Message>)
    requires AllInSchema(rs) && q == QueryOf(header, 5, hi, lo, if on then 255 else 0, 0, tail)
    requires Supported(q) && CoversRow(PlacementsOf(rs, 4), run, RequestOf(q)) && |published| == |run|
    requires IsPublished(PlacementsOf(rs, 4), run, RequestOf(q), published)
    ensures |published| == 1
    ensures var p := PlacementsOf(rs, 4)[run[0]];
      && p.address == 256 * hi + lo
      && published[0] == Message(p.topic + "/on", Number(if on then 1 else 0), 1, false)
  {
    var r := RequestOf(q);
    RequestOfBytes(header, 5, hi, lo, if on then 255 else 0, 0, tail);
    SingleValue(header, 5, hi, lo, if on then 255 else 0, 0, tail);
    CoilWindows(rs, run, r);
    CoilPublished(rs, run, r, published, 0);
  }

  /** Main result: what the latest message leaves in the window of its entry, where it overwrites what was there. */
  lemma LatestIsLeft(p: Placement, store: StoreType, item: Item, cells: seq<int>, received: seq<Payload>)
    requires IsWindowFor(p, store, item) && ShowsMessages(p, cells, received)
    requires received != [] && Overwrites(p.conv, received[|received| - 1])
    ensures var last := received[|received| - 1];
      |cells| == CellCount(store, item)
      && IsLeft(store, item, Zeros(|cells|), item.number(last), last, cells)
  {
  }
}
