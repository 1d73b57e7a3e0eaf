/**
 * The register entries of a configuration as _BuildStore of src/config_parser.cpp reads them: which converter an
 * entry gets and how many addresses it is given, and what it takes for the two to agree.
 */
module Config {
  import opened AddressRange
  import opened Modbus
  import opened Dispatch
  import opened Converters
  import opened Observers

  /** One entry; number stands for its scale and for reading numbers from text. */
  datatype Item = Item(enabled: bool, address: int, unit: int, topic: Topic, format: string, size: int,
                       byteSwap: bool, wordSwap: bool, number: Payload -> int)

  predicate IsBitStore(store: StoreType) {
    store == Coil || store == DiscreteInput
  }

  /**
   * What the schema of the configuration file, checked before it is read, guarantees of an entry; sizes are ints. An
   * entry for registers may lack its unit or its address, which are then read as 0.
   */
  predicate InSchema(store: StoreType, item: Item) {
    && 0 <= item.unit <= 255 && 0 <= item.address <= 65535
    && if IsBitStore(store) then item.unit > 0 else -1 <= item.size < 0x8000_0000
  }

  datatype Compiled = Ready(conv: Converter, width: int) | UnknownFormat

  /** Conversion to unsigned. */
  function Unsigned32(n: int): nat {
    n % 0x1_0000_0000
  }

  /** size /= 2, rounding towards zero. */
  function Half(n: int): int {
    if n < 0 then -(-n / 2) else n / 2
  }

  /** The size rules: the converter of an entry and the number of addresses it will observe. */
  function Compile(store: StoreType, item: Item): (r: Compiled)
    ensures r.UnknownFormat? <==>
      !IsBitStore(store) && item.format !in ["varchar", "float", "signed", "unsigned", "bcd"]
    ensures r.Ready? ==> Proper(r.conv)
    ensures r.Ready? && (r.conv.Discr? || r.conv.Text?) ==> r.width == Footprint(r.conv)
    ensures r.Ready? && (r.conv.Integer? || r.conv.Float?) ==> r.width == Half(item.size)
    ensures r.Ready? && r.conv.Integer? && 0 < item.size <= 8 ==>
      item.size <= r.conv.size && (r.conv.size == 2 || r.conv.size < 2 * item.size)
    ensures r.Ready? && r.conv.Float? && 0 < item.size <= 8 ==>
      item.size <= r.conv.size && (r.conv.size == 4 || r.conv.size < 2 * item.size)
    ensures r.Ready? && IsBitStore(store) ==> r.conv.Discr?
    ensures r.Ready? && !IsBitStore(store) ==>
      !r.conv.Discr? && r.conv.byteSwap == item.byteSwap && r.conv.wordSwap == item.wordSwap
  {
    if IsBitStore(store) then
      Ready(Discr, 1)
    else if item.format == "varchar" then
      var size := if item.size < 0 then 1 else item.size;
      Ready(Text(size, item.byteSwap, item.wordSwap), size)
    else if item.format == "float" then
      Ready(NewFloat(Unsigned32(item.size), item.byteSwap, item.wordSwap), Half(item.size))
    else if item.format == "signed" then
      Ready(NewInteger(Signed, Unsigned32(item.size), item.byteSwap, item.wordSwap), Half(item.size))
    else if item.format == "unsigned" then
      Ready(NewInteger(Unsigned, Unsigned32(item.size), item.byteSwap, item.wordSwap), Half(item.size))
    else if item.format == "bcd" then
      Ready(NewInteger(Bcd, Unsigned32(item.size), item.byteSwap, item.wordSwap), Half(item.size))
    else
      UnknownFormat
  }

  /** What an observer is made of, and its window: width cells from address on, in the table of a slot. */
  datatype Placement = Placement(slot: Slot, address: nat, width: nat, conv: Converter, topic: Topic,
                                 number: Payload -> int)

  function PlacementOf(store: StoreType, item: Item): Placement
    requires InSchema(store, item) && Compile(store, item).Ready?
  {
    var compiled := Compile(store, item);
    Placement(Slot(item.unit, store), item.address, compiled.width, compiled.conv, item.topic, item.number)
  }

  /** The observed range is nonempty and does not run over the end of the unit's addresses. */
  predicate Placeable(p: Placement) {
    p.width > 0 && p.address + p.width <= 65536
  }

  /** Packing stays inside the window. */
  predicate StaysInside(p: Placement) {
    Footprint(p.conv) <= p.width
  }

  /**
   * The size is rounded up for the converter but not for the observed range, so packing stays inside the window
   * exactly for these sizes; the configuration is accepted with any size.
   */
  lemma StaysInsideExactly(store: StoreType, item: Item)
    requires InSchema(store, item) && Compile(store, item).Ready?
    ensures StaysInside(PlacementOf(store, item)) <==>
      (IsBitStore(store) || item.format == "varchar"
       || (item.format == "float" && (item.size == 4 || item.size >= 8))
       || (item.format != "float" && (item.size == 2 || item.size == 4 || item.size >= 8)))
  {
    if !IsBitStore(store) && item.format != "varchar" {
      assert item.size >= 0 ==> Unsigned32(item.size) == item.size;
      assert item.size < 0 ==> Unsigned32(item.size) == 0xFFFF_FFFF;
    }
  }

  /** Two windows share a cell. */
  predicate Overlap(p: Placement, q: Placement) {
    p.slot == q.slot && p.address < q.address + q.width && q.address < p.address + p.width
  }

  predicate Disjoint(ps: seq<Placement>) {
    forall i, j | 0 <= i < j < |ps| :: !Overlap(ps[i], ps[j])
  }

  predicate AllPlaceable(ps: seq<Placement>) {
    forall i | 0 <= i < |ps| :: Placeable(ps[i])
  }

  function EndOf(p: Placement): nat {
    p.address + p.width
  }

  /** Where the cells end that the converter packs, inside the window or not. */
  function CellsEnd(p: Placement): nat {
    p.address + Footprint(p.conv)
  }

  predicate ShareCells(p: Placement, q: Placement) {
    p.slot == q.slot && p.address < CellsEnd(q) && q.address < CellsEnd(p)
  }

  /** No cell is packed by two observers. */
  predicate CellsApart(ps: seq<Placement>) {
    forall i, j | 0 <= i < j < |ps| :: !ShareCells(ps[i], ps[j])
  }

  /** Some window of the slot ends behind the cells of p, so that the table is long enough for them. */
  predicate HasCells(ps: seq<Placement>, p: Placement) {
    exists i :: 0 <= i < |ps| && ps[i].slot == p.slot && CellsEnd(p) <= EndOf(ps[i])
  }

  /** What is packed gets into nothing else's way and into the tables. */
  predicate CellsFit(ps: seq<Placement>) {
    CellsApart(ps) && forall i | 0 <= i < |ps| :: HasCells(ps, ps[i])
  }

  /** That is so where packing stays inside disjoint windows. */
  lemma StaysInsideFits(ps: seq<Placement>)
    requires Disjoint(ps) && forall i | 0 <= i < |ps| :: StaysInside(ps[i])
    ensures CellsFit(ps)
  {
    forall i, j | 0 <= i < j < |ps|
      ensures !ShareCells(ps[i], ps[j])
    {
      assert !Overlap(ps[i], ps[j]);
    }
    forall i | 0 <= i < |ps|
      ensures HasCells(ps, ps[i])
    {
      assert CellsEnd(ps[i]) <= EndOf(ps[i]);
    }
  }

  /** In the packed (unit, address) space of a store, p takes address a. */
  predicate Occupies(p: Placement, store: StoreType, a: int) {
    p.slot.store == store && Within(Base(p.slot.unit) + p.address, Base(p.slot.unit) + p.address + p.width, a)
  }

  lemma OverlapIsSharedAddress(p: Placement, q: Placement)
    requires Placeable(p) && Placeable(q)
    ensures Overlap(p, q) <==> exists a :: Occupies(p, q.slot.store, a) && Occupies(q, q.slot.store, a)
  {
    if Overlap(p, q) {
      var a := Base(p.slot.unit) + if p.address < q.address then q.address else p.address;
      assert Occupies(p, q.slot.store, a) && Occupies(q, q.slot.store, a);
    }
  }

  /** The labels of a store are exactly those of the placements, numbered in order. */
  ghost predicate IsPlaced(labels: imap<int, ObserverId>, ps: seq<Placement>, store: StoreType) {
    && (forall a :: LabelIsPlaced(labels, ps, store, a))
    && (forall i, a | 0 <= i < |ps| && Occupies(ps[i], store, a) :: a in labels && labels[a] == i)
  }

  /** The label of an address is the number of a placement there. */
  ghost predicate LabelIsPlaced(labels: imap<int, ObserverId>, ps: seq<Placement>, store: StoreType, a: int) {
    a in labels ==> labels[a] < |ps| && Occupies(ps[labels[a]], store, a)
  }

  /** Where placement p begins in the packed address space of its store. */
  function Start(p: Placement): int {
    Base(p.slot.unit) + p.address
  }

  /** The range of one entry, moved to its unit and labelled. */
  ghost function RangeLabels(p: Placement, o: ObserverId): imap<int, ObserverId> {
    Span(Start(p), Start(p) + p.width, o)
  }

  lemma RangeLabelsAt(p: Placement, o: ObserverId, a: int)
    ensures a in RangeLabels(p, o) <==> Occupies(p, p.slot.store, a)
    ensures a in RangeLabels(p, o) ==> RangeLabels(p, o)[a] == o
  {
  }

  /** Registering a new entry succeeds exactly if it overlaps no earlier one. */
  lemma CompatibleIsDisjoint(labels: imap<int, ObserverId>, ps: seq<Placement>, p: Placement)
    requires AllPlaceable(ps) && Placeable(p) && IsPlaced(labels, ps, p.slot.store)
    ensures Compatible(labels, RangeLabels(p, |ps|)) <==> forall i | 0 <= i < |ps| :: !Overlap(ps[i], p)
  {
    forall a {
      RangeLabelsAt(p, |ps|, a);
    }
    forall i: nat | i < |ps| {
      OverlapIsSharedAddress(ps[i], p);
    }
    if !Compatible(labels, RangeLabels(p, |ps|)) {
      var a :| a in labels && a in RangeLabels(p, |ps|) && labels[a] != RangeLabels(p, |ps|)[a];
      assert LabelIsPlaced(labels, ps, p.slot.store, a) && Occupies(ps[labels[a]], p.slot.store, a);
    }
  }

  /** added labels exactly the addresses of one more placement. */
  ghost predicate IsNext(added: imap<int, ObserverId>, p: Placement, o: ObserverId) {
    forall a :: (a in added <==> Occupies(p, p.slot.store, a)) && (a in added ==> added[a] == o)
  }

  lemma AddedFrom(labels: imap<int, ObserverId>, added: imap<int, ObserverId>, ps: seq<Placement>, p: Placement, a: int)
    requires IsPlaced(labels, ps, p.slot.store) && IsNext(added, p, |ps|)
    ensures LabelIsPlaced(labels + added, ps + [p], p.slot.store, a)
  {
    if a in labels && a !in added {
      assert LabelIsPlaced(labels, ps, p.slot.store, a);
      assert (ps + [p])[labels[a]] == ps[labels[a]];
    }
  }

  lemma AddedWindow(labels: imap<int, ObserverId>, added: imap<int, ObserverId>, ps: seq<Placement>, p: Placement,
                    i: nat, a: int)
    requires AllPlaceable(ps) && Placeable(p) && IsPlaced(labels, ps, p.slot.store) && IsNext(added, p, |ps|)
    requires i <= |ps| && (i < |ps| ==> !Overlap(ps[i], p)) && Occupies((ps + [p])[i], p.slot.store, a)
    ensures a in labels + added && (labels + added)[a] == i
  {
  }

  /** Labels for a window that overlaps no other one can be added. */
  lemma AddedLabels(labels: imap<int, ObserverId>, added: imap<int, ObserverId>, ps: seq<Placement>, p: Placement)
    requires AllPlaceable(ps) && Placeable(p) && IsPlaced(labels, ps, p.slot.store) && IsNext(added, p, |ps|)
    requires forall i | 0 <= i < |ps| :: !Overlap(ps[i], p)
    ensures IsPlaced(labels + added, ps + [p], p.slot.store)
  {
    var store, ps', labels' := p.slot.store, ps + [p], labels + added;
    forall a
      ensures LabelIsPlaced(labels', ps', store, a)
    {
      AddedFrom(labels, added, ps, p, a);
    }
    forall i: nat, a | i < |ps'| && Occupies(ps'[i], store, a)
      ensures a in labels' && labels'[a] == i
    {
      AddedWindow(labels, added, ps, p, i, a);
    }
  }

  lemma PlacedStep(labels: imap<int, ObserverId>, ps: seq<Placement>, p: Placement)
    requires AllPlaceable(ps) && Placeable(p) && IsPlaced(labels, ps, p.slot.store)
    requires forall i | 0 <= i < |ps| :: !Overlap(ps[i], p)
    ensures IsPlaced(labels + RangeLabels(p, |ps|), ps + [p], p.slot.store)
  {
    forall a {
      RangeLabelsAt(p, |ps|, a);
    }
    AddedLabels(labels, RangeLabels(p, |ps|), ps, p);
  }

  lemma PlacedElsewhere(labels: imap<int, ObserverId>, ps: seq<Placement>, p: Placement, store: StoreType)
    requires IsPlaced(labels, ps, store) && p.slot.store != store
    ensures IsPlaced(labels, ps + [p], store)
  {
    forall a
      ensures LabelIsPlaced(labels, ps + [p], store, a)
    {
      assert LabelIsPlaced(labels, ps, store, a);
    }
  }
}
