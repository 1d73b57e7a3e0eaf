/**
 * The gateway put together: observers built from a configuration (src/config_parser.cpp), registered with the
 * server, given their cache windows, and then fed with MQTT messages (src/observer.cpp).
 */
module Gateway {
  import opened AddressRange
  import opened Modbus
  import opened Dispatch
  import opened ModbusServer
  import opened Converters
  import opened Observers
  import opened Config
  import opened Acceptance
  import Registrations
  import opened Windows
  import opened Subscriptions
  import opened Writes

  /** The placements of the enabled entries among the first n of a list. */
  function Placements(store: StoreType, list: seq<Item>, n: nat): (ps: seq<Placement>)
    requires n <= |list| && forall i | 0 <= i < |list| :: InSchema(store, list[i])
  {
    if n == 0 then []
    else
      var item := list[n - 1];
      Placements(store, list, n - 1)
        + if item.enabled && Compile(store, item).Ready? then [PlacementOf(store, item)] else []
  }

  predicate AllKnown(store: StoreType, list: seq<Item>) {
    forall i | 0 <= i < |list| && list[i].enabled :: Compile(store, list[i]).Ready?
  }

  lemma PrefixOfSum<T>(a: seq<T>, b: seq<T>, c: seq<T>, d: seq<T>)
    requires a <= b && c == b + d
    ensures a <= c
  {
  }

  lemma {:induction false} PlacementsGrow(store: StoreType, list: seq<Item>, n: nat, k: nat)
    requires n <= k <= |list| && forall i | 0 <= i < |list| :: InSchema(store, list[i])
    ensures Placements(store, list, n) <= Placements(store, list, k)
    decreases k
  {
    if n < k {
      PlacementsGrow(store, list, n, k - 1);
      var before, all := Placements(store, list, k - 1), Placements(store, list, k);
      PrefixOfSum(Placements(store, list, n), before, all, all[|before|..]);
    }
  }

  lemma PlacedNext(ps: seq<Placement>, store: StoreType, list: seq<Item>, i: nat)
    requires i < |list| && forall j | 0 <= j < |list| :: InSchema(store, list[j])
    ensures var now, item := ps + Placements(store, list, i), list[i];
      && ps + Placements(store, list, i + 1) <= ps + Placements(store, list, |list|)
      && ps + Placements(store, list, i + 1)
         == now + if item.enabled && Compile(store, item).Ready? then [PlacementOf(store, item)] else []
  {
    PlacementsGrow(store, list, i + 1, |list|);
  }

  /** The loop of _BuildStore is through with the first n entries. */
  ghost predicate Passed(store: StoreType, list: seq<Item>, n: nat, enabled: bool)
    requires n <= |list|
  {
    && (enabled <==> exists i :: 0 <= i < n && list[i].enabled)
    && forall i | 0 <= i < n && list[i].enabled :: Compile(store, list[i]).Ready?
  }

  lemma PassedNext(store: StoreType, list: seq<Item>, n: nat, enabled: bool)
    requires n < |list| && Passed(store, list, n, enabled)
    ensures list[n].enabled && Compile(store, list[n]).UnknownFormat? ==> !AllKnown(store, list)
    ensures !(list[n].enabled && Compile(store, list[n]).UnknownFormat?) ==>
      Passed(store, list, n + 1, enabled || list[n].enabled)
  {
  }

  /**
   * The windows of a configuration are possible, and unless they overlap what is packed gets into nothing else's way.
   */
  predicate AllFitting(ps: seq<Placement>) {
    AllPlaceable(ps) && (Disjoint(ps) ==> CellsFit(ps))
  }

  /** TConfigException of either kind, or TEmptyConfigException. */
  datatype Built = Done(enabled: bool) | BadFormat | Overlapping | NothingEnabled

  /** The register lists of a configuration. */
  datatype Registers = Registers(coils: seq<Item>, discretes: seq<Item>, holdings: seq<Item>, inputs: seq<Item>)

  predicate ListInSchema(store: StoreType, list: seq<Item>) {
    forall i | 0 <= i < |list| :: InSchema(store, list[i])
  }

  /** The stores in the order in which they are built. */
  function StoreAt(n: nat): StoreType
    requires n < 4
  {
    if n == 0 then Coil else if n == 1 then DiscreteInput else if n == 2 then HoldingRegister else InputRegister
  }

  function ListAt(rs: Registers, n: nat): seq<Item>
    requires n < 4
  {
    if n == 0 then rs.coils else if n == 1 then rs.discretes else if n == 2 then rs.holdings else rs.inputs
  }

  predicate AllInSchema(rs: Registers) {
    forall n: nat | n < 4 :: ListInSchema(StoreAt(n), ListAt(rs, n))
  }

  /** The placements of the first n lists. */
  function PlacementsOf(rs: Registers, n: nat): seq<Placement>
    requires AllInSchema(rs) && n <= 4
  {
    if n == 0 then [] else PlacementsOf(rs, n - 1) + Placements(StoreAt(n - 1), ListAt(rs, n - 1), |ListAt(rs, n - 1)|)
  }

  lemma {:induction false} Prefix(rs: Registers, n: nat)
    requires AllInSchema(rs) && n <= 4
    ensures PlacementsOf(rs, n) <= PlacementsOf(rs, 4)
    decreases 4 - n
  {
    if n < 4 {
      Prefix(rs, n + 1);
    }
  }


  /** The first n lists have been built. */
  ghost predicate BuiltUpTo(rs: Registers, n: nat, enabled: bool)
    requires n <= 4
  {
    && (forall k: nat | k < n :: AllKnown(StoreAt(k), ListAt(rs, k)))
    && (enabled <==> exists k: nat :: k < n && AnyEnabled(ListAt(rs, k)))
  }

  /** All formats are known, something is enabled, and the server accepts all registrations. */
  ghost predicate Acceptable(rs: Registers)
    requires AllInSchema(rs)
  {
    BuiltUpTo(rs, 4, true) && AllAccepted(PlacementsOf(rs, 4))
  }

  predicate AnyEnabled(list: seq<Item>) {
    exists i :: 0 <= i < |list| && list[i].enabled
  }

  /** The table recorded for the slot of a window has room for it. */
  predicate InTable(sizes: Sizes, p: Placement) {
    Fits(sizes, p.slot.unit, p.address + p.width - 1, p.slot.store)
  }

  /** A range holds exactly the windows of its store, labelled in order, each as one segment. */
  ghost predicate RangeAgrees(m: Segments<ObserverId>, labels: imap<int, ObserverId>, ps: seq<Placement>,
                              store: StoreType) {
    Solid(m) && IsPlaced(labels, ps, store) && Segmented(m, ps, store)
  }

  /** The ranges of a server hold exactly the windows, and every table will be large enough. */
  ghost predicate AgreesWith(stores: Stores, labels: StoreLabels, sizes: Sizes, ps: seq<Placement>) {
    && RangeAgrees(stores.di, labels.di, ps, DiscreteInput) && RangeAgrees(stores.co, labels.co, ps, Coil)
    && RangeAgrees(stores.ir, labels.ir, ps, InputRegister) && RangeAgrees(stores.hr, labels.hr, ps, HoldingRegister)
    && AllInTable(sizes, ps)
  }

  predicate IsUnitOf(ps: seq<Placement>, unit: Byte) {
    exists i :: 0 <= i < |ps| && ps[i].slot.unit == unit
  }

  /** Some window ends there in the table of the slot. */
  predicate IsEndOf(ps: seq<Placement>, unit: Byte, store: StoreType, end: int) {
    exists i :: 0 <= i < |ps| && ps[i].slot == Slot(unit, store) && EndOf(ps[i]) == end
  }

  /** Every unit recorded has a window, and no table is larger than its windows need. */
  ghost predicate AllNeeded(sizes: Sizes, ps: seq<Placement>) {
    && (forall u | u in sizes :: IsUnitOf(ps, u))
    && (forall u, s | Recorded(sizes, u, s) > 0 :: IsEndOf(ps, u, s, Recorded(sizes, u, s)))
  }

  lemma OneMoreWindow(ps: seq<Placement>, p: Placement, unit: Byte, store: StoreType, end: int)
    ensures IsUnitOf(ps, unit) || p.slot.unit == unit ==> IsUnitOf(ps + [p], unit)
    ensures IsEndOf(ps, unit, store, end) || (p.slot == Slot(unit, store) && EndOf(p) == end) ==>
      IsEndOf(ps + [p], unit, store, end)
  {
    assert (ps + [p])[|ps|] == p;
    assert forall i | 0 <= i < |ps| :: (ps + [p])[i] == ps[i];
  }

  lemma AllNeededStep(sizes: Sizes, sizes': Sizes, ps: seq<Placement>, p: Placement)
    requires AllNeeded(sizes, ps) && IsWidened(sizes, sizes', p.slot.unit, p.slot.store, EndOf(p))
    ensures AllNeeded(sizes', ps + [p])
  {
    forall u | u in sizes'
      ensures IsUnitOf(ps + [p], u)
    {
      OneMoreWindow(ps, p, u, Coil, 0);
    }
    forall u, s | Recorded(sizes', u, s) > 0
      ensures IsEndOf(ps + [p], u, s, Recorded(sizes', u, s))
    {
      OneMoreWindow(ps, p, u, s, Recorded(sizes', u, s));
    }
  }

  predicate AllInTable(sizes: Sizes, ps: seq<Placement>) {
    forall i | 0 <= i < |ps| :: InTable(sizes, ps[i])
  }

  lemma CellsInTable(sizes: Sizes, ps: seq<Placement>, i: nat)
    requires i < |ps| && AllPlaceable(ps) && AllInTable(sizes, ps) && HasCells(ps, ps[i])
    ensures ps[i].slot.unit in sizes && CellsEnd(ps[i]) <= SizeOf(sizes[ps[i].slot.unit], ps[i].slot.store)
  {
    var j :| 0 <= j < |ps| && ps[j].slot == ps[i].slot && CellsEnd(ps[i]) <= EndOf(ps[j]);
    assert InTable(sizes, ps[j]);
  }

  /** The table of the window's slot is there and long enough for it. */
  predicate IsBacked(mappings: map<Byte, Mapping>, p: Placement) {
    p.slot.unit in mappings && EndOf(p) <= TableIn(mappings[p.slot.unit], p.slot.store).Length
  }

  lemma RoomForCells(mappings: map<Byte, Mapping>, sizes: Sizes, ps: seq<Placement>, i: nat)
    requires AllPlaceable(ps) && AllInTable(sizes, ps) && HasTables(map[], mappings, sizes, sizes.Keys)
    requires i < |ps| && HasCells(ps, ps[i])
    ensures IsBacked(mappings, ps[i])
    ensures CellsEnd(ps[i]) <= TableIn(mappings[ps[i].slot.unit], ps[i].slot.store).Length
  {
    assert InTable(sizes, ps[i]) && Placeable(ps[i]);
    CellsInTable(sizes, ps, i);
  }

  /** Exactly the units of the windows have tables, and each table ends where the last window in it ends. */
  ghost predicate ExactTables(mappings: map<Byte, Mapping>, ps: seq<Placement>) {
    && (forall u :: u in mappings <==> IsUnitOf(ps, u))
    && (forall i | 0 <= i < |ps| :: IsBacked(mappings, ps[i]))
    && (forall u, s | u in mappings ::
          var length := TableIn(mappings[u], s).Length; length == 0 || IsEndOf(ps, u, s, length))
  }

  lemma TablesAreExact(mappings: map<Byte, Mapping>, sizes: Sizes, ps: seq<Placement>)
    requires HasTables(map[], mappings, sizes, sizes.Keys) && AllNeeded(sizes, ps)
    requires forall i | 0 <= i < |ps| :: IsBacked(mappings, ps[i])
    ensures ExactTables(mappings, ps)
  {
    forall u, s | u in mappings
      ensures var length := TableIn(mappings[u], s).Length; length == 0 || IsEndOf(ps, u, s, length)
    {
      assert TableIn(mappings[u], s).Length == Recorded(sizes, u, s);
    }
    forall u
      ensures u in mappings <==> IsUnitOf(ps, u)
    {
      if IsUnitOf(ps, u) {
        var i :| 0 <= i < |ps| && ps[i].slot.unit == u;
        assert IsBacked(mappings, ps[i]);
      }
    }
  }

  lemma AllPlaceableLast(ps: seq<Placement>, p: Placement)
    ensures AllPlaceable(ps + [p]) <==> AllPlaceable(ps) && Placeable(p)
  {
    assert (ps + [p])[|ps|] == p;
    assert forall i | 0 <= i < |ps| :: (ps + [p])[i] == ps[i];
  }

  /** A registration adds one window to the range of its store and leaves the other ranges alone. */
  ghost predicate RangeStep(m: Segments<ObserverId>, labels: imap<int, ObserverId>,
                            m': Segments<ObserverId>, labels': imap<int, ObserverId>,
                            p: Placement, o: ObserverId, store: StoreType) {
    if store == p.slot.store then Solid(m') && m' == WithWindow(m, p, o) && labels' == labels + RangeLabels(p, o)
    else m' == m && labels' == labels
  }

  lemma RangeAgreesStep(m: Segments<ObserverId>, labels: imap<int, ObserverId>, m': Segments<ObserverId>,
                        labels': imap<int, ObserverId>, ps: seq<Placement>, p: Placement, store: StoreType)
    requires RangeAgrees(m, labels, ps, store) && RangeStep(m, labels, m', labels', p, |ps|, store)
    requires AllPlaceable(ps + [p]) && forall i | 0 <= i < |ps| :: !Overlap(ps[i], p)
    ensures RangeAgrees(m', labels', ps + [p], store)
  {
    AllPlaceableLast(ps, p);
    if store == p.slot.store {
      PlacedStep(labels, ps, p);
    } else {
      PlacedElsewhere(labels, ps, p, store);
    }
  }

  ghost predicate ServerStep(stores: Stores, labels: StoreLabels, stores': Stores, labels': StoreLabels, p: Placement,
                             o: ObserverId) {
    && RangeStep(stores.di, labels.di, stores'.di, labels'.di, p, o, DiscreteInput)
    && RangeStep(stores.co, labels.co, stores'.co, labels'.co, p, o, Coil)
    && RangeStep(stores.ir, labels.ir, stores'.ir, labels'.ir, p, o, InputRegister)
    && RangeStep(stores.hr, labels.hr, stores'.hr, labels'.hr, p, o, HoldingRegister)
  }

  /** The same, by store. */
  ghost predicate StoreStep(stores: Stores, labels: StoreLabels, stores': Stores, labels': StoreLabels,
                            p: Placement, o: ObserverId, store: StoreType) {
    RangeStep(SegmentsOf(stores, store), LabelsOf(labels, store),
              SegmentsOf(stores', store), LabelsOf(labels', store), p, o, store)
  }

  lemma EachStoreStep(stores: Stores, labels: StoreLabels, stores': Stores, labels': StoreLabels, p: Placement,
                      o: ObserverId)
    requires forall store :: StoreStep(stores, labels, stores', labels', p, o, store)
    ensures ServerStep(stores, labels, stores', labels', p, o)
  {
    assert StoreStep(stores, labels, stores', labels', p, o, DiscreteInput);
    assert StoreStep(stores, labels, stores', labels', p, o, Coil);
    assert StoreStep(stores, labels, stores', labels', p, o, InputRegister);
    assert StoreStep(stores, labels, stores', labels', p, o, HoldingRegister);
  }

  lemma OneRangeChanged(stores: Stores, labels: StoreLabels, stores': Stores, labels': StoreLabels, p: Placement,
                        o: ObserverId)
    requires forall store | store != p.slot.store ::
      SegmentsOf(stores', store) == SegmentsOf(stores, store) && LabelsOf(labels', store) == LabelsOf(labels, store)
    requires RangeStep(SegmentsOf(stores, p.slot.store), LabelsOf(labels, p.slot.store),
                       SegmentsOf(stores', p.slot.store), LabelsOf(labels', p.slot.store), p, o, p.slot.store)
    ensures ServerStep(stores, labels, stores', labels', p, o)
  {
    forall store
      ensures StoreStep(stores, labels, stores', labels', p, o, store)
    {
    }
    EachStoreStep(stores, labels, stores', labels', p, o);
  }

  lemma Views(server: Server)
    ensures forall store :: SegmentsOf(server.StoreSegments(), store) == server.RangeOf(store).m
    ensures forall store :: LabelsOf(server.LabelsNow(), store) == server.RangeOf(store).labels
  {
  }

  lemma AllInTableStep(sizes: Sizes, sizes': Sizes, ps: seq<Placement>, p: Placement)
    requires AllInTable(sizes, ps) && Grows(sizes, sizes') && InTable(sizes', p)
    ensures AllInTable(sizes', ps + [p])
  {
  }

  lemma AgreesStep(stores: Stores, labels: StoreLabels, sizes: Sizes, stores': Stores, labels': StoreLabels,
                   sizes': Sizes, ps: seq<Placement>, p: Placement)
    requires AgreesWith(stores, labels, sizes, ps) && ServerStep(stores, labels, stores', labels', p, |ps|)
    requires Grows(sizes, sizes') && InTable(sizes', p)
    requires AllPlaceable(ps + [p]) && forall i | 0 <= i < |ps| :: !Overlap(ps[i], p)
    ensures AgreesWith(stores', labels', sizes', ps + [p])
  {
    RangeAgreesStep(stores.di, labels.di, stores'.di, labels'.di, ps, p, DiscreteInput);
    RangeAgreesStep(stores.co, labels.co, stores'.co, labels'.co, ps, p, Coil);
    RangeAgreesStep(stores.ir, labels.ir, stores'.ir, labels'.ir, ps, p, InputRegister);
    RangeAgreesStep(stores.hr, labels.hr, stores'.hr, labels'.hr, ps, p, HoldingRegister);
    AllInTableStep(sizes, sizes', ps, p);
  }

  lemma OfStore(stores: Stores, labels: StoreLabels, sizes: Sizes, ps: seq<Placement>, store: StoreType)
    requires AgreesWith(stores, labels, sizes, ps)
    ensures RangeAgrees(SegmentsOf(stores, store), LabelsOf(labels, store), ps, store)
  {
  }

  /** The ranges are what inserting the placements one by one makes of empty ranges. */
  ghost predicate Registered(stores: Stores, ps: seq<Placement>) {
    forall store :: Registrations.LeadsTo(map[], RegistrationsIn(ps, store), SegmentsOf(stores, store))
  }

  /** The range takes a registration exactly if ok, and is then what inserting it makes of the range. */
  ghost predicate Took(m0: Segments<ObserverId>, m: Segments<ObserverId>, p: Placement, o: ObserverId, ok: bool) {
    && (ok <==> Registrations.Takes(m0, RegistrationOf(p, o)))
    && (ok ==> Registrations.Leads(m0, RegistrationOf(p, o), m))
  }

  lemma RegisteredIn(m0: Segments<ObserverId>, m: Segments<ObserverId>, ps: seq<Placement>, p: Placement, ok: bool)
    requires Registrations.LeadsTo(map[], RegistrationsIn(ps, p.slot.store), m0) && Took(m0, m, p, |ps|, ok)
    ensures ok <==> Registrations.Possible(RegistrationsIn(ps + [p], p.slot.store))
    ensures ok ==> Registrations.LeadsTo(map[], RegistrationsIn(ps + [p], p.slot.store), m)
  {
    var rs, r := RegistrationsIn(ps, p.slot.store), RegistrationOf(p, |ps|);
    NextRegistration(ps, p, p.slot.store);
    Registrations.Appended(map[], rs, m0, r);
    if ok {
      Registrations.LeadsFurther(map[], rs, m0, r, m);
    }
  }

  lemma RegisteredElsewhere(m: Segments<ObserverId>, ps: seq<Placement>, p: Placement, store: StoreType)
    requires Registrations.LeadsTo(map[], RegistrationsIn(ps, store), m) && p.slot.store != store
    ensures Registrations.Possible(RegistrationsIn(ps + [p], store))
    ensures Registrations.LeadsTo(map[], RegistrationsIn(ps + [p], store), m)
  {
    NextRegistration(ps, p, store);
    Registrations.LeadsToAccepted(map[], RegistrationsIn(ps, store), m);
  }

  lemma RegisteredStep(stores: Stores, stores': Stores, ps: seq<Placement>, p: Placement, ok: bool)
    requires Registered(stores, ps)
    requires Took(SegmentsOf(stores, p.slot.store), SegmentsOf(stores', p.slot.store), p, |ps|, ok)
    requires forall store | store != p.slot.store :: SegmentsOf(stores', store) == SegmentsOf(stores, store)
    ensures ok <==> AllAccepted(ps + [p])
    ensures ok ==> Registered(stores', ps + [p])
  {
    RegisteredIn(SegmentsOf(stores, p.slot.store), SegmentsOf(stores', p.slot.store), ps, p, ok);
    forall store | store != p.slot.store
      ensures Registrations.Possible(RegistrationsIn(ps + [p], store))
      ensures Registrations.LeadsTo(map[], RegistrationsIn(ps + [p], store), SegmentsOf(stores', store))
    {
      RegisteredElsewhere(SegmentsOf(stores, store), ps, p, store);
    }
    if AllAccepted(ps + [p]) {
      assert Registrations.Possible(RegistrationsIn(ps + [p], p.slot.store));
    }
  }

  lemma RegisteredAccepted(stores: Stores, ps: seq<Placement>)
    requires Registered(stores, ps)
    ensures AllAccepted(ps)
  {
    forall store
      ensures Registrations.Possible(RegistrationsIn(ps, store))
    {
      Registrations.LeadsToAccepted(map[], RegistrationsIn(ps, store), SegmentsOf(stores, store));
    }
  }

  /** A possible window is to be registered under a new observer in a range without empty segments. */
  ghost predicate IsNew(m: Segments<ObserverId>, p: Placement, o: ObserverId) {
    Placeable(p) && Solid(m) && forall k | k in m :: m[k].param != o
  }

  /** What registering it makes of the range. */
  ghost predicate WindowAdded(m0: Segments<ObserverId>, labels0: imap<int, ObserverId>, m: Segments<ObserverId>,
                              labels: imap<int, ObserverId>, p: Placement, o: ObserverId, ok: bool) {
    IsNew(m0, p, o) ==>
      && (ok <==> Compatible(labels0, RangeLabels(p, o)))
      && (ok ==> RangeStep(m0, labels0, m, labels, p, o, p.slot.store))
  }

  lemma NewIsAdded(m0: Segments<ObserverId>, labels0: imap<int, ObserverId>, m: Segments<ObserverId>,
                   labels: imap<int, ObserverId>, p: Placement, o: ObserverId, ok: bool)
    requires InsertedNew(m0, labels0, m, labels, Start(p), Start(p) + p.width, o, ok)
    ensures WindowAdded(m0, labels0, m, labels, p, o, ok)
  {
  }

  lemma WindowInserted(m0: Segments<ObserverId>, labels0: imap<int, ObserverId>, m: Segments<ObserverId>,
                       labels: imap<int, ObserverId>, p: Placement, o: ObserverId, ok: bool)
    requires Represents(m0, labels0) && Inserted(m0, labels0, m, labels, Start(p), p.width, o, ok)
    ensures WindowAdded(m0, labels0, m, labels, p, o, ok)
  {
    if IsNew(m0, p, o) {
      NewInserted(m0, labels0, m, labels, Start(p), p.width, o, ok);
      NewIsAdded(m0, labels0, m, labels, p, o, ok);
    }
  }

  /** The same, in terms of all four ranges at once. */
  lemma WindowAddedTo(stores: Stores, labels: StoreLabels, stores': Stores, labels': StoreLabels, p: Placement,
                      o: ObserverId, ok: bool)
    requires forall store | store != p.slot.store ::
      SegmentsOf(stores', store) == SegmentsOf(stores, store) && LabelsOf(labels', store) == LabelsOf(labels, store)
    requires WindowAdded(SegmentsOf(stores, p.slot.store), LabelsOf(labels, p.slot.store),
                         SegmentsOf(stores', p.slot.store), LabelsOf(labels', p.slot.store), p, o, ok)
    ensures IsNew(SegmentsOf(stores, p.slot.store), p, o) ==>
      && (ok <==> Compatible(LabelsOf(labels, p.slot.store), RangeLabels(p, o)))
      && (ok ==> ServerStep(stores, labels, stores', labels', p, o))
  {
    if ok && IsNew(SegmentsOf(stores, p.slot.store), p, o) {
      OneRangeChanged(stores, labels, stores', labels', p, o);
    }
  }

  ghost predicate MadeFor(obs: GatewayObserver, p: Placement) {
    obs.conv == p.conv && obs.topic == p.topic && obs.number == p.number
  }

  /** Each placement has its own observer. */
  ghost predicate AllMadeFor(observers: seq<GatewayObserver>, ps: seq<Placement>) {
    && |observers| == |ps|
    && (forall i | 0 <= i < |ps| :: MadeFor(observers[i], ps[i]))
    && (forall i, j | 0 <= i < j < |observers| :: observers[i] != observers[j])
  }

  lemma OneMoreMade(observers: seq<GatewayObserver>, ps: seq<Placement>, obs: GatewayObserver, p: Placement)
    requires AllMadeFor(observers, ps) && MadeFor(obs, p) && obs !in observers
    ensures AllMadeFor(observers + [obs], ps + [p])
  {
  }

  lemma RangeInUnitSpace(m: Segments<ObserverId>, labels: imap<int, ObserverId>, ps: seq<Placement>, store: StoreType)
    requires Represents(m, labels) && RangeAgrees(m, labels, ps, store) && AllPlaceable(ps)
    ensures InUnitSpace(m)
  {
    forall k | k in m
      ensures 0 <= k < Base(256)
    {
      SegmentInWindow(m, labels, ps, store, k);
      assert Placeable(ps[m[k].param]);
    }
  }

  /** Every announcement tells its observer where its own window begins, and every observer gets one. */
  ghost predicate AnnouncesWindows(ps: seq<Placement>, calls: seq<Call>) {
    && (forall j | 0 <= j < |calls| :: calls[j].CacheAllocate? && IsWindowOf(ps, calls[j]))
    && (forall i | 0 <= i < |ps| :: IsTold(calls, i))
  }

  ghost predicate IsTold(calls: seq<Call>, o: ObserverId) {
    exists j :: 0 <= j < |calls| && calls[j].obs == o
  }

  ghost predicate IsWindowOf(ps: seq<Placement>, c: Call)
    requires c.CacheAllocate?
  {
    && c.obs < |ps| && c.slot == ps[c.obs].slot
    && IsFirst(c.windows, ps[c.obs].address) && c.windows[ps[c.obs].address].param == WindowPointer(ps[c.obs])
  }

  function WindowPointer(p: Placement): Pointer {
    Pointer(p.slot, p.address)
  }

  lemma AllAnnounced(stores: Stores, labels: StoreLabels, sizes: Sizes, ps: seq<Placement>, calls: seq<Call>)
    requires AgreesWith(stores, labels, sizes, ps) && AllPlaceable(ps)
    requires forall store :: Represents(SegmentsOf(stores, store), LabelsOf(labels, store))
    requires AnnouncedIn(stores, SlotsOf(sizes.Keys), calls)
    ensures AnnouncesWindows(ps, calls)
  {
    forall j | 0 <= j < |calls|
      ensures calls[j].CacheAllocate? && IsWindowOf(ps, calls[j])
    {
      var c := calls[j];
      assert c in calls;
      OfStore(stores, labels, sizes, ps, c.slot.store);
      AnnouncedWindow(SegmentsOf(stores, c.slot.store), LabelsOf(labels, c.slot.store), ps, c);
    }
    forall i | 0 <= i < |ps|
      ensures IsTold(calls, i)
    {
      var slot := ps[i].slot;
      OfStore(stores, labels, sizes, ps, slot.store);
      assert Placeable(ps[i]) && InTable(sizes, ps[i]);
      WindowBegins(SegmentsOf(stores, slot.store), LabelsOf(labels, slot.store), ps, i);
      assert slot in SlotsOf(sizes.Keys) && Start(ps[i]) / 65536 == slot.unit as int;
      var c :| c in calls && c.slot == slot && c.obs == SegmentsOf(stores, slot.store)[Start(ps[i])].param;
    }
  }

  class Gateway {
    const server: Server
    var observers: seq<GatewayObserver>

    /** Where the window of every observer is. */
    ghost var placed: seq<Placement>

    constructor (server: Server)
      requires server.Valid() && server.maxAddresses == map[]
      requires forall store :: server.RangeOf(store).m == map[] && server.RangeOf(store).labels == imap[]
      ensures Valid() && Sized() && this.server == server && observers == [] && placed == []
    {
      this.server, observers, placed := server, [], [];
      new;
      assert server.RangeOf(DiscreteInput) == server.di && server.RangeOf(Coil) == server.co;
      assert server.RangeOf(InputRegister) == server.ir && server.RangeOf(HoldingRegister) == server.hr;
    }

    /**
     * The server's ranges hold the registrations made, and unless an entry has an impossible range they say exactly
     * where the windows are.
     */
    ghost predicate Valid()
      reads this, server`maxAddresses, server.di, server.co, server.ir, server.hr, server.mb`mappings
    {
      && server.Valid() && AllMadeFor(observers, placed)
      && Registered(server.StoreSegments(), placed)
      && (AllPlaceable(placed) ==> Consistent(placed))
    }

    ghost predicate Consistent(ps: seq<Placement>)
      reads server`maxAddresses, server.di, server.co, server.ir, server.hr
    {
      AgreesWith(server.StoreSegments(), server.LabelsNow(), server.maxAddresses, ps)
    }

    /** The sizes recorded are those the windows need. */
    ghost predicate Sized()
      reads this`placed, server`maxAddresses
    {
      AllNeeded(server.maxAddresses, placed)
    }

    lemma ValidIsAccepted()
      requires Valid()
      ensures AllAccepted(placed)
    {
      RegisteredAccepted(server.StoreSegments(), placed);
    }

    /** modbus->Observe() for one entry. */
    method Observe(p: Placement, o: ObserverId) returns (ok: bool)
      requires server.Valid()
      modifies server`maxAddresses, server`registered, server.RangeOf(p.slot.store)
      ensures server.Valid() && Grows(old(server.maxAddresses), server.maxAddresses)
      ensures WindowAdded(old(server.RangeOf(p.slot.store).m), old(server.RangeOf(p.slot.store).labels),
                          server.RangeOf(p.slot.store).m, server.RangeOf(p.slot.store).labels, p, o, ok)
      ensures Took(old(server.RangeOf(p.slot.store).m), server.RangeOf(p.slot.store).m, p, o, ok)
      ensures ok && Placeable(p) ==> InTable(server.maxAddresses, p)
      ensures IsWidened(old(server.maxAddresses), server.maxAddresses, p.slot.unit, p.slot.store,
                        if ok then EndOf(p) else 0)
    {
      ghost var m0, labels0 := server.RangeOf(p.slot.store).m, server.RangeOf(p.slot.store).labels;
      ok := server.ObserveSegment(o, p.slot.store, p.address, p.width, p.slot.unit);
      WindowInserted(m0, labels0, server.RangeOf(p.slot.store).m, server.RangeOf(p.slot.store).labels, p, o, ok);
    }

    /** The same, in terms of all four ranges at once. */
    method Register(p: Placement, o: ObserverId) returns (ok: bool)
      requires server.Valid()
      modifies server`maxAddresses, server`registered, server.RangeOf(p.slot.store)
      ensures server.Valid() && Grows(old(server.maxAddresses), server.maxAddresses)
      ensures !ok || IsWidened(old(server.maxAddresses), server.maxAddresses, p.slot.unit, p.slot.store, EndOf(p))
      ensures var store := p.slot.store;
        Took(SegmentsOf(old(server.StoreSegments()), store), SegmentsOf(server.StoreSegments(), store), p, o, ok)
      ensures forall store | store != p.slot.store ::
        SegmentsOf(server.StoreSegments(), store) == SegmentsOf(old(server.StoreSegments()), store)
      ensures IsNew(SegmentsOf(old(server.StoreSegments()), p.slot.store), p, o) ==>
        && (ok <==> Compatible(LabelsOf(old(server.LabelsNow()), p.slot.store), RangeLabels(p, o)))
        && (ok ==> InTable(server.maxAddresses, p)
                   && ServerStep(old(server.StoreSegments()), old(server.LabelsNow()),
                                 server.StoreSegments(), server.LabelsNow(), p, o))
    {
      ghost var stores, labels := server.StoreSegments(), server.LabelsNow();
      Views(server);
      ok := Observe(p, o);
      Views(server);
      WindowAddedTo(stores, labels, server.StoreSegments(), server.LabelsNow(), p, o, ok);
    }

    /** Registers the next observer; the ranges then also hold its window. */
    method Enroll(p: Placement) returns (ok: bool)
      requires Valid() && Sized()
      modifies server`maxAddresses, server`registered, server.RangeOf(p.slot.store)
      ensures server.Valid() && (ok <==> AllAccepted(placed + [p]))
      ensures ok ==> AllNeeded(server.maxAddresses, placed + [p])
      ensures ok ==> Registered(server.StoreSegments(), placed + [p])
      ensures AllPlaceable(placed + [p]) && ok ==> Consistent(placed + [p])
    {
      ghost var stores, labels, sizes := server.StoreSegments(), server.LabelsNow(), server.maxAddresses;
      ok := Register(p, |observers|);
      RegisteredStep(stores, server.StoreSegments(), placed, p, ok);
      if ok {
        AllNeededStep(sizes, server.maxAddresses, placed, p);
      }
      if AllPlaceable(placed + [p]) {
        AllPlaceableLast(placed, p);
        OfStore(stores, labels, sizes, placed, p.slot.store);
        CompatibleIsDisjoint(LabelsOf(labels, p.slot.store), placed, p);
        if ok {
          AgreesStep(stores, labels, sizes, server.StoreSegments(), server.LabelsNow(), server.maxAddresses, placed, p);
        }
      }
    }

    /** The observers there were have stayed, and the others are new. */
    twostate predicate OnlyAdds()
      reads this
    {
      old(observers) <= observers && forall i | |old(observers)| <= i < |observers| :: fresh(observers[i])
    }

    /** Creates the observer of one entry and registers it. */
    method AddObserver(p: Placement) returns (ok: bool)
      requires Valid() && Sized()
      modifies this, server`maxAddresses, server`registered, server.RangeOf(p.slot.store)
      ensures ok <==> AllAccepted(old(placed) + [p])
      ensures ok ==> Valid() && Sized() && placed == old(placed) + [p]
      ensures OnlyAdds()
    {
      var obs := new GatewayObserver(p.topic, p.conv, p.number);
      ok := Enroll(p);
      if ok {
        OneMoreMade(observers, placed, obs, p);
        observers, placed := observers + [obs], placed + [p];
      }
    }

    /** One pass of the loop of _BuildStore. */
    method BuildItem(store: StoreType, item: Item, ghost all: seq<Placement>) returns (r: Built)
      requires Valid() && Sized() && InSchema(store, item)
      requires item.enabled && Compile(store, item).Ready? ==> placed + [PlacementOf(store, item)] <= all
      modifies this, server`maxAddresses, server`registered, server.RangeOf(store)
      ensures r != NothingEnabled
      ensures r.BadFormat? <==> item.enabled && Compile(store, item).UnknownFormat?
      ensures r.Overlapping? ==> !AllAccepted(all)
      ensures r.Done? ==> Valid() && Sized() && r.enabled == item.enabled
      ensures r.Done? ==> placed == old(placed) + if item.enabled then [PlacementOf(store, item)] else []
      ensures OnlyAdds()
    {
      if !item.enabled {
        return Done(false);
      }
      if Compile(store, item).UnknownFormat? {
        return BadFormat;
      }
      ghost var next := placed + [PlacementOf(store, item)];
      var ok := AddObserver(PlacementOf(store, item));
      if AllAccepted(all) {
        PrefixAccepted(next, all);
      }
      r := if ok then Done(true) else Overlapping;
    }

    /** The loop of _BuildStore has dealt with the first n entries. */
    ghost predicate InLoop(placed0: seq<Placement>, store: StoreType, list: seq<Item>, n: nat, enabled: bool)
      requires n <= |list| && ListInSchema(store, list)
      reads this, server`maxAddresses, server.di, server.co, server.ir, server.hr, server.mb`mappings
    {
      Valid() && Sized() && placed == placed0 + Placements(store, list, n) && Passed(store, list, n, enabled)
    }

    /** An entry of the list cannot be had. */
    static ghost predicate Hopeless(r: Built, placed0: seq<Placement>, store: StoreType, list: seq<Item>)
      requires ListInSchema(store, list)
    {
      (r == BadFormat && !AllKnown(store, list))
      || (r == Overlapping && !AllAccepted(placed0 + Placements(store, list, |list|)))
    }

    /** One pass of that loop. */
    method NextItem(ghost placed0: seq<Placement>, store: StoreType, list: seq<Item>, n: nat, enabled: bool)
      returns (r: Built)
      requires n < |list| && ListInSchema(store, list) && InLoop(placed0, store, list, n, enabled)
      modifies this, server`maxAddresses, server`registered, server.RangeOf(store)
      ensures !r.Done? || InLoop(placed0, store, list, n + 1, r.enabled)
      ensures r.Done? || Hopeless(r, placed0, store, list)
      ensures OnlyAdds()
    {
      PassedNext(store, list, n, enabled);
      PlacedNext(placed0, store, list, n);
      r := BuildItem(store, list[n], placed0 + Placements(store, list, |list|));
      if r.Done? {
        r := Done(enabled || r.enabled);
      }
    }

    /** _BuildStore: an observer for every enabled entry of the list, until one cannot be had. */
    method BuildStore(store: StoreType, list: seq<Item>) returns (r: Built)
      requires Valid() && Sized() && ListInSchema(store, list)
      modifies this, server`maxAddresses, server`registered, server.RangeOf(store)
      ensures r.Done? ==> Valid() && Sized() && placed == old(placed) + Placements(store, list, |list|)
      ensures r.Done? ==> AllKnown(store, list) && (r.enabled <==> AnyEnabled(list))
      ensures r == BadFormat ==> !AllKnown(store, list)
      ensures r != NothingEnabled
      ensures r.Done? <==> AllKnown(store, list) && AllAccepted(old(placed) + Placements(store, list, |list|))
      ensures OnlyAdds()
    {
      r := BuildItems(store, list);
      if r.Done? {
        ValidIsAccepted();
      }
    }

    /** Its loop. */
    method BuildItems(store: StoreType, list: seq<Item>) returns (r: Built)
      requires Valid() && Sized() && ListInSchema(store, list)
      modifies this, server`maxAddresses, server`registered, server.RangeOf(store)
      ensures !r.Done? || InLoop(old(placed), store, list, |list|, r.enabled)
      ensures r.Done? || Hopeless(r, old(placed), store, list)
      ensures OnlyAdds()
    {
      r := Done(false);
      ghost var placed0 := placed;
      var i := 0;
      while i < |list| && r.Done?
        invariant i <= |list| && OnlyAdds()
        invariant !r.Done? || InLoop(placed0, store, list, i, r.enabled)
        invariant r.Done? || Hopeless(r, placed0, store, list)
      {
        label Before:
        r := NextItem(placed0, store, list, i, r.enabled);
        assert OnlyAdds() by {
          forall k | |old(observers)| <= k < |observers|
            ensures fresh(observers[k])
          {
            if k < |old@Before(observers)| {
              assert observers[k] == old@Before(observers[k]);
            }
          }
        }
        i := i + 1;
      }
    }

    /** Where Build() stands after n of its four steps; a failed step ends it. */
    ghost predicate Standing(rs: Registers, n: nat, r: Built)
      requires AllInSchema(rs) && n <= 4
      reads this, server`maxAddresses, server.di, server.co, server.ir, server.hr, server.mb`mappings
    {
      if r.Done? then Valid() && Sized() && placed == PlacementsOf(rs, n) && BuiltUpTo(rs, n, r.enabled)
      else !Acceptable(rs)
    }

    /** One of the four steps of Build(), unless an earlier one failed. */
    method BuildNext(rs: Registers, n: nat, before: Built) returns (r: Built)
      requires n < 4 && AllInSchema(rs) && Standing(rs, n, before)
      modifies this, server`maxAddresses, server`registered, server.di, server.co, server.ir, server.hr
      ensures Standing(rs, n + 1, r)
      ensures OnlyAdds()
    {
      if !before.Done? {
        return before;
      }
      var store, list := StoreAt(n), ListAt(rs, n);
      Prefix(rs, n + 1);
      if AllAccepted(PlacementsOf(rs, 4)) {
        PrefixAccepted(PlacementsOf(rs, n + 1), PlacementsOf(rs, 4));
      }
      r := BuildStore(store, list);
      if r.Done? {
        r := Done(before.enabled || r.enabled);
      }
    }

    /** The four steps. */
    method BuildLists(rs: Registers) returns (r: Built)
      requires AllInSchema(rs) && Standing(rs, 0, Done(false))
      modifies this, server`maxAddresses, server`registered, server.di, server.co, server.ir, server.hr
      ensures Standing(rs, 4, r)
      ensures OnlyAdds()
    {
      r := Done(false);
      for n := 0 to 4
        invariant Standing(rs, n, r)
        invariant OnlyAdds()
      {
        r := BuildNext(rs, n, r);
      }
    }

    /**
     * Build(): observers for the coils, the discrete inputs, the holding and the input registers. The configuration is
     * accepted exactly if all formats are known, anything is enabled at all, and the ranges take all registrations,
     * which for possible windows means that no two of them overlap (Acceptance.AcceptedIsDisjoint).
     */
    method Build(rs: Registers) returns (r: Built)
      requires Valid() && Sized() && placed == [] && AllInSchema(rs)
      modifies this, server`maxAddresses, server`registered, server.di, server.co, server.ir, server.hr
      ensures r.Done? ==> Valid() && Sized() && placed == PlacementsOf(rs, 4)
      ensures r.Done? <==> Acceptable(rs)
      ensures forall i | 0 <= i < |observers| :: fresh(observers[i])
    {
      NothingBuilt(rs);
      r := BuildLists(rs);
      AllBuilt(rs, r);
      if r.Done? && !r.enabled {
        r := NothingEnabled;
      }
    }

    lemma NothingBuilt(rs: Registers)
      requires Valid() && Sized() && placed == [] && AllInSchema(rs)
      ensures Standing(rs, 0, Done(false))
    {
    }

    lemma AllBuilt(rs: Registers, r: Built)
      requires AllInSchema(rs) && Standing(rs, 4, r)
      ensures r.Done? && r.enabled <==> Acceptable(rs)
    {
      if r.Done? {
        ValidIsAccepted();
      }
    }

    /** The observer knows where its window is. */
    ghost predicate HasCache(i: nat)
      requires i < |observers| && i < |placed|
      reads this, observers
    {
      observers[i].cache == Cache(WindowPointer(placed[i]))
    }

    /** The callbacks made while the caches are allocated. */
    method TellObservers(calls: seq<Call>)
      requires |observers| == |placed| && AnnouncesWindows(placed, calls)
      requires forall i, j | 0 <= i < j < |observers| :: observers[i] != observers[j]
      modifies observers
      ensures forall i | 0 <= i < |observers| :: HasCache(i)
    {
      for j := 0 to |calls|
        invariant forall k | 0 <= k < j :: HasCache(calls[k].obs)
      {
        var c := calls[j];
        observers[c.obs].OnCacheAllocate(c.windows);
        assert HasCache(c.obs);
      }
      forall i | 0 <= i < |observers|
        ensures HasCache(i)
      {
        assert IsTold(calls, i);
      }
    }

    lemma AllRangesInUnitSpace()
      requires Valid() && AllPlaceable(placed)
      ensures forall store :: InUnitSpace(server.RangeOf(store).m)
    {
      Views(server);
      forall store
        ensures InUnitSpace(server.RangeOf(store).m)
      {
        OfStore(server.StoreSegments(), server.LabelsNow(), server.maxAddresses, placed, store);
        RangeInUnitSpace(server.RangeOf(store).m, server.RangeOf(store).labels, placed, store);
      }
    }

    lemma AllTold(calls: seq<Call>)
      requires Valid() && AllPlaceable(placed)
      requires AnnouncedIn(server.StoreSegments(), SlotsOf(server.maxAddresses.Keys), calls)
      ensures AnnouncesWindows(placed, calls)
    {
      Views(server);
      AllAnnounced(server.StoreSegments(), server.LabelsNow(), server.maxAddresses, placed, calls);
    }

    /** The server allocates the caches; what it announces is where the windows are. */
    method AllocateTables() returns (calls: seq<Call>)
      requires Valid() && AllPlaceable(placed)
      modifies server`log, server.mb`mappings
      ensures Valid() && AnnouncesWindows(placed, calls)
      ensures HasTables(old(server.mb.mappings), server.mb.mappings, server.maxAddresses, server.maxAddresses.Keys)
      ensures forall u, store | u in server.mb.mappings && u !in old(server.mb.mappings) ::
        AllZero(TableIn(server.mb.mappings[u], store))
      ensures server.mb.OnlyAdds()
    {
      var before := |server.log|;
      AllRangesInUnitSpace();
      ghost var made := server.AllocateCache();
      calls := server.log[before..];
      assert calls == made;
      AllTold(calls);
    }

    /** AllocateCache with the callbacks it makes; from here on the windows are connected to their topics. */
    method Allocate() returns (mqtt: Subscriptions)
      requires Valid() && AllPlaceable(placed) && server.mb.mappings == map[] && server.answer == GatewayAnswer
      requires CellsFit(placed) && Sized()
      modifies server`log, server.mb`mappings, observers
      ensures fresh(mqtt) && fresh(mqtt.Tables()) && mqtt.Ready() && Live()
      ensures !Sized() || ExactTables(server.mb.mappings, placed)
      ensures mqtt.mb == server.mb && mqtt.observers == observers && mqtt.placed == placed
      ensures mqtt.received == seq(|placed|, _ => [])
    {
      var calls := AllocateRooms();
      mqtt := Connect(calls);
    }

    /**
     * Once the caches are allocated: all windows are possible and have their tables, and observers answer as they do.
     */
    ghost predicate Live()
      reads this, server`maxAddresses, server.di, server.co, server.ir, server.hr, server.mb`mappings
    {
      && Valid() && AllPlaceable(placed) && server.answer == GatewayAnswer
      && forall i | 0 <= i < |placed| :: IsBacked(server.mb.mappings, placed[i])
    }

    /** All cells that are packed are zero. */
    ghost predicate AllRoomy()
      reads this`placed, server.mb
      reads set u, store: StoreType | u in server.mb.mappings :: TableIn(server.mb.mappings[u], store)
    {
      forall i | 0 <= i < |placed| ::
        placed[i].slot.unit in server.mb.mappings && HasRoom(server.mb.TableOf(placed[i].slot), placed[i])
    }

    lemma CellsInTables()
      requires Valid() && AllPlaceable(placed) && CellsFit(placed) && server.answer == GatewayAnswer
      requires HasTables(map[], server.mb.mappings, server.maxAddresses, server.maxAddresses.Keys)
      requires forall u, store | u in server.mb.mappings :: AllZero(TableIn(server.mb.mappings[u], store))
      ensures Live() && AllRoomy()
    {
      forall i | 0 <= i < |placed|
        ensures IsBacked(server.mb.mappings, placed[i]) && HasRoom(server.mb.TableOf(placed[i].slot), placed[i])
      {
        RoomForCells(server.mb.mappings, server.maxAddresses, placed, i);
      }
    }

    /** The tables are exactly those the windows need. */
    lemma TablesAreNeeded()
      requires Live() && Sized()
      requires HasTables(map[], server.mb.mappings, server.maxAddresses, server.maxAddresses.Keys)
      ensures ExactTables(server.mb.mappings, placed)
    {
      TablesAreExact(server.mb.mappings, server.maxAddresses, placed);
    }

    /** The server allocates the caches where there were none. */
    method AllocateRooms() returns (calls: seq<Call>)
      requires Valid() && AllPlaceable(placed) && server.mb.mappings == map[] && server.answer == GatewayAnswer
      requires CellsFit(placed) && Sized()
      modifies server`log, server.mb`mappings
      ensures Live() && AllRoomy() && AnnouncesWindows(placed, calls)
      ensures !Sized() || ExactTables(server.mb.mappings, placed)
      ensures forall u, store | u in server.mb.mappings :: fresh(TableIn(server.mb.mappings[u], store))
    {
      calls := AllocateTables();
      CellsInTables();
      TablesAreNeeded();
    }

    /** The callbacks, and what the observers point to after them. */
    method Connect(calls: seq<Call>) returns (mqtt: Subscriptions)
      requires Live() && AllRoomy() && CellsApart(placed) && AnnouncesWindows(placed, calls)
      modifies observers
      ensures fresh(mqtt) && mqtt.Ready() && Live()
      ensures mqtt.mb == server.mb && mqtt.observers == observers && mqtt.placed == placed
      ensures mqtt.received == seq(|placed|, _ => [])
    {
      TellObservers(calls);
      forall i | 0 <= i < |placed|
        ensures PointsTo(observers[i], placed[i])
      {
        assert MadeFor(observers[i], placed[i]) && HasCache(i);
      }
      mqtt := new Subscriptions(server.mb, observers, placed);
    }

    /** Build() and, if it throws nothing, AllocateCache. */
    method BuildAndAllocate(rs: Registers) returns (r: Built, mqtt: Subscriptions?)
      requires Valid() && Sized() && placed == [] && AllInSchema(rs) && AllFitting(PlacementsOf(rs, 4))
      requires server.mb.mappings == map[] && server.answer == GatewayAnswer
      modifies this, server, server.di, server.co, server.ir, server.hr, server.mb`mappings
      ensures r.Done? <==> Acceptable(rs)
      ensures r.Done? <==> mqtt != null
      ensures mqtt == null || (mqtt.Ready() && mqtt.placed == PlacementsOf(rs, 4))
      ensures mqtt != null ==> mqtt.received == seq(|mqtt.placed|, _ => [])
      ensures mqtt == null || (Live() && placed == mqtt.placed && observers == mqtt.observers)
      ensures mqtt != null ==> mqtt.mb == server.mb && fresh(mqtt) && fresh(mqtt.Tables())
      ensures mqtt == null || ExactTables(server.mb.mappings, placed)
    {
      mqtt := null;
      r := Build(rs);
      if r.Done? {
        AcceptedIsDisjoint(placed);
        mqtt := Allocate();
      }
    }

    lemma HoldsRange(store: StoreType)
      requires Valid() && AllPlaceable(placed)
      ensures RangeHolds(server.RangeOf(store).m, server.RangeOf(store).labels, placed, store)
    {
      Views(server);
      OfStore(server.StoreSegments(), server.LabelsNow(), server.maxAddresses, placed, store);
    }

    /**
     * Main result: a write that covers whole windows is answered normally, and each of their observers publishes the
     * value its registers encode on its own topic, in ascending order of addresses. Nothing Live() depends on changes.
     */
    method HandleWrite(q: Query, ghost run: seq<nat>) returns (published: seq<Message>)
      requires Live() && Supported(q) && !IsReadCmd(CommandOf(q))
      requires CoversRow(placed, run, RequestOf(q))
      requires forall i | 0 <= i < |run| :: HasValue(placed[run[i]], RequestOf(q))
      modifies server`log, server.mb`replies
      ensures server.mb.replies == old(server.mb.replies) + [Normal(q)]
      ensures |published| == |run| && IsPublished(placed, run, RequestOf(q), published)
    {
      var calls := ServeWrite(q, run);
      published := PublishAll(observers, calls, placed, run, RequestOf(q));
    }

    /** The server's part of it: the calls it makes. */
    method ServeWrite(q: Query, ghost run: seq<nat>) returns (calls: seq<Call>)
      requires Live() && Supported(q) && !IsReadCmd(CommandOf(q)) && CoversRow(placed, run, RequestOf(q))
      modifies server`log, server.mb`replies
      ensures server.mb.replies == old(server.mb.replies) + [Normal(q)]
      ensures calls == WindowCalls(placed, run, RequestOf(q))
    {
      var before := |server.log|;
      ghost var r, log0, replies0 := RequestOf(q), server.log, server.mb.replies;
      var thrown := server.ProcessQuery(q);
      ghost var reply :| server.Finished(UnitOf(q), reply, thrown, replies0)
        && Answered(server.WorldNow(), q, log0, server.log, reply);
      HoldsRange(r.slot.store);
      Views(server);
      WriteCalls(server.RangeOf(r.slot.store).m, server.RangeOf(r.slot.store).labels, placed, run, r, q,
                 log0, server.log, reply);
      assert run[0] < |placed| && placed[run[0]].slot == r.slot;
      calls := server.log[before..];
    }
  }

  /** A gateway without observers, on a new server and backend. */
  method NewGateway() returns (gateway: Gateway)
    ensures fresh(gateway) && fresh(gateway.server) && fresh(gateway.server.mb)
    ensures fresh(gateway.server.di) && fresh(gateway.server.co)
    ensures fresh(gateway.server.ir) && fresh(gateway.server.hr)
    ensures gateway.Valid() && gateway.Sized() && gateway.placed == [] && gateway.server.answer == GatewayAnswer
    ensures gateway.server.mb.mappings == map[] && gateway.server.mb.replies == []
  {
    var backend := new Backend();
    var server := new Server(backend, GatewayAnswer);
    gateway := new Gateway(server);
  }

  /**
   * fromConfig(): an accepted configuration ends with every observer connected to its window. What follows for every
   * run of messages is Subscriptions.Run and Subscriptions.HoldsLatest, and for writes Gateway.HandleWrite.
   */
  method FromConfig(rs: Registers) returns (r: Built, gateway: Gateway, mqtt: Subscriptions?)
    requires AllInSchema(rs) && AllFitting(PlacementsOf(rs, 4))
    ensures r.Done? <==> Acceptable(rs)
    ensures r.Done? <==> mqtt != null
    ensures mqtt != null ==> mqtt.Ready() && mqtt.placed == PlacementsOf(rs, 4)
    ensures mqtt != null ==> mqtt.received == seq(|mqtt.placed|, _ => [])
    ensures mqtt != null ==> gateway.Live() && gateway.placed == mqtt.placed && gateway.observers == mqtt.observers
    ensures fresh(gateway) && fresh(gateway.server) && fresh(gateway.server.mb) && gateway.server.mb.replies == []
    ensures mqtt != null ==> mqtt.mb == gateway.server.mb && fresh(mqtt) && fresh(mqtt.Tables())
    ensures mqtt == null || ExactTables(gateway.server.mb.mappings, gateway.placed)
  {
    gateway := NewGateway();
    r, mqtt := gateway.BuildAndAllocate(rs);
  }
}
