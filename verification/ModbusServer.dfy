/**
 * TModbusServer of src/modbus_wrapper.cpp over an abstract backend: registering observers, allocating the caches,
 * and serving queued queries. Observers may answer anything: answer gives the reply of the latest call as a
 * function of all calls made so far.
 */
module ModbusServer {
  import opened AddressRange
  import opened Modbus
  import opened Dispatch

  /** TRSet: the number of items each table of a unit needs. */
  datatype RSet = RSet(di: nat, co: nat, ir: nat, hr: nat)

  function SizeOf(r: RSet, store: StoreType): nat {
    match store
    case DiscreteInput => r.di
    case Coil => r.co
    case InputRegister => r.ir
    case HoldingRegister => r.hr
  }

  function WithSize(r: RSet, store: StoreType, n: nat): RSet {
    match store
    case DiscreteInput => r.(di := n)
    case Coil => r.(co := n)
    case InputRegister => r.(ir := n)
    case HoldingRegister => r.(hr := n)
  }

  /** modbus_mapping_t: the tables of one unit. */
  datatype Mapping = Mapping(di: array<int>, co: array<int>, ir: array<int>, hr: array<int>)

  function TableIn(m: Mapping, store: StoreType): array<int> {
    match store
    case DiscreteInput => m.di
    case Coil => m.co
    case InputRegister => m.ir
    case HoldingRegister => m.hr
  }

  ghost predicate AllZero(table: array<int>)
    reads table
  {
    forall i | 0 <= i < table.Length :: table[i] == 0
  }

  /** The backend: received queries, replies sent, and the zero-initialised tables of every unit. */
  class Backend {
    var queue: seq<Query>
    var replies: seq<Reply>
    var mappings: map<Byte, Mapping>

    constructor ()
      ensures Valid() && queue == [] && replies == [] && mappings == map[]
    {
      queue, replies, mappings := [], [], map[];
    }

    function TableOf(slot: Slot): array<int>
      requires slot.unit in mappings
      reads this`mappings
    {
      TableIn(mappings[slot.unit], slot.store)
    }

    /** No two slots share a table. */
    ghost predicate Valid()
      reads this`mappings
    {
      forall s: Slot, t: Slot | s.unit in mappings && t.unit in mappings && s != t :: TableOf(s) != TableOf(t)
    }

    /** Units with tables have kept them, and the other tables are new. */
    twostate predicate OnlyAdds()
      reads this`mappings
    {
      && (forall u | u in old(mappings) :: u in mappings && mappings[u] == old(mappings[u]))
      && forall u, store | u in mappings && u !in old(mappings) :: fresh(TableIn(mappings[u], store))
    }

    /** A unit that has its tables keeps them: caches are never reallocated. */
    method AllocateCache(unit: Byte, sizes: RSet, ghost mappings0: map<Byte, Mapping>)
      requires Valid()
      requires forall u, store | u in mappings && u !in mappings0 :: AllZero(TableIn(mappings[u], store))
      modifies this`mappings
      ensures forall u, store | u in mappings && u !in mappings0 :: AllZero(TableIn(mappings[u], store))
      ensures Valid() && mappings.Keys == old(mappings.Keys) + {unit}
      ensures forall u | u in old(mappings) :: mappings[u] == old(mappings[u])
      ensures unit !in old(mappings) ==> forall store: StoreType ::
        var t := TableIn(mappings[unit], store);
        fresh(t) && t.Length == SizeOf(sizes, store) && AllZero(t)
    {
      if unit in mappings {
        return;
      }
      var co := new int[sizes.co](_ => 0);
      var di := new int[sizes.di](_ => 0);
      var hr := new int[sizes.hr](_ => 0);
      var ir := new int[sizes.ir](_ => 0);
      mappings := mappings[unit := Mapping(di, co, ir, hr)];
    }

    method Send(reply: Reply)
      modifies this`replies
      ensures replies == old(replies) + [reply]
    {
      replies := replies + [reply];
    }

    /** Sends the reply the observers agreed on; a normal reply needs the tables of the unit and throws without them. */
    method Finish(reply: Reply, unit: Byte) returns (thrown: bool)
      modifies this`replies
      ensures thrown <==> reply.Normal? && unit !in mappings
      ensures replies == old(replies) + if thrown then [] else [reply]
    {
      thrown := reply.Normal? && unit !in mappings;
      if !thrown {
        Send(reply);
      }
    }
  }

  /** Every key is the packed address of some unit. */
  ghost predicate InUnitSpace(m: Segments<ObserverId>) {
    forall k | k in m :: 0 <= k < Base(256)
  }

  /**
   * w is the cache range announced to observer o for a slot: the segments of o in the unit that begin below c, each
   * moved to its offset in the table and carrying a pointer to that cell.
   */
  ghost predicate IsWindows(m: Segments<ObserverId>, c: int, slot: Slot, o: ObserverId, w: Segments<Pointer>) {
    && (forall k, a | k == Base(slot.unit) + a && 0 <= a < 65536 :: a in w <==> k in m && k < c && m[k].param == o)
    && (forall a | a in w :: 0 <= a < 65536 && w[a].param == Pointer(slot, a))
    && (forall k, a | k == Base(slot.unit) + a && k in m && a in w :: w[a].hi - a == m[k].hi - k)
  }

  /** The collecting loop of _callCacheAllocate has handled the segments below c. */
  ghost predicate Collected(m: Segments<ObserverId>, c: int, slot: Slot, windows: map<ObserverId, Segments<Pointer>>) {
    && (forall o | o in windows :: IsWindows(m, c, slot, o, windows[o]) && exists a :: a in windows[o])
    && (forall k | k in m && k < c && k / 65536 == slot.unit as int :: m[k].param in windows)
  }

  /** calls announces the cache to exactly the observers of a slot, once each, with their windows. */
  ghost predicate Announced(m: Segments<ObserverId>, slot: Slot, calls: seq<Call>) {
    && (forall c | c in calls :: c.CacheAllocate? && c.slot == slot && Announces(m, c))
    && (forall i, j | 0 <= i < j < |calls| :: calls[i].obs != calls[j].obs)
    && (forall k | k in m && k / 65536 == slot.unit as int :: exists c :: c in calls && c.obs == m[k].param)
  }

  ghost predicate Announces(m: Segments<ObserverId>, c: Call)
    requires c.CacheAllocate?
  {
    IsWindows(m, Base(256), c.slot, c.obs, c.windows) && exists a :: a in c.windows
  }

  lemma SkipsOtherUnit(m: Segments<ObserverId>, c: int, slot: Slot, windows: map<ObserverId, Segments<Pointer>>, x: int)
    requires Collected(m, c, slot, windows) && StandsAt(m, c, At(x)) && InUnitSpace(m)
    requires x / 65536 % 256 != slot.unit as int
    ensures Collected(m, x + 1, slot, windows)
  {
    forall o | o in windows
      ensures IsWindows(m, x + 1, slot, o, windows[o])
    {
      assert IsWindows(m, c, slot, o, windows[o]);
    }
  }

  /** Inserting the next segment into its observer's cache range cannot be rejected and does not merge. */
  lemma NextWindowFits(m: Segments<ObserverId>, c: int, slot: Slot, o: ObserverId, w: Segments<Pointer>, x: int)
    requires WellFormed(m) && StandsAt(m, c, At(x)) && InUnitSpace(m) && x / 65536 == slot.unit as int
    requires IsWindows(m, c, slot, o, w)
    ensures var a := x % 65536;
            && WellFormed(w) && a !in w && Accepts(w, a, m[x].hi - x, Pointer(slot, a))
            && (forall b | b in w :: w[b].param != Pointer(slot, a))
            && (m[x].param == o ==> IsWindows(m, x + 1, slot, o, w[a := Entry(a + (m[x].hi - x), Pointer(slot, a))]))
            && (m[x].param != o ==> IsWindows(m, x + 1, slot, o, w))
  {
    var a := x % 65536;
    assert x == Base(slot.unit) + a;
    forall b | b in w
      ensures b <= w[b].hi && b < a && w[b].hi <= a
    {
      var k := Base(slot.unit) + b;
      assert k in m && k < x && Apart(m, k, x);
    }
    forall b, d | b in w && d in w && b < d
      ensures Apart(w, b, d)
    {
      var k, l := Base(slot.unit) + b, Base(slot.unit) + d;
      assert k in m && l in m && Apart(m, k, l);
    }
  }

  lemma CollectedSteps(m: Segments<ObserverId>, c: int, slot: Slot, windows: map<ObserverId, Segments<Pointer>>,
                       x: int, w: Segments<Pointer>)
    requires WellFormed(m) && Collected(m, c, slot, windows) && StandsAt(m, c, At(x)) && InUnitSpace(m)
    requires x / 65536 == slot.unit as int && IsWindows(m, x + 1, slot, m[x].param, w) && x % 65536 in w
    ensures Collected(m, x + 1, slot, windows[m[x].param := w])
  {
    forall o | o in windows && o != m[x].param
      ensures IsWindows(m, x + 1, slot, o, windows[o])
    {
      assert IsWindows(m, c, slot, o, windows[o]);
      NextWindowFits(m, c, slot, o, windows[o], x);
    }
  }

  lemma StoredWindows(m: Segments<ObserverId>, c: int, slot: Slot, windows: map<ObserverId, Segments<Pointer>>,
                      o: ObserverId)
    requires Collected(m, c, slot, windows)
    ensures IsWindows(m, c, slot, o, if o in windows then windows[o] else map[])
  {
  }

  /** The first half of _callCacheAllocate: one cache range for every observer of the slot. */
  method CollectWindows(range: TAddressRange<ObserverId>, slot: Slot)
    returns (observers: map<ObserverId, Segments<Pointer>>)
    requires range.Valid() && InUnitSpace(range.m)
    ensures Collected(range.m, Base(256), slot, observers)
  {
    observers := map[];
    var m := range.m;
    var it := range.First();
    ghost var c := if it.At? then it.key else Base(256);
    while it.At?
      invariant StandsAt(m, c, it) && c <= Base(256)
      invariant Collected(m, c, slot, observers)
      decreases Base(256) - c
    {
      var k, e := it.key, m[it.key];
      it := LowerBound(m, k + 1);
      observers := AddWindow(observers, m, c, slot, k, e);
      c := k + 1;
    }
    AllWindows(m, c, slot, observers);
  }

  lemma AllWindows(m: Segments<ObserverId>, c: int, slot: Slot, windows: map<ObserverId, Segments<Pointer>>)
    requires Collected(m, c, slot, windows) && StandsAt(m, c, End) && c <= Base(256) && InUnitSpace(m)
    ensures Collected(m, Base(256), slot, windows)
  {
    forall o | o in windows
      ensures IsWindows(m, Base(256), slot, o, windows[o])
    {
      assert IsWindows(m, c, slot, o, windows[o]);
    }
  }

  /** One pass of that loop: a segment of the unit is inserted into the stored range of its observer. */
  method AddWindow(observers: map<ObserverId, Segments<Pointer>>, ghost m: Segments<ObserverId>, ghost c: int,
                   slot: Slot, k: int, e: Entry<ObserverId>) returns (observers': map<ObserverId, Segments<Pointer>>)
    requires WellFormed(m) && InUnitSpace(m) && StandsAt(m, c, At(k)) && m[k] == e
    requires Collected(m, c, slot, observers)
    ensures Collected(m, k + 1, slot, observers')
  {
    if k / 65536 % 256 != slot.unit as int {
      SkipsOtherUnit(m, c, slot, observers, k);
      return observers;
    }
    var cacheOffset := k % 65536;
    var stored := if e.param in observers then observers[e.param] else map[];
    StoredWindows(m, c, slot, observers, e.param);
    NextWindowFits(m, c, slot, e.param, stored, k);
    var w := InsertWindow(stored, cacheOffset, e.hi - k, Pointer(slot, cacheOffset));
    CollectedSteps(m, c, slot, observers, k, w);
    return observers[e.param := w];
  }

  /** insert() on a cache range, whose pointers are all different. */
  method InsertWindow(stored: Segments<Pointer>, start: int, count: nat, cachePtr: Pointer)
    returns (w: Segments<Pointer>)
    requires WellFormed(stored) && start !in stored && Accepts(stored, start, count, cachePtr)
    requires forall a | a in stored :: stored[a].param != cachePtr
    ensures w == stored[start := Entry(start + count, cachePtr)]
  {
    var range := new TAddressRange.Copy(stored);
    var _ := range.Insert(start, count, cachePtr);
    return range.m;
  }

  /**
   * What inserting range + offset under o makes of a range: the addresses of the segments r, meaning all, moved by the
   * offset. It is accepted exactly if the segments of the copy, relabelled, can enter the range one by one. A rejection
   * may have cost addresses labelled o; of a single segment it is known which.
   */
  ghost predicate InsertedAt(m0: Segments<ObserverId>, labels0: imap<int, ObserverId>, m: Segments<ObserverId>,
                             labels: imap<int, ObserverId>, r: Segments<ObserverId>, all: imap<int, ObserverId>,
                             offset: int, o: ObserverId, ok: bool)
    requires WellFormed(r)
  {
    && Represents(m, labels)
    && (forall moved, q | EntersMoved(r, moved, offset) && IsRelabelled(moved, q, o) ::
          (ok <==> CanEnter(m0, q)) && (ok ==> Enters(m0, q, m)))
    && (if ok then labels == labels0 + Painted(Moved(all, offset), o)
        else DamagedBy(labels0, labels, Moved(all, offset), o))
    && (Solid(m0) && Solid(r) ==> (ok <==> Compatible(labels0, Painted(Moved(all, offset), o))) && (ok ==> Solid(m)))
    && (forall k | IsAlone(r, k) :: Inserted(m0, labels0, m, labels, offset + k, r[k].hi - k, o, ok))
  }

  lemma MovedOnce(r: Segments<ObserverId>, moved: Segments<ObserverId>, offset: int)
    requires EntersMoved(r, moved, offset)
    ensures forall moved' | EntersMoved(r, moved', offset) :: moved' == moved
  {
    forall moved' | EntersMoved(r, moved', offset)
      ensures moved' == moved
    {
      EntersMovedUnique(r, moved', moved, offset);
    }
  }

  lemma ShiftedInsertion(m0: Segments<ObserverId>, labels0: imap<int, ObserverId>, m: Segments<ObserverId>,
                         labels: imap<int, ObserverId>, r: Segments<ObserverId>, all: imap<int, ObserverId>,
                         r': Segments<ObserverId>, offset: int, o: ObserverId, ok: bool)
    requires WellFormed(r) && WellFormed(r') && (Solid(r) ==> Solid(r'))
    requires forall k | IsAlone(r, k) :: IsShift(r, r', offset)
    requires EntersMoved(r, r', offset) && RangeInsertedAs(m0, labels0, m, labels, r', Moved(all, offset), o, ok)
    requires Represents(r', Moved(all, offset))
    ensures InsertedAt(m0, labels0, m, labels, r, all, offset, o, ok)
  {
    MovedOnce(r, r', offset);
    forall k | IsAlone(r, k)
      ensures Inserted(m0, labels0, m, labels, offset + k, r[k].hi - k, o, ok)
    {
      ShiftedSegment(m0, labels0, m, labels, r, r', k, offset, o, ok);
    }
  }

  lemma ShiftedSegment(m0: Segments<ObserverId>, labels0: imap<int, ObserverId>, m: Segments<ObserverId>,
                       labels: imap<int, ObserverId>, r: Segments<ObserverId>, r': Segments<ObserverId>,
                       k: int, offset: int, o: ObserverId, ok: bool)
    requires WellFormed(r) && WellFormed(r') && IsAlone(r, k) && IsShift(r, r', offset)
    requires forall l | IsAlone(r', l) :: Inserted(m0, labels0, m, labels, l, r'[l].hi - l, o, ok)
    ensures Inserted(m0, labels0, m, labels, offset + k, r[k].hi - k, o, ok)
  {
    ShiftedAlone(r, r', k, offset);
    assert r'[offset + k].hi - (offset + k) == r[k].hi - k;
  }

  lemma ShiftedAlone(m: Segments<ObserverId>, m': Segments<ObserverId>, k: int, offset: int)
    requires IsAlone(m, k) && IsShift(m, m', offset)
    ensures IsAlone(m', offset + k) && m'[offset + k] == Entry(m[k].hi + offset, m[k].param)
  {
    forall l | l in m'
      ensures l == offset + k
    {
      assert l - offset in m;
    }
  }

  type Sizes = map<Byte, RSet>

  /** The table of a slot, if its unit gets one, holds a cell for this offset. */
  predicate Fits(sizes: Sizes, unit: Byte, offset: int, store: StoreType) {
    unit in sizes && offset < SizeOf(sizes[unit], store)
  }

  /** sizes' has every unit of sizes with tables at least as large. */
  ghost predicate Grows(sizes: Sizes, sizes': Sizes) {
    forall unit, offset, store | Fits(sizes, unit, offset, store) :: Fits(sizes', unit, offset, store)
  }

  /** std::map::operator[]: an entry is made on first use. */
  function WithUnit(sizes: Sizes, unit: Byte): (sizes': Sizes)
    ensures sizes'.Keys == sizes.Keys + {unit} && Grows(sizes, sizes')
  {
    if unit in sizes then sizes else sizes[unit := RSet(0, 0, 0, 0)]
  }

  function Widened(sizes: Sizes, unit: Byte, store: StoreType, end: int): (sizes': Sizes)
    requires unit in sizes
    ensures sizes'.Keys == sizes.Keys && Grows(sizes, sizes')
    ensures forall a | a < end :: Fits(sizes', unit, a, store)
  {
    if end > SizeOf(sizes[unit], store) then sizes[unit := WithSize(sizes[unit], store, end)] else sizes
  }

  /** The size recorded for a table. */
  function Recorded(sizes: Sizes, unit: Byte, store: StoreType): nat {
    if unit in sizes then SizeOf(sizes[unit], store) else 0
  }

  /** The table of a slot has grown to end, if it was smaller; all other sizes recorded are as before. */
  ghost predicate IsWidened(sizes: Sizes, sizes': Sizes, unit: Byte, store: StoreType, end: int) {
    && sizes'.Keys == sizes.Keys + {unit}
    && forall u, s :: Recorded(sizes', u, s) ==
         if u == unit && s == store && end > Recorded(sizes, u, s) then end else Recorded(sizes, u, s)
  }

  lemma WidenedIs(sizes: Sizes, unit: Byte, store: StoreType, end: int)
    ensures IsWidened(sizes, WithUnit(sizes, unit), unit, store, 0)
    ensures IsWidened(sizes, Widened(WithUnit(sizes, unit), unit, store, end), unit, store, end)
  {
    var all := WithUnit(sizes, unit);
    forall u, s
      ensures Recorded(all, u, s) == Recorded(sizes, u, s)
      ensures Recorded(Widened(all, unit, store, end), u, s) ==
        if u == unit && s == store && end > Recorded(all, u, s) then end else Recorded(all, u, s)
    {
      SizeOfOther(all[unit], store, if end > 0 then end else 0, s);
    }
  }

  lemma SizeOfOther(r: RSet, store: StoreType, n: nat, s: StoreType)
    ensures SizeOf(WithSize(r, store, n), s) == if s == store then n else SizeOf(r, s)
  {
  }

  /** The sizes after a registration for the segments r: the table holds all of them if it succeeds. */
  ghost predicate SizesAfter(sizes: Sizes, sizes': Sizes, unit: Byte, store: StoreType, r: Segments<ObserverId>,
                             ok: bool) {
    if ok then forall k | IsLast(r, k) :: IsWidened(sizes, sizes', unit, store, r[k].hi)
    else IsWidened(sizes, sizes', unit, store, 0)
  }

  /** What is recorded for the unit after its part of Observe. */
  ghost predicate MadeRoom(sizes: Sizes, sizes': Sizes, unit: Byte, store: StoreType, r: Segments<ObserverId>, ok: bool)
    requires unit in sizes
  {
    if ok then forall k | IsLast(r, k) :: sizes' == Widened(sizes, unit, store, r[k].hi) else sizes' == sizes
  }

  lemma RoomIsSize(sizes: Sizes, sizes': Sizes, unit: Byte, store: StoreType, r: Segments<ObserverId>, ok: bool)
    requires MadeRoom(WithUnit(sizes, unit), sizes', unit, store, r, ok)
    ensures SizesAfter(sizes, sizes', unit, store, r, ok)
  {
    WidenedIs(sizes, unit, store, 0);
    forall k | IsLast(r, k) {
      WidenedIs(sizes, unit, store, r[k].hi);
    }
  }

  lemma SegmentSizes(sizes: Sizes, sizes': Sizes, unit: Byte, store: StoreType, r: Segments<ObserverId>, ok: bool,
                     start: nat, count: nat)
    requires SizesAfter(sizes, sizes', unit, store, r, ok) && r == map[start := Entry(start + count, 0)]
    ensures IsWidened(sizes, sizes', unit, store, if ok then start + count else 0)
  {
    assert IsLast(r, start);
  }

  /**
   * Every observed address of a store belongs to an observer registered for its unit, and lies inside the table
   * that the unit will be given.
   */
  ghost predicate Isolated(labels: imap<int, ObserverId>, store: StoreType, sizes: Sizes,
                           registered: set<(ObserverId, Slot)>) {
    forall a | a in labels ::
      && 0 <= a < Base(256)
      && Fits(sizes, a / 65536, a % 65536, store)
      && (labels[a], Slot(a / 65536, store)) in registered
  }

  lemma IsolatedStays(labels: imap<int, ObserverId>, store: StoreType, sizes: Sizes,
                      registered: set<(ObserverId, Slot)>, sizes': Sizes, registered': set<(ObserverId, Slot)>)
    requires Isolated(labels, store, sizes, registered) && Grows(sizes, sizes') && registered <= registered'
    ensures Isolated(labels, store, sizes', registered')
  {
  }

  /** Registering addresses of one unit keeps the units apart. */
  lemma ObserveKeepsIsolated(labels: imap<int, ObserverId>, store: StoreType, sizes: Sizes,
                             registered: set<(ObserverId, Slot)>,
                             sizes': Sizes, o: ObserverId, range: imap<int, ObserverId>, unit: Byte)
    requires Isolated(labels, store, sizes, registered) && Grows(sizes, sizes')
    requires forall a | a in range :: 0 <= a < 65536 && Fits(sizes', unit, a, store)
    ensures var added := Painted(Moved(range, Base(unit)), o);
      Isolated(labels + added, store, sizes', registered + {(o, Slot(unit, store))})
  {
    var added := Painted(Moved(range, Base(unit)), o);
    forall a | a in added
      ensures 0 <= a < Base(256) && a / 65536 == unit as int && Fits(sizes', unit, a % 65536, store)
    {
      assert InMoved(range, Base(unit), a);
      assert a - Base(unit) in range;
      assert a % 65536 == a - Base(unit);
    }
  }

  /** So does losing addresses. */
  lemma LossKeepsIsolated(m: Segments<ObserverId>, labels: imap<int, ObserverId>, store: StoreType, sizes: Sizes,
                          registered: set<(ObserverId, Slot)>, sizes': Sizes, registered': set<(ObserverId, Slot)>)
    requires Isolated(labels, store, sizes, registered) && Grows(sizes, sizes') && registered <= registered'
    ensures Isolated(Remaining(labels, m), store, sizes', registered')
  {
  }

  /** No observer of a store serves two units. */
  ghost predicate OneUnitEach(registered: set<(ObserverId, Slot)>) {
    forall r, q | r in registered && q in registered && r.0 == q.0 && r.1.store == q.1.store :: r.1.unit == q.1.unit
  }

  /** The addresses of the other units have the observers they had, or none. */
  ghost predicate OtherUnitsKept(labels: imap<int, ObserverId>, labels': imap<int, ObserverId>, unit: Byte) {
    forall a | a / 65536 != unit as int :: (a in labels' <==> a in labels) && (a in labels ==> labels'[a] == labels[a])
  }

  ghost predicate InUnit(range: imap<int, ObserverId>) {
    forall a | a in range :: 0 <= a < 65536
  }

  lemma MovedIntoUnit(range: imap<int, ObserverId>, unit: Byte)
    requires InUnit(range)
    ensures forall a | a in Moved(range, Base(unit)) :: a / 65536 == unit as int
  {
    forall a | a in Moved(range, Base(unit))
      ensures a / 65536 == unit as int
    {
      assert InMoved(range, Base(unit), a) && a - Base(unit) in range;
    }
  }

  lemma NotItsOwn(labels: imap<int, ObserverId>, store: StoreType, sizes: Sizes, registered: set<(ObserverId, Slot)>,
                  o: ObserverId, unit: Byte, a: int)
    requires Isolated(labels, store, sizes, registered) && OneUnitEach(registered + {(o, Slot(unit, store))})
    requires a in labels && a / 65536 != unit as int
    ensures labels[a] != o
  {
    var registered' := registered + {(o, Slot(unit, store))};
    assert (labels[a], Slot(a / 65536, store)) in registered' && (o, Slot(unit, store)) in registered';
  }

  /**
   * A registration changes nothing for other units: not when it is accepted, and not when it is rejected if the
   * observer serves no other unit.
   */
  lemma ObserveKeepsOtherUnits(m0: Segments<ObserverId>, labels0: imap<int, ObserverId>, m: Segments<ObserverId>,
                               labels: imap<int, ObserverId>, r: Segments<ObserverId>, range: imap<int, ObserverId>,
                               o: ObserverId, unit: Byte, store: StoreType, ok: bool,
                               sizes: Sizes, registered: set<(ObserverId, Slot)>)
    requires WellFormed(r) && InsertedAt(m0, labels0, m, labels, r, range, Base(unit), o, ok) && InUnit(range)
    requires !ok ==> Isolated(labels0, store, sizes, registered) && OneUnitEach(registered + {(o, Slot(unit, store))})
    ensures OtherUnitsKept(labels0, labels, unit)
  {
    MovedIntoUnit(range, unit);
    forall a | a / 65536 != unit as int
      ensures (a in labels <==> a in labels0) && (a in labels0 ==> labels[a] == labels0[a])
    {
      if !ok && a in labels0 {
        NotItsOwn(labels0, store, sizes, registered, o, unit, a);
      }
    }
  }

  ghost predicate StoreSound(m: Segments<ObserverId>, labels: imap<int, ObserverId>, store: StoreType, sizes: Sizes,
                             registered: set<(ObserverId, Slot)>) {
    Solid(m) && Isolated(labels, store, sizes, registered)
  }

  /** A registration that leaves the books in order: an accepted one, or any of a single segment. */
  ghost predicate Orderly(r: Segments<ObserverId>, range: imap<int, ObserverId>, ok: bool) {
    Solid(r) && InUnit(range) && (ok || exists k :: IsAlone(r, k))
  }

  /** What a registration does to the store it is for. */
  lemma StaysSound(m0: Segments<ObserverId>, labels0: imap<int, ObserverId>, m: Segments<ObserverId>,
                   labels: imap<int, ObserverId>, r: Segments<ObserverId>, range: imap<int, ObserverId>,
                   o: ObserverId, unit: Byte, store: StoreType, ok: bool, inserted: bool,
                   sizes: Sizes, registered: set<(ObserverId, Slot)>, sizes': Sizes)
    requires StoreSound(m0, labels0, store, sizes, registered) && Grows(sizes, sizes')
    requires WellFormed(r) && InsertedAt(m0, labels0, m, labels, r, range, Base(unit), o, inserted) && InUnit(range)
    requires ok <==> inserted && exists k :: k in r
    requires ok ==> forall a | a in range :: Fits(sizes', unit, a, store)
    ensures var registered' := registered + {(o, Slot(unit, store))};
      && (Orderly(r, range, ok) ==> StoreSound(m, labels, store, sizes', registered'))
      && (OneUnitEach(registered') ==> OtherUnitsKept(labels0, labels, unit))
  {
    var registered' := registered + {(o, Slot(unit, store))};
    if ok {
      ObserveKeepsIsolated(labels0, store, sizes, registered, sizes', o, range, unit);
    } else if Orderly(r, range, ok) {
      LossKeepsIsolated(m, labels0, store, sizes, registered, sizes', registered');
    }
    if OneUnitEach(registered') {
      ObserveKeepsOtherUnits(m0, labels0, m, labels, r, range, o, unit, store, inserted, sizes, registered);
    }
  }

  lemma SeqAssociates<T>(a: seq<T>, b: seq<T>, c: seq<T>)
    ensures (a + b) + c == a + (b + c)
  {
  }

  /** The announcing loop of _callCacheAllocate, with the observers in todo still to be told. */
  ghost predicate Announcing(m: Segments<ObserverId>, slot: Slot, observers: map<ObserverId, Segments<Pointer>>,
                             todo: set<ObserverId>, calls: seq<Call>) {
    && Collected(m, Base(256), slot, observers)
    && (forall c | c in calls ::
          c.CacheAllocate? && c.slot == slot && c.obs in observers && c.obs !in todo && Announces(m, c))
    && (forall i, j | 0 <= i < j < |calls| :: calls[i].obs != calls[j].obs)
    && (forall o | o in observers && o !in todo :: exists c :: c in calls && c.obs == o)
  }

  lemma AnnouncingStep(m: Segments<ObserverId>, slot: Slot, observers: map<ObserverId, Segments<Pointer>>,
                       todo: set<ObserverId>, calls: seq<Call>, o: ObserverId)
    requires Announcing(m, slot, observers, todo, calls) && o in todo && o in observers
    ensures Announcing(m, slot, observers, todo - {o}, calls + [CacheAllocate(o, slot, observers[o])])
  {
    var c := CacheAllocate(o, slot, observers[o]);
    var calls' := calls + [c];
    assert Announces(m, c);
    forall d | d in calls'
      ensures d == c || d in calls
    {
    }
    forall p | p in observers && p !in todo - {o}
      ensures exists d :: d in calls' && d.obs == p
    {
      if p == o {
        assert calls'[|calls|] == c;
      } else {
        var d :| d in calls && d.obs == p;
        assert d in calls';
      }
    }
  }

  lemma AnnouncingEnds(m: Segments<ObserverId>, slot: Slot, observers: map<ObserverId, Segments<Pointer>>,
                       calls: seq<Call>)
    requires Announcing(m, slot, observers, {}, calls) && InUnitSpace(m)
    ensures Announced(m, slot, calls)
  {
  }

  /** The segments of the four ranges. */
  datatype Stores = Stores(di: Segments<ObserverId>, co: Segments<ObserverId>,
                           ir: Segments<ObserverId>, hr: Segments<ObserverId>)

  function SegmentsOf(stores: Stores, store: StoreType): Segments<ObserverId> {
    match store
    case DiscreteInput => stores.di
    case Coil => stores.co
    case InputRegister => stores.ir
    case HoldingRegister => stores.hr
  }

  /** calls announces the cache to exactly the observers of the given slots, once for each slot they are in. */
  ghost predicate AnnouncedIn(stores: Stores, slots: iset<Slot>, calls: seq<Call>)
  {
    && (forall c | c in calls :: c.CacheAllocate? && c.slot in slots && Announces(SegmentsOf(stores, c.slot.store), c))
    && (forall i, j | 0 <= i < j < |calls| :: calls[i].obs != calls[j].obs || calls[i].slot != calls[j].slot)
    && (forall s, k | s in slots && k in SegmentsOf(stores, s.store) && k / 65536 == s.unit as int ::
          exists c :: c in calls && c.slot == s && c.obs == SegmentsOf(stores, s.store)[k].param)
  }

  lemma AnnouncedStep(stores: Stores, slots: iset<Slot>, calls: seq<Call>, slot: Slot, more: seq<Call>)
    requires AnnouncedIn(stores, slots, calls) && slot !in slots
    requires Announced(SegmentsOf(stores, slot.store), slot, more)
    ensures AnnouncedIn(stores, slots + iset{slot}, calls + more)
  {
  }

  ghost function SlotsOf(units: set<Byte>): iset<Slot> {
    iset s: Slot | s.unit in units
  }

  lemma SlotsOfUnit(units: set<Byte>, unit: Byte)
    ensures SlotsOf(units + {unit}) == SlotsOf(units) + iset{Slot(unit, DiscreteInput)} + iset{Slot(unit, Coil)}
      + iset{Slot(unit, InputRegister)} + iset{Slot(unit, HoldingRegister)}
  {
    forall s: Slot
      ensures s in SlotsOf(units + {unit}) <==>
              (s in SlotsOf(units) || s == Slot(unit, DiscreteInput) || s == Slot(unit, Coil)
               || s == Slot(unit, InputRegister) || s == Slot(unit, HoldingRegister))
    {
      match s.store {
        case DiscreteInput =>
        case Coil =>
        case InputRegister =>
        case HoldingRegister =>
      }
    }
  }

  /** The given units have tables, of the recorded sizes unless they had tables before. */
  ghost predicate HasTables(mappings: map<Byte, Mapping>, mappings': map<Byte, Mapping>, sizes: Sizes,
                            units: set<Byte>) {
    && mappings'.Keys == mappings.Keys + units
    && (forall u | u in mappings :: mappings'[u] == mappings[u])
    && (forall u, store | u in mappings' && u !in mappings && u in sizes ::
          TableIn(mappings'[u], store).Length == SizeOf(sizes[u], store))
  }

  lemma TablesStep(mappings: map<Byte, Mapping>, before: map<Byte, Mapping>, after: map<Byte, Mapping>,
                   sizes: Sizes, units: set<Byte>, unit: Byte)
    requires HasTables(mappings, before, sizes, units) && unit in sizes
    requires after.Keys == before.Keys + {unit} && forall u | u in before :: after[u] == before[u]
    requires unit !in before ==> forall store :: TableIn(after[unit], store).Length == SizeOf(sizes[unit], store)
    ensures HasTables(mappings, after, sizes, units + {unit})
  {
  }

  lemma NothingAllocated(stores: Stores, mappings: map<Byte, Mapping>, sizes: Sizes)
    ensures AnnouncedIn(stores, SlotsOf({}), []) && HasTables(mappings, mappings, sizes, {})
  {
  }

  /** The dispatching loops: the first i calls were made and none of them was refused. */
  ghost predicate Offering(answer: seq<Call> -> ReplyState, log0: seq<Call>, calls: seq<Call>, i: nat, log: seq<Call>,
                           reply: ReplyState) {
    && i <= |calls| && log == log0 + calls[..i]
    && (forall j | 0 < j <= i :: answer(log0 + calls[..j]) <= 0)
    && (if i == 0 then reply == ILLEGAL_ADDRESS else reply == answer(log))
  }

  lemma OfferingStep(answer: seq<Call> -> ReplyState, log0: seq<Call>, calls: seq<Call>, i: nat, log: seq<Call>,
                     reply: ReplyState)
    requires Offering(answer, log0, calls, i, log, reply) && i < |calls|
    ensures var log', reply' := log + [calls[i]], answer(log + [calls[i]]);
            if reply' > 0 then Ran(answer, log0, calls, i + 1, log', reply')
            else Offering(answer, log0, calls, i + 1, log', reply')
  {
  }

  lemma OfferedAll(answer: seq<Call> -> ReplyState, log0: seq<Call>, calls: seq<Call>, log: seq<Call>,
                   reply: ReplyState)
    requires Offering(answer, log0, calls, |calls|, log, reply) && calls != []
    ensures Ran(answer, log0, calls, |calls|, log, reply)
  {
  }

  /** The pieces are those of the request: none for a request of nothing. */
  ghost predicate PiecesOf(r: Request, m: Segments<ObserverId>, pieces: seq<Piece<ObserverId>>) {
    if r.count > 0 then Tiles(m, pieces, First(r), First(r) + r.count) else pieces == []
  }

  lemma NextPiece(r: Request, m: Segments<ObserverId>, pieces: seq<Piece<ObserverId>>, i: nat)
    requires PiecesOf(r, m, pieces) && i < |pieces|
    ensures i == 0 ==> pieces[i].lo == First(r)
    ensures i + 1 < |pieces| ==> pieces[i].hi == pieces[i + 1].lo
    ensures First(r) <= pieces[i].lo < pieces[i].hi <= First(r) + r.count
  {
    TilesEnd(m, pieces, First(r), First(r) + r.count, i);
    TilesStart(m, pieces, First(r), First(r) + r.count, i);
  }

  lemma {:induction false} TilesStart(m: Segments<ObserverId>, pieces: seq<Piece<ObserverId>>, start: int, end: int,
                                      i: nat)
    requires Tiles(m, pieces, start, end) && i < |pieces|
    ensures start <= pieces[i].lo
  {
    if i > 0 {
      TilesStart(m, pieces, start, end, i - 1);
    }
  }

  /** Any calls made in the end, as a run or none at all, amount to a served request. */
  lemma ServedBy(r: Request, q: Query, m: Segments<ObserverId>, labels: imap<int, ObserverId>,
                 answer: seq<Call> -> ReplyState, log0: seq<Call>, pieces: seq<Piece<ObserverId>>, n: nat,
                 log: seq<Call>, reply: ReplyState)
    requires PiecesOf(r, m, pieces) && (r.count > 0 ==> Complete(labels, First(r), r.count))
    requires if pieces == [] then log == log0 && reply == ILLEGAL_ADDRESS
             else Ran(answer, log0, CallsFor(r, pieces), n, log, reply)
    ensures Served(r, q, m, labels, answer, log0, log, ReplyTo(reply, q))
  {
  }

  /** What the server reads while it serves queries: its ranges, the units it observes, and the units with tables. */
  datatype World = World(stores: Stores, labels: StoreLabels, units: set<Byte>, ready: set<Byte>,
                         answer: seq<Call> -> ReplyState)

  datatype StoreLabels = StoreLabels(di: imap<int, ObserverId>, co: imap<int, ObserverId>,
                                     ir: imap<int, ObserverId>, hr: imap<int, ObserverId>)

  ghost function LabelsOf(labels: StoreLabels, store: StoreType): imap<int, ObserverId> {
    match store
    case DiscreteInput => labels.di
    case Coil => labels.co
    case InputRegister => labels.ir
    case HoldingRegister => labels.hr
  }

  /** The request a query makes. */
  function RequestOf(q: Query): (r: Request)
    requires Supported(q)
    ensures WellFormedRequest(r)
  {
    var cmd := CommandOf(q);
    var slot := Slot(UnitOf(q), StoreOf(cmd));
    if IsReadCmd(cmd) then Read(slot, StartOf(q), CountOf(q)) else Write(slot, StartOf(q), CountOf(q), ValuesOf(q))
  }

  /** The query was served, or is a read answered with ILLEGAL_ADDRESS because its unit has no tables. */
  ghost predicate Answered(w: World, q: Query, log: seq<Call>, log': seq<Call>, reply: Reply)
    requires Supported(q)
  {
    var r := RequestOf(q);
    if r.slot.unit in w.ready || r.Write? then
      Served(r, q, SegmentsOf(w.stores, r.slot.store), LabelsOf(w.labels, r.slot.store), w.answer, log, log', reply)
    else
      log' == log && reply == Exception(ILLEGAL_ADDRESS, q)
  }

  /** The server answers only queries to units it observes. */
  predicate Addressed(units: set<Byte>, q: Query)
    requires q.headerLength <= |q.data|
  {
    |q.data| > 0 && UnitOf(q) in units
  }

  /** What the backend may hand to the server: a whole header, and if the server will answer it, a query it can read. */
  predicate Readable(w: World, q: Query) {
    q.headerLength <= |q.data| && (Addressed(w.units, q) ==> Supported(q))
  }

  /** Sending this reply throws: it is a normal one for a unit without tables. */
  predicate Throws(w: World, q: Query, reply: Reply)
    requires Supported(q)
  {
    reply.Normal? && UnitOf(q) !in w.ready
  }

  /** The query was answered and the reply could be sent. */
  ghost predicate Replied(w: World, q: Query, log: seq<Call>, log': seq<Call>, reply: Reply)
    requires Supported(q)
  {
    Answered(w, q, log, log', reply) && !Throws(w, q, reply)
  }

  /** The query was served, but the reply could not be sent. */
  ghost predicate Unreplied(w: World, q: Query, log: seq<Call>, log': seq<Call>)
    requires Supported(q)
  {
    exists reply :: Answered(w, q, log, log', reply) && Throws(w, q, reply)
  }

  predicate AllReadable(w: World, queries: seq<Query>) {
    forall i | 0 <= i < |queries| :: Readable(w, queries[i])
  }

  /** Handling the queries one after the other leads from log to log' and sends replies. */
  ghost predicate Drained(w: World, queries: seq<Query>, log: seq<Call>, log': seq<Call>, replies: seq<Reply>)
    requires AllReadable(w, queries)
  {
    if queries == [] then
      log' == log && replies == []
    else
      var front, q := queries[..|queries| - 1], queries[|queries| - 1];
      if Addressed(w.units, q) then
        replies != [] &&
        var before, reply := replies[..|replies| - 1], replies[|replies| - 1];
        exists mid :: Drained(w, front, log, mid, before) && Replied(w, q, mid, log', reply)
      else
        Drained(w, front, log, log', replies)
  }

  /**
   * Query n of these was served but its reply could not be sent; the queries before it were handled, those behind not.
   */
  ghost predicate Interrupted(w: World, queries: seq<Query>, n: nat, log: seq<Call>, mid: seq<Call>, log': seq<Call>,
                              replies: seq<Reply>, left: seq<Query>)
    requires AllReadable(w, queries)
  {
    && n < |queries| && Addressed(w.units, queries[n])
    && Drained(w, queries[..n], log, mid, replies) && Unreplied(w, queries[n], mid, log')
    && left == queries[n + 1..]
  }

  lemma DrainedStep(w: World, queue: seq<Query>, n: nat, log0: seq<Call>, log: seq<Call>, log': seq<Call>,
                    sent: seq<Reply>, more: seq<Reply>)
    requires n < |queue| && AllReadable(w, queue)
    requires Drained(w, queue[..n], log0, log, sent)
    requires if Addressed(w.units, queue[n]) then |more| == 1 && Replied(w, queue[n], log, log', more[0])
             else more == [] && log' == log
    ensures Drained(w, queue[..n + 1], log0, log', sent + more)
  {
    assert queue[..n + 1][..n] == queue[..n];
    assert more == [] ==> sent + more == sent;
    assert |more| == 1 ==> (sent + more)[..|sent|] == sent;
  }

  function QueriesOf(replies: seq<Reply>): seq<Query> {
    seq(|replies|, i requires 0 <= i < |replies| => replies[i].query)
  }

  /** The queries among these that the server answers. */
  function AddressedOf(units: set<Byte>, queries: seq<Query>): seq<Query>
    requires forall i | 0 <= i < |queries| :: queries[i].headerLength <= |queries[i].data|
  {
    if queries == [] then []
    else
      var front, q := queries[..|queries| - 1], queries[|queries| - 1];
      AddressedOf(units, front) + if Addressed(units, q) then [q] else []
  }

  lemma QueriesSplit(replies: seq<Reply>)
    requires replies != []
    ensures QueriesOf(replies) == QueriesOf(replies[..|replies| - 1]) + [replies[|replies| - 1].query]
  {
  }

  lemma AnswersItsQuery(w: World, q: Query, log: seq<Call>, log': seq<Call>, reply: Reply)
    requires Supported(q) && Answered(w, q, log, log', reply)
    ensures reply.query == q
  {
  }

  /**
   * Main result: a drained queue leaves exactly one reply for every addressed query, in arrival order, and no other.
   */
  lemma {:induction false} OneReplyEach(w: World, queries: seq<Query>, log: seq<Call>, log': seq<Call>,
                                        replies: seq<Reply>)
    requires AllReadable(w, queries) && Drained(w, queries, log, log', replies)
    ensures QueriesOf(replies) == AddressedOf(w.units, queries)
  {
    if queries != [] {
      var front, q := queries[..|queries| - 1], queries[|queries| - 1];
      if Addressed(w.units, q) {
        var before, reply := replies[..|replies| - 1], replies[|replies| - 1];
        var mid :| Drained(w, front, log, mid, before) && Replied(w, q, mid, log', reply);
        OneReplyEach(w, front, log, mid, before);
        AnswersItsQuery(w, q, mid, log', reply);
        QueriesSplit(replies);
      } else {
        OneReplyEach(w, front, log, log', replies);
      }
    }
  }

  ghost function UnitsBelow(sizes: Sizes, end: int): set<Byte> {
    set unit: Byte | unit in sizes && unit < end
  }

  lemma NoUnits(sizes: Sizes)
    ensures UnitsBelow(sizes, 0) == {}
  {
  }

  lemma AllUnits(sizes: Sizes)
    ensures UnitsBelow(sizes, 256) == sizes.Keys
  {
  }

  lemma NextUnit(sizes: Sizes, unit: Byte)
    ensures unit !in UnitsBelow(sizes, unit)
    ensures UnitsBelow(sizes, unit + 1) == UnitsBelow(sizes, unit) + if unit in sizes then {unit} else {}
  {
  }

  class Server {
    const di: TAddressRange<ObserverId>
    const co: TAddressRange<ObserverId>
    const ir: TAddressRange<ObserverId>
    const hr: TAddressRange<ObserverId>
    const mb: Backend

    /** What observers answer: the reply to the latest call, given all calls so far. */
    const answer: seq<Call> -> ReplyState

    /** All calls made to observers. */
    var log: seq<Call>

    /** _maxSlaveAddresses */
    var maxAddresses: map<Byte, RSet>

    /** Who was ever registered for what. */
    ghost var registered: set<(ObserverId, Slot)>

    constructor (backend: Backend, answer: seq<Call> -> ReplyState)
      requires backend.Valid()
      ensures Valid() && Sound() && mb == backend && this.answer == answer
      ensures log == [] && maxAddresses == map[] && registered == {}
      ensures fresh(di) && fresh(co) && fresh(ir) && fresh(hr)
      ensures forall store :: RangeOf(store).m == map[] && RangeOf(store).labels == imap[]
    {
      mb := backend;
      this.answer := answer;
      di := new TAddressRange();
      co := new TAddressRange();
      ir := new TAddressRange();
      hr := new TAddressRange();
      log, maxAddresses, registered := [], map[], {};
      new;
      forall store
        ensures RangeOf(store).m == map[] && RangeOf(store).labels == imap[]
      {
      }
    }

    /** _di, _co, _ir and _hr, by store type. */
    function RangeOf(store: StoreType): TAddressRange<ObserverId> {
      match store
      case DiscreteInput => di
      case Coil => co
      case InputRegister => ir
      case HoldingRegister => hr
    }

    ghost predicate Valid()
      reads di, co, ir, hr, mb`mappings
    {
      && di != co && di != ir && di != hr && co != ir && co != hr && ir != hr
      && di.Valid() && co.Valid() && ir.Valid() && hr.Valid()
      && mb.Valid()
    }

    predicate IsObserved(unit: Byte)
      reads this
    {
      unit in maxAddresses
    }

    /**
     * The labels of every store belong to observers registered for their unit and lie inside its table, and no segment
     * is empty.
     */
    ghost predicate Sound()
      reads this`maxAddresses, this`registered, di, co, ir, hr
    {
      forall store :: SoundAt(store)
    }

    ghost predicate SoundAt(store: StoreType)
      reads this`maxAddresses, this`registered, RangeOf(store)
    {
      StoreSound(RangeOf(store).m, RangeOf(store).labels, store, maxAddresses, registered)
    }

    /** Registers o for a range of addresses of one unit; false stands for the exceptions the source throws. */
    method Observe(o: ObserverId, store: StoreType, range: TAddressRange<ObserverId>, unit: Byte)
      returns (ok: bool, ghost inserted: bool)
      requires Valid() && range.Valid() && range != di && range != co && range != ir && range != hr
      modifies this`maxAddresses, this`registered, RangeOf(store)
      ensures Valid() && maxAddresses.Keys == old(maxAddresses.Keys) + {unit} && Grows(old(maxAddresses), maxAddresses)
      ensures registered == old(registered) + {(o, Slot(unit, store))}
      ensures ok <==> inserted && exists k :: k in range.m
      ensures InsertedAt(old(RangeOf(store).m), old(RangeOf(store).labels), RangeOf(store).m, RangeOf(store).labels,
                         range.m, range.labels, Base(unit), o, inserted)
      ensures ok ==> forall a | a in range.labels :: Fits(maxAddresses, unit, a, store)
      ensures SizesAfter(old(maxAddresses), maxAddresses, unit, store, range.m, ok)
      ensures forall other | old(SoundAt(other)) && (other == store ==> Orderly(range.m, range.labels, ok)) ::
        SoundAt(other)
      ensures old(SoundAt(store)) && InUnit(range.labels) && OneUnitEach(registered) ==>
        OtherUnitsKept(old(RangeOf(store).labels), RangeOf(store).labels, unit)
    {
      ghost var sizes0, registered0 := maxAddresses, registered;
      registered := registered + {(o, Slot(unit, store))};
      maxAddresses := WithUnit(maxAddresses, unit);
      ok, inserted := Process(o, store, range, unit, sizes0, registered0);
      RoomIsSize(sizes0, maxAddresses, unit, store, range.m, ok);
      forall other | other != store && old(SoundAt(other))
        ensures SoundAt(other)
      {
        IsolatedStays(RangeOf(other).labels, other, sizes0, registered0, maxAddresses, registered);
      }
    }

    /** Observe for a range made of one segment, as the gateway calls it. */
    method ObserveSegment(o: ObserverId, store: StoreType, start: nat, count: nat, unit: Byte) returns (ok: bool)
      requires Valid()
      modifies this`maxAddresses, this`registered, RangeOf(store)
      ensures Valid() && Grows(old(maxAddresses), maxAddresses)
      ensures Inserted(old(RangeOf(store).m), old(RangeOf(store).labels), RangeOf(store).m, RangeOf(store).labels,
                       Base(unit) + start, count, o, ok)
      ensures ok && count > 0 ==> Fits(maxAddresses, unit, start + count - 1, store)
      ensures IsWidened(old(maxAddresses), maxAddresses, unit, store, if ok then start + count else 0)
    {
      var range := new TAddressRange.Single(start, count, 0);
      ghost var inserted;
      ok, inserted := Observe(o, store, range, unit);
      assert IsAlone(range.m, start) && range.m[start].hi - start == count;
      assert Within(start, start + count, start + count - 1) ==> start + count - 1 in range.labels;
      SegmentSizes(old(maxAddresses), maxAddresses, unit, store, range.m, ok, start, count);
    }

    /** The macro PROCESS of Observe, for the store it is to do something for. */
    method InsertAndWiden(o: ObserverId, store: StoreType, range: TAddressRange<ObserverId>, unit: Byte)
      returns (ok: bool, ghost inserted: bool)
      requires Valid() && range.Valid() && range != di && range != co && range != ir && range != hr
      requires unit in maxAddresses
      modifies this`maxAddresses, RangeOf(store)
      ensures Valid() && maxAddresses.Keys == old(maxAddresses.Keys) && Grows(old(maxAddresses), maxAddresses)
      ensures ok <==> inserted && exists k :: k in range.m
      ensures InsertedAt(old(RangeOf(store).m), old(RangeOf(store).labels), RangeOf(store).m, RangeOf(store).labels,
                         range.m, range.labels, Base(unit), o, inserted)
      ensures ok ==> forall a | a in range.labels :: Fits(maxAddresses, unit, a, store)
      ensures MadeRoom(old(maxAddresses), maxAddresses, unit, store, range.m, ok)
    {
      ok := InsertShifted(o, RangeOf(store), range, unit);
      inserted := ok;
      if ok {
        ok := WidenTable(store, range, unit);
      }
    }

    /** What that does to the books of the store. */
    method Process(o: ObserverId, store: StoreType, range: TAddressRange<ObserverId>, unit: Byte,
                   ghost sizes0: Sizes, ghost registered0: set<(ObserverId, Slot)>)
      returns (ok: bool, ghost inserted: bool)
      requires Valid() && range.Valid() && range != di && range != co && range != ir && range != hr
      requires unit in maxAddresses && Grows(sizes0, maxAddresses)
      requires registered == registered0 + {(o, Slot(unit, store))}
      modifies this`maxAddresses, RangeOf(store)
      ensures Valid() && maxAddresses.Keys == old(maxAddresses.Keys) && Grows(sizes0, maxAddresses)
      ensures ok <==> inserted && exists k :: k in range.m
      ensures InsertedAt(old(RangeOf(store).m), old(RangeOf(store).labels), RangeOf(store).m, RangeOf(store).labels,
                         range.m, range.labels, Base(unit), o, inserted)
      ensures ok ==> forall a | a in range.labels :: Fits(maxAddresses, unit, a, store)
      ensures MadeRoom(old(maxAddresses), maxAddresses, unit, store, range.m, ok)
      ensures StoreSound(old(RangeOf(store).m), old(RangeOf(store).labels), store, sizes0, registered0) ==>
        && (Orderly(range.m, range.labels, ok) ==> SoundAt(store))
        && (InUnit(range.labels) && OneUnitEach(registered) ==>
              OtherUnitsKept(old(RangeOf(store).labels), RangeOf(store).labels, unit))
    {
      ghost var m0, labels0 := RangeOf(store).m, RangeOf(store).labels;
      ok, inserted := InsertAndWiden(o, store, range, unit);
      if InUnit(range.labels) && StoreSound(m0, labels0, store, sizes0, registered0) {
        StaysSound(m0, labels0, RangeOf(store).m, RangeOf(store).labels, range.m, range.labels, o, unit, store,
                   ok, inserted, sizes0, registered0, maxAddresses);
      }
    }

    /** The part of Observe that makes room in the table; it throws for a range without segments. */
    method WidenTable(store: StoreType, range: TAddressRange<ObserverId>, unit: Byte) returns (ok: bool)
      requires range.Valid() && unit in maxAddresses
      modifies this`maxAddresses
      ensures maxAddresses.Keys == old(maxAddresses.Keys) && Grows(old(maxAddresses), maxAddresses)
      ensures ok <==> exists k :: k in range.m
      ensures ok ==> forall a | a in range.labels :: Fits(maxAddresses, unit, a, store)
      ensures MadeRoom(old(maxAddresses), maxAddresses, unit, store, range.m, ok)
    {
      var end := range.GetEnd();
      ok := end.Ok?;
      if ok {
        maxAddresses := Widened(maxAddresses, unit, store, end.value);
      }
    }

    /** _##b.insert(range + offset, o) */
    static method InsertShifted(o: ObserverId, target: TAddressRange<ObserverId>, range: TAddressRange<ObserverId>,
                                unit: Byte)
      returns (ok: bool)
      requires target.Valid() && range.Valid() && target != range
      modifies target
      ensures InsertedAt(old(target.m), old(target.labels), target.m, target.labels,
                         range.m, range.labels, Base(unit), o, ok)
    {
      ghost var m0, labels0 := target.m, target.labels;
      var shifted := range.Plus(Base(unit));
      ok := target.InsertRangeAs(shifted, o);
      ShiftedInsertion(m0, labels0, target.m, target.labels, range.m, range.labels, shifted.m, Base(unit), o, ok);
    }

    ghost function StoreSegments(): Stores
      reads di, co, ir, hr
    {
      Stores(di.m, co.m, ir.m, hr.m)
    }

    /**
     * _callCacheAllocate: tells every observer of a slot where its cells are; calls are the announcements made
     * since the log was log0, for the given slots.
     */
    method CallCacheAllocate(slot: Slot, ghost log0: seq<Call>, ghost slots: iset<Slot>, ghost calls: seq<Call>)
      returns (ghost calls': seq<Call>)
      requires Valid() && InUnitSpace(RangeOf(slot.store).m) && slot !in slots
      requires log == log0 + calls && AnnouncedIn(StoreSegments(), slots, calls)
      modifies this`log
      ensures log == log0 + calls' && AnnouncedIn(StoreSegments(), slots + iset{slot}, calls')
    {
      var observers := CollectWindows(RangeOf(slot.store), slot);
      ghost var more := TellObservers(slot, observers, RangeOf(slot.store).m);
      SeqAssociates(log0, calls, more);
      AnnouncedStep(StoreSegments(), slots, calls, slot, more);
      calls' := calls + more;
    }

    method TellObservers(slot: Slot, observers: map<ObserverId, Segments<Pointer>>, ghost m: Segments<ObserverId>)
      returns (ghost calls: seq<Call>)
      requires Collected(m, Base(256), slot, observers) && InUnitSpace(m)
      modifies this`log
      ensures log == old(log) + calls && Announced(m, slot, calls)
    {
      calls := [];
      var todo := observers.Keys;
      while todo != {}
        invariant todo <= observers.Keys && log == old(log) + calls
        invariant Announcing(m, slot, observers, todo, calls)
        decreases |todo|
      {
        var o :| o in todo;
        SeqAssociates(old(log), calls, [CacheAllocate(o, slot, observers[o])]);
        log := log + [CacheAllocate(o, slot, observers[o])];
        AnnouncingStep(m, slot, observers, todo, calls, o);
        calls, todo := calls + [CacheAllocate(o, slot, observers[o])], todo - {o};
      }
      AnnouncingEnds(m, slot, observers, calls);
    }

    /** Tells the observers of one unit about its four tables. */
    method AnnounceUnit(unit: Byte, ghost log0: seq<Call>, ghost units: set<Byte>, ghost calls: seq<Call>)
      returns (ghost calls': seq<Call>)
      requires Valid() && (forall store :: InUnitSpace(RangeOf(store).m)) && unit !in units
      requires log == log0 + calls && AnnouncedIn(StoreSegments(), SlotsOf(units), calls)
      modifies this`log
      ensures log == log0 + calls' && AnnouncedIn(StoreSegments(), SlotsOf(units + {unit}), calls')
    {
      ghost var slots := SlotsOf(units);
      calls' := CallCacheAllocate(Slot(unit, DiscreteInput), log0, slots, calls);
      slots := slots + iset{Slot(unit, DiscreteInput)};
      calls' := CallCacheAllocate(Slot(unit, Coil), log0, slots, calls');
      slots := slots + iset{Slot(unit, Coil)};
      calls' := CallCacheAllocate(Slot(unit, InputRegister), log0, slots, calls');
      slots := slots + iset{Slot(unit, InputRegister)};
      calls' := CallCacheAllocate(Slot(unit, HoldingRegister), log0, slots, calls');
      SlotsOfUnit(units, unit);
    }

    /** AllocateCache has handled the given units, starting from log0 and mappings0, by making calls. */
    ghost predicate Allocating(log0: seq<Call>, mappings0: map<Byte, Mapping>, units: set<Byte>, calls: seq<Call>)
      reads this, di, co, ir, hr, mb
    {
      && Valid() && (forall store :: InUnitSpace(RangeOf(store).m))
      && HasTables(mappings0, mb.mappings, maxAddresses, units)
      && log == log0 + calls && AnnouncedIn(StoreSegments(), SlotsOf(units), calls)
    }

    /** The same, and the tables made on the way hold zeros. */
    ghost predicate AllocatingZero(log0: seq<Call>, mappings0: map<Byte, Mapping>, units: set<Byte>, calls: seq<Call>)
      reads this, di, co, ir, hr, mb
      reads set u, store: StoreType | u in mb.mappings && u !in mappings0 :: TableIn(mb.mappings[u], store)
    {
      && Allocating(log0, mappings0, units, calls)
      && forall u, store | u in mb.mappings && u !in mappings0 :: AllZero(TableIn(mb.mappings[u], store))
    }

    method AllocateTables(unit: Byte, ghost mappings0: map<Byte, Mapping>, ghost units: set<Byte>)
      requires Valid() && HasTables(mappings0, mb.mappings, maxAddresses, units) && unit in maxAddresses
      requires forall u, store | u in mb.mappings && u !in mappings0 :: AllZero(TableIn(mb.mappings[u], store))
      modifies mb`mappings
      ensures Valid() && HasTables(mappings0, mb.mappings, maxAddresses, units + {unit})
      ensures mb.OnlyAdds()
      ensures forall u, store | u in mb.mappings && u !in mappings0 :: AllZero(TableIn(mb.mappings[u], store))
    {
      mb.AllocateCache(unit, maxAddresses[unit], mappings0);
      TablesStep(mappings0, old(mb.mappings), mb.mappings, maxAddresses, units, unit);
    }

    /** One pass of the loop of AllocateCache. */
    method AllocateUnit(unit: Byte, ghost log0: seq<Call>, ghost mappings0: map<Byte, Mapping>, ghost units: set<Byte>,
                        ghost calls: seq<Call>) returns (ghost calls': seq<Call>)
      requires AllocatingZero(log0, mappings0, units, calls) && unit in maxAddresses && unit !in units
      modifies this`log, mb`mappings
      ensures AllocatingZero(log0, mappings0, units + {unit}, calls')
      ensures mb.OnlyAdds()
    {
      AllocateTables(unit, mappings0, units);
      calls' := AnnounceTables(unit, log0, mappings0, units, calls);
    }

    /** Its second half: the tables are there. */
    method AnnounceTables(unit: Byte, ghost log0: seq<Call>, ghost mappings0: map<Byte, Mapping>,
                          ghost units: set<Byte>, ghost calls: seq<Call>) returns (ghost calls': seq<Call>)
      requires Valid() && (forall store :: InUnitSpace(RangeOf(store).m)) && unit !in units
      requires HasTables(mappings0, mb.mappings, maxAddresses, units + {unit})
      requires forall u, store | u in mb.mappings && u !in mappings0 :: AllZero(TableIn(mb.mappings[u], store))
      requires log == log0 + calls && AnnouncedIn(StoreSegments(), SlotsOf(units), calls)
      modifies this`log
      ensures AllocatingZero(log0, mappings0, units + {unit}, calls')
    {
      calls' := AnnounceUnit(unit, log0, units, calls);
    }

    method AllocateIfObserved(unit: Byte, ghost log0: seq<Call>, ghost mappings0: map<Byte, Mapping>,
                              ghost calls: seq<Call>)
      returns (ghost calls': seq<Call>)
      requires AllocatingZero(log0, mappings0, UnitsBelow(maxAddresses, unit), calls)
      modifies this`log, mb`mappings
      ensures AllocatingZero(log0, mappings0, UnitsBelow(maxAddresses, unit + 1), calls')
      ensures mb.OnlyAdds()
    {
      NextUnit(maxAddresses, unit);
      calls' := calls;
      if unit in maxAddresses {
        calls' := AllocateUnit(unit, log0, mappings0, UnitsBelow(maxAddresses, unit), calls);
      }
    }

    /** Allocates the tables of every observed unit and tells every observer where its cells are. */
    method AllocateCache() returns (ghost calls: seq<Call>)
      requires Valid() && forall store :: InUnitSpace(RangeOf(store).m)
      modifies this`log, mb`mappings
      ensures AllocatingZero(old(log), old(mb.mappings), maxAddresses.Keys, calls)
      ensures mb.OnlyAdds()
    {
      calls := [];
      ghost var log0, mappings0 := log, mb.mappings;
      NothingAllocated(StoreSegments(), mb.mappings, maxAddresses);
      NoUnits(maxAddresses);
      for unit := 0 to 256
        invariant AllocatingZero(log0, mappings0, UnitsBelow(maxAddresses, unit), calls)
        invariant mb.OnlyAdds()
      {
        calls := AllocateIfObserved(unit, log0, mappings0, calls);
      }
      AllUnits(maxAddresses);
    }

    /** _ProcessReadQuery: lets the observers fill the cells of the request, then replies. */
    method ProcessReadQuery(r: Request, q: Query)
      requires Valid() && r.Read?
      modifies this`log, mb`replies
      ensures Valid()
      ensures var range := RangeOf(r.slot.store);
        if r.slot.unit in mb.mappings then
          exists reply :: Finished(r.slot.unit, reply, false, old(mb.replies))
            && Served(r, q, range.m, range.labels, answer, old(log), log, reply)
        else
          log == old(log) && Finished(r.slot.unit, Exception(ILLEGAL_ADDRESS, q), false, old(mb.replies))
    {
      if r.slot.unit !in mb.mappings {
        mb.Send(Exception(ILLEGAL_ADDRESS, q));
        return;
      }
      var range := RangeOf(r.slot.store);
      var segments := range.GetSegments(r.start + Base(r.slot.unit), r.count);
      if segments.WrongSegment? {
        mb.Send(Exception(ILLEGAL_ADDRESS, q));
        assert Finished(r.slot.unit, Exception(ILLEGAL_ADDRESS, q), false, old(mb.replies));
        return;
      }
      var reply, n := OfferCells(r, segments.value, range.m);
      ServedBy(r, q, range.m, range.labels, answer, old(log), segments.value, n, log, reply);
      mb.Send(ReplyTo(reply, q));
      assert Finished(r.slot.unit, ReplyTo(reply, q), false, old(mb.replies));
    }

    /** The loop of _ProcessReadQuery; cachePtr runs through the table. */
    method OfferCells(r: Request, pieces: seq<Piece<ObserverId>>, ghost m: Segments<ObserverId>)
      returns (reply: ReplyState, ghost n: nat)
      requires r.Read? && PiecesOf(r, m, pieces)
      modifies this`log
      ensures if pieces == [] then log == old(log) && reply == ILLEGAL_ADDRESS
              else Ran(answer, old(log), CallsFor(r, pieces), n, log, reply)
    {
      var cachePtr, slaveOffset := Pointer(r.slot, r.start), Base(r.slot.unit);
      ghost var log0, calls := log, CallsFor(r, pieces);
      reply, n := ILLEGAL_ADDRESS, 0;
      var i := 0;
      while i < |pieces|
        invariant 0 <= i <= |pieces| && Offering(answer, log0, calls, i, log, reply)
        invariant i < |pieces| ==> cachePtr == Pointer(r.slot, r.start + (pieces[i].lo - First(r)))
      {
        var s := pieces[i];
        NextPiece(r, m, pieces, i);
        OfferingStep(answer, log0, calls, i, log, reply);
        log := log + [GetValue(s.param, r.slot, U16(s.lo - slaveOffset), s.hi - s.lo, cachePtr)];
        reply := answer(log);
        cachePtr := Pointer(cachePtr.slot, cachePtr.index + (s.hi - s.lo));
        i := i + 1;
        if reply > 0 {
          n := i;
          return;
        }
      }
      n := |pieces|;
      if pieces != [] {
        OfferedAll(answer, log0, calls, log, reply);
      }
    }

    /** _ProcessWriteQuery: hands the values of the request to the observers, then replies. */
    method ProcessWriteQuery(r: Request, q: Query) returns (thrown: bool)
      requires Valid() && r.Write? && WellFormedRequest(r)
      modifies this`log, mb`replies
      ensures Valid()
      ensures var range := RangeOf(r.slot.store);
        exists reply :: Finished(r.slot.unit, reply, thrown, old(mb.replies))
          && Served(r, q, range.m, range.labels, answer, old(log), log, reply)
    {
      var range := RangeOf(r.slot.store);
      var segments := range.GetSegments(r.start + Base(r.slot.unit), r.count);
      if segments.WrongSegment? {
        mb.Send(Exception(ILLEGAL_ADDRESS, q));
        assert Finished(r.slot.unit, Exception(ILLEGAL_ADDRESS, q), false, old(mb.replies));
        return false;
      }
      var reply, n := OfferValues(r, segments.value, range.m);
      ServedBy(r, q, range.m, range.labels, answer, old(log), segments.value, n, log, reply);
      thrown := mb.Finish(ReplyTo(reply, q), r.slot.unit);
      assert Finished(r.slot.unit, ReplyTo(reply, q), thrown, old(mb.replies));
    }

    /** The reply was sent, unless it is a normal one for a unit without tables. */
    ghost predicate Finished(unit: Byte, reply: Reply, thrown: bool, replies: seq<Reply>)
      reads mb`replies, mb`mappings
    {
      && (thrown <==> reply.Normal? && unit !in mb.mappings)
      && mb.replies == replies + if thrown then [] else [reply]
    }

    /** The loop of _ProcessWriteQuery; dataPtr runs through the values. */
    method OfferValues(r: Request, pieces: seq<Piece<ObserverId>>, ghost m: Segments<ObserverId>)
      returns (reply: ReplyState, ghost n: nat)
      requires r.Write? && WellFormedRequest(r) && PiecesOf(r, m, pieces)
      modifies this`log
      ensures if pieces == [] then log == old(log) && reply == ILLEGAL_ADDRESS
              else Ran(answer, old(log), CallsFor(r, pieces), n, log, reply)
    {
      var dataPtr, slaveOffset := 0, Base(r.slot.unit);
      ghost var log0, calls := log, CallsFor(r, pieces);
      reply, n := ILLEGAL_ADDRESS, 0;
      var i := 0;
      while i < |pieces|
        invariant 0 <= i <= |pieces| && Offering(answer, log0, calls, i, log, reply)
        invariant i < |pieces| ==> dataPtr == pieces[i].lo - First(r)
      {
        var s := pieces[i];
        NextPiece(r, m, pieces, i);
        assert calls[i] == SetValue(s.param, r.slot, U16(s.lo - slaveOffset), s.hi - s.lo, From(r.values, dataPtr));
        OfferingStep(answer, log0, calls, i, log, reply);
        log := log + [SetValue(s.param, r.slot, U16(s.lo - slaveOffset), s.hi - s.lo, From(r.values, dataPtr))];
        reply := answer(log);
        dataPtr := dataPtr + (s.hi - s.lo);
        i := i + 1;
        if reply > 0 {
          n := i;
          return;
        }
      }
      n := |pieces|;
      if pieces != [] {
        OfferedAll(answer, log0, calls, log, reply);
      }
    }

    ghost function LabelsNow(): StoreLabels
      reads di, co, ir, hr
    {
      StoreLabels(di.labels, co.labels, ir.labels, hr.labels)
    }

    ghost function WorldNow(): World
      reads this, di, co, ir, hr, mb
    {
      World(StoreSegments(), LabelsNow(), maxAddresses.Keys, mb.mappings.Keys, answer)
    }

    /** _ProcessQuery: decodes the query and serves it. */
    method ProcessQuery(q: Query) returns (thrown: bool)
      requires Valid() && Supported(q)
      modifies this`log, mb`replies
      ensures Valid() && (thrown ==> !IsReadCmd(CommandOf(q)))
      ensures exists reply ::
        Finished(UnitOf(q), reply, thrown, old(mb.replies)) && Answered(WorldNow(), q, old(log), log, reply)
    {
      var command, startAddress, slaveId := CommandOf(q), StartOf(q), UnitOf(q);
      var slot := Slot(slaveId, StoreOf(command));
      if IsReadCmd(command) {
        var count := ReadU16(q.data, q.headerLength + 3);
        ProcessReadQuery(Read(slot, startAddress, count), q);
        return false;
      } else {
        var count := if IsSingleWriteCmd(command) then 1 else ReadU16(q.data, q.headerLength + 3);
        var raw := q.data[ValuesAt(q)..];
        var values;
        if IsCoilWriteCmd(command) {
          values := DecodeCoils(raw, count);
        } else {
          values := DecodeRegisters(raw, count);
        }
        assert values == ValuesOf(q);
        thrown := ProcessWriteQuery(Write(slot, startAddress, count, values), q);
      }
    }

    /**
     * Loop: waited is what waiting for messages returned; drains the queue unless that was an error, or until a reply
     * cannot be sent, which throws.
     */
    method Loop(waited: int, connectionReset: bool) returns (rc: int, thrown: bool, ghost sent: seq<Reply>)
      requires Valid() && AllReadable(WorldNow(), mb.queue)
      modifies this`log, mb`replies, mb`queue
      ensures Valid() && mb.replies == old(mb.replies) + sent
      ensures waited == -1 ==> !thrown && rc == if connectionReset then -1 else 0
      ensures waited == -1 ==> log == old(log) && mb.queue == old(mb.queue) && sent == []
      ensures waited != -1 && !thrown ==>
        rc == 0 && mb.queue == [] && Drained(old(WorldNow()), old(mb.queue), old(log), log, sent)
      ensures thrown ==>
        exists n, mid :: Interrupted(old(WorldNow()), old(mb.queue), n, old(log), mid, log, sent, mb.queue)
    {
      sent, thrown := [], false;
      if waited == -1 {
        rc := if connectionReset then -1 else 0;
        return;
      }
      ghost var w, queue, n := WorldNow(), mb.queue, 0;
      rc := 0;
      while mb.queue != []
        invariant Valid() && WorldNow() == w
        invariant n <= |queue| && mb.queue == queue[n..]
        invariant mb.replies == old(mb.replies) + sent && Drained(w, queue[..n], old(log), log, sent)
        decreases |mb.queue|
      {
        ghost var log1 := log;
        ghost var more;
        thrown, more := ServeFront(w);
        if thrown {
          assert Interrupted(w, queue, n, old(log), log1, log, sent, mb.queue);
          return;
        }
        DrainedStep(w, queue, n, old(log), log1, log, sent, more);
        n, sent := n + 1, sent + more;
      }
      assert queue[..n] == queue;
    }

    /** One pass of the loop of Loop: takes the query at the front and answers it if its unit is observed. */
    method ServeFront(ghost w: World) returns (thrown: bool, ghost sent: seq<Reply>)
      requires Valid() && WorldNow() == w && mb.queue != [] && Readable(w, mb.queue[0])
      modifies this`log, mb`replies, mb`queue
      ensures Valid() && WorldNow() == w && mb.queue == old(mb.queue)[1..] && mb.replies == old(mb.replies) + sent
      ensures var q := old(mb.queue)[0];
        if !Addressed(w.units, q) then !thrown && sent == [] && log == old(log)
        else if thrown then sent == [] && Unreplied(w, q, old(log), log)
        else |sent| == 1 && Replied(w, q, old(log), log, sent[0])
    {
      var q := mb.queue[0];
      mb.queue := mb.queue[1..];
      sent, thrown := [], false;
      if |q.data| > 0 && IsObserved(UnitOf(q)) {
        thrown := ProcessQuery(q);
        sent := mb.replies[|old(mb.replies)|..];
      }
    }
  }
}
