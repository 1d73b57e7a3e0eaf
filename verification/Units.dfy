/**
 * What holds across the operations of the server: units do not see each other, the windows announced at allocation
 * lie inside the tables, and the pointers handed out when reading agree with them.
 */
module Units {
  import opened AddressRange
  import opened Modbus
  import opened Dispatch
  import opened ModbusServer

  /** No segment reaches from one unit into the next. */
  ghost predicate UnitLocal(m: Segments<ObserverId>) {
    forall k, a | Covers(m, k, a) :: a / 65536 == k / 65536
  }

  lemma SegmentsStayInUnits(m: Segments<ObserverId>, labels: imap<int, ObserverId>, store: StoreType, sizes: Sizes,
                            registered: set<(ObserverId, Slot)>)
    requires Represents(m, labels) && Isolated(labels, store, sizes, registered) && OneUnitEach(registered)
    ensures UnitLocal(m)
  {
    forall k, a | Covers(m, k, a)
      ensures a / 65536 == k / 65536
    {
      assert Covers(m, k, k);
      var r, q := (labels[a], Slot(a / 65536, store)), (labels[k], Slot(k / 65536, store));
      assert r in registered && q in registered;
    }
  }

  /** Every window announced for a slot lies inside the table the unit is given. */
  lemma WindowsInTable(m: Segments<ObserverId>, labels: imap<int, ObserverId>, sizes: Sizes,
                       registered: set<(ObserverId, Slot)>, c: Call, a: int)
    requires Represents(m, labels) && Solid(m) && UnitLocal(m)
    requires c.CacheAllocate? && Announces(m, c) && Isolated(labels, c.slot.store, sizes, registered)
    requires a in c.windows
    ensures c.slot.unit in sizes && 0 <= a < c.windows[a].hi <= SizeOf(sizes[c.slot.unit], c.slot.store)
    ensures c.windows[a].param == Pointer(c.slot, a)
  {
    var k := Base(c.slot.unit) + a;
    assert k in m;
    var last := m[k].hi - 1;
    assert Covers(m, k, last);
    assert k / 65536 == c.slot.unit as int;
    assert last % 65536 == last - Base(c.slot.unit);
  }

  /** Windows of one slot announced to different observers do not overlap. */
  lemma WindowsDisjoint(m: Segments<ObserverId>, c: Call, d: Call, a: int, b: int)
    requires WellFormed(m) && c.CacheAllocate? && d.CacheAllocate? && Announces(m, c) && Announces(m, d)
    requires c.slot == d.slot && c.obs != d.obs && a in c.windows && b in d.windows
    ensures c.windows[a].hi <= b || d.windows[b].hi <= a
  {
    var k, l := Base(c.slot.unit) + a, Base(c.slot.unit) + b;
    assert k in m && l in m;
    assert (k < l ==> Apart(m, k, l)) && (l < k ==> Apart(m, l, k));
  }

  /** The call passes a pointer into window a of an announcement: the one given there, moved by the offset into it. */
  ghost predicate PointsInto(call: Call, c: Call, a: int) {
    && call.GetValue? && c.CacheAllocate? && call.obs == c.obs && call.slot == c.slot
    && a in c.windows && a <= call.start && call.start + call.count <= c.windows[a].hi
    && call.cell == Pointer(c.windows[a].param.slot, c.windows[a].param.index + (call.start - a))
  }

  /**
   * The pointer a read hands to an observer is the pointer the observer was given at allocation for the window the
   * addresses lie in, moved by the offset of the first address into that window.
   */
  lemma PointersAgree(r: Request, m: Segments<ObserverId>, p: Piece<ObserverId>, c: Call) returns (a: int)
    requires r.Read? && r.start + r.count <= 65536 && First(r) <= p.lo < p.hi <= First(r) + r.count
    requires WellFormed(m) && UnitLocal(m) && FromSegment(m, p)
    requires c.CacheAllocate? && Announces(m, c) && c.slot == r.slot && c.obs == p.param
    ensures PointsInto(CallFor(r, p), c, a)
  {
    var k :| OneSegment(m, k, p.lo, p.hi - p.lo) && m[k].param == p.param;
    assert Covers(m, k, p.lo);
    assert p.lo / 65536 == r.slot.unit as int;
    a := k - Base(r.slot.unit);
    assert a in c.windows;
  }

  /** Every call made while serving a request is for a piece of it. */
  lemma NewCall(r: Request, q: Query, m: Segments<ObserverId>, labels: imap<int, ObserverId>,
                answer: seq<Call> -> ReplyState, log: seq<Call>, log': seq<Call>, reply: Reply, i: int)
    returns (p: Piece<ObserverId>)
    requires Served(r, q, m, labels, answer, log, log', reply) && |log| <= i < |log'|
    ensures log'[i] == CallFor(r, p) && FromSegment(m, p) && First(r) <= p.lo < p.hi <= First(r) + r.count
  {
    var pieces, n: nat, state :|
      && Tiles(m, pieces, First(r), First(r) + r.count)
      && Ran(answer, log, CallsFor(r, pieces), n, log', state)
      && reply == ReplyTo(state, q);
    p := pieces[i - |log|];
    NextPiece(r, m, pieces, i - |log|);
  }

  /** A request within its unit calls only observers that were registered for this unit and store. */
  lemma OnlyOwnObservers(r: Request, m: Segments<ObserverId>, labels: imap<int, ObserverId>, p: Piece<ObserverId>,
                         sizes: Sizes, registered: set<(ObserverId, Slot)>)
    requires r.start + r.count <= 65536 && First(r) <= p.lo < p.hi <= First(r) + r.count && FromSegment(m, p)
    requires Represents(m, labels) && Isolated(labels, r.slot.store, sizes, registered)
    ensures CallFor(r, p).slot == r.slot && (CallFor(r, p).obs, r.slot) in registered
  {
    PieceLabels(m, labels, p);
    assert Within(p.lo, p.hi, p.lo);
    assert p.lo / 65536 == r.slot.unit as int;
  }

  /** The pointer passed was given earlier, for a window inside the table of the slot. */
  ghost predicate IsGiven(call: Call, given: seq<Call>, length: int) {
    exists i, a :: 0 <= i < |given| && PointsInto(call, given[i], a) && given[i].windows[a].hi <= length
  }

  /** The piece a read passes on was announced to its observer. */
  lemma PieceIsGiven(r: Request, stores: Stores, labels: imap<int, ObserverId>, p: Piece<ObserverId>, slots: iset<Slot>,
                     given: seq<Call>, sizes: Sizes, registered: set<(ObserverId, Slot)>)
    requires r.Read? && r.start + r.count <= 65536 && First(r) <= p.lo < p.hi <= First(r) + r.count
    requires FromSegment(SegmentsOf(stores, r.slot.store), p) && Represents(SegmentsOf(stores, r.slot.store), labels)
    requires StoreSound(SegmentsOf(stores, r.slot.store), labels, r.slot.store, sizes, registered)
    requires OneUnitEach(registered)
    requires AnnouncedIn(stores, slots, given) && r.slot in slots
    ensures r.slot.unit in sizes && IsGiven(CallFor(r, p), given, SizeOf(sizes[r.slot.unit], r.slot.store))
    ensures (p.param, r.slot) in registered
  {
    var m := SegmentsOf(stores, r.slot.store);
    SegmentsStayInUnits(m, labels, r.slot.store, sizes, registered);
    OnlyOwnObservers(r, m, labels, p, sizes, registered);
    var i := AnnouncementOf(r, stores, p, slots, given);
    var a := PointersAgree(r, m, p, given[i]);
    WindowsInTable(m, labels, sizes, registered, given[i], a);
  }

  lemma AnnouncementOf(r: Request, stores: Stores, p: Piece<ObserverId>, slots: iset<Slot>, given: seq<Call>)
    returns (i: nat)
    requires r.start + r.count <= 65536 && First(r) <= p.lo < p.hi <= First(r) + r.count
    requires FromSegment(SegmentsOf(stores, r.slot.store), p) && UnitLocal(SegmentsOf(stores, r.slot.store))
    requires AnnouncedIn(stores, slots, given) && r.slot in slots
    ensures i < |given| && given[i].CacheAllocate? && given[i].slot == r.slot && given[i].obs == p.param
    ensures Announces(SegmentsOf(stores, r.slot.store), given[i])
  {
    var m := SegmentsOf(stores, r.slot.store);
    var k :| OneSegment(m, k, p.lo, p.hi - p.lo) && m[k].param == p.param;
    assert Covers(m, k, p.lo) && p.lo / 65536 == r.slot.unit as int;
    var c :| c in given && c.slot == r.slot && c.obs == m[k].param;
    i :| 0 <= i < |given| && given[i] == c;
  }

  /** One call of Observe, for a range of the given segments. */
  datatype Observation = Observation(o: ObserverId, store: StoreType, segments: Segments<ObserverId>, unit: Byte)

  function PairOf(x: Observation): (ObserverId, Slot) {
    (x.o, Slot(x.unit, x.store))
  }

  ghost function PairsOf(list: seq<Observation>): set<(ObserverId, Slot)> {
    set x | x in list :: PairOf(x)
  }

  /** The range lies within the addresses of a unit and has no empty segments. */
  ghost predicate Admissible(x: Observation) {
    && WellFormed(x.segments) && Solid(x.segments)
    && forall k, a | Covers(x.segments, k, a) :: 0 <= a < 65536
  }

  /** The observation is for address a of the packed (unit, address) space. */
  ghost predicate Wants(x: Observation, a: int) {
    Covered(x.segments, a - Base(x.unit))
  }

  /** Two observations of a store that want the same address are by one observer. */
  ghost predicate Tolerates(x: Observation, y: Observation) {
    x.store == y.store ==> forall a | Wants(x, a) && Wants(y, a) :: x.o == y.o
  }

  /** Every range has a segment, and no address is wanted for two observers. */
  ghost predicate Satisfiable(list: seq<Observation>) {
    && (forall x | x in list :: exists k :: k in x.segments)
    && (forall x, y | x in list && y in list :: Tolerates(x, y))
  }

  /** labels is what the observations of a store want. */
  ghost predicate Granted(labels: imap<int, ObserverId>, list: seq<Observation>, store: StoreType) {
    && (forall a | a in labels :: exists x :: x in list && x.store == store && Wants(x, a) && x.o == labels[a])
    && (forall x, a | x in list && x.store == store && Wants(x, a) :: a in labels && labels[a] == x.o)
  }

  lemma AddedAt(x: Observation, range: imap<int, ObserverId>, a: int)
    requires Represents(x.segments, range)
    ensures var added := Painted(Moved(range, Base(x.unit)), x.o);
            (a in added <==> Wants(x, a)) && (a in added ==> added[a] == x.o)
  {
    PaintedAt(range, Base(x.unit), x.o, a);
    LabelledIsCovered(x.segments, range, a - Base(x.unit));
  }

  lemma PaintedAt(range: imap<int, ObserverId>, offset: int, o: ObserverId, a: int)
    ensures var added := Painted(Moved(range, offset), o);
      (a in added <==> a - offset in range) && (a in added ==> added[a] == o)
  {
    assert a in Moved(range, offset) <==> InMoved(range, offset, a);
  }

  lemma LabelledIsCovered(m: Segments<ObserverId>, labels: imap<int, ObserverId>, a: int)
    requires Represents(m, labels)
    ensures a in labels <==> Covered(m, a)
  {
  }

  /** The next observation is compatible with the labels so far exactly if it tolerates all earlier ones. */
  lemma CompatibleIsTolerant(labels: imap<int, ObserverId>, list: seq<Observation>, x: Observation,
                             range: imap<int, ObserverId>)
    requires Granted(labels, list, x.store) && Represents(x.segments, range)
    ensures Compatible(labels, Painted(Moved(range, Base(x.unit)), x.o)) <==> forall y | y in list :: Tolerates(x, y)
  {
    forall a {
      AddedAt(x, range, a);
    }
    if !Compatible(labels, Painted(Moved(range, Base(x.unit)), x.o)) {
      var a :| a in labels && Wants(x, a) && labels[a] != x.o;
      var y :| y in list && y.store == x.store && Wants(y, a) && y.o == labels[a];
      assert !Tolerates(x, y);
    }
  }

  lemma GrantedNext(labels: imap<int, ObserverId>, list: seq<Observation>, x: Observation, range: imap<int, ObserverId>)
    requires Granted(labels, list, x.store) && Represents(x.segments, range)
    requires Compatible(labels, Painted(Moved(range, Base(x.unit)), x.o))
    ensures Granted(labels + Painted(Moved(range, Base(x.unit)), x.o), list + [x], x.store)
  {
    forall a {
      AddedAt(x, range, a);
    }
    assert forall y :: y in list + [x] <==> y in list || y == x;
  }

  lemma GrantedElsewhere(labels: imap<int, ObserverId>, list: seq<Observation>, x: Observation, store: StoreType)
    requires Granted(labels, list, store) && x.store != store
    ensures Granted(labels, list + [x], store)
  {
    assert forall y :: y in list + [x] <==> y in list || y == x;
  }

  lemma SatisfiableNext(list: seq<Observation>, x: Observation)
    ensures Satisfiable(list + [x]) <==>
      Satisfiable(list) && (exists k :: k in x.segments) && forall y | y in list :: Tolerates(x, y)
  {
    assert forall y :: y in list + [x] <==> y in list || y == x;
    assert forall y, z :: Tolerates(y, z) <==> Tolerates(z, y);
    assert Tolerates(x, x);
  }

  lemma SatisfiablePrefix(list: seq<Observation>, n: nat)
    requires n <= |list| && !Satisfiable(list[..n])
    ensures !Satisfiable(list)
  {
  }

  ghost function Ranges(server: Server): set<object> {
    {server.di, server.co, server.ir, server.hr}
  }

  /** A server whose books are in order. */
  ghost predicate InOrder(server: Server)
    reads server, Ranges(server), server.mb
  {
    server.Valid() && server.Sound()
  }

  /** A server that has been told the observations of a list. */
  ghost predicate SettingUp(server: Server, list: seq<Observation>)
    reads server, Ranges(server), server.mb
  {
    && InOrder(server) && server.registered == PairsOf(list)
    && server.log == [] && server.mb.mappings == map[]
    && forall store :: Granted(server.RangeOf(store).labels, list, store)
  }

  /** Registers a list of observers, stopping at the first exception. */
  method ObserveAll(server: Server, list: seq<Observation>) returns (ok: bool)
    requires SettingUp(server, []) && forall x | x in list :: Admissible(x)
    modifies server, Ranges(server)
    ensures ok <==> Satisfiable(list)
    ensures ok ==> SettingUp(server, list)
  {
    for n := 0 to |list|
      invariant SettingUp(server, list[..n]) && Satisfiable(list[..n])
    {
      assert list[..n + 1] == list[..n] + [list[n]];
      ok := ObserveNext(server, list[..n], list[n]);
      if !ok {
        SatisfiablePrefix(list, n + 1);
        return;
      }
    }
    assert list[..|list|] == list;
    ok := true;
  }

  /** One pass of that loop. */
  method ObserveNext(server: Server, ghost done: seq<Observation>, x: Observation) returns (ok: bool)
    requires SettingUp(server, done) && Satisfiable(done) && Admissible(x)
    modifies server, Ranges(server)
    ensures ok <==> Satisfiable(done + [x])
    ensures ok ==> SettingUp(server, done + [x])
  {
    PairsStep(done, x);
    SatisfiableNext(done, x);
    ghost var labels0 := server.RangeOf(x.store).labels;
    ghost var range;
    ok, range := ObserveRange(server, x);
    CompatibleIsTolerant(labels0, done, x, range);
    if ok {
      AllGranted(server, labels0, done, x, range);
    }
  }

  lemma AllGranted(server: Server, labels: imap<int, ObserverId>, list: seq<Observation>, x: Observation,
                   range: imap<int, ObserverId>)
    requires Granted(labels, list, x.store) && Represents(x.segments, range)
    requires Compatible(labels, Painted(Moved(range, Base(x.unit)), x.o))
    requires server.RangeOf(x.store).labels == labels + Painted(Moved(range, Base(x.unit)), x.o)
    requires forall store | store != x.store :: Granted(server.RangeOf(store).labels, list, store)
    ensures forall store :: Granted(server.RangeOf(store).labels, list + [x], store)
  {
    GrantedNext(labels, list, x, range);
    forall store | store != x.store
      ensures Granted(server.RangeOf(store).labels, list + [x], store)
    {
      GrantedElsewhere(server.RangeOf(store).labels, list, x, store);
    }
  }

  /** Observe() for one observation: when it is accepted, and what it adds. */
  method ObserveRange(server: Server, x: Observation) returns (ok: bool, ghost range: imap<int, ObserverId>)
    requires InOrder(server) && Admissible(x)
    modifies server`registered, server`maxAddresses, server.RangeOf(x.store)
    ensures Represents(x.segments, range) && server.registered == old(server.registered) + {PairOf(x)}
    ensures var labels, added := old(server.RangeOf(x.store).labels), Painted(Moved(range, Base(x.unit)), x.o);
      && (ok <==> Compatible(labels, added) && exists k :: k in x.segments)
      && (ok ==> InOrder(server) && server.RangeOf(x.store).labels == labels + added)
  {
    var segments := new TAddressRange.Copy(x.segments);
    range := segments.labels;
    ghost var inserted;
    ghost var m0, labels0 := server.RangeOf(x.store).m, server.RangeOf(x.store).labels;
    assert server.SoundAt(x.store) && Solid(m0);
    assert forall store :: server.SoundAt(store);
    ok, inserted := server.Observe(x.o, x.store, segments, x.unit);
    Inserting(m0, labels0, server.RangeOf(x.store).m, server.RangeOf(x.store).labels, x, range, inserted);
  }

  lemma Inserting(m0: Segments<ObserverId>, labels0: imap<int, ObserverId>, m: Segments<ObserverId>,
                  labels: imap<int, ObserverId>, x: Observation, range: imap<int, ObserverId>, ok: bool)
    requires Solid(m0) && Admissible(x) && InsertedAt(m0, labels0, m, labels, x.segments, range, Base(x.unit), x.o, ok)
    ensures var added := Painted(Moved(range, Base(x.unit)), x.o);
      (ok <==> Compatible(labels0, added)) && (ok ==> labels == labels0 + added)
  {
  }

  lemma PairsStep(list: seq<Observation>, x: Observation)
    ensures PairsOf(list + [x]) == PairsOf(list) + {PairOf(x)}
  {
    forall p
      ensures p in PairsOf(list + [x]) <==> p in PairsOf(list) + {PairOf(x)}
    {
      if p in PairsOf(list) {
        var y :| y in list && PairOf(y) == p;
        assert y in list + [x];
      }
      assert x in list + [x];
    }
  }

  /** The tables are there, and given are the announcements made of them. */
  ghost predicate Connected(server: Server, given: seq<Call>)
    reads server, Ranges(server), server.mb
  {
    InOrder(server) && OneUnitEach(server.registered) && Announced(server, given)
  }

  /** given are the announcements of all the tables, and these have the sizes recorded. */
  ghost predicate Announced(server: Server, given: seq<Call>)
    reads server, Ranges(server), server.mb`mappings
  {
    && AnnouncedIn(server.StoreSegments(), SlotsOf(server.mb.mappings.Keys), given)
    && forall s: Slot | s.unit in server.mb.mappings ::
         s.unit in server.maxAddresses && server.mb.TableOf(s).Length == SizeOf(server.maxAddresses[s.unit], s.store)
  }

  /**
   * A call made by a read: to an observer registered for the slot, with a pointer given before and inside the table.
   */
  ghost predicate ReadCall(server: Server, given: seq<Call>, call: Call)
    reads server`registered, server.mb
  {
    && call.GetValue? && (call.obs, call.slot) in server.registered
    && call.slot.unit in server.mb.mappings && IsGiven(call, given, server.mb.TableOf(call.slot).Length)
  }

  ghost predicate ReadCalls(server: Server, given: seq<Call>, log: seq<Call>)
    reads server`registered, server.mb
  {
    given <= log && forall i | |given| <= i < |log| :: ReadCall(server, given, log[i])
  }

  lemma SoundInUnits(server: Server)
    requires InOrder(server)
    ensures forall store :: InUnitSpace(server.RangeOf(store).m)
  {
    forall store
      ensures InUnitSpace(server.RangeOf(store).m)
    {
      assert server.SoundAt(store);
      var range := server.RangeOf(store);
      SoundInUnitSpace(range.m, range.labels, store, server.maxAddresses, server.registered);
    }
  }

  /** AllocateCache on a server without tables. */
  method Announce(server: Server) returns (ghost given: seq<Call>)
    requires server.Valid() && server.mb.mappings == map[] && server.log == []
    requires forall store :: InUnitSpace(server.RangeOf(store).m)
    modifies server`log, server.mb`mappings
    ensures server.Valid() && Announced(server, given) && server.log == given
  {
    given := server.AllocateCache();
    assert [] + given == given;
  }

  /** AllocateCache on a server that has only been set up. */
  method Connect(server: Server, ghost list: seq<Observation>) returns (ghost given: seq<Call>)
    requires SettingUp(server, list) && OneUnitEach(server.registered)
    modifies server`log, server.mb`mappings
    ensures Connected(server, given) && server.log == given
  {
    SoundInUnits(server);
    given := Announce(server);
    assert server.Sound();
  }

  lemma SoundInUnitSpace(m: Segments<ObserverId>, labels: imap<int, ObserverId>, store: StoreType, sizes: Sizes,
                         registered: set<(ObserverId, Slot)>)
    requires Represents(m, labels) && StoreSound(m, labels, store, sizes, registered)
    ensures InUnitSpace(m)
  {
    forall k | k in m
      ensures 0 <= k < Base(256)
    {
      assert Covers(m, k, k);
    }
  }

  lemma ReadsAreGiven(server: Server, r: Request, q: Query, given: seq<Call>, log: seq<Call>, log': seq<Call>,
                      reply: Reply)
    requires Connected(server, given) && ReadCalls(server, given, log)
    requires r.Read? && r.start + r.count <= 65536 && r.slot.unit in server.mb.mappings
    requires var range := server.RangeOf(r.slot.store);
      Served(r, q, range.m, range.labels, server.answer, log, log', reply)
    ensures ReadCalls(server, given, log')
  {
    var range := server.RangeOf(r.slot.store);
    assert server.SoundAt(r.slot.store) && SegmentsOf(server.StoreSegments(), r.slot.store) == range.m;
    forall i | |given| <= i < |log'|
      ensures ReadCall(server, given, log'[i])
    {
      if i < |log| {
        assert log'[i] == log[i];
      } else {
        var p := NewCall(r, q, range.m, range.labels, server.answer, log, log', reply, i);
        PieceIsGiven(r, server.StoreSegments(), range.labels, p, SlotsOf(server.mb.mappings.Keys), given,
                     server.maxAddresses, server.registered);
      }
    }
  }

  /** A read, which leaves the server as connected as it was. */
  method ReadOne(server: Server, r: Request, q: Query, ghost given: seq<Call>)
    requires Connected(server, given) && ReadCalls(server, given, server.log)
    requires r.Read? && r.start + r.count <= 65536
    modifies server`log, server.mb`replies
    ensures Connected(server, given) && ReadCalls(server, given, server.log)
  {
    ghost var log0 := server.log;
    server.ProcessReadQuery(r, q);
    if r.slot.unit in server.mb.mappings {
      var range := server.RangeOf(r.slot.store);
      ghost var reply :| Served(r, q, range.m, range.labels, server.answer, log0, server.log, reply);
      ReadsAreGiven(server, r, q, given, log0, server.log, reply);
    }
  }

  /** A read and the query it came with. */
  datatype Poll = Poll(r: Request, q: Query)

  /** Any number of them. */
  method ReadAll(server: Server, polls: seq<Poll>, ghost given: seq<Call>)
    requires Connected(server, given) && ReadCalls(server, given, server.log)
    requires forall p | p in polls :: p.r.Read? && p.r.start + p.r.count <= 65536
    modifies server`log, server.mb`replies
    ensures Connected(server, given) && ReadCalls(server, given, server.log)
  {
    for n := 0 to |polls|
      invariant Connected(server, given) && ReadCalls(server, given, server.log)
    {
      ReadOne(server, polls[n].r, polls[n].q, given);
    }
  }

  /** The allocation and the reads. */
  method ConnectAndRead(server: Server, ghost list: seq<Observation>, polls: seq<Poll>) returns (ghost given: seq<Call>)
    requires SettingUp(server, list) && OneUnitEach(PairsOf(list))
    requires forall p | p in polls :: p.r.Read? && p.r.start + p.r.count <= 65536
    modifies server`log, server.mb`mappings, server.mb`replies
    ensures Connected(server, given) && ReadCalls(server, given, server.log) && server.registered == PairsOf(list)
  {
    given := Connect(server, list);
    ReadAll(server, polls, given);
  }

  /**
   * Main result: a list of registrations is accepted exactly if every range has a segment and no address is wanted for
   * two observers. If no observer serves two units, then after the registrations, one allocation and any reads
   * within their units, every pointer handed to OnGetValue is one given to the same observer for the same slot before,
   * moved by the offset into a window that lies inside the unit's table; and the observer was registered for the slot.
   */
  method ObserveAllocateRead(list: seq<Observation>, answer: seq<Call> -> ReplyState, polls: seq<Poll>)
    returns (server: Server?, ghost given: seq<Call>)
    requires OneUnitEach(PairsOf(list)) && forall x | x in list :: Admissible(x)
    requires forall p | p in polls :: p.r.Read? && p.r.start + p.r.count <= 65536
    ensures server != null <==> Satisfiable(list)
    ensures server != null ==> server.registered == PairsOf(list) && ReadCalls(server, given, server.log)
    ensures server != null ==> Connected(server, given)
  {
    var backend := new Backend();
    server := new Server(backend, answer);
    var ok := ObserveAll(server, list);
    if !ok {
      server, given := null, [];
      return;
    }
    given := ConnectAndRead(server, list, polls);
  }

  /**
   * A rejected registration of one segment costs other units' addresses exactly if it starts at address 0 and the
   * address before it, the last one of the unit before, has the same observer.
   */
  lemma ForeignLossExactly(m: Segments<ObserverId>, labels: imap<int, ObserverId>, m': Segments<ObserverId>,
                           unit: Byte, start: nat, count: nat, o: ObserverId, c: int)
    requires Represents(m, labels) && Solid(m) && UnitLocal(m) && start + count <= 65536
    requires Rejected(m, m', Base(unit) + start, count, o, c)
    ensures OtherUnitsKept(labels, Remaining(labels, m'), unit)
      <==> !(start == 0 && Base(unit) - 1 in labels && labels[Base(unit) - 1] == o)
  {
    var edge := Base(unit) - 1;
    if start == 0 && edge in labels && labels[edge] == o {
      EdgeLost(m, labels, m', unit, count, o, c);
    } else {
      forall a | a / 65536 != unit as int && a in labels
        ensures a in Remaining(labels, m')
      {
        ForeignKept(m, labels, m', unit, start, count, o, c, a);
      }
    }
  }

  lemma EdgeLost(m: Segments<ObserverId>, labels: imap<int, ObserverId>, m': Segments<ObserverId>,
                 unit: Byte, count: nat, o: ObserverId, c: int)
    requires Represents(m, labels) && Solid(m) && Rejected(m, m', Base(unit), count, o, c)
    requires Base(unit) - 1 in labels && labels[Base(unit) - 1] == o
    ensures !OtherUnitsKept(labels, Remaining(labels, m'), unit)
  {
    var edge := Base(unit) - 1;
    var k :| Covers(m, k, edge);
    assert k < c && Conflicts(m, c, Base(unit), count, o) by {
      assert c < k ==> Apart(m, c, k);
    }
    forall l | l in m'
      ensures !Covers(m', l, edge)
    {
      assert (l < k ==> Apart(m, l, k)) && (k < l ==> Apart(m, k, l));
    }
    assert edge / 65536 != unit as int;
  }

  lemma ForeignKept(m: Segments<ObserverId>, labels: imap<int, ObserverId>, m': Segments<ObserverId>,
                    unit: Byte, start: nat, count: nat, o: ObserverId, c: int, a: int)
    requires Represents(m, labels) && Solid(m) && UnitLocal(m) && start + count <= 65536
    requires Rejected(m, m', Base(unit) + start, count, o, c)
    requires !(start == 0 && Base(unit) - 1 in labels && labels[Base(unit) - 1] == o)
    requires a in labels && a / 65536 != unit as int
    ensures a in Remaining(labels, m')
  {
    var k :| Covers(m, k, a);
    assert Covers(m, k, k) && Covers(m, k, m[k].hi - 1);
    assert k / 65536 == a / 65536 == (m[k].hi - 1) / 65536;
    assert Covers(m', k, a);
  }

  /**
   * Such a rejection: observer 7 has the last addresses of unit 0 and is refused the first ones of unit 1, which
   * observer 8 has; it loses those of unit 0.
   */
  lemma LosesForeignAddresses(labels: imap<int, ObserverId>)
    requires Represents(map[60000 := Entry(65536, 7), 65541 := Entry(65551, 8)], labels)
    ensures var m: Segments<ObserverId> := map[60000 := Entry(65536, 7), 65541 := Entry(65551, 8)];
      var m': Segments<ObserverId> := map[65541 := Entry(65551, 8)];
      && Rejected(m, m', Base(1), 10, 7, 65541)
      && (forall a | Within(60000, 65536, a) :: a in labels && a !in Remaining(labels, m'))
  {
    var m: Segments<ObserverId> := map[60000 := Entry(65536, 7), 65541 := Entry(65551, 8)];
    forall a | Within(60000, 65536, a)
      ensures a in labels
    {
      assert Covers(m, 60000, a);
    }
  }

  /**
   * Without the bound the units do not stay apart: with the last address of unit 1 and the first one of unit 2
   * observed, reading two addresses from the end of unit 1 reaches the observer of unit 2, as its address 0.
   */
  lemma RunsIntoNextUnit(store: StoreType)
    ensures var m: Segments<ObserverId> := map[131071 := Entry(131072, 7), 131072 := Entry(131073, 8)];
      var r := Read(Slot(1, store), 65535, 2);
      var pieces := [Piece(131071, 131072, 7), Piece(131072, 131073, 8)];
      && WellFormed(m) && Tiles(m, pieces, First(r), First(r) + r.count)
      && CallsFor(r, pieces)[1] == GetValue(8, Slot(1, store), 0, 1, Pointer(Slot(1, store), 65536))
  {
    var m: Segments<ObserverId> := map[131071 := Entry(131072, 7), 131072 := Entry(131073, 8)];
    var pieces := [Piece(131071, 131072, 7), Piece(131072, 131073, 8)];
    assert OneSegment(m, 131071, 131071, 1) && OneSegment(m, 131072, 131072, 1);
    assert FromSegment(m, pieces[0]) && FromSegment(m, pieces[1]);
  }
}
