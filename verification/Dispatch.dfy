/**
 * What it means to serve one Modbus request: the calls made to observers, their order, the values or cache cells
 * they carry and the reply. The loops of _ProcessReadQuery and _ProcessWriteQuery (src/modbus_wrapper.cpp) are
 * proved against this in ModbusServer.dfy.
 */
module Dispatch {
  import opened AddressRange
  import opened Modbus

  /** Identity of an observer, as PModbusServerObserver compares it. */
  type ObserverId = nat

  /** One cache table: the unit it belongs to and the store it caches. */
  datatype Slot = Slot(unit: Byte, store: StoreType)

  /** A pointer into a cache table, counted in the items of the table. */
  datatype Pointer = Pointer(slot: Slot, index: int)

  /** A call of an observer's callback. data of SetValue is everything readable from the pointer passed. */
  datatype Call =
    | GetValue(obs: ObserverId, slot: Slot, start: Word, count: int, cell: Pointer)
    | SetValue(obs: ObserverId, slot: Slot, start: Word, count: int, data: seq<int>)
    | CacheAllocate(obs: ObserverId, slot: Slot, windows: Segments<Pointer>)

  datatype Reply = Normal(query: Query) | Exception(code: ReplyState, query: Query)

  datatype Request =
    | Read(slot: Slot, start: Word, count: Word)
    | Write(slot: Slot, start: Word, count: Word, values: seq<int>)

  /** unit << 16 */
  function Base(unit: int): int {
    unit * 65536
  }

  /** Conversion to uint16_t. */
  function U16(n: int): Word {
    n % 65536
  }

  /** The first address of a request in the packed (unit, address) space. */
  function First(r: Request): int {
    Base(r.slot.unit) + r.start
  }

  predicate WellFormedRequest(r: Request) {
    r.Write? ==> |r.values| == r.count
  }

  function From<T>(s: seq<T>, n: int): seq<T> {
    if 0 <= n <= |s| then s[n..] else []
  }

  /** The call for one piece of a request. */
  function CallFor(r: Request, p: Piece<ObserverId>): Call {
    var start := U16(p.lo - Base(r.slot.unit));
    match r
    case Read(slot, s, _) => GetValue(p.param, slot, start, p.hi - p.lo, Pointer(slot, s + (p.lo - First(r))))
    case Write(slot, _, _, values) => SetValue(p.param, slot, start, p.hi - p.lo, From(values, p.lo - First(r)))
  }

  function CallsFor(r: Request, pieces: seq<Piece<ObserverId>>): seq<Call> {
    seq(|pieces|, i requires 0 <= i < |pieces| => CallFor(r, pieces[i]))
  }

  /** The first n calls were made, all but the last were not refused, and only a refusal stops before the end. */
  ghost predicate Ran(answer: seq<Call> -> ReplyState, log: seq<Call>, calls: seq<Call>, n: nat,
                      log': seq<Call>, reply: ReplyState) {
    && 0 < n <= |calls|
    && log' == log + calls[..n]
    && (forall i | 0 < i < n :: answer(log + calls[..i]) <= 0)
    && reply == answer(log')
    && (reply > 0 || n == |calls|)
  }

  function ReplyTo(reply: ReplyState, q: Query): Reply {
    if reply <= 0 then Normal(q) else Exception(reply, q)
  }

  /**
   * The outcome of a request on a range m meaning labels. If it asks for something and every address is observed,
   * the pieces of the request are offered to their observers in ascending order until one refuses; otherwise no
   * observer is called and the reply is ILLEGAL_ADDRESS.
   */
  ghost predicate Served(r: Request, q: Query, m: Segments<ObserverId>, labels: imap<int, ObserverId>,
                         answer: seq<Call> -> ReplyState, log: seq<Call>, log': seq<Call>, reply: Reply) {
    if r.count > 0 && Complete(labels, First(r), r.count) then
      exists pieces, n: nat, state ::
        && Tiles(m, pieces, First(r), First(r) + r.count)
        && Ran(answer, log, CallsFor(r, pieces), n, log', state)
        && reply == ReplyTo(state, q)
    else
      log' == log && reply == Exception(ILLEGAL_ADDRESS, q)
  }

  /** What one address of a request means for its observer: the value written, or the cache cell to fill. */
  datatype Content = Value(value: int) | Cell(cell: Pointer)

  datatype Delivery = Delivery(obs: ObserverId, address: int, content: Content)

  function DeliveriesOf(c: Call): seq<Delivery> {
    match c
    case GetValue(obs, slot, start, count, cell) =>
      if count < 0 then []
      else seq(count, j requires 0 <= j < count => Delivery(obs, start + j, Cell(Pointer(cell.slot, cell.index + j))))
    case SetValue(obs, slot, start, count, data) =>
      if 0 <= count <= |data|
      then seq(count, j requires 0 <= j < count => Delivery(obs, start + j, Value(data[j])))
      else []
    case CacheAllocate(_, _, _) => []
  }

  function Deliveries(calls: seq<Call>): seq<Delivery> {
    if calls == [] then [] else Deliveries(calls[..|calls| - 1]) + DeliveriesOf(calls[|calls| - 1])
  }

  /** d is what address i of a request should be delivered as: to its observer, with its own value or cache cell. */
  ghost predicate IsDue(r: Request, labels: imap<int, ObserverId>, d: Delivery, i: int)
    requires WellFormedRequest(r)
  {
    && 0 <= i < r.count && First(r) + i in labels && d.obs == labels[First(r) + i] && d.address == r.start + i
    && d.content == match r
       case Read(slot, start, _) => Cell(Pointer(slot, start + i))
       case Write(_, _, _, values) => Value(values[i])
  }

  /** delivered is what the addresses of r below end are due, in order. */
  ghost predicate DeliveredUpTo(r: Request, labels: imap<int, ObserverId>, delivered: seq<Delivery>, end: int)
    requires WellFormedRequest(r)
  {
    && |delivered| == end - First(r) <= r.count
    && forall i | 0 <= i < |delivered| :: IsDue(r, labels, delivered[i], i)
  }

  lemma PieceDelivers(r: Request, labels: imap<int, ObserverId>, p: Piece<ObserverId>, before: seq<Delivery>)
    requires WellFormedRequest(r) && r.start + r.count <= 65536
    requires First(r) <= p.lo < p.hi <= First(r) + r.count
    requires forall a | Within(p.lo, p.hi, a) :: a in labels && labels[a] == p.param
    requires DeliveredUpTo(r, labels, before, p.lo)
    ensures DeliveredUpTo(r, labels, before + DeliveriesOf(CallFor(r, p)), p.hi)
  {
  }

  lemma PieceLabels(m: Segments<ObserverId>, labels: imap<int, ObserverId>, p: Piece<ObserverId>)
    requires Represents(m, labels) && FromSegment(m, p)
    ensures forall a | Within(p.lo, p.hi, a) :: a in labels && labels[a] == p.param
  {
  }

  /**
   * Main result: the first n calls of a request within one unit deliver every address up to the end of piece n - 1
   * exactly once, in ascending order, each to the observer registered for it and with its own value or cache cell.
   */
  lemma {:induction false} DeliversInOrder(r: Request, m: Segments<ObserverId>, labels: imap<int, ObserverId>,
                                           pieces: seq<Piece<ObserverId>>, end: int, n: nat)
    requires WellFormedRequest(r) && r.start + r.count <= 65536
    requires Represents(m, labels) && Tiles(m, pieces, First(r), end) && end <= First(r) + r.count
    requires n <= |pieces|
    ensures var end := if n == 0 then First(r) else pieces[n - 1].hi;
      DeliveredUpTo(r, labels, Deliveries(CallsFor(r, pieces)[..n]), end)
    ensures n > 0 ==> pieces[n - 1].hi <= end
  {
    if n > 0 {
      var p, calls := pieces[n - 1], CallsFor(r, pieces);
      DeliversInOrder(r, m, labels, pieces, end, n - 1);
      TilesEnd(m, pieces, First(r), end, n - 1);
      PieceLabels(m, labels, p);
      PieceDelivers(r, labels, p, Deliveries(calls[..n - 1]));
      assert calls[..n][..n - 1] == calls[..n - 1] && calls[..n][n - 1] == CallFor(r, p);
    }
  }

  /** Calls of the observers of a request deliver something, and without a refusal all of it. */
  lemma CallsDeliver(r: Request, m: Segments<ObserverId>, labels: imap<int, ObserverId>, calls: seq<Call>,
                     pieces: seq<Piece<ObserverId>>, n: nat)
    requires WellFormedRequest(r) && r.start + r.count <= 65536 && Represents(m, labels)
    requires Tiles(m, pieces, First(r), First(r) + r.count) && 0 < n <= |pieces|
    requires calls == CallsFor(r, pieces)[..n]
    ensures var delivered := Deliveries(calls);
            && DeliveredUpTo(r, labels, delivered, First(r) + |delivered|)
            && (n == |pieces| ==> |delivered| == r.count)
            && delivered != []
  {
    DeliversInOrder(r, m, labels, pieces, First(r) + r.count, n);
    DeliversInOrder(r, m, labels, pieces, First(r) + r.count, n - 1);
  }

  /**
   * Main result: a request that no observer refuses delivers every one of its addresses; a request with an
   * unobserved address delivers none.
   */
  lemma ServedDelivers(r: Request, q: Query, m: Segments<ObserverId>, labels: imap<int, ObserverId>,
                       answer: seq<Call> -> ReplyState, log: seq<Call>, log': seq<Call>, reply: Reply)
    requires WellFormedRequest(r) && r.start + r.count <= 65536 && Represents(m, labels)
    requires Served(r, q, m, labels, answer, log, log', reply)
    ensures log <= log'
    ensures var delivered := Deliveries(log'[|log|..]);
            && DeliveredUpTo(r, labels, delivered, First(r) + |delivered|)
            && (reply.Normal? ==> |delivered| == r.count > 0)
            && (!(r.count > 0 && Complete(labels, First(r), r.count)) <==> delivered == [])
  {
    if r.count > 0 && Complete(labels, First(r), r.count) {
      var pieces, n: nat, state :|
        && Tiles(m, pieces, First(r), First(r) + r.count)
        && Ran(answer, log, CallsFor(r, pieces), n, log', state)
        && reply == ReplyTo(state, q);
      assert log'[|log|..] == CallsFor(r, pieces)[..n];
      CallsDeliver(r, m, labels, log'[|log|..], pieces, n);
    } else {
      assert log'[|log|..] == [];
    }
  }

  /**
   * Main result: a request for nothing, or with an unobserved address, calls nobody and is answered with exception
   * code 2. Any other calls observers until one answers with an exception code, which is then the reply, or until the
   * last of them has answered -1 or 0, and then the reply is normal.
   */
  lemma ServedReplies(r: Request, q: Query, m: Segments<ObserverId>, labels: imap<int, ObserverId>,
                      answer: seq<Call> -> ReplyState, log: seq<Call>, log': seq<Call>, reply: Reply)
    requires Served(r, q, m, labels, answer, log, log', reply)
    ensures log <= log' && (log' == log <==> !(r.count > 0 && Complete(labels, First(r), r.count)))
    ensures reply == if log' == log then Exception(2, q)
                     else if 1 <= answer(log') <= 4 then Exception(answer(log'), q) else Normal(q)
    ensures forall i | |log| < i < |log'| :: answer(log'[..i]) in {-1, 0}
  {
    if r.count > 0 && Complete(labels, First(r), r.count) {
      var pieces, n: nat, state :|
        && Tiles(m, pieces, First(r), First(r) + r.count)
        && Ran(answer, log, CallsFor(r, pieces), n, log', state)
        && reply == ReplyTo(state, q);
      forall i | |log| < i < |log'|
        ensures answer(log'[..i]) in {-1, 0}
      {
        var calls := CallsFor(r, pieces);
        assert log'[..i] == log + calls[..i - |log|];
      }
    }
  }

  /**
   * A request addresses only its own unit exactly when it does not run over the end of the unit's addresses;
   * the server does not check this.
   */
  lemma StaysInUnit(r: Request)
    requires r.count > 0
    ensures (forall a | Within(First(r), First(r) + r.count, a) :: a / 65536 == r.slot.unit as int)
      <==> r.start + r.count <= 65536
  {
    var unit, last := r.slot.unit as int, First(r) + r.count - 1;
    assert Within(First(r), First(r) + r.count, last);
    assert last / 65536 == unit <==> last < unit * 65536 + 65536;
    forall a | Within(First(r), First(r) + r.count, a)
      ensures a / 65536 == unit <==> a < unit * 65536 + 65536
    {
    }
  }
}
