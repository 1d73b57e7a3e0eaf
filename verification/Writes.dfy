/**
 * What a Modbus write does on the MQTT side: a request that covers whole windows is cut into exactly these, and each of
 * their observers (src/observer.cpp) publishes the value its registers encode.
 */
module Writes {
  import opened AddressRange
  import opened Modbus
  import opened Dispatch
  import opened ModbusServer
  import opened Converters
  import opened Observers
  import opened Config
  import opened Windows

  /**
   * What observers of the gateway answer: OnSetValue returns OK, and OnGetValue is the default one, which returns
   * CACHED.
   */
  function GatewayAnswer(log: seq<Call>): ReplyState {
    if log != [] && log[|log| - 1].SetValue? then 0 else -1
  }

  /** The windows that run names follow one another in a slot, from address start up to end. */
  ghost predicate IsRow(ps: seq<Placement>, run: seq<nat>, slot: Slot, start: int, end: int) {
    && run != []
    && (forall i | 0 <= i < |run| :: run[i] < |ps| && ps[run[i]].slot == slot)
    && ps[run[0]].address == start
    && (forall i, j | 0 <= i < j < |run| && j == i + 1 :: ps[run[j]].address == EndOf(ps[run[i]]))
    && EndOf(ps[run[|run| - 1]]) == end
  }

  lemma {:induction false} FromStart(ps: seq<Placement>, run: seq<nat>, slot: Slot, start: int, end: int, i: nat)
    requires IsRow(ps, run, slot, start, end) && i < |run|
    ensures start <= ps[run[i]].address
  {
    if i > 0 {
      FromStart(ps, run, slot, start, end, i - 1);
    }
  }

  lemma {:induction false} UpToEnd(ps: seq<Placement>, run: seq<nat>, slot: Slot, start: int, end: int, i: nat)
    requires IsRow(ps, run, slot, start, end) && i < |run|
    ensures EndOf(ps[run[i]]) <= end
    decreases |run| - i
  {
    if i + 1 < |run| {
      UpToEnd(ps, run, slot, start, end, i + 1);
    }
  }

  /** The request asks for exactly the windows of the row. */
  ghost predicate CoversRow(ps: seq<Placement>, run: seq<nat>, r: Request) {
    IsRow(ps, run, r.slot, r.start, r.start + r.count)
  }

  /** The part of a request that is the window of observer o. */
  function WindowPiece(ps: seq<Placement>, o: nat): Piece<ObserverId>
    requires o < |ps|
  {
    Piece(Start(ps[o]), Start(ps[o]) + ps[o].width, o)
  }

  /** The ranges of a server are as a configuration leaves them. */
  ghost predicate RangeHolds(m: Segments<ObserverId>, labels: imap<int, ObserverId>, ps: seq<Placement>,
                             store: StoreType) {
    Represents(m, labels) && AllPlaceable(ps) && IsPlaced(labels, ps, store) && Segmented(m, ps, store)
  }

  /** A piece that begins where a window of the row does is that window. */
  lemma PieceIsWindow(m: Segments<ObserverId>, labels: imap<int, ObserverId>, ps: seq<Placement>, run: seq<nat>,
                      r: Request, pieces: seq<Piece<ObserverId>>, i: nat)
    requires RangeHolds(m, labels, ps, r.slot.store) && CoversRow(ps, run, r)
    requires Tiles(m, pieces, First(r), First(r) + r.count) && i < |pieces| && i < |run|
    requires pieces[i].lo == Start(ps[run[i]])
    ensures pieces[i] == WindowPiece(ps, run[i])
  {
    var p, q := ps[run[i]], pieces[i];
    assert Placeable(p) && FromSegment(m, q) && q.lo < q.hi;
    var k :| OneSegment(m, k, q.lo, q.hi - q.lo) && m[k].param == q.param;
    assert Covers(m, k, q.lo) && Occupies(p, r.slot.store, q.lo);
    assert m[k].param == run[i];
    UpToEnd(ps, run, r.slot, r.start, r.start + r.count, i);
    if i + 1 < |pieces| {
      assert pieces[i + 1].lo in m;
      assert k < q.hi ==> Apart(m, k, q.hi);
    }
  }

  lemma {:induction false} PiecesAreWindows(m: Segments<ObserverId>, labels: imap<int, ObserverId>, ps: seq<Placement>,
                                            run: seq<nat>, r: Request, pieces: seq<Piece<ObserverId>>, n: nat)
    requires RangeHolds(m, labels, ps, r.slot.store) && CoversRow(ps, run, r)
    requires Tiles(m, pieces, First(r), First(r) + r.count) && n <= |run|
    ensures n <= |pieces| && forall i | 0 <= i < n :: pieces[i] == WindowPiece(ps, run[i])
  {
    if n > 0 {
      PiecesAreWindows(m, labels, ps, run, r, pieces, n - 1);
      assert Placeable(ps[run[n - 1]]);
      assert n > 1 ==> pieces[n - 2] == WindowPiece(ps, run[n - 2]);
      assert n > 1 ==> ps[run[n - 1]].address == EndOf(ps[run[n - 2]]);
      UpToEnd(ps, run, r.slot, r.start, r.start + r.count, n - 1);
      PieceIsWindow(m, labels, ps, run, r, pieces, n - 1);
    }
  }

  /** The request is cut into its windows. */
  lemma CutIntoWindows(m: Segments<ObserverId>, labels: imap<int, ObserverId>, ps: seq<Placement>, run: seq<nat>,
                       r: Request, pieces: seq<Piece<ObserverId>>)
    requires RangeHolds(m, labels, ps, r.slot.store) && CoversRow(ps, run, r)
    requires Tiles(m, pieces, First(r), First(r) + r.count)
    ensures |pieces| == |run| && forall i | 0 <= i < |run| :: pieces[i] == WindowPiece(ps, run[i])
  {
    PiecesAreWindows(m, labels, ps, run, r, pieces, |run|);
    if |pieces| > |run| {
      TilesEnd(m, pieces, First(r), First(r) + r.count, |run|);
    }
  }

  /** All addresses of the request are observed. */
  lemma {:induction false} RowIsComplete(labels: imap<int, ObserverId>, ps: seq<Placement>, run: seq<nat>, r: Request,
                                         a: int, n: nat)
    requires IsPlaced(labels, ps, r.slot.store) && CoversRow(ps, run, r) && n < |run|
    requires First(r) <= a < Base(r.slot.unit) + EndOf(ps[run[n]])
    ensures a in labels
  {
    if a < Start(ps[run[n]]) {
      assert n > 0;
      RowIsComplete(labels, ps, run, r, a, n - 1);
    } else {
      assert Occupies(ps[run[n]], r.slot.store, a);
    }
  }

  /** The call for the window of observer o: the values from its first address on. */
  function WindowCall(ps: seq<Placement>, r: Request, o: nat): Call
    requires o < |ps| && r.Write?
  {
    SetValue(o, r.slot, U16(ps[o].address), ps[o].width, From(r.values, ps[o].address - r.start))
  }

  function WindowCalls(ps: seq<Placement>, run: seq<nat>, r: Request): seq<Call>
    requires r.Write? && forall i | 0 <= i < |run| :: run[i] < |ps|
  {
    seq(|run|, i requires 0 <= i < |run| => WindowCall(ps, r, run[i]))
  }

  lemma RowIsPossible(ps: seq<Placement>, run: seq<nat>, r: Request)
    requires AllPlaceable(ps) && CoversRow(ps, run, r)
    ensures r.count > 0 && r.start + r.count <= 65536
  {
    assert Placeable(ps[run[0]]) && Placeable(ps[run[|run| - 1]]);
    UpToEnd(ps, run, r.slot, r.start, r.start + r.count, 0);
  }

  /** What no observer refuses is offered to the end. */
  lemma RanToEnd(log: seq<Call>, calls: seq<Call>, n: nat, log': seq<Call>, reply: ReplyState)
    requires Ran(GatewayAnswer, log, calls, n, log', reply) && forall c | c in calls :: c.SetValue?
    ensures log' == log + calls && reply == 0
  {
    assert log'[|log'| - 1] == calls[n - 1];
    assert calls[..|calls|] == calls;
  }

  lemma AllComplete(labels: imap<int, ObserverId>, ps: seq<Placement>, run: seq<nat>, r: Request)
    requires IsPlaced(labels, ps, r.slot.store) && CoversRow(ps, run, r)
    ensures Complete(labels, First(r), r.count)
  {
    forall a | Within(First(r), First(r) + r.count, a)
      ensures a in labels
    {
      RowIsComplete(labels, ps, run, r, a, |run| - 1);
    }
  }

  lemma CallsAreForWindows(m: Segments<ObserverId>, labels: imap<int, ObserverId>, ps: seq<Placement>, run: seq<nat>,
                           r: Request, pieces: seq<Piece<ObserverId>>)
    requires RangeHolds(m, labels, ps, r.slot.store) && CoversRow(ps, run, r) && r.Write?
    requires Tiles(m, pieces, First(r), First(r) + r.count)
    ensures CallsFor(r, pieces) == WindowCalls(ps, run, r)
  {
    CutIntoWindows(m, labels, ps, run, r, pieces);
    forall i | 0 <= i < |run|
      ensures CallFor(r, pieces[i]) == WindowCall(ps, r, run[i])
    {
      CallForWindow(ps, r, run[i]);
    }
  }

  lemma CallForWindow(ps: seq<Placement>, r: Request, o: nat)
    requires o < |ps| && ps[o].slot == r.slot && r.Write?
    ensures CallFor(r, WindowPiece(ps, o)) == WindowCall(ps, r, o)
  {
  }

  lemma AllSetValues(ps: seq<Placement>, run: seq<nat>, r: Request)
    requires r.Write? && forall i | 0 <= i < |run| :: run[i] < |ps|
    ensures forall c | c in WindowCalls(ps, run, r) :: c.SetValue?
  {
  }

  /** Main result: a write that covers whole windows of a configuration calls their observers, each for its window. */
  lemma WriteCalls(m: Segments<ObserverId>, labels: imap<int, ObserverId>, ps: seq<Placement>, run: seq<nat>,
                   r: Request, q: Query, log: seq<Call>, log': seq<Call>, reply: Reply)
    requires RangeHolds(m, labels, ps, r.slot.store) && CoversRow(ps, run, r) && r.Write?
    requires Served(r, q, m, labels, GatewayAnswer, log, log', reply)
    ensures reply == Normal(q) && log' == log + WindowCalls(ps, run, r)
  {
    RowIsPossible(ps, run, r);
    AllComplete(labels, ps, run, r);
    var pieces, n: nat, state :|
      && Tiles(m, pieces, First(r), First(r) + r.count)
      && Ran(GatewayAnswer, log, CallsFor(r, pieces), n, log', state)
      && reply == ReplyTo(state, q);
    CallsAreForWindows(m, labels, ps, run, r, pieces);
    AllSetValues(ps, run, r);
    RanToEnd(log, CallsFor(r, pieces), n, log', state);
  }

  /** The values a request has for the converter of a window it covers. */
  function ValuesFor(p: Placement, r: Request): (w: seq<int>)
    requires r.Write? && r.start <= p.address && p.address - r.start + Footprint(p.conv) <= |r.values|
    ensures |w| == Footprint(p.conv)
  {
    var at := p.address - r.start;
    r.values[at..at + Footprint(p.conv)]
  }

  /** The window lies within the request, and its values can be unpacked. */
  ghost predicate HasValue(p: Placement, r: Request) {
    && r.Write? && AllWords(r.values) && Proper(p.conv)
    && r.start <= p.address && p.address - r.start + Footprint(p.conv) <= |r.values|
    && Unpackable(p.conv, ValuesFor(p, r))
  }

  /** The message published for a window. */
  function MessageFor(p: Placement, r: Request): Message
    requires HasValue(p, r)
  {
    Message(p.topic + "/on", Unpacked(p.conv, ValuesFor(p, r)), 1, false)
  }

  /** published is the value of each window of the row, on its own topic, in ascending order. */
  ghost predicate IsPublished(ps: seq<Placement>, run: seq<nat>, r: Request, published: seq<Message>) {
    && |published| <= |run|
    && forall i | 0 <= i < |published| ::
         run[i] < |ps| && HasValue(ps[run[i]], r) && published[i] == MessageFor(ps[run[i]], r)
  }

  /** OnSetValue of one observer, in terms of its placement. */
  method PublishWindow(obs: GatewayObserver, ghost p: Placement, ghost r: Request, data: seq<int>)
    returns (message: Message, reply: ReplyState)
    requires obs.conv == p.conv && obs.topic == p.topic && HasValue(p, r) && data == From(r.values, p.address - r.start)
    ensures message == MessageFor(p, r) && reply == 0
  {
    assert data[..Footprint(p.conv)] == ValuesFor(p, r);
    message, reply := obs.OnSetValue(data);
  }

  /** The callbacks made for a write that covers a row of windows. */
  method PublishAll(observers: seq<GatewayObserver>, calls: seq<Call>, ghost ps: seq<Placement>, ghost run: seq<nat>,
                    ghost r: Request)
    returns (published: seq<Message>)
    requires |observers| == |ps|
    requires forall i | 0 <= i < |ps| :: observers[i].conv == ps[i].conv && observers[i].topic == ps[i].topic
    requires r.Write? && (forall i | 0 <= i < |run| :: run[i] < |ps| && HasValue(ps[run[i]], r))
    requires calls == WindowCalls(ps, run, r)
    ensures |published| == |run| && IsPublished(ps, run, r, published)
  {
    published := [];
    for i := 0 to |calls|
      invariant |published| == i && IsPublished(ps, run, r, published)
    {
      var c := calls[i];
      assert c == WindowCall(ps, r, run[i]);
      var message, reply := PublishWindow(observers[c.obs], ps[run[i]], r, c.data);
      assert reply == GatewayAnswer(calls[..i + 1]);
      published := published + [message];
    }
  }
}
