/**
 * The gateway at work, from its configuration on: MQTT messages, Modbus reads and Modbus writes in any order, on the
 * one set of tables that src/main.cpp sets up between src/observer.cpp and src/modbus_wrapper.cpp.
 */
module Operation {
  import opened AddressRange
  import opened Modbus
  import opened Dispatch
  import opened ModbusServer
  import opened Converters
  import opened Observers
  import opened Config
  import opened Windows
  import opened Subscriptions
  import opened Writes
  import opened Gateway

  datatype Event = Arriving(message: Incoming) | Querying(q: Query)

  /** What an event leads to: the cells a read is answered from, the messages a write publishes, or ILLEGAL_ADDRESS. */
  datatype Output = Nothing | Cells(cells: seq<int>) | Published(messages: seq<Message>) | Refused

  predicate InWindow(p: Placement, slot: Slot, a: int) {
    p.slot == slot && p.address <= a < EndOf(p)
  }

  predicate AnyWindow(ps: seq<Placement>, slot: Slot, a: int) {
    exists j :: 0 <= j < |ps| && InWindow(ps[j], slot, a)
  }

  /** Something is asked for, and all of it lies in windows. */
  predicate InWindows(ps: seq<Placement>, r: Request) {
    r.count > 0 && forall a | r.start <= a < r.start + r.count :: AnyWindow(ps, r.slot, a)
  }

  /** The addresses of a configuration that are observed are those in its windows. */
  lemma ObservedIsInWindow(labels: imap<int, ObserverId>, ps: seq<Placement>, slot: Slot, a: int)
    requires AllPlaceable(ps) && IsPlaced(labels, ps, slot.store) && 0 <= a < 65536
    ensures Base(slot.unit) + a in labels <==> AnyWindow(ps, slot, a)
  {
    var k := Base(slot.unit) + a;
    if k in labels {
      assert LabelIsPlaced(labels, ps, slot.store, k) && Placeable(ps[labels[k]]);
      SameUnit(ps[labels[k]], slot.store, slot.unit, a);
      assert InWindow(ps[labels[k]], slot, a);
    }
    if AnyWindow(ps, slot, a) {
      var j :| 0 <= j < |ps| && InWindow(ps[j], slot, a);
      assert Occupies(ps[j], slot.store, k);
    }
  }

  lemma CompleteIsInWindows(labels: imap<int, ObserverId>, ps: seq<Placement>, r: Request)
    requires AllPlaceable(ps) && IsPlaced(labels, ps, r.slot.store) && r.start + r.count <= 65536
    ensures r.count > 0 && Complete(labels, First(r), r.count) <==> InWindows(ps, r)
  {
    forall a | r.start <= a < r.start + r.count
      ensures Base(r.slot.unit) + a in labels <==> AnyWindow(ps, r.slot, a)
    {
      ObservedIsInWindow(labels, ps, r.slot, a);
    }
    if InWindows(ps, r) {
      forall k | Within(First(r), First(r) + r.count, k)
        ensures k in labels
      {
        assert AnyWindow(ps, r.slot, k - Base(r.slot.unit));
      }
    } else if r.count > 0 {
      var a :| r.start <= a < r.start + r.count && !AnyWindow(ps, r.slot, a);
      assert Within(First(r), First(r) + r.count, Base(r.slot.unit) + a);
    }
  }

  function AnswerOf(q: Query, answered: bool): Reply {
    if answered then Normal(q) else Exception(ILLEGAL_ADDRESS, q)
  }

  /** Observers of the gateway refuse nothing, so that a request is refused only for an address in no window. */
  lemma ServedInWindows(m: Segments<ObserverId>, labels: imap<int, ObserverId>, ps: seq<Placement>, r: Request,
                        q: Query, log: seq<Call>, log': seq<Call>, reply: Reply)
    requires RangeHolds(m, labels, ps, r.slot.store) && r.start + r.count <= 65536
    requires Served(r, q, m, labels, GatewayAnswer, log, log', reply)
    ensures reply == AnswerOf(q, InWindows(ps, r))
    ensures log <= log' && (!InWindows(ps, r) ==> log' == log)
  {
    CompleteIsInWindows(labels, ps, r);
  }

  /** A query the server can read, to a unit of the configuration, that does not run over the end of the unit. */
  predicate IsOrdinary(ps: seq<Placement>, q: Query) {
    && Supported(q) && IsUnitOf(ps, UnitOf(q))
    && RequestOf(q).start + RequestOf(q).count <= 65536
  }

  lemma ConfiguredIsObserved(server: Server, ps: seq<Placement>, unit: Byte)
    requires AllInTable(server.maxAddresses, ps) && IsUnitOf(ps, unit)
    ensures server.IsObserved(unit)
  {
    var i :| 0 <= i < |ps| && ps[i].slot.unit == unit;
    assert InTable(server.maxAddresses, ps[i]);
  }

  /** A write that covers a row of windows has called the observers of these windows. */
  ghost predicate CallsCut(ps: seq<Placement>, r: Request, calls: seq<Call>) {
    r.Write? ==> forall run | CoversRow(ps, run, r) :: calls == WindowCalls(ps, run, r)
  }

  lemma ServedIsCut(m: Segments<ObserverId>, labels: imap<int, ObserverId>, ps: seq<Placement>, r: Request, q: Query,
                    log: seq<Call>, log': seq<Call>, reply: Reply)
    requires RangeHolds(m, labels, ps, r.slot.store) && Served(r, q, m, labels, GatewayAnswer, log, log', reply)
    requires log <= log'
    ensures CallsCut(ps, r, log'[|log|..])
  {
    forall run | r.Write? && CoversRow(ps, run, r)
      ensures log'[|log|..] == WindowCalls(ps, run, r)
    {
      WriteCalls(m, labels, ps, run, r, q, log, log', reply);
    }
  }

  /** The server's part in answering a query. */
  method Ask(gateway: Gateway, q: Query) returns (answered: bool, calls: seq<Call>)
    requires gateway.Live() && IsOrdinary(gateway.placed, q)
    modifies gateway.server`log, gateway.server.mb`replies
    ensures gateway.server.IsObserved(UnitOf(q)) && (answered <==> InWindows(gateway.placed, RequestOf(q)))
    ensures gateway.server.mb.replies == old(gateway.server.mb.replies) + [AnswerOf(q, answered)]
    ensures CallsCut(gateway.placed, RequestOf(q), calls)
  {
    var server := gateway.server;
    var before := |server.log|;
    ConfiguredIsObserved(server, gateway.placed, UnitOf(q));
    ghost var r, ps, log0, replies0 := RequestOf(q), gateway.placed, server.log, server.mb.replies;
    var thrown := server.ProcessQuery(q);
    ghost var reply :| server.Finished(UnitOf(q), reply, thrown, replies0)
      && Answered(server.WorldNow(), q, log0, server.log, reply);
    var range := server.RangeOf(r.slot.store);
    gateway.HoldsRange(r.slot.store);
    Views(server);
    ServedInWindows(range.m, range.labels, ps, r, q, log0, server.log, reply);
    ServedIsCut(range.m, range.labels, ps, r, q, log0, server.log, reply);
    answered := server.mb.replies[|server.mb.replies| - 1].Normal?;
    calls := server.log[before..];
  }

  /** The payloads every observer has received. */
  type Payloads = seq<seq<Payload>>

  /** The cells of a window that a read covers are those that its observer has packed. */
  ghost predicate ShowsWindow(r: Request, cells: seq<int>, p: Placement, received: seq<Payload>) {
    && AllPackable(p, received)
    && forall k | 0 <= k < Footprint(p.conv) && r.start <= p.address + k < r.start + |cells| ::
         cells[p.address + k - r.start] == History(p, received)[k]
  }

  ghost predicate ShowsWindows(r: Request, cells: seq<int>, ps: seq<Placement>, received: Payloads) {
    && |cells| == r.count && |received| == |ps|
    && forall j | 0 <= j < |ps| && ps[j].slot == r.slot :: ShowsWindow(r, cells, ps[j], received[j])
  }

  /** The write covers whole windows, whose values can be unpacked. */
  ghost predicate IsWhole(ps: seq<Placement>, run: seq<nat>, r: Request) {
    r.Write? && CoversRow(ps, run, r) && forall i | 0 <= i < |run| :: HasValue(ps[run[i]], r)
  }

  /** out is what comes of a query when the observers have received these payloads. */
  ghost predicate IsOutput(ps: seq<Placement>, received: Payloads, r: Request, out: Output) {
    if !InWindows(ps, r) then out == Refused
    else if r.Read? then out.Cells? && ShowsWindows(r, out.cells, ps, received)
    else out.Published? && exists run ::
      IsWhole(ps, run, r) && |out.messages| == |run| && IsPublished(ps, run, r, out.messages)
  }

  /** The event can be dealt with: a legible message, a read, or a write that is refused or covers whole windows. */
  ghost predicate IsProper(ps: seq<Placement>, e: Event) {
    match e
    case Arriving(message) => Legible(ps, message)
    case Querying(q) =>
      && IsOrdinary(ps, q)
      && (RequestOf(q).Write? && InWindows(ps, RequestOf(q)) ==> exists run :: IsWhole(ps, run, RequestOf(q)))
  }

  /** The gateway and its subscriptions work on the same tables. */
  ghost predicate Joined(gateway: Gateway, mqtt: Subscriptions)
    reads gateway, gateway.server`maxAddresses
    reads gateway.server.di, gateway.server.co, gateway.server.ir, gateway.server.hr
    reads mqtt, mqtt.mb`mappings, gateway.server.mb`mappings, mqtt.observers, mqtt.Tables()
  {
    && gateway.Live() && mqtt.Ready()
    && mqtt.mb == gateway.server.mb && mqtt.placed == gateway.placed && mqtt.observers == gateway.observers
  }

  lemma CellShows(contents: Contents, p: Placement, received: seq<Payload>, r: Request)
    requires Holds(contents, p, received) && p.slot == r.slot && r.start + r.count <= |contents[r.slot]|
    ensures ShowsWindow(r, contents[r.slot][r.start..r.start + r.count], p, received)
  {
    var table := contents[r.slot];
    var cells, history := table[r.start..r.start + r.count], History(p, received);
    forall k | 0 <= k < Footprint(p.conv) && r.start <= p.address + k < r.start + r.count
      ensures cells[p.address + k - r.start] == history[k]
    {
      assert cells[p.address + k - r.start] == table[p.address + k];
      assert table[p.address..p.address + Footprint(p.conv)][k] == table[p.address + k];
    }
  }

  /** The cells of a table that a window holds, as far as a read covers them. */
  lemma CellsShow(contents: Contents, ps: seq<Placement>, received: Payloads, r: Request)
    requires AllHold(contents, ps, received) && r.slot in contents && r.start + r.count <= |contents[r.slot]|
    ensures ShowsWindows(r, contents[r.slot][r.start..r.start + r.count], ps, received)
  {
    var cells := contents[r.slot][r.start..r.start + r.count];
    forall j | 0 <= j < |ps| && ps[j].slot == r.slot
      ensures ShowsWindow(r, cells, ps[j], received[j])
    {
      CellShows(contents, ps[j], received[j], r);
    }
  }

  lemma WindowsAreBacked(mappings: map<Byte, Mapping>, ps: seq<Placement>, r: Request)
    requires (forall i | 0 <= i < |ps| :: IsBacked(mappings, ps[i])) && InWindows(ps, r)
    ensures r.slot.unit in mappings && r.start + r.count <= TableIn(mappings[r.slot.unit], r.slot.store).Length
  {
    var last := r.start + r.count - 1;
    assert AnyWindow(ps, r.slot, last);
    var j :| 0 <= j < |ps| && InWindow(ps[j], r.slot, last);
    assert IsBacked(mappings, ps[j]);
  }

  /** The same, and that it leaves the tables as they are. */
  method AskOnly(gateway: Gateway, mqtt: Subscriptions, q: Query) returns (answered: bool, calls: seq<Call>)
    requires gateway.Live() && IsOrdinary(gateway.placed, q)
    modifies gateway.server`log, gateway.server.mb`replies
    ensures answered <==> InWindows(gateway.placed, RequestOf(q))
    ensures gateway.server.mb.replies == old(gateway.server.mb.replies) + [AnswerOf(q, answered)]
    ensures CallsCut(gateway.placed, RequestOf(q), calls)
    ensures mqtt.ContentsNow() == old(mqtt.ContentsNow())
  {
    ghost var contents := mqtt.ContentsNow();
    answered, calls := Ask(gateway, q);
    forall slot: Slot | slot in contents
      ensures mqtt.mb.TableOf(slot)[..] == contents[slot]
    {
    }
  }

  /** A query comes; the tables still show what the observers have received. */
  method Serve(gateway: Gateway, mqtt: Subscriptions, q: Query) returns (answered: bool, calls: seq<Call>)
    requires Joined(gateway, mqtt) && IsOrdinary(gateway.placed, q)
    modifies gateway.server`log, gateway.server.mb`replies
    ensures Joined(gateway, mqtt) && (answered <==> InWindows(gateway.placed, RequestOf(q)))
    ensures gateway.server.mb.replies == old(gateway.server.mb.replies) + [AnswerOf(q, answered)]
    ensures CallsCut(gateway.placed, RequestOf(q), calls)
  {
    answered, calls := AskOnly(gateway, mqtt, q);
  }

  /** The cells a read is answered from. */
  lemma CellsRead(gateway: Gateway, mqtt: Subscriptions, r: Request)
    requires Joined(gateway, mqtt) && InWindows(gateway.placed, r)
    ensures r.slot.unit in mqtt.mb.mappings && r.start + r.count <= mqtt.mb.TableOf(r.slot).Length
    ensures ShowsWindows(r, mqtt.mb.TableOf(r.slot)[r.start..r.start + r.count], gateway.placed, mqtt.received)
  {
    WindowsAreBacked(mqtt.mb.mappings, gateway.placed, r);
    CellsShow(mqtt.ContentsNow(), mqtt.placed, mqtt.received, r);
  }

  /** The callbacks of a write; they leave the tables as they are. */
  method PublishCalls(gateway: Gateway, mqtt: Subscriptions, calls: seq<Call>, ghost run: seq<nat>, ghost r: Request)
    returns (messages: seq<Message>)
    requires gateway.Live() && IsWhole(gateway.placed, run, r) && calls == WindowCalls(gateway.placed, run, r)
    ensures |messages| == |run| && IsPublished(gateway.placed, run, r, messages)
    ensures mqtt.ContentsNow() == old(mqtt.ContentsNow())
  {
    ghost var contents := mqtt.ContentsNow();
    messages := PublishAll(gateway.observers, calls, gateway.placed, run, r);
    forall slot: Slot | slot in contents
      ensures mqtt.mb.TableOf(slot)[..] == contents[slot]
    {
    }
  }

  /** A write's observers publish; the tables still show what the observers have received. */
  method PublishRow(gateway: Gateway, mqtt: Subscriptions, calls: seq<Call>, ghost run: seq<nat>, ghost r: Request)
    returns (messages: seq<Message>)
    requires Joined(gateway, mqtt) && IsWhole(gateway.placed, run, r) && calls == WindowCalls(gateway.placed, run, r)
    ensures Joined(gateway, mqtt) && |messages| == |run| && IsPublished(gateway.placed, run, r, messages)
  {
    messages := PublishCalls(gateway, mqtt, calls, run, r);
  }

  /** What the observers have received when these messages have come. */
  function After(ps: seq<Placement>, before: Payloads, messages: seq<Incoming>): Payloads
    requires |before| == |ps|
  {
    seq(|ps|, i requires 0 <= i < |ps| => before[i] + OnTopic(messages, ps[i].topic))
  }

  /** The MQTT messages among the first n events. */
  function MessagesIn(events: seq<Event>, n: nat): seq<Incoming>
    requires n <= |events|
  {
    if n == 0 then [] else MessagesIn(events, n - 1) + NewMessage(events[n - 1])
  }

  function NewMessage(e: Event): seq<Incoming> {
    if e.Arriving? then [e.message] else []
  }

  ghost predicate Fits(ps: seq<Placement>, received: Payloads, e: Event, out: Output) {
    match e
    case Arriving(_) => out == Nothing
    case Querying(q) => Supported(q) && IsOutput(ps, received, RequestOf(q), out)
  }

  /** out is what comes of event i, after the messages that have come before it. */
  ghost predicate FitsAt(ps: seq<Placement>, before: Payloads, events: seq<Event>, i: nat, out: Output)
    requires |before| == |ps| && i < |events|
  {
    Fits(ps, After(ps, before, MessagesIn(events, i)), events[i], out)
  }

  /** The outputs are those of the first events. */
  ghost predicate AllFit(ps: seq<Placement>, before: Payloads, events: seq<Event>, outputs: seq<Output>) {
    && |before| == |ps| && |outputs| <= |events|
    && forall i | 0 <= i < |outputs| :: FitsAt(ps, before, events, i, outputs[i])
  }

  /** One reply for every query among the first n events, in order. */
  function RepliesFor(events: seq<Event>, outputs: seq<Output>, n: nat): seq<Reply>
    requires n <= |events| && n <= |outputs|
  {
    if n == 0 then []
    else RepliesFor(events, outputs, n - 1) + ReplyTo(events[n - 1], outputs[n - 1])
  }

  function ReplyTo(e: Event, out: Output): seq<Reply> {
    if e.Querying? then [AnswerOf(e.q, out != Refused)] else []
  }

  lemma {:induction false} SameReplies(events: seq<Event>, outputs: seq<Output>, out: Output, n: nat)
    requires n <= |events| && n <= |outputs|
    ensures RepliesFor(events, outputs + [out], n) == RepliesFor(events, outputs, n)
  {
    if n > 0 {
      SameReplies(events, outputs, out, n - 1);
    }
  }

  lemma AfterNothing(ps: seq<Placement>, before: Payloads)
    requires |before| == |ps|
    ensures After(ps, before, []) == before
  {
    forall i | 0 <= i < |ps|
      ensures After(ps, before, [])[i] == before[i]
    {
      assert OnTopic([], ps[i].topic) == [] && before[i] + [] == before[i];
    }
  }

  lemma AfterOneMore(ps: seq<Placement>, before: Payloads, messages: seq<Incoming>, message: Incoming, after: Payloads)
    requires |before| == |ps| && Reached(ps, After(ps, before, messages), message, |ps|, after)
    ensures after == After(ps, before, messages + [message])
  {
    var all := messages + [message];
    assert all[..|messages|] == messages;
    forall i | 0 <= i < |ps|
      ensures after[i] == before[i] + OnTopic(all, ps[i].topic)
    {
      assert After(ps, before, messages)[i] == before[i] + OnTopic(messages, ps[i].topic);
    }
  }

  /** A query comes, is served and answered; for a write the observers called publish. */
  method Handle(gateway: Gateway, mqtt: Subscriptions, e: Event) returns (out: Output)
    requires Joined(gateway, mqtt) && IsProper(gateway.placed, e) && e.Querying?
    modifies gateway.server`log, gateway.server.mb`replies
    ensures Joined(gateway, mqtt) && Fits(gateway.placed, mqtt.received, e, out)
    ensures gateway.server.mb.replies == old(gateway.server.mb.replies) + ReplyTo(e, out)
  {
    var r := RequestOf(e.q);
    var answered, calls := Serve(gateway, mqtt, e.q);
    if !answered {
      out := Refused;
    } else if r.Read? {
      CellsRead(gateway, mqtt, r);
      out := Cells(mqtt.mb.TableOf(r.slot)[r.start..r.start + r.count]);
    } else {
      ghost var run :| IsWhole(gateway.placed, run, r);
      var messages := PublishRow(gateway, mqtt, calls, run, r);
      out := Published(messages);
    }
  }

  /** A message comes and is packed. */
  method Receive(gateway: Gateway, mqtt: Subscriptions, e: Event, ghost before: Payloads, ghost messages: seq<Incoming>)
    requires Joined(gateway, mqtt) && IsProper(gateway.placed, e) && e.Arriving?
    requires |before| == |gateway.placed| && mqtt.received == After(gateway.placed, before, messages)
    modifies mqtt.Tables(), mqtt`received
    ensures Joined(gateway, mqtt) && mqtt.received == After(gateway.placed, before, messages + NewMessage(e))
    ensures gateway.server.mb.replies == old(gateway.server.mb.replies)
  {
    mqtt.Deliver(e.message);
    AfterOneMore(mqtt.placed, before, messages, e.message, mqtt.received);
  }

  /** One event. */
  method Step(gateway: Gateway, mqtt: Subscriptions, e: Event, ghost before: Payloads, ghost messages: seq<Incoming>)
    returns (out: Output)
    requires Joined(gateway, mqtt) && IsProper(gateway.placed, e)
    requires |before| == |gateway.placed| && mqtt.received == After(gateway.placed, before, messages)
    modifies gateway.server`log, gateway.server.mb`replies, mqtt.Tables(), mqtt`received
    ensures Joined(gateway, mqtt) && Fits(gateway.placed, old(mqtt.received), e, out)
    ensures mqtt.received == After(gateway.placed, before, messages + NewMessage(e))
    ensures gateway.server.mb.replies == old(gateway.server.mb.replies) + ReplyTo(e, out)
  {
    if e.Arriving? {
      Receive(gateway, mqtt, e, before, messages);
      out := Nothing;
    } else {
      assert messages + NewMessage(e) == messages;
      out := Handle(gateway, mqtt, e);
    }
  }

  /** The first events have been dealt with: what they led to, what the observers have received, and the replies. */
  ghost predicate Done(ps: seq<Placement>, before: Payloads, replies0: seq<Reply>, events: seq<Event>,
                       outputs: seq<Output>, received: Payloads, replies: seq<Reply>) {
    && AllFit(ps, before, events, outputs)
    && received == After(ps, before, MessagesIn(events, |outputs|))
    && replies == replies0 + RepliesFor(events, outputs, |outputs|)
  }

  lemma NothingDone(ps: seq<Placement>, before: Payloads, replies0: seq<Reply>, events: seq<Event>)
    requires |before| == |ps|
    ensures Done(ps, before, replies0, events, [], before, replies0)
  {
    AfterNothing(ps, before);
  }

  lemma NextFits(ps: seq<Placement>, before: Payloads, events: seq<Event>, outputs: seq<Output>, out: Output)
    requires |outputs| < |events| && AllFit(ps, before, events, outputs) && FitsAt(ps, before, events, |outputs|, out)
    ensures AllFit(ps, before, events, outputs + [out])
  {
    var all := outputs + [out];
    forall i: nat
      ensures i >= |all| || FitsAt(ps, before, events, i, all[i])
    {
      if i < |outputs| {
        assert all[i] == outputs[i];
      } else if i == |outputs| {
        assert all[i] == out;
      }
    }
  }

  lemma NextReplies(events: seq<Event>, outputs: seq<Output>, out: Output, replies0: seq<Reply>)
    requires |outputs| < |events|
    ensures var n := |outputs|;
      replies0 + RepliesFor(events, outputs + [out], n + 1)
      == (replies0 + RepliesFor(events, outputs, n)) + ReplyTo(events[n], out)
  {
    SameReplies(events, outputs, out, |outputs|);
  }

  lemma NextDone(ps: seq<Placement>, before: Payloads, replies0: seq<Reply>, events: seq<Event>, outputs: seq<Output>,
                 received: Payloads, replies: seq<Reply>, out: Output, received': Payloads, replies': seq<Reply>)
    requires |outputs| < |events| && Done(ps, before, replies0, events, outputs, received, replies)
    requires Fits(ps, received, events[|outputs|], out)
    requires received' == After(ps, before, MessagesIn(events, |outputs|) + NewMessage(events[|outputs|]))
    requires replies' == replies + ReplyTo(events[|outputs|], out)
    ensures Done(ps, before, replies0, events, outputs + [out], received', replies')
  {
    NextFits(ps, before, events, outputs, out);
    NextReplies(events, outputs, out, replies0);
  }

  /** The next of several events. */
  method Next(gateway: Gateway, mqtt: Subscriptions, events: seq<Event>, outputs: seq<Output>,
              ghost before: Payloads, ghost replies0: seq<Reply>)
    returns (outputs': seq<Output>)
    requires Joined(gateway, mqtt) && |outputs| < |events| && IsProper(gateway.placed, events[|outputs|])
    requires Done(gateway.placed, before, replies0, events, outputs, mqtt.received, gateway.server.mb.replies)
    modifies gateway.server`log, gateway.server.mb`replies, mqtt.Tables(), mqtt`received
    ensures Joined(gateway, mqtt) && |outputs'| == |outputs| + 1
    ensures Done(gateway.placed, before, replies0, events, outputs', mqtt.received, gateway.server.mb.replies)
  {
    var e := events[|outputs|];
    var out := Step(gateway, mqtt, e, before, MessagesIn(events, |outputs|));
    NextDone(gateway.placed, before, replies0, events, outputs, old(mqtt.received), old(gateway.server.mb.replies),
             out, mqtt.received, gateway.server.mb.replies);
    outputs' := outputs + [out];
  }

  /** Main result: what any events lead to, one after the other, and what the observers have then received. */
  method Run(gateway: Gateway, mqtt: Subscriptions, events: seq<Event>) returns (outputs: seq<Output>)
    requires Joined(gateway, mqtt) && forall i | 0 <= i < |events| :: IsProper(gateway.placed, events[i])
    modifies gateway.server`log, gateway.server.mb`replies, mqtt.Tables(), mqtt`received
    ensures Joined(gateway, mqtt) && |outputs| == |events|
    ensures Done(gateway.placed, old(mqtt.received), old(gateway.server.mb.replies), events, outputs,
                 mqtt.received, gateway.server.mb.replies)
  {
    outputs := [];
    ghost var before, replies0 := mqtt.received, gateway.server.mb.replies;
    NothingDone(gateway.placed, before, replies0, events);
    while |outputs| < |events|
      invariant Joined(gateway, mqtt) && |outputs| <= |events|
      invariant Done(gateway.placed, before, replies0, events, outputs, mqtt.received, gateway.server.mb.replies)
    {
      outputs := Next(gateway, mqtt, events, outputs, before, replies0);
    }
  }

  /** No observer has received anything. */
  function Unheard(ps: seq<Placement>): Payloads {
    seq(|ps|, _ => [])
  }

  lemma Heard(ps: seq<Placement>, messages: seq<Incoming>, i: nat)
    requires i < |ps|
    ensures After(ps, Unheard(ps), messages)[i] == OnTopic(messages, ps[i].topic)
  {
    assert Unheard(ps)[i] + OnTopic(messages, ps[i].topic) == OnTopic(messages, ps[i].topic);
  }

  /** The windows show what the messages among the events have made of them. */
  lemma AllShown(mqtt: Subscriptions, messages: seq<Incoming>)
    requires mqtt.Ready() && mqtt.received == After(mqtt.placed, Unheard(mqtt.placed), messages)
    ensures forall i | 0 <= i < |mqtt.placed| ::
      TableShows(mqtt.mb, mqtt.placed[i], OnTopic(messages, mqtt.placed[i].topic))
  {
    forall i | 0 <= i < |mqtt.placed|
      ensures TableShows(mqtt.mb, mqtt.placed[i], OnTopic(messages, mqtt.placed[i].topic))
    {
      Heard(mqtt.placed, messages, i);
      mqtt.HoldsLatest(i);
    }
  }

  /** Run, from when no message has come yet. */
  method RunFresh(gateway: Gateway, mqtt: Subscriptions, events: seq<Event>) returns (outputs: seq<Output>)
    requires Joined(gateway, mqtt) && forall i | 0 <= i < |events| :: IsProper(gateway.placed, events[i])
    requires mqtt.received == Unheard(gateway.placed) && gateway.server.mb.replies == []
    modifies gateway.server`log, gateway.server.mb`replies, mqtt.Tables(), mqtt`received
    ensures |outputs| == |events| && AllFit(gateway.placed, Unheard(gateway.placed), events, outputs)
    ensures gateway.server.mb.replies == RepliesFor(events, outputs, |events|)
    ensures forall i | 0 <= i < |gateway.placed| ::
      TableShows(gateway.server.mb, gateway.placed[i], OnTopic(MessagesIn(events, |events|), gateway.placed[i].topic))
  {
    outputs := Run(gateway, mqtt, events);
    AllShown(mqtt, MessagesIn(events, |events|));
  }

  /**
   * Main result: a configuration that is accepted, and then MQTT messages, reads and writes in any order. Every read is
   * answered from cells that show the messages that have come before it, every write of whole windows publishes their
   * values, every query gets one reply, in order, and in the end every window shows the messages of its topic.
   */
  method Operate(rs: Registers, events: seq<Event>) returns (r: Built, gateway: Gateway, outputs: seq<Output>)
    requires AllInSchema(rs) && AllFitting(PlacementsOf(rs, 4))
    requires forall i | 0 <= i < |events| :: IsProper(PlacementsOf(rs, 4), events[i])
    ensures r.Done? <==> Acceptable(rs)
    ensures r.Done? ==> |outputs| == |events|
    ensures r.Done? ==> AllFit(PlacementsOf(rs, 4), Unheard(PlacementsOf(rs, 4)), events, outputs)
    ensures r.Done? ==> gateway.server.mb.replies == RepliesFor(events, outputs, |events|)
    ensures r.Done? ==> forall i | 0 <= i < |PlacementsOf(rs, 4)| ::
      var p := PlacementsOf(rs, 4)[i];
      TableShows(gateway.server.mb, p, OnTopic(MessagesIn(events, |events|), p.topic))
  {
    var mqtt;
    r, gateway, mqtt := FromConfig(rs);
    outputs := [];
    if mqtt != null {
      outputs := RunFresh(gateway, mqtt, events);
    }
  }
}
