/**
 * The MQTT side of the gateway once the caches are allocated: messages arrive on topics and the subscribed observers
 * (src/observer.cpp) pack them into the cache tables they share.
 */
module Subscriptions {
  import opened Modbus
  import opened Dispatch
  import opened ModbusServer
  import opened Converters
  import opened Observers
  import opened Config
  import opened Windows

  datatype Incoming = Incoming(topic: Topic, payload: Payload)

  /** The payloads of the messages on a topic. */
  function OnTopic(messages: seq<Incoming>, topic: Topic): seq<Payload> {
    if messages == [] then []
    else
      var n := |messages| - 1;
      OnTopic(messages[..n], topic) + if messages[n].topic == topic then [messages[n].payload] else []
  }

  /** Every placement has received the messages of its topic. */
  ghost predicate Received(ps: seq<Placement>, before: seq<seq<Payload>>, messages: seq<Incoming>,
                           after: seq<seq<Payload>>) {
    |before| == |after| == |ps| && forall i | 0 <= i < |ps| :: after[i] == before[i] + OnTopic(messages, ps[i].topic)
  }

  /** Observers below n have received a message on a topic. */
  ghost predicate Reached(ps: seq<Placement>, before: seq<seq<Payload>>, message: Incoming, n: nat,
                          after: seq<seq<Payload>>) {
    && |before| == |after| == |ps|
    && forall i | 0 <= i < |ps| ::
         after[i] == if i < n && ps[i].topic == message.topic then before[i] + [message.payload] else before[i]
  }

  lemma AllReached(ps: seq<Placement>, before: seq<seq<Payload>>, messages: seq<Incoming>, mid: seq<seq<Payload>>,
                   n: nat, after: seq<seq<Payload>>)
    requires n < |messages| && Received(ps, before, messages[..n], mid) && Reached(ps, mid, messages[n], |ps|, after)
    ensures Received(ps, before, messages[..n + 1], after)
  {
    assert messages[..n + 1][..n] == messages[..n];
  }

  /** The observer a placement describes, pointing to its window. */
  ghost predicate PointsTo(obs: GatewayObserver, p: Placement)
    reads obs
  {
    && obs.conv == p.conv && obs.topic == p.topic && obs.number == p.number
    && obs.cache == Cache(Pointer(p.slot, p.address))
  }

  /** A fresh table with room for the cells of an observer. */
  ghost predicate HasRoom(table: array<int>, p: Placement)
    reads table
  {
    CellsEnd(p) <= table.Length && AllZero(table)
  }

  /** Every observer of the topic can read the payload as a number its converter can hold. */
  ghost predicate Legible(ps: seq<Placement>, message: Incoming) {
    forall i | 0 <= i < |ps| && ps[i].topic == message.topic :: Packable(ps[i].conv, ps[i].number(message.payload))
  }

  /** A window shows what messages made of its cells. */
  ghost predicate TableShows(mb: Backend, p: Placement, received: seq<Payload>)
    reads mb`mappings, if p.slot.unit in mb.mappings then {mb.TableOf(p.slot)} else {}
  {
    && p.slot.unit in mb.mappings && CellsEnd(p) <= mb.TableOf(p.slot).Length
    && ShowsMessages(p, mb.TableOf(p.slot)[p.address..CellsEnd(p)], received)
  }

  class Subscriptions {
    const mb: Backend
    const observers: seq<GatewayObserver>
    ghost const placed: seq<Placement>

    /** What every observer has received so far. */
    ghost var received: seq<seq<Payload>>

    constructor (mb: Backend, observers: seq<GatewayObserver>, ghost placed: seq<Placement>)
      requires mb.Valid() && |observers| == |placed| && CellsApart(placed)
      requires forall i | 0 <= i < |placed| :: PointsTo(observers[i], placed[i])
      requires forall i | 0 <= i < |placed| ::
        placed[i].slot.unit in mb.mappings && HasRoom(mb.TableOf(placed[i].slot), placed[i])
      ensures Ready() && this.mb == mb && this.observers == observers && this.placed == placed
      ensures received == seq(|placed|, _ => [])
    {
      this.mb, this.observers, this.placed := mb, observers, placed;
      received := seq(|placed|, _ => []);
      new;
      forall i | 0 <= i < |placed|
        ensures Holds(ContentsNow(), placed[i], received[i])
      {
        assert HasRoom(mb.TableOf(placed[i].slot), placed[i]);
      }
    }

    ghost function Tables(): set<object>
      reads mb`mappings
    {
      set u, store: StoreType | u in mb.mappings :: mb.TableOf(Slot(u, store))
    }

    ghost function ContentsNow(): Contents
      reads mb`mappings, Tables()
    {
      imap slot: Slot | slot.unit in mb.mappings :: mb.TableOf(slot)[..]
    }

    /** Every observer points to its window, and every window shows what its observer received. */
    ghost predicate Ready()
      reads this, mb`mappings, observers, Tables()
    {
      && mb.Valid() && |observers| == |placed|
      && (forall i | 0 <= i < |placed| :: PointsTo(observers[i], placed[i]))
      && AllHold(ContentsNow(), placed, received)
    }

    /** OnMessage of one observer, in terms of its placement. */
    static method PackTable(obs: GatewayObserver, ghost p: Placement, table: array<int>, payload: Payload)
      requires PointsTo(obs, p) && Packable(p.conv, p.number(payload)) && AllWords(table[..])
      requires p.address + Footprint(p.conv) <= table.Length
      modifies table
      ensures var was := old(table[..]); var cells := was[p.address..p.address + Footprint(p.conv)];
        table[..] == Spliced(was, p.address, Packed(p.conv, cells, p.number(payload), payload))
    {
      ghost var was := table[..];
      assert table[p.address..p.address + Footprint(p.conv)] == was[p.address..p.address + Footprint(p.conv)];
      obs.OnMessage(table, payload);
    }

    /** OnMessage of one observer, in terms of all the tables. */
    method PackInto(obs: GatewayObserver, ghost p: Placement, ghost messages: seq<Payload>, payload: Payload)
      requires mb.Valid() && PointsTo(obs, p) && Holds(ContentsNow(), p, messages)
      requires Packable(p.conv, p.number(payload))
      modifies mb.TableOf(p.slot)
      ensures ContentsNow() == old(AfterMessage(ContentsNow(), p, messages, payload))
    {
      ghost var contents := ContentsNow();
      var table := mb.TableOf(obs.cache.cell.slot);
      assert contents[p.slot] == table[..];
      PackTable(obs, p, table, payload);
      assert table[..] == AfterMessage(contents, p, messages, payload)[p.slot];
    }

    /** An MQTT message reaches one observer. */
    method DeliverTo(i: nat, payload: Payload)
      requires Ready() && i < |observers| && Packable(placed[i].conv, placed[i].number(payload))
      modifies mb.TableOf(placed[i].slot), this`received
      ensures Ready() && received == old(received)[i := old(received)[i] + [payload]]
    {
      assert PointsTo(observers[i], placed[i]) && Holds(ContentsNow(), placed[i], received[i]);
      MessageStep(ContentsNow(), placed, received, i, payload);
      PackInto(observers[i], placed[i], received[i], payload);
      received := received[i := received[i] + [payload]];
    }

    /** An MQTT message reaches all observers subscribed to its topic. */
    method Deliver(message: Incoming)
      requires Ready() && Legible(placed, message)
      modifies Tables(), this`received
      ensures Ready() && Reached(placed, old(received), message, |placed|, received)
    {
      for i := 0 to |observers|
        invariant Ready() && Reached(placed, old(received), message, i, received)
      {
        assert PointsTo(observers[i], placed[i]) && Holds(ContentsNow(), placed[i], received[i]);
        if observers[i].topic == message.topic {
          DeliverTo(i, message.payload);
        }
      }
    }

    /** Main result: any run of messages leaves every window with what its own topic's messages made of it. */
    method Run(messages: seq<Incoming>)
      requires Ready() && forall k | 0 <= k < |messages| :: Legible(placed, messages[k])
      modifies Tables(), this`received
      ensures Ready() && Received(placed, old(received), messages, received)
    {
      assert messages[..0] == [];
      for n := 0 to |messages|
        invariant Ready() && Received(placed, old(received), messages[..n], received)
      {
        ghost var mid := received;
        Deliver(messages[n]);
        AllReached(placed, old(received), messages, mid, n, received);
      }
      assert messages[..|messages|] == messages;
    }

    /**
     * Main result: whenever an observer has received messages, its window holds the latest of them packed into zeros,
     * provided that overwrites the cells. The window can be read exactly if the number is recoverable, and then reading
     * it gives that message back.
     */
    lemma HoldsLatest(i: nat)
      requires Ready() && i < |placed|
      ensures TableShows(mb, placed[i], received[i])
    {
      var contents := ContentsNow();
      assert Holds(contents, placed[i], received[i]);
      HeldIsShown(contents, placed[i], received[i]);
    }
  }
}
