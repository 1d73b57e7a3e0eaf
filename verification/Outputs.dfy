/**
 * What the outputs of a run of the gateway (Operation.Operate) mean for the entries of its configuration.
 */
module Outputs {
  import opened Modbus
  import opened Dispatch
  import opened Converters
  import opened Observers
  import opened Config
  import opened Windows
  import opened Writes
  import opened Acceptance
  import opened Gateway
  import opened Operation
  import opened Entries

  /** A row of windows leaves no address out. */
  lemma {:induction false} RowReaches(ps: seq<Placement>, run: seq<nat>, slot: Slot, start: int, end: int, a: int,
                                      n: nat)
    returns (i: nat)
    requires IsRow(ps, run, slot, start, end) && n < |run| && start <= a < EndOf(ps[run[n]])
    ensures i < |run| && ps[run[i]].address <= a < EndOf(ps[run[i]])
  {
    i := n;
    if a < ps[run[n]].address {
      i := RowReaches(ps, run, slot, start, end, a, n - 1);
    }
  }

  /** A window that begins in the row is one of it, where windows do not overlap. */
  lemma IsInRow(ps: seq<Placement>, run: seq<nat>, slot: Slot, start: int, end: int, j: nat) returns (i: nat)
    requires IsRow(ps, run, slot, start, end) && Disjoint(ps)
    requires j < |ps| && ps[j].slot == slot && ps[j].width > 0 && start <= ps[j].address < end
    ensures i < |run| && run[i] == j
  {
    i := RowReaches(ps, run, slot, start, end, ps[j].address, |run| - 1);
    assert ps[run[i]].slot == slot && Overlap(ps[run[i]], ps[j]) && Overlap(ps[j], ps[run[i]]);
  }

  /** Some entry of the configuration is published by m. */
  ghost predicate IsPublishedEntry(rs: Registers, r: Request, m: Message) {
    exists store, item :: IsEntry(rs, store, item) && HasFormat(store, item) && Publishes(store, item, r, m)
  }

  /** An enabled entry of the configuration begins among the addresses of a request. */
  ghost predicate IsReached(rs: Registers, r: Request, store: StoreType, item: Item) {
    && IsEntry(rs, store, item) && HasFormat(store, item)
    && r.slot.store == store && r.slot.unit == item.unit && r.start <= item.address < r.start + r.count
  }

  /** One of the messages publishes the entry. */
  ghost predicate IsAmong(messages: seq<Message>, store: StoreType, item: Item, r: Request) {
    exists i :: 0 <= i < |messages| && Publishes(store, item, r, messages[i])
  }

  /** An entry reached is published by the message of its window. */
  lemma EntryIsPublished(rs: Registers, run: seq<nat>, r: Request, published: seq<Message>, store: StoreType,
                         item: Item)
    returns (i: nat)
    requires AllInSchema(rs) && AllPlaceable(PlacementsOf(rs, 4)) && Disjoint(PlacementsOf(rs, 4))
    requires r.Write? && CoversRow(PlacementsOf(rs, 4), run, r)
    requires |published| == |run| && IsPublished(PlacementsOf(rs, 4), run, r, published)
    requires IsReached(rs, r, store, item)
    ensures i < |published| && Publishes(store, item, r, published[i])
  {
    var ps := PlacementsOf(rs, 4);
    EntryHasWindow(rs, store, item);
    var p :| p in ps && IsWindowFor(p, store, item);
    var j :| 0 <= j < |ps| && ps[j] == p;
    assert Placeable(ps[j]);
    i := IsInRow(ps, run, r.slot, r.start, r.start + r.count, j);
    assert HasValue(p, r) && published[i] == MessageFor(p, r);
    SameValues(p, store, item, r);
    ReadMeans(p.conv, store, item, ValuesFor(p, r));
  }

  /**
   * Main result: the output of a write that is not refused publishes entries of the configuration only, and every
   * enabled entry that begins among the addresses written.
   */
  lemma OutputMeans(rs: Registers, received: Payloads, r: Request, out: Output)
    requires AllInSchema(rs) && AllPlaceable(PlacementsOf(rs, 4)) && Acceptable(rs)
    requires r.Write? && IsOutput(PlacementsOf(rs, 4), received, r, out) && out != Refused
    ensures out.Published? && forall i | 0 <= i < |out.messages| :: IsPublishedEntry(rs, r, out.messages[i])
    ensures forall store, item | IsReached(rs, r, store, item) :: IsAmong(out.messages, store, item, r)
  {
    var ps := PlacementsOf(rs, 4);
    var run :| IsWhole(ps, run, r) && |out.messages| == |run| && IsPublished(ps, run, r, out.messages);
    forall i | 0 <= i < |out.messages|
      ensures IsPublishedEntry(rs, r, out.messages[i])
    {
      var store, item := PublishedIsMeant(rs, run, r, out.messages, i);
    }
    AcceptedIsDisjoint(ps);
    forall store, item | IsReached(rs, r, store, item)
      ensures IsAmong(out.messages, store, item, r)
    {
      var i := EntryIsPublished(rs, run, r, out.messages, store, item);
    }
  }

  /** The cells a read returns for a window that lies in it. */
  lemma ReadsWindow(r: Request, cells: seq<int>, p: Placement, received: seq<Payload>, at: nat, n: nat)
    requires ShowsWindow(r, cells, p, received) && |cells| == r.count
    requires at == p.address - r.start && n == Footprint(p.conv) && at + n <= |cells|
    ensures cells[at..at + n] == History(p, received)
  {
    forall k | 0 <= k < n
      ensures cells[at..at + n][k] == History(p, received)[k]
    {
      assert cells[p.address + k - r.start] == History(p, received)[k];
    }
  }

  /** The latest message received, where it overwrites what was there. */
  ghost predicate IsLatest(p: Placement, received: seq<Payload>, message: Payload) {
    received != [] && message == received[|received| - 1] && Overwrites(p.conv, message)
  }

  /** The cells are what that message leaves in those of the entry. */
  ghost predicate AreLatest(cells: seq<int>, p: Placement, received: seq<Payload>, store: StoreType, item: Item) {
    && |cells| == CellCount(store, item)
    && forall message | IsLatest(p, received, message) ::
         IsLeft(store, item, Zeros(|cells|), item.number(message), message, cells)
  }

  lemma LatestIn(cells: seq<int>, p: Placement, received: seq<Payload>, store: StoreType, item: Item)
    requires AllPackable(p, received) && cells == History(p, received) && IsWindowFor(p, store, item)
    ensures AreLatest(cells, p, received, store, item)
  {
    HistoryIsShown(p, received);
    if received != [] && Overwrites(p.conv, received[|received| - 1]) {
      LatestIsLeft(p, store, item, cells, received);
    }
  }

  lemma WindowShowsLatest(r: Request, cells: seq<int>, p: Placement, received: seq<Payload>, store: StoreType,
                          item: Item)
    returns (w: seq<int>)
    requires ShowsWindow(r, cells, p, received) && |cells| == r.count && IsWindowFor(p, store, item)
    requires r.start <= item.address && item.address - r.start + CellCount(store, item) <= r.count
    ensures w == cells[item.address - r.start..item.address - r.start + CellCount(store, item)]
    ensures AreLatest(w, p, received, store, item)
  {
    var at, n := item.address - r.start, CellCount(store, item);
    ReadsWindow(r, cells, p, received, at, n);
    w := cells[at..at + n];
    LatestIn(w, p, received, store, item);
  }

  lemma OutputShows(ps: seq<Placement>, received: Payloads, r: Request, out: Output, j: nat)
    requires r.Read? && IsOutput(ps, received, r, out) && out != Refused && j < |ps| && ps[j].slot == r.slot
    ensures out.Cells? && |out.cells| == r.count && j < |received| && ShowsWindow(r, out.cells, ps[j], received[j])
  {
  }

  /**
   * Main result: a read that is not refused returns, for an entry that lies in it, what the latest message received for
   * it leaves in its cells, where that message overwrites what was there.
   */
  lemma ReadShowsLatest(ps: seq<Placement>, received: Payloads, r: Request, out: Output, j: nat, store: StoreType,
                        item: Item)
    returns (cells: seq<int>)
    requires r.Read? && IsOutput(ps, received, r, out) && out != Refused
    requires j < |ps| && ps[j].slot == r.slot && IsWindowFor(ps[j], store, item)
    requires r.start <= item.address && item.address - r.start + CellCount(store, item) <= r.count
    ensures out.Cells? && |out.cells| == r.count && j < |received|
    ensures cells == out.cells[item.address - r.start..item.address - r.start + CellCount(store, item)]
    ensures AreLatest(cells, ps[j], received[j], store, item)
  {
    OutputShows(ps, received, r, out, j);
    cells := WindowShowsLatest(r, out.cells, ps[j], received[j], store, item);
  }
}
