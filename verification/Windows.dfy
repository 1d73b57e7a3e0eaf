/**
 * What the cells of a window hold after a run of messages, and where announced windows begin.
 */
module Windows {
  import opened AddressRange
  import opened Modbus
  import opened Dispatch
  import opened ModbusServer
  import opened Converters
  import opened ByteConverters
  import opened Observers
  import opened Config

  function Zeros(n: nat): (s: seq<int>)
    ensures |s| == n && AllWords(s)
  {
    seq(n, _ => 0)
  }

  ghost predicate AllPackable(p: Placement, received: seq<Payload>) {
    forall i | 0 <= i < |received| :: Packable(p.conv, p.number(received[i]))
  }

  /** The cells a converter uses after all messages received, the tables being zero at the start. */
  ghost function History(p: Placement, received: seq<Payload>): (w: seq<int>)
    requires AllPackable(p, received)
    ensures |w| == Footprint(p.conv) && AllWords(w)
  {
    if received == [] then Zeros(Footprint(p.conv))
    else
      var last := received[|received| - 1];
      Packed(p.conv, History(p, received[..|received| - 1]), p.number(last), last)
  }

  lemma {:induction false} OtherBytesStayZero(p: Placement, received: seq<Payload>)
    requires AllPackable(p, received) && p.conv.Text?
    ensures forall k | 0 <= k < p.conv.size :: ByteOf(History(p, received)[k], !p.conv.byteSwap) == 0
  {
    if received != [] {
      var n := |received| - 1;
      OtherBytesStayZero(p, received[..n]);
      OtherBytesKept(p.conv, History(p, received[..n]), received[n]);
    }
  }

  /**
   * Main result: after any run of messages the cells hold what packing the latest one into zeros gives, provided
   * it overwrites the cells; nothing of earlier messages shows.
   */
  lemma LatestOnly(p: Placement, received: seq<Payload>)
    requires AllPackable(p, received) && received != [] && Overwrites(p.conv, received[|received| - 1])
    ensures var last := received[|received| - 1];
            History(p, received) == Packed(p.conv, Zeros(Footprint(p.conv)), p.number(last), last)
  {
    var n := |received| - 1;
    if p.conv.Text? {
      OtherBytesStayZero(p, received[..n]);
      FullyOverwritten(p.conv, History(p, received[..n]), Zeros(p.conv.size), received[n]);
    }
  }

  /** Writing one window leaves a disjoint one alone. */
  lemma SplicedApart(s: seq<int>, at: nat, w: seq<int>, b: nat, n: nat)
    requires at + |w| <= |s| && b + n <= |s| && (b + n <= at || at + |w| <= b)
    ensures Spliced(s, at, w)[b..b + n] == s[b..b + n]
  {
  }

  lemma SplicedHere(s: seq<int>, at: nat, w: seq<int>)
    requires at + |w| <= |s|
    ensures Spliced(s, at, w)[at..at + |w|] == w
    ensures AllWords(s) && AllWords(w) ==> AllWords(Spliced(s, at, w))
  {
  }

  /** Every segment is the window of its observer. */
  ghost predicate Segmented(m: Segments<ObserverId>, ps: seq<Placement>, store: StoreType) {
    forall k | k in m ::
      && m[k].param < |ps| && ps[m[k].param].slot.store == store
      && k == Start(ps[m[k].param]) && m[k].hi == k + ps[m[k].param].width
  }

  /** The segments with one more window. */
  function WithWindow(m: Segments<ObserverId>, p: Placement, o: ObserverId): Segments<ObserverId> {
    m[Start(p) := Entry(Start(p) + p.width, o)]
  }

  /** A segment begins where a window begins. */
  lemma WindowBegins(m: Segments<ObserverId>, labels: imap<int, ObserverId>, ps: seq<Placement>, i: nat)
    requires Represents(m, labels) && Solid(m) && i < |ps| && Placeable(ps[i]) && IsPlaced(labels, ps, ps[i].slot.store)
    ensures Start(ps[i]) in m && m[Start(ps[i])].param == i
  {
    var lo, store := Start(ps[i]), ps[i].slot.store;
    assert Occupies(ps[i], store, lo) && lo in labels;
    var k :| Covers(m, k, lo);
    assert Covers(m, k, k) && labels[k] == i && LabelIsPlaced(labels, ps, store, k);
    assert Occupies(ps[i], store, k);
  }

  /** Every segment labelled with an observer lies in its window. */
  lemma SegmentInWindow(m: Segments<ObserverId>, labels: imap<int, ObserverId>, ps: seq<Placement>, store: StoreType,
                        k: int)
    requires Represents(m, labels) && Solid(m) && IsPlaced(labels, ps, store) && k in m
    ensures m[k].param < |ps| && Occupies(ps[m[k].param], store, k)
  {
    assert Covers(m, k, k) && LabelIsPlaced(labels, ps, store, k);
  }

  /** Main result: the cache range announced to an observer begins with the first cell of its own window. */
  lemma AnnouncedWindow(m: Segments<ObserverId>, labels: imap<int, ObserverId>, ps: seq<Placement>, c: Call)
    requires Represents(m, labels) && Solid(m) && AllPlaceable(ps)
    requires c.CacheAllocate? && Announces(m, c) && IsPlaced(labels, ps, c.slot.store)
    ensures c.obs < |ps| && c.slot == ps[c.obs].slot
    ensures var a := ps[c.obs].address; IsFirst(c.windows, a) && c.windows[a].param == Pointer(c.slot, a)
  {
    var o, store := c.obs, c.slot.store;
    forall a | a in c.windows
      ensures o < |ps| && Occupies(ps[o], store, Base(c.slot.unit) + a)
    {
      SegmentInWindow(m, labels, ps, store, Base(c.slot.unit) + a);
    }
    var a :| a in c.windows;
    assert Placeable(ps[o]);
    SameUnit(ps[o], store, c.slot.unit, a);
    WindowBegins(m, labels, ps, o);
  }

  lemma SameUnit(p: Placement, store: StoreType, unit: Byte, a: int)
    requires Placeable(p) && 0 <= a < 65536 && Occupies(p, store, Base(unit) + a)
    ensures p.slot == Slot(unit, store)
  {
  }

  /** The contents of all cache tables. */
  type Contents = imap<Slot, seq<int>>

  /** The cells are inside the table and show the messages received. */
  ghost predicate Holds(contents: Contents, p: Placement, received: seq<Payload>) {
    && p.slot in contents && CellsEnd(p) <= |contents[p.slot]| && AllWords(contents[p.slot])
    && AllPackable(p, received)
    && contents[p.slot][p.address..p.address + Footprint(p.conv)] == History(p, received)
  }

  ghost predicate AllHold(contents: Contents, ps: seq<Placement>, received: seq<seq<Payload>>) {
    |received| == |ps| && CellsApart(ps) && forall i | 0 <= i < |ps| :: Holds(contents, ps[i], received[i])
  }

  /** The contents after one observer has packed a message into its cells. */
  ghost function AfterMessage(contents: Contents, p: Placement, received: seq<Payload>, payload: Payload): Contents
    requires Holds(contents, p, received) && Packable(p.conv, p.number(payload))
  {
    var cells := Packed(p.conv, History(p, received), p.number(payload), payload);
    contents[p.slot := Spliced(contents[p.slot], p.address, cells)]
  }

  lemma OwnCells(contents: Contents, p: Placement, received: seq<Payload>, payload: Payload)
    requires Holds(contents, p, received) && Packable(p.conv, p.number(payload))
    ensures Holds(AfterMessage(contents, p, received, payload), p, received + [payload])
  {
  }

  lemma OtherCells(contents: Contents, p: Placement, received: seq<Payload>, payload: Payload, q: Placement,
                   others: seq<Payload>)
    requires Holds(contents, p, received) && Packable(p.conv, p.number(payload))
    requires Holds(contents, q, others) && !ShareCells(p, q)
    ensures Holds(AfterMessage(contents, p, received, payload), q, others)
  {
    if p.slot == q.slot {
      var cells := Packed(p.conv, History(p, received), p.number(payload), payload);
      SplicedHere(contents[p.slot], p.address, cells);
      SplicedApart(contents[p.slot], p.address, cells, q.address, Footprint(q.conv));
    }
  }

  /** Main result: a message changes the window of its observer as Pack does, and no other window. */
  lemma MessageStep(contents: Contents, ps: seq<Placement>, received: seq<seq<Payload>>, i: nat, payload: Payload)
    requires AllHold(contents, ps, received) && i < |ps| && Packable(ps[i].conv, ps[i].number(payload))
    ensures AllHold(AfterMessage(contents, ps[i], received[i], payload), ps, received[i := received[i] + [payload]])
  {
    OwnCells(contents, ps[i], received[i], payload);
    forall j | 0 <= j < |ps| && j != i
      ensures Holds(AfterMessage(contents, ps[i], received[i], payload), ps[j], received[j])
    {
      assert !ShareCells(ps[i], ps[j]) by {
        if i < j { assert !ShareCells(ps[i], ps[j]); } else { assert !ShareCells(ps[j], ps[i]); }
      }
      OtherCells(contents, ps[i], received[i], payload, ps[j], received[j]);
    }
  }

  /**
   * cells are a message packed into zeros; they can be read exactly if the number is recoverable, and reading them then
   * gives that message back.
   */
  ghost predicate Shows(p: Placement, cells: seq<int>, message: Payload) {
    var number := p.number(message);
    && Proper(p.conv) && Packable(p.conv, number)
    && cells == Packed(p.conv, Zeros(Footprint(p.conv)), number, message)
    && (Unpackable(p.conv, cells) <==> Recoverable(p.conv, number))
    && (Recoverable(p.conv, number) ==>
          Unpacked(p.conv, cells) == Surviving(p.conv, Zeros(Footprint(p.conv)), number, message))
  }

  lemma LatestShown(p: Placement, received: seq<Payload>)
    requires AllPackable(p, received) && received != [] && Overwrites(p.conv, received[|received| - 1])
    ensures Shows(p, History(p, received), received[|received| - 1])
  {
    var last := received[|received| - 1];
    LatestOnly(p, received);
    PackedReadsBack(p.conv, Zeros(Footprint(p.conv)), p.number(last), last);
  }

  /** Cells that show what the messages of a topic made of them: the latest of them alone, where it overwrites them. */
  ghost predicate ShowsMessages(p: Placement, cells: seq<int>, received: seq<Payload>) {
    && AllPackable(p, received) && cells == History(p, received)
    && (received != [] && Overwrites(p.conv, received[|received| - 1]) ==> Shows(p, cells, received[|received| - 1]))
  }

  lemma HistoryIsShown(p: Placement, received: seq<Payload>)
    requires AllPackable(p, received)
    ensures ShowsMessages(p, History(p, received), received)
  {
    if received != [] && Overwrites(p.conv, received[|received| - 1]) {
      LatestShown(p, received);
    }
  }

  lemma HeldIsShown(contents: Contents, p: Placement, received: seq<Payload>)
    requires Holds(contents, p, received)
    ensures ShowsMessages(p, contents[p.slot][p.address..CellsEnd(p)], received)
  {
    HistoryIsShown(p, received);
  }

  /**
   * A size the converter rounds up breaks this: a signed entry of size 3 observes one register but packs two, so a
   * message on its topic overwrites the neighbouring entry, although the configuration is accepted.
   */
  lemma RoundedSizeOverwrites(number: Payload -> int, text: Payload)
    ensures var wide := Item(true, 0, 1, "d/wide", "signed", 3, false, false, number);
      var next := Item(true, 1, 1, "d/next", "unsigned", 2, false, false, number);
      && InSchema(HoldingRegister, wide) && InSchema(HoldingRegister, next)
      && var p, q := PlacementOf(HoldingRegister, wide), PlacementOf(HoldingRegister, next);
         && Placeable(p) && Placeable(q) && Disjoint([p, q]) && Packable(p.conv, 1)
         && Footprint(p.conv) == 2 && q.address == 1
         && Spliced([0, 7], p.address, Packed(p.conv, [0, 7], 1, text)) == [0, 1]
  {
  }
}
