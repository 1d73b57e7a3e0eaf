/**
 * TGatewayObserver of src/observer.cpp: one MQTT topic, its converter, and the cells of the cache it writes. What a
 * message's text means as a number, scale included, is a parameter: number gives the scaled integer, or the bits of
 * a float, or for a discrete value the integer whose truth counts.
 */
module Observers {
  import opened AddressRange
  import opened Modbus
  import opened Dispatch
  import opened ModbusServer
  import opened Converters
  import opened ByteConverters

  type Topic = string
  type Payload = seq<Byte>

  /** The number a payload stands for is one the converter can hold. */
  predicate Packable(c: Converter, number: int) {
    match c
    case Integer(kind, size, _, _) => Proper(c) && InRange(kind, size, number)
    case Float(size, _, _) => Proper(c) && 0 <= number < Limit(size / 2)
    case _ => true
  }

  /** The cells after packing. */
  function Packed(c: Converter, was: seq<int>, number: int, text: Payload): (w: seq<int>)
    requires Packable(c, number) && |was| == Footprint(c) && AllWords(was)
    ensures |w| == Footprint(c) && AllWords(w)
  {
    match c
    case Discr => [if number != 0 then 1 else 0]
    case Integer(_, _, _, _) => IntegerRoundTrip(c, number); IntegerRegisters(c, number)
    case Float(_, _, _) => FloatRoundTrip(c, number); FloatRegisters(c, number)
    case Text(_, _, _) =>
      OtherBytesKept(c, was, text);
      TextRegisters(c, was, text)
  }

  /** Pack() of any converter, on the cells of data from at on. */
  method Pack(c: Converter, number: int, text: Payload, data: array<int>, at: nat)
    requires Packable(c, number) && AllWords(data[..]) && at + Footprint(c) <= data.Length
    modifies data
    ensures data[..] == Spliced(old(data[..]), at, Packed(c, old(data[at..at + Footprint(c)]), number, text))
  {
    match c
    case Discr => data[at] := if number != 0 then 1 else 0;
    case Integer(_, _, _, _) => PackInteger(c, number, data, at);
    case Float(_, _, _) => PackFloat(c, number, data, at);
    case Text(_, _, _) => PackText(c, text, data, at);
  }

  /** What Unpack reads, before it is written as text. */
  datatype Reading = Number(value: int) | Characters(text: seq<int>)

  /** Unpack can read the registers: it overflows an int on BCD of more than nine digits. */
  predicate Unpackable(c: Converter, w: seq<int>)
    requires AllWords(w)
  {
    c.Integer? ==> Decodable(c, w)
  }

  function Unpacked(c: Converter, w: seq<int>): Reading
    requires Proper(c) && |w| == Footprint(c) && AllWords(w) && Unpackable(c, w)
  {
    match c
    case Discr => Number(if w[0] != 0 then 1 else 0)
    case Integer(_, _, _, _) => Number(IntegerValue(c, w))
    case Float(_, _, _) => Number(FloatBits(c, w))
    case Text(_, _, _) => Characters(TextValue(c, w))
  }

  /** Unpack() of any converter. */
  method Unpack(c: Converter, data: array<int>) returns (r: Reading)
    requires Proper(c) && AllWords(data[..]) && Footprint(c) <= data.Length
    requires Unpackable(c, data[..Footprint(c)])
    ensures r == Unpacked(c, data[..Footprint(c)])
  {
    match c
    case Discr => r := Number(if data[0] != 0 then 1 else 0);
    case Integer(_, _, _, _) =>
      var value := UnpackInteger(c, data, 0);
      r := Number(value);
    case Float(_, _, _) =>
      var bits := UnpackFloat(c, data, 0);
      r := Number(bits);
    case Text(_, _, _) =>
      var text := UnpackText(c, data, 0);
      r := Characters(text);
  }

  /** What a reader of the cells gets back of a message; of text, what it does not overwrite shows behind it. */
  function Surviving(c: Converter, was: seq<int>, number: int, text: Payload): Reading
    requires |was| == Footprint(c)
  {
    match c
    case Discr => Number(if number != 0 then 1 else 0)
    case Integer(kind, size, _, _) => Number(Kept(kind, size / 2, number))
    case Float(_, _, _) => Number(number)
    case Text(size, _, _) => Characters(UpToNul(Overlaid(Extracted(text, size), ByteConverters.Characters(c, was))))
  }

  /** Nothing of what the cells held shows after packing; ByteConverters.OverwritesExactly says why for text. */
  predicate Overwrites(c: Converter, text: Payload) {
    c.Text? ==> Fills(text, c.size)
  }

  /** What is kept of a BCD number has at most nine digits. */
  predicate Recoverable(c: Converter, number: int) {
    c.Integer? ==> ReadsBack(c.kind, c.size / 2, number)
  }

  /**
   * Main result: for every kind of converter the cells can be unpacked exactly if the number is recoverable, and then
   * Unpack undoes Pack, but for text that does not overwrite what the cells held before.
   */
  lemma PackedReadsBack(c: Converter, was: seq<int>, number: int, text: Payload)
    requires Packable(c, number) && Proper(c) && |was| == Footprint(c) && AllWords(was)
    ensures Unpackable(c, Packed(c, was, number, text)) <==> Recoverable(c, number)
    ensures Recoverable(c, number) ==> Unpacked(c, Packed(c, was, number, text)) == Surviving(c, was, number, text)
  {
    match c
    case Discr =>
    case Integer(_, _, _, _) => IntegerRoundTrip(c, number);
    case Float(_, _, _) => FloatRoundTrip(c, number);
    case Text(_, _, _) => TextReadsBack(c, was, text);
  }

  /** The cells of a converter. */
  predicate CellsOf(c: Converter, w: seq<int>) {
    Proper(c) && |w| == Footprint(c) && AllWords(w)
  }

  /** Unpack makes the same of both, if it can read them. */
  predicate ReadsSame(c: Converter, w: seq<int>, w': seq<int>)
    requires CellsOf(c, w) && CellsOf(c, w')
  {
    && (Unpackable(c, w) <==> Unpackable(c, w'))
    && (Unpackable(c, w) ==> Unpacked(c, w) == Unpacked(c, w'))
  }

  predicate AgreeUpTo(w: seq<int>, w': seq<int>, count: nat) {
    forall i | 0 <= i < count && i < |w| && i < |w'| :: w[i] == w'[i]
  }

  /** What Unpack makes of cells is determined by the first count of them. */
  ghost predicate DependsOnFirst(c: Converter, count: nat) {
    forall w, w' | CellsOf(c, w) && CellsOf(c, w') && AgreeUpTo(w, w', count) :: ReadsSame(c, w, w')
  }

  /** Cells that agree on the first count but are not read the same. */
  lemma Differing(c: Converter, count: nat) returns (w: seq<int>, w': seq<int>)
    requires Proper(c) && count < Footprint(c)
    ensures CellsOf(c, w) && CellsOf(c, w') && AgreeUpTo(w, w', count) && !ReadsSame(c, w, w')
  {
    var n := Footprint(c);
    w := seq(n, _ => if c.Text? then 24929 else 0);
    w' := w[count := if c.Text? then 25186 else 1];
    assert w[count] != w'[count];
    match c
    case Discr =>
    case Integer(_, _, _, _) =>
      ZeroWord(w, c.byteSwap, c.wordSwap);
      if Decodable(c, w') {
        OnlyZeroIsZero(c, w);
        OnlyZeroIsZero(c, w');
      }
    case Float(_, _, _) =>
      SwapsInvolute(w);
      SwapsInvolute(w');
      if FloatBits(c, w) == FloatBits(c, w') {
        WordDetermines(SwappedBytes(w), SwappedBytes(w'), c.byteSwap, c.wordSwap);
      }
    case Text(_, _, _) => TextsDiffer(c, w, w', count);
  }

  lemma TextsDiffer(c: Converter, w: seq<int>, w': seq<int>, count: nat)
    requires c.Text? && |w| == |w'| == c.size && count < c.size
    requires forall i | 0 <= i < c.size :: ByteOf(w[i], c.byteSwap) != 0 && ByteOf(w'[i], c.byteSwap) != 0
    requires ByteOf(w[count], c.byteSwap) != ByteOf(w'[count], c.byteSwap)
    ensures TextValue(c, w) != TextValue(c, w')
  {
    var chars, chars' := ByteConverters.Characters(c, w), ByteConverters.Characters(c, w');
    LengthIs(chars, c.size);
    LengthIs(chars', c.size);
    assert chars[PlaceOf(c, count)] != chars'[PlaceOf(c, count)];
  }

  /**
   * Unpack() is given the number of cells a request writes and ignores it: what it makes of them depends on these cells
   * alone exactly if they are at least as many as the converter's.
   */
  lemma DependsOnSliceExactly(c: Converter, count: nat)
    requires Proper(c)
    ensures DependsOnFirst(c, count) <==> count >= Footprint(c)
  {
    if count >= Footprint(c) {
      forall w, w' | CellsOf(c, w) && CellsOf(c, w') && AgreeUpTo(w, w', count)
        ensures ReadsSame(c, w, w')
      {
        assert w == w';
      }
    } else {
      var w, w' := Differing(c, count);
    }
  }

  /** Writing only the high register of an unsigned 32-bit value, 5, publishes a value that depends on what follows. */
  lemma HalfWritten()
    ensures var c := Integer(Unsigned, 4, false, false);
      && CellsOf(c, [5, 7]) && CellsOf(c, [5, 8]) && AgreeUpTo([5, 7], [5, 8], 1)
      && Unpacked(c, [5, 7]) == Number(327687) && Unpacked(c, [5, 8]) == Number(327688)
  {
    var c := Integer(Unsigned, 4, false, false);
    HighRegisterFirst(5, 7);
    HighRegisterFirst(5, 8);
    IntegerRoundTrip(c, 327687);
    IntegerRoundTrip(c, 327688);
  }

  /** A message on an MQTT topic. */
  datatype Message = Message(topic: Topic, reading: Reading, qos: nat, retained: bool)

  /** The pointer to the Modbus cache area: none until the cache is allocated. */
  datatype CachePointer = NoCache | Cache(cell: Pointer)

  /** range.cbegin() */
  ghost predicate IsFirst(windows: Segments<Pointer>, a: int) {
    a in windows && forall b | b in windows :: a <= b
  }

  method FirstWindow(windows: Segments<Pointer>) returns (a: int)
    requires exists z :: z in windows
    ensures IsFirst(windows, a)
  {
    LeastWindow(windows);
    a :| a in windows && forall b | b in windows :: a <= b;
  }

  lemma LeastWindow(windows: Segments<Pointer>)
    requires exists z :: z in windows
    ensures exists a :: a in windows && forall b | b in windows :: a <= b
  {
    var z :| z in windows;
    var first, _ := ExtremeKeys(windows.Keys, z);
    assert first in windows && forall b | b in windows :: first <= b;
  }

  class GatewayObserver {
    const conv: Converter
    const topic: Topic
    const number: Payload -> int
    var cache: CachePointer

    constructor (topic: Topic, conv: Converter, number: Payload -> int)
      ensures this.topic == topic && this.conv == conv && this.number == number && cache == NoCache
    {
      this.topic, this.conv, this.number, cache := topic, conv, number, NoCache;
    }

    /** OnCacheAllocate: remembers where the first window begins. */
    method OnCacheAllocate(windows: Segments<Pointer>)
      requires exists z :: z in windows
      modifies this`cache
      ensures exists a :: IsFirst(windows, a) && cache == Cache(windows[a].param)
    {
      var a := FirstWindow(windows);
      cache := Cache(windows[a].param);
    }

    /** OnMessage: packs an MQTT message into the table the cache pointer leads into. */
    method OnMessage(table: array<int>, payload: Payload)
      requires Packable(conv, number(payload)) && AllWords(table[..])
      requires cache.Cache? ==> 0 <= cache.cell.index <= cache.cell.index + Footprint(conv) <= table.Length
      modifies table
      ensures cache.NoCache? ==> table[..] == old(table[..])
      ensures cache.Cache? ==>
        var at, end := cache.cell.index, cache.cell.index + Footprint(conv);
        table[..] == Spliced(old(table[..]), at, Packed(conv, old(table[at..end]), number(payload), payload))
    {
      if cache.NoCache? {
        return;
      }
      var at := cache.cell.index;
      Pack(conv, number(payload), payload, table, at);
    }

    /**
     * OnSetValue: publishes the values written by a Modbus master; data is all that follows the first of them. How many
     * of them were written is passed on to Unpack, which ignores it.
     */
    method OnSetValue(data: seq<int>) returns (msg: Message, reply: ReplyState)
      requires Proper(conv) && Footprint(conv) <= |data| && AllWords(data) && Unpackable(conv, data[..Footprint(conv)])
      ensures msg == Message(topic + "/on", Unpacked(conv, data[..Footprint(conv)]), 1, false) && reply == 0
    {
      var values := NewArray(data);
      var reading := Unpack(conv, values);
      return Message(topic + "/on", reading, 1, false), 0;
    }
  }
}
