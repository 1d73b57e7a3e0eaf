# wb-mqtt-mbgate in Dafny

A model of the gateway between MQTT topics and Modbus registers, and of the wire layer of the MQTT 3.1 client kept in
`benchmark/mosquitto.py`, with proofs about both. `dafny verify dfyconfig.toml` checks everything.

## What is modelled

**The interval map** (`AddressRange.dfy`, `Registrations.dfy`). `TAddressRange` is an ordered map of half-open segments.
Its meaning is a plain partial map from address to label, kept beside the segments in a ghost field; every operation is
proved against that map. Segment lists are not canonical (a segment that touches on the left is merged, one that touches
on the right is not), so results are about labels. A rejected `insert` is not atomic; what it may have lost is stated
exactly. `Registrations.dfy` says which lists of registrations a range accepts, in the order given, in every order and
in some order. Iterators are keys, and `lower_bound` at the end of the map is no match, which is what the code intends
where it dereferences the end iterator (src/address_range.h:218 and 244).

**The Modbus server** (`Modbus.dfy`, `Dispatch.dfy`, `ModbusServer.dfy`, `Units.dfy`, `Queries.dfy`). Observers are
numbers. A log records every callback, and what observers answer is an arbitrary function of the log. The backend is a
queue of queries, a list of replies and, for each unit, four zero-filled tables that are never replaced. `Dispatch.dfy`
says what serving one request means; the loops of the server are proved to do that, and its consequences are proved from
it. What the bytes of a query mean is written out by their places in `Queries.dfy`. The server's books (who is
registered for what, how large the tables must be) are an invariant of `Observe`; `Units.ObserveAllocateRead` follows it
through any list of registrations, the allocation and any reads.

**The converters** (`Converters.dfy`, `ByteConverters.dfy`, `Layouts.dfy`). Registers are integers below 65536 in an
array that packing updates in place. The union of an integer and its registers is an array plus the number it spells.
Floats are their bit patterns. Byte layouts are those of a little-endian machine. `Layouts.dfy` writes out, by place
value, which number or text any registers stand for and which registers a message leaves, without the swaps and loops by
which the code gets there.

**The gateway** (`Observers.dfy`, `Config.dfy`, `Acceptance.dfy`, `Windows.dfy`, `Subscriptions.dfy`, `Writes.dfy`,
`Gateway.dfy`, `Operation.dfy`, `Entries.dfy`, `Outputs.dfy`). A configuration becomes observers and registrations;
allocation tells each observer where its window is; then MQTT messages are packed into the tables, reads are answered
from them, and writes are published. What a payload means as a number, scale included, is a parameter of each entry. The
main theorem, `Operation.Operate`, spans all of this, for any configuration whose windows are possible and whose cells
are packed neither twice nor outside a table, and any legible messages, reads, and writes of whole windows, in any
order. The configuration is accepted exactly if its formats are known, something is enabled and the ranges take its
registrations, which for possible windows means that no two overlap. Then there is one reply for every query, in order.
A query is refused exactly if it asks for nothing or for an address in no window. A read is answered from cells that
show, in every window it touches, the messages that have come on the topic of that window before it. A write of whole
windows publishes, for each of them in ascending order, the value its registers encode. In the end the tables the server
serves hold in each window its own topic's latest message and nothing else, where that overwrites what was there.

What all this means for an entry, by its store, format, size and swap settings and for every register content, is said
in `Entries.dfy`: `EntryMeans` is about one entry, `WindowHasEntry` and `EntryHasWindow` match entries with windows.
`Outputs.OutputMeans` applies it to what `Operate` publishes for a write, which is every entry reached and nothing else,
each with the value its registers mean, and `Outputs.ReadShowsLatest` to the cells it answers a read with.

**The MQTT client** (`MqttFrames.dfy`, `MqttReader.dfy`, `MqttLink.dfy`, `MqttPublish.dfy`, `MqttInflight.dfy`,
`TopicMatch.dfy`). Two clients are joined by a socket that moves any number of bytes per call, or none. Frames arrive
unchanged and in order under every interleaving; PUBLISH encoding and decoding undo each other in both directions; the
window of unacknowledged messages is kept; and the topic scan is compared with matching level by level.

## Where the code does not do what one would expect

The last of these is a remark; each of the others is a lemma with the exact condition.

- The size of an integer or float entry is rounded up for its converter but halved as it is for the observed range, so
  that packing stays inside the window only for sizes 2, 4 and from 8 on (4 and from 8 on for floats):
  `Config.StaysInsideExactly`, with an accepted configuration that overwrites its neighbour in
  `Windows.RoundedSizeOverwrites`.
- `byteswap` means the opposite for floats and integers: `ByteConverters.FloatSwapsTheOtherWay`.
- Text with whitespace is shifted, because `>>` skips it (`ByteConverters.TextRoundTripExactly`), and characters of an
  earlier message stay behind it: a text overwrites what the registers held exactly if as many characters as there are
  registers are extracted from it (`ByteConverters.OverwritesExactly`). What is read back is said for every text in
  `ByteConverters.TextReadsBack`; an example is `ByteConverters.LeftoverCharacter`.
- BCD of ten digits or more is packed, but unpacking it overflows an `int` multiplier: `Converters.BcdReadsBack`, with
  the least such value in `Converters.TenDigits`.
- `Unpack` ignores how many registers were written, so that a write to part of a window publishes what follows in memory:
  `Observers.DependsOnSliceExactly`, with a 32-bit example in `Observers.HalfWritten`.
- A request may run over the end of its unit's addresses into the next unit: `Dispatch.StaysInUnit`,
  `Units.RunsIntoNextUnit`.
- A rejected registration can cost another unit its addresses, if the observer has both: `Units.ForeignLossExactly`, with
  an example in `Units.LosesForeignAddresses`. If no observer serves two units it cannot: `ModbusServer.Server.Observe`.
- Registrations of zero addresses are accepted or not depending on their order. `Registrations.AcceptedInEveryOrder` and
  `Registrations.AcceptedInSomeOrder` say which lists every order and some order gets past an empty range, and
  `Registrations.OrderMatters` puts them together; examples are `Registrations.EmptyBesideNonempty` and
  `Registrations.EmptyBesideEmpty`.
- `operator==` only looks for one range's segments in the other: `AddressRange.InclusionIsEquality`, with two ranges of
  which only one counts as equal to the other in `AddressRange.EqualOneWay`.
- An acknowledgement for a message that still waits for room spoils the window counter:
  `MqttInflight.Publisher.HandlePubrec` and `MqttInflight.Publisher.HandlePubackcomp`, from
  `MqttInflight.AcknowledgementCounts`; an example is `MqttInflight.QueuedAcknowledged`.
- The topic `p/#` misses `p/`, misses `p` of one character, and matches topics that differ from `p` in their last
  character: `TopicMatch.HashAgreesExactly`, with a topic for each case in `TopicMatch.HashFails`. And `+` misses the
  empty topic: `TopicMatch.ScanAgrees`.
- The comment on `AllocateCache` in src/modbus_wrapper.h:317-319 speaks of reallocation; the backend keeps existing
  tables (src/modbus_lmb_backend.cpp:42-43), and so does the model.

## Model

| member | source | states |
|---|---|---|
| AddressRange.UniqueMeaning | src/address_range.h:50-55 | a range has at most one meaning as a map from address to label |
| AddressRange.Meaning | src/address_range.h:50-55 | every range of non-overlapping segments has one |
| AddressRange.TAddressRange.constructor | src/address_range.h:63-65 | the empty range labels nothing |
| AddressRange.TAddressRange.Single | src/address_range.h:58-61 | one segment labels exactly its addresses |
| AddressRange.TAddressRange.Insert | src/address_range.h:73-115 | accepted iff no segment conflicts; then exactly the new addresses get the label, and one segment reaches from the start of what it absorbs to its end; if rejected, nothing is gained and the dropped segments are named; segments stay disjoint and nonempty |
| AddressRange.OutcomeUnique | src/address_range.h:73-115 | the segments after an accepted insertion are determined by those before |
| AddressRange.OutcomeKeys | src/address_range.h:93-114 | a segment that disappears belonged to the inserted observer and stays covered by its segment; the new one begins at start unless it was absorbed from the left; only inserting zero addresses makes an empty one |
| AddressRange.TAddressRange.MergeInner | src/address_range.h:90-115 | the part of insert that absorbs segments and creates the large one |
| AddressRange.TAddressRange.Absorb | src/address_range.h:90-112 | the erasing loop stops at the first segment with another label or beyond the end, having erased exactly the absorbed ones |
| AddressRange.AcceptsIsAgreement | src/address_range.h:79-103 | for a nonempty insertion the tests on segments amount to: no address of it carries a different label |
| AddressRange.RejectedLosesOnlyOwn | src/address_range.h:96-112 | a rejected insertion loses only addresses labelled with the inserted observer |
| AddressRange.RejectsAtOnce | src/address_range.h:78-86 | an overlap from the left is rejected before anything changes |
| AddressRange.TAddressRange.InsertRange | src/address_range.h:120-124 | accepted iff the segments of the second range can enter one by one in the order of their keys, empty ones included, which determines the segments that result; without empty segments that is iff the two maps agree where both have labels; the result means their union; a rejection gains only labels of the second range and loses only labels of its observers |
| AddressRange.EntersUnique | src/address_range.h:120-124 | there is at most one result of entering the segments one by one |
| AddressRange.RefusedCannotEnter | src/address_range.h:120-124 | once one of them is refused there is none |
| AddressRange.TAddressRange.InsertRangeAs | src/address_range.h:142-146 | the same with all segments and addresses of the second range under one label; a rejection loses only addresses with that label |
| AddressRange.TAddressRange.InRange | src/address_range.h:154-163 | true iff one segment contains the whole request |
| AddressRange.TAddressRange.GetEnd | src/address_range.h:180-188 | all addresses lie below the result and the last one directly below it; fails iff there are no segments |
| AddressRange.TAddressRange.GetParam | src/address_range.h:215-230 | succeeds iff one segment contains the whole request, and gives the label of every address of it |
| AddressRange.TAddressRange.GetSegments | src/address_range.h:239-268 | for a positive count succeeds iff every address is labelled, with contiguous nonempty pieces that cover the request, each from one segment |
| AddressRange.TilesLabels | src/address_range.h:251-254 | every address of a tiled request lies in a piece that carries its label |
| AddressRange.SinglePiece | src/address_range.h:239-268 | the answer is a single piece iff getParam would succeed |
| AddressRange.TAddressRange.EqualTo | src/address_range.h:270-279 | true iff every segment of this range is one of the other |
| AddressRange.InclusionIsEquality | src/address_range.h:270-279 | that is equality iff the two have the same number of segments |
| AddressRange.EqualOneWay | src/address_range.h:270-279 | the empty range counts as equal to another one, which does not count as equal to it |
| AddressRange.TAddressRange.Shift | src/address_range.h:284-294 | every segment and every label moves by the offset |
| AddressRange.ShiftLabels | src/address_range.h:284-294 | shifting commutes with lookup and keeps segments disjoint |
| AddressRange.TAddressRange.Plus | src/address_range.h:298-304 | never throws; the shifted copy labels exactly the moved addresses, and its segments are those that entering an empty range one by one makes, moved |
| AddressRange.CopyEnters | src/address_range.h:298-304 | the segments of a range can always enter an empty one, empty segments included, and mean the same there |
| Registrations.RegisterAll | src/address_range.h:73-115 | inserting a list one by one succeeds iff the segments at hand take each registration when it comes to it, empty or not, and writes them all |
| Registrations.AcceptedIsFit | src/address_range.h:73-115 | without empty segments and registrations that is iff every registration fits the labels when it comes to it |
| Registrations.Appended | src/address_range.h:73-115 | one more registration is accepted iff the segments the others left take it |
| Registrations.AllFitIsNoClash | src/address_range.h:73-124 | a list fits the labels one by one iff no address is claimed for two observers, by two registrations or by one and the map |
| Registrations.AllWrittenAt | src/address_range.h:73-124 | after a list that fits an address has the observer of any registration that claims it, or what it had |
| Registrations.OrderIrrelevant | src/address_range.h:73-124 | a list fits in one order iff it fits in every order, and every order gives the same labels |
| Registrations.NonemptyInAnyOrder | src/address_range.h:73-124 | a list of nonempty registrations is accepted by a range without empty segments in one order iff it is in every order, and every order gives the same labels |
| Registrations.AcceptedInEveryOrder | src/address_range.h:73-115 | every order of a list is accepted by the empty range iff no address is claimed for two observers and no empty registration stands at an address claimed for another observer |
| Registrations.AcceptedInSomeOrder | src/address_range.h:73-115 | some order is iff no address is claimed for two observers and wherever an empty registration stands at an address claimed for another observer some registration of that observer starts |
| Registrations.OrderMatters | src/address_range.h:73-115 | the two differ iff there is such an empty registration and all of them are screened in this way |
| Registrations.EmptyBesideNonempty | src/address_range.h:73-115 | two registrations that start together, of which the empty one is accepted only as the second |
| Registrations.EmptyBesideEmpty | src/address_range.h:73-115 | three registrations whose order matters although no nonempty one starts where the empty one stands |
| Modbus.DecodeCoils | src/modbus_wrapper.cpp:181-197 | value i is 0xFF iff bit i mod 8 of byte i div 8 is set, else 0, for every count |
| Modbus.DecodeRegisters | src/modbus_wrapper.cpp:198-206 | value i is the big-endian word at byte 2i |
| Modbus.DecodePackedCoils | src/modbus_wrapper.cpp:181-197 | decoding inverts least-significant-bit-first packing of any number of coils |
| Queries.SupportedExactly | src/modbus_wrapper.h:255-265 | which byte strings are queries with a registered function code and all the bytes read for it |
| Queries.RequestOfBytes | src/modbus_wrapper.cpp:151-175 | the start is 256 hi + lo, the count 256 hi' + lo' or 1 for codes 5 and 6, the unit the last byte of the header, and each of the eight codes has its store and direction |
| Queries.SingleValue | src/modbus_wrapper.cpp:176-206 | a single register has the value 256 hi' + lo', a single coil 255 or 0 |
| Queries.RegisterValues | src/modbus_wrapper.cpp:198-206 | register value i is 256 times the byte at 2i behind the count byte plus the next one |
| Queries.CoilValues | src/modbus_wrapper.cpp:176-197 | coils packed eight to a byte behind the count byte arrive as 255 for on and 0 for off, in order |
| Dispatch.DeliversInOrder | src/modbus_wrapper.cpp:298-316 | the first n calls deliver each address up to the end of piece n exactly once, in ascending order, to its registered observer, with its own value or cache cell |
| Dispatch.ServedDelivers | src/modbus_wrapper.cpp:249-275 | a request with a normal reply delivers all its addresses; with an unobserved address, or none requested, it delivers nothing |
| Dispatch.ServedReplies | src/modbus_wrapper.cpp:224-329 | exception code 2 iff nobody is called; otherwise the code with which the last observer called refuses, or a normal reply; all observers before it answered -1 or 0 |
| Dispatch.StaysInUnit | src/modbus_wrapper.cpp:249-252 | a request touches only its unit's addresses iff start + count is at most 65536 |
| ModbusServer.Backend.AllocateCache | src/modbus_lmb_backend.cpp:40-49 | a unit without tables gets fresh zero-filled ones of the given sizes; a unit with tables keeps them |
| ModbusServer.Server.constructor | src/modbus_wrapper.cpp:11-33 | nothing is observed at first |
| ModbusServer.Server.Observe | src/modbus_wrapper.cpp:45-68 | accepted iff the range has a segment and the segments of its moved copy can enter under the observer, which without empty segments is iff the moved addresses do not clash; then exactly they are labelled and the unit's table of that store grows to the end of the last one, if it was smaller, no other; a rejection loses only addresses of the observer, none of another unit unless it serves two; the books of every store stay in order |
| ModbusServer.StaysSound | src/modbus_wrapper.cpp:53-60 | a registration that is accepted, or is of one segment, leaves the store's labels with registered observers, inside the tables and without empty segments |
| ModbusServer.ObserveKeepsIsolated | src/modbus_wrapper.cpp:50-65 | registering addresses of one unit keeps every label with an observer registered for its unit and inside that unit's table |
| ModbusServer.IsolatedStays | src/modbus_wrapper.cpp:57-58 | the other stores' labels stay so while tables and registrations only grow |
| ModbusServer.LossKeepsIsolated | src/modbus_wrapper.cpp:56-56 | losing addresses keeps the remaining labels with registered observers and inside the tables |
| ModbusServer.ObserveKeepsOtherUnits | src/modbus_wrapper.cpp:50-60 | addresses of other units keep their observers, also when the registration is rejected if no observer serves two units |
| ModbusServer.CollectWindows | src/modbus_wrapper.cpp:77-96 | each observer of the slot gets exactly its segments, at their table offsets, with a pointer to that cell |
| ModbusServer.NextWindowFits | src/modbus_wrapper.cpp:95-95 | adding the next window to an observer's cache range is never rejected and never merges |
| ModbusServer.Server.CallCacheAllocate | src/modbus_wrapper.cpp:75-102 | exactly the observers of the slot are told, once each, with their windows |
| ModbusServer.Server.AllocateCache | src/modbus_wrapper.cpp:104-121 | every observed unit has zero-filled tables of the recorded sizes, and every observer of every slot is told its windows exactly once |
| ModbusServer.Server.ProcessReadQuery | src/modbus_wrapper.cpp:224-276 | without tables the reply is ILLEGAL_ADDRESS; else the request is served with the cells of the unit's table |
| ModbusServer.Server.ProcessWriteQuery | src/modbus_wrapper.cpp:278-329 | the request is served: slices offered in ascending order until one refuses, or nobody called and ILLEGAL_ADDRESS; a normal reply to a unit without tables throws, after the observers were called |
| ModbusServer.Server.ProcessQuery | src/modbus_wrapper.cpp:151-222 | the reply is that of serving the decoded request; it is missing only for a write that no observer refuses to a unit without tables |
| ModbusServer.Server.Loop | src/modbus_wrapper.cpp:123-149 | unless waiting failed the queries are answered in turn until the queue is empty or the reply to one cannot be sent; then that one is served without a reply and those behind it stay queued; if waiting failed nothing happens |
| ModbusServer.OneReplyEach | src/modbus_wrapper.cpp:139-146 | the replies are, in order, to exactly the queries addressed to observed units |
| Units.SegmentsStayInUnits | src/modbus_wrapper.cpp:50-56 | if no observer serves two units no segment reaches from one unit into the next |
| Units.WindowsInTable | src/modbus_wrapper.cpp:57-58 | with the books in order every announced window lies inside the table of its unit |
| Units.WindowsDisjoint | src/modbus_wrapper.cpp:79-96 | windows of different observers in a slot do not overlap |
| Units.PointersAgree | src/modbus_wrapper.cpp:236-263 | the pointer for a piece of a read is that announced to its observer, moved by the offset into the window |
| Units.OnlyOwnObservers | src/modbus_wrapper.cpp:249-263 | a piece of a request within its unit goes to an observer registered for that unit and store |
| Units.PieceIsGiven | src/modbus_wrapper.cpp:236-263 | some announcement to that observer for that slot has a window inside the table that contains the piece |
| Units.ObserveAll | src/modbus_wrapper.cpp:45-68 | a list of registrations is accepted iff every range has a segment and no address is claimed for two observers; then the books are in order and the labels are what was claimed |
| Units.ObserveAllocateRead | src/modbus_wrapper.cpp:45-263 | after any list of registrations in which no observer serves two units, one allocation and any reads within their units, every pointer handed to OnGetValue is one given to that observer for that slot at allocation, moved by the offset into a window inside the table |
| Units.ForeignLossExactly | src/address_range.h:78-112 | a rejected registration of one segment costs other units addresses iff it starts at address 0 and the last address of the unit before has the same observer |
| Units.LosesForeignAddresses | src/address_range.h:78-112 | a concrete rejected registration that costs unit 0 its last addresses |
| Units.RunsIntoNextUnit | src/modbus_wrapper.cpp:249-257 | a concrete request that crosses into the next unit and calls its observer |
| Converters.SwapBytes | src/mqtt_converters.cpp:20-27 | every register has its two bytes exchanged, in place |
| Converters.SwapWords | src/mqtt_converters.cpp:29-35 | the registers are reversed, in place |
| Converters.SwapsInvolute | src/mqtt_converters.cpp:20-35 | both swaps undo themselves and they commute |
| Converters.IntToBcd | src/mqtt_converters.cpp:50-62 | the result holds the decimal digits in its nibbles |
| Converters.BcdToInt | src/mqtt_converters.cpp:36-48 | the nibbles are read as decimal digits, without overflow of the int multiplier up to nine of them |
| Converters.FromToBcd | src/mqtt_converters.cpp:36-62 | decoding undoes encoding, and encoding gives decimal nibbles only |
| Converters.ToFromBcd | src/mqtt_converters.cpp:36-62 | encoding undoes decoding for words of decimal nibbles |
| Converters.DigitsFit | src/mqtt_converters.cpp:50-62 | a number has at most k decimal digits iff its code has at most k nibbles |
| Converters.TruncatedBcd | src/mqtt_converters.cpp:178-179 | cutting a code to k nibbles is cutting the number to k digits |
| Converters.WordsOfNumber | src/mqtt_converters.cpp:124-129 | the registers of the union are determined by the number they spell |
| Converters.NumberOfWords | src/mqtt_converters.cpp:192-197 | storing a number into n registers keeps it modulo 65536 to the n |
| Converters.PackedWords | src/mqtt_converters.cpp:180-187 | under all four swap settings the word that goes in is the word that comes out |
| Converters.SwapsOfRegisters | src/mqtt_converters.cpp:180-187 | the settings reverse and byte-swap the big-endian registers themselves |
| Converters.HighRegisterFirst | src/mqtt_converters.cpp:180-187 | two registers come high one first, and what each swap setting makes of them |
| Converters.IntegerRoundTrip | src/mqtt_converters.cpp:98-188 | for every size and swap setting the registers, exactly size/2, can be unpacked iff the value is not BCD with ten or more digits kept, and then give back every value in range, BCD up to what the registers hold |
| Converters.BcdReadsBack | src/mqtt_converters.cpp:36-48 | a packed BCD value can be unpacked without overflow iff at most nine digits are kept |
| Converters.TenDigits | src/mqtt_converters.cpp:36-48 | the least value with ten digits is packed but cannot be unpacked |
| Converters.PackInteger | src/mqtt_converters.cpp:163-224 | exactly the converter's registers change, to those of the value |
| Converters.UnpackInteger | src/mqtt_converters.cpp:90-161 | gives the value the registers stand for |
| ByteConverters.FloatRoundTrip | src/mqtt_converters.cpp:241-345 | the bits of a float or double survive packing and unpacking under all swap settings |
| ByteConverters.FloatSwapsTheOtherWay | src/mqtt_converters.cpp:309-318 | the registers of a bit pattern are those of an unsigned integer with byteswap inverted |
| ByteConverters.PackFloat | src/mqtt_converters.cpp:290-347 | exactly size/2 registers change, to those of the bits |
| ByteConverters.UnpackFloat | src/mqtt_converters.cpp:229-288 | gives the bits the registers stand for |
| ByteConverters.PackText | src/mqtt_converters.cpp:372-388 | one byte of each register takes a character, for as many as the stream yields |
| ByteConverters.UnpackText | src/mqtt_converters.cpp:352-370 | the characters in order, up to the first NUL |
| ByteConverters.ReadChar | src/mqtt_converters.cpp:381-384 | extraction yields the next character that is not whitespace, or reaches the end |
| ByteConverters.TextRoundTrip | src/mqtt_converters.cpp:352-388 | text without whitespace in its first size characters is read back as these up to the first NUL, whatever the registers held, under all swap settings |
| ByteConverters.TextRoundTripExactly | src/mqtt_converters.cpp:352-388 | on zeroed registers the first size characters come back iff they hold neither whitespace nor NUL |
| ByteConverters.TextReadsBack | src/mqtt_converters.cpp:352-388 | of any text the characters extracted come back, followed by those the remaining registers still hold, up to the first NUL |
| ByteConverters.OverwritesExactly | src/mqtt_converters.cpp:372-388 | what is packed is independent of the used bytes of the old registers iff a character is extracted for every register |
| ByteConverters.CleanFills | src/mqtt_converters.cpp:372-388 | one is, if the first size characters hold no whitespace |
| ByteConverters.LeftoverCharacter | src/mqtt_converters.cpp:372-388 | a text of which one character is skipped leaves one of the message before |
| ByteConverters.OtherBytesKept | src/mqtt_converters.cpp:379-385 | the other byte of each register is left alone |
| Layouts.IntegerMeans | src/mqtt_converters.cpp:90-161 | the integer any registers stand for: their turned bytes as one word, read unsigned, as two's complement or by decimal digits; readable iff not BCD of more than nine digits |
| Layouts.FloatMeans | src/mqtt_converters.cpp:229-288 | the bits any registers stand for are the word of the same registers with byteswap inverted |
| Layouts.TextMeans | src/mqtt_converters.cpp:352-370 | the text any registers stand for: register by register, from the last one with wordswap, the low byte or with byteswap the high one, up to the first NUL |
| Layouts.IntegerLeaves | src/mqtt_converters.cpp:163-224 | the registers a value is packed into spell it, or its two's complement, or have its lowest decimal digits in their nibbles |
| Layouts.FloatLeaves | src/mqtt_converters.cpp:290-347 | the registers bits are packed into spell them, with byteswap inverted |
| Layouts.TextLeaves | src/mqtt_converters.cpp:372-388 | text without whitespace leaves character p, or with wordswap character size - 1 - p, or NUL behind its end, in one byte of register p and the other byte as it was |
| Layouts.WhiteIsSkipped | src/mqtt_converters.cpp:381-384 | each of the six whitespace characters is skipped: in place of it never stands the character itself |
| Layouts.DecimalDigits | src/mqtt_converters.cpp:36-48 | nibbles that are digits are read as the number with these decimal digits |
| Observers.Pack | src/mqtt_converters.h:31-31 | any converter changes exactly its own cells |
| Observers.Unpack | src/mqtt_converters.h:23-23 | any converter reads only its own cells |
| Observers.PackedReadsBack | src/mqtt_converters.cpp:68-388 | for every kind of converter the cells can be unpacked iff the number is not BCD with ten or more digits kept, and then unpacking gives back what was packed; of a text, the characters extracted followed by those the cells still hold |
| Observers.DependsOnSliceExactly | src/mqtt_converters.cpp:90-161 | what Unpack makes of cells depends on the first count of them alone iff count is at least the converter's number of cells |
| Observers.HalfWritten | src/mqtt_converters.cpp:90-161 | two cells that agree on the one written are published as different values |
| Observers.GatewayObserver.OnCacheAllocate | src/observer.cpp:28-32 | the cache pointer becomes that of the first window |
| Observers.GatewayObserver.OnMessage | src/observer.cpp:18-26 | without a cache pointer nothing happens; with one exactly the converter's cells behind it change |
| Observers.GatewayObserver.OnSetValue | src/observer.cpp:34-48 | the value read from the data written is published on the topic with /on, unretained, and the answer is OK |
| Config.Compile | src/config_parser.cpp:139-175 | fails iff the format is unknown; the converter has the entry's own swap settings and, for sizes up to 8, the least size there is that is not below the entry's; the window has half the entry's size, or the size of the text |
| Config.StaysInsideExactly | src/config_parser.cpp:139-175 | packing stays inside the observed window iff the size is one that is not rounded up |
| Config.CompatibleIsDisjoint | src/config_parser.cpp:181-185 | the server accepts the next entry iff its window overlaps no earlier one |
| Config.AddedLabels | src/config_parser.cpp:181-182 | then the addresses are labelled with exactly the entries' windows |
| Config.StaysInsideFits | src/config_parser.cpp:139-175 | where packing stays inside disjoint windows no cell is packed twice and the tables are long enough |
| Acceptance.AcceptedIsDisjoint | src/config_parser.cpp:123-186 | with possible windows the ranges take all registrations iff no two windows overlap |
| Acceptance.PrefixAccepted | src/config_parser.cpp:123-186 | if they take all of them they take the first ones |
| Gateway.Gateway.AddObserver | src/config_parser.cpp:177-185 | an observer for the entry is added iff the range of its store takes its registration after the earlier ones, whatever its size |
| Gateway.Gateway.BuildStore | src/config_parser.cpp:117-188 | a list is accepted iff its formats are known and the ranges take all registrations so far; it tells whether any entry is enabled |
| Gateway.Gateway.Build | src/config_parser.cpp:102-114 | a configuration is accepted iff all formats are known, something is enabled and the ranges take all its registrations |
| Gateway.AllAnnounced | src/modbus_wrapper.cpp:104-118 | every announcement of the caches tells its observer where its own window begins, and every observer gets one |
| Gateway.Gateway.TellObservers | src/modbus_wrapper.cpp:98-101 | after the callbacks every observer points to its own window |
| Gateway.Gateway.Allocate | src/modbus_wrapper.cpp:104-121 | if the windows are possible and no cell is packed twice or outside a table, every observer ends connected to its own zeroed cells |
| Gateway.FromConfig | src/main.cpp:122-134 | building and allocating together: accepted iff acceptable, and then every observer is connected to its window, in tables that are new, are those the server serves and are exactly as large as the windows need |
| Writes.CutIntoWindows | src/address_range.h:239-268 | a request for a row of windows is cut into exactly these windows |
| Writes.WriteCalls | src/modbus_wrapper.cpp:298-323 | a write for a row of windows is answered normally and calls each window's observer once, in ascending order, with the values from its first address on |
| Writes.PublishAll | src/observer.cpp:34-48 | the observers called publish the values their windows' registers encode, each on its own topic with /on |
| Gateway.Gateway.HandleWrite | src/modbus_wrapper.cpp:278-329 | a write query that covers whole windows of an accepted configuration is answered normally and published window by window in ascending order |
| Windows.AnnouncedWindow | src/observer.cpp:28-32 | the first window announced to an observer begins where its entry says |
| Windows.LatestOnly | src/observer.cpp:18-26 | after any run of messages of which the last overwrites the cells they hold that one packed into zeros; nothing of earlier ones shows |
| Windows.LatestShown | src/observer.cpp:18-26 | then they can be unpacked iff the number is not BCD with ten or more digits kept, and then give that message back |
| Windows.HeldIsShown | src/observer.cpp:18-26 | that holds for the cells of a table that shows the messages received |
| Windows.MessageStep | src/observer.cpp:18-26 | a message changes its observer's window as Pack does and no other window |
| Windows.RoundedSizeOverwrites | src/config_parser.cpp:172-173 | two accepted entries of which one overwrites the other, because size 3 is rounded up |
| Gateway.TablesAreExact | src/modbus_wrapper.cpp:57-121 | exactly the units of the entries have tables, every window has room, and each table is empty or ends with the last window in it |
| Entries.ConverterOf | src/config_parser.cpp:139-175 | the converter and the observed width of an entry by store, format and size: coils and discrete inputs discrete, varchar text, float, and signed, unsigned and bcd integers of 2, 4 or 8 bytes |
| Entries.EntryMeans | src/config_parser.cpp:128-182 | the window of an entry is at its unit, store and address; its cells are published, for every content, as the number or text the format means, and messages leave the cells the format means |
| Entries.ListsInOrder | src/config_parser.cpp:104-108 | observers are made for the coils, the discrete inputs, the holding and the input registers, in this order |
| Entries.WindowHasEntry | src/config_parser.cpp:123-186 | every window is that of an enabled entry of the list for its store |
| Entries.EntryHasWindow | src/config_parser.cpp:123-186 | every enabled entry has its window |
| Entries.PublishedIsMeant | src/observer.cpp:34-48 | every message published for a write is on the topic of an entry with /on, unretained, and says what the values written to its cells mean by its format |
| Entries.CoilsPublished | src/modbus_wrapper.cpp:151-222 | a write of packed coils to configured ones publishes 1 or 0 for each of them, in order |
| Entries.SingleCoilPublished | src/modbus_wrapper.cpp:151-222 | so does a write of one coil, as FF00 or 0000 |
| Entries.LatestIsLeft | src/observer.cpp:18-26 | where the latest message overwrites a window, its cells are literally what the format leaves: 1 or 0, the word of the number, or the characters |
| Subscriptions.Subscriptions.Deliver | src/observer.cpp:15-26 | a message reaches exactly the observers of its topic |
| Subscriptions.Subscriptions.Run | src/observer.cpp:15-26 | after any run of messages every window shows what its own topic's messages made of it |
| Subscriptions.Subscriptions.HoldsLatest | src/observer.cpp:18-26 | then every window shows its messages, and only the latest where that overwrites it; it can be unpacked iff the number is not BCD with ten or more digits kept, and then gives that message back |
| Operation.ObservedIsInWindow | src/config_parser.cpp:181-182 | the addresses observed are exactly those in the windows |
| Operation.ServedInWindows | src/modbus_wrapper.cpp:249-329 | a request is refused iff it asks for nothing or for an address in no window, and then nobody is called |
| Operation.Ask | src/modbus_wrapper.cpp:151-222 | a query gets one reply, normal or ILLEGAL_ADDRESS accordingly, and a write of whole windows calls their observers |
| Operation.CellsShow | src/modbus_wrapper.cpp:224-276 | the cells a read covers show what the observers of the windows it touches have received |
| Operation.Handle | src/modbus_wrapper.cpp:151-329 | a read is answered from cells that show the messages so far, a write publishes the values of its windows, and the tables stay as they are |
| Operation.Receive | src/observer.cpp:15-26 | a message is added to what the observers of its topic have received, and to nothing else, and no reply is sent |
| Operation.Run | src/main.cpp:169-175 | any events one after the other: what each leads to, given the messages before it, one reply for every query in order, and what has been received in the end |
| Operation.Operate | src/main.cpp:122-175 | the same from the configuration on: accepted iff acceptable, and then in the end every window of the tables served shows its topic's messages, and only the latest where that overwrites it |
| Outputs.OutputMeans | src/observer.cpp:34-48 | what a run publishes for a write is every enabled entry that begins among the addresses written and no other, each with the value its registers mean |
| Outputs.ReadShowsLatest | src/modbus_wrapper.cpp:224-276 | a read in a run returns, for an entry that lies in it, what the latest message on its topic leaves there, where that overwrites what was there |
| MqttFrames.PackRemainingLength | benchmark/mosquitto.py:1509-1522 | the base-128 digits are appended, lowest first, with continuation bits |
| MqttFrames.LengthRoundTrip | benchmark/mosquitto.py:1320-1329 | the reader's sum is the length written, and exactly the last byte has its top bit clear |
| MqttFrames.LengthFits | benchmark/mosquitto.py:1509-1522 | a length takes at most k bytes iff it is below 128 to the k |
| MqttFrames.FourBytes | benchmark/mosquitto.py:1322-1326 | four bytes hold exactly the lengths up to 268435455 |
| MqttReader.LengthStep | benchmark/mosquitto.py:1317-1335 | a reader in step with the frames queued stays so over one byte of the length and never sees a fifth |
| MqttReader.BodyStep | benchmark/mosquitto.py:1337-1353 | and over any stretch of the body |
| MqttReader.FrameEnds | benchmark/mosquitto.py:1355-1360 | a complete frame is the next one queued |
| MqttReader.Reader.PacketRead | benchmark/mosquitto.py:1272-1368 | whatever the socket grants the reader stays in step, hands over at most one frame, and with a willing socket stops short only on an empty wire |
| MqttLink.Writer.PacketQueue | benchmark/mosquitto.py:1748-1762 | the packet's bytes come last among those sent and unsent; with a willing socket direct queueing sends everything |
| MqttLink.Writer.PacketWrite | benchmark/mosquitto.py:1370-1437 | bytes only move from unsent to sent, in order, until nothing is left or the socket would block |
| MqttLink.QueueStep | benchmark/mosquitto.py:1748-1762 | queueing a frame keeps the reader in step, wherever it is |
| MqttLink.CaughtUp | benchmark/mosquitto.py:1272-1437 | everything queued has been handled iff nothing is on its way |
| MqttLink.Link.Run | benchmark/mosquitto.py:1272-1437 | after any interleaving of queueing, partial writes and partial reads the frames handled are the first of those queued, unchanged and in order |
| MqttPublish.SendPublish | benchmark/mosquitto.py:1549-1592 | the packet is the encoding of the message's frame, or an exception for a topic of 65536 bytes or more |
| MqttPublish.HandlePublish | benchmark/mosquitto.py:1849-1911 | which frames raise, which are protocol errors, and what message and answer come of the others |
| MqttPublish.DecodedFields | benchmark/mosquitto.py:1849-1911 | of a frame that decodes, which bytes are topic, id and payload and which bits the flags; quality of service 0 is not answered, 1 by PUBACK and 2 by PUBREC with the id behind the topic |
| MqttPublish.DecodesExactly | benchmark/mosquitto.py:1849-1911 | a frame decodes iff its topic is not empty, it is long enough and the quality of service is not 3 |
| MqttPublish.PublishRoundTrip | benchmark/mosquitto.py:1549-1592 | decoding gives back every message encoded, with any 16-bit id, which at quality of service 0 is not sent and arrives as 0; the answer is none, PUBACK or PUBREC with that id |
| MqttPublish.DecodedEncodes | benchmark/mosquitto.py:1849-1874 | every PUBLISH frame that decodes is the encoding of what it decodes to, and that arrives unchanged |
| MqttPublish.PublishCarried | benchmark/mosquitto.py:1549-1567 | the wire layer carries a message iff its remaining length is at most 268435455 |
| MqttPublish.MessagesArrive | benchmark/mosquitto.py:1764-1775 | the frames handled decode to the first messages sent, in order, with the ids publish gave them at quality of service 1 and 2, and are answered by PUBACK and PUBREC accordingly |
| MqttInflight.Publisher.constructor | benchmark/mosquitto.py:426-430 | a client has the limit it is given, no messages, and ids that will begin at 1 |
| MqttInflight.Publisher.MidGenerate | benchmark/mosquitto.py:1475-1479 | ids count up from 1 and start again after 65535 |
| MqttInflight.Publisher.Publish | benchmark/mosquitto.py:775-809 | a message gets the next id and is sent at once, waiting for PUBACK or PUBREC, if the window has room, and is queued otherwise |
| MqttInflight.Publisher.UpdateInflight | benchmark/mosquitto.py:1951-1966 | queued messages are sent in order, each waiting for the answer its quality of service calls for, until the window is full or none is queued; the counter goes along with the number of messages waiting |
| MqttInflight.Publisher.HandlePubrec | benchmark/mosquitto.py:1968-1986 | exactly the first message with the id now waits for PUBCOMP, and PUBREL is sent iff there is one; the counter is right afterwards iff the id is that of a message in the window or of none |
| MqttInflight.Publisher.HandlePubackcomp | benchmark/mosquitto.py:2004-2040 | the first message with the id is completed and is the only one removed, and then messages that were queued are sent as the window is refilled, the others staying as they were; without one nothing happens; the counter is right afterwards iff the id is that of a message in the window or of none |
| MqttInflight.SplitCounts | benchmark/mosquitto.py:798-799 | if the window is a prefix of the list the counter is the number of waiting messages |
| MqttInflight.AcknowledgementCounts | benchmark/mosquitto.py:1978-2026 | the counter stays right iff the message acknowledged was in the window |
| MqttInflight.QueuedAcknowledged | benchmark/mosquitto.py:2004-2028 | an acknowledgement of a queued message behind a waiting one leaves the counter at none waiting |
| MqttInflight.Publisher.Run | benchmark/mosquitto.py:775-2040 | over every run the counter is the number of waiting messages and within the limit, messages are queued only behind a full window, sent once each in publishing order, and completed at most once |
| MqttInflight.PublishFirst | benchmark/mosquitto.py:775-809 | of the first n messages published min(n, limit) are sent at once, all of them without a limit, in order and with the ids from 1 on |
| TopicMatch.TopicMatchesSub | benchmark/mosquitto.py:189-247 | the loop computes the recursive scan, for all subscriptions and topics |
| TopicMatch.ScanIsMatch | benchmark/mosquitto.py:208-247 | from every position the scan agrees with matching the remaining levels |
| TopicMatch.ScanAgrees | benchmark/mosquitto.py:189-247 | without # and with + filling whole levels the scan agrees with level-by-level matching, except for + and the empty topic |
| TopicMatch.HashAgreesExactly | benchmark/mosquitto.py:225-242 | for p/# the scan agrees with its meaning except in three cases, which are named |
| TopicMatch.HashFails | benchmark/mosquitto.py:225-242 | a topic for each of the three cases |

## Left out

- AddressRange.TAddressRange.Insert: addresses are unbounded integers; overflow of start + count in 32 bits is not modelled.
- ModbusServer.Server.Observe: a store is one of the four, not a bit mask of several, as which the gateway never uses it.
- Units.ObserveAll: ranges have no empty segments, with which acceptance is more than the absence of claims for two observers (Registrations.OrderMatters), and lie within the addresses of a unit.
- Units.ObserveAllocateRead: no observer serves two units, or its segments may merge across them; ranges lie within the addresses of a unit and have no empty segments; without the first, reads leave the table, as RunsIntoNextUnit shows for requests.
- ModbusServer.Server.CallCacheAllocate: the order in which observers of one slot are told is that of pointers in the source and is left open.
- ModbusServer.Server.ProcessQuery: function codes outside the eight registered ones, and queries too short for their function code, have no defined effect in the source and are excluded.
- ModbusServer.Server.ProcessWriteQuery: a late refusal leaves earlier observers already notified; no atomicity is claimed. What libmodbus writes into the tables when it replies is not modelled, nor that a read of a unit without tables leaves a null entry behind (src/modbus_lmb_backend.cpp:52), with which a later reply to that unit would reach libmodbus.
- Converters.PackInteger: reading a number from text, scaling it and its rounding are a parameter; values outside the type's range are excluded, as their conversion is undefined.
- Converters.UnpackInteger: decimal text output and division by the scale; BCD words of more than nine digits, where the source overflows an int.
- Observers.GatewayObserver.OnSetValue: data that ends before the converter's registers do, which Unpack would read beyond.
- Subscriptions.Subscriptions.Run: messages are required to be numbers their converters can hold; the conversion of others is undefined.
- Gateway.FromConfig: the windows are as for Allocate; for others it is false that each holds its own messages (Windows.RoundedSizeOverwrites).
- Gateway.Gateway.Allocate: windows must not be empty or run over the end of a unit's addresses, and no cell may be packed twice or outside a table; the sizes for which packing leaves its window are in Config.StaysInsideExactly.
- Gateway.Gateway.Build: topics are taken as already expanded; parsing and schema validation of JSON, except for the bounds it guarantees.
- Operation.Operate: the windows are as for Allocate. Queries are for units of the configuration, others being ignored (ModbusServer.Server.Loop), and end within the unit (Units.RunsIntoNextUnit); writes cover whole windows whose values can be unpacked, or are refused. Events come one at a time.
- Gateway.Gateway.HandleWrite: the callbacks are made after the server has logged them, in the same order; writes that cover a window in part publish what Observers.DependsOnSliceExactly says.
- MqttReader.Reader.PacketRead: a closed connection and the result of the frame handler.
- MqttLink.Writer.PacketWrite: DISCONNECT, after which the source stops writing, and a send of zero bytes, on which it would spin; callbacks after a packet is through.
- MqttInflight.Publisher.Run: reconnects, retries, inbound messages of quality of service 2, a changed limit, and sends that fail.
- MqttPublish.HandlePublish: decoding topics as UTF-8; topics and payloads are bytes.
- TopicMatch.ScanAgrees: # together with +; for # alone after a literal prefix see HashAgreesExactly.
- CacheSize, which src/observer.cpp:31 sets to the end of a segment and nothing reads.
- getStart (the first key, or an exception), getCount (getEnd less getStart), getParam without arguments (the label of the only segment, or an exception), clear (no segments), and the operators of the interval map that are insert or shift by another name (+= and -= of a range or an offset, - of an offset, + of two ranges) or print it (<<): each is one call of a member that is modelled, or one look at the map.
- libmodbus, sockets, serial lines, logging, signals and the rest of main.cpp; threads, mutexes, TLS and keepalive of the client.
