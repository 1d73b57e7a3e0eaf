/**
 * The converters of src/mqtt_converters.cpp that reach into registers byte by byte: floating-point bit patterns and
 * text. A register stores its low byte first, as on the little-endian machines the gateway runs on.
 */
module ByteConverters {
  import opened Modbus
  import opened Converters

  /** One byte of a register: the one in front in memory is the low one. */
  function ByteOf(w: int, odd: bool): int {
    if odd then w / 256 else w % 256
  }

  function WithByte(w: int, odd: bool, b: Byte): int {
    if odd then w % 256 + 256 * b else w / 256 * 256 + b
  }

  /** Writes one byte of register i of the table. */
  method SetByte(data: array<int>, i: nat, odd: bool, b: Byte)
    requires i < data.Length
    modifies data
    ensures data[..] == old(data[..])[i := WithByte(old(data[i]), odd, b)]
  {
    data[i] := WithByte(data[i], odd, b);
  }

  // ---------- floating-point bit patterns ----------

  /** The registers Pack writes for the bits of a float or double. */
  function FloatRegisters(c: Converter, bits: nat): (w: seq<int>)
    requires c.Float? && bits < Limit(c.size / 2)
  {
    SwappedBytes(Reversed(UnpackSwaps(Words(bits, c.size / 2), c.byteSwap, c.wordSwap)))
  }

  /** The bits Unpack assembles from registers. */
  function FloatBits(c: Converter, w: seq<int>): nat
    requires c.Float? && AllWords(w)
  {
    SwapsInvolute(w);
    WordFrom(SwappedBytes(w), c.byteSwap, c.wordSwap)
  }

  /** Main result: the bits of a float or double survive packing and unpacking under every swap setting. */
  lemma FloatRoundTrip(c: Converter, bits: nat)
    requires c.Float? && Proper(c) && bits < Limit(c.size / 2)
    ensures AllWords(FloatRegisters(c, bits)) && |FloatRegisters(c, bits)| == Footprint(c)
    ensures FloatBits(c, FloatRegisters(c, bits)) == bits
  {
    var s := Words(bits, c.size / 2);
    SwapsKeepWords(s, c.byteSwap, c.wordSwap);
    var t := UnpackSwaps(s, c.byteSwap, c.wordSwap);
    SwapsInvolute(t);
    SwapsInvolute(Reversed(t));
    UnpackTwice(s, c.byteSwap, c.wordSwap);
    SmallNumber(bits, c.size / 2);
  }

  lemma UnpackTwice(s: seq<int>, byteSwap: bool, wordSwap: bool)
    requires AllWords(s)
    ensures UnpackSwaps(UnpackSwaps(s, byteSwap, wordSwap), byteSwap, wordSwap) == s
  {
    SwapsInvolute(s);
    SwapsInvolute(SwappedBytes(s));
  }

  /**
   * The float converter assembles bytes where the integer converter assembles registers, so its byteswap setting
   * means the opposite: the registers of a bit pattern are those of an unsigned integer with the setting inverted.
   */
  lemma FloatSwapsTheOtherWay(c: Converter, bits: nat)
    requires c.Float? && Proper(c) && bits < Limit(c.size / 2)
    ensures FloatRegisters(c, bits) == IntegerRegisters(Integer(Unsigned, c.size, !c.byteSwap, c.wordSwap), bits)
  {
    var s := Words(bits, c.size / 2);
    SwapsInvolute(s);
    SwapsInvolute(Reversed(s));
    SwapsInvolute(SwappedBytes(s));
    SwapsInvolute(SwappedBytes(Reversed(s)));
  }

  /** The bits still to be stored when the bytes from i on have been. */
  function BitsLeft(t: seq<int>, i: nat): nat
    requires AllWords(t) && i <= 2 * |t|
  {
    var number := Number(t[|t| - (i + 1) / 2..]);
    if i % 2 == 1 then number / 256 else number
  }

  /** The loop that ends Pack has stored the bytes from i on. */
  ghost predicate StoringBytes(was: seq<int>, now: seq<int>, at: nat, t: seq<int>, i: nat, whole: nat)
    requires AllWords(t)
  {
    && i <= 2 * |t| && |now| == |was| && at + |t| <= |was| && whole == BitsLeft(t, i)
    && (forall j | 0 <= j < at + i / 2 || at + |t| <= j < |was| :: now[j] == was[j])
    && (forall j, l | l == at + j && (i + 1) / 2 <= j < |t| :: now[l] == SwappedBytes(Reversed(t))[j])
    && (i % 2 == 1 ==> now[at + i / 2] / 256 == t[|t| - 1 - i / 2] % 256)
  }

  lemma LowWord(w: nat, rest: nat)
    requires w < 65536
    ensures (w + 65536 * rest) % 256 == w % 256 && (w + 65536 * rest) / 256 % 256 == w / 256
    ensures (w + 65536 * rest) / 256 / 256 == rest
  {
  }

  lemma BitsStep(t: seq<int>, i: nat)
    requires AllWords(t) && i < 2 * |t|
    ensures BitsLeft(t, i) == BitsLeft(t, i + 1) / 256
    ensures BitsLeft(t, i + 1) % 256 == ByteOf(t[|t| - 1 - i / 2], i % 2 == 0)
  {
    var k := |t| - 1 - i / 2;
    assert t[k..][0] == t[k] && t[k..][1..] == t[k + 1..];
    assert Number(t[k..]) == t[k] + 65536 * Number(t[k + 1..]);
    LowWord(t[k], Number(t[k + 1..]));
    assert (i + 2) / 2 == i / 2 + 1 && (i + 1) / 2 == if i % 2 == 1 then i / 2 + 1 else i / 2;
  }

  lemma StoringByte(was: seq<int>, now: seq<int>, at: nat, t: seq<int>, i: nat, whole: nat)
    requires AllWords(t) && AllWords(was) && StoringBytes(was, now, at, t, i + 1, whole)
    ensures var now' := now[at + i / 2 := WithByte(now[at + i / 2], i % 2 == 1, whole % 256)];
      StoringBytes(was, now', at, t, i, whole / 256)
  {
    BitsStep(t, i);
    if i % 2 == 1 {
      assert (i + 1) / 2 == i / 2 + 1;
    } else {
      assert (i + 1) / 2 == i / 2;
    }
  }

  method StoreBytes(data: array<int>, at: nat, regs: array<int>)
    requires AllWords(regs[..]) && AllWords(data[..]) && at + regs.Length <= data.Length && data != regs
    modifies data
    ensures data[..] == Spliced(old(data[..]), at, SwappedBytes(Reversed(regs[..])))
  {
    ghost var t, was := regs[..], data[..];
    var whole := Number(regs[..]);
    var n := regs.Length;
    for i := 2 * n downto 0
      invariant regs[..] == t && StoringBytes(was, data[..], at, t, i, whole)
    {
      ghost var now := data[..];
      StoringByte(was, now, at, t, i, whole);
      SetByte(data, at + i / 2, i % 2 == 1, whole % 256);
      assert data[..] == now[at + i / 2 := WithByte(now[at + i / 2], i % 2 == 1, whole % 256)];
      whole := whole / 256;
    }
    StoredAll(was, data[..], at, t, whole);
  }

  lemma StoredAll(was: seq<int>, now: seq<int>, at: nat, t: seq<int>, whole: nat)
    requires AllWords(t) && StoringBytes(was, now, at, t, 0, whole)
    ensures now == Spliced(was, at, SwappedBytes(Reversed(t)))
  {
  }

  /** TMQTTFloatConverter::Pack at scale 1, after the text has been read as a number. */
  method PackFloat(c: Converter, bits: nat, data: array<int>, at: nat)
    requires c.Float? && Proper(c) && bits < Limit(c.size / 2)
    requires AllWords(data[..]) && at + Footprint(c) <= data.Length
    modifies data
    ensures data[..] == Spliced(old(data[..]), at, FloatRegisters(c, bits))
  {
    var regs := NewArray(Words(bits, c.size / 2));
    ApplyUnpackSwaps(regs, c.byteSwap, c.wordSwap);
    StoreBytes(data, at, regs);
  }

  /** What the first k registers contribute to whole. */
  function WholeOf(s: seq<int>, at: nat, k: nat): nat
    requires AllWords(s) && at + k <= |s|
  {
    if k == 0 then 0 else WholeOf(s, at, k - 1) * 65536 + SwapByte(s[at + k - 1])
  }

  lemma {:induction false} WholeIsBigEndian(s: seq<int>, t: seq<int>, at: nat, k: nat)
    requires AllWords(s) && AllWords(t) && at + k <= |s| == |t|
    requires forall i | 0 <= i < |s| :: t[i] == SwapByte(s[i])
    ensures WholeOf(s, at, k) == BigEndian(t, at, k)
  {
    if k > 0 {
      WholeIsBigEndian(s, t, at, k - 1);
      ShiftedIn(t, at, k - 1);
    } else {
      assert t[at..at] == [];
    }
  }

  lemma WholeRegisters(s: seq<int>, at: nat, n: nat)
    requires AllWords(s) && at + n <= |s|
    ensures Words(WholeOf(s, at, n), n) == Reversed(SwappedBytes(s[at..at + n]))
  {
    SwapsInvolute(s);
    WholeIsBigEndian(s, SwappedBytes(s), at, n);
    BigEndianWords(SwappedBytes(s), at, n);
    assert SwappedBytes(s)[at..at + n] == SwappedBytes(s[at..at + n]);
  }

  /** What is in whole after i bytes. */
  function BytesOf(s: seq<int>, at: nat, i: nat): nat
    requires AllWords(s) && at + (i + 1) / 2 <= |s|
  {
    if i % 2 == 0 then WholeOf(s, at, i / 2) else WholeOf(s, at, i / 2) * 256 + s[at + i / 2] % 256
  }

  lemma NextByte(s: seq<int>, at: nat, i: nat)
    requires AllWords(s) && at + (i + 2) / 2 <= |s|
    ensures BytesOf(s, at, i + 1) == BytesOf(s, at, i) * 256 + ByteOf(s[at + i / 2], i % 2 == 1)
  {
  }

  /** The loop that starts Unpack: shifts the bytes into whole, the first one the most significant. */
  method LoadBytes(data: array<int>, at: nat, n: nat) returns (regs: array<int>)
    requires AllWords(data[..]) && at + n <= data.Length
    ensures fresh(regs) && AllWords(regs[..]) && regs[..] == Reversed(SwappedBytes(data[at..at + n]))
  {
    var whole: nat := 0;
    ghost var s := data[..];
    for i := 0 to 2 * n
      invariant whole == BytesOf(s, at, i)
    {
      NextByte(s, at, i);
      whole := whole * 256 + ByteOf(data[at + i / 2], i % 2 == 1);
    }
    WholeRegisters(s, at, n);
    assert data[at..at + n] == s[at..at + n];
    regs := NewArray(Words(whole, n));
  }

  /** TMQTTFloatConverter::Unpack, before the number is scaled and written as text. */
  method UnpackFloat(c: Converter, data: array<int>, at: nat) returns (bits: nat)
    requires c.Float? && Proper(c)
    requires AllWords(data[..]) && at + Footprint(c) <= data.Length
    ensures bits == FloatBits(c, data[at..at + Footprint(c)])
  {
    var regs := LoadBytes(data, at, c.size / 2);
    ApplyUnpackSwaps(regs, c.byteSwap, c.wordSwap);
    bits := Number(regs[..]);
  }

  // ---------- text ----------

  /** isspace() in the C locale: what >> into a char skips. */
  predicate IsSpace(b: Byte) {
    b == 32 || 9 <= b <= 13
  }

  /** The characters >> yields from the first n of a stream. */
  function Visible(s: seq<Byte>, n: nat): (r: seq<Byte>)
    requires n <= |s|
    ensures |r| <= n
  {
    if n == 0 then [] else Visible(s, n - 1) + if IsSpace(s[n - 1]) then [] else [s[n - 1]]
  }

  /** The stream Pack reads back from: the value, filled up with NULs to the size of the converter. */
  function Stream(value: seq<Byte>, size: nat): seq<Byte> {
    value + seq(if size > |value| then size - |value| else 0, _ => 0)
  }

  /** The characters that are not skipped. */
  function Extracted(value: seq<Byte>, size: nat): seq<Byte> {
    Visible(Stream(value, size), |Stream(value, size)|)
  }

  /** There is one for every register. */
  predicate Fills(value: seq<Byte>, size: nat) {
    |Extracted(value, size)| >= size
  }

  /** Which register holds character i. */
  function PlaceOf(c: Converter, i: int): int
    requires c.Text?
  {
    if c.wordSwap then c.size - 1 - i else i
  }

  /** The registers after Pack: one byte of a register for every character there is. */
  function TextRegisters(c: Converter, was: seq<int>, value: seq<Byte>): (w: seq<int>)
    requires c.Text? && |was| == c.size
  {
    var chars := Extracted(value, c.size);
    seq(c.size, p requires 0 <= p < c.size => Placed(c, was[p], chars, PlaceOf(c, p)))
  }

  function Placed(c: Converter, was: int, chars: seq<Byte>, i: int): int
    requires c.Text?
  {
    if 0 <= i < |chars| then WithByte(was, c.byteSwap, chars[i]) else was
  }

  /** How many characters are in front of the first NUL. */
  function Length(s: seq<int>): (n: nat)
    ensures n <= |s| && (n < |s| ==> s[n] == 0) && forall i | 0 <= i < n :: s[i] != 0
  {
    if s == [] || s[0] == 0 then 0 else 1 + Length(s[1..])
  }

  function UpToNul(s: seq<int>): seq<int> {
    s[..Length(s)]
  }

  /** The characters Unpack collects. */
  function Characters(c: Converter, w: seq<int>): seq<int>
    requires c.Text? && |w| == c.size
  {
    seq(c.size, i requires 0 <= i < c.size => ByteOf(w[PlaceOf(c, i)], c.byteSwap))
  }

  function TextValue(c: Converter, w: seq<int>): seq<int>
    requires c.Text? && |w| == c.size
  {
    UpToNul(Characters(c, w))
  }

  /** Extraction of one character: ss >> ch. */
  method ReadChar(stream: seq<Byte>, pos: nat) returns (found: bool, ch: Byte, next: nat)
    requires pos <= |stream|
    ensures pos <= next <= |stream|
    ensures if found then pos < |stream| && Visible(stream, next) == Visible(stream, pos) + [ch]
            else next == |stream| && Visible(stream, next) == Visible(stream, pos)
  {
    next := pos;
    while next < |stream| && IsSpace(stream[next])
      invariant pos <= next <= |stream| && Visible(stream, next) == Visible(stream, pos)
    {
      next := next + 1;
    }
    if next == |stream| {
      return false, 0, next;
    }
    return true, stream[next], next + 1;
  }

  lemma {:induction false} VisibleGrows(s: seq<Byte>, n: nat, m: nat)
    requires n <= m <= |s|
    ensures Visible(s, n) <= Visible(s, m)
    decreases m
  {
    if n < m {
      VisibleGrows(s, n, m - 1);
    }
  }

  /** The extracting loop of Pack has read k characters and stands at pos. */
  ghost predicate Extracting(c: Converter, was: seq<int>, now: seq<int>, at: nat, stream: seq<Byte>, k: nat, pos: nat)
    requires c.Text? && pos <= |stream|
  {
    var chars := Visible(stream, pos);
    && k <= c.size && |now| == |was| && at + c.size <= |was|
    && |chars| <= k && (|chars| < k ==> pos == |stream|)
    && (forall j | 0 <= j < at || at + c.size <= j < |was| :: now[j] == was[j])
    && (forall p, l | l == at + p && 0 <= p < c.size :: now[l] == Placed(c, was[l], chars, PlaceOf(c, p)))
  }

  lemma ExtractingStep(c: Converter, was: seq<int>, now: seq<int>, at: nat, stream: seq<Byte>, k: nat, pos: nat,
                       found: bool, ch: Byte, next: nat)
    requires c.Text? && pos <= |stream| && next <= |stream| && k < c.size
    requires Extracting(c, was, now, at, stream, k, pos)
    requires if found then pos < |stream| && Visible(stream, next) == Visible(stream, pos) + [ch]
             else next == |stream| && Visible(stream, next) == Visible(stream, pos)
    ensures var p := at + PlaceOf(c, k);
            Extracting(c, was, if found then now[p := WithByte(now[p], c.byteSwap, ch)] else now,
                       at, stream, k + 1, next)
  {
    if found {
      var p := PlaceOf(c, k);
      assert now[at + p] == Placed(c, was[at + p], Visible(stream, pos), PlaceOf(c, p));
    }
  }

  /** TMQTTTextConverter::Pack; the two loops of the source differ in the direction i runs. */
  method PackText(c: Converter, value: seq<Byte>, data: array<int>, at: nat)
    requires c.Text? && at + c.size <= data.Length
    modifies data
    ensures data[..] == Spliced(old(data[..]), at, TextRegisters(c, old(data[at..at + c.size]), value))
  {
    var stream := Stream(value, c.size);
    ghost var was := data[..];
    var pos := 0;
    for k := 0 to c.size
      invariant pos <= |stream| && Extracting(c, was, data[..], at, stream, k, pos)
    {
      var i := PlaceOf(c, k);
      var found, ch, next := ReadChar(stream, pos);
      ExtractingStep(c, was, data[..], at, stream, k, pos, found, ch, next);
      if found {
        SetByte(data, at + i, c.byteSwap, ch);
      }
      pos := next;
    }
    ExtractingEnds(c, was, data[..], at, value, pos);
  }

  lemma ExtractingEnds(c: Converter, was: seq<int>, now: seq<int>, at: nat, value: seq<Byte>, pos: nat)
    requires c.Text? && pos <= |Stream(value, c.size)| && at + c.size <= |was|
    requires Extracting(c, was, now, at, Stream(value, c.size), c.size, pos)
    ensures now == Spliced(was, at, TextRegisters(c, was[at..at + c.size], value))
  {
    var stream := Stream(value, c.size);
    VisibleGrows(stream, pos, |stream|);
    assert now[at..at + c.size] == TextRegisters(c, was[at..at + c.size], value);
  }

  /** TMQTTTextConverter::Unpack; again one loop for the two directions. */
  method UnpackText(c: Converter, data: array<int>, at: nat) returns (value: seq<int>)
    requires c.Text? && at + c.size <= data.Length
    ensures value == TextValue(c, data[at..at + c.size])
  {
    var result: seq<int> := [];
    ghost var w := data[at..at + c.size];
    for k := 0 to c.size
      invariant result == Characters(c, w)[..k]
    {
      result := result + [ByteOf(data[at + PlaceOf(c, k)], c.byteSwap)];
    }
    value := UpToNul(result);
  }

  // ---------- what text survives ----------

  /** The characters of a value the registers have room for. */
  function Head(value: seq<Byte>, size: nat): (r: seq<Byte>)
    ensures |r| <= size
  {
    if |value| <= size then value else value[..size]
  }

  predicate NoSpaces(s: seq<Byte>) {
    forall i | 0 <= i < |s| :: !IsSpace(s[i])
  }

  predicate NoNuls(s: seq<Byte>) {
    forall i | 0 <= i < |s| :: s[i] != 0
  }

  /** Without whitespace among its first n characters a stream yields them all. */
  lemma {:induction false} AllVisible(s: seq<Byte>, n: nat)
    requires n <= |s| && forall i | 0 <= i < n :: !IsSpace(s[i])
    ensures Visible(s, n) == s[..n]
  {
    if n > 0 {
      AllVisible(s, n - 1);
      assert s[..n] == s[..n - 1] + [s[n - 1]];
    }
  }

  lemma {:induction false} VisibleIsNoSpace(s: seq<Byte>, n: nat)
    requires n <= |s|
    ensures NoSpaces(Visible(s, n))
  {
    if n > 0 {
      VisibleIsNoSpace(s, n - 1);
    }
  }

  /** What Unpack reads back at place i. */
  lemma CharacterBack(c: Converter, was: seq<int>, value: seq<Byte>, i: nat)
    requires c.Text? && |was| == c.size && i < c.size && AllWords(was)
    ensures var stream := Stream(value, c.size);
            var chars := Visible(stream, |stream|);
            Characters(c, TextRegisters(c, was, value))[i]
              == if i < |chars| then chars[i] else ByteOf(was[PlaceOf(c, i)], c.byteSwap)
  {
    var stream := Stream(value, c.size);
    var chars := Visible(stream, |stream|);
    var p := PlaceOf(c, i);
    assert PlaceOf(c, p) == i;
    assert 0 <= was[p] < 65536;
    assert TextRegisters(c, was, value)[p] == Placed(c, was[p], chars, i);
  }

  /** The first characters replaced by those extracted. */
  function Overlaid(chars: seq<Byte>, was: seq<int>): (r: seq<int>)
    ensures |r| == |was|
  {
    seq(|was|, i requires 0 <= i < |was| => if i < |chars| then chars[i] else was[i])
  }

  /** Main result: every text is read back as the characters extracted, followed by those the registers still hold. */
  lemma TextReadsBack(c: Converter, was: seq<int>, value: seq<Byte>)
    requires c.Text? && |was| == c.size && AllWords(was)
    ensures TextValue(c, TextRegisters(c, was, value))
         == UpToNul(Overlaid(Extracted(value, c.size), Characters(c, was)))
  {
    var back := Characters(c, TextRegisters(c, was, value));
    forall i | 0 <= i < c.size
      ensures back[i] == Overlaid(Extracted(value, c.size), Characters(c, was))[i]
    {
      CharacterBack(c, was, value, i);
    }
    assert back == Overlaid(Extracted(value, c.size), Characters(c, was));
  }

  /** Registers of which Pack leaves the same bytes alone. */
  predicate SameOtherBytes(c: Converter, was: seq<int>, was': seq<int>)
    requires c.Text?
  {
    && |was| == |was'| == c.size && AllWords(was) && AllWords(was')
    && forall p | 0 <= p < c.size :: ByteOf(was[p], !c.byteSwap) == ByteOf(was'[p], !c.byteSwap)
  }

  /** Packing the value leaves nothing of what was there. */
  ghost predicate OverwritesAll(c: Converter, value: seq<Byte>)
    requires c.Text?
  {
    forall was, was' | SameOtherBytes(c, was, was') :: TextRegisters(c, was, value) == TextRegisters(c, was', value)
  }

  /** It does so exactly if a character is extracted for every register; each one that is skipped may leave one. */
  lemma OverwritesExactly(c: Converter, value: seq<Byte>)
    requires c.Text?
    ensures OverwritesAll(c, value) <==> Fills(value, c.size)
  {
    if Fills(value, c.size) {
      forall was, was' | SameOtherBytes(c, was, was')
        ensures TextRegisters(c, was, value) == TextRegisters(c, was', value)
      {
        FullyOverwritten(c, was, was', value);
      }
    } else {
      var p := PlaceOf(c, |Extracted(value, c.size)|);
      var was := seq(c.size, _ => 0);
      var was' := was[p := WithByte(0, c.byteSwap, 1)];
      assert TextRegisters(c, was, value)[p] != TextRegisters(c, was', value)[p];
      assert SameOtherBytes(c, was, was');
    }
  }

  lemma FullyOverwritten(c: Converter, was: seq<int>, was': seq<int>, value: seq<Byte>)
    requires c.Text? && SameOtherBytes(c, was, was') && Fills(value, c.size)
    ensures TextRegisters(c, was, value) == TextRegisters(c, was', value)
  {
    forall p | 0 <= p < c.size
      ensures TextRegisters(c, was, value)[p] == TextRegisters(c, was', value)[p]
    {
      assert ByteOf(was[p], !c.byteSwap) == ByteOf(was'[p], !c.byteSwap);
    }
  }

  /** Packing " a" where "xy" was leaves "ay". */
  lemma LeftoverCharacter()
    ensures var c := Text(2, false, false);
      TextRegisters(c, [120, 121], [32, 97]) == [97, 121] && TextValue(c, [97, 121]) == [97, 121]
  {
    var c := Text(2, false, false);
    assert Stream([32, 97], 2) == [32, 97];
    assert Visible([32, 97], 1) == [] && Visible([32, 97], 2) == [97];
    assert Extracted([32, 97], 2) == [97];
    LengthIs([97, 121], 2);
    assert Characters(c, [97, 121]) == [97, 121];
  }

  /** Text without whitespace in its first size characters fills the registers. */
  lemma CleanFills(value: seq<Byte>, size: nat)
    requires NoSpaces(Head(value, size))
    ensures Fills(value, size)
  {
    AllVisible(Stream(value, size), size);
    VisibleGrows(Stream(value, size), size, |Stream(value, size)|);
  }

  /**
   * Main result: whatever the registers held, a text without whitespace in its first size characters is read back as
   * those characters up to the first NUL, under all swap settings.
   */
  lemma TextRoundTrip(c: Converter, was: seq<int>, value: seq<Byte>)
    requires c.Text? && |was| == c.size && AllWords(was) && NoSpaces(Head(value, c.size))
    ensures TextValue(c, TextRegisters(c, was, value)) == UpToNul(Head(value, c.size))
  {
    var stream, head := Stream(value, c.size), Head(value, c.size);
    var chars := Visible(stream, |stream|);
    AllVisible(stream, c.size);
    VisibleGrows(stream, c.size, |stream|);
    var back := Characters(c, TextRegisters(c, was, value));
    forall i | 0 <= i < c.size
      ensures back[i] == if i < |head| then head[i] else 0
    {
      CharacterBack(c, was, value, i);
      assert chars[i] == stream[..c.size][i];
    }
    LengthIs(back, Length(head));
    assert back[..Length(head)] == head[..Length(head)];
  }

  lemma {:induction false} LengthIs(s: seq<int>, n: nat)
    requires n <= |s| && (forall i | 0 <= i < n :: s[i] != 0) && (n < |s| ==> s[n] == 0)
    ensures Length(s) == n
  {
  }

  /**
   * On registers whose used bytes are zero, as at startup, a text comes back as its first size characters exactly
   * when there is neither whitespace nor a NUL among them.
   */
  lemma TextRoundTripExactly(c: Converter, was: seq<int>, value: seq<Byte>)
    requires c.Text? && |was| == c.size && AllWords(was)
    requires forall p | 0 <= p < c.size :: ByteOf(was[p], c.byteSwap) == 0
    ensures TextValue(c, TextRegisters(c, was, value)) == Head(value, c.size)
      <==> NoSpaces(Head(value, c.size)) && NoNuls(Head(value, c.size))
  {
    var stream, head := Stream(value, c.size), Head(value, c.size);
    var chars := Visible(stream, |stream|);
    var back := Characters(c, TextRegisters(c, was, value));
    if NoSpaces(head) && NoNuls(head) {
      TextRoundTrip(c, was, value);
      LengthIs(head, |head|);
    }
    if UpToNul(back) == head {
      VisibleIsNoSpace(stream, |stream|);
      forall i | 0 <= i < |head|
        ensures !IsSpace(head[i]) && head[i] != 0
      {
        CharacterBack(c, was, value, i);
        assert back[i] == UpToNul(back)[i] == head[i];
      }
    }
  }

  /** Packing text leaves the other byte of every register alone. */
  lemma OtherBytesKept(c: Converter, was: seq<int>, value: seq<Byte>)
    requires c.Text? && |was| == c.size && AllWords(was)
    ensures var w := TextRegisters(c, was, value);
            AllWords(w) && forall p | 0 <= p < c.size :: ByteOf(w[p], !c.byteSwap) == ByteOf(was[p], !c.byteSwap)
  {
  }
}
