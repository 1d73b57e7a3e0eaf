/**
 * The register converters of src/mqtt_converters.cpp at the level of integers and registers. A converter's fields are
 * set by its constructor and never change, so a converter is a value; packing writes into a cache table in place.
 * Registers hold two bytes, the low one first in memory.
 */
module Converters {
  import opened Modbus

  datatype IntegerType = Signed | Unsigned | Bcd

  /** size is in bytes, except for Text, where it is the number of characters and of registers. */
  datatype Converter =
    | Discr
    | Integer(kind: IntegerType, size: nat, byteSwap: bool, wordSwap: bool)
    | Float(size: nat, byteSwap: bool, wordSwap: bool)
    | Text(size: nat, byteSwap: bool, wordSwap: bool)

  /** TMQTTIntConverter(): the size is rounded up to 2, 4 or 8. */
  function NewInteger(kind: IntegerType, size: nat, byteSwap: bool, wordSwap: bool): Converter {
    Integer(kind, if size > 4 then 8 else if size > 2 then 4 else 2, byteSwap, wordSwap)
  }

  /** TMQTTFloatConverter(): the size is rounded up to 4 or 8. */
  function NewFloat(size: nat, byteSwap: bool, wordSwap: bool): Converter {
    Float(if size > 4 then 8 else 4, byteSwap, wordSwap)
  }

  /** What the constructors produce. */
  predicate Proper(c: Converter) {
    match c
    case Integer(_, size, _, _) => size == 2 || size == 4 || size == 8
    case Float(size, _, _) => size == 4 || size == 8
    case _ => true
  }

  /** How many cells of the table a converter touches. */
  function Footprint(c: Converter): nat {
    match c
    case Discr => 1
    case Text(size, _, _) => size
    case _ => c.size / 2
  }

  predicate AllWords(s: seq<int>) {
    forall i | 0 <= i < |s| :: 0 <= s[i] < 65536
  }

  // ---------- byte and word swaps ----------

  function SwapByte(w: int): int {
    w % 256 * 256 + w / 256
  }

  function SwappedBytes(s: seq<int>): (r: seq<int>)
    ensures |r| == |s|
  {
    seq(|s|, i requires 0 <= i < |s| => SwapByte(s[i]))
  }

  function Reversed(s: seq<int>): (r: seq<int>)
    ensures |r| == |s|
  {
    seq(|s|, i requires 0 <= i < |s| => s[|s| - 1 - i])
  }

  /** _SwapBytes: swaps the bytes of every register in place. */
  method SwapBytes(data: array<int>)
    requires AllWords(data[..])
    modifies data
    ensures data[..] == SwappedBytes(old(data[..])) && AllWords(data[..])
  {
    for i := 0 to data.Length
      invariant forall j | 0 <= j < i :: data[j] == SwapByte(old(data[j]))
      invariant forall j | i <= j < data.Length :: data[j] == old(data[j])
    {
      var tmp := data[i] % 256;
      assert old(data[..])[i] == data[i];
      data[i] := data[i] / 256;
      data[i] := data[i] + tmp * 256;
    }
    forall j | 0 <= j < data.Length
      ensures 0 <= data[j] < 65536
    {
      assert old(data[..])[j] == old(data[j]);
    }
  }

  /** _SwapWords: reverses the order of the registers in place. */
  method SwapWords(data: array<int>)
    requires AllWords(data[..])
    modifies data
    ensures data[..] == Reversed(old(data[..])) && AllWords(data[..])
  {
    var n := data.Length;
    for i := 0 to n / 2
      invariant forall j | 0 <= j < i :: data[j] == old(data[n - 1 - j]) && data[n - 1 - j] == old(data[j])
      invariant forall j | i <= j < n - i :: data[j] == old(data[j])
    {
      data[i], data[n - i - 1] := data[n - i - 1], data[i];
    }
    ghost var was := old(data[..]);
    forall j | 0 <= j < n
      ensures data[j] == was[n - 1 - j] && 0 <= data[j] < 65536
    {
      assert was[n - 1 - j] == old(data[n - 1 - j]);
      assert j >= n / 2 ==> data[n - 1 - (n - 1 - j)] == old(data[n - 1 - j]);
    }
  }

  /** Both swaps undo themselves, and they commute. */
  lemma SwapsInvolute(s: seq<int>)
    requires AllWords(s)
    ensures SwappedBytes(SwappedBytes(s)) == s && Reversed(Reversed(s)) == s
    ensures SwappedBytes(Reversed(s)) == Reversed(SwappedBytes(s))
    ensures AllWords(SwappedBytes(s)) && AllWords(Reversed(s))
  {
  }

  // ---------- an integer as registers ----------

  /** 65536 to the power n. */
  function Limit(n: nat): (p: nat)
    ensures p > 0
  {
    if n == 0 then 1 else 65536 * Limit(n - 1)
  }

  /** The n low registers of v, the least significant one first: the regs of the union in Pack and Unpack. */
  function Words(v: nat, n: nat): (s: seq<int>)
    ensures |s| == n && AllWords(s)
    decreases n
  {
    if n == 0 then [] else [v % 65536] + Words(v / 65536, n - 1)
  }

  function Number(s: seq<int>): (v: nat)
    requires AllWords(s)
    ensures v < Limit(|s|)
    decreases |s|
  {
    if s == [] then 0 else s[0] + 65536 * Number(s[1..])
  }

  /** Registers and number determine each other. */
  lemma {:induction false} WordsOfNumber(s: seq<int>)
    requires AllWords(s)
    ensures Words(Number(s), |s|) == s
    decreases |s|
  {
    if s != [] {
      WordsOfNumber(s[1..]);
    }
  }

  lemma {:induction false} NumberOfWords(v: nat, n: nat)
    ensures Number(Words(v, n)) == v % Limit(n)
    decreases n
  {
    if n > 0 {
      NumberOfWords(v / 65536, n - 1);
      assert Words(v, n)[1..] == Words(v / 65536, n - 1);
      SplitModulo(v, Limit(n - 1));
    }
  }

  lemma SplitModulo(v: nat, m: nat)
    requires m > 0
    ensures v % 65536 + 65536 * (v / 65536 % m) == v % (65536 * m)
  {
    var q, r := v / 65536 / m, v % 65536 + 65536 * (v / 65536 % m);
    assert v / 65536 == q * m + v / 65536 % m;
    assert v == q * (65536 * m) + r;
    DivUnique(v, 65536 * m, q, r);
  }

  // ---------- binary-coded decimal ----------

  function Pow10(k: nat): (p: nat)
    ensures p > 0
  {
    if k == 0 then 1 else 10 * Pow10(k - 1)
  }

  function Pow16(k: nat): (p: nat)
    ensures p > 0
  {
    if k == 0 then 1 else 16 * Pow16(k - 1)
  }

  /** The decimal digits of v, one in each nibble. */
  function ToBcd(v: nat): nat {
    if v == 0 then 0 else v % 10 + 16 * ToBcd(v / 10)
  }

  function FromBcd(b: nat): nat {
    if b == 0 then 0 else b % 16 + 10 * FromBcd(b / 16)
  }

  predicate DecimalNibbles(b: nat) {
    b == 0 || (b % 16 <= 9 && DecimalNibbles(b / 16))
  }

  lemma {:induction false} FromToBcd(v: nat)
    ensures FromBcd(ToBcd(v)) == v && DecimalNibbles(ToBcd(v))
  {
    if v > 0 {
      FromToBcd(v / 10);
      assert ToBcd(v) % 16 == v % 10 && ToBcd(v) / 16 == ToBcd(v / 10);
    }
  }

  lemma {:induction false} ToFromBcd(b: nat)
    requires DecimalNibbles(b)
    ensures ToBcd(FromBcd(b)) == b
  {
    if b > 0 {
      ToFromBcd(b / 16);
      assert FromBcd(b) % 10 == b % 16 && FromBcd(b) / 10 == FromBcd(b / 16);
    }
  }

  lemma SplitDigit(v: nat, base: nat, m: nat)
    requires base > 0 && m > 0
    ensures base * m > 0 && v % (base * m) == v % base + base * (v / base % m)
  {
    var q, r := v / base / m, v % base + base * (v / base % m);
    assert v / base == q * m + v / base % m;
    assert v == base * (v / base) + v % base;
    assert base * (q * m) == q * (base * m);
    assert v == q * (base * m) + r;
    DigitBelow(v % base, base, v / base % m, m);
    DivUnique(v, base * m, q, r);
  }

  lemma DigitBelow(x: nat, base: nat, y: nat, m: nat)
    requires x < base && y < m
    ensures x + base * y < base * m
  {
    MulGrows(base, m - y);
    assert base * m == base * y + base * (m - y);
  }

  lemma {:induction false} MulGrows(a: nat, t: nat)
    requires t > 0
    ensures a * t >= a
  {
  }

  /** Truncating the nibbles is truncating the digits. */
  lemma {:induction false} TruncatedBcd(v: nat, k: nat)
    ensures ToBcd(v) % Pow16(k) == ToBcd(v % Pow10(k))
  {
    if k > 0 {
      SplitDigit(v, 10, Pow10(k - 1));
      SplitDigit(ToBcd(v), 16, Pow16(k - 1));
      TruncatedBcd(v / 10, k - 1);
      BcdDigits(v);
      BcdOf(v % 10, v / 10 % Pow10(k - 1));
    }
  }

  lemma {:induction false} BcdDigits(v: nat)
    ensures ToBcd(v) % 16 == v % 10 && ToBcd(v) / 16 == ToBcd(v / 10)
  {
  }

  lemma {:induction false} BcdOf(digit: nat, rest: nat)
    requires digit < 10
    ensures ToBcd(digit + 10 * rest) == digit + 16 * ToBcd(rest)
  {
  }

  newtype int32 = x: int | -0x8000_0000 <= x < 0x8000_0000

  /** _IntToBcd: offset runs through the nibbles; a 64-bit word has sixteen of them. */
  method IntToBcd(v: nat) returns (bcd: nat)
    requires v < Pow10(16)
    ensures bcd == ToBcd(v)
  {
    var val: nat, offset: nat := v, 0;
    bcd := 0;
    while val > 0
      invariant offset <= 16 && val < Pow10(16 - offset)
      invariant BcdPart(bcd, offset, val) == ToBcd(v)
      decreases val
    {
      NextNibble(bcd, offset, val);
      assert Pow10(16 - offset) == if offset == 16 then 1 else 10 * Pow10(15 - offset);
      bcd := bcd + val % 10 * Pow16(offset);
      offset := offset + 1;
      val := val / 10;
    }
  }

  /** bcd holds the nibbles below offset, and val is still to come. */
  function BcdPart(bcd: nat, offset: nat, val: nat): nat {
    bcd + Pow16(offset) * ToBcd(val)
  }

  lemma NextNibble(bcd: nat, offset: nat, val: nat)
    requires val > 0
    ensures bcd + val % 10 * Pow16(offset) >= 0
    ensures BcdPart(bcd, offset, val) == BcdPart(bcd + val % 10 * Pow16(offset), offset + 1, val / 10)
  {
  }

  /** _BcdToInt: its multiplier is an int, which holds the powers of ten up to the ninth. */
  method BcdToInt(b: nat) returns (result: nat)
    requires b < Pow16(9)
    ensures result == FromBcd(b)
  {
    var bcd: nat := b;
    var offset: int32 := 1;
    result := 0;
    ghost var k: nat := 0;
    while bcd > 0
      invariant k <= 9 && bcd < Pow16(9 - k) && offset as int == Pow10(k)
      invariant DigitPart(result, k, bcd) == FromBcd(b)
      decreases bcd
    {
      NextDigit(result, k, bcd);
      TenToThe(k);
      assert Pow16(9 - k) == if k == 9 then 1 else 16 * Pow16(8 - k);
      result := result + bcd % 16 * offset as int;
      offset := offset * 10;
      bcd := bcd / 16;
      k := k + 1;
    }
  }

  function DigitPart(result: nat, k: nat, bcd: nat): nat {
    result + Pow10(k) * FromBcd(bcd)
  }

  lemma TenToThe(k: nat)
    requires k < 9
    ensures Pow10(k + 1) <= 1000000000
  {
    assert Pow10(9) == 1000000000;
    TenGrows(k + 1, 9);
  }

  lemma {:induction false} TenGrows(j: nat, k: nat)
    requires j <= k
    ensures Pow10(j) <= Pow10(k)
  {
    if j < k {
      TenGrows(j, k - 1);
    }
  }

  lemma NextDigit(result: nat, k: nat, bcd: nat)
    requires bcd > 0
    ensures result + bcd % 16 * Pow10(k) >= 0
    ensures DigitPart(result, k, bcd) == DigitPart(result + bcd % 16 * Pow10(k), k + 1, bcd / 16)
  {
  }

  // ---------- integers in a cache table ----------

  /** The table cells from at on replaced by w. */
  function Spliced(s: seq<int>, at: nat, w: seq<int>): (r: seq<int>)
    requires at + |w| <= |s|
    ensures |r| == |s|
  {
    s[..at] + w + s[at + |w|..]
  }

  /** The swap settings as Pack applies them: words first. */
  function PackSwaps(s: seq<int>, byteSwap: bool, wordSwap: bool): seq<int> {
    var t := if wordSwap then Reversed(s) else s;
    if byteSwap then SwappedBytes(t) else t
  }

  /** The swap settings as Unpack applies them: bytes first. */
  function UnpackSwaps(s: seq<int>, byteSwap: bool, wordSwap: bool): seq<int> {
    var t := if byteSwap then SwappedBytes(s) else s;
    if wordSwap then Reversed(t) else t
  }

  lemma SwapsUndone(s: seq<int>, byteSwap: bool, wordSwap: bool)
    requires AllWords(s)
    ensures AllWords(PackSwaps(s, byteSwap, wordSwap)) && |PackSwaps(s, byteSwap, wordSwap)| == |s|
    ensures UnpackSwaps(PackSwaps(s, byteSwap, wordSwap), byteSwap, wordSwap) == s
  {
    SwapsInvolute(s);
    SwapsInvolute(Reversed(s));
  }

  /** The values the integer type can hold, and for BCD those whose digits fit the 64-bit word. */
  predicate InRange(kind: IntegerType, size: nat, value: int) {
    match kind
    case Signed => 0 <= 2 * value + Limit(size / 2) < 2 * Limit(size / 2)
    case Unsigned => 0 <= value < Limit(size / 2)
    case Bcd => 0 <= value < Limit(size / 2) && value < Pow10(16)
  }

  /** The registers of the union before they are swapped; the assignment to it drops what does not fit. */
  function RawRegisters(kind: IntegerType, n: nat, value: int): (s: seq<int>)
    requires InRange(kind, 2 * n, value)
    ensures |s| == n && AllWords(s)
  {
    match kind
    case Signed => Words(if value < 0 then value + Limit(n) else value, n)
    case Unsigned => Words(value, n)
    case Bcd => Words(ToBcd(value), n)
  }

  /** The registers Pack writes, most significant first unless words are swapped. */
  function IntegerRegisters(c: Converter, value: int): (w: seq<int>)
    requires c.Integer? && Proper(c) && InRange(c.kind, c.size, value)
  {
    Reversed(PackSwaps(RawRegisters(c.kind, c.size / 2, value), c.byteSwap, c.wordSwap))
  }

  /** Unpack can read the registers: _BcdToInt overflows its int multiplier beyond nine digits. */
  predicate Decodable(c: Converter, w: seq<int>)
    requires c.Integer? && AllWords(w)
  {
    c.kind == Bcd ==> WordFrom(w, c.byteSwap, c.wordSwap) < Pow16(9)
  }

  /** The number Unpack reads from registers, before it is scaled. */
  function IntegerValue(c: Converter, w: seq<int>): int
    requires c.Integer? && AllWords(w) && Decodable(c, w)
  {
    ReadAs(c.kind, |w|, WordFrom(w, c.byteSwap, c.wordSwap))
  }

  /** An n-register word as val, uval or _BcdToInt(uval). */
  function ReadAs(kind: IntegerType, n: nat, word: nat): int {
    match kind
    case Signed => if 2 * word >= Limit(n) then word - Limit(n) else word
    case Unsigned => word
    case Bcd => FromBcd(word)
  }

  function WordFrom(w: seq<int>, byteSwap: bool, wordSwap: bool): nat
    requires AllWords(w)
  {
    SwapsKeepWords(Reversed(w), byteSwap, wordSwap);
    Number(UnpackSwaps(Reversed(w), byteSwap, wordSwap))
  }

  lemma SwapsKeepWords(s: seq<int>, byteSwap: bool, wordSwap: bool)
    requires AllWords(s)
    ensures AllWords(UnpackSwaps(s, byteSwap, wordSwap)) && |UnpackSwaps(s, byteSwap, wordSwap)| == |s|
    ensures AllWords(PackSwaps(s, byteSwap, wordSwap)) && |PackSwaps(s, byteSwap, wordSwap)| == |s|
  {
  }

  /** The word survives packing and unpacking under every swap setting. */
  lemma PackedWords(s: seq<int>, byteSwap: bool, wordSwap: bool)
    requires AllWords(s)
    ensures var w := Reversed(PackSwaps(s, byteSwap, wordSwap));
            AllWords(w) && |w| == |s| && WordFrom(w, byteSwap, wordSwap) == Number(s)
  {
    SwapsUndone(s, byteSwap, wordSwap);
    SwapsInvolute(PackSwaps(s, byteSwap, wordSwap));
  }

  /** What a value becomes: itself, or for BCD its digits that fit the registers. */
  function Kept(kind: IntegerType, n: nat, value: int): int {
    if kind == Bcd then value % Pow10(4 * n) else value
  }

  lemma LimitIsNibbles(n: nat)
    ensures Limit(n) == Pow16(4 * n)
  {
    if n > 0 {
      LimitIsNibbles(n - 1);
      assert Pow16(4 * n) == 16 * Pow16(4 * n - 1) == 256 * Pow16(4 * n - 2) == 4096 * Pow16(4 * n - 3);
    }
  }

  lemma {:induction false} SmallNumber(v: nat, n: nat)
    requires v < Limit(n)
    ensures Number(Words(v, n)) == v
    decreases n
  {
    if n > 0 {
      SmallNumber(v / 65536, n - 1);
      assert Words(v, n)[1..] == Words(v / 65536, n - 1);
    }
  }

  lemma BcdWord(v: nat, n: nat)
    ensures v % Pow10(4 * n) >= 0 && Number(Words(ToBcd(v), n)) == ToBcd(v % Pow10(4 * n))
  {
    NumberOfWords(ToBcd(v), n);
    LimitIsNibbles(n);
    TruncatedBcd(v, 4 * n);
  }

  lemma BcdNumber(v: nat, n: nat)
    ensures FromBcd(Number(Words(ToBcd(v), n))) == v % Pow10(4 * n)
  {
    BcdWord(v, n);
    FromToBcd(v % Pow10(4 * n));
  }

  lemma RawNumber(kind: IntegerType, n: nat, value: int)
    requires InRange(kind, 2 * n, value)
    ensures ReadAs(kind, n, Number(RawRegisters(kind, n, value))) == Kept(kind, n, value)
  {
    match kind
    case Bcd => BcdNumber(value, n);
    case Unsigned => SmallNumber(value, n);
    case Signed =>
      var word := if value < 0 then value + Limit(n) else value;
      SmallNumber(word, n);
  }

  /** The registers packed spell the word the union holds. */
  lemma RegistersSpell(c: Converter, value: int)
    requires c.Integer? && Proper(c) && InRange(c.kind, c.size, value)
    ensures 2 * (c.size / 2) == c.size && |IntegerRegisters(c, value)| == c.size / 2
    ensures AllWords(IntegerRegisters(c, value))
    ensures var w := IntegerRegisters(c, value);
      WordFrom(w, c.byteSwap, c.wordSwap) == Number(RawRegisters(c.kind, c.size / 2, value))
  {
    var n := c.size / 2;
    assert 2 * n == c.size;
    PackedWords(RawRegisters(c.kind, n, value), c.byteSwap, c.wordSwap);
  }

  /** The value, or for BCD what the registers hold of it, is one Unpack can read back. */
  predicate ReadsBack(kind: IntegerType, n: nat, value: int) {
    kind == Bcd ==> Kept(Bcd, n, value) < Pow10(9)
  }

  /**
   * Main result: for every size and all four swap settings, Unpack after Pack gives back every signed or unsigned value
   * in range, and of a BCD value the digits the registers hold if these are at most nine. With more it cannot be
   * called.
   */
  lemma IntegerRoundTrip(c: Converter, value: int)
    requires c.Integer? && Proper(c) && InRange(c.kind, c.size, value)
    ensures AllWords(IntegerRegisters(c, value)) && |IntegerRegisters(c, value)| == Footprint(c)
    ensures Decodable(c, IntegerRegisters(c, value)) <==> ReadsBack(c.kind, c.size / 2, value)
    ensures Decodable(c, IntegerRegisters(c, value)) ==>
      IntegerValue(c, IntegerRegisters(c, value)) == Kept(c.kind, c.size / 2, value)
  {
    RegistersSpell(c, value);
    RawNumber(c.kind, c.size / 2, value);
    if c.kind == Bcd {
      BcdReadsBack(c, value);
    }
  }

  /** The least value with ten digits is packed, but cannot be unpacked. */
  lemma TenDigits()
    ensures var c := Integer(Bcd, 8, false, false);
      && Proper(c) && InRange(Bcd, 8, 1_000_000_000) && AllWords(IntegerRegisters(c, 1_000_000_000))
      && !Decodable(c, IntegerRegisters(c, 1_000_000_000))
  {
    TenDigitsInRange();
    IntegerRoundTrip(Integer(Bcd, 8, false, false), 1_000_000_000);
  }

  lemma TenDigitsInRange()
    ensures InRange(Bcd, 8, 1_000_000_000) && !ReadsBack(Bcd, 4, 1_000_000_000)
  {
    FourRegisters();
    PowersOfTen();
  }

  lemma FourRegisters()
    ensures Limit(4) == 65536 * 65536 * 65536 * 65536
  {
    assert Limit(4) == 65536 * Limit(3) == 65536 * 65536 * Limit(2) == 65536 * 65536 * 65536 * Limit(1);
    assert Limit(1) == 65536;
  }

  lemma PowersOfTen()
    ensures Pow10(9) == 1_000_000_000 && Pow10(16) == 10_000_000_000_000_000
  {
    assert Pow10(4) == 10 * Pow10(3) == 100 * Pow10(2) == 1000 * Pow10(1) == 10_000;
    assert Pow10(8) == 10 * Pow10(7) == 100 * Pow10(6) == 1000 * Pow10(5) == 10_000 * Pow10(4);
    assert Pow10(12) == 10 * Pow10(11) == 100 * Pow10(10) == 1000 * Pow10(9) == 10_000 * Pow10(8);
    assert Pow10(16) == 10 * Pow10(15) == 100 * Pow10(14) == 1000 * Pow10(13) == 10_000 * Pow10(12);
  }

  /** The swaps act on the big-endian registers themselves. */
  lemma SwapsOfRegisters(c: Converter, value: int)
    requires c.Integer? && Proper(c) && InRange(c.kind, c.size, value)
    ensures IntegerRegisters(c, value) ==
            PackSwaps(IntegerRegisters(Integer(c.kind, c.size, false, false), value), c.byteSwap, c.wordSwap)
  {
    var s := RawRegisters(c.kind, c.size / 2, value);
    SwapsInvolute(s);
    SwapsInvolute(Reversed(s));
  }

  /** Without swaps the high register comes first, and each setting changes what it says. */
  lemma HighRegisterFirst(high: nat, low: nat)
    requires high < 65536 && low < 65536
    ensures var value := high * 65536 + low;
      && InRange(Unsigned, 4, value)
      && IntegerRegisters(Integer(Unsigned, 4, false, false), value) == [high, low]
      && IntegerRegisters(Integer(Unsigned, 4, true, false), value) == [SwapByte(high), SwapByte(low)]
      && IntegerRegisters(Integer(Unsigned, 4, false, true), value) == [low, high]
  {
    TwoWords(high, low);
    var s := [low, high];
    assert Reversed(s) == [high, low] && SwappedBytes(s) == [SwapByte(low), SwapByte(high)];
    assert Reversed(SwappedBytes(s)) == [SwapByte(high), SwapByte(low)] && Reversed(Reversed(s)) == s;
  }

  lemma TwoWords(high: nat, low: nat)
    requires high < 65536 && low < 65536
    ensures Limit(2) == 65536 * 65536 && Words(high * 65536 + low, 2) == [low, high]
  {
    assert Limit(1) == 65536 && (high * 65536 + low) / 65536 == high;
    assert Words(high, 1) == [high];
  }

  /** The switch on Type in Pack: what the assignments to val and uval leave in regs. */
  method LoadUnion(kind: IntegerType, n: nat, value: int) returns (regs: array<int>)
    requires InRange(kind, 2 * n, value)
    ensures fresh(regs) && regs[..] == RawRegisters(kind, n, value)
  {
    var uval: nat := if value < 0 then value + Limit(n) else value;
    if kind == Bcd {
      uval := IntToBcd(uval);
    }
    regs := NewArray(Words(uval, n));
  }

  /** The swaps of Pack, on regs. */
  method ApplyPackSwaps(regs: array<int>, byteSwap: bool, wordSwap: bool)
    requires AllWords(regs[..])
    modifies regs
    ensures regs[..] == PackSwaps(old(regs[..]), byteSwap, wordSwap) && AllWords(regs[..])
  {
    if wordSwap {
      SwapWords(regs);
    }
    if byteSwap {
      SwapBytes(regs);
    }
  }

  /** The swaps of Unpack, on regs. */
  method ApplyUnpackSwaps(regs: array<int>, byteSwap: bool, wordSwap: bool)
    requires AllWords(regs[..])
    modifies regs
    ensures regs[..] == UnpackSwaps(old(regs[..]), byteSwap, wordSwap) && AllWords(regs[..])
  {
    if byteSwap {
      SwapBytes(regs);
    }
    if wordSwap {
      SwapWords(regs);
    }
  }

  /** The loop that ends Pack: from the last register to the first, the low word of uval. */
  method StoreWords(data: array<int>, at: nat, s: seq<int>)
    requires AllWords(s) && at + |s| <= data.Length
    modifies data
    ensures data[..] == Spliced(old(data[..]), at, Reversed(s))
  {
    var n := |s|;
    ghost var t := Reversed(s);
    var uval := Number(s);
    for i := n downto 0
      invariant uval == Number(s[n - i..])
      invariant forall j | 0 <= j < at + i || at + n <= j < data.Length :: data[j] == old(data[j])
      invariant forall j, l | i <= j < n && l == at + j :: data[l] == t[j]
    {
      assert s[n - i - 1..][1..] == s[n - i..];
      assert s[n - i - 1..][0] == s[n - i - 1];
      data[at + i] := uval % 65536;
      uval := uval / 65536;
    }
    assert data[at..at + n] == t;
  }

  /** TMQTTIntConverter::Pack at scale 1, after the text has been read as a number. */
  method PackInteger(c: Converter, value: int, data: array<int>, at: nat)
    requires c.Integer? && Proper(c) && InRange(c.kind, c.size, value)
    requires at + Footprint(c) <= data.Length
    modifies data
    ensures data[..] == Spliced(old(data[..]), at, IntegerRegisters(c, value))
  {
    assert 2 * (c.size / 2) == c.size;
    var regs := LoadUnion(c.kind, c.size / 2, value);
    ApplyPackSwaps(regs, c.byteSwap, c.wordSwap);
    StoreWords(data, at, regs[..]);
  }

  /** The i registers from at on, read with the first one the most significant. */
  function BigEndian(s: seq<int>, at: nat, i: nat): nat
    requires AllWords(s) && at + i <= |s|
  {
    assert AllWords(Reversed(s[at..at + i]));
    Number(Reversed(s[at..at + i]))
  }

  lemma ShiftedIn(s: seq<int>, at: nat, i: nat)
    requires AllWords(s) && at + i < |s|
    ensures BigEndian(s, at, i + 1) == BigEndian(s, at, i) * 65536 + s[at + i]
  {
    var r := Reversed(s[at..at + i + 1]);
    assert r[1..] == Reversed(s[at..at + i]);
    assert r == [s[at + i]] + r[1..];
  }

  lemma BigEndianWords(s: seq<int>, at: nat, n: nat)
    requires AllWords(s) && at + n <= |s|
    ensures Words(BigEndian(s, at, n), n) == Reversed(s[at..at + n])
  {
    WordsOfNumber(Reversed(s[at..at + n]));
  }

  /** The loop that starts Unpack: shifts the registers into uval, the first one the most significant. */
  method LoadWords(data: array<int>, at: nat, n: nat) returns (regs: array<int>)
    requires AllWords(data[..]) && at + n <= data.Length
    ensures fresh(regs) && regs[..] == Reversed(data[at..at + n]) && AllWords(regs[..])
  {
    var uval: nat := 0;
    ghost var s := data[..];
    for i := 0 to n
      invariant uval == BigEndian(s, at, i)
    {
      ShiftedIn(s, at, i);
      uval := uval * 65536 + data[at + i];
    }
    BigEndianWords(s, at, n);
    assert data[at..at + n] == s[at..at + n];
    regs := NewArray(Words(uval, n));
  }

  method NewArray(words: seq<int>) returns (regs: array<int>)
    ensures fresh(regs) && regs[..] == words
  {
    regs := new int[|words|](i requires 0 <= i < |words| => words[i]);
  }

  /** The switch on Type in Unpack. */
  method ReadUnion(kind: IntegerType, n: nat, uval: nat) returns (value: int)
    requires kind == Bcd ==> uval < Pow16(9)
    ensures value == ReadAs(kind, n, uval)
  {
    match kind
    case Signed => value := if 2 * uval >= Limit(n) then uval - Limit(n) else uval;
    case Unsigned => value := uval;
    case Bcd => value := BcdToInt(uval);
  }

  /** TMQTTIntConverter::Unpack at scale 1, before the number is written as text. */
  method UnpackInteger(c: Converter, data: array<int>, at: nat) returns (value: int)
    requires c.Integer? && Proper(c)
    requires AllWords(data[..]) && at + Footprint(c) <= data.Length
    requires Decodable(c, data[at..at + Footprint(c)])
    ensures value == IntegerValue(c, data[at..at + Footprint(c)])
  {
    var n := c.size / 2;
    ghost var cells := data[at..at + Footprint(c)];
    var regs := LoadWords(data, at, n);
    ApplyUnpackSwaps(regs, c.byteSwap, c.wordSwap);
    assert Number(regs[..]) == WordFrom(cells, c.byteSwap, c.wordSwap) && |cells| == n;
    value := ReadUnion(c.kind, n, Number(regs[..]));
  }

  lemma {:induction false} DigitsFit(v: nat, k: nat)
    ensures v < Pow10(k) <==> ToBcd(v) < Pow16(k)
    decreases k
  {
    if k > 0 && v > 0 {
      DigitsFit(v / 10, k - 1);
      assert ToBcd(v) / 16 == ToBcd(v / 10) && ToBcd(v) % 16 == v % 10;
    } else if v > 0 {
      FromToBcd(v);
    }
  }

  /** The precondition of unpacking BCD holds after packing exactly if the digits kept are at most nine. */
  lemma BcdReadsBack(c: Converter, value: int)
    requires c.Integer? && c.kind == Bcd && Proper(c) && InRange(c.kind, c.size, value)
    ensures AllWords(IntegerRegisters(c, value))
    ensures Decodable(c, IntegerRegisters(c, value)) <==> Kept(Bcd, c.size / 2, value) < Pow10(9)
  {
    var n := c.size / 2;
    RegistersSpell(c, value);
    BcdWord(value, n);
    DigitsFit(value % Pow10(4 * n), 9);
  }

  /** Registers that spell the same word are the same. */
  lemma WordDetermines(w: seq<int>, w': seq<int>, byteSwap: bool, wordSwap: bool)
    requires AllWords(w) && AllWords(w') && |w| == |w'|
    requires WordFrom(w, byteSwap, wordSwap) == WordFrom(w', byteSwap, wordSwap)
    ensures w == w'
  {
    WordSpells(w, byteSwap, wordSwap);
    WordSpells(w', byteSwap, wordSwap);
  }

  lemma WordSpells(w: seq<int>, byteSwap: bool, wordSwap: bool)
    requires AllWords(w)
    ensures w == Reversed(PackSwaps(Words(WordFrom(w, byteSwap, wordSwap), |w|), byteSwap, wordSwap))
  {
    var s := Reversed(w);
    SwapsInvolute(w);
    SwapsInvolute(s);
    SwapsInvolute(SwappedBytes(s));
    WordsOfNumber(UnpackSwaps(s, byteSwap, wordSwap));
  }

  lemma {:induction false} ZeroWord(w: seq<int>, byteSwap: bool, wordSwap: bool)
    requires AllWords(w) && forall i | 0 <= i < |w| :: w[i] == 0
    ensures WordFrom(w, byteSwap, wordSwap) == 0
  {
    SwapsInvolute(w);
    ZeroNumber(UnpackSwaps(Reversed(w), byteSwap, wordSwap));
  }

  lemma {:induction false} ZeroNumber(s: seq<int>)
    requires forall i | 0 <= i < |s| :: s[i] == 0
    ensures Number(s) == 0
    decreases |s|
  {
    if s != [] {
      ZeroNumber(s[1..]);
    }
  }

  lemma {:induction false} FromBcdIsZero(b: nat)
    ensures FromBcd(b) == 0 <==> b == 0
  {
    if b > 0 {
      FromBcdIsZero(b / 16);
    }
  }

  /** Only zero registers are read as zero. */
  lemma OnlyZeroIsZero(c: Converter, w: seq<int>)
    requires c.Integer? && AllWords(w) && Decodable(c, w)
    ensures IntegerValue(c, w) == 0 <==> forall i | 0 <= i < |w| :: w[i] == 0
  {
    var zeros := seq(|w|, _ => 0);
    ZeroWord(zeros, c.byteSwap, c.wordSwap);
    SwapsKeepWords(Reversed(w), c.byteSwap, c.wordSwap);
    FromBcdIsZero(WordFrom(w, c.byteSwap, c.wordSwap));
    if WordFrom(w, c.byteSwap, c.wordSwap) == 0 {
      WordDetermines(w, zeros, c.byteSwap, c.wordSwap);
    } else if forall i | 0 <= i < |w| :: w[i] == 0 {
      ZeroWord(w, c.byteSwap, c.wordSwap);
    }
  }
}
