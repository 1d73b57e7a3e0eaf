/**
 * Which number or text registers stand for, written out by place: the layouts of src/mqtt_converters.cpp without the
 * steps in which it assembles them.
 */
module Layouts {
  import opened Modbus
  import opened Converters
  import opened ByteConverters

  /** Digits in some base, the most significant one first. */
  function Positional(base: nat, s: seq<int>): int {
    if s == [] then 0 else base * Positional(base, s[..|s| - 1]) + s[|s| - 1]
  }

  lemma FewDigits(base: nat, a: int, b: int, c: int, d: int)
    ensures Positional(base, [a]) == a
    ensures Positional(base, [a, b]) == base * a + b
    ensures Positional(base, [a, b, c, d]) == base * (base * (base * a + b) + c) + d
  {
    assert [a][..0] == [] && [a, b][..1] == [a] && [a, b, c][..2] == [a, b] && [a, b, c, d][..3] == [a, b, c];
  }

  /** The registers as without swap settings: byteswap exchanges the bytes of each, wordswap reverses their order. */
  function Turned(w: seq<int>, byteSwap: bool, wordSwap: bool): (t: seq<int>)
    ensures |t| == |w|
  {
    seq(|w|, i requires 0 <= i < |w| =>
      var x := w[if wordSwap then |w| - 1 - i else i];
      if byteSwap then 256 * (x % 256) + x / 256 else x)
  }

  lemma {:induction false} LowFirst(s: seq<int>)
    requires AllWords(s)
    ensures Number(s) == Positional(65536, Reversed(s))
    decreases |s|
  {
    if s != [] {
      LowFirst(s[1..]);
      assert Reversed(s)[..|s| - 1] == Reversed(s[1..]);
    }
  }

  /** The word of an integer: its registers, turned, high one first. */
  lemma WordIs(w: seq<int>, byteSwap: bool, wordSwap: bool)
    requires AllWords(w)
    ensures WordFrom(w, byteSwap, wordSwap) == Positional(65536, Turned(w, byteSwap, wordSwap))
  {
    SwapsKeepWords(Reversed(w), byteSwap, wordSwap);
    LowFirst(UnpackSwaps(Reversed(w), byteSwap, wordSwap));
    TurnedIs(w, byteSwap, wordSwap);
  }

  lemma TurnedIs(w: seq<int>, byteSwap: bool, wordSwap: bool)
    ensures Reversed(UnpackSwaps(Reversed(w), byteSwap, wordSwap)) == Turned(w, byteSwap, wordSwap)
  {
    var s := Reversed(UnpackSwaps(Reversed(w), byteSwap, wordSwap));
    forall i | 0 <= i < |w|
      ensures s[i] == Turned(w, byteSwap, wordSwap)[i]
    {
    }
  }

  /** The decimal digits in the nibbles of b. */
  function Decimal(b: nat): nat {
    if b < 10 then b else 10 * Decimal(b / 16) + b % 16
  }

  lemma {:induction false} DecimalIs(b: nat)
    ensures FromBcd(b) == Decimal(b)
  {
    if b > 0 {
      DecimalIs(b / 16);
    }
  }

  /** Digits in the nibbles of a number are its decimal digits. */
  lemma {:induction false} DecimalDigits(digits: seq<int>)
    requires forall i | 0 <= i < |digits| :: 0 <= digits[i] < 10
    ensures Positional(16, digits) >= 0 && Decimal(Positional(16, digits)) == Positional(10, digits)
    decreases |digits|
  {
    if digits != [] {
      DecimalDigits(digits[..|digits| - 1]);
    }
  }

  /** An integer of the given kind and size in bytes whose bits are word. */
  function Meant(kind: IntegerType, size: nat, word: nat): int {
    match kind
    case Unsigned => word
    case Bcd => Decimal(word)
    case Signed =>
      if size == 2 then if word < 32768 then word else word - 65536
      else if size == 4 then if word < 0x8000_0000 then word else word - 0x1_0000_0000
      else if word < 0x8000_0000_0000_0000 then word else word - 0x1_0000_0000_0000_0000
  }

  lemma Limits()
    ensures Limit(1) == 65536 && Limit(2) == 0x1_0000_0000 && Limit(4) == 0x1_0000_0000_0000_0000
    ensures Pow16(9) == 0x10_0000_0000
  {
    FourRegisters();
    assert Limit(2) == 65536 * Limit(1);
    assert Pow16(4) == 16 * Pow16(3) == 256 * Pow16(2) == 4096 * Pow16(1) == 65536;
    assert Pow16(8) == 16 * Pow16(7) == 256 * Pow16(6) == 4096 * Pow16(5) == 65536 * Pow16(4);
  }

  /** Main result: the integer any registers stand for; of BCD only words of at most nine nibbles can be read. */
  lemma IntegerMeans(c: Converter, w: seq<int>)
    requires c.Integer? && Proper(c) && |w| == c.size / 2 && AllWords(w)
    ensures var word := Positional(65536, Turned(w, c.byteSwap, c.wordSwap));
      && word >= 0 && (Decodable(c, w) <==> (c.kind == Bcd ==> word < 0x10_0000_0000))
      && (Decodable(c, w) ==> IntegerValue(c, w) == Meant(c.kind, c.size, word))
  {
    WordIs(w, c.byteSwap, c.wordSwap);
    ReadIs(c.kind, c.size, WordFrom(w, c.byteSwap, c.wordSwap));
    Limits();
  }

  lemma ReadIs(kind: IntegerType, size: nat, word: nat)
    requires size == 2 || size == 4 || size == 8
    ensures ReadAs(kind, size / 2, word) == Meant(kind, size, word)
  {
    Limits();
    DecimalIs(word);
  }

  /** Main result: the bits of the float any registers stand for; byteswap means the opposite here. */
  lemma FloatMeans(c: Converter, w: seq<int>)
    requires c.Float? && Proper(c) && |w| == c.size / 2 && AllWords(w)
    ensures FloatBits(c, w) == Positional(65536, Turned(w, !c.byteSwap, c.wordSwap))
  {
    SwapsInvolute(w);
    WordIs(SwappedBytes(w), c.byteSwap, c.wordSwap);
    TurnedBack(w, c.byteSwap, c.wordSwap);
  }

  lemma TurnedBack(w: seq<int>, byteSwap: bool, wordSwap: bool)
    requires AllWords(w)
    ensures Turned(SwappedBytes(w), byteSwap, wordSwap) == Turned(w, !byteSwap, wordSwap)
  {
    forall i | 0 <= i < |w|
      ensures Turned(SwappedBytes(w), byteSwap, wordSwap)[i] == Turned(w, !byteSwap, wordSwap)[i]
    {
      var k := if wordSwap then |w| - 1 - i else i;
      SwappedTwice(w[k]);
      assert SwappedBytes(w)[k] == SwapByte(w[k]);
    }
  }

  lemma SwappedTwice(x: int)
    requires 0 <= x < 65536
    ensures var y := SwapByte(x); y == 256 * (x % 256) + x / 256 && 256 * (y % 256) + y / 256 == x
  {
    assert (256 * (x % 256) + x / 256) % 256 == x / 256;
    assert (256 * (x % 256) + x / 256) / 256 == x % 256;
  }

  /** 65536 to the power of 1, 2 or 4. */
  function Whole(n: nat): int {
    if n == 1 then 0x1_0000 else if n == 2 then 0x1_0000_0000 else 0x1_0000_0000_0000_0000
  }

  /** The bits of a packed integer: the value itself or its two's complement, or a decimal digit in each nibble. */
  ghost predicate IsBitsOf(kind: IntegerType, n: nat, value: int, word: int) {
    match kind
    case Unsigned => word == value
    case Signed => word == if value < 0 then value + Whole(n) else value
    case Bcd =>
      && word >= 0 && DecimalNibbles(word)
      && Decimal(word) == value % if n == 1 then 10_000 else if n == 2 then 100_000_000 else 10_000_000_000_000_000
  }

  /** Main result: the registers an integer is packed into. */
  lemma IntegerLeaves(c: Converter, value: int)
    requires c.Integer? && Proper(c) && InRange(c.kind, c.size, value)
    ensures IsBitsOf(c.kind, c.size / 2, value,
                     Positional(65536, Turned(IntegerRegisters(c, value), c.byteSwap, c.wordSwap)))
  {
    RegistersSpell(c, value);
    WordIs(IntegerRegisters(c, value), c.byteSwap, c.wordSwap);
    RawIsBits(c.kind, c.size, value);
  }

  lemma RawIsBits(kind: IntegerType, size: nat, value: int)
    requires (size == 2 || size == 4 || size == 8) && InRange(kind, size, value)
    ensures IsBitsOf(kind, size / 2, value, Number(RawRegisters(kind, size / 2, value)))
  {
    var n := size / 2;
    Limits();
    match kind
    case Unsigned => SmallNumber(value, n);
    case Signed => SignedIsBits(n, value);
    case Bcd => BcdIsBits(n, value);
  }

  lemma SignedIsBits(n: nat, value: int)
    requires (n == 1 || n == 2 || n == 4) && InRange(Signed, 2 * n, value)
    ensures Number(RawRegisters(Signed, n, value)) == if value < 0 then value + Whole(n) else value
  {
    Limits();
    var word := if value < 0 then value + Limit(n) else value;
    SmallNumber(word, n);
    assert RawRegisters(Signed, n, value) == Words(word, n);
  }

  lemma BcdIsBits(n: nat, value: nat)
    requires n == 1 || n == 2 || n == 4
    ensures IsBitsOf(Bcd, n, value, Number(Words(ToBcd(value), n)))
  {
    BcdWord(value, n);
    FromToBcd(value % Pow10(4 * n));
    DecimalIs(ToBcd(value % Pow10(4 * n)));
    PowersOfTen();
    assert Pow10(4) == 10 * Pow10(3) == 100 * Pow10(2) == 1000 * Pow10(1) == 10_000;
    assert Pow10(8) == 10 * Pow10(7) == 100 * Pow10(6) == 1000 * Pow10(5) == 10_000 * Pow10(4);
  }

  /** Main result: the registers the bits of a float are packed into. */
  lemma FloatLeaves(c: Converter, bits: nat)
    requires c.Float? && Proper(c) && bits < Limit(c.size / 2)
    ensures Positional(65536, Turned(FloatRegisters(c, bits), !c.byteSwap, c.wordSwap)) == bits
  {
    FloatRoundTrip(c, bits);
    FloatMeans(c, FloatRegisters(c, bits));
  }

  /** The register that holds character i of a text of the given size, and its byte that does. */
  function CharacterAt(w: seq<int>, byteSwap: bool, wordSwap: bool, i: nat): int
    requires i < |w|
  {
    var x := w[if wordSwap then |w| - 1 - i else i];
    if byteSwap then x / 256 else x % 256
  }

  /** text is the characters of the registers in front of the first NUL. */
  ghost predicate IsText(w: seq<int>, byteSwap: bool, wordSwap: bool, text: seq<int>) {
    && |text| <= |w|
    && (forall i | 0 <= i < |text| :: text[i] == CharacterAt(w, byteSwap, wordSwap, i) != 0)
    && (|text| < |w| ==> CharacterAt(w, byteSwap, wordSwap, |text|) == 0)
  }

  /** Main result: the text any registers stand for. */
  lemma TextMeans(c: Converter, w: seq<int>)
    requires c.Text? && |w| == c.size
    ensures IsText(w, c.byteSwap, c.wordSwap, TextValue(c, w))
  {
    var chars, text := Characters(c, w), TextValue(c, w);
    assert forall i | 0 <= i < c.size :: chars[i] == CharacterAt(w, c.byteSwap, c.wordSwap, i);
    assert text == chars[..Length(chars)];
  }

  /** A space, or one of the five control characters from tab to carriage return. */
  predicate IsWhite(b: Byte) {
    b in {9, 10, 11, 12, 13, 32}
  }

  /**
   * Main result: a text without whitespace in its first size characters leaves character i, or NUL behind its end, in
   * one byte of its register and the other byte as it was.
   */
  lemma TextLeaves(c: Converter, was: seq<int>, value: seq<Byte>, p: nat)
    requires c.Text? && |was| == c.size && AllWords(was) && p < c.size
    requires forall k | 0 <= k < c.size && k < |value| :: !IsWhite(value[k])
    ensures var i := if c.wordSwap then c.size - 1 - p else p;
      var b: int := if i < |value| then value[i] else 0;
      TextRegisters(c, was, value)[p] == if c.byteSwap then 256 * b + was[p] % 256 else was[p] / 256 * 256 + b
  {
    var stream, head := Stream(value, c.size), Head(value, c.size);
    var i := if c.wordSwap then c.size - 1 - p else p;
    assert forall k | 0 <= k < |head| :: !IsSpace(head[k]);
    AllVisible(stream, c.size);
    VisibleGrows(stream, c.size, |stream|);
    assert Extracted(value, c.size)[i] == stream[..c.size][i];
  }

  /** Every whitespace is skipped: it never is the character left in its place. */
  lemma WhiteIsSkipped(c: Converter, was: seq<int>, value: seq<Byte>, k: nat)
    requires c.Text? && |was| == c.size && AllWords(was) && k < c.size && k < |value| && IsWhite(value[k])
    requires CharacterAt(was, c.byteSwap, c.wordSwap, k) == 0
    ensures CharacterAt(TextRegisters(c, was, value), c.byteSwap, c.wordSwap, k) != value[k]
  {
    CharacterBack(c, was, value, k);
    VisibleIsNoSpace(Stream(value, c.size), |Stream(value, c.size)|);
  }
}
