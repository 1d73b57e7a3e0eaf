/**
 * Modbus requests as src/modbus_wrapper.h and the first half of _ProcessQuery in src/modbus_wrapper.cpp see them:
 * raw bytes behind a header, a function code, a start address, a count and the values of a write request.
 */
module Modbus {

  type Byte = x: int | 0 <= x < 256
  type Word = x: int | 0 <= x < 65536

  datatype StoreType = DiscreteInput | Coil | InputRegister | HoldingRegister

  /** TReplyState: CACHED = -1, OK = 0, and the exception codes 1 to 4. */
  type ReplyState = x: int | -1 <= x <= 4

  const ILLEGAL_ADDRESS: ReplyState := 2

  /** TModbusQuery: the raw bytes, and where the function code stands in them. */
  datatype Query = Query(data: seq<Byte>, headerLength: nat)

  const READ_COIL_STATUS := 1
  const READ_DISCRETE_INPUTS := 2
  const READ_HOLDING_REGISTERS := 3
  const READ_INPUT_REGISTERS := 4
  const FORCE_SINGLE_COIL := 5
  const PRESET_SINGLE_REGISTER := 6
  const FORCE_MULTIPLE_COILS := 15
  const PRESET_MULTIPLE_REGISTERS := 16

  predicate IsReadCmd(cmd: int) {
    READ_COIL_STATUS <= cmd <= READ_INPUT_REGISTERS
  }

  predicate IsSingleWriteCmd(cmd: int) {
    cmd == FORCE_SINGLE_COIL || cmd == PRESET_SINGLE_REGISTER
  }

  predicate IsMultiWriteCmd(cmd: int) {
    cmd == FORCE_MULTIPLE_COILS || cmd == PRESET_MULTIPLE_REGISTERS
  }

  predicate IsCoilWriteCmd(cmd: int) {
    cmd == FORCE_SINGLE_COIL || cmd == FORCE_MULTIPLE_COILS
  }

  /** The function codes that have an entry in _CmdRangeMap. */
  predicate IsRegistered(cmd: int) {
    IsReadCmd(cmd) || IsSingleWriteCmd(cmd) || IsMultiWriteCmd(cmd)
  }

  /** _CmdStoreTypeMap */
  function StoreOf(cmd: int): StoreType
    requires IsRegistered(cmd)
  {
    if cmd == READ_COIL_STATUS || IsCoilWriteCmd(cmd) then Coil
    else if cmd == READ_DISCRETE_INPUTS then DiscreteInput
    else if cmd == READ_INPUT_REGISTERS then InputRegister
    else HoldingRegister
  }

  function ReadU16(data: seq<Byte>, at: nat): Word
    requires at + 1 < |data|
  {
    data[at] as int * 256 + data[at + 1]
  }

  function UnitOf(q: Query): Byte
    requires q.headerLength <= |q.data|
  {
    if q.headerLength > 0 then q.data[q.headerLength - 1] else 0
  }

  function CommandOf(q: Query): Byte
    requires q.headerLength < |q.data|
  {
    q.data[q.headerLength]
  }

  /** A registered function code and all the bytes the server reads for it. */
  predicate Supported(q: Query) {
    && q.headerLength + 5 <= |q.data|
    && IsRegistered(CommandOf(q))
    && (IsMultiWriteCmd(CommandOf(q)) ==>
          q.headerLength + 6 + PayloadLength(CommandOf(q), ReadU16(q.data, q.headerLength + 3)) <= |q.data|)
  }

  function PayloadLength(cmd: int, count: nat): nat {
    if IsCoilWriteCmd(cmd) then (count + 7) / 8 else 2 * count
  }

  function StartOf(q: Query): Word
    requires Supported(q)
  {
    ReadU16(q.data, q.headerLength + 1)
  }

  function CountOf(q: Query): Word
    requires Supported(q)
  {
    if IsSingleWriteCmd(CommandOf(q)) then 1 else ReadU16(q.data, q.headerLength + 3)
  }

  /** Where the values of a write request begin. */
  function ValuesAt(q: Query): nat
    requires Supported(q)
  {
    q.headerLength + if IsSingleWriteCmd(CommandOf(q)) then 3 else 6
  }

  function Pow2(k: nat): (p: nat)
    ensures p > 0
  {
    if k == 0 then 1 else 2 * Pow2(k - 1)
  }

  /** b & mask for a mask of one bit. */
  predicate TestMask(b: Byte, mask: nat)
    requires mask > 0
  {
    b as int / mask % 2 == 1
  }

  /** Bit k of a byte, the least significant one being bit 0. */
  predicate Bit(b: Byte, k: nat) {
    TestMask(b, Pow2(k))
  }

  /** What coil i of a write request means: section 6.11 of the MODBUS Application Protocol Specification V1.1b3. */
  function CoilValue(raw: seq<Byte>, i: nat): Byte
    requires i / 8 < |raw|
  {
    if Bit(raw[i / 8], i % 8) then 255 else 0
  }

  function RegisterValue(raw: seq<Byte>, i: nat): Word
    requires 2 * i + 1 < |raw|
  {
    raw[2 * i] as int * 256 + raw[2 * i + 1]
  }

  /** The values a write request carries. */
  function ValuesOf(q: Query): (v: seq<int>)
    requires Supported(q) && !IsReadCmd(CommandOf(q))
    ensures |v| == CountOf(q)
  {
    var raw := q.data[ValuesAt(q)..];
    if IsCoilWriteCmd(CommandOf(q)) then seq(CountOf(q), i requires 0 <= i < CountOf(q) => CoilValue(raw, i))
    else seq(CountOf(q), i requires 0 <= i < CountOf(q) => RegisterValue(raw, i))
  }

  /** The coil half of the decoding in _ProcessQuery: a mask runs through the bits, q through the bytes. */
  method DecodeCoils(raw: seq<Byte>, count: nat) returns (values: seq<int>)
    requires (count + 7) / 8 <= |raw|
    ensures |values| == count
    ensures forall i | 0 <= i < count :: values[i] == CoilValue(raw, i)
  {
    var intValues := new int[count];
    var bits: nat, q: nat := 1, 0;
    for i := 0 to count
      invariant q == i / 8 && bits == Pow2(i % 8)
      invariant forall j | 0 <= j < i :: intValues[j] == CoilValue(raw, j)
    {
      intValues[i] := if TestMask(raw[q], bits) then 255 else 0;
      assert intValues[i] == CoilValue(raw, i);
      NextMask(i);
      bits := bits * 2 % 256;
      if bits == 0 {
        q := q + 1;
        bits := 1;
      }
    }
    values := intValues[..];
  }

  lemma NextMask(i: nat)
    ensures i % 8 < 7 ==> (i + 1) / 8 == i / 8 && (i + 1) % 8 == i % 8 + 1 && Pow2(i % 8) * 2 == Pow2((i + 1) % 8) < 256
    ensures i % 8 == 7 ==> (i + 1) / 8 == i / 8 + 1 && (i + 1) % 8 == 0 && Pow2(i % 8) * 2 == 256
  {
  }

  /** The register half: two bytes a register, the high one first. */
  method DecodeRegisters(raw: seq<Byte>, count: nat) returns (values: seq<int>)
    requires 2 * count <= |raw|
    ensures |values| == count
    ensures forall i | 0 <= i < count :: values[i] == RegisterValue(raw, i)
  {
    var intValues := new int[count];
    for i := 0 to count
      invariant forall j | 0 <= j < i :: intValues[j] == RegisterValue(raw, j)
    {
      intValues[i] := raw[2 * i] as int * 256 + raw[2 * i + 1];
    }
    values := intValues[..];
  }

  /** What a Modbus master does: eight coils a byte, the first in the least significant bit. */
  function PackByte(coils: seq<bool>): (b: Byte)
    requires |coils| <= 8
    ensures b < Pow2(|coils|)
  {
    if coils == [] then 0
    else
      var rest: int := PackByte(coils[1..]);
      assert Pow2(|coils|) <= 256 by { NextMask(|coils| - 1); }
      (if coils[0] then 1 else 0) + 2 * rest
  }

  function PackCoils(coils: seq<bool>): (raw: seq<Byte>)
    ensures |raw| == (|coils| + 7) / 8
  {
    if |coils| <= 8 then if coils == [] then [] else [PackByte(coils)]
    else [PackByte(coils[..8])] + PackCoils(coils[8..])
  }

  lemma {:induction false} PackByteBit(coils: seq<bool>, k: nat)
    requires k < |coils| <= 8
    ensures Bit(PackByte(coils), k) <==> coils[k]
  {
    var b, rest: int := PackByte(coils), PackByte(coils[1..]);
    if k > 0 {
      PackByteBit(coils[1..], k - 1);
      HalvePow2(b, rest, k);
    }
  }

  lemma HalvePow2(b: nat, rest: nat, k: nat)
    requires k > 0 && b / 2 == rest
    ensures b / Pow2(k) == rest / Pow2(k - 1)
  {
    var p := Pow2(k - 1);
    var d := rest / p;
    assert rest == d * p + rest % p;
    assert b == 2 * rest + b % 2;
    assert b == d * (2 * p) + (2 * (rest % p) + b % 2);
    DivUnique(b, 2 * p, d, 2 * (rest % p) + b % 2);
  }

  lemma DivUnique(n: nat, m: nat, d: nat, r: nat)
    requires n == d * m + r && r < m
    ensures n / m == d
  {
    var q := n / m;
    assert q * m <= n < (q + 1) * m;
    assert q + 1 <= d ==> (q + 1) * m <= d * m;
    assert d + 1 <= q ==> (d + 1) * m <= q * m;
  }

  /** Main result: decoding a multiple-coil write gives back the coils the master packed, for every count. */
  lemma {:induction false} DecodePackedCoils(coils: seq<bool>, i: nat)
    requires i < |coils|
    ensures CoilValue(PackCoils(coils), i) == if coils[i] then 255 else 0
  {
    if |coils| <= 8 {
      PackByteBit(coils, i);
    } else if i < 8 {
      PackByteBit(coils[..8], i);
    } else {
      DecodePackedCoils(coils[8..], i - 8);
      assert i / 8 == (i - 8) / 8 + 1 && i % 8 == (i - 8) % 8;
      assert PackCoils(coils)[i / 8] == PackCoils(coils[8..])[(i - 8) / 8];
    }
  }
}
