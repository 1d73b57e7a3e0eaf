/**
 * What the bytes of a query mean, by their place: the function code, address, count and values that _ProcessQuery of
 * src/modbus_wrapper.cpp takes out of them (section 6 of the MODBUS Application Protocol Specification V1.1b3).
 */
module Queries {
  import opened Modbus
  import opened Dispatch
  import opened ModbusServer

  /** A query as it arrives: a header, five bytes that every function code has, and what follows them. */
  function QueryOf(header: seq<Byte>, code: Byte, hi: Byte, lo: Byte, hi': Byte, lo': Byte, rest: seq<Byte>): Query {
    Query(header + [code, hi, lo, hi', lo'] + rest, |header|)
  }

  /** The store a function code is for. */
  ghost predicate IsFor(code: Byte, store: StoreType) {
    && (code in {1, 5, 15} ==> store == Coil)
    && (code == 2 ==> store == DiscreteInput)
    && (code in {3, 6, 16} ==> store == HoldingRegister)
    && (code == 4 ==> store == InputRegister)
  }

  lemma BytesOf(header: seq<Byte>, code: Byte, hi: Byte, lo: Byte, hi': Byte, lo': Byte, rest: seq<Byte>)
    ensures var q, n := QueryOf(header, code, hi, lo, hi', lo', rest), |header|;
      && |q.data| == n + 5 + |rest| && q.headerLength == n
      && q.data[n] == code && q.data[n + 1] == hi && q.data[n + 2] == lo && q.data[n + 3] == hi' && q.data[n + 4] == lo'
      && q.data[n + 3..] == [hi', lo'] + rest && (rest != [] ==> q.data[n + 6..] == rest[1..])
      && (n > 0 ==> q.data[n - 1] == header[n - 1])
  {
  }

  /** Which queries the server can read: eight function codes, two of them with a count byte and enough values. */
  lemma SupportedExactly(header: seq<Byte>, code: Byte, hi: Byte, lo: Byte, hi': Byte, lo': Byte, rest: seq<Byte>)
    ensures Supported(QueryOf(header, code, hi, lo, hi', lo', rest)) <==>
      || code in {1, 2, 3, 4, 5, 6}
      || (code == 15 && 1 + (256 * hi' + lo' + 7) / 8 <= |rest|)
      || (code == 16 && 1 + 2 * (256 * hi' + lo') <= |rest|)
  {
    BytesOf(header, code, hi, lo, hi', lo', rest);
  }

  /**
   * Main result: the request a query makes. Addresses and counts have the high byte first, the unit is the last byte
   * of the header, and the function code says what is read or written.
   */
  lemma RequestOfBytes(header: seq<Byte>, code: Byte, hi: Byte, lo: Byte, hi': Byte, lo': Byte, rest: seq<Byte>)
    requires Supported(QueryOf(header, code, hi, lo, hi', lo', rest))
    ensures var r := RequestOf(QueryOf(header, code, hi, lo, hi', lo', rest));
      && r.start == 256 * hi + lo && r.count == (if code in {5, 6} then 1 else 256 * hi' + lo')
      && r.slot.unit == (if header == [] then 0 else header[|header| - 1])
      && IsFor(code, r.slot.store) && (r.Read? <==> code <= 4)
  {
    BytesOf(header, code, hi, lo, hi', lo', rest);
    SupportedExactly(header, code, hi, lo, hi', lo', rest);
  }

  /** The value of a single register or coil; of the coil the lowest bit of the first byte counts. */
  lemma SingleValue(header: seq<Byte>, code: Byte, hi: Byte, lo: Byte, hi': Byte, lo': Byte, rest: seq<Byte>)
    requires code in {5, 6}
    ensures var q := QueryOf(header, code, hi, lo, hi', lo', rest);
      Supported(q) && RequestOf(q).Write?
      && RequestOf(q).values == [if code == 6 then 256 * hi' + lo' else if hi' % 2 == 1 then 255 else 0]
  {
    BytesOf(header, code, hi, lo, hi', lo', rest);
    SupportedExactly(header, code, hi, lo, hi', lo', rest);
    RequestOfBytes(header, code, hi, lo, hi', lo', rest);
    var q := QueryOf(header, code, hi, lo, hi', lo', rest);
    var raw := q.data[|header| + 3..];
    assert raw == [hi', lo'] + rest;
    assert TestMask(raw[0], 1) <==> hi' % 2 == 1;
    assert Pow2(0) == 1;
    assert ValuesOf(q)[0] == RequestOf(q).values[0];
  }

  /** The values of several registers: two bytes each behind the count byte, the high one first. */
  lemma RegisterValues(header: seq<Byte>, hi: Byte, lo: Byte, hi': Byte, lo': Byte, rest: seq<Byte>, i: nat)
    requires Supported(QueryOf(header, 16, hi, lo, hi', lo', rest)) && i < 256 * hi' + lo'
    ensures var r := RequestOf(QueryOf(header, 16, hi, lo, hi', lo', rest));
      && r.Write? && |r.values| == 256 * hi' + lo' && 2 * i + 2 < |rest|
      && r.values[i] == 256 * (rest[2 * i + 1] as int) + rest[2 * i + 2]
  {
    BytesOf(header, 16, hi, lo, hi', lo', rest);
    SupportedExactly(header, 16, hi, lo, hi', lo', rest);
    RequestOfBytes(header, 16, hi, lo, hi', lo', rest);
    assert 2 * i + 2 <= 2 * (256 * hi' + lo');
  }

  lemma CoilAt(header: seq<Byte>, hi: Byte, lo: Byte, hi': Byte, lo': Byte, rest: seq<Byte>, i: nat)
    requires Supported(QueryOf(header, 15, hi, lo, hi', lo', rest)) && i < 256 * hi' + lo'
    ensures var r := RequestOf(QueryOf(header, 15, hi, lo, hi', lo', rest));
      && r.Write? && |r.values| == 256 * hi' + lo' && i / 8 < |rest| - 1
      && r.values[i] == CoilValue(rest[1..], i)
  {
    BytesOf(header, 15, hi, lo, hi', lo', rest);
    SupportedExactly(header, 15, hi, lo, hi', lo', rest);
    RequestOfBytes(header, 15, hi, lo, hi', lo', rest);
  }

  lemma SameCoil(raw: seq<Byte>, tail: seq<Byte>, i: nat)
    requires i / 8 < |raw|
    ensures CoilValue(raw + tail, i) == CoilValue(raw, i)
  {
    assert (raw + tail)[i / 8] == raw[i / 8];
  }

  /** The values of several coils: eight to a byte behind the count byte, as a master packs them. */
  lemma CoilValues(header: seq<Byte>, hi: Byte, lo: Byte, count: Byte, coils: seq<bool>, tail: seq<Byte>, i: nat)
    requires i < |coils| < 65536
    ensures var q := QueryOf(header, 15, hi, lo, |coils| / 256, |coils| % 256, [count] + PackCoils(coils) + tail);
      Supported(q) && RequestOf(q).Write? && |RequestOf(q).values| == |coils|
      && RequestOf(q).values[i] == if coils[i] then 255 else 0
  {
    var hi', lo', raw := |coils| / 256, |coils| % 256, PackCoils(coils);
    var rest := [count] + raw + tail;
    SupportedExactly(header, 15, hi, lo, hi', lo', rest);
    CoilAt(header, hi, lo, hi', lo', rest, i);
    assert rest[1..] == raw + tail;
    SameCoil(raw, tail, i);
    DecodePackedCoils(coils, i);
  }
}
