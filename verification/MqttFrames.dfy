/**
 * MQTT frames of benchmark/mosquitto.py: a command byte, the remaining length in base 128 (section 2.1 of the MQTT
 * V3.1 specification) and the remaining bytes.
 */
module MqttFrames {
  import opened Modbus

  type Bytes = seq<Byte>

  datatype Frame = Frame(command: Byte, body: Bytes)

  const DISCONNECT := 224
  const MAX_REMAINING := 268435455

  function Pow128(k: nat): (p: nat)
    ensures p > 0
  {
    if k == 0 then 1 else 128 * Pow128(k - 1)
  }

  /** The digits of n, the lowest first; the top bit says that another digit follows. */
  function LengthBytes(n: nat): (s: Bytes)
    ensures s != []
  {
    if n < 128 then [n] else [n % 128 + 128] + LengthBytes(n / 128)
  }

  /** What the reader adds up. */
  function LengthValue(s: Bytes): nat {
    if s == [] then 0 else s[0] % 128 + 128 * LengthValue(s[1..])
  }

  /** _pack_remaining_length: appends the length to packet. */
  method PackRemainingLength(packet: Bytes, remainingLength: nat) returns (packed: Bytes)
    ensures packed == packet + LengthBytes(remainingLength)
  {
    packed := packet;
    var rest := remainingLength;
    while true
      invariant packed + LengthBytes(rest) == packet + LengthBytes(remainingLength)
      decreases rest
    {
      var byte := rest % 128;
      ghost var digits := LengthBytes(rest);
      rest := rest / 128;
      if rest > 0 {
        byte := byte + 128;
        assert digits == [byte] + LengthBytes(rest);
      }
      packed := packed + [byte];
      if rest == 0 {
        return;
      }
    }
  }

  /** The reader's sum is the length that was written, and only the last byte has the top bit clear. */
  lemma {:induction false} LengthRoundTrip(n: nat)
    ensures LengthValue(LengthBytes(n)) == n
    ensures forall i | 0 <= i < |LengthBytes(n)| :: LengthBytes(n)[i] >= 128 <==> i < |LengthBytes(n)| - 1
  {
    if n >= 128 {
      var rest := LengthBytes(n / 128);
      LengthRoundTrip(n / 128);
      assert LengthBytes(n)[1..] == rest;
      forall i | 0 <= i < |LengthBytes(n)|
        ensures LengthBytes(n)[i] >= 128 <==> i < |LengthBytes(n)| - 1
      {
        if i > 0 { assert LengthBytes(n)[i] == rest[i - 1]; }
      }
    }
  }

  /** The length takes at most k bytes exactly if it is below 128 to the power k. */
  lemma {:induction false} LengthFits(n: nat, k: nat)
    requires k > 0
    ensures |LengthBytes(n)| <= k <==> n < Pow128(k)
  {
    if k == 1 {
      assert Pow128(1) == 128;
    } else if n >= 128 {
      LengthFits(n / 128, k - 1);
    } else {
      assert Pow128(k - 1) >= 1;
    }
  }

  /** Four bytes, all that the reader accepts, hold exactly the lengths up to 268435455. */
  lemma FourBytes(n: nat)
    ensures |LengthBytes(n)| <= 4 <==> n <= MAX_REMAINING
  {
    LengthFits(n, 4);
    assert Pow128(4) == 268435456;
  }

  /** One more digit adds its value at its place. */
  lemma {:induction false} LengthAppended(s: Bytes, b: Byte)
    ensures LengthValue(s + [b]) == LengthValue(s) + b % 128 * Pow128(|s|)
  {
    if s == [] {
      assert s + [b] == [b];
      assert LengthValue([b][1..]) == 0;
    } else {
      LengthAppended(s[1..], b);
      assert (s + [b])[1..] == s[1..] + [b];
      var v, p := b % 128, Pow128(|s| - 1);
      assert 128 * (v * p) == v * (128 * p);
    }
  }

  function Encode(f: Frame): (s: Bytes)
    ensures |s| >= 2
  {
    [f.command] + LengthBytes(|f.body|) + f.body
  }

  /**
   * A frame the wire layer can carry: the reader takes command 0 for no command, and the writer stops at DISCONNECT.
   */
  predicate Carried(f: Frame) {
    f.command != 0 && f.command / 16 * 16 != DISCONNECT && |f.body| <= MAX_REMAINING
  }

  /** The frames from i on, one behind the other. */
  function EncodeFrom(frames: seq<Frame>, i: nat): Bytes
    requires i <= |frames|
    decreases |frames| - i
  {
    if i == |frames| then [] else Encode(frames[i]) + EncodeFrom(frames, i + 1)
  }

  lemma {:induction false} EncodeAppended(frames: seq<Frame>, f: Frame, i: nat)
    requires i <= |frames|
    ensures EncodeFrom(frames + [f], i) == EncodeFrom(frames, i) + Encode(f)
    decreases |frames| - i
  {
    if i < |frames| {
      EncodeAppended(frames, f, i + 1);
    } else {
      assert EncodeFrom(frames + [f], i + 1) == [];
    }
  }
}
