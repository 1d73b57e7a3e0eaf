/**
 * PUBLISH messages of benchmark/mosquitto.py: _send_publish and _handle_publish undo each other (section 3.3 of the
 * MQTT V3.1 specification). Topics and payloads are bytes.
 */
module MqttPublish {
  import opened Modbus
  import opened MqttFrames

  const PUBLISH := 48

  datatype Message = Message(topic: Bytes, payload: Bytes, qos: nat, retain: bool, dup: bool, mid: Word)

  /** struct.pack("!H", n) */
  function PackU16(n: Word): Bytes {
    [n / 256, n % 256]
  }

  function Flag(b: bool): nat {
    if b then 1 else 0
  }

  /** The first byte of the fixed header. */
  function Header(m: Message): Byte
    requires m.qos <= 2
  {
    PUBLISH + Flag(m.dup) * 8 + m.qos * 2 + Flag(m.retain)
  }

  /** The variable header and the payload. */
  function Body(m: Message): Bytes
    requires |m.topic| < 65536
  {
    PackU16(|m.topic|) + m.topic + (if m.qos > 0 then PackU16(m.mid) else []) + m.payload
  }

  function FrameOf(m: Message): Frame
    requires m.qos <= 2 && |m.topic| < 65536
  {
    Frame(Header(m), Body(m))
  }

  datatype Packed = Packet(packet: Bytes) | StructError

  /** _pack_str16 */
  method PackStr16(packet: Bytes, data: Bytes) returns (r: Packed)
    ensures r == if |data| < 65536 then Packet(packet + PackU16(|data|) + data) else StructError
  {
    if |data| >= 65536 {
      return StructError;
    }
    r := Packet(packet + PackU16(|data|));
    r := Packet(r.packet + data);
  }

  /** The part of _send_publish that builds the packet. */
  method SendPublish(m: Message) returns (r: Packed)
    requires m.qos <= 2
    ensures r == if |m.topic| < 65536 then Packet(Encode(FrameOf(m))) else StructError
  {
    var command := PUBLISH + Flag(m.dup) * 8 + m.qos * 2 + Flag(m.retain);
    var packet: Bytes := [command];
    var remainingLength := 2 + |m.topic| + |m.payload|;
    if m.qos > 0 {
      remainingLength := remainingLength + 2;
    }
    packet := PackRemainingLength(packet, remainingLength);
    r := PackStr16(packet, m.topic);
    if r.StructError? {
      return;
    }
    if m.qos > 0 {
      r := Packet(r.packet + PackU16(m.mid));
    }
    r := Packet(r.packet + m.payload);
    assert r.packet == packet + Body(m);
  }

  datatype Answer = NoAnswer | PubAck(mid: Word) | PubRec(mid: Word)

  /** What comes of a PUBLISH frame: an exception from struct, a protocol error, or a message and what is sent back. */
  datatype Handled = Malformed | ProtocolError | Got(message: Message, answer: Answer)

  /** _handle_publish, up to the callbacks. */
  method HandlePublish(header: Byte, body: Bytes) returns (r: Handled)
    ensures r == Decoded(header, body)
  {
    var dup, qos, retain := header / 8 % 2 == 1, header / 2 % 4, header % 2 == 1;
    if |body| < 2 {
      return Malformed;
    }
    var slen, packet := body[0] as int * 256 + body[1], body[2..];
    if |packet| < slen {
      return Malformed;
    }
    var topic;
    topic, packet := packet[..slen], packet[slen..];
    assert packet == body[2 + slen..];
    if |topic| == 0 {
      return ProtocolError;
    }
    var mid := 0;
    if qos > 0 {
      if |packet| < 2 {
        return Malformed;
      }
      mid, packet := packet[0] as int * 256 + packet[1], packet[2..];
    }
    var message := Message(topic, packet, qos, retain, dup, mid);
    if qos == 0 {
      return Got(message, NoAnswer);
    } else if qos == 1 {
      return Got(message, PubAck(mid));
    } else if qos == 2 {
      return Got(message, PubRec(mid));
    } else {
      return ProtocolError;
    }
  }

  /** The message a frame stands for, if it is one. */
  function Decoded(header: Byte, body: Bytes): Handled {
    var qos := header / 2 % 4;
    var slen := if |body| < 2 then 0 else body[0] as int * 256 + body[1];
    var at := 2 + slen + if qos > 0 then 2 else 0;
    if |body| < 2 + slen then Malformed
    else if slen == 0 then ProtocolError
    else if |body| < at then Malformed
    else if qos == 3 then ProtocolError
    else
      var mid := if qos > 0 then body[2 + slen] as int * 256 + body[3 + slen] else 0;
      var answer := if qos == 0 then NoAnswer else if qos == 1 then PubAck(mid) else PubRec(mid);
      Got(Message(body[2..2 + slen], body[at..], qos, header % 2 == 1, header / 8 % 2 == 1, mid), answer)
  }

  /** Main result: which bytes of a frame are which field, and what each quality of service is answered with. */
  lemma DecodedFields(header: Byte, body: Bytes, n: nat)
    requires |body| >= 2 && n == 256 * (body[0] as int) + body[1] && n > 0 && header / 2 % 4 < 3
    requires |body| >= 2 + n + if header / 2 % 4 > 0 then 2 else 0
    ensures Decoded(header, body).Got?
    ensures var m := Decoded(header, body).message;
      m.topic == body[2..2 + n] && m.qos == header / 2 % 4
      && (m.retain <==> header % 2 == 1) && (m.dup <==> header / 8 % 2 == 1)
    ensures header / 2 % 4 == 0 ==>
      var got := Decoded(header, body);
      got.answer == NoAnswer && got.message.mid == 0 && got.message.payload == body[2 + n..]
    ensures header / 2 % 4 > 0 ==>
      var got, id := Decoded(header, body), 256 * (body[2 + n] as int) + body[3 + n];
      && got.answer == (if header / 2 % 4 == 1 then PubAck(id) else PubRec(id))
      && got.message.mid == id && got.message.payload == body[4 + n..]
  {
  }

  /** And which frames decode at all; the others raise an exception or are protocol errors. */
  lemma DecodesExactly(header: Byte, body: Bytes)
    ensures var n, qos := if |body| < 2 then 0 else 256 * (body[0] as int) + body[1], header / 2 % 4;
      && (Decoded(header, body).Got? <==> n > 0 && |body| >= 2 + n + (if qos > 0 then 2 else 0) && qos < 3)
      && (Decoded(header, body).ProtocolError? <==>
            |body| >= 2 + n && (n == 0 || (qos == 3 && |body| >= 4 + n)))
  {
  }

  /** The first byte of every PUBLISH frame. */
  lemma HeaderBits(m: Message)
    requires m.qos <= 2
    ensures Header(m) == 0x30 + (if m.dup then 8 else 0) + 2 * m.qos + (if m.retain then 1 else 0)
  {
  }

  /** A message _send_publish can send and a receiver accepts. */
  predicate Sendable(m: Message) {
    0 < |m.topic| < 65536 && m.qos <= 2
  }

  /** The message as it arrives: at quality of service 0 its id is not sent. */
  function Arriving(m: Message): Message {
    if m.qos == 0 then m.(mid := 0) else m
  }

  lemma HeaderFields(m: Message)
    requires m.qos <= 2
    ensures var h := Header(m);
            h / 16 * 16 == PUBLISH && (h / 8 % 2 == 1 <==> m.dup) && h / 2 % 4 == m.qos && (h % 2 == 1 <==> m.retain)
  {
  }

  lemma HeaderOfFields(h: Byte)
    requires h / 16 * 16 == PUBLISH
    ensures h == PUBLISH + Flag(h / 8 % 2 == 1) * 8 + h / 2 % 4 * 2 + Flag(h % 2 == 1)
  {
  }

  /** Main result: decoding gives back every message that was encoded, but for the id that is not sent. */
  lemma PublishRoundTrip(m: Message)
    requires Sendable(m)
    ensures Decoded(Header(m), Body(m)).Got? && Decoded(Header(m), Body(m)).message == Arriving(m)
    ensures Decoded(Header(m), Body(m)).answer ==
      if m.qos == 0 then NoAnswer else if m.qos == 1 then PubAck(m.mid) else PubRec(m.mid)
  {
    var body, n := Body(m), |m.topic|;
    HeaderFields(m);
    assert body[0] as int * 256 + body[1] == n;
    assert body[2..2 + n] == m.topic;
    if m.qos > 0 {
      assert body[2 + n] as int * 256 + body[3 + n] == m.mid;
      assert body[4 + n..] == m.payload;
    } else {
      assert body[2 + n..] == m.payload;
    }
  }

  lemma BodyOfDecoded(header: Byte, body: Bytes)
    requires Decoded(header, body).Got?
    ensures var m := Decoded(header, body).message;
            Sendable(m) && Arriving(m) == m && Body(m) == body
  {
    var m := Decoded(header, body).message;
    var n := |m.topic|;
    assert PackU16(n) == body[..2] && m.topic == body[2..2 + n];
    if m.qos > 0 {
      assert PackU16(m.mid) == body[2 + n..4 + n] && m.payload == body[4 + n..];
      InFour(body, 2, 2 + n, 4 + n);
    } else {
      assert m.payload == body[2 + n..];
      InFour(body, 2, 2 + n, 2 + n);
    }
  }

  lemma InFour(s: Bytes, i: nat, j: nat, k: nat)
    requires i <= j <= k <= |s|
    ensures s == s[..i] + s[i..j] + s[j..k] + s[k..]
  {
  }

  /** Main result: and every PUBLISH frame that decodes at all is the encoding of the message it decodes to. */
  lemma DecodedEncodes(header: Byte, body: Bytes)
    requires header / 16 * 16 == PUBLISH && Decoded(header, body).Got?
    ensures var m := Decoded(header, body).message;
            Sendable(m) && Arriving(m) == m && Header(m) == header && Body(m) == body
  {
    HeaderOfFields(header);
    BodyOfDecoded(header, body);
  }

  /** The wire layer carries the frame exactly if the remaining length fits its four bytes. */
  lemma PublishCarried(m: Message)
    requires Sendable(m)
    ensures Carried(FrameOf(m)) <==> 2 + |m.topic| + |m.payload| + (if m.qos > 0 then 2 else 0) <= MAX_REMAINING
  {
  }

  /** The message arrives, without its id at quality of service 0, and is answered with PUBACK at 1 and PUBREC at 2. */
  ghost predicate Arrives(m: Message, h: Handled) {
    && h.Got? && h.message == (if m.qos == 0 then m.(mid := 0) else m)
    && (m.qos == 0 ==> h.answer == NoAnswer)
    && (m.qos == 1 ==> h.answer == PubAck(m.mid))
    && (m.qos == 2 ==> h.answer == PubRec(m.mid))
  }

  function FramesOf(messages: seq<Message>): seq<Frame>
    requires forall i | 0 <= i < |messages| :: Sendable(messages[i])
  {
    seq(|messages|, i requires 0 <= i < |messages| && Sendable(messages[i]) => FrameOf(messages[i]))
  }

  /** Main result: what a reader has handled of a run of PUBLISH frames decodes to the first messages sent, in order. */
  lemma MessagesArrive(messages: seq<Message>, handled: seq<Frame>)
    requires forall i | 0 <= i < |messages| :: Sendable(messages[i])
    requires handled <= FramesOf(messages)
    ensures |handled| <= |messages|
    ensures forall i: nat | i < |handled| :: Arrives(messages[i], Decoded(handled[i].command, handled[i].body))
  {
    forall i: nat | i < |handled|
      ensures Arrives(messages[i], Decoded(handled[i].command, handled[i].body))
    {
      assert handled[i] == FramesOf(messages)[i];
      PublishRoundTrip(messages[i]);
    }
  }
}
