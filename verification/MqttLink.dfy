/**
 * The writing half of a client in benchmark/mosquitto.py (_packet_queue and _packet_write), and two clients joined by
 * a socket: whatever the operating system grants, the frames handled are the frames queued, in order.
 */
module MqttLink {
  import opened Modbus
  import opened MqttFrames
  import opened MqttReader

  /** MosquittoPacket, without message id and quality of service. */
  datatype OutPacket = OutPacket(command: Byte, packet: Bytes, pos: nat, toProcess: nat)

  datatype Current = Nothing | Sending(out: OutPacket)

  ghost predicate Whole(p: OutPacket) {
    p.pos == 0 && p.toProcess == |p.packet| > 0
  }

  function Concat(ps: seq<OutPacket>): Bytes {
    if ps == [] then [] else ps[0].packet + Concat(ps[1..])
  }

  lemma {:induction false} ConcatAppended(ps: seq<OutPacket>, p: OutPacket)
    ensures Concat(ps + [p]) == Concat(ps) + p.packet
  {
    if ps == [] {
      assert ps + [p] == [p];
      assert Concat([p]) == p.packet + Concat([]);
    } else {
      assert (ps + [p])[1..] == ps[1..] + [p];
      ConcatAppended(ps[1..], p);
    }
  }

  lemma Moved(wire: Bytes, rest: Bytes, n: nat, behind: Bytes)
    requires n <= |rest|
    ensures (wire + rest[..n]) + (rest[n..] + behind) == wire + (rest + behind)
    ensures n == |rest| ==> (wire + rest[..n]) + behind == wire + (rest + behind)
    ensures |rest[n..] + behind| == |rest + behind| - n
  {
  }

  /** The writing half of a client. */
  class Writer {
    var outPacket: seq<OutPacket>
    var currentOutPacket: Current

    constructor ()
      ensures Valid() && Unsent() == []
    {
      outPacket, currentOutPacket := [], Nothing;
    }

    /** Packets wait in the queue only behind a current one, which is not finished. */
    ghost predicate Valid()
      reads this
    {
      && (forall i | 0 <= i < |outPacket| :: Whole(outPacket[i]))
      && match currentOutPacket
         case Nothing => outPacket == []
         case Sending(out) => out.toProcess > 0 && out.pos + out.toProcess == |out.packet|
    }

    /** The bytes queued and not yet sent. */
    ghost function Unsent(): Bytes
      reads this
      requires Valid()
    {
      match currentOutPacket
      case Nothing => []
      case Sending(out) => out.packet[out.pos..] + Concat(outPacket)
    }

    /** _packet_queue; direct says that the client is not in a callback and has no thread, and so writes at once. */
    method PacketQueue(command: Byte, packet: Bytes, direct: bool, socket: Socket)
      requires Valid() && packet != []
      modifies this, socket
      ensures Valid() && socket.wire + Unsent() == old(socket.wire + Unsent()) + packet
      ensures if direct then old(socket.wire) <= socket.wire else socket.wire == old(socket.wire)
      ensures direct && old(socket.Willing(|Unsent()| + |packet|)) ==> Unsent() == []
    {
      var mpkt := OutPacket(command, packet, 0, |packet|);
      ghost var unsent := Unsent();
      ConcatAppended(outPacket, mpkt);
      outPacket := outPacket + [mpkt];
      if currentOutPacket.Nothing? && |outPacket| > 0 {
        assert outPacket == [mpkt];
        currentOutPacket, outPacket := Sending(outPacket[0]), outPacket[1..];
      }
      assert Unsent() == unsent + packet;
      if direct {
        var _ := PacketWrite(socket);
      }
    }

    /** The current packet is through. */
    method TakeNext()
      requires forall i | 0 <= i < |outPacket| :: Whole(outPacket[i])
      modifies this
      ensures Valid() && Unsent() == old(Concat(outPacket))
    {
      if |outPacket| > 0 {
        assert Whole(outPacket[0]);
        currentOutPacket, outPacket := Sending(outPacket[0]), outPacket[1..];
      } else {
        currentOutPacket := Nothing;
      }
    }

    /** Sends some of the current packet and, when it is through, takes the next one. */
    method SendSome(socket: Socket) returns (sent: bool)
      requires Valid() && currentOutPacket.Sending?
      modifies this, socket
      ensures Valid() && socket.wire + Unsent() == old(socket.wire + Unsent())
      ensures old(socket.wire) <= socket.wire
      ensures if sent then |socket.grants| < |old(socket.grants)| else currentOutPacket == old(currentOutPacket)
      ensures old(socket.Willing(|Unsent()|)) ==> sent && socket.Willing(|Unsent()|)
    {
      var out := currentOutPacket.out;
      ghost var rest := out.packet[out.pos..];
      var n := socket.Send(out.packet[out.pos..]);
      if n == 0 {
        return false;
      }
      Moved(old(socket.wire), rest, n, Concat(outPacket));
      assert out.packet[out.pos + n..] == rest[n..];
      out := out.(toProcess := out.toProcess - n, pos := out.pos + n);
      currentOutPacket := Sending(out);
      if out.toProcess == 0 {
        TakeNext();
      }
      return true;
    }

    /** _packet_write: sends until the socket would block or nothing is left. */
    method PacketWrite(socket: Socket) returns (rc: Rc)
      requires Valid()
      modifies this, socket
      ensures Valid() && socket.wire + Unsent() == old(socket.wire + Unsent())
      ensures old(socket.wire) <= socket.wire
      ensures rc == Success <==> currentOutPacket.Nothing?
      ensures old(socket.Willing(|Unsent()|)) ==> rc == Success
    {
      while currentOutPacket.Sending?
        invariant Valid() && socket.wire + Unsent() == old(socket.wire + Unsent())
        invariant old(socket.wire) <= socket.wire
        invariant old(socket.Willing(|Unsent()|)) ==> socket.Willing(|Unsent()|)
        decreases |socket.grants|
      {
        var sent := SendSome(socket);
        if !sent {
          return Again;
        }
      }
      return Success;
    }
  }

  lemma QueueStep(queued: seq<Frame>, n: nat, s: InState, rest: Bytes, f: Frame)
    requires Joined(queued, n, s, rest) && Carried(f)
    ensures Joined(queued + [f], n, s, rest + Encode(f))
  {
    var queued' := queued + [f];
    assert forall g | g in queued' :: g in queued || g == f;
    if n == |queued| {
      assert queued'[n] == f && Encode(f)[0..] == Encode(f);
      assert EncodeFrom(queued', n + 1) == [];
    } else {
      assert queued'[n] == queued[n];
      EncodeAppended(queued, f, n + 1);
    }
  }

  /** Everything is handled exactly when nothing is on its way. */
  lemma CaughtUp(queued: seq<Frame>, n: nat, s: InState, rest: Bytes)
    requires Joined(queued, n, s, rest)
    ensures n == |queued| <==> rest == []
  {
  }

  /**
   * What can happen next: a frame is queued, the writer writes, or the reader reads; and what the socket will grant.
   */
  datatype Op = Queue(frame: Frame, direct: bool, grants: seq<nat>) | Write(grants: seq<nat>) | Read(grants: seq<nat>)

  /** The frames queued by the first n steps. */
  function FramesOf(ops: seq<Op>, n: nat): seq<Frame>
    requires n <= |ops|
  {
    if n == 0 then [] else FramesOf(ops, n - 1) + FramesIn(ops[n - 1])
  }

  function FramesIn(op: Op): seq<Frame> {
    if op.Queue? then [op.frame] else []
  }

  lemma NextFrames(before: seq<Frame>, ops: seq<Op>, i: nat)
    requires i < |ops|
    ensures before + FramesOf(ops, i + 1) == (before + FramesOf(ops, i)) + FramesIn(ops[i])
  {
  }

  /** A writing and a reading client joined by a socket. */
  class Link {
    const writer: Writer
    const reader: Reader
    const socket: Socket

    /** All frames queued so far. */
    ghost var queued: seq<Frame>

    constructor ()
      ensures Valid() && queued == []
      ensures fresh(writer) && fresh(reader) && fresh(reader.inPacket) && fresh(socket)
    {
      writer := new Writer();
      reader := new Reader();
      socket := new Socket();
      queued := [];
    }

    /** The frames handled are the first of those queued, and the rest is in the socket or still with the writer. */
    ghost predicate Valid()
      reads this, writer, reader, reader.inPacket, socket
    {
      writer.Valid() && reader.InStep(queued, socket.wire + writer.Unsent())
    }

    method DoQueue(frame: Frame, direct: bool)
      requires Valid() && Carried(frame)
      modifies this`queued, writer, socket
      ensures Valid() && queued == old(queued) + [frame]
    {
      QueueStep(queued, |reader.handled|, reader.inPacket.State(), socket.wire + writer.Unsent(), frame);
      queued := queued + [frame];
      writer.PacketQueue(frame.command, Encode(frame), direct, socket);
    }

    method Do(op: Op)
      requires Valid() && (op.Queue? ==> Carried(op.frame))
      modifies this`queued, writer, reader`handled, reader.inPacket, socket
      ensures Valid() && queued == old(queued) + FramesIn(op)
    {
      socket.grants := op.grants;
      match op
      case Queue(frame, direct, _) => DoQueue(frame, direct);
      case Write(_) =>
        var _ := writer.PacketWrite(socket);
      case Read(_) =>
        var _ := reader.PacketRead(socket, queued, writer.Unsent());
    }

    /**
     * Main result: after any interleaving of queueing, partial writes and partial reads the frames handled are the
     * first of the frames queued, unchanged and in order.
     */
    method Run(ops: seq<Op>)
      requires Valid() && forall i | 0 <= i < |ops| && ops[i].Queue? :: Carried(ops[i].frame)
      modifies this`queued, writer, reader`handled, reader.inPacket, socket
      ensures Valid() && queued == old(queued) + FramesOf(ops, |ops|)
      ensures reader.handled <= queued
      ensures reader.handled == queued <==> socket.wire + writer.Unsent() == []
    {
      ghost var queued0 := queued;
      for i := 0 to |ops|
        invariant Valid() && queued == queued0 + FramesOf(ops, i)
      {
        NextFrames(queued0, ops, i);
        Do(ops[i]);
      }
      AllOrNothingLeft();
    }

    lemma AllOrNothingLeft()
      requires Valid()
      ensures reader.handled <= queued
      ensures reader.handled == queued <==> socket.wire + writer.Unsent() == []
    {
    }
  }
}
