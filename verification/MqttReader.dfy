/**
 * _packet_read of benchmark/mosquitto.py: a frame is assembled over any number of calls, each of which takes what the
 * socket has and stops when it would block.
 */
module MqttReader {
  import opened Modbus
  import opened MqttFrames

  /**
   * One direction of a connection. wire holds the bytes sent and not yet received; grants says how many bytes the
   * operating system moves at most in each of the next calls, and a call without a grant would block.
   */
  class Socket {
    var wire: Bytes
    var grants: seq<nat>

    constructor ()
      ensures wire == [] && grants == []
    {
      wire, grants := [], [];
    }

    method NextGrant() returns (n: nat)
      modifies this`grants
      ensures if old(grants) == [] then n == 0 && grants == [] else n == old(grants)[0] && grants == old(grants)[1..]
    {
      if grants == [] {
        return 0;
      }
      n := grants[0];
      grants := grants[1..];
    }

    /** recv(); an empty answer stands for EAGAIN. */
    method Recv(max: nat) returns (data: Bytes)
      requires max > 0
      modifies this
      ensures data + wire == old(wire) && |data| <= max
      ensures data != [] ==> |grants| < |old(grants)|
      ensures old(Willing(|wire|)) ==> Willing(|wire|) && (data == [] ==> wire == [])
    {
      var n := NextGrant();
      n := if n > max then max else n;
      n := if n > |wire| then |wire| else n;
      data := wire[..n];
      wire := wire[n..];
    }

    /** send(); zero stands for EAGAIN. */
    method Send(data: Bytes) returns (n: nat)
      requires data != []
      modifies this
      ensures n <= |data| && wire == old(wire) + data[..n]
      ensures n > 0 ==> |grants| < |old(grants)|
      ensures forall k: nat | k >= |data| && old(Willing(k)) :: n > 0 && Willing(k - n)
    {
      n := NextGrant();
      n := if n > |data| then |data| else n;
      wire := wire + data[..n];
    }

    /** The operating system will move something in each of the next n calls. */
    predicate Willing(n: nat)
      reads this`grants
    {
      |grants| >= n && forall i | 0 <= i < |grants| :: grants[i] > 0
    }
  }

  datatype InState = InState(command: Byte, haveRemaining: bool, remainingCount: Bytes, remainingMult: nat,
                             remainingLength: nat, packet: Bytes, toProcess: nat)

  const FRESH := InState(0, false, [], 1, 0, [], 0)

  /** MosquittoInPacket. */
  class InPacket {
    var command: Byte
    var haveRemaining: bool
    var remainingCount: Bytes
    var remainingMult: nat
    var remainingLength: nat
    var packet: Bytes
    var toProcess: nat

    constructor ()
      ensures State() == FRESH
    {
      command, haveRemaining, remainingCount, remainingMult, remainingLength := 0, false, [], 1, 0;
      packet, toProcess := [], 0;
    }

    method Cleanup()
      modifies this
      ensures State() == FRESH
    {
      command, haveRemaining, remainingCount, remainingMult, remainingLength := 0, false, [], 1, 0;
      packet, toProcess := [], 0;
    }

    /** One more byte of the remaining length. */
    method AddLengthByte(byte: Byte) returns (tooLong: bool)
      modifies this
      ensures tooLong <==> |old(remainingCount)| >= 4
      ensures !tooLong ==> State() == TookLength(old(State()), byte)
      ensures command == old(command) && haveRemaining == old(haveRemaining)
    {
      remainingCount := remainingCount + [byte];
      if |remainingCount| > 4 {
        return true;
      }
      remainingLength := remainingLength + byte % 128 * remainingMult;
      remainingMult := remainingMult * 128;
      return false;
    }

    /** A stretch of the rest of the frame. */
    method AddBody(data: Bytes)
      requires |data| <= toProcess
      modifies this
      ensures State() == TookBody(old(State()), data)
    {
      toProcess := toProcess - |data|;
      packet := packet + data;
    }

    function State(): InState
      reads this
    {
      InState(command, haveRemaining, remainingCount, remainingMult, remainingLength, packet, toProcess)
    }
  }

  /** The state of a reader that has taken the first k bytes of a frame. */
  function StateAt(f: Frame, k: nat): InState
    requires k <= |Encode(f)|
  {
    var digits := LengthBytes(|f.body|);
    if k == 0 then FRESH
    else if k <= |digits| then
      InState(f.command, false, digits[..k - 1], Pow128(k - 1), LengthValue(digits[..k - 1]), [], 0)
    else
      var n := k - 1 - |digits|;
      InState(f.command, true, digits, Pow128(|digits|), |f.body|, f.body[..n], |f.body| - n)
  }

  /** How many bytes a reader has taken. */
  function Taken(s: InState): nat {
    if s.command == 0 then 0 else 1 + |s.remainingCount| + |s.packet|
  }

  /**
   * The reader is inside frame n of the frames queued, or at its end, and rest is all that is still to come. Between
   * calls it is not at the end of a frame.
   */
  ghost predicate Inside(queued: seq<Frame>, n: nat, s: InState, rest: Bytes) {
    n < |queued| && Carried(queued[n]) && Taken(s) <= |Encode(queued[n])| && s == StateAt(queued[n], Taken(s))
    && rest == Encode(queued[n])[Taken(s)..] + EncodeFrom(queued, n + 1)
  }

  ghost predicate Joined(queued: seq<Frame>, n: nat, s: InState, rest: Bytes) {
    && (forall f | f in queued :: Carried(f)) && n <= |queued|
    && if n == |queued| then s == FRESH && rest == [] else Inside(queued, n, s, rest) && Taken(s) < |Encode(queued[n])|
  }

  function TookCommand(s: InState, b: Byte): InState {
    s.(command := b)
  }

  function TookLength(s: InState, b: Byte): InState {
    s.(remainingCount := s.remainingCount + [b], remainingLength := s.remainingLength + b % 128 * s.remainingMult,
       remainingMult := s.remainingMult * 128)
  }

  function HaveLength(s: InState): InState {
    s.(haveRemaining := true, toProcess := s.remainingLength)
  }

  function TookBody(s: InState, data: Bytes): InState
    requires |data| <= s.toProcess
  {
    s.(toProcess := s.toProcess - |data|, packet := s.packet + data)
  }

  lemma CommandStep(queued: seq<Frame>, n: nat, s: InState, rest: Bytes)
    requires Joined(queued, n, s, rest) && s.command == 0 && rest != []
    ensures rest[0] != 0 && Inside(queued, n, TookCommand(s, rest[0]), rest[1..])
  {
  }

  lemma LengthStep(queued: seq<Frame>, n: nat, s: InState, rest: Bytes)
    requires Inside(queued, n, s, rest) && s.command != 0 && !s.haveRemaining
    ensures rest != []
    ensures var b, s' := rest[0], TookLength(s, rest[0]);
      |s'.remainingCount| <= 4 && Inside(queued, n, if b < 128 then HaveLength(s') else s', rest[1..])
  {
    var f, k := queued[n], Taken(s);
    var b, behind := Encode(f)[k], Encode(f)[k + 1..] + EncodeFrom(queued, n + 1);
    LengthTaken(f, k, b);
    assert Encode(f)[k..] == [b] + Encode(f)[k + 1..];
    assert rest == [b] + behind && rest[1..] == behind;
  }

  lemma LengthTaken(f: Frame, k: nat, b: Byte)
    requires Carried(f) && 0 < k <= |LengthBytes(|f.body|)| && b == Encode(f)[k]
    ensures var s := TookLength(StateAt(f, k), b); var s' := if b < 128 then HaveLength(s) else s;
      |s.remainingCount| <= 4 && s' == StateAt(f, k + 1) && Taken(s') == k + 1
  {
    var digits := LengthBytes(|f.body|);
    LengthRoundTrip(|f.body|);
    FourBytes(|f.body|);
    assert b == digits[k - 1];
    DigitTaken(f, k, b);
  }

  lemma DigitTaken(f: Frame, k: nat, b: Byte)
    requires 0 < k <= |LengthBytes(|f.body|)| && b == LengthBytes(|f.body|)[k - 1]
    ensures var s' := TookLength(StateAt(f, k), b);
            StateAt(f, k + 1) == if k == |LengthBytes(|f.body|)| then HaveLength(s') else s'
  {
    var digits := LengthBytes(|f.body|);
    LengthRoundTrip(|f.body|);
    assert digits[..k] == digits[..k - 1] + [b];
    LengthAppended(digits[..k - 1], b);
    assert k == |digits| ==> digits[..k] == digits;
    assert f.body[..0] == [];
  }

  lemma BodyStep(queued: seq<Frame>, n: nat, s: InState, rest: Bytes, data: Bytes)
    requires Inside(queued, n, s, rest) && s.haveRemaining && |data| <= s.toProcess && data <= rest
    ensures Inside(queued, n, TookBody(s, data), rest[|data|..])
  {
    var f, k := queued[n], Taken(s);
    var i := k - 1 - |LengthBytes(|f.body|)|;
    assert Encode(f)[k..] == f.body[i..];
    assert data == f.body[i..i + |data|];
    assert f.body[..i + |data|] == f.body[..i] + data;
  }

  lemma FrameEnds(queued: seq<Frame>, n: nat, s: InState, rest: Bytes)
    requires (forall f | f in queued :: Carried(f)) && Inside(queued, n, s, rest) && s.haveRemaining && s.toProcess == 0
    ensures Frame(s.command, s.packet) == queued[n] && Joined(queued, n + 1, FRESH, rest)
  {
  }

  lemma NotAtEnd(queued: seq<Frame>, n: nat, s: InState, rest: Bytes)
    requires Inside(queued, n, s, rest) && !(s.haveRemaining && s.toProcess == 0)
    ensures Taken(s) < |Encode(queued[n])|
  {
  }

  datatype Rc = Success | Again | Protocol

  /** The reading half of a client. */
  class Reader {
    const inPacket: InPacket

    /** The frames passed to _packet_handle. */
    var handled: seq<Frame>

    constructor ()
      ensures fresh(inPacket) && inPacket.State() == FRESH && handled == []
    {
      inPacket := new InPacket();
      handled := [];
    }

    /** The frames handled are the first of those queued, and the next ones are on their way: rest is still to come. */
    ghost predicate InStep(queued: seq<Frame>, rest: Bytes)
      reads this, inPacket
    {
      && |handled| <= |queued| && handled == queued[..|handled|]
      && Joined(queued, |handled|, inPacket.State(), rest)
    }

    /** The same in the middle of a call, when all of a frame may have been taken. */
    ghost predicate Amid(queued: seq<Frame>, rest: Bytes)
      reads this, inPacket
    {
      && |handled| <= |queued| && handled == queued[..|handled|] && (forall f | f in queued :: Carried(f))
      && Inside(queued, |handled|, inPacket.State(), rest)
    }

    /** The command byte. */
    method ReadCommand(socket: Socket, ghost queued: seq<Frame>, ghost unsent: Bytes) returns (rc: Rc)
      requires inPacket.command == 0
      modifies inPacket, socket
      ensures rc == Success
        || (rc == Again && inPacket.State() == old(inPacket.State()) && socket.wire == old(socket.wire))
      ensures rc == Success && old(InStep(queued, socket.wire + unsent)) ==>
        inPacket.command != 0 && Amid(queued, socket.wire + unsent)
      ensures old(socket.Willing(|socket.wire|)) ==>
        socket.Willing(|socket.wire|) && (rc == Again ==> socket.wire == [])
    {
      var data := socket.Recv(1);
      if data == [] {
        return Again;
      }
      if old(InStep(queued, socket.wire + unsent)) {
        CommandStep(queued, |handled|, old(inPacket.State()), old(socket.wire) + unsent);
        assert socket.wire + unsent == (old(socket.wire) + unsent)[1..];
      }
      inPacket.command := data[0];
      return Success;
    }

    /** One byte of the remaining length; last if its top bit is clear. */
    method ReadLengthByte(socket: Socket, ghost queued: seq<Frame>, ghost unsent: Bytes) returns (rc: Rc, last: bool)
      requires !inPacket.haveRemaining
      modifies inPacket, socket
      ensures inPacket.command == old(inPacket.command) && !inPacket.haveRemaining
      ensures rc != Again ==> |socket.grants| < |old(socket.grants)|
      ensures old(inPacket.command) != 0 && old(Amid(queued, socket.wire + unsent)) ==>
        && rc != Protocol && (rc == Again || !last ==> Amid(queued, socket.wire + unsent))
        && (rc == Success && last ==> Inside(queued, |handled|, HaveLength(inPacket.State()), socket.wire + unsent))
      ensures old(socket.Willing(|socket.wire|)) ==>
        socket.Willing(|socket.wire|) && (rc == Again ==> socket.wire == [])
    {
      ghost var rest := socket.wire + unsent;
      var data := socket.Recv(1);
      if data == [] {
        assert socket.wire + unsent == rest;
        return Again, false;
      }
      var byte := data[0];
      if inPacket.command != 0 && old(Amid(queued, socket.wire + unsent)) {
        LengthStep(queued, |handled|, inPacket.State(), rest);
        assert socket.wire + unsent == rest[1..];
      }
      var tooLong := inPacket.AddLengthByte(byte);
      return if tooLong then Protocol else Success, byte < 128;
    }

    /** The bytes of the remaining length, until one has the top bit clear. */
    method ReadLength(socket: Socket, ghost queued: seq<Frame>, ghost unsent: Bytes) returns (rc: Rc)
      requires !inPacket.haveRemaining
      modifies inPacket, socket
      ensures inPacket.command == old(inPacket.command)
      ensures old(inPacket.command) != 0 && old(Amid(queued, socket.wire + unsent)) ==>
        rc != Protocol && Amid(queued, socket.wire + unsent)
      ensures rc != Protocol ==> (rc == Success <==> inPacket.haveRemaining)
      ensures old(socket.Willing(|socket.wire|)) ==>
        socket.Willing(|socket.wire|) && (rc == Again ==> socket.wire == [])
    {
      ghost var joined := inPacket.command != 0 && Amid(queued, socket.wire + unsent);
      var last := false;
      while !last
        invariant inPacket.command == old(inPacket.command) && !inPacket.haveRemaining
        invariant joined ==> if last then Inside(queued, |handled|, HaveLength(inPacket.State()), socket.wire + unsent)
                             else Amid(queued, socket.wire + unsent)
        invariant old(socket.Willing(|socket.wire|)) ==> socket.Willing(|socket.wire|)
        decreases |socket.grants|
      {
        rc, last := ReadLengthByte(socket, queued, unsent);
        if rc != Success {
          return;
        }
      }
      inPacket.haveRemaining := true;
      inPacket.toProcess := inPacket.remainingLength;
      return Success;
    }

    /** The rest of the frame. */
    method ReadBody(socket: Socket, ghost queued: seq<Frame>, ghost unsent: Bytes) returns (rc: Rc)
      requires inPacket.haveRemaining
      modifies inPacket, socket
      ensures rc != Protocol && inPacket.haveRemaining && (rc == Success <==> inPacket.toProcess == 0)
      ensures old(Amid(queued, socket.wire + unsent)) ==> Amid(queued, socket.wire + unsent)
      ensures old(socket.Willing(|socket.wire|)) ==>
        socket.Willing(|socket.wire|) && (rc == Again ==> socket.wire == [])
    {
      while inPacket.toProcess > 0
        invariant inPacket.haveRemaining
        invariant old(Amid(queued, socket.wire + unsent)) ==> Amid(queued, socket.wire + unsent)
        invariant old(socket.Willing(|socket.wire|)) ==> socket.Willing(|socket.wire|)
        decreases |socket.grants|
      {
        ghost var s, rest := inPacket.State(), socket.wire + unsent;
        var data := socket.Recv(inPacket.toProcess);
        assert data <= rest && rest[|data|..] == socket.wire + unsent;
        if data == [] {
          return Again;
        }
        if Inside(queued, |handled|, s, rest) {
          BodyStep(queued, |handled|, s, rest, data);
        }
        inPacket.AddBody(data);
      }
      return Success;
    }

    /** Hands a complete frame over and starts afresh. */
    method PacketHandle(ghost queued: seq<Frame>, ghost rest: Bytes)
      requires inPacket.haveRemaining && inPacket.toProcess == 0
      modifies this`handled, inPacket
      ensures old(Amid(queued, rest)) ==> InStep(queued, rest)
      ensures handled == old(handled) + [Frame(old(inPacket.command), old(inPacket.packet))]
    {
      if Amid(queued, rest) {
        FrameEnds(queued, |handled|, inPacket.State(), rest);
      }
      handled := handled + [Frame(inPacket.command, inPacket.packet)];
      inPacket.Cleanup();
    }

    /**
     * _packet_read: continues the current frame and hands it over when it is complete. Whatever the socket grants, the
     * reader stays in step with the frames queued; and it stops short of a frame only when nothing is left to take, if
     * the socket is willing.
     */
    method PacketRead(socket: Socket, ghost queued: seq<Frame>, ghost unsent: Bytes) returns (rc: Rc)
      modifies this`handled, inPacket, socket
      ensures old(InStep(queued, socket.wire + unsent)) ==> rc != Protocol && InStep(queued, socket.wire + unsent)
      ensures if rc == Success then |handled| == |old(handled)| + 1 && handled[..|old(handled)|] == old(handled)
              else handled == old(handled)
      ensures old(socket.Willing(|socket.wire|)) && rc == Again ==> socket.wire == []
    {
      ghost var joined := InStep(queued, socket.wire + unsent);
      if inPacket.command == 0 {
        rc := ReadCommand(socket, queued, unsent);
        if rc != Success { return; }
      }
      if !inPacket.haveRemaining {
        rc := ReadLength(socket, queued, unsent);
        if rc != Success {
          if joined { NotAtEnd(queued, |handled|, inPacket.State(), socket.wire + unsent); }
          return;
        }
      }
      rc := ReadBody(socket, queued, unsent);
      if rc != Success {
        if joined { NotAtEnd(queued, |handled|, inPacket.State(), socket.wire + unsent); }
        return;
      }
      PacketHandle(queued, socket.wire + unsent);
    }
  }
}
