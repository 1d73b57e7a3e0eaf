/**
 * The window of outbound messages in benchmark/mosquitto.py: publish, _update_inflight and the acknowledgement
 * handlers, for runs without inbound messages, reconnects or failing sends (section 4.1 of the MQTT V3.1
 * specification).
 */
module MqttInflight {
  import opened Modbus

  datatype State = Invalid | WaitPuback | WaitPubrec | WaitPubcomp

  /** An outbound message with quality of service 1 or 2. serial is its number among these, for bookkeeping only. */
  datatype OutMessage = OutMessage(serial: nat, mid: Word, qos: nat, state: State)

  /** What goes out: PUBLISH and PUBREL packets; and what the client is told: that a message is through. */
  datatype Event = Sent(serial: nat, mid: Word, qos: nat) | Released(mid: Word) | Completed(serial: nat, mid: Word)

  /** The numbers of the messages sent, in the order of sending. */
  function SentIn(log: seq<Event>): seq<nat> {
    if log == [] then []
    else
      var e := log[|log| - 1];
      SentIn(log[..|log| - 1]) + if e.Sent? then [e.serial] else []
  }

  function CompletedIn(log: seq<Event>): seq<nat> {
    if log == [] then []
    else
      var e := log[|log| - 1];
      CompletedIn(log[..|log| - 1]) + if e.Completed? then [e.serial] else []
  }

  lemma LogStep(log: seq<Event>, e: Event)
    ensures SentIn(log + [e]) == SentIn(log) + if e.Sent? then [e.serial] else []
    ensures CompletedIn(log + [e]) == CompletedIn(log) + if e.Completed? then [e.serial] else []
  {
  }

  /** The first inflight messages are waiting for an answer, and the others are queued. */
  ghost predicate Split(messages: seq<OutMessage>, inflight: int) {
    && 0 <= inflight <= |messages|
    && forall i | 0 <= i < |messages| :: messages[i].qos in {1, 2} && (messages[i].state != Invalid <==> i < inflight)
  }

  /** The number of messages waiting for an answer. */
  function Waiting(messages: seq<OutMessage>): nat {
    if messages == [] then 0
    else Waiting(messages[..|messages| - 1]) + if messages[|messages| - 1].state != Invalid then 1 else 0
  }

  lemma {:induction false} SplitCounts(messages: seq<OutMessage>, inflight: int)
    requires Split(messages, inflight)
    ensures Waiting(messages) == inflight
  {
    if messages != [] {
      var n := |messages| - 1;
      SplitCounts(messages[..n], if inflight > n then n else inflight);
    }
  }

  lemma {:induction false} WaitingOfParts(a: seq<OutMessage>, b: seq<OutMessage>)
    ensures Waiting(a + b) == Waiting(a) + Waiting(b)
  {
    if b == [] {
      assert a + b == a;
    } else {
      var n := |b| - 1;
      WaitingOfParts(a, b[..n]);
      assert (a + b)[..|a + b| - 1] == a + b[..n];
    }
  }

  /**
   * The handlers adjust the counter without looking at the state of the message acknowledged: it keeps counting the
   * waiting messages, after PUBREC and after PUBACK or PUBCOMP, exactly if that message was in the window.
   */
  lemma AcknowledgementCounts(messages: seq<OutMessage>, inflight: int, i: nat)
    requires Split(messages, inflight) && i < |messages|
    ensures Waiting(messages[i := messages[i].(state := WaitPubcomp)]) == inflight <==> i < inflight
    ensures Waiting(messages[..i] + messages[i + 1..]) == inflight - 1 <==> i < inflight
  {
    var before, m, behind := messages[..i], messages[i], messages[i + 1..];
    var m' := m.(state := WaitPubcomp);
    assert messages == before + [m] + behind && messages[i := m'] == before + [m'] + behind;
    SplitCounts(messages, inflight);
    WaitingOfParts(before, [m]);
    WaitingOfParts(before + [m], behind);
    WaitingOfParts(before, [m']);
    WaitingOfParts(before + [m'], behind);
    WaitingOfParts(before, behind);
  }

  lemma RemovedCounts(messages: seq<OutMessage>, inflight: int, i: nat)
    requires Split(messages, inflight) && i < |messages|
    ensures Waiting(messages[..i] + messages[i + 1..]) == if i < inflight then inflight - 1 else inflight
  {
    var before, m, behind := messages[..i], messages[i], messages[i + 1..];
    assert messages == before + [m] + behind;
    SplitCounts(messages, inflight);
    WaitingOfParts(before, [m]);
    WaitingOfParts(before + [m], behind);
    WaitingOfParts(before, behind);
  }

  lemma NowWaiting(messages: seq<OutMessage>, i: nat, state: State)
    requires i < |messages| && messages[i].state == Invalid && state != Invalid
    ensures Waiting(messages[i := messages[i].(state := state)]) == Waiting(messages) + 1
  {
    var before, m, behind := messages[..i], messages[i], messages[i + 1..];
    var m' := m.(state := state);
    assert messages == before + [m] + behind && messages[i := m'] == before + [m'] + behind;
    WaitingOfParts(before, [m]);
    WaitingOfParts(before + [m], behind);
    WaitingOfParts(before, [m']);
    WaitingOfParts(before + [m'], behind);
  }

  /**
   * With one message waiting and one queued, an acknowledgement of the queued one leaves the counter at none waiting.
   */
  lemma QueuedAcknowledged()
    ensures var messages := [OutMessage(0, 1, 1, WaitPuback), OutMessage(1, 2, 1, Invalid)];
      Split(messages, 1) && Waiting(messages[..1] + messages[2..]) == 1
  {
    var messages := [OutMessage(0, 1, 1, WaitPuback), OutMessage(1, 2, 1, Invalid)];
    assert messages[..1] + messages[2..] == [messages[0]];
    SplitCounts([messages[0]], 1);
  }

  /** The queued messages carry the numbers from next on, and the waiting ones smaller numbers, in order. */
  ghost predicate Numbered(messages: seq<OutMessage>, inflight: int, next: nat) {
    && (forall i | 0 <= i < |messages| && i >= inflight :: messages[i].serial == next + (i - inflight))
    && (forall i | 0 <= i < |messages| && i < inflight :: messages[i].serial < next)
    && (forall i, j | 0 <= i < j < |messages| :: messages[i].serial < messages[j].serial)
  }

  /** The messages sent so far are the first ones published, each once and in order. */
  ghost predicate SentInOrder(log: seq<Event>, next: nat) {
    |SentIn(log)| == next && forall i | 0 <= i < next :: SentIn(log)[i] == i
  }

  /** Every message sent is either waiting or completed, and none is completed twice. */
  ghost predicate Accounted(messages: seq<OutMessage>, inflight: int, log: seq<Event>, next: nat) {
    var done := CompletedIn(log);
    && |done| + inflight == next
    && (forall i | 0 <= i < |done| :: done[i] < next)
    && (forall i, j | 0 <= i < j < |done| :: done[i] != done[j])
    && (forall i, j | 0 <= i < |done| && 0 <= j < |messages| && j < inflight :: done[i] != messages[j].serial)
  }

  /** Everything but the fullness of the window, when next messages have been sent. */
  ghost predicate InOrder(maxInflight: nat, messages: seq<OutMessage>, inflight: int, log: seq<Event>, next: int) {
    && Split(messages, inflight) && next >= 0 && (maxInflight > 0 ==> inflight <= maxInflight)
    && Numbered(messages, inflight, next) && SentInOrder(log, next) && Accounted(messages, inflight, log, next)
  }

  lemma SendingKeeps(maxInflight: nat, messages: seq<OutMessage>, inflight: nat, log: seq<Event>, next: int)
    requires InOrder(maxInflight, messages, inflight, log, next) && inflight < |messages|
    requires maxInflight > 0 ==> inflight < maxInflight
    ensures var m := messages[inflight];
      InOrder(maxInflight, messages[inflight := m.(state := if m.qos == 1 then WaitPuback else WaitPubrec)],
              inflight + 1, log + [Sent(m.serial, m.mid, m.qos)], next + 1)
  {
    var m := messages[inflight];
    LogStep(log, Sent(m.serial, m.mid, m.qos));
  }

  lemma ReleasingKeeps(maxInflight: nat, messages: seq<OutMessage>, inflight: int, log: seq<Event>, next: int, i: nat)
    requires InOrder(maxInflight, messages, inflight, log, next) && i < |messages| && i < inflight
    ensures InOrder(maxInflight, messages[i := messages[i].(state := WaitPubcomp)], inflight,
                    log + [Released(messages[i].mid)], next)
  {
    LogStep(log, Released(messages[i].mid));
  }

  lemma CompletingKeeps(maxInflight: nat, messages: seq<OutMessage>, inflight: int, log: seq<Event>, next: int, i: nat)
    requires InOrder(maxInflight, messages, inflight, log, next) && i < |messages| && i < inflight
    ensures InOrder(maxInflight, messages[..i] + messages[i + 1..], inflight - 1,
                    log + [Completed(messages[i].serial, messages[i].mid)], next)
  {
    LogStep(log, Completed(messages[i].serial, messages[i].mid));
  }

  /** The client publishes, or the broker acknowledges message k of the window, with PUBREC if received. */
  datatype Op = Publishing(qos: nat) | Acknowledging(k: nat, received: bool)

  predicate IsFirstWith(messages: seq<OutMessage>, i: int, mid: Word) {
    0 <= i < |messages| && messages[i].mid == mid && forall k | 0 <= k < i :: messages[k].mid != mid
  }

  /** A queued message enters the window: the answer it then waits for. */
  function Awaiting(m: OutMessage): OutMessage {
    m.(state := if m.qos == 1 then WaitPuback else WaitPubrec)
  }

  /** The same messages in the same order, except that queued ones may have entered the window. */
  ghost predicate Entered(messages: seq<OutMessage>, messages': seq<OutMessage>) {
    && |messages| == |messages'|
    && forall i | 0 <= i < |messages| ::
         messages'[i] == messages[i] || (messages[i].state == Invalid && messages'[i] == Awaiting(messages[i]))
  }

  /** What went out for those of the first n that have entered. */
  function Sends(messages: seq<OutMessage>, messages': seq<OutMessage>, n: nat): seq<Event>
    requires n <= |messages| == |messages'|
  {
    if n == 0 then []
    else
      var m := messages[n - 1];
      Sends(messages, messages', n - 1) + if messages'[n - 1] != m then [Sent(m.serial, m.mid, m.qos)] else []
  }

  lemma {:induction false} SameSends(a: seq<OutMessage>, b: seq<OutMessage>, b': seq<OutMessage>, n: nat)
    requires n <= |a| == |b| == |b'| && forall i | 0 <= i < n :: b[i] == b'[i]
    ensures Sends(a, b, n) == Sends(a, b', n)
  {
    if n > 0 {
      SameSends(a, b, b', n - 1);
    }
  }

  /** One more message enters. */
  lemma SendsNext(a: seq<OutMessage>, b: seq<OutMessage>, n: nat)
    requires n < |a| == |b| && b[n] == a[n] && a[n].state == Invalid && Entered(a, b)
    ensures var m, b' := a[n], b[n := Awaiting(a[n])];
      Entered(a, b') && Sends(a, b', n + 1) == Sends(a, b, n) + [Sent(m.serial, m.mid, m.qos)]
  {
    SameSends(a, b, b[n := Awaiting(a[n])], n);
  }

  /** Messages from n on that have not entered add nothing. */
  lemma {:induction false} SendsUpTo(a: seq<OutMessage>, b: seq<OutMessage>, n: nat, end: nat)
    requires n <= end <= |a| == |b| && forall i | n <= i < end :: b[i] == a[i]
    ensures Sends(a, b, end) == Sends(a, b, n)
  {
    if n < end {
      SendsUpTo(a, b, n, end - 1);
    }
  }

  lemma {:induction false} SendsComplete(log: seq<Event>, a: seq<OutMessage>, b: seq<OutMessage>, n: nat)
    requires n <= |a| == |b|
    ensures CompletedIn(log + Sends(a, b, n)) == CompletedIn(log)
  {
    if n == 0 {
      assert log + [] == log;
    } else {
      SendsComplete(log, a, b, n - 1);
      var m, before := a[n - 1], Sends(a, b, n - 1);
      if b[n - 1] != m {
        LogStep(log + before, Sent(m.serial, m.mid, m.qos));
        assert log + Sends(a, b, n) == log + before + [Sent(m.serial, m.mid, m.qos)];
      } else {
        assert Sends(a, b, n) == before;
      }
    }
  }

  /** The id that message n is given. */
  lemma NextId(n: nat)
    ensures (if n == 0 then 0 else (n - 1) % 65535 + 1) % 65535 + 1 == n % 65535 + 1
  {
  }

  /** What is sent first: the messages published first, with the ids from 1 on. */
  ghost predicate AreFirst(log: seq<Event>, levels: seq<nat>) {
    |log| <= |levels| && forall i | 0 <= i < |log| :: log[i] == Sent(i, i % 65535 + 1, levels[i])
  }

  /** Message i is through and has left the window; of the others some have entered it and been sent. */
  ghost predicate Left(messages: seq<OutMessage>, log: seq<Event>, messages': seq<OutMessage>, log': seq<Event>, i: nat)
    requires i < |messages|
  {
    var m, rest := messages[i], messages[..i] + messages[i + 1..];
    && Entered(rest, messages')
    && log' == log + [Completed(m.serial, m.mid)] + Sends(rest, messages', |rest|)
  }

  /** A client's outbound side. */
  class Publisher {
    const maxInflight: nat
    var messages: seq<OutMessage>
    var inflight: int
    var lastMid: Word

    /** Everything sent and reported so far, and the number of messages published. */
    var log: seq<Event>
    var published: nat

    constructor (maxInflight: nat)
      ensures Valid() && this.maxInflight == maxInflight
      ensures messages == [] && inflight == 0 && lastMid == 0 && log == [] && published == 0
    {
      this.maxInflight := maxInflight;
      messages, inflight, lastMid, log, published := [], 0, 0, [], 0;
    }

    /** How many messages have been sent. */
    function Next(): int
      reads this
    {
      published - (|messages| - inflight)
    }

    /** Everything but the fullness of the window. */
    ghost predicate Consistent()
      reads this
    {
      InOrder(maxInflight, messages, inflight, log, Next())
    }

    /** And messages are queued only while the window is full. */
    ghost predicate Valid()
      reads this
    {
      Consistent() && (inflight < |messages| ==> inflight == maxInflight > 0)
    }

    method MidGenerate() returns (mid: Word)
      modifies this`lastMid
      ensures mid == lastMid == old(lastMid) % 65535 + 1
    {
      lastMid := if lastMid == 65535 then 1 else lastMid + 1;
      mid := lastMid;
    }

    /** How far the counter is from the number of messages waiting. */
    ghost function Miscount(): int
      reads this
    {
      Waiting(messages) - inflight
    }

    /** A queued message enters the window and is sent; in an orderly state it is the first queued one. */
    method SendAt(i: nat)
      requires i < |messages| && messages[i].state == Invalid && (maxInflight > 0 ==> inflight < maxInflight)
      modifies this`messages, this`inflight, this`log
      ensures !old(Consistent()) || i != old(inflight) || Consistent()
      ensures inflight == old(inflight) + 1
      ensures var m := old(messages)[i];
        && messages == old(messages)[i := m.(state := if m.qos == 1 then WaitPuback else WaitPubrec)]
        && log == old(log) + [Sent(m.serial, m.mid, m.qos)]
    {
      var m := messages[i];
      if Consistent() && i == inflight {
        SendingKeeps(maxInflight, messages, inflight, log, Next());
      }
      messages := messages[i := m.(state := if m.qos == 1 then WaitPuback else WaitPubrec)];
      inflight := inflight + 1;
      log := log + [Sent(m.serial, m.mid, m.qos)];
    }

    /** _update_inflight: lets queued messages into the window as long as there is room. */
    method UpdateInflight()
      requires maxInflight > 0
      modifies this`messages, this`inflight, this`log
      ensures !old(Consistent()) || Valid()
      ensures inflight >= old(inflight) && Miscount() == old(Miscount()) && Entered(old(messages), messages)
      ensures log == old(log) + Sends(old(messages), messages, |messages|)
      ensures inflight >= maxInflight || forall k | 0 <= k < |messages| :: messages[k].state != Invalid
    {
      for i := 0 to |messages|
        invariant old(Consistent()) ==> Consistent() && (i <= inflight || inflight == maxInflight)
        invariant old(inflight) <= inflight && Miscount() == old(Miscount()) && Entered(old(messages), messages)
        invariant inflight >= maxInflight || forall k | 0 <= k < i :: messages[k].state != Invalid
        invariant log == old(log) + Sends(old(messages), messages, i)
        invariant forall k | i <= k < |messages| :: messages[k] == old(messages)[k]
      {
        if inflight < maxInflight {
          if messages[i].state == Invalid {
            NowWaiting(messages, i, Awaiting(messages[i]).state);
            SendsNext(old(messages), messages, i);
            SendAt(i);
          }
        } else {
          SendsUpTo(old(messages), messages, i, |messages|);
          return;
        }
      }
    }

    method Append(message: OutMessage)
      requires Consistent() && message.serial == published && message.qos in {1, 2} && message.state == Invalid
      modifies this`messages, this`published
      ensures Consistent() && messages == old(messages) + [message] && published == old(published) + 1
    {
      messages := messages + [message];
      published := published + 1;
    }

    /** The part of publish for quality of service 1 and 2. */
    method Publish(qos: nat) returns (mid: Word)
      requires Valid() && qos in {1, 2}
      modifies this
      ensures Valid() && published == old(published) + 1 && mid == lastMid == old(lastMid) % 65535 + 1
      ensures inflight == old(inflight) + if old(HasRoom()) then 1 else 0
      ensures var state := if qos == 1 then WaitPuback else WaitPubrec;
        var m := OutMessage(old(published), mid, qos, if old(HasRoom()) then state else Invalid);
        && messages == old(messages) + [m]
        && log == old(log) + if old(HasRoom()) then [Sent(old(published), mid, qos)] else []
    {
      mid := MidGenerate();
      Append(OutMessage(published, mid, qos, Invalid));
      if maxInflight == 0 || inflight < maxInflight {
        SendAt(|messages| - 1);
      }
    }

    /** The first n messages, and no others, have been published, and nothing has been acknowledged. */
    ghost predicate Begun(levels: seq<nat>, n: nat)
      reads this
    {
      && Valid() && published == |messages| == n <= |levels|
      && inflight == |log| == (if maxInflight == 0 || n <= maxInflight then n else maxInflight)
      && lastMid == (if n == 0 then 0 else (n - 1) % 65535 + 1)
      && AreFirst(log, levels)
    }

    method PublishNext(levels: seq<nat>, n: nat)
      requires n < |levels| && levels[n] in {1, 2} && Begun(levels, n)
      modifies this
      ensures Begun(levels, n + 1)
    {
      NextId(n);
      var _ := Publish(levels[n]);
    }

    predicate HasRoom()
      reads this
    {
      maxInflight == 0 || inflight < maxInflight
    }

    /** The first message with this id, or the number of messages. */
    method Find(mid: Word) returns (i: nat)
      ensures i <= |messages| && forall k | 0 <= k < i :: messages[k].mid != mid
      ensures i < |messages| ==> messages[i].mid == mid
    {
      i := 0;
      while i < |messages| && messages[i].mid != mid
        invariant i <= |messages| && forall k | 0 <= k < i :: messages[k].mid != mid
      {
        i := i + 1;
      }
    }

    /** The id is that of a message in the window, or of none at all. */
    ghost predicate Acknowledgeable(mid: Word)
      reads this
    {
      (exists i :: 0 <= i < |messages| && i < inflight && messages[i].mid == mid)
      || forall i | 0 <= i < |messages| :: messages[i].mid != mid
    }

    /** Ids of messages in the window are not those of queued ones before them. */
    lemma FirstAcknowledged(i: nat, mid: Word)
      requires IsFirstWith(messages, i, mid)
      ensures Acknowledgeable(mid) <==> i < inflight
    {
    }

    /** Its part for the message found. */
    method Release(i: nat)
      requires Valid() && i < |messages|
      modifies this`messages, this`log
      ensures i >= inflight || Valid()
      ensures Waiting(messages) == inflight <==> i < inflight
      ensures messages == old(messages)[i := old(messages)[i].(state := WaitPubcomp)]
      ensures log == old(log) + [Released(old(messages)[i].mid)]
    {
      AcknowledgementCounts(messages, inflight, i);
      if i < inflight {
        ReleasingKeeps(maxInflight, messages, inflight, log, Next(), i);
      }
      log := log + [Released(messages[i].mid)];
      messages := messages[i := messages[i].(state := WaitPubcomp)];
    }

    /**
     * _handle_pubrec: the counter is right afterwards exactly if the id was that of a message in the window or of none.
     */
    method HandlePubrec(mid: Word)
      requires Valid()
      modifies this`messages, this`log
      ensures !old(Acknowledgeable(mid)) || Valid()
      ensures Waiting(messages) == inflight <==> old(Acknowledgeable(mid))
      ensures |messages| == |old(messages)|
      ensures forall i | IsFirstWith(old(messages), i, mid) :: messages[i] == old(messages)[i].(state := WaitPubcomp)
      ensures forall i | 0 <= i < |messages| && !IsFirstWith(old(messages), i, mid) :: messages[i] == old(messages)[i]
      ensures log == old(log) + if exists i :: IsFirstWith(old(messages), i, mid) then [Released(mid)] else []
    {
      var i := Find(mid);
      if i < |messages| {
        assert IsFirstWith(messages, i, mid);
        FirstAcknowledged(i, mid);
        Release(i);
      } else {
        SplitCounts(messages, inflight);
      }
    }

    /** The first message with the acknowledged id is through and leaves the window. */
    method Complete(i: nat)
      requires Valid() && i < |messages|
      modifies this`messages, this`inflight, this`log
      ensures i >= old(inflight) || Consistent()
      ensures inflight == old(inflight) - 1 && Miscount() == if i < old(inflight) then 0 else 1
      ensures messages == old(messages)[..i] + old(messages)[i + 1..]
      ensures log == old(log) + [Completed(old(messages)[i].serial, old(messages)[i].mid)]
    {
      RemovedCounts(messages, inflight, i);
      if i < inflight {
        CompletingKeeps(maxInflight, messages, inflight, log, Next(), i);
      }
      log := log + [Completed(messages[i].serial, messages[i].mid)];
      messages := messages[..i] + messages[i + 1..];
      inflight := inflight - 1;
    }

    /** And queued messages take the room it leaves. */
    method CompleteAndUpdate(i: nat)
      requires Valid() && i < |messages|
      modifies this`messages, this`inflight, this`log
      ensures i >= old(inflight) || Valid()
      ensures Waiting(messages) == inflight <==> i < old(inflight)
      ensures Left(old(messages), old(log), messages, log, i)
      ensures CompletedIn(log) == old(CompletedIn(log)) + [old(messages)[i].serial]
    {
      LogStep(log, Completed(messages[i].serial, messages[i].mid));
      Complete(i);
      ghost var rest, log0 := messages, log;
      SendsUpTo(rest, rest, 0, |rest|);
      if maxInflight > 0 {
        UpdateInflight();
      }
      assert log == log0 + Sends(rest, messages, |rest|);
      SendsComplete(log0, rest, messages, |rest|);
    }

    /**
     * _handle_pubackcomp, for PUBACK and PUBCOMP alike: the counter is right afterwards exactly if the id was that of a
     * message in the window or of none.
     */
    method HandlePubackcomp(mid: Word)
      requires Valid()
      modifies this`messages, this`inflight, this`log
      ensures !old(Acknowledgeable(mid)) || Valid()
      ensures Waiting(messages) == inflight <==> old(Acknowledgeable(mid))
      ensures forall i | IsFirstWith(old(messages), i, mid) ::
        && Left(old(messages), old(log), messages, log, i)
        && CompletedIn(log) == old(CompletedIn(log)) + [old(messages)[i].serial]
      ensures (forall i :: !IsFirstWith(old(messages), i, mid)) ==> log == old(log) && messages == old(messages)
    {
      var i := Find(mid);
      if i < |messages| {
        assert IsFirstWith(messages, i, mid);
        FirstAcknowledged(i, mid);
        CompleteAndUpdate(i);
      } else {
        SplitCounts(messages, inflight);
      }
    }

    /** What can happen next. */
    method Do(op: Op)
      requires Valid() && (op.Publishing? ==> op.qos in {1, 2})
      modifies this
      ensures Valid() && published == old(published) + if op.Publishing? then 1 else 0
    {
      match op
      case Publishing(qos) => var _ := Publish(qos);
      case Acknowledging(k, received) =>
        if k < inflight {
          if received {
            HandlePubrec(messages[k].mid);
          } else {
            HandlePubackcomp(messages[k].mid);
          }
        }
    }

    /**
     * Main result: in every run in which the broker acknowledges only messages in the window, the counter is the
     * number of messages waiting and keeps within the limit; messages are queued only behind a full window; and the
     * messages are sent once each in the order of publishing and completed at most once.
     */
    method Run(ops: seq<Op>)
      requires Valid() && forall i | 0 <= i < |ops| && ops[i].Publishing? :: ops[i].qos in {1, 2}
      modifies this
      ensures Valid() && inflight == Waiting(messages) && (maxInflight > 0 ==> inflight <= maxInflight)
      ensures forall i | 0 <= i < |messages| && messages[i].state == Invalid ::
        inflight == maxInflight > 0 && forall j | i <= j < |messages| :: messages[j].state == Invalid
      ensures forall i | 0 <= i < |SentIn(log)| :: SentIn(log)[i] == i
      ensures |SentIn(log)| == published - (|messages| - inflight)
      ensures forall i, j | 0 <= i < j < |CompletedIn(log)| :: CompletedIn(log)[i] != CompletedIn(log)[j]
      ensures |CompletedIn(log)| + inflight == |SentIn(log)|
    {
      for i := 0 to |ops|
        invariant Valid()
      {
        Do(ops[i]);
      }
      SplitCounts(messages, inflight);
    }
  }

  /**
   * Main result: of the first messages a client publishes as many go out at once as its window holds, all of them if it
   * is unlimited, with the ids from 1 on; the others wait.
   */
  method PublishFirst(maxInflight: nat, levels: seq<nat>) returns (p: Publisher)
    requires forall i | 0 <= i < |levels| :: levels[i] in {1, 2}
    ensures fresh(p) && p.Valid() && p.maxInflight == maxInflight && p.published == |p.messages| == |levels|
    ensures |p.log| == if maxInflight == 0 || |levels| <= maxInflight then |levels| else maxInflight
    ensures AreFirst(p.log, levels)
  {
    p := new Publisher(maxInflight);
    for n := 0 to |levels|
      invariant fresh(p) && p.maxInflight == maxInflight
      invariant n > |levels| || p.Begun(levels, n)
    {
      p.PublishNext(levels, n);
    }
  }
}
