/** The connection object of connection.rs with the packet handlers of transport.rs, and its runs. */
module Transport {
  import opened Keys
  import opened Streams
  import opened Acks
  import opened Reliable
  import opened Schedules

  class Connection {
    var streams: map<nat, Stream>
    var nextStreamId: nat
    var packetNum: nat
    const ackTracker: AckTracker

    ghost predicate Valid()
      reads this, ackTracker
    {
      && ackTracker.Valid()
      && (forall a, b :: a in streams && b in streams && a != b ==> streams[a] != streams[b])
      && (forall a :: a in streams ==> a < nextStreamId)
    }

    ghost function Objects(): set<object>
      reads this
    {
      {this, ackTracker} + set a | a in streams :: streams[a]
    }

    /** The receiving halves of the streams. */
    ghost function Inboxes(): map<nat, Inbox>
      reads this, set a | a in streams :: streams[a]
    {
      map a | a in streams :: streams[a].View()
    }

    ghost predicate AllReliable()
      reads this, set a | a in streams :: streams[a]
    {
      forall a :: a in streams ==> streams[a].ordered && streams[a].reliable
    }

    constructor ()
      ensures Valid() && fresh(ackTracker) && streams == map[] && packetNum == 0 && nextStreamId == 0
      ensures ackTracker.inFlight == map[] && ackTracker.retransmitQueue == [] && ackTracker.pendingAcks == []
      ensures ackTracker.Timing() == FIRST_TIMES
    {
      streams, nextStreamId, packetNum := map[], 0, 0;
      ackTracker := new AckTracker();
    }

    method OpenStream(ordered: bool, reliable: bool) returns (id: nat)
      requires Valid()
      modifies this`streams, this`nextStreamId
      ensures Valid() && id == old(nextStreamId) && id !in old(streams) && nextStreamId == id + 1
      ensures streams.Keys == old(streams).Keys + {id} && fresh(streams[id])
      ensures forall a :: a in old(streams) ==> streams[a] == old(streams)[a]
      ensures streams[id].ordered == ordered && streams[id].reliable == reliable
      ensures streams[id].View() == EMPTY && streams[id].sendOffset == 0
    {
      id := nextStreamId;
      var s := new Stream(id, ordered, reliable);
      streams := streams[id := s];
      nextStreamId := nextStreamId + 1;
    }

    method NextPacketNum() returns (n: nat)
      modifies this`packetNum
      ensures n == old(packetNum) && packetNum == n + 1
    {
      n := packetNum;
      packetNum := packetNum + 1;
    }

    /** send_stream: takes the offset and a packet number, and tracks the packet on a reliable stream. */
    method SendStream(id: nat, data: seq<byte>, now: nat) returns (r: Option<Packet>)
      requires Valid()
      modifies this`packetNum, ackTracker`inFlight, (if id in streams then {streams[id]} else {})`sendOffset
      ensures Valid()
      ensures id !in streams ==>
        r == None && packetNum == old(packetNum) && ackTracker.inFlight == old(ackTracker.inFlight)
      ensures id in streams ==>
        && r == Some(Packet(old(packetNum), id, old(streams[id].sendOffset), data)) && packetNum == old(packetNum) + 1
        && streams[id].sendOffset == (old(streams[id].sendOffset) + |data|) % U32
        && (if streams[id].reliable
            then ackTracker.Packets() == old(ackTracker.Packets())[r.value.num := r.value]
                 && ackTracker.inFlight == old(ackTracker.inFlight)[r.value.num := InFlight(r.value, now, 0)]
            else ackTracker.inFlight == old(ackTracker.inFlight))
    {
      if id !in streams {
        return None;
      }
      var stream := streams[id];
      var offset := stream.TakeOffset(|data|);
      var pnum := NextPacketNum();
      var packet := Packet(pnum, id, offset, data);
      if stream.reliable {
        ackTracker.Track(packet, now);
      }
      r := Some(packet);
    }

    /** The Stream arm of handle_packet behind the receive window: delivers to the stream, if it is open,
        and acknowledges a reliable packet at once; each acknowledgement takes a packet number. */
    method HandleStream(p: Packet, reliable: bool) returns (acks: seq<nat>)
      requires Valid() && ackTracker.pendingAcks == []
      modifies this`packetNum, ackTracker`pendingAcks
      modifies (if p.stream in streams then {streams[p.stream]} else {})`nextExpectedOffset
      modifies (if p.stream in streams then {streams[p.stream]} else {})`reorderBuf
      modifies (if p.stream in streams then {streams[p.stream]} else {})`recvBuf
      ensures Valid() && ackTracker.pendingAcks == []
      ensures acks == if p.stream in streams && reliable then [p.num] else []
      ensures p.stream in streams && streams[p.stream].ordered ==>
        streams[p.stream].View() == Received(old(streams[p.stream].View()), p.offset, p.data)
      ensures p.stream in streams && !streams[p.stream].ordered ==>
        var b := old(streams[p.stream].View());
        streams[p.stream].View() == b.(out := b.out + [p.data])
      ensures packetNum == old(packetNum) + |acks|
      ensures forall id :: id in streams && id != p.stream ==> streams[id].View() == old(streams[id].View())
    {
      hide Received;
      if p.stream in streams {
        streams[p.stream].Receive(p.offset, p.data);
        if reliable {
          ackTracker.QueueAck(p.num);
        }
      }
      acks := ackTracker.DrainAcks();
      packetNum := packetNum + |acks|;
    }
  }

  // ---------------------------------------------------------------------------------------------
  // Runs of two connections

  /** a is in the sender's state of the world w. */
  ghost predicate SenderIn(a: Connection, w: World)
    reads a, a.Objects()
  {
    && a.Valid() && a.AllReliable()
    && a.packetNum == w.nextNum && a.ackTracker.Packets() == w.inFlight && a.ackTracker.retransmitQueue == w.queue
    && a.streams.Keys == w.chunks.Keys
    && (forall id :: id in w.chunks ==> a.streams[id].sendOffset == Total(w.chunks[id]) % U32)
  }

  /** b is in the receiver's state. */
  ghost predicate ReceiverIn(b: Connection, w: World)
    reads b, b.Objects()
  {
    b.Valid() && b.AllReliable() && b.Inboxes() == w.inboxes && b.ackTracker.pendingAcks == []
  }

  /** The sender's ids, tracker and estimates are those of the situation. */
  ghost predicate SenderAt(a: Connection, st: Situation)
    reads a, a.Objects()
  {
    && SenderIn(a, st.w) && a.nextStreamId == st.toOpen
    && a.ackTracker.inFlight == st.table && a.ackTracker.Timing() == st.times
  }

  ghost predicate ReceiverAt(b: Connection, st: Situation)
    reads b, b.Objects()
  {
    ReceiverIn(b, st.w) && b.nextStreamId == st.toAccept
  }

  /** Old objects and new ones only. */
  twostate predicate Grown(new c: Connection, was: set<object>)
    reads c
  {
    forall o :: o in c.Objects() ==> o in was || fresh(o)
  }

  method OpenSend(a: Connection, ghost st: Situation, ghost now: nat)
    requires SenderAt(a, st)
    modifies a`streams, a`nextStreamId
    ensures SenderAt(a, Act(st, OpenAtSender, now)) && Grown(a, old(a.Objects()))
  {
    hide Total, Act, Next;
    NothingSent();
    Beginning(st, now);
    var id := a.OpenStream(true, true);
  }

  lemma Beginning(st: Situation, now: nat)
    requires st.toOpen !in st.w.chunks
    ensures Act(st, OpenAtSender, now) ==
      st.(w := st.w.(chunks := st.w.chunks[st.toOpen := []]), toOpen := st.toOpen + 1)
  {
  }

  lemma NothingSent()
    ensures Total([]) == 0
  {
  }

  method OpenReceive(b: Connection, ghost st: Situation, ghost now: nat)
    requires ReceiverAt(b, st)
    modifies b`streams, b`nextStreamId
    ensures ReceiverAt(b, Act(st, OpenAtReceiver, now)) && Grown(b, old(b.Objects()))
    ensures Act(st, OpenAtReceiver, now).w.acks == st.w.acks
  {
    hide Act, Next;
    Accepting(st, now);
    var id := b.OpenStream(true, true);
  }

  lemma Accepting(st: Situation, now: nat)
    requires st.toAccept !in st.w.inboxes
    ensures Act(st, OpenAtReceiver, now) ==
      st.(w := st.w.(inboxes := st.w.inboxes[st.toAccept := EMPTY]), toAccept := st.toAccept + 1)
  {
  }

  method PutOnWire(a: Connection, ghost st: Situation, id: nat, data: seq<byte>, now: nat) returns (p: Option<Packet>)
    requires SenderAt(a, st)
    modifies a`packetNum, a.ackTracker`inFlight, (if id in a.streams then {a.streams[id]} else {})`sendOffset
    ensures SenderAt(a, Act(st, SendData(id, data), now))
    ensures Act(st, SendData(id, data), now).w.net == if p.Some? then st.w.net + {p.value} else st.w.net
  {
    hide Total, Offset, Act, Next, Connection.Valid;
    Launching(st, id, data, now);
    p := a.SendStream(id, data, now);
    if p.Some? {
      NextOffset(st.w.chunks[id], data);
    }
  }

  lemma Launching(st: Situation, id: nat, data: seq<byte>, now: nat)
    ensures var w, st' := st.w, Act(st, SendData(id, data), now);
      if id in w.chunks then
        var p := Packet(w.nextNum, id, Total(w.chunks[id]) % U32, data);
        && st' == st.(w := st'.w, table := st.table[p.num := InFlight(p, now, 0)])
        && st'.w == w.(chunks := w.chunks[id := w.chunks[id] + [data]], nextNum := w.nextNum + 1,
                       inFlight := w.inFlight[p.num := p], net := w.net + {p}, index := st'.w.index)
      else st' == st
  {
    hide Total;
  }

  method TakeOffWire(b: Connection, ghost st: Situation, p: Packet, ghost now: nat) returns (acks: seq<nat>)
    requires ReceiverAt(b, st) && p in st.w.net
    modifies b`packetNum, b.ackTracker`pendingAcks
    modifies (if p.stream in b.streams then {b.streams[p.stream]} else {})`nextExpectedOffset
    modifies (if p.stream in b.streams then {b.streams[p.stream]} else {})`reorderBuf
    modifies (if p.stream in b.streams then {b.streams[p.stream]} else {})`recvBuf
    ensures ReceiverAt(b, Act(st, Deliver(p, true), now))
    ensures Act(st, Deliver(p, true), now).w.acks == st.w.acks + set n | n in acks
  {
    hide Received, Next, Act, Stream.View, Connection.Valid;
    Arrived(st, p, now);
    acks := HandleAt(b, p);
  }

  /** What an arriving packet does to the receiving halves. */
  method HandleAt(b: Connection, p: Packet) returns (acks: seq<nat>)
    requires b.Valid() && b.AllReliable() && b.ackTracker.pendingAcks == []
    modifies b`packetNum, b.ackTracker`pendingAcks
    modifies (if p.stream in b.streams then {b.streams[p.stream]} else {})`nextExpectedOffset
    modifies (if p.stream in b.streams then {b.streams[p.stream]} else {})`reorderBuf
    modifies (if p.stream in b.streams then {b.streams[p.stream]} else {})`recvBuf
    ensures b.Valid() && b.AllReliable() && b.ackTracker.pendingAcks == []
    ensures b.streams == old(b.streams) && acks == if p.stream in b.streams then [p.num] else []
    ensures var m := old(b.Inboxes());
      b.Inboxes() == if p.stream in m then m[p.stream := Received(m[p.stream], p.offset, p.data)] else m
  {
    hide Received, Stream.View;
    acks := b.HandleStream(p, true);
  }

  lemma Arrived(st: Situation, p: Packet, now: nat)
    requires p in st.w.net
    ensures var w, w' := st.w, Act(st, Deliver(p, true), now).w;
      && Act(st, Deliver(p, true), now) == st.(w := w')
      && if p.stream in w.inboxes
         then w'.inboxes == w.inboxes[p.stream := Received(w.inboxes[p.stream], p.offset, p.data)]
              && w'.acks == w.acks + {p.num}
         else w' == w
  {
    hide Received;
  }

  method TakeAck(a: Connection, ghost st: Situation, n: nat, delayUs: nat, now: nat)
    requires SenderAt(a, st) && n in st.w.acks
    modifies a.ackTracker
    ensures SenderAt(a, Act(st, DeliverAck(n, delayUs), now))
  {
    hide Measured;
    a.ackTracker.OnAck(n, delayUs, now);
  }

  method TakeNak(a: Connection, ghost st: Situation, n: nat, now: nat)
    requires SenderAt(a, st)
    modifies a.ackTracker
    ensures SenderAt(a, Act(st, DeliverNak(n), now))
  {
    a.ackTracker.OnNak(n, now);
  }

  method TimeOutAll(a: Connection, ghost st: Situation, now: nat)
    requires SenderAt(a, st)
    modifies a.ackTracker
    ensures SenderAt(a, Act(st, Action.Tick, now))
  {
    hide Act, Next, DueFrom, AfterTick, PacketsOf, Due, Late, Backoff;
    assert a.ackTracker.Packets().Keys == a.ackTracker.inFlight.Keys;
    TimedOut(st, now);
    ghost var due := a.ackTracker.Tick(now);
  }

  lemma TimedOut(st: Situation, now: nat)
    requires st.w.inFlight == map n | n in st.table :: st.table[n].packet
    ensures var due := DueFrom(st.table, st.table.Keys, now, st.times.rto);
      && (forall n :: n in due ==> n in st.table)
      && Act(st, Action.Tick, now) == st.(
           w := st.w.(queue := st.w.queue + PacketsOf(st.table, due)),
           table := AfterTick(st.table, now, set n | n in due), times := st.times.(rto := Backoff(st.times.rto, |due|)))
  {
    hide AfterTick, Backoff, Late;
    DueKnown(st.table, st.table.Keys, now, st.times.rto);
    hide DueFrom;
    var due := DueFrom(st.table, st.table.Keys, now, st.times.rto);
    assert forall i :: 0 <= i < |due| ==> due[i] in due;
    assert PacketsOf(st.table, due) == seq(|due|, i requires 0 <= i < |due| => st.w.inFlight[due[i]]);
  }

  method SendAgain(a: Connection, ghost st: Situation, ghost now: nat) returns (p: Option<Packet>)
    requires SenderAt(a, st)
    modifies a.ackTracker`retransmitQueue
    ensures SenderAt(a, Act(st, Transmit, now))
    ensures Act(st, Transmit, now).w.net == if p.Some? then st.w.net + {p.value} else st.w.net
  {
    p := a.ackTracker.NextRetransmit();
  }

  /** Both ends and the wire are in the situation. */
  ghost predicate In(st: Situation, a: Connection, b: Connection, net: set<Packet>, acks: set<nat>)
    reads a, a.Objects()
    reads b, b.Objects()
  {
    SenderAt(a, st) && ReceiverAt(b, st) && a.Objects() !! b.Objects() && net == st.w.net && acks == st.w.acks
  }

  lemma ReceiverElse(b: Connection, st: Situation, action: Action, now: nat)
    requires ReceiverAt(b, st) && !action.OpenAtReceiver? && !action.Deliver?
    ensures var st' := Act(st, action, now);
      ReceiverAt(b, st') && st'.w.acks == st.w.acks
      && (!action.SendData? && !action.Transmit? ==> st'.w.net == st.w.net)
  {
  }

  lemma SenderElse(a: Connection, st: Situation, action: Action, now: nat)
    requires SenderAt(a, st) && (action.OpenAtReceiver? || action.Deliver?)
    ensures var st' := Act(st, action, now); SenderAt(a, st') && st'.w.net == st.w.net
  {
  }

  /** A sender's step, the receiver standing by. */
  method SenderStep(a: Connection, b: Connection, ghost st: Situation, net: set<Packet>, acks: set<nat>,
                    action: Action, now: nat)
    returns (net': set<Packet>)
    requires In(st, a, b, net, acks) && !action.OpenAtReceiver? && !action.Deliver?
    modifies a.Objects()
    ensures Grown(a, old(a.Objects())) && b.Objects() == old(b.Objects())
    ensures In(Act(st, action, now), a, b, net', acks)
  {
    hide SenderIn, ReceiverIn, Act, Next;
    net' := net;
    match action {
      case OpenAtSender =>
        OpenSend(a, st, now);
      case SendData(id, data) =>
        var p := PutOnWire(a, st, id, data, now);
        if p.Some? {
          net' := net + {p.value};
        }
      case DeliverAck(n, delayUs) =>
        if n in acks {
          TakeAck(a, st, n, delayUs, now);
        } else {
          NotIssued(st, n, delayUs, now);
        }
      case DeliverNak(n) =>
        TakeNak(a, st, n, now);
      case Tick =>
        TimeOutAll(a, st, now);
      case Transmit =>
        var p := SendAgain(a, st, now);
        if p.Some? {
          net' := net + {p.value};
        }
    }
    ReceiverElse(b, st, action, now);
  }

  lemma NotIssued(st: Situation, n: nat, delayUs: nat, now: nat)
    requires n !in st.w.acks
    ensures Act(st, DeliverAck(n, delayUs), now) == st
  {
  }

  /** A receiver's step, the sender standing by. */
  method ReceiverStep(a: Connection, b: Connection, ghost st: Situation, net: set<Packet>, acks: set<nat>,
                      action: Action, ghost now: nat)
    returns (acks': set<nat>)
    requires In(st, a, b, net, acks) && (action.OpenAtReceiver? || action.Deliver?)
    modifies b.Objects()
    ensures Grown(b, old(b.Objects())) && a.Objects() == old(a.Objects())
    ensures In(Act(st, action, now), a, b, net, acks')
  {
    hide SenderIn, ReceiverIn, Act, Next;
    acks' := acks;
    if action.OpenAtReceiver? {
      OpenReceive(b, st, now);
    } else if action.packet in net && action.admitted {
      var more := TakeOffWire(b, st, action.packet, now);
      acks' := acks + set n | n in more;
    } else {
      NotTaken(st, action, now);
    }
    SenderElse(a, st, action, now);
  }

  lemma NotTaken(st: Situation, action: Action, now: nat)
    requires action.Deliver? && !(action.packet in st.w.net && action.admitted)
    ensures Act(st, action, now) == st
  {
  }

  /** Two connections run under any schedule of losses, repetitions, reorderings, timeouts and wrong NAKs, and end
      where the schedule leads. So what was delivered is a prefix of what was sent; all of it, once nothing is in
      flight; and nothing is in flight when every packet was delivered and its acknowledgement after that. */
  method Execute(actions: Schedule) returns (a: Connection, b: Connection)
    ensures SenderAt(a, After(actions)) && ReceiverAt(b, After(actions))
    ensures forall id: nat :: id in b.streams <==> id < Accepted(actions)
    ensures Modest(actions) ==> forall id :: id in b.streams ==>
      var inbox, sent := b.streams[id].View(), Flatten(SentBy(actions, id));
      inbox.next <= |sent| && Flatten(inbox.out) == sent[..inbox.next]
    ensures forall i :: 0 <= i < |Launched(actions)| ==>
      (i in a.ackTracker.inFlight <==> !Confirmed(actions, Launched(actions)[i]))
    ensures Modest(actions) && (a.ackTracker.inFlight == map[] || Complete(actions)) ==>
      && a.ackTracker.inFlight == map[]
      && forall id :: SentBy(actions, id) != [] ==>
           id in b.streams && Flatten(b.streams[id].View().out) == Flatten(SentBy(actions, id))
  {
    a := new Connection();
    b := new Connection();
    var net: set<Packet>, acks: set<nat> := {}, {};
    assert After(actions[..0]) == FIRST;
    assert SenderAt(a, FIRST) && ReceiverAt(b, FIRST) by {
      assert b.Inboxes() == map[] && a.ackTracker.Packets() == map[];
    }
    for i := 0 to |actions|
      invariant In(After(actions[..i]), a, b, net, acks)
      invariant fresh(a.Objects()) && fresh(b.Objects())
    {
      hide In, Act;
      var (action, now) := actions[i];
      ghost var st := After(actions[..i]);
      if action.OpenAtReceiver? || action.Deliver? {
        acks := ReceiverStep(a, b, st, net, acks, action, now);
      } else {
        net := SenderStep(a, b, st, net, acks, action, now);
      }
      AfterMore(actions, i);
    }
    assert actions[..|actions|] == actions;
    Delivered(b, actions);
    Unsettled(a, actions);
    AllDelivered(a, b, actions);
  }

  lemma Delivered(b: Connection, actions: Schedule)
    requires ReceiverAt(b, After(actions))
    ensures forall id: nat :: id in b.streams <==> id < Accepted(actions)
    ensures Modest(actions) ==> forall id :: id in b.streams ==>
      var inbox, sent := b.streams[id].View(), Flatten(SentBy(actions, id));
      inbox.next <= |sent| && Flatten(inbox.out) == sent[..inbox.next]
  {
    hide Modest, Flatten, After;
    Follows(actions);
    assert b.streams.Keys == b.Inboxes().Keys;
    forall id | Modest(actions) && id in b.streams
      ensures var inbox, sent := b.streams[id].View(), Flatten(SentBy(actions, id));
        inbox.next <= |sent| && Flatten(inbox.out) == sent[..inbox.next]
    {
      assert b.Inboxes()[id] == b.streams[id].View();
      DeliveredInOrder(actions, id);
    }
  }

  lemma Unsettled(a: Connection, actions: Schedule)
    requires SenderAt(a, After(actions))
    ensures a.ackTracker.inFlight.Keys == After(actions).w.inFlight.Keys
    ensures forall i :: 0 <= i < |Launched(actions)| ==>
      (i in a.ackTracker.inFlight <==> !Confirmed(actions, Launched(actions)[i]))
  {
    hide After, Confirmed;
    assert a.ackTracker.inFlight.Keys == a.ackTracker.Packets().Keys;
    forall i | 0 <= i < |Launched(actions)|
      ensures i in a.ackTracker.inFlight <==> !Confirmed(actions, Launched(actions)[i])
    {
      InFlightIff(actions, i);
    }
  }

  lemma AllDelivered(a: Connection, b: Connection, actions: Schedule)
    requires SenderAt(a, After(actions)) && ReceiverAt(b, After(actions))
    ensures Modest(actions) && (a.ackTracker.inFlight == map[] || Complete(actions)) ==>
      && a.ackTracker.inFlight == map[]
      && forall id :: SentBy(actions, id) != [] ==>
           id in b.streams && Flatten(b.streams[id].View().out) == Flatten(SentBy(actions, id))
  {
    hide Modest, Flatten, After, Confirmed;
    Unsettled(a, actions);
    if Modest(actions) && (a.ackTracker.inFlight == map[] || Complete(actions)) {
      if Complete(actions) {
        AllArrives(actions);
      }
      NoneInFlight(actions);
      forall id | SentBy(actions, id) != []
        ensures id in b.streams && Flatten(b.streams[id].View().out) == Flatten(SentBy(actions, id))
      {
        assert id in b.Inboxes();
        assert b.Inboxes()[id] == b.streams[id].View();
      }
    }
  }
}
