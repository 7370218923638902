/** Reliable ordered streams over a network that loses, repeats and reorders packets: the Stream, Ack and Nak
    arms of transport.rs as steps of one world with a sender, a receiver and everything on the wire. */
module Reliable {
  import opened Keys
  import opened Streams
  import opened Acks

  /** net holds every packet ever put on the wire and acks every acknowledgement; a step may deliver any of
      them at any time, any number of times or never. The last two fields are history: which chunk of its
      stream a packet carries, and which packets the receiver has processed. */
  datatype World = World(
    chunks: map<nat, seq<seq<byte>>>, nextNum: nat, inFlight: map<nat, Packet>, queue: seq<Packet>,
    net: set<Packet>, acks: set<nat>, inboxes: map<nat, Inbox>,
    index: map<nat, nat>, processed: set<nat>)

  const START := World(map[], 0, map[], [], {}, {}, map[], map[], {})

  datatype Step =
    /** The two ends open a stream, each on its own. */
    | OpenSending(id: nat)
    | OpenReceiving(id: nat)
    /** send_stream with one chunk. */
    | Send(id: nat, data: seq<byte>)
    /** A packet of another kind takes a number. */
    | OtherPacket
    /** A stream packet arrives; the receive window may refuse it. */
    | Arrive(packet: Packet, admitted: bool)
    | AckArrives(num: nat)
    /** A NAK, justified or not. */
    | NakArrives(num: nat)
    /** A tick requeues some packets in flight. */
    | TimeOut(due: seq<nat>)
    /** The head of the retransmit queue goes out. */
    | Retransmit

  predicate Enabled(w: World, s: Step) {
    match s
    case OpenSending(id) => id !in w.chunks
    case OpenReceiving(id) => id !in w.inboxes
    case Send(id, _) => id in w.chunks
    case Arrive(p, _) => p in w.net
    case AckArrives(n) => n in w.acks
    case TimeOut(due) => forall i :: 0 <= i < |due| ==> due[i] in w.inFlight
    case Retransmit => w.queue != []
    case _ => true
  }

  function Next(w: World, s: Step): World
    requires Enabled(w, s)
  {
    match s
    case OpenSending(id) => w.(chunks := w.chunks[id := []])
    case OpenReceiving(id) => w.(inboxes := w.inboxes[id := EMPTY])
    case Send(id, data) =>
      var p := Packet(w.nextNum, id, Total(w.chunks[id]) % U32, data);
      w.(chunks := w.chunks[id := w.chunks[id] + [data]], nextNum := w.nextNum + 1,
         inFlight := w.inFlight[p.num := p], net := w.net + {p}, index := w.index[p.num := |w.chunks[id]|])
    case OtherPacket => w.(nextNum := w.nextNum + 1)
    case Arrive(p, admitted) =>
      if admitted && p.stream in w.inboxes then
        w.(inboxes := w.inboxes[p.stream := Received(w.inboxes[p.stream], p.offset, p.data)],
           acks := w.acks + {p.num}, processed := w.processed + {p.num})
      else w
    case AckArrives(n) => w.(inFlight := w.inFlight - {n})
    case NakArrives(n) => if n in w.inFlight then w.(queue := w.queue + [w.inFlight[n]]) else w
    case TimeOut(due) => w.(queue := w.queue + seq(|due|, i requires 0 <= i < |due| => w.inFlight[due[i]]))
    case Retransmit => w.(queue := w.queue[1..], net := w.net + {w.queue[0]})
  }

  /** The world after a run of steps, if each was possible when its turn came. */
  function Run(steps: seq<Step>): Option<World> {
    if steps == [] then Some(START)
    else
      var n := |steps| - 1;
      match Run(steps[..n])
      case None => None
      case Some(w) => if Enabled(w, steps[n]) then Some(Next(w, steps[n])) else None
  }

  // ---------------------------------------------------------------------------------------------
  // What holds in every reachable world

  function ChunksOf(w: World, id: nat): seq<seq<byte>> {
    if id in w.chunks then w.chunks[id] else []
  }

  /** Streams within the 32-bit offsets, with no empty chunk between bytes. */
  ghost predicate WithinLimits(w: World) {
    forall id :: id in w.chunks ==> Total(w.chunks[id]) < U32 && NoInnerEmpty(w.chunks[id])
  }

  ghost predicate Carries(w: World, p: Packet) {
    && p.num < w.nextNum && p.num in w.index && p.stream in w.chunks
    && PieceAt(w.chunks[p.stream], w.index[p.num], p.offset, p.data)
  }

  /** Every packet carries a chunk of its stream, and its number tells it from the others. */
  ghost predicate Numbered(w: World) {
    && (forall p :: p in w.net ==> Carries(w, p))
    && (forall p, q :: p in w.net && q in w.net && p.num == q.num ==> p == q)
    && (forall n :: n in w.inFlight ==> w.inFlight[n].num == n && w.inFlight[n] in w.net)
    && (forall i :: 0 <= i < |w.queue| ==> w.queue[i] in w.net)
  }

  ghost predicate Kept(w: World, p: Packet)
    requires Carries(w, p)
  {
    p.stream in w.inboxes && Held(w.inboxes[p.stream], w.chunks[p.stream], w.index[p.num])
  }

  /** Each inbox is sound, and what was processed was kept. */
  ghost predicate Receiving(w: World)
    requires Numbered(w)
  {
    && (forall id :: id in w.inboxes ==> Sound(w.inboxes[id], ChunksOf(w, id)))
    && w.acks <= w.processed && (forall n :: n in w.processed ==> n < w.nextNum)
    && (forall p :: p in w.net && p.num in w.processed ==> Kept(w, p))
  }

  /** A packet in the network carries chunk i of the stream. */
  ghost predicate Sent(w: World, id: nat, i: nat) {
    exists p :: p in w.net && p.stream == id && p.num in w.index && w.index[p.num] == i
  }

  /** A packet leaves the in-flight table only when it has been processed, and no chunk was forgotten. */
  ghost predicate NothingLost(w: World) {
    && (forall p :: p in w.net ==> p.num in w.inFlight || p.num in w.processed)
    && (forall id, i: nat :: id in w.chunks && i < |w.chunks[id]| ==> Sent(w, id, i))
  }

  ghost predicate Inv(w: World) {
    WithinLimits(w) && Numbered(w) && Receiving(w) && NothingLost(w)
  }

  lemma SendInv(w: World, id: nat, data: seq<byte>)
    requires Inv(w) && id in w.chunks && WithinLimits(Next(w, Send(id, data)))
    ensures Inv(Next(w, Send(id, data)))
  {
    SendNumbered(w, id, data);
    SendReceiving(w, id, data);
    SendLost(w, id, data);
  }

  lemma SendNumbered(w: World, id: nat, data: seq<byte>)
    requires Inv(w) && id in w.chunks && WithinLimits(Next(w, Send(id, data)))
    ensures Numbered(Next(w, Send(id, data)))
    ensures forall p :: p in w.net ==> p.num != w.nextNum
  {
    hide WithinLimits, Receiving, NothingLost;
    var w' := Next(w, Send(id, data));
    var cs := w.chunks[id];
    LimitOf(w', id);
    OffsetUp(cs + [data], |cs|, |cs + [data]|);
    OffsetPrefix(cs, [data], |cs|);
    forall p | p in w'.net
      ensures Carries(w', p)
    {
      if p in w.net {
        assert Carries(w, p);
        if p.stream == id {
          OffsetPrefix(cs, [data], w.index[p.num]);
        }
      }
    }
    forall p | p in w.net
      ensures p.num != w.nextNum
    {
      assert Carries(w, p);
    }
  }

  lemma LimitOf(w: World, id: nat)
    requires WithinLimits(w) && id in w.chunks
    ensures Total(w.chunks[id]) < U32
  {
  }

  lemma SendReceiving(w: World, id: nat, data: seq<byte>)
    requires Inv(w) && id in w.chunks && Numbered(Next(w, Send(id, data)))
    requires forall p :: p in w.net ==> p.num != w.nextNum
    ensures Receiving(Next(w, Send(id, data)))
  {
    var w' := Next(w, Send(id, data));
    if id in w.inboxes {
      SendSound(w.inboxes[id], w.chunks[id], data);
    }
    forall p | p in w'.net && p.num in w'.processed
      ensures Kept(w', p)
    {
      assert p in w.net && Carries(w, p) && Kept(w, p);
    }
  }

  lemma SendLost(w: World, id: nat, data: seq<byte>)
    requires Inv(w) && id in w.chunks && Numbered(Next(w, Send(id, data)))
    ensures NothingLost(Next(w, Send(id, data)))
  {
    var w' := Next(w, Send(id, data));
    forall s, i: nat | s in w'.chunks && i < |w'.chunks[s]|
      ensures Sent(w', s, i)
    {
      if s == id && i == |w.chunks[id]| {
        assert w'.inFlight[w.nextNum] in w'.net;
      } else {
        assert Sent(w, s, i);
        var p :| p in w.net && p.stream == s && p.num in w.index && w.index[p.num] == i;
        assert Carries(w, p);
        assert p in w'.net;
      }
    }
  }

  lemma ArriveInv(w: World, p: Packet)
    requires Inv(w) && p in w.net && p.stream in w.inboxes
    ensures Inv(Next(w, Arrive(p, true)))
  {
    var w' := Next(w, Arrive(p, true));
    assert Carries(w, p);
    ReceiveSound(w.inboxes[p.stream], w.chunks[p.stream], w.index[p.num]);
    forall q | q in w'.net
      ensures Carries(w', q) && (q.num in w'.processed ==> Kept(w', q))
    {
      assert Carries(w, q);
      if q.num in w.processed {
        assert Kept(w, q);
      }
    }
    forall s, i: nat | s in w'.chunks && i < |w'.chunks[s]|
      ensures Sent(w', s, i)
    {
      assert Sent(w, s, i);
    }
  }

  /** w' has the same packets as w on the wire and the same bytes in every stream and inbox. */
  ghost predicate SameStreams(w: World, w': World) {
    && w'.net == w.net && w'.index == w.index && w'.processed == w.processed && w'.acks == w.acks
    && w'.nextNum >= w.nextNum
    && (forall id :: id in w.chunks ==> id in w'.chunks && w'.chunks[id] == w.chunks[id])
    && (forall id :: id in w'.chunks && id !in w.chunks ==> w'.chunks[id] == [])
    && (forall id :: id in w.inboxes ==> id in w'.inboxes && w'.inboxes[id] == w.inboxes[id])
    && (forall id :: id in w'.inboxes && id !in w.inboxes ==> w'.inboxes[id] == EMPTY)
    && (forall n :: n in w'.inFlight ==> n in w.inFlight && w'.inFlight[n] == w.inFlight[n])
    && (forall n :: n in w.inFlight ==> n in w'.inFlight || n in w.processed)
    && (forall i :: 0 <= i < |w'.queue| ==> w'.queue[i] in w.net)
  }

  lemma SameNumbered(w: World, w': World)
    requires Inv(w) && SameStreams(w, w')
    ensures Numbered(w')
  {
    hide PieceAt, Sound, Held, WithinLimits;
    forall p | p in w'.net
      ensures Carries(w', p)
    {
      assert Carries(w, p);
    }
  }

  lemma SameReceiving(w: World, w': World)
    requires Inv(w) && SameStreams(w, w') && Numbered(w')
    ensures Receiving(w')
  {
    hide PieceAt, Sound, Held, WithinLimits;
    forall id | id in w'.inboxes
      ensures Sound(w'.inboxes[id], ChunksOf(w', id))
    {
      assert ChunksOf(w', id) == ChunksOf(w, id);
      if id !in w.inboxes {
        EmptySound(ChunksOf(w', id));
      }
    }
    forall p | p in w'.net && p.num in w'.processed
      ensures Kept(w', p)
    {
      assert Carries(w, p) && Kept(w, p);
    }
  }

  lemma SameLost(w: World, w': World)
    requires Inv(w) && SameStreams(w, w')
    ensures NothingLost(w')
  {
    forall id, i: nat | id in w'.chunks && i < |w'.chunks[id]|
      ensures Sent(w', id, i)
    {
      assert Sent(w, id, i);
    }
  }

  lemma AckedProcessed(w: World, n: nat)
    requires Inv(w) && n in w.acks
    ensures n in w.processed
  {
  }

  /** The remaining steps move packets between the tables or open streams. */
  lemma OtherSame(w: World, s: Step)
    requires Inv(w) && Enabled(w, s) && !s.Send? && !s.Arrive?
    ensures SameStreams(w, Next(w, s))
  {
    hide Carries, Sound, Held, WithinLimits, NothingLost, Kept, Total, Received, Receiving, NoInnerEmpty;
    if s.AckArrives? {
      AckedProcessed(w, s.num);
    }
    if s.Retransmit? {
      assert w.net + {w.queue[0]} == w.net;
    }
  }

  lemma OtherInv(w: World, s: Step)
    requires Inv(w) && Enabled(w, s) && !s.Send? && !s.Arrive? && WithinLimits(Next(w, s))
    ensures Inv(Next(w, s))
  {
    hide SameStreams, Numbered, Receiving, NothingLost, WithinLimits;
    var w' := Next(w, s);
    OtherSame(w, s);
    SameNumbered(w, w');
    SameReceiving(w, w');
    SameLost(w, w');
  }

  lemma StepInv(w: World, s: Step)
    requires Inv(w) && Enabled(w, s) && WithinLimits(Next(w, s))
    ensures Inv(Next(w, s))
  {
    hide Inv, Next, WithinLimits;
    match s {
      case Send(id, data) => SendInv(w, id, data);
      case Arrive(p, admitted) =>
        if admitted && p.stream in w.inboxes {
          ArriveInv(w, p);
        } else {
          Refused(w, s);
        }
      case _ => OtherInv(w, s);
    }
  }

  lemma Refused(w: World, s: Step)
    requires s.Arrive? && Enabled(w, s) && !(s.admitted && s.packet.stream in w.inboxes)
    ensures Next(w, s) == w
  {
  }

  /** Streams only grow, so a run that ends within the limits was within them all along. */
  lemma LimitsBefore(w: World, s: Step)
    requires Enabled(w, s) && WithinLimits(Next(w, s))
    ensures WithinLimits(w)
  {
    var w' := Next(w, s);
    forall id | id in w.chunks
      ensures Total(w.chunks[id]) < U32 && NoInnerEmpty(w.chunks[id])
    {
      var cs := w.chunks[id];
      if w'.chunks[id] != cs {
        assert s.Send? && w'.chunks[id] == cs + [s.data];
        LimitsPrefix(cs, s.data);
      }
    }
  }

  lemma LimitsPrefix(cs: seq<seq<byte>>, c: seq<byte>)
    requires Total(cs + [c]) < U32 && NoInnerEmpty(cs + [c])
    ensures Total(cs) < U32 && NoInnerEmpty(cs)
  {
    OffsetPrefix(cs, [c], |cs|);
    OffsetStep(cs + [c], |cs|);
    forall i: nat
      ensures !InnerEmpty(cs, i)
    {
      if InnerEmpty(cs, i) {
        OffsetPrefix(cs, [c], i);
        assert InnerEmpty(cs + [c], i);
      }
    }
  }

  /** The invariant of every run. */
  lemma {:induction false} RunInv(steps: seq<Step>)
    requires Run(steps).Some? && WithinLimits(Run(steps).value)
    ensures Inv(Run(steps).value)
  {
    if steps != [] {
      hide Inv, Next, WithinLimits, Enabled;
      var n := |steps| - 1;
      var w := Run(steps[..n]).value;
      LimitsBefore(w, steps[n]);
      RunInv(steps[..n]);
      StepInv(w, steps[n]);
    } else {
      StartInv();
    }
  }

  lemma StartInv()
    ensures Inv(START)
  {
  }

  /** In every run, what a stream has delivered is a prefix of what was sent on it: exactly the bytes before
      the next expected offset. */
  lemma DeliveredIsPrefix(steps: seq<Step>, id: nat)
    requires Run(steps).Some? && WithinLimits(Run(steps).value) && id in Run(steps).value.inboxes
    ensures var w := Run(steps).value;
      var b := w.inboxes[id];
      var sent := Flatten(ChunksOf(w, id));
      b.next <= |sent| && Flatten(b.out) == sent[..b.next]
  {
    RunInv(steps);
  }

  /** In every run, a packet that is no longer in flight was processed by the receiver. */
  lemma AcknowledgedWasProcessed(steps: seq<Step>, p: Packet)
    requires Run(steps).Some? && WithinLimits(Run(steps).value) && p in Run(steps).value.net
    ensures var w := Run(steps).value; p.num !in w.inFlight ==> p.num in w.processed
  {
    RunInv(steps);
  }

  /** In every run, when nothing is in flight, everything sent has been delivered. */
  lemma IdleMeansDelivered(steps: seq<Step>, id: nat)
    requires Run(steps).Some? && WithinLimits(Run(steps).value)
    requires Run(steps).value.inFlight == map[] && id in Run(steps).value.chunks && Run(steps).value.chunks[id] != []
    ensures var w := Run(steps).value;
      id in w.inboxes && Flatten(w.inboxes[id].out) == Flatten(w.chunks[id])
  {
    RunInv(steps);
    var w := Run(steps).value;
    hide Inv, Sound, Total, Flatten;
    forall i: nat | i < |w.chunks[id]|
      ensures id in w.inboxes && Held(w.inboxes[id], w.chunks[id], i)
    {
      SentIsKept(w, id, i);
    }
    SentIsKept(w, id, 0);
    InboxSound(w, id);
    AllHeldDelivered(w.inboxes[id], w.chunks[id]);
  }

  lemma InboxSound(w: World, id: nat)
    requires Inv(w) && id in w.inboxes && id in w.chunks
    ensures Sound(w.inboxes[id], w.chunks[id])
  {
    assert ChunksOf(w, id) == w.chunks[id];
  }

  lemma SentIsKept(w: World, id: nat, i: nat)
    requires Inv(w) && w.inFlight == map[] && id in w.chunks && i < |w.chunks[id]|
    ensures id in w.inboxes && Held(w.inboxes[id], w.chunks[id], i)
  {
    assert Sent(w, id, i);
    var p :| p in w.net && p.stream == id && p.num in w.index && w.index[p.num] == i;
    assert Carries(w, p) && Kept(w, p);
  }

  /** m is a tracker's table for the packets in flight. */
  ghost predicate Tracks(m: map<nat, InFlight>, w: World) {
    m.Keys == w.inFlight.Keys && forall n :: n in m ==> m[n].packet == w.inFlight[n]
  }

  /** Nothing is given up: in every run, a tick of the tracker is a step of the world, and it puts every packet
      that has waited longer than the longest timeout back into the queue, from where the next steps send it. */
  lemma CanResend(steps: seq<Step>, m: map<nat, InFlight>, now: nat, rto: nat, due: seq<nat>, n: nat)
    requires Run(steps).Some? && WithinLimits(Run(steps).value) && Tracks(m, Run(steps).value)
    requires rto <= MAX_RTO && Due(m, now, rto, due, m.Keys)
    requires n in m && Late(m[n], now, MAX_RTO)
    ensures var w := Run(steps).value;
      && Enabled(w, TimeOut(due)) && w.inFlight[n] in w.net
      && w.inFlight[n] in Next(w, TimeOut(due)).queue
  {
    RunInv(steps);
    var w := Run(steps).value;
    QueuedByTick(w, m, now, rto, due, n);
  }

  lemma QueuedByTick(w: World, m: map<nat, InFlight>, now: nat, rto: nat, due: seq<nat>, n: nat)
    requires Tracks(m, w) && rto <= MAX_RTO && Due(m, now, rto, due, m.Keys)
    requires n in m && Late(m[n], now, MAX_RTO)
    ensures Enabled(w, TimeOut(due)) && w.inFlight[n] in Next(w, TimeOut(due)).queue
  {
    hide Due, Late;
    TickResends(m, now, rto, due);
    assert forall i :: 0 <= i < |due| ==> due[i] in due;
    var i :| 0 <= i < |due| && due[i] == n;
    var q := Next(w, TimeOut(due)).queue;
    assert q[|w.queue| + i] == w.inFlight[n];
  }

  /** The queue is sent from the front: the packet in place i goes out with the i-th of the next sends. */
  lemma {:induction false} QueueDrains(w: World, i: nat) returns (w': World)
    requires i < |w.queue|
    ensures w' == Sends(w, i + 1) && w.queue[i] in w'.net && w'.queue == w.queue[i + 1..]
    decreases i
  {
    if i == 0 {
      w' := Next(w, Retransmit);
      assert Sends(w, 1) == Sends(Next(w, Retransmit), 0);
    } else {
      w' := QueueDrains(Next(w, Retransmit), i - 1);
    }
  }

  function Sends(w: World, n: nat): World
    requires n <= |w.queue|
    decreases n
  {
    if n == 0 then w else Sends(Next(w, Retransmit), n - 1)
  }
}
