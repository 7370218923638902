/** Schedules of a sender, a receiver and the wire between them: what the environment does, one action after the
    other, and the one world it leads to. */
module Schedules {
  import opened Keys
  import opened Streams
  import opened Acks
  import opened Reliable

  /** What the environment does next. Packets and acknowledgements are named by value; those that never
      were on the wire do not arrive. */
  datatype Action =
    | OpenAtSender
    | OpenAtReceiver
    | SendData(id: nat, data: seq<byte>)
    | Deliver(packet: Packet, admitted: bool)
    | DeliverAck(num: nat, delayUs: nat)
    | DeliverNak(num: nat)
    | Tick
    | Transmit

  /** Actions, each with its time. */
  type Schedule = seq<(Action, nat)>

  /** The world with what else decides the next step: the stream ids to come, and the sender's tracker. */
  datatype Situation = Situation(w: World, toOpen: nat, toAccept: nat, table: map<nat, InFlight>, times: Times)

  const FIRST := Situation(START, 0, 0, map[], FIRST_TIMES)

  /** The step an action is, if it is one. */
  ghost function StepOf(st: Situation, action: Action, now: nat): Option<Step> {
    match action
    case OpenAtSender => Some(OpenSending(st.toOpen))
    case OpenAtReceiver => Some(OpenReceiving(st.toAccept))
    case SendData(id, data) => if id in st.w.chunks then Some(Send(id, data)) else None
    case Deliver(p, admitted) => if p in st.w.net && admitted then Some(Arrive(p, true)) else None
    case DeliverAck(n, _) => if n in st.w.acks then Some(AckArrives(n)) else None
    case DeliverNak(n) => Some(NakArrives(n))
    case Tick => Some(TimeOut(DueFrom(st.table, st.table.Keys, now, st.times.rto)))
    case Transmit => if st.w.queue != [] then Some(Retransmit) else None
  }

  ghost function Moved(w: World, s: Option<Step>): World {
    if s.Some? && Enabled(w, s.value) then Next(w, s.value) else w
  }

  /** The situation after an action. */
  ghost function Act(st: Situation, action: Action, now: nat): Situation {
    var w := Moved(st.w, StepOf(st, action, now));
    match action
    case OpenAtSender => st.(w := w, toOpen := st.toOpen + 1)
    case OpenAtReceiver => st.(w := w, toAccept := st.toAccept + 1)
    case SendData(id, data) =>
      if id in st.w.chunks then
        st.(w := w, table := st.table[st.w.nextNum := InFlight(w.inFlight[st.w.nextNum], now, 0)])
      else st
    case DeliverAck(n, delayUs) =>
      if n in st.w.acks && n in st.table then
        st.(w := w, table := st.table - {n}, times := Measured(st.times, st.table[n], delayUs, now))
      else st.(w := w)
    case DeliverNak(n) =>
      st.(w := w, table := if n in st.table then st.table[n := Resent(st.table[n], now)] else st.table)
    case Tick =>
      var due := DueFrom(st.table, st.table.Keys, now, st.times.rto);
      st.(w := w, table := AfterTick(st.table, now, set n | n in due),
          times := st.times.(rto := Backoff(st.times.rto, |due|)))
    case _ => st.(w := w)
  }

  /** The situation after a schedule. */
  ghost function After(actions: Schedule): Situation {
    if actions == [] then FIRST
    else
      var n := |actions| - 1;
      Act(After(actions[..n]), actions[n].0, actions[n].1)
  }

  lemma AfterMore(actions: Schedule, i: nat)
    requires i < |actions|
    ensures After(actions[..i + 1]) == Act(After(actions[..i]), actions[i].0, actions[i].1)
  {
    assert actions[..i + 1][..i] == actions[..i];
  }

  /** The world after a schedule is that of a run, so what holds in all runs holds of it. */
  lemma {:induction false} IsRun(actions: Schedule) returns (steps: seq<Step>)
    ensures Run(steps) == Some(After(actions).w)
  {
    hide Enabled, Next, Act, StepOf;
    if actions == [] {
      return [];
    }
    var n := |actions| - 1;
    steps := IsRun(actions[..n]);
    var st, action, now := After(actions[..n]), actions[n].0, actions[n].1;
    ActMoves(st, action, now);
    var s := StepOf(st, action, now);
    if s.Some? && Enabled(st.w, s.value) {
      assert (steps + [s.value])[..|steps|] == steps;
      steps := steps + [s.value];
    }
  }

  lemma ActMoves(st: Situation, action: Action, now: nat)
    ensures Act(st, action, now).w == Moved(st.w, StepOf(st, action, now))
  {
  }

  /** How packets get into the queue and out of it: a NAK puts its packet there, a tick all that have waited longer
      than the longest timeout, both starting their timers afresh, and a transmission sends the first. */
  lemma Requeues(st: Situation, action: Action, now: nat)
    requires st.w.inFlight == (map n | n in st.table :: st.table[n].packet) && st.times.rto <= MAX_RTO
    ensures var w, st' := st.w, Act(st, action, now);
      && (action.Transmit? && w.queue != [] ==>
            st'.w.queue == w.queue[1..] && st'.w.net == w.net + {w.queue[0]})
      && (action.DeliverNak? && action.num in w.inFlight ==>
            && st'.w.queue == w.queue + [w.inFlight[action.num]]
            && action.num in st'.table && st'.table[action.num].sentAt == now)
      && (action.Tick? ==> forall n :: n in st.table && Late(st.table[n], now, MAX_RTO) ==>
            w.inFlight[n] in st'.w.queue && n in st'.table && st'.table[n].sentAt == now)
  {
    hide Late, Total, Received, Measured, Backoff;
    if action.Tick? {
      TickRequeues(st, now);
    }
  }

  lemma TickRequeues(st: Situation, now: nat)
    requires st.w.inFlight == (map n | n in st.table :: st.table[n].packet) && st.times.rto <= MAX_RTO
    ensures forall n :: n in st.table && Late(st.table[n], now, MAX_RTO) ==>
      && st.w.inFlight[n] in Act(st, Tick, now).w.queue
      && n in Act(st, Tick, now).table && Act(st, Tick, now).table[n].sentAt == now
  {
    hide Late, Backoff;
    var m, rto := st.table, st.times.rto;
    DueKnown(m, m.Keys, now, rto);
    var due := DueFrom(m, m.Keys, now, rto);
    forall n | n in m && Late(m[n], now, MAX_RTO)
      ensures n in due
    {
      LateDue(m, m.Keys, now, rto, n);
    }
    hide DueFrom;
    assert forall i :: 0 <= i < |due| ==> due[i] in due;
    forall n | n in due
      ensures st.w.inFlight[n] in Act(st, Tick, now).w.queue
    {
      var i :| 0 <= i < |due| && due[i] == n;
      assert Act(st, Tick, now).w.queue[|st.w.queue| + i] == st.w.inFlight[n];
    }
  }

  // ---------------------------------------------------------------------------------------------
  // What a schedule asks for, told from its actions alone

  /** How many streams the sender has opened. */
  function Opened(actions: Schedule): nat {
    if actions == [] then 0
    else
      var n := |actions| - 1;
      Opened(actions[..n]) + if actions[n].0.OpenAtSender? then 1 else 0
  }

  /** How many streams the receiver has opened. */
  function Accepted(actions: Schedule): nat {
    if actions == [] then 0
    else
      var n := |actions| - 1;
      Accepted(actions[..n]) + if actions[n].0.OpenAtReceiver? then 1 else 0
  }

  /** The data sent on a stream, in order, from the time it was open. */
  function SentBy(actions: Schedule, id: nat): seq<seq<byte>> {
    if actions == [] then []
    else
      var n := |actions| - 1;
      var action := actions[n].0;
      SentBy(actions[..n], id)
        + if action.SendData? && action.id == id && id < Opened(actions[..n]) then [action.data] else []
  }

  /** The packets sent, each under its place as number and with the bytes sent before it on its stream as offset. */
  function Launched(actions: Schedule): seq<Packet> {
    if actions == [] then []
    else
      var n := |actions| - 1;
      var action := actions[n].0;
      var before := Launched(actions[..n]);
      if action.SendData? && action.id < Opened(actions[..n]) then
        before + [Packet(|before|, action.id, Total(SentBy(actions[..n], action.id)) % U32, action.data)]
      else before
  }

  /** The bytes of each stream within the 32-bit offsets, with no empty chunk between bytes. */
  ghost predicate Modest(actions: Schedule) {
    forall id: nat :: id < Opened(actions) ==>
      Total(SentBy(actions, id)) < U32 && NoInnerEmpty(SentBy(actions, id))
  }

  /** Action j delivers p, which is on its way, to a stream that is open. */
  ghost predicate Taken(actions: Schedule, j: nat, p: Packet) {
    && j < |actions| && actions[j].0 == Deliver(p, true)
    && p in Launched(actions[..j]) && p.stream < Accepted(actions[..j])
  }

  ghost predicate Acknowledged(actions: Schedule, k: nat, num: nat) {
    k < |actions| && actions[k].0.DeliverAck? && actions[k].0.num == num
  }

  /** p is delivered, and then an acknowledgement of it. */
  ghost predicate Confirmed(actions: Schedule, p: Packet) {
    exists j: nat, k: nat :: j < k && Taken(actions, j, p) && Acknowledged(actions, k, p.num)
  }

  /** Every packet sent is delivered at least once, and its acknowledgement after that. */
  ghost predicate Complete(actions: Schedule) {
    forall i :: 0 <= i < |Launched(actions)| ==> Confirmed(actions, Launched(actions)[i])
  }

  // ---------------------------------------------------------------------------------------------
  // The world holds what the schedule asked for

  /** The streams open at the two ends, and the chunks of each. */
  ghost predicate StreamsFollow(actions: Schedule) {
    var st := After(actions);
    && st.toOpen == Opened(actions) && st.toAccept == Accepted(actions)
    && (forall id: nat :: id in st.w.chunks <==> id < Opened(actions))
    && (forall id: nat :: id in st.w.inboxes <==> id < Accepted(actions))
    && (forall id: nat :: id in st.w.chunks ==> st.w.chunks[id] == SentBy(actions, id))
    && (forall id: nat :: id >= Opened(actions) ==> SentBy(actions, id) == [])
  }

  /** The packets on the wire, in flight and in the queue. */
  ghost predicate PacketsFollow(actions: Schedule) {
    var w, launched := After(actions).w, Launched(actions);
    && w.nextNum == |launched| && (forall p :: p in w.net <==> p in launched)
    && (forall i :: 0 <= i < |launched| ==> launched[i].num == i)
    && (forall n :: n in w.inFlight ==> n < |launched| && w.inFlight[n] == launched[n])
    && (forall i :: 0 <= i < |w.queue| ==> w.queue[i] in w.net)
  }

  lemma {:induction false} Follows(actions: Schedule)
    ensures StreamsFollow(actions) && PacketsFollow(actions)
  {
    if actions != [] {
      Follows(actions[..|actions| - 1]);
      StreamsStep(actions);
      PacketsStep(actions);
    }
  }

  lemma ActStreams(st: Situation, action: Action, now: nat)
    requires st.toOpen !in st.w.chunks && st.toAccept !in st.w.inboxes
    ensures var st', w := Act(st, action, now), st.w;
      && st'.toOpen == st.toOpen + (if action.OpenAtSender? then 1 else 0)
      && st'.toAccept == st.toAccept + (if action.OpenAtReceiver? then 1 else 0)
      && st'.w.inboxes.Keys == w.inboxes.Keys + (if action.OpenAtReceiver? then {st.toAccept} else {})
      && st'.w.chunks ==
           if action.OpenAtSender? then w.chunks[st.toOpen := []]
           else if action.SendData? && action.id in w.chunks then
             w.chunks[action.id := w.chunks[action.id] + [action.data]]
           else w.chunks
  {
    hide Total, DueFrom, Received, Measured, AfterTick, Backoff;
  }

  lemma StreamsStep(actions: Schedule)
    requires actions != [] && StreamsFollow(actions[..|actions| - 1])
    ensures StreamsFollow(actions)
  {
    hide Act, Total;
    var n := |actions| - 1;
    forall id: nat
      ensures SentBy(actions, id) == if actions[n].0.SendData? && actions[n].0.id == id && id < Opened(actions[..n])
        then SentBy(actions[..n], id) + [actions[n].0.data] else SentBy(actions[..n], id)
    {
    }
    ActStreams(After(actions[..n]), actions[n].0, actions[n].1);
  }

  /** What an action puts on the wire, under its number. */
  lemma ActPackets(st: Situation, action: Action, now: nat)
    ensures var w, w' := st.w, Act(st, action, now).w;
      if action.SendData? && action.id in w.chunks then
        var p := Packet(w.nextNum, action.id, Total(w.chunks[action.id]) % U32, action.data);
        && w'.nextNum == w.nextNum + 1 && w'.net == w.net + {p} && w'.queue == w.queue
        && w'.inFlight == w.inFlight[p.num := p]
      else
        && w'.nextNum == w.nextNum
        && (w'.net == w.net || (w.queue != [] && w'.net == w.net + {w.queue[0]}))
        && w'.inFlight.Keys <= w.inFlight.Keys && (forall n :: n in w'.inFlight ==> w'.inFlight[n] == w.inFlight[n])
        && (forall i :: 0 <= i < |w'.queue| ==> w'.queue[i] in w.queue || w'.queue[i] in w.inFlight.Values)
  {
    hide Total, DueFrom, Received, Measured, AfterTick, Backoff;
  }

  lemma PacketsStep(actions: Schedule)
    requires actions != []
    requires StreamsFollow(actions[..|actions| - 1]) && PacketsFollow(actions[..|actions| - 1])
    ensures PacketsFollow(actions)
  {
    hide Act, Total;
    var n := |actions| - 1;
    ActPackets(After(actions[..n]), actions[n].0, actions[n].1);
  }

  // ---------------------------------------------------------------------------------------------
  // What a schedule confirms

  lemma {:induction false} LaunchedPrefix(actions: Schedule, j: nat)
    requires j <= |actions|
    ensures Launched(actions[..j]) <= Launched(actions)
  {
    if j < |actions| {
      var n := |actions| - 1;
      assert actions[..n][..j] == actions[..j];
      LaunchedPrefix(actions[..n], j);
    } else {
      assert actions[..j] == actions;
    }
  }

  /** A packet sent is the one under its number. */
  lemma LaunchedAt(actions: Schedule, j: nat, p: Packet)
    requires j <= |actions| && p in Launched(actions[..j])
    ensures p.num < |Launched(actions[..j])| <= |Launched(actions)| && p == Launched(actions)[p.num]
  {
    Follows(actions[..j]);
    LaunchedPrefix(actions, j);
  }

  lemma TakenBefore(actions: Schedule, j: nat, p: Packet)
    requires actions != [] && j < |actions| - 1
    ensures Taken(actions[..|actions| - 1], j, p) <==> Taken(actions, j, p)
  {
    assert actions[..|actions| - 1][..j] == actions[..j];
  }

  /** What an action acknowledges, and what it takes out of flight. */
  lemma ActAcks(st: Situation, action: Action, now: nat)
    ensures var w, w' := st.w, Act(st, action, now).w;
      && w'.acks == (if action.Deliver? && action.admitted && action.packet in w.net
                        && action.packet.stream in w.inboxes then w.acks + {action.packet.num} else w.acks)
      && (forall n :: n != w.nextNum ==> (n in w'.inFlight <==>
            n in w.inFlight && !(action.DeliverAck? && action.num == n && n in w.acks)))
  {
    hide Total, DueFrom, Received, Measured, AfterTick, Backoff;
  }

  ghost predicate TakenBy(actions: Schedule, num: nat) {
    exists j: nat, p :: Taken(actions, j, p) && p.num == num
  }

  /** A packet was acknowledged if and only if it was taken. */
  lemma {:induction false} AcksAre(actions: Schedule, num: nat)
    ensures num in After(actions).w.acks <==> TakenBy(actions, num)
  {
    if actions == [] {
      return;
    }
    hide Act, Taken, StreamsFollow, PacketsFollow, TakenBy;
    var n := |actions| - 1;
    AcksAre(actions[..n], num);
    ActAcks(After(actions[..n]), actions[n].0, actions[n].1);
    TakenNow(actions);
    TakenSplit(actions, num);
  }

  lemma TakenSplit(actions: Schedule, num: nat)
    requires actions != []
    ensures var n := |actions| - 1;
      TakenBy(actions, num) <==> TakenBy(actions[..n], num) || exists p :: Taken(actions, n, p) && p.num == num
  {
    hide Taken;
    var n := |actions| - 1;
    if TakenBy(actions, num) {
      var j: nat, p :| Taken(actions, j, p) && p.num == num;
      TakenIndex(actions, j, p);
      if j < n {
        TakenBefore(actions, j, p);
      }
    }
    if TakenBy(actions[..n], num) {
      var j: nat, p :| Taken(actions[..n], j, p) && p.num == num;
      TakenIndex(actions[..n], j, p);
      TakenBefore(actions, j, p);
    }
  }

  lemma TakenIndex(actions: Schedule, j: nat, p: Packet)
    requires Taken(actions, j, p)
    ensures j < |actions| && actions[j].0 == Deliver(p, true)
  {
  }

  lemma TakenNow(actions: Schedule)
    requires actions != []
    ensures var n := |actions| - 1; var w, action := After(actions[..n]).w, actions[n].0;
      && (forall p :: Taken(actions, n, p) <==>
            action == Deliver(p, true) && p in w.net && p.stream in w.inboxes)
  {
    Follows(actions[..|actions| - 1]);
  }

  /** A packet stays in flight until it is confirmed, and no longer. */
  lemma {:induction false} InFlightIff(actions: Schedule, i: nat)
    requires i < |Launched(actions)|
    ensures i in After(actions).w.inFlight <==> !Confirmed(actions, Launched(actions)[i])
  {
    hide Act, Taken, StreamsFollow;
    var n := |actions| - 1;
    var before, p := actions[..n], Launched(actions)[i];
    Follows(before);
    ActAcks(After(before), actions[n].0, actions[n].1);
    ActPackets(After(before), actions[n].0, actions[n].1);
    if i < |Launched(before)| {
      InFlightIff(before, i);
      AcksAre(before, i);
      ConfirmedStep(actions, p);
    } else if Confirmed(actions, p) {
      var j: nat, k: nat :| j < k && Taken(actions, j, p) && Acknowledged(actions, k, p.num);
      TakenEarlier(actions, j, p);
      Follows(actions);
      assert false;
    }
  }

  lemma TakenEarlier(actions: Schedule, j: nat, p: Packet)
    requires actions != [] && Taken(actions, j, p)
    ensures p.num < |Launched(actions[..|actions| - 1])|
  {
    var before := actions[..|actions| - 1];
    assert before[..j] == actions[..j];
    LaunchedAt(before, j, p);
  }

  /** With one more action, a packet is confirmed as before, or now that it has been taken. */
  lemma ConfirmedStep(actions: Schedule, p: Packet)
    requires actions != [] && p in Launched(actions)
    ensures var n := |actions| - 1;
      Confirmed(actions, p) <==>
        Confirmed(actions[..n], p) || (TakenBy(actions[..n], p.num) && Acknowledged(actions, n, p.num))
  {
    hide Taken, Acknowledged, Launched;
    if Confirmed(actions, p) {
      ConfirmedWas(actions, p);
    }
    if Confirmed(actions[..|actions| - 1], p) {
      ConfirmedStill(actions, p);
    }
    if TakenBy(actions[..|actions| - 1], p.num) && Acknowledged(actions, |actions| - 1, p.num) {
      ConfirmedNow(actions, p);
    }
  }

  lemma ConfirmedWas(actions: Schedule, p: Packet)
    requires actions != [] && Confirmed(actions, p)
    ensures var n := |actions| - 1;
      Confirmed(actions[..n], p) || (TakenBy(actions[..n], p.num) && Acknowledged(actions, n, p.num))
  {
    var n := |actions| - 1;
    var j: nat, k: nat :| j < k && Taken(actions, j, p) && Acknowledged(actions, k, p.num);
    TakenBefore(actions, j, p);
    assert k < n ==> Acknowledged(actions[..n], k, p.num);
  }

  lemma ConfirmedStill(actions: Schedule, p: Packet)
    requires actions != [] && Confirmed(actions[..|actions| - 1], p)
    ensures Confirmed(actions, p)
  {
    var before := actions[..|actions| - 1];
    var j: nat, k: nat :| j < k && Taken(before, j, p) && Acknowledged(before, k, p.num);
    TakenBefore(actions, j, p);
    assert Acknowledged(actions, k, p.num);
  }

  lemma ConfirmedNow(actions: Schedule, p: Packet)
    requires actions != [] && p in Launched(actions)
    requires TakenBy(actions[..|actions| - 1], p.num) && Acknowledged(actions, |actions| - 1, p.num)
    ensures Confirmed(actions, p)
  {
    var before := actions[..|actions| - 1];
    var j: nat, q :| Taken(before, j, q) && q.num == p.num;
    TakenBefore(actions, j, q);
    SameNumber(actions, j, p, q);
  }

  lemma SameNumber(actions: Schedule, j: nat, p: Packet, q: Packet)
    requires Taken(actions, j, q) && p in Launched(actions) && p.num == q.num
    ensures p == q
  {
    LaunchedAt(actions, j, q);
    assert actions[..|actions|] == actions;
    LaunchedAt(actions, |actions|, p);
  }

  lemma WithinIff(actions: Schedule)
    ensures WithinLimits(After(actions).w) <==> Modest(actions)
  {
    Follows(actions);
  }

  /** What was delivered on any stream is a prefix of the data of its SendData actions. */
  lemma DeliveredInOrder(actions: Schedule, id: nat)
    requires Modest(actions) && id < Accepted(actions)
    ensures var inboxes, sent := After(actions).w.inboxes, Flatten(SentBy(actions, id));
      id in inboxes && inboxes[id].next <= |sent| && Flatten(inboxes[id].out) == sent[..inboxes[id].next]
  {
    hide Flatten, WithinLimits, Modest;
    Follows(actions);
    WithinIff(actions);
    var steps := IsRun(actions);
    DeliveredIsPrefix(steps, id);
  }

  /** When nothing is in flight, every stream has delivered all that was sent on it. */
  lemma NoneInFlight(actions: Schedule)
    requires Modest(actions) && After(actions).w.inFlight == map[]
    ensures forall id :: SentBy(actions, id) != [] ==>
      && id in After(actions).w.inboxes
      && Flatten(After(actions).w.inboxes[id].out) == Flatten(SentBy(actions, id))
  {
    hide Flatten, WithinLimits, Modest;
    Follows(actions);
    WithinIff(actions);
    var w := After(actions).w;
    var steps := IsRun(actions);
    forall id | SentBy(actions, id) != []
      ensures id in w.inboxes && Flatten(w.inboxes[id].out) == Flatten(SentBy(actions, id))
    {
      IdleMeansDelivered(steps, id);
    }
  }

  /** When every packet is delivered at least once and acknowledged after that, whatever else is lost, repeated,
      reordered or sent again, nothing stays in flight and every stream delivers all that was sent on it. */
  lemma AllArrives(actions: Schedule)
    requires Modest(actions) && Complete(actions)
    ensures After(actions).w.inFlight == map[]
    ensures forall id :: SentBy(actions, id) != [] ==>
      && id in After(actions).w.inboxes
      && Flatten(After(actions).w.inboxes[id].out) == Flatten(SentBy(actions, id))
  {
    hide Flatten, Confirmed, Modest;
    Follows(actions);
    var w := After(actions).w;
    forall n | n in w.inFlight
      ensures false
    {
      InFlightIff(actions, n);
    }
    assert w.inFlight == map[];
    NoneInFlight(actions);
  }
}
