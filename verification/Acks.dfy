/** The acknowledgement tracker of ack.rs. Times are nanoseconds and come in as parameters. */
module Acks {
  import opened Keys
  import opened Collections
  import Bytes

  const MS: nat := 1_000_000
  const US: nat := 1_000
  const INITIAL_RTO: nat := 200 * MS
  const MIN_RTO: nat := 50 * MS
  const MAX_RTO: nat := 5_000 * MS
  const MAX_ACK_DELAY: nat := 25_000

  /** A stream packet: its number, and its payload's stream id, offset and data. */
  datatype Packet = Packet(num: nat, stream: nat, offset: nat, data: seq<byte>)

  /** A packet not yet acknowledged. The retry counter has 8 bits. */
  datatype InFlight = InFlight(packet: Packet, sentAt: nat, retries: nat)

  function Since(now: nat, then_: nat): nat {
    if now > then_ then now - then_ else 0
  }

  function Max(a: nat, b: nat): nat {
    if a > b then a else b
  }

  lemma MaxIs(a: nat, b: nat)
    ensures Max(a, b) >= a && Max(a, b) >= b && (Max(a, b) == a || Max(a, b) == b)
  {
  }

  function Min(a: nat, b: nat): nat {
    if a < b then a else b
  }

  function Distance(a: nat, b: nat): nat {
    if a > b then a - b else b - a
  }

  /** How long a packet took to be acknowledged, less the receiver's delay up to 25 ms. */
  function Sample(e: InFlight, ackDelayUs: nat, now: nat): nat {
    Since(Since(now, e.sentAt), Min(ackDelayUs, MAX_ACK_DELAY) * US)
  }

  /** The timeout after n losses. */
  function Backoff(rto: nat, n: nat): nat {
    if n == 0 then rto else Min(2 * Backoff(rto, n - 1), MAX_RTO)
  }

  lemma {:induction false} BackoffBounds(rto: nat, n: nat)
    requires rto <= MAX_RTO
    ensures rto <= Backoff(rto, n) <= MAX_RTO
  {
    if n > 0 {
      BackoffBounds(rto, n - 1);
    }
  }

  /** In one go: each loss doubles it, up to five seconds. */
  lemma {:induction false} BackoffPower(rto: nat, n: nat)
    requires rto <= MAX_RTO
    ensures Backoff(rto, n) == if rto * Bytes.Pow2(n) < 5_000_000_000 then rto * Bytes.Pow2(n) else 5_000_000_000
  {
    if n > 0 {
      BackoffPower(rto, n - 1);
      Twice(rto, Bytes.Pow2(n - 1));
    }
  }

  lemma Twice(a: nat, b: nat)
    ensures a * (2 * b) == 2 * (a * b)
  {
  }

  /** The round trip estimate, its variation and the timeout. */
  datatype Times = Times(srtt: nat, rttVar: nat, rto: nat)

  const FIRST_TIMES := Times(200 * MS, 50 * MS, 200 * MS)

  /** The estimates after an acknowledgement of e: the weighted means, and the timeout between its bounds. */
  function Measured(t: Times, e: InFlight, ackDelayUs: nat, now: nat): Times {
    var sample := Sample(e, ackDelayUs, now);
    var srtt, rttVar := (7 * t.srtt + sample) / 8, (3 * t.rttVar + Distance(sample, t.srtt)) / 4;
    Times(srtt, rttVar, Min(Max(srtt + 4 * rttVar, MIN_RTO), MAX_RTO))
  }

  /** t' is t after a packet sent at sentAt was acknowledged at now, in nanoseconds: what it waited, less the delay
      the receiver reports up to 25 ms, counts one eighth towards the round trip and its distance one quarter
      towards the variation, and the timeout lies between 50 ms and 5 s. The round trip stays between the old one
      and what was measured. */
  ghost predicate Estimates(t: Times, sentAt: nat, ackDelayUs: nat, now: nat, t': Times) {
    var waited := if now > sentAt then now - sentAt else 0;
    var delay := if ackDelayUs < 25_000 then 1_000 * ackDelayUs else 25_000_000;
    var sample := if waited > delay then waited - delay else 0;
    var gap := if sample > t.srtt then sample - t.srtt else t.srtt - sample;
    var wanted := t'.srtt + 4 * t'.rttVar;
    && t'.srtt == (7 * t.srtt + sample) / 8 && t'.rttVar == (3 * t.rttVar + gap) / 4
    && t'.rto == (if wanted < 50_000_000 then 50_000_000 else if wanted > 5_000_000_000 then 5_000_000_000 else wanted)
    && (if sample < t.srtt then sample <= t'.srtt <= t.srtt else t.srtt <= t'.srtt <= sample)
  }

  lemma EstimatesHold(t: Times, e: InFlight, ackDelayUs: nat, now: nat)
    ensures Estimates(t, e.sentAt, ackDelayUs, now, Measured(t, e, ackDelayUs, now))
    ensures MIN_RTO <= Measured(t, e, ackDelayUs, now).rto <= MAX_RTO
  {
  }

  function Resent(e: InFlight, now: nat): InFlight {
    InFlight(e.packet, now, (e.retries + 1) % 256)
  }

  /** Which of the entries seen one tick resends: it looks at them in the order of their numbers, and the
      timeout doubles with each one it finds late. */
  ghost predicate Due(m: map<nat, InFlight>, now: nat, rto: nat, due: seq<nat>, seen: set<nat>) {
    && seen <= m.Keys && Ascending(due) && (forall n :: n in due ==> n in seen)
    && (forall n :: n in seen ==> (n in due <==> Late(m[n], now, Backoff(rto, Before(due, n)))))
  }

  ghost predicate Late(e: InFlight, now: nat, rto: nat) {
    Since(now, e.sentAt) > rto
  }

  /** How many numbers of s are below n. */
  ghost function Before(s: seq<nat>, n: nat): nat {
    if s == [] then 0 else Before(s[..|s| - 1], n) + if s[|s| - 1] < n then 1 else 0
  }

  lemma {:induction false} BeforeAll(s: seq<nat>, n: nat)
    requires forall i :: 0 <= i < |s| ==> s[i] < n
    ensures Before(s, n) == |s|
  {
    if s != [] {
      BeforeAll(s[..|s| - 1], n);
    }
  }

  lemma BeforeMore(s: seq<nat>, last: nat, n: nat)
    requires n <= last
    ensures Before(s + [last], n) == Before(s, n)
  {
    assert (s + [last])[..|s|] == s;
  }

  lemma {:induction false} NoneBefore(s: seq<nat>, n: nat)
    requires forall i :: 0 <= i < |s| ==> s[i] >= n
    ensures Before(s, n) == 0
  {
    if s != [] {
      NoneBefore(s[..|s| - 1], n);
    }
  }

  /** What a tick resends for sure: every packet that has waited longer than the longest timeout, and the
      first of those that have waited longer than the current one. */
  lemma TickResends(m: map<nat, InFlight>, now: nat, rto: nat, due: seq<nat>)
    requires rto <= MAX_RTO && Due(m, now, rto, due, m.Keys)
    ensures forall n :: n in m && Late(m[n], now, MAX_RTO) ==> n in due
    ensures forall n :: n in due ==> n in m && Late(m[n], now, rto)
    ensures forall n :: n in m && Late(m[n], now, rto) ==> due != [] && due[0] <= n
  {
    hide Backoff, Before;
    forall n | n in m
      ensures rto <= Backoff(rto, Before(due, n)) <= MAX_RTO
    {
      BackoffBounds(rto, Before(due, n));
    }
    forall n | n in m && Late(m[n], now, rto)
      ensures due != [] && due[0] <= n
    {
      if forall i :: 0 <= i < |due| ==> due[i] >= n {
        NoneBefore(due, n);
        NoBackoff(rto);
        assert n in due;
      }
    }
  }

  /** A packet that has waited longer than the longest timeout is among those resent. */
  lemma LateQueued(m: map<nat, InFlight>, now: nat, rto: nat, due: seq<nat>)
    requires rto <= MAX_RTO && Due(m, now, rto, due, m.Keys) && forall n :: n in due ==> n in m
    ensures forall n :: n in m && Late(m[n], now, MAX_RTO) ==> m[n].packet in PacketsOf(m, due)
  {
    hide Due, Late;
    TickResends(m, now, rto, due);
    forall n | n in m && Late(m[n], now, MAX_RTO)
      ensures m[n].packet in PacketsOf(m, due)
    {
      var i :| 0 <= i < |due| && due[i] == n;
      assert PacketsOf(m, due)[i] == m[n].packet;
    }
  }

  /** A tick starts the timer of what it resends afresh and leaves the rest alone. */
  lemma TickResets(m: map<nat, InFlight>, now: nat, due: seq<nat>)
    requires forall n :: n in due ==> n in m
    ensures var f := AfterTick(m, now, set n | n in due);
      && f.Keys == m.Keys && (forall n :: n in m && n !in due ==> f[n] == m[n])
      && (forall n :: n in due ==>
            f[n].sentAt == now && f[n].packet == m[n].packet && f[n].retries == (m[n].retries + 1) % 256)
  {
  }

  /** What was sent at now is not resent by a later tick that comes no later than the timeout, whatever else that
      tick finds. */
  lemma NotAgain(m: map<nat, InFlight>, later: nat, rto: nat, due: seq<nat>, now: nat, n: nat)
    requires rto <= MAX_RTO && Due(m, later, rto, due, m.Keys)
    requires n in m && m[n].sentAt == now && later <= now + rto
    ensures n !in due
  {
    BackoffBounds(rto, Before(due, n));
  }

  /** Two ticks in a row: what the first resends the second does not, if it comes within the timeout that the first
      has left. */
  method TickTwice(t: AckTracker, now: nat, later: nat) returns (ghost first: seq<nat>, ghost second: seq<nat>)
    requires t.Valid()
    modifies t`inFlight, t`retransmitQueue, t`rto
    ensures t.Valid() && t.Packets() == old(t.Packets())
    ensures later <= now + Backoff(old(t.rto), |first|) ==> forall n :: n in first ==> n !in second
    ensures forall n :: n in old(t.inFlight) && Late(old(t.inFlight)[n], now, MAX_RTO) ==> n in first
  {
    hide Due, Late, AfterTick, PacketsOf;
    ghost var m := t.inFlight;
    first := t.Tick(now);
    TickResends(m, now, old(t.rto), first);
    ghost var m', rto' := t.inFlight, t.rto;
    second := t.Tick(later);
    forall n | n in first && later <= now + rto'
      ensures n !in second
    {
      NotAgain(m', later, rto', second, now, n);
    }
  }

  lemma NoBackoff(rto: nat)
    ensures Backoff(rto, 0) == rto
  {
  }

  lemma {:induction false} Least(s: set<nat>) returns (k: nat)
    requires s != {}
    ensures k in s && forall j :: j in s ==> k <= j
    decreases |s|
  {
    k :| k in s;
    var r := s - {k};
    if r != {} {
      var l := Least(r);
      forall j | j in s
        ensures Min(k, l) <= j
      {
        assert j == k || j in r;
      }
      k := Min(k, l);
    } else {
      assert s == {k};
    }
  }

  ghost predicate IsLeast(s: set<nat>, k: nat) {
    k in s && forall j :: j in s ==> k <= j
  }

  lemma HasLeast(s: set<nat>)
    requires s != {}
    ensures exists k :: IsLeast(s, k)
  {
    var k := Least(s);
    assert IsLeast(s, k);
  }

  ghost function LeastOf(s: set<nat>): (k: nat)
    requires s != {}
    ensures IsLeast(s, k)
  {
    HasLeast(s);
    var k :| IsLeast(s, k);
    k
  }

  /** What a tick resends of the entries todo: it takes them by number, and each one that has waited longer than the
      timeout doubles it for the rest. */
  ghost function DueFrom(m: map<nat, InFlight>, todo: set<nat>, now: nat, rto: nat): seq<nat>
    requires todo <= m.Keys
    decreases |todo|
  {
    if todo == {} then []
    else
      var k := LeastOf(todo);
      if Late(m[k], now, rto) then [k] + DueFrom(m, todo - {k}, now, Min(2 * rto, MAX_RTO))
      else DueFrom(m, todo - {k}, now, rto)
  }

  lemma {:induction false} DueKnown(m: map<nat, InFlight>, todo: set<nat>, now: nat, rto: nat)
    requires todo <= m.Keys
    ensures forall n :: n in DueFrom(m, todo, now, rto) ==> n in m
    decreases |todo|
  {
    if todo != {} {
      var k := LeastOf(todo);
      DueKnown(m, todo - {k}, now, Min(2 * rto, MAX_RTO));
      DueKnown(m, todo - {k}, now, rto);
    }
  }

  lemma {:induction false} LateDue(m: map<nat, InFlight>, todo: set<nat>, now: nat, rto: nat, n: nat)
    requires todo <= m.Keys && rto <= MAX_RTO && n in todo && Late(m[n], now, MAX_RTO)
    ensures n in DueFrom(m, todo, now, rto)
    decreases |todo|
  {
    var k := LeastOf(todo);
    if n != k {
      LateDue(m, todo - {k}, now, Min(2 * rto, MAX_RTO), n);
      LateDue(m, todo - {k}, now, rto, n);
    }
  }

  lemma NoneDue(m: map<nat, InFlight>, now: nat, rto: nat)
    ensures DueFrom(m, {}, now, rto) == []
  {
  }

  lemma DueNext(m: map<nat, InFlight>, todo: set<nat>, now: nat, rto: nat, k: nat)
    requires todo <= m.Keys && k in todo && forall j :: j in todo ==> k <= j
    ensures DueFrom(m, todo, now, rto) ==
      if Late(m[k], now, rto) then [k] + DueFrom(m, todo - {k}, now, Min(2 * rto, MAX_RTO))
      else DueFrom(m, todo - {k}, now, rto)
  {
    assert LeastOf(todo) == k;
  }

  /** Looking at the next entry settles it and disturbs nothing found about the ones before. */
  lemma DueStep(m: map<nat, InFlight>, now: nat, rto: nat, due: seq<nat>, seen: set<nat>, k: nat)
    requires Due(m, now, rto, due, seen) && k in m && forall n :: n in seen ==> n < k
    ensures k !in due
    ensures Late(m[k], now, Backoff(rto, |due|)) ==> Due(m, now, rto, due + [k], seen + {k})
    ensures !Late(m[k], now, Backoff(rto, |due|)) ==> Due(m, now, rto, due, seen + {k})
  {
    hide Backoff, Before, Late;
    forall i | 0 <= i < |due|
      ensures due[i] < k
    {
      assert due[i] in due;
    }
    BeforeAll(due, k);
    forall n | n in seen + {k}
      ensures Before(due + [k], n) == Before(due, n)
    {
      BeforeMore(due, k, n);
    }
  }

  /** The packets of the entries named by due. */
  ghost function PacketsOf(m: map<nat, InFlight>, due: seq<nat>): seq<Packet>
    requires forall i :: 0 <= i < |due| ==> due[i] in m
  {
    seq(|due|, i requires 0 <= i < |due| => m[due[i]].packet)
  }

  /** The entries after a tick: those named by due were resent now. */
  ghost function AfterTick(m: map<nat, InFlight>, now: nat, due: set<nat>): map<nat, InFlight> {
    map n | n in m :: if n in due then Resent(m[n], now) else m[n]
  }

  class AckTracker {
    var inFlight: map<nat, InFlight>
    var largestAcked: Option<nat>
    var smoothedRtt: nat
    var rttVar: nat
    var rto: nat
    var retransmitQueue: seq<Packet>
    var pendingAcks: seq<nat>

    ghost predicate Valid()
      reads this
    {
      && (forall n :: n in inFlight ==> inFlight[n].packet.num == n)
      && MIN_RTO <= rto <= MAX_RTO
    }

    /** The packets in flight, by number. */
    ghost function Packets(): map<nat, Packet>
      reads this
    {
      map n | n in inFlight :: inFlight[n].packet
    }

    /** The estimates. */
    function Timing(): Times
      reads this
    {
      Times(smoothedRtt, rttVar, rto)
    }

    constructor ()
      ensures Valid() && inFlight == map[] && retransmitQueue == [] && pendingAcks == [] && largestAcked == None
      ensures smoothedRtt == 200_000_000 && rttVar == 50_000_000 && rto == 200_000_000
    {
      inFlight, largestAcked, retransmitQueue, pendingAcks := map[], None, [], [];
      smoothedRtt, rttVar, rto := INITIAL_RTO, 50 * MS, INITIAL_RTO;
    }

    method Track(packet: Packet, now: nat)
      requires Valid()
      modifies this`inFlight
      ensures Valid() && inFlight == old(inFlight)[packet.num := InFlight(packet, now, 0)]
      ensures Packets() == old(Packets())[packet.num := packet]
    {
      inFlight := inFlight[packet.num := InFlight(packet, now, 0)];
    }

    /** The entry goes, if there is one, and its round trip moves the estimate; the timeout stays between
        its bounds. */
    method OnAck(acked: nat, ackDelayUs: nat, now: nat)
      requires Valid()
      modifies this`inFlight, this`largestAcked, this`smoothedRtt, this`rttVar, this`rto
      ensures Valid() && inFlight == old(inFlight) - {acked} && Packets() == old(Packets()) - {acked}
      ensures largestAcked.Some? && largestAcked.value >= acked
      ensures largestAcked.value == acked || largestAcked == old(largestAcked)
      ensures old(largestAcked).Some? ==> largestAcked.value >= old(largestAcked).value
      ensures acked !in old(inFlight) ==>
        smoothedRtt == old(smoothedRtt) && rttVar == old(rttVar) && rto == old(rto)
      ensures Timing() ==
        if acked in old(inFlight) then Measured(old(Timing()), old(inFlight)[acked], ackDelayUs, now) else old(Timing())
      ensures acked in old(inFlight) ==>
        Estimates(old(Timing()), old(inFlight)[acked].sentAt, ackDelayUs, now, Timing())
    {
      hide Estimates, Since, Min, Max;
      if acked in inFlight {
        var entry := inFlight[acked];
        inFlight := inFlight - {acked};
        EstimatesHold(Timing(), entry, ackDelayUs, now);
        var rttSample := Since(Since(now, entry.sentAt), Min(ackDelayUs, MAX_ACK_DELAY) * US);
        var rttDiff := if rttSample > smoothedRtt then rttSample - smoothedRtt else smoothedRtt - rttSample;
        rttVar := (3 * rttVar + rttDiff) / 4;
        smoothedRtt := (7 * smoothedRtt + rttSample) / 8;
        rto := Min(Max(smoothedRtt + 4 * rttVar, MIN_RTO), MAX_RTO);
      }
      if largestAcked.Some? {
        MaxIs(largestAcked.value, acked);
      }
      largestAcked := Some(match largestAcked case Some(prev) => Max(prev, acked) case None => acked);
    }

    method OnNak(lost: nat, now: nat)
      requires Valid()
      modifies this`inFlight, this`retransmitQueue
      ensures Valid() && Packets() == old(Packets())
      ensures lost !in old(inFlight) ==> inFlight == old(inFlight) && retransmitQueue == old(retransmitQueue)
      ensures lost in old(inFlight) ==>
        && lost in inFlight && inFlight[lost].sentAt == now && inFlight[lost].packet == old(inFlight)[lost].packet
        && inFlight[lost].retries == (old(inFlight)[lost].retries + 1) % 256
        && inFlight == old(inFlight)[lost := inFlight[lost]]
        && retransmitQueue == old(retransmitQueue) + [old(Packets())[lost]]
    {
      if lost in inFlight {
        var entry := inFlight[lost];
        retransmitQueue := retransmitQueue + [entry.packet];
        inFlight := inFlight[lost := InFlight(entry.packet, now, (entry.retries + 1) % 256)];
      }
    }

    method QueueAck(num: nat)
      requires Valid()
      modifies this`pendingAcks
      ensures Valid() && pendingAcks == old(pendingAcks) + [num]
    {
      pendingAcks := pendingAcks + [num];
    }

    method DrainAcks() returns (acks: seq<nat>)
      requires Valid()
      modifies this`pendingAcks
      ensures Valid() && acks == old(pendingAcks) && pendingAcks == []
    {
      acks := pendingAcks;
      pendingAcks := [];
    }

    /** Requeues the packets whose timeout has passed, by number, the timeout doubling with each. */
    method Tick(now: nat) returns (ghost due: seq<nat>)
      requires Valid()
      modifies this`inFlight, this`retransmitQueue, this`rto
      ensures Valid() && Packets() == old(Packets())
      ensures Due(old(inFlight), now, old(rto), due, old(inFlight).Keys)
      ensures due == DueFrom(old(inFlight), old(inFlight).Keys, now, old(rto))
      ensures retransmitQueue == old(retransmitQueue) + PacketsOf(old(inFlight), due)
      ensures inFlight == AfterTick(old(inFlight), now, set n | n in due) && rto == Backoff(old(rto), |due|)
      ensures forall n :: n in due ==>
        && n in old(inFlight) && n in inFlight && inFlight[n].sentAt == now
        && inFlight[n].packet == old(inFlight)[n].packet && inFlight[n].retries == (old(inFlight)[n].retries + 1) % 256
      ensures inFlight.Keys == old(inFlight).Keys
      ensures forall n :: n in inFlight && n !in due ==> inFlight[n] == old(inFlight)[n]
      ensures forall n :: n in old(inFlight) && Late(old(inFlight)[n], now, MAX_RTO) ==>
        old(inFlight)[n].packet in retransmitQueue
    {
      hide Ticked, Due, PacketsOf, AfterTick, Split, Min, Resent, DueFrom, Backoff;
      ghost var m, rto0, queue0, seen: set<nat> := inFlight, rto, retransmitQueue, {};
      due := [];
      TickStart(m, now, rto0, queue0);
      var todo := inFlight.Keys;
      SplitStart(todo);
      while todo != {}
        invariant Split(todo, seen, m.Keys)
        invariant Ticked(m, now, rto0, queue0, due, seen, inFlight, retransmitQueue, rto)
        invariant todo <= m.Keys && due + DueFrom(m, todo, now, rto) == DueFrom(m, m.Keys, now, rto0)
        decreases |todo|
      {
        ghost var least := Least(todo);
        var k :| k in todo && forall j :: j in todo ==> k <= j;
        SplitStep(todo, seen, m.Keys, k);
        DueNext(m, todo, now, rto, k);
        TickStep(m, now, rto0, queue0, due, seen, inFlight, retransmitQueue, rto, k);
        var entry := inFlight[k];
        if Since(now, entry.sentAt) > rto {
          retransmitQueue := retransmitQueue + [entry.packet];
          inFlight := inFlight[k := Resent(entry, now)];
          rto := Min(rto * 2, MAX_RTO);
          due := due + [k];
        }
        seen := seen + {k};
        todo := todo - {k};
      }
      assert seen == m.Keys by { SplitEnd(seen, m.Keys); }
      assert DueFrom(m, {}, now, rto) == [] by { NoneDue(m, now, rto); }
      TickEnd(m, now, rto0, queue0, due, inFlight, retransmitQueue, rto);
      LateQueued(m, now, rto0, due);
      TickResets(m, now, due);
    }

    method NextRetransmit() returns (r: Option<Packet>)
      requires Valid()
      modifies this`retransmitQueue
      ensures Valid()
      ensures old(retransmitQueue) == [] ==> r == None && retransmitQueue == []
      ensures old(retransmitQueue) != [] ==>
        r == Some(old(retransmitQueue)[0]) && retransmitQueue == old(retransmitQueue)[1..]
    {
      if retransmitQueue == [] {
        return None;
      }
      r := Some(retransmitQueue[0]);
      retransmitQueue := retransmitQueue[1..];
    }
  }

  /** The numbers seen all come before those still to do. */
  ghost predicate Split(todo: set<nat>, seen: set<nat>, all: set<nat>) {
    todo !! seen && todo + seen == all && forall a, b :: a in seen && b in todo ==> a < b
  }

  lemma SplitStart(all: set<nat>)
    ensures Split(all, {}, all)
  {
  }

  lemma SplitStep(todo: set<nat>, seen: set<nat>, all: set<nat>, k: nat)
    requires Split(todo, seen, all) && k in todo && forall j :: j in todo ==> k <= j
    ensures Split(todo - {k}, seen + {k}, all) && k in all && |todo - {k}| < |todo|
    ensures forall n :: n in seen ==> n < k
  {
    assert todo - {k} + (seen + {k}) == all;
  }

  lemma SplitEnd(seen: set<nat>, all: set<nat>)
    requires Split({}, seen, all)
    ensures seen == all
  {
  }

  /** Where a tick stands after the entries seen. */
  ghost predicate Ticked(m: map<nat, InFlight>, now: nat, rto0: nat, queue0: seq<Packet>,
                         due: seq<nat>, seen: set<nat>, f: map<nat, InFlight>, queue: seq<Packet>, rto: nat) {
    && Due(m, now, rto0, due, seen) && (forall n :: n in due ==> n in m)
    && rto == Backoff(rto0, |due|) && queue == queue0 + PacketsOf(m, due)
    && f == AfterTick(m, now, set n | n in due)
  }

  lemma TickStart(m: map<nat, InFlight>, now: nat, rto: nat, queue: seq<Packet>)
    ensures Ticked(m, now, rto, queue, [], {}, m, queue, rto)
  {
  }

  lemma TickStep(m: map<nat, InFlight>, now: nat, rto0: nat, queue0: seq<Packet>,
                 due: seq<nat>, seen: set<nat>, f: map<nat, InFlight>, queue: seq<Packet>, rto: nat, k: nat)
    requires Ticked(m, now, rto0, queue0, due, seen, f, queue, rto) && k in m && forall n :: n in seen ==> n < k
    ensures k in f && f[k] == m[k]
    ensures if Late(m[k], now, rto)
      then Ticked(m, now, rto0, queue0, due + [k], seen + {k},
                  f[k := Resent(m[k], now)], queue + [m[k].packet], Min(rto * 2, MAX_RTO))
      else Ticked(m, now, rto0, queue0, due, seen + {k}, f, queue, rto)
  {
    hide Due, Late;
    DueStep(m, now, rto0, due, seen, k);
    if Late(m[k], now, rto) {
      assert PacketsOf(m, due + [k]) == PacketsOf(m, due) + [m[k].packet];
      assert (set n | n in due + [k]) == (set n | n in due) + {k};
    }
  }

  lemma TickEnd(m: map<nat, InFlight>, now: nat, rto0: nat, queue0: seq<Packet>,
                due: seq<nat>, f: map<nat, InFlight>, queue: seq<Packet>, rto: nat)
    requires Ticked(m, now, rto0, queue0, due, m.Keys, f, queue, rto)
    ensures Due(m, now, rto0, due, m.Keys) && (forall n :: n in due ==> n in m)
    ensures rto == Backoff(rto0, |due|) && (rto0 <= MAX_RTO ==> rto0 <= rto <= MAX_RTO)
    ensures queue == queue0 + PacketsOf(m, due) && f == AfterTick(m, now, set n | n in due)
    ensures f.Keys == m.Keys && forall n :: n in m ==> f[n].packet == m[n].packet
  {
    hide Due;
    if rto0 <= MAX_RTO {
      BackoffBounds(rto0, |due|);
    }
  }
}
