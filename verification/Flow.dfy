/** Credit-based flow control: the windows of flow.rs, and what a sender that asks before sending can rely on. */
module FlowControl {
  import opened Keys

  const INITIAL_WINDOW: nat := 64 * 1024
  const MAX_WINDOW: nat := 16 * 1024 * 1024
  const UPDATE_THRESHOLD: nat := INITIAL_WINDOW / 2

  class SendWindow {
    var available: nat
    var totalSent: nat

    constructor ()
      ensures available == INITIAL_WINDOW && totalSent == 0
    {
      available, totalSent := INITIAL_WINDOW, 0;
    }

    predicate CanSend(bytes: nat)
      reads this
    {
      bytes <= available
    }

    method Consume(bytes: nat) returns (ok: bool)
      modifies this
      ensures ok == old(CanSend(bytes)) == (bytes <= old(available))
      ensures available == old(available) - (if ok then bytes else 0)
      ensures totalSent == old(totalSent) + (if ok then bytes else 0)
    {
      if bytes > available {
        return false;
      }
      available := available - bytes;
      totalSent := totalSent + bytes;
      ok := true;
    }

    /** A window update from the peer; refused when it would lift the window above its maximum. */
    method AddCredit(increment: nat) returns (ok: bool)
      modifies this`available
      ensures ok <==> old(available) + increment <= 16_777_216
      ensures available == old(available) + (if ok then increment else 0)
    {
      var newVal := available + increment;
      if newVal > MAX_WINDOW {
        return false;
      }
      available := newVal;
      ok := true;
    }
  }

  class RecvWindow {
    var windowSize: nat
    var received: nat
    var consumed: nat
    var updated: nat

    constructor ()
      ensures windowSize == INITIAL_WINDOW && received == 0 && consumed == 0 && updated == 0
    {
      windowSize, received, consumed, updated := INITIAL_WINDOW, 0, 0, 0;
    }

    /** Bytes from the peer; a violation when they exceed the window. */
    method OnReceive(bytes: nat) returns (ok: bool)
      modifies this`received
      ensures ok <==> old(received) + bytes <= windowSize
      ensures received == old(received) + (if ok then bytes else 0)
    {
      var newReceived := received + bytes;
      if newReceived > windowSize {
        return false;
      }
      received := newReceived;
      ok := true;
    }

    method OnConsume(bytes: nat)
      modifies this`consumed
      ensures consumed == old(consumed) + bytes
    {
      consumed := consumed + bytes;
    }

    /** Consumed bytes are announced once half the initial window of them has gathered, and then all of them. */
    function ShouldUpdate(): (r: Option<nat>)
      reads this
      ensures r.Some? <==> consumed >= updated + 32768
      ensures r.Some? ==> r.value == consumed - updated
    {
      var pending := if consumed > updated then consumed - updated else 0;
      if pending >= UPDATE_THRESHOLD then Some(pending) else None
    }

    /** The window opens by as much as is announced; announcing what ShouldUpdate asked for settles the account. */
    method MarkUpdated(increment: nat)
      modifies this`updated, this`windowSize
      ensures updated == old(updated) + increment
      ensures windowSize - updated == old(windowSize) - old(updated)
      ensures old(ShouldUpdate()) == Some(increment) ==> updated == consumed && ShouldUpdate() == None
    {
      updated := updated + increment;
      windowSize := windowSize + increment;
    }
  }

  // ---------------------------------------------------------------------------------------------
  // One stream: both windows and what is on its way

  /** data and credits are the packets and updates on their way; the last three fields count the bytes that
      were lost and the bytes that arrived again. */
  datatype Flow = Flow(
    available: nat, sent: nat, window: nat, received: nat, consumed: nat, updated: nat,
    data: seq<nat>, credits: seq<nat>, lostData: nat, lostCredit: nat, repeated: nat)

  function Fresh(): (f: Flow)
    ensures IsFresh(f)
  {
    Flow(INITIAL_WINDOW, 0, INITIAL_WINDOW, 0, 0, 0, [], [], 0, 0, 0)
  }

  /** The windows of a new stream. */
  predicate IsFresh(f: Flow) {
    && f.available == f.window == INITIAL_WINDOW && f.sent == f.received == f.consumed == f.updated == 0
    && f.data == [] && f.credits == [] && f.lostData == f.lostCredit == f.repeated == 0
  }

  datatype Event =
    /** The sender wants to send; nothing happens without credit. */
    | WantSend(bytes: nat)
    /** Packet i arrives, in any order. */
    | DataArrives(i: nat)
    /** A copy of packet i arrives; the packet is still under way. */
    | CopyArrives(i: nat)
    | DataLost(i: nat)
    /** The application takes bytes it was given. */
    | Consume(bytes: nat)
    /** The receiver announces more room, if enough was consumed. */
    | Announce
    | CreditArrives(i: nat)
    | CreditLost(i: nat)

  function Sum(s: seq<nat>): nat {
    if s == [] then 0 else s[0] + Sum(s[1..])
  }

  function Drop(s: seq<nat>, i: nat): seq<nat>
    requires i < |s|
  {
    s[..i] + s[i + 1..]
  }

  lemma {:induction false} SumAppend(s: seq<nat>, t: seq<nat>)
    ensures Sum(s + t) == Sum(s) + Sum(t)
  {
    if s == [] {
      assert s + t == t;
    } else {
      assert (s + t)[1..] == s[1..] + t;
      SumAppend(s[1..], t);
    }
  }

  lemma SumDrop(s: seq<nat>, i: nat)
    requires i < |s|
    ensures Sum(Drop(s, i)) + s[i] == Sum(s)
  {
    SumAppend(s[..i], s[i + 1..]);
    SumAppend(s[..i], s[i..]);
    assert s == s[..i] + s[i..] && s[i..][0] == s[i] && s[i..][1..] == s[i + 1..];
  }

  predicate Possible(f: Flow, e: Event) {
    match e
    case DataArrives(i) => i < |f.data|
    case CopyArrives(i) => i < |f.data|
    case DataLost(i) => i < |f.data|
    case Consume(n) => f.consumed + n <= f.received
    case CreditArrives(i) => i < |f.credits|
    case CreditLost(i) => i < |f.credits|
    case _ => true
  }

  /** Whether the windows accept the event: no violation on receiving, no refused credit, an update that
      fits its 32-bit field. */
  predicate Accepted(f: Flow, e: Event)
    requires Possible(f, e)
  {
    match e
    case DataArrives(i) => f.received + f.data[i] <= f.window
    case CopyArrives(i) => f.received + f.data[i] <= f.window
    case CreditArrives(i) => f.available + f.credits[i] <= MAX_WINDOW
    case Announce => f.consumed - f.updated < U32
    case _ => true
  }

  function After(f: Flow, e: Event): Flow
    requires Possible(f, e)
  {
    match e
    case WantSend(n) =>
      if n <= f.available then f.(available := f.available - n, sent := f.sent + n, data := f.data + [n]) else f
    case DataArrives(i) => f.(received := f.received + f.data[i], data := Drop(f.data, i))
    case CopyArrives(i) => f.(received := f.received + f.data[i], repeated := f.repeated + f.data[i])
    case DataLost(i) => f.(data := Drop(f.data, i), lostData := f.lostData + f.data[i])
    case Consume(n) => f.(consumed := f.consumed + n)
    case Announce =>
      if f.consumed >= f.updated + UPDATE_THRESHOLD then
        var n := f.consumed - f.updated;
        f.(updated := f.updated + n, window := f.window + n, credits := f.credits + [n])
      else f
    case CreditArrives(i) => f.(available := f.available + f.credits[i], credits := Drop(f.credits, i))
    case CreditLost(i) => f.(credits := Drop(f.credits, i), lostCredit := f.lostCredit + f.credits[i])
  }

  /** Every byte sent and every byte of credit is somewhere. */
  ghost predicate Conserved(f: Flow) {
    && f.sent + f.repeated == f.received + Sum(f.data) + f.lostData
    && f.available + f.sent + Sum(f.credits) + f.lostCredit == f.window == INITIAL_WINDOW + f.updated
    && f.updated <= f.consumed <= f.received <= f.window
  }

  /** No more bytes came twice than were lost on the way. */
  predicate Balanced(f: Flow) {
    f.repeated <= f.lostData + f.lostCredit
  }

  lemma EventConserves(f: Flow, e: Event)
    requires Conserved(f) && Possible(f, e) && Accepted(f, e)
    ensures Conserved(After(f, e)) && (Balanced(f) && !e.CopyArrives? ==> Balanced(After(f, e)))
  {
    match e {
      case WantSend(n) => SumAppend(f.data, [n]);
      case DataArrives(i) => SumDrop(f.data, i);
      case DataLost(i) => SumDrop(f.data, i);
      case Announce => SumAppend(f.credits, [f.consumed - f.updated]);
      case CreditArrives(i) => SumDrop(f.credits, i);
      case CreditLost(i) => SumDrop(f.credits, i);
      case _ =>
    }
  }

  /** While copies do not outweigh losses, neither side ever has a reason to complain. */
  lemma EventAccepted(f: Flow, e: Event)
    requires Conserved(f) && Balanced(f) && Possible(f, e) && !e.CopyArrives?
    ensures Accepted(f, e)
  {
    match e {
      case DataArrives(i) => SumDrop(f.data, i);
      case CreditArrives(i) => SumDrop(f.credits, i);
      case _ =>
    }
  }

  /** Then the sender never holds more than the initial window, never outruns the receiver by more than
      that, and no update is larger. */
  lemma ConservedBounds(f: Flow)
    requires Conserved(f)
    ensures Balanced(f) ==> f.available <= INITIAL_WINDOW
    ensures f.consumed - f.updated <= INITIAL_WINDOW && f.sent <= f.updated + INITIAL_WINDOW
  {
  }

  /** At rest, with nothing under way or lost and everything consumed and announced, more than half of the
      initial window is open again. */
  lemma RestIsOpen(f: Flow)
    requires Conserved(f) && f.data == [] && f.credits == [] && f.lostData == 0 && f.lostCredit == 0
    requires f.consumed == f.received && After(f, Announce) == f
    ensures f.available > INITIAL_WINDOW - UPDATE_THRESHOLD
  {
    AnnounceMoves(f);
  }

  lemma AnnounceMoves(f: Flow)
    ensures f.consumed >= f.updated + UPDATE_THRESHOLD ==> After(f, Announce) != f
  {
    if f.consumed >= f.updated + UPDATE_THRESHOLD {
      assert After(f, Announce).updated == f.consumed;
    }
  }

  /** The windows after a run, and whether they accepted everything. */
  function RunFrom(f: Flow, events: seq<Event>): Option<Flow>
    decreases |events|
  {
    if events == [] then Some(f)
    else if !Possible(f, events[0]) then RunFrom(f, events[1..])
    else if !Accepted(f, events[0]) then None
    else RunFrom(After(f, events[0]), events[1..])
  }

  ghost predicate NoCopies(events: seq<Event>) {
    forall i :: 0 <= i < |events| ==> !events[i].CopyArrives?
  }

  /** No run without copies is ever refused. */
  lemma {:induction false} NeverRefused(f: Flow, events: seq<Event>)
    requires Conserved(f) && Balanced(f) && NoCopies(events)
    ensures RunFrom(f, events).Some? && Conserved(RunFrom(f, events).value) && Balanced(RunFrom(f, events).value)
    decreases |events|
  {
    if events != [] {
      var f' := f;
      if Possible(f, events[0]) {
        EventAccepted(f, events[0]);
        EventConserves(f, events[0]);
        f' := After(f, events[0]);
      }
      NeverRefused(f', events[1..]);
    }
  }

  lemma RunMore(f: Flow, e: Event, rest: seq<Event>)
    requires Possible(f, e) && NoCopies(rest) && !e.CopyArrives?
    requires Accepted(f, e) ==> RunFrom(After(f, e), rest) == None
    ensures RunFrom(f, [e] + rest) == None && NoCopies([e] + rest)
  {
    assert ([e] + rest)[1..] == rest;
  }

  /** Once copies outweigh losses, some continuation without further copies is refused: let all credit
      arrive, spend it, and deliver everything. */
  lemma {:induction false} Doomed(f: Flow) returns (events: seq<Event>)
    requires Conserved(f) && !Balanced(f)
    ensures NoCopies(events) && RunFrom(f, events) == None
    decreases |f.credits|, f.available, |f.data|
  {
    assert f.credits != [] || f.available > 0 || f.data != [] by {
      assert Sum([]) == 0;
    }
    var e := if f.credits != [] then CreditArrives(0)
      else if f.available > 0 then WantSend(f.available) else DataArrives(0);
    var rest: seq<Event> := [];
    if Accepted(f, e) {
      EventConserves(f, e);
      rest := Doomed(After(f, e));
    }
    RunMore(f, e, rest);
    events := [e] + rest;
  }

  /** From any state of the windows, the runs without further copies are all accepted exactly when copies
      have not outweighed losses so far. A retransmitted packet that is counted twice breaks this. */
  lemma AcceptedIff(f: Flow)
    requires Conserved(f)
    ensures Balanced(f) <==> forall events :: NoCopies(events) ==> RunFrom(f, events).Some?
  {
    if Balanced(f) {
      forall events | NoCopies(events)
        ensures RunFrom(f, events).Some?
      {
        NeverRefused(f, events);
      }
    } else {
      var events := Doomed(f);
    }
  }

  /** One copy is enough: a byte sent once and counted twice. */
  lemma CopyUnbalances(f: Flow)
    requires IsFresh(f)
    ensures Possible(f, WantSend(1)) && Possible(After(f, WantSend(1)), CopyArrives(0))
    ensures var f' := After(After(f, WantSend(1)), CopyArrives(0));
      Accepted(After(f, WantSend(1)), CopyArrives(0)) && Conserved(f') && !Balanced(f')
  {
    FreshConserved(f);
    EventConserves(f, WantSend(1));
    EventConserves(After(f, WantSend(1)), CopyArrives(0));
  }

  /** The window objects on both ends of a stream, run under any schedule: they report an error exactly when the
      run is refused, and until then show what it says and conserve credit. So without copies no call ever
      reports an error. start tells what the windows say at first. */
  method Converse(s: SendWindow, r: RecvWindow, ghost start: Flow, events: seq<Event>)
    returns (refused: bool, ghost f: Flow)
    requires Shows(s, r, start) && start.data == [] && start.credits == [] && Conserved(start)
    modifies s, r
    ensures refused <==> RunFrom(start, events) == None
    ensures !refused ==> RunFrom(start, events) == Some(f) && Conserved(f) && Shows(s, r, f)
    ensures Balanced(start) && NoCopies(events) ==> !refused && Balanced(f)
  {
    hide Conserved, Balanced, RunFrom, Sum, Drop, NoCopies, Possible, Accepted, After;
    refused := false;
    f := start;
    var data: seq<nat>, credits: seq<nat> := [], [];
    assert events[0..] == events;
    var k := 0;
    while k < |events| && !refused
      invariant k <= |events| && (refused ==> RunFrom(start, events) == None)
      invariant !refused ==> Conserved(f) && RunFrom(start, events) == RunFrom(f, events[k..])
      invariant !refused ==> data == f.data && credits == f.credits && Shows(s, r, f)
    {
      RunHead(f, events, k);
      data, credits, refused, f := Happen(s, r, data, credits, events[k], f);
      k := k + 1;
    }
    if !refused {
      assert events[|events|..] == [];
      RunNone(f);
    }
    if Balanced(start) && NoCopies(events) {
      NeverRefused(start, events);
    }
  }

  lemma FreshConserved(f: Flow)
    requires IsFresh(f)
    ensures Conserved(f) && Balanced(f)
  {
  }

  lemma RunNone(f: Flow)
    ensures RunFrom(f, []) == Some(f)
  {
  }

  /** The window objects show what f says. */
  ghost predicate Shows(s: SendWindow, r: RecvWindow, f: Flow)
    reads s, r
  {
    && s.available == f.available && s.totalSent == f.sent
    && r.windowSize == f.window && r.received == f.received && r.consumed == f.consumed && r.updated == f.updated
  }

  lemma RunHead(f: Flow, events: seq<Event>, k: nat)
    requires k < |events|
    ensures RunFrom(f, events[k..]) ==
      if !Possible(f, events[k]) then RunFrom(f, events[k + 1..])
      else if !Accepted(f, events[k]) then None
      else RunFrom(After(f, events[k]), events[k + 1..])
  {
    assert events[k..][1..] == events[k + 1..];
  }

  /** One event, on the objects and on the packets and updates under way. */
  method Happen(s: SendWindow, r: RecvWindow, data: seq<nat>, credits: seq<nat>, e: Event, ghost f: Flow)
    returns (data': seq<nat>, credits': seq<nat>, refused: bool, ghost f': Flow)
    requires Shows(s, r, f) && data == f.data && credits == f.credits && Conserved(f)
    modifies s, r
    ensures refused <==> Possible(f, e) && !Accepted(f, e)
    ensures !refused ==>
      && f' == (if Possible(f, e) then After(f, e) else f) && Conserved(f')
      && Shows(s, r, f') && data' == f'.data && credits' == f'.credits
  {
    data', credits', refused := data, credits, false;
    f' := f;
    if Possible(f, e) && Accepted(f, e) {
      EventConserves(f, e);
      f' := After(f, e);
    }
    hide Sum, Drop, Balanced;
    match e {
      case WantSend(n) =>
        var ok := s.Consume(n);
        if ok {
          data' := data + [n];
        }
      case DataArrives(i) =>
        if i < |data| {
          var ok := r.OnReceive(data[i]);
          refused := !ok;
          data' := Drop(data, i);
        }
      case CopyArrives(i) =>
        if i < |data| {
          var ok := r.OnReceive(data[i]);
          refused := !ok;
        }
      case DataLost(i) =>
        if i < |data| {
          data' := Drop(data, i);
        }
      case Consume(n) =>
        if r.consumed + n <= r.received {
          r.OnConsume(n);
        }
      case Announce =>
        var u := r.ShouldUpdate();
        if u.Some? {
          r.MarkUpdated(u.value);
          refused := u.value >= U32;
          credits' := credits + [u.value];
        }
      case CreditArrives(i) =>
        if i < |credits| {
          var ok := s.AddCredit(credits[i]);
          refused := !ok;
          credits' := Drop(credits, i);
        }
      case CreditLost(i) =>
        if i < |credits| {
          credits' := Drop(credits, i);
        }
    }
  }

  // ---------------------------------------------------------------------------------------------
  // The connection-level window

  class ConnectionFlowControl {
    const send: SendWindow
    const recv: RecvWindow

    constructor ()
      ensures fresh(send) && fresh(recv) && send.available == INITIAL_WINDOW && send.totalSent == 0
    {
      send := new SendWindow();
      recv := new RecvWindow();
    }
  }

  class StreamFlowControl {
    const streamId: nat
    const send: SendWindow
    const recv: RecvWindow

    constructor (streamId: nat)
      ensures this.streamId == streamId && fresh(send) && fresh(recv)
      ensures send.available == INITIAL_WINDOW && send.totalSent == 0
    {
      this.streamId := streamId;
      send := new SendWindow();
      recv := new RecvWindow();
    }

    /** Takes credit from the stream and from the connection, or from neither. */
    method ConsumeSend(bytes: nat, conn: ConnectionFlowControl) returns (ok: bool)
      requires send != conn.send
      modifies send, conn.send
      ensures ok <==> old(send.available) >= bytes && old(conn.send.available) >= bytes
      ensures send.available == old(send.available) - (if ok then bytes else 0)
      ensures send.totalSent == old(send.totalSent) + (if ok then bytes else 0)
      ensures conn.send.available == old(conn.send.available) - (if ok then bytes else 0)
      ensures conn.send.totalSent == old(conn.send.totalSent) + (if ok then bytes else 0)
    {
      if !(send.CanSend(bytes) && conn.send.CanSend(bytes)) {
        return false;
      }
      var a := send.Consume(bytes);
      var b := conn.send.Consume(bytes);
      ok := true;
    }
  }

  /** All streams of a connection whose sender asks ConsumeSend first. conn is the connection's credit,
      credited what window updates have added to it, elsewhere the bytes sent on streams other than 0. */
  datatype Link = Link(streams: map<nat, Flow>, conn: nat, credited: nat, elsewhere: nat)

  function StreamOf(l: Link, id: nat): Flow {
    if id in l.streams then l.streams[id] else Fresh()
  }

  /** An event on stream id. The receiving side counts stream windows only and announces stream windows only,
      and the sending side takes an update for stream 0 as one for the connection. */
  function LinkAfter(l: Link, id: nat, e: Event): Link
    requires Possible(StreamOf(l, id), e)
  {
    var f := StreamOf(l, id);
    match e
    case WantSend(n) =>
      if n <= f.available && n <= l.conn then
        l.(streams := l.streams[id := After(f, e)], conn := l.conn - n,
           elsewhere := if id == 0 then l.elsewhere else l.elsewhere + n)
      else l
    case CreditArrives(i) =>
      if id == 0 then
        var c := if l.conn + f.credits[i] <= MAX_WINDOW then f.credits[i] else 0;
        l.(streams := l.streams[0 := After(f, CreditLost(i))], conn := l.conn + c, credited := l.credited + c)
      else l.(streams := l.streams[id := After(f, e)])
    case _ => l.(streams := l.streams[id := After(f, e)])
  }

  /** A stream's objects and the connection's credit are as the link says. */
  ghost predicate LinkShows(s: StreamFlowControl, conn: ConnectionFlowControl, l: Link, id: nat)
    reads s, s.send, s.recv, conn, conn.send
  {
    s.send != conn.send && Shows(s.send, s.recv, StreamOf(l, id)) && conn.send.available == l.conn
  }

  /** What the sender does with data for a stream: the two window objects follow the link. */
  method LinkWant(s: StreamFlowControl, conn: ConnectionFlowControl, bytes: nat, ghost l: Link, ghost id: nat)
    returns (sent: bool)
    requires LinkShows(s, conn, l, id)
    modifies s.send, conn.send
    ensures sent <==> bytes <= old(s.send.available) && bytes <= old(conn.send.available)
    ensures LinkShows(s, conn, LinkAfter(l, id, WantSend(bytes)), id)
    ensures !sent ==> LinkAfter(l, id, WantSend(bytes)) == l
  {
    sent := s.ConsumeSend(bytes, conn);
  }

  /** What the sender does with a window update: for stream 0 the connection's credit moves and no stream's. */
  method LinkCredit(s: StreamFlowControl, conn: ConnectionFlowControl, i: nat, increment: nat, ghost l: Link, id: nat)
    returns (ok: bool)
    requires LinkShows(s, conn, l, id)
    requires i < |StreamOf(l, id).credits| && increment == StreamOf(l, id).credits[i]
    modifies s.send, conn.send
    ensures ok ==> LinkShows(s, conn, LinkAfter(l, id, CreditArrives(i)), id)
    ensures id == 0 ==> LinkShows(s, conn, LinkAfter(l, id, CreditArrives(i)), id)
    ensures id != 0 ==> (ok <==> Accepted(StreamOf(l, id), CreditArrives(i)))
    ensures id == 0 ==> s.send.available == old(s.send.available)
    ensures id != 0 ==> conn.send.available == old(conn.send.available)
  {
    if id == 0 {
      ok := conn.send.AddCredit(increment);
    } else {
      ok := s.send.AddCredit(increment);
    }
  }

  function LinkRun(l: Link, events: seq<(nat, Event)>): Link
    decreases |events|
  {
    if events == [] then l
    else if Possible(StreamOf(l, events[0].0), events[0].1) && Accepted(StreamOf(l, events[0].0), events[0].1) then
      LinkRun(LinkAfter(l, events[0].0, events[0].1), events[1..])
    else LinkRun(l, events[1..])
  }

  ghost predicate LinkConserved(l: Link) {
    && 0 in l.streams && Conserved(l.streams[0])
    && l.streams[0].available + l.streams[0].sent == INITIAL_WINDOW
    && l.credited <= l.streams[0].lostCredit
    && l.conn + l.elsewhere + l.streams[0].sent == INITIAL_WINDOW + l.credited
  }

  /** One fresh stream, number 0, and a full connection window. */
  function NewLink(f: Flow): Link {
    Link(map[0 := f], INITIAL_WINDOW, 0, 0)
  }

  lemma NewLinkConserved(f: Flow)
    requires IsFresh(f)
    ensures LinkConserved(NewLink(f))
  {
    FreshConserved(f);
    hide Conserved;
  }

  lemma LinkStep(l: Link, id: nat, e: Event)
    requires LinkConserved(l) && Possible(StreamOf(l, id), e) && Accepted(StreamOf(l, id), e)
    ensures LinkConserved(LinkAfter(l, id, e))
  {
    if id == 0 {
      var e' := match e case CreditArrives(i) => CreditLost(i) case _ => e;
      hide Sum, Drop;
      EventConserves(l.streams[0], e');
    }
  }

  lemma {:induction false} LinkRunConserved(l: Link, events: seq<(nat, Event)>)
    requires LinkConserved(l)
    ensures LinkConserved(LinkRun(l, events))
    decreases |events|
  {
    hide LinkConserved, LinkAfter, Possible, Accepted;
    if events != [] {
      var (id, e) := events[0];
      if Possible(StreamOf(l, id), e) && Accepted(StreamOf(l, id), e) {
        LinkStep(l, id, e);
        LinkRunConserved(LinkAfter(l, id, e), events[1..]);
      } else {
        LinkRunConserved(l, events[1..]);
      }
    }
  }

  /** A sender that honours both windows starves: however long the run and however fast the receiver reads,
      stream 0 never sends more than the initial window, and all the others together never send more than that and
      the bytes that arrived a second time on stream 0. */
  lemma ConnectionStarves(f: Flow, events: seq<(nat, Event)>)
    requires IsFresh(f)
    ensures var l := LinkRun(NewLink(f), events);
      StreamOf(l, 0).sent <= INITIAL_WINDOW && l.elsewhere <= INITIAL_WINDOW + StreamOf(l, 0).repeated
  {
    hide LinkConserved, LinkRun, NewLink;
    NewLinkConserved(f);
    LinkRunConserved(NewLink(f), events);
    LinkBounds(LinkRun(NewLink(f), events));
  }

  lemma LinkBounds(l: Link)
    requires LinkConserved(l)
    ensures StreamOf(l, 0).sent <= INITIAL_WINDOW && l.elsewhere <= INITIAL_WINDOW + StreamOf(l, 0).repeated
  {
  }

  /** One packet on stream 0 arrives twice and is announced for: the other streams get past the initial window, up
      to the bound. */
  lemma CopyLifts(f: Flow) returns (events: seq<(nat, Event)>)
    requires IsFresh(f)
    ensures var l := LinkRun(NewLink(f), events);
      l.elsewhere == 98304 == INITIAL_WINDOW + StreamOf(l, 0).repeated
  {
    hide LinkRun, Sum, Drop;
    var l := NewLink(f);
    var l1 := LinkAfter(l, 0, WantSend(32768));
    var l2 := LinkAfter(l1, 0, CopyArrives(0));
    DropOnly(32768);
    var l3 := LinkAfter(l2, 0, DataArrives(0));
    var l4 := LinkAfter(l3, 0, Consume(65536));
    var l5 := LinkAfter(l4, 0, Announce);
    DropOnly(65536);
    var l6 := LinkAfter(l5, 0, CreditArrives(0));
    assert l6.conn == 98304 && l6.elsewhere == 0 && 1 !in l6.streams && 2 !in l6.streams;
    var l7 := LinkAfter(l6, 1, WantSend(65536));
    var l8 := LinkAfter(l7, 2, WantSend(32768));
    assert l8.elsewhere == 98304 && l8.streams[0].repeated == 32768;
    events := [];
    LinkNone(l8);
    events := LinkHead(l7, 2, WantSend(32768), events);
    events := LinkHead(l6, 1, WantSend(65536), events);
    events := LinkHead(l5, 0, CreditArrives(0), events);
    events := LinkHead(l4, 0, Announce, events);
    events := LinkHead(l3, 0, Consume(65536), events);
    events := LinkHead(l2, 0, DataArrives(0), events);
    events := LinkHead(l1, 0, CopyArrives(0), events);
    events := LinkHead(l, 0, WantSend(32768), events);
  }

  lemma DropOnly(n: nat)
    ensures Drop([n], 0) == []
  {
  }

  lemma LinkNone(l: Link)
    ensures LinkRun(l, []) == l
  {
  }

  lemma LinkHead(l: Link, id: nat, e: Event, rest: seq<(nat, Event)>) returns (events: seq<(nat, Event)>)
    requires Possible(StreamOf(l, id), e) && Accepted(StreamOf(l, id), e)
    ensures LinkRun(l, events) == LinkRun(LinkAfter(l, id, e), rest)
  {
    events := [(id, e)] + rest;
    assert events[1..] == rest;
  }
}
