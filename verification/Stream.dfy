/** The ordered byte stream of connection.rs: offsets on the sending side, reordering on the receiving side. */
module Streams {
  import opened Keys

  /** The receiving half: the next offset to deliver, what arrived too early, what was delivered. */
  datatype Inbox = Inbox(next: nat, buf: map<nat, seq<byte>>, out: seq<seq<byte>>)

  const EMPTY := Inbox(0, map[], [])

  /** Deliver from the buffer for as long as the next offset is there. */
  function Flush(b: Inbox): Inbox
    decreases |b.buf|
  {
    if b.next in b.buf then
      var chunk := b.buf[b.next];
      assert |b.buf - {b.next}| < |b.buf| by { Smaller(b.buf, b.next); }
      Flush(Inbox((b.next + |chunk|) % U32, b.buf - {b.next}, b.out + [chunk]))
    else b
  }

  lemma Smaller(m: map<nat, seq<byte>>, k: nat)
    requires k in m
    ensures |m - {k}| < |m|
  {
    assert (m - {k}).Keys == m.Keys - {k};
  }

  function Received(b: Inbox, offset: nat, data: seq<byte>): Inbox {
    if offset == b.next then Flush(Inbox((b.next + |data|) % U32, b.buf, b.out + [data]))
    else if offset > b.next then b.(buf := b.buf[offset := data])
    else b
  }

  function Flatten(cs: seq<seq<byte>>): seq<byte> {
    if cs == [] then [] else Flatten(cs[..|cs| - 1]) + cs[|cs| - 1]
  }

  /** Where chunk i of a stream starts. */
  function Offset(cs: seq<seq<byte>>, i: nat): nat
    requires i <= |cs|
  {
    if i == 0 then 0 else Offset(cs, i - 1) + |cs[i - 1]|
  }

  function Total(cs: seq<seq<byte>>): nat {
    Offset(cs, |cs|)
  }

  class Stream {
    var id: nat
    var ordered: bool
    var reliable: bool
    var nextExpectedOffset: nat
    var reorderBuf: map<nat, seq<byte>>
    var recvBuf: seq<seq<byte>>
    var sendOffset: nat
    /** What the application has already taken. */
    ghost var drained: seq<seq<byte>>

    ghost function View(): Inbox
      reads this
    {
      Inbox(nextExpectedOffset, reorderBuf, drained + recvBuf)
    }

    constructor (id: nat, ordered: bool, reliable: bool)
      ensures this.id == id && this.ordered == ordered && this.reliable == reliable
      ensures View() == EMPTY && sendOffset == 0
      ensures recvBuf == [] && drained == []
    {
      this.id, this.ordered, this.reliable := id, ordered, reliable;
      nextExpectedOffset, reorderBuf, recvBuf, sendOffset, drained := 0, map[], [], 0, [];
    }

    method Receive(offset: nat, data: seq<byte>)
      modifies this`nextExpectedOffset, this`reorderBuf, this`recvBuf
      ensures ordered ==> View() == Received(old(View()), offset, data)
      ensures !ordered ==> View() == old(View()).(out := old(View()).out + [data])
    {
      if ordered {
        if offset == nextExpectedOffset {
          nextExpectedOffset := (nextExpectedOffset + |data|) % U32;
          recvBuf := recvBuf + [data];
          assert View().out == old(View()).out + [data];
          ghost var start := View();
          while nextExpectedOffset in reorderBuf
            invariant Flush(View()) == Flush(start)
            decreases |reorderBuf|
          {
            ghost var before := View();
            var chunk := reorderBuf[nextExpectedOffset];
            Smaller(reorderBuf, nextExpectedOffset);
            reorderBuf := reorderBuf - {nextExpectedOffset};
            nextExpectedOffset := (nextExpectedOffset + |chunk|) % U32;
            recvBuf := recvBuf + [chunk];
            assert View().out == before.out + [chunk];
          }
        } else if offset > nextExpectedOffset {
          reorderBuf := reorderBuf[offset := data];
        }
      } else {
        recvBuf := recvBuf + [data];
        assert View().out == old(View()).out + [data];
      }
    }

    /** Hands everything received to the application. */
    method Drain() returns (data: seq<seq<byte>>)
      modifies this`recvBuf, this`drained
      ensures data == old(recvBuf) && recvBuf == [] && drained == old(drained) + data && View() == old(View())
    {
      data := recvBuf;
      drained := drained + data;
      recvBuf := [];
    }

    /** The offset for a chunk of len bytes: when the counter stands at the end of the chunks sent so far, it is
        where this one starts, and the counter then stands at the end of all of them. */
    method TakeOffset(len: nat) returns (off: nat)
      modifies this`sendOffset
      ensures off == old(sendOffset) && sendOffset == (old(sendOffset) + len) % 0x1_0000_0000
      ensures forall cs: seq<seq<byte>>, c: seq<byte> {:trigger Offset(cs + [c], |cs|)} ::
        old(sendOffset) == Total(cs) % U32 && |c| == len ==>
          off == Offset(cs + [c], |cs|) % U32 && sendOffset == Total(cs + [c]) % U32
    {
      hide Offset, Total;
      forall cs: seq<seq<byte>>, c: seq<byte> | old(sendOffset) == Total(cs) % U32 && |c| == len
        ensures sendOffset == Offset(cs + [c], |cs|) % U32
        ensures (sendOffset + len) % U32 == Total(cs + [c]) % U32
      {
        NextOffset(cs, c);
      }
      off := sendOffset;
      sendOffset := (sendOffset + len) % U32;
    }
  }

  // ---------------------------------------------------------------------------------------------
  // Chunks and offsets

  /** Where one more chunk starts, and where the chunks end with it. */
  lemma NextOffset(cs: seq<seq<byte>>, c: seq<byte>)
    ensures Offset(cs + [c], |cs|) == Total(cs)
    ensures (Total(cs) % U32 + |c|) % U32 == Total(cs + [c]) % U32
  {
    TotalGrows(cs, c);
    ModSum(Total(cs), |c|);
  }

  lemma TotalGrows(cs: seq<seq<byte>>, c: seq<byte>)
    ensures Offset(cs + [c], |cs|) == Total(cs) && Total(cs + [c]) == Total(cs) + |c|
  {
    OffsetPrefix(cs, [c], |cs|);
  }

  lemma ModSum(x: nat, y: nat)
    ensures (x % U32 + y) % U32 == (x + y) % U32
  {
  }

  lemma {:induction false} OffsetUp(cs: seq<seq<byte>>, i: nat, j: nat)
    requires i <= j <= |cs|
    ensures Offset(cs, i) <= Offset(cs, j)
    decreases j
  {
    if i < j {
      OffsetUp(cs, i, j - 1);
    }
  }

  lemma OffsetStep(cs: seq<seq<byte>>, i: nat)
    requires i < |cs|
    ensures Offset(cs, i + 1) == Offset(cs, i) + |cs[i]|
  {
  }

  lemma {:induction false} OffsetPrefix(cs: seq<seq<byte>>, more: seq<seq<byte>>, i: nat)
    requires i <= |cs|
    ensures Offset(cs + more, i) == Offset(cs, i)
  {
    if i > 0 {
      OffsetPrefix(cs, more, i - 1);
    }
  }

  lemma {:induction false} FlattenSize(cs: seq<seq<byte>>)
    ensures |Flatten(cs)| == Total(cs)
  {
    if cs != [] {
      var init := cs[..|cs| - 1];
      FlattenSize(init);
      OffsetPrefix(init, [cs[|cs| - 1]], |init|);
      assert cs == init + [cs[|cs| - 1]];
    }
  }

  /** Chunk i sits at its offset in the whole. */
  lemma {:induction false} ChunkAt(cs: seq<seq<byte>>, i: nat)
    requires i < |cs|
    ensures Offset(cs, i) + |cs[i]| == Offset(cs, i + 1) <= |Flatten(cs)|
    ensures Flatten(cs)[Offset(cs, i)..Offset(cs, i + 1)] == cs[i]
  {
    var init, last := cs[..|cs| - 1], cs[|cs| - 1];
    assert cs == init + [last];
    FlattenSize(cs);
    FlattenSize(init);
    OffsetUp(cs, i + 1, |cs|);
    if i < |init| {
      ChunkAt(init, i);
      OffsetPrefix(init, [last], i);
      OffsetPrefix(init, [last], i + 1);
    } else {
      OffsetPrefix(init, [last], i);
    }
  }

  /** An empty chunk with bytes of the stream on both sides of it. */
  ghost predicate InnerEmpty(cs: seq<seq<byte>>, i: nat) {
    i < |cs| && cs[i] == [] && 0 < Offset(cs, i) < Total(cs)
  }

  ghost predicate NoInnerEmpty(cs: seq<seq<byte>>) {
    forall i: nat :: !InnerEmpty(cs, i)
  }

  /** data is what the sender sent at that offset. */
  ghost predicate Piece(cs: seq<seq<byte>>, offset: nat, data: seq<byte>) {
    exists i: nat :: PieceAt(cs, i, offset, data)
  }

  ghost predicate PieceAt(cs: seq<seq<byte>>, i: nat, offset: nat, data: seq<byte>) {
    i < |cs| && Offset(cs, i) == offset && cs[i] == data
  }

  /** Two different chunks share an offset only before or after all bytes. */
  lemma OnePiece(cs: seq<seq<byte>>, i: nat, j: nat)
    requires i < |cs| && j < |cs| && NoInnerEmpty(cs) && Offset(cs, i) == Offset(cs, j) > 0
    ensures cs[i] == cs[j]
  {
    hide Offset, NoInnerEmpty;
    if i < j {
      OneAfter(cs, i, j);
    } else if j < i {
      OneAfter(cs, j, i);
    }
  }

  lemma OneAfter(cs: seq<seq<byte>>, i: nat, j: nat)
    requires i < j < |cs| && NoInnerEmpty(cs) && Offset(cs, i) == Offset(cs, j) > 0
    ensures cs[i] == [] && cs[j] == []
  {
    hide Offset;
    OffsetStep(cs, i);
    OffsetUp(cs, i + 1, j);
    OffsetStep(cs, j);
    OffsetUp(cs, j + 1, |cs|);
    assert !InnerEmpty(cs, i);
  }

  /** No chunk starts inside another. */
  lemma NoneInside(cs: seq<seq<byte>>, i: nat, j: nat)
    requires i < |cs| && j <= |cs|
    ensures Offset(cs, j) <= Offset(cs, i) || Offset(cs, i) + |cs[i]| <= Offset(cs, j)
  {
    if j <= i {
      OffsetUp(cs, j, i);
    } else {
      OffsetUp(cs, i + 1, j);
    }
  }

  // ---------------------------------------------------------------------------------------------
  // What the receiving side keeps

  /** Delivered is a prefix of what was sent, up to the next offset, where some chunk starts or the stream
      ends; the buffer holds later pieces of the stream. */
  ghost predicate Sound(b: Inbox, cs: seq<seq<byte>>) {
    && Settled(b, cs)
    && b.next !in b.buf
  }

  /** The same in the middle of a flush. */
  ghost predicate Settled(b: Inbox, cs: seq<seq<byte>>) {
    && b.next <= Total(cs) && |Flatten(cs)| == Total(cs) && Flatten(b.out) == Flatten(cs)[..b.next]
    && (exists i: nat :: i <= |cs| && StartsAt(cs, i, b.next))
    && forall o :: o in b.buf ==> o >= b.next && Piece(cs, o, b.buf[o])
  }

  ghost predicate StartsAt(cs: seq<seq<byte>>, i: nat, offset: nat)
    requires i <= |cs|
  {
    Offset(cs, i) == offset
  }

  /** Chunk i has been delivered or waits in the buffer. */
  ghost predicate Held(b: Inbox, cs: seq<seq<byte>>, i: nat)
    requires i < |cs|
  {
    || Offset(cs, i + 1) <= b.next
    || (Offset(cs, i) in b.buf && b.buf[Offset(cs, i)] == cs[i])
  }

  /** Delivering the piece at the next offset. */
  lemma DeliverSettled(b: Inbox, cs: seq<seq<byte>>, i: nat)
    requires Settled(b, cs) && Total(cs) < U32 && i < |cs| && Offset(cs, i) == b.next
    requires b.next in b.buf ==> b.buf[b.next] == cs[i]
    ensures var b' := Inbox((b.next + |cs[i]|) % U32, b.buf - {b.next}, b.out + [cs[i]]);
      && Settled(b', cs) && b'.next == Offset(cs, i + 1)
      && forall j: nat :: j < |cs| && Held(b, cs, j) ==> Held(b', cs, j)
  {
    var next' := b.next + |cs[i]|;
    var b' := Inbox(next' % U32, b.buf - {b.next}, b.out + [cs[i]]);
    ChunkAt(cs, i);
    assert StartsAt(cs, i + 1, next');
    assert b'.out[..|b.out|] == b.out;
    assert Flatten(cs)[..next'] == Flatten(cs)[..b.next] + Flatten(cs)[b.next..next'];
    forall o | o in b'.buf
      ensures o >= next'
    {
      assert Piece(cs, o, b.buf[o]);
      var j: nat :| PieceAt(cs, j, o, b.buf[o]);
      NoneInside(cs, i, j);
    }
    forall j: nat | j < |cs| && Held(b, cs, j)
      ensures Held(b', cs, j)
    {
      NoneInside(cs, j, i + 1);
    }
  }

  lemma {:induction false} FlushSound(b: Inbox, cs: seq<seq<byte>>)
    requires Settled(b, cs) && Total(cs) < U32
    ensures Sound(Flush(b), cs) && Flush(b).next >= b.next
    ensures forall j: nat :: j < |cs| && Held(b, cs, j) ==> Held(Flush(b), cs, j)
    decreases |b.buf|
  {
    hide Offset, Settled, Held;
    if b.next in b.buf {
      var i := NextInBuffer(b, cs);
      DeliverSettled(b, cs, i);
      Smaller(b.buf, b.next);
      var b' := Inbox((b.next + |cs[i]|) % U32, b.buf - {b.next}, b.out + [cs[i]]);
      FlushSound(b', cs);
      assert Flush(b) == Flush(b');
      OffsetUp(cs, i, i + 1);
    }
  }

  lemma NextInBuffer(b: Inbox, cs: seq<seq<byte>>) returns (i: nat)
    requires Settled(b, cs) && b.next in b.buf
    ensures i < |cs| && Offset(cs, i) == b.next && cs[i] == b.buf[b.next]
  {
    assert Piece(cs, b.next, b.buf[b.next]);
    i :| PieceAt(cs, i, b.next, b.buf[b.next]);
  }

  /** The step from b to b' by chunk i: the inbox stays sound, loses nothing it held, and holds the chunk. */
  ghost predicate Progress(b: Inbox, b': Inbox, cs: seq<seq<byte>>, i: nat)
    requires i < |cs|
  {
    && Sound(b', cs) && b'.next >= b.next && Held(b', cs, i)
    && forall j: nat :: j < |cs| && Held(b, cs, j) ==> Held(b', cs, j)
  }

  /** Receiving any chunk that was sent, at any time, makes progress. */
  lemma ReceiveSound(b: Inbox, cs: seq<seq<byte>>, i: nat)
    requires Sound(b, cs) && Total(cs) < U32 && NoInnerEmpty(cs) && i < |cs|
    ensures Progress(b, Received(b, Offset(cs, i), cs[i]), cs, i)
  {
    hide Offset, Flush, Settled, Progress, NoInnerEmpty;
    if Offset(cs, i) == b.next {
      DeliverProgress(b, cs, i);
    } else if Offset(cs, i) > b.next {
      BufferProgress(b, cs, i);
    } else {
      LateProgress(b, cs, i);
    }
  }

  lemma LateProgress(b: Inbox, cs: seq<seq<byte>>, i: nat)
    requires Sound(b, cs) && i < |cs| && Offset(cs, i) < b.next
    ensures Progress(b, b, cs, i)
  {
    StartsAfter(b, cs, i);
  }

  lemma DeliverProgress(b: Inbox, cs: seq<seq<byte>>, i: nat)
    requires Sound(b, cs) && Total(cs) < U32 && i < |cs| && Offset(cs, i) == b.next
    ensures Progress(b, Flush(Inbox((b.next + |cs[i]|) % U32, b.buf, b.out + [cs[i]])), cs, i)
  {
    hide Offset, Flush, Settled;
    DeliverSettled(b, cs, i);
    assert b.buf - {b.next} == b.buf;
    var b1 := Inbox((b.next + |cs[i]|) % U32, b.buf, b.out + [cs[i]]);
    OffsetStep(cs, i);
    FlushSound(b1, cs);
  }

  lemma BufferProgress(b: Inbox, cs: seq<seq<byte>>, i: nat)
    requires Sound(b, cs) && NoInnerEmpty(cs) && i < |cs| && Offset(cs, i) > b.next
    ensures Progress(b, b.(buf := b.buf[Offset(cs, i) := cs[i]]), cs, i)
  {
    hide Offset, NoInnerEmpty;
    var o := Offset(cs, i);
    assert PieceAt(cs, i, o, cs[i]);
    var b' := b.(buf := b.buf[o := cs[i]]);
    forall j: nat | j < |cs| && Held(b, cs, j)
      ensures Held(b', cs, j)
    {
      if Offset(cs, j) == o {
        OnePiece(cs, i, j);
      }
    }
  }

  /** A chunk that starts before the next offset ends at or before it. */
  lemma StartsAfter(b: Inbox, cs: seq<seq<byte>>, i: nat)
    requires Settled(b, cs) && i < |cs| && Offset(cs, i) < b.next
    ensures Held(b, cs, i)
  {
    var k: nat :| k <= |cs| && StartsAt(cs, k, b.next);
    NoneInside(cs, i, k);
  }

  /** Nothing but a missing chunk holds delivery up. */
  lemma AllHeldDelivered(b: Inbox, cs: seq<seq<byte>>)
    requires Sound(b, cs) && forall i: nat :: i < |cs| ==> Held(b, cs, i)
    ensures b.next == Total(cs) && Flatten(b.out) == Flatten(cs)
  {
    var k: nat :| k <= |cs| && StartsAt(cs, k, b.next);
    if b.next < Total(cs) {
      var j := NextBytes(cs, k);
      NotHeld(b, cs, j);
    }
    assert Flatten(cs)[..Total(cs)] == Flatten(cs);
  }

  lemma NotHeld(b: Inbox, cs: seq<seq<byte>>, j: nat)
    requires Sound(b, cs) && j < |cs| && Offset(cs, j) == b.next && cs[j] != []
    ensures !Held(b, cs, j)
  {
    hide Settled;
    OffsetStep(cs, j);
  }

  /** The chunk with the first byte at or after a boundary before the end. */
  lemma {:induction false} NextBytes(cs: seq<seq<byte>>, k: nat) returns (j: nat)
    requires k <= |cs| && Offset(cs, k) < Total(cs)
    ensures k <= j < |cs| && Offset(cs, j) == Offset(cs, k) && cs[j] != []
    decreases |cs| - k
  {
    if cs[k] != [] {
      j := k;
    } else {
      j := NextBytes(cs, k + 1);
    }
  }

  /** Sending more does not disturb the receiving side. */
  lemma SendSound(b: Inbox, cs: seq<seq<byte>>, c: seq<byte>)
    requires Sound(b, cs)
    ensures Sound(b, cs + [c])
    ensures forall i: nat :: i < |cs| && Held(b, cs, i) ==> Held(b, cs + [c], i)
  {
    var cs' := cs + [c];
    forall i: nat | i <= |cs|
      ensures Offset(cs', i) == Offset(cs, i)
    {
      OffsetPrefix(cs, [c], i);
    }
    FlattenSize(cs');
    assert cs'[..|cs|] == cs;
    assert Flatten(cs')[..b.next] == Flatten(cs)[..b.next];
    var k: nat :| k <= |cs| && StartsAt(cs, k, b.next);
    assert StartsAt(cs', k, b.next);
    forall o | o in b.buf
      ensures Piece(cs', o, b.buf[o])
    {
      assert Piece(cs, o, b.buf[o]);
      var j: nat :| PieceAt(cs, j, o, b.buf[o]);
      assert PieceAt(cs', j, o, b.buf[o]);
    }
  }

  // ---------------------------------------------------------------------------------------------
  // Exactly which streams arrive

  /** The receiving side after the chunks named by order, in that order, repetitions included. */
  function ReceiveAll(cs: seq<seq<byte>>, order: seq<nat>): Inbox {
    if order == [] then EMPTY
    else
      var n := |order| - 1;
      var b := ReceiveAll(cs, order[..n]);
      if order[n] < |cs| then Received(b, Offset(cs, order[n]), cs[order[n]]) else b
  }

  lemma ReceiveOne(cs: seq<seq<byte>>, order: seq<nat>, i: nat)
    requires i < |cs|
    ensures ReceiveAll(cs, order + [i]) == Received(ReceiveAll(cs, order), Offset(cs, i), cs[i])
  {
    assert (order + [i])[..|order|] == order;
  }

  ghost predicate Covers(cs: seq<seq<byte>>, order: seq<nat>) {
    forall i: nat :: i < |cs| ==> i in order
  }

  /** Once every chunk has arrived, in whatever order and however often, every byte has been delivered. */
  ghost predicate AlwaysArrives(cs: seq<seq<byte>>) {
    forall order :: Covers(cs, order) ==> Flatten(ReceiveAll(cs, order).out) == Flatten(cs)
  }

  lemma EmptySound(cs: seq<seq<byte>>)
    ensures Sound(EMPTY, cs)
  {
    FlattenSize(cs);
    assert StartsAt(cs, 0, 0);
  }

  lemma {:induction false} ReceiveAllSound(cs: seq<seq<byte>>, order: seq<nat>)
    requires Total(cs) < U32 && NoInnerEmpty(cs)
    ensures Sound(ReceiveAll(cs, order), cs)
    ensures forall i: nat :: i < |cs| && i in order ==> Held(ReceiveAll(cs, order), cs, i)
  {
    EmptySound(cs);
    if order != [] {
      var n := |order| - 1;
      ReceiveAllSound(cs, order[..n]);
      assert order == order[..n] + [order[n]];
      if order[n] < |cs| {
        ReceiveSound(ReceiveAll(cs, order[..n]), cs, order[n]);
      }
    }
  }

  /** At offset o only empty chunks are to come: delivery cannot get past it. */
  ghost predicate Stuck(b: Inbox, cs: seq<seq<byte>>, o: nat) {
    && b.next <= o && |Flatten(b.out)| == b.next
    && (exists i: nat :: i <= |cs| && StartsAt(cs, i, b.next))
    && forall p :: p in b.buf ==> Piece(cs, p, b.buf[p]) && (p == o ==> b.buf[p] == [])
  }

  lemma FlattenMore(cs: seq<seq<byte>>, c: seq<byte>)
    ensures Flatten(cs + [c]) == Flatten(cs) + c
  {
    assert (cs + [c])[..|cs|] == cs;
  }

  lemma StuckAdvance(b: Inbox, cs: seq<seq<byte>>, o: nat, k: nat, i: nat)
    requires Stuck(b, cs, o) && Total(cs) < U32 && k <= |cs| && Offset(cs, k) == o
    requires i < |cs| && Offset(cs, i) == b.next && (b.next == o ==> cs[i] == [])
    ensures Stuck(Inbox((b.next + |cs[i]|) % U32, b.buf, b.out + [cs[i]]), cs, o)
    ensures Stuck(Inbox((b.next + |cs[i]|) % U32, b.buf - {b.next}, b.out + [cs[i]]), cs, o)
  {
    hide Offset, Piece, Flatten;
    var end := b.next + |cs[i]|;
    assert end <= o && end < U32 by {
      NoneInside(cs, i, k);
      OffsetUp(cs, k, |cs|);
    }
    assert StartsAt(cs, i + 1, end) by { OffsetStep(cs, i); }
    FlattenMore(b.out, cs[i]);
  }

  lemma {:induction false} StuckFlush(b: Inbox, cs: seq<seq<byte>>, o: nat, k: nat)
    requires Stuck(b, cs, o) && Total(cs) < U32 && k <= |cs| && Offset(cs, k) == o
    ensures Stuck(Flush(b), cs, o)
    decreases |b.buf|
  {
    hide Offset, Stuck;
    if b.next in b.buf {
      var i := StuckNext(b, cs, o);
      StuckAdvance(b, cs, o, k, i);
      Smaller(b.buf, b.next);
      var b' := Inbox((b.next + |cs[i]|) % U32, b.buf - {b.next}, b.out + [cs[i]]);
      StuckFlush(b', cs, o, k);
      assert Flush(b) == Flush(b');
    }
  }

  lemma StuckNext(b: Inbox, cs: seq<seq<byte>>, o: nat) returns (i: nat)
    requires Stuck(b, cs, o) && b.next in b.buf
    ensures i < |cs| && Offset(cs, i) == b.next && cs[i] == b.buf[b.next] && (b.next == o ==> cs[i] == [])
  {
    assert Piece(cs, b.next, b.buf[b.next]);
    i :| PieceAt(cs, i, b.next, b.buf[b.next]);
  }

  lemma StuckReceive(b: Inbox, cs: seq<seq<byte>>, o: nat, k: nat, i: nat)
    requires Stuck(b, cs, o) && Total(cs) < U32 && k <= |cs| && Offset(cs, k) == o
    requires i < |cs| && (Offset(cs, i) == o ==> cs[i] == [])
    ensures Stuck(Received(b, Offset(cs, i), cs[i]), cs, o)
  {
    hide Offset, Flush;
    assert PieceAt(cs, i, Offset(cs, i), cs[i]);
    if Offset(cs, i) == b.next {
      var b1 := Inbox((b.next + |cs[i]|) % U32, b.buf, b.out + [cs[i]]);
      StuckAdvance(b, cs, o, k, i);
      StuckFlush(b1, cs, o, k);
    }
  }

  /** The order that loses chunk j: j early, then the empty chunk i at the same offset, then the rest. */
  function LosingOrder(i: nat, j: nat, n: nat): seq<nat> {
    [j, i] + seq(n, x => if x == j then i else x)
  }

  lemma {:induction false} LosesFrom(cs: seq<seq<byte>>, i: nat, j: nat, n: nat)
    requires Total(cs) < U32 && InnerEmpty(cs, i) && i < j < |cs| && Offset(cs, j) == Offset(cs, i) && cs[j] != []
    requires n <= |cs|
    ensures Stuck(ReceiveAll(cs, LosingOrder(i, j, n)), cs, Offset(cs, i))
  {
    var o := Offset(cs, i);
    var order := LosingOrder(i, j, n);
    if n == 0 {
      assert StartsAt(cs, 0, 0);
      ReceiveOne(cs, [], j);
      ReceiveOne(cs, [j], i);
      assert [] + [j] == [j] && [j] + [i] == order;
      assert ReceiveAll(cs, order) == Inbox(0, map[o := cs[i]], []);
      assert PieceAt(cs, i, o, cs[i]);
    } else {
      LosesFrom(cs, i, j, n - 1);
      assert order[..|order| - 1] == LosingOrder(i, j, n - 1);
      var x := order[|order| - 1];
      if Offset(cs, x) == o && cs[x] != [] {
        SameStart(cs, x, j);
      }
      StuckReceive(ReceiveAll(cs, order[..|order| - 1]), cs, o, i, x);
    }
  }

  lemma SameStart(cs: seq<seq<byte>>, x: nat, j: nat)
    requires x < |cs| && j < |cs| && Offset(cs, x) == Offset(cs, j) && cs[x] != [] && cs[j] != []
    ensures x == j
  {
    if x < j {
      LaterStart(cs, x, j);
    } else if j < x {
      LaterStart(cs, j, x);
    }
  }

  lemma LaterStart(cs: seq<seq<byte>>, i: nat, j: nat)
    requires i < j < |cs| && cs[i] != []
    ensures Offset(cs, i) < Offset(cs, j)
  {
    hide Offset;
    OffsetStep(cs, i);
    OffsetUp(cs, i + 1, j);
  }

  /** A stream arrives whole under every order, loss and repetition exactly when it has no empty chunk
      between bytes: such a chunk can take the buffer slot of the chunk after it. */
  lemma ArrivesIff(cs: seq<seq<byte>>)
    requires Total(cs) < U32
    ensures AlwaysArrives(cs) <==> NoInnerEmpty(cs)
  {
    if NoInnerEmpty(cs) {
      forall order | Covers(cs, order)
        ensures Flatten(ReceiveAll(cs, order).out) == Flatten(cs)
      {
        ReceiveAllSound(cs, order);
        AllHeldDelivered(ReceiveAll(cs, order), cs);
      }
    } else {
      var i: nat :| InnerEmpty(cs, i);
      var j := NextBytes(cs, i);
      var order := LosingOrder(i, j, |cs|);
      LosesFrom(cs, i, j, |cs|);
      FlattenSize(cs);
      forall x: nat | x < |cs|
        ensures x in order
      {
        assert order[1] == i && order[0] == j;
        if x != j {
          assert order[x + 2] == x;
        }
      }
      assert Covers(cs, order);
    }
  }
}
