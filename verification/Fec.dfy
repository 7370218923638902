/** XOR parity over groups of packets: fec.rs. */
module Fec {
  import opened Keys
  import opened Collections
  import opened Bytes

  function Longest(ps: seq<seq<byte>>): nat {
    if ps == [] then 0
    else
      var l := Longest(ps[..|ps| - 1]);
      if |ps[|ps| - 1]| > l then |ps[|ps| - 1]| else l
  }

  /** Byte i of a packet, zero beyond its end. */
  function At(p: seq<byte>, i: nat): byte {
    if i < |p| then p[i] else 0
  }

  /** Exclusive or of byte i of all packets. */
  function ParityAt(ps: seq<seq<byte>>, i: nat): byte {
    if ps == [] then 0 else Xor(ParityAt(ps[..|ps| - 1], i), At(ps[|ps| - 1], i))
  }

  function Parity(ps: seq<seq<byte>>): (r: seq<byte>)
    ensures |r| == Longest(ps)
  {
    seq(Longest(ps), i requires i >= 0 => ParityAt(ps, i))
  }

  function Padded(p: seq<byte>, n: nat): seq<byte> {
    seq(n, i requires i >= 0 => At(p, i))
  }

  lemma {:induction false} LongestCovers(ps: seq<seq<byte>>, k: nat)
    requires k < |ps|
    ensures |ps[k]| <= Longest(ps)
  {
    if k < |ps| - 1 {
      LongestCovers(ps[..|ps| - 1], k);
    }
  }

  /** No packet is longer, and one is as long. */
  lemma {:induction false} LongestReached(ps: seq<seq<byte>>)
    ensures if ps == [] then Longest(ps) == 0 else exists k :: 0 <= k < |ps| && |ps[k]| == Longest(ps)
  {
    if |ps| > 1 {
      LongestReached(ps[..|ps| - 1]);
      var k :| 0 <= k < |ps| - 1 && |ps[..|ps| - 1][k]| == Longest(ps[..|ps| - 1]);
      assert |ps[k]| == Longest(ps[..|ps| - 1]);
    } else if |ps| == 1 {
      assert |ps[0]| == Longest(ps);
    }
  }

  lemma ParityMore(ps: seq<seq<byte>>, k: nat, i: nat)
    requires k < |ps|
    ensures ParityAt(ps[..k + 1], i) == Xor(ParityAt(ps[..k], i), At(ps[k], i))
  {
    assert ps[..k + 1][..k] == ps[..k];
  }

  class FecEncoder {
    const groupSize: nat
    var buffer: seq<seq<byte>>

    constructor (groupSize: nat)
      ensures this.groupSize == groupSize && buffer == []
    {
      this.groupSize, buffer := groupSize, [];
    }

    /** Collects a packet; hands out the parity of the group once it is full. */
    method Feed(data: seq<byte>) returns (r: Option<seq<byte>>)
      modifies this
      ensures if |old(buffer)| + 1 >= groupSize
        then r == Some(Parity(old(buffer) + [data])) && buffer == []
        else r == None && buffer == old(buffer) + [data]
    {
      buffer := buffer + [data];
      if |buffer| >= groupSize {
        var parity := ComputeParity();
        buffer := [];
        return Some(parity);
      }
      r := None;
    }

    /** The parity of a group that is not full. */
    method Flush() returns (r: Option<seq<byte>>)
      modifies this
      ensures buffer == [] && r == if old(buffer) == [] then None else Some(Parity(old(buffer)))
    {
      if |buffer| == 0 {
        return None;
      }
      var parity := ComputeParity();
      buffer := [];
      r := Some(parity);
    }

    method ComputeParity() returns (r: seq<byte>)
      ensures r == Parity(buffer)
    {
      hide Xor;
      var len := 0;
      for k := 0 to |buffer|
        invariant len == Longest(buffer[..k])
      {
        assert buffer[..k + 1][..k] == buffer[..k];
        if |buffer[k]| > len {
          len := |buffer[k]|;
        }
      }
      assert buffer[..|buffer|] == buffer;
      var parity := new byte[len](_ => 0);
      for k := 0 to |buffer|
        invariant forall i :: 0 <= i < len ==> parity[i] == ParityAt(buffer[..k], i)
      {
        var packet := buffer[k];
        LongestCovers(buffer, k);
        for i := 0 to |packet|
          invariant forall j :: 0 <= j < i ==> parity[j] == ParityAt(buffer[..k + 1], j)
          invariant forall j :: i <= j < len ==> parity[j] == ParityAt(buffer[..k], j)
        {
          ParityMore(buffer, k, i);
          parity[i] := Xor(parity[i], packet[i]);
        }
        forall j | |packet| <= j < len
          ensures parity[j] == ParityAt(buffer[..k + 1], j)
        {
          ParityMore(buffer, k, j);
          XorZero(parity[j]);
        }
      }
      r := parity[..];
    }
  }

  datatype FecResult = Complete | Recovered(slot: nat, data: seq<byte>) | Unrecoverable

  type Slots = seq<Option<seq<byte>>>

  ghost function Missing(received: Slots): set<nat> {
    set i: nat | i < |received| && received[i].None?
  }

  /** Exclusive or, at byte j, of the packets in the first n slots and the start value b. */
  function Fold(b: byte, received: Slots, n: nat, j: nat): byte
    requires n <= |received|
  {
    if n == 0 then b
    else
      var rest := Fold(b, received, n - 1, j);
      match received[n - 1]
      case None => rest
      case Some(p) => Xor(rest, At(p, j))
  }

  class FecDecoder {
    const groupSize: nat
    var received: Slots
    var parity: Option<seq<byte>>

    predicate Valid()
      reads this
    {
      |received| == groupSize
    }

    constructor (groupSize: nat)
      ensures Valid() && this.groupSize == groupSize && parity == None
      ensures forall i :: 0 <= i < groupSize ==> received[i] == None
    {
      this.groupSize, received, parity := groupSize, seq(groupSize, _ => None), None;
    }

    method ReceiveData(slot: nat, data: seq<byte>)
      requires Valid()
      modifies this`received
      ensures Valid() && received == if slot < groupSize then old(received)[slot := Some(data)] else old(received)
    {
      if slot < groupSize {
        received := received[slot := Some(data)];
      }
    }

    method ReceiveParity(p: seq<byte>)
      requires Valid()
      modifies this`parity
      ensures Valid() && parity == Some(p)
    {
      parity := Some(p);
    }

    /** Nothing to do without a missing slot; with one, and the parity, the exclusive or of all the rest. */
    method Recover() returns (r: FecResult)
      requires Valid()
      ensures r == Complete <==> Missing(received) == {}
      ensures r == Unrecoverable <==>
        |Missing(received)| > 1 || (|Missing(received)| == 1 && parity.None?)
      ensures r.Recovered? ==> Missing(received) == {r.slot} && parity.Some? && |r.data| == |parity.value|
      ensures r.Recovered? ==>
        forall j :: 0 <= j < |r.data| ==> r.data[j] == Fold(parity.value[j], received, groupSize, j)
    {
      hide Xor;
      var missing: seq<nat> := [];
      for i := 0 to groupSize
        invariant forall k :: k in missing <==> 0 <= k < i && received[k].None?
        invariant Ascending(missing) && forall k :: 0 <= k < |missing| ==> missing[k] < i
      {
        if received[i].None? {
          missing := missing + [i];
        }
      }
      MissingCount(received, missing);
      if |missing| == 0 {
        return Complete;
      }
      if |missing| > 1 || parity.None? {
        return Unrecoverable;
      }
      var lostSlot, len := missing[0], |parity.value|;
      var p := parity.value;
      var recovered := new byte[len](j requires 0 <= j < len => p[j]);
      for i := 0 to groupSize
        invariant forall j :: 0 <= j < len ==> recovered[j] == Fold(parity.value[j], received, i, j)
      {
        if i == lostSlot {
          continue;
        }
        var data := received[i].value;
        for j := 0 to |data|
          invariant forall k :: 0 <= k < len ==>
            recovered[k] == Fold(parity.value[k], received, if k < j then i + 1 else i, k)
        {
          if j < len {
            recovered[j] := Xor(recovered[j], data[j]);
          }
        }
        forall k | 0 <= k < len
          ensures recovered[k] == Fold(parity.value[k], received, i + 1, k)
        {
          if k >= |data| {
            XorZero(recovered[k]);
          }
        }
      }
      r := Recovered(lostSlot, recovered[..]);
    }

    method Reset()
      requires Valid()
      modifies this
      ensures Valid() && parity == None && forall i :: 0 <= i < groupSize ==> received[i] == None
    {
      received := seq(groupSize, _ => None);
      parity := None;
    }
  }

  lemma MissingCount(received: Slots, missing: seq<nat>)
    requires forall k :: k in missing <==> 0 <= k < |received| && received[k].None?
    requires Ascending(missing)
    ensures |Missing(received)| == |missing| && (|missing| == 1 ==> Missing(received) == {missing[0]})
    ensures |missing| == 0 <==> Missing(received) == {}
  {
    assert Missing(received) == SetOf(missing);
    CountDistinct(missing);
    if |missing| == 1 {
      assert missing == [missing[0]];
    }
    if |missing| > 0 {
      assert missing[0] in missing;
    }
  }

  // ---------------------------------------------------------------------------------------------

  /** What the decoder holds when the packets of a group arrived, all but one. */
  function AllBut(ps: seq<seq<byte>>, lost: nat): Slots {
    seq(|ps|, i requires 0 <= i < |ps| => if i == lost then None else Some(ps[i]))
  }

  /** Folding the received packets into b undoes their part in it. */
  lemma {:induction false} FoldAllBut(ps: seq<seq<byte>>, lost: nat, n: nat, j: nat, b: byte)
    requires n <= |ps|
    ensures Fold(b, AllBut(ps, lost), n, j) ==
      Xor(b, if lost < n then Xor(ParityAt(ps[..n], j), At(ps[lost], j)) else ParityAt(ps[..n], j))
  {
    hide Xor;
    if n == 0 {
      XorZero(b);
    } else {
      FoldAllBut(ps, lost, n - 1, j, b);
      ParityMore(ps, n - 1, j);
      var x, p := At(ps[n - 1], j), ParityAt(ps[..n - 1], j);
      if lost == n - 1 {
        XorLaws(p, x, x);
      } else if lost < n - 1 {
        var l := At(ps[lost], j);
        XorLaws(b, Xor(p, l), x);
        XorLaws(p, l, x);
        XorLaws(l, x, x);
        XorLaws(p, x, l);
      } else {
        XorLaws(b, p, x);
      }
    }
  }

  /** Whichever packet of a group is lost, whatever the lengths, the others and the parity give it back,
      padded with zeros to the longest of the group. */
  lemma RecoversAny(ps: seq<seq<byte>>, lost: nat, data: seq<byte>)
    requires lost < |ps| && |data| == Longest(ps)
    requires forall j :: 0 <= j < |data| ==> data[j] == Fold(Parity(ps)[j], AllBut(ps, lost), |ps|, j)
    ensures Missing(AllBut(ps, lost)) == {lost}
    ensures data == Padded(ps[lost], Longest(ps))
    ensures data == ps[lost] <==> |ps[lost]| == Longest(ps)
  {
    hide Xor, Fold, ParityAt, Longest;
    assert ps[..|ps|] == ps;
    forall j | 0 <= j < |data|
      ensures data[j] == At(ps[lost], j)
    {
      FoldAllBut(ps, lost, |ps|, j, Parity(ps)[j]);
      UndoParity(ParityAt(ps, j), At(ps[lost], j));
    }
    assert data == Padded(ps[lost], Longest(ps));
    LongestCovers(ps, lost);
  }

  lemma UndoParity(p: byte, x: byte)
    ensures Xor(p, Xor(p, x)) == x
  {
    XorLaws(p, p, x);
    XorZero(p);
    XorZero(x);
  }

  /** A group through the encoder, one packet lost, the rest and the parity through the decoder. */
  method LoseOne(ps: seq<seq<byte>>, lost: nat) returns (r: FecResult)
    requires lost < |ps|
    ensures r == Recovered(lost, Padded(ps[lost], Longest(ps)))
  {
    var enc := new FecEncoder(|ps|);
    var dec := new FecDecoder(|ps|);
    var parity := None;
    for i := 0 to |ps|
      invariant fresh(enc) && fresh(dec) && dec.Valid() && enc.groupSize == |ps| == dec.groupSize
      invariant i < |ps| ==> enc.buffer == ps[..i]
      invariant i == |ps| ==> parity == Some(Parity(ps))
      invariant forall k :: 0 <= k < |ps| ==> dec.received[k] == if k < i && k != lost then Some(ps[k]) else None
    {
      parity := enc.Feed(ps[i]);
      assert ps[..i] + [ps[i]] == ps[..i + 1] && ps[..|ps|] == ps;
      if i != lost {
        dec.ReceiveData(i, ps[i]);
      }
    }
    dec.ReceiveParity(parity.value);
    assert dec.received == AllBut(ps, lost);
    r := dec.Recover();
    MissingOne(ps, lost);
    RecoversAny(ps, lost, r.data);
  }

  lemma MissingOne(ps: seq<seq<byte>>, lost: nat)
    requires lost < |ps|
    ensures Missing(AllBut(ps, lost)) == {lost}
  {
  }

  /** A started group flushed before it is full, all its packets and the parity received. The decoder takes every
      slot that was never used for a loss: with one such slot it invents a packet of zeros, with more it gives
      up, and nothing was lost. */
  method FlushShort(ps: seq<seq<byte>>, groupSize: nat) returns (r: FecResult)
    requires 0 < |ps| < groupSize
    ensures r.Recovered? <==> |ps| == groupSize - 1
    ensures r.Recovered? ==> r == Recovered(|ps|, Padded([], Longest(ps)))
    ensures !r.Recovered? ==> r == Unrecoverable
  {
    hide Xor, Fold, ParityAt, Longest;
    var enc := new FecEncoder(groupSize);
    var dec := new FecDecoder(groupSize);
    for i := 0 to |ps|
      invariant fresh(enc) && fresh(dec) && dec.Valid() && enc.groupSize == groupSize == dec.groupSize
      invariant enc.buffer == ps[..i]
      invariant forall k :: 0 <= k < groupSize ==> dec.received[k] == if k < i then Some(ps[k]) else None
    {
      var parity := enc.Feed(ps[i]);
      assert ps[..i] + [ps[i]] == ps[..i + 1];
      dec.ReceiveData(i, ps[i]);
    }
    assert ps[..|ps|] == ps;
    var parity := enc.Flush();
    dec.ReceiveParity(parity.value);
    r := dec.Recover();
    ghost var slots := dec.received;
    if |ps| == groupSize - 1 {
      assert slots == AllBut(ps + [[]], |ps|);
      Invented(ps);
      assert r.data == Padded([], Longest(ps));
    } else {
      assert {|ps|, |ps| + 1} <= Missing(slots);
    }
  }

  /** The exclusive or of the parity and all the packets is zero everywhere. */
  lemma Invented(ps: seq<seq<byte>>)
    ensures var slots: Slots := AllBut(ps + [[]], |ps|);
      Missing(slots) == {|ps|}
      && forall j :: 0 <= j < Longest(ps) ==> Fold(Parity(ps)[j], slots, |slots|, j) == 0
  {
    hide Xor, Fold, ParityAt, Longest;
    MissingOne(ps + [[]], |ps|);
    forall j | 0 <= j < Longest(ps)
      ensures Fold(Parity(ps)[j], AllBut(ps + [[]], |ps|), |ps| + 1, j) == 0
    {
      InventedAt(ps, j);
    }
  }

  lemma {:induction false} InventedAt(ps: seq<seq<byte>>, j: nat)
    ensures Fold(ParityAt(ps, j), AllBut(ps + [[]], |ps|), |ps| + 1, j) == 0
  {
    hide Xor, Fold;
    var qs := ps + [[]];
    FoldAllBut(qs, |ps|, |qs|, j, ParityAt(ps, j));
    assert qs[..|qs|] == qs;
    ParityMore(qs, |ps|, j);
    assert qs[..|ps|] == ps;
    XorZero(ParityAt(ps, j));
  }
}
