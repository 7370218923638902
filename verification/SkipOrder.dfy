/** Heights in a skip list: which node follows which at each level. */
module SkipOrder {

  /** The first position at or after q whose height exceeds i, or |hs| if there is none. */
  function NextFrom(hs: seq<nat>, q: nat, i: nat): (r: nat)
    requires q <= |hs|
    ensures q <= r <= |hs|
    ensures r < |hs| ==> hs[r] > i
    ensures forall x :: q <= x < r ==> hs[x] <= i
    decreases |hs| - q
  {
    if q == |hs| then q else if hs[q] > i then q else NextFrom(hs, q + 1, i)
  }

  /** The position that position p points to at level i. */
  function Next(hs: seq<nat>, p: nat, i: nat): nat
    requires p < |hs|
  {
    NextFrom(hs, p + 1, i)
  }

  lemma NextIs(hs: seq<nat>, q: nat, i: nat, r: nat)
    requires q <= r <= |hs| && (r < |hs| ==> hs[r] > i)
    requires forall x :: q <= x < r ==> hs[x] <= i
    ensures NextFrom(hs, q, i) == r
  {
  }

  function Insert<T>(s: seq<T>, pos: nat, x: T): seq<T>
    requires pos <= |s|
  {
    s[..pos] + [x] + s[pos..]
  }

  /** A new node of height h at pos: pointers that crossed pos at a level below h now stop there, the
      others still reach the node they reached. */
  lemma NextInsert(hs: seq<nat>, pos: nat, h: nat, p: nat, i: nat)
    requires p < pos <= |hs|
    ensures var q := Next(hs, p, i);
      Next(Insert(hs, pos, h), p, i) == if q < pos then q else if h > i then pos else q + 1
  {
    var hs' := Insert(hs, pos, h);
    var q := Next(hs, p, i);
    assert forall x :: 0 <= x < pos ==> hs'[x] == hs[x];
    assert forall x :: pos < x < |hs'| ==> hs'[x] == hs[x - 1];
    NextIs(hs', p + 1, i, if q < pos then q else if h > i then pos else q + 1);
  }

  lemma NextShift(hs: seq<nat>, pos: nat, h: nat, p: nat, i: nat)
    requires pos <= p <= |hs|
    ensures NextFrom(Insert(hs, pos, h), p + 1, i) == NextFrom(hs, p, i) + 1
  {
    var hs' := Insert(hs, pos, h);
    assert forall x :: pos < x < |hs'| ==> hs'[x] == hs[x - 1];
    NextIs(hs', p + 1, i, NextFrom(hs, p, i) + 1);
  }
}
