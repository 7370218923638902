/** What the local conditions on pages add up to: the shape of the whole tree, for every run. */
module TreeShape {
  import opened Keys
  import opened TreeModel
  import opened NodeSizes
  import opened BPlusTree
  import opened TreeSteps
  import opened TreeLookup
  import opened SplitLoss
  import opened TornScan
  import opened TreeRuns

  /** The leaves below a page, in the order an in-order traversal meets them. */
  ghost function LeavesUnder(t: Tree, id: PageId): seq<PageId>
    requires Placed(t) && id in t.pages
    decreases t.place[id].height
  {
    if t.pages[id].Leaf? then [id]
    else assert NodeOk(t, id); LeavesOfChildren(t, id, |t.pages[id].children|)
  }

  ghost function LeavesOfChildren(t: Tree, id: PageId, n: nat): seq<PageId>
    requires Placed(t) && id in t.pages && t.pages[id].Internal? && NodeOk(t, id) && n <= |t.pages[id].children|
    decreases t.place[id].height, n
  {
    if n == 0 then []
    else
      assert ChildAt(t, id, t.pages[id].keys, n - 1, t.pages[id].children[n - 1]);
      LeavesOfChildren(t, id, n - 1) + LeavesUnder(t, t.pages[id].children[n - 1])
  }

  /** leaves[a..b] is a stretch of the chain that covers exactly the interval [lo, hi). */
  ghost predicate Stretch(t: Tree, a: nat, b: nat, lo: real, hi: real)
    requires Chained(t)
  {
    a < b <= |t.leaves| && t.place[t.leaves[a]].lo == lo && t.place[t.leaves[b - 1]].hi == hi
  }

  /** The leaves below a page are the stretch of the chain that covers the page's interval. */
  lemma {:induction false} UnderIsStretch(t: Tree, id: PageId) returns (a: nat, b: nat)
    requires Placed(t) && Chained(t) && id in t.pages
    ensures Stretch(t, a, b, t.place[id].lo, t.place[id].hi) && LeavesUnder(t, id) == t.leaves[a..b]
    decreases t.place[id].height
  {
    hide Partitioned, Linked, Placed, NodeOk, LeavesUnder, LeavesOfChildren;
    Reached(t, id);
    InPlace(t, id);
    UnfoldUnder(t, id);
    if t.pages[id].Leaf? {
      a := PositionInChain(t, id);
      b := a + 1;
    } else {
      SomeChildren(t, id);
      a, b := ChildrenAreStretch(t, id, |t.pages[id].children|);
    }
  }

  lemma SomeChildren(t: Tree, id: PageId)
    requires Placed(t) && id in t.pages && t.pages[id].Internal? && NodeOk(t, id)
    ensures id in t.place && |t.pages[id].children| == |t.pages[id].keys| + 1
  {
  }

  lemma {:induction false} ChildrenAreStretch(t: Tree, id: PageId, n: nat) returns (a: nat, b: nat)
    requires Placed(t) && Chained(t) && id in t.pages && id in t.place && t.pages[id].Internal? && NodeOk(t, id)
    requires 0 < n <= |t.pages[id].children|
    ensures Stretch(t, a, b, t.place[id].lo, ChildHi(t.place[id], t.pages[id].keys, n - 1))
    ensures LeavesOfChildren(t, id, n) == t.leaves[a..b]
    decreases t.place[id].height, n
  {
    hide Placed, Chained, NodeOk, LeavesUnder, LeavesOfChildren;
    var ks, cs := t.pages[id].keys, t.pages[id].children;
    ChildInterval(t, id, n - 1);
    UnfoldChildren(t, id, n);
    var a', b' := UnderIsStretch(t, cs[n - 1]);
    if n == 1 {
      a, b := a', b';
    } else {
      var a0, b0 := ChildrenAreStretch(t, id, n - 1);
      StretchesMeet(t, a0, b0, a', b', t.place[id].lo, Rank(ks[n - 2]), t.place[cs[n - 1]].hi);
      a, b := a0, b';
      assert t.leaves[a0..b0] + t.leaves[b0..b'] == t.leaves[a0..b'];
    }
  }

  lemma UnfoldChildren(t: Tree, id: PageId, n: nat)
    requires Placed(t) && id in t.pages && t.pages[id].Internal? && NodeOk(t, id)
    requires 0 < n <= |t.pages[id].children| && t.pages[id].children[n - 1] in t.pages
    ensures LeavesOfChildren(t, id, n)
         == LeavesOfChildren(t, id, n - 1) + LeavesUnder(t, t.pages[id].children[n - 1])
    ensures LeavesOfChildren(t, id, 0) == []
  {
  }

  lemma StretchesMeet(t: Tree, a0: nat, b0: nat, a: nat, b: nat, lo: real, m: real, hi: real)
    requires Placed(t) && Chained(t) && Stretch(t, a0, b0, lo, m) && Stretch(t, a, b, m, hi)
    ensures b0 == a
  {
    var last := b0 - 1;
    assert NodeOk(t, t.leaves[last]) && NodeOk(t, t.leaves[a]);
    if a <= last {
      if a < last {
        LeavesAscend(t, a, last);
      }
    } else if last + 1 < a {
      assert NodeOk(t, t.leaves[last + 1]);
      LeavesAscend(t, last + 1, a);
    }
  }

  /** The next chain visits exactly the leaves of an in-order traversal, in that order. */
  lemma ChainIsInOrder(t: Tree)
    requires Placed(t) && Chained(t)
    ensures LeavesUnder(t, t.root) == t.leaves
  {
    hide LeavesUnder, LeavesOfChildren, Stretch, NodeOk, Chained;
    RootWhole(t);
    var a, b := UnderIsStretch(t, t.root);
    WholeStretch(t, a, b);
    assert t.leaves[0..|t.leaves|] == t.leaves;
  }

  lemma RootWhole(t: Tree)
    requires Placed(t)
    ensures t.root in t.pages && t.root in t.place && t.place[t.root].lo == 0.0 && t.place[t.root].hi == 1.0
  {
  }

  /** A stretch of leaves over the whole key space is the whole chain. */
  lemma WholeStretch(t: Tree, a: nat, b: nat)
    requires Placed(t) && Chained(t) && Stretch(t, a, b, 0.0, 1.0)
    ensures a == 0 && b == |t.leaves|
  {
    hide Placed, Linked, Listed, Partitioned, NodeOk;
    LeafSpan(t, 0);
    LeafSpan(t, a);
    LeafSpan(t, b - 1);
    LeafSpan(t, |t.leaves| - 1);
    if a > 0 {
      LeavesAscend(t, 0, a);
    }
    if b < |t.leaves| {
      LeavesAscend(t, b - 1, |t.leaves| - 1);
    }
  }

  /** Every leaf has an interval; the first and the last end the key space. */
  lemma LeafSpan(t: Tree, n: nat)
    requires Placed(t) && Chained(t) && n < |t.leaves|
    ensures t.leaves[n] in t.pages && t.leaves[n] in t.place && t.place[t.leaves[n]].lo < t.place[t.leaves[n]].hi
    ensures n == 0 ==> t.place[t.leaves[n]].lo == 0.0
    ensures n == |t.leaves| - 1 ==> t.place[t.leaves[n]].hi == 1.0
  {
    InChain(t, n);
  }

  /** Separators bound subtrees: below child i every key is at least separator i - 1 and less than separator i. */
  lemma SeparatorsBound(t: Tree, id: PageId, i: nat, leaf: PageId, e: Entry)
    requires Placed(t) && Chained(t) && id in t.pages && t.pages[id].Internal?
    requires i < |t.pages[id].children|
    requires t.pages[id].children[i] in t.pages && leaf in LeavesUnder(t, t.pages[id].children[i])
    requires leaf in t.pages && t.pages[leaf].Leaf? && e in t.pages[leaf].entries
    ensures |t.pages[id].children| == |t.pages[id].keys| + 1
    ensures i > 0 ==> !Less(e.key, t.pages[id].keys[i - 1])
    ensures i < |t.pages[id].keys| ==> Less(e.key, t.pages[id].keys[i])
  {
    var ks, c := t.pages[id].keys, t.pages[id].children[i];
    ChildInterval(t, id, i);
    EntryCovered(t, leaf, e);
    UnderInside(t, c, leaf);
    hide Placed, Chained, LeavesUnder;
    OrderLaws();
  }

  lemma ChildInterval(t: Tree, id: PageId, i: nat)
    requires id in t.pages && id in t.place && t.pages[id].Internal? && NodeOk(t, id) && i < |t.pages[id].children|
    ensures |t.pages[id].children| == |t.pages[id].keys| + 1
    ensures ChildAt(t, id, t.pages[id].keys, i, t.pages[id].children[i])
  {
  }

  lemma NonEmpty(t: Tree, n: nat)
    requires Placed(t) && Chained(t) && n < |t.leaves|
    ensures t.leaves[n] in t.place && t.place[t.leaves[n]].lo < t.place[t.leaves[n]].hi
  {
    assert NodeOk(t, t.leaves[n]);
  }

  /** A leaf below a page is responsible for a part of the page's interval. */
  lemma UnderInside(t: Tree, id: PageId, leaf: PageId)
    requires Placed(t) && Chained(t) && id in t.pages && leaf in LeavesUnder(t, id)
    ensures leaf in t.place && t.place[id].lo <= t.place[leaf].lo && t.place[leaf].hi <= t.place[id].hi
  {
    hide LeavesUnder, LeavesOfChildren, Placed, Chained, NodeOk;
    var a, b := UnderIsStretch(t, id);
    var n :| a <= n < b && t.leaves[n] == leaf;
    NonEmpty(t, a);
    NonEmpty(t, b - 1);
    NonEmpty(t, n);
    if a < n {
      LeavesAscend(t, a, n);
    }
    if n < b - 1 {
      LeavesAscend(t, n, b - 1);
    }
  }

  /** All leaves are equally deep: as many internal pages lead to each as the root is high. */
  lemma {:induction false} DepthIsHeight(t: Tree, path: seq<PageId>, id: PageId)
    requires Placed(t) && PathTo(t, path, id)
    ensures |path| + t.place[id].height == t.place[t.root].height
  {
    if path != [] {
      ParentHeight(t, id);
      DepthIsHeight(t, path[..|path| - 1], path[|path| - 1]);
    }
  }

  /** The least number of leaves below a page of height h that is not the root. */
  function MinLeaves(h: nat): nat {
    if h == 0 then 1 else (ORDER / 2 + 1) * MinLeaves(h - 1)
  }

  lemma {:induction false} UnderBound(t: Tree, id: PageId)
    requires Placed(t) && Filled(t, 0) && id in t.pages && id != t.root
    ensures |LeavesUnder(t, id)| >= MinLeaves(t.place[id].height)
    decreases t.place[id].height
  {
    hide Placed, Filled, NodeOk, LeavesUnder, LeavesOfChildren, MinLeaves;
    Reached(t, id);
    InPlace(t, id);
    UnfoldUnder(t, id);
    var h := t.place[id].height;
    if t.pages[id].Internal? {
      ChildrenBound(t, id, |t.pages[id].children|);
      ChildCount(t, id);
      Monotone(ORDER / 2 + 1, |t.pages[id].children|, MinLeaves(h - 1));
    }
    UnfoldMin(h);
  }

  lemma UnfoldUnder(t: Tree, id: PageId)
    requires Placed(t) && id in t.pages && NodeOk(t, id)
    ensures t.pages[id].Leaf? ==> LeavesUnder(t, id) == [id] && t.place[id].height == 0
    ensures t.pages[id].Internal? ==>
      LeavesUnder(t, id) == LeavesOfChildren(t, id, |t.pages[id].children|) && t.place[id].height > 0
  {
    hide LeavesOfChildren, Rooted;
  }

  lemma UnfoldMin(h: nat)
    ensures MinLeaves(h) == if h == 0 then 1 else (ORDER / 2 + 1) * MinLeaves(h - 1)
  {
  }

  lemma ChildCount(t: Tree, id: PageId)
    requires Placed(t) && Filled(t, 0) && id in t.pages && id != t.root && t.pages[id].Internal? && NodeOk(t, id)
    ensures |t.pages[id].children| >= ORDER / 2 + 1
  {
  }

  lemma {:induction false} ChildrenBound(t: Tree, id: PageId, n: nat)
    requires Placed(t) && Filled(t, 0) && id in t.pages && id in t.place && t.pages[id].Internal? && NodeOk(t, id)
    requires n <= |t.pages[id].children|
    ensures |LeavesOfChildren(t, id, n)| >= n * MinLeaves(t.place[id].height - 1)
    decreases t.place[id].height, n
  {
    hide Filled, Placed, NodeOk, LeavesUnder, LeavesOfChildren, MinLeaves;
    if n > 0 {
      var c := t.pages[id].children[n - 1];
      BelowRoot(t, id, n - 1);
      UnfoldChildren(t, id, n);
      ChildrenBound(t, id, n - 1);
      UnderBound(t, c);
      OneMore(n, MinLeaves(t.place[id].height - 1));
    }
  }

  lemma BelowRoot(t: Tree, id: PageId, i: nat)
    requires Placed(t) && id in t.pages && t.pages[id].Internal? && NodeOk(t, id) && i < |t.pages[id].children|
    ensures t.place[id].height > 0 && |t.pages[id].children| == |t.pages[id].keys| + 1
    ensures var c := t.pages[id].children[i];
      c in t.pages && c != t.root && t.place[c].height + 1 == t.place[id].height
  {
    assert ChildAt(t, id, t.pages[id].keys, i, t.pages[id].children[i]);
  }

  lemma OneMore(n: nat, m: nat)
    requires n > 0
    ensures (n - 1) * m + m == n * m
  {
  }

  lemma Monotone(a: nat, b: nat, m: nat)
    requires a <= b
    ensures a * m <= b * m
  {
  }

  /** A tree whose root is h >= 1 levels above its leaves has at least 2 * 51^(h-1) leaves. */
  lemma HeightBound(t: Tree)
    requires WellFormed(t, 0) && t.pages[t.root].Internal?
    ensures t.place[t.root].height > 0 && |t.leaves| >= 2 * MinLeaves(t.place[t.root].height - 1)
  {
    hide Stores, Linked, Partitioned, Listed;
    Reached(t, t.root);
    ChainIsInOrder(t);
    ChildrenBound(t, t.root, |t.pages[t.root].children|);
    Monotone(2, |t.pages[t.root].children|, MinLeaves(t.place[t.root].height - 1));
  }

  /** The map a run of operations leaves behind. */
  function After(ops: seq<Op>): map<Key, Val> {
    if ops == [] then map[] else Apply(After(ops[..|ops| - 1]), ops[|ops| - 1])
  }

  /** Every run of Put and Delete on a new tree leaves a well-formed tree that stores exactly what the run says,
      if every Put of it fits the tree it meets; otherwise it stops at the first that does not. Small entries
      always fit. */
  method Run(ops: seq<Op>) returns (t: BTree, ok: bool, ghost at: nat)
    ensures ok <==> TreeRun(ops, EmptyTree(), 2).Went?
    ensures ok ==> t.Valid() && t.view == After(ops) && t.Repr() == TreeRun(ops, EmptyTree(), 2).tree
    ensures ok && t.pages[t.rootID].Internal? ==> |t.leaves| >= 2 * MinLeaves(t.place[t.rootID].height - 1)
    ensures !ok ==>
      && at < |ops| && ops[at].OpPut?
      && var r := TreeRun(ops[..at], EmptyTree(), 2);
         r.Went? && r.tree.view == After(ops[..at]) && !PutFits(r.tree, ops[at].key, ops[at].value, r.next)
    ensures (forall i :: 0 <= i < |ops| && ops[i].OpPut? ==> SmallEntry(ops[i].key, ops[i].value)) ==> ok && t.Small()
  {
    hide BTree.Valid, BTree.Small, PutFits, Tears, TornSpan, NewHalves, FindsAllBut, HalfWritten, ScanWhole, WellFormed;
    hide TreeRun, AfterPut, AfterDelete, Wasted;
    t := new BTree();
    ok, at := true, 0;
    NoSteps(EmptyTree(), 2);
    assert ops[..0] == [];
    for i := 0 to |ops|
      invariant fresh(t) && t.Valid() && t.view == After(ops[..i])
      invariant TreeRun(ops[..i], EmptyTree(), 2) == Went(t.Repr(), t.pageCount)
      invariant (forall j :: 0 <= j < |ops| && ops[j].OpPut? ==> SmallEntry(ops[j].key, ops[j].value)) ==> t.Small()
    {
      assert ops[..i + 1][..i] == ops[..i];
      RunStep(ops, i, EmptyTree(), 2);
      match ops[i] {
        case OpPut(k, v) =>
          at := i;
          t.Here();
          var torn;
          ok, torn := t.Put(k, v);
          if !ok {
            RunEnded(ops, i + 1, EmptyTree(), 2);
            return;
          }
        case OpDelete(k) =>
          t.Here();
          var found := t.Delete(k);
      }
    }
    assert ops[..|ops|] == ops;
    Shaped(t);
    ok := true;
  }

  lemma Shaped(t: BTree)
    requires t.Valid()
    ensures t.rootID in t.pages && t.rootID in t.place
    ensures t.pages[t.rootID].Internal? ==>
      t.place[t.rootID].height > 0 && |t.leaves| >= 2 * MinLeaves(t.place[t.rootID].height - 1)
  {
    if t.pages[t.rootID].Internal? {
      HeightBound(t.Repr());
    }
  }
}
