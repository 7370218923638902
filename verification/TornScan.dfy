/** What a scan along the leaf chain lists after a split was cut short. */
module TornScan {
  import opened Keys
  import opened TreeModel
  import opened TreeScan
  import opened NodeSizes
  import opened TreeSteps
  import opened TreeLookup
  import opened SplitLoss

  /** What a scan along the next pointers reads from a leaf on. */
  function Thread(pages: map<PageId, Node>, id: PageId, n: nat): seq<Entry>
    decreases n
  {
    if n == 0 || id !in pages || pages[id].Internal? then []
    else pages[id].entries + if pages[id].next == 0 then [] else Thread(pages, pages[id].next, n - 1)
  }

  /** After a leaf whose right half was not written, the scan reads the left half and ends at the blank page: every
      later leaf is missed too. */
  lemma ScanEnds(pages: map<PageId, Node>, id: PageId, left: Node, right: PageId, n: nat)
    requires HalfWritten(pages, id, left, right) && n >= 2
    ensures Thread(pages, id, n) == left.entries
  {
    assert Thread(pages, right, n - 1) == [];
  }

  /** Every leaf of t is on its page. */
  ghost predicate Leafwise(pages: map<PageId, Node>, t: Tree) {
    && Placed(t) && Chained(t) && Stores(t)
    && forall x :: x in t.pages && t.pages[x].Leaf? ==> x in pages && pages[x] == t.pages[x]
  }

  /** The leaves are those of some tree that stores m, whose chain begins at page first. */
  ghost predicate ScanWhole(pages: map<PageId, Node>, first: PageId, m: map<Key, Val>) {
    exists t :: Leafwise(pages, t) && t.view == m && t.leaves != [] && t.leaves[0] == first
  }

  /** Then a scan still lists all of m, keys that Get no longer finds among them. */
  lemma ScanGoesOn(pages: map<PageId, Node>, first: PageId, m: map<Key, Val>) returns (n: nat)
    requires ScanWhole(pages, first, m)
    ensures forall depth: nat {:trigger Thread(pages, first, depth)} ::
      depth >= n ==> Lists(Thread(pages, first, depth), m)
  {
    hide Leafwise, Lists, Thread;
    var t :| Leafwise(pages, t) && t.view == m && t.leaves != [] && t.leaves[0] == first;
    n := |t.leaves|;
    WholeThread(pages, t);
  }

  lemma WholeThread(pages: map<PageId, Node>, t: Tree)
    requires Leafwise(pages, t)
    ensures forall depth: nat {:trigger Thread(pages, t.leaves[0], depth)} ::
      depth >= |t.leaves| ==> Lists(Thread(pages, t.leaves[0], depth), t.view)
  {
    hide Lists, Leafwise, Thread;
    FirstLo(pages, t);
    assert Slice(t.view, 0.0, 1.0) == t.view;
    forall depth: nat | depth >= |t.leaves|
      ensures Lists(Thread(pages, t.leaves[0], depth), t.view)
    {
      ThreadFrom(pages, t, 0, depth);
    }
  }

  lemma FirstLo(pages: map<PageId, Node>, t: Tree)
    requires Leafwise(pages, t)
    ensures |t.leaves| > 0 && t.leaves[0] in t.place && t.place[t.leaves[0]].lo == 0.0
  {
  }

  lemma {:induction false} ThreadFrom(pages: map<PageId, Node>, t: Tree, n: nat, depth: nat)
    requires Leafwise(pages, t) && n < |t.leaves| && depth >= |t.leaves| - n
    ensures Lists(Thread(pages, t.leaves[n], depth), Slice(t.view, t.place[t.leaves[n]].lo, 1.0))
    ensures t.place[t.leaves[n]].lo < 1.0
    decreases depth
  {
    hide Lists, Slice, Thread, Leafwise;
    var id := t.leaves[n];
    OneLeaf(pages, t, n);
    ThreadStep(pages, id, depth);
    if n < |t.leaves| - 1 {
      ThreadFrom(pages, t, n + 1, depth - 1);
      Joined(t.pages[id].entries, Thread(pages, t.leaves[n + 1], depth - 1), t.view, t.place[id].lo, t.place[id].hi);
    }
  }

  /** One leaf of the chain. */
  lemma OneLeaf(pages: map<PageId, Node>, t: Tree, n: nat)
    requires Leafwise(pages, t) && n < |t.leaves|
    ensures var id := t.leaves[n];
      && id in t.pages && t.pages[id].Leaf? && id in t.place && id in pages && pages[id] == t.pages[id]
      && Lists(t.pages[id].entries, Slice(t.view, t.place[id].lo, t.place[id].hi)) && t.place[id].lo < t.place[id].hi
      && (n == |t.leaves| - 1 ==> t.pages[id].next == 0 && t.place[id].hi == 1.0)
      && (n < |t.leaves| - 1 ==>
            t.pages[id].next == t.leaves[n + 1] != 0
            && t.leaves[n + 1] in t.place && t.place[t.leaves[n + 1]].lo == t.place[id].hi)
  {
    hide Lists, Slice, Stores, Placed, Chained, NodeOk;
    InChain(t, n);
    if n < |t.leaves| - 1 {
      InChain(t, n + 1);
      InPlace(t, t.leaves[n + 1]);
    }
    InPlace(t, t.leaves[n]);
    LeafLists(t, t.leaves[n]);
  }

  lemma ThreadStep(pages: map<PageId, Node>, id: PageId, depth: nat)
    requires depth > 0 && id in pages && pages[id].Leaf?
    ensures pages[id].next == 0 ==> Thread(pages, id, depth) == pages[id].entries
    ensures pages[id].next != 0 ==>
      Thread(pages, id, depth) == pages[id].entries + Thread(pages, pages[id].next, depth - 1)
  {
  }

  lemma LeafLists(t: Tree, id: PageId)
    requires Stores(t) && id in t.pages && t.pages[id].Leaf? && id in t.place && NodeOk(t, id)
    ensures Lists(t.pages[id].entries, Slice(t.view, t.place[id].lo, t.place[id].hi)) && t.place[id].lo < t.place[id].hi
  {
    var es := t.pages[id].entries;
    forall e | e in es
      ensures Covers(t.place[id], e.key)
    {
      var i :| 0 <= i < |es| && es[i] == e;
    }
  }

  /** Two listings of neighbouring stretches. */
  lemma Joined(a: seq<Entry>, b: seq<Entry>, m: map<Key, Val>, lo: real, mid: real)
    requires lo <= mid <= 1.0 && Lists(a, Slice(m, lo, mid)) && Lists(b, Slice(m, mid, 1.0))
    ensures Lists(a + b, Slice(m, lo, 1.0))
  {
    OrderLaws();
    var es, ma, mb := a + b, Slice(m, lo, mid), Slice(m, mid, 1.0);
    forall i, j | 0 <= i < j < |es|
      ensures Less(es[i].key, es[j].key)
    {
      if i < |a| <= j {
        assert a[i] in a && b[j - |a|] in b;
        assert a[i].key in ma && b[j - |a|].key in mb;
      }
    }
    forall k | k in m && lo <= Rank(k) < 1.0
      ensures Entry(k, m[k]) in es
    {
      assert k in ma || k in mb;
      assert Entry(k, m[k]) in a || Entry(k, m[k]) in b;
    }
    assert forall e :: e in es ==> e in a || e in b;
  }

  lemma HasLeaves(t: Tree, id: PageId)
    requires Overfull(t, id)
    ensures t.leaves != []
  {
  }

  /** A split leaves the first leaf first. */
  lemma FirstStays(t: Tree, id: PageId, right: PageId)
    requires CanSplit(t, id, right) && t.leaves != []
    ensures SplitPage(t, id, right).leaves != [] && SplitPage(t, id, right).leaves[0] == t.leaves[0]
  {
  }

  /** Pages that differ from a tree's on an internal page only. */
  lemma StillWhole(pages: map<PageId, Node>, t: Tree, f: PageId)
    requires Placed(t) && Chained(t) && Stores(t) && AgreeBut(pages, t, f)
    requires f in t.pages ==> t.pages[f].Internal?
    ensures t.leaves != [] && ScanWhole(pages, t.leaves[0], t.view)
  {
    assert Leafwise(pages, t);
  }

  /** The right half of an internal page was not written. */
  lemma WholeHere(pages: map<PageId, Node>, t: Tree, id: PageId)
    requires Overfull(t, id) && t.pages[id].Internal? && AgreeBut(pages, t, id)
    ensures t.leaves != [] && ScanWhole(pages, t.leaves[0], t.view)
  {
    StillWhole(pages, t, id);
  }

  /** The parent of a split page was not written. */
  lemma WholeBelow(pages: map<PageId, Node>, t: Tree, id: PageId, right: PageId)
    requires Overfull(t, id) && id != t.root && right !in t.pages && right != 0 && CanSplit(t, id, right)
    requires AgreeBut(pages, SplitPage(t, id, right), t.place[id].parent)
    ensures t.leaves != [] && ScanWhole(pages, t.leaves[0], t.view)
  {
    hide Placed, Stores, Linked, Partitioned, Balanced, SplitPage, CanSplit, AgreeBut;
    assert t.leaves != [];
    FirstStays(t, id, right);
    NewChild(t, id, right);
    ParentInternal(t, id, right);
    StillWhole(pages, SplitPage(t, id, right), t.place[id].parent);
  }

  lemma ParentInternal(t: Tree, id: PageId, right: PageId)
    requires CanSplit(t, id, right)
    ensures var t2, p := SplitPage(t, id, right), t.place[id].parent; p in t2.pages && t2.pages[p].Internal?
  {
  }

  /** The new root above a split root was not written. */
  lemma WholeAbove(pages: map<PageId, Node>, t: Tree, right: PageId, top: PageId)
    requires Overfull(t, t.root) && right !in t.pages && right != 0 && top !in t.pages && top != 0 && right != top
    requires CanSplit(GrowRoot(t, top), t.root, right)
    requires AgreeBut(pages, SplitPage(GrowRoot(t, top), t.root, right), top)
    ensures t.leaves != [] && ScanWhole(pages, t.leaves[0], t.view)
  {
    hide Placed, Stores, Linked, Partitioned, Balanced, SplitPage, CanSplit, AgreeBut;
    assert t.leaves != [] && GrowRoot(t, top).leaves == t.leaves;
    FirstStays(GrowRoot(t, top), t.root, right);
    NewRoot(t, t.root, right, top);
    StillWhole(pages, SplitPage(GrowRoot(t, top), t.root, right), top);
  }

  /** The parent needed a split of its own and kept what it had. */
  lemma ParentStays(pages: map<PageId, Node>, spare: set<PageId>, t: Tree, before: map<PageId, Node>, node: Node,
                    id: PageId, right: PageId, path: seq<PageId>)
    requires Overfull(t, id) && id != t.root && PathTo(t, path, id) && path != []
    requires right > 0 && Below(t.pages, right) && right !in t.pages && Known(t, id) && CanSplit(t, id, right)
    requires Fits(SplitOf(t.pages[id], id, right).right)
    requires var t2, p := SplitPage(t, id, right), t.place[id].parent;
      && p in t2.pages && Count(t2.pages[p]) > ORDER && Overfull(t2, p) && Below(t2.pages, right + 1)
      && !Fits(LeftHalf(t2, p, right + 1)) && t2.pages == before[p := node]
      && p in before && before[p] == t.pages[p] && pages - spare == before
    ensures var span := LostSpan(t, id, right);
      FindsAllBut(pages, t.root, t.place[t.root].height, t.view, span.0, span.1)
    ensures t.leaves != [] && ScanWhole(pages, t.leaves[0], t.view)
  {
    hide WellFormed, Overfull, PathTo, CanSplit, SplitPage, SplitOf, FindsAllBut, Fits, LeftHalf, Below, AgreeBut;
    hide ScanWhole;
    SpanAbove(t, id, right);
    var t2, p := SplitPage(t, id, right), t.place[id].parent;
    AgreesStill(pages, spare, t2, before, p, node);
    ParentLost(pages, t, id, right, path);
    WholeBelow(pages, t, id, right);
  }

  /** The new root is still blank. */
  lemma TopStays(pages: map<PageId, Node>, spare: set<PageId>, t: Tree, right: PageId, top: PageId)
    requires Overfull(t, t.root) && Known(t, t.root) && right > 0 && Below(t.pages, right) && top == right + 1
    requires CanSplit(GrowRoot(t, top), t.root, right) && top !in spare && right !in t.pages && top !in t.pages
    requires var h := SplitOf(t.pages[t.root], t.root, right);
      top in pages && pages - spare == t.pages[t.root := h.left][right := h.right][top := pages[top]]
    ensures var span := LostSpan(t, t.root, right);
      FindsAllBut(pages, t.root, t.place[t.root].height, t.view, span.0, span.1)
    ensures t.leaves != [] && ScanWhole(pages, t.leaves[0], t.view)
  {
    hide WellFormed, CanSplit, SplitPage, GrowRoot, FindsAllBut, LostSpan, ScanWhole, SplitOf, Below;
    NewRoot(t, t.root, right, top);
    var t3 := SplitPage(GrowRoot(t, top), t.root, right);
    assert t3.pages[top := pages[top]] == pages - spare;
    forall y | y in t3.pages && y != top
      ensures y in pages && pages[y] == t3.pages[y]
    {
      assert y in pages - spare && (pages - spare)[y] == t3.pages[y];
    }
    RootLost(pages, t, right, top);
    WholeAbove(pages, t, right, top);
    SpanHere(t, t.root, right);
  }
}
