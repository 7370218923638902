/** The B+ tree of btree.go: the object whose methods rewrite pages in place. */
module BPlusTree {
  import opened Keys
  import opened TreeModel
  import opened NodeSizes
  import opened TreeScan
  import opened TreeSteps
  import opened TreeLookup
  import opened SplitLoss
  import opened TornScan
  import opened TreeRuns

  /** Index of the entry for key, found by the linear search of Get, Put and Delete. */
  method FindEntry(es: seq<Entry>, key: Key) returns (r: Option<nat>)
    ensures r.Some? ==> r.value < |es| && es[r.value].key == key
    ensures r.None? ==> forall i :: 0 <= i < |es| ==> es[i].key != key
  {
    for i := 0 to |es|
      invariant forall j :: 0 <= j < i ==> es[j].key != key
    {
      if es[i].key == key {
        return Some(i);
      }
    }
    return None;
  }

  /** Where a new key goes in a leaf: before the first entry with a greater key. */
  method LeafInsertPos(es: seq<Entry>, key: Key) returns (pos: nat)
    ensures pos <= |es|
    ensures forall i :: 0 <= i < pos ==> !Less(key, es[i].key)
    ensures pos < |es| ==> Less(key, es[pos].key)
  {
    for i := 0 to |es|
      invariant forall j :: 0 <= j < i ==> !Less(key, es[j].key)
    {
      if Less(key, es[i].key) {
        return i;
      }
    }
    return |es|;
  }

  /** The child to descend into: the one before the first separator greater than key. */
  method ChooseChild(ks: seq<Key>, key: Key) returns (c: nat)
    ensures c <= |ks|
    ensures forall i :: 0 <= i < c ==> !Less(key, ks[i])
    ensures c < |ks| ==> Less(key, ks[c])
  {
    for i := 0 to |ks|
      invariant forall j :: 0 <= j < i ==> !Less(key, ks[j])
    {
      if Less(key, ks[i]) {
        return i;
      }
    }
    return |ks|;
  }

  class BTree {
    /** The pager's pages, its page count and the root. */
    var pages: map<PageId, Node>
    var pageCount: nat
    var rootID: PageId

    ghost var place: map<PageId, Place>
    ghost var leaves: seq<PageId>
    /** Pages that a failed split allocated and nothing points to. */
    ghost var spare: set<PageId>
    /** The stored map. */
    ghost var view: map<Key, Val>

    ghost function Repr(): Tree
      reads this
    {
      Tree(pages - spare, rootID, place, leaves, view)
    }

    ghost predicate Valid()
      reads this
    {
      PagesOk() && WellFormed(Repr(), 0)
    }

    /** Ids are below the count, and every page holds a node that fits. */
    ghost predicate PagesOk()
      reads this
    {
      && pageCount >= 1 && Below(pages, pageCount) && FitPages(pages)
      && (forall id :: id in spare ==> id < pageCount)
    }

    /** Every entry and separator is small enough for any node to fit its page. */
    ghost predicate Small()
      reads this
    {
      SmallPages(pages)
    }

    /** A new database: page 0 is the header, page 1 an empty leaf. */
    constructor ()
      ensures Valid() && Small() && view == map[] && Repr() == EmptyTree() && pageCount == 2
    {
      hide WellFormed;
      pageCount := 2;
      pages := map[1 := Leaf([], 0, 0)];
      rootID := 1;
      place := map[1 := Place(0, 0.0, 1.0, 0)];
      leaves := [1];
      view := map[];
      spare := {};
      new;
      assert pages - spare == pages;
      assert Repr() == EmptyTree();
      BlankFits();
    }

    /** Pager.AllocatePage: the next id, with a blank node on the page. */
    method AllocatePage(blank: Node) returns (id: PageId)
      requires pageCount >= 1 && Below(pages, pageCount)
      modifies this`pages, this`pageCount
      ensures id == old(pageCount) && id !in old(pages) && id != 0
      ensures pageCount == old(pageCount) + 1 && pages == old(pages)[id := blank]
      ensures Below(pages, pageCount)
    {
      id := pageCount;
      pageCount := pageCount + 1;
      pages := pages[id := blank];
    }

    /** flushLeaf and flushInternal: the page is rewritten unless the node does not fit. */
    method FlushNode(id: PageId, n: Node) returns (ok: bool)
      requires id in pages
      modifies this`pages
      ensures ok <==> Fits(n)
      ensures pages == if ok then old(pages)[id := n] else old(pages)
    {
      ok := Fits(n);
      if ok {
        pages := pages[id := n];
      }
    }

    method FindLeafWithPath(key: Key) returns (path: seq<PageId>, id: PageId)
      requires Valid()
      ensures PathTo(Repr(), path, id)
      ensures id in pages && pages[id].Leaf? && Covers(place[id], key)
    {
      ghost var t := Repr();
      path, id := [], rootID;
      while pages[id].Internal?
        invariant PathTo(t, path, id) && Covers(t.place[id], key)
        decreases t.place[id].height
      {
        Reached(t, id);
        var c := ChooseChild(pages[id].keys, key);
        Descend(t, path, id, key, c);
        path, id := path + [id], pages[id].children[c];
      }
    }

    method Get(key: Key) returns (r: Option<Val>)
      requires Valid()
      ensures r == if key in view then Some(view[key]) else None
    {
      var path, id := FindLeafWithPath(key);
      var es := pages[id].entries;
      var i := FindEntry(es, key);
      match i {
        case Some(n) =>
          assert es[n] in es;
          r := Some(es[n].value);
        case None =>
          r := None;
      }
    }

    /** The pages of the tree are on disk as the tree has them. */
    lemma OnDisk(id: PageId)
      requires id in Repr().pages
      ensures id in pages && pages[id] == Repr().pages[id] && id !in spare
    {
    }

    lemma Here()
      requires Valid()
      ensures WellFormed(Repr(), 0) && pageCount > 0 && Below(Repr().pages, pageCount) && rootID in place
    {
      assert Placed(Repr());
    }

    /** How a run of operations on this tree ends. */
    ghost function Outcome(ops: seq<Op>): (r: TreeEnd)
      requires Valid()
      reads this
    {
      Here();
      TreeRun(ops, Repr(), pageCount)
    }

    ghost function Step(op: Op): (r: TreeEnd)
      requires Valid()
      reads this
    {
      Here();
      TreeStep(Repr(), pageCount, op)
    }

    lemma StartsAt(ops: seq<Op>)
      requires Valid()
      ensures Sound(Repr(), pageCount) && Outcome(ops) == TreeRun(ops, Repr(), pageCount)
      ensures TreeRun(ops[..0], Repr(), pageCount) == Went(Repr(), pageCount)
      ensures forall op :: Step(op) == TreeStep(Repr(), pageCount, op)
    {
      Here();
      NoSteps(Repr(), pageCount);
      assert ops[..0] == [];
    }

    /** The pages are where a run has left them. */
    ghost predicate IsAt(r: TreeEnd)
      reads this
    {
      match r
      case Went(t, next) => Repr() == t && pageCount == next
      case Halted(t, next) => Repr() == t && pageCount == next
      case Tore(x) => TornBy(pages, rootID, x)
    }

    /** The next operation of a run that has come this far. */
    lemma NextStep(ops: seq<Op>, i: nat, t: Tree, next: PageId)
      requires Valid() && Sound(t, next) && i < |ops| && TreeRun(ops[..i], t, next) == Went(Repr(), pageCount)
      ensures TreeRun(ops[..i + 1], t, next) == Step(ops[i])
      ensures !Step(ops[i]).Went? || i + 1 == |ops| ==> TreeRun(ops, t, next) == Step(ops[i])
    {
      hide TreeRun, TreeStep, WellFormed;
      Here();
      RunOn(ops, i, t, next);
    }

    /** What halted a run that has come to its end here halts it again. */
    lemma HaltsHere(ops: seq<Op>, t: Tree, next: PageId)
      requires Valid() && Sound(t, next) && Different(ops)
      requires TreeRun(ops, t, next).Halted? && IsAt(TreeRun(ops, t, next))
      ensures Outcome(ops).Halted?
    {
      hide TreeRun, WellFormed, Halts, Fits;
      Here();
      FitHere();
      HaltsAgain(ops, t, next, pageCount);
    }

    lemma FitHere()
      requires Valid()
      ensures FitPages(Repr().pages)
    {
      hide WellFormed, Fits;
    }

    lemma IsHere()
      ensures IsAt(Went(Repr(), pageCount))
    {
    }

    /** The operations were done on this tree in turn, up to the first that failed; the caller was told how that
        ended, and the pages are where it ended. */
    twostate predicate Ran(ops: seq<Op>, ok: bool, torn: bool)
      reads this
    {
      old(Valid()) && var r := old(Outcome(ops)); (ok <==> r.Went?) && (torn <==> r.Tore?) && IsAt(r)
    }

    /** Inserts or overwrites. When a page would overflow its 4096 bytes, ok is false. If that happens after
        the left half of a split was written (torn), part of the tree can no longer be reached. The source
        reports both with the same error. */
    method Put(key: Key, value: Val) returns (ok: bool, torn: bool)
      requires Valid()
      modifies this
      ensures ok <==> PutFits(old(Repr()), key, value, old(pageCount))
      ensures ok ==> Valid() && view == old(view)[key := value]
      ensures torn <==> Tears(old(Repr()), key, value, old(pageCount))
      ensures ok ==> !torn
      ensures ok ==> var g := AfterPut(old(Repr()), key, value, old(pageCount)); Repr() == g.tree && pageCount == g.next
      ensures !ok && !torn ==>
        Valid() && Repr() == old(Repr()) && pageCount == old(pageCount) + Wasted(old(Repr()), key, value)
      ensures torn ==>
        var span := TornSpan(old(Repr()), key, value, old(pageCount));
        FindsAllBut(pages, rootID, old(place[rootID].height), old(view)[key := value], span.0, span.1)
      ensures torn && !Fits(NewHalves(old(Repr()), key, value, old(pageCount)).right) ==>
        HalfWritten(
          pages, LeafOf(old(Repr()), key), NewHalves(old(Repr()), key, value, old(pageCount)).left, old(pageCount))
      ensures torn && Fits(NewHalves(old(Repr()), key, value, old(pageCount)).right) ==>
        old(leaves) != [] && ScanWhole(pages, old(leaves)[0], old(view)[key := value])
      ensures old(Small()) && SmallEntry(key, value) ==> ok && Small()
    {
      hide Placed, Chained, Stores, Balanced, NodeOk, SetEntries, SplitFits, LostSpan, FindsAllBut, PathTo, HalfWritten;
      hide Fits, SetKey, LeafOf, Less, Sorted, SmallNode, AfterLink, ScanWhole, Covers;
      torn := false;
      ghost var t := Repr();
      var path, id := FindLeafWithPath(key);
      LeafUnique(t, id, key);
      OnDisk(id);
      var leaf := pages[id];
      LeafSorted(t, id);
      SetKeyStep(t, id, key, value);
      SetEntriesFields(t, id, SetKey(leaf.entries, key, value), view[key := value]);
      var found := FindEntry(leaf.entries, key);
      if found.Some? {
        SetKeyFound(leaf.entries, found.value, key, value);
        ok := FlushLeaf(id, leaf.entries[found.value := Entry(key, value)], key, value);
        return;
      }
      var pos := LeafInsertPos(leaf.entries, key);
      SetKeyNew(leaf.entries, pos, key, value);
      var es := leaf.entries[..pos] + [Entry(key, value)] + leaf.entries[pos..];
      if |es| <= ORDER {
        ok := FlushLeaf(id, es, key, value);
        return;
      }
      ghost var t' := SetEntries(t, id, es, view[key := value]);
      SetEntriesKeepsPath(t, id, es, view[key := value], path, id);
      var next := pageCount;
      ok := SplitNode(id, leaf.(entries := es), path, t');
      torn := !ok && Fits(SplitOf(leaf.(entries := es), id, next).left);
    }

    /** Writes the leaf with its entries changed at one key, if the page can hold them. */
    method FlushLeaf(id: PageId, es: seq<Entry>, ghost key: Key, ghost value: Val) returns (ok: bool)
      requires Valid() && id in Repr().pages && Repr().pages[id].Leaf?
      requires WellFormed(SetEntries(Repr(), id, es, view[key := value]), 0)
      modifies this
      ensures ok <==> Fits(WithEntries(old(Repr()).pages[id], es))
      ensures ok ==> Valid() && Repr() == SetEntries(old(Repr()), id, es, old(view)[key := value])
      ensures ok ==> pages == old(pages)[id := WithEntries(old(pages[id]), es)]
      ensures !ok ==> Valid() && Repr() == old(Repr()) && pages == old(pages)
      ensures pageCount == old(pageCount)
    {
      hide WellFormed;
      ghost var t, view' := Repr(), view[key := value];
      OnDisk(id);
      ok := FlushNode(id, pages[id].(entries := es));
      if ok {
        view := view';
        assert pages - spare == t.pages[id := WithEntries(t.pages[id], es)];
      }
    }

    /** splitLeaf and splitInternal: n is the overfull node of page id, not yet on its page. */
    method SplitNode(id: PageId, n: Node, path: seq<PageId>, ghost t: Tree) returns (ok: bool)
      requires PagesOk()
      requires Overfull(t, id) && PathTo(t, path, id)
      requires t.root == rootID && id in pages && id !in spare && t.pages == (pages - spare)[id := n]
      modifies this
      ensures Below(t.pages, old(pageCount))
      ensures ok <==> SplitFits(t, id, old(pageCount))
      ensures ok ==> Valid() && view == t.view
      ensures ok ==> var g := AfterLink(t, id, old(pageCount)); Repr() == g.tree && pageCount == g.next
      ensures !ok ==> rootID == old(rootID) && place == old(place) && leaves == old(leaves) && view == old(view)
      ensures !ok && !Fits(LeftHalf(t, id, old(pageCount))) ==>
        && pageCount == old(pageCount) + 1 && PagesOk() && pages - spare == old(pages - spare)
        && (forall x :: x in old(pages) ==> x in pages && pages[x] == old(pages)[x])
      ensures !ok && Fits(LeftHalf(t, id, old(pageCount))) ==>
        var span := LostSpan(t, id, old(pageCount));
        FindsAllBut(pages, rootID, t.place[t.root].height, t.view, span.0, span.1)
      ensures !ok && Fits(LeftHalf(t, id, old(pageCount))) && !Fits(RightHalf(t, id, old(pageCount))) && n.Leaf? ==>
        HalfWritten(pages, id, LeftHalf(t, id, old(pageCount)), old(pageCount))
      ensures !ok && Fits(LeftHalf(t, id, old(pageCount))) ==>
        Fits(RightHalf(t, id, old(pageCount))) || n.Internal? ==>
          t.leaves != [] && ScanWhole(pages, t.leaves[0], t.view)
      ensures SmallPages(t.pages) && SmallPages(old(pages)) ==> ok && Small()
      decreases |path|, 2
    {
      hide WellFormed, PathTo, NodeOk, SmallNode, Fits, FindsAllBut, LinkFits, LostSpan, AgreeBut, SplitOf, Below;
      hide FitPages, ScanWhole, AfterLink;
      KnownPage(t, id);
      TreeBelow(t.pages, pages, id, n, spare, pageCount);
      var rightID := NewPage(if n.Leaf? then Leaf([], 0, 0) else Internal([], []));
      NotYet(t.pages, rightID);
      ghost var live, blank := pages - spare, pages[rightID];
      assert live[id := n] == t.pages[rightID := blank];
      var h := SplitOf(n, id, rightID);
      if SmallPages(t.pages) {
        SmallHalves(n, id, rightID);
      }
      var first;
      first, ok := WriteHalves(id, h, rightID);
      if !first {
        spare := spare + {rightID};
        assert pages - spare == old(pages - spare);
        return;
      }
      if !ok {
        AgreesLeft(pages, spare, t, live, id, n, h.left, rightID, blank);
        RightLost(pages, t, id, rightID, path);
        SpanRight(t, id, rightID);
        assert rightID in live && live[rightID] == blank;
        assert rightID in pages - spare;
        if n.Leaf? {
          LeftLinks(t, id, rightID);
        } else {
          WholeHere(pages, t, id);
        }
        return;
      }
      assert pages - spare == t.pages[id := h.left][rightID := h.right];
      ok := InsertIntoParent(id, h.sep, rightID, path, t);
    }

    /** A new page for the right half. */
    method NewPage(blank: Node) returns (id: PageId)
      requires PagesOk() && (blank == Leaf([], 0, 0) || blank == Internal([], []))
      modifies this`pages, this`pageCount
      ensures PagesOk() && id == old(pageCount) && id !in old(pages) && id > 0 && pageCount == id + 1 && id !in spare
      ensures pages == old(pages)[id := blank] && pages - spare == old(pages - spare)[id := blank]
      ensures SmallPages(old(pages)) ==> SmallPages(pages)
    {
      BlankFits();
      id := AllocatePage(blank);
    }

    /** Left half, then right half, stopping at the first that does not fit. */
    method WriteHalves(id: PageId, h: Halves, rightID: PageId) returns (first: bool, ok: bool)
      requires PagesOk() && id in pages && rightID in pages && id != rightID && id !in spare && rightID !in spare
      modifies this`pages
      ensures PagesOk() && (first <==> Fits(h.left)) && (ok <==> first && Fits(h.right))
      ensures !first ==> pages == old(pages)
      ensures first ==> pages - spare == if ok then old(pages - spare)[id := h.left][rightID := h.right]
                                         else old(pages - spare)[id := h.left]
      ensures SmallPages(old(pages)) && SmallNode(h.left) && SmallNode(h.right) ==> SmallPages(pages)
    {
      hide Fits, SmallNode;
      first := FlushNode(id, h.left);
      ok := false;
      if first {
        ok := FlushNode(rightID, h.right);
      }
    }

    /** insertIntoParent: leftID and rightID hold the halves of a split whose parent does not know yet.
        t is the tree before the split, with the overfull node in place. */
    method InsertIntoParent(leftID: PageId, key: Key, rightID: PageId, path: seq<PageId>, ghost t: Tree)
      returns (ok: bool)
      requires PagesOk()
      requires Overfull(t, leftID) && PathTo(t, path, leftID) && t.root == rootID
      requires pageCount == rightID + 1 && rightID > 0 && Below(t.pages, rightID) && rightID !in spare
      requires Known(t, leftID)
      requires var h := SplitOf(t.pages[leftID], leftID, rightID);
        key == h.sep && Fits(h.right) && pages - spare == t.pages[leftID := h.left][rightID := h.right]
      modifies this
      ensures ok <==> LinkFits(t, leftID, rightID)
      ensures ok ==> Valid() && view == t.view
      ensures ok ==> var g := AfterLink(t, leftID, rightID); Repr() == g.tree && pageCount == g.next
      ensures !ok ==> rootID == old(rootID) && place == old(place) && leaves == old(leaves) && view == old(view)
      ensures !ok ==>
        var span := LostSpan(t, leftID, rightID);
        FindsAllBut(pages, rootID, t.place[t.root].height, t.view, span.0, span.1)
      ensures !ok ==> t.leaves != [] && ScanWhole(pages, t.leaves[0], t.view)
      ensures SmallPages(t.pages) && SmallPages(old(pages)) ==> ok && Small()
      decreases |path|, 1
    {
      hide WellFormed, PathTo, CanSplit, SplitPage, SplitOf, FindsAllBut, SplitFits, LostSpan, Fits, SmallNode;
      hide WithChild, ScanWhole, AfterLink;
      Unpath(t, path, leftID);
      if |path| == 0 {
        ok := GrowTop(leftID, key, rightID, t);
        return;
      }
      var parentID := path[|path| - 1];
      assert parentID in pages - spare;
      assert pages[parentID] == t.pages[parentID];
      var parent := pages[parentID];
      NewChild(t, leftID, rightID);
      NewChildSite(t, leftID, rightID, path);
      SplitBooks(t, leftID, rightID);
      ghost var t2 := SplitPage(t, leftID, rightID);
      ghost var j := IndexIn(parent.children, leftID);
      var pos := 0;
      while pos < |parent.keys| && Less(parent.keys[pos], key)
        invariant 0 <= pos <= j
      {
        pos := pos + 1;
      }
      var node := Internal(parent.keys[..pos] + [key] + parent.keys[pos..],
                           parent.children[..pos + 1] + [rightID] + parent.children[pos + 1..]);
      assert pos == j && node == WithChild(t.pages[parentID], j, key, rightID) by { ChildIn(parent, j, key, rightID); }
      assert (pages - spare)[parentID := node] == t2.pages;
      if |node.keys| <= ORDER {
        ok := WriteParent(parentID, node, leftID, rightID, path, t);
        return;
      }
      ok := SplitParent(parentID, node, leftID, rightID, path, t);
    }

    /** The root was split: a new root above the halves. */
    method GrowTop(leftID: PageId, key: Key, rightID: PageId, ghost t: Tree) returns (ok: bool)
      requires PagesOk()
      requires Overfull(t, leftID) && t.root == rootID == leftID
      requires pageCount == rightID + 1 && rightID > 0 && Below(t.pages, rightID)
      requires Known(t, leftID)
      requires var h := SplitOf(t.pages[leftID], leftID, rightID);
        key == h.sep && pages - spare == t.pages[leftID := h.left][rightID := h.right]
      modifies this
      ensures ok <==> LinkFits(t, leftID, rightID)
      ensures ok ==> Valid() && view == t.view
      ensures ok ==> var g := AfterLink(t, leftID, rightID); Repr() == g.tree && pageCount == g.next
      ensures !ok ==> rootID == old(rootID) && place == old(place) && leaves == old(leaves) && view == old(view)
      ensures !ok ==>
        var span := LostSpan(t, leftID, rightID);
        FindsAllBut(pages, rootID, t.place[t.root].height, t.view, span.0, span.1)
      ensures !ok ==> t.leaves != [] && ScanWhole(pages, t.leaves[0], t.view)
      ensures SmallPages(t.pages) && SmallPages(old(pages)) ==> ok && Small()
    {
      hide WellFormed, CanSplit, SplitPage, FindsAllBut, LostSpan, ScanWhole, AfterLink, AgreeBut, LinkFits, Fits;
      BlankFits();
      LinkedHere(t, leftID, rightID);
      LinkTop(t, leftID, rightID);
      ghost var h := SplitOf(t.pages[leftID], leftID, rightID);
      var topID := AllocatePage(Internal([], []));
      var top := Internal([key], [leftID, rightID]);
      if SmallPages(t.pages) {
        SmallHalves(t.pages[leftID], leftID, rightID);
        SmallFits(top);
      }
      NewRoot(t, leftID, rightID, topID);
      ok := FlushNode(topID, top);
      if !ok {
        TopStays(pages, spare, t, rightID, topID);
        return;
      }
      rootID := topID;
      assert pages - spare == t.pages[leftID := h.left][rightID := h.right][topID := top];
      Adopt(SplitPage(GrowRoot(t, topID), leftID, rightID));
    }

    /** The parent has room for one more child. */
    method WriteParent(parentID: PageId, node: Node, ghost leftID: PageId, ghost rightID: PageId,
                       ghost path: seq<PageId>, ghost t: Tree) returns (ok: bool)
      requires PagesOk()
      requires Overfull(t, leftID) && leftID != t.root && PathTo(t, path, leftID) && path != [] && t.root == rootID
      requires pageCount == rightID + 1 && rightID > 0 && Below(t.pages, rightID) && Known(t, leftID)
      requires CanSplit(t, leftID, rightID) && parentID == t.place[leftID].parent && parentID in pages - spare
      requires pages[parentID] == t.pages[parentID]
      requires (pages - spare)[parentID := node] == SplitPage(t, leftID, rightID).pages && Count(node) <= ORDER
      modifies this
      ensures ok <==> LinkFits(t, leftID, rightID)
      ensures ok ==> Valid() && view == t.view
      ensures ok ==> var g := AfterLink(t, leftID, rightID); Repr() == g.tree && pageCount == g.next
      ensures !ok ==> rootID == old(rootID) && place == old(place) && leaves == old(leaves) && view == old(view)
      ensures !ok ==>
        var span := LostSpan(t, leftID, rightID);
        FindsAllBut(pages, rootID, t.place[t.root].height, t.view, span.0, span.1)
      ensures !ok ==> t.leaves != [] && ScanWhole(pages, t.leaves[0], t.view)
      ensures SmallPages(t.pages) && SmallPages(old(pages)) && node.Internal? && |node.children| == |node.keys| + 1 ==>
        ok && Small()
    {
      hide WellFormed, PathTo, CanSplit, SplitPage, FindsAllBut, LostSpan, ScanWhole, AfterLink, AgreeBut, LinkFits;
      ghost var t2 := SplitPage(t, leftID, rightID);
      NewChild(t, leftID, rightID);
      LinkedHere(t, leftID, rightID);
      LinkHere(t, leftID, rightID);
      assert t2.pages[parentID] == node;
      if SmallPages(t.pages) && node.Internal? && |node.children| == |node.keys| + 1 {
        SmallFits(node);
      }
      ok := FlushNode(parentID, node);
      if ok {
        assert pages - spare == t2.pages;
        Adopt(t2);
      } else {
        AgreesStill(pages, spare, t2, old(pages - spare), parentID, node);
        ParentLost(pages, t, leftID, rightID, path);
        WholeBelow(pages, t, leftID, rightID);
        SpanHere(t, leftID, rightID);
      }
    }

    /** The parent has no room: it is split in turn. */
    method SplitParent(parentID: PageId, node: Node, ghost leftID: PageId, ghost rightID: PageId,
                       path: seq<PageId>, ghost t: Tree) returns (ok: bool)
      requires PagesOk()
      requires Overfull(t, leftID) && leftID != t.root && PathTo(t, path, leftID) && path != [] && t.root == rootID
      requires pageCount == rightID + 1 && rightID > 0 && Below(t.pages, rightID) && Known(t, leftID)
      requires CanSplit(t, leftID, rightID) && parentID == t.place[leftID].parent && parentID in pages - spare
      requires pages[parentID] == t.pages[parentID] && Fits(SplitOf(t.pages[leftID], leftID, rightID).right)
      requires rightID !in t.pages
      requires (pages - spare)[parentID := node] == SplitPage(t, leftID, rightID).pages && Count(node) > ORDER
      modifies this
      ensures ok <==> LinkFits(t, leftID, rightID)
      ensures ok ==> Valid() && view == t.view
      ensures ok ==> var g := AfterLink(t, leftID, rightID); Repr() == g.tree && pageCount == g.next
      ensures !ok ==> rootID == old(rootID) && place == old(place) && leaves == old(leaves) && view == old(view)
      ensures !ok ==>
        var span := LostSpan(t, leftID, rightID);
        FindsAllBut(pages, rootID, t.place[t.root].height, t.view, span.0, span.1)
      ensures !ok ==> t.leaves != [] && ScanWhole(pages, t.leaves[0], t.view)
      ensures SmallPages(t.pages) && SmallPages(old(pages)) ==> ok && Small()
      decreases |path|, 0
    {
      hide WellFormed, Overfull, PathTo, CanSplit, SplitPage, SplitOf, FindsAllBut, LostSpan, SplitFits, LinkFits, Fits;
      hide LeftHalf, Known, Below, FitPages, SmallPages, AgreeBut, AfterLink, ScanWhole;
      ghost var t2 := SplitPage(t, leftID, rightID);
      NewChild(t, leftID, rightID);
      NewChildSite(t, leftID, rightID, path);
      SplitPlaces(t, leftID, rightID);
      MoreBelow(t, leftID, rightID);
      LinkAbove(t, leftID, rightID);
      LinkedAbove(t, leftID, rightID);
      HasLeaves(t, leftID);
      FirstStays(t, leftID, rightID);
      assert t2.pages[parentID] == node;
      ok := SplitNode(parentID, node, path[..|path| - 1], t2);
      if !ok {
        if !Fits(LeftHalf(t2, parentID, rightID + 1)) {
          ParentStays(pages, spare, t, old(pages - spare), node, leftID, rightID, path);
        } else {
          SpanAbove(t, leftID, rightID);
        }
      }
    }

    /** Takes over the bookkeeping of t, whose pages are already in place. */
    ghost method Adopt(t: Tree)
      requires t.pages == pages - spare && t.root == rootID
      modifies this`place, this`leaves, this`view
      ensures Repr() == t
    {
      place, leaves, view := t.place, t.leaves, t.view;
    }

    method LeftmostLeaf() returns (id: PageId)
      requires Valid()
      ensures id == leaves[0]
    {
      ghost var t := Repr();
      id := rootID;
      while pages[id].Internal?
        invariant id in t.pages && t.place[id].lo == 0.0
        decreases t.place[id].height
      {
        Reached(t, id);
        FirstChild(t, id);
        id := pages[id].children[0];
      }
      FirstLeaf(t, id);
    }

    /** Every entry, leaf by leaf along the next pointers. The callback is modelled by what it is given,
        and never stops the scan early. */
    method FullScan() returns (out: seq<Entry>)
      requires Valid()
      ensures Lists(out, view)
    {
      ghost var t := Repr();
      var id := LeftmostLeaf();
      out := [];
      ghost var n := 0;
      assert Lists(out, Slice(view, 0.0, 0.0));
      while true
        invariant n < |leaves| && id == leaves[n]
        invariant Lists(out, Slice(view, 0.0, place[id].lo))
        decreases |leaves| - n
      {
        InChain(t, n);
        var es := pages[id].entries;
        Enter(t, id, out, 0.0);
        for i := 0 to |es|
          invariant Lists(out, Slice(view, 0.0, EntryRank(place[id], es, i)))
        {
          Emit(t, id, i, out, 0.0);
          out := out + [es[i]];
        }
        if pages[id].next == 0 {
          break;
        }
        id := pages[id].next;
        n := n + 1;
      }
      assert Slice(view, 0.0, 1.0) == view;
    }

    /** Every entry with key in [start, end): skip what is below start, stop at the first key at or past end. */
    method RangeScan(start: Key, end: Key) returns (out: seq<Entry>)
      requires Valid()
      ensures Lists(out, Range(view, start, end))
    {
      hide Lists, Slice, Balanced, Less, Range;
      ghost var t := Repr();
      var path, id := FindLeafWithPath(start);
      out := [];
      ghost var n := PositionInChain(t, id);
      ghost var a := Rank(start);
      NothingYet(view, a, place[id].lo);
      while true
        invariant n < |leaves| && id == leaves[n]
        invariant Lists(out, Slice(view, a, place[id].lo))
        invariant forall e :: e in out ==> Less(e.key, end)
        decreases |leaves| - n
      {
        InChain(t, n);
        var es := pages[id].entries;
        Enter(t, id, out, a);
        for i := 0 to |es|
          invariant Lists(out, Slice(view, a, EntryRank(place[id], es, i)))
          invariant forall e :: e in out ==> Less(e.key, end)
        {
          OrderLaws();
          if Less(es[i].key, start) {
            Skip(t, id, i, out, a);
            continue;
          }
          if !Less(es[i].key, end) {
            Finish(view, out, start, end, Rank(es[i].key));
            return;
          }
          Emit(t, id, i, out, a);
          out := out + [es[i]];
        }
        if pages[id].next == 0 {
          break;
        }
        id := pages[id].next;
        n := n + 1;
      }
      Finish(view, out, start, end, 1.0);
    }

    /** Removes key. Returns false (ErrKeyNotFound) when it is not there. */
    method Delete(key: Key) returns (found: bool)
      requires Valid()
      modifies this
      ensures Valid()
      ensures found == (key in old(view))
      ensures view == old(view) - {key}
      ensures Repr() == AfterDelete(old(Repr()), key) && pageCount == old(pageCount)
      ensures old(Step(OpDelete(key))) == Went(Repr(), pageCount)
      ensures old(Small()) ==> Small()
    {
      hide Placed, Chained, Stores, Balanced, NodeOk, TreeStep, Ending, Less, Sorted, Covers, LeafOf, Fits, SmallNode;
      ghost var t := Repr();
      StepDeletes(t, pageCount, key);
      var path, id := FindLeafWithPath(key);
      LeafUnique(t, id, key);
      var leaf := pages[id];
      var i := FindEntry(leaf.entries, key);
      if i.None? {
        Absent(t, id, key);
        return false;
      }
      var es := leaf.entries[..i.value] + leaf.entries[i.value + 1..];
      DeleteStep(t, id, i.value, key);
      LeafCount(t, id);
      WithoutAt(leaf.entries, i.value, key);
      found := FlushNode(id, leaf.(entries := es));
      view := view - {key};
      assert Repr() == SetEntries(t, id, es, Assign(t.view, key, None));
    }
  }
}
