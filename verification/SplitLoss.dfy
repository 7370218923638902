/** When a split in btree.go runs to its end, and what is lost when one of its page writes does not fit. */
module SplitLoss {
  import opened Keys
  import opened TreeModel
  import opened NodeSizes
  import opened TreeSteps
  import opened TreeLookup

  /** How far a page is below the root. */
  ghost function DepthOf(t: Tree, id: PageId): nat {
    if id in t.place && t.root in t.place && t.place[id].height < t.place[t.root].height
    then t.place[t.root].height - t.place[id].height
    else 0
  }

  lemma Shallower(t: Tree, id: PageId, right: PageId)
    requires Overfull(t, id) && id != t.root && CanSplit(t, id, right)
    ensures DepthOf(SplitPage(t, id, right), t.place[id].parent) < DepthOf(t, id)
  {
    hide SplitOf, WithChild, IndexIn, Chained, Stores, Balanced;
    ParentHeight(t, id);
    Reached(t, id);
    Reached(t, t.place[id].parent);
  }

  lemma MoreBelow(t: Tree, id: PageId, right: PageId)
    requires CanSplit(t, id, right) && Below(t.pages, right)
    ensures Below(SplitPage(t, id, right).pages, right + 1)
  {
    var p := t.place[id].parent;
    hide SplitOf, WithChild, IndexIn;
    assert SplitPage(t, id, right).pages.Keys == t.pages.Keys + {id, right, p};
  }

  /** What goes onto page id when it is split. */
  ghost function LeftHalf(t: Tree, id: PageId, right: PageId): Node
    requires Overfull(t, id)
  {
    Arity(t, id);
    SplitOf(t.pages[id], id, right).left
  }

  ghost function RightHalf(t: Tree, id: PageId, right: PageId): Node
    requires Overfull(t, id)
  {
    Arity(t, id);
    SplitOf(t.pages[id], id, right).right
  }

  /** The left half of a leaf is on its page, linked to a page that is still blank. */
  predicate HalfWritten(pages: map<PageId, Node>, id: PageId, left: Node, right: PageId) {
    && left.Leaf? && left.next == right && id in pages && pages[id] == left
    && right in pages && pages[right] == Leaf([], 0, 0)
  }

  lemma LeftLinks(t: Tree, id: PageId, right: PageId)
    requires Overfull(t, id) && t.pages[id].Leaf?
    ensures LeftHalf(t, id, right).Leaf? && LeftHalf(t, id, right).next == right
  {
  }

  /** Every page write of the split of page id fits: both halves, and then what goes into the parent. right is
      the next free page; t has the overfull node in place. */
  ghost predicate SplitFits(t: Tree, id: PageId, right: PageId)
    requires Overfull(t, id) && right > 0 && Below(t.pages, right)
    decreases DepthOf(t, id), 1
  {
    Arity(t, id);
    var h := SplitOf(t.pages[id], id, right);
    Fits(h.left) && Fits(h.right) && LinkFits(t, id, right)
  }

  /** The halves are written; the new root fits, or the parent does with one more child, or it splits in turn
      and that fits. */
  ghost predicate LinkFits(t: Tree, id: PageId, right: PageId)
    requires Overfull(t, id) && right > 0 && Below(t.pages, right)
    decreases DepthOf(t, id), 0
  {
    Arity(t, id);
    if id == t.root then Fits(Internal([SplitOf(t.pages[id], id, right).sep], [id, right]))
    else
      NewChild(t, id, right);
      Shallower(t, id, right);
      MoreBelow(t, id, right);
      var p, t2 := t.place[id].parent, SplitPage(t, id, right);
      if Count(t2.pages[p]) <= ORDER then Fits(t2.pages[p]) else SplitFits(t2, p, right + 1)
  }

  /** The part of the key space that goes when the left half of page id was written and a later write failed:
      the right half of the last page that was cut in two. */
  ghost function LostSpan(t: Tree, id: PageId, right: PageId): (real, real)
    requires Overfull(t, id) && right > 0 && Below(t.pages, right)
    decreases DepthOf(t, id)
  {
    Arity(t, id);
    var h := SplitOf(t.pages[id], id, right);
    Reached(t, id);
    var here := (Rank(h.sep), t.place[id].hi);
    if !Fits(h.right) || id == t.root then here
    else
      NewChild(t, id, right);
      Shallower(t, id, right);
      MoreBelow(t, id, right);
      var p, t2 := t.place[id].parent, SplitPage(t, id, right);
      if Count(t2.pages[p]) <= ORDER then here
      else
        Arity(t2, p);
        if !Fits(SplitOf(t2.pages[p], p, right + 1).left) then here else LostSpan(t2, p, right + 1)
  }

  /** The leaf that the descent for key ends in. */
  ghost function LeafFrom(t: Tree, x: PageId, key: Key): (id: PageId)
    requires Placed(t) && x in t.pages && Covers(t.place[x], key)
    ensures id in t.pages && t.pages[id].Leaf? && Covers(t.place[id], key)
    decreases t.place[x].height
  {
    if t.pages[x].Leaf? then x
    else
      StepDown(t, x, key);
      LeafFrom(t, t.pages[x].children[Pick(t.pages[x].keys, key)], key)
  }

  ghost function LeafOf(t: Tree, key: Key): (id: PageId)
    requires Placed(t)
    ensures id in t.pages && t.pages[id].Leaf? && Covers(t.place[id], key)
  {
    RootCovers(t, key);
    LeafFrom(t, t.root, key)
  }

  lemma LeafUnique(t: Tree, id: PageId, key: Key)
    requires Placed(t) && Chained(t) && id in t.pages && t.pages[id].Leaf? && Covers(t.place[id], key)
    ensures LeafOf(t, key) == id
  {
    DisjointLeaves(t);
  }

  /** The leaf responsible for key, with key set to value. */
  ghost function NewEntries(t: Tree, key: Key, value: Val): seq<Entry>
    requires Placed(t)
  {
    SetKey(t.pages[LeafOf(t, key)].entries, key, value)
  }

  /** The tree that Put is after, if need be with one entry too many in that leaf. */
  ghost function WithKey(t: Tree, key: Key, value: Val): Tree
    requires Placed(t)
  {
    SetEntries(t, LeafOf(t, key), NewEntries(t, key, value), t.view[key := value])
  }

  /** Put fits: the leaf with its new entries does, or every write of the split it calls for does. next is the
      next free page. */
  ghost predicate PutFits(t: Tree, key: Key, value: Val, next: PageId)
    requires WellFormed(t, 0) && next > 0 && Below(t.pages, next)
  {
    var id, es := LeafOf(t, key), NewEntries(t, key, value);
    if |es| <= ORDER then Fits(WithEntries(t.pages[id], es))
    else
      SetKeyStep(t, id, key, value);
      SplitFits(WithKey(t, key, value), id, next)
  }

  /** The halves of the leaf responsible for key with key set to value. */
  ghost function NewHalves(t: Tree, key: Key, value: Val, next: PageId): Halves
    requires Placed(t) && |NewEntries(t, key, value)| > ORDER
  {
    SplitOf(WithEntries(t.pages[LeafOf(t, key)], NewEntries(t, key, value)), LeafOf(t, key), next)
  }

  /** Put tears the tree: the leaf is full, its left half is written, and a later write does not fit. */
  ghost predicate Tears(t: Tree, key: Key, value: Val, next: PageId)
    requires WellFormed(t, 0) && next > 0 && Below(t.pages, next)
  {
    && |NewEntries(t, key, value)| > ORDER
    && Fits(NewHalves(t, key, value, next).left) && !PutFits(t, key, value, next)
  }

  /** The keys that are gone then. */
  ghost function TornSpan(t: Tree, key: Key, value: Val, next: PageId): (real, real)
    requires WellFormed(t, 0) && next > 0 && Below(t.pages, next) && Tears(t, key, value, next)
  {
    SetKeyStep(t, LeafOf(t, key), key, value);
    LostSpan(WithKey(t, key, value), LeafOf(t, key), next)
  }

  /** A Put that tore the tree: the tree and the next free page before it, and what was put. */
  datatype TornPut = TornPut(tree: Tree, next: nat, key: Key, value: Val)

  /** The pages, from the root on, are what that Put left: everything is found but the keys of the lost span. */
  ghost predicate TornBy(pages: map<PageId, Node>, root: PageId, x: TornPut) {
    && WellFormed(x.tree, 0) && x.next > 0 && Below(x.tree.pages, x.next)
    && Tears(x.tree, x.key, x.value, x.next) && x.tree.root in x.tree.place
    && var span := TornSpan(x.tree, x.key, x.value, x.next);
       FindsAllBut(pages, root, x.tree.place[x.tree.root].height, x.tree.view[x.key := x.value], span.0, span.1)
  }

  // ---------------------------------------------------------------------------------------------
  // The right half was not written

  /** Cutting the entries of a leaf cuts what is found in it. */
  lemma CutEntries(es: seq<Entry>, mid: nat, key: Key)
    requires Sorted(es) && mid < |es|
    ensures EntryValue(es[..mid], key) == if Less(key, es[mid].key) then EntryValue(es, key) else None
  {
    EntryValueIs(es, key);
    EntryValueIs(es[..mid], key);
    OrderLaws();
    if Less(key, es[mid].key) {
      assert forall i :: mid < i < |es| ==> Less(es[mid].key, es[i].key);
      forall e | e in es && e.key == key
        ensures e in es[..mid]
      {
        var i :| 0 <= i < |es| && es[i] == e;
        assert es[..mid][i] == e;
      }
      if EntryValue(es, key).Some? {
        OneEntry(es, Entry(key, EntryValue(es, key).value), key);
      }
      if EntryValue(es[..mid], key).Some? {
        OneEntry(es, Entry(key, EntryValue(es[..mid], key).value), key);
      }
    } else {
      forall e | e in es[..mid]
        ensures e.key != key
      {
        var i :| 0 <= i < mid && es[..mid][i] == e;
        assert Less(es[i].key, es[mid].key);
      }
    }
  }

  lemma OneEntry(es: seq<Entry>, e: Entry, key: Key)
    requires Sorted(es) && e in es && e.key == key
    ensures EntryValue(es, key) == Some(e.value)
  {
    EntryValueIs(es, key);
    OrderLaws();
    var f := Entry(key, EntryValue(es, key).value);
    var i :| 0 <= i < |es| && es[i] == e;
    var j :| 0 <= j < |es| && es[j] == f;
  }

  /** Searching on from a page of which only the left half was written. */
  lemma AtLeft(pages: map<PageId, Node>, t: Tree, id: PageId, right: PageId, key: Key, depth: nat)
    requires Overfull(t, id) && AgreeBut(pages, t, id) && Covers(t.place[id], key) && depth > t.place[id].height
    requires id in pages && (t.pages[id].Internal? ==> |t.pages[id].children| == |t.pages[id].keys| + 1)
    requires pages[id] == SplitOf(t.pages[id], id, right).left
    ensures Lookup(pages, id, key, depth)
         == if Less(key, SplitOf(t.pages[id], id, right).sep) then ValueIn(t.view, key) else None
  {
    if t.pages[id].Leaf? {
      AtLeftLeaf(pages, t, id, right, key, depth);
    } else {
      AtLeftInternal(pages, t, id, right, key, depth);
    }
  }

  lemma AtLeftLeaf(pages: map<PageId, Node>, t: Tree, id: PageId, right: PageId, key: Key, depth: nat)
    requires Overfull(t, id) && Covers(t.place[id], key) && depth > 0 && t.pages[id].Leaf?
    requires id in pages && pages[id] == SplitOf(t.pages[id], id, right).left
    ensures Lookup(pages, id, key, depth)
         == if Less(key, SplitOf(t.pages[id], id, right).sep) then ValueIn(t.view, key) else None
  {
    hide Lookup, Placed, Chained, Stores, Balanced, Covers, EntryValue;
    var es := t.pages[id].entries;
    LookupIs(pages, id, key, depth);
    LeafInside(t, id, key);
    LeafSorted(t, id);
    CutEntries(es, |es| / 2, key);
  }

  lemma LeafSorted(t: Tree, id: PageId)
    requires Placed(t) && id in t.pages && t.pages[id].Leaf?
    ensures Sorted(t.pages[id].entries)
  {
    Reached(t, id);
  }

  lemma AtLeftInternal(pages: map<PageId, Node>, t: Tree, id: PageId, right: PageId, key: Key, depth: nat)
    requires Overfull(t, id) && AgreeBut(pages, t, id) && Covers(t.place[id], key) && depth > t.place[id].height
    requires t.pages[id].Internal? && |t.pages[id].children| == |t.pages[id].keys| + 1
    requires id in pages && pages[id] == SplitOf(t.pages[id], id, right).left
    ensures Lookup(pages, id, key, depth)
         == if Less(key, SplitOf(t.pages[id], id, right).sep) then ValueIn(t.view, key) else None
  {
    hide Lookup, Placed, Chained, Stores, Balanced, Covers, AgreeBut, AgreeBelow;
    var ks, cs := t.pages[id].keys, t.pages[id].children;
    var mid := |ks| / 2;
    LeftPick(t, id, mid, key);
    InPlace(t, id);
    LookupIs(pages, id, key, depth);
    var c := Pick(ks[..mid], key);
    OnlyAbove(pages, t, id, cs[c]);
    SearchFrom(pages, t, cs[c], key, depth - 1);
  }

  /** The child that the left half takes. */
  lemma LeftPick(t: Tree, id: PageId, mid: nat, key: Key)
    requires Placed(t) && id in t.pages && t.pages[id].Internal? && mid < |t.pages[id].keys|
    requires Covers(t.place[id], key)
    ensures |t.pages[id].children| == |t.pages[id].keys| + 1
    ensures var ks, cs := t.pages[id].keys, t.pages[id].children; var c := Pick(ks[..mid], key);
      && c <= mid && cs[c] in t.pages && t.place[cs[c]].height + 1 == t.place[id].height
      && (Covers(t.place[cs[c]], key) <==> Less(key, ks[mid]))
  {
    var ks, cs := t.pages[id].keys, t.pages[id].children;
    Reached(t, id);
    var c := Pick(ks[..mid], key);
    assert ChildAt(t, id, ks, c, cs[c]);
    OrderLaws();
    assert c > 0 ==> !Less(key, ks[..mid][c - 1]);
    assert c < mid ==> Less(key, ks[..mid][c]) && Less(ks[c], ks[mid]);
  }

  /** Pages below id are all as they were. */
  lemma OnlyAbove(pages: map<PageId, Node>, t: Tree, id: PageId, child: PageId)
    requires Placed(t) && AgreeBut(pages, t, id) && id in t.pages && child in t.pages
    requires t.place[child].height < t.place[id].height
    ensures AgreeBelow(pages, t, t.place[child].height)
  {
  }

  /** Going on from a page below which nothing changed, whether or not it is responsible for the key. */
  lemma SearchFrom(pages: map<PageId, Node>, t: Tree, x: PageId, key: Key, depth: nat)
    requires Placed(t) && Stores(t) && x in t.pages && x in t.place
    requires AgreeBelow(pages, t, t.place[x].height) && depth > t.place[x].height
    ensures Lookup(pages, x, key, depth) == if Covers(t.place[x], key) then ValueIn(t.view, key) else None
  {
    hide Lookup, Placed, Stores, Covers, AgreeBelow;
    SearchSame(pages, t, x, key, depth);
    if Covers(t.place[x], key) {
      SearchInside(t, x, key, depth);
    } else {
      SearchOutside(t, x, key, depth);
    }
  }

  /** From the root: what lies right of the separator is gone, everything else is found. */
  lemma RightLost(pages: map<PageId, Node>, t: Tree, id: PageId, right: PageId, path: seq<PageId>)
    requires Overfull(t, id) && PathTo(t, path, id) && AgreeBut(pages, t, id)
    requires id in pages && (t.pages[id].Internal? ==> |t.pages[id].children| == |t.pages[id].keys| + 1)
    requires pages[id] == SplitOf(t.pages[id], id, right).left
    ensures FindsAllBut(pages, t.root, t.place[t.root].height, t.view,
      Rank(SplitOf(t.pages[id], id, right).sep), t.place[id].hi)
  {
    var sep := SplitOf(t.pages[id], id, right).sep;
    forall key: Key, depth: nat | depth > t.place[t.root].height
      ensures Lookup(pages, t.root, key, depth)
           == if Rank(sep) <= Rank(key) < t.place[id].hi then None else ValueIn(t.view, key)
    {
      OneLost(pages, t, id, right, path, key, depth);
    }
  }

  lemma OneLost(pages: map<PageId, Node>, t: Tree, id: PageId, right: PageId, path: seq<PageId>, key: Key, depth: nat)
    requires Overfull(t, id) && PathTo(t, path, id) && AgreeBut(pages, t, id) && depth > t.place[t.root].height
    requires id in pages && (t.pages[id].Internal? ==> |t.pages[id].children| == |t.pages[id].keys| + 1)
    requires pages[id] == SplitOf(t.pages[id], id, right).left
    ensures Lookup(pages, t.root, key, depth)
         == if Rank(SplitOf(t.pages[id], id, right).sep) <= Rank(key) < t.place[id].hi then None
            else ValueIn(t.view, key)
  {
    hide Lookup, Placed, Chained, Stores, Balanced, AgreeBut;
    SepInside(t, id, right);
    OrderLaws();
    if Covers(t.place[id], key) {
      SearchReaches(pages, t, path, id, key, depth);
      AtLeft(pages, t, id, right, key, depth - |path|);
    } else {
      RootCovers(t, key);
      SearchAvoids(pages, t, id, t.root, key, depth);
      SearchInside(t, t.root, key, depth);
    }
  }

  lemma SepInside(t: Tree, id: PageId, right: PageId)
    requires Overfull(t, id) && (t.pages[id].Internal? ==> |t.pages[id].children| == |t.pages[id].keys| + 1)
    ensures t.place[id].lo < Rank(SplitOf(t.pages[id], id, right).sep) < t.place[id].hi
  {
    Reached(t, id);
    OrderLaws();
    if t.pages[id].Leaf? {
      var es := t.pages[id].entries;
      assert Less(es[0].key, es[|es| / 2].key);
    }
  }

  lemma RootCovers(t: Tree, key: Key)
    requires Placed(t)
    ensures t.root in t.pages && Covers(t.place[t.root], key)
  {
  }

  // ---------------------------------------------------------------------------------------------
  // Both halves were written, but not what goes above them

  /** What the split of page id below its parent changes in the bookkeeping. */
  lemma SplitPlaces(t: Tree, id: PageId, right: PageId)
    requires Overfull(t, id) && id != t.root && right !in t.pages && right != 0
    ensures CanSplit(t, id, right) && Known(t, id)
    ensures var t2, p := SplitPage(t, id, right), t.place[id].parent;
      && Placed(t2) && Stores(t2) && t2.root == t.root && t2.view == t.view
      && p in t.pages && p in t2.pages && p != id
      && t.root in t.pages && p in t2.place && t2.place[p] == t.place[p]
      && t.root in t2.place && t2.place[t.root] == t.place[t.root]
    ensures PlacesKept(t, SplitPage(t, id, right), id)
    ensures SplitPage(t, id, right).place[id].hi == Rank(SplitOf(t.pages[id], id, right).sep)
  {
    hide Placed, Chained, Stores, SplitPage, CanSplit, SplitOf;
    ParentHeight(t, id);
    Arity(t, id);
    RootCovers(t, []);
    SplitWellFormed(t, id, right);
    ChildrenLower(t, id, right);
    PlacesOfSplit(t, id, right);
  }

  /** The facts about an overfull page that every step needs. */
  ghost predicate Known(t: Tree, id: PageId) {
    && id in t.pages && id in t.place && Count(t.pages[id]) >= 2
    && (t.pages[id].Internal? ==> |t.pages[id].children| == |t.pages[id].keys| + 1)
  }

  lemma KnownPage(t: Tree, id: PageId)
    requires Overfull(t, id)
    ensures Known(t, id)
  {
    Arity(t, id);
  }

  lemma ChildIn(n: Node, j: nat, sep: Key, right: PageId)
    requires n.Internal? && j <= |n.keys| && |n.children| == |n.keys| + 1
    ensures Internal(n.keys[..j] + [sep] + n.keys[j..], n.children[..j + 1] + [right] + n.children[j + 1..])
         == WithChild(n, j, sep, right)
  {
  }

  lemma AgreesStill(pages: map<PageId, Node>, spare: set<PageId>, t: Tree, before: map<PageId, Node>, f: PageId,
                    n: Node)
    requires pages - spare == before && t.pages == before[f := n]
    ensures AgreeBut(pages, t, f)
  {
    forall y | y in t.pages && y != f
      ensures y in pages && pages[y] == t.pages[y]
    {
      assert y in pages - spare;
    }
  }

  /** Apart from the right half's page, only page f differs. */
  lemma AgreesLeft(pages: map<PageId, Node>, spare: set<PageId>, t: Tree, live: map<PageId, Node>,
                   f: PageId, n: Node, left: Node, right: PageId, blank: Node)
    requires right !in t.pages && f in t.pages && live[f := n] == t.pages[right := blank]
    requires pages - spare == live[f := left]
    ensures AgreeBut(pages, t, f) && f in pages && pages[f] == left
  {
    assert f in pages - spare;
    forall y | y in t.pages && y != f
      ensures y in pages && pages[y] == t.pages[y]
    {
      assert y in t.pages[right := blank];
      assert y in live;
      assert y in pages - spare;
    }
  }

  lemma NotYet(pages: map<PageId, Node>, next: PageId)
    requires Below(pages, next)
    ensures next !in pages
  {
  }

  lemma BlankFits()
    ensures Fits(Leaf([], 0, 0)) && Fits(Internal([], []))
  {
  }

  /** Pages stay at their height, and all but id keep their interval. */
  ghost predicate PlacesKept(t: Tree, t2: Tree, id: PageId) {
    forall x :: x in t.pages ==> PlaceKept(t, t2, id, x)
  }

  ghost predicate PlaceKept(t: Tree, t2: Tree, id: PageId, x: PageId) {
    && x in t.place && x in t2.pages && x in t2.place
    && t2.place[x].height == t.place[x].height && t2.place[x].lo == t.place[x].lo
    && (x != id ==> t2.place[x].hi == t.place[x].hi)
  }

  lemma PlacesOfSplit(t: Tree, id: PageId, right: PageId)
    requires Placed(t) && right !in t.pages && CanSplit(t, id, right)
    requires var h := SplitOf(t.pages[id], id, right);
      h.right.Internal? ==> forall x :: x in h.right.children ==>
        x in t.pages && x != t.place[id].parent && x != t.root && x != id
    ensures var t2, p := SplitPage(t, id, right), t.place[id].parent;
      && t2.root == t.root && t2.view == t.view && p in t2.pages && p in t2.place && t2.place[p] == t.place[p]
      && (t.root in t.pages ==> t.root in t2.place && t2.place[t.root] == t.place[t.root])
      && t2.place[id].hi == Rank(SplitOf(t.pages[id], id, right).sep)
      && PlacesKept(t, t2, id)
  {
    hide SplitOf, WithChild, IndexIn, SplitPage, Placed;
    var h := SplitOf(t.pages[id], id, right);
    forall x | x in t.pages
      ensures PlaceKept(t, SplitPage(t, id, right), id, x)
    {
      PlaceOfSplit(t, id, right, h, x);
    }
    PlaceOfSplit(t, id, right, h, id);
    PlaceOfSplit(t, id, right, h, t.place[id].parent);
    PlaceOfSplit(t, id, right, h, t.root);
  }

  /** What becomes of one page's place. */
  lemma PlaceOfSplit(t: Tree, id: PageId, right: PageId, h: Halves, x: PageId)
    requires Placed(t) && right !in t.pages && CanSplit(t, id, right) && h == SplitOf(t.pages[id], id, right)
    ensures var t2, p := SplitPage(t, id, right), t.place[id].parent;
      && t2.root == t.root && t2.view == t.view && id in t.pages && p in t.pages && p != id
      && (x in t.pages ==> PlaceKept(t, t2, id, x))
      && (x in t.pages && x != id && !(h.right.Internal? && x in h.right.children) ==> t2.place[x] == t.place[x])
      && (x == id ==> t2.place[id].hi == Rank(h.sep))
  {
    hide SplitOf, WithChild, IndexIn, NodeOk;
  }

  /** The children that move under the right half are neither the parent nor the root. */
  lemma ChildrenLower(t: Tree, id: PageId, right: PageId)
    requires Overfull(t, id) && CanSplit(t, id, right)
    ensures var h := SplitOf(t.pages[id], id, right);
      h.right.Internal? ==> forall x :: x in h.right.children ==>
        x in t.pages && x != t.place[id].parent && x != t.root && x != id
  {
    var h := SplitOf(t.pages[id], id, right);
    if h.right.Internal? {
      ParentHeight(t, id);
      Reached(t, id);
      Reached(t, t.root);
      forall x | x in h.right.children
        ensures x in t.pages && x != t.place[id].parent && x != t.root && x != id
      {
        var i :| 0 <= i < |h.right.children| && h.right.children[i] == x;
        var c := i + |t.pages[id].keys| / 2 + 1;
        assert t.pages[id].children[c] == x;
        assert ChildAt(t, id, t.pages[id].keys, c, x);
      }
    }
  }

  /** The parent without the new separator and child: the keys of the right half end in the left one. */
  lemma AtOldParent(pages: map<PageId, Node>, t: Tree, id: PageId, right: PageId, key: Key, depth: nat)
    requires Overfull(t, id) && id != t.root && right !in t.pages && right != 0 && CanSplit(t, id, right)
    requires var t2, p := SplitPage(t, id, right), t.place[id].parent;
      && AgreeBut(pages, t2, p) && p in pages && pages[p] == t.pages[p]
      && Covers(t.place[p], key) && depth > t.place[p].height
    ensures Lookup(pages, t.place[id].parent, key, depth)
         == if Rank(SplitOf(t.pages[id], id, right).sep) <= Rank(key) < t.place[id].hi then None
            else ValueIn(t.view, key)
  {
    hide Lookup, Placed, Chained, Stores, Balanced, AgreeBut, AgreeBelow, SplitPage, CanSplit, SplitOf;
    SplitPlaces(t, id, right);
    var t2, p := SplitPage(t, id, right), t.place[id].parent;
    ParentHeight(t, id);
    StepDown(t, p, key);
    var x := t.pages[p].children[Pick(t.pages[p].keys, key)];
    LookupIs(pages, p, key, depth);
    OnlyAbove(pages, t2, p, x);
    assert PlaceKept(t, t2, id, x) && PlaceKept(t, t2, id, id);
    SearchFrom(pages, t2, x, key, depth - 1);
    SepInside(t, id, right);
    if Covers(t.place[id], key) {
      TakesChild(t, id, key);
    }
  }

  /** From the root, when the parent was not written. */
  lemma ParentLost(pages: map<PageId, Node>, t: Tree, id: PageId, right: PageId, path: seq<PageId>)
    requires Overfull(t, id) && PathTo(t, path, id) && path != [] && right !in t.pages && right != 0
    requires CanSplit(t, id, right)
    requires var t2, p := SplitPage(t, id, right), t.place[id].parent;
      AgreeBut(pages, t2, p) && p in pages && pages[p] == t.pages[p]
    ensures FindsAllBut(pages, t.root, t.place[t.root].height, t.view,
      Rank(SplitOf(t.pages[id], id, right).sep), t.place[id].hi)
  {
    var sep := SplitOf(t.pages[id], id, right).sep;
    forall key: Key, depth: nat | depth > t.place[t.root].height
      ensures Lookup(pages, t.root, key, depth)
           == if Rank(sep) <= Rank(key) < t.place[id].hi then None else ValueIn(t.view, key)
    {
      OneParentLost(pages, t, id, right, path, key, depth);
    }
  }

  lemma OneParentLost(pages: map<PageId, Node>, t: Tree, id: PageId, right: PageId, path: seq<PageId>, key: Key,
                      depth: nat)
    requires Overfull(t, id) && PathTo(t, path, id) && path != [] && right !in t.pages && right != 0
    requires CanSplit(t, id, right) && depth > t.place[t.root].height
    requires var t2, p := SplitPage(t, id, right), t.place[id].parent;
      AgreeBut(pages, t2, p) && p in pages && pages[p] == t.pages[p]
    ensures Lookup(pages, t.root, key, depth)
         == if Rank(SplitOf(t.pages[id], id, right).sep) <= Rank(key) < t.place[id].hi then None
            else ValueIn(t.view, key)
  {
    hide Lookup, Placed, Chained, Stores, Balanced, AgreeBut, SplitPage, CanSplit, PathTo, SplitOf;
    Unpath(t, path, id);
    SplitPlaces(t, id, right);
    SepInside(t, id, right);
    var t2, p, n := SplitPage(t, id, right), t.place[id].parent, |path| - 1;
    NewChildSite(t, id, right, path);
    if Covers(t.place[p], key) {
      SearchReaches(pages, t2, path[..n], p, key, depth);
      AtOldParent(pages, t, id, right, key, depth - n);
    } else {
      RootCovers(t2, key);
      SearchAvoids(pages, t2, p, t.root, key, depth);
      SearchInside(t2, t.root, key, depth);
      ChildWithin(t, id, key);
    }
  }

  lemma ChildWithin(t: Tree, id: PageId, key: Key)
    requires Overfull(t, id) && id != t.root && !Covers(t.place[t.place[id].parent], key)
    ensures !Covers(t.place[id], key)
  {
    if Covers(t.place[id], key) {
      TakesChild(t, id, key);
    }
  }

  /** When the new root was not written, the search still starts in the old one, of which the left half is left. */
  lemma RootLost(pages: map<PageId, Node>, t: Tree, right: PageId, top: PageId)
    requires Overfull(t, t.root) && right !in t.pages && right != 0 && top !in t.pages && top != 0 && right != top
    requires CanSplit(GrowRoot(t, top), t.root, right)
    requires AgreeBut(pages, SplitPage(GrowRoot(t, top), t.root, right), top)
    requires t.pages[t.root].Internal? ==> |t.pages[t.root].children| == |t.pages[t.root].keys| + 1
    ensures FindsAllBut(pages, t.root, t.place[t.root].height, t.view,
      Rank(SplitOf(t.pages[t.root], t.root, right).sep), t.place[t.root].hi)
  {
    var sep := SplitOf(t.pages[t.root], t.root, right).sep;
    forall key: Key, depth: nat | depth > t.place[t.root].height
      ensures Lookup(pages, t.root, key, depth)
           == if Rank(sep) <= Rank(key) < t.place[t.root].hi then None else ValueIn(t.view, key)
    {
      OneRootLost(pages, t, right, top, key, depth);
    }
  }

  lemma OneRootLost(pages: map<PageId, Node>, t: Tree, right: PageId, top: PageId, key: Key, depth: nat)
    requires Overfull(t, t.root) && right !in t.pages && right != 0 && top !in t.pages && top != 0 && right != top
    requires CanSplit(GrowRoot(t, top), t.root, right) && t.root in t.place && depth > t.place[t.root].height
    requires AgreeBut(pages, SplitPage(GrowRoot(t, top), t.root, right), top)
    requires t.pages[t.root].Internal? ==> |t.pages[t.root].children| == |t.pages[t.root].keys| + 1
    ensures Lookup(pages, t.root, key, depth)
         == if Rank(SplitOf(t.pages[t.root], t.root, right).sep) <= Rank(key) < t.place[t.root].hi then None
            else ValueIn(t.view, key)
  {
    hide Lookup, Placed, Chained, Stores, Balanced, AgreeBut, AgreeBelow, SplitPage, GrowRoot, CanSplit, SplitOf;
    var t3 := SplitPage(GrowRoot(t, top), t.root, right);
    NewRoot(t, t.root, right, top);
    RootPlaces(t, right, top);
    OnlyAbove(pages, t3, top, t.root);
    SearchFrom(pages, t3, t.root, key, depth);
  }

  lemma RootPlaces(t: Tree, right: PageId, top: PageId)
    requires Overfull(t, t.root) && right !in t.pages && right != 0 && top !in t.pages && top != 0 && right != top
    requires CanSplit(GrowRoot(t, top), t.root, right)
    ensures var t3 := SplitPage(GrowRoot(t, top), t.root, right);
      && top in t3.pages && t.root in t3.pages && t3.place[top].height == t.place[t.root].height + 1
      && t3.place[t.root].height == t.place[t.root].height && t3.place[t.root].lo == 0.0
      && t3.place[t.root].hi == Rank(SplitOf(t.pages[t.root], t.root, right).sep) && t.place[t.root].hi == 1.0
  {
  }

  lemma SpanRight(t: Tree, id: PageId, right: PageId)
    requires Overfull(t, id) && right > 0 && Below(t.pages, right) && Known(t, id)
    requires !Fits(SplitOf(t.pages[id], id, right).right)
    ensures LostSpan(t, id, right) == (Rank(SplitOf(t.pages[id], id, right).sep), t.place[id].hi)
  {
  }

  /** When nothing above page id is split, the right half of page id is what goes. */
  lemma SpanHere(t: Tree, id: PageId, right: PageId)
    requires Overfull(t, id) && right > 0 && Below(t.pages, right) && Known(t, id)
    requires id == t.root || (CanSplit(t, id, right)
      && t.place[id].parent in SplitPage(t, id, right).pages
      && Count(SplitPage(t, id, right).pages[t.place[id].parent]) <= ORDER)
    ensures LostSpan(t, id, right) == (Rank(SplitOf(t.pages[id], id, right).sep), t.place[id].hi)
  {
  }

  lemma LinkTop(t: Tree, id: PageId, right: PageId)
    requires Overfull(t, id) && right > 0 && Below(t.pages, right) && id == t.root && Known(t, id)
    ensures LinkFits(t, id, right) <==> Fits(Internal([SplitOf(t.pages[id], id, right).sep], [id, right]))
  {
    hide Fits, WellFormed, SplitOf;
  }

  lemma LinkHere(t: Tree, id: PageId, right: PageId)
    requires Overfull(t, id) && right > 0 && Below(t.pages, right) && id != t.root
    requires CanSplit(t, id, right)
    requires t.place[id].parent in SplitPage(t, id, right).pages
    requires Count(SplitPage(t, id, right).pages[t.place[id].parent]) <= ORDER
    ensures LinkFits(t, id, right) <==> Fits(SplitPage(t, id, right).pages[t.place[id].parent])
  {
    hide SplitPage, CanSplit, Fits, WellFormed;
  }

  lemma LinkAbove(t: Tree, id: PageId, right: PageId)
    requires Overfull(t, id) && right > 0 && Below(t.pages, right) && id != t.root
    requires CanSplit(t, id, right)
    requires var t2, p := SplitPage(t, id, right), t.place[id].parent;
      p in t2.pages && Count(t2.pages[p]) > ORDER && Overfull(t2, p) && Below(t2.pages, right + 1)
    ensures LinkFits(t, id, right) <==> SplitFits(SplitPage(t, id, right), t.place[id].parent, right + 1)
  {
    hide SplitFits;
  }

  /** When the parent is split too, it depends on how far that got. */
  lemma SpanAbove(t: Tree, id: PageId, right: PageId)
    requires Overfull(t, id) && right > 0 && Below(t.pages, right) && Known(t, id) && id != t.root
    requires CanSplit(t, id, right) && Fits(SplitOf(t.pages[id], id, right).right)
    requires var t2, p := SplitPage(t, id, right), t.place[id].parent;
      p in t2.pages && Count(t2.pages[p]) > ORDER && Overfull(t2, p) && Below(t2.pages, right + 1)
    ensures var t2, p := SplitPage(t, id, right), t.place[id].parent;
      LostSpan(t, id, right) == if Fits(LeftHalf(t2, p, right + 1)) then LostSpan(t2, p, right + 1)
        else (Rank(SplitOf(t.pages[id], id, right).sep), t.place[id].hi)
  {
  }

  /** The pages of the tree are below the next free page, with any node on page id. */
  lemma TreeBelow(tree: map<PageId, Node>, pages: map<PageId, Node>, id: PageId, n: Node, spare: set<PageId>,
                  next: PageId)
    requires Below(pages, next) && id in pages && tree == (pages - spare)[id := n]
    ensures Below(tree, next)
  {
  }

  // ---------------------------------------------------------------------------------------------
  // An input

  lemma {:induction false} SizeOfEqual(es: seq<Entry>, w: nat)
    requires forall i :: 0 <= i < |es| ==> |es[i].key| + |es[i].value| == w
    ensures EntriesSize(es) == (6 + w) * |es|
  {
    if es != [] {
      SizeOfEqual(es[1..], w);
    }
  }

  lemma {:induction false} SizeOfSum(a: seq<Entry>, b: seq<Entry>)
    ensures EntriesSize(a + b) == EntriesSize(a) + EntriesSize(b)
  {
    if a == [] {
      assert a + b == b;
    } else {
      assert (a + b)[1..] == a[1..] + b;
      SizeOfSum(a[1..], b);
    }
  }

  /** A tree that is one full leaf of ten-byte entries. */
  ghost predicate TenByteLeaf(t: Tree) {
    && WellFormed(t, 0) && t.pages[t.root].Leaf? && |t.pages[t.root].entries| == ORDER
    && forall i :: 0 <= i < ORDER ==>
         |t.pages[t.root].entries[i].key| + |t.pages[t.root].entries[i].value| == 10
  }

  /** One more entry behind the others: up to 3192 bytes it is stored. From 3193 bytes on, which still is less
      than a page holds, half of the stored entries go. */
  lemma LastEntryIff(t: Tree, key: Key, value: Val, next: PageId)
    requires TenByteLeaf(t) && next > 0 && Below(t.pages, next)
    requires Less(t.pages[t.root].entries[ORDER - 1].key, key)
    ensures PutFits(t, key, value, next) <==> |key| + |value| <= 3192
    ensures |key| + |value| > 3192 ==>
      Tears(t, key, value, next) && TornSpan(t, key, value, next) == (Rank(t.pages[t.root].entries[50].key), 1.0)
    ensures |key| + |value| <= 3992 ==> Fits(Leaf([Entry(key, value)], 0, 0))
  {
    hide Rooted, NodeOk, Chained, Stores, Balanced, PutFits, Tears, TornSpan, Overfull, NewEntries, NewHalves, LeafOf;
    hide Fits;
    LastEntryLeaf(t, key, value);
    LastEntryHalves(t, key, value, next);
    LastEntrySplit(t, key, value, next);
    TopIsOne(t);
    OneEntryFits(Entry(key, value));
  }

  lemma OneEntryFits(e: Entry)
    ensures |e.key| + |e.value| <= 3992 ==> Fits(Leaf([e], 0, 0))
  {
    assert EntriesSize([e]) == 6 + |e.key| + |e.value| + EntriesSize([e][1..]);
  }

  lemma LastEntryHalves(t: Tree, key: Key, value: Val, next: PageId)
    requires TenByteLeaf(t) && LeafOf(t, key) == t.root
    requires NewEntries(t, key, value) == t.pages[t.root].entries + [Entry(key, value)]
    ensures |NewEntries(t, key, value)| > ORDER
    ensures var h := NewHalves(t, key, value, next);
      && h.sep == t.pages[t.root].entries[50].key && |h.sep| <= 10
      && Fits(h.left) && (Fits(h.right) <==> |key| + |value| <= 3192)
  {
    hide WellFormed, NewEntries, LeafOf;
    var es := t.pages[t.root].entries;
    LastEntrySizes(es, Entry(key, value));
    var all := es + [Entry(key, value)];
    assert all[..50] == es[..50] && all[50..] == es[50..] + [Entry(key, value)];
  }

  lemma TopIsOne(t: Tree)
    requires WellFormed(t, 0)
    ensures t.root in t.place && t.place[t.root].hi == 1.0
  {
  }

  lemma LastEntryLeaf(t: Tree, key: Key, value: Val)
    requires TenByteLeaf(t) && Less(t.pages[t.root].entries[ORDER - 1].key, key)
    ensures Placed(t) && LeafOf(t, key) == t.root && Covers(t.place[t.root], key)
    ensures NewEntries(t, key, value) == t.pages[t.root].entries + [Entry(key, value)]
  {
    hide NodeOk, Chained, Stores, Balanced, Sorted, Less, SetKey, LeafOf;
    var es := t.pages[t.root].entries;
    RootCovers(t, key);
    LeafUnique(t, t.root, key);
    LeafSorted(t, t.root);
    PutLast(es, key, value);
  }

  /** A key past all the others goes to the end. */
  lemma PutLast(es: seq<Entry>, key: Key, value: Val)
    requires Sorted(es) && es != [] && Less(es[|es| - 1].key, key)
    ensures SetKey(es, key, value) == es + [Entry(key, value)]
  {
    hide SetKey;
    OrderLaws();
    assert forall i :: 0 <= i < |es| - 1 ==> Less(es[i].key, es[|es| - 1].key);
    SetKeyNew(es, |es|, key, value);
    assert es[..|es|] + [Entry(key, value)] + es[|es|..] == es + [Entry(key, value)];
  }

  lemma LastEntrySizes(es: seq<Entry>, e: Entry)
    requires |es| == ORDER && forall i :: 0 <= i < ORDER ==> |es[i].key| + |es[i].value| == 10
    ensures EntriesSize(es[..50]) == 800 && EntriesSize(es[50..] + [e]) == 806 + |e.key| + |e.value|
    ensures EntriesSize([e]) == 6 + |e.key| + |e.value|
  {
    SizeOfEqual(es[..50], 10);
    SizeOfEqual(es[50..], 10);
    SizeOfSum(es[50..], [e]);
    assert [e][1..] == [];
  }

  /** The root splits: it is the halves that decide. */
  lemma LastEntrySplit(t: Tree, key: Key, value: Val, next: PageId)
    requires WellFormed(t, 0) && next > 0 && Below(t.pages, next) && LeafOf(t, key) == t.root
    requires |NewEntries(t, key, value)| > ORDER
    requires |NewHalves(t, key, value, next).sep| <= 10 && Fits(NewHalves(t, key, value, next).left)
    ensures PutFits(t, key, value, next) <==> Fits(NewHalves(t, key, value, next).right)
    ensures !Fits(NewHalves(t, key, value, next).right) ==>
      Tears(t, key, value, next)
      && TornSpan(t, key, value, next) == (Rank(NewHalves(t, key, value, next).sep), t.place[t.root].hi)
  {
    hide Rooted, NodeOk, Chained, Stores, Balanced, Fits, SetKey, LeafOf, Overfull, SplitFits, LostSpan;
    var t' := WithKey(t, key, value);
    SetKeyStep(t, t.root, key, value);
    SetEntriesFields(t, t.root, NewEntries(t, key, value), t.view[key := value]);
    RootSplit(t', next);
  }

  lemma RootSplit(t: Tree, right: PageId)
    requires Overfull(t, t.root) && t.pages[t.root].Leaf? && right > 0 && Below(t.pages, right)
    requires var h := SplitOf(t.pages[t.root], t.root, right); |h.sep| <= 10 && Fits(h.left)
    ensures var h := SplitOf(t.pages[t.root], t.root, right);
      && (SplitFits(t, t.root, right) <==> Fits(h.right))
      && (!Fits(h.right) ==> LostSpan(t, t.root, right) == (Rank(h.sep), t.place[t.root].hi))
  {
    var sep := SplitOf(t.pages[t.root], t.root, right).sep;
    assert KeysSize([sep]) == 2 + |sep| + KeysSize([sep][1..]);
    hide WellFormed;
  }

  /** A tree of a single leaf. */
  ghost function OneLeaf(es: seq<Entry>, view: map<Key, Val>): Tree {
    Tree(map[1 := Leaf(es, 0, 0)], 1, map[1 := Place(0, 0.0, 1.0, 0)], [1], view)
  }

  lemma OneLeafWellFormed(es: seq<Entry>, view: map<Key, Val>)
    requires Sorted(es) && |es| <= ORDER
    requires forall e :: e in es ==> e.key in view && view[e.key] == e.value
    requires forall k :: k in view ==> Entry(k, view[k]) in es
    ensures WellFormed(OneLeaf(es, view), 0)
  {
  }

  function Hundred(): seq<Entry> {
    seq(ORDER, i requires 0 <= i < ORDER => Entry([i as byte], seq(9, _ => 0)))
  }

  function HundredMap(): map<Key, Val> {
    map b: byte | b as int < ORDER :: [b] := seq(9, _ => 0)
  }

  /** The keys 0 to 99 with nine bytes each, then key 200 with 3599 bytes: Put fails, and the keys from 50 on
      lie in the part that is gone. */
  lemma FiftyVanish(value: Val)
    requires |value| == 3599
    ensures var t := OneLeaf(Hundred(), HundredMap());
      && WellFormed(t, 0) && Below(t.pages, 2) && Fits(t.pages[1]) && Fits(Leaf([Entry([200], value)], 0, 0))
      && !PutFits(t, [200], value, 2) && Tears(t, [200], value, 2)
      && forall b: byte :: 50 <= b as int < 100 ==>
           [b] in t.view && TornSpan(t, [200], value, 2).0 <= Rank([b]) < TornSpan(t, [200], value, 2).1
  {
    hide Hundred, HundredMap, TenByteLeaf, WellFormed, PutFits, Tears, TornSpan, Fits, OneLeaf;
    var t := OneLeaf(Hundred(), HundredMap());
    HundredLeaf();
    LastEntryIff(t, [200], value, 2);
    forall b: byte | 50 <= b as int < 100
      ensures [b] in t.view && Rank([50]) <= Rank([b]) < 1.0
    {
      HundredKey(b);
    }
  }

  /** A full leaf of ten-byte entries as the whole tree. */
  lemma TenByteRoot(es: seq<Entry>, view: map<Key, Val>)
    requires Sorted(es) && |es| == ORDER && forall i :: 0 <= i < ORDER ==> |es[i].key| + |es[i].value| == 10
    requires forall e :: e in es ==> e.key in view && view[e.key] == e.value
    requires forall k :: k in view ==> Entry(k, view[k]) in es
    ensures var t := OneLeaf(es, view);
      TenByteLeaf(t) && WellFormed(t, 0) && Below(t.pages, 2) && t.pages[1] == Leaf(es, 0, 0) && t.root == 1
    ensures Fits(Leaf(es, 0, 0))
  {
    hide WellFormed;
    OneLeafWellFormed(es, view);
    SizeOfEqual(es, 10);
  }

  lemma HundredLeaf()
    ensures var t := OneLeaf(Hundred(), HundredMap());
      && TenByteLeaf(t) && WellFormed(t, 0) && Below(t.pages, 2) && Fits(t.pages[1]) && t.view == HundredMap()
      && |t.pages[t.root].entries| == ORDER && t.pages[t.root].entries[50].key == [50]
      && Less(t.pages[t.root].entries[ORDER - 1].key, [200])
  {
    hide Hundred, HundredMap, WellFormed, TenByteLeaf, Fits, Sorted, Below;
    HundredListed();
    TenByteRoot(Hundred(), HundredMap());
  }

  lemma HundredKey(b: byte)
    requires 50 <= b as int < 100
    ensures [b] in HundredMap() && Rank([50]) <= Rank([b]) < 1.0
  {
    hide Hundred, HundredMap;
    OrderLaws();
    HundredListed();
    assert b == 50 || Less([50], [b]);
    assert Hundred()[b as int] in Hundred();
  }

  lemma HundredListed()
    ensures Sorted(Hundred()) && |Hundred()| == ORDER
    ensures forall i :: 0 <= i < ORDER ==> Hundred()[i].key == [i as byte] && |Hundred()[i].value| == 9
    ensures forall e :: e in Hundred() ==> e.key in HundredMap() && HundredMap()[e.key] == e.value
    ensures forall k :: k in HundredMap() ==> Entry(k, HundredMap()[k]) in Hundred()
  {
    forall k | k in HundredMap()
      ensures Entry(k, HundredMap()[k]) in Hundred()
    {
      assert Hundred()[k[0] as int] == Entry(k, HundredMap()[k]);
    }
  }
}
