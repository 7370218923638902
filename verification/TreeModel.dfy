/** The B+ tree of btree.go as a value: pages addressed by id, and what makes them a search tree. */
module TreeModel {
  import opened Keys

  type PageId = nat

  const ORDER := 100

  datatype Entry = Entry(key: Key, value: Val)

  /** A page's node. Page id 0 is the database header, so 0 stands for "no leaf" in next and prev. */
  datatype Node =
    | Leaf(entries: seq<Entry>, next: PageId, prev: PageId)
    | Internal(keys: seq<Key>, children: seq<PageId>)

  /** Where a page sits: its height, the half-open interval of key ranks it is responsible for, and the
      page that points to it. */
  datatype Place = Place(height: nat, lo: real, hi: real, parent: PageId)

  /** The pages, with the bookkeeping that relates them to the map they store: leaves lists the leaf
      pages from left to right, view is the stored map. */
  datatype Tree = Tree(
    pages: map<PageId, Node>,
    root: PageId,
    place: map<PageId, Place>,
    leaves: seq<PageId>,
    view: map<Key, Val>)

  predicate Sorted(es: seq<Entry>) {
    forall i, j :: 0 <= i < j < |es| ==> Less(es[i].key, es[j].key)
  }

  predicate SortedKeys(ks: seq<Key>) {
    forall i, j :: 0 <= i < j < |ks| ==> Less(ks[i], ks[j])
  }

  ghost predicate Covers(p: Place, k: Key) {
    p.lo <= Rank(k) < p.hi
  }

  /** The interval of child i of a node placed at p with separators ks. */
  ghost function ChildLo(p: Place, ks: seq<Key>, i: int): real
    requires 0 <= i <= |ks|
  {
    if i == 0 then p.lo else Rank(ks[i - 1])
  }

  ghost function ChildHi(p: Place, ks: seq<Key>, i: int): real
    requires 0 <= i <= |ks|
  {
    if i == |ks| then p.hi else Rank(ks[i])
  }

  /** Child c of the page id is where child i of id must be. */
  ghost predicate ChildAt(t: Tree, id: PageId, ks: seq<Key>, i: int, c: PageId)
    requires id in t.place && 0 <= i <= |ks|
  {
    && c in t.pages
    && c in t.place
    && t.place[c].height + 1 == t.place[id].height
    && t.place[c].parent == id
    && t.place[c].lo == ChildLo(t.place[id], ks, i)
    && t.place[c].hi == ChildHi(t.place[id], ks, i)
  }

  /** One page is locally right: sorted, inside its interval, children exactly where its separators say. */
  ghost predicate NodeOk(t: Tree, id: PageId)
    requires id in t.pages && id in t.place
  {
    && t.place[id].lo < t.place[id].hi
    && match t.pages[id]
       case Leaf(es, _, _) =>
         && t.place[id].height == 0
         && Sorted(es)
         && (forall i :: 0 <= i < |es| ==> Covers(t.place[id], es[i].key))
       case Internal(ks, cs) =>
         && t.place[id].height > 0
         && |cs| == |ks| + 1
         && SortedKeys(ks)
         && (forall i :: 0 <= i < |ks| ==> t.place[id].lo < Rank(ks[i]) < t.place[id].hi)
         && (forall i :: 0 <= i < |cs| ==> ChildAt(t, id, ks, i, cs[i]))
  }

  ghost predicate Placed(t: Tree) {
    && t.place.Keys == t.pages.Keys
    && Rooted(t)
    && (forall id :: id in t.pages ==> NodeOk(t, id))
    && (forall id :: id in t.pages && id != t.root ==> IsChild(t, id, t.place[id].parent))
  }

  /** The root is responsible for every key, and it alone is at the top. */
  ghost predicate Rooted(t: Tree)
    requires t.place.Keys == t.pages.Keys
  {
    && t.root in t.pages
    && 0 !in t.pages
    && t.place[t.root].lo == 0.0
    && t.place[t.root].hi == 1.0
    && (forall id :: id in t.pages && id != t.root ==> t.place[id].height < t.place[t.root].height)
  }

  ghost predicate IsChild(t: Tree, c: PageId, p: PageId) {
    p in t.pages && t.pages[p].Internal? && c in t.pages[p].children
  }

  /** The next pointers thread the leaves from left to right, and their intervals partition the keys. */
  ghost predicate Chained(t: Tree) {
    && t.place.Keys == t.pages.Keys
    && Listed(t)
    && Linked(t)
    && Partitioned(t)
  }

  ghost predicate Listed(t: Tree) {
    && |t.leaves| > 0
    && (forall i :: 0 <= i < |t.leaves| ==> t.leaves[i] in t.pages && t.pages[t.leaves[i]].Leaf?)
    && (forall id :: id in t.pages && t.pages[id].Leaf? ==> id in t.leaves)
  }

  ghost predicate Linked(t: Tree)
    requires Listed(t)
  {
    && (forall i :: 0 <= i < |t.leaves| - 1 ==> t.pages[t.leaves[i]].next == t.leaves[i + 1])
    && t.pages[t.leaves[|t.leaves| - 1]].next == 0
  }

  ghost predicate Partitioned(t: Tree)
    requires t.place.Keys == t.pages.Keys && Listed(t)
  {
    && t.place[t.leaves[0]].lo == 0.0
    && t.place[t.leaves[|t.leaves| - 1]].hi == 1.0
    && (forall i :: 0 <= i < |t.leaves| - 1 ==> t.place[t.leaves[i]].hi == t.place[t.leaves[i + 1]].lo)
  }

  /** Each leaf holds exactly the part of the stored map that falls into its interval. */
  ghost predicate Stores(t: Tree) {
    && t.place.Keys == t.pages.Keys
    && (forall id, e :: id in t.pages && t.pages[id].Leaf? && e in t.pages[id].entries ==>
         e.key in t.view && t.view[e.key] == e.value)
    && (forall id, k :: id in t.pages && t.pages[id].Leaf? && k in t.view && Covers(t.place[id], k) ==>
         Entry(k, t.view[k]) in t.pages[id].entries)
  }

  function Count(n: Node): nat {
    match n
    case Leaf(es, _, _) => |es|
    case Internal(ks, _) => |ks|
  }

  /** No page holds more than ORDER keys, except that over may hold one more; every internal page but
      the root has at least ORDER / 2 + 1 children, and the root at least two. */
  ghost predicate Balanced(t: Tree, over: PageId) {
    && Filled(t, over)
    && (t.root in t.pages && t.pages[t.root].Internal? ==> Count(t.pages[t.root]) >= 1)
  }

  ghost predicate Filled(t: Tree, over: PageId) {
    && (forall id :: id in t.pages && id != over ==> Count(t.pages[id]) <= ORDER)
    && (over in t.pages ==> Count(t.pages[over]) <= ORDER + 1)
    && (forall id :: id in t.pages && id != t.root && t.pages[id].Internal? ==> Count(t.pages[id]) >= ORDER / 2)
  }

  ghost predicate WellFormed(t: Tree, over: PageId) {
    Placed(t) && Chained(t) && Stores(t) && Balanced(t, over)
  }

  /** path lists the internal pages from the root down to the parent of id. */
  ghost predicate PathTo(t: Tree, path: seq<PageId>, id: PageId) {
    && id in t.pages
    && id in t.place
    && if path == [] then id == t.root
       else id != t.root && t.place[id].parent == path[|path| - 1] && PathTo(t, path[..|path| - 1], path[|path| - 1])
  }

  // ---------------------------------------------------------------------------------------------
  // Changing the entries of one leaf

  function WithEntries(n: Node, es: seq<Entry>): Node
    requires n.Leaf?
  {
    n.(entries := es)
  }

  ghost function SetEntries(t: Tree, id: PageId, es: seq<Entry>, view: map<Key, Val>): Tree
    requires id in t.pages && t.pages[id].Leaf?
  {
    t.(pages := t.pages[id := WithEntries(t.pages[id], es)], view := view)
  }

  /** es holds the same entries as old except at key k, which now maps to v (or is gone). */
  ghost predicate Updated(old_: seq<Entry>, es: seq<Entry>, k: Key, v: Option<Val>) {
    && (forall e :: e in es ==> (e.key == k && v == Some(e.value)) || (e.key != k && e in old_))
    && (forall e :: e in old_ && e.key != k ==> e in es)
    && (v.Some? ==> Entry(k, v.value) in es)
  }

  function Assign(m: map<Key, Val>, k: Key, v: Option<Val>): map<Key, Val> {
    if v.Some? then m[k := v.value] else m - {k}
  }

  /** Rewriting the entry for k in the leaf that covers k updates the stored map at k and nothing else. */
  lemma SetEntriesWellFormed(t: Tree, id: PageId, es: seq<Entry>, k: Key, v: Option<Val>, over: PageId)
    requires WellFormed(t, 0)
    requires id in t.pages && t.pages[id].Leaf? && Covers(t.place[id], k)
    requires Sorted(es) && Updated(t.pages[id].entries, es, k, v)
    requires |es| <= ORDER || (over == id && |es| == ORDER + 1)
    ensures WellFormed(SetEntries(t, id, es, Assign(t.view, k, v)), over)
  {
    SetEntriesPlaced(t, id, es, k, v);
    OnlyHere(t, id, k);
    SetEntriesStores(t, id, es, k, v);
    SetEntriesChained(t, id, es, k, v);
    SetEntriesBalanced(t, id, es, k, v, over);
  }

  lemma SetEntriesChained(t: Tree, id: PageId, es: seq<Entry>, k: Key, v: Option<Val>)
    requires Chained(t) && id in t.pages && t.pages[id].Leaf?
    ensures Chained(SetEntries(t, id, es, Assign(t.view, k, v)))
  {
  }

  lemma SetEntriesBalanced(t: Tree, id: PageId, es: seq<Entry>, k: Key, v: Option<Val>, over: PageId)
    requires Balanced(t, 0) && 0 !in t.pages && id in t.pages && t.pages[id].Leaf?
    requires |es| <= ORDER || (over == id && |es| == ORDER + 1)
    ensures Balanced(SetEntries(t, id, es, Assign(t.view, k, v)), over)
  {
  }

  lemma SetEntriesPlaced(t: Tree, id: PageId, es: seq<Entry>, k: Key, v: Option<Val>)
    requires Placed(t)
    requires id in t.pages && t.pages[id].Leaf? && Covers(t.place[id], k)
    requires Sorted(es) && Updated(t.pages[id].entries, es, k, v)
    ensures Placed(SetEntries(t, id, es, Assign(t.view, k, v)))
  {
    hide NodeOk;
    var t' := SetEntries(t, id, es, Assign(t.view, k, v));
    assert t'.pages.Keys == t.pages.Keys;
    forall x | x in t'.pages
      ensures NodeOk(t', x)
    {
      SetEntriesNode(t, id, es, k, v, x);
    }
    forall x | x in t'.pages && x != t.root
      ensures IsChild(t', x, t'.place[x].parent)
    {
      assert IsChild(t, x, t.place[x].parent);
    }
  }

  lemma SetEntriesNode(t: Tree, id: PageId, es: seq<Entry>, k: Key, v: Option<Val>, x: PageId)
    requires t.place.Keys == t.pages.Keys && x in t.pages && NodeOk(t, x)
    requires id in t.pages && t.pages[id].Leaf? && Covers(t.place[id], k) && NodeOk(t, id)
    requires Sorted(es) && Updated(t.pages[id].entries, es, k, v)
    ensures NodeOk(SetEntries(t, id, es, Assign(t.view, k, v)), x)
  {
    var t' := SetEntries(t, id, es, Assign(t.view, k, v));
    if t.pages[x].Internal? {
      forall i | 0 <= i < |t.pages[x].children|
        ensures ChildAt(t', x, t.pages[x].keys, i, t.pages[x].children[i])
      {
        assert ChildAt(t, x, t.pages[x].keys, i, t.pages[x].children[i]);
      }
    } else if x == id {
      forall i | 0 <= i < |es|
        ensures Covers(t.place[id], es[i].key)
      {
        assert es[i] in es;
      }
    }
  }

  lemma SetEntriesStores(t: Tree, id: PageId, es: seq<Entry>, k: Key, v: Option<Val>)
    requires Stores(t)
    requires id in t.pages && t.pages[id].Leaf? && Covers(t.place[id], k)
    requires forall x :: x in t.pages && t.pages[x].Leaf? && x != id ==> Without(t, x, k)
    requires Updated(t.pages[id].entries, es, k, v)
    ensures Stores(SetEntries(t, id, es, Assign(t.view, k, v)))
  {
  }

  ghost predicate Without(t: Tree, id: PageId, k: Key)
    requires id in t.pages && t.pages[id].Leaf? && id in t.place
  {
    !Covers(t.place[id], k) && forall e :: e in t.pages[id].entries ==> e.key != k
  }

  lemma OnlyHere(t: Tree, id: PageId, k: Key)
    requires Placed(t) && Chained(t)
    requires id in t.pages && t.pages[id].Leaf? && Covers(t.place[id], k)
    ensures forall x :: x in t.pages && t.pages[x].Leaf? && x != id ==> Without(t, x, k)
  {
    DisjointLeaves(t);
    forall x | x in t.pages && t.pages[x].Leaf? && x != id
      ensures Without(t, x, k)
    {
      forall e | e in t.pages[x].entries
        ensures e.key != k
      {
        EntryCovered(t, x, e);
      }
    }
  }

  lemma EntryCovered(t: Tree, id: PageId, e: Entry)
    requires Placed(t) && id in t.pages && t.pages[id].Leaf? && e in t.pages[id].entries
    ensures Covers(t.place[id], e.key)
  {
    assert NodeOk(t, id);
  }

  /** From left to right the intervals of the leaves go up. */
  lemma {:induction false} LeavesAscend(t: Tree, i: nat, j: nat)
    requires Placed(t) && Chained(t) && i < j < |t.leaves|
    ensures t.place[t.leaves[i]].hi <= t.place[t.leaves[j]].lo
    decreases j
  {
    if i + 1 < j {
      LeavesAscend(t, i, j - 1);
      assert NodeOk(t, t.leaves[j - 1]);
    }
  }

  /** Two different leaves are responsible for disjoint intervals. */
  lemma DisjointLeaves(t: Tree)
    requires Placed(t) && Chained(t)
    ensures forall a, b, k :: (a in t.pages && b in t.pages && t.pages[a].Leaf? && t.pages[b].Leaf?
              && Covers(t.place[a], k) && Covers(t.place[b], k)) ==> a == b
    ensures forall i, j :: 0 <= i < j < |t.leaves| ==> t.leaves[i] != t.leaves[j]
  {
    forall a, b, k | a in t.pages && b in t.pages && t.pages[a].Leaf? && t.pages[b].Leaf?
                     && Covers(t.place[a], k) && Covers(t.place[b], k)
      ensures a == b
    {
      var i :| 0 <= i < |t.leaves| && t.leaves[i] == a;
      var j :| 0 <= j < |t.leaves| && t.leaves[j] == b;
      if i < j {
        LeavesAscend(t, i, j);
      } else if j < i {
        LeavesAscend(t, j, i);
      }
    }
    forall i, j | 0 <= i < j < |t.leaves|
      ensures t.leaves[i] != t.leaves[j]
    {
      LeavesAscend(t, i, j);
      assert NodeOk(t, t.leaves[i]);
    }
  }

  // ---------------------------------------------------------------------------------------------
  // Splitting a page

  /** The left half, the separator and the right half of a split. */
  datatype Halves = Halves(left: Node, sep: Key, right: Node)

  function SplitOf(n: Node, id: PageId, right: PageId): Halves
    requires Count(n) >= 2
    requires n.Internal? ==> |n.children| == |n.keys| + 1
  {
    match n
    case Leaf(es, next, prev) =>
      var mid := |es| / 2;
      Halves(Leaf(es[..mid], right, prev), es[mid].key, Leaf(es[mid..], next, id))
    case Internal(ks, cs) =>
      var mid := |ks| / 2;
      Halves(Internal(ks[..mid], cs[..mid + 1]), ks[mid], Internal(ks[mid + 1..], cs[mid + 1..]))
  }

  /** A parent with separator sep and child right inserted after child j. */
  function WithChild(n: Node, j: nat, sep: Key, right: PageId): Node
    requires n.Internal? && j <= |n.keys| && |n.children| == |n.keys| + 1
  {
    Internal(n.keys[..j] + [sep] + n.keys[j..], n.children[..j + 1] + [right] + n.children[j + 1..])
  }

  ghost function IndexIn(s: seq<PageId>, x: PageId): (i: nat)
    requires x in s
    ensures i < |s| && s[i] == x
  {
    var i: nat :| i < |s| && s[i] == x;
    i
  }

  ghost predicate CanSplit(t: Tree, id: PageId, right: PageId) {
    && id in t.pages && id in t.place && id != t.root
    && right !in t.pages && right != 0
    && Count(t.pages[id]) >= 2
    && (t.pages[id].Internal? ==> |t.pages[id].children| == |t.pages[id].keys| + 1)
    && (t.pages[id].Leaf? ==> id in t.leaves)
    && IsChild(t, id, t.place[id].parent)
    && t.place[id].parent != id
    && var p := t.pages[t.place[id].parent]; |p.children| == |p.keys| + 1
  }

  /** The tree after splitting the non-root page id into id and right under its parent. */
  ghost function SplitPage(t: Tree, id: PageId, right: PageId): Tree
    requires CanSplit(t, id, right)
  {
    var h := SplitOf(t.pages[id], id, right);
    var p := t.place[id].parent;
    var j := IndexIn(t.pages[p].children, id);
    t.(pages := t.pages[id := h.left][right := h.right][p := WithChild(t.pages[p], j, h.sep, right)],
       place := map x | x in t.place.Keys + {right} ::
         if x == right then Place(t.place[id].height, Rank(h.sep), t.place[id].hi, p)
         else if x == id then t.place[id].(hi := Rank(h.sep))
         else if h.right.Internal? && x in h.right.children then t.place[x].(parent := right)
         else t.place[x],
       leaves := if h.left.Leaf? then
         var i := IndexIn(t.leaves, id); t.leaves[..i + 1] + [right] + t.leaves[i + 1..]
         else t.leaves)
  }

  /** The separator lies strictly inside the interval of the page it splits. */
  lemma SplitInside(t: Tree, id: PageId, right: PageId)
    requires CanSplit(t, id, right) && NodeOk(t, id)
    ensures t.place[id].lo < Rank(SplitOf(t.pages[id], id, right).sep) < t.place[id].hi
  {
    OrderLaws();
    if t.pages[id].Leaf? {
      var es := t.pages[id].entries;
      assert Less(es[0].key, es[|es| / 2].key);
      assert Covers(t.place[id], es[0].key) && Covers(t.place[id], es[|es| / 2].key);
    }
  }

  lemma SplitLeft(t: Tree, id: PageId, right: PageId)
    requires CanSplit(t, id, right) && NodeOk(t, id) && t.place[id].parent in t.pages
    ensures NodeOk(SplitPage(t, id, right), id)
  {
    var t' := SplitPage(t, id, right);
    var h := SplitOf(t.pages[id], id, right);
    OrderLaws();
    SplitInside(t, id, right);
    assert t'.pages[id] == h.left;
    if h.left.Internal? {
      var ks := t.pages[id].keys;
      forall i | 0 <= i < |h.left.children|
        ensures ChildAt(t', id, h.left.keys, i, h.left.children[i])
      {
        assert ChildAt(t, id, ks, i, h.left.children[i]);
        ChildrenDiffer(t, id);
      }
    }
  }

  /** The children of one page are different pages, and none is the page itself. */
  lemma ChildrenDiffer(t: Tree, id: PageId)
    requires id in t.pages && id in t.place && NodeOk(t, id) && t.pages[id].Internal?
    ensures forall i, j :: 0 <= i < j < |t.pages[id].children| ==> t.pages[id].children[i] != t.pages[id].children[j]
    ensures id !in t.pages[id].children
  {
    var ks, cs := t.pages[id].keys, t.pages[id].children;
    OrderLaws();
    forall i, j | 0 <= i < j < |cs|
      ensures cs[i] != cs[j]
    {
      assert ChildAt(t, id, ks, i, cs[i]) && ChildAt(t, id, ks, j, cs[j]);
      assert i > 0 ==> Less(ks[i - 1], ks[j - 1]);
    }
    forall i | 0 <= i < |cs|
      ensures cs[i] != id
    {
      assert ChildAt(t, id, ks, i, cs[i]);
    }
  }

  lemma SplitRight(t: Tree, id: PageId, right: PageId)
    requires CanSplit(t, id, right) && NodeOk(t, id) && t.place[id].parent in t.pages
    ensures NodeOk(SplitPage(t, id, right), right)
  {
    var t' := SplitPage(t, id, right);
    var h := SplitOf(t.pages[id], id, right);
    OrderLaws();
    SplitInside(t, id, right);
    assert t'.pages[right] == h.right;
    if h.right.Internal? {
      hide ChildAt;
      forall i | 0 <= i < |h.right.children|
        ensures ChildAt(t', right, h.right.keys, i, h.right.children[i])
      {
        SplitRightChild(t, id, right, i);
      }
    }
  }

  lemma SplitRightChild(t: Tree, id: PageId, right: PageId, i: nat)
    requires CanSplit(t, id, right) && NodeOk(t, id) && t.pages[id].Internal?
    requires i < |SplitOf(t.pages[id], id, right).right.children|
    ensures var t' := SplitPage(t, id, right); var r := SplitOf(t.pages[id], id, right).right;
      right in t'.place && |r.children| == |r.keys| + 1 && ChildAt(t', right, r.keys, i, r.children[i])
  {
    var r := SplitOf(t.pages[id], id, right).right;
    var ks, cs := t.pages[id].keys, t.pages[id].children;
    var mid := |ks| / 2;
    ChildrenDiffer(t, id);
    assert ChildAt(t, id, ks, mid + 1 + i, cs[mid + 1 + i]);
    assert r.children[i] == cs[mid + 1 + i] && cs[mid + 1 + i] in cs;
  }

  /** The parent stays right: child j splits its interval at the separator. */
  lemma SplitParent(t: Tree, id: PageId, right: PageId)
    requires CanSplit(t, id, right) && NodeOk(t, id)
    requires var p := t.place[id].parent; p in t.place && NodeOk(t, p)
    ensures NodeOk(SplitPage(t, id, right), t.place[id].parent)
  {
    var t' := SplitPage(t, id, right);
    var h := SplitOf(t.pages[id], id, right);
    var p := t.place[id].parent;
    var ks, cs := t.pages[p].keys, t.pages[p].children;
    var j := IndexIn(cs, id);
    SplitInside(t, id, right);
    assert ChildAt(t, p, ks, j, id);
    InsertedSorted(ks, j, h.sep, t.place[p]);
    ParentUnmoved(t, id, right);
    hide ChildAt;
    forall i | 0 <= i < |cs| + 1
      ensures ChildAt(t', p, t'.pages[p].keys, i, t'.pages[p].children[i])
    {
      SplitParentChild(t, id, right, i);
    }
  }

  lemma ParentUnmoved(t: Tree, id: PageId, right: PageId)
    requires CanSplit(t, id, right) && NodeOk(t, id)
    requires var p := t.place[id].parent; p in t.place && NodeOk(t, p)
    ensures var t' := SplitPage(t, id, right); var p := t.place[id].parent;
      && t'.place[p] == t.place[p]
      && (forall c :: c in t.pages[p].children && c != id ==> c in t'.place && t'.place[c] == t.place[c])
  {
    var p := t.place[id].parent;
    var h := SplitOf(t.pages[id], id, right);
    var ks, cs := t.pages[p].keys, t.pages[p].children;
    if h.right.Internal? {
      var j := IndexIn(cs, id);
      assert ChildAt(t, p, ks, j, id);
      forall c, i | c in h.right.children && 0 <= i < |cs|
        ensures c != p && c != cs[i]
      {
        MovedBelow(t, id, right, c);
        assert ChildAt(t, p, ks, i, cs[i]);
      }
    }
    forall c | c in cs
      ensures c in t.place
    {
      var i :| 0 <= i < |cs| && cs[i] == c;
      assert ChildAt(t, p, ks, i, c);
    }
  }

  lemma SplitParentChild(t: Tree, id: PageId, right: PageId, i: nat)
    requires CanSplit(t, id, right) && NodeOk(t, id)
    requires var p := t.place[id].parent; p in t.place && NodeOk(t, p) && i <= |t.pages[p].children|
    ensures var t' := SplitPage(t, id, right); var p := t.place[id].parent;
      p in t'.place && ChildAt(t', p, t'.pages[p].keys, i, t'.pages[p].children[i])
  {
    var t' := SplitPage(t, id, right);
    var p := t.place[id].parent;
    var ks, cs := t.pages[p].keys, t.pages[p].children;
    var j := IndexIn(cs, id);
    ParentUnmoved(t, id, right);
    ChildrenDiffer(t, p);
    if i <= j {
      assert t'.pages[p].children[i] == cs[i] && ChildAt(t, p, ks, i, cs[i]);
    } else if i > j + 1 {
      assert t'.pages[p].children[i] == cs[i - 1] && ChildAt(t, p, ks, i - 1, cs[i - 1]);
    } else {
      assert ChildAt(t, p, ks, j, cs[j]);
    }
  }

  /** Children that move to the right half are one level below it. */
  lemma MovedBelow(t: Tree, id: PageId, right: PageId, c: PageId)
    requires CanSplit(t, id, right) && NodeOk(t, id)
    requires var r := SplitOf(t.pages[id], id, right).right; r.Internal? && c in r.children
    ensures c in t.pages[id].children && c in t.place && c != id
    ensures t.place[c].height + 1 == t.place[id].height && t.place[c].parent == id
  {
    var ks, cs := t.pages[id].keys, t.pages[id].children;
    var i :| 0 <= i < |cs| && cs[i] == c;
    assert ChildAt(t, id, ks, i, c);
  }

  /** A key strictly between its neighbours keeps a list of separators sorted. */
  lemma InsertedSorted(ks: seq<Key>, j: nat, sep: Key, p: Place)
    requires j <= |ks| && SortedKeys(ks)
    requires ChildLo(p, ks, j) < Rank(sep) < ChildHi(p, ks, j)
    ensures SortedKeys(ks[..j] + [sep] + ks[j..])
  {
    var ks' := ks[..j] + [sep] + ks[j..];
    OrderLaws();
    forall a, b | 0 <= a < b < |ks'|
      ensures Less(ks'[a], ks'[b])
    {
      if b == j {
        assert a < j - 1 ==> Less(ks[a], ks[j - 1]);
      } else if a == j {
        assert b - 1 > j ==> Less(ks[j], ks[b - 1]);
      } else {
        var a' := if a < j then a else a - 1;
        var b' := if b < j then b else b - 1;
        assert ks'[a] == ks[a'] && ks'[b] == ks[b'] && a' < b';
      }
    }
  }

  /** Every other page is untouched, and so are the places of its children. */
  lemma SplitOthers(t: Tree, id: PageId, right: PageId, x: PageId)
    requires Placed(t) && CanSplit(t, id, right)
    requires x in t.pages && x != id && x != t.place[id].parent
    ensures NodeOk(SplitPage(t, id, right), x)
  {
    var t' := SplitPage(t, id, right);
    var h := SplitOf(t.pages[id], id, right);
    assert NodeOk(t, x) && NodeOk(t, id);
    assert t'.pages[x] == t.pages[x];
    if t.pages[x].Internal? {
      var ks, cs := t.pages[x].keys, t.pages[x].children;
      forall i | 0 <= i < |cs|
        ensures ChildAt(t', x, ks, i, cs[i])
      {
        assert ChildAt(t, x, ks, i, cs[i]);
        if h.right.Internal? && cs[i] in h.right.children {
          MovedBelow(t, id, right, cs[i]);
        }
        ChildStays(t, id, right, x, i);
      }
    }
  }

  /** A child of another page stays where it is. */
  lemma ChildStays(t: Tree, id: PageId, right: PageId, x: PageId, i: nat)
    requires Placed(t) && CanSplit(t, id, right) && x in t.pages && t.pages[x].Internal?
    requires x != id && x != t.place[id].parent && i < |t.pages[x].children| && i <= |t.pages[x].keys|
    requires ChildAt(t, x, t.pages[x].keys, i, t.pages[x].children[i])
    requires var r := SplitOf(t.pages[id], id, right).right; r.Internal? ==> t.pages[x].children[i] !in r.children
    ensures ChildAt(SplitPage(t, id, right), x, t.pages[x].keys, i, t.pages[x].children[i])
  {
    hide SplitOf, WithChild, IndexIn, NodeOk;
  }

  /** After the split, right and every old child of the parent are children of the parent, and every
      child of id is in one of the halves. */
  lemma SplitChildren(t: Tree, id: PageId, right: PageId)
    requires CanSplit(t, id, right)
    ensures var t' := SplitPage(t, id, right); var p := t.place[id].parent;
      && IsChild(t', right, p)
      && (forall c :: c in t.pages[p].children ==> IsChild(t', c, p))
    ensures var h := SplitOf(t.pages[id], id, right);
      t.pages[id].Internal? ==> forall c :: c in t.pages[id].children ==> c in h.left.children || c in h.right.children
  {
    var t' := SplitPage(t, id, right);
    var p := t.place[id].parent;
    var cs := t.pages[p].children;
    var j := IndexIn(cs, id);
    var cs' := t'.pages[p].children;
    assert cs'[j + 1] == right;
    forall c | c in cs
      ensures c in cs'
    {
      var i :| 0 <= i < |cs| && cs[i] == c;
      assert c == if i <= j then cs'[i] else cs'[i + 1];
    }
    if t.pages[id].Internal? {
      var mid := |t.pages[id].keys| / 2;
      assert t.pages[id].children == t.pages[id].children[..mid + 1] + t.pages[id].children[mid + 1..];
    }
  }

  /** Every page but the root keeps a page that points to it. */
  lemma SplitParents(t: Tree, id: PageId, right: PageId, x: PageId)
    requires Placed(t) && CanSplit(t, id, right)
    requires x == right || (x in t.pages && x != t.root)
    ensures IsChild(SplitPage(t, id, right), x, SplitPage(t, id, right).place[x].parent)
  {
    hide NodeOk;
    SplitSites(t, id, right);
    assert x != right ==> IsChild(t, x, t.place[x].parent);
    SplitChildren(t, id, right);
    var h := SplitOf(t.pages[id], id, right);
    if x != right && h.right.Internal? && x in h.right.children {
      MovedBelow(t, id, right, x);
    }
  }

  lemma SplitPlaced(t: Tree, id: PageId, right: PageId)
    requires Placed(t) && CanSplit(t, id, right)
    ensures Placed(SplitPage(t, id, right))
  {
    var t' := SplitPage(t, id, right);
    hide NodeOk, SplitPage, CanSplit;
    SplitSites(t, id, right);
    SplitHeights(t, id, right);
    forall x | x in t'.pages
      ensures NodeOk(t', x)
      ensures x != t'.root ==> IsChild(t', x, t'.place[x].parent)
    {
      SplitNode(t, id, right, x);
      if x != t'.root {
        SplitParents(t, id, right, x);
      }
    }
  }

  lemma SplitSites(t: Tree, id: PageId, right: PageId)
    requires Placed(t) && CanSplit(t, id, right)
    ensures NodeOk(t, id) && t.place[id].parent in t.pages && NodeOk(t, t.place[id].parent)
  {
  }

  lemma SplitNode(t: Tree, id: PageId, right: PageId, x: PageId)
    requires Placed(t) && CanSplit(t, id, right)
    requires x in t.pages || x == right
    ensures NodeOk(SplitPage(t, id, right), x)
  {
    hide NodeOk, SplitPage;
    var p := t.place[id].parent;
    SplitSites(t, id, right);
    if x == id {
      SplitLeft(t, id, right);
    } else if x == right {
      SplitRight(t, id, right);
    } else if x == p {
      SplitParent(t, id, right);
    } else {
      SplitOthers(t, id, right, x);
    }
  }

  /** Splitting gives no page a new height, and the root keeps its place. */
  lemma SplitHeights(t: Tree, id: PageId, right: PageId)
    requires t.place.Keys == t.pages.Keys && Rooted(t) && CanSplit(t, id, right) && NodeOk(t, id)
    ensures var t' := SplitPage(t, id, right); t'.place.Keys == t'.pages.Keys && Rooted(t')
  {
    var t' := SplitPage(t, id, right);
    var h := SplitOf(t.pages[id], id, right);
    assert t'.pages.Keys == t.pages.Keys + {right};
    if h.right.Internal? && t.root in h.right.children {
      MovedBelow(t, id, right, t.root);
    }
    assert t'.place[t.root] == t.place[t.root];
    assert forall x :: x in t.pages ==> t'.place[x].height == t.place[x].height;
  }

  /** What a split does to the leaf pages: id and right get the halves, the other leaves stay. */
  ghost predicate LeavesAfter(t: Tree, t': Tree, id: PageId, right: PageId, h: Halves)
    requires t.place.Keys == t.pages.Keys && t'.place.Keys == t'.pages.Keys
  {
    && id in t.pages
    && t'.pages.Keys == t.pages.Keys + {right}
    && t'.pages[id] == h.left && t'.pages[right] == h.right
    && (h.left.Leaf? <==> t.pages[id].Leaf?) && (h.right.Leaf? <==> t.pages[id].Leaf?)
    && (forall x :: x in t.pages && x != id ==> (t'.pages[x].Leaf? <==> t.pages[x].Leaf?))
    && (forall x :: x in t.pages && x != id && t.pages[x].Leaf? ==> t'.pages[x] == t.pages[x])
    && (forall x :: x in t.pages ==> t'.place[x].lo == t.place[x].lo)
    && (forall x :: x in t.pages && x != id ==> t'.place[x].hi == t.place[x].hi)
    && t'.place[id].hi == Rank(h.sep) == t'.place[right].lo && t'.place[right].hi == t.place[id].hi
  }

  lemma SplitLeaves(t: Tree, id: PageId, right: PageId)
    requires t.place.Keys == t.pages.Keys && CanSplit(t, id, right)
    ensures var t' := SplitPage(t, id, right);
      t'.place.Keys == t'.pages.Keys && LeavesAfter(t, t', id, right, SplitOf(t.pages[id], id, right))
  {
    assert SplitPage(t, id, right).pages.Keys == t.pages.Keys + {right};
  }

  /** The new leaf goes right after the one it was split from. */
  lemma SplitChained(t: Tree, id: PageId, right: PageId)
    requires Chained(t) && CanSplit(t, id, right)
    requires t.place[id].lo < Rank(SplitOf(t.pages[id], id, right).sep) < t.place[id].hi
    requires forall i, j :: 0 <= i < j < |t.leaves| ==> t.leaves[i] != t.leaves[j]
    ensures Chained(SplitPage(t, id, right))
  {
    var t' := SplitPage(t, id, right);
    SplitLeaves(t, id, right);
    var h := SplitOf(t.pages[id], id, right);
    if t.pages[id].Leaf? {
      var i := IndexIn(t.leaves, id);
      SpliceChained(t, t', id, right, h, i);
    } else {
      assert t'.leaves == t.leaves && forall x :: x in t.leaves ==> x != id;
      SameChain(t, t', id, right, h);
    }
  }

  lemma SameChain(t: Tree, t': Tree, id: PageId, right: PageId, h: Halves)
    requires Chained(t) && t'.place.Keys == t'.pages.Keys && LeavesAfter(t, t', id, right, h)
    requires id in t.pages && t.pages[id].Internal? && t'.leaves == t.leaves
    ensures Chained(t')
  {
  }

  lemma SpliceChained(t: Tree, t': Tree, id: PageId, right: PageId, h: Halves, i: nat)
    requires Chained(t) && t'.place.Keys == t'.pages.Keys && LeavesAfter(t, t', id, right, h)
    requires t.pages[id].Leaf? && right !in t.pages
    requires h.left == Leaf(h.left.entries, right, t.pages[id].prev) && h.right.next == t.pages[id].next
    requires i < |t.leaves| && t.leaves[i] == id
    requires forall i, j :: 0 <= i < j < |t.leaves| ==> t.leaves[i] != t.leaves[j]
    requires t'.leaves == t.leaves[..i + 1] + [right] + t.leaves[i + 1..]
    ensures Chained(t')
  {
    hide Linked, Partitioned, LeavesAfter;
    assert Spliced(t.leaves, t'.leaves, i, right);
    SpliceListed(t, t', id, right, h, i);
    SpliceLinked(t, t', id, right, h, i);
    SplicePartitioned(t, t', id, right, h, i);
  }

  lemma SpliceListed(t: Tree, t': Tree, id: PageId, right: PageId, h: Halves, i: nat)
    requires t.place.Keys == t.pages.Keys && t'.place.Keys == t'.pages.Keys && LeavesAfter(t, t', id, right, h)
    requires Listed(t) && t.pages[id].Leaf?
    requires i < |t.leaves| && Spliced(t.leaves, t'.leaves, i, right)
    ensures Listed(t')
  {
    var ls, ls' := t.leaves, t'.leaves;
    forall n | 0 <= n < |ls'|
      ensures ls'[n] in t'.pages && t'.pages[ls'[n]].Leaf?
    {
      assert n != i + 1 ==> ls'[n] == ls[if n <= i then n else n - 1];
    }
    forall x | x in t'.pages && t'.pages[x].Leaf?
      ensures x in ls'
    {
      if x != right {
        var n :| 0 <= n < |ls| && ls[n] == x;
        assert x == if n <= i then ls'[n] else ls'[n + 1];
      }
    }
  }

  ghost predicate Spliced(ls: seq<PageId>, ls': seq<PageId>, i: nat, right: PageId)
    requires i < |ls|
  {
    && |ls'| == |ls| + 1
    && (forall n :: 0 <= n <= i ==> ls'[n] == ls[n])
    && ls'[i + 1] == right
    && (forall n :: i + 1 < n < |ls'| ==> ls'[n] == ls[n - 1])
  }

  lemma SpliceLinked(t: Tree, t': Tree, id: PageId, right: PageId, h: Halves, i: nat)
    requires Listed(t) && Linked(t) && Listed(t')
    requires t.place.Keys == t.pages.Keys && t'.place.Keys == t'.pages.Keys && LeavesAfter(t, t', id, right, h)
    requires id in t.pages && t.pages[id].Leaf? && right !in t.pages
    requires h.left == Leaf(h.left.entries, right, t.pages[id].prev) && h.right.next == t.pages[id].next
    requires i < |t.leaves| && t.leaves[i] == id && Spliced(t.leaves, t'.leaves, i, right)
    requires forall i, j :: 0 <= i < j < |t.leaves| ==> t.leaves[i] != t.leaves[j]
    ensures Linked(t')
  {
    var ls, ls' := t.leaves, t'.leaves;
    forall n | 0 <= n < |ls'| - 1
      ensures t'.pages[ls'[n]].next == ls'[n + 1]
    {
      if n < i {
        assert t'.pages[ls[n]] == t.pages[ls[n]];
      } else if n > i + 1 {
        assert t'.pages[ls[n - 1]] == t.pages[ls[n - 1]];
      }
    }
  }

  lemma SplicePartitioned(t: Tree, t': Tree, id: PageId, right: PageId, h: Halves, i: nat)
    requires t.place.Keys == t.pages.Keys && t'.place.Keys == t'.pages.Keys && LeavesAfter(t, t', id, right, h)
    requires Listed(t) && Partitioned(t) && Listed(t')
    requires t.pages[id].Leaf? && right !in t.pages
    requires i < |t.leaves| && t.leaves[i] == id && Spliced(t.leaves, t'.leaves, i, right)
    requires forall i, j :: 0 <= i < j < |t.leaves| ==> t.leaves[i] != t.leaves[j]
    ensures Partitioned(t')
  {
    var ls, ls' := t.leaves, t'.leaves;
    forall n | 0 <= n < |ls'| - 1
      ensures t'.place[ls'[n]].hi == t'.place[ls'[n + 1]].lo
    {
      if n < i {
        assert ls'[n] == ls[n] && ls'[n + 1] == ls[n + 1] && ls[n] != id;
      } else if n > i {
        assert ls'[n + 1] == ls[n];
        assert n > i + 1 ==> ls'[n] == ls[n - 1] && ls[n - 1] != id;
      }
    }
    assert ls'[0] == ls[0];
    assert |ls'| - 1 > i + 1 ==> ls'[|ls'| - 1] == ls[|ls| - 1] != id;
  }

  /** The entries are shared out between the halves exactly as the interval is. */
  lemma SplitStores(t: Tree, id: PageId, right: PageId)
    requires Stores(t) && CanSplit(t, id, right) && NodeOk(t, id)
    ensures Stores(SplitPage(t, id, right))
  {
    var h := SplitOf(t.pages[id], id, right);
    SplitLeaves(t, id, right);
    SplitInside(t, id, right);
    if t.pages[id].Leaf? {
      SplitEntries(t.pages[id].entries);
    }
    StoresAfter(t, SplitPage(t, id, right), id, right, h);
  }

  lemma SplitEntries(es: seq<Entry>)
    requires Sorted(es) && |es| >= 2
    ensures var mid := |es| / 2;
      && (forall e :: e in es <==> e in es[..mid] || e in es[mid..])
      && (forall e :: e in es[..mid] ==> Rank(e.key) < Rank(es[mid].key))
      && (forall e :: e in es[mid..] ==> Rank(e.key) >= Rank(es[mid].key))
  {
    var mid := |es| / 2;
    OrderLaws();
    assert es == es[..mid] + es[mid..];
    forall e | e in es[..mid]
      ensures Rank(e.key) < Rank(es[mid].key)
    {
      var i :| 0 <= i < mid && es[i] == e;
      assert Less(es[i].key, es[mid].key);
    }
    forall e | e in es[mid..]
      ensures Rank(e.key) >= Rank(es[mid].key)
    {
      var i :| mid <= i < |es| && es[i] == e;
      assert i > mid ==> Less(es[mid].key, es[i].key);
    }
  }

  lemma StoresAfter(t: Tree, t': Tree, id: PageId, right: PageId, h: Halves)
    requires Stores(t) && t'.place.Keys == t'.pages.Keys && LeavesAfter(t, t', id, right, h)
    requires id in t.pages && right !in t.pages && t'.view == t.view
    requires t.place[id].lo < Rank(h.sep) < t.place[id].hi
    requires h.left.Leaf? ==>
      && (forall e :: e in t.pages[id].entries <==> e in h.left.entries || e in h.right.entries)
      && (forall e :: e in h.left.entries ==> Rank(e.key) < Rank(h.sep))
      && (forall e :: e in h.right.entries ==> Rank(e.key) >= Rank(h.sep))
    ensures Stores(t')
  {
    forall x, k | x in t'.pages && t'.pages[x].Leaf? && k in t'.view && Covers(t'.place[x], k)
      ensures Entry(k, t'.view[k]) in t'.pages[x].entries
    {
      var y := if x == right then id else x;
      assert Covers(t.place[y], k);
      assert Entry(k, t.view[k]) in t.pages[y].entries;
    }
    forall x, e | x in t'.pages && t'.pages[x].Leaf? && e in t'.pages[x].entries
      ensures e.key in t'.view && t'.view[e.key] == e.value
    {
      var y := if x == right then id else x;
      assert e in t.pages[y].entries;
    }
  }

  /** An overfull page splits into two that are at least half full; only its parent may overflow next. */
  lemma SplitBalanced(t: Tree, id: PageId, right: PageId)
    requires Filled(t, id) && CanSplit(t, id, right) && Count(t.pages[id]) == ORDER + 1
    requires t.root in t.pages && 0 !in t.pages
    ensures Filled(SplitPage(t, id, right), t.place[id].parent)
    ensures Count(SplitPage(t, id, right).pages[t.place[id].parent]) == Count(t.pages[t.place[id].parent]) + 1
    ensures t.place[id].parent == t.root || Balanced(t, id) ==> Balanced(SplitPage(t, id, right), t.place[id].parent)
  {
    var t' := SplitPage(t, id, right);
    assert t'.pages.Keys == t.pages.Keys + {right};
    var h := SplitOf(t.pages[id], id, right);
    assert Count(h.left) == ORDER / 2 && Count(h.right) >= ORDER / 2 && Count(h.right) <= ORDER;
  }

  lemma MaySplit(t: Tree, id: PageId, right: PageId)
    requires Placed(t) && Chained(t)
    requires id in t.pages && id != t.root && right !in t.pages && right != 0 && Count(t.pages[id]) >= 2
    ensures CanSplit(t, id, right)
  {
    var p := t.place[id].parent;
    assert NodeOk(t, id) && IsChild(t, id, p) && NodeOk(t, p);
    ChildrenDiffer(t, p);
  }

  /** Splitting an overfull page below the root keeps the tree well formed and the stored map as it is. */
  lemma SplitWellFormed(t: Tree, id: PageId, right: PageId)
    requires Placed(t) && Chained(t) && Stores(t) && Filled(t, id)
    requires id in t.pages && id != t.root && right !in t.pages && right != 0
    requires Count(t.pages[id]) == ORDER + 1
    requires t.place[id].parent == t.root || Balanced(t, id)
    ensures CanSplit(t, id, right)
    ensures WellFormed(SplitPage(t, id, right), t.place[id].parent)
  {
    MaySplit(t, id, right);
    SplitSites(t, id, right);
    SplitInside(t, id, right);
    SplitPlaced(t, id, right);
    DisjointLeaves(t);
    SplitChained(t, id, right);
    SplitStores(t, id, right);
    SplitBalanced(t, id, right);
  }

  /** A new root above the old one, with the old root as its only child. */
  ghost function GrowRoot(t: Tree, top: PageId): Tree
    requires t.root in t.place
  {
    t.(pages := t.pages[top := Internal([], [t.root])],
       root := top,
       place := t.place[t.root := t.place[t.root].(parent := top)]
                       [top := Place(t.place[t.root].height + 1, 0.0, 1.0, 0)])
  }

  lemma GrowRootWellFormed(t: Tree, top: PageId)
    requires WellFormed(t, t.root) && top !in t.pages && top != 0
    requires Count(t.pages[t.root]) == ORDER + 1
    ensures var t' := GrowRoot(t, top);
      Placed(t') && Chained(t') && Stores(t') && Filled(t', t.root)
  {
    hide NodeOk, Chained, Stores, Filled, SameLeaves, GrowRoot;
    GrowRootPlaced(t, top);
    GrowRootLeaves(t, top);
    SameLeavesChained(t, GrowRoot(t, top));
    SameLeavesStores(t, GrowRoot(t, top));
    GrowRootFilled(t, top);
  }

  lemma GrowRootLeaves(t: Tree, top: PageId)
    requires t.place.Keys == t.pages.Keys && t.root in t.pages && top !in t.pages
    ensures SameLeaves(t, GrowRoot(t, top))
  {
    assert GrowRoot(t, top).pages.Keys == t.pages.Keys + {top};
  }

  /** Same leaf pages with the same intervals, in the same order, storing the same map. */
  ghost predicate SameLeaves(t: Tree, t': Tree) {
    && t.place.Keys == t.pages.Keys && t'.place.Keys == t'.pages.Keys
    && t'.leaves == t.leaves && t'.view == t.view
    && (forall x :: x in t.pages && t.pages[x].Leaf? ==>
         && x in t'.pages && t'.pages[x] == t.pages[x]
         && t'.place[x].lo == t.place[x].lo && t'.place[x].hi == t.place[x].hi)
    && (forall x :: x in t'.pages && t'.pages[x].Leaf? ==> x in t.pages && t.pages[x].Leaf?)
  }

  lemma SameLeavesChained(t: Tree, t': Tree)
    requires Chained(t) && SameLeaves(t, t')
    ensures Chained(t')
  {
    assert Listed(t');
  }

  lemma SameLeavesStores(t: Tree, t': Tree)
    requires Stores(t) && SameLeaves(t, t')
    ensures Stores(t')
  {
  }

  lemma GrowRootFilled(t: Tree, top: PageId)
    requires Filled(t, t.root) && top !in t.pages
    requires t.root in t.pages && t.root in t.place && Count(t.pages[t.root]) == ORDER + 1
    ensures Filled(GrowRoot(t, top), t.root)
  {
  }

  lemma GrowRootPlaced(t: Tree, top: PageId)
    requires Placed(t) && top !in t.pages && top != 0
    ensures Placed(GrowRoot(t, top))
  {
    hide NodeOk, IsChild;
    var t' := GrowRoot(t, top);
    assert t'.pages.Keys == t.pages.Keys + {top};
    assert Rooted(t');
    forall x | x in t'.pages
      ensures NodeOk(t', x)
      ensures x != top ==> IsChild(t', x, t'.place[x].parent)
    {
      GrowRootNode(t, top, x);
      if x != top {
        GrowRootChild(t, top, x);
      }
    }
  }

  lemma GrowRootChild(t: Tree, top: PageId, x: PageId)
    requires t.place.Keys == t.pages.Keys && t.root in t.pages && top !in t.pages && x in t.pages
    requires x != t.root ==> IsChild(t, x, t.place[x].parent)
    ensures IsChild(GrowRoot(t, top), x, GrowRoot(t, top).place[x].parent)
  {
    assert GrowRoot(t, top).pages.Keys == t.pages.Keys + {top};
  }

  lemma GrowRootNode(t: Tree, top: PageId, x: PageId)
    requires t.place.Keys == t.pages.Keys && t.root in t.pages && top !in t.pages
    requires t.place[t.root].lo == 0.0 && t.place[t.root].hi == 1.0
    requires x == top || (x in t.pages && NodeOk(t, x))
    requires forall y :: y in t.pages && y != t.root ==> t.place[y].height < t.place[t.root].height
    ensures NodeOk(GrowRoot(t, top), x)
  {
    var t' := GrowRoot(t, top);
    if x == top {
      assert ChildAt(t', top, [], 0, t.root);
    } else if t.pages[x].Internal? {
      forall i | 0 <= i < |t.pages[x].children|
        ensures ChildAt(t', x, t.pages[x].keys, i, t.pages[x].children[i])
      {
        assert ChildAt(t, x, t.pages[x].keys, i, t.pages[x].children[i]);
      }
    }
  }

  /** A split leaves the way from the root to the page's parent as it was. */
  lemma {:induction false} SplitKeepsPath(t: Tree, id: PageId, right: PageId, path: seq<PageId>, x: PageId)
    requires Placed(t) && CanSplit(t, id, right)
    requires PathTo(t, path, x) && t.place[x].height > t.place[id].height
    ensures PathTo(SplitPage(t, id, right), path, x)
  {
    var h := SplitOf(t.pages[id], id, right);
    assert NodeOk(t, id);
    if h.right.Internal? && x in h.right.children {
      MovedBelow(t, id, right, x);
    }
    if path != [] {
      var p := t.place[x].parent;
      ParentHeight(t, x);
      SplitKeepsPath(t, id, right, path[..|path| - 1], p);
    }
  }

  lemma ParentHeight(t: Tree, x: PageId)
    requires Placed(t) && x in t.pages && x != t.root
    ensures var p := t.place[x].parent;
      && p in t.pages && t.pages[p].Internal? && p != x
      && t.place[p].height == t.place[x].height + 1
  {
    var p := t.place[x].parent;
    assert IsChild(t, x, p) && NodeOk(t, p);
    var i :| 0 <= i < |t.pages[p].children| && t.pages[p].children[i] == x;
    assert ChildAt(t, p, t.pages[p].keys, i, x);
  }

  /** Every leaf's back link names the leaf before it. */
  ghost predicate BackLinked(t: Tree)
    requires Listed(t)
  {
    forall i :: 0 <= i < |t.leaves| - 1 ==> t.pages[t.leaves[i + 1]].prev == t.leaves[i]
  }

  /** Back links of old leaves are kept, the new leaf names the one it was split from. */
  ghost predicate BackLinksAfter(t: Tree, t': Tree, id: PageId, right: PageId) {
    && (forall x :: x in t.pages && t.pages[x].Leaf? ==>
         x in t'.pages && t'.pages[x].Leaf? && t'.pages[x].prev == t.pages[x].prev)
    && right in t'.pages && t'.pages[right].Leaf? && t'.pages[right].prev == id
  }

  lemma SplitBackLinks(t: Tree, id: PageId, right: PageId)
    requires CanSplit(t, id, right) && t.pages[id].Leaf?
    ensures BackLinksAfter(t, SplitPage(t, id, right), id, right)
  {
  }

  lemma LeavesOfSplit(t: Tree, id: PageId, right: PageId)
    requires CanSplit(t, id, right) && t.pages[id].Leaf?
    ensures Spliced(t.leaves, SplitPage(t, id, right).leaves, IndexIn(t.leaves, id), right)
  {
  }

  lemma SpliceBackLinks(t: Tree, t': Tree, id: PageId, right: PageId, i: nat)
    requires Listed(t) && BackLinked(t) && Listed(t') && BackLinksAfter(t, t', id, right) && right != id
    requires i < |t.leaves| && t.leaves[i] == id && Spliced(t.leaves, t'.leaves, i, right)
    requires forall i, j :: 0 <= i < j < |t.leaves| ==> t.leaves[i] != t.leaves[j]
    ensures BackLinked(t') <==> t.leaves[|t.leaves| - 1] == id
  {
    var ls, ls' := t.leaves, t'.leaves;
    if i + 1 < |ls| {
      assert ls'[i + 1] == right && ls'[i + 2] == ls[i + 1];
      assert t.pages[ls[i + 1]].prev == ls[i];
      assert t'.pages[ls'[i + 2]].prev == id;
      assert ls[|ls| - 1] != id;
    } else {
      forall k | 0 <= k < |ls'| - 1
        ensures t'.pages[ls'[k + 1]].prev == ls'[k]
      {
        if k < i {
          assert t.pages[ls[k + 1]].prev == ls[k];
        }
      }
    }
  }

  /** Splitting a leaf keeps the back links right exactly when it is the last leaf: the leaf to its right goes
      on naming it instead of the new one. */
  lemma BackLinkedIff(t: Tree, id: PageId, right: PageId)
    requires t.place.Keys == t.pages.Keys && CanSplit(t, id, right) && t.pages[id].Leaf?
    requires Listed(t) && BackLinked(t)
    requires forall i, j :: 0 <= i < j < |t.leaves| ==> t.leaves[i] != t.leaves[j]
    ensures Listed(SplitPage(t, id, right))
    ensures BackLinked(SplitPage(t, id, right)) <==> t.leaves[|t.leaves| - 1] == id
  {
    var t', i := SplitPage(t, id, right), IndexIn(t.leaves, id);
    assert right != id;
    SplitLeaves(t, id, right);
    LeavesOfSplit(t, id, right);
    SplitBackLinks(t, id, right);
    var h := SplitOf(t.pages[id], id, right);
    hide SplitPage, SplitOf, CanSplit, BackLinksAfter, Listed, BackLinked, LeavesAfter, Spliced;
    SpliceListed(t, t', id, right, h, i);
    SpliceBackLinks(t, t', id, right, i);
  }
}
