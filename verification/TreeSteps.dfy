/** What Put, Delete and the splits of btree.go do to the tree as a value, step by step. */
module TreeSteps {
  import opened Keys
  import opened TreeModel
  import opened NodeSizes

  ghost predicate Below(pages: map<PageId, Node>, n: nat) {
    forall id :: id in pages ==> id < n
  }

  ghost predicate FitPages(pages: map<PageId, Node>) {
    forall id :: id in pages ==> Fits(pages[id])
  }

  ghost predicate SmallPages(pages: map<PageId, Node>) {
    forall id :: id in pages ==> SmallNode(pages[id])
  }

  /** A key missing from the leaf responsible for it is missing from the tree. */
  lemma Absent(t: Tree, id: PageId, key: Key)
    requires Stores(t) && id in t.pages && t.pages[id].Leaf? && Covers(t.place[id], key)
    requires forall i :: 0 <= i < |t.pages[id].entries| ==> t.pages[id].entries[i].key != key
    ensures key !in t.view
  {
  }

  lemma SetEntriesFields(t: Tree, id: PageId, es: seq<Entry>, view: map<Key, Val>)
    requires id in t.pages && t.pages[id].Leaf?
    ensures var t' := SetEntries(t, id, es, view);
      && t'.pages == t.pages[id := t.pages[id].(entries := es)] && t'.root == t.root && t'.place == t.place
      && t'.leaves == t.leaves && t'.view == view
  {
  }

  lemma LeafCount(t: Tree, id: PageId)
    requires WellFormed(t, 0) && id in t.pages && t.pages[id].Leaf?
    ensures Count(t.pages[id]) <= ORDER && Sorted(t.pages[id].entries)
  {
    Reached(t, id);
  }

  lemma Stored(t: Tree, id: PageId, i: nat)
    requires WellFormed(t, 0) && id in t.pages && t.pages[id].Leaf? && i < |t.pages[id].entries|
    ensures t.pages[id].entries[i].key in t.view && Count(t.pages[id]) <= ORDER && Sorted(t.pages[id].entries)
  {
    Reached(t, id);
    assert t.pages[id].entries[i] in t.pages[id].entries;
  }

  lemma DeleteStep(t: Tree, id: PageId, i: nat, key: Key)
    requires WellFormed(t, 0) && id in t.pages && t.pages[id].Leaf? && Covers(t.place[id], key)
    requires i < |t.pages[id].entries| && t.pages[id].entries[i].key == key
    ensures var es := t.pages[id].entries; var es' := es[..i] + es[i + 1..];
      && WellFormed(SetEntries(t, id, es', Assign(t.view, key, None)), 0)
      && (Fits(t.pages[id]) ==> Fits(WithEntries(t.pages[id], es')))
      && (SmallNode(t.pages[id]) ==> SmallNode(WithEntries(t.pages[id], es')))
    ensures key in t.view
  {
    hide WellFormed, Placed, Chained, Stores, Balanced, NodeOk, Updated, Sorted, Covers, SmallNode, Fits;
    var es := t.pages[id].entries;
    Stored(t, id, i);
    RemoveUpdated(es, i);
    SetEntriesWellFormed(t, id, es[..i] + es[i + 1..], key, None, 0);
    LessFits(t.pages[id], i);
  }

  /** A leaf without one of its entries fits if the leaf did. */
  lemma LessFits(n: Node, i: nat)
    requires n.Leaf? && i < |n.entries|
    ensures var n' := WithEntries(n, n.entries[..i] + n.entries[i + 1..]);
      (Fits(n) ==> Fits(n')) && (SmallNode(n) ==> SmallNode(n'))
  {
    RemoveShrinks(n.entries, i);
  }

  /** The entries of a leaf with key set to value. */
  function SetKey(es: seq<Entry>, key: Key, value: Val): seq<Entry> {
    if es == [] || Less(key, es[0].key) then [Entry(key, value)] + es
    else if es[0].key == key then [Entry(key, value)] + es[1..]
    else [es[0]] + SetKey(es[1..], key, value)
  }

  /** Put overwrites the entry it finds, ... */
  lemma {:induction false} SetKeyFound(es: seq<Entry>, i: nat, key: Key, value: Val)
    requires Sorted(es) && i < |es| && es[i].key == key
    ensures es[i := Entry(key, value)] == SetKey(es, key, value)
  {
    OrderLaws();
    if i > 0 {
      assert Less(es[0].key, es[i].key);
      SetKeyFound(es[1..], i - 1, key, value);
    }
  }

  /** ... or inserts one before the first greater key. */
  lemma {:induction false} SetKeyNew(es: seq<Entry>, pos: nat, key: Key, value: Val)
    requires pos <= |es| && forall i :: 0 <= i < |es| ==> es[i].key != key
    requires forall i :: 0 <= i < pos ==> !Less(key, es[i].key)
    requires pos < |es| ==> Less(key, es[pos].key)
    ensures es[..pos] + [Entry(key, value)] + es[pos..] == SetKey(es, key, value)
  {
    if pos == 0 {
      assert es[..0] + [Entry(key, value)] + es[0..] == [Entry(key, value)] + es;
    } else {
      SetKeyNew(es[1..], pos - 1, key, value);
      assert es[1..][..pos - 1] == es[1..pos] && es[1..][pos - 1..] == es[pos..];
    }
  }

  lemma {:induction false} InsertPoint(es: seq<Entry>, key: Key) returns (pos: nat)
    ensures pos <= |es| && (forall i :: 0 <= i < pos ==> !Less(key, es[i].key))
    ensures pos < |es| ==> Less(key, es[pos].key)
  {
    if es == [] || Less(key, es[0].key) {
      pos := 0;
    } else {
      var p := InsertPoint(es[1..], key);
      pos := p + 1;
    }
  }

  /** Setting a key keeps the leaf sorted, changes what it says of that key only, and adds an entry only for a
      new key. */
  lemma SetKeyUpdated(n: Node, key: Key, value: Val)
    requires n.Leaf? && Sorted(n.entries)
    ensures var es' := SetKey(n.entries, key, value);
      && Sorted(es') && Updated(n.entries, es', key, Some(value))
      && |es'| == |n.entries| + (if exists e :: e in n.entries && e.key == key then 0 else 1)
      && (SmallNode(n) && SmallEntry(key, value) ==>
            SmallNode(WithEntries(n, es')) && (|es'| <= ORDER ==> Fits(WithEntries(n, es'))))
  {
    var es := n.entries;
    if e :| e in es && e.key == key {
      var i :| 0 <= i < |es| && es[i] == e;
      SetKeyOver(n, i, key, value);
    } else {
      hide Sorted, Updated, SmallNode, Fits;
      assert forall i :: 0 <= i < |es| ==> es[i] in es;
      var pos := InsertPoint(es, key);
      SetKeyNew(es, pos, key, value);
      InsertUpdated(es, pos, key, value);
      InsertFits(n, pos, key, value);
    }
  }

  lemma SetKeyOver(n: Node, i: nat, key: Key, value: Val)
    requires n.Leaf? && Sorted(n.entries) && i < |n.entries| && n.entries[i].key == key
    ensures var es' := SetKey(n.entries, key, value);
      && Sorted(es') && Updated(n.entries, es', key, Some(value)) && |es'| == |n.entries|
      && (SmallNode(n) && SmallEntry(key, value) ==>
            SmallNode(WithEntries(n, es')) && (|es'| <= ORDER ==> Fits(WithEntries(n, es'))))
  {
    hide Sorted, Updated, Fits;
    SetKeyFound(n.entries, i, key, value);
    ReplaceUpdated(n.entries, i, key, value);
    if SmallNode(n) && SmallEntry(key, value) && |n.entries| <= ORDER {
      SmallFits(WithEntries(n, n.entries[i := Entry(key, value)]));
    }
  }

  /** Setting a key in the leaf responsible for it, which may overfill the leaf. */
  lemma SetKeyStep(t: Tree, id: PageId, key: Key, value: Val)
    requires WellFormed(t, 0) && id in t.pages && t.pages[id].Leaf? && Covers(t.place[id], key)
    ensures var es' := SetKey(t.pages[id].entries, key, value);
      var n', t' := WithEntries(t.pages[id], es'), SetEntries(t, id, es', t.view[key := value]);
      && (|es'| <= ORDER ==> WellFormed(t', 0))
      && (|es'| > ORDER ==> Overfull(t', id) && key !in t.view && |t.pages[id].entries| == ORDER)
      && (SmallNode(t.pages[id]) && SmallEntry(key, value) ==> SmallNode(n') && (|es'| <= ORDER ==> Fits(n')))
  {
    hide Placed, Chained, Stores, Balanced, NodeOk, Updated, Sorted, Covers, SmallNode, Fits;
    var n := t.pages[id];
    LeafCount(t, id);
    SetKeyUpdated(n, key, value);
    var es' := SetKey(n.entries, key, value);
    SetEntriesWellFormed(t, id, es', key, Some(value), if |es'| <= ORDER then 0 else id);
    if |es'| > ORDER {
      assert forall i :: 0 <= i < |n.entries| ==> n.entries[i] in n.entries;
      Absent(t, id, key);
    }
  }

  lemma InsertFits(n: Node, pos: nat, key: Key, value: Val)
    requires n.Leaf? && pos <= |n.entries|
    ensures var es' := n.entries[..pos] + [Entry(key, value)] + n.entries[pos..]; var n' := WithEntries(n, es');
      SmallNode(n) && SmallEntry(key, value) ==> SmallNode(n') && (|es'| <= ORDER ==> Fits(n'))
  {
    var es' := n.entries[..pos] + [Entry(key, value)] + n.entries[pos..];
    var n' := WithEntries(n, es');
    if SmallNode(n) && SmallEntry(key, value) {
      forall i | 0 <= i < |es'|
        ensures SmallEntry(es'[i].key, es'[i].value)
      {
        assert i != pos ==> es'[i] == n.entries[if i < pos then i else i - 1];
      }
      if |es'| <= ORDER {
        SmallFits(n');
      }
    }
  }

  /** id is the only page of t that holds one key too many. */
  ghost predicate Overfull(t: Tree, id: PageId) {
    WellFormed(t, id) && id in t.pages && Count(t.pages[id]) == ORDER + 1
  }

  lemma ReplaceUpdated(es: seq<Entry>, i: nat, k: Key, v: Val)
    requires Sorted(es) && i < |es| && es[i].key == k
    ensures Sorted(es[i := Entry(k, v)]) && Updated(es, es[i := Entry(k, v)], k, Some(v))
  {
    var es' := es[i := Entry(k, v)];
    OrderLaws();
    assert es'[i] in es';
    forall e | e in es && e.key != k
      ensures e in es'
    {
      var n :| 0 <= n < |es| && es[n] == e;
      assert es'[n] == e;
    }
    forall e | e in es'
      ensures (e.key == k && v == e.value) || (e.key != k && e in es)
    {
      var n :| 0 <= n < |es| && es'[n] == e;
      assert n < i ==> Less(es[n].key, es[i].key);
      assert n > i ==> Less(es[i].key, es[n].key);
    }
  }

  lemma InsertUpdated(es: seq<Entry>, pos: nat, k: Key, v: Val)
    requires Sorted(es) && pos <= |es|
    requires forall i :: 0 <= i < |es| ==> es[i].key != k
    requires forall i :: 0 <= i < pos ==> !Less(k, es[i].key)
    requires pos < |es| ==> Less(k, es[pos].key)
    ensures var es' := es[..pos] + [Entry(k, v)] + es[pos..];
      Sorted(es') && Updated(es, es', k, Some(v))
  {
    var es' := es[..pos] + [Entry(k, v)] + es[pos..];
    OrderLaws();
    assert es'[pos] in es';
    forall i, j | 0 <= i < j < |es'|
      ensures Less(es'[i].key, es'[j].key)
    {
      var i' := if i < pos then i else i - 1;
      var j' := if j < pos then j else j - 1;
      assert i != pos ==> es'[i] == es[i'];
      assert j != pos ==> es'[j] == es[j'];
      if i == pos {
        assert j' > pos ==> Less(es[pos].key, es[j'].key);
      }
      assert i < pos ==> !Less(k, es[i].key);
    }
    assert es == es[..pos] + es[pos..];
  }

  lemma RemoveUpdated(es: seq<Entry>, i: nat)
    requires Sorted(es) && i < |es|
    ensures var es' := es[..i] + es[i + 1..];
      Sorted(es') && Updated(es, es', es[i].key, None)
  {
    var es' := es[..i] + es[i + 1..];
    OrderLaws();
    assert es == es[..i] + [es[i]] + es[i + 1..];
    forall e | e in es'
      ensures e.key != es[i].key && e in es
    {
      var n :| 0 <= n < |es'| && es'[n] == e;
      if n < i {
        assert Less(es[n].key, es[i].key);
      } else {
        assert Less(es[i].key, es[n + 1].key);
      }
    }
  }

  lemma {:induction false} SetEntriesKeepsPath(t: Tree, id: PageId, es: seq<Entry>, view: map<Key, Val>,
                                               path: seq<PageId>, x: PageId)
    requires id in t.pages && t.pages[id].Leaf? && PathTo(t, path, x)
    ensures PathTo(SetEntries(t, id, es, view), path, x)
  {
    if path != [] {
      SetEntriesKeepsPath(t, id, es, view, path[..|path| - 1], path[|path| - 1]);
    }
  }

  /** The halves of an overfull page of small entries fit their pages. */
  lemma SmallHalves(n: Node, id: PageId, right: PageId)
    requires SmallNode(n) && Count(n) == ORDER + 1
    requires n.Internal? ==> |n.children| == |n.keys| + 1
    ensures var h := SplitOf(n, id, right);
      SmallNode(h.left) && SmallNode(h.right) && |h.sep| <= SMALL_KEY && Fits(h.left) && Fits(h.right)
  {
    var h := SplitOf(n, id, right);
    SmallFits(h.left);
    SmallFits(h.right);
  }

  lemma SmallSplit(t: Tree, id: PageId, right: PageId)
    requires SmallPages(t.pages) && CanSplit(t, id, right) && Count(t.pages[id]) == ORDER + 1
    ensures SmallPages(SplitPage(t, id, right).pages)
  {
    SmallHalves(t.pages[id], id, right);
  }

  /** The separator of a split belongs right where the split page sits in its parent. */
  lemma SeparatorNeighbours(t: Tree, id: PageId, right: PageId, j: nat)
    requires Placed(t) && CanSplit(t, id, right)
    requires var cs := t.pages[t.place[id].parent].children; j < |cs| && cs[j] == id
    ensures var ks := t.pages[t.place[id].parent].keys; var sep := SplitOf(t.pages[id], id, right).sep;
      && (forall i :: 0 <= i < j ==> Less(ks[i], sep))
      && (j < |ks| ==> !Less(ks[j], sep))
  {
    hide SplitOf, NodeOk, Placed, SortedKeys, Less;
    var p := t.place[id].parent;
    var ks, sep := t.pages[p].keys, SplitOf(t.pages[id], id, right).sep;
    Reached(t, id);
    SplitInside(t, id, right);
    ChildBounds(t, id, right, j);
    BetweenKeys(ks, j, sep, t.place[id].lo, t.place[id].hi);
  }

  lemma BetweenKeys(ks: seq<Key>, j: nat, sep: Key, lo: real, hi: real)
    requires SortedKeys(ks) && j <= |ks| && lo < Rank(sep) < hi
    requires (j > 0 ==> Rank(ks[j - 1]) == lo) && (j < |ks| ==> Rank(ks[j]) == hi)
    ensures forall i :: 0 <= i < j ==> Less(ks[i], sep)
    ensures j < |ks| ==> !Less(ks[j], sep)
  {
    OrderLaws();
    forall i | 0 <= i < j
      ensures Less(ks[i], sep)
    {
      assert i < j - 1 ==> Less(ks[i], ks[j - 1]);
    }
  }

  /** The separators of the parent on either side are the ends of the child's interval. */
  lemma ChildBounds(t: Tree, id: PageId, right: PageId, j: nat)
    requires Placed(t) && CanSplit(t, id, right)
    requires var cs := t.pages[t.place[id].parent].children; j < |cs| && cs[j] == id
    ensures var ks := t.pages[t.place[id].parent].keys;
      && SortedKeys(ks) && |t.pages[t.place[id].parent].children| == |ks| + 1
      && (j > 0 ==> Rank(ks[j - 1]) == t.place[id].lo) && (j < |ks| ==> Rank(ks[j]) == t.place[id].hi)
  {
    var p := t.place[id].parent;
    Reached(t, p);
    assert ChildAt(t, p, t.pages[p].keys, j, id);
  }

  /** A page reached from the root is locally right. */
  lemma Reached(t: Tree, id: PageId)
    requires Placed(t) && id in t.pages
    ensures NodeOk(t, id)
  {
  }

  /** One step down: the chosen child is responsible for the key. */
  lemma Descend(t: Tree, path: seq<PageId>, id: PageId, key: Key, c: nat)
    requires Placed(t) && PathTo(t, path, id) && Covers(t.place[id], key) && t.pages[id].Internal?
    requires var ks := t.pages[id].keys;
      && c <= |ks|
      && (forall i :: 0 <= i < c ==> !Less(key, ks[i]))
      && (c < |ks| ==> Less(key, ks[c]))
    ensures c < |t.pages[id].children|
    ensures var child := t.pages[id].children[c];
      && PathTo(t, path + [id], child)
      && Covers(t.place[child], key)
      && t.place[child].height < t.place[id].height
  {
    assert NodeOk(t, id);
    var child := t.pages[id].children[c];
    assert ChildAt(t, id, t.pages[id].keys, c, child);
    OrderLaws();
    assert (path + [id])[..|path + [id]| - 1] == path;
  }

  lemma Arity(t: Tree, id: PageId)
    requires Overfull(t, id)
    ensures t.pages[id].Internal? ==> |t.pages[id].children| == |t.pages[id].keys| + 1
  {
    Reached(t, id);
  }

  lemma Unpath(t: Tree, path: seq<PageId>, id: PageId)
    requires Overfull(t, id) && PathTo(t, path, id)
    ensures id in t.place
    ensures path == [] ==> id == t.root
    ensures path != [] ==> id != t.root && t.place[id].parent == path[|path| - 1]
    ensures path != [] ==> PathTo(t, path[..|path| - 1], t.place[id].parent)
    ensures path != [] ==>
      (var p := t.place[id].parent;
       p in t.pages && t.pages[p].Internal? && p != id && |t.pages[p].children| == |t.pages[p].keys| + 1)
  {
    if path != [] {
      ParentHeight(t, id);
      Reached(t, t.place[id].parent);
    }
  }

  /** The root was split: the tree under the new root is well formed. */
  lemma NewRoot(t: Tree, id: PageId, right: PageId, top: PageId)
    requires Overfull(t, id) && id == t.root
    requires right !in t.pages && right != 0 && top !in t.pages && top != 0 && right != top
    ensures var h := SplitOf(t.pages[id], id, right); var t1 := GrowRoot(t, top);
      && CanSplit(t1, id, right)
      && WellFormed(SplitPage(t1, id, right), 0)
      && SplitPage(t1, id, right).root == top && SplitPage(t1, id, right).view == t.view
      && SplitPage(t1, id, right).pages
         == t.pages[id := h.left][right := h.right][top := Internal([h.sep], [id, right])]
  {
    GrowRootWellFormed(t, top);
    NewRootShape(t, id, right, top);
    hide Placed, Chained, Stores, Filled, Balanced, SplitPage, GrowRoot, CanSplit;
    SplitWellFormed(GrowRoot(t, top), id, right);
    SplitBooks(GrowRoot(t, top), id, right);
    NewRootPages(t, id, right, top);
    TopFilled(SplitPage(GrowRoot(t, top), id, right), top);
  }

  lemma SplitBooks(t: Tree, id: PageId, right: PageId)
    requires CanSplit(t, id, right)
    ensures var t2 := SplitPage(t, id, right); var p := t.place[id].parent; var h := SplitOf(t.pages[id], id, right);
      && t2.root == t.root && t2.view == t.view
      && t2.pages == t.pages[id := h.left][right := h.right]
                     [p := WithChild(t.pages[p], IndexIn(t.pages[p].children, id), h.sep, right)]
  {
  }

  lemma NewRootShape(t: Tree, id: PageId, right: PageId, top: PageId)
    requires id == t.root && id in t.pages && id in t.place
    requires right !in t.pages && top !in t.pages && right != top
    ensures var t1 := GrowRoot(t, top);
      && id in t1.pages && id in t1.place && t1.pages[id] == t.pages[id] && t1.place[id].parent == top
      && t1.root == top && t1.view == t.view && id != top && right !in t1.pages
  {
  }

  lemma NewRootPages(t: Tree, id: PageId, right: PageId, top: PageId)
    requires id == t.root && id in t.pages && id in t.place
    requires right !in t.pages && top !in t.pages && right != top
    requires CanSplit(GrowRoot(t, top), id, right)
    ensures var h := SplitOf(t.pages[id], id, right);
      SplitPage(GrowRoot(t, top), id, right).pages
      == t.pages[id := h.left][right := h.right][top := Internal([h.sep], [id, right])]
  {
    var h := SplitOf(t.pages[id], id, right);
    var t1 := GrowRoot(t, top);
    var j := IndexIn(t1.pages[top].children, id);
    assert WithChild(t1.pages[top], j, h.sep, right) == Internal([h.sep], [id, right]);
    assert t1.pages[id := h.left][right := h.right][top := Internal([h.sep], [id, right])]
        == t.pages[id := h.left][right := h.right][top := Internal([h.sep], [id, right])];
  }

  lemma TopFilled(t: Tree, top: PageId)
    requires WellFormed(t, top) && top in t.pages && Count(t.pages[top]) <= ORDER
    ensures WellFormed(t, 0)
  {
  }

  /** A page below the root was split: with the new child in its parent the tree is well formed, except
      that the parent may now be overfull. */
  lemma NewChild(t: Tree, id: PageId, right: PageId)
    requires Overfull(t, id) && id != t.root
    requires right !in t.pages && right != 0
    ensures CanSplit(t, id, right)
    ensures var p := t.place[id].parent; var t2 := SplitPage(t, id, right);
      && p in t2.pages && t.place[p].height == t.place[id].height + 1
      && (Count(t2.pages[p]) <= ORDER ==> WellFormed(t2, 0))
      && (Count(t2.pages[p]) > ORDER ==> Overfull(t2, p))
      && t2.root == t.root && t2.view == t.view
      && (SmallPages(t.pages) ==> SmallPages(t2.pages))
  {
    var p := t.place[id].parent;
    ParentHeight(t, id);
    Reached(t, p);
    SplitWellFormed(t, id, right);
    if SmallPages(t.pages) {
      SmallSplit(t, id, right);
    }
  }

  /** Where the new separator goes in the parent, and the way to the parent. */
  lemma NewChildSite(t: Tree, id: PageId, right: PageId, path: seq<PageId>)
    requires Overfull(t, id) && PathTo(t, path, id) && path != [] && CanSplit(t, id, right)
    ensures PathTo(SplitPage(t, id, right), path[..|path| - 1], t.place[id].parent)
    ensures var ks := t.pages[t.place[id].parent].keys; var sep := SplitOf(t.pages[id], id, right).sep;
      var j := IndexIn(t.pages[t.place[id].parent].children, id);
      && (forall i :: 0 <= i < j ==> Less(ks[i], sep))
      && (j < |ks| ==> !Less(ks[j], sep))
  {
    var p := t.place[id].parent;
    Unpath(t, path, id);
    ParentHeight(t, id);
    SplitKeepsPath(t, id, right, path[..|path| - 1], p);
    SeparatorNeighbours(t, id, right, IndexIn(t.pages[p].children, id));
  }

  /** Following the next pointer moves one leaf to the right; the last leaf ends the key space. */
  lemma InChain(t: Tree, n: nat)
    requires Placed(t) && Chained(t) && n < |t.leaves|
    ensures var id := t.leaves[n];
      && id in t.pages && t.pages[id].Leaf? && NodeOk(t, id)
      && (n == |t.leaves| - 1 ==> t.pages[id].next == 0 && t.place[id].hi == 1.0)
      && (n < |t.leaves| - 1 ==>
           t.pages[id].next == t.leaves[n + 1] != 0 && t.place[t.leaves[n + 1]].lo == t.place[id].hi)
  {
  }

  ghost function PositionInChain(t: Tree, id: PageId): (n: nat)
    requires Chained(t) && id in t.pages && t.pages[id].Leaf?
    ensures n < |t.leaves| && t.leaves[n] == id
  {
    var n: nat :| n < |t.leaves| && t.leaves[n] == id;
    n
  }

  lemma FirstChild(t: Tree, id: PageId)
    requires id in t.pages && id in t.place && t.pages[id].Internal? && NodeOk(t, id)
    ensures |t.pages[id].children| > 0
    ensures var c := t.pages[id].children[0];
      c in t.pages && c in t.place && t.place[c].lo == t.place[id].lo && t.place[c].height < t.place[id].height
  {
    assert ChildAt(t, id, t.pages[id].keys, 0, t.pages[id].children[0]);
  }

  lemma FirstLeaf(t: Tree, id: PageId)
    requires Placed(t) && Chained(t) && id in t.pages && t.pages[id].Leaf? && t.place[id].lo == 0.0
    ensures id == t.leaves[0]
  {
    InChain(t, 0);
    Reached(t, id);
    DisjointLeaves(t);
    assert Covers(t.place[id], []) && Covers(t.place[t.leaves[0]], []);
  }
}
