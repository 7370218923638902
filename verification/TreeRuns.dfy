/** What Put and Delete of btree.go make of a whole tree, as functions, and what a run of them comes to. */
module TreeRuns {
  import opened Keys
  import opened TreeModel
  import opened NodeSizes
  import opened TreeSteps
  import opened SplitLoss

  /** A tree and the next free page. */
  datatype Grown = Grown(tree: Tree, next: PageId)

  ghost predicate Sound(t: Tree, next: PageId) {
    WellFormed(t, 0) && next > 0 && Below(t.pages, next)
  }

  /** The tree once the overfull page id was split and everything above it has been told. right is the page for the
      right half. */
  ghost function AfterLink(t: Tree, id: PageId, right: PageId): (g: Grown)
    requires Overfull(t, id) && right > 0 && Below(t.pages, right)
    ensures Sound(g.tree, g.next) && g.tree.view == t.view
    decreases DepthOf(t, id)
  {
    if id == t.root then
      NewRoot(t, id, right, right + 1);
      GrownBelow(t, id, right);
      Grown(SplitPage(GrowRoot(t, right + 1), id, right), right + 2)
    else
      NewChild(t, id, right);
      Shallower(t, id, right);
      MoreBelow(t, id, right);
      var p, t2 := t.place[id].parent, SplitPage(t, id, right);
      if Count(t2.pages[p]) <= ORDER then Grown(t2, right + 1) else AfterLink(t2, p, right + 1)
  }

  lemma GrownBelow(t: Tree, id: PageId, right: PageId)
    requires Overfull(t, id) && id == t.root && right > 0 && Below(t.pages, right)
    requires CanSplit(GrowRoot(t, right + 1), id, right)
    ensures Below(SplitPage(GrowRoot(t, right + 1), id, right).pages, right + 2)
  {
    hide SplitPage, GrowRoot, SplitOf, WellFormed, CanSplit, Below;
    NotYet(t.pages, right);
    BelowNext(t.pages, right);
    NotYet(t.pages, right + 1);
    KnownPage(t, id);
    var h := SplitOf(t.pages[id], id, right);
    NewRoot(t, id, right, right + 1);
    BelowMore(t.pages, id, h.left, right, h.right, Internal([h.sep], [id, right]));
  }

  lemma BelowNext(pages: map<PageId, Node>, n: nat)
    requires Below(pages, n)
    ensures Below(pages, n + 1)
  {
  }

  lemma BelowMore(pages: map<PageId, Node>, id: PageId, left: Node, right: PageId, r: Node, top: Node)
    requires Below(pages, right) && id in pages
    ensures Below(pages[id := left][right := r][right + 1 := top], right + 2)
  {
  }

  /** The tree with key set to value, if all its pages fit. */
  ghost function AfterPut(t: Tree, key: Key, value: Val, next: PageId): (g: Grown)
    requires Sound(t, next)
    ensures Sound(g.tree, g.next) && g.tree.view == t.view[key := value]
  {
    var id := LeafOf(t, key);
    SetKeyStep(t, id, key, value);
    SetEntriesFields(t, id, NewEntries(t, key, value), t.view[key := value]);
    if |NewEntries(t, key, value)| <= ORDER then Grown(WithKey(t, key, value), next)
    else AfterLink(WithKey(t, key, value), id, next)
  }

  /** The entries without the one for key. */
  function Without(es: seq<Entry>, key: Key): seq<Entry> {
    if es == [] then [] else if es[0].key == key then es[1..] else [es[0]] + Without(es[1..], key)
  }

  lemma {:induction false} WithoutAt(es: seq<Entry>, i: nat, key: Key)
    requires Sorted(es) && i < |es| && es[i].key == key
    ensures Without(es, key) == es[..i] + es[i + 1..]
  {
    OrderLaws();
    if i > 0 {
      assert Less(es[0].key, es[i].key);
      WithoutAt(es[1..], i - 1, key);
    }
  }

  /** The tree without key. */
  ghost function AfterDelete(t: Tree, key: Key): (t': Tree)
    requires WellFormed(t, 0)
    ensures WellFormed(t', 0) && t'.pages.Keys == t.pages.Keys && t'.view == t.view - {key}
  {
    if key !in t.view then t
    else
      var id := LeafOf(t, key);
      var i := EntryAt(t, id, key);
      DeleteStep(t, id, i, key);
      SetEntriesFields(t, id, Without(t.pages[id].entries, key), t.view - {key});
      SetEntries(t, id, Without(t.pages[id].entries, key), t.view - {key})
  }

  /** Where a stored key is in the leaf responsible for it. */
  ghost function EntryAt(t: Tree, id: PageId, key: Key): (i: nat)
    requires WellFormed(t, 0) && id in t.pages && t.pages[id].Leaf? && Covers(t.place[id], key) && key in t.view
    ensures i < |t.pages[id].entries| && t.pages[id].entries[i] == Entry(key, t.view[key])
    ensures Without(t.pages[id].entries, key) == t.pages[id].entries[..i] + t.pages[id].entries[i + 1..]
  {
    var es := t.pages[id].entries;
    assert Entry(key, t.view[key]) in es;
    var i: nat :| i < |es| && es[i] == Entry(key, t.view[key]);
    LeafCount(t, id);
    WithoutAt(es, i, key);
    i
  }

  /** A new database: page 0 is the header, page 1 an empty leaf. */
  ghost function EmptyTree(): (t: Tree)
    ensures Sound(t, 2) && t.view == map[]
  {
    Tree(map[1 := Leaf([], 0, 0)], 1, map[1 := Place(0, 0.0, 1.0, 0)], [1], map[])
  }

  /** At the root, and when the parent has room. */
  lemma LinkedHere(t: Tree, id: PageId, right: PageId)
    requires Overfull(t, id) && right > 0 && Below(t.pages, right)
    ensures id == t.root ==>
      && CanSplit(GrowRoot(t, right + 1), id, right)
      && AfterLink(t, id, right) == Grown(SplitPage(GrowRoot(t, right + 1), id, right), right + 2)
    ensures id != t.root ==>
      && CanSplit(t, id, right) && t.place[id].parent in SplitPage(t, id, right).pages
      && (Count(SplitPage(t, id, right).pages[t.place[id].parent]) <= ORDER ==>
            AfterLink(t, id, right) == Grown(SplitPage(t, id, right), right + 1))
  {
    hide SplitPage, CanSplit, WellFormed, GrowRoot;
    if id == t.root {
      NewRoot(t, id, right, right + 1);
    } else {
      NewChild(t, id, right);
    }
  }

  /** One level of AfterLink. */
  lemma LinkedAbove(t: Tree, id: PageId, right: PageId)
    requires Overfull(t, id) && right > 0 && Below(t.pages, right) && id != t.root && CanSplit(t, id, right)
    requires var t2, p := SplitPage(t, id, right), t.place[id].parent;
      p in t2.pages && Count(t2.pages[p]) > ORDER && Overfull(t2, p) && Below(t2.pages, right + 1)
    ensures AfterLink(t, id, right) == AfterLink(SplitPage(t, id, right), t.place[id].parent, right + 1)
  {
    hide SplitPage, CanSplit, WellFormed;
  }

  // ---------------------------------------------------------------------------------------------
  // Runs

  /** How a run of operations ends: all done; or a Put does not fit and changed nothing that is stored; or a Put
      tore the tree. */
  datatype TreeEnd = Went(tree: Tree, next: PageId) | Halted(tree: Tree, next: PageId) | Tore(put: TornPut)

  /** A Put that fails without a trace: the leaf does not fit, or it is full and its left half does not. */
  ghost predicate Halts(t: Tree, key: Key, value: Val)
    requires WellFormed(t, 0)
  {
    var n, es := t.pages[LeafOf(t, key)], NewEntries(t, key, value);
    if |es| <= ORDER then !Fits(WithEntries(n, es)) else !Fits(WithEntries(n, es[..|es| / 2]))
  }

  /** The pages that such a Put takes: the one for the right half. */
  ghost function Wasted(t: Tree, key: Key, value: Val): nat
    requires WellFormed(t, 0)
  {
    if |NewEntries(t, key, value)| <= ORDER then 0 else 1
  }

  ghost predicate Ending(r: TreeEnd) {
    match r
    case Went(t, next) => Sound(t, next)
    case Halted(t, next) => Sound(t, next)
    case Tore(x) => Sound(x.tree, x.next) && Tears(x.tree, x.key, x.value, x.next)
  }

  ghost function TreeStep(t: Tree, next: PageId, op: Op): (r: TreeEnd)
    requires Sound(t, next)
    ensures Ending(r) && (r.Went? ==> r.tree.view == Apply(t.view, op)) && (r.Halted? ==> r.tree == t)
  {
    match op
    case OpDelete(k) => Went(AfterDelete(t, k), next)
    case OpPut(k, v) =>
      if PutFits(t, k, v, next) then
        var g := AfterPut(t, k, v, next);
        Went(g.tree, g.next)
      else if Tears(t, k, v, next) then Tore(TornPut(t, next, k, v))
      else Halted(t, next + Wasted(t, k, v))
  }

  ghost function TreeRun(ops: seq<Op>, t: Tree, next: PageId): (r: TreeEnd)
    requires Sound(t, next)
    ensures Ending(r)
  {
    if ops == [] then Went(t, next)
    else
      match TreeRun(ops[..|ops| - 1], t, next)
      case Went(t1, n1) => TreeStep(t1, n1, ops[|ops| - 1])
      case other => other
  }

  lemma RunStep(ops: seq<Op>, i: nat, t: Tree, next: PageId)
    requires i < |ops| && Sound(t, next)
    ensures TreeRun(ops[..i + 1], t, next) == match TreeRun(ops[..i], t, next)
      case Went(t1, n1) => TreeStep(t1, n1, ops[i])
      case other => other
  {
    assert ops[..i + 1][..i] == ops[..i];
  }

  lemma NoSteps(t: Tree, next: PageId)
    requires Sound(t, next)
    ensures TreeRun([], t, next) == Went(t, next)
  {
  }

  lemma StepDeletes(t: Tree, next: PageId, key: Key)
    requires Sound(t, next)
    ensures TreeStep(t, next, OpDelete(key)) == Went(AfterDelete(t, key), next)
  {
  }

  /** A run that has ended early ends the same way with more operations behind it. */
  lemma {:induction false} RunEnded(ops: seq<Op>, i: nat, t: Tree, next: PageId)
    requires i <= |ops| && Sound(t, next) && !TreeRun(ops[..i], t, next).Went?
    ensures TreeRun(ops, t, next) == TreeRun(ops[..i], t, next)
    decreases |ops|
  {
    hide TreeRun, TreeStep, Sound, Ending;
    if i < |ops| {
      var n := |ops| - 1;
      assert ops[..n][..i] == ops[..i];
      RunEnded(ops[..n], i, t, next);
      RunStep(ops, n, t, next);
      assert ops[..n + 1] == ops;
    } else {
      assert ops[..i] == ops;
    }
  }

  /** One more operation of a run that has gone well so far. */
  lemma RunOn(ops: seq<Op>, i: nat, t: Tree, next: PageId)
    requires i < |ops| && Sound(t, next) && TreeRun(ops[..i], t, next).Went?
    ensures var r := TreeRun(ops[..i], t, next); var s := TreeStep(r.tree, r.next, ops[i]);
      TreeRun(ops[..i + 1], t, next) == s && (!s.Went? || i + 1 == |ops| ==> TreeRun(ops, t, next) == s)
  {
    hide TreeRun, TreeStep, Sound;
    RunStep(ops, i, t, next);
    if !TreeRun(ops[..i + 1], t, next).Went? {
      RunEnded(ops, i + 1, t, next);
    }
    if i + 1 == |ops| {
      assert ops[..i + 1] == ops;
    }
  }

  lemma HaltsIff(t: Tree, key: Key, value: Val, next: PageId)
    requires Sound(t, next)
    ensures Halts(t, key, value) <==> !PutFits(t, key, value, next) && !Tears(t, key, value, next)
  {
    var id, es := LeafOf(t, key), NewEntries(t, key, value);
    if |es| > ORDER {
      SetKeyStep(t, id, key, value);
      SetEntriesFields(t, id, es, t.view[key := value]);
      var mid := |es| / 2;
      assert NewHalves(t, key, value, next).left == Leaf(es[..mid], next, t.pages[id].prev);
    }
  }

  // ---------------------------------------------------------------------------------------------
  // Doing a run again

  /** The map already is what op makes of it. */
  predicate Settled(m: map<Key, Val>, op: Op) {
    match op
    case OpPut(k, v) => k in m && m[k] == v
    case OpDelete(k) => k !in m
  }

  lemma {:induction false} SetKeySame(es: seq<Entry>, i: nat)
    requires Sorted(es) && i < |es|
    ensures SetKey(es, es[i].key, es[i].value) == es
  {
    SetKeyFound(es, i, es[i].key, es[i].value);
    assert es[i := Entry(es[i].key, es[i].value)] == es;
  }

  /** On a tree whose pages fit, such an operation changes nothing and does not fail. */
  lemma SettledStep(t: Tree, next: PageId, op: Op)
    requires Sound(t, next) && FitPages(t.pages) && Settled(t.view, op)
    ensures TreeStep(t, next, op) == Went(t, next)
  {
    hide Fits, AfterPut, PutFits, WithKey;
    if op.OpPut? {
      PutAgain(t, next, op.key);
    }
  }

  lemma PutAgain(t: Tree, next: PageId, key: Key)
    requires Sound(t, next) && FitPages(t.pages) && key in t.view
    ensures PutFits(t, key, t.view[key], next) && AfterPut(t, key, t.view[key], next) == Grown(t, next)
  {
    hide Placed, Chained, Stores, Balanced, NodeOk, Fits, LeafOf, SetKey, Below, Sorted;
    var id := LeafOf(t, key);
    var es := t.pages[id].entries;
    var i := EntryAt(t, id, key);
    LeafCount(t, id);
    SetKeySame(es, i);
    assert NewEntries(t, key, t.view[key]) == es && WithEntries(t.pages[id], es) == t.pages[id];
    assert t.view[key := t.view[key]] == t.view && t.pages[id := t.pages[id]] == t.pages;
    assert WithKey(t, key, t.view[key]) == t;
  }

  ghost predicate Different(ops: seq<Op>) {
    forall i, j :: 0 <= i < j < |ops| ==> ops[i].key != ops[j].key
  }

  lemma {:induction false} RunSettles(ops: seq<Op>, t: Tree, next: PageId)
    requires Sound(t, next) && Different(ops) && TreeRun(ops, t, next).Went?
    ensures forall i :: 0 <= i < |ops| ==> Settled(TreeRun(ops, t, next).tree.view, ops[i])
  {
    hide TreeRun, TreeStep, Sound, Ending;
    if ops != [] {
      var n := |ops| - 1;
      RunStep(ops, n, t, next);
      assert ops[..n + 1] == ops;
      RunSettles(ops[..n], t, next);
      var m := TreeRun(ops[..n], t, next).tree.view;
      forall i | 0 <= i < |ops|
        ensures Settled(Apply(m, ops[n]), ops[i])
      {
        assert i < n ==> ops[..n][i] == ops[i] && Settled(m, ops[i]) && ops[i].key != ops[n].key;
      }
    }
  }

  lemma {:induction false} SettledRun(ops: seq<Op>, t: Tree, next: PageId)
    requires Sound(t, next) && FitPages(t.pages) && forall i :: 0 <= i < |ops| ==> Settled(t.view, ops[i])
    ensures TreeRun(ops, t, next) == Went(t, next)
  {
    hide TreeRun, TreeStep, Sound, Ending, FitPages;
    if ops != [] {
      var n := |ops| - 1;
      SettledRun(ops[..n], t, next);
      SettledStep(t, next, ops[n]);
      RunStep(ops, n, t, next);
      assert ops[..n + 1] == ops;
    } else {
      NoSteps(t, next);
    }
  }

  /** Where a run halts. */
  lemma {:induction false} HaltPoint(ops: seq<Op>, t: Tree, next: PageId) returns (i: nat)
    requires Sound(t, next) && TreeRun(ops, t, next).Halted?
    ensures i < |ops| && ops[i].OpPut? && TreeRun(ops[..i], t, next).Went?
    ensures TreeRun(ops[..i], t, next).tree == TreeRun(ops, t, next).tree
    ensures Halts(TreeRun(ops, t, next).tree, ops[i].key, ops[i].value)
  {
    hide TreeRun, TreeStep, Sound, Halts;
    NoSteps(t, next);
    var n := |ops| - 1;
    RunStep(ops, n, t, next);
    assert ops[..n + 1] == ops;
    if TreeRun(ops[..n], t, next).Halted? {
      i := HaltPoint(ops[..n], t, next);
      assert ops[..n][..i] == ops[..i];
    } else {
      i := n;
      HaltedStep(TreeRun(ops[..n], t, next).tree, TreeRun(ops[..n], t, next).next, ops[n]);
    }
  }

  lemma HaltedStep(t: Tree, next: PageId, op: Op)
    requires Sound(t, next)
    ensures TreeStep(t, next, op).Halted? <==> op.OpPut? && Halts(t, op.key, op.value)
  {
    hide PutFits, Tears, Halts, AfterPut, AfterDelete, Sound;
    if op.OpPut? {
      HaltsIff(t, op.key, op.value, next);
    }
  }

  /** A run of operations on different keys that halted halts again on the tree it has left, and leaves it as it is. */
  lemma HaltsAgain(ops: seq<Op>, t: Tree, next: PageId, next': PageId)
    requires Sound(t, next) && Different(ops) && TreeRun(ops, t, next).Halted?
    requires FitPages(TreeRun(ops, t, next).tree.pages) && Sound(TreeRun(ops, t, next).tree, next')
    ensures TreeRun(ops, TreeRun(ops, t, next).tree, next').Halted?
    ensures TreeRun(ops, TreeRun(ops, t, next).tree, next').tree == TreeRun(ops, t, next).tree
  {
    hide TreeRun, TreeStep, Halts, FitPages, Sound, Ending;
    var i := HaltPoint(ops, t, next);
    var t' := TreeRun(ops, t, next).tree;
    RunSettles(ops[..i], t, next);
    SettledRun(ops[..i], t', next');
    HaltedStep(t', next', ops[i]);
    RunStep(ops, i, t', next');
    RunEnded(ops, i + 1, t', next');
  }
}
