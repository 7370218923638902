/** What Get finds on the pages themselves, whole or half-way through a split. */
module TreeLookup {
  import opened Keys
  import opened TreeModel
  import opened TreeSteps

  function EntryValue(es: seq<Entry>, key: Key): Option<Val> {
    if es == [] then None else if es[0].key == key then Some(es[0].value) else EntryValue(es[1..], key)
  }

  /** The child to descend into: the one before the first separator greater than key. */
  function Pick(ks: seq<Key>, key: Key): (c: nat)
    ensures c <= |ks|
    ensures forall i :: 0 <= i < c ==> !Less(key, ks[i])
    ensures c < |ks| ==> Less(key, ks[c])
  {
    if ks == [] || Less(key, ks[0]) then 0 else 1 + Pick(ks[1..], key)
  }

  /** The search of Get from a page down, for at most depth pages. */
  function Lookup(pages: map<PageId, Node>, id: PageId, key: Key, depth: nat): Option<Val>
    decreases depth
  {
    if depth == 0 || id !in pages then None
    else
      match pages[id]
      case Leaf(es, _, _) => EntryValue(es, key)
      case Internal(ks, cs) =>
        var c := Pick(ks, key);
        if c < |cs| then Lookup(pages, cs[c], key, depth - 1) else None
  }

  function ValueIn(m: map<Key, Val>, key: Key): Option<Val> {
    if key in m then Some(m[key]) else None
  }

  /** From page id, every search finds what the map m says, except for the keys in [lo, hi): they are gone. */
  ghost predicate FindsAllBut(pages: map<PageId, Node>, id: PageId, height: nat, m: map<Key, Val>, lo: real, hi: real) {
    forall key: Key, depth: nat {:trigger Lookup(pages, id, key, depth)} :: depth > height ==>
      Lookup(pages, id, key, depth) == if lo <= Rank(key) < hi then None else ValueIn(m, key)
  }

  // ---------------------------------------------------------------------------------------------

  lemma {:induction false} EntryValueIs(es: seq<Entry>, key: Key)
    ensures EntryValue(es, key) == None <==> forall e :: e in es ==> e.key != key
    ensures EntryValue(es, key).Some? ==> Entry(key, EntryValue(es, key).value) in es
  {
    if es != [] {
      EntryValueIs(es[1..], key);
      assert es == [es[0]] + es[1..];
    }
  }

  /** Where a key goes is decided by the separators on either side. */
  lemma PickIs(ks: seq<Key>, key: Key, c: nat)
    requires SortedKeys(ks) && c <= |ks|
    requires c > 0 ==> !Less(key, ks[c - 1])
    requires c < |ks| ==> Less(key, ks[c])
    ensures Pick(ks, key) == c
  {
    OrderLaws();
    assert forall i :: 0 <= i < c - 1 ==> Less(ks[i], ks[c - 1]);
  }

  /** A step down from an internal page. */
  lemma StepDown(t: Tree, x: PageId, key: Key)
    requires Placed(t) && x in t.pages && t.pages[x].Internal?
    ensures var c := Pick(t.pages[x].keys, key);
      && c < |t.pages[x].children|
      && var child := t.pages[x].children[c];
         && child in t.pages && t.place[child].height + 1 == t.place[x].height
         && (Covers(t.place[x], key) <==> Covers(t.place[child], key))
  {
    var ks, c := t.pages[x].keys, Pick(t.pages[x].keys, key);
    Reached(t, x);
    assert ChildAt(t, x, ks, c, t.pages[x].children[c]);
    OrderLaws();
    assert forall i :: 0 <= i < |ks| ==> t.place[x].lo < Rank(ks[i]) < t.place[x].hi;
    assert c > 0 ==> !Less(key, ks[c - 1]);
  }

  lemma LookupIs(pages: map<PageId, Node>, id: PageId, key: Key, depth: nat)
    requires depth > 0 && id in pages
    ensures pages[id].Leaf? ==> Lookup(pages, id, key, depth) == EntryValue(pages[id].entries, key)
    ensures pages[id].Internal? && Pick(pages[id].keys, key) < |pages[id].children| ==>
      Lookup(pages, id, key, depth) == Lookup(pages, pages[id].children[Pick(pages[id].keys, key)], key, depth - 1)
  {
  }

  lemma NoDepth(pages: map<PageId, Node>, id: PageId, key: Key)
    ensures Lookup(pages, id, key, 0) == None
  {
  }

  lemma LeafOutside(t: Tree, x: PageId, key: Key)
    requires Placed(t) && x in t.pages && t.pages[x].Leaf? && !Covers(t.place[x], key)
    ensures EntryValue(t.pages[x].entries, key) == None
  {
    EntryValueIs(t.pages[x].entries, key);
    forall e | e in t.pages[x].entries
      ensures e.key != key
    {
      EntryCovered(t, x, e);
    }
  }

  lemma LeafInside(t: Tree, x: PageId, key: Key)
    requires Stores(t) && x in t.pages && t.pages[x].Leaf? && Covers(t.place[x], key)
    ensures EntryValue(t.pages[x].entries, key) == ValueIn(t.view, key)
  {
    EntryValueIs(t.pages[x].entries, key);
  }

  lemma InPlace(t: Tree, x: PageId)
    requires Placed(t) && x in t.pages
    ensures x in t.place
  {
  }

  /** Below a page, a key outside its interval is not found. */
  lemma {:induction false} SearchOutside(t: Tree, x: PageId, key: Key, depth: nat)
    requires Placed(t) && x in t.pages && !Covers(t.place[x], key)
    ensures Lookup(t.pages, x, key, depth) == None
    decreases depth
  {
    hide Lookup, Placed, Covers;
    if depth == 0 {
      NoDepth(t.pages, x, key);
    } else {
      LookupIs(t.pages, x, key, depth);
      if t.pages[x].Leaf? {
        LeafOutside(t, x, key);
      } else {
        StepDown(t, x, key);
        SearchOutside(t, t.pages[x].children[Pick(t.pages[x].keys, key)], key, depth - 1);
      }
    }
  }

  /** Below the page responsible for it, a key is found exactly when it is stored. */
  lemma {:induction false} SearchInside(t: Tree, x: PageId, key: Key, depth: nat)
    requires Placed(t) && Stores(t) && x in t.pages && Covers(t.place[x], key) && depth > t.place[x].height
    ensures Lookup(t.pages, x, key, depth) == ValueIn(t.view, key)
    decreases depth
  {
    hide Lookup, Placed, Covers, Stores;
    InPlace(t, x);
    LookupIs(t.pages, x, key, depth);
    if t.pages[x].Leaf? {
      LeafInside(t, x, key);
    } else {
      StepDown(t, x, key);
      SearchInside(t, t.pages[x].children[Pick(t.pages[x].keys, key)], key, depth - 1);
    }
  }

  /** pages has every page of t as t has it, save those above height h and page f. */
  ghost predicate AgreeBelow(pages: map<PageId, Node>, t: Tree, h: nat) {
    t.place.Keys == t.pages.Keys
    && forall y :: y in t.pages && t.place[y].height <= h ==> y in pages && pages[y] == t.pages[y]
  }

  lemma {:induction false} SearchSame(pages: map<PageId, Node>, t: Tree, x: PageId, key: Key, depth: nat)
    requires Placed(t) && x in t.pages && AgreeBelow(pages, t, t.place[x].height)
    ensures Lookup(pages, x, key, depth) == Lookup(t.pages, x, key, depth)
    decreases depth
  {
    hide Lookup, Placed;
    if depth == 0 {
      NoDepth(pages, x, key);
      NoDepth(t.pages, x, key);
    } else {
      LookupIs(pages, x, key, depth);
      LookupIs(t.pages, x, key, depth);
      if t.pages[x].Internal? {
        StepDown(t, x, key);
        SearchSame(pages, t, t.pages[x].children[Pick(t.pages[x].keys, key)], key, depth - 1);
      }
    }
  }

  /** pages has every page of t as t has it, save page f. */
  ghost predicate AgreeBut(pages: map<PageId, Node>, t: Tree, f: PageId) {
    forall y :: y in t.pages && y != f ==> y in pages && pages[y] == t.pages[y]
  }

  /** The search for a key that f is not responsible for never comes to f. */
  lemma {:induction false} SearchAvoids(pages: map<PageId, Node>, t: Tree, f: PageId, x: PageId, key: Key, depth: nat)
    requires Placed(t) && x in t.pages && f in t.pages && AgreeBut(pages, t, f)
    requires Covers(t.place[x], key) && !Covers(t.place[f], key)
    ensures Lookup(pages, x, key, depth) == Lookup(t.pages, x, key, depth)
    decreases depth
  {
    hide Lookup, Placed, Covers;
    if depth == 0 {
      NoDepth(pages, x, key);
      NoDepth(t.pages, x, key);
    } else {
      LookupIs(pages, x, key, depth);
      LookupIs(t.pages, x, key, depth);
      if t.pages[x].Internal? {
        StepDown(t, x, key);
        SearchAvoids(pages, t, f, t.pages[x].children[Pick(t.pages[x].keys, key)], key, depth - 1);
      }
    }
  }

  lemma {:induction false} PathHeight(t: Tree, path: seq<PageId>, f: PageId)
    requires Placed(t) && PathTo(t, path, f)
    ensures t.place[f].height + |path| == t.place[t.root].height
    ensures forall i :: 0 <= i < |path| ==> path[i] in t.pages && t.place[path[i]].height > t.place[f].height
  {
    hide Placed;
    if path != [] {
      var n := |path| - 1;
      ParentHeight(t, f);
      PathHeight(t, path[..n], path[n]);
    }
  }

  /** The child that covers the key is the one the search takes. */
  lemma TakesChild(t: Tree, f: PageId, key: Key)
    requires Placed(t) && f in t.pages && f != t.root && Covers(t.place[f], key)
    ensures var p := t.place[f].parent;
      && p in t.pages && t.pages[p].Internal? && Covers(t.place[p], key)
      && Pick(t.pages[p].keys, key) < |t.pages[p].children| && t.pages[p].children[Pick(t.pages[p].keys, key)] == f
  {
    var p := t.place[f].parent;
    assert IsChild(t, f, p) && NodeOk(t, p);
    var ks := t.pages[p].keys;
    var j: nat :| j < |t.pages[p].children| && t.pages[p].children[j] == f;
    assert ChildAt(t, p, ks, j, f);
    OrderLaws();
    PickIs(ks, key, j);
    assert j > 0 ==> t.place[p].lo < Rank(ks[j - 1]);
    assert j < |ks| ==> Rank(ks[j]) < t.place[p].hi;
  }

  /** The search for a key that f is responsible for comes to f, along the path. */
  lemma {:induction false} SearchReaches(pages: map<PageId, Node>, t: Tree, path: seq<PageId>, f: PageId, key: Key,
                                         depth: nat)
    requires Placed(t) && PathTo(t, path, f) && AgreeBut(pages, t, f) && Covers(t.place[f], key)
    requires depth > t.place[t.root].height
    ensures depth > |path| && depth - |path| > t.place[f].height
    ensures Lookup(pages, t.root, key, depth) == Lookup(pages, f, key, depth - |path|)
  {
    PathHeight(t, path, f);
    Passes(pages, t, path, f, f, key, depth);
  }

  lemma {:induction false} Passes(pages: map<PageId, Node>, t: Tree, path: seq<PageId>, x: PageId, f: PageId,
                                  key: Key, depth: nat)
    requires Placed(t) && PathTo(t, path, x) && Covers(t.place[x], key) && depth > |path|
    requires AgreeBut(pages, t, f) && f in t.pages && t.place[x].height >= t.place[f].height
    ensures Lookup(pages, t.root, key, depth) == Lookup(pages, x, key, depth - |path|)
    decreases |path|
  {
    hide Lookup, Placed, Covers;
    if path != [] {
      var n := |path| - 1;
      var p := path[n];
      TakesChild(t, x, key);
      ParentHeight(t, x);
      LookupIs(pages, p, key, depth - n);
      Passes(pages, t, path[..n], p, f, key, depth);
    }
  }
}
