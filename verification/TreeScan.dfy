/** What a scan along the leaf chain must produce, and the steps that produce it. */
module TreeScan {
  import opened Keys
  import opened TreeModel

  /** es lists the map m in strictly ascending key order, every key once. Such a listing is unique. */
  ghost predicate Lists(es: seq<Entry>, m: map<Key, Val>) {
    && Sorted(es)
    && (forall e :: e in es ==> e.key in m && m[e.key] == e.value)
    && (forall k :: k in m ==> Entry(k, m[k]) in es)
  }

  /** The part of m in [start, end). */
  ghost function Range(m: map<Key, Val>, start: Key, end: Key): map<Key, Val> {
    map k | k in m && !Less(k, start) && Less(k, end) :: m[k]
  }

  /** The part of m whose ranks lie in [a, b). */
  ghost function Slice(m: map<Key, Val>, a: real, b: real): map<Key, Val> {
    map k | k in m && a <= Rank(k) < b :: m[k]
  }

  lemma {:induction false} ListingUnique(a: seq<Entry>, b: seq<Entry>, m: map<Key, Val>)
    requires Lists(a, m) && Lists(b, m)
    ensures a == b
  {
    hide Lists;
    SameHead(a, b, m);
    if a != [] {
      TailLists(a, m);
      TailLists(b, m);
      ListingUnique(a[1..], b[1..], m - {a[0].key});
      assert a == [a[0]] + a[1..] && b == [b[0]] + b[1..];
    }
  }

  lemma SameHead(a: seq<Entry>, b: seq<Entry>, m: map<Key, Val>)
    requires Lists(a, m) && Lists(b, m)
    ensures a == [] <==> b == []
    ensures a != [] ==> a[0] == b[0]
  {
    assert a != [] ==> a[0] in a;
    assert b != [] ==> b[0] in b;
    if a != [] && b != [] {
      HeadLeast(a, b, m);
      HeadLeast(b, a, m);
      OrderLaws();
    }
  }

  lemma HeadLeast(a: seq<Entry>, b: seq<Entry>, m: map<Key, Val>)
    requires Lists(a, m) && Lists(b, m) && a != [] && b != []
    ensures !Less(b[0].key, a[0].key) && (a[0].key == b[0].key ==> a[0] == b[0])
  {
    OrderLaws();
    assert b[0] in b && a[0] in a;
    var e := Entry(b[0].key, m[b[0].key]);
    assert e in a;
    var i :| 0 <= i < |a| && a[i] == e;
    assert i > 0 ==> Less(a[0].key, a[i].key);
  }

  lemma TailLists(a: seq<Entry>, m: map<Key, Val>)
    requires Lists(a, m) && a != []
    ensures Lists(a[1..], m - {a[0].key})
  {
    OrderLaws();
    var m' := m - {a[0].key};
    forall e | e in a[1..]
      ensures e.key in m' && m'[e.key] == e.value
    {
      var i :| 1 <= i < |a| && a[i] == e;
      assert Less(a[0].key, a[i].key);
      assert e in a;
    }
    forall k | k in m'
      ensures Entry(k, m'[k]) in a[1..]
    {
      assert Entry(k, m[k]) in a;
      var i :| 0 <= i < |a| && a[i] == Entry(k, m[k]);
      assert a[1..][i - 1] == a[i];
    }
  }

  /** Where entry i of a leaf begins; past the last entry, where the leaf's interval ends. */
  ghost function EntryRank(p: Place, es: seq<Entry>, i: nat): real
    requires i <= |es|
  {
    if i == |es| then p.hi else Rank(es[i].key)
  }

  /** Emitting entry i of a leaf extends the listing from that entry's key to the next one's. */
  lemma Emit(t: Tree, id: PageId, i: nat, out: seq<Entry>, a: real)
    requires Stores(t) && id in t.pages && t.pages[id].Leaf? && NodeOk(t, id)
    requires i < |t.pages[id].entries|
    requires var es := t.pages[id].entries;
      a <= Rank(es[i].key) && Lists(out, Slice(t.view, a, Rank(es[i].key)))
    ensures var es := t.pages[id].entries;
      Lists(out + [es[i]], Slice(t.view, a, EntryRank(t.place[id], es, i + 1)))
  {
    var e := t.pages[id].entries[i];
    var m := Slice(t.view, a, Rank(e.key));
    SliceGrows(t, id, i, a);
    hide Stores, NodeOk, Lists, Slice;
    assert forall k :: k in m ==> Less(k, e.key) by { SliceBelow(t.view, a, e.key); }
    ListsMore(out, m, e);
  }

  lemma SliceBelow(m: map<Key, Val>, a: real, key: Key)
    ensures forall k :: k in Slice(m, a, Rank(key)) ==> Less(k, key)
  {
    OrderLaws();
  }

  /** The slice up to the next entry holds one key more. */
  lemma SliceGrows(t: Tree, id: PageId, i: nat, a: real)
    requires Stores(t) && id in t.pages && t.pages[id].Leaf? && NodeOk(t, id)
    requires i < |t.pages[id].entries| && a <= Rank(t.pages[id].entries[i].key)
    ensures var es := t.pages[id].entries;
      Slice(t.view, a, EntryRank(t.place[id], es, i + 1))
      == Slice(t.view, a, Rank(es[i].key))[es[i].key := es[i].value]
  {
    var es, p := t.pages[id].entries, t.place[id];
    var m, m' := Slice(t.view, a, Rank(es[i].key)), Slice(t.view, a, EntryRank(p, es, i + 1));
    OrderLaws();
    assert es[i] in es;
    assert i + 1 < |es| ==> Less(es[i].key, es[i + 1].key) && Covers(p, es[i + 1].key);
    assert Covers(p, es[i].key);
    forall k | k in m'
      ensures k == es[i].key || k in m
    {
      if Rank(es[i].key) <= Rank(k) {
        NothingBetween(t, id, i, k);
      }
    }
  }

  /** A listing grows by a later entry. */
  lemma ListsMore(out: seq<Entry>, m: map<Key, Val>, e: Entry)
    requires Lists(out, m) && forall k :: k in m ==> Less(k, e.key)
    ensures Lists(out + [e], m[e.key := e.value])
  {
    var out' := out + [e];
    OrderLaws();
    assert out'[|out|] == e;
    forall x | 0 <= x < |out|
      ensures Less(out'[x].key, e.key)
    {
      assert out[x] in out;
    }
    forall k | k in m && k != e.key
      ensures Entry(k, m[k]) in out'
    {
      assert Entry(k, m[k]) in out;
    }
  }

  /** No stored key lies strictly between two neighbouring entries of a leaf, nor before the first or
      after the last inside the leaf's interval. */
  lemma NothingBetween(t: Tree, id: PageId, i: nat, k: Key)
    requires Stores(t) && id in t.pages && t.pages[id].Leaf? && NodeOk(t, id)
    requires i < |t.pages[id].entries| && k in t.view
    requires var es := t.pages[id].entries;
      Rank(es[i].key) <= Rank(k) < EntryRank(t.place[id], es, i + 1)
    ensures k == t.pages[id].entries[i].key
  {
    var es, p := t.pages[id].entries, t.place[id];
    OrderLaws();
    assert Covers(p, es[i].key) && (i + 1 < |es| ==> Covers(p, es[i + 1].key));
    assert Entry(k, t.view[k]) in es;
    var n :| 0 <= n < |es| && es[n] == Entry(k, t.view[k]);
    RankDecides(k, es[i].key);
  }

  /** Entering a leaf costs nothing: no stored key lies between the start of its interval and its first entry. */
  lemma Enter(t: Tree, id: PageId, out: seq<Entry>, a: real)
    requires Stores(t) && id in t.pages && t.pages[id].Leaf? && NodeOk(t, id)
    requires Lists(out, Slice(t.view, a, t.place[id].lo))
    ensures Lists(out, Slice(t.view, a, EntryRank(t.place[id], t.pages[id].entries, 0)))
  {
    var es, p := t.pages[id].entries, t.place[id];
    OrderLaws();
    assert es != [] ==> Covers(p, es[0].key);
    assert forall k :: k in t.view && p.lo <= Rank(k) < EntryRank(p, es, 0) ==> !Covers(p, k);
    assert Slice(t.view, a, p.lo) == Slice(t.view, a, EntryRank(p, es, 0));
  }

  lemma NothingYet(m: map<Key, Val>, a: real, b: real)
    requires b <= a
    ensures Lists([], Slice(m, a, b))
  {
    assert Slice(m, a, b) == map[];
  }

  /** Skipping an entry below the start of the range: nothing has been listed yet. */
  lemma Skip(t: Tree, id: PageId, i: nat, out: seq<Entry>, a: real)
    requires id in t.pages && t.pages[id].Leaf? && id in t.place && NodeOk(t, id) && Stores(t)
    requires i < |t.pages[id].entries|
    requires var es := t.pages[id].entries;
      Rank(es[i].key) < a && Lists(out, Slice(t.view, a, Rank(es[i].key)))
    ensures var es := t.pages[id].entries;
      Lists(out, Slice(t.view, a, EntryRank(t.place[id], es, i + 1)))
  {
    var es, p := t.pages[id].entries, t.place[id];
    OrderLaws();
    forall k | k in t.view && a <= Rank(k) < EntryRank(p, es, i + 1)
      ensures false
    {
      NothingBetween(t, id, i, k);
    }
    assert Slice(t.view, a, EntryRank(p, es, i + 1)) == Slice(t.view, a, Rank(es[i].key));
  }

  /** A listing of everything from start up to some key at or past end, with nothing past end in it,
      lists the range. */
  lemma Finish(m: map<Key, Val>, out: seq<Entry>, start: Key, end: Key, b: real)
    requires Lists(out, Slice(m, Rank(start), b))
    requires b == 1.0 || Rank(end) <= b
    requires forall e :: e in out ==> Less(e.key, end)
    ensures Lists(out, Range(m, start, end))
  {
    OrderLaws();
    var s, r := Slice(m, Rank(start), b), Range(m, start, end);
    forall k | k in s
      ensures k in r
    {
      assert Entry(k, s[k]) in out;
    }
    assert s == r;
  }
}
