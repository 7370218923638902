/** The memtable of memtable.go: a skip list of entries and tombstones, as linked nodes. */
module MemTables {
  import opened Keys
  import opened Collections
  import opened SkipOrder

  const MAX_LEVEL := 16

  class SkipNode {
    const key: Key
    var value: Val
    var deleted: bool
    var forward: seq<SkipNode?>

    constructor (key: Key, value: Val, deleted: bool, height: nat)
      ensures this.key == key && this.value == value && this.deleted == deleted
      ensures forward == seq(height, _ => null)
    {
      this.key, this.value, this.deleted := key, value, deleted;
      forward := seq(height, _ => null);
    }
  }

  datatype MemEntry = MemEntry(key: Key, value: Val, deleted: bool)

  /** What the memtable says about a key it knows: its value, or that it was deleted. */
  function Meaning(e: MemEntry): Option<Val> {
    if e.deleted then None else Some(e.value)
  }

  ghost predicate SortedEntries(es: seq<MemEntry>) {
    forall i, j :: 0 <= i < j < |es| ==> Less(es[i].key, es[j].key)
  }

  /** es lists the known keys in strictly ascending order, each once. */
  ghost predicate ListsMem(es: seq<MemEntry>, m: map<Key, Option<Val>>) {
    && SortedEntries(es)
    && (forall e :: e in es ==> e.key in m && m[e.key] == Meaning(e))
    && (forall k :: k in m ==> exists e :: e in es && e.key == k)
  }

  /** The part of m in [start, end). */
  ghost function RangeMem(m: map<Key, Option<Val>>, start: Key, end: Key): map<Key, Option<Val>> {
    map k | k in m && !Less(k, start) && Less(k, end) :: m[k]
  }

  lemma CountKeys(keys: seq<Key>, ks: set<Key>)
    requires forall i, j :: 0 <= i < j < |keys| ==> Less(keys[i], keys[j])
    requires forall k :: k in keys <==> k in ks
    ensures |keys| == |ks|
  {
    OrderLaws();
    CountDistinct(keys);
    assert SetOf(keys) == ks;
  }

  class MemTable {
    var head: SkipNode
    var size: nat
    var level: nat

    /** The head and the nodes in key order, and their heights. */
    ghost var chain: seq<SkipNode>
    ghost var heights: seq<nat>
    /** What is known about each key. */
    ghost var view: map<Key, Option<Val>>

    ghost predicate Valid()
      reads this, chain
    {
      && Shaped()
      && Ordered()
      && (forall p, i :: 0 <= p < |chain| && 0 <= i < heights[p] ==> Linked(p, i))
      && Means(chain, view)
    }

    ghost predicate Shaped()
      reads this`head, this`size, this`level, this`chain, this`heights, chain`forward
    {
      && |chain| >= 1 && chain[0] == head
      && |heights| == |chain|
      && (forall p, q :: 0 <= p < q < |chain| ==> chain[p] != chain[q])
      && (forall p :: 0 <= p < |chain| ==> |chain[p].forward| == heights[p])
      && heights[0] == MAX_LEVEL
      && 1 <= level <= MAX_LEVEL
      && (forall p :: 1 <= p < |chain| ==> 1 <= heights[p] <= level)
      && size == |chain| - 1
    }

    ghost predicate Ordered()
      reads this`chain
    {
      forall p, q :: 1 <= p < q < |chain| ==> Less(chain[p].key, chain[q].key)
    }

    /** At level i, node p points to the next node that reaches that level. */
    ghost predicate Linked(p: nat, i: nat)
      requires |heights| == |chain| && p < |chain|
      reads this`chain, this`heights, chain`forward
    {
      && i < |chain[p].forward|
      && chain[p].forward[i] == Target(chain, heights, p, i)
    }

    static ghost predicate Means(chain: seq<SkipNode>, view: map<Key, Option<Val>>)
      reads chain`value, chain`deleted
    {
      && (forall p :: 1 <= p < |chain| ==>
           chain[p].key in view && view[chain[p].key] == if chain[p].deleted then None else Some(chain[p].value))
      && (forall k :: k in view ==> exists p :: 1 <= p < |chain| && chain[p].key == k)
    }

    static ghost function Target(chain: seq<SkipNode>, hs: seq<nat>, p: nat, i: nat): SkipNode?
      requires |hs| == |chain| && p < |chain|
    {
      At(chain, Next(hs, p, i))
    }

    static ghost function At(chain: seq<SkipNode>, q: nat): SkipNode? {
      if q < |chain| then chain[q] else null
    }

    /** The nodes are counted by their keys. */
    lemma SizeIs()
      requires Valid()
      ensures size == |view|
    {
      hide Linked;
      var n, nodes := size, chain;
      var keys := seq(n, i requires 0 <= i < n => nodes[i + 1].key);
      forall i, j | 0 <= i < j < n
        ensures Less(keys[i], keys[j])
      {
        assert Less(nodes[i + 1].key, nodes[j + 1].key);
      }
      forall k | k in view
        ensures k in keys
      {
        var p :| 1 <= p < |chain| && chain[p].key == k;
        assert keys[p - 1] == k;
      }
      forall k | k in keys
        ensures k in view
      {
        var i :| 0 <= i < n && keys[i] == k;
        assert nodes[i + 1].key in view;
      }
      CountKeys(keys, view.Keys);
    }

    /** Where key belongs: the first node whose key is not less than it. */
    ghost predicate Position(key: Key, pos: nat)
      reads this`chain
    {
      && 1 <= pos <= |chain|
      && (forall p :: 1 <= p < pos ==> Less(chain[p].key, key))
      && (forall p :: pos <= p < |chain| ==> !Less(chain[p].key, key))
    }

    constructor ()
      ensures Valid() && fresh(chain) && view == map[] && |head.forward| == 16
    {
      var h := new SkipNode([], [], false, MAX_LEVEL);
      head := h;
      size, level := 0, 1;
      chain, heights, view := [h], [MAX_LEVEL], map[];
    }

    /** Walks from the top level down. pos is where key belongs, and at each level below the current one
        update holds the last node before pos that reaches the level; u gives their positions. */
    method FindUpdate(key: Key) returns (update: seq<SkipNode?>, next: SkipNode?, ghost pos: nat, ghost u: seq<nat>)
      requires Valid()
      ensures Position(key, pos)
      ensures |update| == |u| == MAX_LEVEL && 1 <= level <= MAX_LEVEL
      ensures forall j :: 0 <= j < level ==> Before(update[j], u[j], j, pos)
      ensures next == if pos < |chain| then chain[pos] else null
    {
      hide Means;
      pos := FindPosition(key);
      hide Ordered;
      update, u := seq(MAX_LEVEL, _ => null), seq(MAX_LEVEL, _ => 0);
      var curr := head;
      ghost var c: nat := 0;
      var i := level;
      while i > 0
        invariant 0 <= i <= level && |update| == |u| == MAX_LEVEL
        invariant c < pos <= |chain| == |heights| && curr == chain[c] && heights[c] >= i
        invariant i < level ==> Next(heights, c, i) >= pos
        invariant forall j :: i <= j < level ==> Before(update[j], u[j], j, pos)
      {
        i := i - 1;
        assert Linked(c, i);
        while curr.forward[i] != null && Less(curr.forward[i].key, key)
          invariant c < pos <= |chain| == |heights| && curr == chain[c] && heights[c] > i && Linked(c, i)
          decreases |chain| - c
        {
          curr, c := curr.forward[i], Next(heights, c, i);
          assert Linked(c, i);
        }
        assert Next(heights, c, i) >= pos;
        update, u := update[i := curr], u[i := c];
      }
      assert heights[c] > 0 && Linked(c, 0);
      next := curr.forward[0];
    }

    ghost method FindPosition(key: Key) returns (pos: nat)
      requires Ordered() && |chain| >= 1
      ensures Position(key, pos)
    {
      OrderLaws();
      pos := 1;
      while pos < |chain| && Less(chain[pos].key, key)
        invariant 1 <= pos <= |chain|
        invariant forall p :: 1 <= p < pos ==> Less(chain[p].key, key)
      {
        pos := pos + 1;
      }
    }

    /** Inserts or overwrites; a tombstone becomes a live entry again. h is the level the coin flips gave. */
    method Put(key: Key, value: Val, h: nat)
      requires Valid() && 1 <= h <= MAX_LEVEL
      modifies this, chain
      ensures Valid() && Extends(old(chain))
      ensures view == old(view)[key := Some(value)]
    {
      hide Shaped, Ordered, Linked, Means;
      var update, next, pos, u := FindUpdate(key);
      if next != null && next.key == key {
        Overwrite(next, value, false, pos);
        return;
      }
      if h > level {
        update, u := FillUpdate(update, h, pos, u);
        RaiseLevel(h);
      }
      var node := new SkipNode(key, value, false, h);
      Splice(node, update, h, pos, u);
    }

    /** On levels not in use yet the head comes before every position. */
    method FillUpdate(update: seq<SkipNode?>, h: nat, ghost pos: nat, ghost u: seq<nat>)
      returns (update': seq<SkipNode?>, ghost u': seq<nat>)
      requires Shaped() && level <= h <= MAX_LEVEL && |update| == |u| == MAX_LEVEL && 1 <= pos <= |chain|
      requires forall j :: 0 <= j < level ==> Before(update[j], u[j], j, pos)
      ensures |update'| == |u'| == MAX_LEVEL
      ensures forall j :: 0 <= j < h ==> Before(update'[j], u'[j], j, pos)
    {
      update', u' := update, u;
      for i := level to h
        invariant |update'| == |u'| == MAX_LEVEL
        invariant forall j :: 0 <= j < i ==> Before(update'[j], u'[j], j, pos)
      {
        HeadReachesAll(i, pos);
        update', u' := update'[i := head], u'[i := 0];
      }
    }

    lemma HeadReachesAll(i: nat, pos: nat)
      requires Shaped() && level <= i < MAX_LEVEL && 1 <= pos <= |chain|
      ensures Before(head, 0, i, pos)
    {
      NextIs(heights, 1, i, |heights|);
    }

    method RaiseLevel(h: nat)
      requires Valid() && level <= h <= MAX_LEVEL
      modifies this`level
      ensures Valid() && level == h
    {
      level := h;
      assert Shaped() && Ordered() && Means(chain, view);
      forall p, i | 0 <= p < |chain| && 0 <= i < heights[p]
        ensures Linked(p, i)
      {
        assert old(Linked(p, i));
      }
    }

    /** Leaves a tombstone: in place if the key is known, in a new node of height 1 if it is not. */
    method Delete(key: Key)
      requires Valid()
      modifies this, chain
      ensures Valid() && Extends(old(chain))
      ensures view == old(view)[key := None]
    {
      hide Shaped, Ordered, Linked, Means;
      var update, next, pos, u := FindUpdate(key);
      if next == null || next.key != key {
        var node := new SkipNode(key, [], true, 1);
        Splice(node, update, 1, pos, u);
        return;
      }
      Overwrite(next, [], true, pos);
    }

    /** The node at the position of key, if it is for key. */
    method Find(key: Key) returns (n: SkipNode?)
      requires Valid()
      ensures n != null <==> key in view
      ensures n != null ==> n in chain && view[key] == if n.deleted then None else Some(n.value)
    {
      var update, next, pos, u := FindUpdate(key);
      hide Shaped, Linked;
      OrderLaws();
      n := if next == null || next.key != key then null else next;
      assert forall p :: 1 <= p < |chain| && p != pos ==> chain[p].key != key;
    }

    method Get(key: Key) returns (r: Option<Val>)
      requires Valid()
      ensures r == if key in view then view[key] else None
    {
      var n := Find(key);
      if n == null || n.deleted {
        return None;
      }
      return Some(n.value);
    }

    method Has(key: Key) returns (r: bool)
      requires Valid()
      ensures r <==> key in view
    {
      var n := Find(key);
      return n != null;
    }

    method IsDeleted(key: Key) returns (r: bool)
      requires Valid()
      ensures r <==> key in view && view[key].None?
    {
      var n := Find(key);
      return n != null && n.deleted;
    }

    /** Every entry, tombstones included, in key order. */
    method Scan() returns (out: seq<MemEntry>)
      requires Valid()
      ensures ListsMem(out, view)
    {
      out := [];
      ghost var p: nat := 1;
      NextNode(0);
      assert |chain| >= 1;
      hide Valid, Copies;
      StartCopy(1);
      var curr := head.forward[0];
      while curr != null
        invariant 1 <= p <= |chain| && curr == At(chain, p) && Copies(out, 1, p)
        decreases |chain| - p
      {
        NextNode(p);
        CopyOne(out, 1, p);
        out := out + [MemEntry(curr.key, curr.value, curr.deleted)];
        curr, p := curr.forward[0], p + 1;
      }
      CopiesList(out);
    }

    /** The entries with keys in [start, end). */
    method RangeScan(start: Key, end: Key) returns (out: seq<MemEntry>)
      requires Valid()
      ensures ListsMem(out, RangeMem(view, start, end))
    {
      var update, curr, p, u := FindUpdate(start);
      out := CopyFrom(curr, p, start, end);
    }

    /** The loop of RangeScan: from the first node at or after start, along the bottom level, up to end. */
    method CopyFrom(node: SkipNode?, ghost from: nat, ghost start: Key, end: Key) returns (out: seq<MemEntry>)
      requires Valid() && Position(start, from) && node == At(chain, from)
      ensures ListsMem(out, RangeMem(view, start, end))
    {
      hide Valid, Copies, Below, Position, ListsMem, RangeMem;
      out := [];
      var curr := node;
      ghost var p := from;
      StartRange(start, from, end);
      while curr != null
        invariant from <= p <= |chain| && curr == At(chain, p) && Copies(out, from, p) && Below(from, p, end)
        decreases |chain| - p
      {
        if !Less(curr.key, end) {
          break;
        }
        NextNode(p);
        CopyOne(out, from, p);
        BelowMore(from, p, end);
        out := out + [MemEntry(curr.key, curr.value, curr.deleted)];
        curr, p := curr.forward[0], p + 1;
      }
      CopiesRange(out, from, p, start, end);
    }

    /** The keys at positions from..to come before end. */
    ghost predicate Below(from: nat, to: nat, end: Key)
      requires to <= |chain|
      reads this`chain
    {
      forall q :: from <= q < to ==> Less(chain[q].key, end)
    }

    lemma BelowMore(from: nat, p: nat, end: Key)
      requires p < |chain| && Below(from, p, end) && Less(chain[p].key, end)
      ensures Below(from, p + 1, end)
    {
    }

    lemma StartRange(start: Key, from: nat, end: Key)
      requires Valid() && Position(start, from)
      ensures from <= |chain| && Copies([], from, from) && Below(from, from, end)
    {
    }

    method Clear()
      modifies this
      ensures Valid() && fresh(chain) && view == map[] && size == 0
    {
      var h := new SkipNode([], [], false, MAX_LEVEL);
      head := h;
      size, level := 0, 1;
      chain, heights, view := [h], [MAX_LEVEL], map[];
    }

    /** On the bottom level each node points to the one right after it. */
    lemma NextNode(p: nat)
      requires Valid() && p < |chain|
      ensures |chain[p].forward| > 0 && chain[p].forward[0] == At(chain, p + 1)
      ensures chain[0] == head
    {
      assert Linked(p, 0);
    }

    lemma PastEnd(p: nat, end: Key)
      requires Ordered() && 1 <= p && (p < |chain| ==> !Less(chain[p].key, end))
      ensures forall q :: p <= q < |chain| ==> !Less(chain[q].key, end)
    {
      OrderLaws();
      assert forall q :: p < q < |chain| ==> Less(chain[p].key, chain[q].key);
    }

    /** out copies the nodes at positions from..to. */
    ghost predicate Copies(out: seq<MemEntry>, from: nat, to: nat)
      reads this`chain, chain`value, chain`deleted
    {
      && from <= to <= |chain| && |out| == to - from
      && (forall q :: from <= q < to ==>
           out[q - from] == MemEntry(chain[q].key, chain[q].value, chain[q].deleted))
    }

    lemma StartCopy(from: nat)
      requires from <= |chain|
      ensures Copies([], from, from)
    {
    }

    lemma CopyOne(out: seq<MemEntry>, from: nat, p: nat)
      requires p < |chain| && Copies(out, from, p)
      ensures Copies(out + [MemEntry(chain[p].key, chain[p].value, chain[p].deleted)], from, p + 1)
    {
    }

    lemma CopiesList(out: seq<MemEntry>)
      requires Valid() && Copies(out, 1, |chain|)
      ensures ListsMem(out, view)
    {
      hide Shaped, Linked;
      assert forall i :: 0 <= i < |out| ==> out[i].key == chain[i + 1].key;
      forall k | k in view
        ensures exists e :: e in out && e.key == k
      {
        var p :| 1 <= p < |chain| && chain[p].key == k;
        assert out[p - 1] in out;
      }
    }

    lemma CopiesRange(out: seq<MemEntry>, from: nat, to: nat, start: Key, end: Key)
      requires Valid() && Position(start, from) && Copies(out, from, to)
      requires to <= |chain| && Below(from, to, end) && (to < |chain| ==> !Less(chain[to].key, end))
      ensures ListsMem(out, RangeMem(view, start, end))
    {
      CopiesSorted(out, from, to);
      PastEnd(to, end);
      hide Valid, Copies, Below, Position;
      var m := RangeMem(view, start, end);
      forall e | e in out
        ensures e.key in m && m[e.key] == Meaning(e)
      {
        var i :| 0 <= i < |out| && out[i] == e;
        CopiedInRange(out, from, to, start, end, i);
      }
      forall k | k in m
        ensures exists e :: e in out && e.key == k
      {
        var i := RangeCopied(out, from, to, start, end, k);
        assert out[i] in out;
      }
    }

    lemma CopiesSorted(out: seq<MemEntry>, from: nat, to: nat)
      requires Ordered() && 1 <= from && Copies(out, from, to)
      ensures SortedEntries(out)
    {
      assert forall i :: 0 <= i < |out| ==> out[i].key == chain[i + from].key;
    }

    lemma CopiedInRange(out: seq<MemEntry>, from: nat, to: nat, start: Key, end: Key, i: nat)
      requires Valid() && Position(start, from) && Copies(out, from, to) && i < |out|
      requires to <= |chain| && Below(from, to, end)
      ensures out[i].key in view && view[out[i].key] == Meaning(out[i])
      ensures !Less(out[i].key, start) && Less(out[i].key, end)
    {
      hide Shaped, Ordered, Linked;
      assert out[i].key == chain[i + from].key;
    }

    lemma RangeCopied(out: seq<MemEntry>, from: nat, to: nat, start: Key, end: Key, k: Key) returns (i: nat)
      requires Valid() && Position(start, from) && Copies(out, from, to)
      requires to <= |chain| && forall q :: to <= q < |chain| ==> !Less(chain[q].key, end)
      requires k in view && !Less(k, start) && Less(k, end)
      ensures i < |out| && out[i].key == k
    {
      hide Shaped, Ordered, Linked;
      var p :| 1 <= p < |chain| && chain[p].key == k;
      i := p - from;
    }

    /** Nodes are only ever added. */
    twostate predicate Extends(was: seq<SkipNode>)
      reads this
    {
      forall n :: n in chain ==> n in was || fresh(n)
    }

    /** n, at position u, is the last node before pos that reaches level j. */
    ghost predicate Before(n: SkipNode?, u: nat, j: nat, pos: nat)
      reads this`chain, this`heights
    {
      && |heights| == |chain|
      && u < pos <= |chain| && n == chain[u]
      && heights[u] > j && Next(heights, u, j) >= pos
    }

    /** The node at pos gets a new meaning. */
    method Overwrite(node: SkipNode, value: Val, deleted: bool, ghost pos: nat)
      requires Valid() && 1 <= pos < |chain| && node == chain[pos]
      modifies node`value, node`deleted, this`view
      ensures Valid() && view == old(view)[node.key := if deleted then None else Some(value)]
    {
      hide Shaped, Linked;
      KeysDiffer(pos);
      node.value := value;
      node.deleted := deleted;
      view := view[node.key := if deleted then None else Some(value)];
      assert Means(chain, view);
    }

    lemma KeysDiffer(pos: nat)
      requires Ordered() && 1 <= pos < |chain|
      ensures forall p :: 1 <= p < |chain| && p != pos ==> chain[p].key != chain[pos].key
    {
      OrderLaws();
    }

    /** Links node, of height h, at position pos: at each of its levels it takes over the pointer of the
        last node before it. */
    method Splice(node: SkipNode, update: seq<SkipNode?>, h: nat, ghost pos: nat, ghost u: seq<nat>)
      requires Valid() && 1 <= h <= level && |update| == |u| == MAX_LEVEL
      requires Position(node.key, pos) && (pos < |chain| ==> chain[pos].key != node.key)
      requires node !in chain && |node.forward| == h
      requires forall j :: 0 <= j < h ==> Before(update[j], u[j], j, pos)
      modifies this`size, this`chain, this`heights, this`view, chain, node
      ensures Valid() && chain == Insert(old(chain), pos, node)
      ensures view == old(view)[node.key := if node.deleted then None else Some(node.value)]
      ensures node.deleted == old(node.deleted) && node.value == old(node.value)
    {
      hide Linked, Ordered, Means, Target, At, NextFrom, Insert;
      hide Before, Joined;
      Link(node, update, h, pos, u);
      size := size + 1;
      Settle(node, h, pos, u);
    }

    /** The pointers of node and of the nodes before it are as they must be once node, of height h, stands at pos. */
    static ghost predicate Joined(oc: seq<SkipNode>, oh: seq<nat>, node: SkipNode, h: nat, pos: nat, u: seq<nat>)
      reads oc`forward, node`forward
    {
      && |oc| == |oh| && 1 <= pos <= |oc| && h <= |u|
      && (forall j :: 0 <= j < h ==> u[j] < pos && oh[u[j]] > j && Next(oh, u[j], j) >= pos)
      && |node.forward| == h
      && (forall p :: 0 <= p < |oc| ==> |oc[p].forward| == oh[p])
      && (forall j :: 0 <= j < h ==> node.forward[j] == At(oc, NextFrom(oh, pos, j)))
      && (forall p, j :: 0 <= p < |oc| && 0 <= j < oh[p] ==>
           oc[p].forward[j] == if j < h && u[j] == p then node else Target(oc, oh, p, j))
    }

    method Link(node: SkipNode, update: seq<SkipNode?>, h: nat, ghost pos: nat, ghost u: seq<nat>)
      requires |chain| == |heights| && 1 <= pos <= |chain| && h <= |update| == |u|
      requires forall p, i :: 0 <= p < |chain| && 0 <= i < heights[p] ==> Linked(p, i)
      requires forall p, q :: 0 <= p < q < |chain| ==> chain[p] != chain[q]
      requires forall p :: 0 <= p < |chain| ==> |chain[p].forward| == heights[p]
      requires node !in chain && |node.forward| == h
      requires forall j :: 0 <= j < h ==> Before(update[j], u[j], j, pos)
      modifies node`forward, chain`forward
      ensures Joined(chain, heights, node, h, pos, u)
    {
      ghost var oc, oh := chain, heights;
      forall p, j | 0 <= p < |oc| && 0 <= j < oh[p]
        ensures oc[p].forward[j] == Target(oc, oh, p, j)
      {
        assert Linked(p, j);
      }
      forall j | 0 <= j < h
        ensures u[j] < pos && update[j] == oc[u[j]] && j < oh[u[j]] && Next(oh, u[j], j) >= pos
        ensures Target(oc, oh, u[j], j) == At(oc, NextFrom(oh, pos, j))
      {
        assert Before(update[j], u[j], j, pos);
        CrossTarget(oc, oh, pos, j, u[j]);
      }
      hide Target, At, NextFrom, Linked, Before, Joined;
      for i := 0 to h
        invariant Partly(oc, oh, node, h, i, pos, u)
      {
        LinkLevel(node, update[i], i, oc, oh, h, pos, u);
      }
      FullyJoined(oc, oh, node, h, pos, u);
    }

    /** The levels below i are done. */
    static ghost predicate Partly(oc: seq<SkipNode>, oh: seq<nat>, node: SkipNode, h: nat, i: nat, pos: nat,
                                  u: seq<nat>)
      requires |oc| == |oh| && pos <= |oc| && i <= h <= |u|
      reads oc`forward, node`forward
    {
      && |node.forward| == h
      && (forall p :: 0 <= p < |oc| ==> |oc[p].forward| == oh[p])
      && (forall j :: 0 <= j < i ==> node.forward[j] == At(oc, NextFrom(oh, pos, j)))
      && (forall p, j :: 0 <= p < |oc| && 0 <= j < oh[p] ==>
           oc[p].forward[j] == if j < i && u[j] == p then node else Target(oc, oh, p, j))
    }

    static lemma FullyJoined(oc: seq<SkipNode>, oh: seq<nat>, node: SkipNode, h: nat, pos: nat, u: seq<nat>)
      requires |oc| == |oh| && 1 <= pos <= |oc| && h <= |u| && Partly(oc, oh, node, h, h, pos, u)
      requires forall j :: 0 <= j < h ==> u[j] < pos && oh[u[j]] > j && Next(oh, u[j], j) >= pos
      ensures Joined(oc, oh, node, h, pos, u)
    {
    }

    method LinkLevel(node: SkipNode, prev: SkipNode, i: nat,
                     ghost oc: seq<SkipNode>, ghost oh: seq<nat>, ghost h: nat, ghost pos: nat, ghost u: seq<nat>)
      requires |oc| == |oh| && pos <= |oc| && i < h <= |u| && node !in oc
      requires forall p, q :: 0 <= p < q < |oc| ==> oc[p] != oc[q]
      requires u[i] < |oc| && prev == oc[u[i]] && i < oh[u[i]]
      requires Target(oc, oh, u[i], i) == At(oc, NextFrom(oh, pos, i))
      requires Partly(oc, oh, node, h, i, pos, u)
      modifies node`forward, prev`forward
      ensures Partly(oc, oh, node, h, i + 1, pos, u)
    {
      hide Target, At, NextFrom;
      node.forward := node.forward[i := prev.forward[i]];
      prev.forward := prev.forward[i := node];
    }

    lemma InsertMeans(oc: seq<SkipNode>, pos: nat, node: SkipNode, ov: map<Key, Option<Val>>)
      requires 1 <= pos <= |oc| && chain == Insert(oc, pos, node) && Ordered()
      requires Means(oc, ov) && view == ov[node.key := if node.deleted then None else Some(node.value)]
      ensures Means(chain, view)
    {
      InsertAt(oc, pos, node);
      KeysDiffer(pos);
      hide Ordered, Insert;
      forall k | k in view
        ensures exists p :: 1 <= p < |chain| && chain[p].key == k
      {
        if k != node.key {
          var p :| 1 <= p < |oc| && oc[p].key == k;
          assert chain[if p < pos then p else p + 1].key == k;
        } else {
          assert chain[pos].key == k;
        }
      }
      forall p | 1 <= p < |chain|
        ensures chain[p].key in view
        ensures view[chain[p].key] == if chain[p].deleted then None else Some(chain[p].value)
      {
        assert p != pos ==> chain[p] == oc[if p < pos then p else p - 1];
      }
    }

    /** The pointers are in place: node joins the chain. */
    ghost method Settle(node: SkipNode, h: nat, pos: nat, u: seq<nat>)
      requires |heights| == |chain| && 1 <= pos <= |chain| == size && chain[0] == head && heights[0] == MAX_LEVEL
      requires 1 <= h <= level <= MAX_LEVEL && node !in chain
      requires forall p, q :: 0 <= p < q < |chain| ==> chain[p] != chain[q]
      requires forall p :: 1 <= p < |chain| ==> 1 <= heights[p] <= level
      requires Ordered() && Means(chain, view) && Position(node.key, pos)
      requires pos < |chain| ==> chain[pos].key != node.key
      requires Joined(chain, heights, node, h, pos, u)
      modifies this`chain, this`heights, this`view
      ensures Valid() && chain == Insert(old(chain), pos, node)
      ensures view == old(view)[node.key := if node.deleted then None else Some(node.value)]
    {
      hide Insert, NextFrom, Shaped, Target, At, Joined;
      var oc, oh, ov := chain, heights, view;
      assert Means(oc, ov);
      hide Means;
      chain, heights := Insert(oc, pos, node), Insert(oh, pos, h);
      view := view[node.key := if node.deleted then None else Some(node.value)];
      InsertShaped(oc, oh, pos, node, h, u);
      InsertOrdered(oc, pos, node);
      InsertLinked(oc, oh, pos, node, h, u);
      hide Linked, Ordered;
      InsertMeans(oc, pos, node, ov);
    }

    lemma InsertShaped(oc: seq<SkipNode>, oh: seq<nat>, pos: nat, node: SkipNode, h: nat, u: seq<nat>)
      requires Joined(oc, oh, node, h, pos, u) && |oc| == size && oc[0] == head && oh[0] == MAX_LEVEL
      requires chain == Insert(oc, pos, node) && heights == Insert(oh, pos, h)
      requires 1 <= h <= level <= MAX_LEVEL && node !in oc
      requires forall p, q :: 0 <= p < q < |oc| ==> oc[p] != oc[q]
      requires forall p :: 1 <= p < |oc| ==> 1 <= oh[p] <= level
      ensures Shaped()
    {
      InsertAt(oc, pos, node);
      InsertAt(oh, pos, h);
      hide Insert;
      forall p, q | 0 <= p < q < |chain|
        ensures chain[p] != chain[q]
      {
        var p', q' := if p < pos then p else p - 1, if q < pos then q else q - 1;
        assert p != pos ==> chain[p] == oc[p'] && oc[p'] in oc;
        assert q != pos ==> chain[q] == oc[q'] && oc[q'] in oc;
      }
    }

    lemma InsertLinked(oc: seq<SkipNode>, oh: seq<nat>, pos: nat, node: SkipNode, h: nat, u: seq<nat>)
      requires Joined(oc, oh, node, h, pos, u)
      requires chain == Insert(oc, pos, node) && heights == Insert(oh, pos, h)
      ensures |heights| == |chain|
      ensures forall p, i :: 0 <= p < |chain| && 0 <= i < heights[p] ==> Linked(p, i)
    {
      InsertAt(oc, pos, node);
      InsertAt(oh, pos, h);
      hide Insert, NextFrom, At, Target, Joined, Linked;
      forall p, i | 0 <= p < |chain| && 0 <= i < heights[p]
        ensures Linked(p, i)
      {
        if p < pos {
          InsertLinkedBefore(oc, oh, pos, node, h, u, p, i);
        } else {
          InsertLinkedFrom(oc, oh, pos, node, h, u, p, i);
        }
      }
    }

    lemma InsertLinkedBefore(oc: seq<SkipNode>, oh: seq<nat>, pos: nat, node: SkipNode, h: nat, u: seq<nat>, p: nat,
                             i: nat)
      requires Joined(oc, oh, node, h, pos, u)
      requires chain == Insert(oc, pos, node) && heights == Insert(oh, pos, h) && p < pos && i < heights[p]
      ensures |heights| == |chain| && Linked(p, i)
    {
      assert chain[p] == oc[p] && heights[p] == oh[p];
      LinkBefore(oc, oh, pos, node, h, if i < h then u[i] else 0, p, i);
    }

    lemma InsertLinkedFrom(oc: seq<SkipNode>, oh: seq<nat>, pos: nat, node: SkipNode, h: nat, u: seq<nat>, p: nat,
                           i: nat)
      requires Joined(oc, oh, node, h, pos, u)
      requires chain == Insert(oc, pos, node) && heights == Insert(oh, pos, h)
      requires pos <= p < |heights| && i < heights[p]
      ensures |heights| == |chain| && Linked(p, i)
    {
      LinkFrom(oc, oh, pos, node, h, p, i);
      if p == pos {
        assert chain[p] == node && heights[p] == h;
      } else {
        assert chain[p] == oc[p - 1] && heights[p] == oh[p - 1];
        assert oc[p - 1].forward[i] == Target(oc, oh, p - 1, i);
      }
    }
  }

  /** Pointer i of the node at position p of the longer chain is what it should be: before pos. */
  lemma LinkBefore(oc: seq<SkipNode>, oh: seq<nat>, pos: nat, node: SkipNode, h: nat, u: nat, p: nat, i: nat)
    requires |oc| == |oh| && p < pos <= |oc| && i < oh[p]
    requires i < h ==> u < pos && oh[u] > i && Next(oh, u, i) >= pos
    ensures p < |Insert(oh, pos, h)| == |Insert(oc, pos, node)|
    ensures MemTable.Target(Insert(oc, pos, node), Insert(oh, pos, h), p, i)
         == if i < h && u == p then node else MemTable.Target(oc, oh, p, i)
  {
    InsertAt(oc, pos, node);
    NextInsert(oh, pos, h, p, i);
    if i < h {
      LastBefore(oh, pos, i, u, p);
    }
    hide Insert, NextFrom;
    var q := Next(oh, p, i);
    assert q >= pos && i >= h ==> MemTable.At(Insert(oc, pos, node), q + 1) == MemTable.At(oc, q);
  }

  /** And from pos on. */
  lemma LinkFrom(oc: seq<SkipNode>, oh: seq<nat>, pos: nat, node: SkipNode, h: nat, p: nat, i: nat)
    requires |oc| == |oh| && pos <= p <= |oc|
    ensures p < |Insert(oh, pos, h)| == |Insert(oc, pos, node)|
    ensures MemTable.Target(Insert(oc, pos, node), Insert(oh, pos, h), p, i) == MemTable.At(oc, NextFrom(oh, p, i))
  {
    InsertAt(oc, pos, node);
    NextShift(oh, pos, h, p, i);
    hide Insert, NextFrom;
    var q := NextFrom(oh, p, i);
    assert MemTable.At(Insert(oc, pos, node), q + 1) == MemTable.At(oc, q);
  }

  /** The pointer that crosses pos leads to the first node from pos on that reaches the level. */
  lemma CrossTarget(chain: seq<SkipNode>, hs: seq<nat>, pos: nat, i: nat, u: nat)
    requires |chain| == |hs| && u < pos <= |hs| && Next(hs, u, i) >= pos
    ensures MemTable.Target(chain, hs, u, i) == MemTable.At(chain, NextFrom(hs, pos, i))
  {
    NextIs(hs, pos, i, Next(hs, u, i));
  }

  /** At each level there is just one node before pos whose pointer reaches pos or beyond. */
  lemma LastBefore(hs: seq<nat>, pos: nat, i: nat, u: nat, p: nat)
    requires u < pos <= |hs| && p < pos && hs[u] > i && hs[p] > i && Next(hs, u, i) >= pos
    ensures Next(hs, p, i) >= pos <==> p == u
  {
  }

  /** A node put where it belongs keeps the nodes in key order. */
  lemma InsertOrdered(oc: seq<SkipNode>, pos: nat, node: SkipNode)
    requires 1 <= pos <= |oc|
    requires forall p, q :: 1 <= p < q < |oc| ==> Less(oc[p].key, oc[q].key)
    requires forall p :: 1 <= p < pos ==> Less(oc[p].key, node.key)
    requires forall p :: pos <= p < |oc| ==> !Less(oc[p].key, node.key)
    requires pos < |oc| ==> oc[pos].key != node.key
    ensures var c := Insert(oc, pos, node); forall p, q :: 1 <= p < q < |c| ==> Less(c[p].key, c[q].key)
  {
    OrderLaws();
    InsertAt(oc, pos, node);
    assert forall p :: pos < p < |oc| ==> Less(oc[pos].key, oc[p].key);
  }

  lemma InsertAt<T>(s: seq<T>, pos: nat, x: T)
    requires pos <= |s|
    ensures var s' := Insert(s, pos, x);
      && |s'| == |s| + 1 && s'[pos] == x
      && (forall i :: 0 <= i < pos ==> s'[i] == s[i])
      && (forall i :: pos < i < |s'| ==> s'[i] == s[i - 1])
  {
  }
}
