/** A flush as a run on the tree: the operations that the memtable holds, in key order. */
module FlushRuns {
  import opened Keys
  import opened TreeModel
  import opened NodeSizes
  import opened TreeSteps
  import opened SplitLoss
  import opened MemTables
  import opened TreeRuns

  type Mem = map<Key, Option<Val>>

  function OpFor(k: Key, v: Option<Val>): Op {
    match v
    case Some(x) => OpPut(k, x)
    case None => OpDelete(k)
  }

  /** What the loop of flushMemTable does for each entry. */
  function Changes(es: seq<MemEntry>): (ops: seq<Op>)
    ensures |ops| == |es|
  {
    seq(|es|, i requires 0 <= i < |es| => OpFor(es[i].key, Meaning(es[i])))
  }

  lemma {:induction false} HasLeast(ks: set<Key>)
    requires ks != {}
    ensures exists k :: IsLeast(ks, k)
    decreases |ks|
  {
    OrderLaws();
    var k :| k in ks;
    var rest := ks - {k};
    if rest == {} {
      assert ks == {k};
      assert IsLeast(ks, k);
    } else {
      HasLeast(rest);
      var l :| IsLeast(rest, l);
      assert forall j :: j in ks ==> j == k || j in rest;
      assert IsLeast(ks, if Less(k, l) then k else l);
    }
  }

  ghost predicate IsLeast(ks: set<Key>, k: Key) {
    k in ks && forall j :: j in ks ==> !Less(j, k)
  }

  ghost function LeastKey(ks: set<Key>): (k: Key)
    requires ks != {}
    ensures IsLeast(ks, k)
  {
    HasLeast(ks);
    var k :| IsLeast(ks, k);
    k
  }

  /** The operations that bring a tree up to date with the memtable, least key first. */
  ghost function OpsOf(mem: Mem): (ops: seq<Op>)
    ensures forall i :: 0 <= i < |ops| ==> ops[i].key in mem && ops[i] == OpFor(ops[i].key, mem[ops[i].key])
    decreases |mem|
  {
    if mem == map[] then []
    else
      var k := LeastKey(mem.Keys);
      var rest := mem - {k};
      assert |rest| < |mem| by { Fewer(mem, k); }
      [OpFor(k, mem[k])] + OpsOf(rest)
  }

  lemma Fewer(mem: Mem, k: Key)
    requires k in mem
    ensures |mem - {k}| < |mem|
  {
    assert mem.Keys == (mem - {k}).Keys + {k};
  }

  lemma {:induction false} OpsDifferent(mem: Mem)
    ensures Different(OpsOf(mem))
    decreases |mem|
  {
    if mem != map[] {
      var k := LeastKey(mem.Keys);
      Fewer(mem, k);
      OpsDifferent(mem - {k});
    }
  }

  lemma NothingToDo()
    ensures OpsOf(map[]) == []
  {
  }

  /** Whichever way the memtable lists its entries, the flush does these operations. */
  lemma {:induction false} ListedOps(es: seq<MemEntry>, mem: Mem)
    requires ListsMem(es, mem)
    ensures Changes(es) == OpsOf(mem)
    decreases |es|
  {
    hide ListsMem, LeastKey, Meaning, OpFor;
    if es == [] {
      NoEntries(mem);
      NothingToDo();
    } else {
      var k := es[0].key;
      FirstLeast(es, mem);
      FirstGone(es, mem);
      Fewer(mem, k);
      ListedOps(es[1..], mem - {k});
      assert Changes(es) == [OpFor(k, Meaning(es[0]))] + Changes(es[1..]);
    }
  }

  lemma NoEntries(mem: Mem)
    requires ListsMem([], mem)
    ensures mem == map[]
  {
  }

  lemma FirstLeast(es: seq<MemEntry>, mem: Mem)
    requires ListsMem(es, mem) && es != []
    ensures mem != map[] && es[0].key in mem && mem[es[0].key] == Meaning(es[0]) && LeastKey(mem.Keys) == es[0].key
  {
    OrderLaws();
    assert es[0] in es;
    var l := LeastKey(mem.Keys);
    var e :| e in es && e.key == l;
    var i :| 0 <= i < |es| && es[i] == e;
    assert !Less(es[0].key, es[i].key);
  }

  lemma FirstGone(es: seq<MemEntry>, mem: Mem)
    requires ListsMem(es, mem) && es != []
    ensures ListsMem(es[1..], mem - {es[0].key})
  {
    hide ListsMem, Less;
    var m' := mem - {es[0].key};
    forall e | e in es[1..]
      ensures e.key in m' && m'[e.key] == Meaning(e)
    {
      Listed(es, mem, e);
    }
    forall k | k in m'
      ensures exists e :: e in es[1..] && e.key == k
    {
      var e := Found(es, mem, k);
    }
    TailSorted(es, mem);
    assert ListsMem(es[1..], m') by { AsListed(es[1..], m'); }
  }

  lemma Listed(es: seq<MemEntry>, mem: Mem, e: MemEntry)
    requires ListsMem(es, mem) && es != [] && e in es[1..]
    ensures e.key in mem && mem[e.key] == Meaning(e) && e.key != es[0].key
  {
    OrderLaws();
    var i :| 0 <= i < |es[1..]| && es[1..][i] == e;
    assert es[i + 1] in es && Less(es[0].key, es[i + 1].key);
  }

  lemma Found(es: seq<MemEntry>, mem: Mem, k: Key) returns (e: MemEntry)
    requires ListsMem(es, mem) && es != [] && k in mem && k != es[0].key
    ensures e in es[1..] && e.key == k
  {
    e :| e in es && e.key == k;
    assert es == [es[0]] + es[1..];
  }

  lemma TailSorted(es: seq<MemEntry>, mem: Mem)
    requires ListsMem(es, mem) && es != []
    ensures SortedEntries(es[1..])
  {
  }

  lemma AsListed(es: seq<MemEntry>, mem: Mem)
    requires SortedEntries(es)
    requires forall e :: e in es ==> e.key in mem && mem[e.key] == Meaning(e)
    requires forall k :: k in mem ==> exists e :: e in es && e.key == k
    ensures ListsMem(es, mem)
  {
  }

  /** How flushing the memtable into the tree ends. */
  ghost function FlushEnd(mem: Mem, t: Tree, next: PageId): TreeEnd
    requires Sound(t, next)
  {
    TreeRun(OpsOf(mem), t, next)
  }

  lemma OneOp(key: Key, value: Val)
    ensures OpsOf(map[key := Some(value)]) == [OpPut(key, value)]
  {
    var es, mem := [MemEntry(key, value, false)], map[key := Some(value)];
    assert es[0] in es;
    ListedOps(es, mem);
  }

  /** On a new tree a single put fits exactly when key and value have at most 3992 bytes. */
  lemma OneEntryEnd(key: Key, value: Val)
    ensures FlushEnd(map[key := Some(value)], EmptyTree(), 2).Went? <==> |key| + |value| <= 3992
    ensures !FlushEnd(map[key := Some(value)], EmptyTree(), 2).Tore?
  {
    OneOp(key, value);
    var t, op := EmptyTree(), OpPut(key, value);
    OneStep(t, op);
    OneFits(key, value);
  }

  lemma OneStep(t: Tree, op: Op)
    requires Sound(t, 2)
    ensures TreeRun([op], t, 2) == TreeStep(t, 2, op)
  {
    hide TreeStep, Sound;
    NoSteps(t, 2);
    RunStep([op], 0, t, 2);
    assert [op][..0] == [] && [op][..1] == [op];
  }

  lemma OneFits(key: Key, value: Val)
    ensures var t := EmptyTree(); (PutFits(t, key, value, 2) <==> |key| + |value| <= 3992) && !Tears(t, key, value, 2)
  {
    var t := EmptyTree();
    assert LeafOf(t, key) == 1 && t.pages[1] == Leaf([], 0, 0);
    assert NewEntries(t, key, value) == [Entry(key, value)];
    assert EntriesSize([Entry(key, value)]) == 6 + |key| + |value| + EntriesSize([Entry(key, value)][1..]);
  }

  /** The entry that a flush cannot write is in the memtable. */
  lemma HaltedBy(mem: Mem, t: Tree, next: PageId) returns (key: Key, value: Val)
    requires Sound(t, next) && FlushEnd(mem, t, next).Halted?
    ensures key in mem && mem[key] == Some(value) && Halts(FlushEnd(mem, t, next).tree, key, value)
  {
    hide TreeRun, OpsOf, Halts, Sound;
    var ops := OpsOf(mem);
    var i := HaltPoint(ops, t, next);
    key, value := ops[i].key, ops[i].value;
  }
}
