/** The storage engine of engine.go: a memtable over a B+ tree, behind a write-ahead log. */
module Engines {
  import opened Keys
  import opened TreeModel
  import opened TreeScan
  import opened NodeSizes
  import opened TreeSteps
  import opened TreeLookup
  import opened SplitLoss
  import opened TornScan
  import opened TreeRuns
  import opened FlushRuns
  import opened BPlusTree
  import opened MemTables
  import opened Wal

  const FLUSH_THRESHOLD := 4096

  /** The stored map: the memtable's word counts where it has one, the tree's elsewhere. */
  ghost function Overlay(mem: Mem, tree: map<Key, Val>): map<Key, Val> {
    map k | k in mem.Keys + tree.Keys && (k in mem ==> mem[k].Some?) :: if k in mem then mem[k].value else tree[k]
  }

  /** What replaying log entries leaves in an empty memtable. */
  function Replay(es: seq<LogEntry>): Mem {
    if es == [] then map[]
    else
      Step(Replay(es[..|es| - 1]), es[|es| - 1])
  }

  /** What is on disk: the bytes of the log, and the map that the tree's pages store. */
  datatype Disk = Disk(log: seq<byte>, tree: map<Key, Val>)

  /** The map that opening the database on these files yields. */
  ghost function Recovered(d: Disk): map<Key, Val> {
    Overlay(Replay(Parse(d.log)), d.tree)
  }

  /** The log can hold the entry: its lengths fit their fields. */
  predicate Loggable(key: Key, value: Val) {
    |key| < 0x1_0000 && |value| < 0x1_0000_0000
  }

  ghost predicate SmallMem(mem: Mem) {
    forall k :: k in mem && mem[k].Some? ==> SmallEntry(k, mem[k].value)
  }

  datatype Status = Done | EmptyKey | KeyTooLarge | FlushFailed

  /** es lists the map m in some order, each key once. */
  ghost predicate Emits(es: seq<Entry>, m: map<Key, Val>) {
    && (forall i, j :: 0 <= i < j < |es| ==> es[i].key != es[j].key)
    && (forall e :: e in es ==> e.key in m && m[e.key] == e.value)
    && (forall k :: k in m ==> Entry(k, m[k]) in es)
  }

  lemma OverlayShadowed(mem: Mem, tree: map<Key, Val>, tree': map<Key, Val>)
    requires forall k :: k !in mem ==> (k in tree <==> k in tree') && (k in tree ==> tree[k] == tree'[k])
    ensures Overlay(mem, tree) == Overlay(mem, tree')
  {
  }

  lemma OverlayEmpty(tree: map<Key, Val>)
    ensures Overlay(map[], tree) == tree
  {
  }

  lemma OverlayPut(mem: Mem, tree: map<Key, Val>, k: Key, v: Val)
    ensures Overlay(mem[k := Some(v)], tree) == Overlay(mem, tree)[k := v]
  {
  }

  /** A tombstone hides the key, whether or not the tree still has it. */
  lemma OverlayDelete(mem: Mem, tree: map<Key, Val>, k: Key)
    ensures Overlay(mem[k := None], tree) == Overlay(mem, tree) - {k}
    ensures Overlay(mem[k := None], tree - {k}) == Overlay(mem, tree) - {k}
  {
  }

  /** What one more log entry does to the memtable. */
  function Step(m: Mem, e: LogEntry): Mem {
    if e.kind == WAL_PUT then m[e.key := Some(e.value)]
    else if e.kind == WAL_DELETE then m[e.key := None]
    else m
  }

  lemma ReplayStep(es: seq<LogEntry>, e: LogEntry)
    ensures Replay(es + [e]) == Step(Replay(es), e)
  {
    assert (es + [e])[..|es|] == es;
  }

  /** While a record is being appended to a clean log, the disk holds the map from before it or from after it. */
  lemma AppendRecovers(log: seq<LogEntry>, e: LogEntry, tree: map<Key, Val>)
    requires AllWritable(log) && Writable(e)
    ensures AllWritable(log + [e]) && Records(log + [e]) == Records(log) + Record(e)
    ensures forall d :: d in Prefixes(Records(log), Record(e), tree) ==>
      Recovered(d) == Overlay(Replay(log), tree) || Recovered(d) == Overlay(Replay(log + [e]), tree)
  {
    hide Record, Parse, Writable, Overlay;
    AppendParses(log, e);
    forall d | d in Prefixes(Records(log), Record(e), tree)
      ensures Recovered(d) == Overlay(Replay(log), tree) || Recovered(d) == Overlay(Replay(log + [e]), tree)
    {
      var n :| 0 <= n <= |Record(e)| && d == Disk(Records(log) + Record(e)[..n], tree);
      if n == |Record(e)| {
        assert Record(e)[..n] == Record(e);
      }
    }
  }

  /** Keys of the first i entries. */
  ghost function KeysOf(es: seq<MemEntry>, i: nat): set<Key>
    requires i <= |es|
  {
    set j | 0 <= j < i :: es[j].key
  }

  /** tree is tree0 with the first i entries written into it. */
  ghost predicate Flushed(es: seq<MemEntry>, i: nat, tree0: map<Key, Val>, tree: map<Key, Val>)
    requires i <= |es|
  {
    && (forall j :: 0 <= j < i ==> if es[j].deleted then es[j].key !in tree
         else es[j].key in tree && tree[es[j].key] == es[j].value)
    && (forall k :: k !in KeysOf(es, i) ==> (k in tree <==> k in tree0) && (k in tree ==> tree[k] == tree0[k]))
  }

  lemma FlushedStart(es: seq<MemEntry>, mem: Mem, tree0: map<Key, Val>)
    requires ListsMem(es, mem)
    ensures SortedEntries(es) && Flushed(es, 0, tree0, tree0)
    ensures SmallMem(mem) ==> forall i :: 0 <= i < |es| && !es[i].deleted ==> SmallEntry(es[i].key, es[i].value)
  {
    assert forall i :: 0 <= i < |es| ==> es[i] in es;
  }

  lemma NothingLogged()
    ensures Records([]) == [] && Parse([]) == [] && Replay([]) == map[]
  {
  }

  lemma FlushedStep(es: seq<MemEntry>, i: nat, tree0: map<Key, Val>, tree: map<Key, Val>, op: Op)
    requires i < |es| && SortedEntries(es) && Flushed(es, i, tree0, tree) && op == OpFor(es[i].key, Meaning(es[i]))
    ensures Flushed(es, i + 1, tree0, Apply(tree, op))
  {
    hide SortedEntries, Less;
    NewKey(es, i);
  }

  lemma NewKey(es: seq<MemEntry>, i: nat)
    requires i < |es| && SortedEntries(es)
    ensures forall j :: 0 <= j < i ==> es[j].key != es[i].key
    ensures KeysOf(es, i + 1) == KeysOf(es, i) + {es[i].key}
  {
    OrderLaws();
    assert forall j :: 0 <= j < i ==> Less(es[j].key, es[i].key);
  }

  /** Midway through a flush the memtable still hides what has changed below it. */
  lemma FlushedSame(es: seq<MemEntry>, i: nat, mem: Mem, tree0: map<Key, Val>, tree: map<Key, Val>)
    requires i <= |es| && ListsMem(es, mem) && Flushed(es, i, tree0, tree)
    ensures Overlay(mem, tree) == Overlay(mem, tree0)
  {
    forall k | k !in mem
      ensures k !in KeysOf(es, i)
    {
      assert forall j :: 0 <= j < i ==> es[j] in es;
    }
    OverlayShadowed(mem, tree, tree0);
  }

  /** After a whole flush the tree holds what the overlay held. */
  lemma FlushedAll(es: seq<MemEntry>, mem: Mem, tree0: map<Key, Val>, tree: map<Key, Val>)
    requires ListsMem(es, mem) && Flushed(es, |es|, tree0, tree)
    ensures tree == Overlay(mem, tree0)
  {
    var o := Overlay(mem, tree0);
    forall k
      ensures k in tree <==> k in o
      ensures k in tree ==> tree[k] == o[k]
    {
      if k in mem {
        var e :| e in es && e.key == k;
        var j :| 0 <= j < |es| && es[j] == e;
        assert mem[k] == Meaning(e);
      } else {
        assert forall j :: 0 <= j < |es| ==> es[j] in es;
        assert k !in KeysOf(es, |es|);
      }
    }
  }

  /** Every state of the files is one of was or recovers to m. */
  ghost predicate AllRecover(disks: iset<Disk>, was: iset<Disk>, m: map<Key, Val>) {
    forall d :: d in disks ==> d in was || Recovered(d) == m
  }

  /** The memtable has the entry of the Put that tore the tree, and hides what the tree had for it before. */
  ghost predicate HoldsPut(mem: Mem, x: TornPut, m: map<Key, Val>) {
    x.key in mem && mem[x.key] == Some(x.value) && Overlay(mem, x.tree.view) == m
  }

  /** A torn tree below the memtable: every key that the memtable does not know and that is not in the lost
      span is found with its value. */
  lemma TornFinds(pages: map<PageId, Node>, root: PageId, x: TornPut, mem: Mem, m: map<Key, Val>, key: Key, depth: nat)
    requires TornBy(pages, root, x) && HoldsPut(mem, x, m) && key !in mem
    requires x.tree.root in x.tree.place && depth > x.tree.place[x.tree.root].height
    ensures var span := TornSpan(x.tree, x.key, x.value, x.next);
      Lookup(pages, root, key, depth) == if span.0 <= Rank(key) < span.1 then None else ValueIn(m, key)
  {
    hide Tears, TornSpan, Lookup, WellFormed;
    assert ValueIn(x.tree.view[x.key := x.value], key) == ValueIn(m, key);
  }

  /** The first count of them, or all. */
  function Cut(ops: seq<Op>, count: nat): seq<Op> {
    if count < |ops| then ops[..count] else ops
  }

  lemma CutLength(es: seq<MemEntry>, count: nat)
    requires count <= |es|
    ensures |Cut(Changes(es), count)| == count
  {
  }

  lemma ChangeAt(es: seq<MemEntry>, count: nat, i: nat)
    requires i < count <= |es|
    ensures |Cut(Changes(es), count)| == count && Cut(Changes(es), count)[i] == OpFor(es[i].key, Meaning(es[i]))
  {
  }

  lemma SmallNothing()
    ensures SmallMem(map[])
  {
  }

  lemma NoNewDisk(disks: iset<Disk>, m: map<Key, Val>)
    ensures AllRecover(disks, disks, m)
  {
  }

  lemma OneMoreDisk(disks: iset<Disk>, was: iset<Disk>, m: map<Key, Val>, d: Disk)
    requires AllRecover(disks, was, m) && Recovered(d) == m
    ensures AllRecover(disks + iset{d}, was, m)
  {
  }

  lemma DropKeeps(disks: iset<Disk>, was: iset<Disk>, m: map<Key, Val>)
    requires AllRecover(disks, was, m)
    ensures AllRecover(disks + iset{Disk([], m)}, was, m)
  {
    NothingLogged();
    OverlayEmpty(m);
  }

  class Engine {
    var memtable: MemTable
    var btree: BTree
    var wal: WAL

    /** The entries on the log. */
    ghost var log: seq<LogEntry>
    /** Every state the files have been in. */
    ghost var disks: iset<Disk>

    /** The stored map. */
    ghost function Contents(): map<Key, Val>
      reads this, memtable, btree
    {
      Overlay(memtable.view, btree.view)
    }

    ghost function Files(): Disk
      reads this, wal, btree
    {
      Disk(wal.file, btree.view)
    }

    ghost predicate Live()
      reads this, memtable, memtable.chain, btree
    {
      memtable.Valid() && btree.Valid()
    }

    /** The log tells exactly what the memtable holds. */
    ghost predicate Logged()
      reads this, memtable, wal
    {
      wal.file == Records(log) && AllWritable(log) && memtable.view == Replay(log)
    }

    /** Replaying the log would rebuild the memtable. */
    ghost predicate Synced()
      reads this, memtable, wal
    {
      memtable.view == Replay(Parse(wal.file))
    }

    ghost predicate Valid()
      reads this, memtable, memtable.chain, btree, wal
    {
      Live() && Logged() && Files() in disks
    }

    ghost predicate SmallData()
      reads this, memtable, btree
    {
      SmallMem(memtable.view) && btree.Small()
    }

    /** A split was cut short while the memtable was being flushed. What the memtable and the pages still tell is
        m without the keys of the span that the split lost. */
    ghost predicate Torn(m: map<Key, Val>)
      reads this, memtable, memtable.chain, btree
    {
      memtable.Valid() && exists x :: TornBy(btree.pages, btree.rootID, x) && HoldsPut(memtable.view, x, m)
    }

    /** The memtable's nodes are old ones or new ones. */
    twostate predicate OnlyNewNodes(was: seq<SkipNode>)
      reads this, memtable
    {
      forall n :: n in memtable.chain ==> n in was || fresh(n)
    }

    lemma LoggedIsSynced()
      requires Logged()
      ensures Synced() && Recovered(Files()) == Contents()
    {
      ParseRecords(log, []);
      ParseEmpty();
      assert Records(log) + [] == Records(log) && log + [] == log;
    }

    /** The engine before recovery: the tree and the log as found on disk. */
    constructor (tree: BTree, bytes: seq<byte>)
      requires tree.Valid()
      ensures btree == tree && fresh(wal) && fresh(memtable) && fresh(memtable.chain)
      ensures Live() && memtable.view == map[] && log == []
      ensures wal.file == bytes && wal.sequence == Highest(Parse(bytes))
      ensures disks == iset{Disk(bytes, tree.view)}
    {
      hide Parse, BTree.Valid, WAL.Ordered, Highest;
      btree := tree;
      wal := new WAL(bytes);
      memtable := new MemTable();
      log := [];
      disks := iset{Disk(bytes, tree.view)};
    }

    /** Writes the memtable into the tree, in key order, then drops the memtable and the log. */
    method FlushMemTable() returns (ok: bool, torn: bool)
      requires Live()
      modifies this`log, this`disks, memtable, btree, wal
      ensures ok ==> !torn && Live() && Logged() && memtable.view == map[] && btree.view == old(Contents()) && log == []
      ensures ok ==> Files() in disks && fresh(memtable.chain) && wal.file == []
      ensures !ok ==>
        memtable.view == old(memtable.view) && memtable.chain == old(memtable.chain)
        && wal.file == old(wal.file) && log == old(log)
      ensures !ok && !torn ==> Live() && Contents() == old(Contents())
      ensures torn ==> Torn(old(Contents()))
      ensures !ok && !torn && old(Files() in disks) ==> Files() in disks
      ensures old(Synced()) ==> AllRecover(disks, old(disks), old(Contents()))
      ensures wal.sequence == old(wal.sequence)
      ensures old(SmallData()) ==> ok && SmallData()
      ensures btree.Ran(OpsOf(old(memtable.view)), ok, torn)
    {
      hide MemTable.Valid, BTree.Valid, BTree.Small, Parse, Record, Records, Replay, Overlay;
      hide AllRecover, Recovered, ListsMem, SmallMem, TornBy, HoldsPut, CleanLog, Engine.Torn, OpsOf, TreeRun;
      hide BTree.IsAt, BTree.Outcome;
      var entries := memtable.Scan();
      ListedOps(entries, memtable.view);
      ok, torn := WriteOut(entries, |entries|, Changes(entries));
      if !ok {
        return;
      }
      if old(Synced()) {
        DropKeeps(disks, old(disks), btree.view);
      }
      Drop();
    }

    /** The end of flushMemTable: an empty memtable and an empty log. */
    method Drop()
      requires Live()
      modifies this`log, this`disks, memtable, wal
      ensures Live() && Logged() && memtable.view == map[] && log == [] && wal.file == [] && fresh(memtable.chain)
      ensures disks == old(disks) + iset{Files()} && wal.sequence == old(wal.sequence)
      ensures btree.Small() ==> SmallData()
    {
      hide MemTable.Valid, BTree.Valid, BTree.Small, Parse, Replay, SmallMem, CleanLog;
      memtable.Clear();
      wal.Truncate();
      log := [];
      NothingLogged();
      disks := disks + iset{Files()};
      SmallNothing();
    }

    /** The first loop of flushMemTable: every entry, in key order, into the tree. A crash may come after any
        number of them; count says how many are written. */
    method WriteOut(entries: seq<MemEntry>, count: nat, ghost ops: seq<Op>) returns (ok: bool, torn: bool)
      requires Live() && ListsMem(entries, memtable.view) && count <= |entries| && ops == Cut(Changes(entries), count)
      modifies this`disks, btree
      ensures !torn ==> Live() && Contents() == old(Contents())
      ensures ok ==> !torn && (count == |entries| ==> btree.view == old(Contents()))
      ensures torn ==> Torn(old(Contents()))
      ensures !torn && old(Files() in disks) ==> Files() in disks
      ensures old(Synced()) ==> AllRecover(disks, old(disks), old(Contents()))
      ensures old(SmallData()) ==> ok && btree.Small()
      ensures btree.Ran(ops, ok, torn)
    {
      hide MemTable.Valid, BTree.Valid, BTree.Small, Parse, Record, Records, Replay, Overlay, AllRecover, Recovered;
      hide TreeRun, TreeStep, Changes, Cut, BTree.IsAt, Engine.Torn, ListsMem, SmallMem, SortedEntries, Engine.Midway;
      hide WellFormed, Sound, Below, BTree.Outcome, BTree.Step, Ending;
      ghost var t0, n0, tree0, before := btree.Repr(), btree.pageCount, btree.view, Contents();
      torn := false;
      FlushStarts(entries, ops, before);
      NoNewDisk(disks, before);
      CutLength(entries, count);
      for i := 0 to count
        invariant Midway(entries, i, ops, tree0, t0, n0, before) && !torn
        invariant old(Files() in disks) ==> Files() in disks
        invariant old(Synced()) ==> AllRecover(disks, old(disks), before)
        invariant old(SmallData()) ==> btree.Small()
      {
        ok, torn := WriteNext(entries, i, count, ops, tree0, t0, n0, before);
        if !ok {
          return;
        }
        MidwaySame(entries, i + 1, ops, tree0, t0, n0, before);
        Note(old(disks), memtable.view, before);
      }
      FlushEnds(entries, count, ops, tree0, t0, n0, before);
      ok := true;
    }

    /** The first i entries are in the tree, and the map is m as before. */
    ghost predicate Midway(entries: seq<MemEntry>, i: nat, ops: seq<Op>, tree0: map<Key, Val>, t0: Tree, n0: nat,
                           m: map<Key, Val>)
      reads this`memtable, this`btree, memtable, memtable.chain, btree
    {
      && memtable.Valid() && btree.Valid() && ListsMem(entries, memtable.view)
      && i <= |entries| && i <= |ops| && Sound(t0, n0)
      && Flushed(entries, i, tree0, btree.view) && Overlay(memtable.view, btree.view) == m
      && TreeRun(ops[..i], t0, n0) == Went(btree.Repr(), btree.pageCount)
    }

    lemma MidwaySame(entries: seq<MemEntry>, i: nat, ops: seq<Op>, tree0: map<Key, Val>, t0: Tree, n0: nat,
                     m: map<Key, Val>)
      requires Midway(entries, i, ops, tree0, t0, n0, m)
      ensures Live() && Overlay(memtable.view, btree.view) == m
    {
      hide MemTable.Valid, BTree.Valid, Overlay, Flushed, TreeRun, ListsMem, WellFormed;
    }

    lemma FlushStarts(entries: seq<MemEntry>, ops: seq<Op>, m: map<Key, Val>)
      requires Live() && ListsMem(entries, memtable.view) && m == Contents()
      ensures Midway(entries, 0, ops, btree.view, btree.Repr(), btree.pageCount, m)
      ensures Sound(btree.Repr(), btree.pageCount)
      ensures btree.Outcome(ops) == TreeRun(ops, btree.Repr(), btree.pageCount)
    {
      hide MemTable.Valid, BTree.Valid, Overlay, Flushed, TreeRun, ListsMem, WellFormed;
      btree.StartsAt(ops);
      FlushedStart(entries, memtable.view, btree.view);
    }

    /** What holds when the loop is done. */
    lemma FlushEnds(entries: seq<MemEntry>, count: nat, ops: seq<Op>, tree0: map<Key, Val>, t0: Tree, n0: nat,
                    m: map<Key, Val>)
      requires Sound(t0, n0) && |ops| == count && m == Overlay(memtable.view, tree0)
      ensures Midway(entries, count, ops, tree0, t0, n0, m) ==>
        && Live() && Contents() == m && (count == |entries| ==> btree.view == m)
        && TreeRun(ops, t0, n0) == Went(btree.Repr(), btree.pageCount) && btree.IsAt(TreeRun(ops, t0, n0))
    {
      hide MemTable.Valid, BTree.Valid, Overlay, Flushed, TreeRun, ListsMem, WellFormed;
      if Midway(entries, count, ops, tree0, t0, n0, m) {
        assert ops[..count] == ops;
        if count == |entries| {
          FlushedAll(entries, memtable.view, tree0, btree.view);
        }
      }
    }

    /** One round of the loop. */
    method WriteNext(entries: seq<MemEntry>, i: nat, ghost count: nat, ghost ops: seq<Op>, ghost tree0: map<Key, Val>,
                     ghost t0: Tree, ghost n0: nat, ghost m: map<Key, Val>) returns (ok: bool, torn: bool)
      requires i < count <= |entries| && ops == Cut(Changes(entries), count)
      requires Midway(entries, i, ops, tree0, t0, n0, m)
      modifies btree
      ensures ok ==> !torn && Midway(entries, i + 1, ops, tree0, t0, n0, m)
      ensures !ok && !torn ==> Live() && Contents() == m && btree.view == old(btree.view)
      ensures torn ==> Torn(m)
      ensures !ok ==>
        var r := TreeRun(ops, t0, n0); !r.Went? && (torn <==> r.Tore?) && btree.IsAt(r)
      ensures old(SmallData()) ==> ok && btree.Small()
    {
      hide MemTable.Valid, BTree.Valid, BTree.Small, Overlay, Flushed, TreeRun, TreeStep, Changes, Cut, BTree.Step;
      hide BTree.IsAt;
      hide Engine.Torn, ListsMem, SmallMem, SortedEntries, Meaning, OpFor, Apply, WellFormed;
      ListedAt(entries, memtable.view, i);
      FlushedStart(entries, memtable.view, tree0);
      ChangeAt(entries, count, i);
      btree.NextStep(ops, i, t0, n0);
      FlushedStep(entries, i, tree0, btree.view, ops[i]);
      FlushedSame(entries, i, memtable.view, tree0, btree.view);
      ghost var tree1 := Apply(btree.view, ops[i]);
      ok, torn := WriteEntry(entries[i], ops[i], m);
      if ok {
        assert btree.view == tree1;
        FlushedSame(entries, i + 1, memtable.view, tree0, btree.view);
      }
    }

    /** The files are in one more state. */
    ghost method Note(was: iset<Disk>, mem: Mem, m: map<Key, Val>)
      requires Overlay(mem, btree.view) == m
      modifies this`disks
      ensures disks == old(disks) + iset{Files()}
      ensures AllRecover(old(disks), was, m) && mem == Replay(Parse(wal.file)) ==> AllRecover(disks, was, m)
    {
      hide Parse, Replay, Overlay, Recovered, AllRecover;
      if AllRecover(disks, was, m) && mem == Replay(Parse(wal.file)) {
        FilesRecover(mem);
        OneMoreDisk(disks, was, m, Files());
      }
      disks := disks + iset{Files()};
    }

    /** One entry into the tree: a live one is put, a deleted one removed. */
    method WriteEntry(e: MemEntry, ghost op: Op, ghost before: map<Key, Val>) returns (ok: bool, torn: bool)
      requires Live() && Contents() == before && e.key in memtable.view && memtable.view[e.key] == Meaning(e)
      requires op == OpFor(e.key, Meaning(e))
      modifies btree
      ensures !torn ==> Live()
      ensures ok ==> !torn && btree.view == Apply(old(btree.view), op)
      ensures !ok && !torn ==> btree.view == old(btree.view)
      ensures torn ==> Torn(before)
      ensures var r := old(btree.Step(op));
        (ok <==> r.Went?) && (torn <==> r.Tore?) && btree.IsAt(r) && (ok ==> r == Went(btree.Repr(), btree.pageCount))
      ensures old(btree.Small()) && (!e.deleted ==> SmallEntry(e.key, e.value)) ==> ok && btree.Small()
    {
      hide MemTable.Valid, BTree.Valid, BTree.Small, AfterDelete, WellFormed, PutFits, Tears, TornSpan, FindsAllBut;
      hide HalfWritten, NewHalves, ScanWhole, Wasted, AfterPut, TreeRun, BTree.Ran;
      ghost var t, next := btree.Repr(), btree.pageCount;
      btree.Here();
      if e.deleted {
        var found := btree.Delete(e.key);
        return true, false;
      }
      ok, torn := btree.Put(e.key, e.value);
      if torn {
        ghost var x := TornPut(t, next, e.key, e.value);
        assert TornBy(btree.pages, btree.rootID, x) && HoldsPut(memtable.view, x, before);
      }
    }

    lemma FilesRecover(mem: Mem)
      requires Replay(Parse(wal.file)) == mem
      ensures Recovered(Files()) == Overlay(mem, btree.view)
    {
    }

    /** Opens the database on files left by a clean close or by a crash. When an entry on the log does not fit
        the tree, the database does not open, and the files still say what they said. */
    static method Open(tree: BTree, bytes: seq<byte>) returns (e: Engine, ok: bool, torn: bool)
      requires tree.Valid()
      modifies tree
      ensures fresh(e) && e.btree == tree && fresh(e.wal) && fresh(e.memtable)
      ensures ok ==> e.Live() && fresh(e.memtable.chain) && e.Contents() == old(Recovered(Disk(bytes, tree.view)))
      ensures ok ==> !torn && e.memtable.view == map[] && e.Files() in e.disks
      ensures ok ==> e.wal.file == LeftBy(bytes) && e.wal.sequence == Highest(Parse(bytes))
      ensures ok ==> (e.Logged() <==> bytes == [] || Parse(bytes) != [])
      ensures !ok ==> e.wal.file == bytes && e.memtable.view == Replay(Parse(bytes))
      ensures !ok && !torn ==> e.Live() && e.Contents() == old(Recovered(Disk(bytes, tree.view)))
      ensures tree.Ran(OpsOf(Replay(Parse(bytes))), ok, torn)
      ensures torn ==> e.Torn(old(Recovered(Disk(bytes, tree.view))))
      ensures forall d :: d in e.disks ==> Recovered(d) == old(Recovered(Disk(bytes, tree.view)))
      ensures old(tree.Small()) && SmallMem(Replay(Parse(bytes))) ==> ok && e.SmallData()
    {
      hide MemTable.Valid, BTree.Valid, BTree.Small, Parse, Record, Records, Replay, Overlay, OpsOf, TreeRun;
      hide Engine.Torn, BTree.Outcome, BTree.IsAt;
      e := new Engine(tree, bytes);
      ok, torn := e.Recover();
      assert forall j :: 0 <= j < |e.memtable.chain| ==> e.memtable.chain[j] in e.memtable.chain;
    }

    /** Replays the log into the memtable; if it held any whole entry, flushes and empties the log. */
    method Recover() returns (ok: bool, torn: bool)
      requires Live() && memtable.view == map[] && log == []
      requires disks == iset{Files()}
      modifies this`log, this`disks, memtable, memtable.chain, btree, wal
      ensures memtable == old(memtable) && btree == old(btree) && wal == old(wal)
      ensures ok ==> Live() && memtable.view == map[] && Contents() == old(Recovered(Files())) && Files() in disks
      ensures ok ==> !torn && wal.file == LeftBy(old(wal.file)) && OnlyNewNodes(old(memtable.chain))
      ensures ok ==> (Logged() <==> old(wal.file) == [] || Parse(old(wal.file)) != [])
      ensures !ok ==> wal.file == old(wal.file) && memtable.view == Replay(Parse(wal.file))
      ensures !ok && !torn ==> Live() && Contents() == old(Recovered(Files()))
      ensures btree.Ran(OpsOf(Replay(Parse(old(wal.file)))), ok, torn)
      ensures torn ==> Torn(old(Recovered(Files())))
      ensures wal.sequence == old(wal.sequence)
      ensures forall d :: d in disks ==> Recovered(d) == old(Recovered(Files()))
      ensures old(btree.Small()) && SmallMem(Replay(Parse(old(wal.file)))) ==> ok && SmallData()
    {
      hide MemTable.Valid, BTree.Valid, BTree.Small, Parse, Record, Records, Overlay, TornBy, HoldsPut, TreeRun;
      hide OpsOf, Engine.Torn, WellFormed, Below, Ending;
      torn := false;
      var count := LoadLog();
      if count == 0 {
        NoRecords(wal.file);
        NothingLogged();
        NothingToDo();
        btree.Here();
        NoSteps(btree.Repr(), btree.pageCount);
        return true, false;
      }
      ok, torn := FlushMemTable();
      if ok {
        NothingLogged();
        OverlayEmpty(btree.view);
        wal.Truncate();
      }
    }

    /** The replay of recovery, with the number of entries found. */
    method LoadLog() returns (count: nat)
      requires Live() && memtable.view == map[]
      modifies memtable, memtable.chain
      ensures Live() && memtable.view == Replay(Parse(wal.file)) && count == |Parse(wal.file)|
      ensures Synced() && Contents() == Recovered(Files()) && OnlyNewNodes(old(memtable.chain))
    {
      hide MemTable.Valid, BTree.Valid, Parse, Replay, Overlay;
      var es := wal.ReadAll();
      ReplayInto(memtable, es);
      count := |es|;
    }

    /** A restart that is cut off after writing count entries of the replayed memtable: the pages change, and what
        the files say does not. */
    method CutRecovery(count: nat) returns (ok: bool, torn: bool)
      requires Live() && memtable.view == map[] && Files() in disks
      modifies this`disks, memtable, memtable.chain, btree
      ensures wal.file == old(wal.file) && memtable.view == Replay(Parse(wal.file))
      ensures !torn ==> Live() && Files() in disks && Contents() == old(Recovered(Files()))
      ensures !torn ==> Recovered(Files()) == old(Recovered(Files()))
      ensures ok ==> !torn
      ensures torn ==> Torn(old(Recovered(Files())))
      ensures btree.Ran(Cut(OpsOf(Replay(Parse(old(wal.file)))), count), ok, torn)
      ensures old(btree.Small()) && SmallMem(Replay(Parse(old(wal.file)))) ==> ok && btree.Small()
    {
      hide MemTable.Valid, BTree.Valid, BTree.Small, Parse, Record, Records, Replay, Overlay, TornBy, HoldsPut;
      hide ListsMem;
      hide OpsOf, TreeRun, Engine.Torn, BTree.Outcome, BTree.IsAt, Recovered;
      var n := LoadLog();
      ok, torn := CutFlush(count);
    }

    /** flushMemTable cut off after count entries. */
    method CutFlush(count: nat) returns (ok: bool, torn: bool)
      requires Live() && Synced() && Files() in disks
      modifies this`disks, btree
      ensures !torn ==> Live() && Files() in disks
      ensures !torn ==> Contents() == old(Contents()) && Recovered(Files()) == old(Contents())
      ensures ok ==> !torn
      ensures torn ==> Torn(old(Contents()))
      ensures AllRecover(disks, old(disks), old(Contents()))
      ensures old(SmallData()) ==> ok && SmallData()
      ensures btree.Ran(Cut(OpsOf(old(memtable.view)), count), ok, torn)
    {
      hide MemTable.Valid, BTree.Valid, BTree.Small, Parse, Record, Records, Replay, Overlay, TornBy, HoldsPut;
      hide ListsMem;
      hide OpsOf, TreeRun, Engine.Torn, BTree.IsAt, BTree.Outcome, Recovered;
      var entries := memtable.Scan();
      ListedOps(entries, memtable.view);
      var all := if count < |entries| then count else |entries|;
      assert Cut(Changes(entries), all) == Cut(Changes(entries), count);
      ok, torn := WriteOut(entries, all, Cut(Changes(entries), all));
      FilesRecover(memtable.view);
    }

    /** What a put does to tree and memtable. Below the threshold the tree is not touched; from it on, the flush
        decides. */
    twostate predicate PutDone(key: Key, value: Val, status: Status, torn: bool)
      reads this, memtable, btree, wal
    {
      btree == old(btree) &&
      var mem := old(memtable.view)[key := Some(value)];
      if !(0 < |key| <= 512) then
        !torn && memtable.view == old(memtable.view) && unchanged(btree) && wal.file == old(wal.file)
      else if |mem| < 4096 then
        status == Done && !torn && memtable.view == mem && unchanged(btree) && wal.file != []
      else
        && btree.Ran(OpsOf(mem), status == Done, torn) && memtable.view == (if status == Done then map[] else mem)
        && (wal.file == [] <==> status == Done)
    }

    method Put(key: Key, value: Val) returns (status: Status, torn: bool)
      requires Live()
      modifies this`log, this`disks, memtable, memtable.chain, btree, wal
      ensures status == EmptyKey <==> |key| == 0
      ensures status == KeyTooLarge <==> |key| > 512
      ensures status.EmptyKey? || status.KeyTooLarge? ==>
        Live() && Contents() == old(Contents()) && Files() == old(Files()) && disks == old(disks)
      ensures (status.EmptyKey? || status.KeyTooLarge?) && old(Valid()) ==> Valid()
      ensures torn ==> status == FlushFailed
      ensures status == Done || (status == FlushFailed && !torn) ==>
        Live() && Contents() == old(Contents())[key := value]
      ensures torn ==> Torn(old(Contents())[key := value])
      ensures PutDone(key, value, status, torn)
      ensures old(Valid()) && Loggable(key, value) && torn ==> Synced()
      ensures old(Valid()) && Loggable(key, value) && (status == Done || (status == FlushFailed && !torn)) ==> Valid()
      ensures old(Valid()) && Loggable(key, value) ==> forall d :: d in disks ==>
        d in old(disks) || Recovered(d) == old(Contents()) || Recovered(d) == old(Contents())[key := value]
      ensures torn || OnlyNewNodes(old(memtable.chain))
      ensures old(SmallData()) && SmallEntry(key, value) ==> status != FlushFailed && SmallData()
    {
      hide MemTable.Valid, BTree.Valid, BTree.Small, Parse, Record, Records, Replay, Overlay, TornBy, HoldsPut;
      hide OpsOf, TreeRun, Engine.Torn, BTree.IsAt, BTree.Outcome, Recovered;
      torn := false;
      if |key| == 0 {
        return EmptyKey, false;
      }
      if |key| > MAX_KEY_SIZE {
        return KeyTooLarge, false;
      }
      LogPut(key, value);
      if Logged() {
        LoggedIsSynced();
      }
      memtable.SizeIs();
      if memtable.size >= FLUSH_THRESHOLD {
        var ok;
        ok, torn := FlushMemTable();
        if !ok {
          return FlushFailed, torn;
        }
        OverlayEmpty(btree.view);
      }
      status := Done;
    }

    /** The first half of Put: the log record and the memtable. */
    method LogPut(key: Key, value: Val)
      requires Live()
      modifies this`log, this`disks, memtable, memtable.chain, wal
      ensures Live() && Contents() == old(Contents())[key := value]
      ensures wal.file == old(wal.file) + Record(old(wal.Stamp(WAL_PUT, key, value))) && wal.file != []
      ensures memtable.view == old(memtable.view)[key := Some(value)]
      ensures old(Valid()) && Loggable(key, value) ==>
        Valid() && forall d :: d in disks ==>
          d in old(disks) || Recovered(d) == old(Contents()) || Recovered(d) == old(Contents())[key := value]
      ensures OnlyNewNodes(old(memtable.chain))
      ensures old(SmallData()) && SmallEntry(key, value) ==> SmallData()
    {
      hide MemTable.Valid, BTree.Valid, BTree.Small, Parse, Record, Records, Replay, Overlay;
      ghost var e := wal.Stamp(WAL_PUT, key, value);
      ghost var d := Disk(wal.file, btree.view);
      RecordSize(e);
      OverlayPut(memtable.view, btree.view, key, value);
      ReplayStep(log, e);
      if Logged() && Loggable(key, value) {
        AppendRecovers(log, e, btree.view);
      }
      wal.WritePut(key, value);
      log := log + [e];
      disks := disks + Prefixes(d.log, Record(e), d.tree);
      LastPrefix(d.log, Record(e), d.tree);
      var h: nat :| 1 <= h <= MAX_LEVEL;
      memtable.Put(key, value, h);
      if Logged() {
        LoggedIsSynced();
      }
    }

    /** Logs the deletion, leaves a tombstone and removes the key from the tree at once. The length of
        the key is not checked here. */
    method Delete(key: Key) returns (status: Status)
      requires Live()
      modifies this`log, this`disks, memtable, memtable.chain, btree, wal
      ensures status == if |key| == 0 then EmptyKey else Done
      ensures status == EmptyKey ==>
        Live() && Contents() == old(Contents()) && Files() == old(Files()) && disks == old(disks)
      ensures status == EmptyKey ==>
        memtable.view == old(memtable.view) && unchanged(btree) && (old(Valid()) ==> Valid())
      ensures status == Done ==> Live() && Contents() == old(Contents()) - {key}
      ensures status == Done ==> wal.file != [] && memtable.view == old(memtable.view)[key := None]
      ensures status == Done ==> old(btree.Step(OpDelete(key))) == Went(btree.Repr(), btree.pageCount)
      ensures old(Valid()) && Loggable(key, []) && status == Done ==>
        Valid() && forall d :: d in disks ==>
          d in old(disks) || Recovered(d) == old(Contents()) || Recovered(d) == old(Contents()) - {key}
      ensures OnlyNewNodes(old(memtable.chain))
      ensures old(SmallData()) ==> SmallData()
    {
      hide MemTable.Valid, BTree.Valid, BTree.Small, Parse, Record, Records, Replay, Overlay, BTree.Step, AfterDelete;
      hide Recovered, WellFormed;
      if |key| == 0 {
        return EmptyKey;
      }
      LogDelete(key);
      TreeShadowed(key);
      var found := btree.Delete(key);
      if Logged() {
        LoggedIsSynced();
      }
      disks := disks + iset{Files()};
      status := Done;
    }

    /** The first half of Delete: the log record and the tombstone. */
    method LogDelete(key: Key)
      requires Live()
      modifies this`log, this`disks, memtable, memtable.chain, wal
      ensures Live() && Contents() == old(Contents()) - {key} && key in memtable.view && memtable.view[key] == None
      ensures wal.file != [] && memtable.view == old(memtable.view)[key := None]
      ensures old(Valid()) && Loggable(key, []) ==>
        Valid() && forall d :: d in disks ==>
          d in old(disks) || Recovered(d) == old(Contents()) || Recovered(d) == old(Contents()) - {key}
      ensures OnlyNewNodes(old(memtable.chain))
      ensures old(SmallData()) ==> SmallData()
    {
      hide MemTable.Valid, BTree.Valid, BTree.Small, Parse, Record, Records, Replay, Overlay;
      ghost var e := wal.Stamp(WAL_DELETE, key, []);
      ghost var d := Disk(wal.file, btree.view);
      RecordSize(e);
      OverlayDelete(memtable.view, btree.view, key);
      ReplayStep(log, e);
      if Logged() && Loggable(key, []) {
        AppendRecovers(log, e, btree.view);
      }
      wal.WriteDelete(key);
      log := log + [e];
      disks := disks + Prefixes(d.log, Record(e), d.tree);
      LastPrefix(d.log, Record(e), d.tree);
      memtable.Delete(key);
      if Logged() {
        LoggedIsSynced();
      }
    }

    /** Behind a tombstone the tree's entry makes no difference. */
    lemma TreeShadowed(key: Key)
      requires key in memtable.view && memtable.view[key] == None
      ensures Overlay(memtable.view, btree.view - {key}) == Contents()
    {
    }

    method Get(key: Key) returns (r: Option<Val>)
      requires Live()
      ensures r == if key in Contents() then Some(Contents()[key]) else None
    {
      hide MemTable.Valid, BTree.Valid;
      var gone := memtable.IsDeleted(key);
      if gone {
        return None;
      }
      r := memtable.Get(key);
      if r.Some? {
        return;
      }
      r := btree.Get(key);
    }

    /** Every live key once, with its current value: first the tree's keys in order, then those that only
        the memtable knows, in order. */
    method Scan() returns (out: seq<Entry>)
      requires Live()
      ensures Emits(out, Contents())
      ensures exists n :: 0 <= n <= |out| && TwoRuns(out, n, btree.view)
      ensures Sorted(out) <==> ScansInOrder(Contents(), btree.view)
    {
      hide MemTable.Valid, BTree.Valid, Emits, TwoRuns, Sorted, ScansInOrder, ListsMem, Lists;
      var mem := memtable.Scan();
      var es := btree.FullScan();
      out := Merge(mem, es, memtable.view, btree.view);
      ghost var n :| 0 <= n <= |out| && TwoRuns(out, n, btree.view);
      ScanSortedIff(out, n, Contents(), btree.view);
    }

    /** The same for the keys in [start, end). */
    method RangeScan(start: Key, end: Key) returns (out: seq<Entry>)
      requires Live()
      ensures Emits(out, Range(Contents(), start, end))
      ensures exists n :: 0 <= n <= |out| && TwoRuns(out, n, btree.view)
      ensures Sorted(out) <==> ScansInOrder(Range(Contents(), start, end), btree.view)
    {
      hide MemTable.Valid, BTree.Valid, Emits, TwoRuns, Sorted, ScansInOrder, ListsMem, Lists, Overlay, RangeMem, Range;
      var mem := memtable.RangeScan(start, end);
      var es := btree.RangeScan(start, end);
      ghost var m, tree := Range(Contents(), start, end), btree.view;
      out := Merge(mem, es, RangeMem(memtable.view, start, end), Range(tree, start, end));
      OverlayRange(memtable.view, tree, start, end);
      ghost var n :| 0 <= n <= |out| && TwoRuns(out, n, Range(tree, start, end));
      RunsOfRange(out, n, m, tree, start, end);
      ScanSortedIff(out, n, m, tree);
    }

    /** Checkpoint: everything into the tree. */
    method Flush() returns (ok: bool, torn: bool)
      requires Valid()
      modifies this`log, this`disks, memtable, btree, wal
      ensures !torn ==> Valid() && Contents() == old(Contents())
      ensures OnlyNewNodes(old(memtable.chain)) && (ok ==> !torn && btree.view == old(Contents()))
      ensures wal.file == if ok then [] else old(wal.file)
      ensures memtable.view == if ok then map[] else old(memtable.view)
      ensures torn ==> Torn(old(Contents())) && Synced()
      ensures AllRecover(disks, old(disks), old(Contents()))
      ensures old(SmallData()) ==> ok && SmallData()
      ensures btree.Ran(OpsOf(old(memtable.view)), ok, torn)
    {
      hide MemTable.Valid, BTree.Valid, BTree.Small, Parse, Record, Records, Replay, Overlay, TornBy, HoldsPut;
      hide OpsOf, TreeRun, Engine.Torn, BTree.IsAt, BTree.Outcome, Recovered;
      LoggedIsSynced();
      ok, torn := FlushMemTable();
      NothingLogged();
      if ok {
        OverlayEmpty(btree.view);
      }
    }
  }

  /** out consists of two ascending runs: keys of the tree, then keys that are not in the tree. */
  ghost predicate TwoRuns(out: seq<Entry>, n: nat, tree: map<Key, Val>) {
    && n <= |out|
    && Sorted(out[..n]) && (forall i :: 0 <= i < n ==> out[i].key in tree)
    && Sorted(out[n..]) && (forall i :: n <= i < |out| ==> out[i].key !in tree)
  }

  /** Every live key of the tree comes before every live key that only the memtable knows. */
  ghost predicate ScansInOrder(m: map<Key, Val>, tree: map<Key, Val>) {
    forall k, j :: k in m && k in tree && j in m && j !in tree ==> Less(k, j)
  }

  /** The scan as a whole is in key order exactly then. */
  lemma ScanSortedIff(out: seq<Entry>, n: nat, m: map<Key, Val>, tree: map<Key, Val>)
    requires Emits(out, m) && TwoRuns(out, n, tree)
    ensures Sorted(out) <==> ScansInOrder(m, tree)
  {
  }

  lemma OverlayRange(mem: Mem, tree: map<Key, Val>, start: Key, end: Key)
    ensures Overlay(RangeMem(mem, start, end), Range(tree, start, end)) == Range(Overlay(mem, tree), start, end)
  {
  }

  lemma RunsOfRange(out: seq<Entry>, n: nat, m: map<Key, Val>, tree: map<Key, Val>, start: Key, end: Key)
    requires TwoRuns(out, n, Range(tree, start, end))
    requires exists all :: m == Range(all, start, end)
    requires Emits(out, m)
    ensures TwoRuns(out, n, tree)
  {
    assert forall i :: 0 <= i < |out| ==> out[i] in out;
  }

  /** The merge both scans share. */
  method Merge(mem: seq<MemEntry>, es: seq<Entry>, ghost mm: Mem, ghost tm: map<Key, Val>) returns (out: seq<Entry>)
    requires ListsMem(mem, mm) && Lists(es, tm)
    ensures Emits(out, Overlay(mm, tm))
    ensures exists n :: 0 <= n <= |out| && TwoRuns(out, n, tm)
  {
    var memEntries := IndexByKey(mem, mm);
    var first, seen := MergeTree(memEntries, es, mm, tm);
    var rest := MemOnly(mem, seen, mm, tm);
    out := first + rest;
    JoinRuns(first, rest, mm, tm);
  }

  method IndexByKey(mem: seq<MemEntry>, ghost mm: Mem) returns (r: map<Key, MemEntry>)
    requires ListsMem(mem, mm)
    ensures r.Keys == mm.Keys
    ensures forall k :: k in r ==> r[k].key == k && Meaning(r[k]) == mm[k]
  {
    r := map[];
    hide ListsMem, Meaning;
    for i := 0 to |mem|
      invariant forall k :: k in r ==> k in mm && r[k].key == k && Meaning(r[k]) == mm[k]
      invariant forall j :: 0 <= j < i ==> mem[j].key in r
    {
      ListedAt(mem, mm, i);
      r := r[mem[i].key := mem[i]];
    }
    forall k | k in mm
      ensures k in r
    {
      var j := ListedKey(mem, mm, k);
    }
  }

  lemma ListedAt(mem: seq<MemEntry>, mm: Mem, i: nat)
    requires ListsMem(mem, mm) && i < |mem|
    ensures mem[i].key in mm && mm[mem[i].key] == Meaning(mem[i])
  {
    assert mem[i] in mem;
  }

  lemma ListedKey(mem: seq<MemEntry>, mm: Mem, k: Key) returns (j: nat)
    requires ListsMem(mem, mm) && k in mm
    ensures j < |mem| && mem[j].key == k
  {
    var e :| e in mem && e.key == k;
    j :| 0 <= j < |mem| && mem[j] == e;
  }

  /** The tree's keys, each with what the memtable says about it where it says something. */
  method MergeTree(memEntries: map<Key, MemEntry>, es: seq<Entry>, ghost mm: Mem, ghost tm: map<Key, Val>)
    returns (out: seq<Entry>, seen: set<Key>)
    requires Lists(es, tm) && memEntries.Keys == mm.Keys
    requires forall k :: k in memEntries ==> memEntries[k].key == k && Meaning(memEntries[k]) == mm[k]
    ensures seen == tm.Keys && Sorted(out)
    ensures ListsPart(out, Overlay(mm, tm), tm.Keys)
  {
    hide ListsPart, Sorted, Lists, Meaning;
    seen := {};
    out := [];
    ghost var m := Overlay(mm, tm);
    NothingOut(m);
    for i := 0 to |es|
      invariant seen <= tm.Keys && forall j :: 0 <= j < i ==> es[j].key in seen
      invariant Sorted(out) && ListsPart(out, m, seen)
      invariant forall x, j :: 0 <= x < |out| && i <= j < |es| ==> Less(out[x].key, es[j].key)
    {
      var e := es[i];
      EntryOf(es, tm, i);
      MergedValue(memEntries, mm, tm, e);
      if e.key in memEntries {
        var me := memEntries[e.key];
        if !me.deleted {
          Extend(out, Entry(me.key, me.value), m, seen);
          out := out + [Entry(me.key, me.value)];
        } else {
          Pass(out, e.key, m, seen);
        }
      } else {
        Extend(out, e, m, seen);
        out := out + [e];
      }
      seen := seen + {e.key};
    }
    AllSeen(es, tm, seen);
  }

  lemma NothingOut(m: map<Key, Val>)
    ensures Sorted([]) && ListsPart([], m, {})
  {
  }

  lemma AllSeen(es: seq<Entry>, tm: map<Key, Val>, seen: set<Key>)
    requires Lists(es, tm) && seen <= tm.Keys && forall j :: 0 <= j < |es| ==> es[j].key in seen
    ensures seen == tm.Keys
  {
    forall k | k in tm
      ensures k in seen
    {
      assert Entry(k, tm[k]) in es;
      var j :| 0 <= j < |es| && es[j] == Entry(k, tm[k]);
    }
  }

  /** What the overlay has for an entry of the tree. */
  lemma MergedValue(memEntries: map<Key, MemEntry>, mm: Mem, tm: map<Key, Val>, e: Entry)
    requires memEntries.Keys == mm.Keys && e.key in tm && tm[e.key] == e.value
    requires forall k :: k in memEntries ==> memEntries[k].key == k && Meaning(memEntries[k]) == mm[k]
    ensures var m := Overlay(mm, tm);
      if e.key !in memEntries then e.key in m && m[e.key] == e.value
      else
        var me := memEntries[e.key];
        me.key == e.key && if me.deleted then e.key !in m else e.key in m && m[e.key] == me.value
  {
  }

  /** The live entries of the memtable whose keys the tree does not have. */
  method MemOnly(mem: seq<MemEntry>, seen: set<Key>, ghost mm: Mem, ghost tm: map<Key, Val>)
    returns (out: seq<Entry>)
    requires ListsMem(mem, mm) && seen == tm.Keys
    ensures Sorted(out) && ListsPart(out, Overlay(mm, tm), mm.Keys - tm.Keys)
  {
    out := [];
    ghost var done: set<Key>, m := {}, Overlay(mm, tm);
    for i := 0 to |mem|
      invariant done <= mm.Keys && forall j :: 0 <= j < i ==> mem[j].key in done
      invariant Sorted(out) && ListsPart(out, m, done - tm.Keys)
      invariant forall x, j :: 0 <= x < |out| && i <= j < |mem| ==> Less(out[x].key, mem[j].key)
    {
      hide ListsPart, Sorted, ListsMem, Overlay;
      var me := mem[i];
      MemEntryOf(mem, mm, tm, i);
      if me.key !in seen {
        assert (done + {me.key}) - tm.Keys == (done - tm.Keys) + {me.key};
        if !me.deleted {
          Extend(out, Entry(me.key, me.value), m, done - tm.Keys);
          out := out + [Entry(me.key, me.value)];
        } else {
          Pass(out, me.key, m, done - tm.Keys);
        }
      } else {
        assert (done + {me.key}) - tm.Keys == done - tm.Keys;
      }
      done := done + {me.key};
    }
    AllDone(mem, mm, done);
  }

  lemma MemEntryOf(mem: seq<MemEntry>, mm: Mem, tm: map<Key, Val>, i: nat)
    requires ListsMem(mem, mm) && i < |mem|
    ensures mem[i].key in mm
    ensures forall j :: i < j < |mem| ==> Less(mem[i].key, mem[j].key)
    ensures var m := Overlay(mm, tm);
      if mem[i].deleted then mem[i].key !in m else mem[i].key in m && m[mem[i].key] == mem[i].value
  {
    assert mem[i] in mem;
  }

  lemma AllDone(mem: seq<MemEntry>, mm: Mem, done: set<Key>)
    requires ListsMem(mem, mm) && done <= mm.Keys && forall j :: 0 <= j < |mem| ==> mem[j].key in done
    ensures done == mm.Keys
  {
    forall k | k in mm
      ensures k in done
    {
      var e :| e in mem && e.key == k;
      var j :| 0 <= j < |mem| && mem[j] == e;
    }
  }

  /** out holds exactly the entries of m whose keys are in ks. */
  ghost predicate ListsPart(out: seq<Entry>, m: map<Key, Val>, ks: set<Key>) {
    && (forall e :: e in out ==> e.key in ks && e.key in m && m[e.key] == e.value)
    && (forall k :: k in m && k in ks ==> Entry(k, m[k]) in out)
  }

  lemma EntryOf(es: seq<Entry>, tm: map<Key, Val>, i: nat)
    requires Lists(es, tm) && i < |es|
    ensures es[i].key in tm && tm[es[i].key] == es[i].value
    ensures forall j :: i < j < |es| ==> Less(es[i].key, es[j].key)
  {
    assert es[i] in es;
  }

  /** One more entry, past all the others. */
  lemma Extend(out: seq<Entry>, e: Entry, m: map<Key, Val>, ks: set<Key>)
    requires Sorted(out) && ListsPart(out, m, ks)
    requires forall x :: 0 <= x < |out| ==> Less(out[x].key, e.key)
    requires e.key in m && m[e.key] == e.value
    ensures Sorted(out + [e]) && ListsPart(out + [e], m, ks + {e.key})
  {
    assert (out + [e])[|out|] == e;
  }

  lemma Pass(out: seq<Entry>, k: Key, m: map<Key, Val>, ks: set<Key>)
    requires ListsPart(out, m, ks) && k !in m
    ensures ListsPart(out, m, ks + {k})
  {
  }

  lemma JoinRuns(a: seq<Entry>, b: seq<Entry>, mm: Mem, tm: map<Key, Val>)
    requires Sorted(a) && ListsPart(a, Overlay(mm, tm), tm.Keys)
    requires Sorted(b) && ListsPart(b, Overlay(mm, tm), mm.Keys - tm.Keys)
    ensures Emits(a + b, Overlay(mm, tm)) && TwoRuns(a + b, |a|, tm)
  {
    var out, m := a + b, Overlay(mm, tm);
    OrderLaws();
    assert out[..|a|] == a && out[|a|..] == b;
    assert forall i :: 0 <= i < |a| ==> out[i] == a[i] && a[i] in a;
    assert forall i :: |a| <= i < |out| ==> out[i] == b[i - |a|] && b[i - |a|] in b;
    forall k | k in m
      ensures Entry(k, m[k]) in out
    {
      assert Entry(k, m[k]) in a || Entry(k, m[k]) in b;
    }
  }

  /** Replays log entries into an empty memtable. */
  method ReplayInto(m: MemTable, es: seq<LogEntry>)
    requires m.Valid() && m.view == map[]
    modifies m, m.chain
    ensures m.Valid() && m.view == Replay(es)
    ensures forall n :: n in m.chain ==> n in old(m.chain) || fresh(n)
  {
    hide MemTable.Valid;
    for i := 0 to |es|
      invariant m.Valid() && m.view == Replay(es[..i])
      invariant forall n :: n in m.chain ==> n in old(m.chain) || fresh(n)
    {
      assert forall j :: 0 <= j < |m.chain| ==> m.chain[j] in m.chain;
      assert es[..i + 1][..i] == es[..i];
      var e := es[i];
      if e.kind == WAL_PUT {
        var h: nat :| 1 <= h <= MAX_LEVEL;
        m.Put(e.key, e.value, h);
      } else if e.kind == WAL_DELETE {
        m.Delete(e.key);
      }
    }
    assert es[..|es|] == es;
  }

  /** The files while a record is being appended: any part of it may have reached the disk. */
  ghost function Prefixes(file: seq<byte>, record: seq<byte>, tree: map<Key, Val>): iset<Disk> {
    iset n | 0 <= n <= |record| :: Disk(file + record[..n], tree)
  }

  lemma LastPrefix(file: seq<byte>, record: seq<byte>, tree: map<Key, Val>)
    ensures Disk(file + record, tree) in Prefixes(file, record, tree)
  {
    assert record[..|record|] == record;
  }

  lemma NoRecords(file: seq<byte>)
    requires Parse(file) == []
    ensures forall es :: AllWritable(es) && file == Records(es) ==> es == []
  {
    forall es | AllWritable(es) && file == Records(es)
      ensures es == []
    {
      ParseRecords(es, []);
      ParseEmpty();
      assert Records(es) + [] == Records(es) && es + [] == es;
    }
  }
}
