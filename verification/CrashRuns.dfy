/** Whole runs of the engine with crashes. */
module CrashRuns {
  import opened Keys
  import opened NodeSizes
  import opened TreeModel
  import opened TreeScan
  import opened TreeSteps
  import opened SplitLoss
  import opened TreeRuns
  import opened BPlusTree
  import opened MemTables
  import opened FlushRuns
  import opened Wal
  import opened Engines

  /** What the engine was doing when its memory was lost. Appending: n bytes of op's record had reached the log.
      Applying: all of them had, and op's first k changes to the tree: of the flush that a Put may call for, or
      the removal that a Delete asks for. Flushing: k changes of a checkpoint; when k covers them all the
      memtable may be gone already, and the log is not emptied yet. */
  datatype When = Idle | Appending(op: Op, n: nat) | Applying(op: Op, k: nat) | Flushing(k: nat)

  /** Do is an operation that returned. Each restart after a crash but the last is itself cut off, after as
      many changes to the tree as restarts says. */
  datatype Event = Do(op: Op) | Checkpoint | Crash(when: When, restarts: seq<nat>)

  /** How a run ends. FrontTorn, FlushTore, Unopened: it stops at an event. */
  datatype Result = Survived | FrontTorn | FlushTore | Unopened

  /** The engine checks the key before it does anything. */
  predicate Accepted(op: Op) {
    match op
    case OpPut(k, _) => 0 < |k| <= MAX_KEY_SIZE
    case OpDelete(k) => 0 < |k|
  }

  function Effect(m: map<Key, Val>, op: Op): map<Key, Val> {
    if Accepted(op) then Apply(m, op) else m
  }

  function RecordLength(op: Op): nat {
    match op
    case OpPut(k, v) => 19 + |k| + |v|
    case OpDelete(k) => 19 + |k|
  }

  /** The map that a run leaves: every operation that returned is in, and one cut off by a crash is in exactly
      when all of its record had reached the log. */
  function After(events: seq<Event>): map<Key, Val> {
    if events == [] then map[] else Follow(After(events[..|events| - 1]), events[|events| - 1])
  }

  function Follow(m: map<Key, Val>, ev: Event): map<Key, Val> {
    match ev
    case Do(op) => Effect(m, op)
    case Checkpoint => m
    case Crash(Idle, _) => m
    case Crash(Appending(op, n), _) => if n < RecordLength(op) then m else Effect(m, op)
    case Crash(Applying(op, _), _) => Effect(m, op)
    case Crash(Flushing(_), _) => m
  }

  lemma AfterStep(events: seq<Event>, i: nat)
    requires i < |events|
    ensures After(events[..i + 1]) == Follow(After(events[..i]), events[i])
  {
    assert events[..i + 1][..i] == events[..i];
  }

  /** The keys that are only on the log and in the memtable after a run in which no flush fails. */
  function Pending(events: seq<Event>): set<Key> {
    if events == [] then {} else PendingAfter(Pending(events[..|events| - 1]), events[|events| - 1])
  }

  function PendingAfter(ks: set<Key>, ev: Event): set<Key> {
    match ev
    case Do(op) =>
      if !Accepted(op) then ks
      else if op.OpPut? && |ks + {op.key}| >= FLUSH_THRESHOLD then {}
      else ks + {op.key}
    case _ => {}
  }

  /** A crash that tears the first record of an empty log. */
  predicate TearsFirst(events: seq<Event>, i: nat)
    requires i < |events|
  {
    TearsRecord(events[i]) && Pending(events[..i]) == {}
  }

  lemma PendingStep(events: seq<Event>, i: nat)
    requires i < |events|
    ensures Pending(events[..i + 1]) == PendingAfter(Pending(events[..i]), events[i])
  {
    assert events[..i + 1][..i] == events[..i];
  }

  lemma NothingYet(events: seq<Event>)
    ensures After(events[..0]) == map[] && Pending(events[..0]) == {}
    ensures Play(events[..0]) == Going(Image(EmptyTree(), 2, map[])) && Clean(Image(EmptyTree(), 2, map[]))
  {
  }

  // ---------------------------------------------------------------------------------------------
  // What a run does to the tree and the memtable

  /** The tree, the next free page, and what the memtable holds and the log would give back. */
  datatype Image = Image(tree: Tree, next: PageId, mem: Mem)

  /** Where a run stands, or why it stopped. */
  datatype Course = Going(image: Image) | Stopped(result: Result)

  ghost predicate Clean(im: Image) {
    Sound(im.tree, im.next)
  }

  ghost predicate Good(c: Course) {
    c.Going? ==> Clean(c.image)
  }

  /** A flush: one that does not fit leaves the memtable as it is. */
  ghost function FlushIn(im: Image): (c: Course)
    requires Clean(im)
    ensures Good(c)
  {
    match FlushEnd(im.mem, im.tree, im.next)
    case Went(t, n) => Going(Image(t, n, map[]))
    case Halted(t, n) => Going(Image(t, n, im.mem))
    case Tore(_) => Stopped(FlushTore)
  }

  /** The first k changes of one. */
  ghost function CutIn(im: Image, k: nat): (c: Course)
    requires Clean(im)
    ensures Good(c)
  {
    match TreeRun(Cut(OpsOf(im.mem), k), im.tree, im.next)
    case Went(t, n) => Going(Image(t, n, im.mem))
    case Halted(t, n) => Going(Image(t, n, im.mem))
    case Tore(_) => Stopped(FlushTore)
  }

  function MemAfter(mem: Mem, op: Op): Mem {
    match op
    case OpPut(k, v) => mem[k := Some(v)]
    case OpDelete(k) => mem[k := None]
  }

  ghost function DoIn(im: Image, op: Op): (c: Course)
    requires Clean(im)
    ensures Good(c)
  {
    var im' := im.(mem := MemAfter(im.mem, op));
    if !Accepted(op) then Going(im)
    else if op.OpDelete? then Going(im'.(tree := AfterDelete(im.tree, op.key)))
    else if |im'.mem| < FLUSH_THRESHOLD then Going(im')
    else FlushIn(im')
  }

  /** What is on disk when the crash comes; mem is what the log would give back. */
  ghost function DieIn(im: Image, when: When): (c: Course)
    requires Clean(im)
    ensures Good(c)
  {
    match when
    case Idle => Going(im)
    case Flushing(k) => CutIn(im, k)
    case Appending(op, n) =>
      if !Accepted(op) || n == 0 then Going(im)
      else if n >= RecordLength(op) then Going(im.(mem := MemAfter(im.mem, op)))
      else if im.mem == map[] then Stopped(FrontTorn)
      else Going(im)
    case Applying(op, k) =>
      var im' := im.(mem := MemAfter(im.mem, op));
      if !Accepted(op) then Going(im)
      else if op.OpDelete? then Going(if k == 0 then im' else im'.(tree := AfterDelete(im.tree, op.key)))
      else if |im'.mem| < FLUSH_THRESHOLD then Going(im')
      else CutIn(im', k)
  }

  ghost function RestartIn(im: Image, restarts: seq<nat>): (c: Course)
    requires Clean(im)
    ensures Good(c)
    decreases |restarts|
  {
    var ops := if restarts == [] then OpsOf(im.mem) else Cut(OpsOf(im.mem), restarts[0]);
    match TreeRun(ops, im.tree, im.next)
    case Went(t, n) =>
      if restarts == [] then Going(Image(t, n, map[])) else RestartIn(Image(t, n, im.mem), restarts[1..])
    case Halted(_, _) => Stopped(Unopened)
    case Tore(_) => Stopped(FlushTore)
  }

  ghost function EventIn(im: Image, ev: Event): (c: Course)
    requires Clean(im)
    ensures Good(c)
  {
    match ev
    case Do(op) => DoIn(im, op)
    case Checkpoint => FlushIn(im)
    case Crash(when, restarts) =>
      match DieIn(im, when)
      case Going(im') => RestartIn(im', restarts)
      case Stopped(r) => Stopped(r)
  }

  /** A run from a new database on. */
  ghost function Play(events: seq<Event>): (c: Course)
    ensures Good(c)
  {
    if events == [] then Going(Image(EmptyTree(), 2, map[]))
    else
      match Play(events[..|events| - 1])
      case Going(im) => EventIn(im, events[|events| - 1])
      case Stopped(r) => Stopped(r)
  }

  lemma PlayStep(events: seq<Event>, i: nat)
    requires i < |events| && Play(events[..i]).Going?
    ensures Play(events[..i + 1]) == EventIn(Play(events[..i]).image, events[i])
  {
    hide EventIn, EmptyTree, WellFormed;
    assert events[..i + 1][..i] == events[..i];
  }

  lemma {:induction false} PlayStopped(events: seq<Event>, i: nat)
    requires i <= |events| && Play(events[..i]).Stopped?
    ensures Play(events) == Play(events[..i])
    decreases |events|
  {
    hide EventIn;
    if i < |events| {
      assert events[..|events| - 1][..i] == events[..i];
      PlayStopped(events[..|events| - 1], i);
    } else {
      assert events[..i] == events;
    }
  }

  /** The engine is where the image says, and its log is empty exactly when the memtable is. */
  ghost predicate Shows(e: Engine, im: Image)
    reads e, e.memtable, e.btree, e.wal
  {
    && e.btree.Repr() == im.tree && e.btree.pageCount == im.next && e.memtable.view == im.mem
    && (e.wal.file == [] <==> im.mem == map[])
  }

  /** It went as c says. */
  ghost predicate WentAs(e: Engine, result: Result, c: Course)
    reads e, e.memtable, e.btree, e.wal
  {
    match c
    case Going(im) => result.Survived? && Shows(e, im)
    case Stopped(r) => result == r && !r.Survived?
  }

  // ---------------------------------------------------------------------------------------------
  // The engine run

  predicate LoggableOp(op: Op) {
    match op
    case OpPut(k, v) => Loggable(k, v)
    case OpDelete(k) => Loggable(k, [])
  }

  predicate SmallOp(op: Op) {
    op.OpPut? ==> SmallEntry(op.key, op.value)
  }

  /** The operation of an event. */
  function OpOf(ev: Event): Option<Op> {
    match ev
    case Do(op) => Some(op)
    case Crash(Appending(op, _), _) => Some(op)
    case Crash(Applying(op, _), _) => Some(op)
    case _ => None
  }

  predicate LoggableEvent(ev: Event) {
    OpOf(ev).Some? ==> LoggableOp(OpOf(ev).value)
  }

  predicate SmallEvent(ev: Event) {
    OpOf(ev).Some? ==> SmallOp(OpOf(ev).value)
  }

  /** A crash that leaves a proper part of a record on the log. */
  predicate TearsRecord(ev: Event) {
    ev.Crash? && ev.when.Appending? && Accepted(ev.when.op) && 0 < ev.when.n < RecordLength(ev.when.op)
  }

  /** The log entry the engine would write for op. */
  function EntryFor(w: WAL, op: Op): LogEntry
    reads w
  {
    match op
    case OpPut(k, v) => w.Stamp(WAL_PUT, k, v)
    case OpDelete(k) => w.Stamp(WAL_DELETE, k, [])
  }

  /** A clean log with the first n bytes of one more record behind it recovers to the map with the operation
      if the record is whole, and without it otherwise. */
  lemma TornRecovers(e: Engine, op: Op, n: nat)
    requires e.Logged() && LoggableOp(op) && n <= |Record(EntryFor(e.wal, op))|
    ensures |Record(EntryFor(e.wal, op))| == RecordLength(op)
    ensures var bytes := e.wal.file + Record(EntryFor(e.wal, op))[..n];
      && Recovered(Disk(bytes, e.btree.view))
         == (if n < RecordLength(op) then e.Contents() else Apply(e.Contents(), op))
      && (SmallMem(e.memtable.view) && SmallOp(op) ==> SmallMem(Replay(Parse(bytes))))
      && Replay(Parse(bytes)) == (if n < RecordLength(op) then e.memtable.view else MemAfter(e.memtable.view, op))
      && (bytes == [] || Parse(bytes) != [] <==> e.wal.file != [] || n == 0 || n == RecordLength(op))
  {
    hide Record, Records, Parse, Overlay, Replay;
    var le := EntryFor(e.wal, op);
    AppendParses(e.log, le);
    RecordSize(le);
    ReplayStep(e.log, le);
    match op {
      case OpPut(k, v) => OverlayPut(e.memtable.view, e.btree.view, k, v);
      case OpDelete(k) => OverlayDelete(e.memtable.view, e.btree.view, k);
    }
    NothingLogged();
    RecordsEmpty(e.log);
    if n == |Record(le)| {
      assert Record(le)[..n] == Record(le);
    }
  }

  lemma RecordsEmpty(es: seq<LogEntry>)
    ensures Records(es) == [] <==> es == []
  {
    if es != [] {
      RecordSize(es[0]);
    }
  }

  /** A clean log as it stands. */
  lemma WholeRecovers(e: Engine)
    requires e.Logged()
    ensures Recovered(Disk(e.wal.file, e.btree.view)) == e.Contents()
    ensures e.memtable.view == Replay(Parse(e.wal.file))
    ensures e.wal.file == [] || Parse(e.wal.file) != []
  {
    hide Record, Records, Parse, Overlay, Replay;
    e.LoggedIsSynced();
    RecordsEmpty(e.log);
    CleanRecords(e.log);
  }

  method Create() returns (e: Engine)
    ensures Owned(e) && e.Valid() && e.SmallData() && e.Contents() == map[]
    ensures Shows(e, Image(EmptyTree(), 2, map[]))
  {
    hide MemTable.Valid, BTree.Valid, BTree.Small, Parse, Record, Records, Replay, Overlay, TreeRun;
    NothingToDo();
    NoSteps(EmptyTree(), 2);
    var tree := new BTree();
    NothingLogged();
    OverlayEmpty(map[]);
    var ok;
    ghost var torn;
    e, ok, torn := Engine.Open(tree, []);
  }

  /** Runs one operation to its end. A flush that fails without tearing the tree is reported to the caller,
      and the operation stands. */
  method Perform(e: Engine, op: Op, ghost im: Image) returns (torn: bool)
    requires e.Valid() && LoggableOp(op) && Shows(e, im) && Clean(im)
    modifies e`log, e`disks, e.memtable, e.memtable.chain, e.btree, e.wal
    ensures !torn ==> e.Valid() && e.Contents() == Effect(old(e.Contents()), op)
    ensures !torn ==> e.OnlyNewNodes(old(e.memtable.chain))
    ensures torn ==> e.Torn(Effect(old(e.Contents()), op)) && e.Synced()
    ensures old(e.SmallData()) && SmallOp(op) ==> !torn && e.SmallData()
    ensures old(e.SmallData()) && SmallOp(op) ==> e.memtable.view.Keys == PendingAfter(im.mem.Keys, Do(op))
    ensures WentAs(e, if torn then FlushTore else Survived, DoIn(im, op))
  {
    hide MemTable.Valid, BTree.Valid, BTree.Small, Parse, Record, Records, Replay, Overlay, SmallMem, Engine.Torn;
    hide Loggable, SmallEntry, Engine.Logged, TreeRun, TreeStep, OpsOf, WellFormed, Sound, Ending, AfterDelete;
    hide Recovered, DoIn, Shows;
    torn := false;
    match op {
      case OpPut(k, v) =>
        torn := PerformPut(e, k, v, im);
      case OpDelete(k) =>
        PerformDelete(e, k, im);
    }
  }

  method PerformPut(e: Engine, key: Key, value: Val, ghost im: Image) returns (torn: bool)
    requires e.Valid() && Loggable(key, value) && Shows(e, im) && Clean(im)
    modifies e`log, e`disks, e.memtable, e.memtable.chain, e.btree, e.wal
    ensures !torn ==> e.Valid() && e.Contents() == Effect(old(e.Contents()), OpPut(key, value))
    ensures !torn ==> e.OnlyNewNodes(old(e.memtable.chain))
    ensures torn ==> e.Torn(Effect(old(e.Contents()), OpPut(key, value))) && e.Synced()
    ensures old(e.SmallData()) && SmallEntry(key, value) ==>
      !torn && e.SmallData() && e.memtable.view.Keys == PendingAfter(im.mem.Keys, Do(OpPut(key, value)))
    ensures WentAs(e, if torn then FlushTore else Survived, DoIn(im, OpPut(key, value)))
  {
    hide MemTable.Valid, BTree.Valid, BTree.Small, Parse, Record, Records, Replay, Overlay, SmallMem, Engine.Torn;
    hide SmallEntry, Engine.Logged, TreeRun, OpsOf, WellFormed, Recovered, BTree.IsAt, DoIn, WentAs, Engine.PutDone;
    hide Ending;
    hide Shows, PendingAfter, PutLeft;
    var status;
    status, torn := PutLogged(e, key, value, im);
    PutShown(e, im, key, value, status, torn);
  }

  method PutLogged(e: Engine, key: Key, value: Val, ghost im: Image) returns (status: Status, torn: bool)
    requires e.Valid() && Loggable(key, value) && Shows(e, im) && Clean(im)
    modifies e`log, e`disks, e.memtable, e.memtable.chain, e.btree, e.wal
    ensures !torn ==> e.Valid() && e.Contents() == Effect(old(e.Contents()), OpPut(key, value))
    ensures !torn ==> e.OnlyNewNodes(old(e.memtable.chain))
    ensures torn ==> e.Torn(Effect(old(e.Contents()), OpPut(key, value))) && e.Synced()
    ensures old(e.SmallData()) && SmallEntry(key, value) ==> status != FlushFailed && !torn && e.SmallData()
    ensures PutLeft(e, im, key, value, status, torn)
  {
    hide MemTable.Valid, BTree.Valid, BTree.Small, Parse, Record, Records, Replay, Overlay, SmallMem, Engine.Torn;
    hide SmallEntry, Engine.Logged, TreeRun, OpsOf, WellFormed, Recovered, BTree.IsAt, Ending;
    status, torn := e.Put(key, value);
  }

  /** A put as the image has it. */
  ghost predicate PutLeft(e: Engine, im: Image, key: Key, value: Val, status: Status, torn: bool)
    requires Clean(im)
    reads e, e.memtable, e.btree, e.wal
  {
    var mem := im.mem[key := Some(value)];
    if !Accepted(OpPut(key, value)) then !torn && Shows(e, im)
    else if |mem| < FLUSH_THRESHOLD then status == Done && !torn && Shows(e, im.(mem := mem))
    else
      && (var r := FlushEnd(mem, im.tree, im.next);
          (status == Done <==> r.Went?) && (torn <==> r.Tore?) && e.btree.IsAt(r))
      && e.memtable.view == (if status == Done then map[] else mem) && (e.wal.file == [] <==> status == Done)
      && (status == Done || status == FlushFailed)
  }

  lemma PutShown(e: Engine, im: Image, key: Key, value: Val, status: Status, torn: bool)
    requires Clean(im) && PutLeft(e, im, key, value, status, torn)
    ensures WentAs(e, if torn then FlushTore else Survived, DoIn(im, OpPut(key, value)))
    ensures status != FlushFailed ==> e.memtable.view.Keys == PendingAfter(im.mem.Keys, Do(OpPut(key, value)))
  {
    hide TreeRun, OpsOf, WellFormed, FlushIn, BTree.IsAt, BTree.Valid, Ending;
    var mem := im.mem[key := Some(value)];
    KeysOfPut(im.mem, key, value);
    if 0 < |key| <= MAX_KEY_SIZE && |mem| >= FLUSH_THRESHOLD {
      FlushShown(e, im.(mem := mem), status == Done, torn);
    }
  }

  lemma KeysOfPut(mem: Mem, key: Key, value: Val)
    ensures |mem[key := Some(value)]| == |mem.Keys + {key}| && mem[key := Some(value)] != map[]
  {
    assert mem[key := Some(value)].Keys == mem.Keys + {key};
    assert key in mem[key := Some(value)];
  }

  /** What the image of a flush is made of. */
  lemma FlushShown(e: Engine, im: Image, ok: bool, torn: bool)
    requires Clean(im)
    requires var r := FlushEnd(im.mem, im.tree, im.next); (ok <==> r.Went?) && (torn <==> r.Tore?) && e.btree.IsAt(r)
    requires e.memtable.view == if ok then map[] else im.mem
    requires torn || (e.wal.file == [] <==> e.memtable.view == map[])
    ensures WentAs(e, if torn then FlushTore else Survived, FlushIn(im))
  {
    hide TreeRun, OpsOf, WellFormed;
  }

  method PerformDelete(e: Engine, key: Key, ghost im: Image)
    requires e.Valid() && Loggable(key, []) && Shows(e, im) && Clean(im)
    modifies e`log, e`disks, e.memtable, e.memtable.chain, e.btree, e.wal
    ensures e.Valid() && e.Contents() == Effect(old(e.Contents()), OpDelete(key))
    ensures e.OnlyNewNodes(old(e.memtable.chain))
    ensures old(e.SmallData()) ==> e.SmallData()
    ensures e.memtable.view.Keys == PendingAfter(im.mem.Keys, Do(OpDelete(key)))
    ensures WentAs(e, Survived, DoIn(im, OpDelete(key)))
  {
    hide MemTable.Valid, BTree.Valid, BTree.Small, Parse, Record, Records, Replay, Overlay, SmallMem, Engine.Torn;
    hide SmallEntry, Engine.Logged, TreeRun, TreeStep, OpsOf, WellFormed, Ending, AfterDelete, Recovered, FlushIn;
    hide BTree.IsAt;
    StepDeletes(im.tree, im.next, key);
    assert e.btree.Step(OpDelete(key)) == Went(AfterDelete(im.tree, key), im.next);
    var status := e.Delete(key);
  }

  /** Brings the files of e to where they stand when the crash comes, and gives the bytes of the log. */
  method Die(e: Engine, when: When, ghost m: map<Key, Val>, ghost ev: Event, ghost im: Image)
    returns (bytes: seq<byte>, torn: bool)
    requires Shows(e, im) && Clean(im)
    requires e.Valid() && m == e.Contents() && ev.Crash? && ev.when == when && LoggableEvent(ev)
    requires TearsRecord(ev) ==> e.wal.file != []
    modifies e`log, e`disks, e.memtable, e.memtable.chain, e.btree, e.wal
    ensures torn ==> e.Torn(Follow(m, ev)) && e.Synced()
    ensures !torn ==> e.btree.Valid() && Recovered(Disk(bytes, e.btree.view)) == Follow(m, ev)
    ensures !torn ==> bytes == [] || Parse(bytes) != []
    ensures old(e.SmallData()) && SmallEvent(ev) ==> !torn && e.btree.Small() && SmallMem(Replay(Parse(bytes)))
    ensures LeftAs(e.btree, bytes, torn, DieIn(im, when))
  {
    hide MemTable.Valid, BTree.Valid, BTree.Small, Parse, Record, Records, Replay, Overlay, SmallMem, Engine.Torn;
    hide Loggable, SmallEntry, Engine.Logged, TreeRun, TreeStep, OpsOf, WellFormed, Sound, Ending, AfterDelete;
    hide Recovered, CutIn;
    torn := false;
    WholeRecovers(e);
    bytes := e.wal.file;
    match when {
      case Idle =>
      case Appending(op, n) =>
        if Accepted(op) {
          bytes := CutRecord(e, op, n);
        }
      case Applying(op, k) =>
        bytes, torn := CutOperation(e, op, k, im);
      case Flushing(k) =>
        bytes, torn := CutCheckpoint(e, k, im);
    }
  }

  /** The files are as c says. */
  ghost predicate LeftAs(tree: BTree, bytes: seq<byte>, torn: bool, c: Course)
    reads tree
  {
    match c
    case Going(im) => !torn && tree.Repr() == im.tree && tree.pageCount == im.next && Replay(Parse(bytes)) == im.mem
    case Stopped(r) => torn && r == FlushTore
  }

  /** The log with the first n bytes of op's record behind it. */
  method CutRecord(e: Engine, op: Op, n: nat) returns (bytes: seq<byte>)
    requires e.Valid() && LoggableOp(op) && Accepted(op)
    requires e.wal.file != [] || n == 0 || n >= RecordLength(op)
    ensures Recovered(Disk(bytes, e.btree.view))
         == if n < RecordLength(op) then e.Contents() else Effect(e.Contents(), op)
    ensures bytes == [] || Parse(bytes) != []
    ensures Replay(Parse(bytes)) == if n < RecordLength(op) then e.memtable.view else MemAfter(e.memtable.view, op)
    ensures e.SmallData() && SmallOp(op) ==> SmallMem(Replay(Parse(bytes)))
  {
    hide MemTable.Valid, BTree.Valid, BTree.Small, Parse, Record, Records, Replay, Overlay, SmallMem;
    hide Loggable, SmallEntry, Recovered;
    var r := Record(EntryFor(e.wal, op));
    var cut := if n < |r| then n else |r|;
    TornRecovers(e, op, cut);
    bytes := e.wal.file + r[..cut];
  }

  /** op is on the log; its first k changes to the tree are made. */
  method CutOperation(e: Engine, op: Op, k: nat, ghost im: Image) returns (bytes: seq<byte>, torn: bool)
    requires e.Valid() && LoggableOp(op) && Shows(e, im) && Clean(im)
    modifies e`log, e`disks, e.memtable, e.memtable.chain, e.btree, e.wal
    ensures torn ==> e.Torn(Effect(old(e.Contents()), op)) && e.Synced()
    ensures !torn ==> e.btree.Valid() && Recovered(Disk(bytes, e.btree.view)) == Effect(old(e.Contents()), op)
    ensures !torn ==> bytes == [] || Parse(bytes) != []
    ensures old(e.SmallData()) && SmallOp(op) ==> !torn && e.btree.Small() && SmallMem(Replay(Parse(bytes)))
    ensures LeftAs(e.btree, bytes, torn, DieIn(im, Applying(op, k)))
  {
    hide MemTable.Valid, BTree.Valid, BTree.Small, Parse, Record, Records, Replay, Overlay, SmallMem, Engine.Torn;
    hide Loggable, SmallEntry, Engine.Logged, Recovered, TreeRun, TreeStep, OpsOf, WellFormed, Sound, Ending;
    hide AfterDelete, CutIn, SmallOp, LoggableOp;
    torn := false;
    if Accepted(op) {
      match op {
        case OpPut(key, value) =>
          bytes, torn := CutPut(e, key, value, k, im);
        case OpDelete(key) =>
          bytes := CutDelete(e, key, k, im);
      }
    } else {
      WholeRecovers(e);
      bytes := e.wal.file;
    }
  }

  method CutPut(e: Engine, key: Key, value: Val, k: nat, ghost im: Image) returns (bytes: seq<byte>, torn: bool)
    requires e.Valid() && LoggableOp(OpPut(key, value)) && Accepted(OpPut(key, value)) && Shows(e, im) && Clean(im)
    modifies e`log, e`disks, e.memtable, e.memtable.chain, e.btree, e.wal
    ensures torn ==> e.Torn(Effect(old(e.Contents()), OpPut(key, value))) && e.Synced()
    ensures !torn ==>
      e.btree.Valid() && Recovered(Disk(bytes, e.btree.view)) == Effect(old(e.Contents()), OpPut(key, value))
    ensures !torn ==> bytes == [] || Parse(bytes) != []
    ensures old(e.SmallData()) && SmallOp(OpPut(key, value)) ==>
      !torn && e.btree.Small() && SmallMem(Replay(Parse(bytes)))
    ensures LeftAs(e.btree, bytes, torn, DieIn(im, Applying(OpPut(key, value), k)))
  {
    hide MemTable.Valid, BTree.Valid, BTree.Small, Parse, Record, Records, Replay, Overlay, SmallMem, Engine.Torn;
    hide Loggable, SmallEntry, Engine.Logged, Recovered, TreeRun, TreeStep, OpsOf, WellFormed, Sound, Ending;
    hide AfterDelete, CutIn;
    torn := false;
    e.LogPut(key, value);
    e.memtable.SizeIs();
    if e.memtable.size >= FLUSH_THRESHOLD {
      bytes, torn := CutCheckpoint(e, k, im.(mem := MemAfter(im.mem, OpPut(key, value))));
    } else {
      WholeRecovers(e);
      bytes := e.wal.file;
    }
  }

  method CutDelete(e: Engine, key: Key, k: nat, ghost im: Image) returns (bytes: seq<byte>)
    requires e.Valid() && LoggableOp(OpDelete(key)) && Accepted(OpDelete(key)) && Shows(e, im) && Clean(im)
    modifies e`log, e`disks, e.memtable, e.memtable.chain, e.btree, e.wal
    ensures e.btree.Valid() && Recovered(Disk(bytes, e.btree.view)) == Effect(old(e.Contents()), OpDelete(key))
    ensures bytes == [] || Parse(bytes) != []
    ensures old(e.SmallData()) && SmallOp(OpDelete(key)) ==> e.btree.Small() && SmallMem(Replay(Parse(bytes)))
    ensures LeftAs(e.btree, bytes, false, DieIn(im, Applying(OpDelete(key), k)))
  {
    hide MemTable.Valid, BTree.Valid, BTree.Small, Parse, Record, Records, Replay, Overlay, SmallMem, Engine.Torn;
    hide Loggable, SmallEntry, Engine.Logged, Recovered, TreeRun, TreeStep, OpsOf, WellFormed, Sound, Ending;
    hide AfterDelete, CutIn;
    if k == 0 {
      e.LogDelete(key);
    } else {
      StepDeletes(im.tree, im.next, key);
      var status := e.Delete(key);
    }
    WholeRecovers(e);
    bytes := e.wal.file;
  }

  /** The first k entries of the memtable are in the tree. */
  method CutCheckpoint(e: Engine, k: nat, ghost im: Image) returns (bytes: seq<byte>, torn: bool)
    requires e.Valid() && Shows(e, im) && Clean(im)
    modifies e`disks, e.btree
    ensures torn ==> e.Torn(old(e.Contents())) && e.Synced()
    ensures !torn ==> e.btree.Valid() && Recovered(Disk(bytes, e.btree.view)) == old(e.Contents())
    ensures !torn ==> bytes == [] || Parse(bytes) != []
    ensures old(e.SmallData()) ==> !torn && e.btree.Small() && SmallMem(Replay(Parse(bytes)))
    ensures LeftAs(e.btree, bytes, torn, CutIn(im, k))
  {
    hide MemTable.Valid, BTree.Valid, BTree.Small, Parse, Record, Records, Replay, Overlay, SmallMem, Engine.Torn;
    hide Engine.Logged, Recovered, TreeRun, OpsOf, WellFormed, Cut;
    WholeRecovers(e);
    e.LoggedIsSynced();
    bytes := e.wal.file;
    var ok;
    ok, torn := e.CutFlush(k);
  }

  /** Restarts on the tree's pages and the log: some that are cut off, and then one that runs to its end. */
  method Restart(tree: BTree, bytes: seq<byte>, restarts: seq<nat>, ghost m: map<Key, Val>, ghost im: Image)
    returns (e: Engine, result: Result)
    requires Clean(im) && LeftAs(tree, bytes, false, Going(im))
    requires tree.Valid() && (bytes == [] || Parse(bytes) != []) && m == Recovered(Disk(bytes, tree.view))
    modifies tree
    ensures fresh(e) && fresh(e.memtable) && fresh(e.wal) && e.btree == tree && !result.FrontTorn?
    ensures result.Survived? ==> e.Valid() && e.Contents() == m && fresh(e.memtable.chain) && e.memtable.view == map[]
    ensures result.FlushTore? ==> e.Torn(m) && e.Synced()
    ensures result.Unopened? ==> e.Live() && e.Synced() && e.Contents() == m
    ensures old(tree.Small()) && SmallMem(Replay(Parse(bytes))) ==> result.Survived? && e.SmallData()
    ensures WentAs(e, result, RestartIn(im, restarts))
  {
    hide MemTable.Valid, BTree.Valid, BTree.Small, Parse, Record, Records, Replay, Overlay, SmallMem, Engine.Torn;
    hide Engine.Logged, Recovered, TreeRun, OpsOf, WellFormed, RestartIn, Cut;
    var ok, torn;
    ghost var now := im;
    assert restarts[0..] == restarts;
    for i := 0 to |restarts|
      invariant tree.Valid() && m == Recovered(Disk(bytes, tree.view))
      invariant old(tree.Small()) && SmallMem(Replay(Parse(bytes))) ==> tree.Small()
      invariant Clean(now) && LeftAs(tree, bytes, false, Going(now))
      invariant RestartIn(im, restarts) == RestartIn(now, restarts[i..])
    {
      RestartStep(now, restarts[i..]);
      assert restarts[i..][1..] == restarts[i + 1..] && restarts[i..][0] == restarts[i];
      e := new Engine(tree, bytes);
      ok, torn := e.CutRecovery(restarts[i]);
      if torn {
        return e, FlushTore;
      }
      if !ok {
        return e, Unopened;
      }
      now := Image(tree.Repr(), tree.pageCount, now.mem);
    }
    assert restarts[|restarts|..] == [];
    RestartStep(now, []);
    e, ok, torn := Engine.Open(tree, bytes);
    result := if ok then Survived else if torn then FlushTore else Unopened;
  }

  lemma RestartStep(im: Image, restarts: seq<nat>)
    requires Clean(im)
    ensures restarts == [] ==> RestartIn(im, restarts) == match FlushEnd(im.mem, im.tree, im.next)
      case Went(t, n) => Going(Image(t, n, map[]))
      case Halted(_, _) => Stopped(Unopened)
      case Tore(_) => Stopped(FlushTore)
    ensures restarts != [] ==>
      RestartIn(im, restarts) == match TreeRun(Cut(OpsOf(im.mem), restarts[0]), im.tree, im.next)
      case Went(t, n) => RestartIn(Image(t, n, im.mem), restarts[1..])
      case Halted(_, _) => Stopped(Unopened)
      case Tore(_) => Stopped(FlushTore)
  {
    hide TreeRun, OpsOf, WellFormed;
  }

  /** Every run with crashes: during the append of a record, between an operation's record and its changes to the
      tree, between any two of those changes, after the last of them and before the log is emptied, and at the
      same points of any number of restarts. A run ends with the map that After tells, or it stops at the first
      event at which one of three things happens: a crash tears the first record of an empty log, which recovery
      leaves in the file; a split does not fit and tears the tree; or the database does not open, because an
      entry on its log does not fit. Neither of the last two happens to small entries, and then the first happens
      exactly when the run has a crash that tears a record while no key is pending. */
  method Survive(events: seq<Event>) returns (e: Engine, result: Result, ghost at: nat)
    requires forall i :: 0 <= i < |events| ==> LoggableEvent(events[i])
    ensures result.Survived? ==> e.Valid() && e.Contents() == After(events)
    ensures !result.Survived? ==> at < |events|
    ensures result.FrontTorn? ==>
      TearsRecord(events[at]) && e.Valid() && e.wal.file == [] && e.Contents() == After(events[..at])
    ensures result.FlushTore? ==> e.Torn(After(events[..at + 1])) && e.Synced()
    ensures result.Unopened? ==>
      events[at].Crash? && e.Live() && e.Synced() && e.Contents() == After(events[..at + 1])
    ensures (forall i :: 0 <= i < |events| ==> SmallEvent(events[i])) ==> result.Survived? || result.FrontTorn?
    ensures (forall i :: 0 <= i < |events| ==> SmallEvent(events[i])) ==>
      (result.FrontTorn? <==> exists i :: 0 <= i < |events| && TearsFirst(events, i))
    ensures WentAs(e, result, Play(events))
    ensures !result.Survived? ==> Play(events[..at]).Going? && Play(events[..at + 1]).Stopped?
  {
    hide MemTable.Valid, BTree.Valid, BTree.Small, Parse, Record, Records, Replay, Overlay, SmallMem, Engine.Torn;
    hide Engine.Logged, LoggableEvent, SmallEvent, After, TearsRecord, Pending, PendingAfter, Follow;
    hide Play, EventIn, WentAs, Sound, EmptyTree, Shows, TreeRun, OpsOf, WellFormed, Good, Clean;
    hide Engine.Valid, Engine.Live, Engine.Contents, Engine.SmallData, Engine.Synced, Recovered, Accepted;
    e := Create();
    NothingYet(events);
    at := 0;
    ghost var im := Image(EmptyTree(), 2, map[]);
    for i := 0 to |events|
      invariant e.Valid() && Owned(e) && e.Contents() == After(events[..i])
      invariant Clean(im) && Shows(e, im) && Play(events[..i]) == Going(im)
      invariant (forall j :: 0 <= j < |events| ==> SmallEvent(events[j])) ==>
        e.SmallData() && im.mem.Keys == Pending(events[..i]) && forall j :: 0 <= j < i ==> !TearsFirst(events, j)
    {
      at := i;
      AfterStep(events, i);
      PendingStep(events, i);
      PlayStep(events, i);
      FrontIn(im, events[i]);
      LogOf(e, im);
      if TearsRecord(events[i]) && e.wal.file == [] {
        assert (forall j :: 0 <= j < |events| ==> SmallEvent(events[j])) ==> TearsFirst(events, i);
        PlayStopped(events, i + 1);
        StoppedAs(e, FrontTorn);
        return e, FrontTorn, i;
      }
      assert forall j :: 0 <= j < |e.memtable.chain| ==> e.memtable.chain[j] in e.memtable.chain;
      e, result := Happen(e, events[i], im);
      WentOn(e, result, EventIn(im, events[i]));
      if !result.Survived? {
        PlayStopped(events, i + 1);
        return;
      }
      im := EventIn(im, events[i]).image;
      LogOf(e, im);
    }
    assert events[..|events|] == events;
    result := Survived;
    GoingAs(e, im);
  }

  lemma LogOf(e: Engine, im: Image)
    requires Shows(e, im)
    ensures (e.wal.file == [] <==> im.mem == map[]) && e.memtable.view == im.mem
  {
  }

  lemma FrontIn(im: Image, ev: Event)
    requires Clean(im)
    ensures TearsRecord(ev) && im.mem == map[] ==> EventIn(im, ev) == Stopped(FrontTorn)
  {
    hide TreeRun, RestartIn, WellFormed;
  }

  lemma StoppedAs(e: Engine, r: Result)
    requires !r.Survived?
    ensures WentAs(e, r, Stopped(r))
  {
  }

  lemma GoingAs(e: Engine, im: Image)
    requires Shows(e, im)
    ensures WentAs(e, Survived, Going(im))
  {
  }

  lemma WentOn(e: Engine, result: Result, c: Course)
    requires WentAs(e, result, c) && Good(c)
    ensures result.Survived? <==> c.Going?
    ensures c.Going? ==> Shows(e, c.image) && Clean(c.image)
  {
    hide Sound;
  }

  /** One event. */
  method Happen(e0: Engine, ev: Event, ghost im: Image) returns (e: Engine, result: Result)
    requires Shows(e0, im) && Clean(im)
    requires e0.Valid() && LoggableEvent(ev) && (TearsRecord(ev) ==> e0.wal.file != [])
    modifies e0`log, e0`disks, e0.memtable, e0.memtable.chain, e0.btree, e0.wal
    ensures Ends(e, result, ev, Follow(old(e0.Contents()), ev))
    ensures result.Survived? && ev.Crash? ==> OnlyNew(e, e0)
    ensures result.Survived? && !ev.Crash? ==> Same(e, e0)
    ensures old(e0.SmallData()) && SmallEvent(ev) ==> e.memtable.view.Keys == PendingAfter(im.mem.Keys, ev)
    ensures old(e0.SmallData()) && SmallEvent(ev) ==> result.Survived? && e.SmallData()
    ensures WentAs(e, result, EventIn(im, ev))
  {
    hide MemTable.Valid, BTree.Valid, BTree.Small, Parse, Record, Records, Replay, Overlay, SmallMem, Engine.Torn;
    hide Engine.Logged, Engine.Valid, Engine.Live, Engine.SmallData, Loggable, SmallEntry, Recovered;
    hide Follow, TearsRecord, LoggableEvent, SmallEvent, EventIn, WentAs, Sound;
    if ev.Crash? {
      e, result := Perish(e0, ev, im);
    } else {
      result := Proceed(e0, ev, im);
      e := e0;
    }
  }

  /** A crash and the restarts after it. */
  method Perish(e0: Engine, ev: Event, ghost im: Image) returns (e: Engine, result: Result)
    requires Shows(e0, im) && Clean(im)
    requires e0.Valid() && LoggableEvent(ev) && ev.Crash? && (TearsRecord(ev) ==> e0.wal.file != [])
    modifies e0`log, e0`disks, e0.memtable, e0.memtable.chain, e0.btree, e0.wal
    ensures Ends(e, result, ev, Follow(old(e0.Contents()), ev))
    ensures result.Survived? ==> OnlyNew(e, e0)
    ensures old(e0.SmallData()) && SmallEvent(ev) ==> e.memtable.view.Keys == PendingAfter(im.mem.Keys, ev)
    ensures old(e0.SmallData()) && SmallEvent(ev) ==> result.Survived? && e.SmallData()
    ensures WentAs(e, result, EventIn(im, ev))
  {
    hide MemTable.Valid, BTree.Valid, BTree.Small, Parse, Record, Records, Replay, Overlay, SmallMem, Engine.Torn;
    hide Engine.Logged, Engine.Valid, Engine.Live, Engine.SmallData, Loggable, SmallEntry, Recovered;
    hide Follow, TearsRecord, LoggableEvent, SmallEvent, EventIn, DieIn, RestartIn, Sound;
    ghost var m := Follow(e0.Contents(), ev);
    var bytes, torn := Die(e0, ev.when, e0.Contents(), ev, im);
    EventSplits(im, ev);
    if torn {
      return e0, FlushTore;
    }
    e, result := Restart(e0.btree, bytes, ev.restarts, m, DieIn(im, ev.when).image);
  }

  lemma EventSplits(im: Image, ev: Event)
    requires Clean(im) && ev.Crash?
    ensures EventIn(im, ev) == match DieIn(im, ev.when)
      case Going(im') => RestartIn(im', ev.restarts)
      case Stopped(r) => Stopped(r)
  {
    hide DieIn, RestartIn, WellFormed;
  }

  /** An event without a crash. */
  method Proceed(e: Engine, ev: Event, ghost im: Image) returns (result: Result)
    requires Shows(e, im) && Clean(im)
    requires e.Valid() && LoggableEvent(ev) && !ev.Crash?
    modifies e`log, e`disks, e.memtable, e.memtable.chain, e.btree, e.wal
    ensures Ends(e, result, ev, Follow(old(e.Contents()), ev))
    ensures result.Survived? ==> e.OnlyNewNodes(old(e.memtable.chain))
    ensures old(e.SmallData()) && SmallEvent(ev) ==> e.memtable.view.Keys == PendingAfter(im.mem.Keys, ev)
    ensures old(e.SmallData()) && SmallEvent(ev) ==> result.Survived? && e.SmallData()
    ensures WentAs(e, result, EventIn(im, ev))
  {
    hide MemTable.Valid, BTree.Valid, BTree.Small, Parse, Record, Records, Replay, Overlay, SmallMem, Engine.Torn;
    hide Engine.Logged, Engine.Valid, Engine.Live, Engine.SmallData, Loggable, SmallEntry, Recovered;
    hide TreeRun, OpsOf, DoIn, WellFormed, FlushIn, BTree.IsAt;
    var torn, ok;
    match ev {
      case Do(op) =>
        torn := Perform(e, op, im);
      case Checkpoint =>
        ok, torn := e.Flush();
        FlushShown(e, im, ok, torn);
    }
    result := if torn then FlushTore else Survived;
  }

  /** How an event may end, when the map is m after it. */
  ghost predicate Ends(e: Engine, result: Result, ev: Event, m: map<Key, Val>)
    reads e, e.memtable, e.memtable.chain, e.btree, e.wal
  {
    match result
    case Survived => e.Valid() && e.Contents() == m
    case FlushTore => e.Torn(m) && e.Synced()
    case Unopened => ev.Crash? && e.Live() && e.Synced() && e.Contents() == m
    case FrontTorn => false
  }

  /** The same engine, with more nodes in its memtable perhaps. */
  twostate predicate Same(new e: Engine, e0: Engine)
    reads e, e0, e.memtable
  {
    e == e0 && e.memtable == old(e0.memtable) && e.btree == old(e0.btree) && e.wal == old(e0.wal)
    && forall n :: n in e.memtable.chain ==> n in old(e0.memtable.chain) || fresh(n)
  }

  /** After a restart only the tree is the same object. */
  twostate predicate OnlyNew(new e: Engine, e0: Engine)
    reads e, e0, e.memtable
  {
    fresh(e) && fresh(e.memtable) && fresh(e.memtable.chain) && fresh(e.wal) && e.btree == old(e0.btree)
  }

  /** Everything the engine uses was allocated in this run. */
  twostate predicate Owned(new e: Engine)
    reads e, e.memtable
  {
    fresh(e) && fresh(e.memtable) && fresh(e.btree) && fresh(e.wal) && forall n :: n in e.memtable.chain ==> fresh(n)
  }

  // ---------------------------------------------------------------------------------------------
  // Single runs

  /** A database that did not open does not open however often it is tried. Its files go on saying the same. */
  method StaysShut(tree: BTree, bytes: seq<byte>, attempts: nat) returns (opens: bool)
    requires tree.Valid() && tree.Outcome(OpsOf(Replay(Parse(bytes)))).Halted?
    modifies tree
    ensures !opens && tree.Valid()
    ensures Recovered(Disk(bytes, tree.view)) == old(Recovered(Disk(bytes, tree.view)))
  {
    hide MemTable.Valid, BTree.Valid, BTree.Small, Parse, Replay, Overlay, TreeRun, OpsOf, WellFormed, Engine.Torn;
    hide SmallMem;
    ghost var ops := OpsOf(Replay(Parse(bytes)));
    OpsDifferent(Replay(Parse(bytes)));
    opens := false;
    for i := 0 to attempts
      invariant tree.Valid() && tree.Outcome(ops).Halted? && !opens
      invariant Recovered(Disk(bytes, tree.view)) == old(Recovered(Disk(bytes, tree.view)))
    {
      ghost var t, next := tree.Repr(), tree.pageCount;
      tree.Here();
      var e, ok, torn := Engine.Open(tree, bytes);
      tree.HaltsHere(ops, t, next);
      opens := ok;
    }
  }

  /** One put into a new database, and a crash: the put is acknowledged whatever its size, and the database opens
      again exactly when key and value have at most 3992 bytes. */
  method OnePut(key: Key, value: Val) returns (status: Status, opens: bool)
    requires 0 < |key| <= MAX_KEY_SIZE && |value| < 0x1_0000_0000
    ensures status == Done && (opens <==> |key| + |value| <= 3992)
  {
    hide MemTable.Valid, BTree.Valid, BTree.Small, Parse, Replay, Overlay, TreeRun, OpsOf, WellFormed, Engine.Torn;
    hide SmallMem;
    hide Engine.Logged, EmptyTree, Records, Record, Recovered, LeftBy, Highest;
    var e := Create();
    NodesListed(e);
    ghost var im := Image(EmptyTree(), 2, map[]);
    var torn;
    status, torn := PutLogged(e, key, value, im);
    OneKey(key, value);
    WholeRecovers(e);
    ghost var mem := e.memtable.view;
    OutcomeIs(e, im.(mem := mem), mem);
    OneEntryEnd(key, value);
    e, opens, torn := Engine.Open(e.btree, e.wal.file);
  }

  lemma OneKey(key: Key, value: Val)
    ensures var mem: Mem := map[]; |mem[key := Some(value)]| == 1 && mem[key := Some(value)] == map[key := Some(value)]
  {
  }

  lemma OutcomeIs(e: Engine, im: Image, mem: Mem)
    requires e.btree.Valid() && Shows(e, im) && Clean(im)
    ensures e.btree.Outcome(OpsOf(mem)) == FlushEnd(mem, im.tree, im.next)
  {
    hide TreeRun, OpsOf, WellFormed;
  }

  /** Key 2 is in the tree and key 1, put behind the checkpoint, only in the memtable: the scan gives 2 before 1. */
  method UnsortedScan() returns (out: seq<Entry>)
    ensures Emits(out, map[[1] := [], [2] := []]) && !Sorted(out)
  {
    hide MemTable.Valid, BTree.Valid, BTree.Small, Parse, Record, Records, Replay, Overlay, SmallMem, Engine.Torn;
    hide Engine.Logged, Engine.SmallData, Recovered, Emits, Sorted, TwoRuns, TreeRun, OpsOf, WellFormed, WentAs, DoIn;
    var e := Create();
    SmallTwo();
    NodesListed(e);
    var torn := Perform(e, OpPut([2], []), Image(EmptyTree(), 2, map[]));
    NodesListed(e);
    var ok;
    ok, torn := e.Flush();
    NodesListed(e);
    e.LogPut([1], []);
    out := e.Scan();
    OneAfterTwo();
  }

  lemma SmallTwo()
    ensures SmallEntry([2], []) && Loggable([2], [])
  {
  }

  lemma OneAfterTwo()
    ensures var two: map<Key, Val> := map[[2] := []]; var both: map<Key, Val> := map[[1] := [], [2] := []];
      two[[1] := []] == both && !ScansInOrder(both, two)
  {
    assert Less([1], [2]) && !Less([2], [1]);
  }

  /** On a new database a crash leaves one byte of a delete on the log. After the restart key 8 is put, and the
      memtable has it; after another crash it is gone. */
  method LosesPut() returns (e: Engine, ghost before: map<Key, Val>)
    ensures e.Live() && before == map[[8] := [9]] && e.Contents() == map[]
  {
    hide MemTable.Valid, BTree.Valid, BTree.Small, Record, Parse, SmallMem, Engine.Torn, Engine.Logged;
    hide Engine.Valid, Recovered, Replay, LeftBy, Highest, OpsOf, TreeRun, WellFormed, BTree.Outcome, BTree.Ran;
    hide EmptyTree;
    var tree := new BTree();
    var ok, torn;
    HiddenRecovers(LogEntry(WAL_PUT, 1, [8], [9]));
    e, ok, torn := Engine.Open(tree, [WAL_DELETE]);
    NodesListed(e);
    e.LogPut([8], [9]);
    before := e.Contents();
    assert e.wal.file == [WAL_DELETE] + Record(LogEntry(WAL_PUT, 1, [8], [9]));
    e, ok, torn := Engine.Open(e.btree, e.wal.file);
  }

  lemma HiddenRecovers(next: LogEntry)
    requires next == LogEntry(WAL_PUT, 1, [8], [9])
    ensures forall log :: log == [WAL_DELETE] || log == [WAL_DELETE] + Record(next) ==>
      Recovered(Disk(log, map[])) == map[] && SmallMem(Replay(Parse(log)))
    ensures LeftBy([WAL_DELETE]) == [WAL_DELETE] && Highest(Parse([WAL_DELETE])) == 0
  {
    hide Record, Parse, SmallMem;
    HiddenPut(next);
    NothingLogged();
    SmallNothing();
    OverlayEmpty(map[]);
  }

  lemma NodesListed(e: Engine)
    ensures forall j :: 0 <= j < |e.memtable.chain| ==> e.memtable.chain[j] in e.memtable.chain
  {
  }
}
