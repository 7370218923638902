/** INSERT, UPDATE and DELETE of executor.go, over the engine. */
module Executors {
  import opened Keys
  import opened Collections
  import opened TreeModel
  import opened BPlusTree
  import opened MemTables
  import opened Engines
  import opened Values
  import opened Conditions

  /** The key space of a table: its name and a colon, and at least one byte after them. */
  predicate InTable(k: Key, table: Key) {
    |k| > |table| + 1 && k[..|table| + 1] == table + [COLON]
  }

  /** The test at the top of every scan callback: the length, then the prefix byte by byte. */
  method InKeySpace(k: Key, table: Key) returns (b: bool)
    ensures b <==> InTable(k, table)
    ensures b <==> exists rest: Key {:trigger table + [58] + rest} :: rest != [] && k == table + [58] + rest
  {
    SplitAtPrefix(k, table);
    var prefix := table + [COLON];
    if |k| <= |prefix| {
      return false;
    }
    for i := 0 to |prefix|
      invariant k[..i] == prefix[..i]
    {
      if k[i] != prefix[i] {
        assert k[..|prefix|][i] != prefix[i];
        return false;
      }
    }
    return true;
  }

  /** The table's name, a colon, and something behind it. */
  lemma SplitAtPrefix(k: Key, table: Key)
    ensures InTable(k, table) <==>
      exists rest: Key {:trigger table + [58] + rest} :: rest != [] && k == table + [58] + rest
  {
    if InTable(k, table) {
      var rest := k[|table| + 1..];
      assert k == table + [58] + rest && rest != [];
    }
    forall rest: Key | rest != [] && k == table + [58] + rest
      ensures InTable(k, table)
    {
    }
  }

  /** A stored row that decodes and passes the condition, if there is one. */
  predicate RowPasses(w: Option<Where>, v: Val) {
    DecodeRow(v).Some? && (w.None? || Passes(w.value, DecodeRow(v).value))
  }

  /** The rows UPDATE rewrites. */
  ghost function UpdateKeys(m: map<Key, Val>, table: Key, w: Option<Where>): set<Key> {
    set k | k in m && InTable(k, table) && RowPasses(w, m[k])
  }

  /** The rows DELETE removes. Without a condition it removes even what does not decode. */
  ghost function DeleteKeys(m: map<Key, Val>, table: Key, w: Option<Where>): set<Key> {
    set k | k in m && InTable(k, table) && (w.None? || RowPasses(w, m[k]))
  }

  predicate IntHolds(op: Conditions.Op, i: int, n: int) {
    match op
    case Eq => i == n
    case Ne => i != n
    case Lt => i < n
    case Le => i <= n
    case Gt => i > n
    case Ge => i >= n
    case UnknownOp => false
  }

  /** What a comparison with an integer selects, for DELETE and UPDATE alike: the decodable rows whose value is an
      integer for which it holds, and those with NULL if it holds of something smaller than every integer. */
  lemma SelectsInts(m: map<Key, Val>, table: Key, c: Key, op: Conditions.Op, n: int, k: Key)
    ensures var w := Some(Where.Leaf(c, op, Int(n)));
      && (k in DeleteKeys(m, table, w) <==> k in UpdateKeys(m, table, w))
      && (k in DeleteKeys(m, table, w) <==>
            && k in m && InTable(k, table) && DecodeRow(m[k]).Some?
            && var row := DecodeRow(m[k]).value;
               c in row && ((row[c].Int? && IntHolds(op, row[c].i, n))
                            || (row[c].Null? && (op == Lt || op == Le || op == Ne))))
  {
    hide DecodeRow, InTable, Passes;
    if k in m && DecodeRow(m[k]).Some? {
      OneRow(DecodeRow(m[k]).value, c, op, n);
    }
  }

  lemma OneRow(row: map<Key, Value>, c: Key, op: Conditions.Op, n: int)
    ensures Passes(Where.Leaf(c, op, Int(n)), row) <==>
      c in row && ((row[c].Int? && IntHolds(op, row[c].i, n))
                   || (row[c].Null? && (op == Lt || op == Le || op == Ne)))
  {
    if c in row {
      ComparableIff(row[c], Int(n));
      NullLeaf(c, op, row, Int(n));
      if row[c].Int? {
        IntLeaf(c, op, row, row[c].i, n);
      }
    }
  }

  /** Without a condition DELETE takes every key of the table, UPDATE every row of it that decodes. */
  lemma SelectsAll(m: map<Key, Val>, table: Key, k: Key)
    ensures k in DeleteKeys(m, table, None) <==> k in m && InTable(k, table)
    ensures k in UpdateKeys(m, table, None) <==> k in m && InTable(k, table) && DecodeRow(m[k]).Some?
  {
    hide DecodeRow, InTable;
  }

  /** The keys of ks in the order in which a scan reports them. */
  ghost function Chosen(es: seq<Entry>, ks: set<Key>): seq<Key> {
    if es == [] then []
    else
      var last := es[|es| - 1].key;
      Chosen(es[..|es| - 1], ks) + if last in ks then [last] else []
  }

  lemma ChosenStep(es: seq<Entry>, i: nat, ks: set<Key>)
    requires i < |es|
    ensures Chosen(es[..i + 1], ks)
         == if es[i].key in ks then Chosen(es[..i], ks) + [es[i].key] else Chosen(es[..i], ks)
  {
    assert es[..i + 1][..i] == es[..i];
  }

  lemma {:induction false} ChosenFrom(es: seq<Entry>, ks: set<Key>)
    ensures forall k :: k in Chosen(es, ks) <==> k in ks && exists i :: 0 <= i < |es| && es[i].key == k
  {
    if es != [] {
      var init := es[..|es| - 1];
      ChosenFrom(init, ks);
      assert forall i :: 0 <= i < |init| ==> init[i] == es[i];
      forall k | k in ks && exists i :: 0 <= i < |es| && es[i].key == k
        ensures k in Chosen(es, ks)
      {
        var i :| 0 <= i < |es| && es[i].key == k;
        if i < |init| {
          assert init[i].key == k;
        }
      }
      forall k | k in Chosen(es, ks)
        ensures k in ks && exists i :: 0 <= i < |es| && es[i].key == k
      {
        if k in Chosen(init, ks) {
          var i :| 0 <= i < |init| && init[i].key == k;
          assert es[i].key == k;
        } else {
          assert es[|es| - 1].key == k;
        }
      }
    }
  }

  lemma {:induction false} ChosenDistinct(es: seq<Entry>, ks: set<Key>)
    requires forall i, j :: 0 <= i < j < |es| ==> es[i].key != es[j].key
    ensures Distinct(Chosen(es, ks))
  {
    if es != [] {
      var init := es[..|es| - 1];
      ChosenDistinct(init, ks);
      ChosenFrom(init, ks);
      assert es[|es| - 1].key !in Chosen(init, ks);
    }
  }

  /** A scan that emits a map reports each chosen key once. */
  lemma ChosenAll(es: seq<Entry>, m: map<Key, Val>, ks: set<Key>)
    requires Emits(es, m) && ks <= m.Keys
    ensures var c := Chosen(es, ks); Distinct(c) && SetOf(c) == ks && |c| == |ks|
  {
    ChosenDistinct(es, ks);
    ChosenFrom(es, ks);
    forall k | k in ks
      ensures k in Chosen(es, ks)
    {
      assert Entry(k, m[k]) in es;
    }
    assert SetOf(Chosen(es, ks)) == ks;
    CountDistinct(Chosen(es, ks));
  }

  // ---------------------------------------------------------------------------------------------
  // DELETE

  /** The scan of execDelete. */
  method CollectKeys(e: Engine, table: Key, w: Option<Where>) returns (toDelete: seq<Key>)
    requires e.Live()
    ensures Distinct(toDelete) && SetOf(toDelete) == DeleteKeys(e.Contents(), table, w)
    ensures |toDelete| == |DeleteKeys(e.Contents(), table, w)|
  {
    hide Engine.Live, Engine.Contents, DecodeRow, Eval, InTable, MemTable.Valid, Emits;
    ghost var m := e.Contents();
    ghost var ks := DeleteKeys(m, table, w);
    var es := e.Scan();
    toDelete := [];
    for i := 0 to |es|
      invariant toDelete == Chosen(es[..i], ks)
    {
      ChosenStep(es, i, ks);
      var k, v := es[i].key, es[i].value;
      EmitsAt(es, m, i);
      var here := InKeySpace(k, table);
      if !here {
        continue;
      }
      if w.Some? {
        var row := DecodeRow(v);
        if row.None? {
          continue;
        }
        var pass := Eval(w.value, row.value);
        if pass != Some(true) {
          continue;
        }
      }
      toDelete := toDelete + [k];
    }
    assert es[..|es|] == es;
    ChosenAll(es, m, ks);
  }

  /** DELETE FROM table [WHERE w]: exactly the matching rows go, and their number is reported. */
  method ExecDelete(e: Engine, table: Key, w: Option<Where>) returns (affected: nat)
    requires e.Live()
    modifies e`log, e`disks, e.memtable, e.memtable.chain, e.btree, e.wal
    ensures e.Live() && e.OnlyNewNodes(old(e.memtable.chain))
    ensures e.Contents() == old(e.Contents()) - DeleteKeys(old(e.Contents()), table, w)
    ensures affected == |DeleteKeys(old(e.Contents()), table, w)|
  {
    hide Engine.Live, Engine.Contents, DeleteKeys, InTable, MemTable.Valid, BTree.Valid, BTree.Step, Engine.Valid;
    hide Engine.SmallData, Recovered;
    ghost var m := e.Contents();
    var toDelete := CollectKeys(e, table, w);
    for i := 0 to |toDelete|
      invariant e.Live() && e.OnlyNewNodes(old(e.memtable.chain))
      invariant e.Contents() == m - SetOf(toDelete[..i])
    {
      assert forall j :: 0 <= j < |e.memtable.chain| ==> e.memtable.chain[j] in e.memtable.chain;
      assert toDelete[i] in SetOf(toDelete);
      DeleteKeysNonEmpty(m, table, w, toDelete[i]);
      var status := e.Delete(toDelete[i]);
      assert SetOf(toDelete[..i + 1]) == SetOf(toDelete[..i]) + {toDelete[i]};
    }
    assert toDelete[..|toDelete|] == toDelete;
    affected := |toDelete|;
  }

  lemma DeleteKeysNonEmpty(m: map<Key, Val>, table: Key, w: Option<Where>, k: Key)
    requires k in DeleteKeys(m, table, w)
    ensures k in m && |k| > 0
  {
  }

  // ---------------------------------------------------------------------------------------------
  // UPDATE

  datatype Assign = Assign(column: Key, value: Value)

  /** A row after the SET list, left to right. No check that the columns exist. */
  function Assigned(row: map<Key, Value>, sets: seq<Assign>): map<Key, Value> {
    if sets == [] then row
    else
      var n := |sets| - 1;
      Assigned(row, sets[..n])[sets[n].column := sets[n].value]
  }

  /** The last assignment to a column counts, other columns keep their values. */
  lemma {:induction false} AssignedAt(row: map<Key, Value>, sets: seq<Assign>, c: Key)
    ensures (forall i :: 0 <= i < |sets| ==> sets[i].column != c) ==>
      (c in Assigned(row, sets) <==> c in row) && (c in row ==> Assigned(row, sets)[c] == row[c])
    ensures forall i :: LastFor(sets, i, c) ==> c in Assigned(row, sets) && Assigned(row, sets)[c] == sets[i].value
  {
    if sets != [] {
      var n := |sets| - 1;
      AssignedAt(row, sets[..n], c);
      forall i | LastFor(sets, i, c)
        ensures c in Assigned(row, sets) && Assigned(row, sets)[c] == sets[i].value
      {
        if i < n {
          assert LastFor(sets[..n], i, c);
          assert sets[n].column != c;
        }
      }
    }
  }

  ghost predicate LastFor(sets: seq<Assign>, i: int, c: Key) {
    0 <= i < |sets| && sets[i].column == c && forall j :: i < j < |sets| ==> sets[j].column != c
  }

  lemma {:induction false} AssignedFine(row: map<Key, Value>, sets: seq<Assign>)
    requires FineEntries(row) && GoodSets(sets)
    ensures FineEntries(Assigned(row, sets)) && |Assigned(row, sets)| <= |row| + |sets|
  {
    hide Fine;
    if sets != [] {
      var n := |sets| - 1;
      AssignedFine(row, sets[..n]);
      OneMore(Assigned(row, sets[..n]), sets[n].column, sets[n].value);
    }
  }

  ghost predicate GoodSets(sets: seq<Assign>) {
    forall i :: 0 <= i < |sets| ==> |sets[i].column| < 0x1_0000_0000 && Fine(sets[i].value)
  }

  /** The loop over the SET list. */
  method SetAll(row: map<Key, Value>, sets: seq<Assign>) returns (r: map<Key, Value>)
    ensures r == Assigned(row, sets)
  {
    r := row;
    for i := 0 to |sets|
      invariant r == Assigned(row, sets[..i])
    {
      r := r[sets[i].column := sets[i].value];
      assert sets[..i + 1][..i] == sets[..i];
    }
    assert sets[..|sets|] == sets;
  }

  /** m' is m with the rows at ks assigned and nothing else changed. */
  ghost predicate Updated(m: map<Key, Val>, m': map<Key, Val>, ks: set<Key>, sets: seq<Assign>) {
    && m'.Keys == m.Keys
    && forall k :: k in m ==> UpdatedAt(m[k], m'[k], k in ks, sets)
  }

  ghost predicate UpdatedAt(v: Val, v': Val, hit: bool, sets: seq<Assign>) {
    if hit then DecodeRow(v).Some? && DecodeRow(v') == Some(Assigned(DecodeRow(v).value, sets)) else v' == v
  }

  lemma UpdatedStep(m: map<Key, Val>, m': map<Key, Val>, ks: set<Key>, sets: seq<Assign>, k: Key, v: Val)
    requires Updated(m, m', ks, sets) && k in m && DecodeRow(m[k]).Some?
    requires DecodeRow(v) == Some(Assigned(DecodeRow(m[k]).value, sets))
    ensures Updated(m, m'[k := v], ks + {k}, sets)
  {
    hide DecodeRow, Assigned;
  }

  datatype Pending = Pending(key: Key, row: map<Key, Value>)

  ghost predicate Holds(ps: seq<Pending>, m: map<Key, Val>, ks: seq<Key>) {
    && |ps| == |ks|
    && forall i :: 0 <= i < |ps| ==> ps[i].key == ks[i] && ks[i] in m && DecodeRow(m[ks[i]]) == Some(ps[i].row)
  }

  /** The keys and values that the engine can hold: Put checks the first. */
  ghost predicate Sane(m: map<Key, Val>) {
    forall k :: k in m ==> 0 < |k| <= MAX_KEY_SIZE && |m[k]| < 0x8000_0000
  }

  /** The scan of execUpdate. */
  method CollectRows(e: Engine, table: Key, w: Option<Where>) returns (updates: seq<Pending>, ghost c: seq<Key>)
    requires e.Live()
    ensures Distinct(c) && SetOf(c) == UpdateKeys(e.Contents(), table, w)
    ensures |c| == |UpdateKeys(e.Contents(), table, w)| && Holds(updates, e.Contents(), c)
  {
    hide Engine.Live, Engine.Contents, DecodeRow, Eval, InTable, MemTable.Valid, Emits, Chosen, Holds;
    ghost var m := e.Contents();
    ghost var ks := UpdateKeys(m, table, w);
    var es := e.Scan();
    updates := [];
    HoldsNone(m, es, ks);
    for i := 0 to |es|
      invariant Holds(updates, m, Chosen(es[..i], ks))
    {
      ChosenStep(es, i, ks);
      var k, v := es[i].key, es[i].value;
      EmitsAt(es, m, i);
      var here := InKeySpace(k, table);
      if !here {
        continue;
      }
      var row := DecodeRow(v);
      if row.None? {
        continue;
      }
      if w.Some? {
        var pass := Eval(w.value, row.value);
        if pass != Some(true) {
          continue;
        }
      }
      HoldsStep(updates, m, Chosen(es[..i], ks), k, row.value);
      updates := updates + [Pending(k, row.value)];
    }
    assert es[..|es|] == es;
    c := Chosen(es, ks);
    ChosenAll(es, m, ks);
  }

  lemma EmitsAt(es: seq<Entry>, m: map<Key, Val>, i: nat)
    requires Emits(es, m) && i < |es|
    ensures es[i].key in m && m[es[i].key] == es[i].value
  {
    assert es[i] in es;
  }

  lemma HoldsNone(m: map<Key, Val>, es: seq<Entry>, ks: set<Key>)
    ensures Holds([], m, Chosen(es[..0], ks))
  {
  }

  lemma HoldsStep(ps: seq<Pending>, m: map<Key, Val>, ks: seq<Key>, k: Key, row: map<Key, Value>)
    requires Holds(ps, m, ks) && k in m && DecodeRow(m[k]) == Some(row)
    ensures Holds(ps + [Pending(k, row)], m, ks + [k])
  {
    hide DecodeRow;
  }

  /** One round of the second loop: assign, encode, put. A Put that only reports a failed flush has stored
      the row. */
  method PutRow(e: Engine, u: Pending, sets: seq<Assign>, ghost v: Val) returns (encoded: seq<byte>, torn: bool)
    requires e.Live() && 0 < |u.key| <= MAX_KEY_SIZE && |v| < 0x8000_0000 && DecodeRow(v) == Some(u.row)
    requires GoodSets(sets) && |sets| < 0x8000_0000
    modifies e`log, e`disks, e.memtable, e.memtable.chain, e.btree, e.wal
    ensures DecodeRow(encoded) == Some(Assigned(u.row, sets))
    ensures !torn ==>
      e.Live() && e.OnlyNewNodes(old(e.memtable.chain)) && e.Contents() == old(e.Contents())[u.key := encoded]
    ensures torn ==> e.Torn(old(e.Contents())[u.key := encoded])
  {
    hide Engine.Live, Engine.Contents, Engine.Torn, Engine.PutDone, Engine.Valid, Engine.SmallData, Engine.Synced;
    hide DecodeRow, MemTable.Valid, Assigned, GoodSets, Fine, Recovered, Loggable;
    var row := SetAll(u.row, sets);
    AssignedRowFine(v, sets);
    ghost var cols;
    encoded, cols := EncodeRowValues(row);
    var status;
    status, torn := e.Put(u.key, encoded);
  }

  /** UPDATE table SET sets [WHERE w]: exactly the matching rows that decode change, each to its assigned
      row under its old key, and their number is reported. The program ignores what Put returns, and rightly
      so: a row whose Put reports a failed flush is stored and counted like any other. Only when a flush tears
      the tree does the model stop, at the last of the rows in done; that row is stored too. */
  method ExecUpdate(e: Engine, table: Key, sets: seq<Assign>, w: Option<Where>)
    returns (affected: nat, torn: bool, ghost done: set<Key>)
    requires e.Live() && Sane(e.Contents())
    requires GoodSets(sets) && |sets| < 0x8000_0000
    modifies e`log, e`disks, e.memtable, e.memtable.chain, e.btree, e.wal
    ensures !torn ==> e.Live() && e.OnlyNewNodes(old(e.memtable.chain))
    ensures !torn ==> Updated(old(e.Contents()), e.Contents(), UpdateKeys(old(e.Contents()), table, w), sets)
    ensures !torn ==> affected == |UpdateKeys(old(e.Contents()), table, w)|
    ensures done <= UpdateKeys(old(e.Contents()), table, w)
    ensures torn ==> exists m :: Updated(old(e.Contents()), m, done, sets) && e.Torn(m)
    ensures torn ==> affected + 1 == |done|
  {
    hide Engine.Live, Engine.Contents, Engine.Torn, Engine.PutDone, DecodeRow, InTable, MemTable.Valid, Assigned;
    hide Updated, GoodSets, Fine, UpdateKeys;
    ghost var m := e.Contents();
    var updates;
    ghost var c;
    updates, c := CollectRows(e, table, w);
    affected, torn, done := 0, false, {};
    UpdatedNone(m, sets);
    assert SetOf(c[..0]) == {};
    for i := 0 to |updates|
      invariant e.Live() && e.OnlyNewNodes(old(e.memtable.chain)) && affected == i && !torn
      invariant done == SetOf(c[..i]) && Updated(m, e.Contents(), done, sets)
    {
      assert forall j :: 0 <= j < |e.memtable.chain| ==> e.memtable.chain[j] in e.memtable.chain;
      var u := updates[i];
      ghost var before := e.Contents();
      assert u.key == c[i] && u.key in m;
      var encoded;
      encoded, torn := PutRow(e, u, sets, m[u.key]);
      UpdatedStep(m, before, done, sets, u.key, encoded);
      OneMoreKey(c, i);
      done := done + {u.key};
      if torn {
        assert Updated(m, before[u.key := encoded], done, sets) && e.Torn(before[u.key := encoded]);
        return;
      }
      affected := affected + 1;
    }
    assert c[..|c|] == c;
  }

  lemma OneMoreKey(c: seq<Key>, i: nat)
    requires Distinct(c) && i < |c|
    ensures SetOf(c[..i + 1]) == SetOf(c[..i]) + {c[i]} && |SetOf(c[..i + 1])| == i + 1
    ensures SetOf(c[..i + 1]) <= SetOf(c)
  {
    var d := c[..i + 1];
    assert d[..i] == c[..i];
    assert forall j :: 0 <= j < |d| ==> d[j] == c[j];
    CountDistinct(d);
  }

  lemma UpdatedNone(m: map<Key, Val>, sets: seq<Assign>)
    ensures Updated(m, m, {}, sets)
  {
  }

  lemma AssignedRowFine(v: Val, sets: seq<Assign>)
    requires |v| < 0x8000_0000 && GoodSets(sets) && |sets| < 0x8000_0000 && DecodeRow(v).Some?
    ensures Fine(Semi(Assigned(DecodeRow(v).value, sets)))
  {
    DecodedRowFine(v);
    AssignedFine(DecodeRow(v).value, sets);
  }

  // ---------------------------------------------------------------------------------------------
  // INSERT

  datatype Column = Column(name: Key, typ: byte, primaryKey: bool)

  datatype Schema = Schema(name: Key, columns: seq<Column>)

  datatype InsertError =
    WrongCount | UnknownColumn(column: Key) | WrongType(column: Key) | NoPrimaryKey | PutFailed(status: Status)

  datatype Inserted = Inserted(row: map<Key, Value>) | Refused(error: InsertError)

  function TypeOf(v: Value): byte {
    match v
    case Null => TYPE_NULL
    case Int(_) => TYPE_INT
    case Float(_) => TYPE_FLOAT
    case Text(_) => TYPE_TEXT
    case Bool(_) => TYPE_BOOL
    case Bytes(_) => TYPE_BYTES
    case Semi(_) => TYPE_SEMI
  }

  /** ColByName: the first column of that name. */
  function ColByName(cols: seq<Column>, name: Key): (r: Option<Column>)
    ensures r == None <==> forall i :: 0 <= i < |cols| ==> cols[i].name != name
    ensures r.Some? ==> exists i :: FirstNamed(cols, i, name, r.value)
  {
    if cols == [] then None
    else if cols[0].name == name then
      assert FirstNamed(cols, 0, name, cols[0]);
      Some(cols[0])
    else
      var r := ColByName(cols[1..], name);
      assert forall i {:trigger FirstNamed(cols[1..], i, name, r.value)} ::
          r.Some? && FirstNamed(cols[1..], i, name, r.value) ==> FirstNamed(cols, i + 1, name, r.value);
      r
  }

  ghost predicate FirstNamed(cols: seq<Column>, i: int, name: Key, c: Column) {
    0 <= i < |cols| && cols[i] == c && c.name == name && forall j :: 0 <= j < i ==> cols[j].name != name
  }

  /** NULL goes into any column, anything goes into a SEMI column, an integer into a FLOAT column. */
  predicate Accepts(c: Column, v: Value) {
    v.Null? || c.typ == TYPE_SEMI || TypeOf(v) == c.typ || (c.typ == TYPE_FLOAT && v.Int?)
  }

  /** What a column of each type takes. */
  lemma AcceptsIff(c: Column, v: Value)
    ensures c.typ == 1 ==> (Accepts(c, v) <==> v.Null? || v.Int?)
    ensures c.typ == 2 ==> (Accepts(c, v) <==> v.Null? || v.Float? || v.Int?)
    ensures c.typ == 3 ==> (Accepts(c, v) <==> v.Null? || v.Text?)
    ensures c.typ == 4 ==> (Accepts(c, v) <==> v.Null? || v.Bool?)
    ensures c.typ == 5 ==> (Accepts(c, v) <==> v.Null? || v.Bytes?)
    ensures c.typ == 6 ==> Accepts(c, v)
  {
  }

  /** The source keeps exactly one primary-key column per table. */
  ghost predicate GoodSchema(s: Schema) {
    exists i :: 0 <= i < |s.columns| && IsKeyColumn(s, i)
  }

  ghost predicate IsKeyColumn(s: Schema, i: int)
    requires 0 <= i < |s.columns|
  {
    s.columns[i].primaryKey && forall j :: 0 <= j < |s.columns| && s.columns[j].primaryKey ==> j == i
  }

  /** The name of the primary-key column. */
  ghost function KeyColumn(s: Schema): Key
    requires GoodSchema(s)
  {
    var i :| 0 <= i < |s.columns| && IsKeyColumn(s, i);
    s.columns[i].name
  }

  /** The first column with the flag. */
  method PrimaryKeyCol(s: Schema) returns (c: Column)
    requires GoodSchema(s)
    ensures c in s.columns && c.primaryKey && c.name == KeyColumn(s)
  {
    ghost var k :| 0 <= k < |s.columns| && IsKeyColumn(s, k);
    for i := 0 to |s.columns|
      invariant i <= k
    {
      if s.columns[i].primaryKey {
        return s.columns[i];
      }
    }
    assert false;
  }

  predicate ColumnOk(s: Schema, name: Key, v: Value) {
    ColByName(s.columns, name).Some? && Accepts(ColByName(s.columns, name).value, v)
  }

  /** The columns an INSERT names, or all of them in their order. */
  function ColumnsOf(s: Schema, cols: seq<Key>): seq<Key> {
    if |cols| == 0 then seq(|s.columns|, i requires 0 <= i < |s.columns| => s.columns[i].name) else cols
  }

  function Zip(cols: seq<Key>, values: seq<Value>): seq<Assign>
    requires |cols| == |values|
  {
    seq(|cols|, i requires 0 <= i < |cols| => Assign(cols[i], values[i]))
  }

  ghost predicate AllOk(s: Schema, cols: seq<Key>, values: seq<Value>) {
    |cols| == |values| && forall i :: 0 <= i < |cols| ==> ColumnOk(s, cols[i], values[i])
  }

  /** error is the complaint about the first offending column. */
  ghost predicate FirstWrong(s: Schema, cols: seq<Key>, values: seq<Value>, error: InsertError) {
    |cols| == |values| && exists i :: 0 <= i < |cols| && WrongAt(s, cols, values, error, i)
  }

  ghost predicate WrongAt(s: Schema, cols: seq<Key>, values: seq<Value>, error: InsertError, i: int)
    requires |cols| == |values| && 0 <= i < |cols|
  {
    && !ColumnOk(s, cols[i], values[i]) && AllOk(s, cols[..i], values[..i])
    && error == if ColByName(s.columns, cols[i]).None? then UnknownColumn(cols[i]) else WrongType(cols[i])
  }

  /** The loop of execInsert: checks each column and value and sets it in the new row. */
  method BuildRow(s: Schema, cols: seq<Key>, values: seq<Value>) returns (r: Inserted)
    requires |cols| == |values|
    ensures r.Inserted? ==> AllOk(s, cols, values) && r.row == Assigned(map[], Zip(cols, values))
    ensures r.Refused? ==> (r.error.UnknownColumn? || r.error.WrongType?) && FirstWrong(s, cols, values, r.error)
    ensures r.Inserted? <==> AllOk(s, cols, values)
  {
    hide ColByName, Accepts, Assigned;
    SetNothing();
    var row: map<Key, Value> := map[];
    ghost var sets := Zip(cols, values);
    for i := 0 to |cols|
      invariant AllOk(s, cols[..i], values[..i])
      invariant row == Assigned(map[], sets[..i])
    {
      var c := ColByName(s.columns, cols[i]);
      if c.None? {
        assert WrongAt(s, cols, values, UnknownColumn(cols[i]), i);
        return Refused(UnknownColumn(cols[i]));
      }
      if !Accepts(c.value, values[i]) {
        assert WrongAt(s, cols, values, WrongType(cols[i]), i);
        return Refused(WrongType(cols[i]));
      }
      SetOne(sets, i);
      row := row[cols[i] := values[i]];
    }
    assert cols[..|cols|] == cols && values[..|values|] == values && sets[..|sets|] == sets;
    return Inserted(row);
  }

  lemma SetNothing()
    ensures Assigned(map[], []) == map[]
  {
  }

  lemma SetOne(sets: seq<Assign>, i: nat)
    requires i < |sets|
    ensures Assigned(map[], sets[..i + 1]) == Assigned(map[], sets[..i])[sets[i].column := sets[i].value]
  {
    assert sets[..i + 1][..i] == sets[..i];
  }

  /** m' is m with the row stored under its key. */
  ghost predicate Stored(m: map<Key, Val>, m': map<Key, Val>, s: Schema, row: map<Key, Value>, pk: Ordered) {
    exists v :: m' == m[RowKey(s.name, pk) := v] && DecodeRow(v) == Some(row)
  }

  /** pk is the row's primary key, with an order for the maps in it if there are any. */
  ghost predicate IsPrimaryKey(s: Schema, row: map<Key, Value>, pk: Ordered)
    requires GoodSchema(s)
  {
    KeyColumn(s) in row && Good(pk) && Denote(pk) == row[KeyColumn(s)]
  }

  /** m' is m with the row that the columns and values spell stored under its primary key. */
  ghost predicate StoredFor(m: map<Key, Val>, m': map<Key, Val>, s: Schema, cols: seq<Key>, values: seq<Value>,
                            pk: Ordered)
    requires GoodSchema(s)
  {
    |cols| == |values|
    && var row := Assigned(map[], Zip(cols, values)); IsPrimaryKey(s, row, pk) && Stored(m, m', s, row, pk)
  }

  /** The second half of execInsert: the key, the encoded row, the put. */
  method StoreRow(e: Engine, s: Schema, row: map<Key, Value>) returns (r: Inserted, torn: bool, ghost pk: Ordered)
    requires e.Live() && GoodSchema(s) && Fine(Semi(row))
    modifies e`log, e`disks, e.memtable, e.memtable.chain, e.btree, e.wal
    ensures r.Inserted? ==>
      && r.row == row && IsPrimaryKey(s, row, pk)
      && e.Live() && e.OnlyNewNodes(old(e.memtable.chain)) && Stored(old(e.Contents()), e.Contents(), s, row, pk)
    ensures r.Refused? ==>
      r.error == NoPrimaryKey || r.error == PutFailed(KeyTooLarge) || r.error == PutFailed(FlushFailed)
    ensures r.Refused? && r.error != PutFailed(FlushFailed) ==> e.Live() && e.Contents() == old(e.Contents())
    ensures r == Refused(PutFailed(FlushFailed)) && !torn ==>
      e.Live() && IsPrimaryKey(s, row, pk) && Stored(old(e.Contents()), e.Contents(), s, row, pk)
    ensures torn ==> r == Refused(PutFailed(FlushFailed)) && IsPrimaryKey(s, row, pk)
    ensures torn ==> exists m :: Stored(old(e.Contents()), m, s, row, pk) && e.Torn(m)
    ensures r == Refused(NoPrimaryKey) <==> KeyColumn(s) !in row
  {
    hide Engine.Live, Engine.Contents, Engine.Torn, Engine.PutDone, DecodeRow, MemTable.Valid, Fine, Good, Denote;
    hide Encode;
    pk, torn := ONull, false;
    var c := PrimaryKeyCol(s);
    if c.name !in row {
      return Refused(NoPrimaryKey), false, pk;
    }
    FineAt(row, c.name);
    var keyBytes;
    keyBytes, pk := EncodeValue(row[c.name]);
    var value;
    ghost var order;
    value, order := EncodeRowValues(row);
    var status;
    ghost var m := e.Contents();
    status, torn := e.Put(s.name + [COLON] + keyBytes, value);
    assert Stored(m, m[s.name + [COLON] + keyBytes := value], s, row, pk);
    r := if status == Done then Inserted(row) else Refused(PutFailed(status));
  }

  /** INSERT INTO s (cols) VALUES (values): one row under its primary key, replacing any row with that key. An
      INSERT that reports a failed flush has stored its row all the same. */
  method ExecInsert(e: Engine, s: Schema, cols: seq<Key>, values: seq<Value>)
    returns (r: Inserted, torn: bool, ghost pk: Ordered)
    requires e.Live() && GoodSchema(s)
    requires forall i :: 0 <= i < |values| ==> Fine(values[i])
    requires forall i :: 0 <= i < |ColumnsOf(s, cols)| ==> |ColumnsOf(s, cols)[i]| < 0x1_0000_0000
    requires |ColumnsOf(s, cols)| < 0x1_0000_0000
    modifies e`log, e`disks, e.memtable, e.memtable.chain, e.btree, e.wal
    ensures r.Inserted? ==>
      && AllOk(s, ColumnsOf(s, cols), values) && r.row == Assigned(map[], Zip(ColumnsOf(s, cols), values))
      && IsPrimaryKey(s, r.row, pk)
      && e.Live() && e.OnlyNewNodes(old(e.memtable.chain)) && Stored(old(e.Contents()), e.Contents(), s, r.row, pk)
    ensures r.Inserted? && cols == [] && NamesDiffer(s) ==>
      && |values| == |s.columns|
      && forall i :: 0 <= i < |values| ==> s.columns[i].name in r.row && r.row[s.columns[i].name] == values[i]
    ensures r.Inserted? && cols != [] && Distinct(cols) ==>
      |values| == |cols| && forall i :: 0 <= i < |values| ==> cols[i] in r.row && r.row[cols[i]] == values[i]
    ensures r.Inserted? ==> forall c :: c in r.row ==>
      if cols == [] then exists i :: 0 <= i < |s.columns| && s.columns[i].name == c else c in cols
    ensures r.Refused? && r.error != PutFailed(FlushFailed) ==> e.Live() && e.Contents() == old(e.Contents())
    ensures r == Refused(PutFailed(FlushFailed)) && !torn ==>
      e.Live() && StoredFor(old(e.Contents()), e.Contents(), s, ColumnsOf(s, cols), values, pk)
    ensures torn ==> r == Refused(PutFailed(FlushFailed))
    ensures torn ==>
      exists m :: StoredFor(old(e.Contents()), m, s, ColumnsOf(s, cols), values, pk) && e.Torn(m)
    ensures r == Refused(WrongCount) <==> |ColumnsOf(s, cols)| != |values|
    ensures r.Refused? && (r.error.UnknownColumn? || r.error.WrongType?) ==>
      FirstWrong(s, ColumnsOf(s, cols), values, r.error)
    ensures r.Refused? && (r.error.NoPrimaryKey? || r.error.PutFailed?) ==> AllOk(s, ColumnsOf(s, cols), values)
    ensures r == Refused(NoPrimaryKey) <==>
      |ColumnsOf(s, cols)| == |values| && AllOk(s, ColumnsOf(s, cols), values) && KeyColumn(s) !in ColumnsOf(s, cols)
  {
    hide Engine.Live, Engine.Contents, MemTable.Valid, Assigned, Fine, FirstWrong, AllOk, Stored, IsPrimaryKey, Zip;
    hide ColumnsOf;
    hide GoodSchema, Engine.Torn;
    pk, torn := ONull, false;
    var names := ColumnsOf(s, cols);
    if |names| != |values| {
      return Refused(WrongCount), false, pk;
    }
    r := BuildRow(s, names, values);
    if r.Refused? {
      return;
    }
    ZipRow(names, values);
    RowOf(s, cols, values);
    ghost var row, before := r.row, e.Contents();
    r, torn, pk := StoreRow(e, s, r.row);
    if torn {
      ghost var m :| Stored(before, m, s, row, pk) && e.Torn(m);
      assert StoredFor(before, m, s, names, values, pk);
    }
  }

  ghost predicate NamesDiffer(s: Schema) {
    forall i, j :: 0 <= i < j < |s.columns| ==> s.columns[i].name != s.columns[j].name
  }

  /** What the row of an INSERT says about its columns, named or not. */
  lemma RowOf(s: Schema, cols: seq<Key>, values: seq<Value>)
    requires |ColumnsOf(s, cols)| == |values| < 0x1_0000_0000
    ensures var row := Assigned(map[], Zip(ColumnsOf(s, cols), values));
      && (cols == [] && NamesDiffer(s) ==>
            |values| == |s.columns|
            && forall i :: 0 <= i < |values| ==> s.columns[i].name in row && row[s.columns[i].name] == values[i])
      && (cols != [] && Distinct(cols) ==>
            |values| == |cols| && forall i :: 0 <= i < |values| ==> cols[i] in row && row[cols[i]] == values[i])
      && (forall c :: c in row ==>
            if cols == [] then exists i :: 0 <= i < |s.columns| && s.columns[i].name == c else c in cols)
  {
    hide Assigned;
    var names := ColumnsOf(s, cols);
    var sets := Zip(names, values);
    AssignedNames(map[], sets);
    assert cols == [] ==> |names| == |s.columns| && forall i :: 0 <= i < |names| ==> names[i] == s.columns[i].name;
    assert cols != [] ==> names == cols;
    if Distinct(names) {
      forall i | 0 <= i < |names|
        ensures names[i] in Assigned(map[], sets) && Assigned(map[], sets)[names[i]] == values[i]
      {
        AssignedAt(map[], sets, names[i]);
        assert LastFor(sets, i, names[i]);
      }
    }
  }

  lemma FineAt(row: map<Key, Value>, k: Key)
    requires Fine(Semi(row)) && k in row
    ensures Fine(row[k])
  {
  }

  lemma ZipRow(cols: seq<Key>, values: seq<Value>)
    requires |cols| == |values| < 0x1_0000_0000
    requires forall i :: 0 <= i < |values| ==> Fine(values[i]) && |cols[i]| < 0x1_0000_0000
    ensures Fine(Semi(Assigned(map[], Zip(cols, values))))
    ensures forall c :: c in Assigned(map[], Zip(cols, values)) <==> c in cols
  {
    var sets := Zip(cols, values);
    AssignedFine(map[], sets);
    AssignedNames(map[], sets);
    forall c
      ensures c in cols <==> exists i :: 0 <= i < |sets| && sets[i].column == c
    {
      assert forall i :: 0 <= i < |sets| ==> sets[i].column == cols[i];
      if c in cols {
        var i :| 0 <= i < |cols| && cols[i] == c;
        assert sets[i].column == c;
      }
    }
  }

  lemma {:induction false} AssignedNames(row: map<Key, Value>, sets: seq<Assign>)
    ensures forall c :: c in Assigned(row, sets) <==> c in row || exists i :: 0 <= i < |sets| && sets[i].column == c
  {
    if sets != [] {
      var n := |sets| - 1;
      var init := sets[..n];
      AssignedNames(row, init);
      forall c
        ensures c in Assigned(row, sets) <==> c in row || exists i :: 0 <= i < |sets| && sets[i].column == c
      {
        if i: int :| 0 <= i < |init| && init[i].column == c {
          assert sets[i].column == c;
        }
        if i: int :| 0 <= i < |sets| && sets[i].column == c && i < n {
          assert init[i].column == c;
        }
      }
    }
  }

  // ---------------------------------------------------------------------------------------------
  // Tables and keys

  /** What is stored in a table's key space. */
  ghost function Rows(m: map<Key, Val>, table: Key): map<Key, Val> {
    map k | k in m && InTable(k, table) :: m[k]
  }

  lemma KeyInOwnTable(table: Key, pk: Ordered)
    ensures InTable(RowKey(table, pk), table)
  {
    assert RowKey(table, pk)[..|table| + 1] == table + [COLON];
  }

  /** The part of a table name before its first colon. */
  function FirstPart(t: Key): (p: Key)
    ensures COLON !in p && (COLON !in t ==> p == t)
    ensures COLON in t ==> |p| < |t| && t[..|p|] == p && t[|p|] == COLON
  {
    if t == [] || t[0] == COLON then [] else [t[0]] + FirstPart(t[1..])
  }

  /** A row's key lies in the key space of a table without a colon in its name exactly when that table is
      the row's own, or the row's table is named like it with a colon and something after. */
  lemma InTableIff(t1: Key, t2: Key, pk: Ordered)
    requires COLON !in t1
    ensures InTable(RowKey(t2, pk), t1) <==> FirstPart(t2) == t1
  {
    var k, p := RowKey(t2, pk), FirstPart(t2);
    hide Encode;
    EncodedSize(pk);
    assert forall i :: 0 <= i < |p| ==> k[i] == p[i];
    assert k[|p|] == COLON;
    if InTable(k, t1) {
      assert t1 + [COLON] + k[|t1| + 1..] == k == p + [COLON] + k[|p| + 1..];
      TableOfKey(t1, k[|t1| + 1..], p, k[|p| + 1..]);
    }
    if p == t1 {
      assert k[..|t1| + 1] == t1 + [COLON];
    }
  }

  lemma EncodedSize(o: Ordered)
    ensures |Encode(o)| > 0
  {
  }

  /** Tables whose names have no colon share no key. */
  lemma TablesApart(k: Key, t1: Key, t2: Key)
    requires COLON !in t1 && COLON !in t2 && InTable(k, t1) && InTable(k, t2)
    ensures t1 == t2
  {
    assert t1 + [COLON] + k[|t1| + 1..] == k == t2 + [COLON] + k[|t2| + 1..];
    TableOfKey(t1, k[|t1| + 1..], t2, k[|t2| + 1..]);
  }

  /** A statement on one table leaves every other table as it was; the stored schemas count as a table. */
  lemma OthersUntouched(m: map<Key, Val>, m': map<Key, Val>, t1: Key, t2: Key)
    requires COLON !in t1 && COLON !in t2 && t1 != t2
    requires forall k :: !InTable(k, t1) ==> (k in m <==> k in m') && (k in m ==> m[k] == m'[k])
    ensures Rows(m', t2) == Rows(m, t2)
  {
    hide InTable;
    forall k | InTable(k, t2)
      ensures !InTable(k, t1)
    {
      if InTable(k, t1) {
        TablesApart(k, t1, t2);
      }
    }
  }

  lemma DeleteIsolated(m: map<Key, Val>, table: Key, w: Option<Where>, other: Key)
    requires COLON !in table && COLON !in other && table != other
    ensures Rows(m - DeleteKeys(m, table, w), other) == Rows(m, other)
  {
    OthersUntouched(m, m - DeleteKeys(m, table, w), table, other);
  }

  lemma UpdateIsolated(m: map<Key, Val>, m': map<Key, Val>, table: Key, sets: seq<Assign>, w: Option<Where>, other: Key)
    requires COLON !in table && COLON !in other && table != other
    requires Updated(m, m', UpdateKeys(m, table, w), sets)
    ensures Rows(m', other) == Rows(m, other)
  {
    OthersUntouched(m, m', table, other);
  }

  lemma InsertIsolated(m: map<Key, Val>, m': map<Key, Val>, s: Schema, row: map<Key, Value>, pk: Ordered, other: Key)
    requires COLON !in s.name && COLON !in other && s.name != other && Stored(m, m', s, row, pk)
    ensures Rows(m', other) == Rows(m, other)
  {
    KeyInOwnTable(s.name, pk);
    OthersUntouched(m, m', s.name, other);
  }

  // ---------------------------------------------------------------------------------------------
  // Rows under their own keys

  /** Every row of the table lies under the key that INSERT would give it. */
  ghost predicate Keyed(m: map<Key, Val>, s: Schema)
    requires GoodSchema(s)
  {
    forall k :: k in m && InTable(k, s.name) ==> KeyedAt(k, m[k], s)
  }

  ghost predicate KeyedAt(k: Key, v: Val, s: Schema)
    requires GoodSchema(s)
  {
    DecodeRow(v).Some? ==> exists pk :: IsPrimaryKey(s, DecodeRow(v).value, pk) && k == RowKey(s.name, pk)
  }

  lemma InsertKeepsKeyed(m: map<Key, Val>, m': map<Key, Val>, s: Schema, row: map<Key, Value>, pk: Ordered)
    requires GoodSchema(s) && Keyed(m, s) && Stored(m, m', s, row, pk) && IsPrimaryKey(s, row, pk)
    ensures Keyed(m', s)
  {
    hide DecodeRow, InTable;
  }

  /** UPDATE keeps a row under its own key exactly when it leaves the row's primary key as it is; with any
      other assignment to that column the row stays under the old key. */
  lemma UpdateKeepsKeyedIff(m: map<Key, Val>, m': map<Key, Val>, s: Schema, sets: seq<Assign>, w: Option<Where>)
    requires GoodSchema(s) && COLON !in s.name && Keyed(m, s)
    requires Updated(m, m', UpdateKeys(m, s.name, w), sets)
    ensures Keyed(m', s) <==>
      forall k :: k in UpdateKeys(m, s.name, w) ==> KeepsKey(DecodeRow(m[k]).value, s, sets)
  {
    hide DecodeRow, InTable, KeepsKey, KeyedAt, Passes;
    var ks := UpdateKeys(m, s.name, w);
    forall k | k in m && InTable(k, s.name)
      ensures KeyedAt(k, m'[k], s) <==> (k in ks ==> KeepsKey(DecodeRow(m[k]).value, s, sets))
    {
      assert UpdatedAt(m[k], m'[k], k in ks, sets);
      if k in ks {
        KeptIff(k, m[k], m'[k], s, sets);
      }
    }
  }

  ghost predicate KeepsKey(row: map<Key, Value>, s: Schema, sets: seq<Assign>)
    requires GoodSchema(s)
  {
    var c := KeyColumn(s);
    c in row && c in Assigned(row, sets) && Assigned(row, sets)[c] == row[c]
  }

  lemma KeptIff(k: Key, v: Val, v': Val, s: Schema, sets: seq<Assign>)
    requires GoodSchema(s) && COLON !in s.name && DecodeRow(v).Some? && KeyedAt(k, v, s)
    requires DecodeRow(v') == Some(Assigned(DecodeRow(v).value, sets))
    ensures KeyedAt(k, v', s) <==> KeepsKey(DecodeRow(v).value, s, sets)
  {
    hide DecodeRow, Assigned, Good, Denote;
    var row, row' := DecodeRow(v).value, DecodeRow(v').value;
    var pk :| IsPrimaryKey(s, row, pk) && k == RowKey(s.name, pk);
    if KeyedAt(k, v', s) {
      var pk' :| IsPrimaryKey(s, row', pk') && k == RowKey(s.name, pk');
      RowKeysDiffer(s.name, pk, s.name, pk');
    }
    if KeepsKey(row, s, sets) {
      assert IsPrimaryKey(s, row', pk);
    }
  }

  /** Asking for a just inserted primary key finds that row and no other, if rows lie under their own keys
      and the key is an integer, a text, a boolean or NULL. (A float will not do: its condition also passes
      for the other zero and for NaN.) */
  lemma InsertedIsFound(m: map<Key, Val>, m': map<Key, Val>, s: Schema, row: map<Key, Value>, pk: Ordered)
    requires GoodSchema(s) && Keyed(m, s) && Stored(m, m', s, row, pk) && IsPrimaryKey(s, row, pk)
    requires HasPlace(Denote(pk)) && !pk.OFloat?
    ensures UpdateKeys(m', s.name, Some(Where.Leaf(KeyColumn(s), Eq, Denote(pk)))) == {RowKey(s.name, pk)}
  {
    hide InTable, Good, Encode, Passes, DecodeRow, KeyedAt;
    var w := Where.Leaf(KeyColumn(s), Eq, Denote(pk));
    var key := RowKey(s.name, pk);
    KeyInOwnTable(s.name, pk);
    InsertKeepsKeyed(m, m', s, row, pk);
    EqPasses(row, w.column, w.value);
    var hits := UpdateKeys(m', s.name, Some(w));
    assert key in hits;
    forall k | k in hits
      ensures k == key
    {
      OneKey(k, m'[k], s, pk);
    }
  }

  lemma OneKey(k: Key, v: Val, s: Schema, pk: Ordered)
    requires GoodSchema(s) && KeyedAt(k, v, s) && DecodeRow(v).Some? && HasPlace(Denote(pk)) && !pk.OFloat?
    requires Passes(Where.Leaf(KeyColumn(s), Eq, Denote(pk)), DecodeRow(v).value)
    ensures k == RowKey(s.name, pk)
  {
    hide DecodeRow, Good, RowKey, Passes;
    var row := DecodeRow(v).value;
    var pk' :| IsPrimaryKey(s, row, pk') && k == RowKey(s.name, pk');
    EqPasses(row, KeyColumn(s), Denote(pk));
    ScalarKeyUnique(s.name, pk, pk');
  }

  lemma EqPasses(row: map<Key, Value>, c: Key, v: Value)
    requires c in row && HasPlace(v) && !v.Float?
    ensures Passes(Where.Leaf(c, Eq, v), row) <==> row[c] == v
  {
    OrderLaws();
  }
}
