/** The slotted page of page.go: 4096 bytes holding a slot array that grows up and records that grow down. */
module Pages {
  import opened Keys
  import opened Bytes

  const HEADER_SIZE := 64

  /** A record, or what is left of one after Delete: the space stays taken until compaction. */
  datatype Rec = Rec(key: Key, value: Val, live: bool)

  datatype Status = Done | PageFull | KeyTooLarge

  function Size(r: Rec): nat {
    2 + |r.key| + |r.value|
  }

  function Total(rs: seq<Rec>): nat {
    if rs == [] then 0 else Total(rs[..|rs| - 1]) + Size(rs[|rs| - 1])
  }

  /** Where record i starts: records are stacked from the end of the page downwards. */
  function Start(rs: seq<Rec>, i: nat): int
    requires i < |rs|
  {
    PAGE_SIZE - Total(rs[..i + 1])
  }

  function RecBytes(r: Rec): (bs: seq<byte>)
    ensures |bs| == Size(r)
  {
    LE(|r.key|, 2) + r.key + r.value
  }

  function SlotBytes(rs: seq<Rec>, i: nat): (bs: seq<byte>)
    requires i < |rs| && Total(rs) <= PAGE_SIZE
    ensures |bs| == 4
  {
    TotalPrefix(rs, i + 1);
    if rs[i].live then LE(Start(rs, i), 2) + LE(Size(rs[i]), 2) else LE(0, 2) + LE(0, 2)
  }

  lemma {:induction false} TotalPrefix(rs: seq<Rec>, i: nat)
    requires i <= |rs|
    ensures Total(rs[..i]) <= Total(rs)
  {
    if i < |rs| {
      assert rs[..|rs| - 1][..i] == rs[..i];
      TotalPrefix(rs[..|rs| - 1], i);
    } else {
      assert rs[..i] == rs;
    }
  }

  /** The slot array ends where free space begins, and free space ends where the last record starts. */
  ghost predicate Fit(rs: seq<Rec>) {
    && HEADER_SIZE + 4 * |rs| + Total(rs) <= PAGE_SIZE
    && (forall i :: 0 <= i < |rs| ==> |rs[i].key| <= MAX_KEY_SIZE)
  }

  /** Slot i and, if it is live, its record are on the page. */
  ghost predicate HasRec(d: seq<byte>, rs: seq<Rec>, i: nat)
    requires |d| == PAGE_SIZE && Fit(rs) && i < |rs|
  {
    TotalPrefix(rs, i + 1);
    TotalStep(rs, i);
    && d[HEADER_SIZE + 4 * i..HEADER_SIZE + 4 * i + 4] == SlotBytes(rs, i)
    && (rs[i].live ==> d[Start(rs, i)..Start(rs, i) + Size(rs[i])] == RecBytes(rs[i]))
  }

  lemma TotalStep(rs: seq<Rec>, i: nat)
    requires i < |rs|
    ensures Total(rs[..i + 1]) == Total(rs[..i]) + Size(rs[i])
  {
    assert rs[..i + 1][..i] == rs[..i];
  }

  /** The page's bytes hold exactly these records. */
  ghost predicate Holds(d: seq<byte>, rs: seq<Rec>) {
    && |d| == PAGE_SIZE && Fit(rs)
    && d[4..6] == LE(|rs|, 2)
    && d[6..8] == LE(PAGE_SIZE - Total(rs), 2)
    && (forall i :: 0 <= i < |rs| ==> HasRec(d, rs, i))
  }

  function Splice(d: seq<byte>, at: nat, bs: seq<byte>): (r: seq<byte>)
    requires at + |bs| <= |d|
    ensures |r| == |d|
  {
    d[..at] + bs + d[at + |bs|..]
  }

  /** Bytes outside the spliced stretch stay as they are. */
  lemma SpliceFrame(d: seq<byte>, at: nat, bs: seq<byte>, i: nat, j: nat)
    requires at + |bs| <= |d| && i <= j <= |d|
    requires j <= at || at + |bs| <= i
    ensures Splice(d, at, bs)[i..j] == d[i..j]
  {
  }

  lemma SpliceAt(d: seq<byte>, at: nat, bs: seq<byte>)
    requires at + |bs| <= |d|
    ensures Splice(d, at, bs)[at..at + |bs|] == bs
  {
  }

  /** Insert's four writes, in order: the record at start, its slot n, and the two counters. */
  function InsertAt(d: seq<byte>, n: nat, start: nat, r: Rec): (d': seq<byte>)
    requires |d| == PAGE_SIZE && HEADER_SIZE + 4 * n + 4 <= start && start + Size(r) <= PAGE_SIZE
    ensures |d'| == PAGE_SIZE
  {
    var d1 := Splice(d, start, RecBytes(r));
    var d2 := Splice(d1, HEADER_SIZE + 4 * n, LE(start, 2) + LE(Size(r), 2));
    var d3 := Splice(d2, 4, LE(n + 1, 2));
    Splice(d3, 6, LE(start, 2))
  }

  function InsertBytes(d: seq<byte>, rs: seq<Rec>, r: Rec): (d': seq<byte>)
    requires |d| == PAGE_SIZE && Fit(rs) && Fit(rs + [r])
    ensures |d'| == PAGE_SIZE
  {
    TotalSnoc(rs, r);
    InsertAt(d, |rs|, PAGE_SIZE - Total(rs) - Size(r), r)
  }

  lemma TotalSnoc(rs: seq<Rec>, r: Rec)
    ensures Total(rs + [r]) == Total(rs) + Size(r)
  {
    assert (rs + [r])[..|rs|] == rs;
  }

  /** Insert adds one record and disturbs none. */
  lemma InsertHolds(d: seq<byte>, rs: seq<Rec>, r: Rec)
    requires Holds(d, rs) && Fit(rs + [r]) && r.live
    ensures Holds(InsertBytes(d, rs, r), rs + [r])
    ensures InsertBytes(d, rs, r)[8..HEADER_SIZE] == d[8..HEADER_SIZE]
  {
    TotalSnoc(rs, r);
    var rs' := rs + [r];
    var start := PAGE_SIZE - Total(rs) - Size(r);
    var slot := HEADER_SIZE + 4 * |rs|;
    var sb := LE(start, 2) + LE(Size(r), 2);
    var d1 := Splice(d, start, RecBytes(r));
    var d2 := Splice(d1, slot, sb);
    var d3 := Splice(d2, 4, LE(|rs| + 1, 2));
    var d4 := Splice(d3, 6, LE(start, 2));
    SpliceAt(d3, 6, LE(start, 2));
    SpliceFrame(d3, 6, LE(start, 2), 4, 6);
    SpliceAt(d2, 4, LE(|rs| + 1, 2));
    Untouched(d, rs, r, 8, HEADER_SIZE);
    forall i | 0 <= i < |rs'|
      ensures HasRec(d4, rs', i)
    {
      if i < |rs| {
        InsertKeeps(d, rs, r, i);
      } else {
        InsertNew(d, rs, r);
      }
    }
  }

  lemma InsertHoldsIf(d: seq<byte>, rs: seq<Rec>, r: Rec)
    requires Holds(d, rs) && r.live && |r.key| <= MAX_KEY_SIZE
    requires HEADER_SIZE + 4 * |rs| + Total(rs) + Size(r) + 4 <= PAGE_SIZE
    ensures Fit(rs) && Fit(rs + [r]) && Holds(InsertBytes(d, rs, r), rs + [r])
    ensures InsertBytes(d, rs, r)[8..HEADER_SIZE] == d[8..HEADER_SIZE]
  {
    TotalSnoc(rs, r);
    InsertHolds(d, rs, r);
  }

  /** What lies between the counters and the new slot, or past the new record, is untouched. */
  lemma Untouched(d: seq<byte>, rs: seq<Rec>, r: Rec, i: nat, j: nat)
    requires |d| == PAGE_SIZE && Fit(rs) && Fit(rs + [r]) && 8 <= i <= j <= PAGE_SIZE
    requires j <= HEADER_SIZE + 4 * |rs| || PAGE_SIZE - Total(rs) <= i
    ensures InsertBytes(d, rs, r)[i..j] == d[i..j]
  {
    hide LE, RecBytes, Total, Splice;
    TotalSnoc(rs, r);
    var start := PAGE_SIZE - Total(rs) - Size(r);
    var d1 := Splice(d, start, RecBytes(r));
    var d2 := Splice(d1, HEADER_SIZE + 4 * |rs|, LE(start, 2) + LE(Size(r), 2));
    var d3 := Splice(d2, 4, LE(|rs| + 1, 2));
    SpliceFrame(d, start, RecBytes(r), i, j);
    SpliceFrame(d1, HEADER_SIZE + 4 * |rs|, LE(start, 2) + LE(Size(r), 2), i, j);
    SpliceFrame(d2, 4, LE(|rs| + 1, 2), i, j);
    SpliceFrame(d3, 6, LE(start, 2), i, j);
  }

  lemma InsertKeeps(d: seq<byte>, rs: seq<Rec>, r: Rec, i: nat)
    requires Holds(d, rs) && Fit(rs + [r]) && i < |rs|
    ensures HasRec(InsertBytes(d, rs, r), rs + [r], i)
  {
    hide LE, RecBytes, Total, InsertBytes;
    var rs' := rs + [r];
    assert HasRec(d, rs, i);
    TotalSnoc(rs, r);
    assert rs'[..i + 1] == rs[..i + 1] && rs'[..i] == rs[..i];
    TotalPrefix(rs, i + 1);
    TotalStep(rs, i);
    var s := HEADER_SIZE + 4 * i;
    Untouched(d, rs, r, s, s + 4);
    Untouched(d, rs, r, Start(rs, i), Start(rs, i) + Size(rs[i]));
  }

  lemma InsertNew(d: seq<byte>, rs: seq<Rec>, r: Rec)
    requires Holds(d, rs) && Fit(rs + [r]) && r.live
    ensures HasRec(InsertBytes(d, rs, r), rs + [r], |rs|)
  {
    hide LE, RecBytes, Total, Splice;
    var rs' := rs + [r];
    TotalSnoc(rs, r);
    assert rs'[..|rs| + 1] == rs' && rs'[..|rs|] == rs;
    var start := PAGE_SIZE - Total(rs) - Size(r);
    var slot := HEADER_SIZE + 4 * |rs|;
    var sb := LE(start, 2) + LE(Size(r), 2);
    var d1 := Splice(d, start, RecBytes(r));
    var d2 := Splice(d1, slot, sb);
    var d3 := Splice(d2, 4, LE(|rs| + 1, 2));
    SpliceAt(d, start, RecBytes(r));
    SpliceFrame(d1, slot, sb, start, start + Size(r));
    SpliceAt(d1, slot, sb);
    SpliceFrame(d2, 4, LE(|rs| + 1, 2), start, start + Size(r));
    SpliceFrame(d2, 4, LE(|rs| + 1, 2), slot, slot + 4);
    SpliceFrame(d3, 6, LE(start, 2), start, start + Size(r));
    SpliceFrame(d3, 6, LE(start, 2), slot, slot + 4);
  }

  function Dead(rs: seq<Rec>, i: nat): seq<Rec>
    requires i < |rs|
  {
    rs[i := rs[i].(live := false)]
  }

  lemma {:induction false} TotalDead(rs: seq<Rec>, i: nat, n: nat)
    requires i < |rs| && n <= |rs|
    ensures Total(Dead(rs, i)[..n]) == Total(rs[..n])
  {
    if n > 0 {
      TotalDead(rs, i, n - 1);
      TotalStep(rs, n - 1);
      TotalStep(Dead(rs, i), n - 1);
    }
  }

  /** Zeroing a slot turns its record into dead space and disturbs nothing else. */
  lemma DeleteHolds(d: seq<byte>, rs: seq<Rec>, i: nat)
    requires Holds(d, rs) && i < |rs|
    ensures Holds(Splice(d, HEADER_SIZE + 4 * i, LE(0, 2) + LE(0, 2)), Dead(rs, i))
  {
    var rs', at, z := Dead(rs, i), HEADER_SIZE + 4 * i, LE(0, 2) + LE(0, 2);
    var d' := Splice(d, at, z);
    assert rs[..|rs|] == rs && rs'[..|rs|] == rs';
    TotalDead(rs, i, |rs|);
    SpliceFrame(d, at, z, 4, 6);
    SpliceFrame(d, at, z, 6, 8);
    forall n | 0 <= n < |rs'|
      ensures HasRec(d', rs', n)
    {
      DeleteKeeps(d, rs, i, n);
    }
  }

  lemma DeleteKeeps(d: seq<byte>, rs: seq<Rec>, i: nat, n: nat)
    requires Holds(d, rs) && i < |rs| && n < |rs| && Fit(Dead(rs, i))
    ensures HasRec(Splice(d, HEADER_SIZE + 4 * i, LE(0, 2) + LE(0, 2)), Dead(rs, i), n)
  {
    hide LE, RecBytes, Total, Splice;
    var rs', at, z := Dead(rs, i), HEADER_SIZE + 4 * i, LE(0, 2) + LE(0, 2);
    assert HasRec(d, rs, n);
    TotalDead(rs, i, n + 1);
    TotalDead(rs, i, n);
    TotalPrefix(rs, n + 1);
    TotalStep(rs, n);
    SpliceAt(d, at, z);
    if n != i {
      SpliceFrame(d, at, z, HEADER_SIZE + 4 * n, HEADER_SIZE + 4 * n + 4);
      SpliceFrame(d, at, z, Start(rs, n), Start(rs, n) + Size(rs[n]));
    }
  }

  lemma SubSlice(d: seq<byte>, a: nat, b: nat, i: nat, j: nat)
    requires a <= b <= |d| && i <= j <= b - a
    ensures d[a..b][i..j] == d[a + i..a + j]
  {
    var s, t := d[a..b][i..j], d[a + i..a + j];
    assert |s| == |t|;
    forall x | 0 <= x < j - i
      ensures s[x] == t[x]
    {
      assert s[x] == d[a..b][i + x] == d[a + i + x];
    }
  }

  /** What reading slot i and the record behind it gives. */
  lemma ReadRec(d: seq<byte>, rs: seq<Rec>, i: nat)
    requires Holds(d, rs) && i < |rs|
    ensures var at := HEADER_SIZE + 4 * i; var off, len := FromLE(d[at..at + 2]), FromLE(d[at + 2..at + 4]);
      && (!rs[i].live ==> off == 0 && len == 0)
      && (rs[i].live ==>
           && off > 0 && len == Size(rs[i]) && off + len <= PAGE_SIZE
           && FromLE(d[off..off + 2]) == |rs[i].key|
           && d[off + 2..off + 2 + |rs[i].key|] == rs[i].key
           && d[off + 2 + |rs[i].key|..off + len] == rs[i].value)
  {
    hide LE, Total, FromLE, RecBytes;
    var at := HEADER_SIZE + 4 * i;
    assert HasRec(d, rs, i);
    TotalPrefix(rs, i + 1);
    TotalStep(rs, i);
    SubSlice(d, at, at + 4, 0, 2);
    SubSlice(d, at, at + 4, 2, 4);
    Pow256Values();
    if rs[i].live {
      LERoundTrip(Start(rs, i), 2);
      LERoundTrip(Size(rs[i]), 2);
      ReadFields(d, rs[i], Start(rs, i));
    } else {
      LERoundTrip(0, 2);
    }
  }

  /** Taking a record apart again. */
  lemma ReadFields(d: seq<byte>, r: Rec, off: nat)
    requires off + Size(r) <= |d| && d[off..off + Size(r)] == RecBytes(r) && |r.key| <= MAX_KEY_SIZE
    ensures FromLE(d[off..off + 2]) == |r.key|
    ensures d[off + 2..off + 2 + |r.key|] == r.key
    ensures d[off + 2 + |r.key|..off + Size(r)] == r.value
  {
    var rb, n := RecBytes(r), |r.key|;
    assert rb[0..2] == LE(n, 2) && rb[2..2 + n] == r.key && rb[2 + n..Size(r)] == r.value;
    SubSlice(d, off, off + Size(r), 0, 2);
    SubSlice(d, off, off + Size(r), 2, 2 + n);
    SubSlice(d, off, off + Size(r), 2 + n, Size(r));
    Pow256Values();
    LERoundTrip(n, 2);
  }

  /** The live records, in slot order. */
  function LiveOf(rs: seq<Rec>): seq<Rec> {
    if rs == [] then []
    else LiveOf(rs[..|rs| - 1]) + if rs[|rs| - 1].live then [rs[|rs| - 1]] else []
  }

  /** The first live record for key. */
  predicate IsFirst(rs: seq<Rec>, key: Key, i: nat) {
    i < |rs| && rs[i].live && rs[i].key == key && forall j :: 0 <= j < i ==> !(rs[j].live && rs[j].key == key)
  }

  /** There is one exactly when the key has a live record, and then only one. */
  lemma FirstOnly(rs: seq<Rec>, key: Key)
    ensures (exists i: nat :: IsFirst(rs, key, i)) <==> (exists i :: 0 <= i < |rs| && rs[i].live && rs[i].key == key)
    ensures forall i: nat, j: nat :: IsFirst(rs, key, i) && j < |rs| && rs[j].live && rs[j].key == key ==> i <= j
  {
    if i :| 0 <= i < |rs| && rs[i].live && rs[i].key == key {
      var k := FirstAt(rs, key, i);
    }
  }

  lemma {:induction false} FirstAt(rs: seq<Rec>, key: Key, i: nat) returns (k: nat)
    requires i < |rs| && rs[i].live && rs[i].key == key
    ensures IsFirst(rs, key, k)
  {
    k := i;
    if j :| 0 <= j < i && rs[j].live && rs[j].key == key {
      k := FirstAt(rs, key, j);
    }
  }

  method WriteBytes(a: array<byte>, at: nat, bs: seq<byte>)
    requires at + |bs| <= a.Length
    modifies a
    ensures a[..] == Splice(old(a[..]), at, bs)
  {
    for i := 0 to |bs|
      invariant forall x :: 0 <= x < a.Length ==>
        a[x] == if at <= x < at + i then bs[x - at] else old(a[x])
    {
      a[at + i] := bs[i];
    }
  }

  /** Page type, page id, parent id and the reserved bytes. */
  ghost predicate SameHeader(d: seq<byte>, d': seq<byte>) {
    |d| == |d'| == PAGE_SIZE && d'[8..HEADER_SIZE] == d[8..HEADER_SIZE]
  }

  lemma HeaderFieldsSame(d: seq<byte>, d': seq<byte>)
    requires SameHeader(d, d')
    ensures d'[8] == d[8] && d'[17..25] == d[17..25]
  {
    SubSlice(d, 8, HEADER_SIZE, 9, 17);
    SubSlice(d', 8, HEADER_SIZE, 9, 17);
    assert d[8..HEADER_SIZE][0] == d[8] && d'[8..HEADER_SIZE][0] == d'[8];
  }

  /** Zeros but for the free pointer, the type and the id. */
  ghost predicate ZeroAround(d: seq<byte>) {
    forall i :: 0 <= i < |d| && !(6 <= i < 17) ==> d[i] == 0
  }

  lemma AllZero(d: seq<byte>)
    requires forall i :: 0 <= i < |d| ==> d[i] == 0
    ensures ZeroAround(d)
  {
  }

  lemma ZeroWrite(d: seq<byte>, at: nat, bs: seq<byte>)
    requires ZeroAround(d) && at + |bs| <= |d| && ((6 <= at && at + |bs| <= 17) || bs == LE(0, 2))
    ensures ZeroAround(Splice(d, at, bs))
  {
    if bs == LE(0, 2) {
      assert LE(0, 1) == [0];
      assert bs == [0, 0];
    }
  }

  class Page {
    const data: array<byte>
    const pageID: nat
    var dirty: bool
    /** The records on the page, one per slot. */
    ghost var recs: seq<Rec>

    ghost predicate Valid()
      reads this, data
    {
      data.Length == PAGE_SIZE && Holds(data[..], recs)
    }

    constructor (pageID: nat, pageType: byte)
      ensures Valid() && recs == [] && fresh(data) && !dirty
      ensures data[8] == pageType && data[9..17] == LE(pageID, 8) && this.pageID == pageID && data.Length == 4096
      ensures ZeroAround(data[..])
    {
      hide ZeroAround;
      this.pageID := pageID;
      data := new byte[PAGE_SIZE](_ => 0);
      dirty := false;
      recs := [];
      new;
      ghost var d0 := data[..];
      AllZero(d0);
      WriteBytes(data, 6, LE(PAGE_SIZE, 2));
      ghost var d1 := data[..];
      WriteBytes(data, 4, LE(0, 2));
      ghost var d2 := data[..];
      WriteBytes(data, 8, [pageType]);
      ghost var d3 := data[..];
      WriteBytes(data, 9, LE(pageID, 8));
      ZeroWrite(d0, 6, LE(PAGE_SIZE, 2));
      ZeroWrite(d1, 4, LE(0, 2));
      ZeroWrite(d2, 8, [pageType]);
      ZeroWrite(d3, 9, LE(pageID, 8));
      SpliceFrame(d1, 4, LE(0, 2), 6, 8);
      SpliceFrame(d2, 8, [pageType], 4, 6);
      SpliceFrame(d2, 8, [pageType], 6, 8);
      SpliceFrame(d3, 9, LE(pageID, 8), 4, 6);
      SpliceFrame(d3, 9, LE(pageID, 8), 6, 8);
    }

    /** A page read from the file. */
    constructor Load(pageID: nat, bytes: seq<byte>, ghost rs: seq<Rec>)
      requires Holds(bytes, rs)
      ensures Valid() && recs == rs && fresh(data) && !dirty && data[..] == bytes && this.pageID == pageID
    {
      this.pageID := pageID;
      data := new byte[PAGE_SIZE](i requires 0 <= i < PAGE_SIZE => bytes[i]);
      dirty := false;
      recs := rs;
      new;
      assert data[..] == bytes;
    }

    method FreeSpace() returns (n: int)
      requires Valid()
      ensures n == 4096 - 64 - 4 * |recs| - Total(recs)
    {
      ReadCounters(data[..], recs);
      n := FromLE(data[6..8]) - (HEADER_SIZE + 4 * FromLE(data[4..6]));
    }

    method Insert(key: Key, value: Val) returns (status: Status)
      requires Valid()
      modifies this`dirty, this`recs, data
      ensures Valid()
      ensures status == if |key| > 512 then KeyTooLarge
        else if 4096 - 64 - 4 * |old(recs)| - Total(old(recs)) < 2 + |key| + |value| + 4 then PageFull
        else Done
      ensures recs == if status == Done then old(recs) + [Rec(key, value, true)] else old(recs)
      ensures SameHeader(old(data[..]), data[..])
    {
      hide Holds, LE, FromLE, Total, InsertAt, Fit;
      if |key| > MAX_KEY_SIZE {
        return KeyTooLarge;
      }
      var recordSize := 2 + |key| + |value|;
      var free := FreeSpace();
      if free < recordSize + 4 {
        return PageFull;
      }
      ghost var r := Rec(key, value, true);
      ReadCounters(data[..], recs);
      SameRead(4, 2);
      SameRead(6, 2);
      InsertHoldsIf(data[..], recs, r);
      WriteRecord(key, value, FromLE(data[4..6]), FromLE(data[6..8]) - recordSize);
      recs := recs + [r];
      dirty := true;
      status := Done;
    }

    /** The four writes of Insert: the record below the others, its slot, and the two counters. */
    method WriteRecord(key: Key, value: Val, n: nat, recordStart: nat)
      requires data.Length == PAGE_SIZE && HEADER_SIZE + 4 * n + 4 <= recordStart
      requires recordStart + 2 + |key| + |value| <= PAGE_SIZE
      modifies data
      ensures data[..] == InsertAt(old(data[..]), n, recordStart, Rec(key, value, true))
    {
      hide LE, Splice;
      var recordSize := 2 + |key| + |value|;
      WriteBytes(data, recordStart, LE(|key|, 2) + key + value);
      WriteBytes(data, HEADER_SIZE + 4 * n, LE(recordStart, 2) + LE(recordSize, 2));
      WriteBytes(data, 4, LE(n + 1, 2));
      WriteBytes(data, 6, LE(recordStart, 2));
    }

    /** Slot of the first live record for key. */
    method FindSlot(key: Key) returns (r: Option<nat>)
      requires Valid()
      ensures r.Some? ==> IsFirst(recs, key, r.value)
      ensures r.None? ==> forall i :: 0 <= i < |recs| ==> !(recs[i].live && recs[i].key == key)
    {
      ReadCounters(data[..], recs);
      var n := FromLE(data[4..6]);
      for i := 0 to n
        invariant forall j :: 0 <= j < i ==> !(recs[j].live && recs[j].key == key)
      {
        var rec := ReadSlot(i);
        if rec.Some? && rec.value.key == key {
          return Some(i);
        }
      }
      return None;
    }

    /** The record in slot i. For a zeroed slot the two bytes read as its key length are the page's own
        first bytes, and whatever they say is more than the slot's length of 0 allows. */
    method ReadSlot(i: nat) returns (r: Option<Rec>)
      requires Valid() && i < |recs|
      ensures r == if recs[i].live then Some(recs[i]) else None
    {
      hide FromLE, LE, HasRec, Total;
      ReadRec(data[..], recs, i);
      TotalPrefix(recs, i + 1);
      var at := HEADER_SIZE + 4 * i;
      SameRead(at, 2);
      SameRead(at + 2, 2);
      var off, len := FromLE(data[at..at + 2]), FromLE(data[at + 2..at + 4]);
      SameRead(off, 2);
      var kLen := FromLE(data[off..off + 2]);
      if kLen + 2 > len {
        return None;
      }
      SameRead(off + 2, kLen);
      SameRead(off + 2 + kLen, len - 2 - kLen);
      return Some(Rec(data[off + 2..off + 2 + kLen], data[off + 2 + kLen..off + len], true));
    }

    lemma SameRead(at: nat, n: nat)
      requires at + n <= data.Length
      ensures data[at..at + n] == data[..][at..at + n]
    {
    }

    method Get(key: Key) returns (r: Option<Val>)
      requires Valid()
      ensures r.Some? ==> exists i: nat :: IsFirst(recs, key, i) && r.value == recs[i].value
      ensures r.None? ==> forall i :: 0 <= i < |recs| ==> !(recs[i].live && recs[i].key == key)
    {
      var s := FindSlot(key);
      if s.None? {
        return None;
      }
      var rec := ReadSlot(s.value);
      return Some(rec.value.value);
    }

    /** Zeroes the slot of the first live record for key. */
    method Delete(key: Key) returns (found: bool)
      requires Valid()
      modifies this`dirty, this`recs, data
      ensures Valid()
      ensures found ==> exists i: nat :: IsFirst(old(recs), key, i) && recs == Dead(old(recs), i)
      ensures !found ==> recs == old(recs) && forall i :: 0 <= i < |recs| ==> !(recs[i].live && recs[i].key == key)
      ensures SameHeader(old(data[..]), data[..])
    {
      var s := FindSlot(key);
      if s.None? {
        return false;
      }
      DeleteHolds(data[..], recs, s.value);
      WriteBytes(data, HEADER_SIZE + 4 * s.value, LE(0, 2) + LE(0, 2));
      recs := Dead(recs, s.value);
      dirty := true;
      found := true;
    }

    /** The live records, in slot order. */
    method Iterate() returns (out: seq<Rec>)
      requires Valid()
      ensures out == LiveOf(recs)
    {
      ReadCounters(data[..], recs);
      var n := FromLE(data[4..6]);
      out := [];
      for i := 0 to n
        invariant out == LiveOf(recs[..i])
      {
        assert recs[..i + 1][..i] == recs[..i];
        var rec := ReadSlot(i);
        if rec.Some? {
          out := out + [rec.value];
        }
      }
      assert recs[..n] == recs;
    }

    /** Rewrites the page with its live records only: all of them fit. */
    method Compact()
      requires Valid()
      modifies this`dirty, this`recs, data
      ensures Valid() && recs == LiveOf(old(recs))
      ensures data[8] == old(data[8]) && data[17..25] == old(data[17..25])
    {
      hide Holds, LE, Total, LiveOf;
      var live := Iterate();
      LiveFits(recs);
      LiveKeys(data[..], recs);
      var page := new Page(pageID, data[8]);
      page.SetParent(data[17..25]);
      ghost var header := page.data[..];
      for i := 0 to |live|
        invariant page.Valid() && page.recs == live[..i] && fresh(page) && fresh(page.data)
        invariant SameHeader(header, page.data[..])
      {
        RoomForLive(live, i);
        var status := page.Insert(live[i].key, live[i].value);
        assert live[..i + 1] == live[..i] + [live[i]];
      }
      assert live[..|live|] == live;
      HeaderFieldsSame(header, page.data[..]);
      WriteBytes(data, 0, page.data[..]);
      assert data[..] == page.data[..];
      recs := page.recs;
      dirty := true;
    }

    method SetParent(parent: seq<byte>)
      requires Valid() && |parent| == 8
      modifies data
      ensures Valid() && data[8] == old(data[8]) && data[17..25] == parent
    {
      ParentHolds(data[..], recs, parent);
      WriteBytes(data, 17, parent);
    }
  }

  /** The header bytes past the counters are no part of the records. */
  lemma ParentHolds(d: seq<byte>, rs: seq<Rec>, parent: seq<byte>)
    requires Holds(d, rs) && |parent| == 8
    ensures Holds(Splice(d, 17, parent), rs)
  {
    var d' := Splice(d, 17, parent);
    SpliceFrame(d, 17, parent, 4, 6);
    SpliceFrame(d, 17, parent, 6, 8);
    forall i | 0 <= i < |rs|
      ensures HasRec(d', rs, i)
    {
      assert HasRec(d, rs, i);
      TotalPrefix(rs, i + 1);
      TotalStep(rs, i);
      SpliceFrame(d, 17, parent, HEADER_SIZE + 4 * i, HEADER_SIZE + 4 * i + 4);
      SpliceFrame(d, 17, parent, Start(rs, i), Start(rs, i) + Size(rs[i]));
    }
  }

  lemma LiveKeys(d: seq<byte>, rs: seq<Rec>)
    requires Holds(d, rs)
    ensures HEADER_SIZE + 4 * |LiveOf(rs)| + Total(LiveOf(rs)) <= PAGE_SIZE
    ensures forall i :: 0 <= i < |LiveOf(rs)| ==> LiveOf(rs)[i].live && |LiveOf(rs)[i].key| <= MAX_KEY_SIZE
  {
    LiveFits(rs);
    assert forall i :: 0 <= i < |LiveOf(rs)| ==> LiveOf(rs)[i] in LiveOf(rs);
  }

  lemma RoomForLive(live: seq<Rec>, i: nat)
    requires i < |live| && HEADER_SIZE + 4 * |live| + Total(live) <= PAGE_SIZE
    ensures HEADER_SIZE + 4 * i + Total(live[..i]) + Size(live[i]) + 4 <= PAGE_SIZE
  {
    TotalStep(live, i);
    TotalPrefix(live, i + 1);
  }

  /** The live records take no more room than all records, and are all live. */
  lemma {:induction false} LiveFits(rs: seq<Rec>)
    ensures |LiveOf(rs)| <= |rs| && Total(LiveOf(rs)) <= Total(rs)
    ensures forall r :: r in LiveOf(rs) ==> r in rs && r.live
  {
    if rs != [] {
      var front, last := rs[..|rs| - 1], rs[|rs| - 1];
      LiveFits(front);
      TotalSnoc(LiveOf(front), last);
      assert LiveOf(front) + [] == LiveOf(front);
    }
  }

  lemma ReadCounters(d: seq<byte>, rs: seq<Rec>)
    requires Holds(d, rs)
    ensures FromLE(d[4..6]) == |rs| && FromLE(d[6..8]) == PAGE_SIZE - Total(rs)
  {
    Pow256Values();
    LERoundTrip(|rs|, 2);
    LERoundTrip(PAGE_SIZE - Total(rs), 2);
  }
}
