/** How a tree node is written to its page and read back. */
module NodeCodec {
  import opened Keys
  import opened Bytes
  import opened TreeModel
  import opened NodeSizes
  import opened Pages

  const LEAF_TYPE: byte := 0x01
  const INTERNAL_TYPE: byte := 0x02

  /** The keys of a page's only record: "__leaf__" and "__internal__". */
  const LEAF_TAG: Key := [95, 95, 108, 101, 97, 102, 95, 95]
  const INTERNAL_TAG: Key := [95, 95, 105, 110, 116, 101, 114, 110, 97, 108, 95, 95]

  function EntryBytes(e: Entry): seq<byte> {
    LE(|e.key|, 2) + LE(|e.value|, 4) + e.key + e.value
  }

  function EntriesBytes(es: seq<Entry>): seq<byte> {
    if es == [] then [] else EntryBytes(es[0]) + EntriesBytes(es[1..])
  }

  function KeysBytes(ks: seq<Key>): seq<byte> {
    if ks == [] then [] else LE(|ks[0]|, 2) + ks[0] + KeysBytes(ks[1..])
  }

  function ChildrenBytes(cs: seq<PageId>): seq<byte> {
    if cs == [] then [] else LE(cs[0], 8) + ChildrenBytes(cs[1..])
  }

  function NodeBytes(n: Node): seq<byte> {
    match n
    case Leaf(es, next, prev) => LE(next, 8) + LE(prev, 8) + LE(|es|, 4) + EntriesBytes(es)
    case Internal(ks, cs) => LE(|ks|, 4) + KeysBytes(ks) + ChildrenBytes(cs)
  }

  /** Page ids are uint64. */
  ghost predicate Ids(n: Node) {
    match n
    case Leaf(_, next, prev) => next < Pow256(8) && prev < Pow256(8)
    case Internal(_, cs) => forall i :: 0 <= i < |cs| ==> cs[i] < Pow256(8)
  }

  lemma {:induction false} EntriesLength(es: seq<Entry>)
    ensures |EntriesBytes(es)| == EntriesSize(es)
  {
    if es != [] {
      EntriesLength(es[1..]);
    }
  }

  lemma {:induction false} KeysLength(ks: seq<Key>)
    ensures |KeysBytes(ks)| == KeysSize(ks)
  {
    if ks != [] {
      KeysLength(ks[1..]);
    }
  }

  lemma {:induction false} ChildrenLength(cs: seq<PageId>)
    ensures |ChildrenBytes(cs)| == 8 * |cs|
  {
    if cs != [] {
      ChildrenLength(cs[1..]);
    }
  }

  /** The size the capacity bound is about is the number of bytes written. */
  lemma BytesLength(n: Node)
    ensures |NodeBytes(n)| == NodeSize(n)
  {
    match n
    case Leaf(es, _, _) => EntriesLength(es);
    case Internal(ks, cs) => KeysLength(ks); ChildrenLength(cs);
  }

  lemma {:induction false} EntriesFields(es: seq<Entry>, i: nat)
    requires i < |es|
    ensures |es[i].key| + |es[i].value| + 6 <= EntriesSize(es) && 6 * |es| <= EntriesSize(es)
  {
    if i > 0 {
      EntriesFields(es[1..], i - 1);
    } else if |es| > 1 {
      EntriesFields(es[1..], 0);
    }
  }

  lemma {:induction false} KeysFields(ks: seq<Key>, i: nat)
    requires i < |ks|
    ensures |ks[i]| + 2 <= KeysSize(ks) && 2 * |ks| <= KeysSize(ks)
  {
    if i > 0 {
      KeysFields(ks[1..], i - 1);
    } else if |ks| > 1 {
      KeysFields(ks[1..], 0);
    }
  }

  /** Reads a leaf record, entry by entry, stopping where the bytes run out. */
  method ReadLeaf(data: seq<byte>, ghost n: Node) returns (r: Option<Node>)
    ensures |data| < 20 ==> r.None?
    ensures n.Leaf? && Ids(n) && Fits(n) && data == NodeBytes(n) ==> r == Some(n)
  {
    hide FromLE, LE, EntriesBytes, NodeBytes, EntriesSize, Fits;
    if |data| < 20 {
      if n.Leaf? {
        BytesLength(n);
        assert NodeSize(n) >= 20;
      }
      return None;
    }
    var next, prev, count := FromLE(data[0..8]), FromLE(data[8..16]), FromLE(data[16..20]);
    ghost var whole := n.Leaf? && Ids(n) && Fits(n) && data == NodeBytes(n);
    if whole {
      LeafHeader(n);
    }
    var entries: seq<Entry> := [];
    var off := 20;
    var i := 0;
    while i < count
      invariant i <= count && 20 <= off <= |data| && |entries| == i
      invariant whole ==> entries == n.entries[..i] && data[off..] == EntriesBytes(n.entries[i..])
    {
      if whole {
        EntryFront(n.entries, i, data, off);
      }
      if off + 6 > |data| {
        break;
      }
      var kLen, vLen := FromLE(data[off..off + 2]), FromLE(data[off + 2..off + 6]);
      off := off + 6;
      if off + kLen + vLen > |data| {
        break;
      }
      entries := entries + [Entry(data[off..off + kLen], data[off + kLen..off + kLen + vLen])];
      off := off + kLen + vLen;
      i := i + 1;
    }
    if whole {
      assert n.entries[..count] == n.entries;
    }
    r := Some(Leaf(entries, next, prev));
  }

  lemma LeafHeader(n: Node)
    requires n.Leaf? && Ids(n) && Fits(n)
    ensures var data := NodeBytes(n);
      && |data| >= 20 && FromLE(data[0..8]) == n.next && FromLE(data[8..16]) == n.prev
      && FromLE(data[16..20]) == |n.entries| && data[20..] == EntriesBytes(n.entries)
      && EntriesSize(n.entries) < 0x1_0000
  {
    CountFits(n);
    hide LE, FromLE, EntriesBytes, EntriesSize, Fits;
    var data := NodeBytes(n);
    Pow256Values();
    LERoundTrip(n.next, 8);
    LERoundTrip(n.prev, 8);
    LERoundTrip(|n.entries|, 4);
    assert data[0..8] == LE(n.next, 8) && data[8..16] == LE(n.prev, 8) && data[16..20] == LE(|n.entries|, 4);
  }

  lemma CountFits(n: Node)
    requires n.Leaf? && Fits(n)
    ensures |n.entries| < 0x1_0000 && EntriesSize(n.entries) < 0x1_0000
  {
    if n.entries != [] {
      EntriesFields(n.entries, 0);
    }
  }

  /** The next entry's bytes are at the front of what is left. */
  lemma EntryFront(es: seq<Entry>, i: nat, data: seq<byte>, off: nat)
    requires i < |es| && EntriesSize(es) < 0x1_0000 && off <= |data| && data[off..] == EntriesBytes(es[i..])
    ensures var k, v := |es[i].key|, |es[i].value|;
      && off + 6 + k + v <= |data|
      && FromLE(data[off..off + 2]) == k && FromLE(data[off + 2..off + 6]) == v
      && data[off + 6..off + 6 + k] == es[i].key && data[off + 6 + k..off + 6 + k + v] == es[i].value
      && data[off + 6 + k + v..] == EntriesBytes(es[i + 1..])
  {
    hide EntriesBytes, FromLE, LE, EntryBytes, EntriesSize;
    var e, rest := es[i], EntriesBytes(es[i + 1..]);
    var k, v, n := |e.key|, |e.value|, |data|;
    EntriesFields(es, i);
    EntriesUnfold(es, i);
    EntryFields(e, rest, data[off..]);
    SubSlice(data, off, n, 0, 2);
    SubSlice(data, off, n, 2, 6);
    SubSlice(data, off, n, 6, 6 + k);
    SubSlice(data, off, n, 6 + k, 6 + k + v);
    SubSlice(data, off, n, 6 + k + v, n - off);
    assert data[off..n] == data[off..];
  }

  lemma EntriesUnfold(es: seq<Entry>, i: nat)
    requires i < |es|
    ensures EntriesBytes(es[i..]) == EntryBytes(es[i]) + EntriesBytes(es[i + 1..])
  {
    assert es[i..][0] == es[i] && es[i..][1..] == es[i + 1..];
  }

  lemma EntryFields(e: Entry, rest: seq<byte>, tail: seq<byte>)
    requires |e.key| < 0x1_0000 && |e.value| < 0x1_0000 && tail == EntryBytes(e) + rest
    ensures var k, v := |e.key|, |e.value|;
      && 6 + k + v <= |tail| && FromLE(tail[0..2]) == k && FromLE(tail[2..6]) == v
      && tail[6..6 + k] == e.key && tail[6 + k..6 + k + v] == e.value && tail[6 + k + v..|tail|] == rest
  {
    var k, v := |e.key|, |e.value|;
    Pow256Values();
    LERoundTrip(k, 2);
    LERoundTrip(v, 4);
    hide LE, FromLE;
    assert tail[0..2] == LE(k, 2) && tail[2..6] == LE(v, 4);
  }

  /** Reads an internal record: the keys, then children as long as eight bytes are left. */
  method ReadInternal(data: seq<byte>, ghost n: Node) returns (r: Option<Node>)
    ensures |data| < 4 ==> r.None?
    ensures n.Internal? && Ids(n) && Fits(n) && data == NodeBytes(n) ==> r == Some(n)
  {
    hide FromLE, LE, KeysBytes, ChildrenBytes, NodeBytes, KeysSize, Fits;
    if |data| < 4 {
      if n.Internal? {
        BytesLength(n);
        assert NodeSize(n) >= 4;
      }
      return None;
    }
    var numKeys := FromLE(data[0..4]);
    ghost var whole := n.Internal? && Ids(n) && Fits(n) && data == NodeBytes(n);
    if whole {
      InternalHeader(n);
    }
    var keys: seq<Key> := [];
    var off, i := 4, 0;
    while i < numKeys
      invariant i <= numKeys && 4 <= off <= |data| && |keys| == i
      invariant whole ==> keys == n.keys[..i] && data[off..] == KeysBytes(n.keys[i..]) + ChildrenBytes(n.children)
    {
      if whole {
        KeyFront(n.keys, i, ChildrenBytes(n.children), data, off);
      }
      if off + 2 > |data| {
        break;
      }
      var kLen := FromLE(data[off..off + 2]);
      off := off + 2;
      if off + kLen > |data| {
        break;
      }
      keys := keys + [data[off..off + kLen]];
      off := off + kLen;
      i := i + 1;
    }
    if whole {
      assert n.keys[..numKeys] == n.keys && n.keys[numKeys..] == [] && n.children[0..] == n.children;
      NoKeys();
      assert data[off..] == ChildrenBytes(n.children[0..]);
    }
    var children: seq<PageId> := [];
    while off + 8 <= |data|
      invariant off <= |data|
      invariant whole ==> |children| <= |n.children| && children == n.children[..|children|]
      invariant whole ==> data[off..] == ChildrenBytes(n.children[|children|..])
    {
      if whole {
        ChildFront(n.children, |children|, data, off);
      }
      children := children + [FromLE(data[off..off + 8])];
      off := off + 8;
    }
    if whole {
      ChildrenLength(n.children[|children|..]);
      assert n.children[..|n.children|] == n.children;
    }
    r := Some(Internal(keys, children));
  }

  lemma NoKeys()
    ensures KeysBytes([]) == []
  {
  }

  lemma InternalHeader(n: Node)
    requires n.Internal? && Fits(n)
    ensures var data := NodeBytes(n);
      && |data| >= 4 && FromLE(data[0..4]) == |n.keys| && data[4..] == KeysBytes(n.keys) + ChildrenBytes(n.children)
      && KeysSize(n.keys) < 0x1_0000
  {
    var data := NodeBytes(n);
    Pow256Values();
    if n.keys != [] {
      KeysFields(n.keys, 0);
    }
    LERoundTrip(|n.keys|, 4);
    hide LE, FromLE;
    assert data[0..4] == LE(|n.keys|, 4);
  }

  lemma KeyFront(ks: seq<Key>, i: nat, more: seq<byte>, data: seq<byte>, off: nat)
    requires i < |ks| && KeysSize(ks) < 0x1_0000 && off <= |data| && data[off..] == KeysBytes(ks[i..]) + more
    ensures var k := |ks[i]|;
      && off + 2 + k <= |data|
      && FromLE(data[off..off + 2]) == k && data[off + 2..off + 2 + k] == ks[i]
      && data[off + 2 + k..] == KeysBytes(ks[i + 1..]) + more
  {
    hide KeysBytes, FromLE, LE, KeysSize;
    var k, n := |ks[i]|, |data|;
    KeysFields(ks, i);
    KeyFields(ks, i, more, data[off..]);
    SubSlice(data, off, n, 0, 2);
    SubSlice(data, off, n, 2, 2 + k);
    SubSlice(data, off, n, 2 + k, n - off);
    assert data[off..n] == data[off..];
  }

  lemma KeyFields(ks: seq<Key>, i: nat, more: seq<byte>, tail: seq<byte>)
    requires i < |ks| && |ks[i]| < 0x1_0000 && tail == KeysBytes(ks[i..]) + more
    ensures var k := |ks[i]|;
      && 2 + k <= |tail| && FromLE(tail[0..2]) == k && tail[2..2 + k] == ks[i]
      && tail[2 + k..|tail|] == KeysBytes(ks[i + 1..]) + more
  {
    var k := |ks[i]|;
    assert ks[i..][0] == ks[i] && ks[i..][1..] == ks[i + 1..];
    Pow256Values();
    LERoundTrip(k, 2);
    hide LE, FromLE;
    assert tail == LE(k, 2) + ks[i] + (KeysBytes(ks[i + 1..]) + more);
    assert tail[0..2] == LE(k, 2);
  }

  lemma ChildFront(cs: seq<PageId>, i: nat, data: seq<byte>, off: nat)
    requires i <= |cs| && off + 8 <= |data| && data[off..] == ChildrenBytes(cs[i..])
    requires forall j :: 0 <= j < |cs| ==> cs[j] < Pow256(8)
    ensures i < |cs| && FromLE(data[off..off + 8]) == cs[i] && data[off + 8..] == ChildrenBytes(cs[i + 1..])
  {
    var n, tail := |data|, data[off..];
    ChildrenLength(cs[i..]);
    assert cs[i..][0] == cs[i] && cs[i..][1..] == cs[i + 1..];
    LERoundTrip(cs[i], 8);
    assert tail == LE(cs[i], 8) + ChildrenBytes(cs[i + 1..]);
    hide ChildrenBytes, FromLE, LE, Pow256;
    assert tail[0..8] == LE(cs[i], 8) && tail[8..|tail|] == ChildrenBytes(cs[i + 1..]);
    SubSlice(data, off, n, 0, 8);
    SubSlice(data, off, n, 8, n - off);
    assert data[off..n] == data[off..];
  }

  function Tag(n: Node): Key {
    if n.Leaf? then LEAF_TAG else INTERNAL_TAG
  }

  lemma TagText(n: Node)
    ensures var t := if n.Leaf? then "__leaf__" else "__internal__";
      |Tag(n)| == |t| && forall i :: 0 <= i < |t| ==> Tag(n)[i] as int == t[i] as int
  {
  }

  function TypeOf(n: Node): byte {
    if n.Leaf? then LEAF_TYPE else INTERNAL_TYPE
  }

  /** writeLeaf and writeInternal: a fresh page whose only record is the node. It fails exactly when the
      node does not fit. */
  method WriteNode(id: PageId, n: Node) returns (p: Page, ok: bool)
    ensures fresh(p) && fresh(p.data) && p.Valid() && p.pageID == id
    ensures p.data[8] == TypeOf(n) == (if n.Leaf? then 0x01 else 0x02)
    ensures ok <==> Fits(n)
    ensures ok ==> p.recs == [Rec(Tag(n), NodeBytes(n), true)]
  {
    p := new Page(id, TypeOf(n));
    BytesLength(n);
    assert Total([]) == 0;
    ghost var before := p.data[..];
    var status := p.Insert(Tag(n), NodeBytes(n));
    ok := status == Done;
    HeaderFieldsSame(before, p.data[..]);
    assert [] + [Rec(Tag(n), NodeBytes(n), true)] == [Rec(Tag(n), NodeBytes(n), true)];
  }

  /** readLeafFromPage and readInternal, on the page type's tag. A page without the record is a blank node. */
  method ReadNode(p: Page, ghost n: Node) returns (r: Option<Node>)
    requires p.Valid()
    ensures p.data[8] == TypeOf(n) && p.recs == [Rec(Tag(n), NodeBytes(n), true)] && Ids(n) && Fits(n) ==> r == Some(n)
    ensures p.data[8] == LEAF_TYPE && p.recs == [] ==> r == Some(Leaf([], 0, 0))
    ensures p.data[8] == INTERNAL_TYPE && p.recs == [] ==> r == Some(Internal([], []))
  {
    if p.data[8] == LEAF_TYPE {
      var data := p.Get(LEAF_TAG);
      if data.None? {
        return Some(Leaf([], 0, 0));
      }
      r := ReadLeaf(data.value, n);
    } else if p.data[8] == INTERNAL_TYPE {
      var data := p.Get(INTERNAL_TAG);
      if data.None? {
        return Some(Internal([], []));
      }
      r := ReadInternal(data.value, n);
    } else {
      r := None;
    }
  }
}
