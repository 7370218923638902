/** Where the tree's nodes live: one to a page of the pager. What the tree does with its pages - read one, allocate
    one, flush one - done on bytes. */
module NodeStores {
  import opened Keys
  import opened Bytes
  import opened TreeModel
  import opened NodeSizes
  import opened Pages
  import opened Pagers
  import opened NodeCodec

  ghost predicate Blank(n: Node) {
    n == Leaf([], 0, 0) || n == Internal([], [])
  }

  /** The page's records say n: it is the only one, or there is none yet. */
  ghost predicate Shows(recs: seq<Rec>, n: Node) {
    || (recs == [Rec(Tag(n), NodeBytes(n), true)] && Ids(n) && Fits(n))
    || (recs == [] && Blank(n))
  }

  ghost predicate Says(d: seq<byte>, n: Node) {
    |d| == PAGE_SIZE && d[8] == TypeOf(n) && exists recs :: Holds(d, recs) && Shows(recs, n)
  }

  /** The checksum is not part of it. */
  lemma SealedSays(d: seq<byte>, n: Node)
    requires Says(d, n)
    ensures Says(Sealed(d), n)
  {
    hide Sealed, Holds, Shows;
    var recs :| Holds(d, recs) && Shows(recs, n);
    SealedHolds(d, recs);
  }

  lemma SealedHolds(d: seq<byte>, recs: seq<Rec>)
    requires Holds(d, recs)
    ensures Holds(Sealed(d), recs) && Sealed(d)[8] == d[8]
  {
    hide Sealed, HasRec;
    var s := Sealed(d);
    SealedOnce(d);
    SameFrom(d, s, 4, 6);
    SameFrom(d, s, 6, 8);
    SameFrom(d, s, 8, 9);
    assert d[8..9][0] == d[8] && s[8..9][0] == s[8];
    forall i | 0 <= i < |recs|
      ensures HasRec(s, recs, i)
    {
      SealedHasRec(d, s, recs, i);
    }
  }

  lemma SameFrom(d: seq<byte>, s: seq<byte>, i: nat, j: nat)
    requires |d| == |s| == PAGE_SIZE && d[4..] == s[4..] && 4 <= i <= j <= PAGE_SIZE
    ensures s[i..j] == d[i..j]
  {
    assert forall k :: i <= k < j ==> d[k] == d[4..][k - 4] == s[4..][k - 4] == s[k];
  }

  lemma SealedHasRec(d: seq<byte>, s: seq<byte>, recs: seq<Rec>, i: nat)
    requires |d| == |s| == PAGE_SIZE && d[4..] == s[4..] && Fit(recs) && i < |recs| && HasRec(d, recs, i)
    ensures HasRec(s, recs, i)
  {
    TotalPrefix(recs, i + 1);
    TotalStep(recs, i);
    SameFrom(d, s, HEADER_SIZE + 4 * i, HEADER_SIZE + 4 * i + 4);
    SameFrom(d, s, Start(recs, i), Start(recs, i) + Size(recs[i]));
  }

  class NodeStore {
    const pager: Pager
    /** The nodes that the pages say. */
    ghost var nodes: map<PageId, Node>

    ghost predicate Valid()
      reads this, pager, pager.cache.Values
    {
      pager.Valid() && Written(pager.Contents(), pager.file) && AllSay(pager.Contents(), nodes)
    }

    /** A new database file. */
    constructor ()
      ensures Valid() && nodes == map[] && pager.pageCount == 1 && fresh(pager) && pager.cache == map[]
    {
      pager := new Pager();
      nodes := map[];
    }

    /** A restart: the same file, an empty cache. The nodes are the ones that were written. */
    constructor Reopen(was: NodeStore)
      requires was.Valid() && was.pager.pageCount < Pow256(8)
      requires was.pager.rootPage < Pow256(8) && was.pager.walSeq < Pow256(8)
      ensures Valid() && nodes == was.nodes && fresh(pager) && pager.cache == map[]
      ensures pager.pageCount == was.pager.pageCount && pager.rootPage == was.pager.rootPage
    {
      hide Says, HeaderBytes;
      pager := new Pager.Open(was.pager.file);
      nodes := was.nodes;
      new;
      InFile(was.pager);
    }

    /** Pager.AllocatePage: the next id, with a blank node on its page. */
    method Allocate(leaf: bool) returns (id: PageId)
      requires Valid()
      modifies this`nodes, pager
      ensures Valid() && id == old(pager.pageCount) && id !in old(nodes) && id != 0
      ensures pager.pageCount == old(pager.pageCount) + 1
      ensures nodes == old(nodes)[id := if leaf then Leaf([], 0, 0) else Internal([], [])]
      ensures forall c :: c in pager.cache.Values ==> c in old(pager.cache.Values) || fresh(c)
    {
      hide Pager.Valid, Says, Holds, AllSay, Written, Pager.Contents;
      ghost var blank := if leaf then Leaf([], 0, 0) else Internal([], []);
      var p := new Page(pager.pageCount, if leaf then LEAF_TYPE else INTERNAL_TYPE);
      BlankSays(p, blank);
      ghost var contents, file := pager.Contents(), pager.file;
      pager.NoHeader();
      SameIds(contents, nodes);
      var pg := pager.AllocatePage(p.data[..]);
      id := pg.id;
      MoreSaid(contents, nodes, id, p.data[..], blank);
      MoreWritten(contents, file, pager.file, id, p.data[..]);
      nodes := nodes[id := blank];
      assert forall c :: c in pager.cache.Values ==> exists i :: i in pager.cache && pager.cache[i] == c;
    }

    /** flushLeaf and flushInternal: the page is rewritten, and its checksum set, unless the node does not fit. */
    method Flush(id: PageId, n: Node) returns (ok: bool)
      requires Valid() && id in nodes && Ids(n)
      modifies this`nodes, pager`cache, pager`file, pager.cache.Values
      ensures Valid() && (ok <==> Fits(n))
      ensures nodes == if ok then old(nodes)[id := n] else old(nodes)
    {
      hide Pager.Valid, Says, Holds, Fits, AllSay, Written, Pager.Contents;
      var p;
      p, ok := WriteNode(id, n);
      if ok {
        NodeSays(p, n);
        SealedSays(p.data[..], n);
        ghost var contents, file := pager.Contents(), pager.file;
        pager.NoHeader();
        SameIds(contents, nodes);
        var found := pager.Rewrite(id, p.data[..]);
        MoreSaid(contents, nodes, id, Sealed(p.data[..]), n);
        MoreWritten(contents, file, pager.file, id, Sealed(p.data[..]));
        nodes := nodes[id := n];
      }
    }

    /** readLeaf and readInternal. */
    method Read(id: PageId) returns (r: Option<Node>)
      requires Valid() && id != 0
      modifies pager`cache
      ensures Valid() && nodes == old(nodes)
      ensures r == if id in nodes then Some(nodes[id]) else None
    {
      hide Pager.Valid, Pager.Contents, Holds, Written, NodeBytes, Ids, Fits;
      SameIds(pager.Contents(), nodes);
      var pg := pager.ReadPage(id);
      if pg == null {
        return None;
      }
      ghost var n := nodes[id];
      ghost var recs :| Holds(pg.data, recs) && Shows(recs, n);
      var p := new Page.Load(id, pg.data, recs);
      r := ReadNode(p, n);
    }
  }

  /** What the cache and the file together contain is in the file. */
  ghost predicate Written(contents: map<nat, seq<byte>>, file: map<nat, seq<byte>>) {
    forall id :: id in contents ==> id in file && file[id] == contents[id]
  }

  ghost predicate AllSay(contents: map<nat, seq<byte>>, nodes: map<PageId, Node>) {
    contents.Keys == nodes.Keys && forall id :: id in nodes ==> Says(contents[id], nodes[id])
  }

  lemma SameIds(contents: map<nat, seq<byte>>, nodes: map<PageId, Node>)
    requires AllSay(contents, nodes)
    ensures contents.Keys == nodes.Keys
  {
  }

  /** A file that has everything is all that a restart needs. */
  lemma InFile(p: Pager)
    requires p.Valid() && Written(p.Contents(), p.file)
    ensures Whole(p.file, p.pageCount) && p.file[0] == HeaderBytes(p.pageCount, p.rootPage, p.walSeq)
    ensures p.Contents() == p.file - {0}
  {
    hide HeaderBytes;
  }

  lemma MoreSaid(contents: map<nat, seq<byte>>, nodes: map<PageId, Node>, id: PageId, bytes: seq<byte>, n: Node)
    requires AllSay(contents, nodes) && Says(bytes, n)
    ensures AllSay(contents[id := bytes], nodes[id := n])
  {
    hide Says;
  }

  lemma MoreWritten(contents: map<nat, seq<byte>>, file: map<nat, seq<byte>>, file': map<nat, seq<byte>>,
                    id: PageId, bytes: seq<byte>)
    requires Written(contents, file) && id in file' && file'[id] == bytes && 0 !in contents
    requires forall i :: i in file && i != 0 && i != id ==> i in file' && file'[i] == file[i]
    ensures Written(contents[id := bytes], file')
  {
  }

  lemma BlankSays(p: Page, n: Node)
    requires p.Valid() && p.recs == [] && Blank(n) && p.data[8] == TypeOf(n)
    ensures Says(p.data[..], n)
  {
    hide Holds;
    assert Holds(p.data[..], []) && Shows([], n);
  }

  lemma NodeSays(p: Page, n: Node)
    requires p.Valid() && p.recs == [Rec(Tag(n), NodeBytes(n), true)] && Ids(n) && Fits(n) && p.data[8] == TypeOf(n)
    ensures Says(p.data[..], n)
  {
    hide Holds;
    assert Holds(p.data[..], p.recs) && Shows(p.recs, n);
  }
}
