/** The pager of pager.go: page ids, the header page, and a cache that may drop clean pages at any time. */
module Pagers {
  import opened Keys
  import opened Bytes

  const MAGIC := 0x4B4F444544
  const CACHE_CAP := 256

  function XorAll(bs: seq<byte>): byte {
    if bs == [] then 0 else Xor(XorAll(bs[..|bs| - 1]), bs[|bs| - 1])
  }

  /** One byte is its own checksum, and the checksum of two parts is the exclusive or of theirs. */
  lemma {:induction false} XorAllParts(a: seq<byte>, b: seq<byte>)
    ensures XorAll(a + b) == Xor(XorAll(a), XorAll(b)) && (|b| == 1 ==> XorAll(b) == b[0])
  {
    hide Xor;
    if b == [] {
      assert a + b == a;
      XorZero(XorAll(a));
    } else {
      var n := |b| - 1;
      assert (a + b)[..|a| + n] == a + b[..n] && (a + b)[|a| + n] == b[n];
      XorAllParts(a, b[..n]);
      XorLaws(XorAll(a), XorAll(b[..n]), b[n]);
      XorZero(b[n]);
    }
  }

  /** WriteChecksum: bytes 4.. folded into the first four bytes of the page. */
  function Sealed(data: seq<byte>): (r: seq<byte>)
    requires |data| == PAGE_SIZE
    ensures |r| == PAGE_SIZE
  {
    LE(XorAll(data[4..]) as int, 4) + data[4..]
  }

  /** Sealing changes the checksum bytes only, and a sealed page verifies. */
  lemma SealedOnce(data: seq<byte>)
    requires |data| == PAGE_SIZE
    ensures Sealed(data)[4..] == data[4..] && Sealed(data)[..4] == [XorAll(data[4..]), 0, 0, 0]
    ensures Sealed(Sealed(data)) == Sealed(data)
  {
    assert Sealed(data)[4..] == data[4..];
    assert Sealed(data)[..4] == LE(XorAll(data[4..]) as int, 4);
    OneByteLE(XorAll(data[4..]));
  }

  lemma OneByteLE(b: byte)
    ensures LE(b as int, 4) == [b, 0, 0, 0]
  {
    assert LE(0, 3) == [0, 0, 0] by {
      assert LE(0, 1) == [0] && LE(0, 2) == [0, 0];
    }
  }

  /** The header page: magic, page count, root page and WAL sequence, eight bytes each. */
  function HeaderBytes(pageCount: nat, rootPage: nat, walSeq: nat): (h: seq<byte>)
    ensures |h| == PAGE_SIZE
  {
    LE(MAGIC, 8) + LE(pageCount, 8) + LE(rootPage, 8) + LE(walSeq, 8) + seq(PAGE_SIZE - 32, _ => 0)
  }

  lemma HeaderRoundTrip(pageCount: nat, rootPage: nat, walSeq: nat)
    requires pageCount < Pow256(8) && rootPage < Pow256(8) && walSeq < Pow256(8)
    ensures var h := HeaderBytes(pageCount, rootPage, walSeq);
      && FromLE(h[0..8]) == 0x4B4F444544 && FromLE(h[8..16]) == pageCount
      && FromLE(h[16..24]) == rootPage && FromLE(h[24..32]) == walSeq
  {
    hide LE, FromLE, Pow256;
    var h := HeaderBytes(pageCount, rootPage, walSeq);
    Pow256Values();
    LERoundTrip(MAGIC, 8);
    LERoundTrip(pageCount, 8);
    LERoundTrip(rootPage, 8);
    LERoundTrip(walSeq, 8);
    assert h[0..8] == LE(MAGIC, 8) && h[8..16] == LE(pageCount, 8);
    assert h[16..24] == LE(rootPage, 8) && h[24..32] == LE(walSeq, 8);
  }

  class CachedPage {
    const id: nat
    var data: seq<byte>
    var dirty: bool

    constructor (id: nat, data: seq<byte>)
      ensures this.id == id && this.data == data && !dirty
    {
      this.id, this.data, dirty := id, data, false;
    }
  }

  /** With 256 pages in the cache one clean one went to make room, if there was one; else none did. */
  ghost predicate Evicts(was: map<nat, CachedPage>, now: set<nat>, added: nat)
    reads was.Values
  {
    if |was| < 256 || forall id :: id in was ==> was[id].dirty then now == was.Keys + {added}
    else exists id :: id in was && !was[id].dirty && now == was.Keys - {id} + {added}
  }

  lemma EvictsAll(was: map<nat, CachedPage>, gone: Option<nat>, added: nat)
    requires gone == None ==> |was| < CACHE_CAP || forall id :: id in was ==> was[id].dirty
    requires gone.Some? ==> |was| >= CACHE_CAP && gone.value in was && !was[gone.value].dirty
    ensures Evicts(was, (if gone.Some? then was.Keys - {gone.value} else was.Keys) + {added}, added)
  {
  }

  /** The file has count pages. */
  ghost predicate Whole(file: map<nat, seq<byte>>, count: nat) {
    count >= 1 && (forall id: nat :: id in file <==> id < count) && forall id :: id in file ==> |file[id]| == PAGE_SIZE
  }

  class Pager {
    /** The file, page by page. */
    var file: map<nat, seq<byte>>
    var pageCount: nat
    var rootPage: nat
    var walSeq: nat
    var cache: map<nat, CachedPage>

    ghost predicate Valid()
      reads this, cache.Values
    {
      && pageCount >= 1
      && (forall id: nat :: id in file <==> id < pageCount)
      && (forall id :: id in file ==> |file[id]| == PAGE_SIZE)
      && file[0] == HeaderBytes(pageCount, rootPage, walSeq)
      && (forall id :: id in cache ==> CacheOk(id))
    }

    /** A cached page is a page of the file, and the file has its bytes unless it is dirty. */
    ghost predicate CacheOk(id: nat)
      requires id in cache
      reads this, cache.Values
    {
      && cache[id].id == id && 0 < id < pageCount
      && |cache[id].data| == PAGE_SIZE
      && id in file && (!cache[id].dirty ==> cache[id].data == file[id])
    }

    /** What each data page contains, wherever it is kept. */
    ghost function Contents(): map<nat, seq<byte>>
      reads this, cache.Values
    {
      map id | id in file && id != 0 :: if id in cache then cache[id].data else file[id]
    }

    lemma NoHeader()
      ensures 0 !in Contents()
    {
    }

    /** A new database file: just the header page. */
    constructor ()
      ensures Valid() && Contents() == map[] && pageCount == 1 && rootPage == 0 && cache == map[]
    {
      file := map[0 := HeaderBytes(1, 0, 0)];
      pageCount, rootPage, walSeq := 1, 0, 0;
      cache := map[];
    }

    /** Opens an existing file: the counters come from its header page. */
    constructor Open(file: map<nat, seq<byte>>)
      requires 0 in file && |file[0]| == PAGE_SIZE
      ensures this.file == file && cache == map[]
      ensures forall c: nat, r: nat, w: nat
        | c < Pow256(8) && r < Pow256(8) && w < Pow256(8) && file[0] == HeaderBytes(c, r, w) ::
        && pageCount == c && rootPage == r && walSeq == w
        && (Whole(file, c) ==> Valid() && Contents() == file - {0})
    {
      this.file := file;
      var h := file[0];
      pageCount, rootPage, walSeq := FromLE(h[8..16]), FromLE(h[16..24]), FromLE(h[24..32]);
      cache := map[];
      new;
      hide HeaderBytes, FromLE, Whole, Valid, Contents;
      forall c: nat, r: nat, w: nat | c < Pow256(8) && r < Pow256(8) && w < Pow256(8) && h == HeaderBytes(c, r, w)
        ensures pageCount == c && rootPage == r && walSeq == w
        ensures Whole(file, c) ==> Valid() && Contents() == file - {0}
      {
        HeaderRoundTrip(c, r, w);
        if Whole(file, c) {
          Opened();
        }
      }
    }

    lemma Opened()
      requires Whole(file, pageCount) && file[0] == HeaderBytes(pageCount, rootPage, walSeq) && cache == map[]
      ensures Valid() && Contents() == file - {0}
    {
      hide HeaderBytes;
    }

    /** PageCache.put: at capacity some clean page goes, whichever the map iteration meets first. */
    method CachePut(pg: CachedPage)
      requires Valid() && 0 < pg.id < pageCount && !pg.dirty && pg.data == file[pg.id]
      requires pg.id in cache ==> cache[pg.id].data == pg.data
      modifies this`cache
      ensures Valid() && Contents() == old(Contents())
      ensures pg.id in cache && cache[pg.id] == pg
      ensures forall id :: id in old(cache) && old(cache)[id].dirty && id != pg.id ==> id in cache
      ensures forall id :: id in cache && id != pg.id ==> id in old(cache) && cache[id] == old(cache)[id]
      ensures Evicts(old(cache), cache.Keys, pg.id)
    {
      hide HeaderBytes, Pager.CacheOk, Pager.Contents, Evicts;
      ghost var was, gone := cache, None;
      if |cache| >= CACHE_CAP {
        gone := EvictOne();
      }
      Keep(pg);
      assert cache.Keys == (if gone.Some? then was.Keys - {gone.value} else was.Keys) + {pg.id};
      EvictsAll(was, gone, pg.id);
    }

    method Keep(pg: CachedPage)
      requires Valid() && 0 < pg.id < pageCount && !pg.dirty && pg.data == file[pg.id]
      requires pg.id in cache ==> cache[pg.id].data == pg.data
      modifies this`cache
      ensures Valid() && Contents() == old(Contents()) && cache == old(cache)[pg.id := pg]
    {
      hide HeaderBytes;
      assert forall i :: i in cache ==> CacheOk(i);
      cache := cache[pg.id := pg];
    }

    /** Some clean page goes, if there is one. */
    method EvictOne() returns (ghost gone: Option<nat>)
      requires Valid()
      modifies this`cache
      ensures Valid() && Contents() == old(Contents())
      ensures gone == None ==> cache == old(cache) && forall id :: id in cache ==> cache[id].dirty
      ensures gone.Some? ==>
        gone.value in old(cache) && !old(cache)[gone.value].dirty && cache == old(cache) - {gone.value}
    {
      hide HeaderBytes;
      assert forall i :: i in cache ==> CacheOk(i);
      gone := None;
      if id :| id in cache && !cache[id].dirty {
        cache := cache - {id};
        gone := Some(id);
      }
    }

    method AllocatePage(blank: seq<byte>) returns (pg: CachedPage)
      requires Valid() && |blank| == PAGE_SIZE
      modifies this
      ensures Valid() && fresh(pg) && pg.data == blank
      ensures pg.id != 0 && pg.id !in old(Contents()) && pg.id == old(pageCount) && pageCount == pg.id + 1
      ensures file.Keys == old(file).Keys + {pg.id} && file[pg.id] == blank
      ensures forall i :: i in old(file) && i != 0 ==> file[i] == old(file)[i]
      ensures Contents() == old(Contents())[pg.id := blank] && rootPage == old(rootPage)
      ensures pg.id in cache && cache[pg.id] == pg
      ensures forall id :: id in cache && id != pg.id ==> id in old(cache) && cache[id] == old(cache)[id]
    {
      hide HeaderBytes, Evicts, Pager.CacheOk, Pager.Contents;
      pg := Extend(blank);
      CachePut(pg);
    }

    /** One more page at the end of the file, and the header that says so. */
    method Extend(blank: seq<byte>) returns (pg: CachedPage)
      requires Valid() && |blank| == PAGE_SIZE
      modifies this`file, this`pageCount
      ensures Valid() && fresh(pg) && pg.data == blank && !pg.dirty && pg.id !in cache
      ensures pg.id != 0 && pg.id !in old(Contents()) && pg.id == old(pageCount) && pageCount == pg.id + 1
      ensures file.Keys == old(file).Keys + {pg.id} && file[pg.id] == blank
      ensures forall i :: i in old(file) && i != 0 ==> file[i] == old(file)[i]
      ensures Contents() == old(Contents())[pg.id := blank]
    {
      hide HeaderBytes;
      assert forall i :: i in cache ==> CacheOk(i);
      pg := new CachedPage(pageCount, blank);
      pageCount := pageCount + 1;
      file := file[pg.id := blank][0 := HeaderBytes(pageCount, rootPage, walSeq)];
      assert forall i :: i in cache ==> CacheOk(i);
    }

    /** From the cache if it is there, else from the file; None past the end. */
    method ReadPage(id: nat) returns (pg: CachedPage?)
      requires Valid() && id != 0
      modifies this`cache
      ensures Valid() && Contents() == old(Contents())
      ensures pg != null <==> id in Contents()
      ensures pg != null ==> pg.data == Contents()[id] && id in cache && cache[id] == pg
      ensures pg != null ==> fresh(pg) || (id in old(cache) && pg == old(cache)[id])
      ensures forall i :: i in cache && i != id ==> i in old(cache) && cache[i] == old(cache)[i]
    {
      if id in cache {
        return cache[id];
      }
      if id >= pageCount {
        return null;
      }
      pg := new CachedPage(id, file[id]);
      CachePut(pg);
    }

    method WritePage(pg: CachedPage)
      requires Valid() && pg.id in cache && cache[pg.id] == pg
      modifies this`file, pg
      ensures Valid() && !pg.dirty && pg.data == Sealed(old(pg.data))
      ensures Contents() == old(Contents())[pg.id := Sealed(old(pg.data))]
      ensures file == old(file)[pg.id := Sealed(old(pg.data))]
    {
      hide Sealed, HeaderBytes;
      ghost var before := Contents();
      assert forall i :: i in cache && i != pg.id ==> CacheOk(i) && cache[i] != pg;
      assert CacheOk(pg.id);
      pg.data := Sealed(pg.data);
      file := file[pg.id := pg.data];
      pg.dirty := false;
      assert forall i :: i in cache ==> CacheOk(i);
      assert Contents() == before[pg.id := pg.data];
    }

    /** flushLeaf and flushInternal: read, overwrite the bytes in place, write through. */
    method Rewrite(id: nat, bytes: seq<byte>) returns (ok: bool)
      requires Valid() && id != 0 && |bytes| == PAGE_SIZE
      modifies this`cache, this`file, cache.Values
      ensures Valid() && ok == (id in old(Contents()))
      ensures Contents() == if ok then old(Contents())[id := Sealed(bytes)] else old(Contents())
      ensures file == if ok then old(file)[id := Sealed(bytes)] else old(file)
    {
      hide Sealed, HeaderBytes;
      var pg := ReadPage(id);
      if pg == null {
        return false;
      }
      assert CacheOk(id);
      Touch(pg, bytes);
      WritePage(pg);
      ok := true;
    }

    /** Changes a page in the cache only, as Page.Insert and Page.Delete do. */
    method Touch(pg: CachedPage, bytes: seq<byte>)
      requires Valid() && pg.id in cache && cache[pg.id] == pg && |bytes| == PAGE_SIZE
      modifies pg
      ensures Valid() && pg.dirty && Contents() == old(Contents())[pg.id := bytes]
    {
      hide HeaderBytes;
      ghost var before := Contents();
      assert forall i :: i in cache && i != pg.id ==> CacheOk(i) && cache[i] != pg;
      assert CacheOk(pg.id);
      pg.data := bytes;
      pg.dirty := true;
      assert forall i :: i in cache ==> CacheOk(i);
      assert Contents() == before[pg.id := bytes];
    }

    /** Writes every dirty page, in any order; then the file alone has all contents. */
    method FlushDirty()
      requires Valid()
      modifies this`file, cache.Values
      ensures Valid() && cache == old(cache)
      ensures forall id :: id in Contents() ==> file[id] == Contents()[id]
      ensures Rechecksummed(old(Contents()), Contents())
    {
      hide Sealed, HeaderBytes, Rechecksummed, CacheOk;
      ghost var before := Contents();
      SameBytes();
      var todo: set<nat> := set id | id in cache && cache[id].dirty;
      while todo != {}
        invariant Valid() && cache == old(cache)
        invariant forall id :: id in todo <==> id in cache && cache[id].dirty
        invariant Rechecksummed(before, Contents())
        decreases |todo|
      {
        var id: nat :| id in todo;
        FlushOne(id, before);
        todo := todo - {id};
      }
      AllClean();
    }

    method FlushOne(id: nat, ghost before: map<nat, seq<byte>>)
      requires Valid() && id in cache && Rechecksummed(before, Contents())
      modifies this`file, cache.Values
      ensures Valid() && cache == old(cache) && Rechecksummed(before, Contents())
      ensures forall i :: i in cache ==> (cache[i].dirty <==> i != id && old(cache[i].dirty))
    {
      hide Sealed, HeaderBytes;
      assert forall i :: i in cache ==> CacheOk(i);
      SealedOnce(cache[id].data);
      WritePage(cache[id]);
    }

    lemma SameBytes()
      requires Valid()
      ensures Rechecksummed(Contents(), Contents())
    {
      assert forall i :: i in cache ==> CacheOk(i);
    }

    lemma AllClean()
      requires Valid() && forall id :: id in cache ==> !cache[id].dirty
      ensures forall id :: id in Contents() ==> file[id] == Contents()[id]
    {
      assert forall i :: i in cache ==> CacheOk(i);
    }
  }

  /** The same pages with the same bytes, checksums aside. */
  ghost predicate Rechecksummed(a: map<nat, seq<byte>>, b: map<nat, seq<byte>>) {
    a.Keys == b.Keys && forall id :: id in a ==> |a[id]| == |b[id]| == PAGE_SIZE && a[id][4..] == b[id][4..]
  }
}
