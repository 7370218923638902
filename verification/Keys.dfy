/** Byte strings, and the lexicographic order in which KodedDB keeps its keys. */
module Keys {

  newtype byte = x: int | 0 <= x < 256

  type Key = seq<byte>

  type Val = seq<byte>

  datatype Option<+T> = None | Some(value: T)

  const MAX_KEY_SIZE := 512
  const PAGE_SIZE := 4096
  /** Offsets and window counters of 32 bits wrap around here. */
  const U32: nat := 0x1_0000_0000

  /** What a caller asks of the store, and what it means. */
  datatype Op = OpPut(key: Key, value: Val) | OpDelete(key: Key)

  function Apply(m: map<Key, Val>, op: Op): map<Key, Val> {
    match op
    case OpPut(k, v) => m[k := v]
    case OpDelete(k) => m - {k}
  }

  /** Strict lexicographic order: a proper prefix comes first, then the first differing byte decides. */
  predicate Less(a: Key, b: Key) {
    if a == [] then b != []
    else b != [] && (a[0] < b[0] || (a[0] == b[0] && Less(a[1..], b[1..])))
  }

  /** The three-way comparison of bytes.Compare and compareKeys: walk the common length, then
      compare the lengths. */
  method CompareKeys(a: Key, b: Key) returns (c: int)
    ensures c == -1 || c == 0 || c == 1
    ensures c < 0 <==> Less(a, b)
    ensures c == 0 <==> a == b
    ensures c > 0 <==> Less(b, a)
  {
    var minLen := |a|;
    if |b| < minLen {
      minLen := |b|;
    }
    var i := 0;
    while i < minLen
      invariant 0 <= i <= minLen
      invariant a[..i] == b[..i]
    {
      if a[i] < b[i] {
        CommonPrefix(a, b, i);
        OrderLaws();
        return -1;
      }
      if a[i] > b[i] {
        CommonPrefix(a, b, i);
        OrderLaws();
        return 1;
      }
      i := i + 1;
    }
    CommonPrefix(a, b, i);
    OrderLaws();
    assert |a| == |b| ==> a == a[..i] && b == b[..i];
    if |a| < |b| {
      return -1;
    }
    if |a| > |b| {
      return 1;
    }
    return 0;
  }

  /** A common prefix decides nothing. */
  lemma {:induction false} CommonPrefix(a: Key, b: Key, i: nat)
    requires i <= |a| && i <= |b| && a[..i] == b[..i]
    ensures Less(a, b) <==> Less(a[i..], b[i..])
    ensures Less(b, a) <==> Less(b[i..], a[i..])
  {
    if i == 0 {
      assert a[0..] == a && b[0..] == b;
    } else {
      assert a[0] == a[..i][0] == b[..i][0] == b[0];
      assert a[1..][..i - 1] == a[..i][1..] == b[..i][1..] == b[1..][..i - 1];
      CommonPrefix(a[1..], b[1..], i - 1);
      assert a[1..][i - 1..] == a[i..] && b[1..][i - 1..] == b[i..];
    }
  }

  /** An order embedding of byte strings into the reals: read the key as the digits of a fraction
      in base 257, each byte shifted by one so that a missing byte is the digit zero. */
  ghost function Rank(k: Key): (r: real)
    ensures 0.0 <= r < 1.0
  {
    if k == [] then 0.0 else ((k[0] as int + 1) as real + Rank(k[1..])) / 257.0
  }

  lemma {:induction false} RankDecides(a: Key, b: Key)
    ensures Less(a, b) <==> Rank(a) < Rank(b)
    ensures a == b <==> Rank(a) == Rank(b)
  {
    if a != [] && b != [] {
      RankDecides(a[1..], b[1..]);
      if a[0] == b[0] {
        assert a == [a[0]] + a[1..] && b == [b[0]] + b[1..];
      }
    }
  }

  /** Everything the containers need to know about the order: it is the order of the ranks, so it is
      irreflexive, transitive and total. */
  lemma OrderLaws()
    ensures forall a: Key, b: Key {:trigger Less(a, b)} :: Less(a, b) <==> Rank(a) < Rank(b)
    ensures forall a: Key, b: Key {:trigger Less(a, b)} :: a == b || Less(a, b) || Less(b, a)
  {
    forall a: Key, b: Key
      ensures Less(a, b) <==> Rank(a) < Rank(b)
      ensures a == b || Less(a, b) || Less(b, a)
    {
      RankDecides(a, b);
      RankDecides(b, a);
    }
  }
}
