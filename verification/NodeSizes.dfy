/** How many bytes a node takes on its page, and which entries always fit. */
module NodeSizes {
  import opened Keys
  import opened TreeModel

  function EntriesSize(es: seq<Entry>): nat {
    if es == [] then 0 else 6 + |es[0].key| + |es[0].value| + EntriesSize(es[1..])
  }

  function KeysSize(ks: seq<Key>): nat {
    if ks == [] then 0 else 2 + |ks[0]| + KeysSize(ks[1..])
  }

  /** The length of the byte string that writeLeaf or writeInternal builds. */
  function NodeSize(n: Node): nat {
    match n
    case Leaf(es, _, _) => 20 + EntriesSize(es)
    case Internal(ks, cs) => 4 + KeysSize(ks) + 8 * |cs|
  }

  /** A 4096-byte page has a 64-byte header. The node is its only record: a 4-byte slot, a 2-byte key
      length and a record key of 8 bytes (leaf) or 12 bytes (internal). */
  predicate Fits(n: Node) {
    NodeSize(n) + 4 + 2 + (if n.Leaf? then 8 else 12) <= 4096 - 64
  }

  const SMALL_KEY := 30
  const SMALL_ENTRY := 33

  predicate SmallEntry(k: Key, v: Val) {
    |k| <= SMALL_KEY && |k| + |v| <= SMALL_ENTRY
  }

  predicate SmallNode(n: Node) {
    match n
    case Leaf(es, _, _) => forall i :: 0 <= i < |es| ==> SmallEntry(es[i].key, es[i].value)
    case Internal(ks, cs) => forall i :: 0 <= i < |ks| ==> |ks[i]| <= SMALL_KEY
  }

  lemma {:induction false} EntriesSizeBound(es: seq<Entry>)
    requires forall i :: 0 <= i < |es| ==> SmallEntry(es[i].key, es[i].value)
    ensures EntriesSize(es) <= 39 * |es|
  {
    if es != [] {
      EntriesSizeBound(es[1..]);
    }
  }

  lemma {:induction false} KeysSizeBound(ks: seq<Key>)
    requires forall i :: 0 <= i < |ks| ==> |ks[i]| <= SMALL_KEY
    ensures KeysSize(ks) <= 32 * |ks|
  {
    if ks != [] {
      KeysSizeBound(ks[1..]);
    }
  }

  /** Keys of at most 30 bytes, and at most 33 bytes of key and value, never overflow a page. */
  lemma SmallFits(n: Node)
    requires SmallNode(n) && Count(n) <= ORDER
    requires n.Internal? ==> |n.children| == |n.keys| + 1
    ensures Fits(n)
  {
    match n
    case Leaf(es, _, _) => EntriesSizeBound(es);
    case Internal(ks, _) => KeysSizeBound(ks);
  }

  /** Removing an entry leaves a leaf that fits. */
  lemma {:induction false} RemoveShrinks(es: seq<Entry>, i: nat)
    requires i < |es|
    ensures EntriesSize(es[..i] + es[i + 1..]) <= EntriesSize(es)
  {
    var rest := es[..i] + es[i + 1..];
    if i == 0 {
      assert rest == es[1..];
    } else {
      RemoveShrinks(es[1..], i - 1);
      assert rest[0] == es[0] && rest[1..] == es[1..][..i - 1] + es[1..][i..];
    }
  }
}
