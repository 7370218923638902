/** The write-ahead log of wal.go: its record format, its checksum and what replay gets out of damaged logs. */
module Wal {
  import opened Keys
  import opened Bytes

  const WAL_PUT: byte := 0
  const WAL_DELETE: byte := 1

  datatype LogEntry = LogEntry(kind: byte, sequence: nat, key: Key, value: Val)

  // ---------------------------------------------------------------------------------------------
  // Checksum: a 32-bit word, here as its four bytes, least significant first

  function Checksum(data: seq<byte>): (cs: seq<byte>)
    ensures |cs| == 4
  {
    if data == [] then [0, 0, 0, 0]
    else
      var i := |data| - 1;
      var cs := Checksum(data[..i]);
      cs[i % 4 := Xor(cs[i % 4], data[i])]
  }

  /** The accumulating loop of checksum32: byte i is shifted to lane i mod 4. */
  method Checksum32(data: seq<byte>) returns (cs: seq<byte>)
    ensures cs == Checksum(data)
  {
    cs := [0, 0, 0, 0];
    for i := 0 to |data|
      invariant cs == Checksum(data[..i])
    {
      assert data[..i + 1][..i] == data[..i];
      cs := cs[i % 4 := Xor(cs[i % 4], data[i])];
    }
    assert data[..|data|] == data;
  }

  function XorWords(a: seq<byte>, b: seq<byte>): (c: seq<byte>)
    requires |a| == 4 && |b| == 4
    ensures |c| == 4
  {
    [Xor(a[0], b[0]), Xor(a[1], b[1]), Xor(a[2], b[2]), Xor(a[3], b[3])]
  }

  function Sum(header: seq<byte>, key: Key, value: Val): (cs: seq<byte>)
    ensures |cs| == 4
  {
    XorWords(XorWords(Checksum(header), Checksum(key)), Checksum(value))
  }

  lemma XorInjective(a: byte, b: byte, c: byte)
    ensures Xor(a, c) == Xor(b, c) ==> a == b
    ensures Xor(c, a) == Xor(c, b) ==> a == b
  {
    XorLaws(a, c, c);
    XorLaws(b, c, c);
    XorLaws(c, a, a);
    XorLaws(c, b, b);
  }

  /** Changing one byte changes the checksum. */
  lemma {:induction false} ChecksumFlips(data: seq<byte>, i: nat, b: byte)
    requires i < |data| && b != data[i]
    ensures Checksum(data[i := b])[i % 4] != Checksum(data)[i % 4]
  {
    var n := |data| - 1;
    var data' := data[i := b];
    if i == n {
      assert data'[..n] == data[..n];
      XorInjective(b, data[i], Checksum(data[..n])[n % 4]);
    } else {
      assert data'[..n] == data[..n][i := b];
      ChecksumFlips(data[..n], i, b);
      XorInjective(Checksum(data'[..n])[n % 4], Checksum(data[..n])[n % 4], data[n]);
    }
  }

  lemma XorWordsFlips(a: seq<byte>, b: seq<byte>, c: seq<byte>)
    requires |a| == |b| == |c| == 4 && a != b
    ensures XorWords(a, c) != XorWords(b, c) && XorWords(c, a) != XorWords(c, b)
  {
    forall i | 0 <= i < 4
      ensures Xor(a[i], c[i]) == Xor(b[i], c[i]) ==> a[i] == b[i]
      ensures Xor(c[i], a[i]) == Xor(c[i], b[i]) ==> a[i] == b[i]
    {
      XorInjective(a[i], b[i], c[i]);
    }
  }

  // ---------------------------------------------------------------------------------------------
  // Records

  /** [1B type][8B sequence][2B key length][4B value length], lengths and sequence cut to their width. */
  function Header(e: LogEntry): (h: seq<byte>)
    ensures |h| == 15
  {
    [e.kind] + LE(e.sequence, 8) + LE(|e.key|, 2) + LE(|e.value|, 4)
  }

  function Record(e: LogEntry): seq<byte> {
    Header(e) + e.key + e.value + Sum(Header(e), e.key, e.value)
  }

  /** A record by its bytes: kind, sequence, the two lengths, key, value and the checksum of all that. */
  lemma RecordLayout(e: LogEntry)
    requires Writable(e)
    ensures var r, k, v := Record(e), |e.key|, |e.value|;
      && |r| == 19 + k + v && r[0] == e.kind
      && FromLE(r[1..9]) == e.sequence && FromLE(r[9..11]) == k && FromLE(r[11..15]) == v
      && r[15..15 + k] == e.key && r[15 + k..15 + k + v] == e.value
      && forall i :: 0 <= i < 4 ==>
           r[15 + k + v + i] == Xor(Xor(Checksum(r[..15])[i], Checksum(e.key)[i]), Checksum(e.value)[i])
  {
    hide Checksum, LE, FromLE, Header;
    var r, rest := Record(e), e.key + e.value + Sum(Header(e), e.key, e.value);
    assert r == Header(e) + rest;
    HeaderFields(e, rest);
    Pow256Values();
    LERoundTrip(e.sequence, 8);
    LERoundTrip(|e.key|, 2);
    LERoundTrip(|e.value|, 4);
    assert r[15..] == rest && r[15..15 + |e.key|] == rest[..|e.key|] == e.key;
  }

  /** The checksum is the exclusive or of the data's words of four bytes. */
  lemma {:induction false} ChecksumWords(a: seq<byte>, b: seq<byte>)
    requires |a| % 4 == 0
    ensures Checksum(a + b) == XorWords(Checksum(a), Checksum(b))
  {
    hide Xor, XorWords, Checksum;
    if b == [] {
      assert a + b == a;
      EmptyWord(Checksum(a));
    } else {
      var n := |b| - 1;
      var l := n % 4;
      ChecksumWords(a, b[..n]);
      Lane(|a|, n);
      ChecksumMore(a + b[..n], b[n], l);
      ChecksumMore(b[..n], b[n], l);
      assert a + b == a + b[..n] + [b[n]] && b == b[..n] + [b[n]];
      IntoLane(Checksum(a), Checksum(b[..n]), l, b[n]);
    }
  }

  lemma EmptyWord(w: seq<byte>)
    requires |w| == 4
    ensures XorWords(w, Checksum([])) == w
  {
    hide Xor;
    XorZero(w[0]);
    XorZero(w[1]);
    XorZero(w[2]);
    XorZero(w[3]);
  }

  lemma IntoLane(a: seq<byte>, b: seq<byte>, l: nat, d: byte)
    requires |a| == 4 && |b| == 4 && l < 4
    ensures XorWords(a, b[l := Xor(b[l], d)]) == XorWords(a, b)[l := Xor(XorWords(a, b)[l], d)]
  {
    hide Xor;
    XorLaws(a[l], b[l], d);
  }

  /** One word is its own checksum; a short one is filled with zeros. */
  lemma {:induction false} ChecksumShort(b: seq<byte>)
    requires |b| <= 4
    ensures Checksum(b) == b + [0, 0, 0, 0][|b|..]
  {
    hide Xor;
    if b != [] {
      var n := |b| - 1;
      ChecksumShort(b[..n]);
      ChecksumMore(b[..n], b[n], n);
      assert b == b[..n] + [b[n]];
      XorZero(b[n]);
    }
  }

  /** One more byte d goes to lane l. */
  lemma ChecksumMore(data: seq<byte>, d: byte, l: nat)
    requires l == |data| % 4
    ensures Checksum(data + [d]) == Checksum(data)[l := Xor(Checksum(data)[l], d)]
  {
    assert (data + [d])[..|data|] == data;
  }

  lemma Lane(a: nat, n: nat)
    requires a % 4 == 0
    ensures (a + n) % 4 == n % 4
  {
  }

  lemma RecordSize(e: LogEntry)
    ensures |Record(e)| == 19 + |e.key| + |e.value|
  {
  }

  function Records(es: seq<LogEntry>): seq<byte> {
    if es == [] then [] else Record(es[0]) + Records(es[1..])
  }

  function KeyLen(bs: seq<byte>): nat
    requires |bs| >= 15
  {
    FromLE(bs[9..11])
  }

  function ValLen(bs: seq<byte>): nat
    requires |bs| >= 15
  {
    FromLE(bs[11..15])
  }

  datatype Parsed = Parsed(entry: LogEntry, size: nat)

  /** One record off the front of bs: None when it is cut off or its checksum does not match. */
  function ParseOne(bs: seq<byte>): (r: Option<Parsed>)
    ensures r.Some? ==> 19 <= r.value.size <= |bs|
  {
    if |bs| < 15 then None
    else
      var k, v := KeyLen(bs), ValLen(bs);
      if |bs| < 15 + k + v + 4 then None
      else
        var key, value := bs[15..15 + k], bs[15 + k..15 + k + v];
        if Sum(bs[..15], key, value) != bs[15 + k + v..15 + k + v + 4] then None
        else Some(Parsed(LogEntry(bs[0], FromLE(bs[1..9]), key, value), 15 + k + v + 4))
  }

  /** What replay yields: records until the first one that does not parse. */
  function Parse(bs: seq<byte>): seq<LogEntry>
    decreases |bs|
  {
    match ParseOne(bs)
    case None => []
    case Some(p) => [p.entry] + Parse(bs[p.size..])
  }

  /** The entry's lengths and sequence fit their fields, so the record says what was meant. */
  predicate Writable(e: LogEntry) {
    |e.key| < 0x1_0000 && |e.value| < 0x1_0000_0000 && e.sequence < 0x1_0000_0000_0000_0000
  }

  ghost predicate AllWritable(es: seq<LogEntry>) {
    forall i :: 0 <= i < |es| ==> Writable(es[i])
  }

  lemma HeaderFields(e: LogEntry, rest: seq<byte>)
    ensures var bs := Header(e) + rest;
      && bs[..15] == Header(e) && bs[0] == e.kind
      && bs[1..9] == LE(e.sequence, 8) && bs[9..11] == LE(|e.key|, 2) && bs[11..15] == LE(|e.value|, 4)
  {
  }

  /** A whole record parses back to its entry, whatever follows. */
  lemma ParseRecord(e: LogEntry, rest: seq<byte>)
    requires Writable(e)
    ensures ParseOne(Record(e) + rest) == Some(Parsed(e, |Record(e)|))
    ensures Parse(Record(e) + rest) == [e] + Parse(rest)
  {
    hide Sum, Checksum, LE, FromLE, Header;
    var bs := Record(e) + rest;
    var k, v := |e.key|, |e.value|;
    assert bs == Header(e) + (e.key + e.value + Sum(Header(e), e.key, e.value) + rest);
    HeaderFields(e, e.key + e.value + Sum(Header(e), e.key, e.value) + rest);
    Pow256Values();
    LERoundTrip(k, 2);
    LERoundTrip(v, 4);
    LERoundTrip(e.sequence, 8);
    assert bs[15..15 + k] == e.key;
    assert bs[15 + k..15 + k + v] == e.value;
    assert bs[15 + k + v..15 + k + v + 4] == Sum(Header(e), e.key, e.value);
    assert bs[|Record(e)|..] == rest;
    assert ParseOne(bs) == Some(Parsed(e, |Record(e)|));
  }

  /** A record cut short anywhere yields nothing. */
  lemma ParseTorn(e: LogEntry, n: nat)
    requires Writable(e) && n < |Record(e)|
    ensures Parse(Record(e)[..n]) == []
  {
    var bs := Record(e)[..n];
    if n >= 15 {
      var rest := e.key + e.value + Sum(Header(e), e.key, e.value);
      assert Record(e) == Header(e) + rest;
      HeaderFields(e, rest);
      assert bs[9..11] == Record(e)[9..11] && bs[11..15] == Record(e)[11..15];
      Pow256Values();
      LERoundTrip(|e.key|, 2);
      LERoundTrip(|e.value|, 4);
    }
  }

  lemma {:induction false} RecordsAppend(a: seq<LogEntry>, b: seq<LogEntry>)
    ensures Records(a + b) == Records(a) + Records(b)
  {
    if a == [] {
      assert a + b == b;
    } else {
      assert (a + b)[1..] == a[1..] + b;
      RecordsAppend(a[1..], b);
    }
  }

  /** Replay gets every whole record back and goes on with what follows them. */
  lemma {:induction false} ParseRecords(es: seq<LogEntry>, rest: seq<byte>)
    requires AllWritable(es)
    ensures Parse(Records(es) + rest) == es + Parse(rest)
  {
    hide Parse, Record, Writable;
    if es == [] {
      assert Records(es) + rest == rest;
    } else {
      assert Records(es) + rest == Record(es[0]) + (Records(es[1..]) + rest);
      ParseRecord(es[0], Records(es[1..]) + rest);
      ParseRecords(es[1..], rest);
      assert es + Parse(rest) == [es[0]] + (es[1..] + Parse(rest));
    }
  }

  /** How many records lie wholly within the first n bytes of the log. */
  function Whole(es: seq<LogEntry>, n: nat): (k: nat)
    ensures k <= |es|
  {
    if es == [] || n < |Record(es[0])| then 0 else 1 + Whole(es[1..], n - |Record(es[0])|)
  }

  /** A log cut at any byte replays to exactly the entries that lie wholly before the cut. */
  lemma {:induction false} ReplayCut(es: seq<LogEntry>, n: nat)
    requires AllWritable(es) && n <= |Records(es)|
    ensures Parse(Records(es)[..n]) == es[..Whole(es, n)]
  {
    hide Parse, Record, Writable;
    if es == [] {
      ParseEmpty();
    } else {
      var r := Record(es[0]);
      if n < |r| {
        assert Records(es)[..n] == r[..n];
        ParseTorn(es[0], n);
      } else {
        assert Records(es)[..n] == r + Records(es[1..])[..n - |r|];
        ParseRecord(es[0], Records(es[1..])[..n - |r|]);
        ReplayCut(es[1..], n - |r|);
        assert es[..Whole(es, n)] == [es[0]] + es[1..][..Whole(es[1..], n - |r|)];
      }
    }
  }

  /** Whether byte i of the log falls into the length fields of the record it belongs to. */
  predicate InLengths(es: seq<LogEntry>, i: nat)
    requires i < |Records(es)|
  {
    if i < |Record(es[0])| then 9 <= i < 15 else InLengths(es[1..], i - |Record(es[0])|)
  }

  /** A record with one byte changed outside its length fields no longer parses. */
  lemma ParseAltered(e: LogEntry, i: nat, b: byte, rest: seq<byte>)
    requires Writable(e) && i < |Record(e)| && !(9 <= i < 15) && b != Record(e)[i]
    ensures Parse(Record(e)[i := b] + rest) == []
  {
    hide Record, Sum, FromLE, Parse, ParseOne;
    var k, v := |e.key|, |e.value|;
    var r := Record(e)[i := b];
    AlteredLengths(e, i, b);
    AlteredParts(e, i, b);
    AlteredSum(e, i, b);
    WrongSum(r, rest, k, v);
  }

  /** A record whose checksum is not that of its parts. */
  lemma WrongSum(r: seq<byte>, rest: seq<byte>, k: nat, v: nat)
    requires |r| == 15 + k + v + 4 && FromLE(r[9..11]) == k && FromLE(r[11..15]) == v
    requires Sum(r[..15], r[15..15 + k], r[15 + k..15 + k + v]) != r[15 + k + v..]
    ensures Parse(r + rest) == []
  {
    hide Sum, FromLE, Parse, ParseOne;
    var bs := r + rest;
    ParseUnfold(bs);
    assert bs[..15] == r[..15] && bs[9..11] == r[9..11] && bs[11..15] == r[11..15];
    assert bs[15..15 + k] == r[15..15 + k] && bs[15 + k..15 + k + v] == r[15 + k..15 + k + v];
    assert bs[15 + k + v..15 + k + v + 4] == r[15 + k + v..];
    OneUnfold(bs, k, v);
  }

  lemma AlteredLengths(e: LogEntry, i: nat, b: byte)
    requires Writable(e) && i < |Record(e)| && !(9 <= i < 15)
    ensures var r := Record(e)[i := b];
      |r| >= 15 && FromLE(r[9..11]) == |e.key| && FromLE(r[11..15]) == |e.value|
  {
    var r := Record(e)[i := b];
    var rest := e.key + e.value + Sum(Header(e), e.key, e.value);
    assert Record(e) == Header(e) + rest;
    HeaderFields(e, rest);
    assert r[9..11] == Record(e)[9..11] && r[11..15] == Record(e)[11..15];
    Pow256Values();
    LERoundTrip(|e.key|, 2);
    LERoundTrip(|e.value|, 4);
  }

  /** The stored checksum no longer matches the one computed from the other bytes. */
  lemma AlteredSum(e: LogEntry, i: nat, b: byte)
    requires i < |Record(e)| && b != Record(e)[i]
    ensures var k, v := |e.key|, |e.value|; var r := Record(e)[i := b];
      && |r| == 15 + k + v + 4
      && Sum(r[..15], r[15..15 + k], r[15 + k..15 + k + v]) != r[15 + k + v..]
  {
    hide Record, Sum, Checksum, Header;
    var k, v := |e.key|, |e.value|;
    var h := Header(e);
    AlteredParts(e, i, b);
    if i < 15 {
      ChecksumFlips(h, i, b);
      SumFlips(h[i := b], e.key, e.value, h, e.key, e.value);
    } else if i < 15 + k {
      ChecksumFlips(e.key, i - 15, b);
      SumFlips(h, e.key[i - 15 := b], e.value, h, e.key, e.value);
    } else if i < 15 + k + v {
      ChecksumFlips(e.value, i - 15 - k, b);
      SumFlips(h, e.key, e.value[i - 15 - k := b], h, e.key, e.value);
    }
  }

  /** Two records that differ in just one of the three checksummed parts, with different checksums
      there, have different sums. */
  lemma SumFlips(h: seq<byte>, k: seq<byte>, v: seq<byte>, h': seq<byte>, k': seq<byte>, v': seq<byte>)
    requires (Checksum(h) != Checksum(h') && k == k' && v == v')
          || (h == h' && Checksum(k) != Checksum(k') && v == v')
          || (h == h' && k == k' && Checksum(v) != Checksum(v'))
    ensures Sum(h, k, v) != Sum(h', k', v')
  {
    var hk, hk' := XorWords(Checksum(h), Checksum(k)), XorWords(Checksum(h'), Checksum(k'));
    if Checksum(h) != Checksum(h') {
      XorWordsFlips(Checksum(h), Checksum(h'), Checksum(k));
      XorWordsFlips(hk, hk', Checksum(v));
    } else if Checksum(k) != Checksum(k') {
      XorWordsFlips(Checksum(k), Checksum(k'), Checksum(h));
      XorWordsFlips(hk, hk', Checksum(v));
    } else {
      XorWordsFlips(Checksum(v), Checksum(v'), hk);
    }
  }

  /** Which part of the record the altered byte is in. */
  lemma AlteredParts(e: LogEntry, i: nat, b: byte)
    requires i < |Record(e)|
    ensures var k, v := |e.key|, |e.value|; var r := Record(e)[i := b];
      && |r| == 15 + k + v + 4
      && r[..15] == (if i < 15 then Header(e)[i := b] else Header(e))
      && r[15..15 + k] == (if 15 <= i < 15 + k then e.key[i - 15 := b] else e.key)
      && r[15 + k..15 + k + v] == (if 15 + k <= i < 15 + k + v then e.value[i - 15 - k := b] else e.value)
      && (i < 15 + k + v ==> r[15 + k + v..] == Sum(Header(e), e.key, e.value))
      && (i >= 15 + k + v ==> r[15 + k + v..] == Sum(Header(e), e.key, e.value)[i - 15 - k - v := b])
      && Record(e)[i] == (if i < 15 then Header(e)[i] else if i < 15 + k then e.key[i - 15]
                          else if i < 15 + k + v then e.value[i - 15 - k]
                          else Sum(Header(e), e.key, e.value)[i - 15 - k - v])
  {
    hide Sum, Header;
    TwoAltered(Header(e) + e.key + e.value, Sum(Header(e), e.key, e.value), i, b);
    if i < 15 + |e.key| + |e.value| {
      TwoAltered(Header(e) + e.key, e.value, i, b);
      if i < 15 + |e.key| {
        TwoAltered(Header(e), e.key, i, b);
      }
    }
  }

  /** A change to one of two parts. */
  lemma TwoAltered(x: seq<byte>, y: seq<byte>, i: nat, b: byte)
    requires i < |x| + |y|
    ensures (x + y)[i] == if i < |x| then x[i] else y[i - |x|]
    ensures (x + y)[i := b] == if i < |x| then x[i := b] + y else x + y[i - |x| := b]
  {
  }

  /** A log with any one byte altered outside the length fields replays to exactly the entries wholly
      before the altered byte. */
  lemma {:induction false} ReplayAltered(es: seq<LogEntry>, i: nat, b: byte)
    requires AllWritable(es) && i < |Records(es)| && !InLengths(es, i) && b != Records(es)[i]
    ensures Parse(Records(es)[i := b]) == es[..Whole(es, i)]
  {
    hide Parse, Record, Writable;
    var r, tail := Record(es[0]), Records(es[1..]);
    if i < |r| {
      assert Records(es)[i := b] == r[i := b] + tail;
      ParseAltered(es[0], i, b, tail);
    } else {
      assert Records(es)[i := b] == r + tail[i - |r| := b];
      ParseRecord(es[0], tail[i - |r| := b]);
      ReplayAltered(es[1..], i - |r|, b);
      assert es[..Whole(es, i)] == [es[0]] + es[1..][..Whole(es[1..], i - |r|)];
    }
  }

  /** The log gives an entry back exactly when its lengths and sequence fit their fields. Put checks
      the key length; Delete does not, so a key of 65536 bytes or more is acknowledged but not replayed. */
  lemma ReplaysIffWritable(e: LogEntry, rest: seq<byte>)
    ensures Writable(e) <==> |Parse(Record(e) + rest)| > 0 && Parse(Record(e) + rest)[0] == e
  {
    if Writable(e) {
      ParseRecord(e, rest);
    } else {
      var bs := Record(e) + rest;
      assert bs == Header(e) + (e.key + e.value + Sum(Header(e), e.key, e.value) + rest);
      HeaderFields(e, e.key + e.value + Sum(Header(e), e.key, e.value) + rest);
      Pow256Values();
      FromLEBound(bs[9..11]);
      FromLEBound(bs[11..15]);
      FromLEBound(bs[1..9]);
    }
  }

  /** A key of 65536 bytes, for any sequence number, whose delete record is never read back: its length
      field says 0, and the first bytes of the key stand where the checksum should be. */
  lemma OversizedDelete(sequence: nat) returns (e: LogEntry)
    ensures e.kind == WAL_DELETE && e.sequence == sequence && |e.key| == 0x1_0000 && e.value == []
    ensures forall rest :: Parse(Record(e) + rest) == []
  {
    hide Sum, LE, Parse, ParseOne;
    var zero := LogEntry(WAL_DELETE, sequence, [], []);
    var sum := Sum(Header(zero), [], []);
    var b := OtherByte(sum[0]);
    e := LogEntry(WAL_DELETE, sequence, seq(0x1_0000, i => b), []);
    LengthWraps();
    SameHeader(e, zero);
    forall rest
      ensures Parse(Record(e) + rest) == []
    {
      ShortLength(e, rest, sum);
    }
  }

  /** The length field of two bytes cannot tell 65536 from 0. */
  lemma LengthWraps()
    ensures LE(0x1_0000, 2) == LE(0, 2)
  {
    assert LE(0x100, 1) == [0] + LE(1, 0) && LE(0, 1) == [0] + LE(0, 0);
  }

  lemma SameHeader(e: LogEntry, e': LogEntry)
    requires e.kind == e'.kind && e.sequence == e'.sequence && e.value == e'.value
    requires LE(|e.key|, 2) == LE(|e'.key|, 2)
    ensures Header(e) == Header(e')
  {
  }

  function OtherByte(b: byte): (c: byte)
    ensures c != b
  {
    if b == 0 then 1 else 0
  }

  /** A record whose header says that key and value are empty parses only if the checksum of the header follows it. */
  lemma ShortLength(e: LogEntry, rest: seq<byte>, sum: seq<byte>)
    requires |e.key| > 0 && e.value == [] && LE(|e.key|, 2) == LE(0, 2)
    requires sum == Sum(Header(e), [], []) && e.key[0] != sum[0]
    ensures Parse(Record(e) + rest) == []
  {
    hide Sum, LE, Header;
    var bs := Record(e) + rest;
    var tail := e.key + e.value + Sum(Header(e), e.key, e.value) + rest;
    assert bs == Header(e) + tail;
    HeaderFields(e, tail);
    LERoundTrip(0, 2);
    LERoundTrip(0, 4);
    assert bs[15..15] == [];
    assert bs[15..19][0] == bs[15] == tail[0] == e.key[0];
  }

  /** One acknowledged delete of that kind hides every later operation on the log, whatever they are. */
  lemma OversizedDeleteHides(es: seq<LogEntry>, sequence: nat) returns (e: LogEntry)
    requires AllWritable(es)
    ensures e.kind == WAL_DELETE && e.sequence == sequence && |e.key| == 0x1_0000 && e.value == []
    ensures forall later :: Parse(Records(es) + Record(e) + Records(later)) == es
  {
    hide Parse, Record, Records, Writable;
    e := OversizedDelete(sequence);
    forall later
      ensures Parse(Records(es) + Record(e) + Records(later)) == es
    {
      assert Records(es) + Record(e) + Records(later) == Records(es) + (Record(e) + Records(later));
      ParseRecords(es, Record(e) + Records(later));
    }
  }

  /** What recovery leaves of a log: nothing, unless not even its first record is whole. */
  function LeftBy(bytes: seq<byte>): seq<byte> {
    if Parse(bytes) == [] then bytes else []
  }

  /** The first record written after a restart on bytes. The counter goes on from the highest number replayed. */
  function NextEntry(bytes: seq<byte>, kind: byte, key: Key, value: Val): LogEntry {
    LogEntry(kind, (Highest(Parse(bytes)) + 1) % 0x1_0000_0000_0000_0000, key, value)
  }

  /** A further restart would replay that record first, whatever is written behind it. */
  ghost predicate ReplayedNext(bytes: seq<byte>, kind: byte, key: Key, value: Val) {
    var e := NextEntry(bytes, kind, key, value);
    forall later :: Parse(LeftBy(bytes) + Record(e) + Records(later)) == [e] + Parse(Records(later))
  }

  /** What replay finds first begins with the first byte. */
  lemma FirstKind(bytes: seq<byte>)
    ensures Parse(bytes) != [] ==> bytes != [] && Parse(bytes)[0].kind == bytes[0]
  {
    hide Sum, FromLE;
  }

  /** A record that parses does so whatever follows. */
  lemma ParseBefore(bs: seq<byte>, more: seq<byte>)
    requires ParseOne(bs).Some?
    ensures ParseOne(bs + more) == ParseOne(bs)
    ensures (bs + more)[ParseOne(bs).value.size..] == bs[ParseOne(bs).value.size..] + more
  {
    hide Sum, FromLE, ParseOne;
    var k, v := FromLE(bs[9..11]), FromLE(bs[11..15]);
    var both := bs + more;
    LongEnough(bs);
    assert both[9..11] == bs[9..11] && both[11..15] == bs[11..15];
    OneUnfold(bs, k, v);
    OneUnfold(both, k, v);
    assert both[..15] == bs[..15] && both[1..9] == bs[1..9] && both[15..15 + k] == bs[15..15 + k];
    assert both[15 + k..15 + k + v] == bs[15 + k..15 + k + v];
    assert both[15 + k + v..15 + k + v + 4] == bs[15 + k + v..15 + k + v + 4];
  }

  lemma LongEnough(bs: seq<byte>)
    requires ParseOne(bs).Some?
    ensures var p := ParseOne(bs).value; |bs| >= 15 && p.size == 19 + |p.entry.key| + |p.entry.value|
  {
    hide Sum, FromLE;
  }

  /** A record that recovery left torn at the front hides what is written after it, whatever that is: the record
      itself, or one of the records behind it. */
  lemma TornFrontHides(bytes: seq<byte>, kind: byte, key: Key, value: Val)
    requires bytes != [] && Parse(bytes) == []
    ensures !ReplayedNext(bytes, kind, key, value)
  {
    hide Record, Records, Parse, ParseOne, Highest;
    var e := NextEntry(bytes, kind, key, value);
    var log := bytes + Record(e);
    if Parse(log) == [e] {
      var size := ParsedAlone(log, e);
      RecordSize(e);
      var left := log[size..];
      var other := LogEntry(OtherByte(left[0]), 0, [], []);
      OneRecord(other);
      ParseBefore(log, Record(other));
      ParseUnfold(log + Record(other));
      FirstKind(left + Record(other));
      assert (left + Record(other))[0] == left[0];
      assert LeftBy(bytes) + Record(e) + Records([other]) == log + Record(other);
      var found := Parse(left + Record(other));
      assert Parse(log + Record(other)) == [e] + found && ([e] + found)[1..] == found;
      assert ([e] + Parse(Records([other])))[1..] == [other];
      assert found == [] || found[0].kind != other.kind;
    } else {
      NoRecord();
      assert LeftBy(bytes) + Record(e) + Records([]) == log;
      assert Parse(LeftBy(bytes) + Record(e) + Records([])) != [e] + Parse(Records([]));
    }
  }

  lemma ParsedAlone(log: seq<byte>, e: LogEntry) returns (size: nat)
    requires Parse(log) == [e]
    ensures ParseOne(log) == Some(Parsed(e, size)) && size == 19 + |e.key| + |e.value| <= |log|
  {
    hide ParseOne;
    ParseUnfold(log);
    LongEnough(log);
    size := ParseOne(log).value.size;
    assert [e][0] == ParseOne(log).value.entry;
  }

  lemma NoRecord()
    ensures Records([]) == [] && Parse([]) == []
  {
  }

  lemma OneRecord(e: LogEntry)
    requires Writable(e)
    ensures Records([e]) == Record(e) && Parse(Record(e)) == [e]
  {
    hide Record, Parse, Writable;
    NoRecord();
    assert Records([e]) == Record(e) + Records([e][1..]);
    ParseRecord(e, []);
    assert Record(e) + [] == Record(e);
  }

  /** What is written first after a restart survives the next one, whatever is written behind it, exactly when the
      log was empty or held at least one whole record. */
  lemma ReplayedIff(bytes: seq<byte>, kind: byte, key: Key, value: Val)
    requires |key| < 0x1_0000 && |value| < 0x1_0000_0000
    ensures ReplayedNext(bytes, kind, key, value) <==> bytes == [] || Parse(bytes) != []
  {
    hide Parse, Record, Records, ReplayedNext;
    if bytes == [] || Parse(bytes) != [] {
      CleanFront(bytes, kind, key, value);
    } else {
      TornFrontHides(bytes, kind, key, value);
    }
  }

  lemma CleanFront(bytes: seq<byte>, kind: byte, key: Key, value: Val)
    requires bytes == [] || Parse(bytes) != []
    requires |key| < 0x1_0000 && |value| < 0x1_0000_0000
    ensures ReplayedNext(bytes, kind, key, value)
  {
    hide Parse, Record, Records;
    var e := NextEntry(bytes, kind, key, value);
    assert LeftBy(bytes) == [];
    forall later
      ensures Parse(LeftBy(bytes) + Record(e) + Records(later)) == [e] + Parse(Records(later))
    {
      ParseRecord(e, Records(later));
      assert LeftBy(bytes) + Record(e) + Records(later) == Record(e) + Records(later);
    }
  }

  /** The byte of a torn delete, and the put that is written first after the restart. */
  lemma HiddenPut(next: LogEntry)
    requires next == LogEntry(WAL_PUT, 1, [8], [9])
    ensures Parse([WAL_DELETE]) == [] && Parse([WAL_DELETE] + Record(next)) == []
  {
    hide Record, Checksum, Sum;
    var bs := [WAL_DELETE] + Record(next);
    NextHeader(next);
    assert bs[9..11][1] == bs[10] == Record(next)[9];
    assert FromLE(bs[9..11]) >= 256 * FromLE(bs[9..11][1..]);
    assert bs[9..11][1..] == [1];
    assert FromLE([1]) == 1;
  }

  lemma NextHeader(next: LogEntry)
    requires next == LogEntry(WAL_PUT, 1, [8], [9])
    ensures |Record(next)| == 21 && Record(next)[9] == 1
  {
    hide Sum, Checksum, Header;
    var rest := next.key + next.value + Sum(Header(next), next.key, next.value);
    assert Record(next) == Header(next) + rest;
    HeaderFields(next, rest);
    assert Record(next)[9] == Record(next)[9..11][0];
  }

  // ---------------------------------------------------------------------------------------------
  // The log file

  /** Sequence numbers go up strictly. */
  ghost predicate Increasing(es: seq<LogEntry>) {
    forall i, j :: 0 <= i < j < |es| ==> es[i].sequence < es[j].sequence
  }

  /** They do, and none exceeds top. */
  ghost predicate IncreasingTo(es: seq<LogEntry>, top: nat) {
    Increasing(es) && forall i :: 0 <= i < |es| ==> es[i].sequence <= top
  }

  /** The bytes are whole, writable records and nothing else. */
  ghost predicate CleanLog(bytes: seq<byte>) {
    AllWritable(Parse(bytes)) && bytes == Records(Parse(bytes))
  }

  lemma CleanRecords(es: seq<LogEntry>)
    requires AllWritable(es)
    ensures CleanLog(Records(es)) && Parse(Records(es)) == es
  {
    hide Parse, Records;
    ParseRecords(es, []);
    ParseEmpty();
    assert Records(es) + [] == Records(es) && es + [] == es;
  }

  /** What one more record does to a clean log whose numbers ascend. */
  lemma NextRecord(bytes: seq<byte>, e: LogEntry, top: nat)
    requires CleanLog(bytes) && Writable(e) && top < 0x1_0000_0000_0000_0000
    ensures CleanLog(bytes + Record(e)) && Parse(bytes + Record(e)) == Parse(bytes) + [e]
    ensures IncreasingTo(Parse(bytes), top) && e.sequence == (top + 1) % 0x1_0000_0000_0000_0000 ==>
      (IncreasingTo(Parse(bytes + Record(e)), e.sequence) <==> Parse(bytes) == [] || top + 1 < 0x1_0000_0000_0000_0000)
  {
    hide Record, Writable, Parse, Records;
    var es := Parse(bytes);
    AppendParses(es, e);
    if IncreasingTo(es, top) && e.sequence == (top + 1) % 0x1_0000_0000_0000_0000 {
      AppendAscends(es, e, top);
    }
  }

  lemma AppendAscends(es: seq<LogEntry>, e: LogEntry, top: nat)
    requires IncreasingTo(es, top) && top < 0x1_0000_0000_0000_0000 && e.sequence == (top + 1) % 0x1_0000_0000_0000_0000
    ensures IncreasingTo(es + [e], e.sequence) <==> es == [] || top + 1 < 0x1_0000_0000_0000_0000
  {
    if es != [] && top + 1 >= 0x1_0000_0000_0000_0000 {
      assert (es + [e])[0] == es[0] && (es + [e])[|es|] == e;
      assert e.sequence == 0;
    }
  }

  function Highest(es: seq<LogEntry>): nat {
    if es == [] then 0
    else var h := Highest(es[..|es| - 1]); if es[|es| - 1].sequence > h then es[|es| - 1].sequence else h
  }

  lemma {:induction false} HighestBounds(es: seq<LogEntry>)
    ensures forall i :: 0 <= i < |es| ==> es[i].sequence <= Highest(es)
  {
    if es != [] {
      HighestBounds(es[..|es| - 1]);
    }
  }

  lemma {:induction false} HighestBelow(es: seq<LogEntry>, top: nat)
    requires top > 0 && forall i :: 0 <= i < |es| ==> es[i].sequence < top
    ensures Highest(es) < top
  {
    if es != [] {
      HighestBelow(es[..|es| - 1], top);
    }
  }

  /** A number read from its eight bytes is below 2^64. */
  lemma {:induction false} ParsedSequences(bytes: seq<byte>)
    ensures forall i :: 0 <= i < |Parse(bytes)| ==> Parse(bytes)[i].sequence < 0x1_0000_0000_0000_0000
    decreases |bytes|
  {
    match ParseOne(bytes)
    case None =>
    case Some(p) =>
      ParsedSequences(bytes[p.size..]);
      Pow256Values();
      FromLEBound(bytes[1..9]);
  }

  lemma HighestFits(bytes: seq<byte>)
    ensures Highest(Parse(bytes)) < 0x1_0000_0000_0000_0000
  {
    ParsedSequences(bytes);
    HighestBelow(Parse(bytes), 0x1_0000_0000_0000_0000);
  }

  lemma Recorded(e: LogEntry, header: seq<byte>, cs: seq<byte>)
    requires header == [e.kind] + LE(e.sequence, 8) + LE(|e.key|, 2) + LE(|e.value|, 4)
    requires cs == Sum(header, e.key, e.value)
    ensures header + e.key + e.value + cs == Record(e)
  {
  }

  class WAL {
    var file: seq<byte>
    var sequence: nat

    /** The numbers on the log ascend, up to the counter. */
    ghost predicate Ordered()
      reads this
    {
      sequence < 0x1_0000_0000_0000_0000 && IncreasingTo(Parse(file), sequence)
    }

    /** NewWAL: opens the log and takes up the highest sequence number that replay finds in it. */
    constructor (bytes: seq<byte>)
      ensures file == bytes && sequence == Highest(Parse(bytes))
      ensures Ordered() <==> Increasing(Parse(bytes))
      ensures forall kind, key, value :: Stamp(kind, key, value) == NextEntry(bytes, kind, key, value)
    {
      file, sequence := bytes, 0;
      new;
      var es := ReadAll();
      for i := 0 to |es|
        invariant sequence == Highest(es[..i]) && file == bytes
      {
        assert es[..i + 1][..i] == es[..i];
        if es[i].sequence > sequence {
          sequence := es[i].sequence;
        }
      }
      assert es[..|es|] == es;
      HighestBounds(es);
      HighestFits(bytes);
    }

    /** The entry that the next Write puts on the log. The counter is a uint64. */
    function Stamp(kind: byte, key: Key, value: Val): (e: LogEntry)
      reads this
      ensures sequence < 0xFFFF_FFFF_FFFF_FFFF ==> e.sequence == sequence + 1
      ensures sequence == 0xFFFF_FFFF_FFFF_FFFF ==> e.sequence == 0
    {
      LogEntry(kind, (sequence + 1) % 0x1_0000_0000_0000_0000, key, value)
    }

    /** Appends one record. On a clean log of ascending numbers the new one ascends too, until the counter
        wraps around. */
    method Write(kind: byte, key: Key, value: Val)
      modifies this
      ensures file == old(file) + Record(old(Stamp(kind, key, value)))
      ensures sequence == old(Stamp(kind, key, value)).sequence
      ensures old(CleanLog(file)) && |key| < 0x1_0000 && |value| < 0x1_0000_0000 ==>
        CleanLog(file) && Parse(file) == old(Parse(file)) + [old(Stamp(kind, key, value))]
      ensures old(CleanLog(file) && Ordered()) && |key| < 0x1_0000 && |value| < 0x1_0000_0000 ==>
        (Ordered() <==> old(Parse(file)) == [] || old(sequence) + 1 < 0x1_0000_0000_0000_0000)
    {
      hide CleanLog, Parse, IncreasingTo;
      var e := Stamp(kind, key, value);
      sequence := e.sequence;
      var header := [e.kind] + LE(e.sequence, 8) + LE(|key|, 2) + LE(|value|, 4);
      var cs := RecordSum(header, key, value);
      Recorded(e, header, cs);
      if CleanLog(file) && Writable(e) && old(sequence) < 0x1_0000_0000_0000_0000 {
        NextRecord(file, e, old(sequence));
      } else if CleanLog(file) && Writable(e) {
        NextRecord(file, e, 0);
      }
      file := file + (header + key + value + cs);
    }

    method WritePut(key: Key, value: Val)
      modifies this
      ensures file == old(file) + Record(old(Stamp(0, key, value)))
      ensures sequence == old(Stamp(WAL_PUT, key, value)).sequence
      ensures old(CleanLog(file) && Ordered()) && |key| < 0x1_0000 && |value| < 0x1_0000_0000 ==>
        CleanLog(file) && (Ordered() <==> old(Parse(file)) == [] || old(sequence) + 1 < 0x1_0000_0000_0000_0000)
    {
      hide CleanLog, Parse, Record, IncreasingTo;
      Write(WAL_PUT, key, value);
    }

    method WriteDelete(key: Key)
      modifies this
      ensures file == old(file) + Record(old(Stamp(1, key, [])))
      ensures sequence == old(Stamp(WAL_DELETE, key, [])).sequence
      ensures old(CleanLog(file) && Ordered()) && |key| < 0x1_0000 ==>
        CleanLog(file) && (Ordered() <==> old(Parse(file)) == [] || old(sequence) + 1 < 0x1_0000_0000_0000_0000)
    {
      hide CleanLog, Parse, Record, IncreasingTo;
      Write(WAL_DELETE, key, []);
    }

    /** Replay, record by record: stops at the end, at a cut-off record or at a bad checksum. */
    method ReadAll() returns (out: seq<LogEntry>)
      ensures out == Parse(file)
    {
      hide Parse, Sum, Checksum, FromLE;
      out := [];
      var off := 0;
      assert file[0..] == file;
      while true
        invariant 0 <= off <= |file|
        invariant out + Parse(file[off..]) == Parse(file)
        decreases |file| - off
      {
        ParseAt(file, off);
        if off + 15 > |file| {
          break;
        }
        var header := file[off..off + 15];
        var kLen, vLen := FromLE(header[9..11]), FromLE(header[11..15]);
        var end := off + 15 + kLen + vLen;
        if end + 4 > |file| {
          break;
        }
        var key, val := file[off + 15..off + 15 + kLen], file[off + 15 + kLen..end];
        var expected := RecordSum(header, key, val);
        if expected != file[end..end + 4] {
          break;
        }
        out := out + [LogEntry(header[0], FromLE(header[1..9]), key, val)];
        off := end + 4;
      }
    }

    /** Empties the log. The counter goes on, so the numbers to come ascend. */
    method Truncate()
      modifies this`file
      ensures file == [] && Parse(file) == [] && CleanLog(file)
      ensures sequence < 0x1_0000_0000_0000_0000 ==> Ordered()
    {
      file := [];
      ParseEmpty();
    }
  }

  method RecordSum(header: seq<byte>, key: Key, value: Val) returns (cs: seq<byte>)
    ensures cs == Sum(header, key, value)
  {
    var ch := Checksum32(header);
    var ck := Checksum32(key);
    var cv := Checksum32(value);
    cs := XorWords(XorWords(ch, ck), cv);
  }

  /** What replay makes of the file from offset off on. */
  lemma ParseAt(file: seq<byte>, off: nat)
    requires off <= |file|
    ensures off + 15 > |file| ==> Parse(file[off..]) == []
    ensures off + 15 <= |file| ==>
      var header := file[off..off + 15];
      var k, v := FromLE(header[9..11]), FromLE(header[11..15]);
      var end := off + 15 + k + v;
      if end + 4 > |file| then Parse(file[off..]) == []
      else
        var key, val := file[off + 15..off + 15 + k], file[off + 15 + k..end];
        if Sum(header, key, val) != file[end..end + 4] then Parse(file[off..]) == []
        else Parse(file[off..]) == [LogEntry(header[0], FromLE(header[1..9]), key, val)] + Parse(file[end + 4..])
  {
    hide Sum, Checksum, FromLE, Parse, ParseOne;
    var bs := file[off..];
    ParseUnfold(bs);
    if off + 15 > |file| {
      TooShort(bs);
    } else {
      var header := file[off..off + 15];
      var k, v := FromLE(header[9..11]), FromLE(header[11..15]);
      assert bs[..15] == header;
      assert bs[9..11] == bs[..15][9..11] && bs[11..15] == bs[..15][11..15];
      OneUnfold(bs, k, v);
      if off + 15 + k + v + 4 <= |file| {
        SameSlices(file, off, k, v);
        assert bs[15 + k + v + 4..] == file[off + 15 + k + v + 4..];
      }
    }
  }

  lemma ParseUnfold(bs: seq<byte>)
    ensures Parse(bs) == match ParseOne(bs) case None => [] case Some(p) => [p.entry] + Parse(bs[p.size..])
  {
    hide ParseOne;
  }

  lemma TooShort(bs: seq<byte>)
    requires |bs| < 15
    ensures ParseOne(bs) == None
  {
  }

  lemma OneUnfold(bs: seq<byte>, k: nat, v: nat)
    requires |bs| >= 15 && k == FromLE(bs[9..11]) && v == FromLE(bs[11..15])
    ensures ParseOne(bs) ==
      if |bs| < 15 + k + v + 4
        || Sum(bs[..15], bs[15..15 + k], bs[15 + k..15 + k + v]) != bs[15 + k + v..15 + k + v + 4]
      then None
      else Some(Parsed(LogEntry(bs[0], FromLE(bs[1..9]), bs[15..15 + k], bs[15 + k..15 + k + v]), 15 + k + v + 4))
  {
    hide Sum, FromLE;
  }

  /** Reading at an offset of the file is reading the rest of the file from its start. */
  lemma SameSlices(file: seq<byte>, off: nat, k: nat, v: nat)
    requires off + 15 + k + v + 4 <= |file|
    ensures var bs := file[off..];
      && bs[..15] == file[off..off + 15] && bs[0] == file[off..off + 15][0]
      && bs[1..9] == file[off..off + 15][1..9]
      && bs[9..11] == file[off..off + 15][9..11] && bs[11..15] == file[off..off + 15][11..15]
      && bs[15..15 + k] == file[off + 15..off + 15 + k]
      && bs[15 + k..15 + k + v] == file[off + 15 + k..off + 15 + k + v]
      && bs[15 + k + v..15 + k + v + 4] == file[off + 15 + k + v..off + 15 + k + v + 4]
  {
  }

  /** A record appended to a clean log is replayed; of a part of it nothing is. */
  lemma AppendParses(es: seq<LogEntry>, e: LogEntry)
    requires AllWritable(es) && Writable(e)
    ensures AllWritable(es + [e])
    ensures Records(es + [e]) == Records(es) + Record(e)
    ensures Parse(Records(es) + Record(e)) == es + [e]
    ensures forall n :: 0 <= n < |Record(e)| ==> Parse(Records(es) + Record(e)[..n]) == es
  {
    hide Record, Writable, Parse;
    RecordsAppend(es, [e]);
    assert Records([e]) == Record(e) + Records([]) == Record(e);
    ParseRecords(es + [e], []);
    ParseEmpty();
    assert Records(es) + Record(e) == Records(es + [e]) + [];
    forall n | 0 <= n < |Record(e)|
      ensures Parse(Records(es) + Record(e)[..n]) == es
    {
      ParseRecords(es, Record(e)[..n]);
      ParseTorn(e, n);
    }
  }

  lemma ParseEmpty()
    ensures Parse([]) == []
  {
  }
}
