/** The typed values of schema.go and their byte encoding. */
module Values {
  import opened Keys
  import opened Bytes

  const TYPE_INT: byte := 0x01
  const TYPE_FLOAT: byte := 0x02
  const TYPE_TEXT: byte := 0x03
  const TYPE_BOOL: byte := 0x04
  const TYPE_BYTES: byte := 0x05
  const TYPE_SEMI: byte := 0x06
  const TYPE_NULL: byte := 0xFF

  /** A cell value. A float is its 64-bit pattern; text is its UTF-8 bytes. */
  datatype Value =
    | Null
    | Int(i: int)
    | Float(bits: nat)
    | Text(text: seq<byte>)
    | Bool(b: bool)
    | Bytes(bytes: seq<byte>)
    | Semi(fields: map<Key, Value>)

  /** A value together with the order in which its encoder happens to visit the fields of every map in it.
      Go leaves that order open, so what is proved of the encoding is proved for all orders. */
  datatype Ordered =
    | ONull
    | OInt(i: int)
    | OFloat(bits: nat)
    | OText(text: seq<byte>)
    | OBool(b: bool)
    | OBytes(bytes: seq<byte>)
    | OSemi(ofields: seq<Field>)

  datatype Field = Field(name: Key, value: Ordered)

  function Denote(o: Ordered): Value {
    match o
    case ONull => Null
    case OInt(i) => Int(i)
    case OFloat(bits) => Float(bits)
    case OText(t) => Text(t)
    case OBool(b) => Bool(b)
    case OBytes(bs) => Bytes(bs)
    case OSemi(fs) => Semi(DenoteFields(fs))
  }

  function DenoteFields(fs: seq<Field>): map<Key, Value> {
    if fs == [] then map[] else map[fs[0].name := Denote(fs[0].value)] + DenoteFields(fs[1..])
  }

  /** An int64, a float's 64 bits, and lengths that fit their 4-byte fields; each name once in its map. */
  ghost predicate Good(o: Ordered) {
    match o
    case ONull => true
    case OInt(i) => -0x8000_0000_0000_0000 <= i < 0x8000_0000_0000_0000
    case OFloat(bits) => bits < 0x1_0000_0000_0000_0000
    case OText(t) => |t| < 0x1_0000_0000
    case OBool(_) => true
    case OBytes(bs) => |bs| < 0x1_0000_0000
    case OSemi(fs) => |fs| < 0x1_0000_0000 && GoodFields(fs)
  }

  ghost predicate GoodFields(fs: seq<Field>) {
    && (forall i, j :: 0 <= i < j < |fs| ==> fs[i].name != fs[j].name)
    && (forall i :: 0 <= i < |fs| ==> |fs[i].name| < 0x1_0000_0000 && Good(fs[i].value))
  }

  function ToU64(i: int): nat
    requires -0x8000_0000_0000_0000 <= i
  {
    if i < 0 then i + 0x1_0000_0000_0000_0000 else i
  }

  function FromU64(u: nat): int {
    if u >= 0x8000_0000_0000_0000 then u - 0x1_0000_0000_0000_0000 else u
  }

  function Encode(o: Ordered): seq<byte> {
    match o
    case ONull => [TYPE_NULL]
    case OInt(i) => [TYPE_INT] + LE(if i >= -0x8000_0000_0000_0000 then ToU64(i) else 0, 8)
    case OFloat(bits) => [TYPE_FLOAT] + LE(bits, 8)
    case OText(t) => [TYPE_TEXT] + LE(|t|, 4) + t
    case OBool(b) => [TYPE_BOOL, if b then 1 else 0]
    case OBytes(bs) => [TYPE_BYTES] + LE(|bs|, 4) + bs
    case OSemi(fs) => [TYPE_SEMI] + LE(|fs|, 4) + EncodeFields(fs)
  }

  function EncodeFields(fs: seq<Field>): seq<byte> {
    if fs == [] then [] else LE(|fs[0].name|, 4) + fs[0].name + Encode(fs[0].value) + EncodeFields(fs[1..])
  }

  /** A value by its bytes: the tag, then eight bytes of a number, or four of a length and what is that long. */
  lemma ValueLayout(o: Ordered)
    requires Good(o)
    ensures var e := Encode(o);
      match o
      case ONull => e == [0xFF]
      case OInt(i) => |e| == 9 && e[0] == 1 && FromLE(e[1..]) == (if i < 0 then i + 0x1_0000_0000_0000_0000 else i)
      case OFloat(bits) => |e| == 9 && e[0] == 2 && FromLE(e[1..]) == bits
      case OText(t) => |e| == 5 + |t| && e[0] == 3 && FromLE(e[1..5]) == |t| && e[5..] == t
      case OBool(b) => e == [4, if b then 1 else 0]
      case OBytes(bs) => |e| == 5 + |bs| && e[0] == 5 && FromLE(e[1..5]) == |bs| && e[5..] == bs
      case OSemi(fs) =>
        && |e| >= 5 && e[0] == 6 && FromLE(e[1..5]) == |fs|
        && (fs != [] ==>
              && |e| >= 9 + |fs[0].name| && FromLE(e[5..9]) == |fs[0].name|
              && e[9..9 + |fs[0].name|] == fs[0].name && Encode(fs[0].value) <= e[9 + |fs[0].name|..])
  {
    hide FromLE, LE;
    Pow256Values();
    var e := Encode(o);
    match o {
      case OInt(i) =>
        LERoundTrip(ToU64(i), 8);
        assert e[1..] == LE(ToU64(i), 8);
      case OFloat(bits) =>
        LERoundTrip(bits, 8);
        assert e[1..] == LE(bits, 8);
      case OText(t) =>
        LERoundTrip(|t|, 4);
        assert e[1..5] == LE(|t|, 4);
      case OBytes(t) =>
        LERoundTrip(|t|, 4);
        assert e[1..5] == LE(|t|, 4);
      case OSemi(fs) =>
        LERoundTrip(|fs|, 4);
        assert e[1..5] == LE(|fs|, 4);
        if fs != [] {
          FieldBytes(fs);
          assert e[5..] == EncodeFields(fs);
          assert e[5..9] == EncodeFields(fs)[..4];
          assert e[9..] == EncodeFields(fs)[4..];
        }
      case _ =>
    }
  }

  lemma FieldBytes(fs: seq<Field>)
    requires fs != [] && |fs[0].name| < 0x1_0000_0000
    ensures var b, n := EncodeFields(fs), |fs[0].name|;
      && |b| >= 4 + n && FromLE(b[..4]) == n && b[4..4 + n] == fs[0].name
      && b[4..][..n] == fs[0].name && Encode(fs[0].value) <= b[4..][n..]
  {
    hide FromLE, LE;
    var b, n := EncodeFields(fs), |fs[0].name|;
    Pow256Values();
    LERoundTrip(n, 4);
    assert b == LE(n, 4) + (fs[0].name + (Encode(fs[0].value) + EncodeFields(fs[1..])));
    assert b[..4] == LE(n, 4);
    assert b[4..] == fs[0].name + (Encode(fs[0].value) + EncodeFields(fs[1..]));
    assert b[4..][n..] == Encode(fs[0].value) + EncodeFields(fs[1..]);
  }

  /** A decoded value and the number of bytes it took. */
  datatype Decoded = Decoded(value: Value, size: nat)

  datatype DecodedFields = DecodedFields(fields: map<Key, Value>, size: nat)

  function Decode(d: seq<byte>): (r: Option<Decoded>)
    ensures r.Some? ==> 0 < r.value.size <= |d|
    decreases |d|
  {
    if |d| == 0 then None
    else if d[0] == TYPE_NULL then Some(Decoded(Null, 1))
    else if d[0] == TYPE_INT then
      if |d| < 9 then None else Some(Decoded(Int(FromU64(FromLE(d[1..9]))), 9))
    else if d[0] == TYPE_FLOAT then
      if |d| < 9 then None else Some(Decoded(Float(FromLE(d[1..9])), 9))
    else if d[0] == TYPE_TEXT || d[0] == TYPE_BYTES then
      if |d| < 5 then None
      else
        var l := FromLE(d[1..5]);
        if |d| < 5 + l then None
        else Some(Decoded(if d[0] == TYPE_TEXT then Text(d[5..5 + l]) else Bytes(d[5..5 + l]), 5 + l))
    else if d[0] == TYPE_BOOL then
      if |d| < 2 then None else Some(Decoded(Bool(d[1] == 1), 2))
    else if d[0] == TYPE_SEMI then
      if |d| < 5 then None
      else
        match DecodeFields(d[5..], FromLE(d[1..5]), map[])
        case None => None
        case Some(f) => Some(Decoded(Semi(f.fields), 5 + f.size))
    else None
  }

  /** count fields off the front of d, added to m. */
  function DecodeFields(d: seq<byte>, count: nat, m: map<Key, Value>): (r: Option<DecodedFields>)
    ensures r.Some? ==> r.value.size <= |d|
    decreases |d|
  {
    if count == 0 then Some(DecodedFields(m, 0))
    else if |d| < 4 then None
    else
      var k := FromLE(d[..4]);
      if |d| < 4 + k then None
      else
        match Decode(d[4 + k..])
        case None => None
        case Some(v) =>
          var at := 4 + k + v.size;
          match DecodeFields(d[at..], count - 1, m[d[4..4 + k] := v.value])
          case None => None
          case Some(f) => Some(DecodedFields(f.fields, at + f.size))
  }

  /** DecodeValue: the switch on the type byte. */
  method DecodeValue(data: seq<byte>) returns (r: Option<Decoded>)
    ensures r == Decode(data)
    decreases |data|, 1
  {
    hide DecodeFields, FromLE;
    if |data| == 0 {
      return None;
    }
    if data[0] == TYPE_NULL {
      r := Some(Decoded(Null, 1));
    } else if data[0] == TYPE_INT {
      r := if |data| < 9 then None else Some(Decoded(Int(FromU64(FromLE(data[1..9]))), 9));
    } else if data[0] == TYPE_FLOAT {
      r := if |data| < 9 then None else Some(Decoded(Float(FromLE(data[1..9])), 9));
    } else if data[0] == TYPE_TEXT {
      var t := DecodeBlock(data);
      r := if t.None? then None else Some(Decoded(Text(t.value), 5 + |t.value|));
    } else if data[0] == TYPE_BOOL {
      r := if |data| < 2 then None else Some(Decoded(Bool(data[1] == 1), 2));
    } else if data[0] == TYPE_BYTES {
      var t := DecodeBlock(data);
      r := if t.None? then None else Some(Decoded(Bytes(t.value), 5 + |t.value|));
    } else if data[0] == TYPE_SEMI {
      r := DecodeSemi(data);
    } else {
      r := None;
    }
  }

  /** A length of four bytes and as many bytes as it says. */
  method DecodeBlock(data: seq<byte>) returns (r: Option<seq<byte>>)
    requires |data| > 0
    ensures r.Some? <==> |data| >= 5 && |data| >= 5 + FromLE(data[1..5])
    ensures r.Some? ==> r.value == data[5..5 + FromLE(data[1..5])]
  {
    if |data| < 5 {
      return None;
    }
    var l := FromLE(data[1..5]);
    if |data| < 5 + l {
      return None;
    }
    r := Some(data[5..5 + l]);
  }

  /** The loop of decodeSemi: count times a name and a value, each checked against the end of the data. */
  method DecodeSemi(data: seq<byte>) returns (r: Option<Decoded>)
    requires |data| > 0 && data[0] == TYPE_SEMI
    ensures r == Decode(data)
    decreases |data|, 0
  {
    hide Decode, DecodeFields, FromLE;
    DecodesAsSemi(data);
    if |data| < 5 {
      return None;
    }
    var count, off, m := FromLE(data[1..5]), 5, map[];
    ghost var all := DecodeFields(data[5..], count, m);
    assert all == Shifted(all, 0);
    for i := 0 to count
      invariant 5 <= off <= |data|
      invariant all == Shifted(DecodeFields(data[off..], count - i, m), off - 5)
    {
      FieldsAt(data, off, count - i, m);
      if off + 4 > |data| {
        return None;
      }
      var kLen := FromLE(data[off..off + 4]);
      if off + 4 + kLen > |data| {
        return None;
      }
      var k := data[off + 4..off + 4 + kLen];
      var v := DecodeValue(data[off + 4 + kLen..]);
      if v.None? {
        return None;
      }
      m := m[k := v.value.value];
      off := off + 4 + kLen + v.value.size;
    }
    NoFields(data[off..], m);
    r := Some(Decoded(Semi(m), off));
  }

  /** One round of the loop, seen from the front of what is left of the data. */
  lemma FieldsAt(data: seq<byte>, off: nat, count: nat, m: map<Key, Value>)
    requires off <= |data| && count > 0
    ensures off + 4 > |data| ==> DecodeFields(data[off..], count, m) == None
    ensures off + 4 <= |data| ==>
      var k := FromLE(data[off..off + 4]);
      if off + 4 + k > |data| then DecodeFields(data[off..], count, m) == None
      else
        var v := Decode(data[off + 4 + k..]);
        if v.None? then DecodeFields(data[off..], count, m) == None
        else
          var at := 4 + k + v.value.size;
          DecodeFields(data[off..], count, m)
          == Shifted(DecodeFields(data[off + at..], count - 1, m[data[off + 4..off + 4 + k] := v.value.value]), at)
  {
    hide Decode, FromLE, DecodeFields;
    var d := data[off..];
    FieldsShort(d, count, m);
    if off + 4 <= |data| {
      assert d[..4] == data[off..off + 4];
      var k := FromLE(d[..4]);
      if off + 4 + k <= |data| {
        assert d[4..4 + k] == data[off + 4..off + 4 + k] && d[4 + k..] == data[off + 4 + k..];
        var v := Decode(d[4 + k..]);
        if v.Some? {
          FieldsStep(d, count, m, k, v.value);
          assert d[4 + k + v.value.size..] == data[off + 4 + k + v.value.size..];
        }
      }
    }
  }

  /** When there is no next field, or no value for it. */
  lemma FieldsShort(d: seq<byte>, count: nat, m: map<Key, Value>)
    requires count > 0
    ensures (|d| < 4 || |d| < 4 + FromLE(d[..4]) || Decode(d[4 + FromLE(d[..4])..]) == None)
      ==> DecodeFields(d, count, m) == None
  {
    hide Decode, FromLE;
  }

  lemma DecodesAsSemi(data: seq<byte>)
    requires |data| > 0 && data[0] == TYPE_SEMI
    ensures Decode(data) == if |data| < 5 then None else
      match DecodeFields(data[5..], FromLE(data[1..5]), map[])
      case None => None
      case Some(f) => Some(Decoded(Semi(f.fields), 5 + f.size))
  {
    hide DecodeFields, FromLE;
  }

  /** The same result after n more bytes. */
  function Shifted(r: Option<DecodedFields>, n: nat): Option<DecodedFields> {
    match r
    case None => None
    case Some(f) => Some(DecodedFields(f.fields, n + f.size))
  }

  lemma PrefixField(a: seq<byte>, b: seq<byte>, c: seq<byte>)
    ensures (a + b + c)[|a|..|a| + |b|] == b && (a + b + c)[|a| + |b|..] == c && (a + b + c)[..|a|] == a
  {
  }

  /** Decoding what was encoded gives the value back and the exact number of bytes, whatever follows and
      whatever order the encoder visited the fields in. */
  lemma {:induction false} RoundTrip(o: Ordered, rest: seq<byte>)
    requires Good(o)
    ensures Decode(Encode(o) + rest) == Some(Decoded(Denote(o), |Encode(o)|))
  {
    hide DecodeFields, EncodeFields, DenoteFields, GoodFields;
    var d := Encode(o) + rest;
    Pow256Values();
    match o {
      case ONull =>
      case OInt(i) =>
        LERoundTrip(ToU64(i), 8);
        PrefixField([TYPE_INT], LE(ToU64(i), 8), rest);
      case OFloat(bits) =>
        LERoundTrip(bits, 8);
        PrefixField([TYPE_FLOAT], LE(bits, 8), rest);
      case OText(t) => TextRoundTrip(TYPE_TEXT, t, rest);
      case OBool(_) =>
      case OBytes(bs) => TextRoundTrip(TYPE_BYTES, bs, rest);
      case OSemi(fs) =>
        FieldsRoundTrip(fs, rest, map[]);
        assert map[] + DenoteFields(fs) == DenoteFields(fs);
        SemiStep(fs, rest);
    }
  }

  lemma SemiStep(fs: seq<Field>, rest: seq<byte>)
    requires |fs| < 0x1_0000_0000
    ensures Decode(Encode(OSemi(fs)) + rest) ==
      match DecodeFields(EncodeFields(fs) + rest, |fs|, map[])
      case None => None
      case Some(f) => Some(Decoded(Semi(f.fields), 5 + f.size))
  {
    hide DecodeFields, EncodeFields, LE, FromLE;
    var d := Encode(OSemi(fs)) + rest;
    Pow256Values();
    LERoundTrip(|fs|, 4);
    PrefixField([TYPE_SEMI], LE(|fs|, 4), EncodeFields(fs) + rest);
    assert d == [TYPE_SEMI] + LE(|fs|, 4) + (EncodeFields(fs) + rest);
  }

  lemma TextRoundTrip(tag: byte, t: seq<byte>, rest: seq<byte>)
    requires |t| < 0x1_0000_0000
    ensures var d := [tag] + LE(|t|, 4) + t + rest;
      d[0] == tag && FromLE(d[1..5]) == |t| && d[5..5 + |t|] == t
  {
    hide LE, FromLE;
    Pow256Values();
    LERoundTrip(|t|, 4);
    ThreeParts([tag], LE(|t|, 4), t, rest);
  }

  lemma ThreeParts(a: seq<byte>, b: seq<byte>, c: seq<byte>, rest: seq<byte>)
    requires |a| == 1 && |b| == 4
    ensures var d := a + b + c + rest; d[0] == a[0] && d[1..5] == b && d[5..5 + |c|] == c
  {
  }

  lemma {:induction false} FieldsRoundTrip(fs: seq<Field>, rest: seq<byte>, m: map<Key, Value>)
    requires GoodFields(fs)
    ensures DecodeFields(EncodeFields(fs) + rest, |fs|, m)
         == Some(DecodedFields(m + DenoteFields(fs), |EncodeFields(fs)|))
  {
    hide Decode, DecodeFields, Encode, LE, FromLE, Good;
    if fs == [] {
      NoFields(rest, m);
      assert m + map[] == m && EncodeFields(fs) + rest == rest;
    } else {
      var f, d := fs[0], EncodeFields(fs) + rest;
      var k, e := |f.name|, Encode(f.value);
      FieldLayout(fs, rest);
      RoundTrip(f.value, EncodeFields(fs[1..]) + rest);
      FieldsStep(d, |fs|, m, k, Decoded(Denote(f.value), |e|));
      FieldsRoundTrip(fs[1..], rest, m[f.name := Denote(f.value)]);
      DenoteStep(fs, m);
    }
  }

  /** Where the parts of the first field lie. */
  lemma FieldLayout(fs: seq<Field>, rest: seq<byte>)
    requires fs != [] && |fs[0].name| < 0x1_0000_0000
    ensures |EncodeFields(fs)| == 4 + |fs[0].name| + |Encode(fs[0].value)| + |EncodeFields(fs[1..])|
    ensures var f, d, tail := fs[0], EncodeFields(fs) + rest, EncodeFields(fs[1..]) + rest;
      var k, e := |f.name|, Encode(f.value);
      && FromLE(d[..4]) == k && d[4..4 + k] == f.name
      && d[4 + k..] == e + tail && d[4 + k + |e|..] == tail
  {
    hide Encode, LE, FromLE, EncodeFields;
    Pow256Values();
    LERoundTrip(|fs[0].name|, 4);
    FirstField(fs);
    FourParts(LE(|fs[0].name|, 4), fs[0].name, Encode(fs[0].value), EncodeFields(fs[1..]), rest);
  }

  lemma FourParts(a: seq<byte>, b: seq<byte>, c: seq<byte>, t: seq<byte>, rest: seq<byte>)
    ensures var d := a + b + c + t + rest;
      && d[..|a|] == a && d[|a|..|a| + |b|] == b && d[|a| + |b|..] == c + (t + rest)
      && d[|a| + |b| + |c|..] == t + rest
  {
    assert a + b + c + t + rest == a + b + (c + (t + rest));
  }

  lemma FirstField(fs: seq<Field>)
    requires fs != []
    ensures EncodeFields(fs) == LE(|fs[0].name|, 4) + fs[0].name + Encode(fs[0].value) + EncodeFields(fs[1..])
  {
    hide Encode, LE;
  }

  lemma NoFields(d: seq<byte>, m: map<Key, Value>)
    ensures DecodeFields(d, 0, m) == Some(DecodedFields(m, 0))
  {
  }

  lemma FieldsStep(d: seq<byte>, count: nat, m: map<Key, Value>, k: nat, v: Decoded)
    requires count > 0 && 4 + k <= |d| && FromLE(d[..4]) == k && Decode(d[4 + k..]) == Some(v)
    ensures 0 < v.size && 4 + k + v.size <= |d|
    ensures DecodeFields(d, count, m) ==
      var at := 4 + k + v.size;
      match DecodeFields(d[at..], count - 1, m[d[4..4 + k] := v.value])
      case None => None
      case Some(f) => Some(DecodedFields(f.fields, at + f.size))
  {
    hide Decode, FromLE;
  }

  lemma DenoteStep(fs: seq<Field>, m: map<Key, Value>)
    requires fs != [] && GoodFields(fs)
    ensures m[fs[0].name := Denote(fs[0].value)] + DenoteFields(fs[1..]) == m + DenoteFields(fs)
  {
    NamesOnce(fs);
  }

  lemma NamesOnce(fs: seq<Field>)
    requires fs != [] && GoodFields(fs)
    ensures fs[0].name !in DenoteFields(fs[1..])
  {
    FieldNames(fs[1..]);
  }

  lemma {:induction false} FieldNames(fs: seq<Field>)
    ensures forall k :: k in DenoteFields(fs) ==> exists i :: 0 <= i < |fs| && fs[i].name == k
  {
    if fs != [] {
      FieldNames(fs[1..]);
      forall k | k in DenoteFields(fs)
        ensures exists i :: 0 <= i < |fs| && fs[i].name == k
      {
        if k in DenoteFields(fs[1..]) {
          var j :| 0 <= j < |fs[1..]| && fs[1..][j].name == k;
          assert fs[j + 1].name == k;
        } else {
          assert fs[0].name == k;
        }
      }
    }
  }

  /** Encodings are prefix-free: equal byte strings start with encodings of equal values. */
  lemma EncodingsDiffer(a: Ordered, b: Ordered, ra: seq<byte>, rb: seq<byte>)
    requires Good(a) && Good(b) && Encode(a) + ra == Encode(b) + rb
    ensures Denote(a) == Denote(b) && |Encode(a)| == |Encode(b)|
  {
    RoundTrip(a, ra);
    RoundTrip(b, rb);
  }

  /** The values of Go's types whose lengths fit their 4-byte fields. */
  ghost predicate Fine(v: Value) {
    match v
    case Null => true
    case Int(i) => -0x8000_0000_0000_0000 <= i < 0x8000_0000_0000_0000
    case Float(bits) => bits < 0x1_0000_0000_0000_0000
    case Text(t) => |t| < 0x1_0000_0000
    case Bool(_) => true
    case Bytes(bs) => |bs| < 0x1_0000_0000
    case Semi(m) => |m| < 0x1_0000_0000 && forall k :: k in m ==> |k| < 0x1_0000_0000 && Fine(m[k])
  }

  /** The entries of m at ks. */
  ghost function Only(m: map<Key, Value>, ks: set<Key>): map<Key, Value>
    requires ks <= m.Keys
  {
    map k | k in ks :: m[k]
  }

  /** fs encodes the entries of m at ks. */
  ghost predicate Orders(fs: seq<Field>, m: map<Key, Value>, ks: set<Key>)
    requires ks <= m.Keys
  {
    && GoodFields(fs) && |fs| == |ks| && DenoteFields(fs) == Only(m, ks)
    && forall i :: 0 <= i < |fs| ==> fs[i].name in ks
  }

  /** EncodeValue. The ghost result tells the order in which the loop happened to visit each map. */
  method EncodeValue(v: Value) returns (b: seq<byte>, ghost o: Ordered)
    requires Fine(v)
    ensures Good(o) && Denote(o) == v && b == Encode(o)
    ensures Decode(b) == Some(Decoded(v, |b|))
    decreases v, 1
  {
    hide Decode, LE, EncodeFields, DenoteFields, GoodFields;
    match v {
      case Null => b, o := [TYPE_NULL], ONull;
      case Int(i) => b, o := [TYPE_INT] + LE(ToU64(i), 8), OInt(i);
      case Float(bits) => b, o := [TYPE_FLOAT] + LE(bits, 8), OFloat(bits);
      case Text(t) => b, o := [TYPE_TEXT] + LE(|t|, 4) + t, OText(t);
      case Bool(x) => b, o := [TYPE_BOOL, if x then 1 else 0], OBool(x);
      case Bytes(bs) => b, o := [TYPE_BYTES] + LE(|bs|, 4) + bs, OBytes(bs);
      case Semi(m) =>
        var buf;
        ghost var fs;
        buf, fs := EncodeEntries(v);
        b, o := [TYPE_SEMI] + LE(|m|, 4) + buf, OSemi(fs);
    }
    WholeRoundTrip(o);
  }

  lemma WholeRoundTrip(o: Ordered)
    requires Good(o)
    ensures Decode(Encode(o)) == Some(Decoded(Denote(o), |Encode(o)|))
  {
    hide Decode, Encode, Denote, Good;
    RoundTrip(o, []);
    assert Encode(o) + [] == Encode(o);
  }

  /** A text or byte string comes back exactly when its length fits the four bytes written for it. */
  lemma LengthBackIff(t: seq<byte>)
    ensures Decode(Encode(OText(t))) == Some(Decoded(Text(t), 5 + |t|)) <==> |t| < 0x1_0000_0000
    ensures Decode(Encode(OBytes(t))) == Some(Decoded(Bytes(t), 5 + |t|)) <==> |t| < 0x1_0000_0000
  {
    hide FromLE, LE;
    if |t| < 0x1_0000_0000 {
      WholeRoundTrip(OText(t));
      WholeRoundTrip(OBytes(t));
    } else {
      FromLEBounds(Encode(OText(t)));
      FromLEBounds(Encode(OBytes(t)));
    }
  }

  /** The loop of encodeSemi and of Row.Encode: one round per entry of the map, in no particular order. */
  method EncodeEntries(v: Value) returns (buf: seq<byte>, ghost fs: seq<Field>)
    requires v.Semi? && Fine(v)
    ensures GoodFields(fs) && |fs| == |v.fields| && DenoteFields(fs) == v.fields && buf == EncodeFields(fs)
    decreases v, 0
  {
    hide Orders, Good, Encode, LE, Denote;
    var todo := v.fields.Keys;
    buf, fs := [], [];
    OrdersNone(v.fields);
    while todo != {}
      invariant todo <= v.fields.Keys && buf == EncodeFields(fs)
      invariant Orders(fs, v.fields, v.fields.Keys - todo)
    {
      var k :| k in todo;
      var b;
      ghost var o;
      b, o := EncodeValue(v.fields[k]);
      ghost var done := v.fields.Keys - todo;
      OrdersAppend(fs, v.fields, done, Field(k, o));
      EncodeAppend(fs, Field(k, o));
      buf := buf + LE(|k|, 4) + k + b;
      fs := fs + [Field(k, o)];
      todo := todo - {k};
      assert v.fields.Keys - todo == done + {k};
    }
    OrdersAll(fs, v.fields);
  }

  lemma OrdersNone(m: map<Key, Value>)
    ensures Orders([], m, m.Keys - m.Keys)
  {
    assert m.Keys - m.Keys == {};
    assert Only(m, {}) == map[];
  }

  lemma OrdersAll(fs: seq<Field>, m: map<Key, Value>)
    requires Orders(fs, m, m.Keys - {})
    ensures GoodFields(fs) && |fs| == |m| && DenoteFields(fs) == m
  {
    hide GoodFields, DenoteFields;
    assert m.Keys - {} == m.Keys;
    assert Only(m, m.Keys) == m;
  }

  lemma OrdersAppend(fs: seq<Field>, m: map<Key, Value>, ks: set<Key>, f: Field)
    requires ks <= m.Keys && f.name in m.Keys - ks && Orders(fs, m, ks)
    requires Good(f.value) && |f.name| < 0x1_0000_0000 && Denote(f.value) == m[f.name]
    ensures Orders(fs + [f], m, ks + {f.name})
  {
    hide DenoteFields, Denote, Good;
    DenoteAppend(fs, f);
    assert Only(m, ks + {f.name}) == Only(m, ks)[f.name := m[f.name]];
    var all := fs + [f];
    forall i | 0 <= i < |all|
      ensures all[i].name in ks + {f.name} && |all[i].name| < 0x1_0000_0000 && Good(all[i].value)
      ensures i < |fs| ==> all[i] == fs[i] && all[i].name != f.name
    {
    }
  }

  lemma {:induction false} DenoteAppend(fs: seq<Field>, f: Field)
    requires forall i :: 0 <= i < |fs| ==> fs[i].name != f.name
    ensures DenoteFields(fs + [f]) == DenoteFields(fs)[f.name := Denote(f.value)]
  {
    hide Denote, DenoteFields;
    if fs == [] {
      assert fs + [f] == [f];
      SoleField([f]);
      NoDenoted();
    } else {
      DenoteAppend(fs[1..], f);
      assert (fs + [f])[1..] == fs[1..] + [f];
      FirstDenoted(fs);
      FirstDenoted(fs + [f]);
    }
  }

  lemma NoDenoted()
    ensures DenoteFields([]) == map[]
  {
  }

  lemma FirstDenoted(fs: seq<Field>)
    requires fs != []
    ensures DenoteFields(fs) == map[fs[0].name := Denote(fs[0].value)] + DenoteFields(fs[1..])
  {
    hide Denote;
  }

  lemma {:induction false} EncodeAppend(fs: seq<Field>, f: Field)
    ensures EncodeFields(fs + [f]) == EncodeFields(fs) + LE(|f.name|, 4) + f.name + Encode(f.value)
  {
    hide Encode, LE;
    if fs == [] {
      assert fs + [f] == [f] && [f][1..] == [];
    } else {
      EncodeAppend(fs[1..], f);
      assert (fs + [f])[1..] == fs[1..] + [f];
    }
  }

  /** Whatever decodes has the sizes its encoding can express, and no more fields than bytes. */
  lemma {:induction false} DecodedFine(d: seq<byte>)
    requires Decode(d).Some?
    ensures Fine(Decode(d).value.value)
    decreases |d|
  {
    hide DecodeFields;
    FromLEBounds(d);
    if d[0] == TYPE_SEMI {
      DecodedFieldsFine(d[5..], FromLE(d[1..5]), map[]);
    }
  }

  lemma FromLEBounds(d: seq<byte>)
    ensures |d| >= 5 ==> FromLE(d[1..5]) < 0x1_0000_0000
    ensures |d| >= 9 ==> FromLE(d[1..9]) < 0x1_0000_0000_0000_0000
    ensures |d| >= 4 ==> FromLE(d[..4]) < 0x1_0000_0000
  {
    Pow256Values();
    if |d| >= 5 { FromLEBound(d[1..5]); }
    if |d| >= 9 { FromLEBound(d[1..9]); }
    if |d| >= 4 { FromLEBound(d[..4]); }
  }

  ghost predicate FineEntries(m: map<Key, Value>) {
    forall k :: k in m ==> |k| < 0x1_0000_0000 && Fine(m[k])
  }

  lemma {:induction false} DecodedFieldsFine(d: seq<byte>, count: nat, m: map<Key, Value>)
    requires DecodeFields(d, count, m).Some? && FineEntries(m)
    ensures var r := DecodeFields(d, count, m).value;
      && |r.fields| <= |m| + count && |r.fields| <= |m| + r.size && FineEntries(r.fields)
    decreases |d|
  {
    hide Decode, FromLE, Fine, DecodeFields, FineEntries;
    if count == 0 {
      NoFields(d, m);
    } else {
      FieldsShort(d, count, m);
      var k := FromLE(d[..4]);
      var v := Decode(d[4 + k..]).value;
      FieldsStep(d, count, m, k, v);
      DecodedFine(d[4 + k..]);
      FromLEBounds(d);
      OneMore(m, d[4..4 + k], v.value);
      DecodedFieldsFine(d[4 + k + v.size..], count - 1, m[d[4..4 + k] := v.value]);
    }
  }

  lemma OneMore(m: map<Key, Value>, k: Key, v: Value)
    requires FineEntries(m) && |k| < 0x1_0000_0000 && Fine(v)
    ensures FineEntries(m[k := v]) && |m[k := v]| <= |m| + 1
  {
    hide Fine;
    assert m[k := v].Keys == m.Keys + {k};
  }

  // ---------------------------------------------------------------------------------------------
  // Rows and their keys

  /** [4B column count] and the columns, in whatever order the row's map yields them. */
  function EncodeRow(cols: seq<Field>): seq<byte> {
    LE(|cols|, 4) + EncodeFields(cols)
  }

  function DecodeRow(d: seq<byte>): Option<map<Key, Value>> {
    if |d| < 4 then None
    else
      match DecodeFields(d[4..], FromLE(d[..4]), map[])
      case None => None
      case Some(f) => Some(f.fields)
  }

  /** Rows come back whole, whatever order their columns were written in and whatever follows. */
  lemma RowRoundTrip(cols: seq<Field>, rest: seq<byte>)
    requires |cols| < 0x1_0000_0000 && GoodFields(cols)
    ensures DecodeRow(EncodeRow(cols) + rest) == Some(DenoteFields(cols))
  {
    hide DecodeFields, EncodeFields, LE, FromLE;
    var d := EncodeRow(cols) + rest;
    Pow256Values();
    LERoundTrip(|cols|, 4);
    assert d == LE(|cols|, 4) + (EncodeFields(cols) + rest);
    assert d[..4] == LE(|cols|, 4) && d[4..] == EncodeFields(cols) + rest;
    FieldsRoundTrip(cols, rest, map[]);
    assert map[] + DenoteFields(cols) == DenoteFields(cols);
  }

  /** Row.Encode. */
  method EncodeRowValues(row: map<Key, Value>) returns (b: seq<byte>, ghost cols: seq<Field>)
    requires Fine(Semi(row))
    ensures GoodFields(cols) && DenoteFields(cols) == row && b == EncodeRow(cols)
    ensures DecodeRow(b) == Some(row)
  {
    b, cols := EncodeEntries(Semi(row));
    RowRoundTrip(cols, []);
    assert EncodeRow(cols) + [] == EncodeRow(cols);
    b := LE(|row|, 4) + b;
  }

  lemma DecodedRowFine(d: seq<byte>)
    requires DecodeRow(d).Some?
    ensures Fine(Semi(DecodeRow(d).value)) && |DecodeRow(d).value| <= |d|
  {
    FromLEBounds(d);
    DecodedFieldsFine(d[4..], FromLE(d[..4]), map[]);
  }

  const COLON: byte := 58

  /** The engine key of a row: table name, colon, encoded primary key. */
  function RowKey(table: Key, pk: Ordered): (k: Key)
    ensures |k| > |table| && k[|table|] == ':' as int as byte
  {
    table + [COLON] + Encode(pk)
  }

  /** Table names without a colon keep tables apart: equal row keys mean the same table and the same primary key. */
  lemma RowKeysDiffer(t1: Key, pk1: Ordered, t2: Key, pk2: Ordered)
    requires COLON !in t1 && COLON !in t2 && Good(pk1) && Good(pk2)
    requires RowKey(t1, pk1) == RowKey(t2, pk2)
    ensures t1 == t2 && Denote(pk1) == Denote(pk2)
  {
    TableOfKey(t1, Encode(pk1), t2, Encode(pk2));
    assert RowKey(t1, pk1)[|t1| + 1..] == Encode(pk1) && RowKey(t2, pk2)[|t2| + 1..] == Encode(pk2);
    assert Encode(pk1) + [] == Encode(pk1) && Encode(pk2) + [] == Encode(pk2);
    EncodingsDiffer(pk1, pk2, [], []);
  }

  /** The first colon ends the table name. */
  lemma TableOfKey(t1: Key, r1: seq<byte>, t2: Key, r2: seq<byte>)
    requires COLON !in t1 && COLON !in t2 && t1 + [COLON] + r1 == t2 + [COLON] + r2
    ensures t1 == t2
  {
    var k := t1 + [COLON] + r1;
    assert k[|t1|] == COLON && k[|t2|] == (t2 + [COLON] + r2)[|t2|] == COLON;
    assert forall i :: 0 <= i < |t1| ==> k[i] == t1[i];
    assert forall i :: 0 <= i < |t2| ==> k[i] == (t2 + [COLON] + r2)[i] == t2[i];
    assert k[..|t1|] == t1 && (t2 + [COLON] + r2)[..|t2|] == t2;
  }

  /** A value without a map in it has just one encoding, so the row key is a function of the row. */
  lemma ScalarKeyUnique(table: Key, pk1: Ordered, pk2: Ordered)
    requires !pk1.OSemi? && Denote(pk1) == Denote(pk2)
    ensures RowKey(table, pk1) == RowKey(table, pk2)
  {
  }

  /** Every map in the value, at any depth, has at most one field. */
  predicate Narrow(v: Value) {
    v.Semi? ==> |v.fields| <= 1 && forall k :: k in v.fields ==> Narrow(v.fields[k])
  }

  /** o is the value in some order. */
  ghost predicate Spells(o: Ordered, v: Value) {
    Good(o) && Denote(o) == v
  }

  /** A primary key identifies its row - all orders give the same row key - exactly when no map in it has two
      fields or more. */
  lemma KeyUniqueIff(table: Key, v: Value)
    requires Fine(v)
    ensures Narrow(v) <==>
      forall a, b :: Spells(a, v) && Spells(b, v) ==> RowKey(table, a) == RowKey(table, b)
  {
    hide Fine, Good, Denote, Encode, Narrow;
    if Narrow(v) {
      forall a, b | Spells(a, v) && Spells(b, v)
        ensures a == b
      {
        OneOrder(a, b);
      }
    } else {
      var a, b := TwoOrders(v);
      assert RowKey(table, a)[|table| + 1..] == Encode(a) && RowKey(table, b)[|table| + 1..] == Encode(b);
    }
  }

  lemma {:induction false} OneOrder(a: Ordered, b: Ordered)
    requires Good(a) && Good(b) && Denote(a) == Denote(b) && Narrow(Denote(a))
    ensures a == b
  {
    if a.OSemi? {
      FieldCount(a.ofields);
      FieldCount(b.ofields);
      if |a.ofields| == 1 {
        SoleField(a.ofields);
        SoleField(b.ofields);
        OneOrder(a.ofields[0].value, b.ofields[0].value);
      }
    }
  }

  lemma {:induction false} FieldCount(fs: seq<Field>)
    requires GoodFields(fs)
    ensures |DenoteFields(fs)| == |fs|
  {
    hide Denote, Good;
    if fs != [] {
      FieldCount(fs[1..]);
      NamesOnce(fs);
      assert DenoteFields(fs).Keys == {fs[0].name} + DenoteFields(fs[1..]).Keys;
    }
  }

  lemma SoleField(fs: seq<Field>)
    requires |fs| == 1
    ensures DenoteFields(fs) == map[fs[0].name := Denote(fs[0].value)] && DenoteFields(fs).Keys == {fs[0].name}
    ensures EncodeFields(fs) == LE(|fs[0].name|, 4) + fs[0].name + Encode(fs[0].value)
  {
    hide Denote, Encode, LE;
    assert DenoteFields(fs[1..]) == map[] && EncodeFields(fs[1..]) == [];
  }

  /** Some order for a value, and for the entries of a map at ks. */
  lemma {:induction false} AnOrder(v: Value) returns (o: Ordered)
    requires Fine(v)
    ensures Spells(o, v)
    decreases v, 0
  {
    match v {
      case Null => o := ONull;
      case Int(i) => o := OInt(i);
      case Float(bits) => o := OFloat(bits);
      case Text(t) => o := OText(t);
      case Bool(x) => o := OBool(x);
      case Bytes(bs) => o := OBytes(bs);
      case Semi(m) =>
        var fs := SomeFields(v, m.Keys);
        assert m.Keys == m.Keys - {};
        OrdersAll(fs, m);
        o := OSemi(fs);
    }
  }

  lemma {:induction false} SomeFields(v: Value, ks: set<Key>) returns (fs: seq<Field>)
    requires v.Semi? && Fine(v) && ks <= v.fields.Keys
    ensures Orders(fs, v.fields, ks)
    decreases v, 0, |ks|
  {
    if ks == {} {
      OrdersNone(v.fields);
      assert v.fields.Keys - v.fields.Keys == ks;
      fs := [];
    } else {
      hide Orders, Good, Denote;
      var k :| k in ks;
      var o := AnOrder(v.fields[k]);
      fs := SomeFields(v, ks - {k});
      OrdersAppend(fs, v.fields, ks - {k}, Field(k, o));
      assert ks - {k} + {k} == ks;
      fs := fs + [Field(k, o)];
    }
  }

  /** Two orders with different encodings. */
  lemma {:induction false} TwoOrders(v: Value) returns (a: Ordered, b: Ordered)
    requires Fine(v) && !Narrow(v)
    ensures Spells(a, v) && Spells(b, v) && Encode(a) != Encode(b)
    decreases v
  {
    hide Encode, Good, Denote;
    var m := v.fields;
    if |m| <= 1 {
      var k :| k in m && !Narrow(m[k]);
      var x, y := TwoOrders(m[k]);
      OneKey(m, k);
      a := Wrapped(v, k, x);
      b := Wrapped(v, k, y);
      Unwrapped(k, x, y);
    } else {
      a := AnOrder(v);
      b := Swapped(v, a);
    }
  }

  lemma OneKey(m: map<Key, Value>, k: Key)
    requires |m| <= 1 && k in m
    ensures m == map[k := m[k]]
  {
    var others := m.Keys - {k};
    assert m.Keys == others + {k};
    assert |m.Keys| == |others| + 1;
  }

  lemma Wrapped(v: Value, k: Key, x: Ordered) returns (o: Ordered)
    requires Fine(v) && v.Semi? && k in v.fields && v.fields == map[k := v.fields[k]] && Spells(x, v.fields[k])
    ensures o == OSemi([Field(k, x)]) && Spells(o, v)
  {
    o := OSemi([Field(k, x)]);
    SoleField(o.ofields);
  }

  lemma Unwrapped(k: Key, x: Ordered, y: Ordered)
    requires Encode(x) != Encode(y)
    ensures Encode(OSemi([Field(k, x)])) != Encode(OSemi([Field(k, y)]))
  {
    hide LE, EncodeFields;
    var fx, fy := [Field(k, x)], [Field(k, y)];
    SoleField(fx);
    SoleField(fy);
    SemiTail(fx);
    SemiTail(fy);
    assert EncodeFields(fx)[4 + |k|..] == Encode(x) && EncodeFields(fy)[4 + |k|..] == Encode(y);
  }

  lemma SemiTail(fs: seq<Field>)
    ensures |Encode(OSemi(fs))| >= 5 && Encode(OSemi(fs))[5..] == EncodeFields(fs)
  {
    hide EncodeFields, LE;
  }

  /** The first two fields change places. */
  lemma Swapped(v: Value, a: Ordered) returns (b: Ordered)
    requires v.Semi? && |v.fields| > 1 && Spells(a, v)
    ensures Spells(b, v) && Encode(a) != Encode(b)
  {
    hide Encode, Denote;
    IsMap(a, v);
    var fs := a.ofields;
    assert DenoteFields(fs) == v.fields && GoodFields(fs) by { MapOf(a); }
    FieldCount(fs);
    var gs := [fs[1], fs[0]] + fs[2..];
    b := OSemi(gs);
    SwapGood(fs, gs);
    SwapDenote(fs, gs);
    MapOf(b);
    if EncodeFields(fs) == EncodeFields(gs) {
      FieldLayout(fs, []);
      FieldLayout(gs, []);
    }
    SemiTail(fs);
    SemiTail(gs);
  }

  lemma IsMap(o: Ordered, v: Value)
    requires Spells(o, v) && v.Semi?
    ensures o.OSemi?
  {
  }

  lemma MapOf(o: Ordered)
    requires o.OSemi?
    ensures Denote(o) == Semi(DenoteFields(o.ofields))
    ensures Good(o) <==> |o.ofields| < 0x1_0000_0000 && GoodFields(o.ofields)
  {
    hide DenoteFields, GoodFields;
  }

  lemma SwapGood(fs: seq<Field>, gs: seq<Field>)
    requires |fs| >= 2 && GoodFields(fs) && gs == [fs[1], fs[0]] + fs[2..]
    ensures GoodFields(gs)
  {
    hide Good;
    assert forall i :: 2 <= i < |fs| ==> gs[i] == fs[i];
  }

  lemma SwapDenote(fs: seq<Field>, gs: seq<Field>)
    requires |fs| >= 2 && GoodFields(fs) && gs == [fs[1], fs[0]] + fs[2..]
    ensures DenoteFields(gs) == DenoteFields(fs)
  {
    hide Good, Denote;
    var r := fs[2..];
    assert fs[1..] == [fs[1]] + r && gs[1..] == [fs[0]] + r;
    assert fs[1..][1..] == r && gs[1..][1..] == r;
    assert DenoteFields(fs[1..]) == map[fs[1].name := Denote(fs[1].value)] + DenoteFields(r);
    assert DenoteFields(gs[1..]) == map[fs[0].name := Denote(fs[0].value)] + DenoteFields(r);
    SwapMaps(fs[0].name, Denote(fs[0].value), fs[1].name, Denote(fs[1].value), DenoteFields(r));
    NamesOnce(fs);
    NamesOnce(fs[1..]);
  }

  lemma SwapMaps(k: Key, v: Value, l: Key, w: Value, r: map<Key, Value>)
    requires k != l
    ensures map[k := v] + (map[l := w] + r) == map[l := w] + (map[k := v] + r)
  {
  }
}
