/** Header compression with the static table of RFC 7541, Appendix A: hpack.rs. Strings are their bytes. */
module Hpack {
  import opened Keys
  import opened Frames

  type Str = seq<byte>

  datatype Header = Header(name: Str, value: Str)

  /** The bytes of an ASCII string. */
  function Ascii(s: string): Str {
    seq(|s|, i requires 0 <= i < |s| => (s[i] as int % 256) as byte)
  }

  function Row(name: string, value: string): Header {
    Header(Ascii(name), Ascii(value))
  }

  /** Name and value of entry i + 1 of the table. */
  function StaticText(i: nat): (string, string)
    requires i < 61
  {
    match i
    case 0 => (":authority", "")
    case 1 => (":method", "GET")
    case 2 => (":method", "POST")
    case 3 => (":path", "/")
    case 4 => (":path", "/index.html")
    case 5 => (":scheme", "http")
    case 6 => (":scheme", "https")
    case 7 => (":status", "200")
    case 8 => (":status", "204")
    case 9 => (":status", "206")
    case 10 => (":status", "304")
    case 11 => (":status", "400")
    case 12 => (":status", "404")
    case 13 => (":status", "500")
    case 14 => ("accept-charset", "")
    case 15 => ("accept-encoding", "gzip, deflate")
    case 16 => ("accept-language", "")
    case 17 => ("accept-ranges", "")
    case 18 => ("accept", "")
    case 19 => ("access-control-allow-origin", "")
    case 20 => ("age", "")
    case 21 => ("allow", "")
    case 22 => ("authorization", "")
    case 23 => ("cache-control", "")
    case 24 => ("content-disposition", "")
    case 25 => ("content-encoding", "")
    case 26 => ("content-language", "")
    case 27 => ("content-length", "")
    case 28 => ("content-location", "")
    case 29 => ("content-range", "")
    case 30 => ("content-type", "")
    case 31 => ("cookie", "")
    case 32 => ("date", "")
    case 33 => ("etag", "")
    case 34 => ("expect", "")
    case 35 => ("expires", "")
    case 36 => ("from", "")
    case 37 => ("host", "")
    case 38 => ("if-match", "")
    case 39 => ("if-modified-since", "")
    case 40 => ("if-none-match", "")
    case 41 => ("if-range", "")
    case 42 => ("if-unmodified-since", "")
    case 43 => ("last-modified", "")
    case 44 => ("link", "")
    case 45 => ("location", "")
    case 46 => ("max-forwards", "")
    case 47 => ("proxy-authenticate", "")
    case 48 => ("proxy-authorization", "")
    case 49 => ("range", "")
    case 50 => ("referer", "")
    case 51 => ("refresh", "")
    case 52 => ("retry-after", "")
    case 53 => ("server", "")
    case 54 => ("set-cookie", "")
    case 55 => ("strict-transport-security", "")
    case 56 => ("transfer-encoding", "")
    case 57 => ("user-agent", "")
    case 58 => ("vary", "")
    case 59 => ("via", "")
    case _ => ("www-authenticate", "")
  }

  /** Entries 1 to 61, stored from index 0. */
  function StaticTable(): (t: seq<Header>)
    ensures |t| == 61
  {
    seq(61, i requires 0 <= i < 61 => Row(StaticText(i).0, StaticText(i).1))
  }

  // ---------------------------------------------------------------------------------------------
  // Encoding

  /** The first entry equal to h, counted from 1. */
  function StaticExact(t: seq<Header>, h: Header): (r: Option<nat>)
    ensures r.Some? ==> 1 <= r.value <= |t| && t[r.value - 1] == h && forall i :: 0 <= i < r.value - 1 ==> t[i] != h
    ensures r.Some? <==> h in t
  {
    if t == [] then None
    else
      match StaticExact(t[..|t| - 1], h)
      case Some(i) => Some(i)
      case None => if t[|t| - 1] == h then Some(|t|) else None
  }

  /** The first entry with that name, counted from 1. */
  function StaticName(t: seq<Header>, name: Str): (r: Option<nat>)
    ensures r.Some? ==>
      1 <= r.value <= |t| && t[r.value - 1].name == name && forall i :: 0 <= i < r.value - 1 ==> t[i].name != name
    ensures r.None? ==> forall i :: 0 <= i < |t| ==> t[i].name != name
  {
    if t == [] then None
    else
      match StaticName(t[..|t| - 1], name)
      case Some(i) => Some(i)
      case None => if t[|t| - 1].name == name then Some(|t|) else None
  }

  /** Length in one byte, then the string. */
  function WriteString(s: Str): seq<byte> {
    [(|s| % 256) as byte] + s
  }

  const INDEXED: byte := 0x80
  const NAME_INDEXED: byte := 0x40

  /** The tables whose indexes fit the six bits of a literal's name index. */
  predicate Small(t: seq<Header>) {
    |t| < 64
  }

  function EncodeHeader(t: seq<Header>, h: Header): seq<byte>
    requires Small(t)
  {
    match StaticExact(t, h)
    case Some(i) => [INDEXED + i as byte]
    case None =>
      match StaticName(t, h.name)
      case Some(i) => [NAME_INDEXED + i as byte] + WriteString(h.value)
      case None => [0x00] + WriteString(h.name) + WriteString(h.value)
  }

  function EncodeBlock(t: seq<Header>, hs: seq<Header>): seq<byte>
    requires Small(t)
  {
    if hs == [] then [] else EncodeHeader(t, hs[0]) + EncodeBlock(t, hs[1..])
  }

  lemma {:induction false} EncodeMore(t: seq<Header>, hs: seq<Header>, h: Header)
    requires Small(t)
    ensures EncodeBlock(t, hs + [h]) == EncodeBlock(t, hs) + EncodeHeader(t, h)
  {
    hide EncodeHeader;
    if hs == [] {
      assert hs + [h] == [h] && [h][1..] == [];
      assert EncodeBlock(t, []) == [];
    } else {
      EncodeMore(t, hs[1..], h);
      assert (hs + [h])[1..] == hs[1..] + [h];
    }
  }

  method Encode(t: seq<Header>, headers: seq<Header>) returns (out: seq<byte>)
    requires Small(t)
    ensures out == EncodeBlock(t, headers)
  {
    out := [];
    for k := 0 to |headers|
      invariant out == EncodeBlock(t, headers[..k])
    {
      EncodeMore(t, headers[..k], headers[k]);
      assert headers[..k + 1] == headers[..k] + [headers[k]];
      out := AppendHeader(t, out, headers[k]);
    }
    assert headers[..|headers|] == headers;
  }

  /** One round of the encoding loop. */
  method AppendHeader(t: seq<Header>, out: seq<byte>, h: Header) returns (out': seq<byte>)
    requires Small(t)
    ensures out' == out + EncodeHeader(t, h)
  {
    hide StaticExact, StaticName, WriteString;
    var exact, name := StaticExact(t, h), StaticName(t, h.name);
    if exact.Some? {
      out' := out + [INDEXED + exact.value as byte];
    } else if name.Some? {
      out' := out + [NAME_INDEXED + name.value as byte];
      out' := out' + WriteString(h.value);
    } else {
      out' := out + [0x00];
      out' := out' + WriteString(h.name);
      out' := out' + WriteString(h.value);
    }
  }

  // ---------------------------------------------------------------------------------------------
  // Decoding

  datatype DecodeError = InvalidIndex(i: nat) | InvalidName(i: nat) | Truncated | OutOfBounds

  datatype Result<T> = Ok(value: T) | Err(error: DecodeError)

  /** A value and the bytes it took. */
  datatype Part<T> = Part(value: T, size: nat)

  function ReadString(src: seq<byte>): (r: Result<Part<Str>>)
    ensures r.Ok? ==> 0 < r.value.size <= |src| && |r.value.value| < 256
  {
    if src == [] then Err(Truncated)
    else
      var len := src[0] as nat;
      if 1 + len > |src| then Err(OutOfBounds) else Ok(Part(src[1..1 + len], 1 + len))
  }

  function DecodeHeader(t: seq<Header>, src: seq<byte>): (r: Result<Part<Header>>)
    requires src != []
    ensures r.Ok? ==> 0 < r.value.size <= |src|
  {
    var b := src[0];
    if b >= INDEXED then
      var i := (b - INDEXED) as nat;
      if i == 0 || i > |t| then Err(InvalidIndex(i)) else Ok(Part(t[i - 1], 1))
    else if b >= NAME_INDEXED then
      var i := (b - NAME_INDEXED) as nat;
      match ReadString(src[1..])
      case Err(e) => Err(e)
      case Ok(v) =>
        if i == 0 || i > |t| then Err(InvalidName(i)) else Ok(Part(Header(t[i - 1].name, v.value), 1 + v.size))
    else
      match ReadString(src[1..])
      case Err(e) => Err(e)
      case Ok(n) =>
        match ReadString(src[1 + n.size..])
        case Err(e) => Err(e)
        case Ok(v) => Ok(Part(Header(n.value, v.value), 1 + n.size + v.size))
  }

  function DecodeBlock(t: seq<Header>, src: seq<byte>): Result<seq<Header>>
    decreases |src|
  {
    if src == [] then Ok([])
    else
      match DecodeHeader(t, src)
      case Err(e) => Err(e)
      case Ok(h) =>
        match DecodeBlock(t, src[h.size..])
        case Err(e) => Err(e)
        case Ok(hs) => Ok([h.value] + hs)
  }

  function Prepend(hs: seq<Header>, r: Result<seq<Header>>): Result<seq<Header>> {
    match r
    case Err(e) => Err(e)
    case Ok(more) => Ok(hs + more)
  }

  /** A length-prefixed string at index i, and the index behind it. */
  method ReadStringAt(src: seq<byte>, i: nat) returns (r: Result<Str>, i': nat)
    requires i <= |src|
    ensures match ReadString(src[i..])
      case Err(e) => r == Err(e)
      case Ok(p) => r == Ok(p.value) && i' == i + p.size
  {
    i' := i;
    if i' >= |src| {
      return Err(Truncated), i';
    }
    var len := src[i'] as nat;
    i' := i' + 1;
    if i' + len > |src| {
      return Err(OutOfBounds), i';
    }
    assert src[i..][1..1 + len] == src[i'..i' + len];
    r := Ok(src[i'..i' + len]);
    i' := i' + len;
  }

  method Decode(t: seq<Header>, src: seq<byte>) returns (r: Result<seq<Header>>)
    ensures r == DecodeBlock(t, src)
  {
    var headers: seq<Header>, i := [], 0;
    hide DecodeHeader, DecodeBlock;
    assert src[0..] == src && forall hs: seq<Header> :: [] + hs == hs;
    while i < |src|
      invariant i <= |src| && DecodeBlock(t, src) == Prepend(headers, DecodeBlock(t, src[i..]))
    {
      var h, size := DecodeAt(t, src, i);
      DecodeStep(t, src, i, headers);
      if h.Err? {
        return Err(h.error);
      }
      headers := headers + [h.value];
      i := i + size;
    }
    assert src[i..] == [];
    NothingLeft(t);
    assert headers + [] == headers;
    r := Ok(headers);
  }

  lemma NothingLeft(t: seq<Header>)
    ensures DecodeBlock(t, []) == Ok([])
  {
  }

  /** One round of the decoding loop. */
  method DecodeAt(t: seq<Header>, src: seq<byte>, i: nat) returns (r: Result<Header>, size: nat)
    requires i < |src|
    ensures match DecodeHeader(t, src[i..])
      case Err(e) => r == Err(e)
      case Ok(p) => r == Ok(p.value) && size == p.size
  {
    hide ReadString;
    size := 0;
    var b, j := src[i], i + 1;
    assert src[i..][1..] == src[j..];
    if b >= INDEXED {
      var idx := (b - INDEXED) as nat;
      if idx == 0 || idx > |t| {
        return Err(InvalidIndex(idx)), 0;
      }
      return Ok(t[idx - 1]), 1;
    }
    if b >= NAME_INDEXED {
      var idx := (b - NAME_INDEXED) as nat;
      var v;
      v, j := ReadStringAt(src, j);
      if v.Err? {
        return Err(v.error), 0;
      }
      if idx == 0 || idx > |t| {
        return Err(InvalidName(idx)), 0;
      }
      return Ok(Header(t[idx - 1].name, v.value)), j - i;
    }
    var n, v;
    n, j := ReadStringAt(src, j);
    if n.Err? {
      return Err(n.error), 0;
    }
    assert src[i..][j - i..] == src[j..];
    v, j := ReadStringAt(src, j);
    if v.Err? {
      return Err(v.error), 0;
    }
    return Ok(Header(n.value, v.value)), j - i;
  }

  lemma DecodeStep(t: seq<Header>, src: seq<byte>, i: nat, headers: seq<Header>)
    requires i < |src|
    ensures var h := DecodeHeader(t, src[i..]);
      Prepend(headers, DecodeBlock(t, src[i..])) ==
      if h.Err? then Err(h.error)
      else Prepend(headers + [h.value.value], DecodeBlock(t, src[i + h.value.size..]))
  {
    hide DecodeHeader;
    var h := DecodeHeader(t, src[i..]);
    if h.Ok? {
      assert src[i..][h.value.size..] == src[i + h.value.size..];
      var rest := DecodeBlock(t, src[i + h.value.size..]);
      if rest.Ok? {
        assert headers + ([h.value.value] + rest.value) == (headers + [h.value.value]) + rest.value;
      }
    }
  }

  // ---------------------------------------------------------------------------------------------
  // Round trip

  /** Every string of the header that the encoder writes out has at most 255 bytes. */
  predicate Expressible(t: seq<Header>, h: Header) {
    || h in t
    || (|h.value| < 256 && (|h.name| < 256 || exists i :: 0 <= i < |t| && t[i].name == h.name))
  }

  lemma StringBack(s: Str, rest: seq<byte>)
    ensures ReadString(WriteString(s) + rest).Ok?
    ensures |s| < 256 ==>
      ReadString(WriteString(s) + rest) == Ok(Part(s, 1 + |s|)) && (WriteString(s) + rest)[1 + |s|..] == rest
  {
    var src := WriteString(s) + rest;
    if |s| < 256 {
      assert src[1..1 + |s|] == s;
    }
  }

  lemma HeaderBack(t: seq<Header>, h: Header, rest: seq<byte>)
    requires Small(t) && Expressible(t, h)
    ensures var e := EncodeHeader(t, h);
      DecodeHeader(t, e + rest) == Ok(Part(h, |e|)) && (e + rest)[|e|..] == rest
  {
    hide ReadString, WriteString;
    var e := EncodeHeader(t, h);
    var exact, name := StaticExact(t, h), StaticName(t, h.name);
    var src := e + rest;
    assert src[|e|..] == rest;
    WrittenSize(h.name);
    WrittenSize(h.value);
    if exact.None? {
      StringBack(h.value, rest);
      if name.Some? {
        assert src[1..] == WriteString(h.value) + rest;
      } else {
        assert src[1..] == WriteString(h.name) + (WriteString(h.value) + rest);
        StringBack(h.name, WriteString(h.value) + rest);
        assert src[1 + (1 + |h.name|)..] == WriteString(h.value) + rest;
      }
    }
  }

  lemma WrittenSize(s: Str)
    ensures |WriteString(s)| == 1 + |s|
  {
  }

  /** Whatever a header with a longer string decodes to, it is not that header. */
  lemma LongHeaderLost(t: seq<Header>, h: Header, rest: seq<byte>)
    requires Small(t) && !Expressible(t, h)
    ensures var r := DecodeHeader(t, EncodeHeader(t, h) + rest); r.Ok? ==> r.value.value != h
  {
    var e := EncodeHeader(t, h);
    var name := StaticName(t, h.name);
    var src := e + rest;
    if name.Some? {
      assert t[name.value - 1].name == h.name;
    }
  }

  /** A header list survives encoding and decoding exactly when every string written out has at most 255
      bytes; what follows it in the block is not disturbed. */
  lemma {:induction false} BlockBackIff(t: seq<Header>, hs: seq<Header>)
    requires Small(t)
    ensures DecodeBlock(t, EncodeBlock(t, hs)) == Ok(hs) <==> forall h :: h in hs ==> Expressible(t, h)
  {
    hide DecodeHeader, EncodeHeader, Expressible;
    if hs != [] {
      var h, rest := hs[0], EncodeBlock(t, hs[1..]);
      assert hs == [h] + hs[1..];
      HeaderNotEmpty(t, h);
      if Expressible(t, h) {
        HeaderBack(t, h, rest);
        BlockBackIff(t, hs[1..]);
        var r := DecodeBlock(t, rest);
        if r.Ok? {
          assert ([h] + r.value)[1..] == r.value;
        }
      } else {
        LongHeaderLost(t, h, rest);
      }
    }
  }

  lemma HeaderNotEmpty(t: seq<Header>, h: Header)
    requires Small(t)
    ensures EncodeHeader(t, h) != []
  {
  }

  // ---------------------------------------------------------------------------------------------
  // The bytes of the block

  lemma AsciiAt(s: string)
    ensures |Ascii(s)| == |s| && forall i :: 0 <= i < |s| ==> Ascii(s)[i] as int == s[i] as int % 256
  {
  }

  ghost predicate Plain(s: string) {
    forall i :: 0 <= i < |s| ==> s[i] as int < 256
  }

  lemma AsciiDiffer(a: string, b: string)
    requires a != b && Plain(a) && Plain(b)
    ensures Ascii(a) != Ascii(b)
  {
    AsciiAt(a);
    AsciiAt(b);
    if |a| == |b| {
      var i :| 0 <= i < |a| && a[i] != b[i];
    }
  }

  lemma FirstEntry(k: nat)
    requires k < 61 && forall i :: 0 <= i < k ==> StaticTable()[i] != StaticTable()[k]
    ensures Small(StaticTable()) && EncodeHeader(StaticTable(), StaticTable()[k]) == [(129 + k) as byte]
  {
  }

  /** Entries 1 to 14. */
  lemma PseudoTexts()
    ensures StaticText(0) == (":authority", "") && StaticText(1) == (":method", "GET")
    ensures StaticText(2) == (":method", "POST") && StaticText(3) == (":path", "/")
    ensures StaticText(4) == (":path", "/index.html") && StaticText(5) == (":scheme", "http")
    ensures StaticText(6) == (":scheme", "https")
    ensures forall i :: 7 <= i < 14 ==>
      StaticText(i) == (":status", ["200", "204", "206", "304", "400", "404", "500"][i - 7])
  {
  }

  lemma TextsDiffer(i: nat, j: nat)
    requires i < j < 14
    ensures StaticText(i) != StaticText(j)
    ensures Plain(StaticText(i).0) && Plain(StaticText(i).1) && Plain(StaticText(j).0) && Plain(StaticText(j).1)
  {
  }

  /** The usual headers of a request and of its answer take one byte. */
  lemma OneByte(k: nat)
    requires k < 14
    ensures Small(StaticTable())
    ensures EncodeHeader(StaticTable(), Row(StaticText(k).0, StaticText(k).1)) == [(0x81 + k) as byte]
  {
    hide EncodeHeader, StaticText, Ascii, Plain;
    forall i | 0 <= i < k
      ensures StaticTable()[i] != StaticTable()[k]
    {
      TextsDiffer(i, k);
      if StaticText(i).0 != StaticText(k).0 {
        AsciiDiffer(StaticText(i).0, StaticText(k).0);
      } else {
        AsciiDiffer(StaticText(i).1, StaticText(k).1);
      }
    }
    FirstEntry(k);
  }

  /** Later entries are names without a value, but for the encodings. */
  lemma NamesOnly(i: nat)
    requires 14 <= i < 61
    ensures StaticText(i).0 != "" && StaticText(i).1 == if i == 15 then "gzip, deflate" else ""
  {
  }

  /** The three forms by their bytes: an index above 128; an index above 64 and the value; 0, name and value. Each
      string comes after its length modulo 256. */
  lemma HeaderLayout(t: seq<Header>, h: Header)
    requires Small(t)
    ensures var e := EncodeHeader(t, h);
      && (h in t ==> |e| == 1 && 128 < e[0] as nat <= 128 + |t| && t[e[0] as nat - 129] == h)
      && (h !in t && (exists i :: 0 <= i < |t| && t[i].name == h.name) ==>
            && |e| == 2 + |h.value| && 64 < e[0] as nat <= 64 + |t| && t[e[0] as nat - 65].name == h.name
            && e[1] as nat == |h.value| % 256 && e[2..] == h.value)
      && ((forall i :: 0 <= i < |t| ==> t[i].name != h.name) ==>
            && |e| == 3 + |h.name| + |h.value| && e[0] == 0 && e[1] as nat == |h.name| % 256
            && e[2..2 + |h.name|] == h.name && e[2 + |h.name|] as nat == |h.value| % 256
            && e[3 + |h.name|..] == h.value)
  {
    var e := EncodeHeader(t, h);
    var exact, name := StaticExact(t, h), StaticName(t, h.name);
    if exact.None? && name.None? {
      var v := WriteString(h.value);
      assert e == [0] + WriteString(h.name) + v && |[0] + WriteString(h.name)| == 2 + |h.name|;
      assert e[2 + |h.name|..] == v;
      assert e[3 + |h.name|..] == v[1..];
    }
  }

  /** What the decoder refuses: an index of no entry, a string that is missing and one that is cut short. */
  lemma Refusals(t: seq<Header>, src: seq<byte>)
    requires src != []
    ensures var b, r := src[0] as nat, DecodeHeader(t, src);
      && (b >= 128 ==>
            if b == 128 || b > 128 + |t| then r == Err(InvalidIndex(b - 128)) else r == Ok(Part(t[b - 129], 1)))
      && (b < 128 && |src| == 1 ==> r == Err(Truncated))
      && (b < 128 && 1 < |src| < 2 + src[1] as nat ==> r == Err(OutOfBounds))
      && (64 <= b < 128 && 1 < |src| && |src| >= 2 + src[1] as nat ==>
            if b == 64 || b > 64 + |t| then r == Err(InvalidName(b - 64))
            else r == Ok(Part(Header(t[b - 65].name, src[2..2 + src[1] as nat]), 2 + src[1] as nat)))
      && (b < 64 && 1 < |src| && |src| == 2 + src[1] as nat ==> r == Err(Truncated))
      && (b < 64 && 1 < |src| && |src| > 2 + src[1] as nat ==>
            var n, v := src[1] as nat, src[2 + src[1] as nat] as nat;
            if |src| < 3 + n + v then r == Err(OutOfBounds)
            else r == Ok(Part(Header(src[2..2 + n], src[3 + n..3 + n + v]), 3 + n + v)))
  {
    if src[0] < 64 && 1 < |src| && |src| > 2 + src[1] as nat {
      var n := src[1] as nat;
      assert src[1..][1..1 + n] == src[2..2 + n];
      assert src[2 + n..] == src[1 + (1 + n)..];
      if |src| >= 3 + n + src[2 + n] as nat {
        assert src[2 + n..][1..1 + src[2 + n] as nat] == src[3 + n..3 + n + src[2 + n] as nat];
      }
    } else if src[0] < 128 && 1 < |src| && |src| >= 2 + src[1] as nat {
      assert src[1..][1..1 + src[1] as nat] == src[2..2 + src[1] as nat];
      assert src[1 + (1 + src[1] as nat)..] == src[2 + src[1] as nat..];
    }
  }

  // ---------------------------------------------------------------------------------------------
  // Requests

  datatype Request = Request(method_: Str, path: Str, scheme: Str, headers: seq<Header>, body: seq<byte>)

  /** The pseudo headers, then the request's own. */
  function AllHeaders(r: Request): seq<Header> {
    [Header(Ascii(":method"), r.method_), Header(Ascii(":path"), r.path), Header(Ascii(":scheme"), r.scheme)]
    + r.headers
  }

  function HeadersFrame(r: Request): Frame {
    StaticFits();
    Frame(Headers, EncodeBlock(StaticTable(), AllHeaders(r)))
  }

  lemma StaticFits()
    ensures Small(StaticTable())
  {
    hide StaticTable;
  }

  function RequestFrames(r: Request): seq<Frame> {
    [HeadersFrame(r)] + if r.body == [] then [] else [Frame(Data, r.body)]
  }

  /** The bytes of send_request: a HEADERS frame, and a DATA frame if there is a body. */
  method SendRequest(r: Request) returns (wire: seq<byte>)
    ensures wire == EncodeAll(RequestFrames(r))
  {
    StaticFits();
    var block := Encode(StaticTable(), AllHeaders(r));
    wire := Frames.Encode(Frame(Headers, block));
    if r.body != [] {
      wire := wire + Frames.Encode(Frame(Data, r.body));
    }
    WireOf(r);
  }

  /** The frames by their bytes: kind 1 for the headers, kind 2 for a body, each with its length in four bytes, most
      significant first. */
  lemma FramesOnWire(r: Request)
    requires Sendable(r)
    ensures var fs := RequestFrames(r);
      && |fs| == (if r.body == [] then 1 else 2) && fs[0].kind == Headers && ToByte(fs[0].kind) == 0x01
      && (r.body != [] ==> fs[1].kind == Data && ToByte(fs[1].kind) == 0x02 && fs[1].payload == r.body)
  {
    hide EncodeBlock, StaticTable;
  }

  lemma WireOf(r: Request)
    ensures EncodeAll(RequestFrames(r)) == Frames.Encode(HeadersFrame(r))
      + if r.body == [] then [] else Frames.Encode(Frame(Data, r.body))
  {
    hide Frames.Encode, HeadersFrame;
    var fs := RequestFrames(r);
    if r.body == [] {
      assert fs[1..] == [];
    } else {
      assert fs[1..] == [Frame(Data, r.body)] && fs[1..][1..] == [];
      assert EncodeAll(fs[1..]) == Frames.Encode(Frame(Data, r.body)) + [];
    }
  }

  /** The frames fit their length field. */
  predicate Sendable(r: Request) {
    |HeadersFrame(r).payload| < 0x1_0000_0000 && |r.body| < 0x1_0000_0000
  }

  /** The value of the first header of that name, as the handler looks it up. */
  function Named(hs: seq<Header>, name: Str): Option<Str> {
    if hs == [] then None else if hs[0].name == name then Some(hs[0].value) else Named(hs[1..], name)
  }

  /** Nothing is longer than its length byte can say. */
  predicate Short(r: Request) {
    && |r.method_| < 256 && |r.path| < 256 && |r.scheme| < 256
    && forall h :: h in r.headers ==> |h.name| < 256 && |h.value| < 256
  }

  /** The request as the receiver reads it off the frames. */
  method ReceiveRequest(pieces: seq<seq<byte>>, ghost r: Request)
    returns (d: FrameDecoder, headers: Result<seq<Header>>, body: seq<byte>)
    requires Sendable(r) && Concat(pieces) == EncodeAll(RequestFrames(r))
    ensures fresh(d) && d.buf == []
    ensures body == r.body
    ensures headers == Ok(AllHeaders(r)) <==> forall h :: h in AllHeaders(r) ==> Expressible(StaticTable(), h)
    ensures Short(r) ==> headers.Ok? && Says(headers.value, r)
  {
    hide EncodeAll, Concat, StaticTable, AllHeaders, Expressible, Split, Short, Says;
    var frames;
    d, frames := FeedPieces(pieces);
    WholeSplit(r);
    headers := Decode(StaticTable(), frames[0].payload);
    body := if |frames| > 1 then frames[1].payload else [];
    StaticFits();
    BlockBackIff(StaticTable(), AllHeaders(r));
    if Short(r) {
      ShortExpressible(r);
      PseudoHeaders(r);
    }
  }

  /** The decoded headers give back the request: its parts under their names, then its own headers. */
  ghost predicate Says(hs: seq<Header>, r: Request) {
    && Named(hs, Ascii(":method")) == Some(r.method_) && Named(hs, Ascii(":path")) == Some(r.path)
    && Named(hs, Ascii(":scheme")) == Some(r.scheme)
    && |hs| >= 3 && hs[3..] == r.headers
  }

  lemma PseudoHeaders(r: Request)
    ensures Says(AllHeaders(r), r)
  {
    var hs := AllHeaders(r);
    assert Ascii(":method")[1] == 109 && Ascii(":path")[1] == 112 && Ascii(":scheme")[1] == 115;
    assert hs[1..][0] == hs[1] && hs[1..][1..] == hs[2..] && hs[2..][0] == hs[2];
    assert Named(hs, Ascii(":scheme")) == Named(hs[1..], Ascii(":scheme")) == Named(hs[2..], Ascii(":scheme"));
  }

  lemma ShortExpressible(r: Request)
    requires Short(r)
    ensures forall h :: h in AllHeaders(r) ==> Expressible(StaticTable(), h)
  {
    hide StaticTable;
    forall h | h in AllHeaders(r)
      ensures |h.name| < 256 && |h.value| < 256
    {
      var i :| 0 <= i < |AllHeaders(r)| && AllHeaders(r)[i] == h;
      if i >= 3 {
        assert h == r.headers[i - 3];
      }
    }
  }

  lemma WholeSplit(r: Request)
    requires Sendable(r)
    ensures Split(EncodeAll(RequestFrames(r))) == (RequestFrames(r), [])
  {
    hide EncodeAll, Split;
    SplitPrefix(RequestFrames(r), EncodeAll(RequestFrames(r)));
  }
}
