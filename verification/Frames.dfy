/** HTTP/K.0 frames: frame.rs. */
module Frames {
  import opened Keys
  import opened Bytes

  datatype FrameKind = Headers | Data | Trailers | Reset | Settings | Push | GoAway | Ping | Unknown

  function FromByte(b: byte): FrameKind {
    if b == 0x01 then Headers else if b == 0x02 then Data else if b == 0x03 then Trailers
    else if b == 0x04 then Reset else if b == 0x05 then Settings else if b == 0x06 then Push
    else if b == 0x07 then GoAway else if b == 0x08 then Ping else Unknown
  }

  function ToByte(k: FrameKind): byte {
    match k
    case Headers => 0x01
    case Data => 0x02
    case Trailers => 0x03
    case Reset => 0x04
    case Settings => 0x05
    case Push => 0x06
    case GoAway => 0x07
    case Ping => 0x08
    case Unknown => 0xFF
  }

  datatype Frame = Frame(kind: FrameKind, payload: seq<byte>)

  /** Kind, 4-byte big-endian length, payload. A length that does not fit is cut to 32 bits. */
  function Encode(f: Frame): (r: seq<byte>)
    ensures |r| == 5 + |f.payload|
  {
    BELength(|f.payload|, 4);
    [ToByte(f.kind)] + BE(|f.payload|, 4) + f.payload
  }

  /** A frame by its bytes. */
  lemma FrameLayout(f: Frame)
    requires |f.payload| < 0x1_0000_0000
    ensures var e, n := Encode(f), |f.payload|;
      && e[5..] == f.payload
      && e[1] as nat == n / 0x100_0000 && e[2] as nat == n / 0x1_0000 % 256
      && e[3] as nat == n / 0x100 % 256 && e[4] as nat == n % 256
      && e[0] == match f.kind {
           case Headers => 1
           case Data => 2
           case Trailers => 3
           case Reset => 4
           case Settings => 5
           case Push => 6
           case GoAway => 7
           case Ping => 8
           case Unknown => 255
         }
  {
    hide Digit;
    var n := |f.payload|;
    FourDigits(n);
    Digits(n, 4, 0);
    Digits(n, 4, 1);
    Digits(n, 4, 2);
    Digits(n, 4, 3);
  }

  /** Every other byte is an unknown kind. */
  lemma UnknownKinds(b: byte)
    ensures FromByte(b) == Unknown <==> b == 0 || b > 8
  {
  }

  lemma {:induction false} BELength(n: nat, w: nat)
    ensures |BE(n, w)| == w
  {
    if w > 0 {
      BELength(n / 256, w - 1);
    }
  }

  /** The length that the head of the buffer announces. */
  function Announced(buf: seq<byte>): nat
    requires |buf| >= 5
  {
    FromBE(buf[1..5])
  }

  predicate Ready(buf: seq<byte>) {
    |buf| >= 5 && |buf| >= 5 + Announced(buf)
  }

  /** The first frame of a buffer that holds a whole one. */
  function First(buf: seq<byte>): Frame
    requires Ready(buf)
  {
    Frame(FromByte(buf[0]), buf[5..5 + Announced(buf)])
  }

  function Rest(buf: seq<byte>): seq<byte>
    requires Ready(buf)
  {
    buf[5 + Announced(buf)..]
  }

  /** All whole frames at the front of the buffer, and what is left behind them. */
  function Split(buf: seq<byte>): (seq<Frame>, seq<byte>)
    decreases |buf|
  {
    if Ready(buf) then
      var (fs, left) := Split(Rest(buf));
      ([First(buf)] + fs, left)
    else ([], buf)
  }

  /** Decoding the first frame takes it off the buffer. */
  method Decode(buf: seq<byte>) returns (f: Option<Frame>, left: seq<byte>)
    ensures f == None <==> !Ready(buf)
    ensures f.Some? ==> f.value == First(buf) && left == Rest(buf)
    ensures f.None? ==> left == buf
  {
    if |buf| < 5 {
      return None, buf;
    }
    var len := FromBE(buf[1..5]);
    if |buf| < 5 + len {
      return None, buf;
    }
    var kind, body := FromByte(buf[0]), buf[5..];
    assert body[..len] == buf[5..5 + len] && body[len..] == buf[5 + len..];
    return Some(Frame(kind, body[..len])), body[len..];
  }

  class FrameDecoder {
    var buf: seq<byte>

    constructor ()
      ensures buf == []
    {
      buf := [];
    }

    method Feed(data: seq<byte>)
      modifies this
      ensures buf == old(buf) + data
    {
      buf := buf + data;
    }

    method NextFrame() returns (f: Option<Frame>)
      modifies this
      ensures f == None <==> !Ready(old(buf))
      ensures f.Some? ==> f.value == First(old(buf)) && buf == Rest(old(buf))
      ensures f.None? ==> buf == old(buf)
    {
      f, buf := Decode(buf);
    }

    /** Takes every whole frame off the front. */
    method DrainFrames() returns (frames: seq<Frame>)
      modifies this
      ensures (frames, buf) == Split(old(buf))
    {
      hide Announced, First;
      frames := [];
      var f := NextFrame();
      ghost var before := old(buf);
      while f.Some?
        invariant f.None? ==> !Ready(before) && buf == before
        invariant f.Some? ==> Ready(before) && f.value == First(before) && buf == Rest(before)
        invariant Split(old(buf)).0 == frames + Split(before).0 && Split(old(buf)).1 == Split(before).1
        decreases |before|, f.Some?
      {
        frames := frames + [f.value];
        before := buf;
        f := NextFrame();
      }
      assert Split(before) == ([], before) && frames + [] == frames;
      assert Split(old(buf)) == (Split(old(buf)).0, Split(old(buf)).1);
    }
  }

  // ---------------------------------------------------------------------------------------------

  ghost predicate Fits(f: Frame) {
    |f.payload| < 0x1_0000_0000 && f.kind != Unknown
  }

  function EncodeAll(fs: seq<Frame>): seq<byte> {
    if fs == [] then [] else Encode(fs[0]) + EncodeAll(fs[1..])
  }

  /** An encoded frame at the front of a buffer is the first frame, exactly. */
  lemma EncodedFirst(f: Frame, tail: seq<byte>)
    requires |f.payload| < 0x1_0000_0000
    ensures Ready(Encode(f) + tail) && Rest(Encode(f) + tail) == tail
    ensures First(Encode(f) + tail) == Frame(f.kind, f.payload)
  {
    hide BE, FromBE;
    var buf := Encode(f) + tail;
    BELength(|f.payload|, 4);
    Pow256Values();
    BERoundTrip(|f.payload|, 4);
    assert buf == [ToByte(f.kind)] + BE(|f.payload|, 4) + (f.payload + tail);
    assert buf[1..5] == BE(|f.payload|, 4);
    assert buf[5..] == f.payload + tail;
  }

  /** Too little of a frame is no frame. */
  lemma PartialNotReady(f: Frame, part: seq<byte>)
    requires |f.payload| < 0x1_0000_0000 && part < Encode(f)
    ensures !Ready(part)
  {
    hide BE, FromBE;
    EncodedFirst(f, []);
    assert Encode(f) + [] == Encode(f);
    if |part| >= 5 {
      assert part[1..5] == Encode(f)[1..5];
      assert Rest(Encode(f)) == [];
    }
  }

  /** What a decoder has made of the first part of a byte stream that encodes frames: whole frames in
      order, and a proper part of the next one waiting. */
  lemma {:induction false} SplitPrefix(fs: seq<Frame>, part: seq<byte>)
    requires (forall i :: 0 <= i < |fs| ==> |fs[i].payload| < 0x1_0000_0000) && part <= EncodeAll(fs)
    ensures var (done, left) := Split(part);
      && done <= fs && part == EncodeAll(done) + left
      && (part == EncodeAll(fs) ==> done == fs && left == [])
    decreases |fs|
  {
    hide Ready, First, Rest, Encode;
    if fs == [] {
      NothingReady();
    } else if |part| < |Encode(fs[0])| {
      assert part < Encode(fs[0]) by {
        assert part == EncodeAll(fs)[..|part|] == Encode(fs[0])[..|part|];
      }
      PartialNotReady(fs[0], part);
    } else {
      var e := Encode(fs[0]);
      var tail := part[|e|..];
      assert part == e + tail by {
        assert part[..|e|] == EncodeAll(fs)[..|e|] == e;
      }
      assert tail <= EncodeAll(fs[1..]) by {
        assert tail == EncodeAll(fs)[|e|..|part|];
      }
      EncodedFirst(fs[0], tail);
      SplitPrefix(fs[1..], tail);
      var (done, left) := Split(tail);
      assert ([fs[0]] + done)[1..] == done;
      assert fs == [fs[0]] + fs[1..];
    }
  }

  lemma NothingReady()
    ensures !Ready([])
  {
  }

  function Concat(pieces: seq<seq<byte>>): seq<byte> {
    if pieces == [] then [] else Concat(pieces[..|pieces| - 1]) + pieces[|pieces| - 1]
  }

  /** Draining early changes nothing: what was drained and what a later drain finds are what one drain of all
      the bytes finds. */
  lemma {:induction false} SplitAppend(buf: seq<byte>, more: seq<byte>)
    ensures var (fs, left) := Split(buf);
      var (gs, end) := Split(left + more);
      Split(buf + more) == (fs + gs, end)
    decreases |buf|
  {
    if Ready(buf) {
      hide Ready, First, Rest;
      ReadyAppend(buf, more);
      SplitAppend(Rest(buf), more);
      var (fs, left) := Split(Rest(buf));
      var (gs, end) := Split(left + more);
      assert [First(buf)] + (fs + gs) == ([First(buf)] + fs) + gs;
    } else {
      var (gs, end) := Split(buf + more);
      assert [] + gs == gs;
    }
  }

  lemma ReadyAppend(buf: seq<byte>, more: seq<byte>)
    requires Ready(buf)
    ensures Ready(buf + more) && First(buf + more) == First(buf) && Rest(buf + more) == Rest(buf) + more
  {
    assert (buf + more)[1..5] == buf[1..5];
  }

  /** Feeding a byte stream in any pieces, draining after each, yields the frames of the whole stream. */
  method FeedPieces(pieces: seq<seq<byte>>) returns (d: FrameDecoder, frames: seq<Frame>)
    ensures fresh(d) && (frames, d.buf) == Split(Concat(pieces))
  {
    hide Split;
    d := new FrameDecoder();
    frames := [];
    NothingSplit();
    for i := 0 to |pieces|
      invariant fresh(d) && (frames, d.buf) == Split(Concat(pieces[..i]))
    {
      SplitAppend(Concat(pieces[..i]), pieces[i]);
      assert pieces[..i + 1][..i] == pieces[..i];
      d.Feed(pieces[i]);
      var fs := d.DrainFrames();
      frames := frames + fs;
    }
    assert pieces[..|pieces|] == pieces;
  }

  lemma NothingSplit()
    ensures Split([]) == ([], [])
  {
  }
}
