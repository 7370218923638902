/** Fixed-width integers as bytes, and exclusive or. */
module Bytes {
  import opened Keys

  function Pow256(w: nat): nat {
    if w == 0 then 1 else 256 * Pow256(w - 1)
  }

  /** The low w bytes of n, least significant first. Higher bytes are cut off, as in uint16(n). */
  function LE(n: nat, w: nat): (bs: seq<byte>)
    ensures |bs| == w
  {
    if w == 0 then [] else [(n % 256) as byte] + LE(n / 256, w - 1)
  }

  function FromLE(bs: seq<byte>): nat {
    if bs == [] then 0 else bs[0] as int + 256 * FromLE(bs[1..])
  }

  lemma {:induction false} LERoundTrip(n: nat, w: nat)
    requires n < Pow256(w)
    ensures FromLE(LE(n, w)) == n
  {
    if w > 0 {
      LERoundTrip(n / 256, w - 1);
      assert LE(n, w)[1..] == LE(n / 256, w - 1);
    }
  }

  lemma {:induction false} FromLEBound(bs: seq<byte>)
    ensures FromLE(bs) < Pow256(|bs|)
  {
    if bs != [] {
      FromLEBound(bs[1..]);
    }
  }

  lemma {:induction false} FromLEInverse(bs: seq<byte>)
    ensures LE(FromLE(bs), |bs|) == bs
  {
    if bs != [] {
      FromLEInverse(bs[1..]);
      assert bs == [bs[0]] + bs[1..];
    }
  }

  lemma Pow256Values()
    ensures Pow256(1) == 0x100 && Pow256(2) == 0x1_0000 && Pow256(4) == 0x1_0000_0000
    ensures Pow256(8) == 0x1_0000_0000_0000_0000
  {
    assert Pow256(3) == 256 * Pow256(2);
    assert Pow256(5) == 256 * Pow256(4) && Pow256(6) == 256 * Pow256(5);
    assert Pow256(7) == 256 * Pow256(6) && Pow256(8) == 256 * Pow256(7);
  }

  /** Most significant byte first. */
  function BE(n: nat, w: nat): (bs: seq<byte>)
    ensures |bs| == w
  {
    if w == 0 then [] else BE(n / 256, w - 1) + [(n % 256) as byte]
  }

  function FromBE(bs: seq<byte>): nat {
    if bs == [] then 0 else 256 * FromBE(bs[..|bs| - 1]) + bs[|bs| - 1] as int
  }

  lemma {:induction false} BERoundTrip(n: nat, w: nat)
    requires n < Pow256(w)
    ensures FromBE(BE(n, w)) == n
  {
    if w > 0 {
      BERoundTrip(n / 256, w - 1);
      assert BE(n, w)[..w - 1] == BE(n / 256, w - 1);
    }
  }

  /** Digit i of n in base 256. */
  function Digit(n: nat, i: nat): nat {
    if i == 0 then n % 256 else Digit(n / 256, i - 1)
  }

  lemma FirstDigit(n: nat)
    ensures Digit(n, 0) == n % 256
  {
  }

  lemma DigitStep(n: nat, i: nat)
    requires i > 0
    ensures Digit(n, i) == Digit(n / 256, i - 1)
  {
  }

  /** Byte i of either form, counted from its least significant end, is the digit of that place. */
  lemma {:induction false} Digits(n: nat, w: nat, i: nat)
    requires i < w
    ensures LE(n, w)[i] as nat == Digit(n, i) && BE(n, w)[w - 1 - i] as nat == Digit(n, i)
  {
    if i > 0 {
      Digits(n / 256, w - 1, i - 1);
      assert BE(n, w)[w - 1 - i] == BE(n / 256, w - 1)[w - 1 - i];
    }
  }

  lemma FourDigits(n: nat)
    requires n < 0x1_0000_0000
    ensures Digit(n, 0) == n % 0x100 && Digit(n, 1) == n / 0x100 % 0x100
    ensures Digit(n, 2) == n / 0x1_0000 % 0x100 && Digit(n, 3) == n / 0x100_0000
  {
    hide Digit;
    FirstDigit(n);
    FirstDigit(n / 256);
    FirstDigit(n / 256 / 256);
    FirstDigit(n / 256 / 256 / 256);
    DigitStep(n, 1);
    DigitStep(n, 2);
    DigitStep(n, 3);
    DigitStep(n / 256, 1);
    DigitStep(n / 256, 2);
    DigitStep(n / 256 / 256, 1);
  }

  // ---------------------------------------------------------------------------------------------

  /** Exclusive or of the low n bits, one bit at a time. */
  function XorBits(a: nat, b: nat, n: nat): nat {
    if n == 0 then 0 else (a + b) % 2 + 2 * XorBits(a / 2, b / 2, n - 1)
  }

  function Pow2(n: nat): nat {
    if n == 0 then 1 else 2 * Pow2(n - 1)
  }

  function Bit(a: nat, i: nat): nat {
    if i == 0 then a % 2 else Bit(a / 2, i - 1)
  }

  /** Bit i of an exclusive or is set exactly when bit i of one of the two is, and not of both. */
  lemma {:induction false} XorBitsAt(a: nat, b: nat, n: nat, i: nat)
    requires i < n
    ensures Bit(XorBits(a, b, n), i) == if Bit(a, i) == Bit(b, i) then 0 else 1
  {
    hide XorBits;
    XorBitsStep(a, b, n);
    if i > 0 {
      XorBitsAt(a / 2, b / 2, n - 1, i - 1);
    }
  }

  lemma {:induction false} XorBitsBound(a: nat, b: nat, n: nat)
    ensures XorBits(a, b, n) < Pow2(n)
  {
    if n > 0 {
      XorBitsBound(a / 2, b / 2, n - 1);
    }
  }

  lemma {:induction false} XorBitsCancel(a: nat, b: nat, n: nat)
    requires a < Pow2(n)
    ensures XorBits(XorBits(a, b, n), b, n) == a
  {
    if n > 0 {
      XorBitsCancel(a / 2, b / 2, n - 1);
      XorBitsStep(a, b, n);
      ParityCancel(a, b, XorBits(a, b, n));
      XorBitsUnfold(XorBits(a, b, n), b, n);
    }
  }

  lemma ParityCancel(a: nat, b: nat, x: nat)
    requires x % 2 == (a + b) % 2
    ensures (x + b) % 2 == a % 2
  {
  }

  lemma {:induction false} XorBitsComm(a: nat, b: nat, n: nat)
    ensures XorBits(a, b, n) == XorBits(b, a, n)
  {
    if n > 0 {
      XorBitsComm(a / 2, b / 2, n - 1);
    }
  }

  /** The lowest bit of an exclusive or, and the rest. */
  lemma XorBitsStep(a: nat, b: nat, n: nat)
    requires n > 0
    ensures XorBits(a, b, n) % 2 == (a + b) % 2 && XorBits(a, b, n) / 2 == XorBits(a / 2, b / 2, n - 1)
  {
  }

  lemma XorBitsUnfold(a: nat, b: nat, n: nat)
    requires n > 0
    ensures XorBits(a, b, n) == (a + b) % 2 + 2 * XorBits(a / 2, b / 2, n - 1)
  {
  }

  lemma ParityAssoc(a: nat, b: nat, c: nat, x: nat, y: nat)
    requires x % 2 == (a + b) % 2 && y % 2 == (b + c) % 2
    ensures (x + c) % 2 == (a + y) % 2
  {
  }

  lemma {:induction false} XorBitsAssoc(a: nat, b: nat, c: nat, n: nat)
    ensures XorBits(XorBits(a, b, n), c, n) == XorBits(a, XorBits(b, c, n), n)
  {
    if n > 0 {
      XorBitsAssoc(a / 2, b / 2, c / 2, n - 1);
      XorBitsStep(a, b, n);
      XorBitsStep(b, c, n);
      hide XorBits;
      var x, y := XorBits(a, b, n), XorBits(b, c, n);
      ParityAssoc(a, b, c, x, y);
      XorBitsUnfold(x, c, n);
      XorBitsUnfold(a, y, n);
    }
  }

  lemma {:induction false} XorBitsZero(a: nat, n: nat)
    requires a < Pow2(n)
    ensures XorBits(a, 0, n) == a && XorBits(a, a, n) == 0
  {
    if n > 0 {
      XorBitsZero(a / 2, n - 1);
    }
  }

  function Xor(a: byte, b: byte): byte {
    XorBitsBound(a as int, b as int, 8);
    assert Pow2(8) == 256 by {
      assert Pow2(4) == 16;
      assert Pow2(6) == 64;
    }
    XorBits(a as int, b as int, 8) as byte
  }

  /** Exclusive or is a commutative group in which every byte is its own inverse. */
  lemma XorLaws(a: byte, b: byte, c: byte)
    ensures Xor(a, b) == Xor(b, a)
    ensures Xor(Xor(a, b), c) == Xor(a, Xor(b, c))
    ensures Xor(Xor(a, b), b) == a
  {
    XorBitsComm(a as int, b as int, 8);
    XorBitsAssoc(a as int, b as int, c as int, 8);
    assert Pow2(4) == 16 && Pow2(6) == 64 && Pow2(8) == 256;
    XorBitsCancel(a as int, b as int, 8);
  }

  lemma XorZero(a: byte)
    ensures Xor(a, 0) == a && Xor(0, a) == a && Xor(a, a) == 0
  {
    assert Pow2(4) == 16 && Pow2(6) == 64 && Pow2(8) == 256;
    XorBitsZero(a as int, 8);
    XorLaws(a, 0, 0);
  }
}
