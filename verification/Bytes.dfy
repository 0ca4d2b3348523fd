/** Bytes and machine words, with the bitwise operations the modelled code applies to them. */
module Bytes {
  type byte = n: int | 0 <= n < 0x100
  type uint32 = n: int | 0 <= n < 0x1_0000_0000
  type uint64 = n: int | 0 <= n < 0x1_0000_0000_0000_0000

  const TWO_31 := 0x8000_0000
  const TWO_32 := 0x1_0000_0000

  /** The unsigned word that JavaScript makes of a number before it applies an operator on bits. */
  function ToUint32(x: int): (r: nat)
    ensures r < TWO_32
  {
    x % TWO_32
  }

  /** The signed one. */
  function ToInt32(x: int): (r: int)
    ensures -TWO_31 <= r < TWO_31
    ensures ToUint32(r) == ToUint32(x)
  {
    var u := ToUint32(x);
    if u >= TWO_31 then u - TWO_32 else u
  }

  /** Words differ from the number by a multiple of 2^32. */
  lemma WordsAre(x: int)
    ensures 0 <= ToUint32(x) < 0x1_0000_0000 && (x - ToUint32(x)) % 0x1_0000_0000 == 0
    ensures -0x8000_0000 <= ToInt32(x) < 0x8000_0000 && (x - ToInt32(x)) % 0x1_0000_0000 == 0
  {
    var k := x / 0x1_0000_0000;
    assert x - ToUint32(x) == 0x1_0000_0000 * k;
  }

  /** Exclusive or of the lowest `width` bits, least significant bit first. */
  function XorBits(a: nat, b: nat, width: nat): (r: nat)
  {
    if width == 0 then 0 else (a + b) % 2 + 2 * XorBits(a / 2, b / 2, width - 1)
  }

  function Pow2(n: nat): (p: nat)
    ensures p >= 1
  {
    if n == 0 then 1 else 2 * Pow2(n - 1)
  }

  lemma {:induction false} XorBitsBound(a: nat, b: nat, width: nat)
    ensures XorBits(a, b, width) < Pow2(width)
  {
    if width > 0 {
      XorBitsBound(a / 2, b / 2, width - 1);
    }
  }

  lemma ParityTwice(a: nat, b: nat)
    ensures ((a + b) % 2 + b) % 2 == a % 2
  {
  }

  lemma XorBitsParts(low: nat, high: nat, b: nat, width: nat)
    requires low < 2 && width > 0
    ensures XorBits(low + 2 * high, b, width) == (low + b) % 2 + 2 * XorBits(high, b / 2, width - 1)
  {
    var x := low + 2 * high;
    assert x / 2 == high && (x + b) % 2 == (low + b) % 2;
  }

  /** Masking twice with the same bits restores the value. */
  lemma {:induction false} XorBitsInvolution(a: nat, b: nat, width: nat)
    requires a < Pow2(width)
    ensures XorBits(XorBits(a, b, width), b, width) == a
  {
    if width > 0 {
      XorBitsInvolution(a / 2, b / 2, width - 1);
      XorBitsParts((a + b) % 2, XorBits(a / 2, b / 2, width - 1), b, width);
      ParityTwice(a, b);
    }
  }

  lemma {:induction false} XorBitsZero(a: nat, width: nat)
    requires a < Pow2(width)
    ensures XorBits(a, 0, width) == a
  {
    if width > 0 {
      XorBitsZero(a / 2, width - 1);
    }
  }

  function Xor(a: byte, b: byte): (r: byte)
  {
    XorBitsBound(a, b, 8);
    assert Pow2(8) == 256 by { assert Pow2(4) == 16; }
    XorBits(a, b, 8)
  }

  lemma XorTwice(a: byte, b: byte)
    ensures Xor(Xor(a, b), b) == a
  {
    assert Pow2(8) == 256 by { assert Pow2(4) == 16; }
    XorBitsInvolution(a, b, 8);
  }

  lemma XorZero(a: byte)
    ensures Xor(a, 0) == a
  {
    assert Pow2(8) == 256 by { assert Pow2(4) == 16; }
    XorBitsZero(a, 8);
  }

  /** The bits of `XorBits`, one by one. */
  lemma LowestBit(a: nat, b: nat, width: nat)
    requires width > 0
    ensures XorBits(a, b, width) % 2 == (a % 2 + b % 2) % 2
    ensures XorBits(a, b, width) / 2 == XorBits(a / 2, b / 2, width - 1)
  {
    var low, high := (a + b) % 2, XorBits(a / 2, b / 2, width - 1);
    ParityOfSum(a, b);
    assert XorBits(a, b, width) == low + 2 * high;
    LowAndHigh(low, high);
  }

  lemma ParityOfSum(a: nat, b: nat)
    ensures (a + b) % 2 == (a % 2 + b % 2) % 2
  {
  }

  lemma LowAndHigh(low: nat, high: nat)
    requires low < 2
    ensures (low + 2 * high) % 2 == low && (low + 2 * high) / 2 == high
  {
  }

  lemma Quartered(n: nat)
    ensures n / 2 / 2 == n / 4 && n / 4 / 4 == n / 16
  {
  }

  lemma TwoLowestBits(a: nat, b: nat, width: nat)
    requires width > 1
    ensures var x := XorBits(a, b, width);
      && x % 2 == (a % 2 + b % 2) % 2
      && x / 2 % 2 == (a / 2 % 2 + b / 2 % 2) % 2
      && x / 4 == XorBits(a / 4, b / 4, width - 2)
  {
    LowestBit(a, b, width);
    LowestBit(a / 2, b / 2, width - 1);
    Quartered(a);
    Quartered(b);
    Quartered(XorBits(a, b, width));
  }

  lemma EightParts(n: nat)
    ensures n / 4 / 2 == n / 8 && n / 4 / 4 == n / 16
    ensures n / 16 / 2 == n / 32 && n / 16 / 4 == n / 64 && n / 64 / 2 == n / 128
  {
  }

  /** Each of the eight bits is the exclusive or of the bits of the operands. */
  lemma XorIsBitwise(a: byte, b: byte)
    ensures Xor(a, b) % 2 == (a % 2 + b % 2) % 2
    ensures Xor(a, b) / 2 % 2 == (a / 2 % 2 + b / 2 % 2) % 2
    ensures Xor(a, b) / 4 % 2 == (a / 4 % 2 + b / 4 % 2) % 2
    ensures Xor(a, b) / 8 % 2 == (a / 8 % 2 + b / 8 % 2) % 2
    ensures Xor(a, b) / 16 % 2 == (a / 16 % 2 + b / 16 % 2) % 2
    ensures Xor(a, b) / 32 % 2 == (a / 32 % 2 + b / 32 % 2) % 2
    ensures Xor(a, b) / 64 % 2 == (a / 64 % 2 + b / 64 % 2) % 2
    ensures Xor(a, b) / 128 % 2 == (a / 128 % 2 + b / 128 % 2) % 2
  {
    TwoLowestBits(a, b, 8);
    TwoLowestBits(a / 4, b / 4, 6);
    TwoLowestBits(a / 16, b / 16, 4);
    TwoLowestBits(a / 64, b / 64, 2);
    EightParts(a);
    EightParts(b);
    EightParts(Xor(a, b));
  }

  /** Big-endian reading of a byte string, as QDataStream does it. */
  function BigEndian(s: seq<byte>): (n: nat)
  {
    if s == [] then 0 else 0x100 * BigEndian(s[..|s| - 1]) + s[|s| - 1]
  }

  /** The `width` big-endian bytes of n modulo 256^width. */
  function ToBigEndian(n: nat, width: nat): (s: seq<byte>)
    ensures |s| == width
  {
    if width == 0 then [] else ToBigEndian(n / 0x100, width - 1) + [n % 0x100]
  }

  function Pow256(n: nat): (p: nat)
    ensures p >= 1
  {
    if n == 0 then 1 else 0x100 * Pow256(n - 1)
  }

  lemma {:induction false} BigEndianRoundTrip(n: nat, width: nat)
    requires n < Pow256(width)
    ensures BigEndian(ToBigEndian(n, width)) == n
  {
    if width > 0 {
      BigEndianRoundTrip(n / 0x100, width - 1);
      assert ToBigEndian(n, width)[..width - 1] == ToBigEndian(n / 0x100, width - 1);
    }
  }

  lemma {:induction false} BigEndianBound(s: seq<byte>)
    ensures BigEndian(s) < Pow256(|s|)
  {
    if s != [] {
      BigEndianBound(s[..|s| - 1]);
    }
  }

  lemma Pow256Values()
    ensures Pow256(2) == 0x1_0000
    ensures Pow256(4) == 0x1_0000_0000
    ensures Pow256(8) == 0x1_0000_0000_0000_0000
  {
    assert Pow256(5) == 0x100_0000_0000;
  }
}
