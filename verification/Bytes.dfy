/**
  Bytes, and the big-endian integers that the wire formats are made of.

  A byte is an integer below 256.  Masks and shifts by constants are written as
  the division and remainder they are (`b & 0x7F` is `b % 128`, `b >> 4` is
  `b / 16`); exclusive-or is defined bit by bit.
 */
module Bytes {
  type byte = b: int | 0 <= b < 256

  /** 2^64, where the source's size_t and uint64_t arithmetic wraps around. */
  const TWO_64: nat := 0x1_0000_0000_0000_0000

  /** Exclusive or of the low k bits. */
  function XorBits(a: nat, b: nat, k: nat): nat {
    if k == 0 then 0 else (a + b) % 2 + 2 * XorBits(a / 2, b / 2, k - 1)
  }

  lemma LowBit(bit: nat, rest: nat)
    requires bit < 2
    ensures (bit + 2 * rest) / 2 == rest && (bit + 2 * rest) % 2 == bit
  {}

  lemma ParityTwice(a: nat, m: nat, x: nat)
    ensures ((a + m) % 2 + 2 * x + m) % 2 == a % 2
  {}

  lemma {:induction false} XorBitsTwice(a: nat, m: nat, k: nat)
    requires a < Pow2(k)
    ensures XorBits(XorBits(a, m, k), m, k) == a
  {
    if k > 0 {
      var x := XorBits(a / 2, m / 2, k - 1);
      XorBitsTwice(a / 2, m / 2, k - 1);
      LowBit((a + m) % 2, x);
      ParityTwice(a, m, x);
      LowBit(a % 2, a / 2);
    }
  }

  lemma {:induction false} XorBitsBound(a: nat, m: nat, k: nat)
    ensures XorBits(a, m, k) < Pow2(k)
  {
    if k > 0 {
      XorBitsBound(a / 2, m / 2, k - 1);
    }
  }

  function Pow2(k: nat): nat {
    if k == 0 then 1 else 2 * Pow2(k - 1)
  }

  function Xor(a: byte, b: byte): byte {
    XorBitsBound(a, b, 8);
    assert Pow2(8) == 256 by { Pow2Eight(); }
    XorBits(a, b, 8)
  }

  lemma Pow2Eight()
    ensures Pow2(8) == 256
  {
    assert Pow2(4) == 2 * Pow2(3) && Pow2(3) == 2 * Pow2(2) && Pow2(2) == 4;
    assert Pow2(8) == 2 * Pow2(7) && Pow2(7) == 2 * Pow2(6) && Pow2(6) == 2 * Pow2(5) && Pow2(5) == 2 * Pow2(4);
  }

  lemma XorTwice(a: byte, m: byte)
    ensures Xor(Xor(a, m), m) == a
  {
    Pow2Eight();
    XorBitsTwice(a, m, 8);
  }

  lemma {:induction false} XorBitsZero(a: nat, k: nat)
    requires a < Pow2(k)
    ensures XorBits(a, 0, k) == a
  {
    if k > 0 { XorBitsZero(a / 2, k - 1); }
  }

  /** Exclusive or, from its lowest bit on. */
  lemma XorStep(a: nat, m: nat, k: nat)
    requires k > 0
    ensures XorBits(a, m, k) == (a + m) % 2 + 2 * XorBits(a / 2, m / 2, k - 1)
  {}

  /** Bit k of n, the lowest one first. */
  function Bit(n: nat, k: nat): nat {
    if k == 0 then n % 2 else Bit(n / 2, k - 1)
  }

  /** Bits that agree make equal numbers. */
  lemma {:induction false} BitsDecide(a: nat, b: nat, width: nat)
    requires a < Pow2(width) && b < Pow2(width)
    requires forall k :: 0 <= k < width ==> Bit(a, k) == Bit(b, k)
    ensures a == b
  {
    if width > 0 {
      assert Bit(a, 0) == Bit(b, 0);
      assert forall k :: 0 <= k < width - 1 ==> Bit(a / 2, k) == Bit(a, k + 1) && Bit(b / 2, k) == Bit(b, k + 1);
      BitsDecide(a / 2, b / 2, width - 1);
    }
  }

  lemma {:induction false} BitOfXorBits(a: nat, m: nat, width: nat, k: nat)
    requires k < width
    ensures Bit(XorBits(a, m, width), k) == (Bit(a, k) + Bit(m, k)) % 2
  {
    hide Bit;
    BitStep(XorBits(a, m, width), k);
    BitStep(a, k);
    BitStep(m, k);
    LowBit((a + m) % 2, XorBits(a / 2, m / 2, width - 1));
    SumParity(a, m);
    if k > 0 {
      BitOfXorBits(a / 2, m / 2, width - 1, k - 1);
    }
  }

  lemma BitStep(n: nat, k: nat)
    ensures Bit(n, k) == if k == 0 then n % 2 else Bit(n / 2, k - 1)
  {}

  lemma SumParity(a: nat, m: nat)
    ensures (a + m) % 2 == (a % 2 + m % 2) % 2
  {}

  /** Bit by bit, exclusive or is addition without carry; by `BitsDecide` no other byte has these bits. */
  lemma XorIsBitwise(a: byte, m: byte, k: nat)
    requires k < 8
    ensures Bit(Xor(a, m), k) == (Bit(a, k) + Bit(m, k)) % 2
  {
    BitOfXorBits(a, m, 8, k);
  }

  /** The low `width` bytes of n, most significant first. */
  function BigEndian(n: nat, width: nat): (s: seq<byte>)
    ensures |s| == width
  {
    if width == 0 then [] else BigEndian(n / 256, width - 1) + [n % 256]
  }

  function FromBigEndian(s: seq<byte>): nat {
    if s == [] then 0 else FromBigEndian(s[..|s| - 1]) * 256 + s[|s| - 1]
  }

  function Pow256(k: nat): (r: nat)
    ensures r > 0
  {
    if k == 0 then 1 else 256 * Pow256(k - 1)
  }

  lemma {:induction false} BigEndianRoundTrip(n: nat, width: nat)
    requires n < Pow256(width)
    ensures FromBigEndian(BigEndian(n, width)) == n
  {
    if width > 0 {
      BigEndianRoundTrip(n / 256, width - 1);
      var s := BigEndian(n, width);
      assert s[..width - 1] == BigEndian(n / 256, width - 1);
    }
  }

  /** Byte i counts the 256^(width - 1 - i)s of n, modulo 256. */
  lemma {:induction false} BigEndianByte(n: nat, width: nat, i: nat)
    requires i < width
    ensures BigEndian(n, width)[i] == n / Pow256(width - 1 - i) % 256
  {
    if i < width - 1 {
      BigEndianByte(n / 256, width - 1, i);
      DivideTwice(n, Pow256(width - 2 - i));
    }
  }

  lemma DivideTwice(n: nat, d: nat)
    requires d > 0
    ensures n / 256 / d == n / (256 * d)
  {
    var q := n / 256 / d;
    var r := n - 256 * d * q;
    assert n / 256 - d * q == n / 256 % d;
    assert 256 * (n / 256) == n - n % 256;
    assert 256 * d * q == 256 * (d * q);
    assert 0 <= r < 256 * d;
    QuotientUnique(n, 256 * d, q, r);
  }

  lemma QuotientUnique(n: nat, d: nat, q: nat, r: nat)
    requires n == d * q + r && r < d
    ensures n / d == q
  {
    var k := n / d;
    TimesMonotonic(d, k + 1, q);
    TimesMonotonic(d, q + 1, k);
  }

  lemma TimesMonotonic(d: nat, a: nat, b: nat)
    ensures a <= b ==> d * a <= d * b
  {}

  /** Two bytes hold a number below 2^16, most significant byte first. */
  lemma Be16Holds(n: nat)
    requires n < 65536
    ensures n == 256 * Be16(n)[0] as int + Be16(n)[1]
  {}

  lemma {:induction false} FromBigEndianBound(s: seq<byte>)
    ensures FromBigEndian(s) < Pow256(|s|)
  {
    if s != [] {
      FromBigEndianBound(s[..|s| - 1]);
    }
  }

  lemma Pow256Values()
    ensures Pow256(2) == 65536 && Pow256(8) == TWO_64
  {
    assert Pow256(4) == 256 * Pow256(3) && Pow256(3) == 256 * Pow256(2);
    assert Pow256(2) == 256 * Pow256(1) && Pow256(1) == 256 * Pow256(0);
    assert Pow256(8) == 256 * Pow256(7) && Pow256(7) == 256 * Pow256(6);
    assert Pow256(6) == 256 * Pow256(5) && Pow256(5) == 256 * Pow256(4);
  }

  function Be16(n: nat): (s: seq<byte>)
    ensures |s| == 2
  {
    [n / 256 % 256, n % 256]
  }

  /** Two bytes hold a number modulo 2^16. */
  lemma Be16Wraps(n: nat)
    ensures Be16(n % 65536) == Be16(n)
  {
    var q, r := n / 65536, n % 65536;
    assert n == 256 * (256 * q + r / 256) + r % 256;
    assert n / 256 == 256 * q + r / 256 && n % 256 == r % 256;
  }

  /** A slice of a slice is a slice. */
  lemma SliceOfSlice<T>(s: seq<T>, at: nat, part: seq<T>, i: nat, j: nat)
    requires i <= j <= |part| && at + |part| <= |s| && s[at..at + |part|] == part
    ensures s[at + i..at + j] == part[i..j]
  {
    assert forall k {:trigger part[k]} :: 0 <= k < |part| ==> s[at + k] == part[k];
  }

  /** A name as the characters of a C++ string. */
  function Text(s: seq<byte>): string {
    seq(|s|, i requires 0 <= i < |s| => s[i] as char)
  }
}
