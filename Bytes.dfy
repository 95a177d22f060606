/** Byte-level arithmetic shared by the frame codec and the response decoders.
    A byte is an integer in 0..255; XOR is defined bit by bit so that no
    bit-vector conversion is needed anywhere in the model. */
module Bytes {

  type Byte = b: int | 0 <= b < 256

  /** 2 to the power `n`. */
  function Pow2(n: nat): (r: nat)
    ensures r >= 1
  {
    if n == 0 then 1 else 2 * Pow2(n - 1)
  }

  /** Bitwise exclusive or of two naturals, lowest bit first. */
  function Xor(a: nat, b: nat): nat
    decreases a + b
  {
    if a == 0 && b == 0 then 0
    else 2 * Xor(a / 2, b / 2) + (a % 2 + b % 2) % 2
  }

  /** The lowest bit of `a ^ b` and the bits above it. */
  lemma XorDigits(a: nat, b: nat)
    ensures Xor(a, b) % 2 == (a % 2 + b % 2) % 2
    ensures Xor(a, b) / 2 == Xor(a / 2, b / 2)
  {
  }

  lemma {:induction false} XorZero(a: nat)
    ensures Xor(a, 0) == a && Xor(0, a) == a
    decreases a
  {
    if a != 0 {
      XorZero(a / 2);
    }
  }

  lemma {:induction false} XorSelf(a: nat)
    ensures Xor(a, a) == 0
    decreases a
  {
    if a != 0 {
      XorSelf(a / 2);
    }
  }

  /** A natural is determined by its lowest bit and the bits above it. */
  lemma SameDigits(x: nat, y: nat)
    requires x % 2 == y % 2 && x / 2 == y / 2
    ensures x == y
  {
  }

  /** XOR is zero exactly on equal operands. */
  lemma {:induction false} XorZeroIffEqual(a: nat, b: nat)
    ensures Xor(a, b) == 0 <==> a == b
    decreases a + b
  {
    if a != 0 || b != 0 {
      XorZeroIffEqual(a / 2, b / 2);
      XorDigits(a, b);
      if Xor(a, b) == 0 {
        SameDigits(a, b);
      }
    }
  }

  /** XOR never sets a bit above the width of its operands. */
  lemma {:induction false} XorBound(a: nat, b: nat, n: nat)
    requires a < Pow2(n) && b < Pow2(n)
    ensures Xor(a, b) < Pow2(n)
  {
    if n == 0 {
      assert a == 0 && b == 0;
    } else {
      XorBound(a / 2, b / 2, n - 1);
      XorDigits(a, b);
    }
  }

  /** XOR of two bytes, itself a byte. */
  function XorByte(a: Byte, b: Byte): (r: Byte)
    ensures r == Xor(a, b)
  {
    assert Pow2(8) == 256;
    XorBound(a, b, 8);
    Xor(a, b)
  }

  /** XOR of every byte of `s`, folded from the left exactly as the checksum
      loop of the frame builder does. */
  function XorAll(s: seq<Byte>): Byte
  {
    if s == [] then 0 else XorByte(XorAll(s[..|s| - 1]), s[|s| - 1])
  }

  /** Appending the XOR of a sequence makes the whole sequence XOR to zero, and
      that last byte is the only one that does so. */
  lemma {:induction false} ChecksumClosesFrame(s: seq<Byte>, c: Byte)
    ensures XorAll(s + [c]) == 0 <==> c == XorAll(s)
  {
    assert (s + [c])[..|s|] == s;
    XorZeroIffEqual(XorAll(s), c);
  }

  /** The checksum of bytes that are all below 0x80 is itself below 0x80. */
  lemma {:induction false} XorAllBelow(s: seq<Byte>)
    requires forall i :: 0 <= i < |s| ==> s[i] < 0x80
    ensures XorAll(s) < 0x80
  {
    if s != [] {
      XorAllBelow(s[..|s| - 1]);
      assert Pow2(7) == 0x80;
      XorBound(XorAll(s[..|s| - 1]), s[|s| - 1], 7);
    }
  }

  /** Little-endian unsigned 16-bit word from its low and high byte. */
  function Le16(lo: Byte, hi: Byte): (r: nat)
    ensures r < 0x1_0000
    ensures r % 256 == lo && r / 256 == hi
  {
    lo + 256 * hi
  }

  /** The little-endian word stored at `i`, `i + 1` of `s`. */
  function Le16At(s: seq<Byte>, i: nat): (r: nat)
    requires i + 1 < |s|
    ensures r < 0x1_0000
    ensures r % 256 == s[i] && r / 256 == s[i + 1]
  {
    Le16(s[i], s[i + 1])
  }

  /** Low byte of a 16-bit value, as a device would put it on the wire. */
  function LowByte(n: nat): Byte
    requires n < 0x1_0000
  {
    n % 256
  }

  /** High byte of a 16-bit value. */
  function HighByte(n: nat): Byte
    requires n < 0x1_0000
  {
    n / 256
  }

  /** Splitting a 16-bit value into bytes and reading it back gives the value. */
  lemma Le16RoundTrip(n: nat)
    requires n < 0x1_0000
    ensures Le16(LowByte(n), HighByte(n)) == n
  {
  }

  /** The byte-valued flag `b == 1` read by the decoders, and its encoding. */
  function FlagByte(flag: bool): (b: Byte)
    ensures (b == 1) == flag
  {
    if flag then 1 else 0
  }

  /** A window inside the left operand of a concatenation. */
  lemma WindowLeft<T>(x: seq<T>, y: seq<T>, i: nat, j: nat)
    requires i <= j <= |x|
    ensures (x + y)[i..j] == x[i..j]
  {
  }

  /** The right operand of a concatenation, found after the left one. */
  lemma WindowRight<T>(x: seq<T>, y: seq<T>, i: nat, j: nat)
    requires i <= j <= |y|
    ensures (x + y)[|x| + i..|x| + j] == y[i..j]
    ensures (x + y)[|x|..|x| + |y|] == y
  {
  }
}
