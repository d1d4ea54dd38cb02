/** What the functions of section 4.1.2 of FIPS 180-4 compute, bit by bit. Bit 0 is the least significant. */
module Sha256Laws {
  import opened Sha256Spec

  /** `x` chooses: where it has a 1, the bit of `y`, elsewhere the bit of `z`. */
  lemma ChMeans(x: Word, y: Word, z: Word)
    ensures x & Ch(x, y, z) == x & y
    ensures !x & Ch(x, y, z) == !x & z
  {
  }

  /** The majority: wherever the first two words agree, their bit; and the order of the words does not matter. */
  lemma MajMeans(x: Word, y: Word, z: Word)
    ensures !(x ^ y) & Maj(x, y, z) == !(x ^ y) & x
    ensures Maj(x, y, z) == Maj(y, z, x)
  {
  }

  // Named, so that a proof can speak of one operation and hide what the others compute.

  function Shr(x: Word, n: bv6): Word
    requires n < 32
  {
    x >> n
  }

  function Shl(x: Word, n: bv6): Word
    requires n <= 32
  {
    x << n
  }

  function Or(x: Word, y: Word): Word { x | y }

  function Xor(x: Word, y: Word, z: Word): Word { x ^ y ^ z }

  lemma RotrIs(x: Word, n: bv6)
    requires n < 32
    ensures Rotr(x, n) == Or(Shr(x, n), Shl(x, 32 - n))
  {
  }

  lemma BigSigma0Is(x: Word)
    ensures BigSigma0(x) == Xor(Rotr(x, 2), Rotr(x, 13), Rotr(x, 22))
  {
    hide Rotr;
  }

  lemma BigSigma1Is(x: Word)
    ensures BigSigma1(x) == Xor(Rotr(x, 6), Rotr(x, 11), Rotr(x, 25))
  {
    hide Rotr;
  }

  lemma SmallSigma0Is(x: Word)
    ensures SmallSigma0(x) == Xor(Rotr(x, 7), Rotr(x, 18), Shr(x, 3))
  {
    SmallSigma0Parts(x);
    hide SmallSigma0, Rotr, Xor;
  }

  lemma SmallSigma0Parts(x: Word)
    ensures SmallSigma0(x) == Xor(Rotr(x, 7), Rotr(x, 18), x >> 3)
  {
    hide Rotr;
  }

  lemma SmallSigma1Is(x: Word)
    ensures SmallSigma1(x) == Xor(Rotr(x, 17), Rotr(x, 19), Shr(x, 10))
  {
    SmallSigma1Parts(x);
    hide SmallSigma1, Rotr, Xor;
  }

  lemma SmallSigma1Parts(x: Word)
    ensures SmallSigma1(x) == Xor(Rotr(x, 17), Rotr(x, 19), x >> 10)
  {
    hide Rotr;
  }

  ghost predicate Bit(x: Word, i: bv6)
    requires i < 32
  {
    (x >> i) & 1 == 1
  }

  lemma BitAndAbove(x: Word, y: Word, i: bv6)
    requires i < 32
    ensures x >> (i + 1) == y >> (i + 1) && Bit(x, i) == Bit(y, i) ==> x >> i == y >> i
  {
  }

  lemma {:induction false} BitsAbove(x: Word, y: Word, i: bv6)
    requires i <= 32 && forall j: bv6 :: j < 32 ==> Bit(x, j) == Bit(y, j)
    ensures x >> i == y >> i
    decreases 32 - i
  {
    hide Bit;
    if i < 32 {
      BitsAbove(x, y, i + 1);
      BitAndAbove(x, y, i);
    }
  }

  /** A word is known from its 32 bits. */
  lemma BitsTell(x: Word, y: Word)
    requires forall j: bv6 :: j < 32 ==> Bit(x, j) == Bit(y, j)
    ensures x == y
  {
    BitsAbove(x, y, 0);
  }

  /** A shift to the right by `n` brings bit `i + n` to place `i`, and zeros past the end. */
  lemma ShrBit(x: Word, n: bv6, i: bv6)
    requires n < 32 && i < 32
    ensures Bit(Shr(x, n), i) == (i + n < 32 && Bit(x, (i + n) & 31))
  {
    RightBit(x, n, i);
    hide Bit;
  }

  lemma RightBit(x: Word, n: bv6, i: bv6)
    requires n < 32 && i < 32
    ensures Bit(x >> n, i) == (i + n < 32 && Bit(x, (i + n) & 31))
  {
  }

  lemma ShlBit(x: Word, n: bv6, i: bv6)
    requires n < 32 && i < 32
    ensures Bit(Shl(x, 32 - n), i) == (i + n >= 32 && Bit(x, (i + n) & 31))
  {
    LeftBit(x, n, i);
    hide Bit;
  }

  lemma LeftBit(x: Word, n: bv6, i: bv6)
    requires n < 32 && i < 32
    ensures Bit(x << (32 - n), i) == (i + n >= 32 && Bit(x, (i + n) & 31))
  {
  }

  lemma OrBit(x: Word, y: Word, i: bv6)
    requires i < 32
    ensures Bit(Or(x, y), i) == (Bit(x, i) || Bit(y, i))
  {
    assert Bit(x | y, i) == (Bit(x, i) || Bit(y, i));
    hide Bit;
  }

  /** Whether an odd number of the three bits is 1. */
  ghost predicate Odd(p: bool, q: bool, r: bool) {
    (p != q) != r
  }

  lemma XorBit(x: Word, y: Word, z: Word, i: bv6)
    requires i < 32
    ensures Bit(Xor(x, y, z), i) == Odd(Bit(x, i), Bit(y, i), Bit(z, i))
  {
    ThreeBits(x, y, z, i);
    hide Bit, Odd;
  }

  lemma ThreeBits(x: Word, y: Word, z: Word, i: bv6)
    requires i < 32
    ensures Bit(x ^ y ^ z, i) == Odd(Bit(x, i), Bit(y, i), Bit(z, i))
  {
  }

  /** A rotation to the right by `n` brings bit `i + n` to place `i`, counted round the word. */
  lemma RotrBit(x: Word, n: bv6, i: bv6)
    requires n < 32 && i < 32
    ensures Bit(Rotr(x, n), i) == Bit(x, (i + n) & 31)
  {
    hide Rotr, Shr, Shl, Or, Bit;
    RotrIs(x, n);
    OrBit(Shr(x, n), Shl(x, 32 - n), i);
    ShrBit(x, n, i);
    ShlBit(x, n, i);
  }

  lemma BigSigma0Bits(x: Word, i: bv6)
    requires i < 32
    ensures Bit(BigSigma0(x), i) ==
            Odd(Bit(x, (i + 2) & 31), Bit(x, (i + 13) & 31), Bit(x, (i + 22) & 31))
  {
    hide BigSigma0, Rotr, Xor, Bit;
    BigSigma0Is(x);
    XorBit(Rotr(x, 2), Rotr(x, 13), Rotr(x, 22), i);
    RotrBit(x, 2, i);
    RotrBit(x, 13, i);
    RotrBit(x, 22, i);
  }

  lemma BigSigma1Bits(x: Word, i: bv6)
    requires i < 32
    ensures Bit(BigSigma1(x), i) ==
            Odd(Bit(x, (i + 6) & 31), Bit(x, (i + 11) & 31), Bit(x, (i + 25) & 31))
  {
    hide BigSigma1, Rotr, Xor, Bit;
    BigSigma1Is(x);
    XorBit(Rotr(x, 6), Rotr(x, 11), Rotr(x, 25), i);
    RotrBit(x, 6, i);
    RotrBit(x, 11, i);
    RotrBit(x, 25, i);
  }

  lemma SmallSigma0Bits(x: Word, i: bv6)
    requires i < 32
    ensures Bit(SmallSigma0(x), i) ==
            Odd(Bit(x, (i + 7) & 31), Bit(x, (i + 18) & 31), i + 3 < 32 && Bit(x, (i + 3) & 31))
  {
    hide SmallSigma0, Rotr, Shr, Xor, Bit;
    SmallSigma0Is(x);
    XorBit(Rotr(x, 7), Rotr(x, 18), Shr(x, 3), i);
    RotrBit(x, 7, i);
    RotrBit(x, 18, i);
    ShrBit(x, 3, i);
  }

  lemma SmallSigma1Bits(x: Word, i: bv6)
    requires i < 32
    ensures Bit(SmallSigma1(x), i) ==
            Odd(Bit(x, (i + 17) & 31), Bit(x, (i + 19) & 31), i + 10 < 32 && Bit(x, (i + 10) & 31))
  {
    hide SmallSigma1, Rotr, Shr, Xor, Bit;
    SmallSigma1Is(x);
    XorBit(Rotr(x, 17), Rotr(x, 19), Shr(x, 10), i);
    RotrBit(x, 17, i);
    RotrBit(x, 19, i);
    ShrBit(x, 10, i);
  }

  // ----- padding

  /** The number with these digits in base 256, most significant first. */
  function NumberOf(digits: seq<nat>): nat {
    if digits == [] then 0 else 256 * NumberOf(digits[..|digits| - 1]) + digits[|digits| - 1]
  }

  /** 256 multiplied by itself. */
  function Range(bytes: nat): nat {
    if bytes == 0 then 1 else 256 * Range(bytes - 1)
  }

  /** The bytes are these digits. */
  ghost predicate BytesAre(bytes: seq<Byte>, digits: seq<nat>) {
    |bytes| == |digits| && forall i :: 0 <= i < |digits| ==> digits[i] < 256 && bytes[i] == digits[i] as Byte
  }

  lemma {:induction false} BigEndianReads(n: nat, bytes: nat) returns (digits: seq<nat>)
    requires n < Range(bytes)
    ensures BytesAre(BigEndian(n, bytes), digits) && NumberOf(digits) == n
    decreases bytes
  {
    digits := [];
    if bytes > 0 {
      digits := BigEndianReads(n / 256, bytes - 1);
      assert (digits + [n % 256])[..bytes - 1] == digits;
      digits := digits + [n % 256];
    }
  }

  /** The message, the byte 0x80, the fewest zeros that make whole blocks, and in eight bytes the number of
      bits of the message. */
  lemma PadMeans(message: seq<Byte>)
    requires 8 * |message| < 0x1_0000_0000_0000_0000
    ensures var padded, n := Pad(message), |message|;
            && |padded| % 64 == 0 && n + 9 <= |padded| < n + 73
            && padded[..n] == message && padded[n] == 0x80
            && (forall i :: n < i < |padded| - 8 ==> padded[i] == 0)
            && exists digits :: BytesAre(padded[|padded| - 8..], digits) && NumberOf(digits) == 8 * n
  {
    var n := |message|;
    assert Range(8) == 0x1_0000_0000_0000_0000;
    var digits := BigEndianReads(8 * n, 8);
    hide BigEndian, Range, NumberOf, BytesAre;
    assert Pad(message)[|Pad(message)| - 8..] == BigEndian(8 * n, 8);
  }
}
