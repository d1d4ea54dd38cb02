/** SHA-256 as FIPS 180-4 defines it: functions and constants of sections 4.1.2, 4.2.2 and 5.3.3,
    padding of section 5.1.1, parsing of section 5.2.1, hash computation of section 6.2.2.
 */
module Sha256Spec {

  type Byte = bv8
  type Word = bv32

  function Rotr(x: Word, n: bv6): Word
    requires n < 32
  {
    (x >> n) | (x << (32 - n))
  }

  /** Addition modulo 2^32 (section 3.2), which is what C's `uint32_t` does. */
  function Plus(x: Word, y: Word): Word { x + y }

  function Ch(x: Word, y: Word, z: Word): Word { (x & y) ^ (!x & z) }

  function Maj(x: Word, y: Word, z: Word): Word { (x & y) ^ (x & z) ^ (y & z) }

  function BigSigma0(x: Word): Word { Rotr(x, 2) ^ Rotr(x, 13) ^ Rotr(x, 22) }

  function BigSigma1(x: Word): Word { Rotr(x, 6) ^ Rotr(x, 11) ^ Rotr(x, 25) }

  function SmallSigma0(x: Word): Word { Rotr(x, 7) ^ Rotr(x, 18) ^ (x >> 3) }

  function SmallSigma1(x: Word): Word { Rotr(x, 17) ^ Rotr(x, 19) ^ (x >> 10) }

  /** The constants of section 4.2.2, in four rows of sixteen. */
  const K: seq<Word> := K0 + K16 + K32 + K48

  const K0: seq<Word> := [
    0x428a2f98, 0x71374491, 0xb5c0fbcf, 0xe9b5dba5, 0x3956c25b, 0x59f111f1, 0x923f82a4, 0xab1c5ed5,
    0xd807aa98, 0x12835b01, 0x243185be, 0x550c7dc3, 0x72be5d74, 0x80deb1fe, 0x9bdc06a7, 0xc19bf174]

  const K16: seq<Word> := [
    0xe49b69c1, 0xefbe4786, 0x0fc19dc6, 0x240ca1cc, 0x2de92c6f, 0x4a7484aa, 0x5cb0a9dc, 0x76f988da,
    0x983e5152, 0xa831c66d, 0xb00327c8, 0xbf597fc7, 0xc6e00bf3, 0xd5a79147, 0x06ca6351, 0x14292967]

  const K32: seq<Word> := [
    0x27b70a85, 0x2e1b2138, 0x4d2c6dfc, 0x53380d13, 0x650a7354, 0x766a0abb, 0x81c2c92e, 0x92722c85,
    0xa2bfe8a1, 0xa81a664b, 0xc24b8b70, 0xc76c51a3, 0xd192e819, 0xd6990624, 0xf40e3585, 0x106aa070]

  const K48: seq<Word> := [
    0x19a4c116, 0x1e376c08, 0x2748774c, 0x34b0bcb5, 0x391c0cb3, 0x4ed8aa4a, 0x5b9cca4f, 0x682e6ff3,
    0x748f82ee, 0x78a5636f, 0x84c87814, 0x8cc70208, 0x90befffa, 0xa4506ceb, 0xbef9a3f7, 0xc67178f2]

  const H0: seq<Word> := [
    0x6a09e667, 0xbb67ae85, 0x3c6ef372, 0xa54ff53a, 0x510e527f, 0x9b05688c, 0x1f83d9ab, 0x5be0cd19]

  // ----- one block

  /** Four bytes as a word, most significant first (section 3.1). */
  function WordOf(b: seq<Byte>): Word
    requires |b| == 4
  {
    ((b[0] as Word) << 24) | ((b[1] as Word) << 16) | ((b[2] as Word) << 8) | (b[3] as Word)
  }

  /** Step 1 of section 6.2.2: the message schedule. */
  function W(block: seq<Byte>, t: nat): Word
    requires |block| == 64 && t < 64
  {
    if t < 16 then WordOf(block[4 * t..4 * t + 4])
    else Plus(Plus(Plus(SmallSigma1(W(block, t - 2)), W(block, t - 7)), SmallSigma0(W(block, t - 15))),
              W(block, t - 16))
  }

  datatype Vars = Vars(a: Word, b: Word, c: Word, d: Word, e: Word, f: Word, g: Word, h: Word)

  function Round(v: Vars, k: Word, w: Word): Vars {
    var t1 := Plus(Plus(Plus(Plus(v.h, BigSigma1(v.e)), Ch(v.e, v.f, v.g)), k), w);
    var t2 := Plus(BigSigma0(v.a), Maj(v.a, v.b, v.c));
    Vars(Plus(t1, t2), v.a, v.b, v.c, Plus(v.d, t1), v.e, v.f, v.g)
  }

  /** Steps 2 and 3: the working variables after `t` rounds. */
  function Rounds(block: seq<Byte>, hash: seq<Word>, t: nat): Vars
    requires |block| == 64 && |hash| == 8 && t <= 64
  {
    if t == 0 then Vars(hash[0], hash[1], hash[2], hash[3], hash[4], hash[5], hash[6], hash[7])
    else Round(Rounds(block, hash, t - 1), K[t - 1], W(block, t - 1))
  }

  /** Step 4: the next intermediate hash value. */
  function Compress(hash: seq<Word>, block: seq<Byte>): (r: seq<Word>)
    requires |block| == 64 && |hash| == 8
    ensures |r| == 8
  {
    var v := Rounds(block, hash, 64);
    [Plus(hash[0], v.a), Plus(hash[1], v.b), Plus(hash[2], v.c), Plus(hash[3], v.d),
     Plus(hash[4], v.e), Plus(hash[5], v.f), Plus(hash[6], v.g), Plus(hash[7], v.h)]
  }

  // ----- the whole message

  /** The hash value after the blocks of `message`. */
  function Blocks(message: seq<Byte>): (r: seq<Word>)
    requires |message| % 64 == 0
    ensures |r| == 8
  {
    if message == [] then H0
    else Compress(Blocks(message[..|message| - 64]), message[|message| - 64..])
  }

  function Zeros(n: nat): seq<Byte> {
    seq(n, _ => 0)
  }

  function LowByte(n: nat): Byte {
    (n % 256) as Byte
  }

  /** The last `bytes` bytes of `n`, most significant first. */
  function BigEndian(n: nat, bytes: nat): (r: seq<Byte>)
    ensures |r| == bytes
    decreases bytes
  {
    if bytes == 0 then [] else BigEndian(n / 256, bytes - 1) + [LowByte(n)]
  }

  /** The number of zero bytes after the byte 0x80: the least that leaves room for the length. */
  function ZeroBytes(length: nat): nat {
    (119 - length % 64) % 64
  }

  lemma ZeroBytesIsLeast(length: nat, k: nat)
    ensures (length + 1 + ZeroBytes(length)) % 64 == 56
    ensures (length + 1 + k) % 64 == 56 ==> ZeroBytes(length) <= k
  {
  }

  lemma PaddedLength(length: nat)
    ensures (length + 1 + ZeroBytes(length) + 8) % 64 == 0
  {
    ZeroBytesIsLeast(length, 0);
    hide ZeroBytes;
  }

  /** Section 5.1.1, for messages of whole bytes. */
  function Pad(message: seq<Byte>): (r: seq<Byte>)
    ensures |r| % 64 == 0
  {
    PaddedLength(|message|);
    hide ZeroBytes, BigEndian;
    message + [0x80] + Zeros(ZeroBytes(|message|)) + BigEndian(8 * |message|, 8)
  }

  /** Byte `i` of a word, most significant first. */
  function ByteOf(w: Word, i: nat): Byte
    requires i < 4
  {
    var shifted := if i == 0 then w >> 24 else if i == 1 then w >> 16 else if i == 2 then w >> 8 else w;
    (shifted & 0xff) as Byte
  }

  function WordBytes(w: Word): (r: seq<Byte>)
    ensures |r| == 4
  {
    [ByteOf(w, 0), ByteOf(w, 1), ByteOf(w, 2), ByteOf(w, 3)]
  }

  function Output(hash: seq<Word>): (r: seq<Byte>)
    ensures |r| == 4 * |hash|
  {
    if hash == [] then [] else Output(hash[..|hash| - 1]) + WordBytes(hash[|hash| - 1])
  }

  function Digest(message: seq<Byte>): seq<Byte> {
    Output(Blocks(Pad(message)))
  }

  /** Reading the output bytes back as words gives the hash value. */
  lemma WordRoundTrip(w: Word)
    ensures WordOf(WordBytes(w)) == w
  {
  }
}
