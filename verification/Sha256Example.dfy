/** The message schedule of the example "abc", step by step. */
module Sha256Steps {
  import opened Sha256Spec

  /** A word from those 16, 15, 7 and 2 places before it. */
  function Next(w16: Word, w15: Word, w7: Word, w2: Word): Word {
    Plus(Plus(Plus(SmallSigma1(w2), w7), SmallSigma0(w15)), w16)
  }

  lemma Step16()
    ensures Next(0x61626380, 0x00000000, 0x00000000, 0x00000000) == 0x61626380
    ensures Next(0x00000000, 0x00000000, 0x00000000, 0x00000018) == 0x000f0000
    ensures Next(0x00000000, 0x00000000, 0x00000000, 0x61626380) == 0x7da86405
    ensures Next(0x00000000, 0x00000000, 0x00000000, 0x000f0000) == 0x600003c6
  {
  }

  lemma Step20()
    ensures Next(0x00000000, 0x00000000, 0x00000000, 0x7da86405) == 0x3e9d7b78
    ensures Next(0x00000000, 0x00000000, 0x00000000, 0x600003c6) == 0x0183fc00
    ensures Next(0x00000000, 0x00000000, 0x00000018, 0x3e9d7b78) == 0x12dcbfdb
    ensures Next(0x00000000, 0x00000000, 0x61626380, 0x0183fc00) == 0xe2e2c38e
  {
  }

  lemma Step24()
    ensures Next(0x00000000, 0x00000000, 0x000f0000, 0x12dcbfdb) == 0xc8215c1a
    ensures Next(0x00000000, 0x00000000, 0x7da86405, 0xe2e2c38e) == 0xb73679a2
    ensures Next(0x00000000, 0x00000000, 0x600003c6, 0xc8215c1a) == 0xe5bc3909
    ensures Next(0x00000000, 0x00000000, 0x3e9d7b78, 0xb73679a2) == 0x32663c5b
  {
  }

  lemma Step28()
    ensures Next(0x00000000, 0x00000000, 0x0183fc00, 0xe5bc3909) == 0x9d209d67
    ensures Next(0x00000000, 0x00000000, 0x12dcbfdb, 0x32663c5b) == 0xec8726cb
    ensures Next(0x00000000, 0x00000018, 0xe2e2c38e, 0x9d209d67) == 0x702138a4
    ensures Next(0x00000018, 0x61626380, 0xc8215c1a, 0xec8726cb) == 0xd3b7973b
  {
  }

  lemma Step32()
    ensures Next(0x61626380, 0x000f0000, 0xb73679a2, 0x702138a4) == 0x93f5997f
    ensures Next(0x000f0000, 0x7da86405, 0xe5bc3909, 0xd3b7973b) == 0x3b68ba73
    ensures Next(0x7da86405, 0x600003c6, 0x32663c5b, 0x93f5997f) == 0xaff4ffc1
    ensures Next(0x600003c6, 0x3e9d7b78, 0x9d209d67, 0x3b68ba73) == 0xf10a5c62
  {
  }

  lemma Step36()
    ensures Next(0x3e9d7b78, 0x0183fc00, 0xec8726cb, 0xaff4ffc1) == 0x0a8b3996
    ensures Next(0x0183fc00, 0x12dcbfdb, 0x702138a4, 0xf10a5c62) == 0x72af830a
    ensures Next(0x12dcbfdb, 0xe2e2c38e, 0xd3b7973b, 0x0a8b3996) == 0x9409e33e
    ensures Next(0xe2e2c38e, 0xc8215c1a, 0x93f5997f, 0x72af830a) == 0x24641522
  {
  }

  lemma Step40()
    ensures Next(0xc8215c1a, 0xb73679a2, 0x3b68ba73, 0x9409e33e) == 0x9f47bf94
    ensures Next(0xb73679a2, 0xe5bc3909, 0xaff4ffc1, 0x24641522) == 0xf0a64f5a
    ensures Next(0xe5bc3909, 0x32663c5b, 0xf10a5c62, 0x9f47bf94) == 0x3e246a79
    ensures Next(0x32663c5b, 0x9d209d67, 0x0a8b3996, 0xf0a64f5a) == 0x27333ba3
  {
  }

  lemma Step44()
    ensures Next(0x9d209d67, 0xec8726cb, 0x72af830a, 0x3e246a79) == 0x0c4763f2
    ensures Next(0xec8726cb, 0x702138a4, 0x9409e33e, 0x27333ba3) == 0x840abf27
    ensures Next(0x702138a4, 0xd3b7973b, 0x24641522, 0x0c4763f2) == 0x7a290d5d
    ensures Next(0xd3b7973b, 0x93f5997f, 0x9f47bf94, 0x840abf27) == 0x065c43da
  {
  }

  lemma Step48()
    ensures Next(0x93f5997f, 0x3b68ba73, 0xf0a64f5a, 0x7a290d5d) == 0xfb3e89cb
    ensures Next(0x3b68ba73, 0xaff4ffc1, 0x3e246a79, 0x065c43da) == 0xcc7617db
    ensures Next(0xaff4ffc1, 0xf10a5c62, 0x27333ba3, 0xfb3e89cb) == 0xb9e66c34
    ensures Next(0xf10a5c62, 0x0a8b3996, 0x0c4763f2, 0xcc7617db) == 0xa9993667
  {
  }

  lemma Step52()
    ensures Next(0x0a8b3996, 0x72af830a, 0x840abf27, 0xb9e66c34) == 0x84badedd
    ensures Next(0x72af830a, 0x9409e33e, 0x7a290d5d, 0xa9993667) == 0xc21462bc
    ensures Next(0x9409e33e, 0x24641522, 0x065c43da, 0x84badedd) == 0x1487472c
    ensures Next(0x24641522, 0x9f47bf94, 0xfb3e89cb, 0xc21462bc) == 0xb20f7a99
  {
  }

  lemma Step56()
    ensures Next(0x9f47bf94, 0xf0a64f5a, 0xcc7617db, 0x1487472c) == 0xef57b9cd
    ensures Next(0xf0a64f5a, 0x3e246a79, 0xb9e66c34, 0xb20f7a99) == 0xebe6b238
    ensures Next(0x3e246a79, 0x27333ba3, 0xa9993667, 0xef57b9cd) == 0x9fe3095e
    ensures Next(0x27333ba3, 0x0c4763f2, 0x84badedd, 0xebe6b238) == 0x78bc8d4b
  {
  }

  lemma Step60()
    ensures Next(0x0c4763f2, 0x840abf27, 0xc21462bc, 0x9fe3095e) == 0xa43fcf15
    ensures Next(0x840abf27, 0x7a290d5d, 0x1487472c, 0x78bc8d4b) == 0x668b2ff8
    ensures Next(0x7a290d5d, 0x065c43da, 0xb20f7a99, 0xa43fcf15) == 0xeeaba2cc
    ensures Next(0x065c43da, 0xfb3e89cb, 0xef57b9cd, 0x668b2ff8) == 0x12b1edeb
  {
  }
}

/** The one-block example "abc" of SHA-256, word by word and round by round: the digest that the standard
    gives for it is that of the specification.
 */
module Sha256Example {
  import opened Sha256Spec
  import opened Sha256Steps

  /** The message, the byte 0x80, zeros, and the length of 24 bits. */
  ghost predicate IsExample(b: seq<Byte>) {
    |b| == 64 && forall i :: 0 <= i < 64 ==> b[i] == ByteAt(i)
  }

  function ByteAt(i: nat): Byte {
    if i == 0 then 0x61 else if i == 1 then 0x62 else if i == 2 then 0x63 else if i == 3 then 0x80
    else if i == 63 then 24 else 0
  }

  lemma PaddedIsExample()
    ensures IsExample(Pad([0x61, 0x62, 0x63]))
  {
    LengthIs();
    hide BigEndian;
  }

  lemma LengthIs()
    ensures BigEndian(24, 8) == [0, 0, 0, 0, 0, 0, 0, 24]
  {
    ZeroIs(7);
    assert 24 / 256 == 0;
  }

  lemma {:induction false} ZeroIs(k: nat)
    ensures BigEndian(0, k) == Zeros(k)
  {
    if k > 0 {
      ZeroIs(k - 1);
      assert LowByte(0) == 0;
      assert Zeros(k) == Zeros(k - 1) + [0];
    }
  }

  // ----- the message schedule

  lemma NextWord(b: seq<Byte>, t: nat, w16: Word, w15: Word, w7: Word, w2: Word, w: Word)
    requires |b| == 64 && 16 <= t < 64
    requires W(b, t - 16) == w16 && W(b, t - 15) == w15 && W(b, t - 7) == w7 && W(b, t - 2) == w2
    requires Next(w16, w15, w7, w2) == w
    ensures W(b, t) == w
  {
    hide SmallSigma0, SmallSigma1, Plus;
  }

  lemma FirstWord(b: seq<Byte>, t: nat)
    requires IsExample(b) && t < 16
    ensures W(b, t) == if t == 0 then 0x61626380 else if t == 15 then 0x00000018 else 0
  {
    WordOfBytes(b[4 * t..4 * t + 4]);
    hide WordOf;
  }

  lemma WordOfBytes(b: seq<Byte>)
    requires |b| == 4
    ensures b[0] == 0x61 && b[1] == 0x62 && b[2] == 0x63 && b[3] == 0x80 ==> WordOf(b) == 0x61626380
    ensures b[0] == 0 && b[1] == 0 && b[2] == 0 && b[3] == 24 ==> WordOf(b) == 0x00000018
    ensures b[0] == 0 && b[1] == 0 && b[2] == 0 && b[3] == 0 ==> WordOf(b) == 0
  {
  }

  lemma Words0(b: seq<Byte>)
    requires IsExample(b)
    ensures W(b, 0) == 0x61626380 && W(b, 15) == 0x00000018
    ensures forall t :: 1 <= t < 15 ==> W(b, t) == 0
  {
    forall t | 0 <= t < 16 ensures W(b, t) == if t == 0 then 0x61626380 else if t == 15 then 0x00000018 else 0 {
      hide W, IsExample;
      FirstWord(b, t);
    }
  }

  lemma Words16(b: seq<Byte>)
    requires IsExample(b)
    ensures W(b, 16) == 0x61626380 && W(b, 17) == 0x000f0000
    ensures W(b, 18) == 0x7da86405 && W(b, 19) == 0x600003c6
  {
    hide W, Next, ByteAt;
    Step16();
    Words0(b);
    NextWord(b, 16, 0x61626380, 0x00000000, 0x00000000, 0x00000000, 0x61626380);
    NextWord(b, 17, 0x00000000, 0x00000000, 0x00000000, 0x00000018, 0x000f0000);
    NextWord(b, 18, 0x00000000, 0x00000000, 0x00000000, 0x61626380, 0x7da86405);
    NextWord(b, 19, 0x00000000, 0x00000000, 0x00000000, 0x000f0000, 0x600003c6);
  }

  lemma Words20(b: seq<Byte>)
    requires IsExample(b)
    ensures W(b, 20) == 0x3e9d7b78 && W(b, 21) == 0x0183fc00
    ensures W(b, 22) == 0x12dcbfdb && W(b, 23) == 0xe2e2c38e
  {
    hide W, Next, ByteAt;
    Step20();
    Words0(b);
    Words16(b);
    NextWord(b, 20, 0x00000000, 0x00000000, 0x00000000, 0x7da86405, 0x3e9d7b78);
    NextWord(b, 21, 0x00000000, 0x00000000, 0x00000000, 0x600003c6, 0x0183fc00);
    NextWord(b, 22, 0x00000000, 0x00000000, 0x00000018, 0x3e9d7b78, 0x12dcbfdb);
    NextWord(b, 23, 0x00000000, 0x00000000, 0x61626380, 0x0183fc00, 0xe2e2c38e);
  }

  lemma Words24(b: seq<Byte>)
    requires IsExample(b)
    ensures W(b, 24) == 0xc8215c1a && W(b, 25) == 0xb73679a2
    ensures W(b, 26) == 0xe5bc3909 && W(b, 27) == 0x32663c5b
  {
    hide W, Next, ByteAt;
    Step24();
    Words0(b);
    Words16(b);
    Words20(b);
    NextWord(b, 24, 0x00000000, 0x00000000, 0x000f0000, 0x12dcbfdb, 0xc8215c1a);
    NextWord(b, 25, 0x00000000, 0x00000000, 0x7da86405, 0xe2e2c38e, 0xb73679a2);
    NextWord(b, 26, 0x00000000, 0x00000000, 0x600003c6, 0xc8215c1a, 0xe5bc3909);
    NextWord(b, 27, 0x00000000, 0x00000000, 0x3e9d7b78, 0xb73679a2, 0x32663c5b);
  }

  lemma Words28(b: seq<Byte>)
    requires IsExample(b)
    ensures W(b, 28) == 0x9d209d67 && W(b, 29) == 0xec8726cb
    ensures W(b, 30) == 0x702138a4 && W(b, 31) == 0xd3b7973b
  {
    hide W, Next, ByteAt;
    Step28();
    Words0(b);
    Words16(b);
    Words20(b);
    Words24(b);
    NextWord(b, 28, 0x00000000, 0x00000000, 0x0183fc00, 0xe5bc3909, 0x9d209d67);
    NextWord(b, 29, 0x00000000, 0x00000000, 0x12dcbfdb, 0x32663c5b, 0xec8726cb);
    NextWord(b, 30, 0x00000000, 0x00000018, 0xe2e2c38e, 0x9d209d67, 0x702138a4);
    NextWord(b, 31, 0x00000018, 0x61626380, 0xc8215c1a, 0xec8726cb, 0xd3b7973b);
  }

  lemma Words32(b: seq<Byte>)
    requires IsExample(b)
    ensures W(b, 32) == 0x93f5997f && W(b, 33) == 0x3b68ba73
    ensures W(b, 34) == 0xaff4ffc1 && W(b, 35) == 0xf10a5c62
  {
    hide W, Next, ByteAt;
    Step32();
    Words16(b);
    Words20(b);
    Words24(b);
    Words28(b);
    NextWord(b, 32, 0x61626380, 0x000f0000, 0xb73679a2, 0x702138a4, 0x93f5997f);
    NextWord(b, 33, 0x000f0000, 0x7da86405, 0xe5bc3909, 0xd3b7973b, 0x3b68ba73);
    NextWord(b, 34, 0x7da86405, 0x600003c6, 0x32663c5b, 0x93f5997f, 0xaff4ffc1);
    NextWord(b, 35, 0x600003c6, 0x3e9d7b78, 0x9d209d67, 0x3b68ba73, 0xf10a5c62);
  }

  lemma Words36(b: seq<Byte>)
    requires IsExample(b)
    ensures W(b, 36) == 0x0a8b3996 && W(b, 37) == 0x72af830a
    ensures W(b, 38) == 0x9409e33e && W(b, 39) == 0x24641522
  {
    hide W, Next, ByteAt;
    Step36();
    Words20(b);
    Words24(b);
    Words28(b);
    Words32(b);
    NextWord(b, 36, 0x3e9d7b78, 0x0183fc00, 0xec8726cb, 0xaff4ffc1, 0x0a8b3996);
    NextWord(b, 37, 0x0183fc00, 0x12dcbfdb, 0x702138a4, 0xf10a5c62, 0x72af830a);
    NextWord(b, 38, 0x12dcbfdb, 0xe2e2c38e, 0xd3b7973b, 0x0a8b3996, 0x9409e33e);
    NextWord(b, 39, 0xe2e2c38e, 0xc8215c1a, 0x93f5997f, 0x72af830a, 0x24641522);
  }

  lemma Words40(b: seq<Byte>)
    requires IsExample(b)
    ensures W(b, 40) == 0x9f47bf94 && W(b, 41) == 0xf0a64f5a
    ensures W(b, 42) == 0x3e246a79 && W(b, 43) == 0x27333ba3
  {
    hide W, Next, ByteAt;
    Step40();
    Words24(b);
    Words28(b);
    Words32(b);
    Words36(b);
    NextWord(b, 40, 0xc8215c1a, 0xb73679a2, 0x3b68ba73, 0x9409e33e, 0x9f47bf94);
    NextWord(b, 41, 0xb73679a2, 0xe5bc3909, 0xaff4ffc1, 0x24641522, 0xf0a64f5a);
    NextWord(b, 42, 0xe5bc3909, 0x32663c5b, 0xf10a5c62, 0x9f47bf94, 0x3e246a79);
    NextWord(b, 43, 0x32663c5b, 0x9d209d67, 0x0a8b3996, 0xf0a64f5a, 0x27333ba3);
  }

  lemma Words44(b: seq<Byte>)
    requires IsExample(b)
    ensures W(b, 44) == 0x0c4763f2 && W(b, 45) == 0x840abf27
    ensures W(b, 46) == 0x7a290d5d && W(b, 47) == 0x065c43da
  {
    hide W, Next, ByteAt;
    Step44();
    Words28(b);
    Words32(b);
    Words36(b);
    Words40(b);
    NextWord(b, 44, 0x9d209d67, 0xec8726cb, 0x72af830a, 0x3e246a79, 0x0c4763f2);
    NextWord(b, 45, 0xec8726cb, 0x702138a4, 0x9409e33e, 0x27333ba3, 0x840abf27);
    NextWord(b, 46, 0x702138a4, 0xd3b7973b, 0x24641522, 0x0c4763f2, 0x7a290d5d);
    NextWord(b, 47, 0xd3b7973b, 0x93f5997f, 0x9f47bf94, 0x840abf27, 0x065c43da);
  }

  lemma Words48(b: seq<Byte>)
    requires IsExample(b)
    ensures W(b, 48) == 0xfb3e89cb && W(b, 49) == 0xcc7617db
    ensures W(b, 50) == 0xb9e66c34 && W(b, 51) == 0xa9993667
  {
    hide W, Next, ByteAt;
    Step48();
    Words32(b);
    Words36(b);
    Words40(b);
    Words44(b);
    NextWord(b, 48, 0x93f5997f, 0x3b68ba73, 0xf0a64f5a, 0x7a290d5d, 0xfb3e89cb);
    NextWord(b, 49, 0x3b68ba73, 0xaff4ffc1, 0x3e246a79, 0x065c43da, 0xcc7617db);
    NextWord(b, 50, 0xaff4ffc1, 0xf10a5c62, 0x27333ba3, 0xfb3e89cb, 0xb9e66c34);
    NextWord(b, 51, 0xf10a5c62, 0x0a8b3996, 0x0c4763f2, 0xcc7617db, 0xa9993667);
  }

  lemma Words52(b: seq<Byte>)
    requires IsExample(b)
    ensures W(b, 52) == 0x84badedd && W(b, 53) == 0xc21462bc
    ensures W(b, 54) == 0x1487472c && W(b, 55) == 0xb20f7a99
  {
    hide W, Next, ByteAt;
    Step52();
    Words36(b);
    Words40(b);
    Words44(b);
    Words48(b);
    NextWord(b, 52, 0x0a8b3996, 0x72af830a, 0x840abf27, 0xb9e66c34, 0x84badedd);
    NextWord(b, 53, 0x72af830a, 0x9409e33e, 0x7a290d5d, 0xa9993667, 0xc21462bc);
    NextWord(b, 54, 0x9409e33e, 0x24641522, 0x065c43da, 0x84badedd, 0x1487472c);
    NextWord(b, 55, 0x24641522, 0x9f47bf94, 0xfb3e89cb, 0xc21462bc, 0xb20f7a99);
  }

  lemma Words56(b: seq<Byte>)
    requires IsExample(b)
    ensures W(b, 56) == 0xef57b9cd && W(b, 57) == 0xebe6b238
    ensures W(b, 58) == 0x9fe3095e && W(b, 59) == 0x78bc8d4b
  {
    hide W, Next, ByteAt;
    Step56();
    Words40(b);
    Words44(b);
    Words48(b);
    Words52(b);
    NextWord(b, 56, 0x9f47bf94, 0xf0a64f5a, 0xcc7617db, 0x1487472c, 0xef57b9cd);
    NextWord(b, 57, 0xf0a64f5a, 0x3e246a79, 0xb9e66c34, 0xb20f7a99, 0xebe6b238);
    NextWord(b, 58, 0x3e246a79, 0x27333ba3, 0xa9993667, 0xef57b9cd, 0x9fe3095e);
    NextWord(b, 59, 0x27333ba3, 0x0c4763f2, 0x84badedd, 0xebe6b238, 0x78bc8d4b);
  }

  lemma Words60(b: seq<Byte>)
    requires IsExample(b)
    ensures W(b, 60) == 0xa43fcf15 && W(b, 61) == 0x668b2ff8
    ensures W(b, 62) == 0xeeaba2cc && W(b, 63) == 0x12b1edeb
  {
    hide W, Next, ByteAt;
    Step60();
    Words44(b);
    Words48(b);
    Words52(b);
    Words56(b);
    NextWord(b, 60, 0x0c4763f2, 0x840abf27, 0xc21462bc, 0x9fe3095e, 0xa43fcf15);
    NextWord(b, 61, 0x840abf27, 0x7a290d5d, 0x1487472c, 0x78bc8d4b, 0x668b2ff8);
    NextWord(b, 62, 0x7a290d5d, 0x065c43da, 0xb20f7a99, 0xa43fcf15, 0xeeaba2cc);
    NextWord(b, 63, 0x065c43da, 0xfb3e89cb, 0xef57b9cd, 0x668b2ff8, 0x12b1edeb);
  }

  // ----- the 64 rounds

  lemma NextRound(b: seq<Byte>, t: nat)
    requires |b| == 64 && 1 <= t <= 64
    ensures Rounds(b, H0, t) == Round(Rounds(b, H0, t - 1), K[t - 1], W(b, t - 1))
  {
    hide Round, W;
  }

  lemma Rounds0(b: seq<Byte>)
    requires |b| == 64
    ensures Rounds(b, H0, 0) == Vars(0x6a09e667, 0xbb67ae85, 0x3c6ef372, 0xa54ff53a,
                                     0x510e527f, 0x9b05688c, 0x1f83d9ab, 0x5be0cd19)
  {
  }

  lemma Constants0()
    ensures K[0] == 0x428a2f98 && K[1] == 0x71374491 && K[2] == 0xb5c0fbcf && K[3] == 0xe9b5dba5
    ensures K[4] == 0x3956c25b && K[5] == 0x59f111f1 && K[6] == 0x923f82a4 && K[7] == 0xab1c5ed5
  {
  }

  lemma Constants8()
    ensures K[8] == 0xd807aa98 && K[9] == 0x12835b01 && K[10] == 0x243185be && K[11] == 0x550c7dc3
    ensures K[12] == 0x72be5d74 && K[13] == 0x80deb1fe && K[14] == 0x9bdc06a7 && K[15] == 0xc19bf174
  {
  }

  lemma Constants16()
    ensures K[16] == 0xe49b69c1 && K[17] == 0xefbe4786 && K[18] == 0x0fc19dc6 && K[19] == 0x240ca1cc
    ensures K[20] == 0x2de92c6f && K[21] == 0x4a7484aa && K[22] == 0x5cb0a9dc && K[23] == 0x76f988da
  {
  }

  lemma Constants24()
    ensures K[24] == 0x983e5152 && K[25] == 0xa831c66d && K[26] == 0xb00327c8 && K[27] == 0xbf597fc7
    ensures K[28] == 0xc6e00bf3 && K[29] == 0xd5a79147 && K[30] == 0x06ca6351 && K[31] == 0x14292967
  {
  }

  lemma Constants32()
    ensures K[32] == 0x27b70a85 && K[33] == 0x2e1b2138 && K[34] == 0x4d2c6dfc && K[35] == 0x53380d13
    ensures K[36] == 0x650a7354 && K[37] == 0x766a0abb && K[38] == 0x81c2c92e && K[39] == 0x92722c85
  {
  }

  lemma Constants40()
    ensures K[40] == 0xa2bfe8a1 && K[41] == 0xa81a664b && K[42] == 0xc24b8b70 && K[43] == 0xc76c51a3
    ensures K[44] == 0xd192e819 && K[45] == 0xd6990624 && K[46] == 0xf40e3585 && K[47] == 0x106aa070
  {
  }

  lemma Constants48()
    ensures K[48] == 0x19a4c116 && K[49] == 0x1e376c08 && K[50] == 0x2748774c && K[51] == 0x34b0bcb5
    ensures K[52] == 0x391c0cb3 && K[53] == 0x4ed8aa4a && K[54] == 0x5b9cca4f && K[55] == 0x682e6ff3
  {
  }

  lemma Constants56()
    ensures K[56] == 0x748f82ee && K[57] == 0x78a5636f && K[58] == 0x84c87814 && K[59] == 0x8cc70208
    ensures K[60] == 0x90befffa && K[61] == 0xa4506ceb && K[62] == 0xbef9a3f7 && K[63] == 0xc67178f2
  {
  }

  lemma Rounds8(b: seq<Byte>)
    requires IsExample(b)
    ensures Rounds(b, H0, 8) == Vars(0x85a07b5f, 0xe5030380, 0x2b4209f5, 0x04409a6a,
                                     0x0c657a79, 0x9b27a401, 0x714260ad, 0x43ada245)
  {
    hide Rounds, W, K, ByteAt;
    Rounds0(b);
    Constants0();
    Words0(b);
    NextRound(b, 1);
    NextRound(b, 2);
    NextRound(b, 3);
    NextRound(b, 4);
    NextRound(b, 5);
    NextRound(b, 6);
    NextRound(b, 7);
    NextRound(b, 8);
  }

  lemma Rounds16(b: seq<Byte>)
    requires IsExample(b)
    ensures Rounds(b, H0, 16) == Vars(0xb0fa238e, 0xc0645fde, 0xd932eb16, 0x87912990,
                                      0x07590dcd, 0x0b92f20c, 0x745a48de, 0x1e578218)
  {
    hide Rounds, W, K, ByteAt;
    Rounds8(b);
    Constants8();
    Words0(b);
    NextRound(b, 9);
    NextRound(b, 10);
    NextRound(b, 11);
    NextRound(b, 12);
    NextRound(b, 13);
    NextRound(b, 14);
    NextRound(b, 15);
    NextRound(b, 16);
  }

  lemma Rounds24(b: seq<Byte>)
    requires IsExample(b)
    ensures Rounds(b, H0, 24) == Vars(0xc5d53d8d, 0xa7a3623f, 0xc2606d6d, 0x9dc68b63,
                                      0xaa47c347, 0x49f5114a, 0xe1257970, 0x8ada8930)
  {
    hide Rounds, W, K, ByteAt;
    Rounds16(b);
    Constants16();
    Words16(b);
    Words20(b);
    NextRound(b, 17);
    NextRound(b, 18);
    NextRound(b, 19);
    NextRound(b, 20);
    NextRound(b, 21);
    NextRound(b, 22);
    NextRound(b, 23);
    NextRound(b, 24);
  }

  lemma Rounds32(b: seq<Byte>)
    requires IsExample(b)
    ensures Rounds(b, H0, 32) == Vars(0x73b33bf5, 0xea992a22, 0xa0060b30, 0x363482c9,
                                      0xba591112, 0x0109ab3a, 0xade79437, 0x6112a3b7)
  {
    hide Rounds, W, K, ByteAt;
    Rounds24(b);
    Constants24();
    Words24(b);
    Words28(b);
    NextRound(b, 25);
    NextRound(b, 26);
    NextRound(b, 27);
    NextRound(b, 28);
    NextRound(b, 29);
    NextRound(b, 30);
    NextRound(b, 31);
    NextRound(b, 32);
  }

  lemma Rounds40(b: seq<Byte>)
    requires IsExample(b)
    ensures Rounds(b, H0, 40) == Vars(0x79ea687a, 0x6dc57a8a, 0x34df1604, 0x41a65cb1,
                                      0x1efbc0a0, 0xf0781bc8, 0xa507a53d, 0x0772a26b)
  {
    hide Rounds, W, K, ByteAt;
    Rounds32(b);
    Constants32();
    Words32(b);
    Words36(b);
    NextRound(b, 33);
    NextRound(b, 34);
    NextRound(b, 35);
    NextRound(b, 36);
    NextRound(b, 37);
    NextRound(b, 38);
    NextRound(b, 39);
    NextRound(b, 40);
  }

  lemma Rounds48(b: seq<Byte>)
    requires IsExample(b)
    ensures Rounds(b, H0, 48) == Vars(0x4172328d, 0xa14c14b0, 0x72ab4b91, 0x26628815,
                                      0xfecf0bc6, 0xd57b94a9, 0xb7755da1, 0xa80f11f0)
  {
    hide Rounds, W, K, ByteAt;
    Rounds40(b);
    Constants40();
    Words40(b);
    Words44(b);
    NextRound(b, 41);
    NextRound(b, 42);
    NextRound(b, 43);
    NextRound(b, 44);
    NextRound(b, 45);
    NextRound(b, 46);
    NextRound(b, 47);
    NextRound(b, 48);
  }

  lemma Rounds56(b: seq<Byte>)
    requires IsExample(b)
    ensures Rounds(b, H0, 56) == Vars(0x38cc9913, 0x3ec45cdb, 0xf5702fdb, 0x101fd28f,
                                      0x54cb266b, 0xe50e1b4f, 0x9f4787c3, 0x529e7d00)
  {
    hide Rounds, W, K, ByteAt;
    Rounds48(b);
    Constants48();
    Words48(b);
    Words52(b);
    NextRound(b, 49);
    NextRound(b, 50);
    NextRound(b, 51);
    NextRound(b, 52);
    NextRound(b, 53);
    NextRound(b, 54);
    NextRound(b, 55);
    NextRound(b, 56);
  }

  lemma Rounds64(b: seq<Byte>)
    requires IsExample(b)
    ensures Rounds(b, H0, 64) == Vars(0x506e3058, 0xd39a2165, 0x04d24d6c, 0xb85e2ce9,
                                      0x5ef50f24, 0xfb121210, 0x948d25b6, 0x961f4894)
  {
    hide Rounds, W, K, ByteAt;
    Rounds56(b);
    Constants56();
    Words56(b);
    Words60(b);
    NextRound(b, 57);
    NextRound(b, 58);
    NextRound(b, 59);
    NextRound(b, 60);
    NextRound(b, 61);
    NextRound(b, 62);
    NextRound(b, 63);
    NextRound(b, 64);
  }

  // ----- the digest

  lemma HashOfAbc(b: seq<Byte>)
    requires IsExample(b)
    ensures Compress(H0, b) == [
                                 0xba7816bf, 0x8f01cfea, 0x414140de, 0x5dae2223,
                                 0xb00361a3, 0x96177a9c, 0xb410ff61, 0xf20015ad]
  {
    Rounds64(b);
    hide Rounds, ByteAt;
  }

  const ABC_DIGEST: seq<Byte> := [
    0xba, 0x78, 0x16, 0xbf, 0x8f, 0x01, 0xcf, 0xea,
    0x41, 0x41, 0x40, 0xde, 0x5d, 0xae, 0x22, 0x23,
    0xb0, 0x03, 0x61, 0xa3, 0x96, 0x17, 0x7a, 0x9c,
    0xb4, 0x10, 0xff, 0x61, 0xf2, 0x00, 0x15, 0xad]

  lemma DigestOfAbc()
    ensures Digest([0x61, 0x62, 0x63]) == ABC_DIGEST
  {
    PaddedIsExample();
    DigestOf([0x61, 0x62, 0x63]);
  }

  lemma DigestOf(message: seq<Byte>)
    requires IsExample(Pad(message))
    ensures Digest(message) == ABC_DIGEST
  {
    var b := Pad(message);
    HashOfAbc(b);
    OneBlock(b);
    hide Compress, Pad, Blocks, Output, IsExample;
    OutputOfAbc(Compress(H0, b));
  }

  lemma OneBlock(b: seq<Byte>)
    requires |b| == 64
    ensures Blocks(b) == Compress(H0, b)
  {
    hide Compress;
    assert b[..0] == [] && b[0..] == b;
    assert Blocks(b[..0]) == H0;
  }

  lemma OutputOfAbc(hash: seq<Word>)
    requires hash == [
                       0xba7816bf, 0x8f01cfea, 0x414140de, 0x5dae2223,
                       0xb00361a3, 0x96177a9c, 0xb410ff61, 0xf20015ad]
    ensures Output(hash) == ABC_DIGEST
  {
    hide Output, ABC_DIGEST;
    FirstHalf(hash[..4]);
    SecondHalf(hash[4..]);
    OutputConcat(hash[..4], hash[4..]);
    assert hash == hash[..4] + hash[4..];
    Halves(ABC_DIGEST);
  }

  lemma Halves(s: seq<Byte>)
    requires |s| == 32
    ensures s == s[..16] + s[16..]
  {
  }

  lemma FirstHalf(hash: seq<Word>)
    requires hash == [0xba7816bf, 0x8f01cfea, 0x414140de, 0x5dae2223]
    ensures |ABC_DIGEST| == 32 && Output(hash) == ABC_DIGEST[..16]
  {
    OutputFour(0xba7816bf, 0x8f01cfea, 0x414140de, 0x5dae2223);
    hide Output;
  }

  lemma SecondHalf(hash: seq<Word>)
    requires hash == [0xb00361a3, 0x96177a9c, 0xb410ff61, 0xf20015ad]
    ensures |ABC_DIGEST| == 32 && Output(hash) == ABC_DIGEST[16..]
  {
    OutputFour(0xb00361a3, 0x96177a9c, 0xb410ff61, 0xf20015ad);
    hide Output;
  }

  lemma OutputFour(a: Word, b: Word, c: Word, d: Word)
    ensures Output([a, b, c, d]) == WordBytes(a) + WordBytes(b) + WordBytes(c) + WordBytes(d)
  {
    hide WordBytes, Output;
    OutputConcat([a, b, c], [d]);
    OutputConcat([a, b], [c]);
    OutputConcat([a], [b]);
    OutputOne(a);
    OutputOne(b);
    OutputOne(c);
    OutputOne(d);
    assert [a] + [b] == [a, b] && [a, b] + [c] == [a, b, c] && [a, b, c] + [d] == [a, b, c, d];
  }

  lemma OutputOne(a: Word)
    ensures Output([a]) == WordBytes(a)
  {
    hide WordBytes;
    assert [a][..0] == [];
  }

  lemma {:induction false} OutputConcat(s: seq<Word>, t: seq<Word>)
    ensures Output(s + t) == Output(s) + Output(t)
    decreases |t|
  {
    hide WordBytes;
    if t == [] {
      assert s + t == s;
    } else {
      OutputConcat(s, t[..|t| - 1]);
      assert (s + t)[..|s + t| - 1] == s + t[..|t| - 1];
    }
  }
}
