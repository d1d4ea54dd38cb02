/** src/sha256.c: the streaming context with its 64-byte buffer. */
module Sha256 {
  import opened Numbers
  import opened Sha256Spec

  /** `message` is everything passed to `Update` since `Init`. */
  class Context {
    const data: array<Byte>
    const state: array<Word>
    var datalen: nat
    var bitlen: nat
    ghost var message: seq<Byte>

    /** The buffer holds the unprocessed tail; `state` is the hash value of the full blocks. */
    ghost predicate Valid()
      reads this, data, state
    {
      && data.Length == 64 && state.Length == 8
      && datalen < 64 && datalen <= |message| && (|message| - datalen) % 64 == 0
      && data[..datalen] == message[|message| - datalen..]
      && state[..] == Blocks(message[..|message| - datalen])
      && bitlen == 8 * (|message| - datalen) % SIZE_MODULUS
    }

    /** `rcutils_sha256_init`; the buffer keeps whatever was in memory. */
    constructor ()
      ensures Valid() && message == [] && fresh(data) && fresh(state)
    {
      data := new Byte[64];
      state := new Word[8](j requires 0 <= j < 8 => H0[j]);
      datalen, bitlen, message := 0, 0, [];
      new;
      hide Valid, Compress;
      assert state[..] == H0;
      NothingYet(this);
    }

    /** The first two loops of `sha256_transform`: the message schedule. */
    method Schedule() returns (m: array<Word>)
      requires data.Length == 64
      ensures fresh(m) && m.Length == 64
      ensures forall t :: 0 <= t < 64 ==> m[t] == W(data[..], t)
    {
      hide SmallSigma0, SmallSigma1, Plus, W;
      ghost var block := data[..];
      m := new Word[64];
      for i := 0 to 16
        invariant data[..] == block
        invariant forall t :: 0 <= t < i ==> m[t] == W(block, t)
      {
        var j := 4 * i;
        ScheduleStep(block, i);
        assert block[j..j + 4] == [data[j], data[j + 1], data[j + 2], data[j + 3]];
        m[i] := ((data[j] as Word) << 24) | ((data[j + 1] as Word) << 16)
        | ((data[j + 2] as Word) << 8) | (data[j + 3] as Word);
      }
      for i := 16 to 64
        invariant data[..] == block
        invariant forall t :: 0 <= t < i ==> m[t] == W(block, t)
      {
        ScheduleStep(block, i);
        m[i] := Plus(Plus(Plus(SmallSigma1(m[i - 2]), m[i - 7]), SmallSigma0(m[i - 15])), m[i - 16]);
      }
    }

    /** The third loop: 64 rounds on the working variables. */
    method RunRounds(m: array<Word>) returns (v: Vars)
      requires data.Length == 64 && state.Length == 8 && m.Length == 64
      requires forall t :: 0 <= t < 64 ==> m[t] == W(data[..], t)
      ensures v == Rounds(data[..], state[..], 64)
    {
      assert |K| == 64;
      hide W, BigSigma0, BigSigma1, Ch, Maj, Plus, K;
      ghost var block, hash := data[..], state[..];
      var a, b, c, d := state[0], state[1], state[2], state[3];
      var e, f, g, h := state[4], state[5], state[6], state[7];
      for i := 0 to 64
        invariant Vars(a, b, c, d, e, f, g, h) == Rounds(block, hash, i)
      {
        var t1 := Plus(Plus(Plus(Plus(h, BigSigma1(e)), Ch(e, f, g)), K[i]), m[i]);
        var t2 := Plus(BigSigma0(a), Maj(a, b, c));
        h := g;
        g := f;
        f := e;
        e := Plus(d, t1);
        d := c;
        c := b;
        b := a;
        a := Plus(t1, t2);
      }
      v := Vars(a, b, c, d, e, f, g, h);
    }

    /** `sha256_transform`. */
    method Transform()
      requires data.Length == 64 && state.Length == 8
      modifies state
      ensures state[..] == Compress(old(state[..]), data[..])
    {
      hide Rounds, W, Plus, Compress;
      CompressIs(state[..], data[..]);
      var m := Schedule();
      var v := RunRounds(m);
      AddFour(0, v.a, v.b, v.c, v.d);
      AddFour(4, v.e, v.f, v.g, v.h);
    }

    /** The additions to words `w` to `w + 3`. */
    method AddFour(w: nat, a: Word, b: Word, c: Word, d: Word)
      requires state.Length == 8 && w <= 4
      modifies state
      ensures state[w] == Plus(old(state[w]), a) && state[w + 1] == Plus(old(state[w + 1]), b)
      ensures state[w + 2] == Plus(old(state[w + 2]), c) && state[w + 3] == Plus(old(state[w + 3]), d)
      ensures forall i :: 0 <= i < 8 && !(w <= i < w + 4) ==> state[i] == old(state[i])
    {
      hide Plus;
      state[w] := Plus(state[w], a);
      state[w + 1] := Plus(state[w + 1], b);
      state[w + 2] := Plus(state[w + 2], c);
      state[w + 3] := Plus(state[w + 3], d);
    }

    /** `rcutils_sha256_update`: copy up to the end of the buffer, transform when it is full. */
    method Update(input: seq<Byte>)
      requires Valid()
      modifies this, data, state
      ensures Valid() && message == old(message) + input
    {
      hide Valid;
      var i: nat := 0;
      ghost var before := message;
      NoneTaken(before, input);
      while i < |input|
        invariant i <= |input| && Valid() && message == before + input[..i]
      {
        ContextShape(this);
        var dataRemaining, blockRemaining := |input| - i, 64 - datalen;
        var copyLen := Min(Min(blockRemaining, dataRemaining), 64);
        MoreTaken(before, input, i, copyLen);
        Absorb(input[i..i + copyLen]);
        i := i + copyLen;
      }
    }

    /** `memcpy` of `chunk` into the buffer, behind the tail. */
    method Copy(chunk: seq<Byte>)
      requires Valid() && datalen + |chunk| <= 64
      modifies data
      ensures data[..datalen + |chunk|] == old(data[..datalen]) + chunk
    {
      hide Valid;
      assert data.Length == 64 by { ContextShape(this); }
      forall k | 0 <= k < |chunk| {
        data[datalen + k] := chunk[k];
      }
    }

    /** One round of the loop of `update`: copy, then transform if the buffer is full. */
    method Absorb(chunk: seq<Byte>)
      requires Valid() && datalen + |chunk| <= 64
      modifies this, data, state
      ensures Valid() && message == old(message) + chunk
    {
      hide Blocks, Compress;
      ghost var full := message[..|message| - datalen];
      Regroup(message, |message| - datalen, chunk);
      Copy(chunk);
      datalen, message := datalen + |chunk|, message + chunk;
      if datalen >= 64 {
        assert data[..datalen] == data[..];
        Flush(full);
      }
    }

    /** The buffer is full: transform and start over. */
    method Flush(ghost full: seq<Byte>)
      requires data.Length == 64 && state.Length == 8 && datalen == 64
      requires |full| % 64 == 0 && message == full + data[..]
      requires state[..] == Blocks(full) && bitlen == 8 * |full| % SIZE_MODULUS
      modifies this`bitlen, this`datalen, state
      ensures Valid()
    {
      hide Blocks, Compress;
      Transform();
      BlocksStep(full, data[..]);
      bitlen, datalen := (bitlen + 512) % SIZE_MODULUS, 0;
      assert message[..|message|] == message;
    }

    /** The padding byte and the zeros of `final`, with a transform when the length no longer fits. */
    method PadBuffer()
      requires Valid()
      modifies data, state
      ensures data.Length == 64 && state.Length == 8
      ensures datalen < 56 ==>
                data[..56] == old(data[..datalen]) + [0x80] + Zeros(55 - datalen) && state[..] == old(state[..])
      ensures datalen >= 56 ==> data[..56] == Zeros(56)
      ensures datalen >= 56 ==>
                state[..] == Compress(old(state[..]), old(data[..datalen]) + [0x80] + Zeros(63 - datalen))
    {
      hide Valid, Compress;
      assert data.Length == 64 && state.Length == 8 && datalen < 64 by { ContextShape(this); }
      ghost var tail, hash := data[..datalen], state[..];
      var end := if datalen < 56 then 56 else 64;
      data[datalen] := 0x80;
      forall k | datalen + 1 <= k < end {
        data[k] := 0;
      }
      assert data[..end] == tail + [0x80] + Zeros(end - datalen - 1);
      if datalen >= 56 {
        ghost var block := data[..];
        assert data[..end] == block && state[..] == hash;
        Transform();
        assert block == tail + [0x80] + Zeros(63 - datalen);
        forall k | 0 <= k < 56 {
          data[k] := 0;
        }
        assert data[..56] == Zeros(56) && state[..] == Compress(hash, block);
      }
    }

    /** The eight assignments of the length, least significant byte last. */
    method PutLength()
      requires data.Length == 64
      modifies data
      ensures data[..] == old(data[..56]) + BigEndian(bitlen, 8)
    {
      hide BigEndian, LowByte, ShiftBytes;
      data[63] := LowByte(ShiftBytes(bitlen, 0));
      data[62] := LowByte(ShiftBytes(bitlen, 1));
      data[61] := LowByte(ShiftBytes(bitlen, 2));
      data[60] := LowByte(ShiftBytes(bitlen, 3));
      data[59] := LowByte(ShiftBytes(bitlen, 4));
      data[58] := LowByte(ShiftBytes(bitlen, 5));
      data[57] := LowByte(ShiftBytes(bitlen, 6));
      data[56] := LowByte(ShiftBytes(bitlen, 7));
      LengthPut(bitlen, data[..]);
    }

    /** `rcutils_sha256_final`, for messages below 2^61 bytes. */
    method Final(output: array<Byte>)
      requires Valid() && output.Length == 32 && output != data && |message| < 0x2000_0000_0000_0000
      modifies this, data, state, output
      ensures output[..] == Digest(old(message))
    {
      hide Compress, Blocks, Pad, Digest, Output, BigEndian, Zeros;
      ghost var tail, n := data[..datalen], |message| - datalen;
      PadSplit(message, n);
      LengthFits(|message|, datalen, bitlen);
      PadBuffer();
      bitlen := (bitlen + datalen * 8) % SIZE_MODULUS;
      PutLength();
      Transform();
      Emit(output);
      DigestIs(message);
    }

    /** The output loop: byte `i` of every word, most significant first. */
    method Emit(output: array<Byte>)
      requires state.Length == 8 && output.Length == 32
      modifies output
      ensures output[..] == Output(state[..])
    {
      hide ByteOf, Output;
      for i := 0 to 4
        invariant forall l :: 0 <= l < 32 && l % 4 < i ==> output[l] == ByteOf(state[l / 4], l % 4)
      {
        EmitRound(output, i);
      }
      OutputAt(state[..], output[..]);
    }

    method EmitRound(output: array<Byte>, i: nat)
      requires state.Length == 8 && output.Length == 32 && i < 4
      modifies output
      ensures forall l :: 0 <= l < 32 ==> output[l] == if l % 4 == i then ByteOf(state[l / 4], i) else old(output[l])
    {
      hide ByteOf;
      EmitFour(output, i, 0);
      EmitFour(output, i, 4);
    }

    /** The assignments for words `w` to `w + 3`. */
    method EmitFour(output: array<Byte>, i: nat, w: nat)
      requires state.Length == 8 && output.Length == 32 && i < 4 && w <= 4
      modifies output
      ensures forall l :: 0 <= l < 32 ==>
                            output[l] ==
                            if l % 4 == i && w <= l / 4 < w + 4 then ByteOf(state[l / 4], i) else old(output[l])
    {
      hide ByteOf;
      output[i + 4 * w] := ByteOf(state[w], i);
      output[i + 4 * w + 4] := ByteOf(state[w + 1], i);
      output[i + 4 * w + 8] := ByteOf(state[w + 2], i);
      output[i + 4 * w + 12] := ByteOf(state[w + 3], i);
    }
  }

  lemma {:induction false} OutputAt(words: seq<Word>, bytes: seq<Byte>)
    requires |bytes| == 4 * |words|
    requires forall l :: 0 <= l < |bytes| ==> bytes[l] == ByteOf(words[l / 4], l % 4)
    ensures bytes == Output(words)
  {
    hide ByteOf;
    if words != [] {
      var n := |words| - 1;
      OutputAt(words[..n], bytes[..4 * n]);
      assert bytes[4 * n..] == WordBytes(words[n]) by {
        assert bytes[4 * n] == ByteOf(words[n], 0) && bytes[4 * n + 1] == ByteOf(words[n], 1);
        assert bytes[4 * n + 2] == ByteOf(words[n], 2) && bytes[4 * n + 3] == ByteOf(words[n], 3);
      }
      assert bytes == bytes[..4 * n] + bytes[4 * n..];
    }
  }

  /** `n >> 8 * k`. */
  function ShiftBytes(n: nat, k: nat): nat
    decreases k
  {
    if k == 0 then n else ShiftBytes(n / 256, k - 1)
  }

  lemma {:induction false} BigEndianAt(n: nat, bytes: nat, k: nat)
    requires k < bytes
    ensures BigEndian(n, bytes)[bytes - 1 - k] == LowByte(ShiftBytes(n, k))
    decreases bytes
  {
    if k > 0 {
      BigEndianAt(n / 256, bytes - 1, k - 1);
    }
  }

  lemma LengthPut(n: nat, block: seq<Byte>)
    requires |block| == 64 && forall k :: 0 <= k < 8 ==> block[63 - k] == LowByte(ShiftBytes(n, k))
    ensures block == block[..56] + BigEndian(n, 8)
  {
    forall j | 56 <= j < 64 ensures block[j] == BigEndian(n, 8)[j - 56] {
      BigEndianAt(n, 8, 63 - j);
      assert block[63 - (63 - j)] == LowByte(ShiftBytes(n, 63 - j));
    }
  }

  lemma NoneTaken(before: seq<Byte>, input: seq<Byte>)
    ensures before + input[..0] == before && input[..|input|] == input
  {
  }

  lemma MoreTaken(before: seq<Byte>, input: seq<Byte>, i: nat, n: nat)
    requires i + n <= |input|
    ensures before + input[..i] + input[i..i + n] == before + input[..i + n]
  {
    assert input[..i] + input[i..i + n] == input[..i + n];
  }

  lemma NothingYet(c: Context)
    requires c.data.Length == 64 && c.state.Length == 8 && c.state[..] == H0
    requires c.datalen == 0 && c.bitlen == 0 && c.message == []
    ensures c.Valid()
  {
    hide Blocks, Compress;
    NoTail(|c.message| - c.datalen);
    NoBlocks();
    assert c.data[..0] == [] == c.message[0..] == c.message[..0];
  }

  lemma NoTail(n: nat)
    ensures n == 0 ==> n % 64 == 0 && 8 * n % SIZE_MODULUS == 0
  {
  }

  lemma NoBlocks()
    ensures Blocks([]) == H0
  {
  }

  lemma LengthFits(length: nat, datalen: nat, bitlen: nat)
    requires datalen <= length < 0x2000_0000_0000_0000 && bitlen == 8 * (length - datalen) % SIZE_MODULUS
    ensures (bitlen + datalen * 8) % SIZE_MODULUS == 8 * length
  {
  }

  lemma DigestIs(message: seq<Byte>)
    ensures Digest(message) == Output(Blocks(Pad(message)))
  {
  }

  /** The hash value of the padded message, from that of the full blocks: one more block, or two. */
  lemma Reassociate(full: seq<Byte>, tail: seq<Byte>, one: seq<Byte>, z: seq<Byte>, z': seq<Byte>, length: seq<Byte>)
    ensures full + tail + one + z + length == full + (tail + one + z + length)
    ensures full + tail + one + (z + z') + length == full + (tail + one + z) + (z' + length)
  {
  }

  lemma PadShort(message: seq<Byte>, n: nat)
    requires n <= |message| < n + 56 && n % 64 == 0
    ensures Pad(message) ==
            message[..n] + (message[n..] + [0x80] + Zeros(55 - |message[n..]|) + BigEndian(8 * |message|, 8))
  {
    hide BigEndian, Zeros;
    assert message == message[..n] + message[n..];
    Reassociate(message[..n], message[n..], [0x80], Zeros(55 - |message[n..]|), [], BigEndian(8 * |message|, 8));
  }

  lemma ZerosConcat(j: nat, k: nat)
    ensures Zeros(j + k) == Zeros(j) + Zeros(k)
  {
  }

  lemma PadLong(message: seq<Byte>, n: nat)
    requires n + 56 <= |message| < n + 64 && n % 64 == 0
    ensures Pad(message) ==
            message[..n] + (message[n..] + [0x80] + Zeros(63 - |message[n..]|)) +
            (Zeros(56) + BigEndian(8 * |message|, 8))
  {
    hide BigEndian, Zeros;
    assert message == message[..n] + message[n..];
    ZerosConcat(63 - |message[n..]|, 56);
    Reassociate(message[..n], message[n..], [0x80], Zeros(63 - |message[n..]|), Zeros(56), BigEndian(8 * |message|, 8));
  }

  lemma PadSplit(message: seq<Byte>, n: nat)
    requires n <= |message| < n + 64 && n % 64 == 0
    ensures var tail, length := message[n..], BigEndian(8 * |message|, 8);
            Blocks(Pad(message)) ==
            if |tail| < 56 then Compress(Blocks(message[..n]), tail + [0x80] + Zeros(55 - |tail|) + length)
            else Compress(Compress(Blocks(message[..n]), tail + [0x80] + Zeros(63 - |tail|)), Zeros(56) + length)
  {
    hide Compress, Blocks, BigEndian, Pad;
    var full, tail, length := message[..n], message[n..], BigEndian(8 * |message|, 8);
    if |tail| < 56 {
      var last := tail + [0x80] + Zeros(55 - |tail|) + length;
      PadShort(message, n);
      BlocksStep(full, last);
    } else {
      var first, last := tail + [0x80] + Zeros(63 - |tail|), Zeros(56) + length;
      PadLong(message, n);
      BlocksStep(full, first);
      BlocksStep(full + first, last);
    }
  }

  lemma ContextShape(c: Context)
    requires c.Valid()
    ensures c.data.Length == 64 && c.state.Length == 8 && c.datalen < 64
  {
  }

  lemma Regroup(message: seq<Byte>, full: nat, chunk: seq<Byte>)
    requires full <= |message|
    ensures message + chunk == message[..full] + (message[full..] + chunk)
    ensures (message + chunk)[..full] == message[..full] && (message + chunk)[full..] == message[full..] + chunk
  {
  }

  lemma BlocksStep(whole: seq<Byte>, block: seq<Byte>)
    requires |whole| % 64 == 0 && |block| == 64
    ensures |whole + block| % 64 == 0 && Blocks(whole + block) == Compress(Blocks(whole), block)
  {
    assert (whole + block)[..|whole|] == whole && (whole + block)[|whole|..] == block;
  }

  lemma ScheduleStep(block: seq<Byte>, t: nat)
    requires |block| == 64 && t < 64
    ensures t < 16 ==> W(block, t) == WordOf(block[4 * t..4 * t + 4])
    ensures 16 <= t ==>
              W(block, t) ==
              Plus(Plus(Plus(SmallSigma1(W(block, t - 2)), W(block, t - 7)), SmallSigma0(W(block, t - 15))),
                   W(block, t - 16))
  {
  }

  lemma CompressIs(hash: seq<Word>, block: seq<Byte>)
    requires |hash| == 8 && |block| == 64
    ensures var v, r := Rounds(block, hash, 64), Compress(hash, block);
            && r[0] == Plus(hash[0], v.a) && r[1] == Plus(hash[1], v.b)
            && r[2] == Plus(hash[2], v.c) && r[3] == Plus(hash[3], v.d)
            && r[4] == Plus(hash[4], v.e) && r[5] == Plus(hash[5], v.f)
            && r[6] == Plus(hash[6], v.g) && r[7] == Plus(hash[7], v.h)
  {
    hide Rounds, Plus;
  }

  function Concat(chunks: seq<seq<Byte>>): seq<Byte> {
    if chunks == [] then [] else Concat(chunks[..|chunks| - 1]) + chunks[|chunks| - 1]
  }

  lemma ConcatStep(chunks: seq<seq<Byte>>, i: nat)
    requires i < |chunks|
    ensures Concat(chunks[..i + 1]) == Concat(chunks[..i]) + chunks[i]
  {
    assert chunks[..i + 1][..i] == chunks[..i];
  }

  method UpdateAll(context: Context, chunks: seq<seq<Byte>>)
    requires context.Valid()
    modifies context, context.data, context.state
    ensures context.Valid() && context.message == old(context.message) + Concat(chunks)
  {
    hide Context.Valid;
    ghost var before := context.message;
    assert chunks[..0] == [] && before + Concat([]) == before;
    hide Concat;
    for i := 0 to |chunks|
      invariant context.Valid() && context.message == before + Concat(chunks[..i])
    {
      context.Update(chunks[i]);
      ConcatStep(chunks, i);
      assert before + Concat(chunks[..i]) + chunks[i] == before + (Concat(chunks[..i]) + chunks[i]);
    }
    assert chunks[..|chunks|] == chunks;
  }

  lemma NothingBefore(s: seq<Byte>)
    ensures [] + s == s
  {
  }

  /** However a message is cut into updates, the output is the digest of the whole. */
  method HashChunks(chunks: seq<seq<Byte>>) returns (output: array<Byte>)
    requires |Concat(chunks)| < 0x2000_0000_0000_0000
    ensures output.Length == 32 && output[..] == Digest(Concat(chunks))
  {
    hide *;
    output := new Byte[32];
    var context := new Context();
    NothingBefore(Concat(chunks));
    UpdateAll(context, chunks);
    context.Final(output);
  }
}
