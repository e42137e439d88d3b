/** Streaming SHA-256: buffering and padding (sections 5.1.1 and 6.2.2 of FIPS 180-4) around an arbitrary
    compression function. */
module Sha256 {
  import opened Common

  const BLOCK: nat := 64

  type Word32 = w: nat | w <= MAX_U32

  type Chaining = s: seq<Word32> | |s| == 8 witness INITIAL

  const INITIAL: seq<Word32> := [
    0x6a09e667, 0xbb67ae85, 0x3c6ef372, 0xa54ff53a, 0x510e527f, 0x9b05688c, 0x1f83d9ab, 0x5be0cd19]

  /** The compression function: chaining value and block to chaining value. */
  type Compression = (Chaining, seq<Byte>) -> Chaining

  // ---------------------------------------------------------------- specification

  /** The compression function folded over the first blocks of some data. */
  function Fold(c: Compression, data: seq<Byte>, blocks: nat): Chaining
    requires BLOCK * blocks <= |data|
    decreases blocks
  {
    if blocks == 0 then INITIAL
    else c(Fold(c, data, blocks - 1), data[BLOCK * (blocks - 1)..BLOCK * blocks])
  }

  function Zeros(n: nat): seq<Byte> { seq(n, _ => 0) }

  /** The low `n` bytes of a number, most significant first. */
  function BigEndian(value: nat, n: nat): (bytes: seq<Byte>)
    ensures |bytes| == n
  {
    if n == 0 then [] else BigEndian(value / 256, n - 1) + [value % 256]
  }

  /** How many zeros bring a message and the one bit to eight bytes short of a block. */
  function ZeroCount(length: nat): (k: nat)
    ensures k < BLOCK && (length + 1 + k) % BLOCK == 56
  {
    (119 - length % BLOCK) % BLOCK
  }

  lemma ZeroCountIsLeast(length: nat, k: nat)
    requires (length + 1 + k) % BLOCK == 56
    ensures ZeroCount(length) <= k
  {
  }

  function Padded(message: seq<Byte>): (data: seq<Byte>)
    ensures |data| % BLOCK == 0
  {
    var k := ZeroCount(|message|);
    EightMore(|message| + 1 + k);
    var data := message + [0x80] + Zeros(k) + BigEndian(8 * |message|, 8);
    assert |data| == |message| + 1 + k + 8;
    data
  }

  lemma EightMore(n: nat)
    requires n % BLOCK == 56
    ensures (n + 8) % BLOCK == 0
  {
  }

  function Serialized(words: seq<Word32>): seq<Byte> {
    if words == [] then [] else Serialized(words[..|words| - 1]) + BigEndian(words[|words| - 1], 4)
  }

  function Digest(c: Compression, message: seq<Byte>): seq<Byte> {
    var data := Padded(message);
    Serialized(Fold(c, data, |data| / BLOCK))
  }

  // ---------------------------------------------------------------- the padding says where the message ends

  function Number(bytes: seq<Byte>): nat {
    if bytes == [] then 0 else 256 * Number(bytes[..|bytes| - 1]) + bytes[|bytes| - 1]
  }

  function Power256(n: nat): nat { if n == 0 then 1 else 256 * Power256(n - 1) }

  lemma {:induction false} NumberOfBigEndian(value: nat, n: nat)
    requires value < Power256(n)
    ensures Number(BigEndian(value, n)) == value
  {
    if n > 0 {
      NumberOfBigEndian(value / 256, n - 1);
      var bytes := BigEndian(value, n);
      assert bytes[..n - 1] == BigEndian(value / 256, n - 1);
    }
  }

  /** Two messages within the length limit of the standard have different paddings unless they are equal. */
  lemma PaddingIsInjective(a: seq<Byte>, b: seq<Byte>)
    requires |a| < 0x2000_0000_0000_0000 && |b| < 0x2000_0000_0000_0000
    requires Padded(a) == Padded(b)
    ensures a == b
  {
    var data := Padded(a);
    assert data[|data| - 8..] == BigEndian(8 * |a|, 8);
    assert data[|data| - 8..] == BigEndian(8 * |b|, 8);
    assert Power256(8) == 0x1_0000_0000_0000_0000;
    NumberOfBigEndian(8 * |a|, 8);
    NumberOfBigEndian(8 * |b|, 8);
    assert data[..|a|] == a && data[..|a|] == b;
  }

  /** The example of section 5.1.1 of FIPS 180-4: "abc" is 24 bits long, so it takes the one bit, 423 zero bits and the
      length to fill a block. */
  lemma AbcIsPadded()
    ensures Padded([0x61, 0x62, 0x63]) == [0x61, 0x62, 0x63, 0x80] + Zeros(52) + [0, 0, 0, 0, 0, 0, 0, 0x18]
  {
    var length, n := 24, 8;
    SmallBigEndian(length, n);
    assert ZeroCount(3) == 52;
    assert Zeros(7) + [length] == [0, 0, 0, 0, 0, 0, 0, 0x18];
  }

  lemma {:induction false} SmallBigEndian(value: nat, n: nat)
    requires value < 256 && n > 0
    ensures BigEndian(value, n) == Zeros(n - 1) + [value]
  {
    ZeroBigEndian(n - 1);
  }

  lemma {:induction false} ZeroBigEndian(n: nat)
    ensures BigEndian(0, n) == Zeros(n)
  {
    if n > 0 {
      ZeroBigEndian(n - 1);
      assert Zeros(n - 1) + [0] == Zeros(n);
    }
  }

  lemma {:induction false} SerializedLength(words: seq<Word32>)
    ensures |Serialized(words)| == 4 * |words|
  {
    if words != [] { SerializedLength(words[..|words| - 1]); }
  }

  lemma WordReadsBack(word: Word32, n: nat)
    requires n == 4
    ensures Number(BigEndian(word, n)) == word
  {
    assert Power256(2) == 0x1_0000 && Power256(n) == 0x1_0000 * Power256(2);
    NumberOfBigEndian(word, n);
  }

  lemma SliceOfJoin(head: seq<Byte>, last: seq<Byte>, from: nat)
    requires from + 4 <= |head| || from == |head|
    requires |last| == 4
    ensures (head + last)[from..from + 4] == if from == |head| then last else head[from..from + 4]
  {
  }

  /** The digest writes each word of the last chaining value in four bytes, most significant first, in order. */
  lemma {:induction false} WordsReadBack(words: seq<Word32>, i: nat)
    requires i < |words|
    ensures |Serialized(words)| == 4 * |words| && Number(Serialized(words)[4 * i..4 * i + 4]) == words[i]
    decreases |words|
  {
    var n := |words| - 1;
    var head, last := Serialized(words[..n]), BigEndian(words[n], 4);
    SerializedLength(words);
    SerializedLength(words[..n]);
    SliceOfJoin(head, last, 4 * i);
    if i < n { WordsReadBack(words[..n], i); } else { WordReadsBack(words[n], 4); }
  }

  // ---------------------------------------------------------------- what the hasher has taken in

  lemma {:induction false} FoldOfPrefix(c: Compression, data: seq<Byte>, more: seq<Byte>, blocks: nat)
    requires BLOCK * blocks <= |data|
    ensures Fold(c, data + more, blocks) == Fold(c, data, blocks)
    decreases blocks
  {
    if blocks > 0 {
      FoldOfPrefix(c, data, more, blocks - 1);
      var from, end := BLOCK * (blocks - 1), BLOCK * blocks;
      assert (data + more)[from..end] == data[from..end];
    }
  }

  /** The chaining value covers the whole blocks of what was taken in, and the buffer holds the rest. */
  ghost predicate Tracks(c: Compression, state: Chaining, buffered: seq<Byte>, taken: seq<Byte>, blocks: nat) {
    && |taken| == BLOCK * blocks + |buffered|
    && taken[BLOCK * blocks..] == buffered
    && state == Fold(c, taken, blocks)
  }

  lemma Buffered(c: Compression, state: Chaining, buffered: seq<Byte>, taken: seq<Byte>, blocks: nat, byte: Byte)
    requires Tracks(c, state, buffered, taken, blocks)
    ensures Tracks(c, state, buffered + [byte], taken + [byte], blocks)
  {
    FoldOfPrefix(c, taken, [byte], blocks);
    assert (taken + [byte])[BLOCK * blocks..] == taken[BLOCK * blocks..] + [byte];
  }

  lemma Flushed(c: Compression, state: Chaining, buffered: seq<Byte>, taken: seq<Byte>, blocks: nat)
    requires Tracks(c, state, buffered, taken, blocks) && |buffered| == BLOCK
    ensures Tracks(c, c(state, buffered), [], taken, blocks + 1)
  {
    assert taken[BLOCK * blocks..BLOCK * (blocks + 1)] == buffered;
  }

  lemma Compressed(c: Compression, state: Chaining, taken: seq<Byte>, blocks: nat, block: seq<Byte>)
    requires Tracks(c, state, [], taken, blocks) && |block| == BLOCK
    ensures Tracks(c, c(state, block), [], taken + block, blocks + 1)
  {
    FoldOfPrefix(c, taken, block, blocks);
    assert (taken + block)[BLOCK * blocks..BLOCK * (blocks + 1)] == block;
  }

  class Hasher {
    const compress: Compression
    var state: Chaining
    const buffer: array<Byte>
    var totalBytes: nat
    var used: nat
    /** Everything taken in so far. */
    ghost var message: seq<Byte>
    ghost var blocks: nat

    ghost predicate Valid()
      reads this, buffer
    {
      && buffer.Length == BLOCK && used < BLOCK
      && totalBytes == |message| % U64_MODULUS
      && Tracks(compress, state, buffer[..used], message, blocks)
    }

    constructor (c: Compression)
      ensures Valid() && fresh(buffer) && message == [] && compress == c
    {
      compress := c;
      state := INITIAL;
      buffer := new Byte[BLOCK](_ => 0);
      totalBytes := 0;
      used := 0;
      message := [];
      blocks := 0;
    }

    /** Puts one byte in the buffer. */
    method Push(byte: Byte, ghost taken: seq<Byte>)
      requires buffer.Length == BLOCK && used < BLOCK && Tracks(compress, state, buffer[..used], taken, blocks)
      modifies this`used, buffer
      ensures used == old(used) + 1 && Tracks(compress, state, buffer[..used], taken + [byte], blocks)
    {
      Buffered(compress, state, buffer[..used], taken, blocks, byte);
      ghost var before := buffer[..used];
      buffer[used] := byte;
      used := used + 1;
      assert buffer[..used] == before + [byte];
    }

    /** Fills the buffer from the start of the data, and compresses it once full. */
    method TopUp(data: seq<Byte>) returns (offset: nat)
      requires buffer.Length == BLOCK && used < BLOCK && Tracks(compress, state, buffer[..used], message, blocks)
      modifies this`state, this`used, this`blocks, buffer
      ensures offset <= |data| && used < BLOCK
      ensures Tracks(compress, state, buffer[..used], message + data[..offset], blocks)
      ensures used == 0 || offset == |data|
    {
      offset := 0;
      assert message + data[..0] == message;
      if used == 0 { return; }
      while offset < |data| && used < BLOCK
        invariant offset <= |data| && used <= BLOCK
        invariant Tracks(compress, state, buffer[..used], message + data[..offset], blocks)
      {
        Push(data[offset], message + data[..offset]);
        assert message + data[..offset] + [data[offset]] == message + data[..offset + 1];
        offset := offset + 1;
      }
      if used == BLOCK {
        assert buffer[..] == buffer[..used];
        Flushed(compress, state, buffer[..used], message + data[..offset], blocks);
        state := compress(state, buffer[..]);
        blocks := blocks + 1;
        used := 0;
        assert buffer[..0] == [];
      }
    }

    /** Compresses whole blocks straight from the data. */
    method CompressBlocks(data: seq<Byte>, start: nat) returns (offset: nat)
      requires start <= |data| && used == 0 && Tracks(compress, state, [], message + data[..start], blocks)
      modifies this`state, this`blocks
      ensures start <= offset <= |data| && |data| - offset < BLOCK
      ensures Tracks(compress, state, [], message + data[..offset], blocks)
    {
      offset := start;
      while |data| - offset >= BLOCK
        invariant start <= offset <= |data|
        invariant Tracks(compress, state, [], message + data[..offset], blocks)
      {
        var block := data[offset..offset + BLOCK];
        Compressed(compress, state, message + data[..offset], blocks, block);
        assert message + data[..offset] + block == message + data[..offset + BLOCK];
        state := compress(state, block);
        blocks := blocks + 1;
        offset := offset + BLOCK;
      }
    }

    /** Keeps what is left of the data, less than a block, in the empty buffer. */
    method Keep(data: seq<Byte>, start: nat)
      requires start <= |data| && |data| - start < BLOCK && used == 0
      requires buffer.Length == BLOCK && Tracks(compress, state, [], message + data[..start], blocks)
      modifies this`used, buffer
      ensures used < BLOCK && Tracks(compress, state, buffer[..used], message + data, blocks)
    {
      var offset := start;
      assert buffer[..0] == [];
      while offset < |data|
        invariant offset <= |data| && used == offset - start
        invariant Tracks(compress, state, buffer[..used], message + data[..offset], blocks)
      {
        Push(data[offset], message + data[..offset]);
        assert message + data[..offset] + [data[offset]] == message + data[..offset + 1];
        offset := offset + 1;
      }
      assert data[..offset] == data;
    }

    /** Takes in more of the message. */
    method Update(data: seq<Byte>)
      requires Valid()
      modifies this, buffer
      ensures Valid() && message == old(message) + data && used == |message| % BLOCK
    {
      WrapAdds(|message|, |data|);
      totalBytes := AddU64(totalBytes, |data|);
      var offset := TopUp(data);
      if used == 0 {
        assert buffer[..0] == [];
        offset := CompressBlocks(data, offset);
        Keep(data, offset);
      } else {
        assert data[..offset] == data;
      }
      message := message + data;
      Position(blocks, used);
    }

    /** Adds zero bytes until the buffer is eight bytes short of a block. */
    method PadZeros()
      requires Valid() && used == |message| % BLOCK && |message| > 0
      modifies this, buffer
      ensures Valid() && message == old(message) + Zeros(ZeroCount(old(|message|) - 1))
    {
      ghost var original := message;
      ghost var zeros := 0;
      assert message == original + Zeros(0);
      while used != 56
        invariant Valid() && used == |message| % BLOCK
        invariant message == original + Zeros(zeros) && zeros <= ZeroCount(|original| - 1)
        decreases ZeroCount(|original| - 1) - zeros
      {
        Update([0]);
        zeros := zeros + 1;
        assert original + Zeros(zeros) == original + Zeros(zeros - 1) + [0];
      }
      ZeroCountIsLeast(|original| - 1, zeros);
    }

    /** Pads what was taken in and returns its digest. */
    method Finalize() returns (digest: seq<Byte>)
      requires Valid()
      modifies this, buffer
      ensures digest == Digest(compress, old(message))
    {
      var bitLength := totalBytes * 8 % U64_MODULUS;
      LowBytesOfWrapped(|message|);
      Update([0x80]);
      PadZeros();
      Update(BigEndian(bitLength, 8));
      assert message == Padded(old(message));
      Position(blocks, used);
      digest := Serialized(state);
    }
  }

  /** However a message is split into updates, the digest is that of the whole message. */
  method HashInChunks(c: Compression, chunks: seq<seq<Byte>>) returns (digest: seq<Byte>)
    ensures digest == Digest(c, Concat(chunks))
  {
    var hasher := new Hasher(c);
    var i := 0;
    while i < |chunks|
      invariant 0 <= i <= |chunks|
      invariant fresh(hasher) && fresh(hasher.buffer) && hasher.Valid() && hasher.compress == c
      invariant hasher.message == Concat(chunks[..i])
    {
      hasher.Update(chunks[i]);
      assert chunks[..i + 1][..i] == chunks[..i];
      i := i + 1;
    }
    assert chunks[..i] == chunks;
    digest := hasher.Finalize();
  }

  lemma WrapAdds(a: nat, b: nat)
    ensures AddU64(a % U64_MODULUS, b) == (a + b) % U64_MODULUS
  {
  }

  lemma Position(blocks: nat, used: nat)
    requires used < BLOCK
    ensures (BLOCK * blocks + used) % BLOCK == used && (BLOCK * blocks + used) / BLOCK == blocks
  {
  }

  lemma LowBytesOfWrapped(length: nat)
    ensures BigEndian(length % U64_MODULUS * 8 % U64_MODULUS, 8) == BigEndian(8 * length, 8)
  {
    var wrapped := length % U64_MODULUS;
    var k := 8 * (length / U64_MODULUS) + wrapped * 8 / U64_MODULUS;
    assert 8 * length == wrapped * 8 % U64_MODULUS + k * U64_MODULUS;
    assert Power256(8) == U64_MODULUS;
    LowBytes(wrapped * 8 % U64_MODULUS, k, 8);
  }

  /** The low bytes of a number do not see multiples of the next power. */
  lemma {:induction false} LowBytes(value: nat, k: nat, n: nat)
    ensures k * Power256(n) >= 0 && BigEndian(value + k * Power256(n), n) == BigEndian(value, n)
  {
    if n > 0 {
      var t := k * Power256(n - 1);
      assert k * Power256(n) == 256 * t;
      assert (value + 256 * t) / 256 == value / 256 + t && (value + 256 * t) % 256 == value % 256;
      LowBytes(value / 256, k, n - 1);
    }
  }
}
