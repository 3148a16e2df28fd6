/** Streaming SHA-256 of src/hash/sha256.c (the build without OpenSSL): init, update and final, for any
    block transform. */
module Sha256 {
  import opened Bytes

  const BLOCK := 64
  type u32 = x: int | 0 <= x < 0x1_0000_0000 witness 0
  type Words = s: seq<u32> | |s| == 8 witness [0, 0, 0, 0, 0, 0, 0, 0]
  type Block = b: bytes | |b| == 64 witness seq(64, _ => 0)
  type Transform = (Words, Block) -> Words

  const INITIAL: Words := [0x6a09e667, 0xbb67ae85, 0x3c6ef372, 0xa54ff53a, 0x510e527f, 0x9b05688c, 0x1f83d9ab,
    0x5be0cd19]

  // ----- the reference: FIPS 180-4, sections 5.1.1 and 6.2.2 -----

  /** A number as n big-endian bytes. */
  function BigEndian(x: nat, n: nat): (b: bytes)
    ensures |b| == n
  {
    if n == 0 then [] else BigEndian(x / 0x100, n - 1) + [x % 0x100]
  }

  /** The number of zero bytes between the 0x80 byte and the length. */
  function ZeroCount(len: nat): (k: nat)
    ensures k < BLOCK && (len + 1 + k + 8) % BLOCK == 0
  {
    var r := len % BLOCK;
    if r < 56 then 55 - r else 119 - r
  }

  function Padding(len: nat): bytes {
    [0x80] + Zeros(ZeroCount(len)) + BigEndian(8 * len, 8)
  }

  function Padded(msg: bytes): (p: bytes)
    ensures |p| % BLOCK == 0
  {
    msg + Padding(|msg|)
  }

  /** Folds the transform over the 64-byte blocks. */
  function Fold(f: Transform, st: Words, s: bytes): Words
    requires |s| % BLOCK == 0
    decreases |s|
  {
    if s == [] then st else Fold(f, f(st, s[..BLOCK]), s[BLOCK..])
  }

  function Serialize(st: seq<u32>): bytes {
    if st == [] then [] else BigEndian(st[0], 4) + Serialize(st[1..])
  }

  function Digest(f: Transform, msg: bytes): bytes {
    Serialize(Fold(f, INITIAL, Padded(msg)))
  }

  /** Section 5.3.3 of FIPS 180-4: the first 32 bits of the fractional parts of the square roots of the first
      eight primes. */
  lemma {:induction false} InitialWords(i: nat)
    requires i < 8
    ensures var p, root := [2, 3, 5, 7, 11, 13, 17, 19][i], [1, 1, 2, 2, 3, 3, 4, 4][i] * TWO32 + INITIAL[i];
      root * root <= p * TWO64 < (root + 1) * (root + 1)
  {
  }

  /** Byte i of a big-endian number is the number shifted right. */
  lemma {:induction false} BigEndianAt(x: nat, n: nat, i: nat)
    requires i < n
    ensures BigEndian(x, n)[i] == x / Pow2(8 * (n - 1 - i)) % 0x100
    decreases n
  {
    hide Pow2;
    if i < n - 1 {
      BigEndianAt(x / 0x100, n - 1, i);
      var k := 8 * (n - 2 - i);
      DivDiv(x, 0x100, Pow2(k));
      Pow2Step8(k);
    } else {
      Pow2Zero(8 * (n - 1 - i));
    }
  }

  /** Section 5.1.1: the message, one bit, zeros, and the length in bits as a 64-bit big-endian number, filled
      up to the next whole block. */
  lemma {:induction false} PaddingMeans(msg: bytes, i: nat)
    requires |msg| < TWO61 && i < 8
    ensures var p, n := Padded(msg), |msg|;
      && |p| % 64 == 0 && n + 9 <= |p| < n + 9 + 64 && p[..n] == msg && p[n] == 0x80
      && (forall k | n < k < |p| - 8 :: p[k] == 0)
      && p[|p| - 1 - i] == 8 * n / Pow2(8 * i) % 0x100
  {
    hide BigEndian, Pow2;
    var z, len := ZeroCount(|msg|), BigEndian(8 * |msg|, 8);
    BigEndianSize(8 * |msg|, 8);
    BigEndianAt(8 * |msg|, 8, 7 - i);
    assert Padded(msg) == msg + ([0x80] + Zeros(z) + len);
  }

  lemma BigEndianSize(x: nat, n: nat)
    ensures |BigEndian(x, n)| == n
  {
  }

  /** The digest: the eight words, each with its most significant byte first. */
  lemma {:induction false} SerializeAt(st: seq<u32>, i: nat, j: nat)
    requires i < |st| && j < 4
    ensures |Serialize(st)| == 4 * |st|
    ensures Serialize(st)[4 * i + j] == st[i] / Pow2(8 * (3 - j)) % 0x100
    decreases |st|
  {
    hide Pow2, BigEndian;
    BigEndianSize(st[0], 4);
    BigEndianAt(st[0], 4, j);
    var rest := Serialize(st[1..]);
    assert Serialize(st) == BigEndian(st[0], 4) + rest;
    if i > 0 {
      SerializeAt(st[1..], i - 1, j);
      assert Serialize(st)[4 * i + j] == rest[4 * (i - 1) + j];
    } else if |st| > 1 {
      SerializeAt(st[1..], 0, j);
    }
  }

  lemma Pow2Step8(k: nat)
    ensures Pow2(k + 8) == 0x100 * Pow2(k)
  {
    Pow2Step7(k);
    assert Pow2(k + 8) == 2 * Pow2(k + 7);
  }

  lemma Pow2Zero(k: nat)
    requires k == 0
    ensures Pow2(k) == 1
  {
  }

  // ----- the streaming context -----

  /** The whole blocks of a message and what is left over. */
  function Whole(msg: bytes): (w: bytes)
    ensures |w| % BLOCK == 0 && |w| <= |msg| && |msg| - |w| < BLOCK
  {
    msg[..|msg| - |msg| % BLOCK]
  }

  function Rest(msg: bytes): bytes {
    msg[|msg| - |msg| % BLOCK..]
  }

  lemma {:induction false} FoldBlock(f: Transform, st: Words, s: bytes, b: Block)
    requires |s| % BLOCK == 0
    ensures Fold(f, st, s + b) == f(Fold(f, st, s), b)
    decreases |s|
  {
    if s == [] {
      assert s + b == b && b[..BLOCK] == b && b[BLOCK..] == [];
    } else {
      assert (s + b)[..BLOCK] == s[..BLOCK] && (s + b)[BLOCK..] == s[BLOCK..] + b;
      FoldBlock(f, f(st, s[..BLOCK]), s[BLOCK..], b);
    }
  }

  /** Feeding part of a message that fits in the buffer. */
  lemma {:induction false} Grow(f: Transform, msg: bytes, take: bytes)
    requires |msg| % BLOCK + |take| <= BLOCK && take != []
    ensures |msg| % BLOCK + |take| < BLOCK ==> Whole(msg + take) == Whole(msg) && Rest(msg + take) == Rest(msg) + take
    ensures |msg| % BLOCK + |take| == BLOCK ==>
      Whole(msg + take) == Whole(msg) + (Rest(msg) + take) && Rest(msg + take) == []
    ensures |msg + take| % BLOCK == (|msg| % BLOCK + |take|) % BLOCK
  {
    var r, q := |msg| % BLOCK, |msg| / BLOCK;
    assert |msg| == BLOCK * q + r;
    if r + |take| < BLOCK {
      assert |msg + take| % BLOCK == r + |take|;
    } else {
      assert |msg + take| == BLOCK * (q + 1);
      assert msg == Whole(msg) + Rest(msg);
    }
  }

  class Context {
    const f: Transform
    var state: Words
    var count: nat
    var buffer: array<byte>
    ghost var msg: bytes  // everything fed so far

    /** The state has absorbed the whole blocks of the message, the buffer holds the rest. */
    ghost predicate Valid()
      reads this, buffer
    {
      && buffer.Length == BLOCK && |msg| < TWO61 && count == |msg|
      && state == Fold(f, INITIAL, Whole(msg))
      && buffer[..count % BLOCK] == Rest(msg)
    }

    constructor (f: Transform)
      ensures Valid() && fresh(buffer) && this.f == f && msg == []
    {
      this.f := f;
      state, count, msg := INITIAL, 0, [];
      buffer := new byte[BLOCK](_ => 0);
    }

    method Copy(pos: nat, take: bytes)
      requires buffer.Length == BLOCK && pos + |take| <= BLOCK
      modifies buffer
      ensures buffer[..pos + |take|] == old(buffer[..pos]) + take
    {
      forall i | pos <= i < pos + |take| {
        buffer[i] := take[i - pos];
      }
    }

    /** One turn of the update loop: fills the buffer and absorbs it when it is full. */
    method Absorb(take: bytes)
      requires Valid() && 0 < |take| && count % BLOCK + |take| <= BLOCK && |msg| + |take| < TWO61
      modifies this`state, this`count, this`msg, buffer
      ensures Valid() && msg == old(msg) + take
    {
      hide Fold, Rest;
      Grow(f, msg, take);
      ghost var rest := Rest(msg);
      Copy(count % BLOCK, take);
      FoldBlockIfFull(rest + take);
      count := count + |take|;
      if count % BLOCK == 0 {
        assert buffer[..] == rest + take;
        state := f(state, buffer[..]);
      }
      msg := msg + take;
    }

    lemma FoldBlockIfFull(b: bytes)
      requires |b| <= BLOCK
      ensures |b| == BLOCK ==> Fold(f, INITIAL, Whole(msg) + b) == f(Fold(f, INITIAL, Whole(msg)), b)
    {
      if |b| == BLOCK { FoldBlock(f, INITIAL, Whole(msg), b); }
    }

    method Update(data: bytes)
      requires Valid() && |msg| + |data| < TWO61
      modifies this`state, this`count, this`msg, buffer
      ensures Valid() && msg == old(msg) + data
    {
      hide Fold, Whole, Rest;
      var input := 0;
      while input < |data|
        invariant input <= |data| && Valid() && msg == old(msg) + data[..input]
      {
        var take := BLOCK - count % BLOCK;
        if take > |data| - input { take := |data| - input; }
        Absorb(data[input..input + take]);
        Cut(data, input, take);
        input := input + take;
      }
      assert data[..input] == data;
    }

    /** Sets the buffer from position `from` up to `to` to zero. */
    method Clear(from: nat, to: nat)
      requires from <= to <= buffer.Length
      modifies buffer
      ensures buffer[..] == old(buffer[..from]) + Zeros(to - from) + old(buffer[to..])
    {
      forall i | from <= i < to {
        buffer[i] := 0;
      }
    }

    /** Writes the length in bits over the last eight bytes. */
    method PutLength(bits: nat)
      requires buffer.Length == BLOCK
      modifies buffer
      ensures |BigEndian(bits, 8)| == 8 && buffer[..] == old(buffer[..56]) + BigEndian(bits, 8)
    {
      ghost var head := buffer[..56];
      var i := 0;
      while i < 8
        invariant 0 <= i <= 8 && buffer[..56] == head
        invariant buffer[56..56 + i] == BigEndian(bits, 8)[..i]
      {
        BigEndianAt(bits, 8, i);
        buffer[56 + i] := bits / Pow2(56 - 8 * i) % 0x100;
        assert buffer[56..56 + i + 1] == BigEndian(bits, 8)[..i] + [buffer[56 + i]];
        i := i + 1;
      }
      assert buffer[..] == head + buffer[56..64];
    }

    /** Absorbs the full buffer. */
    method Compress(ghost done: bytes)
      requires buffer.Length == BLOCK && |done| % BLOCK == 0 && state == Fold(f, INITIAL, done)
      modifies this`state
      ensures state == Fold(f, INITIAL, done + buffer[..])
    {
      FoldBlock(f, INITIAL, done, buffer[..]);
      state := f(state, buffer[..]);
    }

    /** Appends the 0x80 byte; when no room is left for the length, fills up and absorbs this block. */
    method Terminate() returns (pos: nat, ghost done: bytes, ghost zeros: nat)
      requires Valid()
      modifies this`state, buffer
      ensures pos <= 56 && |done| % BLOCK == 0 && state == Fold(f, INITIAL, done)
      ensures done + buffer[..pos] == msg + [0x80] + Zeros(zeros)
      ensures zeros + (56 - pos) == ZeroCount(|msg|)
    {
      hide Fold;
      ghost var rest := Rest(msg);
      pos, done, zeros := count % BLOCK, Whole(msg), 0;
      assert msg == done + rest;
      buffer[pos] := 0x80;
      pos := pos + 1;
      assert buffer[..pos] == rest + [0x80];
      if pos > 56 {
        Clear(pos, BLOCK);
        zeros := BLOCK - pos;
        assert buffer[..] == rest + [0x80] + Zeros(zeros);
        Compress(done);
        done, pos := done + buffer[..], 0;
      }
    }

    /** Zeros up to the length field, then the length. */
    method Lengthen(pos: nat) returns (ghost kept: bytes)
      requires buffer.Length == BLOCK && pos <= 56 && count < TWO61
      modifies buffer
      ensures kept == old(buffer[..pos]) && buffer[..] == kept + Zeros(56 - pos) + BigEndian(8 * count, 8)
    {
      hide BigEndian;
      kept := buffer[..pos];
      Clear(pos, 56);
      ghost var head := buffer[..56];
      assert head == kept + Zeros(56 - pos);
      var bits := count * 8 % TWO64;
      assert bits == 8 * count;
      PutLength(bits);
    }

    /** The digest of everything fed is the digest of FIPS 180-4. */
    method Final() returns (digest: bytes)
      requires Valid()
      modifies this`state, buffer
      ensures digest == Digest(f, msg) && |digest| == 32
    {
      hide Fold, ZeroCount, Whole, Rest, Padded, BigEndian, Serialize;
      var pos, done, zeros := Terminate();
      ghost var kept := Lengthen(pos);
      LastBlock(msg, done, kept, zeros, 56 - pos);
      Compress(done);
      digest := WordsOut(state);
    }
  }

  lemma Cut(data: bytes, i: nat, n: nat)
    requires i + n <= |data|
    ensures data[..i] + data[i..i + n] == data[..i + n]
  {
  }

  /** What the blocks absorbed last add up to is the padded message. */
  lemma {:induction false} LastBlock(msg: bytes, done: bytes, kept: bytes, zeros: nat, more: nat)
    requires done + kept == msg + [0x80] + Zeros(zeros) && zeros + more == ZeroCount(|msg|)
    ensures done + (kept + Zeros(more) + BigEndian(8 * |msg|, 8)) == Padded(msg)
  {
    var len := BigEndian(8 * |msg|, 8);
    assert Zeros(zeros) + Zeros(more) == Zeros(zeros + more);
    assert done + (kept + Zeros(more) + len) == done + kept + (Zeros(more) + len);
    assert msg + [0x80] + Zeros(zeros) + (Zeros(more) + len) == msg + ([0x80] + (Zeros(zeros) + Zeros(more)) + len);
  }

  lemma {:induction false} FourBytes(x: u32)
    ensures BigEndian(x, 4) == [x / 0x1000000 % 0x100, x / 0x10000 % 0x100, x / 0x100 % 0x100, x % 0x100]
  {
    assert BigEndian(x / 0x1000000, 1) == [x / 0x1000000 % 0x100];
    assert x / 0x100 / 0x100 == x / 0x10000 && x / 0x10000 / 0x100 == x / 0x1000000;
    assert BigEndian(x / 0x10000, 2) == [x / 0x1000000 % 0x100, x / 0x10000 % 0x100];
    assert BigEndian(x / 0x100, 3) == [x / 0x1000000 % 0x100, x / 0x10000 % 0x100, x / 0x100 % 0x100];
  }

  lemma {:induction false} SerializeStep(st: Words, i: nat)
    requires i < 8
    ensures Serialize(st[i..]) == BigEndian(st[i], 4) + Serialize(st[i + 1..])
  {
    var tail := st[i..];
    assert tail[1..] == st[i + 1..];
  }

  method WordsOut(st: Words) returns (digest: bytes)
    ensures digest == Serialize(st) && |digest| == 32
  {
    hide BigEndian, Serialize;
    digest := [];
    var i := 0;
    assert st[i..] == st;
    while i < 8
      invariant 0 <= i <= 8 && |digest| == 4 * i
      invariant digest + Serialize(st[i..]) == Serialize(st)
    {
      FourBytes(st[i]);
      SerializeStep(st, i);
      digest := digest + [st[i] / 0x1000000 % 0x100, st[i] / 0x10000 % 0x100, st[i] / 0x100 % 0x100, st[i] % 0x100];
      i := i + 1;
    }
    SerializeEnd(st, i);
  }

  lemma SerializeEnd(st: Words, i: nat)
    requires i == 8
    ensures Serialize(st[i..]) == []
  {
  }

  // ----- what the callers rely on -----

  /** The pieces of a message fed one by one. */
  function Concat(chunks: seq<bytes>): bytes {
    if chunks == [] then [] else Concat(chunks[..|chunks| - 1]) + chunks[|chunks| - 1]
  }

  /** However a message is cut into updates, the digest is that of the whole. */
  method DigestOfChunks(f: Transform, chunks: seq<bytes>) returns (digest: bytes)
    requires |Concat(chunks)| < TWO61
    ensures digest == Digest(f, Concat(chunks))
  {
    var ctx := new Context(f);
    var i := 0;
    while i < |chunks|
      invariant i <= |chunks| && fresh(ctx) && fresh(ctx.buffer) && ctx.Valid() && ctx.f == f
      invariant ctx.msg == Concat(chunks[..i])
    {
      ConcatPrefix(chunks, i + 1);
      assert chunks[..i + 1][..i] == chunks[..i];
      ctx.Update(chunks[i]);
      i := i + 1;
    }
    assert chunks[..i] == chunks;
    digest := ctx.Final();
  }

  lemma {:induction false} ConcatPrefix(chunks: seq<bytes>, n: nat)
    requires n <= |chunks|
    ensures |Concat(chunks[..n])| <= |Concat(chunks)|
    decreases |chunks|
  {
    if n < |chunks| {
      ConcatPrefix(chunks[..|chunks| - 1], n);
      assert chunks[..|chunks| - 1][..n] == chunks[..n];
    } else {
      assert chunks[..n] == chunks;
    }
  }
}
