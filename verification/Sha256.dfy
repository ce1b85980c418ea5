/**
 SHA-256: the padded-message definition (sections 4.1.2, 5.1.1 and 6.2.2 of FIPS 180-4), and the
 streaming context that computes it piece by piece.
*/
module Sha256 {
  import opened Basics

  /** The eight working variables. */
  datatype Words = Words(a: bv32, b: bv32, c: bv32, d: bv32, e: bv32, f: bv32, g: bv32, h: bv32)

  // The 64 constants, in eight rows.
  const ROW0: seq<bv32> :=
    [0x428a2f98, 0x71374491, 0xb5c0fbcf, 0xe9b5dba5, 0x3956c25b, 0x59f111f1, 0x923f82a4, 0xab1c5ed5]
  const ROW1: seq<bv32> :=
    [0xd807aa98, 0x12835b01, 0x243185be, 0x550c7dc3, 0x72be5d74, 0x80deb1fe, 0x9bdc06a7, 0xc19bf174]
  const ROW2: seq<bv32> :=
    [0xe49b69c1, 0xefbe4786, 0x0fc19dc6, 0x240ca1cc, 0x2de92c6f, 0x4a7484aa, 0x5cb0a9dc, 0x76f988da]
  const ROW3: seq<bv32> :=
    [0x983e5152, 0xa831c66d, 0xb00327c8, 0xbf597fc7, 0xc6e00bf3, 0xd5a79147, 0x06ca6351, 0x14292967]
  const ROW4: seq<bv32> :=
    [0x27b70a85, 0x2e1b2138, 0x4d2c6dfc, 0x53380d13, 0x650a7354, 0x766a0abb, 0x81c2c92e, 0x92722c85]
  const ROW5: seq<bv32> :=
    [0xa2bfe8a1, 0xa81a664b, 0xc24b8b70, 0xc76c51a3, 0xd192e819, 0xd6990624, 0xf40e3585, 0x106aa070]
  const ROW6: seq<bv32> :=
    [0x19a4c116, 0x1e376c08, 0x2748774c, 0x34b0bcb5, 0x391c0cb3, 0x4ed8aa4a, 0x5b9cca4f, 0x682e6ff3]
  const ROW7: seq<bv32> :=
    [0x748f82ee, 0x78a5636f, 0x84c87814, 0x8cc70208, 0x90befffa, 0xa4506ceb, 0xbef9a3f7, 0xc67178f2]

  const K: seq<bv32> := ROW0 + ROW1 + ROW2 + ROW3 + ROW4 + ROW5 + ROW6 + ROW7

  const IV := Words(0x6A09E667, 0xBB67AE85, 0x3C6EF372, 0xA54FF53A, 0x510E527F, 0x9B05688C, 0x1F83D9AB, 0x5BE0CD19)

  function Sigma0(x: bv32): bv32 { ((x >> 2) | (x << 30)) ^ ((x >> 13) | (x << 19)) ^ ((x >> 22) | (x << 10)) }
  function Sigma1(x: bv32): bv32 { ((x >> 6) | (x << 26)) ^ ((x >> 11) | (x << 21)) ^ ((x >> 25) | (x << 7)) }
  function Gamma0(x: bv32): bv32 { ((x >> 7) | (x << 25)) ^ ((x >> 18) | (x << 14)) ^ (x >> 3) }
  function Gamma1(x: bv32): bv32 { ((x >> 17) | (x << 15)) ^ ((x >> 19) | (x << 13)) ^ (x >> 10) }

  /** Ch and Maj as the standard writes them. */
  function Choose(x: bv32, y: bv32, z: bv32): bv32 { (x & y) ^ (!x & z) }
  function Majority(x: bv32, y: bv32, z: bv32): bv32 { (x & y) ^ (x & z) ^ (y & z) }

  /** The program's cheaper forms. */
  function Ch(x: bv32, y: bv32, z: bv32): bv32 { z ^ (x & (y ^ z)) }
  function Maj(x: bv32, y: bv32, z: bv32): bv32 { ((x | y) & z) | (x & y) }

  lemma ChooseBits(x: bv32, y: bv32, z: bv32)
    ensures z ^ (x & (y ^ z)) == (x & y) ^ (!x & z)
  {
  }

  lemma MajorityBits(x: bv32, y: bv32, z: bv32)
    ensures ((x | y) & z) | (x & y) == (x & y) ^ (x & z) ^ (y & z)
  {
  }

  lemma ChIsChoose(x: bv32, y: bv32, z: bv32)
    ensures Ch(x, y, z) == Choose(x, y, z)
  {
    ChooseBits(x, y, z);
  }

  lemma MajIsMajority(x: bv32, y: bv32, z: bv32)
    ensures Maj(x, y, z) == Majority(x, y, z)
  {
    MajorityBits(x, y, z);
  }

  function Sum2(x: bv32, y: bv32): bv32 { x + y }
  function Sum4(x: bv32, y: bv32, z: bv32, w: bv32): bv32 { Sum2(Sum2(Sum2(x, y), z), w) }
  function Sum5(x: bv32, y: bv32, z: bv32, w: bv32, v: bv32): bv32 { Sum2(Sum4(x, y, z, w), v) }

  /** One round of the standard. */
  function Round(s: Words, k: bv32, w: bv32): Words {
    var t1 := Sum5(s.h, Sigma1(s.e), Choose(s.e, s.f, s.g), k, w);
    var t2 := Sum2(Sigma0(s.a), Majority(s.a, s.b, s.c));
    Words(Sum2(t1, t2), s.a, s.b, s.c, Sum2(s.d, t1), s.e, s.f, s.g)
  }

  function Load32(a: bv8, b: bv8, c: bv8, d: bv8): bv32 {
    ((a as bv32) << 24) | ((b as bv32) << 16) | ((c as bv32) << 8) | (d as bv32)
  }

  function Word(block: seq<bv8>, t: nat): bv32
    requires |block| == 64 && t < 16
  {
    Load32(block[4 * t], block[4 * t + 1], block[4 * t + 2], block[4 * t + 3])
  }

  /** The message schedule, word by word. */
  function NextWord(w: seq<bv32>, block: seq<bv8>): bv32
    requires |block| == 64
  {
    var t := |w|;
    if t < 16 then Word(block, t) else Sum4(Gamma1(w[t - 2]), w[t - 7], Gamma0(w[t - 15]), w[t - 16])
  }

  /** The schedule completed from its first words. */
  function Expand(w: seq<bv32>, block: seq<bv8>): (r: seq<bv32>)
    requires |block| == 64 && |w| <= 64
    ensures |r| == 64
    decreases 64 - |w|
  {
    if |w| == 64 then w else Expand(w + [NextWord(w, block)], block)
  }

  function Rounds(s: Words, w: seq<bv32>): Words
    requires |w| <= 64
  {
    if w == [] then s else var t := |w| - 1; Round(Rounds(s, w[..t]), K[t], w[t])
  }

  function Add(s: Words, t: Words): Words {
    Words(Sum2(s.a, t.a), Sum2(s.b, t.b), Sum2(s.c, t.c), Sum2(s.d, t.d), Sum2(s.e, t.e), Sum2(s.f, t.f),
          Sum2(s.g, t.g), Sum2(s.h, t.h))
  }

  type Chunk = s: seq<bv8> | |s| == 64 witness seq(64, _ => 0)

  /** A compression function. */
  type Compression = (Words, Chunk) -> Words

  function Compress(s: Words, block: Chunk): Words {
    Add(s, Rounds(s, Expand([], block)))
  }

  /** The blocks of a whole number of blocks, one after the other. */
  function Fold(f: Compression, data: seq<bv8>): Words
    requires |data| % 64 == 0
  {
    if data == [] then IV else f(Fold(f, data[..|data| - 64]), data[|data| - 64..])
  }

  function Store64(n: nat): (s: seq<bv8>)
    requires n < 0x1_0000_0000_0000_0000
    ensures |s| == 8
  {
    seq(8, i requires 0 <= i < 8 => ByteAt(n, 7 - i))
  }

  function ByteAt(n: nat, i: nat): bv8
    decreases i
  {
    if i == 0 then (n % 256) as bv8 else ByteAt(n / 256, i - 1)
  }

  function Zeros(n: nat): (s: seq<bv8>)
    ensures |s| == n
  {
    seq(n, _ => 0)
  }

  /** The number of zero bytes: the least that ends the last block. */
  function ZeroCount(n: nat): (k: nat)
    ensures k < 64 && (n + 1 + k) % 64 == 56
  {
    (119 - n % 64) % 64
  }

  /** Section 5.1.1; the length field counts bits modulo 2^64. */
  function Pad(m: seq<bv8>): (p: seq<bv8>)
    ensures |p| % 64 == 0
  {
    WholeBlocks(|m| + 1 + ZeroCount(|m|));
    m + [0x80] + Zeros(ZeroCount(|m|)) + Store64(8 * |m| % 0x1_0000_0000_0000_0000)
  }

  lemma WholeBlocks(n: nat)
    requires n % 64 == 56
    ensures (n + 8) % 64 == 0
  {
  }

  function Store32(w: bv32): (s: seq<bv8>)
    ensures |s| == 4
  {
    [((w >> 24) & 255) as bv8, ((w >> 16) & 255) as bv8, ((w >> 8) & 255) as bv8, (w & 255) as bv8]
  }

  function Bytes(s: Words): (d: seq<bv8>)
    ensures |d| == 32
  {
    Store32(s.a) + Store32(s.b) + Store32(s.c) + Store32(s.d) + Store32(s.e) + Store32(s.f) + Store32(s.g) +
      Store32(s.h)
  }

  function Sha256Compression(): Compression { (s: Words, b: Chunk) => Compress(s, b) }

  /** SHA-256 of a message. */
  function Hash(m: seq<bv8>): (d: seq<bv8>)
    ensures |d| == 32
  {
    Bytes(Fold(Sha256Compression(), Pad(m)))
  }

  // ---------------------------------------------------------------------------------------------
  // The compression function in place
  // ---------------------------------------------------------------------------------------------

  ghost function Registers(s: array<bv32>): Words
    requires s.Length == 8
    reads s
  {
    Words(s[0], s[1], s[2], s[3], s[4], s[5], s[6], s[7])
  }

  /** Sha256Round and the rotation of the registers behind it. */
  method RoundInPlace(s: array<bv32>, k: bv32, w: bv32)
    requires s.Length == 8
    modifies s
    ensures Registers(s) == Round(old(Registers(s)), k, w)
  {
    ChIsChoose(s[4], s[5], s[6]);
    MajIsMajority(s[0], s[1], s[2]);
    var t0 := Sum5(s[7], Sigma1(s[4]), Ch(s[4], s[5], s[6]), k, w);
    var t1 := Sum2(Sigma0(s[0]), Maj(s[0], s[1], s[2]));
    s[3] := Sum2(s[3], t0);
    s[7] := Sum2(t0, t1);
    var t := s[7];
    s[7] := s[6];
    s[6] := s[5];
    s[5] := s[4];
    s[4] := s[3];
    s[3] := s[2];
    s[2] := s[1];
    s[1] := s[0];
    s[0] := t;
  }

  method Fill(w: array<bv32>, block: seq<bv8>)
    requires w.Length == 64 && |block| == 64
    modifies w
    ensures w[..] == Expand([], block)
  {
    assert w[..0] == [];
    for i := 0 to 64
      invariant Expand(w[..i], block) == Expand([], block)
    {
      ghost var done := w[..i];
      if i < 16 {
        w[i] := Word(block, i);
      } else {
        w[i] := Sum4(Gamma1(w[i - 2]), w[i - 7], Gamma0(w[i - 15]), w[i - 16]);
      }
      assert w[..i + 1] == done + [w[i]];
    }
    assert w[..64] == w[..];
  }

  /** The 64 rounds. */
  method Compressing(s: array<bv32>, w: seq<bv32>)
    requires s.Length == 8 && |w| == 64
    modifies s
    ensures Registers(s) == Rounds(old(Registers(s)), w)
  {
    assert w[..0] == [];
    for i := 0 to 64
      invariant Registers(s) == Rounds(old(Registers(s)), w[..i])
    {
      RoundAt(s, old(Registers(s)), w, i);
    }
    assert w[..64] == w;
  }

  method RoundAt(s: array<bv32>, ghost h: Words, w: seq<bv32>, i: nat)
    requires s.Length == 8 && |w| == 64 && i < 64 && Registers(s) == Rounds(h, w[..i])
    modifies s
    ensures Registers(s) == Rounds(h, w[..i + 1])
  {
    assert w[..i + 1][..i] == w[..i];
    RoundInPlace(s, K[i], w[i]);
  }

  /** The working variables in an array. */
  method Spread(h: Words) returns (s: array<bv32>)
    ensures fresh(s) && s.Length == 8 && Registers(s) == h
  {
    s := new bv32[8];
    s[0], s[1], s[2], s[3], s[4], s[5], s[6], s[7] := h.a, h.b, h.c, h.d, h.e, h.f, h.g, h.h;
  }

  method Gather(s: array<bv32>) returns (h: Words)
    requires s.Length == 8
    ensures h == Registers(s)
  {
    h := Words(s[0], s[1], s[2], s[3], s[4], s[5], s[6], s[7]);
  }

  method AllRounds(h: Words, w: seq<bv32>) returns (r: Words)
    requires |w| == 64
    ensures r == Rounds(h, w)
  {
    var s := Spread(h);
    Compressing(s, w);
    r := Gather(s);
  }

  /** TransformFunction */
  method Transform(h: Words, block: Chunk) returns (r: Words)
    ensures r == Compress(h, block)
  {
    var w := new bv32[64];
    Fill(w, block);
    var t := AllRounds(h, w[..]);
    r := Add(h, t);
  }

  // ---------------------------------------------------------------------------------------------
  // The streaming context
  // ---------------------------------------------------------------------------------------------

  lemma FoldAppend(f: Compression, data: seq<bv8>, block: Chunk)
    requires |data| % 64 == 0
    ensures |data + block| % 64 == 0 && Fold(f, data + block) == f(Fold(f, data), block)
  {
    assert (data + block)[..|data|] == data && (data + block)[|data|..] == block;
  }

  const TWO64 := 0x1_0000_0000_0000_0000

  /** A mark to name the inputs for which the compression function is looked into. */
  ghost predicate Input(s: Words, b: Chunk) { true }

  ghost predicate IsSha256(f: Compression) {
    forall s: Words, b: Chunk {:trigger Input(s, b)} :: Input(s, b) ==> f(s, b) == Compress(s, b)
  }

  method RunCompression(ghost f: Compression, s: Words, b: Chunk) returns (r: Words)
    requires IsSha256(f)
    ensures r == f(s, b)
  {
    assert Input(s, b);
    r := Transform(s, b);
  }

  class Context {
    /** The compression function, which the streaming methods need not know. */
    ghost const f: Compression
    var length: nat
    var state: Words
    var curlen: nat
    const buf: array<bv8>
    /** Everything hashed in whole blocks so far. */
    ghost var blocks: seq<bv8>
    /** How often the 64-bit length has wrapped around. */
    ghost var wraps: nat

    ghost predicate Valid()
      reads this
    {
      && buf.Length == 64 && curlen < 64 && IsSha256(f)
      && |blocks| % 64 == 0 && state == Fold(f, blocks) && Counts(|blocks|)
    }

    /** length is the bit count of n bytes, modulo 2^64. */
    ghost predicate Counts(n: nat)
      reads this
    {
      length < TWO64 && length + TWO64 * wraps == 8 * n
    }

    method Count(ghost n: nat, more: nat)
      requires Counts(n) && more <= 64
      modifies this`length, this`wraps
      ensures Counts(n + more)
    {
      length := length + more * 8;
      if length >= TWO64 {
        length := length - TWO64;
        wraps := wraps + 1;
      }
    }

    /** The message given so far. */
    ghost function Message(): seq<bv8>
      reads this, buf
      requires Valid()
    {
      blocks + buf[..curlen]
    }

    /** Sha256Initialise */
    constructor (ghost f: Compression)
      requires IsSha256(f)
      ensures Valid() && Message() == [] && fresh(buf) && this.f == f
    {
      this.f := f;
      length, curlen, state := 0, 0, IV;
      buf := new bv8[64](_ => 0);
      blocks, wraps := [], 0;
    }

    /** A whole block goes through the compression function. */
    method Absorb(block: seq<bv8>)
      requires Valid() && |block| == 64
      modifies this`length, this`wraps, this`state, this`blocks
      ensures Valid() && blocks == old(blocks) + block
    {
      FoldAppend(f, blocks, block);
      state := RunCompression(f, state, block);
      Count(|blocks|, 64);
      blocks := blocks + block;
    }

    /** memcpy into the buffer behind what is there. */
    method Stash(data: seq<bv8>)
      requires buf.Length == 64 && curlen + |data| <= 64
      modifies buf
      ensures buf[..curlen + |data|] == old(buf[..curlen]) + data
    {
      forall i | 0 <= i < |data| { buf[curlen + i] := data[i]; }
    }

    /** One turn of the loop of Sha256Update on data that is left. */
    method Turn(data: seq<bv8>) returns (n: nat)
      requires Valid() && data != []
      modifies this, buf
      ensures Valid() && 0 < n <= |data| && Message() == old(Message()) + data[..n]
    {
      if curlen == 0 && |data| >= 64 {
        n := 64;
        ghost var had := blocks;
        Absorb(data[..64]);
        assert buf[..0] == [] && had + [] + data[..64] == (had + data[..64]) + [];
      } else {
        n := if |data| < 64 - curlen then |data| else 64 - curlen;
        Buffer(data[..n]);
      }
    }

    /** The buffered path: a full buffer is hashed at once. */
    method Buffer(data: seq<bv8>)
      requires Valid() && curlen + |data| <= 64
      modifies this, buf
      ensures Valid() && Message() == old(Message()) + data
    {
      ghost var had, head := buf[..curlen], blocks;
      Stash(data);
      curlen := curlen + |data|;
      AppendTwice(head, had, data);
      if curlen == 64 {
        curlen := 0;
        assert buf[..64] == had + data && buf[..0] == [];
        Absorb(buf[..64]);
        assert (head + (had + data)) + [] == head + (had + data);
      }
    }

    /** Sha256Update */
    method Update(data: seq<bv8>)
      requires Valid() && |data| < 0x1_0000_0000
      modifies this, buf
      ensures Valid() && Message() == old(Message()) + data
    {
      var rest := data;
      ghost var whole := Message() + data;
      while rest != []
        invariant Valid() && Message() + rest == whole
        decreases |rest|
      {
        ghost var m := Message();
        var n := Turn(rest);
        Shift(m, rest, n);
        rest := rest[n..];
      }
    }

    /** The loops that append zero bytes. */
    method ZeroUpTo(limit: nat)
      requires buf.Length == 64 && curlen <= limit <= 64
      modifies this`curlen, buf
      ensures curlen == limit && buf[..limit] == old(buf[..curlen]) + Zeros(limit - old(curlen))
    {
      ghost var start, had := curlen, buf[..curlen];
      while curlen < limit
        invariant start <= curlen <= limit && buf[..curlen] == had + Zeros(curlen - start)
      {
        buf[curlen] := 0;
        curlen := curlen + 1;
        assert buf[..curlen] == had + Zeros(curlen - 1 - start) + [0];
      }
    }

    /** The length is brought up to date and the '1' bit appended; a buffer without room for the
        length is filled up with zeros and hashed. */
    method MarkEnd()
      requires Valid()
      modifies this, buf
      ensures buf.Length == 64 && IsSha256(f) && curlen <= 56 && |blocks| % 64 == 0 && state == Fold(f, blocks)
      ensures Counts(|old(Message())|) && curlen == if old(curlen) < 56 then old(curlen) + 1 else 0
      ensures blocks + buf[..curlen] ==
              old(Message()) + [0x80] + Zeros(if old(curlen) < 56 then 0 else 63 - old(curlen))
    {
      ghost var m := Message();
      Count(|blocks|, curlen);
      ghost var tail := buf[..curlen];
      buf[curlen] := 0x80;
      curlen := curlen + 1;
      assert buf[..curlen] == tail + [0x80];
      AppendTwice(blocks, tail, [0x80]);
      assert m + [0x80] + Zeros(0) == m + [0x80];
      if curlen > 56 {
        SpillOver(m + [0x80]);
      }
    }

    /** A buffer without room for the length is filled up with zeros and hashed. */
    method SpillOver(ghost m: seq<bv8>)
      requires buf.Length == 64 && IsSha256(f) && 56 < curlen <= 64 && |blocks| % 64 == 0 && state == Fold(f, blocks)
      requires blocks + buf[..curlen] == m
      modifies this`curlen, this`state, this`blocks, buf
      ensures curlen == 0 && |blocks| % 64 == 0 && state == Fold(f, blocks)
      ensures blocks + buf[..0] == m + Zeros(64 - old(curlen))
    {
      ghost var had, k := buf[..curlen], 64 - curlen;
      ZeroUpTo(64);
      assert buf[..] == buf[..64];
      FoldAppend(f, blocks, buf[..]);
      AppendTwice(blocks, had, Zeros(k));
      blocks := blocks + buf[..];
      state := RunCompression(f, state, buf[..]);
      curlen := 0;
    }

    /** The length goes into the last eight bytes, and the last block is hashed. */
    method Close()
      requires buf.Length == 64 && IsSha256(f) && curlen == 56 && |blocks| % 64 == 0 && state == Fold(f, blocks) &&
               length < TWO64
      modifies this, buf
      ensures |blocks| % 64 == 0 && state == Fold(f, blocks) &&
              blocks == old(blocks) + old(buf[..56]) + Store64(old(length))
    {
      ghost var had := buf[..56];
      var field := Store64(length);
      forall i | 0 <= i < 8 { buf[56 + i] := field[i]; }
      assert buf[..] == had + field;
      FoldAppend(f, blocks, buf[..]);
      blocks := blocks + buf[..];
      state := RunCompression(f, state, buf[..]);
    }

    /** Sha256Finalise */
    method Finalise() returns (digest: seq<bv8>)
      requires Valid()
      modifies this, buf
      ensures digest == Bytes(Fold(f, Pad(old(Message()))))
    {
      ghost var m, c := Message(), curlen;
      MarkEnd();
      ghost var k: nat := if c < 56 then 0 else 63 - c;
      ghost var head, had, more := blocks, buf[..curlen], 56 - curlen;
      ZeroUpTo(56);
      ZerosNeeded(|head|, |m|, c, k, more);
      PaddedMessage(m, head, had, k, more, buf[..56]);
      Wrapped(length, wraps, 8 * |m|);
      Close();
      digest := Bytes(state);
    }
  }

  lemma ZerosNeeded(head: nat, m: nat, c: nat, k: nat, more: nat)
    requires head % 64 == 0 && c < 64 && k == (if c < 56 then 0 else 63 - c) && more == (if c < 56 then 55 - c else 56)
    requires head + (56 - more) == m + 1 + k
    ensures k + more == ZeroCount(m)
  {
  }

  lemma PaddedMessage(m: seq<bv8>, head: seq<bv8>, had: seq<bv8>, k: nat, more: nat, end: seq<bv8>)
    requires head + had == m + [0x80] + Zeros(k) && end == had + Zeros(more) && k + more == ZeroCount(|m|)
    ensures head + end + Store64(8 * |m| % TWO64) == Pad(m)
  {
    assert Zeros(k) + Zeros(more) == Zeros(k + more);
    assert head + end == (head + had) + Zeros(more);
  }

  lemma Shift(m: seq<bv8>, rest: seq<bv8>, n: nat)
    requires n <= |rest|
    ensures m + rest[..n] + rest[n..] == m + rest
  {
  }

  lemma Wrapped(length: nat, wraps: nat, total: nat)
    requires length < TWO64 && length + TWO64 * wraps == total
    ensures length == total % TWO64
  {
  }

  /** For any way of cutting a message into updates the digest is that of the whole. */
  method HashPieces(pieces: seq<seq<bv8>>) returns (digest: seq<bv8>)
    requires forall i :: 0 <= i < |pieces| ==> |pieces[i]| < 0x1_0000_0000
    ensures digest == Hash(Joined(pieces))
  {
    ghost var f := Sha256Compression();
    var context := new Context(f);
    assert pieces[..0] == [];
    for i := 0 to |pieces|
      invariant context.Valid() && fresh(context) && fresh(context.buf) && context.f == f
      invariant context.Message() == Joined(pieces[..i])
    {
      context.Update(pieces[i]);
      assert pieces[..i + 1][..i] == pieces[..i];
    }
    assert pieces[..|pieces|] == pieces;
    digest := context.Finalise();
  }

  function Joined(pieces: seq<seq<bv8>>): seq<bv8> {
    if pieces == [] then [] else Joined(pieces[..|pieces| - 1]) + pieces[|pieces| - 1]
  }

  /** Sha256Calculate */
  method Calculate(m: seq<bv8>) returns (digest: seq<bv8>)
    requires |m| < 0x1_0000_0000
    ensures digest == Hash(m)
  {
    var context := new Context(Sha256Compression());
    context.Update(m);
    assert [] + m == m;
    digest := context.Finalise();
  }
}
