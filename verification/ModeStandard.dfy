/**
 The two modes against NIST SP 800-38A, block by block, and ciphertext stealing against the chain over the
 padded message.
*/
module ModeStandard {
  import opened AesBlock
  import opened AesModes

  /** Block i of the data. */
  function BlockAt(m: seq<bv8>, i: nat): Block
    requires 16 * i + 16 <= |m|
  {
    m[16 * i..16 * i + 16]
  }

  lemma BlockBehind(m: seq<bv8>, i: nat)
    requires 0 < i && 16 * i + 16 <= |m|
    ensures BlockAt(m, i) == BlockAt(m[16..], i - 1)
  {
  }

  /** The addition of the chaining mode is bit by bit. */
  lemma XorBytesEach(a: seq<bv8>, b: seq<bv8>, i: nat)
    requires |a| == |b| && i < |a|
    ensures XorBytes(a, b)[i] == a[i] ^ b[i]
  {
    var c := XorBytes(a, b);
    assert c[i] == a[i] ^ b[i];
  }

  /** Block i of the output, from the input and what came before it. */
  predicate Chained(enc: Block -> Block, mode: Mode, carry: Block, m: seq<bv8>, c: seq<bv8>, i: nat)
    requires 16 * i + 16 <= |m| == |c|
  {
    BlockAt(c, i) ==
    if mode == Ecb then enc(BlockAt(m, i))
    else enc(XorBytes(BlockAt(m, i), if i == 0 then carry else BlockAt(c, i - 1)))
  }

  /** Sections 6.1 and 6.2: every block is encrypted on its own in the one mode, and added to the ciphertext block
      before it, or to the initial vector, in the other. */
  lemma {:induction false} BlocksAreChained(enc: Block -> Block, mode: Mode, carry: Block, m: seq<bv8>, i: nat)
    requires |m| % 16 == 0 && 16 * i + 16 <= |m|
    ensures Chained(enc, mode, carry, m, Encrypt(enc, mode, carry, m).bytes, i)
    decreases |m|
  {
    FirstBlock(enc, mode, carry, m);
    if 0 < i {
      var c := enc(Chain(mode, m[..16], carry));
      SixteenLess(|m|);
      BlocksAreChained(enc, mode, NextCarry(mode, carry, c), m[16..], i - 1);
      ChainedBehind(enc, mode, carry, m, Encrypt(enc, mode, carry, m).bytes, c, i);
    }
  }

  lemma FirstBlock(enc: Block -> Block, mode: Mode, carry: Block, m: seq<bv8>)
    requires |m| % 16 == 0 && 16 <= |m|
    ensures var o, c := Encrypt(enc, mode, carry, m).bytes, enc(Chain(mode, m[..16], carry));
            && o[..16] == c && o[16..] == Encrypt(enc, mode, NextCarry(mode, carry, c), m[16..]).bytes
            && BlockAt(o, 0) == c && BlockAt(m, 0) == m[..16]
  {
    SixteenLess(|m|);
  }

  lemma ChainedBehind(enc: Block -> Block, mode: Mode, carry: Block, m: seq<bv8>, o: seq<bv8>, c: Block, i: nat)
    requires 0 < i && 16 * i + 16 <= |m| == |o| && o[..16] == c
    requires Chained(enc, mode, NextCarry(mode, carry, c), m[16..], o[16..], i - 1)
    ensures Chained(enc, mode, carry, m, o, i)
  {
    BlockBehind(m, i);
    BlockBehind(o, i);
    if 1 < i {
      BlockBehind(o, i - 1);
    }
  }

  /** A message shorter than a block is filled up with zeros. */
  lemma ShortIsPadded(enc: Block -> Block, mode: Mode, carry: Block, m: seq<bv8>)
    requires 0 < |m| < 16
    ensures Encrypt(enc, mode, carry, m) == Encrypt(enc, mode, carry, m + Zeros(16 - |m|))
  {
    var p := m + Zeros(16 - |m|);
    assert p[..16] == p == ZeroPad(m) && p[16..] == [];
    var b := enc(Chain(mode, ZeroPad(m), carry));
    var c: seq<bv8> := b;
    assert c + [] == c;
    assert EncryptLong(enc, mode, NextCarry(mode, carry, b), p[16..]) == Output([], NextCarry(mode, carry, b));
  }

  /** The last two blocks change places, and of the one that comes to stand last the first r bytes stay. */
  function Swapped(c: seq<bv8>, r: nat): seq<bv8>
    requires 32 <= |c| && r <= 16
  {
    var n := |c| - 16;
    c[..n - 16] + c[n..] + c[n - 16..n - 16 + r]
  }

  /** Stealing in the chaining mode: the message is filled up with zeros and chained, the last two blocks change
      places, and as many bytes are cut off as were filled in. */
  lemma StealingSwaps(enc: Block -> Block, carry: Block, m: seq<bv8>)
    requires 16 < |m| && |m| % 16 != 0
    ensures Encrypt(enc, Cbc, carry, m).bytes ==
            Swapped(Encrypt(enc, Cbc, carry, m + Zeros(16 - |m| % 16)).bytes, |m| % 16)
  {
    PaddedSwaps(enc, carry, m, |m| / 16, |m| % 16, m + Zeros(16 - |m| % 16));
  }

  function Zeros(n: nat): (z: seq<bv8>)
    ensures |z| == n
  {
    seq(n, _ => 0)
  }

  lemma {:induction false} PaddedSwaps(enc: Block -> Block, carry: Block, m: seq<bv8>, k: nat, r: nat, p: seq<bv8>)
    requires 0 < k && 0 < r < 16 && |m| == 16 * k + r && p == m + Zeros(16 - r)
    ensures Encrypt(enc, Cbc, carry, m).bytes == Swapped(Encrypt(enc, Cbc, carry, p).bytes, r)
    decreases k
  {
    if k == 1 {
      StealLast(enc, carry, m, p);
    } else {
      var c := enc(Chain(Cbc, m[..16], carry));
      PaddedSwaps(enc, c, m[16..], k - 1, r, p[16..]);
      WholeBlocks(k);
      FirstBlock(enc, Cbc, carry, p);
      assert p[..16] == m[..16];
      SwappedBehind(Encrypt(enc, Cbc, carry, p).bytes, c, r);
    }
  }

  lemma WholeBlocks(k: nat)
    ensures (16 * k + 16) % 16 == 0
  {
  }

  lemma SwappedBehind(o: seq<bv8>, c: Block, r: nat)
    requires 48 <= |o| && r <= 16 && o[..16] == c
    ensures Swapped(o, r) == c + Swapped(o[16..], r)
  {
  }

  lemma StealLast(enc: Block -> Block, carry: Block, m: seq<bv8>, p: seq<bv8>)
    requires 16 < |m| < 32 && p == m + Zeros(32 - |m|)
    ensures Encrypt(enc, Cbc, carry, m).bytes == Swapped(Encrypt(enc, Cbc, carry, p).bytes, |m| - 16)
  {
    var c := enc(Chain(Cbc, m[..16], carry));
    var rest := m[16..];
    assert p[..16] == m[..16] && p[16..] == ZeroPad(rest) && p[16..][..16] == p[16..] && p[16..][16..] == [];
    var last := enc(XorBytes(ZeroPad(rest), c));
    assert EncryptLong(enc, Cbc, c, p[16..]).bytes == last + [];
    var both: seq<bv8> := c;
    both := both + last;
    assert Encrypt(enc, Cbc, carry, p).bytes == both;
  }

  /** Stealing in the other mode: the partial block takes the end of the ciphertext block before it, whose beginning
      comes to stand behind. */
  lemma StealingBorrows(enc: Block -> Block, carry: Block, m: seq<bv8>)
    requires 16 < |m| && |m| % 16 != 0
    ensures Borrowed(enc, carry, m, |m| - |m| % 16)
  {
    RestBorrows(enc, carry, m, |m| / 16, |m| % 16);
  }

  predicate Borrowed(enc: Block -> Block, carry: Block, m: seq<bv8>, n: nat)
    requires 16 <= n <= |m| < n + 16
  {
    var c := enc(m[n - 16..n]);
    Encrypt(enc, Ecb, carry, m).bytes ==
    Encrypt(enc, Ecb, carry, m[..n - 16]).bytes + enc(m[n..] + c[|m| - n..]) + c[..|m| - n]
  }

  lemma {:induction false} RestBorrows(enc: Block -> Block, carry: Block, m: seq<bv8>, k: nat, r: nat)
    requires 0 < k && 0 < r < 16 && |m| == 16 * k + r
    ensures Borrowed(enc, carry, m, 16 * k)
    decreases k
  {
    if k == 1 {
      OneBorrows(enc, carry, m);
    } else {
      RestBorrows(enc, carry, m[16..], k - 1, r);
      WholeBlocks(k - 2);
      BorrowedOn(enc, carry, m, 16 * k);
    }
  }

  lemma OneBorrows(enc: Block -> Block, carry: Block, m: seq<bv8>)
    requires 16 < |m| < 32
    ensures Borrowed(enc, carry, m, 16)
  {
    assert m[..0] == [] && m[0..16] == m[..16];
  }

  /** A block in front is encrypted on its own. */
  lemma EncryptOn(enc: Block -> Block, carry: Block, m: seq<bv8>)
    requires 32 <= |m|
    ensures Encrypt(enc, Ecb, carry, m).bytes == enc(m[..16]) + Encrypt(enc, Ecb, carry, m[16..]).bytes
  {
  }

  lemma BorrowedOn(enc: Block -> Block, carry: Block, m: seq<bv8>, n: nat)
    requires 32 <= n < |m| < n + 16 && (n - 16) % 16 == 0 && Borrowed(enc, carry, m[16..], n - 16)
    ensures Borrowed(enc, carry, m, n)
  {
    BorrowedBehind(enc, carry, m, n);
    EncryptOn(enc, carry, m);
    var c := enc(m[n - 16..n]);
    FourJoin(enc(m[..16]), Encrypt(enc, Ecb, carry, m[16..][..n - 32]).bytes,
             enc(m[n..] + c[|m| - n..]), c[..|m| - n],
             Encrypt(enc, Ecb, carry, m[..n - 16]).bytes, Encrypt(enc, Ecb, carry, m[16..]).bytes);
  }

  lemma FourJoin(a: seq<bv8>, b: seq<bv8>, c: seq<bv8>, d: seq<bv8>, ab: seq<bv8>, bcd: seq<bv8>)
    requires ab == a + b && bcd == b + c + d
    ensures a + bcd == ab + c + d
  {
  }

  lemma SlicesBehind(m: seq<bv8>, n: nat)
    requires 32 <= n <= |m|
    ensures m[16..][..n - 32] == m[..n - 16][16..] && m[16..][n - 32..n - 16] == m[n - 16..n]
    ensures m[16..][n - 16..] == m[n..] && m[..n - 16][..16] == m[..16]
  {
  }

  lemma BorrowedBehind(enc: Block -> Block, carry: Block, m: seq<bv8>, n: nat)
    requires 32 <= n <= |m| && (n - 16) % 16 == 0
    ensures m[16..][..n - 32] == m[..n - 16][16..] && m[16..][n - 32..n - 16] == m[n - 16..n]
    ensures m[16..][n - 16..] == m[n..]
    ensures Encrypt(enc, Ecb, carry, m[..n - 16]).bytes ==
            enc(m[..16]) + Encrypt(enc, Ecb, carry, m[16..][..n - 32]).bytes
  {
    var front := m[..n - 16];
    SlicesBehind(m, n);
    FirstBlock(enc, Ecb, carry, front);
    var o := Encrypt(enc, Ecb, carry, front).bytes;
    assert o == o[..16] + o[16..];
  }

  /** A message may be cut between two blocks: the second call goes on where the first one left the vector, so that
      the two outputs are the output of one call, and the vector left is the same. */
  lemma {:induction false} CutsDoNotShow(enc: Block -> Block, mode: Mode, carry: Block, m: seq<bv8>, rest: seq<bv8>,
                                         k: nat)
    requires |m| == 16 * k && (rest == [] || 16 <= |rest|)
    ensures var o := Encrypt(enc, mode, carry, m);
            var p := Encrypt(enc, mode, o.carry, rest);
            Encrypt(enc, mode, carry, m + rest) == Output(o.bytes + p.bytes, p.carry)
    decreases k
  {
    var all := m + rest;
    if k == 0 {
      assert all == rest;
      assert [] + Encrypt(enc, mode, carry, rest).bytes == Encrypt(enc, mode, carry, rest).bytes;
    } else {
      var c := enc(Chain(mode, m[..16], carry));
      var next := NextCarry(mode, carry, c);
      assert all[..16] == m[..16] && all[16..] == m[16..] + rest;
      CutsDoNotShow(enc, mode, next, m[16..], rest, k - 1);
      var o := EncryptLong(enc, mode, next, m[16..]);
      BytesRegroup(c, o.bytes, Encrypt(enc, mode, o.carry, rest).bytes);
    }
  }

  lemma BytesRegroup(c: Block, a: seq<bv8>, b: seq<bv8>)
    ensures c + (a + b) == (c + a) + b
  {
  }
}
