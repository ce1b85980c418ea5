/**
 The two modes of operation, ECB and CBC, with zero padding for a message shorter than one block
 and ciphertext stealing for a longer message whose last block is partial (variant CS2 of the
 Addendum to NIST SP 800-38A).  The block cipher is any pair of block functions.
*/
module AesModes {
  import opened AesBlock

  datatype Mode = Ecb | Cbc

  /** Bytes produced by a call, and the carry vector it leaves behind. */
  datatype Output = Output(bytes: seq<bv8>, carry: Block)

  function XorBytes(a: seq<bv8>, b: seq<bv8>): (c: seq<bv8>)
    requires |a| == |b|
    ensures |c| == |a|
  {
    seq(|a|, i requires 0 <= i < |a| => a[i] ^ b[i])
  }

  function ZeroPad(m: seq<bv8>): Block
    requires |m| <= 16
  {
    m + seq(16 - |m|, _ => 0)
  }

  /** CBC pre-processing of the input block, or post-processing of the output block. */
  function Chain(mode: Mode, s: Block, carry: Block): Block {
    if mode == Cbc then XorBytes(s, carry) else s
  }

  function NextCarry(mode: Mode, carry: Block, cipherBlock: Block): Block {
    if mode == Cbc then cipherBlock else carry
  }

  /** A message shorter than one block becomes one full ciphertext block. */
  function EncryptShort(enc: Block -> Block, mode: Mode, carry: Block, m: seq<bv8>): (o: Output)
    requires 0 < |m| < 16
    ensures |o.bytes| == 16
  {
    var c := enc(Chain(mode, ZeroPad(m), carry));
    Output(c, NextCarry(mode, carry, c))
  }

  /** The last full block and the partial one behind it: the ciphertext of the full block gives its
      head to the partial position, and its tail is folded into the block that follows. */
  function StealInput(mode: Mode, c: Block, rest: seq<bv8>): Block
    requires 0 < |rest| < 16
  {
    if mode == Cbc then XorBytes(ZeroPad(rest), c) else rest + c[|rest|..]
  }

  function EncryptLong(enc: Block -> Block, mode: Mode, carry: Block, m: seq<bv8>): (o: Output)
    requires |m| == 0 || 16 <= |m|
    ensures |o.bytes| == |m|
    decreases |m|
  {
    if m == [] then Output([], carry)
    else
      var c := enc(Chain(mode, m[..16], carry));
      var carry' := NextCarry(mode, carry, c);
      var rest := m[16..];
      if 0 < |rest| < 16 then
        Output(enc(StealInput(mode, c, rest)) + c[..|rest|], carry')
      else
        var o := EncryptLong(enc, mode, carry', rest);
        Output(c + o.bytes, o.carry)
  }

  function Encrypt(enc: Block -> Block, mode: Mode, carry: Block, m: seq<bv8>): (o: Output)
    ensures |o.bytes| == if 0 < |m| < 16 then 16 else |m|
  {
    if 0 < |m| < 16 then EncryptShort(enc, mode, carry, m) else EncryptLong(enc, mode, carry, m)
  }

  function DecryptShort(dec: Block -> Block, mode: Mode, carry: Block, c: Block, n: nat): (o: Output)
    requires 0 < n < 16
    ensures |o.bytes| == n
  {
    Output(Chain(mode, dec(c), carry)[..n], NextCarry(mode, carry, c))
  }

  function DecryptLong(dec: Block -> Block, mode: Mode, carry: Block, c: seq<bv8>): (o: Output)
    requires |c| == 0 || 16 <= |c|
    ensures |o.bytes| == |c|
    decreases |c|
  {
    if c == [] then Output([], carry)
    else
      var head: Block := c[..16];
      var s := dec(head);
      var carry' := NextCarry(mode, carry, head);
      var rest := c[16..];
      if 0 < |rest| < 16 then
        var tail := if mode == Cbc then XorBytes(s[..|rest|], rest) else s[..|rest|];
        Output(Chain(mode, dec(rest + s[|rest|..]), carry) + tail, carry')
      else
        var o := DecryptLong(dec, mode, carry', rest);
        Output(Chain(mode, s, carry) + o.bytes, o.carry)
  }

  /** `n` is the length of the plaintext; the ciphertext of a short message is a full block. */
  function Decrypt(dec: Block -> Block, mode: Mode, carry: Block, c: seq<bv8>, n: nat): (o: Output)
    requires |c| == if 0 < n < 16 then 16 else n
    ensures |o.bytes| == n
  {
    if 0 < n < 16 then DecryptShort(dec, mode, carry, c, n) else DecryptLong(dec, mode, carry, c)
  }

  // ---------------------------------------------------------------------------------------------
  // Round trip
  // ---------------------------------------------------------------------------------------------

  /** dec is a left inverse of enc. */
  ghost predicate Undoes(dec: Block -> Block, enc: Block -> Block) {
    forall b: Block {:trigger enc(b)} :: dec(enc(b)) == b
  }

  lemma XorBytesTwice(a: seq<bv8>, b: seq<bv8>)
    requires |a| == |b|
    ensures XorBytes(XorBytes(a, b), b) == a
  {
    forall i | 0 <= i < |a|
      ensures XorBytes(XorBytes(a, b), b)[i] == a[i]
    {
      XorTwice(a[i], b[i]);
    }
  }

  lemma ChainTwice(mode: Mode, s: Block, carry: Block)
    ensures Chain(mode, Chain(mode, s, carry), carry) == s
  {
    XorBytesTwice(s, carry);
  }

  lemma ShortRoundTrip(enc: Block -> Block, dec: Block -> Block, mode: Mode, carry: Block, m: seq<bv8>)
    requires Undoes(dec, enc) && 0 < |m| < 16
    ensures var o := EncryptShort(enc, mode, carry, m);
            DecryptShort(dec, mode, carry, o.bytes, |m|) == Output(m, o.carry)
  {
    ChainTwice(mode, ZeroPad(m), carry);
  }

  /** What the thief took and what he left: the stolen block gives back the partial block, and the
      two halves of the full block's ciphertext come together again. */
  lemma StealRecovers(mode: Mode, c: Block, rest: seq<bv8>)
    requires 0 < |rest| < 16
    ensures var s := StealInput(mode, c, rest);
            && (if mode == Cbc then XorBytes(s[..|rest|], c[..|rest|]) else s[..|rest|]) == rest
            && c[..|rest|] + s[|rest|..] == c
  {
    var s, k := StealInput(mode, c, rest), |rest|;
    if mode == Cbc {
      forall i | 0 <= i < k
        ensures XorBytes(s[..k], c[..k])[i] == rest[i]
      {
        XorTwice(rest[i], c[i]);
      }
      forall i | k <= i < 16
        ensures s[i] == c[i]
      {
        XorZero(c[i]);
      }
    }
  }

  lemma XorZero(a: bv8)
    ensures 0 ^ a == a
  {
  }

  lemma {:induction false} LongRoundTrip(enc: Block -> Block, dec: Block -> Block, mode: Mode, carry: Block,
                                         m: seq<bv8>)
    requires Undoes(dec, enc) && (|m| == 0 || 16 <= |m|)
    ensures DecryptLong(dec, mode, carry, EncryptLong(enc, mode, carry, m).bytes).bytes == m
    decreases |m|
  {
    if m != [] {
      var c := enc(Chain(mode, m[..16], carry));
      var rest := m[16..];
      var out := EncryptLong(enc, mode, carry, m).bytes;
      ChainTwice(mode, m[..16], carry);
      assert m == m[..16] + rest;
      if 0 < |rest| < 16 {
        var stolen := enc(StealInput(mode, c, rest));
        assert out[..16] == stolen && out[16..] == c[..|rest|];
        StealRecovers(mode, c, rest);
      } else {
        assert out[..16] == c && out[16..] == EncryptLong(enc, mode, NextCarry(mode, carry, c), rest).bytes;
        LongRoundTrip(enc, dec, mode, NextCarry(mode, carry, c), rest);
      }
    }
  }

  /** For every length, mode and starting carry vector, decryption returns the plaintext. */
  lemma ModeRoundTrip(enc: Block -> Block, dec: Block -> Block, mode: Mode, carry: Block, m: seq<bv8>)
    requires Undoes(dec, enc)
    ensures Decrypt(dec, mode, carry, Encrypt(enc, mode, carry, m).bytes, |m|).bytes == m
  {
    if 0 < |m| < 16 {
      ShortRoundTrip(enc, dec, mode, carry, m);
    } else {
      LongRoundTrip(enc, dec, mode, carry, m);
    }
  }

  // ---------------------------------------------------------------------------------------------
  // Several calls from one setup
  // ---------------------------------------------------------------------------------------------

  /** The stealing path leaves different carry vectors on the two sides, unless the two inputs of
      its two block encryptions happen to be the same block. */
  ghost predicate StealsInKind(enc: Block -> Block, mode: Mode, carry: Block, m: seq<bv8>)
    requires 16 <= |m|
    decreases |m|
  {
    var x := Chain(mode, m[..16], carry);
    var rest := m[16..];
    if |rest| < 16 then 0 < |rest| && x == StealInput(mode, enc(x), rest)
    else StealsInKind(enc, mode, NextCarry(mode, carry, enc(x)), rest)
  }

  ghost predicate CarriesAgree(enc: Block -> Block, dec: Block -> Block, mode: Mode, carry: Block, m: seq<bv8>) {
    var o := Encrypt(enc, mode, carry, m);
    Decrypt(dec, mode, carry, o.bytes, |m|).carry == o.carry
  }

  /** The stealing step itself: the carries agree exactly when both block inputs coincide. */
  lemma LastCarries(enc: Block -> Block, dec: Block -> Block, mode: Mode, carry: Block, m: seq<bv8>)
    requires Undoes(dec, enc) && 16 < |m| < 32
    ensures var o := EncryptLong(enc, mode, carry, m);
            DecryptLong(dec, mode, carry, o.bytes).carry == o.carry <==>
              mode == Ecb || StealsInKind(enc, mode, carry, m)
  {
    var x := Chain(mode, m[..16], carry);
    var c := enc(x);
    var rest := m[16..];
    var out := EncryptLong(enc, mode, carry, m).bytes;
    assert out[..16] == enc(StealInput(mode, c, rest));
    assert dec(enc(StealInput(mode, c, rest))) == StealInput(mode, c, rest) && dec(c) == x;
  }

  /** Decrypting after encrypting in the same chain leaves the same carry. */
  ghost predicate LongAgree(enc: Block -> Block, dec: Block -> Block, mode: Mode, carry: Block, m: seq<bv8>)
    requires |m| == 0 || 16 <= |m|
  {
    var o := EncryptLong(enc, mode, carry, m);
    DecryptLong(dec, mode, carry, o.bytes).carry == o.carry
  }

  /** A full block in front changes nothing about that. */
  lemma FullBlockFirst(enc: Block -> Block, dec: Block -> Block, mode: Mode, carry: Block, m: seq<bv8>)
    requires |m| == 16 || 32 <= |m|
    ensures var next := NextCarry(mode, carry, enc(Chain(mode, m[..16], carry)));
            && LongAgree(enc, dec, mode, carry, m) == LongAgree(enc, dec, mode, next, m[16..])
            && (32 <= |m| ==> StealsInKind(enc, mode, carry, m) == StealsInKind(enc, mode, next, m[16..]))
  {
    var c := enc(Chain(mode, m[..16], carry));
    var out := EncryptLong(enc, mode, carry, m).bytes;
    assert out[..16] == c && out[16..] == EncryptLong(enc, mode, NextCarry(mode, carry, c), m[16..]).bytes;
  }

  lemma SixteenLess(n: nat)
    requires 16 <= n
    ensures n % 16 == 0 <==> (n - 16) % 16 == 0
  {
  }

  lemma {:induction false} LongCarries(enc: Block -> Block, dec: Block -> Block, mode: Mode, carry: Block, m: seq<bv8>)
    requires Undoes(dec, enc) && (|m| == 0 || 16 <= |m|)
    ensures LongAgree(enc, dec, mode, carry, m) <==> mode == Ecb || |m| % 16 == 0 || StealsInKind(enc, mode, carry, m)
    decreases |m|
  {
    if 16 < |m| < 32 {
      LastCarries(enc, dec, mode, carry, m);
    } else if m != [] {
      FullBlockFirst(enc, dec, mode, carry, m);
      LongCarries(enc, dec, mode, NextCarry(mode, carry, enc(Chain(mode, m[..16], carry))), m[16..]);
      SixteenLess(|m|);
    }
  }

  /** The condition, on the message and the carry before it. */
  ghost predicate CarriesOn(enc: Block -> Block, mode: Mode, carry: Block, m: seq<bv8>) {
    mode == Ecb || |m| < 16 || |m| % 16 == 0 || StealsInKind(enc, mode, carry, m)
  }

  /** Exactly when the two sides can go on with a further message after this one. */
  lemma CarryAgreement(enc: Block -> Block, dec: Block -> Block, mode: Mode, carry: Block, m: seq<bv8>)
    requires Undoes(dec, enc)
    ensures CarriesAgree(enc, dec, mode, carry, m) <==> CarriesOn(enc, mode, carry, m)
  {
    if 0 < |m| < 16 {
      ShortRoundTrip(enc, dec, mode, carry, m);
    } else {
      LongCarries(enc, dec, mode, carry, m);
    }
  }

  function EncryptAll(enc: Block -> Block, mode: Mode, carry: Block, ms: seq<seq<bv8>>): (cs: seq<seq<bv8>>)
    ensures |cs| == |ms|
    ensures forall i :: 0 <= i < |ms| ==> |cs[i]| == if 0 < |ms[i]| < 16 then 16 else |ms[i]|
    decreases |ms|
  {
    if ms == [] then []
    else
      var o := Encrypt(enc, mode, carry, ms[0]);
      [o.bytes] + EncryptAll(enc, mode, o.carry, ms[1..])
  }

  function DecryptAll(dec: Block -> Block, mode: Mode, carry: Block, cs: seq<seq<bv8>>, lengths: seq<nat>)
    : seq<seq<bv8>>
    requires |cs| == |lengths|
    requires forall i :: 0 <= i < |cs| ==> |cs[i]| == if 0 < lengths[i] < 16 then 16 else lengths[i]
    decreases |cs|
  {
    if cs == [] then []
    else
      var o := Decrypt(dec, mode, carry, cs[0], lengths[0]);
      [o.bytes] + DecryptAll(dec, mode, o.carry, cs[1..], lengths[1..])
  }

  function Lengths(ms: seq<seq<bv8>>): seq<nat> { seq(|ms|, i requires 0 <= i < |ms| => |ms[i]|) }

  /** Every message but the last leaves the two sides with one carry vector. */
  ghost predicate InStep(enc: Block -> Block, mode: Mode, carry: Block, ms: seq<seq<bv8>>)
    decreases |ms|
  {
    |ms| <= 1 ||
    (CarriesOn(enc, mode, carry, ms[0]) && InStep(enc, mode, Encrypt(enc, mode, carry, ms[0]).carry, ms[1..]))
  }

  /** So it is when only the last one takes the stealing path. */
  lemma {:induction false} FullMessagesInStep(enc: Block -> Block, mode: Mode, carry: Block, ms: seq<seq<bv8>>)
    requires forall i :: 0 <= i < |ms| - 1 ==> mode == Ecb || |ms[i]| < 16 || |ms[i]| % 16 == 0
    ensures InStep(enc, mode, carry, ms)
    decreases |ms|
  {
    if 1 < |ms| {
      FullMessagesInStep(enc, mode, Encrypt(enc, mode, carry, ms[0]).carry, ms[1..]);
    }
  }

  lemma XorSwaps(x: seq<bv8>, a: seq<bv8>)
    requires |x| == |a|
    ensures XorBytes(x, a) == XorBytes(a, x)
  {
    forall i | 0 <= i < |x|
      ensures XorBytes(x, a)[i] == XorBytes(a, x)[i]
    {
      SameXor(x[i], a[i]);
    }
  }

  lemma SameXor(x: bv8, a: bv8)
    ensures x ^ a == a ^ x
  {
  }

  lemma XorCancels(x: seq<bv8>, a: seq<bv8>, b: seq<bv8>)
    requires |x| == |a| == |b| && XorBytes(x, a) == XorBytes(x, b)
    ensures a == b
  {
    XorSwaps(x, a);
    XorSwaps(x, b);
    XorBytesTwice(a, x);
    XorBytesTwice(b, x);
  }

  /** The first block of a message shows the carry vector it was decrypted with. */
  lemma CarryShows(dec: Block -> Block, a: Block, b: Block, c: seq<bv8>)
    requires 16 <= |c| && Decrypt(dec, Cbc, a, c, |c|).bytes == Decrypt(dec, Cbc, b, c, |c|).bytes
    ensures a == b
  {
    var s, rest := dec(c[..16]), c[16..];
    var x := if 0 < |rest| < 16 then dec(rest + s[|rest|..]) else s;
    assert DecryptLong(dec, Cbc, a, c).bytes[..16] == XorBytes(x, a);
    assert DecryptLong(dec, Cbc, b, c).bytes[..16] == XorBytes(x, b);
    XorCancels(x, a, b);
  }

  lemma EncryptAllStep(enc: Block -> Block, mode: Mode, carry: Block, ms: seq<seq<bv8>>)
    requires ms != []
    ensures var o, cs := Encrypt(enc, mode, carry, ms[0]), EncryptAll(enc, mode, carry, ms);
            cs[0] == o.bytes && cs[1..] == EncryptAll(enc, mode, o.carry, ms[1..])
  {
  }

  lemma LengthsStep(ms: seq<seq<bv8>>)
    requires ms != []
    ensures Lengths(ms)[0] == |ms[0]| && Lengths(ms)[1..] == Lengths(ms[1..])
  {
  }

  /** The stream after encryption and decryption. */
  function ThereAndBack(enc: Block -> Block, dec: Block -> Block, mode: Mode, from: Block, to: Block, ms: seq<seq<bv8>>)
    : seq<seq<bv8>>
  {
    DecryptAll(dec, mode, to, EncryptAll(enc, mode, from, ms), Lengths(ms))
  }

  /** The first message comes back, and the others as they are decrypted from then on. */
  lemma FirstComesBack(enc: Block -> Block, dec: Block -> Block, mode: Mode, carry: Block, ms: seq<seq<bv8>>)
    requires Undoes(dec, enc) && ms != []
    ensures ThereAndBack(enc, dec, mode, carry, carry, ms)
         == var o := Encrypt(enc, mode, carry, ms[0]);
            [ms[0]] + ThereAndBack(enc, dec, mode, o.carry, Decrypt(dec, mode, carry, o.bytes, |ms[0]|).carry, ms[1..])
  {
    ModeRoundTrip(enc, dec, mode, carry, ms[0]);
    EncryptAllStep(enc, mode, carry, ms);
    LengthsStep(ms);
  }

  /** Decrypted from another carry vector a stream of at least one block does not come back. */
  lemma WrongCarry(enc: Block -> Block, dec: Block -> Block, carry: Block, wrong: Block, ms: seq<seq<bv8>>)
    requires Undoes(dec, enc) && ms != [] && 16 <= |ms[0]| && wrong != carry
    ensures ThereAndBack(enc, dec, Cbc, carry, wrong, ms) != ms
  {
    var cs := EncryptAll(enc, Cbc, carry, ms);
    ModeRoundTrip(enc, dec, Cbc, carry, ms[0]);
    if Decrypt(dec, Cbc, wrong, cs[0], |ms[0]|).bytes == ms[0] {
      CarryShows(dec, wrong, carry, cs[0]);
    }
  }

  /** A stream of messages comes back if the two sides stay in step; and only then, if every message behind
      the first has at least a block to show it. */
  lemma {:induction false} StreamRoundTrip(enc: Block -> Block, dec: Block -> Block, mode: Mode, carry: Block,
                                           ms: seq<seq<bv8>>)
    requires Undoes(dec, enc)
    ensures var back := ThereAndBack(enc, dec, mode, carry, carry, ms);
            && (InStep(enc, mode, carry, ms) ==> back == ms)
            && (back == ms && (forall i :: 0 < i < |ms| ==> 16 <= |ms[i]|) ==> InStep(enc, mode, carry, ms))
    decreases |ms|
  {
    if ms != [] {
      FirstComesBack(enc, dec, mode, carry, ms);
      assert ms == [ms[0]] + ms[1..];
      if 1 < |ms| {
        var o := Encrypt(enc, mode, carry, ms[0]);
        CarryAgreement(enc, dec, mode, carry, ms[0]);
        StreamRoundTrip(enc, dec, mode, o.carry, ms[1..]);
        if !CarriesOn(enc, mode, carry, ms[0]) && 16 <= |ms[1]| {
          WrongCarry(enc, dec, o.carry, Decrypt(dec, mode, carry, o.bytes, |ms[0]|).carry, ms[1..]);
        }
      }
    }
  }

  /** The condition is not idle: for every cipher, carry vector and block there are 255 of 256 bytes that,
      sent behind the block, leave the two sides with different carry vectors. */
  lemma StealingSplitsCarries(enc: Block -> Block, dec: Block -> Block, carry: Block, head: Block, t: bv8)
    requires Undoes(dec, enc)
    requires var x := Chain(Cbc, head, carry); t != x[0] ^ enc(x)[0]
    ensures !CarriesAgree(enc, dec, Cbc, carry, head + [t])
  {
    var m := head + [t];
    CarryAgreement(enc, dec, Cbc, carry, m);
    assert m[..16] == head && m[16..] == [t];
    var x := Chain(Cbc, head, carry);
    var y := StealInput(Cbc, enc(x), [t]);
    assert y[0] == t ^ enc(x)[0];
    if x == y {
      XorTwice(t, enc(x)[0]);
    }
  }
}
