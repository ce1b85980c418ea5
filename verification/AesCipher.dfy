/**
 The AES object: key schedule, state and carry vector are fixed buffers that every step rewrites in
 place.  Each method is tied to the function of AesBlock or AesModes it computes.
*/
module AesCipher {
  import opened Basics
  import opened AesBlock
  import opened AesModes

  /** Four bytes as a word, most significant first, the way shiftRows and addRoundKey build it. */
  function Pack(a: bv8, b: bv8, c: bv8, d: bv8): bv32 {
    ((a as bv32) << 24) + ((b as bv32) << 16) + ((c as bv32) << 8) + (d as bv32)
  }

  function RotWord(w: bv32): bv32 { (w << 8) + (w >> 24) }

  function InvRotWord(w: bv32): bv32 { (w >> 8) + (w << 24) }

  lemma RotPack(a: bv8, b: bv8, c: bv8, d: bv8)
    ensures RotWord(Pack(a, b, c, d)) == Pack(b, c, d, a)
    ensures InvRotWord(Pack(a, b, c, d)) == Pack(d, a, b, c)
  {
  }

  lemma UnpackPack(a: bv8, b: bv8, c: bv8, d: bv8)
    ensures var w := Pack(a, b, c, d);
            KeyByte(w, 0) == a && KeyByte(w, 1) == b && KeyByte(w, 2) == c && KeyByte(w, 3) == d
  {
  }

  lemma UnpackXor0(a: bv8, b: bv8, c: bv8, d: bv8, k: bv32)
    ensures KeyByte(Pack(a, b, c, d) ^ k, 0) == a ^ KeyByte(k, 0)
  {
  }

  lemma UnpackXor1(a: bv8, b: bv8, c: bv8, d: bv8, k: bv32)
    ensures KeyByte(Pack(a, b, c, d) ^ k, 1) == b ^ KeyByte(k, 1)
  {
  }

  lemma UnpackXor2(a: bv8, b: bv8, c: bv8, d: bv8, k: bv32)
    ensures KeyByte(Pack(a, b, c, d) ^ k, 2) == c ^ KeyByte(k, 2)
  {
  }

  lemma UnpackXor3(a: bv8, b: bv8, c: bv8, d: bv8, k: bv32)
    ensures KeyByte(Pack(a, b, c, d) ^ k, 3) == d ^ KeyByte(k, 3)
  {
  }

  /** The program's multiplication loop. */
  method GmulLoop(a0: bv8, b0: bv8) returns (p: bv8)
    ensures p == Gmul(a0, b0)
  {
    var a, b, counter := a0, b0, 0;
    p := 0;
    while counter < 8
      invariant 0 <= counter <= 8
      invariant GmulFrom(p, a, b, counter) == Gmul(a0, b0)
    {
      GmulUnfold(p, a, b, counter);
      if b & 1 != 0 {
        p := p ^ a;
      }
      a := Doubled(a);
      b := b >> 1;
      counter := counter + 1;
    }
  }

  lemma GmulUnfold(p: bv8, a: bv8, b: bv8, counter: nat)
    requires counter < 8
    ensures GmulFrom(p, a, b, counter) == GmulFrom(if b & 1 != 0 then p ^ a else p, XTime(a), b >> 1, counter + 1)
  {
  }

  method Doubled(a0: bv8) returns (a: bv8)
    ensures a == XTime(a0)
  {
    var carry := a0 & 0x80;
    a := a0 << 1;
    if carry != 0 {
      a := a ^ 0x1B;
    }
  }

  /** mul: one column through the MixColumns matrix. */
  method Mul(t0: bv8, t1: bv8, t2: bv8, t3: bv8) returns (r0: bv8, r1: bv8, r2: bv8, r3: bv8)
    ensures r0 == MixByte(t0, t1, t2, t3) && r1 == MixByte(t1, t2, t3, t0)
    ensures r2 == MixByte(t2, t3, t0, t1) && r3 == MixByte(t3, t0, t1, t2)
  {
    r0 := MulRow(t0, t1, t2, t3);
    r1 := MulRow(t1, t2, t3, t0);
    r2 := MulRow(t2, t3, t0, t1);
    r3 := MulRow(t3, t0, t1, t2);
  }

  method MulRow(a: bv8, b: bv8, c: bv8, d: bv8) returns (r: bv8)
    ensures r == MixByte(a, b, c, d)
  {
    var p := GmulLoop(a, 2);
    var q := GmulLoop(b, 3);
    r := Xor4(p, q, c, d);
    GmulBy2(a);
    GmulBy3(b);
    MixByteIsMatrixRow(a, b, c, d);
  }

  method InvMul(t0: bv8, t1: bv8, t2: bv8, t3: bv8) returns (r0: bv8, r1: bv8, r2: bv8, r3: bv8)
    ensures r0 == InvMixByte(t0, t1, t2, t3) && r1 == InvMixByte(t1, t2, t3, t0)
    ensures r2 == InvMixByte(t2, t3, t0, t1) && r3 == InvMixByte(t3, t0, t1, t2)
  {
    r0 := InvMulRow(t0, t1, t2, t3);
    r1 := InvMulRow(t1, t2, t3, t0);
    r2 := InvMulRow(t2, t3, t0, t1);
    r3 := InvMulRow(t3, t0, t1, t2);
  }

  method InvMulRow(a: bv8, b: bv8, c: bv8, d: bv8) returns (r: bv8)
    ensures r == InvMixByte(a, b, c, d)
  {
    var p := GmulLoop(a, 0x0E);
    var q := GmulLoop(b, 0x0B);
    var u := GmulLoop(c, 0x0D);
    var v := GmulLoop(d, 9);
    r := Xor4(p, q, u, v);
    GmulBy14(a);
    GmulBy11(b);
    GmulBy13(c);
    GmulBy9(d);
    InvMixByteIsMatrixRow(a, b, c, d);
  }

  const RCON: seq<bv32> := [0x01000000, 0x02000000, 0x04000000, 0x08000000, 0x10000000,
                            0x20000000, 0x40000000, 0x80000000, 0x1B000000, 0x36000000]

  function SubWord(w: bv32): bv32 {
    Pack(Sbox(KeyByte(w, 0)), Sbox(KeyByte(w, 1)), Sbox(KeyByte(w, 2)), Sbox(KeyByte(w, 3)))
  }

  function Xor32(a: bv32, b: bv32): bv32 { a ^ b }

  function Turned(w: bv32, rcon: bv32): bv32 { Xor32(SubWord(RotWord(w)), rcon) }

  function Rcon(i: nat, nk: nat): bv32
    requires nk in {4, 6, 8} && nk <= i < 4 * (nk + 7)
  {
    RCON[i / nk - 1]
  }

  /** The word XORed into word i of the schedule (section 5.2 of FIPS 197). */
  function ScheduleTemp(previous: bv32, i: nat, nk: nat): bv32
    requires nk in {4, 6, 8} && nk <= i < 4 * (nk + 7)
  {
    if i % nk == 0 then Turned(previous, Rcon(i, nk))
    else if nk > 6 && i % nk == 4 then SubWord(previous)
    else previous
  }

  /** The first n words of the key schedule. */
  function Schedule(key: seq<bv8>, nk: nat, n: nat): (w: seq<bv32>)
    requires nk in {4, 6, 8} && |key| == 4 * nk && n <= 4 * (nk + 7)
    ensures |w| == n
  {
    if n == 0 then []
    else
      var w := Schedule(key, nk, n - 1);
      w + [ScheduleWord(w, key, nk)]
  }

  function ScheduleWord(w: seq<bv32>, key: seq<bv8>, nk: nat): bv32
    requires nk in {4, 6, 8} && |key| == 4 * nk && |w| < 4 * (nk + 7)
  {
    var i := |w|;
    if i < nk then Pack(key[4 * i], key[4 * i + 1], key[4 * i + 2], key[4 * i + 3])
    else Xor32(w[i - nk], ScheduleTemp(w[i - 1], i, nk))
  }

  method NextTemp(previous: bv32, i: nat, nk: nat) returns (temp: bv32)
    requires nk in {4, 6, 8} && nk <= i < 4 * (nk + 7)
    ensures temp == ScheduleTemp(previous, i, nk)
  {
    temp := previous;
    if i % nk == 0 {
      temp := Turned(temp, Rcon(i, nk));
    } else if nk > 6 && i % nk == 4 {
      temp := SubWord(temp);
    }
  }

  /** The block cipher a key schedule stands for, in both directions. */
  function Enciphering(w: seq<bv32>, rounds: nat): Block -> Block
    requires 4 * rounds + 4 <= |w|
  {
    (b: Block) => AesEncrypt(b, w, rounds)
  }

  function Deciphering(w: seq<bv32>, rounds: nat): Block -> Block
    requires 4 * rounds + 4 <= |w|
  {
    (b: Block) => AesDecrypt(b, w, rounds)
  }

  /** Two objects need to agree only on the words of the schedule: what lies behind them is left from
      earlier, longer keys. */
  lemma SameKeyUndoes(w: seq<bv32>, v: seq<bv32>, rounds: nat)
    requires Agree(w, v, 4 * rounds + 4)
    ensures Undoes(Deciphering(v, rounds), Enciphering(w, rounds))
  {
    forall b: Block
      ensures Deciphering(v, rounds)(Enciphering(w, rounds)(b)) == b
    {
      WordsBehindAreIgnored(AesEncrypt(b, w, rounds), v, w, rounds);
      BlockInverse(b, w, rounds);
    }
  }

  /** The round trip for the actual cipher: every key schedule, mode, carry vector and length. */
  lemma CipherRoundTrip(w: seq<bv32>, v: seq<bv32>, rounds: nat, mode: Mode, carry: Block, m: seq<bv8>)
    requires Agree(w, v, 4 * rounds + 4)
    ensures var c := Encrypt(Enciphering(w, rounds), mode, carry, m).bytes;
            Decrypt(Deciphering(v, rounds), mode, carry, c, |m|).bytes == m
  {
    SameKeyUndoes(w, v, rounds);
    ModeRoundTrip(Enciphering(w, rounds), Deciphering(v, rounds), mode, carry, m);
  }

  lemma DecipheringUndoes(w: seq<bv32>, rounds: nat)
    requires 4 * rounds + 4 <= |w|
    ensures Undoes(Deciphering(w, rounds), Enciphering(w, rounds))
  {
    SameKeyUndoes(w, w, rounds);
  }

  /** The carry vectors split with the actual cipher too, under every key schedule. */
  lemma CipherSplitsCarries(w: seq<bv32>, rounds: nat, carry: Block, head: Block, t: bv8)
    requires 4 * rounds + 4 <= |w|
    requires var x := Chain(Cbc, head, carry); t != x[0] ^ Enciphering(w, rounds)(x)[0]
    ensures !CarriesAgree(Enciphering(w, rounds), Deciphering(w, rounds), Cbc, carry, head + [t])
  {
    DecipheringUndoes(w, rounds);
    StealingSplitsCarries(Enciphering(w, rounds), Deciphering(w, rounds), carry, head, t);
  }

  /** A mark to name the blocks for which the cipher is looked into. */
  ghost predicate Input(b: Block) { true }

  ghost predicate Turn(b: Block, r: nat) { true }

  /** y is x with the bytes from d on replaced. */
  ghost predicate Patched(x: seq<bv8>, d: nat, bytes: seq<bv8>, y: seq<bv8>) {
    && d + |bytes| <= |x| == |y|
    && forall i {:trigger y[i]} :: 0 <= i < |x| ==> y[i] == if d <= i < d + |bytes| then bytes[i - d] else x[i]
  }

  lemma PatchNothing(x: seq<bv8>, d: nat)
    requires d <= |x|
    ensures Patched(x, d, [], x)
  {
  }

  lemma PatchPatch(x: seq<bv8>, d: nat, a: seq<bv8>, y: seq<bv8>, e: nat, b: seq<bv8>, z: seq<bv8>)
    requires Patched(x, d, a, y) && Patched(y, e, b, z) && e == d + |a|
    ensures Patched(x, d, a + b, z)
  {
  }

  /** The tail first and the head after it, as the stealing path writes them. */
  lemma PatchBackward(x: seq<bv8>, e: nat, b: seq<bv8>, y: seq<bv8>, d: nat, a: seq<bv8>, z: seq<bv8>)
    requires Patched(x, e, b, y) && Patched(y, d, a, z) && e == d + |a|
    ensures Patched(x, d, a + b, z)
  {
  }

  lemma PatchApart(x: seq<bv8>, d: nat, bytes: seq<bv8>, y: seq<bv8>, s: nat, t: nat)
    requires Patched(x, d, bytes, y) && s <= t <= |x| && (d + |bytes| <= s || t <= d)
    ensures y[s..t] == x[s..t]
  {
  }

  lemma SameTail(w: seq<bv32>, v: seq<bv32>, n: nat)
    requires n <= |w| == |v| && forall j :: n <= j < |w| ==> v[j] == w[j]
    ensures v[n..] == w[n..]
  {
  }

  class Aes {
    var mode: Mode
    var rounds: nat
    const key: array<bv32>
    const state: array<bv8>
    const carry: array<bv8>

    ghost predicate Valid()
      reads this
    {
      key.Length == 60 && state.Length == 16 && carry.Length == 16 && state != carry && rounds <= 14
    }

    constructor ()
      ensures Valid() && fresh(key) && fresh(state) && fresh(carry)
      ensures mode == Ecb && rounds == 0
    {
      mode, rounds := Ecb, 0;
      key := new bv32[60](_ => 0);
      state := new bv8[16](_ => 0);
      carry := new bv8[16](_ => 0);
    }

    /** clear */
    method Clear()
      requires Valid()
      modifies key, state, carry
      ensures Valid()
      ensures key[..] == seq(60, _ => 0) && state[..] == ZeroPad([]) && carry[..] == ZeroPad([])
    {
      forall i | 0 <= i < 60 { key[i] := 0; }
      forall i | 0 <= i < 16 { state[i] := 0; }
      forall i | 0 <= i < 16 { carry[i] := 0; }
    }

    /** expandKey */
    method ExpandKey(k: seq<bv8>, nk: nat)
      requires Valid() && nk in {4, 6, 8} && |k| == 4 * nk && rounds == nk + 6
      modifies key
      ensures key[..4 * (rounds + 1)] == Schedule(k, nk, 4 * (rounds + 1))
      ensures key[4 * (rounds + 1)..] == old(key[4 * (rounds + 1)..])
    {
      CopyKey(k, nk);
      var i := nk;
      while i < 4 * (rounds + 1)
        invariant nk <= i <= 4 * (rounds + 1) && key[..i] == Schedule(k, nk, i)
        invariant Behind(old(key[..]), i)
      {
        NextWord(k, nk, i);
        i := i + 1;
      }
      SameTail(old(key[..]), key[..], i);
    }

    /** The words from i on are still those of w. */
    ghost predicate Behind(w: seq<bv32>, i: nat)
      reads key
    {
      |w| == key.Length && forall j :: i <= j < key.Length ==> key[j] == w[j]
    }

    method NextWord(ghost k: seq<bv8>, nk: nat, i: nat)
      requires Valid() && nk in {4, 6, 8} && |k| == 4 * nk && nk <= i < 4 * (nk + 7)
      requires key[..i] == Schedule(k, nk, i)
      modifies key
      ensures key[..i + 1] == Schedule(k, nk, i + 1) && Behind(old(key[..]), i + 1)
    {
      var temp := NextTemp(key[i - 1], i, nk);
      SetWord(k, nk, i, Xor32(key[i - nk], temp));
    }

    method CopyKey(k: seq<bv8>, nk: nat)
      requires Valid() && nk in {4, 6, 8} && |k| == 4 * nk
      modifies key
      ensures key[..nk] == Schedule(k, nk, nk) && Behind(old(key[..]), nk)
    {
      var i := 0;
      while i < nk
        invariant i <= nk && key[..i] == Schedule(k, nk, i) && Behind(old(key[..]), i)
      {
        KeyWord(k, nk, i);
        i := i + 1;
      }
    }

    method KeyWord(k: seq<bv8>, ghost nk: nat, i: nat)
      requires Valid() && nk in {4, 6, 8} && |k| == 4 * nk && i < nk
      requires key[..i] == Schedule(k, nk, i)
      modifies key
      ensures key[..i + 1] == Schedule(k, nk, i + 1) && Behind(old(key[..]), i + 1)
    {
      SetWord(k, nk, i, Pack(k[4 * i], k[4 * i + 1], k[4 * i + 2], k[4 * i + 3]));
    }

    method SetWord(ghost k: seq<bv8>, ghost nk: nat, i: nat, word: bv32)
      requires Valid() && nk in {4, 6, 8} && |k| == 4 * nk && i < 4 * (nk + 7)
      requires key[..i] == Schedule(k, nk, i) && word == ScheduleWord(key[..i], k, nk)
      modifies key
      ensures key[..i + 1] == Schedule(k, nk, i + 1) && Behind(old(key[..]), i + 1)
    {
      ghost var w := key[..i];
      key[i] := word;
      assert key[..i + 1] == w + [word];
    }

    /** setup, with None for a null pointer */
    method Setup(k: Option<seq<bv8>>, nk: nat, cipherMode: Mode, iv: Option<Block>)
      requires Valid() && nk in {4, 6, 8}
      requires k.Some? ==> |k.value| == 4 * nk
      modifies this, key, carry
      ensures Valid() && mode == cipherMode && rounds == nk + 6
      ensures k == None ==> key[..] == seq(60, _ => 0)
      ensures k.Some? ==> key[..4 * (rounds + 1)] == Schedule(k.value, nk, 4 * (rounds + 1))
                          && key[4 * (rounds + 1)..] == old(key[4 * (nk + 7)..])
      ensures carry[..] == if iv == None then ZeroPad([]) else iv.value
    {
      mode, rounds := cipherMode, nk + 6;
      if k == None {
        forall i | 0 <= i < 60 { key[i] := 0; }
      } else {
        ExpandKey(k.value, nk);
      }
      if iv == None {
        forall i | 0 <= i < 16 { carry[i] := 0; }
      } else {
        forall i | 0 <= i < 16 { carry[i] := iv.value[i]; }
      }
    }

    /** The buffers of a call are the caller's, and either one buffer used in place or two that do
        not overlap. */
    ghost predicate Separate(src: array<bv8>, s: nat, n: nat, dest: array<bv8>, d: nat, k: nat)
      reads this
    {
      && src != state && src != carry && dest != state && dest != carry
      && s + n <= src.Length && d + k <= dest.Length
      && (src == dest ==> s == d || d + k <= s || s + n <= d)
    }

    /** memcpy(m_State, src + s, n) */
    method Load(src: array<bv8>, s: nat, n: nat)
      requires Valid() && src != state && s + n <= src.Length && n <= 16
      modifies state
      ensures state[..] == src[s..s + n] + old(state[n..])
    {
      forall i | 0 <= i < n { state[i] := src[s + i]; }
    }

    method LoadBlock(src: array<bv8>, s: nat, n: nat, ghost m: seq<bv8>)
      requires Valid() && src != state && s + n <= src.Length && 16 <= n && m == src[s..s + n]
      modifies state
      ensures state[..] == m[..16]
    {
      Load(src, s, 16);
    }

    /** memcpy(dest + d, m_State, n) */
    method Store(dest: array<bv8>, d: nat, n: nat)
      requires Valid() && dest != state && d + n <= dest.Length && n <= 16
      modifies dest
      ensures Patched(old(dest[..]), d, state[..n], dest[..])
    {
      forall i | 0 <= i < n { dest[d + i] := state[i]; }
    }

    /** memset(m_State + n, 0, 16 - n) */
    method Pad(n: nat)
      requires Valid() && n <= 16
      modifies state
      ensures state[..] == ZeroPad(old(state[..n]))
    {
      forall i | n <= i < 16 { state[i] := 0; }
    }

    /** The XOR with the carry vector, done in CBC mode only. */
    method ChainState()
      requires Valid()
      modifies state
      ensures state[..] == Chain(mode, old(state[..]), carry[..])
    {
      if mode == Cbc {
        for i := 0 to 16
          invariant forall j :: 0 <= j < i ==> state[j] == old(state[..])[j] ^ carry[j]
          invariant forall j :: i <= j < 16 ==> state[j] == old(state[..])[j]
        {
          state[i] := state[i] ^ carry[i];
        }
      }
    }

    /** The ciphertext block becomes the next carry vector, in CBC mode only. */
    method SaveCarry(src: array<bv8>, s: nat)
      requires Valid() && src != carry && s + 16 <= src.Length
      modifies carry
      ensures carry[..] == NextCarry(mode, old(carry[..]), src[s..s + 16])
    {
      if mode == Cbc {
        forall i | 0 <= i < 16 { carry[i] := src[s + i]; }
      }
    }

    /** The object's key schedule computes enc, and undoes it by dec.  The handlers of the modes
        know no more than this about the cipher. */
    ghost predicate Enciphers(enc: Block -> Block)
      reads this, key
      requires Valid()
    {
      forall b: Block {:trigger Input(b)} :: Input(b) ==> enc(b) == AesEncrypt(b, key[..], rounds)
    }

    ghost predicate Deciphers(dec: Block -> Block)
      reads this, key
      requires Valid()
    {
      forall b: Block {:trigger Input(b)} :: Input(b) ==> dec(b) == AesDecrypt(b, key[..], rounds)
    }

    method RunEncrypt(ghost enc: Block -> Block)
      requires Valid() && Enciphers(enc)
      modifies state
      ensures state[..] == enc(old(state[..]))
    {
      assert Input(state[..]);
      AesEncryptInPlace();
    }

    method RunDecrypt(ghost dec: Block -> Block)
      requires Valid() && Deciphers(dec)
      modifies state
      ensures state[..] == dec(old(state[..]))
    {
      assert Input(state[..]);
      AesDecryptInPlace();
    }

    /** CBC pre-processing, the cipher, CBC post-processing. */
    method EncryptState(ghost enc: Block -> Block)
      requires Valid() && Enciphers(enc)
      modifies state, carry
      ensures state[..] == enc(Chain(mode, old(state[..]), old(carry[..])))
      ensures carry[..] == NextCarry(mode, old(carry[..]), state[..])
    {
      ChainState();
      RunEncrypt(enc);
      SaveCarry(state, 0);
      assert state[0..16] == state[..];
    }

    method EncryptShortBlock(ghost enc: Block -> Block, src: array<bv8>, s: nat, dest: array<bv8>, d: nat, n: nat)
      requires Valid() && Enciphers(enc) && 0 < n < 16 && Separate(src, s, n, dest, d, 16)
      modifies state, carry, dest
      ensures var o := EncryptShort(enc, mode, old(carry[..]), old(src[s..s + n]));
              carry[..] == o.carry && Patched(old(dest[..]), d, o.bytes, dest[..])
    {
      Load(src, s, n);
      assert state[..n] == src[s..s + n];
      Pad(n);
      EncryptState(enc);
      Store(dest, d, 16);
      assert state[..16] == state[..];
    }

    /** The end of the loop body when a partial block follows: the state holds the ciphertext of
        the last full block. */
    method Steal(ghost enc: Block -> Block, src: array<bv8>, s: nat, dest: array<bv8>, d: nat, n: nat)
      requires Valid() && Enciphers(enc) && 0 < n < 16 && dest != state && dest != carry && src != state
      requires s + n <= src.Length && 16 <= d && d + n <= dest.Length
      requires mode == Cbc ==> carry[..] == state[..]
      modifies state, dest
      ensures state[..] == enc(StealInput(mode, old(state[..]), old(src[s..s + n])))
      ensures Patched(old(dest[..]), d, old(state[..n]), dest[..])
    {
      var temp := src[s..s + n];
      Store(dest, d, n);
      PrepareSteal(temp);
      RunEncrypt(enc);
    }

    method PrepareSteal(rest: seq<bv8>)
      requires Valid() && 0 < |rest| < 16
      requires mode == Cbc ==> carry[..] == state[..]
      modifies state
      ensures state[..] == StealInput(mode, old(state[..]), rest)
    {
      ghost var c: Block := state[..];
      forall i | 0 <= i < |rest| { state[i] := rest[i]; }
      assert state[..] == rest + c[|rest|..];
      if mode == Cbc {
        assert state[..|rest|] == rest;
        Pad(|rest|);
        ChainState();
      }
    }

    /** One turn of the loop of encrypt: a block, or the last block with the partial one behind it. */
    method EncryptTurn(ghost enc: Block -> Block, src: array<bv8>, s: nat, dest: array<bv8>, d: nat, n: nat,
                       ghost m: seq<bv8>)
      returns (left: nat, ghost out: seq<bv8>, ghost rest: seq<bv8>)
      requires Valid() && Enciphers(enc) && 16 <= n && Separate(src, s, n, dest, d, n) && m == src[s..s + n]
      modifies state, carry, dest
      ensures left + |out| == n && |rest| == left < n
      ensures Patched(old(dest[..]), d, out, dest[..])
      ensures src[s + |out|..s + n] == rest
      ensures EncryptsTo(enc, mode, old(carry[..]), m, out, carry[..], rest)
    {
      ghost var before: Block := carry[..];
      LoadBlock(src, s, n, m);
      EncryptState(enc);
      ghost var c: Block := state[..];
      left := n - 16;
      if 0 < left < 16 {
        out := Stolen(enc, mode, c, m[16..]);
        assert src[s + 16..s + n] == m[16..];
        EndEncryption(enc, src, s, dest, d, n, m[16..]);
        left, rest := 0, [];
        LastTurn(enc, mode, before, m);
      } else {
        out, rest := c, m[16..];
        StoreBlock(src, s, dest, d, n, m, c);
        FullTurn(enc, mode, before, m);
      }
    }

    /** The end of the loop body otherwise. */
    method StoreBlock(src: array<bv8>, s: nat, dest: array<bv8>, d: nat, n: nat, ghost m: seq<bv8>, ghost c: Block)
      requires Valid() && 16 <= n && Separate(src, s, n, dest, d, n) && m == src[s..s + n] && c == state[..]
      modifies dest
      ensures Patched(old(dest[..]), d, c, dest[..]) && src[s + 16..s + n] == m[16..]
    {
      assert m[16..] == src[s + 16..s + n];
      Store(dest, d, 16);
      assert state[..16] == c;
      if src == dest {
        PatchApart(old(dest[..]), d, c, dest[..], s + 16, s + n);
      }
    }

    /** The end of the loop body when a partial block follows; state holds the ciphertext of the
        last full block. */
    method EndEncryption(ghost enc: Block -> Block, src: array<bv8>, s: nat, dest: array<bv8>, d: nat, n: nat,
                         ghost rest: seq<bv8>)
      requires Valid() && Enciphers(enc) && 16 < n < 32 && Separate(src, s, n, dest, d, n) && rest == src[s + 16..s + n]
      requires mode == Cbc ==> carry[..] == state[..]
      modifies state, dest
      ensures Patched(old(dest[..]), d, Stolen(enc, mode, old(state[..]), rest), dest[..])
    {
      ghost var c: Block, was := state[..], dest[..];
      ghost var head := c[..n - 16];
      Steal(enc, src, s + 16, dest, d + 16, n - 16);
      ghost var first, mid := state[..], dest[..];
      assert Stolen(enc, mode, c, rest) == first + head;
      Store(dest, d, 16);
      assert state[..16] == first;
      PatchBackward(was, d + 16, head, mid, d, first, dest[..]);
    }

    /** A turn, seen from the start of the loop. */
    method EncryptMore(ghost enc: Block -> Block, src: array<bv8>, s: nat, dest: array<bv8>, d: nat, n: nat,
                       ghost start: Block, ghost m: seq<bv8>,
                       ghost done: seq<bv8>, ghost rest: seq<bv8>, ghost was: seq<bv8>, ghost d0: nat, ghost end: nat)
      returns (left: nat, ghost done': seq<bv8>, ghost rest': seq<bv8>)
      requires Valid() && Enciphers(enc) && 16 <= n && Separate(src, s, n, dest, d, n) && s + n == end &&
               rest == src[s..end]
      requires d == d0 + |done| && |was| == dest.Length && Patched(was, d0, done, dest[..])
      requires EncryptsTo(enc, mode, start, m, done, carry[..], rest)
      modifies state, carry, dest
      ensures left < n && n - left == |done'| - |done| && Separate(src, end - left, left, dest, d + (n - left), left)
      ensures Patched(was, d0, done', dest[..]) && src[end - left..end] == rest'
      ensures EncryptsTo(enc, mode, start, m, done', carry[..], rest')
    {
      ghost var before: Block, mid := carry[..], dest[..];
      ghost var out;
      left, out, rest' := EncryptTurn(enc, src, s, dest, d, n, rest);
      done' := done + out;
      PatchPatch(was, d0, done, mid, d, out, dest[..]);
      EncryptionsCompose(enc, mode, start, m, done, before, rest, out, carry[..], rest');
    }

    /** The loop of encrypt. */
    method EncryptBlocks(ghost enc: Block -> Block, src: array<bv8>, s0: nat, dest: array<bv8>, d0: nat, length: nat)
      requires Valid() && Enciphers(enc) && (length == 0 || 16 <= length) && Separate(src, s0, length, dest, d0, length)
      modifies state, carry, dest
      ensures var o := EncryptLong(enc, mode, old(carry[..]), old(src[s0..s0 + length]));
              carry[..] == o.carry && Patched(old(dest[..]), d0, o.bytes, dest[..])
    {
      var s, d, n := s0, d0, length;
      ghost var m, start, was, done := src[s0..s0 + length], carry[..], dest[..], [];
      ghost var rest, end := m, s0 + length;
      PatchNothing(was, d0);
      EncryptionStart(enc, mode, start, m);
      while n > 0
        invariant 0 <= n && 0 <= s && 0 <= d && Separate(src, s, n, dest, d, n)
        invariant d == d0 + |done| && n + |done| == length
        invariant s == end - n && src[end - n..end] == rest
        invariant Patched(was, d0, done, dest[..])
        invariant EncryptsTo(enc, mode, start, m, done, carry[..], rest)
      {
        var left;
        left, done, rest := EncryptMore(enc, src, s, dest, d, n, start, m, done, rest, was, d0, end);
        s, d, n := s + (n - left), d + (n - left), left;
      }
      EncryptionEnd(enc, mode, start, m, done, carry[..]);
    }

    /** encrypt.  With src == dest and s == d it is the in-place call. */
    method EncryptBytes(src: array<bv8>, s: nat, dest: array<bv8>, d: nat, length: nat)
      requires Valid() && Separate(src, s, length, dest, d, if 0 < length < 16 then 16 else length)
      modifies state, carry, dest
      ensures var o := Encrypt(Enciphering(key[..], rounds), mode, old(carry[..]), old(src[s..s + length]));
              carry[..] == o.carry && Patched(old(dest[..]), d, o.bytes, dest[..])
    {
      EncryptWith(Enciphering(key[..], rounds), src, s, dest, d, length);
    }

    method EncryptWith(ghost enc: Block -> Block, src: array<bv8>, s: nat, dest: array<bv8>, d: nat, length: nat)
      requires Valid() && Enciphers(enc) && Separate(src, s, length, dest, d, if 0 < length < 16 then 16 else length)
      modifies state, carry, dest
      ensures var o := Encrypt(enc, mode, old(carry[..]), old(src[s..s + length]));
              carry[..] == o.carry && Patched(old(dest[..]), d, o.bytes, dest[..])
    {
      if 0 < length < 16 {
        EncryptShortBlock(enc, src, s, dest, d, length);
      } else {
        EncryptBlocks(enc, src, s, dest, d, length);
      }
    }

    method DecryptShortBlock(ghost dec: Block -> Block, src: array<bv8>, s: nat, dest: array<bv8>, d: nat, n: nat)
      requires Valid() && Deciphers(dec) && 0 < n < 16 && Separate(src, s, 16, dest, d, n)
      modifies state, carry, dest
      ensures var o := DecryptShort(dec, mode, old(carry[..]), old(src[s..s + 16]), n);
              carry[..] == o.carry && Patched(old(dest[..]), d, o.bytes, dest[..])
    {
      Load(src, s, 16);
      assert state[..] == src[s..s + 16];
      RunDecrypt(dec);
      ChainState();
      SaveCarry(src, s);
      Store(dest, d, n);
    }

    /** The stealing part of the loop body: the state holds the last full block, decrypted. */
    method Unsteal(ghost dec: Block -> Block, src: array<bv8>, s: nat, dest: array<bv8>, d: nat, n: nat,
                   ghost rest: seq<bv8>)
      requires Valid() && Deciphers(dec) && 0 < n < 16 && dest != state && dest != carry && src != state
      requires s + n <= src.Length && 16 <= d && d + n <= dest.Length && rest == src[s..s + n]
      modifies state, dest
      ensures state[..] == dec(rest + old(state[..])[|rest|..])
      ensures Patched(old(dest[..]), d, Tail(mode, old(state[..]), rest), dest[..])
    {
      if mode == Cbc {
        XorTail(src, s, n);
      }
      var temp := src[s..s + n];
      assert state[..n] == Tail(mode, old(state[..]), temp);
      Store(dest, d, n);
      forall i | 0 <= i < n { state[i] := temp[i]; }
      assert state[..] == temp + old(state[n..]);
      RunDecrypt(dec);
    }

    method XorTail(src: array<bv8>, s: nat, n: nat)
      requires Valid() && n < 16 && src != state && s + n <= src.Length
      modifies state
      ensures state[..n] == XorBytes(old(state[..n]), src[s..s + n]) && state[n..] == old(state[n..])
    {
      ghost var goal := XorBytes(state[..n], src[s..s + n]);
      for i := 0 to n
        invariant forall j :: 0 <= j < i ==> state[j] == goal[j]
        invariant forall j :: i <= j < 16 ==> state[j] == old(state[..])[j]
      {
        state[i] := state[i] ^ src[s + i];
      }
    }

    /** The end of the loop body of decrypt. */
    method Emit(src: array<bv8>, s: nat, dest: array<bv8>, d: nat)
      requires Valid() && src != state && src != carry && dest != state && dest != carry
      requires s + 16 <= src.Length && d + 16 <= dest.Length
      modifies state, carry, dest
      ensures Patched(old(dest[..]), d, Chain(mode, old(state[..]), old(carry[..])), dest[..])
      ensures carry[..] == NextCarry(mode, old(carry[..]), old(src[s..s + 16]))
    {
      ChainState();
      SaveCarry(src, s);
      assert state[..16] == state[..];
      Store(dest, d, 16);
    }

    /** One turn of the loop of decrypt. */
    method DecryptTurn(ghost dec: Block -> Block, src: array<bv8>, s: nat, dest: array<bv8>, d: nat, n: nat,
                       ghost c: seq<bv8>)
      returns (left: nat, ghost out: seq<bv8>, ghost rest: seq<bv8>)
      requires Valid() && Deciphers(dec) && 16 <= n && Separate(src, s, n, dest, d, n) && c == src[s..s + n]
      modifies state, carry, dest
      ensures left + |out| == n && |rest| == left < n
      ensures Patched(old(dest[..]), d, out, dest[..])
      ensures src[s + |out|..s + n] == rest
      ensures DecryptsTo(dec, mode, old(carry[..]), c, out, carry[..], rest)
    {
      ghost var before: Block := carry[..];
      LoadBlock(src, s, n, c);
      RunDecrypt(dec);
      left := n - 16;
      if 0 < left < 16 {
        out := Returned(dec, mode, before, state[..], c[16..]);
        assert src[s + 16..s + n] == c[16..] && src[s..s + 16] == c[..16];
        EndDecryption(dec, src, s, dest, d, n, c[..16], c[16..]);
        left, rest := 0, [];
        LastDecryptTurn(dec, mode, before, c);
      } else {
        out, rest := Chain(mode, state[..], before), c[16..];
        EmitBlock(src, s, dest, d, n, c, out);
        FullDecryptTurn(dec, mode, before, c);
      }
    }

    method EmitBlock(src: array<bv8>, s: nat, dest: array<bv8>, d: nat, n: nat, ghost c: seq<bv8>, ghost out: Block)
      requires Valid() && 16 <= n && Separate(src, s, n, dest, d, n) && c == src[s..s + n]
      requires out == Chain(mode, state[..], carry[..])
      modifies state, carry, dest
      ensures Patched(old(dest[..]), d, out, dest[..]) && src[s + 16..s + n] == c[16..]
      ensures carry[..] == NextCarry(mode, old(carry[..]), c[..16])
    {
      assert c[16..] == src[s + 16..s + n] && c[..16] == src[s..s + 16];
      Emit(src, s, dest, d);
      if src == dest {
        PatchApart(old(dest[..]), d, out, dest[..], s + 16, s + n);
      }
    }

    method EndDecryption(ghost dec: Block -> Block, src: array<bv8>, s: nat, dest: array<bv8>, d: nat, n: nat,
                         ghost head: Block, ghost rest: seq<bv8>)
      requires Valid() && Deciphers(dec) && 16 < n < 32 && Separate(src, s, n, dest, d, n)
      requires head == src[s..s + 16] && rest == src[s + 16..s + n]
      modifies state, carry, dest
      ensures Patched(old(dest[..]), d, Returned(dec, mode, old(carry[..]), old(state[..]), rest), dest[..])
      ensures carry[..] == NextCarry(mode, old(carry[..]), head)
    {
      ghost var t: Block, start: Block, was := state[..], carry[..], dest[..];
      Unsteal(dec, src, s + 16, dest, d + 16, n - 16, rest);
      ghost var tail := Tail(mode, t, rest);
      if src == dest {
        PatchApart(was, d + 16, tail, dest[..], s, s + 16);
      }
      ghost var first: Block := Chain(mode, state[..], start);
      ghost var mid := dest[..];
      Emit(src, s, dest, d);
      PatchBackward(was, d + 16, tail, mid, d, first, dest[..]);
    }

    /** A turn, seen from the start of the loop. */
    method DecryptMore(ghost dec: Block -> Block, src: array<bv8>, s: nat, dest: array<bv8>, d: nat, n: nat,
                       ghost start: Block, ghost m: seq<bv8>,
                       ghost done: seq<bv8>, ghost rest: seq<bv8>, ghost was: seq<bv8>, ghost d0: nat, ghost end: nat)
      returns (left: nat, ghost done': seq<bv8>, ghost rest': seq<bv8>)
      requires Valid() && Deciphers(dec) && 16 <= n && Separate(src, s, n, dest, d, n) && s + n == end &&
               rest == src[s..end]
      requires d == d0 + |done| && |was| == dest.Length && Patched(was, d0, done, dest[..])
      requires DecryptsTo(dec, mode, start, m, done, carry[..], rest)
      modifies state, carry, dest
      ensures left < n && n - left == |done'| - |done| && Separate(src, end - left, left, dest, d + (n - left), left)
      ensures Patched(was, d0, done', dest[..]) && src[end - left..end] == rest'
      ensures DecryptsTo(dec, mode, start, m, done', carry[..], rest')
    {
      ghost var before: Block, mid := carry[..], dest[..];
      ghost var out;
      left, out, rest' := DecryptTurn(dec, src, s, dest, d, n, rest);
      done' := done + out;
      PatchPatch(was, d0, done, mid, d, out, dest[..]);
      DecryptionsCompose(dec, mode, start, m, done, before, rest, out, carry[..], rest');
    }

    /** The loop of decrypt. */
    method DecryptBlocks(ghost dec: Block -> Block, src: array<bv8>, s0: nat, dest: array<bv8>, d0: nat, length: nat)
      requires Valid() && Deciphers(dec) && (length == 0 || 16 <= length) && Separate(src, s0, length, dest, d0, length)
      modifies state, carry, dest
      ensures var o := DecryptLong(dec, mode, old(carry[..]), old(src[s0..s0 + length]));
              carry[..] == o.carry && Patched(old(dest[..]), d0, o.bytes, dest[..])
    {
      var s, d, n := s0, d0, length;
      ghost var m, start, was, done := src[s0..s0 + length], carry[..], dest[..], [];
      ghost var rest, end := m, s0 + length;
      PatchNothing(was, d0);
      DecryptionStart(dec, mode, start, m);
      while n > 0
        invariant 0 <= n && 0 <= s && 0 <= d && Separate(src, s, n, dest, d, n)
        invariant d == d0 + |done| && n + |done| == length
        invariant s == end - n && src[end - n..end] == rest
        invariant Patched(was, d0, done, dest[..])
        invariant DecryptsTo(dec, mode, start, m, done, carry[..], rest)
      {
        var left;
        left, done, rest := DecryptMore(dec, src, s, dest, d, n, start, m, done, rest, was, d0, end);
        s, d, n := s + (n - left), d + (n - left), left;
      }
      DecryptionEnd(dec, mode, start, m, done, carry[..]);
    }

    /** decrypt.  With src == dest and s == d it is the in-place call. */
    method DecryptBytes(src: array<bv8>, s: nat, dest: array<bv8>, d: nat, length: nat)
      requires Valid() && Separate(src, s, if 0 < length < 16 then 16 else length, dest, d, length)
      modifies state, carry, dest
      ensures var size := if 0 < length < 16 then 16 else length;
              var o := Decrypt(Deciphering(key[..], rounds), mode, old(carry[..]), old(src[s..s + size]), length);
              carry[..] == o.carry && Patched(old(dest[..]), d, o.bytes, dest[..])
    {
      DecryptWith(Deciphering(key[..], rounds), src, s, dest, d, length);
    }

    method DecryptWith(ghost dec: Block -> Block, src: array<bv8>, s: nat, dest: array<bv8>, d: nat, length: nat)
      requires Valid() && Deciphers(dec) && Separate(src, s, if 0 < length < 16 then 16 else length, dest, d, length)
      modifies state, carry, dest
      ensures var size := if 0 < length < 16 then 16 else length;
              var o := Decrypt(dec, mode, old(carry[..]), old(src[s..s + size]), length);
              carry[..] == o.carry && Patched(old(dest[..]), d, o.bytes, dest[..])
    {
      if 0 < length < 16 {
        DecryptShortBlock(dec, src, s, dest, d, length);
      } else {
        DecryptBlocks(dec, src, s, dest, d, length);
      }
    }

    method SubBytesInPlace()
      requires Valid()
      modifies state
      ensures state[..] == SubBytes(old(state[..]))
    {
      for i := 0 to 16
        invariant forall j :: 0 <= j < i ==> state[j] == Sbox(old(state[..])[j])
        invariant forall j :: i <= j < 16 ==> state[j] == old(state[..])[j]
      {
        state[i] := Sbox(state[i]);
      }
    }

    method InvSubBytesInPlace()
      requires Valid()
      modifies state
      ensures state[..] == InvSubBytes(old(state[..]))
    {
      for i := 0 to 16
        invariant forall j :: 0 <= j < i ==> state[j] == InvSbox(old(state[..])[j])
        invariant forall j :: i <= j < 16 ==> state[j] == old(state[..])[j]
      {
        state[i] := InvSbox(state[i]);
      }
    }

    /** Row r of the state becomes the four given bytes. */
    method SetRow(r: nat, a: bv8, b: bv8, c: bv8, d: bv8)
      requires Valid() && r < 4
      modifies state
      ensures RowIs(state[..], r, a, b, c, d)
      ensures forall k: nat {:trigger SameRow(old(state[..]), state[..], k)} :: k < 4 && k != r ==>
                SameRow(old(state[..]), state[..], k)
    {
      state[r], state[r + 4], state[r + 8], state[r + 12] := a, b, c, d;
    }

    method ShiftRowsInPlace()
      requires Valid()
      modifies state
      ensures state[..] == ShiftRows(old(state[..]))
    {
      ghost var s: Block := state[..];
      for r := 0 to 4
        invariant forall k: nat {:trigger SameRow(ShiftRows(s), state[..], k)} :: k < r ==>
                    SameRow(ShiftRows(s), state[..], k)
        invariant forall k: nat {:trigger SameRow(s, state[..], k)} :: r <= k < 4 ==> SameRow(s, state[..], k)
      {
        assert SameRow(s, state[..], r);
        var a, b, c, d := Rotate(state[r], state[r + 4], state[r + 8], state[r + 12], r);
        ghost var before: Block := state[..];
        SetRow(r, a, b, c, d);
        ShiftedRow(s, state[..], r, a, b, c, d);
        forall k: nat | k < 4 && k != r
          ensures (SameRow(s, before, k) ==> SameRow(s, state[..], k)) &&
                  (SameRow(ShiftRows(s), before, k) ==> SameRow(ShiftRows(s), state[..], k))
        {
          assert SameRow(before, state[..], k);
        }
      }
      RowsAreAll(ShiftRows(s), state[..]);
    }

    method InvShiftRowsInPlace()
      requires Valid()
      modifies state
      ensures state[..] == InvShiftRows(old(state[..]))
    {
      ghost var s: Block := state[..];
      for r := 0 to 4
        invariant forall k: nat {:trigger SameRow(InvShiftRows(s), state[..], k)} :: k < r ==>
                    SameRow(InvShiftRows(s), state[..], k)
        invariant forall k: nat {:trigger SameRow(s, state[..], k)} :: r <= k < 4 ==> SameRow(s, state[..], k)
      {
        assert SameRow(s, state[..], r);
        var a, b, c, d := InvRotate(state[r], state[r + 4], state[r + 8], state[r + 12], r);
        ghost var before: Block := state[..];
        SetRow(r, a, b, c, d);
        InvShiftedRow(s, state[..], r, a, b, c, d);
        forall k: nat | k < 4 && k != r
          ensures (SameRow(s, before, k) ==> SameRow(s, state[..], k)) &&
                  (SameRow(InvShiftRows(s), before, k) ==> SameRow(InvShiftRows(s), state[..], k))
        {
          assert SameRow(before, state[..], k);
        }
      }
      RowsAreAll(InvShiftRows(s), state[..]);
    }

    /** Column c of the state becomes the four given bytes. */
    method SetColumn(c: nat, p: bv8, q: bv8, u: bv8, v: bv8)
      requires Valid() && c < 4
      modifies state
      ensures ColumnIs(state[..], c, p, q, u, v)
      ensures forall k: nat {:trigger SameColumn(old(state[..]), state[..], k)} :: k < 4 && k != c ==>
                SameColumn(old(state[..]), state[..], k)
    {
      state[4 * c], state[4 * c + 1], state[4 * c + 2], state[4 * c + 3] := p, q, u, v;
    }

    method MixColumnsInPlace()
      requires Valid()
      modifies state
      ensures state[..] == MixColumns(old(state[..]))
    {
      ghost var s: Block := state[..];
      ghost var goal: Block := MixColumns(s);
      for c := 0 to 4
        invariant forall k: nat {:trigger SameColumn(goal, state[..], k)} :: k < c ==> SameColumn(goal, state[..], k)
        invariant forall k: nat {:trigger SameColumn(s, state[..], k)} :: c <= k < 4 ==> SameColumn(s, state[..], k)
      {
        assert SameColumn(s, state[..], c);
        var p, q, u, v := Mul(state[4 * c], state[4 * c + 1], state[4 * c + 2], state[4 * c + 3]);
        ghost var before: Block := state[..];
        SetColumn(c, p, q, u, v);
        ColumnOf(MixByte, s, c);
        forall k: nat | k < 4 && k != c
          ensures (SameColumn(s, before, k) ==> SameColumn(s, state[..], k)) &&
                  (SameColumn(goal, before, k) ==> SameColumn(goal, state[..], k))
        {
          assert SameColumn(before, state[..], k);
        }
      }
      ColumnsAreAll(goal, state[..]);
    }

    method InvMixColumnsInPlace()
      requires Valid()
      modifies state
      ensures state[..] == InvMixColumns(old(state[..]))
    {
      ghost var s: Block := state[..];
      ghost var goal: Block := InvMixColumns(s);
      for c := 0 to 4
        invariant forall k: nat {:trigger SameColumn(goal, state[..], k)} :: k < c ==> SameColumn(goal, state[..], k)
        invariant forall k: nat {:trigger SameColumn(s, state[..], k)} :: c <= k < 4 ==> SameColumn(s, state[..], k)
      {
        assert SameColumn(s, state[..], c);
        var p, q, u, v := InvMul(state[4 * c], state[4 * c + 1], state[4 * c + 2], state[4 * c + 3]);
        ghost var before: Block := state[..];
        SetColumn(c, p, q, u, v);
        ColumnOf(InvMixByte, s, c);
        forall k: nat | k < 4 && k != c
          ensures (SameColumn(s, before, k) ==> SameColumn(s, state[..], k)) &&
                  (SameColumn(goal, before, k) ==> SameColumn(goal, state[..], k))
        {
          assert SameColumn(before, state[..], k);
        }
      }
      ColumnsAreAll(goal, state[..]);
    }

    method AddRoundKeyInPlace(round: nat)
      requires Valid() && round <= 14
      modifies state
      ensures state[..] == AddRoundKey(old(state[..]), key[..], round)
    {
      ghost var s: Block := state[..];
      ghost var goal: Block := AddRoundKey(s, key[..], round);
      for c := 0 to 4
        invariant forall k: nat {:trigger SameColumn(goal, state[..], k)} :: k < c ==> SameColumn(goal, state[..], k)
        invariant forall k: nat {:trigger SameColumn(s, state[..], k)} :: c <= k < 4 ==> SameColumn(s, state[..], k)
      {
        assert SameColumn(s, state[..], c);
        var temp := Pack(state[4 * c], state[4 * c + 1], state[4 * c + 2], state[4 * c + 3]);
        temp := temp ^ key[round * 4 + c];
        KeyedColumn(s, key[..], round, c);
        ghost var before: Block := state[..];
        SetColumn(c, KeyByte(temp, 0), KeyByte(temp, 1), KeyByte(temp, 2), KeyByte(temp, 3));
        forall k: nat | k < 4 && k != c
          ensures (SameColumn(s, before, k) ==> SameColumn(s, state[..], k)) &&
                  (SameColumn(goal, before, k) ==> SameColumn(goal, state[..], k))
        {
          assert SameColumn(before, state[..], k);
        }
      }
      ColumnsAreAll(goal, state[..]);
    }

    /** aesEncrypt */
    method AesEncryptInPlace()
      requires Valid()
      modifies state
      ensures state[..] == AesEncrypt(old(state[..]), key[..], rounds)
    {
      AddRoundKeyInPlace(0);
      EncryptLoop();
      Finish();
    }

    /** The object's key schedule makes these round functions; the loops know no more of the rounds. */
    ghost predicate RoundsAre(up: (Block, nat) -> Block)
      reads key
      requires key.Length == 60
    {
      forall b: Block, r: nat {:trigger Turn(b, r)} :: Turn(b, r) && r <= 14 ==> up(b, r) == Round(b, key[..], r)
    }

    ghost predicate InvRoundsAre(down: (Block, nat) -> Block)
      reads key
      requires key.Length == 60
    {
      forall b: Block, r: nat {:trigger Turn(b, r)} :: Turn(b, r) && r <= 14 ==> down(b, r) == InvRound(b, key[..], r)
    }

    method EncryptLoop()
      requires Valid()
      modifies state
      ensures state[..] == AscendFrom(RoundStep(key[..]), old(state[..]), 1, Turns(rounds))
    {
      RunRounds(RoundStep(key[..]));
    }

    method RunRounds(ghost up: (Block, nat) -> Block)
      requires Valid() && RoundsAre(up)
      modifies state
      ensures state[..] == AscendFrom(up, old(state[..]), 1, Turns(rounds))
    {
      ghost var n := Turns(rounds);
      var r := 1;
      while r < rounds
        invariant 1 <= r <= n + 1 && RoundsAre(up)
        invariant AscendFrom(up, state[..], r, n) == AscendFrom(up, old(state[..]), 1, n)
      {
        OneRound(up, r);
        r := r + 1;
      }
    }

    method OneRound(ghost up: (Block, nat) -> Block, r: nat)
      requires Valid() && RoundsAre(up) && r <= 14
      modifies state
      ensures state[..] == up(old(state[..]), r)
    {
      ghost var s: Block := state[..];
      EncryptRound(r);
      assert Turn(s, r);
    }

    method EncryptRound(r: nat)
      requires Valid() && r <= 14
      modifies state
      ensures state[..] == Round(old(state[..]), key[..], r)
    {
      SubBytesInPlace();
      ShiftRowsInPlace();
      MixColumnsInPlace();
      AddRoundKeyInPlace(r);
    }

    /** The last round, without MixColumns. */
    method Finish()
      requires Valid()
      modifies state
      ensures state[..] == AddRoundKey(Confuse(old(state[..])), key[..], rounds)
    {
      SubBytesInPlace();
      ShiftRowsInPlace();
      AddRoundKeyInPlace(rounds);
    }

    /** aesDecrypt */
    method AesDecryptInPlace()
      requires Valid()
      modifies state
      ensures state[..] == AesDecrypt(old(state[..]), key[..], rounds)
    {
      AddRoundKeyInPlace(rounds);
      DecryptLoop();
      Restore();
    }

    method DecryptLoop()
      requires Valid()
      modifies state
      ensures state[..] == Descend(InvRoundStep(key[..]), old(state[..]), Turns(rounds))
    {
      RunInvRounds(InvRoundStep(key[..]));
    }

    method RunInvRounds(ghost down: (Block, nat) -> Block)
      requires Valid() && InvRoundsAre(down)
      modifies state
      ensures state[..] == Descend(down, old(state[..]), Turns(rounds))
    {
      var r: int := rounds - 1;
      while r > 0
        invariant r <= Turns(rounds) && InvRoundsAre(down)
        invariant Descend(down, state[..], if r < 0 then 0 else r) == Descend(down, old(state[..]), Turns(rounds))
      {
        OneInvRound(down, r);
        r := r - 1;
      }
    }

    method OneInvRound(ghost down: (Block, nat) -> Block, r: nat)
      requires Valid() && InvRoundsAre(down) && r <= 14
      modifies state
      ensures state[..] == down(old(state[..]), r)
    {
      ghost var s: Block := state[..];
      DecryptRound(r);
      assert Turn(s, r);
    }

    method DecryptRound(r: nat)
      requires Valid() && r <= 14
      modifies state
      ensures state[..] == InvRound(old(state[..]), key[..], r)
    {
      InvShiftRowsInPlace();
      InvSubBytesInPlace();
      AddRoundKeyInPlace(r);
      InvMixColumnsInPlace();
    }

    method Restore()
      requires Valid()
      modifies state
      ensures state[..] == AddRoundKey(Unconfuse(old(state[..])), key[..], 0)
    {
      InvShiftRowsInPlace();
      InvSubBytesInPlace();
      AddRoundKeyInPlace(0);
    }
  }

  /** `done` is the ciphertext of m up to where `rest` starts, and the encryption of `rest` goes on
      from the carry vector b. */
  ghost predicate EncryptsTo(enc: Block -> Block, mode: Mode, a: Block, m: seq<bv8>, done: seq<bv8>, b: Block,
                             rest: seq<bv8>) {
    && (|m| == 0 || 16 <= |m|) && (|rest| == 0 || 16 <= |rest|) && |m| == |done| + |rest|
    && var r := EncryptLong(enc, mode, b, rest);
       EncryptLong(enc, mode, a, m) == Output(done + r.bytes, r.carry)
  }

  ghost predicate DecryptsTo(dec: Block -> Block, mode: Mode, a: Block, c: seq<bv8>, done: seq<bv8>, b: Block,
                             rest: seq<bv8>) {
    && (|c| == 0 || 16 <= |c|) && (|rest| == 0 || 16 <= |rest|) && |c| == |done| + |rest|
    && var r := DecryptLong(dec, mode, b, rest);
       DecryptLong(dec, mode, a, c) == Output(done + r.bytes, r.carry)
  }

  lemma EncryptionStart(enc: Block -> Block, mode: Mode, a: Block, m: seq<bv8>)
    requires |m| == 0 || 16 <= |m|
    ensures EncryptsTo(enc, mode, a, m, [], a, m)
  {
  }

  lemma EncryptionEnd(enc: Block -> Block, mode: Mode, a: Block, m: seq<bv8>, done: seq<bv8>, b: Block)
    requires EncryptsTo(enc, mode, a, m, done, b, [])
    ensures EncryptLong(enc, mode, a, m) == Output(done, b)
  {
  }

  lemma DecryptionStart(dec: Block -> Block, mode: Mode, a: Block, m: seq<bv8>)
    requires |m| == 0 || 16 <= |m|
    ensures DecryptsTo(dec, mode, a, m, [], a, m)
  {
  }

  lemma DecryptionEnd(dec: Block -> Block, mode: Mode, a: Block, m: seq<bv8>, done: seq<bv8>, b: Block)
    requires DecryptsTo(dec, mode, a, m, done, b, [])
    ensures DecryptLong(dec, mode, a, m) == Output(done, b)
  {
  }

  lemma EncryptionsCompose(enc: Block -> Block, mode: Mode, a: Block, m: seq<bv8>, done: seq<bv8>, b: Block,
                           rest: seq<bv8>, more: seq<bv8>, c: Block, rest': seq<bv8>)
    requires EncryptsTo(enc, mode, a, m, done, b, rest) && EncryptsTo(enc, mode, b, rest, more, c, rest')
    ensures EncryptsTo(enc, mode, a, m, done + more, c, rest')
  {
    AppendTwice(done, more, EncryptLong(enc, mode, c, rest').bytes);
  }

  lemma DecryptionsCompose(dec: Block -> Block, mode: Mode, a: Block, m: seq<bv8>, done: seq<bv8>, b: Block,
                           rest: seq<bv8>, more: seq<bv8>, c: Block, rest': seq<bv8>)
    requires DecryptsTo(dec, mode, a, m, done, b, rest) && DecryptsTo(dec, mode, b, rest, more, c, rest')
    ensures DecryptsTo(dec, mode, a, m, done + more, c, rest')
  {
    AppendTwice(done, more, DecryptLong(dec, mode, c, rest').bytes);
  }

  lemma FullTurn(enc: Block -> Block, mode: Mode, carry: Block, m: seq<bv8>)
    requires |m| == 16 || 32 <= |m|
    ensures var c := enc(Chain(mode, m[..16], carry));
            EncryptsTo(enc, mode, carry, m, c, NextCarry(mode, carry, c), m[16..])
  {
  }

  /** The two last blocks of an encryption, from the ciphertext c of the last full block. */
  function Stolen(enc: Block -> Block, mode: Mode, c: Block, rest: seq<bv8>): (t: seq<bv8>)
    requires 0 < |rest| < 16
    ensures |t| == 16 + |rest|
  {
    enc(StealInput(mode, c, rest)) + c[..|rest|]
  }

  lemma LastTurn(enc: Block -> Block, mode: Mode, carry: Block, m: seq<bv8>)
    requires 16 < |m| < 32
    ensures var c := enc(Chain(mode, m[..16], carry));
            EncryptsTo(enc, mode, carry, m, Stolen(enc, mode, c, m[16..]), NextCarry(mode, carry, c), [])
  {
  }

  lemma FullDecryptTurn(dec: Block -> Block, mode: Mode, carry: Block, c: seq<bv8>)
    requires |c| == 16 || 32 <= |c|
    ensures DecryptsTo(dec, mode, carry, c, Chain(mode, dec(c[..16]), carry), NextCarry(mode, carry, c[..16]), c[16..])
  {
  }

  /** The partial block that decryption recovers from the state and the partial ciphertext block. */
  function Tail(mode: Mode, s: Block, rest: seq<bv8>): (t: seq<bv8>)
    requires |rest| < 16
    ensures |t| == |rest|
  {
    if mode == Cbc then XorBytes(s[..|rest|], rest) else s[..|rest|]
  }

  /** The two last blocks of a decryption, from the decrypted last full block. */
  function Returned(dec: Block -> Block, mode: Mode, carry: Block, s: Block, rest: seq<bv8>): (t: seq<bv8>)
    requires 0 < |rest| < 16
    ensures |t| == 16 + |rest|
  {
    Chain(mode, dec(rest + s[|rest|..]), carry) + Tail(mode, s, rest)
  }

  lemma LastDecryptTurn(dec: Block -> Block, mode: Mode, carry: Block, c: seq<bv8>)
    requires 16 < |c| < 32
    ensures DecryptsTo(dec, mode, carry, c, Returned(dec, mode, carry, dec(c[..16]), c[16..]),
                       NextCarry(mode, carry, c[..16]), [])
  {
  }

  ghost predicate ColumnIs(s: Block, c: nat, p: bv8, q: bv8, u: bv8, v: bv8)
    requires c < 4
  {
    s[4 * c] == p && s[4 * c + 1] == q && s[4 * c + 2] == u && s[4 * c + 3] == v
  }

  ghost predicate SameColumn(s: Block, t: Block, c: nat)
    requires c < 4
  {
    ColumnIs(t, c, s[4 * c], s[4 * c + 1], s[4 * c + 2], s[4 * c + 3])
  }

  lemma ColumnsAreAll(s: Block, t: Block)
    requires forall k: nat {:trigger SameColumn(s, t, k)} :: k < 4 ==> SameColumn(s, t, k)
    ensures s == t
  {
    assert SameColumn(s, t, 0) && SameColumn(s, t, 1) && SameColumn(s, t, 2) && SameColumn(s, t, 3);
  }

  lemma ColumnOf(f: (bv8, bv8, bv8, bv8) -> bv8, s: Block, c: nat)
    requires c < 4
    ensures var p, q, u, v := s[4 * c], s[4 * c + 1], s[4 * c + 2], s[4 * c + 3];
            ColumnIs(ByColumns(f, s), c, f(p, q, u, v), f(q, u, v, p), f(u, v, p, q), f(v, p, q, u))
  {
    if c == 0 {
    } else if c == 1 {
    } else if c == 2 {
    }
  }

  /** The byte of the round key that goes to place i. */
  lemma KeyedByte(s: Block, w: seq<bv32>, round: nat, c: nat, k: nat, i: nat)
    requires c < 4 && k < 4 && i == 4 * c + k && 4 * round + 4 <= |w|
    ensures AddRoundKey(s, w, round)[i] == s[i] ^ KeyByte(w[round * 4 + c], k)
  {
    assert i / 4 == c && i % 4 == k;
  }

  lemma KeyedColumn(s: Block, w: seq<bv32>, round: nat, c: nat)
    requires c < 4 && 4 * round + 4 <= |w|
    ensures var temp := Pack(s[4 * c], s[4 * c + 1], s[4 * c + 2], s[4 * c + 3]) ^ w[round * 4 + c];
            ColumnIs(AddRoundKey(s, w, round), c, KeyByte(temp, 0), KeyByte(temp, 1), KeyByte(temp, 2),
                     KeyByte(temp, 3))
  {
    var p, q, u, v, x := s[4 * c], s[4 * c + 1], s[4 * c + 2], s[4 * c + 3], w[round * 4 + c];
    KeyedByte(s, w, round, c, 0, 4 * c);
    KeyedByte(s, w, round, c, 1, 4 * c + 1);
    KeyedByte(s, w, round, c, 2, 4 * c + 2);
    KeyedByte(s, w, round, c, 3, 4 * c + 3);
    UnpackXor0(p, q, u, v, x);
    UnpackXor1(p, q, u, v, x);
    UnpackXor2(p, q, u, v, x);
    UnpackXor3(p, q, u, v, x);
  }

  lemma InvShiftedRow(s: Block, t: Block, r: nat, a: bv8, b: bv8, c: bv8, d: bv8)
    requires r < 4 && Rotated((4 - r) % 4, s[r], s[r + 4], s[r + 8], s[r + 12], a, b, c, d) && RowIs(t, r, a, b, c, d)
    ensures SameRow(InvShiftRows(s), t, r)
  {
    if r == 0 {
    } else if r == 1 {
    } else if r == 2 {
    }
  }

  /** The inner loop of invShiftRows. */
  method InvRotate(a: bv8, b: bv8, c: bv8, d: bv8, r: nat) returns (w: bv8, x: bv8, y: bv8, z: bv8)
    requires r < 4
    ensures Rotated((4 - r) % 4, a, b, c, d, w, x, y, z)
  {
    var temp, i := Pack(a, b, c, d), r;
    ghost var p, q, u, v := a, b, c, d;
    while i > 0
      invariant 0 <= i <= r && temp == Pack(p, q, u, v)
      invariant Rotated((4 - (r - i)) % 4, a, b, c, d, p, q, u, v)
    {
      RotPack(p, q, u, v);
      temp := InvRotWord(temp);
      p, q, u, v := v, p, q, u;
      i := i - 1;
    }
    UnpackPack(p, q, u, v);
    w, x, y, z := KeyByte(temp, 0), KeyByte(temp, 1), KeyByte(temp, 2), KeyByte(temp, 3);
  }

  ghost predicate RowIs(s: Block, r: nat, a: bv8, b: bv8, c: bv8, d: bv8)
    requires r < 4
  {
    s[r] == a && s[r + 4] == b && s[r + 8] == c && s[r + 12] == d
  }

  ghost predicate SameRow(s: Block, t: Block, r: nat)
    requires r < 4
  {
    RowIs(t, r, s[r], s[r + 4], s[r + 8], s[r + 12])
  }

  lemma RowsAreAll(s: Block, t: Block)
    requires forall k: nat {:trigger SameRow(s, t, k)} :: k < 4 ==> SameRow(s, t, k)
    ensures s == t
  {
    assert SameRow(s, t, 0) && SameRow(s, t, 1) && SameRow(s, t, 2) && SameRow(s, t, 3);
  }

  /** The rotation left by r places of four bytes. */
  ghost predicate Rotated(r: nat, a: bv8, b: bv8, c: bv8, d: bv8, w: bv8, x: bv8, y: bv8, z: bv8) {
    && (r == 0 ==> w == a && x == b && y == c && z == d)
    && (r == 1 ==> w == b && x == c && y == d && z == a)
    && (r == 2 ==> w == c && x == d && y == a && z == b)
    && (r == 3 ==> w == d && x == a && y == b && z == c)
  }

  lemma ShiftedRow(s: Block, t: Block, r: nat, a: bv8, b: bv8, c: bv8, d: bv8)
    requires r < 4 && Rotated(r, s[r], s[r + 4], s[r + 8], s[r + 12], a, b, c, d) && RowIs(t, r, a, b, c, d)
    ensures SameRow(ShiftRows(s), t, r)
  {
    if r == 0 {
    } else if r == 1 {
    } else if r == 2 {
    }
  }

  /** The inner loop of shiftRows: rotate the packed row one byte at a time. */
  method Rotate(a: bv8, b: bv8, c: bv8, d: bv8, r: nat) returns (w: bv8, x: bv8, y: bv8, z: bv8)
    requires r < 4
    ensures Rotated(r, a, b, c, d, w, x, y, z)
  {
    var temp, i := Pack(a, b, c, d), r;
    ghost var p, q, u, v := a, b, c, d;
    while i > 0
      invariant 0 <= i <= r && temp == Pack(p, q, u, v)
      invariant Rotated(r - i, a, b, c, d, p, q, u, v)
    {
      RotPack(p, q, u, v);
      temp := RotWord(temp);
      p, q, u, v := q, u, v, p;
      i := i - 1;
    }
    UnpackPack(p, q, u, v);
    w, x, y, z := KeyByte(temp, 0), KeyByte(temp, 1), KeyByte(temp, 2), KeyByte(temp, 3);
  }

  /** The words after a setup, as far as the key determines them. */
  ghost predicate Keyed(w: seq<bv32>, k: Option<seq<bv8>>, nk: nat)
    requires nk in {4, 6, 8} && (k.Some? ==> |k.value| == 4 * nk)
  {
    && |w| == 60 && (k == None ==> w == seq(60, _ => 0))
    && (k.Some? ==> w[..4 * nk + 28] == Schedule(k.value, nk, 4 * nk + 28))
  }

  lemma SameWords(k: Option<seq<bv8>>, nk: nat, w: seq<bv32>, v: seq<bv32>)
    requires nk in {4, 6, 8} && (k.Some? ==> |k.value| == 4 * nk)
    requires Keyed(w, k, nk) && Keyed(v, k, nk)
    ensures Agree(w, v, 4 * (nk + 6) + 4)
  {
  }

  lemma PatchedBytes(x: seq<bv8>, bytes: seq<bv8>, y: seq<bv8>)
    requires Patched(x, 0, bytes, y)
    ensures |bytes| <= |y| && y[..|bytes|] == bytes
  {
  }

  function StartCarry(iv: Option<Block>): Block { if iv == None then ZeroPad([]) else iv.value }

  function CipherSize(n: nat): nat { if 0 < n < 16 then 16 else n }

  /** enc, or dec, is what a setup with the key makes. */
  ghost predicate EnciphersWith(enc: Block -> Block, k: Option<seq<bv8>>, nk: nat)
    requires nk in {4, 6, 8} && (k.Some? ==> |k.value| == 4 * nk)
  {
    exists w :: Keyed(w, k, nk) && enc == Enciphering(w, nk + 6)
  }

  ghost predicate DeciphersWith(dec: Block -> Block, k: Option<seq<bv8>>, nk: nat)
    requires nk in {4, 6, 8} && (k.Some? ==> |k.value| == 4 * nk)
  {
    exists w :: Keyed(w, k, nk) && dec == Deciphering(w, nk + 6)
  }

  lemma SameKeyMeansInverse(k: Option<seq<bv8>>, nk: nat, enc: Block -> Block, dec: Block -> Block)
    requires nk in {4, 6, 8} && (k.Some? ==> |k.value| == 4 * nk)
    requires EnciphersWith(enc, k, nk) && DeciphersWith(dec, k, nk)
    ensures Undoes(dec, enc)
  {
    var w :| Keyed(w, k, nk) && enc == Enciphering(w, nk + 6);
    var v :| Keyed(v, k, nk) && dec == Deciphering(v, nk + 6);
    SameWords(k, nk, w, v);
    UndoesBoth(w, v, nk + 6, enc, dec);
  }

  lemma UndoesBoth(w: seq<bv32>, v: seq<bv32>, rounds: nat, enc: Block -> Block, dec: Block -> Block)
    requires Agree(w, v, 4 * rounds + 4) && enc == Enciphering(w, rounds) && dec == Deciphering(v, rounds)
    ensures Undoes(dec, enc)
  {
    SameKeyUndoes(w, v, rounds);
  }

  /** setup, and the two ciphers it makes. */
  method Ready(a: Aes, k: Option<seq<bv8>>, nk: nat, mode: Mode, iv: Option<Block>)
    returns (ghost enc: Block -> Block, ghost dec: Block -> Block)
    requires a.Valid() && nk in {4, 6, 8} && (k.Some? ==> |k.value| == 4 * nk)
    modifies a, a.key, a.carry
    ensures a.Valid() && a.mode == mode && a.carry[..] == StartCarry(iv)
    ensures a.Enciphers(enc) && a.Deciphers(dec) && EnciphersWith(enc, k, nk) && DeciphersWith(dec, k, nk)
  {
    a.Setup(k, nk, mode, iv);
    enc, dec := Enciphering(a.key[..], nk + 6), Deciphering(a.key[..], nk + 6);
    assert Keyed(a.key[..], k, nk);
  }

  /** setup and encrypt, from the start of one buffer to the start of another. */
  method SetupAndEncrypt(a: Aes, k: Option<seq<bv8>>, nk: nat, mode: Mode, iv: Option<Block>,
                         src: array<bv8>, dest: array<bv8>, n: nat) returns (ghost enc: Block -> Block)
    requires a.Valid() && nk in {4, 6, 8} && (k.Some? ==> |k.value| == 4 * nk)
    requires a.Separate(src, 0, n, dest, 0, CipherSize(n))
    modifies a, a.key, a.carry, a.state, dest
    ensures a.Valid() && EnciphersWith(enc, k, nk)
    ensures dest[..CipherSize(n)] == Encrypt(enc, mode, StartCarry(iv), old(src[..n])).bytes
  {
    ghost var m := src[..n];
    ghost var dec;
    enc, dec := Ready(a, k, nk, mode, iv);
    assert src[0..n] == m;
    ghost var was := dest[..];
    a.EncryptWith(enc, src, 0, dest, 0, n);
    PatchedBytes(was, Encrypt(enc, mode, StartCarry(iv), m).bytes, dest[..]);
  }

  method SetupAndDecrypt(a: Aes, k: Option<seq<bv8>>, nk: nat, mode: Mode, iv: Option<Block>,
                         src: array<bv8>, dest: array<bv8>, n: nat) returns (ghost dec: Block -> Block)
    requires a.Valid() && nk in {4, 6, 8} && (k.Some? ==> |k.value| == 4 * nk)
    requires a.Separate(src, 0, CipherSize(n), dest, 0, n)
    modifies a, a.key, a.carry, a.state, dest
    ensures a.Valid() && DeciphersWith(dec, k, nk)
    ensures dest[..n] == Decrypt(dec, mode, StartCarry(iv), old(src[..CipherSize(n)]), n).bytes
  {
    ghost var c := src[..CipherSize(n)];
    ghost var enc;
    enc, dec := Ready(a, k, nk, mode, iv);
    assert src[0..CipherSize(n)] == c;
    ghost var was := dest[..];
    a.DecryptWith(dec, src, 0, dest, 0, n);
    PatchedBytes(was, Decrypt(dec, mode, StartCarry(iv), c, n).bytes, dest[..]);
  }

  /** What one object encrypts another decrypts, after a setup of each with the same key, mode and vector:
      for every key length and every length of the data, whatever the two objects did before; they may
      also be one object. */
  method Exchange(a: Aes, b: Aes, k: Option<seq<bv8>>, nk: nat, mode: Mode, iv: Option<Block>,
                  src: array<bv8>, wire: array<bv8>, dest: array<bv8>, n: nat)
    requires a.Valid() && b.Valid() && nk in {4, 6, 8} && (k.Some? ==> |k.value| == 4 * nk)
    requires a.Separate(src, 0, n, wire, 0, CipherSize(n)) && b.Separate(wire, 0, CipherSize(n), dest, 0, n)
    modifies a, a.key, a.carry, a.state, b, b.key, b.carry, b.state, wire, dest
    ensures dest[..n] == old(src[..n])
  {
    ghost var m := src[..n];
    ghost var enc := SetupAndEncrypt(a, k, nk, mode, iv, src, wire, n);
    ghost var dec := SetupAndDecrypt(b, k, nk, mode, iv, wire, dest, n);
    SameKeyMeansInverse(k, nk, enc, dec);
    ModeRoundTrip(enc, dec, mode, StartCarry(iv), m);
  }
}
