/**
 The tables and steps of the cipher against the words of FIPS 197: the field, the S-box as an inverse
 followed by an affine map, and the bytes each step takes from where.
*/
module AesStandard {
  import opened AesBlock
  import opened AesCipher

  // ---------------------------------------------------------------------------------------------
  // The field (section 4.2)
  // ---------------------------------------------------------------------------------------------

  /** Doubling is multiplication by x modulo x^8 + x^4 + x^3 + x + 1. */
  lemma XTimeIsRemainder(a: bv8)
    ensures (a as bv16) << 1 == (XTime(a) as bv16) ^ (if a & 0x80 != 0 then 0x11B else 0)
  {
  }

  function Add(p: bv8, q: bv8): bv8 { p ^ q }

  /** a times x^i. */
  function Doubled(a: bv8, i: nat): bv8 { if i == 0 then a else XTime(Doubled(a, i - 1)) }

  function Halved(b: bv8, i: nat): bv8 { if i == 0 then b else Halved(b, i - 1) >> 1 }

  /** The term for bit i of b. */
  function Term(a: bv8, b: bv8): bv8 { if b & 1 != 0 then a else 0 }

  /** The sum of the terms below n. */
  function Sum(a: bv8, b: bv8, n: nat): bv8 {
    if n == 0 then 0 else Add(Sum(a, b, n - 1), Term(Doubled(a, n - 1), Halved(b, n - 1)))
  }

  lemma TurnAdds(p: bv8, a: bv8, b: bv8, k: nat)
    requires k < 8
    ensures GmulFrom(p, a, b, k) == GmulFrom(Add(p, Term(a, b)), XTime(a), b >> 1, k + 1)
  {
    GmulUnfold(p, a, b, k);
    PickIsTerm(p, a, b);
  }

  lemma PickIsTerm(p: bv8, a: bv8, b: bv8)
    ensures (if b & 1 != 0 then p ^ a else p) == Add(p, Term(a, b))
  {
  }

  lemma {:induction false} LoopIsSum(a: bv8, b: bv8, k: nat)
    requires k <= 8
    ensures GmulFrom(Sum(a, b, k), Doubled(a, k), Halved(b, k), k) == Sum(a, b, 8)
    decreases 8 - k
  {
    if k < 8 {
      TurnAdds(Sum(a, b, k), Doubled(a, k), Halved(b, k), k);
      LoopIsSum(a, b, k + 1);
    }
  }

  /** The product of the code is the sum of a times x^i for the bits i of b. */
  lemma GmulIsSum(a: bv8, b: bv8)
    ensures Gmul(a, b) == Sum(a, b, 8)
  {
    LoopIsSum(a, b, 0);
  }

  lemma HalvedBits(b: bv8)
    ensures
      && Halved(b, 0) == b && Halved(b, 1) == b >> 1 && Halved(b, 2) == b >> 2 && Halved(b, 3) == b >> 3
      && Halved(b, 4) == b >> 4 && Halved(b, 5) == b >> 5 && Halved(b, 6) == b >> 6 && Halved(b, 7) == b >> 7
  {
    HalvedTwice(b);
    assert Halved(b, 2) == Halved(b, 1) >> 1 && Halved(b, 4) == Halved(b, 3) >> 1 && Halved(b, 6) == Halved(b, 5) >> 1;
  }

  lemma HalvedTwice(b: bv8)
    ensures (b >> 1) >> 1 == b >> 2 && (b >> 2) >> 1 == b >> 3 && (b >> 3) >> 1 == b >> 4
    ensures (b >> 4) >> 1 == b >> 5 && (b >> 5) >> 1 == b >> 6 && (b >> 6) >> 1 == b >> 7
  {
  }

  // ---------------------------------------------------------------------------------------------
  // The substitution (section 5.1.1)
  // ---------------------------------------------------------------------------------------------

  /** Bit i is the sum of the bits i, i + 4, i + 5, i + 6 and i + 7, modulo 8, and of bit i of 0x63. */
  function Affine(b: bv8): bv8 {
    b ^ ((b << 1) | (b >> 7)) ^ ((b << 2) | (b >> 6)) ^ ((b << 3) | (b >> 5)) ^ ((b << 4) | (b >> 4)) ^ 0x63
  }

  function InvAffine(b: bv8): bv8 { ((b << 1) | (b >> 7)) ^ ((b << 3) | (b >> 5)) ^ ((b << 6) | (b >> 2)) ^ 0x05 }

  lemma AffineInverse(b: bv8)
    ensures InvAffine(Affine(b)) == b && Affine(InvAffine(b)) == b
  {
  }

  /** The table entry is the affine map of the inverse in the field. */
  predicate EntryIsInverse(x: bv8) { Gmul(x, InvAffine(Sbox(x))) == 1 }

  lemma SboxRow0(x: bv8)
    requires 0 < x < 0x10
    ensures EntryIsInverse(x)
  {
  }

  lemma SboxRow1(x: bv8)
    requires 0x10 <= x < 0x20
    ensures EntryIsInverse(x)
  {
  }

  lemma SboxRow2(x: bv8)
    requires 0x20 <= x < 0x30
    ensures EntryIsInverse(x)
  {
  }

  lemma SboxRow3(x: bv8)
    requires 0x30 <= x < 0x40
    ensures EntryIsInverse(x)
  {
  }

  lemma SboxRow4(x: bv8)
    requires 0x40 <= x < 0x50
    ensures EntryIsInverse(x)
  {
  }

  lemma SboxRow5(x: bv8)
    requires 0x50 <= x < 0x60
    ensures EntryIsInverse(x)
  {
  }

  lemma SboxRow6(x: bv8)
    requires 0x60 <= x < 0x70
    ensures EntryIsInverse(x)
  {
  }

  lemma SboxRow7(x: bv8)
    requires 0x70 <= x < 0x80
    ensures EntryIsInverse(x)
  {
  }

  lemma SboxRow8(x: bv8)
    requires 0x80 <= x < 0x90
    ensures EntryIsInverse(x)
  {
  }

  lemma SboxRow9(x: bv8)
    requires 0x90 <= x < 0xA0
    ensures EntryIsInverse(x)
  {
  }

  lemma SboxRowA(x: bv8)
    requires 0xA0 <= x < 0xB0
    ensures EntryIsInverse(x)
  {
  }

  lemma SboxRowB(x: bv8)
    requires 0xB0 <= x < 0xC0
    ensures EntryIsInverse(x)
  {
  }

  lemma SboxRowC(x: bv8)
    requires 0xC0 <= x < 0xD0
    ensures EntryIsInverse(x)
  {
  }

  lemma SboxRowD(x: bv8)
    requires 0xD0 <= x < 0xE0
    ensures EntryIsInverse(x)
  {
  }

  lemma SboxRowE(x: bv8)
    requires 0xE0 <= x < 0xF0
    ensures EntryIsInverse(x)
  {
  }

  lemma SboxRowF(x: bv8)
    requires 0xF0 <= x
    ensures EntryIsInverse(x)
  {
  }

  /** The S-box is the inverse in the field, 0 taken for 0, followed by the affine map. */
  lemma SboxIsAffineOfInverse(x: bv8)
    ensures var y := InvAffine(Sbox(x));
            Sbox(x) == Affine(y) && if x == 0 then y == 0 else Gmul(x, y) == 1
  {
    AffineInverse(Sbox(x));
    if x == 0 {
      assert Sbox(x) == 0x63;
    } else if x < 0x10 {
      SboxRow0(x);
    } else if x < 0x20 {
      SboxRow1(x);
    } else if x < 0x30 {
      SboxRow2(x);
    } else if x < 0x40 {
      SboxRow3(x);
    } else if x < 0x50 {
      SboxRow4(x);
    } else if x < 0x60 {
      SboxRow5(x);
    } else if x < 0x70 {
      SboxRow6(x);
    } else if x < 0x80 {
      SboxRow7(x);
    } else if x < 0x90 {
      SboxRow8(x);
    } else if x < 0xA0 {
      SboxRow9(x);
    } else if x < 0xB0 {
      SboxRowA(x);
    } else if x < 0xC0 {
      SboxRowB(x);
    } else if x < 0xD0 {
      SboxRowC(x);
    } else if x < 0xE0 {
      SboxRowD(x);
    } else if x < 0xF0 {
      SboxRowE(x);
    } else {
      SboxRowF(x);
    }
  }

  // ---------------------------------------------------------------------------------------------
  // The other steps, with row r and column c as in section 3.4
  // ---------------------------------------------------------------------------------------------

  function At(s: Block, r: nat, c: nat): bv8
    requires r < 4 && c < 4
  {
    s[4 * c + r]
  }

  lemma ShiftRowsMoves(s: Block, r: nat, c: nat)
    requires r < 4 && c < 4
    ensures At(ShiftRows(s), r, c) == At(s, r, (c + r) % 4)
  {
  }

  lemma SubBytesEach(s: Block, r: nat, c: nat)
    requires r < 4 && c < 4
    ensures At(SubBytes(s), r, c) == Sbox(At(s, r, c))
  {
  }

  /** Section 5.1.3: the column is multiplied by the polynomial 3x^3 + x^2 + x + 2. */
  lemma MixColumnsMultiplies(s: Block, r: nat, c: nat)
    requires r < 4 && c < 4
    ensures At(MixColumns(s), r, c) ==
            Xor4(Gmul(At(s, r, c), 2), Gmul(At(s, (r + 1) % 4, c), 3), At(s, (r + 2) % 4, c), At(s, (r + 3) % 4, c))
  {
    var p, q, u, v := At(s, r, c), At(s, (r + 1) % 4, c), At(s, (r + 2) % 4, c), At(s, (r + 3) % 4, c);
    GmulBy2(p);
    GmulBy3(q);
    MixByteIsMatrixRow(p, q, u, v);
    MixedAt(s, r, c);
  }

  lemma MixedAt(s: Block, r: nat, c: nat)
    requires r < 4 && c < 4
    ensures At(MixColumns(s), r, c) ==
            MixByte(At(s, r, c), At(s, (r + 1) % 4, c), At(s, (r + 2) % 4, c), At(s, (r + 3) % 4, c))
  {
    ColumnAt(MixByte, s, r, c);
  }

  lemma ColumnAt(f: (bv8, bv8, bv8, bv8) -> bv8, s: Block, r: nat, c: nat)
    requires r < 4 && c < 4
    ensures At(ByColumns(f, s), r, c) ==
            f(At(s, r, c), At(s, (r + 1) % 4, c), At(s, (r + 2) % 4, c), At(s, (r + 3) % 4, c))
  {
    if r == 0 {
      assert 4 * c in {0, 4, 8, 12};
    } else if r == 1 {
      assert 4 * c in {0, 4, 8, 12};
    } else if r == 2 {
      assert 4 * c in {0, 4, 8, 12};
    }
  }

  /** A word of the schedule is a column, its first byte on top. */
  lemma KeyBytesAreWord(w: bv32)
    ensures Pack(KeyByte(w, 0), KeyByte(w, 1), KeyByte(w, 2), KeyByte(w, 3)) == w
    ensures w == (KeyByte(w, 0) as bv32) * 0x1000000 + (KeyByte(w, 1) as bv32) * 0x10000
                 + (KeyByte(w, 2) as bv32) * 0x100 + KeyByte(w, 3) as bv32
  {
  }

  lemma RoundKeyColumn(s: Block, w: seq<bv32>, round: nat, r: nat, c: nat)
    requires 4 * round + 4 <= |w| && r < 4 && c < 4
    ensures At(AddRoundKey(s, w, round), r, c) == At(s, r, c) ^ KeyByte(w[4 * round + c], r)
  {
  }

  // ---------------------------------------------------------------------------------------------
  // The key schedule (section 5.2)
  // ---------------------------------------------------------------------------------------------

  /** The round constants are the powers of x, in the first byte. */
  lemma RoundConstants(i: nat)
    requires i < 10
    ensures RCON[0] == Pack(1, 0, 0, 0)
    ensures i < 9 ==> RCON[i + 1] == Pack(XTime(KeyByte(RCON[i], 0)), 0, 0, 0)
  {
  }

  lemma SubPack(a: bv8, b: bv8, c: bv8, d: bv8)
    ensures SubWord(Pack(a, b, c, d)) == Pack(Sbox(a), Sbox(b), Sbox(c), Sbox(d))
  {
    UnpackPack(a, b, c, d);
  }

  lemma TurnedIs(w: bv32, turned: bv32, sub: bv32, rcon: bv32)
    requires RotWord(w) == turned && SubWord(turned) == sub
    ensures Turned(w, rcon) == Xor32(sub, rcon)
  {
  }

  /** The rotation takes the first byte to the end, and the constant falls on the new first byte. */
  lemma TurnedBytes(a: bv8, b: bv8, c: bv8, d: bv8, rcon: bv32)
    ensures Turned(Pack(a, b, c, d), rcon) == Xor32(Pack(Sbox(b), Sbox(c), Sbox(d), Sbox(a)), rcon)
  {
    RotPack(a, b, c, d);
    SubPack(b, c, d, a);
    TurnedIs(Pack(a, b, c, d), Pack(b, c, d, a), Pack(Sbox(b), Sbox(c), Sbox(d), Sbox(a)), rcon);
  }

  /** Words that follow the standard's recurrence: the key first, then each word from the one nk before it and
      from the one before it, substituted and turned at the multiples of nk, and for long keys substituted four
      words behind those. */
  ghost predicate IsExpansion(key: seq<bv8>, nk: nat, w: seq<bv32>)
    requires nk in {4, 6, 8} && |key| == 4 * nk
  {
    |w| <= 4 * (nk + 7) && forall i :: 0 <= i < |w| ==> Expanded(key, nk, w, i)
  }

  predicate Expanded(key: seq<bv8>, nk: nat, w: seq<bv32>, i: nat)
    requires nk in {4, 6, 8} && |key| == 4 * nk && i < |w| <= 4 * (nk + 7)
  {
    w[i] == if i < nk then Pack(key[4 * i], key[4 * i + 1], key[4 * i + 2], key[4 * i + 3])
            else Xor32(w[i - nk], Mixed(w[i - 1], i, nk))
  }

  function Mixed(temp: bv32, i: nat, nk: nat): bv32
    requires nk in {4, 6, 8} && nk <= i < 4 * (nk + 7)
  {
    if i % nk == 0 then Xor32(SubWord(RotWord(temp)), RCON[i / nk - 1])
    else if nk == 8 && i % nk == 4 then SubWord(temp)
    else temp
  }

  lemma ExpandedBefore(key: seq<bv8>, nk: nat, w: seq<bv32>, n: nat)
    requires nk in {4, 6, 8} && |key| == 4 * nk && n <= |w| && IsExpansion(key, nk, w)
    ensures IsExpansion(key, nk, w[..n])
  {
    forall i | 0 <= i < n
      ensures Expanded(key, nk, w[..n], i)
    {
      assert Expanded(key, nk, w, i);
    }
  }

  lemma ExpandedIsNext(key: seq<bv8>, nk: nat, w: seq<bv32>, n: nat)
    requires nk in {4, 6, 8} && |key| == 4 * nk && n < |w| <= 4 * (nk + 7) && Expanded(key, nk, w, n)
    ensures ScheduleWord(w[..n], key, nk) == w[n]
  {
    if n >= nk {
      SameMixed(w[n - 1], n, nk);
    }
  }

  /** The program's schedule is the only such sequence. */
  lemma {:induction false} ScheduleIsExpansion(key: seq<bv8>, nk: nat, w: seq<bv32>)
    requires nk in {4, 6, 8} && |key| == 4 * nk && IsExpansion(key, nk, w)
    ensures Schedule(key, nk, |w|) == w
  {
    if w != [] {
      var n := |w| - 1;
      ExpandedBefore(key, nk, w, n);
      ScheduleIsExpansion(key, nk, w[..n]);
      ExpandedIsNext(key, nk, w, n);
      assert w == w[..n] + [w[n]];
    }
  }

  lemma SameMixed(temp: bv32, i: nat, nk: nat)
    requires nk in {4, 6, 8} && nk <= i < 4 * (nk + 7)
    ensures Mixed(temp, i, nk) == ScheduleTemp(temp, i, nk)
  {
    assert nk > 6 <==> nk == 8;
  }

  // ---------------------------------------------------------------------------------------------
  // The cipher (sections 5.1 and 5.3)
  // ---------------------------------------------------------------------------------------------

  /** The states before the rounds 1, 2 and so on. */
  ghost predicate IsTrace(s: Block, w: seq<bv32>, t: seq<Block>) {
    && 0 < |t| && 4 * |t| <= |w| && t[0] == AddRoundKey(s, w, 0)
    && forall i {:trigger t[i]} :: 0 < i < |t| ==>
         t[i] == AddRoundKey(MixColumns(ShiftRows(SubBytes(t[i - 1]))), w, i)
  }

  lemma {:induction false} TraceAscends(s: Block, w: seq<bv32>, t: seq<Block>, i: nat)
    requires IsTrace(s, w, t) && 0 < i <= |t|
    ensures AscendFrom(RoundStep(w), t[i - 1], i, |t| - 1) == t[|t| - 1]
    decreases |t| - i
  {
    if i < |t| {
      assert t[i] == RoundStep(w)(t[i - 1], i);
      TraceAscends(s, w, t, i + 1);
    }
  }

  /** With n rounds the first n round keys are added one after the other, with the three steps between them, and
      the last behind a round without MixColumns. */
  lemma EncryptFollowsTrace(s: Block, w: seq<bv32>, t: seq<Block>)
    requires IsTrace(s, w, t) && 4 * |t| + 4 <= |w|
    ensures AesEncrypt(s, w, |t|) == AddRoundKey(ShiftRows(SubBytes(t[|t| - 1])), w, |t|)
  {
    TraceAscends(s, w, t, 1);
  }
}
