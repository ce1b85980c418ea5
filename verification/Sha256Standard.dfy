/**
 The constants and functions of the hash against the words of FIPS 180-4: roots of primes, rotations, words
 made of bytes, and the compression as the standard writes it down.
*/
module Sha256Standard {
  import opened Sha256

  // ---------------------------------------------------------------------------------------------
  // The constants (sections 4.2.2 and 5.3.3)
  // ---------------------------------------------------------------------------------------------

  // The first 64 primes.
  const FIRST0: seq<nat> := [2, 3, 5, 7, 11, 13, 17, 19]
  const FIRST1: seq<nat> := [23, 29, 31, 37, 41, 43, 47, 53]
  const FIRST2: seq<nat> := [59, 61, 67, 71, 73, 79, 83, 89]
  const FIRST3: seq<nat> := [97, 101, 103, 107, 109, 113, 127, 131]
  const FIRST4: seq<nat> := [137, 139, 149, 151, 157, 163, 167, 173]
  const FIRST5: seq<nat> := [179, 181, 191, 193, 197, 199, 211, 223]
  const FIRST6: seq<nat> := [227, 229, 233, 239, 241, 251, 257, 263]
  const FIRST7: seq<nat> := [269, 271, 277, 281, 283, 293, 307, 311]

  const PRIMES: seq<nat> := FIRST0 + FIRST1 + FIRST2 + FIRST3 + FIRST4 + FIRST5 + FIRST6 + FIRST7

  /** x, in units of 2^-32, is the cube root of p cut off behind 32 binary places. */
  predicate IsCubeRoot(x: nat, p: nat) {
    x * x * x <= p * 0x1_0000_0000_0000_0000_0000_0000 < (x + 1) * (x + 1) * (x + 1)
  }

  predicate IsSquareRoot(x: nat, p: nat) { x * x <= p * 0x1_0000_0000_0000_0000 < (x + 1) * (x + 1) }

  /** The word is the fraction of the root. */
  ghost predicate CubeRootFraction(k: bv32, p: nat) {
    exists whole: nat :: IsCubeRoot(whole * 0x1_0000_0000 + k as int, p)
  }

  ghost predicate SquareRootFraction(k: bv32, p: nat) {
    exists whole: nat :: IsSquareRoot(whole * 0x1_0000_0000 + k as int, p)
  }

  lemma CubeRootIs(k: bv32, n: nat, whole: nat, x: nat, p: nat)
    requires k as int == n && x == whole * 0x1_0000_0000 + n && IsCubeRoot(x, p)
    ensures CubeRootFraction(k, p)
  {
    assert IsCubeRoot(whole * 0x1_0000_0000 + k as int, p);
  }

  lemma SquareRootIs(k: bv32, n: nat, whole: nat, x: nat, p: nat)
    requires k as int == n && x == whole * 0x1_0000_0000 + n && IsSquareRoot(x, p)
    ensures SquareRootFraction(k, p)
  {
    assert IsSquareRoot(whole * 0x1_0000_0000 + k as int, p);
  }

  /** The words are the fractions of the cube roots of the numbers. */
  ghost predicate Fits(k: seq<bv32>, p: seq<nat>) {
    |k| == |p| && forall t :: 0 <= t < |k| ==> CubeRootFraction(k[t], p[t])
  }

  lemma FitsOn(k: seq<bv32>, p: seq<nat>, l: seq<bv32>, q: seq<nat>)
    requires Fits(k, p) && Fits(l, q)
    ensures Fits(k + l, p + q)
  {
  }

  lemma CubeRootsRow0()
    ensures Fits(ROW0, FIRST0)
  {
    CubeRootIs(0x428A2F98, 0x428A2F98, 1, 0x1_428A2F98, 2);
    CubeRootIs(0x71374491, 0x71374491, 1, 0x1_71374491, 3);
    CubeRootIs(0xB5C0FBCF, 0xB5C0FBCF, 1, 0x1_B5C0FBCF, 5);
    CubeRootIs(0xE9B5DBA5, 0xE9B5DBA5, 1, 0x1_E9B5DBA5, 7);
    CubeRootIs(0x3956C25B, 0x3956C25B, 2, 0x2_3956C25B, 11);
    CubeRootIs(0x59F111F1, 0x59F111F1, 2, 0x2_59F111F1, 13);
    CubeRootIs(0x923F82A4, 0x923F82A4, 2, 0x2_923F82A4, 17);
    CubeRootIs(0xAB1C5ED5, 0xAB1C5ED5, 2, 0x2_AB1C5ED5, 19);
  }

  lemma CubeRootsRow1()
    ensures Fits(ROW1, FIRST1)
  {
    CubeRootIs(0xD807AA98, 0xD807AA98, 2, 0x2_D807AA98, 23);
    CubeRootIs(0x12835B01, 0x12835B01, 3, 0x3_12835B01, 29);
    CubeRootIs(0x243185BE, 0x243185BE, 3, 0x3_243185BE, 31);
    CubeRootIs(0x550C7DC3, 0x550C7DC3, 3, 0x3_550C7DC3, 37);
    CubeRootIs(0x72BE5D74, 0x72BE5D74, 3, 0x3_72BE5D74, 41);
    CubeRootIs(0x80DEB1FE, 0x80DEB1FE, 3, 0x3_80DEB1FE, 43);
    CubeRootIs(0x9BDC06A7, 0x9BDC06A7, 3, 0x3_9BDC06A7, 47);
    CubeRootIs(0xC19BF174, 0xC19BF174, 3, 0x3_C19BF174, 53);
  }

  lemma CubeRootsRow2()
    ensures Fits(ROW2, FIRST2)
  {
    CubeRootIs(0xE49B69C1, 0xE49B69C1, 3, 0x3_E49B69C1, 59);
    CubeRootIs(0xEFBE4786, 0xEFBE4786, 3, 0x3_EFBE4786, 61);
    CubeRootIs(0x0FC19DC6, 0x0FC19DC6, 4, 0x4_0FC19DC6, 67);
    CubeRootIs(0x240CA1CC, 0x240CA1CC, 4, 0x4_240CA1CC, 71);
    CubeRootIs(0x2DE92C6F, 0x2DE92C6F, 4, 0x4_2DE92C6F, 73);
    CubeRootIs(0x4A7484AA, 0x4A7484AA, 4, 0x4_4A7484AA, 79);
    CubeRootIs(0x5CB0A9DC, 0x5CB0A9DC, 4, 0x4_5CB0A9DC, 83);
    CubeRootIs(0x76F988DA, 0x76F988DA, 4, 0x4_76F988DA, 89);
  }

  lemma CubeRootsRow3()
    ensures Fits(ROW3, FIRST3)
  {
    CubeRootIs(0x983E5152, 0x983E5152, 4, 0x4_983E5152, 97);
    CubeRootIs(0xA831C66D, 0xA831C66D, 4, 0x4_A831C66D, 101);
    CubeRootIs(0xB00327C8, 0xB00327C8, 4, 0x4_B00327C8, 103);
    CubeRootIs(0xBF597FC7, 0xBF597FC7, 4, 0x4_BF597FC7, 107);
    CubeRootIs(0xC6E00BF3, 0xC6E00BF3, 4, 0x4_C6E00BF3, 109);
    CubeRootIs(0xD5A79147, 0xD5A79147, 4, 0x4_D5A79147, 113);
    CubeRootIs(0x06CA6351, 0x06CA6351, 5, 0x5_06CA6351, 127);
    CubeRootIs(0x14292967, 0x14292967, 5, 0x5_14292967, 131);
  }

  lemma CubeRootsRow4()
    ensures Fits(ROW4, FIRST4)
  {
    CubeRootIs(0x27B70A85, 0x27B70A85, 5, 0x5_27B70A85, 137);
    CubeRootIs(0x2E1B2138, 0x2E1B2138, 5, 0x5_2E1B2138, 139);
    CubeRootIs(0x4D2C6DFC, 0x4D2C6DFC, 5, 0x5_4D2C6DFC, 149);
    CubeRootIs(0x53380D13, 0x53380D13, 5, 0x5_53380D13, 151);
    CubeRootIs(0x650A7354, 0x650A7354, 5, 0x5_650A7354, 157);
    CubeRootIs(0x766A0ABB, 0x766A0ABB, 5, 0x5_766A0ABB, 163);
    CubeRootIs(0x81C2C92E, 0x81C2C92E, 5, 0x5_81C2C92E, 167);
    CubeRootIs(0x92722C85, 0x92722C85, 5, 0x5_92722C85, 173);
  }

  lemma CubeRootsRow5()
    ensures Fits(ROW5, FIRST5)
  {
    CubeRootIs(0xA2BFE8A1, 0xA2BFE8A1, 5, 0x5_A2BFE8A1, 179);
    CubeRootIs(0xA81A664B, 0xA81A664B, 5, 0x5_A81A664B, 181);
    CubeRootIs(0xC24B8B70, 0xC24B8B70, 5, 0x5_C24B8B70, 191);
    CubeRootIs(0xC76C51A3, 0xC76C51A3, 5, 0x5_C76C51A3, 193);
    CubeRootIs(0xD192E819, 0xD192E819, 5, 0x5_D192E819, 197);
    CubeRootIs(0xD6990624, 0xD6990624, 5, 0x5_D6990624, 199);
    CubeRootIs(0xF40E3585, 0xF40E3585, 5, 0x5_F40E3585, 211);
    CubeRootIs(0x106AA070, 0x106AA070, 6, 0x6_106AA070, 223);
  }

  lemma CubeRootsRow6()
    ensures Fits(ROW6, FIRST6)
  {
    CubeRootIs(0x19A4C116, 0x19A4C116, 6, 0x6_19A4C116, 227);
    CubeRootIs(0x1E376C08, 0x1E376C08, 6, 0x6_1E376C08, 229);
    CubeRootIs(0x2748774C, 0x2748774C, 6, 0x6_2748774C, 233);
    CubeRootIs(0x34B0BCB5, 0x34B0BCB5, 6, 0x6_34B0BCB5, 239);
    CubeRootIs(0x391C0CB3, 0x391C0CB3, 6, 0x6_391C0CB3, 241);
    CubeRootIs(0x4ED8AA4A, 0x4ED8AA4A, 6, 0x6_4ED8AA4A, 251);
    CubeRootIs(0x5B9CCA4F, 0x5B9CCA4F, 6, 0x6_5B9CCA4F, 257);
    CubeRootIs(0x682E6FF3, 0x682E6FF3, 6, 0x6_682E6FF3, 263);
  }

  lemma CubeRootsRow7()
    ensures Fits(ROW7, FIRST7)
  {
    CubeRootIs(0x748F82EE, 0x748F82EE, 6, 0x6_748F82EE, 269);
    CubeRootIs(0x78A5636F, 0x78A5636F, 6, 0x6_78A5636F, 271);
    CubeRootIs(0x84C87814, 0x84C87814, 6, 0x6_84C87814, 277);
    CubeRootIs(0x8CC70208, 0x8CC70208, 6, 0x6_8CC70208, 281);
    CubeRootIs(0x90BEFFFA, 0x90BEFFFA, 6, 0x6_90BEFFFA, 283);
    CubeRootIs(0xA4506CEB, 0xA4506CEB, 6, 0x6_A4506CEB, 293);
    CubeRootIs(0xBEF9A3F7, 0xBEF9A3F7, 6, 0x6_BEF9A3F7, 307);
    CubeRootIs(0xC67178F2, 0xC67178F2, 6, 0x6_C67178F2, 311);
  }

  /** K holds the fractions of the cube roots of the first 64 primes. */
  lemma RoundConstantsAreCubeRoots()
    ensures |K| == 64 && Fits(K, PRIMES)
  {
    CubeRootsRow0();
    CubeRootsRow1();
    CubeRootsRow2();
    CubeRootsRow3();
    CubeRootsRow4();
    CubeRootsRow5();
    CubeRootsRow6();
    CubeRootsRow7();
    Eight(ROW0, ROW1, ROW2, ROW3, ROW4, ROW5, ROW6, ROW7,
          FIRST0, FIRST1, FIRST2, FIRST3, FIRST4, FIRST5, FIRST6, FIRST7);
  }

  lemma Eight(k0: seq<bv32>, k1: seq<bv32>, k2: seq<bv32>, k3: seq<bv32>,
              k4: seq<bv32>, k5: seq<bv32>, k6: seq<bv32>, k7: seq<bv32>,
              p0: seq<nat>, p1: seq<nat>, p2: seq<nat>, p3: seq<nat>,
              p4: seq<nat>, p5: seq<nat>, p6: seq<nat>, p7: seq<nat>)
    requires Fits(k0, p0) && Fits(k1, p1) && Fits(k2, p2) && Fits(k3, p3)
    requires Fits(k4, p4) && Fits(k5, p5) && Fits(k6, p6) && Fits(k7, p7)
    ensures Fits(k0 + k1 + k2 + k3 + k4 + k5 + k6 + k7, p0 + p1 + p2 + p3 + p4 + p5 + p6 + p7)
  {
    FitsOn(k0, p0, k1, p1);
    FitsOn(k0 + k1, p0 + p1, k2, p2);
    FitsOn(k0 + k1 + k2, p0 + p1 + p2, k3, p3);
    FitsOn(k0 + k1 + k2 + k3, p0 + p1 + p2 + p3, k4, p4);
    FitsOn(k0 + k1 + k2 + k3 + k4, p0 + p1 + p2 + p3 + p4, k5, p5);
    FitsOn(k0 + k1 + k2 + k3 + k4 + k5, p0 + p1 + p2 + p3 + p4 + p5, k6, p6);
    FitsOn(k0 + k1 + k2 + k3 + k4 + k5 + k6, p0 + p1 + p2 + p3 + p4 + p5 + p6, k7, p7);
  }

  /** The initial words are those of the square roots of the first eight primes. */
  lemma InitialWordsAreSquareRoots()
    ensures SquareRootFraction(IV.a, 2) && SquareRootFraction(IV.b, 3) && SquareRootFraction(IV.c, 5)
    ensures SquareRootFraction(IV.d, 7) && SquareRootFraction(IV.e, 11) && SquareRootFraction(IV.f, 13)
    ensures SquareRootFraction(IV.g, 17) && SquareRootFraction(IV.h, 19)
  {
    SquareRootIs(0x6A09E667, 0x6A09E667, 1, 0x1_6A09E667, 2);
    SquareRootIs(0xBB67AE85, 0xBB67AE85, 1, 0x1_BB67AE85, 3);
    SquareRootIs(0x3C6EF372, 0x3C6EF372, 2, 0x2_3C6EF372, 5);
    SquareRootIs(0xA54FF53A, 0xA54FF53A, 2, 0x2_A54FF53A, 7);
    SquareRootIs(0x510E527F, 0x510E527F, 3, 0x3_510E527F, 11);
    SquareRootIs(0x9B05688C, 0x9B05688C, 3, 0x3_9B05688C, 13);
    SquareRootIs(0x1F83D9AB, 0x1F83D9AB, 4, 0x4_1F83D9AB, 17);
    SquareRootIs(0x5BE0CD19, 0x5BE0CD19, 4, 0x4_5BE0CD19, 19);
  }

  // ---------------------------------------------------------------------------------------------
  // The functions (section 4.1.2)
  // ---------------------------------------------------------------------------------------------

  lemma SigmasRotate(x: bv32)
    ensures Sigma0(x) == x.RotateRight(2) ^ x.RotateRight(13) ^ x.RotateRight(22)
    ensures Sigma1(x) == x.RotateRight(6) ^ x.RotateRight(11) ^ x.RotateRight(25)
    ensures Gamma0(x) == x.RotateRight(7) ^ x.RotateRight(18) ^ (x >> 3)
    ensures Gamma1(x) == x.RotateRight(17) ^ x.RotateRight(19) ^ (x >> 10)
  {
  }

  /** Four bytes make a word, the first one on top, and a word is taken apart the same way. */
  lemma WordsAreBigEndian(a: bv8, b: bv8, c: bv8, d: bv8)
    ensures Load32(a, b, c, d) >> 24 == a as bv32 && (Load32(a, b, c, d) >> 16) & 255 == b as bv32
    ensures (Load32(a, b, c, d) >> 8) & 255 == c as bv32 && Load32(a, b, c, d) & 255 == d as bv32
  {
  }

  lemma StoreUndoesLoad(a: bv8, b: bv8, c: bv8, d: bv8)
    ensures Store32(Load32(a, b, c, d)) == [a, b, c, d]
  {
  }

  // ---------------------------------------------------------------------------------------------
  // The padding (section 5.1.1)
  // ---------------------------------------------------------------------------------------------

  /** The length field holds the bytes of the number, the first one counting most. */
  lemma LengthBytes(n: nat)
    requires n < 0x1_0000_0000_0000_0000
    ensures var s := Store64(n);
            && s[0] == (n / 0x100_0000_0000_0000 % 256) as bv8 && s[1] == (n / 0x1_0000_0000_0000 % 256) as bv8
            && s[2] == (n / 0x100_0000_0000 % 256) as bv8 && s[3] == (n / 0x1_0000_0000 % 256) as bv8
            && s[4] == (n / 0x100_0000 % 256) as bv8 && s[5] == (n / 0x1_0000 % 256) as bv8
            && s[6] == (n / 0x100 % 256) as bv8 && s[7] == (n % 256) as bv8
  {
    ByteSeven(n);
    ByteThree(n);
  }

  lemma ByteThree(n: nat)
    ensures ByteAt(n, 0) == (n % 256) as bv8 && ByteAt(n, 1) == (n / 0x100 % 256) as bv8
    ensures ByteAt(n, 2) == (n / 0x1_0000 % 256) as bv8 && ByteAt(n, 3) == (n / 0x100_0000 % 256) as bv8
  {
    assert ByteAt(n / 256 / 256, 0) == (n / 256 / 256 % 256) as bv8;
    assert ByteAt(n / 256 / 256 / 256, 0) == (n / 256 / 256 / 256 % 256) as bv8;
    Divided(n);
  }

  lemma Divided(n: nat)
    ensures n / 256 / 256 == n / 0x1_0000 && n / 256 / 256 / 256 == n / 0x100_0000
    ensures n / 256 / 256 / 256 / 256 == n / 0x1_0000_0000
  {
  }

  lemma ByteSeven(n: nat)
    ensures ByteAt(n, 4) == (n / 0x1_0000_0000 % 256) as bv8 && ByteAt(n, 5) == (n / 0x100_0000_0000 % 256) as bv8
    ensures ByteAt(n, 6) == (n / 0x1_0000_0000_0000 % 256) as bv8
    ensures ByteAt(n, 7) == (n / 0x100_0000_0000_0000 % 256) as bv8
  {
    var m := n / 256 / 256 / 256 / 256;
    FourDown(n, 4);
    FourDown(n, 5);
    FourDown(n, 6);
    FourDown(n, 7);
    ByteThree(m);
    Divided(n);
    HighPart(n, m);
  }

  lemma FourDown(n: nat, i: nat)
    requires 4 <= i
    ensures ByteAt(n, i) == ByteAt(n / 256 / 256 / 256 / 256, i - 4)
  {
    assert ByteAt(n, i) == ByteAt(n / 256, i - 1) == ByteAt(n / 256 / 256, i - 2);
    assert ByteAt(n / 256 / 256, i - 2) == ByteAt(n / 256 / 256 / 256, i - 3);
  }

  lemma HighPart(n: nat, m: nat)
    requires m == n / 0x1_0000_0000
    ensures m / 0x100 == n / 0x100_0000_0000 && m / 0x1_0000 == n / 0x1_0000_0000_0000
    ensures m / 0x100_0000 == n / 0x100_0000_0000_0000
  {
  }

  /** The message, a one bit, as few zeros as fill the block up, and the number of bits modulo 2^64. */
  lemma PaddingIs(m: seq<bv8>)
    ensures var p := Pad(m);
            && |p| % 64 == 0 && |m| + 9 <= |p| < |m| + 9 + 64
            && p[..|m|] == m && p[|m|] == 0x80 && (forall i :: |m| < i < |p| - 8 ==> p[i] == 0)
            && p[|p| - 8..] == Store64(8 * |m| % 0x1_0000_0000_0000_0000)
  {
    var p := Pad(m);
    assert p[|p| - 8..] == Store64(8 * |m| % 0x1_0000_0000_0000_0000);
  }

  // ---------------------------------------------------------------------------------------------
  // The compression (section 6.2.2)
  // ---------------------------------------------------------------------------------------------

  /** Step 1: sixteen words of the block, and each further one from four before it. */
  ghost predicate IsSchedule(block: seq<bv8>, w: seq<bv32>)
    requires |block| == 64
  {
    |w| == 64 && forall t :: 0 <= t < 64 ==> IsWord(block, w, t)
  }

  predicate IsWord(block: seq<bv8>, w: seq<bv32>, t: nat)
    requires |block| == 64 && t < |w|
  {
    w[t] == if t < 16 then Load32(block[4 * t], block[4 * t + 1], block[4 * t + 2], block[4 * t + 3])
            else Sum2(Sum2(Sum2(Gamma1(w[t - 2]), w[t - 7]), Gamma0(w[t - 15])), w[t - 16])
  }

  lemma NextOfSchedule(block: seq<bv8>, w: seq<bv32>, n: nat)
    requires |block| == 64 && IsSchedule(block, w) && n < 64
    ensures NextWord(w[..n], block) == w[n]
  {
    assert IsWord(block, w, n);
  }

  lemma {:induction false} ScheduleExpands(block: seq<bv8>, w: seq<bv32>, n: nat)
    requires |block| == 64 && IsSchedule(block, w) && n <= 64
    ensures Expand(w[..n], block) == w
    decreases 64 - n
  {
    if n == 64 {
      assert w[..64] == w;
    } else {
      NextOfSchedule(block, w, n);
      assert w[..n + 1] == w[..n] + [w[n]];
      ScheduleExpands(block, w, n + 1);
      ExpandTurn(w[..n], block, w[n]);
    }
  }

  lemma ExpandTurn(v: seq<bv32>, block: seq<bv8>, next: bv32)
    requires |block| == 64 && |v| < 64 && NextWord(v, block) == next
    ensures Expand(v, block) == Expand(v + [next], block)
  {
  }

  /** Step 3: t is s after one round with the constant k and the word w. */
  predicate IsNext(s: Words, k: bv32, w: bv32, t: Words) {
    var t1 := Sum2(Sum2(Sum2(Sum2(s.h, Sigma1(s.e)), Choose(s.e, s.f, s.g)), k), w);
    var t2 := Sum2(Sigma0(s.a), Majority(s.a, s.b, s.c));
    && t.h == s.g && t.g == s.f && t.f == s.e && t.e == Sum2(s.d, t1)
    && t.d == s.c && t.c == s.b && t.b == s.a && t.a == Sum2(t1, t2)
  }

  ghost predicate IsRun(s: Words, w: seq<bv32>, r: seq<Words>)
    requires |w| == 64
  {
    |r| == 65 && r[0] == s && forall t :: 0 <= t < 64 ==> IsNext(r[t], K[t], w[t], r[t + 1])
  }

  lemma {:induction false} RunIsRounds(s: Words, w: seq<bv32>, r: seq<Words>, n: nat)
    requires |w| == 64 && IsRun(s, w, r) && n <= 64
    ensures Rounds(s, w[..n]) == r[n]
  {
    if n > 0 {
      RunIsRounds(s, w, r, n - 1);
      assert w[..n][..n - 1] == w[..n - 1] && w[..n][n - 1] == w[n - 1];
      assert IsNext(r[n - 1], K[n - 1], w[n - 1], r[n - 1 + 1]);
    }
  }

  /** Step 4: whatever words and states follow the steps, the compression is the sum of the first and the last. */
  lemma CompressFollowsSteps(s: Words, block: Chunk, w: seq<bv32>, r: seq<Words>)
    requires IsSchedule(block, w) && IsRun(s, w, r)
    ensures Compress(s, block) ==
            Words(Sum2(s.a, r[64].a), Sum2(s.b, r[64].b), Sum2(s.c, r[64].c), Sum2(s.d, r[64].d),
                  Sum2(s.e, r[64].e), Sum2(s.f, r[64].f), Sum2(s.g, r[64].g), Sum2(s.h, r[64].h))
  {
    assert w[..0] == [] && w[..64] == w;
    ScheduleExpands(block, w, 0);
    RunIsRounds(s, w, r, 64);
  }

  // ---------------------------------------------------------------------------------------------
  // The digest (section 6.2)
  // ---------------------------------------------------------------------------------------------

  /** The blocks go through the compression in order, from the initial words on. */
  lemma BlocksInOrder(f: Compression, data: seq<bv8>, block: Chunk)
    requires |data| % 64 == 0
    ensures |data + block| % 64 == 0 && Fold(f, []) == IV && Fold(f, data + block) == f(Fold(f, data), block)
  {
    var all := data + block;
    assert all[..|all| - 64] == data && all[|all| - 64..] == block;
  }

  /** The digest is the eight words in order; for a short message after a single compression. */
  lemma DigestOfShort(m: seq<bv8>)
    requires |m| <= 55
    ensures |Pad(m)| == 64
    ensures var s := Compress(IV, Pad(m));
            Hash(m) == Store32(s.a) + Store32(s.b) + Store32(s.c) + Store32(s.d)
                       + Store32(s.e) + Store32(s.f) + Store32(s.g) + Store32(s.h)
  {
    PaddingIs(m);
    var p := Pad(m);
    assert [] + p == p;
    BlocksInOrder(Sha256Compression(), [], p);
  }
}
