/**
 The AES block transformation (sections 5.1 and 5.3 of FIPS 197), as functions on 16-byte states,
 and the proof that decryption undoes encryption for every key schedule and every round count.
 A state is the flat 16-byte array of the program: byte 4*c + r is row r of column c.
*/
module AesBlock {

  type Block = s: seq<bv8> | |s| == 16 witness seq(16, _ => 0)

  // ---------------------------------------------------------------------------------------------
  // Substitution tables: one 16-byte row per value of the high nibble
  // ---------------------------------------------------------------------------------------------

  function SboxRow(x: bv8): bv128 {
    if x < 0x80 then
      if x < 0x40 then
        if x < 0x20 then
          if x < 0x10 then
            0x637C777B_F26B6FC5_3001672B_FED7AB76
          else
            0xCA82C97D_FA5947F0_ADD4A2AF_9CA472C0
        else
          if x < 0x30 then
            0xB7FD9326_363FF7CC_34A5E5F1_71D83115
          else
            0x04C723C3_1896059A_071280E2_EB27B275
      else
        if x < 0x60 then
          if x < 0x50 then
            0x09832C1A_1B6E5AA0_523BD6B3_29E32F84
          else
            0x53D100ED_20FCB15B_6ACBBE39_4A4C58CF
        else
          if x < 0x70 then
            0xD0EFAAFB_434D3385_45F9027F_503C9FA8
          else
            0x51A3408F_929D38F5_BCB6DA21_10FFF3D2
    else
      if x < 0xC0 then
        if x < 0xA0 then
          if x < 0x90 then
            0xCD0C13EC_5F974417_C4A77E3D_645D1973
          else
            0x60814FDC_222A9088_46EEB814_DE5E0BDB
        else
          if x < 0xB0 then
            0xE0323A0A_4906245C_C2D3AC62_9195E479
          else
            0xE7C8376D_8DD54EA9_6C56F4EA_657AAE08
      else
        if x < 0xE0 then
          if x < 0xD0 then
            0xBA78252E_1CA6B4C6_E8DD741F_4BBD8B8A
          else
            0x703EB566_4803F60E_613557B9_86C11D9E
        else
          if x < 0xF0 then
            0xE1F89811_69D98E94_9B1E87E9_CE5528DF
          else
            0x8CA1890D_BFE64268_41992D0F_B054BB16
  }

  function InvSboxRow(x: bv8): bv128 {
    if x < 0x80 then
      if x < 0x40 then
        if x < 0x20 then
          if x < 0x10 then
            0x52096AD5_3036A538_BF40A39E_81F3D7FB
          else
            0x7CE33982_9B2FFF87_348E4344_C4DEE9CB
        else
          if x < 0x30 then
            0x547B9432_A6C2233D_EE4C950B_42FAC34E
          else
            0x082EA166_28D924B2_765BA249_6D8BD125
      else
        if x < 0x60 then
          if x < 0x50 then
            0x72F8F664_86689816_D4A45CCC_5D65B692
          else
            0x6C704850_FDEDB9DA_5E154657_A78D9D84
        else
          if x < 0x70 then
            0x90D8AB00_8CBCD30A_F7E45805_B8B34506
          else
            0xD02C1E8F_CA3F0F02_C1AFBD03_01138A6B
    else
      if x < 0xC0 then
        if x < 0xA0 then
          if x < 0x90 then
            0x3A911141_4F67DCEA_97F2CFCE_F0B4E673
          else
            0x96AC7422_E7AD3585_E2F937E8_1C75DF6E
        else
          if x < 0xB0 then
            0x47F11A71_1D29C589_6FB7620E_AA18BE1B
          else
            0xFC563E4B_C6D27920_9ADBC0FE_78CD5AF4
      else
        if x < 0xE0 then
          if x < 0xD0 then
            0x1FDDA833_8807C731_B1121059_2780EC5F
          else
            0x60517FA9_19B54A0D_2DE57A9F_93C99CEF
        else
          if x < 0xF0 then
            0xA0E03B4D_AE2AF5B0_C8EBBB3C_83539961
          else
            0x172B047E_BA77D626_E1691463_55210C7D
  }

  /** Entry number (low nibble of i) of a row. */
  function Entry(row: bv128, i: bv8): bv8 {
    ((row >> (120 - 8 * (i & 0x0F)) as bv128 as bv7) & 0xFF) as bv8
  }

  function Sbox(x: bv8): bv8 { Entry(SboxRow(x), x) }

  function InvSbox(x: bv8): bv8 { Entry(InvSboxRow(x), x) }

  /** The second table undoes the first. */
  lemma SboxInverse(x: bv8)
    ensures InvSbox(Sbox(x)) == x
  {
  }

  // ---------------------------------------------------------------------------------------------
  // The field multiplication, as the program's shift-and-add loop computes it
  // ---------------------------------------------------------------------------------------------

  /** One doubling in the field: shift, and reduce by 0x1B when a bit falls out. */
  function XTime(a: bv8): bv8 { if a & 0x80 != 0 then (a << 1) ^ 0x1B else a << 1 }

  /** The result of gmul's loop, from accumulator p with `counter` of its 8 turns done. */
  function GmulFrom(p: bv8, a: bv8, b: bv8, counter: nat): bv8
    requires counter <= 8
    decreases 8 - counter
  {
    if counter == 8 then p
    else GmulFrom(if b & 1 != 0 then p ^ a else p, XTime(a), b >> 1, counter + 1)
  }

  function Gmul(a: bv8, b: bv8): bv8 { GmulFrom(0, a, b, 0) }

  function Xor4(p: bv8, q: bv8, r: bv8, s: bv8): bv8 { p ^ q ^ r ^ s }

  // The multiples by the six constants of the MixColumns matrices, written without branches.

  function Times2(a: bv8): bv8 { (a << 1) ^ (a >> 7) ^ ((a >> 7) << 1) ^ ((a >> 7) << 3) ^ ((a >> 7) << 4) }

  /** The branch-free form is the program's doubling.  It stands written out below wherever several
      doublings meet, which keeps those identities within the reach of bit-level rewriting. */
  lemma Times2IsXTime(a: bv8)
    ensures Times2(a) == XTime(a)
  {
  }

  function Times3(a: bv8): bv8 { (a << 1) ^ (a >> 7) ^ ((a >> 7) << 1) ^ ((a >> 7) << 3) ^ ((a >> 7) << 4) ^ a }

  function Times9(a: bv8): bv8 {
    var a1 := (a << 1) ^ (a >> 7) ^ ((a >> 7) << 1) ^ ((a >> 7) << 3) ^ ((a >> 7) << 4);
    var a2 := (a1 << 1) ^ (a1 >> 7) ^ ((a1 >> 7) << 1) ^ ((a1 >> 7) << 3) ^ ((a1 >> 7) << 4);
    var a3 := (a2 << 1) ^ (a2 >> 7) ^ ((a2 >> 7) << 1) ^ ((a2 >> 7) << 3) ^ ((a2 >> 7) << 4);
    a3 ^ a
  }

  function Times11(a: bv8): bv8 {
    var a1 := (a << 1) ^ (a >> 7) ^ ((a >> 7) << 1) ^ ((a >> 7) << 3) ^ ((a >> 7) << 4);
    var a2 := (a1 << 1) ^ (a1 >> 7) ^ ((a1 >> 7) << 1) ^ ((a1 >> 7) << 3) ^ ((a1 >> 7) << 4);
    var a3 := (a2 << 1) ^ (a2 >> 7) ^ ((a2 >> 7) << 1) ^ ((a2 >> 7) << 3) ^ ((a2 >> 7) << 4);
    a3 ^ a1 ^ a
  }

  function Times13(a: bv8): bv8 {
    var a1 := (a << 1) ^ (a >> 7) ^ ((a >> 7) << 1) ^ ((a >> 7) << 3) ^ ((a >> 7) << 4);
    var a2 := (a1 << 1) ^ (a1 >> 7) ^ ((a1 >> 7) << 1) ^ ((a1 >> 7) << 3) ^ ((a1 >> 7) << 4);
    var a3 := (a2 << 1) ^ (a2 >> 7) ^ ((a2 >> 7) << 1) ^ ((a2 >> 7) << 3) ^ ((a2 >> 7) << 4);
    a3 ^ a2 ^ a
  }

  function Times14(a: bv8): bv8 {
    var a1 := (a << 1) ^ (a >> 7) ^ ((a >> 7) << 1) ^ ((a >> 7) << 3) ^ ((a >> 7) << 4);
    var a2 := (a1 << 1) ^ (a1 >> 7) ^ ((a1 >> 7) << 1) ^ ((a1 >> 7) << 3) ^ ((a1 >> 7) << 4);
    var a3 := (a2 << 1) ^ (a2 >> 7) ^ ((a2 >> 7) << 1) ^ ((a2 >> 7) << 3) ^ ((a2 >> 7) << 4);
    a3 ^ a2 ^ a1
  }

  lemma GmulBy2(a: bv8)
    ensures Gmul(a, 2) == Times2(a)
  {
    Times2IsXTime(a);
  }

  lemma GmulBy3(a: bv8)
    ensures Gmul(a, 3) == Times3(a)
  {
  }

  lemma GmulBy9(a: bv8)
    ensures Gmul(a, 9) == Times9(a)
  {
  }

  lemma GmulBy11(a: bv8)
    ensures Gmul(a, 0x0B) == Times11(a)
  {
  }

  lemma GmulBy13(a: bv8)
    ensures Gmul(a, 0x0D) == Times13(a)
  {
  }

  lemma GmulBy14(a: bv8)
    ensures Gmul(a, 0x0E) == Times14(a)
  {
  }

  /** One output byte of MixColumns; the other three are its values on the rotated column. */
  function MixByte(a: bv8, b: bv8, c: bv8, d: bv8): bv8 {
    var xa := (a << 1) ^ (a >> 7) ^ ((a >> 7) << 1) ^ ((a >> 7) << 3) ^ ((a >> 7) << 4);
    var xb := (b << 1) ^ (b >> 7) ^ ((b >> 7) << 1) ^ ((b >> 7) << 3) ^ ((b >> 7) << 4);
    xa ^ (xb ^ b) ^ c ^ d
  }

  /** One output byte of the inverse. */
  function InvMixByte(a: bv8, b: bv8, c: bv8, d: bv8): bv8 {
    var a1 := (a << 1) ^ (a >> 7) ^ ((a >> 7) << 1) ^ ((a >> 7) << 3) ^ ((a >> 7) << 4);
    var a2 := (a1 << 1) ^ (a1 >> 7) ^ ((a1 >> 7) << 1) ^ ((a1 >> 7) << 3) ^ ((a1 >> 7) << 4);
    var a3 := (a2 << 1) ^ (a2 >> 7) ^ ((a2 >> 7) << 1) ^ ((a2 >> 7) << 3) ^ ((a2 >> 7) << 4);
    var b1 := (b << 1) ^ (b >> 7) ^ ((b >> 7) << 1) ^ ((b >> 7) << 3) ^ ((b >> 7) << 4);
    var b2 := (b1 << 1) ^ (b1 >> 7) ^ ((b1 >> 7) << 1) ^ ((b1 >> 7) << 3) ^ ((b1 >> 7) << 4);
    var b3 := (b2 << 1) ^ (b2 >> 7) ^ ((b2 >> 7) << 1) ^ ((b2 >> 7) << 3) ^ ((b2 >> 7) << 4);
    var c1 := (c << 1) ^ (c >> 7) ^ ((c >> 7) << 1) ^ ((c >> 7) << 3) ^ ((c >> 7) << 4);
    var c2 := (c1 << 1) ^ (c1 >> 7) ^ ((c1 >> 7) << 1) ^ ((c1 >> 7) << 3) ^ ((c1 >> 7) << 4);
    var c3 := (c2 << 1) ^ (c2 >> 7) ^ ((c2 >> 7) << 1) ^ ((c2 >> 7) << 3) ^ ((c2 >> 7) << 4);
    var d1 := (d << 1) ^ (d >> 7) ^ ((d >> 7) << 1) ^ ((d >> 7) << 3) ^ ((d >> 7) << 4);
    var d2 := (d1 << 1) ^ (d1 >> 7) ^ ((d1 >> 7) << 1) ^ ((d1 >> 7) << 3) ^ ((d1 >> 7) << 4);
    var d3 := (d2 << 1) ^ (d2 >> 7) ^ ((d2 >> 7) << 1) ^ ((d2 >> 7) << 3) ^ ((d2 >> 7) << 4);
    (a3 ^ a2 ^ a1) ^ (b3 ^ b1 ^ b) ^ (c3 ^ c2 ^ c) ^ (d3 ^ d)
  }

  lemma MixByteInverse(a: bv8, b: bv8, c: bv8, d: bv8)
    ensures InvMixByte(MixByte(a, b, c, d), MixByte(b, c, d, a), MixByte(c, d, a, b), MixByte(d, a, b, c)) == a
  {
    assert
      var xa := (a << 1) ^ (a >> 7) ^ ((a >> 7) << 1) ^ ((a >> 7) << 3) ^ ((a >> 7) << 4);
      var xb := (b << 1) ^ (b >> 7) ^ ((b >> 7) << 1) ^ ((b >> 7) << 3) ^ ((b >> 7) << 4);
      var xc := (c << 1) ^ (c >> 7) ^ ((c >> 7) << 1) ^ ((c >> 7) << 3) ^ ((c >> 7) << 4);
      var xd := (d << 1) ^ (d >> 7) ^ ((d >> 7) << 1) ^ ((d >> 7) << 3) ^ ((d >> 7) << 4);
      InvMixByte(xa ^ (xb ^ b) ^ c ^ d, xb ^ (xc ^ c) ^ d ^ a, xc ^ (xd ^ d) ^ a ^ b, xd ^ (xa ^ a) ^ b ^ c) == a;
  }

  /** The matrix row of section 5.1.3 of FIPS 197. */
  lemma MixByteIsMatrixRow(a: bv8, b: bv8, c: bv8, d: bv8)
    ensures MixByte(a, b, c, d) == Xor4(Times2(a), Times3(b), c, d)
  {
    assert
      var xa := (a << 1) ^ (a >> 7) ^ ((a >> 7) << 1) ^ ((a >> 7) << 3) ^ ((a >> 7) << 4);
      var xb := (b << 1) ^ (b >> 7) ^ ((b >> 7) << 1) ^ ((b >> 7) << 3) ^ ((b >> 7) << 4);
      Xor4(xa, xb ^ b, c, d) == MixByte(a, b, c, d);
  }

  lemma InvMixTerms(a: bv8, b: bv8, c: bv8, d: bv8)
    ensures
      var a1 := (a << 1) ^ (a >> 7) ^ ((a >> 7) << 1) ^ ((a >> 7) << 3) ^ ((a >> 7) << 4);
      var a2 := (a1 << 1) ^ (a1 >> 7) ^ ((a1 >> 7) << 1) ^ ((a1 >> 7) << 3) ^ ((a1 >> 7) << 4);
      var a3 := (a2 << 1) ^ (a2 >> 7) ^ ((a2 >> 7) << 1) ^ ((a2 >> 7) << 3) ^ ((a2 >> 7) << 4);
      var b1 := (b << 1) ^ (b >> 7) ^ ((b >> 7) << 1) ^ ((b >> 7) << 3) ^ ((b >> 7) << 4);
      var b2 := (b1 << 1) ^ (b1 >> 7) ^ ((b1 >> 7) << 1) ^ ((b1 >> 7) << 3) ^ ((b1 >> 7) << 4);
      var b3 := (b2 << 1) ^ (b2 >> 7) ^ ((b2 >> 7) << 1) ^ ((b2 >> 7) << 3) ^ ((b2 >> 7) << 4);
      var c1 := (c << 1) ^ (c >> 7) ^ ((c >> 7) << 1) ^ ((c >> 7) << 3) ^ ((c >> 7) << 4);
      var c2 := (c1 << 1) ^ (c1 >> 7) ^ ((c1 >> 7) << 1) ^ ((c1 >> 7) << 3) ^ ((c1 >> 7) << 4);
      var c3 := (c2 << 1) ^ (c2 >> 7) ^ ((c2 >> 7) << 1) ^ ((c2 >> 7) << 3) ^ ((c2 >> 7) << 4);
      var d1 := (d << 1) ^ (d >> 7) ^ ((d >> 7) << 1) ^ ((d >> 7) << 3) ^ ((d >> 7) << 4);
      var d2 := (d1 << 1) ^ (d1 >> 7) ^ ((d1 >> 7) << 1) ^ ((d1 >> 7) << 3) ^ ((d1 >> 7) << 4);
      var d3 := (d2 << 1) ^ (d2 >> 7) ^ ((d2 >> 7) << 1) ^ ((d2 >> 7) << 3) ^ ((d2 >> 7) << 4);
      Xor4(a3 ^ a2 ^ a1, b3 ^ b1 ^ b, c3 ^ c2 ^ c, d3 ^ d) == Xor4(Times14(a), Times11(b), Times13(c), Times9(d))
  {
  }

  lemma InvMixSum(a: bv8, b: bv8, c: bv8, d: bv8)
    ensures
      var a1 := (a << 1) ^ (a >> 7) ^ ((a >> 7) << 1) ^ ((a >> 7) << 3) ^ ((a >> 7) << 4);
      var a2 := (a1 << 1) ^ (a1 >> 7) ^ ((a1 >> 7) << 1) ^ ((a1 >> 7) << 3) ^ ((a1 >> 7) << 4);
      var a3 := (a2 << 1) ^ (a2 >> 7) ^ ((a2 >> 7) << 1) ^ ((a2 >> 7) << 3) ^ ((a2 >> 7) << 4);
      var b1 := (b << 1) ^ (b >> 7) ^ ((b >> 7) << 1) ^ ((b >> 7) << 3) ^ ((b >> 7) << 4);
      var b2 := (b1 << 1) ^ (b1 >> 7) ^ ((b1 >> 7) << 1) ^ ((b1 >> 7) << 3) ^ ((b1 >> 7) << 4);
      var b3 := (b2 << 1) ^ (b2 >> 7) ^ ((b2 >> 7) << 1) ^ ((b2 >> 7) << 3) ^ ((b2 >> 7) << 4);
      var c1 := (c << 1) ^ (c >> 7) ^ ((c >> 7) << 1) ^ ((c >> 7) << 3) ^ ((c >> 7) << 4);
      var c2 := (c1 << 1) ^ (c1 >> 7) ^ ((c1 >> 7) << 1) ^ ((c1 >> 7) << 3) ^ ((c1 >> 7) << 4);
      var c3 := (c2 << 1) ^ (c2 >> 7) ^ ((c2 >> 7) << 1) ^ ((c2 >> 7) << 3) ^ ((c2 >> 7) << 4);
      var d1 := (d << 1) ^ (d >> 7) ^ ((d >> 7) << 1) ^ ((d >> 7) << 3) ^ ((d >> 7) << 4);
      var d2 := (d1 << 1) ^ (d1 >> 7) ^ ((d1 >> 7) << 1) ^ ((d1 >> 7) << 3) ^ ((d1 >> 7) << 4);
      var d3 := (d2 << 1) ^ (d2 >> 7) ^ ((d2 >> 7) << 1) ^ ((d2 >> 7) << 3) ^ ((d2 >> 7) << 4);
      Xor4(a3 ^ a2 ^ a1, b3 ^ b1 ^ b, c3 ^ c2 ^ c, d3 ^ d) == InvMixByte(a, b, c, d)
  {
  }

  /** The matrix row of section 5.3.3 of FIPS 197. */
  lemma InvMixByteIsMatrixRow(a: bv8, b: bv8, c: bv8, d: bv8)
    ensures InvMixByte(a, b, c, d) == Xor4(Times14(a), Times11(b), Times13(c), Times9(d))
  {
    InvMixTerms(a, b, c, d);
    InvMixSum(a, b, c, d);
  }

  // ---------------------------------------------------------------------------------------------
  // The four steps of a round and their inverses
  // ---------------------------------------------------------------------------------------------

  function SubBytes(s: Block): Block { seq(16, i requires 0 <= i < 16 => Sbox(s[i])) }

  function InvSubBytes(s: Block): Block { seq(16, i requires 0 <= i < 16 => InvSbox(s[i])) }

  function ShiftRows(s: Block): Block {
    [s[0], s[5], s[10], s[15], s[4], s[9], s[14], s[3], s[8], s[13], s[2], s[7], s[12], s[1], s[6], s[11]]
  }

  function InvShiftRows(s: Block): Block {
    [s[0], s[13], s[10], s[7], s[4], s[1], s[14], s[11], s[8], s[5], s[2], s[15], s[12], s[9], s[6], s[3]]
  }

  /** Each byte of each column from the whole column, rotated to start at that byte. */
  function ByColumns(f: (bv8, bv8, bv8, bv8) -> bv8, s: Block): Block {
    [ f(s[0], s[1], s[2], s[3]), f(s[1], s[2], s[3], s[0]),
      f(s[2], s[3], s[0], s[1]), f(s[3], s[0], s[1], s[2]),
      f(s[4], s[5], s[6], s[7]), f(s[5], s[6], s[7], s[4]),
      f(s[6], s[7], s[4], s[5]), f(s[7], s[4], s[5], s[6]),
      f(s[8], s[9], s[10], s[11]), f(s[9], s[10], s[11], s[8]),
      f(s[10], s[11], s[8], s[9]), f(s[11], s[8], s[9], s[10]),
      f(s[12], s[13], s[14], s[15]), f(s[13], s[14], s[15], s[12]),
      f(s[14], s[15], s[12], s[13]), f(s[15], s[12], s[13], s[14]) ]
  }

  function MixColumns(s: Block): Block { ByColumns(MixByte, s) }

  function InvMixColumns(s: Block): Block { ByColumns(InvMixByte, s) }

  /** Byte k of a round key word, most significant first. */
  function KeyByte(w: bv32, k: nat): bv8
    requires k < 4
  {
    if k == 0 then ((w >> 24) & 0xFF) as bv8
    else if k == 1 then ((w >> 16) & 0xFF) as bv8
    else if k == 2 then ((w >> 8) & 0xFF) as bv8
    else (w & 0xFF) as bv8
  }

  function AddRoundKey(s: Block, w: seq<bv32>, round: nat): Block
    requires 4 * round + 4 <= |w|
  {
    seq(16, i requires 0 <= i < 16 => s[i] ^ KeyByte(w[4 * round + i / 4], i % 4))
  }

  lemma SubBytesInverse(s: Block)
    ensures InvSubBytes(SubBytes(s)) == s
  {
    forall i | 0 <= i < 16
      ensures InvSubBytes(SubBytes(s))[i] == s[i]
    {
      SboxInverse(s[i]);
    }
  }

  lemma ShiftRowsInverse(s: Block)
    ensures InvShiftRows(ShiftRows(s)) == s
  {
  }

  ghost predicate ColumnsCancel(f: (bv8, bv8, bv8, bv8) -> bv8, g: (bv8, bv8, bv8, bv8) -> bv8) {
    forall a: bv8, b: bv8, c: bv8, d: bv8 {:trigger f(a, b, c, d)} ::
      g(f(a, b, c, d), f(b, c, d, a), f(c, d, a, b), f(d, a, b, c)) == a
  }

  lemma Cancelled(f: (bv8, bv8, bv8, bv8) -> bv8, g: (bv8, bv8, bv8, bv8) -> bv8, a: bv8, b: bv8, c: bv8, d: bv8)
    requires ColumnsCancel(f, g)
    ensures g(f(a, b, c, d), f(b, c, d, a), f(c, d, a, b), f(d, a, b, c)) == a
  {
  }

  lemma ByColumnsInverse(f: (bv8, bv8, bv8, bv8) -> bv8, g: (bv8, bv8, bv8, bv8) -> bv8, s: Block)
    requires ColumnsCancel(f, g)
    ensures ByColumns(g, ByColumns(f, s)) == s
  {
    Cancelled(f, g, s[0], s[1], s[2], s[3]);
    Cancelled(f, g, s[1], s[2], s[3], s[0]);
    Cancelled(f, g, s[2], s[3], s[0], s[1]);
    Cancelled(f, g, s[3], s[0], s[1], s[2]);
    Cancelled(f, g, s[4], s[5], s[6], s[7]);
    Cancelled(f, g, s[5], s[6], s[7], s[4]);
    Cancelled(f, g, s[6], s[7], s[4], s[5]);
    Cancelled(f, g, s[7], s[4], s[5], s[6]);
    Cancelled(f, g, s[8], s[9], s[10], s[11]);
    Cancelled(f, g, s[9], s[10], s[11], s[8]);
    Cancelled(f, g, s[10], s[11], s[8], s[9]);
    Cancelled(f, g, s[11], s[8], s[9], s[10]);
    Cancelled(f, g, s[12], s[13], s[14], s[15]);
    Cancelled(f, g, s[13], s[14], s[15], s[12]);
    Cancelled(f, g, s[14], s[15], s[12], s[13]);
    Cancelled(f, g, s[15], s[12], s[13], s[14]);
  }

  lemma MixColumnsInverse(s: Block)
    ensures InvMixColumns(MixColumns(s)) == s
  {
    forall a: bv8, b: bv8, c: bv8, d: bv8
      ensures InvMixByte(MixByte(a, b, c, d), MixByte(b, c, d, a), MixByte(c, d, a, b), MixByte(d, a, b, c)) == a
    {
      MixByteInverse(a, b, c, d);
    }
    ByColumnsInverse(MixByte, InvMixByte, s);
  }

  lemma AddRoundKeyInverse(s: Block, w: seq<bv32>, round: nat)
    requires 4 * round + 4 <= |w|
    ensures AddRoundKey(AddRoundKey(s, w, round), w, round) == s
  {
    forall i | 0 <= i < 16
      ensures AddRoundKey(AddRoundKey(s, w, round), w, round)[i] == s[i]
    {
      XorTwice(s[i], KeyByte(w[4 * round + i / 4], i % 4));
    }
  }

  lemma XorTwice(a: bv8, k: bv8)
    ensures (a ^ k) ^ k == a
  {
  }

  // ---------------------------------------------------------------------------------------------
  // The cipher
  // ---------------------------------------------------------------------------------------------

  /** Iterating a step upward from 1 to r, and downward from r to 1. */
  function Ascend(step: (Block, nat) -> Block, s: Block, r: nat): Block {
    if r == 0 then s else step(Ascend(step, s, r - 1), r)
  }

  /** What is left of the upward iteration from r to n. */
  function AscendFrom(step: (Block, nat) -> Block, s: Block, r: nat, n: nat): Block
    decreases n + 1 - r
  {
    if n < r then s else AscendFrom(step, step(s, r), r + 1, n)
  }

  lemma {:induction false} AscendFromMeets(step: (Block, nat) -> Block, s: Block, r: nat, n: nat)
    requires 0 < r <= n + 1
    ensures AscendFrom(step, Ascend(step, s, r - 1), r, n) == Ascend(step, s, n)
    decreases n + 1 - r
  {
    if r <= n {
      AscendFromMeets(step, s, r + 1, n);
    }
  }

  function Descend(step: (Block, nat) -> Block, s: Block, r: nat): Block
    decreases r
  {
    if r == 0 then s else Descend(step, step(s, r), r - 1)
  }

  ghost predicate StepsCancel(up: (Block, nat) -> Block, down: (Block, nat) -> Block, twist: Block -> Block, i: nat) {
    forall b: Block {:trigger up(b, i)} :: down(twist(up(b, i)), i) == twist(b)
  }

  /** If each downward step undoes the upward one seen through `twist`, so do all of them together. */
  lemma {:induction false} DescendAfterAscend(up: (Block, nat) -> Block, down: (Block, nat) -> Block,
                                              twist: Block -> Block,
                                              s: Block, r: nat)
    requires forall i: nat {:trigger StepsCancel(up, down, twist, i)} :: 0 < i <= r ==> StepsCancel(up, down, twist, i)
    ensures Descend(down, twist(Ascend(up, s, r)), r) == twist(s)
  {
    if r != 0 {
      assert StepsCancel(up, down, twist, r);
      DescendAfterAscend(up, down, twist, s, r - 1);
    }
  }

  /** One turn of the loop of aesEncrypt, and of aesDecrypt. */
  function Round(s: Block, w: seq<bv32>, r: nat): Block
    requires 4 * r + 4 <= |w|
  {
    AddRoundKey(MixColumns(ShiftRows(SubBytes(s))), w, r)
  }

  function InvRound(s: Block, w: seq<bv32>, r: nat): Block
    requires 4 * r + 4 <= |w|
  {
    InvMixColumns(AddRoundKey(InvSubBytes(InvShiftRows(s)), w, r))
  }

  function RoundStep(w: seq<bv32>): (Block, nat) -> Block {
    (s: Block, r: nat) => if 4 * r + 4 <= |w| then Round(s, w, r) else s
  }

  function InvRoundStep(w: seq<bv32>): (Block, nat) -> Block {
    (s: Block, r: nat) => if 4 * r + 4 <= |w| then InvRound(s, w, r) else s
  }

  function Confuse(s: Block): Block { ShiftRows(SubBytes(s)) }

  function Unconfuse(s: Block): Block { InvSubBytes(InvShiftRows(s)) }

  /** The number of turns of the loop: r runs from 1 while it is below the number of rounds. */
  function Turns(rounds: nat): nat { if rounds == 0 then 0 else rounds - 1 }

  function AesEncrypt(s: Block, w: seq<bv32>, rounds: nat): Block
    requires 4 * rounds + 4 <= |w|
  {
    AddRoundKey(Confuse(AscendFrom(RoundStep(w), AddRoundKey(s, w, 0), 1, Turns(rounds))), w, rounds)
  }

  function AesDecrypt(s: Block, w: seq<bv32>, rounds: nat): Block
    requires 4 * rounds + 4 <= |w|
  {
    AddRoundKey(Unconfuse(Descend(InvRoundStep(w), AddRoundKey(s, w, rounds), Turns(rounds))), w, 0)
  }

  lemma ConfuseInverse(s: Block)
    ensures Unconfuse(Confuse(s)) == s
  {
    ShiftRowsInverse(SubBytes(s));
    SubBytesInverse(s);
  }

  lemma RoundInverse(s: Block, w: seq<bv32>, r: nat)
    requires 4 * r + 4 <= |w|
    ensures InvRound(Confuse(Round(s, w, r)), w, r) == Confuse(s)
  {
    ConfuseInverse(Round(s, w, r));
    AddRoundKeyInverse(MixColumns(Confuse(s)), w, r);
    MixColumnsInverse(Confuse(s));
  }

  lemma RoundsInverse(s: Block, w: seq<bv32>, r: nat)
    requires 4 * r + 4 <= |w|
    ensures Descend(InvRoundStep(w), Confuse(AscendFrom(RoundStep(w), s, 1, r)), r) == Confuse(s)
  {
    var twist := (b: Block) => Confuse(b);
    forall i: nat | 0 < i <= r
      ensures StepsCancel(RoundStep(w), InvRoundStep(w), twist, i)
    {
      forall b: Block
        ensures InvRoundStep(w)(twist(RoundStep(w)(b, i)), i) == twist(b)
      {
        RoundInverse(b, w, i);
      }
    }
    DescendAfterAscend(RoundStep(w), InvRoundStep(w), twist, s, r);
    AscendFromMeets(RoundStep(w), s, 1, r);
  }

  /** aesDecrypt undoes aesEncrypt, whatever the key schedule and the number of rounds. */
  lemma BlockInverse(s: Block, w: seq<bv32>, rounds: nat)
    requires 4 * rounds + 4 <= |w|
    ensures AesDecrypt(AesEncrypt(s, w, rounds), w, rounds) == s
  {
    var whitened := AddRoundKey(s, w, 0);
    var top := AscendFrom(RoundStep(w), whitened, 1, Turns(rounds));
    AddRoundKeyInverse(Confuse(top), w, rounds);
    RoundsInverse(whitened, w, Turns(rounds));
    ConfuseInverse(whitened);
    AddRoundKeyInverse(s, w, 0);
  }

  // ---------------------------------------------------------------------------------------------
  // The words of the schedule that are used
  // ---------------------------------------------------------------------------------------------

  /** The first n words are the same. */
  ghost predicate Agree(w: seq<bv32>, v: seq<bv32>, n: nat) {
    n <= |w| && n <= |v| && w[..n] == v[..n]
  }

  lemma SameRoundKey(s: Block, w: seq<bv32>, v: seq<bv32>, n: nat, r: nat)
    requires Agree(w, v, n) && 4 * r + 4 <= n
    ensures AddRoundKey(s, w, r) == AddRoundKey(s, v, r)
  {
    assert forall j :: 0 <= j < n ==> w[..n][j] == v[..n][j];
  }

  ghost predicate SameSteps(f: (Block, nat) -> Block, g: (Block, nat) -> Block, r: nat) {
    forall s: Block, i: nat {:trigger f(s, i)} :: i <= r ==> f(s, i) == g(s, i)
  }

  lemma {:induction false} SameAscent(f: (Block, nat) -> Block, g: (Block, nat) -> Block, s: Block, r: nat, n: nat)
    requires SameSteps(f, g, n)
    ensures AscendFrom(f, s, r, n) == AscendFrom(g, s, r, n)
    decreases n + 1 - r
  {
    if r <= n {
      SameAscent(f, g, f(s, r), r + 1, n);
    }
  }

  lemma {:induction false} SameDescent(f: (Block, nat) -> Block, g: (Block, nat) -> Block, s: Block, r: nat)
    requires SameSteps(f, g, r)
    ensures Descend(f, s, r) == Descend(g, s, r)
    decreases r
  {
    if 0 < r {
      SameDescent(f, g, f(s, r), r - 1);
    }
  }

  lemma SameRounds(w: seq<bv32>, v: seq<bv32>, n: nat, r: nat)
    requires Agree(w, v, n) && 4 * r + 4 <= n
    ensures SameSteps(RoundStep(w), RoundStep(v), r) && SameSteps(InvRoundStep(w), InvRoundStep(v), r)
  {
    forall s: Block, i: nat | i <= r
      ensures RoundStep(w)(s, i) == RoundStep(v)(s, i) && InvRoundStep(w)(s, i) == InvRoundStep(v)(s, i)
    {
      SameRoundKey(MixColumns(Confuse(s)), w, v, n, i);
      SameRoundKey(Unconfuse(s), w, v, n, i);
    }
  }

  /** The two block functions look only at the first 4 * (rounds + 1) words, whatever lies behind them. */
  lemma WordsBehindAreIgnored(s: Block, w: seq<bv32>, v: seq<bv32>, rounds: nat)
    requires Agree(w, v, 4 * rounds + 4)
    ensures AesEncrypt(s, w, rounds) == AesEncrypt(s, v, rounds) && AesDecrypt(s, w, rounds) == AesDecrypt(s, v, rounds)
  {
    var n := 4 * rounds + 4;
    SameRounds(w, v, n, Turns(rounds));
    SameRoundKey(s, w, v, n, 0);
    SameAscent(RoundStep(w), RoundStep(v), AddRoundKey(s, w, 0), 1, Turns(rounds));
    SameRoundKey(Confuse(AscendFrom(RoundStep(w), AddRoundKey(s, w, 0), 1, Turns(rounds))), w, v, n, rounds);
    SameRoundKey(s, w, v, n, rounds);
    SameDescent(InvRoundStep(w), InvRoundStep(v), AddRoundKey(s, w, rounds), Turns(rounds));
    SameRoundKey(Unconfuse(Descend(InvRoundStep(w), AddRoundKey(s, w, rounds), Turns(rounds))), w, v, n, 0);
  }
}
