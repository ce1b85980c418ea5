/**
 The chain a LoRa message goes through: encrypt and encode, authenticate, add a checksum on the way
 out; check the checksum, check the authentication, decode and decrypt on the way in.  Messages are
 C strings in byte buffers.  Base64, HMAC and CRC are any functions with the properties stated.
*/
module LoRaChain {
  import opened AesBlock
  import opened AesModes

  /** The library functions, and the two directions of the block cipher. */
  datatype Library = Library(
    b64: seq<bv8> -> seq<bv8>, unb64: seq<bv8> -> seq<bv8>,
    mac: seq<bv8> -> seq<bv8>, crc: seq<bv8> -> bv32,
    enc: Block -> Block, dec: Block -> Block, iv: Block)

  predicate NoNul(s: seq<bv8>) { 0 !in s }

  /** Decoding undoes encoding, encoded text has no NUL, a code has 32 bytes, the cipher inverts. */
  ghost predicate Sound(l: Library) {
    && (forall x {:trigger l.b64(x)} :: l.unb64(l.b64(x)) == x && NoNul(l.b64(x)))
    && (forall x {:trigger l.mac(x)} :: |l.mac(x)| == 32)
    && Undoes(l.dec, l.enc)
  }

  /** The C string a buffer holds. */
  function CString(b: seq<bv8>): (s: seq<bv8>)
    ensures NoNul(s)
  {
    if b == [] || b[0] == 0 then [] else [b[0]] + CString(b[1..])
  }

  lemma {:induction false} CStringOf(s: seq<bv8>, rest: seq<bv8>)
    requires NoNul(s) && (rest == [] || rest[0] == 0)
    ensures CString(s + rest) == s
    decreases |s|
  {
    if s == [] {
      assert s + rest == rest;
    } else {
      assert (s + rest)[1..] == s[1..] + rest;
      CStringOf(s[1..], rest);
    }
  }

  /** A buffer cut short holds the same string exactly when the cut is behind it. */
  lemma CStringCut(s: seq<bv8>, b: seq<bv8>, k: nat)
    requires NoNul(s) && |s| <= |b| && b[..|s|] == s && (|s| < |b| ==> b[|s|] == 0) && k <= |b|
    ensures CString(b[..k]) == s <==> |s| <= k
  {
    if |s| <= k {
      assert b[..k] == s + b[|s|..k];
      CStringOf(s, b[|s|..k]);
    } else {
      assert b[..k] == s[..k] + [];
      CStringOf(s[..k], []);
    }
  }

  // ---------------------------------------------------------------------------------------------
  // Authentication code and checksum text
  // ---------------------------------------------------------------------------------------------

  /** NUL bytes of the code become the digit zero, so that the string does not end in it. */
  function WithoutNul(code: seq<bv8>): (r: seq<bv8>)
    ensures |r| == |code| && NoNul(r)
  {
    seq(|code|, i requires 0 <= i < |code| => if code[i] == 0 then 48 else code[i])
  }

  function HexDigit(v: bv32): bv8
    requires v < 16
  {
    if v < 10 then 48 + (v as bv8) else 55 + (v as bv8)
  }

  function Nibble(v: bv32, k: nat): (n: bv32)
    requires k < 8
    ensures n < 16
  {
    if k == 0 then (v >> 28) & 15 else if k == 1 then (v >> 24) & 15 else if k == 2 then (v >> 20) & 15
    else if k == 3 then (v >> 16) & 15 else if k == 4 then (v >> 12) & 15 else if k == 5 then (v >> 8) & 15
    else if k == 6 then (v >> 4) & 15 else v & 15
  }

  /** sprintf with %08X */
  function Hex8(v: bv32): (s: seq<bv8>)
    ensures |s| == 8
  {
    seq(8, i requires 0 <= i < 8 => HexDigit(Nibble(v, i)))
  }

  predicate IsHexDigit(c: bv8) { 48 <= c <= 57 || 65 <= c <= 70 || 97 <= c <= 102 }

  predicate IsSpace(c: bv8) { 9 <= c <= 13 || c == 32 }

  function DigitValue(c: bv8): bv32
    requires IsHexDigit(c)
  {
    if c <= 57 then (c - 48) as bv32 else if c <= 70 then (c - 55) as bv32 else (c - 87) as bv32
  }

  /** The value of the longest run of digits in front of s, behind v. */
  function Digits(s: seq<bv8>, v: bv32): bv32 {
    if s == [] || !IsHexDigit(s[0]) then v else Digits(s[1..], Shift4(v, DigitValue(s[0])))
  }

  function Shift4(v: bv32, d: bv32): bv32 { (v << 4) | d }

  function SkipSpace(s: seq<bv8>): seq<bv8> { if s == [] || !IsSpace(s[0]) then s else SkipSpace(s[1..]) }

  /** An optional 0x or 0X in front of the digits. */
  function SkipPrefix(s: seq<bv8>): seq<bv8> {
    if |s| >= 2 && s[0] == 48 && (s[1] == 120 || s[1] == 88) then s[2..] else s
  }

  /** sscanf with %8X on the eight characters left of a string: white space, a sign, a prefix, and the
      longest run of digits; without a digit the variable keeps what it had. */
  function Scan8(s: seq<bv8>, was: bv32): bv32 {
    var t := SkipSpace(s);
    var signed := t != [] && (t[0] == 43 || t[0] == 45);
    var u := SkipPrefix(if signed then t[1..] else t);
    if u == [] || !IsHexDigit(u[0]) then was
    else if signed && t[0] == 45 then 0 - Digits(u, 0)
    else Digits(u, 0)
  }

  lemma DigitsStep(s: seq<bv8>, v: bv32)
    requires s != [] && IsHexDigit(s[0])
    ensures Digits(s, v) == Digits(s[1..], Shift4(v, DigitValue(s[0])))
  {
  }

  /** Text that starts with two digits has no white space, sign or prefix in front. */
  lemma PlainDigits(s: seq<bv8>, was: bv32)
    requires |s| >= 2 && IsHexDigit(s[0]) && IsHexDigit(s[1])
    ensures Scan8(s, was) == Digits(s, 0)
  {
  }

  function Assemble(a: bv32, b: bv32, c: bv32, d: bv32, e: bv32, f: bv32, g: bv32, h: bv32): bv32 {
    Shift4(Shift4(Shift4(Shift4(Shift4(Shift4(Shift4(Shift4(0, a), b), c), d), e), f), g), h)
  }

  /** Eight digits, one after the other. */
  lemma EightDigits(s: seq<bv8>)
    requires |s| == 8 && forall i :: 0 <= i < 8 ==> IsHexDigit(s[i])
    ensures Digits(s, 0) == Assemble(DigitValue(s[0]), DigitValue(s[1]), DigitValue(s[2]), DigitValue(s[3]),
                                     DigitValue(s[4]), DigitValue(s[5]), DigitValue(s[6]), DigitValue(s[7]))
  {
    var a := Shift4(0, DigitValue(s[0]));
    var b := Shift4(a, DigitValue(s[1]));
    FourDigits(s, 0);
    var v := Shift4(Shift4(b, DigitValue(s[2])), DigitValue(s[3]));
    FourDigits(s[4..], v);
    assert s[4..][4..] == [];
  }

  lemma FourDigits(s: seq<bv8>, v: bv32)
    requires |s| >= 4 && forall i :: 0 <= i < 4 ==> IsHexDigit(s[i])
    ensures Digits(s, v) ==
            Digits(s[4..],
                   Shift4(Shift4(Shift4(Shift4(v, DigitValue(s[0])), DigitValue(s[1])), DigitValue(s[2])),
                          DigitValue(s[3])))
  {
    var a := Shift4(v, DigitValue(s[0]));
    var b := Shift4(a, DigitValue(s[1]));
    var c := Shift4(b, DigitValue(s[2]));
    DigitsStep(s, v);
    assert s[1..][1..] == s[2..] && s[2..][1..] == s[3..] && s[3..][1..] == s[4..];
    DigitsStep(s[1..], a);
    DigitsStep(s[2..], b);
    DigitsStep(s[3..], c);
  }

  lemma DigitRoundTrip(v: bv32)
    requires v < 16
    ensures IsHexDigit(HexDigit(v)) && DigitValue(HexDigit(v)) == v && HexDigit(v) != 0
  {
  }

  lemma NibblesAssemble(v: bv32)
    ensures (((((((((((((((v >> 28) & 15) << 4) | ((v >> 24) & 15)) << 4) | ((v >> 20) & 15)) << 4) |
                     ((v >> 16) & 15)) << 4) | ((v >> 12) & 15)) << 4) | ((v >> 8) & 15)) << 4) |
               ((v >> 4) & 15)) << 4) | (v & 15) == v
  {
  }

  lemma ShiftZero(d: bv32)
    ensures Shift4(0, d) == d
  {
  }

  lemma ScanHex(v: bv32, was: bv32)
    ensures NoNul(Hex8(v)) && Scan8(Hex8(v), was) == v
  {
    forall i | 0 <= i < 8
      ensures IsHexDigit(Hex8(v)[i]) && DigitValue(Hex8(v)[i]) == Nibble(v, i) && Hex8(v)[i] != 0
    {
      DigitRoundTrip(Nibble(v, i));
    }
    PlainDigits(Hex8(v), was);
    EightDigits(Hex8(v));
    AssembleNibbles(v);
  }

  lemma AssembleNibbles(v: bv32)
    ensures Assemble(Nibble(v, 0), Nibble(v, 1), Nibble(v, 2), Nibble(v, 3), Nibble(v, 4), Nibble(v, 5), Nibble(v, 6),
                     Nibble(v, 7)) == v
  {
    ShiftZero((v >> 28) & 15);
    NibblesAssemble(v);
  }

  // ---------------------------------------------------------------------------------------------
  // The chain on values
  // ---------------------------------------------------------------------------------------------

  /** OutOfBounds stands for the inputs on which the code reads outside its buffers. */
  datatype Status = Processed | PacketTooSmall | ChecksumError | FailToComputeChecksum | AuthenticationMismatch
    | OutOfBounds

  datatype Outcome = Outcome(status: Status, text: seq<bv8>)

  /** The size rounded up to whole blocks. */
  function RoundUp(n: nat): (k: nat)
    ensures n <= k < n + 16 && k % 16 == 0
  {
    (n + 15) / 16 * 16
  }

  /** What the encrypter makes of the first blocks of the buffer. */
  function CipherText(l: Library, buffer: seq<bv8>, n: nat): (c: seq<bv8>)
    requires RoundUp(n) <= |buffer|
    ensures |c| == RoundUp(n)
  {
    EncryptLong(l.enc, Cbc, l.iv, buffer[..RoundUp(n)]).bytes
  }

  function Authenticated(l: Library, t: seq<bv8>): seq<bv8> { t + WithoutNul(l.mac(t)) }

  function Checked(l: Library, t: seq<bv8>): seq<bv8> { t + Hex8(l.crc(t)) }

  /** prepareLoRaMessage on a buffer that holds a string of n bytes. */
  function Prepare(l: Library, buffer: seq<bv8>, n: nat): Outcome
    requires RoundUp(n) <= |buffer|
  {
    var t := Authenticated(l, l.b64(CipherText(l, buffer, n)));
    if |Checked(l, t)| >= 4000 then Outcome(FailToComputeChecksum, t) else Outcome(Processed, Checked(l, t))
  }

  /** A prepared message is the encoded ciphertext, the code of it, and the checksum of both, in this order. */
  lemma PreparedLayout(l: Library, buffer: seq<bv8>, n: nat)
    requires Sound(l) && RoundUp(n) <= |buffer| && Prepare(l, buffer, n).status == Processed
    ensures var text := Prepare(l, buffer, n).text;
            && 40 <= |text| < 4000
            && var k := |text| - 40;
               && l.unb64(text[..k]) == CipherText(l, buffer, n)
               && text[k..k + 32] == WithoutNul(l.mac(text[..k]))
               && text[k + 32..] == Hex8(l.crc(text[..k + 32]))
  {
    var body := l.b64(CipherText(l, buffer, n));
    var code := WithoutNul(l.mac(body));
    var sum := Hex8(l.crc(body + code));
    var text := Prepare(l, buffer, n).text;
    assert text == body + code + sum && |l.mac(body)| == 32;
    assert text[..|text| - 40] == body && text[..|text| - 8] == body + code;
  }

  /** processLoRaMessage: `room` is the size of the receiver's buffer, `scratch` the decoder's buffer
      and `was` what the checksum variable held. */
  function Process(l: Library, text: seq<bv8>, room: nat, scratch: seq<bv8>, was: bv32): Outcome
    requires 16 <= room <= |scratch|
  {
    if |text| < 8 then Outcome(PacketTooSmall, text)
    else
      var t := text[..|text| - 8];
      if Scan8(text[|text| - 8..], was) != l.crc(t) then Outcome(ChecksumError, text)
      else if |t| < 32 then Outcome(OutOfBounds, t)
      else
        var body := t[..|t| - 32];
        if t[|t| - 32..] != WithoutNul(l.mac(body)) then Outcome(AuthenticationMismatch, body)
        else Decrypted(l, l.unb64(body), room, scratch)
  }

  /** The whole scratch buffer after decoding and decrypting `room` bytes of it in place. */
  function Scratch(l: Library, c: seq<bv8>, room: nat, scratch: seq<bv8>): (d: seq<bv8>)
    requires 16 <= room <= |scratch| && |c| <= |scratch|
    ensures |d| == |scratch|
  {
    var filled := c + scratch[|c|..];
    DecryptLong(l.dec, Cbc, l.iv, filled[..room]).bytes + filled[room..]
  }

  /** The length left after a last byte taken for a padding count, cut to the receiver's buffer; the
      subtraction is unsigned. */
  function TextLength(size: nat, last: bv8, room: nat): (k: nat)
    requires room > 0
    ensures k < room
  {
    var left := if 0 < last <= 16 then (if last as int <= size then size - last as int else room) else size;
    if left < room then left else room - 1
  }

  function Decrypted(l: Library, c: seq<bv8>, room: nat, scratch: seq<bv8>): Outcome
    requires 16 <= room <= |scratch|
  {
    if c == [] || |c| > |scratch| then Outcome(OutOfBounds, [])
    else
      var d := Scratch(l, c, room, scratch);
      Outcome(Processed, CString(d[..TextLength(|c|, d[|c| - 1], room)]))
  }

  // ---------------------------------------------------------------------------------------------
  // Round trip
  // ---------------------------------------------------------------------------------------------

  /** The first `size` bytes are whole blocks that ciphertext stealing at the end of `room` bytes
      leaves alone. */
  predicate Clear(room: nat, size: nat) {
    size <= if room % 16 == 0 then room else room - room % 16 - 16
  }

  /** Room behind whole blocks, without the first of them. */
  lemma ClearStep(room: nat, size: nat)
    requires 16 <= room && 16 <= size && size % 16 == 0 && Clear(room, size)
    ensures (room - 16 == 0 || 16 <= room - 16) && size <= room && (size - 16) % 16 == 0 && Clear(room - 16, size - 16)
  {
  }

  /** The bytes decrypted; the proofs below need only how a block comes off the front. */
  function Plain(dec: Block -> Block, carry: Block, c: seq<bv8>): (p: seq<bv8>)
    requires |c| == 0 || 16 <= |c|
    ensures |p| == |c|
  {
    DecryptLong(dec, Cbc, carry, c).bytes
  }

  /** `whole` is one decrypted block and then `more`. */
  ghost predicate BlockThen(dec: Block -> Block, carry: Block, head: Block, whole: seq<bv8>, more: seq<bv8>) {
    whole == Chain(Cbc, dec(head), carry) + more
  }

  lemma DecryptStep(dec: Block -> Block, carry: Block, c: seq<bv8>, head: Block, rest: seq<bv8>)
    requires (|c| == 16 || 32 <= |c|) && head == c[..16] && rest == c[16..]
    ensures BlockThen(dec, carry, head, Plain(dec, carry, c), Plain(dec, head, rest))
  {
  }

  lemma PrefixBehind(dec: Block -> Block, carry: Block, head: Block, whole: seq<bv8>, more: seq<bv8>, part: seq<bv8>,
                     less: seq<bv8>, k: nat)
    requires BlockThen(dec, carry, head, whole, more) && BlockThen(dec, carry, head, part, less)
    requires 16 <= k <= |whole| && more[..k - 16] == less
    ensures whole[..k] == part
  {
  }

  /** Decrypting past the end of a ciphertext gives the same first bytes. */
  lemma {:induction false} DecryptPrefix(dec: Block -> Block, carry: Block, c: seq<bv8>, k: nat)
    requires |c| >= 16 && k % 16 == 0 && Clear(|c|, k)
    ensures k <= |c| && (k == 0 || 16 <= k) && Plain(dec, carry, c)[..k] == Plain(dec, carry, c[..k])
    decreases k
  {
    if k > 0 {
      ClearStep(|c|, k);
      var rest, head: Block, part := c[16..], c[..16], c[..k];
      var less := rest[..k - 16];
      assert part[..16] == head && part[16..] == less;
      if rest != [] {
        DecryptPrefix(dec, head, rest, k - 16);
      }
      DecryptStep(dec, carry, c, head, rest);
      DecryptStep(dec, carry, part, head, less);
      PrefixBehind(dec, carry, head, Plain(dec, carry, c), Plain(dec, head, rest), Plain(dec, carry, part),
                   Plain(dec, head, less), k);
    }
  }

  /** What the receiver's scratch buffer starts with is what the sender's buffer started with. */
  lemma ScratchHoldsPlaintext(l: Library, buffer: seq<bv8>, n: nat, room: nat, scratch: seq<bv8>)
    requires Sound(l) && RoundUp(n) <= |buffer| && 16 <= room <= |scratch| && Clear(room, RoundUp(n))
    ensures Scratch(l, CipherText(l, buffer, n), room, scratch)[..RoundUp(n)] == buffer[..RoundUp(n)]
  {
    var k, c := RoundUp(n), CipherText(l, buffer, n);
    var filled := c + scratch[|c|..];
    assert filled[..room][..k] == c;
    DecryptPrefix(l.dec, l.iv, filled[..room], k);
    LongRoundTrip(l.enc, l.dec, Cbc, l.iv, buffer[..k]);
  }

  /** The frame comes apart again. */
  lemma Unframe(l: Library, body: seq<bv8>, room: nat, scratch: seq<bv8>, was: bv32)
    requires Sound(l) && 16 <= room <= |scratch|
    ensures Process(l, Checked(l, Authenticated(l, body)), room, scratch, was) ==
            Decrypted(l, l.unb64(body), room, scratch)
  {
    var t := Authenticated(l, body);
    var text := Checked(l, t);
    assert text[..|text| - 8] == t && text[|text| - 8..] == Hex8(l.crc(t));
    ScanHex(l.crc(t), was);
    assert t[..|t| - 32] == body && t[|t| - 32..] == WithoutNul(l.mac(body));
  }

  /** The text survives the cut at the receiver. */
  predicate Survives(buffer: seq<bv8>, n: nat, room: nat)
    requires 0 < n && RoundUp(n) <= |buffer| && 0 < room
  {
    n <= TextLength(RoundUp(n), buffer[RoundUp(n) - 1], room)
  }

  /** For every message, whatever stands behind it in the sender's buffer and in the receiver's
      scratch buffer: the receiver accepts what the sender prepared, and it has the text back exactly
      when the last encrypted byte does not cut into it and the receiver's buffer has room. */
  lemma ChainRoundTrip(l: Library, buffer: seq<bv8>, n: nat, room: nat, scratch: seq<bv8>, was: bv32)
    requires Sound(l) && n == |CString(buffer)| > 0 && RoundUp(n) <= |buffer|
    requires 16 <= room <= |scratch| && Clear(room, RoundUp(n))
    requires Prepare(l, buffer, n).status == Processed
    ensures var q := Process(l, Prepare(l, buffer, n).text, room, scratch, was);
            q.status == Processed && (q.text == CString(buffer) <==> Survives(buffer, n, room))
  {
    var k := RoundUp(n);
    ReceivedText(l, buffer, n, room, scratch, was);
    StringInFront(buffer);
    CutWithin(k, buffer[k - 1], room);
    CStringCut(CString(buffer), buffer[..k], TextLength(k, buffer[k - 1], room));
  }

  /** What the receiver makes of a prepared message, whatever it was. */
  lemma ReceivedText(l: Library, buffer: seq<bv8>, n: nat, room: nat, scratch: seq<bv8>, was: bv32)
    requires Sound(l) && 0 < n && RoundUp(n) <= |buffer|
    requires 16 <= room <= |scratch| && Clear(room, RoundUp(n))
    requires Prepare(l, buffer, n).status == Processed
    ensures var k := RoundUp(n);
            TextLength(k, buffer[k - 1], room) <= k &&
            Process(l, Prepare(l, buffer, n).text, room, scratch, was) ==
              Outcome(Processed, CString(buffer[..k][..TextLength(k, buffer[k - 1], room)]))
  {
    var k, c := RoundUp(n), CipherText(l, buffer, n);
    Unframe(l, l.b64(c), room, scratch, was);
    ScratchHoldsPlaintext(l, buffer, n, room, scratch);
    SameCut(Scratch(l, c, room, scratch), buffer, k, room);
  }

  /** The cut depends only on the first k bytes, and stays within them. */
  lemma SameCut(d: seq<bv8>, buffer: seq<bv8>, k: nat, room: nat)
    requires 16 <= k <= |d| && k <= |buffer| && d[..k] == buffer[..k] && 0 < room
    ensures d[k - 1] == buffer[k - 1]
    ensures var m := TextLength(k, buffer[k - 1], room); m <= k && d[..m] == buffer[..k][..m]
  {
    assert d[k - 1] == d[..k][k - 1] == buffer[..k][k - 1];
    var m := TextLength(k, buffer[k - 1], room);
    CutWithin(k, buffer[k - 1], room);
    assert d[..m] == d[..k][..m];
  }

  lemma CutWithin(size: nat, last: bv8, room: nat)
    requires 16 <= size && 0 < room
    ensures TextLength(size, last, room) <= size
  {
  }

  lemma {:induction false} StringInFront(b: seq<bv8>)
    ensures var s := CString(b); |s| <= |b| && b[..|s|] == s && (|s| < |b| ==> b[|s|] == 0)
  {
    if b != [] && b[0] != 0 {
      StringInFront(b[1..]);
      var s := CString(b[1..]);
      assert b[..|s| + 1] == [b[0]] + b[1..][..|s|];
    }
  }

  /** In particular a text whose last encrypted byte is not 1 to 16 comes back, if the receiver's
      buffer is larger than the ciphertext. */
  lemma PlainTextComesBack(l: Library, buffer: seq<bv8>, n: nat, room: nat, scratch: seq<bv8>, was: bv32)
    requires Sound(l) && n == |CString(buffer)| > 0 && RoundUp(n) <= |buffer|
    requires RoundUp(n) < room <= |scratch| && Clear(room, RoundUp(n))
    requires Prepare(l, buffer, n).status == Processed && !(0 < buffer[RoundUp(n) - 1] <= 16)
    ensures Process(l, Prepare(l, buffer, n).text, room, scratch, was) == Outcome(Processed, CString(buffer))
  {
    ChainRoundTrip(l, buffer, n, room, scratch, was);
  }

  lemma ShortCut()
    ensures TextLength(16, 14, 64) == 2 && Clear(64, 16)
  {
  }

  /** The condition is not idle: a byte left over behind the text can cost its last character. */
  lemma LeftoverCutsText(l: Library, scratch: seq<bv8>, was: bv32)
    requires Sound(l) && |scratch| >= 64
    requires var buffer: seq<bv8> := [65, 66, 67, 0] + seq(11, _ => 0) + [14]; Prepare(l, buffer, 3).status == Processed
    ensures var buffer: seq<bv8> := [65, 66, 67, 0] + seq(11, _ => 0) + [14];
            var q := Process(l, Prepare(l, buffer, 3).text, 64, scratch, was);
            CString(buffer) == [65, 66, 67] && q.status == Processed && q.text != [65, 66, 67]
  {
    var buffer: seq<bv8> := [65, 66, 67, 0] + seq(11, _ => 0) + [14];
    assert buffer == [65, 66, 67] + ([0] + seq(11, _ => 0) + [14]);
    CStringOf([65, 66, 67], [0] + seq(11, _ => 0) + [14]);
    assert RoundUp(3) == 16 == |buffer| && buffer[15] == 14;
    ShortCut();
    ChainRoundTrip(l, buffer, 3, 64, scratch, was);
  }
}
