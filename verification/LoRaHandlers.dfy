/**
 The message handlers, which rewrite the message buffer in place, and the two chains the gateway
 builds from them.
*/
module LoRaHandlers {
  import opened Basics
  import opened AesBlock
  import opened AesModes
  import opened AesCipher
  import opened LoRaChain

  method Strlen(b: array<bv8>) returns (n: nat)
    requires |CString(b[..])| < b.Length
    ensures n == |CString(b[..])| && b[..n] == CString(b[..])
  {
    StringInFront(b[..]);
    n := 0;
    while b[n] != 0
      invariant n <= |CString(b[..])|
      decreases b.Length - n
    {
      n := n + 1;
    }
  }

  /** Bytes behind the string, one by one, and a new terminator. */
  method Append(b: array<bv8>, n: nat, extra: seq<bv8>)
    requires n == |CString(b[..])| && n + |extra| < b.Length && NoNul(extra)
    modifies b
    ensures CString(b[..]) == old(CString(b[..])) + extra
  {
    ghost var s := CString(b[..]);
    StringInFront(b[..]);
    for i := 0 to |extra|
      invariant b[..n] == s && b[n..n + i] == extra[..i]
    {
      b[n + i] := extra[i];
    }
    b[n + |extra|] := 0;
    assert b[..n + |extra|] == s + extra;
    assert b[..] == (s + extra) + b[n + |extra|..];
    CStringOf(s + extra, b[n + |extra|..]);
  }

  /** The string is cut at k. */
  method Truncate(b: array<bv8>, k: nat)
    requires k <= |CString(b[..])| < b.Length
    modifies b
    ensures CString(b[..]) == old(CString(b[..]))[..k]
  {
    ghost var s := CString(b[..]);
    StringInFront(b[..]);
    b[k] := 0;
    assert b[..k] == s[..k];
    assert b[..] == s[..k] + b[k..];
    CStringOf(s[..k], b[k..]);
  }

  /** The loop that rewrites NUL bytes of the code. */
  method ReplaceNul(code: array<bv8>)
    modifies code
    ensures code[..] == WithoutNul(old(code[..]))
  {
    for i := 0 to code.Length
      invariant forall j :: 0 <= j < i ==> code[j] == WithoutNul(old(code[..]))[j]
      invariant forall j :: i <= j < code.Length ==> code[j] == old(code[..])[j]
    {
      if code[i] == 0 {
        code[i] := 48;
      }
    }
  }

  method CodeOf(l: Library, text: seq<bv8>) returns (code: seq<bv8>)
    ensures code == WithoutNul(l.mac(text))
  {
    var mac := l.mac(text);
    var hmac := new bv8[|mac|](i requires 0 <= i < |mac| => mac[i]);
    assert hmac[..] == mac;
    ReplaceNul(hmac);
    code := hmac[..];
  }

  /** AuthenticationGenerator */
  method AddCode(l: Library, b: array<bv8>)
    requires Sound(l) && |CString(b[..])| + 32 < b.Length
    modifies b
    ensures CString(b[..]) == Authenticated(l, old(CString(b[..])))
  {
    var n := Strlen(b);
    var code := CodeOf(l, b[..n]);
    Append(b, n, code);
  }

  /** ChecksumGenerator */
  method AddChecksum(l: Library, b: array<bv8>) returns (status: Status)
    requires |CString(b[..])| + 8 < b.Length
    modifies b
    ensures var t := old(CString(b[..]));
            if |Checked(l, t)| >= 4000 then status == FailToComputeChecksum && CString(b[..]) == t
            else status == Processed && CString(b[..]) == Checked(l, t)
  {
    var n := Strlen(b);
    var digits := Hex8(l.crc(b[..n]));
    if n + 8 >= 4000 {
      return FailToComputeChecksum;
    }
    ScanHex(l.crc(b[..n]), 0);
    Append(b, n, digits);
    return Processed;
  }

  /** ChecksumVerifier: on success the checksum is cut off. */
  method VerifyChecksum(l: Library, b: array<bv8>, was: bv32) returns (status: Status)
    requires |CString(b[..])| < b.Length
    modifies b
    ensures var s := old(CString(b[..]));
            if |s| < 8 then status == PacketTooSmall && CString(b[..]) == s
            else if Scan8(s[|s| - 8..], was) != l.crc(s[..|s| - 8]) then status == ChecksumError && CString(b[..]) == s
            else status == Processed && CString(b[..]) == s[..|s| - 8]
  {
    var n := Strlen(b);
    if n < 8 {
      return PacketTooSmall;
    }
    assert b[..n][n - 8..] == b[n - 8..n] && b[..n][..n - 8] == b[..n - 8];
    var received := Scan8(b[n - 8..n], was);
    if received != l.crc(b[..n - 8]) {
      return ChecksumError;
    }
    Truncate(b, n - 8);
    return Processed;
  }

  /** AuthenticationVerifier: the code is cut off whether it matches or not. */
  method VerifyCode(l: Library, b: array<bv8>) returns (status: Status)
    requires 32 <= |CString(b[..])| < b.Length
    modifies b
    ensures var s := old(CString(b[..]));
            var body := s[..|s| - 32];
            CString(b[..]) == body &&
              status == if s[|s| - 32..] == WithoutNul(l.mac(body)) then Processed else AuthenticationMismatch
  {
    var n := Strlen(b);
    var received := b[n - 32..n];
    assert b[..n][n - 32..] == received;
    Truncate(b, n - 32);
    var m := Strlen(b);
    var code := CodeOf(l, b[..m]);
    status := if received == code then Processed else AuthenticationMismatch;
  }

  /** The library whose cipher is AES with this 256-bit key. */
  ghost predicate UsesKey(l: Library, key: seq<bv8>) {
    && |key| == 32
    && (forall b: Block {:trigger Input(b)} :: Input(b) ==> l.enc(b) == AesEncrypt(b, Schedule(key, 8, 60), 14))
    && (forall b: Block {:trigger Input(b)} :: Input(b) ==> l.dec(b) == AesDecrypt(b, Schedule(key, 8, 60), 14))
  }

  /** With AES the assumption on the cipher is a theorem. */
  lemma AesInverts(l: Library, key: seq<bv8>)
    requires UsesKey(l, key)
    ensures Undoes(l.dec, l.enc)
  {
    forall b: Block
      ensures l.dec(l.enc(b)) == b
    {
      assert Input(b) && Input(l.enc(b));
      BlockInverse(b, Schedule(key, 8, 60), 14);
    }
  }

  /** strcpy of a string without NUL into the buffer. */
  method CopyString(b: array<bv8>, s: seq<bv8>)
    requires |s| < b.Length && NoNul(s)
    modifies b
    ensures CString(b[..]) == s
  {
    forall i | 0 <= i < |s| { b[i] := s[i]; }
    b[|s|] := 0;
    assert b[..] == s + b[|s|..];
    CStringOf(s, b[|s|..]);
  }

  /** The setup both handlers do: the key schedule, CBC mode and the initial vector. */
  method SetUp(l: Library, key: seq<bv8>, aes: Aes)
    requires aes.Valid() && UsesKey(l, key)
    modifies aes, aes.key, aes.carry
    ensures aes.Valid() && aes.mode == Cbc && aes.carry[..] == l.iv && aes.Enciphers(l.enc) && aes.Deciphers(l.dec)
  {
    aes.Setup(Some(key), 8, Cbc, Some(l.iv));
    assert aes.key[..60] == aes.key[..];
  }

  /** The AES calls of the encrypter: setup, encrypt in place, clear. */
  method EncryptFront(l: Library, key: seq<bv8>, aes: Aes, b: array<bv8>, size: nat)
    requires aes.Valid() && UsesKey(l, key) && b != aes.state && b != aes.carry
    requires size <= b.Length && size % 16 == 0
    modifies aes, aes.key, aes.state, aes.carry, b
    ensures b[..size] == EncryptLong(l.enc, Cbc, l.iv, old(b[..size])).bytes
  {
    SetUp(l, key, aes);
    EncryptPart(l, aes, b, size);
    aes.Clear();
  }

  method EncryptPart(l: Library, aes: Aes, b: array<bv8>, size: nat)
    requires aes.Valid() && aes.mode == Cbc && aes.carry[..] == l.iv && aes.Enciphers(l.enc)
    requires b != aes.state && b != aes.carry && size <= b.Length && size % 16 == 0
    modifies aes.state, aes.carry, b
    ensures b[..size] == EncryptLong(l.enc, Cbc, l.iv, old(b[..size])).bytes
  {
    ghost var was, front := b[..], b[..size];
    assert b[0..0 + size] == front;
    aes.EncryptWith(l.enc, b, 0, b, 0, size);
    PatchedFront(was, EncryptLong(l.enc, Cbc, l.iv, front).bytes, b[..]);
  }

  lemma PatchedFront(x: seq<bv8>, bytes: seq<bv8>, y: seq<bv8>)
    requires Patched(x, 0, bytes, y)
    ensures y[..|bytes|] == bytes && y[|bytes|..] == x[|bytes|..]
  {
  }

  /** EncrypterBase64 */
  method EncryptMessage(l: Library, key: seq<bv8>, aes: Aes, b: array<bv8>, n: nat)
    requires aes.Valid() && UsesKey(l, key) && b != aes.state && b != aes.carry
    requires RoundUp(n) <= b.Length && Sound(l) && |l.b64(CipherText(l, b[..], n))| < b.Length
    modifies aes, aes.key, aes.state, aes.carry, b
    ensures CString(b[..]) == l.b64(CipherText(l, old(b[..]), n))
  {
    var size := RoundUp(n);
    ghost var was := b[..];
    assert was[..size] == b[..size];
    EncryptFront(l, key, aes, b, size);
    CopyString(b, l.b64(b[..size]));
  }

  /** prepareLoRaMessage */
  method PrepareLoRaMessage(l: Library, key: seq<bv8>, aes: Aes, b: array<bv8>, n: nat) returns (status: Status)
    requires aes.Valid() && UsesKey(l, key) && b != aes.state && b != aes.carry
    requires RoundUp(n) <= b.Length && Sound(l) && |l.b64(CipherText(l, b[..], n))| + 40 < b.Length
    modifies aes, aes.key, aes.state, aes.carry, b
    ensures Outcome(status, CString(b[..])) == Prepare(l, old(b[..]), n)
  {
    EncryptMessage(l, key, aes, b, n);
    ghost var body := CString(b[..]);
    assert |l.mac(body)| == 32;
    AddCode(l, b);
    status := AddChecksum(l, b);
  }

  /** The AES calls of the decrypter, on the scratch buffer. */
  method DecryptFront(l: Library, key: seq<bv8>, aes: Aes, d: array<bv8>, room: nat)
    requires aes.Valid() && UsesKey(l, key) && d != aes.state && d != aes.carry && 16 <= room <= d.Length
    modifies aes, aes.key, aes.state, aes.carry, d
    ensures d[..] == DecryptLong(l.dec, Cbc, l.iv, old(d[..room])).bytes + old(d[room..])
  {
    SetUp(l, key, aes);
    DecryptPart(l, aes, d, room);
    aes.Clear();
  }

  method DecryptPart(l: Library, aes: Aes, d: array<bv8>, room: nat)
    requires aes.Valid() && aes.mode == Cbc && aes.carry[..] == l.iv && aes.Deciphers(l.dec)
    requires d != aes.state && d != aes.carry && 16 <= room <= d.Length
    modifies aes.state, aes.carry, d
    ensures d[..] == DecryptLong(l.dec, Cbc, l.iv, old(d[..room])).bytes + old(d[room..])
  {
    ghost var was, front := d[..], d[..room];
    assert d[0..0 + room] == front && was[room..] == d[room..];
    aes.DecryptWith(l.dec, d, 0, d, 0, room);
    PatchedFront(was, DecryptLong(l.dec, Cbc, l.iv, front).bytes, d[..]);
    assert d[..] == d[..][..room] + d[..][room..];
  }

  /** The decoder's output at the front of the scratch buffer. */
  method FillFront(d: array<bv8>, c: seq<bv8>, room: nat)
    requires |c| <= d.Length && room <= d.Length
    modifies d
    ensures var filled := c + old(d[..])[|c|..];
            d[..room] == filled[..room] && d[room..] == filled[room..]
  {
    ghost var filled := c + d[..][|c|..];
    forall i | 0 <= i < |c| { d[i] := c[i]; }
    assert d[..] == filled;
  }

  method Unpack(l: Library, key: seq<bv8>, aes: Aes, c: seq<bv8>, d: array<bv8>, room: nat)
    requires aes.Valid() && UsesKey(l, key) && d != aes.state && d != aes.carry && |c| <= d.Length &&
             16 <= room <= d.Length
    modifies aes, aes.key, aes.state, aes.carry, d
    ensures d[..] == Scratch(l, c, room, old(d[..]))
  {
    FillFront(d, c, room);
    DecryptFront(l, key, aes, d, room);
  }

  /** DecrypterBase64, with its scratch buffer d. */
  method DecryptMessage(l: Library, key: seq<bv8>, aes: Aes, b: array<bv8>, d: array<bv8>) returns (status: Status)
    requires aes.Valid() && UsesKey(l, key) && d != aes.state && d != aes.carry && d != b && b != aes.state &&
             b != aes.carry
    requires 16 <= b.Length <= d.Length && |CString(b[..])| < b.Length
    requires 0 < |l.unb64(CString(b[..]))| <= d.Length
    modifies aes, aes.key, aes.state, aes.carry, b, d
    ensures Outcome(status, CString(b[..])) == Decrypted(l, l.unb64(old(CString(b[..]))), b.Length, old(d[..]))
  {
    var n := Strlen(b);
    var c := l.unb64(b[..n]);
    var size, room := |c|, b.Length;
    ghost var scratch := d[..];
    Unpack(l, key, aes, c, d, room);
    StripAndCopy(b, d, size);
    DecryptedIs(l, c, room, scratch, d[..], CString(b[..]));
    return Processed;
  }

  lemma DecryptedIs(l: Library, c: seq<bv8>, room: nat, scratch: seq<bv8>, d: seq<bv8>, text: seq<bv8>)
    requires 16 <= room <= |scratch| && 0 < |c| <= |scratch| && d == Scratch(l, c, room, scratch)
    requires |d| == |scratch| && text == CString(d[..TextLength(|c|, d[|c| - 1], room)])
    ensures Outcome(Processed, text) == Decrypted(l, c, room, scratch)
  {
  }

  /** The padding count, the clamp and the copy. */
  method StripAndCopy(b: array<bv8>, d: array<bv8>, size: nat)
    requires b != d && 0 < b.Length <= d.Length && 0 < size <= d.Length
    modifies b
    ensures CString(b[..]) == CString(d[..][..TextLength(size, d[..][size - 1], b.Length)])
  {
    CopyFront(b, d, TextLength(size, d[size - 1], b.Length));
  }

  /** memcpy of k bytes and a terminator. */
  method CopyFront(b: array<bv8>, d: array<bv8>, k: nat)
    requires b != d && k < b.Length && k <= d.Length
    modifies b
    ensures CString(b[..]) == CString(d[..][..k])
  {
    forall i | 0 <= i < k { b[i] := d[i]; }
    b[k] := 0;
    assert b[..k] == d[..][..k] && b[..] == b[..k] + b[k..];
    StopsAtNul(b[..k], b[k..]);
  }

  lemma {:induction false} StopsAtNul(s: seq<bv8>, rest: seq<bv8>)
    requires rest != [] && rest[0] == 0
    ensures CString(s + rest) == CString(s)
    decreases |s|
  {
    if s == [] {
      assert s + rest == rest;
    } else {
      assert (s + rest)[1..] == s[1..] + rest;
      StopsAtNul(s[1..], rest);
    }
  }

  /** processLoRaMessage: the handlers run until one refuses.  The codes that a text needs are those
      that keep the reads inside the buffers. */
  method ProcessLoRaMessage(l: Library, key: seq<bv8>, aes: Aes, b: array<bv8>, d: array<bv8>, was: bv32)
    returns (status: Status)
    requires aes.Valid() && UsesKey(l, key) && d != aes.state && d != aes.carry && d != b && b != aes.state &&
             b != aes.carry
    requires 16 <= b.Length <= d.Length && |CString(b[..])| < b.Length
    requires Process(l, CString(b[..]), b.Length, d[..], was).status != OutOfBounds
    modifies aes, aes.key, aes.state, aes.carry, b, d
    ensures Outcome(status, CString(b[..])) == Process(l, old(CString(b[..])), b.Length, old(d[..]), was)
  {
    ghost var s := CString(b[..]);
    status := VerifyChecksum(l, b, was);
    if status != Processed {
      return;
    }
    assert CString(b[..]) == s[..|s| - 8];
    status := VerifyCode(l, b);
    if status != Processed {
      return;
    }
    status := DecryptMessage(l, key, aes, b, d);
  }
}
