/**
 JSON web tokens in compact form (section 7.1 of RFC 7515): header, payload and signature in
 base64url, joined by dots, and cut apart again with strtok.
*/
module Jwt {
  import opened Basics
  import opened Base64Url
  import Hmac

  // ---------------------------------------------------------------------------------------------
  // strtok with the delimiter "."
  // ---------------------------------------------------------------------------------------------

  predicate NoDot(s: string) { '.' !in s }

  /** The length of the text before the first dot. */
  function UpToDot(s: string): (n: nat)
    ensures n <= |s| && NoDot(s[..n]) && (n < |s| ==> s[n] == '.')
  {
    if s == [] || s[0] == '.' then 0
    else
      var n := UpToDot(s[1..]);
      assert s[..n + 1] == [s[0]] + s[1..][..n];
      n + 1
  }

  /** All tokens: runs of dots count as one delimiter, and there are no empty tokens. */
  function Tokens(s: string): seq<string>
    decreases |s|
  {
    if s == [] then []
    else if s[0] == '.' then Tokens(s[1..])
    else var n := UpToDot(s); [s[..n]] + Tokens(s[n..])
  }

  /** One call of strtok from position `at`: the next token and where the next call goes on. */
  method Strtok(s: string, at: nat) returns (token: Option<string>, next: nat)
    requires at <= |s|
    ensures next <= |s|
    ensures token == None ==> Tokens(s[at..]) == []
    ensures token.Some? ==> Tokens(s[at..]) == [token.value] + Tokens(s[next..])
  {
    var i := SkipDots(s, at);
    if i == |s| {
      return None, i;
    }
    next := Scan(s, i);
    FirstToken(s, i, next);
    return Some(s[i..next]), next;
  }

  method SkipDots(s: string, at: nat) returns (i: nat)
    requires at <= |s|
    ensures at <= i <= |s| && Tokens(s[i..]) == Tokens(s[at..]) && (i < |s| ==> s[i] != '.')
  {
    i := at;
    while i < |s| && s[i] == '.'
      invariant at <= i <= |s| && Tokens(s[i..]) == Tokens(s[at..])
    {
      assert s[i..][1..] == s[i + 1..];
      i := i + 1;
    }
  }

  method Scan(s: string, i: nat) returns (next: nat)
    requires i < |s| && s[i] != '.'
    ensures i < next <= |s| && NoDot(s[i..next]) && (next < |s| ==> s[next] == '.')
  {
    next := i + 1;
    while next < |s| && s[next] != '.'
      invariant i < next <= |s| && NoDot(s[i..next])
    {
      assert s[i..next + 1] == s[i..next] + [s[next]];
      next := next + 1;
    }
  }

  lemma FirstToken(s: string, i: nat, next: nat)
    requires i < next <= |s| && NoDot(s[i..next]) && (next < |s| ==> s[next] == '.')
    ensures Tokens(s[i..]) == [s[i..next]] + Tokens(s[next..])
  {
    var t, n := s[i..], next - i;
    assert t[..n] == s[i..next] && t[n..] == s[next..];
    FirstDot(t, n);
    assert t[0] == t[..n][0];
  }

  lemma FirstDot(s: string, n: nat)
    requires n <= |s| && NoDot(s[..n]) && (n < |s| ==> s[n] == '.')
    ensures UpToDot(s) == n
  {
  }

  lemma TokenThenDot(t: string, rest: string)
    requires NoDot(t) && t != []
    ensures Tokens(t + "." + rest) == [t] + Tokens(rest)
  {
    var s := t + "." + rest;
    assert s[..|t|] == t && s[|t|] == '.';
    FirstDot(s, |t|);
    assert s[|t|..] == "." + rest && ("." + rest)[1..] == rest;
  }

  lemma TokenAtEnd(t: string)
    requires NoDot(t) && t != []
    ensures Tokens(t) == [t]
  {
    assert t[..|t|] == t && t[|t|..] == [];
    FirstDot(t, |t|);
  }

  // ---------------------------------------------------------------------------------------------
  // Tokens
  // ---------------------------------------------------------------------------------------------

  /** Any signature generator whose output is never empty and has no dot. */
  ghost predicate Plain(sign: string -> string) {
    forall t {:trigger sign(t)} :: sign(t) != [] && NoDot(sign(t))
  }

  function ToBits(s: string): seq<bv8>
    requires forall i :: 0 <= i < |s| ==> s[i] as int < 256
  {
    seq(|s|, i requires 0 <= i < |s| => s[i] as int as bv8)
  }

  function FromBits(d: seq<bv8>): (x: seq<Byte>)
    ensures |x| == |d|
  {
    seq(|d|, i requires 0 <= i < |d| => d[i] as int)
  }

  lemma AlphabetHasNoDot(s: string)
    requires AllInAlphabet(s)
    ensures NoDot(s)
  {
    assert !InAlphabet('.');
  }

  /** generateSignature: HMAC-SHA-256 in base64url.  Text beyond eight-bit characters does not occur. */
  function SignatureText(secret: seq<bv8>, text: string): (r: string)
    ensures r != [] && NoDot(r)
  {
    if forall i :: 0 <= i < |text| ==> text[i] as int < 256 then
      var mac := FromBits(Hmac.Rfc2104(secret, ToBits(text)));
      EncodeShape(mac);
      AlphabetHasNoDot(Encode(mac));
      Encode(mac)
    else "-"
  }

  function DefaultSignature(secret: seq<bv8>): string -> string { (text: string) => SignatureText(secret, text) }

  lemma DefaultIsPlain(secret: seq<bv8>)
    ensures Plain(DefaultSignature(secret))
  {
  }

  /** encodeJWT for a header and a payload. */
  function EncodeToken(sign: string -> string, header: seq<Byte>, payload: seq<Byte>): string {
    var hashed := Encode(header) + "." + Encode(payload);
    hashed + "." + sign(hashed)
  }

  /** The result code, and on success the contents of the three buffers. */
  datatype Verdict = Refused(code: nat)
    | Accepted(header: Option<seq<Byte>>, payload: Option<seq<Byte>>, signature: string)

  /** decodeJWT on allocated memory. */
  function DecodeToken(sign: string -> string, token: string): Verdict {
    var t := Tokens(token);
    if |t| != 3 then Refused(2)
    else if t[2] != sign(t[0] + "." + t[1]) then Refused(3)
    else Accepted(Decode(t[0]), Decode(t[1]), t[2])
  }

  /** Four calls of strtok: three must find a token and the fourth none. */
  method CutInThree(token: string) returns (parts: Option<(string, string, string)>)
    ensures parts.Some? <==> |Tokens(token)| == 3
    ensures parts.Some? ==> Tokens(token) == [parts.value.0, parts.value.1, parts.value.2]
  {
    assert token[0..] == token;
    var head, at := Strtok(token, 0);
    if head == None {
      return None;
    }
    var payload, at2 := Strtok(token, at);
    if payload == None {
      return None;
    }
    var signature, at3 := Strtok(token, at2);
    if signature == None {
      return None;
    }
    var extra, _ := Strtok(token, at3);
    assert Tokens(token) == [head.value, payload.value, signature.value] + Tokens(token[at3..]);
    return if extra == None then Some((head.value, payload.value, signature.value)) else None;
  }

  /** decodeJWT step by step: cut, compare the signatures, decode. */
  method DecodeSteps(sign: string -> string, token: string, ready: bool) returns (v: Verdict)
    ensures v == if ready then DecodeToken(sign, token) else Refused(1)
  {
    if !ready {
      return Refused(1);
    }
    var parts := CutInThree(token);
    if parts == None {
      return Refused(2);
    }
    var (head, payload, signature) := parts.value;
    var test := sign(head + "." + payload);
    if |test| != |signature| || signature != test {
      return Refused(3);
    }
    var headOk, h := DecodeLoop(head);
    var payloadOk, p := DecodeLoop(payload);
    return Accepted(if headOk then Some(h) else None, if payloadOk then Some(p) else None, signature);
  }

  /** A token with a payload is accepted and gives back header and payload; an empty payload leaves
      two dots side by side, which strtok takes for one, and the token is refused. */
  lemma TokenRoundTrip(sign: string -> string, header: seq<Byte>, payload: seq<Byte>)
    requires Plain(sign) && header != []
    ensures DecodeToken(sign, EncodeToken(sign, header, payload)) ==
            if payload == [] then Refused(2)
            else Accepted(Some(header), Some(payload), sign(Encode(header) + "." + Encode(payload)))
  {
    var h, p := Encode(header), Encode(payload);
    var s := sign(h + "." + p);
    EncodeShape(header);
    EncodeShape(payload);
    AlphabetHasNoDot(h);
    AlphabetHasNoDot(p);
    ThreeParts(h, p, s);
    if payload != [] {
      DecodeEncode(header);
      DecodeEncode(payload);
    }
  }

  lemma DotsRegroup(h: string, p: string, s: string)
    ensures h + "." + p + "." + s == h + "." + (p + "." + s)
  {
  }

  /** What strtok makes of three parts joined by dots. */
  lemma ThreeParts(h: string, p: string, s: string)
    requires NoDot(h) && NoDot(p) && NoDot(s) && h != [] && s != []
    ensures Tokens(h + "." + p + "." + s) == if p == [] then [h, s] else [h, p, s]
  {
    DotsRegroup(h, p, s);
    TokenThenDot(h, p + "." + s);
    TokenAtEnd(s);
    if p == [] {
      assert p + "." + s == "." + s && ("." + s)[1..] == s;
    } else {
      TokenThenDot(p, s);
    }
  }

  /** A token is header, payload and signature in this order, each in base64url: the first two decode to what was
      put in, and the third is made of the first two. */
  lemma TokenParts(sign: string -> string, header: seq<Byte>, payload: seq<Byte>)
    requires Plain(sign) && header != [] && payload != []
    ensures var t := Tokens(EncodeToken(sign, header, payload));
            && |t| == 3 && Decode(t[0]) == Some(header) && Decode(t[1]) == Some(payload)
            && t[2] == sign(t[0] + "." + t[1])
            && EncodeToken(sign, header, payload) == t[0] + "." + t[1] + "." + t[2]
  {
    var h, p := Encode(header), Encode(payload);
    EncodeShape(header);
    EncodeShape(payload);
    AlphabetHasNoDot(h);
    AlphabetHasNoDot(p);
    ThreeParts(h, p, sign(h + "." + p));
    DecodeEncode(header);
    DecodeEncode(payload);
  }

  /** The default signature is the code of the text under the secret, in base64url. */
  lemma SignatureIsMac(secret: seq<bv8>, text: string)
    requires forall i :: 0 <= i < |text| ==> text[i] as int < 256
    ensures Decode(SignatureText(secret, text)) == Some(FromBits(Hmac.Rfc2104(secret, ToBits(text))))
  {
    DecodeEncode(FromBits(Hmac.Rfc2104(secret, ToBits(text))));
  }

  /** What is accepted carries the signature of its first two parts. */
  lemma AcceptedIsSigned(sign: string -> string, token: string)
    ensures DecodeToken(sign, token).Accepted? <==>
            exists h, p :: Tokens(token) == [h, p, sign(h + "." + p)]
  {
    var t := Tokens(token);
    if |t| == 3 && t[2] == sign(t[0] + "." + t[1]) {
      assert t == [t[0], t[1], sign(t[0] + "." + t[1])];
    }
  }

  /** allocateJWTMemory's sizes, without floating point, are enough for every length it admits. */
  lemma BuffersSuffice(header: seq<Byte>, payload: seq<Byte>, mac: seq<Byte>, maxHead: nat, maxPayload: nat,
                       maxSig: nat)
    requires |header| <= maxHead && |payload| <= maxPayload && |mac| <= maxSig
    ensures var a, b, c := 4 * maxHead / 3 + 5, 4 * maxPayload / 3 + 5, 4 * maxSig / 3 + 5;
            && |Encode(header)| < a && |Encode(payload)| < b && |Encode(mac)| < c
            && |Encode(header)| + 1 + |Encode(payload)| + 1 + |Encode(mac)| < a + b + c + 4
  {
    EncodeShape(header);
    EncodeShape(payload);
    EncodeShape(mac);
  }
}
