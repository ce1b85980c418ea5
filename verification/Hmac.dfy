/**
 HMAC with SHA-256 (section 2 of RFC 2104).
*/
module Hmac {
  import opened Sha256

  /** The key brought to the size of a block: hashed when it is longer, then filled with zeros. */
  function BlockKey(key: seq<bv8>): (k: seq<bv8>)
    ensures |k| == 64
  {
    var short := if |key| > 64 then Hash(key) else key;
    short + Zeros(64 - |short|)
  }

  function Xor(a: bv8, b: bv8): bv8 { a ^ b }

  function XorWith(k: seq<bv8>, pad: bv8): (r: seq<bv8>)
    ensures |r| == |k|
  {
    seq(|k|, i requires 0 <= i < |k| => Xor(k[i], pad))
  }

  /** H(K xor opad, H(K xor ipad, text)) */
  function Rfc2104(key: seq<bv8>, text: seq<bv8>): (mac: seq<bv8>)
    ensures |mac| == 32
  {
    Hash(XorWith(BlockKey(key), 0x5c) + Hash(XorWith(BlockKey(key), 0x36) + text))
  }

  /** Section 2 of RFC 2104 in its own terms: with K the key, or its hash when it is longer than a block, filled up
      with zeros, ipad 64 bytes 0x36 and opad 64 bytes 0x5c, first the inner hash over (K xor ipad, text), then
      the outer one over (K xor opad, inner). */
  lemma HmacIs(key: seq<bv8>, text: seq<bv8>, k: seq<bv8>, inner: seq<bv8>, outer: seq<bv8>)
    requires |k| == |inner| == |outer| == 64
    requires |key| > 64 ==> k == Hash(key) + Zeros(32)
    requires |key| <= 64 ==> k[..|key|] == key && forall i :: |key| <= i < 64 ==> k[i] == 0
    requires forall i :: 0 <= i < 64 ==> inner[i] == Xor(k[i], 0x36) && outer[i] == Xor(k[i], 0x5c)
    ensures Rfc2104(key, text) == Hash(outer + Hash(inner + text))
  {
    assert k == BlockKey(key);
    assert inner == XorWith(k, 0x36) && outer == XorWith(k, 0x5c);
  }

  method ReplaceKey(key: seq<bv8>) returns (k: array<bv8>)
    requires |key| < 0x1_0000_0000
    ensures fresh(k) && k.Length == 64 && k[..] == BlockKey(key)
  {
    k := new bv8[64](_ => 0);
    var source := key;
    if |key| > 64 {
      source := Calculate(key);
    }
    forall i | 0 <= i < |source| { k[i] := source[i]; }
    assert k[..] == source + Zeros(64 - |source|);
  }

  /** The loop that XORs the key into both pads. */
  method Pads(k: array<bv8>) returns (ipad: array<bv8>, opad: array<bv8>)
    requires k.Length == 64
    ensures fresh(ipad) && fresh(opad) && ipad.Length == 64 && opad.Length == 64
    ensures ipad[..] == XorWith(k[..], 0x36) && opad[..] == XorWith(k[..], 0x5c)
  {
    ipad, opad := new bv8[64](_ => 0x36), new bv8[64](_ => 0x5c);
    for i := 0 to 64
      invariant forall j :: 0 <= j < i ==> ipad[j] == Xor(k[j], 0x36)
      invariant forall j :: 0 <= j < i ==> opad[j] == Xor(k[j], 0x5c)
      invariant forall j :: i <= j < 64 ==> ipad[j] == 0x36
      invariant forall j :: i <= j < 64 ==> opad[j] == 0x5c
    {
      XorSwap(k[i], 0x36);
      XorSwap(k[i], 0x5c);
      ipad[i] := Xor(ipad[i], k[i]);
      opad[i] := Xor(opad[i], k[i]);
    }
  }

  lemma XorSwap(a: bv8, b: bv8)
    ensures Xor(a, b) == Xor(b, a)
  {
  }

  /** custom_jwt_hmac_sha256: the code, cut to the room the caller has. */
  method HmacSha256(key: seq<bv8>, text: seq<bv8>, outlen: nat) returns (out: seq<bv8>)
    requires |key| < 0x1_0000_0000 && 64 + |text| < 0x1_0000_0000
    ensures |out| == (if outlen > 32 then 32 else outlen) && out == Rfc2104(key, text)[..|out|]
  {
    var k := ReplaceKey(key);
    var ipad, opad := Pads(k);
    var inner := Calculate(ipad[..] + text);
    var outer := Calculate(opad[..] + inner);
    out := outer[..if outlen > 32 then 32 else outlen];
  }
}
