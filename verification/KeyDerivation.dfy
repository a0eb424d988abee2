/**
 The key derivation of `crypto/mod.rs`: an HMAC written with two pad arrays and an
 in-place xor loop, and one extract and one expand call on top of it. Both are proved
 against the general definitions of the standards they cite: section 2 of RFC 2104 and
 sections 2.2 and 2.3 of RFC 5869. The hash itself is a parameter.
 */
module KeyDerivation {
  import opened Prelude

  type Hash = Bytes -> Bytes

  const BLOCK_SIZE := 64
  const HASH_LEN := 32

  /** All that is assumed of SHA-256 here: digests are 32 bytes. */
  ghost predicate Digests32(h: Hash) {
    forall m: Bytes :: |h(m)| == HASH_LEN
  }

  // --- section 2 of RFC 2104 ---

  function Fill(b: bv8, n: nat): (r: Bytes)
    ensures |r| == n
  {
    seq(n, _ => b)
  }

  function Xor(a: Bytes, b: Bytes): (r: Bytes)
    requires |a| == |b|
    ensures |r| == |a|
  {
    seq(|a|, i requires 0 <= i < |a| => a[i] ^ b[i])
  }

  /** The key as a block: hashed first when longer than a block, then zero-extended. */
  ghost function KeyBlock(h: Hash, key: Bytes): (r: Bytes)
    requires Digests32(h)
    ensures |r| == BLOCK_SIZE
  {
    var k := if |key| > BLOCK_SIZE then h(key) else key;
    k + Fill(0, BLOCK_SIZE - |k|)
  }

  /** H(K xor opad, H(K xor ipad, text)). */
  ghost function Hmac(h: Hash, key: Bytes, text: Bytes): Bytes
    requires Digests32(h)
  {
    var k := KeyBlock(h, key);
    h(Xor(k, Fill(0x5c, BLOCK_SIZE)) + h(Xor(k, Fill(0x36, BLOCK_SIZE)) + text))
  }

  // --- sections 2.2 and 2.3 of RFC 5869 ---

  ghost function Extract(h: Hash, salt: Bytes, ikm: Bytes): Bytes
    requires Digests32(h)
  {
    Hmac(h, salt, ikm)
  }

  /** T(i): T(0) is empty and T(i) = HMAC(PRK, T(i-1) | info | i). */
  ghost function ExpandBlock(h: Hash, prk: Bytes, info: Bytes, i: nat): (r: Bytes)
    requires Digests32(h) && i <= 255
    ensures |r| == if i == 0 then 0 else HASH_LEN
  {
    if i == 0 then [] else Hmac(h, prk, ExpandBlock(h, prk, info, i - 1) + info + [i as bv8])
  }

  /** T(1) | T(2) | ... | T(n). */
  ghost function ExpandBlocks(h: Hash, prk: Bytes, info: Bytes, n: nat): (r: Bytes)
    requires Digests32(h) && n <= 255
    ensures |r| == n * HASH_LEN
  {
    if n == 0 then [] else ExpandBlocks(h, prk, info, n - 1) + ExpandBlock(h, prk, info, n)
  }

  /** The first `length` octets of T(1) | ... | T(ceil(length / HashLen)). */
  ghost function Expand(h: Hash, prk: Bytes, info: Bytes, length: nat): (r: Bytes)
    requires Digests32(h) && length <= 255 * HASH_LEN
    ensures |r| == length
  {
    ExpandBlocks(h, prk, info, (length + HASH_LEN - 1) / HASH_LEN)[..length]
  }

  ghost function Hkdf(h: Hash, salt: Bytes, ikm: Bytes, info: Bytes, length: nat): (r: Bytes)
    requires Digests32(h) && length <= 255 * HASH_LEN
    ensures |r| == length
  {
    Expand(h, Extract(h, salt, ikm), info, length)
  }

  // --- the program ---

  /** The key block of `hmac_sha256`, copied into a zeroed buffer. */
  method FillKeyBlock(h: Hash, key: Bytes) returns (block: array<bv8>)
    requires Digests32(h)
    ensures fresh(block) && block.Length == BLOCK_SIZE
    ensures block[..] == KeyBlock(h, key)
    ensures |key| <= 64 ==> block[..] == key + Fill(0, 64 - |key|)
    ensures |key| > 64 ==> block[..] == h(key) + Fill(0, 32)
  {
    block := new bv8[BLOCK_SIZE](_ => 0);
    var k := if |key| > BLOCK_SIZE then h(key) else key;
    for i := 0 to |k|
      invariant block[..] == k[..i] + Fill(0, BLOCK_SIZE - i)
    {
      block[i] := k[i];
    }
    assert k[..|k|] == k;
  }

  /** `hmac_sha256`: two pad arrays, xored in place with the key block. */
  method HmacSha256(h: Hash, key: Bytes, message: Bytes) returns (mac: Bytes)
    requires Digests32(h)
    ensures mac == Hmac(h, key, message)
    ensures var k := if |key| > 64 then h(key) + Fill(0, 32) else key + Fill(0, 64 - |key|);
            mac == h(Xor(k, Fill(0x5c, 64)) + h(Xor(k, Fill(0x36, 64)) + message))
  {
    var keyBlock := FillKeyBlock(h, key);
    ghost var kb := KeyBlock(h, key);
    var ipad := new bv8[BLOCK_SIZE](_ => 0x36);
    var opad := new bv8[BLOCK_SIZE](_ => 0x5c);
    for i := 0 to BLOCK_SIZE
      invariant keyBlock[..] == kb
      invariant forall j :: 0 <= j < i ==> ipad[j] == kb[j] ^ 0x36 && opad[j] == kb[j] ^ 0x5c
      invariant forall j :: i <= j < BLOCK_SIZE ==> ipad[j] == 0x36 && opad[j] == 0x5c
    {
      ghost var b := keyBlock[..][i];
      ipad[i] := ipad[i] ^ keyBlock[i];
      opad[i] := opad[i] ^ keyBlock[i];
      assert ipad[i] == b ^ 0x36 && opad[i] == b ^ 0x5c;
    }
    assert ipad[..] == Xor(kb, Fill(0x36, BLOCK_SIZE));
    assert opad[..] == Xor(kb, Fill(0x5c, BLOCK_SIZE));
    var inner := h(ipad[..] + message);
    mac := h(opad[..] + inner);
  }

  /** The UTF-8 bytes of "MFA-ZeroTrust-Session-v1". */
  const SESSION_LABEL: Bytes :=
    [0x4d, 0x46, 0x41, 0x2d, 0x5a, 0x65, 0x72, 0x6f, 0x54, 0x72, 0x75, 0x73,
     0x74, 0x2d, 0x53, 0x65, 0x73, 0x73, 0x69, 0x6f, 0x6e, 0x2d, 0x76, 0x31]

  /** The session key as the standard defines it, salted with the handshake nonce. */
  ghost function SessionKey(h: Hash, kyberShared: Bytes, x25519Shared: Bytes,
                            nonce: Bytes, transcript: Bytes): (key: Bytes)
    requires Digests32(h)
    ensures |key| == HASH_LEN
  {
    Hkdf(h, nonce, kyberShared + x25519Shared, SESSION_LABEL + transcript, HASH_LEN)
  }

  /** One block of output needs exactly one HMAC, over info | 0x01. */
  lemma OneBlockExpand(h: Hash, prk: Bytes, info: Bytes)
    requires Digests32(h)
    ensures Expand(h, prk, info, HASH_LEN) == Hmac(h, prk, info + [0x01])
  {
    var block := ExpandBlock(h, prk, info, 1);
    assert block == Hmac(h, prk, info + [0x01]) by {
      assert ExpandBlock(h, prk, info, 0) + info + [1 as bv8] == info + [0x01];
    }
    assert ExpandBlocks(h, prk, info, 1) == ExpandBlocks(h, prk, info, 0) + block == block;
    assert block[..HASH_LEN] == block;
  }

  /** `derive_session_key`. */
  method DeriveSessionKey(h: Hash, kyberShared: Bytes, x25519Shared: Bytes,
                          nonce: Bytes, transcript: Bytes) returns (key: Bytes)
    requires Digests32(h)
    ensures key == SessionKey(h, kyberShared, x25519Shared, nonce, transcript)
    ensures key == Hmac(h, Hmac(h, nonce, kyberShared + x25519Shared), SESSION_LABEL + transcript + [0x01])
  {
    var ikm: Bytes := [];
    ikm := ikm + kyberShared;
    ikm := ikm + x25519Shared;
    assert ikm == kyberShared + x25519Shared;
    var prk := HmacSha256(h, nonce, ikm);
    var info := SESSION_LABEL;
    info := info + transcript;
    OneBlockExpand(h, prk, info);
    info := info + [0x01];
    key := HmacSha256(h, prk, info);
  }

  // --- what a key is bound to, short of a collision of the hash ---

  /** Two different texts with one digest. */
  predicate Collides(h: Hash, x: Bytes, y: Bytes) {
    x != y && h(x) == h(y)
  }

  lemma XorCancels(a: Bytes, b: Bytes, c: Bytes)
    requires |a| == |b| == |c| && Xor(a, c) == Xor(b, c)
    ensures a == b
  {
    forall i | 0 <= i < |a|
      ensures a[i] == b[i]
    {
      var x := XorAt(a, c, i);
      var y := XorAt(b, c, i);
      XorOnce(a[i], b[i], c[i], x, y);
    }
  }

  lemma XorAt(a: Bytes, c: Bytes, i: nat) returns (x: bv8)
    requires |a| == |c| && i < |a|
    ensures x == Xor(a, c)[i] && IsXor(a[i], c[i], x)
  {
    x := Xor(a, c)[i];
  }

  predicate IsXor(a: bv8, c: bv8, x: bv8) {
    x == a ^ c
  }

  lemma XorOnce(a: bv8, b: bv8, c: bv8, x: bv8, y: bv8)
    requires IsXor(a, c, x) && IsXor(b, c, y) && x == y
    ensures a == b
  {
  }

  /** Equal tags come from equal keys and texts, or show a collision. */
  lemma HmacBinds(h: Hash, k: Bytes, t: Bytes, k': Bytes, t': Bytes) returns (x: Bytes, y: Bytes)
    requires Digests32(h) && |k| == |k'| <= 64 && Hmac(h, k, t) == Hmac(h, k', t')
    ensures (k == k' && t == t') || Collides(h, x, y)
  {
    var opad, ipad := Fill(0x5c, 64), Fill(0x36, 64);
    var b, b' := KeyBlock(h, k), KeyBlock(h, k');
    var inner, inner' := Xor(b, ipad) + t, Xor(b', ipad) + t';
    x, y := Xor(b, opad) + h(inner), Xor(b', opad) + h(inner');
    if x == y {
      assert Xor(b, opad) == x[..64] && Xor(b', opad) == y[..64] && h(inner) == x[64..] && h(inner') == y[64..];
      XorCancels(b, b', opad);
      assert k == b[..|k|] && k' == b'[..|k'|];
      x, y := inner, inner';
      assert t == inner[64..] && t' == inner'[64..];
    }
  }

  /** Equal session keys come from the same secrets, nonce and transcript, or show a collision. */
  lemma SessionKeyBinds(h: Hash, ks: Bytes, xs: Bytes, nonce: Bytes, transcript: Bytes,
                        ks': Bytes, xs': Bytes, nonce': Bytes, transcript': Bytes) returns (x: Bytes, y: Bytes)
    requires Digests32(h) && |nonce| == |nonce'| <= 64
    requires SessionKey(h, ks, xs, nonce, transcript) == SessionKey(h, ks', xs', nonce', transcript')
    ensures (ks + xs == ks' + xs' && nonce == nonce' && transcript == transcript') || Collides(h, x, y)
  {
    var prk, prk' := Hmac(h, nonce, ks + xs), Hmac(h, nonce', ks' + xs');
    var info, info' := SESSION_LABEL + transcript, SESSION_LABEL + transcript';
    OneBlockExpand(h, prk, info);
    OneBlockExpand(h, prk', info');
    x, y := HmacBinds(h, prk, info + [0x01], prk', info' + [0x01]);
    if !Collides(h, x, y) {
      assert transcript == (info + [0x01])[|SESSION_LABEL|..|info|];
      assert transcript' == (info' + [0x01])[|SESSION_LABEL|..|info'|];
      x, y := HmacBinds(h, nonce, ks + xs, nonce', ks' + xs');
    }
  }
}
