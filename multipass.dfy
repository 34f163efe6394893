/** The multipass token of `multipass(payload)` (server.js:141-160): a key pair
    split out of the SHA-256 digest of the shared secret, the payload encrypted
    with AES-128 in CBC mode under a random IV, an HMAC-SHA-256 tag over
    `iv ‖ ciphertext`, and the bytes `iv ‖ ciphertext ‖ tag` in base64url.
    The primitives are parameters: only their input and output sizes are known. */
module Multipass {
  import opened Wrappers
  import opened Base64Url

  type Bytes = seq<byte>

  /** A 16-byte AES block, key or IV. */
  type Block = b: Bytes | |b| == 16 witness seq(16, _ => 0 as byte)

  /** A 32-byte SHA-256 or HMAC-SHA-256 output. */
  type Digest = b: Bytes | |b| == 32 witness seq(32, _ => 0 as byte)

  const BlockSize: nat := 16

  /** The cryptographic primitives the token is built from. */
  datatype Primitives = Primitives(
    sha256: Bytes -> Digest,             // crypto.createHash("sha256")
    aes128: (Block, Block) -> Block,     // one AES-128 block encryption: key, block
    hmacSha256: (Bytes, Bytes) -> Digest) // crypto.createHmac("sha256"): key, message

  /** `update(undefined)` throws when the secret is not configured. */
  datatype ConfigError = MissingSecret

  /** The two keys of the token. */
  datatype Keys = Keys(encryption: Block, signing: Bytes)

  /** `key.slice(0, 16)` and `key.slice(16)` of the secret's SHA-256 digest. */
  function DeriveKeys(prims: Primitives, secret: Bytes): (k: Keys)
    ensures k.encryption + k.signing == prims.sha256(secret)
    ensures |k.signing| == 16
  {
    var digest := prims.sha256(secret);
    Keys(digest[..16], digest[16..])
  }

  // ---------------------------------------------------------------------------
  // PKCS#7 padding (section 6.3 of RFC 5652), which `cipher.final()` appends

  /** Appends `n` copies of the byte `n`, where `n` (1 to 16) brings the length
      to the next multiple of 16. */
  function Pad(m: Bytes): (p: Bytes)
    ensures |p| == BlockSize * (|m| / BlockSize + 1)
    ensures p[..|m|] == m
    ensures forall k :: |m| <= k < |p| ==> p[k] as int == |p| - |m|
  {
    var n := BlockSize - |m| % BlockSize;
    m + seq(n, _ => n as byte)
  }

  /** Removes PKCS#7 padding, or `None` when it is malformed. */
  function Unpad(p: Bytes): Option<Bytes> {
    if |p| == 0 || |p| % BlockSize != 0 then None
    else
      var n := p[|p| - 1] as int;
      if n < 1 || n > BlockSize then None
      else if forall k :: |p| - n <= k < |p| ==> p[k] as int == n then Some(p[..|p| - n])
      else None
  }

  lemma UnpadPad(m: Bytes)
    ensures Unpad(Pad(m)) == Some(m)
  {
    var p := Pad(m);
    assert p[|p| - 1] as int == |p| - |m|;
  }

  // ---------------------------------------------------------------------------
  // CBC mode over the block cipher

  function XorBlock(a: Block, b: Block): (r: Block)
    ensures forall i :: 0 <= i < 16 ==> r[i] == a[i] ^ b[i]
  {
    seq(16, i requires 0 <= i < 16 => a[i] ^ b[i])
  }

  lemma XorBlockTwice(a: Block, b: Block)
    ensures XorBlock(XorBlock(a, b), b) == a
  {
    var r := XorBlock(XorBlock(a, b), b);
    forall i | 0 <= i < 16 ensures r[i] == a[i] {
      assert r[i] == (a[i] ^ b[i]) ^ b[i];
    }
  }

  /** CBC encryption of whole blocks: each plaintext block is XORed with the
      previous ciphertext block (the IV for the first) and enciphered. */
  function CbcEncrypt(cipher: (Block, Block) -> Block, key: Block, prev: Block, m: Bytes): (c: Bytes)
    requires |m| % BlockSize == 0
    ensures |c| == |m|
    decreases |m|
  {
    if m == [] then []
    else
      var block := cipher(key, XorBlock(m[..16], prev));
      block + CbcEncrypt(cipher, key, block, m[16..])
  }

  /** CBC decryption, given the inverse of the block cipher. */
  function CbcDecrypt(decipher: (Block, Block) -> Block, key: Block, prev: Block, c: Bytes): (m: Bytes)
    requires |c| % BlockSize == 0
    ensures |m| == |c|
    decreases |c|
  {
    if c == [] then []
    else
      var block: Block := c[..16];
      XorBlock(decipher(key, block), prev) + CbcDecrypt(decipher, key, block, c[16..])
  }

  /** `decipher` undoes `cipher` under every key. */
  ghost predicate Inverts(decipher: (Block, Block) -> Block, cipher: (Block, Block) -> Block) {
    forall key: Block, b: Block :: decipher(key, cipher(key, b)) == b
  }

  lemma {:induction false} CbcRoundTrip(cipher: (Block, Block) -> Block, decipher: (Block, Block) -> Block,
                                        key: Block, prev: Block, m: Bytes)
    requires Inverts(decipher, cipher) && |m| % BlockSize == 0
    ensures CbcDecrypt(decipher, key, prev, CbcEncrypt(cipher, key, prev, m)) == m
    decreases |m|
  {
    if m != [] {
      var head: Block := m[..16];
      var block := cipher(key, XorBlock(head, prev));
      var c := CbcEncrypt(cipher, key, prev, m);
      assert c[..16] == block && c[16..] == CbcEncrypt(cipher, key, block, m[16..]);
      CbcRoundTrip(cipher, decipher, key, block, m[16..]);
      XorBlockTwice(head, prev);
      assert m == head + m[16..];
    }
  }

  /** `cipher.update(plaintext)` followed by `cipher.final()` for "aes-128-cbc". */
  function Aes128CbcEncrypt(prims: Primitives, key: Block, iv: Block, plaintext: Bytes): (c: Bytes)
    ensures |c| == BlockSize * (|plaintext| / BlockSize + 1)
  {
    CbcEncrypt(prims.aes128, key, iv, Pad(plaintext))
  }

  // ---------------------------------------------------------------------------
  // The token

  /** The bytes `Buffer.concat([iv, encrypted, sig])`: the IV, the ciphertext of
      the payload under the encryption key, and the HMAC under the signing key
      of everything before it. */
  function TokenBytes(prims: Primitives, secret: Bytes, iv: Block, payload: Bytes): (t: Bytes)
    ensures |t| == 48 + BlockSize * (|payload| / BlockSize + 1)
    ensures t[..16] == iv
    ensures t[16..|t| - 32] == Aes128CbcEncrypt(prims, DeriveKeys(prims, secret).encryption, iv, payload)
    ensures t[|t| - 32..] == prims.hmacSha256(DeriveKeys(prims, secret).signing, t[..|t| - 32])
  {
    var keys := DeriveKeys(prims, secret);
    var encrypted := Aes128CbcEncrypt(prims, keys.encryption, iv, payload);
    var sig := prims.hmacSha256(keys.signing, iv + encrypted);
    assert (iv + encrypted + sig)[..|iv + encrypted|] == iv + encrypted;
    iv + encrypted + sig
  }

  /** `multipass(payload)`: the token as a base64url string, or the error thrown
      when the secret is missing. `iv` is what `crypto.randomBytes(16)` returned. */
  function Multipass(prims: Primitives, secret: Option<Bytes>, iv: Block, payload: Bytes): (r: Result<string, ConfigError>)
    ensures r.Failure? <==> secret.None?
    ensures r.Success? ==> Decode(r.value) == Some(TokenBytes(prims, secret.value, iv, payload))
    ensures r.Success? ==> |r.value| == (4 * (48 + BlockSize * (|payload| / BlockSize + 1)) + 2) / 3
    ensures r.Success? ==> forall k :: 0 <= k < |r.value| ==> IsUrlSafeChar(r.value[k])
  {
    match secret
    case None => Failure(MissingSecret)
    case Some(s) =>
      var t := TokenBytes(prims, s, iv, payload);
      RoundTrip(t);
      Success(Encode(t))
  }

  // ---------------------------------------------------------------------------
  // The consumer's side: checking and opening a token

  /** What the storefront does with the token bytes: check the tag over
      `iv ‖ ciphertext`, then decrypt and strip the padding. */
  function Open(prims: Primitives, decipher: (Block, Block) -> Block, secret: Bytes, t: Bytes): Option<Bytes> {
    if |t| < 48 || (|t| - 48) % BlockSize != 0 then None
    else
      var keys := DeriveKeys(prims, secret);
      if prims.hmacSha256(keys.signing, t[..|t| - 32]) != t[|t| - 32..] then None
      else Unpad(CbcDecrypt(decipher, keys.encryption, t[..16], t[16..|t| - 32]))
  }

  /** A token opens, under the same secret, to exactly the payload it was made from. */
  lemma OpenToken(prims: Primitives, decipher: (Block, Block) -> Block, secret: Bytes, iv: Block, payload: Bytes)
    requires Inverts(decipher, prims.aes128)
    ensures Open(prims, decipher, secret, TokenBytes(prims, secret, iv, payload)) == Some(payload)
  {
    var t := TokenBytes(prims, secret, iv, payload);
    var keys := DeriveKeys(prims, secret);
    CbcRoundTrip(prims.aes128, decipher, keys.encryption, iv, Pad(payload));
    UnpadPad(payload);
  }

  /** The multipass string decodes and opens to the payload. */
  lemma MultipassOpens(prims: Primitives, decipher: (Block, Block) -> Block, secret: Bytes, iv: Block, payload: Bytes)
    requires Inverts(decipher, prims.aes128)
    ensures Multipass(prims, Some(secret), iv, payload).Success?
    ensures var token := Multipass(prims, Some(secret), iv, payload).value;
            Decode(token).Some? && Open(prims, decipher, secret, Decode(token).value) == Some(payload)
  {
    OpenToken(prims, decipher, secret, iv, payload);
  }

  /** Any change confined to the tag is rejected: the tag over the untouched
      `iv ‖ ciphertext` is the original one. */
  lemma TamperedTagRejected(prims: Primitives, decipher: (Block, Block) -> Block, secret: Bytes,
                            iv: Block, payload: Bytes, forged: Bytes)
    requires var t := TokenBytes(prims, secret, iv, payload);
             |forged| == |t| && forged[..|t| - 32] == t[..|t| - 32] && forged[|t| - 32..] != t[|t| - 32..]
    ensures Open(prims, decipher, secret, forged) == None
  {
  }
}
