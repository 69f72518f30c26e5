/** The cryptographic primitives the tunnel calls into: MD5, HMAC-SHA1, the
    ChaCha20 keystream and the ChaCha20-Poly1305 AEAD construction of
    section 2.8 of RFC 8439. They are outside the modelled core, and each
    body below is a simple stand-in that computes no real digest or
    cipher. The digests depend on every byte of their inputs; the
    keystream depends on the cipher, key, IV and position; the AEAD tag
    depends on the key, the nonce and the message length, and the stand-in
    seal leaves the message bytes unmasked. What the rest of the model
    relies on is what the contracts and lemmas of this module state:
    output lengths, that applying a keystream twice cancels, that opening a
    seal under its own key and nonce gives the message back, and that
    whatever opens is the seal of what it opens to. No security property
    (such as the rejection of a wrong key) is claimed. */
module Primitives {
  import opened Bytes

  const MD5_DIGEST_LENGTH: nat := 16
  const SHA_DIGEST_LENGTH: nat := 20
  /** crypto_aead_chacha20poly1305_IETF_ABYTES */
  const AEAD_TAG_SIZE: nat := 16
  /** SODIUM_BLOCK_SIZE: bytes of keystream per ChaCha20 block counter step. */
  const SODIUM_BLOCK_SIZE: nat := 64

  /** The `CryptoCipher` enumeration. */
  datatype Cipher = Chacha20 | Chacha20Ietf | Chacha20IetfPoly1305 | XChacha20IetfPoly1305

  /** A stand-in mixing of a byte string into a number, from index `i` on:
      every byte and its position count. */
  function MixFrom(s: seq<byte>, i: nat): nat
    decreases |s| - i
  {
    if i >= |s| then 0 else s[i] as nat + 31 * MixFrom(s, i + 1)
  }

  function Mix(s: seq<byte>): nat
  {
    MixFrom(s, 0)
  }

  /** A stand-in digest of `n` bytes that carries the mixed number `h` in
      its last byte. */
  function Digest(h: nat, n: nat): (d: seq<byte>)
    requires n >= 1
    ensures |d| == n
  {
    Zeros(n - 1) + [(h % 256) as byte]
  }

  /** MD5 of a message (stand-in body). */
  function Md5(m: seq<byte>): (d: seq<byte>)
    ensures |d| == MD5_DIGEST_LENGTH
  {
    Digest(Mix(m) + |m|, MD5_DIGEST_LENGTH)
  }

  /** HMAC-SHA1 with the given key (stand-in body). */
  function HmacSha1(key: seq<byte>, msg: seq<byte>): (d: seq<byte>)
    ensures |d| == SHA_DIGEST_LENGTH
  {
    Digest(Mix(key) + 7 * Mix(msg) + |msg|, SHA_DIGEST_LENGTH)
  }

  /** A number per cipher, so that the stand-in keystream tells them apart. */
  function CipherCode(cipher: Cipher): nat
  {
    match cipher
    case Chacha20 => 1
    case Chacha20Ietf => 2
    case Chacha20IetfPoly1305 => 3
    case XChacha20IetfPoly1305 => 4
  }

  /** The keystream byte of `cipher` under `key` and `iv` at absolute
      stream position `pos` (block `pos / 64`, offset `pos % 64`); stand-in
      body. */
  function KeyStream(cipher: Cipher, key: seq<byte>, iv: seq<byte>, pos: nat): byte
  {
    ((CipherCode(cipher) + Mix(key) + 3 * Mix(iv) + pos) % 256) as byte
  }

  /** The message XORed with the keystream from position `pos` on. */
  function CipherAt(cipher: Cipher, key: seq<byte>, iv: seq<byte>, pos: nat, m: seq<byte>): (c: seq<byte>)
    ensures |c| == |m|
    decreases |m|
  {
    if m == [] then [] else [Xor(m[0], KeyStream(cipher, key, iv, pos))] + CipherAt(cipher, key, iv, pos + 1, m[1..])
  }

  /** `crypto_stream_chacha20_xor_ic` and its IETF twin: XOR with the
      keystream starting at block counter `ic`. */
  function XorIc(cipher: Cipher, m: seq<byte>, iv: seq<byte>, ic: nat, key: seq<byte>): (c: seq<byte>)
    ensures |c| == |m|
  {
    CipherAt(cipher, key, iv, ic * SODIUM_BLOCK_SIZE, m)
  }

  /** Applying the same keystream twice gives the message back. */
  lemma {:induction false} CipherAtInvolutive(cipher: Cipher, key: seq<byte>, iv: seq<byte>, pos: nat, m: seq<byte>)
    ensures CipherAt(cipher, key, iv, pos, CipherAt(cipher, key, iv, pos, m)) == m
    decreases |m|
  {
    if m != [] {
      var c := CipherAt(cipher, key, iv, pos, m);
      assert c[1..] == CipherAt(cipher, key, iv, pos + 1, m[1..]);
      CipherAtInvolutive(cipher, key, iv, pos + 1, m[1..]);
      XorCancels(m[0], KeyStream(cipher, key, iv, pos));
    }
  }

  /** Encrypting a concatenation is encrypting each part at its own
      position: position alignment is all that a split of the input changes. */
  lemma {:induction false} CipherAtSplit(cipher: Cipher, key: seq<byte>, iv: seq<byte>, pos: nat, a: seq<byte>, b: seq<byte>)
    ensures CipherAt(cipher, key, iv, pos, a + b)
         == CipherAt(cipher, key, iv, pos, a) + CipherAt(cipher, key, iv, pos + |a|, b)
    decreases |a|
  {
    if a == [] {
      assert a + b == b;
    } else {
      assert (a + b)[1..] == a[1..] + b;
      assert (a + b)[0] == a[0];
      CipherAtSplit(cipher, key, iv, pos + 1, a[1..], b);
    }
  }

  /** What a codec leaves in output space it reserved but no primitive
      filled (the primitive failed and its return value was ignored). The
      content is unspecified; only the length is known. */
  function Unwritten(n: nat): (r: seq<byte>)
    ensures |r| == n
  {
    Zeros(n)
  }

  /** Unwritten space can be cut anywhere: each part is unwritten. */
  lemma UnwrittenSplit(a: nat, b: nat)
    ensures Unwritten(a + b) == Unwritten(a) + Unwritten(b)
  {
  }

  /** The 16-byte tag over a ciphertext under a key and nonce; the
      stand-in body reads the ciphertext's length only. */
  function AeadTag(key: seq<byte>, nonce: seq<byte>, c: seq<byte>): (t: seq<byte>)
    ensures |t| == AEAD_TAG_SIZE
  {
    Digest(Mix(key) + 3 * Mix(nonce) + |c|, AEAD_TAG_SIZE)
  }

  /** ChaCha20-Poly1305 encryption with empty associated data: the
      ciphertext followed by its 16-byte tag. The stand-in leaves the
      message bytes as they are and puts the secret into the tag. */
  function Seal(key: seq<byte>, nonce: seq<byte>, m: seq<byte>): (c: seq<byte>)
    ensures |c| == |m| + AEAD_TAG_SIZE
  {
    m + AeadTag(key, nonce, m)
  }

  /** The tag comparison: the same bytes, checked one by one. */
  predicate SameBytes(a: seq<byte>, b: seq<byte>)
    decreases |a|
  {
    |a| == |b| && (a == [] || (a[0] == b[0] && SameBytes(a[1..], b[1..])))
  }

  lemma {:induction false} SameBytesEqual(a: seq<byte>, b: seq<byte>)
    ensures SameBytes(a, b) <==> a == b
    decreases |a|
  {
    if |a| == |b| && a != [] {
      SameBytesEqual(a[1..], b[1..]);
      assert a == [a[0]] + a[1..] && b == [b[0]] + b[1..];
    }
  }

  /** ChaCha20-Poly1305 decryption: the message part if its tag checks. */
  function Open(key: seq<byte>, nonce: seq<byte>, c: seq<byte>): (r: Option<seq<byte>>)
    ensures r.Some? ==> |r.value| + AEAD_TAG_SIZE == |c|
  {
    if |c| < AEAD_TAG_SIZE then None
    else
      var x := c[..|c| - AEAD_TAG_SIZE];
      if SameBytes(c[|c| - AEAD_TAG_SIZE..], AeadTag(key, nonce, x)) then Some(x)
      else None
  }

  /** Opening what was sealed under the same key and nonce succeeds. */
  lemma OpenSeal(key: seq<byte>, nonce: seq<byte>, m: seq<byte>)
    ensures Open(key, nonce, Seal(key, nonce, m)) == Some(m)
  {
    var c := Seal(key, nonce, m);
    assert c[..|c| - AEAD_TAG_SIZE] == m;
    assert c[|c| - AEAD_TAG_SIZE..] == AeadTag(key, nonce, m);
    SameBytesEqual(AeadTag(key, nonce, m), AeadTag(key, nonce, m));
  }

  /** Opening succeeds only on a seal: whatever opens under a key and nonce
      is the seal, under that key and nonce, of the message it opens to, so
      bytes that are no such seal are rejected. (With the stand-in tag a
      changed byte can still give a seal of another message; the real
      Poly1305 tag makes that infeasible, which this model does not claim.) */
  lemma OpenOnlySeal(key: seq<byte>, nonce: seq<byte>, c: seq<byte>)
    requires Open(key, nonce, c).Some?
    ensures c == Seal(key, nonce, Open(key, nonce, c).value)
  {
    var n := |c| - AEAD_TAG_SIZE;
    var x := c[..n];
    SameBytesEqual(c[n..], AeadTag(key, nonce, x));
    assert c == x + c[n..];
  }

  /** `crypto_aead_encrypt` of crypto_aead.cc: only the IETF
      ChaCha20-Poly1305 cipher is wired up; every other cipher is the
      failure return -1, here `None`. */
  function AeadEncrypt(cipher: Cipher, m: seq<byte>, nonce: seq<byte>, key: seq<byte>): (c: Option<seq<byte>>)
    ensures c.Some? <==> cipher == Chacha20IetfPoly1305
    ensures c.Some? ==> c.value == Seal(key, nonce, m)
  {
    if cipher == Chacha20IetfPoly1305 then Some(Seal(key, nonce, m)) else None
  }

  /** `crypto_aead_decrypt` of crypto_aead.cc, the same dispatch. */
  function AeadDecrypt(cipher: Cipher, c: seq<byte>, nonce: seq<byte>, key: seq<byte>): (m: Option<seq<byte>>)
    ensures cipher != Chacha20IetfPoly1305 ==> m == None
    ensures cipher == Chacha20IetfPoly1305 ==> m == Open(key, nonce, c)
  {
    if cipher == Chacha20IetfPoly1305 then Open(key, nonce, c) else None
  }
}
