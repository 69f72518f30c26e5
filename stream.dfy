/** The legacy stream codec of src/share/stream.cc: its own two-row cipher
    table, its own key derivation, `StreamBasicCrypto` and the factory
    `StreamCipher`. Its key buffer is CIPHER_MAX_KEY_SIZE = 32 bytes and its
    IV buffers CIPHER_MAX_IV_SIZE = 16 bytes (src/share/stream.h). The codec
    bodies are those of crypto_stream.cc except for the keystream dispatch,
    so they are proved against the same StreamCodec functions. */
module LegacyStream {
  import opened Bytes
  import opened Primitives
  import opened KeyMaterial
  import opened StreamCodec
  import opened CryptoStream

  const LEGACY_MAX_KEY_SIZE: nat := 32
  const LEGACY_MAX_IV_SIZE: nat := 16

  /** `supported_ciphers` of stream.cc (sizes from libsodium's
      `crypto_stream_chacha20_KEYBYTES`/`_NONCEBYTES` and the IETF twins;
      no tag). */
  const LegacyCiphers: seq<CipherInfo> := [
    CipherInfo("chacha20", Chacha20, 32, 8, 0),
    CipherInfo("chacha20-ietf", Chacha20Ietf, 32, 12, 0)
  ]

  /** The legacy table is the stream part of crypto.cc's table: the same
      names, ciphers and sizes, so a name picks the same cipher in both. */
  lemma LegacyTableAgrees()
    ensures LegacyCiphers == SupportedCiphers[..2]
    ensures forall i, j :: 0 <= i < j < |LegacyCiphers| ==> LegacyCiphers[i].name != LegacyCiphers[j].name
    ensures forall i :: 0 <= i < |LegacyCiphers| ==>
              LegacyCiphers[i].keySize <= LEGACY_MAX_KEY_SIZE && LegacyCiphers[i].ivSize <= LEGACY_MAX_IV_SIZE
  {
  }

  /** The dispatch of `StreamBasicCrypto`: ChaCha20 for CHACHA20 and the
      IETF variant for anything else, so there is always a keystream. */
  function LegacyKeystream(cipher: Cipher): (ks: Option<Cipher>)
    ensures ks.Some? && ks.value in {Chacha20, Chacha20Ietf}
    ensures ks.value == Chacha20 <==> cipher == Chacha20
  {
    Some(if cipher == Chacha20 then Chacha20 else Chacha20Ietf)
  }

  /** On the ciphers of its table the legacy dispatch is crypto_stream.cc's;
      on the AEAD ciphers, where crypto_stream.cc has no keystream, it
      falls back to the IETF variant. */
  lemma LegacyKeystreamAgrees(cipher: Cipher)
    ensures cipher in {Chacha20, Chacha20Ietf} ==> LegacyKeystream(cipher) == Keystream(cipher)
    ensures cipher !in {Chacha20, Chacha20Ietf} ==> Keystream(cipher).None? && LegacyKeystream(cipher) == Some(Chacha20Ietf)
  {
  }

  /** The key the legacy factory derives: the MD5 chain of `HKEY_MD5`
      truncated to `keySize` bytes, in a zeroed 32-byte buffer. */
  function LegacyKey(password: seq<byte>, keySize: nat, ivSize: nat): (k: CipherKey)
    requires keySize <= LEGACY_MAX_KEY_SIZE
    ensures |k.key| == LEGACY_MAX_KEY_SIZE && k.keySize == keySize && k.ivSize == ivSize && k.tagSize == 0
    ensures k.key[..keySize] == DerivedKey(password, keySize)
    ensures forall j :: keySize <= j < LEGACY_MAX_KEY_SIZE ==> k.key[j] == 0
  {
    CipherKey(keySize, ivSize, 0, DerivedKey(password, keySize) + Zeros(LEGACY_MAX_KEY_SIZE - keySize))
  }

  /** `DeriveCipherKey`: zero the whole key, set the sizes, and fill the
      first `keySize` key bytes with the loop of `HKEY_MD5`. */
  method DeriveCipherKey(password: seq<byte>, keySize: nat, ivSize: nat) returns (k: CipherKey)
    requires keySize <= LEGACY_MAX_KEY_SIZE
    ensures k == LegacyKey(password, keySize, ivSize)
  {
    var key := new byte[LEGACY_MAX_KEY_SIZE](_ => 0);
    assert key[keySize..] == Zeros(LEGACY_MAX_KEY_SIZE - keySize);
    HkeyMd5(password, key, keySize);
    assert key[..] == key[..keySize] + key[keySize..];
    k := CipherKey(keySize, ivSize, 0, key[..]);
  }

  /** `StreamBasicCrypto`: the state of `StreamCrypto` over the legacy key
      buffers. */
  class StreamBasicCrypto {
    const cipher: Cipher
    const ivSize: nat
    /** `cipher_node_key_.key`: all 32 bytes of the factory's key. */
    const key: seq<byte>
    const encodeIv: seq<byte>
    var enIv: bool
    var enBytes: nat
    var deIv: bool
    var decodeIv: seq<byte>
    var deBytes: nat

    ghost predicate Valid()
      reads this
    {
      |key| == LEGACY_MAX_KEY_SIZE && |encodeIv| == ivSize && |decodeIv| == ivSize
    }

    ghost function Encoder(): StreamEncoder
      reads this
    {
      StreamEncoder(enIv, enBytes)
    }

    ghost function Decoder(): StreamDecoder
      reads this
    {
      StreamDecoder(deIv, decodeIv, deBytes)
    }

    /** The constructor: the whole 32-byte key copied, `iv` (the
        `randombytes_buf` output) as encode IV, the decode IV zero. */
    constructor(cipher: Cipher, cipherKey: CipherKey, iv: seq<byte>)
      requires |cipherKey.key| >= LEGACY_MAX_KEY_SIZE
      requires |iv| == cipherKey.ivSize <= LEGACY_MAX_IV_SIZE
      ensures Valid() && this.cipher == cipher && ivSize == cipherKey.ivSize
      ensures key == cipherKey.key[..LEGACY_MAX_KEY_SIZE] && encodeIv == iv
      ensures Encoder() == FreshEncoder && Decoder() == FreshDecoder(ivSize)
    {
      this.cipher := cipher;
      ivSize := cipherKey.ivSize;
      key := cipherKey.key[..LEGACY_MAX_KEY_SIZE];
      encodeIv := iv;
      enIv, enBytes := false, 0;
      deIv, decodeIv, deBytes := false, Zeros(cipherKey.ivSize), 0;
    }

    /** Encrypt: as `StreamCrypto::Encrypt`, always with a keystream. */
    method Encrypt(buf: seq<byte>, helper: HelperBuffer) returns (ret: CryptoResult, out: seq<byte>)
      requires Valid()
      modifies this, helper
      ensures Valid() && ret == CryptoOk
      ensures out == EncryptOutput(LegacyKeystream(cipher), key, encodeIv, old(Encoder()), buf)
      ensures Encoder() == EncryptNext(old(Encoder()), buf)
      ensures Decoder() == old(Decoder())
    {
      out := EncodeStream(LegacyKeystream(cipher), key, encodeIv, StreamEncoder(enIv, enBytes), buf, helper);
      enIv := true;
      enBytes := enBytes + |buf|;
      ret := CryptoOk;
    }

    /** Decrypt: as `StreamCrypto::Decrypt`, always with a keystream. */
    method Decrypt(buf: seq<byte>, helper: HelperBuffer) returns (ret: CryptoResult, out: Option<seq<byte>>)
      requires Valid()
      modifies this, helper
      ensures Valid()
      ensures DecryptStep(LegacyKeystream(cipher), key, ivSize, old(Decoder()), buf) == StreamOutcome(Decoder(), ret, out)
      ensures Encoder() == old(Encoder())
    {
      var code := buf;
      if !deIv {
        if |buf| < ivSize {
          ret, out := CryptoError, None;
          return;
        }
        deIv := true;
        decodeIv := buf[..ivSize];
        code := buf[ivSize..];
      }
      var plain := DecodeStream(LegacyKeystream(cipher), key, decodeIv, deBytes, code, helper);
      deBytes := deBytes + |code|;
      out := Some(plain);
      ret := CryptoOk;
    }
  }

  /** `StreamCipher`: a table row's cipher and the key derived for it. */
  class StreamCipher {
    const cipher: Cipher
    const cipherKey: CipherKey

    ghost predicate Valid()
      reads this
    {
      |cipherKey.key| == LEGACY_MAX_KEY_SIZE && cipherKey.ivSize <= LEGACY_MAX_IV_SIZE
    }

    constructor(cipher: Cipher, cipherKey: CipherKey)
      ensures this.cipher == cipher && this.cipherKey == cipherKey
    {
      this.cipher := cipher;
      this.cipherKey := cipherKey;
    }

    /** `NewInstance`: null for a name not in the table; otherwise the first
        row so named, with the key derived from `password`. */
    static method NewInstance(algorithm: string, password: seq<byte>) returns (r: Option<StreamCipher>)
      ensures r.None? <==> forall i :: 0 <= i < |LegacyCiphers| ==> LegacyCiphers[i].name != algorithm
      ensures r.Some? ==> fresh(r.value) && r.value.Valid()
      ensures r.Some? ==>
                exists i :: 0 <= i < |LegacyCiphers| && LegacyCiphers[i].name == algorithm
                  && r.value.cipher == LegacyCiphers[i].cipher
                  && r.value.cipherKey == LegacyKey(password, LegacyCiphers[i].keySize, LegacyCiphers[i].ivSize)
    {
      var row := FindCipher(LegacyCiphers, algorithm);
      if row.None? {
        return None;
      }
      var info := LegacyCiphers[row.value];
      var k := DeriveCipherKey(password, info.keySize, info.ivSize);
      var c := new StreamCipher(info.cipher, k);
      r := Some(c);
    }

    /** `NewCrypto`: a fresh codec over this cipher and key; `iv` stands
        for the random encode IV. */
    method NewCrypto(iv: seq<byte>) returns (c: StreamBasicCrypto)
      requires Valid() && |iv| == cipherKey.ivSize
      ensures fresh(c) && c.Valid() && c.cipher == cipher && c.key == cipherKey.key && c.encodeIv == iv
      ensures c.Encoder() == FreshEncoder && c.Decoder() == FreshDecoder(cipherKey.ivSize)
    {
      c := new StreamBasicCrypto(cipher, cipherKey, iv);
    }
  }
}
