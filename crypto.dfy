/** `CryptoCreator` of src/share/crypto.cc: looks a cipher up by name,
    derives its key from the password, and builds the codec for it, AEAD
    when the cipher has a tag and stream otherwise. */
module Creator {
  import opened Bytes
  import opened Primitives
  import opened KeyMaterial
  import opened AeadCodec
  import opened StreamCodec
  import opened Aead
  import opened CryptoStream

  /** The object `NewCrypto` returns behind its `Crypto *`. */
  datatype Codec = AeadKind(aead: AeadCrypto) | StreamKind(stream: StreamCrypto)

  /** The object behind a codec. */
  function CodecRepr(c: Codec): set<object>
  {
    if c.AeadKind? then {c.aead} else {c.stream}
  }

  ghost predicate CodecValid(c: Codec)
    reads CodecRepr(c)
  {
    if c.AeadKind? then c.aead.Valid() else c.stream.Valid()
  }

  /** What the codec's next Encrypt call sends for `buf`. */
  ghost function Encoded(c: Codec, buf: seq<byte>): seq<byte>
    reads CodecRepr(c)
  {
    match c
    case AeadKind(a) => AeadCodec.EncryptOutput(a.p, a.encodeSalt, a.encodeSubkey, a.Encoder(), buf)
    case StreamKind(s) => StreamCodec.EncryptOutput(Keystream(s.cipher), s.key, s.encodeIv, s.Encoder(), buf)
  }

  /** The result and output of the codec's next Decrypt call on `buf`. */
  ghost function Decoded(c: Codec, buf: seq<byte>): (CryptoResult, Option<seq<byte>>)
    requires CodecValid(c)
    reads CodecRepr(c)
  {
    match c
    case AeadKind(a) =>
      var o := AeadCodec.DecryptStep(a.p, a.key, a.Decoder(), buf);
      (o.result, o.out)
    case StreamKind(s) =>
      var o := StreamCodec.DecryptStep(Keystream(s.cipher), s.key, s.ivSize, s.Decoder(), buf);
      (o.result, o.out)
  }

  /** The decoded bytes of an OK Decrypt call. */
  function OutBytes(out: Option<seq<byte>>): seq<byte>
  {
    if out.Some? then out.value else []
  }

  /** The virtual call `crypto_->Encrypt`. */
  method CodecEncrypt(c: Codec, helper: HelperBuffer, buf: seq<byte>) returns (ret: CryptoResult, out: seq<byte>)
    requires CodecValid(c)
    modifies CodecRepr(c), helper
    ensures CodecValid(c) && ret == CryptoOk && out == old(Encoded(c, buf))
  {
    if c.AeadKind? {
      ret, out := c.aead.Encrypt(buf);
    } else {
      ret, out := c.stream.Encrypt(buf, helper);
    }
  }

  /** The virtual call `crypto_->Decrypt`: only OK comes with an output. */
  method CodecDecrypt(c: Codec, helper: HelperBuffer, buf: seq<byte>) returns (ret: CryptoResult, out: Option<seq<byte>>)
    requires CodecValid(c)
    modifies CodecRepr(c), helper
    ensures CodecValid(c) && (ret, out) == old(Decoded(c, buf))
    ensures ret == CryptoOk ==> out.Some?
  {
    if c.AeadKind? {
      ret, out := c.aead.Decrypt(buf);
      ErrorHasNoOutput(c.aead.p, c.aead.key, old(c.aead.Decoder()), buf);
    } else {
      ret, out := c.stream.Decrypt(buf, helper);
    }
  }

  /** The key `NewInstance` derives: `HKEY_MD5` of the password into the
      first `keySize` bytes of a zeroed CIPHER_MAX_KEY_SIZE-byte buffer. */
  function CreatorKey(password: seq<byte>, info: CipherInfo): (k: CipherKey)
    requires info.keySize <= CIPHER_MAX_KEY_SIZE
    ensures |k.key| == CIPHER_MAX_KEY_SIZE && k.key[..info.keySize] == DerivedKey(password, info.keySize)
    ensures forall j :: info.keySize <= j < CIPHER_MAX_KEY_SIZE ==> k.key[j] == 0
    ensures k.keySize == info.keySize && k.ivSize == info.ivSize && k.tagSize == info.tagSize
  {
    CipherKey(info.keySize, info.ivSize, info.tagSize, DerivedKey(password, info.keySize) + Zeros(CIPHER_MAX_KEY_SIZE - info.keySize))
  }

  /** The parameters an AEAD codec gets from a table row. */
  function RowParams(info: CipherInfo): AeadParams
  {
    AeadParams(info.cipher, info.keySize, info.ivSize, info.tagSize)
  }

  /** Every row of the table fits the key and IV buffers, and every row
      with a tag is a valid AEAD configuration: so `NewCrypto` only ever
      builds codecs whose preconditions hold. */
  lemma {:induction false} RowsFit(i: nat)
    requires i < |SupportedCiphers|
    ensures SupportedCiphers[i].keySize <= CIPHER_MAX_KEY_SIZE && SupportedCiphers[i].ivSize <= CIPHER_MAX_IV_SIZE
    ensures SupportedCiphers[i].tagSize > 0 <==> ValidParams(RowParams(SupportedCiphers[i]))
    ensures SupportedCiphers[i].tagSize == 0 <==> Keystream(SupportedCiphers[i].cipher).Some?
  {
    SupportedCiphersTable();
    assert SupportedCiphers[i] in SupportedCiphers;
  }

  class CryptoCreator {
    const cipher: Cipher
    const cipherKey: CipherKey

    /** What `NewInstance` establishes: the sizes and cipher of a table
        row, the key buffer of crypto.h, and a keystream for every
        cipher without a tag. */
    ghost predicate Valid()
      reads this
    {
      && |cipherKey.key| == CIPHER_MAX_KEY_SIZE
      && cipherKey.keySize <= CIPHER_MAX_KEY_SIZE && cipherKey.ivSize <= CIPHER_MAX_IV_SIZE
      && (cipherKey.tagSize > 0 ==> ValidParams(AeadParams(cipher, cipherKey.keySize, cipherKey.ivSize, cipherKey.tagSize)))
      && (cipherKey.tagSize == 0 ==> Keystream(cipher).Some?)
    }

    constructor(cipher: Cipher, cipherKey: CipherKey)
      ensures this.cipher == cipher && this.cipherKey == cipherKey
    {
      this.cipher := cipher;
      this.cipherKey := cipherKey;
    }

    /** `NewInstance`: null when no row has the name; otherwise the first
        row so named, with the key derived from `password`. */
    static method NewInstance(algorithm: string, password: seq<byte>) returns (r: Option<CryptoCreator>)
      ensures r.None? <==> forall i :: 0 <= i < |SupportedCiphers| ==> SupportedCiphers[i].name != algorithm
      ensures r.Some? ==> fresh(r.value) && r.value.Valid()
      ensures r.Some? ==>
                exists i :: 0 <= i < |SupportedCiphers| && SupportedCiphers[i].name == algorithm
                  && r.value.cipher == SupportedCiphers[i].cipher
                  && r.value.cipherKey == CreatorKey(password, SupportedCiphers[i])
    {
      var row := FindCipher(SupportedCiphers, algorithm);
      if row.None? {
        return None;
      }
      var info := SupportedCiphers[row.value];
      RowsFit(row.value);
      var key := new byte[CIPHER_MAX_KEY_SIZE](_ => 0);
      assert key[info.keySize..] == Zeros(CIPHER_MAX_KEY_SIZE - info.keySize);
      HkeyMd5(password, key, info.keySize);
      assert key[..] == key[..info.keySize] + key[info.keySize..];
      var k := CipherKey(info.keySize, info.ivSize, info.tagSize, key[..]);
      var c := new CryptoCreator(info.cipher, k);
      r := Some(c);
    }

    /** `NewCrypto`: an AEAD codec exactly when the cipher has a tag,
        otherwise a stream codec, each fresh over this cipher and key.
        `random` stands for the `randombytes_buf` output the codec's
        constructor draws: the encode salt (key_size bytes) or the encode
        IV (iv_size bytes). */
    method NewCrypto(random: seq<byte>) returns (c: Codec)
      requires Valid()
      requires |random| == if cipherKey.tagSize > 0 then cipherKey.keySize else cipherKey.ivSize
      ensures c.AeadKind? <==> cipherKey.tagSize > 0
      ensures c.AeadKind? ==>
                fresh(c.aead) && c.aead.Valid()
                && c.aead.p == AeadParams(cipher, cipherKey.keySize, cipherKey.ivSize, cipherKey.tagSize)
                && c.aead.key == cipherKey.key[..cipherKey.keySize] && c.aead.encodeSalt == random
                && c.aead.Encoder() == EncoderState(false, 0) && c.aead.Decoder() == InitialDecoder(c.aead.p)
      ensures c.StreamKind? ==>
                fresh(c.stream) && c.stream.Valid() && c.stream.cipher == cipher && Keystream(cipher).Some?
                && c.stream.key == cipherKey.key[..cipherKey.keySize] + Zeros(CIPHER_MAX_KEY_SIZE - cipherKey.keySize)
                && c.stream.encodeIv == random
                && c.stream.Encoder() == FreshEncoder && c.stream.Decoder() == FreshDecoder(cipherKey.ivSize)
    {
      if cipherKey.tagSize > 0 {
        var a := new AeadCrypto(cipher, cipherKey, random);
        c := AeadKind(a);
      } else {
        var s := new StreamCrypto(cipher, cipherKey, random);
        c := StreamKind(s);
      }
    }
  }
}
