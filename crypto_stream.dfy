/** The `StreamCrypto` object of src/share/crypto_stream.cc and the static
    helper buffer it stages padded data in. Encrypt and Decrypt are proved
    against `EncryptOutput`/`EncryptNext` and `DecryptStep` of StreamCodec,
    whose round trip is proved there; the legacy codec of src/share/stream.cc
    shares the helper buffer type and the splicing lemmas below. */
module CryptoStream {
  import opened Bytes
  import opened Primitives
  import opened KeyMaterial
  import opened StreamCodec

  /** `help_buffer_`: one vector shared by all codec objects of a class,
      which is why the model passes it to Encrypt and Decrypt. */
  class HelperBuffer {
    var data: seq<byte>

    constructor()
      ensures data == []
    {
      data := [];
    }

    /** `GetHelperBuffer`: a request of at least the current size grows the
        vector to one and a half times the request (new bytes zero); the
        buffer then holds at least `size` bytes. */
    method GetHelperBuffer(size: nat)
      modifies this
      ensures |data| >= size
      ensures |data| >= |old(data)| && data[..|old(data)|] == old(data)
      ensures size >= |old(data)| ==> |data| == size + size / 2 && data[|old(data)|..] == Zeros(|data| - |old(data)|)
      ensures size < |old(data)| ==> data == old(data)
    {
      if size >= |data| {
        data := data + Zeros(size + size / 2 - |data|);
      }
    }

    /** The `if (padding)` block: `padding` zero bytes then `m` at the start
        of the helper buffer, which is what is keyed instead of `m`. */
    method Stage(padding: nat, m: seq<byte>) returns (code: seq<byte>)
      modifies this
      ensures code == Zeros(padding) + m
      ensures |data| >= |old(data)| && |data| >= |code| && data[..|code|] == code
      ensures |old(data)| > |code| ==> data[|code|..] == old(data)[|code|..]
    {
      var codeLen := padding + |m|;
      GetHelperBuffer(codeLen);
      data := Zeros(padding) + m + data[codeLen..];
      code := data[..codeLen];
    }
  }

  /** `memcpy` of `w` into reserved output space at offset `at`. */
  function Overwrite(space: seq<byte>, at: nat, w: seq<byte>): (r: seq<byte>)
    requires at + |w| <= |space|
    ensures |r| == |space| && r[at .. at + |w|] == w
    ensures r[..at] == space[..at] && r[at + |w|..] == space[at + |w|..]
  {
    space[..at] + w + space[at + |w|..]
  }

  /** Encrypt's output space once the keystream is applied: `codePos`
      unwritten bytes, then the keyed padding and data. */
  function KeyedSpace(ks: Option<Cipher>, key: seq<byte>, iv: seq<byte>, pos: nat, codePos: nat, data: seq<byte>): seq<byte>
  {
    Unwritten(codePos) + Keyed(ks, key, iv, pos / SODIUM_BLOCK_SIZE * SODIUM_BLOCK_SIZE, Zeros(pos % SODIUM_BLOCK_SIZE) + data)
  }

  /** Keying into reserved space at `codePos` (or leaving it unwritten when
      there is no keystream) gives `KeyedSpace`. */
  lemma KeyInto(ks: Option<Cipher>, key: seq<byte>, iv: seq<byte>, pos: nat, codePos: nat, data: seq<byte>, space: seq<byte>)
    requires var codeLen := pos % SODIUM_BLOCK_SIZE + |data|;
      var code := Zeros(pos % SODIUM_BLOCK_SIZE) + data;
      space == if ks.Some? then Overwrite(Unwritten(codePos + codeLen), codePos, XorIc(ks.value, code, iv, pos / SODIUM_BLOCK_SIZE, key))
               else Unwritten(codePos + codeLen)
    ensures space == KeyedSpace(ks, key, iv, pos, codePos, data)
  {
    UnwrittenSplit(codePos, pos % SODIUM_BLOCK_SIZE + |data|);
  }

  /** Where Encrypt writes the IV and how much it drains, as the source
      chooses them from the padding and the init flag: the IV lands just
      before the keyed data, and draining leaves the IV (first call only)
      followed by the data's keystream. */
  lemma {:induction false} EncryptSplice(ks: Option<Cipher>, key: seq<byte>, iv: seq<byte>, st: StreamEncoder, data: seq<byte>,
                                         codePos: nat, drainLen: nat)
    requires var padding := st.bytes % SODIUM_BLOCK_SIZE;
      if st.init then codePos == 0 && drainLen == padding
      else if padding > |iv| then codePos == 0 && drainLen == padding - |iv|
      else codePos == |iv| - padding && drainLen == 0
    ensures drainLen + (if st.init then 0 else |iv|) <= |KeyedSpace(ks, key, iv, st.bytes, codePos, data)|
    ensures var space := KeyedSpace(ks, key, iv, st.bytes, codePos, data);
      (if st.init then space else Overwrite(space, drainLen, iv))[drainLen..] == EncryptOutput(ks, key, iv, st, data)
  {
    var padding := st.bytes % SODIUM_BLOCK_SIZE;
    var k := Keyed(ks, key, iv, st.bytes / SODIUM_BLOCK_SIZE * SODIUM_BLOCK_SIZE, Zeros(padding) + data);
    var space := KeyedSpace(ks, key, iv, st.bytes, codePos, data);
    PaddedKeying(ks, key, iv, st.bytes, data);
    assert k[padding..] == Keyed(ks, key, iv, st.bytes, data);
    assert space == Unwritten(codePos) + k;
    if st.init {
      assert [] + k[padding..] == k[padding..];
    } else {
      IvOverTail(Unwritten(codePos), k, drainLen, iv, padding);
    }
  }

  /** Writing the IV into `u + k` so that it ends `padding` bytes into `k`
      leaves, from the IV on, the IV and the rest of `k`. */
  lemma IvOverTail(u: seq<byte>, k: seq<byte>, at: nat, iv: seq<byte>, padding: nat)
    requires at + |iv| == |u| + padding && padding <= |k|
    ensures Overwrite(u + k, at, iv)[at..] == iv + k[padding..]
  {
    var w := Overwrite(u + k, at, iv);
    assert w[at..] == iv + w[at + |iv|..];
    assert w[at + |iv|..] == (u + k)[|u| + padding..] == k[padding..];
  }

  /** The keying step shared by Encrypt and Decrypt of both stream codecs,
      at stream position `pos` with the keystream `ks` the class dispatches
      to: stage `pos % 64` zero bytes and the data in the helper buffer
      when that padding is not zero, reserve `codePos` more bytes of
      output space, and key the staged bytes from block `pos / 64` into
      the space after `codePos`. */
  method KeyPadded(ks: Option<Cipher>, key: seq<byte>, iv: seq<byte>, pos: nat, codePos: nat, data: seq<byte>, helper: HelperBuffer)
    returns (space: seq<byte>)
    modifies helper
    ensures space == KeyedSpace(ks, key, iv, pos, codePos, data)
  {
    var counter, padding := pos / SODIUM_BLOCK_SIZE, pos % SODIUM_BLOCK_SIZE;
    var codeLen := padding + |data|;
    var code := data;
    if padding != 0 {
      code := helper.Stage(padding, data);
    }
    assert code == Zeros(padding) + data;
    space := Unwritten(codePos + codeLen);
    if ks.Some? {
      space := Overwrite(space, codePos, XorIc(ks.value, code, iv, counter, key));
    }
    KeyInto(ks, key, iv, pos, codePos, data, space);
  }

  /** The body of Encrypt shared by both stream codecs, for encoder state
      `st`: pick the code position and drain length, key the data, put the
      IV in on the first call, drain. */
  method EncodeStream(ks: Option<Cipher>, key: seq<byte>, iv: seq<byte>, st: StreamEncoder, buf: seq<byte>, helper: HelperBuffer)
    returns (out: seq<byte>)
    modifies helper
    ensures out == EncryptOutput(ks, key, iv, st, buf)
  {
    var padding := st.bytes % SODIUM_BLOCK_SIZE;
    var codePos, drainLen := 0, padding;
    if !st.init {
      if padding > |iv| {
        drainLen := padding - |iv|;
      } else {
        drainLen := 0;
        codePos := |iv| - padding;
      }
    }
    var space := KeyPadded(ks, key, iv, st.bytes, codePos, buf, helper);
    EncryptSplice(ks, key, iv, st, buf, codePos, drainLen);
    if !st.init {
      space := Overwrite(space, drainLen, iv);
    }
    out := space[drainLen..];
  }

  /** The keying part of Decrypt shared by both stream codecs: key the
      data, drain the padding. */
  method DecodeStream(ks: Option<Cipher>, key: seq<byte>, iv: seq<byte>, bytes: nat, data: seq<byte>, helper: HelperBuffer)
    returns (out: seq<byte>)
    modifies helper
    ensures out == Keyed(ks, key, iv, bytes, data)
  {
    var padding := bytes % SODIUM_BLOCK_SIZE;
    var space := KeyPadded(ks, key, iv, bytes, 0, data, helper);
    PaddedKeying(ks, key, iv, bytes, data);
    assert space == Keyed(ks, key, iv, bytes / SODIUM_BLOCK_SIZE * SODIUM_BLOCK_SIZE, Zeros(padding) + data);
    out := space[padding..];
  }

  /** The `StreamCrypto` object: cipher, the key buffer, the random encode
      IV, and per direction the init flag and the count of data bytes
      coded so far (`decode_iv` is zero until the first Decrypt). */
  class StreamCrypto {
    const cipher: Cipher
    const ivSize: nat
    /** `cipher_stream_key_.key`: the CIPHER_MAX_KEY_SIZE-byte key buffer. */
    const key: seq<byte>
    const encodeIv: seq<byte>
    var enInit: bool
    var enBytes: nat
    var deInit: bool
    var decodeIv: seq<byte>
    var deBytes: nat

    ghost predicate Valid()
      reads this
    {
      |key| == CIPHER_MAX_KEY_SIZE && |encodeIv| == ivSize && |decodeIv| == ivSize
    }

    ghost function Encoder(): StreamEncoder
      reads this
    {
      StreamEncoder(enInit, enBytes)
    }

    ghost function Decoder(): StreamDecoder
      reads this
    {
      StreamDecoder(deInit, decodeIv, deBytes)
    }

    /** The constructor: the key buffer zeroed and the first key_size bytes
        of `cipherKey`'s key copied in; `iv` (the `randombytes_buf` output)
        as encode IV. */
    constructor(cipher: Cipher, cipherKey: CipherKey, iv: seq<byte>)
      requires cipherKey.keySize <= CIPHER_MAX_KEY_SIZE && cipherKey.keySize <= |cipherKey.key|
      requires |iv| == cipherKey.ivSize <= CIPHER_MAX_IV_SIZE
      ensures Valid() && this.cipher == cipher && ivSize == cipherKey.ivSize
      ensures key == cipherKey.key[..cipherKey.keySize] + Zeros(CIPHER_MAX_KEY_SIZE - cipherKey.keySize)
      ensures encodeIv == iv
      ensures Encoder() == FreshEncoder && Decoder() == FreshDecoder(ivSize)
    {
      this.cipher := cipher;
      ivSize := cipherKey.ivSize;
      key := cipherKey.key[..cipherKey.keySize] + Zeros(CIPHER_MAX_KEY_SIZE - cipherKey.keySize);
      encodeIv := iv;
      enInit, enBytes := false, 0;
      deInit, decodeIv, deBytes := false, Zeros(cipherKey.ivSize), 0;
    }

    /** Encrypt: the data keyed from the stream position `en_bytes_`, with
        the encode IV in front on the first call; always OK. Without a
        keystream (`crypto_stream_xor_ic` returns -1, ignored) the data's
        space is left unwritten. */
    method Encrypt(buf: seq<byte>, helper: HelperBuffer) returns (ret: CryptoResult, out: seq<byte>)
      requires Valid()
      modifies this, helper
      ensures Valid() && ret == CryptoOk
      ensures out == EncryptOutput(Keystream(cipher), key, encodeIv, old(Encoder()), buf)
      ensures Encoder() == EncryptNext(old(Encoder()), buf)
      ensures Decoder() == old(Decoder())
    {
      out := EncodeStream(Keystream(cipher), key, encodeIv, StreamEncoder(enInit, enBytes), buf, helper);
      enBytes := enBytes + |buf|;
      enInit := true;
      ret := CryptoOk;
    }

    /** Decrypt: a first call shorter than the IV is an error; otherwise
        the first call takes the decode IV from its head, and the data is
        keyed from the stream position `de_bytes_`. */
    method Decrypt(buf: seq<byte>, helper: HelperBuffer) returns (ret: CryptoResult, out: Option<seq<byte>>)
      requires Valid()
      modifies this, helper
      ensures Valid()
      ensures DecryptStep(Keystream(cipher), key, ivSize, old(Decoder()), buf) == StreamOutcome(Decoder(), ret, out)
      ensures Encoder() == old(Encoder())
    {
      var code := buf;
      if !deInit {
        if |buf| < ivSize {
          ret, out := CryptoError, None;
          return;
        }
        deInit := true;
        decodeIv := buf[..ivSize];
        code := buf[ivSize..];
      }
      var plain := DecodeStream(Keystream(cipher), key, decodeIv, deBytes, code, helper);
      deBytes := deBytes + |code|;
      out := Some(plain);
      ret := CryptoOk;
    }
  }
}
