/** The `AeadCrypto` object of src/share/crypto_aead.cc: its key material,
    the encode and decode nonces as byte strings that `sodium_increment`
    advances, the two init flags and the decode cache. Encrypt and Decrypt
    are proved against `EncryptOutput`/`EncryptNext` and `DecryptStep` of
    AeadCodec, whose round trips are proved there. */
module Aead {
  import opened Bytes
  import opened Primitives
  import opened KeyMaterial
  import opened AeadCodec

  class AeadCrypto {
    const p: AeadParams
    /** `cipher_aead_key_.key`: the first key_size bytes of the cipher key. */
    const key: seq<byte>
    const encodeSalt: seq<byte>
    const encodeSubkey: seq<byte>
    var enInit: bool
    var encodeIv: seq<byte>
    /** How many times `encode_iv` has been incremented since it was zero. */
    ghost var enNonce: nat
    var deInit: bool
    var decodeSalt: seq<byte>
    var decodeSubkey: seq<byte>
    var decodeIv: seq<byte>
    ghost var deNonce: nat
    /** `decode_cached_`; None is the null pointer. */
    var decodeCached: Option<seq<byte>>

    ghost predicate Valid()
      reads this
    {
      && ValidParams(p)
      && |key| == p.keySize && |encodeSalt| == p.keySize
      && encodeSubkey == Subkey(encodeSalt, key, p.keySize)
      && encodeIv == NonceBytes(enNonce, p.ivSize)
      && decodeIv == NonceBytes(deNonce, p.ivSize)
    }

    /** The encoding half as the codec functions see it. */
    ghost function Encoder(): EncoderState
      reads this
    {
      EncoderState(enInit, enNonce)
    }

    /** The decoding half as the codec functions see it. */
    ghost function Decoder(): DecoderState
      reads this
    {
      DecoderState(deInit, decodeSalt, decodeSubkey, deNonce, decodeCached)
    }

    /** The constructor: the sizes and key copied from `cipherKey`, both
        nonces and the decode side zeroed, `salt` (the `randombytes_buf`
        output) as encode salt and its HKDF subkey. */
    constructor(cipher: Cipher, cipherKey: CipherKey, salt: seq<byte>)
      requires ValidParams(AeadParams(cipher, cipherKey.keySize, cipherKey.ivSize, cipherKey.tagSize))
      requires cipherKey.keySize <= |cipherKey.key| && |salt| == cipherKey.keySize
      ensures Valid()
      ensures p == AeadParams(cipher, cipherKey.keySize, cipherKey.ivSize, cipherKey.tagSize)
      ensures key == cipherKey.key[..cipherKey.keySize] && encodeSalt == salt
      ensures Encoder() == EncoderState(false, 0)
      ensures Decoder() == InitialDecoder(p)
    {
      var size := cipherKey.keySize;
      p := AeadParams(cipher, size, cipherKey.ivSize, cipherKey.tagSize);
      key := cipherKey.key[..size];
      encodeSalt := salt;
      var okm := new byte[size];
      HkdfSha1(salt, cipherKey.key[..size], SUBKEY_INFO, okm, size);
      assert okm[..] == okm[..size];
      encodeSubkey := okm[..];
      ZeroNonce(cipherKey.ivSize);
      enInit, encodeIv, enNonce := false, Zeros(cipherKey.ivSize), 0;
      deInit, decodeSalt, decodeSubkey := false, Zeros(size), Zeros(size);
      decodeIv, deNonce, decodeCached := Zeros(cipherKey.ivSize), 0, None;
    }

    /** `sodium_increment(cipher_aead_key_.encode_iv, iv_size)`. */
    method NextEncodeIv()
      requires Valid()
      modifies this
      ensures Valid() && enNonce == old(enNonce) + 1
      ensures enInit == old(enInit) && Decoder() == old(Decoder())
    {
      IncrementIsSuccessor(enNonce, p.ivSize);
      encodeIv, enNonce := Increment(encodeIv), enNonce + 1;
    }

    /** `sodium_increment(cipher_aead_key_.decode_iv, iv_size)`. */
    method NextDecodeIv()
      requires Valid()
      modifies this
      ensures Valid() && deNonce == old(deNonce) + 1
      ensures Encoder() == old(Encoder())
      ensures deInit == old(deInit) && decodeSalt == old(decodeSalt) && decodeSubkey == old(decodeSubkey)
      ensures decodeCached == old(decodeCached)
    {
      IncrementIsSuccessor(deNonce, p.ivSize);
      decodeIv, deNonce := Increment(decodeIv), deNonce + 1;
    }

    /** Encrypt: the salt once, then for every chunk its sealed length and
        sealed payload, each under the next nonce; the result is always OK.
        A seal the primitive refuses (xchacha) leaves its reserved space
        unwritten. */
    method Encrypt(buf: seq<byte>) returns (ret: CryptoResult, out: seq<byte>)
      requires Valid()
      modifies this
      ensures Valid() && ret == CryptoOk
      ensures out == EncryptOutput(p, encodeSalt, encodeSubkey, old(Encoder()), buf)
      ensures Encoder() == EncryptNext(old(Encoder()), buf)
      ensures Decoder() == old(Decoder())
    {
      var sourceLen := |buf|;
      var chunkCount, lastChunkLen := sourceLen / CHUNK_SIZE_SPLIT, sourceLen % CHUNK_SIZE_SPLIT;
      if lastChunkLen > 0 {
        chunkCount := chunkCount + 1;
      }
      out := [];
      if !enInit {
        enInit := true;
        out := encodeSalt;
      }
      var frames := SealChunks(buf, chunkCount, lastChunkLen);
      out := out + frames;
      ret := CryptoOk;
    }

    /** The chunk loop of Encrypt: `chunkCount` chunks of `buf`, the last
        `lastChunkLen` bytes long unless that is zero, each sealed as a
        frame under the next two encode nonces. */
    method SealChunks(buf: seq<byte>, chunkCount: nat, lastChunkLen: nat) returns (frames: seq<byte>)
      requires Valid()
      requires chunkCount == ChunkCount(|buf|) && lastChunkLen == |buf| % CHUNK_SIZE_SPLIT
      modifies this
      ensures Valid() && enInit == old(enInit) && Decoder() == old(Decoder())
      ensures frames == EncodeChunks(p, encodeSubkey, old(enNonce), Split(buf))
      ensures enNonce == old(enNonce) + 2 * chunkCount
    {
      ghost var chunks := Split(buf);
      ghost var nonce0 := enNonce;
      frames := [];
      var sourcePos: nat := 0;
      var chunkIndex: nat := 1;
      ghost var done: nat := 0;
      while chunkIndex <= chunkCount
        invariant Valid() && enInit == old(enInit) && Decoder() == old(Decoder())
        invariant chunkIndex == done + 1 && done <= chunkCount == |chunks|
        invariant sourcePos == Min(done * CHUNK_SIZE_SPLIT, |buf|)
        invariant enNonce == nonce0 + 2 * done
        invariant frames == EncodeChunks(p, encodeSubkey, nonce0, chunks[..done])
      {
        var chunkLen := if chunkIndex < chunkCount || lastChunkLen == 0 then CHUNK_SIZE_SPLIT else lastChunkLen;
        var sourceEnd := sourcePos + chunkLen;
        ChunkAt(buf, done, sourcePos, chunkLen, sourceEnd);
        ghost var mid := enNonce;
        var frame := SealFrame(buf[sourcePos .. sourceEnd]);
        EncodePush(p, encodeSubkey, nonce0, chunks, done, done + 1, mid);
        frames := frames + frame;
        sourcePos := sourceEnd;
        chunkIndex, done := chunkIndex + 1, done + 1;
      }
      assert chunks[..done] == chunks;
    }

    /** One turn of Encrypt's loop: the sealed length of `chunk`, then the
        sealed chunk, each under the next encode nonce. */
    method SealFrame(chunk: seq<byte>) returns (frame: seq<byte>)
      requires Valid()
      modifies this
      ensures Valid() && enNonce == old(enNonce) + 2
      ensures frame == Frame(p, encodeSubkey, old(enNonce), chunk)
      ensures enInit == old(enInit) && Decoder() == old(Decoder())
    {
      FrameSeals(p, encodeSubkey, enNonce, chunk);
      frame := SealedOrUnwritten(AeadEncrypt(p.cipher, BE16(|chunk| % 0x1_0000), encodeIv, encodeSubkey), CHUNK_SIZE_LEN + p.tagSize);
      NextEncodeIv();
      frame := frame + SealedOrUnwritten(AeadEncrypt(p.cipher, chunk, encodeIv, encodeSubkey), |chunk| + p.tagSize);
      NextEncodeIv();
    }

    /** Decrypt: prepend the cached bytes, take the salt on the first call,
        open the frames, then settle what is kept: after an error or a
        complete read nothing is cached; after NEED_MORE the undrained bytes
        are cached when some frame was drained, and the call reports OK if
        it produced output. */
    method Decrypt(buf: seq<byte>) returns (ret: CryptoResult, out: Option<seq<byte>>)
      requires Valid()
      modifies this
      ensures Valid()
      ensures DecryptStep(p, key, old(Decoder()), buf) == DecryptOutcome(Decoder(), ret, out)
      ensures Encoder() == old(Encoder())
    {
      ghost var st := Decoder();
      var s := buf;
      if decodeCached.Some? {
        s := decodeCached.value + buf;
        SetDecodeCached(None);
      }
      assert s == CachedBytes(st) + buf;
      var sourcePos: nat := 0;
      if !deInit {
        if |s| < p.keySize {
          ShortSaltOutcome(p, key, st, buf);
          out, ret := None, CryptoError;
          return;
        }
        InitDecoder(s[..p.keySize]);
        sourcePos := p.keySize;
      }
      var last, drainLen, output := OpenFrames(s, sourcePos);
      if last != CryptoNeedMore {
        if last == CryptoError {
          out := None;
        } else {
          out := Some(output);
        }
        ret := last;
      } else {
        if drainLen > 0 {
          SetDecodeCached(Some(s[drainLen..]));
        }
        out := Some(output);
        ret := if |output| > 0 then CryptoOk else CryptoNeedMore;
      }
      DecryptOutcomeIs(p, key, st, buf, s, decodeSalt, decodeSubkey, sourcePos, DecodeLoop(last, drainLen, deNonce, output), decodeCached, ret, out);
    }

    /** Sets `decode_cached_`. */
    method SetDecodeCached(cached: Option<seq<byte>>)
      requires Valid()
      modifies this
      ensures Valid() && decodeCached == cached
      ensures Encoder() == old(Encoder()) && deInit == old(deInit) && decodeSalt == old(decodeSalt)
      ensures decodeSubkey == old(decodeSubkey) && deNonce == old(deNonce)
    {
      decodeCached := cached;
    }

    /** The first-call branch of Decrypt: the decode salt is the first
        key_size bytes received, and the decode subkey is derived from it. */
    method InitDecoder(salt: seq<byte>)
      requires Valid() && |salt| == p.keySize
      modifies this
      ensures Valid() && deInit && decodeSalt == salt && decodeSubkey == Subkey(salt, key, p.keySize)
      ensures Encoder() == old(Encoder()) && deNonce == old(deNonce) && decodeCached == old(decodeCached)
    {
      deInit := true;
      decodeSalt := salt;
      var okm := new byte[p.keySize];
      HkdfSha1(decodeSalt, key, SUBKEY_INFO, okm, p.keySize);
      assert okm[..] == okm[..p.keySize];
      decodeSubkey := okm[..];
    }

    /** The `while (1)` loop of Decrypt over `s` from `pos0`: it stops where
        `DecodeFrom` says, with the decode nonce advanced as far. */
    method OpenFrames(s: seq<byte>, pos0: nat) returns (last: CryptoResult, drainLen: nat, output: seq<byte>)
      requires Valid() && pos0 <= |s|
      modifies this
      ensures Valid()
      ensures DecodeLoop(last, drainLen, deNonce, output) == DecodeFrom(p, decodeSubkey, s, pos0, pos0, old(deNonce), [])
      ensures Encoder() == old(Encoder()) && deInit == old(deInit) && decodeSalt == old(decodeSalt)
      ensures decodeSubkey == old(decodeSubkey) && decodeCached == old(decodeCached)
    {
      var sourcePos, sourceLen: nat := pos0, |s|;
      output, drainLen, last := [], sourcePos, CryptoNeedMore;
      while true
        invariant Valid() && Encoder() == old(Encoder()) && deInit == old(deInit) && decodeSalt == old(decodeSalt)
        invariant decodeSubkey == old(decodeSubkey) && decodeCached == old(decodeCached)
        invariant drainLen <= sourcePos <= sourceLen == |s|
        invariant DecodeFrom(p, decodeSubkey, s, sourcePos, drainLen, deNonce, output)
               == DecodeFrom(p, decodeSubkey, s, pos0, pos0, old(deNonce), [])
        decreases sourceLen - sourcePos
      {
        if sourceLen - sourcePos < CHUNK_SIZE_LEN + p.tagSize {
          TurnShort(p, decodeSubkey, s, sourcePos, drainLen, deNonce, output);
          last := CryptoNeedMore;
          break;
        }
        var lenEnd := sourcePos + CHUNK_SIZE_LEN + p.tagSize;
        var lenPlain := AeadDecrypt(p.cipher, s[sourcePos .. lenEnd], decodeIv, decodeSubkey);
        if lenPlain.None? {
          TurnBadLength(p, decodeSubkey, s, sourcePos, drainLen, deNonce, output, lenEnd);
          last := CryptoError;
          break;
        }
        var len := ReadBE16(lenPlain.value, 0);
        ghost var pos, nonce := sourcePos, deNonce;
        sourcePos := lenEnd;
        if sourceLen - sourcePos < len + p.tagSize {
          TurnCut(p, decodeSubkey, s, pos, drainLen, nonce, output, lenEnd, len);
          last := CryptoNeedMore;
          break;
        }
        NextDecodeIv();
        var payloadEnd := sourcePos + len + p.tagSize;
        var payload := AeadDecrypt(p.cipher, s[sourcePos .. payloadEnd], decodeIv, decodeSubkey);
        if payload.None? {
          TurnBadPayload(p, decodeSubkey, s, pos, drainLen, nonce, output, lenEnd, len, payloadEnd, deNonce);
          last := CryptoError;
          break;
        }
        ghost var nonce1 := deNonce;
        NextDecodeIv();
        assert deNonce == nonce + 2;
        if payloadEnd == sourceLen {
          TurnFrameLast(p, decodeSubkey, s, pos, drainLen, nonce, output, lenEnd, len, payloadEnd, payload.value, nonce1, deNonce);
        } else {
          TurnFrameMore(p, decodeSubkey, s, pos, drainLen, nonce, output, lenEnd, len, payloadEnd, payload.value, nonce1, deNonce);
        }
        output := output + payload.value;
        sourcePos := payloadEnd;
        drainLen := sourcePos;
        if drainLen == sourceLen {
          last := CryptoOk;
          break;
        }
      }
    }
  }

  // ----- one turn of Decrypt's loop, exit by exit

  /** A turn that opens a whole frame, in the loop's own terms. */
  lemma {:induction false} TurnFrameRaw(p: AeadParams, subkey: seq<byte>, s: seq<byte>, pos: nat, drain: nat, nonce: nat, out: seq<byte>,
                                        len: nat, m: seq<byte>)
    requires ValidParams(p) && drain <= pos && pos + CHUNK_SIZE_LEN + p.tagSize + len + p.tagSize <= |s|
    requires var lenPlain := AeadDecrypt(p.cipher, s[pos .. pos + CHUNK_SIZE_LEN + p.tagSize], NonceBytes(nonce, p.ivSize), subkey);
      lenPlain.Some? && |lenPlain.value| >= 2 && len == ReadBE16(lenPlain.value, 0)
    requires var pos1 := pos + CHUNK_SIZE_LEN + p.tagSize;
      AeadDecrypt(p.cipher, s[pos1 .. pos1 + len + p.tagSize], NonceBytes(nonce + 1, p.ivSize), subkey) == Some(m)
    ensures pos + CHUNK_SIZE_LEN + p.tagSize + len + p.tagSize == |s| ==>
      DecodeFrom(p, subkey, s, pos, drain, nonce, out)
      == DecodeLoop(CryptoOk, pos + CHUNK_SIZE_LEN + p.tagSize + len + p.tagSize, nonce + 2, out + m)
    ensures pos + CHUNK_SIZE_LEN + p.tagSize + len + p.tagSize < |s| ==>
      DecodeFrom(p, subkey, s, pos, drain, nonce, out)
      == DecodeFrom(p, subkey, s, pos + CHUNK_SIZE_LEN + p.tagSize + len + p.tagSize, pos + CHUNK_SIZE_LEN + p.tagSize + len + p.tagSize, nonce + 2, out + m)
  {
  }

  lemma {:induction false} TurnShort(p: AeadParams, subkey: seq<byte>, s: seq<byte>, pos: nat, drain: nat, nonce: nat, out: seq<byte>)
    requires ValidParams(p) && drain <= pos <= |s| && |s| - pos < CHUNK_SIZE_LEN + p.tagSize
    ensures DecodeFrom(p, subkey, s, pos, drain, nonce, out) == DecodeLoop(CryptoNeedMore, drain, nonce, out)
  {
  }

  lemma {:induction false} TurnBadLength(p: AeadParams, subkey: seq<byte>, s: seq<byte>, pos: nat, drain: nat, nonce: nat, out: seq<byte>,
                                         lenEnd: nat)
    requires ValidParams(p) && drain <= pos && lenEnd == pos + CHUNK_SIZE_LEN + p.tagSize <= |s|
    requires AeadDecrypt(p.cipher, s[pos .. lenEnd], NonceBytes(nonce, p.ivSize), subkey).None?
    ensures DecodeFrom(p, subkey, s, pos, drain, nonce, out) == DecodeLoop(CryptoError, drain, nonce, out)
  {
  }

  lemma {:induction false} TurnCut(p: AeadParams, subkey: seq<byte>, s: seq<byte>, pos: nat, drain: nat, nonce: nat, out: seq<byte>,
                                   lenEnd: nat, len: nat)
    requires ValidParams(p) && drain <= pos && lenEnd == pos + CHUNK_SIZE_LEN + p.tagSize <= |s|
    requires var lenPlain := AeadDecrypt(p.cipher, s[pos .. lenEnd], NonceBytes(nonce, p.ivSize), subkey);
      lenPlain.Some? && |lenPlain.value| >= 2 && len == ReadBE16(lenPlain.value, 0)
    requires |s| - lenEnd < len + p.tagSize
    ensures DecodeFrom(p, subkey, s, pos, drain, nonce, out) == DecodeLoop(CryptoNeedMore, drain, nonce, out)
  {
  }

  lemma {:induction false} TurnBadPayload(p: AeadParams, subkey: seq<byte>, s: seq<byte>, pos: nat, drain: nat, nonce: nat, out: seq<byte>,
                                          lenEnd: nat, len: nat, payloadEnd: nat, nonce1: nat)
    requires ValidParams(p) && drain <= pos && lenEnd == pos + CHUNK_SIZE_LEN + p.tagSize
    requires payloadEnd == lenEnd + len + p.tagSize <= |s| && nonce1 == nonce + 1
    requires var lenPlain := AeadDecrypt(p.cipher, s[pos .. lenEnd], NonceBytes(nonce, p.ivSize), subkey);
      lenPlain.Some? && |lenPlain.value| >= 2 && len == ReadBE16(lenPlain.value, 0)
    requires AeadDecrypt(p.cipher, s[lenEnd .. payloadEnd], NonceBytes(nonce1, p.ivSize), subkey).None?
    ensures DecodeFrom(p, subkey, s, pos, drain, nonce, out) == DecodeLoop(CryptoError, drain, nonce1, out)
  {
    assert s[lenEnd .. payloadEnd] == s[pos + CHUNK_SIZE_LEN + p.tagSize .. pos + CHUNK_SIZE_LEN + p.tagSize + len + p.tagSize];
    TurnBadPayloadRaw(p, subkey, s, pos, drain, nonce, out, len);
  }

  /** A turn whose payload does not open, in the loop's own terms. */
  lemma {:induction false} TurnBadPayloadRaw(p: AeadParams, subkey: seq<byte>, s: seq<byte>, pos: nat, drain: nat, nonce: nat, out: seq<byte>,
                                             len: nat)
    requires ValidParams(p) && drain <= pos && pos + CHUNK_SIZE_LEN + p.tagSize + len + p.tagSize <= |s|
    requires var lenPlain := AeadDecrypt(p.cipher, s[pos .. pos + CHUNK_SIZE_LEN + p.tagSize], NonceBytes(nonce, p.ivSize), subkey);
      lenPlain.Some? && |lenPlain.value| >= 2 && len == ReadBE16(lenPlain.value, 0)
    requires var pos1 := pos + CHUNK_SIZE_LEN + p.tagSize;
      AeadDecrypt(p.cipher, s[pos1 .. pos1 + len + p.tagSize], NonceBytes(nonce + 1, p.ivSize), subkey).None?
    ensures DecodeFrom(p, subkey, s, pos, drain, nonce, out) == DecodeLoop(CryptoError, drain, nonce + 1, out)
  {
  }

  /** A turn that opens the last frame of the input. */
  lemma {:induction false} TurnFrameLast(p: AeadParams, subkey: seq<byte>, s: seq<byte>, pos: nat, drain: nat, nonce: nat, out: seq<byte>,
                                         lenEnd: nat, len: nat, payloadEnd: nat, m: seq<byte>, nonce1: nat, nonce2: nat)
    requires ValidParams(p) && drain <= pos && lenEnd == pos + CHUNK_SIZE_LEN + p.tagSize
    requires payloadEnd == lenEnd + len + p.tagSize == |s| && nonce1 == nonce + 1 && nonce2 == nonce + 2
    requires var lenPlain := AeadDecrypt(p.cipher, s[pos .. lenEnd], NonceBytes(nonce, p.ivSize), subkey);
      lenPlain.Some? && |lenPlain.value| >= 2 && len == ReadBE16(lenPlain.value, 0)
    requires AeadDecrypt(p.cipher, s[lenEnd .. payloadEnd], NonceBytes(nonce1, p.ivSize), subkey) == Some(m)
    ensures DecodeFrom(p, subkey, s, pos, drain, nonce, out) == DecodeLoop(CryptoOk, payloadEnd, nonce2, out + m)
  {
    assert s[lenEnd .. payloadEnd] == s[pos + CHUNK_SIZE_LEN + p.tagSize .. pos + CHUNK_SIZE_LEN + p.tagSize + len + p.tagSize];
    TurnFrameRaw(p, subkey, s, pos, drain, nonce, out, len, m);
  }

  /** A turn that opens a frame with more input after it. */
  lemma {:induction false} TurnFrameMore(p: AeadParams, subkey: seq<byte>, s: seq<byte>, pos: nat, drain: nat, nonce: nat, out: seq<byte>,
                                         lenEnd: nat, len: nat, payloadEnd: nat, m: seq<byte>, nonce1: nat, nonce2: nat)
    requires ValidParams(p) && drain <= pos && lenEnd == pos + CHUNK_SIZE_LEN + p.tagSize
    requires payloadEnd == lenEnd + len + p.tagSize < |s| && nonce1 == nonce + 1 && nonce2 == nonce + 2
    requires var lenPlain := AeadDecrypt(p.cipher, s[pos .. lenEnd], NonceBytes(nonce, p.ivSize), subkey);
      lenPlain.Some? && |lenPlain.value| >= 2 && len == ReadBE16(lenPlain.value, 0)
    requires AeadDecrypt(p.cipher, s[lenEnd .. payloadEnd], NonceBytes(nonce1, p.ivSize), subkey) == Some(m)
    ensures DecodeFrom(p, subkey, s, pos, drain, nonce, out) == DecodeFrom(p, subkey, s, payloadEnd, payloadEnd, nonce2, out + m)
  {
    assert s[lenEnd .. payloadEnd] == s[pos + CHUNK_SIZE_LEN + p.tagSize .. pos + CHUNK_SIZE_LEN + p.tagSize + len + p.tagSize];
    TurnFrameNext(p, subkey, s, pos, drain, nonce, out, len, m, payloadEnd);
  }

  /** The turn after a frame starts where the frame ends. */
  lemma {:induction false} TurnFrameNext(p: AeadParams, subkey: seq<byte>, s: seq<byte>, pos: nat, drain: nat, nonce: nat, out: seq<byte>,
                                         len: nat, m: seq<byte>, end: nat)
    requires ValidParams(p) && drain <= pos && end == pos + CHUNK_SIZE_LEN + p.tagSize + len + p.tagSize && end < |s|
    requires var lenPlain := AeadDecrypt(p.cipher, s[pos .. pos + CHUNK_SIZE_LEN + p.tagSize], NonceBytes(nonce, p.ivSize), subkey);
      lenPlain.Some? && |lenPlain.value| >= 2 && len == ReadBE16(lenPlain.value, 0)
    requires var pos1 := pos + CHUNK_SIZE_LEN + p.tagSize;
      AeadDecrypt(p.cipher, s[pos1 .. pos1 + len + p.tagSize], NonceBytes(nonce + 1, p.ivSize), subkey) == Some(m)
    ensures DecodeFrom(p, subkey, s, pos, drain, nonce, out) == DecodeFrom(p, subkey, s, end, end, nonce + 2, out + m)
  {
    TurnFrameRaw(p, subkey, s, pos, drain, nonce, out, len, m);
    // the two ends are equal as numbers; equating them inside singleton
    // sequences lets the solver treat them as the same position
    assert [end] == [pos + CHUNK_SIZE_LEN + p.tagSize + len + p.tagSize];
  }

  /** A first call short of the salt: an error, nothing cached. */
  lemma {:induction false} ShortSaltOutcome(p: AeadParams, key: seq<byte>, st: DecoderState, buf: seq<byte>)
    requires ValidParams(p) && !st.deInit && |CachedBytes(st) + buf| < p.keySize
    ensures DecryptStep(p, key, st, buf) == DecryptOutcome(st.(cached := None), CryptoError, None)
  {
  }

  /** Decrypt's outcome, given where its loop stopped and what the source
      then keeps and returns. */
  lemma {:induction false} DecryptOutcomeIs(p: AeadParams, key: seq<byte>, st: DecoderState, buf: seq<byte>, s: seq<byte>,
                                            salt: seq<byte>, subkey: seq<byte>, pos: nat, loop: DecodeLoop,
                                            cached: Option<seq<byte>>, ret: CryptoResult, out: Option<seq<byte>>)
    requires ValidParams(p) && s == CachedBytes(st) + buf
    requires st.deInit ==> st.salt == salt && st.subkey == subkey && pos == 0
    requires !st.deInit ==> p.keySize <= |s| && s[..p.keySize] == salt && subkey == Subkey(salt, key, p.keySize) && pos == p.keySize
    requires pos <= |s| && DecodeFrom(p, subkey, s, pos, pos, st.nonce, []) == loop
    requires cached == (if loop.last == CryptoNeedMore && loop.drain > 0 then Some(s[loop.drain..]) else None)
    requires ret == (if loop.last != CryptoNeedMore then loop.last else if |loop.out| > 0 then CryptoOk else CryptoNeedMore)
    requires out == (if loop.last == CryptoError then None else Some(loop.out))
    ensures DecryptStep(p, key, st, buf) == DecryptOutcome(DecoderState(true, salt, subkey, loop.nonce, cached), ret, out)
  {
  }

  /** What a `crypto_aead_encrypt` call leaves in its `size` reserved
      bytes: the seal, or unwritten space when the call failed. */
  function SealedOrUnwritten(sealed: Option<seq<byte>>, size: nat): (r: seq<byte>)
    ensures sealed.Some? ==> r == sealed.value
    ensures sealed.None? ==> r == Unwritten(size)
  {
    if sealed.Some? then sealed.value else Unwritten(size)
  }

  /** A frame is the two `crypto_aead_encrypt` outputs in turn. */
  lemma {:induction false} FrameSeals(p: AeadParams, subkey: seq<byte>, nonce: nat, chunk: seq<byte>)
    requires ValidParams(p)
    ensures Frame(p, subkey, nonce, chunk)
         == SealedOrUnwritten(AeadEncrypt(p.cipher, BE16(|chunk| % 0x1_0000), NonceBytes(nonce, p.ivSize), subkey), CHUNK_SIZE_LEN + p.tagSize)
          + SealedOrUnwritten(AeadEncrypt(p.cipher, chunk, NonceBytes(nonce + 1, p.ivSize), subkey), |chunk| + p.tagSize)
  {
  }

  /** The frames of one more chunk. */
  lemma {:induction false} EncodePush(p: AeadParams, subkey: seq<byte>, nonce: nat, chunks: seq<seq<byte>>, k: nat, k2: nat, mid: nat)
    requires k < |chunks| && k2 == k + 1 && mid == nonce + 2 * k
    ensures EncodeChunks(p, subkey, nonce, chunks[..k2])
         == EncodeChunks(p, subkey, nonce, chunks[..k]) + Frame(p, subkey, mid, chunks[k])
  {
    assert chunks[..k + 1] == chunks[..k] + [chunks[k]];
    EncodeChunksAppend(p, subkey, nonce, chunks[..k], [chunks[k]], nonce + 2 * k);
    EncodeChunksCons(p, subkey, nonce + 2 * k, [chunks[k]]);
    assert EncodeChunks(p, subkey, nonce + 2 * k + 2, []) == [];
  }

  /** Where Encrypt's loop finds chunk `i`: at `pos`, `len` bytes long. */
  lemma {:induction false} ChunkAt(data: seq<byte>, i: nat, pos: nat, len: nat, end: nat)
    requires i < ChunkCount(|data|) && pos == Min(i * CHUNK_SIZE_SPLIT, |data|)
    requires len == (if i + 1 < ChunkCount(|data|) || |data| % CHUNK_SIZE_SPLIT == 0 then CHUNK_SIZE_SPLIT else |data| % CHUNK_SIZE_SPLIT)
    requires end == pos + len
    ensures end <= |data| && data[pos .. end] == Split(data)[i]
    ensures end == Min((i + 1) * CHUNK_SIZE_SPLIT, |data|)
  {
    SplitChunk(data, i);
    var n := |data|;
    assert n == CHUNK_SIZE_SPLIT * (n / CHUNK_SIZE_SPLIT) + n % CHUNK_SIZE_SPLIT;
    assert i * CHUNK_SIZE_SPLIT <= n;
  }
}
