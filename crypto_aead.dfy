/** The AEAD codec of src/share/crypto_aead.cc: a random salt sent once per
    direction, a per-direction subkey HKDF(salt, key, "ss-subkey\0"), and
    the payload cut into chunks, each sent as seal(2-byte big-endian
    length) followed by seal(payload) under a little-endian nonce counter
    that starts at zero and advances after every sealing. Decrypt is
    stateful: bytes of an incomplete chunk are carried to the next call. */
module AeadCodec {
  import opened Bytes
  import opened Primitives
  import opened KeyMaterial

  const CHUNK_SIZE_LEN: nat := 2
  /** The largest payload of one chunk: CHUNK_SIZE_MASK / 2 * 2 with
      CHUNK_SIZE_MASK = 0x3FFF. */
  const CHUNK_SIZE_SPLIT: nat := 16382
  /** `sizeof(SUBKEY_INFO)` counts the terminating NUL: "ss-subkey\0". */
  const SUBKEY_INFO: seq<byte> := [0x73, 0x73, 0x2d, 0x73, 0x75, 0x62, 0x6b, 0x65, 0x79, 0x00]

  /** The sizes and cipher a codec copies from its `CipherKey`. */
  datatype AeadParams = AeadParams(cipher: Cipher, keySize: nat, ivSize: nat, tagSize: nat)

  ghost predicate ValidParams(p: AeadParams)
  {
    && p.keySize > 0
    && p.tagSize == AEAD_TAG_SIZE
    && p.cipher in {Chacha20IetfPoly1305, XChacha20IetfPoly1305}
  }
  /** Valid parameters of the one AEAD cipher whose primitive is wired up. */
  ghost predicate Ietf(p: AeadParams)
  {
    ValidParams(p) && p.cipher == Chacha20IetfPoly1305
  }


  /** The subkey of one direction. */
  function Subkey(salt: seq<byte>, key: seq<byte>, keySize: nat): (k: seq<byte>)
    ensures |k| == keySize
  {
    Hkdf(salt, key, SUBKEY_INFO, keySize)
  }

  // ---------------------------------------------------------------------
  // Chunking

  function ChunkCount(n: nat): (c: nat)
  {
    n / CHUNK_SIZE_SPLIT + (if n % CHUNK_SIZE_SPLIT > 0 then 1 else 0)
  }

  /** Length of chunk `index` (1-based) of `count` as the source writes it:
      `chunk_index < chunk_count ? CHUNK_SIZE_SPLIT : last_chunk_len`.
      When the input is a positive multiple of 16382, `last_chunk_len` is 0
      and the last full chunk is given length 0. */
  function ChunkLenAsWritten(index: nat, count: nat, last: nat): nat
  {
    if index < count then CHUNK_SIZE_SPLIT else last
  }

  /** The evidently intended length: a zero remainder means the last chunk
      is a full one. */
  function ChunkLen(index: nat, count: nat, last: nat): nat
  {
    if index < count || last == 0 then CHUNK_SIZE_SPLIT else last
  }

  function Min(a: nat, b: nat): nat
  {
    if a <= b then a else b
  }

  /** The chunks Encrypt seals, as the source's loop cuts them. */
  function SplitAsWritten(data: seq<byte>): (chunks: seq<seq<byte>>)
    ensures |chunks| == ChunkCount(|data|)
  {
    var count, last := ChunkCount(|data|), |data| % CHUNK_SIZE_SPLIT;
    seq(count, i requires 0 <= i < count =>
      data[i * CHUNK_SIZE_SPLIT .. i * CHUNK_SIZE_SPLIT + ChunkLenAsWritten(i + 1, count, last)])
  }

  /** The chunks Encrypt seals with the corrected chunk length. */
  function Split(data: seq<byte>): (chunks: seq<seq<byte>>)
    ensures |chunks| == ChunkCount(|data|)
  {
    var count, last := ChunkCount(|data|), |data| % CHUNK_SIZE_SPLIT;
    seq(count, i requires 0 <= i < count =>
      data[i * CHUNK_SIZE_SPLIT .. i * CHUNK_SIZE_SPLIT + ChunkLen(i + 1, count, last)])
  }

  /** Chunk i covers bytes [16382 i, min(16382 (i + 1), n)). */
  lemma {:induction false} SplitChunk(data: seq<byte>, i: nat)
    requires i < ChunkCount(|data|)
    ensures Split(data)[i] == data[i * CHUNK_SIZE_SPLIT .. Min((i + 1) * CHUNK_SIZE_SPLIT, |data|)]
    ensures 0 < |Split(data)[i]| <= CHUNK_SIZE_SPLIT
  {
    var n, count, last := |data|, ChunkCount(|data|), |data| % CHUNK_SIZE_SPLIT;
    assert n == CHUNK_SIZE_SPLIT * (n / CHUNK_SIZE_SPLIT) + last;
    if i + 1 < count || last == 0 {
      assert ChunkLen(i + 1, count, last) == CHUNK_SIZE_SPLIT;
      assert (i + 1) * CHUNK_SIZE_SPLIT <= n;
    } else {
      assert i == n / CHUNK_SIZE_SPLIT;
      assert i * CHUNK_SIZE_SPLIT + last == n;
      assert Min((i + 1) * CHUNK_SIZE_SPLIT, n) == n;
      assert ChunkLen(i + 1, count, last) == last;
      assert Split(data)[i] == data[i * CHUNK_SIZE_SPLIT .. n];
    }
  }

  /** Chunks as the decoder can carry them: a length that fits the 16-bit
      field and a non-empty payload. */
  ghost predicate WellSized(chunks: seq<seq<byte>>)
  {
    forall i :: 0 <= i < |chunks| ==> 0 < |chunks[i]| < 0x1_0000
  }

  lemma {:induction false} SplitWellSized(data: seq<byte>)
    ensures WellSized(Split(data))
  {
    forall i | 0 <= i < |Split(data)| ensures 0 < |Split(data)[i]| < 0x1_0000 {
      SplitChunk(data, i);
    }
  }

  lemma {:induction false} WellSizedAppend(a: seq<seq<byte>>, b: seq<seq<byte>>)
    requires WellSized(a) && WellSized(b)
    ensures WellSized(a + b)
  {
    forall i | 0 <= i < |a + b| ensures 0 < |(a + b)[i]| < 0x1_0000 {
      if i < |a| { assert (a + b)[i] == a[i]; } else { assert (a + b)[i] == b[i - |a|]; }
    }
  }

  lemma WellSizedTail(chunks: seq<seq<byte>>)
    requires WellSized(chunks) && chunks != []
    ensures WellSized(chunks[1..])
  {
    forall k | 0 <= k < |chunks| - 1 ensures 0 < |chunks[1..][k]| < 0x1_0000 {
      assert chunks[1..][k] == chunks[k + 1];
    }
  }

  lemma {:induction false} WellSizedSlice(chunks: seq<seq<byte>>, i: nat, j: nat)
    requires WellSized(chunks) && i <= j <= |chunks|
    ensures WellSized(chunks[i..j])
  {
    forall k | 0 <= k < j - i ensures 0 < |chunks[i..j][k]| < 0x1_0000 {
      assert chunks[i..j][k] == chunks[i + k];
    }
  }

  lemma {:induction false} FlattenSingle(x: seq<byte>)
    ensures Flatten([x]) == x
  {
    assert [x][1..] == [];
  }

  lemma {:induction false} FlattenPush(xs: seq<seq<byte>>, k: nat)
    requires k < |xs|
    ensures Flatten(xs[..k + 1]) == Flatten(xs[..k]) + xs[k]
  {
    assert xs[..k + 1] == xs[..k] + [xs[k]];
    FlattenAppend(xs[..k], [xs[k]]);
    FlattenSingle(xs[k]);
  }

  lemma {:induction false} SplitPrefix(data: seq<byte>, k: nat)
    requires k <= ChunkCount(|data|)
    ensures Flatten(Split(data)[..k]) == data[..Min(k * CHUNK_SIZE_SPLIT, |data|)]
  {
    if k == 0 {
      assert Split(data)[..0] == [];
    } else {
      SplitPrefix(data, k - 1);
      FlattenPush(Split(data), k - 1);
      SplitChunk(data, k - 1);
      assert Min((k - 1) * CHUNK_SIZE_SPLIT, |data|) == (k - 1) * CHUNK_SIZE_SPLIT;
    }
  }

  /** Encrypt cuts n bytes into floor(n / 16382) chunks of 16382 bytes and,
      when n mod 16382 is not zero, one last chunk of n mod 16382 bytes;
      the chunks concatenate back to the input and empty input has none. */
  lemma {:induction false} SplitShape(data: seq<byte>)
    ensures var chunks := Split(data);
      && |chunks| == |data| / CHUNK_SIZE_SPLIT + (if |data| % CHUNK_SIZE_SPLIT > 0 then 1 else 0)
      && (forall i :: 0 <= i < |data| / CHUNK_SIZE_SPLIT ==> |chunks[i]| == CHUNK_SIZE_SPLIT)
      && (|data| % CHUNK_SIZE_SPLIT > 0 ==> |chunks[|chunks| - 1]| == |data| % CHUNK_SIZE_SPLIT)
      && (data == [] ==> chunks == [])
      && Flatten(chunks) == data
  {
    var chunks := Split(data);
    forall i | 0 <= i < |data| / CHUNK_SIZE_SPLIT ensures |chunks[i]| == CHUNK_SIZE_SPLIT {
      SplitChunk(data, i);
    }
    if |data| % CHUNK_SIZE_SPLIT > 0 {
      SplitChunk(data, |chunks| - 1);
    }
    SplitPrefix(data, |chunks|);
    assert chunks[..|chunks|] == chunks;
  }

  /** The source's chunk schedule loses data: on n = 16382 m bytes, m >= 1,
      the last chunk is sealed with length 0, so only the first
      16382 (m - 1) bytes are encoded. */
  lemma {:induction false} AsWrittenDropsLastChunk(data: seq<byte>)
    requires |data| > 0 && |data| % CHUNK_SIZE_SPLIT == 0
    ensures var chunks := SplitAsWritten(data);
      && chunks[|chunks| - 1] == []
      && Flatten(chunks) == data[..|data| - CHUNK_SIZE_SPLIT]
      && Flatten(chunks) != data
  {
    var chunks := SplitAsWritten(data);
    var m := |chunks|;
    assert m == |data| / CHUNK_SIZE_SPLIT;
    assert |data| == CHUNK_SIZE_SPLIT * m;
    forall i | 0 <= i < m - 1 ensures chunks[i] == Split(data)[i] {
      assert ChunkLenAsWritten(i + 1, m, 0) == ChunkLen(i + 1, m, 0);
    }
    assert chunks[..m - 1] == Split(data)[..m - 1];
    assert ChunkLenAsWritten(m, m, |data| % CHUNK_SIZE_SPLIT) == 0;
    assert |chunks[m - 1]| == 0;
    SplitPrefix(data, m - 1);
    FlattenPush(chunks, m - 1);
    assert chunks[..m] == chunks;
  }

  // ---------------------------------------------------------------------
  // Sealing and framing

  /** One `crypto_aead_encrypt` call of Encrypt with nonce counter `nonce`:
      the `encrypt_len` bytes at `target_pos`, whether or not the primitive
      succeeded. */
  function SealChunk(p: AeadParams, subkey: seq<byte>, nonce: nat, m: seq<byte>): (c: seq<byte>)
    ensures ValidParams(p) ==> |c| == |m| + p.tagSize
  {
    var sealed := AeadEncrypt(p.cipher, m, NonceBytes(nonce, p.ivSize), subkey);
    if sealed.Some? then sealed.value else Unwritten(|m| + p.tagSize)
  }

  /** The wire size of one chunk's frame. */
  function FrameSize(p: AeadParams, chunk: seq<byte>): nat
  {
    CHUNK_SIZE_LEN + 2 * p.tagSize + |chunk|
  }

  /** One chunk on the wire: the sealed length under `nonce` and the sealed
      payload under `nonce + 1`. The length is `htons` of the chunk length,
      an `unsigned short`. */
  function Frame(p: AeadParams, subkey: seq<byte>, nonce: nat, chunk: seq<byte>): (f: seq<byte>)
    ensures ValidParams(p) ==> |f| == FrameSize(p, chunk)
  {
    SealChunk(p, subkey, nonce, BE16(|chunk| % 0x1_0000)) + SealChunk(p, subkey, nonce + 1, chunk)
  }

  /** The wire size of the frames of `chunks`. */
  function FramesLen(p: AeadParams, chunks: seq<seq<byte>>): nat
    decreases |chunks|
  {
    if chunks == [] then 0 else FrameSize(p, chunks[0]) + FramesLen(p, chunks[1..])
  }

  /** The bytes of the frames of `chunks`, frame i under nonce counter
      `nonce + 2 i`. */
  function EncodeChunks(p: AeadParams, subkey: seq<byte>, nonce: nat, chunks: seq<seq<byte>>): (r: seq<byte>)
    decreases |chunks|
  {
    if chunks == [] then [] else Frame(p, subkey, nonce, chunks[0]) + EncodeChunks(p, subkey, nonce + 2, chunks[1..])
  }

  lemma {:induction false} EncodeChunksAppend(p: AeadParams, subkey: seq<byte>, nonce: nat, a: seq<seq<byte>>, b: seq<seq<byte>>, mid: nat)
    requires mid == nonce + 2 * |a|
    ensures EncodeChunks(p, subkey, nonce, a + b) == EncodeChunks(p, subkey, nonce, a) + EncodeChunks(p, subkey, mid, b)
    decreases |a|
  {
    if a == [] {
      assert a + b == b;
    } else {
      assert (a + b)[1..] == a[1..] + b;
      assert (a + b)[0] == a[0];
      EncodeChunksAppend(p, subkey, nonce + 2, a[1..], b, mid);
    }
  }

  /** The frames of the first j chunks, then those of the rest. */
  lemma {:induction false} EncodeChunksSplit(p: AeadParams, subkey: seq<byte>, nonce: nat, chunks: seq<seq<byte>>, j: nat)
    requires j <= |chunks|
    ensures EncodeChunks(p, subkey, nonce, chunks)
         == EncodeChunks(p, subkey, nonce, chunks[..j]) + EncodeChunks(p, subkey, nonce + 2 * j, chunks[j..])
  {
    assert chunks == chunks[..j] + chunks[j..];
    EncodeChunksAppend(p, subkey, nonce, chunks[..j], chunks[j..], nonce + 2 * j);
  }

  /** `EncodeChunksSplit` with the nonce counter of the rest given as `mid`. */
  lemma EncodeChunksSplitAt(p: AeadParams, subkey: seq<byte>, nonce: nat, chunks: seq<seq<byte>>, j: nat, mid: nat)
    requires j <= |chunks| && mid == nonce + 2 * j
    ensures EncodeChunks(p, subkey, nonce, chunks)
         == EncodeChunks(p, subkey, nonce, chunks[..j]) + EncodeChunks(p, subkey, mid, chunks[j..])
  {
    assert chunks == chunks[..j] + chunks[j..];
    EncodeChunksAppend(p, subkey, nonce, chunks[..j], chunks[j..], mid);
  }

  /** The first frame, then the rest under a nonce two further. */
  lemma EncodeChunksCons(p: AeadParams, subkey: seq<byte>, nonce: nat, chunks: seq<seq<byte>>)
    requires chunks != []
    ensures EncodeChunks(p, subkey, nonce, chunks)
         == Frame(p, subkey, nonce, chunks[0]) + EncodeChunks(p, subkey, nonce + 2, chunks[1..])
  {
  }

  lemma {:induction false} EncodeChunksLength(p: AeadParams, subkey: seq<byte>, nonce: nat, chunks: seq<seq<byte>>)
    requires ValidParams(p)
    ensures |EncodeChunks(p, subkey, nonce, chunks)| == FramesLen(p, chunks)
    decreases |chunks|
  {
    if chunks != [] {
      EncodeChunksCons(p, subkey, nonce, chunks);
      EncodeChunksLength(p, subkey, nonce + 2, chunks[1..]);
    }
  }

  lemma {:induction false} FramesLenAppend(p: AeadParams, a: seq<seq<byte>>, b: seq<seq<byte>>)
    ensures FramesLen(p, a + b) == FramesLen(p, a) + FramesLen(p, b)
    decreases |a|
  {
    if a == [] {
      assert a + b == b;
    } else {
      assert (a + b)[1..] == a[1..] + b;
      FramesLenAppend(p, a[1..], b);
    }
  }

  /** A frame costs 2 + 2 tag bytes on top of its payload. */
  lemma {:induction false} FramesLenFormula(p: AeadParams, chunks: seq<seq<byte>>)
    ensures FramesLen(p, chunks) == (CHUNK_SIZE_LEN + 2 * p.tagSize) * |chunks| + |Flatten(chunks)|
    decreases |chunks|
  {
    if chunks != [] {
      FramesLenFormula(p, chunks[1..]);
    }
  }

  /** Encoder state: `en_init_` and the encode nonce counter. */
  datatype EncoderState = EncoderState(enInit: bool, nonce: nat)

  /** Everything one Encrypt call outputs: the salt on the first call only,
      then the frames of the input's chunks. */
  function EncryptOutput(p: AeadParams, salt: seq<byte>, subkey: seq<byte>, st: EncoderState, data: seq<byte>): (out: seq<byte>)
  {
    (if st.enInit then [] else salt) + EncodeChunks(p, subkey, st.nonce, Split(data))
  }

  /** The encoder state after one Encrypt call: initialised, and the nonce
      two further per chunk. */
  function EncryptNext(st: EncoderState, data: seq<byte>): (st': EncoderState)
  {
    EncoderState(true, st.nonce + 2 * ChunkCount(|data|))
  }

  /** The output length: the salt size on the first call only, plus
      2 + tag + len + tag for every chunk. This is the `target_len` the
      source reserves. */
  lemma {:induction false} EncryptOutputLength(p: AeadParams, salt: seq<byte>, subkey: seq<byte>, st: EncoderState, data: seq<byte>)
    requires ValidParams(p) && |salt| == p.keySize
    ensures var n := |data|;
      |EncryptOutput(p, salt, subkey, st, data)|
        == (if st.enInit then 0 else p.keySize)
         + (2 * p.tagSize + CHUNK_SIZE_LEN + CHUNK_SIZE_SPLIT) * (n / CHUNK_SIZE_SPLIT)
         + (if n % CHUNK_SIZE_SPLIT > 0 then 2 * p.tagSize + CHUNK_SIZE_LEN + n % CHUNK_SIZE_SPLIT else 0)
  {
    var n := |data|;
    SplitShape(data);
    FramesLenFormula(p, Split(data));
    EncodeChunksLength(p, subkey, st.nonce, Split(data));
    assert p.tagSize == 16;
    assert n == CHUNK_SIZE_SPLIT * (n / CHUNK_SIZE_SPLIT) + n % CHUNK_SIZE_SPLIT;
  }

  /** The salt is emitted exactly once: the first output starts with it, and
      once the encoder is initialised no output carries it again. */
  lemma {:induction false} SaltSentOnce(p: AeadParams, salt: seq<byte>, subkey: seq<byte>, st: EncoderState, data: seq<byte>)
    requires ValidParams(p)
    ensures EncryptNext(st, data).enInit
    ensures !st.enInit ==> EncryptOutput(p, salt, subkey, st, data)[..|salt|] == salt
    ensures st.enInit ==> EncryptOutput(p, salt, subkey, st, data) == EncodeChunks(p, subkey, st.nonce, Split(data))
  {
    var out := EncryptOutput(p, salt, subkey, st, data);
    if !st.enInit {
      assert out == salt + EncodeChunks(p, subkey, st.nonce, Split(data));
    }
  }

  // ---------------------------------------------------------------------
  // Decoding

  /** Where the decode loop stops: `last`, `drain_len`, the decode nonce and
      the plaintext gathered. */
  datatype DecodeLoop = DecodeLoop(last: CryptoResult, drain: nat, nonce: nat, out: seq<byte>)

  /** The `while (1)` loop of Decrypt from `source_pos = pos`. */
  function DecodeFrom(p: AeadParams, subkey: seq<byte>, s: seq<byte>, pos: nat, drain: nat, nonce: nat, out: seq<byte>): (r: DecodeLoop)
    requires ValidParams(p) && drain <= pos <= |s|
    ensures r.drain <= |s|
    ensures r.last == CryptoOk ==> r.drain == |s|
    decreases |s| - pos
  {
    if |s| - pos < CHUNK_SIZE_LEN + p.tagSize then DecodeLoop(CryptoNeedMore, drain, nonce, out)
    else
      var lenPlain := AeadDecrypt(p.cipher, s[pos .. pos + CHUNK_SIZE_LEN + p.tagSize], NonceBytes(nonce, p.ivSize), subkey);
      if lenPlain.None? then DecodeLoop(CryptoError, drain, nonce, out)
      else
        var len := ReadBE16(lenPlain.value, 0);
        var pos1 := pos + CHUNK_SIZE_LEN + p.tagSize;
        if |s| - pos1 < len + p.tagSize then DecodeLoop(CryptoNeedMore, drain, nonce, out)
        else
          var payload := AeadDecrypt(p.cipher, s[pos1 .. pos1 + len + p.tagSize], NonceBytes(nonce + 1, p.ivSize), subkey);
          if payload.None? then DecodeLoop(CryptoError, drain, nonce + 1, out)
          else
            var pos2 := pos1 + len + p.tagSize;
            if pos2 == |s| then DecodeLoop(CryptoOk, pos2, nonce + 2, out + payload.value)
            else DecodeFrom(p, subkey, s, pos2, pos2, nonce + 2, out + payload.value)
  }

  /** Decoder state: `de_init_`, the decode salt and subkey, the decode
      nonce counter and `decode_cached_` (None is the null pointer). */
  datatype DecoderState = DecoderState(deInit: bool, salt: seq<byte>, subkey: seq<byte>, nonce: nat, cached: Option<seq<byte>>)

  /** A decoder as the constructor leaves it: everything zeroed. */
  function InitialDecoder(p: AeadParams): DecoderState
  {
    DecoderState(false, Zeros(p.keySize), Zeros(p.keySize), 0, None)
  }

  /** The result of one Decrypt call: the new decoder state, the return
      code and the output buffer (None is the null pointer). */
  datatype DecryptOutcome = DecryptOutcome(next: DecoderState, result: CryptoResult, out: Option<seq<byte>>)

  function CachedBytes(st: DecoderState): seq<byte>
  {
    if st.cached.Some? then st.cached.value else []
  }

  /** One Decrypt call on `buf`. */
  function DecryptStep(p: AeadParams, key: seq<byte>, st: DecoderState, buf: seq<byte>): (r: DecryptOutcome)
    requires ValidParams(p)
  {
    var s := CachedBytes(st) + buf;
    if !st.deInit && |s| < p.keySize then DecryptOutcome(st.(cached := None), CryptoError, None)
    else
      var salt := if st.deInit then st.salt else s[..p.keySize];
      var subkey := if st.deInit then st.subkey else Subkey(salt, key, p.keySize);
      var pos := if st.deInit then 0 else p.keySize;
      var loop := DecodeFrom(p, subkey, s, pos, pos, st.nonce, []);
      var nextSt := DecoderState(true, salt, subkey, loop.nonce, None);
      if loop.last == CryptoNeedMore then
        DecryptOutcome(nextSt.(cached := if loop.drain > 0 then Some(s[loop.drain..]) else None),
                       if |loop.out| > 0 then CryptoOk else CryptoNeedMore, Some(loop.out))
      else if loop.last == CryptoError then DecryptOutcome(nextSt, CryptoError, None)
      else DecryptOutcome(nextSt, CryptoOk, Some(loop.out))
  }

  // ----- properties of one call

  /** A first call with fewer than key_size bytes is an error with no
      output, and the decoder stays uninitialised. */
  lemma {:induction false} ShortSaltIsError(p: AeadParams, key: seq<byte>, st: DecoderState, buf: seq<byte>)
    requires ValidParams(p) && !st.deInit && |CachedBytes(st) + buf| < p.keySize
    ensures var r := DecryptStep(p, key, st, buf);
      r.result == CryptoError && r.out == None && !r.next.deInit
  {
  }

  /** Otherwise the first key_size bytes are the salt, and the subkey is
      HKDF of that salt with the 10-byte info. */
  lemma {:induction false} FirstCallTakesSalt(p: AeadParams, key: seq<byte>, st: DecoderState, buf: seq<byte>)
    requires ValidParams(p) && !st.deInit && |CachedBytes(st) + buf| >= p.keySize
    ensures var r := DecryptStep(p, key, st, buf);
      && r.next.deInit
      && r.next.salt == (CachedBytes(st) + buf)[..p.keySize]
      && r.next.subkey == Hkdf(r.next.salt, key, SUBKEY_INFO, p.keySize)
  {
  }

  /** Decrypt never returns a buffer alongside an error, and never a null
      buffer otherwise. */
  lemma {:induction false} ErrorHasNoOutput(p: AeadParams, key: seq<byte>, st: DecoderState, buf: seq<byte>)
    requires ValidParams(p)
    ensures var r := DecryptStep(p, key, st, buf);
      r.result == CryptoError <==> r.out.None?
  {
  }

  /** No frame completes at the head of `s`: fewer bytes than a length
      seal, or a length seal that opens followed by fewer bytes than the
      payload seal it announces. */
  predicate FirstFrameIncomplete(p: AeadParams, subkey: seq<byte>, nonce: nat, s: seq<byte>)
    requires ValidParams(p)
  {
    |s| < CHUNK_SIZE_LEN + p.tagSize
    || (var lenPlain := AeadDecrypt(p.cipher, s[..CHUNK_SIZE_LEN + p.tagSize], NonceBytes(nonce, p.ivSize), subkey);
        && lenPlain.Some? && |lenPlain.value| >= 2
        && |s| - (CHUNK_SIZE_LEN + p.tagSize) < ReadBE16(lenPlain.value, 0) + p.tagSize)
  }

  /** The NEED_MORE gap: once initialised, a call that completes no chunk
      (it holds less than a length seal, or a length seal that opens and
      less than the payload it announces) drops everything it holds, the
      carried bytes and the new ones, instead of keeping it, so the stream
      goes out of step. */
  lemma {:induction false} ShortReadIsDropped(p: AeadParams, key: seq<byte>, st: DecoderState, buf: seq<byte>)
    requires ValidParams(p) && st.deInit
    requires FirstFrameIncomplete(p, st.subkey, st.nonce, CachedBytes(st) + buf)
    ensures var r := DecryptStep(p, key, st, buf);
      && r.result == CryptoNeedMore
      && r.out == Some([])
      && r.next == st.(cached := None)
  {
    var s := CachedBytes(st) + buf;
    if |s| >= CHUNK_SIZE_LEN + p.tagSize {
      assert s[0 .. 0 + CHUNK_SIZE_LEN + p.tagSize] == s[..CHUNK_SIZE_LEN + p.tagSize];
    }
  }

  /** With the xchacha cipher every decryption fails, so any call that gets
      as far as a length chunk is an error. */
  lemma {:induction false} XChachaNeverDecodes(p: AeadParams, key: seq<byte>, st: DecoderState, buf: seq<byte>)
    requires ValidParams(p) && p.cipher == XChacha20IetfPoly1305 && st.deInit
    requires |CachedBytes(st) + buf| >= CHUNK_SIZE_LEN + p.tagSize
    ensures DecryptStep(p, key, st, buf).result == CryptoError
  {
  }

  /** With xchacha, Encrypt's frames are never seals: the length chunk is
      unwritten space although its size is right. */
  lemma {:induction false} XChachaEncryptUnsealed(p: AeadParams, subkey: seq<byte>, nonce: nat, chunk: seq<byte>)
    requires ValidParams(p) && p.cipher == XChacha20IetfPoly1305 && |chunk| < 0x1_0000
    ensures Frame(p, subkey, nonce, chunk)[..CHUNK_SIZE_LEN + p.tagSize] == Unwritten(CHUNK_SIZE_LEN + p.tagSize)
  {
  }

  /** A tag failure is fatal for the whole call: if the first length chunk
      of the held bytes does not authenticate, the call is an error with no
      output. */
  lemma {:induction false} BadLengthTagIsError(p: AeadParams, key: seq<byte>, st: DecoderState, buf: seq<byte>)
    requires ValidParams(p) && st.deInit
    requires var s := CachedBytes(st) + buf;
      |s| >= CHUNK_SIZE_LEN + p.tagSize
      && AeadDecrypt(p.cipher, s[..CHUNK_SIZE_LEN + p.tagSize], NonceBytes(st.nonce, p.ivSize), st.subkey).None?
    ensures var r := DecryptStep(p, key, st, buf);
      r.result == CryptoError && r.out == None
  {
  }

  // ----- decoding what was encoded

  lemma {:induction false} SealChunkIetf(p: AeadParams, subkey: seq<byte>, nonce: nat, m: seq<byte>)
    requires p.cipher == Chacha20IetfPoly1305
    ensures SealChunk(p, subkey, nonce, m) == Seal(subkey, NonceBytes(nonce, p.ivSize), m)
  {
  }

  /** A frame of the IETF cipher is the two seals. */
  lemma {:induction false} FrameIetf(p: AeadParams, subkey: seq<byte>, nonce: nat, c: seq<byte>)
    requires Ietf(p) && |c| < 0x1_0000
    ensures Frame(p, subkey, nonce, c) == Seal(subkey, NonceBytes(nonce, p.ivSize), BE16(|c|)) + Seal(subkey, NonceBytes(nonce + 1, p.ivSize), c)
  {
    assert |c| % 0x1_0000 == |c|;
    SealChunkIetf(p, subkey, nonce, BE16(|c|));
    SealChunkIetf(p, subkey, nonce + 1, c);
  }

  /** The two seals of a whole frame found at `pos`. */
  lemma {:induction false} FrameParts(p: AeadParams, subkey: seq<byte>, nonce: nat, c: seq<byte>, s: seq<byte>, pos: nat)
    requires Ietf(p) && |c| < 0x1_0000
    requires pos + FrameSize(p, c) <= |s| && s[pos .. pos + FrameSize(p, c)] == Frame(p, subkey, nonce, c)
    ensures s[pos .. pos + CHUNK_SIZE_LEN + p.tagSize] == Seal(subkey, NonceBytes(nonce, p.ivSize), BE16(|c|))
    ensures s[pos + CHUNK_SIZE_LEN + p.tagSize .. pos + CHUNK_SIZE_LEN + p.tagSize + |c| + p.tagSize] == Seal(subkey, NonceBytes(nonce + 1, p.ivSize), c)
  {
    var mid := pos + CHUNK_SIZE_LEN + p.tagSize;
    FrameIetf(p, subkey, nonce, c);
    SliceSplit(s, pos, mid, pos + FrameSize(p, c), Seal(subkey, NonceBytes(nonce, p.ivSize), BE16(|c|)), Seal(subkey, NonceBytes(nonce + 1, p.ivSize), c));
    assert pos + FrameSize(p, c) == mid + |c| + p.tagSize;
  }

  /** The length seal at the head of a frame cut short after it. */
  lemma {:induction false} CutFrameLength(p: AeadParams, subkey: seq<byte>, nonce: nat, c: seq<byte>, s: seq<byte>, pos: nat)
    requires Ietf(p) && |c| < 0x1_0000
    requires pos + CHUNK_SIZE_LEN + p.tagSize <= |s| && s[pos..] <= Frame(p, subkey, nonce, c)
    ensures s[pos .. pos + CHUNK_SIZE_LEN + p.tagSize] == Seal(subkey, NonceBytes(nonce, p.ivSize), BE16(|c|))
  {
    FrameIetf(p, subkey, nonce, c);
    PrefixSplit(s, pos, Seal(subkey, NonceBytes(nonce, p.ivSize), BE16(|c|)), Seal(subkey, NonceBytes(nonce + 1, p.ivSize), c));
  }

  /** A seal under the decoder's key and nonce opens to its message. */
  lemma {:induction false} SealOpens(p: AeadParams, subkey: seq<byte>, nonce: nat, m: seq<byte>, c: seq<byte>)
    requires Ietf(p) && c == Seal(subkey, NonceBytes(nonce, p.ivSize), m)
    ensures AeadDecrypt(p.cipher, c, NonceBytes(nonce, p.ivSize), subkey) == Some(m)
  {
    OpenSeal(subkey, NonceBytes(nonce, p.ivSize), m);
  }

  /** Both seals of a whole frame at `pos` open: the length chunk to the
      chunk's length, the payload to the chunk. */
  lemma {:induction false} FrameOpens(p: AeadParams, subkey: seq<byte>, nonce: nat, c: seq<byte>, s: seq<byte>, pos: nat)
    requires Ietf(p) && |c| < 0x1_0000
    requires pos + FrameSize(p, c) <= |s| && s[pos .. pos + FrameSize(p, c)] == Frame(p, subkey, nonce, c)
    ensures var pos1 := pos + CHUNK_SIZE_LEN + p.tagSize;
      && AeadDecrypt(p.cipher, s[pos .. pos1], NonceBytes(nonce, p.ivSize), subkey) == Some(BE16(|c|))
      && ReadBE16(BE16(|c|), 0) == |c|
      && AeadDecrypt(p.cipher, s[pos1 .. pos1 + |c| + p.tagSize], NonceBytes(nonce + 1, p.ivSize), subkey) == Some(c)
  {
    var pos1 := pos + CHUNK_SIZE_LEN + p.tagSize;
    FrameParts(p, subkey, nonce, c, s, pos);
    SealOpens(p, subkey, nonce, BE16(|c|), s[pos .. pos1]);
    SealOpens(p, subkey, nonce + 1, c, s[pos1 .. pos1 + |c| + p.tagSize]);
    BE16Reads(|c|);
  }

  /** One turn of the loop on a frame whose two seals open. */
  lemma {:induction false} DecodeFrameStep(p: AeadParams, subkey: seq<byte>, nonce: nat, c: seq<byte>, s: seq<byte>, pos: nat, pos2: nat, out: seq<byte>, lenPlain: seq<byte>)
    requires ValidParams(p) && |c| < 0x1_0000 && pos2 == pos + FrameSize(p, c) <= |s|
    requires var pos1 := pos + CHUNK_SIZE_LEN + p.tagSize;
      && AeadDecrypt(p.cipher, s[pos .. pos1], NonceBytes(nonce, p.ivSize), subkey) == Some(lenPlain)
      && |lenPlain| >= 2 && ReadBE16(lenPlain, 0) == |c|
      && AeadDecrypt(p.cipher, s[pos1 .. pos1 + |c| + p.tagSize], NonceBytes(nonce + 1, p.ivSize), subkey) == Some(c)
    ensures pos2 == |s| ==> DecodeFrom(p, subkey, s, pos, pos, nonce, out) == DecodeLoop(CryptoOk, pos2, nonce + 2, out + c)
    ensures pos2 < |s| ==> DecodeFrom(p, subkey, s, pos, pos, nonce, out) == DecodeFrom(p, subkey, s, pos2, pos2, nonce + 2, out + c)
  {
  }

  /** A whole frame at `pos`, ending at `pos2`, decodes to its chunk and
      moves on two nonces. */
  lemma {:induction false} DecodeOneFrame(p: AeadParams, subkey: seq<byte>, nonce: nat, c: seq<byte>, s: seq<byte>, pos: nat, pos2: nat, out: seq<byte>)
    requires Ietf(p) && |c| < 0x1_0000
    requires pos2 == pos + FrameSize(p, c) <= |s| && s[pos .. pos2] == Frame(p, subkey, nonce, c)
    ensures pos2 == |s| ==> DecodeFrom(p, subkey, s, pos, pos, nonce, out) == DecodeLoop(CryptoOk, pos2, nonce + 2, out + c)
    ensures pos2 < |s| ==> DecodeFrom(p, subkey, s, pos, pos, nonce, out) == DecodeFrom(p, subkey, s, pos2, pos2, nonce + 2, out + c)
  {
    FrameOpens(p, subkey, nonce, c, s, pos);
    DecodeFrameStep(p, subkey, nonce, c, s, pos, pos2, out, BE16(|c|));
  }

  /** One turn of the loop on a frame cut after its length seal. */
  lemma {:induction false} DecodeCutStep(p: AeadParams, subkey: seq<byte>, nonce: nat, c: seq<byte>, s: seq<byte>, pos: nat, out: seq<byte>)
    requires ValidParams(p) && |c| < 0x1_0000 && pos + CHUNK_SIZE_LEN + p.tagSize <= |s| < pos + FrameSize(p, c)
    requires AeadDecrypt(p.cipher, s[pos .. pos + CHUNK_SIZE_LEN + p.tagSize], NonceBytes(nonce, p.ivSize), subkey) == Some(BE16(|c|))
    requires ReadBE16(BE16(|c|), 0) == |c|
    ensures DecodeFrom(p, subkey, s, pos, pos, nonce, out) == DecodeLoop(CryptoNeedMore, pos, nonce, out)
  {
  }

  /** A frame cut short at the end of the input asks for more and consumes
      nothing. */
  lemma {:induction false} DecodeCutFrame(p: AeadParams, subkey: seq<byte>, nonce: nat, c: seq<byte>, s: seq<byte>, pos: nat, out: seq<byte>)
    requires Ietf(p) && |c| < 0x1_0000
    requires pos <= |s| < pos + FrameSize(p, c) && s[pos..] <= Frame(p, subkey, nonce, c)
    ensures DecodeFrom(p, subkey, s, pos, pos, nonce, out) == DecodeLoop(CryptoNeedMore, pos, nonce, out)
  {
    var pos1 := pos + CHUNK_SIZE_LEN + p.tagSize;
    if pos1 <= |s| {
      CutFrameLength(p, subkey, nonce, c, s, pos);
      SealOpens(p, subkey, nonce, BE16(|c|), s[pos .. pos1]);
      BE16Reads(|c|);
      DecodeCutStep(p, subkey, nonce, c, s, pos, out);
    }
  }

  /** The number of whole frames of `chunks` in the first `avail` bytes. */
  function FullFrames(p: AeadParams, chunks: seq<seq<byte>>, avail: nat): (k: nat)
    ensures k <= |chunks|
    decreases |chunks|
  {
    if chunks == [] then 0
    else if FrameSize(p, chunks[0]) <= avail then 1 + FullFrames(p, chunks[1..], avail - FrameSize(p, chunks[0]))
    else 0
  }

  lemma {:induction false} PrefixCons(p: AeadParams, chunks: seq<seq<byte>>, k: nat)
    requires 0 < k <= |chunks|
    ensures chunks[..k] == [chunks[0]] + chunks[1..][..k - 1]
    ensures FramesLen(p, chunks[..k]) == FrameSize(p, chunks[0]) + FramesLen(p, chunks[1..][..k - 1])
    ensures Flatten(chunks[..k]) == chunks[0] + Flatten(chunks[1..][..k - 1])
  {
    assert chunks[..k] == [chunks[0]] + chunks[1..][..k - 1];
    assert chunks[..k][1..] == chunks[1..][..k - 1];
  }

  lemma {:induction false} FullFramesCons(p: AeadParams, chunks: seq<seq<byte>>, avail: nat, avail2: nat)
    requires chunks != [] && FrameSize(p, chunks[0]) <= avail && avail2 == avail - FrameSize(p, chunks[0])
    ensures FullFrames(p, chunks, avail) == 1 + FullFrames(p, chunks[1..], avail2)
  {
  }

  lemma {:induction false} FullFramesFit(p: AeadParams, chunks: seq<seq<byte>>, avail: nat)
    ensures FramesLen(p, chunks[..FullFrames(p, chunks, avail)]) <= avail
    ensures FullFrames(p, chunks, avail) < |chunks| ==>
              FramesLen(p, chunks[..FullFrames(p, chunks, avail) + 1]) > avail
    decreases |chunks|
  {
    var k := FullFrames(p, chunks, avail);
    if chunks == [] {
      assert chunks[..0] == [];
    } else if FrameSize(p, chunks[0]) <= avail {
      FullFramesFit(p, chunks[1..], avail - FrameSize(p, chunks[0]));
      PrefixCons(p, chunks, k);
      if k < |chunks| {
        PrefixCons(p, chunks, k + 1);
      }
    } else {
      assert chunks[..0] == [];
      PrefixCons(p, chunks, 1);
      assert chunks[1..][..0] == [];
    }
  }

  /** How decoding the bytes from `pos` to `end` of frames of `chunks` ends:
      k whole frames fit, the loop drains them, returns their chunks, moves
      the nonce two per frame, and says OK only when it stopped on the end
      of the input after at least one frame. */
  function PrefixResult(p: AeadParams, chunks: seq<seq<byte>>, end: nat, pos: nat, nonce: nat, out: seq<byte>): (r: DecodeLoop)
    requires pos <= end
  {
    var k := FullFrames(p, chunks, end - pos);
    var d := pos + FramesLen(p, chunks[..k]);
    DecodeLoop(if k > 0 && d == end then CryptoOk else CryptoNeedMore, d, nonce + 2 * k, out + Flatten(chunks[..k]))
  }

  lemma {:induction false} PrefixResultIs(p: AeadParams, chunks: seq<seq<byte>>, end: nat, pos: nat, nonce: nat, n: nat, j: nat, d: nat)
    requires pos <= end
    requires n == end - pos
    requires j == FullFrames(p, chunks, n)
    requires d == pos + FramesLen(p, chunks[..j])
    ensures PrefixResult(p, chunks, end, pos, nonce, [])
         == DecodeLoop(if j > 0 && d == end then CryptoOk else CryptoNeedMore, d, nonce + 2 * j, Flatten(chunks[..j]))
  {
    assert [] + Flatten(chunks[..j]) == Flatten(chunks[..j]);
  }

  /** After one whole frame the result is that of the rest. */
  lemma {:induction false} PrefixResultCons(p: AeadParams, chunks: seq<seq<byte>>, end: nat, pos: nat, pos2: nat, nonce: nat, out: seq<byte>)
    requires chunks != [] && pos2 == pos + FrameSize(p, chunks[0]) <= end
    ensures PrefixResult(p, chunks, end, pos, nonce, out)
         == if pos2 == end then DecodeLoop(CryptoOk, pos2, nonce + 2, out + chunks[0])
            else PrefixResult(p, chunks[1..], end, pos2, nonce + 2, out + chunks[0])
  {
    var c, rest := chunks[0], chunks[1..];
    var k := FullFrames(p, chunks, end - pos);
    var k' := FullFrames(p, rest, end - pos2);
    FullFramesCons(p, chunks, end - pos, end - pos2);
    PrefixCons(p, chunks, k);
    AppendAssoc(out, c, Flatten(rest[..k']));
    if pos2 == end {
      assert k' == 0;
      assert rest[..0] == [];
      assert c + [] == c;
    }
  }

  /** `x` is the frames of `chunks` (nonce counters from `nonce`),
      possibly cut short inside some frame. */
  ghost predicate FramesCut(p: AeadParams, subkey: seq<byte>, nonce: nat, chunks: seq<seq<byte>>, x: seq<byte>)
    decreases |chunks|
  {
    if chunks == [] then x == []
    else if |x| < FrameSize(p, chunks[0]) then x <= Frame(p, subkey, nonce, chunks[0])
    else
      && x[..FrameSize(p, chunks[0])] == Frame(p, subkey, nonce, chunks[0])
      && FramesCut(p, subkey, nonce + 2, chunks[1..], x[FrameSize(p, chunks[0])..])
  }

  /** Bytes that, followed by `rest`, are the frames of `chunks` either end
      inside the first frame or hold it whole, followed by bytes that with
      `rest` are the other frames. */
  lemma {:induction false} PrefixOfEncodingCons(p: AeadParams, subkey: seq<byte>, nonce: nat, chunks: seq<seq<byte>>,
                                                x: seq<byte>, rest: seq<byte>)
    requires ValidParams(p) && chunks != [] && x + rest == EncodeChunks(p, subkey, nonce, chunks)
    ensures |x| < FrameSize(p, chunks[0]) ==> x <= Frame(p, subkey, nonce, chunks[0])
    ensures |x| >= FrameSize(p, chunks[0]) ==>
              && x[..FrameSize(p, chunks[0])] == Frame(p, subkey, nonce, chunks[0])
              && x[FrameSize(p, chunks[0])..] + rest == EncodeChunks(p, subkey, nonce + 2, chunks[1..])
  {
    EncodeChunksCons(p, subkey, nonce, chunks);
    CutOrWhole(x, rest, Frame(p, subkey, nonce, chunks[0]), EncodeChunks(p, subkey, nonce + 2, chunks[1..]), FrameSize(p, chunks[0]));
  }

  /** Bytes that, followed by `rest`, are the frames of `chunks` are a
      `FramesCut`. */
  lemma {:induction false} CutOfEncoding(p: AeadParams, subkey: seq<byte>, nonce: nat, chunks: seq<seq<byte>>,
                                         x: seq<byte>, rest: seq<byte>)
    requires ValidParams(p) && x + rest == EncodeChunks(p, subkey, nonce, chunks)
    ensures FramesCut(p, subkey, nonce, chunks, x)
    decreases |chunks|
  {
    if chunks == [] {
      assert |x + rest| == 0;
    } else {
      PrefixOfEncodingCons(p, subkey, nonce, chunks, x, rest);
      if |x| >= FrameSize(p, chunks[0]) {
        CutOfEncoding(p, subkey, nonce + 2, chunks[1..], x[FrameSize(p, chunks[0])..], rest);
      }
    }
  }

  /** A cut that holds its first frame whole goes on after it. */
  lemma FramesCutTail(p: AeadParams, subkey: seq<byte>, nonce: nat, chunks: seq<seq<byte>>, x: seq<byte>)
    requires chunks != [] && |x| >= FrameSize(p, chunks[0]) && FramesCut(p, subkey, nonce, chunks, x)
    ensures FramesCut(p, subkey, nonce + 2, chunks[1..], x[FrameSize(p, chunks[0])..])
  {
  }

  /** The bytes from `pos` on are the frames of `chunks` (nonce counters
      from `nonce`), possibly cut short inside some frame. */
  ghost predicate FramesPrefix(p: AeadParams, subkey: seq<byte>, nonce: nat, chunks: seq<seq<byte>>, s: seq<byte>, pos: nat)
    requires pos <= |s|
  {
    FramesCut(p, subkey, nonce, chunks, s[pos..])
  }

  /** `FramesPrefix` with no frames, and after its first frame. */
  lemma FramesPrefixEmpty(p: AeadParams, subkey: seq<byte>, nonce: nat, s: seq<byte>, pos: nat)
    requires pos <= |s|
    ensures FramesPrefix(p, subkey, nonce, [], s, pos) <==> pos == |s|
  {
    assert |s[pos..]| == |s| - pos;
  }

  lemma FramesPrefixCons(p: AeadParams, subkey: seq<byte>, nonce: nat, chunks: seq<seq<byte>>, s: seq<byte>, pos: nat)
    requires chunks != [] && pos <= |s|
    ensures FramesPrefix(p, subkey, nonce, chunks, s, pos)
        <==> if |s| - pos < FrameSize(p, chunks[0]) then s[pos..] <= Frame(p, subkey, nonce, chunks[0])
             else s[pos .. pos + FrameSize(p, chunks[0])] == Frame(p, subkey, nonce, chunks[0])
                  && FramesPrefix(p, subkey, nonce + 2, chunks[1..], s, pos + FrameSize(p, chunks[0]))
  {
    if |s| - pos >= FrameSize(p, chunks[0]) {
      DropParts(s, pos, FrameSize(p, chunks[0]));
    }
  }

  /** Bytes that, followed by `rest`, are the frames of `chunks` are a
      `FramesPrefix`. */
  lemma PrefixOfEncoding(p: AeadParams, subkey: seq<byte>, nonce: nat, chunks: seq<seq<byte>>,
                         s: seq<byte>, pos: nat, rest: seq<byte>)
    requires ValidParams(p) && pos <= |s| && s[pos..] + rest == EncodeChunks(p, subkey, nonce, chunks)
    ensures FramesPrefix(p, subkey, nonce, chunks, s, pos)
  {
    CutOfEncoding(p, subkey, nonce, chunks, s[pos..], rest);
  }

  /** Decoding bytes that are a prefix of the frames of `chunks` (from
      `pos` on) consumes exactly the whole frames present, returns their
      chunks in order, advances the nonce by two per frame, and stops with
      OK only when the input ends on a frame boundary after at least one
      frame. */
  lemma {:induction false} DecodePrefix(p: AeadParams, subkey: seq<byte>, nonce: nat, chunks: seq<seq<byte>>,
                                        s: seq<byte>, pos: nat, out: seq<byte>)
    requires Ietf(p) && WellSized(chunks)
    requires pos <= |s| && FramesPrefix(p, subkey, nonce, chunks, s, pos)
    ensures DecodeFrom(p, subkey, s, pos, pos, nonce, out) == PrefixResult(p, chunks, |s|, pos, nonce, out)
    decreases |chunks|
  {
    if chunks == [] {
      DecodePrefixEmpty(p, subkey, nonce, s, out);
    } else {
      var pos2 := pos + FrameSize(p, chunks[0]);
      if pos2 < |s| {
        PrefixRest(p, subkey, nonce, chunks, s, pos, pos2);
        DecodePrefix(p, subkey, nonce + 2, chunks[1..], s, pos2, out + chunks[0]);
      }
      DecodePrefixHead(p, subkey, nonce, chunks, s, pos, pos2, out);
    }
  }

  lemma {:induction false} DecodePrefixEmpty(p: AeadParams, subkey: seq<byte>, nonce: nat, s: seq<byte>, out: seq<byte>)
    requires Ietf(p)
    ensures DecodeFrom(p, subkey, s, |s|, |s|, nonce, out) == PrefixResult(p, [], |s|, |s|, nonce, out)
  {
    var none: seq<seq<byte>> := [];
    assert none[..0] == [];
    assert out + [] == out;
  }

  /** Past a whole first frame that is not the end of the input, the rest
      is again a prefix of frames. */
  lemma {:induction false} PrefixRest(p: AeadParams, subkey: seq<byte>, nonce: nat, chunks: seq<seq<byte>>, s: seq<byte>, pos: nat, pos2: nat)
    requires WellSized(chunks) && chunks != [] && pos2 == pos + FrameSize(p, chunks[0]) < |s|
    requires FramesPrefix(p, subkey, nonce, chunks, s, pos)
    ensures WellSized(chunks[1..]) && FramesPrefix(p, subkey, nonce + 2, chunks[1..], s, pos2)
  {
    WellSizedTail(chunks);
    FramesCutTail(p, subkey, nonce, chunks, s[pos..]);
    DropAt(s, pos, FrameSize(p, chunks[0]), pos2);
  }

  /** The first frame, whole or cut, given the result for the rest. */
  lemma {:induction false} DecodePrefixHead(p: AeadParams, subkey: seq<byte>, nonce: nat, chunks: seq<seq<byte>>,
                         s: seq<byte>, pos: nat, pos2: nat, out: seq<byte>)
    requires Ietf(p) && WellSized(chunks) && chunks != [] && pos <= |s| && pos2 == pos + FrameSize(p, chunks[0])
    requires FramesPrefix(p, subkey, nonce, chunks, s, pos)
    requires pos2 < |s| ==>
      DecodeFrom(p, subkey, s, pos2, pos2, nonce + 2, out + chunks[0]) == PrefixResult(p, chunks[1..], |s|, pos2, nonce + 2, out + chunks[0])
    ensures DecodeFrom(p, subkey, s, pos, pos, nonce, out) == PrefixResult(p, chunks, |s|, pos, nonce, out)
  {
    if |s| < pos2 {
      DecodePrefixCut(p, subkey, nonce, chunks, s, pos, out);
    } else {
      DecodePrefixFrame(p, subkey, nonce, chunks, s, pos, pos2, out);
    }
  }

  /** A whole first frame: decoding goes on as for the rest. */
  lemma {:induction false} DecodePrefixFrame(p: AeadParams, subkey: seq<byte>, nonce: nat, chunks: seq<seq<byte>>,
                          s: seq<byte>, pos: nat, pos2: nat, out: seq<byte>)
    requires Ietf(p) && WellSized(chunks) && chunks != []
    requires pos2 == pos + FrameSize(p, chunks[0]) <= |s| && FramesPrefix(p, subkey, nonce, chunks, s, pos)
    requires pos2 != |s| ==>
      DecodeFrom(p, subkey, s, pos2, pos2, nonce + 2, out + chunks[0]) == PrefixResult(p, chunks[1..], |s|, pos2, nonce + 2, out + chunks[0])
    ensures DecodeFrom(p, subkey, s, pos, pos, nonce, out) == PrefixResult(p, chunks, |s|, pos, nonce, out)
  {
    var c := chunks[0];
    var here := DecodeFrom(p, subkey, s, pos, pos, nonce, out);
    var want := PrefixResult(p, chunks, |s|, pos, nonce, out);
    if pos2 == |s| {
      var done := DecodeLoop(CryptoOk, pos2, nonce + 2, out + c);
      assert here == done by { DecodeOneFrame(p, subkey, nonce, c, s, pos, pos2, out); }
      assert want == done by { PrefixResultCons(p, chunks, |s|, pos, pos2, nonce, out); }
    } else {
      var next := DecodeFrom(p, subkey, s, pos2, pos2, nonce + 2, out + c);
      assert here == next by { DecodeOneFrame(p, subkey, nonce, c, s, pos, pos2, out); }
      assert want == PrefixResult(p, chunks[1..], |s|, pos2, nonce + 2, out + c) by {
        PrefixResultCons(p, chunks, |s|, pos, pos2, nonce, out);
      }
    }
  }

  /** A cut first frame: nothing is decoded. */
  lemma {:induction false} DecodePrefixCut(p: AeadParams, subkey: seq<byte>, nonce: nat, chunks: seq<seq<byte>>,
                        s: seq<byte>, pos: nat, out: seq<byte>)
    requires Ietf(p) && WellSized(chunks) && chunks != []
    requires pos <= |s| < pos + FrameSize(p, chunks[0]) && FramesPrefix(p, subkey, nonce, chunks, s, pos)
    ensures DecodeFrom(p, subkey, s, pos, pos, nonce, out) == PrefixResult(p, chunks, |s|, pos, nonce, out)
  {
    DecodeCutFrame(p, subkey, nonce, chunks[0], s, pos, out);
    assert chunks[..0] == [];
    assert out + [] == out;
  }

  lemma {:induction false} FramesLenMonotone(p: AeadParams, chunks: seq<seq<byte>>, i: nat, j: nat)
    requires i <= j <= |chunks|
    ensures FramesLen(p, chunks[..i]) <= FramesLen(p, chunks[..j])
  {
    assert chunks[..j] == chunks[..i] + chunks[i..j];
    FramesLenAppend(p, chunks[..i], chunks[i..j]);
  }

  /** All frames fit in their own length. */
  lemma {:induction false} FullFramesAll(p: AeadParams, chunks: seq<seq<byte>>)
    ensures FullFrames(p, chunks, FramesLen(p, chunks)) == |chunks|
    decreases |chunks|
  {
    if chunks != [] {
      FullFramesAll(p, chunks[1..]);
      FullFramesCons(p, chunks, FramesLen(p, chunks), FramesLen(p, chunks[1..]));
    }
  }

  /** Decoding exactly the frames of non-empty `chunks` returns OK, all of
      the chunks' bytes in order, and the nonce two further per chunk. */
  lemma {:induction false} DecodeEncoded(p: AeadParams, subkey: seq<byte>, nonce: nat, chunks: seq<seq<byte>>, s: seq<byte>, pos: nat, out: seq<byte>)
    requires Ietf(p) && WellSized(chunks) && chunks != []
    requires pos <= |s| && s[pos..] == EncodeChunks(p, subkey, nonce, chunks)
    ensures DecodeFrom(p, subkey, s, pos, pos, nonce, out)
         == DecodeLoop(CryptoOk, |s|, nonce + 2 * |chunks|, out + Flatten(chunks))
  {
    assert s[pos..] + [] == s[pos..];
    PrefixOfEncoding(p, subkey, nonce, chunks, s, pos, []);
    DecodePrefix(p, subkey, nonce, chunks, s, pos, out);
    EncodeChunksLength(p, subkey, nonce, chunks);
    PrefixResultWhole(p, chunks, |s|, pos, nonce, out);
  }

  /** The loop's result when the input from `pos` holds exactly the frames
      of non-empty `chunks`. */
  lemma {:induction false} PrefixResultWhole(p: AeadParams, chunks: seq<seq<byte>>, end: nat, pos: nat, nonce: nat, out: seq<byte>)
    requires chunks != [] && pos + FramesLen(p, chunks) == end
    ensures PrefixResult(p, chunks, end, pos, nonce, out) == DecodeLoop(CryptoOk, end, nonce + 2 * |chunks|, out + Flatten(chunks))
  {
    FullFramesAll(p, chunks);
    assert chunks[..|chunks|] == chunks;
  }

  /** Single-call round trip: a fresh decoder fed a fresh encoder's whole
      output for non-empty data, under the same key, returns OK and exactly
      the data, with its nonce where the encoder's ended. */
  lemma {:induction false} EncryptThenDecrypt(p: AeadParams, key: seq<byte>, salt: seq<byte>, data: seq<byte>)
    requires Ietf(p)
    requires |salt| == p.keySize && |data| > 0
    ensures var subkey := Subkey(salt, key, p.keySize);
      var wire := EncryptOutput(p, salt, subkey, EncoderState(false, 0), data);
      var r := DecryptStep(p, key, InitialDecoder(p), wire);
      && r.result == CryptoOk
      && r.out == Some(data)
      && r.next.nonce == EncryptNext(EncoderState(false, 0), data).nonce
  {
    var subkey := Subkey(salt, key, p.keySize);
    var chunks := Split(data);
    var wire := EncryptOutput(p, salt, subkey, EncoderState(false, 0), data);
    SplitShape(data);
    SplitWellSized(data);
    var enc := EncodeChunks(p, subkey, 0, chunks);
    assert wire == salt + enc;
    assert wire[p.keySize..] == enc;
    assert wire[..p.keySize] == salt;
    assert CachedBytes(InitialDecoder(p)) + wire == wire;
    DecodeEncoded(p, subkey, 0, chunks, wire, p.keySize, []);
    assert [] + Flatten(chunks) == data;
    var loop := DecodeFrom(p, subkey, wire, p.keySize, p.keySize, 0, []);
    assert loop == DecodeLoop(CryptoOk, |wire|, 2 * |chunks|, data);
  }

  // ----- a stream of writes read back in fragments

  /** The chunks of successive writes, in order. */
  function WriteChunks(writes: seq<seq<byte>>): (chunks: seq<seq<byte>>)
    decreases |writes|
  {
    if writes == [] then [] else Split(writes[0]) + WriteChunks(writes[1..])
  }

  lemma {:induction false} WriteChunksShape(writes: seq<seq<byte>>)
    ensures WellSized(WriteChunks(writes))
    ensures Flatten(WriteChunks(writes)) == Flatten(writes)
    decreases |writes|
  {
    if writes != [] {
      WriteChunksShape(writes[1..]);
      SplitWellSized(writes[0]);
      SplitShape(writes[0]);
      WellSizedAppend(Split(writes[0]), WriteChunks(writes[1..]));
      FlattenAppend(Split(writes[0]), WriteChunks(writes[1..]));
    }
  }

  /** The bytes an encoder in state `st` sends for successive Encrypt calls. */
  function EncryptRun(p: AeadParams, salt: seq<byte>, subkey: seq<byte>, st: EncoderState, writes: seq<seq<byte>>): (wire: seq<byte>)
    decreases |writes|
  {
    if writes == [] then []
    else EncryptOutput(p, salt, subkey, st, writes[0]) + EncryptRun(p, salt, subkey, EncryptNext(st, writes[0]), writes[1..])
  }

  /** However the data is divided among Encrypt calls, the stream is the
      salt once and then one frame per chunk with consecutive nonces. */
  lemma {:induction false} EncryptRunStream(p: AeadParams, salt: seq<byte>, subkey: seq<byte>, st: EncoderState, writes: seq<seq<byte>>)
    requires writes != [] || st.enInit
    ensures EncryptRun(p, salt, subkey, st, writes)
         == (if st.enInit then [] else salt) + EncodeChunks(p, subkey, st.nonce, WriteChunks(writes))
    decreases |writes|
  {
    if writes == [] {
      assert EncodeChunks(p, subkey, st.nonce, []) == [];
    } else {
      var w := writes[0];
      var next := EncryptNext(st, w);
      var a, b := Split(w), WriteChunks(writes[1..]);
      if writes[1..] != [] {
        EncryptRunStream(p, salt, subkey, next, writes[1..]);
      } else {
        assert EncodeChunks(p, subkey, next.nonce, b) == [];
      }
      EncodeChunksAppend(p, subkey, st.nonce, a, b, next.nonce);
      var pre := if st.enInit then [] else salt;
      AppendAssoc(pre, EncodeChunks(p, subkey, st.nonce, a), EncodeChunks(p, subkey, next.nonce, b));
    }
  }

  /** One DecryptStep per fragment, stopping at the first error: whether no
      call failed (each returned a buffer, with OK or NEED_MORE), and the
      plaintext returned in order. */
  function DecryptRun(p: AeadParams, key: seq<byte>, st: DecoderState, frags: seq<seq<byte>>): (r: (bool, seq<byte>))
    requires ValidParams(p)
    decreases |frags|
  {
    if frags == [] then (true, [])
    else
      var step := DecryptStep(p, key, st, frags[0]);
      if step.out.None? then (false, [])
      else
        var rest := DecryptRun(p, key, step.next, frags[1..]);
        (rest.0, step.out.value + rest.1)
  }

  /** Where the frame of chunk k - 1 ends in the stream (the salt ends at
      boundary 0). */
  function Boundary(p: AeadParams, chunks: seq<seq<byte>>, k: nat): nat
    requires k <= |chunks|
  {
    p.keySize + FramesLen(p, chunks[..k])
  }

  lemma {:induction false} BoundaryAdd(p: AeadParams, chunks: seq<seq<byte>>, k: nat, j: nat)
    requires k + j <= |chunks|
    ensures Boundary(p, chunks, k + j) == Boundary(p, chunks, k) + FramesLen(p, chunks[k..][..j])
    ensures chunks[k..][..j] == chunks[k .. k + j]
  {
    assert chunks[..k + j] == chunks[..k] + chunks[k..][..j];
    FramesLenAppend(p, chunks[..k], chunks[k..][..j]);
  }

  lemma {:induction false} BoundaryMonotone(p: AeadParams, chunks: seq<seq<byte>>, i: nat, j: nat)
    requires i <= j <= |chunks|
    ensures Boundary(p, chunks, i) <= Boundary(p, chunks, j)
  {
    BoundaryAdd(p, chunks, i, j - i);
  }

  /** Decrypt's outcome given where its loop stops: a NEED_MORE stop keeps
      the undrained bytes when something was drained. */
  lemma {:induction false} StepOutcome(p: AeadParams, key: seq<byte>, st: DecoderState, buf: seq<byte>, s: seq<byte>,
                    salt: seq<byte>, subkey: seq<byte>, pos: nat, loop: DecodeLoop)
    requires ValidParams(p) && s == CachedBytes(st) + buf
    requires st.deInit ==> st.salt == salt && st.subkey == subkey && pos == 0
    requires !st.deInit ==> p.keySize <= |s| && s[..p.keySize] == salt && subkey == Subkey(salt, key, p.keySize) && pos == p.keySize
    requires pos <= |s| && DecodeFrom(p, subkey, s, pos, pos, st.nonce, []) == loop
    ensures DecryptStep(p, key, st, buf).next.deInit
    ensures DecryptStep(p, key, st, buf).next.salt == salt
    ensures DecryptStep(p, key, st, buf).next.subkey == subkey
    ensures DecryptStep(p, key, st, buf).next.nonce == loop.nonce
    ensures loop.last == CryptoError ==> DecryptStep(p, key, st, buf).out == None
    ensures loop.last != CryptoError ==> DecryptStep(p, key, st, buf).out == Some(loop.out)
    ensures loop.last == CryptoNeedMore && loop.drain > 0 ==> CachedBytes(DecryptStep(p, key, st, buf).next) == s[loop.drain..]
    ensures loop.last == CryptoNeedMore && loop.drain == 0 ==> DecryptStep(p, key, st, buf).next.cached == None
    ensures loop.last == CryptoOk ==> CachedBytes(DecryptStep(p, key, st, buf).next) == []
  {
  }

  lemma {:induction false} FullFramesAtLeast(p: AeadParams, chunks: seq<seq<byte>>, avail: nat, m: nat)
    requires m <= |chunks| && FramesLen(p, chunks[..m]) <= avail
    ensures FullFrames(p, chunks, avail) >= m
  {
    var k := FullFrames(p, chunks, avail);
    FullFramesFit(p, chunks, avail);
    if k < m {
      FramesLenMonotone(p, chunks, k + 1, m);
    }
  }

  lemma {:induction false} FramesLenPositive(p: AeadParams, chunks: seq<seq<byte>>)
    requires chunks != []
    ensures FramesLen(p, chunks) > 0
  {
  }

  /** Bytes from `pos` on in `s`, followed by `rest`, that make up the
      frames of `chunks`: they are a prefix of those frames, the j whole
      frames in `s` come first and end at `d`, what is left of `s` after
      them is short of the next frame, and it and `rest` make up the frames
      of the remaining chunks (first nonce counter `nonce2`). */
  lemma {:induction false} Advance(p: AeadParams, subkey: seq<byte>, nonce: nat, chunks: seq<seq<byte>>, s: seq<byte>, pos: nat, rest: seq<byte>,
                n: nat, j: nat, d: nat, nonce2: nat)
    requires ValidParams(p) && pos <= |s|
    requires s[pos..] + rest == EncodeChunks(p, subkey, nonce, chunks)
    requires n == |s| - pos && j == FullFrames(p, chunks, n) && d == pos + FramesLen(p, chunks[..j]) && nonce2 == nonce + 2 * j
    ensures FramesPrefix(p, subkey, nonce, chunks, s, pos)
    ensures d <= |s|
    ensures s[d..] + rest == EncodeChunks(p, subkey, nonce2, chunks[j..])
    ensures j < |chunks| ==> |s| - d < FrameSize(p, chunks[j])
  {
    PrefixOfEncoding(p, subkey, nonce, chunks, s, pos, rest);
    FullFramesLeft(p, chunks, s, pos);
    assert d <= |s| && (j < |chunks| ==> |s| - d < FrameSize(p, chunks[j]));
    AdvanceRest(p, subkey, nonce, chunks, s, pos, rest, j, d, nonce2);
  }

  /** The bytes of `s` from `pos` on hold whole frames up to `d` and then
      less than a frame. */
  lemma {:induction false} FullFramesLeft(p: AeadParams, chunks: seq<seq<byte>>, s: seq<byte>, pos: nat)
    requires pos <= |s|
    ensures var j := FullFrames(p, chunks, |s| - pos);
      var d := pos + FramesLen(p, chunks[..j]);
      && d <= |s|
      && (j < |chunks| ==> |s| - d < FrameSize(p, chunks[j]))
  {
    var j := FullFrames(p, chunks, |s| - pos);
    FullFramesFit(p, chunks, |s| - pos);
    if j < |chunks| {
      NextFrameLen(p, chunks, j);
    }
  }

  /** Past the frames of the first j chunks, the rest of the bytes are the
      frames of the remaining chunks. */
  lemma {:induction false} AdvanceRest(p: AeadParams, subkey: seq<byte>, nonce: nat, chunks: seq<seq<byte>>, s: seq<byte>, pos: nat, rest: seq<byte>,
                    j: nat, d: nat, nonce2: nat)
    requires ValidParams(p) && j <= |chunks| && d == pos + FramesLen(p, chunks[..j]) <= |s| && nonce2 == nonce + 2 * j
    requires s[pos..] + rest == EncodeChunks(p, subkey, nonce, chunks)
    ensures s[d..] + rest == EncodeChunks(p, subkey, nonce2, chunks[j..])
  {
    SuffixRest(p, subkey, nonce, chunks, s[pos..], rest, j, nonce2);
    ShiftDrop(s, pos, FramesLen(p, chunks[..j]), d, rest, EncodeChunks(p, subkey, nonce2, chunks[j..]));
  }

  /** Bytes that, followed by `rest`, are the frames of `chunks`: past the
      frames of the first j chunks, they and `rest` are the other frames. */
  lemma {:induction false} SuffixRest(p: AeadParams, subkey: seq<byte>, nonce: nat, chunks: seq<seq<byte>>, x: seq<byte>, rest: seq<byte>,
                                      j: nat, nonce2: nat)
    requires ValidParams(p) && j <= |chunks| && FramesLen(p, chunks[..j]) <= |x| && nonce2 == nonce + 2 * j
    requires x + rest == EncodeChunks(p, subkey, nonce, chunks)
    ensures x[FramesLen(p, chunks[..j])..] + rest == EncodeChunks(p, subkey, nonce2, chunks[j..])
  {
    var ea, eb := EncodeChunks(p, subkey, nonce, chunks[..j]), EncodeChunks(p, subkey, nonce2, chunks[j..]);
    EncodeChunksSplitAt(p, subkey, nonce, chunks, j, nonce2);
    EncodeChunksLength(p, subkey, nonce, chunks[..j]);
    ConcatTailAt(x, rest, ea, eb, FramesLen(p, chunks[..j]));
  }

  lemma {:induction false} NextFrameLen(p: AeadParams, chunks: seq<seq<byte>>, j: nat)
    requires j < |chunks|
    ensures FramesLen(p, chunks[..j + 1]) == FramesLen(p, chunks[..j]) + FrameSize(p, chunks[j])
  {
    assert chunks[..j + 1] == chunks[..j] + [chunks[j]];
    FramesLenAppend(p, chunks[..j], [chunks[j]]);
    assert [chunks[j]][1..] == [];
  }

  /** A Decrypt call on an initialised decoder whose held bytes and `buf`
      (together `s`) are a prefix of the frames of `chunks` with j > 0
      whole frames, ending at `d`: it returns those frames' chunks, moves
      the nonce two per frame and keeps the bytes after them. */
  lemma {:induction false} StepInStream(p: AeadParams, key: seq<byte>, st: DecoderState, buf: seq<byte>, chunks: seq<seq<byte>>,
                     s: seq<byte>, j: nat, d: nat, nonce2: nat)
    requires Ietf(p) && WellSized(chunks) && st.deInit
    requires s == CachedBytes(st) + buf && j == FullFrames(p, chunks, |s|) && d == FramesLen(p, chunks[..j])
    requires nonce2 == st.nonce + 2 * j
    requires FramesPrefix(p, st.subkey, st.nonce, chunks, s, 0)
    requires j > 0
    ensures DecryptStep(p, key, st, buf).out == Some(Flatten(chunks[..j]))
    ensures DecryptStep(p, key, st, buf).next.deInit
    ensures DecryptStep(p, key, st, buf).next.salt == st.salt
    ensures DecryptStep(p, key, st, buf).next.subkey == st.subkey
    ensures DecryptStep(p, key, st, buf).next.nonce == nonce2
    ensures d <= |s| && CachedBytes(DecryptStep(p, key, st, buf).next) == s[d..]
  {
    var loop := PrefixResult(p, chunks, |s|, 0, st.nonce, []);
    assert DecodeFrom(p, st.subkey, s, 0, 0, st.nonce, []) == loop by {
      DecodePrefix(p, st.subkey, st.nonce, chunks, s, 0, []);
    }
    FramesLenPositive(p, chunks[..j]);
    PrefixResultIs(p, chunks, |s|, 0, st.nonce, |s|, j, d);
    StepOutcome(p, key, st, buf, s, st.salt, st.subkey, 0, loop);
  }

  /** The first Decrypt call, given at least the salt followed by a prefix
      of the frames of `chunks`: it takes the salt, derives the subkey,
      returns the whole frames' chunks (possibly none) and keeps the bytes
      after them. */
  lemma {:induction false} StepInit(p: AeadParams, key: seq<byte>, buf: seq<byte>, chunks: seq<seq<byte>>, j: nat, d: nat)
    requires Ietf(p) && WellSized(chunks) && p.keySize <= |buf|
    requires FramesPrefix(p, Subkey(buf[..p.keySize], key, p.keySize), 0, chunks, buf, p.keySize)
    requires j == FullFrames(p, chunks, |buf| - p.keySize) && d == p.keySize + FramesLen(p, chunks[..j])
    ensures DecryptStep(p, key, InitialDecoder(p), buf).out == Some(Flatten(chunks[..j]))
    ensures DecryptStep(p, key, InitialDecoder(p), buf).next.deInit
    ensures DecryptStep(p, key, InitialDecoder(p), buf).next.subkey == Subkey(buf[..p.keySize], key, p.keySize)
    ensures DecryptStep(p, key, InitialDecoder(p), buf).next.nonce == 2 * j
    ensures d <= |buf| && CachedBytes(DecryptStep(p, key, InitialDecoder(p), buf).next) == buf[d..]
  {
    var salt := buf[..p.keySize];
    var subkey := Subkey(salt, key, p.keySize);
    var loop := PrefixResult(p, chunks, |buf|, p.keySize, 0, []);
    var n := |buf| - p.keySize;
    assert j == FullFrames(p, chunks, n);
    PrefixResultIs(p, chunks, |buf|, p.keySize, 0, n, j, d);
    assert CachedBytes(InitialDecoder(p)) + buf == buf;
    assert DecodeFrom(p, subkey, buf, p.keySize, p.keySize, 0, []) == loop by {
      DecodePrefix(p, subkey, 0, chunks, buf, p.keySize, []);
    }
    StepOutcome(p, key, InitialDecoder(p), buf, buf, salt, subkey, p.keySize, loop);
  }

  /** Each fragment, from stream offset `e` on, brings in the end of at
      least one frame. */
  ghost predicate EachCompletes(p: AeadParams, chunks: seq<seq<byte>>, frags: seq<seq<byte>>, e: nat)
    decreases |frags|
  {
    frags != [] ==>
      && (exists m :: 0 <= m <= |chunks| && e < Boundary(p, chunks, m) <= e + |frags[0]|)
      && EachCompletes(p, chunks, frags[1..], e + |frags[0]|)
  }

  lemma {:induction false} EachCompletesTail(p: AeadParams, chunks: seq<seq<byte>>, frags: seq<seq<byte>>, e: nat, e2: nat)
    requires frags != [] && e2 == e + |frags[0]| && EachCompletes(p, chunks, frags, e)
    ensures exists m :: 0 <= m <= |chunks| && e < Boundary(p, chunks, m) <= e2
    ensures EachCompletes(p, chunks, frags[1..], e2)
  {
  }

  /** A fragment that brings in the end of a frame past boundary k
      completes at least one whole frame from there. */
  lemma {:induction false} Progress(p: AeadParams, chunks: seq<seq<byte>>, k: nat, e: nat, n: nat)
    requires k <= |chunks| && Boundary(p, chunks, k) <= e
    requires exists m :: 0 <= m <= |chunks| && e < Boundary(p, chunks, m) <= e + n
    ensures FullFrames(p, chunks[k..], e + n - Boundary(p, chunks, k)) > 0
  {
    var m :| 0 <= m <= |chunks| && e < Boundary(p, chunks, m) <= e + n;
    if m <= k {
      BoundaryMonotone(p, chunks, m, k);
      assert false;
    }
    BoundaryAdd(p, chunks, k, m - k);
    FullFramesAtLeast(p, chunks[k..], e + n - Boundary(p, chunks, k), m - k);
  }

  lemma {:induction false} BoundaryStep(p: AeadParams, chunks: seq<seq<byte>>, k: nat, j: nat, k2: nat)
    requires k2 == k + j <= |chunks|
    ensures Boundary(p, chunks, k2) == Boundary(p, chunks, k) + FramesLen(p, chunks[k..][..j])
  {
    BoundaryAdd(p, chunks, k, j);
  }

  lemma {:induction false} EncodeFrom(p: AeadParams, subkey: seq<byte>, chunks: seq<seq<byte>>, k: nat, j: nat, k2: nat, nonce: nat)
    requires k2 == k + j <= |chunks|
    ensures EncodeChunks(p, subkey, nonce, chunks[k..][j..]) == EncodeChunks(p, subkey, nonce, chunks[k2..])
    ensures chunks[k..][j..] == chunks[k2..]
  {
    assert chunks[k..][j..] == chunks[k2..];
  }

  /** The stream bookkeeping of one fragment: the bytes `s` from boundary
      k on hold j > 0 whole frames, and what is left after them is in step
      with the stream at boundary k2 = k + j. */
  lemma {:induction false} SyncStream(p: AeadParams, subkey: seq<byte>, chunks: seq<seq<byte>>, k: nat, e: nat, nonce: nat,
                   s: seq<byte>, n: nat, rest: seq<byte>, j: nat, d: nat, k2: nat, nonce2: nat)
    requires ValidParams(p) && k <= |chunks| && Boundary(p, chunks, k) <= e && Boundary(p, chunks, k) + |s| == e + n
    requires s + rest == EncodeChunks(p, subkey, nonce, chunks[k..])
    requires exists m :: 0 <= m <= |chunks| && e < Boundary(p, chunks, m) <= e + n
    requires j == FullFrames(p, chunks[k..], |s|) && d == FramesLen(p, chunks[k..][..j])
    requires k2 == k + j && nonce2 == nonce + 2 * j
    ensures 0 < j && k2 <= |chunks|
    ensures FramesPrefix(p, subkey, nonce, chunks[k..], s, 0)
    ensures d <= |s|
    ensures Boundary(p, chunks, k2) + (|s| - d) == e + n
    ensures s[d..] + rest == EncodeChunks(p, subkey, nonce2, chunks[k2..])
    ensures k2 < |chunks| ==> |s| - d < FrameSize(p, chunks[k2])
  {
    var rel := chunks[k..];
    assert s[0..] + rest == EncodeChunks(p, subkey, nonce, rel);
    Advance(p, subkey, nonce, rel, s, 0, rest, |s|, j, d, nonce2);
    EncodeFrom(p, subkey, chunks, k, j, k2, nonce2);
    Progress(p, chunks, k, e, n);
    BoundaryStep(p, chunks, k, j, k2);
  }

  /** One Decrypt call in step with the stream at boundary k, on a
      fragment that completes a frame: it returns the chunks of the j whole
      frames, and the decoder is in step at boundary k2 = k + j. */
  lemma {:induction false} SyncStep(p: AeadParams, key: seq<byte>, st: DecoderState, chunks: seq<seq<byte>>,
                 k: nat, e: nat, frag: seq<byte>, rest: seq<byte>, j: nat, k2: nat, nonce2: nat)
    requires Ietf(p) && WellSized(chunks) && k <= |chunks|
    requires st.deInit && Boundary(p, chunks, k) + |CachedBytes(st)| == e
    requires CachedBytes(st) + frag + rest == EncodeChunks(p, st.subkey, st.nonce, chunks[k..])
    requires exists m :: 0 <= m <= |chunks| && e < Boundary(p, chunks, m) <= e + |frag|
    requires j == FullFrames(p, chunks[k..], |CachedBytes(st) + frag|) && k2 == k + j && nonce2 == st.nonce + 2 * j
    ensures 0 < j && k2 <= |chunks|
    ensures DecryptStep(p, key, st, frag).out == Some(Flatten(chunks[k..][..j]))
    ensures DecryptStep(p, key, st, frag).next.deInit
    ensures DecryptStep(p, key, st, frag).next.subkey == st.subkey
    ensures DecryptStep(p, key, st, frag).next.nonce == nonce2
    ensures Boundary(p, chunks, k2) + |CachedBytes(DecryptStep(p, key, st, frag).next)| == e + |frag|
    ensures CachedBytes(DecryptStep(p, key, st, frag).next) + rest == EncodeChunks(p, st.subkey, nonce2, chunks[k2..])
    ensures k2 < |chunks| ==> |CachedBytes(DecryptStep(p, key, st, frag).next)| < FrameSize(p, chunks[k2])
  {
    var s := CachedBytes(st) + frag;
    var d := FramesLen(p, chunks[k..][..j]);
    SyncStream(p, st.subkey, chunks, k, e, st.nonce, s, |frag|, rest, j, d, k2, nonce2);
    WellSizedSlice(chunks, k, |chunks|);
    StepInStream(p, key, st, frag, chunks[k..], s, j, d, nonce2);
  }

  /** DecryptRun over a first call that returns output. */
  lemma {:induction false} RunCons(p: AeadParams, key: seq<byte>, st: DecoderState, frags: seq<seq<byte>>, o: seq<byte>)
    requires ValidParams(p) && frags != [] && DecryptStep(p, key, st, frags[0]).out == Some(o)
    ensures DecryptRun(p, key, st, frags)
         == (DecryptRun(p, key, DecryptStep(p, key, st, frags[0]).next, frags[1..]).0,
             o + DecryptRun(p, key, DecryptStep(p, key, st, frags[0]).next, frags[1..]).1)
  {
  }

  lemma {:induction false} FlattenSplit(chunks: seq<seq<byte>>, k: nat, j: nat, k2: nat)
    requires k2 == k + j <= |chunks|
    ensures Flatten(chunks[k..]) == Flatten(chunks[k..][..j]) + Flatten(chunks[k2..])
  {
    var rel := chunks[k..];
    assert rel == rel[..j] + chunks[k2..];
    FlattenAppend(rel[..j], chunks[k2..]);
  }

  /** The decoder in step with the stream at boundary k: it holds the bytes
      from there to offset `e`, short of the next frame, and they and the
      fragments still to come are the frames of the chunks from k on. */
  ghost predicate InStep(p: AeadParams, st: DecoderState, chunks: seq<seq<byte>>, k: nat, e: nat, frags: seq<seq<byte>>)
  {
    && Ietf(p) && WellSized(chunks) && k <= |chunks|
    && st.deInit && Boundary(p, chunks, k) + |CachedBytes(st)| == e
    && CachedBytes(st) + Flatten(frags) == EncodeChunks(p, st.subkey, st.nonce, chunks[k..])
    && (k < |chunks| ==> |CachedBytes(st)| < FrameSize(p, chunks[k]))
    && EachCompletes(p, chunks, frags, e)
  }

  /** One call of a run in step returns the chunks from k up to some k2,
      and leaves the decoder in step at k2 for the remaining fragments. */
  lemma {:induction false} StepKeepsInStep(p: AeadParams, key: seq<byte>, st: DecoderState, chunks: seq<seq<byte>>,
                                           k: nat, e: nat, frags: seq<seq<byte>>)
    returns (k2: nat, e2: nat)
    requires frags != [] && InStep(p, st, chunks, k, e, frags)
    ensures k <= k2 <= |chunks|
    ensures DecryptStep(p, key, st, frags[0]).out == Some(Flatten(chunks[k..][..k2 - k]))
    ensures InStep(p, DecryptStep(p, key, st, frags[0]).next, chunks, k2, e2, frags[1..])
  {
    var frag, rest := frags[0], Flatten(frags[1..]);
    assert Flatten(frags) == frag + rest;
    AppendAssoc(CachedBytes(st), frag, rest);
    var j := FullFrames(p, chunks[k..], |CachedBytes(st) + frag|);
    var nonce2: nat;
    k2, nonce2, e2 := k + j, st.nonce + 2 * j, e + |frag|;
    assert k2 - k == j;
    EachCompletesTail(p, chunks, frags, e, e2);
    SyncStep(p, key, st, chunks, k, e, frag, rest, j, k2, nonce2);
  }

  /** One call of a run in step: it returns the chunks from k up to some
      k2, and the decoder is in step at k2 for the remaining fragments. */
  lemma {:induction false} RunStep(p: AeadParams, key: seq<byte>, st: DecoderState, chunks: seq<seq<byte>>,
                                   k: nat, e: nat, frags: seq<seq<byte>>)
    returns (next: DecoderState, k2: nat, e2: nat, o: seq<byte>)
    requires frags != [] && InStep(p, st, chunks, k, e, frags)
    ensures InStep(p, next, chunks, k2, e2, frags[1..])
    ensures DecryptRun(p, key, st, frags) == (DecryptRun(p, key, next, frags[1..]).0, o + DecryptRun(p, key, next, frags[1..]).1)
    ensures Flatten(chunks[k..]) == o + Flatten(chunks[k2..])
  {
    k2, e2 := StepKeepsInStep(p, key, st, chunks, k, e, frags);
    next := DecryptStep(p, key, st, frags[0]).next;
    o := Flatten(chunks[k..][..k2 - k]);
    RunCons(p, key, st, frags, o);
    FlattenSplit(chunks, k, k2 - k, k2);
  }

  /** A run in step with no fragments left is at the end of the chunks. */
  lemma {:induction false} RunEnd(p: AeadParams, st: DecoderState, chunks: seq<seq<byte>>, k: nat, e: nat)
    requires InStep(p, st, chunks, k, e, [])
    ensures chunks[k..] == []
  {
    if k < |chunks| {
      assert false;
    }
  }

  /** Every call of a run in step succeeds and, over all calls, the run
      returns the chunks from k on. */
  lemma {:induction false} DecryptRunFrom(p: AeadParams, key: seq<byte>, st: DecoderState, chunks: seq<seq<byte>>,
                                          k: nat, e: nat, frags: seq<seq<byte>>)
    requires InStep(p, st, chunks, k, e, frags)
    ensures DecryptRun(p, key, st, frags) == (true, Flatten(chunks[k..]))
    decreases |frags|
  {
    if frags == [] {
      RunEnd(p, st, chunks, k, e);
    } else {
      var next, k2, e2, o := RunStep(p, key, st, chunks, k, e, frags);
      DecryptRunFrom(p, key, next, chunks, k2, e2, frags[1..]);
    }
  }

  /** The first Decrypt call of a run over a fresh encoder's stream: it
      returns the chunks of the whole frames it holds, and leaves the
      decoder in step with the stream for the remaining fragments. */
  lemma {:induction false} RunStart(p: AeadParams, key: seq<byte>, salt: seq<byte>, writes: seq<seq<byte>>, frags: seq<seq<byte>>)
    returns (j: nat)
    requires Ietf(p) && |salt| == p.keySize
    requires writes != [] && frags != []
    requires Flatten(frags) == EncryptRun(p, salt, Subkey(salt, key, p.keySize), EncoderState(false, 0), writes)
    requires |frags[0]| >= p.keySize
    requires EachCompletes(p, WriteChunks(writes), frags[1..], |frags[0]|)
    ensures j <= |WriteChunks(writes)|
    ensures DecryptStep(p, key, InitialDecoder(p), frags[0]).out == Some(Flatten(WriteChunks(writes)[..j]))
    ensures InStep(p, DecryptStep(p, key, InitialDecoder(p), frags[0]).next, WriteChunks(writes), j, |frags[0]|, frags[1..])
  {
    var subkey := Subkey(salt, key, p.keySize);
    var chunks := WriteChunks(writes);
    var f0, rest := frags[0], Flatten(frags[1..]);
    StartFragment(p, salt, subkey, writes, frags);
    WriteChunksShape(writes);
    var n := |f0| - p.keySize;
    j := FullFrames(p, chunks, n);
    var d := p.keySize + FramesLen(p, chunks[..j]);
    Advance(p, subkey, 0, chunks, f0, p.keySize, rest, n, j, d, 2 * j);
    assert Subkey(f0[..p.keySize], key, p.keySize) == subkey;
    StepInit(p, key, f0, chunks, j, d);
    var next := DecryptStep(p, key, InitialDecoder(p), f0).next;
    assert Boundary(p, chunks, j) + |CachedBytes(next)| == |f0|;
    assert CachedBytes(next) + rest == EncodeChunks(p, next.subkey, next.nonce, chunks[j..]);
  }

  /** A first fragment holding the whole salt: the salt, then bytes that
      with the later fragments are the frames of the writes' chunks. */
  lemma {:induction false} StartFragment(p: AeadParams, salt: seq<byte>, subkey: seq<byte>, writes: seq<seq<byte>>, frags: seq<seq<byte>>)
    requires |salt| == p.keySize && writes != [] && frags != [] && |frags[0]| >= p.keySize
    requires Flatten(frags) == EncryptRun(p, salt, subkey, EncoderState(false, 0), writes)
    ensures frags[0][..p.keySize] == salt
    ensures frags[0][p.keySize..] + Flatten(frags[1..]) == EncodeChunks(p, subkey, 0, WriteChunks(writes))
  {
    var f0, rest := frags[0], Flatten(frags[1..]);
    var enc := EncodeChunks(p, subkey, 0, WriteChunks(writes));
    EncryptRunStream(p, salt, subkey, EncoderState(false, 0), writes);
    assert f0 + rest == salt + enc;
    ConcatHeadAt(f0, rest, salt, enc, p.keySize);
    ConcatTailAt(f0, rest, salt, enc, p.keySize);
  }

  /** Stream round trip: whatever the sizes of the writes, a fresh decoder
      fed a fresh encoder's stream in fragments fails on no call (each
      returns a buffer; a call may still say NEED_MORE, such as a first
      fragment holding only the salt) and returns, over all calls, exactly
      the written bytes in order, provided the
      first fragment holds the whole salt and every later fragment brings
      in the end of at least one frame. */
  lemma {:induction false} FragmentedRoundTrip(p: AeadParams, key: seq<byte>, salt: seq<byte>, writes: seq<seq<byte>>, frags: seq<seq<byte>>)
    requires Ietf(p) && |salt| == p.keySize
    requires writes != [] && frags != []
    requires Flatten(frags) == EncryptRun(p, salt, Subkey(salt, key, p.keySize), EncoderState(false, 0), writes)
    requires |frags[0]| >= p.keySize
    requires EachCompletes(p, WriteChunks(writes), frags[1..], |frags[0]|)
    ensures DecryptRun(p, key, InitialDecoder(p), frags) == (true, Flatten(writes))
  {
    var chunks := WriteChunks(writes);
    var j := RunStart(p, key, salt, writes, frags);
    var next := DecryptStep(p, key, InitialDecoder(p), frags[0]).next;
    DecryptRunFrom(p, key, next, chunks, j, |frags[0]|, frags[1..]);
    RunCons(p, key, InitialDecoder(p), frags, Flatten(chunks[..j]));
    FlattenSplitAt(chunks, j);
    WriteChunksShape(writes);
  }
}
