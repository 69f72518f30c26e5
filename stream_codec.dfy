/** What the two stream codecs (StreamCrypto of src/share/crypto_stream.cc
    and its legacy twin StreamBasicCrypto of src/share/stream.cc) compute,
    stated by meaning: per direction one keystream, the IV sent once at
    the head of the first output, and byte k of the stream (IV excluded)
    XORed with keystream position k, however the data is divided among
    calls. The classes are proved against these functions; the round trip
    is proved here. */
module StreamCodec {
  import opened Bytes
  import opened Primitives
  import opened KeyMaterial

  /** The dispatch of `crypto_stream_xor_ic` in crypto_stream.cc: the
      keystream of ChaCha20 or of its IETF variant, and none (the failure
      return -1) for any other cipher. */
  function Keystream(cipher: Cipher): (ks: Option<Cipher>)
    ensures ks.Some? <==> cipher == Chacha20 || cipher == Chacha20Ietf
    ensures ks.Some? ==> ks.value == cipher
  {
    if cipher == Chacha20 || cipher == Chacha20Ietf then Some(cipher) else None
  }

  /** `m` XORed with the keystream `ks` from stream position `pos`; output
      space left unwritten when there is no keystream. */
  function Keyed(ks: Option<Cipher>, key: seq<byte>, iv: seq<byte>, pos: nat, m: seq<byte>): (c: seq<byte>)
    ensures |c| == |m|
  {
    if ks.Some? then CipherAt(ks.value, key, iv, pos, m) else Unwritten(|m|)
  }

  /** The codecs start the keystream at the block holding stream position
      `pos` and put `pos % 64` zero bytes before the data; dropping that
      padding from the result is keying the data from `pos`. */
  lemma PaddedKeying(ks: Option<Cipher>, key: seq<byte>, iv: seq<byte>, pos: nat, data: seq<byte>)
    ensures Keyed(ks, key, iv, pos / SODIUM_BLOCK_SIZE * SODIUM_BLOCK_SIZE, Zeros(pos % SODIUM_BLOCK_SIZE) + data)[pos % SODIUM_BLOCK_SIZE..]
         == Keyed(ks, key, iv, pos, data)
  {
    var padding := pos % SODIUM_BLOCK_SIZE;
    var start := pos / SODIUM_BLOCK_SIZE * SODIUM_BLOCK_SIZE;
    KeyedSplit(ks, key, iv, start, Zeros(padding), data);
    assert start + padding == pos;
  }

  /** Encoder state: `en_init_` and `en_bytes_`. */
  datatype StreamEncoder = StreamEncoder(init: bool, bytes: nat)

  /** Decoder state: `de_init_`, `decode_iv` and `de_bytes_`. */
  datatype StreamDecoder = StreamDecoder(init: bool, iv: seq<byte>, bytes: nat)

  /** An encoder or decoder as the constructor leaves it. */
  const FreshEncoder := StreamEncoder(false, 0)

  function FreshDecoder(ivSize: nat): StreamDecoder
  {
    StreamDecoder(false, Zeros(ivSize), 0)
  }

  /** One Encrypt call: the IV on the first call only, then the data keyed
      from the stream position of the bytes already sent. */
  function EncryptOutput(ks: Option<Cipher>, key: seq<byte>, iv: seq<byte>, st: StreamEncoder, data: seq<byte>): (out: seq<byte>)
  {
    (if st.init then [] else iv) + Keyed(ks, key, iv, st.bytes, data)
  }

  function EncryptNext(st: StreamEncoder, data: seq<byte>): StreamEncoder
  {
    StreamEncoder(true, st.bytes + |data|)
  }

  /** The result of one Decrypt call (None is the null output). */
  datatype StreamOutcome = StreamOutcome(next: StreamDecoder, result: CryptoResult, out: Option<seq<byte>>)

  /** One Decrypt call: a first call shorter than the IV is an error that
      leaves the decoder as it was; otherwise the first call takes the IV
      from the head of its input, and the rest is keyed from the stream
      position of the bytes already decoded. */
  function DecryptStep(ks: Option<Cipher>, key: seq<byte>, ivSize: nat, st: StreamDecoder, buf: seq<byte>): StreamOutcome
  {
    if !st.init && |buf| < ivSize then StreamOutcome(st, CryptoError, None)
    else
      var iv := if st.init then st.iv else buf[..ivSize];
      var data := if st.init then buf else buf[ivSize..];
      StreamOutcome(StreamDecoder(true, iv, st.bytes + |data|), CryptoOk, Some(Keyed(ks, key, iv, st.bytes, data)))
  }

  // ----- properties of one call

  /** Output length: the IV size on the first call only, plus exactly the
      input length; the byte count grows by the input length, the IV not
      counted. */
  lemma EncryptLength(ks: Option<Cipher>, key: seq<byte>, iv: seq<byte>, st: StreamEncoder, data: seq<byte>)
    ensures |EncryptOutput(ks, key, iv, st, data)| == (if st.init then 0 else |iv|) + |data|
    ensures EncryptNext(st, data).init && EncryptNext(st, data).bytes == st.bytes + |data|
  {
  }

  /** The IV is emitted exactly once: a first output starts with it, and
      every later call has none. */
  lemma IvOnce(ks: Option<Cipher>, key: seq<byte>, iv: seq<byte>, st: StreamEncoder, a: seq<byte>, b: seq<byte>)
    requires !st.init
    ensures EncryptOutput(ks, key, iv, st, a)[..|iv|] == iv
    ensures |EncryptOutput(ks, key, iv, EncryptNext(st, a), b)| == |b|
  {
  }

  /** Decrypt returns only OK or ERROR, never NEED_MORE; it fails exactly
      on a first call shorter than the IV, and then with a null output and
      the decoder unchanged. */
  lemma DecryptResults(ks: Option<Cipher>, key: seq<byte>, ivSize: nat, st: StreamDecoder, buf: seq<byte>)
    ensures DecryptStep(ks, key, ivSize, st, buf).result != CryptoNeedMore
    ensures DecryptStep(ks, key, ivSize, st, buf).result == CryptoError <==> !st.init && |buf| < ivSize
    ensures DecryptStep(ks, key, ivSize, st, buf).result == CryptoError ==>
              DecryptStep(ks, key, ivSize, st, buf).out.None? && DecryptStep(ks, key, ivSize, st, buf).next == st
  {
  }

  /** On success the output is as long as the payload (the input less the
      IV on the first call), the decoder is initialised, and the byte count
      grows by the payload length. */
  lemma DecryptLength(ks: Option<Cipher>, key: seq<byte>, ivSize: nat, st: StreamDecoder, buf: seq<byte>)
    requires DecryptStep(ks, key, ivSize, st, buf).result == CryptoOk
    ensures DecryptStep(ks, key, ivSize, st, buf).out.Some?
    ensures |DecryptStep(ks, key, ivSize, st, buf).out.value| == |buf| - (if st.init then 0 else ivSize)
    ensures DecryptStep(ks, key, ivSize, st, buf).next.init
    ensures DecryptStep(ks, key, ivSize, st, buf).next.bytes == st.bytes + |DecryptStep(ks, key, ivSize, st, buf).out.value|
  {
  }

  // ----- the stream over many calls

  /** Keying is position-aligned: keying `a + b` from `pos` is keying `a`
      from `pos` and then `b` from `pos + |a|`. */
  lemma KeyedSplit(ks: Option<Cipher>, key: seq<byte>, iv: seq<byte>, pos: nat, a: seq<byte>, b: seq<byte>)
    ensures Keyed(ks, key, iv, pos, a + b) == Keyed(ks, key, iv, pos, a) + Keyed(ks, key, iv, pos + |a|, b)
  {
    if ks.Some? {
      CipherAtSplit(ks.value, key, iv, pos, a, b);
    } else {
      assert Unwritten(|a + b|) == Unwritten(|a|) + Unwritten(|b|);
    }
  }

  /** Keying twice with the same keystream gives the data back. */
  lemma KeyedTwice(c: Cipher, key: seq<byte>, iv: seq<byte>, pos: nat, m: seq<byte>)
    ensures Keyed(Some(c), key, iv, pos, Keyed(Some(c), key, iv, pos, m)) == m
  {
    CipherAtInvolutive(c, key, iv, pos, m);
  }

  /** The bytes an encoder in state `st` sends for successive writes. */
  function EncryptRun(ks: Option<Cipher>, key: seq<byte>, iv: seq<byte>, st: StreamEncoder, writes: seq<seq<byte>>): seq<byte>
    decreases |writes|
  {
    if writes == [] then []
    else EncryptOutput(ks, key, iv, st, writes[0]) + EncryptRun(ks, key, iv, EncryptNext(st, writes[0]), writes[1..])
  }

  /** The encoder state after successive writes. */
  function EncryptRunNext(st: StreamEncoder, writes: seq<seq<byte>>): StreamEncoder
    decreases |writes|
  {
    if writes == [] then st else EncryptRunNext(EncryptNext(st, writes[0]), writes[1..])
  }

  /** However the data is divided among Encrypt calls (at least one), the
      bytes sent are those of one call on all of it, and the encoder ends
      in the same state: output length and keystream alignment do not
      depend on the split. */
  lemma {:induction false} EncryptSplitFree(ks: Option<Cipher>, key: seq<byte>, iv: seq<byte>, st: StreamEncoder, writes: seq<seq<byte>>)
    requires writes != []
    ensures EncryptRun(ks, key, iv, st, writes) == EncryptOutput(ks, key, iv, st, Flatten(writes))
    ensures EncryptRunNext(st, writes) == EncryptNext(st, Flatten(writes))
    decreases |writes|
  {
    var w, rest := writes[0], writes[1..];
    var st1 := EncryptNext(st, w);
    if rest == [] {
      assert Flatten(writes) == w + Flatten(rest);
      assert Flatten(rest) == [];
      assert w + [] == w;
    } else {
      EncryptSplitFree(ks, key, iv, st1, rest);
      EncryptJoin(ks, key, iv, st, w, Flatten(rest));
      assert Flatten(writes) == w + Flatten(rest);
    }
  }

  /** Two Encrypt calls send what one call on both inputs sends, and leave
      the encoder in the same state. */
  lemma EncryptJoin(ks: Option<Cipher>, key: seq<byte>, iv: seq<byte>, st: StreamEncoder, a: seq<byte>, b: seq<byte>)
    ensures EncryptOutput(ks, key, iv, st, a) + EncryptOutput(ks, key, iv, EncryptNext(st, a), b) == EncryptOutput(ks, key, iv, st, a + b)
    ensures EncryptNext(EncryptNext(st, a), b) == EncryptNext(st, a + b)
  {
    var head := if st.init then [] else iv;
    var ka, kb := Keyed(ks, key, iv, st.bytes, a), Keyed(ks, key, iv, st.bytes + |a|, b);
    KeyedSplit(ks, key, iv, st.bytes, a, b);
    JoinAfterHead(head, ka, kb, Keyed(ks, key, iv, st.bytes, a + b));
  }

  /** DecryptStep per fragment, stopping at the first error: the last
      result and all output in order. */
  function DecryptRun(ks: Option<Cipher>, key: seq<byte>, ivSize: nat, st: StreamDecoder, frags: seq<seq<byte>>): (CryptoResult, seq<byte>)
    decreases |frags|
  {
    if frags == [] then (CryptoOk, [])
    else
      var o := DecryptStep(ks, key, ivSize, st, frags[0]);
      if o.result != CryptoOk then (o.result, [])
      else
        var r := DecryptRun(ks, key, ivSize, o.next, frags[1..]);
        (r.0, o.out.value + r.1)
  }

  /** However the received bytes are divided among Decrypt calls, provided
      the first holds at least the IV, every call succeeds and the output
      is that of one call on all of them. */
  lemma {:induction false} DecryptSplitFree(ks: Option<Cipher>, key: seq<byte>, ivSize: nat, st: StreamDecoder, frags: seq<seq<byte>>)
    requires frags != [] && (!st.init ==> |frags[0]| >= ivSize)
    ensures DecryptStep(ks, key, ivSize, st, Flatten(frags)).result == CryptoOk
    ensures DecryptRun(ks, key, ivSize, st, frags) == (CryptoOk, DecryptStep(ks, key, ivSize, st, Flatten(frags)).out.value)
    decreases |frags|
  {
    var f, rest := frags[0], frags[1..];
    assert Flatten(frags) == f + Flatten(rest);
    var o := DecryptStep(ks, key, ivSize, st, f);
    if rest == [] {
      assert Flatten(rest) == [] && f + [] == f;
      assert DecryptRun(ks, key, ivSize, o.next, rest) == (CryptoOk, []);
      assert o.out.value + [] == o.out.value;
    } else {
      DecryptSplitFree(ks, key, ivSize, o.next, rest);
      DecryptJoin(ks, key, ivSize, st, f, Flatten(rest));
    }
  }

  /** Two Decrypt calls, the first holding at least the IV on a fresh
      decoder, succeed and return what one call on both inputs returns. */
  lemma DecryptJoin(ks: Option<Cipher>, key: seq<byte>, ivSize: nat, st: StreamDecoder, a: seq<byte>, b: seq<byte>)
    requires !st.init ==> |a| >= ivSize
    ensures DecryptStep(ks, key, ivSize, st, a).result == CryptoOk
    ensures DecryptStep(ks, key, ivSize, st, a + b).result == CryptoOk
    ensures DecryptStep(ks, key, ivSize, st, a + b).out.value
         == DecryptStep(ks, key, ivSize, st, a).out.value + DecryptStep(ks, key, ivSize, DecryptStep(ks, key, ivSize, st, a).next, b).out.value
  {
    if st.init {
      KeyedSplit(ks, key, st.iv, st.bytes, a, b);
    } else {
      var all := a + b;
      assert all[ivSize..] == a[ivSize..] + b;
      assert all[..ivSize] == a[..ivSize];
      KeyedSplit(ks, key, a[..ivSize], st.bytes, a[ivSize..], b);
    }
  }

  /** Round trip: a fresh decoder with the encoder's keystream and key,
      fed the bytes a fresh encoder sends for any non-empty sequence of
      writes, cut into any fragments of which the first holds at least the
      IV, returns OK and exactly the data written, in order. */
  lemma StreamRoundTrip(c: Cipher, key: seq<byte>, iv: seq<byte>, writes: seq<seq<byte>>, frags: seq<seq<byte>>)
    requires writes != [] && frags != [] && |frags[0]| >= |iv|
    requires Flatten(frags) == EncryptRun(Some(c), key, iv, FreshEncoder, writes)
    ensures DecryptRun(Some(c), key, |iv|, FreshDecoder(|iv|), frags) == (CryptoOk, Flatten(writes))
  {
    EncryptSplitFree(Some(c), key, iv, FreshEncoder, writes);
    DecryptSplitFree(Some(c), key, |iv|, FreshDecoder(|iv|), frags);
    var all := Flatten(frags);
    assert all[..|iv|] == iv && all[|iv|..] == Keyed(Some(c), key, iv, 0, Flatten(writes));
    KeyedTwice(c, key, iv, 0, Flatten(writes));
  }
}
