# weaknet-cpp tunnel core in Dafny

weaknet-cpp is a Shadowsocks-style encrypted TCP tunnel. A local
application talks SOCKS5 or HTTP CONNECT to the local side. The local side
sends a target address header, then the application's bytes, through a
codec to the remote server. The server decodes the header, connects to the
target and relays in both directions. This project models that core and
proves properties of it.

The project is organised one module per source file:

| module (file) | source |
|---|---|
| `Bytes` (bytes.dfy) | bytes, XOR, the `htons`/`ntohs` layout, `sodium_increment` as a little-endian counter |
| `Primitives` (primitives.dfy) | the libsodium/OpenSSL primitives the code calls (stand-ins, see below) |
| `KeyMaterial` (key_material.dfy) | src/share/crypto.cc: result codes, cipher table, `HKEY_MD5`, `HKDF_SHA1` |
| `AeadCodec` (crypto_aead.dfy) | src/share/crypto_aead.cc as functions: chunking, framing, one Encrypt/Decrypt call, the round trips |
| `Aead` (aead_crypto.dfy) | src/share/crypto_aead.cc as the `AeadCrypto` class, its methods proved against `AeadCodec` |
| `StreamCodec` (stream_codec.dfy) | the keystream codec of crypto_stream.cc and stream.cc as functions, and its round trip |
| `CryptoStream` (crypto_stream.dfy) | src/share/crypto_stream.cc: `StreamCrypto`, the static helper buffer, the shared method bodies |
| `LegacyStream` (stream.dfy) | src/share/stream.cc: `StreamBasicCrypto`, `DeriveCipherKey`, `StreamCipher` |
| `Creator` (crypto.dfy) | src/share/crypto.cc: `CryptoCreator::NewInstance`/`NewCrypto`, the `Crypto *` dispatch |
| `Remote` (remote.dfy) | src/server/remote.cc: the header decoder and the `RemoteClient` relay |
| `RemoteLegacy` (remote_legacy.dfy) | src/share/remote.cc: the older relay over `StreamBasicCrypto` |
| `Local` (local.dfy) | src/share/local.cc: SOCKS5 and CONNECT parsing and the `LocalClient` relay |

**Codecs.** The codec classes keep the source's fields as Dafny fields.
Their methods carry the source's loops: Encrypt's chunk loop, Decrypt's
frame loop, and the MD5 and HKDF loops that fill key arrays. Each method is
proved equal to a function of the old state and the input, for example
`AeadCodec.EncryptOutput` and `AeadCodec.DecryptStep`. The properties are
then proved about those functions: lengths, the salt or IV sent once, the
nonce discipline, the carry-over cache, and round trips over any division
of the writes and of the received fragments.

**Relays.** Each relay callback is a pure function on the relay's state
(`Remote.Relay`, `Local.LocalRelay`). In that state:
- each bufferevent is a write log (`seq<byte>`) plus read-enabled flags;
- the pending buffer `target_cached_` is an `Option<seq<byte>>`;
- a ghost log records what the other side must receive exactly once.

The classes `RemoteClient`, `LegacyRemoteClient` and `LocalClient` hold
the same fields. Each handler method is proved to change the state exactly
as its function says. An invariant (`Remote.Inv`, `RemoteLegacy.LegacyInv`,
`Local.LocalInv`) is proved preserved by every callback; it says the
pending buffer and the sent bytes together are exactly the logged bytes.

**Behaviour of the source kept as written:**
- After the salt has been read, an AEAD Decrypt call that completes no
  chunk ends in NEED_MORE with `drain_len == 0`. That happens both when it
  holds less than a length seal and when the length seal opens but the
  payload is incomplete. It then neither caches nor keeps its bytes, so
  they are lost (`AeadCodec.ShortReadIsDropped`, and `AeadCodec.StepOutcome`
  for every NEED_MORE stop with nothing drained).
  Because of this, the fragmented round trip assumes that every later
  fragment completes at least one frame.
- For xchacha20-ietf-poly1305 the AEAD primitive always fails. Encrypt
  ignores that failure and leaves its reserved output unwritten, and
  Decrypt fails on every frame.

## Model

| member | source | states |
|---|---|---|
| Bytes.IncrementIsSuccessor | src/share/crypto_aead.cc:85 | `sodium_increment` of the little-endian nonce of counter c is the nonce of counter c + 1, so a nonce is a counter |
| Bytes.ZeroNonce | src/share/crypto_aead.cc:31 | the zeroed nonce buffer is counter 0 |
| Bytes.BE16Reads | src/share/crypto_aead.cc:152 | `ntohs` reads back the chunk length `htons` wrote |
| Primitives.AeadEncrypt | src/share/crypto_aead.cc:9-17 | only chacha20-ietf-poly1305 seals (the result is the ChaCha20-Poly1305 seal); every other cipher fails |
| Primitives.AeadDecrypt | src/share/crypto_aead.cc:19-27 | only chacha20-ietf-poly1305 opens; every other cipher fails |
| KeyMaterial.FindCipher | src/share/crypto.cc:109-117 | the linear name search: no row iff no row has the name, otherwise the first row with it |
| KeyMaterial.SupportedCiphersTable | src/share/crypto.cc:18-21 | the table's names are distinct; a row has a tag iff its cipher is one of the two AEAD ciphers; every key is 32 bytes and fits the key buffer |
| KeyMaterial.BlocksFor | src/share/crypto.cc:35 | the number of digests for `size` key bytes is the least n with n * width >= size |
| KeyMaterial.HkeyMd5 | src/share/crypto.cc:28-48 | the loop writes exactly the first keySize bytes of the key, as the MD5 chain truncated to keySize, and nothing past them |
| KeyMaterial.DerivedKeyAt | src/share/crypto.cc:43-46 | key byte j is byte j mod 16 of digest j / 16, where digest 0 is MD5(password) and digest k is MD5(digest k-1 ++ password) |
| KeyMaterial.DerivedKeyPrefix | src/share/crypto.cc:35-47 | a shorter key is a prefix of a longer one (the last digest is only truncated) |
| KeyMaterial.HkdfPrk | src/share/crypto.cc:56-60 | the extract step gives a PRK of SHA_DIGEST_LENGTH = 20 bytes, the length the expand loop relies on |
| KeyMaterial.HkdfSha1 | src/share/crypto.cc:50-84 | the expand loop writes exactly the first okmLen bytes of okm, as the first okmLen bytes of T(1) ++ ... ++ T(N), and nothing past them |
| KeyMaterial.HkdfAt | src/share/crypto.cc:62-81 | okm byte j is byte j mod 20 of block T(j / 20 + 1), so the last block is copied only in part |
| AeadCodec.Subkey | src/share/crypto_aead.cc:37-38 | a direction's subkey has keySize bytes |
| AeadCodec.SplitAsWritten | src/share/crypto_aead.cc:53-58 | the chunk count the source computes: floor(n / 16382) plus one for a non-zero remainder |
| AeadCodec.SplitChunk | src/share/crypto_aead.cc:77-93 | chunk i covers bytes [16382 i, min(16382 (i + 1), n)) and is 1 to 16382 bytes long |
| AeadCodec.SplitShape | src/share/crypto_aead.cc:53-58 | n bytes give floor(n / 16382) full chunks, plus a last chunk of n mod 16382 bytes when that is not zero; empty input gives no chunk; the chunks concatenate to the input |
| AeadCodec.AsWrittenDropsLastChunk | src/share/crypto_aead.cc:78 | as written, a positive multiple of 16382 bytes has its last chunk sealed with length 0, so the chunks lose the last 16382 bytes |
| AeadCodec.SealChunk | src/share/crypto_aead.cc:81-90 | one seal adds exactly tag bytes to its message, whether or not the primitive succeeds |
| AeadCodec.Frame | src/share/crypto_aead.cc:80-91 | a chunk's frame is 2 + tag + len + tag bytes long |
| AeadCodec.FramesLenFormula | src/share/crypto_aead.cc:54-57 | the frames of k chunks with p payload bytes in all take (2 + 2 tag) k + p bytes |
| AeadCodec.EncodeChunksSplit | src/share/crypto_aead.cc:77-94 | the frames of chunks split at any index j are those of the first j chunks, then those of the rest under a nonce counter 2j further: two nonces per chunk, in chunk order |
| AeadCodec.EncryptOutputLength | src/share/crypto_aead.cc:53-61 | the output length is key_size on the first call only, plus 2 + tag + len + tag per chunk: the `target_len` the source reserves |
| AeadCodec.SaltSentOnce | src/share/crypto_aead.cc:59-71 | the first output starts with the salt; after it `en_init_` stays true and no output carries the salt again |
| AeadCodec.DecodeFrom | src/share/crypto_aead.cc:138-182 | the decode loop never drains past the input, and ends OK only having drained all of it |
| AeadCodec.ShortSaltIsError | src/share/crypto_aead.cc:115-120 | a first call with fewer than key_size bytes is an error with null output, and `de_init_` stays false |
| AeadCodec.FirstCallTakesSalt | src/share/crypto_aead.cc:122-127 | otherwise the first key_size bytes are the decode salt, and the subkey is HKDF of it with the 10-byte info "ss-subkey\0" |
| AeadCodec.ErrorHasNoOutput | src/share/crypto_aead.cc:184-190 | the output is null exactly when the result is an error |
| AeadCodec.BadLengthTagIsError | src/share/crypto_aead.cc:144-150 | a length seal that fails to open makes the whole call an error with null output |
| AeadCodec.ShortReadIsDropped | src/share/crypto_aead.cc:138-199 | once initialised, a call in which no frame completes (less than a length seal, or a length seal that opens and less than the payload it announces) returns NEED_MORE with an empty buffer and keeps nothing: the carried and new bytes are dropped |
| AeadCodec.XChachaNeverDecodes | src/share/crypto_aead.cc:144-150 | with xchacha, any call that reaches a length seal is an error |
| AeadCodec.XChachaEncryptUnsealed | src/share/crypto_aead.cc:81-84 | with xchacha, Encrypt's length seal is unwritten reserved space of the right size |
| AeadCodec.FrameOpens | src/share/crypto_aead.cc:144-172 | both seals of a whole frame open under its two nonces: the length seal to the chunk length, the payload seal to the chunk |
| AeadCodec.DecodePrefix | src/share/crypto_aead.cc:138-183 | on a prefix of the frames of some chunks, the loop drains exactly the whole frames present, returns their chunks in order and advances the nonce two per frame; it stops with OK only on a frame boundary after at least one frame |
| AeadCodec.DecodeEncoded | src/share/crypto_aead.cc:138-182 | decoding exactly the frames of non-empty chunks returns OK and all of their bytes |
| AeadCodec.StepOutcome | src/share/crypto_aead.cc:184-201 | after a NEED_MORE stop, the undrained bytes are cached when something was drained and nothing is cached when nothing was; after OK nothing is cached; an error returns null |
| AeadCodec.StepInit | src/share/crypto_aead.cc:115-201 | a first call holding the salt and a prefix of frames returns the whole frames' chunks, derives the subkey from the salt, sets the nonce to 2 per frame, and caches the bytes after the frames |
| AeadCodec.StepInStream | src/share/crypto_aead.cc:105-201 | a later call whose cached and new bytes hold j > 0 whole frames returns their chunks, advances the nonce 2j and caches the bytes after them |
| AeadCodec.EncryptThenDecrypt | src/share/crypto_aead.cc:48-201 | a fresh decoder given a fresh encoder's whole output for non-empty data, under the same key, returns OK and exactly that data |
| AeadCodec.EncryptRunStream | src/share/crypto_aead.cc:59-94 | however the data is divided among Encrypt calls, the stream is the salt once and then one frame per chunk under consecutive nonce pairs |
| AeadCodec.FragmentedRoundTrip | src/share/crypto_aead.cc:103-201 | whatever the write sizes, a fresh decoder fed the stream in fragments fails on no call (each returns a buffer, with OK or NEED_MORE) and returns, over all calls, exactly the written bytes in order, when the first fragment holds the salt and every later fragment completes a frame |
| Aead.AeadCrypto.constructor | src/share/crypto_aead.cc:29-39 | the sizes and key_size key bytes are copied; the salt is the random input and its HKDF subkey the encode subkey; nonces and decode side start at zero |
| Aead.AeadCrypto.NextEncodeIv | src/share/crypto_aead.cc:85 | the encode nonce counter goes up by one and nothing else changes |
| Aead.AeadCrypto.NextDecodeIv | src/share/crypto_aead.cc:158 | the decode nonce counter goes up by one and nothing else changes |
| Aead.AeadCrypto.SealFrame | src/share/crypto_aead.cc:80-91 | one loop turn emits the chunk's frame under the current encode nonce and advances it by two |
| Aead.AeadCrypto.Encrypt | src/share/crypto_aead.cc:48-101 | returns OK with exactly `EncryptOutput` of the old encoder; the encoder moves to `EncryptNext`; the decode side is unchanged |
| Aead.AeadCrypto.SealChunks | src/share/crypto_aead.cc:77-94 | the `for` loop emits exactly the frames of the chunks of the input, in order, under consecutive encode nonces, and advances the nonce by two per chunk; nothing else changes |
| Aead.AeadCrypto.InitDecoder | src/share/crypto_aead.cc:122-127 | sets `de_init_`, the decode salt and the subkey derived from it |
| Aead.AeadCrypto.OpenFrames | src/share/crypto_aead.cc:138-182 | the `while` loop stops where `DecodeFrom` says, with the decode nonce advanced as far |
| Aead.AeadCrypto.Decrypt | src/share/crypto_aead.cc:103-202 | the result, output and new decoder state are exactly `DecryptStep` of the old state; the encode side is unchanged |
| StreamCodec.Keystream | src/share/crypto_stream.cc:3-13 | there is a keystream exactly for chacha20 and chacha20-ietf, and it is that cipher's own |
| StreamCodec.PaddedKeying | src/share/crypto_stream.cc:38-59 | keying zero padding of bytes % 64 plus the data from block bytes / 64, then dropping the padding, keys the data from stream position bytes: plaintext byte p meets keystream byte p |
| StreamCodec.EncryptLength | src/share/crypto_stream.cc:63-77 | the output is the IV size on the first call only, plus exactly the data length; `en_bytes_` grows by the data length and the IV is not counted |
| StreamCodec.IvOnce | src/share/crypto_stream.cc:68-71 | the first output starts with the IV; a later output is only the keyed data |
| StreamCodec.DecryptResults | src/share/crypto_stream.cc:90-94 | Decrypt never returns NEED_MORE; it fails exactly on a first call shorter than the IV, with null output, and `de_init_` stays false |
| StreamCodec.DecryptLength | src/share/crypto_stream.cc:96-121 | on success the output is as long as the input less the IV on the first call, and `de_bytes_` grows by that much |
| StreamCodec.KeyedSplit | src/share/crypto_stream.cc:114 | keying a + b from pos is keying a from pos and then b from pos + the length of a |
| StreamCodec.KeyedTwice | src/share/crypto_stream.cc:114 | keying twice from the same position gives the data back |
| StreamCodec.EncryptSplitFree | src/share/crypto_stream.cc:36-81 | however the data is divided among Encrypt calls, the output and final state are those of one call on all of it |
| StreamCodec.DecryptSplitFree | src/share/crypto_stream.cc:83-125 | however the received bytes are divided among Decrypt calls (the first holding the IV), every call succeeds and the outputs are those of one call on all of it |
| StreamCodec.StreamRoundTrip | src/share/crypto_stream.cc:36-125 | a fresh decoder fed a fresh encoder's stream, in any fragments whose first holds the IV, returns OK and exactly the written bytes |
| CryptoStream.HelperBuffer.constructor | src/share/crypto_stream.cc:15 | the shared buffer starts empty |
| CryptoStream.HelperBuffer.GetHelperBuffer | src/share/crypto_stream.cc:28-34 | the buffer holds at least size bytes; a request of at least the current length grows it to size + size / 2 (new bytes zero), a smaller one leaves it alone |
| CryptoStream.HelperBuffer.Stage | src/share/crypto_stream.cc:54-59 | the staged code is padding zero bytes then the data, at the start of the buffer; the rest of the buffer is kept |
| CryptoStream.KeyInto | src/share/crypto_stream.cc:63-65 | keying into reserved space at codePos gives `KeyedSpace` of the padded data |
| CryptoStream.EncryptSplice | src/share/crypto_stream.cc:41-50 | where Encrypt writes the IV and how much it drains: what is left is the IV on the first call only, then the keyed data |
| CryptoStream.KeyPadded | src/share/crypto_stream.cc:52-65 | the shared keying step gives exactly `KeyedSpace` |
| CryptoStream.EncodeStream | src/share/crypto_stream.cc:38-80 | the shared Encrypt body outputs exactly `EncryptOutput` of the encoder state |
| CryptoStream.DecodeStream | src/share/crypto_stream.cc:102-121 | the shared Decrypt keying outputs the data keyed from stream position `de_bytes_` |
| CryptoStream.StreamCrypto.constructor | src/share/crypto_stream.cc:17-24 | the key buffer is zeroed and its first key_size bytes copied; the encode IV is the random input; both directions start fresh |
| CryptoStream.StreamCrypto.Encrypt | src/share/crypto_stream.cc:36-81 | returns OK with exactly `EncryptOutput`; the encoder moves to `EncryptNext`; the decoder is unchanged |
| CryptoStream.StreamCrypto.Decrypt | src/share/crypto_stream.cc:83-125 | the result, output and new decoder are exactly `DecryptStep` of the old decoder; the encoder is unchanged |
| LegacyStream.LegacyTableAgrees | src/share/stream.cc:17-18 | the legacy table is the two stream rows of crypto.cc's table, with distinct names and sizes that fit its buffers |
| LegacyStream.LegacyKeystream | src/share/stream.cc:99-103 | the legacy dispatch always has a keystream: ChaCha20 exactly for CHACHA20, the IETF variant otherwise |
| LegacyStream.LegacyKeystreamAgrees | src/share/stream.cc:99-103 | on its two ciphers the legacy dispatch is crypto_stream.cc's; on the AEAD ciphers it falls back to the IETF variant |
| LegacyStream.LegacyKey | src/share/stream.cc:27-42 | the derived key is the MD5 chain truncated to key_size, in a zeroed 32-byte buffer, with key_size and iv_size recorded |
| LegacyStream.DeriveCipherKey | src/share/stream.cc:20-43 | the nested loops produce exactly `LegacyKey` |
| LegacyStream.StreamBasicCrypto.constructor | src/share/stream.cc:52-59 | all 32 key bytes are copied; the encode IV is the random input; both directions start fresh |
| LegacyStream.StreamBasicCrypto.Encrypt | src/share/stream.cc:71-116 | returns OK with exactly `EncryptOutput` under the legacy keystream; the encoder moves to `EncryptNext` |
| LegacyStream.StreamBasicCrypto.Decrypt | src/share/stream.cc:118-160 | the result, output and new decoder are exactly `DecryptStep` under the legacy keystream |
| LegacyStream.StreamCipher.NewInstance | src/share/stream.cc:168-184 | null iff no legacy row has the name; otherwise the first such row's cipher with `LegacyKey` of the password |
| LegacyStream.StreamCipher.NewCrypto | src/share/stream.cc:166 | a fresh codec over this cipher and key, both directions fresh |
| Creator.CreatorKey | src/share/crypto.cc:121-125 | the key buffer is zeroed, then its first key_size bytes are the MD5-chain key; the sizes come from the row |
| Creator.RowsFit | src/share/crypto.cc:18-21 | every row fits the key and IV buffers; a row has a tag iff it is a valid AEAD configuration, and has no tag iff it has a keystream |
| Creator.CryptoCreator.NewInstance | src/share/crypto.cc:107-127 | null iff no row has the name; otherwise the first such row's cipher with `CreatorKey` of the password |
| Creator.CryptoCreator.NewCrypto | src/share/crypto.cc:90-96 | an AEAD codec iff tag_size > 0, otherwise a stream codec; either is fresh over this cipher and key |
| Remote.WireHeader | src/server/remote.cc:154-179 | a header is type, length byte for a host name, address, big-endian port: at least 4 bytes |
| Remote.DecodeHeader | src/server/remote.cc:147-183 | an accepted header is well formed with a non-zero port, and its size bytes are exactly its wire form |
| Remote.DecodeWireHeader | src/server/remote.cc:147-183 | every well-formed header with a non-zero port is accepted, whatever follows it, and decodes to itself |
| Remote.DecodeHeaderCases | src/server/remote.cc:147-183 | refusal iffs: fewer than 4 bytes; a type other than 1, 3, 4; for each type, acceptance iff address plus port fit and the port is not 0; the fields come from the right offsets |
| Remote.CleanedUp | src/server/remote.cc:66-78 | `Cleanup` ends in TERMINATE and does nothing once terminated |
| Remote.StartedInv | src/server/remote.cc:61-64 | a new relay satisfies the invariant |
| Remote.ClientReadInv | src/server/remote.cc:128-242 | `HandleClientRead` keeps the invariant |
| Remote.ClientEmptyInv | src/server/remote.cc:244-251 | `HandleClientEmpty` keeps the invariant |
| Remote.TargetReadyInv | src/server/remote.cc:255-268 | `HandleTargetReady` keeps the invariant |
| Remote.TargetReadInv | src/server/remote.cc:270-292 | `HandleTargetRead` keeps the invariant |
| Remote.TargetEmptyInv | src/server/remote.cc:294-299 | `HandleTargetEmpty` keeps the invariant |
| Remote.TargetCloseInv | src/server/remote.cc:301-309 | `HandleTargetClose` keeps the invariant |
| Remote.DecryptFailure | src/server/remote.cc:133-142 | NEED_MORE changes nothing; an error terminates |
| Remote.FirstRead | src/server/remote.cc:147-223 | a refused header terminates; an accepted one moves to CONNECT towards its target, with the bytes after it pending only if there are any |
| Remote.ReadWhileConnecting | src/server/remote.cc:224-230 | in CONNECT decoded bytes create or extend the pending buffer and nothing is sent |
| Remote.ReadySendsPendingOnce | src/server/remote.cc:255-268 | target ready: TRANSPORT, the pending bytes sent, nothing pending; a second ready sends nothing more |
| Remote.TransportDeliversPayload | src/server/remote.cc:231-241 | in TRANSPORT the target has been sent exactly every decoded byte after the header, in order |
| Remote.Backpressure | src/server/remote.cc:237-240 | a busy output after a write sets its busy flag and stops reads on the other side; a drain in TRANSPORT clears the flag and restarts them |
| Remote.DrainOnlyInTransport | src/server/remote.cc:244-251 | outside TRANSPORT a drain re-enables no reads; the client drain acts only in FLUSHING |
| Remote.CloseFlushes | src/server/remote.cc:301-309 | target close with an empty client output terminates; otherwise FLUSHING with client reads and read callback off, and the client drain then terminates |
| Remote.CleanupIdempotent | src/server/remote.cc:67 | a second `Cleanup` changes nothing |
| Remote.RemoteClient.constructor | src/server/remote.cc:61-64 | a new client is in the started state with client reads enabled, and valid |
| Remote.RemoteClient.Cleanup | src/server/remote.cc:66-78 | the state becomes `CleanedUp` of the old one |
| Remote.RemoteClient.HandleClientRead | src/server/remote.cc:128-242 | the state becomes `ClientRead` of the old state and the codec's Decrypt result, and stays valid |
| Remote.RemoteClient.Decrypted | src/server/remote.cc:135-242 | after Decrypt, the state becomes `ClientRead` and keeps the invariant |
| Remote.RemoteClient.ReadHeader | src/server/remote.cc:147-223 | the INIT branch gives exactly `Handshake` on the decoded header |
| Remote.RemoteClient.Forward | src/server/remote.cc:224-241 | the CONNECT and TRANSPORT branches give exactly `Relayed` |
| Remote.RemoteClient.HandleClientEmpty | src/server/remote.cc:244-251 | the state becomes `ClientEmpty` of the old one, still valid |
| Remote.RemoteClient.HandleClientClose | src/server/remote.cc:253 | a client close terminates |
| Remote.RemoteClient.HandleTargetReady | src/server/remote.cc:255-268 | the state becomes `TargetReady` of the old one, still valid |
| Remote.RemoteClient.HandleTargetRead | src/server/remote.cc:270-292 | the state becomes `TargetRead` with the codec's Encrypt output, still valid |
| Remote.RemoteClient.Encrypted | src/server/remote.cc:277-291 | after Encrypt, the state becomes `TargetRead` and keeps the invariant |
| Remote.RemoteClient.HandleTargetEmpty | src/server/remote.cc:294-299 | the state becomes `TargetEmpty` of the old one, still valid |
| Remote.RemoteClient.HandleTargetClose | src/server/remote.cc:301-309 | the state becomes `TargetClose` for the client output length, still valid |
| RemoteLegacy.LegacyDecodeHeader | src/share/remote.cc:133-167 | an accepted header is well formed, with a non-zero port and a non-empty address, and its size bytes are its wire form |
| RemoteLegacy.LegacyAgreesWithServer | src/share/remote.cc:133-167 | the legacy decoder accepts exactly what the server's accepts less an empty host name, and decodes it alike |
| RemoteLegacy.EmptyHostName | src/share/remote.cc:158 | the header 3, 0, 0, 80 is accepted by the server and refused by the legacy decoder |
| RemoteLegacy.Terminated | src/share/remote.cc:67-72 | the legacy `Cleanup` has no guard; it always ends in TERMINATE, as the server's does from any live step |
| RemoteLegacy.LegacyClientReadInv | src/share/remote.cc:122-224 | `HandleClientRead` keeps the legacy invariant |
| RemoteLegacy.LegacyFirstRead | src/share/remote.cc:133-208 | the first read terminates iff the server's decoder refuses the header or its host name is empty; otherwise the step is that of the server |
| RemoteLegacy.LegacyBusyThreshold | src/share/remote.cc:219-259 | a side is busy only when more than MAX_OUTPUT = 512 KiB are queued, not at exactly MAX_OUTPUT; then the other side's reads stop |
| RemoteLegacy.LegacyRemoteClient.constructor | src/share/remote.cc:61-65 | a new client is in the started state, valid |
| RemoteLegacy.LegacyRemoteClient.Cleanup | src/share/remote.cc:67-72 | the state becomes `Terminated` of the old one |
| RemoteLegacy.LegacyRemoteClient.HandleClientRead | src/share/remote.cc:122-224 | the state becomes `LegacyClientRead` of the old state, Decrypt's output (null terminates) and the target queue length |
| RemoteLegacy.LegacyRemoteClient.Decrypted | src/share/remote.cc:126-223 | after Decrypt, the state becomes `LegacyClientRead` and keeps the legacy invariant |
| RemoteLegacy.LegacyRemoteClient.ReadHeader | src/share/remote.cc:133-208 | the INIT branch terminates on a refused legacy header, otherwise gives `Handshake` |
| RemoteLegacy.LegacyRemoteClient.Forward | src/share/remote.cc:209-223 | the CONNECT and TRANSPORT branches give exactly `Relayed` |
| RemoteLegacy.LegacyRemoteClient.HandleClientEmpty | src/share/remote.cc:226-232 | the state becomes `ClientEmpty` of the old one, still valid |
| RemoteLegacy.LegacyRemoteClient.HandleClientClose | src/share/remote.cc:89-95 | a client EOF or error terminates |
| RemoteLegacy.LegacyRemoteClient.HandleTargetReady | src/share/remote.cc:234-242 | the state becomes `TargetReady` of the old one, still valid |
| RemoteLegacy.LegacyRemoteClient.HandleTargetRead | src/share/remote.cc:244-260 | the state becomes `LegacyTargetRead` with the codec's output and the client queue length |
| RemoteLegacy.LegacyRemoteClient.Encrypted | src/share/remote.cc:248-259 | after Encrypt, the state becomes `LegacyTargetRead` and keeps the legacy invariant |
| RemoteLegacy.LegacyRemoteClient.HandleTargetEmpty | src/share/remote.cc:262-268 | the state becomes `TargetEmpty` of the old one, still valid |
| RemoteLegacy.LegacyRemoteClient.HandleTargetClose | src/share/remote.cc:112-120 | a target EOF or error terminates at once: there is no flushing |
| Local.RequestLength | src/share/local.cc:225-238 | a required length exists exactly for address types 1, 3 and 4 |
| Local.Socks5RequestIsHeader | src/share/local.cc:244-245 | an accepted SOCKS5 request, from its type on, is a header the server accepts iff its port is not 0, with the request's address and port |
| Local.SpaceFrom | src/share/local.cc:175 | the first space at or after i, or the end |
| Local.ColonBefore | src/share/local.cc:182 | the last colon after lo up to i, or lo when there is none |
| Local.Strlen | src/share/local.cc:191 | `strlen`: the length up to the first NUL |
| Local.SkipSpace | src/share/local.cc:192 | `atoi` skips leading white space: what is left is a suffix not starting with a space |
| Local.ConnectRequest | src/share/local.cc:172-197 | an accepted CONNECT request is longer than 25 bytes and starts "CONNECT "; its host, from offset 8, has at most 127 bytes and no NUL; its port is in 1..65535 |
| Local.ParseConnect | src/share/local.cc:172-197 | the two scanning loops compute exactly `ConnectRequest` |
| Local.AtoiDec | src/share/local.cc:192 | `atoi` reads back the decimal text of a number |
| Local.ConnectRoundTrip | src/share/local.cc:172-197 | a long enough request line with a host of 1 to 127 bytes (no space, no NUL) and a port in 1..65535 parses back to that host and port |
| Local.ConnectHeader | src/share/local.cc:200-208 | the header queued for a CONNECT request is the server's host-name header of that host and port |
| Local.ConnectHeaderAccepted | src/share/local.cc:200-208 | the server accepts that header, whatever follows it, with the same host and port |
| Local.Terminated | src/share/local.cc:77-87 | `Cleanup` ends in TERMINATE |
| Local.Greeting | src/share/local.cc:158-213 | the INIT step leaves both busy flags alone |
| Local.StartedInv | src/share/local.cc:72-75 | a new relay satisfies the invariant |
| Local.ClientReadInv | src/share/local.cc:151-262 | `HandleClientRead` keeps the invariant |
| Local.TargetReadyInv | src/share/local.cc:271-295 | `HandleTargetReady` keeps the invariant |
| Local.TargetReadInv | src/share/local.cc:297-315 | `HandleTargetRead` keeps the invariant |
| Local.ClientEmptyInv | src/share/local.cc:264-269 | `HandleClientEmpty` keeps the invariant |
| Local.TargetEmptyInv | src/share/local.cc:317-322 | `HandleTargetEmpty` keeps the invariant |
| Local.GreetingAnswered | src/share/local.cc:158-171 | a greeting starting with 5 terminates iff shorter than 3 bytes; otherwise WAITHDR with the reply 05 00 queued |
| Local.QueuedHeaderAccepted | src/share/local.cc:200-247 | what is queued for the server is a header it accepts: always for CONNECT, with the requested host and port; for SOCKS5 exactly when the port is not 0 |
| Local.ReadyFlushesPending | src/share/local.cc:271-295 | connected: TRANSPORT; the codec gets the pending bytes once and nothing stays pending; the application gets the 10-byte SOCKS5 reply or the HTTP 200 line; an Encrypt failure terminates |
| Local.TransportForwardsAll | src/share/local.cc:250-261 | in TRANSPORT the codec has been handed exactly the header and every application byte after the handshake, in order |
| Local.DrainOnlyInTransport | src/share/local.cc:264-269 | outside TRANSPORT neither drain re-enables reads |
| Local.TargetBusyNeverSet | src/share/local.cc:151-269 | `target_busy_` starts false and no client-side callback and no cleanup sets it |
| Local.TargetBusyNeverSetByTarget | src/share/local.cc:271-315 | no target-side callback sets `target_busy_` |
| Local.TargetEmptyIdle | src/share/local.cc:317-322 | with `target_busy_` false, `HandleTargetEmpty` changes nothing: it is dead code |
| Local.TargetReadSteps | src/share/local.cc:297-315 | NEED_MORE changes nothing; an error terminates; a busy application output stops target reads, which the drain restarts |
| Local.LocalClient.constructor | src/share/local.cc:72-75 | a new client is in the started state, valid |
| Local.LocalClient.Cleanup | src/share/local.cc:77-87 | the state becomes `Terminated` of the old one |
| Local.LocalClient.ConnectTarget | src/share/local.cc:89-101 | CONNECT, connected, target reads on, the header pending |
| Local.LocalClient.HandleClientRead | src/share/local.cc:151-262 | the state becomes `ClientRead` of the old state and the codec's Encrypt output, still valid |
| Local.LocalClient.Encrypted | src/share/local.cc:250-261 | the TRANSPORT branch after Encrypt: `ClientRead`, keeping the invariant |
| Local.LocalClient.Handshake | src/share/local.cc:158-249 | the INIT, WAITHDR and CONNECT branches: `ClientRead`, keeping the invariant |
| Local.LocalClient.Greet | src/share/local.cc:158-213 | the INIT branch gives exactly `Greeting` |
| Local.LocalClient.HandleClientEmpty | src/share/local.cc:264-269 | the state becomes `ClientEmpty` of the old one, still valid |
| Local.LocalClient.HandleClose | src/share/local.cc:119-148 | an EOF or error on either side terminates |
| Local.LocalClient.HandleTargetReady | src/share/local.cc:271-295 | the state becomes `TargetReady` with the codec's Encrypt output for the pending bytes, still valid |
| Local.LocalClient.Ready | src/share/local.cc:276-294 | after Encrypt, the state becomes `TargetReady` and keeps the invariant |
| Local.LocalClient.Deliver | src/share/local.cc:281-294 | the encoded bytes go to the server, the pending bytes count as sent and the reply is queued |
| Local.LocalClient.HandleTargetRead | src/share/local.cc:297-315 | the state becomes `TargetRead` of the old state and the codec's Decrypt result, still valid |
| Local.LocalClient.Decrypted | src/share/local.cc:300-314 | after Decrypt, the state becomes `TargetRead` and keeps the invariant |
| Local.LocalClient.HandleTargetEmpty | src/share/local.cc:317-322 | the state becomes `TargetEmpty` of the old one, still valid |

## Left out

- Aead.AeadCrypto.SealChunks: the source's loop (src/share/crypto_aead.cc:78) gives the last chunk length `last_chunk_len`. On an input that is a positive multiple of 16382 bytes, that length is 0: the source seals an empty last chunk and leaves the 16382 bytes it committed for that frame unwritten. The model seals a full last chunk instead (see ## Findings).
- Aead.AeadCrypto.Encrypt: on a positive multiple of 16382 bytes, it emits a full last frame where the source emits an empty one followed by 16382 unwritten committed bytes, because it calls the corrected SealChunks.
- AeadCodec.EncryptOutput: it is defined with the corrected `AeadCodec.Split`, so on a positive multiple of 16382 bytes it is not what the source outputs. AeadCodec.AsWrittenDropsLastChunk states the source's behaviour there.
- Cryptographic primitives: MD5, HMAC-SHA1, the ChaCha20 keystream and ChaCha20-Poly1305 are stand-ins in `Primitives`, with simple bodies that compute no real digest or cipher. The digests depend on every input byte. The keystream depends on cipher, key, IV and position. The AEAD tag depends on key, nonce and message length, and the stand-in seal leaves the message bytes unmasked. The proofs about the codecs rest on the module's lemmas (output lengths, a keystream applied twice cancels, opening a seal under its key and nonce, opening only seals), but Dafny can also see the bodies, so a proof may lean on a stand-in's shape. No security property is claimed.
- `randombytes_buf`: the salt and IV it draws are constructor parameters.
- `sodium_init` and `CryptoCreator::Init`: library start-up, no logic.
- Fixed-width integers: counters, `size_t` lengths and the `unsigned short` nonce bytes are unbounded. A nonce is a counter modulo 256^iv_size.
- Widths that are reasoned about explicitly: the 16-bit chunk length and port, and the `addr_len` byte.
- Wrap-around of `en_bytes_`/`de_bytes_` and of the decode length arithmetic is not modelled. The 64-bit byte counters would need more than 2^64 bytes of traffic to wrap.
- The block counter `en_bytes_ / 64` is passed as a 64-bit value at src/share/crypto_stream.cc:65 and :114 and src/share/stream.cc:102 and :150. libsodium's `crypto_stream_chacha20_ietf_xor_ic` takes a 32-bit counter, so for chacha20-ietf the counter is cut to 32 bits after 2^32 blocks (256 GiB of traffic on one direction). The model keeps the unbounded counter. Plain chacha20 takes a 64-bit counter.
- `GetHelperBuffer`: the float `size * 1.5` is taken as `size + size / 2`.
- The static `help_buffer_`, shared by every codec object of a class, is one `HelperBuffer` object passed to each call.
- libevent: evbuffers are sequences and bufferevents are write logs plus read flags. Allocation failure of `evbuffer_new`, `bufferevent_socket_new` and `new` is not modelled; the relays take that branch to be impossible.
- `bufferevent_read_buffer` failures, and `delete this` with the destructors that free buffers: memory management, outside the model.
- Remote.RemoteClient.HandleClientRead: DNS resolution and the connect (`bufferevent_socket_connect_hostname`, the sockaddr built at src/server/remote.cc:196-217) are foreign asynchronous I/O; only the step change and the decoded target are kept.
- Remote.RemoteClient.HandleTargetRead: `bufferevent_output_busy` is not part of this model. Its value after the write is the `busy` parameter. The same holds for the `busy` parameter of Local.LocalClient.HandleTargetRead.
- RemoteLegacy.LegacyRemoteClient.HandleClientRead: the output queue lengths that src/share/remote.cc compares with MAX_OUTPUT are parameters (`targetQueued`, `clientQueued`). Remote.RemoteClient.HandleTargetClose likewise takes the client output length as a parameter.
- RemoteLegacy.LegacyRemoteClient.HandleClientRead: stream.h's pointer API (`crypto_->Decrypt(buf)` returning null on error) is modelled through the same Decrypt as the result-code API, with null as `None`.
- Local.LocalClient.HandleClientRead: it requires the application's first read to be non-empty. The source reads `data[0]` unguarded, and bufferevent never delivers an empty read.
- Remote.RemoteClient.HandleTargetRead: the error branch after Encrypt is kept in Remote.RemoteClient.Encrypted and in the relay functions, but Encrypt always returns OK, so the handler states only that path.
- Startup, OnConnected and the listeners (src/share/proxy_server.cc) are not part of this model; the constructors stand in for construction plus `Startup`.
- The `USE_DEBUG` byte counters and `dump` logging are not modelled.
- SOCKS4 and the absolute-URI proxy path: the code has no such branch. The `ProcessProtocol*` declarations of src/share/local.h have no definitions.
- `PROTOCOL_HTTP`, used by src/share/local.cc, is not in the enum of src/share/local.h; it is `Http` here.
- Local.ConnectRequest: `atoi` is read on exact integers. The source's overflow on a huge digit string is undefined behaviour in C; here such a port is simply out of range.
- Local.ConnectRequest: a host whose first byte is NUL gives `addr_len` 0, and the request is accepted with an empty host, as the source does.
- The password is a C string: src/share/crypto.cc:32 and src/share/stream.cc:24 take its length with `strlen`, so it ends at its first NUL byte. The model takes the password as any byte sequence.
- Remote.RemoteClient.HandleClientRead: for a domain-name target, src/server/remote.cc:198 writes a NUL after the host before the DNS lookup, so a host with an embedded NUL is looked up only up to that byte. The model keeps the whole host, since the lookup is outside the model.
- Local.ConnectRequest: the `> 25` length test refuses short valid requests such as "CONNECT a:80 HTTP/1.1\r\n\r\n", as the source does.

## Findings

| source | as written | input that shows it | evidently intended | confidence | as-written member | corrected member |
|---|---|---|---|---|---|---|
| src/share/crypto_aead.cc:78 | the last chunk has length `last_chunk_len`, which is 0 when the input length is a positive multiple of 16382 | an Encrypt call on 16382 bytes: one chunk sealed with length 0, while 16382 + 2 + 2 tag bytes are committed, so the payload is lost | a zero remainder means the last chunk is a full 16382-byte chunk | high, by reading; not executed | AeadCodec.AsWrittenDropsLastChunk | AeadCodec.SplitShape |

The rest of the model uses the corrected `AeadCodec.Split`, and
the chunk loop `Aead.AeadCrypto.SealChunks` takes the corrected chunk length.

Notes on the code:
- The subkey info is `sizeof("ss-subkey")` = 10 bytes, NUL included.
- The legacy backpressure test is strictly greater than MAX_OUTPUT (512 KiB).
