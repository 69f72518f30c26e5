/** Key material of src/share/crypto.cc: the result codes every codec
    returns, the cipher table, the MD5-chained password-to-key derivation
    (`HKEY_MD5`) and HKDF with HMAC-SHA1 (`HKDF_SHA1`, sections 2.2 and 2.3
    of RFC 5869). */
module KeyMaterial {
  import opened Bytes
  import opened Primitives

  /** CRYPTO_ERROR, CRYPTO_OK and CRYPTO_NEED_NORE. */
  datatype CryptoResult = CryptoError | CryptoOk | CryptoNeedMore

  /** One row of a cipher table: name, cipher, key/IV/tag sizes. */
  datatype CipherInfo = CipherInfo(name: string, cipher: Cipher, keySize: nat, ivSize: nat, tagSize: nat)

  /** `supported_ciphers` of crypto.cc. */
  const SupportedCiphers: seq<CipherInfo> := [
    CipherInfo("chacha20", Chacha20, 32, 8, 0),
    CipherInfo("chacha20-ietf", Chacha20Ietf, 32, 12, 0),
    CipherInfo("chacha20-ietf-poly1305", Chacha20IetfPoly1305, 32, 12, 16),
    CipherInfo("xchacha20-ietf-poly1305", XChacha20IetfPoly1305, 32, 24, 16)
  ]

  /** The key and IV buffer sizes of crypto.h. */
  const CIPHER_MAX_KEY_SIZE: nat := 64
  const CIPHER_MAX_IV_SIZE: nat := 32

  /** `CipherKey`: the sizes of a cipher and its key buffer, of which the
      first `keySize` bytes are the key. */
  datatype CipherKey = CipherKey(keySize: nat, ivSize: nat, tagSize: nat, key: seq<byte>)

  /** The linear `strcmp` search of a cipher table: the index of the first
      row named `name`, or nothing when no row has that name. */
  method FindCipher(table: seq<CipherInfo>, name: string) returns (row: Option<nat>)
    ensures row.None? <==> forall i :: 0 <= i < |table| ==> table[i].name != name
    ensures row.Some? ==> row.value < |table| && table[row.value].name == name
    ensures row.Some? ==> forall i :: 0 <= i < row.value ==> table[i].name != name
  {
    row := None;
    var i := 0;
    while i < |table|
      invariant 0 <= i <= |table|
      invariant forall k :: 0 <= k < i ==> table[k].name != name
    {
      if table[i].name == name {
        row := Some(i);
        break;
      }
      i := i + 1;
    }
  }

  /** The table as written: the names are distinct and only the two
      Poly1305 ciphers carry a tag. */
  lemma SupportedCiphersTable()
    ensures forall i, j :: 0 <= i < j < |SupportedCiphers| ==> SupportedCiphers[i].name != SupportedCiphers[j].name
    ensures forall i :: 0 <= i < |SupportedCiphers| ==>
              (SupportedCiphers[i].tagSize > 0 <==> SupportedCiphers[i].cipher in {Chacha20IetfPoly1305, XChacha20IetfPoly1305})
    ensures forall i :: 0 <= i < |SupportedCiphers| ==>
              SupportedCiphers[i].keySize == 32 && SupportedCiphers[i].keySize <= CIPHER_MAX_KEY_SIZE
  {
  }

  // ---------------------------------------------------------------------
  // HKEY_MD5: block 0 is MD5(password), block k is MD5(block k-1 ++ password)

  function Md5Block(password: seq<byte>, k: nat): (b: seq<byte>)
    ensures |b| == MD5_DIGEST_LENGTH
  {
    if k == 0 then Md5(password) else Md5(Md5Block(password, k - 1) + password)
  }

  /** Blocks 0 .. n-1 concatenated. */
  function Md5Chain(password: seq<byte>, n: nat): (s: seq<byte>)
    ensures |s| == MD5_DIGEST_LENGTH * n
  {
    if n == 0 then [] else Md5Chain(password, n - 1) + Md5Block(password, n - 1)
  }

  /** The number of digests needed for `size` key bytes. */
  function BlocksFor(size: nat, width: nat): (n: nat)
    requires width > 0
    ensures n * width >= size
    ensures n > 0 ==> (n - 1) * width < size
  {
    size / width + (if size % width != 0 then 1 else 0)
  }

  /** The key `HKEY_MD5` derives: the MD5 chain truncated to `size` bytes. */
  function DerivedKey(password: seq<byte>, size: nat): (key: seq<byte>)
    ensures |key| == size
  {
    Md5Chain(password, BlocksFor(size, MD5_DIGEST_LENGTH))[..size]
  }

  lemma {:induction false} Md5ChainAt(password: seq<byte>, n: nat, j: nat)
    requires j < MD5_DIGEST_LENGTH * n
    ensures Md5Chain(password, n)[j] == Md5Block(password, j / 16)[j % 16]
  {
    if j < 16 * (n - 1) {
      Md5ChainAt(password, n - 1, j);
    } else {
      assert j / 16 == n - 1 && j % 16 == j - 16 * (n - 1);
    }
  }

  /** Key byte j is byte j mod 16 of digest j / 16. */
  lemma DerivedKeyAt(password: seq<byte>, size: nat, j: nat)
    requires j < size
    ensures DerivedKey(password, size)[j] == Md5Block(password, j / 16)[j % 16]
  {
    Md5ChainAt(password, BlocksFor(size, MD5_DIGEST_LENGTH), j);
  }

  /** A shorter key is a prefix of a longer one: the last digest is only
      truncated, never altered. */
  lemma DerivedKeyPrefix(password: seq<byte>, a: nat, b: nat)
    requires a <= b
    ensures DerivedKey(password, a) == DerivedKey(password, b)[..a]
  {
    forall j | 0 <= j < a
      ensures DerivedKey(password, a)[j] == DerivedKey(password, b)[j]
    {
      DerivedKeyAt(password, a, j);
      DerivedKeyAt(password, b, j);
    }
  }

  /** `Crypto::HKEY_MD5`: writes exactly the first `keySize` bytes of `key`. */
  method HkeyMd5(password: seq<byte>, key: array<byte>, keySize: nat)
    requires keySize <= key.Length
    modifies key
    ensures key[..keySize] == DerivedKey(password, keySize)
    ensures key[keySize..] == old(key[keySize..])
  {
    var j: nat := 0;
    var addmd: nat := 0;
    var mdBuf: seq<byte> := [];
    while j < keySize
      invariant j <= keySize
      invariant j < keySize ==> j == 16 * addmd
      invariant j == keySize ==> addmd == BlocksFor(keySize, 16)
      invariant addmd > 0 ==> mdBuf == Md5Block(password, addmd - 1)
      invariant j < keySize ==> key[..j] == Md5Chain(password, addmd)
      invariant j == keySize ==> key[..j] == Md5Chain(password, addmd)[..j]
      invariant key[keySize..] == old(key[keySize..])
      decreases keySize - j
    {
      mdBuf := Md5((if addmd > 0 then mdBuf else []) + password);
      if addmd == 0 {
        assert [] + password == password;
      }
      assert mdBuf == Md5Block(password, addmd);
      var i := 0;
      while i < 16
        invariant 0 <= i <= 16
        invariant j == 16 * addmd + i
        invariant j <= keySize
        invariant key[..j] == Md5Chain(password, addmd) + mdBuf[..i]
        invariant key[keySize..] == old(key[keySize..])
      {
        if j >= keySize {
          break;
        }
        key[j] := mdBuf[i];
        i, j := i + 1, j + 1;
      }
      assert key[..j] == Md5Chain(password, addmd + 1)[..j];
      addmd := addmd + 1;
    }
  }

  // ---------------------------------------------------------------------
  // HKDF_SHA1

  /** Extract: PRK = HMAC-SHA1(key = salt, message = ikm). */
  function HkdfPrk(salt: seq<byte>, ikm: seq<byte>): (prk: seq<byte>)
    ensures |prk| == SHA_DIGEST_LENGTH
  {
    HmacSha1(salt, ikm)
  }

  /** Expand block T(i), i >= 1: HMAC(PRK, T(i-1) ++ info ++ the byte i),
      where T(0) is empty and the counter byte is `i` cut to 8 bits. */
  function HkdfBlock(prk: seq<byte>, info: seq<byte>, i: nat): (t: seq<byte>)
    requires i >= 1
    ensures |t| == SHA_DIGEST_LENGTH
  {
    HmacSha1(prk, (if i == 1 then [] else HkdfBlock(prk, info, i - 1)) + info + [(i % 256) as byte])
  }

  /** T(1) ++ ... ++ T(n). */
  function HkdfStream(prk: seq<byte>, info: seq<byte>, n: nat): (s: seq<byte>)
    ensures |s| == SHA_DIGEST_LENGTH * n
  {
    if n == 0 then [] else HkdfStream(prk, info, n - 1) + HkdfBlock(prk, info, n)
  }

  /** The output keying material: the first `okmLen` bytes of T(1) ++ ... ++ T(N)
      with N = ceil(okmLen / 20). */
  function Hkdf(salt: seq<byte>, ikm: seq<byte>, info: seq<byte>, okmLen: nat): (okm: seq<byte>)
    ensures |okm| == okmLen
  {
    HkdfStream(HkdfPrk(salt, ikm), info, BlocksFor(okmLen, SHA_DIGEST_LENGTH))[..okmLen]
  }

  lemma {:induction false} HkdfStreamAt(prk: seq<byte>, info: seq<byte>, n: nat, j: nat)
    requires j < SHA_DIGEST_LENGTH * n
    ensures HkdfStream(prk, info, n)[j] == HkdfBlock(prk, info, j / 20 + 1)[j % 20]
  {
    if j < 20 * (n - 1) {
      HkdfStreamAt(prk, info, n - 1, j);
    } else {
      assert j / 20 == n - 1 && j % 20 == j - 20 * (n - 1);
    }
  }

  /** Output byte j is byte j mod 20 of block T(j / 20 + 1). */
  lemma HkdfAt(salt: seq<byte>, ikm: seq<byte>, info: seq<byte>, okmLen: nat, j: nat)
    requires j < okmLen
    ensures Hkdf(salt, ikm, info, okmLen)[j] == HkdfBlock(HkdfPrk(salt, ikm), info, j / 20 + 1)[j % 20]
  {
    HkdfStreamAt(HkdfPrk(salt, ikm), info, BlocksFor(okmLen, SHA_DIGEST_LENGTH), j);
  }

  /** `memcpy(okm + where, md, count)`: only `okm[where .. where + count]`
      changes. */
  method CopyInto(okm: array<byte>, where: nat, md: seq<byte>, count: nat)
    requires count <= |md| && where + count <= okm.Length
    modifies okm
    ensures okm[..where + count] == old(okm[..where]) + md[..count]
    ensures okm[where + count..] == old(okm[where + count..])
  {
    forall k | 0 <= k < count {
      okm[where + k] := md[k];
    }
  }

  /** `Crypto::HKDF_SHA1`: writes exactly the first `okmLen` bytes of `okm`. */
  method HkdfSha1(salt: seq<byte>, ikm: seq<byte>, info: seq<byte>, okm: array<byte>, okmLen: nat)
    requires okmLen <= okm.Length
    modifies okm
    ensures okm[..okmLen] == Hkdf(salt, ikm, info, okmLen)
    ensures okm[okmLen..] == old(okm[okmLen..])
  {
    var prk := HmacSha1(salt, ikm);
    var n := okmLen / SHA_DIGEST_LENGTH;
    if okmLen % SHA_DIGEST_LENGTH != 0 {
      n := n + 1;
    }
    assert n == BlocksFor(okmLen, SHA_DIGEST_LENGTH);
    var md: seq<byte> := [];
    var i, where := 1, 0;
    while i <= n
      invariant 1 <= i <= n + 1
      invariant where == 20 * (i - 1)
      invariant i > 1 ==> md == HkdfBlock(prk, info, i - 1)
      invariant i <= n ==> okm[..where] == HkdfStream(prk, info, i - 1)
      invariant i == n + 1 ==> okm[..okmLen] == HkdfStream(prk, info, n)[..okmLen]
      invariant okm[okmLen..] == old(okm[okmLen..])
    {
      var c := (i % 256) as byte;
      md := HmacSha1(prk, (if i > 1 then md else []) + info + [c]);
      assert md == HkdfBlock(prk, info, i);
      var count := if i != n then SHA_DIGEST_LENGTH else okmLen - where;
      ghost var before := HkdfStream(prk, info, i - 1);
      CopyInto(okm, where, md, count);
      assert okm[..where + count] == before + md[..count];
      assert HkdfStream(prk, info, i) == before + md;
      if i == n {
        PrefixOfAppend(before, md, okmLen);
      } else {
        assert md[..count] == md;
      }
      where := where + SHA_DIGEST_LENGTH;
      i := i + 1;
    }
  }
}
