/** Bytes, the optional value, and the two fixed-width integer encodings the
    tunnel puts on the wire: the big-endian 16-bit field (`htons`/`ntohs`)
    and the little-endian nonce counter that `sodium_increment` advances. */
module Bytes {

  /** An `unsigned char`. */
  newtype byte = x: int | 0 <= x < 256

  datatype Option<+T> = None | Some(value: T)

  function Pow2(n: nat): (r: nat)
    ensures r > 0
  {
    if n == 0 then 1 else 2 * Pow2(n - 1)
  }

  /** Bitwise exclusive or of the low `n` bits of `a` and `b`. */
  function XorBits(a: nat, b: nat, n: nat): (r: nat)
    ensures r < Pow2(n)
  {
    if n == 0 then 0 else (if a % 2 == b % 2 then 0 else 1) + 2 * XorBits(a / 2, b / 2, n - 1)
  }

  /** Bitwise exclusive or of two bytes, as a stream cipher combines
      plaintext and keystream. */
  function Xor(a: byte, b: byte): byte
  {
    XorBits(a as nat, b as nat, 8) as byte
  }

  /** XOR with the same bits twice is the identity. */
  lemma {:induction false} XorBitsCancels(a: nat, b: nat, n: nat)
    requires a < Pow2(n)
    ensures XorBits(XorBits(a, b, n), b, n) == a
  {
    if n > 0 {
      var c := XorBits(a, b, n);
      var low := XorBits(a / 2, b / 2, n - 1);
      assert c % 2 == (if a % 2 == b % 2 then 0 else 1) && c / 2 == low;
      XorBitsCancels(a / 2, b / 2, n - 1);
    }
  }

  lemma XorCancels(a: byte, b: byte)
    ensures Xor(Xor(a, b), b) == a
  {
    assert Pow2(8) == 256;
    XorBitsCancels(a as nat, b as nat, 8);
  }

  function Zeros(n: nat): (z: seq<byte>)
    ensures |z| == n
  {
    seq(n, i => 0)
  }

  /** `htons(v)` laid out in memory: high byte first. */
  function BE16(v: nat): (r: seq<byte>)
    requires v < 0x1_0000
    ensures |r| == 2
  {
    [(v / 256) as byte, (v % 256) as byte]
  }

  /** `ntohs` of the two bytes at `at`. */
  function ReadBE16(s: seq<byte>, at: nat): (v: nat)
    requires at + 2 <= |s|
    ensures v < 0x1_0000
  {
    s[at] as nat * 256 + s[at + 1] as nat
  }

  lemma ReadBE16OfBE16(v: nat, pre: seq<byte>, post: seq<byte>)
    requires v < 0x1_0000
    ensures ReadBE16(pre + BE16(v) + post, |pre|) == v
  {
    var s := pre + BE16(v) + post;
    assert s[|pre|] == (v / 256) as byte && s[|pre| + 1] == (v % 256) as byte;
  }

  /** Read and written back, two bytes are themselves. */
  lemma BE16OfRead(s: seq<byte>, at: nat)
    requires at + 2 <= |s|
    ensures BE16(ReadBE16(s, at)) == s[at .. at + 2]
  {
    var hi, lo := s[at] as nat, s[at + 1] as nat;
    assert (hi * 256 + lo) / 256 == hi && (hi * 256 + lo) % 256 == lo;
  }

  lemma BE16Reads(v: nat)
    requires v < 0x1_0000
    ensures ReadBE16(BE16(v), 0) == v
  {
    ReadBE16OfBE16(v, [], []);
    assert [] + BE16(v) + [] == BE16(v);
  }

  /** The `n`-byte little-endian representation of the counter `c`
      (so `c` is taken modulo 256^n, as a fixed-size nonce wraps). */
  function NonceBytes(c: nat, n: nat): (r: seq<byte>)
    ensures |r| == n
  {
    if n == 0 then [] else [(c % 256) as byte] + NonceBytes(c / 256, n - 1)
  }

  /** `sodium_increment`: add one to a little-endian number, carrying from
      the first byte upwards and wrapping at the top. */
  function Increment(s: seq<byte>): (r: seq<byte>)
    ensures |r| == |s|
  {
    if s == [] then []
    else if s[0] == 255 then [0 as byte] + Increment(s[1..])
    else [s[0] + 1] + s[1..]
  }

  /** Incrementing the nonce bytes of counter `c` gives the nonce bytes of
      `c + 1`, wrap-around included: so a nonce is fully described by how
      many times it has been incremented since it was zero. */
  lemma {:induction false} IncrementIsSuccessor(c: nat, n: nat)
    ensures Increment(NonceBytes(c, n)) == NonceBytes(c + 1, n)
  {
    if n > 0 {
      var s := NonceBytes(c, n);
      assert s[1..] == NonceBytes(c / 256, n - 1);
      if c % 256 == 255 {
        assert (c + 1) % 256 == 0 && (c + 1) / 256 == c / 256 + 1;
        IncrementIsSuccessor(c / 256, n - 1);
      } else {
        assert (c + 1) % 256 == c % 256 + 1 && (c + 1) / 256 == c / 256;
      }
    }
  }

  /** All-zero nonce bytes are counter zero. */
  lemma {:induction false} ZeroNonce(n: nat)
    ensures NonceBytes(0, n) == Zeros(n)
  {
    if n > 0 {
      ZeroNonce(n - 1);
      assert Zeros(n) == [0 as byte] + Zeros(n - 1);
    }
  }

  lemma AppendAssoc(x: seq<byte>, y: seq<byte>, z: seq<byte>)
    ensures x + (y + z) == (x + y) + z
  {
  }

  /** A head and `x`, then nothing and `y`, is the head and `x + y`. */
  lemma JoinAfterHead(head: seq<byte>, x: seq<byte>, y: seq<byte>, xy: seq<byte>)
    requires xy == x + y
    ensures (head + x) + ([] + y) == head + xy
  {
    assert [] + y == y;
  }

  /** The two halves of a concatenation found from `pos` to `end`. */
  lemma SliceSplit(s: seq<byte>, pos: nat, mid: nat, end: nat, x: seq<byte>, y: seq<byte>)
    requires mid == pos + |x| && end == mid + |y| && end <= |s| && s[pos .. end] == x + y
    ensures s[pos .. mid] == x
    ensures s[mid .. end] == y
  {
    var w := s[pos .. end];
    assert s[pos .. mid] == w[..|x|];
    assert s[mid .. end] == w[|x|..];
  }

  /** Where a prefix of `a + b` found at `pos` ends: inside `a`, or past
      all of `a` with the rest a prefix of `b`. */
  lemma PrefixSplit(s: seq<byte>, pos: nat, a: seq<byte>, b: seq<byte>)
    requires pos <= |s| && s[pos..] <= a + b
    ensures |s| - pos < |a| ==> s[pos..] <= a
    ensures |s| - pos >= |a| ==> s[pos .. pos + |a|] == a && s[pos + |a|..] <= b
  {
    var w := s[pos..];
    if |w| >= |a| {
      assert s[pos .. pos + |a|] == w[..|a|] == (a + b)[..|a|];
      assert s[pos + |a|..] == w[|a|..];
    }
  }

  lemma ConcatPrefix(x: seq<byte>, y: seq<byte>)
    ensures x <= x + y
  {
    assert (x + y)[..|x|] == x;
  }

  /** A prefix of `x + y` that reaches into `y`. */
  lemma PrefixOfAppend(x: seq<byte>, y: seq<byte>, k: nat)
    requires |x| <= k <= |x| + |y|
    ensures (x + y)[..k] == x + y[..k - |x|]
  {
  }

  lemma DropDrop(s: seq<byte>, pos: nat, k: nat)
    requires pos + k <= |s|
    ensures s[pos..][k..] == s[pos + k..]
  {
  }

  /** The first `k` bytes from `pos` on, and the bytes after them. */
  lemma DropParts(s: seq<byte>, pos: nat, k: nat)
    requires pos + k <= |s|
    ensures s[pos..][..k] == s[pos .. pos + k] && s[pos..][k..] == s[pos + k..]
  {
  }

  /** Bytes from `d` on, read as the bytes from `pos` on less `k`. */
  lemma DropAt(s: seq<byte>, pos: nat, k: nat, d: nat)
    requires d == pos + k <= |s|
    ensures s[pos..][k..] == s[d..]
  {
  }

  /** Bytes from `pos + k` on, read as the bytes from `pos` on less `k`. */
  lemma ShiftDrop(s: seq<byte>, pos: nat, k: nat, d: nat, rest: seq<byte>, e: seq<byte>)
    requires d == pos + k <= |s| && s[pos..][k..] + rest == e
    ensures s[d..] + rest == e
  {
    DropDrop(s, pos, k);
  }

  /** Two ways of cutting the same bytes: with `a` no longer than `x`,
      what follows `a` is the rest of `x` and then `y`. */
  lemma ConcatTail(x: seq<byte>, y: seq<byte>, a: seq<byte>, b: seq<byte>)
    requires x + y == a + b && |a| <= |x|
    ensures x[|a|..] + y == b
  {
    assert (x + y)[|a|..] == x[|a|..] + y;
    assert (a + b)[|a|..] == b;
  }

  /** `ConcatTail` with the length of `a` given as `n`. */
  lemma ConcatTailAt(x: seq<byte>, y: seq<byte>, a: seq<byte>, b: seq<byte>, n: nat)
    requires x + y == a + b && n == |a| <= |x|
    ensures x[n..] + y == b
  {
    ConcatTail(x, y, a, b);
  }

  /** `ConcatHead` with the length of `a` given as `n`. */
  lemma ConcatHeadAt(x: seq<byte>, y: seq<byte>, a: seq<byte>, b: seq<byte>, n: nat)
    requires x + y == a + b && n == |a| <= |x|
    ensures x[..n] == a
  {
    ConcatHead(x, y, a, b);
  }

  /** With `a` no longer than `x`, `a` is where `x` starts. */
  lemma ConcatHead(x: seq<byte>, y: seq<byte>, a: seq<byte>, b: seq<byte>)
    requires x + y == a + b && |a| <= |x|
    ensures x[..|a|] == a
  {
    assert (x + y)[..|a|] == x[..|a|];
    assert (a + b)[..|a|] == a;
  }

  /** Bytes that, followed by `rest`, are `a + b` either end inside `a`,
      or hold all of `a` and then bytes that with `rest` are `b`. */
  lemma CutOrWhole(x: seq<byte>, rest: seq<byte>, a: seq<byte>, b: seq<byte>, n: nat)
    requires x + rest == a + b && n == |a|
    ensures |x| < n ==> x <= a
    ensures |x| >= n ==> x[..n] == a && x[n..] + rest == b
  {
    if |x| < n {
      ConcatPrefix(x, rest);
      assert x == (a + b)[..|x|];
      assert (a + b)[..|x|] == a[..|x|];
    } else {
      ConcatHead(x, rest, a, b);
      ConcatTail(x, rest, a, b);
    }
  }

  /** The concatenation of a sequence of byte strings. */
  function Flatten(xs: seq<seq<byte>>): (r: seq<byte>)
  {
    if xs == [] then [] else xs[0] + Flatten(xs[1..])
  }

  lemma {:induction false} FlattenAppend(xs: seq<seq<byte>>, ys: seq<seq<byte>>)
    ensures Flatten(xs + ys) == Flatten(xs) + Flatten(ys)
  {
    if xs == [] {
      assert xs + ys == ys;
    } else {
      assert (xs + ys)[1..] == xs[1..] + ys;
      FlattenAppend(xs[1..], ys);
    }
  }

  lemma FlattenSplitAt(xs: seq<seq<byte>>, j: nat)
    requires j <= |xs|
    ensures Flatten(xs) == Flatten(xs[..j]) + Flatten(xs[j..])
  {
    assert xs == xs[..j] + xs[j..];
    FlattenAppend(xs[..j], xs[j..]);
  }

  /** The bytes of an ASCII string literal. */
  function Ascii(s: string): (r: seq<byte>)
    requires forall i :: 0 <= i < |s| ==> s[i] as int < 256
    ensures |r| == |s|
    ensures forall i :: 0 <= i < |s| ==> r[i] as int == s[i] as int
  {
    seq(|s|, i requires 0 <= i < |s| => s[i] as int as byte)
  }
}
