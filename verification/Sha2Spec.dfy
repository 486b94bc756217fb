/** SHA-256 and SHA-512 around an uninterpreted compression function: padding, chaining and midstates,
    sections 5.1 and 6 of FIPS 180-4.  Words are given by their bytes, most significant first. */
module Sha2Spec {
  import opened ByteStrings
  import opened ModArith

  type Bytes = seq<bv8>

  /** w is the length of a word: 4 for SHA-256, 8 for SHA-512. */
  datatype Algorithm = Algorithm(w: nat, iv: Bytes, compress: (Bytes, Bytes) -> Bytes) {
    function BlockLen(): nat { 16 * w }
    function DigestLen(): nat { 8 * w }
    function ShortLen(): nat { 14 * w }
  }

  ghost predicate Proper(a: Algorithm) {
    && a.w in {4, 8} && |a.iv| == a.DigestLen()
    && forall s: Bytes, b: Bytes :: |a.compress(s, b)| == a.DigestLen()
  }

  /** The chaining value after whole blocks. */
  function Chain(a: Algorithm, st: Bytes, d: Bytes): Bytes
    requires a.w > 0 && |d| % a.BlockLen() == 0
  {
    if |d| == 0 then st else
    var n := |d| - a.BlockLen();
    LastBlock(a.BlockLen(), |d|);
    a.compress(Chain(a, st, d[..n]), d[n..])
  }

  lemma LastBlock(b: nat, n: nat)
    requires b > 0 && n % b == 0 && n > 0
    ensures n >= b && (n - b) % b == 0
  {
    if n < b {
      ModUnique(n, b, 0, n);
    }
    Quotient(n, b);
    MinusOne(n / b, b);
    ModUnique(n - b, b, n / b - 1, 0);
  }

  lemma Quotient(n: int, b: int)
    requires b > 0
    ensures n == n / b * b + n % b
  {}

  lemma MinusOne(q: int, b: int)
    ensures q * b - b == (q - 1) * b && q * b + b == (q + 1) * b
  {}

  lemma Distribute(p: int, q: int, b: int)
    ensures p * b + q * b == (p + q) * b && p * b - q * b == (p - q) * b
  {}

  /** The number of zeros that lead up to the length, used bytes into a block. */
  function Fill(a: Algorithm, used: nat): nat
    requires a.w > 0 && used < a.BlockLen()
  {
    if used + 1 <= a.ShortLen() then a.ShortLen() - used - 1 else a.ShortLen() + a.BlockLen() - used - 1
  }

  /** 1, zeros and the length in bits, after n bytes. */
  function Padding(a: Algorithm, n: nat): (p: Bytes)
    requires a.w > 0
    ensures |p| == 1 + Fill(a, n % a.BlockLen()) + 2 * a.w
  {
    [0x80] + Zeros(Fill(a, n % a.BlockLen())) + BeBits(8 * n, 2 * a.w)
  }

  lemma PaddingFills(a: Algorithm, n: nat)
    requires a.w > 0
    ensures (n + |Padding(a, n)|) % a.BlockLen() == 0
  {
    var b := a.BlockLen();
    var used := n % b;
    var l := |Padding(a, n)|;
    hide Padding;
    Quotient(n, b);
    assert used + l == b || used + l == b + b;
    MinusOne(n / b, b);
    MinusOne(n / b + 1, b);
    var k := if used + l == b then 1 else 2;
    ModUnique(n + l, b, n / b + k, 0);
  }

  lemma Filled(a: Algorithm, pre: nat, n: nat)
    requires a.w > 0 && pre % a.BlockLen() == 0
    ensures (n + |Padding(a, pre + n)|) % a.BlockLen() == 0
  {
    PaddingFills(a, pre + n);
    ModSkip(pre, n + |Padding(a, pre + n)|, a.BlockLen());
  }

  /** Hashing on from a midstate that stands for pre bytes. */
  function HashFrom(a: Algorithm, st: Bytes, pre: nat, m: Bytes): Bytes
    requires a.w > 0 && pre % a.BlockLen() == 0
  {
    Filled(a, pre, |m|);
    Chain(a, st, m + Padding(a, pre + |m|))
  }

  lemma ModSkip(pre: nat, n: nat, b: nat)
    requires b > 0 && pre % b == 0 && (pre + n) % b == 0
    ensures n % b == 0
  {
    Quotient(pre, b);
    Quotient(pre + n, b);
    Distribute((pre + n) / b, pre / b, b);
    ModUnique(n, b, (pre + n) / b - pre / b, 0);
  }

  function Hash(a: Algorithm, m: Bytes): Bytes
    requires a.w > 0
  {
    HashFrom(a, a.iv, 0, m)
  }

  /** Chaining over a concatenation. */
  lemma {:induction false} ChainConcat(a: Algorithm, st: Bytes, d: Bytes, e: Bytes)
    requires a.w > 0 && |d| % a.BlockLen() == 0 && |e| % a.BlockLen() == 0
    ensures |d + e| % a.BlockLen() == 0 && Chain(a, st, d + e) == Chain(a, Chain(a, st, d), e)
    decreases |e|
  {
    var b := a.BlockLen();
    ModAdd(|d|, |e|, b);
    if |e| == 0 {
      assert d + e == d;
    } else {
      LastBlock(b, |e|);
      var n := |e| - b;
      ChainConcat(a, st, d, e[..n]);
      assert (d + e)[..|d| + n] == d + e[..n] && (d + e)[|d| + n..] == e[n..];
    }
  }

  lemma ModAdd(m: nat, n: nat, b: nat)
    requires b > 0 && m % b == 0
    ensures (m + n) % b == n % b && (m + n) / b == m / b + n / b
  {
    Quotient(m, b);
    Quotient(n, b);
    Distribute(m / b, n / b, b);
    ModUnique(m + n, b, m / b + n / b, n % b);
  }

  lemma Associate(x: Bytes, y: Bytes, z: Bytes)
    ensures x + y + z == x + (y + z)
  {}

  /** A midstate replaces the blocks it stands for. */
  lemma MidState(a: Algorithm, pre: Bytes, m: Bytes)
    requires a.w > 0 && |pre| % a.BlockLen() == 0
    ensures HashFrom(a, Chain(a, a.iv, pre), |pre|, m) == Hash(a, pre + m)
  {
    hide Chain, Padding, Algorithm.BlockLen;
    var p := Padding(a, |pre| + |m|);
    Filled(a, |pre|, |m|);
    Associate(pre, m, p);
    ChainConcat(a, a.iv, pre, m + p);
  }

  // ---------------------------------------------------------------- messages that fill one block exactly

  /** d, padded for a message of pre + |d| bytes, when that fits one block. */
  function OneBlock(a: Algorithm, pre: nat, d: Bytes): Bytes
    requires |d| < a.ShortLen()
  {
    d + [0x80] + Zeros(a.ShortLen() - |d| - 1) + BeBits(8 * (pre + |d|), 2 * a.w)
  }

  lemma HashOneBlock(a: Algorithm, st: Bytes, pre: nat, d: Bytes)
    requires a.w > 0 && pre % a.BlockLen() == 0 && |d| < a.ShortLen()
    ensures HashFrom(a, st, pre, d) == a.compress(st, OneBlock(a, pre, d))
  {
    var b := a.BlockLen();
    ModAdd(pre, |d|, b);
    ModUnique(|d|, b, 0, |d|);
    PaddingFills(a, pre + |d|);
    ModSkip(pre, |d| + |Padding(a, pre + |d|)|, b);
    OneBlockIs(a, pre, d);
    hide Padding, OneBlock;
    ChainOne(a, st, OneBlock(a, pre, d));
  }

  lemma OneBlockIs(a: Algorithm, pre: nat, d: Bytes)
    requires a.w > 0 && |d| < a.ShortLen() && (pre + |d|) % a.BlockLen() == |d|
    ensures d + Padding(a, pre + |d|) == OneBlock(a, pre, d) && |OneBlock(a, pre, d)| == a.BlockLen()
  {
    hide BeBits;
  }

  // ---------------------------------------------------------------- HMAC

  /** RFC 2104, section 2: the key, hashed if it is long, and zeros. */
  function Key0(a: Algorithm, key: Bytes): (k: Bytes)
    requires Proper(a)
    ensures |k| == a.BlockLen()
  {
    var k := if |key| > a.BlockLen() then Hash(a, key) else key;
    HashLength(a, key);
    k + Zeros(a.BlockLen() - |k|)
  }

  lemma HashLength(a: Algorithm, m: Bytes)
    requires Proper(a)
    ensures |Hash(a, m)| == a.DigestLen()
  {
    HashFromLength(a, a.iv, 0, m);
  }

  lemma HashFromLength(a: Algorithm, st: Bytes, pre: nat, m: Bytes)
    requires Proper(a) && pre % a.BlockLen() == 0
    ensures |HashFrom(a, st, pre, m)| == a.DigestLen()
  {
    hide Padding, Chain;
    PaddingFills(a, pre + |m|);
    ModSkip(pre, |m| + |Padding(a, pre + |m|)|, a.BlockLen());
    ChainLength(a, st, m + Padding(a, pre + |m|));
  }

  lemma ChainLength(a: Algorithm, st: Bytes, d: Bytes)
    requires Proper(a) && |d| > 0 && |d| % a.BlockLen() == 0
    ensures |Chain(a, st, d)| == a.DigestLen()
  {
    LastBlock(a.BlockLen(), |d|);
    var n := |d| - a.BlockLen();
    assert Chain(a, st, d) == a.compress(Chain(a, st, d[..n]), d[n..]);
  }

  function Pad(k: Bytes, x: bv8): (p: Bytes)
    ensures |p| == |k| && forall i :: 0 <= i < |k| ==> p[i] == XorByte(k[i], x)
  {
    seq(|k|, i requires 0 <= i < |k| => XorByte(k[i], x))
  }

  const IPAD: bv8 := 0x36
  const OPAD: bv8 := 0x5c

  function Hmac(a: Algorithm, key: Bytes, m: Bytes): Bytes
    requires Proper(a)
  {
    Hash(a, Pad(Key0(a, key), OPAD) + Hash(a, Pad(Key0(a, key), IPAD) + m))
  }

  /** The midstate after one key pad. */
  function Midstate(a: Algorithm, key: Bytes, x: bv8): (st: Bytes)
    requires Proper(a)
    ensures |st| == a.DigestLen()
  {
    a.compress(a.iv, Pad(Key0(a, key), x))
  }

  lemma ChainOne(a: Algorithm, st: Bytes, b: Bytes)
    requires a.w > 0 && |b| == a.BlockLen()
    ensures |b| % a.BlockLen() == 0 && Chain(a, st, b) == a.compress(st, b)
  {
    ModUnique(|b|, a.BlockLen(), 1, 0);
    assert b[..0] == [] && b[0..] == b;
  }

  lemma MidstateIs(a: Algorithm, key: Bytes, x: bv8)
    requires Proper(a)
    ensures a.BlockLen() % a.BlockLen() == 0 && Midstate(a, key, x) == Chain(a, a.iv, Pad(Key0(a, key), x))
  {
    ChainOne(a, a.iv, Pad(Key0(a, key), x));
  }

  /** HMAC from the two midstates; the outer hash is a single compression. */
  lemma HmacFromMidstates(a: Algorithm, key: Bytes, m: Bytes)
    requires Proper(a)
    ensures a.BlockLen() % a.BlockLen() == 0
    ensures var inner := HashFrom(a, Midstate(a, key, IPAD), a.BlockLen(), m);
      |inner| == a.DigestLen() && Hmac(a, key, m) == a.compress(Midstate(a, key, OPAD), OneBlock(a, a.BlockLen(), inner))
  {
    MidstateIs(a, key, IPAD);
    MidstateIs(a, key, OPAD);
    MidState(a, Pad(Key0(a, key), IPAD), m);
    var inner := HashFrom(a, Midstate(a, key, IPAD), a.BlockLen(), m);
    HashFromLength(a, Midstate(a, key, IPAD), a.BlockLen(), m);
    MidState(a, Pad(Key0(a, key), OPAD), inner);
    HashOneBlock(a, Midstate(a, key, OPAD), a.BlockLen(), inner);
  }
}
