/** GCM as section 6 and 7 of NIST SP 800-38D define it, and the byte-wise accumulators that
    lib/trezor-crypto/aes/aesgcm.c keeps for the header and the text. */
module GcmSpec {
  import opened ByteStrings
  import opened Gf128
  import opened GfMul

  type Block = s: seq<bv8> | |s| == 16 witness seq(16, i => 0)

  /** GHASH: Y = (Y + X) * H over the blocks, section 6.4. */
  function Ghash(h: Elem, x: seq<Elem>): Elem {
    if |x| == 0 then Zero(128) else Mul(Xor(Ghash(h, x[..|x| - 1]), x[|x| - 1]), h)
  }

  /** A block of up to 16 bytes, filled up with zeros. */
  function Padded(s: seq<bv8>): Elem
    requires |s| <= 16
  {
    Flat(s) + Zero(128 - 8 * |s|)
  }

  /** Where the last block of a string starts. */
  function LastStart(n: nat): (k: nat)
    requires n > 0
    ensures k % 16 == 0 && k < n <= k + 16
  {
    (n - 1) / 16 * 16
  }

  /** The blocks of a string, the last one filled up. */
  function Blocks(d: seq<bv8>): (x: seq<Elem>)
    ensures |x| == (|d| + 15) / 16
  {
    if |d| == 0 then [] else
    var k := LastStart(|d|);
    Blocks(d[..k]) + [Padded(d[k..])]
  }

  // ---------------------------------------------------------------- the accumulator

  /** The byte b at position pos of a block. */
  function ByteAt(b: bv8, pos: nat): Elem
    requires pos < 16
  {
    Zero(8 * pos) + Bits(b) + Zero(120 - 8 * pos)
  }

  /** The accumulator after the string d: the last block is added, but not yet multiplied. */
  ghost function Acc(h: Elem, d: seq<bv8>): Elem {
    if |d| == 0 then Zero(128) else
    var n := |d| - 1;
    var g := Acc(h, d[..n]);
    Xor(if n % 16 == 0 then Mul(g, h) else g, ByteAt(d[n], n % 16))
  }

  lemma PaddedNext(s: seq<bv8>, b: bv8)
    requires |s| < 16
    ensures Padded(s + [b]) == Xor(Padded(s), ByteAt(b, |s|))
  {
    FlatConcat(s, [b]);
    FlatOne(b);
    FillIn(Flat(s), Bits(b), 120 - 8 * |s|);
  }

  lemma FillIn(a: Poly, b: Poly, m: nat)
    ensures Xor(a + Zero(|b| + m), Zero(|a|) + b + Zero(m)) == a + b + Zero(m)
  {}

  lemma PaddedNone()
    ensures Padded([]) == Zero(128)
  {
    assert Flat([]) + Zero(128) == Zero(128);
  }

  /** One more byte: at the start of a block the pending multiplication is made up for. */
  lemma AccNext(h: Elem, c: seq<bv8>, b: bv8)
    ensures Acc(h, c + [b]) == Xor(if |c| % 16 == 0 then Mul(Acc(h, c), h) else Acc(h, c), ByteAt(b, |c| % 16))
  {
    assert (c + [b])[..|c|] == c;
  }

  lemma LastStartNext(n: nat)
    ensures LastStart(n + 1) == if n % 16 == 0 then n else LastStart(n)
    ensures n % 16 != 0 ==> n % 16 == n - LastStart(n)
  {}

  /** Adding the blocks of a string byte by byte. */
  lemma {:induction false} AccIs(h: Elem, d: seq<bv8>)
    requires |d| > 0
    ensures var k := LastStart(|d|); Acc(h, d) == Xor(Ghash(h, Blocks(d[..k])), Padded(d[k..]))
    decreases |d|, 0
  {
    hide *;
    var n := |d| - 1;
    var c, b := d[..n], d[n];
    assert d == c + [b];
    AccNext(h, c, b);
    LastStartNext(n);
    if n % 16 == 0 {
      assert d[n..] == [b] && d[..n] == c;
      AccMul(h, c);
      PaddedFirst(b);
    } else {
      var k := LastStart(n);
      AccIs(h, c);
      assert d[k..] == c[k..] + [b] && d[..k] == c[..k];
      PaddedNext(c[k..], b);
      XorLaws(Ghash(h, Blocks(c[..k])), Padded(c[k..]), ByteAt(b, n - k));
    }
  }

  lemma PaddedFirst(b: bv8)
    ensures Padded([b]) == ByteAt(b, 0) && [] + [b] == [b]
  {
    PaddedNext([], b);
    PaddedNone();
    assert [] + [b] == [b];
    XorLaws(ByteAt(b, 0), Zero(128), Zero(128));
  }

  /** The pending multiplication completes GHASH. */
  lemma {:induction false} AccMul(h: Elem, d: seq<bv8>)
    ensures Mul(Acc(h, d), h) == Ghash(h, Blocks(d))
    decreases |d|, 1
  {
    hide Padded, Xor;
    if |d| == 0 {
      MulDistributes(Zero(128), Zero(128), h);
    } else {
      AccIs(h, d);
      var k := LastStart(|d|);
      var x := Blocks(d);
      assert x[..|x| - 1] == Blocks(d[..k]) && x[|x| - 1] == Padded(d[k..]);
    }
  }

  /** A whole block at once, after a full block. */
  lemma AccBlock(h: Elem, c: seq<bv8>, b: seq<bv8>)
    requires |c| % 16 == 0 && |b| == 16
    ensures Acc(h, c + b) == Xor(Mul(Acc(h, c), h), Flat(b))
  {
    hide *;
    AccIs(h, c + b);
    AccMul(h, c);
    assert (c + b)[..|c|] == c && (c + b)[|c|..] == b;
    LastStartFull(|c|);
    PaddedFull(b);
  }

  lemma LastStartFull(n: nat)
    requires n % 16 == 0
    ensures LastStart(n + 16) == n
  {}

  lemma PaddedFull(b: seq<bv8>)
    requires |b| == 16
    ensures Padded(b) == Flat(b)
  {
    assert Flat(b) + Zero(0) == Flat(b);
  }

  // ---------------------------------------------------------------- header and text apart

  function Power(h: Elem, n: nat): Elem {
    if n == 0 then One() else Mul(Power(h, n - 1), h)
  }

  lemma {:induction false} PowerAdd(h: Elem, m: nat, n: nat)
    ensures Power(h, m + n) == Mul(Power(h, m), Power(h, n))
  {
    hide Mul, Xor;
    if n == 0 {
      MulDistributes(Power(h, m), h, h);
    } else {
      PowerAdd(h, m, n - 1);
      MulAssociative(Power(h, m), Power(h, n - 1), h);
    }
  }

  /** Powers of a square. */
  lemma {:induction false} PowerSquare(t: Elem, n: nat)
    ensures Power(Mul(t, t), n) == Power(t, 2 * n)
  {
    hide Mul;
    if n > 0 {
      PowerSquare(t, n - 1);
      MulAssociative(Power(t, 2 * n - 2), t, t);
      assert 2 * n - 1 == (2 * n - 2) + 1;
    }
  }

  /** Blocks in front only see more multiplications. */
  lemma {:induction false} GhashConcat(h: Elem, x: seq<Elem>, y: seq<Elem>)
    ensures Ghash(h, x + y) == Xor(Mul(Ghash(h, x), Power(h, |y|)), Ghash(h, y))
  {
    hide Mul, Xor;
    if |y| == 0 {
      assert x + y == x;
      MulDistributes(Ghash(h, x), h, h);
      XorLaws(Ghash(h, x), h, h);
    } else {
      var z, e := y[..|y| - 1], y[|y| - 1];
      GhashConcat(h, x, z);
      assert (x + y)[..|x + y| - 1] == x + z && (x + y)[|x + y| - 1] == e;
      var u, v := Mul(Ghash(h, x), Power(h, |z|)), Ghash(h, z);
      XorLaws(u, v, e);
      MulDistributes(u, Xor(v, e), h);
      MulAssociative(Ghash(h, x), Power(h, |z|), h);
    }
  }

  /** The lengths of header and text in bits. */
  function LenBlock(a: nat, c: nat): (s: seq<bv8>)
    ensures |s| == 16
  {
    BeBits(8 * a, 8) + BeBits(8 * c, 8)
  }

  /** S of section 7.1 for the header a and the ciphertext c. */
  function Digest(h: Elem, a: seq<bv8>, c: seq<bv8>): Elem {
    Ghash(h, Blocks(a) + Blocks(c) + [Flat(LenBlock(|a|, |c|))])
  }

  /** The two accumulators, finished separately, combine to the GHASH of everything. */
  lemma DigestIs(h: Elem, a: seq<bv8>, c: seq<bv8>)
    ensures Digest(h, a, c) ==
      Mul(Xor(Xor(Mul(Mul(Acc(h, a), h), Power(h, |Blocks(c)|)), Mul(Acc(h, c), h)), Flat(LenBlock(|a|, |c|))), h)
  {
    hide *;
    var x, e := Blocks(a) + Blocks(c), Flat(LenBlock(|a|, |c|));
    AccMul(h, a);
    AccMul(h, c);
    GhashConcat(h, Blocks(a), Blocks(c));
    GhashLast(h, x, e);
    DigestUnfold(h, a, c);
  }

  lemma DigestUnfold(h: Elem, a: seq<bv8>, c: seq<bv8>)
    ensures Digest(h, a, c) == Ghash(h, Blocks(a) + Blocks(c) + [Flat(LenBlock(|a|, |c|))])
  {}

  lemma GhashLast(h: Elem, x: seq<Elem>, e: Elem)
    ensures Ghash(h, x + [e]) == Mul(Xor(Ghash(h, x), e), h)
  {
    assert (x + [e])[..|x|] == x;
  }

  // ---------------------------------------------------------------- counter mode

  type Cipher = Block -> Block

  function CounterWord(b: Block): bv32 {
    (b[12] as bv32 << 24) | (b[13] as bv32 << 16) | (b[14] as bv32 << 8) | (b[15] as bv32)
  }

  function Next(w: bv32): bv32 {
    w + 1
  }

  /** inc_32 of section 6.2. */
  function Inc(b: Block): Block {
    var w := Next(CounterWord(b));
    b[..12] + [ByteOf(w, 3), ByteOf(w, 2), ByteOf(w, 1), ByteOf(w, 0)]
  }

  function Counter(j0: Block, n: nat): (b: Block)
    ensures b[..12] == j0[..12]
  {
    if n == 0 then j0 else Inc(Counter(j0, n - 1))
  }

  /** Byte i of the key stream: the counter runs from inc_32(J0). */
  function Stream(aes: Cipher, j0: Block, i: nat): bv8 {
    aes(Counter(j0, i / 16 + 1))[i % 16]
  }

  /** GCTR, section 6.5, on a piece of the text that starts at byte off. */
  function Gctr(aes: Cipher, j0: Block, off: nat, d: seq<bv8>): (c: seq<bv8>)
    ensures |c| == |d| && forall i :: 0 <= i < |d| ==> c[i] == XorByte(d[i], Stream(aes, j0, off + i))
  {
    seq(|d|, i requires 0 <= i < |d| => XorByte(d[i], Stream(aes, j0, off + i)))
  }

  /** Decryption is encryption. */
  lemma GctrTwice(aes: Cipher, j0: Block, off: nat, d: seq<bv8>)
    ensures Gctr(aes, j0, off, Gctr(aes, j0, off, d)) == d
  {
    var c := Gctr(aes, j0, off, d);
    forall i | 0 <= i < |d| ensures Gctr(aes, j0, off, c)[i] == d[i] {
      XorTwice(d[i], Stream(aes, j0, off + i));
    }
  }

  /** Pieces of a text are encrypted as the text is. */
  lemma GctrConcat(aes: Cipher, j0: Block, off: nat, d: seq<bv8>, e: seq<bv8>)
    ensures Gctr(aes, j0, off, d + e) == Gctr(aes, j0, off, d) + Gctr(aes, j0, off + |d|, e)
  {}

  // ---------------------------------------------------------------- messages

  /** J0 of section 7.1 for an iv whose length in bits is given as bits. */
  predicate PreCounter(h: Elem, iv: seq<bv8>, bits: nat, j0: Block) {
    if |iv| == 12 then j0 == iv + [0, 0, 0, 1]
    else Flat(j0) == Ghash(h, Blocks(iv) + [Flat(BeBits(0, 8) + BeBits(bits, 8))])
  }

  /** The length of the iv is truncated to 32 bits of bit count: exact below 2^29 bytes. */
  function TruncatedBits(n: nat): nat {
    8 * n % 0x1_0000_0000
  }

  lemma TruncatedIs(n: nat)
    requires n < 0x1_0000_0000
    ensures TruncatedBits(n) == 8 * n <==> n < 0x2000_0000
  {}

  lemma {:induction false} FlatInjective(s: seq<bv8>, t: seq<bv8>)
    requires |s| == |t| && Flat(s) == Flat(t)
    ensures s == t
  {
    hide Bits;
    if |s| > 0 {
      assert Flat(s)[..8] == Bits(s[0]) && Flat(t)[..8] == Bits(t[0]);
      assert Flat(s)[8..] == Flat(s[1..]) && Flat(t)[8..] == Flat(t[1..]);
      BitsInjective(s[0], t[0]);
      FlatInjective(s[1..], t[1..]);
      assert s == [s[0]] + s[1..] && t == [t[0]] + t[1..];
    }
  }

  lemma PreCounterUnique(h: Elem, iv: seq<bv8>, bits: nat, j: Block, j': Block)
    requires PreCounter(h, iv, bits, j) && PreCounter(h, iv, bits, j')
    ensures j == j'
  {
    if |iv| != 12 {
      FlatInjective(j, j');
    }
  }

  /** The first bytes of the tag: MSB_t(GCTR(J0, S)). */
  predicate TagIs(aes: Cipher, h: Elem, j0: Block, a: seq<bv8>, c: seq<bv8>, tag: seq<bv8>) {
    |tag| <= 16 && Flat(tag) == Xor(Digest(h, a, c), Flat(aes(j0)))[..8 * |tag|]
  }
}
