/** lib/trezor-crypto/pbkdf2.c: PBKDF2 over HMAC, section 5.2 of RFC 8018, iterated on prepared
    midstates and a block whose padding words stay in place. */
module Pbkdf2 {
  import opened Words
  import opened ModArith
  import opened ByteStrings
  import opened Sha2Spec
  import opened Sha2
  import opened HmacSha2

  // ---------------------------------------------------------------- the definition

  /** U_j: HMAC of the salt and the block number, then of the value before. */
  ghost function U(a: Algorithm, pass: Bytes, first: Bytes, j: nat): Bytes
    requires Proper(a) && j > 0
  {
    if j == 1 then Hmac(a, pass, first) else Hmac(a, pass, U(a, pass, first, j - 1))
  }

  lemma ULength(a: Algorithm, pass: Bytes, first: Bytes, j: nat)
    requires Proper(a) && j > 0
    ensures |U(a, pass, first, j)| == a.DigestLen()
  {
    HmacLength(a, pass, if j == 1 then first else U(a, pass, first, j - 1));
  }

  lemma HmacLength(a: Algorithm, key: Bytes, m: Bytes)
    requires Proper(a)
    ensures |Hmac(a, key, m)| == a.DigestLen()
  {
    HashLength(a, Pad(Key0(a, key), OPAD) + Hash(a, Pad(Key0(a, key), IPAD) + m));
  }

  /** U_1 xor ... xor U_c */
  ghost function F(a: Algorithm, pass: Bytes, first: Bytes, c: nat): (f: Bytes)
    requires Proper(a) && c > 0
    ensures |f| == a.DigestLen()
  {
    ULength(a, pass, first, c);
    if c == 1 then U(a, pass, first, 1) else XorBytes(F(a, pass, first, c - 1), U(a, pass, first, c))
  }

  /** The salt and the block number in four bytes. */
  function First(salt: Bytes, blocknr: nat): Bytes {
    salt + BeBits(blocknr, 4)
  }

  /** T_1 || ... || T_n */
  ghost function Blocks(a: Algorithm, pass: Bytes, salt: Bytes, c: nat, n: nat): (t: Bytes)
    requires Proper(a) && c > 0
    ensures |t| == n * a.DigestLen()
  {
    if n == 0 then [] else Blocks(a, pass, salt, c, n - 1) + F(a, pass, First(salt, n), c)
  }

  // ---------------------------------------------------------------- one block

  /** The padding words as they are stored. */
  ghost predicate PaddingWords(a: Algorithm, g: Bytes)
    requires Proper(a)
  {
    |g| == a.BlockLen() && Tail(g, a.w, [0x80] + Zeros(a.w - 1), 8 * (a.BlockLen() + a.DigestLen()))
  }

  lemma KeepTail(a: Algorithm, s: Bytes, t: Bytes)
    requires Proper(a) && PaddingWords(a, s) && |t| == |s| && s[a.DigestLen()..] == t[a.DigestLen()..]
    ensures PaddingWords(a, t)
  {
    var w := a.w;
    TailSlice(s, 8 * w, 0, w);
    TailSlice(t, 8 * w, 0, w);
    TailSlice(s, 8 * w, w, 7 * w);
    TailSlice(t, 8 * w, w, 7 * w);
    TailSlice(s, 8 * w, 7 * w, 8 * w);
    TailSlice(t, 8 * w, 7 * w, 8 * w);
    assert s[15 * w..] == s[15 * w..16 * w] && t[15 * w..] == t[15 * w..16 * w];
  }

  lemma PaddedIs(a: Algorithm, g: Bytes, d: Bytes)
    requires Proper(a) && PaddingWords(a, g) && WordsOf(g[..a.DigestLen()], a.w) == d
    ensures |d| == a.DigestLen() && WordsOf(g, a.w) == OneBlock(a, a.BlockLen(), d)
  {
    TailBlock(g, a.w, d, [0x80] + Zeros(a.w - 1), 8 * (a.BlockLen() + a.DigestLen()));
    hide WordsOf, BeBits;
    assert OneBlock(a, a.BlockLen(), d) == d + ([0x80] + Zeros(a.w - 1) + (Zeros(5 * a.w) + BeBits(8 * (a.BlockLen() + a.DigestLen()), 2 * a.w)));
  }

  /** Both hashes of an HMAC over a digest, each a single compression on the block. */
  lemma TwoTransforms(a: Algorithm, key: Bytes, d: Bytes)
    requires Proper(a) && |d| == a.DigestLen()
    ensures var inner := a.compress(Midstate(a, key, IPAD), OneBlock(a, a.BlockLen(), d));
      |inner| == a.DigestLen() && Hmac(a, key, d) == a.compress(Midstate(a, key, OPAD), OneBlock(a, a.BlockLen(), inner))
  {
    HmacFromMidstates(a, key, d);
    HashOneBlock(a, Midstate(a, key, IPAD), a.BlockLen(), d);
  }

  class Pbkdf2Context {
    const alg: Algorithm
    const odig: array<bv8>
    const idig: array<bv8>
    const f: array<bv8>
    const g: array<bv8>
    var first: nat
    ghost var pass: Bytes
    ghost var start: Bytes
    ghost var done: nat

    ghost predicate Shape()
      reads this
    {
      && Proper(alg) && odig.Length == idig.Length == f.Length == alg.DigestLen() && g.Length == alg.BlockLen()
      && odig !in {idig, f, g} && idig !in {f, g} && f != g
    }

    /** After done iterations: g holds the last U, f their sum. */
    ghost predicate Valid()
      reads this, odig, idig, f, g
    {
      && Shape() && done > 0 && first <= 1
      && WordsOf(odig[..], alg.w) == Midstate(alg, pass, OPAD) && WordsOf(idig[..], alg.w) == Midstate(alg, pass, IPAD)
      && PaddingWords(alg, g[..]) && WordsOf(g[..alg.DigestLen()], alg.w) == U(alg, pass, start, done)
      && WordsOf(f[..], alg.w) == F(alg, pass, start, done)
    }

    constructor (alg: Algorithm)
      requires Proper(alg)
      ensures Shape() && this.alg == alg && fresh(odig) && fresh(idig) && fresh(f) && fresh(g)
    {
      this.alg := alg;
      odig, idig, f := new bv8[alg.DigestLen()], new bv8[alg.DigestLen()], new bv8[alg.DigestLen()];
      g := new bv8[alg.BlockLen()];
      first, pass, start, done := 0, [], [], 0;
    }

    /** g = the padding words, after a first half that is still to come. */
    method SetPadding()
      requires Shape()
      modifies g
      ensures PaddingWords(alg, g[..])
    {
      hide BeBits;
      ClearBits(g, 0, alg.BlockLen());
      assert g[9 * alg.w..15 * alg.w] == Zeros(6 * alg.w);
      PutTail(g, alg.w, [0x80] + Zeros(alg.w - 1), 8 * (alg.BlockLen() + alg.DigestLen()));
    }

    /** memcpy of a digest's worth of bytes, and the words of the copy. */
    method TakeOver()
      requires Shape()
      modifies f
      ensures f[..] == g[..alg.DigestLen()]
    {
      CopyInto(f, 0, g, 0, alg.DigestLen());
      assert f[..] == f[0..0 + alg.DigestLen()] && g[0..0 + alg.DigestLen()] == g[..alg.DigestLen()];
    }

    /** pbkdf2_hmac_sha256_Init and pbkdf2_hmac_sha512_Init */
    method Init(passBytes: array<bv8>, salt: array<bv8>, blocknr: uint32)
      requires Shape() && {passBytes, salt} !! {odig, idig, f, g}
      modifies this`first, this`pass, this`start, this`done, odig, idig, f, g
      ensures Valid() && done == 1 && first == 1 && pass == passBytes[..] && start == First(salt[..], blocknr)
    {
      hide WordsOf, HashFrom, BeBits, Absorbed, Midstate, U, F, PaddingWords;
      pass, start, done, first := passBytes[..], First(salt[..], blocknr), 1, 1;
      Prepare(alg, passBytes, odig, idig);
      SetPadding();
      FirstHash(salt, blocknr);
      OuterHash();
      TakeOver();
      assert f[..] == g[..alg.DigestLen()];
      FirstU(alg, pass, start);
    }

    /** The inner hash of U_1, from the midstate, into the first half of g. */
    method FirstHash(salt: array<bv8>, blocknr: uint32)
      requires Shape() && salt !in {odig, idig, f, g} && PaddingWords(alg, g[..])
      requires WordsOf(idig[..], alg.w) == Midstate(alg, pass, IPAD)
      modifies g
      ensures PaddingWords(alg, g[..]) && alg.BlockLen() % alg.BlockLen() == 0
      ensures WordsOf(g[..alg.DigestLen()], alg.w) == HashFrom(alg, Midstate(alg, pass, IPAD), alg.BlockLen(), First(salt[..], blocknr))
    {
      hide WordsOf, HashFrom, BeBits, Absorbed, Midstate, Context.Valid, PaddingWords;
      ModUnique(alg.BlockLen(), alg.BlockLen(), 1, 0);
      ghost var before, rest := g[..], g[alg.DigestLen()..];
      var ctx := new Context(alg, WordsOf(idig[..], alg.w), alg.BlockLen());
      ctx.Update(salt);
      var num := BeBits(blocknr, 4);
      var nr := new bv8[4](i requires 0 <= i < |num| => num[i]);
      assert nr[..] == num;
      ctx.Update(nr);
      assert [] + salt[..] + num == First(salt[..], blocknr);
      ctx.Final(g);
      ghost var h := g[..alg.DigestLen()];
      ReverseWords(g, 8, alg.w);
      assert g[..8 * alg.w] == g[..alg.DigestLen()];
      WordsTwice(h, alg.w);
      assert g[..][alg.DigestLen()..] == g[8 * alg.w..] == rest;
      KeepTail(alg, before, g[..]);
    }

    /** sha_Transform(odig, g, g): the outer hash. */
    method OuterHash()
      requires Shape() && PaddingWords(alg, g[..])
      modifies g
      ensures PaddingWords(alg, g[..])
      ensures var d := WordsOf(old(g[..alg.DigestLen()]), alg.w);
        |d| == alg.DigestLen() && WordsOf(g[..alg.DigestLen()], alg.w) == alg.compress(WordsOf(odig[..], alg.w), OneBlock(alg, alg.BlockLen(), d))
    {
      HalfStep(odig);
    }

    method HalfStep(dig: array<bv8>)
      requires Shape() && PaddingWords(alg, g[..]) && dig != g && dig.Length == alg.DigestLen()
      modifies g
      ensures PaddingWords(alg, g[..])
      ensures var d := WordsOf(old(g[..alg.DigestLen()]), alg.w);
        |d| == alg.DigestLen() && WordsOf(g[..alg.DigestLen()], alg.w) == alg.compress(WordsOf(dig[..], alg.w), OneBlock(alg, alg.BlockLen(), d))
    {
      hide WordsOf, OneBlock;
      ghost var s, k := g[..], dig[..];
      ghost var d := WordsOf(s[..alg.DigestLen()], alg.w);
      PaddedIs(alg, s, d);
      assert g[..alg.DigestLen()] == s[..alg.DigestLen()] && dig[..alg.DigestLen()] == k;
      Transform(alg, dig, g, g);
      assert g[..][alg.DigestLen()..] == g[alg.DigestLen()..] == s[alg.DigestLen()..];
      KeepTail(alg, s, g[..]);
    }

    /** One iteration: the next U, added to the sum. */
    method Iterate()
      requires Valid()
      modifies this`done, f, g
      ensures Valid() && done == old(done) + 1
    {
      hide WordsOf, OneBlock, Midstate, U, F, PaddingWords;
      NextU(alg, pass, start, done);
      HalfStep(idig);
      HalfStep(odig);
      AddUp();
      done := done + 1;
      assert g[..alg.DigestLen()] == g[..][..alg.DigestLen()];
    }

    /** f ^= g on the first eight words. */
    method AddUp()
      requires Shape()
      modifies f
      ensures WordsOf(f[..], alg.w) == XorBytes(WordsOf(old(f[..]), alg.w), WordsOf(g[..alg.DigestLen()], alg.w))
    {
      hide XorByte;
      ghost var s, t := f[..], g[..alg.DigestLen()];
      for j := 0 to alg.DigestLen()
        invariant forall i :: 0 <= i < alg.DigestLen() ==> f[i] == if i < j then XorByte(s[i], t[i]) else s[i]
      {
        f[j] := XorByte(f[j], g[j]);
      }
      XorBytesAre(s, t);
      assert f[..] == XorBytes(s, t);
      WordsXor(s, t, alg.w);
    }

    /** pbkdf2_hmac_sha256_Update and pbkdf2_hmac_sha512_Update: the first call counts the iteration
        that Init has done already. */
    method Update(iterations: uint32)
      requires Valid()
      modifies this`first, this`done, f, g
      ensures Valid() && first == 0 && done == old(done) + if iterations > old(first) then iterations - old(first) else 0
    {
      hide WordsOf, OneBlock, Midstate, U, F, PaddingWords;
      var i := first;
      while i < iterations
        invariant Valid() && first == old(first) && (i <= iterations || i == first) && first <= i && done == old(done) + (i - first)
      {
        Iterate();
        i := i + 1;
      }
      first := 0;
    }

    /** pbkdf2_hmac_sha256_Final and pbkdf2_hmac_sha512_Final */
    method Final(key: array<bv8>)
      requires Valid() && key.Length == alg.DigestLen() && key !in {odig, idig, f, g}
      modifies f, key
      ensures key[..] == F(alg, pass, start, done)
    {
      hide WordsOf, OneBlock, Midstate, U, F, PaddingWords;
      ghost var s := f[..];
      ReverseWords(f, 8, alg.w);
      assert f[..8 * alg.w] == f[..] && s[..8 * alg.w] == s;
      CopyInto(key, 0, f, 0, alg.DigestLen());
      assert key[..] == key[0..0 + alg.DigestLen()] && f[0..0 + alg.DigestLen()] == f[..];
    }
  }

  lemma NextU(a: Algorithm, pass: Bytes, first: Bytes, j: nat)
    requires Proper(a) && j > 0
    ensures var d := U(a, pass, first, j); var inner := a.compress(Midstate(a, pass, IPAD), OneBlock(a, a.BlockLen(), d));
      |d| == |inner| == a.DigestLen() && U(a, pass, first, j + 1) == a.compress(Midstate(a, pass, OPAD), OneBlock(a, a.BlockLen(), inner))
    ensures |U(a, pass, first, j + 1)| == a.DigestLen() && F(a, pass, first, j + 1) == XorBytes(F(a, pass, first, j), U(a, pass, first, j + 1))
  {
    ULength(a, pass, first, j);
    ULength(a, pass, first, j + 1);
    TwoTransforms(a, pass, U(a, pass, first, j));
    hide Hmac, Midstate, OneBlock;
  }

  lemma {:induction false} WordsXor(s: Bytes, t: Bytes, w: nat)
    requires w > 0 && |s| == |t|
    ensures WordsOf(XorBytes(s, t), w) == XorBytes(WordsOf(s, w), WordsOf(t, w))
    decreases |s|
  {
    if |s| >= w {
      WordsXor(s[w..], t[w..], w);
      assert XorBytes(s, t)[..w] == XorBytes(s[..w], t[..w]) && XorBytes(s, t)[w..] == XorBytes(s[w..], t[w..]);
      XorReversed(s[..w], t[..w]);
      XorParts(Reversed(s[..w]), Reversed(t[..w]), WordsOf(s[w..], w), WordsOf(t[w..], w));
    }
  }

  lemma XorReversed(s: Bytes, t: Bytes)
    requires |s| == |t|
    ensures Reversed(XorBytes(s, t)) == XorBytes(Reversed(s), Reversed(t))
  {}

  lemma XorParts(a: Bytes, b: Bytes, c: Bytes, d: Bytes)
    requires |a| == |b| && |c| == |d|
    ensures XorBytes(a + c, b + d) == XorBytes(a, b) + XorBytes(c, d)
  {}

  lemma FirstU(a: Algorithm, pass: Bytes, first: Bytes)
    requires Proper(a)
    ensures a.BlockLen() % a.BlockLen() == 0
    ensures var inner := HashFrom(a, Midstate(a, pass, IPAD), a.BlockLen(), first);
      |inner| == a.DigestLen() && U(a, pass, first, 1) == a.compress(Midstate(a, pass, OPAD), OneBlock(a, a.BlockLen(), inner))
    ensures F(a, pass, first, 1) == U(a, pass, first, 1)
  {
    HmacFromMidstates(a, pass, first);
    hide Hmac, HashFrom, Midstate, OneBlock;
  }

  // ---------------------------------------------------------------- drivers

  /** The iterations a driver performs: none counts as one. */
  function Rounds(iterations: nat): (c: nat)
    ensures c > 0
  {
    if iterations == 0 then 1 else iterations
  }

  function Sum(cs: seq<nat>): nat {
    if |cs| == 0 then 0 else Sum(cs[..|cs| - 1]) + cs[|cs| - 1]
  }

  /** The iterations done after calls of Update with these counts on a fresh context: the first of
      them counts the iteration that Init has done already. */
  function Done(cs: seq<nat>): nat {
    if |cs| == 0 then 1
    else
      var first, c := if |cs| == 1 then 1 else 0, cs[|cs| - 1];
      Done(cs[..|cs| - 1]) + if c > first then c - first else 0
  }

  /** Calls of Update, one after the other. */
  method UpdateAll(ctx: Pbkdf2Context, cs: seq<uint32>)
    requires ctx.Valid() && ctx.first == 1 && ctx.done == 1
    modifies ctx`first, ctx`done, ctx.f, ctx.g
    ensures ctx.Valid() && ctx.done == Done(cs)
  {
    hide ctx.Valid;
    for k := 0 to |cs|
      invariant ctx.Valid() && ctx.done == Done(cs[..k]) && ctx.first == if k == 0 then 1 else 0
    {
      ctx.Update(cs[k]);
      assert cs[..k + 1][..k] == cs[..k];
    }
    assert cs[..|cs|] == cs;
  }

  /** An empty call in front makes the iteration of Init one too many, if any follow. */
  lemma {:induction false} DoneIs(cs: seq<nat>)
    ensures Done(cs) == if |cs| > 0 && cs[0] == 0 then 1 + Sum(cs) else Rounds(Sum(cs))
    ensures |cs| > 0 ==> Sum(cs) >= cs[0]
  {
    if |cs| > 1 {
      DoneIs(cs[..|cs| - 1]);
    } else if |cs| == 1 {
      assert cs[..0] == [] && Sum(cs[..0]) == 0 && Done(cs[..0]) == 1;
    }
  }

  /** However the count is split over calls, as many iterations are done as in one call, if and only
      if the first call is not empty or all of them are. */
  lemma SplitCounts(cs: seq<nat>)
    ensures Done(cs) == Done([Sum(cs)]) <==> Sum(cs) == 0 || cs[0] > 0
    ensures Done([Sum(cs)]) == Rounds(Sum(cs))
  {
    DoneIs(cs);
    DoneIs([Sum(cs)]);
    assert [Sum(cs)][..0] == [];
  }

  /** Where it goes wrong: an empty call and then one iteration make two. */
  lemma EmptyFirstCall()
    ensures Done([0, 1]) == 2 && Sum([0, 1]) == 1 && Done([1]) == 1
  {
    assert [0, 1][..1] == [0] && [0][..0] == [] && [1][..0] == [];
  }

  /** How many blocks of dl bytes n bytes need: n / dl, rounded up. */
  function BlocksNeeded(n: nat, dl: nat): nat
    requires dl > 0
  {
    (n + dl - 1) / dl
  }

  /** blocks_count and last_block_size */
  method CountBlocks(n: nat, dl: nat) returns (count: nat, last: nat)
    requires dl > 0
    ensures count == BlocksNeeded(n, dl) && last == LastSize(n, dl) && count <= n / dl + 1
  {
    last := n % dl;
    count := n / dl;
    if last != 0 {
      count := count + 1;
    } else {
      last := dl;
    }
    BlockCount(n, dl);
  }

  function LastSize(n: nat, dl: nat): nat
    requires dl > 0
  {
    if n % dl != 0 then n % dl else dl
  }

  // ---------------------------------------------------------------- the blocks, spelled out

  /** INT (i): four bytes, most significant first. */
  function Int(i: nat): Bytes {
    [AsByte(i / 256 / 256 / 256 % 256), AsByte(i / 256 / 256 % 256), AsByte(i / 256 % 256), AsByte(i % 256)]
  }

  lemma FirstIs(salt: Bytes, i: nat)
    ensures First(salt, i) == salt + Int(i)
  {
    BitsNext(i, 4);
    BitsNext(i / 256, 3);
    BitsNext(i / 256 / 256, 2);
    BitsNext(i / 256 / 256 / 256, 1);
    NoBits(i / 256 / 256 / 256 / 256);
    hide BeBits, AsByte;
  }

  lemma IntOne()
    ensures Int(1) == [0, 0, 0, 1]
  {}

  /** Block i of the key: one HMAC of the salt and the number for a single iteration, and combined with
      one more for two. */
  lemma BlockIs(a: Algorithm, p: Bytes, s: Bytes, i: nat)
    requires Proper(a)
    ensures var u := Hmac(a, p, s + Int(i));
      && |u| == a.DigestLen() && |Hmac(a, p, u)| == |u|
      && F(a, p, First(s, i), 1) == u && F(a, p, First(s, i), 2) == XorBytes(u, Hmac(a, p, u))
  {
    hide Hmac, Int, XorBytes;
    FirstIs(s, i);
    hide First;
    var u := Hmac(a, p, s + Int(i));
    HmacLength(a, p, s + Int(i));
    HmacLength(a, p, u);
    assert U(a, p, First(s, i), 1) == u;
    assert U(a, p, First(s, i), 2) == Hmac(a, p, u);
  }

  /** Block i of several. */
  lemma {:induction false} BlockAt(a: Algorithm, p: Bytes, s: Bytes, c: nat, n: nat, i: nat)
    requires Proper(a) && c > 0 && 0 < i <= n
    ensures (i - 1) * a.DigestLen() <= i * a.DigestLen() <= n * a.DigestLen() == |Blocks(a, p, s, c, n)|
    ensures Blocks(a, p, s, c, n)[(i - 1) * a.DigestLen()..i * a.DigestLen()] == F(a, p, First(s, i), c)
  {
    hide F, First;
    var dl := a.DigestLen();
    MinusOne(i, dl);
    Below(i, n, dl);
    Below(i - 1, i, dl);
    if i < n {
      BlockAt(a, p, s, c, n - 1, i);
      Below(i, n - 1, dl);
      assert Blocks(a, p, s, c, n)[..(n - 1) * dl] == Blocks(a, p, s, c, n - 1) by { MinusOne(n, dl); }
    }
  }

  /** Every whole block of a key that takes a single iteration. */
  ghost predicate SingleHmacs(a: Algorithm, p: Bytes, s: Bytes, key: Bytes)
    requires Proper(a)
  {
    forall i :: 0 < i && i * a.DigestLen() <= |key| ==> BlockOf(a, key, i) == Hmac(a, p, s + Int(i))
  }

  /** The i-th stretch of a digest's length. */
  function BlockOf(a: Algorithm, key: Bytes, i: nat): Bytes
    requires Proper(a) && 0 < i && i * a.DigestLen() <= |key|
  {
    MinusOne(i, a.DigestLen());
    Below(1, i, a.DigestLen());
    key[(i - 1) * a.DigestLen()..i * a.DigestLen()]
  }

  lemma KeyBlock(a: Algorithm, p: Bytes, s: Bytes, c: nat, n: nat, key: Bytes, i: nat)
    requires Proper(a) && c > 0 && 0 < i && i * a.DigestLen() <= |key| <= n * a.DigestLen() && key == Blocks(a, p, s, c, n)[..|key|]
    ensures BlockOf(a, key, i) == F(a, p, First(s, i), c)
  {
    hide Blocks, F, First, Proper, Algorithm.DigestLen;
    var dl := a.DigestLen();
    SomeLength(a);
    Fewer(i, n, dl);
    BlockAt(a, p, s, c, n, i);
    var t := Blocks(a, p, s, c, n);
    var lo, hi := (i - 1) * dl, i * dl;
    PartSlice(t, 0, |key|, lo, hi);
    assert t[0..|key|] == key;
  }

  lemma SomeLength(a: Algorithm)
    requires Proper(a)
    ensures a.DigestLen() > 0
  {}

  /** A key that takes a single iteration. */
  lemma KeySingle(a: Algorithm, p: Bytes, s: Bytes, n: nat, key: Bytes)
    requires Proper(a) && |key| <= n * a.DigestLen() && key == Blocks(a, p, s, 1, n)[..|key|]
    ensures SingleHmacs(a, p, s, key) && (|key| == a.DigestLen() ==> key == Hmac(a, p, s + [0, 0, 0, 1]))
  {
    hide Blocks, F, First, Hmac, Int, Proper, Algorithm.DigestLen;
    SomeLength(a);
    forall i | 0 < i && i * a.DigestLen() <= |key| ensures BlockOf(a, key, i) == Hmac(a, p, s + Int(i)) {
      KeyBlock(a, p, s, 1, n, key, i);
      BlockIs(a, p, s, i);
    }
    if |key| == a.DigestLen() {
      IntOne();
      WholeBlock(a, key);
    }
  }

  lemma WholeBlock(a: Algorithm, key: Bytes)
    requires Proper(a) && |key| == a.DigestLen()
    ensures BlockOf(a, key, 1) == key
  {}

  lemma Fewer(i: nat, n: nat, dl: nat)
    requires dl > 0 && i * dl <= n * dl
    ensures i <= n
  {
    if i > n {
      Below(n + 1, i, dl);
      MinusOne(n, dl);
    }
  }

  /** pbkdf2_hmac_sha256 and pbkdf2_hmac_sha512: the whole derived key. */
  method Derive(alg: Algorithm, pass: array<bv8>, salt: array<bv8>, iterations: uint32, key: array<bv8>)
    requires Proper(alg) && key !in {pass, salt} && key.Length / alg.DigestLen() < 0xffff_ffff
    modifies key
    ensures var t := Blocks(alg, pass[..], salt[..], Rounds(iterations), BlocksNeeded(key.Length, alg.DigestLen()));
      key.Length <= |t| && key[..] == t[..key.Length]
    ensures iterations <= 1 ==> SingleHmacs(alg, pass[..], salt[..], key[..])
    ensures iterations <= 1 && key.Length == alg.DigestLen() ==> key[..] == Hmac(alg, pass[..], salt[..] + [0, 0, 0, 1])
  {
    hide F, U, Offset, Derived, Rounds, First, Blocks, BlocksNeeded, LastSize, SingleHmacs, Hmac;
    var dl := alg.DigestLen();
    var count, last := CountBlocks(key.Length, dl);
    ghost var p, s, c := pass[..], salt[..], Rounds(iterations);
    NothingDerived(alg, p, s, c, key[..], count, dl, key.Length);
    var blocknr := 1;
    var off := 0;
    while blocknr <= count
      invariant 1 <= blocknr <= count + 1 && off == Offset(blocknr - 1, count, dl, key.Length)
      invariant Derived(alg, p, s, c, blocknr - 1, key[..], off)
      invariant pass[..] == p && salt[..] == s
    {
      OffsetNext(blocknr - 1, count, dl, last, key.Length);
      off := DeriveBlock(alg, pass, salt, iterations, key, blocknr, off, if blocknr < count then dl else last);
      blocknr := blocknr + 1;
    }
    AllDerived(alg, p, s, c, count, dl, key[..], off);
    if iterations <= 1 {
      OneRound(iterations);
      KeySingle(alg, p, s, count, key[..]);
    }
  }

  lemma OneRound(c: nat)
    ensures c <= 1 ==> Rounds(c) == 1
  {}

  /** One block of the key: whole, or as much of it as is needed. */
  method DeriveBlock(alg: Algorithm, pass: array<bv8>, salt: array<bv8>, iterations: uint32, key: array<bv8>, blocknr: uint32,
                     off: nat, size: nat) returns (next: nat)
    requires Proper(alg) && key !in {pass, salt} && blocknr > 0 && off + size <= key.Length && size <= alg.DigestLen()
    requires off == (blocknr - 1) * alg.DigestLen() && Derived(alg, pass[..], salt[..], Rounds(iterations), blocknr - 1, key[..], off)
    modifies key
    ensures next == off + size && Derived(alg, pass[..], salt[..], Rounds(iterations), blocknr, key[..], next)
  {
    hide Derived, Rounds, First, Blocks, F, U;
    ghost var p, s, before := pass[..], salt[..], key[..];
    var digest := OneKeyBlock(alg, pass, salt, iterations, blocknr);
    CopyInto(key, off, digest, 0, size);
    DerivedNext(alg, p, s, Rounds(iterations), blocknr, before, key[..], off, size);
    next := off + size;
  }

  /** Where the block after the first k starts. */
  function Offset(k: nat, count: nat, dl: nat, n: nat): nat {
    if k >= count then n else k * dl
  }

  /** The first off bytes of the key are those of the first k blocks. */
  ghost predicate Derived(a: Algorithm, p: Bytes, s: Bytes, c: nat, k: nat, key: Bytes, off: nat)
    requires Proper(a) && c > 0
  {
    off <= |key| && off <= k * a.DigestLen() && key[..off] == Blocks(a, p, s, c, k)[..off]
  }

  lemma NothingDerived(a: Algorithm, p: Bytes, s: Bytes, c: nat, key: Bytes, count: nat, dl: nat, n: nat)
    requires Proper(a) && c > 0 && dl > 0 && |key| == n && count == BlocksNeeded(n, dl)
    ensures Derived(a, p, s, c, 0, key, 0) && Offset(0, count, dl, n) == 0
  {
    BlockCount(n, dl);
  }

  lemma AllDerived(a: Algorithm, p: Bytes, s: Bytes, c: nat, count: nat, dl: nat, key: Bytes, off: nat)
    requires Proper(a) && c > 0 && Derived(a, p, s, c, count, key, off) && off == Offset(count, count, dl, |key|)
    ensures |key| <= |Blocks(a, p, s, c, count)| && key == Blocks(a, p, s, c, count)[..|key|]
  {
    assert key[..|key|] == key;
  }

  lemma OffsetNext(k: nat, count: nat, dl: nat, last: nat, n: nat)
    requires k < count && dl > 0
    requires last == LastSize(n, dl) && count == BlocksNeeded(n, dl)
    ensures var size := if k + 1 < count then dl else last;
      size <= dl && Offset(k, count, dl, n) == k * dl && Offset(k + 1, count, dl, n) == Offset(k, count, dl, n) + size <= n
  {
    BlockCount(n, dl);
    BlockEnds(k + 1, count, dl, last, n);
  }

  lemma DerivedNext(a: Algorithm, p: Bytes, s: Bytes, c: nat, k: nat, before: Bytes, key: Bytes, off: nat, size: nat)
    requires Proper(a) && c > 0 && k > 0 && Derived(a, p, s, c, k - 1, before, off) && off == (k - 1) * a.DigestLen()
    requires |key| == |before| && off + size <= |key| && size <= a.DigestLen()
    requires key[..off] == before[..off] && key[off..off + size] == F(a, p, First(s, k), c)[0..size]
    ensures Derived(a, p, s, c, k, key, off + size)
  {
    BlocksNext(a, p, s, c, k, off, size);
    MinusOne(k, a.DigestLen());
    assert key[..off + size] == key[..off] + key[off..off + size];
  }

  /** T_blocknr */
  method OneKeyBlock(alg: Algorithm, pass: array<bv8>, salt: array<bv8>, iterations: uint32, blocknr: uint32) returns (digest: array<bv8>)
    requires Proper(alg)
    ensures fresh(digest) && digest.Length == alg.DigestLen() && digest[..] == F(alg, pass[..], First(salt[..], blocknr), Rounds(iterations))
  {
    hide F, U, First, Midstate, PaddingWords, WordsOf;
    var ctx := new Pbkdf2Context(alg);
    ctx.Init(pass, salt, blocknr);
    ctx.Update(iterations);
    digest := new bv8[alg.DigestLen()];
    ctx.Final(digest);
  }

  lemma BlockCount(n: nat, dl: nat)
    requires dl > 0
    ensures var count := n / dl + (if n % dl != 0 then 1 else 0); count == (n + dl - 1) / dl && count * dl >= n
    ensures n % dl == 0 ==> n / dl * dl == n
    ensures n % dl != 0 ==> n / dl * dl + n % dl == n
  {
    Quotient(n, dl);
    MinusOne(n / dl, dl);
    if n % dl == 0 {
      ModUnique(n + dl - 1, dl, n / dl, dl - 1);
    } else {
      ModUnique(n + dl - 1, dl, n / dl + 1, n % dl - 1);
    }
  }

  /** Every block but the last is whole; the last one ends the key. */
  lemma BlockEnds(blocknr: nat, count: nat, dl: nat, last: nat, n: nat)
    requires 1 <= blocknr <= count && dl > 0
    requires last == (if n % dl != 0 then n % dl else dl) && count == n / dl + (if n % dl != 0 then 1 else 0)
    ensures var size := if blocknr < count then dl else last;
      size <= dl && (blocknr - 1) * dl + size == (if blocknr == count then n else blocknr * dl) <= n && blocknr * dl == (blocknr - 1) * dl + dl
  {
    BlockCount(n, dl);
    MinusOne(blocknr, dl);
    ModLess(n, dl);
    if blocknr < count {
      var whole := if n % dl != 0 then count - 1 else count;
      Below(blocknr, whole, dl);
    } else if n % dl == 0 {
    }
  }

  lemma BlocksNext(a: Algorithm, p: Bytes, s: Bytes, c: nat, n: nat, off: nat, size: nat)
    requires Proper(a) && c > 0 && n > 0 && off == (n - 1) * a.DigestLen() && size <= a.DigestLen()
    ensures off + size <= |Blocks(a, p, s, c, n)|
    ensures Blocks(a, p, s, c, n)[..off + size] == Blocks(a, p, s, c, n - 1)[..off] + F(a, p, First(s, n), c)[..size]
  {
    hide F;
    var t, u := Blocks(a, p, s, c, n - 1), F(a, p, First(s, n), c);
    assert Blocks(a, p, s, c, n) == t + u && |t| == off;
  }
}
