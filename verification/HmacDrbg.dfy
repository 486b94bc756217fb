/** lib/trezor-crypto/hmac_drbg.c and rfc6979.c: the deterministic generator of section 3.2 of
    RFC 6979, run on the midstates of its key and on a value block with the padding in place. */
module HmacDrbg {
  import opened Words
  import opened ModArith
  import opened ByteStrings
  import opened Sha2Spec
  import opened Sha2
  import opened HmacSha2
  import opened Pbkdf2

  // ---------------------------------------------------------------- the definition

  datatype KeyValue = KeyValue(k: Bytes, v: Bytes)

  ghost predicate Sized(a: Algorithm, s: KeyValue) {
    |s.k| == |s.v| == a.DigestLen()
  }

  /** K = HMAC_K(V || domain || data), V = HMAC_K(V) */
  ghost function Mix(a: Algorithm, s: KeyValue, domain: bv8, data: Bytes): (r: KeyValue)
    requires Proper(a)
    ensures Sized(a, r)
  {
    var k := Hmac(a, s.k, s.v + [domain] + data);
    HmacLength(a, s.k, s.v + [domain] + data);
    HmacLength(a, k, s.v);
    KeyValue(k, Hmac(a, k, s.v))
  }

  /** Steps d to g, with the seed given in two parts. */
  ghost function Seeded(a: Algorithm, s: KeyValue, entropy: Bytes, extra: Bytes): (r: KeyValue)
    requires Proper(a)
    ensures Sized(a, r)
  {
    var once := Mix(a, s, 0, entropy + extra);
    if |entropy| == 0 then once else Mix(a, once, 1, entropy + extra)
  }

  function Repeated(b: bv8, n: nat): Bytes {
    seq(n, i => b)
  }

  /** Steps b and c: V = 01 01 ..., K = 00 00 ... */
  function Start(a: Algorithm): KeyValue {
    KeyValue(Repeated(0, a.DigestLen()), Repeated(1, a.DigestLen()))
  }

  /** V after n more steps V = HMAC_K(V). */
  ghost function Next(a: Algorithm, s: KeyValue, n: nat): (r: KeyValue)
    requires Proper(a) && Sized(a, s)
    ensures Sized(a, r) && r.k == s.k
  {
    if n == 0 then s else
    var t := Next(a, s, n - 1);
    HmacLength(a, t.k, t.v);
    KeyValue(t.k, Hmac(a, t.k, t.v))
  }

  /** The values of n steps one after the other. */
  ghost function Output(a: Algorithm, s: KeyValue, n: nat): (o: Bytes)
    requires Proper(a) && Sized(a, s)
    ensures |o| == n * a.DigestLen()
  {
    if n == 0 then [] else Output(a, s, n - 1) + Next(a, s, n).v
  }

  /** Candidate number n of the generation of k for a key and a reduced hash, steps h.2 and h.3. */
  ghost function Candidate(a: Algorithm, key: Bytes, hash: Bytes, n: nat): Bytes
    requires Proper(a)
  {
    Next(a, Stage(a, key, hash, n), 1).v
  }

  /** The state before candidate n. */
  ghost function Stage(a: Algorithm, key: Bytes, hash: Bytes, n: nat): (s: KeyValue)
    requires Proper(a)
    ensures Sized(a, s)
  {
    if n == 0 then Seeded(a, Start(a), key, hash) else Mix(a, Next(a, Stage(a, key, hash, n - 1), 1), 0, [])
  }

  // ---------------------------------------------------------------- blocks

  /** The block for V || 00, as the fast path stores it. */
  lemma FastBlock(a: Algorithm, g: Bytes, d: Bytes)
    requires Proper(a) && Tail(g, a.w, [0, 0x80] + Zeros(a.w - 2), 8 * (a.BlockLen() + a.DigestLen() + 1))
    requires WordsOf(g[..a.DigestLen()], a.w) == d
    ensures |d| == a.DigestLen() && WordsOf(g, a.w) == OneBlock(a, a.BlockLen(), d + [0])
  {
    var bits := 8 * (a.BlockLen() + a.DigestLen() + 1);
    TailBlock(g, a.w, d, [0, 0x80] + Zeros(a.w - 2), bits);
    hide WordsOf, BeBits;
    assert OneBlock(a, a.BlockLen(), d + [0]) == d + ([0, 0x80] + Zeros(a.w - 2) + (Zeros(5 * a.w) + BeBits(bits, 2 * a.w)));
  }

  class Drbg {
    const alg: Algorithm
    const odig: array<bv8>
    const idig: array<bv8>
    const v: array<bv8>
    ghost var key: Bytes

    ghost predicate Shape()
      reads this
    {
      Proper(alg) && odig.Length == idig.Length == alg.DigestLen() && v.Length == alg.BlockLen() && odig !in {idig, v} && idig != v
    }

    /** The midstates are those of the key, and the padding of the value block is in place. */
    ghost predicate Valid()
      reads this, odig, idig, v
    {
      && Shape() && |key| == alg.DigestLen() && PaddingWords(alg, v[..])
      && WordsOf(odig[..], alg.w) == Midstate(alg, key, OPAD) && WordsOf(idig[..], alg.w) == Midstate(alg, key, IPAD)
    }

    ghost function State(): KeyValue
      requires Shape()
      reads this, v
    {
      KeyValue(key, WordsOf(v[..alg.DigestLen()], alg.w))
    }

    ghost predicate In(s: KeyValue)
      reads this, odig, idig, v
    {
      Valid() && State() == s && Sized(alg, s)
    }

    /** update_v */
    method UpdateV(ghost s: KeyValue)
      requires In(s)
      modifies v
      ensures In(Next(alg, s, 1))
    {
      hide WordsOf, OneBlock, Midstate, PaddingWords;
      OneNext(alg, s);
      Step(idig);
      Step(odig);
    }

    /** One compression of the value block with a midstate. */
    method Step(dig: array<bv8>)
      requires Shape() && PaddingWords(alg, v[..]) && dig != v && dig.Length == alg.DigestLen()
      modifies v
      ensures PaddingWords(alg, v[..])
      ensures var d := WordsOf(old(v[..alg.DigestLen()]), alg.w);
        |d| == alg.DigestLen() && WordsOf(v[..alg.DigestLen()], alg.w) == alg.compress(WordsOf(dig[..], alg.w), OneBlock(alg, alg.BlockLen(), d))
    {
      hide WordsOf, OneBlock;
      ghost var s, k := v[..], dig[..];
      PaddedIs(alg, s, WordsOf(s[..alg.DigestLen()], alg.w));
      assert v[..alg.DigestLen()] == s[..alg.DigestLen()] && dig[..alg.DigestLen()] == k;
      Transform(alg, dig, v, v);
      assert v[..][alg.DigestLen()..] == v[alg.DigestLen()..] == s[alg.DigestLen()..];
      KeepTail(alg, s, v[..]);
    }

    /** update_k: K = HMAC_K(V || domain || data1 || data2); without data a single compression does. */
    method UpdateK(domain: bv8, data1: array<bv8>, data2: array<bv8>, ghost s: KeyValue)
      requires In(s) && {data1, data2} !! {odig, idig, v} && (data1.Length + data2.Length == 0 ==> domain == 0)
      modifies this`key, odig, idig, v
      ensures In(KeyValue(Hmac(alg, s.k, s.v + [domain] + (data1[..] + data2[..])), s.v))
    {
      hide WordsOf, OneBlock, Midstate, PaddingWords, HashFrom, Tail, Key0, BeBits;
      ghost var m := s.v + [domain] + (data1[..] + data2[..]);
      HmacFromMidstates(alg, s.k, m);
      var h := new bv8[alg.BlockLen()](i => 0);
      assert h[alg.DigestLen()..] == Zeros(alg.DigestLen());
      if data1.Length + data2.Length == 0 {
        assert m == s.v + [0];
        FastInner(h, s);
      } else {
        SlowInner(h, domain, data1, data2, s);
      }
      NewKey(h);
      key := Hmac(alg, s.k, m);
    }

    /** The inner hash of V || 00, with the padding words changed for the moment. */
    method FastInner(h: array<bv8>, ghost s: KeyValue)
      requires In(s) && h.Length == alg.BlockLen() && h !in {odig, idig, v} && h[alg.DigestLen()..] == Zeros(alg.DigestLen())
      modifies h, v
      ensures In(s) && h[alg.DigestLen()..] == Zeros(alg.DigestLen()) && alg.BlockLen() % alg.BlockLen() == 0
      ensures WordsOf(h[..alg.DigestLen()], alg.w) == HashFrom(alg, Midstate(alg, s.k, IPAD), alg.BlockLen(), s.v + [0])
    {
      var w := alg.w;
      assert v[9 * w..15 * w] == Zeros(6 * w) && v[..8 * w] == v[..alg.DigestLen()];
      hide WordsOf, OneBlock, Midstate, HashFrom, BeBits, Reversed;
      ghost var x := v[..alg.DigestLen()];
      PutTail(v, w, [0, 0x80] + Zeros(w - 2), 8 * (alg.BlockLen() + alg.DigestLen() + 1));
      assert v[..][..alg.DigestLen()] == x;
      FastBlock(alg, v[..], s.v);
      ModUnique(alg.BlockLen(), alg.BlockLen(), 1, 0);
      HashOneBlock(alg, Midstate(alg, s.k, IPAD), alg.BlockLen(), s.v + [0]);
      assert idig[..alg.DigestLen()] == idig[..];
      Transform(alg, idig, v, h);
      assert v[9 * w..15 * w] == Zeros(6 * w);
      PutTail(v, w, [0x80] + Zeros(w - 1), 8 * (alg.BlockLen() + alg.DigestLen()));
      assert v[..alg.DigestLen()] == v[..8 * w] == x;
    }

    /** The inner hash by the streaming context, set up with V and the domain byte pending. */
    method SlowInner(h: array<bv8>, domain: bv8, data1: array<bv8>, data2: array<bv8>, ghost s: KeyValue)
      requires In(s) && h.Length == alg.BlockLen() && h !in {odig, idig, v, data1, data2} && h[alg.DigestLen()..] == Zeros(alg.DigestLen())
      modifies h
      ensures h[alg.DigestLen()..] == Zeros(alg.DigestLen()) && alg.BlockLen() % alg.BlockLen() == 0
      ensures WordsOf(h[..alg.DigestLen()], alg.w) ==
        HashFrom(alg, Midstate(alg, s.k, IPAD), alg.BlockLen(), s.v + [domain] + (data1[..] + data2[..]))
    {
      hide WordsOf, Midstate, HashFrom, Context.Valid, PaddingWords;
      ghost var rest := h[alg.DigestLen()..];
      ModUnique(alg.BlockLen(), alg.BlockLen(), 1, 0);
      var ctx := new Context.Resume(alg, WordsOf(idig[..], alg.w), alg.BlockLen(), WordsOf(v[..alg.DigestLen()], alg.w) + [domain]);
      ctx.Update(data1);
      ctx.Update(data2);
      assert s.v + [domain] + data1[..] + data2[..] == s.v + [domain] + (data1[..] + data2[..]);
      ctx.Final(h);
      ghost var d := h[..alg.DigestLen()];
      ReverseWords(h, 8, alg.w);
      assert h[..8 * alg.w] == h[..alg.DigestLen()] && h[8 * alg.w..] == h[alg.DigestLen()..];
      WordsTwice(d, alg.w);
    }

    /** The outer hash, and the midstates of the key that results. */
    method NewKey(h: array<bv8>)
      requires Shape() && h.Length == alg.BlockLen() && h !in {odig, idig, v} && h[alg.DigestLen()..] == Zeros(alg.DigestLen())
      modifies h, odig, idig
      ensures var inner := WordsOf(old(h[..alg.DigestLen()]), alg.w);
        var k := alg.compress(WordsOf(old(odig[..]), alg.w), OneBlock(alg, alg.BlockLen(), inner));
        && |inner| == alg.DigestLen() && WordsOf(odig[..], alg.w) == Midstate(alg, k, OPAD) && WordsOf(idig[..], alg.w) == Midstate(alg, k, IPAD)
    {
      hide WordsOf, OneBlock, Midstate, BeBits, Reversed;
      var w := alg.w;
      ghost var x, o := h[..alg.DigestLen()], odig[..];
      TailSlice(h[..], 8 * w, w, 7 * w);
      ZerosPart(8 * w, w, 7 * w);
      assert h[8 * w..] == Zeros(8 * w);
      assert h[..][8 * w..] == h[8 * w..] && h[..][9 * w..15 * w] == h[9 * w..15 * w];
      assert h[..8 * w] == x;
      PutTail(h, w, [0x80] + Zeros(w - 1), 8 * (alg.BlockLen() + alg.DigestLen()));
      assert h[..][..alg.DigestLen()] == h[..8 * w] == x;
      PaddedIs(alg, h[..], WordsOf(x, w));
      assert odig[..alg.DigestLen()] == o;
      Transform(alg, odig, h, h);
      ghost var k := WordsOf(h[..alg.DigestLen()], w);
      ClearBits(h, alg.DigestLen(), alg.BlockLen());
      assert h[alg.DigestLen()..] == h[alg.DigestLen()..alg.BlockLen()];
      Midstates(alg, h, odig, idig, k);
    }

    constructor (alg: Algorithm)
      requires Proper(alg)
      ensures Shape() && this.alg == alg && fresh(odig) && fresh(idig) && fresh(v)
    {
      this.alg := alg;
      odig, idig, v := new bv8[alg.DigestLen()], new bv8[alg.DigestLen()], new bv8[alg.BlockLen()];
      key := [];
    }

    /** update_k and update_v, one after the other. */
    method Update(domain: bv8, data1: array<bv8>, data2: array<bv8>, ghost s: KeyValue)
      requires In(s) && {data1, data2} !! {odig, idig, v} && (data1.Length + data2.Length == 0 ==> domain == 0)
      modifies this`key, odig, idig, v
      ensures In(Mix(alg, s, domain, data1[..] + data2[..]))
    {
      hide WordsOf, Midstate, PaddingWords, Hmac;
      UpdateK(domain, data1, data2, s);
      ghost var t := KeyValue(Hmac(alg, s.k, s.v + [domain] + (data1[..] + data2[..])), s.v);
      UpdateV(t);
      NextIs(alg, t);
    }

    /** hmac_drbg_reseed */
    method Reseed(entropy: array<bv8>, addin: array<bv8>, ghost s: KeyValue)
      requires In(s) && {entropy, addin} !! {odig, idig, v}
      modifies this`key, odig, idig, v
      ensures In(Seeded(alg, s, entropy[..], addin[..]))
    {
      hide WordsOf, Midstate, PaddingWords, Mix;
      Update(0, entropy, addin, s);
      if entropy.Length == 0 {
        return;
      }
      Update(1, entropy, addin, Mix(alg, s, 0, entropy[..] + addin[..]));
    }

    /** hmac_drbg_init */
    method Init(entropy: array<bv8>, nonce: array<bv8>)
      requires Shape() && {entropy, nonce} !! {odig, idig, v}
      modifies this`key, odig, idig, v
      ensures In(Seeded(alg, Start(alg), entropy[..], nonce[..]))
    {
      hide WordsOf, Midstate, BeBits, Reversed, Seeded;
      var w := alg.w;
      var h := new bv8[alg.BlockLen()](i => 0);
      var zero := Repeated(0, alg.DigestLen());
      AllRepeated(alg, h[..]);
      Midstates(alg, h, odig, idig, zero);
      key := zero;
      ClearBits(v, 0, alg.BlockLen());
      assert v[..] == v[0..alg.BlockLen()];
      assert v[9 * w..15 * w] == Zeros(6 * w) by { ZerosPart(alg.BlockLen(), 9 * w, 15 * w); }
      Fill(1);
      PutTail(v, w, [0x80] + Zeros(w - 1), 8 * (alg.BlockLen() + alg.DigestLen()));
      assert v[..alg.DigestLen()] == v[..8 * w];
      RepeatedWords(1, alg.DigestLen(), w);
      Reseed(entropy, nonce, Start(alg));
    }

    /** memset of the value. */
    method Fill(b: bv8)
      requires Shape()
      modifies v
      ensures v[..8 * alg.w] == Repeated(b, 8 * alg.w) && v[9 * alg.w..15 * alg.w] == old(v[9 * alg.w..15 * alg.w])
    {
      for k := 0 to 8 * alg.w
        invariant forall i :: 0 <= i < k ==> v[i] == b
        invariant v[9 * alg.w..15 * alg.w] == old(v[9 * alg.w..15 * alg.w])
      {
        v[k] := b;
      }
    }

    /** hmac_drbg_generate: as many steps as the buffer needs, then the key is updated. */
    method Generate(buf: array<bv8>, ghost s: KeyValue) returns (ghost n: nat)
      requires Shape() && Sized(alg, s) && In(s) && buf !in {odig, idig, v}
      modifies this`key, odig, idig, v, buf
      ensures n * alg.DigestLen() >= buf.Length && (n > 0 ==> (n - 1) * alg.DigestLen() < buf.Length)
      ensures buf[..] == Output(alg, s, n)[..buf.Length] && In(Mix(alg, Next(alg, s, n), 0, []))
    {
      hide WordsOf, Midstate, PaddingWords, Mix, Next, Output, In;
      var i := 0;
      n := 0;
      NothingOut(alg, s);
      while i < buf.Length
        invariant i <= buf.Length && i == (if n * alg.DigestLen() <= buf.Length then n * alg.DigestLen() else buf.Length)
        invariant n > 0 ==> (n - 1) * alg.DigestLen() < buf.Length
        invariant buf[..i] == Output(alg, s, n)[..i] && In(Next(alg, s, n)) && |Output(alg, s, n)| == n * alg.DigestLen()
        decreases buf.Length - i
      {
        i := Emit(buf, i, s, n);
        n := n + 1;
      }
      assert buf[..i] == buf[..];
      var empty := new bv8[0];
      assert empty[..] + empty[..] == [];
      Update(0, empty, empty, Next(alg, s, n));
    }

    /** One more value, most significant bytes of the words first, as far as there is room. */
    method Emit(buf: array<bv8>, i0: nat, ghost s: KeyValue, ghost n: nat) returns (i: nat)
      requires Shape() && Sized(alg, s) && In(Next(alg, s, n)) && buf !in {odig, idig, v} && i0 == n * alg.DigestLen() < buf.Length
      requires buf[..i0] == Output(alg, s, n)[..i0]
      modifies v, buf
      ensures In(Next(alg, s, n + 1)) && (n + 1) * alg.DigestLen() == i0 + alg.DigestLen()
      ensures i == (if i0 + alg.DigestLen() <= buf.Length then i0 + alg.DigestLen() else buf.Length)
      ensures |Output(alg, s, n + 1)| == i0 + alg.DigestLen() && buf[..i] == Output(alg, s, n + 1)[..i]
    {
      hide WordsOf, Midstate, PaddingWords, Next;
      OutputNext(alg, s, n);
      NextOne(alg, s, n);
      MinusOne(n, alg.DigestLen());
      UpdateV(Next(alg, s, n));
      var value := WordsOf(v[..alg.DigestLen()], alg.w);
      var room := if alg.DigestLen() <= buf.Length - i0 then alg.DigestLen() else buf.Length - i0;
      ghost var head := buf[..i0];
      for k := 0 to room
        invariant buf[..i0] == head && buf[i0..i0 + k] == value[..k] && In(Next(alg, s, n + 1))
      {
        buf[i0 + k] := value[k];
        assert buf[i0..i0 + (k + 1)] == value[..k] + [value[k]];
      }
      i := i0 + room;
      assert buf[..i] == buf[..i0] + buf[i0..i];
    }
  }

  lemma NextIs(a: Algorithm, t: KeyValue)
    requires Proper(a) && Sized(a, t)
    ensures Next(a, t, 1) == KeyValue(t.k, Hmac(a, t.k, t.v))
  {
    assert Next(a, t, 0) == t;
  }

  lemma NextOne(a: Algorithm, s: KeyValue, n: nat)
    requires Proper(a) && Sized(a, s)
    ensures Next(a, s, n + 1) == Next(a, Next(a, s, n), 1)
  {
    NextIs(a, Next(a, s, n));
  }

  lemma NothingOut(a: Algorithm, s: KeyValue)
    requires Proper(a) && Sized(a, s)
    ensures Output(a, s, 0) == [] && Next(a, s, 0) == s
  {}

  lemma OutputNext(a: Algorithm, s: KeyValue, n: nat)
    requires Proper(a) && Sized(a, s)
    ensures Output(a, s, n + 1) == Output(a, s, n) + Next(a, s, n + 1).v && |Output(a, s, n)| == n * a.DigestLen()
  {}

  lemma RepeatedWords(b: bv8, n: nat, w: nat)
    requires w > 0
    ensures WordsOf(Repeated(b, n), w) == Repeated(b, n)
    decreases n
  {
    if n >= w {
      RepeatedWords(b, n - w, w);
      assert Repeated(b, n)[w..] == Repeated(b, n - w) && Reversed(Repeated(b, n)[..w]) == Repeated(b, w);
      assert Repeated(b, w) + Repeated(b, n - w) == Repeated(b, n);
    }
  }

  lemma ZerosPart(n: nat, i: nat, j: nat)
    requires i <= j <= n
    ensures Zeros(n)[i..j] == Zeros(j - i)
  {}

  lemma AllRepeated(a: Algorithm, m: Bytes)
    requires Proper(a) && |m| == a.BlockLen() && forall i :: 0 <= i < |m| ==> m[i] == 0
    ensures WordsOf(m[..a.DigestLen()], a.w) == Repeated(0, a.DigestLen()) && m[a.DigestLen()..] == Zeros(a.DigestLen())
  {
    RepeatedWords(0, a.DigestLen(), a.w);
    assert m[..a.DigestLen()] == Repeated(0, a.DigestLen());
  }

  /** The key, in the first half of a block of zeros, becomes the two midstates. */
  method Midstates(a: Algorithm, h: array<bv8>, odig: array<bv8>, idig: array<bv8>, ghost k: Bytes)
    requires Proper(a) && h.Length == a.BlockLen() && odig.Length == idig.Length == a.DigestLen() && odig !in {idig, h} && idig != h
    requires |k| == a.DigestLen() && WordsOf(h[..a.DigestLen()], a.w) == k && h[a.DigestLen()..] == Zeros(a.DigestLen())
    modifies h, odig, idig
    ensures WordsOf(odig[..], a.w) == Midstate(a, k, OPAD) && WordsOf(idig[..], a.w) == Midstate(a, k, IPAD)
  {
    hide WordsOf, XorByte;
    ghost var m := h[..];
    BlockOfKey(a, m, k);
    var iv := Initial(a);
    XorAll(h, IPAD);
    WordsOfPad(m, IPAD, a.w);
    assert iv[..a.DigestLen()] == iv[..];
    Transform(a, iv, h, idig);
    assert idig[..a.DigestLen()] == idig[..];
    XorAll(h, IPAD);
    PadTwice(m, IPAD);
    XorAll(h, OPAD);
    WordsOfPad(m, OPAD, a.w);
    Transform(a, iv, h, odig);
    assert odig[..a.DigestLen()] == odig[..];
  }

  lemma WordsOfPad(m: Bytes, x: bv8, w: nat)
    requires w > 0
    ensures WordsOf(Pad(m, x), w) == Pad(WordsOf(m, w), x)
  {
    WordsPad(WordsOf(m, w), x, w);
    WordsTwice(m, w);
  }

  lemma BlockOfKey(a: Algorithm, m: Bytes, k: Bytes)
    requires Proper(a) && |m| == a.BlockLen() && |k| == a.DigestLen()
    requires WordsOf(m[..a.DigestLen()], a.w) == k && m[a.DigestLen()..] == Zeros(a.DigestLen())
    ensures WordsOf(m, a.w) == Key0(a, k)
  {
    ModUnique(a.DigestLen(), a.w, 8, 0);
    ZeroWords(a.DigestLen(), a.w);
    hide WordsOf;
    assert m == m[..a.DigestLen()] + m[a.DigestLen()..];
    WordsConcat(m[..a.DigestLen()], m[a.DigestLen()..], a.w);
  }

  lemma OneNext(a: Algorithm, s: KeyValue)
    requires Proper(a) && Sized(a, s)
    ensures var inner := a.compress(Midstate(a, s.k, IPAD), OneBlock(a, a.BlockLen(), s.v));
      |inner| == a.DigestLen() && Next(a, s, 1) == KeyValue(s.k, a.compress(Midstate(a, s.k, OPAD), OneBlock(a, a.BlockLen(), inner)))
  {
    TwoTransforms(a, s.k, s.v);
    hide Hmac, Midstate, OneBlock;
    assert Next(a, s, 0) == s;
  }

  // ---------------------------------------------------------------- candidates

  /** A buffer of one value takes exactly one step. */
  lemma OneValue(a: Algorithm, s: KeyValue, n: nat)
    requires Proper(a) && Sized(a, s) && n * a.DigestLen() >= a.DigestLen() && (n > 0 ==> (n - 1) * a.DigestLen() < a.DigestLen())
    ensures n == 1 && Output(a, s, 1) == Next(a, s, 1).v
  {
    assert 0 * a.DigestLen() == 0;
    if n > 1 {
      Below(1, n - 1, a.DigestLen());
    }
    OutputNext(a, s, 0);
    NothingOut(a, s);
    assert [] + Next(a, s, 1).v == Next(a, s, 1).v;
  }

  /** generate_rfc6979: the next candidate. */
  method GenerateCandidate(drbg: Drbg, buf: array<bv8>, ghost key: Bytes, ghost hash: Bytes, ghost n: nat)
    requires drbg.Shape() && drbg.In(Stage(drbg.alg, key, hash, n)) && buf.Length == drbg.alg.DigestLen()
    requires buf !in {drbg.odig, drbg.idig, drbg.v}
    modifies drbg`key, drbg.odig, drbg.idig, drbg.v, buf
    ensures buf[..] == Candidate(drbg.alg, key, hash, n) && drbg.In(Stage(drbg.alg, key, hash, n + 1))
  {
    hide WordsOf, Midstate, PaddingWords, Mix, Next, Output, Drbg.In;
    ghost var s := Stage(drbg.alg, key, hash, n);
    ghost var steps := drbg.Generate(buf, s);
    OneValue(drbg.alg, s, steps);
    assert Output(drbg.alg, s, 1)[..buf.Length] == Next(drbg.alg, s, 1).v;
  }
}
