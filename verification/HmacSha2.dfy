/** lib/trezor-crypto/hmac.c: HMAC with SHA-256 and SHA-512, and the midstates prepared from a key. */
module HmacSha2 {
  import opened Words
  import opened ModArith
  import opened ByteStrings
  import opened Sha2Spec
  import opened Sha2

  /** sha256_Raw and sha512_Raw; the digest goes to the start of the buffer given. */
  method Raw(alg: Algorithm, d: array<bv8>, digest: array<bv8>)
    requires Proper(alg) && d != digest && digest.Length >= alg.DigestLen()
    modifies digest
    ensures digest[..alg.DigestLen()] == Hash(alg, d[..]) && digest[alg.DigestLen()..] == old(digest[alg.DigestLen()..])
  {
    hide HashFrom;
    ModUnique(0, alg.BlockLen(), 0, 0);
    var ctx := new Context(alg, alg.iv, 0);
    ctx.Update(d);
    assert [] + d[..] == d[..];
    ctx.Final(digest);
  }

  /** The key, hashed if it is longer than a block, filled up with zeros. */
  method KeyBlock(alg: Algorithm, key: array<bv8>) returns (k: array<bv8>)
    requires Proper(alg)
    ensures fresh(k) && k.Length == alg.BlockLen() && k[..] == Key0(alg, key[..])
  {
    hide Hash;
    k := new bv8[alg.BlockLen()](i => 0);
    if key.Length > alg.BlockLen() {
      Raw(alg, key, k);
      assert k[..] == k[..alg.DigestLen()] + k[alg.DigestLen()..];
      assert k[alg.DigestLen()..] == Zeros(alg.BlockLen() - alg.DigestLen());
    } else {
      CopyInto(k, 0, key, 0, key.Length);
      assert key[0..key.Length] == key[..] && k[..key.Length] == k[0..key.Length];
      assert k[key.Length..] == k[0 + key.Length..] == Zeros(alg.BlockLen() - key.Length);
      assert k[..] == k[..key.Length] + k[key.Length..];
    }
  }

  method XorAll(k: array<bv8>, x: bv8)
    modifies k
    ensures k[..] == Pad(old(k[..]), x)
  {
    hide XorByte;
    ghost var s := k[..];
    for i := 0 to k.Length
      invariant forall j :: 0 <= j < k.Length ==> k[j] == if j < i then XorByte(s[j], x) else s[j]
    {
      k[i] := XorByte(k[i], x);
    }
  }

  /** The outer hash, in place. */
  method Outer(alg: Algorithm, oKeyPad: array<bv8>, hmac: array<bv8>)
    requires Proper(alg) && hmac.Length == alg.DigestLen() && hmac != oKeyPad
    modifies hmac
    ensures hmac[..] == Hash(alg, oKeyPad[..] + old(hmac[..]))
  {
    hide HashFrom, Context.Valid;
    ghost var o, ih := oKeyPad[..], hmac[..];
    ModUnique(0, alg.BlockLen(), 0, 0);
    var ctx := new Context(alg, alg.iv, 0);
    ctx.Update(oKeyPad);
    ctx.Update(hmac);
    assert [] + o + ih == o + ih;
    ctx.Final(hmac);
    assert hmac[..alg.DigestLen()] == hmac[..];
  }

  /** A hash context that has taken in the key pad. */
  method AfterPad(alg: Algorithm, pad: array<bv8>) returns (ctx: Context)
    requires Proper(alg)
    ensures fresh(ctx) && fresh(ctx.state) && fresh(ctx.buffer) && ctx.Valid()
    ensures ctx.alg == alg && ctx.st == alg.iv && ctx.pre == 0 && ctx.data == pad[..]
  {
    hide Context.Valid;
    ModUnique(0, alg.BlockLen(), 0, 0);
    ctx := new Context(alg, alg.iv, 0);
    ctx.Update(pad);
    assert [] + pad[..] == pad[..];
  }

  class HmacContext {
    const alg: Algorithm
    const oKeyPad: array<bv8>
    var ctx: Context
    ghost const key: Bytes

    ghost predicate Valid()
      reads this, ctx, ctx.state, ctx.buffer, oKeyPad
    {
      && Proper(alg) && oKeyPad.Length == alg.BlockLen() && oKeyPad[..] == Pad(Key0(alg, key), OPAD)
      && ctx.Valid() && ctx.alg == alg && ctx.st == alg.iv && ctx.pre == 0 && oKeyPad !in {ctx.state, ctx.buffer}
      && |ctx.data| >= alg.BlockLen() && ctx.data[..alg.BlockLen()] == Pad(Key0(alg, key), IPAD)
    }

    /** The message so far. */
    ghost function Message(): Bytes
      requires Valid()
      reads this, ctx, ctx.state, ctx.buffer, oKeyPad
    {
      ctx.data[alg.BlockLen()..]
    }

    /** hmac_sha256_Init and hmac_sha512_Init */
    constructor (alg: Algorithm, keyBytes: array<bv8>)
      requires Proper(alg)
      ensures Valid() && this.alg == alg && key == keyBytes[..] && Message() == []
      ensures fresh(oKeyPad) && fresh(ctx) && fresh(ctx.state) && fresh(ctx.buffer)
    {
      hide Key0, Pad, Context.Valid;
      ghost var k := Key0(alg, keyBytes[..]);
      var iKeyPad := KeyBlock(alg, keyBytes);
      var outer := KeyBlock(alg, keyBytes);
      XorAll(outer, OPAD);
      XorAll(iKeyPad, IPAD);
      var inner := AfterPad(alg, iKeyPad);
      this.alg, oKeyPad, ctx, key := alg, outer, inner, keyBytes[..];
    }

    method Update(msg: array<bv8>)
      requires Valid() && msg !in {oKeyPad, ctx.state, ctx.buffer}
      modifies ctx`count, ctx`data, ctx.state, ctx.buffer
      ensures Valid() && Message() == old(Message()) + msg[..]
    {
      hide Key0;
      ctx.Update(msg);
    }

    /** hmac_sha256_Final and hmac_sha512_Final */
    method Final(hmac: array<bv8>)
      requires Valid() && hmac.Length == alg.DigestLen() && hmac !in {oKeyPad, ctx.state, ctx.buffer}
      modifies ctx`count, ctx.state, ctx.buffer, hmac
      ensures hmac[..] == Hmac(alg, key, old(Message()))
    {
      hide HashFrom, Key0;
      ghost var m, inner := Message(), ctx.data;
      assert inner == Pad(Key0(alg, key), IPAD) + m;
      ctx.Final(hmac);
      assert hmac[..alg.DigestLen()] == hmac[..];
      Outer(alg, oKeyPad, hmac);
    }
  }

  /** hmac_sha256_prepare and hmac_sha512_prepare: the midstates after the two key pads. */
  method Prepare(alg: Algorithm, key: array<bv8>, opadDigest: array<bv8>, ipadDigest: array<bv8>)
    requires Proper(alg) && opadDigest.Length == ipadDigest.Length == alg.DigestLen()
    requires opadDigest != ipadDigest && key !in {opadDigest, ipadDigest}
    modifies opadDigest, ipadDigest
    ensures WordsOf(opadDigest[..], alg.w) == Midstate(alg, key[..], OPAD)
    ensures WordsOf(ipadDigest[..], alg.w) == Midstate(alg, key[..], IPAD)
  {
    hide Key0, WordsOf, XorByte;
    var keyPad := KeyBlock(alg, key);
    var iv := Initial(alg);
    ghost var k := keyPad[..];
    ReverseWords(keyPad, 16, alg.w);
    assert keyPad[..16 * alg.w] == keyPad[..] && k[..16 * alg.w] == k;
    XorAll(keyPad, OPAD);
    WordsPad(k, OPAD, alg.w);
    assert iv[..alg.DigestLen()] == iv[..];
    Transform(alg, iv, keyPad, opadDigest);
    assert opadDigest[..alg.DigestLen()] == opadDigest[..];
    XorAll(keyPad, OPAD);
    XorAll(keyPad, IPAD);
    PadTwice(WordsOf(k, alg.w), OPAD);
    WordsPad(k, IPAD, alg.w);
    assert iv[..alg.DigestLen()] == iv[..];
    Transform(alg, iv, keyPad, ipadDigest);
    assert ipadDigest[..alg.DigestLen()] == ipadDigest[..];
  }

  /** sha256_initial_hash_value in memory. */
  method Initial(alg: Algorithm) returns (iv: array<bv8>)
    requires Proper(alg)
    ensures fresh(iv) && iv.Length == alg.DigestLen() && WordsOf(iv[..], alg.w) == alg.iv
  {
    var mem := WordsOf(alg.iv, alg.w);
    iv := new bv8[alg.DigestLen()](i requires 0 <= i < |mem| => mem[i]);
    assert iv[..] == mem;
    WordsTwice(alg.iv, alg.w);
  }

  /** The pad does not mind the order of the bytes. */
  lemma {:induction false} WordsPad(k: Bytes, x: bv8, w: nat)
    requires w > 0
    ensures WordsOf(Pad(WordsOf(k, w), x), w) == Pad(k, x)
    decreases |k|
  {
    hide XorByte;
    if |k| >= w {
      WordsPad(k[w..], x, w);
      PadParts(Reversed(k[..w]), WordsOf(k[w..], w), x);
      PadParts(k[..w], k[w..], x);
      assert k[..w] + k[w..] == k;
      PadReversed(k[..w], x);
      hide Pad, Reversed;
      var p, q := Pad(Reversed(k[..w]), x), Pad(WordsOf(k[w..], w), x);
      assert (p + q)[..w] == p && (p + q)[w..] == q;
    }
  }

  lemma PadParts(a: Bytes, b: Bytes, x: bv8)
    ensures Pad(a + b, x) == Pad(a, x) + Pad(b, x)
  {
    hide XorByte;
  }

  lemma PadReversed(a: Bytes, x: bv8)
    ensures Reversed(Pad(Reversed(a), x)) == Pad(a, x)
  {
    hide XorByte;
  }

  lemma PadTwice(k: Bytes, x: bv8)
    ensures Pad(Pad(k, x), x) == k
  {
    forall i | 0 <= i < |k| ensures XorByte(XorByte(k[i], x), x) == k[i] {
      XorTwice(k[i], x);
    }
    hide XorByte;
  }
}
