/** The counter blocks of lib/trezor-crypto/aes/aesgcm.c, spelled out: which block is encrypted for which
    byte of the text, and that the block that masks the tag is not among them. */
module GcmCounter {
  import opened Words
  import opened ByteStrings
  import opened Gf128
  import opened GfMul
  import opened GcmSpec

  predicate Full(b: bv8) {
    b == 0xff
  }

  lemma IncBytes(b: Block, w: bv32)
    requires w == CounterWord(b)
    ensures ByteOf(Next(w), 0) == Succ(b[15])
    ensures ByteOf(Next(w), 1) == if Full(b[15]) then Succ(b[14]) else b[14]
    ensures ByteOf(Next(w), 2) == if Full(b[15]) && Full(b[14]) then Succ(b[13]) else b[13]
    ensures ByteOf(Next(w), 3) == if Full(b[15]) && Full(b[14]) && Full(b[13]) then Succ(b[12]) else b[12]
  {}

  lemma IncIs(b: Block)
    ensures Inc(b) == b[..12] + [if Full(b[15]) && Full(b[14]) && Full(b[13]) then Succ(b[12]) else b[12],
      if Full(b[15]) && Full(b[14]) then Succ(b[13]) else b[13], if Full(b[15]) then Succ(b[14]) else b[14], Succ(b[15])]
  {
    IncBytes(b, CounterWord(b));
    hide ByteOf, CounterWord, Succ, Full, Next;
  }

  /** Twelve bytes and a number in four, most significant first. */
  function Numbered(s: seq<bv8>, n: nat): (b: Block)
    requires |s| == 12
  {
    s + BeBits(n, 4)
  }

  lemma Numbers(s: seq<bv8>)
    requires |s| == 12
    ensures Numbered(s, 1) == s + [0, 0, 0, 1] && Numbered(s, 2) == s + [0, 0, 0, 2]
  {
    Bits1(1);
    Bits1(2);
    hide BeBits;
  }

  lemma Bits1(b: nat)
    requires b in {1, 2}
    ensures BeBits(b, 4) == [0, 0, 0, if b == 1 then 1 else 2]
  {
    BitsNext(b, 4);
    BitsNext(0, 3);
    BitsNext(0, 2);
    BitsNext(0, 1);
    NoBits(0);
    hide BeBits;
  }

  /** inc_32 adds one to the last four bytes as a number, modulo 2^32. */
  lemma IncAdds(b: Block, v: nat)
    requires b[12..] == BeBits(v, 4)
    ensures Inc(b) == b[..12] + BeBits(v + 1, 4)
  {
    IncIs(b);
    IncrementIs(v, 4);
    var s := b[12..];
    assert s[..3][..2][..1] == [b[12]] && s[..3][..2] == [b[12], b[13]] && s[..3] == [b[12], b[13], b[14]];
    LastFour(b[12], b[13], b[14], b[15]);
    assert s == [b[12], b[13], b[14], b[15]];
    hide Inc, BeBits, Succ, Increment, Full;
  }

  lemma LastFour(b0: bv8, b1: bv8, b2: bv8, b3: bv8)
    ensures Increment([b0, b1, b2, b3]) == [if Full(b3) && Full(b2) && Full(b1) then Succ(b0) else b0,
      if Full(b3) && Full(b2) then Succ(b1) else b1, if Full(b3) then Succ(b2) else b2, Succ(b3)]
  {
    hide Succ;
    assert [b0, b1, b2, b3][..3] == [b0, b1, b2] && [b0, b1, b2][..2] == [b0, b1] && [b0, b1][..1] == [b0] && [b0][..0] == [];
    FullSucc(b0);
    FullSucc(b1);
    FullSucc(b2);
    FullSucc(b3);
    assert Increment([b0]) == [Succ(b0)];
    assert Increment([b0, b1]) == [if Full(b1) then Succ(b0) else b0, Succ(b1)];
    assert Increment([b0, b1, b2]) == [if Full(b2) && Full(b1) then Succ(b0) else b0, if Full(b2) then Succ(b1) else b1, Succ(b2)];
  }

  lemma FullSucc(b: bv8)
    ensures Full(b) <==> b == 0xff
    ensures Full(b) ==> Succ(b) == 0
  {}

  /** Counter block n: the last word of J0 plus n. */
  lemma {:induction false} CounterSpelled(j0: Block, v: nat, n: nat)
    requires j0[12..] == BeBits(v, 4)
    ensures Counter(j0, n) == j0[..12] + BeBits(v + n, 4)
  {
    hide Inc, BeBits;
    if n > 0 {
      CounterSpelled(j0, v, n - 1);
      IncAdds(Counter(j0, n - 1), v + (n - 1));
    } else {
      assert j0 == j0[..12] + j0[12..];
    }
  }

  /** Byte i of what is encrypted: block i / 16 is encrypted under the last word of J0 plus i / 16 + 1. */
  lemma GctrSpelled(aes: Cipher, j0: Block, v: nat, off: nat, d: seq<bv8>, i: nat)
    requires j0[12..] == BeBits(v, 4) && i < |d|
    ensures Gctr(aes, j0, off, d)[i] == d[i] ^ aes(Numbered(j0[..12], v + (off + i) / 16 + 1))[(off + i) % 16]
  {
    CounterSpelled(j0, v, (off + i) / 16 + 1);
    hide Counter, BeBits;
  }

  lemma AllSpelled(aes: Cipher, j0: Block, off: nat, d: seq<bv8>)
    ensures var c := Gctr(aes, j0, off, d);
      forall v: nat, i :: j0[12..] == BeBits(v, 4) && 0 <= i < |d| ==>
        c[i] == d[i] ^ aes(Numbered(j0[..12], v + (off + i) / 16 + 1))[(off + i) % 16]
  {
    hide BeBits, Gctr, Numbered;
    forall v: nat, i | j0[12..] == BeBits(v, 4) && 0 <= i < |d|
      ensures Gctr(aes, j0, off, d)[i] == d[i] ^ aes(Numbered(j0[..12], v + (off + i) / 16 + 1))[(off + i) % 16]
    {
      GctrSpelled(aes, j0, v, off, d, i);
    }
  }

  /** With an iv of twelve bytes the text is encrypted from the block on that ends in 2. */
  lemma TwelveBytes(aes: Cipher, iv: seq<bv8>, j0: Block, p: seq<bv8>)
    requires |iv| == 12 && j0 == iv + [0, 0, 0, 1]
    ensures var c := Gctr(aes, j0, 0, p); forall i :: 0 <= i < |p| ==> c[i] == p[i] ^ aes(Numbered(iv, 2 + i / 16))[i % 16]
    ensures var c := Gctr(aes, j0, 0, p); forall i :: 0 <= i < |p| && i < 16 ==> c[i] == p[i] ^ aes(iv + [0, 0, 0, 2])[i]
  {
    hide BeBits, Gctr, Numbered;
    assert j0[..12] == iv && j0[12..] == [0, 0, 0, 1];
    Bits1(1);
    Numbers(iv);
    forall i | 0 <= i < |p| ensures Gctr(aes, j0, 0, p)[i] == p[i] ^ aes(Numbered(iv, 2 + i / 16))[i % 16] {
      GctrSpelled(aes, j0, 1, 0, p, i);
    }
  }

  /** The tag of the standard: GHASH of header, ciphertext and their lengths in bits, masked with the
      encryption of J0. */
  lemma TagSpelled(aes: Cipher, h: Elem, j0: Block, a: seq<bv8>, c: seq<bv8>, tag: seq<bv8>)
    requires |tag| <= 16
    ensures TagIs(aes, h, j0, a, c, tag) <==>
      Flat(tag) == Xor(Ghash(h, Blocks(a) + Blocks(c) + [Flat(BeBits(8 * |a|, 8) + BeBits(8 * |c|, 8))]), Flat(aes(j0)))[..8 * |tag|]
  {
    DigestUnfold(h, a, c);
    hide Ghash, Blocks, BeBits;
  }

  /** Counter blocks agree exactly if their numbers do modulo 2^32. */
  lemma CountersDiffer(j0: Block, m: nat, n: nat)
    ensures Counter(j0, m) == Counter(j0, n) <==> m % 0x1_0000_0000 == n % 0x1_0000_0000
  {
    var v := ValueOf(j0[12..]);
    BitsOfValue(j0[12..]);
    CounterSpelled(j0, v, m);
    CounterSpelled(j0, v, n);
    FourBytes(v + m, v + n);
    hide Counter, BeBits, ValueOf;
    Shifted(v, m, n);
    var s, t := j0[..12] + BeBits(v + m, 4), j0[..12] + BeBits(v + n, 4);
    assert s[12..] == BeBits(v + m, 4) && t[12..] == BeBits(v + n, 4);
  }

  lemma FourBytes(m: nat, n: nat)
    ensures BeBits(m, 4) == BeBits(n, 4) <==> m % 0x1_0000_0000 == n % 0x1_0000_0000
  {
    ValueOfBits(m, 4);
    ValueOfBits(n, 4);
    BitsOfValue(BeBits(m, 4));
    BitsOfValue(BeBits(n, 4));
    assert Pow(256, 4) == 0x1_0000_0000;
    hide BeBits, ValueOf, Pow;
  }

  lemma Shifted(v: nat, m: nat, n: nat)
    ensures (v + m) % 0x1_0000_0000 == (v + n) % 0x1_0000_0000 <==> m % 0x1_0000_0000 == n % 0x1_0000_0000
  {}

  /** J0, whose encryption masks the tag, is encrypted for a byte of the text only when the counter has
      come round: not within the first 2^32 - 1 blocks.  No two of these are equal either. */
  lemma MaskNotInStream(j0: Block, i: nat, k: nat)
    ensures Counter(j0, i / 16 + 1) == j0 <==> (i / 16 + 1) % 0x1_0000_0000 == 0
    ensures i < 16 * 0xffff_ffff ==> Counter(j0, i / 16 + 1) != j0
    ensures i < 16 * 0x1_0000_0000 && k < 16 * 0x1_0000_0000 && i / 16 != k / 16 ==> Counter(j0, i / 16 + 1) != Counter(j0, k / 16 + 1)
  {
    CountersDiffer(j0, i / 16 + 1, 0);
    CountersDiffer(j0, i / 16 + 1, k / 16 + 1);
    assert Counter(j0, 0) == j0;
    hide Counter;
  }
}
