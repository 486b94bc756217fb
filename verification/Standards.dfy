/** The formulas of the standards, spelled out with their constants, for the specification functions that
    the methods are proved against. */
module Standards {
  import opened Words
  import opened Bytes
  import opened ByteStrings
  import opened ModArith
  import opened CurveGroup
  import opened Jacobian
  import opened EcdsaLaw
  import S = Sha2Spec
  import D = HmacDrbg
  import E = Ecdsa
  import C = Sha2Compress
  import Gf128
  import GfMul
  import Bip39Spec
  import Base58
  import Der
  import Rlp
  import W = WalletHandlers

  // ---------------------------------------------------------------- SEC 1: signatures

  /** Section 4.1.3: s k = z + r d, or its negative where the byte's parity is not that of the nonce point;
      the byte's second bit tells whether the point's x was reduced. */
  lemma SignatureEquation(g: Group, d: int, z: int, k: int)
    requires CurveLaw(g) && 0 < k < g.n
    ensures var sig := SignatureOf(g, d, z, k);
      && sig.r == g.X(k) % g.n && sig.s <= g.n / 2 && sig.recid / 2 == (if g.X(k) >= g.n then 1 else 0)
      && (sig.recid % 2 == g.Y(k) % 2 ==> Cong(sig.s * k, z + sig.r * d, g.n))
      && (sig.recid % 2 != g.Y(k) % 2 ==> Cong(sig.s * k, -(z + sig.r * d), g.n))
  {
    var r := g.X(k) % g.n;
    InverseN(g, k);
    RawEquation(g.n, g.invN(k), k, z + r * d);
    NegatedEquation(g.n, RawS(g, d, z, k), k, z + r * d);
    hide CurveLaw, Cong;
  }

  /** The same on the 64 bytes that are handed out. */
  lemma IssuedEquation(g: Group, d: int, z: int, k: int, canonical: E.Rule, recid: nat, sig: seq<uint8>)
    requires CurveLaw(g) && g.n > 0 && 0 < k < g.n && E.Issued(g, d, z, k, canonical, recid, sig)
    ensures |sig| == 64 && var r, s := Be(sig[..32]), Be(sig[32..]);
      && r == g.X(k) % g.n && s <= g.n / 2 && recid / 2 == (if g.X(k) >= g.n then 1 else 0)
      && (recid % 2 == g.Y(k) % 2 ==> Cong(s * k, z + r * d, g.n))
      && (recid % 2 != g.Y(k) % 2 ==> Cong(s * k, -(z + r * d), g.n))
  {
    SignatureEquation(g, d, z, k);
    E.NumbersFit(g);
    hide CurveLaw, Cong, SignatureOf, Be;
    E.EncodedNumbers(SignatureOf(g, d, z, k));
  }

  lemma RawEquation(n: int, i: int, k: int, t: int)
    requires n > 0 && Cong(k * i, 1, n)
    ensures Cong(i * t % n * k, t, n)
  {
    CongMod(i * t, n);
    hide Cong;
    CongMul2(i * t % n, i * t, k, n);
    CongMul2(k * i, 1, t, n);
    assert i * t * k == k * i * t;
    CongTrans(i * t % n * k, i * t * k, t, n);
  }

  lemma NegatedEquation(n: int, s: int, k: int, t: int)
    requires n > 0
    ensures Cong(s * k, t, n) ==> Cong((n - s) * k, -t, n)
  {
    if Cong(s * k, t, n) {
      CongShift(-(s * k), k, n);
      assert (n - s) * k == -(s * k) + k * n;
      CongRefl(0, n);
      CongSub(0, 0, s * k, t, n);
      hide Cong;
      CongTrans((n - s) * k, -(s * k), -t, n);
    }
  }

  /** Section 4.1.4: with w the inverse of s, the x of w z G + w r Q reduced is r. */
  lemma VerdictEquation(g: Group, d: int, r: int, s: int, z: int, w: int)
    requires CurveLaw(g) && Cong(w * s, 1, g.n)
    ensures Verdict(g, d, r, s, z) == 0 <==>
      (z != 0 && 0 < r < g.n && 0 < s < g.n && !AtInfinity(g, w * z + w * r * d) && g.X(w * z + w * r * d) % g.n == r)
  {
    if z != 0 && 0 < r < g.n && 0 < s < g.n {
      var i, t := g.invN(s), z + r * d;
      InverseN(g, s);
      SameInverse(g.n, w, i, s);
      assert w * z + w * r * d == w * t;
      hide Cong;
      CongMul2(w, i, t, g.n);
      CongSymm(w * t, i * t, g.n);
      SameMultiples(g, i * t, w * t);
      hide CurveLaw;
    }
  }

  lemma SameInverse(n: int, w: int, i: int, s: int)
    requires n > 0 && Cong(w * s, 1, n) && Cong(s * i, 1, n)
    ensures Cong(w, i, n)
  {
    hide Cong;
    CongMul2(w * s, 1, i, n);
    CongMul2(s * i, 1, w, n);
    assert w * s * i == s * i * w;
    CongSymm(s * i * w, w, n);
    CongTrans(w, s * i * w, i, n);
  }

  // ---------------------------------------------------------------- RFC 2104 and RFC 6979

  /** Section 2 of RFC 2104: o and i are the key, filled up with zeros to a block, with 0x5c and 0x36. */
  lemma HmacEquation(a: S.Algorithm, key: seq<bv8>, m: seq<bv8>, o: seq<bv8>, i: seq<bv8>)
    requires S.Proper(a) && |o| == |i| == a.BlockLen()
    requires var k := if |key| > a.BlockLen() then S.Hash(a, key) else key;
      forall j :: 0 <= j < a.BlockLen() ==> o[j] == (if j < |k| then k[j] else 0) ^ 0x5c && i[j] == (if j < |k| then k[j] else 0) ^ 0x36
    ensures S.Hmac(a, key, m) == S.Hash(a, o + S.Hash(a, i + m))
  {
    S.HashLength(a, key);
    hide S.Hash;
    assert S.Pad(S.Key0(a, key), 0x5c) == o;
    assert S.Pad(S.Key0(a, key), 0x36) == i;
  }

  /** Section 3.2 of RFC 6979, steps b to h, for the first candidate and the one after it. */
  lemma FirstCandidates(a: S.Algorithm, x: seq<bv8>, h: seq<bv8>, v: seq<bv8>, k: seq<bv8>)
    requires S.Proper(a) && |x| > 0 && |v| == |k| == a.DigestLen()
    requires forall j :: 0 <= j < a.DigestLen() ==> v[j] == 1 && k[j] == 0
    ensures var k1 := S.Hmac(a, k, v + [0] + (x + h));
      var v1 := S.Hmac(a, k1, v);
      var k2 := S.Hmac(a, k1, v1 + [1] + (x + h));
      var v2 := S.Hmac(a, k2, v1);
      var t := S.Hmac(a, k2, v2);
      var k3 := S.Hmac(a, k2, t + [0]);
      D.Candidate(a, x, h, 0) == t && D.Candidate(a, x, h, 1) == S.Hmac(a, k3, S.Hmac(a, k3, t))
  {
    hide S.Hmac;
    assert D.Start(a) == D.KeyValue(k, v);
    var s1 := D.Mix(a, D.KeyValue(k, v), 0, x + h);
    var s2 := D.Mix(a, s1, 1, x + h);
    assert D.Stage(a, x, h, 0) == s2;
    D.NextIs(a, s2);
    var t := D.Next(a, s2, 1).v;
    var s3 := D.Mix(a, D.KeyValue(s2.k, t), 0, []);
    assert t + [0] + [] == t + [0];
    assert D.Stage(a, x, h, 1) == s3;
    D.NextIs(a, s3);
  }

  // ---------------------------------------------------------------- FIPS 180-4

  /** Section 5.1: a message that leaves room for it is followed by 0x80, zeros and its length in bits. */
  lemma OneBlockHash(a: S.Algorithm, m: seq<bv8>, b: seq<bv8>)
    requires S.Proper(a) && |m| < a.ShortLen() && |b| == a.BlockLen()
    requires b[..|m|] == m && b[|m|] == 0x80 && (forall j :: |m| < j < a.ShortLen() ==> b[j] == 0)
    requires b[a.ShortLen()..] == BeBits(8 * |m|, 2 * a.w)
    ensures S.Hash(a, m) == a.compress(a.iv, b)
  {
    BlockShape(a, m, b);
    ModUnique(0, a.BlockLen(), 0, 0);
    hide S.HashFrom, S.OneBlock, BeBits;
    S.HashOneBlock(a, a.iv, 0, m);
  }

  lemma BlockShape(a: S.Algorithm, m: seq<bv8>, b: seq<bv8>)
    requires S.Proper(a) && |m| < a.ShortLen() && |b| == a.BlockLen()
    requires b[..|m|] == m && b[|m|] == 0x80 && (forall j :: |m| < j < a.ShortLen() ==> b[j] == 0)
    requires b[a.ShortLen()..] == BeBits(8 * |m|, 2 * a.w)
    ensures b == S.OneBlock(a, 0, m)
  {
    hide BeBits;
    var n := a.ShortLen();
    FourParts(b, |m|, n);
    assert b[|m| + 1..n] == ByteStrings.Zeros(n - |m| - 1);
  }

  lemma FourParts(b: seq<bv8>, i: nat, n: nat)
    requires i < n <= |b|
    ensures b == b[..i] + [b[i]] + b[i + 1..n] + b[n..]
  {}

  /** Sections 6.2.2 and 6.4.2: only a and e are new in a round, the others move on. */
  lemma RoundRecurrence(f: C.Rounds, r: C.Regs, m: seq<nat>, t: nat)
    requires C.Proper(f) && |m| == 16 && t < f.count
    ensures var p, n := C.After(f, r, m, t), C.After(f, r, m, t + 1);
      var t1 := p.h + f.Sigma1(p.e) + f.Ch(p.e, p.f, p.g) + f.k[t] + C.Schedule(f, m, t);
      var t2 := f.Sigma0(p.a) + f.Maj(p.a, p.b, p.c);
      && n.b == p.a && n.c == p.b && n.d == p.c && n.f == p.e && n.g == p.f && n.h == p.g
      && n.e == (p.d + t1 % f.modulus) % f.modulus && n.a == (t1 % f.modulus + t2 % f.modulus) % f.modulus
  {}

  // ---------------------------------------------------------------- SP 800-38D

  /** Section 6.3: x times x^127 is x^7 + x^2 + x + 1; the first bit of a byte is its most significant. */
  lemma FieldConventions(a: Gf128.Elem)
    requires forall j :: 0 <= j < 128 ==> a[j] == (j == 127)
    ensures forall j :: 0 <= j < 128 ==> Gf128.MulX(a)[j] == (j in {0, 1, 2, 7})
    ensures GfMul.Flat([0x80]) == [true, false, false, false, false, false, false, false]
    ensures GfMul.Flat([0x01]) == [false, false, false, false, false, false, false, true]
  {
    assert GfMul.Flat([]) == [];
  }

  // ---------------------------------------------------------------- BIP-39

  /** Eleven bits of the entropy at a time, most significant first: a set first bit of the entropy is
      worth 1024 in the first index, the third bit of the second byte is worth 1. */
  lemma FirstIndex(h: seq<bv8> -> seq<bv8>, d: seq<bv8>)
    requires Bip39Spec.LegalLength(|d|) && |h(d)| == 32
    ensures d[0] == 0x80 && d[1] == 0 ==> Bip39Spec.Groups(Bip39Spec.Checked(h, d))[0] == 1024
    ensures d[0] == 0 && d[1] == 0x20 ==> Bip39Spec.Groups(Bip39Spec.Checked(h, d))[0] == 1
  {
    var b := Bip39Spec.Checked(h, d)[..11];
    hide Bip39Spec.Bit;
    forall k: nat | k < 11 ensures b[k] == Bip39Spec.Bit(d[k / 8], k % 8) {}
    assert Bip39Spec.Groups(Bip39Spec.Checked(h, d))[0] == Bip39Spec.Value(b);
    ConstantBits();
    ElevenValues(b);
  }

  lemma ConstantBits()
    ensures Bip39Spec.Bit(0x80, 0) && Bip39Spec.Bit(0x20, 2) && Bip39Spec.Bit(0x10, 3)
    ensures forall k: nat :: k < 8 ==> !Bip39Spec.Bit(0, k) && (k != 0 ==> !Bip39Spec.Bit(0x80, k))
    ensures forall k: nat :: k < 8 ==> (k != 2 ==> !Bip39Spec.Bit(0x20, k)) && (k != 3 ==> !Bip39Spec.Bit(0x10, k))
  {}

  lemma ElevenValues(b: seq<bool>)
    requires |b| == 11
    ensures (forall k :: 0 <= k < 11 ==> b[k] == (k == 0)) ==> Bip39Spec.Value(b) == 1024
    ensures (forall k :: 0 <= k < 11 ==> b[k] == (k == 10)) ==> Bip39Spec.Value(b) == 1
  {
    ShortValue(b[..10]);
    if forall k :: 0 <= k < 11 ==> b[k] == (k == 0) {
      assert forall k :: 0 <= k < 10 ==> b[..10][k] == (k == 0);
      assert Pow(2, 3) == 8;
      PowAdd(2, 3, 3);
      PowAdd(2, 6, 3);
    }
  }

  lemma {:induction false} ShortValue(b: seq<bool>)
    ensures |b| > 0 && (forall k :: 0 <= k < |b| ==> b[k] == (k == 0)) ==> Bip39Spec.Value(b) == Pow(2, |b| - 1)
    ensures (forall k :: 0 <= k < |b| ==> !b[k]) ==> Bip39Spec.Value(b) == 0
  {
    if |b| > 0 {
      ShortValue(b[..|b| - 1]);
    }
  }

  /** The checksum comes last: for sixteen bytes its four bits are the lower ones of the last index. */
  lemma LastIndex(h: seq<bv8> -> seq<bv8>, d: seq<bv8>)
    requires |d| == 16 && |h(d)| == 32
    ensures d[14] == 0 && d[15] == 0 && h(d)[0] == 0x10 ==> Bip39Spec.Groups(Bip39Spec.Checked(h, d))[11] == 1
  {
    var c := Bip39Spec.Checked(h, d);
    Bip39Spec.GroupsAt(c, 11);
    var b := c[11 * 11..11 * 11 + 11];
    hide Bip39Spec.Bit, Bip39Spec.Groups;
    ConstantBits();
    if d[14] == 0 && d[15] == 0 && h(d)[0] == 0x10 {
      forall k: nat | k < 11 ensures b[k] == (k == 10) {
        if k < 7 {
          assert b[k] == Bip39Spec.Bits(d)[121 + k] == Bip39Spec.Bit(d[15], k + 1);
        } else {
          assert b[k] == Bip39Spec.Bits(h(d))[k - 7] == Bip39Spec.Bit(h(d)[0], k - 7);
        }
      }
      ElevenValues(b);
    }
  }

  // ---------------------------------------------------------------- codecs

  /** Two characters of the alphabet, most significant first; a zero byte is a 1. */
  lemma Base58Examples()
    ensures Base58.Encode([58]) == [50, 49]
    ensures Base58.Encode([0]) == [49]
    ensures Base58.Encode([0, 58]) == [49, 50, 49]
  {
    Digits58([58], 58);
    Digits58([0], 0);
    Digits58([0, 58], 58);
  }

  lemma Digits58(s: seq<int>, v: nat)
    requires (s == [58] && v == 58) || (s == [0] && v == 0) || (s == [0, 58] && v == 58)
    ensures Base58.Radix(s, 256) == v && Base58.Numeral(58, 58) == [1, 0] && Base58.Numeral(0, 58) == []
  {
    assert [0, 58][..1] == [0] && [0][..0] == [] && [58][..0] == [];
    assert Base58.Numeral(1, 58) == Base58.Numeral(0, 58) + [1];
    assert Base58.Numeral(58, 58) == Base58.Numeral(1, 58) + [0];
  }

  /** Two numbers of 32 bytes, with and without the octet that keeps them positive. */
  lemma DerExamples(sig: seq<uint8>)
    requires |sig| == 64
    ensures 0 < sig[0] < 0x80 && 0 < sig[32] < 0x80 ==> Der.SigToDer(sig) == [0x30, 68, 2, 32] + sig[..32] + [2, 32] + sig[32..]
    ensures sig[0] >= 0x80 && 0 < sig[32] < 0x80 ==> Der.SigToDer(sig) == [0x30, 69, 2, 33, 0] + sig[..32] + [2, 32] + sig[32..]
  {
    hide Der.Integer;
    var r, s := sig[..32], sig[32..];
    assert r[0] == sig[0] && s[0] == sig[32];
    IntegerIs(r);
    IntegerIs(s);
    assert [2, 32] + r + ([2, 32] + s) == [2, 32] + r + [2, 32] + s;
  }

  lemma IntegerIs(s: seq<uint8>)
    requires |s| == 32
    ensures 0 < s[0] < 0x80 ==> Der.Integer(s) == [2, 32] + s
    ensures s[0] >= 0x80 ==> Der.Integer(s) == [2, 33, 0] + s
  {}

  /** Appendix B of the Yellow Paper: "dog", the empty string, a single byte, 56 and 1024 bytes. */
  lemma RlpStrings(s: seq<uint8>)
    ensures Rlp.PutStr([0x64, 0x6f, 0x67]) == [0x83, 0x64, 0x6f, 0x67] && Rlp.PutStr([]) == [0x80] && Rlp.PutStr([0x0f]) == [0x0f]
    ensures |s| == 56 ==> Rlp.PutStr(s) == [0xb8, 56] + s
    ensures |s| == 1024 ==> Rlp.PutStr(s) == [0xb9, 4, 0] + s
  {
    SmallNumbers();
    ShortStrings();
    hide Rlp.MinBytes, Rlp.PutStr;
    if |s| in {56, 1024} {
      Rlp.PutStrIs(s, s, 0);
    }
  }

  lemma ShortStrings()
    ensures Rlp.PutStr([0x64, 0x6f, 0x67]) == [0x83, 0x64, 0x6f, 0x67] && Rlp.PutStr([]) == [0x80] && Rlp.PutStr([0x0f]) == [0x0f]
  {
    hide Rlp.MinBytes;
  }

  /** The empty list, and lists of 55 and of 56 bytes. */
  lemma RlpLists()
    ensures Rlp.PutListHdr(0) == [0xc0] && Rlp.PutListHdr(55) == [0xf7] && Rlp.PutListHdr(56) == [0xf8, 56]
  {
    SmallNumbers();
    hide Rlp.MinBytes;
  }

  lemma SmallNumbers()
    ensures Rlp.MinBytes(56) == [56] && Rlp.MinBytes(1024) == [4, 0]
  {
    assert Rlp.MinBytes(56) == Rlp.MinBytes(0) + [56];
    assert Rlp.MinBytes(1024) == Rlp.MinBytes(4) + [0] && Rlp.MinBytes(4) == Rlp.MinBytes(0) + [4];
  }

  /** Lower-case hexadecimal, the high half of a byte first. */
  lemma HexExample()
    ensures W.Hex([0xa7, 0x0c]) == [0x61, 0x37, 0x30, 0x63]
  {
    assert [0xa7, 0x0c][..1] == [0xa7] && [0xa7][..0] == [];
    assert W.Hex([0xa7]) == W.Hex([]) + [0x61, 0x37];
  }
}
