/** lib/trezor-crypto/aes/aesgcm.c: the message context, its calls in sequence, and the one-call
    forms of authenticated encryption and decryption. */
module AesGcm {
  import opened ByteStrings
  import opened Words
  import opened Gf128
  import opened GfMul
  import opened GcmSpec
  import opened GcmCounter
  import opened Gcm

  // ---------------------------------------------------------------- lengths and exponents

  lemma {:induction false} BeBitsZero(n: nat)
    ensures forall i :: 0 <= i < n ==> BeBits(0, n)[i] == 0
  {
    if n > 0 {
      BeBitsZero(n - 1);
    }
  }

  lemma XorByteLaws(a: bv8, b: bv8)
    ensures XorByte(a, 0) == a
  {}

  /** The last of the first m bytes of s, which spell n. */
  lemma NextByte(s: seq<bv8>, n: nat, m: nat)
    requires 0 < m <= |s| && s[..m] == BeBits(n, m)
    ensures s[m - 1] == (n % 256) as bv8 && s[..m - 1] == BeBits(n / 256, m - 1)
  {
    assert BeBits(n, m) == BeBits(n / 256, m - 1) + [(n % 256) as bv8];
    assert s[m - 1] == s[..m][m - 1] && s[..m - 1] == s[..m][..m - 1];
  }

  /** The bytes of v from the last one up, while any are left. */
  method XorLength(x: array<bv8>, v: uint32)
    requires x.Length == 16
    modifies x
    ensures Flat(x[..]) == Xor(old(Flat(x[..])), Flat(BeBits(0, 8) + BeBits(v, 8)))
  {
    hide Flat, Xor, XorByte, BeBits;
    ghost var s, l := x[..], BeBits(0, 8) + BeBits(v, 8);
    var n: nat, i := v, 15;
    ghost var m: nat := 8;
    assert BeBits(v, 8)[..8] == BeBits(v, 8);
    while n != 0
      invariant 4 <= m <= 8 && i == m + 7 && n < Top(m) && BeBits(v, 8)[..m] == BeBits(n, m)
      invariant forall k :: 0 <= k < 16 ==> x[k] == if k > i then XorByte(s[k], l[k]) else s[k]
      decreases n
    {
      NextByte(BeBits(v, 8), n, m);
      x[i] := XorByte(x[i], (n % 256) as bv8);
      i, n, m := i - 1, n / 256, m - 1;
    }
    BeBitsZero(m);
    BeBitsZero(8);
    forall k | 0 <= k < 16 ensures x[k] == XorByte(s[k], l[k]) {
      if k <= i {
        assert l[k] == 0 by { if k >= 8 { assert BeBits(v, 8)[..m][k - 8] == 0; } }
        XorByteLaws(s[k], 0);
      }
    }
    SameXor(s, x[..], l);
  }

  /** What is left of a 32-bit number after 8 - m bytes. */
  function Top(m: nat): nat {
    if m >= 8 then 0x1_0000_0000 else if m == 7 then 0x100_0000 else if m == 6 then 0x1_0000 else if m == 5 then 0x100 else 1
  }

  lemma SameXor(s: seq<bv8>, t: seq<bv8>, l: seq<bv8>)
    requires |s| == |t| == |l| == 16 && forall k :: 0 <= k < 16 ==> t[k] == XorByte(s[k], l[k])
    ensures Flat(t) == Xor(Flat(s), Flat(l))
  {
    assert t == XorBytes(s, l);
    FlatXor(s, l);
  }

  /** hdr = hdr * H^ln by squaring. */
  method MulPower(hdr: array<bv8>, hash: array<bv8>, ln0: nat)
    requires hdr.Length == hash.Length == 16 && hdr != hash && ln0 > 0
    modifies hdr
    ensures Flat(hdr[..]) == Mul(old(Flat(hdr[..])), Power(Flat(hash[..]), ln0))
  {
    hide Flat, Mul;
    ghost var x, h := Flat(hdr[..]), Flat(hash[..]);
    var tbuf := Slice(hash, 0);
    assert hash[0..16] == hash[..];
    var ln := ln0;
    while true
      invariant ln > 0 && Mul(Flat(hdr[..]), Power(Flat(tbuf[..]), ln)) == Mul(x, Power(h, ln0))
      decreases ln
    {
      PowerStep(Flat(hdr[..]), Flat(tbuf[..]), ln);
      if ln % 2 == 1 {
        FieldMul(hdr, tbuf);
      }
      ln := ln / 2;
      if ln == 0 {
        break;
      }
      FieldMul(tbuf, tbuf);
    }
  }

  lemma PowerStep(y: Elem, t: Elem, n: nat)
    requires n > 0
    ensures Mul(if n % 2 == 1 then Mul(y, t) else y, Power(Mul(t, t), n / 2)) == Mul(y, Power(t, n))
    ensures n == 1 ==> Mul(y, Power(t, 1)) == Mul(y, t)
  {
    hide Mul, Power;
    PowerSquare(t, n / 2);
    PowerOne(t);
    if n % 2 == 1 {
      PowerAdd(t, 1, n - 1);
      MulAssociative(y, t, Power(t, n - 1));
    }
  }

  lemma PowerOne(t: Elem)
    ensures Power(t, 1) == t
  {
    MulDistributes(t, t, t);
    assert Power(t, 1) == Mul(Power(t, 0), t);
  }

  /** hdr = hdr + txt + the lengths in bits. */
  method AddLengths(hdr: array<bv8>, txt: array<bv8>, a: uint32, c: uint32)
    requires hdr.Length == txt.Length == 16 && hdr != txt
    modifies hdr
    ensures Flat(hdr[..]) == Xor(Xor(old(Flat(hdr[..])), Flat(txt[..])), Flat(LenBlock(a, c)))
  {
    hide Flat, Xor, XorByte;
    ghost var s, t, l := hdr[..], txt[..], LenBlock(a, c);
    var tm: nat := 8 * c;
    var i := 16;
    assert BeBits(8 * c, 8)[..8] == BeBits(8 * c, 8) && BeBits(8 * a, 8)[..8] == BeBits(8 * a, 8);
    while i > 0
      invariant 0 <= i <= 16
      invariant if i > 8 then BeBits(8 * c, 8)[..i - 8] == BeBits(tm, i - 8) else BeBits(8 * a, 8)[..i] == BeBits(tm, i)
      invariant forall k :: 0 <= k < 16 ==> hdr[k] == if k >= i then XorByte(s[k], XorByte(t[k], l[k])) else s[k]
    {
      i := i - 1;
      LengthByte(a, c, tm, i);
      hdr[i] := XorByte(hdr[i], XorByte(txt[i], (tm % 256) as bv8));
      tm := if i == 8 then 8 * a else tm / 256;
    }
    SameXor2(s, hdr[..], t, l);
  }

  lemma LengthByte(a: nat, c: nat, tm: nat, i: nat)
    requires i < 16
    requires if i >= 8 then BeBits(8 * c, 8)[..i - 7] == BeBits(tm, i - 7) else BeBits(8 * a, 8)[..i + 1] == BeBits(tm, i + 1)
    ensures LenBlock(a, c)[i] == (tm % 256) as bv8
    ensures i > 8 ==> BeBits(8 * c, 8)[..i - 8] == BeBits(tm / 256, i - 8)
    ensures i < 8 ==> BeBits(8 * a, 8)[..i] == BeBits(tm / 256, i)
  {
    var v, m := if i >= 8 then 8 * c else 8 * a, if i >= 8 then i - 7 else i + 1;
    assert BeBits(tm, m)[..m - 1] == BeBits(tm / 256, m - 1) && BeBits(tm, m)[m - 1] == (tm % 256) as bv8;
    assert BeBits(v, 8)[..m - 1] == BeBits(v, 8)[..m][..m - 1] && BeBits(v, 8)[m - 1] == BeBits(v, 8)[..m][m - 1];
  }

  lemma SameXor2(s: seq<bv8>, u: seq<bv8>, t: seq<bv8>, l: seq<bv8>)
    requires |s| == |u| == |t| == |l| == 16 && forall k :: 0 <= k < 16 ==> u[k] == XorByte(s[k], XorByte(t[k], l[k]))
    ensures Flat(u) == Xor(Xor(Flat(s), Flat(t)), Flat(l))
  {
    hide Flat, Xor, XorByte;
    var w := XorBytes(t, l);
    assert forall k :: 0 <= k < 16 ==> w[k] == XorByte(t[k], l[k]) by { hide *; XorBytesAre(t, l); }
    SameXor(s, u, w);
    SameXor(t, w, l);
    XorLaws(Flat(s), Flat(t), Flat(l));
  }

  // ---------------------------------------------------------------- the initial counter

  /** GHASH over the whole blocks of the iv, from its cnt-th byte on. */
  method HashBlocks(ctr: array<bv8>, hash: array<bv8>, iv: array<bv8>) returns (cnt: nat)
    requires ctr.Length == hash.Length == 16 && ctr !in {hash, iv} && Flat(ctr[..]) == Zero(128)
    modifies ctr
    ensures cnt <= iv.Length < cnt + 16 && cnt % 16 == 0
    ensures Flat(ctr[..]) == Ghash(Flat(hash[..]), Blocks(iv[..cnt]))
  {
    hide Flat, Xor, Mul, Blocks;
    ghost var h := Flat(hash[..]);
    cnt := 0;
    HashNothing(h);
    assert iv[..0] == [];
    while cnt + 16 <= iv.Length
      invariant cnt <= iv.Length && cnt % 16 == 0 && hash[..] == old(hash[..])
      invariant Flat(ctr[..]) == Ghash(h, Blocks(iv[..cnt]))
    {
      var block := Slice(iv, cnt);
      HashNext(h, iv[..cnt], iv[cnt..cnt + 16]);
      assert iv[..cnt] + iv[cnt..cnt + 16] == iv[..cnt + 16];
      PaddedFull(block[..]);
      XorBlock(ctr, block);
      FieldMul(ctr, hash);
      cnt := cnt + 16;
    }
  }

  lemma HashNothing(h: Elem)
    ensures Ghash(h, Blocks([])) == Zero(128)
  {}

  /** One more block, whole or not. */
  lemma HashNext(h: Elem, d: seq<bv8>, b: seq<bv8>)
    requires |d| % 16 == 0 && 0 < |b| <= 16
    ensures Ghash(h, Blocks(d + b)) == Mul(Xor(Ghash(h, Blocks(d)), Padded(b)), h)
  {
    hide Padded, Mul, Xor, Ghash;
    assert LastStart(|d + b|) == |d| && (d + b)[..|d|] == d && (d + b)[|d|..] == b;
    GhashLast(h, Blocks(d), Padded(b));
  }

  /** The last, partial block of the iv. */
  method HashRest(ctr: array<bv8>, hash: array<bv8>, iv: array<bv8>, cnt: nat)
    requires ctr.Length == hash.Length == 16 && ctr !in {hash, iv} && cnt < iv.Length < cnt + 16 && cnt % 16 == 0
    requires Flat(ctr[..]) == Ghash(Flat(hash[..]), Blocks(iv[..cnt]))
    modifies ctr
    ensures Flat(ctr[..]) == Ghash(Flat(hash[..]), Blocks(iv[..]))
  {
    hide Flat, Xor, Mul, Blocks, Padded, ByteAt, Ghash;
    ghost var h, g := Flat(hash[..]), Flat(ctr[..]);
    NothingPadded(g);
    assert iv[cnt..cnt] == [];
    for k := cnt to iv.Length
      invariant Flat(ctr[..]) == Xor(g, Padded(iv[cnt..k])) && hash[..] == old(hash[..])
    {
      PaddedNext(iv[cnt..k], iv[k]);
      assert iv[cnt..k] + [iv[k]] == iv[cnt..k + 1];
      XorLaws(g, Padded(iv[cnt..k]), ByteAt(iv[k], k - cnt));
      XorInto(ctr, k - cnt, iv[k]);
    }
    assert iv[..cnt] + iv[cnt..iv.Length] == iv[..];
    HashNext(h, iv[..cnt], iv[cnt..iv.Length]);
    FieldMul(ctr, hash);
  }

  lemma NothingPadded(g: Elem)
    ensures Xor(g, Padded([])) == g
  {
    PaddedNone();
    XorLaws(g, g, g);
  }

  /** J0 of an iv that is not twelve bytes long. */
  method HashIv(ctr: array<bv8>, hash: array<bv8>, iv: array<bv8>)
    requires ctr.Length == hash.Length == 16 && ctr !in {hash, iv} && Flat(ctr[..]) == Zero(128)
    requires 0 < iv.Length < 0x1_0000_0000 && iv.Length != 12
    modifies ctr
    ensures PreCounter(Flat(hash[..]), iv[..], TruncatedBits(iv.Length), ctr[..])
  {
    hide Flat, Xor, Mul, Ghash, Blocks;
    var cnt := HashBlocks(ctr, hash, iv);
    if cnt < iv.Length {
      HashRest(ctr, hash, iv, cnt);
    } else {
      assert iv[..cnt] == iv[..];
    }
    var bits := TruncatedBits(iv.Length);
    GhashLast(Flat(hash[..]), Blocks(iv[..]), Flat(BeBits(0, 8) + BeBits(bits, 8)));
    XorLength(ctr, bits);
    FieldMul(ctr, hash);
  }

  // ---------------------------------------------------------------- the context

  type Status = s: int | -1 <= s <= 1
  const GOOD: Status := 0
  const WARN: Status := 1
  const ERROR: Status := -1

  class Context {
    const ctrVal: array<bv8>
    const encCtr: array<bv8>
    const hdrGhv: array<bv8>
    const txtGhv: array<bv8>
    const hash: array<bv8>
    const aes: Cipher
    var y0: seq<bv8>
    var hdrCnt: uint32
    var txtCcnt: uint32
    var txtAcnt: uint32
    ghost var j0: Block
    ghost var header: seq<bv8>
    ghost var text: seq<bv8>

    ghost function Cells(): set<object> {
      {ctrVal, encCtr, hdrGhv, txtGhv, hash}
    }

    /** The hash key H = E(0). */
    ghost predicate Keyed()
      reads this, hash
    {
      && ctrVal.Length == encCtr.Length == hdrGhv.Length == txtGhv.Length == hash.Length == 16
      && ctrVal !in {encCtr, hdrGhv, txtGhv, hash} && encCtr !in {hdrGhv, txtGhv, hash}
      && hdrGhv !in {txtGhv, hash} && txtGhv != hash
      && hash[..] == aes(Zero16())
    }

    ghost function H(): Elem
      reads this, hash
      requires Keyed()
    {
      Flat(hash[..])
    }

    /** A message is under way: header and text are what was absorbed so far. */
    ghost predicate Ready()
      reads this, Cells()
    {
      && Keyed()
      && Flat(hdrGhv[..]) == Acc(H(), header) && hdrCnt == |header|
      && Flat(txtGhv[..]) == Acc(H(), text) && txtAcnt == |text|
      && InStream(ctrVal[..], encCtr[..], aes, j0, txtCcnt, txtCcnt % 16) && y0 == j0[12..]
    }

    /** gcm_init_and_key, after the key schedule. */
    constructor (aes: Cipher)
      ensures Keyed() && this.aes == aes && fresh(Cells())
    {
      this.aes := aes;
      ctrVal, encCtr, hdrGhv, txtGhv := new bv8[16], new bv8[16], new bv8[16], new bv8[16];
      hash := new bv8[16](i => 0);
      y0, hdrCnt, txtCcnt, txtAcnt := [], 0, 0, 0;
      j0, header, text := Zero16(), [], [];
      new;
      assert hash[..] == Zero16();
      Encrypt(hash, hash, aes);
    }

    /** gcm_init_message; an empty iv is refused. */
    method InitMessage(iv: array<bv8>) returns (status: Status)
      requires Keyed() && iv !in Cells() && iv.Length < 0x1_0000_0000
      modifies this, ctrVal, hdrGhv, txtGhv
      ensures Keyed() && status == if iv.Length == 0 then ERROR else GOOD
      ensures status == GOOD ==> Ready() && header == [] && text == [] && txtCcnt == 0
      ensures status == GOOD ==> PreCounter(H(), iv[..], TruncatedBits(iv.Length), j0)
    {
      hide Flat, Acc, InStream, PreCounter, TruncatedBits;
      if iv.Length == 0 {
        return ERROR;
      }
      Clear(ctrVal);
      if iv.Length == 12 {
        for k := 0 to 12
          invariant forall i :: 0 <= i < k ==> ctrVal[i] == iv[i]
          invariant forall i :: k <= i < 16 ==> ctrVal[i] == 0
          invariant iv[..] == old(iv[..]) && hash[..] == old(hash[..])
        {
          ctrVal[k] := iv[k];
        }
        ctrVal[15] := 1;
        assert ctrVal[..] == iv[..] + [0, 0, 0, 1];
        DirectCounter(H(), iv[..], TruncatedBits(12), ctrVal[..]);
      } else {
        HashIv(ctrVal, hash, iv);
      }
      y0 := ctrVal[12..];
      j0 := ctrVal[..];
      Clear(hdrGhv);
      Clear(txtGhv);
      hdrCnt, txtCcnt, txtAcnt := 0, 0, 0;
      header, text := [], [];
      NothingAbsorbed(H());
      StreamStart(ctrVal[..], encCtr[..], aes, j0);
      status := GOOD;
    }

    /** gcm_auth_header; aligned tells whether data and accumulator have the same alignment. */
    method AuthHeader(hdr: array<bv8>, aligned: bool)
      requires Ready() && hdr !in Cells() && hdrCnt + hdr.Length < 0x1_0000_0000
      modifies this`hdrCnt, this`header, hdrGhv
      ensures Ready() && header == old(header) + hdr[..]
    {
      hide Flat, Acc, InStream;
      Absorb(hdrGhv, hash, hdrCnt, hdr, aligned, header);
      hdrCnt := hdrCnt + hdr.Length;
      header := header + hdr[..];
    }

    /** gcm_auth_data */
    method AuthData(data: array<bv8>, aligned: bool)
      requires Ready() && data !in Cells() && txtAcnt + data.Length < 0x1_0000_0000
      modifies this`txtAcnt, this`text, txtGhv
      ensures Ready() && text == old(text) + data[..]
    {
      hide Flat, Acc, InStream;
      Absorb(txtGhv, hash, txtAcnt, data, aligned, text);
      txtAcnt := txtAcnt + data.Length;
      text := text + data[..];
    }

    /** gcm_crypt_data */
    method CryptData(data: array<bv8>, aligned: bool)
      requires Ready() && data !in Cells() && txtCcnt + data.Length < 0x1_0000_0000
      modifies this`txtCcnt, data, ctrVal, encCtr
      ensures Ready() && txtCcnt == old(txtCcnt) + data.Length
      ensures data[..] == Gctr(aes, j0, old(txtCcnt), old(data[..]))
    {
      hide Flat, Acc, InStream, Gctr;
      Crypt(ctrVal, encCtr, data, txtCcnt, aligned, aes, j0);
      txtCcnt := txtCcnt + data.Length;
    }

    /** gcm_compute_tag: an error when both sorts of processing took place, but not equally often;
        a warning when the text was authenticated only. */
    method ComputeTag(tag: array<bv8>) returns (status: Status)
      requires Ready() && tag !in Cells() && tag.Length <= 16
      modifies hdrGhv, txtGhv, encCtr, tag
      ensures Keyed()
      ensures status == if txtAcnt == txtCcnt then GOOD else if txtCcnt > 0 then ERROR else WARN
      ensures status != ERROR ==> TagSplit(aes, H(), j0, header, text, WrappedBlocks(txtAcnt), tag[..])
      ensures status == ERROR ==> tag[..] == old(tag[..])
    {
      hide Flat, Acc, InStream, Mul, Power, TagSplit;
      if txtAcnt != txtCcnt && txtCcnt > 0 {
        return ERROR;
      }
      ghost var h := H();
      CounterHead(ctrVal[..], encCtr[..], aes, j0, txtCcnt);
      FieldMul(hdrGhv, hash);
      FieldMul(txtGhv, hash);
      var ln := WrappedBlocks(txtAcnt);
      if hdrCnt != 0 && ln != 0 {
        MulPower(hdrGhv, hash, ln);
      }
      SkippedPower(h, header, ln);
      AddLengths(hdrGhv, txtGhv, hdrCnt, txtAcnt);
      FieldMul(hdrGhv, hash);
      FirstCounter(ctrVal, encCtr, y0);
      assert encCtr[..] == j0[..12] + j0[12..] == j0;
      Encrypt(encCtr, encCtr, aes);
      WriteTag(hdrGhv, encCtr, tag);
      TagIsSplit(aes, h, j0, header, text, ln, tag[..]);
      status := if txtCcnt == txtAcnt then GOOD else WARN;
    }

    /** gcm_encrypt: encrypt a piece of the text, then authenticate the outcome.  The piece may be
        aligned with the key stream block, with the accumulator, with both or with neither. */
    method EncryptData(data: array<bv8>, streamAligned: bool, textAligned: bool)
      requires Ready() && data !in Cells() && txtCcnt == txtAcnt && txtCcnt + data.Length < 0x1_0000_0000
      modifies this`txtCcnt, this`txtAcnt, this`text, data, ctrVal, encCtr, txtGhv
      ensures Ready() && txtCcnt == txtAcnt
      ensures data[..] == Gctr(aes, j0, old(txtCcnt), old(data[..])) && text == old(text) + data[..]
    {
      CryptData(data, streamAligned);
      AuthData(data, textAligned);
    }

    /** gcm_decrypt: authenticate a piece of the ciphertext, then decrypt it. */
    method DecryptData(data: array<bv8>, streamAligned: bool, textAligned: bool)
      requires Ready() && data !in Cells() && txtCcnt == txtAcnt && txtCcnt + data.Length < 0x1_0000_0000
      modifies this`txtCcnt, this`txtAcnt, this`text, data, ctrVal, encCtr, txtGhv
      ensures Ready() && txtCcnt == txtAcnt
      ensures data[..] == Gctr(aes, j0, old(txtCcnt), old(data[..])) && text == old(text) + old(data[..])
    {
      AuthData(data, textAligned);
      CryptData(data, streamAligned);
    }

    /** gcm_encrypt_message */
    method EncryptMessage(iv: array<bv8>, hdr: array<bv8>, msg: array<bv8>, tag: array<bv8>,
                          headerAligned: bool, streamAligned: bool, textAligned: bool) returns (status: Status)
      requires Keyed() && {iv, hdr, msg, tag} !! Cells() && msg !in {hdr, iv, tag} && tag !in {hdr, iv}
      requires iv.Length < 0x1_0000_0000 && hdr.Length < 0x1_0000_0000 && msg.Length < 0x1_0000_0000 && tag.Length <= 16
      modifies this, ctrVal, encCtr, hdrGhv, txtGhv, msg, tag
      ensures Keyed() && status == if iv.Length == 0 then ERROR else GOOD
      ensures status == GOOD ==> Sealed(aes, H(), iv[..], hdr[..], j0, old(msg[..]), msg[..], tag[..])
      ensures iv.Length == 12 ==> j0 == iv[..] + [0, 0, 0, 1]
      ensures iv.Length == 12 ==> forall i :: 0 <= i < msg.Length ==>
        msg[i] == old(msg[i]) ^ aes(Numbered(iv[..], 2 + i / 16))[i % 16]
    {
      hide TagSplit, PreCounter, Acc, Gctr, InStream, Numbered, TruncatedBits;
      ghost var d := msg[..];
      status := InitMessage(iv);
      if status != GOOD {
        return;
      }
      AuthHeader(hdr, headerAligned);
      EncryptData(msg, streamAligned, textAligned);
      assert header == hdr[..] && text == msg[..];
      status := ComputeTag(tag);
      if iv.Length == 12 {
        DirectlyCounted(H(), iv[..], TruncatedBits(iv.Length), j0);
        TwelveBytes(aes, iv[..], j0, d);
      }
    }

    /** gcm_decrypt_message: whether the tag is that of the ciphertext; the message buffer is
        decrypted either way. */
    method DecryptMessage(iv: array<bv8>, hdr: array<bv8>, msg: array<bv8>, tag: array<bv8>,
                          headerAligned: bool, streamAligned: bool, textAligned: bool) returns (status: Status)
      requires Keyed() && {iv, hdr, msg, tag} !! Cells() && msg !in {hdr, iv, tag}
      requires iv.Length < 0x1_0000_0000 && hdr.Length < 0x1_0000_0000 && msg.Length < 0x1_0000_0000 && tag.Length <= 16
      modifies this, ctrVal, encCtr, hdrGhv, txtGhv, msg
      ensures Keyed() && status in {GOOD, ERROR}
      ensures iv.Length == 0 ==> status == ERROR && msg[..] == old(msg[..])
      ensures iv.Length > 0 ==> PreCounter(H(), iv[..], TruncatedBits(iv.Length), j0) && msg[..] == Gctr(aes, j0, 0, old(msg[..]))
      ensures iv.Length > 0 ==> (status == GOOD <==> Tagged(aes, H(), j0, hdr[..], old(msg[..]), tag[..]))
    {
      hide TagSplit, PreCounter, Acc, Gctr, InStream;
      status := InitMessage(iv);
      if status != GOOD {
        return;
      }
      AuthHeader(hdr, headerAligned);
      DecryptData(msg, streamAligned, textAligned);
      assert header == hdr[..] && text == old(msg[..]);
      var local := new bv8[tag.Length];
      status := ComputeTag(local);
      var same := SameBytes(tag, local);
      if !same {
        status := ERROR;
      }
      OneTag(aes, H(), j0, header, text, local[..], tag[..]);
    }
  }

  method Clear(a: array<bv8>)
    requires a.Length == 16
    modifies a
    ensures Flat(a[..]) == Zero(128) && forall i :: 0 <= i < 16 ==> a[i] == 0
  {
    for k := 0 to 16
      invariant forall i :: 0 <= i < k ==> a[i] == 0
    {
      a[k] := 0;
    }
    FlatZeros(a[..]);
  }

  lemma DirectCounter(h: Elem, iv: seq<bv8>, bits: nat, j: Block)
    requires |iv| == 12 && j == iv + [0, 0, 0, 1]
    ensures PreCounter(h, iv, bits, j)
  {}

  lemma DirectlyCounted(h: Elem, iv: seq<bv8>, bits: nat, j: Block)
    requires |iv| == 12 && PreCounter(h, iv, bits, j)
    ensures j == iv + [0, 0, 0, 1]
  {}

  lemma NothingAbsorbed(h: Elem)
    ensures Acc(h, []) == Zero(128)
  {}

  lemma StreamStart(ctr: seq<bv8>, enc: seq<bv8>, aes: Cipher, j0: Block)
    requires ctr == j0
    ensures InStream(ctr, enc, aes, j0, 0, 0)
  {}

  function Zero16(): Block {
    seq(16, i => 0)
  }

  /** consteq */
  method SameBytes(a: array<bv8>, b: array<bv8>) returns (same: bool)
    requires a.Length == b.Length
    ensures same <==> a[..] == b[..]
  {
    same := true;
    for k := 0 to a.Length
      invariant same <==> a[..k] == b[..k]
    {
      assert a[..k + 1] == a[..k] + [a[k]] && b[..k + 1] == b[..k] + [b[k]];
      same := same && a[k] == b[k];
    }
    assert a[..a.Length] == a[..] && b[..b.Length] == b[..];
  }

  /** Of every length there is one tag. */
  lemma OneTag(aes: Cipher, h: Elem, j0: Block, a: seq<bv8>, c: seq<bv8>, tag: seq<bv8>, tag': seq<bv8>)
    requires Tagged(aes, h, j0, a, c, tag) && |tag| == |tag'|
    ensures tag == tag' <==> Tagged(aes, h, j0, a, c, tag')
  {
    hide SplitDigest, Flat, Xor;
    if Tagged(aes, h, j0, a, c, tag') {
      FlatInjective(tag, tag');
    }
  }

  // ---------------------------------------------------------------- the tag

  /** (ln + 15) / 16 in 32 bits. */
  function WrappedBlocks(n: nat): nat {
    (n + 15) % 0x1_0000_0000 / 16
  }

  /** The block count is right except for texts of the last 15 lengths. */
  lemma WrappedIs(n: nat)
    requires n < 0x1_0000_0000
    ensures WrappedBlocks(n) == (n + 15) / 16 <==> n <= 0xffff_fff0
  {}

  /** The tag from the two accumulators, with the header's moved on by n blocks. */
  ghost function SplitDigest(h: Elem, a: seq<bv8>, c: seq<bv8>, n: nat): Elem {
    Mul(Xor(Xor(Mul(Mul(Acc(h, a), h), Power(h, n)), Mul(Acc(h, c), h)), Flat(LenBlock(|a|, |c|))), h)
  }

  ghost predicate TagSplit(aes: Cipher, h: Elem, j0: Block, a: seq<bv8>, c: seq<bv8>, n: nat, tag: seq<bv8>) {
    |tag| <= 16 && Flat(tag) == Xor(SplitDigest(h, a, c, n), Flat(aes(j0)))[..8 * |tag|]
  }

  lemma TagIsSplit(aes: Cipher, h: Elem, j0: Block, a: seq<bv8>, c: seq<bv8>, n: nat, tag: seq<bv8>)
    requires |tag| <= 16
    requires Flat(tag) == Xor(Mul(Xor(Xor(Mul(Mul(Acc(h, a), h), Power(h, n)), Mul(Acc(h, c), h)), Flat(LenBlock(|a|, |c|))), h),
                              Flat(aes(j0)))[..8 * |tag|]
    ensures TagSplit(aes, h, j0, a, c, n, tag)
  {
    hide Acc, Mul, Power, Flat, Xor;
  }

  /** The tag that gcm_compute_tag makes for a text of this length. */
  ghost predicate Tagged(aes: Cipher, h: Elem, j0: Block, a: seq<bv8>, c: seq<bv8>, tag: seq<bv8>) {
    TagSplit(aes, h, j0, a, c, WrappedBlocks(|c|), tag)
  }

  /** Below the wrap of the block count that is the tag of the standard, and nothing else is. */
  lemma TagIsRight(aes: Cipher, h: Elem, j0: Block, a: seq<bv8>, c: seq<bv8>, tag: seq<bv8>)
    requires |c| <= 0xffff_fff0
    ensures Tagged(aes, h, j0, a, c, tag) <==> TagIs(aes, h, j0, a, c, tag)
  {
    hide Acc, Mul, Power, Flat, Xor, Digest;
    WrappedIs(|c|);
    DigestIs(h, a, c);
  }

  /** An empty header needs no power, and neither does an empty text. */
  lemma SkippedPower(h: Elem, a: seq<bv8>, n: nat)
    ensures |a| == 0 ==> Mul(Mul(Acc(h, a), h), Power(h, n)) == Mul(Acc(h, a), h)
    ensures n == 0 ==> Mul(Mul(Acc(h, a), h), Power(h, n)) == Mul(Acc(h, a), h)
  {
    hide Mul, Xor;
    MulDistributes(Zero(128), Zero(128), h);
    MulDistributes(Zero(128), Zero(128), Power(h, n));
    MulDistributes(Mul(Acc(h, a), h), h, h);
  }

  lemma CounterHead(ctr: seq<bv8>, enc: seq<bv8>, aes: Cipher, j0: Block, n: nat)
    requires InStream(ctr, enc, aes, j0, n, n % 16)
    ensures |ctr| == 16 && ctr[..12] == j0[..12]
  {}

  /** The counter block with its last word put back to that of J0. */
  method FirstCounter(ctr: array<bv8>, enc: array<bv8>, y0: seq<bv8>)
    requires ctr.Length == enc.Length == 16 && ctr != enc && |y0| == 4
    modifies enc
    ensures enc[..] == ctr[..12] + y0
  {
    for k := 0 to 16
      invariant forall i :: 0 <= i < k ==> enc[i] == ctr[i]
    {
      enc[k] := ctr[k];
    }
    enc[12], enc[13], enc[14], enc[15] := y0[0], y0[1], y0[2], y0[3];
  }

  method WriteTag(hdr: array<bv8>, enc: array<bv8>, tag: array<bv8>)
    requires hdr.Length == enc.Length == 16 && tag.Length <= 16 && tag !in {hdr, enc}
    modifies tag
    ensures Flat(tag[..]) == Xor(Flat(hdr[..]), Flat(enc[..]))[..8 * tag.Length]
  {
    hide Flat, Xor;
    ghost var x := XorBytes(hdr[..], enc[..]);
    for i := 0 to tag.Length
      invariant tag[..i] == x[..i]
    {
      tag[i] := hdr[i] ^ enc[i];
    }
    assert tag[..] == x[..tag.Length];
    FlatXor(hdr[..], enc[..]);
    FlatPrefix(x, tag.Length);
  }

  lemma FlatPrefix(x: seq<bv8>, n: nat)
    requires n <= |x|
    ensures Flat(x[..n]) == Flat(x)[..8 * n]
  {
    hide Flat;
    FlatConcat(x[..n], x[n..]);
    assert x == x[..n] + x[n..];
  }

  // ---------------------------------------------------------------- the round trip

  /** c and tag are the encryption of p for the iv and the header. */
  ghost predicate Sealed(aes: Cipher, h: Elem, iv: seq<bv8>, hdr: seq<bv8>, j0: Block, p: seq<bv8>, c: seq<bv8>, tag: seq<bv8>) {
    PreCounter(h, iv, TruncatedBits(|iv|), j0) && c == Gctr(aes, j0, 0, p) && Tagged(aes, h, j0, hdr, c, tag)
  }

  /** Decrypting what was sealed under the same iv and header succeeds and gives the message back. */
  lemma SealedOpens(aes: Cipher, h: Elem, iv: seq<bv8>, hdr: seq<bv8>, j: Block, p: seq<bv8>, c: seq<bv8>, tag: seq<bv8>, j': Block)
    requires Sealed(aes, h, iv, hdr, j, p, c, tag) && PreCounter(h, iv, TruncatedBits(|iv|), j')
    ensures Tagged(aes, h, j', hdr, c, tag) && Gctr(aes, j', 0, c) == p
  {
    PreCounterUnique(h, iv, TruncatedBits(|iv|), j, j');
    GctrTwice(aes, j, 0, p);
  }
}
