/** lib/trezor-crypto/aes/gf128mul.c and gf_mul_lo.h: field elements in 16 bytes of memory, bits
    within bytes most significant first, worked on as little-endian 32-bit units. */
module GfMul {
  import opened ByteStrings
  import opened Gf128

  // ---------------------------------------------------------------- bits of bytes

  predicate OneBit(m: bv8) {
    m & (m - 1) == 0
  }

  /** X_j: the bit of x^j within a byte. */
  function Mask(j: nat): (m: bv8)
    requires j < 8
    ensures OneBit(m) && (j > 0 ==> m << 1 == Mask(j - 1) && m != 0x80) && (j == 0 ==> m == 0x80) && (j == 7 ==> m == 1)
  {
    match j
    case 0 => 0x80
    case 1 => 0x40
    case 2 => 0x20
    case 3 => 0x10
    case 4 => 0x08
    case 5 => 0x04
    case 6 => 0x02
    case _ => 0x01
  }

  predicate Bit(b: bv8, j: nat)
    requires j < 8
  {
    b & Mask(j) != 0
  }

  function Bits(b: bv8): (p: Poly)
    ensures |p| == 8 && forall j :: 0 <= j < 8 ==> p[j] == Bit(b, j)
  {
    seq(8, j requires 0 <= j < 8 => Bit(b, j))
  }

  function Flat(s: seq<bv8>): (p: Poly)
    ensures |p| == 8 * |s|
  {
    if |s| == 0 then [] else Bits(s[0]) + Flat(s[1..])
  }

  lemma {:induction false} FlatConcat(s: seq<bv8>, t: seq<bv8>)
    ensures Flat(s + t) == Flat(s) + Flat(t)
  {
    hide Bits;
    if |s| == 0 {
      assert s + t == t;
    } else {
      FlatConcat(s[1..], t);
      assert (s + t)[1..] == s[1..] + t && (s + t)[0] == s[0];
      assert Bits(s[0]) + (Flat(s[1..]) + Flat(t)) == Bits(s[0]) + Flat(s[1..]) + Flat(t);
    }
  }

  lemma MaskXor(a: bv8, b: bv8, m: bv8)
    requires OneBit(m)
    ensures ((a ^ b) & m != 0) == ((a & m != 0) != (b & m != 0))
  {}

  lemma BitsXor(a: bv8, b: bv8)
    ensures Bits(a ^ b) == Xor(Bits(a), Bits(b))
  {
    forall j | 0 <= j < 8 ensures Bit(a ^ b, j) == (Bit(a, j) != Bit(b, j)) {
      MaskXor(a, b, Mask(j));
    }
    hide Bit;
  }

  lemma XorConcat(a: Poly, b: Poly, c: Poly, d: Poly)
    requires |a| == |b| && |c| == |d|
    ensures Xor(a + c, b + d) == Xor(a, b) + Xor(c, d)
  {}

  lemma {:induction false} FlatXor(s: seq<bv8>, t: seq<bv8>)
    requires |s| == |t|
    ensures Flat(XorBytes(s, t)) == Xor(Flat(s), Flat(t))
  {
    hide Bits;
    if |s| > 0 {
      FlatXor(s[1..], t[1..]);
      BitsXor(s[0], t[0]);
      assert XorBytes(s, t)[1..] == XorBytes(s[1..], t[1..]);
      XorConcat(Bits(s[0]), Bits(t[0]), Flat(s[1..]), Flat(t[1..]));
      hide Xor;
    } else {
      assert Xor(Flat(s), Flat(t)) == [];
    }
  }

  lemma {:induction false} FlatZeros(s: seq<bv8>)
    requires forall i :: 0 <= i < |s| ==> s[i] == 0
    ensures Flat(s) == Zero(8 * |s|)
  {
    if |s| > 0 {
      FlatZeros(s[1..]);
      assert Bits(0) == Zero(8);
      assert Zero(8) + Zero(8 * |s| - 8) == Zero(8 * |s|);
    }
  }

  lemma SameMasks(a: bv8, b: bv8)
    requires (a & 0x80 != 0) == (b & 0x80 != 0) && (a & 0x40 != 0) == (b & 0x40 != 0) && (a & 0x20 != 0) == (b & 0x20 != 0)
    requires (a & 0x10 != 0) == (b & 0x10 != 0) && (a & 0x08 != 0) == (b & 0x08 != 0) && (a & 0x04 != 0) == (b & 0x04 != 0)
    requires (a & 0x02 != 0) == (b & 0x02 != 0) && (a & 0x01 != 0) == (b & 0x01 != 0)
    ensures a == b
  {}

  lemma BitsInjective(a: bv8, b: bv8)
    requires Bits(a) == Bits(b)
    ensures a == b
  {
    var p, q := Bits(a), Bits(b);
    assert p[0] == q[0] && p[1] == q[1] && p[2] == q[2] && p[3] == q[3];
    assert p[4] == q[4] && p[5] == q[5] && p[6] == q[6] && p[7] == q[7];
    SameMasks(a, b);
  }

  // ---------------------------------------------------------------- multiplication by x

  /** b shifted by one bit, after the last bit of p. */
  function ShiftIn(b: bv8, p: bv8): bv8 {
    (b >> 1) | (p << 7)
  }

  predicate Odd(b: bv8) {
    b & 1 != 0
  }

  /** The first byte of the remainder, for an element that overflows. */
  function Overflow(p: bool): bv8 {
    if p then 0xe1 else 0
  }

  /** Every byte takes over the last bit of its predecessor. */
  function Shifted(s: seq<bv8>, p: bv8): (t: seq<bv8>)
    ensures |t| == |s|
  {
    if |s| == 0 then [] else [ShiftIn(s[0], p)] + Shifted(s[1..], s[0])
  }

  lemma MaskShift(b: bv8, p: bv8, m: bv8)
    requires OneBit(m)
    ensures m != 0x80 ==> (((b >> 1) | (p << 7)) & m != 0) == (b & (m << 1) != 0)
    ensures (((b >> 1) | (p << 7)) & 0x80 != 0) == (p & 1 != 0)
  {}

  lemma ShiftedByte(b: bv8, p: bv8)
    ensures Bits(ShiftIn(b, p)) == [Bit(p, 7)] + Bits(b)[..7]
  {
    var c := ShiftIn(b, p);
    forall j | 0 <= j < 8 ensures Bits(c)[j] == if j == 0 then Bit(p, 7) else Bits(b)[j - 1] {
      ShiftedBit(b, p, j);
    }
    hide Bit, Bits;
  }

  lemma ShiftedBit(b: bv8, p: bv8, j: nat)
    requires j < 8
    ensures Bit(ShiftIn(b, p), j) == if j == 0 then Bit(p, 7) else Bit(b, j - 1)
  {
    MaskShift(b, p, Mask(j));
  }

  lemma ShiftConcat(p: bool, b: Poly, c: Poly)
    requires |b| == 8
    ensures ([p] + (b + c))[..8 + |c|] == ([p] + b[..7]) + ([b[7]] + c)[..|c|]
  {}

  lemma {:induction false} FlatShifted(s: seq<bv8>, p: bv8)
    ensures Flat(Shifted(s, p)) == ([Bit(p, 7)] + Flat(s))[..8 * |s|]
  {
    if |s| > 0 {
      FlatShifted(s[1..], s[0]);
      ShiftedByte(s[0], p);
      hide Bit;
      ShiftConcat(Bit(p, 7), Bits(s[0]), Flat(s[1..]));
      hide Bits;
    }
  }

  /** Shifted and reduced bytes stand for x times the element. */
  lemma MulXBytes(s: seq<bv8>, t: seq<bv8>)
    requires |s| == |t| == 16 && t == Shifted(s, 0)[0 := XorByte(Shifted(s, 0)[0], Overflow(Odd(s[15])))]
    ensures Flat(t) == MulX(Flat(s))
  {
    var u, top := Shifted(s, 0), Odd(s[15]);
    FlatShifted(s, 0);
    LastBit(s);
    FlatReduced(u, top);
    NoCarry();
    hide Flat, Xor, Bit, Shifted, Bits;
    assert ([false] + Flat(s))[..128] == [false] + Flat(s)[..127];
  }

  lemma NoCarry()
    ensures !Bit(0, 7)
  {}

  /** 0xe1 in the first byte is the remainder. */
  lemma FlatReduced(u: seq<bv8>, top: bool)
    requires |u| == 16
    ensures Flat(u[0 := XorByte(u[0], Overflow(top))]) == Xor(Flat(u), If(top, Rest()))
  {
    var e: seq<bv8> := [Overflow(top)];
    var z: seq<bv8> := seq(15, i => 0);
    XorFirst(u, e[0]);
    hide Flat, Xor, Bit, Bits, XorBytes;
    FlatXor(u, e + z);
    FlatConcat(e, z);
    FlatZeros(z);
    RestBytes(top);
  }

  lemma XorFirst(u: seq<bv8>, e: bv8)
    requires |u| == 16
    ensures u[0 := XorByte(u[0], e)] == XorBytes(u, [e] + seq(15, i => 0))
  {}

  lemma LastBit(s: seq<bv8>)
    requires |s| == 16
    ensures Flat(s)[127] == Odd(s[15])
  {
    FlatConcat(s[..15], s[15..]);
    assert s == s[..15] + s[15..] && s[15..][0] == s[15];
    hide Bit;
    assert Flat(s[15..]) == Bits(s[15]) + Flat([]);
  }

  lemma RestBytes(p: bool)
    ensures Flat([Overflow(p)]) + Zero(120) == If(p, Rest())
  {
    var b: bv8 := Overflow(p);
    assert Flat([b]) == Bits(b) + Flat([]);
    assert Bits(b) == [p, p, p, false, false, false, false, p];
  }

  // ---------------------------------------------------------------- units

  function Word(s: seq<bv8>): bv32
    requires |s| == 4
  {
    (s[0] as bv32) | (s[1] as bv32 << 8) | (s[2] as bv32 << 16) | (s[3] as bv32 << 24)
  }

  function ByteOf(w: bv32, k: nat): bv8 {
    match k
    case 0 => (w & 0xff) as bv8
    case 1 => ((w >> 8) & 0xff) as bv8
    case 2 => ((w >> 16) & 0xff) as bv8
    case _ => (w >> 24) as bv8
  }

  /** One unit of the shift by one bit; prev is the unit before, or 0. */
  function F1(x: bv32, prev: bv32): bv32 {
    ((x >> 1) & !0x80808080) | (((x << 15) | (prev >> 17)) & 0x80808080)
  }

  lemma F1Bytes(s: seq<bv8>, p: seq<bv8>)
    requires |s| == |p| == 4
    ensures var w := F1(Word(s), Word(p)); ByteOf(w, 0) == ShiftIn(s[0], p[3]) && ByteOf(w, 1) == ShiftIn(s[1], s[0])
    ensures var w := F1(Word(s), Word(p)); ByteOf(w, 2) == ShiftIn(s[2], s[1]) && ByteOf(w, 3) == ShiftIn(s[3], s[2])
  {}

  lemma {:induction false} ShiftedAt(s: seq<bv8>, p: bv8, k: nat)
    requires k < |s|
    ensures Shifted(s, p)[k] == ShiftIn(s[k], if k == 0 then p else s[k - 1])
  {
    hide ShiftIn;
    if k > 0 {
      ShiftedAt(s[1..], s[0], k - 1);
    }
  }

  /** UNIT_PTR(a)[n] */
  method Load(a: array<bv8>, n: nat) returns (w: bv32)
    requires 4 * n + 4 <= a.Length
    ensures w == Word(a[4 * n..4 * n + 4])
  {
    w := (a[4 * n] as bv32) | (a[4 * n + 1] as bv32 << 8) | (a[4 * n + 2] as bv32 << 16) | (a[4 * n + 3] as bv32 << 24);
  }

  method Store(a: array<bv8>, n: nat, w: bv32)
    requires 4 * n + 4 <= a.Length
    modifies a
    ensures forall k :: 0 <= k < a.Length ==> a[k] == if 4 * n <= k < 4 * n + 4 then Unit(w)[k - 4 * n] else old(a[k])
  {
    hide ByteOf;
    a[4 * n], a[4 * n + 1], a[4 * n + 2], a[4 * n + 3] := ByteOf(w, 0), ByteOf(w, 1), ByteOf(w, 2), ByteOf(w, 3);
  }

  function Unit(w: bv32): (s: seq<bv8>)
    ensures |s| == 4
  {
    [ByteOf(w, 0), ByteOf(w, 1), ByteOf(w, 2), ByteOf(w, 3)]
  }

  /** gf_tab, for little-endian units */
  function Tab(i: bv8): bv32 {
    (if i & 0x80 != 0 then 0x00e1 else 0) ^ (if i & 0x40 != 0 then 0x8070 else 0) ^
    (if i & 0x20 != 0 then 0x4038 else 0) ^ (if i & 0x10 != 0 then 0x201c else 0) ^
    (if i & 0x08 != 0 then 0x100e else 0) ^ (if i & 0x04 != 0 then 0x0807 else 0) ^
    (if i & 0x02 != 0 then 0x8403 else 0) ^ (if i & 0x01 != 0 then 0xc201 else 0)
  }

  /** The bit that overflows, as an index into the table. */
  function TopIndex(x3: bv32): bv8 {
    ((x3 >> 17) & 0x80808080) as bv8
  }

  function XorWord(a: bv32, b: bv32): bv32 {
    a ^ b
  }

  /** The units of the element shifted by one bit. */
  function Units1(s: seq<bv8>): (t: seq<bv8>)
    requires |s| == 16
    ensures |t| == 16
  {
    var x0, x1, x2, x3 := Word(s[0..4]), Word(s[4..8]), Word(s[8..12]), Word(s[12..16]);
    Unit(XorWord(F1(x0, 0), Tab(TopIndex(x3)))) + Unit(F1(x1, x0)) + Unit(F1(x2, x1)) + Unit(F1(x3, x2))
  }

  /** r = x * (the element in memory at x) */
  method MulX1(r: array<bv8>, x: array<bv8>)
    requires r.Length == x.Length == 16 && r != x
    modifies r
    ensures Flat(r[..]) == MulX(Flat(x[..]))
  {
    hide Word, F1, Tab, Unit, Flat, XorWord, TopIndex;
    ghost var s := x[..];
    assert s[0..4] == x[0..4] && s[4..8] == x[4..8] && s[8..12] == x[8..12] && s[12..16] == x[12..16];
    var x3 := Load(x, 3);
    var tt := Tab(TopIndex(x3));
    var x2 := Load(x, 2);
    Store(r, 3, F1(x3, x2));
    var x1 := Load(x, 1);
    Store(r, 2, F1(x2, x1));
    var x0 := Load(x, 0);
    Store(r, 1, F1(x1, x0));
    Store(r, 0, XorWord(F1(x0, 0), tt));
    assert r[..] == Units1(s);
    Units1Shift(s);
  }

  lemma WordZero(z: seq<bv8>)
    requires z == [0, 0, 0, 0]
    ensures Word(z) == 0
  {}

  /** The overflowing bit selects the table entry of the remainder. */
  lemma TabBit(s: seq<bv8>)
    requires |s| == 4
    ensures Tab(TopIndex(Word(s))) == OverflowWord(Odd(s[3]))
  {}

  function OverflowWord(p: bool): bv32 {
    if p then 0xe1 else 0
  }

  lemma XorLow(w: bv32, p: bool)
    ensures var v := XorWord(w, OverflowWord(p)); ByteOf(v, 0) == XorByte(ByteOf(w, 0), Overflow(p)) && ByteOf(v, 1) == ByteOf(w, 1)
    ensures var v := XorWord(w, OverflowWord(p)); ByteOf(v, 2) == ByteOf(w, 2) && ByteOf(v, 3) == ByteOf(w, 3)
  {}

  lemma FirstUnit(s: seq<bv8>)
    requires |s| == 16
    ensures Unit(XorWord(F1(Word(s[0..4]), 0), Tab(TopIndex(Word(s[12..16])))))
      == [XorByte(ShiftIn(s[0], 0), Overflow(Odd(s[15]))), ShiftIn(s[1], s[0]), ShiftIn(s[2], s[1]), ShiftIn(s[3], s[2])]
  {
    WordZero([0, 0, 0, 0]);
    F1Bytes(s[0..4], [0, 0, 0, 0]);
    TabBit(s[12..16]);
    hide F1, Word, Tab, ShiftIn, ByteOf, OverflowWord, Overflow, Odd, XorByte, XorWord, TopIndex;
    XorLow(F1(Word(s[0..4]), 0), Odd(s[15]));
  }

  lemma OtherUnit(s: seq<bv8>, n: nat)
    requires |s| == 16 && 1 <= n < 4
    ensures Unit(F1(Word(s[4 * n..4 * n + 4]), Word(s[4 * n - 4..4 * n])))
      == [ShiftIn(s[4 * n], s[4 * n - 1]), ShiftIn(s[4 * n + 1], s[4 * n]),
          ShiftIn(s[4 * n + 2], s[4 * n + 1]), ShiftIn(s[4 * n + 3], s[4 * n + 2])]
  {
    hide F1, Word, ShiftIn, ByteOf;
    F1Bytes(s[4 * n..4 * n + 4], s[4 * n - 4..4 * n]);
  }

  lemma Units1At(s: seq<bv8>, k: nat)
    requires |s| == 16 && k < 16
    ensures Units1(s)[k] == if k == 0 then XorByte(ShiftIn(s[0], 0), Overflow(Odd(s[15]))) else ShiftIn(s[k], s[k - 1])
  {
    hide F1, Word, Tab, Unit, ShiftIn, Overflow, Odd, XorByte, XorWord, TopIndex;
    if k < 4 {
      FirstUnit(s);
    } else if k < 8 {
      OtherUnit(s, 1);
    } else if k < 12 {
      OtherUnit(s, 2);
    } else {
      OtherUnit(s, 3);
    }
  }

  /** Byte by byte, the shift with the overflow reduced into the first byte. */
  function Reduced1(s: seq<bv8>): (t: seq<bv8>)
    requires |s| == 16
    ensures |t| == 16
  {
    Shifted(s, 0)[0 := XorByte(Shifted(s, 0)[0], Overflow(Odd(s[15])))]
  }

  lemma Reduced1At(s: seq<bv8>, k: nat)
    requires |s| == 16 && k < 16
    ensures Reduced1(s)[k] == Units1(s)[k]
  {
    ShiftedAt(s, 0, k);
    Units1At(s, k);
    hide Odd, XorByte, ShiftIn, Overflow, Units1, Shifted;
  }

  lemma Units1Shift(s: seq<bv8>)
    requires |s| == 16
    ensures Flat(Units1(s)) == MulX(Flat(s))
  {
    hide Units1, Flat, MulX, Shifted, Odd, XorByte, Overflow;
    MulXBytes(s, Reduced1(s));
    hide Reduced1;
    forall k | 0 <= k < 16 ensures Units1(s)[k] == Reduced1(s)[k] {
      Reduced1At(s, k);
    }
    assert Units1(s) == Reduced1(s);
  }

  // ---------------------------------------------------------------- multiplication by x^8

  function TabLo(i: bv8): bv8 {
    (if i & 0x80 != 0 then 0xe1 else 0) ^ (if i & 0x40 != 0 then 0x70 else 0) ^
    (if i & 0x20 != 0 then 0x38 else 0) ^ (if i & 0x10 != 0 then 0x1c else 0) ^
    (if i & 0x08 != 0 then 0x0e else 0) ^ (if i & 0x04 != 0 then 0x07 else 0) ^
    (if i & 0x02 != 0 then 0x03 else 0) ^ (if i & 0x01 != 0 then 0x01 else 0)
  }

  function TabHi(i: bv8): bv8 {
    (if i & 0x40 != 0 then 0x80 else 0) ^ (if i & 0x20 != 0 then 0x40 else 0) ^
    (if i & 0x10 != 0 then 0x20 else 0) ^ (if i & 0x08 != 0 then 0x10 else 0) ^
    (if i & 0x04 != 0 then 0x08 else 0) ^ (if i & 0x02 != 0 then 0x84 else 0) ^ (if i & 0x01 != 0 then 0xc2 else 0)
  }

  lemma TabBytes(i: bv8)
    ensures ByteOf(Tab(i), 0) == TabLo(i) && ByteOf(Tab(i), 1) == TabHi(i) && ByteOf(Tab(i), 2) == 0 && ByteOf(Tab(i), 3) == 0
  {}

  lemma TabLoMasks(i: bv8, t: bv8)
    requires t == TabLo(i)
    ensures (t & 0x80 != 0) == (i & 0x80 != 0)
    ensures (t & 0x40 != 0) == ((i & 0x40 != 0) != (i & 0x80 != 0))
    ensures (t & 0x20 != 0) == ((i & 0x20 != 0) != ((i & 0x40 != 0) != (i & 0x80 != 0)))
    ensures (t & 0x10 != 0) == ((i & 0x10 != 0) != ((i & 0x20 != 0) != (i & 0x40 != 0)))
    ensures (t & 0x08 != 0) == ((i & 0x08 != 0) != ((i & 0x10 != 0) != (i & 0x20 != 0)))
    ensures (t & 0x04 != 0) == ((i & 0x04 != 0) != ((i & 0x08 != 0) != (i & 0x10 != 0)))
    ensures (t & 0x02 != 0) == ((i & 0x02 != 0) != ((i & 0x04 != 0) != (i & 0x08 != 0)))
    ensures (t & 0x01 != 0) == (((i & 0x01 != 0) != (i & 0x02 != 0)) != ((i & 0x04 != 0) != (i & 0x80 != 0)))
  {}

  lemma TabHiMasks(i: bv8, t: bv8)
    requires t == TabHi(i)
    ensures (t & 0x80 != 0) == ((i & 0x01 != 0) != ((i & 0x02 != 0) != (i & 0x40 != 0)))
    ensures (t & 0x40 != 0) == ((i & 0x01 != 0) != (i & 0x20 != 0))
    ensures (t & 0x20 != 0) == (i & 0x10 != 0) && (t & 0x10 != 0) == (i & 0x08 != 0) && (t & 0x08 != 0) == (i & 0x04 != 0)
    ensures (t & 0x04 != 0) == (i & 0x02 != 0) && (t & 0x02 != 0) == (i & 0x01 != 0) && t & 0x01 == 0
  {}

  lemma BitIs(b: bv8)
    ensures Bit(b, 0) == (b & 0x80 != 0) && Bit(b, 1) == (b & 0x40 != 0) && Bit(b, 2) == (b & 0x20 != 0) && Bit(b, 3) == (b & 0x10 != 0)
    ensures Bit(b, 4) == (b & 0x08 != 0) && Bit(b, 5) == (b & 0x04 != 0) && Bit(b, 6) == (b & 0x02 != 0) && Bit(b, 7) == (b & 0x01 != 0)
  {}

  lemma TabLoCoefs(i: bv8)
    ensures var v, t := Bits(i), Bits(TabLo(i)); t[0] == v[0] && t[1] == (v[1] != v[0]) && t[2] == (v[2] != (v[1] != v[0]))
    ensures var v, t := Bits(i), Bits(TabLo(i)); t[3] == (v[3] != (v[2] != v[1])) && t[4] == (v[4] != (v[3] != v[2]))
    ensures var v, t := Bits(i), Bits(TabLo(i)); t[5] == (v[5] != (v[4] != v[3])) && t[6] == (v[6] != (v[5] != v[4]))
    ensures var v, t := Bits(i), Bits(TabLo(i)); t[7] == ((v[7] != v[6]) != (v[5] != v[0]))
  {
    hide Bit, TabLo;
    BitIs(i);
    BitIs(TabLo(i));
    TabLoMasks(i, TabLo(i));
  }

  lemma TabHiCoefs(i: bv8)
    ensures var v, t := Bits(i), Bits(TabHi(i)); t[0] == (v[7] != (v[6] != v[1])) && t[1] == (v[7] != v[2]) && t[2] == v[3]
    ensures var v, t := Bits(i), Bits(TabHi(i)); t[3] == v[4] && t[4] == v[5] && t[5] == v[6] && t[6] == v[7] && !t[7]
  {
    hide Bit, TabHi;
    BitIs(i);
    BitIs(TabHi(i));
    TabHiMasks(i, TabHi(i));
  }

  /** The eight overflowing coefficients, reduced, are the table entry. */
  lemma TabIsRest(i: bv8)
    ensures Act(Rest(), Bits(i)) == Bits(TabLo(i)) + Bits(TabHi(i)) + Zero(112)
  {
    TabLoCoefs(i);
    TabHiCoefs(i);
    hide Bit, TabLo, TabHi, Act;
    RestAct(Bits(i));
    forall k | 0 <= k < 128 ensures Act(Rest(), Bits(i))[k] == (Bits(TabLo(i)) + Bits(TabHi(i)) + Zero(112))[k] {
      TabAt(Bits(i), Bits(TabLo(i)), Bits(TabHi(i)), k);
    }
  }

  lemma TabAt(v: Poly, lo: Poly, hi: Poly, k: nat)
    requires |v| == |lo| == |hi| == 8 && k < 128
    requires lo[0] == v[0] && lo[1] == (v[1] != v[0]) && lo[2] == (v[2] != (v[1] != v[0])) && lo[3] == (v[3] != (v[2] != v[1]))
    requires lo[4] == (v[4] != (v[3] != v[2])) && lo[5] == (v[5] != (v[4] != v[3])) && lo[6] == (v[6] != (v[5] != v[4]))
    requires lo[7] == ((v[7] != v[6]) != (v[5] != v[0]))
    requires hi[0] == (v[7] != (v[6] != v[1])) && hi[1] == (v[7] != v[2]) && hi[2] == v[3] && hi[3] == v[4]
    requires hi[4] == v[5] && hi[5] == v[6] && hi[6] == v[7] && !hi[7]
    ensures (lo + hi + Zero(112))[k] == RestCoef(v, k)
  {}

  /** Moved up one byte, with the overflow folded in. */
  function Reduced8(s: seq<bv8>): (t: seq<bv8>)
    requires |s| == 16
    ensures |t| == 16
  {
    [TabLo(s[15]), XorByte(s[0], TabHi(s[15]))] + s[1..15]
  }

  lemma FlatOne(b: bv8)
    ensures Flat([b]) == Bits(b)
  {
    assert Flat([b]) == Bits(b) + Flat([]);
  }

  lemma FlatLast(s: seq<bv8>)
    requires |s| == 16
    ensures Flat(s) == Flat(s[..15]) + Bits(s[15])
  {
    assert s == s[..15] + [s[15]];
    FlatConcat(s[..15], [s[15]]);
    FlatOne(s[15]);
  }

  lemma Split(c: Poly, v: Poly)
    requires |c| == 120 && |v| == 8
    ensures c + v == Xor(c + Zero(8), Zero(120) + v)
  {}

  lemma ShiftSplit(c: Poly, v: Poly)
    requires |c| == 120 && |v| == 8
    ensures Shift(c + v, 8) == Xor(Zero(8) + c, Act(Rest(), v))
  {
    Split(c, v);
    hide Xor, Zero, MulX, Act;
    ShiftLinear(c + Zero(8), Zero(120) + v, 8);
    ShiftFree(c, 8);
    ShiftTop(v);
  }

  lemma FlatReduced8(s: seq<bv8>)
    requires |s| == 16
    ensures Flat(Reduced8(s)) == Xor(Zero(8) + Flat(s[..15]), Bits(TabLo(s[15])) + Bits(TabHi(s[15])) + Zero(112))
  {
    hide Bits, TabLo, TabHi, Flat, Xor, Zero;
    var lo, hi, rest := TabLo(s[15]), TabHi(s[15]), s[1..15];
    BitsXor(s[0], hi);
    assert Reduced8(s) == [lo] + ([XorByte(s[0], hi)] + rest);
    FlatConcat([lo], [XorByte(s[0], hi)] + rest);
    FlatConcat([XorByte(s[0], hi)], rest);
    FlatOne(lo);
    FlatOne(XorByte(s[0], hi));
    assert s[..15] == [s[0]] + rest;
    FlatConcat([s[0]], rest);
    FlatOne(s[0]);
    hide Flat;
    FoldIn(Bits(s[0]), Flat(rest), Bits(lo), Bits(hi));
  }

  lemma FoldIn(b: Poly, r: Poly, lo: Poly, hi: Poly)
    requires |b| == |lo| == |hi| == 8 && |r| == 112
    ensures Xor(Zero(8) + (b + r), lo + hi + Zero(112)) == lo + (Xor(b, hi) + r)
  {}

  lemma Reduced8Shifts(s: seq<bv8>)
    requires |s| == 16
    ensures Flat(Reduced8(s)) == Shift(Flat(s), 8)
  {
    hide Bits, TabLo, TabHi, Flat, Xor, Zero, Act, Shift, Reduced8;
    FlatReduced8(s);
    FlatLast(s);
    ShiftSplit(Flat(s[..15]), Bits(s[15]));
    TabIsRest(s[15]);
  }

  /** One unit of the shift by eight bits. */
  function F8(x: bv32, prev: bv32): bv32 {
    (x << 8) | (prev >> 24)
  }

  lemma F8Bytes(s: seq<bv8>, p: seq<bv8>)
    requires |s| == |p| == 4
    ensures Unit(F8(Word(s), Word(p))) == [p[3], s[0], s[1], s[2]]
  {
    F8Each(s, p, F8(Word(s), Word(p)));
    hide F8, Word, ByteOf;
  }

  lemma F8Each(s: seq<bv8>, p: seq<bv8>, w: bv32)
    requires |s| == |p| == 4 && w == F8(Word(s), Word(p))
    ensures ByteOf(w, 0) == p[3] && ByteOf(w, 1) == s[0] && ByteOf(w, 2) == s[1] && ByteOf(w, 3) == s[2]
  {}

  function Last(w: bv32): bv8 {
    (w >> 24) as bv8
  }

  lemma LastIs(s: seq<bv8>)
    requires |s| == 4
    ensures Last(Word(s)) == s[3]
  {}

  lemma XorUnit(a: bv32, b: bv32)
    ensures ByteOf(XorWord(a, b), 0) == XorByte(ByteOf(a, 0), ByteOf(b, 0))
    ensures ByteOf(XorWord(a, b), 1) == XorByte(ByteOf(a, 1), ByteOf(b, 1))
  {}

  lemma XorUnitHigh(a: bv32, b: bv32)
    ensures ByteOf(XorWord(a, b), 2) == XorByte(ByteOf(a, 2), ByteOf(b, 2))
    ensures ByteOf(XorWord(a, b), 3) == XorByte(ByteOf(a, 3), ByteOf(b, 3))
  {}

  lemma XorByteZero(b: bv8)
    ensures XorByte(0, b) == b && XorByte(b, 0) == b
  {}

  lemma FirstUnit8(s: seq<bv8>)
    requires |s| == 16
    ensures Unit(XorWord(F8(Word(s[0..4]), 0), Tab(Last(Word(s[12..16]))))) == [TabLo(s[15]), XorByte(s[0], TabHi(s[15])), s[1], s[2]]
  {
    WordZero([0, 0, 0, 0]);
    F8Bytes(s[0..4], [0, 0, 0, 0]);
    LastIs(s[12..16]);
    hide F8, Word, Tab, ByteOf, XorByte, XorWord, Last, TabLo, TabHi;
    var w := F8(Word(s[0..4]), 0);
    assert Unit(w)[0] == 0 && Unit(w)[1] == s[0] && Unit(w)[2] == s[1] && Unit(w)[3] == s[2];
    XorUnit(w, Tab(s[15]));
    XorUnitHigh(w, Tab(s[15]));
    TabBytes(s[15]);
    XorByteZero(TabLo(s[15]));
    XorByteZero(s[1]);
    XorByteZero(s[2]);
  }

  function Units8(s: seq<bv8>): (t: seq<bv8>)
    requires |s| == 16
    ensures |t| == 16
  {
    var x0, x1, x2, x3 := Word(s[0..4]), Word(s[4..8]), Word(s[8..12]), Word(s[12..16]);
    Unit(XorWord(F8(x0, 0), Tab(Last(x3)))) + Unit(F8(x1, x0)) + Unit(F8(x2, x1)) + Unit(F8(x3, x2))
  }

  lemma Units8Shift(s: seq<bv8>)
    requires |s| == 16
    ensures Flat(Units8(s)) == Shift(Flat(s), 8)
  {
    FirstUnit8(s);
    F8Bytes(s[4..8], s[0..4]);
    F8Bytes(s[8..12], s[4..8]);
    F8Bytes(s[12..16], s[8..12]);
    hide F8, Word, Tab, XorByte, XorWord, Last, TabLo, TabHi, Unit, Flat, Shift;
    assert Units8(s) == Reduced8(s);
    Reduced8Shifts(s);
  }

  /** x = x^8 * x, in place */
  method MulX8(x: array<bv8>)
    requires x.Length == 16
    modifies x
    ensures Flat(x[..]) == Shift(old(Flat(x[..])), 8)
  {
    hide Word, F8, Tab, Unit, Flat, XorWord, Last, Shift;
    ghost var s := x[..];
    assert s[0..4] == x[0..4] && s[4..8] == x[4..8] && s[8..12] == x[8..12] && s[12..16] == x[12..16];
    var x3 := Load(x, 3);
    var tt := Tab(Last(x3));
    var x2 := Load(x, 2);
    Store(x, 3, F8(x3, x2));
    assert x[4..8] == s[4..8];
    var x1 := Load(x, 1);
    Store(x, 2, F8(x2, x1));
    assert x[0..4] == s[0..4];
    var x0 := Load(x, 0);
    Store(x, 1, F8(x1, x0));
    Store(x, 0, XorWord(F8(x0, 0), tt));
    assert x[..] == Units8(s);
    Units8Shift(s);
  }

  // ---------------------------------------------------------------- the product

  /** xor_block_aligned(a, a, b) */
  method XorBlock(a: array<bv8>, b: array<bv8>)
    requires a.Length == b.Length == 16 && a != b
    modifies a
    ensures Flat(a[..]) == Xor(old(Flat(a[..])), Flat(b[..]))
  {
    hide Flat, Xor;
    ghost var s, t := a[..], b[..];
    for k := 0 to 16
      invariant forall i :: 0 <= i < 16 ==> a[i] == if i < k then s[i] ^ t[i] else s[i]
    {
      a[k] := a[k] ^ b[k];
    }
    assert a[..] == XorBytes(s, t);
    FlatXor(s, t);
  }

  /** The first n coefficients of v, one shifted element at a time. */
  lemma ActNext(a: Elem, v: Poly, n: nat)
    requires n < |v|
    ensures Act(a, v[..n + 1]) == Xor(Act(a, v[..n]), If(v[n], Shift(a, n)))
  {
    hide MulX, Xor, If;
    assert v[..n + 1] == v[..n] + [v[n]];
    ActConcat(a, v[..n], [v[n]]);
    ActSingle(a, v[n]);
    ShiftIf(a, v[n], n);
  }

  /** a = a + (the coefficients in ch) * e, from the eight shifts of e. */
  method AddShifts(a: array<bv8>, ch: bv8, p: seq<array<bv8>>, ghost e: Elem)
    requires a.Length == 16 && |p| == 8
    requires forall j :: 0 <= j < 8 ==> p[j].Length == 16 && p[j] != a && Flat(p[j][..]) == Shift(e, j)
    modifies a
    ensures Flat(a[..]) == Xor(old(Flat(a[..])), Act(e, Bits(ch)))
  {
    hide Flat, Xor, Act, If, Shift, Bit;
    ghost var start, v := Flat(a[..]), Bits(ch);
    AddNothing(start, e, v);
    for j := 0 to 8
      invariant Flat(a[..]) == Xor(start, Act(e, v[..j]))
    {
      ActNext(e, v, j);
      AddNext(start, Act(e, v[..j]), Shift(e, j));
      if Bit(ch, j) {
        XorBlock(a, p[j]);
      }
    }
    assert v[..8] == v;
  }

  lemma AddNothing(start: Elem, e: Elem, v: Poly)
    ensures start == Xor(start, Act(e, v[..0]))
  {
    XorLaws(start, start, start);
  }

  lemma AddNext(start: Elem, sum: Elem, term: Elem)
    ensures Xor(Xor(start, sum), term) == Xor(start, Xor(sum, If(true, term))) && Xor(start, sum) == Xor(start, Xor(sum, If(false, term)))
  {
    XorLaws(start, sum, term);
    XorLaws(sum, sum, sum);
  }

  /** e, x * e, ..., x^7 * e */
  method EightShifts(a: array<bv8>) returns (p: seq<array<bv8>>)
    requires a.Length == 16
    ensures |p| == 8 && p[0][..] == a[..]
    ensures forall j :: 0 <= j < 8 ==> fresh(p[j]) && p[j].Length == 16 && Flat(p[j][..]) == Shift(Flat(a[..]), j)
  {
    hide Flat, MulX;
    ghost var e := Flat(a[..]);
    var first := new bv8[16];
    for k := 0 to 16
      invariant first[..k] == a[..k] && a[..] == old(a[..])
    {
      first[k] := a[k];
    }
    assert first[..] == a[..];
    p := [first];
    for i := 0 to 7
      invariant |p| == i + 1 && p[0][..] == a[..] && a[..] == old(a[..])
      invariant forall j :: 0 <= j <= i ==> fresh(p[j]) && p[j].Length == 16 && Flat(p[j][..]) == Shift(e, j)
    {
      var next := new bv8[16];
      MulX1(next, p[i]);
      p := p + [next];
    }
  }

  /** a = a * b; b may be the same block. */
  method FieldMul(a: array<bv8>, b: array<bv8>)
    requires a.Length == b.Length == 16
    modifies a
    ensures Flat(a[..]) == Mul(old(Flat(a[..])), old(Flat(b[..])))
  {
    hide Flat, Act, Shift;
    ghost var e, s := Flat(a[..]), b[..];
    var p := EightShifts(a);
    var q := if a == b then p[0] else b;
    for k := 0 to 16
      invariant forall i :: 0 <= i < k ==> a[i] == 0
      invariant q[..] == s
      invariant forall j :: 0 <= j < 8 ==> Flat(p[j][..]) == Shift(e, j)
    {
      a[k] := 0;
    }
    var i := 15;
    HornerStart(e, a[..], s);
    while true
      invariant 0 <= i < 16 && q[..] == s
      invariant forall j :: 0 <= j < 8 ==> Flat(p[j][..]) == Shift(e, j)
      invariant Flat(a[..]) == Shift(Act(e, Flat(s[i + 1..])), 8)
      decreases i
    {
      AddShifts(a, q[i], p, e);
      HornerStep(e, s, i);
      if i == 0 {
        break;
      }
      i := i - 1;
      MulX8(a);
    }
    assert s[0..] == s;
  }

  lemma HornerStart(e: Elem, z: seq<bv8>, s: seq<bv8>)
    requires |z| == |s| == 16 && forall i :: 0 <= i < 16 ==> z[i] == 0
    ensures Flat(z) == Shift(Act(e, Flat(s[16..])), 8)
  {
    FlatZeros(z);
    assert s[16..] == [];
    ShiftZero(8);
  }

  lemma HornerStep(e: Elem, s: seq<bv8>, i: nat)
    requires i < |s|
    ensures Xor(Shift(Act(e, Flat(s[i + 1..])), 8), Act(e, Bits(s[i]))) == Act(e, Flat(s[i..]))
  {
    hide Bits, Act, Shift, Xor;
    assert Flat(s[i..]) == Bits(s[i]) + Flat(s[i..][1..]) && s[i..][1..] == s[i + 1..];
    ActConcat(e, Bits(s[i]), Flat(s[i + 1..]));
    XorLaws(Shift(Act(e, Flat(s[i + 1..])), 8), Act(e, Bits(s[i])), e);
  }
}
