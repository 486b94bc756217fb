/** lib/trezor-crypto/bignum.c, conversion between 32 big-endian bytes and nine limbs. */
module BignumCodec {
  import opened Words
  import opened ModArith
  import opened Bytes
  import opened Limbs
  import opened Bignum

  // the factors of the shifts by 3 * i and by 29 - 3 * i bits
  function Up(i: nat): (e: nat)
    ensures e > 0
  {
    Pow(8, i)
  }

  function Down(i: nat): (g: nat)
    requires i < 8
    ensures g > 0
  {
    Pow(2, 29 - 3 * i)
  }

  lemma {:induction false} UpIsPow2(i: nat)
    ensures Up(i) == Pow(2, 3 * i)
  {
    if i > 0 {
      UpIsPow2(i - 1);
      PowAdd(2, 3, 3 * (i - 1));
      assert Pow(2, 3) == 8;
    }
  }

  lemma Shifts(i: nat)
    requires i < 8
    ensures Up(i) * Down(i) == BASE && Up(i + 1) == 8 * Up(i) && Up(0) == 1
  {
    UpIsPow2(i);
    PowAdd(2, 3 * i, 29 - 3 * i);
    Base29();
  }

  lemma Up8()
    ensures Up(8) == 0x100_0000
  {
    UpIsPow2(8);
    PowAdd(2, 24, 8);
    PowAdd(2, 8, 8);
    PowAdd(2, 16, 8);
    assert Pow(2, 4) == 16;
    PowAdd(2, 4, 4);
  }

  /** read_be: four bytes as a 32-bit word */
  function Join(a: uint8, b: uint8, c: uint8, d: uint8): uint32 {
    a as int * 0x100_0000 + b as int * 0x1_0000 + c as int * 0x100 + d
  }

  /** The i-th 32-bit word of 32 big-endian bytes, counted from the low end. */
  function Word(s: seq<uint8>, i: nat): uint32
    requires |s| == 32 && i < 8
  {
    var k := (7 - i) * 4;
    Join(s[k], s[k + 1], s[k + 2], s[k + 3])
  }

  /** The number held by the low n words. */
  ghost function LowWords(s: seq<uint8>, n: nat): int
    requires |s| == 32 && n <= 8
  {
    if n == 0 then 0 else LowWords(s, n - 1) + Word(s, n - 1) * (Up(n - 1) * Weight(n - 1))
  }

  lemma WordIsBe(s: seq<uint8>, i: nat)
    requires |s| == 32 && i < 8
    ensures Be(s[28 - 4 * i..32 - 4 * i]) == Word(s, i)
  {
    var k := 28 - 4 * i;
    assert s[k..k] == [];
    assert s[k..k + 1][..0] == s[k..k];
    assert s[k..k + 2][..1] == s[k..k + 1];
    assert s[k..k + 3][..2] == s[k..k + 2];
    assert s[k..k + 4][..3] == s[k..k + 3];
    assert Be(s[k..k]) == 0;
    assert Be(s[k..k + 1]) == s[k];
    assert Be(s[k..k + 2]) == 256 * s[k] as int + s[k + 1];
    assert Be(s[k..k + 3]) == 256 * (256 * s[k] as int + s[k + 1]) + s[k + 2];
  }

  lemma {:induction false} WeightOfWord(n: nat)
    requires n <= 8
    ensures Pow(256, 4 * n) == Up(n) * Weight(n)
  {
    if n > 0 {
      WeightOfWord(n - 1);
      PowAdd(256, 4, 4 * (n - 1));
      assert Pow(256, 4) == 0x1_0000_0000 by {
        assert Pow(256, 2) == 0x1_0000;
        PowAdd(256, 2, 2);
      }
      Shifts(n - 1);
      Rescale(Up(n - 1), Weight(n - 1));
    }
  }

  lemma Rescale(a: int, w: int)
    ensures 0x1_0000_0000 * (a * w) == 8 * a * (BASE * w)
  {
    MulAssoc(8 * a, BASE, w);
    MulAssoc(0x1_0000_0000, a, w);
  }

  lemma {:induction false} LowWordsAreBe(s: seq<uint8>, n: nat)
    requires |s| == 32 && n <= 8
    ensures LowWords(s, n) == Be(s[32 - 4 * n..])
  {
    if n == 0 {
      assert s[32..] == [];
    } else {
      LowWordsAreBe(s, n - 1);
      var w, low := s[32 - 4 * n..36 - 4 * n], s[36 - 4 * n..];
      assert s[32 - 4 * n..] == w + low;
      BeConcat(w, low);
      WordIsBe(s, n - 1);
      WeightOfWord(n - 1);
    }
  }

  /** Putting a word on top of the temp < 8^i left-over bits, in 32-bit arithmetic: the OR of the
      source is a sum that does not wrap, its low 29 bits are the next limb, and the bits that
      were shifted out are the next left-over. */
  lemma ReadLimb(limb: int, temp: int, e: int, g: int)
    requires 0 <= limb < 0x1_0000_0000 && 0 <= temp < e && g > 0 && e * g == BASE
    ensures temp + Wrap32(limb * e) < 0x1_0000_0000
    ensures (temp + Wrap32(limb * e)) % BASE + limb / g * BASE == temp + limb * e
    ensures 0 <= limb / g < 8 * e
  {
    hide Wrap32;
    assert limb == limb / g * g + limb % g;
    var hi, lo := limb / g, limb % g;
    var sh := Wrap32(limb * e);
    var q := limb * e / 0x1_0000_0000;
    WrapSplit(limb * e);
    assert limb * e == hi * BASE + lo * e by {
      assert limb == hi * g + lo;
      assert (hi * g) * e == hi * (e * g);
    }
    MulLe(lo, e, g - 1, e);
    assert (g - 1) * e == BASE - e;
    ModUnique(temp + sh, BASE, hi - 8 * q, temp + lo * e);
    if hi >= 8 * e {
      MulLe(8 * e, g, hi, g);
      MulAssoc(8, e, g);
    }
  }

  lemma WrapSplit(v: int)
    ensures v == v / 0x1_0000_0000 * 0x1_0000_0000 + Wrap32(v) && 0 <= Wrap32(v) < 0x1_0000_0000
  {}

  lemma Recombine(t: int, e: int, v: int, r: int, next: int, w: int)
    requires t * e + r == v + next * BASE
    ensures t * (e * w) + r * w == v * w + next * (BASE * w)
  {
    MulAssoc(t, e, w);
    MulAssoc(next, BASE, w);
    Distribute(r, 1, t * e, 0, 0, w);
    Distribute(v, 1, next * BASE, 0, 0, w);
  }

  lemma ReadStep(s: seq<uint32>, out: seq<uint32>, bytes: seq<uint8>, i: nat, temp: uint32, limb: uint32)
    requires |bytes| == 32 && i < 8 && |s| == |out| == LIMBS && temp < Up(i) && limb == Word(bytes, i)
    requires forall j :: 0 <= j < i ==> s[j] == out[j]
    requires Low(s, i) + temp * Weight(i) == LowWords(bytes, i)
    requires out[i] as int == (temp as int + Wrap32(limb as int * Up(i))) % BASE
    ensures Low(out, i + 1) + limb / Down(i) * Weight(i + 1) == LowWords(bytes, i + 1)
  {
    hide Wrap32, Word, Up, Down;
    Shifts(i);
    ReadLimb(limb, temp, Up(i), Down(i));
    LowExtend(s, out, i);
    Recombine(limb, Up(i), out[i], temp, limb / Down(i), Weight(i));
  }

  /** out_number = the number spelled by 32 bytes */
  method ReadBe(in_number: array<uint8>, off: nat, out_number: array<uint32>)
    requires off + 32 <= in_number.Length && out_number.Length == LIMBS
    modifies out_number
    ensures Normalized(out_number) && Value(out_number) == Be(in_number[off..off + 32])
    ensures Value(out_number) < TWO256
  {
    hide Low, LowWords, Word, Wrap32, Up, Down;
    ghost var bytes := in_number[off..off + 32];
    var temp: uint32 := 0;
    ReadStart(out_number[..], bytes);
    for i := 0 to LIMBS - 1
      invariant in_number[off..off + 32] == bytes && temp < Up(i)
      invariant forall j :: 0 <= j < i ==> out_number[j] < BASE
      invariant Low(out_number[..], i) + temp * Weight(i) == LowWords(bytes, i)
    {
      ghost var s, temp0 := out_number[..], temp;
      var limb := ReadWord(in_number, off, i);
      Shifts(i);
      ReadLimb(limb, temp, Up(i), Down(i));
      temp := temp + Wrap32(limb as int * Up(i));
      out_number[i] := temp % BASE;
      temp := limb / Down(i);
      ReadStep(s, out_number[..], bytes, i, temp0, limb);
    }
    ghost var s := out_number[..];
    out_number[LIMBS - 1] := temp;
    LowExtend(s, out_number[..], LIMBS - 1);
    ReadDone(bytes);
  }

  /** read_be at the i-th word from the low end */
  method ReadWord(in_number: array<uint8>, off: nat, i: nat) returns (limb: uint32)
    requires off + 32 <= in_number.Length && i < 8
    ensures limb == Word(in_number[off..off + 32], i)
  {
    var k := off + (LIMBS - 2 - i) * 4;
    limb := Join(in_number[k], in_number[k + 1], in_number[k + 2], in_number[k + 3]);
  }

  lemma ReadStart(out: seq<uint32>, bytes: seq<uint8>)
    requires |bytes| == 32
    ensures Low(out, 0) + 0 * Weight(0) == LowWords(bytes, 0) && Up(0) == 1
  {}

  lemma ReadDone(bytes: seq<uint8>)
    requires |bytes| == 32
    ensures LowWords(bytes, 8) == Be(bytes) < TWO256
  {
    Up8();
    LowWordsAreBe(bytes, 8);
    assert bytes[0..] == bytes;
    BeBound(bytes);
    WeightOfWord(8);
    Weights();
  }

  // ---------------------------------------------------------------- writing

  /** The word written for limb i: the top of limb i under the bottom of limb i + 1. */
  lemma WriteLimb(hi: int, limb: int, e: int, g: int)
    requires 0 <= hi && 0 <= limb < BASE && e > 0 && g > 0 && e * g == BASE
    ensures Wrap32(hi * g) + limb / e < 0x1_0000_0000
    ensures (Wrap32(hi * g) + limb / e) * e + limb % e == limb + hi % (8 * e) * BASE
  {
    hide Wrap32;
    var m := 8 * e;
    var q, low := hi / m, hi % m;
    WrapSplit(hi * g);
    assert hi * g == q * 0x1_0000_0000 + low * g by {
      assert hi == q * m + low;
      assert (q * m) * g == q * (8 * (e * g));
    }
    MulLe(low, g, m - 1, g);
    assert (m - 1) * g == 8 * (e * g) - g;
    ModUnique(hi * g, 0x1_0000_0000, q, low * g);
    assert limb / e < g by {
      if limb / e >= g {
        MulLe(g, e, limb / e, e);
      }
    }
    assert (low * g + limb / e) * e == low * (e * g) + limb / e * e;
  }

  lemma WriteStep(x: seq<uint32>, bytes: seq<uint8>, i: nat)
    requires |x| == LIMBS && Normal(x) && |bytes| == 32 && i < 8
    requires Word(bytes, i) as int == Wrap32(x[i + 1] as int * Down(i)) as int + x[i] / Up(i)
    requires LowWords(bytes, i) == Low(x, i) + x[i] % Up(i) * Weight(i)
    ensures LowWords(bytes, i + 1) == Low(x, i + 1) + x[i + 1] % Up(i + 1) * Weight(i + 1)
  {
    hide Wrap32, Word, Up, Down;
    Shifts(i);
    WriteLimb(x[i + 1], x[i], Up(i), Down(i));
    Recombine(Word(bytes, i), Up(i), x[i], x[i] % Up(i), x[i + 1] % Up(i + 1), Weight(i));
  }

  lemma {:induction false} WrittenWords(x: seq<uint32>, bytes: seq<uint8>, n: nat)
    requires |x| == LIMBS && Normal(x) && |bytes| == 32 && n <= 8
    requires forall i :: 0 <= i < n ==> Word(bytes, i) as int == Wrap32(x[i + 1] as int * Down(i)) as int + x[i] / Up(i)
    ensures LowWords(bytes, n) == Low(x, n) + x[n] % Up(n) * Weight(n)
  {
    if n == 0 {
      assert Low(x, 0) == 0 && Up(0) == 1;
    } else {
      WrittenWords(x, bytes, n - 1);
      WriteStep(x, bytes, n - 1);
    }
  }

  /** The 32 bytes that spell in_number */
  method WriteBe(in_number: array<uint32>, out_number: array<uint8>, off: nat)
    requires Normalized(in_number) && Value(in_number) < TWO256 && off + 32 <= out_number.Length
    modifies out_number
    ensures Be(out_number[off..off + 32]) == Value(in_number)
    ensures forall j :: 0 <= j < out_number.Length && !(off <= j < off + 32) ==> out_number[j] == old(out_number[j])
  {
    hide Low, LowWords, Word, Wrap32, Up, Down;
    ghost var x := in_number[..];
    var temp: uint32 := in_number[LIMBS - 1];
    for i := LIMBS - 1 downto 0
      invariant in_number[..] == x && temp == x[i]
      invariant forall j :: 0 <= j < out_number.Length && !(off <= j < off + (8 - i) * 4) ==> out_number[j] == old(out_number[j])
      invariant forall j :: i <= j < 8 ==> Word(out_number[off..off + 32], j) as int == Wrap32(x[j + 1] as int * Down(j)) as int + x[j] / Up(j)
    {
      ghost var before := out_number[off..off + 32];
      var limb := in_number[i];
      Shifts(i);
      WriteLimb(temp, limb, Up(i), Down(i));
      temp := Wrap32(temp as int * Down(i)) as int + limb / Up(i);
      WriteWord(out_number, off, i, temp);
      temp := limb;
    }
    ghost var bytes := out_number[off..off + 32];
    WrittenWords(x, bytes, 8);
    ReadDone(bytes);
    TopSmall(x);
  }

  lemma TopSmall(x: seq<uint32>)
    requires |x| == LIMBS && Low(x, LIMBS) < TWO256
    ensures x[8] < Up(8) && Low(x, LIMBS) == Low(x, 8) + x[8] % Up(8) * Weight(8)
  {
    Up8();
    hide Up;
    Weights();
    var top: int := x[8];
    if top >= 0x100_0000 {
      MulLe(0x100_0000, TWO232, top, TWO232);
    }
  }

  /** write_be at the i-th word from the low end */
  method WriteWord(out_number: array<uint8>, off: nat, i: nat, x: uint32)
    requires off + 32 <= out_number.Length && i < 8
    modifies out_number
    ensures Word(out_number[off..off + 32], i) == x
    ensures var now, was := out_number[off..off + 32], old(out_number[off..off + 32]);
      forall j :: 0 <= j < 8 && j != i ==> Word(now, j) == Word(was, j)
    ensures forall j :: 0 <= j < out_number.Length && !(off + 28 - 4 * i <= j < off + 32 - 4 * i) ==> out_number[j] == old(out_number[j])
  {
    var k := off + (LIMBS - 2 - i) * 4;
    out_number[k] := x / 0x100_0000;
    out_number[k + 1] := x / 0x1_0000 % 0x100;
    out_number[k + 2] := x / 0x100 % 0x100;
    out_number[k + 3] := x % 0x100;
  }

  /** The two conversions undo each other. */
  method ReadWriteRoundTrip(in_number: array<uint8>, out_number: array<uint8>, x: array<uint32>)
    requires in_number.Length == out_number.Length == 32 && x.Length == LIMBS
    modifies out_number, x
    ensures out_number[..] == old(in_number[..])
  {
    ghost var bytes := in_number[..];
    assert in_number[0..32] == bytes;
    ReadBe(in_number, 0, x);
    WriteBe(x, out_number, 0);
    assert out_number[0..32] == out_number[..];
    BeInjective(out_number[..], bytes);
  }
}
