/** lib/trezor-crypto/base58.c: byte strings written in base 58, each leading zero byte as one
    leading '1', and read back. */
module Base58 {
  import opened ModArith
  import opened Words
  import opened Bytes

  const ALPHABET: string := "123456789" + "ABCDEFGH" + "JKLMN" + "PQRSTUVWXYZ" + "abcdefghijk" + "mnopqrstuvwxyz"
  const ONE: uint8 := 49

  datatype Decoded = Data(bytes: seq<uint8>) | Malformed

  // Positional notation

  /** The number the digits s spell in base b, most significant first. */
  function Radix(s: seq<int>, b: nat): int {
    if |s| == 0 then 0 else b * Radix(s[..|s| - 1], b) + s[|s| - 1]
  }

  ghost predicate Numerals(s: seq<int>, b: nat) {
    forall k :: 0 <= k < |s| ==> 0 <= s[k] < b
  }

  /** v in base b without leading zeros. */
  function Numeral(v: nat, b: nat): (s: seq<uint8>)
    requires 2 <= b <= 256
    ensures Numerals(s, b) && (|s| > 0 ==> s[0] != 0)
  {
    if v == 0 then [] else DivLess(v, b); Numeral(v / b, b) + [v % b]
  }

  lemma DivLess(v: nat, b: nat)
    requires b >= 2 && v > 0
    ensures 0 <= v / b < v && 0 <= v % b < b
  {
    DivMod(v, b);
    if v / b >= v {
      MulLe(2, v, b, v / b);
    }
  }

  function LeadingZeros(s: seq<int>): (n: nat)
    ensures n <= |s| && (forall k :: 0 <= k < n ==> s[k] == 0) && (n < |s| ==> s[n] != 0)
  {
    if |s| > 0 && s[0] == 0 then 1 + LeadingZeros(s[1..]) else 0
  }

  /** Change of base, leading zeros kept one for one. */
  function Convert(s: seq<int>, a: nat, b: nat): seq<uint8>
    requires Numerals(s, a) && 2 <= b <= 256
  {
    RadixRange(s, a);
    Zeros(LeadingZeros(s)) + Numeral(Radix(s, a), b)
  }

  lemma {:induction false} RadixRange(s: seq<int>, b: nat)
    requires Numerals(s, b)
    ensures 0 <= Radix(s, b) < Pow(b, |s|)
  {
    if |s| > 0 {
      RadixRange(s[..|s| - 1], b);
      NextDigit(b, Radix(s[..|s| - 1], b), s[|s| - 1], Pow(b, |s| - 1));
    }
  }

  lemma NextDigit(b: nat, x: nat, d: nat, w: nat)
    requires x < w && d < b
    ensures 0 <= b * x + d < b * w
  {
    MulLe(b, x + 1, b, w);
    assert b * (x + 1) == b * x + b;
  }

  lemma {:induction false} RadixConcat(s: seq<int>, t: seq<int>, b: nat)
    ensures Radix(s + t, b) == Radix(s, b) * Pow(b, |t|) + Radix(t, b)
  {
    if |t| == 0 {
      assert s + t == s;
    } else {
      var u := t[..|t| - 1];
      RadixConcat(s, u, b);
      assert (s + t)[..|s + t| - 1] == s + u;
      Shift(b, Radix(s, b), Pow(b, |u|), Radix(u, b));
    }
  }

  lemma Shift(b: int, x: int, w: int, c: int)
    ensures b * (x * w + c) == x * (b * w) + b * c
  {}

  lemma {:induction false} RadixZeros(s: seq<int>, b: nat)
    requires forall k :: 0 <= k < |s| ==> s[k] == 0
    ensures Radix(s, b) == 0
  {
    if |s| > 0 {
      RadixZeros(s[..|s| - 1], b);
    }
  }

  /** Leading zeros do not count. */
  lemma RadixTrim(s: seq<int>, n: nat, b: nat)
    requires n <= |s| && forall k :: 0 <= k < n ==> s[k] == 0
    ensures Radix(s[n..], b) == Radix(s, b)
  {
    RadixZeros(s[..n], b);
    RadixConcat(s[..n], s[n..], b);
    assert s == s[..n] + s[n..];
  }

  lemma RadixSnoc(s: seq<int>, d: int, b: nat)
    ensures Radix(s + [d], b) == b * Radix(s, b) + d
  {
    assert (s + [d])[..|s|] == s;
  }

  lemma DivMod(v: int, b: nat)
    requires b > 0
    ensures v == b * (v / b) + v % b
  {}

  lemma NumeralStep(v: nat, b: nat)
    requires 2 <= b <= 256 && v > 0
    ensures v / b < v && Numeral(v, b) == Numeral(v / b, b) + [v % b]
  {
    DivLess(v, b);
  }

  lemma {:induction false} RadixNumeral(v: nat, b: nat)
    requires 2 <= b <= 256
    ensures Radix(Numeral(v, b), b) == v
  {
    if v > 0 {
      hide Radix, Numeral;
      NumeralStep(v, b);
      RadixNumeral(v / b, b);
      RadixSnoc(Numeral(v / b, b), v % b, b);
      DivMod(v, b);
    }
  }

  /** Digits without a leading zero are the only way to write their number so. */
  lemma {:induction false} NumeralUnique(s: seq<int>, b: nat)
    requires 2 <= b <= 256 && Numerals(s, b) && (|s| > 0 ==> s[0] != 0)
    ensures Radix(s, b) >= 0 && (|s| > 0 ==> Radix(s, b) > 0)
    ensures Numeral(Radix(s, b), b) == s
  {
    if |s| > 0 {
      hide Radix, Numeral;
      var t, d := s[..|s| - 1], s[|s| - 1];
      NumeralUnique(t, b);
      assert s == t + [d];
      RadixSnoc(t, d, b);
      LastDigit(Radix(s, b), Radix(t, b), b, d);
      assert |t| > 0 || d > 0;
      NumeralStep(Radix(s, b), b);
    }
  }

  lemma LastDigit(v: int, q: nat, b: nat, d: nat)
    requires d < b && v == b * q + d
    ensures v / b == q && v % b == d && (q > 0 || d > 0 ==> v > 0)
  {
    ModUnique(v, b, q, d);
    if q > 0 {
      MulLe(1, 1, b, q);
    }
  }

  lemma ZerosAre(n: nat)
    ensures forall k :: 0 <= k < n ==> Zeros(n)[k] == 0
  {}

  /** Changing the base and changing it back gives the same digits, leading zeros included. */
  lemma ConvertBack(s: seq<int>, a: nat, b: nat)
    requires 2 <= a <= 256 && 2 <= b <= 256 && Numerals(s, a)
    ensures Numerals(Convert(s, a, b), b) && Convert(Convert(s, a, b), b, a) == s
  {
    hide Radix, Numeral, Zeros, LeadingZeros;
    var z := LeadingZeros(s);
    RadixRange(s, a);
    var v: nat := Radix(s, a);
    var t := Convert(s, a, b);
    assert t == Zeros(z) + Numeral(v, b);
    PrefixZeros(z, Numeral(v, b));
    ZerosAre(z);
    RadixTrim(t, z, b);
    assert t[z..] == Numeral(v, b);
    RadixNumeral(v, b);
    RadixTrim(s, z, a);
    NumeralUnique(s[z..], a);
    assert s == Zeros(z) + s[z..];
  }

  lemma {:induction false} PrefixZeros(n: nat, s: seq<int>)
    requires |s| > 0 ==> s[0] != 0
    ensures LeadingZeros(Zeros(n) + s) == n
  {
    if n > 0 {
      PrefixZeros(n - 1, s);
      assert (Zeros(n) + s)[1..] == Zeros(n - 1) + s;
    }
  }

  // The alphabet

  /** b58digits_map */
  function DigitOf(c: uint8): (d: int)
    ensures -1 <= d < 58
  {
    if 49 <= c <= 57 then c - 49
    else if 65 <= c <= 72 then c - 56
    else if 74 <= c <= 78 then c - 57
    else if 80 <= c <= 90 then c - 58
    else if 97 <= c <= 107 then c - 64
    else if 109 <= c <= 122 then c - 65
    else -1
  }

  /** b58digits_ordered */
  function Symbol(d: uint8): uint8
    requires d < 58
  {
    if d < 9 then d + 49
    else if d < 17 then d + 56
    else if d < 22 then d + 57
    else if d < 33 then d + 58
    else if d < 44 then d + 64
    else d + 65
  }

  /** The symbols are the letters of the alphabet, in order, and the digit table inverts them. */
  lemma SymbolsAndDigits()
    ensures forall d: uint8 :: d < 58 ==> Symbol(d) as char == ALPHABET[d]
    ensures forall d: uint8 :: d < 58 ==> DigitOf(Symbol(d)) == d
    ensures forall c: uint8 :: DigitOf(c) >= 0 ==> Symbol(DigitOf(c)) == c
  {}

  function Symbols(s: seq<uint8>): (t: seq<uint8>)
    requires Numerals(s, 58)
    ensures |t| == |s|
  {
    seq(|s|, k requires 0 <= k < |s| => Symbol(s[k]))
  }

  predicate WellFormed(t: seq<uint8>) {
    forall k :: 0 <= k < |t| ==> DigitOf(t[k]) >= 0
  }

  function Values(t: seq<uint8>): (s: seq<uint8>)
    requires WellFormed(t)
    ensures |s| == |t| && Numerals(s, 58)
  {
    seq(|t|, k requires 0 <= k < |t| => DigitOf(t[k]))
  }

  // The code

  function Encode(data: seq<uint8>): seq<uint8> {
    ConvertDigits(data, 256, 58);
    Symbols(Convert(data, 256, 58))
  }

  function Decode(t: seq<uint8>): Decoded {
    if WellFormed(t) then Data(Convert(Values(t), 58, 256)) else Malformed
  }

  lemma ConvertDigits(s: seq<int>, a: nat, b: nat)
    requires Numerals(s, a) && 2 <= b <= 256
    ensures Numerals(Convert(s, a, b), b)
  {}

  /** Reading what was written gives the bytes back. */
  lemma DecodeEncode(data: seq<uint8>)
    ensures Decode(Encode(data)) == Data(data)
  {
    ConvertBack(data, 256, 58);
    SymbolsAndDigits();
    var s := Convert(data, 256, 58);
    assert Values(Symbols(s)) == s;
  }

  /** Every well-formed string is what its bytes are written as. */
  lemma EncodeDecode(t: seq<uint8>)
    requires WellFormed(t)
    ensures Encode(Decode(t).bytes) == t
  {
    ConvertBack(Values(t), 58, 256);
    SymbolsAndDigits();
    assert Symbols(Values(t)) == t;
  }

  // The digit buffer of b58enc is long enough

  function Digits(n: nat): (d: nat)
    ensures d >= 1
  {
    n * 138 / 100 + 1
  }

  lemma {:induction false} DigitsSuffice(n: nat)
    ensures Pow(256, n) <= Pow(58, Digits(n))
  {
    if n < 8 {
      SmallSuffice(n);
    } else {
      DigitsSuffice(n - 8);
      EightBytes();
      PowAdd(256, 8, n - 8);
      PowAdd(58, 11, Digits(n - 8));
      MulLe(Pow(256, 8), Pow(256, n - 8), Pow(58, 11), Pow(58, Digits(n - 8)));
      PowMono(58, Digits(n - 8) + 11, Digits(n));
    }
  }

  lemma EightBytes()
    ensures Pow(256, 8) == 0x1_0000_0000_0000_0000 < Pow(58, 11)
  {
    assert Pow(256, 4) == 0x1_0000_0000;
    assert Pow(58, 4) == 11316496;
    assert Pow(58, 3) == 195112;
    hide Pow;
    PowAdd(256, 4, 4);
    PowAdd(58, 4, 4);
    PowAdd(58, 8, 3);
  }

  lemma SmallSuffice(n: nat)
    requires n < 8
    ensures Pow(256, n) <= Pow(58, Digits(n))
  {
    PowersOf256();
    PowersOf58();
    hide Pow;
  }

  lemma PowersOf256()
    ensures Pow(256, 0) == 1 && Pow(256, 1) == 256 && Pow(256, 2) == 65536 && Pow(256, 3) == 16777216
    ensures Pow(256, 4) == 0x1_0000_0000 && Pow(256, 5) == 0x100_0000_0000
    ensures Pow(256, 6) == 0x1_0000_0000_0000 && Pow(256, 7) == 0x100_0000_0000_0000
  {
    assert Pow(256, 3) == 16777216 && Pow(256, 2) == 65536;
    hide Pow;
    PowAdd(256, 2, 2);
    PowAdd(256, 2, 3);
    PowAdd(256, 3, 3);
    PowAdd(256, 4, 3);
  }

  lemma PowersOf58()
    ensures Pow(58, 1) == 58 && Pow(58, 2) == 3364 && Pow(58, 3) == 195112 && Pow(58, 5) == 656356768
    ensures Pow(58, 6) == 38068692544 && Pow(58, 7) == 2207984167552 && Pow(58, 9) == 7427658739644928 && Pow(58, 10) == 430804206899405824
  {
    assert Pow(58, 3) == 195112 && Pow(58, 2) == 3364 && Pow(58, 1) == 58;
    hide Pow;
    PowAdd(58, 2, 3);
    PowAdd(58, 3, 3);
    PowAdd(58, 2, 5);
    PowAdd(58, 2, 7);
    PowAdd(58, 5, 5);
  }

  lemma {:induction false} PowMono(b: nat, m: nat, n: nat)
    requires b >= 1 && m <= n
    ensures Pow(b, m) <= Pow(b, n)
  {
    PowAdd(b, m, n - m);
    MulLe(Pow(b, m), 1, Pow(b, m), Pow(b, n - m));
  }

  // In place

  lemma RadixFront(x: int, s: seq<int>, b: nat)
    ensures Radix([x] + s, b) == x * Pow(b, |s|) + Radix(s, b)
  {
    RadixConcat([x], s, b);
    RadixSnoc([], x, b);
    assert [] + [x] == [x];
  }

  /** One digit of a multiplication by m: x * m + c leaves the digit lo and carries hi.  With t and
      s the new and the old number from here on, r and o those after this digit, w its weight. */
  lemma CarryStep(m: int, b: int, x: int, c: int, lo: int, hi: int, w: int, r: int, o: int, d: int, t: int, s: int)
    requires x * m + c == lo + hi * b && r + c * w == m * o + d
    requires t == lo * w + r && s == x * w + o
    ensures t + hi * (b * w) == m * s + d
  {
    assert (x * m + c) * w == (lo + hi * b) * w;
    assert (x * m + c) * w == m * (x * w) + c * w;
    assert (lo + hi * b) * w == lo * w + hi * (b * w);
    assert m * (x * w + o) == m * (x * w) + m * o;
  }

  lemma Step(s: seq<int>, t: seq<int>, j: nat, b: nat, m: nat, c: nat, hi: nat, d: nat)
    requires |s| == |t| && j < |s|
    requires Radix(t[j + 1..], b) + c * Pow(b, |s| - j - 1) == m * Radix(s[j + 1..], b) + d
    requires s[j] * m + c == t[j] + hi * b
    ensures Radix(t[j..], b) + hi * Pow(b, |s| - j) == m * Radix(s[j..], b) + d
  {
    hide Radix, Pow;
    RadixFront(t[j], t[j + 1..], b);
    RadixFront(s[j], s[j + 1..], b);
    assert t[j..] == [t[j]] + t[j + 1..] && s[j..] == [s[j]] + s[j + 1..];
    var w := Pow(b, |s| - j - 1);
    PowStep(b, |s| - j - 1);
    CarryStep(m, b, s[j], c, t[j], hi, w, Radix(t[j + 1..], b), Radix(s[j + 1..], b), d, Radix(t[j..], b), Radix(s[j..], b));
  }

  lemma NoCarry(r: int, c: int, w: int)
    requires r >= 0 && c >= 0 && w >= 0 && r + c * w < w
    ensures c == 0
  {
    if c >= 1 {
      MulLe(1, w, c, w);
    }
  }

  /** The inner loop of b58enc: multiply by 256 and add one byte, touching no more leading digits
      than needed. */
  method AddByte(buf: array<uint8>, high: nat, byte: uint8) returns (j: nat)
    requires high < buf.Length && Numerals(buf[..], 58)
    requires forall k :: 0 <= k <= high ==> buf[k] == 0
    requires 256 * Radix(buf[..], 58) + byte < Pow(58, buf.Length)
    modifies buf
    ensures j < buf.Length && Numerals(buf[..], 58)
    ensures Radix(buf[..], 58) == 256 * old(Radix(buf[..], 58)) + byte
    ensures j == 0 || forall k :: 0 <= k <= j ==> buf[k] == 0
  {
    hide Radix, Pow;
    ghost var s := buf[..];
    var carry: nat := byte;
    j := buf.Length - 1;
    CarryStart(s, s, 58, 256, byte);
    while j > high || carry != 0
      invariant j < |s| == buf.Length && carry < 256 && Numerals(buf[..], 58)
      invariant buf[..j + 1] == s[..j + 1]
      invariant Radix(buf[j + 1..], 58) + carry * Pow(58, |s| - j - 1) == 256 * Radix(s[j + 1..], 58) + byte
      decreases j
    {
      ghost var before, c := buf[..], carry;
      carry := carry + 256 * (buf[j] as int);
      buf[j] := carry % 58;
      carry := carry / 58;
      assert buf[j + 1..] == before[j + 1..];
      assert buf[..j] == s[..j];
      Step(s, buf[..], j, 58, 256, c, carry, byte);
      assert buf[..][j..] == buf[j..];
      if j == 0 {
        assert s[0..] == s && buf[0..] == buf[..];
        RadixRange(buf[..], 58);
        NoCarry(Radix(buf[..], 58), carry, Pow(58, |s|));
        NoTerm(carry, Pow(58, |s|));
        return;
      }
      j := j - 1;
    }
    NoTerm(carry, Pow(58, |s| - j - 1));
    assert forall k :: 0 <= k <= j ==> buf[k] == buf[..j + 1][k] == s[k];
    RadixTrim(buf[..], j + 1, 58);
    RadixTrim(s, j + 1, 58);
    assert buf[..][j + 1..] == buf[j + 1..];
  }

  lemma NoTerm(c: int, w: int)
    requires c == 0
    ensures c * w == 0
  {}

  lemma CarryStart(s: seq<int>, t: seq<int>, b: nat, m: nat, d: nat)
    requires |s| == |t|
    ensures Radix(t[|t|..], b) + d * Pow(b, 0) == m * Radix(s[|s|..], b) + d
  {}

  lemma {:induction false} TopDigitZero(s: seq<int>, b: nat, v: nat)
    requires |s| > 0 && b > 1 && Numerals(s, b) && b * Radix(s, b) <= v < Pow(b, |s|)
    ensures s[0] == 0
  {
    hide Radix, Pow;
    assert s == [s[0]] + s[1..];
    RadixFront(s[0], s[1..], b);
    RadixRange(s[1..], b);
    PowStep(b, |s| - 1);
    var w := Pow(b, |s| - 1);
    if s[0] >= 1 {
      MulLe(1, w, s[0], w);
      MulLe(b, w, b, Radix(s, b));
    }
  }

  lemma PowStep(b: nat, n: nat)
    ensures Pow(b, n + 1) == b * Pow(b, n)
  {}

  /** What the bytes read so far leave room for: the next byte still fits in the digits. */
  lemma RoomForByte(data: seq<uint8>, z: nat, i: nat)
    requires z <= i < |data| && forall k :: 0 <= k < z ==> data[k] == 0
    ensures 256 * Radix(data[..i], 256) + data[i] == Radix(data[..i + 1], 256) < Pow(58, Digits(|data| - z))
  {
    hide Radix, Pow;
    assert data[..i + 1] == data[..i] + [data[i]];
    RadixSnoc(data[..i], data[i], 256);
    RadixTrim(data[..i + 1], z, 256);
    RadixRange(data[..i + 1][z..], 256);
    PowMono(256, i + 1 - z, |data| - z);
    DigitsSuffice(|data| - z);
  }

  /** The digits of data, as many leading zeros as the buffer has to spare. */
  method ToDigits(data: seq<uint8>, z: nat, buf: array<uint8>)
    requires z <= |data| && forall k :: 0 <= k < z ==> data[k] == 0
    requires buf.Length == Digits(|data| - z)
    modifies buf
    ensures Numerals(buf[..], 58) && Radix(buf[..], 58) == Radix(data, 256)
  {
    hide Radix, Pow, Digits;
    for k := 0 to buf.Length
      invariant forall m :: 0 <= m < k ==> buf[m] == 0
    {
      buf[k] := 0;
    }
    var high: nat := buf.Length - 1;
    RadixZeros(buf[..], 58);
    RadixZeros(data[..z], 256);
    for i := z to |data|
      invariant high < buf.Length && Numerals(buf[..], 58)
      invariant Radix(buf[..], 58) == Radix(data[..i], 256)
      invariant high == 0 || forall k :: 0 <= k <= high ==> buf[k] == 0
    {
      RoomForByte(data, z, i);
      RadixRange(buf[..], 58);
      TopDigitZero(buf[..], 58, Radix(data[..i + 1], 256));
      high := AddByte(buf, high, data[i]);
    }
    assert data[..|data|] == data;
  }

  /** The digits after their leading zeros, as letters, are what follows the leading ones. */
  lemma TrimmedDigits(s: seq<uint8>, data: seq<uint8>, j: nat)
    requires j <= |s| && Numerals(s, 58) && Radix(s, 58) == Radix(data, 256)
    requires forall k :: 0 <= k < j ==> s[k] == 0
    requires j < |s| ==> s[j] != 0
    ensures |Encode(data)| == LeadingZeros(data) + |s| - j
    ensures forall k :: 0 <= k < LeadingZeros(data) ==> Encode(data)[k] == ONE
    ensures forall k :: j <= k < |s| ==> Encode(data)[LeadingZeros(data) + k - j] == Symbol(s[k])
  {
    hide Radix, Numeral, LeadingZeros;
    RadixTrim(s, j, 58);
    NumeralUnique(s[j..], 58);
    RadixRange(data, 256);
    assert Convert(data, 256, 58) == Zeros(LeadingZeros(data)) + s[j..];
  }

  /** b58enc.  b58sz is the capacity on entry; n is what the source leaves there. */
  method EncodeInto(b58: array<uint8>, b58sz: nat, data: seq<uint8>) returns (ok: bool, n: nat)
    requires b58sz <= b58.Length
    modifies b58
    ensures n == |Encode(data)| + 1 && (ok <==> n <= b58sz)
    ensures ok ==> b58[..n] == Encode(data) + [0]
    ensures forall k :: (if ok then n else 0) <= k < b58.Length ==> b58[k] == old(b58[k])
  {
    hide Radix, Pow, Encode;
    var zcount: nat := 0;
    while zcount < |data| && data[zcount] == 0
      invariant zcount <= |data| && forall k :: 0 <= k < zcount ==> data[k] == 0
    {
      zcount := zcount + 1;
    }
    ZerosFound(data, zcount);
    var size: nat := (|data| - zcount) * 138 / 100 + 1;
    var buf := new uint8[size];
    ToDigits(data, zcount, buf);
    var j: nat := 0;
    while j < size && buf[j] == 0
      invariant j <= size && forall k :: 0 <= k < j ==> buf[k] == 0
    {
      j := j + 1;
    }
    ghost var s := buf[..];
    TrimmedDigits(s, data, j);
    if b58sz <= zcount + size - j {
      return false, zcount + size - j + 1;
    }
    for i := 0 to zcount
      invariant buf[..] == s && forall k :: 0 <= k < i ==> b58[k] == ONE
      invariant forall k :: i <= k < b58.Length ==> b58[k] == old(b58[k])
    {
      b58[i] := ONE;
    }
    var i := zcount;
    while j < size
      invariant j <= size && i - zcount + size - j == |Encode(data)| - zcount
      invariant b58[..i] == Encode(data)[..i] && buf[..] == s
      invariant forall k :: i <= k < b58.Length ==> b58[k] == old(b58[k])
    {
      b58[i] := Symbol(buf[j]);
      i, j := i + 1, j + 1;
    }
    b58[i] := 0;
    return true, i + 1;
  }

  lemma ZerosFound(s: seq<int>, z: nat)
    requires z <= |s| && (forall k :: 0 <= k < z ==> s[k] == 0) && (z < |s| ==> s[z] != 0)
    ensures LeadingZeros(s) == z
  {}

  // b58tobin

  const LIMB: nat := 0x1_0000_0000

  /** The number a well-formed string stands for. */
  function Number(t: seq<uint8>): nat
    requires WellFormed(t)
  {
    RadixRange(Values(t), 58);
    Radix(Values(t), 58)
  }

  lemma NumberSnoc(t: seq<uint8>, i: nat)
    requires i < |t| && WellFormed(t[..i]) && DigitOf(t[i]) >= 0
    ensures WellFormed(t[..i + 1]) && Number(t[..i + 1]) == 58 * Number(t[..i]) + DigitOf(t[i])
  {
    hide Radix;
    assert t[..i + 1] == t[..i] + [t[i]];
    assert Values(t[..i + 1]) == Values(t[..i]) + [DigitOf(t[i])];
    RadixSnoc(Values(t[..i]), DigitOf(t[i]), 58);
  }

  lemma {:induction false} NumberGrows(t: seq<uint8>, i: nat)
    requires i <= |t| && WellFormed(t)
    ensures Number(t[..i]) <= Number(t)
    decreases |t| - i
  {
    if i < |t| {
      NumberSnoc(t, i);
      NumberGrows(t, i + 1);
    } else {
      assert t[..i] == t;
    }
  }

  lemma NumeralLength(v: nat, n: nat)
    requires v >= Pow(256, n)
    ensures |Numeral(v, 256)| > n
  {
    RadixRange(Numeral(v, 256), 256);
    RadixNumeral(v, 256);
    if |Numeral(v, 256)| <= n {
      PowMono(256, |Numeral(v, 256)|, n);
    }
  }

  /** Once a prefix is too big for n bytes, so is the whole string. */
  lemma TooBig(t: seq<uint8>, i: nat, n: nat)
    requires i <= |t| && WellFormed(t[..i]) && Number(t[..i]) >= Pow(256, n)
    ensures WellFormed(t) ==> Number(t) >= Pow(256, n) && |Decode(t).bytes| > n
  {
    if WellFormed(t) {
      NumberGrows(t, i);
      NumeralLength(Number(t), n);
    }
  }

  lemma OnesAreZeros(t: seq<uint8>, z: nat)
    requires z <= |t| && WellFormed(t) && (forall k :: 0 <= k < z ==> t[k] == ONE) && (z < |t| ==> t[z] != ONE)
    ensures LeadingZeros(Values(t)) == z
  {
    ZerosFound(Values(t), z);
  }

  /** outi := outi * 58 + d; the result is what does not fit. */
  method MulAdd(outi: array<uint32>, d: uint32) returns (c: uint32)
    requires d < 58
    modifies outi
    ensures Radix(outi[..], LIMB) + c * Pow(LIMB, outi.Length) == 58 * old(Radix(outi[..], LIMB)) + d
  {
    hide Radix, Pow;
    ghost var s := outi[..];
    c := d;
    var j: nat := outi.Length;
    CarryStart(s, s, LIMB, 58, d);
    while j > 0
      invariant j <= |s| == outi.Length && c < 58 && outi[..j] == s[..j]
      invariant Radix(outi[j..], LIMB) + c * Pow(LIMB, |s| - j) == 58 * Radix(s[j..], LIMB) + d
    {
      j := j - 1;
      ghost var before, was := outi[..], c;
      var t: uint64 := (outi[j] as int) * 58 + c;
      c := t / 0x1_0000_0000;
      outi[j] := t % 0x1_0000_0000;
      assert outi[j + 1..] == before[j + 1..] && outi[..j] == s[..j];
      Step(s, outi[..], j, LIMB, 58, was, c, d);
      assert outi[..][j..] == outi[j..];
    }
    assert s[0..] == s && outi[0..] == outi[..];
  }

  lemma {:induction false} LimbPow(n: nat)
    ensures Pow(LIMB, n) == Pow(256, 4 * n)
  {
    if n > 0 {
      LimbPow(n - 1);
      PowersOf256();
      PowAdd(256, 4, 4 * (n - 1));
    }
  }

  lemma LimbBytes(n: nat, k: nat)
    ensures Pow(256, 4 * n + k) == Pow(256, k) * Pow(LIMB, n)
  {
    LimbPow(n);
    PowAdd(256, k, 4 * n);
  }

  /** The mask test on the first limb is the test whether the number needs more than the bytes. */
  lemma FirstLimb(s: seq<uint32>, left: nat)
    requires |s| > 0 && 0 < left <= 4
    ensures 0 <= Radix(s, LIMB)
    ensures Radix(s, LIMB) < Pow(256, 4 * (|s| - 1) + left) <==> s[0] < Pow(256, left)
  {
    hide Radix, Pow;
    var w := Pow(LIMB, |s| - 1);
    assert s == [s[0]] + s[1..];
    RadixFront(s[0], s[1..], LIMB);
    RadixRange(s[1..], LIMB);
    RadixRange(s, LIMB);
    LimbBytes(|s| - 1, left);
    HeadDecides(s[0], Radix(s[1..], LIMB), w, Pow(256, left));
  }

  lemma HeadDecides(x: int, r: int, w: int, p: int)
    requires 0 <= r < w
    ensures x * w + r < p * w <==> x < p
  {
    if x < p {
      MulLe(1, w, p - x, w);
    } else {
      MulLe(0, w, x - p, w);
    }
  }

  /** The cnt lowest bytes of v, most significant first. */
  method PutBytes(bin: array<uint8>, at: nat, v: uint32, cnt: nat)
    requires cnt <= 4 && at + cnt <= bin.Length && v < Pow(256, cnt)
    modifies bin
    ensures Radix(bin[at..at + cnt], 256) == v
    ensures forall k :: 0 <= k < bin.Length && !(at <= k < at + cnt) ==> bin[k] == old(bin[k])
  {
    hide Radix, Pow;
    Whole(v, Pow(256, cnt));
    assert bin[at..at] == [];
    for i := 0 to cnt
      invariant Radix(bin[at..at + i], 256) == v / Pow(256, cnt - i)
      invariant forall k :: 0 <= k < bin.Length && !(at <= k < at + i) ==> bin[k] == old(bin[k])
    {
      ghost var s := bin[at..at + i];
      bin[at + i] := v / Pow(256, cnt - i - 1) % 256;
      assert bin[at..at + (i + 1)] == s + [bin[at + i]];
      RadixSnoc(s, bin[at + i], 256);
      PowStep(256, cnt - i - 1);
      NextByte(v, Pow(256, cnt - i - 1));
    }
    assert Pow(256, 0) == 1 by {
      PowersOf256();
    }
  }

  lemma Whole(v: nat, p: nat)
    requires v < p
    ensures v / p == 0 && Radix([], 256) == 0
  {}

  lemma NextByte(v: nat, p: nat)
    requires p > 0
    ensures 256 * (v / (256 * p)) + v / p % 256 == v / p
  {
    var u := v / p;
    var q, h, r := u / 256, u % 256, v % p;
    assert v == u * p + r;
    Regroup(q, h, p);
    NextDigit(p, h, r, 256);
    ModUnique(v, 256 * p, q, p * h + r);
  }

  lemma Regroup(q: int, h: int, p: int)
    ensures (256 * q + h) * p == q * (256 * p) + p * h
  {}

  /** The bytes of all limbs, of the first one only its lowest left bytes. */
  method Spill(limbs: seq<uint32>, left: nat, bin: array<uint8>)
    requires |limbs| > 0 && 0 < left <= 4 && bin.Length == 4 * (|limbs| - 1) + left
    requires limbs[0] < Pow(256, left)
    modifies bin
    ensures Radix(bin[..], 256) == Radix(limbs, LIMB)
  {
    hide Radix, Pow;
    PutBytes(bin, 0, limbs[0], left);
    assert limbs[..1] == [] + [limbs[0]];
    RadixSnoc([], limbs[0], LIMB);
    Empty(LIMB);
    assert bin[0..left] == bin[..left];
    var at := left;
    for j := 1 to |limbs|
      invariant at == 4 * (j - 1) + left
      invariant Radix(bin[..at], 256) == Radix(limbs[..j], LIMB)
    {
      ghost var s := bin[..at];
      PowersOf256();
      PutBytes(bin, at, limbs[j], 4);
      assert bin[..at] == s;
      assert bin[..at + 4] == s + bin[at..at + 4];
      RadixConcat(s, bin[at..at + 4], 256);
      assert limbs[..j + 1] == limbs[..j] + [limbs[j]];
      RadixSnoc(limbs[..j], limbs[j], LIMB);
      at := at + 4;
    }
    assert limbs[..|limbs|] == limbs && bin[..at] == bin[..];
  }

  lemma Empty(b: nat)
    ensures Radix([], b) == 0 && b * 0 == 0
  {}

  lemma CarriedOut(r: int, c: int, n: nat, left: nat)
    requires r >= 0 && c >= 1 && n > 0 && left <= 4
    ensures r + c * Pow(LIMB, n) >= Pow(256, 4 * (n - 1) + left)
  {
    hide Pow;
    LimbPow(n);
    PowMono(256, 4 * (n - 1) + left, 4 * n);
    MulLe(1, Pow(LIMB, n), c, Pow(LIMB, n));
  }

  lemma Starts(t: seq<uint8>, z: nat, n: nat)
    requires z <= |t| && forall k :: 0 <= k < z ==> t[k] == ONE
    ensures WellFormed(t[..z]) && Number(t[..z]) == 0 < Pow(256, n)
  {
    RadixZeros(Values(t[..z]), 58);
  }

  /** The loops of b58tobin: the whole string as one number in limbs, or the finding that it is no
      Base58 string or needs more than binsz bytes. */
  method ReadNumber(b58: seq<uint8>, zerocount: nat, binsz: nat, outi: array<uint32>, left: nat) returns (ok: bool)
    requires zerocount <= |b58| && forall k :: 0 <= k < zerocount ==> b58[k] == ONE
    requires outi.Length > 0 && 0 < left <= 4 && binsz == 4 * (outi.Length - 1) + left
    modifies outi
    ensures ok <==> WellFormed(b58) && Number(b58) < Pow(256, binsz)
    ensures ok ==> Radix(outi[..], LIMB) == Number(b58) && outi[0] < Pow(256, left)
    ensures !ok && WellFormed(b58) ==> |Decode(b58).bytes| > binsz
  {
    hide Radix, Pow, Number, Decode, Zeros;
    for k := 0 to outi.Length
      invariant forall m :: 0 <= m < k ==> outi[m] == 0
    {
      outi[k] := 0;
    }
    RadixZeros(outi[..], LIMB);
    Starts(b58, zerocount, binsz);
    FirstLimb(outi[..], left);
    for i := zerocount to |b58|
      invariant WellFormed(b58[..i]) && Number(b58[..i]) < Pow(256, binsz)
      invariant Radix(outi[..], LIMB) == Number(b58[..i]) && outi[0] < Pow(256, left)
    {
      if b58[i] >= 128 || DigitOf(b58[i]) == -1 {
        return false;
      }
      var c := MulAdd(outi, DigitOf(b58[i]));
      NumberSnoc(b58, i);
      FirstLimb(outi[..], left);
      if c != 0 {
        CarriedOut(Radix(outi[..], LIMB), c, outi.Length, left);
        TooBig(b58, i + 1, binsz);
        return false;
      }
      NoTerm(c, Pow(LIMB, outi.Length));
      if left < 4 && outi[0] / Pow(256, left) != 0 {
        AtLeast(outi[0], Pow(256, left));
        TooBig(b58, i + 1, binsz);
        return false;
      }
      Below(outi[0], left);
    }
    assert b58[..|b58|] == b58;
    return true;
  }

  lemma AtLeast(x: nat, p: nat)
    requires p > 0 && x / p != 0
    ensures x >= p
  {}

  lemma Below(x: uint32, left: nat)
    requires 0 < left <= 4 && (left < 4 ==> x / Pow(256, left) == 0)
    ensures x < Pow(256, left)
  {
    if left == 4 {
      PowersOf256();
    } else {
      DivMod(x, Pow(256, left));
    }
  }

  /** The bytes from the first non-zero one are the numeral. */
  lemma TrimmedBytes(s: seq<uint8>, t: seq<uint8>, i: nat, z: nat)
    requires WellFormed(t) && LeadingZeros(Values(t)) == z && Radix(s, 256) == Number(t)
    requires i <= |s| && (forall k :: 0 <= k < i ==> s[k] == 0) && (i < |s| ==> s[i] != 0)
    ensures Decode(t) == Data(Zeros(z) + s[i..])
  {
    hide Radix, Numeral, LeadingZeros;
    RadixTrim(s, i, 256);
    NumeralUnique(s[i..], 256);
  }

  /** b58tobin.  n is what the source leaves in *binszp: how many bytes at the end of bin count. */
  method DecodeInto(bin: array<uint8>, b58: seq<uint8>) returns (ok: bool, n: nat)
    modifies bin
    ensures ok <==> bin.Length > 0 && Decode(b58).Data? && |Decode(b58).bytes| <= bin.Length
    ensures ok ==> n == |Decode(b58).bytes| && bin[bin.Length - n..] == Decode(b58).bytes
    ensures !ok ==> n == bin.Length
    ensures !ok ==> bin[..] == old(bin[..]) || (WellFormed(b58) && Radix(bin[..], 256) == Number(b58))
  {
    hide Radix, Pow, Number, Decode, Zeros;
    if bin.Length == 0 {
      return false, 0;
    }
    var outi := new uint32[(bin.Length + 3) / 4];
    var left: nat := if bin.Length % 4 == 0 then 4 else bin.Length % 4;
    var zerocount: nat := 0;
    while zerocount < |b58| && b58[zerocount] == ONE
      invariant zerocount <= |b58| && forall k :: 0 <= k < zerocount ==> b58[k] == ONE
    {
      zerocount := zerocount + 1;
    }
    DecodeMeans(b58);
    var fits := ReadNumber(b58, zerocount, bin.Length, outi, left);
    if !fits {
      return false, bin.Length;
    }
    OnesAreZeros(b58, zerocount);
    Spill(outi[..], left, bin);
    var i: nat := 0;
    while i < bin.Length && bin[i] == 0
      invariant i <= bin.Length && forall k :: 0 <= k < i ==> bin[k] == 0
    {
      i := i + 1;
    }
    TrimmedBytes(bin[..], b58, i, zerocount);
    if zerocount > i {
      return false, bin.Length;
    }
    n := bin.Length - i + zerocount;
    TailIs(bin[..], i, zerocount);
    assert bin[bin.Length - n..] == bin[..][bin.Length - n..];
    return true, n;
  }

  lemma TailIs(s: seq<uint8>, i: nat, z: nat)
    requires z <= i <= |s| && forall k :: 0 <= k < i ==> s[k] == 0
    ensures s[i - z..] == Zeros(z) + s[i..]
  {}

  lemma DecodeMeans(t: seq<uint8>)
    ensures Decode(t).Data? <==> WellFormed(t)
  {}
}
