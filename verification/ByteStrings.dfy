/** Strings of bytes as machine words of eight bits, for the code that combines them by exclusive or. */
module ByteStrings {
  import opened Words
  import opened ModArith

  function XorByte(a: bv8, b: bv8): bv8 {
    a ^ b
  }

  lemma XorTwice(a: bv8, b: bv8)
    ensures XorByte(XorByte(a, b), b) == a
  {}

  function XorBytes(s: seq<bv8>, t: seq<bv8>): (u: seq<bv8>)
    requires |s| == |t|
    ensures |u| == |s| && forall i :: 0 <= i < |s| ==> u[i] == s[i] ^ t[i]
  {
    seq(|s|, i requires 0 <= i < |s| => s[i] ^ t[i])
  }

  lemma XorBytesAre(t: seq<bv8>, l: seq<bv8>)
    requires |t| == |l|
    ensures forall k :: 0 <= k < |t| ==> XorBytes(t, l)[k] == XorByte(t[k], l[k])
  {}

  /** v as n bytes, most significant first. */
  function BeBits(v: nat, n: nat): (s: seq<bv8>)
    ensures |s| == n
  {
    if n == 0 then [] else BeBits(v / 256, n - 1) + [(v % 256) as bv8]
  }

  function Zeros(n: nat): (z: seq<bv8>)
    ensures |z| == n && forall i :: 0 <= i < n ==> z[i] == 0
  {
    seq(n, i => 0)
  }

  // ---------------------------------------------------------------- bytes as numbers

  function AsByte(b: int): bv8
    requires 0 <= b < 256
  {
    b as bv8
  }

  function AsInt(x: bv8): (b: int)
    ensures 0 <= b < 256
  {
    x as int
  }

  function Succ(x: bv8): bv8 {
    x + 1
  }

  lemma SuccValue(x: bv8)
    ensures x == 0xff <==> AsInt(x) == 255
    ensures x != 0xff ==> AsInt(Succ(x)) == AsInt(x) + 1
  {}

  lemma ByteBack(x: bv8)
    ensures AsByte(AsInt(x)) == x
  {}

  lemma {:induction false} ByteValue(b: int)
    requires 0 <= b < 256
    ensures AsInt(AsByte(b)) == b
    decreases b, 0
  {
    if b > 0 {
      hide AsInt, AsByte, Succ;
      ByteSucc(b - 1);
      SuccValue(AsByte(b - 1));
      ByteValue(b - 1);
    }
  }

  lemma ByteSucc(b: int)
    requires 0 <= b < 256
    ensures AsByte(b) == 0xff <==> b == 255
    ensures b < 255 ==> Succ(AsByte(b)) == AsByte(b + 1)
    decreases b, 1
  {
    hide AsInt, AsByte, Succ;
    ByteValue(b);
    SuccValue(AsByte(b));
    if b < 255 {
      ByteBack(Succ(AsByte(b)));
    }
  }

  /** The number that the bytes spell. */
  function ValueOf(s: seq<bv8>): nat {
    if |s| == 0 then 0 else 256 * ValueOf(s[..|s| - 1]) + AsInt(s[|s| - 1])
  }

  lemma BitsNext(v: nat, n: nat)
    requires n > 0
    ensures BeBits(v, n) == BeBits(v / 256, n - 1) + [AsByte(v % 256)]
  {}

  lemma {:induction false} BitsOfValue(s: seq<bv8>)
    ensures BeBits(ValueOf(s), |s|) == s
  {
    hide AsByte, AsInt, BeBits;
    if |s| > 0 {
      var n := |s| - 1;
      BitsOfValue(s[..n]);
      ByteBack(s[n]);
      BitsNext(ValueOf(s), |s|);
      Digits(ValueOf(s[..n]), AsInt(s[n]));
      assert s == s[..n] + [s[n]];
    } else {
      NoBits(ValueOf(s));
    }
  }

  lemma LastByte(s: seq<bv8>, b: int)
    requires 0 <= b < 256
    ensures ValueOf(s + [AsByte(b)]) == 256 * ValueOf(s) + b
  {
    var t := s + [AsByte(b)];
    assert t[..|t| - 1] == s;
    ByteValue(b);
  }

  lemma ValueNext(v: nat, n: nat)
    requires n > 0
    ensures ValueOf(BeBits(v, n)) == 256 * ValueOf(BeBits(v / 256, n - 1)) + v % 256
  {
    BitsNext(v, n);
    LastByte(BeBits(v / 256, n - 1), v % 256);
    hide ValueOf, BeBits, AsByte;
  }

  lemma SplitMod(v: nat, p: nat)
    requires p > 0
    ensures v % (256 * p) == 256 * (v / 256 % p) + v % 256
  {
    var q, r := v / 256 / p, v / 256 % p;
    assert v / 256 == q * p + r;
    assert 256 * (q * p + r) == q * (256 * p) + 256 * r;
    ModUnique(v, 256 * p, q, 256 * r + v % 256);
  }

  lemma {:induction false} ValueOfBits(v: nat, n: nat)
    ensures ValueOf(BeBits(v, n)) == v % Pow(256, n)
    decreases n
  {
    if n > 0 {
      ValueOfBits(v / 256, n - 1);
      ValueNext(v, n);
      SplitMod(v, Pow(256, n - 1));
      hide ValueOf, BeBits;
    }
  }

  /** One more, in bytes: the carry runs through the full ones. */
  function Increment(s: seq<bv8>): (t: seq<bv8>)
    ensures |t| == |s|
  {
    if |s| == 0 then []
    else
      var n := |s| - 1;
      if s[n] != 0xff then s[..n] + [Succ(s[n])] else Increment(s[..n]) + [0]
  }

  lemma {:induction false} IncrementIs(v: nat, n: nat)
    ensures Increment(BeBits(v, n)) == BeBits(v + 1, n)
    decreases n
  {
    hide BeBits, AsByte, AsInt, Succ;
    if n > 0 {
      BitsNext(v, n);
      BitsNext(v + 1, n);
      ByteSucc(v % 256);
      var s := BeBits(v, n);
      assert s[..n - 1] == BeBits(v / 256, n - 1);
      Carry(v);
      if v % 256 == 255 {
        IncrementIs(v / 256, n - 1);
        NoByte();
      }
    } else {
      NoBits(v);
      NoBits(v + 1);
    }
  }

  lemma Digits(v: int, d: int)
    requires 0 <= d < 256
    ensures (256 * v + d) / 256 == v && (256 * v + d) % 256 == d
  {}

  lemma Carry(v: nat)
    ensures if v % 256 == 255 then (v + 1) / 256 == v / 256 + 1 && (v + 1) % 256 == 0
            else (v + 1) / 256 == v / 256 && (v + 1) % 256 == v % 256 + 1
  {}

  lemma NoBits(v: nat)
    ensures BeBits(v, 0) == []
  {}

  lemma NoByte()
    ensures AsByte(0) == 0
  {}
}
