/** lib/trezor-crypto/ecdsa.c, DER signatures: two INTEGERs in a SEQUENCE, sections 8.3.2 and 10.1
    of ITU-T X.690. */
module Der {
  import opened Words
  import opened Bytes

  // ---------------------------------------------------------------- the encoding

  /** Without leading zeros, but not empty. */
  function Stripped(s: seq<uint8>): (t: seq<uint8>)
    requires |s| > 0
    ensures 0 < |t| <= |s| && (|t| > 1 ==> t[0] != 0)
  {
    if |s| > 1 && s[0] == 0 then Stripped(s[1..]) else s
  }

  /** The contents octets: the shortest two's complement form. */
  function Contents(s: seq<uint8>): (c: seq<uint8>)
    requires |s| > 0
    ensures 0 < |c| <= |s| + 1 && c[0] < 0x80
  {
    var t := Stripped(s);
    if t[0] >= 0x80 then [0] + t else t
  }

  function Integer(s: seq<uint8>): (d: seq<uint8>)
    requires |s| == 32
    ensures 3 <= |d| <= 35
  {
    [2, |Contents(s)|] + Contents(s)
  }

  function SigToDer(sig: seq<uint8>): (d: seq<uint8>)
    requires |sig| == 64
    ensures 8 <= |d| <= 72
  {
    var r, s := Integer(sig[..32]), Integer(sig[32..]);
    [0x30, |r| + |s|] + r + s
  }

  lemma {:induction false} StrippedPads(s: seq<uint8>)
    requires |s| > 0
    ensures Zeros(|s| - |Stripped(s)|) + Stripped(s) == s
  {
    if |s| > 1 && s[0] == 0 {
      StrippedPads(s[1..]);
      assert s == [0] + s[1..];
      assert Zeros(|s| - |Stripped(s)|) == [0] + Zeros(|s| - 1 - |Stripped(s)|);
    } else {
      assert Zeros(0) == [];
    }
  }

  lemma {:induction false} StrippedOfPadded(n: nat, t: seq<uint8>)
    requires |t| > 0 && (|t| > 1 ==> t[0] != 0)
    ensures Stripped(Zeros(n) + t) == t
  {
    var s := Zeros(n) + t;
    if n == 0 {
      assert s == t;
    } else {
      assert s[1..] == Zeros(n - 1) + t;
      StrippedOfPadded(n - 1, t);
    }
  }

  // ---------------------------------------------------------------- writing

  /** Past the leading zeros, but not past the last octet. */
  method SkipZeros(sig: array<uint8>, lo: nat) returns (i: nat)
    requires lo + 32 <= sig.Length
    ensures lo <= i < lo + 32 && sig[i..lo + 32] == Stripped(sig[lo..lo + 32])
  {
    i := lo;
    while i < lo + 31 && sig[i] == 0
      invariant lo <= i <= lo + 31 && Stripped(sig[lo..lo + 32]) == Stripped(sig[i..lo + 32])
    {
      assert sig[i..lo + 32][1..] == sig[i + 1..lo + 32];
      i := i + 1;
    }
  }

  /** Appends the INTEGER of the 32 bytes at lo. */
  method PutInteger(sig: array<uint8>, lo: nat, der: array<uint8>, start: nat) returns (p: nat)
    requires lo + 32 <= sig.Length && start + 35 <= der.Length && sig != der
    modifies der
    ensures p == start + |Integer(sig[lo..lo + 32])|
    ensures der[..p] == old(der[..start]) + Integer(sig[lo..lo + 32])
  {
    hide Stripped;
    ghost var s := sig[lo..lo + 32];
    var i := SkipZeros(sig, lo);
    ghost var t := sig[i..lo + 32];
    assert t[0] == sig[i];
    p := PutHead(der, start, sig[i] >= 0x80);
    ghost var head, before := Padding(sig[i] >= 0x80), der[..p];
    assert head + t == Contents(s);
    hide Contents, Padding;
    p := AppendOctets(sig, i, lo + 32, der, p, start + 1);
    Assembled(before, der[..p], old(der[..start]), head, t, der[start + 1]);
  }

  /** A leading zero, where the number would otherwise read as negative. */
  function Padding(pad: bool): (h: seq<uint8>)
    ensures |h| == if pad then 1 else 0
  {
    if pad then [0] else []
  }

  /** Tag, length so far, and the leading zero if there is to be one. */
  method PutHead(der: array<uint8>, start: nat, pad: bool) returns (p: nat)
    requires start + 3 <= der.Length
    modifies der
    ensures p <= der.Length && der[..p] == old(der[..start]) + [2, |Padding(pad)|] + Padding(pad)
  {
    ghost var before := der[..start];
    p := start;
    der[p] := 0x02;
    p := p + 1;
    der[p] := 0x00;
    var len := p;
    p := p + 1;
    if pad {
      der[p] := 0x00;
      p := p + 1;
      der[len] := der[len] + 1;
    }
    assert der[..start] == before;
  }

  /** Tag, length and contents, once the length is brought up to date. */
  lemma Assembled(s: seq<uint8>, u: seq<uint8>, first: seq<uint8>, head: seq<uint8>, t: seq<uint8>, len: uint8)
    requires |head| + |t| < 0x100 && s == first + [2, |head|] + head && |u| == |s| + |t|
    requires u[..|first| + 1] == s[..|first| + 1] && u[|first| + 1] == len == |head| + |t|
    requires u[|first| + 2..|s|] == s[|first| + 2..] && u[|s|..] == t
    ensures u == first + ([2, |head + t|] + (head + t))
  {
    assert s[..|first| + 1] == first + [2] && s[|first| + 2..] == head;
    assert u == u[..|first| + 1] + [u[|first| + 1]] + u[|first| + 2..|s|] + u[|s|..];
  }

  /** Copies sig[i..hi] to der[p..], counting the octets in der[len]. */
  method AppendOctets(sig: array<uint8>, i: nat, hi: nat, der: array<uint8>, p: nat, len: nat) returns (end: nat)
    requires i <= hi <= sig.Length && len < p && p + (hi - i) <= der.Length && sig != der && der[len] + (hi - i) < 0x100
    modifies der
    ensures end == p + (hi - i) && der[p..end] == sig[i..hi] && der[len] == old(der[len]) + (hi - i)
    ensures der[..len] == old(der[..len]) && der[len + 1..p] == old(der[len + 1..p])
  {
    end := p;
    for k := i to hi
      invariant end == p + (k - i) && der[p..end] == sig[i..k] && der[len] == old(der[len]) + (k - i)
      invariant der[..len] == old(der[..len]) && der[len + 1..p] == old(der[len + 1..p])
    {
      der[end] := sig[k];
      end := end + 1;
      der[len] := der[len] + 1;
      assert der[p..end] == sig[i..k] + [sig[k]];
    }
  }

  method EcdsaSigToDer(sig: array<uint8>, der: array<uint8>) returns (len: nat)
    requires sig.Length == 64 && der.Length >= 72 && sig != der
    modifies der
    ensures len <= 72 && der[..len] == SigToDer(sig[..])
  {
    hide Integer;
    ghost var r, s := Integer(sig[..32]), Integer(sig[32..]);
    assert sig[0..32] == sig[..][..32] && sig[32..64] == sig[..][32..];
    der[0] := 0x30;
    der[1] := 0x00;
    var p := PutInteger(sig, 0, der, 2);
    assert der[..p] == [0x30, 0] + r;
    var p2 := PutInteger(sig, 32, der, p);
    assert der[..p2] == [0x30, 0] + r + s;
    der[1] := p - 4 + (p2 - p - 2) + 4;
    len := p2;
    assert der[..len] == [0x30, |r| + |s|] + r + s;
  }

  // ---------------------------------------------------------------- reading

  /** The INTEGER at pos is the one of the 32 bytes v, and ends before end. */
  ghost predicate IntegerAt(d: seq<uint8>, pos: nat, v: seq<uint8>, end: nat) {
    |v| == 32 && pos <= end <= |d| && d[pos..end] == Integer(v)
  }

  /** No 32 bytes have their INTEGER at pos. */
  ghost predicate NoIntegerAt(d: seq<uint8>, pos: nat) {
    forall v: seq<uint8>, end: nat :: !IntegerAt(d, pos, v, end)
  }

  lemma IntegerFacts(d: seq<uint8>, pos: nat, v: seq<uint8>, end: nat)
    requires IntegerAt(d, pos, v, end)
    ensures var c := Contents(v); pos + 2 < |d| && d[pos] == 2 && d[pos + 1] == |c| && end == pos + 2 + |c| && d[pos + 2..end] == c
  {
    var i := d[pos..end];
    assert i[0] == d[pos] && i[1] == d[pos + 1] && i[2..] == d[pos + 2..end];
  }

  /** The contents octets, with an optional null octet dropped, are what was stripped. */
  lemma ContentsIs(v: seq<uint8>, c: seq<uint8>, t: seq<uint8>)
    requires |v| == 32 && 0 < |c| && c[0] < 0x80 && |t| <= 32
    requires if |c| > 1 && c[0] == 0 then t == c[1..] && t[0] >= 0x80 else t == c
    requires v == Zeros(32 - |t|) + t
    ensures Contents(v) == c
  {
    StrippedOfPadded(32 - |t|, t);
    if t != c {
      assert c == [0] + t;
    }
  }

  lemma Accept(d: seq<uint8>, pos: nat, end: nat, v: seq<uint8>, c: seq<uint8>, t: seq<uint8>)
    requires pos + 2 < end <= |d| && d[pos] == 2 && d[pos + 1] == |c| && d[pos + 2..end] == c && c[0] < 0x80 && |t| <= 32
    requires if |c| > 1 && c[0] == 0 then t == c[1..] && t[0] >= 0x80 else t == c
    requires v == Zeros(32 - |t|) + t
    ensures IntegerAt(d, pos, v, end)
  {
    ContentsIs(v, c, t);
    assert d[pos..end] == [2, |c|] + c;
  }

  /** Reads one INTEGER into the 32 bytes at at, which are zero. */
  method GetInteger(der: array<uint8>, pos: nat, sig: array<uint8>, at: nat) returns (ok: bool, end: nat)
    requires 2 <= pos <= der.Length <= 72 && at + 32 <= sig.Length && sig != der
    requires forall i :: at <= i < at + 32 ==> sig[i] == 0
    modifies sig
    ensures forall i :: 0 <= i < sig.Length && !(at <= i < at + 32) ==> sig[i] == old(sig[i])
    ensures ok ==> pos <= end <= der.Length && IntegerAt(der[..], pos, sig[at..at + 32], end)
    ensures !ok ==> NoIntegerAt(der[..], pos)
  {
    hide NoIntegerAt, IntegerAt, Zeros;
    ghost var d := der[..];
    end := pos;
    if der.Length < pos + 2 || der[pos] != 0x02 {
      Refuse(d, pos);
      return false, pos;
    }
    var intLen: nat := der[pos + 1];
    end := pos + 2;
    if end + intLen > der.Length {
      Refuse(d, pos);
      return false, end;
    }
    if intLen == 0 || der[end] > 0x7f {
      Refuse(d, pos);
      return false, end;
    }
    ghost var c := d[pos + 2..pos + 2 + intLen];
    if intLen > 1 && der[end] == 0x00 {
      intLen := intLen - 1;
      end := end + 1;
      if der[end] < 0x80 {
        Refuse(d, pos);
        return false, end;
      }
    }
    if intLen > 32 {
      Refuse(d, pos);
      return false, end;
    }
    ghost var t := d[end..end + intLen];
    CopyOctets(der, end, intLen, sig, at);
    end := end + intLen;
    Accept(d, pos, end, sig[at..at + 32], c, t);
    ok := true;
  }

  /** memcpy to the low end of the 32 zero bytes at at. */
  method CopyOctets(der: array<uint8>, from: nat, n: nat, sig: array<uint8>, at: nat)
    requires n <= 32 && from + n <= der.Length && at + 32 <= sig.Length && sig != der
    requires forall i :: at <= i < at + 32 ==> sig[i] == 0
    modifies sig
    ensures forall i :: 0 <= i < sig.Length && !(at <= i < at + 32) ==> sig[i] == old(sig[i])
    ensures sig[at..at + 32] == Zeros(32 - n) + der[from..from + n]
  {
    var to := at + 32 - n;
    for k := 0 to n
      invariant forall i :: at <= i < to ==> sig[i] == 0
      invariant forall i :: to <= i < to + k ==> sig[i] == der[i - to + from]
      invariant forall i :: 0 <= i < sig.Length && !(at <= i < at + 32) ==> sig[i] == old(sig[i])
    {
      sig[to + k] := der[from + k];
    }
    assert sig[at..to] == Zeros(32 - n) && sig[to..at + 32] == der[from..from + n];
    assert sig[at..at + 32] == sig[at..to] + sig[to..at + 32];
  }

  /** The ways in which an INTEGER can be malformed, in the order of the code. */
  lemma Refuse(d: seq<uint8>, pos: nat)
    requires
      || |d| < pos + 2 || d[pos] != 2
      || pos + 2 + d[pos + 1] > |d|
      || d[pos + 1] == 0 || d[pos + 2] > 0x7f
      || (d[pos + 1] > 1 && d[pos + 2] == 0 && d[pos + 3] < 0x80)
      || (if d[pos + 1] > 1 && d[pos + 2] == 0 then d[pos + 1] > 33 else d[pos + 1] > 32)
    ensures NoIntegerAt(d, pos)
  {
    forall v: seq<uint8>, end: nat ensures !IntegerAt(d, pos, v, end) {
      if IntegerAt(d, pos, v, end) {
        IntegerFacts(d, pos, v, end);
        WellFormed(v);
      }
    }
  }

  lemma WellFormed(v: seq<uint8>)
    requires |v| == 32
    ensures var c := Contents(v); (|c| > 1 && c[0] == 0 ==> c[1] >= 0x80) && (|c| > 32 ==> c[0] == 0)
  {}

  /** No signature has these bytes for its DER form. */
  ghost predicate NoSignature(d: seq<uint8>) {
    forall s: seq<uint8> :: |s| == 64 ==> d != SigToDer(s)
  }

  lemma RefuseStart(d: seq<uint8>)
    requires |d| < 2 || |d| > 72 || d[0] != 0x30 || d[1] != |d| - 2 || NoIntegerAt(d, 2)
    ensures NoSignature(d)
  {
    hide SigToDer, IntegerAt;
    forall s: seq<uint8> | |s| == 64 ensures d != SigToDer(s) {
      if d == SigToDer(s) { DerFacts(d, s); }
    }
  }

  lemma RefuseRest(d: seq<uint8>, r: seq<uint8>, mid: nat, ok: bool, t: seq<uint8>, end: nat)
    requires IntegerAt(d, 2, r, mid) && if ok then IntegerAt(d, mid, t, end) && end != |d| else NoIntegerAt(d, mid)
    ensures NoSignature(d)
  {
    hide SigToDer, IntegerAt;
    forall s: seq<uint8> | |s| == 64 ensures d != SigToDer(s) {
      if d == SigToDer(s) {
        DerFacts(d, s);
        SameInteger(d, 2, r, mid, s[..32], 2 + |Integer(s[..32])|);
        if ok {
          SameInteger(d, mid, t, end, s[32..], |d|);
        }
      }
    }
  }

  lemma TwoIntegers(d: seq<uint8>, s: seq<uint8>, mid: nat)
    requires |s| == 64 && 2 <= |d| && d[0] == 0x30 && d[1] == |d| - 2
    requires IntegerAt(d, 2, s[0..32], mid) && IntegerAt(d, mid, s[32..64], |d|)
    ensures d == SigToDer(s)
  {
    assert d == [d[0], d[1]] + d[2..mid] + d[mid..|d|];
    assert s[..32] == s[0..32] && s[32..] == s[32..64];
  }

  /** 0 when the bytes are the DER form of a signature, which is then in sig. */
  method EcdsaSigFromDer(der: array<uint8>, sig: array<uint8>) returns (ret: int)
    requires sig.Length == 64 && sig != der
    modifies sig
    ensures ret in {0, 1}
    ensures ret == 0 ==> der[..] == SigToDer(sig[..])
    ensures ret == 1 ==> NoSignature(der[..])
  {
    hide SigToDer, IntegerAt, NoIntegerAt, NoSignature;
    for i := 0 to 64
      invariant forall j :: 0 <= j < i ==> sig[j] == 0
    {
      sig[i] := 0;
    }
    ghost var d := der[..];
    if der.Length < 2 || der.Length > 72 || der[0] != 0x30 || der[1] != der.Length - 2 {
      RefuseStart(d);
      return 1;
    }
    var ok, pos := GetInteger(der, 2, sig, 0);
    if !ok {
      RefuseStart(d);
      return 1;
    }
    ghost var r := sig[0..32];
    ghost var mid := pos;
    ok, pos := GetInteger(der, pos, sig, 32);
    assert sig[0..32] == r;
    if !ok || pos != der.Length {
      RefuseRest(d, r, mid, ok, sig[32..64], pos);
      return 1;
    }
    assert sig[..][0..32] == r && sig[..][32..64] == sig[32..64];
    TwoIntegers(d, sig[..], mid);
    ret := 0;
  }

  lemma DerFacts(d: seq<uint8>, s: seq<uint8>)
    requires |s| == 64 && d == SigToDer(s)
    ensures |d| <= 72 && d[0] == 0x30 && d[1] == |d| - 2
    ensures var mid := 2 + |Integer(s[..32])|; IntegerAt(d, 2, s[..32], mid) && IntegerAt(d, mid, s[32..], |d|)
  {
    var r, t := Integer(s[..32]), Integer(s[32..]);
    assert d[2..2 + |r|] == r && d[2 + |r|..] == t;
  }

  /** An INTEGER ends in one place only, and has one value. */
  lemma SameInteger(d: seq<uint8>, pos: nat, v: seq<uint8>, end: nat, v': seq<uint8>, end': nat)
    requires IntegerAt(d, pos, v, end) && IntegerAt(d, pos, v', end')
    ensures end == end' && v == v'
  {
    IntegerFacts(d, pos, v, end);
    IntegerFacts(d, pos, v', end');
    ContentsInjective(v, v');
  }

  lemma ContentsInjective(v: seq<uint8>, w: seq<uint8>)
    requires |v| == |w| == 32 && Contents(v) == Contents(w)
    ensures v == w
  {
    var a, b := Stripped(v), Stripped(w);
    if a[0] >= 0x80 {
      assert Contents(v)[0] == 0 && Contents(v)[1..] == a;
    }
    if b[0] >= 0x80 {
      assert Contents(w)[0] == 0 && Contents(w)[1..] == b;
    }
    assert a == b;
    StrippedPads(v);
    StrippedPads(w);
  }

  /** Different signatures have different encodings. */
  lemma SigToDerInjective(s: seq<uint8>, t: seq<uint8>)
    requires |s| == |t| == 64 && SigToDer(s) == SigToDer(t)
    ensures s == t
  {
    var d := SigToDer(s);
    DerFacts(d, s);
    DerFacts(d, t);
    SameInteger(d, 2, s[..32], 2 + |Integer(s[..32])|, t[..32], 2 + |Integer(t[..32])|);
    SameInteger(d, 2 + |Integer(s[..32])|, s[32..], |d|, t[32..], |d|);
    assert s == s[..32] + s[32..] && t == t[..32] + t[32..];
  }
}
