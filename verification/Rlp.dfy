/** src/protocol/eth_tx.c, the RLP layer: Appendix B of the Ethereum Yellow Paper. */
module Rlp {
  import opened Words
  import opened Bytes

  // ---------------------------------------------------------------- decoding

  /** An item at the start of a string: the bytes it takes up (negative for an error) and where its
      content is; the content of a list is its full encoding. */
  datatype Item = Item(used: int, isList: bool, start: nat, len: nat)

  const BAD := Item(-1, false, 0, 0)

  /** A 32-bit word read as a signed number. */
  function Signed(l: uint32): int {
    if l < 0x8000_0000 then l else l - 0x1_0000_0000
  }

  function Unsigned(v: int): uint32 {
    v % 0x1_0000_0000
  }

  /** A long form: ll bytes of length, of which the code keeps 32 bits. */
  function DecodeLong(u: seq<uint8>, ll: nat, isList: bool): (r: Item)
    ensures r.used <= |u|
  {
    if |u| < 1 + ll then BAD else
    var l: uint32 := Be(u[1..1 + ll]) % 0x1_0000_0000;
    var total := 1 + ll + Signed(l);
    if |u| < total then BAD
    else if isList then Item(total, true, 0, Unsigned(total))
    else Item(total, false, 1 + ll, l)
  }

  function DecodeShort(u: seq<uint8>, l: nat, isList: bool): (r: Item)
    ensures r.used <= |u|
  {
    if |u| < 1 + l then BAD
    else if isList then Item(1 + l, true, 0, 1 + l)
    else Item(1 + l, false, 1, l)
  }

  function Decode(u: seq<uint8>): (r: Item)
    ensures r.used <= |u|
  {
    if |u| < 1 then BAD
    else if u[0] < 0x80 then Item(1, false, 0, 1)
    else if u[0] <= 0xb7 then DecodeShort(u, u[0] - 0x80, false)
    else if u[0] <= 0xbf then DecodeLong(u, u[0] - 0xb7, false)
    else if u[0] <= 0xf7 then DecodeShort(u, u[0] - 0xc0, true)
    else DecodeLong(u, u[0] - 0xf7, true)
  }

  /** Content of less than 2^31 bytes lies within the item. */
  lemma DecodeInside(u: seq<uint8>)
    ensures var r := Decode(u); r.used >= 0 && r.len < 0x8000_0000 ==> r.start + r.len <= r.used
    ensures var r := Decode(u); r.used >= 0 && r.isList ==> r.start == 0 && r.len == r.used
    ensures var r := Decode(u); r.used >= 0 ==> |u| > 0 && (r.isList <==> u[0] >= 0xc0)
  {}

  /** What an item takes up does not depend on what follows it. */
  lemma DecodePrefix(u: seq<uint8>, w: seq<uint8>)
    requires Decode(u).used >= 0
    ensures Decode(u + w) == Decode(u)
  {
    if 0xb8 <= u[0] <= 0xbf || u[0] >= 0xf8 {
      var ll := if u[0] <= 0xbf then u[0] as int - 0xb7 else u[0] as int - 0xf7;
      if |u| >= 1 + ll {
        assert (u + w)[1..1 + ll] == u[1..1 + ll];
      }
    }
  }

  /** l = (l << 8) | b in 32 bits */
  method LongLength(buf: array<uint8>, off: nat, ll: nat) returns (l: uint32)
    requires off + 1 + ll <= buf.Length
    ensures l == Be(buf[off + 1..off + 1 + ll]) % 0x1_0000_0000
  {
    l := 0;
    for i := 0 to ll
      invariant l == Be(buf[off + 1..off + 1 + i]) % 0x1_0000_0000
    {
      ghost var s := buf[off + 1..off + 1 + (i + 1)];
      assert s[..|s| - 1] == buf[off + 1..off + 1 + i];
      ShiftWord(Be(s[..|s| - 1]), buf[off + 1 + i]);
      l := Wrap32(l * 256 + buf[off + 1 + i]);
    }
  }

  lemma ShiftWord(v: nat, b: nat)
    ensures (v % 0x1_0000_0000 * 256 + b) % 0x1_0000_0000 == (256 * v + b) % 0x1_0000_0000
  {
    var q, r := v / 0x1_0000_0000, v % 0x1_0000_0000;
    assert 256 * v + b == (r * 256 + b) + 256 * q * 0x1_0000_0000;
  }

  /** rlp_decode on buf[off..off + avail) */
  method RlpDecode(buf: array<uint8>, off: nat, avail: nat) returns (r: Item)
    requires off + avail <= buf.Length
    ensures r == Decode(buf[off..off + avail])
  {
    ghost var u := buf[off..off + avail];
    if avail < 1 {
      return BAD;
    }
    var b: int := buf[off];
    if b < 0x80 {
      return Item(1, false, 0, 1);
    }
    if b <= 0xb7 {
      var l := b - 0x80;
      if avail < 1 + l {
        return BAD;
      }
      return Item(1 + l, false, 1, l);
    }
    if b <= 0xbf {
      var ll := b - 0xb7;
      if avail < 1 + ll {
        return BAD;
      }
      var l := LongLength(buf, off, ll);
      PartSlice(buf[..], off, off + avail, 1, 1 + ll);
      if avail < 1 + ll + Signed(l) {
        return BAD;
      }
      return Item(1 + ll + Signed(l), false, 1 + ll, l);
    }
    if b <= 0xf7 {
      var l := b - 0xc0;
      if avail < 1 + l {
        return BAD;
      }
      return Item(1 + l, true, 0, 1 + l);
    }
    var ll := b - 0xf7;
    if avail < 1 + ll {
      return BAD;
    }
    var l := LongLength(buf, off, ll);
    PartSlice(buf[..], off, off + avail, 1, 1 + ll);
    if avail < 1 + ll + Signed(l) {
      return BAD;
    }
    return Item(1 + ll + Signed(l), true, 0, Unsigned(1 + ll + Signed(l)));
  }

  /** rlp_list_hdr: the length of a list's header. */
  function ListHdr(b: uint8): nat {
    if b <= 0xf7 then 1 else 1 + (b - 0xf7)
  }

  // ---------------------------------------------------------------- encoding

  /** v in as few bytes as possible. */
  function MinBytes(v: nat): (s: seq<uint8>)
    ensures |s| > 0 <==> v > 0
    ensures |s| > 0 ==> s[0] > 0
  {
    if v == 0 then [] else MinBytes(v / 256) + [v % 256]
  }

  lemma {:induction false} BeMinBytes(v: nat)
    ensures Be(MinBytes(v)) == v
  {
    if v > 0 {
      BeMinBytes(v / 256);
      assert MinBytes(v)[..|MinBytes(v)| - 1] == MinBytes(v / 256);
    }
  }

  /** Minimal means no longer than anything else that spells the number. */
  lemma {:induction false} MinBytesShort(v: nat, s: seq<uint8>)
    requires v <= Be(s)
    ensures |MinBytes(v)| <= |s|
  {
    if v > 0 {
      MinBytesShort(v / 256, s[..|s| - 1]);
    }
  }

  function PutStr(s: seq<uint8>): (e: seq<uint8>)
    requires |s| < 0x1_0000_0000
    ensures |e| > 0
  {
    if |s| == 1 && s[0] < 0x80 then s
    else if |s| <= 55 then [0x80 + |s|] + s
    else
      LengthBytes(|s|);
      [0xb7 + |MinBytes(|s|)|] + MinBytes(|s|) + s
  }

  lemma LengthBytes(n: nat)
    requires n < 0x1_0000_0000
    ensures |MinBytes(n)| <= 4
  {
    var a, b, c := n / 256, n / 0x1_0000, n / 0x100_0000;
    assert MinBytes(n) == if n == 0 then [] else MinBytes(a) + [n % 256];
    assert MinBytes(a) == if a == 0 then [] else MinBytes(b) + [a % 256] by { assert a / 256 == b; }
    assert MinBytes(b) == if b == 0 then [] else MinBytes(c) + [b % 256] by { assert b / 256 == c; }
    assert MinBytes(c) == if c == 0 then [] else MinBytes(0) + [c % 256] by { assert c / 256 == 0; }
  }

  function Strip(s: seq<uint8>): (t: seq<uint8>)
    ensures |t| <= |s| && (|t| > 0 ==> t[0] > 0)
  {
    if |s| > 0 && s[0] == 0 then Strip(s[1..]) else s
  }

  /** Leading zeros do not matter to the number. */
  lemma {:induction false} BeStrip(s: seq<uint8>)
    ensures Be(Strip(s)) == Be(s)
  {
    if |s| > 0 && s[0] == 0 {
      BeStrip(s[1..]);
      assert s == [0] + s[1..];
      BeConcat([0], s[1..]);
      assert Be([0]) == 256 * Be([]) + 0 by { assert [0][..0] == []; }
    }
  }

  function PutInt(s: seq<uint8>): (e: seq<uint8>)
    requires |s| < 0x1_0000_0000
    ensures |e| > 0
  {
    PutStr(Strip(s))
  }

  function PutListHdr(n: nat): (e: seq<uint8>)
    requires n < 0x1_0000_0000
    ensures |e| > 0 && e[0] >= 0xc0 && |e| == ListHdr(e[0])
  {
    if n <= 55 then [0xc0 + n]
    else
      LengthBytes(n);
      [0xf7 + |MinBytes(n)|] + MinBytes(n)
  }

  /** An encoded string decodes to itself, whatever follows. */
  lemma DecodePutStr(s: seq<uint8>, w: seq<uint8>)
    requires |s| < 0x8000_0000
    ensures var u := PutStr(s) + w; var r := Decode(u);
      r == Item(|PutStr(s)|, false, |PutStr(s)| - |s|, |s|) && u[r.start..r.start + r.len] == s
  {
    var u := PutStr(s) + w;
    if |s| == 1 && s[0] < 0x80 {
    } else if |s| <= 55 {
    } else {
      LengthBytes(|s|);
      var m := MinBytes(|s|);
      assert u[1..1 + |m|] == m;
      BeMinBytes(|s|);
    }
  }

  /** The encoding of a string is never longer than another item with that content. */
  lemma PutStrShort(u: seq<uint8>)
    requires var r := Decode(u); r.used >= 0 && !r.isList && r.len < 0x8000_0000
    ensures var r := Decode(u); r.start + r.len <= r.used && |PutStr(u[r.start..r.start + r.len])| <= r.used
  {
    var r := Decode(u);
    if u[0] >= 0xb8 {
      var ll := u[0] - 0xb7;
      LengthBytes(r.len);
      ModLe(Be(u[1..1 + ll]));
      MinBytesShort(r.len, u[1..1 + ll]);
    }
  }

  lemma ModLe(v: nat)
    ensures v % 0x1_0000_0000 <= v
  {}

  /** Stripping leading zeros does not make an encoding longer. */
  lemma PutIntShort(s: seq<uint8>)
    requires |s| < 0x1_0000_0000
    ensures |PutInt(s)| <= |PutStr(s)|
  {
    var t := Strip(s);
    LengthBytes(|s|);
    LengthBytes(|t|);
    BeMinBytes(|s|);
    MinBytesShort(|t|, MinBytes(|s|));
    StripSame(s);
  }

  lemma StripSame(s: seq<uint8>)
    ensures |Strip(s)| == |s| ==> Strip(s) == s
  {}

  // ---------------------------------------------------------------- encoding in place

  /** v >> 8k */
  function Shr8(v: nat, k: nat): nat {
    if k == 0 then v else Shr8(v / 256, k - 1)
  }

  lemma {:induction false} MinBytesAt(v: nat, k: nat)
    requires k < |MinBytes(v)|
    ensures MinBytes(v)[|MinBytes(v)| - 1 - k] == Shr8(v, k) % 256
  {
    if k > 0 {
      MinBytesAt(v / 256, k - 1);
    }
  }

  /** The number of bytes of a length. */
  method CountBytes(len: uint32) returns (ll: nat)
    ensures ll == |MinBytes(len)|
  {
    var t: nat := len;
    ll := 0;
    while t != 0
      invariant |MinBytes(len)| == ll + |MinBytes(t)|
      decreases t
    {
      ll := ll + 1;
      t := t / 256;
    }
  }

  /** The length bytes, most significant first, after a byte that tells how many there are. */
  method PutLength(out: array<uint8>, at: nat, len: uint32, base: uint8) returns (n: nat)
    requires len > 0 && base + |MinBytes(len)| < 0x100 && at + 1 + |MinBytes(len)| <= out.Length
    modifies out
    ensures n == 1 + |MinBytes(len)| && out[at..at + n] == [base + |MinBytes(len)|] + MinBytes(len)
    ensures forall i :: 0 <= i < out.Length && !(at <= i < at + n) ==> out[i] == old(out[i])
  {
    var ll := CountBytes(len);
    ghost var m := MinBytes(len);
    out[at] := base + ll;
    for i := 0 to ll
      invariant out[at] == base + ll && out[at + 1..at + 1 + i] == m[..i]
      invariant forall i :: 0 <= i < out.Length && !(at <= i < at + 1 + ll) ==> out[i] == old(out[i])
    {
      MinBytesAt(len, ll - 1 - i);
      out[at + 1 + i] := Shr8(len, ll - 1 - i) % 256;
      assert out[at + 1..at + 1 + (i + 1)] == m[..i] + [m[i]];
    }
    n := 1 + ll;
    assert out[at..at + n] == [out[at]] + out[at + 1..at + 1 + ll];
  }

  /** rlp_put_str */
  method RlpPutStr(out: array<uint8>, at: nat, src: array<uint8>, off: nat, len: uint32) returns (n: nat)
    requires off + len <= src.Length && out != src && at + |PutStr(src[off..off + len])| <= out.Length
    modifies out
    ensures n == |PutStr(src[off..off + len])| && out[at..at + n] == PutStr(src[off..off + len])
    ensures forall i :: 0 <= i < out.Length && !(at <= i < at + n) ==> out[i] == old(out[i])
  {
    PutStrIs(src[off..off + len], src[..], off);
    hide *;
    if len == 1 && src[off] < 0x80 {
      CopyInto(out, at, src, off, 1);
      n := 1;
    } else if len <= 55 {
      n := RlpPutShort(out, at, src, off, len);
    } else {
      n := RlpPutLong(out, at, src, off, len);
    }
  }

  /** The three forms of a string, which starts at off. */
  lemma PutStrIs(s: seq<uint8>, src: seq<uint8>, off: nat)
    requires |s| < 0x1_0000_0000 && off + |s| <= |src| && s == src[off..off + |s|]
    ensures |s| == 1 && src[off] < 0x80 ==> PutStr(s) == s
    ensures |s| <= 55 && !(|s| == 1 && src[off] < 0x80) ==> PutStr(s) == [0x80 + |s|] + s
    ensures |s| > 55 ==> PutStr(s) == [0xb7 + |MinBytes(|s|)|] + MinBytes(|s|) + s
  {}

  method RlpPutShort(out: array<uint8>, at: nat, src: array<uint8>, off: nat, len: uint32) returns (n: nat)
    requires off + len <= src.Length && out != src && len <= 55 && at + 1 + len <= out.Length
    modifies out
    ensures n == 1 + len && out[at..at + n] == [0x80 + len] + src[off..off + len]
    ensures forall i :: 0 <= i < out.Length && !(at <= i < at + n) ==> out[i] == old(out[i])
  {
    out[at] := 0x80 + len;
    CopyInto(out, at + 1, src, off, len);
    n := 1 + len;
    assert out[at..at + n] == [out[at]] + out[at + 1..at + 1 + len];
  }

  method RlpPutLong(out: array<uint8>, at: nat, src: array<uint8>, off: nat, len: uint32) returns (n: nat)
    requires off + len <= src.Length && out != src && len > 55 && at + 1 + |MinBytes(len)| + len <= out.Length
    modifies out
    ensures n == 1 + |MinBytes(len)| + len && |MinBytes(len)| <= 4
    ensures out[at..at + n] == [0xb7 + |MinBytes(len)|] + MinBytes(len) + src[off..off + len]
    ensures forall i :: 0 <= i < out.Length && !(at <= i < at + n) ==> out[i] == old(out[i])
  {
    LengthBytes(len);
    hide MinBytes;
    var h := PutLength(out, at, len, 0xb7);
    ghost var head := out[at..at + h];
    CopyInto(out, at + h, src, off, len);
    n := h + len;
    assert out[at..at + h] == head;
    assert out[at..at + n] == out[at..at + h] + out[at + h..at + n];
  }

  /** rlp_put_int */
  method RlpPutInt(out: array<uint8>, at: nat, src: array<uint8>, off: nat, len: uint32) returns (n: nat)
    requires off + len <= src.Length && out != src && at + |PutInt(src[off..off + len])| <= out.Length
    modifies out
    ensures n == |PutInt(src[off..off + len])| && out[at..at + n] == PutInt(src[off..off + len])
    ensures forall i :: 0 <= i < out.Length && !(at <= i < at + n) ==> out[i] == old(out[i])
  {
    var p: nat, left: nat := off, len;
    while left > 0 && src[p] == 0
      invariant p + left == off + len && Strip(src[off..off + len]) == Strip(src[p..p + left])
    {
      assert src[p..p + left][1..] == src[p + 1..p + left];
      p, left := p + 1, left - 1;
    }
    assert Strip(src[p..p + left]) == src[p..p + left];
    n := RlpPutStr(out, at, src, p, left);
  }

  /** rlp_put_list_hdr */
  method RlpPutListHdr(out: array<uint8>, at: nat, len: uint32) returns (n: nat)
    requires at + |PutListHdr(len)| <= out.Length
    modifies out
    ensures n == |PutListHdr(len)| && out[at..at + n] == PutListHdr(len)
    ensures forall i :: 0 <= i < out.Length && !(at <= i < at + n) ==> out[i] == old(out[i])
  {
    if len <= 55 {
      out[at] := 0xc0 + len;
      return 1;
    }
    LengthBytes(len);
    n := PutLength(out, at, len, 0xf7);
  }

  /** u64_to_be: the minimal bytes, in an array of eight. */
  method U64ToBe(v0: uint64) returns (out: array<uint8>, n: nat)
    ensures fresh(out) && out.Length == 8 && n <= 8 && out[..n] == MinBytes(v0)
  {
    ghost var m := MinBytes(v0);
    EightBytes(v0);
    out := new uint8[8];
    var tmp := new uint8[8];
    n := 0;
    var v: nat := v0;
    while v != 0
      invariant |m| == n + |MinBytes(v)| && Shr8(v0, n) == v
      invariant forall k :: 0 <= k < n ==> tmp[k] == m[|m| - 1 - k]
      decreases v
    {
      MinBytesAt(v0, n);
      Shr8Next(v0, n);
      tmp[n] := v % 256;
      n, v := n + 1, v / 256;
    }
    for i := 0 to n
      invariant forall k :: 0 <= k < i ==> out[k] == m[k]
      invariant forall k :: 0 <= k < n ==> tmp[k] == m[|m| - 1 - k]
    {
      assert tmp[n - 1 - i] == m[i];
      out[i] := tmp[n - 1 - i];
    }
    assert out[..n] == m;
  }

  lemma {:induction false} Shr8Next(v: nat, k: nat)
    ensures Shr8(v, k + 1) == Shr8(v, k) / 256
  {
    if k > 0 {
      Shr8Next(v / 256, k - 1);
    }
  }

  lemma EightBytes(v: uint64)
    ensures |MinBytes(v)| <= 8
  {
    var w := v / 256 / 256 / 256 / 256;
    LengthBytes(w);
    assert |MinBytes(v)| <= 1 + |MinBytes(v / 256)|;
    assert |MinBytes(v / 256)| <= 1 + |MinBytes(v / 256 / 256)|;
    assert |MinBytes(v / 256 / 256)| <= 1 + |MinBytes(v / 256 / 256 / 256)|;
    assert |MinBytes(v / 256 / 256 / 256)| <= 1 + |MinBytes(w)|;
  }
}
