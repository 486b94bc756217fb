/** src/protocol/eth_tx.c: parsing a raw transaction. */
module EthTx {
  import opened Words
  import opened Bytes
  import opened Rlp

  const ETH_TX_MAX_LEN: nat := 2048
  const MAX_TX_FIELDS: nat := 12

  /** A stretch of the raw transaction. */
  datatype Field = Field(off: nat, len: nat)

  datatype Ref = Ref(isList: bool, field: Field)

  /** The parsed transaction; the fields point into the raw bytes. */
  datatype Tx = Tx(legacy: bool, chainId: uint64, isCreation: bool, to: seq<uint8>,
                   nonce: Field, gasPrice: Field, gasLimit: Field, toField: Field, value: Field, data: Field,
                   maxPriorityFee: Field, maxFee: Field, accessList: Field, v: Field, r: Field, s: Field)

  predicate Inside(f: Field, s: seq<uint8>) {
    f.off + f.len <= |s|
  }

  function Content(f: Field, s: seq<uint8>): seq<uint8>
    requires Inside(f, s)
  {
    s[f.off..f.off + f.len]
  }

  /** A header that declares less than 2^31 bytes is a header whose content was checked to be there. */
  predicate Checked(refs: seq<Ref>, s: seq<uint8>) {
    forall i :: 0 <= i < |refs| && refs[i].field.len < 0x8000_0000 ==> Inside(refs[i].field, s)
  }

  /** The items from pc on, remaining bytes of them, after those already found. */
  function Walk(s: seq<uint8>, pc: nat, remaining: int, refs: seq<Ref>): (r: Option<seq<Ref>>)
    requires remaining > 0 ==> pc + remaining <= |s|
    requires |refs| <= MAX_TX_FIELDS && Checked(refs, s)
    ensures r.Some? ==> |r.value| <= MAX_TX_FIELDS && Checked(r.value, s)
    decreases MAX_TX_FIELDS - |refs|
  {
    if remaining <= 0 then Some(refs)
    else if |refs| >= MAX_TX_FIELDS then None
    else
      var u := s[pc..pc + remaining];
      var it := Decode(u);
      DecodeInside(u);
      if it.used < 0 then None
      else Walk(s, pc + it.used, remaining - it.used, refs + [Ref(it.isList, Field(pc + it.start, it.len))])
  }

  /** The number in a field of at most eight bytes. */
  function FieldToU64(f: Field, s: seq<uint8>): (r: Option<uint64>)
    requires f.len <= 8 ==> Inside(f, s)
  {
    if f.len > 8 then None else
      U64Fits(Content(f, s));
      Some(Be(Content(f, s)))
  }

  lemma U64Fits(c: seq<uint8>)
    requires |c| <= 8
    ensures Be(c) < 0x1_0000_0000_0000_0000
  {
    BeBound(c);
    Pow64();
    var k := 8 - |c|;
    PowAdd(256, |c|, k);
    MulLe(Pow(256, |c|), 1, Pow(256, |c|), Pow(256, k));
  }

  lemma Pow64()
    ensures Pow(256, 8) == 0x1_0000_0000_0000_0000
  {
    assert Pow(256, 2) == 0x1_0000;
    hide Pow;
    PowAdd(256, 2, 2);
    PowAdd(256, 4, 4);
  }

  /** The chain id behind v: none before EIP-155. */
  function LegacyChain(v: uint64): Option<uint64> {
    if v == 0 || v == 27 || v == 28 then Some(0)
    else if v >= 35 then Some((v - 35) / 2)
    else None
  }

  const NOWHERE := Field(0, 0)

  function ZeroAddress(): seq<uint8> {
    seq(20, i => 0)
  }

  /** The destination: empty, or twenty bytes. */
  function WithTo(tx: Tx, s: seq<uint8>): Option<Tx>
    requires tx.toField.len <= 20 ==> Inside(tx.toField, s)
  {
    if tx.toField.len == 0 then Some(tx.(isCreation := true))
    else if tx.toField.len != 20 then None
    else Some(tx.(to := Content(tx.toField, s)))
  }

  function BuildLegacy(f: seq<Ref>, s: seq<uint8>): Option<Tx>
    requires |f| == 9 && Checked(f, s)
  {
    var v := if f[6].field.len > 0 then FieldToU64(f[6].field, s) else Some(0);
    if v.None? then None else
    var chain := LegacyChain(v.value);
    if chain.None? then None else
    WithTo(Tx(true, chain.value, false, ZeroAddress(), f[0].field, f[1].field, f[2].field, f[3].field, f[4].field, f[5].field,
              NOWHERE, NOWHERE, NOWHERE, f[6].field, f[7].field, f[8].field), s)
  }

  function BuildTyped(f: seq<Ref>, s: seq<uint8>): Option<Tx>
    requires |f| == 12 && Checked(f, s)
  {
    var chain := FieldToU64(f[0].field, s);
    if chain.None? || !f[8].isList then None else
    WithTo(Tx(false, chain.value, false, ZeroAddress(), f[1].field, NOWHERE, f[4].field, f[5].field, f[6].field, f[7].field,
              f[2].field, f[3].field, f[8].field, f[9].field, f[10].field, f[11].field), s)
  }

  /** The list that must make up the whole body. */
  predicate WholeList(body: seq<uint8>) {
    var outer := Decode(body);
    outer.used >= 0 && outer.isList && outer.used == |body|
  }

  function Fields(s: seq<uint8>, body: nat): (r: Option<seq<Ref>>)
    requires body < |s| && WholeList(s[body..])
    ensures r.Some? ==> Checked(r.value, s)
  {
    var hdr := ListHdr(s[body]);
    Walk(s, body + hdr, |s| - body - hdr, [])
  }

  /** eth_tx_parse */
  function Parse(s: seq<uint8>): Option<Tx> {
    if |s| == 0 || |s| > ETH_TX_MAX_LEN then None
    else if s[0] == 2 then
      if |s| < 2 || !WholeList(s[1..]) then None else
      var f := Fields(s, 1);
      if f.None? || |f.value| != 12 then None else BuildTyped(f.value, s)
    else if s[0] >= 0xc0 then
      if !WholeList(s[0..]) then None else
      var f := Fields(s, 0);
      if f.None? || |f.value| != 9 then None else BuildLegacy(f.value, s)
    else None
  }

  // ---------------------------------------------------------------- prefix-freedom

  /** The header alone determines where a whole list ends. */
  lemma WholeListEnds(a: seq<uint8>, b: seq<uint8>)
    requires WholeList(a) && WholeList(b) && a <= b
    ensures a == b
  {
    DecodePrefix(a, b[|a|..]);
    assert b == a + b[|a|..];
  }

  /** No accepted transaction continues another one. */
  lemma PrefixFree(s: seq<uint8>, t: seq<uint8>)
    requires Parse(s).Some? && Parse(t).Some? && s <= t
    ensures s == t
  {
    if s[0] == 2 {
      WholeListEnds(s[1..], t[1..]);
    } else {
      assert s[0..] == s && t[0..] == t;
      WholeListEnds(s, t);
    }
  }

  // ---------------------------------------------------------------- the parser

  method FieldNumber(raw: array<uint8>, f: Field, ghost s: seq<uint8>) returns (r: Option<uint64>)
    requires s <= raw[..] && (f.len <= 8 ==> Inside(f, s))
    ensures r == FieldToU64(f, s)
  {
    if f.len > 8 {
      return None;
    }
    U64Fits(Content(f, s));
    var v: nat := 0;
    ghost var c := Content(f, s);
    for i := 0 to f.len
      invariant v == Be(c[..i])
    {
      assert c[..i + 1][..i] == c[..i] && c[i] == raw[f.off + i];
      v := v * 256 + raw[f.off + i];
    }
    assert c[..f.len] == c;
    r := Some(v);
  }

  method Destination(raw: array<uint8>, tx: Tx, ghost s: seq<uint8>) returns (r: Option<Tx>)
    requires s <= raw[..] && (tx.toField.len <= 20 ==> Inside(tx.toField, s))
    ensures r == WithTo(tx, s)
  {
    if tx.toField.len == 0 {
      return Some(tx.(isCreation := true));
    }
    if tx.toField.len != 20 {
      return None;
    }
    assert raw[tx.toField.off..tx.toField.off + 20] == Content(tx.toField, s);
    r := Some(tx.(to := raw[tx.toField.off..tx.toField.off + 20]));
  }

  lemma NothingChecked(s: seq<uint8>)
    ensures Checked([], s)
  {}

  /** The walk over the items of the outer list. */
  method WalkItems(raw: array<uint8>, pc0: nat, remaining0: int, ghost s: seq<uint8>) returns (r: Option<seq<Ref>>)
    requires s <= raw[..] && (remaining0 > 0 ==> pc0 + remaining0 <= |s|)
    ensures r == Walk(s, pc0, remaining0, [])
  {
    hide Walk, Decode, Checked;
    NothingChecked(s);
    var f := new Ref[MAX_TX_FIELDS](i => Ref(false, NOWHERE));
    assert f[..0] == [];
    var n := 0;
    var pc: nat, remaining := pc0, remaining0;
    while remaining > 0
      invariant 0 <= n <= MAX_TX_FIELDS && (remaining > 0 ==> pc + remaining <= |s|) && Checked(f[..n], s)
      invariant Walk(s, pc0, remaining0, []) == Walk(s, pc, remaining, f[..n])
      decreases MAX_TX_FIELDS - n
    {
      ghost var before := f[..n];
      WalkStep(s, pc, remaining, before);
      if n >= MAX_TX_FIELDS {
        return None;
      }
      var it := RlpDecode(raw, pc, remaining);
      assert raw[pc..pc + remaining] == s[pc..pc + remaining];
      if it.used < 0 {
        return None;
      }
      f[n] := Ref(it.isList, Field(pc + it.start, it.len));
      assert f[..n + 1] == before + [f[n]];
      pc, remaining, n := pc + it.used, remaining - it.used, n + 1;
    }
    WalkEnd(s, pc, remaining, f[..n]);
    r := Some(f[..n]);
  }

  lemma WalkStep(s: seq<uint8>, pc: nat, remaining: int, refs: seq<Ref>)
    requires 0 < remaining && pc + remaining <= |s| && |refs| <= MAX_TX_FIELDS && Checked(refs, s)
    ensures var it := Decode(s[pc..pc + remaining]);
      if |refs| == MAX_TX_FIELDS || it.used < 0 then Walk(s, pc, remaining, refs) == None
      else var next := refs + [Ref(it.isList, Field(pc + it.start, it.len))];
        Checked(next, s) && Walk(s, pc, remaining, refs) == Walk(s, pc + it.used, remaining - it.used, next)
  {
    DecodeInside(s[pc..pc + remaining]);
    hide Decode;
  }

  lemma WalkEnd(s: seq<uint8>, pc: nat, remaining: int, refs: seq<Ref>)
    requires remaining <= 0 && |refs| <= MAX_TX_FIELDS && Checked(refs, s)
    ensures Walk(s, pc, remaining, refs) == Some(refs)
  {}

  method EthTxParse(raw: array<uint8>, len: nat) returns (r: Option<Tx>)
    requires len <= raw.Length
    ensures r == Parse(raw[..len])
  {
    hide Walk, BuildLegacy, BuildTyped, Decode, Checked;
    ghost var s := raw[..len];
    if len == 0 || len > ETH_TX_MAX_LEN {
      return None;
    }
    var body: nat, legacy := 0, true;
    if raw[0] == 0x02 {
      body, legacy := 1, false;
    } else if raw[0] == 0x01 {
      return None;
    } else if raw[0] < 0xc0 {
      return None;
    }
    var outer := RlpDecode(raw, body, len - body);
    assert raw[body..body + (len - body)] == s[body..];
    if outer.used < 0 || !outer.isList || outer.used != len - body {
      return None;
    }
    DecodeInside(s[body..]);
    var hdr := ListHdr(raw[body]);
    var f := WalkItems(raw, body + hdr, outer.len - hdr, s);
    if f.None? || |f.value| != (if legacy then 9 else 12) {
      return None;
    }
    r := Build(raw, legacy, f.value, s);
  }

  method Build(raw: array<uint8>, legacy: bool, f: seq<Ref>, ghost s: seq<uint8>) returns (r: Option<Tx>)
    requires s <= raw[..] && |f| == (if legacy then 9 else 12) && Checked(f, s)
    ensures r == if legacy then BuildLegacy(f, s) else BuildTyped(f, s)
  {
    if legacy {
      var v := Some(0);
      if f[6].field.len > 0 {
        v := FieldNumber(raw, f[6].field, s);
        if v.None? {
          return None;
        }
      }
      var chain := LegacyChain(v.value);
      if chain.None? {
        return None;
      }
      r := Destination(raw, Tx(true, chain.value, false, ZeroAddress(), f[0].field, f[1].field, f[2].field, f[3].field,
                               f[4].field, f[5].field, NOWHERE, NOWHERE, NOWHERE, f[6].field, f[7].field, f[8].field), s);
    } else {
      var chain := FieldNumber(raw, f[0].field, s);
      if chain.None? || !f[8].isList {
        return None;
      }
      r := Destination(raw, Tx(false, chain.value, false, ZeroAddress(), f[1].field, NOWHERE, f[4].field, f[5].field,
                               f[6].field, f[7].field, f[2].field, f[3].field, f[8].field, f[9].field, f[10].field, f[11].field), s);
    }
  }
}
