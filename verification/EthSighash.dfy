/** src/protocol/eth_tx.c: the bytes that are hashed for signing, EIP-155 and EIP-1559. */
module EthSighash {
  import opened Words
  import opened Bytes
  import opened Rlp
  import opened EthTx

  const SIGHASH_BUF_LEN: nat := ETH_TX_MAX_LEN + 16

  /** Every field that is signed lies inside the raw transaction. */
  predicate Signable(tx: Tx, s: seq<uint8>) {
    && |s| <= ETH_TX_MAX_LEN
    && Inside(tx.nonce, s) && Inside(tx.gasPrice, s) && Inside(tx.gasLimit, s) && Inside(tx.toField, s)
    && Inside(tx.value, s) && Inside(tx.data, s) && Inside(tx.maxPriorityFee, s) && Inside(tx.maxFee, s) && Inside(tx.accessList, s)
  }

  predicate Short(x: seq<seq<uint8>>) {
    forall i :: 0 <= i < |x| ==> |x[i]| <= ETH_TX_MAX_LEN
  }

  /** The strings that are encoded, numbers without leading zeros. */
  function Strings(tx: Tx, s: seq<uint8>): (x: seq<seq<uint8>>)
    requires Signable(tx, s)
    ensures Short(x) && |x| <= 9
  {
    EightBytes(tx.chainId);
    if tx.legacy then
      [Strip(Content(tx.nonce, s)), Strip(Content(tx.gasPrice, s)), Strip(Content(tx.gasLimit, s)),
       Content(tx.toField, s), Strip(Content(tx.value, s)), Content(tx.data, s)] +
      (if tx.chainId != 0 then [MinBytes(tx.chainId), [], []] else [])
    else
      [MinBytes(tx.chainId), Strip(Content(tx.nonce, s)), Strip(Content(tx.maxPriorityFee, s)), Strip(Content(tx.maxFee, s)),
       Strip(Content(tx.gasLimit, s)), Content(tx.toField, s), Strip(Content(tx.value, s)), Content(tx.data, s)]
  }

  function Tail(tx: Tx, s: seq<uint8>): (t: seq<uint8>)
    requires Signable(tx, s)
    ensures |t| <= ETH_TX_MAX_LEN
  {
    if tx.legacy then [] else Content(tx.accessList, s)
  }

  /** The encodings of the strings, one after the other. */
  function Puts(x: seq<seq<uint8>>): (e: seq<uint8>)
    requires Short(x)
    ensures |e| <= |x| * (ETH_TX_MAX_LEN + 5)
  {
    if |x| == 0 then [] else
      PutStrBound(x[0]);
      PutStr(x[0]) + Puts(x[1..])
  }

  lemma PutStrBound(s: seq<uint8>)
    requires |s| < 0x1_0000_0000
    ensures |PutStr(s)| <= |s| + 5
  {
    LengthBytes(|s|);
  }

  function Payload(tx: Tx, s: seq<uint8>): (p: seq<uint8>)
    requires Signable(tx, s)
    ensures |p| <= 0x1_0000
  {
    Puts(Strings(tx, s)) + Tail(tx, s)
  }

  /** What is hashed. */
  function Preimage(tx: Tx, s: seq<uint8>): seq<uint8>
    requires Signable(tx, s)
  {
    (if tx.legacy then [] else [2]) + PutListHdr(|Payload(tx, s)|) + Payload(tx, s)
  }

  // ---------------------------------------------------------------- the preimage determines the transaction

  lemma FirstPut(x: seq<seq<uint8>>)
    requires Short(x) && |x| > 0
    ensures Short(x[1..]) && Puts(x) == PutStr(x[0]) + Puts(x[1..])
  {}

  lemma NoPuts(x: seq<seq<uint8>>)
    requires Short(x) && |x| == 0
    ensures Puts(x) == []
  {}

  lemma ShortConcat(x: seq<seq<uint8>>, y: seq<seq<uint8>>)
    requires Short(x) && Short(y)
    ensures Short(x + y)
  {}

  lemma {:induction false} PutsConcat(x: seq<seq<uint8>>, y: seq<seq<uint8>>)
    requires Short(x) && Short(y)
    ensures Short(x + y) && Puts(x + y) == Puts(x) + Puts(y)
  {
    hide PutStr, Puts, Short;
    ShortConcat(x, y);
    if |x| == 0 {
      NoPuts(x);
      assert x + y == y;
    } else {
      FirstPut(x);
      FirstPut(x + y);
      assert (x + y)[1..] == x[1..] + y && (x + y)[0] == x[0];
      PutsConcat(x[1..], y);
      Regroup(PutStr(x[0]), Puts(x[1..]), Puts(y));
    }
  }

  lemma Regroup(a: seq<uint8>, b: seq<uint8>, c: seq<uint8>)
    ensures a + (b + c) == a + b + c
  {}

  /** Equally many encoded strings are read back one by one. */
  lemma {:induction false} PutsInjective(x: seq<seq<uint8>>, t: seq<uint8>, y: seq<seq<uint8>>, w: seq<uint8>)
    requires Short(x) && Short(y) && |x| == |y| && Puts(x) + t == Puts(y) + w
    ensures x == y && t == w
  {
    hide PutStr;
    if |x| == 0 {
      assert Puts(x) + t == t && Puts(y) + w == w;
    } else {
      PutsSplit(x, t);
      PutsSplit(y, w);
      PutsStep(x, Puts(x[1..]) + t, y, Puts(y[1..]) + w);
      PutsInjective(x[1..], t, y[1..], w);
    }
  }

  lemma PutsSplit(x: seq<seq<uint8>>, t: seq<uint8>)
    requires Short(x) && |x| > 0
    ensures Puts(x) + t == PutStr(x[0]) + (Puts(x[1..]) + t)
  {
    hide PutStr;
    assert Puts(x) == PutStr(x[0]) + Puts(x[1..]);
  }

  lemma PutsStep(x: seq<seq<uint8>>, a: seq<uint8>, y: seq<seq<uint8>>, b: seq<uint8>)
    requires Short(x) && Short(y) && |x| == |y| > 0 && PutStr(x[0]) + a == PutStr(y[0]) + b
    ensures a == b && (x[1..] == y[1..] ==> x == y)
  {
    FirstString(x[0], a, y[0], b);
    hide PutStr;
    assert x == [x[0]] + x[1..] && y == [y[0]] + y[1..];
  }

  lemma FirstString(x: seq<uint8>, a: seq<uint8>, y: seq<uint8>, b: seq<uint8>)
    requires |x| <= ETH_TX_MAX_LEN && |y| <= ETH_TX_MAX_LEN && PutStr(x) + a == PutStr(y) + b
    ensures x == y && a == b
  {
    hide Decode;
    DecodePutStr(x, a);
    DecodePutStr(y, b);
    hide PutStr;
    assert a == (PutStr(x) + a)[|PutStr(x)|..] && b == (PutStr(y) + b)[|PutStr(y)|..];
  }

  lemma ListInjective(p: seq<uint8>, q: seq<uint8>)
    requires |p| <= 0x1_0000 && |q| <= 0x1_0000 && PutListHdr(|p|) + p == PutListHdr(|q|) + q
    ensures p == q
  {
    var a, b := PutListHdr(|p|), PutListHdr(|q|);
    assert (a + p)[0] == a[0] && (b + q)[0] == b[0];
    hide PutListHdr;
    assert p == (a + p)[|a|..] && q == (b + q)[|b|..];
  }

  /** Two transactions mean the same: equal kind, chain, numbers (up to leading zeros), destination,
      data and access list. */
  predicate SameMeaning(tx: Tx, s: seq<uint8>, tx': Tx, s': seq<uint8>)
    requires Signable(tx, s) && Signable(tx', s')
  {
    && tx.legacy == tx'.legacy && tx.chainId == tx'.chainId
    && Be(Content(tx.nonce, s)) == Be(Content(tx'.nonce, s')) && Be(Content(tx.gasLimit, s)) == Be(Content(tx'.gasLimit, s'))
    && Content(tx.toField, s) == Content(tx'.toField, s') && Be(Content(tx.value, s)) == Be(Content(tx'.value, s'))
    && Content(tx.data, s) == Content(tx'.data, s')
    && (if tx.legacy then Be(Content(tx.gasPrice, s)) == Be(Content(tx'.gasPrice, s'))
        else Be(Content(tx.maxPriorityFee, s)) == Be(Content(tx'.maxPriorityFee, s')) &&
             Be(Content(tx.maxFee, s)) == Be(Content(tx'.maxFee, s')) &&
             Content(tx.accessList, s) == Content(tx'.accessList, s'))
  }

  /** Equal signing bytes, equal transactions. */
  lemma PreimageInjective(tx: Tx, s: seq<uint8>, tx': Tx, s': seq<uint8>)
    requires Signable(tx, s) && Signable(tx', s') && Preimage(tx, s) == Preimage(tx', s')
    ensures SameMeaning(tx, s, tx', s')
  {
    hide *;
    SameKind(tx, s, tx', s');
    PayloadFits(tx, s);
    PayloadFits(tx', s');
    ListInjective(Payload(tx, s), Payload(tx', s'));
    SameStrings(tx, s, tx', s');
    StringsAre(tx, s);
    StringsAre(tx', s');
    if tx.legacy {
      LegacySame(tx, s, tx', s');
    } else {
      TypedSame(tx, s, tx', s');
    }
  }

  lemma PayloadFits(tx: Tx, s: seq<uint8>)
    requires Signable(tx, s)
    ensures |Payload(tx, s)| <= 0x1_0000
  {}

  /** The strings by position. */
  predicate ByPosition(tx: Tx, s: seq<uint8>, x: seq<seq<uint8>>)
    requires Signable(tx, s)
  {
    if tx.legacy then
      && |x| == (if tx.chainId != 0 then 9 else 6) && (tx.chainId != 0 ==> x[6] == MinBytes(tx.chainId) && x[7] == x[8] == [])
      && x[0] == Strip(Content(tx.nonce, s)) && x[1] == Strip(Content(tx.gasPrice, s)) && x[2] == Strip(Content(tx.gasLimit, s))
      && x[3] == Content(tx.toField, s) && x[4] == Strip(Content(tx.value, s)) && x[5] == Content(tx.data, s)
    else
      && |x| == 8 && x[0] == MinBytes(tx.chainId) && x[1] == Strip(Content(tx.nonce, s))
      && x[2] == Strip(Content(tx.maxPriorityFee, s)) && x[3] == Strip(Content(tx.maxFee, s)) && x[4] == Strip(Content(tx.gasLimit, s))
      && x[5] == Content(tx.toField, s) && x[6] == Strip(Content(tx.value, s)) && x[7] == Content(tx.data, s)
  }

  lemma StringsAre(tx: Tx, s: seq<uint8>)
    requires Signable(tx, s)
    ensures ByPosition(tx, s, Strings(tx, s)) && Tail(tx, s) == if tx.legacy then [] else Content(tx.accessList, s)
  {
    hide Strip, MinBytes;
  }

  lemma LegacySame(tx: Tx, s: seq<uint8>, tx': Tx, s': seq<uint8>)
    requires Signable(tx, s) && Signable(tx', s') && tx.legacy && tx'.legacy
    requires Strings(tx, s) == Strings(tx', s') && ByPosition(tx, s, Strings(tx, s)) && ByPosition(tx', s', Strings(tx', s'))
    ensures SameMeaning(tx, s, tx', s')
  {
    hide Strings, Inside, Strip, MinBytes, Be, Content;
    NumbersMatch(Content(tx.nonce, s), Content(tx'.nonce, s'));
    NumbersMatch(Content(tx.gasPrice, s), Content(tx'.gasPrice, s'));
    NumbersMatch(Content(tx.gasLimit, s), Content(tx'.gasLimit, s'));
    NumbersMatch(Content(tx.value, s), Content(tx'.value, s'));
    BeMinBytes(tx.chainId);
    BeMinBytes(tx'.chainId);
  }

  lemma TypedSame(tx: Tx, s: seq<uint8>, tx': Tx, s': seq<uint8>)
    requires Signable(tx, s) && Signable(tx', s') && !tx.legacy && !tx'.legacy && Content(tx.accessList, s) == Content(tx'.accessList, s')
    requires Strings(tx, s) == Strings(tx', s') && ByPosition(tx, s, Strings(tx, s)) && ByPosition(tx', s', Strings(tx', s'))
    ensures SameMeaning(tx, s, tx', s')
  {
    hide Strings, Inside, Strip, MinBytes, Be, Content;
    NumbersMatch(Content(tx.nonce, s), Content(tx'.nonce, s'));
    NumbersMatch(Content(tx.maxPriorityFee, s), Content(tx'.maxPriorityFee, s'));
    NumbersMatch(Content(tx.maxFee, s), Content(tx'.maxFee, s'));
    NumbersMatch(Content(tx.gasLimit, s), Content(tx'.gasLimit, s'));
    NumbersMatch(Content(tx.value, s), Content(tx'.value, s'));
    BeMinBytes(tx.chainId);
    BeMinBytes(tx'.chainId);
  }

  lemma NumbersMatch(c: seq<uint8>, c': seq<uint8>)
    requires Strip(c) == Strip(c')
    ensures Be(c) == Be(c')
  {
    BeStrip(c);
    BeStrip(c');
  }

  lemma SameKind(tx: Tx, s: seq<uint8>, tx': Tx, s': seq<uint8>)
    requires Signable(tx, s) && Signable(tx', s') && Preimage(tx, s) == Preimage(tx', s')
    ensures tx.legacy == tx'.legacy
    ensures PutListHdr(|Payload(tx, s)|) + Payload(tx, s) == PutListHdr(|Payload(tx', s')|) + Payload(tx', s')
  {
    Marked(tx, s);
    Marked(tx', s');
    hide Preimage, Payload, PutListHdr, Signable;
  }

  /** The type byte, or a list header right away. */
  lemma Marked(tx: Tx, s: seq<uint8>)
    requires Signable(tx, s)
    ensures var a := PutListHdr(|Payload(tx, s)|) + Payload(tx, s); var p := Preimage(tx, s);
      |p| > 0 && (if tx.legacy then p == a && p[0] >= 0xc0 else p[0] == 2 && p[1..] == a)
  {
    hide Payload, Signable;
    var a := PutListHdr(|Payload(tx, s)|) + Payload(tx, s);
    assert a[0] == PutListHdr(|Payload(tx, s)|)[0];
    if !tx.legacy {
      assert Preimage(tx, s) == [2] + a;
    }
  }

  /** Six strings and nine strings cannot make up the same payload. */
  lemma SameStrings(tx: Tx, s: seq<uint8>, tx': Tx, s': seq<uint8>)
    requires Signable(tx, s) && Signable(tx', s') && tx.legacy == tx'.legacy && Payload(tx, s) == Payload(tx', s')
    ensures Strings(tx, s) == Strings(tx', s') && Tail(tx, s) == Tail(tx', s')
  {
    var x, y := Strings(tx, s), Strings(tx', s');
    if |x| == |y| {
      PutsInjective(x, Tail(tx, s), y, Tail(tx', s'));
    } else {
      assert Tail(tx, s) == Tail(tx', s') == [];
      assert Puts(x) == Payload(tx, s) && Puts(y) == Payload(tx', s');
      hide Strings, Payload, Signable;
      LongerDiffers(if |x| < |y| then x else y, if |x| < |y| then y else x);
    }
  }

  lemma LongerDiffers(x: seq<seq<uint8>>, y: seq<seq<uint8>>)
    requires Short(x) && Short(y) && |x| < |y|
    ensures Puts(x) != Puts(y)
  {
    var a, b := y[..|x|], y[|x|..];
    assert y == a + b;
    PutsConcat(a, b);
    assert Puts(b) == PutStr(b[0]) + Puts(b[1..]);
    assert Puts(x) + [] == Puts(x);
    hide Puts;
    if Puts(x) == Puts(y) {
      PutsInjective(x, [], a, Puts(b));
    }
  }

  // ---------------------------------------------------------------- hashing

  lemma PutsNext(x: seq<seq<uint8>>, k: nat)
    requires Short(x) && k < |x|
    ensures Puts(x[..k + 1]) == Puts(x[..k]) + PutStr(x[k]) && |Puts(x[..k + 1])| <= |Puts(x)|
  {
    hide PutStr;
    assert x[..k + 1] == x[..k] + [x[k]] && x == x[..k + 1] + x[k + 1..];
    PutsConcat(x[..k], [x[k]]);
    PutsConcat(x[..k + 1], x[k + 1..]);
    assert Puts([x[k]]) == PutStr(x[k]) + Puts([x[k]][1..]);
  }

  /** The first k strings are encoded, and make up the first at bytes. */
  predicate Wrote(out: seq<uint8>, at: nat, x: seq<seq<uint8>>, k: nat) {
    Short(x) && k <= |x| && |Puts(x)| <= |out| && at <= |out| && out[..at] == Puts(x[..k])
  }

  lemma WroteRoom(out: seq<uint8>, at: nat, x: seq<seq<uint8>>, k: nat)
    requires Wrote(out, at, x, k) && k < |x|
    ensures at + |PutStr(x[k])| <= |out|
  {
    PutsNext(x, k);
    hide Puts;
  }

  lemma WroteNext(before: seq<uint8>, out: seq<uint8>, at: nat, n: nat, x: seq<seq<uint8>>, k: nat)
    requires Wrote(before, at, x, k) && k < |x| && |out| == |before| && at + n <= |out|
    requires out[..at] == before[..at] && out[at..at + n] == PutStr(x[k])
    ensures Wrote(out, at + n, x, k + 1)
  {
    PutsNext(x, k);
    hide Puts, PutStr;
    assert out[..at + n] == out[..at] + out[at..at + n];
  }

  /** One more field: a number, or a string of bytes. */
  method PutField(items: array<uint8>, at: nat, src: array<uint8>, f: Field, number: bool, ghost x: seq<seq<uint8>>, ghost k: nat)
    returns (next: nat)
    requires items != src && Inside(f, src[..]) && f.len <= ETH_TX_MAX_LEN && k < |x| && Wrote(items[..], at, x, k)
    requires Encodes(x[k], f, number, src[..])
    modifies items
    ensures Wrote(items[..], next, x, k + 1)
  {
    ghost var before := items[..];
    WroteRoom(before, at, x, k);
    assert src[f.off..f.off + f.len] == Content(f, src[..]) && at <= |before|;
    hide Wrote, Strip, PutStr, Content;
    var n := PutOne(items, at, src, f, number);
    next := at + n;
    WroteNext(before, items[..], at, n, x, k);
  }

  method PutOne(items: array<uint8>, at: nat, src: array<uint8>, f: Field, number: bool) returns (n: nat)
    requires items != src && f.off + f.len <= src.Length && f.len <= ETH_TX_MAX_LEN
    requires var c := src[f.off..f.off + f.len]; at + |PutStr(if number then Strip(c) else c)| <= items.Length
    modifies items
    ensures var c := old(src[f.off..f.off + f.len]); n == |PutStr(if number then Strip(c) else c)|
    ensures at + n <= items.Length && items[..][at..at + n] == PutStr(if number then Strip(old(src[f.off..f.off + f.len])) else old(src[f.off..f.off + f.len]))
    ensures items[..][..at] == old(items[..][..at])
  {
    hide PutStr, Strip;
    if number {
      n := RlpPutInt(items, at, src, f.off, f.len);
    } else {
      n := RlpPutStr(items, at, src, f.off, f.len);
    }
    assert items[..][at..at + n] == items[at..at + n];
  }

  /** The chain id, in minimal bytes. */
  method PutChain(items: array<uint8>, at: nat, chain: uint64, ghost x: seq<seq<uint8>>, ghost k: nat) returns (next: nat)
    requires k < |x| && Wrote(items[..], at, x, k) && x[k] == MinBytes(chain)
    modifies items
    ensures Wrote(items[..], next, x, k + 1)
  {
    hide Wrote, MinBytes;
    var cid, cl := U64ToBe(chain);
    assert Content(Field(0, cl), cid[..]) == cid[..cl];
    NoLeadingZeros(chain);
    next := PutField(items, at, cid, Field(0, cl), true, x, k);
  }

  lemma NowhereIsEmpty(s: seq<uint8>)
    ensures Content(NOWHERE, s) == []
  {}

  lemma NoLeadingZeros(v: nat)
    ensures Strip(MinBytes(v)) == MinBytes(v)
  {}

  lemma NothingPut(out: seq<uint8>, x: seq<seq<uint8>>)
    requires Short(x) && |Puts(x)| <= |out|
    ensures Wrote(out, 0, x, 0)
  {}

  lemma AllPut(out: seq<uint8>, at: nat, x: seq<seq<uint8>>)
    requires Wrote(out, at, x, |x|)
    ensures at <= |out| && out[..at] == Puts(x)
  {
    assert x[..|x|] == x;
  }

  /** Three fields in a row; which of them are numbers is told by the flags. */
  method PutThree(items: array<uint8>, at: nat, raw: array<uint8>, f: (Field, Field, Field), number: (bool, bool, bool),
                  ghost x: seq<seq<uint8>>, ghost k: nat) returns (next: nat)
    requires items != raw && k + 3 <= |x| && Wrote(items[..], at, x, k)
    requires Inside(f.0, raw[..]) && f.0.len <= ETH_TX_MAX_LEN && Encodes(x[k], f.0, number.0, raw[..])
    requires Inside(f.1, raw[..]) && f.1.len <= ETH_TX_MAX_LEN && Encodes(x[k + 1], f.1, number.1, raw[..])
    requires Inside(f.2, raw[..]) && f.2.len <= ETH_TX_MAX_LEN && Encodes(x[k + 2], f.2, number.2, raw[..])
    modifies items
    ensures Wrote(items[..], next, x, k + 3)
  {
    hide Wrote, Strip, Content;
    next := PutField(items, at, raw, f.0, number.0, x, k);
    next := PutField(items, next, raw, f.1, number.1, x, k + 1);
    next := PutField(items, next, raw, f.2, number.2, x, k + 2);
  }

  lemma FieldLens(tx: Tx, s: seq<uint8>)
    requires Signable(tx, s)
    ensures Inside(tx.nonce, s) && Inside(tx.gasPrice, s) && Inside(tx.gasLimit, s) && Inside(tx.toField, s) && Inside(tx.value, s)
    ensures Inside(tx.data, s) && Inside(tx.maxPriorityFee, s) && Inside(tx.maxFee, s) && Inside(tx.accessList, s)
    ensures tx.nonce.len <= ETH_TX_MAX_LEN && tx.gasPrice.len <= ETH_TX_MAX_LEN && tx.gasLimit.len <= ETH_TX_MAX_LEN
    ensures tx.toField.len <= ETH_TX_MAX_LEN && tx.value.len <= ETH_TX_MAX_LEN && tx.data.len <= ETH_TX_MAX_LEN
    ensures tx.maxPriorityFee.len <= ETH_TX_MAX_LEN && tx.maxFee.len <= ETH_TX_MAX_LEN
  {}

  /** What is to be encoded for a field. */
  predicate Encodes(e: seq<uint8>, f: Field, number: bool, s: seq<uint8>)
    requires Inside(f, s)
  {
    e == if number then Strip(Content(f, s)) else Content(f, s)
  }

  method LegacyItems(tx: Tx, raw: array<uint8>, items: array<uint8>) returns (len: nat)
    requires tx.legacy && Signable(tx, raw[..]) && items != raw && |Payload(tx, raw[..])| <= items.Length
    modifies items
    ensures len == |Payload(tx, raw[..])| && items[..len] == Payload(tx, raw[..])
  {
    ghost var s := raw[..];
    ghost var x := Strings(tx, s);
    StringsAre(tx, s);
    assert Payload(tx, s) == Puts(x);
    NothingPut(items[..], x);
    FieldLens(tx, s);
    hide Puts, Strings, Strip, MinBytes, Payload, Wrote, Content, Signable, Inside, Short;
    len := PutThree(items, 0, raw, (tx.nonce, tx.gasPrice, tx.gasLimit), (true, true, true), x, 0);
    len := PutThree(items, len, raw, (tx.toField, tx.value, tx.data), (false, true, false), x, 3);
    if tx.chainId != 0 {
      NowhereIsEmpty(s);
      len := PutChain(items, len, tx.chainId, x, 6);
      len := PutField(items, len, raw, NOWHERE, false, x, 7);
      len := PutField(items, len, raw, NOWHERE, false, x, 8);
    }
    AllPut(items[..], len, x);
  }

  method TypedItems(tx: Tx, raw: array<uint8>, items: array<uint8>) returns (len: nat)
    requires !tx.legacy && Signable(tx, raw[..]) && items != raw && |Payload(tx, raw[..])| <= items.Length
    modifies items
    ensures len == |Payload(tx, raw[..])| && items[..len] == Payload(tx, raw[..])
  {
    ghost var s := raw[..];
    assert Payload(tx, s) == Puts(Strings(tx, s)) + Content(tx.accessList, s);
    hide Puts, Strings, Payload, Content;
    len := TypedStrings(tx, raw, items);
    ContentLength(tx.accessList, s);
    len := AppendField(items, len, raw, tx.accessList);
  }

  method TypedStrings(tx: Tx, raw: array<uint8>, items: array<uint8>) returns (len: nat)
    requires !tx.legacy && Signable(tx, raw[..]) && items != raw && |Puts(Strings(tx, raw[..]))| <= items.Length
    modifies items
    ensures len <= items.Length && items[..len] == Puts(Strings(tx, raw[..]))
  {
    hide Puts, Strings, Strip, MinBytes, Payload, Wrote, Content, Signable, Inside, Short;
    ghost var s := raw[..];
    ghost var x := Strings(tx, s);
    StringsAre(tx, s);
    NothingPut(items[..], x);
    FieldLens(tx, s);
    len := PutChain(items, 0, tx.chainId, x, 0);
    len := PutThree(items, len, raw, (tx.nonce, tx.maxPriorityFee, tx.maxFee), (true, true, true), x, 1);
    len := PutThree(items, len, raw, (tx.gasLimit, tx.toField, tx.value), (true, false, true), x, 4);
    len := PutField(items, len, raw, tx.data, false, x, 7);
    AllPut(items[..], len, x);
  }

  lemma ContentLength(f: Field, s: seq<uint8>)
    requires Inside(f, s)
    ensures |Content(f, s)| == f.len
  {}

  /** memcpy of a field */
  method AppendField(items: array<uint8>, at: nat, raw: array<uint8>, f: Field) returns (next: nat)
    requires items != raw && Inside(f, raw[..]) && at + f.len <= items.Length
    modifies items
    ensures next == at + f.len && items[..next] == old(items[..at]) + Content(f, raw[..])
  {
    ghost var before := items[..at];
    CopyInto(items, at, raw, f.off, f.len);
    next := at + f.len;
    assert items[..at] == before;
    assert items[..next] == items[..at] + items[at..next];
  }

  /** The hash function is a parameter. */
  type Keccak = seq<uint8> -> seq<uint8>

  /** The signed fields lie inside the raw bytes, and what is hashed fits the static buffer. */
  predicate Fits(tx: Tx, s: seq<uint8>) {
    Signable(tx, s) && |Preimage(tx, s)| <= SIGHASH_BUF_LEN
  }

  /** eth_tx_sighash, with the two static buffers. */
  method EthTxSighash(tx: Tx, raw: array<uint8>, items: array<uint8>, buf: array<uint8>, keccak: Keccak) returns (hash: seq<uint8>)
    requires Fits(tx, raw[..]) && raw !in {items, buf} && items != buf
    requires items.Length == buf.Length == SIGHASH_BUF_LEN
    modifies items, buf
    ensures hash == keccak(Preimage(tx, raw[..]))
  {
    ghost var p := Payload(tx, raw[..]);
    PreimageIs(tx, raw[..]);
    hide Payload, Preimage, Signable;
    var itemsLen;
    if tx.legacy {
      itemsLen := LegacyItems(tx, raw, items);
    } else {
      itemsLen := TypedItems(tx, raw, items);
    }
    hash := Seal(buf, items, itemsLen, tx.legacy, keccak);
    assert items[..itemsLen] == p;
  }

  lemma PreimageIs(tx: Tx, s: seq<uint8>)
    requires Signable(tx, s)
    ensures Preimage(tx, s) == (if tx.legacy then [] else [2]) + PutListHdr(|Payload(tx, s)|) + Payload(tx, s)
  {
    hide Payload, PutListHdr;
  }

  /** The type byte, the list header and the items, hashed. */
  method Seal(buf: array<uint8>, items: array<uint8>, itemsLen: nat, legacy: bool, keccak: Keccak) returns (hash: seq<uint8>)
    requires buf != items && itemsLen <= items.Length && itemsLen < 0x1_0000_0000
    requires (if legacy then 0 else 1) + |PutListHdr(itemsLen)| + itemsLen <= buf.Length
    modifies buf
    ensures hash == keccak((if legacy then [] else [2]) + PutListHdr(itemsLen) + items[..itemsLen])
  {
    hide PutListHdr;
    var at := 0;
    ghost var mark := if legacy then [] else [2];
    if !legacy {
      buf[0] := 0x02;
      at := 1;
    }
    assert buf[..at] == mark;
    var hdr := RlpPutListHdr(buf, at, itemsLen);
    assert buf[..at + hdr] == mark + PutListHdr(itemsLen) by {
      assert buf[..at] == mark;
      assert buf[..at + hdr] == buf[..at] + buf[at..at + hdr];
    }
    var end := AppendField(buf, at + hdr, items, Field(0, itemsLen));
    assert Content(Field(0, itemsLen), items[..]) == items[..itemsLen];
    hide Content;
    assert buf[..end] == mark + PutListHdr(itemsLen) + items[..itemsLen];
    hash := keccak(buf[..end]);
  }
}
