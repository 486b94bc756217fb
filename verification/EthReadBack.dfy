/** src/protocol/eth_tx.c: the bytes that are hashed, read back with the parser's own walk over items.
    They hold the signed items of the transaction in the transaction's order. */
module EthReadBack {
  import opened Words
  import opened Bytes
  import opened Rlp
  import opened EthTx
  import opened EthSighash
  import opened EthFits

  /** The items of the list that starts at body and makes up the rest. */
  function Read(q: seq<uint8>, body: nat): Option<seq<Ref>> {
    if body < |q| && WholeList(q[body..]) then Fields(q, body) else None
  }

  /** A string with the same content. */
  predicate SameBytes(a: Ref, q: seq<uint8>, b: Ref, s: seq<uint8>) {
    !a.isList && Inside(a.field, q) && Inside(b.field, s) && Content(a.field, q) == Content(b.field, s)
  }

  /** A string that spells the same number. */
  predicate SameNumber(a: Ref, q: seq<uint8>, b: Ref, s: seq<uint8>) {
    !a.isList && Inside(a.field, q) && Inside(b.field, s) && Be(Content(a.field, q)) == Be(Content(b.field, s))
  }

  /** A string that spells a number, without leading zeros. */
  predicate Spells(a: Ref, q: seq<uint8>, v: nat) {
    !a.isList && Inside(a.field, q) && Content(a.field, q) == MinBytes(v)
  }

  // ---------------------------------------------------------------- strings and a tail, read back

  /** The encodings one by one. */
  function Encoded(x: seq<seq<uint8>>): (e: seq<seq<uint8>>)
    requires Short(x)
    ensures |e| == |x| && forall i :: 0 <= i < |x| ==> e[i] == PutStr(x[i])
  {
    seq(|x|, i requires 0 <= i < |x| => PutStr(x[i]))
  }

  lemma {:induction false} JoinedEncoded(x: seq<seq<uint8>>, e: seq<seq<uint8>>)
    requires Short(x) && |e| >= |x| && forall i :: 0 <= i < |x| ==> e[i] == PutStr(x[i])
    ensures Joined(e) == Puts(x) + Joined(e[|x|..])
  {
    hide PutStr;
    if |x| == 0 {
      assert e[0..] == e;
    } else {
      JoinedEncoded(x[1..], e[1..]);
      assert e[1..][|x| - 1..] == e[|x|..];
      Regroup(PutStr(x[0]), Puts(x[1..]), Joined(e[|x|..]));
    }
  }

  lemma EncodedIsItem(x: seq<uint8>)
    requires |x| <= ETH_TX_MAX_LEN
    ensures var e := PutStr(x); var it := Decode(e);
      OneItem(e) && !it.isList && it.start + it.len <= |e| && it.len == |x| && e[it.start..it.start + it.len] == x
  {
    DecodePutStr(x, []);
    assert PutStr(x) + [] == PutStr(x);
  }

  lemma ItemInside(e: seq<uint8>)
    requires OneItem(e)
    ensures Decode(e).start + Decode(e).len <= |e|
  {
    DecodeInside(e);
  }

  /** The item f lies in s, and its content is that of e. */
  predicate Lies(f: Ref, s: seq<uint8>, e: seq<uint8>) {
    var it := Decode(e);
    && f.isList == it.isList && f.field.len == it.len && it.start + it.len <= |e| && Inside(f.field, s)
    && Content(f.field, s) == e[it.start..it.start + it.len]
  }

  /** Where an item lies, and what is there. */
  lemma {:induction false} RefsInside(s: seq<uint8>, pc: nat, items: seq<seq<uint8>>, w: seq<uint8>, i: nat)
    requires pc <= |s| && s[pc..] == Joined(items) + w && i < |items| && OneItems(items)
    ensures Lies(Refs(pc, items)[i], s, items[i])
    decreases |items|
  {
    hide *;
    var e, rest := items[0], items[1..];
    JoinedRefs(pc, items);
    FirstOfItems(items);
    assert e + Joined(rest) + w == e + (Joined(rest) + w);
    if i > 0 {
      FirstItem(s, pc, e, Joined(rest) + w);
      RefsInside(s, pc + |e|, rest, w, i - 1);
    } else {
      FirstLies(s, pc, e, Joined(rest) + w);
    }
  }

  lemma FirstLies(s: seq<uint8>, pc: nat, e: seq<uint8>, w: seq<uint8>)
    requires pc <= |s| && s[pc..] == e + w && OneItem(e)
    ensures var it := Decode(e); Lies(Ref(it.isList, Field(pc + it.start, it.len)), s, e)
  {
    ItemInside(e);
    hide Decode, OneItem;
    var it := Decode(e);
    FirstContent(s, pc, e, w, it.start, it.start + it.len);
  }

  lemma FirstContent(s: seq<uint8>, pc: nat, e: seq<uint8>, w: seq<uint8>, i: nat, j: nat)
    requires pc <= |s| && s[pc..] == e + w && i <= j <= |e|
    ensures pc + j <= |s| && s[pc + i..pc + j] == e[i..j]
  {
    TailSlice(s, pc, i, j);
    assert (e + w)[i..j] == e[i..j];
  }

  lemma LongReads(q: seq<uint8>, m: seq<uint8>, n: nat)
    requires 0 < |m| <= 4 && Be(m) == n <= 0x1_0000 && |q| == 1 + |m| + n && q[0] == 0xf7 + |m| && q[1..1 + |m|] == m
    ensures WholeList(q) && ListHdr(q[0]) == 1 + |m|
  {
    hide Be;
  }

  /** A list header announces what follows it. */
  lemma HeaderReads(p: seq<uint8>)
    requires |p| <= 0x1_0000
    ensures var q := PutListHdr(|p|) + p; WholeList(q) && ListHdr(q[0]) == |PutListHdr(|p|)|
  {
    var n := |p|;
    var h := PutListHdr(n);
    var q := h + p;
    assert q[0] == h[0];
    if n > 55 {
      LengthBytes(n);
      BeMinBytes(n);
      var m := MinBytes(n);
      assert h == [0xf7 + |m|] + m;
      assert q[1..1 + |m|] == m;
      hide Decode, MinBytes, PutListHdr, WholeList;
      LongReads(q, m, n);
    }
  }

  /** The item for a string that was encoded. */
  predicate IsString(a: Ref, q: seq<uint8>, x: seq<uint8>) {
    !a.isList && Inside(a.field, q) && Content(a.field, q) == x
  }

  lemma AllItems(x: seq<seq<uint8>>)
    requires Short(x)
    ensures OneItems(Encoded(x))
  {
    hide OneItem, PutStr;
    forall k | 0 <= k < |x| ensures OneItem(PutStr(x[k])) {
      EncodedIsItem(x[k]);
    }
  }

  /** The strings are at pc, the tail is at next. */
  predicate AtTail(q: seq<uint8>, body: nat, x: seq<seq<uint8>>, tail: seq<uint8>, pc: nat, next: nat)
    requires Short(x)
  {
    && |x| <= MAX_TX_FIELDS && body < |q| && WholeList(q[body..]) && pc == body + ListHdr(q[body]) <= next <= |q|
    && q[pc..] == Joined(Encoded(x)) + tail && q[next..] == tail
    && var g := Refs(pc, Encoded(x)); Checked(g, q) && Fields(q, body) == Walk(q, next, |q| - next, g)
  }

  /** A list whose payload is encoded strings and a tail: what is walked after the strings. */
  lemma ListReads(q: seq<uint8>, body: nat, x: seq<seq<uint8>>, tail: seq<uint8>) returns (pc: nat, next: nat)
    requires Short(x) && |x| <= MAX_TX_FIELDS
    requires var p := Puts(x) + tail; |p| <= 0x1_0000 && body < |q| && q[body..] == PutListHdr(|p|) + p
    ensures AtTail(q, body, x, tail, pc, next)
  {
    hide *;
    var p := Puts(x) + tail;
    HeaderPlace(q, body, p);
    pc := body + |PutListHdr(|p|)|;
    EncodedPuts(x);
    next := pc + |Joined(Encoded(x))|;
    PastStrings(q, pc, x, tail);
    Assembled(q, body, x, tail, pc, next);
  }

  lemma HeaderPlace(q: seq<uint8>, body: nat, p: seq<uint8>)
    requires |p| <= 0x1_0000 && body < |q| && q[body..] == PutListHdr(|p|) + p
    ensures var pc := body + |PutListHdr(|p|)|; WholeList(q[body..]) && pc == body + ListHdr(q[body]) <= |q| && q[pc..] == p
  {
    HeaderReads(p);
    HeaderThere(|p|);
    hide WholeList, PutListHdr, ListHdr;
    AfterHeader(q, body, PutListHdr(|p|), p);
  }

  lemma HeaderThere(n: nat)
    requires n < 0x1_0000_0000
    ensures |PutListHdr(n)| > 0
  {}

  lemma EncodedPuts(x: seq<seq<uint8>>)
    requires Short(x)
    ensures Joined(Encoded(x)) == Puts(x)
  {
    JoinedEncoded(x, Encoded(x));
    assert |Encoded(x)[|x|..]| == 0;
    assert Joined(Encoded(x)[|x|..]) == [];
    assert Puts(x) + [] == Puts(x);
  }

  lemma PastStrings(q: seq<uint8>, pc: nat, x: seq<seq<uint8>>, tail: seq<uint8>)
    requires Short(x) && |x| <= MAX_TX_FIELDS && pc <= |q| && q[pc..] == Joined(Encoded(x)) + tail
    ensures var g := Refs(pc, Encoded(x)); var next := pc + |Joined(Encoded(x))|;
      next <= |q| && q[next..] == tail && Checked(g, q) && Walk(q, pc, |q| - pc, []) == Walk(q, next, |q| - next, g)
  {
    hide Joined, OneItems, Walk, Refs, Encoded, Checked, Short, PutStr;
    AllItems(x);
    ItemsPast(q, pc, Encoded(x), tail);
  }

  lemma ItemsPast(q: seq<uint8>, pc: nat, items: seq<seq<uint8>>, w: seq<uint8>)
    requires OneItems(items) && |items| <= MAX_TX_FIELDS && pc <= |q| && q[pc..] == Joined(items) + w
    ensures var g := Refs(pc, items); var next := pc + |Joined(items)|;
      next <= |q| && q[next..] == w && Checked(g, q) && Walk(q, pc, |q| - pc, []) == Walk(q, next, |q| - next, g)
  {
    NothingChecked(q);
    hide Joined, OneItems, Walk, Refs, Checked;
    WalkPast(q, pc, items, w, []);
    assert [] + Refs(pc, items) == Refs(pc, items);
  }

  lemma Assembled(q: seq<uint8>, body: nat, x: seq<seq<uint8>>, tail: seq<uint8>, pc: nat, next: nat)
    requires Short(x) && |x| <= MAX_TX_FIELDS && body < |q| && WholeList(q[body..]) && pc == body + ListHdr(q[body]) <= next <= |q|
    requires q[pc..] == Joined(Encoded(x)) + tail && q[next..] == tail
    requires var g := Refs(pc, Encoded(x)); Checked(g, q) && Walk(q, pc, |q| - pc, []) == Walk(q, next, |q| - next, g)
    ensures AtTail(q, body, x, tail, pc, next)
  {
    hide WholeList, Walk, Checked, Refs, Joined, Short;
  }

  lemma AfterHeader(q: seq<uint8>, body: nat, h: seq<uint8>, p: seq<uint8>)
    requires body < |q| && q[body..] == h + p && |h| > 0
    ensures body + |h| <= |q| && q[body + |h|..] == p && q[body] == (h + p)[0]
  {
    TailSlice(q, body, |h|, |h| + |p|);
    assert (h + p)[|h|..] == p;
  }

  lemma AtStrings(q: seq<uint8>, body: nat, x: seq<seq<uint8>>, tail: seq<uint8>, pc: nat, next: nat)
    requires Short(x) && AtTail(q, body, x, tail, pc, next)
    ensures pc <= |q| && q[pc..] == Joined(Encoded(x)) + tail
  {
    hide WholeList, Walk, Refs, Joined, Encoded, Checked;
  }

  /** The strings are read as they were encoded. */
  lemma StringsRead(q: seq<uint8>, body: nat, x: seq<seq<uint8>>, tail: seq<uint8>, pc: nat, next: nat)
    requires Short(x) && AtTail(q, body, x, tail, pc, next)
    ensures forall i :: 0 <= i < |x| ==> IsString(Refs(pc, Encoded(x))[i], q, x[i])
  {
    AllItems(x);
    AtStrings(q, body, x, tail, pc, next);
    hide OneItems, Joined, Refs, Decode, PutStr, AtTail, Short;
    forall i | 0 <= i < |x| ensures IsString(Refs(pc, Encoded(x))[i], q, x[i]) {
      EncodedIsItem(x[i]);
      RefsInside(q, pc, Encoded(x), tail, i);
    }
  }

  // ---------------------------------------------------------------- legacy transactions

  /** The chain id of EIP-155 in v, 0 before it. */
  function ChainOf(v: nat): nat {
    if v < 35 then 0 else (v - 35) / 2
  }

  /** Nonce, gas price, gas limit, destination, value and data in the order of the transaction, and after
      them the chain id and two empty strings, if there is one. */
  predicate LegacyRead(g: seq<Ref>, q: seq<uint8>, f: seq<Ref>, s: seq<uint8>)
    requires |f| == 9
  {
    && Inside(f[6].field, s)
    && var chain := ChainOf(Be(Content(f[6].field, s)));
    && |g| == (if chain == 0 then 6 else 9)
    && SameNumber(g[0], q, f[0], s) && SameNumber(g[1], q, f[1], s) && SameNumber(g[2], q, f[2], s)
    && SameBytes(g[3], q, f[3], s) && SameNumber(g[4], q, f[4], s) && SameBytes(g[5], q, f[5], s)
    && (chain != 0 ==> Spells(g[6], q, chain) && IsString(g[7], q, []) && IsString(g[8], q, []))
  }

  lemma NumberRead(a: Ref, q: seq<uint8>, b: Ref, s: seq<uint8>)
    requires Inside(b.field, s) && IsString(a, q, Strip(Content(b.field, s)))
    ensures SameNumber(a, q, b, s)
  {
    BeStrip(Content(b.field, s));
  }

  lemma ChainIs(f: seq<Ref>, s: seq<uint8>, tx: Tx)
    requires LegacyOf(f, s, tx)
    ensures Inside(f[6].field, s) && tx.chainId == ChainOf(Be(Content(f[6].field, s)))
  {
    if f[6].field.len == 0 {
      assert Content(f[6].field, s) == [];
    } else {
      assert FieldToU64(f[6].field, s) == Some(Be(Content(f[6].field, s)));
    }
  }

  lemma LegacyPayloadIs(f: seq<Ref>, s: seq<uint8>, tx: Tx)
    requires LegacyOf(f, s, tx) && SignedChecked(f)
    ensures Signable(tx, s) && Short(Strings(tx, s)) && |Payload(tx, s)| <= 0x1_0000
    ensures Payload(tx, s) == Puts(Strings(tx, s)) + [] && Preimage(tx, s) == PutListHdr(|Payload(tx, s)|) + Payload(tx, s)
  {
    LegacyFields(f, s, tx);
    PayloadFits(tx, s);
    PreimageIs(tx, s);
    hide Puts, Strings, PutListHdr, Preimage;
    assert [] + PutListHdr(|Payload(tx, s)|) == PutListHdr(|Payload(tx, s)|);
  }

  lemma LegacyItemsRead(f: seq<Ref>, s: seq<uint8>, tx: Tx)
    requires LegacyOf(f, s, tx) && SignedChecked(f)
    ensures Signable(tx, s) && var g := Read(Preimage(tx, s), 0); g.Some? && LegacyRead(g.value, Preimage(tx, s), f, s)
  {
    LegacyPayloadIs(f, s, tx);
    var x, q := Strings(tx, s), Preimage(tx, s);
    assert q[0..] == q;
    HeaderThere(|Payload(tx, s)|);
    StringsAre(tx, s);
    hide Puts, Strings, PutListHdr, Preimage, Payload, LegacyRead;
    var pc, next := ListReads(q, 0, x, []);
    var g := Refs(pc, Encoded(x));
    ReadAll(q, 0, x, pc, next);
    StringsRead(q, 0, x, [], pc, next);
    LegacyMatches(g, q, f, s, tx);
  }

  /** Nothing after the strings. */
  lemma ReadAll(q: seq<uint8>, body: nat, x: seq<seq<uint8>>, pc: nat, next: nat)
    requires Short(x) && AtTail(q, body, x, [], pc, next)
    ensures Read(q, body) == Some(Refs(pc, Encoded(x)))
  {
    assert |q[next..]| == 0;
    hide WholeList, Walk, Refs, Joined, Encoded, Checked;
    WalkEnd(q, next, |q| - next, Refs(pc, Encoded(x)));
  }

  lemma LegacyMatches(g: seq<Ref>, q: seq<uint8>, f: seq<Ref>, s: seq<uint8>, tx: Tx)
    requires LegacyOf(f, s, tx) && SignedChecked(f) && Signable(tx, s) && |g| == |Strings(tx, s)|
    requires forall i :: 0 <= i < |g| ==> IsString(g[i], q, Strings(tx, s)[i])
    ensures LegacyRead(g, q, f, s)
  {
    LegacyFields(f, s, tx);
    ChainIs(f, s, tx);
    StringsAre(tx, s);
    FieldLens(tx, s);
    hide LegacyOf, SignedChecked, Signable, Strings, Strip, MinBytes, Be, ChainOf, Listed;
    NumberRead(g[0], q, f[0], s);
    NumberRead(g[1], q, f[1], s);
    NumberRead(g[2], q, f[2], s);
    NumberRead(g[4], q, f[4], s);
  }

  // ---------------------------------------------------------------- EIP-1559 transactions

  /** Chain id, nonce, the two fees, gas limit, destination, value and data in the order of the
      transaction, and the access list byte for byte. */
  predicate TypedRead(g: seq<Ref>, q: seq<uint8>, f: seq<Ref>, s: seq<uint8>)
    requires |f| == 12
  {
    && |g| == 9 && SameNumber(g[0], q, f[0], s) && SameNumber(g[1], q, f[1], s) && SameNumber(g[2], q, f[2], s)
    && SameNumber(g[3], q, f[3], s) && SameNumber(g[4], q, f[4], s) && SameBytes(g[5], q, f[5], s)
    && SameNumber(g[6], q, f[6], s) && SameBytes(g[7], q, f[7], s)
    && g[8].isList && Inside(g[8].field, q) && Inside(f[8].field, s) && Content(g[8].field, q) == Content(f[8].field, s)
  }

  lemma TypedPayloadIs(f: seq<Ref>, s: seq<uint8>, tx: Tx)
    requires TypedOf(f, s, tx) && SignedChecked(f)
    ensures Signable(tx, s) && Short(Strings(tx, s)) && |Payload(tx, s)| <= 0x1_0000
    ensures Payload(tx, s) == Puts(Strings(tx, s)) + Content(tx.accessList, s)
    ensures var q := Preimage(tx, s); |q| > 1 && q[0] == 2 && q[1..] == PutListHdr(|Payload(tx, s)|) + Payload(tx, s)
  {
    TypedFields(f, s, tx);
    PayloadFits(tx, s);
    Marked(tx, s);
    HeaderThere(|Payload(tx, s)|);
    hide Puts, Strings, PutListHdr, Preimage;
  }

  /** The walk over the tail alone: one item if the tail is one. */
  lemma TailRead(q: seq<uint8>, next: nat, g: seq<Ref>, tail: seq<uint8>)
    requires next <= |q| && q[next..] == tail && |g| == 8 && Checked(g, q) && 0 < |tail| <= ETH_TX_MAX_LEN && tail[0] >= 0xc0
    ensures OneItem(tail) ==> var r := Walk(q, next, |q| - next, g);
      r.Some? && r.value == g + [Ref(true, Field(next, |tail|))]
    ensures var r := Walk(q, next, |q| - next, g);
      r.Some? && |r.value| == 9 && r.value[8].field.len == |tail| ==> OneItem(tail)
  {
    assert q[next..next + (|q| - next)] == tail;
    DecodeInside(tail);
    WalkStep(q, next, |q| - next, g);
    var it := Decode(tail);
    hide Walk, Decode, Checked;
    if it.used >= 0 {
      var f := Ref(it.isList, Field(next + it.start, it.len));
      if |q| - next - it.used <= 0 {
        WalkEnd(q, next + it.used, |q| - next - it.used, g + [f]);
      } else if Walk(q, next, |q| - next, g).Some? {
        WalkExtends(q, next + it.used, |q| - next - it.used, g + [f]);
      }
    }
  }

  lemma {:induction false} WalkExtends(s: seq<uint8>, pc: nat, remaining: int, refs: seq<Ref>)
    requires remaining > 0 ==> pc + remaining <= |s|
    requires |refs| <= MAX_TX_FIELDS && Checked(refs, s) && Walk(s, pc, remaining, refs).Some?
    ensures refs <= Walk(s, pc, remaining, refs).value
    decreases MAX_TX_FIELDS - |refs|
  {
    hide Walk, Decode, Checked;
    if remaining > 0 {
      WalkStep(s, pc, remaining, refs);
      var it := Decode(s[pc..pc + remaining]);
      WalkExtends(s, pc + it.used, remaining - it.used, refs + [Ref(it.isList, Field(pc + it.start, it.len))]);
    } else {
      WalkEnd(s, pc, remaining, refs);
    }
  }

  lemma TypedMatches(g: seq<Ref>, q: seq<uint8>, f: seq<Ref>, s: seq<uint8>, tx: Tx, last: Ref)
    requires TypedOf(f, s, tx) && SignedChecked(f) && Signable(tx, s) && |g| == |Strings(tx, s)|
    requires forall i :: 0 <= i < |g| ==> IsString(g[i], q, Strings(tx, s)[i])
    requires last.isList && Inside(last.field, q) && Content(last.field, q) == Content(tx.accessList, s)
    ensures TypedRead(g + [last], q, f, s)
  {
    TypedFields(f, s, tx);
    TypedChain(f, s, tx);
    StringsAre(tx, s);
    FieldLens(tx, s);
    BeMinBytes(tx.chainId);
    hide TypedOf, SignedChecked, Signable, Strings, Strip, MinBytes, Be, Listed;
    NumberRead(g[1], q, f[1], s);
    NumberRead(g[2], q, f[2], s);
    NumberRead(g[3], q, f[3], s);
    NumberRead(g[4], q, f[4], s);
    NumberRead(g[6], q, f[6], s);
  }

  lemma TypedChain(f: seq<Ref>, s: seq<uint8>, tx: Tx)
    requires TypedOf(f, s, tx)
    ensures Inside(f[0].field, s) && tx.chainId == Be(Content(f[0].field, s))
  {}

  /** Eight strings and a tail that starts like a list. */
  lemma EightAndTail(q: seq<uint8>, x: seq<seq<uint8>>, tail: seq<uint8>) returns (g: seq<Ref>, last: Ref)
    requires Short(x) && |x| == 8 && 0 < |tail| <= ETH_TX_MAX_LEN && tail[0] >= 0xc0
    requires var p := Puts(x) + tail; |p| <= 0x1_0000 && |q| > 1 && q[1..] == PutListHdr(|p|) + p
    ensures |g| == 8 && forall i :: 0 <= i < 8 ==> IsString(g[i], q, x[i])
    ensures last.isList && Inside(last.field, q) && Content(last.field, q) == tail
    ensures OneItem(tail) ==> Read(q, 1) == Some(g + [last])
    ensures var r := Read(q, 1); r.Some? && |r.value| == 9 && r.value[8].field.len == |tail| ==> OneItem(tail)
  {
    hide Puts, PutListHdr, OneItem, Read, Walk, Decode, Short;
    var pc, next := ListReads(q, 1, x, tail);
    StringsRead(q, 1, x, tail, pc, next);
    ReadTail(q, 1, x, tail, pc, next);
    g, last := Refs(pc, Encoded(x)), Ref(true, Field(next, |tail|));
    TailIs(q, 1, x, tail, pc, next);
    hide AtTail, Encoded, Refs, Checked;
    TailRead(q, next, g, tail);
    assert q[next..next + |tail|] == q[next..];
  }

  lemma TailIs(q: seq<uint8>, body: nat, x: seq<seq<uint8>>, tail: seq<uint8>, pc: nat, next: nat)
    requires Short(x) && AtTail(q, body, x, tail, pc, next)
    ensures next <= |q| && q[next..] == tail && |q| == next + |tail|
  {
    hide WholeList, Walk, Refs, Joined, Encoded, Checked;
  }

  lemma TypedItemsRead(f: seq<Ref>, s: seq<uint8>, tx: Tx)
    requires TypedOf(f, s, tx) && SignedChecked(f)
    ensures Signable(tx, s) && Inside(f[8].field, s) && |Preimage(tx, s)| > 1 && Preimage(tx, s)[0] == 2
    ensures var g := Read(Preimage(tx, s), 1); (g.Some? && TypedRead(g.value, Preimage(tx, s), f, s)) <==> OneItem(Content(f[8].field, s))
  {
    TypedPayloadIs(f, s, tx);
    TypedFields(f, s, tx);
    TypedIs(f, s, tx);
    StringsAre(tx, s);
    var x, q, tail := Strings(tx, s), Preimage(tx, s), Content(tx.accessList, s);
    assert Listed(f[8], s) && tail[0] == s[f[8].field.off];
    assert |x| == 8;
    hide TypedOf, SignedChecked, Signable, Puts, Strings, PutListHdr, Preimage, Payload, TypedRead, OneItem, Read, Short, IsString, Listed, AllListed;
    var g, last := EightAndTail(q, x, tail);
    if OneItem(tail) {
      TypedMatches(g, q, f, s, tx, last);
    } else if Read(q, 1).Some? && TypedRead(Read(q, 1).value, q, f, s) {
      LastLength(Read(q, 1).value, q, f, s);
    }
  }

  lemma LastLength(g: seq<Ref>, q: seq<uint8>, f: seq<Ref>, s: seq<uint8>)
    requires |f| == 12 && TypedRead(g, q, f, s)
    ensures |g| == 9 && g[8].field.len == f[8].field.len
  {
    assert |Content(g[8].field, q)| == |Content(f[8].field, s)|;
  }

  lemma ReadTail(q: seq<uint8>, body: nat, x: seq<seq<uint8>>, tail: seq<uint8>, pc: nat, next: nat)
    requires Short(x) && AtTail(q, body, x, tail, pc, next)
    ensures var g := Refs(pc, Encoded(x)); Checked(g, q) && Read(q, body) == Walk(q, next, |q| - next, g)
  {
    hide WholeList, Walk, Refs, Joined, Encoded, Checked;
  }

  // ---------------------------------------------------------------- every transaction

  /** The bytes that are hashed for an accepted transaction that can be encoded, read as a transaction
      is, hold its signed items: numbers by value, destination, data and access list byte for byte.
      For an access list that is not an item of its own this fails. */
  lemma PreimageReadsBack(s: seq<uint8>)
    requires Parse(s).Some? && Fits(Parse(s).value, s)
    ensures var q, f := Preimage(Parse(s).value, s), Parts(s);
      if s[0] != 2 then Read(q, 0).Some? && LegacyRead(Read(q, 0).value, q, f, s)
      else
        && |q| > 1 && q[0] == 2 && Inside(f[8].field, s)
        && (Read(q, 1).Some? && TypedRead(Read(q, 1).value, q, f, s) <==> OneItem(Content(f[8].field, s)))
  {
    var f, tx := Parts(s), Parse(s).value;
    Accepted(s);
    PartsCost(s);
    FitsExactly(s);
    hide Parse, Parts, Walk, WholeList, BuildLegacy, BuildTyped, Total, AllListed, Crowded, SignedChecked, Fits, Preimage, Read, LegacyRead, TypedRead, OneItem;
    if s[0] == 2 {
      assert TypedOf(f, s, tx);
      TypedItemsRead(f, s, tx);
    } else {
      assert LegacyOf(f, s, tx);
      LegacyItemsRead(f, s, tx);
    }
  }

  // ---------------------------------------------------------------- an access list that is not an item

  function Eight(): (x: seq<seq<uint8>>)
    ensures |x| == 8
  {
    [[0x80], [0x80], [0x80], [0x80], [0x80], [0x80], [0x80], [0x80]]
  }

  /** A list of no bytes, and two empty strings. */
  function Three(): (x: seq<seq<uint8>>)
    ensures |x| == 3
  {
    [[0xff, 0, 0, 0, 0, 0, 0, 0, 0], [0x80], [0x80]]
  }

  /** An access list that declares 2^32 - 1 bytes: it takes up eight, one less than its header. */
  function Clipped(): seq<uint8> {
    [0xff, 0, 0, 0, 0, 0xff, 0xff, 0xff]
  }

  function ClippedTx(): seq<uint8> {
    [2, 0xdb] + Joined(Eight()) + (Clipped() + Joined(Three()))
  }

  lemma Parts83()
    ensures Joined(Eight()) == [0x80, 0x80, 0x80, 0x80, 0x80, 0x80, 0x80, 0x80] && OneItems(Eight())
    ensures Joined(Three()) == [0xff, 0, 0, 0, 0, 0, 0, 0, 0, 0x80, 0x80] && OneItems(Three())
    ensures forall i :: 0 <= i < 8 ==> Decode(Eight()[i]).len == 0
  {
    var x, y := Eight(), Three();
    assert Joined(x[7..]) == [0x80];
    assert Joined(x[6..]) == [0x80, 0x80];
    assert Joined(x[5..]) == [0x80, 0x80, 0x80];
    assert Joined(x[4..]) == [0x80, 0x80, 0x80, 0x80];
    assert Joined(x[2..]) == [0x80, 0x80, 0x80, 0x80, 0x80, 0x80];
    ZerosAre(y[0][1..9]);
    assert Joined(y[2..]) == [0x80];
    assert Joined(y[1..]) == [0x80, 0x80];
  }

  lemma ClippedDecodes(w: seq<uint8>)
    requires |w| > 0 && w[0] == 0xff
    ensures Decode(Clipped() + w) == Item(8, true, 0, 8) && !OneItem(Clipped())
  {
    var u := Clipped() + w;
    AllOnes(u[1..9]);
  }

  function ClippedRefs(): (f: seq<Ref>)
    ensures |f| == 12
  {
    Refs(2, Eight()) + [Ref(true, Field(10, 8))] + Refs(18, Three())
  }

  lemma ClippedLayout()
    ensures var s, w := ClippedTx(), Clipped() + Joined(Three());
      && |s| == 29 && s[0] == 2 && s[1] == 0xdb && WholeList(s[1..]) && |Joined(Eight())| == 8 && |w| == 19 && |Joined(Three())| == 11
      && s[2..] == Joined(Eight()) + w && s[10..] == w && s[18..] == Joined(Three()) && Content(Field(10, 8), s) == Clipped()
  {
    var s, w := ClippedTx(), Clipped() + Joined(Three());
    Parts83();
    hide Joined, Eight, Three;
    assert s[2..] == Joined(Eight()) + w;
    assert s[10..] == w;
    assert s[18..] == Joined(Three());
    assert s[10..18] == Clipped();
    assert s[1..][0] == 0xdb;
  }

  lemma ClippedWalk()
    ensures var s := ClippedTx(); |s| == 29 && Walk(s, 2, 27, []) == Some(ClippedRefs())
  {
    hide ClippedTx, Joined, Refs, Eight, Three, Clipped, OneItem, OneItems, Walk, Checked, WholeList, Decode;
    var s, w := ClippedTx(), Clipped() + Joined(Three());
    Parts83();
    ClippedLayout();
    ThreeStarts();
    ClippedDecodes(Joined(Three()));
    NothingChecked(s);
    WalkPast(s, 2, Eight(), w, []);
    var g := Refs(2, Eight());
    assert [] + g == g;
    assert s[10..10 + 19] == s[10..];
    WalkStep(s, 10, 19, g);
    WalkJoined(s, 18, Three(), g + [Ref(true, Field(10, 8))]);
  }

  lemma ThreeStarts()
    ensures |Joined(Three())| > 0 && Joined(Three())[0] == 0xff
  {
    Parts83();
  }

  lemma ParseTyped(s: seq<uint8>, pc: nat, f: seq<Ref>)
    requires 1 < |s| <= ETH_TX_MAX_LEN && s[0] == 2 && WholeList(s[1..]) && pc == 1 + ListHdr(s[1]) <= |s|
    requires Walk(s, pc, |s| - pc, []) == Some(f) && |f| == 12 && Checked(f, s)
    ensures Parse(s) == BuildTyped(f, s) && (Parse(s).Some? ==> Parts(s) == f)
  {
    hide Walk, WholeList, BuildTyped, Checked, ListHdr;
  }

  lemma ClippedRefsAre()
    ensures var f := ClippedRefs(); f[0].field.len == f[5].field.len == 0 && f[8] == Ref(true, Field(10, 8))
    ensures SignedChecked(ClippedRefs())
  {
    Parts83();
    hide Refs, Eight, Three, Decode, OneItems;
    RefsAre(2, Eight(), 0);
    RefsAre(2, Eight(), 5);
    var f := ClippedRefs();
    forall i | 0 <= i < 8 ensures f[i].field.len == 0 {
      RefsAre(2, Eight(), i);
    }
  }

  lemma BuildsTyped(f: seq<Ref>, s: seq<uint8>)
    requires |f| == 12 && Checked(f, s) && f[0].field.len == f[5].field.len == 0 && f[8].isList
    ensures BuildTyped(f, s).Some?
  {}

  /** An accepted transaction of 29 bytes that can be encoded, and whose hashed bytes are not a list of
      its nine items. */
  lemma ClippedNotRead()
    ensures var s := ClippedTx(); Parse(s).Some? && Fits(Parse(s).value, s) && s[0] == 2
    ensures var s := ClippedTx(); var q := Preimage(Parse(s).value, s); !(Read(q, 1).Some? && TypedRead(Read(q, 1).value, q, Parts(s), s))
  {
    hide *;
    var s, f := ClippedTx(), ClippedRefs();
    ClippedLayout();
    HeaderOne();
    ClippedWalk();
    ClippedRefsAre();
    FieldsChecked(s, 2, f);
    BuildsTyped(f, s);
    ParseTyped(s, 2, f);
    SmallFits(s);
    PreimageReadsBack(s);
    ThreeStarts();
    ClippedDecodes(Joined(Three()));
  }

  lemma HeaderOne()
    ensures ListHdr(0xdb) == 1 && ETH_TX_MAX_LEN == 2048
  {}
}
