/** src/protocol/eth_tx.c: which of the transactions that the parser accepts can be encoded for signing
    within the 16 spare bytes of the two buffers.  A string never grows when it is encoded again; a list
    in the place of a string grows by the header that is put before it. */
module EthFits {
  import opened Words
  import opened Bytes
  import opened Rlp
  import opened EthTx
  import opened EthSighash

  // ---------------------------------------------------------------- the items of a transaction

  /** What the encoding of an item takes up, without the header a list gets. */
  function Cost(f: Ref, s: seq<uint8>): nat {
    if f.isList then f.field.len
    else if f.field.len < 0x8000_0000 && Inside(f.field, s) then |PutStr(Content(f.field, s))|
    else 1
  }

  /** The header a string of n bytes gets, which do not stand for themselves. */
  function Grow(n: nat): nat {
    if n <= 55 then 1 else if n < 256 then 2 else 3
  }

  function Slack(f: Ref): nat {
    if f.isList then Grow(f.field.len) else 0
  }

  function Total(f: seq<Ref>, s: seq<uint8>): nat {
    if |f| == 0 then 0 else Cost(f[0], s) + Total(f[1..], s)
  }

  function Grown(f: seq<Ref>): nat {
    if |f| == 0 then 0 else Slack(f[0]) + Grown(f[1..])
  }

  function Lengths(f: seq<Ref>): nat {
    if |f| == 0 then 0 else f[0].field.len + Lengths(f[1..])
  }

  predicate AllLists(f: seq<Ref>) {
    forall i :: 0 <= i < |f| ==> f[i].isList
  }

  lemma {:induction false} TotalConcat(f: seq<Ref>, g: seq<Ref>, s: seq<uint8>)
    ensures Total(f + g, s) == Total(f, s) + Total(g, s)
  {
    hide Cost;
    if |f| == 0 {
      assert f + g == g;
    } else {
      TotalConcat(f[1..], g, s);
      assert (f + g)[1..] == f[1..] + g && (f + g)[0] == f[0];
    }
  }

  lemma {:induction false} ListsCost(f: seq<Ref>, s: seq<uint8>)
    requires AllLists(f)
    ensures Total(f, s) == Lengths(f)
  {
    if |f| > 0 {
      ListsCost(f[1..], s);
    }
  }

  /** A list item is there in full, and starts with a list header. */
  predicate Listed(f: Ref, s: seq<uint8>) {
    f.isList ==> 0 < f.field.len <= |s| && Inside(f.field, s) && s[f.field.off] >= 0xc0
  }

  predicate AllListed(f: seq<Ref>, s: seq<uint8>) {
    forall i :: 0 <= i < |f| ==> Listed(f[i], s)
  }

  /** An item that takes up nothing is read again and again, until there are too many. */
  lemma {:induction false} StuckWalk(s: seq<uint8>, pc: nat, remaining: nat, refs: seq<Ref>)
    requires 0 < remaining && pc + remaining <= |s| && |refs| <= MAX_TX_FIELDS && Checked(refs, s)
    requires Decode(s[pc..pc + remaining]).used == 0
    ensures Walk(s, pc, remaining, refs) == None
    decreases MAX_TX_FIELDS - |refs|
  {
    hide Walk, Decode, Checked;
    WalkStep(s, pc, remaining, refs);
    if |refs| < MAX_TX_FIELDS {
      var it := Decode(s[pc..pc + remaining]);
      StuckWalk(s, pc, remaining, refs + [Ref(it.isList, Field(pc + it.start, it.len))]);
    }
  }

  /** The items together cost no more than the bytes they were read from. */
  lemma {:induction false} WalkCost(s: seq<uint8>, pc: nat, remaining: int, refs: seq<Ref>)
    requires remaining > 0 ==> pc + remaining <= |s|
    requires |refs| <= MAX_TX_FIELDS && Checked(refs, s) && AllListed(refs, s)
    requires Walk(s, pc, remaining, refs).Some?
    ensures var r := Walk(s, pc, remaining, refs);
      Total(r.value, s) <= Total(refs, s) + (if remaining > 0 then remaining else 0) && AllListed(r.value, s)
    decreases MAX_TX_FIELDS - |refs|
  {
    hide Walk, Decode, Total, Cost, Checked, Listed;
    if remaining > 0 {
      var u := s[pc..pc + remaining];
      var it := Decode(u);
      var f := Ref(it.isList, Field(pc + it.start, it.len));
      WalkStep(s, pc, remaining, refs);
      if it.used == 0 {
        StuckWalk(s, pc, remaining, refs);
      } else {
        ItemCost(s, pc, remaining, f);
        WalkCost(s, pc + it.used, remaining - it.used, refs + [f]);
        TotalConcat(refs, [f], s);
        TotalOne(f, s);
      }
    } else {
      WalkEnd(s, pc, remaining, refs);
    }
  }

  lemma ItemCost(s: seq<uint8>, pc: nat, remaining: nat, f: Ref)
    requires pc + remaining <= |s|
    requires var it := Decode(s[pc..pc + remaining]); it.used > 0 && f == Ref(it.isList, Field(pc + it.start, it.len))
    ensures Cost(f, s) <= Decode(s[pc..pc + remaining]).used && Listed(f, s)
  {
    hide Decode, PutStr;
    var u := s[pc..pc + remaining];
    DecodeInside(u);
    if !f.isList && f.field.len < 0x8000_0000 {
      var it := Decode(u);
      PutStrShort(u);
      PartSlice(s, pc, pc + remaining, it.start, it.start + it.len);
    }
  }

  lemma TotalOne(f: Ref, s: seq<uint8>)
    ensures Total([f], s) == Cost(f, s)
  {
    hide Cost;
    assert Total([f], s) == Cost(f, s) + Total([f][1..], s);
  }

  /** The items a transaction was built from. */
  function Parts(s: seq<uint8>): (f: seq<Ref>)
    requires Parse(s).Some?
    ensures Checked(f, s) && |f| == if s[0] == 2 then 12 else 9
  {
    if s[0] == 2 then Fields(s, 1).value else
      assert s[0..] == s;
      Fields(s, 0).value
  }

  lemma SingleBe(c: seq<uint8>)
    requires |c| == 1
    ensures Be(c) == c[0]
  {
    assert c[..0] == [];
  }

  /** A body of more than 257 bytes has a list header of at least three. */
  lemma LongHeader(b: seq<uint8>)
    requires WholeList(b)
    ensures |b| > 0 && |b| >= ListHdr(b[0]) && (|b| > 257 ==> ListHdr(b[0]) >= 3)
  {
    if b[0] == 0xf8 {
      SingleBe(b[1..2]);
    }
  }

  /** Where the outer list starts. */
  function Body(s: seq<uint8>): nat {
    if |s| > 0 && s[0] == 2 then 1 else 0
  }

  lemma Accepted(s: seq<uint8>)
    requires Parse(s).Some?
    ensures Body(s) < |s| <= ETH_TX_MAX_LEN && WholeList(s[Body(s)..])
    ensures var pc := Body(s) + ListHdr(s[Body(s)]); Walk(s, pc, |s| - pc, []) == Some(Parts(s))
    ensures if s[0] == 2 then Parse(s) == BuildTyped(Parts(s), s) else Parse(s) == BuildLegacy(Parts(s), s)
  {
    hide Walk, BuildTyped, BuildLegacy, WholeList, Checked, ListHdr;
    assert s[0..] == s;
  }

  lemma PartsCost(s: seq<uint8>)
    requires Parse(s).Some?
    ensures AllListed(Parts(s), s) && Body(s) < |s| <= ETH_TX_MAX_LEN && Total(Parts(s), s) < |s| - Body(s)
    ensures |s| > 258 ==> Total(Parts(s), s) <= |s| - Body(s) - 3
  {
    hide *;
    Accepted(s);
    var body := Body(s);
    BodyAt(s);
    LongHeader(s[body..]);
    HdrPositive(s[body]);
    FieldsCost(s, body + ListHdr(s[body]), Parts(s));
  }

  lemma BodyAt(s: seq<uint8>)
    ensures Body(s) <= 1
  {}

  lemma FieldsCost(s: seq<uint8>, pc: nat, f: seq<Ref>)
    requires pc <= |s| && Walk(s, pc, |s| - pc, []) == Some(f)
    ensures AllListed(f, s) && Total(f, s) <= |s| - pc
  {
    NothingChecked(s);
    NothingCosts(s);
    hide Walk, Total, Checked, Listed, AllListed;
    WalkCost(s, pc, |s| - pc, []);
  }

  lemma NothingCosts(s: seq<uint8>)
    ensures Total([], s) == 0 && AllListed([], s)
  {}

  lemma HdrPositive(b: uint8)
    ensures ListHdr(b) > 0
  {}

  // ---------------------------------------------------------------- one field

  /** What is written for an item: no more than it cost and a header, exactly that for a list. */
  predicate Measured(e: seq<uint8>, f: Ref, s: seq<uint8>)
    requires |e| < 0x1_0000_0000
  {
    |PutStr(e)| <= Cost(f, s) + Slack(f) && (f.isList ==> |PutStr(e)| == f.field.len + Slack(f))
  }

  lemma FieldMeasured(f: Ref, s: seq<uint8>, number: bool)
    requires |s| <= ETH_TX_MAX_LEN && f.field.len < 0x8000_0000 && Inside(f.field, s) && Listed(f, s)
    ensures var c := Content(f.field, s); Measured(if number then Strip(c) else c, f, s)
  {
    var c := Content(f.field, s);
    if f.isList {
      assert c[0] == s[f.field.off];
      ListLength(c);
    } else {
      PutIntShort(c);
    }
  }

  lemma ListLength(c: seq<uint8>)
    requires 0 < |c| <= ETH_TX_MAX_LEN && c[0] >= 0xc0
    ensures Strip(c) == c && |PutStr(c)| == |c| + Grow(|c|)
  {
    var n := |c|;
    assert n >= 256 ==> MinBytes(n) == MinBytes(n / 256) + [n % 256] && MinBytes(n / 256) == MinBytes(n / 256 / 256) + [n / 256 % 256];
    assert n < 256 ==> MinBytes(n) == MinBytes(n / 256) + [n % 256];
  }

  lemma {:induction false} PutsMeasured(x: seq<seq<uint8>>, f: seq<Ref>, s: seq<uint8>)
    requires Short(x) && |x| == |f| && forall i :: 0 <= i < |x| ==> Measured(x[i], f[i], s)
    ensures |Puts(x)| <= Total(f, s) + Grown(f) && (AllLists(f) ==> |Puts(x)| == Lengths(f) + Grown(f))
  {
    hide PutStr, Cost, Slack;
    if |x| > 0 {
      PutsMeasured(x[1..], f[1..], s);
    }
  }

  // ---------------------------------------------------------------- the chain id

  /** A number re-encoded from its value is no longer than the item it came from. */
  lemma NumberCost(v: nat, c: seq<uint8>)
    requires |c| < 0x1_0000_0000 && v <= Be(c) && (|c| == 1 ==> v < 0x80 || v == c[0])
    ensures |MinBytes(v)| < 0x1_0000_0000 && |PutStr(MinBytes(v))| <= |PutStr(c)|
  {
    MinBytesShort(v, c);
    LengthBytes(|c|);
    LengthBytes(|MinBytes(v)|);
    BeMinBytes(|c|);
    MinBytesShort(|MinBytes(v)|, MinBytes(|c|));
    if |c| == 1 {
      BeMinBytes(v);
      SingleBe(c);
      if v > 0 {
        assert |MinBytes(v)| == 1;
        SingleBe(MinBytes(v));
      }
    }
  }

  lemma {:induction false} MinBytesLong(v: nat, k: nat)
    requires v >= Pow(256, k)
    ensures |MinBytes(v)| > k
  {
    if k > 0 {
      MinBytesLong(v / 256, k - 1);
    }
  }

  /** A list that is read as a number starts with a byte of at least 0xc0. */
  lemma ListNumber(c: seq<uint8>)
    requires |c| > 0 && c[0] >= 0xc0
    ensures Be(c) >= 0xc0 * Pow(256, |c| - 1)
  {
    assert c == [c[0]] + c[1..];
    BeConcat([c[0]], c[1..]);
    SingleBe([c[0]]);
    MulLe(0xc0, Pow(256, |c| - 1), c[0], Pow(256, |c| - 1));
  }

  lemma SameLength(v: nat, c: seq<uint8>)
    requires 0 < |c| <= 8 && Pow(256, |c| - 1) <= v <= Be(c)
    ensures var m := MinBytes(v); |m| == |c| && |PutStr(m)| == |c| + if |c| == 1 && v < 0x80 then 0 else 1
  {
    MinBytesLong(v, |c| - 1);
    MinBytesShort(v, c);
    BeMinBytes(v);
    if |c| == 1 {
      SingleBe(MinBytes(v));
    }
  }

  lemma {:induction false} PowerAtLeast(k: nat)
    ensures Pow(256, k) >= if k == 0 then 1 else 256
  {
    if k > 0 {
      PowerAtLeast(k - 1);
    }
  }

  /** The chain id of a list, in the place of v or on its own, is as long as the list. */
  lemma ListChain(c: seq<uint8>)
    requires 0 < |c| <= 8 && c[0] >= 0xc0
    ensures var v := Be(c);
      && v >= 0xc0 && |MinBytes(v)| == |MinBytes((v - 35) / 2)| == |c|
      && |PutStr(MinBytes(v))| == |c| + 1 && |PutStr(MinBytes((v - 35) / 2))| == |c| + if |c| == 1 then 0 else 1
  {
    hide MinBytes, PutStr, Pow;
    ListNumber(c);
    PowerAtLeast(|c| - 1);
    if |c| == 1 {
      SingleBe(c);
    }
    SameLength(Be(c), c);
    SameLength((Be(c) - 35) / 2, c);
  }

  // ---------------------------------------------------------------- the whole transaction

  /** No signed item declares 2^31 bytes or more. */
  predicate SignedChecked(f: seq<Ref>) {
    forall i :: 0 <= i < |f| && i < (if |f| == 12 then 9 else 6) ==> f[i].field.len < 0x8000_0000
  }

  /** Every signed item is a list with as long a header as possible, and the unsigned ones take up a
      byte each of a transaction of the greatest size. */
  predicate Crowded(f: seq<Ref>) {
    if |f| == 12 then
      AllLists(f[..9]) && Lengths(f[..9]) == ETH_TX_MAX_LEN - 7 && forall i :: 1 <= i < 8 && i != 5 ==> f[i].field.len >= 256
    else
      |f| == 9 && AllLists(f[..7]) && Lengths(f[..7]) == ETH_TX_MAX_LEN - 5 && f[6].field.len > 1 &&
      forall i :: 0 <= i < 6 && i != 3 ==> f[i].field.len >= 256
  }

  /** The headers of the fields with the destination, of at most 55 bytes, at position to. */
  lemma {:induction false} GrownMost(g: seq<Ref>, to: nat)
    requires forall i :: 0 <= i < |g| && i == to ==> g[i].field.len <= 55
    ensures var most := 3 * |g| - if to < |g| then 2 else 0;
      Grown(g) <= most && (Grown(g) == most <==> AllLists(g) && forall i :: 0 <= i < |g| && i != to ==> g[i].field.len >= 256)
  {
    if |g| > 0 {
      var h := g[1..];
      if to > 0 {
        GrownMost(h, to - 1);
      } else {
        GrownMost(h, |g|);
      }
      assert forall i :: 0 < i < |g| ==> g[i] == h[i - 1];
      assert g == [g[0]] + h;
    }
  }

  lemma HdrLength(n: nat)
    requires n < 0x1_0000
    ensures |PutListHdr(n)| <= 3 && (n >= 256 ==> |PutListHdr(n)| == 3)
  {
    assert n >= 256 ==> MinBytes(n) == MinBytes(n / 256) + [n % 256] && MinBytes(n / 256) == MinBytes(n / 256 / 256) + [n / 256 % 256];
    assert 0 < n < 256 ==> MinBytes(n) == MinBytes(n / 256) + [n % 256];
  }

  // ---------------------------------------------------------------- legacy transactions

  /** What a parsed legacy transaction is made of. */
  predicate LegacyOf(f: seq<Ref>, s: seq<uint8>, tx: Tx) {
    && |f| == 9 && |s| <= ETH_TX_MAX_LEN && Checked(f, s) && AllListed(f, s) && BuildLegacy(f, s) == Some(tx)
  }

  lemma LegacyFields(f: seq<Ref>, s: seq<uint8>, tx: Tx)
    requires LegacyOf(f, s, tx)
    ensures tx.legacy && tx.nonce == f[0].field && tx.gasPrice == f[1].field && tx.gasLimit == f[2].field && tx.toField == f[3].field
    ensures tx.value == f[4].field && tx.data == f[5].field && tx.maxPriorityFee == tx.maxFee == tx.accessList == NOWHERE
    ensures f[3].field.len <= 20 && forall i :: 0 <= i < 9 ==> Listed(f[i], s)
    ensures Signable(tx, s) <==> SignedChecked(f)
  {
    hide Listed;
    assert forall i :: 0 <= i < 9 && f[i].field.len < 0x8000_0000 ==> Inside(f[i].field, s);
  }

  lemma LegacySix(f: seq<Ref>, s: seq<uint8>, tx: Tx)
    requires LegacyOf(f, s, tx) && SignedChecked(f)
    ensures Signable(tx, s) && |Strings(tx, s)| == (if tx.chainId != 0 then 9 else 6) && Short(Strings(tx, s)[..6])
    ensures var n := |Puts(Strings(tx, s)[..6])|; var g := f[..6];
      n <= Total(g, s) + Grown(g) && (AllLists(g) ==> n == Lengths(g) + Grown(g))
  {
    LegacyFields(f, s, tx);
    StringsAre(tx, s);
    var x := Strings(tx, s);
    assert Short(x[..6]);
    assert forall i :: 0 <= i < 6 ==> f[i].field.len < 0x8000_0000 && Inside(f[i].field, s);
    hide LegacyOf, Strings, Puts, Total, Grown, Measured, Listed, Signable, Strip, Content, MinBytes, Inside, Short;
    forall i | 0 <= i < 6 ensures Measured(x[..6][i], f[..6][i], s) {
      FieldMeasured(f[i], s, i != 3 && i != 5);
    }
    PutsMeasured(x[..6], f[..6], s);
  }

  /** The chain id instead of v. */
  lemma LegacyChainCost(f: seq<Ref>, s: seq<uint8>, tx: Tx)
    requires LegacyOf(f, s, tx)
    ensures |MinBytes(tx.chainId)| <= 8 && (tx.chainId != 0 ==>
      |PutStr(MinBytes(tx.chainId))| <= Cost(f[6], s) + if f[6].isList && f[6].field.len > 1 then 1 else 0)
    ensures f[6].isList && f[6].field.len > 1 ==> tx.chainId != 0 && |PutStr(MinBytes(tx.chainId))| == f[6].field.len + 1
  {
    EightBytes(tx.chainId);
    if f[6].field.len > 0 {
      var c := Content(f[6].field, s);
      assert FieldToU64(f[6].field, s) == Some(Be(c));
      assert Some(tx.chainId) == LegacyChain(Be(c));
      assert Listed(f[6], s);
      hide LegacyOf, MinBytes, PutStr, Pow;
      if f[6].isList {
        assert c[0] == s[f[6].field.off];
        ListChain(c);
      } else if tx.chainId != 0 {
        if |c| == 1 {
          SingleBe(c);
        }
        NumberCost(tx.chainId, c);
      }
    }
  }

  lemma LegacyPayload(f: seq<Ref>, s: seq<uint8>, tx: Tx)
    requires LegacyOf(f, s, tx) && SignedChecked(f)
    ensures Signable(tx, s) && |Strings(tx, s)| >= 6 && Short(Strings(tx, s)[..6]) && |MinBytes(tx.chainId)| <= 8
    ensures |Payload(tx, s)| == |Puts(Strings(tx, s)[..6])| + if tx.chainId != 0 then |PutStr(MinBytes(tx.chainId))| + 2 else 0
  {
    LegacyFields(f, s, tx);
    LegacySix(f, s, tx);
    EightBytes(tx.chainId);
    StringsAre(tx, s);
    hide LegacyOf, Checked, AllListed, SignedChecked, Total, Grown, Strings, MinBytes, Strip, Content;
    var x := Strings(tx, s);
    ShortParts(x, 6);
    var y, z := x[..6], x[6..];
    assert x == y + z;
    PutsConcat(y, z);
    PayloadOf(tx, s);
    hide Puts, Signable;
    if tx.chainId != 0 {
      ThreePuts(z);
    } else {
      NoPuts(z);
    }
  }

  lemma ShortParts(x: seq<seq<uint8>>, n: nat)
    requires Short(x) && n <= |x|
    ensures Short(x[..n]) && Short(x[n..])
  {}

  lemma PayloadOf(tx: Tx, s: seq<uint8>)
    requires Signable(tx, s)
    ensures Short(Strings(tx, s)) && |Payload(tx, s)| == |Puts(Strings(tx, s))| + |Tail(tx, s)|
  {}

  lemma ThreePuts(z: seq<seq<uint8>>)
    requires Short(z) && |z| == 3 && z[1] == z[2] == []
    ensures |Puts(z)| == |PutStr(z[0])| + 2
  {
    FirstPut(z);
    FirstPut(z[1..]);
    FirstPut(z[1..][1..]);
    NoPuts(z[1..][1..][1..]);
  }

  /** There are three bytes of list header, and the type byte. */
  lemma FitsWhen(tx: Tx, s: seq<uint8>)
    requires Signable(tx, s)
    ensures Fits(tx, s) <==> |Payload(tx, s)| <= ETH_TX_MAX_LEN + if tx.legacy then 13 else 12
  {
    hide Payload, PutListHdr, Preimage, Signable;
    PreimageIs(tx, s);
    PayloadFits(tx, s);
    var n := |Payload(tx, s)|;
    if n < 0x1_0000 {
      HdrLength(n);
    }
  }

  lemma LegacyExactly(f: seq<Ref>, s: seq<uint8>, tx: Tx)
    requires LegacyOf(f, s, tx) && SignedChecked(f) && Total(f, s) < |s| && (|s| > 258 ==> Total(f, s) <= |s| - 3)
    ensures Signable(tx, s) && (|Payload(tx, s)| <= ETH_TX_MAX_LEN + 13 <==> !Crowded(f))
  {
    LegacyIs(f, s, tx);
    LegacyFields(f, s, tx);
    LegacySix(f, s, tx);
    LegacyChainCost(f, s, tx);
    LegacyPayload(f, s, tx);
    LegacyTotal(f, s);
    var six := f[..6];
    GrownMost(six, 3);
    LegacyCrowded(f);
    hide *;
  }

  lemma LegacyIs(f: seq<Ref>, s: seq<uint8>, tx: Tx)
    requires LegacyOf(f, s, tx)
    ensures |f| == 9 && |s| <= ETH_TX_MAX_LEN && AllListed(f, s) && f[..6][3] == f[3]
  {}

  lemma LegacyCrowded(f: seq<Ref>)
    requires |f| == 9
    ensures var g := f[..6];
      Crowded(f) <==> (AllLists(g) && forall i :: 0 <= i < 6 && i != 3 ==> g[i].field.len >= 256) &&
                      f[6].isList && f[6].field.len > 1 && Lengths(g) + f[6].field.len == ETH_TX_MAX_LEN - 5
  {
    var g := f[..6];
    assert f[..7] == g + [f[6]];
    LengthsConcat(g, [f[6]]);
    LengthsOne(f[6]);
    hide Lengths;
  }

  lemma {:induction false} LengthsConcat(f: seq<Ref>, g: seq<Ref>)
    ensures Lengths(f + g) == Lengths(f) + Lengths(g)
  {
    if |f| == 0 {
      assert f + g == g;
    } else {
      LengthsConcat(f[1..], g);
      assert (f + g)[1..] == f[1..] + g && (f + g)[0] == f[0];
    }
  }

  lemma LengthsOne(f: Ref)
    ensures Lengths([f]) == f.field.len
  {}

  lemma LegacyTotal(f: seq<Ref>, s: seq<uint8>)
    requires |f| == 9 && AllListed(f, s)
    ensures Total(f, s) >= Total(f[..6], s) + Cost(f[6], s) + 2
    ensures f[6].isList ==> Cost(f[6], s) == f[6].field.len
    ensures AllLists(f[..6]) ==> Total(f[..6], s) == Lengths(f[..6])
  {
    assert Listed(f[7], s) && Listed(f[8], s);
    hide PutStr, Listed, Total;
    var g, h := f[..6], f[6..];
    assert f == g + h;
    TotalConcat(g, h, s);
    TotalStep(h, s);
    TotalStep(h[1..], s);
    TotalStep(h[1..][1..], s);
    CostPositive(f[7], s);
    CostPositive(f[8], s);
    if AllLists(g) {
      ListsCost(g, s);
    }
  }

  lemma TotalStep(f: seq<Ref>, s: seq<uint8>)
    requires |f| > 0
    ensures Total(f, s) == Cost(f[0], s) + Total(f[1..], s)
  {}

  lemma CostPositive(f: Ref, s: seq<uint8>)
    requires Listed(f, s)
    ensures Cost(f, s) > 0
  {}

  // ---------------------------------------------------------------- EIP-1559 transactions

  predicate TypedOf(f: seq<Ref>, s: seq<uint8>, tx: Tx) {
    && |f| == 12 && |s| <= ETH_TX_MAX_LEN && Checked(f, s) && AllListed(f, s) && BuildTyped(f, s) == Some(tx)
  }

  lemma TypedIs(f: seq<Ref>, s: seq<uint8>, tx: Tx)
    requires TypedOf(f, s, tx)
    ensures |f| == 12 && |s| <= ETH_TX_MAX_LEN && AllListed(f, s) && f[1..8][4] == f[5] && !tx.legacy
  {}

  lemma TypedFields(f: seq<Ref>, s: seq<uint8>, tx: Tx)
    requires TypedOf(f, s, tx)
    ensures tx.nonce == f[1].field && tx.maxPriorityFee == f[2].field && tx.maxFee == f[3].field && tx.gasLimit == f[4].field
    ensures tx.toField == f[5].field && tx.value == f[6].field && tx.data == f[7].field && tx.accessList == f[8].field
    ensures tx.gasPrice == NOWHERE && !tx.legacy && f[8].isList
    ensures f[5].field.len <= 20 && forall i :: 0 <= i < 12 ==> Listed(f[i], s)
    ensures Signable(tx, s) <==> SignedChecked(f)
  {
    assert Listed(f[8], s);
    hide Listed;
    assert forall i :: 0 <= i < 9 && f[i].field.len < 0x8000_0000 ==> Inside(f[i].field, s);
    assert f[0].field.len <= 8;
  }

  lemma TypedSeven(f: seq<Ref>, s: seq<uint8>, tx: Tx)
    requires TypedOf(f, s, tx) && SignedChecked(f)
    ensures Signable(tx, s) && |Strings(tx, s)| == 8 && Short(Strings(tx, s)[1..])
    ensures var n := |Puts(Strings(tx, s)[1..])|; var g := f[1..8];
      n <= Total(g, s) + Grown(g) && (AllLists(g) ==> n == Lengths(g) + Grown(g))
  {
    TypedFields(f, s, tx);
    StringsAre(tx, s);
    var x := Strings(tx, s);
    assert Short(x[1..]);
    assert forall i :: 0 <= i < 8 ==> f[i].field.len < 0x8000_0000 && Inside(f[i].field, s);
    hide TypedOf, Strings, Puts, Total, Grown, Measured, Listed, Signable, Strip, Content, MinBytes, Inside, Short;
    forall i | 0 <= i < 7 ensures Measured(x[1..][i], f[1..8][i], s) {
      FieldMeasured(f[i + 1], s, i != 4 && i != 6);
    }
    PutsMeasured(x[1..], f[1..8], s);
  }

  lemma TypedChainCost(f: seq<Ref>, s: seq<uint8>, tx: Tx)
    requires TypedOf(f, s, tx)
    ensures |MinBytes(tx.chainId)| <= 8 && |PutStr(MinBytes(tx.chainId))| <= Cost(f[0], s) + if f[0].isList then 1 else 0
    ensures f[0].isList ==> |PutStr(MinBytes(tx.chainId))| == f[0].field.len + 1
  {
    EightBytes(tx.chainId);
    var c := Content(f[0].field, s);
    assert tx.chainId == Be(c);
    assert Listed(f[0], s);
    hide TypedOf, MinBytes, PutStr, Pow;
    if f[0].isList {
      assert c[0] == s[f[0].field.off];
      ListChain(c);
    } else {
      if |c| == 1 {
        SingleBe(c);
      }
      NumberCost(tx.chainId, c);
    }
  }

  lemma TypedPayload(f: seq<Ref>, s: seq<uint8>, tx: Tx)
    requires TypedOf(f, s, tx) && SignedChecked(f)
    ensures Signable(tx, s) && |Strings(tx, s)| == 8 && Short(Strings(tx, s)[1..]) && |MinBytes(tx.chainId)| <= 8
    ensures |Payload(tx, s)| == |PutStr(MinBytes(tx.chainId))| + |Puts(Strings(tx, s)[1..])| + f[8].field.len
  {
    TypedFields(f, s, tx);
    EightBytes(tx.chainId);
    StringsAre(tx, s);
    hide TypedOf, Checked, AllListed, SignedChecked, Strings, MinBytes, Strip, Content;
    FirstPut(Strings(tx, s));
    PayloadOf(tx, s);
    ContentLength(tx.accessList, s);
  }

  lemma TypedTotal(f: seq<Ref>, s: seq<uint8>)
    requires |f| == 12 && AllListed(f, s) && f[8].isList
    ensures Total(f, s) >= Cost(f[0], s) + Total(f[1..8], s) + f[8].field.len + 3
    ensures f[0].isList ==> Cost(f[0], s) == f[0].field.len
    ensures AllLists(f[1..8]) ==> Total(f[1..8], s) == Lengths(f[1..8])
  {
    assert forall i :: 9 <= i < 12 ==> Listed(f[i], s);
    assert Cost(f[8], s) == f[8].field.len;
    hide PutStr, Listed, Total;
    var g, h := f[1..8], f[8..];
    assert f[1..] == g + h;
    TotalStep(f, s);
    TotalConcat(g, h, s);
    TotalStep(h, s);
    var last := f[9..];
    assert h[1..] == last && last[1..] == f[10..] && f[10..][1..] == f[11..];
    TotalStep(last, s);
    TotalStep(f[10..], s);
    TotalStep(f[11..], s);
    CostPositive(f[9], s);
    CostPositive(f[10], s);
    CostPositive(f[11], s);
    if AllLists(g) {
      ListsCost(g, s);
    }
  }

  lemma TypedCrowded(f: seq<Ref>)
    requires |f| == 12
    ensures var g := f[1..8];
      Crowded(f) <==> (AllLists(g) && forall i :: 0 <= i < 7 && i != 4 ==> g[i].field.len >= 256) && f[0].isList && f[8].isList &&
                      f[0].field.len + Lengths(g) + f[8].field.len == ETH_TX_MAX_LEN - 7
  {
    var g := f[1..8];
    assert f[..9] == [f[0]] + g + [f[8]];
    LengthsConcat([f[0]] + g, [f[8]]);
    LengthsConcat([f[0]], g);
    LengthsOne(f[0]);
    LengthsOne(f[8]);
    hide Lengths;
    assert forall i :: 1 <= i < 8 ==> f[i] == g[i - 1];
    assert forall i :: 0 <= i < 7 ==> g[i] == f[i + 1];
  }

  lemma TypedExactly(f: seq<Ref>, s: seq<uint8>, tx: Tx)
    requires TypedOf(f, s, tx) && SignedChecked(f) && Total(f, s) < |s| - 1 && (|s| > 258 ==> Total(f, s) <= |s| - 4)
    ensures Signable(tx, s) && (|Payload(tx, s)| <= ETH_TX_MAX_LEN + 12 <==> !Crowded(f))
  {
    TypedIs(f, s, tx);
    TypedFields(f, s, tx);
    TypedSeven(f, s, tx);
    TypedChainCost(f, s, tx);
    TypedPayload(f, s, tx);
    TypedTotal(f, s);
    GrownMost(f[1..8], 4);
    TypedCrowded(f);
    hide *;
  }

  // ---------------------------------------------------------------- every transaction

  /** The transactions that the parser accepts and that can be encoded for signing. */
  lemma FitsExactly(s: seq<uint8>)
    requires Parse(s).Some?
    ensures Fits(Parse(s).value, s) <==> SignedChecked(Parts(s)) && !Crowded(Parts(s))
  {
    var f, tx := Parts(s), Parse(s).value;
    Accepted(s);
    PartsCost(s);
    hide Parse, Parts, Walk, WholeList, BuildLegacy, BuildTyped, Total, AllListed, Crowded, SignedChecked, Signable, Payload, Preimage;
    if s[0] == 2 {
      assert TypedOf(f, s, tx);
      TypedFields(f, s, tx);
      if SignedChecked(f) {
        TypedExactly(f, s, tx);
        FitsWhen(tx, s);
      }
    } else {
      assert LegacyOf(f, s, tx);
      LegacyFields(f, s, tx);
      if SignedChecked(f) {
        LegacyExactly(f, s, tx);
        FitsWhen(tx, s);
      }
    }
  }

  /** Only a transaction of the greatest size can be crowded. */
  lemma CrowdedIsFull(s: seq<uint8>)
    requires Parse(s).Some? && Crowded(Parts(s))
    ensures |s| == ETH_TX_MAX_LEN
  {
    var f := Parts(s);
    PartsCost(s);
    hide Parse, Parts, Total, Lengths, AllListed, Crowded, Cost;
    if |f| == 12 {
      TypedCrowded(f);
      TypedTotal(f, s);
    } else {
      LegacyCrowded(f);
      LegacyTotal(f, s);
    }
  }

  /** Below that size the declared lengths alone decide. */
  lemma SmallFits(s: seq<uint8>)
    requires Parse(s).Some? && |s| < ETH_TX_MAX_LEN
    ensures Fits(Parse(s).value, s) <==> SignedChecked(Parts(s))
  {
    hide *;
    FitsExactly(s);
    if Crowded(Parts(s)) {
      CrowdedIsFull(s);
    }
  }

  // ---------------------------------------------------------------- the two ways not to fit

  /** A list of n zero bytes with a two-byte length. */
  function ZeroList(n: nat): (e: seq<uint8>)
    requires 256 <= n < 0x1_0000
    ensures |e| == n + 3
  {
    [0xf9, n / 256, n % 256] + Zeros(n)
  }

  function Joined(items: seq<seq<uint8>>): seq<uint8> {
    if |items| == 0 then [] else items[0] + Joined(items[1..])
  }

  /** A whole item, and nothing else. */
  predicate OneItem(e: seq<uint8>) {
    |e| > 0 && Decode(e).used == |e| && Decode(e).len < 0x8000_0000
  }

  predicate OneItems(items: seq<seq<uint8>>) {
    forall i :: 0 <= i < |items| ==> OneItem(items[i])
  }

  lemma FirstOfItems(items: seq<seq<uint8>>)
    requires OneItems(items) && |items| > 0
    ensures OneItem(items[0]) && OneItems(items[1..])
  {
    hide OneItem;
  }

  function Refs(pc: nat, items: seq<seq<uint8>>): (f: seq<Ref>)
    ensures |f| == |items|
    decreases |items|
  {
    if |items| == 0 then [] else
      var it := Decode(items[0]);
      [Ref(it.isList, Field(pc + it.start, it.len))] + Refs(pc + |items[0]|, items[1..])
  }

  lemma {:induction false} RefsAre(pc: nat, items: seq<seq<uint8>>, i: nat)
    requires i < |items|
    ensures var f := Refs(pc, items)[i]; f.isList == Decode(items[i]).isList && f.field.len == Decode(items[i]).len
    decreases |items|
  {
    hide Decode;
    if i > 0 {
      RefsAre(pc + |items[0]|, items[1..], i - 1);
    }
  }

  /** A string that starts with whole items is walked item by item. */
  lemma {:induction false} WalkPast(s: seq<uint8>, pc: nat, items: seq<seq<uint8>>, w: seq<uint8>, refs: seq<Ref>)
    requires pc <= |s| && s[pc..] == Joined(items) + w && |refs| + |items| <= MAX_TX_FIELDS && Checked(refs, s)
    requires OneItems(items)
    ensures var next := pc + |Joined(items)|;
      && next <= |s| && s[next..] == w && Checked(refs + Refs(pc, items), s)
      && Walk(s, pc, |s| - pc, refs) == Walk(s, next, |s| - next, refs + Refs(pc, items))
    decreases |items|
  {
    hide Walk, Decode, Checked, OneItem, OneItems, Joined, Refs;
    JoinedRefs(pc, items);
    if |items| == 0 {
      assert [] + w == w && refs + [] == refs;
    } else {
      var e, rest := items[0], items[1..];
      assert e + Joined(rest) + w == e + (Joined(rest) + w);
      FirstOfItems(items);
      FirstItem(s, pc, e, Joined(rest) + w);
      WalkStep(s, pc, |s| - pc, refs);
      var it := Decode(e);
      var f := Ref(it.isList, Field(pc + it.start, it.len));
      WalkPast(s, pc + |e|, rest, w, refs + [f]);
      Append(refs, f, Refs(pc + |e|, rest));
    }
  }

  lemma WalkJoined(s: seq<uint8>, pc: nat, items: seq<seq<uint8>>, refs: seq<Ref>)
    requires pc <= |s| && s[pc..] == Joined(items) && |refs| + |items| <= MAX_TX_FIELDS && Checked(refs, s)
    requires OneItems(items)
    ensures Walk(s, pc, |s| - pc, refs) == Some(refs + Refs(pc, items))
  {
    hide Walk, Checked, OneItems, Joined, Refs;
    assert Joined(items) + [] == Joined(items);
    WalkPast(s, pc, items, [], refs);
    var next := pc + |Joined(items)|;
    assert |s[next..]| == 0;
    WalkEnd(s, next, |s| - next, refs + Refs(pc, items));
  }

  lemma JoinedRefs(pc: nat, items: seq<seq<uint8>>)
    ensures if |items| == 0 then Joined(items) == [] && Refs(pc, items) == [] else
      var it := Decode(items[0]);
      Joined(items) == items[0] + Joined(items[1..]) &&
      Refs(pc, items) == [Ref(it.isList, Field(pc + it.start, it.len))] + Refs(pc + |items[0]|, items[1..])
  {}

  lemma Append(a: seq<Ref>, f: Ref, b: seq<Ref>)
    ensures a + [f] + b == a + ([f] + b)
  {}

  lemma FirstItem(s: seq<uint8>, pc: nat, e: seq<uint8>, w: seq<uint8>)
    requires pc <= |s| && s[pc..] == e + w && OneItem(e)
    ensures |s| - pc > 0 && s[pc..pc + (|s| - pc)] == e + w && Decode(e + w) == Decode(e) && Decode(e).used == |e|
    ensures pc + |e| <= |s| && s[pc + |e|..] == w
  {
    DecodePrefix(e, w);
    TailSlice(s, pc, |e|, |e| + |w|);
    assert (e + w)[|e|..] == w;
  }

  lemma ZeroListIs(n: nat)
    requires 256 <= n < 0x1_0000
    ensures OneItem(ZeroList(n)) && Decode(ZeroList(n)) == Item(n + 3, true, 0, n + 3)
  {
    var e := ZeroList(n);
    var c := e[1..3];
    assert c == [n / 256, n % 256] && c[..1] == [n / 256];
    SingleBe(c[..1]);
    assert Be(c) == n;
  }

  /** Lists for nonce, gas price, gas limit, destination, value, data and v; empty strings for r and s. */
  function FullItems(): (x: seq<seq<uint8>>)
    ensures |x| == 9
  {
    [ZeroList(256), ZeroList(256), ZeroList(256), [0xd3] + Zeros(19), ZeroList(256), ZeroList(982), [0xc1, 0], [0x80], [0x80]]
  }

  function FullTx(): seq<uint8> {
    [0xf9, 7, 253] + Joined(FullItems())
  }

  lemma FullItemsAre()
    ensures OneItems(FullItems())
    ensures var x := FullItems(); Decode(x[3]).len == 20 && Decode(x[6]).len == 2 && Decode(x[5]).len == 985
    ensures var x := FullItems(); forall i :: i in {0, 1, 2, 4} ==> Decode(x[i]).len == 259
    ensures var x := FullItems(); forall i :: 0 <= i < 7 ==> Decode(x[i]).isList
  {
    ZeroListIs(256);
    ZeroListIs(982);
    hide ZeroList;
  }

  lemma FullLength()
    ensures |Joined(FullItems())| == 2045
  {
    var x := FullItems();
    hide Zeros, ZeroList;
    assert |Joined(x[8..])| == 1;
    assert |Joined(x[7..])| == 2;
    assert |Joined(x[6..])| == 4;
    assert |Joined(x[5..])| == 989;
  }

  lemma TwoBytes(a: uint8, b: uint8)
    ensures Be([a, b]) == 256 * a + b
  {
    assert [a, b][..1] == [a];
    SingleBe([a]);
  }

  lemma FullWalk()
    ensures var s := FullTx(); |s| == ETH_TX_MAX_LEN && WholeList(s) && Walk(s, 3, |s| - 3, []) == Some(Refs(3, FullItems()))
  {
    var s := FullTx();
    FullLength();
    FullItemsAre();
    TwoBytes(7, 253);
    assert s[1..3] == [7, 253] && s[3..] == Joined(FullItems());
    NothingChecked(s);
    hide Joined, Refs, FullItems, OneItems, Be;
    WalkJoined(s, 3, FullItems(), []);
    assert [] + Refs(3, FullItems()) == Refs(3, FullItems());
  }

  lemma FullRefs()
    ensures var f := Refs(3, FullItems()); Crowded(f) && SignedChecked(f) && f[3].field.len == 20 && f[6].field.len == 2 && f[6].isList
  {
    var x := FullItems();
    var f := Refs(3, x);
    FullItemsAre();
    forall i | 0 <= i < 9 ensures f[i].isList == Decode(x[i]).isList && f[i].field.len == Decode(x[i]).len {
      RefsAre(3, x, i);
    }
    hide Refs, FullItems, Decode, Lengths, OneItems;
    var g := f[..7];
    LengthsSeven(g);
    assert AllLists(g) && Lengths(g) == ETH_TX_MAX_LEN - 5;
  }

  lemma LengthsSeven(g: seq<Ref>)
    requires |g| == 7
    ensures Lengths(g) == g[0].field.len + g[1].field.len + g[2].field.len + g[3].field.len + g[4].field.len + g[5].field.len + g[6].field.len
  {
    assert Lengths(g[6..]) == g[6].field.len;
    assert Lengths(g[5..]) == g[5].field.len + Lengths(g[6..]) by { assert g[5..][1..] == g[6..]; }
    assert Lengths(g[4..]) == g[4].field.len + Lengths(g[5..]) by { assert g[4..][1..] == g[5..]; }
    assert Lengths(g[3..]) == g[3].field.len + Lengths(g[4..]) by { assert g[3..][1..] == g[4..]; }
    assert Lengths(g[2..]) == g[2].field.len + Lengths(g[3..]) by { assert g[2..][1..] == g[3..]; }
    assert Lengths(g[1..]) == g[1].field.len + Lengths(g[2..]) by { assert g[1..][1..] == g[2..]; }
  }

  /** Any nine items with a destination and a v of these lengths make up a transaction. */
  lemma BuildsLegacy(f: seq<Ref>, s: seq<uint8>)
    requires |f| == 9 && Checked(f, s) && AllListed(f, s) && f[3].field.len in {0, 20}
    requires f[6].field.len == 0 || (f[6].field.len == 2 && f[6].isList)
    ensures BuildLegacy(f, s).Some?
  {
    if f[6].field.len > 0 {
      var c := Content(f[6].field, s);
      assert Listed(f[6], s) && c[0] == s[f[6].field.off];
      hide Be, MinBytes, PutStr;
      ListChain(c);
    }
  }

  /** The string is one list, of the items f. */
  predicate ListOf(s: seq<uint8>, pc: nat, f: seq<Ref>) {
    0 < |s| <= ETH_TX_MAX_LEN && s[0] >= 0xc0 && WholeList(s) && pc == ListHdr(s[0]) <= |s| && Walk(s, pc, |s| - pc, []) == Some(f)
  }

  lemma ParseLegacy(s: seq<uint8>, pc: nat, f: seq<Ref>)
    requires ListOf(s, pc, f) && |f| == 9 && Checked(f, s)
    ensures Parse(s) == BuildLegacy(f, s) && (Parse(s).Some? ==> Parts(s) == f)
  {
    assert s[0..] == s;
    hide Walk, WholeList, BuildLegacy, Checked, ListHdr;
  }

  /** A list of nine such items is accepted. */
  lemma AcceptsLegacy(s: seq<uint8>, pc: nat, f: seq<Ref>)
    requires ListOf(s, pc, f) && |f| == 9 && f[3].field.len in {0, 20}
    requires f[6].field.len == 0 || (f[6].field.len == 2 && f[6].isList)
    ensures Parse(s).Some? && Parts(s) == f
  {
    hide Walk, WholeList, BuildLegacy, Checked, AllListed, ListHdr, Parse, Parts;
    FieldsCost(s, pc, f);
    FieldsChecked(s, pc, f);
    BuildsLegacy(f, s);
    ParseLegacy(s, pc, f);
  }

  lemma FieldsChecked(s: seq<uint8>, pc: nat, f: seq<Ref>)
    requires pc <= |s| && Walk(s, pc, |s| - pc, []) == Some(f)
    ensures Checked(f, s)
  {
    NothingChecked(s);
    hide Walk;
  }

  /** An accepted transaction of 2048 bytes whose encoding is longer than the buffer. */
  lemma FullDoesNotFit()
    ensures var s := FullTx(); |s| == ETH_TX_MAX_LEN && Parse(s).Some? && SignedChecked(Parts(s)) && !Fits(Parse(s).value, s)
  {
    hide *;
    var s, f := FullTx(), Refs(3, FullItems());
    FullList();
    FullRefs();
    AcceptsLegacy(s, 3, f);
    FitsExactly(s);
  }

  lemma FullList()
    ensures ListOf(FullTx(), 3, Refs(3, FullItems())) && |FullTx()| == ETH_TX_MAX_LEN
  {
    hide FullTx, FullItems, Walk, WholeList, Refs, ListHdr;
    FullStarts();
    FullWalk();
  }

  lemma FullStarts()
    ensures |FullTx()| > 0 && FullTx()[0] == 0xf9 && ListHdr(0xf9) == 3
  {}

  /** A nonce that declares 2^32 - 1 bytes, of which the signed length keeps -1; a list, and seven empty
      strings. */
  function HugeTx(): seq<uint8> {
    [0xd8, 0xbf, 0, 0, 0, 0, 0xff, 0xff, 0xff] + Joined(HugeItems())
  }

  function HugeItems(): (x: seq<seq<uint8>>)
    ensures |x| == 8
  {
    [[0xff, 0, 0, 0, 0, 0, 0, 0, 0], [0x80], [0x80], [0x80], [0x80], [0x80], [0x80], [0x80]]
  }

  function HugeRefs(): (f: seq<Ref>)
    ensures |f| == 9 && f[0] == Ref(false, Field(10, 0xffff_ffff))
  {
    [Ref(false, Field(10, 0xffff_ffff))] + Refs(9, HugeItems())
  }

  lemma HugeItemsAre()
    ensures var x := HugeItems(); OneItems(x) && forall i :: 0 < i < 8 ==> Decode(x[i]).len == 0
    ensures |Joined(HugeItems())| == 16
  {
    var x := HugeItems();
    ZerosAre(x[0][1..9]);
    assert |Joined(x[7..])| == 1;
    assert |Joined(x[5..])| == 3;
    assert |Joined(x[3..])| == 5;
  }

  lemma {:induction false} ZerosAre(c: seq<uint8>)
    requires forall i :: 0 <= i < |c| ==> c[i] == 0
    ensures Be(c) == 0
  {
    if |c| > 0 {
      ZerosAre(c[..|c| - 1]);
    }
  }

  /** The nonce takes up eight bytes, the last of its nine is read again as a list header. */
  lemma HugeNonce(u: seq<uint8>)
    requires |u| >= 9 && u[..9] == [0xbf, 0, 0, 0, 0, 0xff, 0xff, 0xff, 0xff]
    ensures Decode(u) == Item(8, false, 9, 0xffff_ffff)
  {
    AllOnes(u[1..9]);
  }

  /** Eight length bytes that spell 2^32 - 1: read with its sign, -1. */
  lemma AllOnes(c: seq<uint8>)
    requires c == [0, 0, 0, 0, 0xff, 0xff, 0xff, 0xff]
    ensures Be(c) == 0xffff_ffff
  {
    assert c == [0, 0, 0, 0] + [0xff, 0xff, 0xff, 0xff];
    BeConcat([0, 0, 0, 0], [0xff, 0xff, 0xff, 0xff]);
    ZerosAre([0, 0, 0, 0]);
    assert [0xff, 0xff, 0xff, 0xff] == [0xff, 0xff] + [0xff, 0xff];
    BeConcat([0xff, 0xff], [0xff, 0xff]);
    TwoBytes(0xff, 0xff);
    assert Pow(256, 2) == 0x1_0000;
    hide Be, Pow;
  }

  lemma HugeWalk()
    ensures ListOf(HugeTx(), 1, HugeRefs())
  {
    var s := HugeTx();
    HugeItemsAre();
    assert Joined(HugeItems())[0] == HugeItems()[0][0] == 0xff;
    var u := s[1..1 + 24];
    assert s[..9] == [0xd8, 0xbf, 0, 0, 0, 0, 0xff, 0xff, 0xff] && u[..8] == s[..9][1..] && u[8] == s[9] == 0xff;
    assert u[..9] == u[..8] + [u[8]];
    assert u[..9] == [0xbf, 0, 0, 0, 0, 0xff, 0xff, 0xff, 0xff];
    HugeNonce(u);
    NothingChecked(s);
    assert s[9..] == Joined(HugeItems());
    hide Joined, Refs, HugeItems, OneItems, Decode, Walk;
    WalkStep(s, 1, 24, []);
    var next := [Ref(false, Field(10, 0xffff_ffff))];
    assert [] + next == next;
    WalkJoined(s, 9, HugeItems(), next);
  }

  lemma HugeRefsAre()
    ensures var f := HugeRefs(); f[3].field.len == f[6].field.len == 0 && !SignedChecked(f)
  {
    HugeItemsAre();
    hide Refs, HugeItems, Decode, OneItems;
    RefsAre(9, HugeItems(), 2);
    RefsAre(9, HugeItems(), 5);
  }

  /** An accepted transaction of 25 bytes with a field outside of it. */
  lemma HugeDoesNotFit()
    ensures var s := HugeTx(); |s| == 25 && Parse(s).Some? && !SignedChecked(Parts(s)) && !Fits(Parse(s).value, s)
  {
    var s, f := HugeTx(), HugeRefs();
    HugeItemsAre();
    HugeWalk();
    HugeRefsAre();
    assert |s| == 25;
    hide HugeTx, HugeRefs, HugeItems, Walk, WholeList, Refs, ListHdr, Parse, Parts, Fits, Crowded, SignedChecked, ListOf;
    AcceptsLegacy(s, 1, f);
    FitsExactly(s);
  }
}
