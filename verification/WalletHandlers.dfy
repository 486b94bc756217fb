/** src/app/wallet_handlers.c: chunked transactions, the pending slot, approval and rejection.  Key
    derivation, signing and hashing are parameters. */
module WalletHandlers {
  import opened Words
  import opened Bytes
  import opened Rlp
  import opened EthTx
  import opened EthSighash

  const SW_OK: nat := 0x9000
  const SW_BAD_DATA: nat := 0x6A80
  const SW_LOCKED: nat := 0x6982
  const SW_REJECTED: nat := 0x6985

  datatype Pending = Idle | ConfirmAddr | ReviewTx

  /** m/44'/60'/0'/0/ as the first four components of a path of five. */
  function PathHead(): seq<uint8> {
    [5, 0x80, 0, 0, 0x2C, 0x80, 0, 0, 0x3C, 0x80, 0, 0, 0, 0, 0, 0, 0]
  }

  const PATH_LEN: nat := 21

  /** The index of the one allowed path at the start of the data. */
  function PathIndex(d: seq<uint8>): Option<uint32> {
    if |d| >= PATH_LEN && d[..17] == PathHead() then
      PathFits(d[17..21]);
      Some(Be(d[17..21]))
    else None
  }

  lemma PathFits(c: seq<uint8>)
    requires |c| == 4
    ensures Be(c) < 0x1_0000_0000
    ensures Be(c) == ((c[0] as int * 256 + c[1]) * 256 + c[2]) * 256 + c[3]
  {
    assert c[..3][..2] == c[..2] && c[..2][..1] == c[..1] && c[..1][..0] == [];
    var c0: int, c1: int, c2: int := c[0], c[1], c[2];
    assert Be(c[..1]) == c0 && Be(c[..2]) == 256 * c0 + c1 && Be(c[..3]) == 256 * (256 * c0 + c1) + c2;
  }

  /** Component i of a path. */
  method Component(d: array<uint8>, i: nat) returns (c: uint32)
    requires 5 + 4 * i <= d.Length
    ensures c == Be(d[1 + 4 * i..5 + 4 * i])
  {
    PathFits(d[1 + 4 * i..5 + 4 * i]);
    c := ((d[1 + 4 * i] as int * 256 + d[2 + 4 * i]) * 256 + d[3 + 4 * i]) * 256 + d[4 + 4 * i];
  }

  lemma ComponentIs(c: seq<uint8>, v: uint32)
    requires |c| == 4
    ensures Be(c) == v <==> c == BeBytes(v, 4)
  {
    PathFits(c);
    BytesOfBe(c);
    Pow256Four();
    BeOfBytes(v, 4);
  }

  lemma Pow256Four()
    ensures Pow(256, 4) == 0x1_0000_0000
  {
    assert Pow(256, 2) == 0x1_0000;
    hide Pow;
    PowAdd(256, 2, 2);
  }

  lemma Prefixes()
    ensures BeBytes(0x8000002C, 4) == [0x80, 0, 0, 0x2C] && BeBytes(0x8000003C, 4) == [0x80, 0, 0, 0x3C]
    ensures BeBytes(0x80000000, 4) == [0x80, 0, 0, 0] && BeBytes(0, 4) == [0, 0, 0, 0]
  {
    FourBytes(0x8000002C);
    FourBytes(0x8000003C);
    FourBytes(0x80000000);
    FourBytes(0);
  }

  lemma FourBytes(v: uint32)
    ensures BeBytes(v, 4) == [v / 256 / 256 / 256 % 256, v / 256 / 256 % 256, v / 256 % 256, v % 256]
  {
    assert BeBytes(v, 4) == BeBytes(v / 256, 3) + [v % 256];
    assert BeBytes(v / 256, 3) == BeBytes(v / 256 / 256, 2) + [v / 256 % 256];
    assert BeBytes(v / 256 / 256, 2) == BeBytes(v / 256 / 256 / 256, 1) + [v / 256 / 256 % 256];
    assert BeBytes(v / 256 / 256 / 256, 1) == BeBytes(v / 256 / 256 / 256 / 256, 0) + [v / 256 / 256 / 256 % 256];
  }

  lemma HeadSplit(d: seq<uint8>)
    requires |d| >= PATH_LEN
    ensures d[..17] == PathHead() <==> (d[0] == 5 && d[1..5] == [0x80, 0, 0, 0x2C] && d[5..9] == [0x80, 0, 0, 0x3C]
                                        && d[9..13] == [0x80, 0, 0, 0] && d[13..17] == [0, 0, 0, 0])
  {
    var e, h := d[..17], PathHead();
    assert h == [h[0]] + h[1..5] + h[5..9] + h[9..13] + h[13..17] && e == [e[0]] + e[1..5] + e[5..9] + e[9..13] + e[13..17];
    assert e[1..5] == d[1..5] && e[5..9] == d[5..9] && e[9..13] == d[9..13] && e[13..17] == d[13..17];
    assert h[1..5] == [0x80, 0, 0, 0x2C] && h[5..9] == [0x80, 0, 0, 0x3C] && h[9..13] == [0x80, 0, 0, 0] && h[13..17] == [0, 0, 0, 0];
  }

  /** A path is allowed when its first four components are. */
  lemma PathDecision(s: seq<uint8>)
    requires |s| >= PATH_LEN && s[0] == 5
    ensures PathIndex(s) == if Be(s[1..5]) == 0x8000002C && Be(s[5..9]) == 0x8000003C && Be(s[9..13]) == 0x80000000 && Be(s[13..17]) == 0
      then Some(Be(s[17..21])) else None
  {
    HeadSplit(s);
    Prefixes();
    ComponentIs(s[1..5], 0x8000002C);
    ComponentIs(s[5..9], 0x8000003C);
    ComponentIs(s[9..13], 0x80000000);
    ComponentIs(s[13..17], 0);
    hide BeBytes, PathHead, Be;
  }

  lemma OtherCount(s: seq<uint8>)
    requires |s| < PATH_LEN || s[0] != 5
    ensures PathIndex(s) == None
  {
    if |s| >= PATH_LEN {
      assert s[..17][0] == s[0] && PathHead()[0] == 5;
    }
  }

  /** parse_path: the length of the path, or -1. */
  method ParsePath(d: array<uint8>) returns (plen: int, index: uint32)
    ensures PathIndex(d[..]) == if plen < 0 then None else Some(index)
    ensures plen == -1 || plen == PATH_LEN <= d.Length
  {
    hide PathIndex;
    ghost var s := d[..];
    index := 0;
    if d.Length < 1 {
      OtherCount(s);
      return -1, 0;
    }
    var cnt: nat := d[0];
    if cnt == 0 || d.Length < 1 + 4 * cnt {
      OtherCount(s);
      return -1, 0;
    }
    if cnt != 5 {
      OtherCount(s);
      return -1, 0;
    }
    PathDecision(s);
    hide Be;
    var c0 := Component(d, 0);
    var c1 := Component(d, 1);
    var c2 := Component(d, 2);
    var c3 := Component(d, 3);
    var c4 := Component(d, 4);
    assert d[1..5] == s[1..5] && d[5..9] == s[5..9] && d[9..13] == s[9..13] && d[13..17] == s[13..17] && d[17..21] == s[17..21];
    if c0 != 0x8000002C || c1 != 0x8000003C || c2 != 0x80000000 || c3 != 0 {
      return -1, 0;
    }
    return 1 + 4 * cnt, c4;
  }

  // ---------------------------------------------------------------- the state of a signing request

  /** What the handlers keep between calls. */
  datatype State = State(pending: Pending, tx: Tx, sighash: seq<uint8>, index: uint32, raw: seq<uint8>)

  ghost function Hash(keccak: Keccak, tx: Tx, s: seq<uint8>): seq<uint8> {
    if Signable(tx, s) then keccak(Preimage(tx, s)) else []
  }

  /** After a chunk has been added: a complete transaction is parsed and put up for review. */
  ghost function Complete(keccak: Keccak, st: State): State {
    var tx := Parse(st.raw);
    if tx.None? then st else st.(pending := ReviewTx, tx := tx.value, sighash := Hash(keccak, tx.value, st.raw))
  }

  /** If the bytes are an accepted transaction, it can be encoded for signing within the buffers. */
  predicate Encodable(s: seq<uint8>) {
    Parse(s).Some? ==> Fits(Parse(s).value, s)
  }

  ghost function SignStep(keccak: Keccak, st: State, p1: uint8, d: seq<uint8>): (State, nat) {
    if p1 == 0 then
      var index := PathIndex(d);
      if index.None? then (st, SW_BAD_DATA)
      else if |d| - PATH_LEN > ETH_TX_MAX_LEN then (st.(index := index.value), SW_BAD_DATA)
      else (Complete(keccak, st.(index := index.value, raw := d[PATH_LEN..])), SW_OK)
    else if p1 == 0x80 then
      if |st.raw| + |d| > ETH_TX_MAX_LEN then (st.(raw := []), SW_BAD_DATA)
      else (Complete(keccak, st.(raw := st.raw + d)), SW_OK)
    else (st, SW_BAD_DATA)
  }

  /** The chunks of a run, first chunk first. */
  ghost function SignRun(keccak: Keccak, st: State, chunks: seq<seq<uint8>>): State {
    if |chunks| == 0 then st
    else SignStep(keccak, SignRun(keccak, st, chunks[..|chunks| - 1]), if |chunks| == 1 then 0 else 0x80, chunks[|chunks| - 1]).0
  }

  function Joined(chunks: seq<seq<uint8>>): seq<uint8> {
    if |chunks| == 0 then [] else Joined(chunks[..|chunks| - 1]) + chunks[|chunks| - 1]
  }

  /** The chunks carry the path and then the transaction, the last of them not empty. */
  ghost predicate Cut(chunks: seq<seq<uint8>>, head: seq<uint8>, tx: seq<uint8>) {
    && |chunks| > 0 && |head| == PATH_LEN && PathIndex(head).Some? && head <= chunks[0]
    && Joined(chunks) == head + tx && chunks[|chunks| - 1] != [] && (|chunks| == 1 || |Joined(chunks[..|chunks| - 1])| < |head + tx|)
  }

  lemma {:induction false} JoinedPrefix(chunks: seq<seq<uint8>>, k: nat)
    requires k <= |chunks|
    ensures Joined(chunks[..k]) <= Joined(chunks)
    decreases |chunks|
  {
    if k == |chunks| {
      assert chunks[..k] == chunks;
    } else {
      var rest := chunks[..|chunks| - 1];
      JoinedPrefix(rest, k);
      assert rest[..k] == chunks[..k];
    }
  }

  lemma PathOfHead(head: seq<uint8>, d: seq<uint8>)
    requires |head| == PATH_LEN && head <= d
    ensures PathIndex(d) == PathIndex(head)
  {
    assert d[..17] == head[..17] && d[17..21] == head[17..21];
  }

  /** The first k chunks of a cut: the bytes so far are collected, nothing is pending before the last
      chunk, and after it the whole transaction is. */
  lemma {:induction false} RunOfCut(keccak: Keccak, st: State, chunks: seq<seq<uint8>>, head: seq<uint8>, tx: seq<uint8>, k: nat)
    requires st.pending == Idle && Cut(chunks, head, tx) && Parse(tx).Some? && 0 < k <= |chunks|
    ensures var now := SignRun(keccak, st, chunks[..k]);
      && head + now.raw == Joined(chunks[..k]) && now.index == PathIndex(head).value
      && (if k < |chunks| then now.pending == Idle
          else now == State(ReviewTx, Parse(tx).value, Hash(keccak, Parse(tx).value, tx), PathIndex(head).value, tx))
  {
    hide SignStep, SignRun, Parse, PathIndex, Joined;
    var part := chunks[..k];
    var rest, d := chunks[..k - 1], chunks[k - 1];
    assert part[..k - 1] == rest && part[k - 1] == d && part == rest + [d];
    JoinedPrefix(chunks, k);
    Bounded(tx);
    JoinedNext(rest, d);
    RunNext(keccak, st, rest, d);
    var before := SignRun(keccak, st, rest);
    var raw;
    if k == 1 {
      NothingJoined();
      NothingRun(keccak, st);
      raw := d[PATH_LEN..];
      assert head + raw == d && rest == [] && [] + d == d;
      FirstStep(keccak, st, d, head, raw);
    } else {
      RunOfCut(keccak, st, chunks, head, tx, k - 1);
      raw := before.raw + d;
      assert head + (before.raw + d) == (head + before.raw) + d;
      NextStep(keccak, before, d, raw);
    }
    PrefixAfterHead(head, raw, tx);
    PartOrWhole(chunks, head, tx, k, raw);
  }

  lemma PrefixAfterHead(head: seq<uint8>, raw: seq<uint8>, tx: seq<uint8>)
    requires head + raw <= head + tx
    ensures raw <= tx
  {
    assert raw == (head + raw)[|head|..] && tx == (head + tx)[|head|..];
  }

  lemma NothingJoined()
    ensures Joined([]) == []
  {}

  lemma NothingRun(keccak: Keccak, st: State)
    ensures SignRun(keccak, st, []) == st
  {}

  lemma JoinedNext(chunks: seq<seq<uint8>>, d: seq<uint8>)
    ensures Joined(chunks + [d]) == Joined(chunks) + d
  {
    assert (chunks + [d])[..|chunks|] == chunks;
  }

  lemma RunNext(keccak: Keccak, st: State, chunks: seq<seq<uint8>>, d: seq<uint8>)
    ensures SignRun(keccak, st, chunks + [d]) == SignStep(keccak, SignRun(keccak, st, chunks), if |chunks| == 0 then 0 else 0x80, d).0
  {
    assert (chunks + [d])[..|chunks|] == chunks;
  }

  lemma FirstStep(keccak: Keccak, st: State, d: seq<uint8>, head: seq<uint8>, raw: seq<uint8>)
    requires |head| == PATH_LEN && head <= d && PathIndex(head).Some? && raw == d[PATH_LEN..] && |raw| <= ETH_TX_MAX_LEN
    ensures SignStep(keccak, st, 0, d).0 == Complete(keccak, st.(index := PathIndex(head).value, raw := raw))
  {
    PathOfHead(head, d);
    hide PathIndex, Complete;
  }

  lemma NextStep(keccak: Keccak, st: State, d: seq<uint8>, raw: seq<uint8>)
    requires raw == st.raw + d && |raw| <= ETH_TX_MAX_LEN
    ensures SignStep(keccak, st, 0x80, d).0 == Complete(keccak, st.(raw := raw))
  {
    hide PathIndex, Complete;
  }

  lemma Bounded(tx: seq<uint8>)
    requires Parse(tx).Some?
    ensures 0 < |tx| <= ETH_TX_MAX_LEN
  {}

  /** Before the last chunk the bytes are a proper prefix, which does not parse. */
  lemma PartOrWhole(chunks: seq<seq<uint8>>, head: seq<uint8>, tx: seq<uint8>, k: nat, raw: seq<uint8>)
    requires Cut(chunks, head, tx) && Parse(tx).Some? && 0 < k <= |chunks| && raw <= tx && head + raw == Joined(chunks[..k])
    ensures if k == |chunks| then raw == tx else Parse(raw).None?
  {
    if k == |chunks| {
      assert chunks[..k] == chunks;
      assert raw == (head + raw)[PATH_LEN..] && tx == (head + tx)[PATH_LEN..];
    } else {
      var rest := chunks[..|chunks| - 1];
      JoinedPrefix(rest, k);
      assert rest[..k] == chunks[..k];
      if Parse(raw).Some? {
        PrefixFree(raw, tx);
      }
    }
  }

  /** However an accepted transaction is cut, it is put up for review with the last chunk, with the
      same fields, index and signing hash as in one piece, and not before. */
  lemma CutDoesNotMatter(keccak: Keccak, st: State, chunks: seq<seq<uint8>>, head: seq<uint8>, tx: seq<uint8>)
    requires st.pending == Idle && Cut(chunks, head, tx) && Parse(tx).Some?
    ensures SignRun(keccak, st, chunks) == SignRun(keccak, st, [head + tx])
    ensures SignRun(keccak, st, chunks).pending == ReviewTx
    ensures forall k :: 0 <= k < |chunks| ==> SignRun(keccak, st, chunks[..k]).pending == Idle
  {
    RunOfCut(keccak, st, chunks, head, tx, |chunks|);
    assert chunks[..|chunks|] == chunks;
    var one := [head + tx];
    WholeIsCut(head, tx);
    RunOfCut(keccak, st, one, head, tx, 1);
    assert one[..1] == one;
    forall k | 0 <= k < |chunks| ensures SignRun(keccak, st, chunks[..k]).pending == Idle {
      if k > 0 {
        RunOfCut(keccak, st, chunks, head, tx, k);
      } else {
        assert chunks[..0] == [];
      }
    }
  }

  lemma WholeIsCut(head: seq<uint8>, tx: seq<uint8>)
    requires |head| == PATH_LEN && PathIndex(head).Some?
    ensures Cut([head + tx], head, tx)
  {
    var one := [head + tx];
    assert one[..0] == [] && Joined(one[..0]) == [];
    assert Joined(one) == Joined(one[..0]) + one[0];
  }

  // ---------------------------------------------------------------- the handlers

  function HexDigit(v: nat): uint8
    requires v < 16
  {
    if v < 10 then 48 + v else 87 + v
  }

  /** Lower-case hexadecimal digits. */
  function Hex(d: seq<uint8>): (s: seq<uint8>)
    ensures |s| == 2 * |d|
  {
    if |d| == 0 then [] else Hex(d[..|d| - 1]) + [HexDigit(d[|d| - 1] / 16), HexDigit(d[|d| - 1] % 16)]
  }

  method HexStr(d: seq<uint8>) returns (out: seq<uint8>)
    ensures out == Hex(d)
  {
    out := [];
    for i := 0 to |d|
      invariant out == Hex(d[..i])
    {
      assert d[..i + 1][..i] == d[..i];
      out := out + [HexDigit(d[i] / 16), HexDigit(d[i] % 16)];
    }
    assert d[..|d|] == d;
  }

  /** A public key of 65 bytes and an address of 20. */
  datatype Account = Account(pub: seq<uint8>, addr: seq<uint8>)

  /** The account and the transaction of a blank slot: all zero bytes. */
  function NoAccount(): Account {
    Account(seq(65, i => 0), seq(20, i => 0))
  }

  function BlankTx(): Tx {
    Tx(true, 0, false, [], NOWHERE, NOWHERE, NOWHERE, NOWHERE, NOWHERE, NOWHERE, NOWHERE, NOWHERE, NOWHERE, NOWHERE, NOWHERE, NOWHERE)
  }

  function NoHash(): seq<uint8> {
    seq(32, i => 0)
  }

  /** wh_reset leaves the parsed transaction and the index alone. */
  function Forgotten(st: State): State {
    st.(pending := Idle, sighash := NoHash(), raw := [])
  }

  datatype Signed = Signed(sig: seq<uint8>, parity: uint8)

  predicate Proper(a: Option<Account>) {
    a.Some? ==> |a.value.pub| == 65 && |a.value.addr| == 20
  }

  function KeyAnswer(a: Account): seq<uint8> {
    [65] + a.pub + [40] + Hex(a.addr)
  }

  /** The byte from which the host makes up v. */
  function VByte(tx: Tx, parity: uint8): uint8 {
    if !tx.legacy then parity
    else if tx.chainId == 0 then (27 + parity) % 0x100
    else (2 * tx.chainId + 35 + parity) % 0x100
  }

  /** The signature's v: EIP-155 and its predecessor for legacy transactions, the parity otherwise. */
  function FullV(tx: Tx, parity: uint8): nat {
    if !tx.legacy then parity else if tx.chainId == 0 then 27 + parity else 35 + 2 * tx.chainId + parity
  }

  /** With the chain id known, the byte determines the parity and v. */
  lemma VByteTells(tx: Tx, parity: uint8, other: uint8)
    requires parity < 2 && other < 2
    ensures VByte(tx, parity) == FullV(tx, parity) % 0x100
    ensures VByte(tx, parity) == VByte(tx, other) ==> FullV(tx, parity) == FullV(tx, other)
  {
    if tx.legacy && tx.chainId != 0 {
      NextDiffers(2 * tx.chainId + 35);
    }
  }

  /** The parser reads the chain id back from v, and the parity is what is left: 27 and 28 without a
      chain id, 37 and 38 for chain id 1. */
  lemma VTellsChain(tx: Tx, parity: uint8)
    requires tx.legacy && parity < 2 && FullV(tx, parity) < 0x1_0000_0000_0000_0000
    ensures LegacyChain(FullV(tx, parity)) == Some(tx.chainId)
    ensures FullV(tx, parity) % 2 == 1 - parity
    ensures tx.chainId == 0 ==> FullV(tx, parity) == [27, 28][parity]
    ensures tx.chainId == 1 ==> FullV(tx, parity) == [37, 38][parity]
  {}

  lemma NextDiffers(v: nat)
    ensures v % 0x100 != (v + 1) % 0x100
  {}

  class Handlers {
    var pending: Pending
    var tx: Tx
    var sighash: seq<uint8>
    var index: uint32
    var account: Account
    const raw: array<uint8>
    var rawLen: nat
    const items: array<uint8>
    const buf: array<uint8>
    const keccak: Keccak

    ghost predicate Valid()
      reads this
    {
      && raw.Length == ETH_TX_MAX_LEN && rawLen <= ETH_TX_MAX_LEN && items.Length == buf.Length == SIGHASH_BUF_LEN
      && raw !in {items, buf} && items != buf
    }

    ghost function Abs(): State
      requires Valid()
      reads this, raw
    {
      State(pending, tx, sighash, index, raw[..rawLen])
    }

    constructor (keccak: Keccak)
      ensures Valid() && this.keccak == keccak && account == NoAccount()
      ensures Abs() == State(Idle, BlankTx(), NoHash(), 0, []) && fresh({raw, items, buf})
    {
      this.keccak := keccak;
      raw := new uint8[ETH_TX_MAX_LEN];
      items, buf := new uint8[SIGHASH_BUF_LEN], new uint8[SIGHASH_BUF_LEN];
      pending, sighash, index, rawLen := Idle, NoHash(), 0, 0;
      account := NoAccount();
      tx := BlankTx();
    }

    /** wh_reset */
    method Reset()
      requires Valid()
      modifies this`pending, this`rawLen, this`sighash, this`account, raw
      ensures Valid() && Abs() == Forgotten(old(Abs())) && account == NoAccount()
    {
      pending, rawLen := Idle, 0;
      sighash := NoHash();
      account := NoAccount();
      for k := 0 to raw.Length
        invariant Valid() && Abs() == Forgotten(old(Abs())) && account == NoAccount()
      {
        raw[k] := 0;
      }
    }

    /** wh_sign_tx */
    method SignTx(p1: uint8, d: array<uint8>) returns (sw: nat)
      requires Valid() && d !in {raw, items, buf}
      requires Encodable(SignStep(keccak, Abs(), p1, d[..]).0.raw)
      modifies this`pending, this`tx, this`sighash, this`index, this`rawLen, raw, items, buf
      ensures Valid() && (Abs(), sw) == SignStep(keccak, old(Abs()), p1, d[..])
    {
      hide PathIndex, Parse;
      if p1 == 0x00 {
        var plen, pathIndex := ParsePath(d);
        if plen < 0 {
          return SW_BAD_DATA;
        }
        index := pathIndex;
        var txLen := d.Length - plen;
        if txLen > ETH_TX_MAX_LEN {
          return SW_BAD_DATA;
        }
        CopyInto(raw, 0, d, plen, txLen);
        rawLen := txLen;
        assert raw[..rawLen] == raw[0..txLen] == d[plen..plen + txLen] == d[..][PATH_LEN..];
      } else if p1 == 0x80 {
        if rawLen + d.Length > ETH_TX_MAX_LEN {
          rawLen := 0;
          assert raw[..0] == [];
          return SW_BAD_DATA;
        }
        ghost var before := raw[..rawLen];
        CopyInto(raw, rawLen, d, 0, d.Length);
        assert raw[..rawLen] == before && d[0..d.Length] == d[..];
        assert raw[..rawLen + d.Length] == raw[..rawLen] + raw[rawLen..rawLen + d.Length];
        rawLen := rawLen + d.Length;
      } else {
        return SW_BAD_DATA;
      }
      Finish();
      sw := SW_OK;
    }

    /** Complete once the accumulated bytes parse as a whole transaction. */
    method Finish()
      requires Valid() && Encodable(Complete(keccak, Abs()).raw)
      modifies this`pending, this`tx, this`sighash, items, buf
      ensures Valid() && Abs() == Complete(keccak, old(Abs()))
    {
      hide Parse, Signable, Preimage;
      ghost var s := raw[..rawLen];
      var parsed := EthTxParse(raw, rawLen);
      if parsed.Some? {
        var whole := Copy(rawLen);
        sighash := EthTxSighash(parsed.value, whole, items, buf, keccak);
        tx := parsed.value;
        pending := ReviewTx;
      }
    }

    /** The accumulated bytes on their own. */
    method Copy(n: nat) returns (whole: array<uint8>)
      requires Valid() && n <= raw.Length
      ensures fresh(whole) && whole.Length == n && whole[..] == raw[..n]
    {
      whole := new uint8[n];
      CopyInto(whole, 0, raw, 0, n);
      assert whole[..] == whole[0..n] && raw[0..n] == raw[..n];
    }

    /** wh_get_pubkey; confirm asks for approval on the device. */
    method GetPubkey(confirm: bool, d: array<uint8>, derive: uint32 -> Option<Account>) returns (sw: nat, out: seq<uint8>)
      requires forall i :: Proper(derive(i))
      modifies this`pending, this`index, this`account
      ensures var i := PathIndex(d[..]);
        if i.None? || d.Length != PATH_LEN then sw == SW_BAD_DATA && out == [] && pending == old(pending)
        else if derive(i.value).None? then sw == SW_LOCKED && out == [] && pending == old(pending)
        else sw == SW_OK && if confirm then out == [] && pending == ConfirmAddr && account == derive(i.value).value && index == i.value
                            else out == KeyAnswer(derive(i.value).value) && pending == old(pending)
      ensures !confirm || sw != SW_OK ==> index == old(index) && account == old(account)
    {
      hide PathIndex;
      out := [];
      var plen, i := ParsePath(d);
      if plen < 0 || plen != d.Length {
        return SW_BAD_DATA, [];
      }
      var a := derive(i);
      if a.None? {
        return SW_LOCKED, [];
      }
      if confirm {
        pending, index, account := ConfirmAddr, i, a.value;
        return SW_OK, [];
      }
      var h := HexStr(a.value.addr);
      return SW_OK, [65] + a.value.pub + [40] + h;
    }

    /** wh_approve: the answer for the pending request, which is thereby settled; a buffer too small
        for the address leaves it pending.  Room for a signature is not checked. */
    method Approve(cap: nat, sign: (uint32, seq<uint8>) -> Option<Signed>) returns (resp: seq<uint8>)
      requires Valid() && (pending == ReviewTx && sign(index, sighash).Some? ==> cap >= 67)
      modifies this`pending
      ensures if old(pending) == ConfirmAddr && cap < 109 then pending == ConfirmAddr else pending == Idle
      ensures old(pending) == Idle ==> resp == []
      ensures old(pending) == ConfirmAddr ==> resp == if cap < 109 then [] else KeyAnswer(account) + [0x90, 0x00]
      ensures old(pending) == ReviewTx ==> resp == match sign(index, sighash)
        case None => if cap < 2 then [] else [0x6A, 0x80]
        case Some(signed) => [VByte(tx, signed.parity)] + signed.sig + [0x90, 0x00]
    {
      if pending == ConfirmAddr {
        if cap < 109 {
          return [];
        }
        var h := HexStr(account.addr);
        pending := Idle;
        return [65] + account.pub + [40] + h + [0x90, 0x00];
      }
      if pending == ReviewTx {
        var signed := sign(index, sighash);
        pending := Idle;
        if signed.None? {
          if cap < 2 {
            return [];
          }
          return [0x6A, 0x80];
        }
        return [VByte(tx, signed.value.parity)] + signed.value.sig + [0x90, 0x00];
      }
      return [];
    }

    /** wh_reject */
    method Reject(cap: nat) returns (resp: seq<uint8>)
      requires Valid()
      modifies this`pending
      ensures if old(pending) == Idle || cap < 2 then resp == [] && pending == old(pending) else resp == [0x69, 0x85] && pending == Idle
    {
      if pending == Idle || cap < 2 {
        return [];
      }
      pending := Idle;
      return [0x69, 0x85];
    }
  }
}
