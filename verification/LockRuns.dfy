/** src/main.c: a run on which the screen is not the one for the request that is approved on it. */
module LockRuns {
  import opened Words
  import opened EthTx
  import opened WalletHandlers
  import opened LockProtocol
  import F = EthFits

  lemma RunOn(c: Crypto, events: seq<Event>, e: Event)
    ensures Run(c, events + [e]) == Next(c, Run(c, events), e)
  {
    assert (events + [e])[..|events|] == events;
  }

  /** A list of nine empty strings. */
  function EmptyItems(): seq<seq<uint8>> {
    [[0x80], [0x80], [0x80], [0x80], [0x80], [0x80], [0x80], [0x80], [0x80]]
  }

  function EmptyTx(): seq<uint8> {
    [0xc9, 0x80, 0x80, 0x80, 0x80, 0x80, 0x80, 0x80, 0x80, 0x80]
  }

  lemma EmptyWalk()
    ensures F.ListOf(EmptyTx(), 1, F.Refs(1, EmptyItems()))
  {
    var s, x := EmptyTx(), EmptyItems();
    assert F.Joined(x[8..]) == [0x80];
    assert F.Joined(x[7..]) == [0x80, 0x80];
    assert F.Joined(x[6..]) == [0x80, 0x80, 0x80];
    assert F.Joined(x[5..]) == [0x80, 0x80, 0x80, 0x80];
    assert F.Joined(x[4..]) == [0x80, 0x80, 0x80, 0x80, 0x80];
    assert F.Joined(x[3..]) == [0x80, 0x80, 0x80, 0x80, 0x80, 0x80];
    assert s[1..] == F.Joined(x);
    NothingChecked(s);
    hide F.Joined, F.Refs, Walk;
    F.WalkJoined(s, 1, x, []);
    assert [] + F.Refs(1, x) == F.Refs(1, x);
  }

  lemma EmptyAccepted()
    ensures Parse(EmptyTx()).Some? && |EmptyTx()| == 10
  {
    EmptyWalk();
    F.RefsAre(1, EmptyItems(), 3);
    F.RefsAre(1, EmptyItems(), 6);
    hide F.Refs, Walk, Parse, F.Parts;
    F.AcceptsLegacy(EmptyTx(), 1, F.Refs(1, EmptyItems()));
  }

  /** m/44'/60'/0'/0/0 */
  function FirstPath(): seq<uint8> {
    PathHead() + [0, 0, 0, 0]
  }

  lemma FirstPathIs(rest: seq<uint8>)
    ensures |FirstPath()| == PATH_LEN && PathIndex(FirstPath() + rest) == Some(0)
  {
    var d := FirstPath() + rest;
    assert d[..17] == PathHead() && d[17..21] == [0, 0, 0, 0];
    PathFits(d[17..21]);
  }

  const NOTHING := Outcome(0, None, false, None, 0)

  /** The stored PIN, an address to be shown, and a transaction while it is shown. */
  function Opening(seed: seq<uint8>): seq<Event> {
    [Poll, Press(Left, true, None, NOTHING), Poll, Press(Up, true, Some("1234"), NOTHING.(check := 1, unlocked := Some(seed)))]
  }

  function AskAddress(): seq<uint8> {
    [0xE0, 0x02, 0x01, 0x00, 21] + FirstPath()
  }

  function AskSignature(): seq<uint8> {
    [0xE0, 0x04, 0x00, 0x00, 31] + (FirstPath() + EmptyTx())
  }

  lemma Opened(c: Crypto, seed: seq<uint8>)
    ensures var d := Run(c, Opening(seed));
      !d.locked && d.seed == Some(seed) && d.screen == Home && d.wh == Boot().wh && d.account == NoAccount()
  {
    var x := Opening(seed);
    assert Run(c, []) == Boot();
    hide Next, Run;
    assert x[..1] == [] + [x[0]] && x[..2] == x[..1] + [x[1]] && x[..3] == x[..2] + [x[2]] && x == x[..3] + [x[3]];
    RunOn(c, [], x[0]);
    RunOn(c, x[..1], x[1]);
    RunOn(c, x[..2], x[2]);
    RunOn(c, x[..3], x[3]);
    Unlocking(c, seed);
  }

  lemma Unlocking(c: Crypto, seed: seq<uint8>)
    ensures var x := Opening(seed); var d := Next(c, Next(c, Next(c, Next(c, Boot(), x[0]), x[1]), x[2]), x[3]);
      !d.locked && d.seed == Some(seed) && d.screen == Home && d.wh == Boot().wh && d.account == NoAccount()
  {
    hide OnCommand, Run;
  }

  lemma AddressAsked(c: Crypto, d: Device, seed: seq<uint8>)
    requires !d.locked && d.seed == Some(seed) && c.derive(seed, 0).Some? && d.wh.pending == Idle
    ensures Next(c, d, Command(AskAddress())) == d.(wh := d.wh.(pending := ConfirmAddr, index := 0), account := c.derive(seed, 0).value)
  {
    FirstPathIs([]);
    var apdu := AskAddress();
    assert apdu[5..] == FirstPath() && FirstPath() + [] == FirstPath();
    RoutesAre(0x02);
    hide FirstPath, PathIndex, Routes, Find;
  }

  lemma SignatureAsked(c: Crypto, d: Device)
    requires !d.locked
    ensures var e := Next(c, d, Command(AskSignature()));
      && Parse(EmptyTx()).Some? && e == d.(wh := e.wh) && e.wh.pending == ReviewTx && e.wh.index == 0 && e.wh.tx == Parse(EmptyTx()).value
      && e.wh.sighash == Hash(c.keccak, e.wh.tx, EmptyTx())
  {
    FirstPathIs(EmptyTx());
    EmptyAccepted();
    var apdu, data := AskSignature(), FirstPath() + EmptyTx();
    assert apdu[5..] == data && data[PATH_LEN..] == EmptyTx();
    RoutesAre(0x04);
    hide FirstPath, PathIndex, Routes, Find, EmptyTx, Parse, Hash;
  }

  function Substituted(seed: seq<uint8>): seq<Event> {
    Opening(seed) + [Command(AskAddress()), Poll, Command(AskSignature()), Poll]
  }

  const CENTER := Press(Center, true, None, NOTHING)

  lemma RunFour(c: Crypto, events: seq<Event>, e0: Event, e1: Event, e2: Event, e3: Event)
    ensures Run(c, events + [e0, e1, e2, e3]) == Next(c, Next(c, Next(c, Next(c, Run(c, events), e0), e1), e2), e3)
  {
    var x := events + [e0, e1, e2, e3];
    assert x == events + [e0] + [e1] + [e2] + [e3];
    hide Next, Run;
    RunOn(c, events, e0);
    RunOn(c, events + [e0], e1);
    RunOn(c, events + [e0] + [e1], e2);
    RunOn(c, events + [e0] + [e1] + [e2], e3);
  }

  /** The screen stays, whatever is asked for next. */
  lemma AddressKept(c: Crypto, d: Device, seed: seq<uint8>)
    requires !d.locked && d.seed == Some(seed) && d.screen == Home && d.wh.pending == Idle && c.derive(seed, 0).Some?
    ensures var e := Next(c, Next(c, Next(c, Next(c, d, Command(AskAddress())), Poll), Command(AskSignature())), Poll); var tx := Parse(EmptyTx());
      && e.screen == ConfirmAddress && e.wh.pending == ReviewTx && e.seed == Some(seed)
      && tx.Some? && e.wh.tx == tx.value && e.wh.index == 0 && e.wh.sighash == Hash(c.keccak, tx.value, EmptyTx())
  {
    AddressAsked(c, d, seed);
    var shown := Next(c, d, Command(AskAddress()));
    PollIs(c, shown);
    SignatureAsked(c, OnPoll(shown));
    PollIs(c, Next(c, OnPoll(shown), Command(AskSignature())));
    hide Next, AskAddress, AskSignature, Hash, Parse, EmptyTx;
  }

  /** After this run the address screen is shown while a transaction is pending. */
  lemma AddressShown(c: Crypto, seed: seq<uint8>)
    requires c.derive(seed, 0).Some?
    ensures var d := Run(c, Substituted(seed)); var tx := Parse(EmptyTx());
      && d.screen == ConfirmAddress && d.wh.pending == ReviewTx && d.seed == Some(seed)
      && tx.Some? && d.wh.tx == tx.value && d.wh.index == 0 && d.wh.sighash == Hash(c.keccak, tx.value, EmptyTx())
  {
    Opened(c, seed);
    AddressKept(c, Run(c, Opening(seed)), seed);
    hide Next, Run, AskAddress, AskSignature, Hash, Parse, EmptyTx, Opening;
    RunFour(c, Opening(seed), Command(AskAddress()), Poll, Command(AskSignature()), Poll);
  }

  /** The next short press of center answers with the signature.  The loop polls before each button. */
  lemma SignedOnAddressScreen(c: Crypto, seed: seq<uint8>)
    requires c.derive(seed, 0).Some?
    ensures Polled(Substituted(seed) + [CENTER]) && Run(c, Substituted(seed)).screen == ConfirmAddress && Crossed(c, Substituted(seed))
    ensures Parse(EmptyTx()).Some? && Answer(c, Run(c, Substituted(seed)), CENTER) ==
      match c.sign(seed, 0, Hash(c.keccak, Parse(EmptyTx()).value, EmptyTx()))
      case None => [0x6A, 0x80]
      case Some(s) => [VByte(Parse(EmptyTx()).value, s.parity)] + s.sig + [0x90, 0x00]
  {
    OpeningPolled(seed);
    AddressShown(c, seed);
    hide Run, Substituted, VByte, Hash, Parse, EmptyTx, Crossed, Polled;
    ApprovedAsShown(c, Substituted(seed), CENTER);
    AnswersOfRequests(c, Substituted(seed), CENTER);
    hide Answer;
  }

  lemma PollIs(c: Crypto, d: Device)
    ensures Next(c, d, Poll) == OnPoll(d)
  {}

  lemma OpeningPolled(seed: seq<uint8>)
    ensures Polled(Substituted(seed) + [CENTER])
  {
    var x := Substituted(seed) + [CENTER];
    assert x[0] == Poll && x[2] == Poll && x[7] == Poll && |x| == 9;
    hide AskAddress, AskSignature;
  }
}
