/** src/main.c, src/protocol/apdu.c, src/usb/hid_callbacks.c and src/crypto/wallet_state.c: the device as
    a transition system over USB commands and button events.  Storage, derivation, signing and hashing
    are parameters of the events. */
module LockProtocol {
  import opened Words
  import opened EthTx
  import opened EthSighash
  import opened WalletHandlers

  datatype Screen = Splash | Pin | PinFail | PinWiped | Backup | Ready | Home | Receive | ConfirmAddress | Review | Error
  datatype PinMode = Enter | Set1 | Set2
  datatype ButtonId = Left | Right | Up | Down | Center

  /** Everything the main loop, the command gate and the handlers keep. */
  datatype Device = Device(screen: Screen, page: nat, pinMode: PinMode, firstPin: seq<char>, words: nat,
                           locked: bool, seed: Option<seq<uint8>>, wh: State, account: Account)

  /** Key derivation and signing from a seed, and the hash function. */
  datatype Crypto = Crypto(derive: (seq<uint8>, uint32) -> Option<Account>,
                           sign: (seq<uint8>, uint32, seq<uint8>) -> Option<Signed>, keccak: Keccak)

  const SW_DEVICE_LOCKED: nat := 0x5515
  const SW_WRONG_LENGTH: nat := 0x6700
  const SW_INS_BAD: nat := 0x6D00
  const SW_CLA_BAD: nat := 0x6E00
  const INS_GET_PUBKEY: uint8 := 0x02
  const INS_SIGN_TX: uint8 := 0x04
  const INS_GET_CONFIG: uint8 := 0x06

  /** After usb_init: boot locked, on the splash screen. */
  function Boot(): Device {
    Device(Splash, 0, Enter, [], 0, true, None, State(Idle, BlankTx(), NoHash(), 0, []), NoAccount())
  }

  // ---------------------------------------------------------------- commands

  function Respond(data: seq<uint8>, sw: nat): (r: seq<uint8>)
    requires sw < 0x1_0000
    ensures |r| == |data| + 2
  {
    data + [sw / 256, sw % 256]
  }

  /** getAppNameAndVersion: Ethereum, 1.10.2 */
  const APP_NAME: seq<uint8> :=
    [0x01, 0x08, 0x45, 0x74, 0x68, 0x65, 0x72, 0x65, 0x75, 0x6d, 0x06, 0x31, 0x2e, 0x31, 0x30, 0x2e, 0x32]

  /** The commands served whatever the lock says. */
  function Bolos(cla: uint8, ins: uint8): Option<seq<uint8>> {
    if cla == 0xB0 && ins == 0x01 then Some(Respond(APP_NAME, SW_OK))
    else if cla == 0xB0 && ins == 0xA7 then Some(Respond([], SW_OK))
    else if cla == 0xE0 && ins == 0xD8 then Some(Respond([], SW_OK))
    else None
  }

  datatype Handler = GetConfig | GetPubkey | SignTx
  datatype Route = Route(ins: uint8, h: Handler)

  const MAX_ROUTES: nat := 8

  /** The first route for the instruction, or one past the last. */
  function Position(routes: seq<Route>, ins: uint8): (k: nat)
    ensures k <= |routes| && (k < |routes| ==> routes[k].ins == ins)
    ensures forall m :: 0 <= m < k ==> routes[m].ins != ins
  {
    if |routes| == 0 || routes[0].ins == ins then 0 else Position(routes[1..], ins) + 1
  }

  function Find(routes: seq<Route>, ins: uint8): Option<Handler> {
    var k := Position(routes, ins);
    if k < |routes| then Some(routes[k].h) else None
  }

  /** apdu_register: replace, else append while there is room. */
  function Register(routes: seq<Route>, ins: uint8, h: Handler): seq<Route> {
    var k := Position(routes, ins);
    if k < |routes| then routes[k := Route(ins, h)]
    else if |routes| < MAX_ROUTES then routes + [Route(ins, h)]
    else routes
  }

  lemma PositionIs(routes: seq<Route>, ins: uint8, k: nat)
    requires k <= |routes| && (k < |routes| ==> routes[k].ins == ins)
    requires forall m :: 0 <= m < k ==> routes[m].ins != ins
    ensures Position(routes, ins) == k
  {}

  /** A registered handler is the one found, and no other instruction is affected; only a new
      instruction beyond the eighth is ignored. */
  lemma RegisterFinds(routes: seq<Route>, ins: uint8, h: Handler, other: uint8)
    requires |routes| <= MAX_ROUTES
    ensures Find(Register(routes, ins, h), other) ==
            if other == ins && (Find(routes, ins).Some? || |routes| < MAX_ROUTES) then Some(h) else Find(routes, other)
  {
    hide Position;
    var k, r := Position(routes, other), Register(routes, ins, h);
    if other == ins {
      if k < |routes| {
        PositionIs(r, other, k);
      } else if |routes| < MAX_ROUTES {
        PositionIs(r, other, |routes|);
      }
    } else {
      PositionIs(r, other, if k < |routes| then k else |r|);
    }
  }

  /** The routes hid_app_init sets up. */
  function Routes(): seq<Route> {
    Register(Register(Register([], INS_GET_CONFIG, GetConfig), INS_GET_PUBKEY, GetPubkey), INS_SIGN_TX, SignTx)
  }

  lemma RoutesAre(ins: uint8)
    ensures Find(Routes(), ins) == if ins == INS_GET_CONFIG then Some(GetConfig) else if ins == INS_GET_PUBKEY then Some(GetPubkey)
      else if ins == INS_SIGN_TX then Some(SignTx) else None
  {
    RegisterFinds(Register(Register([], INS_GET_CONFIG, GetConfig), INS_GET_PUBKEY, GetPubkey), INS_SIGN_TX, SignTx, ins);
    RegisterFinds(Register([], INS_GET_CONFIG, GetConfig), INS_GET_PUBKEY, GetPubkey, ins);
    RegisterFinds([], INS_GET_CONFIG, GetConfig, ins);
  }

  /** wh_get_pubkey over the cached seed. */
  function PubkeyStep(c: Crypto, d: Device, p1: uint8, data: seq<uint8>): (r: (Device, seq<uint8>, nat))
    ensures r.2 < 0x1_0000
  {
    var i := PathIndex(data);
    if i.None? || |data| != PATH_LEN then (d, [], SW_BAD_DATA) else
    var a := if d.seed.Some? then c.derive(d.seed.value, i.value) else None;
    if a.None? then (d, [], SW_LOCKED)
    else if p1 % 2 == 1 then (d.(wh := d.wh.(pending := ConfirmAddr, index := i.value), account := a.value), [], SW_OK)
    else (d, KeyAnswer(a.value), SW_OK)
  }

  ghost function Handle(c: Crypto, d: Device, h: Handler, p1: uint8, data: seq<uint8>): (r: (Device, seq<uint8>, nat))
    ensures r.2 < 0x1_0000
  {
    match h
    case GetConfig => (d, [0x00, 0x01, 0x0A, 0x02], SW_OK)
    case GetPubkey => PubkeyStep(c, d, p1, data)
    case SignTx => var s := SignStep(c.keccak, d.wh, p1, data); (d.(wh := s.0), [], s.1)
  }

  /** apdu_dispatch */
  ghost function Dispatch(c: Crypto, d: Device, apdu: seq<uint8>): (Device, seq<uint8>) {
    if |apdu| < 4 then (d, Respond([], SW_WRONG_LENGTH)) else
    var lc := if |apdu| >= 5 then apdu[4] as int else 0;
    var data := if |apdu| >= 5 then apdu[5..] else [];
    if |data| != lc then (d, Respond([], SW_WRONG_LENGTH))
    else if Bolos(apdu[0], apdu[1]).Some? then (d, Bolos(apdu[0], apdu[1]).value)
    else if apdu[0] != 0xE0 then (d, Respond([], SW_CLA_BAD))
    else if d.locked && apdu[1] != INS_GET_CONFIG then (d, Respond([], SW_DEVICE_LOCKED))
    else
      var h := Find(Routes(), apdu[1]);
      if h.None? then (d, Respond([], SW_INS_BAD)) else
      var r := Handle(c, d, h.value, apdu[2], data);
      (r.0, Respond(r.1, r.2))
  }

  /** A complete command from the host; a deferred approval holds the answer back. */
  ghost function OnCommand(c: Crypto, d: Device, apdu: seq<uint8>): (Device, Option<seq<uint8>>) {
    var r := Dispatch(c, d, apdu);
    (r.0, if r.0.wh.pending == Idle then Some(r.1) else None)
  }

  // ---------------------------------------------------------------- the main loop

  /** A deferred approval brings up its screen. */
  function OnPoll(d: Device): Device {
    if d.wh.pending != Idle && d.screen != Review && d.screen != ConfirmAddress then
      d.(screen := if d.wh.pending == ReviewTx then Review else ConfirmAddress, page := 0)
    else d
  }

  /** wh_approve: the answer that is sent, and the device after it. */
  function Approve(c: Crypto, d: Device): (Device, seq<uint8>) {
    var e := d.(wh := d.wh.(pending := Idle));
    match d.wh.pending
    case Idle => (d, [])
    case ConfirmAddr => (e, KeyAnswer(d.account) + [0x90, 0x00])
    case ReviewTx =>
      var s := if d.seed.Some? then c.sign(d.seed.value, d.wh.index, d.wh.sighash) else None;
      (e, if s.None? then [0x6A, 0x80] else [VByte(d.wh.tx, s.value.parity)] + s.value.sig + [0x90, 0x00])
  }

  /** wh_reject, likewise. */
  function Reject(d: Device): (Device, seq<uint8>) {
    (d.(wh := d.wh.(pending := Idle)), if d.wh.pending == Idle then [] else [0x69, 0x85])
  }

  /** hid_app_set_locked */
  function SetLocked(d: Device, locked: bool): Device {
    if locked then d.(locked := true, wh := Forgotten(d.wh), account := NoAccount()) else d.(locked := false)
  }

  /** What storage and the key derivation come back with when a PIN has been entered. */
  datatype Outcome = Outcome(check: int, unlocked: Option<seq<uint8>>, pinStored: bool, provisioned: Option<seq<uint8>>, words: nat)

  /** provision: the seed is cached before the words are counted. */
  function Provision(d: Device, o: Outcome): (Device, bool) {
    if o.provisioned.None? then (d, false)
    else (d.(seed := o.provisioned, words := o.words), o.words == 24)
  }

  /** A PIN has been confirmed. */
  function PinEntered(d: Device, digits: seq<char>, o: Outcome): Device {
    match d.pinMode
    case Enter =>
      if o.check == 1 then
        if o.unlocked.Some? then SetLocked(d.(seed := o.unlocked), false).(page := 0, screen := Home)
        else d.(screen := Error)
      else d.(screen := if o.check == -1 then PinWiped else PinFail)
    case Set1 => d.(firstPin := digits, pinMode := Set2)
    case Set2 =>
      if digits == d.firstPin then
        if o.pinStored then
          var p := Provision(d, o);
          if p.1 then SetLocked(p.0, false).(page := 0, screen := Backup) else p.0.(screen := Error)
        else d.(screen := Error)
      else d.(pinMode := Set1, screen := PinFail)
  }

  /** Up and down through n pages. */
  function Turn(d: Device, id: ButtonId, n: nat): Device
    requires n > 0
  {
    if id == Up && d.page > 0 then d.(page := d.page - 1)
    else if id == Down && d.page < n - 1 then d.(page := d.page + 1)
    else d
  }

  /** A short press; entered is the PIN if this press confirmed one. */
  function OnPress(c: Crypto, d: Device, id: ButtonId, provisioned: bool, entered: Option<seq<char>>, o: Outcome): Device {
    match d.screen
    case Splash => if id == Left then d.(pinMode := if provisioned then Enter else Set1, screen := Pin) else d
    case Pin =>
      if id == Right then d.(screen := Splash)
      else if entered.Some? then PinEntered(d, entered.value, o)
      else d
    case PinFail => d.(screen := Pin)
    case PinWiped => d.(screen := Splash)
    case Backup => if id == Center then d.(screen := Ready) else Turn(d, id, 6)
    case Ready => if id == Center then d.(page := 0, screen := Home) else d
    case Home =>
      if id != Center then Turn(d, id, 2)
      else if d.page == 0 then d.(screen := Receive)
      else SetLocked(d.(seed := None), true).(screen := Splash)
    case Receive => if id == Left then d.(screen := Home) else d
    case ConfirmAddress =>
      if id == Center then Approve(c, d).0.(screen := Home, page := 0)
      else if id == Left then Reject(d).0.(screen := Home, page := 0)
      else d
    case Review =>
      if id == Left then Reject(d).0.(screen := Home, page := 0)
      else Turn(d, id, 2)
    case Error => if id == Center then d.(screen := Splash) else d
  }

  /** A long press: hold to sign. */
  function OnLongPress(c: Crypto, d: Device, id: ButtonId): Device {
    if d.screen == Review && id == Center then Approve(c, d).0.(screen := Home, page := 0) else d
  }

  /** The bytes a short press queues for the host, none if it queues nothing. */
  function PressAnswer(c: Crypto, d: Device, id: ButtonId): seq<uint8> {
    if d.screen == ConfirmAddress && id == Center then Approve(c, d).1
    else if d.screen in {ConfirmAddress, Review} && id == Left then Reject(d).1
    else []
  }

  function LongPressAnswer(c: Crypto, d: Device, id: ButtonId): seq<uint8> {
    if d.screen == Review && id == Center then Approve(c, d).1 else []
  }

  datatype Event =
    | Command(apdu: seq<uint8>)
    | Poll
    | Press(id: ButtonId, provisioned: bool, entered: Option<seq<char>>, outcome: Outcome)
    | LongPress(held: ButtonId)

  ghost function Next(c: Crypto, d: Device, e: Event): Device {
    match e
    case Command(apdu) => OnCommand(c, d, apdu).0
    case Poll => OnPoll(d)
    case Press(id, provisioned, entered, o) => OnPress(c, d, id, provisioned, entered, o)
    case LongPress(id) => OnLongPress(c, d, id)
  }

  /** What the event queues for the host. */
  ghost function Answer(c: Crypto, d: Device, e: Event): seq<uint8> {
    match e
    case Command(apdu) => var r := OnCommand(c, d, apdu).1; if r.Some? then r.value else []
    case Poll => []
    case Press(id, _, _, _) => PressAnswer(c, d, id)
    case LongPress(id) => LongPressAnswer(c, d, id)
  }

  ghost function Run(c: Crypto, events: seq<Event>): Device {
    if |events| == 0 then Boot() else Next(c, Run(c, events[..|events| - 1]), events[|events| - 1])
  }

  // ---------------------------------------------------------------- what every run keeps

  predicate OpenScreen(s: Screen) {
    s in {Backup, Ready, Home, Receive, ConfirmAddress, Review}
  }

  ghost predicate Safe(d: Device) {
    && (d.locked ==> d.wh.pending == Idle && d.wh.raw == [])
    && (!d.locked ==> d.seed.Some?)
    && (OpenScreen(d.screen) <==> !d.locked)
    && (d.screen == Backup ==> d.page < 6 && d.words == 24)
    && (d.screen in {Home, Review, ConfirmAddress} ==> d.page < 2)
    && (d.screen == Receive ==> d.page == 0)
    && (Deciding(d.screen) ==> d.wh.pending != Idle)
  }

  /** The two screens on which a request is decided. */
  predicate Deciding(s: Screen) {
    s in {Review, ConfirmAddress}
  }

  lemma CommandSafe(c: Crypto, d: Device, apdu: seq<uint8>)
    requires Safe(d)
    ensures Safe(OnCommand(c, d, apdu).0)
    ensures var e := OnCommand(c, d, apdu).0; e.screen == d.screen && e.page == d.page && e.locked == d.locked && e.seed == d.seed && e.words == d.words
    ensures d.locked ==> OnCommand(c, d, apdu).0 == d
  {
    hide PathIndex, SignStep, KeyAnswer;
    if d.wh.pending != Idle {
      CommandPends(c, d, apdu);
    }
    if |apdu| >= 4 {
      RoutesAre(apdu[1]);
      hide Routes, Find;
    }
  }

  lemma {:induction false} NextSafe(c: Crypto, d: Device, e: Event)
    requires Safe(d)
    ensures Safe(Next(c, d, e))
  {
    hide OnCommand;
    match e
    case Command(apdu) => CommandSafe(c, d, apdu);
    case Poll =>
    case Press(id, provisioned, entered, o) =>
    case LongPress(id) =>
  }

  /** On every run: locked means that nothing is pending or half received, unlocked that a seed is at
      hand, and the open screens are shown exactly while unlocked. */
  lemma {:induction false} AlwaysSafe(c: Crypto, events: seq<Event>)
    ensures Safe(Run(c, events))
  {
    if |events| > 0 {
      AlwaysSafe(c, events[..|events| - 1]);
      NextSafe(c, Run(c, events[..|events| - 1]), events[|events| - 1]);
    }
  }

  /** The four words on a backup page are among the twenty-four. */
  lemma BackupInRange(c: Crypto, events: seq<Event>, i: nat)
    requires i < 4 && Run(c, events).screen == Backup
    ensures Run(c, events).page * 4 + i < Run(c, events).words
  {
    AlwaysSafe(c, events);
  }

  /** The gate opens in two ways only: the stored PIN is entered and a seed is at hand, or a new PIN is
      entered twice, stored, and a wallet of 24 words set up. */
  lemma OnlyPinUnlocks(c: Crypto, d: Device, e: Event)
    requires Safe(d) && d.locked && !Next(c, d, e).locked
    ensures e.Press? && e.id != Right && d.screen == Pin && e.entered.Some?
    ensures if d.pinMode == Enter then e.outcome.check == 1 && e.outcome.unlocked.Some? && Next(c, d, e).seed == e.outcome.unlocked
      else d.pinMode == Set2 && e.entered.value == d.firstPin && e.outcome.pinStored && e.outcome.provisioned.Some?
           && e.outcome.words == 24 && Next(c, d, e).seed == e.outcome.provisioned
  {
    if e.Command? {
      CommandSafe(c, d, e.apdu);
    }
    hide OnCommand;
  }

  /** The gate closes only from the home menu, and then the seed is gone. */
  lemma OnlyMenuLocks(c: Crypto, d: Device, e: Event)
    requires Safe(d) && !d.locked && Next(c, d, e).locked
    ensures e.Press? && e.id == Center && d.screen == Home && d.page == 1
    ensures Next(c, d, e).seed == None && Next(c, d, e).wh.pending == Idle
  {
    if e.Command? {
      CommandSafe(c, d, e.apdu);
    }
    hide OnCommand;
  }

  /** While locked, the answers to commands do not depend on anything the device keeps. */
  lemma LockedAnswersAlike(c: Crypto, d: Device, c': Crypto, d': Device, apdu: seq<uint8>)
    requires Safe(d) && Safe(d') && d.locked && d'.locked
    ensures OnCommand(c, d, apdu).1 == OnCommand(c', d', apdu).1 && OnCommand(c, d, apdu).1.Some?
    ensures OnCommand(c, d, apdu).0 == d
  {
    if |apdu| >= 4 {
      RoutesAre(apdu[1]);
      hide Routes, Find;
    }
    hide PubkeyStep, SignStep;
  }

  /** A pending request is settled by a button only: by holding center on the review screen, by center
      or left on the address, by left on the review, or, on the home screen, by locking. */
  lemma OnlyButtonsSettle(c: Crypto, d: Device, e: Event)
    requires Safe(d) && d.wh.pending != Idle && Next(c, d, e).wh.pending == Idle
    ensures Settles(d.screen, e) || (e.Press? && e.id == Center && d.screen == Home && d.page == 1)
  {
    if e.Command? {
      CommandPends(c, d, e.apdu);
    }
    hide OnCommand;
  }

  /** Approval or rejection on the screen of a request. */
  predicate Settles(s: Screen, e: Event) {
    match e
    case Command(_) => false
    case Poll => false
    case Press(id, _, _, _) => (s == ConfirmAddress && id in {Center, Left}) || (s == Review && id == Left)
    case LongPress(id) => s == Review && id == Center
  }

  /** A command cannot take a pending request away, only put another in its place. */
  lemma CommandPends(c: Crypto, d: Device, apdu: seq<uint8>)
    requires d.wh.pending != Idle
    ensures OnCommand(c, d, apdu).0.wh.pending != Idle && OnCommand(c, d, apdu).1 == None
  {
    hide PathIndex, KeyAnswer, Parse, Hash, Routes, Find;
  }

  /** Once polled, a pending request has the screen; the screen it is given is the one for its kind. */
  lemma PollShows(d: Device)
    requires Safe(d)
    ensures Deciding(OnPoll(d).screen) <==> d.wh.pending != Idle
    ensures OnPoll(d).screen != d.screen ==> OnPoll(d).page == 0 && (OnPoll(d).screen == Review <==> d.wh.pending == ReviewTx)
  {}

  /** The main loop polls for a pending request before it reads a button. */
  predicate Polled(events: seq<Event>) {
    forall k :: 0 <= k < |events| && (events[k].Press? || events[k].LongPress?) ==> k > 0 && events[k - 1].Poll?
  }

  /** On every run of the main loop: when a button is read, a request is pending exactly if one of the
      two deciding screens is shown, and a request ends only by approval or rejection on its screen.
      Locking cannot drop one. */
  lemma LoopSettles(c: Crypto, events: seq<Event>)
    requires Polled(events) && |events| > 0
    ensures var d, e := Run(c, events[..|events| - 1]), events[|events| - 1];
      && (e.Press? || e.LongPress? ==> (Deciding(d.screen) <==> d.wh.pending != Idle))
      && (d.wh.pending != Idle && Run(c, events).wh.pending == Idle ==> Settles(d.screen, e))
  {
    hide OnPoll, Deciding;
    var n := |events| - 1;
    var d, e := Run(c, events[..n]), events[n];
    AlwaysSafe(c, events[..n]);
    if e.Press? || e.LongPress? {
      var before := Run(c, events[..n - 1]);
      assert events[..n][..n - 1] == events[..n - 1] && events[..n][n - 1] == Poll;
      AlwaysSafe(c, events[..n - 1]);
      PollShows(before);
      PollKeeps(before);
    }
    if d.wh.pending != Idle && Run(c, events).wh.pending == Idle {
      OnlyButtonsSettle(c, d, e);
      NotHome(d.screen);
    }
  }

  lemma PollKeeps(d: Device)
    ensures OnPoll(d).wh == d.wh
  {}

  lemma NotHome(s: Screen)
    ensures Deciding(s) ==> s != Home
  {}

  /** The backup words come on the screen only with the event that sets up a wallet with a new PIN. */
  lemma BackupOnlyAtSetup(c: Crypto, d: Device, e: Event)
    requires Safe(d) && d.screen != Backup && Next(c, d, e).screen == Backup
    ensures e.Press? && d.screen == Pin && d.pinMode == Set2 && e.entered == Some(d.firstPin)
    ensures e.outcome.pinStored && e.outcome.provisioned.Some? && e.outcome.words == 24
    ensures Next(c, d, e).page == 0 && Next(c, d, e).seed == e.outcome.provisioned
  {
    if e.Command? {
      CommandSafe(c, d, e.apdu);
    }
    hide OnCommand;
  }

  /** Whether the storage held a wallet when the splash screen was left last. */
  ghost predicate Provisioned(c: Crypto, events: seq<Event>) {
    if |events| == 0 then false
    else
      var before, e := events[..|events| - 1], events[|events| - 1];
      if e.Press? && e.id == Left && Run(c, before).screen == Splash then e.provisioned else Provisioned(c, before)
  }

  /** On every run the PIN that is asked for is the stored one exactly if there was a wallet. */
  lemma {:induction false} PinModeFits(c: Crypto, events: seq<Event>)
    ensures var d := Run(c, events); d.screen in {Pin, PinFail} ==> (d.pinMode == Enter <==> Provisioned(c, events))
  {
    if |events| > 0 {
      var before, e := events[..|events| - 1], events[|events| - 1];
      var d := Run(c, before);
      PinModeFits(c, before);
      AlwaysSafe(c, before);
      if e.Command? {
        CommandSafe(c, d, e.apdu);
        CommandMode(c, d, e.apdu);
      }
      hide Run, OnCommand, Safe;
    }
  }

  lemma CommandMode(c: Crypto, d: Device, apdu: seq<uint8>)
    ensures OnCommand(c, d, apdu).0.pinMode == d.pinMode
  {
    hide PathIndex, SignStep, KeyAnswer, Routes, Find;
  }

  /** A wallet is set up only on a device that held none. */
  lemma SetupOnlyWhenBlank(c: Crypto, events: seq<Event>, e: Event)
    ensures var d := Run(c, events); d.screen != Backup && Next(c, d, e).screen == Backup ==> !Provisioned(c, events)
  {
    var d := Run(c, events);
    AlwaysSafe(c, events);
    PinModeFits(c, events);
    hide Run, Next, Provisioned;
    if d.screen != Backup && Next(c, d, e).screen == Backup {
      BackupOnlyAtSetup(c, d, e);
    }
  }

  /** With a wrong PIN the wallet stays locked; it is gone only if the storage says so. */
  lemma WrongPin(c: Crypto, d: Device, e: Event)
    requires Safe(d) && d.screen == Pin && d.pinMode == Enter && e.Press? && e.id != Right && e.entered.Some? && e.outcome.check != 1
    ensures Next(c, d, e) == d.(screen := if e.outcome.check == -1 then PinWiped else PinFail) && Next(c, d, e).locked
  {}

  /** A command of instruction 2 for a path: with an odd P1 the key is not sent but asked about on the
      device, otherwise it is sent at once. */
  lemma KeyOnRequest(c: Crypto, d: Device, p1: uint8, p2: uint8, path: seq<uint8>)
    requires Safe(d) && !d.locked && d.wh.pending == Idle && |path| == 21 && PathIndex(path).Some?
    requires d.seed.Some? && c.derive(d.seed.value, PathIndex(path).value).Some?
    ensures var a := c.derive(d.seed.value, PathIndex(path).value).value;
      var (n, r) := OnCommand(c, d, [0xE0, 2, p1, p2, 21] + path);
      if p1 % 2 == 1 then r == None && n.wh.pending == ConfirmAddr && n.account == a
      else r == Some([65] + a.pub + [40] + Hex(a.addr) + [0x90, 0x00]) && n == d
  {
    var apdu := [0xE0, 2, p1, p2, 21] + path;
    assert apdu[5..] == path;
    RoutesAre(0x02);
    hide PathIndex, Routes, Find, Hex;
  }

  // ---------------------------------------------------------------- what is sent for a request

  /** The buttons that approve: center on the address, held on the review. */
  predicate Approves(s: Screen, e: Event) {
    (e.Press? && s == ConfirmAddress && e.id == Center) || (e.LongPress? && s == Review && e.held == Center)
  }

  /** The buttons that reject: left on either screen. */
  predicate Rejects(s: Screen, e: Event) {
    e.Press? && Deciding(s) && e.id == Left
  }

  /** On every run: rejecting sends 0x6985 and nothing else; approving sends the key and the address, or
      the signature, or the status of a signature that failed, by the kind of the request; and while a
      request is pending no other event sends anything. */
  lemma AnswersOfRequests(c: Crypto, events: seq<Event>, e: Event)
    ensures var d := Run(c, events);
      && (Rejects(d.screen, e) ==> Answer(c, d, e) == [0x69, 0x85])
      && (Approves(d.screen, e) && d.wh.pending == ConfirmAddr ==>
          Answer(c, d, e) == [65] + d.account.pub + [40] + Hex(d.account.addr) + [0x90, 0x00])
      && (Approves(d.screen, e) && d.wh.pending == ReviewTx ==> (d.seed.Some? && Answer(c, d, e) ==
          match c.sign(d.seed.value, d.wh.index, d.wh.sighash)
          case None => [0x6A, 0x80]
          case Some(s) => [VByte(d.wh.tx, s.parity)] + s.sig + [0x90, 0x00]))
      && (Rejects(d.screen, e) || Approves(d.screen, e) ==> d.wh.pending != Idle && Next(c, d, e).wh.pending == Idle)
      && (!Rejects(d.screen, e) && !Approves(d.screen, e) && (d.wh.pending != Idle || !e.Command?) ==> Answer(c, d, e) == [])
  {
    var d := Run(c, events);
    AlwaysSafe(c, events);
    hide Run, OnCommand, Hex, VByte, PinEntered;
    if e.Command? && d.wh.pending != Idle {
      CommandPends(c, d, e.apdu);
    }
  }

  /** The screen is the one for the kind of the request. */
  predicate Matches(d: Device) {
    Deciding(d.screen) ==> (d.screen == Review <==> d.wh.pending == ReviewTx)
  }

  /** A command puts a request of the other kind in the place of the one on the screen. */
  ghost predicate Replaces(c: Crypto, d: Device, e: Event) {
    e.Command? && Deciding(d.screen) && (Next(c, d, e).wh.pending == ReviewTx <==> d.wh.pending != ReviewTx)
  }

  /** That has happened an odd number of times since the screen came up. */
  ghost predicate Crossed(c: Crypto, events: seq<Event>) {
    if |events| == 0 then false
    else
      var before, e := events[..|events| - 1], events[|events| - 1];
      var d := Run(c, before);
      Deciding(d.screen) && (Crossed(c, before) <==> !Replaces(c, d, e))
  }

  /** On every run the screen is the one for the request exactly if the kind of the request was replaced
      an even number of times since the screen came up. */
  lemma {:induction false} MatchesExactly(c: Crypto, events: seq<Event>)
    ensures Deciding(Run(c, events).screen) ==> (Matches(Run(c, events)) <==> !Crossed(c, events))
  {
    if |events| > 0 {
      var before, e := events[..|events| - 1], events[|events| - 1];
      var d := Run(c, before);
      MatchesExactly(c, before);
      AlwaysSafe(c, before);
      hide Deciding, Matches, Replaces, Next;
      if Deciding(Next(c, d, e).screen) {
        MatchStep(c, d, e);
      }
    }
  }

  lemma MatchStep(c: Crypto, d: Device, e: Event)
    requires Safe(d) && Deciding(Next(c, d, e).screen)
    ensures Matches(Next(c, d, e)) <==> (!Deciding(d.screen) || (Matches(d) <==> !Replaces(c, d, e)))
  {
    hide OnCommand;
    if e.Command? {
      CommandSafe(c, d, e.apdu);
    }
  }

  /** On every run: a transaction is signed only by holding center on the review, and an address is sent
      only by center on the address, if and only if the screen that is shown was not crossed. */
  lemma ApprovedAsShown(c: Crypto, events: seq<Event>, e: Event)
    requires Approves(Run(c, events).screen, e)
    ensures var d := Run(c, events);
      if Crossed(c, events) then (d.wh.pending == ReviewTx <==> e.Press?) && (d.wh.pending == ConfirmAddr <==> e.LongPress?)
      else (d.wh.pending == ReviewTx <==> e.LongPress?) && (d.wh.pending == ConfirmAddr <==> e.Press?)
  {
    MatchesExactly(c, events);
    AlwaysSafe(c, events);
    hide Run, Crossed;
  }
}
