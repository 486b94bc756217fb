/** The firmware's own state, changed in place: the main loop of src/main.c, the command gate of
    src/protocol/apdu.c, the glue of src/usb/hid_callbacks.c and the seed cache of
    src/crypto/wallet_state.c.  Each method takes the step of LockProtocol that its name says, so
    that everything proved there about runs holds of these. */
module MainLoop {
  import opened Words
  import opened Rlp
  import opened WalletHandlers
  import opened LockProtocol

  const MAX_RESP: nat := 255

  /** Derived accounts have a 65-byte key and a 20-byte address. */
  ghost predicate Sane(c: Crypto) {
    forall s, i :: Proper(c.derive(s, i))
  }

  /** apdu.c */
  class Gate {
    const routes: array<Route>
    var nRoutes: nat
    var locked: bool

    ghost predicate Valid()
      reads this
    {
      routes.Length == MAX_ROUTES && nRoutes <= MAX_ROUTES
    }

    ghost function Table(): seq<Route>
      requires Valid()
      reads this, routes
    {
      routes[..nRoutes]
    }

    /** apdu_reset */
    constructor ()
      ensures Valid() && Table() == [] && !locked && fresh(routes)
    {
      routes := new Route[MAX_ROUTES](_ => Route(0, GetConfig));
      nRoutes, locked := 0, false;
    }

    /** The loop of apdu_register and find_handler. */
    method Search(ins: uint8) returns (k: nat)
      requires Valid()
      ensures k == Position(Table(), ins)
    {
      k := 0;
      while k < nRoutes && routes[k].ins != ins
        invariant k <= nRoutes && forall m :: 0 <= m < k ==> routes[m].ins != ins
      {
        k := k + 1;
      }
      PositionIs(Table(), ins, k);
    }

    /** apdu_register */
    method Register(ins: uint8, h: Handler)
      requires Valid()
      modifies this`nRoutes, routes
      ensures Valid() && Table() == LockProtocol.Register(old(Table()), ins, h)
    {
      var k := Search(ins);
      if k < nRoutes {
        routes[k] := Route(ins, h);
      } else if nRoutes < MAX_ROUTES {
        routes[nRoutes] := Route(ins, h);
        nRoutes := nRoutes + 1;
      }
    }

    /** find_handler */
    method FindHandler(ins: uint8) returns (h: Option<Handler>)
      requires Valid()
      ensures h == Find(Table(), ins)
    {
      var k := Search(ins);
      return if k < nRoutes then Some(routes[k].h) else None;
    }
  }

  class Firmware {
    const c: Crypto
    const gate: Gate
    const wh: Handlers
    // wallet_state.c
    var seed: Option<seq<uint8>>
    // main.c
    var screen: Screen
    var page: nat
    var pinMode: PinMode
    var firstPin: seq<char>
    var words: nat

    ghost predicate Valid()
      reads this, gate, gate.routes, wh, wh.raw
    {
      && Sane(c) && wh.keccak == c.keccak
      && gate.Valid() && gate.Table() == Routes() && wh.Valid()
    }

    ghost function Abs(): Device
      requires Valid()
      reads this, gate, gate.routes, wh, wh.raw
    {
      Device(screen, page, pinMode, firstPin, words, gate.locked, seed, wh.Abs(), wh.account)
    }

    /** hid_app_init, and the main loop's first screen */
    constructor (c: Crypto)
      requires Sane(c)
      ensures Valid() && Abs() == Boot() && this.c == c
    {
      var g := new Gate();
      var h := new Handlers(c.keccak);
      g.Register(INS_GET_CONFIG, GetConfig);
      g.Register(INS_GET_PUBKEY, GetPubkey);
      g.Register(INS_SIGN_TX, SignTx);
      g.locked := true;
      this.c, gate, wh := c, g, h;
      seed := None;
      screen, page, pinMode, firstPin, words := Splash, 0, Enter, [], 0;
    }

    /** hid_app_set_locked */
    method SetLocked(locked: bool)
      requires Valid()
      modifies gate`locked, wh, wh.raw
      ensures Valid() && Abs() == LockProtocol.SetLocked(old(Abs()), locked)
    {
      gate.locked := locked;
      if locked {
        wh.Reset();
      }
    }

    // ---------------------------------------------------------------- commands

    /** The registered handlers, with the seed cache behind them. */
    method Handle(h: Handler, p1: uint8, data: array<uint8>) returns (out: seq<uint8>, sw: nat)
      requires Valid() && data !in {wh.raw, wh.items, wh.buf}
      requires h.SignTx? ==> Encodable(SignStep(c.keccak, wh.Abs(), p1, data[..]).0.raw)
      modifies wh, wh.raw, wh.items, wh.buf
      ensures Valid() && (Abs(), out, sw) == LockProtocol.Handle(c, old(Abs()), h, p1, data[..])
    {
      hide PathIndex, SignStep, KeyAnswer, Hex, Routes;
      out := [];
      match h {
        case GetConfig =>
          out, sw := [0x00, 0x01, 0x0A, 0x02], SW_OK;
        case GetPubkey =>
          var d, s := c.derive, seed;
          sw, out := wh.GetPubkey(p1 % 2 == 1, data, (i: uint32) => if s.Some? then d(s.value, i) else None);
        case SignTx =>
          sw := wh.SignTx(p1, data);
      }
    }

    /** bolos_dispatch */
    method BolosDispatch(cla: uint8, ins: uint8) returns (r: Option<seq<uint8>>)
      ensures r == Bolos(cla, ins)
    {
      if cla == 0xB0 && ins == 0x01 {
        return Some(Respond(APP_NAME, SW_OK));
      }
      if cla == 0xB0 && ins == 0xA7 {
        return Some(Respond([], SW_OK));
      }
      if cla == 0xE0 && ins == 0xD8 {
        return Some(Respond([], SW_OK));
      }
      return None;
    }

    /** What follows the length byte. */
    static function Data(apdu: seq<uint8>): seq<uint8> {
      if |apdu| >= 5 then apdu[5..] else []
    }

    /** The command reaches wh_sign_tx. */
    ghost predicate Signs(apdu: seq<uint8>)
      reads this, gate
    {
      |apdu| >= 4 && |Data(apdu)| == (if |apdu| >= 5 then apdu[4] as int else 0)
      && apdu[0] == 0xE0 && apdu[1] == INS_SIGN_TX && !gate.locked
    }

    /** apdu_dispatch */
    method Dispatch(apdu: array<uint8>) returns (r: seq<uint8>)
      requires Valid() && apdu !in {wh.raw, wh.items, wh.buf}
      requires Signs(apdu[..]) ==> Encodable(SignStep(c.keccak, wh.Abs(), apdu[2], Data(apdu[..])).0.raw)
      modifies wh, wh.raw, wh.items, wh.buf
      ensures Valid() && (Abs(), r) == LockProtocol.Dispatch(c, old(Abs()), apdu[..])
    {
      hide SignStep, Routes, LockProtocol.Handle, Bolos, Find;
      if apdu.Length < 4 {
        return Respond([], SW_WRONG_LENGTH);
      }
      var cla, ins, p1 := apdu[0], apdu[1], apdu[2];
      var lc: nat := if apdu.Length >= 5 then apdu[4] else 0;
      var len: nat := if apdu.Length >= 5 then apdu.Length - 5 else 0;
      if len != lc {
        return Respond([], SW_WRONG_LENGTH);
      }
      var bolos := BolosDispatch(cla, ins);
      if bolos.Some? {
        return bolos.value;
      }
      if cla != 0xE0 {
        return Respond([], SW_CLA_BAD);
      }
      if gate.locked && ins != INS_GET_CONFIG {
        return Respond([], SW_DEVICE_LOCKED);
      }
      var h := gate.FindHandler(ins);
      RoutesAre(ins);
      if h.None? {
        return Respond([], SW_INS_BAD);
      }
      var data := Payload(apdu, len);
      var out, sw := Handle(h.value, p1, data);
      return Respond(out, sw);
    }

    method Payload(apdu: array<uint8>, len: nat) returns (data: array<uint8>)
      requires len == if apdu.Length >= 5 then apdu.Length - 5 else 0
      ensures fresh(data) && data[..] == Data(apdu[..])
    {
      data := new uint8[len];
      if len > 0 {
        CopyInto(data, 0, apdu, 5, len);
        assert data[..] == data[0..0 + len] && apdu[5..5 + len] == apdu[..][5..];
      }
    }

    /** tud_hid_set_report_cb once a command is complete: None while the answer is held back. */
    method Command(apdu: array<uint8>) returns (r: Option<seq<uint8>>)
      requires Valid() && apdu !in {wh.raw, wh.items, wh.buf}
      requires Signs(apdu[..]) ==> Encodable(SignStep(c.keccak, wh.Abs(), apdu[2], Data(apdu[..])).0.raw)
      modifies wh, wh.raw, wh.items, wh.buf
      ensures Valid() && (Abs(), r) == OnCommand(c, old(Abs()), apdu[..])
    {
      hide LockProtocol.Dispatch, SignStep, Routes;
      var resp := Dispatch(apdu);
      return if wh.pending == Idle then Some(resp) else None;
    }

    // ---------------------------------------------------------------- the loop

    /** A deferred approval takes over the screen. */
    method Poll()
      requires Valid()
      modifies this`screen, this`page
      ensures Valid() && Abs() == OnPoll(old(Abs()))
    {
      if wh.pending != Idle && screen != Review && screen != ConfirmAddress {
        screen := if wh.pending == ReviewTx then Review else ConfirmAddress;
        page := 0;
      }
    }

    /** hid_app_approve, with the bytes it queues */
    method Approve() returns (resp: seq<uint8>)
      requires Valid()
      modifies wh`pending
      ensures Valid() && (Abs(), resp) == LockProtocol.Approve(c, old(Abs()))
    {
      hide KeyAnswer, Hex, VByte, Routes;
      var g, s := c.sign, seed;
      resp := wh.Approve(MAX_RESP, (i: uint32, hash: seq<uint8>) => if s.Some? then g(s.value, i, hash) else None);
    }

    /** hid_app_reject */
    method Reject() returns (resp: seq<uint8>)
      requires Valid()
      modifies wh`pending
      ensures Valid() && (Abs(), resp) == LockProtocol.Reject(old(Abs()))
    {
      hide Routes;
      resp := wh.Reject(MAX_RESP);
    }

    /** provision, as far as the seed and the words go */
    method Provision(o: LockProtocol.Outcome) returns (ok: bool)
      requires Valid()
      modifies this`seed, this`words
      ensures Valid() && (Abs(), ok) == LockProtocol.Provision(old(Abs()), o)
    {
      if o.provisioned.None? {
        return false;
      }
      seed := o.provisioned;
      words := o.words;
      return words == 24;
    }

    /** lock_wallet */
    method ClearSeed()
      requires Valid()
      modifies this`seed
      ensures Valid() && Abs() == old(Abs()).(seed := None)
    {
      seed := None;
    }

    /** The part of the PIN screen after pin_confirmed. */
    method PinEntered(digits: seq<char>, o: LockProtocol.Outcome)
      requires Valid()
      modifies this, gate`locked, wh, wh.raw
      ensures Valid() && Abs() == LockProtocol.PinEntered(old(Abs()), digits, o)
    {
      hide Routes;
      if pinMode == Enter {
        if o.check == 1 {
          if o.unlocked.Some? {
            seed := o.unlocked;
            SetLocked(false);
            page, screen := 0, Home;
          } else {
            screen := Error;
          }
        } else if o.check == -1 {
          screen := PinWiped;
        } else {
          screen := PinFail;
        }
      } else if pinMode == Set1 {
        firstPin := digits;
        pinMode := Set2;
      } else if digits == firstPin {
        if o.pinStored {
          var ok := Provision(o);
          if !ok {
            screen := Error;
          } else {
            SetLocked(false);
            page, screen := 0, Backup;
          }
        } else {
          screen := Error;
        }
      } else {
        pinMode := Set1;
        screen := PinFail;
      }
    }

    /** Up and down among n pages; false if the button was neither, or at an end. */
    method Turn(id: ButtonId, n: nat) returns (turned: bool)
      requires Valid() && n > 0
      modifies this`page
      ensures Valid() && Abs() == LockProtocol.Turn(old(Abs()), id, n)
      ensures turned ==> id != Center
    {
      hide Routes;
      turned := true;
      if id == Up && page > 0 {
        page := page - 1;
      } else if id == Down && page < n - 1 {
        page := page + 1;
      } else {
        turned := false;
      }
    }

    /** The home menu: receive, or lock. */
    method Menu(id: ButtonId)
      requires Valid() && screen == Home
      modifies this, gate`locked, wh, wh.raw
      ensures Valid() && forall p, e, o :: Abs() == OnPress(c, old(Abs()), id, p, e, o)
    {
      hide Routes, LockProtocol.PinEntered, LockProtocol.Approve;
      var turned := Turn(id, 2);
      if !turned && id == Center {
        if page == 0 {
          screen := Receive;
        } else {
          ClearSeed();
          SetLocked(true);
          screen := Splash;
        }
      }
    }

    /** The two screens on which a request is decided. */
    method Decide(id: ButtonId) returns (resp: seq<uint8>)
      requires Valid() && screen in {ConfirmAddress, Review}
      modifies this`screen, this`page, wh`pending
      ensures Valid() && forall p, e, o :: Abs() == OnPress(c, old(Abs()), id, p, e, o)
      ensures resp == PressAnswer(c, old(Abs()), id)
    {
      hide Routes, LockProtocol.PinEntered, LockProtocol.Approve, LockProtocol.Reject;
      resp := [];
      if screen == ConfirmAddress && id == Center {
        resp := Approve();
        screen, page := Home, 0;
      } else if id == Left {
        resp := Reject();
        screen, page := Home, 0;
      } else if screen == Review {
        var turned := Turn(id, 2);
      }
    }

    /** The screens that only lead on, or turn pages. */
    method Browse(id: ButtonId)
      requires Valid() && screen in {PinFail, PinWiped, Backup, Ready, Receive, Error}
      modifies this`screen, this`page
      ensures Valid() && forall p, e, o :: Abs() == OnPress(c, old(Abs()), id, p, e, o)
    {
      hide Routes, LockProtocol.PinEntered, LockProtocol.Approve, LockProtocol.Reject;
      match screen {
        case PinFail =>
          screen := Pin;
        case PinWiped =>
          screen := Splash;
        case Backup =>
          var turned := Turn(id, 6);
          if !turned && id == Center {
            screen := Ready;
          }
        case Ready =>
          if id == Center {
            page, screen := 0, Home;
          }
        case Receive =>
          if id == Left {
            screen := Home;
          }
        case Error =>
          if id == Center {
            screen := Splash;
          }
      }
    }

    /** A short press, with the bytes it queues. */
    method Press(id: ButtonId, provisioned: bool, entered: Option<seq<char>>, o: LockProtocol.Outcome) returns (resp: seq<uint8>)
      requires Valid()
      modifies this, gate`locked, wh, wh.raw
      ensures Valid() && Abs() == OnPress(c, old(Abs()), id, provisioned, entered, o)
      ensures resp == PressAnswer(c, old(Abs()), id)
    {
      hide Routes, LockProtocol.PinEntered, LockProtocol.Approve, LockProtocol.Reject;
      resp := [];
      if screen == Splash {
        if id == Left {
          pinMode := if provisioned then Enter else Set1;
          screen := Pin;
        }
      } else if screen == Pin {
        if id == Right {
          screen := Splash;
        } else if entered.Some? {
          PinEntered(entered.value, o);
        }
      } else if screen == Home {
        Menu(id);
      } else if screen == ConfirmAddress || screen == Review {
        resp := Decide(id);
      } else {
        Browse(id);
      }
    }

    /** A long press: hold to sign, with the bytes it queues. */
    method LongPress(id: ButtonId) returns (resp: seq<uint8>)
      requires Valid()
      modifies this`screen, this`page, wh`pending
      ensures Valid() && Abs() == OnLongPress(c, old(Abs()), id)
      ensures resp == LongPressAnswer(c, old(Abs()), id)
    {
      hide Routes, LockProtocol.Approve;
      resp := [];
      if screen == Review && id == Center {
        resp := Approve();
        screen, page := Home, 0;
      }
    }
  }
}
