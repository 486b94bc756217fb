/** src/protocol/hid_frame.c: messages cut into 64-byte reports and put together again. */
module HidFrame {
  import opened Words
  import opened Bytes

  const SIZE: nat := 64
  const MAX_APDU: nat := 255
  const MIN_APDU: nat := 4

  type Report = seq<uint8>

  /** Reassembly: the announced length (0 when idle), what has come in, the number due next. */
  datatype Rx = Rx(total: nat, got: seq<uint8>, next: nat)
  datatype Outcome = NeedMore | Done(apdu: seq<uint8>) | Err

  const IDLE := Rx(0, [], 0)

  ghost predicate Sound(st: Rx) {
    if st.total == 0 then st == IDLE else MIN_APDU <= st.total <= MAX_APDU && |st.got| < st.total && st.next > 0
  }

  /** A report on our channel and with our tag. */
  predicate Ours(r: Report) {
    |r| >= 5 && r[0] == 1 && r[1] == 1 && r[2] == 5
  }

  function Number(r: Report): nat
    requires |r| >= 5
  {
    r[3] as int * 256 + r[4] as int
  }

  function Announced(r: Report): nat
    requires |r| >= 7
  {
    r[5] as int * 256 + r[6] as int
  }

  function Payload(r: Report): seq<uint8>
    requires |r| >= 5 && (Number(r) == 0 ==> |r| >= 7)
  {
    if Number(r) == 0 then r[7..] else r[5..]
  }

  function Cut(s: seq<uint8>, n: nat): (t: seq<uint8>)
    ensures |t| == Min(|s|, n)
  {
    if |s| <= n then s else s[..n]
  }

  /** Take in the payload of an expected report. */
  function Accept(total: nat, got: seq<uint8>, r: Report): (Rx, Outcome)
    requires |r| >= 5 && (Number(r) == 0 ==> |r| >= 7) && |got| <= total
  {
    var all := got + Cut(Payload(r), total - |got|);
    if |all| >= total then (IDLE, Done(all)) else (Rx(total, all, Number(r) + 1), NeedMore)
  }

  /** hid_frame_rx as a function of the state. */
  function Step(st: Rx, r: Report): (Rx, Outcome)
    requires |st.got| <= st.total
  {
    if |r| < 5 then (st, Err)
    else if !Ours(r) then (st, NeedMore)
    else if Number(r) == 0 then
      if |r| < 7 then (st, Err)
      else if !(MIN_APDU <= Announced(r) <= MAX_APDU) then (IDLE, Err)
      else Accept(Announced(r), [], r)
    else if st.total == 0 || Number(r) != st.next then (IDLE, Err)
    else Accept(st.total, st.got, r)
  }

  lemma StepSound(st: Rx, r: Report)
    requires Sound(st)
    ensures Sound(Step(st, r).0)
    ensures Step(st, r).1.Done? ==> MIN_APDU <= |Step(st, r).1.apdu| <= MAX_APDU
  {}

  /** The bytes of a message on the wire: channel 0101, tag 05, number and length in two bytes each, most
      significant first.  A short message takes one report, whatever fills it up ... */
  lemma OneReport(st: Rx, msg: seq<uint8>, z: seq<uint8>)
    requires MIN_APDU <= |msg| <= 57 && |st.got| <= st.total
    ensures Step(st, [1, 1, 5, 0, 0, 0, |msg|] + msg + z) == (IDLE, Done(msg))
  {
    var r: Report := [1, 1, 5, 0, 0, 0, |msg|] + msg + z;
    assert r[7..] == msg + z;
    CutPrefix(msg, z);
    hide Cut;
  }

  /** ... and a longer one goes on in the next. */
  lemma TwoReports(st: Rx, msg: seq<uint8>, z: seq<uint8>)
    requires 57 < |msg| <= 57 + 59 && |st.got| <= st.total
    ensures Step(st, [1, 1, 5, 0, 0, 0, |msg|] + msg[..57]) == (Rx(|msg|, msg[..57], 1), NeedMore)
    ensures Step(Rx(|msg|, msg[..57], 1), [1, 1, 5, 0, 1] + msg[57..] + z) == (IDLE, Done(msg))
  {
    FirstHalf(st, msg);
    var r: Report := [1, 1, 5, 0, 1] + msg[57..] + z;
    assert r[5..] == msg[57..] + z;
    CutPrefix(msg[57..], z);
    assert msg == msg[..57] + msg[57..];
    hide Cut;
  }

  lemma FirstHalf(st: Rx, msg: seq<uint8>)
    requires 57 < |msg| <= 57 + 59 && |st.got| <= st.total
    ensures Step(st, [1, 1, 5, 0, 0, 0, |msg|] + msg[..57]) == (Rx(|msg|, msg[..57], 1), NeedMore)
  {
    var r: Report := [1, 1, 5, 0, 0, 0, |msg|] + msg[..57];
    assert r[7..] == msg[..57] == [] + msg[..57];
  }

  lemma CutPrefix(s: seq<uint8>, z: seq<uint8>)
    ensures Cut(s + z, |s|) == s && [] + s == s
  {}

  /** A length of 256 is refused. */
  lemma LongRefused(st: Rx, w: seq<uint8>)
    requires |st.got| <= st.total
    ensures Step(st, [1, 1, 5, 0, 0, 1, 0] + w) == (IDLE, Err)
  {}

  /** A report sent starts like that, too. */
  lemma FrameStarts(msg: seq<uint8>, k: nat)
    requires 0 < |msg| <= MAX_APDU && k < Count(|msg|)
    ensures k < 256 && Offset(|msg|, k) <= |msg|
    ensures Frame(msg, k)[..5] == [1, 1, 5, 0, k]
    ensures k == 0 ==> Frame(msg, k)[5..7] == [0, |msg|] && Frame(msg, k)[7..7 + Min(|msg|, 57)] == msg[..Min(|msg|, 57)]
  {
  }

  class Receiver {
    const rxApdu: array<uint8>
    var rxTotal: nat
    var rxLen: nat
    var rxSeq: nat

    ghost predicate Valid()
      reads this, rxApdu
    {
      rxApdu.Length == MAX_APDU && rxLen <= rxTotal <= MAX_APDU && Sound(Abs())
    }

    ghost function Abs(): Rx
      requires rxLen <= rxApdu.Length
      reads this, rxApdu
    {
      Rx(rxTotal, rxApdu[..rxLen], rxSeq)
    }

    constructor ()
      ensures Valid() && Abs() == IDLE
    {
      rxApdu := new uint8[MAX_APDU];
      rxTotal, rxLen, rxSeq := 0, 0, 0;
    }

    /** hid_frame_rx_reset */
    method Reset()
      requires rxApdu.Length == MAX_APDU
      modifies this
      ensures Valid() && Abs() == IDLE
    {
      rxTotal, rxLen, rxSeq := 0, 0, 0;
    }

    /** hid_frame_rx */
    method Receive(report: array<uint8>) returns (res: Outcome)
      requires Valid() && report != rxApdu
      modifies this, rxApdu
      ensures Valid() && (Abs(), res) == Step(old(Abs()), report[..])
    {
      ghost var st, r := Abs(), report[..];
      StepSound(st, r);
      if report.Length < 5 {
        return Err;
      }
      if !(report[0] == 1 && report[1] == 1) || report[2] != 5 {
        return NeedMore;
      }
      var num: nat := report[3] as int * 256 + report[4] as int;
      if num == 0 {
        if report.Length < 7 {
          return Err;
        }
        var total: nat := report[5] as int * 256 + report[6] as int;
        if total < MIN_APDU || total > MAX_APDU {
          Reset();
          return Err;
        }
        rxTotal, rxLen, rxSeq := total, 0, 0;
      } else if rxTotal == 0 || num != rxSeq {
        Reset();
        return Err;
      }
      res := Take(report, num);
    }

    /** Copy the payload and see whether the message is complete. */
    method Take(report: array<uint8>, num: nat) returns (res: Outcome)
      requires rxApdu.Length == MAX_APDU && report != rxApdu && report.Length >= 5 && num == Number(report[..]) && (num == 0 ==> report.Length >= 7)
      requires rxLen < rxTotal <= MAX_APDU
      modifies this, rxApdu
      ensures rxApdu.Length == MAX_APDU && rxLen <= rxTotal <= MAX_APDU
      ensures (Abs(), res) == Accept(old(rxTotal), old(rxApdu[..rxLen]), report[..])
    {
      hide Cut, Payload;
      var c := Append(report, num);
      rxLen := rxLen + c;
      rxSeq := num + 1;
      hide Number;
      if rxLen >= rxTotal {
        res := Done(rxApdu[..rxTotal]);
        Reset();
        return;
      }
      res := NeedMore;
    }

    /** As much of the payload as is wanted, after what has come in. */
    method Append(report: array<uint8>, num: nat) returns (c: nat)
      requires rxApdu.Length == MAX_APDU && report != rxApdu && report.Length >= 5 && num == Number(report[..]) && (num == 0 ==> report.Length >= 7)
      requires rxLen < rxTotal <= MAX_APDU
      modifies rxApdu
      ensures rxLen + c <= rxTotal && rxApdu[..rxLen + c] == old(rxApdu[..rxLen]) + Cut(Payload(report[..]), rxTotal - rxLen)
    {
      ghost var got, p := rxApdu[..rxLen], Payload(report[..]);
      var hdr := if num == 0 then 7 else 5;
      var avail := report.Length - hdr;
      var want := rxTotal - rxLen;
      c := if avail < want then avail else want;
      CopyInto(rxApdu, rxLen, report, hdr, c);
      assert report[hdr..hdr + c] == Cut(p, want);
      assert rxApdu[..rxLen + c] == rxApdu[..rxLen] + rxApdu[rxLen..rxLen + c];
    }
  }

  // ---------------------------------------------------------------- sending

  /** How much of a message the first k reports carry. */
  function Offset(n: nat, k: nat): nat {
    if k == 0 then 0 else Min(n, 57 + 59 * (k - 1))
  }

  function Header(n: nat, k: nat): (h: Report)
    requires n <= MAX_APDU && k < 256
    ensures |h| == if k == 0 then 7 else 5
  {
    [1, 1, 5, 0, k] + if k == 0 then [0, n] else []
  }

  /** Report k of a message. */
  function Frame(msg: seq<uint8>, k: nat): (r: Report)
    requires |msg| <= MAX_APDU && k < 256 && Offset(|msg|, k) <= |msg|
    ensures |r| == SIZE
  {
    var part := msg[Offset(|msg|, k)..Offset(|msg|, k + 1)];
    Header(|msg|, k) + part + Zeros(SIZE - |Header(|msg|, k)| - |part|)
  }

  /** The number of reports of a message of n bytes. */
  function Count(n: nat): nat {
    if n <= 57 then 1 else 1 + (n - 57 + 58) / 59
  }

  function Frames(msg: seq<uint8>): (f: seq<Report>)
    requires 0 < |msg| <= MAX_APDU
    ensures |f| == Count(|msg|)
  {
    seq(Count(|msg|), k requires 0 <= k < Count(|msg|) => Frame(msg, k))
  }

  lemma Offsets(n: nat, k: nat)
    requires 0 < n <= MAX_APDU
    ensures k < Count(n) <==> Offset(n, k) < n
  {}

  /** One report, byte by byte. */
  method MakeFrame(response: array<uint8>, k: nat, offset: nat) returns (f: array<uint8>, c: nat)
    requires 0 < response.Length <= MAX_APDU && k < 256 && offset == Offset(response.Length, k) < response.Length
    ensures fresh(f) && f[..] == Frame(response[..], k) && c == Offset(response.Length, k + 1) - offset
  {
    var len := response.Length;
    f := new uint8[SIZE](i => 0);
    var hdr := PutHeader(f, len, k);
    var cap := SIZE - hdr;
    c := len - offset;
    if c > cap {
      c := cap;
    }
    ghost var h, part := Header(len, k), response[..][offset..offset + c];
    assert f[..hdr] == h && f[hdr + c..] == Zeros(SIZE - hdr - c);
    hide Header, Zeros;
    ghost var blank := f[hdr + c..];
    CopyInto(f, hdr, response, offset, c);
    assert f[..hdr] == h;
    assert f[hdr..hdr + c] == part;
    assert f[hdr + c..] == blank;
    Pieces(f[..], hdr, hdr + c);
  }

  /** Channel, tag and number; in the first report the length as well.  The rest stays zero. */
  method PutHeader(f: array<uint8>, len: nat, k: nat) returns (hdr: nat)
    requires f.Length == SIZE && len <= MAX_APDU && k < 256 && forall i :: 0 <= i < SIZE ==> f[i] == 0
    modifies f
    ensures hdr == |Header(len, k)| && f[..hdr] == Header(len, k)
    ensures forall m :: hdr <= m <= SIZE ==> f[m..] == Zeros(SIZE - m)
  {
    f[0], f[1], f[2], f[3], f[4] := 1, 1, 5, k / 256, k % 256;
    hdr := if k == 0 then 7 else 5;
    if k == 0 {
      f[5], f[6] := len / 256, len % 256;
    }
    assert f[..hdr] == Header(len, k);
    forall m | hdr <= m <= SIZE ensures f[m..] == Zeros(SIZE - m) {
      forall i | 0 <= i < SIZE - m ensures f[m..][i] == Zeros(SIZE - m)[i] {
        assert f[m + i] == 0;
      }
    }
  }

  /** hid_frame_tx: the reports of a response, none for an empty or an oversized one. */
  method Send(response: array<uint8>) returns (frames: seq<Report>)
    ensures frames == if 0 < response.Length <= MAX_APDU then Frames(response[..]) else []
  {
    frames := [];
    if response.Length < 1 || response.Length > MAX_APDU {
      return;
    }
    ghost var all := Frames(response[..]);
    var offset, k := 0, 0;
    while offset < response.Length
      invariant k <= Count(response.Length) && offset == Offset(response.Length, k) && frames == all[..k]
      decreases response.Length - offset
    {
      Offsets(response.Length, k);
      var f, c := MakeFrame(response, k, offset);
      frames := frames + [f[..]];
      offset, k := offset + c, k + 1;
    }
    Offsets(response.Length, k);
    assert all[..k] == all;
  }

  // ---------------------------------------------------------------- runs

  /** The state after a stream of reports, and what came of each. */
  function Run(st: Rx, stream: seq<Report>): (r: (Rx, seq<Outcome>))
    requires Sound(st)
    ensures Sound(r.0) && |r.1| == |stream|
  {
    if |stream| == 0 then (st, []) else
    var before := Run(st, stream[..|stream| - 1]);
    var s := Step(before.0, stream[|stream| - 1]);
    StepSound(before.0, stream[|stream| - 1]);
    (s.0, before.1 + [s.1])
  }

  /** The reports of a stream that are meant for us. */
  function Own(stream: seq<Report>): seq<Report> {
    if |stream| == 0 then [] else
    var r := stream[|stream| - 1];
    Own(stream[..|stream| - 1]) + if Ours(r) then [r] else []
  }

  lemma FrameIs(msg: seq<uint8>, k: nat)
    requires MIN_APDU <= |msg| <= MAX_APDU && k < Count(|msg|) && Offset(|msg|, k) <= |msg|
    ensures k < 256 && Ours(Frame(msg, k)) && Number(Frame(msg, k)) == k && (k == 0 ==> Announced(Frame(msg, k)) == |msg|)
    ensures var part := msg[Offset(|msg|, k)..Offset(|msg|, k + 1)];
      Payload(Frame(msg, k)) == part + Zeros((if k == 0 then 57 else 59) - |part|)
  {
    var h, part := Header(|msg|, k), msg[Offset(|msg|, k)..Offset(|msg|, k + 1)];
    var z := Zeros(SIZE - |h| - |part|);
    assert Frame(msg, k) == h + part + z;
    assert (h + part + z)[|h|..] == part + z;
    assert forall i :: 0 <= i < |h| ==> (h + part + z)[i] == h[i];
  }

  /** Report k continues the message; the last one completes it. */
  lemma AcceptFrame(msg: seq<uint8>, k: nat)
    requires MIN_APDU <= |msg| <= MAX_APDU && k < Count(|msg|) && Offset(|msg|, k) <= |msg|
    ensures Ours(Frame(msg, k)) && Number(Frame(msg, k)) == k
    ensures Accept(|msg|, msg[..Offset(|msg|, k)], Frame(msg, k)) ==
      if k + 1 == Count(|msg|) then (IDLE, Done(msg)) else (Rx(|msg|, msg[..Offset(|msg|, k + 1)], k + 1), NeedMore)
  {
    FrameIs(msg, k);
    Offsets(|msg|, k);
    Offsets(|msg|, k + 1);
    var a, b := Offset(|msg|, k), Offset(|msg|, k + 1);
    var part := msg[a..b];
    assert Cut(Payload(Frame(msg, k)), |msg| - a) == part;
    assert msg[..a] + part == msg[..b];
    if k + 1 == Count(|msg|) {
      assert msg[..b] == msg;
    }
  }

  /** Where the receiver stands after k reports of the message. */
  ghost function Standing(st: Rx, msg: seq<uint8>, k: nat): Rx
    requires Offset(|msg|, k) <= |msg|
  {
    if k == 0 then st else if k >= Count(|msg|) then IDLE else Rx(|msg|, msg[..Offset(|msg|, k)], k)
  }

  /** The message is delivered with the last of its reports; every other report asks for more. */
  function Expected(stream: seq<Report>, msg: seq<uint8>): (o: seq<Outcome>)
    ensures |o| == |stream|
  {
    if |stream| == 0 then [] else
    var r := stream[|stream| - 1];
    Expected(stream[..|stream| - 1], msg) + [if Ours(r) && |Own(stream)| == Count(|msg|) then Done(msg) else NeedMore]
  }

  /** From any state, through any interleaving with reports that are not ours. */
  lemma {:induction false} Delivery(st: Rx, stream: seq<Report>, msg: seq<uint8>, k: nat)
    requires Sound(st) && MIN_APDU <= |msg| <= MAX_APDU && k <= Count(|msg|)
    requires Own(stream) == Frames(msg)[..k] && forall i :: 0 <= i < |stream| ==> |stream[i]| >= 5
    ensures Run(st, stream) == (Standing(st, msg, k), Expected(stream, msg))
    decreases |stream|
  {
    hide Run, Step, Frame, Accept, Count, Standing, Ours;
    if |stream| == 0 {
      NothingRun(st, msg);
    } else {
      var rest, r := stream[..|stream| - 1], stream[|stream| - 1];
      assert stream == rest + [r];
      LastOutcome(st, rest, r);
      if Ours(r) {
        OwnLast(stream, msg, k);
        Delivery(st, rest, msg, k - 1);
        OwnStep(st, msg, k - 1);
      } else {
        Delivery(st, rest, msg, k);
        ForeignStep(Standing(st, msg, k), r);
      }
    }
  }

  lemma NothingRun(st: Rx, msg: seq<uint8>)
    requires Sound(st)
    ensures Run(st, []) == (st, []) && Standing(st, msg, 0) == st && Expected([], msg) == []
  {}

  lemma OwnLast(stream: seq<Report>, msg: seq<uint8>, k: nat)
    requires |stream| > 0 && Ours(stream[|stream| - 1]) && 0 < |msg| <= MAX_APDU && k <= Count(|msg|) && Own(stream) == Frames(msg)[..k]
    ensures k > 0 && stream[|stream| - 1] == Frame(msg, k - 1) && Own(stream[..|stream| - 1]) == Frames(msg)[..k - 1]
  {
    hide Frame, Ours, Own, Frames;
    var own, rest, last := Own(stream), Own(stream[..|stream| - 1]), stream[|stream| - 1];
    OwnSnoc(stream);
    assert |own| == k;
    assert own[k - 1] == last && own[..k - 1] == rest;
    assert Frames(msg)[..k][k - 1] == Frames(msg)[k - 1] && Frames(msg)[..k][..k - 1] == Frames(msg)[..k - 1];
    FramesAt(msg, k - 1);
  }

  lemma OwnSnoc(stream: seq<Report>)
    requires |stream| > 0 && Ours(stream[|stream| - 1])
    ensures Own(stream) == Own(stream[..|stream| - 1]) + [stream[|stream| - 1]]
  {}

  lemma FramesAt(msg: seq<uint8>, k: nat)
    requires 0 < |msg| <= MAX_APDU && k < Count(|msg|)
    ensures Frames(msg)[k] == Frame(msg, k)
  {}

  lemma OwnStep(st: Rx, msg: seq<uint8>, k: nat)
    requires Sound(st) && MIN_APDU <= |msg| <= MAX_APDU && k < Count(|msg|)
    ensures Sound(Standing(st, msg, k)) && |Standing(st, msg, k).got| <= Standing(st, msg, k).total
    ensures Step(Standing(st, msg, k), Frame(msg, k)) ==
      (Standing(st, msg, k + 1), if k + 1 == Count(|msg|) then Done(msg) else NeedMore)
  {
    Offsets(|msg|, k);
    FrameIs(msg, k);
    AcceptFrame(msg, k);
    assert msg[..0] == [];
    hide Frame, Accept;
  }

  lemma ForeignStep(st: Rx, r: Report)
    requires Sound(st) && |r| >= 5 && !Ours(r)
    ensures Step(st, r) == (st, NeedMore)
  {}

  lemma LastOutcome(st: Rx, rest: seq<Report>, r: Report)
    requires Sound(st)
    ensures var s := Step(Run(st, rest).0, r); Run(st, rest + [r]) == (s.0, Run(st, rest).1 + [s.1])
  {
    assert (rest + [r])[..|rest|] == rest;
  }

  // ---------------------------------------------------------------- what a delivery means

  /** Reports numbered 0, 1, ... of which the first announces an admissible length. */
  ghost predicate Unbroken(run: seq<Report>) {
    && (forall i :: 0 <= i < |run| ==> Ours(run[i]) && Number(run[i]) == i && (i == 0 ==> |run[i]| >= 7))
    && (|run| > 0 ==> MIN_APDU <= Announced(run[0]) <= MAX_APDU)
  }

  function Payloads(run: seq<Report>): seq<uint8>
    requires forall i :: 0 <= i < |run| ==> |run[i]| >= 5 && (Number(run[i]) == 0 ==> |run[i]| >= 7)
  {
    if |run| == 0 then [] else Payloads(run[..|run| - 1]) + Payload(run[|run| - 1])
  }

  /** The run in progress at the end of a stream: what has come in since the latest first report, as
      long as nothing was out of order and the message is not complete. */
  ghost function Latest(stream: seq<Report>): (run: seq<Report>)
    ensures Unbroken(run)
  {
    if |stream| == 0 then [] else
    var prev, r := Latest(stream[..|stream| - 1]), stream[|stream| - 1];
    var run := Extended(prev, r);
    if Complete(run) then [] else run
  }

  /** The run with one more report, complete or not. */
  ghost function Extended(prev: seq<Report>, r: Report): (run: seq<Report>)
    requires Unbroken(prev)
    ensures Unbroken(run)
  {
    if !Ours(r) || (Number(r) == 0 && |r| < 7) then prev
    else if Number(r) == 0 then (if MIN_APDU <= Announced(r) <= MAX_APDU then [r] else [])
    else if |prev| == 0 || Number(r) != |prev| then []
    else prev + [r]
  }

  ghost predicate Complete(run: seq<Report>)
    requires Unbroken(run)
  {
    |run| > 0 && |Payloads(run)| >= Announced(run[0])
  }

  ghost function StateOf(run: seq<Report>): Rx
    requires Unbroken(run)
  {
    if |run| == 0 then IDLE else Rx(Announced(run[0]), Payloads(run), |run|)
  }

  /** On any stream: the receiver holds the run in progress, and a delivery is the payload of the
      run it completes, cut to the announced length. */
  lemma {:induction false} DeliveryIsRun(stream: seq<Report>)
    ensures !Complete(Latest(stream)) && Run(IDLE, stream).0 == StateOf(Latest(stream))
    ensures |stream| > 0 ==>
      var run := Extended(Latest(stream[..|stream| - 1]), stream[|stream| - 1]);
      if Complete(run) then Run(IDLE, stream).1[|stream| - 1] == Done(Payloads(run)[..Announced(run[0])])
      else !Run(IDLE, stream).1[|stream| - 1].Done?
    decreases |stream|
  {
    hide Run, Step, Extended, Complete, StateOf, Latest, Unbroken, Payloads, Announced;
    NothingInProgress();
    if |stream| == 0 {
      assert stream == [];
    } else {
      var rest, r := stream[..|stream| - 1], stream[|stream| - 1];
      DeliveryIsRun(rest);
      LatestNext(stream);
      assert stream == rest + [r];
      LastOutcome(IDLE, rest, r);
      StepIsRun(Latest(rest), r);
    }
  }

  lemma LatestNext(stream: seq<Report>)
    requires |stream| > 0
    ensures var run := Extended(Latest(stream[..|stream| - 1]), stream[|stream| - 1]);
            Latest(stream) == if Complete(run) then [] else run
  {}

  lemma NothingInProgress()
    ensures Latest([]) == [] && !Complete([]) && StateOf([]) == IDLE && Run(IDLE, []) == (IDLE, [])
  {}

  lemma StepIsRun(prev: seq<Report>, r: Report)
    requires Unbroken(prev) && !Complete(prev)
    ensures |StateOf(prev).got| <= StateOf(prev).total
    ensures var run := Extended(prev, r); var s := Step(StateOf(prev), r);
      && s.0 == StateOf(if Complete(run) then [] else run)
      && if Complete(run) then s.1 == Done(Payloads(run)[..Announced(run[0])]) else !s.1.Done?
  {
    if Ours(r) && !(Number(r) == 0 && |r| < 7) {
      if Number(r) == 0 {
        if MIN_APDU <= Announced(r) <= MAX_APDU {
          FirstIsRun(r);
        }
      } else if Number(r) == |prev| {
        NextIsRun(prev, r);
      }
    }
  }

  lemma FirstIsRun(r: Report)
    requires Ours(r) && |r| >= 7 && Number(r) == 0 && MIN_APDU <= Announced(r) <= MAX_APDU
    ensures Unbroken([r]) && Accept(Announced(r), [], r) == AfterRun([r])
  {
    PayloadsOne(r);
    CutAfter([], Payload(r), Announced(r));
    assert [] + Payload(r) == Payload(r);
  }

  /** Cutting what is added is cutting the whole. */
  lemma CutAfter(got: seq<uint8>, p: seq<uint8>, total: nat)
    requires |got| <= total
    ensures got + Cut(p, total - |got|) == Cut(got + p, total)
    ensures |got + p| >= total ==> Cut(got + p, total) == (got + p)[..total]
  {}

  /** What the receiver makes of a run. */
  ghost function AfterRun(run: seq<Report>): (Rx, Outcome)
    requires Unbroken(run) && |run| > 0
  {
    if Complete(run) then (IDLE, Done(Payloads(run)[..Announced(run[0])])) else (StateOf(run), NeedMore)
  }

  lemma PayloadsNext(prev: seq<Report>, r: Report)
    requires Unbroken(prev) && Ours(r) && Number(r) == |prev| > 0
    ensures Unbroken(prev + [r]) && Payloads(prev + [r]) == Payloads(prev) + Payload(r)
  {
    assert (prev + [r])[..|prev|] == prev;
  }

  lemma NextIsRun(prev: seq<Report>, r: Report)
    requires Unbroken(prev) && !Complete(prev) && Ours(r) && Number(r) == |prev| > 0
    ensures Unbroken(prev + [r]) && Accept(Announced(prev[0]), Payloads(prev), r) == AfterRun(prev + [r])
  {
    var run := prev + [r];
    PayloadsNext(prev, r);
    var total, got, p := Announced(prev[0]), Payloads(prev), Payload(r);
    CutAfter(got, p, total);
    assert run[0] == prev[0];
    hide Payload, Payloads, Announced, Cut, Unbroken;
  }

  lemma PayloadsOne(r: Report)
    requires |r| >= 7
    ensures Payloads([r]) == Payload(r)
  {
    assert [r][..0] == [];
    assert Payloads([r][..0]) + Payload(r) == Payload(r);
  }
}
