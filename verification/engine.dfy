/**
 The test engine of src/wrtmtester/WrtmTester.py (`executePlan` with
 `_sendTest`), as a pure function over a scripted environment. Time is
 counted in whole ticks (seconds). The router's replies, the pings and the
 readiness beacons are inputs; what the engine does to the world (pings,
 packets, pauses, instrument commands) is an output trace, and the result
 file is the returned list of result lines.
 */
module Engine {
  import opened Text
  import opened Bytes
  import opened Plan
  import opened Protocol
  import opened Instrument

  /** Result codes written to the result file. */
  const ERR_OK: int := 0
  const ERR_RCV_TIMEOUT: int := 4

  /** Start attempts per invocation, and readiness rounds per invocation. */
  const MAX_RETRIES: nat := 3
  const MAX_ROUNDS: nat := 3

  /** The pause before the next invocation once the router is ready. */
  const RESUME_PAUSE: nat := 5

  // ---------------------------------------------------------------------
  // The scripted environment
  // ---------------------------------------------------------------------

  /** What the test socket sees after a packet is sent: nothing for the rest
      of the window, or a datagram `after` ticks after the previous read. */
  datatype AckEvent = Silent | Arrives(after: nat, data: seq<byte>)

  /** One second of the readiness wait: no datagram, or one datagram. */
  datatype BeaconEvent = Quiet | Heard(d: Datagram)

  /** Outcomes in the order the engine consumes them. An exhausted script
      means a ping that is not answered, an ack window that passes in
      silence, and a second with no beacon. */
  datatype Env = Env(pings: seq<bool>, acks: seq<AckEvent>, beacons: seq<BeaconEvent>)

  /** The settings `executePlan` reads: the router's address, the section's
      `loadDelay` option (absent when the section has none), the number of
      test cases it compares sequence numbers against, and whether the
      instrument was initialised. */
  datatype Config = Config(routerIp: string, loadDelay: Option<string>, caseCount: int, loadEnabled: bool)

  /** What the engine does to the world, in order. */
  datatype Action = Ping | Send(packet: seq<byte>) | Sleep(ticks: nat) | Instr(cmd: Command)

  // ---------------------------------------------------------------------
  // The acknowledgement window
  // ---------------------------------------------------------------------

  /** How one send ends: acknowledged (`confirmed` is false when a busy reply
      used up the window exactly, which the loop lets through as success),
      timed out, refused by an error status, or answered by a datagram too
      short to unpack. */
  datatype Outcome = Acked(confirmed: bool) | TimedOut | Refused(verdict: Verdict) | Garbled

  datatype Exchanged = Exchanged(outcome: Outcome, waited: nat, rest: seq<AckEvent>)

  /** The receive loop of `_sendTest`, `spent` ticks into the window. Busy
      replies keep the time already spent: the window is never reset. */
  function Exchange(acks: seq<AckEvent>, testId: int, spent: nat): (r: Exchanged)
    requires spent <= RCV_TIMEOUT
    ensures spent <= r.waited <= RCV_TIMEOUT
    ensures |r.rest| <= |acks|
    ensures r.outcome == TimedOut ==> r.waited == RCV_TIMEOUT
    ensures r.outcome.Refused? ==> r.outcome.verdict in {WrongTest, UnknownTestType, Nack}
    decreases |acks|
  {
    if spent >= RCV_TIMEOUT then Exchanged(Acked(false), spent, acks)
    else if |acks| == 0 then Exchanged(TimedOut, RCV_TIMEOUT, [])
    else match acks[0]
      case Silent => Exchanged(TimedOut, RCV_TIMEOUT, acks[1..])
      case Arrives(after, data) =>
        if spent + after > RCV_TIMEOUT then Exchanged(TimedOut, RCV_TIMEOUT, acks[1..])
        else match DecodeAck(data)
          case None => Exchanged(Garbled, spent + after, acks[1..])
          case Some(a) =>
            match Classify(a, testId)
            case Accepted => Exchanged(Acked(true), spent + after, acks[1..])
            case Busy => Exchange(acks[1..], testId, spent + after)
            case WrongTest => Exchanged(Refused(WrongTest), spent + after, acks[1..])
            case UnknownTestType => Exchanged(Refused(UnknownTestType), spent + after, acks[1..])
            case Nack => Exchanged(Refused(Nack), spent + after, acks[1..])
  }

  function AfterOf(e: AckEvent): nat {
    if e.Arrives? then e.after else 0
  }

  /** Ticks from the send until the `k`-th datagram has arrived. */
  function Arrival(acks: seq<AckEvent>, k: nat): nat
    requires k <= |acks|
    decreases k
  {
    if k == 0 then 0 else Arrival(acks, k - 1) + AfterOf(acks[k - 1])
  }

  /** The datagram is a well-formed acknowledgement classified as `v`. */
  predicate VerdictIs(e: AckEvent, testId: int, v: Verdict) {
    e.Arrives? && DecodeAck(e.data).Some? && Classify(DecodeAck(e.data).value, testId) == v
  }

  lemma {:induction false} ArrivalShift(acks: seq<AckEvent>, k: nat)
    requires k < |acks|
    ensures Arrival(acks, k + 1) == AfterOf(acks[0]) + Arrival(acks[1..], k)
    decreases k
  {
    if k > 0 {
      ArrivalShift(acks, k - 1);
    }
  }

  /** The `k`-th datagram accepts the test in time, after nothing but busy
      replies that each arrived before the deadline. */
  predicate ConfirmedAt(acks: seq<AckEvent>, testId: int, spent: nat, k: nat)
    requires k < |acks|
  {
    VerdictIs(acks[k], testId, Accepted) && spent + Arrival(acks, k + 1) <= RCV_TIMEOUT
    && forall j | 0 <= j < k :: VerdictIs(acks[j], testId, Busy) && spent + Arrival(acks, j + 1) < RCV_TIMEOUT
  }

  lemma ConfirmedAtShift(acks: seq<AckEvent>, testId: int, spent: nat, k: nat)
    requires 0 < k < |acks|
    ensures ConfirmedAt(acks, testId, spent, k) <==>
      VerdictIs(acks[0], testId, Busy) && spent + AfterOf(acks[0]) < RCV_TIMEOUT
      && ConfirmedAt(acks[1..], testId, spent + AfterOf(acks[0]), k - 1)
  {
    if ConfirmedAt(acks, testId, spent, k) {
      ConfirmedDrop(acks, acks[1..], testId, spent, spent + AfterOf(acks[0]), k);
    }
    if VerdictIs(acks[0], testId, Busy) && spent + AfterOf(acks[0]) < RCV_TIMEOUT
       && ConfirmedAt(acks[1..], testId, spent + AfterOf(acks[0]), k - 1) {
      ConfirmedAdd(acks, acks[1..], testId, spent, spent + AfterOf(acks[0]), k);
    }
  }

  /** Dropping the first, busy, datagram keeps a later confirmation, counted
      from the time that datagram arrived. */
  lemma ConfirmedDrop(acks: seq<AckEvent>, tail: seq<AckEvent>, testId: int, spent: nat, spent': nat, k: nat)
    requires 0 < k < |acks| && tail == acks[1..] && spent' == spent + AfterOf(acks[0])
    requires ConfirmedAt(acks, testId, spent, k)
    ensures VerdictIs(acks[0], testId, Busy) && spent' < RCV_TIMEOUT
    ensures ConfirmedAt(tail, testId, spent', k - 1)
  {
    ArrivalShift(acks, k);
    ArrivalShift(acks, 0);
    assert acks[k] == tail[k - 1];
    forall j | 0 <= j < k - 1
      ensures VerdictIs(tail[j], testId, Busy) && spent' + Arrival(tail, j + 1) < RCV_TIMEOUT
    {
      ArrivalShift(acks, j + 1);
      assert acks[j + 1] == tail[j];
    }
  }

  /** Putting a busy datagram before the deadline in front keeps a
      confirmation, one position later. */
  lemma ConfirmedAdd(acks: seq<AckEvent>, tail: seq<AckEvent>, testId: int, spent: nat, spent': nat, k: nat)
    requires 0 < k < |acks| && tail == acks[1..] && spent' == spent + AfterOf(acks[0])
    requires VerdictIs(acks[0], testId, Busy) && spent' < RCV_TIMEOUT
    requires ConfirmedAt(tail, testId, spent', k - 1)
    ensures ConfirmedAt(acks, testId, spent, k)
  {
    ArrivalShift(acks, k);
    assert acks[k] == tail[k - 1];
    forall j | 0 <= j < k
      ensures VerdictIs(acks[j], testId, Busy) && spent + Arrival(acks, j + 1) < RCV_TIMEOUT
    {
      ArrivalShift(acks, j);
      if j > 0 {
        assert acks[j] == tail[j - 1];
      }
    }
  }

  /** One datagram of the window: a busy reply before the deadline hands the
      rest of the window on; any other datagram decides, and confirms
      exactly when it accepts within the window. */
  lemma ExchangeHead(acks: seq<AckEvent>, testId: int, spent: nat)
    requires spent < RCV_TIMEOUT && |acks| > 0
    ensures VerdictIs(acks[0], testId, Busy) && spent + AfterOf(acks[0]) < RCV_TIMEOUT ==>
      Exchange(acks, testId, spent) == Exchange(acks[1..], testId, spent + AfterOf(acks[0]))
    ensures !(VerdictIs(acks[0], testId, Busy) && spent + AfterOf(acks[0]) < RCV_TIMEOUT) ==>
      (Exchange(acks, testId, spent).outcome == Acked(true) <==>
         VerdictIs(acks[0], testId, Accepted) && spent + AfterOf(acks[0]) <= RCV_TIMEOUT)
  {
  }

  /** A first datagram that neither accepts in time nor is busy before the
      deadline leaves no datagram that confirms. */
  lemma ConfirmedNowhere(acks: seq<AckEvent>, testId: int, spent: nat)
    requires |acks| > 0
    requires !(VerdictIs(acks[0], testId, Busy) && spent + AfterOf(acks[0]) < RCV_TIMEOUT)
    requires !(VerdictIs(acks[0], testId, Accepted) && spent + AfterOf(acks[0]) <= RCV_TIMEOUT)
    ensures forall k | 0 <= k < |acks| :: !ConfirmedAt(acks, testId, spent, k)
  {
    ArrivalShift(acks, 0);
    forall k | 0 <= k < |acks|
      ensures !ConfirmedAt(acks, testId, spent, k)
    {
      if k > 0 {
        ConfirmedAtShift(acks, testId, spent, k);
      }
    }
  }

  /** After a busy reply before the deadline, a datagram confirms exactly
      when one of the rest confirms from the time the reply arrived. */
  lemma ConfirmedLater(acks: seq<AckEvent>, tail: seq<AckEvent>, testId: int, spent: nat, spent': nat)
    requires |acks| > 0 && tail == acks[1..] && spent' == spent + AfterOf(acks[0])
    requires VerdictIs(acks[0], testId, Busy) && spent' < RCV_TIMEOUT
    ensures (exists k | 0 <= k < |acks| :: ConfirmedAt(acks, testId, spent, k)) <==>
      (exists k | 0 <= k < |tail| :: ConfirmedAt(tail, testId, spent', k))
  {
    if exists k | 0 <= k < |acks| :: ConfirmedAt(acks, testId, spent, k) {
      var k :| 0 <= k < |acks| && ConfirmedAt(acks, testId, spent, k);
      assert k > 0;
      assert ConfirmedAt(tail, testId, spent', k - 1) by {
        ConfirmedDrop(acks, tail, testId, spent, spent', k);
      }
    }
    if exists k | 0 <= k < |tail| :: ConfirmedAt(tail, testId, spent', k) {
      var k :| 0 <= k < |tail| && ConfirmedAt(tail, testId, spent', k);
      assert ConfirmedAt(acks, testId, spent, k + 1) by {
        ConfirmedAdd(acks, tail, testId, spent, spent', k + 1);
      }
    }
  }

  /** An accepting acknowledgement for the right id is recognised exactly
      when it comes after nothing but busy replies, each before the deadline,
      and arrives itself within the window counted from the send. */
  lemma {:induction false} ExchangeConfirmed(acks: seq<AckEvent>, testId: int, spent: nat)
    requires spent < RCV_TIMEOUT
    ensures Exchange(acks, testId, spent).outcome == Acked(true) <==>
      exists k | 0 <= k < |acks| :: ConfirmedAt(acks, testId, spent, k)
    decreases |acks|
  {
    if |acks| == 0 {
      return;
    }
    var e := acks[0];
    var tail := acks[1..];
    var spent' := spent + AfterOf(e);
    if VerdictIs(e, testId, Busy) && spent' < RCV_TIMEOUT {
      // a busy reply before the deadline: the rest of the window decides
      assert Exchange(acks, testId, spent) == Exchange(tail, testId, spent') by {
        ExchangeHead(acks, testId, spent);
      }
      ExchangeConfirmed(tail, testId, spent');
      ConfirmedLater(acks, tail, testId, spent, spent');
    } else if VerdictIs(e, testId, Accepted) && spent' <= RCV_TIMEOUT {
      assert Exchange(acks, testId, spent).outcome == Acked(true) by {
        ExchangeHead(acks, testId, spent);
      }
      ArrivalShift(acks, 0);
      assert ConfirmedAt(acks, testId, spent, 0);
    } else {
      assert Exchange(acks, testId, spent).outcome != Acked(true) by {
        ExchangeHead(acks, testId, spent);
      }
      ConfirmedNowhere(acks, testId, spent);
    }
  }

  /** A busy reply that lands exactly at the end of the window ends the loop
      as if the test had been accepted. */
  lemma BusyAtDeadline(pad0: byte, pad1: byte, testId: int)
    requires IsI32(testId)
    ensures Exchange([Arrives(RCV_TIMEOUT, EncodeAck(pad0, pad1, Ack(testId, 2)))], testId, 0).outcome
      == Acked(false)
  {
    DecodeEncodeAck(pad0, pad1, Ack(testId, 2), []);
    assert EncodeAck(pad0, pad1, Ack(testId, 2)) + [] == EncodeAck(pad0, pad1, Ack(testId, 2));
  }

  /** A busy reply does not restart the window: an acceptance seven ticks
      after a busy reply at tick four comes too late. */
  lemma WindowNotReset(pad0: byte, pad1: byte, testId: int)
    requires IsI32(testId)
    ensures Exchange([Arrives(4, EncodeAck(pad0, pad1, Ack(testId, 2))),
                      Arrives(7, EncodeAck(pad0, pad1, Ack(testId, 0)))], testId, 0).outcome
      == TimedOut
  {
    DecodeEncodeAck(pad0, pad1, Ack(testId, 2), []);
    assert EncodeAck(pad0, pad1, Ack(testId, 2)) + [] == EncodeAck(pad0, pad1, Ack(testId, 2));
    var acks := [Arrives(4, EncodeAck(pad0, pad1, Ack(testId, 2))),
                 Arrives(7, EncodeAck(pad0, pad1, Ack(testId, 0)))];
    assert acks[1..] == [Arrives(7, EncodeAck(pad0, pad1, Ack(testId, 0)))];
  }

  /** A test id of 2^31 or more is never confirmed, whatever the router sends. */
  lemma {:induction false} HighIdNeverConfirmed(acks: seq<AckEvent>, testId: int, spent: nat)
    requires testId >= I32_LIMIT && spent <= RCV_TIMEOUT
    ensures Exchange(acks, testId, spent).outcome != Acked(true)
    decreases |acks|
  {
    if spent < RCV_TIMEOUT && |acks| > 0 && acks[0].Arrives? && spent + acks[0].after <= RCV_TIMEOUT {
      var data := acks[0].data;
      if DecodeAck(data).Some? {
        HighIdNeverAccepted(data, testId);
        HighIdNeverConfirmed(acks[1..], testId, spent + acks[0].after);
      }
    }
  }

  // ---------------------------------------------------------------------
  // The readiness wait
  // ---------------------------------------------------------------------

  datatype RoundEnd = Announced | Expired | BadBeacon

  datatype Round = Round(end: RoundEnd, ticks: nat, rest: seq<BeaconEvent>)

  /** One round of the readiness wait, `ticks` seconds in: a datagram from
      another host is skipped without a tick, a stale one from the router
      costs a tick like a silent second, a short one makes the unpack raise. */
  function WaitRound(bs: seq<BeaconEvent>, routerIp: string, ticks: nat): (r: Round)
    requires ticks <= INIT_TIMEOUT
    ensures ticks <= r.ticks <= INIT_TIMEOUT
    ensures r.end == Expired <==> r.ticks == INIT_TIMEOUT
    ensures |r.rest| <= |bs|
    decreases |bs| + (INIT_TIMEOUT - ticks)
  {
    if ticks >= INIT_TIMEOUT then Round(Expired, ticks, bs)
    else if |bs| == 0 then WaitRound([], routerIp, ticks + 1)
    else match bs[0]
      case Quiet => WaitRound(bs[1..], routerIp, ticks + 1)
      case Heard(d) =>
        match ClassifyBeacon(d, routerIp)
        case Foreign => WaitRound(bs[1..], routerIp, ticks)
        case Stale => WaitRound(bs[1..], routerIp, ticks + 1)
        case Malformed => Round(BadBeacon, ticks, bs[1..])
        case Ready => Round(Announced, ticks, bs[1..])
  }

  /** The seconds one event of the wait costs. */
  function Cost(e: BeaconEvent, routerIp: string): nat {
    if e.Heard? && ClassifyBeacon(e.d, routerIp) == Foreign then 0 else 1
  }

  /** Seconds spent before the `k`-th event is handled. */
  function Elapsed(bs: seq<BeaconEvent>, routerIp: string, k: nat): nat
    requires k <= |bs|
    decreases k
  {
    if k == 0 then 0 else Elapsed(bs, routerIp, k - 1) + Cost(bs[k - 1], routerIp)
  }

  predicate IsAnnouncement(e: BeaconEvent, routerIp: string) {
    e.Heard? && ClassifyBeacon(e.d, routerIp) == Ready
  }

  /** An event the wait passes over: silence, a foreign or a stale datagram. */
  predicate Passes(e: BeaconEvent, routerIp: string) {
    e.Quiet? || ClassifyBeacon(e.d, routerIp) in {Foreign, Stale}
  }

  lemma {:induction false} ElapsedShift(bs: seq<BeaconEvent>, routerIp: string, k: nat)
    requires k < |bs|
    ensures Elapsed(bs, routerIp, k + 1) == Cost(bs[0], routerIp) + Elapsed(bs[1..], routerIp, k)
    decreases k
  {
    if k > 0 {
      ElapsedShift(bs, routerIp, k - 1);
    }
  }

  /** The `k`-th event is the router's announcement, handled before 120
      seconds are spent, after nothing but passable events. */
  predicate AnnouncedAt(bs: seq<BeaconEvent>, routerIp: string, ticks: nat, k: nat)
    requires k < |bs|
  {
    IsAnnouncement(bs[k], routerIp) && ticks + Elapsed(bs, routerIp, k) < INIT_TIMEOUT
    && forall j | 0 <= j < k :: Passes(bs[j], routerIp)
  }

  lemma AnnouncedAtShift(bs: seq<BeaconEvent>, routerIp: string, ticks: nat, k: nat)
    requires 0 < k < |bs|
    ensures AnnouncedAt(bs, routerIp, ticks, k) <==>
      Passes(bs[0], routerIp) && AnnouncedAt(bs[1..], routerIp, ticks + Cost(bs[0], routerIp), k - 1)
  {
    var tail := bs[1..];
    ElapsedShift(bs, routerIp, k - 1);
    assert bs[k] == tail[k - 1];
    assert forall j | 0 <= j < k - 1 :: bs[j + 1] == tail[j];
    if Passes(bs[0], routerIp) && AnnouncedAt(tail, routerIp, ticks + Cost(bs[0], routerIp), k - 1) {
      forall j | 0 <= j < k
        ensures Passes(bs[j], routerIp)
      {
        if j > 0 {
          assert bs[j] == tail[j - 1];
        }
      }
    }
  }

  /** A round ends in readiness exactly when an announcement from the
      router comes after nothing but passable events and is handled while
      fewer than 120 seconds have been spent. */
  lemma {:induction false} RoundAnnounced(bs: seq<BeaconEvent>, routerIp: string, ticks: nat)
    requires ticks <= INIT_TIMEOUT
    ensures WaitRound(bs, routerIp, ticks).end == Announced <==>
      exists k | 0 <= k < |bs| :: AnnouncedAt(bs, routerIp, ticks, k)
    decreases |bs| + (INIT_TIMEOUT - ticks)
  {
    if |bs| == 0 {
      SilentRound(routerIp, ticks);
      return;
    }
    if ticks >= INIT_TIMEOUT {
      forall k | 0 <= k < |bs|
        ensures !AnnouncedAt(bs, routerIp, ticks, k)
      {
      }
      return;
    }
    var e := bs[0];
    var tail := bs[1..];
    if IsAnnouncement(e, routerIp) {
      assert AnnouncedAt(bs, routerIp, ticks, 0);
      return;
    }
    if !Passes(e, routerIp) {
      forall k | 0 <= k < |bs|
        ensures !AnnouncedAt(bs, routerIp, ticks, k)
      {
        if k > 0 {
          AnnouncedAtShift(bs, routerIp, ticks, k);
        }
      }
      return;
    }
    var ticks' := ticks + Cost(e, routerIp);
    assert WaitRound(bs, routerIp, ticks) == WaitRound(tail, routerIp, ticks');
    RoundAnnounced(tail, routerIp, ticks');
    if WaitRound(bs, routerIp, ticks).end == Announced {
      var k' :| 0 <= k' < |tail| && AnnouncedAt(tail, routerIp, ticks', k');
      AnnouncedAtShift(bs, routerIp, ticks, k' + 1);
    } else {
      forall k | 0 <= k < |bs|
        ensures !AnnouncedAt(bs, routerIp, ticks, k)
      {
        if k > 0 {
          AnnouncedAtShift(bs, routerIp, ticks, k);
        }
      }
    }
  }

  /** With no datagram at all the round runs out after 120 seconds. */
  lemma {:induction false} SilentRound(routerIp: string, ticks: nat)
    requires ticks <= INIT_TIMEOUT
    ensures WaitRound([], routerIp, ticks) == Round(Expired, INIT_TIMEOUT, [])
    decreases INIT_TIMEOUT - ticks
  {
    if ticks < INIT_TIMEOUT {
      SilentRound(routerIp, ticks + 1);
    }
  }

  /** A datagram from another host costs nothing. */
  lemma ForeignIsFree(d: Datagram, bs: seq<BeaconEvent>, routerIp: string, ticks: nat)
    requires ticks < INIT_TIMEOUT && d.source != routerIp
    ensures WaitRound([Heard(d)] + bs, routerIp, ticks) == WaitRound(bs, routerIp, ticks)
  {
    assert ([Heard(d)] + bs)[1..] == bs;
  }

  datatype Readiness = ReadyAfter(reboots: nat) | NeverReady | BeaconCrash

  datatype Readied = Readied(readiness: Readiness, rest: seq<BeaconEvent>)

  /** Up to three rounds; an expired round counts a reboot (the power cycle
      itself is not performed), the third ends the wait. */
  function AwaitReady(bs: seq<BeaconEvent>, routerIp: string, reboots: nat): (r: Readied)
    requires reboots < MAX_ROUNDS
    ensures r.readiness.ReadyAfter? ==> reboots <= r.readiness.reboots < MAX_ROUNDS
    ensures |r.rest| <= |bs|
    decreases MAX_ROUNDS - reboots
  {
    var round := WaitRound(bs, routerIp, 0);
    match round.end
    case Announced => Readied(ReadyAfter(reboots), round.rest)
    case BadBeacon => Readied(BeaconCrash, round.rest)
    case Expired =>
      if reboots + 1 == MAX_ROUNDS then Readied(NeverReady, round.rest)
      else AwaitReady(round.rest, routerIp, reboots + 1)
  }

  /** A router that never announces itself ends the wait after three rounds. */
  lemma SilentNeverReady(routerIp: string)
    ensures AwaitReady([], routerIp, 0).readiness == NeverReady
  {
    SilentRound(routerIp, 0);
  }

  /** The events left for the `i`-th round of the wait, counting from 0,
      when every earlier round ran to its end. */
  function RoundInput(bs: seq<BeaconEvent>, routerIp: string, i: nat): seq<BeaconEvent>
    decreases i
  {
    if i == 0 then bs else RoundInput(WaitRound(bs, routerIp, 0).rest, routerIp, i - 1)
  }

  /** How the `i`-th round ends. */
  function RoundEndAt(bs: seq<BeaconEvent>, routerIp: string, i: nat): RoundEnd {
    WaitRound(RoundInput(bs, routerIp, i), routerIp, 0).end
  }

  /** The first `n` rounds all ran out without an announcement. */
  predicate ExpiredBefore(bs: seq<BeaconEvent>, routerIp: string, n: nat) {
    forall i | 0 <= i < n :: RoundEndAt(bs, routerIp, i) == Expired
  }

  /** `r` is what the round-by-round reading of the wait predicts when
      `reboots` rounds are already spent: ready after `k` reboots exactly
      when the rounds before the `(k - reboots)`-th expired and that one
      heard the announcement; given up exactly when all the remaining
      rounds expired; crashed exactly when some remaining round met a short
      beacon after expired ones. */
  ghost predicate WaitExplained(bs: seq<BeaconEvent>, routerIp: string, reboots: nat, r: Readiness)
    requires reboots < MAX_ROUNDS
  {
    (r == NeverReady <==> ExpiredBefore(bs, routerIp, MAX_ROUNDS - reboots))
    && (forall k: nat :: r == ReadyAfter(k) <==>
          reboots <= k < MAX_ROUNDS && ExpiredBefore(bs, routerIp, k - reboots)
          && RoundEndAt(bs, routerIp, k - reboots) == Announced)
    && (r == BeaconCrash <==>
          exists j | 0 <= j < MAX_ROUNDS - reboots ::
            ExpiredBefore(bs, routerIp, j) && RoundEndAt(bs, routerIp, j) == BadBeacon)
  }

  /** The readiness wait agrees with its round-by-round reading on every
      beacon script. */
  lemma {:induction false} AwaitReadyRounds(bs: seq<BeaconEvent>, routerIp: string, reboots: nat)
    requires reboots < MAX_ROUNDS
    ensures WaitExplained(bs, routerIp, reboots, AwaitReady(bs, routerIp, reboots).readiness)
    decreases MAX_ROUNDS - reboots
  {
    var round := WaitRound(bs, routerIp, 0);
    assert RoundEndAt(bs, routerIp, 0) == round.end;
    if round.end != Expired {
      FirstRoundDecides(bs, routerIp, reboots);
    } else if reboots + 1 == MAX_ROUNDS {
      LastRoundExpires(bs, routerIp, reboots);
    } else {
      AwaitReadyRounds(round.rest, routerIp, reboots + 1);
      LaterRound(bs, routerIp, reboots, AwaitReady(round.rest, routerIp, reboots + 1).readiness);
    }
  }

  /** From a fresh start, the wait is ready after `k` reboots exactly when
      the first `k` rounds ran out and the next one met the router's
      announcement after nothing but passable events, in time. */
  lemma ReadyWhenAnnounced(bs: seq<BeaconEvent>, routerIp: string, k: nat)
    ensures AwaitReady(bs, routerIp, 0).readiness == ReadyAfter(k) <==>
      k < MAX_ROUNDS && ExpiredBefore(bs, routerIp, k)
      && exists j | 0 <= j < |RoundInput(bs, routerIp, k)| :: AnnouncedAt(RoundInput(bs, routerIp, k), routerIp, 0, j)
  {
    AwaitReadyRounds(bs, routerIp, 0);
    assert WaitExplained(bs, routerIp, 0, AwaitReady(bs, routerIp, 0).readiness);
    assert AwaitReady(bs, routerIp, 0).readiness == ReadyAfter(k) <==>
      k < MAX_ROUNDS && ExpiredBefore(bs, routerIp, k) && RoundEndAt(bs, routerIp, k) == Announced;
    RoundAnnounced(RoundInput(bs, routerIp, k), routerIp, 0);
  }

  /** The third expired round gives up. */
  lemma LastRoundExpires(bs: seq<BeaconEvent>, routerIp: string, reboots: nat)
    requires reboots + 1 == MAX_ROUNDS
    requires RoundEndAt(bs, routerIp, 0) == Expired
    ensures AwaitReady(bs, routerIp, reboots).readiness == NeverReady
    ensures WaitExplained(bs, routerIp, reboots, NeverReady)
  {
    assert ExpiredBefore(bs, routerIp, 1);
    assert MAX_ROUNDS - reboots == 1;
  }

  /** After an expired round the wait goes on with one reboot more, and its
      round-by-round reading shifts by one round. */
  lemma LaterRound(bs: seq<BeaconEvent>, routerIp: string, reboots: nat, r: Readiness)
    requires reboots + 1 < MAX_ROUNDS
    requires RoundEndAt(bs, routerIp, 0) == Expired
    requires WaitExplained(WaitRound(bs, routerIp, 0).rest, routerIp, reboots + 1, r)
    ensures AwaitReady(bs, routerIp, reboots).readiness == AwaitReady(WaitRound(bs, routerIp, 0).rest, routerIp, reboots + 1).readiness
    ensures WaitExplained(bs, routerIp, reboots, r)
  {
    var rest := WaitRound(bs, routerIp, 0).rest;
    assert RoundEndAt(bs, routerIp, 0) == WaitRound(bs, routerIp, 0).end;
    ShiftAll(bs, routerIp);
    LaterReady(bs, routerIp, reboots, r);
    LaterCrash(bs, routerIp, reboots, r);
  }

  /** Every statement about the rounds from the second on is the same
      statement about the rounds of what the first left over. */
  lemma ShiftAll(bs: seq<BeaconEvent>, routerIp: string)
    requires RoundEndAt(bs, routerIp, 0) == Expired
    ensures forall n: nat :: RoundEndAt(bs, routerIp, n + 1) == RoundEndAt(WaitRound(bs, routerIp, 0).rest, routerIp, n)
    ensures forall n: nat :: ExpiredBefore(bs, routerIp, n + 1) <==> ExpiredBefore(WaitRound(bs, routerIp, 0).rest, routerIp, n)
  {
    forall n: nat
      ensures RoundEndAt(bs, routerIp, n + 1) == RoundEndAt(WaitRound(bs, routerIp, 0).rest, routerIp, n)
      ensures ExpiredBefore(bs, routerIp, n + 1) <==> ExpiredBefore(WaitRound(bs, routerIp, 0).rest, routerIp, n)
    {
      ExpiredShift(bs, routerIp, n);
    }
  }

  lemma LaterReady(bs: seq<BeaconEvent>, routerIp: string, reboots: nat, r: Readiness)
    requires reboots + 1 < MAX_ROUNDS
    requires RoundEndAt(bs, routerIp, 0) == Expired
    requires forall n: nat :: RoundEndAt(bs, routerIp, n + 1) == RoundEndAt(WaitRound(bs, routerIp, 0).rest, routerIp, n)
    requires forall n: nat :: ExpiredBefore(bs, routerIp, n + 1) <==> ExpiredBefore(WaitRound(bs, routerIp, 0).rest, routerIp, n)
    requires WaitExplained(WaitRound(bs, routerIp, 0).rest, routerIp, reboots + 1, r)
    ensures r == NeverReady <==> ExpiredBefore(bs, routerIp, MAX_ROUNDS - reboots)
    ensures forall k: nat :: r == ReadyAfter(k) <==>
      reboots <= k < MAX_ROUNDS && ExpiredBefore(bs, routerIp, k - reboots)
      && RoundEndAt(bs, routerIp, k - reboots) == Announced
  {
    assert MAX_ROUNDS - reboots == (MAX_ROUNDS - (reboots + 1)) + 1;
    forall k: nat
      ensures r == ReadyAfter(k) <==>
        reboots <= k < MAX_ROUNDS && ExpiredBefore(bs, routerIp, k - reboots)
        && RoundEndAt(bs, routerIp, k - reboots) == Announced
    {
      if k != reboots {
        assert k - reboots == (k - (reboots + 1)) + 1;
      }
    }
  }

  lemma LaterCrash(bs: seq<BeaconEvent>, routerIp: string, reboots: nat, r: Readiness)
    requires reboots + 1 < MAX_ROUNDS
    requires RoundEndAt(bs, routerIp, 0) == Expired
    requires forall n: nat :: RoundEndAt(bs, routerIp, n + 1) == RoundEndAt(WaitRound(bs, routerIp, 0).rest, routerIp, n)
    requires forall n: nat :: ExpiredBefore(bs, routerIp, n + 1) <==> ExpiredBefore(WaitRound(bs, routerIp, 0).rest, routerIp, n)
    requires WaitExplained(WaitRound(bs, routerIp, 0).rest, routerIp, reboots + 1, r)
    ensures r == BeaconCrash <==>
      exists j | 0 <= j < MAX_ROUNDS - reboots ::
        ExpiredBefore(bs, routerIp, j) && RoundEndAt(bs, routerIp, j) == BadBeacon
  {
    var rest := WaitRound(bs, routerIp, 0).rest;
    if r == BeaconCrash {
      var j :| 0 <= j < MAX_ROUNDS - (reboots + 1) && ExpiredBefore(rest, routerIp, j) && RoundEndAt(rest, routerIp, j) == BadBeacon;
      assert ExpiredBefore(bs, routerIp, j + 1) && RoundEndAt(bs, routerIp, j + 1) == BadBeacon;
    } else {
      forall j | 0 <= j < MAX_ROUNDS - reboots
        ensures !(ExpiredBefore(bs, routerIp, j) && RoundEndAt(bs, routerIp, j) == BadBeacon)
      {
        if j > 0 {
          var j' := j - 1;
          assert RoundEndAt(bs, routerIp, j' + 1) == RoundEndAt(rest, routerIp, j');
          assert ExpiredBefore(bs, routerIp, j' + 1) <==> ExpiredBefore(rest, routerIp, j');
          assert !(ExpiredBefore(rest, routerIp, j') && RoundEndAt(rest, routerIp, j') == BadBeacon);
        }
      }
    }
  }

  /** Rounds after the first are the rounds of what the first left over. */
  lemma ExpiredShift(bs: seq<BeaconEvent>, routerIp: string, n: nat)
    ensures RoundEndAt(bs, routerIp, n + 1) == RoundEndAt(WaitRound(bs, routerIp, 0).rest, routerIp, n)
    ensures ExpiredBefore(bs, routerIp, n + 1) <==>
      RoundEndAt(bs, routerIp, 0) == Expired && ExpiredBefore(WaitRound(bs, routerIp, 0).rest, routerIp, n)
  {
    var rest := WaitRound(bs, routerIp, 0).rest;
    forall i: nat
      ensures RoundEndAt(bs, routerIp, i + 1) == RoundEndAt(rest, routerIp, i)
    {
      assert RoundInput(bs, routerIp, i + 1) == RoundInput(rest, routerIp, i);
    }
    if RoundEndAt(bs, routerIp, 0) == Expired && ExpiredBefore(rest, routerIp, n) {
      forall i | 0 <= i < n + 1 ensures RoundEndAt(bs, routerIp, i) == Expired {
        if i > 0 {
          assert RoundEndAt(bs, routerIp, (i - 1) + 1) == RoundEndAt(rest, routerIp, i - 1);
        }
      }
    }
    if ExpiredBefore(bs, routerIp, n + 1) {
      forall i | 0 <= i < n ensures RoundEndAt(rest, routerIp, i) == Expired {
        assert RoundEndAt(bs, routerIp, i + 1) == Expired;
      }
    }
  }

  /** A first round that announces or crashes settles the wait at once. */
  lemma FirstRoundDecides(bs: seq<BeaconEvent>, routerIp: string, reboots: nat)
    requires reboots < MAX_ROUNDS
    requires RoundEndAt(bs, routerIp, 0) != Expired
    ensures AwaitReady(bs, routerIp, reboots).readiness ==
      if RoundEndAt(bs, routerIp, 0) == Announced then ReadyAfter(reboots) else BeaconCrash
    ensures WaitExplained(bs, routerIp, reboots, AwaitReady(bs, routerIp, reboots).readiness)
  {
    assert RoundEndAt(bs, routerIp, 0) == WaitRound(bs, routerIp, 0).end;
    forall n: nat | n > 0 ensures !ExpiredBefore(bs, routerIp, n) {
      assert RoundEndAt(bs, routerIp, 0) != Expired;
    }
    assert ExpiredBefore(bs, routerIp, 0);
  }


  // ---------------------------------------------------------------------
  // Pings during the test
  // ---------------------------------------------------------------------

  datatype Monitored = Monitored(alive: bool, pinged: nat, rest: seq<bool>)

  /** `n` seconds of sleeping then pinging, stopping at the first lost ping. */
  function Monitor(pings: seq<bool>, n: nat): (r: Monitored)
    ensures r.pinged <= n
    ensures r.alive ==> r.pinged == n
    ensures !r.alive ==> r.pinged >= 1
    decreases n
  {
    if n == 0 then Monitored(true, 0, pings)
    else if |pings| == 0 then Monitored(false, 1, [])
    else if !pings[0] then Monitored(false, 1, pings[1..])
    else
      var m := Monitor(pings[1..], n - 1);
      Monitored(m.alive, m.pinged + 1, m.rest)
  }

  /** The monitor survives exactly when the first `n` pings are answered,
      and a lost ping is the last one sent. */
  lemma {:induction false} MonitorSurvives(pings: seq<bool>, n: nat)
    ensures Monitor(pings, n).alive <==> n <= |pings| && forall i | 0 <= i < n :: pings[i]
    ensures !Monitor(pings, n).alive ==>
      var k := Monitor(pings, n).pinged - 1;
      k <= |pings| && (k < |pings| ==> !pings[k]) && forall i | 0 <= i < k :: pings[i]
    decreases n
  {
    if n > 0 && |pings| > 0 && pings[0] {
      var tail := pings[1..];
      MonitorSurvives(tail, n - 1);
      assert forall i | 0 <= i < |tail| :: tail[i] == pings[i + 1];
    }
  }

  /** A second of sleep then a ping, `n` times. */
  function PingTrace(n: nat): (tr: seq<Action>)
    ensures |tr| == 2 * n
    ensures forall i | 0 <= i < |tr| :: tr[i] == (if i % 2 == 0 then Sleep(1) else Ping)
  {
    if n == 0 then [] else [Sleep(1), Ping] + PingTrace(n - 1)
  }

  // ---------------------------------------------------------------------
  // One invocation
  // ---------------------------------------------------------------------

  /** Why a recorded line carries code 4. */
  datatype TimeoutReason = StartRetries | PingLost | StopAckLost

  /** A line of the result file, without its clock text and elapsed time. */
  datatype ResultLine = ResultLine(
    seqNo: int, testId: int, ifName: string, address: int, mask: int,
    code: int, retries: nat, reason: Option<TimeoutReason>)

  /** The errors that end the suite: `WrtmTestError`s, which return from
      `executePlan`. */
  datatype FatalReason = InitialPingLost | AckRefused(verdict: Verdict) | RouterNeverReady

  /** Exceptions nothing catches: a missing or non-integer `loadDelay`, a
      field that does not pack, a short acknowledgement or beacon, and an
      error raised by the plan generator. */
  datatype CrashReason = UnreadableDelay | Unpackable | ShortAckData | ShortBeaconData | PlanAborted(error: PlanError)

  datatype Halt = Completed | Fatal(fatal: FatalReason) | Crash(crash: CrashReason)

  /** The line names the invocation. */
  predicate Describes(line: ResultLine, t: Invocation) {
    line.seqNo == t.seqNo && line.testId == t.testId && line.ifName == t.ifName
    && line.address == t.address && line.mask == t.mask
  }

  function Line(t: Invocation, code: int, retries: nat, reason: Option<TimeoutReason>): (l: ResultLine)
    ensures Describes(l, t)
  {
    ResultLine(t.seqNo, t.testId, t.ifName, t.address, t.mask, code, retries, reason)
  }

  /** `_startLoadStreams`, `_stopLoadStreams` and `shutdownN2X` of the
      engine, each a no-op on an uninitialised instrument. */
  function StartLoad(cfg: Config): seq<Action> {
    if cfg.loadEnabled then [Instr(StartCapture), Instr(StartTest)] else []
  }

  function StopLoad(cfg: Config): seq<Action> {
    if cfg.loadEnabled then [Instr(StopTest), Instr(StopCapture)] else []
  }

  function ShutdownCommands(cfg: Config): seq<Action> {
    if cfg.loadEnabled then [Instr(CloseSession), Instr(DisconnectFromProxy)] else []
  }

  /** `int(loadDelay)`; `None` for a missing option or a non-integer. */
  function ParseDelay(loadDelay: Option<string>): Option<int> {
    match loadDelay
    case None => None
    case Some(text) => ParseInt(text)
  }

  function TakePing(env: Env): (bool, Env) {
    if |env.pings| == 0 then (false, env) else (env.pings[0], env.(pings := env.pings[1..]))
  }

  /** The actions the load delay puts before the start packet, and after
      its acknowledgement. */
  function LoadFirst(cfg: Config, delay: int): seq<Action> {
    if delay < 0 then StartLoad(cfg) + [Sleep(-delay)] else []
  }

  function LoadAfter(cfg: Config, delay: int): seq<Action> {
    if delay < 0 then [] else [Sleep(delay)] + StartLoad(cfg)
  }

  datatype AttemptEnd = Confirmed | Unanswered | AttemptHalted(halt: Halt)

  datatype Attempt = Attempt(end: AttemptEnd, trace: seq<Action>, env: Env)

  /** One pass of the retry loop: ping, then start the load and send the
      start packet in the order the load delay asks for. */
  function StartAttempt(t: Invocation, cfg: Config, env: Env): (a: Attempt)
    ensures |a.trace| > 0 && a.trace[0] == Ping
    ensures a.end.AttemptHalted? ==> !a.end.halt.Completed?
    ensures Instr(StopTest) !in a.trace
    ensures a.env.beacons == env.beacons
  {
    var (alive, env1) := TakePing(env);
    if !alive then Attempt(AttemptHalted(Fatal(InitialPingLost)), [Ping] + ShutdownCommands(cfg), env1)
    else match ParseDelay(cfg.loadDelay)
      case None => Attempt(AttemptHalted(Crash(UnreadableDelay)), [Ping], env1)
      case Some(delay) =>
        match EncodeTest(t, false)
        case None => Attempt(AttemptHalted(Crash(Unpackable)), [Ping] + LoadFirst(cfg, delay), env1)
        case Some(packet) =>
          var x := Exchange(env1.acks, t.testId, 0);
          var env2 := env1.(acks := x.rest);
          var sent := [Ping] + LoadFirst(cfg, delay) + [Send(packet)];
          match x.outcome
          case Acked(_) => Attempt(Confirmed, sent + LoadAfter(cfg, delay), env2)
          case Refused(v) => Attempt(AttemptHalted(Fatal(AckRefused(v))), sent, env2)
          case Garbled => Attempt(AttemptHalted(Crash(ShortAckData)), sent, env2)
          case TimedOut => Attempt(Unanswered, sent, env2)
  }

  /** The attempt reaches the send: the ping is answered, the delay reads
      as an integer and the packet packs. */
  predicate Sends(t: Invocation, cfg: Config, env: Env) {
    TakePing(env).0 && ParseDelay(cfg.loadDelay).Some? && EncodeTest(t, false).Some?
  }

  /** The shape of an attempt that sends: the load-delay actions around the
      one send; an attempt that does not send sends nothing. */
  lemma AttemptShape(t: Invocation, cfg: Config, env: Env)
    ensures var a := StartAttempt(t, cfg, env);
      Sends(t, cfg, env) ==>
        var d := ParseDelay(cfg.loadDelay).value;
        a.trace == [Ping] + LoadFirst(cfg, d) + [Send(EncodeTest(t, false).value)]
                   + (if a.end == Confirmed then LoadAfter(cfg, d) else [])
    ensures var a := StartAttempt(t, cfg, env);
      !Sends(t, cfg, env) ==> a.end.AttemptHalted? && forall i | 0 <= i < |a.trace| :: !a.trace[i].Send?
    ensures var a := StartAttempt(t, cfg, env);
      !Sends(t, cfg, env) ==>
        a.trace == [Ping] + (if !TakePing(env).0 then ShutdownCommands(cfg)
                             else if ParseDelay(cfg.loadDelay).None? then []
                             else LoadFirst(cfg, ParseDelay(cfg.loadDelay).value))
  {
    var a := StartAttempt(t, cfg, env);
    if Sends(t, cfg, env) && a.end != Confirmed {
      var d := ParseDelay(cfg.loadDelay).value;
      var sent := [Ping] + LoadFirst(cfg, d) + [Send(EncodeTest(t, false).value)];
      assert sent + [] == sent;
    }
  }

  datatype StartEnd = Started(retries: nat) | Exhausted | StartHalted(halt: Halt)

  datatype Phase = Phase(end: StartEnd, trace: seq<Action>, env: Env)

  /** One attempt of the retry loop, as the loop sees it. */
  type Attempter = Env -> Attempt

  /** The retry loop over any attempt: a timed-out attempt is retried, up to
      three attempts; the third timeout is recorded, not fatal. */
  function Retry(attempt: Attempter, env: Env, retries: nat): (p: Phase)
    requires retries < MAX_RETRIES
    ensures p.end.Started? ==> retries <= p.end.retries < MAX_RETRIES
    decreases MAX_RETRIES - retries
  {
    var a := attempt(env);
    match a.end
    case Confirmed => Phase(Started(retries), a.trace, a.env)
    case AttemptHalted(h) => Phase(StartHalted(h), a.trace, a.env)
    case Unanswered =>
      if retries + 1 == MAX_RETRIES then Phase(Exhausted, a.trace, a.env)
      else
        var next := Retry(attempt, a.env, retries + 1);
        Phase(next.end, a.trace + next.trace, next.env)
  }

  function Attempts(t: Invocation, cfg: Config): Attempter {
    e => StartAttempt(t, cfg, e)
  }

  /** What every attempt of the engine guarantees. */
  ghost predicate Attempting(attempt: Attempter) {
    forall e :: |attempt(e).trace| > 0 && attempt(e).trace[0] == Ping
      && (attempt(e).end.AttemptHalted? ==> !attempt(e).end.halt.Completed?)
      && Instr(StopTest) !in attempt(e).trace
      && attempt(e).env.beacons == e.beacons
  }

  lemma {:induction false} RetryKeeps(attempt: Attempter, env: Env, retries: nat)
    requires retries < MAX_RETRIES && Attempting(attempt)
    ensures var p := Retry(attempt, env, retries);
      |p.trace| > 0 && p.trace[0] == Ping
      && (p.end.StartHalted? ==> !p.end.halt.Completed?)
      && Instr(StopTest) !in p.trace
      && p.env.beacons == env.beacons
    decreases MAX_RETRIES - retries
  {
    var a := attempt(env);
    if a.end == Unanswered && retries + 1 < MAX_RETRIES {
      RetryKeeps(attempt, a.env, retries + 1);
    }
  }

  /** The start phase of one invocation. */
  function StartPhase(t: Invocation, cfg: Config, env: Env, retries: nat): (p: Phase)
    requires retries < MAX_RETRIES
    ensures |p.trace| > 0 && p.trace[0] == Ping
    ensures p.end.Started? ==> retries <= p.end.retries < MAX_RETRIES
    ensures p.end.StartHalted? ==> !p.end.halt.Completed?
    ensures Instr(StopTest) !in p.trace
    ensures p.env.beacons == env.beacons
  {
    assert Attempting(Attempts(t, cfg)) by {
      forall e
        ensures var a := Attempts(t, cfg)(e);
          |a.trace| > 0 && a.trace[0] == Ping && (a.end.AttemptHalted? ==> !a.end.halt.Completed?)
          && Instr(StopTest) !in a.trace && a.env.beacons == e.beacons
      {
        var a := StartAttempt(t, cfg, e);
      }
    }
    RetryKeeps(Attempts(t, cfg), env, retries);
    Retry(Attempts(t, cfg), env, retries)
  }

  /** How many one-second pings the monitor sends during a test: its
      duration, and none for a negative one, as an empty `range` gives. */
  function PingCount(t: Invocation): nat {
    if t.duration < 0 then 0 else t.duration
  }

  datatype Step = Step(line: Option<ResultLine>, trace: seq<Action>, halt: Option<Halt>, env: Env)

  /** One iteration of the test loop: start, monitor, stop, record, then wait
      for the router. `None` as the halt lets the suite go on. */
  function RunInvocation(t: Invocation, cfg: Config, env: Env): (r: Step)
    ensures |r.trace| > 0 && r.trace[0] == Ping
    ensures r.halt.None? ==> r.line.Some?
    ensures r.halt.Some? ==> !r.halt.value.Completed?
    ensures r.line.Some? ==> Describes(r.line.value, t)
    ensures r.line.Some? ==> (r.line.value.code == ERR_OK <==> r.line.value.reason.None?)
    ensures r.line.Some? ==> r.line.value.code in {ERR_OK, ERR_RCV_TIMEOUT}
    ensures r.line.Some? && r.line.value.code == ERR_RCV_TIMEOUT ==> r.halt.None?
    ensures r.line.Some? ==> (r.line.value.retries == MAX_RETRIES <==> r.line.value.reason == Some(StartRetries))
  {
    var sp := StartPhase(t, cfg, env, 0);
    match sp.end
    case StartHalted(h) => Step(None, sp.trace, Some(h), sp.env)
    case Exhausted => Step(Some(Line(t, ERR_RCV_TIMEOUT, MAX_RETRIES, Some(StartRetries))), sp.trace, None, sp.env)
    case Started(retries) =>
      var m := Monitor(sp.env.pings, PingCount(t));
      var env1 := sp.env.(pings := m.rest);
      var tr1 := sp.trace + PingTrace(m.pinged);
      if !m.alive then
        Step(Some(Line(t, ERR_RCV_TIMEOUT, retries, Some(PingLost))), tr1 + ShutdownCommands(cfg), None, env1)
      else match EncodeTest(t, true)
        case None => Step(None, tr1, Some(Crash(Unpackable)), env1)
        case Some(packet) =>
          var x := Exchange(env1.acks, t.testId, 0);
          var env2 := env1.(acks := x.rest);
          var tr2 := tr1 + [Send(packet)];
          match x.outcome
          case TimedOut => Step(Some(Line(t, ERR_RCV_TIMEOUT, retries, Some(StopAckLost))), tr2, None, env2)
          case Refused(v) => Step(None, tr2, Some(Fatal(AckRefused(v))), env2)
          case Garbled => Step(None, tr2, Some(Crash(ShortAckData)), env2)
          case Acked(_) =>
            var line := Line(t, ERR_OK, retries, None);
            var tr3 := tr2 + StopLoad(cfg);
            var w := AwaitReady(env2.beacons, cfg.routerIp, 0);
            var env3 := env2.(beacons := w.rest);
            match w.readiness
            case ReadyAfter(_) =>
              Step(Some(line), tr3 + (if t.seqNo < cfg.caseCount then [Sleep(RESUME_PAUSE)] else []), None, env3)
            case NeverReady => Step(Some(line), tr3, Some(Fatal(RouterNeverReady)), env3)
            case BeaconCrash => Step(Some(line), tr3, Some(Crash(ShortBeaconData)), env3)
  }

  // ---------------------------------------------------------------------
  // The suite
  // ---------------------------------------------------------------------

  datatype Run = Run(results: seq<ResultLine>, trace: seq<Action>, halt: Halt, env: Env)

  /** What one invocation does, as the test loop sees it. */
  type Stepper = (Invocation, Env) -> Step

  /** A stepper whose every invocation either stops the suite or records a
      line naming it. */
  ghost predicate Recording(step: Stepper) {
    forall t, e :: (step(t, e).halt.None? ==> step(t, e).line.Some?)
                   && step(t, e).halt != Some(Completed)
                   && (step(t, e).line.Some? ==> Describes(step(t, e).line.value, t))
  }

  /** The test loop, over any stepper. */
  function RunSteps(step: Stepper, tests: seq<Invocation>, env: Env): (r: Run)
    ensures |r.results| <= |tests|
    decreases |tests|
  {
    if |tests| == 0 then Run([], [], Completed, env)
    else
      var s := step(tests[0], env);
      var lines := if s.line.Some? then [s.line.value] else [];
      if s.halt.Some? then Run(lines, s.trace, s.halt.value, s.env)
      else
        var rest := RunSteps(step, tests[1..], s.env);
        Run(lines + rest.results, s.trace + rest.trace, rest.halt, rest.env)
  }

  function Invocations(cfg: Config): (step: Stepper)
    ensures Recording(step)
  {
    (t, e) => RunInvocation(t, cfg, e)
  }

  /** The test loop over the generated records. */
  function RunAll(tests: seq<Invocation>, cfg: Config, env: Env): (r: Run)
    ensures |r.results| <= |tests|
    ensures r.halt == Completed ==> |r.results| == |tests|
    ensures forall i | 0 <= i < |r.results| :: Describes(r.results[i], tests[i])
  {
    StepsInOrder(Invocations(cfg), tests, env);
    RunSteps(Invocations(cfg), tests, env)
  }

  /** A recording stepper yields one line per record, in order, until the
      suite stops, and one for each record when it completes. */
  lemma {:induction false} StepsInOrder(step: Stepper, tests: seq<Invocation>, env: Env)
    requires Recording(step)
    ensures var r := RunSteps(step, tests, env);
      (r.halt == Completed ==> |r.results| == |tests|)
      && forall i | 0 <= i < |r.results| :: Describes(r.results[i], tests[i])
    decreases |tests|
  {
    if |tests| > 0 {
      var s := step(tests[0], env);
      if s.halt.None? {
        StepsInOrder(step, tests[1..], s.env);
        var rest := RunSteps(step, tests[1..], s.env);
        var r := RunSteps(step, tests, env);
        assert r.results == [s.line.value] + rest.results;
        forall i | 0 < i < |r.results|
          ensures Describes(r.results[i], tests[i])
        {
          assert r.results[i] == rest.results[i - 1];
          assert tests[i] == tests[1..][i - 1];
        }
      }
    }
  }

  lemma {:induction false} StepsHaltIgnoresLater(step: Stepper, tests: seq<Invocation>, more: seq<Invocation>, env: Env)
    requires Recording(step)
    requires RunSteps(step, tests, env).halt != Completed
    ensures RunSteps(step, tests + more, env) == RunSteps(step, tests, env)
    decreases |tests|
  {
    assert (tests + more)[0] == tests[0];
    assert (tests + more)[1..] == tests[1..] + more;
    var s := step(tests[0], env);
    if s.halt.None? {
      StepsHaltIgnoresLater(step, tests[1..], more, s.env);
    }
  }

  lemma {:induction false} StepsAppend(step: Stepper, tests: seq<Invocation>, more: seq<Invocation>, env: Env)
    requires Recording(step)
    requires RunSteps(step, tests, env).halt == Completed
    ensures var a := RunSteps(step, tests, env);
      var b := RunSteps(step, more, a.env);
      RunSteps(step, tests + more, env) == Run(a.results + b.results, a.trace + b.trace, b.halt, b.env)
    decreases |tests|
  {
    if |tests| == 0 {
      assert tests + more == more;
      return;
    }
    var s := step(tests[0], env);
    var lines := if s.line.Some? then [s.line.value] else [];
    assert s.halt.None? by {
      assert step(tests[0], env).halt != Some(Completed);
    }
    var a' := RunSteps(step, tests[1..], s.env);
    assert RunSteps(step, tests, env) == Run(lines + a'.results, s.trace + a'.trace, a'.halt, a'.env) by {
      StepsCons(step, tests, env);
    }
    var b := RunSteps(step, more, a'.env);
    assert RunSteps(step, tests + more, env)
      == Run(lines + (a'.results + b.results), s.trace + (a'.trace + b.trace), b.halt, b.env) by {
      assert (tests + more)[0] == tests[0];
      assert (tests + more)[1..] == tests[1..] + more;
      StepsCons(step, tests + more, env);
      StepsAppend(step, tests[1..], more, s.env);
    }
    assert lines + (a'.results + b.results) == (lines + a'.results) + b.results;
    assert s.trace + (a'.trace + b.trace) == (s.trace + a'.trace) + b.trace;
  }

  /** One step of the loop when the first test does not halt it. */
  lemma StepsCons(step: Stepper, tests: seq<Invocation>, env: Env)
    requires |tests| > 0 && step(tests[0], env).halt.None?
    ensures var s := step(tests[0], env);
      var rest := RunSteps(step, tests[1..], s.env);
      RunSteps(step, tests, env)
        == Run((if s.line.Some? then [s.line.value] else []) + rest.results, s.trace + rest.trace, rest.halt, rest.env)
  {
  }

  /** `executePlan`: the generator's records run one by one, and an error
      the generator raises surfaces once the records before it have run. */
  function ExecutePlan(plan: Compiled, cfg: Config, env: Env): (r: Run)
    ensures r.halt == Completed ==> plan.error.None? && |r.results| == |plan.records|
    ensures plan.error.Some? && RunAll(plan.records, cfg, env).halt == Completed ==>
      r.halt == Crash(PlanAborted(plan.error.value)) && |r.results| == |plan.records|
  {
    var run := RunAll(plan.records, cfg, env);
    if run.halt == Completed && plan.error.Some? then run.(halt := Crash(PlanAborted(plan.error.value)))
    else run
  }

  // ---------------------------------------------------------------------
  // Properties of the engine
  // ---------------------------------------------------------------------

  function CountSends(tr: seq<Action>): nat
    decreases |tr|
  {
    if |tr| == 0 then 0 else (if tr[0].Send? then 1 else 0) + CountSends(tr[1..])
  }

  lemma {:induction false} CountSendsAppend(a: seq<Action>, b: seq<Action>)
    ensures CountSends(a + b) == CountSends(a) + CountSends(b)
    decreases |a|
  {
    if |a| > 0 {
      assert (a + b)[0] == a[0];
      assert (a + b)[1..] == a[1..] + b;
      CountSendsAppend(a[1..], b);
    } else {
      assert a + b == b;
    }
  }

  lemma {:induction false} RetrySends(attempt: Attempter, env: Env, retries: nat)
    requires retries < MAX_RETRIES
    requires forall e :: CountSends(attempt(e).trace) <= 1
    requires forall e :: attempt(e).end == Unanswered ==> CountSends(attempt(e).trace) == 1
    ensures CountSends(Retry(attempt, env, retries).trace) <= MAX_RETRIES - retries
    ensures Retry(attempt, env, retries).end == Exhausted ==>
      CountSends(Retry(attempt, env, retries).trace) == MAX_RETRIES - retries
    decreases MAX_RETRIES - retries
  {
    var a := attempt(env);
    if a.end == Unanswered && retries + 1 < MAX_RETRIES {
      var next := Retry(attempt, a.env, retries + 1);
      RetrySends(attempt, a.env, retries + 1);
      CountSendsAppend(a.trace, next.trace);
    }
  }

  /** The start packet is sent at most three times per invocation, and
      exactly three times when the attempts run out. */
  lemma StartAttempts(t: Invocation, cfg: Config, env: Env)
    ensures CountSends(StartPhase(t, cfg, env, 0).trace) <= MAX_RETRIES
    ensures StartPhase(t, cfg, env, 0).end == Exhausted ==>
      CountSends(StartPhase(t, cfg, env, 0).trace) == MAX_RETRIES
  {
    forall e
      ensures CountSends(Attempts(t, cfg)(e).trace) <= 1
      ensures Attempts(t, cfg)(e).end == Unanswered ==> CountSends(Attempts(t, cfg)(e).trace) == 1
    {
      AttemptSends(t, cfg, e);
    }
    RetrySends(Attempts(t, cfg), env, 0);
  }

  /** One attempt sends the start packet once if it gets that far, and an
      unanswered attempt always got that far. */
  lemma AttemptSends(t: Invocation, cfg: Config, env: Env)
    ensures CountSends(StartAttempt(t, cfg, env).trace) == if Sends(t, cfg, env) then 1 else 0
    ensures StartAttempt(t, cfg, env).end == Unanswered ==> Sends(t, cfg, env)
  {
    var a := StartAttempt(t, cfg, env);
    AttemptShape(t, cfg, env);
    if Sends(t, cfg, env) {
      var d := ParseDelay(cfg.loadDelay).value;
      var first := [Ping] + LoadFirst(cfg, d);
      var after := if a.end == Confirmed then LoadAfter(cfg, d) else [];
      NoSendsCounted(first);
      NoSendsCounted(after);
      CountSendsAppend(first, [Send(EncodeTest(t, false).value)]);
      CountSendsAppend(first + [Send(EncodeTest(t, false).value)], after);
    } else {
      NoSendsCounted(a.trace);
    }
  }

  lemma {:induction false} NoSendsCounted(tr: seq<Action>)
    requires forall i | 0 <= i < |tr| :: !tr[i].Send?
    ensures CountSends(tr) == 0
    decreases |tr|
  {
    if |tr| > 0 {
      NoSendsCounted(tr[1..]);
    }
  }

  /** The action at `i` comes right after a pause of `pause` ticks and, on
      an initialised instrument, right after the load start. */
  predicate PrecededAt(tr: seq<Action>, i: nat, cfg: Config, pause: nat) {
    i >= 1 && i <= |tr| && tr[i - 1] == Sleep(pause)
    && (cfg.loadEnabled ==> i >= 3 && tr[i - 3] == Instr(StartCapture) && tr[i - 2] == Instr(StartTest))
  }

  /** Every send in the trace is preceded by the load start and the pause. */
  predicate LoadPrecedesSends(tr: seq<Action>, cfg: Config, pause: nat) {
    forall i | 0 <= i < |tr| && tr[i].Send? :: PrecededAt(tr, i, cfg, pause)
  }

  lemma PrecededShift(a: seq<Action>, b: seq<Action>, k: nat, cfg: Config, pause: nat)
    requires k < |b| && PrecededAt(b, k, cfg, pause)
    ensures PrecededAt(a + b, |a| + k, cfg, pause)
  {
    var tr := a + b;
    assert tr[|a| + k - 1] == b[k - 1];
    if cfg.loadEnabled {
      assert tr[|a| + k - 3] == b[k - 3];
      assert tr[|a| + k - 2] == b[k - 2];
    }
  }

  lemma PrecededPrefix(a: seq<Action>, b: seq<Action>, i: nat, cfg: Config, pause: nat)
    requires i < |a| && PrecededAt(a, i, cfg, pause)
    ensures PrecededAt(a + b, i, cfg, pause)
  {
    var tr := a + b;
    assert tr[i - 1] == a[i - 1];
    if cfg.loadEnabled {
      assert tr[i - 3] == a[i - 3];
      assert tr[i - 2] == a[i - 2];
    }
  }

  lemma PrecedesAppend(a: seq<Action>, b: seq<Action>, cfg: Config, pause: nat)
    requires LoadPrecedesSends(a, cfg, pause) && LoadPrecedesSends(b, cfg, pause)
    ensures LoadPrecedesSends(a + b, cfg, pause)
  {
    var tr := a + b;
    forall i | 0 <= i < |tr| && tr[i].Send?
      ensures PrecededAt(tr, i, cfg, pause)
    {
      if i >= |a| {
        assert tr[i] == b[i - |a|];
        PrecededShift(a, b, i - |a|, cfg, pause);
      } else {
        assert tr[i] == a[i];
        PrecededPrefix(a, b, i, cfg, pause);
      }
    }
  }

  lemma {:induction false} RetryPrecedes(attempt: Attempter, env: Env, retries: nat, cfg: Config, pause: nat)
    requires retries < MAX_RETRIES
    requires forall e :: LoadPrecedesSends(attempt(e).trace, cfg, pause)
    ensures LoadPrecedesSends(Retry(attempt, env, retries).trace, cfg, pause)
    decreases MAX_RETRIES - retries
  {
    var a := attempt(env);
    if a.end == Unanswered && retries + 1 < MAX_RETRIES {
      var next := Retry(attempt, a.env, retries + 1);
      RetryPrecedes(attempt, a.env, retries + 1, cfg, pause);
      PrecedesAppend(a.trace, next.trace, cfg, pause);
    }
  }

  /** With a negative load delay the load streams are started, and the
      engine waits out the delay, before every send of the start packet. */
  lemma LoadBeforeEachSend(t: Invocation, cfg: Config, env: Env, d: int)
    requires ParseDelay(cfg.loadDelay) == Some(d) && d < 0
    ensures LoadPrecedesSends(StartPhase(t, cfg, env, 0).trace, cfg, -d)
  {
    AllAttemptsPrecede(t, cfg, d);
    RetryPrecedes(Attempts(t, cfg), env, 0, cfg, -d);
  }

  lemma AllAttemptsPrecede(t: Invocation, cfg: Config, d: int)
    requires ParseDelay(cfg.loadDelay) == Some(d) && d < 0
    ensures forall e :: LoadPrecedesSends(Attempts(t, cfg)(e).trace, cfg, -d)
  {
    forall e
      ensures LoadPrecedesSends(Attempts(t, cfg)(e).trace, cfg, -d)
    {
      AttemptPrecedes(t, cfg, e, d);
    }
  }

  lemma AttemptPrecedes(t: Invocation, cfg: Config, env: Env, d: int)
    requires ParseDelay(cfg.loadDelay) == Some(d) && d < 0
    ensures LoadPrecedesSends(StartAttempt(t, cfg, env).trace, cfg, -d)
  {
    var tr := StartAttempt(t, cfg, env).trace;
    if Sends(t, cfg, env) {
      var packet := EncodeTest(t, false).value;
      assert tr == [Ping] + StartLoad(cfg) + [Sleep(-d)] + [Send(packet)] by {
        AttemptShape(t, cfg, env);
      }
      LoadThenSend(cfg, -d, packet);
    } else {
      assert forall i | 0 <= i < |tr| :: !tr[i].Send? by {
        AttemptShape(t, cfg, env);
      }
    }
  }

  /** A ping, the load start, the pause and one send: the send is preceded. */
  lemma LoadThenSend(cfg: Config, pause: nat, packet: seq<byte>)
    ensures LoadPrecedesSends([Ping] + StartLoad(cfg) + [Sleep(pause)] + [Send(packet)], cfg, pause)
  {
    var tr := [Ping] + StartLoad(cfg) + [Sleep(pause)] + [Send(packet)];
    var k := |tr| - 1;
    assert forall i | 0 <= i < |tr| && tr[i].Send? :: i == k;
    assert PrecededAt(tr, k, cfg, pause);
  }

  /** The load streams are started only by a confirmed attempt, and then at
      its end, right after the packet and the pause. */
  predicate LoadOnAck(a: Attempt, cfg: Config, pause: nat, packet: seq<byte>) {
    (Instr(StartCapture) in a.trace || Instr(StartTest) in a.trace ==> a.end == Confirmed)
    && (a.end == Confirmed ==>
          |a.trace| >= 2 + |StartLoad(cfg)|
          && a.trace[|a.trace| - 2 - |StartLoad(cfg)|..] == [Send(packet), Sleep(pause)] + StartLoad(cfg))
  }

  lemma {:induction false} RetryLoadOnAck(attempt: Attempter, env: Env, retries: nat, cfg: Config, pause: nat, packet: seq<byte>)
    requires retries < MAX_RETRIES
    requires forall e :: LoadOnAck(attempt(e), cfg, pause, packet)
    ensures var p := Retry(attempt, env, retries);
      (Instr(StartCapture) in p.trace || Instr(StartTest) in p.trace ==> p.end.Started?)
      && (p.end.Started? ==>
            |p.trace| >= 2 + |StartLoad(cfg)|
            && p.trace[|p.trace| - 2 - |StartLoad(cfg)|..] == [Send(packet), Sleep(pause)] + StartLoad(cfg))
    decreases MAX_RETRIES - retries
  {
    var a := attempt(env);
    assert LoadOnAck(a, cfg, pause, packet);
    if a.end == Unanswered && retries + 1 < MAX_RETRIES {
      var next := Retry(attempt, a.env, retries + 1);
      assert Retry(attempt, env, retries) == Phase(next.end, a.trace + next.trace, next.env);
      RetryLoadOnAck(attempt, a.env, retries + 1, cfg, pause, packet);
      if next.end.Started? {
        SuffixAppend(a.trace, next.trace, 2 + |StartLoad(cfg)|);
      }
    }
  }

  /** The last `n` elements of a concatenation whose second part has at
      least `n` are the last `n` of that part. */
  lemma SuffixAppend<T>(a: seq<T>, b: seq<T>, n: nat)
    requires n <= |b|
    ensures (a + b)[|a + b| - n..] == b[|b| - n..]
  {
    assert (a + b)[|a|..] == b;
  }

  /** With a load delay of zero or more the load streams start only once
      the start packet is acknowledged, and then right after the delay. */
  lemma LoadAfterAck(t: Invocation, cfg: Config, env: Env, d: int)
    requires ParseDelay(cfg.loadDelay) == Some(d) && d >= 0
    ensures var p := StartPhase(t, cfg, env, 0);
      Instr(StartCapture) in p.trace || Instr(StartTest) in p.trace ==> p.end.Started?
    ensures var p := StartPhase(t, cfg, env, 0);
      p.end.Started? ==>
        EncodeTest(t, false).Some? && |p.trace| >= 2 + |StartLoad(cfg)|
        && p.trace[|p.trace| - 2 - |StartLoad(cfg)|..] == [Send(EncodeTest(t, false).value), Sleep(d)] + StartLoad(cfg)
  {
    var packet := if EncodeTest(t, false).Some? then EncodeTest(t, false).value else [];
    forall e
      ensures LoadOnAck(Attempts(t, cfg)(e), cfg, d, packet)
    {
      AttemptLoadOnAck(t, cfg, e, d, packet);
    }
    RetryLoadOnAck(Attempts(t, cfg), env, 0, cfg, d, packet);
    var p := StartPhase(t, cfg, env, 0);
    if p.end.Started? {
      StartedSends(t, cfg, env);
    }
  }

  lemma AttemptLoadOnAck(t: Invocation, cfg: Config, env: Env, d: int, packet: seq<byte>)
    requires ParseDelay(cfg.loadDelay) == Some(d) && d >= 0
    requires EncodeTest(t, false).Some? ==> packet == EncodeTest(t, false).value
    ensures LoadOnAck(StartAttempt(t, cfg, env), cfg, d, packet)
  {
    var a := StartAttempt(t, cfg, env);
    assert LoadFirst(cfg, d) == [];
    assert [Ping] + [] == [Ping];
    assert !a.end.AttemptHalted? || a.trace == [Ping] + ShutdownCommands(cfg)
           || a.trace == [Ping] + [Send(packet)] || a.trace == [Ping] by {
      AttemptShape(t, cfg, env);
    }
    assert a.end == Confirmed || a.end == Unanswered ==>
      a.trace == [Ping] + [Send(packet)] + (if a.end == Confirmed then LoadAfter(cfg, d) else []) by {
      AttemptShape(t, cfg, env);
      assert [Ping] + [] + [Send(packet)] == [Ping] + [Send(packet)];
    }
    ShapeLoadOnAck(a, cfg, d, packet);
  }

  /** An attempt shaped as a delay of zero or more leaves it starts the
      load only after an acknowledgement, right after the send and the
      pause. */
  lemma ShapeLoadOnAck(a: Attempt, cfg: Config, d: nat, packet: seq<byte>)
    requires !a.end.AttemptHalted? || a.trace == [Ping] + ShutdownCommands(cfg)
             || a.trace == [Ping] + [Send(packet)] || a.trace == [Ping]
    requires a.end == Confirmed || a.end == Unanswered ==>
      a.trace == [Ping] + [Send(packet)] + (if a.end == Confirmed then LoadAfter(cfg, d) else [])
    ensures LoadOnAck(a, cfg, d, packet)
  {
    if a.end == Confirmed {
      var tail := [Sleep(d)] + StartLoad(cfg);
      assert a.trace == [Ping] + [Send(packet)] + tail;
      assert a.trace[|a.trace| - 2 - |StartLoad(cfg)|..] == [Send(packet)] + tail;
    }
  }

  /** A start phase that ends started had an attempt that sent the packet. */
  lemma StartedSends(t: Invocation, cfg: Config, env: Env)
    requires StartPhase(t, cfg, env, 0).end.Started?
    ensures EncodeTest(t, false).Some?
  {
    forall e
      ensures Attempts(t, cfg)(e).end == Confirmed ==> EncodeTest(t, false).Some?
    {
      AttemptShape(t, cfg, e);
    }
    RetryConfirms(Attempts(t, cfg), env, 0, EncodeTest(t, false).Some?);
  }

  lemma {:induction false} RetryConfirms(attempt: Attempter, env: Env, retries: nat, fact: bool)
    requires retries < MAX_RETRIES
    requires forall e :: attempt(e).end == Confirmed ==> fact
    ensures Retry(attempt, env, retries).end.Started? ==> fact
    decreases MAX_RETRIES - retries
  {
    var a := attempt(env);
    if a.end == Unanswered && retries + 1 < MAX_RETRIES {
      RetryConfirms(attempt, a.env, retries + 1, fact);
    }
  }

  /** An initial ping that goes unanswered ends the suite without a result
      line, after closing the instrument session. */
  lemma InitialPingLostIsFatal(t: Invocation, cfg: Config, env: Env)
    requires |env.pings| == 0 || !env.pings[0]
    ensures RunInvocation(t, cfg, env).line.None?
    ensures RunInvocation(t, cfg, env).halt == Some(Fatal(InitialPingLost))
    ensures RunInvocation(t, cfg, env).trace == [Ping] + ShutdownCommands(cfg)
  {
  }

  /** A timed-out stop acknowledgement records a code-4 line but neither
      stops the load streams nor waits for the router: no beacon is read. */
  lemma StopAckLostSkipsStop(t: Invocation, cfg: Config, env: Env)
    requires RunInvocation(t, cfg, env).line.Some?
    requires RunInvocation(t, cfg, env).line.value.reason == Some(StopAckLost)
    ensures Instr(StopTest) !in RunInvocation(t, cfg, env).trace
    ensures RunInvocation(t, cfg, env).env.beacons == env.beacons
    ensures RunInvocation(t, cfg, env).halt.None?
  {
    var sp := StartPhase(t, cfg, env, 0);
    var m := Monitor(sp.env.pings, PingCount(t));
    StopAckLostShape(t, cfg, env);
    var tr := sp.trace + PingTrace(m.pinged) + [Send(EncodeTest(t, true).value)];
    assert Instr(StopTest) !in tr by {
      assert Instr(StopTest) !in PingTrace(m.pinged);
    }
  }

  /** Where a timed-out stop acknowledgement leaves the invocation: after
      the start phase, the pings and the stop packet, with no beacon read. */
  lemma StopAckLostShape(t: Invocation, cfg: Config, env: Env)
    requires RunInvocation(t, cfg, env).line.Some?
    requires RunInvocation(t, cfg, env).line.value.reason == Some(StopAckLost)
    ensures var sp := StartPhase(t, cfg, env, 0);
      var m := Monitor(sp.env.pings, PingCount(t));
      var r := RunInvocation(t, cfg, env);
      EncodeTest(t, true).Some?
      && r.trace == sp.trace + PingTrace(m.pinged) + [Send(EncodeTest(t, true).value)]
      && r.env.beacons == sp.env.beacons && r.halt.None?
  {
  }

  /** A completed stop exchange stops the load streams before the line is
      kept, whatever the readiness wait then does. */
  lemma StopAckedStopsLoad(t: Invocation, cfg: Config, env: Env)
    requires cfg.loadEnabled
    requires RunInvocation(t, cfg, env).line.Some?
    requires RunInvocation(t, cfg, env).line.value.code == ERR_OK
    ensures Instr(StopTest) in RunInvocation(t, cfg, env).trace
    ensures Instr(StopCapture) in RunInvocation(t, cfg, env).trace
  {
    var sp := StartPhase(t, cfg, env, 0);
    var m := Monitor(sp.env.pings, PingCount(t));
    StopAckedShape(t, cfg, env);
    var tr2 := sp.trace + PingTrace(m.pinged) + [Send(EncodeTest(t, true).value)];
    var tr3 := tr2 + StopLoad(cfg);
    var tr := RunInvocation(t, cfg, env).trace;
    assert tr3[|tr2|] == Instr(StopTest) && tr3[|tr2| + 1] == Instr(StopCapture);
    assert tr[|tr2|] == tr3[|tr2|] && tr[|tr2| + 1] == tr3[|tr2| + 1];
  }

  /** A completed stop exchange leaves a trace that begins with the start
      phase, the pings, the stop packet and the load stop. */
  lemma StopAckedShape(t: Invocation, cfg: Config, env: Env)
    requires RunInvocation(t, cfg, env).line.Some?
    requires RunInvocation(t, cfg, env).line.value.code == ERR_OK
    ensures var sp := StartPhase(t, cfg, env, 0);
      var m := Monitor(sp.env.pings, PingCount(t));
      var r := RunInvocation(t, cfg, env);
      EncodeTest(t, true).Some?
      && var tr3 := sp.trace + PingTrace(m.pinged) + [Send(EncodeTest(t, true).value)] + StopLoad(cfg);
      |tr3| <= |r.trace| && r.trace[..|tr3|] == tr3
  {
    var sp := StartPhase(t, cfg, env, 0);
    var m := Monitor(sp.env.pings, PingCount(t));
    var tr3 := sp.trace + PingTrace(m.pinged) + [Send(EncodeTest(t, true).value)] + StopLoad(cfg);
    var w := AwaitReady(sp.env.beacons, cfg.routerIp, 0);
    var pause: seq<Action> := if w.readiness.ReadyAfter? && t.seqNo < cfg.caseCount then [Sleep(RESUME_PAUSE)] else [];
    assert RunInvocation(t, cfg, env).trace == tr3 + pause;
    assert (tr3 + pause)[..|tr3|] == tr3;
  }

  /** A router that never announces itself after a completed test ends the
      suite, but only after that test's code-0 line is kept. */
  lemma SilentRouterIsFatal(t: Invocation, cfg: Config, env: Env)
    requires env.beacons == []
    requires RunInvocation(t, cfg, env).line.Some?
    requires RunInvocation(t, cfg, env).line.value.code == ERR_OK
    ensures RunInvocation(t, cfg, env).halt == Some(Fatal(RouterNeverReady))
  {
    SilentNeverReady(cfg.routerIp);
  }

  /** A router that answers every ping, accepts both packets at once and
      announces itself yields one code-0 line with no retries. */
  lemma CooperativeRouter(t: Invocation, cfg: Config, d: int, pad0: byte, pad1: byte)
    requires Packable(t) && t.testId < I32_LIMIT
    requires ParseDelay(cfg.loadDelay) == Some(d)
    ensures var ack := Arrives(0, EncodeAck(pad0, pad1, Ack(t.testId, 0)));
      var env := Env(seq(t.duration + 1, _ => true), [ack, ack],
                     [Heard(Datagram(cfg.routerIp, Announcement(pad0, pad1)))]);
      RunInvocation(t, cfg, env).line == Some(Line(t, ERR_OK, 0, None))
      && RunInvocation(t, cfg, env).halt.None?
  {
    var ack := Arrives(0, EncodeAck(pad0, pad1, Ack(t.testId, 0)));
    var pings := seq(t.duration + 1, _ => true);
    var beacon := Heard(Datagram(cfg.routerIp, Announcement(pad0, pad1)));
    var env := Env(pings, [ack, ack], [beacon]);
    CooperativeStart(t, cfg, d, pad0, pad1, env);
    AllPingsAnswered(t);
    ImmediateAnnouncement(pad0, pad1, cfg.routerIp);
    InvocationCompletes(t, cfg, env, 0);
  }

  /** A router answering every ping survives the monitor after the first,
      starting, ping. */
  lemma AllPingsAnswered(t: Invocation)
    requires t.duration >= 0
    ensures Monitor(seq(t.duration + 1, _ => true)[1..], PingCount(t)).alive
  {
    var pings := seq(t.duration + 1, _ => true);
    MonitorSurvives(pings[1..], PingCount(t));
  }

  /** An announcement heard at once makes the router ready with no reboot. */
  lemma ImmediateAnnouncement(pad0: byte, pad1: byte, routerIp: string)
    ensures AwaitReady([Heard(Datagram(routerIp, Announcement(pad0, pad1)))], routerIp, 0).readiness == ReadyAfter(0)
  {
    AnnouncementReady(pad0, pad1, [], routerIp, routerIp);
    assert Announcement(pad0, pad1) + [] == Announcement(pad0, pad1);
  }

  /** A router that answers the first ping and accepts the start packet at
      once starts the test with no retry, leaving the second acknowledgement
      for the stop packet. */
  lemma CooperativeStart(t: Invocation, cfg: Config, d: int, pad0: byte, pad1: byte, env: Env)
    requires Packable(t) && t.testId < I32_LIMIT
    requires ParseDelay(cfg.loadDelay) == Some(d)
    requires |env.pings| > 0 && env.pings[0]
    requires var ack := Arrives(0, EncodeAck(pad0, pad1, Ack(t.testId, 0))); env.acks == [ack, ack]
    ensures var sp := StartPhase(t, cfg, env, 0);
      sp.end == Started(0) && sp.env.pings == env.pings[1..]
      && Exchange(sp.env.acks, t.testId, 0).outcome.Acked?
  {
    var ack := Arrives(0, EncodeAck(pad0, pad1, Ack(t.testId, 0)));
    DecodeEncodeAck(pad0, pad1, Ack(t.testId, 0), []);
    assert EncodeAck(pad0, pad1, Ack(t.testId, 0)) + [] == EncodeAck(pad0, pad1, Ack(t.testId, 0));
    assert [ack, ack][1..] == [ack];
    assert Exchange([ack, ack], t.testId, 0) == Exchanged(Acked(true), 0, [ack]);
    assert Exchange([ack], t.testId, 0) == Exchanged(Acked(true), 0, []);
  }

  /** An invocation whose start is accepted, whose router answers every ping,
      whose stop is accepted and whose router announces itself keeps a
      code-0 line and lets the suite go on. */
  lemma InvocationCompletes(t: Invocation, cfg: Config, env: Env, retries: nat)
    requires Packable(t)
    requires StartPhase(t, cfg, env, 0).end == Started(retries)
    requires Monitor(StartPhase(t, cfg, env, 0).env.pings, PingCount(t)).alive
    requires Exchange(StartPhase(t, cfg, env, 0).env.acks, t.testId, 0).outcome.Acked?
    requires AwaitReady(StartPhase(t, cfg, env, 0).env.beacons, cfg.routerIp, 0).readiness.ReadyAfter?
    ensures RunInvocation(t, cfg, env).line == Some(Line(t, ERR_OK, retries, None))
    ensures RunInvocation(t, cfg, env).halt.None?
  {
  }

  /** Once the suite stops, later records are never run. */
  lemma HaltIgnoresLater(tests: seq<Invocation>, more: seq<Invocation>, cfg: Config, env: Env)
    requires RunAll(tests, cfg, env).halt != Completed
    ensures RunAll(tests + more, cfg, env) == RunAll(tests, cfg, env)
  {
    StepsHaltIgnoresLater(Invocations(cfg), tests, more, env);
  }

  /** A suite that completes hands the environment it leaves to the next
      records: running a concatenation is running its halves in turn. */
  lemma RunAllAppend(tests: seq<Invocation>, more: seq<Invocation>, cfg: Config, env: Env)
    requires RunAll(tests, cfg, env).halt == Completed
    ensures var a := RunAll(tests, cfg, env);
      var b := RunAll(more, cfg, a.env);
      RunAll(tests + more, cfg, env) == Run(a.results + b.results, a.trace + b.trace, b.halt, b.env)
  {
    StepsAppend(Invocations(cfg), tests, more, env);
  }

  /** Running a rendered plan: the result lines name the invocations the
      plan compiles to, in order. */
  lemma RunsRenderedPlan(entries: seq<PlanEntry>, loops: nat, cfg: Config, env: Env)
    requires |entries| > 0
    requires forall j :: 0 <= j < |entries| ==> WellFormedName(entries[j].ifName)
    ensures var r := ExecutePlan(CompilePlan(Section(Some(NatDigits(loops)), RenderPlan(entries))), cfg, env);
      var expected := Expected(entries, loops, 0);
      |r.results| <= |expected|
      && (forall i | 0 <= i < |r.results| :: Describes(r.results[i], expected[i]))
      && (r.halt == Completed <==> RunAll(expected, cfg, env).halt == Completed)
  {
    CompileRenderedPlan(entries, loops);
  }
}
