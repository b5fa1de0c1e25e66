/** The RS-485 side of the gateway (call.c): the frames it sends, the poll thread that
    counts sub-devices, the control thread that polls them and ages their miss counters,
    and the receive callback that resets the counters. One atomic step per thread-loop
    iteration or callback; sends are appended to a trace. */
module Rs485 {
  import opened Bytes
  import opened Crc16
  import opened Arith
  import CrcTables
  import CrcDetection

  const SLOTS: nat := 32          // xb_SubDev_SN[32]
  const OFFLINE: nat := 3         // saturation value of No_Ans_Cnt

  datatype Port = Uart1 | Uart2
  datatype Sent = Sent(port: Port, frame: seq<byte>)

  // ---------------------------------------------------------------- frames

  function Addr(id: nat): byte
    requires id < 256
  {
    id as byte
  }

  function CtrlFrame(id: nat, cmd: bv16): seq<byte>
    requires id < 256
  {
    Closed([Addr(id), 0x44, HighByte(cmd), LowByte(cmd)])
  }

  function PollFrame(id: nat): seq<byte>
    requires id < 256
  {
    Closed([Addr(id), 0x4D, 0])
  }

  function DiscoverFrame(id: nat): seq<byte>
    requires id < 256
  {
    Closed([0, 0, Addr(id)])
  }

  const RESTART_PAYLOAD: seq<byte> := [0, 0x4E]

  // ---------------------------------------------------------------- the control phase as a transition system

  datatype State = State(threadFg: nat, devNum: nat, pollId: nat, cnt: seq<nat>, sent: seq<Sent>)

  /** What can happen once discovery is over: an idle iteration of the control thread (its
      wait timed out, or the event is none it knows), an iteration that got a broadcast
      event or the key event, and the receive callback. */
  datatype Event =
    | Idle
    | Broadcast(cmd: bv16)
    | Key(relayAllOn: bv16)
    | FrameArrives(hd: int, bytes: seq<byte>)

  predicate Valid(s: State) {
    && 1 <= s.devNum <= SLOTS && 1 <= s.pollId <= s.devNum && |s.cnt| == SLOTS
    && forall i :: 0 <= i < SLOTS ==> s.cnt[i] <= OFFLINE
  }

  /** The callback indexes the device table with the address byte unchecked. */
  predicate Admissible(e: Event) {
    e.FrameArrives? ==> |e.bytes| >= 2 && e.bytes[0] as int <= SLOTS
  }

  predicate IsHeard(e: Event, d: nat)
    requires Admissible(e)
  {
    e.FrameArrives? && e.hd == 0 && 2 <= |e.bytes| <= 200 && e.bytes[0] as int == d
  }

  function Older(c: nat): nat {
    if c < OFFLINE then c + 1 else c
  }

  /** One completed sweep: every discovered device ages. */
  function Aged(cnt: seq<nat>, n: nat): (r: seq<nat>)
    ensures |r| == |cnt|
  {
    seq(|cnt|, i requires 0 <= i < |cnt| => if i < n then Older(cnt[i]) else cnt[i])
  }

  function Broadcasts(n: nat, cmd: bv16): seq<Sent>
    requires n <= SLOTS
  {
    if n == 0 then [] else Broadcasts(n - 1, cmd) + [Sent(Uart1, CtrlFrame(n, cmd))]
  }

  function Step(s: State, e: Event): (s': State)
    requires Valid(s) && Admissible(e)
    ensures Valid(s') && s'.devNum == s.devNum
  {
    match e
    case Idle =>
      var wrap := s.pollId + 1 > s.devNum;
      s.(threadFg := 2,
         pollId := if wrap then 1 else s.pollId + 1,
         cnt := if wrap then Aged(s.cnt, s.devNum) else s.cnt,
         sent := s.sent + [Sent(Uart1, PollFrame(s.pollId))])
    case Broadcast(cmd) =>
      s.(threadFg := 2, sent := s.sent + Broadcasts(s.devNum, cmd))
    case Key(code) =>
      s.(threadFg := 2, sent := s.sent + [Sent(Uart1, CtrlFrame(1, code))])
    case FrameArrives(hd, bytes) =>
      if s.threadFg != 0 && s.threadFg != 1 && |bytes| <= 200 && hd == 0 && bytes[0] as int != 0
      then s.(cnt := s.cnt[bytes[0] as int - 1 := 0])
      else s
  }

  // ---------------------------------------------------------------- runs

  /** The state discovery hands over. */
  function Start(n: nat): (s: State)
    requires 1 <= n <= SLOTS
    ensures Valid(s)
  {
    State(1, n, 1, seq(SLOTS, _ => 0), [])
  }

  predicate AllAdmissible(es: seq<Event>) {
    forall i :: 0 <= i < |es| ==> Admissible(es[i])
  }

  function Run(n: nat, es: seq<Event>): (s: State)
    requires 1 <= n <= SLOTS && AllAdmissible(es)
    ensures Valid(s) && s.devNum == n
  {
    if es == [] then Start(n) else Step(Run(n, es[..|es| - 1]), es[|es| - 1])
  }

  /** Idle iterations in a history. */
  function Idles(es: seq<Event>): nat {
    if es == [] then 0 else Idles(es[..|es| - 1]) + if es[|es| - 1].Idle? then 1 else 0
  }

  /** Idle iterations before the last frame of device `d`, or 0 when it was never heard. */
  function IdlesWhenHeard(es: seq<Event>, d: nat): nat
    requires AllAdmissible(es)
  {
    if es == [] then 0
    else if IsHeard(es[|es| - 1], d) then Idles(es[..|es| - 1])
    else IdlesWhenHeard(es[..|es| - 1], d)
  }

  lemma {:induction false} HeardInThePast(es: seq<Event>, d: nat)
    requires AllAdmissible(es)
    ensures IdlesWhenHeard(es, d) <= Idles(es)
  {
    if es != [] {
      HeardInThePast(es[..|es| - 1], d);
    }
  }

  /** Completed sweeps after `i` idle iterations over `n` devices, and the turn within one. */
  function Sweeps(i: nat, n: nat): nat
    requires n > 0
  {
    i / n
  }

  function Turn(i: nat, n: nat): nat
    requires n > 0
  {
    i % n
  }

  lemma NextTurn(i: nat, n: nat)
    requires n > 0
    ensures Turn(i, n) < n && Turn(0, n) == 0 && Sweeps(0, n) == 0
    ensures Turn(i, n) + 1 == n ==> Sweeps(i + 1, n) == Sweeps(i, n) + 1 && Turn(i + 1, n) == 0
    ensures Turn(i, n) + 1 != n ==> Sweeps(i + 1, n) == Sweeps(i, n) && Turn(i + 1, n) == Turn(i, n) + 1
  {
    DivisionStep(i, n);
    QuotientIs(0, n, 0, 0);
  }

  /** The address polled next is fixed by the number of idle iterations alone. */
  lemma {:induction false} PollIdClosedForm(n: nat, es: seq<Event>)
    requires 1 <= n <= SLOTS && AllAdmissible(es)
    ensures Run(n, es).pollId == 1 + Turn(Idles(es), n)
  {
    hide PollFrame, CtrlFrame, Broadcasts, Aged, Turn, Sweeps;
    NextTurn(0, n);
    if es != [] {
      PollIdClosedForm(n, es[..|es| - 1]);
      NextTurn(Idles(es[..|es| - 1]), n);
    }
  }

  /** Until its first iteration the control thread has not yet opened the counters to frames. */
  lemma {:induction false} PhaseOfRun(n: nat, es: seq<Event>)
    requires 1 <= n <= SLOTS && AllAdmissible(es)
    ensures Run(n, es).threadFg == 2 || (Run(n, es).threadFg == 1 && Idles(es) == 0)
  {
    hide PollFrame, CtrlFrame, Broadcasts, Aged;
    if es != [] {
      PhaseOfRun(n, es[..|es| - 1]);
    }
  }

  /** How one step moves one counter. */
  lemma CounterStep(s: State, e: Event, d: nat)
    requires Valid(s) && Admissible(e) && 1 <= d <= SLOTS
    ensures Step(s, e).cnt[d - 1] ==
            if e.Idle? && s.pollId == s.devNum && d <= s.devNum then Older(s.cnt[d - 1])
            else if IsHeard(e, d) && s.threadFg > 1 then 0
            else s.cnt[d - 1]
  {
    hide PollFrame, CtrlFrame, Broadcasts;
  }

  /** Every reachable miss counter in closed form: the sweeps completed since the device was
      last heard (or since the start), saturated at 3; undiscovered slots stay at 0. */
  lemma {:induction false} CounterClosedForm(n: nat, es: seq<Event>, d: nat)
    requires 1 <= n <= SLOTS && AllAdmissible(es) && 1 <= d <= SLOTS
    ensures d <= n ==> Run(n, es).cnt[d - 1] == Min(OFFLINE, Sweeps(Idles(es), n) - Sweeps(IdlesWhenHeard(es, d), n))
    ensures d > n ==> Run(n, es).cnt[d - 1] == 0
  {
    hide Step, Turn, Sweeps;
    NextTurn(0, n);
    if es != [] {
      var past := es[..|es| - 1];
      CounterStep(Run(n, past), es[|es| - 1], d);
      CounterClosedForm(n, past, d);
      PollIdClosedForm(n, past);
      PhaseOfRun(n, past);
      NextTurn(Idles(past), n);
      HeardInThePast(past, d);
      SweepsGrow(IdlesWhenHeard(past, d), Idles(past), n);
    }
  }

  lemma SweepsGrow(i: nat, j: nat, n: nat)
    requires n > 0 && i <= j
    ensures Sweeps(i, n) <= Sweeps(j, n)
  {
    DivideMonotone(i, j, n);
  }

  // ---------------------------------------------------------------- what the reports show

  predicate ShownOffline(s: State, d: nat)
    requires Valid(s) && 1 <= d <= SLOTS
  {
    s.cnt[d - 1] == OFFLINE
  }

  /** A device is shown offline exactly when three sweeps have completed since it was heard. */
  lemma OfflineIff(n: nat, es: seq<Event>, d: nat)
    requires 1 <= d <= n <= SLOTS && AllAdmissible(es)
    ensures ShownOffline(Run(n, es), d) <==> Sweeps(Idles(es), n) >= Sweeps(IdlesWhenHeard(es, d), n) + 3
  {
    hide Run, Sweeps;
    CounterClosedForm(n, es, d);
  }

  /** Sweeps completed in `m` idle iterations, from the turn at which they began. */
  lemma SweepsAfter(h: nat, m: nat, n: nat)
    requires n > 0
    ensures Sweeps(h + m, n) >= Sweeps(h, n) + 3 <==> Turn(h, n) + m >= 3 * n
  {
    var q, x := h / n, h % n + m;
    assert h + m == x + q * n;
    DivideAdd(x, q, n);
    DivideAdd(0, 3, n);
    QuotientIs(0, n, 0, 0);
    if x >= 3 * n {
      DivideMonotone(3 * n, x, n);
    } else {
      assert x / n * n <= x;
      if x / n >= 3 {
        Monotone(3, x / n, n);
      }
    }
  }

  /** The exact latency: a device is shown offline if and only if the idle iterations since it
      was last heard, counted from the start of that sweep, make three sweeps. */
  lemma SilenceDecides(n: nat, es: seq<Event>, d: nat)
    requires 1 <= d <= n <= SLOTS && AllAdmissible(es)
    ensures var h := IdlesWhenHeard(es, d);
            ShownOffline(Run(n, es), d) <==> Turn(h, n) + (Idles(es) - h) >= 3 * n
  {
    hide Run, Idles, IdlesWhenHeard, ShownOffline, Sweeps, Turn;
    var h := IdlesWhenHeard(es, d);
    HeardInThePast(es, d);
    OfflineIff(n, es, d);
    SweepsAfter(h, Idles(es) - h, n);
  }

  /** So silence of 3n idle iterations always shows, and silence of at most 2n never does ... */
  lemma DetectionLatency(n: nat, es: seq<Event>, d: nat)
    requires 1 <= d <= n <= SLOTS && AllAdmissible(es)
    ensures Idles(es) - IdlesWhenHeard(es, d) >= 3 * n ==> ShownOffline(Run(n, es), d)
    ensures Idles(es) - IdlesWhenHeard(es, d) <= 2 * n ==> !ShownOffline(Run(n, es), d)
  {
    hide Run, Idles, IdlesWhenHeard, ShownOffline, Turn;
    SilenceDecides(n, es, d);
    NextTurn(IdlesWhenHeard(es, d), n);
  }

  /** `es`, then `k` idle iterations. */
  function ThenIdle(es: seq<Event>, k: nat): seq<Event>
    decreases k
  {
    if k == 0 then es else ThenIdle(es, k - 1) + [Idle]
  }

  lemma {:induction false} AfterIdling(es: seq<Event>, k: nat, d: nat)
    requires AllAdmissible(es)
    ensures AllAdmissible(ThenIdle(es, k)) && Idles(ThenIdle(es, k)) == Idles(es) + k
    ensures IdlesWhenHeard(ThenIdle(es, k), d) == IdlesWhenHeard(es, d)
    decreases k
  {
    if k > 0 {
      AfterIdling(es, k - 1, d);
      var past := ThenIdle(es, k - 1);
      assert (past + [Idle])[..|past|] == past;
    }
  }

  /** ... and neither bound can be improved: 3n - 1 silent iterations may not show, and 2n + 1 may. */
  lemma LatencyBoundsAreTight(n: nat, d: nat) returns (late: seq<Event>, early: seq<Event>)
    requires 1 <= d <= n <= SLOTS
    ensures AllAdmissible(late) && Idles(late) - IdlesWhenHeard(late, d) == 3 * n - 1 && !ShownOffline(Run(n, late), d)
    ensures AllAdmissible(early) && Idles(early) - IdlesWhenHeard(early, d) == 2 * n + 1
    ensures ShownOffline(Run(n, early), d)
  {
    hide Run, ShownOffline, ThenIdle, Turn, Idles, IdlesWhenHeard;
    NoHistory(d);
    late := ThenIdle([], 3 * n - 1);
    AfterIdling([], 3 * n - 1, d);
    NextTurn(0, n);
    SilenceDecides(n, late, d);
    var heard := HeardAtTurn(n, d);
    early := ThenIdle(heard, 2 * n + 1);
    AfterIdling(heard, 2 * n + 1, d);
    LastTurn(n);
    SilenceDecides(n, early, d);
  }

  lemma NoHistory(d: nat)
    ensures AllAdmissible([]) && Idles([]) == 0 && IdlesWhenHeard([], d) == 0
  {
  }

  /** A device that is heard just before its sweep completes. */
  lemma HeardAtTurn(n: nat, d: nat) returns (heard: seq<Event>)
    requires 1 <= d <= n <= SLOTS
    ensures AllAdmissible(heard) && Idles(heard) == IdlesWhenHeard(heard, d) == n - 1
  {
    hide ThenIdle, Idles, IdlesWhenHeard, AllAdmissible, Addr;
    NoHistory(d);
    AfterIdling([], n - 1, d);
    AddressOf(d);
    heard := ThenIdle([], n - 1) + [FrameArrives(0, [Addr(d), 0])];
    JustHeard(ThenIdle([], n - 1), FrameArrives(0, [Addr(d), 0]), d);
  }

  lemma AddressOf(d: nat)
    requires d < 256
    ensures Addr(d) as int == d
  {
    assert d % 256 == d;
  }

  lemma JustHeard(past: seq<Event>, e: Event, d: nat)
    requires AllAdmissible(past) && Admissible(e) && IsHeard(e, d)
    ensures AllAdmissible(past + [e]) && Idles(past + [e]) == Idles(past) == IdlesWhenHeard(past + [e], d)
  {
    hide IsHeard, Admissible;
    assert e.FrameArrives? by { HeardFrame(e, d); }
    assert (past + [e])[..|past + [e]| - 1] == past;
  }

  lemma HeardFrame(e: Event, d: nat)
    requires Admissible(e) && IsHeard(e, d)
    ensures e.FrameArrives?
  {
  }

  lemma LastTurn(n: nat)
    requires n > 0
    ensures Turn(n - 1, n) == n - 1
  {
    QuotientIs(n - 1, n, 0, n - 1);
  }

  /** Slots beyond the discovered devices never leave 0, so they are never shown offline. */
  lemma UndiscoveredStayOnline(n: nat, es: seq<Event>, d: nat)
    requires 1 <= n < d <= SLOTS && AllAdmissible(es)
    ensures Run(n, es).cnt[d - 1] == 0 && !ShownOffline(Run(n, es), d)
  {
    hide Run;
    CounterClosedForm(n, es, d);
  }

  // ---------------------------------------------------------------- what is polled

  /** The addresses polled over a run, in order. */
  function Polled(n: nat, es: seq<Event>): seq<nat>
    requires 1 <= n <= SLOTS && AllAdmissible(es)
  {
    if es == [] then []
    else Polled(n, es[..|es| - 1]) + if es[|es| - 1].Idle? then [Run(n, es[..|es| - 1]).pollId] else []
  }

  /** The k-th idle iteration polls address 1 + k mod n, whatever else happens in between. */
  lemma {:induction false} PolledClosedForm(n: nat, es: seq<Event>)
    requires 1 <= n <= SLOTS && AllAdmissible(es)
    ensures |Polled(n, es)| == Idles(es)
    ensures forall k :: 0 <= k < Idles(es) ==> Polled(n, es)[k] == 1 + Turn(k, n)
  {
    hide Run, Turn;
    if es != [] {
      PolledClosedForm(n, es[..|es| - 1]);
      PollIdClosedForm(n, es[..|es| - 1]);
    }
  }

  lemma TurnComes(n: nat, w: nat, t: nat) returns (k: nat)
    requires t < n
    ensures w <= k < w + n && Turn(k, n) == t
  {
    var q, r := w / n, w % n;
    if r <= t {
      k := w + (t - r);
      assert k == q * n + t;
      QuotientIs(k, n, q, t);
    } else {
      k := w + (n + t - r);
      assert k == (q + 1) * n + t;
      QuotientIs(k, n, q + 1, t);
    }
  }

  lemma TurnsDiffer(n: nat, j: nat, k: nat)
    requires n > 0 && j != k && j < k + n && k < j + n
    ensures Turn(j, n) != Turn(k, n)
  {
    if Turn(j, n) == Turn(k, n) {
      var d := j / n - k / n;
      assert d * n == j - k;
      if d >= 1 {
        Monotone(1, d, n);
      } else if d <= -1 {
        Monotone(d, -1, n);
      }
    }
  }

  // ---------------------------------------------------------------- the whole wire trace

  /** Everything the control thread puts on the bus over a history, from the history alone. */
  function Wire(n: nat, es: seq<Event>): seq<Sent>
    requires 1 <= n <= SLOTS
  {
    if es == [] then []
    else
      var past := es[..|es| - 1];
      Wire(n, past) +
      match es[|es| - 1]
      case Idle => [Sent(Uart1, PollFrame(1 + TurnOf(past, n)))]
      case Broadcast(cmd) => Broadcasts(n, cmd)
      case Key(code) => [Sent(Uart1, CtrlFrame(1, code))]
      case FrameArrives(_, _) => []
  }

  function TurnOf(es: seq<Event>, n: nat): (t: nat)
    requires n > 0
    ensures t < n
  {
    Turn(Idles(es), n)
  }

  lemma {:induction false} WireClosedForm(n: nat, es: seq<Event>)
    requires 1 <= n <= SLOTS && AllAdmissible(es)
    ensures Run(n, es).sent == Wire(n, es)
  {
    hide PollFrame, CtrlFrame, Broadcasts, Aged, Turn;
    if es != [] {
      WireClosedForm(n, es[..|es| - 1]);
      PollIdClosedForm(n, es[..|es| - 1]);
    }
  }

  /** A broadcast addresses every discovered device once, in order. */
  lemma {:induction false} BroadcastsInOrder(n: nat, cmd: bv16)
    requires n <= SLOTS
    ensures |Broadcasts(n, cmd)| == n
    ensures forall i :: 0 <= i < n ==> Broadcasts(n, cmd)[i] == Sent(Uart1, CtrlFrame(i + 1, cmd))
  {
    hide CtrlFrame;
    if n > 0 {
      BroadcastsInOrder(n - 1, cmd);
    }
  }

  predicate PassesCheck(x: Sent) {
    |x.frame| >= 2 && CrcDetection.CheckBytesMatch(x.frame)
  }

  /** Every frame the gateway sends passes the comparison its receiver makes. */
  lemma {:induction false} SentFramesMatch(n: nat, es: seq<Event>)
    requires 1 <= n <= SLOTS
    ensures forall i :: 0 <= i < |Wire(n, es)| ==> PassesCheck(Wire(n, es)[i])
  {
    if es != [] {
      SentFramesMatch(n, es[..|es| - 1]);
      NewFramesMatch(n, es[..|es| - 1], es[|es| - 1]);
    }
  }

  lemma NewFramesMatch(n: nat, past: seq<Event>, e: Event)
    requires 1 <= n <= SLOTS
    ensures PassesCheck(Sent(Uart1, PollFrame(1 + TurnOf(past, n))))
    ensures e.Key? ==> PassesCheck(Sent(Uart1, CtrlFrame(1, e.relayAllOn)))
    ensures e.Broadcast? ==> forall i :: 0 <= i < |Broadcasts(n, e.cmd)| ==> PassesCheck(Broadcasts(n, e.cmd)[i])
  {
    hide CrcDetection.CheckBytesMatch, CrcBytes, TurnOf;
    CrcDetection.ClosedFramesMatch([Addr(1 + TurnOf(past, n)), 0x4D, 0]);
    if e.Key? {
      CrcDetection.ClosedFramesMatch([Addr(1), 0x44, HighByte(e.relayAllOn), LowByte(e.relayAllOn)]);
    }
    if e.Broadcast? {
      BroadcastsInOrder(n, e.cmd);
      forall i | 0 <= i < |Broadcasts(n, e.cmd)|
        ensures PassesCheck(Broadcasts(n, e.cmd)[i])
      {
        CrcDetection.ClosedFramesMatch([Addr(i + 1), 0x44, HighByte(e.cmd), LowByte(e.cmd)]);
      }
    }
  }

  // ---------------------------------------------------------------- discovery

  /** Polls answered before the first timeout. */
  function Answered(rec: seq<bool>): nat {
    if rec == [] || !rec[0] then 0 else 1 + Answered(rec[1..])
  }

  /** uint8_t arithmetic. */
  function Wrap(x: nat): (r: nat)
    ensures r < 256
  {
    x % 256
  }

  lemma WrapOne()
    ensures Wrap(1) == 1
  {
  }

  lemma WrapNext(x: nat)
    ensures Wrap(x + 1) == if Wrap(x) == 255 then 0 else Wrap(x) + 1
  {
    DivisionStep(x, 256);
  }

  lemma WrapAround(x: nat)
    requires x < 256
    ensures Wrap(x) == x && Wrap(x + 256) == x
  {
  }

  lemma WrapSteps(i: nat)
    ensures Wrap(Wrap(1 + i) + 1) == Wrap(1 + (i + 1))
    ensures (if Wrap(1 + i) == 1 then 1 else Wrap(Wrap(1 + i) + 255)) == DeviceCount(i)
  {
    hide Wrap;
    var r, w := Wrap(1 + i), Wrap(i);
    WrapNext(i);
    WrapNext(1 + i);
    WrapAround(r);
    WrapNext(r);
    WrapAround(w);
    WrapAround(255);
  }

  /** What discovery sends for addresses `from`, `from` + 1, ... (a byte that wraps), on both ports. */
  function Discovery(from: nat, polls: nat): seq<Sent>
    requires from < 256
    decreases polls
  {
    if polls == 0 then []
    else [Sent(Uart1, DiscoverFrame(from)), Sent(Uart2, DiscoverFrame(from))] + Discovery(Wrap(from + 1), polls - 1)
  }

  lemma {:induction false} DiscoveryStep(from: nat, polls: nat)
    requires from < 256
    ensures Discovery(from, polls + 1) ==
            Discovery(from, polls)
            + [Sent(Uart1, DiscoverFrame(Wrap(from + polls))), Sent(Uart2, DiscoverFrame(Wrap(from + polls)))]
    decreases polls
  {
    hide DiscoverFrame;
    if polls > 0 {
      DiscoveryStep(Wrap(from + 1), polls - 1);
      WrapAdd(from, polls);
    }
  }

  /** The restart frame, then `polls`. */
  function RestartAnd(polls: seq<Sent>): seq<Sent> {
    [Sent(Uart1, Closed(RESTART_PAYLOAD))] + polls
  }

  lemma NoDiscovery()
    ensures Discovery(1, 0) == []
  {
  }

  lemma WrapAdd(from: nat, polls: nat)
    requires from < 256 && polls > 0
    ensures Wrap(Wrap(from + 1) + (polls - 1)) == Wrap(from + polls)
  {
  }

  /** What discovery makes of the number of answers: at least one, and a byte. */
  function DeviceCount(answers: nat): (r: nat)
    ensures 1 <= r < 256
  {
    Max(1, Wrap(answers))
  }

  /** It is the true count exactly when fewer than 256 sub-devices answered. */
  lemma CountIsExactBelow256(answers: nat)
    ensures DeviceCount(answers) == Max(1, answers) <==> answers < 256
  {
  }

  /** Of 256 sub-devices one is left. */
  lemma CountCanWrap()
    ensures DeviceCount(256) == 1
  {
  }

  // ---------------------------------------------------------------- serial numbers

  /** What the receive callback is handed: memory, and how much of it the frame takes. It copies
      twelve bytes from the third on, however short the frame. */
  datatype Arrival = Arrival(mem: seq<byte>, length: nat)

  predicate Readable(x: Arrival) {
    2 <= x.length <= |x.mem| && 14 <= |x.mem| && x.mem[0] as int <= SLOTS
  }

  predicate Passes(x: Arrival)
    requires Readable(x)
  {
    x.length <= 200 && CrcDetection.CheckBytesMatch(x.mem[..x.length])
  }

  /** The serial numbers after a frame in phase `fg`: during discovery a passing frame enters its
      sender's; a failing one from address 0 to 3 enters the one behind it, in any phase. */
  function SerialsAfter(sn: seq<seq<byte>>, fg: nat, x: Arrival): (r: seq<seq<byte>>)
    requires |sn| == SLOTS && Readable(x)
    ensures |r| == SLOTS
  {
    var id := x.mem[0] as int;
    if fg == 0 || x.length > 200 then sn
    else if Passes(x) then if fg == 1 && 1 <= id < SLOTS then sn[id - 1 := x.mem[2..14]] else sn
    else if id < 4 then sn[id := x.mem[2..14]]
    else sn
  }

  predicate AllReadable(xs: seq<Arrival>) {
    forall i :: 0 <= i < |xs| ==> Readable(xs[i])
  }

  /** The serial numbers after frames of the control phase. */
  function SerialsAfterAll(sn: seq<seq<byte>>, xs: seq<Arrival>): (r: seq<seq<byte>>)
    requires |sn| == SLOTS && AllReadable(xs)
    ensures |r| == SLOTS
    decreases |xs|
  {
    if xs == [] then sn else SerialsAfter(SerialsAfterAll(sn, xs[..|xs| - 1]), 2, xs[|xs| - 1])
  }

  /** A failing frame from address `j`, below 4. */
  predicate Overwrites(x: Arrival, j: nat)
    requires Readable(x)
  {
    x.length <= 200 && !Passes(x) && x.mem[0] as int == j && j < 4
  }

  /** Slot by slot: before the control thread runs a passing frame from address 1 to 31 enters its
      own slot, and in either phase a failing one from address 0 to 3 the slot behind it. */
  lemma SerialOfSlot(sn: seq<seq<byte>>, fg: nat, x: Arrival, j: nat)
    requires |sn| == SLOTS && Readable(x) && (fg == 1 || fg == 2) && j < 32
    ensures SerialsAfter(sn, fg, x)[j] ==
            if (fg == 1 && Passes(x) && x.mem[0] as int == j + 1 && j < 31) || Overwrites(x, j) then x.mem[2..14]
            else sn[j]
  {
    hide CrcDetection.CheckBytesMatch;
  }

  /** Once discovery is over no passing frame changes a serial number: slot `j` keeps its own until
      a failing frame from address `j`, which is the device before it, writes over it. */
  lemma {:induction false} SerialsKeptUnlessCorrupted(sn: seq<seq<byte>>, xs: seq<Arrival>, j: nat, k: nat)
    requires |sn| == SLOTS && AllReadable(xs) && j < SLOTS && k <= |xs|
    requires (forall l :: k <= l < |xs| ==> !Overwrites(xs[l], j)) && (k > 0 ==> Overwrites(xs[k - 1], j))
    ensures SerialsAfterAll(sn, xs)[j] == if k == 0 then sn[j] else xs[k - 1].mem[2..14]
    decreases |xs|
  {
    hide Passes;
    if k < |xs| {
      SerialsKeptUnlessCorrupted(sn, xs[..|xs| - 1], j, k);
    }
  }

  /** The check bytes of an empty payload are ones, so this frame of two bytes fails. */
  lemma ShortFrameFails(id: byte)
    requires id != 0xFF
    ensures !CrcDetection.CheckBytesMatch([id, 0])
  {
    var f: seq<byte> := [id, 0];
    CrcTables.CrcOfNothing(0xFFFF);
    assert f[..|f| - 2] == [] && f[|f| - 2..] == f;
    assert CrcBytes([])[0] == 0xFF;
  }

  /** Any twelve bytes can be put into any of the first four slots that way. */
  lemma CorruptedFrameOverwrites(sn: seq<seq<byte>>, j: nat, s: seq<byte>) returns (x: Arrival)
    requires |sn| == SLOTS && j < 4 && |s| == 12
    ensures Readable(x) && !Passes(x) && SerialsAfterAll(sn, [x]) == sn[j := s]
  {
    hide CrcDetection.CheckBytesMatch, Addr;
    AddressOf(j);
    NotAllOnes(Addr(j));
    ShortFrameFails(Addr(j));
    x := Arrival([Addr(j), 0] + s, 2);
    assert x.mem[..2] == [Addr(j), 0] && x.mem[2..14] == s;
    assert [x][..0] == [];
    assert SerialsAfterAll(sn, []) == sn;
  }

  lemma NotAllOnes(b: byte)
    requires b as int <= SLOTS
    ensures b != 0xFF
  {
  }

  /** A run in which a device shown offline is shown online again by a frame that fails. */
  lemma FailingFrameRevives(n: nat, d: nat) returns (es: seq<Event>, e: Event)
    requires 1 <= d <= n <= SLOTS
    ensures AllAdmissible(es) && AllAdmissible(es + [e])
    ensures e.FrameArrives? && |e.bytes| >= 2 && !CrcDetection.CheckBytesMatch(e.bytes)
    ensures ShownOffline(Run(n, es), d) && !ShownOffline(Run(n, es + [e]), d)
  {
    hide Run, ShownOffline, ThenIdle, Turn, Idles, IdlesWhenHeard, CrcDetection.CheckBytesMatch, Addr, AllAdmissible;
    NoHistory(d);
    AfterIdling([], 3 * n, d);
    es := ThenIdle([], 3 * n);
    SilenceDecides(n, es, d);
    AddressOf(d);
    NotAllOnes(Addr(d));
    ShortFrameFails(Addr(d));
    e := FrameArrives(0, [Addr(d), 0]);
    JustHeard(es, e, d);
    NextTurn(Idles(es), n);
    SilenceDecides(n, es + [e], d);
  }

  // ---------------------------------------------------------------- the threads

  class Gateway {
    var threadFg: nat
    var pollAddrId: nat
    var restartSent: bool
    var devNum: nat
    var pollId: nat
    const cnt: array<nat>
    var serials: seq<seq<byte>>
    var sent: seq<Sent>
    ghost var discoverySent: seq<Sent>
    ghost var history: seq<Event>

    constructor ()
      ensures threadFg == 0 && pollAddrId == 1 && !restartSent && pollId == 1 && sent == []
      ensures fresh(cnt) && cnt[..] == seq(SLOTS, _ => 0) && |serials| == SLOTS
    {
      threadFg, pollAddrId, restartSent, devNum, pollId, sent := 0, 1, false, 0, 1, [];
      discoverySent, history := [], [];
      serials := seq(SLOTS, _ => seq(12, _ => 0));
      cnt := new nat[SLOTS](_ => 0);
      new;
      assert cnt[..] == seq(SLOTS, _ => 0);
    }

    /** The state is the one the history leads to. */
    ghost predicate Reachable()
      reads this, cnt
    {
      && 1 <= devNum <= SLOTS && AllAdmissible(history) && cnt.Length == |serials| == SLOTS
      && var s := Run(devNum, history);
         && threadFg == s.threadFg && pollId == s.pollId && cnt[..] == s.cnt
         && sent == discoverySent + s.sent
    }

    /** `Snd_Ctrl_Cmd`. */
    method SndCtrlCmd(id: nat, cmd: bv16)
      requires id < 256
      modifies this`sent
      ensures sent == old(sent) + [Sent(Uart1, CtrlFrame(id, cmd))]
    {
      hide FrameCrc, HighByte, LowByte;
      var buf := new byte[6];
      buf[0], buf[1], buf[2], buf[3] := Addr(id), 0x44, HighByte(cmd), LowByte(cmd);
      var crc := CrcTables.NCrc16(buf[..], 4);
      assert buf[..][..4] == [Addr(id), 0x44, HighByte(cmd), LowByte(cmd)];
      buf[4], buf[5] := HighByte(crc), LowByte(crc);
      assert buf[..] == CtrlFrame(id, cmd);
      sent := sent + [Sent(Uart1, buf[..])];
    }

    /** `Poll_Addr_Thread`: `rec` says, poll by poll, whether a frame arrived before the timeout. */
    method Discover(rec: seq<bool>)
      requires threadFg == 0 && pollAddrId == 1 && pollId == 1 && !restartSent && false in rec
      requires cnt.Length == |serials| == SLOTS && cnt[..] == seq(SLOTS, _ => 0)
      modifies this
      ensures devNum == DeviceCount(Answered(rec))
      ensures sent == old(sent) + RestartAnd(Discovery(1, Answered(rec) + 1))
      ensures history == [] && discoverySent == sent && (devNum <= SLOTS ==> Reachable())
    {
      hide DiscoverFrame, Closed, Discovery, Run, Wrap, DeviceCount, Answered;
      var i := 0;
      ghost var k := Answered(rec);
      AnsweredIsIndex(rec);
      NoDiscovery();
      assert Wrap(1 + 0) == 1 by { WrapOne(); }
      while true
        invariant 0 <= i <= k && pollAddrId == Wrap(1 + i) && restartSent == (i > 0)
        invariant pollId == 1 && serials == old(serials)
        invariant sent == old(sent) + if i > 0 then RestartAnd(Discovery(1, i)) else []
        decreases k - i
      {
        SndPoll(i, old(sent));
        WrapSteps(i);
        if rec[i] {
          pollAddrId := Wrap(pollAddrId + 1);
          i := i + 1;
        } else {
          devNum := if pollAddrId == 1 then 1 else Wrap(pollAddrId + 255);
          history, discoverySent := [], sent;
          if devNum <= SLOTS {
            EmptyRun(devNum);
          }
          return;
        }
      }
    }

    /** What one round of the poll thread sends. */
    method SndPoll(ghost i: nat, ghost before: seq<Sent>)
      requires pollAddrId == Wrap(1 + i) && restartSent == (i > 0)
      requires sent == before + if i > 0 then RestartAnd(Discovery(1, i)) else []
      modifies this`sent, this`restartSent, this`threadFg
      ensures restartSent && threadFg == 1
      ensures sent == before + RestartAnd(Discovery(1, i + 1))
    {
      hide DiscoverFrame, Closed, Discovery, Wrap;
      NoDiscovery();
      SndRestart();
      threadFg := 1;
      assert sent == before + RestartAnd(Discovery(1, i));
      SndDiscover();
      DiscoveryStep(1, i);
    }

    /** `Snd_Restart`: once per power-up. */
    method SndRestart()
      modifies this`sent, this`restartSent
      ensures restartSent
      ensures sent == old(sent) + if old(restartSent) then [] else [Sent(Uart1, Closed(RESTART_PAYLOAD))]
    {
      hide FrameCrc, HighByte, LowByte;
      if restartSent {
        return;
      }
      restartSent := true;
      var buf := new byte[5];
      buf[0], buf[1] := 0, 0x4E;
      var crc := CrcTables.NCrc16(buf[..], 2);
      assert buf[..][..2] == RESTART_PAYLOAD;
      buf[2], buf[3] := HighByte(crc), LowByte(crc);
      assert buf[..4] == Closed(RESTART_PAYLOAD);
      sent := sent + [Sent(Uart1, buf[..4])];
    }

    method SndDiscover()
      requires pollAddrId < 256
      modifies this`sent
      ensures sent == old(sent) + [Sent(Uart1, DiscoverFrame(pollAddrId)), Sent(Uart2, DiscoverFrame(pollAddrId))]
    {
      hide FrameCrc, HighByte, LowByte;
      var buf := new byte[5];
      buf[0], buf[1], buf[2] := 0, 0, Addr(pollAddrId);
      var crc := CrcTables.NCrc16(buf[..], 3);
      assert buf[..][..3] == [0, 0, Addr(pollAddrId)];
      buf[3], buf[4] := HighByte(crc), LowByte(crc);
      assert buf[..] == DiscoverFrame(pollAddrId);
      sent := sent + [Sent(Uart1, buf[..])];
      sent := sent + [Sent(Uart2, buf[..])];
    }

    /** The poll command the control thread prepares at the top of each iteration. */
    method PollCmd() returns (frame: seq<byte>)
      requires pollId < 256
      ensures frame == PollFrame(pollId)
    {
      hide FrameCrc, HighByte, LowByte;
      var buf := new byte[5];
      buf[0], buf[1], buf[2] := Addr(pollId), 0x4D, 0;
      var crc := CrcTables.NCrc16(buf[..], 3);
      assert buf[..][..3] == [Addr(pollId), 0x4D, 0];
      buf[3], buf[4] := HighByte(crc), LowByte(crc);
      frame := buf[..];
    }

    method SndToAll(cmd: bv16)
      requires devNum <= SLOTS
      modifies this`sent
      ensures sent == old(sent) + Broadcasts(devNum, cmd)
    {
      hide CtrlFrame;
      var idTmp := 1;
      while idTmp <= devNum
        invariant 1 <= idTmp <= devNum + 1
        invariant sent == old(sent) + Broadcasts(idTmp - 1, cmd)
      {
        SndCtrlCmd(idTmp, cmd);
        idTmp := idTmp + 1;
      }
    }

    /** One iteration of `Rs485_Ctrl_Thread`, woken by `e`. */
    method ControlIteration(e: Event)
      requires Reachable() && !e.FrameArrives?
      modifies this, cnt
      ensures Reachable() && history == old(history) + [e]
      ensures devNum == old(devNum) && discoverySent == old(discoverySent) && serials == old(serials)
    {
      hide PollFrame, CtrlFrame, Broadcasts, Aged, Run;
      threadFg := 2;
      var pollCtrlCmd := PollCmd();
      if e.Key? {
        SndCtrlCmd(1, e.relayAllOn);
      } else if e.Broadcast? {
        SndToAll(e.cmd);
      } else {
        pollId := pollId + 1;
        if pollId > devNum {
          pollId := 1;
          AgeAll();
        }
        sent := sent + [Sent(Uart1, pollCtrlCmd)];
      }
      RunSnoc(devNum, history, e);
      history := history + [e];
    }

    /** The sweep loop of the control thread. */
    method AgeAll()
      requires cnt.Length == SLOTS && devNum <= SLOTS
      modifies cnt
      ensures cnt[..] == Aged(old(cnt[..]), devNum)
    {
      for i := 1 to devNum + 1
        invariant forall j :: 0 <= j < i - 1 ==> cnt[j] == Older(old(cnt[j]))
        invariant forall j :: i - 1 <= j < SLOTS ==> cnt[j] == old(cnt[j])
      {
        if cnt[i - 1] < 3 {
          cnt[i - 1] := cnt[i - 1] + 1;
        }
      }
    }

    /** `handle_rec` once discovery is over: frames of up to 200 bytes are compared, and one from
        the device bus clears its sender's counter whether or not the comparison held. */
    method HandleRec(hd: int, x: Arrival) returns (crcOk: bool)
      requires Reachable() && Readable(x)
      modifies this`history, this`serials, cnt
      ensures crcOk <==> x.length <= 200 && CrcDetection.CheckBytesMatch(x.mem[..x.length])
      ensures Reachable() && history == old(history) + [FrameArrives(hd, x.mem[..x.length])]
      ensures serials == SerialsAfter(old(serials), threadFg, x)
    {
      hide Run, CrcDetection.CheckBytesMatch;
      crcOk := false;
      ghost var e := FrameArrives(hd, x.mem[..x.length]);
      PhaseOfRun(devNum, history);
      RunSnoc(devNum, history, e);
      history := history + [e];
      if threadFg == 0 || x.length > 200 {
        return;
      }
      crcOk := CheckCrc(x.mem[..x.length]);
      EnterSerial(x, crcOk);
      var id := x.mem[0] as int;
      if threadFg != 1 && hd == 0 && id != 0 {
        cnt[id - 1] := 0;
      }
    }

    /** The two copies of `handle_rec`. */
    method EnterSerial(x: Arrival, crcOk: bool)
      requires Readable(x) && crcOk == Passes(x) && x.length <= 200 && threadFg != 0 && |serials| == SLOTS
      modifies this`serials
      ensures serials == SerialsAfter(old(serials), threadFg, x)
    {
      hide Passes;
      var id := x.mem[0] as int;
      if crcOk {
        if threadFg == 1 && 1 <= id < 32 {
          serials := serials[id - 1 := x.mem[2..14]];
        }
      } else if id < 4 {
        serials := serials[id := x.mem[2..14]];
      }
    }
  }

  /** The recompute-and-compare of `handle_rec`. */
  method CheckCrc(str: seq<byte>) returns (ok: bool)
    requires |str| >= 2
    ensures ok <==> CrcDetection.CheckBytesMatch(str)
  {
    hide FrameCrc, HighByte, LowByte;
    var crc := CrcTables.NCrc16(str, |str| - 2);
    ok := HighByte(crc) == str[|str| - 2] && LowByte(crc) == str[|str| - 1];
    assert str[|str| - 2..] == [str[|str| - 2], str[|str| - 1]];
  }

  lemma EmptyRun(n: nat)
    requires 1 <= n <= SLOTS
    ensures Run(n, []) == Start(n)
  {
  }

  lemma RunSnoc(n: nat, es: seq<Event>, e: Event)
    requires 1 <= n <= SLOTS && AllAdmissible(es) && Admissible(e)
    ensures AllAdmissible(es + [e]) && Run(n, es + [e]) == Step(Run(n, es), e)
  {
    hide Step;
    assert (es + [e])[..|es + [e]| - 1] == es;
  }

  lemma {:induction false} AnsweredIsIndex(rec: seq<bool>)
    requires false in rec
    ensures Answered(rec) < |rec| && !rec[Answered(rec)]
    ensures forall i :: 0 <= i < Answered(rec) ==> rec[i]
  {
    if rec[0] {
      AnsweredIsIndex(rec[1..]);
    }
  }
}
