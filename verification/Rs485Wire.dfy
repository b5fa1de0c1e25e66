/** What stands on the RS-485 bus, byte by byte, over every run of the gateway. */
module Rs485Wire {
  import opened Bytes
  import opened Crc16
  import opened Rs485
  import CrcDetection

  // ---------------------------------------------------------------- the frames

  /** A poll of address `id`. */
  predicate IsPoll(x: Sent, id: int) {
    && x.port == Uart1 && |x.frame| == 5 && PassesCheck(x)
    && x.frame[0] as int == id && x.frame[1] == 0x4D && x.frame[2] == 0
  }

  /** The command `cmd` to address `id`, its high byte first. */
  predicate IsControl(x: Sent, id: int, cmd: bv16) {
    && x.port == Uart1 && |x.frame| == 6 && PassesCheck(x)
    && x.frame[0] as int == id && x.frame[1] == 0x44
    && x.frame[2] == (cmd >> 8) as byte && x.frame[3] == (cmd & 0xFF) as byte
  }

  /** The address `id`, offered to whichever sub-device answers. */
  predicate IsOffer(x: Sent, port: Port, id: int) {
    && x.port == port && |x.frame| == 5 && PassesCheck(x)
    && x.frame[0] == 0 && x.frame[1] == 0 && x.frame[2] as int == id
  }

  predicate IsRestart(x: Sent) {
    x.port == Uart1 && |x.frame| == 4 && PassesCheck(x) && x.frame[0] == 0 && x.frame[1] == 0x4E
  }

  /** The payload stands in front of the check bytes. */
  lemma ClosedBytes(p: seq<byte>)
    ensures |Closed(p)| == |p| + 2 && forall i :: 0 <= i < |p| ==> Closed(p)[i] == p[i]
    ensures PassesCheck(Sent(Uart1, Closed(p))) && PassesCheck(Sent(Uart2, Closed(p)))
  {
    hide CrcDetection.CheckBytesMatch, CrcBytes;
    CrcDetection.ClosedFramesMatch(p);
  }

  lemma PollBytes(id: nat)
    requires id < 256
    ensures IsPoll(Sent(Uart1, PollFrame(id)), id)
  {
    hide PassesCheck, Closed, Addr;
    ClosedBytes([Addr(id), 0x4D, 0]);
    AddressOf(id);
  }

  lemma ControlBytes(id: nat, cmd: bv16)
    requires id < 256
    ensures IsControl(Sent(Uart1, CtrlFrame(id, cmd)), id, cmd)
  {
    hide PassesCheck, Closed, Addr;
    ClosedBytes([Addr(id), 0x44, HighByte(cmd), LowByte(cmd)]);
    AddressOf(id);
  }

  lemma OfferBytes(id: nat)
    requires id < 256
    ensures IsOffer(Sent(Uart1, DiscoverFrame(id)), Uart1, id) && IsOffer(Sent(Uart2, DiscoverFrame(id)), Uart2, id)
  {
    hide PassesCheck, Closed, Addr;
    ClosedBytes([0, 0, Addr(id)]);
    AddressOf(id);
  }

  // ---------------------------------------------------------------- one iteration

  /** What one event puts on the bus after any history: an idle iteration polls the address whose
      turn it is, a broadcast sends its command to every device in order, the key event sends to
      the first, an arriving frame sends nothing. */
  lemma SentByEvent(n: nat, es: seq<Event>, e: Event) returns (added: seq<Sent>)
    requires 1 <= n <= SLOTS && AllAdmissible(es) && Admissible(e)
    ensures AllAdmissible(es + [e]) && Run(n, es + [e]).sent == Run(n, es).sent + added
    ensures e.Idle? ==> |added| == 1 && IsPoll(added[0], 1 + Idles(es) % n)
    ensures e.Broadcast? ==> |added| == n && forall i :: 0 <= i < n ==> IsControl(added[i], i + 1, e.cmd)
    ensures e.Key? ==> |added| == 1 && IsControl(added[0], 1, e.relayAllOn)
    ensures e.FrameArrives? ==> added == []
  {
    hide IsPoll, IsControl, PollFrame, CtrlFrame, Broadcasts, Aged, Run;
    RunSnoc(n, es, e);
    match e
    case Idle =>
      var id := Run(n, es).pollId;
      added := [Sent(Uart1, PollFrame(id))];
      PollIdClosedForm(n, es);
      PollBytes(id);
    case Broadcast(cmd) =>
      added := Broadcasts(n, cmd);
      BroadcastsInOrder(n, cmd);
      forall i | 0 <= i < n
        ensures IsControl(added[i], i + 1, cmd)
      {
        ControlBytes(i + 1, cmd);
      }
    case Key(code) =>
      added := [Sent(Uart1, CtrlFrame(1, code))];
      ControlBytes(1, code);
    case FrameArrives(_, _) =>
      added := [];
  }

  // ---------------------------------------------------------------- every sweep

  /** A frame anyone listening would take for a poll. */
  predicate LooksLikePoll(x: Sent) {
    x.port == Uart1 && |x.frame| == 5 && x.frame[1] == 0x4D
  }

  /** The addresses polled, read off the bus. */
  function PollsOn(sent: seq<Sent>): seq<int> {
    if sent == [] then []
    else
      var x := sent[|sent| - 1];
      PollsOn(sent[..|sent| - 1]) + if LooksLikePoll(x) then [x.frame[0] as int] else []
  }

  lemma {:induction false} PollsOnBoth(a: seq<Sent>, b: seq<Sent>)
    ensures PollsOn(a + b) == PollsOn(a) + PollsOn(b)
    decreases |b|
  {
    hide LooksLikePoll;
    if b == [] {
      assert a + b == a;
    } else {
      PollsOnBoth(a, b[..|b| - 1]);
      assert (a + b)[..|a + b| - 1] == a + b[..|b| - 1];
    }
  }

  lemma {:induction false} NoPollsOn(xs: seq<Sent>)
    requires forall i :: 0 <= i < |xs| ==> !LooksLikePoll(xs[i])
    ensures PollsOn(xs) == []
    decreases |xs|
  {
    hide LooksLikePoll;
    if xs != [] {
      NoPollsOn(xs[..|xs| - 1]);
    }
  }

  lemma PollsOfEvent(n: nat, e: Event, added: seq<Sent>, id: int)
    requires e.Idle? ==> |added| == 1 && IsPoll(added[0], id)
    requires e.Broadcast? ==> |added| == n && forall i :: 0 <= i < n ==> IsControl(added[i], i + 1, e.cmd)
    requires e.Key? ==> |added| == 1 && IsControl(added[0], 1, e.relayAllOn)
    requires e.FrameArrives? ==> added == []
    ensures PollsOn(added) == if e.Idle? then [id] else []
  {
    hide PassesCheck;
    if e.Idle? {
      assert added[..0] == [];
    } else {
      NoPollsOn(added);
    }
  }

  /** The k-th poll on the bus goes to address 1 + k mod n, whatever else is sent in between. */
  lemma {:induction false} PollsInTurn(n: nat, es: seq<Event>)
    requires 1 <= n <= SLOTS && AllAdmissible(es)
    ensures var polls := PollsOn(Run(n, es).sent);
            |polls| == Idles(es) && forall k :: 0 <= k < |polls| ==> polls[k] == 1 + k % n
    decreases |es|
  {
    hide IsPoll, IsControl, Step, PollsOn;
    if es == [] {
      NoPollsOn([]);
    } else {
      var past, e := es[..|es| - 1], es[|es| - 1];
      PollsInTurn(n, past);
      var added := SentByEvent(n, past, e);
      assert es == past + [e];
      PollsOnBoth(Run(n, past).sent, added);
      PollsOfEvent(n, e, added, 1 + Idles(past) % n);
    }
  }

  /** Any n consecutive polls on the bus reach every address exactly once. */
  lemma EveryAddressOncePerSweep(n: nat, es: seq<Event>, w: nat, a: nat) returns (k: nat)
    requires 1 <= a <= n <= SLOTS && AllAdmissible(es) && w + n <= |PollsOn(Run(n, es).sent)|
    ensures w <= k < w + n && PollsOn(Run(n, es).sent)[k] == a
    ensures forall j :: w <= j < w + n && j != k ==> PollsOn(Run(n, es).sent)[j] != a
  {
    hide PollsOn, Run;
    PollsInTurn(n, es);
    k := TurnComes(n, w, a - 1);
    forall j | w <= j < w + n && j != k
      ensures j % n != k % n
    {
      TurnsDiffer(n, j, k);
    }
  }

  // ---------------------------------------------------------------- discovery

  /** Discovery restarts the devices, then offers address after address on both ports. */
  lemma DiscoveryOnWire(polls: nat, k: nat)
    requires k < polls
    ensures var sent := RestartAnd(Discovery(1, polls));
            && |sent| == 1 + 2 * polls && IsRestart(sent[0])
            && IsOffer(sent[1 + 2 * k], Uart1, (1 + k) % 256) && IsOffer(sent[2 + 2 * k], Uart2, (1 + k) % 256)
  {
    hide PassesCheck, IsOffer, Discovery, Closed;
    ClosedBytes(RESTART_PAYLOAD);
    OffersInOrder(1, polls, k);
  }

  lemma {:induction false} OffersInOrder(from: nat, polls: nat, k: nat)
    requires from < 256 && k < polls
    ensures |Discovery(from, polls)| == 2 * polls
    ensures IsOffer(Discovery(from, polls)[2 * k], Uart1, (from + k) % 256)
    ensures IsOffer(Discovery(from, polls)[2 * k + 1], Uart2, (from + k) % 256)
    decreases polls
  {
    hide IsOffer, DiscoverFrame;
    if k == 0 {
      OfferBytes(from);
      if polls > 1 {
        OffersInOrder(Wrap(from + 1), polls - 1, 0);
      }
    } else {
      OffersInOrder(Wrap(from + 1), polls - 1, k - 1);
      WrapAdd(from, k);
    }
  }

  // ---------------------------------------------------------------- arriving frames

  /** Once the control thread runs, a frame clears a counter exactly when it comes on handle 0,
      has at most 200 bytes and names that device; every other counter keeps its value. */
  lemma FrameClears(n: nat, es: seq<Event>, hd: int, bytes: seq<byte>, d: nat)
    requires 1 <= n <= SLOTS && AllAdmissible(es) && Admissible(FrameArrives(hd, bytes)) && 1 <= d <= 32
    ensures AllAdmissible(es + [FrameArrives(hd, bytes)])
    ensures var s, t := Run(n, es), Run(n, es + [FrameArrives(hd, bytes)]);
            t.cnt[d - 1] ==
            if s.threadFg == 2 && hd == 0 && |bytes| <= 200 && bytes[0] as int == d then 0 else s.cnt[d - 1]
  {
    hide Run;
    RunSnoc(n, es, FrameArrives(hd, bytes));
    PhaseOfRun(n, es);
  }
}
