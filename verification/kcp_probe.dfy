/** The window probe timer over whole runs: when a probe is sent, and how long the next
    one waits. */
module KcpProbe {
  import opened KcpSerial
  import opened KcpWire
  import opened KcpSpec
  import opened KcpNet
  import opened KcpSafety
  import opened KcpSender

  /** Between calls no probe is pending, and the wait is switched off or between 7 seconds
      and two minutes. */
  predicate ProbeOk(b: Probe) {
    !b.ask && (b.wait == 0 || PROBE_INIT <= b.wait <= PROBE_LIMIT)
  }

  /** The timer is running and has come to its time. */
  predicate ProbeDue(p: Pcb) {
    p.rmtWnd == 0 && p.probe.wait != 0 && TimeDiff(p.current, p.probe.ts) >= 0
  }

  predicate AllPush(buf: seq<Segment>) {
    forall i :: 0 <= i < |buf| ==> buf[i].pkt.cmd == CMD_PUSH
  }

  // ---- one flush ----

  /** A flush asks the peer for its window exactly when the peer's window is closed and the
      timer is due. */
  lemma AsksWhenDue(m: Arith, p: Pcb)
    requires ProbeOk(p.probe)
    requires AllPush(p.snd.buf)
    ensures (exists h :: h in FlushNow(m, p).out && h.cmd == CMD_WASK) <==> ProbeDue(p)
  {
    hide Admit, Resend, ReactToLoss, Decisions, ProbeTimer, AckPackets, ProbePackets;
    var b := ProbeTimer(p.probe, p.rmtWnd, p.current);
    var s := Admit(m, p, p.snd, EffectiveWindow(p));
    AdmitPushes(m, p, p.snd, EffectiveWindow(p));
    ResendPushes(p, s.buf);
    TimerAsks(p);
    ControlCommands(p, b);
    var out := AckPackets(p) + ProbePackets(p, b) + Resend(p, s.buf).out;
    assert FlushNow(m, p).out == out;
    if b.ask {
      assert ProbePackets(p, b)[0] in out;
    }
  }

  lemma TimerAsks(p: Pcb)
    requires ProbeOk(p.probe)
    ensures ProbeTimer(p.probe, p.rmtWnd, p.current).ask <==> ProbeDue(p)
  {
  }

  lemma ControlCommands(p: Pcb, b: Probe)
    ensures forall h :: h in AckPackets(p) ==> h.cmd == CMD_ACK
    ensures b.ask ==> ProbePackets(p, b) != [] && ProbePackets(p, b)[0].cmd == CMD_WASK
    ensures !b.ask ==> forall h :: h in ProbePackets(p, b) ==> h.cmd == CMD_WINS
  {
  }

  lemma {:induction false} AdmitPushes(m: Arith, p: Pcb, s: Sender, cwnd: int)
    requires AllPush(s.buf)
    ensures AllPush(Admit(m, p, s, cwnd).buf)
    decreases |s.queue|
  {
    if s.queue != [] {
      AdmitPushes(m, p, Sender(s.una, SeqAdd(m, s.nxt, 1), s.queue[1..], s.buf + [Numbered(p, s.queue[0], s.nxt)],
                               s.nQue - 1, s.nBuf + 1), cwnd);
    }
  }

  lemma ResendPushes(p: Pcb, buf: seq<Segment>)
    requires AllPush(buf)
    ensures forall h :: h in Resend(p, buf).out ==> h.cmd == CMD_PUSH
  {
    hide Decide;
    var ds := Decisions(p, buf);
    forall i | 0 <= i < |ds| ensures ds[i].seg.pkt.cmd == CMD_PUSH {
      assert ds[i] == Decide(p, buf[i]);
    }
    AccountPushes(p.cfg, Tally([], false, false, p.xmit, p.dead), ds);
  }

  lemma {:induction false} AccountPushes(c: Config, t: Tally, ds: seq<Decision>)
    requires t.out == [] && forall i :: 0 <= i < |ds| ==> ds[i].seg.pkt.cmd == CMD_PUSH
    ensures forall h :: h in AccountAll(c, t, ds).out ==> h.cmd == CMD_PUSH
    decreases |ds|
  {
    if ds != [] {
      AccountPushes(c, t, ds[..|ds| - 1]);
    }
  }

  /** While the peer's window is closed the wait starts at 7 seconds, never falls and never
      exceeds two minutes; an open window switches the timer off. */
  lemma FlushWait(m: Arith, p: Pcb)
    requires ProbeOk(p.probe)
    ensures var b := FlushNow(m, p).p.probe;
            && ProbeOk(b)
            && (p.rmtWnd == 0 ==> PROBE_INIT <= b.wait && p.probe.wait <= b.wait)
            && (p.rmtWnd != 0 ==> b.wait == 0)
            && (p.rmtWnd == 0 && (p.probe.wait == 0 || ProbeDue(p)) ==> b.ts == U32(p.current + b.wait))
            && (p.rmtWnd == 0 && p.probe.wait != 0 && !ProbeDue(p) ==> b.ts == p.probe.ts && b.wait == p.probe.wait)
  {
    hide Admit, Resend, ReactToLoss, Decisions;
    assert FlushNow(m, p).p.probe == ProbeTimer(p.probe, p.rmtWnd, p.current).(ask := false, tell := false);
  }

  // ---- back-off ----

  /** The wait after n probes in a row into a closed window. */
  function WaitAfter(n: nat): int {
    if n == 0 then PROBE_INIT else Min(WaitAfter(n - 1) + WaitAfter(n - 1) / 2, PROBE_LIMIT)
  }

  /** The timer's wait follows that sequence. */
  lemma DueWaits(m: Arith, p: Pcb, n: nat)
    requires ProbeOk(p.probe) && ProbeDue(p) && p.probe.wait == WaitAfter(n)
    ensures FlushNow(m, p).p.probe.wait == WaitAfter(n + 1)
  {
    hide Admit, Resend, ReactToLoss, Decisions;
    assert FlushNow(m, p).p.probe == ProbeTimer(p.probe, p.rmtWnd, p.current).(ask := false, tell := false);
  }

  /** The wait grows by half with each probe and stands at two minutes exactly from the
      eighth probe on. */
  lemma {:induction false} WaitLimit(n: nat)
    ensures PROBE_INIT <= WaitAfter(n) <= PROBE_LIMIT
    ensures WaitAfter(n) == PROBE_LIMIT <==> 8 <= n
    ensures n < 8 ==> WaitAfter(n) < WaitAfter(n + 1)
  {
    FirstWaits();
    if n > 8 {
      WaitLimit(n - 1);
    }
  }

  lemma FirstWaits()
    ensures WaitAfter(0) == 7000 && WaitAfter(1) == 10500 && WaitAfter(2) == 15750 && WaitAfter(3) == 23625
    ensures WaitAfter(4) == 35437 && WaitAfter(5) == 53155 && WaitAfter(6) == 79732 && WaitAfter(7) == 119598
    ensures WaitAfter(8) == 120000
  {
  }

  // ---- whole runs ----

  lemma InputPacketProbe(m: Arith, s: Parsing, h: Packet)
    ensures InputPacket(m, s, h).p.probe.(tell := s.p.probe.tell) == s.p.probe
  {
    hide ParseUna, ParseAck, ParseData, UpdateAck;
  }

  lemma {:induction false} InputPacketsProbe(m: Arith, s: Parsing, ps: seq<Packet>)
    ensures InputPackets(m, s, ps).p.probe.(tell := s.p.probe.tell) == s.p.probe
    decreases |ps|
  {
    hide InputPacket;
    if ps != [] {
      InputPacketProbe(m, s, ps[0]);
      InputPacketsProbe(m, InputPacket(m, s, ps[0]), ps[1..]);
    }
  }

  lemma {:induction false} InputLoopProbe(s: Parsing, b: bytes)
    ensures InputLoop(s, b).0.p.probe.(tell := s.p.probe.tell) == s.p.probe
    decreases |b|
  {
    hide InputPacket, Get32, LengthField, Decode, KnownCommand;
    if |b| >= OVERHEAD && |b| >= OVERHEAD + LengthField(b) {
      InputPacketProbe(Machine32, s, Decode(b));
      InputLoopProbe(InputPacket(Machine32, s, Decode(b)), b[OVERHEAD + LengthField(b)..]);
    }
  }

  lemma InputProbe(m: Arith, x: Peer, d: Datagram)
    requires 0 < x.p.cfg.mss
    ensures DoInput(m, x, d).p.probe.(tell := x.p.probe.tell) == x.p.probe
  {
    hide InputPackets, InputLoop, GrowCwnd, ParseFastAck;
    match d
    case Packets(ps) => InputPacketsProbe(m, Parsing(x.p, false, 0), ps);
    case Bytes(b) => InputLoopProbe(Parsing(x.p, false, 0), b);
  }

  lemma FlushProbe(m: Arith, x: Peer)
    requires ProbeOk(x.p.probe)
    ensures var b := DoFlush(m, x).p.probe;
            ProbeOk(b) && (x.p.rmtWnd == 0 ==> x.p.probe.wait <= b.wait)
  {
    hide FlushNow;
    if x.p.updated {
      FlushWait(m, x.p);
    }
  }

  /** No operation leaves a probe pending, and with a closed window none shortens the wait. */
  lemma DoProbe(m: Arith, x: Peer, y: Peer, op: Op)
    requires 0 < x.p.cfg.mss && ProbeOk(x.p.probe)
    ensures var b := Do(m, x, y, op).p.probe;
            ProbeOk(b) && (x.p.rmtWnd == 0 ==> x.p.probe.wait <= b.wait)
  {
    hide DoFlush, DoInput;
    match op
    case Send(data) =>
    case Recv(len) =>
    case Update(now) => FlushProbe(m, x.(p := Tick(x.p, U32(now)).0));
    case Flush => FlushProbe(m, x);
    case Deliver(k) => if k < |y.out| { InputProbe(m, x, y.out[k]); }
  }

  /** In every state of every run, of the unbounded protocol and of the machine alike. */
  lemma {:induction false} RunProbes(m: Arith, ca: Config, cb: Config, es: seq<Event>)
    requires Compatible(ca, cb)
    ensures var s := Run(m, Start(ca, cb), es);
            ProbeOk(s.a.p.probe) && ProbeOk(s.b.p.probe)
    decreases |es|
  {
    hide Do, ProbeOk;
    if es == [] {
      StartProbe(ca);
      StartProbe(cb);
    } else {
      var n := |es| - 1;
      var s := Run(m, Start(ca, cb), es[..n]);
      RunProbes(m, ca, cb, es[..n]);
      DoProbe(m, s.a, s.b, es[n].op);
      DoProbe(m, s.b, s.a, es[n].op);
    }
  }

  lemma StartProbe(c: Config)
    ensures ProbeOk(NewPeer(c).p.probe)
  {
  }

  /** Side a or b of the state after the first k events. */
  function SideAt(m: Arith, ca: Config, cb: Config, es: seq<Event>, k: nat, atA: bool): Pcb
    requires Compatible(ca, cb) && k <= |es|
  {
    var s := Run(m, Start(ca, cb), es[..k]);
    if atA then s.a.p else s.b.p
  }

  /** In every run, a flush asks the peer for its window exactly when the timer is due. */
  lemma RunAsksWhenDue(ca: Config, cb: Config, es: seq<Event>)
    requires Compatible(ca, cb)
    ensures var p := Run(Unbounded, Start(ca, cb), es).a.p;
            (exists h :: h in FlushNow(Unbounded, p).out && h.cmd == CMD_WASK) <==> ProbeDue(p)
    ensures var p := Run(Unbounded, Start(ca, cb), es).b.p;
            (exists h :: h in FlushNow(Unbounded, p).out && h.cmd == CMD_WASK) <==> ProbeDue(p)
  {
    hide Run, FlushNow, ProbeDue;
    RunProbes(Unbounded, ca, cb, es);
    RunWindows(ca, cb, es);
    var s := Run(Unbounded, Start(ca, cb), es);
    AsksWhenDue(Unbounded, s.a.p);
    AsksWhenDue(Unbounded, s.b.p);
  }

  /** The peer's window is closed in all states from the i-th to the one before the j-th. */
  predicate StaysClosed(m: Arith, ca: Config, cb: Config, es: seq<Event>, i: nat, j: nat, atA: bool)
    requires Compatible(ca, cb) && j <= |es|
  {
    forall k: nat :: i <= k < j ==> SideAt(m, ca, cb, es, k, atA).rmtWnd == 0
  }

  lemma ClosedBefore(m: Arith, ca: Config, cb: Config, es: seq<Event>, i: nat, j: nat, atA: bool)
    requires Compatible(ca, cb) && i < j <= |es| && StaysClosed(m, ca, cb, es, i, j, atA)
    ensures StaysClosed(m, ca, cb, es, i, j - 1, atA) && SideAt(m, ca, cb, es, j - 1, atA).rmtWnd == 0
  {
    hide SideAt;
  }

  /** As long as the peer's window stays closed the wait never falls. */
  lemma {:induction false} ClosedWindowWaits(m: Arith, ca: Config, cb: Config, es: seq<Event>, i: nat, j: nat,
                                             atA: bool)
    requires Compatible(ca, cb) && i <= j <= |es| && StaysClosed(m, ca, cb, es, i, j, atA)
    ensures SideAt(m, ca, cb, es, i, atA).probe.wait <= SideAt(m, ca, cb, es, j, atA).probe.wait
    decreases j - i
  {
    hide SideAt, StaysClosed, ConfigOk;
    if i < j {
      ClosedBefore(m, ca, cb, es, i, j, atA);
      ClosedWindowWaits(m, ca, cb, es, i, j - 1, atA);
      ClosedWindowStep(m, ca, cb, es, j - 1, atA);
    }
  }

  lemma ClosedWindowStep(m: Arith, ca: Config, cb: Config, es: seq<Event>, k: nat, atA: bool)
    requires Compatible(ca, cb) && k < |es| && SideAt(m, ca, cb, es, k, atA).rmtWnd == 0
    ensures SideAt(m, ca, cb, es, k, atA).probe.wait <= SideAt(m, ca, cb, es, k + 1, atA).probe.wait
  {
    hide Do;
    RunProbes(m, ca, cb, es[..k]);
    assert es[..k + 1][..k] == es[..k];
    var s := Run(m, Start(ca, cb), es[..k]);
    DoProbe(m, s.a, s.b, es[k].op);
    DoProbe(m, s.b, s.a, es[k].op);
  }
}
