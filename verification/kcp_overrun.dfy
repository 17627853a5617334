/** A run of the 32-bit machine that delivers a message twice. One side sends one-byte
    messages, each delivered and acknowledged before the next, until the sequence number
    comes round; then the network delivers the first datagram again. */
module KcpOverrun {
  import opened KcpSerial
  import opened KcpWire
  import opened KcpSpec
  import opened KcpNet
  import opened KcpSender
  import opened KcpReceiver
  import opened KcpSafety
  import opened KcpPlain
  import opened KcpWrap

  /** The defaults of `ikcp_create`, without the congestion window. */
  const DEFAULTS :=
    Config(1, 1400, 1376, false, WND_SND, WND_RCV, 100, 100, 0, 0, 5, true, 20)

  const MESSAGE: bytes := [7]

  function Data(sn: int): Packet { Packet(1, CMD_PUSH, 0, WND_RCV, 0, sn, 0, MESSAGE) }

  function AckOf(sn: int): Packet { Packet(1, CMD_ACK, 0, WND_RCV, 0, sn, sn + 1, []) }

  predicate Quiet(p: Pcb) {
    && p.cfg == DEFAULTS && p.updated && p.current == 0 && p.acks == []
    && !p.probe.ask && !p.probe.tell && p.rmtWnd == WND_RCV
  }

  /** The sending side after k messages. */
  predicate Source(x: Peer, k: nat) {
    && Quiet(x.p) && x.p.snd == Sender(k, k, [], [], 0, 0) && x.p.rcv == Receiver(0, [], [], 0, 0)
    && |x.accepted| == k && |x.out| == k && (k > 0 ==> x.out[0] == Packets([Data(0)]))
  }

  /** The receiving side after k messages. */
  predicate Sink(y: Peer, k: nat) {
    && Quiet(y.p) && y.p.snd == Sender(0, 0, [], [], 0, 0) && y.p.rcv == Receiver(k, [], [], 0, 0)
    && |y.delivered| == k && |y.out| == k
  }

  // ---- one round ----

  /** The source with its message queued. */
  predicate Loaded(x: Peer, k: nat) {
    && Quiet(x.p) && x.p.snd == Sender(k, k, [Blank(0, MESSAGE)], [], 1, 0) && x.p.rcv == Receiver(0, [], [], 0, 0)
    && |x.accepted| == k + 1 && |x.out| == k && (k > 0 ==> x.out[0] == Packets([Data(0)]))
  }

  lemma SendOne(x: Peer, k: nat)
    requires Source(x, k)
    ensures Loaded(DoSend(x, MESSAGE), k)
  {
    assert MESSAGE[0..] == MESSAGE && MESSAGE[..1] == MESSAGE;
    assert Fragments(MESSAGE, 1376, 1, false) == [Blank(0, MESSAGE)] + Fragments([], 1376, 0, false);
  }

  /** The source with its message in flight. */
  predicate InTransit(x: Peer, k: nat) {
    && Quiet(x.p) && x.p.snd.una == k && x.p.snd.nxt == k + 1 && x.p.snd.queue == [] && |x.p.snd.buf| == 1
    && x.p.snd.buf[0].pkt.sn == k && x.p.snd.nQue == 0 && x.p.snd.nBuf == 1 && x.p.rcv == Receiver(0, [], [], 0, 0)
    && |x.accepted| == k + 1 && |x.out| == k + 1 && x.out[0] == Packets([Data(0)])
    && x.out[k] == Packets([Data(k)])
  }

  lemma FlushOne(x: Peer, k: nat)
    requires Loaded(x, k)
    ensures InTransit(DoFlush(Unbounded, x), k)
  {
    hide ReactToLoss, Emit, Datagrams;
    var p := x.p;
    var seg := Numbered(p, p.snd.queue[0], k);
    var s1 := Sender(k, k + 1, p.snd.queue[1..], [] + [seg], 0, 1);
    assert Admit(Unbounded, p, p.snd, 32) == Admit(Unbounded, p, s1, 32) == s1;
    ResendOne(p, seg);
    assert AckPackets(p) + ProbePackets(p, ProbeTimer(p.probe, p.rmtWnd, p.current)) + [Data(k)] == [Data(k)];
    assert FlushNow(Unbounded, p).out == [Data(k)];
    OneDatagram(Data(k), p.cfg.mtu);
  }

  lemma ResendOne(p: Pcb, seg: Segment)
    requires Quiet(p) && p.rcv == Receiver(0, [], [], 0, 0)
    requires seg.xmit == 0 && seg.pkt == Packet(1, CMD_PUSH, 0, WND_RCV, 0, seg.pkt.sn, 0, MESSAGE)
    ensures Resend(p, [seg]).out == [Data(seg.pkt.sn)]
    ensures SegmentsOf(Decisions(p, [seg]))[0].pkt.sn == seg.pkt.sn
  {
    var ds := Decisions(p, [seg]);
    assert ds[..0] == [];
    var t := Tally([], false, false, p.xmit, p.dead);
    assert AccountAll(p.cfg, t, ds[..0]) == t;
    assert Stamped(p, seg).pkt == seg.pkt;
    assert ds[0].send && OnWire(ds[0].seg.pkt) == Data(seg.pkt.sn);
  }

  /** The sink with message k in its queue. */
  predicate Arrived(y: Peer, k: nat, taken: bool) {
    && Quiet(y.p.(acks := [])) && y.p.acks == [Ack(k, 0)] && y.p.snd == Sender(0, 0, [], [], 0, 0)
    && y.p.rcv == Receiver(k + 1, if taken then [] else [Data(k)], [], if taken then 0 else 1, 0)
    && |y.delivered| == (if taken then k + 1 else k) && |y.out| == k
  }

  lemma TakesData(y: Peer, k: nat)
    requires Sink(y, k)
    ensures Arrived(DoInput(Unbounded, y, Packets([Data(k)])), k, false)
    ensures Timely(Packets([Data(k)]), y)
  {
    var s0, h := Parsing(y.p, false, 0), Data(k);
    var r1 := Receiver(k, [], [h], 0, 1);
    assert Insert(Unbounded, [], h) == [h];
    assert MoveReady(Unbounded, WND_RCV, r1)
        == MoveReady(Unbounded, WND_RCV, Receiver(k + 1, [] + [h], [h][1..], 1, 0));
    assert [h][1..] == [] && [] + [h] == [h];
    assert ParseData(Unbounded, WND_RCV, y.p.rcv, h) == Receiver(k + 1, [h], [], 1, 0);
    InputOne(Unbounded, s0, h);
    ClearOne(s0, h);
  }

  lemma ClearOne(s: Parsing, h: Packet)
    requires ClearPacket(s, h)
    ensures ClearPackets(s, [h])
  {
    assert [h][1..] == [];
    assert ClearPackets(InputPacket(Unbounded, s, h), [h][1..]);
  }

  lemma ReceiveOne(y: Peer, k: nat)
    requires Arrived(y, k, false)
    ensures Arrived(DoRecv(Unbounded, y, 1), k, true)
  {
    TakeOne(Unbounded, y.p.rcv, Data(k));
    assert MoveReady(Unbounded, WND_RCV, Receiver(k + 1, [], [], 0, 0)) == Receiver(k + 1, [], [], 0, 0);
  }

  lemma AckOne(y: Peer, k: nat)
    requires Arrived(y, k, true)
    ensures Sink(DoFlush(Unbounded, y), k + 1)
    ensures DoFlush(Unbounded, y).out[k] == Packets([AckOf(k)])
  {
    hide ReactToLoss, Emit, Datagrams;
    var p := y.p;
    assert Admit(Unbounded, p, p.snd, 32) == p.snd;
    assert Resend(p, []).out == [];
    assert AckPackets(p) == [AckOf(k)];
    assert [AckOf(k)] + ProbePackets(p, ProbeTimer(p.probe, p.rmtWnd, p.current)) + [] == [AckOf(k)];
    assert FlushNow(Unbounded, p).out == [AckOf(k)];
    OneDatagram(AckOf(k), p.cfg.mtu);
  }

  lemma TakesAck(x: Peer, k: nat)
    requires InTransit(x, k)
    ensures Source(DoInput(Unbounded, x, Packets([AckOf(k)])), k + 1)
    ensures Timely(Packets([AckOf(k)]), x)
  {
    hide GrowCwnd, UpdateAck;
    var s0, h := Parsing(x.p, false, 0), AckOf(k);
    assert x.p.snd.buf[1..] == [];
    assert DropAcked(Unbounded, x.p.snd.buf, k + 1) == DropAcked(Unbounded, x.p.snd.buf[1..], k + 1) == [];
    assert ParseUna(Unbounded, x.p.snd, k + 1) == Sender(k, k + 1, [], [], 0, 0);
    assert AfterUna(s0, h).p.snd == Sender(k + 1, k + 1, [], [], 0, 0);
    InputOne(Unbounded, s0, h);
    ClearOne(s0, h);
  }

  // ---- many rounds ----

  function Begin(): System { Start(DEFAULTS, DEFAULTS) }

  /** The run `es` is timely and ends in s. */
  ghost predicate Reaches(es: seq<Event>, s: System) {
    Running(s) && Run(Unbounded, Begin(), es) == s && TimelyRun(Begin(), es)
  }

  lemma RunSnoc(m: Arith, es: seq<Event>, e: Event)
    ensures Run(m, Begin(), es + [e]) == Step(m, Run(m, Begin(), es), e)
    ensures TimelyRun(Begin(), es + [e]) <==> TimelyRun(Begin(), es) && TimelyEvent(Run(Unbounded, Begin(), es), e)
  {
    RunLast(m, Begin(), es, e);
    assert (es + [e])[..|es|] == es;
  }

  lemma ReachesNext(es: seq<Event>, s: System, e: Event)
    requires Reaches(es, s) && TimelyEvent(s, e)
    ensures Reaches(es + [e], Step(Unbounded, s, e))
  {
    RunSnoc(Unbounded, es, e);
    StepKeepsConfig(Unbounded, s, e);
  }

  /** The source sends message k and the network delivers it. */
  function Sent(es: seq<Event>, k: nat): seq<Event> {
    es + [Event(true, Send(MESSAGE))] + [Event(true, Flush)] + [Event(false, Deliver(k))]
  }

  /** The sink's application takes it, and the network delivers the acknowledgement. */
  function Acked(es: seq<Event>, k: nat): seq<Event> {
    es + [Event(false, Recv(1))] + [Event(false, Flush)] + [Event(true, Deliver(k))]
  }

  function Rounds(n: nat): seq<Event> {
    if n == 0 then [] + [Event(true, Update(0))] + [Event(false, Update(0))]
    else Acked(Sent(Rounds(n - 1), n - 1), n - 1)
  }

  /** The message reaches the sink. */
  lemma FirstHalf(es: seq<Event>, s: System, k: nat)
    requires Reaches(es, s) && Source(s.a, k) && Sink(s.b, k)
    ensures var t := Run(Unbounded, Begin(), Sent(es, k));
            && Reaches(Sent(es, k), t)
            && InTransit(t.a, k) && Arrived(t.b, k, false)
  {
    hide DoSend, DoFlush, DoInput, Timely, Quiet, Run, TimelyRun;
    var e1, e2, e3 := Event(true, Send(MESSAGE)), Event(true, Flush), Event(false, Deliver(k));
    SendOne(s.a, k);
    ReachesNext(es, s, e1);
    var s1 := Step(Unbounded, s, e1);
    FlushOne(s1.a, k);
    ReachesNext(es + [e1], s1, e2);
    var s2 := Step(Unbounded, s1, e2);
    TakesData(s.b, k);
    ReachesNext(es + [e1] + [e2], s2, e3);
  }

  /** The acknowledgement reaches the source. */
  lemma SecondHalf(es: seq<Event>, s: System, k: nat)
    requires Reaches(es, s) && InTransit(s.a, k) && Arrived(s.b, k, false)
    ensures var t := Run(Unbounded, Begin(), Acked(es, k));
            && Reaches(Acked(es, k), t)
            && Source(t.a, k + 1) && Sink(t.b, k + 1)
  {
    hide DoRecv, DoFlush, DoInput, Timely, Quiet, Run, TimelyRun;
    var e1, e2, e3 := Event(false, Recv(1)), Event(false, Flush), Event(true, Deliver(k));
    ReceiveOne(s.b, k);
    ReachesNext(es, s, e1);
    var s1 := Step(Unbounded, s, e1);
    AckOne(s1.b, k);
    ReachesNext(es + [e1], s1, e2);
    var s2 := Step(Unbounded, s1, e2);
    TakesAck(s.a, k);
    ReachesNext(es + [e1] + [e2], s2, e3);
  }

  lemma UpdateFirst(x: Peer)
    requires x == NewPeer(DEFAULTS)
    ensures Source(DoUpdate(Unbounded, x, 0), 0) && Sink(DoUpdate(Unbounded, x, 0), 0)
  {
    hide ReactToLoss;
    var t := Tick(x.p, 0).0;
    assert Admit(Unbounded, t, t.snd, 32) == t.snd;
    assert Resend(t, []).out == [];
    assert FlushNow(Unbounded, t).out == [];
    assert Datagrams([], 1400) == [];
  }

  lemma AfterUpdates()
    ensures var s := Run(Unbounded, Begin(), Rounds(0));
            Reaches(Rounds(0), s) && Source(s.a, 0) && Sink(s.b, 0)
  {
    hide DoUpdate;
    var s, e1, e2 := Begin(), Event(true, Update(0)), Event(false, Update(0));
    UpdateFirst(s.a);
    assert Reaches([], s);
    ReachesNext([], s, e1);
    ReachesNext([] + [e1], Step(Unbounded, s, e1), e2);
  }

  /** After n rounds n messages were sent and received, and no delivery was stale. */
  lemma {:induction false} AfterRounds(n: nat)
    ensures var s := Run(Unbounded, Begin(), Rounds(n));
            Reaches(Rounds(n), s) && Source(s.a, n) && Sink(s.b, n)
  {
    hide Source, Sink, Reaches, InTransit, Arrived, Run, Sent, Acked;
    if n == 0 {
      AfterUpdates();
    } else {
      AfterRounds(n - 1);
      var k, es := n - 1, Rounds(n - 1);
      FirstHalf(es, Run(Unbounded, Begin(), es), k);
      var half := Sent(es, k);
      SecondHalf(half, Run(Unbounded, Begin(), half), k);
    }
  }

  // ---- one datagram too many ----

  lemma InsertsData(r: Receiver, h: Packet)
    requires r == Receiver(0, [], [], 0, 0) && h.sn == 0
    ensures ParseData(Machine32, WND_RCV, r, h) == Receiver(1, [h], [], 1, 0)
  {
    var r1 := Receiver(0, [], [h], 0, 1);
    assert Insert(Machine32, [], h) == [h];
    assert MoveReady(Machine32, WND_RCV, r1)
        == MoveReady(Machine32, WND_RCV, Receiver(1, [] + [h], [h][1..], 1, 0));
    assert [h][1..] == [] && [] + [h] == [h];
  }

  /** The machine takes the first data packet once more. */
  lemma QueuesStale(p: Pcb)
    requires Quiet(p) && p.snd == Sender(0, 0, [], [], 0, 0) && p.rcv == Receiver(0, [], [], 0, 0)
    ensures var q := InputDatagram(Machine32, p, [Data(0)]);
            q.rcv == Receiver(1, [Data(0)], [], 1, 0) && q.cfg == p.cfg && q.probe == p.probe
  {
    hide GrowCwnd;
    InsertsData(p.rcv, Data(0));
    hide ParseData;
    InputOne(Machine32, Parsing(p, false, 0), Data(0));
  }

  lemma StaleBytes(p: Pcb)
    requires Quiet(p)
    ensures Input(p, EncodeAll(WrapPackets([Data(0)]))) == (InputDatagram(Machine32, p, [Data(0)]), 0)
  {
    hide Input, InputDatagram, EncodeAll;
    assert WrapPackets([Data(0)]) == [Data(0)];
    InputIsDatagram(p, [Data(0)]);
  }

  lemma TakesStale(y: Peer, n: nat)
    requires Sink(y, n) && n % TWO32 == 0
    ensures var w := DoInput(Machine32, WrapPeer(y), Bytes(EncodeAll(WrapPackets([Data(0)]))));
            |DoRecv(Machine32, w, 1).delivered| == n + 1
  {
    hide Input, InputDatagram, EncodeAll, WrapPackets;
    var w, h := WrapPeer(y), Data(0);
    assert w.p.rcv == Receiver(0, [], [], 0, 0) && w.p.snd == Sender(0, 0, [], [], 0, 0);
    StaleBytes(w.p);
    QueuesStale(w.p);
    var w1 := DoInput(Machine32, w, Bytes(EncodeAll(WrapPackets([h]))));
    hide DoInput;
    TakeOne(Machine32, w1.p.rcv, h);
  }

  lemma TooMany(x: Peer, y: Peer)
    requires !x.p.cfg.stream && |x.accepted| < |y.delivered|
    ensures !InOrder(x, y)
  {
  }

  /** After any whole number of cycles, a repeat of the first datagram makes the machine
      deliver more messages than were sent. Every delivery before it was read as meant. */
  lemma StaleBreaksOrder(n: nat)
    requires 0 < n && n % TWO32 == 0
    ensures TimelyRun(Begin(), Rounds(n))
    ensures var s := Run(Machine32, Begin(), Rounds(n) + [Event(false, Deliver(0))] + [Event(false, Recv(1))]);
            !InOrder(s.a, s.b)
  {
    hide Rounds, DoInput, DoRecv, EncodeAll, WrapPackets, InOrder, Run, TimelyRun, WrapPcb;
    AfterRounds(n);
    MachineRunsWrapped(DEFAULTS, DEFAULTS, Rounds(n));
    var u := Run(Unbounded, Begin(), Rounds(n));
    TakesStale(u.b, n);
    RunSnoc(Machine32, Rounds(n), Event(false, Deliver(0)));
    RunSnoc(Machine32, Rounds(n) + [Event(false, Deliver(0))], Event(false, Recv(1)));
    var s := Run(Machine32, Begin(), Rounds(n) + [Event(false, Deliver(0))] + [Event(false, Recv(1))]);
    TooMany(s.a, s.b);
  }
}
