/** What a stream delivers compared with what `ikcp_send` accepted. A call that refuses its
    data because it would need too many fragments has already filled the last queued segment
    in stream mode; so the bytes delivered are those of the accepted messages exactly as long
    as no refused call did so. */
module KcpStream {
  import opened KcpSerial
  import opened KcpWire
  import opened KcpSpec
  import opened KcpNet
  import opened KcpReceiver
  import opened KcpSafety
  import opened KcpWrap
  import opened KcpStale

  // ---- one call ----

  /** `ikcp_send` refuses, with -2, exactly what needs more than 127 fragments after the
      extension. */
  lemma SendRefuses(p: Pcb, data: bytes)
    requires 0 < p.cfg.mss
    ensures KcpSpec.Send(p, data).1 == if 127 * p.cfg.mss < |data| - Extension(p, data) then -2 else 0
  {
    hide FragmentCount, Fragments, ExtendLast, Extension;
    TooMany(|data| - Extension(p, data), p.cfg.mss);
  }

  lemma TooMany(len: nat, mss: int)
    requires 0 < mss
    ensures WND_RCV <= FragmentCount(len, mss) <==> 127 * mss < len
  {
    var q, r := (len + mss - 1) / mss, (len + mss - 1) % mss;
    assert len + mss - 1 == mss * q + r;
    if 128 <= q {
      Multiples(128, q, mss);
    } else {
      Multiples(q, 127, mss);
    }
  }

  lemma Multiples(a: int, b: int, m: nat)
    requires a <= b
    ensures m * a <= m * b
  {
  }

  /** Whatever the queue holds, 127 full segments are accepted and more than 128 refused. */
  lemma SizesDecide(p: Pcb, data: bytes)
    requires 0 < p.cfg.mss
    ensures |data| <= 127 * p.cfg.mss ==> KcpSpec.Send(p, data).1 == 0
    ensures 128 * p.cfg.mss < |data| ==> KcpSpec.Send(p, data).1 != 0
  {
    SendRefuses(p, data);
    assert Extension(p, data) <= p.cfg.mss;
  }

  /** A refused call leaves everything as it was exactly when it extended no segment. */
  lemma RefusalChanges(p: Pcb, data: bytes)
    requires 0 < p.cfg.mss && KcpSpec.Send(p, data).1 != 0
    ensures KcpSpec.Send(p, data).0 == p <==> Extension(p, data) == 0
  {
    SendRefuses(p, data);
    var n := |p.snd.queue| - 1;
    if Extension(p, data) > 0 {
      var q := KcpSpec.Send(p, data).0.snd.queue;
      assert |q[n].pkt.data| == |p.snd.queue[n].pkt.data| + Extension(p, data);
    }
  }

  // ---- whole runs ----

  /** A call that is refused extends nothing. */
  predicate CleanSend(p: Pcb, data: bytes)
    requires 0 < p.cfg.mss
  {
    KcpSpec.Send(p, data).1 == 0 || Extension(p, data) == 0
  }

  predicate CleanOp(x: Peer, op: Op)
    requires 0 < x.p.cfg.mss
  {
    op.Send? ==> CleanSend(x.p, op.data)
  }

  function Side(s: System, atA: bool): Peer { if atA then s.a else s.b }

  /** No refused call at this side extended a segment. */
  predicate CleanRun(m: Arith, s: System, es: seq<Event>, atA: bool)
    requires Running(s)
  {
    es == [] ||
    (var n := |es| - 1;
     && CleanRun(m, s, es[..n], atA)
     && (es[n].atA == atA ==> CleanOp(Side(Run(m, s, es[..n]), atA), es[n].op)))
  }

  /** How many bytes more were queued than accepted. */
  function Excess(x: Peer): int { |x.queuedBytes| - |Concat(x.accepted)| }

  predicate BytesExact(x: Peer) { x.queuedBytes == Concat(x.accepted) }

  lemma DoBytes(m: Arith, x: Peer, y: Peer, op: Op)
    requires 0 < x.p.cfg.mss
    ensures var x' := Do(m, x, y, op);
            && Excess(x') == Excess(x) + (if CleanOp(x, op) then 0 else Extension(x.p, op.data))
            && (BytesExact(x) && CleanOp(x, op) ==> BytesExact(x'))
  {
    hide DoFlush, DoInput, DoRecv, DoUpdate;
    match op
    case Send(data) => SendBytes(x, data);
    case Recv(len) => RecvOnly(m, x, len);
    case Update(now) => UpdateOnly(m, x, now);
    case Flush => FlushOnly(m, x);
    case Deliver(k) => if k < |y.out| { InputOnly(m, x, y.out[k]); }
  }

  predicate SameSends(x: Peer, x': Peer) { x'.queuedBytes == x.queuedBytes && x'.accepted == x.accepted }

  lemma SendBytes(x: Peer, data: bytes)
    requires 0 < x.p.cfg.mss
    ensures var x' := DoSend(x, data);
            && Excess(x') == Excess(x) + (if CleanSend(x.p, data) then 0 else Extension(x.p, data))
            && (BytesExact(x) && CleanSend(x.p, data) ==> BytesExact(x'))
  {
    hide KcpSpec.Send, Extension;
    ConcatSnoc(x.accepted, data);
    assert data[..0] == [];
    assert x.queuedBytes + [] == x.queuedBytes;
  }

  lemma RecvOnly(m: Arith, x: Peer, len: int)
    ensures SameSends(x, DoRecv(m, x, len))
  {
    hide KcpSpec.Recv;
  }

  lemma FlushOnly(m: Arith, x: Peer)
    ensures SameSends(x, DoFlush(m, x))
  {
    hide FlushNow, Emit, Datagrams, AdmittedCount, Frags;
  }

  lemma UpdateOnly(m: Arith, x: Peer, now: int)
    ensures SameSends(x, DoUpdate(m, x, now))
  {
    hide DoFlush, Tick;
    FlushOnly(m, x.(p := Tick(x.p, U32(now)).0));
  }

  lemma InputOnly(m: Arith, x: Peer, d: Datagram)
    requires 0 < x.p.cfg.mss
    ensures SameSends(x, DoInput(m, x, d))
  {
    hide InputDatagram, Input;
  }

  /** The bytes queued at a side are those of the messages accepted there exactly when no
      refused call of the run extended a segment. */
  lemma {:induction false} RunBytes(m: Arith, ca: Config, cb: Config, es: seq<Event>, atA: bool)
    requires Compatible(ca, cb)
    ensures var x := Side(Run(m, Start(ca, cb), es), atA);
            && (BytesExact(x) <==> CleanRun(m, Start(ca, cb), es, atA))
            && (if CleanRun(m, Start(ca, cb), es, atA) then Excess(x) == 0 else Excess(x) > 0)
    decreases |es|
  {
    hide Do, CleanOp, Extension;
    if es != [] {
      var n := |es| - 1;
      RunBytes(m, ca, cb, es[..n], atA);
      var s := Run(m, Start(ca, cb), es[..n]);
      DoBytes(m, s.a, s.b, es[n].op);
      DoBytes(m, s.b, s.a, es[n].op);
      RefusedExtends(Side(s, atA), es[n].op);
    }
  }

  lemma RefusedExtends(x: Peer, op: Op)
    requires 0 < x.p.cfg.mss
    ensures !CleanOp(x, op) ==> op.Send? && Extension(x.p, op.data) > 0
  {
  }

  /** No message handed over at this side needs more than 127 full segments. */
  predicate SmallSends(es: seq<Event>, atA: bool, mss: int) {
    forall i :: 0 <= i < |es| && es[i].atA == atA && es[i].op.Send? ==> |es[i].op.data| <= 127 * mss
  }

  lemma {:induction false} SmallIsClean(m: Arith, ca: Config, cb: Config, es: seq<Event>, atA: bool)
    requires Compatible(ca, cb) && SmallSends(es, atA, if atA then ca.mss else cb.mss)
    ensures CleanRun(m, Start(ca, cb), es, atA)
    decreases |es|
  {
    hide KcpSpec.Send, Extension;
    if es != [] {
      var n := |es| - 1;
      SmallIsClean(m, ca, cb, es[..n], atA);
      if es[n].atA == atA && es[n].op.Send? {
        SizesDecide(Side(Run(m, Start(ca, cb), es[..n]), atA).p, es[n].op.data);
      }
    }
  }

  /** Outside stream mode no call extends a segment. */
  lemma {:induction false} MessagesAreClean(m: Arith, ca: Config, cb: Config, es: seq<Event>, atA: bool)
    requires Compatible(ca, cb) && !(if atA then ca else cb).stream
    ensures CleanRun(m, Start(ca, cb), es, atA)
    decreases |es|
  {
    hide KcpSpec.Send;
    if es != [] {
      MessagesAreClean(m, ca, cb, es[..|es| - 1], atA);
    }
  }

  /** What y received from x are bytes of the messages x accepted, in order. */
  ghost predicate BytesInOrder(x: Peer, y: Peer) { Concat(y.delivered) <= Concat(x.accepted) }

  /** End-to-end safety of the bytes, in stream mode and out of it: if no refused call extended
      a segment, the bytes received are a prefix of those of the accepted messages. */
  lemma BytesEndToEnd(ca: Config, cb: Config, es: seq<Event>)
    requires Compatible(ca, cb)
    ensures var s := Run(Unbounded, Start(ca, cb), es);
            && (CleanRun(Unbounded, Start(ca, cb), es, true) ==> BytesInOrder(s.a, s.b))
            && (CleanRun(Unbounded, Start(ca, cb), es, false) ==> BytesInOrder(s.b, s.a))
  {
    hide Run, CleanRun, Concat;
    EndToEnd(ca, cb, es);
    RunBytes(Unbounded, ca, cb, es, true);
    RunBytes(Unbounded, ca, cb, es, false);
  }

  /** The same for the 32-bit code. */
  lemma MachineBytesEndToEnd(ca: Config, cb: Config, es: seq<Event>)
    requires Compatible(ca, cb) && TimelyRun(Start(ca, cb), es)
    ensures var s := Run(Machine32, Start(ca, cb), es);
            && (CleanRun(Machine32, Start(ca, cb), es, true) ==> BytesInOrder(s.a, s.b))
            && (CleanRun(Machine32, Start(ca, cb), es, false) ==> BytesInOrder(s.b, s.a))
  {
    hide Run, CleanRun, Concat, TimelyRun;
    MachineEndToEnd(ca, cb, es);
    RunBytes(Machine32, ca, cb, es, true);
    RunBytes(Machine32, ca, cb, es, false);
  }

  /** Once y has received everything that x queued, the bytes are in order if and only if no
      refused call at x extended a segment. */
  lemma BytesInOrderExactly(m: Arith, ca: Config, cb: Config, es: seq<Event>)
    requires Compatible(ca, cb)
    ensures var s := Run(m, Start(ca, cb), es);
            && (Concat(s.b.delivered) == s.a.queuedBytes ==>
                  (BytesInOrder(s.a, s.b) <==> CleanRun(m, Start(ca, cb), es, true)))
            && (Concat(s.a.delivered) == s.b.queuedBytes ==>
                  (BytesInOrder(s.b, s.a) <==> CleanRun(m, Start(ca, cb), es, false)))
  {
    hide Run, CleanRun, Concat;
    RunBytes(m, ca, cb, es, true);
    RunBytes(m, ca, cb, es, false);
  }

  // ---- a run in which a refused call shows ----

  const STREAM := Config(1, 50, 26, true, WND_SND, WND_RCV, 100, 100, 0, 0, 5, true, 20)

  const ONE: bytes := [1]

  /** 128 segments: one too many. */
  function Big(): (r: bytes)
    ensures |r| == 3328
  {
    seq(3328, _ => 2)
  }

  function Filled(): (r: bytes)
    ensures |r| == 26
  {
    ONE + Big()[..25]
  }

  function Filling(): Packet { Packet(1, CMD_PUSH, 0, WND_RCV, 0, 0, 0, Filled()) }

  predicate Ready(p: Pcb) {
    && p.cfg == STREAM && p.updated && p.current == 0 && p.acks == []
    && !p.probe.ask && !p.probe.tell && p.rmtWnd == WND_RCV && p.rcv == Receiver(0, [], [], 0, 0)
  }

  lemma Updated(x: Peer)
    requires x == NewPeer(STREAM)
    ensures var u := DoUpdate(Unbounded, x, 0);
            && Ready(u.p) && u.p.snd == x.p.snd && u.out == [] && u.accepted == [] && u.delivered == []
            && u.log == []
  {
    hide ReactToLoss;
    var t := Tick(x.p, 0).0;
    assert Admit(Unbounded, t, t.snd, 32) == t.snd;
    assert Resend(t, []).out == [];
    assert FlushNow(Unbounded, t).out == [];
    assert Datagrams([], 50) == [];
  }

  lemma SendsOne(x: Peer)
    requires x.p.cfg == STREAM && x.p.snd == Sender(0, 0, [], [], 0, 0)
    ensures var u := DoSend(x, ONE);
            u == x.(p := x.p.(snd := Sender(0, 0, [Blank(0, ONE)], [], 1, 0)),
                    accepted := x.accepted + [ONE], queuedBytes := x.queuedBytes + ONE)
  {
    assert ONE[0..] == ONE && ONE[..1] == ONE;
    assert Fragments(ONE, 26, 1, true) == [Blank(0, ONE)] + Fragments([], 26, 0, true);
  }

  /** The big message is refused, and has filled the segment. */
  lemma SendsBig(x: Peer)
    requires x.p.cfg == STREAM && x.p.snd == Sender(0, 0, [Blank(0, ONE)], [], 1, 0)
    ensures KcpSpec.Send(x.p, Big()).1 == -2
    ensures var u := DoSend(x, Big());
            u == x.(p := x.p.(snd := Sender(0, 0, [Blank(0, Filled())], [], 1, 0)), queuedBytes := u.queuedBytes)
  {
    hide Big;
    assert Extension(x.p, Big()) == 25;
    assert FragmentCount(3303, 26) == 128;
    assert x.p.snd.queue[..0] == [];
    assert ExtendLast(x.p.snd.queue, 26, Big()[..25]) == [] + [Blank(0, Filled())] == [Blank(0, Filled())];
  }

  lemma FlushesFilled(x: Peer)
    requires Ready(x.p) && x.p.snd == Sender(0, 0, [Blank(0, Filled())], [], 1, 0) && x.out == []
    ensures DoFlush(Unbounded, x).out == [Packets([Filling()])]
    ensures DoFlush(Unbounded, x).accepted == x.accepted
    ensures |DoFlush(Unbounded, x).log| <= |x.log| + 1
  {
    hide ReactToLoss, Emit, Datagrams, Filled;
    var p := x.p;
    var seg := Numbered(p, p.snd.queue[0], 0);
    var s1 := Sender(0, 1, p.snd.queue[1..], [] + [seg], 0, 1);
    assert Admit(Unbounded, p, p.snd, 32) == Admit(Unbounded, p, s1, 32) == s1;
    var ds, t := Decisions(p, [seg]), Tally([], false, false, p.xmit, p.dead);
    assert ds[..0] == [] && AccountAll(p.cfg, t, ds[..0]) == t;
    assert ds[0].send && OnWire(ds[0].seg.pkt) == Filling();
    assert Resend(p, [seg]).out == [Filling()];
    assert AckPackets(p) + ProbePackets(p, ProbeTimer(p.probe, p.rmtWnd, p.current)) + [Filling()] == [Filling()];
    assert FlushNow(Unbounded, p).out == [Filling()];
    OneDatagram(Filling(), 50);
  }

  lemma ReceivesFilled(y: Peer)
    requires Ready(y.p) && y.p.snd == Sender(0, 0, [], [], 0, 0) && y.delivered == []
    ensures DoRecv(Unbounded, DoInput(Unbounded, y, Packets([Filling()])), 26).delivered == [Filled()]
    ensures DoInput(Unbounded, y, Packets([Filling()])).log == y.log
  {
    hide Filled, GrowCwnd;
    var h := Filling();
    var r1 := Receiver(0, [], [h], 0, 1);
    assert Insert(Unbounded, [], h) == [h];
    assert MoveReady(Unbounded, WND_RCV, r1)
        == MoveReady(Unbounded, WND_RCV, Receiver(1, [] + [h], [h][1..], 1, 0));
    assert [h][1..] == [] && [] + [h] == [h];
    assert ParseData(Unbounded, WND_RCV, y.p.rcv, h) == Receiver(1, [h], [], 1, 0);
    InputOne(Unbounded, Parsing(y.p, false, 0), h);
    var y1 := DoInput(Unbounded, y, Packets([h]));
    assert y1.p.rcv == Receiver(1, [h], [], 1, 0);
    hide DoInput;
    TakeOne(Unbounded, y1.p.rcv, h);
  }

  function Prelude(): seq<Event> {
    [] + [Event(true, Update(0))] + [Event(false, Update(0))] + [Event(true, Send(ONE))] + [Event(true, Send(Big()))]
  }

  function RefusalRun(): seq<Event> {
    Prelude() + [Event(true, Flush)] + [Event(false, Deliver(0))] + [Event(false, Recv(26))]
  }

  lemma AfterPrelude()
    ensures var s := Run(Unbounded, Start(STREAM, STREAM), Prelude());
            && Ready(s.a.p) && s.a.p.snd == Sender(0, 0, [Blank(0, Filled())], [], 1, 0) && s.a.out == []
            && s.a.accepted == [ONE]
            && Ready(s.b.p) && s.b.p.snd == Sender(0, 0, [], [], 0, 0) && s.b.delivered == []
            && |s.a.log| == 0 && |s.b.log| == 0
  {
    hide DoUpdate, DoSend, Big, Filled;
    var s0 := Start(STREAM, STREAM);
    var es: seq<Event> := [];
    Updated(s0.a);
    RunLast(Unbounded, s0, es, Event(true, Update(0)));
    es := es + [Event(true, Update(0))];
    RunLast(Unbounded, s0, es, Event(false, Update(0)));
    es := es + [Event(false, Update(0))];
    RunLast(Unbounded, s0, es, Event(true, Send(ONE)));
    var s := Run(Unbounded, s0, es);
    SendsOne(s.a);
    es := es + [Event(true, Send(ONE))];
    RunLast(Unbounded, s0, es, Event(true, Send(Big())));
    SendsBig(Run(Unbounded, s0, es).a);
  }

  lemma AfterRefusal()
    ensures var s := Run(Unbounded, Start(STREAM, STREAM), RefusalRun());
            s.a.accepted == [ONE] && s.b.delivered == [Filled()] && |s.a.log| <= 1 && |s.b.log| == 0
  {
    hide DoFlush, DoInput, DoRecv, Filled, Prelude, Run;
    var s0, es := Start(STREAM, STREAM), Prelude();
    AfterPrelude();
    var s := Run(Unbounded, s0, es);
    var e1, e2, e3 := Event(true, Flush), Event(false, Deliver(0)), Event(false, Recv(26));
    RunLast(Unbounded, s0, es, e1);
    RunLast(Unbounded, s0, es + [e1], e2);
    RunLast(Unbounded, s0, es + [e1] + [e2], e3);
    FlushesFilled(s.a);
    ReceivesFilled(s.b);
    KeepsLog(DoInput(Unbounded, s.b, Packets([Filling()])), 26);
  }

  lemma KeepsLog(x: Peer, len: int)
    ensures DoRecv(Unbounded, x, len).log == x.log
  {
    hide KcpSpec.Recv;
  }

  /** In stream mode a refused message shows: one byte is accepted and 26 are delivered, by the
      protocol on unbounded numbers and by the 32-bit code. */
  lemma RefusedBytesArrive()
    ensures var s := Run(Unbounded, Start(STREAM, STREAM), RefusalRun());
            s.a.accepted == [ONE] && s.b.delivered == [Filled()] && !BytesInOrder(s.a, s.b)
    ensures var s := Run(Machine32, Start(STREAM, STREAM), RefusalRun());
            s.a.accepted == [ONE] && s.b.delivered == [Filled()] && !BytesInOrder(s.a, s.b)
  {
    hide RefusalRun, Filled, Run, TimelyRun, Concat, WrapPcb;
    AfterRefusal();
    OneMore(ONE, Filled());
    ShortRunsAreTimely(STREAM, STREAM, RefusalRun());
    MachineRunsWrapped(STREAM, STREAM, RefusalRun());
  }

  lemma OneMore(a: bytes, b: bytes)
    requires |a| < |b|
    ensures !(Concat([b]) <= Concat([a]))
  {
    ConcatSnoc([], a);
    ConcatSnoc([], b);
    assert [] + [a] == [a] && [] + [b] == [b];
  }
}
