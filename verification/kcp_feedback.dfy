/** What the two sides tell each other: the header fields of every packet a flush sends, the
    acknowledgements and the window it reports, and when the window is reported at all. */
module KcpFeedback {
  import opened KcpSerial
  import opened KcpWire
  import opened KcpSpec
  import opened KcpNet
  import opened KcpSender
  import opened KcpSafety
  import opened KcpPlain
  import opened KcpCalls
  import opened KcpProbe
  import opened KcpLoss
  import opened KcpSample
  import opened KcpStream
  import KcpWrap

  // ---- what a flush says ----

  /** How many more packets the receive queue takes. */
  function Free(p: Pcb): int { Max(p.cfg.rcvWnd - |p.rcv.queue|, 0) }

  /** What every packet of this side carries: one of the four commands, its conversation, the
      next number it expects, and its free window in 16 bits; only data packets have payload. */
  predicate Announces(p: Pcb, h: Packet) {
    && 81 <= h.cmd <= 84 && h.conv == p.cfg.conv
    && h.una == p.rcv.nxt && h.wnd == Free(p) % 0x1_0000
    && (h.cmd != 81 ==> h.frg == 0 && h.data == [])
  }

  predicate AllAnnounce(p: Pcb, out: seq<Packet>) { forall i :: 0 <= i < |out| ==> Announces(p, out[i]) }

  predicate Repeats(p: Pcb, h: Packet) {
    var n := |p.acks|;
    if n == 0 then h.sn == 0 && h.ts == 0 else h.sn == p.acks[n - 1].sn && h.ts == p.acks[n - 1].ts
  }

  /** First the pending acknowledgements, each once and in order, and no others; an answer to a
      window probe exactly when one is due. A probe and an answer repeat the number and time of
      the last of these acknowledgements, or zeros. */
  predicate Speaks(p: Pcb, out: seq<Packet>) {
    var n := |p.acks|;
    && n <= |out|
    && (forall i :: 0 <= i < n ==> out[i].cmd == 82 && out[i].sn == p.acks[i].sn && out[i].ts == p.acks[i].ts)
    && (forall i :: n <= i < |out| ==> out[i].cmd != 82 && (out[i].cmd == 81 || Repeats(p, out[i])))
    && (p.probe.tell <==> exists i :: n <= i < |out| && out[i].cmd == 84)
    && AllAnnounce(p, out)
  }

  /** The segments in flight are data packets of this conversation. */
  predicate Own(p: Pcb, buf: seq<Segment>) {
    forall i :: 0 <= i < |buf| ==> buf[i].pkt.cmd == CMD_PUSH && buf[i].pkt.conv == p.cfg.conv
  }

  lemma {:induction false} AdmitOwn(m: Arith, p: Pcb, s: Sender, cwnd: int)
    requires Own(p, s.buf)
    ensures Own(p, Admit(m, p, s, cwnd).buf)
    decreases |s.queue|
  {
    if s.queue != [] {
      AdmitOwn(m, p, Sender(s.una, SeqAdd(m, s.nxt, 1), s.queue[1..], s.buf + [Numbered(p, s.queue[0], s.nxt)],
                            s.nQue - 1, s.nBuf + 1), cwnd);
    }
  }

  lemma ResentAnnounce(p: Pcb, buf: seq<Segment>)
    requires Own(p, buf) && p.rcv.nQue == |p.rcv.queue|
    ensures var out := Resend(p, buf).out;
            AllAnnounce(p, out) && forall i :: 0 <= i < |out| ==> out[i].cmd == 81
  {
    hide Decisions, AccountAll, Resends;
    var out := Resend(p, buf).out;
    ResendSends(p, Tally([], false, false, p.xmit, p.dead), buf);
    forall i | 0 <= i < |out| ensures Announces(p, out[i]) && out[i].cmd == 81 {
      ResentAnnounces(p, buf, out[i]);
    }
  }

  lemma ResentAnnounces(p: Pcb, buf: seq<Segment>, h: Packet)
    requires Own(p, buf) && p.rcv.nQue == |p.rcv.queue| && Resends(p, buf, h)
    ensures Announces(p, h) && h.cmd == 81
  {
    var i :| 0 <= i < |buf| && h == OnWire(Stamped(p, buf[i]).pkt);
  }

  lemma ControlsAnnounce(p: Pcb, b: Probe)
    requires p.rcv.nQue == |p.rcv.queue|
    ensures AllAnnounce(p, AckPackets(p)) && AllAnnounce(p, ProbePackets(p, b))
    ensures var q := ProbePackets(p, b);
            && (forall i :: 0 <= i < |q| ==> q[i].cmd != 82 && Repeats(p, q[i]))
            && (b.tell <==> exists i :: 0 <= i < |q| && q[i].cmd == 84)
  {
    var q := ProbePackets(p, b);
    if b.tell {
      assert q[|q| - 1].cmd == 84;
    }
  }

  lemma SpeaksInParts(p: Pcb, acks: seq<Packet>, probes: seq<Packet>, data: seq<Packet>)
    requires |acks| == |p.acks|
    requires forall i :: 0 <= i < |acks| ==>
               acks[i].cmd == 82 && acks[i].sn == p.acks[i].sn && acks[i].ts == p.acks[i].ts
    requires AllAnnounce(p, acks) && AllAnnounce(p, probes) && AllAnnounce(p, data)
    requires forall i :: 0 <= i < |probes| ==> probes[i].cmd != 82 && Repeats(p, probes[i])
    requires p.probe.tell <==> exists i :: 0 <= i < |probes| && probes[i].cmd == 84
    requires forall i :: 0 <= i < |data| ==> data[i].cmd == 81
    ensures Speaks(p, acks + probes + data)
  {
    hide Announces, Repeats;
    var out, n := acks + probes + data, |acks|;
    forall i | n <= i < |out|
      ensures out[i] == if i < n + |probes| then probes[i - n] else data[i - n - |probes|]
    {
    }
    if p.probe.tell {
      var i :| 0 <= i < |probes| && probes[i].cmd == 84;
      assert out[n + i] == probes[i];
    }
    forall i | 0 <= i < |out| ensures Announces(p, out[i]) {
      if i < n {
        assert out[i] == acks[i];
      }
    }
  }

  /** A flush says so, in both arithmetics. */
  lemma FlushSpeaks(m: Arith, p: Pcb)
    requires Own(p, p.snd.buf) && p.rcv.nQue == |p.rcv.queue|
    ensures Speaks(p, FlushNow(m, p).out)
  {
    hide Admit, Resend, ReactToLoss, Decisions, ProbeTimer, AckPackets, ProbePackets, AllAnnounce, Speaks;
    var b := ProbeTimer(p.probe, p.rmtWnd, p.current);
    TimerTells(p);
    var s := Admit(m, p, p.snd, EffectiveWindow(p));
    AdmitOwn(m, p, p.snd, EffectiveWindow(p));
    ResentAnnounce(p, s.buf);
    ControlsAnnounce(p, b);
    SpeaksInParts(p, AckPackets(p), ProbePackets(p, b), Resend(p, s.buf).out);
  }

  lemma TimerTells(p: Pcb)
    ensures ProbeTimer(p.probe, p.rmtWnd, p.current).tell == p.probe.tell
  {
  }

  // ---- what a packet makes of the other side ----

  /** From p to q on the packet h: its window is the peer's window; a probe asks for an answer;
      a data packet below the end of the receive window is to be acknowledged, also when it is
      a duplicate. */
  predicate Heard(m: Arith, p: Pcb, h: Packet, q: Pcb) {
    && q.rmtWnd == h.wnd
    && q.probe == p.probe.(tell := p.probe.tell || h.cmd == 83)
    && q.acks == p.acks + (if h.cmd == 81 && Below(m, h.sn, p.rcv.nxt + p.cfg.rcvWnd) then [Ack(h.sn, h.ts)] else [])
    && (h.cmd != 81 ==> q.rcv == p.rcv)
    && q.current == p.current && q.cfg == p.cfg && q.cc == p.cc
  }

  predicate Below(m: Arith, a: int, b: int) { if m.Machine32? then TimeDiff(a, U32(b)) < 0 else a < b }

  lemma PacketHeard(m: Arith, s: Parsing, h: Packet)
    ensures Heard(m, s.p, h, InputPacket(m, s, h).p)
  {
    hide Shrink, ParseUna, InputAck, InputPush, Below;
    var p := s.p.(rmtWnd := h.wnd, snd := Shrink(ParseUna(m, s.p.snd, h.una)));
    AckHeard(m, s.(p := p), h);
    PushHeard(m, p, h);
  }

  lemma AckHeard(m: Arith, s: Parsing, h: Packet)
    ensures var q := InputAck(m, s, h).p;
            q == s.p.(snd := q.snd, rtt := q.rtt)
  {
    hide ParseAck, UpdateAck;
  }

  lemma PushHeard(m: Arith, p: Pcb, h: Packet)
    ensures var q := InputPush(m, p, h);
            && q == p.(acks := q.acks, rcv := q.rcv)
            && q.acks == p.acks + (if Below(m, h.sn, p.rcv.nxt + p.cfg.rcvWnd) then [Ack(h.sn, h.ts)] else [])
  {
    hide ParseData, TimeDiff, U32;
  }

  /** The window after a datagram is the one in its last packet, and a probe in it asks for an
      answer. */
  predicate HeardAll(p: Pcb, ps: seq<Packet>, q: Pcb) {
    && q.rmtWnd == (if ps == [] then p.rmtWnd else ps[|ps| - 1].wnd)
    && (q.probe.tell <==> p.probe.tell || exists i :: 0 <= i < |ps| && ps[i].cmd == 83)
  }

  lemma HeardCons(m: Arith, p: Pcb, h: Packet, p1: Pcb, ps: seq<Packet>, q: Pcb)
    requires Heard(m, p, h, p1) && HeardAll(p1, ps, q)
    ensures HeardAll(p, [h] + ps, q)
  {
    var all := [h] + ps;
    if q.probe.tell && !p.probe.tell {
      if p1.probe.tell {
        assert all[0].cmd == 83;
      } else {
        var i :| 0 <= i < |ps| && ps[i].cmd == 83;
        assert all[i + 1].cmd == 83;
      }
    }
    assert forall i :: 1 <= i < |all| ==> all[i] == ps[i - 1];
  }

  lemma {:induction false} PacketsHeard(m: Arith, s: Parsing, ps: seq<Packet>)
    ensures HeardAll(s.p, ps, InputPackets(m, s, ps).p)
    decreases |ps|
  {
    hide InputPacket, Heard, HeardAll;
    if ps == [] {
      assert HeardAll(s.p, ps, s.p) by { NothingHeard(s.p, ps); }
    } else {
      PacketHeard(m, s, ps[0]);
      PacketsHeard(m, InputPacket(m, s, ps[0]), ps[1..]);
      HeardCons(m, s.p, ps[0], InputPacket(m, s, ps[0]).p, ps[1..], InputPackets(m, s, ps).p);
      assert [ps[0]] + ps[1..] == ps;
    }
  }

  lemma NothingHeard(p: Pcb, ps: seq<Packet>)
    requires ps == []
    ensures HeardAll(p, ps, p)
  {
  }

  lemma DatagramHeard(m: Arith, p: Pcb, ps: seq<Packet>)
    requires 0 < p.cfg.mss
    ensures HeardAll(p, ps, InputDatagram(m, p, ps))
  {
    hide InputPackets, GrowCwnd, ParseFastAck;
    PacketsHeard(m, Parsing(p, false, 0), ps);
    InputPacketsKeepsConfig(m, Parsing(p, false, 0), ps);
  }

  // ---- reading ----

  /** `ikcp_recv` asks for the window to be reported exactly when a queue that filled the window
      no longer does. */
  lemma RecvTells(m: Arith, p: Pcb, len: int)
    ensures var q := KcpSpec.Recv(m, p, len).p;
            q.probe == p.probe.(tell := p.probe.tell || (p.cfg.rcvWnd <= p.rcv.nQue && q.rcv.nQue < p.cfg.rcvWnd))
  {
    hide MoveReady, FirstMessage, Payload, PeekSize;
  }

  /** The result of `ikcp_recv`: -1 when nothing is queued, -2 when the next message is
      incomplete, -3 when it does not fit, and otherwise its size. */
  lemma RecvCodes(x: Peer, y: Peer, len: int)
    requires KcpReceiver.RcvOk(x.p.rcv, x.p.cfg.rcvWnd, y.log) && Chained(AllFrags(y))
    ensures var c, q, code := KcpReceiver.Taken(x.p.rcv), x.p.rcv.queue, KcpSpec.Recv(Unbounded, x.p, len).code;
            if q == [] then code == -1
            else if |q| <= y.log[c].frg then code == -2
            else
              && 0 <= y.log[c].frg
              && var size := |Bytes0(y.log[c..c + y.log[c].frg + 1])|;
                 code == if (if len < 0 then -len else len) < size then -3 else size
  {
    hide MoveReady, FirstMessage, Payload, PeekSize, Chained, Bytes0;
    var c, fs := KcpReceiver.Taken(x.p.rcv), AllFrags(y);
    if x.p.rcv.queue != [] {
      var n := fs[c].frg + 1;
      KcpReceiver.PeekSizeIs(x.p.rcv, x.p.cfg.rcvWnd, y.log, fs);
      assert n <= |x.p.rcv.queue| ==> fs[c..c + n] == y.log[c..c + n];
    }
  }

  // ---- whole runs ----

  /** A datagram as a flush of this conversation writes it. */
  predicate Whole(m: Arith, d: Datagram, conv: int) {
    var ps := PacketsOf(d);
    && ps != [] && (d.Bytes? <==> m.Machine32?)
    && (d.Bytes? ==>
         && d.b == EncodeAll(ps) && AllEncodable(ps)
         && forall i :: 0 <= i < |ps| ==> ps[i].conv == conv && KnownCommand(ps[i].cmd))
  }

  /** The bytes of a datagram whose packets can be read back are those of these packets. */
  lemma BytesAreWhole(ps: seq<Packet>, conv: int)
    requires ps != [] && AllEncodable(ps)
    requires forall i :: 0 <= i < |ps| ==> ps[i].conv == conv && KnownCommand(ps[i].cmd)
    ensures Whole(Machine32, Bytes(EncodeAll(ps)), conv) && PacketsOf(Bytes(EncodeAll(ps))) == ps
  {
    hide Encodable, EncodeAll, Parse, KnownCommand;
    ParseEncodeAll(ps);
  }

  /** What a flush needs to be read back, and what its packets announce. */
  predicate Steady(m: Arith, p: Pcb) {
    && ConfigOk(p.cfg) && Own(p, p.snd.buf) && p.rcv.nQue == |p.rcv.queue|
    && Readable(m, p) && (m.Unbounded? ==> PlainPcb(p))
  }

  lemma FlushFits(m: Arith, p: Pcb)
    requires Steady(m, p) && p.updated
    ensures Fits(FlushNow(m, p).out, p.cfg.mtu)
    ensures m.Machine32? ==> AllEncodable(FlushNow(m, p).out)
  {
    hide FlushNow, Encodable;
    FlushOutPlain(m, p);
    if m.Machine32? {
      FlushSound(p);
    }
    var out := FlushNow(m, p).out;
    forall i | 0 <= i < |out| ensures OVERHEAD + |out[i].data| <= p.cfg.mtu {
      assert PlainPacket(out[i], p.cfg);
    }
  }

  /** Each datagram a flush adds is whole, and its packets announce. */
  predicate Announced(m: Arith, p: Pcb, d: Datagram) {
    Whole(m, d, p.cfg.conv) && AllAnnounce(p, PacketsOf(d))
  }

  lemma EmittedAnnounced(m: Arith, p: Pcb, out: seq<Packet>)
    requires 50 <= p.cfg.mtu && Fits(out, p.cfg.mtu) && AllAnnounce(p, out)
    requires m.Machine32? ==> AllEncodable(out)
    ensures var ds := Emit(m, Datagrams(out, p.cfg.mtu));
            forall i :: 0 <= i < |ds| ==> Announced(m, p, ds[i])
  {
    hide Datagrams, WireSize, Encodable, Whole, PacketsOf, Announces;
    PackedFrom(out, p.cfg.mtu);
    DatagramsCorrect(out, p.cfg.mtu);
    var ds := Datagrams(out, p.cfg.mtu);
    forall i | 0 <= i < |ds| ensures Announced(m, p, Emit(m, ds)[i]) {
      forall j | 0 <= j < |ds[i]| ensures ds[i][j] in out && Announces(p, ds[i][j]) {
        assert ds[i][j] in ds[i];
      }
      OneAnnounced(m, p, ds[i]);
    }
  }

  lemma OneAnnounced(m: Arith, p: Pcb, ps: seq<Packet>)
    requires ps != [] && AllAnnounce(p, ps) && (m.Machine32? ==> AllEncodable(ps))
    ensures Announced(m, p, if m.Machine32? then Bytes(EncodeAll(ps)) else Packets(ps))
  {
    hide EncodeAll, Parse, Encodable;
    if m.Machine32? {
      forall i | 0 <= i < |ps| ensures ps[i].conv == p.cfg.conv && KnownCommand(ps[i].cmd) {
        assert Announces(p, ps[i]);
      }
      BytesAreWhole(ps, p.cfg.conv);
    }
  }

  lemma FlushAnnounced(m: Arith, x: Peer)
    requires Steady(m, x.p)
    ensures var x' := DoFlush(m, x);
            && |x.out| <= |x'.out|
            && forall i :: |x.out| <= i < |x'.out| ==> Announced(m, x'.p, x'.out[i])
  {
    hide FlushNow, Datagrams, Whole, PacketsOf, Speaks, Readable;
    if x.p.updated {
      var r := FlushNow(m, x.p);
      FlushFits(m, x.p);
      FlushSpeaks(m, x.p);
      assert AllAnnounce(x.p, r.out) by { SpeaksAnnounces(x.p, r.out); }
      EmittedAnnounced(m, x.p, r.out);
      FlushKeepsReceiver(m, x.p);
      var ds := Emit(m, Datagrams(r.out, x.p.cfg.mtu));
      var x' := DoFlush(m, x);
      forall i | |x.out| <= i < |x'.out| ensures Announced(m, x'.p, x'.out[i]) {
        assert x'.out[i] == ds[i - |x.out|];
        SameAnnounced(m, x.p, x'.p, x'.out[i]);
      }
    }
  }

  lemma SpeaksAnnounces(p: Pcb, out: seq<Packet>)
    requires Speaks(p, out)
    ensures AllAnnounce(p, out)
  {
  }

  lemma FlushKeepsReceiver(m: Arith, p: Pcb)
    ensures FlushNow(m, p).p.rcv == p.rcv && FlushNow(m, p).p.cfg == p.cfg
  {
  }

  lemma SameAnnounced(m: Arith, p: Pcb, q: Pcb, d: Datagram)
    requires Announced(m, p, d) && q.rcv == p.rcv && q.cfg == p.cfg
    ensures Announced(m, q, d)
  {
    hide Whole, PacketsOf;
    forall i | 0 <= i < |PacketsOf(d)| ensures Announces(q, PacketsOf(d)[i]) {
      assert Announces(p, PacketsOf(d)[i]);
    }
  }

  lemma TickSteady(m: Arith, p: Pcb, now: int)
    requires Steady(m, p)
    ensures Steady(m, Tick(p, U32(now)).0)
  {
    hide U32, TimeDiff;
    TickReadable(m, p, now);
  }

  lemma DoAnnounced(m: Arith, x: Peer, y: Peer, op: Op)
    requires 0 < x.p.cfg.mss && Steady(m, x.p)
    ensures var x' := Do(m, x, y, op);
            && |x.out| <= |x'.out|
            && forall i :: |x.out| <= i < |x'.out| ==> Announced(m, x'.p, x'.out[i])
  {
    hide DoFlush, DoInput, Steady, Announced;
    match op
    case Send(data) => OthersSilent(m, x, y, op);
    case Recv(len) => OthersSilent(m, x, y, op);
    case Update(now) =>
      TickSteady(m, x.p, now);
      FlushAnnounced(m, x.(p := Tick(x.p, U32(now)).0));
    case Flush => FlushAnnounced(m, x);
    case Deliver(k) => if k < |y.out| { InputAcks(m, x, y.out[k]); }
  }

  lemma RunSteady(m: Arith, ca: Config, cb: Config, es: seq<Event>)
    requires Compatible(ca, cb)
    ensures var s := Run(m, Start(ca, cb), es);
            Steady(m, s.a.p) && Steady(m, s.b.p)
  {
    hide Run, EndOk, NoLoss, Delivered;
    RunReadable(m, ca, cb, es);
    if m.Machine32? {
      RunMachineOk(ca, cb, es);
    } else {
      RunInv(ca, cb, es);
      RunPlain(ca, cb, es);
    }
  }

  lemma StepAnnounced(m: Arith, ca: Config, cb: Config, es: seq<Event>, k: nat, atA: bool)
    requires Compatible(ca, cb) && k < |es|
    ensures var x, x' := PeerAt(m, ca, cb, es, k, atA), PeerAt(m, ca, cb, es, k + 1, atA);
            && |x.out| <= |x'.out|
            && forall i :: |x.out| <= i < |x'.out| ==> Announced(m, x'.p, x'.out[i])
  {
    hide Do, Steady, Announced;
    assert es[..k + 1][..k] == es[..k];
    var s := Run(m, Start(ca, cb), es[..k]);
    RunSteady(m, ca, cb, es[..k]);
    if es[k].atA == atA {
      DoAnnounced(m, Side(s, atA), Side(s, !atA), es[k].op);
    }
  }

  /** Every packet in the network, in every run of the unbounded protocol and of the machine
      alike, announces what its sender expected and could take when it left. */
  lemma RunAnnounces(m: Arith, ca: Config, cb: Config, es: seq<Event>, atA: bool, i: nat) returns (n: nat)
    requires Compatible(ca, cb) && i < |PeerAt(m, ca, cb, es, |es|, atA).out|
    ensures n < |es|
    ensures Announced(m, PeerAt(m, ca, cb, es, n + 1, atA).p, PeerAt(m, ca, cb, es, |es|, atA).out[i])
  {
    hide PeerAt, Announced;
    n := LeftWhen(m, ca, cb, es, |es|, atA, i);
    StepAnnounced(m, ca, cb, es, n, atA);
  }

  lemma ConfigsStand(m: Arith, ca: Config, cb: Config, es: seq<Event>, k: nat, atA: bool)
    requires Compatible(ca, cb) && k <= |es|
    ensures PeerAt(m, ca, cb, es, k, atA).p.cfg == if atA then ca else cb
  {
  }

  /** What a delivery does in a run is what `ikcp_input` does with the packets of the datagram,
      all of them. */
  lemma DeliveryIsDatagram(m: Arith, ca: Config, cb: Config, es: seq<Event>, atA: bool, i: nat)
    requires Compatible(ca, cb) && i < |PeerAt(m, ca, cb, es, |es|, !atA).out|
    ensures var x, d := PeerAt(m, ca, cb, es, |es|, atA), PeerAt(m, ca, cb, es, |es|, !atA).out[i];
            && 0 < x.p.cfg.mss && PacketsOf(d) != []
            && DoInput(m, x, d).p == InputDatagram(m, x.p, PacketsOf(d))
  {
    hide PeerAt, InputDatagram, EncodeAll, Encodable, Parse, KnownCommand;
    var x, d := PeerAt(m, ca, cb, es, |es|, atA), PeerAt(m, ca, cb, es, |es|, !atA).out[i];
    var n := RunAnnounces(m, ca, cb, es, !atA, i);
    ConfigsStand(m, ca, cb, es, |es|, atA);
    ConfigsStand(m, ca, cb, es, n + 1, !atA);
    if d.Bytes? {
      KcpWrap.InputIsDatagram(x.p, PacketsOf(d));
    }
  }

  /** The queue of x filled its window before, and no longer does. */
  predicate Reopened(x: Peer, x': Peer) {
    x.p.cfg.rcvWnd <= |x.p.rcv.queue| && |x'.p.rcv.queue| < x.p.cfg.rcvWnd
  }

  /** A window probe is among the packets that `op` delivers. */
  predicate Asked(y: Peer, op: Op) {
    && op.Deliver? && op.k < |y.out|
    && exists i :: 0 <= i < |PacketsOf(y.out[op.k])| && PacketsOf(y.out[op.k])[i].cmd == 83
  }

  /** A flush sends what it should and leaves nothing to report; any other call keeps a report
      that is due, and only a probe or a reopened window makes one due. */
  predicate Reports(m: Arith, x: Peer, y: Peer, op: Op, x': Peer) {
    if Flushes(x.p, op) then
      var p := AtFlush(x.p, op);
      Speaks(p, FlushNow(m, p).out) && !x'.p.probe.tell && x'.p.acks == []
    else
      x'.p.probe.tell <==> x.p.probe.tell || Asked(y, op) || (op.Recv? && Reopened(x, x'))
  }

  lemma FlushReports(m: Arith, x: Peer, y: Peer, op: Op)
    requires 0 < x.p.cfg.mss && Steady(m, x.p) && Flushes(x.p, op)
    ensures Reports(m, x, y, op, Do(m, x, y, op))
  {
    hide FlushNow, Speaks, U32, Datagrams, Readable;
    var p := AtFlush(x.p, op);
    if op.Update? {
      TickSteady(m, x.p, op.now);
    }
    FlushSpeaks(m, p);
    FlushClearsReports(m, p);
    FlushClears(m, p);
  }

  lemma FlushClearsReports(m: Arith, p: Pcb)
    ensures !FlushNow(m, p).p.probe.tell
  {
  }

  lemma QuietReports(m: Arith, x: Peer, y: Peer, op: Op)
    requires 0 < x.p.cfg.mss && !Flushes(x.p, op) && !op.Deliver? && !op.Recv?
    ensures Reports(m, x, y, op, Do(m, x, y, op))
  {
    hide FlushNow, U32, FragmentCount, Fragments;
  }

  lemma RecvReports(m: Arith, x: Peer, y: Peer, len: int)
    requires 0 < x.p.cfg.mss && Steady(m, x.p) && Steady(m, DoRecv(m, x, len).p)
    ensures Reports(m, x, y, Op.Recv(len), Do(m, x, y, Op.Recv(len)))
  {
    hide KcpSpec.Recv, Readable, Own;
    RecvTells(m, x.p, len);
  }

  /** In every run, of the unbounded protocol and of the machine alike, every call at the side
      `es[k].atA` reports so. */
  lemma RunReports(m: Arith, ca: Config, cb: Config, es: seq<Event>, k: nat)
    requires Compatible(ca, cb) && k < |es|
    ensures Reports(m, PeerAt(m, ca, cb, es, k, es[k].atA), PeerAt(m, ca, cb, es, k, !es[k].atA), es[k].op,
                    PeerAt(m, ca, cb, es, k + 1, es[k].atA))
  {
    hide Do, Steady, Reports, Flushes, DoInput;
    assert es[..k + 1][..k] == es[..k];
    var s := Run(m, Start(ca, cb), es[..k]);
    RunSteady(m, ca, cb, es[..k]);
    RunSteady(m, ca, cb, es[..k + 1]);
    var x, y, op := Side(s, es[k].atA), Side(s, !es[k].atA), es[k].op;
    if Flushes(x.p, op) {
      FlushReports(m, x, y, op);
    } else if op.Recv? {
      DoIsRecv(m, x, y, op.len);
      RecvReports(m, x, y, op.len);
    } else if op.Deliver? {
      DeliveryReports(m, ca, cb, es[..k], es[k]);
    } else {
      QuietReports(m, x, y, op);
    }
  }

  lemma DoIsRecv(m: Arith, x: Peer, y: Peer, len: int)
    requires 0 < x.p.cfg.mss
    ensures Do(m, x, y, Op.Recv(len)) == DoRecv(m, x, len)
  {
  }

  lemma DeliveryReports(m: Arith, ca: Config, cb: Config, es: seq<Event>, e: Event)
    requires Compatible(ca, cb) && e.op.Deliver?
    ensures var s := Run(m, Start(ca, cb), es);
            var x, y := Side(s, e.atA), Side(s, !e.atA);
            0 < x.p.cfg.mss && Reports(m, x, y, e.op, Do(m, x, y, e.op))
  {
    hide Run, InputDatagram, DoInput, PacketsOf;
    assert es[..|es|] == es;
    var s := Run(m, Start(ca, cb), es);
    var x, y := Side(s, e.atA), Side(s, !e.atA);
    if e.op.k < |y.out| {
      DeliveryIsDatagram(m, ca, cb, es, e.atA, e.op.k);
      DatagramHeard(m, x.p, PacketsOf(y.out[e.op.k]));
    }
  }

  // ---- the peer's window ----

  /** The window x believes its peer has: the initial one, or that of a packet its peer has
      sent. */
  ghost predicate Believes(x: Peer, y: Peer) {
    x.p.rmtWnd == 128 || exists i, h :: 0 <= i < |y.out| && h in PacketsOf(y.out[i]) && h.wnd == x.p.rmtWnd
  }

  lemma BelievesGrows(x: Peer, x': Peer, y: Peer, y': Peer)
    requires Believes(x, y) && x'.p.rmtWnd == x.p.rmtWnd && |y.out| <= |y'.out| && y'.out[..|y.out|] == y.out
    ensures Believes(x', y')
  {
    if x.p.rmtWnd != 128 {
      var i, h :| 0 <= i < |y.out| && h in PacketsOf(y.out[i]) && h.wnd == x.p.rmtWnd;
      assert y'.out[i] == y'.out[..|y.out|][i];
    }
  }

  lemma OthersBelieve(m: Arith, x: Peer, y: Peer, op: Op)
    requires 0 < x.p.cfg.mss && !(op.Deliver? && op.k < |y.out|)
    ensures Do(m, x, y, op).p.rmtWnd == x.p.rmtWnd
  {
    hide U32, FragmentCount, Fragments, MoveReady;
  }

  lemma {:induction false} RunBelieves(m: Arith, ca: Config, cb: Config, es: seq<Event>, atA: bool)
    requires Compatible(ca, cb)
    ensures Believes(PeerAt(m, ca, cb, es, |es|, atA), PeerAt(m, ca, cb, es, |es|, !atA))
    decreases |es|
  {
    hide Do, DoInput, PacketsOf, SentBy, InputDatagram;
    assert es[..|es|] == es;
    if es != [] {
      var n := |es| - 1;
      var pre := es[..n];
      assert pre[..n] == pre;
      var s := Run(m, Start(ca, cb), pre);
      var x, y, op := Side(s, atA), Side(s, !atA), es[n].op;
      var x', y' := PeerAt(m, ca, cb, es, |es|, atA), PeerAt(m, ca, cb, es, |es|, !atA);
      RunBelieves(m, ca, cb, pre, atA);
      StepSentBy(m, ca, cb, es, n, !atA);
      OutGrows(y, y');
      if es[n].atA == atA && op.Deliver? && op.k < |y.out| {
        DeliveryIsDatagram(m, ca, cb, pre, atA, op.k);
        DatagramHeard(m, x.p, PacketsOf(y.out[op.k]));
        DeliveryBelieves(m, x, y, op.k);
      } else {
        if es[n].atA == atA {
          OthersBelieve(m, x, y, op);
        }
        BelievesGrows(x, x', y, y');
      }
    }
  }

  lemma OutGrows(x: Peer, x': Peer)
    requires SentBy(x, x')
    ensures |x.out| <= |x'.out| && x'.out[..|x.out|] == x.out
  {
  }

  lemma DeliveryBelieves(m: Arith, x: Peer, y: Peer, k: nat)
    requires 0 < x.p.cfg.mss && k < |y.out| && PacketsOf(y.out[k]) != []
    requires DoInput(m, x, y.out[k]).p == InputDatagram(m, x.p, PacketsOf(y.out[k]))
    requires HeardAll(x.p, PacketsOf(y.out[k]), InputDatagram(m, x.p, PacketsOf(y.out[k])))
    ensures Believes(Do(m, x, y, Op.Deliver(k)), y)
  {
    hide DoInput, InputDatagram, PacketsOf;
    var ps := PacketsOf(y.out[k]);
    assert ps[|ps| - 1] in ps;
  }

  /** In every run, of the unbounded protocol and of the machine alike, the window a side keeps
      to is the initial 128 or the room its peer had in some earlier state. */
  lemma RunPeerWindow(m: Arith, ca: Config, cb: Config, es: seq<Event>, atA: bool) returns (n: nat)
    requires Compatible(ca, cb)
    ensures n <= |es|
    ensures var w := PeerAt(m, ca, cb, es, |es|, atA).p.rmtWnd;
            w == 128 || w == Free(PeerAt(m, ca, cb, es, n, !atA).p) % 0x1_0000
  {
    hide PeerAt, PacketsOf, Whole;
    RunBelieves(m, ca, cb, es, atA);
    var x, y := PeerAt(m, ca, cb, es, |es|, atA), PeerAt(m, ca, cb, es, |es|, !atA);
    n := 0;
    if x.p.rmtWnd != 128 {
      var i, h :| 0 <= i < |y.out| && h in PacketsOf(y.out[i]) && h.wnd == x.p.rmtWnd;
      n := RunAnnounces(m, ca, cb, es, !atA, i);
      var p := PeerAt(m, ca, cb, es, n + 1, !atA).p;
      var j :| 0 <= j < |PacketsOf(y.out[i])| && PacketsOf(y.out[i])[j] == h;
      assert Announces(p, PacketsOf(y.out[i])[j]);
      n := n + 1;
    }
  }
}
