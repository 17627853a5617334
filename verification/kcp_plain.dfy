/** Ranges and sizes in every run: header fields fit their wire widths, and no datagram
    exceeds the mtu. */
module KcpPlain {
  import opened KcpSerial
  import opened KcpWire
  import opened KcpSpec
  import opened KcpNet
  import opened KcpSender
  import opened KcpReceiver
  import opened KcpSafety

  /** All fields but the two sequence numbers are in their wire ranges. */
  predicate PlainPacket(h: Packet, c: Config) {
    h.conv == c.conv && 0 <= h.frg < WND_RCV && IsU32(h.ts) && OVERHEAD + |h.data| <= c.mtu
  }

  predicate PlainDatagram(d: Datagram, c: Config) {
    && d.Packets? && d.ps != [] && WireSize(d.ps) <= c.mtu
    && forall i :: 0 <= i < |d.ps| ==> PlainPacket(d.ps[i], c)
  }

  predicate PlainSegments(ss: seq<Segment>, c: Config) {
    forall i :: 0 <= i < |ss| ==> 0 <= ss[i].pkt.frg < WND_RCV && |ss[i].pkt.data| <= c.mss
  }

  predicate PlainAcks(acks: seq<Ack>) {
    forall i :: 0 <= i < |acks| ==> IsU32(acks[i].ts)
  }

  predicate PlainPcb(p: Pcb) {
    && ConfigOk(p.cfg) && IsU32(p.current) && 0 <= p.cc.cwnd && 0 <= p.rmtWnd
    && PlainAcks(p.acks)
    && PlainSegments(p.snd.queue, p.cfg) && PlainSegments(p.snd.buf, p.cfg)
    && (forall i :: 0 <= i < |p.snd.buf| ==> p.snd.buf[i].pkt.conv == p.cfg.conv && IsU32(p.snd.buf[i].pkt.ts))
  }

  predicate Plain(x: Peer) {
    PlainPcb(x.p) && forall i :: 0 <= i < |x.out| ==> PlainDatagram(x.out[i], x.p.cfg)
  }

  // ---- input ----

  lemma {:induction false} DropAckedPlain(m: Arith, buf: seq<Segment>, una: int)
    ensures forall s :: s in DropAcked(m, buf, una) ==> s in buf
    decreases |buf|
  {
    if buf != [] && SeqDiff(m, una, buf[0].pkt.sn) > 0 {
      DropAckedPlain(m, buf[1..], una);
    }
  }

  lemma {:induction false} RemoveSnPlain(m: Arith, buf: seq<Segment>, sn: int)
    ensures forall s :: s in RemoveSn(m, buf, sn) ==> s in buf
    decreases |buf|
  {
    if buf != [] && sn != buf[0].pkt.sn && SeqDiff(m, sn, buf[0].pkt.sn) >= 0 {
      RemoveSnPlain(m, buf[1..], sn);
    }
  }

  lemma SubsetPlain(p: Pcb, buf: seq<Segment>)
    requires PlainPcb(p) && forall s :: s in buf ==> s in p.snd.buf
    ensures PlainPcb(p.(snd := p.snd.(buf := buf)))
  {
    forall i | 0 <= i < |buf|
      ensures 0 <= buf[i].pkt.frg < WND_RCV && |buf[i].pkt.data| <= p.cfg.mss
      ensures buf[i].pkt.conv == p.cfg.conv && IsU32(buf[i].pkt.ts)
    {
      assert buf[i] in p.snd.buf;
    }
  }

  lemma UnaPlain(m: Arith, p: Pcb, una: int, wnd: nat)
    requires PlainPcb(p)
    ensures PlainPcb(p.(rmtWnd := wnd, snd := Shrink(ParseUna(m, p.snd, una))))
  {
    hide DropAcked;
    DropAckedPlain(m, p.snd.buf, una);
    SubsetPlain(p, DropAcked(m, p.snd.buf, una));
  }

  lemma InputAckPlain(m: Arith, s: Parsing, h: Packet)
    requires PlainPcb(s.p)
    ensures PlainPcb(InputAck(m, s, h).p)
  {
    hide RemoveSn;
    RemoveSnPlain(m, s.p.snd.buf, h.sn);
    SubsetPlain(s.p, RemoveSn(m, s.p.snd.buf, h.sn));
  }

  lemma InputPushPlain(m: Arith, p: Pcb, h: Packet)
    requires PlainPcb(p) && IsU32(h.ts)
    ensures PlainPcb(InputPush(m, p, h))
  {
    hide ParseData;
  }

  lemma InputPacketPlain(m: Arith, s: Parsing, h: Packet)
    requires PlainPcb(s.p) && IsU32(h.ts) && 0 <= h.wnd
    ensures PlainPcb(InputPacket(m, s, h).p)
  {
    hide DropAcked, InputAck, InputPush;
    UnaPlain(m, s.p, h.una, h.wnd);
    var p := s.p.(rmtWnd := h.wnd, snd := Shrink(ParseUna(m, s.p.snd, h.una)));
    if h.cmd == CMD_ACK {
      InputAckPlain(m, s.(p := p), h);
    } else if h.cmd == CMD_PUSH {
      InputPushPlain(m, p, h);
    }
  }

  lemma {:induction false} InputPacketsPlain(m: Arith, s: Parsing, ps: seq<Packet>)
    requires PlainPcb(s.p) && forall i :: 0 <= i < |ps| ==> IsU32(ps[i].ts) && 0 <= ps[i].wnd
    ensures PlainPcb(InputPackets(m, s, ps).p)
    decreases |ps|
  {
    if ps != [] {
      InputPacketPlain(m, s, ps[0]);
      InputPacketsPlain(m, InputPacket(m, s, ps[0]), ps[1..]);
    }
  }

  lemma GrowCwndPlain(c: Congestion, mss: int, rmtWnd: int)
    requires 0 < mss && 0 <= c.cwnd && 0 <= rmtWnd
    ensures 0 <= GrowCwnd(c, mss, rmtWnd).cwnd
  {
    var g := GrowCwnd(c, mss, rmtWnd);
    if c.cwnd < rmtWnd && g.cwnd < 0 {
      var i := g.incr + mss - 1;
      assert U32(i) / mss < 0;
      QuotientNonNegative(U32(i), mss);
      assert false;
    }
  }

  lemma QuotientNonNegative(a: nat, b: int)
    requires 0 < b
    ensures 0 <= a / b
  {
  }

  lemma DeliverPlain(x: Peer, y: Peer, k: nat)
    requires Inv(x, y) && Plain(x) && Plain(y) && k < |y.out|
    ensures Plain(DoInput(Unbounded, x, y.out[k]))
  {
    var ps := y.out[k].ps;
    assert PacketsOk(ps, y.log, y.p.rcv) && PlainDatagram(y.out[k], y.p.cfg);
    forall i | 0 <= i < |ps| ensures IsU32(ps[i].ts) && 0 <= ps[i].wnd {
      assert PacketOk(ps[i], y.log, y.p.rcv) && PlainPacket(ps[i], y.p.cfg);
    }
    InputPacketsPlain(Unbounded, Parsing(x.p, false, 0), ps);
    InputPacketsKeepsConfig(Unbounded, Parsing(x.p, false, 0), ps);
    var s := InputPackets(Unbounded, Parsing(x.p, false, 0), ps);
    FinishPlain(Unbounded, s, x.p.snd.una);
  }

  lemma FinishPlain(m: Arith, s: Parsing, prevUna: int)
    requires PlainPcb(s.p)
    ensures PlainPcb(FinishInput(m, s, prevUna))
  {
    BumpFastAckIs(m, s.p.snd.buf, s.maxAck);
    var p := if s.acked then s.p.(snd := ParseFastAck(m, s.p.snd, s.maxAck)) else s.p;
    assert PlainPcb(p);
    GrowCwndPlain(p.cc, p.cfg.mss, p.rmtWnd);
  }

  // ---- send ----

  lemma {:induction false} FragmentsPlain(data: bytes, c: Config, count: nat)
    requires 0 < c.mss && count < WND_RCV
    ensures PlainSegments(Fragments(data, c.mss, count, c.stream), c)
    decreases count
  {
    if count > 0 {
      FragmentsPlain(data[Min(|data|, c.mss)..], c, count - 1);
    }
  }

  lemma SendPlain(p: Pcb, data: bytes)
    requires PlainPcb(p)
    ensures PlainPcb(KcpSpec.Send(p, data).0)
  {
    var n := Extension(p, data);
    var q := Extended(p, data);
    assert PlainSegments(q, p.cfg);
    var rest := data[n..];
    var count := FragmentCount(|rest|, p.cfg.mss);
    if count < WND_RCV {
      FragmentsPlain(rest, p.cfg, count);
      assert PlainSegments(q + Fragments(rest, p.cfg.mss, count, p.cfg.stream), p.cfg);
    }
  }

  // ---- flush ----

  lemma {:induction false} AdmitPlain(m: Arith, p: Pcb, s: Sender, cwnd: int)
    requires PlainPcb(p.(snd := s))
    ensures PlainPcb(p.(snd := Admit(m, p, s, cwnd)))
    decreases |s.queue|
  {
    if SeqDiff(m, s.nxt, SeqAdd(m, s.una, cwnd)) < 0 && s.queue != [] {
      AdmitPlain(m, p, Sender(s.una, SeqAdd(m, s.nxt, 1), s.queue[1..], s.buf + [Numbered(p, s.queue[0], s.nxt)],
                              s.nQue - 1, s.nBuf + 1), cwnd);
    }
  }

  lemma FlushOutPlain(m: Arith, p: Pcb)
    requires PlainPcb(p) && p.updated
    ensures var r := FlushNow(m, p);
            PlainPcb(r.p) && forall i :: 0 <= i < |r.out| ==> PlainPacket(r.out[i], p.cfg)
  {
    var s := Admit(m, p, p.snd, EffectiveWindow(p));
    AdmitPlain(m, p, p.snd, EffectiveWindow(p));
    ResendPlain(p, s);
    var timer := ProbeTimer(p.probe, p.rmtWnd, p.current);
    var acks, probes, out := AckPackets(p), ProbePackets(p, timer), Resend(p, s.buf).out;
    forall i | 0 <= i < |acks| ensures PlainPacket(acks[i], p.cfg) {
      assert IsU32(p.acks[i].ts);
    }
  }

  lemma ResendPlain(p: Pcb, s: Sender)
    requires PlainPcb(p) && PlainPcb(p.(snd := s))
    ensures PlainPcb(p.(snd := s.(buf := SegmentsOf(Decisions(p, s.buf)))))
    ensures forall i :: 0 <= i < |Resend(p, s.buf).out| ==> PlainPacket(Resend(p, s.buf).out[i], p.cfg)
  {
    var buf := SegmentsOf(Decisions(p, s.buf));
    forall i | 0 <= i < |buf|
      ensures 0 <= buf[i].pkt.frg < WND_RCV && |buf[i].pkt.data| <= p.cfg.mss
      ensures buf[i].pkt.conv == p.cfg.conv && IsU32(buf[i].pkt.ts)
    {
      assert Decisions(p, s.buf)[i] == Decide(p, s.buf[i]);
    }
    var out := Resend(p, s.buf).out;
    ResendSends(p, Tally([], false, false, p.xmit, p.dead), s.buf);
    forall j | 0 <= j < |out| ensures PlainPacket(out[j], p.cfg) {
      assert Resends(p, s.buf, out[j]);
      var i :| 0 <= i < |s.buf| && out[j] == OnWire(Stamped(p, s.buf[i]).pkt);
    }
  }

  lemma EmittedPlain(ps: seq<Packet>, c: Config)
    requires ConfigOk(c) && forall i :: 0 <= i < |ps| ==> PlainPacket(ps[i], c)
    ensures var r := Emit(Unbounded, Datagrams(ps, c.mtu));
            forall i :: 0 <= i < |r| ==> PlainDatagram(r[i], c)
  {
    DatagramsCorrect(ps, c.mtu);
    PackedFrom(ps, c.mtu);
    var ds := Datagrams(ps, c.mtu);
    forall i | 0 <= i < |ds| ensures PlainDatagram(Packets(ds[i]), c) {
      forall j | 0 <= j < |ds[i]| ensures PlainPacket(ds[i][j], c) {
        assert ds[i][j] in ds[i];
        assert ds[i][j] in ps;
      }
    }
  }

  lemma FlushPlain(x: Peer)
    requires Plain(x)
    ensures Plain(DoFlush(Unbounded, x))
  {
    if x.p.updated {
      FlushOutPlain(Unbounded, x.p);
      EmittedPlain(FlushNow(Unbounded, x.p).out, x.p.cfg);
    }
  }

  // ---- runs ----

  lemma RecvPlain(x: Peer, len: int)
    requires Plain(x)
    ensures Plain(DoRecv(Unbounded, x, len))
  {
    hide MoveReady, FirstMessage, Payload, PeekSize;
  }

  lemma TickPlain(x: Peer, now: int)
    requires Plain(x) && IsU32(now)
    ensures Plain(x.(p := Tick(x.p, now).0))
  {
  }

  lemma DoPlain(x: Peer, y: Peer, op: Op)
    requires Inv(x, y) && Plain(x) && Plain(y)
    ensures Plain(Do(Unbounded, x, y, op))
  {
    hide DoFlush, DoInput, MoveReady, Fragments, Inv;
    match op
    case Send(data) => SendPlain(x.p, data);
    case Recv(len) => RecvPlain(x, len);
    case Update(now) =>
      TickPlain(x, U32(now));
      FlushPlain(x.(p := Tick(x.p, U32(now)).0));
    case Flush => FlushPlain(x);
    case Deliver(k) => if k < |y.out| { DeliverPlain(x, y, k); }
  }

  lemma {:induction false} RunPlain(ca: Config, cb: Config, es: seq<Event>)
    requires Compatible(ca, cb)
    ensures var s := Run(Unbounded, Start(ca, cb), es);
            Plain(s.a) && Plain(s.b)
    decreases |es|
  {
    if es != [] {
      var n := |es| - 1;
      var s := Run(Unbounded, Start(ca, cb), es[..n]);
      RunPlain(ca, cb, es[..n]);
      RunInv(ca, cb, es[..n]);
      if es[n].atA {
        DoPlain(s.a, s.b, es[n].op);
      } else {
        DoPlain(s.b, s.a, es[n].op);
      }
    }
  }
}
