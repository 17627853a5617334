/** One endpoint called in any order, with any bytes arriving: what holds without trusting
    the peer or the network. */
module KcpCalls {
  import opened KcpSerial
  import opened KcpWire
  import opened KcpSpec
  import opened KcpNet
  import opened KcpSender
  import opened KcpSafety
  import opened KcpPlain

  datatype Call = CallSend(data: bytes) | CallRecv(len: int) | CallInput(b: bytes) | CallUpdate(now: int) | CallFlush

  function Perform(p: Pcb, c: Call): Pcb
    requires 0 < p.cfg.mss
  {
    match c
    case CallSend(data) => KcpSpec.Send(p, data).0
    case CallRecv(len) => KcpSpec.Recv(Machine32, p, len).p
    case CallInput(b) => Input(p, b).0
    case CallUpdate(now) => KcpSpec.Update(Machine32, p, U32(now)).p
    case CallFlush => KcpSpec.Flush(Machine32, p).p
  }

  function PerformAll(c: Config, calls: seq<Call>): (p: Pcb)
    requires 0 < c.mss
    ensures p.cfg == c
  {
    if calls == [] then Create(c)
    else
      var p := PerformAll(c, calls[..|calls| - 1]);
      Perform(p, calls[|calls| - 1])
  }

  /** The counters the C code keeps beside its queues. */
  predicate CountersOk(p: Pcb) {
    && p.snd.nQue == |p.snd.queue| && p.snd.nBuf == |p.snd.buf|
    && p.rcv.nQue == |p.rcv.queue| && p.rcv.nBuf == |p.rcv.buf|
    && p.rcv.nQue <= p.cfg.rcvWnd
  }

  /** Sequence numbers are 32-bit words. */
  predicate NumbersOk(p: Pcb) {
    && IsU32(p.snd.nxt) && IsU32(p.rcv.nxt)
    && (forall i :: 0 <= i < |p.acks| ==> IsU32(p.acks[i].sn))
    && (forall i :: 0 <= i < |p.snd.buf| ==> IsU32(p.snd.buf[i].pkt.sn) && p.snd.buf[i].pkt.cmd == CMD_PUSH)
  }

  predicate Sound(p: Pcb) { PlainPcb(p) && CountersOk(p) && NumbersOk(p) }

  lemma {:induction false} MoveReadyCounts(wnd: int, r: Receiver)
    requires r.nQue == |r.queue| <= wnd && r.nBuf == |r.buf|
    requires IsU32(r.nxt)
    ensures var q := MoveReady(Machine32, wnd, r);
            q.nQue == |q.queue| <= wnd && q.nBuf == |q.buf| && IsU32(q.nxt)
    decreases |r.buf|
  {
    if r.buf != [] && r.buf[0].sn == r.nxt && r.nQue < wnd {
      MoveReadyCounts(wnd, Receiver(U32(r.nxt + 1), r.queue + [r.buf[0]], r.buf[1..], r.nQue + 1, r.nBuf - 1));
    }
  }

  lemma {:induction false} AdmitSound(p: Pcb, s: Sender, cwnd: int)
    requires Sound(p.(snd := s))
    ensures Sound(p.(snd := Admit(Machine32, p, s, cwnd)))
    decreases |s.queue|
  {
    if TimeDiff(s.nxt, U32(s.una + cwnd)) < 0 && s.queue != [] {
      var s1 := Sender(s.una, U32(s.nxt + 1), s.queue[1..], s.buf + [Numbered(p, s.queue[0], s.nxt)],
                       s.nQue - 1, s.nBuf + 1);
      assert Sound(p.(snd := s1));
      AdmitSound(p, s1, cwnd);
    }
  }

  lemma ParseDataCounts(wnd: int, r: Receiver, h: Packet)
    requires r.nQue == |r.queue| <= wnd && r.nBuf == |r.buf| && IsU32(r.nxt)
    ensures var q := ParseData(Machine32, wnd, r, h);
            q.nQue == |q.queue| <= wnd && q.nBuf == |q.buf| && IsU32(q.nxt)
  {
    hide MoveReady, Insert;
    var buf := Insert(Machine32, r.buf, h);
    MoveReadyCounts(wnd, r.(buf := buf, nBuf := r.nBuf + |buf| - |r.buf|));
  }

  lemma SubsetSound(p: Pcb, buf: seq<Segment>)
    requires Sound(p) && forall s :: s in buf ==> s in p.snd.buf
    ensures Sound(p.(snd := Shrink(p.snd.(buf := buf, nBuf := |buf|))))
  {
    SubsetPlain(p, buf);
    forall i | 0 <= i < |buf| ensures IsU32(buf[i].pkt.sn) && buf[i].pkt.cmd == CMD_PUSH {
      assert buf[i] in p.snd.buf;
    }
  }

  lemma InputAckSound(s: Parsing, h: Packet)
    requires Sound(s.p)
    ensures Sound(InputAck(Machine32, s, h).p)
  {
    hide RemoveSn, UpdateAck;
    var buf := if InFlight(Machine32, s.p.snd, h.sn) then RemoveSn(Machine32, s.p.snd.buf, h.sn) else s.p.snd.buf;
    RemoveSnPlain(Machine32, s.p.snd.buf, h.sn);
    SubsetSound(s.p, buf);
    var snd := Shrink(s.p.snd.(buf := buf, nBuf := |buf|));
    assert InputAck(Machine32, s, h).p.snd == snd;
  }

  lemma InputPushSound(p: Pcb, h: Packet)
    requires Sound(p) && IsU32(h.ts) && IsU32(h.sn)
    ensures Sound(InputPush(Machine32, p, h))
  {
    hide ParseData;
    ParseDataCounts(p.cfg.rcvWnd, p.rcv, h);
  }

  lemma InputPacketSound(s: Parsing, h: Packet)
    requires Sound(s.p) && IsU32(h.ts) && IsU32(h.sn) && 0 <= h.wnd
    ensures Sound(InputPacket(Machine32, s, h).p)
  {
    hide DropAcked, InputAck, InputPush;
    var buf := DropAcked(Machine32, s.p.snd.buf, h.una);
    DropAckedPlain(Machine32, s.p.snd.buf, h.una);
    SubsetSound(s.p, buf);
    var p := s.p.(rmtWnd := h.wnd, snd := Shrink(s.p.snd.(buf := buf, nBuf := |buf|)));
    assert p.snd == Shrink(ParseUna(Machine32, s.p.snd, h.una));
    if h.cmd == CMD_ACK {
      InputAckSound(s.(p := p), h);
    } else if h.cmd == CMD_PUSH {
      InputPushSound(p, h);
    }
  }

  lemma {:induction false} InputLoopSound(s: Parsing, b: bytes)
    requires Sound(s.p)
    ensures Sound(InputLoop(s, b).0.p)
    decreases |b|
  {
    hide InputPacket;
    if OVERHEAD <= |b| && Get32(b, 0) == s.p.cfg.conv && OVERHEAD + LengthField(b) <= |b| && KnownCommand(b[4]) {
      InputPacketSound(s, Decode(b));
      InputLoopSound(InputPacket(Machine32, s, Decode(b)), b[OVERHEAD + LengthField(b)..]);
    }
  }

  lemma FinishSound(s: Parsing, prevUna: int)
    requires Sound(s.p)
    ensures Sound(FinishInput(Machine32, s, prevUna))
  {
    hide GrowCwnd, BumpFastAck;
    FinishPlain(Machine32, s, prevUna);
    BumpFastAckIs(Machine32, s.p.snd.buf, s.maxAck);
  }

  /** How the queue length counter follows a read. */
  lemma RecvSound(p: Pcb, len: int)
    requires Sound(p)
    ensures Sound(KcpSpec.Recv(Machine32, p, len).p)
  {
    hide MoveReady;
    var k := FirstMessage(p.rcv.queue);
    var taken := if len < 0 then p.rcv else p.rcv.(queue := p.rcv.queue[k..], nQue := p.rcv.nQue - k);
    MoveReadyCounts(p.cfg.rcvWnd, taken);
  }

  /** Flush keeps the ranges, and everything it writes can be read back. */
  lemma FlushSound(p: Pcb)
    requires Sound(p)
    ensures var r := KcpSpec.Flush(Machine32, p);
            && Sound(r.p) && AllEncodable(r.out)
            && forall i :: 0 <= i < |r.out| ==> PlainPacket(r.out[i], p.cfg)
  {
    if p.updated {
      var s := Admit(Machine32, p, p.snd, EffectiveWindow(p));
      FlushOutPlain(Machine32, p);
      AdmitSound(p, p.snd, EffectiveWindow(p));
      ResendSound(p, s);
      FlushEncodable(p);
    }
  }

  lemma ResendSound(p: Pcb, s: Sender)
    requires Sound(p.(snd := s))
    ensures NumbersOk(p.(snd := s.(buf := SegmentsOf(Decisions(p, s.buf)))))
    ensures forall i :: 0 <= i < |Resend(p, s.buf).out| ==>
              var h := Resend(p, s.buf).out[i];
              IsU32(h.sn) && h.una == p.rcv.nxt && h.cmd == CMD_PUSH && 0 <= h.wnd < TWO16
  {
    var buf := SegmentsOf(Decisions(p, s.buf));
    forall i | 0 <= i < |buf| ensures IsU32(buf[i].pkt.sn) && buf[i].pkt.cmd == CMD_PUSH {
      assert Decisions(p, s.buf)[i] == Decide(p, s.buf[i]);
    }
    var out := Resend(p, s.buf).out;
    ResendSends(p, Tally([], false, false, p.xmit, p.dead), s.buf);
    forall j | 0 <= j < |out|
      ensures IsU32(out[j].sn) && out[j].una == p.rcv.nxt && out[j].cmd == CMD_PUSH && 0 <= out[j].wnd < TWO16
    {
      assert Resends(p, s.buf, out[j]);
      var i :| 0 <= i < |s.buf| && out[j] == OnWire(Stamped(p, s.buf[i]).pkt);
    }
  }

  lemma FlushEncodable(p: Pcb)
    requires Sound(p) && p.updated
    ensures AllEncodable(FlushNow(Machine32, p).out)
  {
    hide Admit, Resend;
    var s := Admit(Machine32, p, p.snd, EffectiveWindow(p));
    AdmitSound(p, p.snd, EffectiveWindow(p));
    ResendSound(p, s);
    FlushOutPlain(Machine32, p);
    var out := FlushNow(Machine32, p).out;
    forall i | 0 <= i < |out| ensures Encodable(out[i]) {
      assert PlainPacket(out[i], p.cfg);
    }
  }

  lemma PerformSound(p: Pcb, c: Call)
    requires Sound(p)
    ensures Sound(Perform(p, c))
  {
    hide KcpSpec.Recv, FlushNow, InputLoop, FinishInput, FragmentCount, Fragments;
    match c
    case CallSend(data) =>
      SendPlain(p, data);
      SendTouchesQueueOnly(p, data);
    case CallRecv(len) => RecvSound(p, len);
    case CallInput(b) =>
      if OVERHEAD <= |b| {
        InputLoopSound(Parsing(p, false, 0), b);
        FinishSound(InputLoop(Parsing(p, false, 0), b).0, p.snd.una);
      }
    case CallUpdate(now) =>
      assert Sound(Tick(p, U32(now)).0);
      FlushSound(Tick(p, U32(now)).0);
    case CallFlush => FlushSound(p);
  }

  lemma {:induction false} PerformAllSound(c: Config, calls: seq<Call>)
    requires ConfigOk(c)
    ensures Sound(PerformAll(c, calls))
    decreases |calls|
  {
    if calls != [] {
      var n := |calls| - 1;
      PerformAllSound(c, calls[..n]);
      PerformSound(PerformAll(c, calls[..n]), calls[n]);
    }
  }

  /** After any calls with any input, the datagrams a flush emits are at most mtu bytes
      each, and the parsing loop recovers from them exactly the packets written, in order. */
  lemma EveryDatagramFits(c: Config, calls: seq<Call>)
    requires ConfigOk(c)
    ensures var r := KcpSpec.Flush(Machine32, PerformAll(c, calls));
            var ds, sent := Datagrams(r.out, c.mtu), Output(r.out, c.mtu);
            && Concat(ds) == r.out && |sent| == |ds|
            && forall i :: 0 <= i < |sent| ==> 0 < |sent[i]| <= c.mtu && Parse(sent[i]) == (ds[i], [])
  {
    var r := KcpSpec.Flush(Machine32, PerformAll(c, calls));
    PerformAllSound(c, calls);
    FlushSound(PerformAll(c, calls));
    forall i | 0 <= i < |r.out| ensures OVERHEAD + |r.out[i].data| <= c.mtu {
      assert PlainPacket(r.out[i], c);
    }
    WireRoundTrip(r.out, c.mtu);
    OutputIsPacked(r.out, c.mtu);
  }
}
