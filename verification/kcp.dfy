/** `struct IKCPCB` and the entry points of ikcp.c, updating it in place. Each method is
    proved to compute the function of `KcpSpec` with the same name. The fields of the C
    struct are grouped by the part of the protocol they belong to. */
module Kcp {
  import opened KcpSerial
  import opened KcpWire
  import opened KcpSpec

  class Endpoint {
    var cfg: Config
    var snd: Sender
    var rcv: Receiver
    var ackList: seq<Ack>
    var rtt: Rtt
    var cc: Congestion
    var probe: Probe
    var rmtWnd: int
    var current: int
    var tsFlush: int
    var updated: bool
    var xmit: int
    var dead: bool

    /** The whole control block as a value. */
    ghost function Cb(): Pcb
      reads this
    {
      Pcb(cfg, snd, rcv, ackList, rtt, cc, probe, rmtWnd, current, tsFlush, updated, xmit, dead)
    }

    constructor (c: Config)
      ensures Cb() == Create(c)
    {
      cfg := c;
      snd, rcv, ackList := Sender(0, 0, [], [], 0, 0), Receiver(0, [], [], 0, 0), [];
      rtt, cc := Rtt(0, 0, RTO_DEF), Congestion(0, 0, THRESH_INIT);
      probe := Probe(false, false, 0, 0);
      rmtWnd, current, tsFlush, updated, xmit, dead := WND_RCV, 0, INTERVAL, false, 0, false;
    }

    // ---- ikcp_send ----

    method Send(data: bytes) returns (code: int)
      requires 0 < cfg.mss
      modifies `snd
      ensures (Cb(), code) == KcpSpec.Send(old(Cb()), data)
    {
      var rest := data;
      if cfg.stream {
        if snd.queue != [] {
          var n := |snd.queue| - 1;
          var last := snd.queue[n];
          if |last.pkt.data| < cfg.mss {
            var extend := Min(|rest|, cfg.mss - |last.pkt.data|);
            snd := snd.(queue := snd.queue[..n] + [Blank(0, last.pkt.data + rest[..extend])]);
            rest := rest[extend..];
          }
        }
        if rest == [] {
          return 0;
        }
      }
      var count := if |rest| <= cfg.mss then 1 else (|rest| + cfg.mss - 1) / cfg.mss;
      if count >= WND_RCV {
        return -2;
      }
      QueueFragments(rest, count);
      return 0;
    }

    method QueueFragments(data: bytes, count: nat)
      requires 0 < cfg.mss
      modifies `snd
      ensures snd == old(snd).(queue := old(snd.queue) + Fragments(data, cfg.mss, count, cfg.stream),
                               nQue := old(snd.nQue) + count)
    {
      var rest := data;
      var i := 0;
      while i < count
        invariant 0 <= i <= count
        invariant snd == old(snd).(queue := snd.queue, nQue := old(snd.nQue) + i)
        invariant snd.queue + Fragments(rest, cfg.mss, count - i, cfg.stream)
               == old(snd.queue) + Fragments(data, cfg.mss, count, cfg.stream)
      {
        var size := Min(|rest|, cfg.mss);
        var seg := Blank(if cfg.stream then 0 else count - i - 1, rest[..size]);
        ghost var q, tail := snd.queue, Fragments(rest[size..], cfg.mss, count - i - 1, cfg.stream);
        assert q + ([seg] + tail) == q + [seg] + tail;
        snd := snd.(queue := snd.queue + [seg], nQue := snd.nQue + 1);
        rest := rest[size..];
        i := i + 1;
      }
      assert snd.queue + [] == snd.queue;
    }

    // ---- ikcp_recv ----

    method Peek() returns (length: int)
      ensures length == PeekSize(rcv)
    {
      var q := rcv.queue;
      if q == [] {
        return -1;
      }
      if q[0].frg == 0 {
        return |q[0].data|;
      }
      if rcv.nQue < q[0].frg + 1 {
        return -1;
      }
      length := 0;
      var i := 0;
      ghost var k := FirstMessage(q);
      while i < |q|
        invariant 0 <= i <= k
        invariant length == |Payload(q[..i])|
        invariant k == i + FirstMessage(q[i..])
      {
        length := length + |q[i].data|;
        PayloadSnoc(q, i);
        if q[i].frg == 0 {
          return;
        }
        assert q[i..][1..] == q[i + 1..];
        i := i + 1;
      }
    }

    method MoveReady()
      modifies `rcv
      ensures rcv == KcpSpec.MoveReady(Machine32, cfg.rcvWnd, old(rcv))
    {
      while rcv.buf != [] && rcv.buf[0].sn == rcv.nxt && rcv.nQue < cfg.rcvWnd
        invariant KcpSpec.MoveReady(Machine32, cfg.rcvWnd, rcv) == KcpSpec.MoveReady(Machine32, cfg.rcvWnd, old(rcv))
        decreases |rcv.buf|
      {
        var seg := rcv.buf[0];
        rcv := rcv.(buf := rcv.buf[1..], nBuf := rcv.nBuf - 1);
        rcv := rcv.(queue := rcv.queue + [seg], nQue := rcv.nQue + 1);
        rcv := rcv.(nxt := U32(rcv.nxt + 1));
      }
    }

    /** The merging loop of `ikcp_recv`: the fragments of the first message are joined and,
        unless this is a peek, taken off the queue. */
    method TakeMessage(peek: bool) returns (data: bytes)
      modifies `rcv
      ensures var k := FirstMessage(old(rcv.queue));
              && data == Payload(old(rcv.queue)[..k])
              && rcv == if peek then old(rcv) else old(rcv).(queue := old(rcv.queue)[k..], nQue := old(rcv.nQue) - k)
    {
      var q := rcv.queue;
      ghost var k := FirstMessage(q);
      data := [];
      var i := 0;
      while i < |q|
        invariant 0 <= i <= k
        invariant data == Payload(q[..i])
        invariant k == i + FirstMessage(q[i..])
        invariant rcv == if peek then old(rcv) else old(rcv).(queue := q[i..], nQue := old(rcv.nQue) - i)
      {
        var seg := q[i];
        data := data + seg.data;
        PayloadSnoc(q, i);
        assert q[i..][0] == seg && q[i..][1..] == q[i + 1..];
        if !peek {
          rcv := rcv.(queue := rcv.queue[1..], nQue := rcv.nQue - 1);
        }
        if seg.frg == 0 {
          return;
        }
        i := i + 1;
      }
    }

    method Recv(len: int) returns (code: int, data: bytes)
      modifies `rcv, `probe
      ensures RecvResult(Cb(), code, data) == KcpSpec.Recv(Machine32, old(Cb()), len)
    {
      if rcv.queue == [] {
        return -1, [];
      }
      var room := if len < 0 then -len else len;
      var peek := Peek();
      if peek < 0 {
        return -2, [];
      }
      if peek > room {
        return -3, [];
      }
      var recover := rcv.nQue >= cfg.rcvWnd;
      data := TakeMessage(len < 0);
      MoveReady();
      if rcv.nQue < cfg.rcvWnd && recover {
        probe := probe.(tell := true);
      }
      code := |data|;
    }

    // ---- ikcp_input ----

    method UpdateAck(t: nat)
      modifies `rtt
      ensures rtt == KcpSpec.UpdateAck(cfg, old(rtt), t)
    {
      if rtt.srtt == 0 {
        rtt := rtt.(srtt := t, rttVal := t / 2);
      } else {
        var delta := t - rtt.srtt;
        if delta < 0 {
          delta := -delta;
        }
        rtt := rtt.(rttVal := (3 * rtt.rttVal + delta) / 4);
        rtt := rtt.(srtt := (7 * rtt.srtt + t) / 8);
        if rtt.srtt < 1 {
          rtt := rtt.(srtt := 1);
        }
      }
      var rto := rtt.srtt + Max(cfg.interval, 4 * rtt.rttVal);
      rtt := rtt.(rto := Min(Max(cfg.minRto, rto), RTO_MAX));
    }

    method ShrinkBuf()
      modifies `snd
      ensures snd == Shrink(old(snd))
    {
      if snd.buf != [] {
        snd := snd.(una := snd.buf[0].pkt.sn);
      } else {
        snd := snd.(una := snd.nxt);
      }
    }

    method ParseUna(una: int)
      modifies `snd
      ensures snd == KcpSpec.ParseUna(Machine32, old(snd), una)
    {
      while snd.buf != [] && TimeDiff(una, snd.buf[0].pkt.sn) > 0
        invariant snd == old(snd).(buf := snd.buf, nBuf := old(snd.nBuf) - (|old(snd.buf)| - |snd.buf|))
        invariant DropAcked(Machine32, snd.buf, una) == DropAcked(Machine32, old(snd.buf), una)
        decreases |snd.buf|
      {
        snd := snd.(buf := snd.buf[1..], nBuf := snd.nBuf - 1);
      }
    }

    method ParseAck(sn: int)
      modifies `snd
      ensures snd == KcpSpec.ParseAck(Machine32, old(snd), sn)
    {
      if TimeDiff(sn, snd.una) < 0 || TimeDiff(sn, snd.nxt) >= 0 {
        return;
      }
      var buf := snd.buf;
      var i := 0;
      while i < |buf|
        invariant 0 <= i <= |buf| && snd == old(snd)
        invariant RemoveSn(Machine32, buf, sn) == buf[..i] + RemoveSn(Machine32, buf[i..], sn)
      {
        var seg := buf[i];
        assert buf[i..][0] == seg && buf[i..][1..] == buf[i + 1..];
        if sn == seg.pkt.sn {
          snd := snd.(buf := buf[..i] + buf[i + 1..], nBuf := snd.nBuf - 1);
          return;
        }
        if TimeDiff(sn, seg.pkt.sn) < 0 {
          assert buf[..i] + buf[i..] == buf;
          return;
        }
        ghost var tail := RemoveSn(Machine32, buf[i + 1..], sn);
        assert buf[..i] + ([seg] + tail) == buf[..i + 1] + tail;
        i := i + 1;
      }
    }

    method ParseFastAck(sn: int)
      modifies `snd
      ensures snd == KcpSpec.ParseFastAck(Machine32, old(snd), sn)
    {
      if TimeDiff(sn, snd.una) < 0 || TimeDiff(sn, snd.nxt) >= 0 {
        return;
      }
      hide BumpFastAck, FastAckDone;
      var buf := snd.buf;
      FastAckStart(buf, sn);
      var i := 0;
      while i < |buf|
        invariant 0 <= i <= |buf| == |snd.buf| && snd == old(snd)
        invariant FastAckDone(snd.buf, buf, i, sn)
      {
        if TimeDiff(sn, buf[i].pkt.sn) < 0 {
          break;
        }
        FastAckStep(snd.buf, buf, i, sn);
        if sn != buf[i].pkt.sn {
          buf := buf[i := buf[i].(fastAck := U32(buf[i].fastAck + 1))];
        }
        i := i + 1;
      }
      FastAckStop(snd.buf, buf, i, sn);
      snd := snd.(buf := buf);
    }

    /** One comparison of the backward walk through the receive buffer. */
    static lemma InsertBefore(buf: seq<Packet>, i: nat, p: Packet)
      requires 0 < i <= |buf|
      ensures var seg := buf[i - 1];
              var all := Insert(Machine32, buf[..i], p) + buf[i..];
              if seg.sn == p.sn then all == buf
              else if TimeDiff(p.sn, seg.sn) > 0 then all == buf[..i] + [p] + buf[i..]
              else all == Insert(Machine32, buf[..i - 1], p) + buf[i - 1..]
    {
      var seg := buf[i - 1];
      assert buf[..i][i - 1] == seg && buf[..i][..i - 1] == buf[..i - 1];
      assert buf == buf[..i] + buf[i..] && buf[i - 1..] == [seg] + buf[i..];
      var head := Insert(Machine32, buf[..i - 1], p);
      assert (head + [seg]) + buf[i..] == head + ([seg] + buf[i..]);
    }

    static lemma InsertFirst(p: Packet)
      ensures Insert(Machine32, [], p) == [p]
    {
    }

    /** The walk from the tail: where the packet goes, or that its number is there. */
    static method FindPlace(buf: seq<Packet>, p: Packet) returns (i: nat, repeat: bool)
      ensures i <= |buf|
      ensures Insert(Machine32, buf, p) == if repeat then buf else buf[..i] + [p] + buf[i..]
    {
      hide Insert;
      i := |buf|;
      repeat := false;
      assert buf[..i] == buf && Insert(Machine32, buf, p) + [] == Insert(Machine32, buf, p);
      while i > 0
        invariant 0 <= i <= |buf|
        invariant Insert(Machine32, buf, p) == Insert(Machine32, buf[..i], p) + buf[i..]
      {
        var seg := buf[i - 1];
        InsertBefore(buf, i, p);
        if seg.sn == p.sn {
          return i, true;
        }
        if TimeDiff(p.sn, seg.sn) > 0 {
          return i, false;
        }
        i := i - 1;
      }
      InsertFirst(p);
      assert buf[..0] == [] && [] + [p] == [p];
    }

    method ParseData(p: Packet)
      modifies `rcv
      ensures rcv == KcpSpec.ParseData(Machine32, cfg.rcvWnd, old(rcv), p)
    {
      if TimeDiff(p.sn, U32(rcv.nxt + cfg.rcvWnd)) >= 0 || TimeDiff(p.sn, rcv.nxt) < 0 {
        return;
      }
      hide KcpSpec.MoveReady, Insert;
      var i, repeat := FindPlace(rcv.buf, p);
      if !repeat {
        rcv := rcv.(buf := rcv.buf[..i] + [p] + rcv.buf[i..], nBuf := rcv.nBuf + 1);
      }
      MoveReady();
    }

    method InputAck(h: Packet, acked: bool, maxAck: int) returns (acked': bool, maxAck': int)
      modifies `rtt, `snd
      ensures Parsing(Cb(), acked', maxAck') == KcpSpec.InputAck(Machine32, Parsing(old(Cb()), acked, maxAck), h)
    {
      acked', maxAck' := acked, maxAck;
      var t := TimeDiff(current, h.ts);
      if t >= 0 {
        UpdateAck(t);
      }
      ParseAck(h.sn);
      ShrinkBuf();
      if !acked {
        acked', maxAck' := true, h.sn;
      } else if TimeDiff(h.sn, maxAck) > 0 {
        maxAck' := h.sn;
      }
    }

    method InputPush(h: Packet)
      modifies `ackList, `rcv
      ensures Cb() == KcpSpec.InputPush(Machine32, old(Cb()), h)
    {
      if TimeDiff(h.sn, U32(rcv.nxt + cfg.rcvWnd)) < 0 {
        ackList := ackList + [Ack(h.sn, h.ts)];
        if TimeDiff(h.sn, rcv.nxt) >= 0 {
          ParseData(h);
        }
      }
    }

    /** One packet of a datagram, as the body of the parsing loop treats it. */
    method InputPacket(h: Packet, acked: bool, maxAck: int) returns (acked': bool, maxAck': int)
      modifies this
      ensures Parsing(Cb(), acked', maxAck') == KcpSpec.InputPacket(Machine32, Parsing(old(Cb()), acked, maxAck), h)
    {
      acked', maxAck' := acked, maxAck;
      rmtWnd := h.wnd;
      ParseUna(h.una);
      ShrinkBuf();
      if h.cmd == CMD_ACK {
        acked', maxAck' := InputAck(h, acked, maxAck);
      } else if h.cmd == CMD_PUSH {
        InputPush(h);
      } else if h.cmd == CMD_WASK {
        probe := probe.(tell := true);
      }
    }

    method GrowCwnd()
      requires 0 < cfg.mss
      modifies `cc
      ensures cc == KcpSpec.GrowCwnd(old(cc), cfg.mss, rmtWnd)
    {
      if cc.cwnd < rmtWnd {
        var mss := cfg.mss;
        if cc.cwnd < cc.ssthresh {
          cc := cc.(cwnd := U32(cc.cwnd + 1), incr := U32(cc.incr + mss));
        } else {
          if cc.incr < mss {
            cc := cc.(incr := mss);
          }
          cc := cc.(incr := U32(cc.incr + U32(mss * mss) / cc.incr + mss / 16));
          if U32((cc.cwnd + 1) * mss) <= cc.incr {
            cc := cc.(cwnd := U32(cc.incr + mss - 1) / mss);
          }
        }
        if cc.cwnd > rmtWnd {
          cc := cc.(cwnd := rmtWnd, incr := U32(rmtWnd * mss));
        }
      }
    }

    method FinishInput(acked: bool, maxAck: int, prevUna: int)
      requires 0 < cfg.mss
      modifies `snd, `cc
      ensures Cb() == KcpSpec.FinishInput(Machine32, Parsing(old(Cb()), acked, maxAck), prevUna)
    {
      if acked {
        ParseFastAck(maxAck);
      }
      if TimeDiff(snd.una, prevUna) > 0 {
        GrowCwnd();
      }
    }

    method Input(data: bytes) returns (code: int)
      requires 0 < cfg.mss
      modifies this
      ensures (Cb(), code) == KcpSpec.Input(old(Cb()), data)
    {
      if |data| < OVERHEAD {
        return -1;
      }
      var prevUna := snd.una;
      var acked, maxAck := false, 0;
      var rest := data;
      ghost var goal := InputLoop(Parsing(Cb(), false, 0), data);
      while |rest| >= OVERHEAD
        invariant cfg == old(cfg)
        invariant InputLoop(Parsing(Cb(), acked, maxAck), rest) == goal
        decreases |rest|
      {
        if Get32(rest, 0) != cfg.conv {
          return -1;
        }
        var len := LengthField(rest);
        if |rest| < OVERHEAD + len || len >= TWO31 {
          return -2;
        }
        if !KnownCommand(rest[4]) {
          return -3;
        }
        InputPacketKeepsConfig(Machine32, Parsing(Cb(), acked, maxAck), Decode(rest));
        acked, maxAck := InputPacket(Decode(rest), acked, maxAck);
        rest := rest[OVERHEAD + len..];
      }
      FinishInput(acked, maxAck, prevUna);
      return 0;
    }

    // ---- ikcp_flush ----

    /** The acknowledgements, with the number and time of the last one written. */
    method FlushAcks(wnd: int) returns (b: Buffer, last: Ack)
      requires wnd == WndUnused(Cb())
      ensures b == BufferOf(AckPackets(Cb()), cfg.mtu)
      ensures last == if ackList == [] then Ack(0, 0) else ackList[|ackList| - 1]
    {
      hide BufferOf;
      BufferOfNone(cfg.mtu);
      b, last := Buffer([], []), Ack(0, 0);
      ghost var acks, ps := AckPackets(Cb()), [];
      var i := 0;
      while i < |ackList|
        invariant 0 <= i <= |ackList|
        invariant ps == acks[..i] && b == BufferOf(ps, cfg.mtu)
        invariant last == if i == 0 then Ack(0, 0) else ackList[i - 1]
      {
        last := ackList[i];
        var p := Packet(cfg.conv, CMD_ACK, 0, wnd % TWO16, last.ts, last.sn, rcv.nxt, []);
        b := Write(b, p, cfg.mtu, ps);
        ps := ps + [p];
        i := i + 1;
      }
      assert acks[..i] == acks;
    }

    /** The two window probes. */
    method FlushProbes(b: Buffer, wnd: int, last: Ack, ghost ps: seq<Packet>)
      returns (b': Buffer, ghost probes: seq<Packet>)
      requires b == BufferOf(ps, cfg.mtu)
      ensures var ask := Packet(cfg.conv, CMD_WASK, 0, wnd % TWO16, last.ts, last.sn, rcv.nxt, []);
              var tell := Packet(cfg.conv, CMD_WINS, 0, wnd % TWO16, last.ts, last.sn, rcv.nxt, []);
              probes == (if probe.ask then [ask] else []) + (if probe.tell then [tell] else [])
      ensures b' == BufferOf(ps + probes, cfg.mtu)
    {
      hide BufferOf;
      b', probes := b, [];
      assert ps + probes == ps;
      if probe.ask {
        var p := Packet(cfg.conv, CMD_WASK, 0, wnd % TWO16, last.ts, last.sn, rcv.nxt, []);
        b' := Write(b', p, cfg.mtu, ps);
        probes := [p];
      }
      if probe.tell {
        var p := Packet(cfg.conv, CMD_WINS, 0, wnd % TWO16, last.ts, last.sn, rcv.nxt, []);
        b' := Write(b', p, cfg.mtu, ps + probes);
        assert ps + probes + [p] == ps + (probes + [p]);
        probes := probes + [p];
      }
    }

    method RunProbeTimer()
      modifies `probe
      ensures probe == ProbeTimer(old(probe), rmtWnd, current)
    {
      if rmtWnd == 0 {
        if probe.wait == 0 {
          probe := probe.(wait := PROBE_INIT);
          probe := probe.(ts := U32(current + probe.wait));
        } else if TimeDiff(current, probe.ts) >= 0 {
          if probe.wait < PROBE_INIT {
            probe := probe.(wait := PROBE_INIT);
          }
          probe := probe.(wait := probe.wait + probe.wait / 2);
          if probe.wait > PROBE_LIMIT {
            probe := probe.(wait := PROBE_LIMIT);
          }
          probe := probe.(ts := U32(current + probe.wait));
          probe := probe.(ask := true);
        }
      } else {
        probe := probe.(ts := 0, wait := 0);
      }
    }

    method AdmitSegments(cwnd: int, wnd: int)
      requires wnd == WndUnused(Cb())
      modifies `snd
      ensures snd == Admit(Machine32, old(Cb()), old(snd), cwnd)
    {
      ghost var p := Cb();
      while TimeDiff(snd.nxt, U32(snd.una + cwnd)) < 0
        invariant Admit(Machine32, p, snd, cwnd) == Admit(Machine32, p, p.snd, cwnd)
        decreases |snd.queue|
      {
        if snd.queue == [] {
          break;
        }
        var q := snd.queue[0];
        var seg := Segment(Packet(cfg.conv, CMD_PUSH, q.pkt.frg, wnd, current, snd.nxt, rcv.nxt, q.pkt.data),
                           current, rtt.rto, 0, 0);
        snd := snd.(queue := snd.queue[1..], nQue := snd.nQue - 1);
        snd := snd.(buf := snd.buf + [seg], nBuf := snd.nBuf + 1);
        snd := snd.(nxt := U32(snd.nxt + 1));
      }
    }

    /** The retransmission decision for one segment. */
    method Retransmit(s: Segment, wnd: int, ghost p: Pcb) returns (d: Decision)
      requires p == Cb() && wnd == WndUnused(p)
      ensures d == Decide(p, s)
    {
      var resent := if cfg.fastResend > 0 then cfg.fastResend else NO_RESEND;
      var rtoMin := if cfg.nodelay == 0 then rtt.rto / 8 else 0;
      d := Decision(s, false, false, false);
      var seg := s;
      if seg.xmit == 0 {
        seg := seg.(xmit := 1, rto := rtt.rto);
        seg := seg.(resendTs := U32(current + seg.rto + rtoMin));
        d := Decision(seg, true, false, false);
      } else if TimeDiff(current, seg.resendTs) >= 0 {
        seg := seg.(xmit := U32(seg.xmit + 1));
        if cfg.nodelay == 0 {
          seg := seg.(rto := U32(seg.rto + Max(seg.rto, rtt.rto)));
        } else {
          var step := if cfg.nodelay < 2 then I32(seg.rto) else rtt.rto;
          seg := seg.(rto := U32(seg.rto + Half(step)));
        }
        seg := seg.(resendTs := U32(current + seg.rto));
        d := Decision(seg, true, true, false);
      } else if seg.fastAck >= resent {
        if I32(seg.xmit) <= cfg.fastLimit || cfg.fastLimit <= 0 {
          seg := seg.(xmit := U32(seg.xmit + 1), fastAck := 0);
          seg := seg.(resendTs := U32(current + seg.rto));
          d := Decision(seg, true, false, true);
        }
      }
      if d.send {
        d := d.(seg := d.seg.(pkt := d.seg.pkt.(ts := current, wnd := wnd, una := rcv.nxt)));
      }
    }

    /** The retransmission loop over snd_buf: the segments as they are to be stored, what
        was written, and the counters. */
    method FlushSegments(b: Buffer, wnd: int, ghost head: seq<Packet>)
      returns (b': Buffer, buf: seq<Segment>, n: int, stop: bool, lost: bool, fast: bool)
      requires wnd == WndUnused(Cb()) && b == BufferOf(head, cfg.mtu)
      ensures buf == SegmentsOf(Decisions(Cb(), snd.buf))
      ensures var t := Resend(Cb(), snd.buf);
              && (n, stop, lost, fast) == (t.xmit, t.dead, t.lost, t.fast)
              && b' == BufferOf(head + t.out, cfg.mtu)
    {
      b', lost, fast := b, false, false;
      hide BufferOf, Decide, AccountAll;
      ghost var p, c := Cb(), cfg;
      ghost var ds := Decisions(p, snd.buf);
      ghost var t0 := Tally([], false, false, xmit, dead);
      ghost var t, ps := t0, head;
      buf, n, stop := snd.buf, xmit, dead;
      AccountNone(c, t0, ds);
      var i := 0;
      while i < |buf|
        invariant 0 <= i <= |buf| == |ds| && Cb() == p
        invariant forall j :: 0 <= j < |buf| ==> buf[j] == if j < i then ds[j].seg else p.snd.buf[j]
        invariant t == AccountAll(c, t0, ds[..i])
        invariant (n, stop, lost, fast) == (t.xmit, t.dead, t.lost, t.fast)
        invariant ps == head + t.out && b' == BufferOf(ps, c.mtu)
      {
        var d := Retransmit(buf[i], wnd, p);
        AccountSnoc(c, t0, ds, i);
        buf := buf[i := d.seg];
        n := if d.lost then U32(n + 1) else n;
        lost, fast := lost || d.lost, fast || d.fast;
        if d.send {
          b' := Write(b', OnWire(d.seg.pkt), cfg.mtu, ps);
          ps := ps + [OnWire(d.seg.pkt)];
          stop := stop || d.seg.xmit >= cfg.deadLink;
        }
        t := Account(c, t, d);
        i := i + 1;
      }
      assert ds[..i] == ds;
      assert buf == SegmentsOf(ds);
    }

    /** New segments enter snd_buf, and what is due is sent. */
    method FlushData(b: Buffer, wnd: int, cwnd: int, ghost head: seq<Packet>)
      returns (b': Buffer, lost: bool, fast: bool)
      requires wnd == WndUnused(Cb()) && b == BufferOf(head, cfg.mtu)
      modifies `snd, `xmit, `dead
      ensures var s := Admit(Machine32, old(Cb()), old(snd), cwnd);
              var t := Resend(old(Cb()), s.buf);
              && snd == s.(buf := SegmentsOf(Decisions(old(Cb()), s.buf)))
              && (xmit, dead, lost, fast) == (t.xmit, t.dead, t.lost, t.fast)
              && b' == BufferOf(head + t.out, cfg.mtu)
    {
      hide BufferOf;
      ghost var p := Cb();
      AdmitSegments(cwnd, wnd);
      ResendDependsOn(p, Cb(), snd.buf);
      var buf, n, stop;
      b', buf, n, stop, lost, fast := FlushSegments(b, wnd, head);
      snd, xmit, dead := snd.(buf := buf), n, stop;
    }

    method UpdateCwnd(cwnd: int, lost: bool, fast: bool)
      modifies `cc
      ensures cc == ReactToLoss(Machine32, old(Cb()), snd, lost, fast, cwnd)
    {
      if fast {
        var inflight := U32(snd.nxt - snd.una);
        cc := cc.(ssthresh := inflight / 2);
        if cc.ssthresh < THRESH_MIN {
          cc := cc.(ssthresh := THRESH_MIN);
        }
        var resent := if cfg.fastResend > 0 then cfg.fastResend else NO_RESEND;
        cc := cc.(cwnd := U32(cc.ssthresh + resent));
        cc := cc.(incr := U32(cc.cwnd * cfg.mss));
      }
      if lost {
        cc := cc.(ssthresh := cwnd / 2);
        if cc.ssthresh < THRESH_MIN {
          cc := cc.(ssthresh := THRESH_MIN);
        }
        cc := cc.(cwnd := 1, incr := cfg.mss);
      }
      if cc.cwnd < 1 {
        cc := cc.(cwnd := 1, incr := cfg.mss);
      }
    }

    /** Acknowledgements and window probes. */
    method FlushControl(wnd: int) returns (b: Buffer)
      requires wnd == WndUnused(Cb())
      modifies `ackList, `probe
      ensures var timer := ProbeTimer(old(probe), rmtWnd, current);
              && ackList == [] && probe == timer.(ask := false, tell := false)
              && b == BufferOf(AckPackets(old(Cb())) + ProbePackets(old(Cb()), timer), cfg.mtu)
    {
      hide BufferOf;
      ghost var p := Cb();
      var last;
      b, last := FlushAcks(wnd);
      ackList := [];
      RunProbeTimer();
      ghost var probes;
      b, probes := FlushProbes(b, wnd, last, AckPackets(p));
      assert probes == ProbePackets(p, probe);
      probe := probe.(ask := false, tell := false);
    }

    /** `ikcp_flush`; the datagrams are those handed to the output callback. */
    method Flush() returns (out: seq<bytes>)
      modifies this
      ensures var r := KcpSpec.Flush(Machine32, old(Cb()));
              Cb() == r.p && out == Output(r.out, cfg.mtu)
    {
      ghost var p := Cb();
      BufferOfNone(cfg.mtu);
      hide BufferOf, Admit, Resend, Decisions, AckPackets, ProbePackets, ProbeTimer, ReactToLoss;
      if !updated {
        return [];
      }
      var wnd := if rcv.nQue < cfg.rcvWnd then cfg.rcvWnd - rcv.nQue else 0;
      var b := FlushControl(wnd);
      var cwnd := Min(cfg.sndWnd, rmtWnd);
      if !cfg.noCwnd {
        cwnd := Min(cc.cwnd, cwnd);
      }
      ghost var head := AckPackets(p) + ProbePackets(p, ProbeTimer(p.probe, p.rmtWnd, p.current));
      AdmitDependsOn(p, Cb(), p.snd, cwnd);
      ResendDependsOn(p, Cb(), Admit(Machine32, p, p.snd, cwnd).buf);
      var lost, fast;
      b, lost, fast := FlushData(b, wnd, cwnd, head);
      ReactDependsOn(p, Cb(), Admit(Machine32, p, p.snd, cwnd), snd, lost, fast, cwnd);
      UpdateCwnd(cwnd, lost, fast);
      out := SendBuffer(b).sent;
    }

    // ---- ikcp_update, ikcp_check ----

    method Update(now: int) returns (out: seq<bytes>)
      requires IsU32(now)
      modifies this
      ensures var r := KcpSpec.Update(Machine32, old(Cb()), now);
              Cb() == r.p && out == Output(r.out, cfg.mtu)
    {
      hide KcpSpec.Flush, TimeDiff, U32, BufferOf;
      BufferOfNone(cfg.mtu);
      current := now;
      if !updated {
        updated := true;
        tsFlush := current;
      }
      var slap := TimeDiff(current, tsFlush);
      if slap >= 10000 || slap < -10000 {
        tsFlush := current;
        slap := 0;
      }
      if slap >= 0 {
        tsFlush := U32(tsFlush + cfg.interval);
        if TimeDiff(current, tsFlush) >= 0 {
          tsFlush := U32(current + cfg.interval);
        }
        assert Cb() == Tick(old(Cb()), now).0;
        out := Flush();
      } else {
        out := [];
      }
    }

    /** The scan of snd_buf: whether a segment is due, or the least time to one. */
    method ScanPackets(now: int) returns (due: bool, tmPacket: int)
      ensures PacketWait(snd.buf, now) == if due then Due else In(tmPacket)
    {
      hide TimeDiff;
      due, tmPacket := false, 0x7fff_ffff;
      var i := 0;
      while i < |snd.buf|
        invariant 0 <= i <= |snd.buf|
        invariant PacketWait(snd.buf[..i], now) == In(tmPacket)
      {
        assert snd.buf[..i + 1][..i] == snd.buf[..i];
        var diff := TimeDiff(snd.buf[i].resendTs, now);
        if diff <= 0 {
          StaysDue(snd.buf, i + 1, now);
          return true, 0;
        }
        if diff < tmPacket {
          tmPacket := diff;
        }
        i := i + 1;
      }
      assert snd.buf[..i] == snd.buf;
    }

    method Check(now: int) returns (next: int)
      ensures next == KcpSpec.Check(Cb(), now)
    {
      hide PacketWait;
      if !updated {
        return now;
      }
      var ts := tsFlush;
      if TimeDiff(now, ts) >= 10000 || TimeDiff(now, ts) < -10000 {
        ts := now;
      }
      if TimeDiff(now, ts) >= 0 {
        return now;
      }
      var tmFlush := TimeDiff(ts, now);
      var due, tmPacket := ScanPackets(now);
      if due {
        return now;
      }
      var minimal := if tmPacket < tmFlush then tmPacket else tmFlush;
      if minimal >= cfg.interval {
        minimal := cfg.interval;
      }
      next := U32(now + minimal);
    }
  }

  lemma {:induction false} StaysDue(buf: seq<Segment>, i: nat, now: int)
    requires i <= |buf| && PacketWait(buf[..i], now) == Due
    ensures PacketWait(buf, now) == Due
    decreases |buf| - i
  {
    if i < |buf| {
      assert buf[..i + 1][..i] == buf[..i];
      StaysDue(buf, i + 1, now);
    } else {
      assert buf[..i] == buf;
    }
  }

  /** What flush reads of the control block besides the queue it works on. */
  predicate SameView(p: Pcb, q: Pcb) {
    p.cfg == q.cfg && p.rcv == q.rcv && p.current == q.current && p.rtt == q.rtt
  }

  lemma DecideDependsOn(p: Pcb, q: Pcb, s: Segment)
    requires SameView(p, q)
    ensures Decide(p, s) == Decide(q, s)
  {
  }

  lemma ResendDependsOn(p: Pcb, q: Pcb, buf: seq<Segment>)
    requires SameView(p, q) && p.xmit == q.xmit && p.dead == q.dead
    ensures Decisions(p, buf) == Decisions(q, buf)
    ensures Resend(p, buf) == Resend(q, buf)
  {
    forall i | 0 <= i < |buf| ensures Decide(p, buf[i]) == Decide(q, buf[i]) {
      DecideDependsOn(p, q, buf[i]);
    }
    assert Decisions(p, buf) == Decisions(q, buf);
  }

  lemma ReactDependsOn(p: Pcb, q: Pcb, s: Sender, t: Sender, lost: bool, fast: bool, cwnd: int)
    requires p.cc == q.cc && p.cfg == q.cfg && s.una == t.una && s.nxt == t.nxt
    ensures ReactToLoss(Machine32, p, s, lost, fast, cwnd) == ReactToLoss(Machine32, q, t, lost, fast, cwnd)
  {
  }

  lemma {:induction false} AdmitDependsOn(p: Pcb, q: Pcb, s: Sender, cwnd: int)
    requires SameView(p, q)
    ensures Admit(Machine32, p, s, cwnd) == Admit(Machine32, q, s, cwnd)
    decreases |s.queue|
  {
    if s.queue != [] {
      AdmitDependsOn(p, q, Sender(s.una, U32(s.nxt + 1), s.queue[1..], s.buf + [Numbered(p, s.queue[0], s.nxt)],
                                  s.nQue - 1, s.nBuf + 1), cwnd);
    }
  }

  lemma PayloadSnoc(q: seq<Packet>, i: nat)
    requires i < |q|
    ensures Payload(q[..i + 1]) == Payload(q[..i]) + q[i].data
  {
    assert q[..i + 1][..i] == q[..i];
  }

  function Bumped(s: Segment, sn: int): Segment {
    if sn != s.pkt.sn then s.(fastAck := U32(s.fastAck + 1)) else s
  }

  /** The first i segments of `buf` have been counted, giving `cur`. */
  predicate FastAckDone(buf: seq<Segment>, cur: seq<Segment>, i: nat, sn: int) {
    && i <= |cur| == |buf|
    && cur[i..] == buf[i..]
    && BumpFastAck(Machine32, buf, sn) == cur[..i] + BumpFastAck(Machine32, buf[i..], sn)
  }

  lemma FastAckStart(buf: seq<Segment>, sn: int)
    ensures FastAckDone(buf, buf, 0, sn)
  {
    hide BumpFastAck;
    assert buf[0..] == buf;
  }

  lemma FastAckStop(buf: seq<Segment>, cur: seq<Segment>, i: nat, sn: int)
    requires FastAckDone(buf, cur, i, sn)
    requires i < |cur| ==> SeqDiff(Machine32, sn, cur[i].pkt.sn) < 0
    ensures BumpFastAck(Machine32, buf, sn) == cur
  {
    assert cur == cur[..i] + cur[i..];
    if i < |cur| {
      assert buf[i..][0] == cur[i..][0];
    }
  }

  lemma BumpHead(buf: seq<Segment>, sn: int)
    requires buf != [] && SeqDiff(Machine32, sn, buf[0].pkt.sn) >= 0
    ensures BumpFastAck(Machine32, buf, sn) == [Bumped(buf[0], sn)] + BumpFastAck(Machine32, buf[1..], sn)
  {
  }

  lemma FastAckStep(buf: seq<Segment>, cur: seq<Segment>, i: nat, sn: int)
    requires i < |cur| && FastAckDone(buf, cur, i, sn) && SeqDiff(Machine32, sn, cur[i].pkt.sn) >= 0
    ensures FastAckDone(buf, cur[i := Bumped(cur[i], sn)], i + 1, sn)
    ensures sn == cur[i].pkt.sn ==> cur[i := Bumped(cur[i], sn)] == cur
  {
    hide SeqDiff;
    assert buf[i..][0] == cur[i..][0] == cur[i];
    assert buf[i..][1..] == buf[i + 1..];
    BumpHead(buf[i..], sn);
    hide BumpFastAck;
    var next, tail := cur[i := Bumped(cur[i], sn)], BumpFastAck(Machine32, buf[i + 1..], sn);
    assert next[i + 1..] == cur[i..][1..];
    assert next[..i + 1] == cur[..i] + [next[i]];
    ConcatAssociative(cur[..i], [next[i]], tail);
  }

  lemma AccountNone(c: Config, t: Tally, ds: seq<Decision>)
    ensures AccountAll(c, t, ds[..0]) == t
  {
  }

  lemma AccountSnoc(c: Config, t: Tally, ds: seq<Decision>, i: nat)
    requires i < |ds|
    ensures AccountAll(c, t, ds[..i + 1]) == Account(c, AccountAll(c, t, ds[..i]), ds[i])
  {
    assert ds[..i + 1][..i] == ds[..i];
  }
}
