/** How old a number may be when it is delivered. The condition under which the machine
    reads a packet as the unbounded protocol does is exact, packet by packet; recent numbers
    meet it; and a run in which one delivery does not meet it delivers a message twice. */
module KcpStale {
  import opened KcpSerial
  import opened KcpWire
  import opened KcpSpec
  import opened KcpNet
  import opened KcpSender
  import opened KcpReceiver
  import opened KcpSafety
  import opened KcpPlain
  import opened KcpWrap

  // ---- the condition is exact ----

  lemma DropAckedShrinks(m: Arith, buf: seq<Segment>, una: int)
    ensures |DropAcked(m, buf, una)| <= |buf|
    decreases |buf|
  {
    if buf != [] && SeqDiff(m, una, buf[0].pkt.sn) > 0 {
      DropAckedShrinks(m, buf[1..], una);
    }
  }

  /** A cumulative ack of any age is read as meant exactly when it is clear: snd_buf is empty,
      or it is not below snd_una, or it is at most 2^31 below it modulo 2^32. */
  lemma UnaExact(s: Sender, una: int, log: seq<Frag>)
    requires SndOk(s, log) && una <= s.nxt
    ensures ParseUna(Machine32, WrapSender(s), U32(una)) == WrapSender(ParseUna(Unbounded, s, una))
            <==> UnaClear(s, una)
  {
    if UnaClear(s, una) {
      ParseUnaWraps(s, una, log);
    } else {
      Forward(una, s.una);
      Backward(una, s.una);
      DropAckedShrinks(Machine32, WrapSegments(s.buf)[1..], U32(una));
      assert ParseUna(Unbounded, s, una).buf == s.buf;
      assert |ParseUna(Machine32, WrapSender(s), U32(una)).buf| < |s.buf|;
    }
  }

  /** A selective ack of any age is read as meant, by the removal and by the count of skipped
      segments, exactly when it is clear. */
  lemma AckExact(s: Sender, sn: int, log: seq<Frag>)
    requires SndOk(s, log) && sn < s.nxt
    ensures && ParseAck(Machine32, WrapSender(s), U32(sn)) == WrapSender(ParseAck(Unbounded, s, sn))
            && ParseFastAck(Machine32, WrapSender(s), U32(sn)) == WrapSender(ParseFastAck(Unbounded, s, sn))
            <==> AckClear(s, sn)
  {
    if AckClear(s, sn) {
      ParseAckWraps(s, sn, log);
      ParseFastAckWraps(s, sn, log);
    } else {
      MisreadAck(s, sn, log);
    }
  }

  lemma MisreadAck(s: Sender, sn: int, log: seq<Frag>)
    requires SndOk(s, log) && sn < s.nxt && !AckClear(s, sn)
    ensures ParseAck(Machine32, WrapSender(s), U32(sn)) != WrapSender(ParseAck(Unbounded, s, sn))
         || ParseFastAck(Machine32, WrapSender(s), U32(sn)) != WrapSender(ParseFastAck(Unbounded, s, sn))
  {
    var w, d := WrapSender(s), (sn - s.una) % TWO32;
    Forward(sn, s.una);
    Forward(sn, s.nxt);
    WrapShift(sn - s.nxt, 1);
    assert (sn - s.nxt + TWO32) % TWO32 == (sn - s.nxt) % TWO32;
    Shifted(sn - s.una, s.una - s.nxt + TWO32);
    assert InFlight(Machine32, w, U32(sn));
    assert s.buf != [] && s.buf[0].pkt.sn == s.una;
    if d == 0 {
      assert RemoveSn(Machine32, w.buf, U32(sn)) == w.buf[1..];
      assert |ParseAck(Machine32, w, U32(sn)).buf| == |s.buf| - 1;
    } else {
      var r := BumpFastAck(Machine32, w.buf, U32(sn));
      assert r[0] == w.buf[0].(fastAck := U32(w.buf[0].fastAck + 1));
      assert ParseFastAck(Machine32, w, U32(sn)).buf == r;
      NotItsSuccessor(s.buf[0].fastAck);
      assert r[0].fastAck != s.buf[0].fastAck;
    }
  }

  lemma NotItsSuccessor(x: int)
    ensures U32(x + 1) != x
  {
  }

  /** All packets the receiver holds. */
  function Held(r: Receiver): nat { |r.queue| + |r.buf| }

  lemma MoveReadyHeld(m: Arith, wnd: int, r: Receiver)
    ensures Held(MoveReady(m, wnd, r)) == Held(r)
    decreases |r.buf|
  {
    if r.buf != [] && r.buf[0].sn == r.nxt && r.nQue < wnd {
      MoveReadyHeld(m, wnd, Receiver(SeqAdd(m, r.nxt, 1), r.queue + [r.buf[0]], r.buf[1..], r.nQue + 1, r.nBuf - 1));
    }
  }

  lemma {:induction false} InsertNew(m: Arith, buf: seq<Packet>, p: Packet)
    requires !Buffered(buf, p.sn)
    ensures |Insert(m, buf, p)| == |buf| + 1
    decreases |buf|
  {
    if buf != [] {
      assert buf[|buf| - 1].sn != p.sn;
      InsertNew(m, buf[..|buf| - 1], p);
    }
  }

  /** The comparison of two acks of one datagram keeps the greater one exactly when it is
      clear. */
  lemma MaxExact(sn: int, maxAck: int)
    ensures MaxOf(Machine32, U32(sn), U32(maxAck)) == U32(MaxOf(Unbounded, sn, maxAck)) <==> MaxClear(sn, maxAck)
  {
    Forward(sn, maxAck);
    Backward(sn, maxAck);
  }

  /** A data packet of any number is acknowledged and stored as meant exactly when it is clear:
      it is in the window; or above it, by less than 2^31 modulo 2^32; or below it, at least 1
      and at most 2^31 - rcv_wnd below rcv_nxt modulo 2^32; or below it, with the residue of a
      buffered packet and nothing ready to move. */
  lemma PushExact(p: Pcb, h: Packet, ylog: seq<Frag>)
    requires ConfigOk(p.cfg) && RcvOk(p.rcv, p.cfg.rcvWnd, ylog)
    requires 0 <= h.sn < |ylog| && FragOf(h) == ylog[h.sn]
    ensures InputPush(Machine32, WrapPcb(p), WrapPacket(h)) == WrapPcb(InputPush(Unbounded, p, h))
            <==> PushClear(p.rcv, p.cfg.rcvWnd, h.sn)
  {
    hide PushClear, InputPush, WrapPcb;
    if PushClear(p.rcv, p.cfg.rcvWnd, h.sn) {
      InputPushWraps(p, h, ylog);
    } else {
      MisreadPush(p, h, ylog);
    }
  }

  /** An old number that is not clear looks to the machine as if it were at or above
      rcv_nxt, or beyond the window. */
  lemma LooksNew(nxt: int, wnd: int, sn: int)
    requires 0 <= wnd < TWO31 && sn < nxt && !(0 < (nxt - sn) % TWO32 <= TWO31 - wnd)
    ensures || SeqDiff(Machine32, U32(sn), SeqAdd(Machine32, U32(nxt), wnd)) >= 0
            || SeqDiff(Machine32, U32(sn), U32(nxt)) >= 0
  {
    Backward(nxt, sn);
    WrapAdd(nxt, wnd);
    Forward(sn, nxt);
    Forward(sn, nxt + wnd);
    if 0 < (nxt - sn) % TWO32 <= TWO31 {
      Shifted(sn - nxt, -wnd);
    }
  }

  /** A number in the machine's window is stored, or it is a repeat and ready packets move. */
  lemma ParseDataHeld(wnd: int, r: Receiver, p: Packet)
    requires !Buffered(r.buf, p.sn)
    requires SeqDiff(Machine32, p.sn, SeqAdd(Machine32, r.nxt, wnd)) < 0 <= SeqDiff(Machine32, p.sn, r.nxt)
    ensures Held(ParseData(Machine32, wnd, r, p)) == Held(r) + 1
  {
    hide MoveReady, Insert;
    var buf := Insert(Machine32, r.buf, p);
    InsertNew(Machine32, r.buf, p);
    MoveReadyHeld(Machine32, wnd, r.(buf := buf, nBuf := r.nBuf + |buf| - |r.buf|));
  }

  lemma CollisionMoves(wnd: int, r: Receiver, p: Packet, log: seq<Frag>)
    requires RcvOk(r, wnd, log) && 0 <= wnd < TWO31 && !Settled(r, wnd) && Collides(r.buf, p.sn)
    ensures var w := WrapReceiver(r);
            && SeqDiff(Machine32, U32(p.sn), SeqAdd(Machine32, w.nxt, wnd)) < 0 <= SeqDiff(Machine32, U32(p.sn), w.nxt)
            && |ParseData(Machine32, wnd, w, WrapPacket(p)).buf| < |r.buf|
  {
    hide Insert;
    var w := WrapReceiver(r);
    var i := LooksBuffered(r, wnd, p.sn, log);
    InsertCollides(r.buf, p, i);
    assert ParseData(Machine32, wnd, w, WrapPacket(p)) == MoveReady(Machine32, wnd, w);
    MoveReadyShrinks(Machine32, wnd, Receiver(SeqAdd(Machine32, w.nxt, 1), w.queue + [w.buf[0]], w.buf[1..],
                                              w.nQue + 1, w.nBuf - 1));
  }

  lemma MoveReadyShrinks(m: Arith, wnd: int, r: Receiver)
    ensures |MoveReady(m, wnd, r).buf| <= |r.buf|
    decreases |r.buf|
  {
    if r.buf != [] && r.buf[0].sn == r.nxt && r.nQue < wnd {
      MoveReadyShrinks(m, wnd, Receiver(SeqAdd(m, r.nxt, 1), r.queue + [r.buf[0]], r.buf[1..], r.nQue + 1, r.nBuf - 1));
    }
  }

  lemma NoCollision(buf: seq<Packet>, sn: int)
    requires !Collides(buf, sn)
    ensures !Buffered(WrapPackets(buf), U32(sn))
  {
  }

  lemma MisreadPush(p: Pcb, h: Packet, ylog: seq<Frag>)
    requires ConfigOk(p.cfg) && RcvOk(p.rcv, p.cfg.rcvWnd, ylog) && !PushClear(p.rcv, p.cfg.rcvWnd, h.sn)
    ensures InputPush(Machine32, WrapPcb(p), WrapPacket(h)) != WrapPcb(InputPush(Unbounded, p, h))
  {
    hide ParseData, U32, TimeDiff, Settled, Collides, RcvOk;
    var w, wnd, nxt := WrapPcb(p), p.cfg.rcvWnd, p.rcv.nxt;
    var r, u := InputPush(Machine32, w, WrapPacket(h)), InputPush(Unbounded, p, h);
    if nxt <= h.sn {
      WrapAdd(nxt, wnd);
      Forward(h.sn, nxt + wnd);
      assert |r.acks| == |p.acks| + 1 && |u.acks| == |p.acks|;
    } else {
      LooksNew(nxt, wnd, h.sn);
      assert |u.acks| == |p.acks| + 1 && u.rcv == p.rcv;
      if SeqDiff(Machine32, U32(h.sn), SeqAdd(Machine32, U32(nxt), wnd)) >= 0 {
        assert |r.acks| == |p.acks|;
      } else if Collides(p.rcv.buf, h.sn) {
        CollisionMoves(wnd, p.rcv, h, ylog);
        assert |r.rcv.buf| < |p.rcv.buf|;
      } else {
        NoCollision(p.rcv.buf, h.sn);
        ParseDataHeld(wnd, w.rcv, WrapPacket(h));
        assert Held(r.rcv) == Held(p.rcv) + 1;
      }
    }
  }

  lemma {:induction false} MoveReadySettles(m: Arith, wnd: int, r: Receiver)
    ensures Settled(MoveReady(m, wnd, r), wnd)
    decreases |r.buf|
  {
    if r.buf != [] && r.buf[0].sn == r.nxt && r.nQue < wnd {
      MoveReadySettles(m, wnd, Receiver(SeqAdd(m, r.nxt, 1), r.queue + [r.buf[0]], r.buf[1..], r.nQue + 1, r.nBuf - 1));
    }
  }

  predicate SettledPcb(p: Pcb) { Settled(p.rcv, p.cfg.rcvWnd) }

  lemma InputPacketSettles(m: Arith, s: Parsing, h: Packet)
    requires SettledPcb(s.p)
    ensures SettledPcb(InputPacket(m, s, h).p)
  {
    hide MoveReady, Insert, ParseUna, ParseAck, UpdateAck;
    var buf := Insert(m, s.p.rcv.buf, h);
    MoveReadySettles(m, s.p.cfg.rcvWnd, s.p.rcv.(buf := buf, nBuf := s.p.rcv.nBuf + |buf| - |s.p.rcv.buf|));
  }

  lemma {:induction false} InputPacketsSettle(m: Arith, s: Parsing, ps: seq<Packet>)
    requires SettledPcb(s.p)
    ensures SettledPcb(InputPackets(m, s, ps).p)
    decreases |ps|
  {
    hide InputPacket, SettledPcb;
    if ps != [] {
      InputPacketSettles(m, s, ps[0]);
      InputPacketsSettle(m, InputPacket(m, s, ps[0]), ps[1..]);
    }
  }

  lemma DoSettles(x: Peer, y: Peer, op: Op)
    requires 0 < x.p.cfg.mss && SettledPcb(x.p) && (op.Deliver? && op.k < |y.out| ==> y.out[op.k].Packets?)
    ensures SettledPcb(Do(Unbounded, x, y, op).p)
  {
    hide DoFlush, DoInput, DoRecv;
    match op
    case Send(data) =>
    case Recv(len) => RecvSettles(x, len);
    case Update(now) => OthersSettle(x, x.(p := Tick(x.p, U32(now)).0), U32(now));
    case Flush => OthersSettle(x, x, 0);
    case Deliver(k) => if k < |y.out| { InputSettles(x, y.out[k]); }
  }

  lemma RecvSettles(x: Peer, len: int)
    requires SettledPcb(x.p)
    ensures SettledPcb(DoRecv(Unbounded, x, len).p)
  {
    hide MoveReady, FirstMessage, Payload, PeekSize;
    var k := FirstMessage(x.p.rcv.queue);
    var rest := x.p.rcv.(queue := x.p.rcv.queue[k..], nQue := x.p.rcv.nQue - k);
    MoveReadySettles(Unbounded, x.p.cfg.rcvWnd, if len < 0 then x.p.rcv else rest);
  }

  lemma OthersSettle(x: Peer, t: Peer, now: int)
    requires SettledPcb(x.p) && t.p.rcv == x.p.rcv && t.p.cfg == x.p.cfg
    ensures SettledPcb(DoFlush(Unbounded, t).p)
    ensures t == x.(p := Tick(x.p, now).0) ==> SettledPcb(t.p)
  {
    hide Settled, Emit, Datagrams, AdmittedCount, Frags, Admit, Resend, Decisions, ReactToLoss;
  }

  lemma InputSettles(x: Peer, d: Datagram)
    requires 0 < x.p.cfg.mss && SettledPcb(x.p) && d.Packets?
    ensures SettledPcb(DoInput(Unbounded, x, d).p)
  {
    hide InputPackets, GrowCwnd, ParseFastAck, Settled;
    InputPacketsSettle(Unbounded, Parsing(x.p, false, 0), d.ps);
  }

  /** In every state of every run nothing in rcv_buf can move, so that a repeat of a buffered
      residue is always clear. */
  lemma {:induction false} RunSettled(ca: Config, cb: Config, es: seq<Event>)
    requires Compatible(ca, cb)
    ensures var s := Run(Unbounded, Start(ca, cb), es);
            SettledPcb(s.a.p) && SettledPcb(s.b.p)
    decreases |es|
  {
    hide Do, SettledPcb, Accounted, Direction;
    if es == [] {
      StartSettled(ca);
      StartSettled(cb);
    } else {
      var n := |es| - 1;
      RunSettled(ca, cb, es[..n]);
      RunInv(ca, cb, es[..n]);
      var s := Run(Unbounded, Start(ca, cb), es[..n]);
      DoSettles(s.a, s.b, es[n].op);
      DoSettles(s.b, s.a, es[n].op);
    }
  }

  lemma StartSettled(c: Config)
    ensures SettledPcb(NewPeer(c).p)
  {
  }

  // ---- recent numbers are clear ----

  /** No number in a packet for x is more than 2^31 behind the newest of its direction, less
      x's window for data. */
  predicate Recent(h: Packet, xNewest: int, yNewest: int, wnd: int) {
    && xNewest - TWO31 <= h.una
    && (h.cmd == CMD_ACK ==> xNewest - TWO31 <= h.sn)
    && (h.cmd == CMD_PUSH ==> yNewest + wnd - TWO31 <= h.sn)
  }

  predicate AllRecent(ps: seq<Packet>, xNewest: int, yNewest: int, wnd: int) {
    forall i :: 0 <= i < |ps| ==> Recent(ps[i], xNewest, yNewest, wnd)
  }

  lemma RecentAck(s: Sender, log: seq<Frag>, sn: int)
    requires SndOk(s, log) && |log| - TWO31 <= sn
    ensures AckClear(s, sn) && UnaClear(s, sn)
  {
    if sn < s.una {
      Backward(sn, s.una);
      SmallDistance(s.una - sn);
    }
  }

  lemma RecentPush(r: Receiver, wnd: int, log: seq<Frag>, sn: int)
    requires RcvOk(r, wnd, log) && |log| <= r.nxt + TWO31 && |log| + wnd - TWO31 <= sn < |log| && 0 <= wnd
    ensures PushClear(r, wnd, sn)
  {
    if sn < r.nxt {
      SmallDistance(r.nxt - sn);
    } else if r.nxt + wnd <= sn {
      SmallDistance(sn - r.nxt - wnd);
    }
  }

  lemma RecentMax(sn: int, maxAck: int)
    requires -TWO31 < sn - maxAck < TWO31
    ensures MaxClear(sn, maxAck)
  {
    SmallDistance(if sn > maxAck then sn - maxAck else maxAck - sn);
  }

  /** The greatest ack so far is recent. */
  predicate RecentParsing(s: Parsing, n: int) { s.acked ==> n - TWO31 <= s.maxAck < n }

  lemma RecentPacketIsClear(s: Parsing, h: Packet, xlog: seq<Frag>, yr: Receiver, ylog: seq<Frag>)
    requires InputInv(s.p, xlog, yr, ylog) && PacketOk(h, ylog, yr) && ConfigOk(s.p.cfg)
    requires AcksAssigned([h], |xlog|) && Recent(h, |xlog|, |ylog|, s.p.cfg.rcvWnd)
    requires RecentParsing(s, |xlog|) && |ylog| <= s.p.rcv.nxt + TWO31
    ensures ClearPacket(s, h) && RecentParsing(InputPacket(Unbounded, s, h), |xlog|)
  {
    hide AckClear, UnaClear, PushClear, MaxClear, ParseUna, ParseAck, ParseData, UpdateAck;
    assert [h][0] == h;
    RecentAck(s.p.snd, xlog, h.una);
    UnaKeeps(s.p.snd, h.una, xlog, yr);
    if h.cmd == CMD_ACK {
      RecentAck(AfterUna(s, h).p.snd, xlog, h.sn);
      if s.acked {
        RecentMax(h.sn, s.maxAck);
      }
    } else if h.cmd == CMD_PUSH {
      RecentPush(s.p.rcv, s.p.cfg.rcvWnd, ylog, h.sn);
    }
  }

  lemma {:induction false} RecentPacketsAreClear(s: Parsing, ps: seq<Packet>, xlog: seq<Frag>, yr: Receiver,
                                                 ylog: seq<Frag>)
    requires InputInv(s.p, xlog, yr, ylog) && PacketsOk(ps, ylog, yr) && ConfigOk(s.p.cfg)
    requires AcksAssigned(ps, |xlog|) && AllRecent(ps, |xlog|, |ylog|, s.p.cfg.rcvWnd)
    requires RecentParsing(s, |xlog|) && |ylog| <= s.p.rcv.nxt + TWO31
    ensures ClearPackets(s, ps)
    decreases |ps|
  {
    hide InputPacket, ClearPacket, RecentParsing, Recent;
    if ps != [] {
      RecentPacketIsClear(s, ps[0], xlog, yr, ylog);
      InputPacketKeeps(s, ps[0], xlog, yr, ylog);
      InputPacketKeepsConfig(Unbounded, s, ps[0]);
      RecentPacketsAreClear(InputPacket(Unbounded, s, ps[0]), ps[1..], xlog, yr, ylog);
    }
  }

  /** A sender is never further ahead of its peer than one window and its own span. */
  lemma PeersAreNear(x: Peer, y: Peer)
    requires Inv(x, y)
    ensures |y.log| <= x.p.rcv.nxt + x.p.cfg.rcvWnd + MAX_SPAN
  {
    var edge := x.p.rcv.nxt + x.p.cfg.rcvWnd;
    assert edge < y.p.snd.una ==> Unacked(y.p.snd, edge) || Stored(x.p.rcv, edge);
  }

  /** Delivering a datagram of recent numbers is timely. */
  lemma RecentIsTimely(x: Peer, y: Peer, k: nat)
    requires Inv(x, y) && k < |y.out|
    requires x.p.cfg.rcvWnd + MAX_SPAN <= TWO31 || |y.log| <= TWO31
    requires AllRecent(y.out[k].ps, |x.log|, |y.log|, x.p.cfg.rcvWnd)
    ensures Timely(y.out[k], x)
  {
    hide ClearPackets, Recent;
    assert PacketsOk(y.out[k].ps, y.log, y.p.rcv);
    PeersAreNear(x, y);
    DeliveredAcks(x, y, k);
    RecentPacketsAreClear(Parsing(x.p, false, 0), y.out[k].ps, x.log, y.p.rcv, y.log);
  }

  lemma LogGrows(x: Peer, y: Peer, op: Op)
    requires 0 < x.p.cfg.mss
    ensures |x.log| <= |Do(Unbounded, x, y, op).log|
  {
  }

  /** In a run that numbers at most 2^31 segments in each direction, less the window of the
      receiving side, every delivery is timely, whatever the network does. */
  lemma {:induction false} ShortRunsAreTimely(ca: Config, cb: Config, es: seq<Event>)
    requires Compatible(ca, cb)
    requires var s := Run(Unbounded, Start(ca, cb), es);
             |s.a.log| + cb.rcvWnd <= TWO31 && |s.b.log| + ca.rcvWnd <= TWO31
    ensures TimelyRun(Start(ca, cb), es)
    decreases |es|
  {
    hide Do, TimelyOp;
    if es != [] {
      var n := |es| - 1;
      var s := Run(Unbounded, Start(ca, cb), es[..n]);
      if es[n].atA {
        LogGrows(s.a, s.b, es[n].op);
      } else {
        LogGrows(s.b, s.a, es[n].op);
      }
      ShortRunsAreTimely(ca, cb, es[..n]);
      RunInv(ca, cb, es[..n]);
      if es[n].atA {
        EarlyOpIsTimely(s.a, s.b, es[n].op);
      } else {
        EarlyOpIsTimely(s.b, s.a, es[n].op);
      }
    }
  }

  lemma EarlyOpIsTimely(x: Peer, y: Peer, op: Op)
    requires Inv(x, y) && |x.log| <= TWO31 && |y.log| + x.p.cfg.rcvWnd <= TWO31
    ensures TimelyOp(x, y, op)
  {
    hide Timely, Inv;
    if op.Deliver? && op.k < |y.out| {
      NumbersAreNatural(x, y, op.k);
      RecentIsTimely(x, y, op.k);
    }
  }

  lemma NumbersAreNatural(x: Peer, y: Peer, k: nat)
    requires Inv(x, y) && k < |y.out| && |x.log| <= TWO31 && |y.log| + x.p.cfg.rcvWnd <= TWO31
    ensures AllRecent(y.out[k].ps, |x.log|, |y.log|, x.p.cfg.rcvWnd)
  {
    var ps := y.out[k].ps;
    assert PacketsOk(ps, y.log, y.p.rcv);
    forall i | 0 <= i < |ps| ensures Recent(ps[i], |x.log|, |y.log|, x.p.cfg.rcvWnd) {
      assert PacketOk(ps[i], y.log, y.p.rcv);
      assert ps[i].cmd == CMD_ACK ==> Stored(y.p.rcv, ps[i].sn);
    }
  }
}
