/** Retransmission: which segments a flush sends, how their timeouts back off, and that
    nothing is due right after a flush, so that `ikcp_check` answers later. */
module KcpResend {
  import opened KcpSerial
  import opened KcpWire
  import opened KcpSpec
  import opened KcpNet
  import opened KcpSender
  import opened KcpPlain
  import opened KcpTimer
  import opened KcpRtt

  // ---- what is sent ----

  /** A segment is new, or its time has come, or enough later segments were acknowledged and
      it may still be sent early. */
  predicate Wanted(p: Pcb, s: Segment) {
    || s.xmit == 0
    || TimeDiff(p.current, s.resendTs) >= 0
    || (ResendLimit(p.cfg) <= s.fastAck && (p.cfg.fastLimit <= 0 || I32(s.xmit) <= p.cfg.fastLimit))
  }

  /** The wanted segments of `buf` as packets, in order. */
  function WantedPackets(p: Pcb, buf: seq<Segment>): seq<Packet> {
    if buf == [] then []
    else
      var n := |buf| - 1;
      WantedPackets(p, buf[..n]) + (if Wanted(p, buf[n]) then [OnWire(Stamped(p, buf[n]).pkt)] else [])
  }

  /** A flush sends exactly the wanted segments, each once, in order. */
  lemma FlushSendsWanted(p: Pcb, buf: seq<Segment>)
    ensures Resend(p, buf).out == WantedPackets(p, buf)
  {
    var t := Tally([], false, false, p.xmit, p.dead);
    AccountIsWanted(p, t, buf);
  }

  lemma {:induction false} AccountIsWanted(p: Pcb, t: Tally, buf: seq<Segment>)
    requires t.out == []
    ensures AccountAll(p.cfg, t, Decisions(p, buf)).out == WantedPackets(p, buf)
    decreases |buf|
  {
    hide Decide, Wanted;
    if buf != [] {
      var n := |buf| - 1;
      AccountIsWanted(p, t, buf[..n]);
      assert Decisions(p, buf)[..n] == Decisions(p, buf[..n]);
      SendIsWanted(p, buf[n]);
    }
  }

  lemma SendIsWanted(p: Pcb, s: Segment)
    ensures Decide(p, s).send <==> Wanted(p, s)
    ensures Decide(p, s).send ==> Decide(p, s).seg.pkt == Stamped(p, s).pkt
  {
  }

  // ---- how the timeout backs off ----

  /** The timeout of a segment after the decision. It never falls while it stays below 2^30:
      a new one gets the current estimate, an early resend keeps its own, and at its time it
      is at least doubled, or grows by half of itself, or by half of the estimate. */
  lemma BacksOff(p: Pcb, s: Segment)
    requires 0 <= s.rto < TWO31 / 2 && 0 <= p.rtt.rto <= RTO_MAX
    ensures var r, due := Decide(p, s).seg.rto, TimeDiff(p.current, s.resendTs) >= 0;
            if s.xmit == 0 then r == p.rtt.rto
            else if !due then r == s.rto
            else
              && s.rto <= r
              && r == s.rto + (if p.cfg.nodelay == 0 then Max(s.rto, p.rtt.rto)
                               else if p.cfg.nodelay < 2 then s.rto / 2 else p.rtt.rto / 2)
  {
    hide TimeDiff, U32, I32;
    Same32(s.rto, p.rtt.rto);
  }

  /** No sum of timeouts in range wraps around. */
  lemma Same32(a: int, b: int)
    requires 0 <= a < TWO31 / 2 && 0 <= b <= RTO_MAX
    ensures I32(a) == a && U32(a + Max(a, b)) == a + Max(a, b)
    ensures U32(a + Half(a)) == a + a / 2 && U32(a + Half(b)) == a + b / 2
  {
  }

  // ---- nothing is due after a flush ----

  /** The clock has not run away from a segment, and its timeout is in range. */
  predicate InRange(p: Pcb, s: Segment) {
    && 0 < p.rtt.rto <= RTO_MAX
    && (s.xmit != 0 ==> 0 < s.rto < TWO31 / 2 && TimeDiff(p.current, s.resendTs) != -TWO31)
  }

  predicate AllInRange(p: Pcb, buf: seq<Segment>) { forall i :: 0 <= i < |buf| ==> InRange(p, buf[i]) }

  lemma NotDueAfter(p: Pcb, s: Segment)
    requires IsU32(p.current) && InRange(p, s)
    ensures TimeDiff(Decide(p, s).seg.resendTs, p.current) > 0
  {
    var d := Decide(p, s);
    if d.send {
      if s.xmit != 0 {
        BacksOff(p, s);
      }
      var k := Delay(p, s);
      Ahead32(p.current, k);
    } else {
      Opposite(p.current, s.resendTs);
    }
  }

  /** How far ahead a segment that is sent is rescheduled. */
  function Delay(p: Pcb, s: Segment): int {
    var d := Decide(p, s);
    if s.xmit == 0 && p.cfg.nodelay == 0 then d.seg.rto + d.seg.rto / 8 else d.seg.rto
  }

  lemma Ahead32(now: int, k: int)
    requires 0 < k < TWO31
    ensures TimeDiff(U32(now + k), now) == k
  {
    var q := (now + k) / TWO32;
    assert U32(now + k) - now == k - q * TWO32;
    WrapShift(k, -q);
  }

  lemma AdmittedInRange(m: Arith, p: Pcb, s: Sender, cwnd: int)
    requires 0 < p.rtt.rto <= RTO_MAX && AllInRange(p, s.buf)
    ensures AllInRange(p, Admit(m, p, s, cwnd).buf)
    decreases |s.queue|
  {
    if s.queue != [] {
      AdmittedInRange(m, p, Sender(s.una, SeqAdd(m, s.nxt, 1), s.queue[1..], s.buf + [Numbered(p, s.queue[0], s.nxt)],
                                   s.nQue - 1, s.nBuf + 1), cwnd);
    }
  }

  /** After a flush the time of every segment in flight is still to come. */
  lemma NothingDueAfterFlush(m: Arith, p: Pcb)
    requires IsU32(p.current) && 0 < p.rtt.rto <= RTO_MAX
    requires AllInRange(p, p.snd.buf)
    ensures var b := FlushNow(m, p).p.snd.buf;
            forall i :: 0 <= i < |b| ==> TimeDiff(b[i].resendTs, p.current) > 0
  {
    hide Admit, Decide, ReactToLoss, ProbeTimer, AckPackets, ProbePackets, InRange;
    var s := Admit(m, p, p.snd, EffectiveWindow(p));
    AdmittedInRange(m, p, p.snd, EffectiveWindow(p));
    var ds := Decisions(p, s.buf);
    forall i | 0 <= i < |ds| ensures TimeDiff(SegmentsOf(ds)[i].resendTs, p.current) > 0 {
      NotDueAfter(p, s.buf[i]);
    }
    assert FlushNow(m, p).p.snd.buf == SegmentsOf(ds);
  }

  /** So `ikcp_check`, asked right after an update that flushed, answers later than now. */
  lemma CheckAfterFlush(m: Arith, p: Pcb, now: int)
    requires ConfigOk(p.cfg) && IsU32(now) && Tick(p, now).1
    requires var t := Tick(p, now).0;
             0 < t.rtt.rto <= RTO_MAX && AllInRange(t, t.snd.buf)
    ensures 0 < TimeDiff(Check(KcpSpec.Update(m, p, now).p, now), now) <= p.cfg.interval
  {
    hide Tick, FlushNow, AllInRange, PacketWait;
    var t := Tick(p, now).0;
    var q := FlushNow(m, t).p;
    TickIs(p, now);
    FlushReschedules(p, now);
    NothingDueAfterFlush(m, t);
    FlushKeepsClock(m, t);
    assert KcpSpec.Update(m, p, now).p == q;
    PacketWaitIs(q.snd.buf, now);
    var w := PacketWait(q.snd.buf, now).ms;
    var f := TimeDiff(q.tsFlush, now);
    Opposite(q.tsFlush, now);
    var k := Min(Min(w, f), q.cfg.interval);
    Ahead32(now, k);
  }

  lemma TickIs(p: Pcb, now: int)
    ensures var t := Tick(p, now).0;
            t.updated && t.current == now && t.cfg == p.cfg
  {
  }

  lemma FlushKeepsClock(m: Arith, p: Pcb)
    ensures var q := FlushNow(m, p).p;
            q.updated == p.updated && q.tsFlush == p.tsFlush && q.cfg == p.cfg
  {
  }

  // ---- whole runs ----

  function Pow2(n: nat): int { if n == 0 then 1 else 2 * Pow2(n - 1) }

  lemma {:induction false} Pow2Bounds(n: nat)
    requires n <= 14
    ensures 1 <= Pow2(n) <= 16384
    decreases 14 - n
  {
    if n < 14 {
      Pow2Bounds(n + 1);
      Pow2Positive(n);
    } else {
      assert Pow2(7) == 128;
      assert Pow2(11) == 2048;
      assert Pow2(14) == 16384;
    }
  }

  lemma {:induction false} Pow2Positive(n: nat)
    ensures 1 <= Pow2(n)
  {
    if n > 0 {
      Pow2Positive(n - 1);
    }
  }

  /** The timeout of a segment sent k times is positive and at most 60 seconds doubled k - 1
      times. */
  predicate BackedOff(s: Segment) {
    IsU32(s.xmit) && (1 <= s.xmit <= 15 ==> 0 < s.rto <= RTO_MAX * Pow2(s.xmit - 1))
  }

  predicate AllBackedOff(buf: seq<Segment>) { forall i :: 0 <= i < |buf| ==> BackedOff(buf[i]) }

  lemma DecideBacksOff(p: Pcb, s: Segment)
    requires BackedOff(s) && 0 < p.rtt.rto <= RTO_MAX
    ensures BackedOff(Decide(p, s).seg)
  {
    hide Pow2;
    Pow2One();
    var x := Decide(p, s).seg.xmit;
    if s.xmit != 0 && 2 <= x <= 15 {
      Pow2Step(x - 1);
      Pow2Bounds(x - 2);
      if x != s.xmit {
        BacksOff(p, s);
      }
    }
  }

  lemma Pow2One()
    ensures Pow2(0) == 1
  {
  }

  lemma Pow2Step(n: nat)
    requires 0 < n
    ensures Pow2(n) == 2 * Pow2(n - 1)
  {
  }

  lemma AdmitBacksOff(m: Arith, p: Pcb, s: Sender, cwnd: int)
    requires AllBackedOff(s.buf)
    ensures AllBackedOff(Admit(m, p, s, cwnd).buf)
    decreases |s.queue|
  {
    if s.queue != [] {
      AdmitBacksOff(m, p, Sender(s.una, SeqAdd(m, s.nxt, 1), s.queue[1..], s.buf + [Numbered(p, s.queue[0], s.nxt)],
                                 s.nQue - 1, s.nBuf + 1), cwnd);
    }
  }

  /** What a run keeps at each side: timeouts of segments, and the estimate they start from. */
  predicate BackoffOk(p: Pcb) {
    ConfigOk(p.cfg) && EstimateOk(p.cfg, p.rtt) && AllBackedOff(p.snd.buf)
  }

  lemma FlushBacksOff(m: Arith, x: Peer)
    requires BackoffOk(x.p)
    ensures BackoffOk(DoFlush(m, x).p)
  {
    hide Admit, Decide, ReactToLoss, ProbeTimer, BackedOff, Emit, Datagrams, AdmittedCount, Frags;
    if x.p.updated {
      var p := x.p;
      var s := Admit(m, p, p.snd, EffectiveWindow(p));
      AdmitBacksOff(m, p, p.snd, EffectiveWindow(p));
      var ds := Decisions(p, s.buf);
      forall i | 0 <= i < |ds| ensures BackedOff(SegmentsOf(ds)[i]) {
        DecideBacksOff(p, s.buf[i]);
      }
      assert FlushNow(m, p).p.snd.buf == SegmentsOf(ds);
    }
  }

  lemma FewerBackOff(buf: seq<Segment>, rest: seq<Segment>)
    requires AllBackedOff(buf) && forall s :: s in rest ==> s in buf
    ensures AllBackedOff(rest)
  {
    forall i | 0 <= i < |rest| ensures BackedOff(rest[i]) {
      assert rest[i] in buf;
    }
  }

  lemma InputPacketBacksOff(m: Arith, s: Parsing, h: Packet)
    requires BackoffOk(s.p)
    ensures BackoffOk(InputPacket(m, s, h).p)
  {
    hide AllBackedOff, EstimateOk, UpdateAck, ParseData;
    InputPacketRtt(m, s, h);
    DropAckedPlain(m, s.p.snd.buf, h.una);
    var buf := DropAcked(m, s.p.snd.buf, h.una);
    FewerBackOff(s.p.snd.buf, buf);
    RemoveSnPlain(m, buf, h.sn);
    FewerBackOff(buf, RemoveSn(m, buf, h.sn));
  }

  lemma {:induction false} InputPacketsBackOff(m: Arith, s: Parsing, ps: seq<Packet>)
    requires BackoffOk(s.p)
    ensures BackoffOk(InputPackets(m, s, ps).p)
    decreases |ps|
  {
    hide InputPacket, BackoffOk;
    if ps != [] {
      InputPacketBacksOff(m, s, ps[0]);
      InputPacketsBackOff(m, InputPacket(m, s, ps[0]), ps[1..]);
    }
  }

  lemma {:induction false} InputLoopBacksOff(s: Parsing, b: bytes)
    requires BackoffOk(s.p)
    ensures BackoffOk(InputLoop(s, b).0.p)
    decreases |b|
  {
    hide InputPacket, BackoffOk, Get32, LengthField, Decode, KnownCommand;
    if |b| >= OVERHEAD && |b| >= OVERHEAD + LengthField(b) {
      InputPacketBacksOff(Machine32, s, Decode(b));
      InputLoopBacksOff(InputPacket(Machine32, s, Decode(b)), b[OVERHEAD + LengthField(b)..]);
    }
  }

  lemma FinishBacksOff(m: Arith, s: Parsing, prevUna: int)
    requires BackoffOk(s.p)
    ensures BackoffOk(FinishInput(m, s, prevUna))
  {
    hide GrowCwnd, EstimateOk, Pow2;
    if s.acked {
      BumpFastAckIs(m, s.p.snd.buf, s.maxAck);
      var r := ParseFastAck(m, s.p.snd, s.maxAck).buf;
      forall i | 0 <= i < |r| ensures BackedOff(r[i]) {
        assert BackedOff(s.p.snd.buf[i]);
      }
    }
  }

  lemma InputBacksOff(m: Arith, x: Peer, d: Datagram)
    requires BackoffOk(x.p)
    ensures BackoffOk(DoInput(m, x, d).p)
  {
    hide InputPackets, InputLoop, FinishInput, AllBackedOff, EstimateOk;
    var s0 := Parsing(x.p, false, 0);
    match d
    case Packets(ps) =>
      InputPacketsBackOff(m, s0, ps);
      InputPacketsKeepsConfig(m, s0, ps);
      FinishBacksOff(m, InputPackets(m, s0, ps), x.p.snd.una);
    case Bytes(b) =>
      InputLoopBacksOff(s0, b);
      FinishBacksOff(Machine32, InputLoop(s0, b).0, x.p.snd.una);
  }

  lemma DoBacksOff(m: Arith, x: Peer, y: Peer, op: Op)
    requires BackoffOk(x.p)
    ensures BackoffOk(Do(m, x, y, op).p)
  {
    hide DoFlush, DoInput, AllBackedOff, EstimateOk;
    match op
    case Send(data) =>
    case Recv(len) =>
    case Update(now) => FlushBacksOff(m, x.(p := Tick(x.p, U32(now)).0));
    case Flush => FlushBacksOff(m, x);
    case Deliver(k) => if k < |y.out| { InputBacksOff(m, x, y.out[k]); }
  }

  /** In every state of every run, of the unbounded protocol and of the machine alike, the
      timeout of a segment sent k <= 15 times is positive and at most 60 s * 2^(k-1). */
  lemma {:induction false} RunBackoff(m: Arith, ca: Config, cb: Config, es: seq<Event>)
    requires Compatible(ca, cb)
    ensures var s := Run(m, Start(ca, cb), es);
            BackoffOk(s.a.p) && BackoffOk(s.b.p)
    decreases |es|
  {
    hide Do, AllBackedOff, EstimateOk;
    if es == [] {
      StartBackoff(ca);
      StartBackoff(cb);
    } else {
      var n := |es| - 1;
      var s := Run(m, Start(ca, cb), es[..n]);
      RunBackoff(m, ca, cb, es[..n]);
      DoBacksOff(m, s.a, s.b, es[n].op);
      DoBacksOff(m, s.b, s.a, es[n].op);
    }
  }

  lemma StartBackoff(c: Config)
    requires ConfigOk(c)
    ensures BackoffOk(NewPeer(c).p)
  {
  }

  /** No segment was sent more than 15 times, and the clock is not half a cycle from its time. */
  predicate Moderate(p: Pcb, now: int) {
    forall i :: 0 <= i < |p.snd.buf| ==>
      0 <= p.snd.buf[i].xmit <= 15 && TimeDiff(now, p.snd.buf[i].resendTs) != -TWO31
  }

  lemma ModerateInRange(p: Pcb, now: int)
    requires BackoffOk(p) && Moderate(p, now)
    ensures var t := Tick(p, now).0;
            0 < t.rtt.rto <= RTO_MAX && AllInRange(t, t.snd.buf)
  {
    hide Pow2;
    var t := Tick(p, now).0;
    forall i | 0 <= i < |t.snd.buf| ensures InRange(t, t.snd.buf[i]) {
      var s := p.snd.buf[i];
      assert BackedOff(s);
      if s.xmit != 0 {
        Pow2Bounds(s.xmit - 1);
      }
    }
  }

  /** In any run, right after an update that flushes, `ikcp_check` answers later than now, as
      long as no segment was sent more than 15 times. */
  lemma RunCheckIsLater(m: Arith, ca: Config, cb: Config, es: seq<Event>, now: int)
    requires Compatible(ca, cb) && IsU32(now)
    ensures var p := Run(m, Start(ca, cb), es).a.p;
            Tick(p, now).1 && Moderate(p, now) ==>
              0 < TimeDiff(Check(KcpSpec.Update(m, p, now).p, now), now) <= p.cfg.interval
    ensures var p := Run(m, Start(ca, cb), es).b.p;
            Tick(p, now).1 && Moderate(p, now) ==>
              0 < TimeDiff(Check(KcpSpec.Update(m, p, now).p, now), now) <= p.cfg.interval
  {
    hide Run, KcpSpec.Update, Check, Tick, Moderate, AllInRange, AllBackedOff, EstimateOk;
    RunBackoff(m, ca, cb, es);
    var s := Run(m, Start(ca, cb), es);
    SideCheckIsLater(m, s.a.p, now);
    SideCheckIsLater(m, s.b.p, now);
  }

  lemma SideCheckIsLater(m: Arith, p: Pcb, now: int)
    requires BackoffOk(p) && IsU32(now)
    ensures Tick(p, now).1 && Moderate(p, now) ==>
              0 < TimeDiff(Check(KcpSpec.Update(m, p, now).p, now), now) <= p.cfg.interval
  {
    hide KcpSpec.Update, Check, Tick, Moderate, AllInRange, AllBackedOff, EstimateOk;
    if Tick(p, now).1 && Moderate(p, now) {
      ModerateInRange(p, now);
      CheckAfterFlush(m, p, now);
    }
  }
}
