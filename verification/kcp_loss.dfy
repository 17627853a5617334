/** How the congestion window answers to loss and to progress: what a flush and a datagram
    make of it, from the segments in flight and the clock alone. */
module KcpLoss {
  import opened KcpSerial
  import opened KcpWire
  import opened KcpSpec
  import opened KcpNet
  import opened KcpSender
  import opened KcpSafety
  import opened KcpCongestion
  import opened KcpProbe

  // ---- which segments are lost ----

  /** Sent before, and its time has come. */
  predicate TimedOut(p: Pcb, s: Segment) { s.xmit != 0 && TimeDiff(p.current, s.resendTs) >= 0 }

  /** How many later segments must have been acknowledged before one is sent early. */
  function Skips(c: Config): int { if c.fastResend > 0 then c.fastResend else 0xffff_ffff }

  /** Sent before and not due, but skipped often enough, and it may still be sent early. */
  predicate SkippedOver(p: Pcb, s: Segment) {
    && s.xmit != 0 && TimeDiff(p.current, s.resendTs) < 0 && Skips(p.cfg) <= s.fastAck
    && (p.cfg.fastLimit <= 0 || I32(s.xmit) <= p.cfg.fastLimit)
  }

  predicate SomeTimedOut(p: Pcb, buf: seq<Segment>) { exists i :: 0 <= i < |buf| && TimedOut(p, buf[i]) }

  predicate SomeSkipped(p: Pcb, buf: seq<Segment>) { exists i :: 0 <= i < |buf| && SkippedOver(p, buf[i]) }

  function CountTimedOut(p: Pcb, buf: seq<Segment>): nat {
    if buf == [] then 0 else CountTimedOut(p, buf[..|buf| - 1]) + (if TimedOut(p, buf[|buf| - 1]) then 1 else 0)
  }

  // ---- the answer of one flush ----

  /** The numbers assigned and not yet acknowledged in order. */
  function Span(m: Arith, s: Sender): int { if m.Machine32? then U32(s.nxt - s.una) else s.nxt - s.una }

  /** From p before the flush to q after it. A timeout restarts from one segment with half the
      window as threshold; otherwise an early resend halves what is in flight; otherwise the
      window stays. It is one segment at least. */
  predicate AnswersLoss(m: Arith, p: Pcb, q: Pcb) {
    var mss := p.cfg.mss;
    if SomeTimedOut(p, p.snd.buf) then q.cc == Congestion(1, mss, Max(Allowed(p) / 2, 2))
    else if SomeSkipped(p, p.snd.buf) then
      && q.cc.ssthresh == Max(Span(m, q.snd) / 2, 2)
      && q.cc.cwnd == Max(U32(q.cc.ssthresh + Skips(p.cfg)), 1)
      && q.cc.incr == U32(q.cc.cwnd * mss)
    else if p.cc.cwnd < 1 then q.cc == Congestion(1, mss, p.cc.ssthresh)
    else q.cc == p.cc
  }

  /** The segments a flush admits have not been sent. */
  lemma {:induction false} AdmitAppends(m: Arith, p: Pcb, s: Sender, cwnd: int)
    ensures var r := Admit(m, p, s, cwnd);
            && |s.buf| <= |r.buf| && r.buf[..|s.buf|] == s.buf && r.una == s.una
            && forall i :: |s.buf| <= i < |r.buf| ==> r.buf[i].xmit == 0 && r.buf[i].fastAck == 0
    decreases |s.queue|
  {
    if s.queue != [] && SeqDiff(m, s.nxt, SeqAdd(m, s.una, cwnd)) < 0 {
      var s1 := Sender(s.una, SeqAdd(m, s.nxt, 1), s.queue[1..], s.buf + [Numbered(p, s.queue[0], s.nxt)],
                       s.nQue - 1, s.nBuf + 1);
      AdmitAppends(m, p, s1, cwnd);
      var r := Admit(m, p, s, cwnd);
      assert r == Admit(m, p, s1, cwnd);
      assert r.buf[..|s.buf|] == r.buf[..|s1.buf|][..|s.buf|];
      assert r.buf[|s.buf|] == r.buf[..|s1.buf|][|s.buf|];
    }
  }

  lemma DecideTells(p: Pcb, s: Segment)
    ensures Decide(p, s).lost <==> TimedOut(p, s)
    ensures Decide(p, s).fast <==> SkippedOver(p, s)
  {
  }

  /** What the loop over snd_buf finds. */
  lemma {:induction false} ResendFinds(p: Pcb, t: Tally, buf: seq<Segment>)
    requires !t.lost && !t.fast
    ensures var r := AccountAll(p.cfg, t, Decisions(p, buf));
            (r.lost <==> SomeTimedOut(p, buf)) && (r.fast <==> SomeSkipped(p, buf))
    decreases |buf|
  {
    hide Decide, TimedOut, SkippedOver, SomeTimedOut, SomeSkipped, U32;
    if buf == [] {
      NoneFound(p, buf);
    } else {
      var n := |buf| - 1;
      ResendFinds(p, t, buf[..n]);
      assert Decisions(p, buf)[..n] == Decisions(p, buf[..n]);
      DecideTells(p, buf[n]);
      LastFound(p, buf);
    }
  }

  lemma NoneFound(p: Pcb, buf: seq<Segment>)
    requires buf == []
    ensures !SomeTimedOut(p, buf) && !SomeSkipped(p, buf)
  {
  }

  lemma LastFound(p: Pcb, buf: seq<Segment>)
    requires buf != []
    ensures var n := |buf| - 1;
            && (SomeTimedOut(p, buf) <==> SomeTimedOut(p, buf[..n]) || TimedOut(p, buf[n]))
            && (SomeSkipped(p, buf) <==> SomeSkipped(p, buf[..n]) || SkippedOver(p, buf[n]))
  {
    hide TimedOut, SkippedOver;
    assert forall i :: 0 <= i < |buf| - 1 ==> buf[..|buf| - 1][i] == buf[i];
  }

  /** What the loop over snd_buf counts. */
  lemma {:induction false} ResendCounts(p: Pcb, t: Tally, buf: seq<Segment>)
    ensures var r, n := AccountAll(p.cfg, t, Decisions(p, buf)), CountTimedOut(p, buf);
            r.xmit == if n == 0 then t.xmit else U32(t.xmit + n)
    decreases |buf|
  {
    hide Decide, TimedOut, SkippedOver, U32;
    if buf != [] {
      var n := |buf| - 1;
      ResendCounts(p, t, buf[..n]);
      assert Decisions(p, buf)[..n] == Decisions(p, buf[..n]);
      DecideTells(p, buf[n]);
      CountMore(t.xmit + CountTimedOut(p, buf[..n]));
    }
  }

  lemma CountMore(x: int)
    ensures U32(U32(x) + 1) == U32(x + 1)
  {
    WrapAdd(x, 1);
  }

  lemma OnlyThePrefix(p: Pcb, buf: seq<Segment>, more: seq<Segment>)
    requires |buf| <= |more| && more[..|buf|] == buf
    requires forall i :: |buf| <= i < |more| ==> more[i].xmit == 0
    ensures SomeTimedOut(p, more) <==> SomeTimedOut(p, buf)
    ensures SomeSkipped(p, more) <==> SomeSkipped(p, buf)
  {
    assert forall i :: 0 <= i < |buf| ==> buf[i] == more[i];
  }

  lemma LeastWindow(p: Pcb)
    ensures EffectiveWindow(p) == Allowed(p)
  {
  }

  /** A flush answers loss as it should, in both arithmetics. */
  lemma FlushAnswersLoss(m: Arith, p: Pcb)
    requires 0 < p.cfg.mss < TWO32
    ensures AnswersLoss(m, p, FlushNow(m, p).p)
  {
    hide Admit, Decide, Decisions, SomeTimedOut, SomeSkipped, U32, ProbeTimer, AckPackets, ProbePackets;
    hide AccountAll, EffectiveWindow, Allowed;
    var cwnd := EffectiveWindow(p);
    LeastWindow(p);
    var s := Admit(m, p, p.snd, cwnd);
    AdmitAppends(m, p, p.snd, cwnd);
    OnlyThePrefix(p, p.snd.buf, s.buf);
    ResendFinds(p, Tally([], false, false, p.xmit, p.dead), s.buf);
    assert U32(1 * p.cfg.mss) == p.cfg.mss by { Same32(p.cfg.mss); }
  }

  /** The counter of timeouts grows by the number of segments that are due. */
  lemma FlushCountsTimeouts(m: Arith, p: Pcb)
    ensures var n := CountTimedOut(p, p.snd.buf);
            FlushNow(m, p).p.xmit == if n == 0 then p.xmit else U32(p.xmit + n)
  {
    hide Admit, EffectiveWindow, Decide, Decisions, CountTimedOut, AccountAll, U32;
    hide ProbeTimer, AckPackets, ProbePackets, ReactToLoss;
    var s := Admit(m, p, p.snd, EffectiveWindow(p));
    AdmitAppends(m, p, p.snd, EffectiveWindow(p));
    CountPrefix(p, p.snd.buf, s.buf);
    ResendCounts(p, Tally([], false, false, p.xmit, p.dead), s.buf);
  }

  lemma {:induction false} CountPrefix(p: Pcb, buf: seq<Segment>, more: seq<Segment>)
    requires |buf| <= |more| && more[..|buf|] == buf
    requires forall i :: |buf| <= i < |more| ==> more[i].xmit == 0
    ensures CountTimedOut(p, more) == CountTimedOut(p, buf)
    decreases |more|
  {
    if |buf| < |more| {
      var n := |more| - 1;
      assert more[..n][..|buf|] == more[..|buf|];
      CountPrefix(p, buf, more[..n]);
    } else {
      assert more == buf;
    }
  }

  // ---- each segment ----

  /** What a flush makes of a segment: a new one gets the current timeout, an eighth more the
      first time unless nodelay is set; a due one backs off; one that was skipped over keeps
      its timeout and is counted afresh; any other is left alone. */
  predicate Treated(p: Pcb, s: Segment, t: Segment) {
    if s.xmit == 0 then
      && t.rto == p.rtt.rto && t.fastAck == s.fastAck && t.xmit == 1
      && t.resendTs == U32(p.current + t.rto + (if p.cfg.nodelay == 0 then t.rto / 8 else 0))
    else if TimedOut(p, s) then
      && t.fastAck == s.fastAck && t.xmit == U32(s.xmit + 1) && t.resendTs == U32(p.current + t.rto)
    else if SkippedOver(p, s) then
      && t.rto == s.rto && t.fastAck == 0 && t.xmit == U32(s.xmit + 1)
      && t.resendTs == U32(p.current + t.rto)
    else t == s
  }

  /** Such a segment goes out. */
  predicate GoesOut(p: Pcb, s: Segment) { s.xmit == 0 || TimedOut(p, s) || SkippedOver(p, s) }

  /** It goes out under its own number with its own payload, at the current time. */
  predicate SentNow(p: Pcb, s: Segment, t: Segment) {
    GoesOut(p, s) ==>
      t.pkt.ts == p.current && t.pkt.una == p.rcv.nxt
      && t.pkt.(ts := s.pkt.ts, una := s.pkt.una, wnd := s.pkt.wnd) == s.pkt
  }

  /** The segments in flight before the flush, and those it admitted. */
  predicate AllTreated(p: Pcb, t: seq<Segment>) {
    && |p.snd.buf| <= |t|
    && (forall i :: 0 <= i < |p.snd.buf| ==> Treated(p, p.snd.buf[i], t[i]) && SentNow(p, p.snd.buf[i], t[i]))
    && (forall i :: |p.snd.buf| <= i < |t| ==>
         Treated(p, t[i].(xmit := 0), t[i]) && t[i].fastAck == 0 && t[i].pkt.ts == p.current)
  }

  /** A segment that has now been sent deadLink times. */
  predicate Hopeless(p: Pcb, t: seq<Segment>, i: nat)
    requires |p.snd.buf| <= |t| && i < |t|
  {
    (i < |p.snd.buf| ==> GoesOut(p, p.snd.buf[i])) && p.cfg.deadLink <= t[i].xmit
  }

  lemma DecideTreats(p: Pcb, s: Segment)
    ensures Treated(p, s, Decide(p, s).seg) && SentNow(p, s, Decide(p, s).seg)
    ensures Decide(p, s).send <==> GoesOut(p, s)
  {
  }

  /** Every segment of snd_buf is treated so, in both arithmetics. */
  lemma FlushTreats(m: Arith, p: Pcb)
    ensures AllTreated(p, FlushNow(m, p).p.snd.buf)
  {
    hide Admit, Decide, Treated, SentNow, GoesOut, U32, ProbeTimer, AckPackets, ProbePackets, ReactToLoss;
    var s := Admit(m, p, p.snd, EffectiveWindow(p));
    AdmitAppends(m, p, p.snd, EffectiveWindow(p));
    var t := FlushNow(m, p).p.snd.buf;
    assert t == SegmentsOf(Decisions(p, s.buf));
    forall i | 0 <= i < |p.snd.buf| ensures Treated(p, p.snd.buf[i], t[i]) && SentNow(p, p.snd.buf[i], t[i]) {
      DecideTreats(p, s.buf[i]);
      assert s.buf[i] == s.buf[..|p.snd.buf|][i];
    }
    forall i | |p.snd.buf| <= i < |t|
      ensures Treated(p, t[i].(xmit := 0), t[i]) && t[i].fastAck == 0 && t[i].pkt.ts == p.current
    {
      FirstTime(p, s.buf[i]);
    }
  }

  lemma FirstTime(p: Pcb, s: Segment)
    requires s.xmit == 0 && s.fastAck == 0
    ensures var t := Decide(p, s).seg;
            Treated(p, t.(xmit := 0), t) && t.fastAck == 0 && t.pkt.ts == p.current
  {
  }

  lemma {:induction false} DeadWhen(p: Pcb, t: Tally, buf: seq<Segment>)
    ensures var ds := Decisions(p, buf);
            AccountAll(p.cfg, t, ds).dead <==>
              t.dead || exists i :: 0 <= i < |buf| && ds[i].send && p.cfg.deadLink <= ds[i].seg.xmit
    decreases |buf|
  {
    hide Decide;
    if buf != [] {
      var n := |buf| - 1;
      var ds := Decisions(p, buf);
      DeadWhen(p, t, buf[..n]);
      assert ds[..n] == Decisions(p, buf[..n]);
      assert forall i :: 0 <= i < n ==> ds[..n][i] == ds[i];
    }
  }

  /** The link is given up exactly when a segment goes out for the deadLink-th time or later. */
  lemma FlushGivesUp(m: Arith, p: Pcb)
    ensures var q := FlushNow(m, p).p;
            && |p.snd.buf| <= |q.snd.buf|
            && (q.dead <==> p.dead || exists i: nat :: i < |q.snd.buf| && Hopeless(p, q.snd.buf, i))
  {
    hide Admit, Decide, GoesOut, U32, ProbeTimer, AckPackets, ProbePackets, ReactToLoss;
    var s := Admit(m, p, p.snd, EffectiveWindow(p));
    AdmitAppends(m, p, p.snd, EffectiveWindow(p));
    DeadWhen(p, Tally([], false, false, p.xmit, p.dead), s.buf);
    var q := FlushNow(m, p).p;
    var ds := Decisions(p, s.buf);
    assert q.snd.buf == SegmentsOf(ds);
    forall i: nat | i < |s.buf|
      ensures Hopeless(p, q.snd.buf, i) <==> ds[i].send && p.cfg.deadLink <= ds[i].seg.xmit
    {
      DecideTreats(p, s.buf[i]);
      if i < |p.snd.buf| {
        assert s.buf[i] == s.buf[..|p.snd.buf|][i];
      } else {
        NewGoesOut(p, s.buf[i]);
      }
    }
  }

  lemma NewGoesOut(p: Pcb, s: Segment)
    requires s.xmit == 0
    ensures GoesOut(p, s)
  {
  }

  // ---- growth ----

  /** From p before a datagram to q after it: the window grows when something new was
      acknowledged in order and it is below the peer's window. Below the threshold it grows by
      one segment; otherwise `incr` grows by mss*mss/incr + mss/16, and once it reaches another
      segment the window is that many segments, at most the peer's window. */
  predicate Grows(p: Pcb, q: Pcb, advanced: bool)
    requires 0 < p.cfg.mss
  {
    var c, d, mss := p.cc, q.cc, p.cfg.mss;
    if !advanced || q.rmtWnd <= c.cwnd then d == c
    else if c.cwnd < c.ssthresh then d == Congestion(c.cwnd + 1, c.incr + mss, c.ssthresh)
    else
      var i0 := Max(c.incr, mss);
      var i1 := i0 + mss * mss / i0 + mss / 16;
      if i1 < (c.cwnd + 1) * mss then d == Congestion(c.cwnd, i1, c.ssthresh)
      else if i1 <= q.rmtWnd * mss then
        d.incr == i1 && (d.cwnd - 1) * mss < i1 <= d.cwnd * mss && d.ssthresh == c.ssthresh
      else d == Congestion(q.rmtWnd, q.rmtWnd * mss, c.ssthresh)
  }

  lemma DatagramCc(m: Arith, p: Pcb, ps: seq<Packet>)
    requires 0 < p.cfg.mss
    ensures var q := InputDatagram(m, p, ps);
            && q.cfg == p.cfg
            && q.cc == (if SeqDiff(m, q.snd.una, p.snd.una) > 0 then GrowCwnd(p.cc, p.cfg.mss, q.rmtWnd) else p.cc)
  {
    hide InputPackets, GrowCwnd, BumpFastAck, InFlight;
    InputPacketsCc(m, Parsing(p, false, 0), ps);
    InputPacketsKeepsConfig(m, Parsing(p, false, 0), ps);
  }

  /** A datagram grows the window so, in both arithmetics. */
  lemma DatagramGrows(m: Arith, p: Pcb, ps: seq<Packet>)
    requires ConfigOk(p.cfg) && Roomy(p.cfg) && CwndOk(p.cc, p.cfg)
    requires 0 <= InputDatagram(m, p, ps).rmtWnd < TWO16
    ensures var q := InputDatagram(m, p, ps);
            Grows(p, q, SeqDiff(m, q.snd.una, p.snd.una) > 0)
  {
    hide InputDatagram, GrowCwnd, SeqDiff, Roomy, CwndOk, Stepped;
    var q := InputDatagram(m, p, ps);
    DatagramCc(m, p, ps);
    if p.cc.cwnd < q.rmtWnd {
      GrowthIs(p, q.rmtWnd);
    } else {
      NoGrowth(p.cc, p.cfg.mss, q.rmtWnd);
    }
  }

  lemma NoGrowth(c: Congestion, mss: int, rmtWnd: int)
    requires 0 < mss && rmtWnd <= c.cwnd
    ensures GrowCwnd(c, mss, rmtWnd) == c
  {
  }

  lemma GrowthIs(p: Pcb, rmtWnd: int)
    requires ConfigOk(p.cfg) && Roomy(p.cfg) && CwndOk(p.cc, p.cfg) && p.cc.cwnd < rmtWnd < TWO16
    ensures Grows(p, p.(cc := GrowCwnd(p.cc, p.cfg.mss, rmtWnd), rmtWnd := rmtWnd), true)
  {
    hide GrowCwnd, Tracks, Roomy, U32, Stepped;
    var c, m := p.cc, p.cfg.mss;
    IncrRoom(c, p.cfg);
    if c.cwnd < c.ssthresh {
      GrowIsSlowStart(c, m, rmtWnd);
      Same32(c.cwnd + 1);
      Same32(c.incr + m);
    } else {
      var i1 := Stepped(c.incr, m);
      SteppedIs(c.incr, p.cfg);
      GrowIsAvoided(c, m, rmtWnd);
      Fits32(c.cwnd + 1, p.cfg);
      Fits32(rmtWnd, p.cfg);
      Same32((c.cwnd + 1) * m);
      Same32(i1 + m - 1);
      Same32(rmtWnd * m);
      Ceiling(i1, m, rmtWnd);
    }
  }

  lemma SteppedIs(incr: nat, cfg: Config)
    requires ConfigOk(cfg) && Roomy(cfg) && incr + 3 * cfg.mss < TWO32 && 4 * cfg.mss < TWO32
    ensures var i0 := Max(incr, cfg.mss);
            Stepped(incr, cfg.mss) == i0 + cfg.mss * cfg.mss / i0 + cfg.mss / 16
    ensures 0 <= Stepped(incr, cfg.mss) && Stepped(incr, cfg.mss) + cfg.mss < TWO32
  {
    var m := cfg.mss;
    var i0 := Max(incr, m);
    SteppedBound(incr, cfg);
    SmallSquare(cfg);
    ShareBound(cfg, i0);
    Same32(m * m);
  }

  /** The number of segments of m bytes that i bytes need, and when they are more than w. */
  lemma Ceiling(i: nat, m: int, w: int)
    requires 0 < m
    ensures var k := (i + m - 1) / m;
            (k - 1) * m < i <= k * m && (k <= w <==> i <= w * m)
  {
    var k, r := (i + m - 1) / m, (i + m - 1) % m;
    assert i + m - 1 == m * k + r;
    assert (k - 1) * m == m * k - m;
    if k <= w {
      MulMonotone(k, w, m);
    } else {
      MulMonotone(w, k - 1, m);
    }
  }

  // ---- whole runs ----

  /** This call flushes, and from this state. */
  predicate Flushes(p: Pcb, op: Op) {
    (op.Flush? && p.updated) || (op.Update? && Tick(p, U32(op.now)).1)
  }

  function AtFlush(p: Pcb, op: Op): Pcb { if op.Update? then Tick(p, U32(op.now)).0 else p }

  /** One side before and after event k of a run. */
  predicate AnswersAt(m: Arith, p: Pcb, q: Pcb) {
    && AnswersLoss(m, p, q) && AllTreated(p, q.snd.buf)
    && q.xmit == (if CountTimedOut(p, p.snd.buf) == 0 then p.xmit else U32(p.xmit + CountTimedOut(p, p.snd.buf)))
  }

  lemma DoFlushes(m: Arith, x: Peer, y: Peer, op: Op)
    requires ConfigOk(x.p.cfg) && Flushes(x.p, op)
    ensures AnswersAt(m, AtFlush(x.p, op), Do(m, x, y, op).p)
  {
    hide FlushNow, AnswersLoss, AllTreated, CountTimedOut, U32, Emit, Datagrams, AdmittedCount, Frags;
    var p := AtFlush(x.p, op);
    assert p.cfg == x.p.cfg && p.updated;
    FlushAnswersLoss(m, p);
    FlushTreats(m, p);
    FlushCountsTimeouts(m, p);
  }

  /** Every flush of every run, of the unbounded protocol and of the machine alike, answers
      loss and treats its segments so. */
  lemma RunAnswersLoss(m: Arith, ca: Config, cb: Config, es: seq<Event>, k: nat)
    requires Compatible(ca, cb) && k < |es|
    requires Flushes(SideAt(m, ca, cb, es, k, es[k].atA), es[k].op)
    ensures AnswersAt(m, AtFlush(SideAt(m, ca, cb, es, k, es[k].atA), es[k].op),
                      SideAt(m, ca, cb, es, k + 1, es[k].atA))
  {
    hide Do, AnswersAt, Flushes, AtFlush;
    assert es[..k + 1][..k] == es[..k];
    var s := Run(m, Start(ca, cb), es[..k]);
    if es[k].atA {
      DoFlushes(m, s.a, s.b, es[k].op);
    } else {
      DoFlushes(m, s.b, s.a, es[k].op);
    }
  }

  /** Every datagram of every run grows the congestion window so. */
  lemma RunGrows(ca: Config, cb: Config, es: seq<Event>, k: nat)
    requires Compatible(ca, cb) && Roomy(ca) && Roomy(cb)
    requires k < |es| && es[k].op.Deliver?
    ensures var p, q := SideAt(Unbounded, ca, cb, es, k, es[k].atA), SideAt(Unbounded, ca, cb, es, k + 1, es[k].atA);
            0 < p.cfg.mss && Grows(p, q, p.snd.una < q.snd.una)
  {
    hide Do, Grows, EndOk, Direction, CwndOk, Roomy;
    assert es[..k + 1][..k] == es[..k];
    RunInv(ca, cb, es[..k]);
    RunKeepsCwnd(ca, cb, es[..k]);
    var s := Run(Unbounded, Start(ca, cb), es[..k]);
    if es[k].atA {
      DeliveryGrows(s.a, s.b, es[k].op.k);
    } else {
      DeliveryGrows(s.b, s.a, es[k].op.k);
    }
  }

  lemma DeliveryGrows(x: Peer, y: Peer, k: nat)
    requires Inv(x, y) && Roomy(x.p.cfg) && PeerCwndOk(x)
    ensures 0 < x.p.cfg.mss
    ensures var q := Do(Unbounded, x, y, Op.Deliver(k)).p;
            Grows(x.p, q, x.p.snd.una < q.snd.una)
  {
    hide InputDatagram, Roomy, CwndOk, Direction, Accounted, AcksOk;
    if k < |y.out| {
      DeliverKeeps(x, y, k);
      assert y.out[k].Packets? && EndOk(DoInput(Unbounded, x, y.out[k]));
      DatagramGrows(Unbounded, x.p, y.out[k].ps);
    } else {
      assert Grows(x.p, x.p, false);
    }
  }
}
