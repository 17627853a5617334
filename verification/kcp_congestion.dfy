/** The congestion window over whole runs: `incr` tracks `cwnd` times the segment size. */
module KcpCongestion {
  import opened KcpSerial
  import opened KcpWire
  import opened KcpSpec
  import opened KcpNet
  import opened KcpSender
  import opened KcpReceiver
  import opened KcpSafety

  /** No 32-bit product of a window and a segment size overflows. */
  predicate Roomy(c: Config) { c.mss * (TWO16 + c.fastResend + 4) < TWO32 }

  /** `incr` bytes need w segments of m bytes, give or take less than one. */
  predicate Tracks(w: int, incr: int, m: int) { (w - 1) * m < incr < (w + 1) * m }

  predicate CwndOk(c: Congestion, cfg: Config) {
    && 0 <= c.cwnd <= TWO16 + cfg.fastResend
    && Tracks(c.cwnd, c.incr, cfg.mss) && 0 <= c.incr
    && THRESH_MIN <= c.ssthresh
  }

  lemma TracksExact(w: int, m: int)
    requires 0 < m
    ensures Tracks(w, w * m, m)
  {
    assert (w - 1) * m == w * m - m;
    assert (w + 1) * m == w * m + m;
  }

  lemma TracksUp(w: int, incr: int, m: int)
    requires Tracks(w, incr, m)
    ensures Tracks(w + 1, incr + m, m)
  {
    assert (w - 1) * m + m == w * m;
    assert (w + 1) * m + m == (w + 2) * m;
  }

  lemma TracksMore(w: int, incr: int, more: int, m: int)
    requires Tracks(w, incr, m) && incr <= more < (w + 1) * m
    ensures Tracks(w, more, m)
  {
  }

  /** Rounding up gives a window that tracks. */
  lemma TracksCeil(i: nat, m: int)
    requires 0 < m
    ensures var w := (i + m - 1) / m;
            Tracks(w, i, m) && 0 <= w
  {
    var w, r := (i + m - 1) / m, (i + m - 1) % m;
    assert i + m - 1 == m * w + r;
    assert (w - 1) * m == m * w - m;
    assert (w + 1) * m == m * w + m;
  }

  lemma MulMonotone(a: int, b: int, m: nat)
    requires a <= b
    ensures a * m <= b * m
  {
  }

  lemma Fits32(k: nat, cfg: Config)
    requires ConfigOk(cfg) && Roomy(cfg) && k <= TWO16 + cfg.fastResend + 4
    ensures 0 <= k * cfg.mss < TWO32
  {
    MulMonotone(k, TWO16 + cfg.fastResend + 4, cfg.mss);
  }

  lemma IncrRoom(c: Congestion, cfg: Config)
    requires ConfigOk(cfg) && Roomy(cfg) && CwndOk(c, cfg)
    ensures 0 <= c.incr && c.incr + 3 * cfg.mss < TWO32 && 0 <= 4 * cfg.mss < TWO32
    ensures (c.cwnd + 1) * cfg.mss < TWO32
  {
    Fits32(c.cwnd + 4, cfg);
    Fits32(4, cfg);
    assert (c.cwnd + 4) * cfg.mss == (c.cwnd + 1) * cfg.mss + 3 * cfg.mss;
  }

  lemma SmallSquare(cfg: Config)
    requires ConfigOk(cfg) && Roomy(cfg)
    ensures 0 <= cfg.mss * cfg.mss < TWO32
  {
    var m := cfg.mss;
    Fits32(TWO16, cfg);
    MulMonotone(m, TWO16, m);
    MulMonotone(0, m, m);
  }

  lemma SquareOver(m: int, i: int)
    requires 0 < m <= i
    ensures 0 <= m * m / i <= m
  {
    var q, r := m * m / i, m * m % i;
    assert m * m == i * q + r;
    MulMonotone(m, i, m);
    assert (m + 1) * i == m * i + i;
    if q > m {
      MulMonotone(m + 1, q, i);
    }
  }

  /** The share of a segment that one acknowledgement adds. */
  function Share(m: int, i: int): int
    requires i != 0
  {
    U32(m * m) / i
  }

  lemma ShareBound(cfg: Config, i: int)
    requires ConfigOk(cfg) && Roomy(cfg) && cfg.mss <= i
    ensures 0 <= Share(cfg.mss, i) <= cfg.mss
  {
    SmallSquare(cfg);
    SquareOver(cfg.mss, i);
  }

  function Floor(incr: int, m: int): int { if incr < m then m else incr }

  /** `incr` after one step of congestion avoidance. */
  function Stepped(incr: int, m: int): int
    requires 0 < m
  {
    U32(Floor(incr, m) + Share(m, Floor(incr, m)) + m / 16)
  }

  lemma SteppedBound(incr: nat, cfg: Config)
    requires ConfigOk(cfg) && Roomy(cfg) && incr + 3 * cfg.mss < TWO32 && 4 * cfg.mss < TWO32
    ensures incr <= Stepped(incr, cfg.mss) && Stepped(incr, cfg.mss) + cfg.mss < TWO32
  {
    hide Share, Roomy;
    ShareBound(cfg, Floor(incr, cfg.mss));
  }

  /** Congestion avoidance with its products and quotients named. */
  function Avoided(c: Congestion, rmtWnd: int, i1: int, next: int, w: int, top: int): Congestion {
    var g := if next <= i1 then c.(cwnd := w, incr := i1) else c.(incr := i1);
    if g.cwnd > rmtWnd then g.(cwnd := rmtWnd, incr := top) else g
  }

  lemma GrowIsAvoided(c: Congestion, m: int, rmtWnd: int)
    requires 0 < m && c.ssthresh <= c.cwnd < rmtWnd
    ensures var i1 := Stepped(c.incr, m);
            GrowCwnd(c, m, rmtWnd)
              == Avoided(c, rmtWnd, i1, U32((c.cwnd + 1) * m), U32(i1 + m - 1) / m, U32(rmtWnd * m))
  {
  }

  lemma Same32(x: int)
    requires 0 <= x < TWO32
    ensures U32(x) == x
  {
  }

  lemma AvoidanceKeeps(c: Congestion, cfg: Config, rmtWnd: int)
    requires ConfigOk(cfg) && Roomy(cfg) && CwndOk(c, cfg) && c.ssthresh <= c.cwnd < rmtWnd < TWO16
    ensures var g := GrowCwnd(c, cfg.mss, rmtWnd);
            CwndOk(g, cfg) && g.ssthresh == c.ssthresh && g.cwnd <= rmtWnd
  {
    hide Tracks, Roomy, GrowCwnd, Stepped, Avoided, Floor, Share, U32;
    var m, i1 := cfg.mss, Stepped(c.incr, cfg.mss);
    GrowIsAvoided(c, m, rmtWnd);
    IncrRoom(c, cfg);
    SteppedBound(c.incr, cfg);
    AvoidedKeeps(c, cfg, rmtWnd, i1);
    Fits32(c.cwnd + 1, cfg);
    Fits32(rmtWnd, cfg);
    Same32((c.cwnd + 1) * m);
    Same32(i1 + m - 1);
    Same32(rmtWnd * m);
  }

  lemma AvoidedKeeps(c: Congestion, cfg: Config, rmtWnd: int, i1: int)
    requires ConfigOk(cfg) && Roomy(cfg) && CwndOk(c, cfg) && c.cwnd < rmtWnd < TWO16
    requires c.incr <= i1
    ensures var m := cfg.mss;
            var g := Avoided(c, rmtWnd, i1, (c.cwnd + 1) * m, (i1 + m - 1) / m, rmtWnd * m);
            CwndOk(g, cfg) && g.ssthresh == c.ssthresh && g.cwnd <= rmtWnd
  {
    hide Tracks, Roomy;
    var m := cfg.mss;
    TracksCeil(i1, m);
    Fits32(rmtWnd, cfg);
    TracksExact(rmtWnd, m);
    if i1 < (c.cwnd + 1) * m {
      TracksMore(c.cwnd, c.incr, i1, m);
    }
  }

  lemma GrowIsSlowStart(c: Congestion, m: int, rmtWnd: int)
    requires 0 < m && 0 <= c.cwnd < rmtWnd < TWO16 && c.cwnd < c.ssthresh
    ensures GrowCwnd(c, m, rmtWnd) == c.(cwnd := U32(c.cwnd + 1), incr := U32(c.incr + m))
  {
  }

  lemma SlowStartKeeps(c: Congestion, cfg: Config, rmtWnd: int)
    requires ConfigOk(cfg) && Roomy(cfg) && CwndOk(c, cfg)
    requires c.cwnd < rmtWnd < TWO16 && c.cwnd < c.ssthresh
    ensures var g := GrowCwnd(c, cfg.mss, rmtWnd);
            CwndOk(g, cfg) && g.ssthresh == c.ssthresh && g.cwnd == c.cwnd + 1
  {
    hide Tracks, Roomy, U32, GrowCwnd;
    GrowIsSlowStart(c, cfg.mss, rmtWnd);
    IncrRoom(c, cfg);
    TracksUp(c.cwnd, c.incr, cfg.mss);
    Same32(c.cwnd + 1);
    Same32(c.incr + cfg.mss);
  }

  /** Growth keeps the relation and never exceeds the peer's window. */
  lemma GrowKeeps(c: Congestion, cfg: Config, rmtWnd: int)
    requires ConfigOk(cfg) && Roomy(cfg) && CwndOk(c, cfg) && 0 <= rmtWnd < TWO16
    ensures var g := GrowCwnd(c, cfg.mss, rmtWnd);
            && CwndOk(g, cfg) && g.ssthresh == c.ssthresh
            && (g.cwnd > c.cwnd ==> g.cwnd <= rmtWnd)
  {
    hide Tracks, Roomy, U32;
    if c.cwnd < rmtWnd {
      if c.cwnd < c.ssthresh {
        SlowStartKeeps(c, cfg, rmtWnd);
      } else {
        AvoidanceKeeps(c, cfg, rmtWnd);
      }
    }
  }

  lemma ResendWindow(ss: int, cfg: Config)
    requires ConfigOk(cfg) && THRESH_MIN <= ss <= MAX_SPAN
    ensures 0 <= U32(ss + ResendLimit(cfg)) <= TWO16 + cfg.fastResend
  {
  }

  /** After a flush the window is at least one segment and the relation holds; after a loss it is
      one segment, with half of the window used as threshold. */
  lemma ReactKeeps(p: Pcb, s: Sender, lost: bool, fast: bool, cwnd: int)
    requires ConfigOk(p.cfg) && Roomy(p.cfg) && CwndOk(p.cc, p.cfg)
    requires 0 <= s.nxt - s.una <= MAX_SPAN && 0 <= cwnd <= MAX_SPAN
    ensures var c := ReactToLoss(Unbounded, p, s, lost, fast, cwnd);
            && CwndOk(c, p.cfg) && 1 <= c.cwnd
            && (lost ==> c == Congestion(1, p.cfg.mss, Max(cwnd / 2, 2)))
            && (!lost && !fast && 1 <= p.cc.cwnd ==> c == p.cc)
  {
    hide Tracks, Roomy, U32, ResendLimit;
    var m := p.cfg.mss;
    var ss := Max((s.nxt - s.una) / 2, THRESH_MIN);
    var w := U32(ss + ResendLimit(p.cfg));
    ResendWindow(ss, p.cfg);
    Fits32(w, p.cfg);
    Same32(w * m);
    TracksExact(w, m);
    TracksExact(1, m);
    assert 1 * m == m;
  }

  predicate PeerCwndOk(x: Peer) { CwndOk(x.p.cc, x.p.cfg) }

  lemma InputPacketsCc(m: Arith, s: Parsing, ps: seq<Packet>)
    ensures InputPackets(m, s, ps).p.cc == s.p.cc
    decreases |ps|
  {
    hide ParseUna, UpdateAck, ParseAck, ParseData;
    if ps != [] {
      InputPacketsCc(m, InputPacket(m, s, ps[0]), ps[1..]);
    }
  }

  lemma FlushCc(x: Peer, y: Peer)
    requires Inv(x, y) && Roomy(x.p.cfg) && PeerCwndOk(x)
    ensures PeerCwndOk(DoFlush(Unbounded, x))
    ensures x.p.updated ==> 1 <= DoFlush(Unbounded, x).p.cc.cwnd
  {
    if x.p.updated {
      var cwnd := EffectiveWindow(x.p);
      var k := AdmitKeeps(x.p, x.p.snd, cwnd, x.log);
      var s := Admit(Unbounded, x.p, x.p.snd, cwnd);
      var t := Resend(x.p, s.buf);
      ReactKeeps(x.p, s, t.lost, t.fast, cwnd);
    }
  }

  lemma DeliverCc(x: Peer, y: Peer, k: nat)
    requires Inv(x, y) && Roomy(x.p.cfg) && PeerCwndOk(x) && k < |y.out|
    ensures PeerCwndOk(DoInput(Unbounded, x, y.out[k]))
  {
    var ps := y.out[k].ps;
    var s0 := Parsing(x.p, false, 0);
    assert PacketsOk(ps, y.log, y.p.rcv);
    InputPacketsCc(Unbounded, s0, ps);
    InputPacketsKeepsConfig(Unbounded, s0, ps);
    InputPacketsKeeps(s0, ps, x.log, y.p.rcv, y.log);
    GrowKeeps(x.p.cc, x.p.cfg, InputPackets(Unbounded, s0, ps).p.rmtWnd);
  }

  lemma RecvCc(p: Pcb, len: int)
    ensures KcpSpec.Recv(Unbounded, p, len).p.cc == p.cc && KcpSpec.Recv(Unbounded, p, len).p.cfg == p.cfg
  {
  }

  lemma DoCc(x: Peer, y: Peer, op: Op)
    requires Inv(x, y) && Roomy(x.p.cfg) && PeerCwndOk(x)
    ensures PeerCwndOk(Do(Unbounded, x, y, op))
  {
    hide DoFlush, DoInput, KcpSpec.Recv, FragmentCount, Fragments, CwndOk, Roomy, Inv;
    match op
    case Send(data) =>
    case Recv(len) => RecvCc(x.p, len);
    case Update(now) =>
      var x1 := x.(p := Tick(x.p, U32(now)).0);
      TickKeeps(x, y, U32(now));
      FlushCc(x1, y);
    case Flush => FlushCc(x, y);
    case Deliver(k) => if k < |y.out| { DeliverCc(x, y, k); }
  }

  /** In every state of every run `incr` lies strictly between (cwnd-1)*mss and
      (cwnd+1)*mss, and ssthresh is at least 2. */
  lemma {:induction false} RunKeepsCwnd(ca: Config, cb: Config, es: seq<Event>)
    requires Compatible(ca, cb) && Roomy(ca) && Roomy(cb)
    ensures var s := Run(Unbounded, Start(ca, cb), es);
            PeerCwndOk(s.a) && PeerCwndOk(s.b)
    decreases |es|
  {
    if es != [] {
      var n := |es| - 1;
      var s := Run(Unbounded, Start(ca, cb), es[..n]);
      RunKeepsCwnd(ca, cb, es[..n]);
      RunInv(ca, cb, es[..n]);
      if es[n].atA {
        DoCc(s.a, s.b, es[n].op);
      } else {
        DoCc(s.b, s.a, es[n].op);
      }
    }
  }
}
