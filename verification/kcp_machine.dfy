/** What the theorems on unbounded numbers say of the 32-bit machine: windows, congestion
    window and custody of every fragment, with wrapped numbers and the machine's own
    comparison. */
module KcpMachine {
  import opened KcpSerial
  import opened KcpWire
  import opened KcpSpec
  import opened KcpNet
  import opened KcpSender
  import opened KcpReceiver
  import opened KcpSafety
  import opened KcpPlain
  import opened KcpWrap
  import opened KcpCongestion

  // ---- windows ----

  predicate SendWindow(s: Sender) {
    && s.nBuf == |s.buf| && s.nQue == |s.queue| && 0 <= TimeDiff(s.nxt, s.una) <= MAX_SPAN
    && s.una == (if s.buf == [] then s.nxt else s.buf[0].pkt.sn)
    && (forall i :: 0 <= i < |s.buf| ==> 0 <= TimeDiff(s.buf[i].pkt.sn, s.una) < TimeDiff(s.nxt, s.una))
    && (forall i, j :: 0 <= i < j < |s.buf| ==> TimeDiff(s.buf[j].pkt.sn, s.buf[i].pkt.sn) > 0)
  }

  predicate ReceiveWindow(r: Receiver, wnd: int) {
    && r.nBuf == |r.buf| && r.nQue == |r.queue| <= wnd
    && (forall i :: 0 <= i < |r.buf| ==> 0 <= TimeDiff(r.buf[i].sn, r.nxt) < wnd)
    && (forall i, j :: 0 <= i < j < |r.buf| ==> TimeDiff(r.buf[j].sn, r.buf[i].sn) > 0)
    && (forall i :: 0 <= i < |r.queue| ==> r.queue[i].sn == U32(r.nxt - |r.queue| + i))
    && (r.nQue >= wnd ==> PeekSize(r) >= 0)
  }

  lemma SendWindowWraps(s: Sender, log: seq<Frag>)
    requires SndOk(s, log)
    ensures SendWindow(WrapSender(s))
  {
    hide TimeDiff, U32;
    var w := WrapSender(s);
    DiffWraps(s.nxt, s.una);
    forall i | 0 <= i < |s.buf| ensures 0 <= TimeDiff(w.buf[i].pkt.sn, w.una) < TimeDiff(w.nxt, w.una) {
      DiffWraps(s.buf[i].pkt.sn, s.una);
    }
    forall i, j | 0 <= i < j < |s.buf| ensures TimeDiff(w.buf[j].pkt.sn, w.buf[i].pkt.sn) > 0 {
      DiffWraps(s.buf[j].pkt.sn, s.buf[i].pkt.sn);
    }
  }

  lemma ReceiveWindowWraps(r: Receiver, wnd: int, log: seq<Frag>)
    requires RcvOk(r, wnd, log) && 0 < wnd < TWO31 && (r.nQue >= wnd ==> PeekSize(r) >= 0)
    ensures ReceiveWindow(WrapReceiver(r), wnd)
  {
    hide TimeDiff, U32, PeekSize;
    var w := WrapReceiver(r);
    PeekSizeWraps(r);
    forall i | 0 <= i < |r.buf| ensures 0 <= TimeDiff(w.buf[i].sn, w.nxt) < wnd {
      DiffWraps(r.buf[i].sn, r.nxt);
    }
    forall i, j | 0 <= i < j < |r.buf| ensures TimeDiff(w.buf[j].sn, w.buf[i].sn) > 0 {
      DiffWraps(r.buf[j].sn, r.buf[i].sn);
    }
    forall i | 0 <= i < |r.queue| ensures w.queue[i].sn == U32(w.nxt - |w.queue| + i) {
      WrapAdd(r.nxt, i - |r.queue|);
    }
  }

  predicate SideWindows(x: Peer) { SendWindow(x.p.snd) && ReceiveWindow(x.p.rcv, x.p.cfg.rcvWnd) }

  /** The windows of the machine, in every state of every timely run. */
  lemma MachineWindows(ca: Config, cb: Config, es: seq<Event>)
    requires Compatible(ca, cb) && TimelyRun(Start(ca, cb), es)
    ensures var s := Run(Machine32, Start(ca, cb), es);
            SideWindows(s.a) && SideWindows(s.b)
  {
    hide SndOk, RcvOk, SendWindow, ReceiveWindow, TimelyRun, PeekSize, WrapSender, WrapReceiver;
    MachineRunsWrapped(ca, cb, es);
    RunWindows(ca, cb, es);
    var s := Run(Unbounded, Start(ca, cb), es);
    SideWindowsWrap(s.a, s.b);
    SideWindowsWrap(s.b, s.a);
  }

  lemma SideWindowsWrap(x: Peer, y: Peer)
    requires WindowsOk(x, y) && ConfigOk(x.p.cfg)
    ensures SideWindows(WrapPeer(x))
  {
    hide SndOk, RcvOk, SendWindow, ReceiveWindow, PeekSize;
    SendWindowWraps(x.p.snd, x.log);
    ReceiveWindowWraps(x.p.rcv, x.p.cfg.rcvWnd, y.log);
  }

  /** The congestion window of the machine, in every state of every timely run. */
  lemma MachineKeepsCwnd(ca: Config, cb: Config, es: seq<Event>)
    requires Compatible(ca, cb) && Roomy(ca) && Roomy(cb) && TimelyRun(Start(ca, cb), es)
    ensures var s := Run(Machine32, Start(ca, cb), es);
            PeerCwndOk(s.a) && PeerCwndOk(s.b)
  {
    hide TimelyRun, CwndOk, Roomy;
    MachineRunsWrapped(ca, cb, es);
    RunKeepsCwnd(ca, cb, es);
  }

  // ---- custody ----

  predicate InSndBuf(s: Sender, log: seq<Frag>, sn: int)
    requires 0 <= sn < |log|
  {
    exists i :: 0 <= i < |s.buf| && s.buf[i].pkt.sn == U32(sn) && FragOf(s.buf[i].pkt) == log[sn]
  }

  predicate InRcvBuf(r: Receiver, log: seq<Frag>, sn: int)
    requires 0 <= sn < |log|
  {
    exists i :: 0 <= i < |r.buf| && r.buf[i].sn == U32(sn) && FragOf(r.buf[i]) == log[sn]
  }

  /** Of the fragments x has numbered, y's application has those below n - |rcv_queue|, y's
      rcv_queue holds the next ones, in order, and each one from n on is in x's snd_buf or in
      y's rcv_buf; n is y's rcv_nxt, unwrapped. */
  predicate Custody(x: Peer, y: Peer, n: nat) {
    var c := n - |y.p.rcv.queue|;
    && 0 <= c && n <= |x.log| && y.p.rcv.nxt == U32(n) && x.p.snd.nxt == U32(|x.log|)
    && y.delivered == Messages(x.log[..c])
    && (forall i :: 0 <= i < |y.p.rcv.queue| ==> FragOf(y.p.rcv.queue[i]) == x.log[c + i])
    && (forall sn :: n <= sn < |x.log| ==> InSndBuf(x.p.snd, x.log, sn) || InRcvBuf(y.p.rcv, x.log, sn))
  }

  /** The number sn of x is in y's hands: below n, or in y's rcv_buf. */
  predicate Has(y: Peer, log: seq<Frag>, n: int, sn: int) {
    0 <= sn < |log| && (sn < n || InRcvBuf(y.p.rcv, log, sn))
  }

  /** Some number that y has, has this residue. */
  ghost predicate HasResidue(y: Peer, log: seq<Frag>, n: int, r: int) {
    exists sn :: Has(y, log, n, sn) && U32(sn) == r
  }

  /** The una of a packet of y, and the number it acknowledges, name only what y has. */
  ghost predicate Truthful(h: Packet, y: Peer, log: seq<Frag>, n: int) {
    && (exists una :: 0 <= una <= n && U32(una) == h.una)
    && (h.cmd == CMD_ACK ==> HasResidue(y, log, n, h.sn))
  }

  ghost predicate AllTruthful(ps: seq<Packet>, y: Peer, log: seq<Frag>, n: int) {
    forall j :: 0 <= j < |ps| ==> Truthful(ps[j], y, log, n)
  }

  /** So do the acks y has pending, and all packets in all bytes it ever sent. */
  ghost predicate AcksTruthful(x: Peer, y: Peer, n: int) {
    && (forall i :: 0 <= i < |y.p.acks| ==> HasResidue(y, x.log, n, y.p.acks[i].sn))
    && (forall i :: 0 <= i < |y.out| ==> TruthfulBytes(y.out[i], y, x.log, n))
  }

  ghost predicate TruthfulBytes(d: Datagram, y: Peer, log: seq<Frag>, n: int) {
    exists ps :: d == Bytes(EncodeAll(ps)) && AllTruthful(ps, y, log, n)
  }

  lemma StoredWraps(x: Peer, y: Peer, sn: int)
    requires RcvOk(y.p.rcv, y.p.cfg.rcvWnd, x.log) && Stored(y.p.rcv, sn)
    ensures HasResidue(WrapPeer(y), x.log, y.p.rcv.nxt, U32(sn))
  {
    hide U32;
    if y.p.rcv.nxt <= sn {
      var i :| 0 <= i < |y.p.rcv.buf| && y.p.rcv.buf[i].sn == sn;
      assert WrapReceiver(y.p.rcv).buf[i] == WrapPacket(y.p.rcv.buf[i]);
    }
    assert Has(WrapPeer(y), x.log, y.p.rcv.nxt, sn);
  }

  lemma PacketsTruthful(x: Peer, y: Peer, ps: seq<Packet>)
    requires RcvOk(y.p.rcv, y.p.cfg.rcvWnd, x.log) && PacketsOk(ps, y.log, y.p.rcv)
    ensures AllTruthful(WrapPackets(ps), WrapPeer(y), x.log, y.p.rcv.nxt)
  {
    hide RcvOk, HasResidue, U32, WrapPeer, Stored;
    var ws := WrapPackets(ps);
    forall j | 0 <= j < |ws| ensures Truthful(ws[j], WrapPeer(y), x.log, y.p.rcv.nxt) {
      assert PacketOk(ps[j], y.log, y.p.rcv);
      assert ws[j] == WrapPacket(ps[j]) && U32(ps[j].una) == ws[j].una;
      if ps[j].cmd == CMD_ACK {
        StoredWraps(x, y, ps[j].sn);
      }
    }
  }

  lemma AcksWrap(x: Peer, y: Peer)
    requires Inv(x, y)
    ensures AcksTruthful(WrapPeer(x), WrapPeer(y), y.p.rcv.nxt)
  {
    hide HasResidue, U32, AllTruthful, EncodeAll, Stored, RcvOk;
    var w := WrapPeer(y);
    forall i | 0 <= i < |w.p.acks| ensures HasResidue(w, x.log, y.p.rcv.nxt, w.p.acks[i].sn) {
      assert Stored(y.p.rcv, y.p.acks[i].sn);
      StoredWraps(x, y, y.p.acks[i].sn);
    }
    forall i | 0 <= i < |w.out| ensures TruthfulBytes(w.out[i], w, x.log, y.p.rcv.nxt) {
      assert y.out[i].Packets? && PacketsOk(y.out[i].ps, y.log, y.p.rcv);
      PacketsTruthful(x, y, y.out[i].ps);
      assert w.out[i] == Bytes(EncodeAll(WrapPackets(y.out[i].ps)));
    }
  }

  lemma CustodyWraps(x: Peer, y: Peer)
    requires Inv(x, y)
    ensures Custody(WrapPeer(x), WrapPeer(y), y.p.rcv.nxt)
  {
    hide U32, Messages, EndOk;
    var s, r := WrapSender(x.p.snd), WrapReceiver(y.p.rcv);
    forall sn | y.p.rcv.nxt <= sn < |x.log| ensures InSndBuf(s, x.log, sn) || InRcvBuf(r, x.log, sn) {
      assert Unacked(x.p.snd, sn) || Stored(y.p.rcv, sn);
      if Unacked(x.p.snd, sn) {
        var i :| 0 <= i < |x.p.snd.buf| && x.p.snd.buf[i].pkt.sn == sn;
        assert s.buf[i] == WrapSegment(x.p.snd.buf[i]);
      } else {
        var i :| 0 <= i < |y.p.rcv.buf| && y.p.rcv.buf[i].sn == sn;
        assert r.buf[i] == WrapPacket(y.p.rcv.buf[i]);
      }
    }
  }

  /** Nothing the machine numbered is lost, and no ack or una it holds or has sent names what
      its sender does not have, in any state of any timely run, in either direction. */
  lemma MachineCustody(ca: Config, cb: Config, es: seq<Event>) returns (n: nat, k: nat)
    requires Compatible(ca, cb) && TimelyRun(Start(ca, cb), es)
    ensures var s := Run(Machine32, Start(ca, cb), es);
            Custody(s.a, s.b, n) && Custody(s.b, s.a, k)
    ensures var s := Run(Machine32, Start(ca, cb), es);
            AcksTruthful(s.a, s.b, n) && AcksTruthful(s.b, s.a, k)
  {
    hide TimelyRun, Custody, AcksTruthful, EndOk, SndOk, NoLoss, Delivered;
    MachineRunsWrapped(ca, cb, es);
    RunInv(ca, cb, es);
    var s := Run(Unbounded, Start(ca, cb), es);
    CustodyWraps(s.a, s.b);
    CustodyWraps(s.b, s.a);
    AcksWrap(s.a, s.b);
    AcksWrap(s.b, s.a);
    n, k := s.b.p.rcv.nxt, s.a.p.rcv.nxt;
  }
}
