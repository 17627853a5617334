/** What one datagram of the peer does to the segments in flight and to the packets kept: which
    are released, which are counted as skipped, which are stored. */
module KcpDatagram {
  import opened KcpSerial
  import opened KcpWire
  import opened KcpSpec
  import opened KcpNet
  import opened KcpSender
  import opened KcpSafety
  import opened KcpPlain
  import opened KcpSample
  import opened KcpStream
  import opened KcpFeedback
  import KcpReceiver
  import KcpWrap

  /** A packet acknowledges the number n: its una is beyond n, or it is an ACK of n. */
  predicate Acknowledges(h: Packet, n: int) { n < h.una || (h.cmd == 82 && h.sn == n) }

  predicate SomeAcknowledges(ps: seq<Packet>, n: int) {
    exists j :: 0 <= j < |ps| && Acknowledges(ps[j], n)
  }

  /** Some ACK names a number after n. */
  predicate SomeSkips(ps: seq<Packet>, n: int) {
    exists j :: 0 <= j < |ps| && ps[j].cmd == 82 && n < ps[j].sn
  }

  // ---- one packet ----

  lemma {:induction false} RemoveSnRemoves(buf: seq<Segment>, sn: int)
    requires Ascending(buf)
    ensures forall s :: s in RemoveSn(Unbounded, buf, sn) ==> s.pkt.sn != sn
    decreases |buf|
  {
    if buf != [] && sn > buf[0].pkt.sn {
      RemoveSnRemoves(buf[1..], sn);
    }
  }

  lemma UnackedIn(s: Sender, n: int)
    ensures Unacked(s, n) <==> exists t :: t in s.buf && t.pkt.sn == n
  {
    if t :| t in s.buf && t.pkt.sn == n {
      var i :| 0 <= i < |s.buf| && s.buf[i] == t;
    }
    if Unacked(s, n) {
      var i :| 0 <= i < |s.buf| && s.buf[i].pkt.sn == n;
      assert s.buf[i] in s.buf;
    }
  }

  lemma FewerUnacked(s: Sender, r: Sender, n: int)
    requires (forall t :: t in r.buf ==> t in s.buf) && Unacked(r, n)
    ensures Unacked(s, n)
  {
    UnackedIn(s, n);
    UnackedIn(r, n);
  }

  lemma UnaReleases(s: Sender, una: int, log: seq<Frag>)
    requires SndOk(s, log) && una <= s.nxt
    ensures var r := Shrink(ParseUna(Unbounded, s, una));
            && SndOk(r, log) && r.nxt == s.nxt && (forall t :: t in r.buf ==> t in s.buf)
            && forall n :: Unacked(r, n) <==> Unacked(s, n) && una <= n
  {
    hide SndOk, DropAcked, Unacked;
    var r := Shrink(ParseUna(Unbounded, s, una));
    ParseUnaKeeps(s, una, log);
    DropAckedPlain(Unbounded, s.buf, una);
    forall n | Unacked(r, n) ensures Unacked(s, n) {
      FewerUnacked(s, r, n);
    }
  }

  lemma AckReleases(s: Sender, sn: int, log: seq<Frag>)
    requires SndOk(s, log)
    ensures var r := Shrink(ParseAck(Unbounded, s, sn));
            && SndOk(r, log) && r.nxt == s.nxt && (forall t :: t in r.buf ==> t in s.buf)
            && forall n :: Unacked(r, n) <==> Unacked(s, n) && n != sn
  {
    hide RemoveSn, Unacked;
    var r := Shrink(ParseAck(Unbounded, s, sn));
    ParseAckKeeps(s, sn, log);
    RemoveSnPlain(Unbounded, s.buf, sn);
    RemoveSnRemoves(s.buf, sn);
    assert forall t :: t in r.buf ==> t in s.buf;
    forall n | Unacked(r, n) ensures Unacked(s, n) && n != sn {
      FewerUnacked(s, r, n);
      UnackedIn(r, n);
      UnackedIn(s, n);
    }
  }

  /** From s to r a sender releases these numbers and nothing else. */
  ghost predicate Releases(s: Sender, r: Sender, ps: seq<Packet>) {
    && r.nxt == s.nxt && (forall t :: t in r.buf ==> t in s.buf)
    && forall n :: Unacked(r, n) <==> Unacked(s, n) && !SomeAcknowledges(ps, n)
  }

  lemma PacketReleases(s: Parsing, h: Packet, log: seq<Frag>)
    requires SndOk(s.p.snd, log) && h.una <= s.p.snd.nxt
    ensures var r := InputPacket(Unbounded, s, h).p.snd;
            SndOk(r, log) && Releases(s.p.snd, r, [h])
  {
    hide Shrink, ParseUna, ParseAck, UpdateAck, InputPush, SndOk, Unacked;
    UnaReleases(s.p.snd, h.una, log);
    var p := s.p.(rmtWnd := h.wnd, snd := Shrink(ParseUna(Unbounded, s.p.snd, h.una)));
    if h.cmd == CMD_ACK {
      AckReleases(p.snd, h.sn, log);
    } else {
      PushHeard(Unbounded, p, h);
    }
    forall n ensures SomeAcknowledges([h], n) <==> Acknowledges(h, n) {
      if Acknowledges(h, n) {
        assert Acknowledges([h][0], n);
      }
    }
  }

  /** A packet is stored exactly when it is data below the end of the window. */
  lemma PacketStores(s: Parsing, h: Packet, xlog: seq<Frag>, yr: Receiver, ylog: seq<Frag>)
    requires InputInv(s.p, xlog, yr, ylog) && PacketOk(h, ylog, yr)
    ensures var p, q := s.p, InputPacket(Unbounded, s, h).p;
            forall n :: KcpReceiver.Stored(q.rcv, n) <==>
              KcpReceiver.Stored(p.rcv, n) || (h.cmd == 81 && n == h.sn && n < p.rcv.nxt + p.cfg.rcvWnd)
  {
    hide Shrink, ParseUna, InputAck, ParseData, KcpReceiver.RcvOk, KcpReceiver.Stored, SndOk;
    if h.cmd == CMD_PUSH {
      if h.sn < s.p.rcv.nxt {
        StoredBelow(s.p.rcv, h.sn);
      }
      KcpReceiver.ParseDataKeeps(s.p.cfg.rcvWnd, s.p.rcv, h, ylog);
    } else if h.cmd == CMD_ACK {
      AckHeard(Unbounded, s.(p := s.p.(rmtWnd := h.wnd, snd := Shrink(ParseUna(Unbounded, s.p.snd, h.una)))), h);
    }
  }

  lemma StoredBelow(r: Receiver, n: int)
    requires 0 <= n < r.nxt
    ensures KcpReceiver.Stored(r, n)
  {
  }

  // ---- a datagram ----

  lemma ReleasesCons(s: Sender, r1: Sender, r: Sender, h: Packet, ps: seq<Packet>)
    requires Releases(s, r1, [h]) && Releases(r1, r, ps)
    ensures Releases(s, r, [h] + ps)
  {
    hide Acknowledges, Unacked;
    var all := [h] + ps;
    forall n ensures SomeAcknowledges(all, n) <==> SomeAcknowledges([h], n) || SomeAcknowledges(ps, n) {
      assert all[0] == h && forall i :: 1 <= i < |all| ==> all[i] == ps[i - 1];
      if SomeAcknowledges([h], n) {
        assert Acknowledges(all[0], n);
      }
      if SomeAcknowledges(ps, n) {
        var j :| 0 <= j < |ps| && Acknowledges(ps[j], n);
        assert Acknowledges(all[j + 1], n);
      }
    }
  }

  predicate UnaWithin(ps: seq<Packet>, nxt: int) { forall i :: 0 <= i < |ps| ==> ps[i].una <= nxt }

  lemma {:induction false} PacketsRelease(s: Parsing, ps: seq<Packet>, log: seq<Frag>)
    requires SndOk(s.p.snd, log) && UnaWithin(ps, s.p.snd.nxt)
    ensures var r := InputPackets(Unbounded, s, ps).p.snd;
            SndOk(r, log) && Releases(s.p.snd, r, ps)
    decreases |ps|
  {
    hide InputPacket, SndOk, Acknowledges, Unacked;
    if ps != [] {
      PacketReleases(s, ps[0], log);
      var s1 := InputPacket(Unbounded, s, ps[0]);
      PacketsRelease(s1, ps[1..], log);
      ReleasesCons(s.p.snd, s1.p.snd, InputPackets(Unbounded, s, ps).p.snd, ps[0], ps[1..]);
      assert [ps[0]] + ps[1..] == ps;
    }
  }

  /** What the loop keeps of the ACKs: whether there was one, and the greatest. */
  predicate Greatest(s: Parsing, ps: seq<Packet>, r: Parsing) {
    && (r.acked <==> s.acked || exists i :: 0 <= i < |ps| && ps[i].cmd == 82)
    && (s.acked ==> s.maxAck <= r.maxAck)
    && (forall i :: 0 <= i < |ps| && ps[i].cmd == 82 ==> ps[i].sn <= r.maxAck)
    && (r.acked ==> (s.acked && r.maxAck == s.maxAck)
                    || exists i :: 0 <= i < |ps| && ps[i].cmd == 82 && ps[i].sn == r.maxAck)
  }

  lemma PacketGreatest(s: Parsing, h: Packet)
    ensures Greatest(s, [h], InputPacket(Unbounded, s, h))
  {
    hide ParseUna, ParseAck, UpdateAck, InputPush;
    var r := InputPacket(Unbounded, s, h);
    assert h.cmd == 82 ==> [h][0].cmd == 82;
  }

  lemma GreatestCons(s: Parsing, h: Packet, s1: Parsing, ps: seq<Packet>, r: Parsing)
    requires Greatest(s, [h], s1) && Greatest(s1, ps, r)
    ensures Greatest(s, [h] + ps, r)
  {
    var all := [h] + ps;
    assert all[0] == h && [h][0] == h && forall i :: 1 <= i < |all| ==> all[i] == ps[i - 1];
    forall i | 0 <= i < |ps| ensures all[i + 1] == ps[i] {
    }
    if exists i :: 0 <= i < |ps| && ps[i].cmd == 82 {
      var i :| 0 <= i < |ps| && ps[i].cmd == 82;
      assert all[i + 1].cmd == 82;
    }
    if r.acked && !(s.acked && r.maxAck == s.maxAck) {
      GreatestIsOne(s, h, s1, ps, r);
    }
  }

  lemma GreatestIsOne(s: Parsing, h: Packet, s1: Parsing, ps: seq<Packet>, r: Parsing)
    requires Greatest(s, [h], s1) && Greatest(s1, ps, r) && r.acked && !(s.acked && r.maxAck == s.maxAck)
    ensures var all := [h] + ps;
            exists i :: 0 <= i < |all| && all[i].cmd == 82 && all[i].sn == r.maxAck
  {
    var all := [h] + ps;
    if s1.acked && r.maxAck == s1.maxAck {
      assert all[0].cmd == 82 && all[0].sn == r.maxAck;
    } else {
      var i :| 0 <= i < |ps| && ps[i].cmd == 82 && ps[i].sn == r.maxAck;
      assert all[i + 1] == ps[i];
    }
  }

  lemma {:induction false} PacketsGreatest(s: Parsing, ps: seq<Packet>)
    ensures Greatest(s, ps, InputPackets(Unbounded, s, ps))
    decreases |ps|
  {
    hide InputPacket, Greatest;
    if ps == [] {
      assert Greatest(s, [], s) by { NoneGreatest(s); }
    } else {
      PacketGreatest(s, ps[0]);
      PacketsGreatest(InputPacket(Unbounded, s, ps[0]), ps[1..]);
      GreatestCons(s, ps[0], InputPacket(Unbounded, s, ps[0]), ps[1..], InputPackets(Unbounded, s, ps));
      assert [ps[0]] + ps[1..] == ps;
    }
  }

  lemma NoneGreatest(s: Parsing)
    ensures Greatest(s, [], s)
  {
  }

  /** From segment t to u: the same packet and timer, counted as skipped once more when some ACK
      of the datagram names a later number. */
  predicate Counted(ps: seq<Packet>, t: Segment, u: Segment) {
    u == t.(fastAck := if SomeSkips(ps, t.pkt.sn) then U32(t.fastAck + 1) else t.fastAck)
  }

  predicate AllCounted(ps: seq<Packet>, s: Sender, r: Sender) {
    forall u :: u in r.buf ==> exists t :: t in s.buf && Counted(ps, t, u)
  }

  lemma SkipsGreatest(ps: seq<Packet>, s: Parsing, r: Parsing, n: int)
    requires Greatest(s, ps, r) && !s.acked
    ensures SomeSkips(ps, n) <==> r.acked && n < r.maxAck
  {
  }

  lemma FinishCounts(s: Parsing, ps: seq<Packet>, r: Parsing, log: seq<Frag>, prevUna: int)
    requires 0 < r.p.cfg.mss && SndOk(r.p.snd, log) && Greatest(s, ps, r) && !s.acked
    requires forall i :: 0 <= i < |ps| && ps[i].cmd == 82 ==> ps[i].sn < r.p.snd.nxt
    ensures var q := FinishInput(Unbounded, r, prevUna).snd;
            && |q.buf| == |r.p.snd.buf| && q.nxt == r.p.snd.nxt
            && forall i :: 0 <= i < |q.buf| ==> Counted(ps, r.p.snd.buf[i], q.buf[i])
  {
    hide GrowCwnd, SomeSkips, BumpFastAck;
    var q := FinishInput(Unbounded, r, prevUna).snd;
    if r.acked {
      ParseFastAckCounts(r.p.snd, r.maxAck, log);
    }
    forall i | 0 <= i < |r.p.snd.buf| ensures Counted(ps, r.p.snd.buf[i], q.buf[i]) {
      SkipsGreatest(ps, s, r, r.p.snd.buf[i].pkt.sn);
    }
  }

  /** A datagram of the peer releases exactly the segments it acknowledges, and counts exactly
      those that remain and are skipped by one of its ACKs, each once. */
  lemma DatagramReleases(p: Pcb, ps: seq<Packet>, log: seq<Frag>)
    requires 0 < p.cfg.mss && SndOk(p.snd, log) && UnaWithin(ps, p.snd.nxt)
    requires forall i :: 0 <= i < |ps| && ps[i].cmd == 82 ==> ps[i].sn < p.snd.nxt
    ensures var r := InputDatagram(Unbounded, p, ps).snd;
            && AllCounted(ps, p.snd, r)
            && forall n :: Unacked(r, n) <==> Unacked(p.snd, n) && !SomeAcknowledges(ps, n)
  {
    hide InputPackets, FinishInput, SndOk, Unacked, SomeAcknowledges, SomeSkips, Greatest;
    var s0 := Parsing(p, false, 0);
    InputPacketsKeepsConfig(Unbounded, s0, ps);
    PacketsRelease(s0, ps, log);
    PacketsGreatest(s0, ps);
    var r := InputPackets(Unbounded, s0, ps);
    FinishCounts(s0, ps, r, log, p.snd.una);
    var q := FinishInput(Unbounded, r, p.snd.una).snd;
    forall u | u in q.buf ensures exists t :: t in p.snd.buf && Counted(ps, t, u) {
      var i :| 0 <= i < |q.buf| && q.buf[i] == u;
      assert r.p.snd.buf[i] in p.snd.buf;
    }
    forall n ensures Unacked(q, n) <==> Unacked(r.p.snd, n) {
      SameNumbers(r.p.snd, q, n);
    }
  }

  lemma SameNumbers(s: Sender, r: Sender, n: int)
    requires |r.buf| == |s.buf| && forall i :: 0 <= i < |s.buf| ==> r.buf[i].pkt == s.buf[i].pkt
    ensures Unacked(r, n) <==> Unacked(s, n)
  {
    assert forall i :: 0 <= i < |s.buf| ==> r.buf[i].pkt.sn == s.buf[i].pkt.sn;
  }

  /** The same of every delivery of every run. */
  lemma RunReleases(ca: Config, cb: Config, es: seq<Event>, atA: bool, k: nat)
    requires Compatible(ca, cb) && k < |PeerAt(Unbounded, ca, cb, es, |es|, !atA).out|
    ensures var x, y := PeerAt(Unbounded, ca, cb, es, |es|, atA), PeerAt(Unbounded, ca, cb, es, |es|, !atA);
            var ps := PacketsOf(y.out[k]);
            && 0 < x.p.cfg.mss
            && var r := DoInput(Unbounded, x, y.out[k]).p.snd;
               && AllCounted(ps, x.p.snd, r)
               && forall n :: Unacked(r, n) <==> Unacked(x.p.snd, n) && !SomeAcknowledges(ps, n)
  {
    hide Run, DoInput, InputDatagram, AllCounted, Unacked, SomeAcknowledges, EndOk, NoLoss, Delivered;
    assert es[..|es|] == es;
    RunInv(ca, cb, es);
    var x, y := PeerAt(Unbounded, ca, cb, es, |es|, atA), PeerAt(Unbounded, ca, cb, es, |es|, !atA);
    DeliveryIsDatagram(Unbounded, ca, cb, es, atA, k);
    DeliveredWithin(x, y, k);
    DatagramReleases(x.p, PacketsOf(y.out[k]), x.log);
  }

  lemma DeliveredWithin(x: Peer, y: Peer, k: nat)
    requires Inv(x, y) && k < |y.out|
    ensures var ps := PacketsOf(y.out[k]);
            && UnaWithin(ps, x.p.snd.nxt)
            && forall i :: 0 <= i < |ps| && ps[i].cmd == 82 ==> ps[i].sn < x.p.snd.nxt
  {
    KcpWrap.DeliveredAcks(x, y, k);
    var ps := y.out[k].ps;
    assert PacketsOk(ps, y.log, y.p.rcv);
    forall i | 0 <= i < |ps| ensures ps[i].una <= x.p.snd.nxt {
      assert PacketOk(ps[i], y.log, y.p.rcv);
    }
  }
}
