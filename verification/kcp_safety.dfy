/** End-to-end safety of two endpoints over an arbitrary network, on unbounded sequence
    numbers: an invariant of every run, and what follows from it. */
module KcpSafety {
  import opened KcpSerial
  import opened KcpWire
  import opened KcpSpec
  import opened KcpNet
  import opened KcpSender
  import opened KcpReceiver

  // ---- the invariant ----

  /** What a packet sent by an endpoint says is true, now and later: a number it
      acknowledges names a stored fragment, and a payload is the fragment of its number. */
  predicate PacketOk(h: Packet, log: seq<Frag>, r: Receiver) {
    && KnownCommand(h.cmd) && 0 <= h.wnd < TWO16
    && 0 <= h.una <= r.nxt
    && (h.cmd == CMD_ACK ==> Stored(r, h.sn))
    && (h.cmd == CMD_PUSH ==> 0 <= h.sn < |log| && FragOf(h) == log[h.sn])
  }

  predicate PacketsOk(ps: seq<Packet>, log: seq<Frag>, r: Receiver) {
    forall i :: 0 <= i < |ps| ==> PacketOk(ps[i], log, r)
  }

  predicate OutOk(out: seq<Datagram>, log: seq<Frag>, r: Receiver) {
    forall i :: 0 <= i < |out| ==> out[i].Packets? && PacketsOk(out[i].ps, log, r)
  }

  predicate AcksOk(acks: seq<Ack>, r: Receiver) {
    forall i :: 0 <= i < |acks| ==> Stored(r, acks[i].sn)
  }

  /** All fragments the application has handed over, numbered or still queued. */
  function AllFrags(x: Peer): seq<Frag> { x.log + Frags(x.p.snd.queue) }

  predicate Accounted(x: Peer) {
    && Chained(AllFrags(x))
    && Bytes0(AllFrags(x)) == x.queuedBytes
    && (if x.p.cfg.stream then forall i :: 0 <= i < |x.p.snd.queue| ==> x.p.snd.queue[i].pkt.frg == 0
        else Messages(AllFrags(x)) == x.accepted)
  }

  predicate EndOk(x: Peer) {
    && ConfigOk(x.p.cfg)
    && OutOk(x.out, x.log, x.p.rcv) && AcksOk(x.p.acks, x.p.rcv)
    && 0 <= x.p.rmtWnd < TWO16
    && Accounted(x)
  }

  /** Every number below snd_nxt is still in the sender's snd_buf or stored by the peer. */
  predicate NoLoss(s: Sender, r: Receiver, n: int) {
    forall sn :: 0 <= sn < n ==> Unacked(s, sn) || Stored(r, sn)
  }

  predicate Delivered(y: Peer, log: seq<Frag>) {
    && 0 <= Taken(y.p.rcv) <= |log| && Boundary(log, Taken(y.p.rcv))
    && y.delivered == Messages(log[..Taken(y.p.rcv)])
  }

  /** The direction in which x sends and y receives. */
  predicate Direction(x: Peer, y: Peer) {
    && SndOk(x.p.snd, x.log)
    && RcvOk(y.p.rcv, y.p.cfg.rcvWnd, x.log)
    && NoLoss(x.p.snd, y.p.rcv, |x.log|)
    && Delivered(y, x.log)
  }

  predicate Inv(x: Peer, y: Peer) {
    EndOk(x) && EndOk(y) && Direction(x, y) && Direction(y, x)
  }

  // ---- monotonicity ----

  ghost predicate RcvGrows(r: Receiver, r': Receiver) {
    r.nxt <= r'.nxt && forall sn :: Stored(r, sn) ==> Stored(r', sn)
  }

  lemma OutOkGrows(out: seq<Datagram>, log: seq<Frag>, r: Receiver, log': seq<Frag>, r': Receiver)
    requires OutOk(out, log, r) && log <= log' && RcvGrows(r, r')
    ensures OutOk(out, log', r')
  {
    forall i | 0 <= i < |out| ensures PacketsOk(out[i].ps, log', r') {
      forall j | 0 <= j < |out[i].ps| ensures PacketOk(out[i].ps[j], log', r') {
        assert PacketOk(out[i].ps[j], log, r);
      }
    }
  }

  lemma RcvOkGrows(r: Receiver, wnd: int, log: seq<Frag>, log': seq<Frag>)
    requires RcvOk(r, wnd, log) && log <= log'
    ensures RcvOk(r, wnd, log')
  {
  }

  lemma DeliveredGrows(y: Peer, log: seq<Frag>, log': seq<Frag>)
    requires Delivered(y, log) && log <= log'
    ensures Delivered(y, log')
  {
    assert log'[..Taken(y.p.rcv)] == log[..Taken(y.p.rcv)];
  }

  // ---- input ----

  /** What the parsing loop keeps at x while it reads packets of the peer, whose receiver
      is `yr` and whose fragments are `ylog`. */
  predicate InputInv(p: Pcb, xlog: seq<Frag>, yr: Receiver, ylog: seq<Frag>) {
    && SndOk(p.snd, xlog) && NoLoss(p.snd, yr, |xlog|) && yr.nxt <= |xlog|
    && RcvOk(p.rcv, p.cfg.rcvWnd, ylog) && AcksOk(p.acks, p.rcv)
    && 0 <= p.rmtWnd < TWO16
  }

  /** What input leaves alone. */
  ghost predicate InputFrame(p: Pcb, q: Pcb) {
    && p.cfg == q.cfg && p.snd.queue == q.snd.queue
    && Taken(p.rcv) == Taken(q.rcv) && RcvGrows(p.rcv, q.rcv)
  }

  lemma UnaKeeps(s: Sender, una: int, log: seq<Frag>, yr: Receiver)
    requires SndOk(s, log) && NoLoss(s, yr, |log|) && 0 <= una <= yr.nxt <= |log|
    ensures var r := Shrink(ParseUna(Unbounded, s, una));
            SndOk(r, log) && NoLoss(r, yr, |log|) && r.queue == s.queue
  {
    ParseUnaKeeps(s, una, log);
    var r := Shrink(ParseUna(Unbounded, s, una));
    forall sn | 0 <= sn < |log| ensures Unacked(r, sn) || Stored(yr, sn) {
      assert Unacked(s, sn) || Stored(yr, sn);
    }
  }

  lemma AckKeeps(s: Sender, sn: int, log: seq<Frag>, yr: Receiver)
    requires SndOk(s, log) && NoLoss(s, yr, |log|) && Stored(yr, sn)
    ensures var r := Shrink(ParseAck(Unbounded, s, sn));
            SndOk(r, log) && NoLoss(r, yr, |log|) && r.queue == s.queue
  {
    ParseAckKeeps(s, sn, log);
    var r := Shrink(ParseAck(Unbounded, s, sn));
    forall n | 0 <= n < |log| ensures Unacked(r, n) || Stored(yr, n) {
      assert Unacked(s, n) || Stored(yr, n);
    }
  }

  lemma InputPushKeeps(p: Pcb, h: Packet, ylog: seq<Frag>)
    requires RcvOk(p.rcv, p.cfg.rcvWnd, ylog) && AcksOk(p.acks, p.rcv)
    requires 0 <= h.sn < |ylog| && FragOf(h) == ylog[h.sn]
    ensures var q := InputPush(Unbounded, p, h);
            && RcvOk(q.rcv, q.cfg.rcvWnd, ylog) && AcksOk(q.acks, q.rcv)
            && Taken(p.rcv) == Taken(q.rcv) && RcvGrows(p.rcv, q.rcv)
            && q == p.(rcv := q.rcv, acks := q.acks)
  {
    ParseDataKeeps(p.cfg.rcvWnd, p.rcv, h, ylog);
    var q := InputPush(Unbounded, p, h);
    forall i | 0 <= i < |q.acks| ensures Stored(q.rcv, q.acks[i].sn) {
      if i < |p.acks| {
        assert Stored(p.rcv, p.acks[i].sn);
      } else {
        assert q.acks[i].sn == h.sn;
      }
    }
  }

  lemma InputAckKeeps(s: Parsing, h: Packet, xlog: seq<Frag>, yr: Receiver)
    requires SndOk(s.p.snd, xlog) && NoLoss(s.p.snd, yr, |xlog|) && Stored(yr, h.sn)
    ensures var q := InputAck(Unbounded, s, h).p;
            && SndOk(q.snd, xlog) && NoLoss(q.snd, yr, |xlog|) && q.snd.queue == s.p.snd.queue
            && q == s.p.(snd := q.snd, rtt := q.rtt)
  {
    AckKeeps(s.p.snd, h.sn, xlog, yr);
  }

  lemma InputPacketKeeps(s: Parsing, h: Packet, xlog: seq<Frag>, yr: Receiver, ylog: seq<Frag>)
    requires InputInv(s.p, xlog, yr, ylog) && PacketOk(h, ylog, yr)
    ensures InputInv(InputPacket(Unbounded, s, h).p, xlog, yr, ylog)
    ensures InputFrame(s.p, InputPacket(Unbounded, s, h).p)
  {
    hide DropAcked, InputAck, InputPush, MoveReady;
    UnaKeeps(s.p.snd, h.una, xlog, yr);
    var p := s.p.(rmtWnd := h.wnd, snd := Shrink(ParseUna(Unbounded, s.p.snd, h.una)));
    if h.cmd == CMD_ACK {
      InputAckKeeps(s.(p := p), h, xlog, yr);
    } else if h.cmd == CMD_PUSH {
      InputPushKeeps(p, h, ylog);
    }
  }

  lemma {:induction false} InputPacketsKeeps(s: Parsing, ps: seq<Packet>, xlog: seq<Frag>, yr: Receiver,
                                             ylog: seq<Frag>)
    requires InputInv(s.p, xlog, yr, ylog) && PacketsOk(ps, ylog, yr)
    ensures InputInv(InputPackets(Unbounded, s, ps).p, xlog, yr, ylog)
    ensures InputFrame(s.p, InputPackets(Unbounded, s, ps).p)
    decreases |ps|
  {
    if ps != [] {
      InputPacketKeeps(s, ps[0], xlog, yr, ylog);
      InputPacketsKeeps(InputPacket(Unbounded, s, ps[0]), ps[1..], xlog, yr, ylog);
    }
  }

  lemma InputDatagramKeeps(p: Pcb, ps: seq<Packet>, xlog: seq<Frag>, yr: Receiver, ylog: seq<Frag>)
    requires 0 < p.cfg.mss
    requires InputInv(p, xlog, yr, ylog) && PacketsOk(ps, ylog, yr)
    ensures InputInv(InputDatagram(Unbounded, p, ps), xlog, yr, ylog)
    ensures InputFrame(p, InputDatagram(Unbounded, p, ps))
  {
    var s := InputPackets(Unbounded, Parsing(p, false, 0), ps);
    InputPacketsKeeps(Parsing(p, false, 0), ps, xlog, yr, ylog);
    if s.acked {
      ParseFastAckKeeps(s.p.snd, s.maxAck, xlog);
      var r := ParseFastAck(Unbounded, s.p.snd, s.maxAck);
      forall sn | 0 <= sn < |xlog| ensures Unacked(r, sn) || Stored(yr, sn) {
        assert Unacked(s.p.snd, sn) || Stored(yr, sn);
      }
    }
  }

  lemma DeliverKeeps(x: Peer, y: Peer, k: nat)
    requires Inv(x, y) && k < |y.out|
    ensures Inv(DoInput(Unbounded, x, y.out[k]), y)
  {
    var x' := DoInput(Unbounded, x, y.out[k]);
    assert y.out[k].Packets?;
    InputDatagramKeeps(x.p, y.out[k].ps, x.log, y.p.rcv, y.log);
    OutOkGrows(x.out, x.log, x.p.rcv, x.log, x'.p.rcv);
    assert AllFrags(x') == AllFrags(x);
    assert NoLoss(y.p.snd, x'.p.rcv, |y.log|) by {
      forall sn | 0 <= sn < |y.log| ensures Unacked(y.p.snd, sn) || Stored(x'.p.rcv, sn) {
        assert Unacked(y.p.snd, sn) || Stored(x.p.rcv, sn);
      }
    }
  }

  // ---- recv ----

  /** Taking n packets off the queue, the application's side growing by as many. */
  lemma TakeKeeps(r: Receiver, n: nat, wnd: int, log: seq<Frag>)
    requires RcvOk(r, wnd, log) && n <= |r.queue|
    ensures var t := r.(queue := r.queue[n..], nQue := r.nQue - n);
            RcvOk(t, wnd, log) && Taken(t) == Taken(r) + n && forall sn :: Stored(r, sn) <==> Stored(t, sn)
  {
  }

  /** Where a read starts and what it returns, when it returns a message. */
  lemma RecvMessage(p: Pcb, len: int, log: seq<Frag>, fs: seq<Frag>)
    requires RcvOk(p.rcv, p.cfg.rcvWnd, log) && log <= fs && Chained(fs)
    ensures var r := KcpSpec.Recv(Unbounded, p, len);
            r.code >= 0 ==>
              var c := Taken(p.rcv);
              var n := fs[c].frg + 1;
              && 0 < n <= |p.rcv.queue| && c + n <= |log| && r.data == Bytes0(fs[c..c + n])
              && r.p.rcv == MoveReady(Unbounded, p.cfg.rcvWnd,
                                      if len < 0 then p.rcv
                                      else p.rcv.(queue := p.rcv.queue[n..], nQue := p.rcv.nQue - n))
    ensures var r := KcpSpec.Recv(Unbounded, p, len);
            r.code < 0 ==> r.p == p
  {
    if p.rcv.queue != [] {
      PeekSizeIs(p.rcv, p.cfg.rcvWnd, log, fs);
    }
  }

  /** How many fragments a call of `ikcp_recv` takes. */
  function TakenBy(p: Pcb, len: int, fs: seq<Frag>): int
    requires 0 <= Taken(p.rcv) && (p.rcv.queue != [] ==> Taken(p.rcv) < |fs|)
  {
    if len < 0 || KcpSpec.Recv(Unbounded, p, len).code < 0 || p.rcv.queue == [] then 0 else fs[Taken(p.rcv)].frg + 1
  }

  lemma RecvWindow(p: Pcb, len: int, log: seq<Frag>, fs: seq<Frag>)
    requires RcvOk(p.rcv, p.cfg.rcvWnd, log) && log <= fs && Chained(fs)
    ensures var r := KcpSpec.Recv(Unbounded, p, len);
            && RcvOk(r.p.rcv, p.cfg.rcvWnd, log) && RcvGrows(p.rcv, r.p.rcv)
            && Taken(r.p.rcv) == Taken(p.rcv) + TakenBy(p, len, fs)
  {
    hide PeekSize, FirstMessage, Payload, MoveReady;
    RecvMessage(p, len, log, fs);
    if KcpSpec.Recv(Unbounded, p, len).code >= 0 {
      var n := TakenBy(p, len, fs);
      TakeKeeps(p.rcv, n, p.cfg.rcvWnd, log);
      MoveReadyKeeps(p.cfg.rcvWnd, p.rcv.(queue := p.rcv.queue[n..], nQue := p.rcv.nQue - n), log);
    }
  }

  /** `ikcp_recv` succeeds exactly when the peer's next message is complete in rcv_queue and
      fits into the buffer. */
  lemma RecvSucceeds(x: Peer, y: Peer, len: int)
    requires RcvOk(x.p.rcv, x.p.cfg.rcvWnd, y.log) && Chained(AllFrags(y))
    ensures var c, q := Taken(x.p.rcv), x.p.rcv.queue;
            KcpSpec.Recv(Unbounded, x.p, len).code >= 0 <==>
              && q != [] && 0 <= y.log[c].frg < |q|
              && |Bytes0(y.log[c..c + y.log[c].frg + 1])| <= (if len < 0 then -len else len)
  {
    hide MoveReady, FirstMessage, Payload, PeekSize, Chained, Bytes0;
    var c, fs := Taken(x.p.rcv), AllFrags(y);
    if x.p.rcv.queue != [] {
      var n := fs[c].frg + 1;
      PeekSizeIs(x.p.rcv, x.p.cfg.rcvWnd, y.log, fs);
      assert n <= |x.p.rcv.queue| ==> fs[c..c + n] == y.log[c..c + n];
    }
  }

  /** A call that succeeds returns exactly the peer's next message and, unless it only peeks,
      takes exactly its fragments; otherwise nothing changes. */
  lemma RecvOne(x: Peer, y: Peer, len: int)
    requires RcvOk(x.p.rcv, x.p.cfg.rcvWnd, y.log) && Delivered(x, y.log) && Chained(AllFrags(y))
    ensures var r, x' := KcpSpec.Recv(Unbounded, x.p, len), DoRecv(Unbounded, x, len);
            var c := Taken(x.p.rcv);
            if r.code < 0 then x' == x
            else
              var n := y.log[c].frg + 1;
              && 0 < n && c + n <= |y.log| && Messages(y.log[..c + n]) == Messages(y.log[..c]) + [r.data]
              && Taken(x'.p.rcv) == (if len < 0 then c else c + n)
              && x'.delivered == (if len < 0 then x.delivered else x.delivered + [r.data])
  {
    hide MoveReady, Messages, RcvGrows, FirstMessage, Payload, PeekSize, Chained, Bytes0, KcpReceiver.BufOk;
    var c, fs := Taken(x.p.rcv), AllFrags(y);
    RecvWindow(x.p, len, y.log, fs);
    RecvMessage(x.p, len, y.log, fs);
    if KcpSpec.Recv(Unbounded, x.p, len).code >= 0 {
      NextDelivered(y.log, fs, c);
    }
  }

  /** What the receive side keeps when `ikcp_recv` is called. */
  lemma RecvTakes(x: Peer, y: Peer, len: int)
    requires RcvOk(x.p.rcv, x.p.cfg.rcvWnd, y.log) && Delivered(x, y.log) && Chained(AllFrags(y))
    ensures var x' := DoRecv(Unbounded, x, len);
            && RcvOk(x'.p.rcv, x.p.cfg.rcvWnd, y.log) && RcvGrows(x.p.rcv, x'.p.rcv) && Delivered(x', y.log)
  {
    hide PeekSize, FirstMessage, Payload, MoveReady, Messages, RcvOk, RcvGrows;
    var c, fs := Taken(x.p.rcv), AllFrags(y);
    RecvWindow(x.p, len, y.log, fs);
    RecvMessage(x.p, len, y.log, fs);
    if KcpSpec.Recv(Unbounded, x.p, len).code >= 0 && len >= 0 {
      NextDelivered(y.log, fs, c);
    }
  }

  lemma NextDelivered(log: seq<Frag>, fs: seq<Frag>, c: nat)
    requires log <= fs && Chained(fs) && c < |log| && Boundary(log, c) && c + fs[c].frg + 1 <= |log|
    ensures var n := c + fs[c].frg + 1;
            c < n && Boundary(log, n) && Messages(log[..n]) == Messages(log[..c]) + [Bytes0(fs[c..n])]
  {
    MessagesNext(fs, c);
    var n := c + fs[c].frg + 1;
    assert fs[..c] == log[..c];
    assert fs[..n] == log[..n];
  }

  lemma RecvTouches(x: Peer, len: int)
    ensures var x' := DoRecv(Unbounded, x, len);
            x' == x.(p := x.p.(rcv := x'.p.rcv, probe := x'.p.probe), delivered := x'.delivered)
  {
    hide MoveReady, FirstMessage, Payload, PeekSize;
  }

  lemma RecvKeeps(x: Peer, y: Peer, len: int)
    requires Inv(x, y)
    ensures Inv(DoRecv(Unbounded, x, len), y)
  {
    hide KcpSpec.Recv, DoRecv, RcvGrows, NoLoss, OutOk, SndOk;
    RecvTakes(x, y, len);
    RecvTouches(x, len);
    RecvFrame(x, DoRecv(Unbounded, x, len), y);
  }

  /** What is left to show once the receive side has moved on. */
  lemma RecvFrame(x: Peer, x': Peer, y: Peer)
    requires Inv(x, y)
    requires RcvOk(x'.p.rcv, x'.p.cfg.rcvWnd, y.log) && RcvGrows(x.p.rcv, x'.p.rcv) && Delivered(x', y.log)
    requires x' == x.(p := x.p.(rcv := x'.p.rcv, probe := x'.p.probe), delivered := x'.delivered)
    ensures Inv(x', y)
  {
    OutOkGrows(x.out, x.log, x.p.rcv, x.log, x'.p.rcv);
    assert AllFrags(x') == AllFrags(x);
    forall sn | 0 <= sn < |y.log| ensures Unacked(y.p.snd, sn) || Stored(x'.p.rcv, sn) {
      assert Unacked(y.p.snd, sn) || Stored(x.p.rcv, sn);
    }
  }

  // ---- send ----

  /** The bytes that fit into this many fragments. */
  function Room(count: nat, mss: int): int { count * mss }

  lemma RoomStep(count: nat, mss: int)
    requires count > 0 && mss > 0
    ensures Room(count, mss) == Room(count - 1, mss) + mss && Room(count - 1, mss) >= 0
    ensures count == 1 ==> Room(count, mss) == mss
  {
  }

  /** The fragments of a message: their bytes are the message, and outside stream mode
      they count down to 0. */
  lemma {:induction false} FragmentsAre(data: bytes, mss: int, count: nat, stream: bool)
    requires 0 < mss && 0 < count && |data| <= Room(count, mss)
    ensures var fs := Frags(Fragments(data, mss, count, stream));
            && |fs| == count && Bytes0(fs) == data
            && forall i :: 0 <= i < count ==> fs[i].frg == if stream then 0 else count - 1 - i
    decreases count
  {
    hide Room;
    RoomStep(count, mss);
    var size := Min(|data|, mss);
    var tail := Fragments(data[size..], mss, count - 1, stream);
    var fs := Frags(Fragments(data, mss, count, stream));
    assert fs[1..] == Frags(tail);
    assert data == data[..size] + data[size..];
    if count == 1 {
      assert fs[1..] == [];
    } else {
      FragmentsAre(data[size..], mss, count - 1, stream);
      assert forall i :: 1 <= i < count ==> fs[i] == fs[1..][i - 1];
    }
  }

  lemma FragmentCountFits(len: nat, mss: int)
    requires 0 < mss
    ensures var n := FragmentCount(len, mss);
            0 < n && len <= Room(n, mss)
  {
    if len > mss {
      var q, r := (len + mss - 1) / mss, (len + mss - 1) % mss;
      assert len + mss - 1 == mss * q + r;
      PositiveQuotient(len + mss - 1, mss);
    }
  }

  lemma PositiveQuotient(a: int, b: int)
    requires 0 < b <= a
    ensures 0 < a / b
  {
    assert a == b * (a / b) + a % b;
  }

  lemma FragsConcat(a: seq<Segment>, b: seq<Segment>)
    ensures Frags(a + b) == Frags(a) + Frags(b)
  {
  }

  lemma ChainedConcat(a: seq<Frag>, b: seq<Frag>)
    requires Chained(a) && Chained(b)
    ensures Chained(a + b)
  {
    forall i | 0 <= i < |a + b| ensures CountsDown(a + b, i) {
      if i < |a| {
        assert CountsDown(a, i);
      } else {
        assert CountsDown(b, i - |a|);
      }
    }
  }

  lemma ChainedEnds(fs: seq<Frag>)
    requires Chained(fs) && fs != []
    ensures fs[|fs| - 1].frg == 0
  {
    assert CountsDown(fs, |fs| - 1);
  }

  /** New fragments behind those already handed over. */
  lemma QueueMore(x: Peer, q: seq<Segment>, data: bytes, count: nat)
    requires 0 < x.p.cfg.mss && 0 < count < WND_RCV && |data| <= Room(count, x.p.cfg.mss)
    requires Chained(x.log + Frags(q))
    ensures var fs := x.log + Frags(q + Fragments(data, x.p.cfg.mss, count, x.p.cfg.stream));
            && Chained(fs) && Bytes0(fs) == Bytes0(x.log + Frags(q)) + data
            && (!x.p.cfg.stream ==> Messages(fs) == Messages(x.log + Frags(q)) + [data])
  {
    hide Room, Messages, Fragments, Bytes0, FirstLen;
    var more := Fragments(data, x.p.cfg.mss, count, x.p.cfg.stream);
    var a, m := x.log + Frags(q), Frags(more);
    FragmentsAre(data, x.p.cfg.mss, count, x.p.cfg.stream);
    FragsConcat(q, more);
    assert x.log + Frags(q + more) == a + m;
    assert Chained(m) by {
      forall i | 0 <= i < |m| ensures CountsDown(m, i) {
      }
    }
    ChainedConcat(a, m);
    Bytes0Concat(a, m);
    if !x.p.cfg.stream {
      if a != [] {
        ChainedEnds(a);
      }
      MessagesConcat(a, m);
      FirstLenIs(m, count - 1);
      OneMessage(m);
    }
  }

  /** Stream mode: the last queued fragment grows. */
  lemma ExtendKeeps(x: Peer, more: bytes)
    requires Accounted(x) && x.p.cfg.stream && x.p.snd.queue != []
    requires |x.p.snd.queue[|x.p.snd.queue| - 1].pkt.data| < x.p.cfg.mss
    ensures var q := ExtendLast(x.p.snd.queue, x.p.cfg.mss, more);
            && Chained(x.log + Frags(q)) && Bytes0(x.log + Frags(q)) == x.queuedBytes + more
            && |q| == |x.p.snd.queue|
            && forall i :: 0 <= i < |q| ==> q[i].pkt.frg == 0
  {
    var queue := x.p.snd.queue;
    var n := |queue| - 1;
    var q := ExtendLast(queue, x.p.cfg.mss, more);
    var head := x.log + Frags(queue[..n]);
    var old0, new0 := Frag(0, queue[n].pkt.data), Frag(0, queue[n].pkt.data + more);
    assert AllFrags(x) == head + [old0] && x.log + Frags(q) == head + [new0];
    forall i | 0 <= i < |head + [new0]| ensures CountsDown(head + [new0], i) {
      assert CountsDown(head + [old0], i);
    }
    Bytes0Snoc(head, old0);
    Bytes0Snoc(head, new0);
    ConcatAssociative(Bytes0(head), queue[n].pkt.data, more);
  }

  /** What `ikcp_send` makes of the fragments handed over so far: outside stream mode an
      accepted message is appended and a refused one changes nothing; in stream mode the
      accepted bytes are appended. */
  lemma SendAccounted(x: Peer, data: bytes)
    requires EndOk(x)
    ensures Accounted(DoSend(x, data))
  {
    var n := Extension(x.p, data);
    var rest := data[n..];
    var q := Extended(x.p, data);
    ExtendedIs(x, data);
    if x.p.cfg.stream && rest == [] {
      assert data[..n] == data;
    } else {
      var count := FragmentCount(|rest|, x.p.cfg.mss);
      if count < WND_RCV {
        FragmentCountFits(|rest|, x.p.cfg.mss);
        QueueMore(x, q, rest, count);
        assert data == data[..n] + rest;
        ConcatAssociative(x.queuedBytes, data[..n], rest);
        StreamFrags(x.p, q, rest, count);
      }
    }
  }

  /** The queue after stream mode has filled its last segment. */
  function Extended(p: Pcb, data: bytes): seq<Segment> {
    if p.cfg.stream && p.snd.queue != [] then ExtendLast(p.snd.queue, p.cfg.mss, data[..Extension(p, data)])
    else p.snd.queue
  }

  lemma ExtendedIs(x: Peer, data: bytes)
    requires EndOk(x)
    ensures var fs := x.log + Frags(Extended(x.p, data));
            && Chained(fs) && Bytes0(fs) == x.queuedBytes + data[..Extension(x.p, data)]
            && (if x.p.cfg.stream
                then forall i :: 0 <= i < |Extended(x.p, data)| ==> Extended(x.p, data)[i].pkt.frg == 0
                else Extended(x.p, data) == x.p.snd.queue && Extension(x.p, data) == 0)
  {
    var n := Extension(x.p, data);
    if Extended(x.p, data) != x.p.snd.queue {
      ExtendKeeps(x, data[..n]);
    } else {
      SendNoExtension(x, data);
    }
  }

  lemma StreamFrags(p: Pcb, q: seq<Segment>, rest: bytes, count: nat)
    requires 0 < p.cfg.mss && 0 < count && |rest| <= Room(count, p.cfg.mss)
    requires p.cfg.stream ==> forall i :: 0 <= i < |q| ==> q[i].pkt.frg == 0
    ensures p.cfg.stream ==> var r := q + Fragments(rest, p.cfg.mss, count, p.cfg.stream);
                             forall i :: 0 <= i < |r| ==> r[i].pkt.frg == 0
  {
    hide Room;
    FragmentsAre(rest, p.cfg.mss, count, p.cfg.stream);
    var more := Fragments(rest, p.cfg.mss, count, p.cfg.stream);
    forall i | 0 <= i < |more| ensures p.cfg.stream ==> more[i].pkt.frg == 0 {
      assert Frags(more)[i] == FragOf(more[i].pkt);
    }
  }

  lemma SendNoExtension(x: Peer, data: bytes)
    requires EndOk(x)
    requires var q := x.p.snd.queue;
             x.p.cfg.stream && q != [] ==> ExtendLast(q, x.p.cfg.mss, data[..Extension(x.p, data)]) == q
    ensures x.queuedBytes + data[..Extension(x.p, data)] == x.queuedBytes
  {
    var q, n := x.p.snd.queue, Extension(x.p, data);
    if x.p.cfg.stream && q != [] && |q[|q| - 1].pkt.data| < x.p.cfg.mss {
      var r := ExtendLast(q, x.p.cfg.mss, data[..n]);
      assert r[|q| - 1].pkt.data == q[|q| - 1].pkt.data + data[..n];
      assert |data[..n]| == 0;
    }
  }

  lemma SendTouchesQueueOnly(p: Pcb, data: bytes)
    requires 0 < p.cfg.mss && p.snd.nQue == |p.snd.queue|
    ensures var q := KcpSpec.Send(p, data).0;
            q == p.(snd := p.snd.(queue := q.snd.queue, nQue := |q.snd.queue|))
  {
    var n := Extension(p, data);
    if p.cfg.stream && p.snd.queue != [] {
      assert |ExtendLast(p.snd.queue, p.cfg.mss, data[..n])| == |p.snd.queue|;
    }
  }

  lemma SendKeeps(x: Peer, y: Peer, data: bytes)
    requires Inv(x, y)
    ensures Inv(DoSend(x, data), y)
  {
    hide KcpSpec.Send;
    SendAccounted(x, data);
    SendTouchesQueueOnly(x.p, data);
    assert forall sn :: Unacked(x.p.snd, sn) ==> Unacked(DoSend(x, data).p.snd, sn);
  }

  // ---- flush ----

  lemma FlushPacketsOk(p: Pcb, log: seq<Frag>)
    requires p.updated && AcksOk(p.acks, p.rcv) && 0 <= p.rcv.nxt
    requires SndOk(Admit(Unbounded, p, p.snd, EffectiveWindow(p)), log)
    ensures PacketsOk(FlushNow(Unbounded, p).out, log, p.rcv)
  {
    hide Admit, EffectiveWindow, SndOk, ProbeTimer, ReactToLoss, Resends;
    var s := Admit(Unbounded, p, p.snd, EffectiveWindow(p));
    var timer := ProbeTimer(p.probe, p.rmtWnd, p.current);
    var acks, probes, out := AckPackets(p), ProbePackets(p, timer), Resend(p, s.buf).out;
    ResendSends(p, Tally([], false, false, p.xmit, p.dead), s.buf);
    forall i | 0 <= i < |acks| ensures PacketOk(acks[i], log, p.rcv) {
      assert Stored(p.rcv, p.acks[i].sn);
    }
    assert PacketsOk(probes, log, p.rcv);
    forall j | 0 <= j < |out| ensures PacketOk(out[j], log, p.rcv) {
      assert Resends(p, s.buf, out[j]);
      ResentOk(p, s, log, out[j]);
    }
  }

  lemma ResentOk(p: Pcb, s: Sender, log: seq<Frag>, h: Packet)
    requires SndOk(s, log) && 0 <= p.rcv.nxt && Resends(p, s.buf, h)
    ensures PacketOk(h, log, p.rcv)
  {
    var i :| 0 <= i < |s.buf| && h == OnWire(Stamped(p, s.buf[i]).pkt);
  }

  lemma EmittedOk(ps: seq<Packet>, mtu: int, log: seq<Frag>, r: Receiver)
    requires PacketsOk(ps, log, r)
    ensures OutOk(Emit(Unbounded, Datagrams(ps, mtu)), log, r)
  {
    PackedFrom(ps, mtu);
    var ds := Datagrams(ps, mtu);
    forall i | 0 <= i < |ds| ensures PacketsOk(ds[i], log, r) {
      forall j | 0 <= j < |ds[i]| ensures PacketOk(ds[i][j], log, r) {
        assert ds[i][j] in ds[i];
        assert ds[i][j] in ps;
      }
    }
  }

  lemma {:induction false} PackedFrom(ps: seq<Packet>, mtu: int)
    ensures forall x :: x in PackAll(ps, mtu).cur ==> x in ps
    ensures forall i :: 0 <= i < |PackAll(ps, mtu).done| ==> forall x :: x in PackAll(ps, mtu).done[i] ==> x in ps
    ensures forall i :: 0 <= i < |Datagrams(ps, mtu)| ==> forall x :: x in Datagrams(ps, mtu)[i] ==> x in ps
  {
    if ps != [] {
      PackedFrom(ps[..|ps| - 1], mtu);
    }
  }

  lemma FlushFragsKeep(x: Peer)
    ensures AllFrags(DoFlush(Unbounded, x)) == AllFrags(x)
  {
    if x.p.updated {
      var q := x.p.snd.queue;
      var k := AdmitIs(x.p, x.p.snd, EffectiveWindow(x.p));
      FragsConcat(q[..k], q[k..]);
      assert q == q[..k] + q[k..];
      ConcatAssociative(x.log, Frags(q[..k]), Frags(q[k..]));
    }
  }

  /** What a flush does to its own endpoint. */
  lemma FlushSide(x: Peer)
    requires x.p.updated && EndOk(x) && SndOk(x.p.snd, x.log) && 0 <= x.p.rcv.nxt
    ensures var x' := DoFlush(Unbounded, x);
            && EndOk(x') && SndOk(x'.p.snd, x'.log) && x.log <= x'.log
            && x'.p.rcv == x.p.rcv && x'.p.cfg == x.p.cfg && x'.delivered == x.delivered
            && forall sn :: Unacked(x.p.snd, sn) || |x.log| <= sn < |x'.log| ==> Unacked(x'.p.snd, sn)
  {
    hide Admit, Decide, Numbered, ReactToLoss, ProbeTimer, ProbePackets, Resend, PacketsOk, OutOk, Messages, Bytes0;
    var x' := DoFlush(Unbounded, x);
    var cwnd := EffectiveWindow(x.p);
    var k := AdmitKeeps(x.p, x.p.snd, cwnd, x.log);
    var s := Admit(Unbounded, x.p, x.p.snd, cwnd);
    assert AdmittedCount(Unbounded, x.p) == k;
    ResendKeeps(x.p, s, x'.log);
    FlushPacketsOk(x.p, x'.log);
    FlushOutOk(x);
    FlushFragsKeep(x);
  }

  lemma FlushKeeps(x: Peer, y: Peer)
    requires Inv(x, y)
    ensures Inv(DoFlush(Unbounded, x), y)
  {
    if x.p.updated {
      FlushSide(x);
      var x' := DoFlush(Unbounded, x);
      hide DoFlush, EndOk, SndOk;
      RcvOkGrows(y.p.rcv, y.p.cfg.rcvWnd, x.log, x'.log);
      DeliveredGrows(y, x.log, x'.log);
      forall sn | 0 <= sn < |x'.log| ensures Unacked(x'.p.snd, sn) || Stored(y.p.rcv, sn) {
        assert sn < |x.log| ==> Unacked(x.p.snd, sn) || Stored(y.p.rcv, sn);
      }
    }
  }

  lemma FlushOutOk(x: Peer)
    requires x.p.updated && OutOk(x.out, x.log, x.p.rcv)
    requires PacketsOk(FlushNow(Unbounded, x.p).out, DoFlush(Unbounded, x).log, x.p.rcv)
    ensures OutOk(DoFlush(Unbounded, x).out, DoFlush(Unbounded, x).log, x.p.rcv)
  {
    var x' := DoFlush(Unbounded, x);
    OutOkGrows(x.out, x.log, x.p.rcv, x'.log, x.p.rcv);
    EmittedOk(FlushNow(Unbounded, x.p).out, x.p.cfg.mtu, x'.log, x.p.rcv);
  }

  lemma TickKeeps(x: Peer, y: Peer, now: int)
    requires Inv(x, y)
    ensures Inv(x.(p := Tick(x.p, now).0), y)
  {
    hide U32, TimeDiff, SndOk, RcvOk, Stored, NoLoss, Chained, Messages;
    assert AllFrags(x.(p := Tick(x.p, now).0)) == AllFrags(x);
  }

  lemma UpdateKeeps(x: Peer, y: Peer, now: int)
    requires Inv(x, y)
    ensures Inv(DoUpdate(Unbounded, x, now), y)
  {
    var x1 := x.(p := Tick(x.p, U32(now)).0);
    assert AllFrags(x1) == AllFrags(x);
    assert Inv(x1, y);
    FlushKeeps(x1, y);
  }

  // ---- runs ----

  lemma DoKeeps(x: Peer, y: Peer, op: Op)
    requires Inv(x, y)
    ensures Inv(Do(Unbounded, x, y, op), y)
  {
    match op
    case Send(data) => SendKeeps(x, y, data);
    case Recv(len) => RecvKeeps(x, y, len);
    case Update(now) => UpdateKeeps(x, y, now);
    case Flush => FlushKeeps(x, y);
    case Deliver(k) => if k < |y.out| { DeliverKeeps(x, y, k); }
  }

  lemma StartEnd(c: Config)
    requires ConfigOk(c)
    ensures EndOk(NewPeer(c)) && AllFrags(NewPeer(c)) == []
  {
    assert AllFrags(NewPeer(c)) == [];
  }

  lemma StartInv(ca: Config, cb: Config)
    requires Compatible(ca, cb)
    ensures Inv(NewPeer(ca), NewPeer(cb))
  {
    hide EndOk;
    StartEnd(ca);
    StartEnd(cb);
  }

  /** The invariant holds in every state of every run. */
  lemma {:induction false} RunInv(ca: Config, cb: Config, es: seq<Event>)
    requires Compatible(ca, cb)
    ensures var s := Run(Unbounded, Start(ca, cb), es);
            Inv(s.a, s.b)
    decreases |es|
  {
    if es == [] {
      StartInv(ca, cb);
    } else {
      var n := |es| - 1;
      RunInv(ca, cb, es[..n]);
      var s := Run(Unbounded, Start(ca, cb), es[..n]);
      if es[n].atA {
        DoKeeps(s.a, s.b, es[n].op);
      } else {
        DoKeeps(s.b, s.a, es[n].op);
      }
    }
  }

  // ---- what the invariant gives ----

  /** What the application at y has received from x is, as messages outside stream mode and as
      bytes always, a prefix of what x's calls put into snd_queue. */
  ghost predicate InOrder(x: Peer, y: Peer) {
    && (!x.p.cfg.stream ==> y.delivered <= x.accepted)
    && Concat(y.delivered) <= x.queuedBytes
  }

  lemma DirectionInOrder(x: Peer, y: Peer)
    requires Inv(x, y)
    ensures InOrder(x, y)
  {
    var c, fs := Taken(y.p.rcv), AllFrags(x);
    assert fs[..c] == x.log[..c];
    assert Boundary(fs, c);
    MessagesPrefix(fs, c);
    BytesPrefix(fs, c);
  }

  lemma BytesPrefix(fs: seq<Frag>, c: nat)
    requires c <= |fs|
    ensures Concat(Messages(fs[..c])) <= Bytes0(fs)
  {
    MessagesBytes(fs[..c]);
    Bytes0Concat(fs[..c], fs[c..]);
    assert fs == fs[..c] + fs[c..];
  }

  /** End-to-end safety. However the network drops, duplicates and reorders datagrams, the
      messages one side has received are a prefix of the messages the other side's sends
      accepted, in both directions; in stream mode the bytes received are a prefix of the bytes
      the other side's sends queued. `KcpStream` compares these with the accepted ones. */
  lemma EndToEnd(ca: Config, cb: Config, es: seq<Event>)
    requires Compatible(ca, cb)
    ensures var s := Run(Unbounded, Start(ca, cb), es);
            InOrder(s.a, s.b) && InOrder(s.b, s.a)
  {
    var s := Run(Unbounded, Start(ca, cb), es);
    RunInv(ca, cb, es);
    DirectionInOrder(s.a, s.b);
    DirectionInOrder(s.b, s.a);
  }

  /** Nothing of x is released early: each number x has assigned is still in its snd_buf or is
      kept by y, and a number that y is about to acknowledge, or has acknowledged, is kept
      by y. */
  predicate Kept(x: Peer, y: Peer) {
    && (forall sn :: 0 <= sn < x.p.snd.nxt ==> Unacked(x.p.snd, sn) || Stored(y.p.rcv, sn))
    && (forall i :: 0 <= i < |y.p.acks| ==> Stored(y.p.rcv, y.p.acks[i].sn))
    && (forall i, j :: 0 <= i < |y.out| && y.out[i].Packets? && 0 <= j < |y.out[i].ps| ==>
         && y.out[i].ps[j].una <= y.p.rcv.nxt
         && (y.out[i].ps[j].cmd == CMD_ACK ==> Stored(y.p.rcv, y.out[i].ps[j].sn)))
  }

  lemma InvKeeps(x: Peer, y: Peer)
    requires Inv(x, y)
    ensures Kept(x, y)
  {
    forall i, j | 0 <= i < |y.out| && y.out[i].Packets? && 0 <= j < |y.out[i].ps|
      ensures PacketOk(y.out[i].ps[j], y.log, y.p.rcv)
    {
      assert PacketsOk(y.out[i].ps, y.log, y.p.rcv);
    }
  }

  /** Nothing is released early in any state of any run, in either direction. */
  lemma NothingReleasedEarly(ca: Config, cb: Config, es: seq<Event>)
    requires Compatible(ca, cb)
    ensures var s := Run(Unbounded, Start(ca, cb), es);
            Kept(s.a, s.b) && Kept(s.b, s.a)
  {
    RunInv(ca, cb, es);
    var s := Run(Unbounded, Start(ca, cb), es);
    InvKeeps(s.a, s.b);
    InvKeeps(s.b, s.a);
  }

  /** The windows of one endpoint: snd_buf ascends inside [snd_una, snd_nxt) from its head on,
      rcv_buf ascends inside [rcv_nxt, rcv_nxt + rcv_wnd), rcv_queue ends below rcv_nxt and
      starts at a message boundary, and the counters are the queue lengths. A receive queue
      that fills the window can be read, so the window reopens. */
  predicate WindowsOk(x: Peer, y: Peer) {
    && SndOk(x.p.snd, x.log) && RcvOk(x.p.rcv, x.p.cfg.rcvWnd, y.log)
    && Boundary(y.log, Taken(x.p.rcv))
    && (x.p.rcv.nQue >= x.p.cfg.rcvWnd ==> PeekSize(x.p.rcv) >= 0)
  }

  lemma InvWindows(x: Peer, y: Peer)
    requires Inv(x, y)
    ensures WindowsOk(x, y)
  {
    if x.p.rcv.nQue >= x.p.cfg.rcvWnd {
      FullQueueIsReadable(x.p.rcv, x.p.cfg.rcvWnd, y.log, AllFrags(y));
    }
  }

  /** The windows hold in every state of every run, at both ends. */
  lemma RunWindows(ca: Config, cb: Config, es: seq<Event>)
    requires Compatible(ca, cb)
    ensures var s := Run(Unbounded, Start(ca, cb), es);
            WindowsOk(s.a, s.b) && WindowsOk(s.b, s.a)
  {
    RunInv(ca, cb, es);
    var s := Run(Unbounded, Start(ca, cb), es);
    InvWindows(s.a, s.b);
    InvWindows(s.b, s.a);
  }

  /** The sending side after a flush. */
  function Flushed(p: Pcb): Sender { KcpSpec.Flush(Unbounded, p).p.snd }

  /** The least of the send window, the peer's window and, unless it is switched off, the
      congestion window. */
  function Allowed(p: Pcb): (w: int)
    ensures w <= p.cfg.sndWnd && w <= p.rmtWnd && (!p.cfg.noCwnd ==> w <= p.cc.cwnd)
    ensures w == p.cfg.sndWnd || w == p.rmtWnd || (!p.cfg.noCwnd && w == p.cc.cwnd)
  {
    Min(p.rmtWnd, if p.cfg.noCwnd || p.cfg.sndWnd <= p.cc.cwnd then p.cfg.sndWnd else p.cc.cwnd)
  }

  /** Flush numbers queued segments in order while snd_nxt is below snd_una plus the least of
      the send, remote and congestion windows, and stops only there or when none is left. */
  lemma FlushFillsWindow(p: Pcb) returns (k: nat)
    requires p.updated
    ensures k <= |p.snd.queue|
    ensures var s, t := p.snd, Flushed(p);
            && t.una == s.una && t.nxt == s.nxt + k && t.queue == s.queue[k..] && |t.buf| == |s.buf| + k
            && (k > 0 ==> t.nxt <= s.una + Allowed(p))
            && (t.queue != [] ==> s.una + Allowed(p) <= t.nxt)
    ensures forall i :: 0 <= i < k ==>
              var q := Flushed(p).buf[|p.snd.buf| + i].pkt;
              q.sn == p.snd.nxt + i && q.data == p.snd.queue[i].pkt.data && q.frg == p.snd.queue[i].pkt.frg
  {
    var cwnd := EffectiveWindow(p);
    assert cwnd == Allowed(p);
    k := AdmitIs(p, p.snd, cwnd);
    var s := Admit(Unbounded, p, p.snd, cwnd);
    var ds := Decisions(p, s.buf);
    var t := Flushed(p);
    assert t == s.(buf := SegmentsOf(ds));
    hide Admit, EffectiveWindow, Flushed;
    forall i | 0 <= i < k
      ensures var q := t.buf[|p.snd.buf| + i].pkt;
              q.sn == p.snd.nxt + i && q.data == p.snd.queue[i].pkt.data && q.frg == p.snd.queue[i].pkt.frg
    {
      var j := |p.snd.buf| + i;
      assert ds[j] == Decide(p, s.buf[j]) && t.buf[j] == ds[j].seg;
      assert s.buf[j] == Numbered(p, p.snd.queue[i], p.snd.nxt + i);
    }
  }
}
