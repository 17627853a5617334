/** The 32-bit machine against unbounded sequence numbers. Wrapping every sequence number
    of a state commutes with every operation, as long as no old number is delivered that
    the machine mistakes for one of its windows; so the machine's runs are the unbounded
    runs, wrapped, and inherit their safety. `KcpStale` proves that the condition is exact
    and what goes wrong without it. */
module KcpWrap {
  import opened KcpSerial
  import opened KcpWire
  import opened KcpSpec
  import opened KcpNet
  import opened KcpSender
  import opened KcpReceiver
  import opened KcpSafety
  import opened KcpPlain

  // ---- the wrapped state ----

  function WrapPacket(h: Packet): Packet { h.(sn := U32(h.sn), una := U32(h.una)) }

  function WrapPackets(ps: seq<Packet>): (r: seq<Packet>)
    ensures |r| == |ps| && forall i :: 0 <= i < |ps| ==> r[i] == WrapPacket(ps[i])
  {
    seq(|ps|, i requires 0 <= i < |ps| => WrapPacket(ps[i]))
  }

  function WrapSegment(s: Segment): Segment { s.(pkt := WrapPacket(s.pkt)) }

  function WrapSegments(ss: seq<Segment>): (r: seq<Segment>)
    ensures |r| == |ss| && forall i :: 0 <= i < |ss| ==> r[i] == WrapSegment(ss[i])
  {
    seq(|ss|, i requires 0 <= i < |ss| => WrapSegment(ss[i]))
  }

  function WrapSender(s: Sender): Sender {
    Sender(U32(s.una), U32(s.nxt), WrapSegments(s.queue), WrapSegments(s.buf), s.nQue, s.nBuf)
  }

  function WrapReceiver(r: Receiver): Receiver {
    Receiver(U32(r.nxt), WrapPackets(r.queue), WrapPackets(r.buf), r.nQue, r.nBuf)
  }

  function WrapAcks(acks: seq<Ack>): (r: seq<Ack>)
    ensures |r| == |acks| && forall i :: 0 <= i < |acks| ==> r[i] == Ack(U32(acks[i].sn), acks[i].ts)
  {
    seq(|acks|, i requires 0 <= i < |acks| => Ack(U32(acks[i].sn), acks[i].ts))
  }

  function WrapPcb(p: Pcb): Pcb {
    p.(snd := WrapSender(p.snd), rcv := WrapReceiver(p.rcv), acks := WrapAcks(p.acks))
  }

  function WrapOut(out: seq<Datagram>): (r: seq<Datagram>)
    ensures |r| == |out|
    ensures forall i :: 0 <= i < |out| ==>
              r[i] == if out[i].Packets? then Bytes(EncodeAll(WrapPackets(out[i].ps))) else out[i]
  {
    seq(|out|, i requires 0 <= i < |out| =>
      if out[i].Packets? then Bytes(EncodeAll(WrapPackets(out[i].ps))) else out[i])
  }

  function WrapPeer(x: Peer): Peer { x.(p := WrapPcb(x.p), out := WrapOut(x.out)) }

  // ---- comparisons ----

  /** Numbers whose distance the 32-bit comparison can tell. */
  predicate Close(a: int, b: int) { -TWO31 <= a - b < TWO31 }

  lemma DiffWraps(a: int, b: int)
    requires Close(a, b)
    ensures SeqDiff(Machine32, U32(a), U32(b)) == SeqDiff(Unbounded, a, b)
    ensures U32(a) == U32(b) <==> a == b
  {
    SerialAgrees(a, b);
    WrapInjective(a, b);
  }

  /** Comparing with a sum, as the window checks do. */
  lemma DiffSumWraps(a: int, b: int, k: int)
    requires Close(a, b + k)
    ensures SeqDiff(Machine32, U32(a), SeqAdd(Machine32, U32(b), k)) == SeqDiff(Unbounded, a, SeqAdd(Unbounded, b, k))
  {
    WrapAdd(b, k);
    SerialAgrees(a, b + k);
  }

  /** The wrapped comparison of any two numbers, by their distance modulo 2^32. */
  lemma Forward(a: int, b: int)
    ensures var d := (a - b) % TWO32;
            TimeDiff(U32(a), U32(b)) == if d < TWO31 then d else d - TWO32
    ensures U32(a) == U32(b) <==> (a - b) % TWO32 == 0
  {
    var qa, qb := a / TWO32, b / TWO32;
    WrapShift(a - b, qb - qa);
    assert U32(a) - U32(b) == (a - b) + (qb - qa) * TWO32;
    WrapShift(a, -qa);
  }

  /** Distances forward and backward add up to one cycle. */
  lemma Backward(a: int, b: int)
    ensures (b - a) % TWO32 == if (a - b) % TWO32 == 0 then 0 else TWO32 - (a - b) % TWO32
  {
  }

  /** Moving one number by k moves the distance, as long as it stays within the cycle. */
  lemma Shifted(x: int, k: int)
    requires 0 <= x % TWO32 + k < TWO32
    ensures (x + k) % TWO32 == x % TWO32 + k
  {
    WrapShift(x % TWO32 + k, x / TWO32);
    assert x + k == x % TWO32 + k + x / TWO32 * TWO32;
  }

  lemma SmallDistance(x: int)
    requires 0 <= x < TWO32
    ensures x % TWO32 == x
  {
  }

  // ---- sender ----

  predicate AllClose(buf: seq<Segment>, sn: int) {
    forall i :: 0 <= i < |buf| ==> Close(sn, buf[i].pkt.sn)
  }

  lemma WrapSegmentsTail(buf: seq<Segment>)
    requires buf != []
    ensures WrapSegments(buf)[1..] == WrapSegments(buf[1..])
    ensures WrapSegments(buf) == [WrapSegment(buf[0])] + WrapSegments(buf[1..])
  {
  }

  lemma {:induction false} DropAckedWraps(buf: seq<Segment>, una: int)
    requires AllClose(buf, una)
    ensures DropAcked(Machine32, WrapSegments(buf), U32(una)) == WrapSegments(DropAcked(Unbounded, buf, una))
    decreases |buf|
  {
    if buf != [] {
      DiffWraps(una, buf[0].pkt.sn);
      WrapSegmentsTail(buf);
      DropAckedWraps(buf[1..], una);
    }
  }

  lemma {:induction false} RemoveSnWraps(buf: seq<Segment>, sn: int)
    requires AllClose(buf, sn)
    ensures RemoveSn(Machine32, WrapSegments(buf), U32(sn)) == WrapSegments(RemoveSn(Unbounded, buf, sn))
    decreases |buf|
  {
    if buf != [] {
      DiffWraps(sn, buf[0].pkt.sn);
      WrapSegmentsTail(buf);
      RemoveSnWraps(buf[1..], sn);
      WrapSegmentsCons(buf[0], RemoveSn(Unbounded, buf[1..], sn));
    }
  }

  lemma WrapSegmentsCons(s: Segment, ss: seq<Segment>)
    ensures WrapSegments([s] + ss) == [WrapSegment(s)] + WrapSegments(ss)
  {
  }

  lemma WrapSegmentsConcat(a: seq<Segment>, b: seq<Segment>)
    ensures WrapSegments(a + b) == WrapSegments(a) + WrapSegments(b)
  {
  }

  lemma {:induction false} BumpFastAckWraps(buf: seq<Segment>, sn: int)
    requires AllClose(buf, sn)
    ensures BumpFastAck(Machine32, WrapSegments(buf), U32(sn)) == WrapSegments(BumpFastAck(Unbounded, buf, sn))
    decreases |buf|
  {
    if buf != [] {
      DiffWraps(sn, buf[0].pkt.sn);
      WrapSegmentsTail(buf);
      BumpFastAckWraps(buf[1..], sn);
      var first := if sn != buf[0].pkt.sn then buf[0].(fastAck := U32(buf[0].fastAck + 1)) else buf[0];
      WrapSegmentsCons(first, BumpFastAck(Unbounded, buf[1..], sn));
    }
  }

  /** A cumulative ack does not look newer than snd_una when it is older. */
  predicate UnaClear(s: Sender, una: int) {
    s.una <= una || s.buf == [] || (s.una - una) % TWO32 <= TWO31
  }

  /** A selective ack does not look like a number in flight when it is older. */
  predicate AckClear(s: Sender, sn: int) {
    s.una <= sn || s.nxt - s.una <= (sn - s.una) % TWO32
  }

  lemma SenderCloseTo(s: Sender, log: seq<Frag>, sn: int)
    requires SndOk(s, log) && s.una <= sn <= s.nxt
    ensures AllClose(s.buf, sn) && Close(sn, s.una) && Close(sn, s.nxt)
  {
  }

  lemma ShrinkWraps(s: Sender)
    ensures Shrink(WrapSender(s)) == WrapSender(Shrink(s))
  {
  }

  lemma ParseUnaWraps(s: Sender, una: int, log: seq<Frag>)
    requires SndOk(s, log) && una <= s.nxt && UnaClear(s, una)
    ensures ParseUna(Machine32, WrapSender(s), U32(una)) == WrapSender(ParseUna(Unbounded, s, una))
  {
    if s.una <= una {
      SenderCloseTo(s, log, una);
      DropAckedWraps(s.buf, una);
    } else if s.buf != [] {
      Forward(una, s.una);
      Backward(una, s.una);
    }
  }

  lemma InFlightWraps(s: Sender, sn: int, log: seq<Frag>)
    requires SndOk(s, log) && sn < s.nxt && AckClear(s, sn)
    ensures InFlight(Machine32, WrapSender(s), U32(sn)) == InFlight(Unbounded, s, sn)
  {
    if s.una <= sn {
      SenderCloseTo(s, log, sn);
      DiffWraps(sn, s.una);
      DiffWraps(sn, s.nxt);
    } else {
      Forward(sn, s.una);
      Forward(sn, s.nxt);
      if (sn - s.una) % TWO32 < TWO31 {
        Shifted(sn - s.una, s.una - s.nxt);
      }
    }
  }

  lemma ParseAckWraps(s: Sender, sn: int, log: seq<Frag>)
    requires SndOk(s, log) && sn < s.nxt && AckClear(s, sn)
    ensures ParseAck(Machine32, WrapSender(s), U32(sn)) == WrapSender(ParseAck(Unbounded, s, sn))
  {
    InFlightWraps(s, sn, log);
    if s.una <= sn {
      SenderCloseTo(s, log, sn);
      RemoveSnWraps(s.buf, sn);
    }
  }

  lemma ParseFastAckWraps(s: Sender, sn: int, log: seq<Frag>)
    requires SndOk(s, log) && sn < s.nxt && AckClear(s, sn)
    ensures ParseFastAck(Machine32, WrapSender(s), U32(sn)) == WrapSender(ParseFastAck(Unbounded, s, sn))
  {
    InFlightWraps(s, sn, log);
    if s.una <= sn {
      SenderCloseTo(s, log, sn);
      BumpFastAckWraps(s.buf, sn);
    }
  }

  /** An ack that is clear stays so while the window moves up. */
  lemma AckClearLater(s: Sender, s': Sender, sn: int)
    requires AckClear(s, sn) && s.una <= s'.una <= s'.nxt == s.nxt <= s.una + MAX_SPAN
    ensures AckClear(s', sn)
  {
    if sn < s'.una {
      if sn < s.una {
        Shifted(sn - s.una, s.una - s'.una);
      } else {
        Backward(sn, s'.una);
        SmallDistance(s'.una - sn);
      }
    }
  }

  // ---- receiver ----

  lemma WrapPacketsConcat(a: seq<Packet>, b: seq<Packet>)
    ensures WrapPackets(a + b) == WrapPackets(a) + WrapPackets(b)
  {
  }

  lemma {:induction false} InsertWraps(buf: seq<Packet>, p: Packet)
    requires forall i :: 0 <= i < |buf| ==> Close(p.sn, buf[i].sn)
    ensures Insert(Machine32, WrapPackets(buf), WrapPacket(p)) == WrapPackets(Insert(Unbounded, buf, p))
    decreases |buf|
  {
    if buf == [] {
      assert WrapPackets([p]) == [WrapPacket(p)];
    } else {
      var n := |buf| - 1;
      DiffWraps(p.sn, buf[n].sn);
      assert WrapPackets(buf)[..n] == WrapPackets(buf[..n]);
      InsertWraps(buf[..n], p);
      WrapPacketsConcat(Insert(Unbounded, buf[..n], p), [buf[n]]);
      WrapPacketsConcat(buf, [p]);
    }
  }

  lemma {:induction false} MoveReadyWraps(wnd: int, r: Receiver, log: seq<Frag>)
    requires RcvOk(r, wnd, log) && wnd < TWO31
    ensures MoveReady(Machine32, wnd, WrapReceiver(r)) == WrapReceiver(MoveReady(Unbounded, wnd, r))
    decreases |r.buf|
  {
    if r.buf != [] {
      WrapInjective(r.buf[0].sn, r.nxt);
      if r.buf[0].sn == r.nxt && r.nQue < wnd {
        MoveOneKeeps(wnd, r, log);
        var r1 := Receiver(r.nxt + 1, r.queue + [r.buf[0]], r.buf[1..], r.nQue + 1, r.nBuf - 1);
        WrapAdd(r.nxt, 1);
        WrapPacketsConcat(r.queue, [r.buf[0]]);
        assert WrapPackets(r.buf)[1..] == WrapPackets(r.buf[1..]);
        assert WrapPackets([r.buf[0]]) == [WrapPacket(r.buf[0])];
        MoveReadyWraps(wnd, r1, log);
      }
    }
  }

  /** Nothing in rcv_buf can move to rcv_queue. */
  predicate Settled(r: Receiver, wnd: int) {
    r.buf == [] || r.buf[0].sn != r.nxt || wnd <= r.nQue
  }

  /** The residue of a number is that of a buffered packet. */
  predicate Collides(buf: seq<Packet>, sn: int) {
    exists i :: 0 <= i < |buf| && U32(buf[i].sn) == U32(sn)
  }

  /** A data number looks to the machine as it is: one below the window as below, or as a
      repeat of a buffered packet; one above the window as above. */
  predicate PushClear(r: Receiver, wnd: int, sn: int) {
    if sn < r.nxt then
      0 < (r.nxt - sn) % TWO32 <= TWO31 - wnd || (Settled(r, wnd) && Collides(r.buf, sn))
    else sn < r.nxt + wnd || (sn - r.nxt - wnd) % TWO32 < TWO31
  }

  /** An old number at this distance is below the window for the machine too. */
  lemma BelowWindow(nxt: int, wnd: int, sn: int)
    requires sn < nxt && 0 < (nxt - sn) % TWO32 <= TWO31 - wnd && 0 <= wnd < TWO31
    ensures SeqDiff(Machine32, U32(sn), U32(nxt)) < 0
    ensures SeqDiff(Machine32, U32(sn), SeqAdd(Machine32, U32(nxt), wnd)) < 0
  {
    WrapAdd(nxt, wnd);
    Forward(sn, nxt);
    Forward(sn, nxt + wnd);
    Backward(sn, nxt);
    Shifted(sn - nxt, -wnd);
  }

  /** An old number that collides looks like the buffered one, inside the window. */
  lemma LooksBuffered(r: Receiver, wnd: int, sn: int, log: seq<Frag>) returns (i: nat)
    requires RcvOk(r, wnd, log) && 0 <= wnd < TWO31 && Collides(r.buf, sn)
    ensures i < |r.buf| && U32(r.buf[i].sn) == U32(sn)
    ensures SeqDiff(Machine32, U32(sn), SeqAdd(Machine32, U32(r.nxt), wnd)) < 0
    ensures SeqDiff(Machine32, U32(sn), U32(r.nxt)) >= 0
  {
    var j :| 0 <= j < |r.buf| && U32(r.buf[j].sn) == U32(sn);
    i := j;
    DiffWraps(r.buf[i].sn, r.nxt);
    DiffSumWraps(r.buf[i].sn, r.nxt, wnd);
  }

  /** A repeat of a buffered residue changes nothing. */
  lemma {:induction false} InsertCollides(buf: seq<Packet>, p: Packet, i: nat)
    requires KcpReceiver.Ascending(buf) && i < |buf| && U32(buf[i].sn) == U32(p.sn)
    requires forall j :: 0 <= j < |buf| ==> buf[|buf| - 1].sn - buf[j].sn < TWO31
    ensures Insert(Machine32, WrapPackets(buf), WrapPacket(p)) == WrapPackets(buf)
    decreases |buf|
  {
    hide U32, TimeDiff;
    var n := |buf| - 1;
    if i < n {
      DiffWraps(buf[i].sn, buf[n].sn);
      assert WrapPackets(buf)[..n] == WrapPackets(buf[..n]);
      InsertCollides(buf[..n], p, i);
      WrapPacketsConcat(buf[..n], [buf[n]]);
      assert WrapPackets([buf[n]]) == [WrapPacket(buf[n])];
      assert buf == buf[..n] + [buf[n]];
    }
  }

  lemma CollisionIsDropped(wnd: int, r: Receiver, p: Packet, log: seq<Frag>)
    requires RcvOk(r, wnd, log) && 0 <= wnd < TWO31 && Settled(r, wnd) && Collides(r.buf, p.sn)
    ensures ParseData(Machine32, wnd, WrapReceiver(r), WrapPacket(p)) == WrapReceiver(r)
    ensures SeqDiff(Machine32, U32(p.sn), SeqAdd(Machine32, U32(r.nxt), wnd)) < 0
    ensures SeqDiff(Machine32, U32(p.sn), U32(r.nxt)) >= 0
  {
    hide MoveReady, Insert;
    var i := LooksBuffered(r, wnd, p.sn, log);
    InsertCollides(r.buf, p, i);
    WrapInjective(r.buf[0].sn, r.nxt);
    SettledStays(Machine32, wnd, WrapReceiver(r));
  }

  lemma SettledStays(m: Arith, wnd: int, r: Receiver)
    requires Settled(r, wnd)
    ensures MoveReady(m, wnd, r) == r
  {
  }

  /** A number above the window, that looks so to the machine. */
  lemma AboveWindow(nxt: int, wnd: int, sn: int)
    requires (sn - nxt - wnd) % TWO32 < TWO31
    ensures SeqDiff(Machine32, U32(sn), SeqAdd(Machine32, U32(nxt), wnd)) >= 0
  {
    WrapAdd(nxt, wnd);
    Forward(sn, nxt + wnd);
  }

  lemma ParseDataWraps(wnd: int, r: Receiver, p: Packet, log: seq<Frag>)
    requires RcvOk(r, wnd, log) && 0 <= wnd < TWO31 && r.nxt <= p.sn < r.nxt + wnd
    requires p.sn < |log| && FragOf(p) == log[p.sn]
    ensures ParseData(Machine32, wnd, WrapReceiver(r), WrapPacket(p)) == WrapReceiver(ParseData(Unbounded, wnd, r, p))
  {
    hide MoveReady, Insert;
    DiffWraps(p.sn, r.nxt);
    DiffSumWraps(p.sn, r.nxt, wnd);
    InsertWraps(r.buf, p);
    InsertKeeps(r.buf, p, r.nxt, r.nxt + wnd, log);
    InsertAdds(r.buf, p);
    var buf := Insert(Unbounded, r.buf, p);
    MoveReadyWraps(wnd, r.(buf := buf, nBuf := r.nBuf + |buf| - |r.buf|), log);
  }

  // ---- input ----

  function WrapParsing(s: Parsing): Parsing { Parsing(WrapPcb(s.p), s.acked, U32(s.maxAck)) }

  /** What the cumulative ack of a packet leaves. */
  function AfterUna(s: Parsing, h: Packet): Parsing {
    s.(p := s.p.(rmtWnd := h.wnd, snd := Shrink(ParseUna(Unbounded, s.p.snd, h.una))))
  }

  /** The greater of two acks of one datagram looks greater. */
  predicate MaxClear(sn: int, maxAck: int) {
    if sn > maxAck then (sn - maxAck) % TWO32 < TWO31 else (maxAck - sn) % TWO32 <= TWO31
  }

  /** The greatest ack after one more, as `ikcp_input` keeps it. */
  function MaxOf(m: Arith, sn: int, maxAck: int): int {
    if SeqDiff(m, sn, maxAck) > 0 then sn else maxAck
  }

  lemma MaxWraps(sn: int, maxAck: int)
    requires MaxClear(sn, maxAck)
    ensures MaxOf(Machine32, U32(sn), U32(maxAck)) == U32(MaxOf(Unbounded, sn, maxAck))
  {
    Forward(sn, maxAck);
    Backward(sn, maxAck);
  }

  /** The machine reads the numbers of this packet as they are meant. */
  predicate ClearPacket(s: Parsing, h: Packet) {
    && UnaClear(s.p.snd, h.una)
    && (h.cmd == CMD_ACK ==> AckClear(AfterUna(s, h).p.snd, h.sn) && (s.acked ==> MaxClear(h.sn, s.maxAck)))
    && (h.cmd == CMD_PUSH ==> PushClear(s.p.rcv, s.p.cfg.rcvWnd, h.sn))
  }

  predicate ClearPackets(s: Parsing, ps: seq<Packet>)
    decreases |ps|
  {
    ps == [] || (ClearPacket(s, ps[0]) && ClearPackets(InputPacket(Unbounded, s, ps[0]), ps[1..]))
  }

  predicate AcksAssigned(ps: seq<Packet>, n: int) {
    forall i :: 0 <= i < |ps| && ps[i].cmd == CMD_ACK ==> ps[i].sn < n
  }

  /** The greatest ack of the datagram so far is clear. */
  predicate ClearParsing(s: Parsing) {
    s.acked ==> s.maxAck < s.p.snd.nxt && AckClear(s.p.snd, s.maxAck)
  }

  lemma InputAckWraps(s: Parsing, h: Packet, xlog: seq<Frag>)
    requires SndOk(s.p.snd, xlog) && h.sn < s.p.snd.nxt && AckClear(s.p.snd, h.sn)
    requires s.acked ==> MaxClear(h.sn, s.maxAck)
    ensures InputAck(Machine32, WrapParsing(s), WrapPacket(h)) == WrapParsing(InputAck(Unbounded, s, h))
  {
    hide ParseAck, UpdateAck;
    ParseAckWraps(s.p.snd, h.sn, xlog);
    ShrinkWraps(ParseAck(Unbounded, s.p.snd, h.sn));
    if s.acked {
      MaxWraps(h.sn, s.maxAck);
    }
  }

  lemma InputAckClear(s: Parsing, h: Packet, xlog: seq<Frag>)
    requires SndOk(s.p.snd, xlog) && 0 <= h.sn < s.p.snd.nxt && AckClear(s.p.snd, h.sn) && ClearParsing(s)
    ensures ClearParsing(InputAck(Unbounded, s, h))
  {
    hide ParseAck, UpdateAck, AckClear;
    var s' := Shrink(ParseAck(Unbounded, s.p.snd, h.sn));
    ParseAckNxt(Unbounded, s.p.snd, h.sn);
    ParseAckKeeps(s.p.snd, h.sn, xlog);
    AckClearLater(s.p.snd, s', h.sn);
    if s.acked {
      AckClearLater(s.p.snd, s', s.maxAck);
    }
  }

  lemma ParseAckNxt(m: Arith, s: Sender, sn: int)
    ensures ParseAck(m, s, sn).nxt == s.nxt
  {
  }

  lemma InputPushWraps(p: Pcb, h: Packet, ylog: seq<Frag>)
    requires RcvOk(p.rcv, p.cfg.rcvWnd, ylog) && 0 <= p.cfg.rcvWnd < TWO31
    requires PushClear(p.rcv, p.cfg.rcvWnd, h.sn) && 0 <= h.sn < |ylog| && FragOf(h) == ylog[h.sn]
    ensures InputPush(Machine32, WrapPcb(p), WrapPacket(h)) == WrapPcb(InputPush(Unbounded, p, h))
  {
    hide ParseData, WrapReceiver, Settled, Collides;
    var r, wnd := p.rcv, p.cfg.rcvWnd;
    RcvFields(r);
    assert WrapAcks(p.acks + [Ack(h.sn, h.ts)]) == WrapAcks(p.acks) + [Ack(U32(h.sn), h.ts)];
    if r.nxt + wnd <= h.sn {
      AboveWindow(r.nxt, wnd, h.sn);
    } else if r.nxt <= h.sn {
      ParseDataWraps(wnd, r, h, ylog);
      DiffWraps(h.sn, r.nxt);
      DiffSumWraps(h.sn, r.nxt, wnd);
    } else if 0 < (r.nxt - h.sn) % TWO32 <= TWO31 - wnd {
      BelowWindow(r.nxt, wnd, h.sn);
    } else {
      CollisionIsDropped(wnd, r, h, ylog);
    }
  }

  lemma RcvFields(r: Receiver)
    ensures WrapReceiver(r).nxt == U32(r.nxt)
  {
  }

  lemma InputPacketWraps(s: Parsing, h: Packet, xlog: seq<Frag>, yr: Receiver, ylog: seq<Frag>)
    requires InputInv(s.p, xlog, yr, ylog) && PacketOk(h, ylog, yr) && ConfigOk(s.p.cfg)
    requires ClearPacket(s, h) && ClearParsing(s) && AcksAssigned([h], |xlog|)
    ensures InputPacket(Machine32, WrapParsing(s), WrapPacket(h)) == WrapParsing(InputPacket(Unbounded, s, h))
    ensures ClearParsing(InputPacket(Unbounded, s, h))
  {
    hide DropAcked, InputAck, InputPush, MoveReady, AckClear, PushClear, UnaClear;
    assert [h][0] == h;
    var t := AfterUna(s, h);
    AfterUnaWraps(s, h, xlog, yr);
    if h.cmd == CMD_ACK {
      InputAckWraps(t, h, xlog);
      InputAckClear(t, h, xlog);
    } else if h.cmd == CMD_PUSH {
      InputPushWraps(t.p, h, ylog);
      InputPushSender(t.p, h);
    }
  }

  lemma AfterUnaWraps(s: Parsing, h: Packet, xlog: seq<Frag>, yr: Receiver)
    requires SndOk(s.p.snd, xlog) && NoLoss(s.p.snd, yr, |xlog|) && 0 <= h.una <= yr.nxt <= |xlog|
    requires UnaClear(s.p.snd, h.una) && ClearParsing(s)
    ensures WrapParsing(AfterUna(s, h))
         == WrapParsing(s).(p := WrapPcb(s.p).(rmtWnd := h.wnd,
              snd := Shrink(ParseUna(Machine32, WrapSender(s.p.snd), U32(h.una)))))
    ensures SndOk(AfterUna(s, h).p.snd, xlog) && ClearParsing(AfterUna(s, h))
    ensures NoLoss(AfterUna(s, h).p.snd, yr, |xlog|)
  {
    hide ParseUna, AckClear, NoLoss;
    ParseUnaWraps(s.p.snd, h.una, xlog);
    ShrinkWraps(ParseUna(Unbounded, s.p.snd, h.una));
    UnaKeeps(s.p.snd, h.una, xlog, yr);
    ParseUnaKeeps(s.p.snd, h.una, xlog);
    if s.acked {
      AckClearLater(s.p.snd, AfterUna(s, h).p.snd, s.maxAck);
    }
  }

  lemma InputPushSender(p: Pcb, h: Packet)
    ensures InputPush(Unbounded, p, h).snd == p.snd
  {
  }

  lemma {:induction false} InputPacketsWrap(s: Parsing, ps: seq<Packet>, xlog: seq<Frag>, yr: Receiver, ylog: seq<Frag>)
    requires InputInv(s.p, xlog, yr, ylog) && PacketsOk(ps, ylog, yr) && ConfigOk(s.p.cfg)
    requires ClearPackets(s, ps) && ClearParsing(s) && AcksAssigned(ps, |xlog|)
    ensures InputPackets(Machine32, WrapParsing(s), WrapPackets(ps)) == WrapParsing(InputPackets(Unbounded, s, ps))
    ensures ClearParsing(InputPackets(Unbounded, s, ps))
    decreases |ps|
  {
    hide InputPacket, ClearPacket, ClearParsing;
    if ps != [] {
      InputPacketWraps(s, ps[0], xlog, yr, ylog);
      InputPacketKeeps(s, ps[0], xlog, yr, ylog);
      InputPacketKeepsConfig(Unbounded, s, ps[0]);
      assert WrapPackets(ps)[1..] == WrapPackets(ps[1..]);
      InputPacketsWrap(InputPacket(Unbounded, s, ps[0]), ps[1..], xlog, yr, ylog);
    }
  }

  lemma FinishWraps(s: Parsing, prevUna: int, xlog: seq<Frag>)
    requires 0 < s.p.cfg.mss && SndOk(s.p.snd, xlog) && ClearParsing(s)
    requires |xlog| - MAX_SPAN <= prevUna <= |xlog|
    ensures FinishInput(Machine32, WrapParsing(s), U32(prevUna)) == WrapPcb(FinishInput(Unbounded, s, prevUna))
  {
    hide GrowCwnd, ParseFastAck;
    if s.acked {
      ParseFastAckWraps(s.p.snd, s.maxAck, xlog);
      ParseFastAckUna(s.p.snd, s.maxAck);
    }
    DiffWraps(s.p.snd.una, prevUna);
  }

  lemma ParseFastAckUna(s: Sender, sn: int)
    ensures ParseFastAck(Unbounded, s, sn).una == s.una
  {
  }

  lemma InputDatagramWraps(p: Pcb, ps: seq<Packet>, xlog: seq<Frag>, yr: Receiver, ylog: seq<Frag>)
    requires ConfigOk(p.cfg) && InputInv(p, xlog, yr, ylog) && PacketsOk(ps, ylog, yr)
    requires ClearPackets(Parsing(p, false, 0), ps) && AcksAssigned(ps, |xlog|)
    ensures InputDatagram(Machine32, WrapPcb(p), WrapPackets(ps)) == WrapPcb(InputDatagram(Unbounded, p, ps))
  {
    hide FinishInput, InputPackets;
    var s0 := Parsing(p, false, 0);
    InputPacketsWrap(s0, ps, xlog, yr, ylog);
    InputPacketsKeeps(s0, ps, xlog, yr, ylog);
    InputPacketsKeepsConfig(Unbounded, s0, ps);
    FinishWraps(InputPackets(Unbounded, s0, ps), p.snd.una, xlog);
    assert WrapParsing(s0) == Parsing(WrapPcb(p), false, 0);
  }

  // ---- bytes ----

  /** The parsing loop on the encoding of well-formed packets is the packet loop. */
  lemma {:induction false} InputLoopIsPackets(s: Parsing, ps: seq<Packet>)
    requires AllEncodable(ps)
    requires forall i :: 0 <= i < |ps| ==> ps[i].conv == s.p.cfg.conv && KnownCommand(ps[i].cmd)
    ensures InputLoop(s, EncodeAll(ps)) == (InputPackets(Machine32, s, ps), 0)
    decreases |ps|
  {
    hide InputPacket, Encode;
    if ps != [] {
      EncodeAllCons(ps[0], ps[1..]);
      assert ps == [ps[0]] + ps[1..];
      DecodeEncode(ps[0], EncodeAll(ps[1..]));
      InputPacketKeepsConfig(Machine32, s, ps[0]);
      InputLoopIsPackets(InputPacket(Machine32, s, ps[0]), ps[1..]);
    }
  }

  /** `ikcp_input` on a datagram as its peer encoded it. */
  lemma InputIsDatagram(p: Pcb, ps: seq<Packet>)
    requires 0 < p.cfg.mss && ps != [] && AllEncodable(ps)
    requires forall i :: 0 <= i < |ps| ==> ps[i].conv == p.cfg.conv && KnownCommand(ps[i].cmd)
    ensures Input(p, EncodeAll(ps)) == (InputDatagram(Machine32, p, ps), 0)
  {
    hide InputPackets, InputLoop, FinishInput;
    EncodeAllSize(ps);
    assert WireSize(ps) >= OVERHEAD;
    InputLoopIsPackets(Parsing(p, false, 0), ps);
  }

  // ---- the other entry points ----

  lemma {:induction false} FragmentsWrap(data: bytes, mss: int, count: nat, stream: bool)
    requires 0 < mss
    ensures WrapSegments(Fragments(data, mss, count, stream)) == Fragments(data, mss, count, stream)
    decreases count
  {
    if count > 0 {
      var size := Min(|data|, mss);
      FragmentsWrap(data[size..], mss, count - 1, stream);
      WrapSegmentsCons(Blank(if stream then 0 else count - 1, data[..size]),
                       Fragments(data[size..], mss, count - 1, stream));
    }
  }

  lemma ExtendedWraps(p: Pcb, data: bytes)
    ensures Extension(WrapPcb(p), data) == Extension(p, data)
    ensures Extended(WrapPcb(p), data) == WrapSegments(Extended(p, data))
  {
  }

  lemma SendWraps(p: Pcb, data: bytes)
    requires 0 < p.cfg.mss
    ensures KcpSpec.Send(WrapPcb(p), data) == (WrapPcb(KcpSpec.Send(p, data).0), KcpSpec.Send(p, data).1)
  {
    hide Fragments;
    ExtendedWraps(p, data);
    var rest := data[Extension(p, data)..];
    var count := FragmentCount(|rest|, p.cfg.mss);
    FragmentsWrap(rest, p.cfg.mss, count, p.cfg.stream);
    WrapSegmentsConcat(Extended(p, data), Fragments(rest, p.cfg.mss, count, p.cfg.stream));
  }

  lemma {:induction false} FirstMessageWraps(q: seq<Packet>)
    ensures FirstMessage(WrapPackets(q)) == FirstMessage(q)
    decreases |q|
  {
    if q != [] {
      assert WrapPackets(q)[1..] == WrapPackets(q[1..]);
      FirstMessageWraps(q[1..]);
    }
  }

  lemma {:induction false} PayloadWraps(q: seq<Packet>)
    ensures Payload(WrapPackets(q)) == Payload(q)
    decreases |q|
  {
    if q != [] {
      assert WrapPackets(q)[..|q| - 1] == WrapPackets(q[..|q| - 1]);
      PayloadWraps(q[..|q| - 1]);
    }
  }

  lemma PeekSizeWraps(r: Receiver)
    ensures PeekSize(WrapReceiver(r)) == PeekSize(r)
  {
    FirstMessageWraps(r.queue);
    var k := FirstMessage(r.queue);
    assert WrapPackets(r.queue)[..k] == WrapPackets(r.queue[..k]);
    PayloadWraps(r.queue[..k]);
  }

  /** What a receive leaves once its first n fragments are taken. */
  function AfterTaking(m: Arith, r: Receiver, wnd: int, n: nat): Receiver
    requires n <= |r.queue|
  {
    MoveReady(m, wnd, r.(queue := r.queue[n..], nQue := r.nQue - n))
  }

  lemma TakenWraps(r: Receiver, n: nat, wnd: int, log: seq<Frag>)
    requires RcvOk(r, wnd, log) && wnd < TWO31 && n <= |r.queue|
    ensures AfterTaking(Machine32, WrapReceiver(r), wnd, n) == WrapReceiver(AfterTaking(Unbounded, r, wnd, n))
  {
    hide MoveReady;
    TakeKeeps(r, n, wnd, log);
    var t := r.(queue := r.queue[n..], nQue := r.nQue - n);
    MoveReadyWraps(wnd, t, log);
    assert WrapPackets(r.queue)[n..] == WrapPackets(r.queue[n..]);
    assert WrapReceiver(t) == WrapReceiver(r).(queue := WrapPackets(r.queue)[n..], nQue := r.nQue - n);
  }

  lemma TakenNone(m: Arith, r: Receiver, wnd: int)
    ensures AfterTaking(m, r, wnd, 0) == MoveReady(m, wnd, r)
  {
    hide MoveReady;
    assert r.queue[0..] == r.queue;
    assert r.(queue := r.queue[0..], nQue := r.nQue - 0) == r;
  }

  lemma RecvWraps(p: Pcb, len: int, log: seq<Frag>)
    requires RcvOk(p.rcv, p.cfg.rcvWnd, log) && p.cfg.rcvWnd < TWO31
    ensures var r := KcpSpec.Recv(Unbounded, p, len);
            KcpSpec.Recv(Machine32, WrapPcb(p), len) == r.(p := WrapPcb(r.p))
  {
    hide PeekSize, FirstMessage, Payload, MoveReady, RcvOk;
    PeekSizeWraps(p.rcv);
    FirstMessageWraps(p.rcv.queue);
    var k := FirstMessage(p.rcv.queue);
    assert WrapPackets(p.rcv.queue)[..k] == WrapPackets(p.rcv.queue[..k]);
    PayloadWraps(p.rcv.queue[..k]);
    TakenNone(Unbounded, p.rcv, p.cfg.rcvWnd);
    TakenNone(Machine32, WrapReceiver(p.rcv), p.cfg.rcvWnd);
    TakenWraps(p.rcv, 0, p.cfg.rcvWnd, log);
    if k <= |p.rcv.queue| {
      TakenWraps(p.rcv, k, p.cfg.rcvWnd, log);
    }
  }

  lemma NumberedWraps(p: Pcb, s: Segment, sn: int)
    ensures Numbered(WrapPcb(p), WrapSegment(s), U32(sn)) == WrapSegment(Numbered(p, s, sn))
  {
  }

  lemma {:induction false} AdmitWraps(p: Pcb, s: Sender, cwnd: int)
    requires 0 <= s.nxt - s.una <= MAX_SPAN && 0 <= cwnd <= MAX_SPAN
    ensures Admit(Machine32, WrapPcb(p), WrapSender(s), cwnd) == WrapSender(Admit(Unbounded, p, s, cwnd))
    decreases |s.queue|
  {
    hide Numbered;
    DiffSumWraps(s.nxt, s.una, cwnd);
    if s.nxt < s.una + cwnd && s.queue != [] {
      var seg := Numbered(p, s.queue[0], s.nxt);
      var s1 := Sender(s.una, s.nxt + 1, s.queue[1..], s.buf + [seg], s.nQue - 1, s.nBuf + 1);
      WrapAdd(s.nxt, 1);
      WrapSegmentsTail(s.queue);
      WrapSegmentsConcat(s.buf, [seg]);
      NumberedWraps(p, s.queue[0], s.nxt);
      assert WrapSegments([seg]) == [WrapSegment(seg)];
      AdmitWraps(p, s1, cwnd);
    }
  }

  lemma DecideWraps(p: Pcb, s: Segment)
    ensures var d := Decide(p, s);
            Decide(WrapPcb(p), WrapSegment(s)) == d.(seg := WrapSegment(d.seg))
  {
  }

  function WrapDecisions(ds: seq<Decision>): (r: seq<Decision>)
    ensures |r| == |ds| && forall i :: 0 <= i < |ds| ==> r[i] == ds[i].(seg := WrapSegment(ds[i].seg))
  {
    seq(|ds|, i requires 0 <= i < |ds| => ds[i].(seg := WrapSegment(ds[i].seg)))
  }

  lemma {:induction false} AccountWraps(c: Config, t: Tally, ds: seq<Decision>)
    ensures var r := AccountAll(c, t, ds);
            AccountAll(c, t.(out := WrapPackets(t.out)), WrapDecisions(ds)) == r.(out := WrapPackets(r.out))
    decreases |ds|
  {
    if ds != [] {
      var n := |ds| - 1;
      AccountWraps(c, t, ds[..n]);
      assert WrapDecisions(ds)[..n] == WrapDecisions(ds[..n]);
      var out, pkt := AccountAll(c, t, ds[..n]).out, OnWire(ds[n].seg.pkt);
      WrapPacketsConcat(out, [pkt]);
      assert WrapPackets([pkt]) == [WrapPacket(pkt)];
    }
  }

  lemma ResendWraps(p: Pcb, buf: seq<Segment>)
    ensures var r := Resend(p, buf);
            Resend(WrapPcb(p), WrapSegments(buf)) == r.(out := WrapPackets(r.out))
    ensures SegmentsOf(Decisions(WrapPcb(p), WrapSegments(buf))) == WrapSegments(SegmentsOf(Decisions(p, buf)))
  {
    hide Decide, AccountAll;
    var ds := Decisions(p, buf);
    forall i | 0 <= i < |buf| ensures Decisions(WrapPcb(p), WrapSegments(buf))[i] == WrapDecisions(ds)[i] {
      DecideWraps(p, buf[i]);
    }
    assert Decisions(WrapPcb(p), WrapSegments(buf)) == WrapDecisions(ds);
    AccountWraps(p.cfg, Tally([], false, false, p.xmit, p.dead), ds);
    assert WrapPackets([]) == [];
  }

  lemma ControlsWrap(p: Pcb, b: Probe)
    ensures AckPackets(WrapPcb(p)) == WrapPackets(AckPackets(p))
    ensures ProbePackets(WrapPcb(p), b) == WrapPackets(ProbePackets(p, b))
  {
    assert AckPackets(WrapPcb(p)) == WrapPackets(AckPackets(p));
    var a := if p.acks == [] then Ack(0, 0) else p.acks[|p.acks| - 1];
    var ask, tell := Control(p, CMD_WASK, a), Control(p, CMD_WINS, a);
    WrapPacketsConcat(if b.ask then [ask] else [], if b.tell then [tell] else []);
    assert WrapPackets([ask]) == [WrapPacket(ask)] && WrapPackets([tell]) == [WrapPacket(tell)];
  }

  lemma ReactWraps(p: Pcb, s: Sender, lost: bool, fast: bool, cwnd: int)
    requires 0 <= s.nxt - s.una < TWO32
    ensures ReactToLoss(Machine32, WrapPcb(p), WrapSender(s), lost, fast, cwnd)
         == ReactToLoss(Unbounded, p, s, lost, fast, cwnd)
  {
    WrapSub(s.nxt, s.una);
  }

  lemma FlushNowWraps(p: Pcb, log: seq<Frag>)
    requires SndOk(p.snd, log) && 0 <= p.cc.cwnd && 0 <= p.rmtWnd < TWO16 && 0 <= p.cfg.sndWnd
    ensures var r := FlushNow(Unbounded, p);
            FlushNow(Machine32, WrapPcb(p)) == FlushResult(WrapPcb(r.p), WrapPackets(r.out))
  {
    hide Admit, Resend, Decisions, ReactToLoss, ProbePackets, AckPackets, ProbeTimer;
    var cwnd := EffectiveWindow(p);
    var s := Admit(Unbounded, p, p.snd, cwnd);
    var timer := ProbeTimer(p.probe, p.rmtWnd, p.current);
    AdmitWraps(p, p.snd, cwnd);
    var k := AdmitKeeps(p, p.snd, cwnd, log);
    ResendWraps(p, s.buf);
    ControlsWrap(p, timer);
    var t := Resend(p, s.buf);
    ReactWraps(p, s, t.lost, t.fast, cwnd);
    WrapPacketsConcat(AckPackets(p), ProbePackets(p, timer));
    WrapPacketsConcat(AckPackets(p) + ProbePackets(p, timer), t.out);
    assert WrapAcks([]) == [];
  }

  // ---- packing ----

  function WrapEach(ds: seq<seq<Packet>>): (r: seq<seq<Packet>>)
    ensures |r| == |ds| && forall i :: 0 <= i < |ds| ==> r[i] == WrapPackets(ds[i])
  {
    seq(|ds|, i requires 0 <= i < |ds| => WrapPackets(ds[i]))
  }

  lemma {:induction false} WireSizeWraps(ps: seq<Packet>)
    ensures WireSize(WrapPackets(ps)) == WireSize(ps)
    decreases |ps|
  {
    if ps != [] {
      assert WrapPackets(ps)[..|ps| - 1] == WrapPackets(ps[..|ps| - 1]);
      WireSizeWraps(ps[..|ps| - 1]);
    }
  }

  function WrapPacking(s: Packing): Packing { Packing(WrapEach(s.done), WrapPackets(s.cur)) }

  lemma PackOneWraps(s: Packing, p: Packet, mtu: int)
    ensures PackOne(WrapPacking(s), WrapPacket(p), mtu) == WrapPacking(PackOne(s, p, mtu))
  {
    WireSizeWraps(s.cur);
    hide WireSize;
    WrapPacketsConcat(s.cur, [p]);
    assert WrapPackets([p]) == [WrapPacket(p)];
    assert WrapEach(s.done + [s.cur]) == WrapEach(s.done) + [WrapPackets(s.cur)];
  }

  lemma {:induction false} PackAllWraps(ps: seq<Packet>, mtu: int)
    ensures PackAll(WrapPackets(ps), mtu) == WrapPacking(PackAll(ps, mtu))
    decreases |ps|
  {
    if ps == [] {
      assert WrapEach([]) == [] && WrapPackets([]) == [];
    } else {
      hide PackOne;
      var n := |ps| - 1;
      PackAllWraps(ps[..n], mtu);
      assert WrapPackets(ps)[..n] == WrapPackets(ps[..n]);
      PackOneWraps(PackAll(ps[..n], mtu), ps[n], mtu);
    }
  }

  lemma EmitWraps(ps: seq<Packet>, mtu: int)
    ensures Emit(Machine32, Datagrams(WrapPackets(ps), mtu)) == WrapOut(Emit(Unbounded, Datagrams(ps, mtu)))
  {
    PackAllWraps(ps, mtu);
    var s := PackAll(ps, mtu);
    assert WrapEach(s.done + [s.cur]) == WrapEach(s.done) + [WrapPackets(s.cur)];
    assert Datagrams(WrapPackets(ps), mtu) == WrapEach(Datagrams(ps, mtu));
  }

  lemma WrapOutConcat(a: seq<Datagram>, b: seq<Datagram>)
    ensures WrapOut(a + b) == WrapOut(a) + WrapOut(b)
  {
  }

  lemma AdmittedWraps(x: Peer, y: Peer)
    requires Inv(x, y) && Plain(x)
    ensures AdmittedCount(Machine32, WrapPcb(x.p)) == AdmittedCount(Unbounded, x.p)
    ensures var k := AdmittedCount(Unbounded, x.p);
            Frags(WrapSegments(x.p.snd.queue)[..k]) == Frags(x.p.snd.queue[..k])
  {
    AdmitWraps(x.p, x.p.snd, EffectiveWindow(x.p));
    var k := AdmittedCount(Unbounded, x.p);
    hide Admit, EffectiveWindow, Inv, Plain;
    assert WrapSegments(x.p.snd.queue)[..k] == WrapSegments(x.p.snd.queue[..k]);
    assert Frags(WrapSegments(x.p.snd.queue[..k])) == Frags(x.p.snd.queue[..k]);
  }

  lemma DoFlushWraps(x: Peer, y: Peer)
    requires Inv(x, y) && Plain(x)
    ensures DoFlush(Machine32, WrapPeer(x)) == WrapPeer(DoFlush(Unbounded, x))
  {
    if x.p.updated {
      var r := FlushNow(Unbounded, x.p);
      FlushNowWraps(x.p, x.log);
      hide FlushNow, Emit, Datagrams, AdmittedCount, Frags, Inv, Plain, WrapSender, WrapReceiver;
      EmitWraps(r.out, x.p.cfg.mtu);
      WrapOutConcat(x.out, Emit(Unbounded, Datagrams(r.out, x.p.cfg.mtu)));
      AdmittedWraps(x, y);
    }
  }

  // ---- runs ----

  /** The machine reads every number of a datagram that is delivered to x as it is meant. */
  predicate Timely(d: Datagram, x: Peer) {
    d.Packets? ==> ClearPackets(Parsing(x.p, false, 0), d.ps)
  }

  predicate TimelyOp(x: Peer, y: Peer, op: Op) {
    op.Deliver? && op.k < |y.out| ==> Timely(y.out[op.k], x)
  }

  lemma DeliveredIsEncodable(x: Peer, y: Peer, k: nat)
    requires Inv(x, y) && Plain(y) && k < |y.out| && x.p.cfg.conv == y.p.cfg.conv
    ensures var ps := WrapPackets(y.out[k].ps);
            && ps != [] && AllEncodable(ps)
            && forall i :: 0 <= i < |ps| ==> ps[i].conv == x.p.cfg.conv && KnownCommand(ps[i].cmd)
  {
    var ps := y.out[k].ps;
    assert PlainDatagram(y.out[k], y.p.cfg) && PacketsOk(ps, y.log, y.p.rcv);
    forall i | 0 <= i < |ps| ensures Encodable(WrapPacket(ps[i])) && KnownCommand(ps[i].cmd) {
      assert PlainPacket(ps[i], y.p.cfg) && PacketOk(ps[i], y.log, y.p.rcv);
    }
  }

  lemma DeliveredAcks(x: Peer, y: Peer, k: nat)
    requires Inv(x, y) && k < |y.out|
    ensures AcksAssigned(y.out[k].ps, |x.log|)
  {
    var ps := y.out[k].ps;
    assert PacketsOk(ps, y.log, y.p.rcv);
    forall i | 0 <= i < |ps| && ps[i].cmd == CMD_ACK ensures ps[i].sn < |x.log| {
      assert PacketOk(ps[i], y.log, y.p.rcv);
    }
  }

  lemma DeliverWraps(x: Peer, y: Peer, k: nat)
    requires Inv(x, y) && Plain(x) && Plain(y) && k < |y.out| && x.p.cfg.conv == y.p.cfg.conv
    requires Timely(y.out[k], x)
    ensures DoInput(Machine32, WrapPeer(x), WrapOut(y.out)[k]) == WrapPeer(DoInput(Unbounded, x, y.out[k]))
  {
    hide Input, InputDatagram;
    var ps := y.out[k].ps;
    assert PacketsOk(ps, y.log, y.p.rcv);
    DeliveredIsEncodable(x, y, k);
    DeliveredAcks(x, y, k);
    InputIsDatagram(WrapPcb(x.p), WrapPackets(ps));
    InputDatagramWraps(x.p, ps, x.log, y.p.rcv, y.log);
  }

  lemma DoWraps(x: Peer, y: Peer, op: Op)
    requires Inv(x, y) && Plain(x) && Plain(y) && x.p.cfg.conv == y.p.cfg.conv
    requires TimelyOp(x, y, op)
    ensures Do(Machine32, WrapPeer(x), WrapPeer(y), op) == WrapPeer(Do(Unbounded, x, y, op))
  {
    hide KcpSpec.Send, KcpSpec.Recv, DoFlush, DoInput, DoUpdate;
    hide RcvOk, SndOk, NoLoss, OutOk, AcksOk, Chained, Delivered;
    match op
    case Send(data) =>
      SendWraps(x.p, data);
      ExtendedWraps(x.p, data);
    case Recv(len) => RecvWraps(x.p, len, y.log);
    case Update(now) => UpdateWraps(x, y, now);
    case Flush => DoFlushWraps(x, y);
    case Deliver(k) => if k < |y.out| { DeliverWraps(x, y, k); }
  }

  lemma TickWraps(x: Peer, y: Peer, now: int)
    requires Inv(x, y) && Plain(x)
    ensures var t := Tick(x.p, U32(now));
            && Tick(WrapPcb(x.p), U32(now)) == (WrapPcb(t.0), t.1)
            && Inv(x.(p := t.0), y) && Plain(x.(p := t.0))
  {
    hide Inv, Plain, U32;
    TickPlain(x, U32(now));
    TickKeeps(x, y, U32(now));
  }

  lemma UpdateWraps(x: Peer, y: Peer, now: int)
    requires Inv(x, y) && Plain(x)
    ensures DoUpdate(Machine32, WrapPeer(x), now) == WrapPeer(DoUpdate(Unbounded, x, now))
  {
    hide DoFlush, Tick, Inv, Plain;
    TickWraps(x, y, now);
    DoFlushWraps(x.(p := Tick(x.p, U32(now)).0), y);
  }

  function WrapSystem(s: System): System { System(WrapPeer(s.a), WrapPeer(s.b)) }

  predicate TimelyEvent(s: System, e: Event) {
    if e.atA then TimelyOp(s.a, s.b, e.op) else TimelyOp(s.b, s.a, e.op)
  }

  /** Every delivery of the run is timely. */
  predicate TimelyRun(s: System, es: seq<Event>)
    requires Running(s)
  {
    es == [] || (TimelyRun(s, es[..|es| - 1]) && TimelyEvent(Run(Unbounded, s, es[..|es| - 1]), es[|es| - 1]))
  }

  /** The 32-bit machine, exchanging bytes, runs exactly as the unbounded protocol does. */
  lemma {:induction false} MachineRunsWrapped(ca: Config, cb: Config, es: seq<Event>)
    requires Compatible(ca, cb) && TimelyRun(Start(ca, cb), es)
    ensures Run(Machine32, Start(ca, cb), es) == WrapSystem(Run(Unbounded, Start(ca, cb), es))
    decreases |es|
  {
    hide Do;
    if es == [] {
      StartWraps(ca);
      StartWraps(cb);
    } else {
      var n := |es| - 1;
      var s := Run(Unbounded, Start(ca, cb), es[..n]);
      MachineRunsWrapped(ca, cb, es[..n]);
      RunInv(ca, cb, es[..n]);
      RunPlain(ca, cb, es[..n]);
      if es[n].atA {
        DoWraps(s.a, s.b, es[n].op);
      } else {
        DoWraps(s.b, s.a, es[n].op);
      }
    }
  }

  lemma StartWraps(c: Config)
    ensures WrapPeer(NewPeer(c)) == NewPeer(c)
  {
  }

  /** End-to-end safety of the 32-bit machine on bytes. */
  lemma MachineEndToEnd(ca: Config, cb: Config, es: seq<Event>)
    requires Compatible(ca, cb) && TimelyRun(Start(ca, cb), es)
    ensures var s := Run(Machine32, Start(ca, cb), es);
            InOrder(s.a, s.b) && InOrder(s.b, s.a)
  {
    MachineRunsWrapped(ca, cb, es);
    EndToEnd(ca, cb, es);
  }
}
