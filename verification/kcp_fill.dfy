/** How `ikcp_send` cuts: every fragment of a message is full but the last, and in stream mode
    every queued segment is full but the last, whatever the calls were. */
module KcpFill {
  import opened KcpSerial
  import opened KcpWire
  import opened KcpSpec
  import opened KcpNet
  import opened KcpSafety
  import opened KcpStream
  import opened KcpSample
  import opened KcpSender

  /** The bytes of n full segments. */
  function Times(n: int, mss: int): int { n * mss }

  lemma OneLess(n: int, mss: int)
    ensures Times(n, mss) == Times(n - 1, mss) + mss && Times(0, mss) == 0
  {
  }

  /** The count is the least that suffices, and one for an empty message. */
  lemma CountIsLeast(len: nat, mss: int)
    requires 0 < mss
    ensures var n := FragmentCount(len, mss);
            1 <= n && len <= Times(n, mss) && (n == 1 || Times(n - 1, mss) < len)
  {
    if len > mss {
      var q, r := (len + mss - 1) / mss, (len + mss - 1) % mss;
      assert len + mss - 1 == mss * q + r;
      assert Times(q, mss) == mss * q && Times(q - 1, mss) == mss * q - mss;
      PositiveQuotient(len + mss - 1, mss);
    } else {
      assert Times(1, mss) == mss;
    }
  }

  /** Full segments but the last, which is not empty unless all the data are. */
  predicate Cut(pieces: seq<Segment>, len: int, mss: int) {
    && pieces != []
    && (forall i :: 0 <= i < |pieces| - 1 ==> |pieces[i].pkt.data| == mss)
    && |pieces[|pieces| - 1].pkt.data| <= mss
    && (0 < len ==> pieces[|pieces| - 1].pkt.data != [])
  }

  lemma {:induction false} FragmentsCut(data: bytes, mss: int, count: nat, stream: bool)
    requires 0 < mss && 0 < count && |data| <= Times(count, mss) && (count == 1 || Times(count - 1, mss) < |data|)
    ensures Cut(Fragments(data, mss, count, stream), |data|, mss)
    decreases count
  {
    hide Times;
    OneLess(count, mss);
    OneLess(count - 1, mss);
    var pieces := Fragments(data, mss, count, stream);
    if count > 1 {
      TimesGrow(0, count - 2, mss);
      assert mss < |data|;
      FragmentsCut(data[mss..], mss, count - 1, stream);
      var rest := Fragments(data[mss..], mss, count - 1, stream);
      assert pieces[1..] == rest;
      assert forall i :: 1 <= i < count ==> pieces[i] == rest[i - 1];
    }
  }

  lemma TimesGrow(a: int, b: int, mss: int)
    requires a <= b && 0 < mss
    ensures Times(a, mss) <= Times(b, mss)
  {
    Multiples(a, b, mss);
  }

  /** A message is appended to the queue, cut so; what was queued is left alone. */
  lemma MessageCut(p: Pcb, data: bytes)
    requires 0 < p.cfg.mss && !p.cfg.stream && KcpSpec.Send(p, data).1 == 0
    ensures var q, was := KcpSpec.Send(p, data).0.snd.queue, p.snd.queue;
            |was| < |q| && q[..|was|] == was && Cut(q[|was|..], |data|, p.cfg.mss)
  {
    hide FragmentCount, Fragments, Times, Cut;
    var n := FragmentCount(|data|, p.cfg.mss);
    assert data[0..] == data;
    CountIsLeast(|data|, p.cfg.mss);
    FragmentsCut(data, p.cfg.mss, n, false);
    var q := KcpSpec.Send(p, data).0.snd.queue;
    assert q[|p.snd.queue|..] == Fragments(data, p.cfg.mss, n, false);
  }

  // ---- stream mode ----

  predicate FullButLast(queue: seq<Segment>, mss: int) {
    forall i :: 0 <= i < |queue| ==>
      if i < |queue| - 1 then |queue[i].pkt.data| == mss else 0 < |queue[i].pkt.data| <= mss
  }

  lemma ExtendedIsFull(p: Pcb, data: bytes)
    requires 0 < p.cfg.mss && p.cfg.stream && FullButLast(p.snd.queue, p.cfg.mss)
    ensures var q, n := Extended(p, data), Extension(p, data);
            && FullButLast(q, p.cfg.mss) && |q| == |p.snd.queue|
            && (n < |data| && q != [] ==> |q[|q| - 1].pkt.data| == p.cfg.mss)
  {
  }

  lemma StreamCut(p: Pcb, data: bytes)
    requires 0 < p.cfg.mss && p.cfg.stream && FullButLast(p.snd.queue, p.cfg.mss)
    ensures FullButLast(KcpSpec.Send(p, data).0.snd.queue, p.cfg.mss)
  {
    hide FragmentCount, Fragments, Times, Extension, ExtendLast;
    var q, rest := Extended(p, data), data[Extension(p, data)..];
    ExtendedIsFull(p, data);
    if rest != [] {
      var n := FragmentCount(|rest|, p.cfg.mss);
      CountIsLeast(|rest|, p.cfg.mss);
      FragmentsCut(rest, p.cfg.mss, n, true);
      Joined(q, Fragments(rest, p.cfg.mss, n, true), |rest|, p.cfg.mss);
    }
  }

  lemma Joined(q: seq<Segment>, more: seq<Segment>, len: int, mss: int)
    requires FullButLast(q, mss) && (q != [] ==> |q[|q| - 1].pkt.data| == mss)
    requires 0 < len && Cut(more, len, mss)
    ensures FullButLast(q + more, mss)
  {
  }

  lemma {:induction false} AdmitTakesPrefix(m: Arith, p: Pcb, s: Sender, cwnd: int) returns (k: nat)
    ensures k <= |s.queue| && Admit(m, p, s, cwnd).queue == s.queue[k..]
    decreases |s.queue|
  {
    k := 0;
    if s.queue != [] && SeqDiff(m, s.nxt, SeqAdd(m, s.una, cwnd)) < 0 {
      var j := AdmitTakesPrefix(m, p, Sender(s.una, SeqAdd(m, s.nxt, 1), s.queue[1..],
                                             s.buf + [Numbered(p, s.queue[0], s.nxt)], s.nQue - 1, s.nBuf + 1), cwnd);
      assert s.queue[1..][j..] == s.queue[j + 1..];
      k := j + 1;
    }
  }

  lemma FlushQueue(m: Arith, x: Peer)
    requires FullButLast(x.p.snd.queue, x.p.cfg.mss)
    ensures FullButLast(DoFlush(m, x).p.snd.queue, x.p.cfg.mss)
  {
    hide Admit, Decisions, Emit, Datagrams, AdmittedCount, Frags;
    if x.p.updated {
      var k := AdmitTakesPrefix(m, x.p, x.p.snd, EffectiveWindow(x.p));
    }
  }

  lemma PacketQueue(m: Arith, s: Parsing, h: Packet)
    ensures InputPacket(m, s, h).p.snd.queue == s.p.snd.queue
  {
    hide DropAcked, RemoveSn, InFlight, ParseData, UpdateAck;
  }

  lemma {:induction false} PacketsQueue(m: Arith, s: Parsing, ps: seq<Packet>)
    ensures InputPackets(m, s, ps).p.snd.queue == s.p.snd.queue
    decreases |ps|
  {
    hide InputPacket;
    if ps != [] {
      PacketQueue(m, s, ps[0]);
      PacketsQueue(m, InputPacket(m, s, ps[0]), ps[1..]);
    }
  }

  lemma {:induction false} LoopQueue(s: Parsing, b: bytes)
    ensures InputLoop(s, b).0.p.snd.queue == s.p.snd.queue
    decreases |b|
  {
    hide InputPacket, Get32, LengthField, Decode, KnownCommand;
    if |b| >= OVERHEAD && |b| >= OVERHEAD + LengthField(b) {
      PacketQueue(Machine32, s, Decode(b));
      LoopQueue(InputPacket(Machine32, s, Decode(b)), b[OVERHEAD + LengthField(b)..]);
    }
  }

  lemma InputQueue(m: Arith, x: Peer, d: Datagram)
    requires 0 < x.p.cfg.mss
    ensures DoInput(m, x, d).p.snd.queue == x.p.snd.queue
  {
    hide InputPackets, InputLoop, GrowCwnd, BumpFastAck;
    match d
    case Packets(ps) =>
      PacketsQueue(m, Parsing(x.p, false, 0), ps);
      InputPacketsKeepsConfig(m, Parsing(x.p, false, 0), ps);
    case Bytes(b) => LoopQueue(Parsing(x.p, false, 0), b);
  }

  lemma DoFills(m: Arith, x: Peer, y: Peer, op: Op)
    requires 0 < x.p.cfg.mss && x.p.cfg.stream && FullButLast(x.p.snd.queue, x.p.cfg.mss)
    ensures FullButLast(Do(m, x, y, op).p.snd.queue, x.p.cfg.mss)
  {
    hide DoFlush, DoInput, KcpSpec.Send, MoveReady, FullButLast;
    match op
    case Send(data) => StreamCut(x.p, data);
    case Recv(len) =>
    case Update(now) => FlushQueue(m, x.(p := Tick(x.p, U32(now)).0));
    case Flush => FlushQueue(m, x);
    case Deliver(k) => if k < |y.out| { InputQueue(m, x, y.out[k]); }
  }

  /** In every state of every run of a stream, of the unbounded protocol and of the machine alike,
      all queued segments are full but the last, and none is empty. */
  lemma {:induction false} RunFills(m: Arith, ca: Config, cb: Config, es: seq<Event>, atA: bool)
    requires Compatible(ca, cb)
    ensures var p := Side(Run(m, Start(ca, cb), es), atA).p;
            p.cfg.stream ==> FullButLast(p.snd.queue, p.cfg.mss)
    decreases |es|
  {
    hide Do, FullButLast;
    if es == [] {
      NoneIsFull(ca);
      NoneIsFull(cb);
    } else {
      var n := |es| - 1;
      RunFills(m, ca, cb, es[..n], atA);
      var s := Run(m, Start(ca, cb), es[..n]);
      if es[n].atA == atA && Side(s, atA).p.cfg.stream {
        DoFills(m, Side(s, atA), Side(s, !atA), es[n].op);
      }
    }
  }

  lemma NoneIsFull(c: Config)
    ensures FullButLast(NewPeer(c).p.snd.queue, c.mss)
  {
  }
}
