/** Where the round-trip samples come from: every acknowledgement carries the time at which
    its data packet left, on the clock of the side that sent it, and `ikcp_input` feeds the
    estimator the time that has passed since. */
module KcpSample {
  import opened KcpSerial
  import opened KcpWire
  import opened KcpSpec
  import opened KcpNet
  import opened KcpSender
  import opened KcpSafety
  import opened KcpPlain
  import opened KcpCalls
  import opened KcpProbe
  import opened KcpRtt
  import opened KcpStream

  // ---- one packet ----

  /** The clock went from one time to the other in `ms` milliseconds. */
  predicate Elapsed(from: int, to: int, ms: int) { U32(from + ms) == to }

  /** The timeout that goes with an estimate. */
  predicate TimeoutIs(c: Config, r: Rtt) {
    r.rto == Min(Max(c.minRto, r.srtt + Max(c.interval, 4 * r.rttVal)), 60000)
  }

  /** From p to q on the packet h: an acknowledgement of something sent `ms` milliseconds ago is
      one step of the estimator with that sample; one with a time still to come, and any
      other packet, leaves the estimate alone. */
  ghost predicate Sampled(p: Pcb, h: Packet, q: Pcb) {
    && (forall ms: nat :: h.cmd == 82 && ms < TWO31 && Elapsed(h.ts, p.current, ms) ==>
         RfcStep(p.rtt, ms, q.rtt) && TimeoutIs(p.cfg, q.rtt))
    && (forall ms: int :: h.cmd == 82 && 0 < ms <= TWO31 && Elapsed(p.current, h.ts, ms) ==> q.rtt == p.rtt)
    && (h.cmd != 82 ==> q.rtt == p.rtt)
  }

  lemma SinceThen(ts: int, now: int, ms: int)
    requires IsU32(ts) && IsU32(now) && Elapsed(ts, now, ms)
    ensures 0 <= ms < TWO31 ==> TimeDiff(now, ts) == ms
    ensures 0 < ms <= TWO31 ==> TimeDiff(ts, now) == -ms
  {
    var q := (ts + ms) / TWO32;
    assert now == ts + ms - q * TWO32;
    WrapShift(ms, -q);
    WrapShift(-ms, q);
    if 0 < ms <= TWO31 {
      WrapShift(TWO32 - ms, -1);
    }
  }

  lemma PacketRtt(m: Arith, s: Parsing, h: Packet)
    ensures var q, rtt := InputPacket(m, s, h).p, TimeDiff(s.p.current, h.ts);
            && q.current == s.p.current && q.cfg == s.p.cfg
            && q.rtt == if h.cmd == CMD_ACK && rtt >= 0 then UpdateAck(s.p.cfg, s.p.rtt, rtt) else s.p.rtt
  {
    hide ParseUna, ParseAck, ParseData, UpdateAck, TimeDiff;
  }

  lemma StepOfRtt(c: Config, r: Rtt, rtt: nat)
    requires RttOk(r)
    ensures RfcStep(r, rtt, UpdateAck(c, r, rtt)) && TimeoutIs(c, UpdateAck(c, r, rtt))
  {
    FollowsRfc6298(c, r, rtt);
  }

  lemma InputSamples(m: Arith, s: Parsing, h: Packet)
    requires IsU32(s.p.current) && IsU32(h.ts) && RttOk(s.p.rtt)
    ensures Sampled(s.p, h, InputPacket(m, s, h).p)
  {
    hide InputPacket, RfcStep, TimeoutIs, UpdateAck, TimeDiff, Elapsed;
    PacketRtt(m, s, h);
    forall ms: nat | ms < TWO31 && Elapsed(h.ts, s.p.current, ms) ensures TimeDiff(s.p.current, h.ts) == ms {
      SinceThen(h.ts, s.p.current, ms);
    }
    forall ms: int | 0 < ms <= TWO31 && Elapsed(s.p.current, h.ts, ms) ensures TimeDiff(s.p.current, h.ts) == -ms {
      SinceThen(s.p.current, h.ts, ms);
    }
    if h.cmd == CMD_ACK && TimeDiff(s.p.current, h.ts) >= 0 {
      StepOfRtt(s.p.cfg, s.p.rtt, TimeDiff(s.p.current, h.ts));
    }
  }

  // ---- what the network carries ----

  /** The packets of a datagram, read back from its bytes if it has bytes. */
  function PacketsOf(d: Datagram): seq<Packet> {
    match d
    case Packets(ps) => ps
    case Bytes(b) => Parse(b).0
  }

  /** The numbers and times of the data packets, and of the acknowledgements. */
  predicate HasData(d: Datagram, a: Ack) {
    exists h :: h in PacketsOf(d) && h.cmd == 81 && h.sn == a.sn && h.ts == a.ts
  }

  predicate SomeData(out: seq<Datagram>, a: Ack) { exists i :: 0 <= i < |out| && HasData(out[i], a) }

  predicate AcksFrom(d: Datagram, out: seq<Datagram>) {
    forall h :: h in PacketsOf(d) && h.cmd == 82 ==> SomeData(out, Ack(h.sn, h.ts))
  }

  /** What x holds and has sent acknowledges only data packets that y has sent. */
  predicate Answers(x: Peer, y: Peer) {
    && (forall i :: 0 <= i < |x.p.acks| ==> SomeData(y.out, x.p.acks[i]))
    && (forall i :: 0 <= i < |x.out| ==> AcksFrom(x.out[i], y.out))
  }

  /** Everything a flush sends can be read back, and snd_buf holds data packets. */
  predicate Readable(m: Arith, p: Pcb) { if m.Machine32? then Sound(p) else AllPush(p.snd.buf) }

  lemma SomeDataGrows(out: seq<Datagram>, more: seq<Datagram>, a: Ack)
    requires SomeData(out, a)
    ensures SomeData(out + more, a)
  {
    var i :| 0 <= i < |out| && HasData(out[i], a);
    assert (out + more)[i] == out[i];
  }

  lemma AcksFromGrows(d: Datagram, out: seq<Datagram>, more: seq<Datagram>)
    requires AcksFrom(d, out)
    ensures AcksFrom(d, out + more)
  {
    hide HasData;
    forall h | h in PacketsOf(d) && h.cmd == 82 ensures SomeData(out + more, Ack(h.sn, h.ts)) {
      SomeDataGrows(out, more, Ack(h.sn, h.ts));
    }
  }

  // ---- flush ----

  /** A packet of this flush: data carries the clock, an acknowledgement is a pending one. */
  predicate FromFlush(p: Pcb, h: Packet) {
    && (h.cmd == 81 ==> h.ts == p.current)
    && (h.cmd == 82 ==> exists i :: 0 <= i < |p.acks| && p.acks[i] == Ack(h.sn, h.ts))
  }

  lemma FlushPackets(m: Arith, p: Pcb)
    requires AllPush(p.snd.buf)
    ensures forall h :: h in FlushNow(m, p).out ==> FromFlush(p, h)
  {
    hide Admit, ReactToLoss, Decisions, AccountAll, ProbeTimer, AckPackets, ProbePackets, Resends;
    var b := ProbeTimer(p.probe, p.rmtWnd, p.current);
    var s := Admit(m, p, p.snd, EffectiveWindow(p));
    AdmitPushes(m, p, p.snd, EffectiveWindow(p));
    ResendPushes(p, s.buf);
    var out := Resend(p, s.buf).out;
    ResendSends(p, Tally([], false, false, p.xmit, p.dead), s.buf);
    assert FlushNow(m, p).out == AckPackets(p) + ProbePackets(p, b) + out;
    forall h | h in out ensures FromFlush(p, h) {
      var j :| 0 <= j < |out| && out[j] == h;
      ResentNow(p, s.buf, h);
    }
    ControlsFrom(p, b);
  }

  lemma ResentNow(p: Pcb, buf: seq<Segment>, h: Packet)
    requires Resends(p, buf, h)
    ensures h.ts == p.current
  {
  }

  lemma ControlsFrom(p: Pcb, b: Probe)
    ensures forall h :: h in AckPackets(p) ==> FromFlush(p, h)
    ensures forall h :: h in ProbePackets(p, b) ==> FromFlush(p, h)
  {
    forall h | h in AckPackets(p) ensures FromFlush(p, h) {
      var i :| 0 <= i < |p.acks| && AckPackets(p)[i] == h;
      assert p.acks[i] == Ack(h.sn, h.ts);
    }
  }

  /** The datagrams of a flush carry its packets. */
  lemma EmittedCarry(m: Arith, ps: seq<Packet>, mtu: int)
    requires m.Machine32? ==> AllEncodable(ps)
    ensures var ds := Emit(m, Datagrams(ps, mtu));
            forall i :: 0 <= i < |ds| ==> forall h :: h in PacketsOf(ds[i]) ==> h in ps
  {
    hide Parse, EncodeAll, Datagrams, Encodable;
    PackedFrom(ps, mtu);
    var ds := Datagrams(ps, mtu);
    forall i | 0 <= i < |ds| ensures PacketsOf(Emit(m, ds)[i]) == ds[i] {
      if m.Machine32? {
        forall j | 0 <= j < |ds[i]| ensures Encodable(ds[i][j]) {
          assert ds[i][j] in ds[i];
        }
        ParseEncodeAll(ds[i]);
      }
    }
  }

  /** Everything in these datagrams comes from a flush of p. */
  predicate AllFromFlush(p: Pcb, ds: seq<Datagram>) {
    forall i :: 0 <= i < |ds| ==> forall h :: h in PacketsOf(ds[i]) ==> FromFlush(p, h)
  }

  lemma FlushEmits(m: Arith, x: Peer) returns (more: seq<Datagram>)
    requires Readable(m, x.p)
    ensures var x' := DoFlush(m, x);
            && x'.out == x.out + more && AllFromFlush(x.p, more)
            && (forall i :: 0 <= i < |x'.p.acks| ==> x'.p.acks[i] in x.p.acks)
            && x'.p.current == x.p.current
  {
    hide FlushNow, Emit, Datagrams, FromFlush;
    more := [];
    if x.p.updated {
      var r := FlushNow(m, x.p);
      if m.Machine32? {
        FlushSound(x.p);
      }
      FlushPackets(m, x.p);
      EmittedCarry(m, r.out, x.p.cfg.mtu);
      more := Emit(m, Datagrams(r.out, x.p.cfg.mtu));
      FlushClears(m, x.p);
    }
  }

  lemma FlushClears(m: Arith, p: Pcb)
    ensures FlushNow(m, p).p.acks == [] && FlushNow(m, p).p.current == p.current
  {
  }

  lemma FlushAnswers(m: Arith, x: Peer, y: Peer)
    requires Readable(m, x.p) && Answers(x, y)
    ensures Answers(DoFlush(m, x), y)
  {
    hide DoFlush, HasData, PacketsOf, SomeData;
    var more := FlushEmits(m, x);
    var x' := DoFlush(m, x);
    forall i | 0 <= i < |x'.out| ensures AcksFrom(x'.out[i], y.out) {
      if i >= |x.out| {
        assert x'.out[i] == more[i - |x.out|];
        PendingSent(x, y, more[i - |x.out|]);
      } else {
        assert x'.out[i] == x.out[i];
      }
    }
  }

  lemma PendingSent(x: Peer, y: Peer, d: Datagram)
    requires Answers(x, y) && forall h :: h in PacketsOf(d) ==> FromFlush(x.p, h)
    ensures AcksFrom(d, y.out)
  {
    hide HasData, PacketsOf, SomeData;
  }

  // ---- input ----

  lemma PacketAcks(m: Arith, s: Parsing, h: Packet)
    ensures var q := InputPacket(m, s, h).p;
            && q.current == s.p.current
            && forall a :: a in q.acks ==> a in s.p.acks || (h.cmd == 81 && a == Ack(h.sn, h.ts))
  {
    hide ParseUna, ParseAck, ParseData, UpdateAck;
  }

  /** What these packets can make pending; the clock stands. */
  predicate AcksWithin(p: Pcb, ps: seq<Packet>, q: Pcb) {
    && q.current == p.current
    && forall a :: a in q.acks ==> a in p.acks || exists h :: h in ps && h.cmd == 81 && a == Ack(h.sn, h.ts)
  }

  lemma AcksWithinCons(p: Pcb, h: Packet, ps: seq<Packet>, q1: Pcb, q: Pcb)
    requires q1.current == p.current
    requires forall a :: a in q1.acks ==> a in p.acks || (h.cmd == 81 && a == Ack(h.sn, h.ts))
    requires AcksWithin(q1, ps, q)
    ensures AcksWithin(p, [h] + ps, q)
  {
    forall a | a in q.acks && a !in p.acks
      ensures exists g :: g in [h] + ps && g.cmd == 81 && a == Ack(g.sn, g.ts)
    {
      if a in q1.acks {
        assert h in [h] + ps;
      } else {
        var g :| g in ps && g.cmd == 81 && a == Ack(g.sn, g.ts);
        assert g in [h] + ps;
      }
    }
  }

  lemma {:induction false} InputPacketsAcks(m: Arith, s: Parsing, ps: seq<Packet>)
    ensures AcksWithin(s.p, ps, InputPackets(m, s, ps).p)
    decreases |ps|
  {
    hide InputPacket, AcksWithin;
    if ps != [] {
      PacketAcks(m, s, ps[0]);
      InputPacketsAcks(m, InputPacket(m, s, ps[0]), ps[1..]);
      AcksWithinCons(s.p, ps[0], ps[1..], InputPacket(m, s, ps[0]).p, InputPackets(m, s, ps).p);
      assert [ps[0]] + ps[1..] == ps;
    } else {
      NoneWithin(s.p, ps);
    }
  }

  lemma SameAcks(p: Pcb, ps: seq<Packet>, q: Pcb, q': Pcb)
    requires AcksWithin(p, ps, q) && q'.acks == q.acks && q'.current == q.current
    ensures AcksWithin(p, ps, q')
  {
  }

  lemma NoneWithin(p: Pcb, ps: seq<Packet>)
    ensures AcksWithin(p, ps, p)
  {
  }

  lemma {:induction false} InputLoopAcks(s: Parsing, b: bytes)
    ensures AcksWithin(s.p, Parse(b).0, InputLoop(s, b).0.p)
    decreases |b|
  {
    hide InputPacket, Get32, LengthField, Decode, KnownCommand, AcksWithin;
    var q := InputLoop(s, b).0;
    if q == s {
      NoneWithin(s.p, Parse(b).0);
    } else {
      var h, tail := Decode(b), b[OVERHEAD + LengthField(b)..];
      var s1 := InputPacket(Machine32, s, h);
      PacketAcks(Machine32, s, h);
      InputPacketKeepsConfig(Machine32, s, h);
      InputLoopAcks(s1, tail);
      AcksWithinCons(s.p, h, Parse(tail).0, s1.p, q.p);
    }
  }

  /** The acks pending after these packets. */
  lemma FinishedAcks(m: Arith, s: Parsing, prevUna: int)
    requires 0 < s.p.cfg.mss
    ensures var q := FinishInput(m, s, prevUna);
            q.acks == s.p.acks && q.current == s.p.current
  {
    hide GrowCwnd, ParseFastAck;
  }

  lemma InputAcks(m: Arith, x: Peer, d: Datagram)
    requires 0 < x.p.cfg.mss
    ensures var x' := DoInput(m, x, d);
            AcksWithin(x.p, PacketsOf(d), x'.p) && x'.out == x.out && x'.p.current == x.p.current
  {
    hide InputPackets, InputLoop, FinishInput, Parse, InputPacket, AcksWithin;
    var s0 := Parsing(x.p, false, 0);
    match d
    case Packets(ps) =>
      InputPacketsAcks(m, s0, ps);
      InputPacketsKeepsConfig(m, s0, ps);
      FinishedAcks(m, InputPackets(m, s0, ps), x.p.snd.una);
      SameAcks(x.p, ps, InputPackets(m, s0, ps).p, DoInput(m, x, d).p);
    case Bytes(b) =>
      InputLoopAcks(s0, b);
      NoneWithin(x.p, Parse(b).0);
      FinishedAcks(Machine32, InputLoop(s0, b).0, x.p.snd.una);
      SameAcks(x.p, Parse(b).0, InputLoop(s0, b).0.p, FinishInput(Machine32, InputLoop(s0, b).0, x.p.snd.una));
  }

  lemma InputAnswers(m: Arith, x: Peer, y: Peer, k: nat)
    requires 0 < x.p.cfg.mss && Answers(x, y) && k < |y.out|
    ensures Answers(DoInput(m, x, y.out[k]), y)
  {
    hide DoInput, PacketsOf, AcksFrom;
    InputAcks(m, x, y.out[k]);
    var x' := DoInput(m, x, y.out[k]);
    forall i | 0 <= i < |x'.p.acks| ensures SomeData(y.out, x'.p.acks[i]) {
      var a := x'.p.acks[i];
      assert a in x'.p.acks;
      if a in x.p.acks {
        var j :| 0 <= j < |x.p.acks| && x.p.acks[j] == a;
      } else {
        assert HasData(y.out[k], a);
      }
    }
  }

  // ---- whole runs ----

  /** What an operation adds to the datagrams of its side: data packets carry the clock. */
  predicate SentBy(x: Peer, x': Peer) {
    && |x.out| <= |x'.out| && x'.out[..|x.out|] == x.out
    && forall i :: |x.out| <= i < |x'.out| ==>
         forall h :: h in PacketsOf(x'.out[i]) && h.cmd == 81 ==> h.ts == x'.p.current
  }

  lemma FlushSentBy(m: Arith, x: Peer)
    requires Readable(m, x.p)
    ensures SentBy(x, DoFlush(m, x))
  {
    hide DoFlush, PacketsOf;
    var more := FlushEmits(m, x);
    var x' := DoFlush(m, x);
    forall i | |x.out| <= i < |x'.out|
      ensures forall h :: h in PacketsOf(x'.out[i]) && h.cmd == 81 ==> h.ts == x'.p.current
    {
      assert x'.out[i] == more[i - |x.out|];
    }
  }

  lemma TickReadable(m: Arith, p: Pcb, now: int)
    requires Readable(m, p)
    ensures Readable(m, Tick(p, U32(now)).0)
  {
    hide U32, TimeDiff;
  }

  lemma OthersSilent(m: Arith, x: Peer, y: Peer, op: Op)
    requires 0 < x.p.cfg.mss && (op.Send? || op.Recv?)
    ensures var x' := Do(m, x, y, op);
            x'.out == x.out && x'.p.acks == x.p.acks && x'.p.current == x.p.current
  {
    hide MoveReady, FragmentCount, Fragments;
  }

  lemma DoAnswers(m: Arith, x: Peer, y: Peer, op: Op)
    requires 0 < x.p.cfg.mss && Readable(m, x.p) && Answers(x, y)
    ensures Answers(Do(m, x, y, op), y) && SentBy(x, Do(m, x, y, op))
  {
    hide DoFlush, DoInput, Readable, AcksFrom, SomeData, PacketsOf;
    match op
    case Send(data) => OthersSilent(m, x, y, op);
    case Recv(len) => OthersSilent(m, x, y, op);
    case Update(now) =>
      var x1 := x.(p := Tick(x.p, U32(now)).0);
      TickReadable(m, x.p, now);
      assert Answers(x1, y);
      FlushAnswers(m, x1, y);
      FlushSentBy(m, x1);
    case Flush =>
      FlushAnswers(m, x, y);
      FlushSentBy(m, x);
    case Deliver(k) =>
      if k < |y.out| {
        InputAnswers(m, x, y, k);
        InputAcks(m, x, y.out[k]);
      }
  }

  lemma AnswersGrow(x: Peer, y: Peer, y': Peer)
    requires Answers(x, y) && |y.out| <= |y'.out| && y'.out[..|y.out|] == y.out
    ensures Answers(x, y')
  {
    hide AcksFrom, SomeData;
    var more := y'.out[|y.out|..];
    assert y'.out == y.out + more;
    forall i | 0 <= i < |x.p.acks| ensures SomeData(y'.out, x.p.acks[i]) {
      SomeDataGrows(y.out, more, x.p.acks[i]);
    }
    forall i | 0 <= i < |x.out| ensures AcksFrom(x.out[i], y'.out) {
      AcksFromGrows(x.out[i], y.out, more);
    }
  }

  /** All datagrams of the machine are bytes. */
  predicate InBytes(out: seq<Datagram>) { forall i :: 0 <= i < |out| ==> out[i].Bytes? }

  predicate MachineOk(x: Peer) { Sound(x.p) && InBytes(x.out) }

  lemma FlushInBytes(x: Peer)
    requires MachineOk(x)
    ensures MachineOk(DoFlush(Machine32, x))
  {
    hide FlushNow, Datagrams, Sound;
    FlushSound(x.p);
  }

  lemma DoMachineOk(x: Peer, y: Peer, op: Op)
    requires MachineOk(x) && InBytes(y.out) && 0 < x.p.cfg.mss
    ensures MachineOk(Do(Machine32, x, y, op))
  {
    hide DoFlush, DoInput, Sound, KcpSpec.Send, KcpSpec.Recv;
    match op
    case Send(data) => PerformSound(x.p, CallSend(data));
    case Recv(len) => PerformSound(x.p, CallRecv(len));
    case Update(now) =>
      TickSound(x.p, now);
      FlushInBytes(x.(p := Tick(x.p, U32(now)).0));
    case Flush => FlushInBytes(x);
    case Deliver(k) =>
      if k < |y.out| {
        PerformSound(x.p, CallInput(y.out[k].b));
        InputAcks(Machine32, x, y.out[k]);
        InputIsCall(x, y.out[k]);
      }
  }

  lemma InputIsCall(x: Peer, d: Datagram)
    requires 0 < x.p.cfg.mss && d.Bytes?
    ensures DoInput(Machine32, x, d).p == Perform(x.p, CallInput(d.b))
  {
  }

  lemma TickSound(p: Pcb, now: int)
    requires Sound(p)
    ensures Sound(Tick(p, U32(now)).0)
  {
    hide U32, TimeDiff;
  }

  lemma {:induction false} RunMachineOk(ca: Config, cb: Config, es: seq<Event>)
    requires Compatible(ca, cb)
    ensures var s := Run(Machine32, Start(ca, cb), es);
            MachineOk(s.a) && MachineOk(s.b)
    decreases |es|
  {
    hide Do, Sound;
    if es == [] {
      StartSound(ca);
      StartSound(cb);
    } else {
      var n := |es| - 1;
      var s := Run(Machine32, Start(ca, cb), es[..n]);
      RunMachineOk(ca, cb, es[..n]);
      DoMachineOk(s.a, s.b, es[n].op);
      DoMachineOk(s.b, s.a, es[n].op);
    }
  }

  lemma StartSound(c: Config)
    requires ConfigOk(c)
    ensures Sound(Create(c))
  {
  }

  /** Each side is readable in every state of every run. */
  lemma RunReadable(m: Arith, ca: Config, cb: Config, es: seq<Event>)
    requires Compatible(ca, cb)
    ensures var s := Run(m, Start(ca, cb), es);
            Readable(m, s.a.p) && Readable(m, s.b.p)
    ensures var s := Run(m, Start(ca, cb), es);
            IsU32(s.a.p.current) && IsU32(s.b.p.current)
  {
    hide Run, EndOk, NoLoss, Delivered;
    if m.Machine32? {
      RunMachineOk(ca, cb, es);
    } else {
      RunInv(ca, cb, es);
      RunPlain(ca, cb, es);
    }
  }

  lemma {:induction false} RunAnswers(m: Arith, ca: Config, cb: Config, es: seq<Event>)
    requires Compatible(ca, cb)
    ensures var s := Run(m, Start(ca, cb), es);
            Answers(s.a, s.b) && Answers(s.b, s.a)
    decreases |es|
  {
    hide Do, Readable, AcksFrom, SomeData, PacketsOf;
    if es != [] {
      var n := |es| - 1;
      var s := Run(m, Start(ca, cb), es[..n]);
      RunAnswers(m, ca, cb, es[..n]);
      RunReadable(m, ca, cb, es[..n]);
      if es[n].atA {
        DoAnswers(m, s.a, s.b, es[n].op);
        AnswersGrow(s.b, s.a, Do(m, s.a, s.b, es[n].op));
      } else {
        DoAnswers(m, s.b, s.a, es[n].op);
        AnswersGrow(s.a, s.b, Do(m, s.b, s.a, es[n].op));
      }
    }
  }

  /** Between these two states of a side it sent a data packet with this number, and its time
      is that side's clock. */
  predicate SentThen(x: Peer, x': Peer, a: Ack) {
    |x.out| <= |x'.out| && SomeData(x'.out[|x.out|..], a) && a.ts == x'.p.current
  }

  /** One side after the first k events. */
  function PeerAt(m: Arith, ca: Config, cb: Config, es: seq<Event>, k: nat, atA: bool): Peer
    requires Compatible(ca, cb) && k <= |es|
  {
    Side(Run(m, Start(ca, cb), es[..k]), atA)
  }

  lemma StepSentBy(m: Arith, ca: Config, cb: Config, es: seq<Event>, k: nat, atA: bool)
    requires Compatible(ca, cb) && k < |es|
    ensures SentBy(PeerAt(m, ca, cb, es, k, atA), PeerAt(m, ca, cb, es, k + 1, atA))
  {
    hide Do, Readable, SentBy, Answers;
    assert es[..k + 1][..k] == es[..k];
    var s := Run(m, Start(ca, cb), es[..k]);
    RunReadable(m, ca, cb, es[..k]);
    RunAnswers(m, ca, cb, es[..k]);
    var x, y := Side(s, atA), Side(s, !atA);
    if es[k].atA == atA {
      DoAnswers(m, x, y, es[k].op);
    } else {
      NothingSent(x);
    }
  }

  lemma NothingSent(x: Peer)
    ensures SentBy(x, x)
  {
  }

  /** Every datagram in the network left in some step of the run. */
  lemma {:induction false} LeftWhen(m: Arith, ca: Config, cb: Config, es: seq<Event>, k: nat, atA: bool, i: nat)
      returns (n: nat)
    requires Compatible(ca, cb) && k <= |es| && i < |PeerAt(m, ca, cb, es, k, atA).out|
    ensures n < k && |PeerAt(m, ca, cb, es, n, atA).out| <= i < |PeerAt(m, ca, cb, es, n + 1, atA).out|
    ensures PeerAt(m, ca, cb, es, n + 1, atA).out[i] == PeerAt(m, ca, cb, es, k, atA).out[i]
    decreases k
  {
    hide PeerAt, PacketsOf;
    n := 0;
    StartEmpty(m, ca, cb, es, atA);
    if k > 0 {
      n := k - 1;
      var x, x' := PeerAt(m, ca, cb, es, n, atA), PeerAt(m, ca, cb, es, k, atA);
      StepSentBy(m, ca, cb, es, n, atA);
      if i < |x.out| {
        assert x'.out[i] == x'.out[..|x.out|][i];
        n := LeftWhen(m, ca, cb, es, k - 1, atA, i);
      }
    }
  }

  /** Every data packet in the network left in some step of the run, with the clock of that
      step. */
  lemma SentWhen(m: Arith, ca: Config, cb: Config, es: seq<Event>, k: nat, atA: bool, a: Ack) returns (n: nat)
    requires Compatible(ca, cb) && k <= |es| && SomeData(PeerAt(m, ca, cb, es, k, atA).out, a)
    ensures n < k && SentThen(PeerAt(m, ca, cb, es, n, atA), PeerAt(m, ca, cb, es, n + 1, atA), a)
  {
    hide HasData, PacketsOf, PeerAt;
    var out := PeerAt(m, ca, cb, es, k, atA).out;
    var i :| 0 <= i < |out| && HasData(out[i], a);
    n := LeftWhen(m, ca, cb, es, k, atA, i);
    StepSentBy(m, ca, cb, es, n, atA);
    var x, x' := PeerAt(m, ca, cb, es, n, atA), PeerAt(m, ca, cb, es, n + 1, atA);
    assert x'.out[|x.out|..][i - |x.out|] == x'.out[i];
    DataTime(x, x', i, a);
  }

  lemma StartEmpty(m: Arith, ca: Config, cb: Config, es: seq<Event>, atA: bool)
    requires Compatible(ca, cb)
    ensures PeerAt(m, ca, cb, es, 0, atA).out == []
  {
    assert es[..0] == [];
  }

  lemma DataTime(x: Peer, x': Peer, i: nat, a: Ack)
    requires SentBy(x, x') && |x.out| <= i < |x'.out| && HasData(x'.out[i], a)
    ensures a.ts == x'.p.current
  {
    var h :| h in PacketsOf(x'.out[i]) && h.cmd == 81 && h.sn == a.sn && h.ts == a.ts;
  }

  // ---- the samples of a run ----

  lemma {:induction false} ClockStands(m: Arith, s: Parsing, ps: seq<Packet>)
    requires EstimateOk(s.p.cfg, s.p.rtt)
    ensures var p := InputPackets(m, s, ps).p;
            p.current == s.p.current && RttOk(p.rtt)
  {
    InputPacketsAcks(m, s, ps);
    InputPacketsRtt(m, s, ps);
  }

  lemma TimesInRange(m: Arith, ca: Config, cb: Config, es: seq<Event>, atA: bool, k: nat)
    requires Compatible(ca, cb) && k < |PeerAt(m, ca, cb, es, |es|, atA).out|
    ensures forall h :: h in PacketsOf(PeerAt(m, ca, cb, es, |es|, atA).out[k]) ==> IsU32(h.ts)
  {
    hide Run, PlainPcb;
    assert es[..|es|] == es;
    var d := PeerAt(m, ca, cb, es, |es|, atA).out[k];
    if d.Bytes? {
      ParsedInRange(d.b);
    } else if m.Machine32? {
      RunMachineOk(ca, cb, es);
    } else {
      RunPlain(ca, cb, es);
      assert PlainDatagram(d, if atA then ca else cb);
    }
  }

  lemma {:induction false} ParsedInRange(b: bytes)
    ensures forall h :: h in Parse(b).0 ==> IsU32(h.ts)
    decreases |b|
  {
    hide Get32, LengthField;
    if OVERHEAD <= |b| && OVERHEAD + LengthField(b) <= |b| {
      ParsedInRange(b[OVERHEAD + LengthField(b)..]);
    }
  }

  /** Every acknowledgement that the network can deliver in any state of any run, of the
      unbounded protocol and of the machine alike, names a data packet that its receiver has
      sent and carries the time it was sent, on the receiver's own clock; and when the packets
      of its datagram are processed up to it, it feeds the estimator the time since then. */
  lemma SampleIsRoundTrip(m: Arith, ca: Config, cb: Config, es: seq<Event>, atA: bool, k: nat, j: nat)
      returns (n: nat)
    requires Compatible(ca, cb)
    requires k < |PeerAt(m, ca, cb, es, |es|, !atA).out|
    requires var ps := PacketsOf(PeerAt(m, ca, cb, es, |es|, !atA).out[k]);
             j < |ps| && ps[j].cmd == 82
    ensures n < |es|
    ensures var h := PacketsOf(PeerAt(m, ca, cb, es, |es|, !atA).out[k])[j];
            SentThen(PeerAt(m, ca, cb, es, n, atA), PeerAt(m, ca, cb, es, n + 1, atA), Ack(h.sn, h.ts))
    ensures var x, ps := PeerAt(m, ca, cb, es, |es|, atA), PacketsOf(PeerAt(m, ca, cb, es, |es|, !atA).out[k]);
            var s := InputPackets(m, Parsing(x.p, false, 0), ps[..j]);
            s.p.current == x.p.current && Sampled(s.p, ps[j], InputPacket(m, s, ps[j]).p)
  {
    hide Run, SentThen, Sampled, SomeData, PacketsOf, InputPackets, EstimateOk, Readable;
    assert es[..|es|] == es;
    var x, y := PeerAt(m, ca, cb, es, |es|, atA), PeerAt(m, ca, cb, es, |es|, !atA);
    var ps := PacketsOf(y.out[k]);
    RunAnswers(m, ca, cb, es);
    assert AcksFrom(y.out[k], x.out);
    n := SentWhen(m, ca, cb, es, |es|, atA, Ack(ps[j].sn, ps[j].ts));
    RunTimeouts(m, ca, cb, es);
    RunReadable(m, ca, cb, es);
    TimesInRange(m, ca, cb, es, !atA, k);
    ClockStands(m, Parsing(x.p, false, 0), ps[..j]);
    InputSamples(m, InputPackets(m, Parsing(x.p, false, 0), ps[..j]), ps[j]);
  }
}
