/** Two KCP endpoints joined by a network. Every datagram an endpoint has emitted stays
    available and may be delivered at any later time, any number of times and in any
    order, or never: the network drops, duplicates and reorders. */
module KcpNet {
  import opened KcpSerial
  import opened KcpWire
  import opened KcpSpec

  /** What the receiving application can observe of a segment. */
  datatype Frag = Frag(frg: int, data: bytes)

  function FragOf(p: Packet): Frag { Frag(p.frg, p.data) }

  function Frags(ss: seq<Segment>): (r: seq<Frag>)
    ensures |r| == |ss| && forall i :: 0 <= i < |ss| ==> r[i] == FragOf(ss[i].pkt)
  {
    seq(|ss|, i requires 0 <= i < |ss| => FragOf(ss[i].pkt))
  }

  /** A datagram in flight: packets with unbounded numbers, or the bytes of the machine. */
  datatype Datagram = Packets(ps: seq<Packet>) | Bytes(b: bytes)

  /** One side: its control block, the datagrams it has emitted, and what its application
      has seen. `log` records the fragments that were given sequence numbers, in order.
      `queuedBytes` is what `ikcp_send` put into snd_queue: the bytes of accepted messages,
      and in stream mode also those with which a refused call had filled a segment. */
  datatype Peer = Peer(p: Pcb, out: seq<Datagram>, log: seq<Frag>,
                       accepted: seq<bytes>, queuedBytes: bytes, delivered: seq<bytes>)

  datatype System = System(a: Peer, b: Peer)

  datatype Op = Send(data: bytes) | Recv(len: int) | Update(now: int) | Flush | Deliver(k: nat)

  /** `op` happens at side a or at side b. */
  datatype Event = Event(atA: bool, op: Op)

  function NewPeer(c: Config): Peer { Peer(Create(c), [], [], [], [], []) }

  function Start(ca: Config, cb: Config): System { System(NewPeer(ca), NewPeer(cb)) }

  predicate Compatible(ca: Config, cb: Config) {
    ConfigOk(ca) && ConfigOk(cb) && ca.conv == cb.conv
  }

  function Emit(m: Arith, ds: seq<seq<Packet>>): (r: seq<Datagram>)
    ensures |r| == |ds|
    ensures forall i :: 0 <= i < |ds| ==> r[i] == if m.Machine32? then Bytes(EncodeAll(ds[i])) else Packets(ds[i])
  {
    seq(|ds|, i requires 0 <= i < |ds| => if m.Machine32? then Bytes(EncodeAll(ds[i])) else Packets(ds[i]))
  }

  function DoSend(x: Peer, data: bytes): Peer
    requires 0 < x.p.cfg.mss
  {
    var r := KcpSpec.Send(x.p, data);
    x.(p := r.0,
       accepted := if r.1 == 0 then x.accepted + [data] else x.accepted,
       queuedBytes := x.queuedBytes + (if r.1 == 0 then data else data[..Extension(x.p, data)]))
  }

  function DoRecv(m: Arith, x: Peer, len: int): Peer {
    var r := KcpSpec.Recv(m, x.p, len);
    x.(p := r.p, delivered := if r.code >= 0 && len >= 0 then x.delivered + [r.data] else x.delivered)
  }

  function AdmittedCount(m: Arith, p: Pcb): (n: nat)
    ensures n <= |p.snd.queue|
  {
    var q := Admit(m, p, p.snd, EffectiveWindow(p)).queue;
    AdmitShrinksQueue(m, p, p.snd, EffectiveWindow(p));
    |p.snd.queue| - |q|
  }

  lemma AdmitShrinksQueue(m: Arith, p: Pcb, s: Sender, cwnd: int)
    ensures |Admit(m, p, s, cwnd).queue| <= |s.queue|
    decreases |s.queue|
  {
    if s.queue != [] {
      AdmitShrinksQueue(m, p, Sender(s.una, SeqAdd(m, s.nxt, 1), s.queue[1..], s.buf + [Numbered(p, s.queue[0], s.nxt)],
                                     s.nQue - 1, s.nBuf + 1), cwnd);
    }
  }

  function DoFlush(m: Arith, x: Peer): Peer {
    if !x.p.updated then x
    else
      var r := FlushNow(m, x.p);
      x.(p := r.p,
         out := x.out + Emit(m, Datagrams(r.out, x.p.cfg.mtu)),
         log := x.log + Frags(x.p.snd.queue[..AdmittedCount(m, x.p)]))
  }

  function DoUpdate(m: Arith, x: Peer, now: int): Peer {
    var t := Tick(x.p, U32(now));
    if t.1 then DoFlush(m, x.(p := t.0)) else x.(p := t.0)
  }

  function DoInput(m: Arith, x: Peer, d: Datagram): Peer
    requires 0 < x.p.cfg.mss
  {
    match d
    case Packets(ps) => x.(p := InputDatagram(m, x.p, ps))
    case Bytes(b) => x.(p := Input(x.p, b).0)
  }

  /** What `op` does at x, when y is the other side. */
  function Do(m: Arith, x: Peer, y: Peer, op: Op): Peer
    requires 0 < x.p.cfg.mss
  {
    match op
    case Send(data) => DoSend(x, data)
    case Recv(len) => DoRecv(m, x, len)
    case Update(now) => DoUpdate(m, x, now)
    case Flush => DoFlush(m, x)
    case Deliver(k) => if k < |y.out| then DoInput(m, x, y.out[k]) else x
  }

  predicate Running(s: System) { 0 < s.a.p.cfg.mss && 0 < s.b.p.cfg.mss }

  function Step(m: Arith, s: System, e: Event): System
    requires Running(s)
  {
    if e.atA then s.(a := Do(m, s.a, s.b, e.op)) else s.(b := Do(m, s.b, s.a, e.op))
  }

  lemma InputKeepsConfig(m: Arith, x: Peer, d: Datagram)
    requires 0 < x.p.cfg.mss
    ensures DoInput(m, x, d).p.cfg == x.p.cfg
  {
    hide InputPackets, InputLoop, GrowCwnd, ParseFastAck;
    if d.Packets? {
      InputPacketsKeepsConfig(m, Parsing(x.p, false, 0), d.ps);
    }
  }

  lemma FlushKeepsConfig(m: Arith, x: Peer)
    ensures DoFlush(m, x).p.cfg == x.p.cfg
  {
    hide Emit, Datagrams, AdmittedCount, Frags, Admit, Decisions, ReactToLoss;
  }

  lemma DoKeepsConfig(m: Arith, x: Peer, y: Peer, op: Op)
    requires 0 < x.p.cfg.mss
    ensures Do(m, x, y, op).p.cfg == x.p.cfg
  {
    hide DoFlush, DoInput, MoveReady;
    match op
    case Send(data) =>
    case Recv(len) =>
    case Update(now) => FlushKeepsConfig(m, x.(p := Tick(x.p, U32(now)).0));
    case Flush => FlushKeepsConfig(m, x);
    case Deliver(k) => if k < |y.out| { InputKeepsConfig(m, x, y.out[k]); }
  }

  lemma StepKeepsConfig(m: Arith, s: System, e: Event)
    requires Running(s)
    ensures Step(m, s, e).a.p.cfg == s.a.p.cfg && Step(m, s, e).b.p.cfg == s.b.p.cfg
  {
    hide Do;
    DoKeepsConfig(m, s.a, s.b, e.op);
    DoKeepsConfig(m, s.b, s.a, e.op);
  }

  /** The state after a run of events. */
  function Run(m: Arith, s: System, es: seq<Event>): (r: System)
    requires Running(s)
    ensures r.a.p.cfg == s.a.p.cfg && r.b.p.cfg == s.b.p.cfg
  {
    if es == [] then s
    else
      var n := |es| - 1;
      StepKeepsConfig(m, Run(m, s, es[..n]), es[n]);
      Step(m, Run(m, s, es[..n]), es[n])
  }

  lemma RunLast(m: Arith, s: System, es: seq<Event>, e: Event)
    requires Running(s)
    ensures Run(m, s, es + [e]) == Step(m, Run(m, s, es), e)
  {
    assert (es + [e])[..|es|] == es;
  }

  // ---- the messages in a run of fragments ----

  function FirstLen(fs: seq<Frag>): (n: nat)
    ensures n <= |fs| && (fs != [] ==> 0 < n)
  {
    if fs == [] then 0 else if fs[0].frg == 0 then 1 else 1 + FirstLen(fs[1..])
  }

  function Bytes0(fs: seq<Frag>): bytes {
    if fs == [] then [] else fs[0].data + Bytes0(fs[1..])
  }

  /** The messages of `fs`: each ends with the first fragment numbered 0. */
  function Messages(fs: seq<Frag>): seq<bytes>
    decreases |fs|
  {
    if fs == [] then [] else [Bytes0(fs[..FirstLen(fs)])] + Messages(fs[FirstLen(fs)..])
  }

  /** Fragment i is the last of a message, or the next lower number follows it. */
  predicate CountsDown(fs: seq<Frag>, i: nat)
    requires i < |fs|
  {
    && 0 <= fs[i].frg < WND_RCV - 1
    && (fs[i].frg > 0 ==> i + 1 < |fs| && fs[i + 1].frg == fs[i].frg - 1)
  }

  /** Nothing but complete messages of fewer than 128 fragments. */
  predicate Chained(fs: seq<Frag>) {
    forall i :: 0 <= i < |fs| ==> CountsDown(fs, i)
  }

  predicate Boundary(fs: seq<Frag>, n: nat) {
    n == 0 || (n <= |fs| && fs[n - 1].frg == 0)
  }
}
