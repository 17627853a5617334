/** Two control blocks on the heap exchanging bytes: driving `Kcp.Endpoint` objects through a
    run of events is the run of the 32-bit machine, so its theorems hold of the objects. */
module KcpHosts {
  import opened KcpSerial
  import opened KcpWire
  import opened KcpSpec
  import opened KcpNet
  import opened KcpSafety
  import opened KcpStream
  import opened KcpWrap
  import opened Kcp

  function AsDatagrams(sent: seq<bytes>): (r: seq<Datagram>)
    ensures |r| == |sent| && forall i :: 0 <= i < |sent| ==> r[i] == Bytes(sent[i])
  {
    seq(|sent|, i requires 0 <= i < |sent| => Bytes(sent[i]))
  }

  lemma AsDatagramsConcat(a: seq<bytes>, b: seq<bytes>)
    ensures AsDatagrams(a + b) == AsDatagrams(a) + AsDatagrams(b)
  {
  }

  lemma OutputIsEmitted(ps: seq<Packet>, mtu: int)
    ensures AsDatagrams(Output(ps, mtu)) == Emit(Machine32, Datagrams(ps, mtu))
  {
    hide Output, Datagrams, EncodeAll;
    OutputIsPacked(ps, mtu);
  }

  /** One side of a connection: its control block, the datagrams it has sent, and what its
      application has handed over and received. */
  class Host {
    const kcp: Endpoint
    var sent: seq<bytes>
    var received: seq<bytes>
    ghost var log: seq<Frag>
    ghost var accepted: seq<bytes>
    ghost var queuedBytes: bytes

    ghost function Side(): Peer
      reads this, kcp
    {
      Peer(kcp.Cb(), AsDatagrams(sent), log, accepted, queuedBytes, received)
    }

    constructor (c: Config)
      ensures Side() == NewPeer(c) && fresh(kcp)
    {
      kcp := new Endpoint(c);
      sent, received, log, accepted, queuedBytes := [], [], [], [], [];
    }

    method Send(data: bytes)
      requires 0 < kcp.cfg.mss
      modifies this, kcp
      ensures Side() == DoSend(old(Side()), data)
    {
      ghost var n := Extension(kcp.Cb(), data);
      var code := kcp.Send(data);
      if code == 0 {
        accepted := accepted + [data];
      }
      queuedBytes := queuedBytes + (if code == 0 then data else data[..n]);
    }

    method Recv(len: int)
      modifies this, kcp
      ensures Side() == DoRecv(Machine32, old(Side()), len)
    {
      hide KcpSpec.Recv;
      var code, data := kcp.Recv(len);
      if code >= 0 && len >= 0 {
        received := received + [data];
      }
    }

    ghost method Record(p: Pcb, out: seq<bytes>, ps: seq<Packet>)
      requires p.updated && FlushNow(Machine32, p) == FlushResult(kcp.Cb(), ps) && out == Output(ps, p.cfg.mtu)
      modifies `log
      ensures var x := Peer(p, AsDatagrams(sent), old(log), accepted, queuedBytes, received);
              Side().(out := AsDatagrams(sent + out)) == DoFlush(Machine32, x)
    {
      hide FlushNow, Output;
      log := log + Frags(p.snd.queue[..AdmittedCount(Machine32, p)]);
      OutputIsEmitted(ps, p.cfg.mtu);
      AsDatagramsConcat(sent, out);
    }

    method Flush()
      modifies this, kcp
      ensures Side() == DoFlush(Machine32, old(Side()))
    {
      hide FlushNow, Output, AdmittedCount;
      ghost var p := kcp.Cb();
      var out := kcp.Flush();
      if p.updated {
        FlushNowKeepsConfig(p);
        Record(p, out, FlushNow(Machine32, p).out);
      } else {
        NoOutput(p.cfg.mtu);
        assert sent + out == sent;
      }
      sent := sent + out;
    }

    method Update(now: int)
      modifies this, kcp
      ensures Side() == DoUpdate(Machine32, old(Side()), now)
    {
      hide FlushNow, Output, AdmittedCount, Tick;
      TickUpdates(kcp.Cb(), U32(now));
      ghost var t := Tick(kcp.Cb(), U32(now));
      var out := kcp.Update(U32(now));
      if t.1 {
        FlushNowKeepsConfig(t.0);
        Record(t.0, out, FlushNow(Machine32, t.0).out);
      } else {
        NoOutput(t.0.cfg.mtu);
        assert sent + out == sent;
      }
      sent := sent + out;
    }

    method Deliver(data: bytes)
      requires 0 < kcp.cfg.mss
      modifies this, kcp
      ensures Side() == DoInput(Machine32, old(Side()), Bytes(data))
    {
      hide Input;
      var _ := kcp.Input(data);
    }

    /** One event at this side, the datagrams of the other side being `offered`. */
    method Perform(op: Op, offered: seq<bytes>, ghost other: Peer)
      requires 0 < kcp.cfg.mss && other.out == AsDatagrams(offered)
      modifies this, kcp
      ensures Side() == Do(Machine32, old(Side()), other, op)
    {
      hide DoSend, DoRecv, DoFlush, DoUpdate, DoInput;
      match op {
        case Send(data) => Send(data);
        case Recv(len) => Recv(len);
        case Update(now) => Update(now);
        case Flush => Flush();
        case Deliver(k) =>
          if k < |offered| {
            Deliver(offered[k]);
          }
      }
    }
  }

  lemma FlushNowKeepsConfig(p: Pcb)
    ensures FlushNow(Machine32, p).p.cfg == p.cfg
  {
  }

  lemma NoOutput(mtu: int)
    ensures Output([], mtu) == []
  {
    BufferOfNone(mtu);
  }

  lemma TickUpdates(p: Pcb, now: int)
    ensures Tick(p, now).0.updated && Tick(p, now).0.cfg == p.cfg
  {
  }

  /** Two hosts driven through any run of events are the machine's run. */
  method Simulate(ca: Config, cb: Config, es: seq<Event>) returns (a: Host, b: Host)
    requires Compatible(ca, cb)
    ensures System(a.Side(), b.Side()) == Run(Machine32, Start(ca, cb), es)
  {
    hide Do, Host.Side;
    a := new Host(ca);
    b := new Host(cb);
    var i := 0;
    assert es[..0] == [];
    while i < |es|
      invariant 0 <= i <= |es| && fresh(a) && fresh(a.kcp) && fresh(b) && fresh(b.kcp)
      invariant a != b && a.kcp != b.kcp
      invariant System(a.Side(), b.Side()) == Run(Machine32, Start(ca, cb), es[..i])
    {
      assert es[..i + 1][..i] == es[..i];
      SideFields(a);
      SideFields(b);
      if es[i].atA {
        a.Perform(es[i].op, b.sent, b.Side());
      } else {
        b.Perform(es[i].op, a.sent, a.Side());
      }
      i := i + 1;
    }
    assert es[..i] == es;
  }

  lemma SideFields(h: Host)
    ensures h.Side().out == AsDatagrams(h.sent) && h.Side().p.cfg == h.kcp.cfg && h.Side().delivered == h.received
  {
  }

  /** End to end: what each application has received from the control block is a prefix of
      what the other one's was given, if no delivery was stale: messages outside stream mode,
      bytes if no refused call extended a segment, as when no message exceeds 127 segments. */
  method Converse(ca: Config, cb: Config, es: seq<Event>) returns (a: Host, b: Host)
    requires Compatible(ca, cb) && TimelyRun(Start(ca, cb), es)
    ensures !ca.stream ==> b.received <= a.accepted
    ensures !cb.stream ==> a.received <= b.accepted
    ensures Concat(b.received) <= a.queuedBytes && Concat(a.received) <= b.queuedBytes
    ensures CleanRun(Machine32, Start(ca, cb), es, true) ==> Concat(b.received) <= Concat(a.accepted)
    ensures CleanRun(Machine32, Start(ca, cb), es, false) ==> Concat(a.received) <= Concat(b.accepted)
    ensures SmallSends(es, true, ca.mss) ==> Concat(b.received) <= Concat(a.accepted)
    ensures SmallSends(es, false, cb.mss) ==> Concat(a.received) <= Concat(b.accepted)
  {
    hide Run, TimelyRun, Concat, CleanRun, SmallSends;
    MachineEndToEnd(ca, cb, es);
    MachineBytesEndToEnd(ca, cb, es);
    if SmallSends(es, true, ca.mss) {
      SmallIsClean(Machine32, ca, cb, es, true);
    }
    if SmallSends(es, false, cb.mss) {
      SmallIsClean(Machine32, ca, cb, es, false);
    }
    a, b := Simulate(ca, cb, es);
  }
}
