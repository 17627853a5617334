/** The KCP control block as a value, and each entry point of ikcp.c as a function on
    it. Every function that handles sequence numbers takes the arithmetic to use; the
    class `Kcp.Endpoint` is proved to compute these functions with `Machine32`. */
module KcpSpec {
  import opened KcpSerial
  import opened KcpWire

  const RTO_DEF := 200
  const RTO_MAX := 60000
  const WND_SND := 32
  const WND_RCV := 128
  const PROBE_INIT := 7000
  const PROBE_LIMIT := 120000
  const THRESH_MIN := 2
  const THRESH_INIT := 2
  const NO_RESEND := 0xffff_ffff
  const INTERVAL := 100

  // ---- data model ----

  /** What `ikcp_create` and the configuration calls set and a run leaves alone. */
  datatype Config = Config(conv: int, mtu: int, mss: int, stream: bool, sndWnd: int, rcvWnd: int,
                           interval: int, minRto: int, nodelay: int, fastResend: int, fastLimit: int,
                           noCwnd: bool, deadLink: int)

  /** A segment on the sending side: its packet and its retransmission state. */
  datatype Segment = Segment(pkt: Packet, resendTs: int, rto: int, fastAck: int, xmit: int)

  datatype Sender = Sender(una: int, nxt: int, queue: seq<Segment>, buf: seq<Segment>, nQue: int, nBuf: int)

  datatype Receiver = Receiver(nxt: int, queue: seq<Packet>, buf: seq<Packet>, nQue: int, nBuf: int)

  datatype Ack = Ack(sn: int, ts: int)

  datatype Rtt = Rtt(srtt: int, rttVal: int, rto: int)

  datatype Congestion = Congestion(cwnd: int, incr: int, ssthresh: int)

  /** `probe` bits ASK_SEND and ASK_TELL, `ts_probe` and `probe_wait`. */
  datatype Probe = Probe(ask: bool, tell: bool, ts: int, wait: int)

  datatype Pcb = Pcb(cfg: Config, snd: Sender, rcv: Receiver, acks: seq<Ack>, rtt: Rtt, cc: Congestion,
                     probe: Probe, rmtWnd: int, current: int, tsFlush: int, updated: bool, xmit: int, dead: bool)

  /** What `ikcp_setmtu`, `ikcp_wndsize`, `ikcp_interval` and `ikcp_nodelay` can leave. */
  predicate ConfigOk(c: Config) {
    && IsU32(c.conv)
    && 50 <= c.mtu < TWO31 && c.mss == c.mtu - OVERHEAD
    && 0 < c.sndWnd < TWO31 && WND_RCV <= c.rcvWnd < TWO31
    && 10 <= c.interval <= 5000
    && 0 <= c.minRto < TWO31
    && 0 <= c.nodelay && 0 <= c.fastResend < TWO31
  }

  /** `ikcp_create`. */
  function Create(c: Config): Pcb {
    Pcb(c, Sender(0, 0, [], [], 0, 0), Receiver(0, [], [], 0, 0), [], Rtt(0, 0, RTO_DEF),
        Congestion(0, 0, THRESH_INIT), Probe(false, false, 0, 0), WND_RCV, 0, INTERVAL, false, 0, false)
  }

  // ---- ikcp_send ----

  function Blank(frg: int, data: bytes): Segment {
    Segment(Packet(0, 0, frg, 0, 0, 0, 0, data), 0, 0, 0, 0)
  }

  /** The fragments of a message: at most mss bytes each, numbered down to 0 (always 0 in
      stream mode). */
  function Fragments(data: bytes, mss: int, count: nat, stream: bool): (r: seq<Segment>)
    requires 0 < mss
    ensures |r| == count
    decreases count
  {
    if count == 0 then []
    else
      var size := Min(|data|, mss);
      [Blank(if stream then 0 else count - 1, data[..size])] + Fragments(data[size..], mss, count - 1, stream)
  }

  function FragmentCount(len: nat, mss: int): (n: nat)
    requires 0 < mss
  {
    if len <= mss then 1 else (len + mss - 1) / mss
  }

  /** Stream mode fills the last queued segment up to mss bytes first. */
  function Extension(p: Pcb, data: bytes): (n: nat)
    ensures n <= |data|
  {
    if !p.cfg.stream || p.snd.queue == [] then 0
    else
      var last := |p.snd.queue[|p.snd.queue| - 1].pkt.data|;
      if last < p.cfg.mss then Min(|data|, p.cfg.mss - last) else 0
  }

  function ExtendLast(queue: seq<Segment>, mss: int, more: bytes): seq<Segment>
    requires queue != []
  {
    var n := |queue| - 1;
    if |queue[n].pkt.data| < mss then queue[..n] + [Blank(0, queue[n].pkt.data + more)] else queue
  }

  function Send(p: Pcb, data: bytes): (r: (Pcb, int))
    requires 0 < p.cfg.mss
  {
    var n := Extension(p, data);
    var q := if p.cfg.stream && p.snd.queue != [] then ExtendLast(p.snd.queue, p.cfg.mss, data[..n]) else p.snd.queue;
    var p1 := p.(snd := p.snd.(queue := q));
    var rest := data[n..];
    if p.cfg.stream && rest == [] then (p1, 0)
    else
      var count := FragmentCount(|rest|, p.cfg.mss);
      if count >= WND_RCV then (p1, -2)
      else
        (p1.(snd := p1.snd.(queue := q + Fragments(rest, p.cfg.mss, count, p.cfg.stream),
                            nQue := p1.snd.nQue + count)), 0)
  }

  // ---- ikcp_peeksize, ikcp_recv ----

  /** How many packets `ikcp_recv` takes: through the first with frg 0. */
  function FirstMessage(q: seq<Packet>): (n: nat)
    ensures n <= |q|
    ensures q != [] ==> 0 < n
  {
    if q == [] then 0 else if q[0].frg == 0 then 1 else 1 + FirstMessage(q[1..])
  }

  function Payload(q: seq<Packet>): bytes {
    if q == [] then [] else Payload(q[..|q| - 1]) + q[|q| - 1].data
  }

  function PeekSize(r: Receiver): int {
    if r.queue == [] then -1
    else if r.queue[0].frg == 0 then |r.queue[0].data|
    else if r.nQue < r.queue[0].frg + 1 then -1
    else |Payload(r.queue[..FirstMessage(r.queue)])|
  }

  /** Both copies of the loop that moves in-order packets from rcv_buf to rcv_queue. */
  function MoveReady(m: Arith, wnd: int, r: Receiver): Receiver
    decreases |r.buf|
  {
    if r.buf != [] && r.buf[0].sn == r.nxt && r.nQue < wnd then
      MoveReady(m, wnd, Receiver(SeqAdd(m, r.nxt, 1), r.queue + [r.buf[0]], r.buf[1..], r.nQue + 1, r.nBuf - 1))
    else r
  }

  datatype RecvResult = RecvResult(p: Pcb, code: int, data: bytes)

  /** `ikcp_recv`: a negative `len` peeks. */
  function Recv(m: Arith, p: Pcb, len: int): (r: RecvResult) {
    if p.rcv.queue == [] then RecvResult(p, -1, [])
    else
      var room := if len < 0 then -len else len;
      var peek := PeekSize(p.rcv);
      if peek < 0 then RecvResult(p, -2, [])
      else if peek > room then RecvResult(p, -3, [])
      else
        var recover := p.rcv.nQue >= p.cfg.rcvWnd;
        var k := FirstMessage(p.rcv.queue);
        var data := Payload(p.rcv.queue[..k]);
        var taken := if len < 0 then p.rcv else p.rcv.(queue := p.rcv.queue[k..], nQue := p.rcv.nQue - k);
        var rcv := MoveReady(m, p.cfg.rcvWnd, taken);
        var tell := p.probe.tell || (rcv.nQue < p.cfg.rcvWnd && recover);
        RecvResult(p.(rcv := rcv, probe := p.probe.(tell := tell)), |data|, data)
  }

  // ---- the parts of ikcp_input ----

  /** `ikcp_update_ack`, for a round trip of `rtt` milliseconds. */
  function UpdateAck(c: Config, r: Rtt, rtt: nat): Rtt {
    var srtt, rttVal :=
      if r.srtt == 0 then rtt else Max((7 * r.srtt + rtt) / 8, 1),
      if r.srtt == 0 then rtt / 2
      else (3 * r.rttVal + (if rtt < r.srtt then r.srtt - rtt else rtt - r.srtt)) / 4;
    Rtt(srtt, rttVal, Min(Max(c.minRto, srtt + Max(c.interval, 4 * rttVal)), RTO_MAX))
  }

  /** `ikcp_parse_una`. */
  function DropAcked(m: Arith, buf: seq<Segment>, una: int): seq<Segment> {
    if buf != [] && SeqDiff(m, una, buf[0].pkt.sn) > 0 then DropAcked(m, buf[1..], una) else buf
  }

  /** `ikcp_shrink_buf`. */
  function Shrink(s: Sender): Sender {
    s.(una := if s.buf != [] then s.buf[0].pkt.sn else s.nxt)
  }

  function ParseUna(m: Arith, s: Sender, una: int): Sender {
    var buf := DropAcked(m, s.buf, una);
    s.(buf := buf, nBuf := s.nBuf - (|s.buf| - |buf|))
  }

  function InFlight(m: Arith, s: Sender, sn: int): bool {
    SeqDiff(m, sn, s.una) >= 0 && SeqDiff(m, sn, s.nxt) < 0
  }

  function RemoveSn(m: Arith, buf: seq<Segment>, sn: int): seq<Segment> {
    if buf == [] then []
    else if sn == buf[0].pkt.sn then buf[1..]
    else if SeqDiff(m, sn, buf[0].pkt.sn) < 0 then buf
    else [buf[0]] + RemoveSn(m, buf[1..], sn)
  }

  /** `ikcp_parse_ack`. */
  function ParseAck(m: Arith, s: Sender, sn: int): Sender {
    if !InFlight(m, s, sn) then s
    else
      var buf := RemoveSn(m, s.buf, sn);
      s.(buf := buf, nBuf := s.nBuf - (|s.buf| - |buf|))
  }

  function BumpFastAck(m: Arith, buf: seq<Segment>, sn: int): (r: seq<Segment>)
    ensures |r| == |buf|
  {
    if buf == [] || SeqDiff(m, sn, buf[0].pkt.sn) < 0 then buf
    else
      [if sn != buf[0].pkt.sn then buf[0].(fastAck := U32(buf[0].fastAck + 1)) else buf[0]]
      + BumpFastAck(m, buf[1..], sn)
  }

  /** `ikcp_parse_fastack`. */
  function ParseFastAck(m: Arith, s: Sender, sn: int): Sender {
    if !InFlight(m, s, sn) then s else s.(buf := BumpFastAck(m, s.buf, sn))
  }

  /** The insertion of `ikcp_parse_data`, scanning rcv_buf from its tail; a packet whose
      number is found is dropped. */
  function Insert(m: Arith, buf: seq<Packet>, p: Packet): seq<Packet> {
    if buf == [] then [p]
    else
      var n := |buf| - 1;
      if buf[n].sn == p.sn then buf
      else if SeqDiff(m, p.sn, buf[n].sn) > 0 then buf + [p]
      else Insert(m, buf[..n], p) + [buf[n]]
  }

  /** `ikcp_parse_data`. */
  function ParseData(m: Arith, wnd: int, r: Receiver, p: Packet): Receiver {
    if SeqDiff(m, p.sn, SeqAdd(m, r.nxt, wnd)) >= 0 || SeqDiff(m, p.sn, r.nxt) < 0 then r
    else
      var buf := Insert(m, r.buf, p);
      MoveReady(m, wnd, r.(buf := buf, nBuf := r.nBuf + |buf| - |r.buf|))
  }

  /** The state of the parsing loop: the control block, and the largest ack so far if
      there was one (`flag`, `maxack`). */
  datatype Parsing = Parsing(p: Pcb, acked: bool, maxAck: int)

  function InputAck(m: Arith, s: Parsing, h: Packet): Parsing {
    var p := s.p;
    var rtt := TimeDiff(p.current, h.ts);
    var p1 := if rtt >= 0 then p.(rtt := UpdateAck(p.cfg, p.rtt, rtt)) else p;
    var p2 := p1.(snd := Shrink(ParseAck(m, p1.snd, h.sn)));
    if !s.acked || SeqDiff(m, h.sn, s.maxAck) > 0 then Parsing(p2, true, h.sn) else s.(p := p2)
  }

  function InputPush(m: Arith, p: Pcb, h: Packet): Pcb {
    if SeqDiff(m, h.sn, SeqAdd(m, p.rcv.nxt, p.cfg.rcvWnd)) >= 0 then p
    else
      var p1 := p.(acks := p.acks + [Ack(h.sn, h.ts)]);
      if SeqDiff(m, h.sn, p.rcv.nxt) >= 0 then p1.(rcv := ParseData(m, p.cfg.rcvWnd, p.rcv, h)) else p1
  }

  /** One iteration of the parsing loop, for a packet that passed its checks. */
  function InputPacket(m: Arith, s: Parsing, h: Packet): Parsing {
    var p := s.p.(rmtWnd := h.wnd, snd := Shrink(ParseUna(m, s.p.snd, h.una)));
    var s1 := s.(p := p);
    if h.cmd == CMD_ACK then InputAck(m, s1, h)
    else if h.cmd == CMD_PUSH then s1.(p := InputPush(m, p, h))
    else if h.cmd == CMD_WASK then s1.(p := p.(probe := p.probe.(tell := true)))
    else s1
  }

  function InputPackets(m: Arith, s: Parsing, ps: seq<Packet>): Parsing
    decreases |ps|
  {
    if ps == [] then s else InputPackets(m, InputPacket(m, s, ps[0]), ps[1..])
  }

  lemma InputOne(m: Arith, s: Parsing, h: Packet)
    ensures InputPackets(m, s, [h]) == InputPacket(m, s, h)
  {
    assert [h][1..] == [];
    assert InputPackets(m, InputPacket(m, s, h), []) == InputPacket(m, s, h);
  }

  /** The congestion window grows when the datagram acknowledged something new. */
  function GrowCwnd(c: Congestion, mss: int, rmtWnd: int): Congestion
    requires 0 < mss
  {
    if c.cwnd >= rmtWnd then c
    else
      var g :=
        if c.cwnd < c.ssthresh then c.(cwnd := U32(c.cwnd + 1), incr := U32(c.incr + mss))
        else
          var i0 := if c.incr < mss then mss else c.incr;
          var i1 := U32(i0 + U32(mss * mss) / i0 + mss / 16);
          if U32((c.cwnd + 1) * mss) <= i1 then c.(cwnd := U32(i1 + mss - 1) / mss, incr := i1)
          else c.(incr := i1);
      if g.cwnd > rmtWnd then g.(cwnd := rmtWnd, incr := U32(rmtWnd * mss)) else g
  }

  function FinishInput(m: Arith, s: Parsing, prevUna: int): Pcb
    requires 0 < s.p.cfg.mss
  {
    var p := if s.acked then s.p.(snd := ParseFastAck(m, s.p.snd, s.maxAck)) else s.p;
    if SeqDiff(m, p.snd.una, prevUna) > 0 then p.(cc := GrowCwnd(p.cc, p.cfg.mss, p.rmtWnd)) else p
  }

  lemma InputPacketKeepsConfig(m: Arith, s: Parsing, h: Packet)
    ensures InputPacket(m, s, h).p.cfg == s.p.cfg
  {
  }

  lemma InputPacketsKeepsConfig(m: Arith, s: Parsing, ps: seq<Packet>)
    ensures InputPackets(m, s, ps).p.cfg == s.p.cfg
    decreases |ps|
  {
    if ps != [] {
      InputPacketKeepsConfig(m, s, ps[0]);
      InputPacketsKeepsConfig(m, InputPacket(m, s, ps[0]), ps[1..]);
    }
  }

  /** `ikcp_input` on a datagram already split into packets. */
  function InputDatagram(m: Arith, p: Pcb, ps: seq<Packet>): Pcb
    requires 0 < p.cfg.mss
  {
    InputPacketsKeepsConfig(m, Parsing(p, false, 0), ps);
    FinishInput(m, InputPackets(m, Parsing(p, false, 0), ps), p.snd.una)
  }

  /** The parsing loop on bytes. It stops with an error at the first packet of another
      conversation (-1), with a bad length (-2) or with an unknown command (-3); the
      packets before it have been processed. */
  function InputLoop(s: Parsing, b: bytes): (r: (Parsing, int))
    ensures r.0.p.cfg == s.p.cfg
    decreases |b|
  {
    if |b| < OVERHEAD then (s, 0)
    else if Get32(b, 0) != s.p.cfg.conv then (s, -1)
    else if |b| < OVERHEAD + LengthField(b) || LengthField(b) >= TWO31 then (s, -2)
    else if !KnownCommand(b[4]) then (s, -3)
    else
      InputPacketKeepsConfig(Machine32, s, Decode(b));
      InputLoop(InputPacket(Machine32, s, Decode(b)), b[OVERHEAD + LengthField(b)..])
  }

  /** `ikcp_input`. */
  function Input(p: Pcb, b: bytes): (r: (Pcb, int))
    requires 0 < p.cfg.mss
  {
    if |b| < OVERHEAD then (p, -1)
    else
      var l := InputLoop(Parsing(p, false, 0), b);
      if l.1 != 0 then (l.0.p, l.1) else (FinishInput(Machine32, l.0, p.snd.una), 0)
  }

  // ---- ikcp_flush ----

  function WndUnused(p: Pcb): int {
    if p.rcv.nQue < p.cfg.rcvWnd then p.cfg.rcvWnd - p.rcv.nQue else 0
  }

  /** A packet without payload, as flush fills it in; the window is cut to 16 bits when
      it is encoded. */
  function Control(p: Pcb, cmd: int, a: Ack): Packet {
    Packet(p.cfg.conv, cmd, 0, WndUnused(p) % TWO16, a.ts, a.sn, p.rcv.nxt, [])
  }

  function AckPackets(p: Pcb): (r: seq<Packet>)
    ensures |r| == |p.acks|
    ensures forall i :: 0 <= i < |r| ==> r[i] == Control(p, CMD_ACK, p.acks[i])
  {
    seq(|p.acks|, i requires 0 <= i < |p.acks| => Control(p, CMD_ACK, p.acks[i]))
  }

  /** The window probe timer. */
  function ProbeTimer(b: Probe, rmtWnd: int, current: int): Probe {
    if rmtWnd != 0 then b.(ts := 0, wait := 0)
    else if b.wait == 0 then b.(ts := U32(current + PROBE_INIT), wait := PROBE_INIT)
    else if TimeDiff(current, b.ts) >= 0 then
      var w := Max(b.wait, PROBE_INIT);
      var wait := Min(w + w / 2, PROBE_LIMIT);
      b.(ask := true, ts := U32(current + wait), wait := wait)
    else b
  }

  /** The two probe packets reuse the variable the acks were written from, so they carry
      the number and time of the last ack. */
  function ProbePackets(p: Pcb, b: Probe): seq<Packet> {
    var a := if p.acks == [] then Ack(0, 0) else p.acks[|p.acks| - 1];
    (if b.ask then [Control(p, CMD_WASK, a)] else []) + (if b.tell then [Control(p, CMD_WINS, a)] else [])
  }

  function EffectiveWindow(p: Pcb): int {
    var w := Min(p.cfg.sndWnd, p.rmtWnd);
    if p.cfg.noCwnd then w else Min(p.cc.cwnd, w)
  }

  /** A queued segment as it enters snd_buf under the next number. */
  function Numbered(p: Pcb, s: Segment, sn: int): Segment {
    Segment(Packet(p.cfg.conv, CMD_PUSH, s.pkt.frg, WndUnused(p), p.current, sn, p.rcv.nxt, s.pkt.data),
            p.current, p.rtt.rto, 0, 0)
  }

  /** Segments move from snd_queue to snd_buf while the window allows. */
  function Admit(m: Arith, p: Pcb, s: Sender, cwnd: int): Sender
    decreases |s.queue|
  {
    if SeqDiff(m, s.nxt, SeqAdd(m, s.una, cwnd)) < 0 && s.queue != [] then
      Admit(m, p, Sender(s.una, SeqAdd(m, s.nxt, 1), s.queue[1..], s.buf + [Numbered(p, s.queue[0], s.nxt)],
                         s.nQue - 1, s.nBuf + 1), cwnd)
    else s
  }

  /** What flush decides for one segment of snd_buf. */
  datatype Decision = Decision(seg: Segment, send: bool, lost: bool, fast: bool)

  function ResendLimit(c: Config): int {
    if c.fastResend > 0 then c.fastResend else NO_RESEND
  }

  function Stamped(p: Pcb, s: Segment): Segment {
    s.(pkt := s.pkt.(ts := p.current, wnd := WndUnused(p), una := p.rcv.nxt))
  }

  function Decide(p: Pcb, s: Segment): (d: Decision)
    ensures d.send <==> (s.xmit == 0 || d.lost || d.fast)
    ensures d.seg.pkt == if d.send then Stamped(p, s).pkt else s.pkt
  {
    if s.xmit == 0 then
      var rtoMin := if p.cfg.nodelay == 0 then p.rtt.rto / 8 else 0;
      Decision(Stamped(p, s.(xmit := 1, rto := p.rtt.rto, resendTs := U32(p.current + p.rtt.rto + rtoMin))),
               true, false, false)
    else if TimeDiff(p.current, s.resendTs) >= 0 then
      var rto := if p.cfg.nodelay == 0 then U32(s.rto + Max(s.rto, p.rtt.rto))
                 else U32(s.rto + Half(if p.cfg.nodelay < 2 then I32(s.rto) else p.rtt.rto));
      Decision(Stamped(p, s.(xmit := U32(s.xmit + 1), rto := rto, resendTs := U32(p.current + rto))),
               true, true, false)
    else if s.fastAck >= ResendLimit(p.cfg) && (I32(s.xmit) <= p.cfg.fastLimit || p.cfg.fastLimit <= 0) then
      Decision(Stamped(p, s.(xmit := U32(s.xmit + 1), fastAck := 0, resendTs := U32(p.current + s.rto))),
               true, false, true)
    else Decision(s, false, false, false)
  }

  function Decisions(p: Pcb, buf: seq<Segment>): (ds: seq<Decision>)
    ensures |ds| == |buf|
    ensures forall i :: 0 <= i < |buf| ==> ds[i] == Decide(p, buf[i])
  {
    seq(|buf|, i requires 0 <= i < |buf| => Decide(p, buf[i]))
  }

  function SegmentsOf(ds: seq<Decision>): (r: seq<Segment>)
    ensures |r| == |ds|
    ensures forall i :: 0 <= i < |ds| ==> r[i] == ds[i].seg
  {
    seq(|ds|, i requires 0 <= i < |ds| => ds[i].seg)
  }

  /** What the retransmission loop has sent and counted. */
  datatype Tally = Tally(out: seq<Packet>, lost: bool, fast: bool, xmit: int, dead: bool)

  function OnWire(p: Packet): Packet { p.(wnd := p.wnd % TWO16) }

  function Account(c: Config, t: Tally, d: Decision): Tally {
    Tally(if d.send then t.out + [OnWire(d.seg.pkt)] else t.out,
          t.lost || d.lost, t.fast || d.fast,
          if d.lost then U32(t.xmit + 1) else t.xmit,
          t.dead || (d.send && d.seg.xmit >= c.deadLink))
  }

  function AccountAll(c: Config, t: Tally, ds: seq<Decision>): Tally {
    if ds == [] then t else Account(c, AccountAll(c, t, ds[..|ds| - 1]), ds[|ds| - 1])
  }

  /** The retransmission loop over snd_buf. */
  function Resend(p: Pcb, buf: seq<Segment>): Tally {
    AccountAll(p.cfg, Tally([], false, false, p.xmit, p.dead), Decisions(p, buf))
  }

  /** The congestion window after the loop; `cwnd` is the effective window used above. */
  function ReactToLoss(m: Arith, p: Pcb, s: Sender, lost: bool, fast: bool, cwnd: int): Congestion {
    var c1 :=
      if fast then
        var ss := Max(SeqAdd(m, s.nxt, -s.una) / 2, THRESH_MIN);
        var w := U32(ss + ResendLimit(p.cfg));
        Congestion(w, U32(w * p.cfg.mss), ss)
      else p.cc;
    var c2 := if lost then Congestion(1, p.cfg.mss, Max(cwnd / 2, THRESH_MIN)) else c1;
    if c2.cwnd < 1 then c2.(cwnd := 1, incr := p.cfg.mss) else c2
  }

  datatype FlushResult = FlushResult(p: Pcb, out: seq<Packet>)

  /** `ikcp_flush` after its check that `ikcp_update` was called. */
  function FlushNow(m: Arith, p: Pcb): FlushResult {
    var timer := ProbeTimer(p.probe, p.rmtWnd, p.current);
    var cwnd := EffectiveWindow(p);
    var s := Admit(m, p, p.snd, cwnd);
    var r := Resend(p, s.buf);
    FlushResult(p.(acks := [], probe := timer.(ask := false, tell := false),
                   snd := s.(buf := SegmentsOf(Decisions(p, s.buf))),
                   cc := ReactToLoss(m, p, s, r.lost, r.fast, cwnd), xmit := r.xmit, dead := r.dead),
                AckPackets(p) + ProbePackets(p, timer) + r.out)
  }

  function Flush(m: Arith, p: Pcb): FlushResult {
    if p.updated then FlushNow(m, p) else FlushResult(p, [])
  }

  // ---- ikcp_update, ikcp_check ----

  /** The clock part of `ikcp_update`: the new state and whether to flush. */
  function Tick(p: Pcb, current: int): (Pcb, bool) {
    var ts0 := if p.updated then p.tsFlush else current;
    var slap0 := TimeDiff(current, ts0);
    var jump := slap0 >= 10000 || slap0 < -10000;
    var ts1 := if jump then current else ts0;
    var slap := if jump then 0 else slap0;
    var ts2 := U32(ts1 + p.cfg.interval);
    var ts3 := if TimeDiff(current, ts2) >= 0 then U32(current + p.cfg.interval) else ts2;
    (p.(current := current, updated := true, tsFlush := if slap >= 0 then ts3 else ts1), slap >= 0)
  }

  function Update(m: Arith, p: Pcb, current: int): FlushResult {
    var t := Tick(p, current);
    if t.1 then Flush(m, t.0) else FlushResult(t.0, [])
  }

  /** The time left to the earliest retransmission in `buf`, or None once one is due. */
  datatype Wait = Due | In(ms: int)

  function PacketWait(buf: seq<Segment>, current: int): Wait {
    if buf == [] then In(0x7fff_ffff)
    else
      match PacketWait(buf[..|buf| - 1], current)
      case Due => Due
      case In(t) =>
        var diff := TimeDiff(buf[|buf| - 1].resendTs, current);
        if diff <= 0 then Due else In(Min(diff, t))
  }

  /** `ikcp_check`. */
  function Check(p: Pcb, current: int): int {
    if !p.updated then current
    else
      var d := TimeDiff(current, p.tsFlush);
      if d >= 10000 || d < -10000 || d >= 0 then current
      else
        match PacketWait(p.snd.buf, current)
        case Due => current
        case In(t) => U32(current + Min(Min(t, TimeDiff(p.tsFlush, current)), p.cfg.interval))
  }
}
