/** The smoothed round-trip time and the retransmission timeout: how `ikcp_update_ack`
    relates to sections 2.2 and 2.3 of RFC 6298, and what it settles to. */
module KcpRtt {
  import opened KcpSerial
  import opened KcpWire
  import opened KcpSpec
  import opened KcpNet

  predicate RttOk(r: Rtt) { 0 <= r.srtt && 0 <= r.rttVal }

  function Distance(a: int, b: int): nat { if a < b then b - a else a - b }

  // ---- one sample ----

  /** After the first sample the smoothed time moves an eighth of the way, rounded down, and
      the variation a quarter of the way to the distance of the sample. */
  lemma SampleMoves(c: Config, r: Rtt, rtt: nat)
    requires RttOk(r) && 0 < r.srtt
    ensures var r' := UpdateAck(c, r, rtt);
            && r'.srtt == Max(r.srtt + (rtt - r.srtt) / 8, 1)
            && r'.rttVal == r.rttVal + (Distance(rtt, r.srtt) - r.rttVal) / 4
            && Min(r.srtt, rtt) <= r'.srtt <= Max(r.srtt, rtt)
            && r'.rttVal <= Max(r.rttVal, Distance(rtt, r.srtt))
            && RttOk(r')
  {
    assert 7 * r.srtt + rtt == 8 * r.srtt + (rtt - r.srtt);
    assert 3 * r.rttVal + Distance(rtt, r.srtt) == 4 * r.rttVal + (Distance(rtt, r.srtt) - r.rttVal);
  }

  /** The estimators of RFC 6298: SRTT <- 7/8 SRTT + 1/8 R' and
      RTTVAR <- 3/4 RTTVAR + 1/4 |SRTT - R'|, with the old SRTT in the second. */
  function RfcSrtt(srtt: real, r: real): real { (7.0 / 8.0) * srtt + r / 8.0 }

  function RfcVar(rttVar: real, srtt: real, r: real): real {
    (3.0 / 4.0) * rttVar + (if srtt < r then r - srtt else srtt - r) / 4.0
  }

  /** From r to r' in one step of section 2.2 for the first sample and of section 2.3
      afterwards, rounded down to whole milliseconds, the smoothed time to at least one. */
  predicate RfcStep(r: Rtt, rtt: nat, r': Rtt) {
    if r.srtt == 0 then
      r'.srtt == rtt && r'.rttVal as real <= rtt as real / 2.0 < r'.rttVal as real + 1.0
    else
      var srtt, rttVar := RfcSrtt(r.srtt as real, rtt as real),
                          RfcVar(r.rttVal as real, r.srtt as real, rtt as real);
      && (r'.srtt as real <= srtt < r'.srtt as real + 1.0 || (srtt < 1.0 && r'.srtt == 1))
      && r'.rttVal as real <= rttVar < r'.rttVal as real + 1.0
  }

  lemma FollowsRfc6298(c: Config, r: Rtt, rtt: nat)
    requires RttOk(r)
    ensures RfcStep(r, rtt, UpdateAck(c, r, rtt))
  {
    if r.srtt != 0 {
      Eighths(7 * r.srtt + rtt);
      Quarters(3 * r.rttVal + Distance(rtt, r.srtt));
    }
  }

  lemma Eighths(x: int)
    ensures (x / 8) as real <= x as real / 8.0 < (x / 8) as real + 1.0
  {
    assert x == 8 * (x / 8) + x % 8;
  }

  lemma Quarters(x: int)
    ensures (x / 4) as real <= x as real / 4.0 < (x / 4) as real + 1.0
  {
    assert x == 4 * (x / 4) + x % 4;
  }

  /** The timeout is SRTT + max(G, 4 RTTVAR), G being the flush interval, kept between the
      configured minimum and 60 seconds, of which the second wins; so it is never below the
      interval either. */
  predicate RtoOk(c: Config, r: Rtt) {
    Min(Max(c.minRto, c.interval), RTO_MAX) <= r.rto <= RTO_MAX
  }

  lemma TimeoutCovers(c: Config, r: Rtt, rtt: nat)
    requires RttOk(r)
    ensures var r' := UpdateAck(c, r, rtt);
            && RtoOk(c, r') && RttOk(r')
            && (r'.rto < RTO_MAX ==> r'.srtt + 4 * r'.rttVal <= r'.rto && r'.srtt + c.interval <= r'.rto)
            && (c.minRto < r'.rto < RTO_MAX ==> r'.rto == r'.srtt + Max(c.interval, 4 * r'.rttVal))
  {
  }

  // ---- equal samples ----

  /** The estimate after n samples of the same round trip. */
  function Repeated(c: Config, r: Rtt, rtt: nat, n: nat): Rtt {
    if n == 0 then r else UpdateAck(c, Repeated(c, r, rtt, n - 1), rtt)
  }

  /** The smoothed time comes closer by at least one until it is less than 8 below. */
  lemma {:induction false} SrttSettles(c: Config, r: Rtt, rtt: nat, n: nat)
    requires RttOk(r) && 0 < r.srtt && 0 < rtt
    ensures var s := Repeated(c, r, rtt, n);
            && RttOk(s) && 0 < s.srtt && Distance(rtt, s.srtt) <= Distance(rtt, r.srtt)
            && (0 <= rtt - s.srtt < 8 || Distance(rtt, s.srtt) <= Distance(rtt, r.srtt) - n)
            && s.rttVal <= Max(r.rttVal, Distance(rtt, r.srtt))
  {
    hide UpdateAck;
    if n > 0 {
      SrttSettles(c, r, rtt, n - 1);
      SampleMoves(c, Repeated(c, r, rtt, n - 1), rtt);
    }
  }

  /** From a settled smoothed time the variation falls by at least one until it is below 8. */
  lemma {:induction false} VariationSettles(c: Config, r: Rtt, rtt: nat, n: nat)
    requires RttOk(r) && 0 < r.srtt && 0 <= rtt - r.srtt < 8
    ensures var s := Repeated(c, r, rtt, n);
            && RttOk(s) && 0 < s.srtt && 0 <= rtt - s.srtt < 8
            && (s.rttVal < 8 || s.rttVal <= r.rttVal - n)
  {
    hide UpdateAck;
    if n > 0 {
      VariationSettles(c, r, rtt, n - 1);
      SampleMoves(c, Repeated(c, r, rtt, n - 1), rtt);
    }
  }

  lemma {:induction false} RepeatedAdds(c: Config, r: Rtt, rtt: nat, n: nat, k: nat)
    ensures Repeated(c, r, rtt, n + k) == Repeated(c, Repeated(c, r, rtt, n), rtt, k)
    decreases k
  {
    hide UpdateAck;
    if k > 0 {
      RepeatedAdds(c, r, rtt, n, k - 1);
    }
  }

  /** On a path with a constant round trip the estimate settles: the smoothed time to less
      than 8 below the round trip, the variation to less than 8, and the timeout with them. */
  lemma EstimateSettles(c: Config, r: Rtt, rtt: nat, n: nat)
    requires RttOk(r) && 0 < r.srtt && 0 < rtt
    requires Distance(rtt, r.srtt) + Max(r.rttVal, Distance(rtt, r.srtt)) < n
    ensures var s := Repeated(c, r, rtt, n);
            && 0 <= rtt - s.srtt < 8 && 0 <= s.rttVal < 8
            && Min(RTO_MAX, Max(c.minRto, rtt - 7 + c.interval)) <= s.rto
            && s.rto <= Min(RTO_MAX, Max(c.minRto, rtt + Max(c.interval, 28)))
  {
    hide UpdateAck;
    var k: nat := Distance(rtt, r.srtt);
    var s := Repeated(c, r, rtt, k);
    SrttSettles(c, r, rtt, k);
    RepeatedAdds(c, r, rtt, k, n - k);
    VariationSettles(c, s, rtt, n - k);
    VariationSettles(c, s, rtt, n - k - 1);
    LastTimeout(c, Repeated(c, s, rtt, n - k - 1), rtt);
  }

  lemma LastTimeout(c: Config, r: Rtt, rtt: nat)
    requires RttOk(r)
    ensures var r' := UpdateAck(c, r, rtt);
            r'.rto == Min(RTO_MAX, Max(c.minRto, r'.srtt + Max(c.interval, 4 * r'.rttVal)))
  {
  }

  // ---- whole runs ----

  /** The initial timeout stands until the first sample. */
  predicate EstimateOk(c: Config, r: Rtt) {
    RttOk(r) && (r == Rtt(0, 0, RTO_DEF) || RtoOk(c, r))
  }

  lemma InputPacketRtt(m: Arith, s: Parsing, h: Packet)
    requires EstimateOk(s.p.cfg, s.p.rtt)
    ensures EstimateOk(s.p.cfg, InputPacket(m, s, h).p.rtt)
  {
    hide ParseUna, ParseAck, ParseData;
    var rtt := TimeDiff(s.p.current, h.ts);
    if rtt >= 0 {
      TimeoutCovers(s.p.cfg, s.p.rtt, rtt);
    }
  }

  lemma {:induction false} InputPacketsRtt(m: Arith, s: Parsing, ps: seq<Packet>)
    requires EstimateOk(s.p.cfg, s.p.rtt)
    ensures EstimateOk(s.p.cfg, InputPackets(m, s, ps).p.rtt)
    decreases |ps|
  {
    hide InputPacket, EstimateOk;
    if ps != [] {
      InputPacketRtt(m, s, ps[0]);
      InputPacketKeepsConfig(m, s, ps[0]);
      InputPacketsRtt(m, InputPacket(m, s, ps[0]), ps[1..]);
    }
  }

  lemma {:induction false} InputLoopRtt(s: Parsing, b: bytes)
    requires EstimateOk(s.p.cfg, s.p.rtt)
    ensures EstimateOk(s.p.cfg, InputLoop(s, b).0.p.rtt)
    decreases |b|
  {
    hide InputPacket, EstimateOk, Get32, LengthField, Decode, KnownCommand;
    if |b| >= OVERHEAD && |b| >= OVERHEAD + LengthField(b) {
      InputPacketRtt(Machine32, s, Decode(b));
      InputPacketKeepsConfig(Machine32, s, Decode(b));
      InputLoopRtt(InputPacket(Machine32, s, Decode(b)), b[OVERHEAD + LengthField(b)..]);
    }
  }

  lemma InputRtt(m: Arith, x: Peer, d: Datagram)
    requires 0 < x.p.cfg.mss && EstimateOk(x.p.cfg, x.p.rtt)
    ensures EstimateOk(x.p.cfg, DoInput(m, x, d).p.rtt)
  {
    hide InputPackets, InputLoop, EstimateOk, GrowCwnd, ParseFastAck;
    match d
    case Packets(ps) => InputPacketsRtt(m, Parsing(x.p, false, 0), ps);
    case Bytes(b) => InputLoopRtt(Parsing(x.p, false, 0), b);
  }

  lemma DoRtt(m: Arith, x: Peer, y: Peer, op: Op)
    requires 0 < x.p.cfg.mss && EstimateOk(x.p.cfg, x.p.rtt)
    ensures EstimateOk(x.p.cfg, Do(m, x, y, op).p.rtt)
  {
    hide EstimateOk, DoInput;
    if op.Deliver? && op.k < |y.out| {
      InputRtt(m, x, y.out[op.k]);
    } else {
      OthersKeepRtt(m, x, y, op);
    }
  }

  lemma OthersKeepRtt(m: Arith, x: Peer, y: Peer, op: Op)
    requires 0 < x.p.cfg.mss && !(op.Deliver? && op.k < |y.out|)
    ensures Do(m, x, y, op).p.rtt == x.p.rtt
  {
  }

  /** In every state of every run, of the unbounded protocol and of the machine alike, the
      timeout of each side is the initial one or lies between the configured minimum and
      60 seconds. */
  lemma {:induction false} RunTimeouts(m: Arith, ca: Config, cb: Config, es: seq<Event>)
    requires Compatible(ca, cb)
    ensures var s := Run(m, Start(ca, cb), es);
            EstimateOk(ca, s.a.p.rtt) && EstimateOk(cb, s.b.p.rtt)
    decreases |es|
  {
    hide Do, EstimateOk;
    if es == [] {
      StartRtt(ca);
      StartRtt(cb);
    } else {
      var n := |es| - 1;
      var s := Run(m, Start(ca, cb), es[..n]);
      RunTimeouts(m, ca, cb, es[..n]);
      DoRtt(m, s.a, s.b, es[n].op);
      DoRtt(m, s.b, s.a, es[n].op);
    }
  }

  lemma StartRtt(c: Config)
    ensures EstimateOk(c, NewPeer(c).p.rtt)
  {
  }
}
