/** `ikcp_update` and `ikcp_check`: when a flush happens, and how exactly check predicts
    it. All times are 32-bit words and all comparisons wrap. */
module KcpTimer {
  import opened KcpSerial
  import opened KcpWire
  import opened KcpSpec

  /** Some segment in flight is due for retransmission at time t. */
  predicate SomeDue(buf: seq<Segment>, t: int) {
    exists i :: 0 <= i < |buf| && TimeDiff(t, buf[i].resendTs) >= 0
  }

  /** A clock that has moved on by d milliseconds. */
  lemma Later(now: int, d: int, ts: int)
    requires IsU32(now) && 0 <= d && d + TimeDiff(now, ts) < TWO31
    ensures TimeDiff(U32(now + d), ts) == TimeDiff(now, ts) + d
  {
    assert TimeDiff(U32(now + d), ts) == I32(now + d - ts) by {
      WrapShift(now + d - ts, -((now + d) / TWO32));
      assert U32(now + d) == now + d - ((now + d) / TWO32) * TWO32;
    }
    var q := (now - ts) / TWO32;
    var u := (now - ts) % TWO32;
    assert now - ts == q * TWO32 + u;
    var x := TimeDiff(now, ts);
    assert x == u || x == u - TWO32;
    if x == u {
      WrapShift(x + d, q);
      assert now + d - ts == x + d + q * TWO32;
    } else {
      WrapShift(x + d, q + 1);
      assert now + d - ts == x + d + (q + 1) * TWO32;
    }
  }

  lemma Opposite(a: int, b: int)
    requires TimeDiff(a, b) != -TWO31
    ensures TimeDiff(b, a) == -TimeDiff(a, b)
  {
    var q, u := (a - b) / TWO32, (a - b) % TWO32;
    assert a - b == q * TWO32 + u;
    if u == 0 {
      WrapShift(0, -q);
    } else {
      WrapShift(TWO32 - u, -q - 1);
      assert b - a == (TWO32 - u) + (-q - 1) * TWO32;
    }
  }

  /** The scan for the next retransmission returns the smallest positive wait, and Due
      exactly when some segment is due already. */
  lemma {:induction false} PacketWaitIs(buf: seq<Segment>, now: int)
    ensures PacketWait(buf, now) == Due <==> exists i :: 0 <= i < |buf| && TimeDiff(buf[i].resendTs, now) <= 0
    ensures PacketWait(buf, now).In? ==>
              var t := PacketWait(buf, now).ms;
              && 0 < t <= 0x7fff_ffff
              && (forall i :: 0 <= i < |buf| ==> t <= TimeDiff(buf[i].resendTs, now))
              && (t < 0x7fff_ffff ==> exists i :: 0 <= i < |buf| && t == TimeDiff(buf[i].resendTs, now))
    decreases |buf|
  {
    if buf != [] {
      var n := |buf| - 1;
      PacketWaitIs(buf[..n], now);
      assert forall i :: 0 <= i < n ==> buf[..n][i] == buf[i];
      assert PacketWait(buf, now) == Due && PacketWait(buf[..n], now).In? ==> TimeDiff(buf[n].resendTs, now) <= 0;
    }
  }

  /** How many milliseconds ahead `ikcp_check` schedules the next call. */
  function Ahead(p: Pcb, now: int): int { TimeDiff(Check(p, now), now) }

  /** The wait that `ikcp_check` computes when it does not answer "now". */
  lemma CheckWait(p: Pcb, now: int)
    requires ConfigOk(p.cfg) && IsU32(now) && IsU32(p.tsFlush)
    requires p.updated && -10000 <= TimeDiff(now, p.tsFlush) < 0
    requires PacketWait(p.snd.buf, now).In?
    ensures var t, f := PacketWait(p.snd.buf, now).ms, -TimeDiff(now, p.tsFlush);
            Ahead(p, now) == Min(Min(t, f), p.cfg.interval) && 0 < f && 0 < t
  {
    PacketWaitIs(p.snd.buf, now);
    Opposite(now, p.tsFlush);
    var d := Min(Min(PacketWait(p.snd.buf, now).ms, TimeDiff(p.tsFlush, now)), p.cfg.interval);
    assert TimeDiff(now, now) == 0;
    Later(now, d, now);
  }

  /** Before the moment `ikcp_check` names nothing happens: an update there does not flush,
      and no segment in flight is due. The moment is at most one interval away. */
  lemma NothingBeforeCheck(p: Pcb, now: int, d: int)
    requires ConfigOk(p.cfg) && IsU32(now) && IsU32(p.tsFlush)
    requires 0 <= d < Ahead(p, now)
    ensures Ahead(p, now) <= p.cfg.interval
    ensures !Tick(p, U32(now + d)).1
    ensures !SomeDue(p.snd.buf, U32(now + d))
  {
    CheckAheadOnlyWhenQuiet(p, now);
    CheckWait(p, now);
    PacketWaitIs(p.snd.buf, now);
    Later(now, d, p.tsFlush);
    forall i | 0 <= i < |p.snd.buf| ensures TimeDiff(U32(now + d), p.snd.buf[i].resendTs) < 0 {
      var ts := p.snd.buf[i].resendTs;
      FutureIsNegative(now, ts);
      Later(now, d, ts);
    }
  }

  lemma FutureIsNegative(now: int, ts: int)
    requires 0 < TimeDiff(ts, now)
    ensures TimeDiff(now, ts) == -TimeDiff(ts, now)
  {
    Opposite(ts, now);
  }

  lemma CheckAheadOnlyWhenQuiet(p: Pcb, now: int)
    requires 0 < Ahead(p, now)
    ensures p.updated && -10000 <= TimeDiff(now, p.tsFlush) < 0 && PacketWait(p.snd.buf, now).In?
  {
    assert TimeDiff(now, now) == 0;
  }

  /** At the moment itself something is due, unless check stopped at one interval. */
  lemma SomethingAtCheck(p: Pcb, now: int)
    requires ConfigOk(p.cfg) && IsU32(now) && IsU32(p.tsFlush)
    requires 0 < Ahead(p, now) < p.cfg.interval
    ensures Tick(p, Check(p, now)).1 || SomeDue(p.snd.buf, Check(p, now))
  {
    CheckAheadOnlyWhenQuiet(p, now);
    CheckWait(p, now);
    PacketWaitIs(p.snd.buf, now);
    var t, f := PacketWait(p.snd.buf, now).ms, -TimeDiff(now, p.tsFlush);
    var d := Min(Min(t, f), p.cfg.interval);
    assert Check(p, now) == U32(now + d) by { Opposite(now, p.tsFlush); }
    if f <= t {
      Later(now, d, p.tsFlush);
    } else {
      var i :| 0 <= i < |p.snd.buf| && t == TimeDiff(p.snd.buf[i].resendTs, now);
      FutureIsNegative(now, p.snd.buf[i].resendTs);
      Later(now, d, p.snd.buf[i].resendTs);
      assert TimeDiff(U32(now + d), p.snd.buf[i].resendTs) >= 0;
    }
  }

  /** When check answers "now", an update flushes or a segment is due. */
  lemma CheckNowMeansWork(p: Pcb, now: int)
    requires ConfigOk(p.cfg) && IsU32(now) && IsU32(p.tsFlush) && Ahead(p, now) == 0
    ensures Tick(p, now).1 || exists i :: 0 <= i < |p.snd.buf| && TimeDiff(p.snd.buf[i].resendTs, now) <= 0
  {
    if p.updated && -10000 <= TimeDiff(now, p.tsFlush) < 0 {
      PacketWaitIs(p.snd.buf, now);
      if PacketWait(p.snd.buf, now).In? {
        CheckWait(p, now);
      }
    } else if !p.updated {
      assert TimeDiff(now, now) == 0;
    }
  }

  /** After an update that flushes, the next flush is planned within one interval; the
      plan is never in the past. */
  lemma FlushReschedules(p: Pcb, now: int)
    requires ConfigOk(p.cfg) && IsU32(now)
    ensures var t := Tick(p, now);
            t.1 ==> 0 < TimeDiff(t.0.tsFlush, now) <= p.cfg.interval
  {
    var t := Tick(p, now);
    if t.1 {
      var ts0 := if p.updated then p.tsFlush else now;
      var slap0 := TimeDiff(now, ts0);
      var ts1 := if slap0 >= 10000 || slap0 < -10000 then now else ts0;
      assert TimeDiff(now, now) == 0;
      var slap := TimeDiff(now, ts1);
      assert 0 <= slap < 10000;
      Opposite(now, ts1);
      var q, k := p.cfg.interval, (ts1 + p.cfg.interval) / TWO32;
      AfterShift(ts1, q, now);
      AfterShift(now, q, now);
      Opposite(U32(ts1 + q), now);
    }
  }

  lemma AfterShift(ts: int, q: int, now: int)
    requires -10000 < TimeDiff(ts, now) <= 0 && 0 <= q <= 5000
    ensures TimeDiff(U32(ts + q), now) == TimeDiff(ts, now) + q
  {
    WrapShift(ts, -(ts / TWO32));
    assert TimeDiff(U32(ts), now) == TimeDiff(ts, now) by {
      WrapShift(ts - now, -(ts / TWO32));
      assert U32(ts) == ts - (ts / TWO32) * TWO32;
    }
    Later(U32(ts), q, now);
    WrapAdd(ts, q);
  }

  /** When `ikcp_update` flushes, and when the next flush is planned: the first call, and one
      whose clock is 10 seconds or more off the plan, flush and start over from the clock; an
      early call does neither; a late one flushes and keeps the phase, unless it comes a whole
      interval late. */
  lemma TickExact(p: Pcb, now: int)
    requires ConfigOk(p.cfg) && IsU32(now) && IsU32(p.tsFlush)
    ensures var t, late := Tick(p, now), TimeDiff(now, p.tsFlush);
            && t.0 == p.(current := now, updated := true, tsFlush := t.0.tsFlush)
            && if !p.updated || late < -10000 || 10000 <= late then
                 t.1 && t.0.tsFlush == U32(now + p.cfg.interval)
               else if late < 0 then !t.1 && t.0.tsFlush == p.tsFlush
               else if late < p.cfg.interval then t.1 && t.0.tsFlush == U32(p.tsFlush + p.cfg.interval)
               else t.1 && t.0.tsFlush == U32(now + p.cfg.interval)
  {
    hide U32;
    var q, late := p.cfg.interval, TimeDiff(now, p.tsFlush);
    SameTime(now);
    Later(now, q, now);
    FutureIsNegative(now, U32(now + q));
    if -10000 <= late < 10000 {
      Opposite(now, p.tsFlush);
      if 0 <= late {
        AfterShift(p.tsFlush, q, now);
        Opposite(U32(p.tsFlush + q), now);
      }
    }
  }

  lemma SameTime(now: int)
    ensures TimeDiff(now, now) == 0
  {
  }

  /** `ikcp_update` flushes in these cases with the clock it was given, and otherwise sends
      nothing. */
  lemma UpdateFlushes(m: Arith, p: Pcb, now: int)
    ensures var t, r := Tick(p, now), KcpSpec.Update(m, p, now);
            r == if t.1 then FlushNow(m, t.0) else FlushResult(t.0, [])
  {
    hide FlushNow, U32, TimeDiff;
  }

  /** A new control block: nothing sent, received or due, a timeout of 200 ms, a threshold of 2
      with a closed congestion window, room for 128 packets at the peer, and a first flush
      planned at 100 ms. */
  lemma Fresh(c: Config)
    ensures var p := Create(c);
            && p.cfg == c && p.snd == Sender(0, 0, [], [], 0, 0) && p.rcv == Receiver(0, [], [], 0, 0) && p.acks == []
            && p.rtt == Rtt(0, 0, 200) && p.cc == Congestion(0, 0, 2) && p.probe == Probe(false, false, 0, 0)
            && p.rmtWnd == 128 && p.current == 0 && p.tsFlush == 100 && !p.updated && p.xmit == 0 && !p.dead
  {
  }

  /** Its first update flushes, at whatever time it comes. */
  lemma FirstUpdateFlushes(c: Config, now: int)
    requires ConfigOk(c) && IsU32(now)
    ensures var t := Tick(Create(c), now);
            t.1 && t.0.tsFlush == U32(now + c.interval)
  {
    Fresh(c);
    TickExact(Create(c), now);
  }
}
