/** The sending side on unbounded sequence numbers: what each step of snd_queue and
    snd_buf keeps. */
module KcpSender {
  import opened KcpSerial
  import opened KcpWire
  import opened KcpSpec
  import opened KcpNet

  const MAX_SPAN := 65535

  predicate Ascending(buf: seq<Segment>) {
    forall i, j :: 0 <= i < j < |buf| ==> buf[i].pkt.sn < buf[j].pkt.sn
  }

  /** snd_buf: strictly ascending numbers in [lo, hi), each with the fragment that was
      given that number. */
  predicate BufOk(buf: seq<Segment>, lo: int, hi: int, log: seq<Frag>) {
    && 0 <= lo && hi <= |log| && Ascending(buf)
    && forall i :: 0 <= i < |buf| ==>
         && lo <= buf[i].pkt.sn < hi
         && FragOf(buf[i].pkt) == log[buf[i].pkt.sn]
         && buf[i].pkt.cmd == CMD_PUSH
  }

  /** The send window: snd_una is the oldest number in flight, or snd_nxt when none is;
      the counters are the queue lengths; no more than 65535 numbers are live. */
  predicate SndOk(s: Sender, log: seq<Frag>) {
    && s.nxt == |log| && 0 <= s.una <= s.nxt <= s.una + MAX_SPAN
    && BufOk(s.buf, s.una, s.nxt, log)
    && s.una == Shrink(s).una
    && s.nBuf == |s.buf| && s.nQue == |s.queue|
  }

  predicate Unacked(s: Sender, sn: int) {
    exists i :: 0 <= i < |s.buf| && s.buf[i].pkt.sn == sn
  }

  // ---- acknowledgements ----

  lemma {:induction false} DropAckedIs(buf: seq<Segment>, una: int) returns (k: nat)
    ensures k <= |buf| && DropAcked(Unbounded, buf, una) == buf[k..]
    ensures forall i :: 0 <= i < k ==> buf[i].pkt.sn < una
    ensures k < |buf| ==> una <= buf[k].pkt.sn
    decreases |buf|
  {
    if buf != [] && una > buf[0].pkt.sn {
      var j := DropAckedIs(buf[1..], una);
      k := j + 1;
      assert buf[1..][j..] == buf[k..];
      assert forall i :: 1 <= i < k ==> buf[i] == buf[1..][i - 1];
    } else {
      k := 0;
    }
  }

  lemma {:induction false} RemoveSnIs(buf: seq<Segment>, sn: int) returns (k: nat)
    ensures k <= |buf|
    ensures k < |buf| ==> buf[k].pkt.sn == sn && RemoveSn(Unbounded, buf, sn) == buf[..k] + buf[k + 1..]
    ensures k == |buf| ==> RemoveSn(Unbounded, buf, sn) == buf
    decreases |buf|
  {
    if buf == [] || sn < buf[0].pkt.sn {
      k := |buf|;
    } else if sn == buf[0].pkt.sn {
      k := 0;
    } else {
      var j := RemoveSnIs(buf[1..], sn);
      k := j + 1;
      assert buf == [buf[0]] + buf[1..];
      if k < |buf| {
        assert buf[..k] + buf[k + 1..] == [buf[0]] + (buf[1..][..j] + buf[1..][j + 1..]);
      }
    }
  }

  lemma {:induction false} BumpFastAckIs(m: Arith, buf: seq<Segment>, sn: int)
    ensures var r := BumpFastAck(m, buf, sn);
            |r| == |buf| && forall i :: 0 <= i < |buf| ==> r[i] == buf[i].(fastAck := r[i].fastAck)
    decreases |buf|
  {
    if buf != [] {
      BumpFastAckIs(m, buf[1..], sn);
    }
  }

  /** A cumulative acknowledgement releases exactly the segments below `una`. */
  lemma ParseUnaKeeps(s: Sender, una: int, log: seq<Frag>)
    requires SndOk(s, log) && una <= s.nxt
    ensures var r := Shrink(ParseUna(Unbounded, s, una));
            && SndOk(r, log) && s.una <= r.una
            && r.queue == s.queue
            && forall sn :: Unacked(s, sn) ==> (Unacked(r, sn) <==> una <= sn)
  {
    var k := DropAckedIs(s.buf, una);
    var r := Shrink(ParseUna(Unbounded, s, una));
    assert r.buf == s.buf[k..];
    hide DropAcked;
    DropKeeps(s.buf, k, s.una, s.nxt, log);
    forall sn | Unacked(s, sn) ensures Unacked(r, sn) <==> una <= sn {
      var i :| 0 <= i < |s.buf| && s.buf[i].pkt.sn == sn;
      if i >= k {
        assert r.buf[i - k] == s.buf[i];
        assert una <= s.buf[k].pkt.sn <= sn;
      }
    }
  }

  /** Dropping a prefix of snd_buf. */
  lemma DropKeeps(buf: seq<Segment>, k: nat, lo: int, hi: int, log: seq<Frag>)
    requires BufOk(buf, lo, hi, log) && k <= |buf|
    ensures var r := buf[k..];
            BufOk(r, lo, hi, log) && (r != [] ==> BufOk(r, r[0].pkt.sn, hi, log))
  {
  }

  function RemoveAt(s: Sender, k: nat): Sender
    requires k < |s.buf|
  {
    Shrink(s.(buf := s.buf[..k] + s.buf[k + 1..], nBuf := s.nBuf - 1))
  }

  lemma RemoveAtKeeps(s: Sender, k: nat, log: seq<Frag>)
    requires SndOk(s, log) && k < |s.buf|
    ensures SndOk(RemoveAt(s, k), log) && s.una <= RemoveAt(s, k).una
  {
  }

  lemma RemoveAtUnacked(s: Sender, k: nat, n: int)
    requires k < |s.buf| && Unacked(s, n) && n != s.buf[k].pkt.sn
    ensures Unacked(RemoveAt(s, k), n)
  {
    var i :| 0 <= i < |s.buf| && s.buf[i].pkt.sn == n;
    assert RemoveAt(s, k).buf[if i < k then i else i - 1] == s.buf[i];
  }

  /** A selective acknowledgement releases at most the segment it names. */
  lemma ParseAckKeeps(s: Sender, sn: int, log: seq<Frag>)
    requires SndOk(s, log)
    ensures var r := Shrink(ParseAck(Unbounded, s, sn));
            && SndOk(r, log) && s.una <= r.una
            && r.queue == s.queue
            && forall n :: Unacked(s, n) && n != sn ==> Unacked(r, n)
  {
    if InFlight(Unbounded, s, sn) {
      var k := RemoveSnIs(s.buf, sn);
      if k < |s.buf| {
        assert Shrink(ParseAck(Unbounded, s, sn)) == RemoveAt(s, k);
        RemoveAtKeeps(s, k, log);
        forall n | Unacked(s, n) && n != sn ensures Unacked(RemoveAt(s, k), n) {
          RemoveAtUnacked(s, k, n);
        }
      } else {
        assert Shrink(ParseAck(Unbounded, s, sn)) == s;
      }
    } else {
      assert Shrink(ParseAck(Unbounded, s, sn)) == s;
    }
  }

  lemma {:induction false} BumpFastAckCounts(buf: seq<Segment>, sn: int)
    requires Ascending(buf)
    ensures var r := BumpFastAck(Unbounded, buf, sn);
            forall i :: 0 <= i < |buf| ==>
              r[i] == if buf[i].pkt.sn < sn then buf[i].(fastAck := U32(buf[i].fastAck + 1)) else buf[i]
    decreases |buf|
  {
    if buf != [] && sn >= buf[0].pkt.sn {
      BumpFastAckCounts(buf[1..], sn);
      var r := BumpFastAck(Unbounded, buf, sn);
      forall i | 0 <= i < |buf|
        ensures r[i] == if buf[i].pkt.sn < sn then buf[i].(fastAck := U32(buf[i].fastAck + 1)) else buf[i]
      {
        assert i > 0 ==> buf[i] == buf[1..][i - 1] && r[i] == BumpFastAck(Unbounded, buf[1..], sn)[i - 1];
      }
    }
  }

  /** An ack of a number in flight counts exactly the segments below it as skipped, each
      once; any other ack counts none. */
  lemma ParseFastAckCounts(s: Sender, sn: int, log: seq<Frag>)
    requires SndOk(s, log)
    ensures var r := ParseFastAck(Unbounded, s, sn);
            && r == s.(buf := r.buf) && |r.buf| == |s.buf|
            && forall i :: 0 <= i < |s.buf| ==>
                 r.buf[i] == if s.buf[i].pkt.sn < sn < s.nxt then s.buf[i].(fastAck := U32(s.buf[i].fastAck + 1))
                             else s.buf[i]
  {
    BumpFastAckCounts(s.buf, sn);
  }

  lemma ParseFastAckKeeps(s: Sender, sn: int, log: seq<Frag>)
    requires SndOk(s, log)
    ensures var r := ParseFastAck(Unbounded, s, sn);
            && SndOk(r, log) && r.queue == s.queue && r.una == s.una
            && forall n :: Unacked(s, n) ==> Unacked(r, n)
  {
    BumpFastAckIs(Unbounded, s.buf, sn);
    var r := ParseFastAck(Unbounded, s, sn);
    forall n | Unacked(s, n) ensures Unacked(r, n) {
      var i :| 0 <= i < |s.buf| && s.buf[i].pkt.sn == n;
      assert r.buf[i].pkt.sn == n;
    }
  }

  // ---- flush ----

  /** Admission takes a prefix of snd_queue, numbers it from snd_nxt on, and stops at the
      window. */
  lemma {:induction false} AdmitIs(p: Pcb, s: Sender, cwnd: int) returns (k: nat)
    ensures k <= |s.queue|
    ensures var r := Admit(Unbounded, p, s, cwnd);
            && r.queue == s.queue[k..] && r.nxt == s.nxt + k && r.una == s.una
            && r.nQue == s.nQue - k && r.nBuf == s.nBuf + k
            && |r.buf| == |s.buf| + k
            && (forall i :: 0 <= i < |s.buf| ==> r.buf[i] == s.buf[i])
            && (forall i :: 0 <= i < k ==> r.buf[|s.buf| + i] == Numbered(p, s.queue[i], s.nxt + i))
            && (k > 0 ==> r.nxt <= s.una + cwnd)
            && (r.queue != [] ==> s.una + cwnd <= r.nxt)
    decreases |s.queue|
  {
    if s.nxt < s.una + cwnd && s.queue != [] {
      var s1 := Sender(s.una, s.nxt + 1, s.queue[1..], s.buf + [Numbered(p, s.queue[0], s.nxt)],
                       s.nQue - 1, s.nBuf + 1);
      var j := AdmitIs(p, s1, cwnd);
      k := j + 1;
      var r := Admit(Unbounded, p, s, cwnd);
      assert r == Admit(Unbounded, p, s1, cwnd);
      forall i | 0 <= i < k ensures r.buf[|s.buf| + i] == Numbered(p, s.queue[i], s.nxt + i) {
        if i > 0 {
          assert r.buf[|s1.buf| + (i - 1)] == Numbered(p, s1.queue[i - 1], s1.nxt + (i - 1));
        }
      }
    } else {
      k := 0;
    }
  }

  lemma AdmitKeeps(p: Pcb, s: Sender, cwnd: int, log: seq<Frag>) returns (k: nat)
    requires SndOk(s, log) && cwnd <= MAX_SPAN
    ensures k <= |s.queue| && k == |s.queue| - |Admit(Unbounded, p, s, cwnd).queue|
    ensures var r := Admit(Unbounded, p, s, cwnd);
            && SndOk(r, log + Frags(s.queue[..k])) && r.una == s.una
            && r.queue == s.queue[k..]
            && (k > 0 ==> r.nxt <= r.una + cwnd)
            && forall sn :: Unacked(s, sn) || s.nxt <= sn < s.nxt + k ==> Unacked(r, sn)
  {
    hide Admit;
    k := AdmitIs(p, s, cwnd);
    var r := Admit(Unbounded, p, s, cwnd);
    var n := |s.buf|;
    var log1 := log + Frags(s.queue[..k]);
    forall i | n <= i < |r.buf|
      ensures r.buf[i].pkt.sn == s.nxt + (i - n) && FragOf(r.buf[i].pkt) == log1[r.buf[i].pkt.sn]
      ensures r.buf[i].pkt.cmd == CMD_PUSH
    {
      assert r.buf[n + (i - n)] == Numbered(p, s.queue[i - n], s.nxt + (i - n));
    }
    forall sn | Unacked(s, sn) || s.nxt <= sn < s.nxt + k ensures Unacked(r, sn) {
      if Unacked(s, sn) {
        var i :| 0 <= i < |s.buf| && s.buf[i].pkt.sn == sn;
        assert r.buf[i].pkt.sn == sn;
      } else {
        assert r.buf[n + (sn - s.nxt)].pkt.sn == sn;
      }
    }
  }

  /** The retransmission loop changes no number, fragment or payload. */
  lemma ResendKeeps(p: Pcb, s: Sender, log: seq<Frag>)
    requires SndOk(s, log)
    ensures var r := s.(buf := SegmentsOf(Decisions(p, s.buf)));
            SndOk(r, log) && forall sn :: Unacked(s, sn) ==> Unacked(r, sn)
  {
    var r := s.(buf := SegmentsOf(Decisions(p, s.buf)));
    forall i | 0 <= i < |s.buf|
      ensures r.buf[i].pkt.sn == s.buf[i].pkt.sn && FragOf(r.buf[i].pkt) == FragOf(s.buf[i].pkt)
      ensures r.buf[i].pkt.cmd == s.buf[i].pkt.cmd
    {
      assert Decisions(p, s.buf)[i] == Decide(p, s.buf[i]);
    }
    forall sn | Unacked(s, sn) ensures Unacked(r, sn) {
      var i :| 0 <= i < |s.buf| && s.buf[i].pkt.sn == sn;
      assert r.buf[i].pkt.sn == sn;
    }
  }

  /** A packet that the loop sends is a segment of snd_buf as it stands, stamped with what
      this side expects next. */
  predicate Resends(p: Pcb, buf: seq<Segment>, pkt: Packet) {
    exists i :: 0 <= i < |buf| && pkt == OnWire(Stamped(p, buf[i]).pkt)
  }

  lemma {:induction false} ResendSends(p: Pcb, t: Tally, buf: seq<Segment>)
    requires t.out == []
    ensures forall j :: 0 <= j < |AccountAll(p.cfg, t, Decisions(p, buf)).out| ==>
              Resends(p, buf, AccountAll(p.cfg, t, Decisions(p, buf)).out[j])
    decreases |buf|
  {
    if buf != [] {
      var n := |buf| - 1;
      var ds := Decisions(p, buf);
      assert ds[..n] == Decisions(p, buf[..n]);
      ResendSends(p, t, buf[..n]);
      var before, after := AccountAll(p.cfg, t, ds[..n]).out, AccountAll(p.cfg, t, ds).out;
      forall j | 0 <= j < |after| ensures Resends(p, buf, after[j]) {
        if j < |before| {
          assert Resends(p, buf[..n], before[j]);
          var i :| 0 <= i < n && before[j] == OnWire(Stamped(p, buf[..n][i]).pkt);
          assert buf[..n][i] == buf[i];
        } else {
          assert after[j] == OnWire(Stamped(p, buf[n]).pkt);
        }
      }
    }
  }
}
