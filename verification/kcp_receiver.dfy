/** The receiving side on unbounded sequence numbers: what each step of rcv_buf and
    rcv_queue keeps, and the messages that come out. */
module KcpReceiver {
  import opened KcpSerial
  import opened KcpWire
  import opened KcpSpec
  import opened KcpNet

  predicate Ascending(buf: seq<Packet>) {
    forall i, j :: 0 <= i < j < |buf| ==> buf[i].sn < buf[j].sn
  }

  /** rcv_buf: strictly ascending numbers in [lo, hi), each with the peer's fragment of
      that number. */
  predicate BufOk(buf: seq<Packet>, lo: int, hi: int, log: seq<Frag>) {
    && 0 <= lo && Ascending(buf)
    && forall i :: 0 <= i < |buf| ==>
         && lo <= buf[i].sn < hi && buf[i].sn < |log|
         && FragOf(buf[i]) == log[buf[i].sn]
  }

  /** How many of the peer's fragments the application has taken. */
  function Taken(r: Receiver): int { r.nxt - |r.queue| }

  /** The receive window: rcv_queue is the run of fragments that ends below rcv_nxt, and
      rcv_buf lies in [rcv_nxt, rcv_nxt + rcv_wnd). */
  predicate RcvOk(r: Receiver, wnd: int, log: seq<Frag>) {
    && |r.queue| <= r.nxt <= |log| && |r.queue| <= wnd
    && BufOk(r.buf, r.nxt, r.nxt + wnd, log)
    && (forall i :: 0 <= i < |r.queue| ==>
         r.queue[i].sn == Taken(r) + i && FragOf(r.queue[i]) == log[Taken(r) + i])
    && r.nBuf == |r.buf| && r.nQue == |r.queue|
  }

  predicate Buffered(buf: seq<Packet>, sn: int) {
    exists i :: 0 <= i < |buf| && buf[i].sn == sn
  }

  /** The fragment numbered sn has arrived and is kept: it is buffered, queued, or was
      handed to the application. */
  predicate Stored(r: Receiver, sn: int) {
    0 <= sn && (sn < r.nxt || Buffered(r.buf, sn))
  }

  /** Insertion adds exactly the number of the packet, once. */
  lemma {:induction false} InsertAdds(buf: seq<Packet>, p: Packet)
    requires Ascending(buf)
    ensures var r := Insert(Unbounded, buf, p);
            && |r| == |buf| + (if Buffered(buf, p.sn) then 0 else 1)
            && (Buffered(buf, p.sn) ==> r == buf)
            && forall sn :: Buffered(r, sn) <==> sn == p.sn || Buffered(buf, sn)
    decreases |buf|
  {
    if buf == [] {
      assert Insert(Unbounded, buf, p)[0] == p;
    } else {
      var n := |buf| - 1;
      if buf[n].sn == p.sn {
        assert Buffered(buf, p.sn);
      } else if p.sn > buf[n].sn {
        BufferedSnoc(buf, p);
      } else {
        InsertAdds(buf[..n], p);
        BufferedSnoc(buf[..n], buf[n]);
        BufferedSnoc(Insert(Unbounded, buf[..n], p), buf[n]);
        assert buf == buf[..n] + [buf[n]];
      }
    }
  }

  /** Insertion keeps rcv_buf sorted and inside the window. */
  lemma {:induction false} InsertKeeps(buf: seq<Packet>, p: Packet, lo: int, hi: int, log: seq<Frag>)
    requires BufOk(buf, lo, hi, log)
    requires lo <= p.sn < hi && p.sn < |log| && FragOf(p) == log[p.sn]
    ensures BufOk(Insert(Unbounded, buf, p), lo, hi, log)
    decreases |buf|
  {
    if buf != [] {
      var n := |buf| - 1;
      if p.sn < buf[n].sn {
        InsertKeeps(buf[..n], p, lo, buf[n].sn, log);
        BufOkSnoc(Insert(Unbounded, buf[..n], p), buf[n], lo, hi, log);
      } else if p.sn > buf[n].sn {
        BufOkSnoc(buf, p, lo, hi, log);
      }
    }
  }

  /** A greater number at the end. */
  lemma BufOkSnoc(buf: seq<Packet>, p: Packet, lo: int, hi: int, log: seq<Frag>)
    requires BufOk(buf, lo, p.sn, log) || (BufOk(buf, lo, hi, log) && buf != [] && buf[|buf| - 1].sn < p.sn)
    requires lo <= p.sn < hi && p.sn < |log| && FragOf(p) == log[p.sn]
    ensures BufOk(buf + [p], lo, hi, log)
  {
  }

  lemma BufferedSnoc(buf: seq<Packet>, p: Packet)
    ensures forall sn :: Buffered(buf + [p], sn) <==> sn == p.sn || Buffered(buf, sn)
  {
    forall sn ensures Buffered(buf + [p], sn) <==> sn == p.sn || Buffered(buf, sn) {
      if Buffered(buf + [p], sn) {
        var i :| 0 <= i < |buf + [p]| && (buf + [p])[i].sn == sn;
        assert i < |buf| ==> buf[i].sn == sn;
      }
      if Buffered(buf, sn) {
        var i :| 0 <= i < |buf| && buf[i].sn == sn;
        assert (buf + [p])[i].sn == sn;
      }
      assert (buf + [p])[|buf|] == p;
    }
  }

  lemma MoveOneKeeps(wnd: int, r: Receiver, log: seq<Frag>)
    requires RcvOk(r, wnd, log) && r.buf != [] && r.buf[0].sn == r.nxt && r.nQue < wnd
    ensures var r1 := Receiver(r.nxt + 1, r.queue + [r.buf[0]], r.buf[1..], r.nQue + 1, r.nBuf - 1);
            && RcvOk(r1, wnd, log) && Taken(r1) == Taken(r)
            && (forall sn :: Stored(r, sn) <==> Stored(r1, sn))
  {
    var r1 := Receiver(r.nxt + 1, r.queue + [r.buf[0]], r.buf[1..], r.nQue + 1, r.nBuf - 1);
    forall sn ensures Stored(r, sn) <==> Stored(r1, sn) {
      if Buffered(r.buf, sn) && sn != r.nxt {
        var i :| 0 <= i < |r.buf| && r.buf[i].sn == sn;
        assert r1.buf[i - 1].sn == sn;
      }
      if Buffered(r1.buf, sn) {
        var i :| 0 <= i < |r1.buf| && r1.buf[i].sn == sn;
        assert r.buf[i + 1].sn == sn;
      }
    }
  }

  /** Moving in-order packets to the queue loses nothing and takes nothing from the
      application's side. */
  lemma {:induction false} MoveReadyKeeps(wnd: int, r: Receiver, log: seq<Frag>)
    requires RcvOk(r, wnd, log)
    ensures var r' := MoveReady(Unbounded, wnd, r);
            && RcvOk(r', wnd, log) && Taken(r') == Taken(r) && r.nxt <= r'.nxt
            && (forall sn :: Stored(r, sn) <==> Stored(r', sn))
    decreases |r.buf|
  {
    if r.buf != [] && r.buf[0].sn == r.nxt && r.nQue < wnd {
      MoveOneKeeps(wnd, r, log);
      MoveReadyKeeps(wnd, Receiver(r.nxt + 1, r.queue + [r.buf[0]], r.buf[1..], r.nQue + 1, r.nBuf - 1), log);
    }
  }

  lemma InsertStores(wnd: int, r: Receiver, p: Packet, log: seq<Frag>)
    requires RcvOk(r, wnd, log)
    requires r.nxt <= p.sn < r.nxt + wnd && p.sn < |log| && FragOf(p) == log[p.sn]
    ensures var buf := Insert(Unbounded, r.buf, p);
            var t := r.(buf := buf, nBuf := r.nBuf + |buf| - |r.buf|);
            && RcvOk(t, wnd, log) && Taken(t) == Taken(r) && t.nxt == r.nxt
            && (forall sn :: Stored(t, sn) <==> Stored(r, sn) || sn == p.sn)
  {
    hide Insert, Buffered;
    InsertKeeps(r.buf, p, r.nxt, r.nxt + wnd, log);
    InsertAdds(r.buf, p);
  }

  /** A data packet that carries the peer's fragment is stored when its number lies in the
      window, and changes nothing otherwise. */
  lemma ParseDataKeeps(wnd: int, r: Receiver, p: Packet, log: seq<Frag>)
    requires RcvOk(r, wnd, log)
    requires 0 <= p.sn < |log| && FragOf(p) == log[p.sn]
    ensures var r' := ParseData(Unbounded, wnd, r, p);
            && RcvOk(r', wnd, log) && Taken(r') == Taken(r) && r.nxt <= r'.nxt
            && (forall sn :: Stored(r', sn) <==> Stored(r, sn) || (sn == p.sn && p.sn < r.nxt + wnd))
  {
    hide Insert, MoveReady, Taken, RcvOk, Buffered;
    if r.nxt <= p.sn < r.nxt + wnd {
      InsertStores(wnd, r, p, log);
      var buf := Insert(Unbounded, r.buf, p);
      MoveReadyKeeps(wnd, r.(buf := buf, nBuf := r.nBuf + |buf| - |r.buf|), log);
    }
  }

  // ---- ikcp_peeksize and ikcp_recv against the message structure ----

  lemma {:induction false} FirstMessageIsFirstLen(q: seq<Packet>, fs: seq<Frag>)
    requires |q| == |fs| && forall i :: 0 <= i < |q| ==> FragOf(q[i]) == fs[i]
    ensures FirstMessage(q) == FirstLen(fs)
    decreases |q|
  {
    if q != [] {
      FirstMessageIsFirstLen(q[1..], fs[1..]);
    }
  }

  /** Where the first message of a chained sequence ends. */
  lemma {:induction false} FirstLenIs(fs: seq<Frag>, n: nat)
    requires n < |fs| && fs[n].frg == 0
    requires forall i :: 0 <= i < n ==> fs[i].frg != 0
    ensures FirstLen(fs) == n + 1
    decreases n
  {
    if n > 0 {
      FirstLenIs(fs[1..], n - 1);
    }
  }

  /** The fragments from a message boundary count down to 0. */
  lemma {:induction false} CountDown(fs: seq<Frag>, c: nat, i: nat)
    requires Chained(fs) && c < |fs| && i <= fs[c].frg
    ensures c + i < |fs| && fs[c + i].frg == fs[c].frg - i
    decreases i
  {
    assert CountsDown(fs, c);
    if i > 0 {
      CountDown(fs, c, i - 1);
      assert CountsDown(fs, c + i - 1);
    }
  }

  lemma FirstLenChained(fs: seq<Frag>, c: nat)
    requires Chained(fs) && c < |fs|
    ensures 0 <= fs[c].frg < WND_RCV - 1
    ensures c + fs[c].frg < |fs| && FirstLen(fs[c..]) == fs[c].frg + 1
    ensures fs[c + fs[c].frg].frg == 0
  {
    assert CountsDown(fs, c);
    CountDown(fs, c, fs[c].frg);
    forall i | 0 <= i < fs[c].frg ensures fs[c..][i].frg != 0 {
      CountDown(fs, c, i);
    }
    FirstLenIs(fs[c..], fs[c].frg);
  }

  lemma {:induction false} FirstLenPrefix(fs: seq<Frag>, n: nat)
    requires n <= |fs|
    ensures FirstLen(fs[..n]) == Min(n, FirstLen(fs))
    decreases n
  {
    if n > 0 && fs[0].frg != 0 {
      assert fs[..n][1..] == fs[1..][..n - 1];
      FirstLenPrefix(fs[1..], n - 1);
    }
  }

  lemma {:induction false} PayloadIsBytes(q: seq<Packet>, fs: seq<Frag>)
    requires |q| == |fs| && forall i :: 0 <= i < |q| ==> FragOf(q[i]) == fs[i]
    ensures Payload(q) == Bytes0(fs)
    decreases |q|
  {
    if q != [] {
      var n := |q| - 1;
      PayloadIsBytes(q[..n], fs[..n]);
      Bytes0Snoc(fs[..n], fs[n]);
      assert fs == fs[..n] + [fs[n]];
    }
  }

  lemma {:induction false} Bytes0Concat(a: seq<Frag>, b: seq<Frag>)
    ensures Bytes0(a + b) == Bytes0(a) + Bytes0(b)
    decreases |a|
  {
    if a == [] {
      assert a + b == b;
    } else {
      assert (a + b)[1..] == a[1..] + b;
      Bytes0Concat(a[1..], b);
    }
  }

  lemma Bytes0Snoc(a: seq<Frag>, f: Frag)
    ensures Bytes0(a + [f]) == Bytes0(a) + f.data
  {
    Bytes0Concat(a, [f]);
    assert [f][1..] == [];
    assert f.data + [] == f.data;
  }

  lemma QueuePayload(r: Receiver, wnd: int, log: seq<Frag>, fs: seq<Frag>, n: nat)
    requires RcvOk(r, wnd, log) && log <= fs && n <= |r.queue|
    ensures Payload(r.queue[..n]) == Bytes0(fs[Taken(r)..Taken(r) + n])
  {
    var q := fs[Taken(r)..Taken(r) + n];
    forall i | 0 <= i < n ensures FragOf(r.queue[i]) == q[i] {
      assert log[Taken(r) + i] == fs[Taken(r) + i];
    }
    PayloadIsBytes(r.queue[..n], q);
  }

  lemma QueueFirst(r: Receiver, wnd: int, log: seq<Frag>, fs: seq<Frag>)
    requires RcvOk(r, wnd, log) && log <= fs && r.queue != [] && Chained(fs)
    ensures FirstMessage(r.queue) == Min(|r.queue|, fs[Taken(r)].frg + 1)
  {
    hide Chained, FirstMessage;
    var c := Taken(r);
    FirstLenChained(fs, c);
    var q := fs[c..][..|r.queue|];
    forall i | 0 <= i < |r.queue| ensures FragOf(r.queue[i]) == q[i] {
      assert log[c + i] == fs[c + i];
    }
    FirstMessageIsFirstLen(r.queue, q);
    FirstLenPrefix(fs[c..], |r.queue|);
  }

  /** The fragments in the queue, and the first message among them when it is complete. */
  lemma QueueIs(r: Receiver, wnd: int, log: seq<Frag>, fs: seq<Frag>)
    requires RcvOk(r, wnd, log) && log <= fs && r.queue != [] && Chained(fs)
    ensures var c := Taken(r);
            && FirstMessage(r.queue) == Min(|r.queue|, fs[c].frg + 1)
            && forall n :: 0 <= n <= |r.queue| ==> Payload(r.queue[..n]) == Bytes0(fs[c..c + n])
  {
    hide Chained, FirstMessage, Payload, Bytes0, BufOk;
    QueueFirst(r, wnd, log, fs);
    forall n | 0 <= n <= |r.queue| ensures Payload(r.queue[..n]) == Bytes0(fs[Taken(r)..Taken(r) + n]) {
      QueuePayload(r, wnd, log, fs, n);
    }
  }

  /** The message at a boundary is complete in the queue exactly when `ikcp_peeksize`
      says so; its size is what the merging loop will copy. */
  lemma PeekSizeIs(r: Receiver, wnd: int, log: seq<Frag>, fs: seq<Frag>)
    requires RcvOk(r, wnd, log) && log <= fs && r.queue != [] && Chained(fs)
    ensures var c := Taken(r);
            var n := fs[c].frg + 1;
            0 < n < WND_RCV &&
            if |r.queue| < n then PeekSize(r) == -1
            else
              && FirstMessage(r.queue) == n && c + n <= |fs|
              && Payload(r.queue[..n]) == Bytes0(fs[c..c + n])
              && PeekSize(r) == |Bytes0(fs[c..c + n])|
  {
    var c := Taken(r);
    QueueIs(r, wnd, log, fs);
    FirstLenChained(fs, c);
    assert FragOf(r.queue[0]) == log[c + 0] == fs[c];
    if fs[c].frg == 0 {
      assert r.queue[..1] == [r.queue[0]];
      PayloadOne(r.queue[0]);
    }
  }

  lemma PayloadOne(p: Packet)
    ensures Payload([p]) == p.data
  {
    assert [p][..0] == [];
    assert [] + p.data == p.data;
  }

  lemma TakeOne(m: Arith, r: Receiver, h: Packet)
    requires r.queue == [h] && h.frg == 0
    ensures FirstMessage(r.queue) == 1 && Payload(r.queue[..1]) == h.data && PeekSize(r) == |h.data|
    ensures r.queue[1..] == []
  {
    assert r.queue[..1] == [h] && [h][..0] == [];
    assert Payload([h]) == Payload([h][..0]) + h.data;
    assert [] + h.data == h.data;
  }

  /** A full receive queue always holds a complete message: a message has fewer than 128
      fragments and the window is at least 128. */
  lemma FullQueueIsReadable(r: Receiver, wnd: int, log: seq<Frag>, fs: seq<Frag>)
    requires RcvOk(r, wnd, log) && log <= fs && Chained(fs)
    requires WND_RCV <= wnd && r.nQue >= wnd
    ensures PeekSize(r) >= 0
  {
    PeekSizeIs(r, wnd, log, fs);
  }

  // ---- messages of a prefix ----

  lemma {:induction false} MessagesConcat(a: seq<Frag>, b: seq<Frag>)
    requires a != [] ==> a[|a| - 1].frg == 0
    ensures Messages(a + b) == Messages(a) + Messages(b)
    decreases |a|
  {
    if a == [] {
      assert a + b == b;
    } else {
      hide Messages, Bytes0;
      var n := FirstLen(a);
      FirstLenExtend(a, b);
      FirstLenEnds(a, n);
      hide FirstLen;
      MessagesCut(a, n);
      MessagesCut(a + b, n);
      assert (a + b)[..n] == a[..n] && (a + b)[n..] == a[n..] + b;
      MessagesConcat(a[n..], b);
      ConcatAssociative([Bytes0(a[..n])], Messages(a[n..]), Messages(b));
    }
  }

  lemma FirstLenEnds(a: seq<Frag>, n: nat)
    requires a != [] && n == FirstLen(a)
    ensures 0 < n <= |a| && (n < |a| ==> a[n..][|a| - n - 1] == a[|a| - 1])
  {
  }

  lemma MessagesCut(a: seq<Frag>, n: nat)
    requires a != [] && n == FirstLen(a)
    ensures Messages(a) == [Bytes0(a[..n])] + Messages(a[n..])
  {
  }

  lemma {:induction false} FirstLenWithin(a: seq<Frag>)
    requires a != [] && a[|a| - 1].frg == 0
    ensures a[FirstLen(a) - 1].frg == 0
    decreases |a|
  {
    if a[0].frg != 0 {
      FirstLenWithin(a[1..]);
    }
  }

  lemma {:induction false} FirstLenExtend(a: seq<Frag>, b: seq<Frag>)
    requires a != [] && a[|a| - 1].frg == 0
    ensures FirstLen(a + b) == FirstLen(a)
    decreases |a|
  {
    if a[0].frg != 0 {
      assert (a + b)[1..] == a[1..] + b;
      FirstLenExtend(a[1..], b);
    }
  }

  /** The messages before a boundary are the first of all messages. */
  lemma MessagesPrefix(fs: seq<Frag>, n: nat)
    requires n <= |fs| && Boundary(fs, n)
    ensures Messages(fs[..n]) <= Messages(fs)
  {
    hide Messages;
    assert fs == fs[..n] + fs[n..];
    MessagesConcat(fs[..n], fs[n..]);
  }

  lemma OneMessage(m: seq<Frag>)
    requires m != [] && FirstLen(m) == |m|
    ensures Messages(m) == [Bytes0(m)]
  {
    assert m[..|m|] == m && m[|m|..] == [];
  }

  /** One more message taken at a boundary. */
  lemma MessagesNext(fs: seq<Frag>, c: nat)
    requires Chained(fs) && c < |fs| && Boundary(fs, c)
    ensures var n := c + fs[c].frg + 1;
            && c < n <= |fs| && Boundary(fs, n)
            && Messages(fs[..n]) == Messages(fs[..c]) + [Bytes0(fs[c..n])]
  {
    hide Messages;
    FirstLenChained(fs, c);
    var n := c + fs[c].frg + 1;
    var m := fs[c..n];
    assert fs[..n] == fs[..c] + m;
    MessagesConcat(fs[..c], m);
    assert m == fs[c..][..n - c];
    FirstLenPrefix(fs[c..], n - c);
    OneMessage(m);
  }

  /** Concatenating the messages of complete fragments gives all their bytes. */
  lemma {:induction false} MessagesBytes(fs: seq<Frag>)
    ensures Concat(Messages(fs)) == Bytes0(fs)
    decreases |fs|
  {
    if fs != [] {
      var n := FirstLen(fs);
      MessagesBytes(fs[n..]);
      ConcatCons(Bytes0(fs[..n]), Messages(fs[n..]));
      Bytes0Concat(fs[..n], fs[n..]);
      assert fs == fs[..n] + fs[n..];
    }
  }
}
