/** `ikcp_input` on any bytes at all: where each field sits, how a datagram splits into packets
    and what is left, and what the call answers; and how full a flush packs its datagrams. */
module KcpBytes {
  import opened KcpSerial
  import opened KcpWire
  import opened KcpSpec
  import opened KcpNet
  import opened KcpWrap

  // ---- layout ----

  /** The four bytes from i on are x, lowest first. */
  predicate WordAt(b: bytes, i: nat, x: int)
    requires i + 4 <= |b|
  {
    x == b[i] as int + 256 * b[i + 1] as int + 65536 * b[i + 2] as int + 16777216 * b[i + 3] as int
  }

  /** A packet at the front of b, field by field. */
  predicate LaidOut(p: Packet, b: bytes) {
    && 24 + |p.data| <= |b|
    && WordAt(b, 0, p.conv) && p.cmd == b[4] as int && p.frg == b[5] as int
    && p.wnd == b[6] as int + 256 * b[7] as int
    && WordAt(b, 8, p.ts) && WordAt(b, 12, p.sn) && WordAt(b, 16, p.una) && WordAt(b, 20, |p.data|)
    && p.data == b[24..24 + |p.data|]
  }

  /** What is read is what is laid out. */
  lemma DecodeLayout(b: bytes)
    requires 24 <= |b| && 24 + LengthField(b) <= |b|
    ensures LaidOut(Decode(b), b)
  {
  }

  /** What is written is laid out so. */
  lemma EncodeLayout(p: Packet)
    requires Encodable(p)
    ensures LaidOut(p, Encode(p))
  {
    hide Encode, Decode;
    assert Encode(p) + [] == Encode(p);
    DecodeEncode(p, []);
    DecodeLayout(Encode(p));
  }

  lemma DigitsBack(a: byte, b: byte, c: byte, d: byte)
    ensures Le32(a as int + 256 * b as int + 0x1_0000 * c as int + 0x100_0000 * d as int) == [a, b, c, d]
  {
    var x := a as int + 256 * b as int + 0x1_0000 * c as int + 0x100_0000 * d as int;
    assert x / 256 == b as int + 256 * c as int + 0x1_0000 * d as int;
    assert x / 0x1_0000 == c as int + 256 * d as int;
    assert x / 0x100_0000 == d as int;
  }

  lemma WordBack(b: bytes, i: nat)
    requires i + 4 <= |b|
    ensures Le32(Get32(b, i)) == b[i..i + 4]
  {
    hide Le32;
    DigitsBack(b[i], b[i + 1], b[i + 2], b[i + 3]);
  }

  lemma HalfBack(b: bytes, i: nat)
    requires i + 2 <= |b|
    ensures Le16(Get16(b, i)) == b[i..i + 2]
  {
  }

  /** Encoding what was read gives back the bytes it was read from. */
  lemma EncodeDecode(b: bytes)
    requires 24 <= |b| && 24 + LengthField(b) <= |b|
    ensures Encode(Decode(b)) == b[..24 + LengthField(b)]
  {
    hide Le16, Le32, Get16, Get32;
    WordBack(b, 0);
    HalfBack(b, 6);
    WordBack(b, 8);
    WordBack(b, 12);
    WordBack(b, 16);
    WordBack(b, 20);
    var len := LengthField(b);
    assert |b[24..24 + len]| == len;
    assert b[..24 + len] == b[0..4] + [b[4], b[5]] + b[6..8] + b[8..12] + b[12..16] + b[16..20] + b[20..24]
                            + b[24..24 + len];
  }

  // ---- any bytes ----

  /** Packets that the loop of `ikcp_input` accepts. */
  predicate Accepted(conv: int, ps: seq<Packet>) {
    AllEncodable(ps) && forall i :: 0 <= i < |ps| ==> ps[i].conv == conv && 81 <= ps[i].cmd <= 84
  }

  /** Why the loop stops in front of these bytes, as its result: too few for a header, a header
      of another conversation, more payload announced than there is (or than a positive `int`
      holds), or an unknown command; in that order. None when it goes on. */
  datatype Stop = At(code: int) | GoesOn

  predicate StopsAt(conv: int, rest: bytes, stop: Stop) {
    if |rest| < 24 then stop == At(0)
    else if !WordAt(rest, 0, conv) then stop == At(-1)
    else if forall n: nat :: WordAt(rest, 20, n) ==> |rest| < 24 + n || 0x8000_0000 <= n then stop == At(-2)
    else if !(81 <= rest[4] as int <= 84) then stop == At(-3)
    else stop == GoesOn
  }

  lemma FirstPacket(conv: int, b: bytes)
    requires 24 <= |b| && Get32(b, 0) == conv && 24 + LengthField(b) <= |b| && LengthField(b) < TWO31
    requires KnownCommand(b[4])
    ensures var p := Decode(b);
            Encodable(p) && p.conv == conv && 81 <= p.cmd <= 84 && b == Encode(p) + b[24 + LengthField(b)..]
  {
    hide Get32, Encode;
    EncodeDecode(b);
    assert b == b[..24 + LengthField(b)] + b[24 + LengthField(b)..];
  }

  lemma StopReason(conv: int, b: bytes)
    ensures |b| < 24 ==> StopsAt(conv, b, At(0))
    ensures |b| >= 24 && Get32(b, 0) != conv ==> StopsAt(conv, b, At(-1))
    ensures |b| >= 24 && Get32(b, 0) == conv ==>
              if |b| < 24 + LengthField(b) || LengthField(b) >= TWO31 then StopsAt(conv, b, At(-2))
              else if !KnownCommand(b[4]) then StopsAt(conv, b, At(-3))
              else StopsAt(conv, b, GoesOn)
  {
    if |b| >= 24 {
      assert WordAt(b, 20, LengthField(b));
    }
  }

  /** Any bytes are the encoding of accepted packets and a rest at which the loop stops; the
      loop has processed exactly these packets, and its result tells why it stopped. */
  lemma {:induction false} LoopSplits(s: Parsing, b: bytes) returns (ps: seq<Packet>, rest: bytes)
    ensures b == EncodeAll(ps) + rest && Accepted(s.p.cfg.conv, ps)
    ensures InputLoop(s, b).0 == InputPackets(Machine32, s, ps)
    ensures StopsAt(s.p.cfg.conv, rest, At(InputLoop(s, b).1))
    decreases |b|
  {
    hide InputPacket, Decode, Encode, EncodeAll, Get32, LengthField, KnownCommand, StopsAt, Encodable;
    var conv := s.p.cfg.conv;
    StopReason(conv, b);
    ps, rest := [], b;
    if 24 <= |b| && Get32(b, 0) == conv && 24 + LengthField(b) <= |b| && LengthField(b) < TWO31 && KnownCommand(b[4]) {
      FirstPacket(conv, b);
      var h, tail := Decode(b), b[24 + LengthField(b)..];
      InputPacketKeepsConfig(Machine32, s, h);
      var more, r := LoopSplits(InputPacket(Machine32, s, h), tail);
      ps, rest := [h] + more, r;
      assert ps[1..] == more;
      EncodeAllCons(h, more);
      ConcatAssociative(Encode(h), EncodeAll(more), r);
    } else {
      NothingEncoded();
      assert b == [] + b;
    }
  }

  lemma NothingEncoded()
    ensures EncodeAll([]) == []
  {
    assert EncodeEach([]) == [];
  }

  /** `ikcp_input` on any bytes. Fewer than 24 are refused. Otherwise the packets before the
      first bad one are processed; at a bad one the call returns at once, with -1 for another
      conversation, -2 for a length, -3 for a command, and does neither the counting of skipped
      segments nor the growth of the window that end an ordinary call. */
  lemma InputAnyBytes(p: Pcb, b: bytes) returns (ps: seq<Packet>, rest: bytes)
    requires 0 < p.cfg.mss
    ensures b == EncodeAll(ps) + rest && Accepted(p.cfg.conv, ps)
    ensures var r := Input(p, b);
            if |b| < 24 then r == (p, -1)
            else
              && StopsAt(p.cfg.conv, rest, At(r.1))
              && r.0 == (if r.1 == 0 then InputDatagram(Machine32, p, ps)
                         else InputPackets(Machine32, Parsing(p, false, 0), ps).p)
  {
    hide InputLoop, InputPackets, FinishInput, EncodeAll, StopsAt;
    ps, rest := LoopSplits(Parsing(p, false, 0), b);
  }

  /** So a datagram of another conversation changes nothing and is answered with -1. */
  lemma OtherConversation(p: Pcb, b: bytes)
    requires 0 < p.cfg.mss && 24 <= |b| && !WordAt(b, 0, p.cfg.conv)
    ensures Input(p, b) == (p, -1)
  {
  }

  // ---- packing ----

  /** The first packet of the second datagram would not have fitted into the first. */
  predicate Full(d: seq<Packet>, next: seq<Packet>, mtu: int) {
    next != [] && mtu < WireSize(d) + 24 + |next[0].data|
  }

  predicate Filled(ds: seq<seq<Packet>>, mtu: int) {
    forall i :: 0 < i < |ds| ==> Full(ds[i - 1], ds[i], mtu)
  }

  lemma FilledMore(ds: seq<seq<Packet>>, last: seq<Packet>, p: Packet, mtu: int)
    requires Filled(ds + [last], mtu) && mtu < WireSize(last) + 24 + |p.data|
    ensures Filled(ds + [last] + [[p]], mtu)
  {
    hide WireSize;
    var was: seq<seq<Packet>>, r: seq<seq<Packet>> := ds + [last], ds + [last] + [[p]];
    forall i | 0 < i < |r| ensures Full(r[i - 1], r[i], mtu) {
      if i < |was| {
        assert r[i - 1] == was[i - 1] && r[i] == was[i];
      } else {
        assert r[i - 1] == last && r[i] == [p];
      }
    }
  }

  lemma FilledSame(ds: seq<seq<Packet>>, last: seq<Packet>, p: Packet, mtu: int)
    requires last != [] && Filled(ds + [last], mtu)
    ensures Filled(ds + [last + [p]], mtu)
  {
    hide WireSize;
    var was: seq<seq<Packet>>, r: seq<seq<Packet>> := ds + [last], ds + [last + [p]];
    forall i | 0 < i < |r| ensures Full(r[i - 1], r[i], mtu) {
      assert r[i - 1] == was[i - 1] && Full(was[i - 1], was[i], mtu);
    }
  }

  /** A flush never starts a datagram while its packet still fits into the one before. */
  lemma {:induction false} PackFills(ps: seq<Packet>, mtu: int)
    ensures Filled(Datagrams(ps, mtu), mtu)
    ensures PackAll(ps, mtu).cur == [] ==> ps == []
    decreases |ps|
  {
    hide WireSize, Filled;
    if ps == [] {
      OneIsFilled([], mtu);
    } else {
      var n := |ps| - 1;
      PackFills(ps[..n], mtu);
      var s, p := PackAll(ps[..n], mtu), ps[n];
      if s.cur == [] {
        NothingPacked(ps[..n], mtu);
        OneIsFilled([[p]], mtu);
        assert [] + [p] == [p] && [] + [[p]] == [[p]];
      } else if WireSize(s.cur) + OVERHEAD + |p.data| > mtu {
        FilledMore(s.done, s.cur, p, mtu);
      } else {
        FilledSame(s.done, s.cur, p, mtu);
      }
    }
  }

  lemma OneIsFilled(ds: seq<seq<Packet>>, mtu: int)
    requires |ds| <= 1
    ensures Filled(ds, mtu)
  {
  }

  lemma NothingPacked(ps: seq<Packet>, mtu: int)
    requires ps == []
    ensures PackAll(ps, mtu) == Packing([], [])
  {
  }
}
