/** The wire format of ikcp.c: a 24-byte little-endian header followed by the payload,
    and the packing of packets into datagrams of at most one mtu. */
module KcpWire {
  import opened KcpSerial

  const CMD_PUSH := 81
  const CMD_ACK := 82
  const CMD_WASK := 83
  const CMD_WINS := 84
  const OVERHEAD := 24

  type bytes = seq<byte>

  /** What one segment carries on the wire. */
  datatype Packet = Packet(conv: int, cmd: int, frg: int, wnd: int, ts: int, sn: int, una: int, data: bytes)

  predicate IsU32(x: int) { 0 <= x < TWO32 }

  predicate KnownCommand(cmd: int) {
    cmd == CMD_PUSH || cmd == CMD_ACK || cmd == CMD_WASK || cmd == CMD_WINS
  }

  /** The ranges the header fields and an `int` length can hold. */
  predicate Encodable(p: Packet) {
    && IsU32(p.conv) && 0 <= p.cmd < 256 && 0 <= p.frg < 256 && 0 <= p.wnd < TWO16
    && IsU32(p.ts) && IsU32(p.sn) && IsU32(p.una) && |p.data| < TWO31
  }

  function Le16(x: int): (r: bytes)
    ensures |r| == 2
  {
    [x % 256, x / 256 % 256]
  }

  function Le32(x: int): (r: bytes)
    ensures |r| == 4
  {
    [x % 256, x / 256 % 256, x / 0x1_0000 % 256, x / 0x100_0000 % 256]
  }

  function Get16(b: bytes, i: nat): (r: int)
    requires i + 2 <= |b|
    ensures 0 <= r < TWO16
  {
    b[i] as int + 256 * (b[i + 1] as int)
  }

  function Get32(b: bytes, i: nat): (r: int)
    requires i + 4 <= |b|
    ensures IsU32(r)
  {
    b[i] as int + 256 * (b[i + 1] as int) + 0x1_0000 * (b[i + 2] as int) + 0x100_0000 * (b[i + 3] as int)
  }

  lemma Digits(x: int)
    requires IsU32(x)
    ensures x % 256 + 256 * (x / 256 % 256) + 0x1_0000 * (x / 0x1_0000 % 256) + 0x100_0000 * (x / 0x100_0000 % 256) == x
  {
    assert x / 256 == 256 * (x / 0x1_0000) + x / 256 % 256;
    assert x / 0x1_0000 == 256 * (x / 0x100_0000) + x / 0x1_0000 % 256;
  }

  lemma Get32OfLe32(x: int, b: bytes, i: nat)
    requires IsU32(x) && i + 4 <= |b| && b[i..i + 4] == Le32(x)
    ensures Get32(b, i) == x
  {
    assert b[i] == b[i..i + 4][0] && b[i + 1] == b[i..i + 4][1];
    assert b[i + 2] == b[i..i + 4][2] && b[i + 3] == b[i..i + 4][3];
    Digits(x);
  }

  /** `ikcp_encode_seg`: the 24 header bytes, each field cut to its width. */
  function EncodeHeader(p: Packet): (r: bytes)
    ensures |r| == OVERHEAD
  {
    Le32(p.conv) + [p.cmd % 256, p.frg % 256] + Le16(p.wnd) + Le32(p.ts) + Le32(p.sn) + Le32(p.una) + Le32(|p.data|)
  }

  function Encode(p: Packet): (r: bytes)
    ensures |r| == OVERHEAD + |p.data|
  {
    EncodeHeader(p) + p.data
  }

  function LengthField(b: bytes): (r: int)
    requires OVERHEAD <= |b|
    ensures IsU32(r)
  {
    Get32(b, 20)
  }

  /** The packet at the front of `b`: the header fields `ikcp_input` reads, and as
      many bytes as the length field announces. */
  function Decode(b: bytes): (p: Packet)
    requires OVERHEAD <= |b| && OVERHEAD + LengthField(b) <= |b|
    ensures Encodable(p.(data := []))
  {
    Packet(Get32(b, 0), b[4], b[5], Get16(b, 6), Get32(b, 8), Get32(b, 12), Get32(b, 16),
           b[OVERHEAD..OVERHEAD + LengthField(b)])
  }

  /** Where each field sits in the header. */
  lemma HeaderLayout(p: Packet)
    requires Encodable(p)
    ensures var h := EncodeHeader(p);
            && h[0..4] == Le32(p.conv) && h[4] == p.cmd && h[5] == p.frg && h[6..8] == Le16(p.wnd)
            && h[8..12] == Le32(p.ts) && h[12..16] == Le32(p.sn) && h[16..20] == Le32(p.una)
            && h[20..24] == Le32(|p.data|)
  {
    hide Le16, Le32;
  }

  lemma InPrefix(h: bytes, rest: bytes, i: nat, j: nat)
    requires i <= j <= |h|
    ensures (h + rest)[i..j] == h[i..j]
  {
  }

  lemma Get16OfLe16(x: int, b: bytes, i: nat)
    requires 0 <= x < TWO16 && i + 2 <= |b| && b[i..i + 2] == Le16(x)
    ensures Get16(b, i) == x
  {
    assert b[i] == b[i..i + 2][0] && b[i + 1] == b[i..i + 2][1];
  }

  lemma Field32(x: int, h: bytes, rest: bytes, i: nat)
    requires IsU32(x) && i + 4 <= |h| && h[i..i + 4] == Le32(x)
    ensures Get32(h + rest, i) == x
  {
    InPrefix(h, rest, i, i + 4);
    Get32OfLe32(x, h + rest, i);
  }

  lemma DecodeEncode(p: Packet, rest: bytes)
    requires Encodable(p)
    ensures var b := Encode(p) + rest;
            && LengthField(b) == |p.data|
            && OVERHEAD + LengthField(b) <= |b|
            && Decode(b) == p
            && b[OVERHEAD + LengthField(b)..] == rest
  {
    hide EncodeHeader, Le16, Le32, Get16, Get32;
    var h, tail := EncodeHeader(p), p.data + rest;
    var b := Encode(p) + rest;
    assert b == h + tail;
    HeaderLayout(p);
    Field32(p.conv, h, tail, 0);
    InPrefix(h, tail, 6, 8);
    Get16OfLe16(p.wnd, b, 6);
    Field32(p.ts, h, tail, 8);
    Field32(p.sn, h, tail, 12);
    Field32(p.una, h, tail, 16);
    Field32(|p.data|, h, tail, 20);
    assert b[OVERHEAD..OVERHEAD + |p.data|] == p.data;
  }

  function Concat<T>(ss: seq<seq<T>>): seq<T> {
    if ss == [] then [] else Concat(ss[..|ss| - 1]) + ss[|ss| - 1]
  }

  lemma ConcatAssociative<T>(a: seq<T>, b: seq<T>, c: seq<T>)
    ensures a + (b + c) == a + b + c
  {
  }

  lemma ConcatSnoc<T>(ss: seq<seq<T>>, s: seq<T>)
    ensures Concat(ss + [s]) == Concat(ss) + s
  {
    assert (ss + [s])[..|ss|] == ss;
  }

  lemma {:induction false} ConcatCons<T>(s: seq<T>, ss: seq<seq<T>>)
    ensures Concat([s] + ss) == s + Concat(ss)
  {
    if ss == [] {
      assert [s] + ss == [] + [s];
      ConcatSnoc([], s);
    } else {
      var n := |ss| - 1;
      ConcatCons(s, ss[..n]);
      assert ([s] + ss)[..n + 1] == [s] + ss[..n];
    }
  }

  lemma {:induction false} MemberOfConcat<T>(ss: seq<seq<T>>, s: seq<T>)
    requires s in ss
    ensures forall x :: x in s ==> x in Concat(ss)
  {
    var n := |ss| - 1;
    if s != ss[n] {
      assert s in ss[..n];
      MemberOfConcat(ss[..n], s);
    }
  }

  predicate AllEncodable(ps: seq<Packet>) {
    forall i :: 0 <= i < |ps| ==> Encodable(ps[i])
  }

  function EncodeEach(ps: seq<Packet>): (r: seq<bytes>)
    ensures |r| == |ps| && forall i :: 0 <= i < |ps| ==> r[i] == Encode(ps[i])
  {
    seq(|ps|, i requires 0 <= i < |ps| => Encode(ps[i]))
  }

  /** The bytes of a datagram: its packets encoded one after the other. */
  function EncodeAll(ps: seq<Packet>): bytes {
    Concat(EncodeEach(ps))
  }

  lemma EncodeAllCons(p: Packet, ps: seq<Packet>)
    ensures EncodeAll([p] + ps) == Encode(p) + EncodeAll(ps)
  {
    ConcatCons(Encode(p), EncodeEach(ps));
    assert EncodeEach([p] + ps) == [Encode(p)] + EncodeEach(ps);
  }

  lemma EncodeAllSnoc(ps: seq<Packet>, p: Packet)
    ensures EncodeAll(ps + [p]) == EncodeAll(ps) + Encode(p)
  {
    ConcatSnoc(EncodeEach(ps), Encode(p));
    assert EncodeEach(ps + [p]) == EncodeEach(ps) + [Encode(p)];
  }

  /** The parsing loop of `ikcp_input` on well-formed bytes: all packets up to the
      first byte that does not start a complete packet. */
  function Parse(b: bytes): (r: (seq<Packet>, bytes))
    decreases |b|
  {
    if |b| < OVERHEAD || |b| < OVERHEAD + LengthField(b) then ([], b)
    else
      var tail := Parse(b[OVERHEAD + LengthField(b)..]);
      ([Decode(b)] + tail.0, tail.1)
  }

  /** Decoding recovers exactly the packets that were encoded, in order, and consumes
      every byte. */
  lemma {:induction false} ParseEncodeAll(ps: seq<Packet>)
    requires AllEncodable(ps)
    ensures Parse(EncodeAll(ps)) == (ps, [])
  {
    if ps != [] {
      EncodeAllCons(ps[0], ps[1..]);
      assert ps == [ps[0]] + ps[1..];
      DecodeEncode(ps[0], EncodeAll(ps[1..]));
      ParseEncodeAll(ps[1..]);
    }
  }

  // ---- packing packets into datagrams ----

  function WireSize(ps: seq<Packet>): (n: nat) {
    if ps == [] then 0 else WireSize(ps[..|ps| - 1]) + OVERHEAD + |ps[|ps| - 1].data|
  }

  lemma {:induction false} EncodeAllSize(ps: seq<Packet>)
    ensures |EncodeAll(ps)| == WireSize(ps)
  {
    if ps != [] {
      var n := |ps| - 1;
      EncodeAllSize(ps[..n]);
      EncodeAllSnoc(ps[..n], ps[n]);
      assert ps == ps[..n] + [ps[n]];
    }
  }

  /** The flush buffer: datagrams already handed to the output callback, and the
      packets encoded since. */
  datatype Packing = Packing(done: seq<seq<Packet>>, cur: seq<Packet>)

  /** One packet appended to the buffer; a packet that would exceed the mtu first sends
      what is there (sending nothing when the buffer is empty). */
  function PackOne(s: Packing, p: Packet, mtu: int): Packing {
    if WireSize(s.cur) + OVERHEAD + |p.data| > mtu then
      Packing(Close(s), [p])
    else
      Packing(s.done, s.cur + [p])
  }

  function Close(s: Packing): seq<seq<Packet>> {
    if s.cur == [] then s.done else s.done + [s.cur]
  }

  function PackAll(ps: seq<Packet>, mtu: int): Packing {
    if ps == [] then Packing([], []) else PackOne(PackAll(ps[..|ps| - 1], mtu), ps[|ps| - 1], mtu)
  }

  function Datagrams(ps: seq<Packet>, mtu: int): seq<seq<Packet>> {
    Close(PackAll(ps, mtu))
  }

  lemma OneDatagram(p: Packet, mtu: int)
    requires OVERHEAD + |p.data| <= mtu
    ensures Datagrams([p], mtu) == [[p]]
  {
    assert [p][..0] == [];
    assert PackAll([p][..0], mtu) == Packing([], []);
    assert WireSize([]) == 0;
    assert PackAll([p], mtu) == PackOne(Packing([], []), p, mtu);
    assert [] + [p] == [p] && [] + [[p]] == [[p]];
  }

  predicate Fits(ps: seq<Packet>, mtu: int) {
    forall i :: 0 <= i < |ps| ==> OVERHEAD + |ps[i].data| <= mtu
  }

  /** The buffer holds `ps`, nothing lost, duplicated or reordered, in datagrams that are
      not empty and not larger than the mtu. */
  predicate Holds(s: Packing, ps: seq<Packet>, mtu: int) {
    && Concat(s.done) + s.cur == ps
    && WireSize(s.cur) <= mtu
    && forall i :: 0 <= i < |s.done| ==> s.done[i] != [] && WireSize(s.done[i]) <= mtu
  }

  lemma PackOneCorrect(s: Packing, ps: seq<Packet>, p: Packet, mtu: int)
    requires OVERHEAD + |p.data| <= mtu && Holds(s, ps, mtu)
    ensures Holds(PackOne(s, p, mtu), ps + [p], mtu)
  {
    hide Concat, WireSize;
    if WireSize(s.cur) + OVERHEAD + |p.data| <= mtu {
      WireSizeSnoc(s.cur, p);
      assert Concat(s.done) + (s.cur + [p]) == (Concat(s.done) + s.cur) + [p];
    } else {
      CloseHolds(s, ps, mtu);
      NothingInNothing();
      WireSizeSnoc([], p);
      assert [] + [p] == [p];
    }
  }

  lemma WireSizeSnoc(ps: seq<Packet>, p: Packet)
    ensures WireSize(ps + [p]) == WireSize(ps) + OVERHEAD + |p.data|
  {
    assert (ps + [p])[..|ps|] == ps;
  }

  lemma CloseHolds(s: Packing, ps: seq<Packet>, mtu: int)
    requires Holds(s, ps, mtu)
    ensures Holds(Packing(Close(s), []), ps, Max(mtu, 0))
    ensures Concat(Close(s)) == ps
  {
    hide Concat, WireSize;
    ConcatSnoc(s.done, s.cur);
    NothingInNothing();
  }

  lemma NothingInNothing()
    ensures WireSize([]) == 0
  {
  }

  lemma {:induction false} PackAllCorrect(ps: seq<Packet>, mtu: int)
    requires 0 <= mtu && Fits(ps, mtu)
    ensures Holds(PackAll(ps, mtu), ps, mtu)
  {
    if ps != [] {
      var n := |ps| - 1;
      PackAllCorrect(ps[..n], mtu);
      PackOneCorrect(PackAll(ps[..n], mtu), ps[..n], ps[n], mtu);
      assert ps[..n] + [ps[n]] == ps;
    }
  }

  /** Packing loses, duplicates and reorders nothing; no datagram is empty, and none
      exceeds the mtu when no single packet does. */
  lemma DatagramsCorrect(ps: seq<Packet>, mtu: int)
    requires 0 <= mtu && Fits(ps, mtu)
    ensures var ds := Datagrams(ps, mtu);
            && Concat(ds) == ps
            && forall i :: 0 <= i < |ds| ==> ds[i] != [] && WireSize(ds[i]) <= mtu
  {
    PackAllCorrect(ps, mtu);
    CloseHolds(PackAll(ps, mtu), ps, mtu);
  }

  /** What flush puts on the wire, datagram by datagram, is at most one mtu long and
      comes back from the parser as the packets that were packed. */
  lemma WireRoundTrip(ps: seq<Packet>, mtu: int)
    requires AllEncodable(ps) && 0 <= mtu && Fits(ps, mtu)
    ensures var ds := Datagrams(ps, mtu);
            && Concat(ds) == ps
            && forall i :: 0 <= i < |ds| ==>
                 && AllEncodable(ds[i])
                 && 0 < |EncodeAll(ds[i])| <= mtu
                 && Parse(EncodeAll(ds[i])) == (ds[i], [])
  {
    var ds := Datagrams(ps, mtu);
    DatagramsCorrect(ps, mtu);
    forall i | 0 <= i < |ds|
      ensures AllEncodable(ds[i])
      ensures 0 < |EncodeAll(ds[i])| <= mtu && Parse(EncodeAll(ds[i])) == (ds[i], [])
    {
      var d := ds[i];
      MemberOfConcat(ds, d);
      forall j | 0 <= j < |d| ensures Encodable(d[j]) {
        assert d[j] in d;
        assert d[j] in ps;
      }
      EncodeAllSize(d);
      ParseEncodeAll(d);
      assert WireSize(d) >= OVERHEAD;
    }
  }

  // ---- datagrams as bytes ----

  function EncodeDatagrams(ds: seq<seq<Packet>>): (r: seq<bytes>)
    ensures |r| == |ds| && forall i :: 0 <= i < |ds| ==> r[i] == EncodeAll(ds[i])
  {
    seq(|ds|, i requires 0 <= i < |ds| => EncodeAll(ds[i]))
  }

  /** The flush buffer as C has it: datagrams sent, and bytes written since. */
  datatype Buffer = Buffer(sent: seq<bytes>, cur: bytes)

  /** `ikcp_output` ignores an empty buffer. */
  function SendBuffer(b: Buffer): Buffer {
    if b.cur == [] then b else Buffer(b.sent + [b.cur], [])
  }

  /** Writing one encoded packet, first sending the buffer when it would exceed the mtu. */
  function WriteBytes(b: Buffer, e: bytes, mtu: int): Buffer {
    var b1 := if |b.cur| + |e| > mtu then SendBuffer(b) else b;
    b1.(cur := b1.cur + e)
  }

  function BufferOf(ps: seq<Packet>, mtu: int): Buffer {
    if ps == [] then Buffer([], [])
    else WriteBytes(BufferOf(ps[..|ps| - 1], mtu), Encode(ps[|ps| - 1]), mtu)
  }

  lemma BufferOfNone(mtu: int)
    ensures BufferOf([], mtu) == Buffer([], [])
  {
  }

  /** The datagrams a flush hands to the output callback. */
  function Output(ps: seq<Packet>, mtu: int): seq<bytes> {
    SendBuffer(BufferOf(ps, mtu)).sent
  }

  method Write(b: Buffer, p: Packet, mtu: int, ghost ps: seq<Packet>) returns (b': Buffer)
    requires b == BufferOf(ps, mtu)
    ensures b' == BufferOf(ps + [p], mtu)
  {
    b' := b;
    if |b.cur| + OVERHEAD + |p.data| > mtu {
      b' := SendBuffer(b);
    }
    b' := b'.(cur := b'.cur + Encode(p));
    assert (ps + [p])[..|ps|] == ps;
  }

  lemma WriteBytesCorrect(b: Buffer, s: Packing, p: Packet, mtu: int)
    requires b == Buffer(EncodeDatagrams(s.done), EncodeAll(s.cur))
    ensures var r := PackOne(s, p, mtu);
            WriteBytes(b, Encode(p), mtu) == Buffer(EncodeDatagrams(r.done), EncodeAll(r.cur))
  {
    EncodeAllSize(s.cur);
    EncodeAllSnoc(s.cur, p);
    SendBufferCorrect(b, s);
    EncodeAllSnoc([], p);
    assert [] + [p] == [p] && [] + Encode(p) == Encode(p);
  }

  lemma SendBufferCorrect(b: Buffer, s: Packing)
    requires b == Buffer(EncodeDatagrams(s.done), EncodeAll(s.cur))
    ensures SendBuffer(b) == Buffer(EncodeDatagrams(Close(s)), [])
  {
    EncodeAllSize(s.cur);
    assert s.cur != [] ==> WireSize(s.cur) >= OVERHEAD;
    assert EncodeDatagrams(s.done + [s.cur]) == EncodeDatagrams(s.done) + [EncodeAll(s.cur)];
  }

  /** The bytes sent are the packed datagrams, each encoded. */
  lemma {:induction false} OutputIsPacked(ps: seq<Packet>, mtu: int)
    ensures var s := PackAll(ps, mtu);
            BufferOf(ps, mtu) == Buffer(EncodeDatagrams(s.done), EncodeAll(s.cur))
    ensures Output(ps, mtu) == EncodeDatagrams(Datagrams(ps, mtu))
  {
    if ps != [] {
      var n := |ps| - 1;
      OutputIsPacked(ps[..n], mtu);
      WriteBytesCorrect(BufferOf(ps[..n], mtu), PackAll(ps[..n], mtu), ps[n], mtu);
    }
    SendBufferCorrect(BufferOf(ps, mtu), PackAll(ps, mtu));
  }
}
