/** What clients of the key-value store observe: the plain map behind the R* commands, the
    hash engine's extra failures behind the H* commands, and when the two agree. */
module KvsEngine {
  import opened KvsString

  datatype Command =
    | Set(key: cstring, value: Value)
    | Get(key: cstring)
    | Del(key: cstring)
    | Mod(key: cstring, value: Value)
    | Exist(key: cstring)

  // ---- return codes over a map ----

  function SetCode(m: Contents, key: cstring, value: Value): (ret: int)
    ensures ret == 1 <==> (key, value) in m.Items
    ensures ret != 1 ==> ret == 0
  {
    if key in m && m[key] == value then 1 else 0
  }

  function FoundCode(m: Contents, key: cstring): (ret: int)
    ensures ret == 0 <==> key in m.Keys
    ensures ret != 0 ==> ret == 1
  {
    if key in m then 0 else 1
  }

  function Modified(m: Contents, key: cstring, value: Value): (r: Contents)
    ensures r.Keys == m.Keys && (key in r ==> r[key] == value)
    ensures forall k :: k in m && k != key ==> r[k] == m[k]
  {
    if key in m then m[key := value] else m
  }

  /** The text of a lookup; a missing key is a null pointer. */
  datatype Lookup = Null | Text(value: Value)

  function Looked(m: Contents, key: cstring): Lookup { if key in m then Text(m[key]) else Null }

  // ---- responses ----

  function Ascii(s: string): cstring
    requires forall i :: 0 <= i < |s| ==> 0 < s[i] as int < 128
  {
    seq(|s|, i requires 0 <= i < |s| => s[i] as int)
  }

  function Line(s: seq<int>): seq<int> { s + [13, 10] }

  function SetReply(ret: int): seq<int> {
    if ret < 0 then Line(Ascii("ERROR"))
    else if ret == 1 then Line(Ascii("EXIST"))
    else if ret == 2 then Line(Ascii("UPDATED"))
    else Line(Ascii("OK"))
  }

  function GetReply(r: Lookup): seq<int> {
    if r.Null? then Line(Ascii("NOT FOUND")) else Line(r.value)
  }

  /** DEL and MOD. */
  function ChangeReply(ret: int): seq<int> {
    if ret < 0 then Line(Ascii("ERROR"))
    else if ret == 1 then Line(Ascii("NOT FOUND"))
    else Line(Ascii("OK"))
  }

  function ExistReply(ret: int): seq<int> {
    if ret < 0 then Line(Ascii("ERROR"))
    else if ret == 0 then Line(Ascii("EXIST"))
    else Line(Ascii("NOT EXIST"))
  }

  // ---- the plain engine ----

  function PlainReply(m: Contents, c: Command): seq<int> {
    match c
    case Set(k, v) => SetReply(SetCode(m, k, v))
    case Get(k) => GetReply(Looked(m, k))
    case Del(k) => ChangeReply(FoundCode(m, k))
    case Mod(k, _) => ChangeReply(FoundCode(m, k))
    case Exist(k) => ExistReply(FoundCode(m, k))
  }

  function PlainNext(m: Contents, c: Command): Contents {
    match c
    case Set(k, v) => m[k := v]
    case Get(_) => m
    case Del(k) => m - {k}
    case Mod(k, v) => Modified(m, k, v)
    case Exist(_) => m
  }

  // ---- the hash engine ----

  /** C's remainder takes the sign of the dividend. */
  function CRemainder(a: int, b: int): int
    requires b > 0
  {
    if a < 0 then -((-a) % b) else a % b
  }

  function Sum(key: cstring): int
    decreases |key|
  {
    if key == [] then 0 else Sum(key[..|key| - 1]) + key[|key| - 1]
  }

  /** `_hash`: negative for some keys with characters beyond 7 bits. */
  function Index(key: cstring, slots: int): int
    requires slots > 0
  {
    CRemainder(Sum(key), slots)
  }

  function HashSetCode(m: Contents, slots: int, key: cstring, value: Value): (ret: int)
    requires slots > 0
    ensures ret == -2 <==> slots <= |m|
    ensures ret == -1 <==> |m| < slots && Index(key, slots) < 0
    ensures 0 <= ret ==> (ret == 1 <==> (key, value) in m.Items) && ret <= 1
  {
    if |m| >= slots then -2 else if Index(key, slots) < 0 then -1 else SetCode(m, key, value)
  }

  function HashModCode(m: Contents, slots: int, key: cstring): (ret: int)
    requires slots > 0
    ensures ret == -1 <==> Index(key, slots) < 0
    ensures 0 <= ret ==> (ret == 0 <==> key in m.Keys) && ret <= 1
  {
    if Index(key, slots) < 0 then -1 else FoundCode(m, key)
  }

  function HashReply(m: Contents, slots: int, c: Command): seq<int>
    requires slots > 0
  {
    match c
    case Set(k, v) => SetReply(HashSetCode(m, slots, k, v))
    case Get(k) => GetReply(Looked(m, k))
    case Del(k) => ChangeReply(FoundCode(m, k))
    case Mod(k, _) => ChangeReply(HashModCode(m, slots, k))
    case Exist(k) => ExistReply(FoundCode(m, k))
  }

  function HashNext(m: Contents, slots: int, c: Command): Contents
    requires slots > 0
  {
    match c
    case Set(k, v) => if HashSetCode(m, slots, k, v) < 0 then m else m[k := v]
    case Get(_) => m
    case Del(k) => m - {k}
    case Mod(k, v) => Modified(m, k, v)
    case Exist(_) => m
  }

  /** The hash engine can only hold keys it has a slot for. */
  ghost predicate Slotted(m: Contents, slots: int)
    requires slots > 0
  {
    forall k :: k in m ==> Index(k, slots) >= 0
  }

  // ---- runs ----

  function PlainRun(m: Contents, cs: seq<Command>): seq<seq<int>>
    decreases |cs|
  {
    if cs == [] then [] else [PlainReply(m, cs[0])] + PlainRun(PlainNext(m, cs[0]), cs[1..])
  }

  function HashRun(m: Contents, slots: int, cs: seq<Command>): seq<seq<int>>
    requires slots > 0
    decreases |cs|
  {
    if cs == [] then [] else [HashReply(m, slots, cs[0])] + HashRun(HashNext(m, slots, cs[0]), slots, cs[1..])
  }

  /** `kvs_hash_del` indexes its table without checking the index, so a DEL of a key with a
      negative index has no defined outcome. */
  ghost predicate Defined(slots: int, cs: seq<Command>)
    requires slots > 0
  {
    forall i :: 0 <= i < |cs| && cs[i].Del? ==> Index(cs[i].key, slots) >= 0
  }

  /** The hash engine has room and a slot for this command. */
  predicate Served(m: Contents, slots: int, c: Command)
    requires slots > 0
  {
    match c
    case Set(k, _) => |m| < slots && Index(k, slots) >= 0
    case Mod(k, _) => Index(k, slots) >= 0
    case _ => true
  }

  predicate AllServed(m: Contents, slots: int, cs: seq<Command>)
    requires slots > 0
    decreases |cs|
  {
    cs == [] || (Served(m, slots, cs[0]) && AllServed(PlainNext(m, cs[0]), slots, cs[1..]))
  }

  lemma RepliesDiffer()
    ensures SetReply(-1) != SetReply(0) && SetReply(-1) != SetReply(1)
    ensures SetReply(-2) == SetReply(-1) && ChangeReply(-1) != ChangeReply(1)
  {
    assert SetReply(-1)[0] == 'E' as int && SetReply(-1)[1] == 'R' as int;
    assert SetReply(0)[0] == 'O' as int && SetReply(1)[1] == 'X' as int;
    assert ChangeReply(-1)[0] == 'E' as int && ChangeReply(1)[0] == 'N' as int;
  }

  lemma OneReply(m: Contents, slots: int, c: Command)
    requires slots > 0 && Slotted(m, slots)
    ensures HashReply(m, slots, c) == PlainReply(m, c) <==> Served(m, slots, c)
    ensures Served(m, slots, c) ==> HashNext(m, slots, c) == PlainNext(m, c)
    ensures Served(m, slots, c) && (c.Del? ==> Index(c.key, slots) >= 0) ==> Slotted(PlainNext(m, c), slots)
  {
    RepliesDiffer();
  }

  /** The two engines answer a run identically exactly when the hash engine has room and a
      slot for each SET and a slot for each MOD. */
  lemma {:induction false} EnginesAgree(m: Contents, slots: int, cs: seq<Command>)
    requires slots > 0 && Slotted(m, slots) && Defined(slots, cs)
    ensures HashRun(m, slots, cs) == PlainRun(m, cs) <==> AllServed(m, slots, cs)
    decreases |cs|
  {
    if cs != [] {
      hide HashReply, PlainReply, HashNext, PlainNext, Served;
      OneReply(m, slots, cs[0]);
      var p, h := PlainRun(m, cs), HashRun(m, slots, cs);
      assert p[0] == PlainReply(m, cs[0]) && h[0] == HashReply(m, slots, cs[0]);
      if Served(m, slots, cs[0]) {
        assert forall i :: 0 <= i < |cs[1..]| ==> cs[1..][i] == cs[i + 1];
        EnginesAgree(PlainNext(m, cs[0]), slots, cs[1..]);
        assert p[1..] == PlainRun(PlainNext(m, cs[0]), cs[1..]);
        assert h[1..] == HashRun(PlainNext(m, cs[0]), slots, cs[1..]);
      }
    }
  }

  // ---- 7-bit keys ----

  predicate SevenBit(key: cstring) { forall i :: 0 <= i < |key| ==> key[i] > 0 }

  lemma {:induction false} SevenBitSlot(key: cstring, slots: int)
    requires slots > 0 && SevenBit(key)
    ensures Sum(key) >= 0 && 0 <= Index(key, slots) < slots
    decreases |key|
  {
    if key != [] {
      SevenBitSlot(key[..|key| - 1], slots);
    }
  }

  /** Each SET finds fewer live keys than slots. */
  predicate Room(m: Contents, slots: int, cs: seq<Command>)
    decreases |cs|
  {
    cs == [] || ((cs[0].Set? ==> |m| < slots) && Room(PlainNext(m, cs[0]), slots, cs[1..]))
  }

  /** With 7-bit keys a full table is the only difference. */
  lemma {:induction false} SevenBitRuns(m: Contents, slots: int, cs: seq<Command>)
    requires slots > 0 && Slotted(m, slots) && forall i :: 0 <= i < |cs| ==> SevenBit(cs[i].key)
    ensures HashRun(m, slots, cs) == PlainRun(m, cs) <==> Room(m, slots, cs)
  {
    forall i | 0 <= i < |cs| ensures Index(cs[i].key, slots) >= 0 {
      SevenBitSlot(cs[i].key, slots);
    }
    EnginesAgree(m, slots, cs);
    RoomIsServed(m, slots, cs);
  }

  lemma {:induction false} RoomIsServed(m: Contents, slots: int, cs: seq<Command>)
    requires slots > 0 && forall i :: 0 <= i < |cs| ==> Index(cs[i].key, slots) >= 0
    ensures AllServed(m, slots, cs) <==> Room(m, slots, cs)
    decreases |cs|
  {
    if cs != [] {
      assert Index(cs[0].key, slots) >= 0;
      assert forall i :: 0 <= i < |cs[1..]| ==> cs[1..][i] == cs[i + 1];
      RoomIsServed(PlainNext(m, cs[0]), slots, cs[1..]);
    }
  }

  /** A key that the red-black engine takes and the hash engine refuses. */
  lemma EighthBitDiffers(slots: int)
    requires slots > 1
    ensures Index([-1], slots) == -1
    ensures PlainRun(map[], [Set([-1], [65])]) != HashRun(map[], slots, [Set([-1], [65])])
  {
    var c := Set([-1], [65]);
    assert Sum([-1]) == -1 by {
      assert [-1][..0] == [];
    }
    OneReply(map[], slots, c);
    assert PlainRun(map[], [c])[0] == PlainReply(map[], c);
    assert HashRun(map[], slots, [c])[0] == HashReply(map[], slots, c);
  }
}
