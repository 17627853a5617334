/** The replies of the store byte by byte, over what it holds and over what it was told. */
module KvsReplies {
  import opened KvsString
  import opened KvsEngine

  const OK: seq<int> := [79, 75, 13, 10]
  const EXIST: seq<int> := [69, 88, 73, 83, 84, 13, 10]
  const NOT_EXIST: seq<int> := [78, 79, 84, 32, 69, 88, 73, 83, 84, 13, 10]
  const NOT_FOUND: seq<int> := [78, 79, 84, 32, 70, 79, 85, 78, 68, 13, 10]
  const ERROR: seq<int> := [69, 82, 82, 79, 82, 13, 10]

  // ---- one command ----

  /** The reply to a command when `l` is what is stored under its key: EXIST, NOT EXIST, NOT
      FOUND, OK or the stored text, and a line end. A SET is answered EXIST only when the value
      is the stored one. */
  predicate Says(l: Lookup, c: Command, r: seq<int>) {
    match c
    case Set(_, v) => r == if l == Text(v) then EXIST else OK
    case Get(_) => r == if l.Null? then NOT_FOUND else l.value + [13, 10]
    case Del(_) => r == if l.Null? then NOT_FOUND else OK
    case Mod(_, _) => r == if l.Null? then NOT_FOUND else OK
    case Exist(_) => r == if l.Null? then NOT_EXIST else EXIST
  }

  /** What is stored under a key. */
  function Stored(m: Contents, key: cstring): Lookup { if key !in m then Null else Text(m[key]) }

  /** The hash engine refuses a SET into a full table, whatever the key, and a SET or MOD of a key
      whose characters sum to less than zero and not to a multiple of the table size. */
  predicate Refused(m: Contents, slots: int, c: Command)
    requires slots > 0
  {
    || (c.Set? && slots <= |m|)
    || ((c.Set? || c.Mod?) && Sum(c.key) < 0 && Sum(c.key) % slots != 0)
  }

  predicate HashSays(m: Contents, slots: int, c: Command, r: seq<int>)
    requires slots > 0
  {
    if Refused(m, slots, c) then r == ERROR else Says(Stored(m, c.key), c, r)
  }

  lemma Texts()
    ensures Line(Ascii("OK")) == OK && Line(Ascii("EXIST")) == EXIST && Line(Ascii("NOT EXIST")) == NOT_EXIST
    ensures Line(Ascii("NOT FOUND")) == NOT_FOUND && Line(Ascii("ERROR")) == ERROR
  {
  }

  /** The replies of the plain engine. */
  lemma PlainSays(m: Contents, c: Command)
    ensures Says(Stored(m, c.key), c, PlainReply(m, c))
  {
    hide Line, Ascii;
    Texts();
    if c.Get? && c.key in m {
      GetText(m, c);
    }
  }

  lemma GetText(m: Contents, c: Command)
    requires c.Get? && c.key in m
    ensures PlainReply(m, c) == m[c.key] + [13, 10]
    ensures forall slots :: slots > 0 ==> HashReply(m, slots, c) == m[c.key] + [13, 10]
  {
  }

  /** C's remainder is negative exactly when the dividend is and the divisor does not divide it;
      it differs from the dividend by a multiple of the divisor and is smaller than it. */
  lemma RemainderIs(a: int, b: int)
    requires b > 0
    ensures (a - CRemainder(a, b)) % b == 0 && -b < CRemainder(a, b) < b
    ensures CRemainder(a, b) < 0 <==> a < 0 && a % b != 0
    ensures CRemainder(a, b) > 0 ==> a > 0
  {
    hide CRemainder;
    RemainderParts(a, b);
    if a < 0 {
      NegativeRemainder(a, b);
    } else {
      PositiveRemainder(a, b);
    }
  }

  lemma RemainderParts(a: int, b: int)
    requires b > 0
    ensures a < 0 ==> CRemainder(a, b) == -((-a) % b)
    ensures a >= 0 ==> CRemainder(a, b) == a % b
  {
  }

  lemma PositiveRemainder(a: int, b: int)
    requires b > 0
    ensures (a - a % b) % b == 0 && 0 <= a % b < b
    ensures a == 0 ==> a % b == 0
  {
    Multiple(a / b, b);
    assert a == b * (a / b) + a % b;
  }

  lemma NegativeRemainder(a: int, b: int)
    requires a < 0 < b
    ensures var r := (-a) % b;
            (a + r) % b == 0 && (r == 0 <==> a % b == 0)
  {
    var q, r := (-a) / b, (-a) % b;
    assert -a == b * q + r;
    Opposite(q, b);
    Multiple(-q, b);
    if r != 0 {
      Opposite(q + 1, b);
      OneMore(q, b);
      SmallRest(-q - 1, b, b - r);
    }
  }

  lemma Opposite(q: int, b: int)
    ensures b * (-q) == -(b * q)
  {
  }

  lemma OneMore(q: int, b: int)
    ensures b * (q + 1) == b * q + b
  {
  }

  lemma Multiple(q: int, b: int)
    requires b > 0
    ensures b * q % b == 0
  {
    SmallRest(q, b, 0);
  }

  lemma SmallRest(q: int, b: int, r: int)
    requires 0 <= r < b
    ensures (b * q + r) % b == r
  {
    var x := b * q + r;
    var p, s := x / b, x % b;
    assert x == b * p + s;
    assert b * (p - q) == r - s;
    if p > q {
      Product(b, p - q);
    } else if p < q {
      Product(b, q - p);
    }
  }

  lemma Product(b: int, k: int)
    requires b > 0 && k >= 1
    ensures b * k >= b
  {
  }

  /** The hash is the sum of the characters, each counted once. */
  lemma {:induction false} SumAdds(a: cstring, b: cstring)
    ensures Sum(a + b) == Sum(a) + Sum(b)
    ensures Sum([]) == 0 && forall x :: -128 <= x < 128 && x != 0 ==> Sum([x]) == x
    decreases |b|
  {
    forall x: int | -128 <= x < 128 && x != 0 ensures Sum([x]) == x {
      var one: cstring := [x];
      assert one[..0] == [];
    }
    if b == [] {
      assert a + b == a;
    } else {
      var n := |b| - 1;
      SumAdds(a, b[..n]);
      assert (a + b)[..|a| + n] == a + b[..n];
    }
  }

  lemma RefusedIs(m: Contents, slots: int, c: Command)
    requires slots > 0
    ensures Refused(m, slots, c) <==> !Served(m, slots, c)
  {
    RemainderIs(Sum(c.key), slots);
  }

  /** The replies of the hash engine. */
  lemma HashSaysSo(m: Contents, slots: int, c: Command)
    requires slots > 0
    ensures HashSays(m, slots, c, HashReply(m, slots, c))
  {
    hide Line, Ascii, Index;
    Texts();
    RefusedIs(m, slots, c);
    if c.Get? && c.key in m {
      GetText(m, c);
    }
  }

  /** ERROR is said exactly in these cases, or by a GET whose stored text it is. */
  lemma ErrorWhen(m: Contents, slots: int, c: Command)
    requires slots > 0
    ensures HashReply(m, slots, c) == ERROR <==>
              Refused(m, slots, c) || (c.Get? && Stored(m, c.key) == Text([69, 82, 82, 79, 82]))
  {
    hide HashReply;
    HashSaysSo(m, slots, c);
    if c.Get? && c.key in m {
      var v := m[c.key];
      assert v + [13, 10] == ERROR ==> v == (v + [13, 10])[..|v|] == ERROR[..5];
    }
  }

  // ---- what a command changes ----

  /** What a command leaves under key k where l was stored: SET stores its value, DEL removes, MOD
      replaces what is there, and other keys are not touched. */
  function Effect(c: Command, l: Lookup, k: cstring): Lookup {
    if c.key != k then l
    else if c.Set? then Text(c.value)
    else if c.Del? then Null
    else if c.Mod? && !l.Null? then Text(c.value)
    else l
  }

  lemma PlainEffect(m: Contents, c: Command, k: cstring)
    ensures Stored(PlainNext(m, c), k) == Effect(c, Stored(m, k), k)
  {
  }

  /** A refused command changes nothing. */
  lemma HashEffect(m: Contents, slots: int, c: Command, k: cstring)
    requires slots > 0 && Slotted(m, slots)
    ensures Stored(HashNext(m, slots, c), k)
         == if Refused(m, slots, c) then Stored(m, k) else Effect(c, Stored(m, k), k)
  {
    hide Index;
    RefusedIs(m, slots, c);
  }

  // ---- runs ----

  function PlainAfter(m: Contents, cs: seq<Command>): Contents {
    if cs == [] then m else PlainNext(PlainAfter(m, cs[..|cs| - 1]), cs[|cs| - 1])
  }

  function HashAfter(m: Contents, slots: int, cs: seq<Command>): Contents
    requires slots > 0
  {
    if cs == [] then m else HashNext(HashAfter(m, slots, cs[..|cs| - 1]), slots, cs[|cs| - 1])
  }

  /** What these commands leave under key k of an empty store. */
  function Told(cs: seq<Command>, k: cstring): Lookup {
    if cs == [] then Null else Effect(cs[|cs| - 1], Told(cs[..|cs| - 1], k), k)
  }

  /** The same in the hash engine, which may refuse some of them. */
  function HashTold(slots: int, cs: seq<Command>, k: cstring): Lookup
    requires slots > 0
  {
    if cs == [] then Null
    else
      var n := |cs| - 1;
      if Refused(HashAfter(map[], slots, cs[..n]), slots, cs[n]) then HashTold(slots, cs[..n], k)
      else Effect(cs[n], HashTold(slots, cs[..n], k), k)
  }

  lemma {:induction false} ToldIs(cs: seq<Command>, k: cstring)
    ensures Stored(PlainAfter(map[], cs), k) == Told(cs, k)
    decreases |cs|
  {
    hide PlainNext, Effect;
    if cs != [] {
      var n := |cs| - 1;
      ToldIs(cs[..n], k);
      PlainEffect(PlainAfter(map[], cs[..n]), cs[n], k);
    }
  }

  lemma {:induction false} HashToldIs(slots: int, cs: seq<Command>, k: cstring)
    requires slots > 0 && Defined(slots, cs)
    ensures Stored(HashAfter(map[], slots, cs), k) == HashTold(slots, cs, k)
    ensures Slotted(HashAfter(map[], slots, cs), slots)
    decreases |cs|
  {
    hide HashNext, Effect, Refused, Index;
    if cs != [] {
      var n := |cs| - 1;
      HashToldIs(slots, cs[..n], k);
      var m := HashAfter(map[], slots, cs[..n]);
      HashEffect(m, slots, cs[n], k);
      StaysSlotted(m, slots, cs[n]);
    }
  }

  lemma StaysSlotted(m: Contents, slots: int, c: Command)
    requires slots > 0 && Slotted(m, slots) && (c.Del? ==> Index(c.key, slots) >= 0)
    ensures Slotted(HashNext(m, slots, c), slots)
  {
    hide Index;
  }

  lemma {:induction false} PlainAfterCons(m: Contents, c: Command, cs: seq<Command>)
    ensures PlainAfter(m, [c] + cs) == PlainAfter(PlainNext(m, c), cs)
    decreases |cs|
  {
    hide PlainNext;
    if cs == [] {
      assert ([c] + cs)[..0] == [];
      assert PlainAfter(m, []) == m;
    } else {
      var n := |cs| - 1;
      PlainAfterCons(m, c, cs[..n]);
      assert ([c] + cs)[..n + 1] == [c] + cs[..n];
    }
  }

  lemma {:induction false} HashAfterCons(m: Contents, slots: int, c: Command, cs: seq<Command>)
    requires slots > 0
    ensures HashAfter(m, slots, [c] + cs) == HashAfter(HashNext(m, slots, c), slots, cs)
    decreases |cs|
  {
    hide HashNext;
    if cs == [] {
      assert ([c] + cs)[..0] == [];
      assert HashAfter(m, slots, []) == m;
    } else {
      var n := |cs| - 1;
      HashAfterCons(m, slots, c, cs[..n]);
      assert ([c] + cs)[..n + 1] == [c] + cs[..n];
    }
  }

  /** Each reply of a run is the reply to its command after those before it. */
  lemma {:induction false} PlainRunAt(m: Contents, cs: seq<Command>, i: nat)
    requires i < |cs|
    ensures |PlainRun(m, cs)| == |cs| && PlainRun(m, cs)[i] == PlainReply(PlainAfter(m, cs[..i]), cs[i])
    decreases |cs|
  {
    hide PlainReply, PlainNext;
    PlainRunLength(m, cs);
    if i == 0 {
      assert cs[..0] == [];
    } else {
      PlainRunAt(PlainNext(m, cs[0]), cs[1..], i - 1);
      assert cs[..i] == [cs[0]] + cs[1..][..i - 1];
      PlainAfterCons(m, cs[0], cs[1..][..i - 1]);
    }
  }

  lemma {:induction false} PlainRunLength(m: Contents, cs: seq<Command>)
    ensures |PlainRun(m, cs)| == |cs|
    decreases |cs|
  {
    hide PlainReply, PlainNext;
    if cs != [] {
      PlainRunLength(PlainNext(m, cs[0]), cs[1..]);
    }
  }

  lemma {:induction false} HashRunAt(m: Contents, slots: int, cs: seq<Command>, i: nat)
    requires slots > 0 && i < |cs|
    ensures |HashRun(m, slots, cs)| == |cs|
    ensures HashRun(m, slots, cs)[i] == HashReply(HashAfter(m, slots, cs[..i]), slots, cs[i])
    decreases |cs|
  {
    hide HashReply, HashNext;
    HashRunLength(m, slots, cs);
    if i == 0 {
      assert cs[..0] == [];
    } else {
      HashRunAt(HashNext(m, slots, cs[0]), slots, cs[1..], i - 1);
      assert cs[..i] == [cs[0]] + cs[1..][..i - 1];
      HashAfterCons(m, slots, cs[0], cs[1..][..i - 1]);
    }
  }

  lemma {:induction false} HashRunLength(m: Contents, slots: int, cs: seq<Command>)
    requires slots > 0
    ensures |HashRun(m, slots, cs)| == |cs|
    decreases |cs|
  {
    hide HashReply, HashNext;
    if cs != [] {
      HashRunLength(HashNext(m, slots, cs[0]), slots, cs[1..]);
    }
  }

  /** These are the replies of an empty store to these commands: each says what the commands
      before it left under its key. */
  predicate TreeTalk(cs: seq<Command>, r: seq<seq<int>>) {
    && |r| == |cs|
    && forall i :: 0 <= i < |cs| ==> Says(Told(cs[..i], cs[i].key), cs[i], r[i])
  }

  predicate HashTalk(slots: int, cs: seq<Command>, h: seq<seq<int>>)
    requires slots > 0
  {
    && |h| == |cs|
    && forall i :: 0 <= i < |cs| ==>
         if Refused(HashAfter(map[], slots, cs[..i]), slots, cs[i]) then h[i] == ERROR
         else Says(HashTold(slots, cs[..i], cs[i].key), cs[i], h[i])
  }

  lemma PlainTalks(cs: seq<Command>)
    ensures TreeTalk(cs, PlainRun(map[], cs))
  {
    hide PlainReply, PlainRun, PlainAfter, Told, Says;
    PlainRunLength(map[], cs);
    forall i | 0 <= i < |cs| ensures Says(Told(cs[..i], cs[i].key), cs[i], PlainRun(map[], cs)[i]) {
      PlainRunAt(map[], cs, i);
      ToldIs(cs[..i], cs[i].key);
      PlainSays(PlainAfter(map[], cs[..i]), cs[i]);
    }
  }

  lemma HashTalks(slots: int, cs: seq<Command>)
    requires slots > 0 && Defined(slots, cs)
    ensures HashTalk(slots, cs, HashRun(map[], slots, cs))
  {
    hide HashReply, HashRun, HashAfter, HashTold, Says, Refused, Index;
    HashRunLength(map[], slots, cs);
    var h := HashRun(map[], slots, cs);
    forall i | 0 <= i < |cs|
      ensures if Refused(HashAfter(map[], slots, cs[..i]), slots, cs[i]) then h[i] == ERROR
              else Says(HashTold(slots, cs[..i], cs[i].key), cs[i], h[i])
    {
      HashRunAt(map[], slots, cs, i);
      HashToldIs(slots, cs[..i], cs[i].key);
      HashSaysSo(HashAfter(map[], slots, cs[..i]), slots, cs[i]);
    }
  }
}
