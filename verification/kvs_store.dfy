/** The command dispatcher of kvstore.c over the red-black and the hash engine. */
module KvsStore {
  import opened KvsString
  import opened KvsEngine
  import opened KvsRbtree
  import opened KvsHash
  import opened KvsReplies

  const MAX_TABLE_SIZE := 102400

  const COUNT: nat := 15

  /** The command table. */
  function Name(i: nat): cstring
    requires i < COUNT
  {
    Ascii(
      if i == 0 then "SET" else if i == 1 then "GET" else if i == 2 then "DEL" else if i == 3 then "MOD"
      else if i == 4 then "EXIST" else if i == 5 then "RSET" else if i == 6 then "RGET" else if i == 7 then "RDEL"
      else if i == 8 then "RMOD" else if i == 9 then "REXIST" else if i == 10 then "HSET" else if i == 11 then "HGET"
      else if i == 12 then "HDEL" else if i == 13 then "HMOD" else "HEXIST")
  }

  /** The first table entry from i on that the token equals, or the table's size. */
  function Match(token: cstring, i: nat): (r: nat)
    requires i <= COUNT
    ensures i <= r <= COUNT
    decreases COUNT - i
  {
    if i == COUNT || token == Name(i) then i else Match(token, i + 1)
  }

  datatype Engine = Tree | Hash

  datatype Request = NoTokens | Malformed | Unknown | ForArray | Ask(engine: Engine, c: Command)

  /** What a line of tokens asks for. */
  function Read(tokens: seq<cstring>): Request {
    if |tokens| < 1 then NoTokens
    else
      var cmd := Match(tokens[0], 0);
      if cmd == COUNT then Unknown
      else if cmd < 5 then ForArray
      else
        var engine := if cmd < 10 then Tree else Hash;
        var op := if cmd < 10 then cmd - 5 else cmd - 10;
        if |tokens| != (if op == 0 || op == 3 then 3 else 2) then Malformed
        else Ask(engine,
          if op == 0 then Set(tokens[1], tokens[2])
          else if op == 1 then Get(tokens[1])
          else if op == 2 then Del(tokens[1])
          else if op == 3 then Mod(tokens[1], tokens[2])
          else Exist(tokens[1]))
  }

  function Operation(c: Command): nat {
    match c
    case Set(_, _) => 0
    case Get(_) => 1
    case Del(_) => 2
    case Mod(_, _) => 3
    case Exist(_) => 4
  }

  /** The tokens of a command for one of the two engines. */
  function Tokens(engine: Engine, c: Command): seq<cstring>
  {
    var name := Name((if engine.Tree? then 5 else 10) + Operation(c));
    if c.Set? || c.Mod? then [name, c.key, c.value] else [name, c.key]
  }

  /** The table's names differ in their first or a later letter. */
  lemma NamesDiffer(i: nat, j: nat)
    requires i < j < COUNT
    ensures Name(i) != Name(j)
  {
    var a, b := Name(i), Name(j);
    if i % 5 != j % 5 {
      assert a[|a| - 3] != b[|b| - 3];
    } else {
      assert |a| != |b| || a[0] != b[0];
    }
  }

  lemma {:induction false} MatchName(i: nat, j: nat)
    requires i <= j < COUNT
    ensures Match(Name(j), i) == j
    decreases j - i
  {
    if i < j {
      NamesDiffer(i, j);
      MatchName(i + 1, j);
    }
  }

  lemma ReadTokens(engine: Engine, c: Command)
    ensures Read(Tokens(engine, c)) == Ask(engine, c)
  {
    hide Name;
    MatchName(0, (if engine.Tree? then 5 else 10) + Operation(c));
  }

  // ---- the commands as they are spelled ----

  predicate Spelled(token: cstring, s: string) {
    |token| == |s| && forall i :: 0 <= i < |s| ==> token[i] == s[i] as int
  }

  function Spelling(engine: Engine, c: Command): string {
    match c
    case Set(_, _) => if engine.Tree? then "RSET" else "HSET"
    case Get(_) => if engine.Tree? then "RGET" else "HGET"
    case Del(_) => if engine.Tree? then "RDEL" else "HDEL"
    case Mod(_, _) => if engine.Tree? then "RMOD" else "HMOD"
    case Exist(_) => if engine.Tree? then "REXIST" else "HEXIST"
  }

  /** The tokens are a command for this engine: its name, a key, and for SET and MOD a value. */
  predicate Asks(tokens: seq<cstring>, engine: Engine, c: Command) {
    && |tokens| == (if c.Set? || c.Mod? then 3 else 2)
    && Spelled(tokens[0], Spelling(engine, c)) && tokens[1] == c.key
    && (c.Set? || c.Mod? ==> tokens[2] == c.value)
  }

  /** The token is one of these names. */
  predicate OneOf(token: cstring, names: seq<string>) {
    exists i :: 0 <= i < |names| && Spelled(token, names[i])
  }

  const ArrayNames: seq<string> := ["SET", "GET", "DEL", "MOD", "EXIST"]
  const TreeNames: seq<string> := ["RSET", "RGET", "RDEL", "RMOD", "REXIST"]
  const HashNames: seq<string> := ["HSET", "HGET", "HDEL", "HMOD", "HEXIST"]

  lemma SpelledIs(token: cstring, s: string)
    requires forall i :: 0 <= i < |s| ==> 0 < s[i] as int < 128
    ensures Spelled(token, s) <==> token == Ascii(s)
  {
  }

  /** The table entry that a token is, if any. */
  lemma {:induction false} MatchIs(token: cstring, i: nat)
    requires i <= COUNT
    ensures var r := Match(token, i);
            && (r < COUNT ==> token == Name(r))
            && forall j: nat :: i <= j < r ==> token != Name(j)
    decreases COUNT - i
  {
    hide Name;
    if i < COUNT && token != Name(i) {
      MatchIs(token, i + 1);
    }
  }

  lemma MatchIsName(token: cstring, j: nat)
    requires j < COUNT
    ensures Match(token, 0) == j <==> token == Name(j)
  {
    hide Name;
    MatchIs(token, 0);
    MatchName(0, j);
  }

  lemma SpellingIs(token: cstring, engine: Engine, c: Command)
    ensures Spelled(token, Spelling(engine, c)) <==> token == Name((if engine.Tree? then 5 else 10) + Operation(c))
  {
    hide Ascii, Spelled;
    SpelledIs(token, Spelling(engine, c));
  }

  /** A line is read as a command exactly when it spells it. */
  lemma ReadAsks(tokens: seq<cstring>, engine: Engine, c: Command)
    ensures Read(tokens) == Ask(engine, c) <==> Asks(tokens, engine, c)
  {
    hide Name, Spelled, Match;
    if tokens != [] {
      SpellingIs(tokens[0], engine, c);
      MatchIsName(tokens[0], (if engine.Tree? then 5 else 10) + Operation(c));
    }
  }

  lemma ArrayNamed(token: cstring)
    ensures OneOf(token, ArrayNames) <==> Match(token, 0) < 5
  {
    hide Name, Match, Spelled;
    forall i: nat | i < 5 ensures Spelled(token, ArrayNames[i]) <==> Match(token, 0) == i {
      MatchIsName(token, i);
      TableIs(token, i);
    }
    var k := Match(token, 0);
    assert k < 5 ==> Spelled(token, ArrayNames[k]);
  }

  lemma TableIs(token: cstring, i: nat)
    requires i < 5
    ensures Spelled(token, ArrayNames[i]) <==> token == Name(i)
    ensures Spelled(token, TreeNames[i]) <==> token == Name(5 + i)
    ensures Spelled(token, HashNames[i]) <==> token == Name(10 + i)
  {
    hide Ascii, Spelled;
    SpelledIs(token, ArrayNames[i]);
    SpelledIs(token, TreeNames[i]);
    SpelledIs(token, HashNames[i]);
  }

  lemma EngineNamed(token: cstring)
    ensures OneOf(token, TreeNames) <==> 5 <= Match(token, 0) < 10
    ensures OneOf(token, HashNames) <==> 10 <= Match(token, 0) < COUNT
  {
    hide Name, Match, Spelled;
    forall i: nat | i < 5
      ensures Spelled(token, TreeNames[i]) <==> Match(token, 0) == 5 + i
      ensures Spelled(token, HashNames[i]) <==> Match(token, 0) == 10 + i
    {
      MatchIsName(token, 5 + i);
      MatchIsName(token, 10 + i);
      TableIs(token, i);
    }
    var k := Match(token, 0);
    assert 5 <= k < 10 ==> Spelled(token, TreeNames[k - 5]);
    assert 10 <= k < COUNT ==> Spelled(token, HashNames[k - 10]);
  }

  /** The other lines: none at all, a command of the array engine, an unknown name, or the name of
      a command with the wrong number of tokens. */
  lemma ReadOthers(tokens: seq<cstring>)
    ensures Read(tokens).NoTokens? <==> tokens == []
    ensures Read(tokens).ForArray? <==> tokens != [] && OneOf(tokens[0], ArrayNames)
    ensures Read(tokens).Unknown? <==>
              && tokens != [] && !OneOf(tokens[0], ArrayNames)
              && !OneOf(tokens[0], TreeNames) && !OneOf(tokens[0], HashNames)
    ensures Read(tokens).Malformed? ==> OneOf(tokens[0], TreeNames) || OneOf(tokens[0], HashNames)
  {
    hide Name, Match, OneOf;
    if tokens != [] {
      ArrayNamed(tokens[0]);
      EngineNamed(tokens[0]);
    }
  }

  /** The reply to a line that spells a command, given what the engines hold. */
  ghost predicate Replied(tokens: seq<cstring>, tree: Contents, hash: Contents, slots: int, response: seq<int>)
    requires slots > 0
  {
    && (forall c :: Asks(tokens, Tree, c) ==> Says(Stored(tree, c.key), c, response))
    && (forall c :: Asks(tokens, Hash, c) ==> HashSays(hash, slots, c, response))
  }

  lemma ReplyIs(tokens: seq<cstring>, tree: Contents, hash: Contents, slots: int, response: seq<int>)
    requires slots > 0
    requires Read(tokens).Ask? ==>
               response == if Read(tokens).engine.Tree? then PlainReply(tree, Read(tokens).c)
                           else HashReply(hash, slots, Read(tokens).c)
    ensures Replied(tokens, tree, hash, slots, response)
  {
    hide Read, Asks, Says, HashSays, PlainReply, HashReply;
    forall c | Asks(tokens, Tree, c) ensures Says(Stored(tree, c.key), c, response) {
      ReadAsks(tokens, Tree, c);
      PlainSays(tree, c);
    }
    forall c | Asks(tokens, Hash, c) ensures HashSays(hash, slots, c, response) {
      ReadAsks(tokens, Hash, c);
      HashSaysSo(hash, slots, c);
    }
  }

  /** The search of the command table and the check of the token count. */
  method Recognize(tokens: seq<cstring>) returns (request: Request)
    ensures request == Read(tokens)
  {
    hide Name;
    if |tokens| < 1 {
      return NoTokens;
    }
    var cmd := 0;
    while cmd < COUNT
      invariant 0 <= cmd <= COUNT && Match(tokens[0], 0) == Match(tokens[0], cmd)
    {
      StrCmpZero(tokens[0], Name(cmd));
      if StrCmp(tokens[0], Name(cmd)) == 0 {
        break;
      }
      cmd := cmd + 1;
    }
    if cmd == COUNT {
      return Unknown;
    }
    if cmd < 5 {
      return ForArray;
    }
    var op := cmd % 5;
    if |tokens| != (if op == 0 || op == 3 then 3 else 2) {
      return Malformed;
    }
    request := Ask(if cmd < 10 then Tree else Hash,
      if op == 0 then Set(tokens[1], tokens[2])
      else if op == 1 then Get(tokens[1])
      else if op == 2 then Del(tokens[1])
      else if op == 3 then Mod(tokens[1], tokens[2])
      else Exist(tokens[1]));
  }

  class Store {
    const tree: RbTree
    const hash: HashTable

    ghost predicate Valid()
      reads tree, tree.repr, tree.nil`color, hash, hash.nodes, hash.live.Values`next
    {
      tree.Valid() && hash.Valid()
    }

    /** `init_kvengine`, for these two engines. */
    constructor ()
      ensures Valid() && tree.Contents() == map[] && hash.Contents() == map[] && hash.maxSlots == MAX_TABLE_SIZE
      ensures fresh(tree) && fresh(tree.repr) && fresh(tree.nil)
      ensures fresh(hash) && fresh(hash.nodes) && fresh(hash.live.Values)
    {
      hide RbTree.Valid, HashTable.Valid, RbTree.Contents, HashTable.Contents;
      tree := new RbTree();
      hash := new HashTable(MAX_TABLE_SIZE);
    }

    method AskTree(c: Command) returns (response: seq<int>)
      requires tree.Valid()
      modifies tree, tree.repr, tree.nil
      ensures tree.Valid() && fresh(tree.repr - old(tree.repr))
      ensures response == PlainReply(old(tree.Contents()), c)
      ensures tree.Contents() == PlainNext(old(tree.Contents()), c)
    {
      hide RbTree.Valid, HashTable.Valid, RbTree.Contents, HashTable.Contents;
      match c
      case Set(k, v) =>
        var ret := tree.Set(k, v);
        response := SetReply(ret);
      case Get(k) =>
        var result := tree.Get(k);
        response := GetReply(result);
      case Del(k) =>
        var ret := tree.Del(k);
        response := ChangeReply(ret);
      case Mod(k, v) =>
        var ret := tree.Mod(k, v);
        response := ChangeReply(ret);
      case Exist(k) =>
        var ret := tree.Exist(k);
        response := ExistReply(ret);
    }

    method AskHash(c: Command) returns (response: seq<int>)
      requires hash.Valid() && (c.Del? ==> Index(c.key, hash.maxSlots) >= 0)
      modifies hash, hash.nodes, hash.live.Values
      ensures hash.Valid() && fresh(hash.live.Values - old(hash.live.Values))
      ensures response == HashReply(old(hash.Contents()), hash.maxSlots, c)
      ensures hash.Contents() == HashNext(old(hash.Contents()), hash.maxSlots, c)
    {
      hide RbTree.Valid, HashTable.Valid, RbTree.Contents, HashTable.Contents;
      match c
      case Set(k, v) =>
        var ret := hash.Set(k, v);
        response := SetReply(ret);
      case Get(k) =>
        var result := hash.Get(k);
        response := GetReply(result);
      case Del(k) =>
        var ret := hash.Del(k);
        response := ChangeReply(ret);
      case Mod(k, v) =>
        var ret := hash.Mod(k, v);
        response := ChangeReply(ret);
      case Exist(k) =>
        var ret := hash.Exist(k);
        response := ExistReply(ret);
    }

    /** `kvs_protocol_filter`; the buffer keeps its text when nothing is written. */
    method Filter(tokens: seq<cstring>, buffer: seq<int>) returns (length: int, response: seq<int>)
      requires Valid() && !Read(tokens).ForArray?
      requires Read(tokens).Ask? && Read(tokens).engine.Hash? && Read(tokens).c.Del? ==>
                 Index(Read(tokens).c.key, hash.maxSlots) >= 0
      modifies tree, tree.repr, tree.nil, hash, hash.nodes, hash.live.Values
      ensures Valid() && fresh(tree.repr - old(tree.repr)) && fresh(hash.live.Values - old(hash.live.Values))
      ensures Read(tokens).NoTokens? ==> length == -1 && response == buffer
      ensures Read(tokens).Malformed? ==> length == -2 && response == buffer
      ensures Read(tokens).Unknown? ==> length == 0 && response == buffer
      ensures Read(tokens).Ask? ==>
                var c := Read(tokens).c;
                && length == |response|
                && response == (if Read(tokens).engine.Tree? then PlainReply(old(tree.Contents()), c)
                                else HashReply(old(hash.Contents()), hash.maxSlots, c))
      ensures Replied(tokens, old(tree.Contents()), old(hash.Contents()), hash.maxSlots, response)
      ensures tree.Contents() == if Read(tokens).Ask? && Read(tokens).engine.Tree?
                                 then PlainNext(old(tree.Contents()), Read(tokens).c) else old(tree.Contents())
      ensures hash.Contents() == if Read(tokens).Ask? && Read(tokens).engine.Hash?
                                 then HashNext(old(hash.Contents()), hash.maxSlots, Read(tokens).c)
                                 else old(hash.Contents())
    {
      hide RbTree.Valid, HashTable.Valid, RbTree.Contents, HashTable.Contents;
      hide PlainReply, HashReply, PlainNext, HashNext, Read, Replied;
      hash.HasSlots();
      response := buffer;
      var request := Recognize(tokens);
      match request {
        case NoTokens => length := -1;
        case Malformed => length := -2;
        case Unknown => length := 0;
        case Ask(engine, c) =>
          if engine.Tree? {
            response := AskTree(c);
          } else {
            response := AskHash(c);
          }
          length := |response|;
      }
      ReplyIs(tokens, old(tree.Contents()), old(hash.Contents()), hash.maxSlots, response);
    }

    /** The same command for both engines. */
    method Both(c: Command) returns (r: seq<int>, h: seq<int>)
      requires Valid() && (c.Del? ==> Index(c.key, hash.maxSlots) >= 0)
      modifies tree, tree.repr, tree.nil, hash, hash.nodes, hash.live.Values
      ensures Valid() && fresh(tree.repr - old(tree.repr)) && fresh(hash.live.Values - old(hash.live.Values))
      ensures r == PlainReply(old(tree.Contents()), c) && tree.Contents() == PlainNext(old(tree.Contents()), c)
      ensures h == HashReply(old(hash.Contents()), hash.maxSlots, c)
      ensures hash.Contents() == HashNext(old(hash.Contents()), hash.maxSlots, c)
    {
      hide RbTree.Valid, HashTable.Valid, RbTree.Contents, HashTable.Contents;
      hide PlainReply, HashReply, PlainNext, HashNext, Read, Tokens;
      ReadTokens(Tree, c);
      ReadTokens(Hash, c);
      var n;
      n, r := Filter(Tokens(Tree, c), []);
      n, h := Filter(Tokens(Hash, c), []);
    }
  }

  /** A run of commands sent to a fresh store twice, as R* and as H* commands. */
  method Session(cs: seq<Command>) returns (r: seq<seq<int>>, h: seq<seq<int>>)
    requires Defined(MAX_TABLE_SIZE, cs)
    ensures r == PlainRun(map[], cs) && h == HashRun(map[], MAX_TABLE_SIZE, cs)
    ensures TreeTalk(cs, r) && HashTalk(MAX_TABLE_SIZE, cs, h)
    ensures r == h <==> AllServed(map[], MAX_TABLE_SIZE, cs)
  {
    hide RbTree.Valid, HashTable.Valid, RbTree.Contents, HashTable.Contents;
    hide PlainReply, HashReply, PlainNext, HashNext, Name, Read, Tokens, AllServed, Store.Valid, Index, Sum, Match;
    hide TreeTalk, HashTalk;
    PlainTalks(cs);
    HashTalks(MAX_TABLE_SIZE, cs);
    EnginesAgree(map[], MAX_TABLE_SIZE, cs);
    var store := new Store();
    r, h := [], [];
    var i := 0;
    assert cs[0..] == cs;
    while i < |cs|
      invariant 0 <= i <= |cs| && store.Valid() && fresh(store)
      invariant fresh(store.tree) && fresh(store.tree.repr) && fresh(store.tree.nil)
      invariant fresh(store.hash) && fresh(store.hash.nodes) && fresh(store.hash.live.Values)
      invariant store.hash.maxSlots == MAX_TABLE_SIZE
      invariant PlainRun(map[], cs) == r + PlainRun(store.tree.Contents(), cs[i..])
      invariant HashRun(map[], MAX_TABLE_SIZE, cs) == h + HashRun(store.hash.Contents(), MAX_TABLE_SIZE, cs[i..])
    {
      var c := cs[i];
      assert cs[i..][0] == c && cs[i..][1..] == cs[i + 1..];
      var p, q := store.Both(c);
      r, h := r + [p], h + [q];
      i := i + 1;
    }
  }
}
