/** The coroutine scheduler of Final_hook_zzx_tcp.c on the heap: a ready queue and a wait list
    that share one pair of links per coroutine. */
module Coroutines {
  datatype State = READY | WAIT

  class Coroutine {
    var fd: int
    var state: State
    var prev: Coroutine?
    var next: Coroutine?

    constructor ()
      ensures fd == -1
    {
      fd := -1;
      state := READY;
      prev, next := null, null;
    }
  }

  type List = seq<Coroutine>

  function Next(s: List, i: nat): Coroutine?
    requires i < |s|
  {
    if i + 1 < |s| then s[i + 1] else null
  }

  function Prev(s: List, i: nat): Coroutine?
    requires i < |s|
  {
    if i > 0 then s[i - 1] else null
  }

  function First(s: List): Coroutine? { if s == [] then null else s[0] }

  function Last(s: List): Coroutine? { if s == [] then null else s[|s| - 1] }

  /** The links of a list, both ways. */
  ghost predicate Linked(s: List)
    reads s`next, s`prev
  {
    forall i :: 0 <= i < |s| ==> s[i].next == Next(s, i) && s[i].prev == Prev(s, i)
  }

  lemma LinksAt(s: List, k: nat)
    requires Linked(s) && NoDuplicates(s) && k < |s|
    ensures s[k].next == Next(s, k) && s[k].prev == Prev(s, k) && (s[k] == First(s) <==> k == 0)
  {
  }

  ghost predicate NoDuplicates(s: List) {
    forall i, j :: 0 <= i < j < |s| ==> s[i] != s[j]
  }

  function Remove(s: List, k: nat): List
    requires k < |s|
  {
    s[..k] + s[k + 1..]
  }

  lemma NoDuplicatesAdd(s: List, co: Coroutine)
    requires NoDuplicates(s) && co !in s
    ensures NoDuplicates(s + [co]) && NoDuplicates([co] + s)
  {
  }

  /** The element at position k is nowhere else. */
  lemma OnlyAt(s: List, k: nat)
    requires NoDuplicates(s) && k < |s|
    ensures forall i :: 0 <= i < |s| && i != k ==> s[i] != s[k]
  {
  }

  lemma NoDuplicatesRemove(s: List, k: nat)
    requires NoDuplicates(s) && k < |s|
    ensures NoDuplicates(Remove(s, k)) && s[k] !in Remove(s, k)
    ensures forall c :: c in s <==> c in Remove(s, k) || c == s[k]
  {
    var r := Remove(s, k);
    assert forall i :: 0 <= i < |r| ==> r[i] == s[if i < k then i else i + 1];
    forall c | c in s ensures c in r || c == s[k] {
      var i :| 0 <= i < |s| && s[i] == c;
      assert i != k ==> r[if i < k then i else i - 1] == c;
    }
  }

  class Scheduler {
    var readyHead: Coroutine?
    var readyTail: Coroutine?
    var waitRoot: Coroutine?
    var current: Coroutine?
    ghost var ready: List
    ghost var waiting: List
    /** Every coroutine that was created and has not returned. */
    ghost var live: set<Coroutine>
    /** All that ever entered and left the ready queue, in order. */
    ghost var queued: List
    ghost var served: List

    ghost predicate Shape()
      reads this, live
    {
      && (forall c :: c in ready ==> c in live) && (forall c :: c in waiting ==> c in live)
      && readyHead == First(ready) && readyTail == Last(ready) && waitRoot == First(waiting)
      && NoDuplicates(ready) && NoDuplicates(waiting) && (forall c :: c in ready ==> c !in waiting)
      && Linked(ready) && Linked(waiting)
    }

    /** Every live coroutine is in exactly one place, its state says whether it waits, and the
        ready queue is what was queued and not yet served. */
    ghost predicate Valid()
      reads this, live
    {
      && Shape()
      && (forall c :: c in live ==> c in ready || c in waiting || c == current)
      && (current != null ==> current in live && current !in ready && current !in waiting)
      && (forall c :: c in live ==> (c.state == WAIT <==> c in waiting))
      && queued == served + ready
    }

    /** `init_scheduler`. */
    constructor ()
      ensures Valid() && live == {} && current == null && queued == []
    {
      readyHead, readyTail, waitRoot, current := null, null, null, null;
      ready, waiting, queued, served := [], [], [], [];
      live := {};
    }

    /** The links of a new last element. */
    static method LinkLast(co: Coroutine, tail: Coroutine?, ghost s: List)
      requires Linked(s) && NoDuplicates(s) && co !in s && tail == Last(s)
      modifies co`next, co`prev, s`next
      ensures Linked(s + [co])
    {
      if s != [] {
        OnlyAt(s, |s| - 1);
      }
      hide NoDuplicates;
      co.next := null;
      co.prev := tail;
      if tail != null {
        tail.next := co;
      }
      ghost var r := s + [co];
      forall i | 0 <= i < |r| ensures r[i].next == Next(r, i) && r[i].prev == Prev(r, i) {
        assert i < |s| ==> r[i] == s[i] && old(s[i].next) == Next(s, i) && old(s[i].prev) == Prev(s, i);
      }
    }

    /** The links of a new first element. */
    static method LinkFirst(co: Coroutine, root: Coroutine?, ghost s: List)
      requires Linked(s) && NoDuplicates(s) && co !in s && root == First(s)
      modifies co`next, co`prev, s`prev
      ensures Linked([co] + s)
    {
      if s != [] {
        OnlyAt(s, 0);
      }
      hide NoDuplicates;
      co.next := root;
      if root != null {
        root.prev := co;
      }
      co.prev := null;
      ghost var r := [co] + s;
      forall i | 0 <= i < |r| ensures r[i].next == Next(r, i) && r[i].prev == Prev(r, i) {
        assert i > 0 ==>
            r[i] == s[i - 1] && old(s[i - 1].next) == Next(s, i - 1) && old(s[i - 1].prev) == Prev(s, i - 1);
      }
    }

    /** The second element becomes the first. */
    static method UnlinkFirst(second: Coroutine?, ghost s: List)
      requires Linked(s) && NoDuplicates(s) && s != [] && second == Next(s, 0)
      modifies s`prev
      ensures Linked(Remove(s, 0))
    {
      if |s| > 1 {
        OnlyAt(s, 1);
      }
      hide NoDuplicates;
      if second != null {
        second.prev := null;
      }
      ghost var r := Remove(s, 0);
      assert r == s[1..];
      forall i | 0 <= i < |r| ensures r[i].next == Next(r, i) && r[i].prev == Prev(r, i) {
        assert r[i] == s[i + 1] && old(s[i + 1].next) == Next(s, i + 1) && old(s[i + 1].prev) == Prev(s, i + 1);
      }
    }

    /** `add_to_ready`, for a coroutine on neither list. */
    method AddToReady(co: Coroutine)
      requires Shape() && co in live && co !in ready && co !in waiting
      modifies `readyHead, `readyTail, `ready, `queued, co`state, live`next, live`prev
      ensures Shape() && co.state == READY
      ensures ready == old(ready) + [co] && queued == old(queued) + [co]
    {
      hide NoDuplicates, Linked;
      NoDuplicatesAdd(ready, co);
      co.state := READY;
      LinkLast(co, readyTail, ready);
      assert forall c :: c in waiting ==> c.next == old(c.next) && c.prev == old(c.prev);
      if readyHead == null {
        readyHead := co;
      }
      readyTail := co;
      ready := ready + [co];
      queued := queued + [co];
    }

    /** `pop_ready`. */
    method PopReady() returns (co: Coroutine?)
      requires Shape()
      modifies `readyHead, `readyTail, `ready, `served, live`next, live`prev
      ensures Shape()
      ensures old(ready) == [] ==> co == null && ready == [] && served == old(served)
      ensures old(ready) != [] ==>
                && co == old(ready)[0] && ready == Remove(old(ready), 0) && served == old(served) + [co]
                && co !in ready
    {
      if readyHead == null {
        return null;
      }
      co := TakeHead(readyHead);
    }

    method TakeHead(head: Coroutine) returns (co: Coroutine)
      requires Shape() && ready != [] && head == readyHead
      modifies `readyHead, `readyTail, `ready, `served, live`next, live`prev
      ensures Shape() && co == old(ready)[0] == head
      ensures ready == Remove(old(ready), 0) && served == old(served) + [co] && co !in ready
    {
      hide NoDuplicates, Linked, Remove, Next, First, Last;
      co := head;
      WithoutFirst(ready);
      LinksAt(ready, 0);
      NoDuplicatesRemove(ready, 0);
      ghost var rest := Remove(ready, 0);
      UnlinkFirst(co.next, ready);
      assert forall c :: c in waiting ==> c.next == old(c.next) && c.prev == old(c.prev);
      readyHead := co.next;
      if readyHead == null {
        readyTail := null;
      }
      co.prev, co.next := null, null;
      ready := rest;
      served := served + [co];
    }

    static lemma WithoutFirst(s: List)
      requires s != []
      ensures Remove(s, 0) == s[1..] && First(s) == s[0] && First(Remove(s, 0)) == Next(s, 0)
      ensures Last(Remove(s, 0)) == if Next(s, 0) == null then null else Last(s)
      ensures Remove(s, 0) == [] <==> Next(s, 0) == null
    {
    }

    /** `insert_wait`: the newest waiter comes first. */
    method InsertWait(co: Coroutine)
      requires Shape() && co in live && co !in ready && co !in waiting
      modifies `waitRoot, `waiting, co`state, live`next, live`prev
      ensures Shape() && co.state == WAIT && waiting == [co] + old(waiting)
    {
      hide NoDuplicates, Linked;
      NoDuplicatesAdd(waiting, co);
      co.state := WAIT;
      LinkFirst(co, waitRoot, waiting);
      assert forall c :: c in ready ==> c.next == old(c.next) && c.prev == old(c.prev);
      waitRoot := co;
      waiting := [co] + waiting;
    }

    /** The neighbours of position k point past it. */
    static method Bypass(co: Coroutine, ghost s: List, ghost k: nat)
      requires Linked(s) && NoDuplicates(s) && k < |s| && s[k] == co
      modifies s`next, s`prev
      ensures Linked(Remove(s, k)) && co.next == Next(s, k) && co.prev == Prev(s, k)
    {
      OnlyAt(s, k);
      if k > 0 {
        OnlyAt(s, k - 1);
      }
      if k + 1 < |s| {
        OnlyAt(s, k + 1);
      }
      hide NoDuplicates;
      if co.prev != null {
        co.prev.next := co.next;
      }
      if co.next != null {
        co.next.prev := co.prev;
      }
      ghost var r := Remove(s, k);
      forall i | 0 <= i < |r| ensures r[i].next == Next(r, i) && r[i].prev == Prev(r, i) {
        ghost var j := if i < k then i else i + 1;
        assert r[i] == s[j] && old(s[j].next) == Next(s, j) && old(s[j].prev) == Prev(s, j);
      }
    }

    /** `remove_wait`. */
    method RemoveWait(co: Coroutine, ghost k: nat)
      requires Shape() && k < |waiting| && waiting[k] == co
      modifies `waitRoot, `waiting, live`next, live`prev
      ensures Shape() && waiting == Remove(old(waiting), k) && co !in waiting
    {
      hide NoDuplicates, Linked;
      LinksAt(waiting, k);
      NoDuplicatesRemove(waiting, k);
      Bypass(co, waiting, k);
      assert forall c :: c in ready ==> c.next == old(c.next) && c.prev == old(c.prev);
      if co == waitRoot {
        waitRoot := co.next;
      }
      co.prev, co.next := null, null;
      waiting := Remove(waiting, k);
    }

    // ---- what coroutines and the main loop do ----

    /** `create_coroutine`. */
    method Spawn() returns (co: Coroutine)
      requires Valid()
      modifies this, live`next, live`prev, live`state
      ensures Valid() && fresh(co) && live == old(live) + {co} && current == old(current)
      ensures ready == old(ready) + [co] && queued == old(queued) + [co]
      ensures waiting == old(waiting) && served == old(served)
    {
      hide NoDuplicates, Linked;
      co := new Coroutine();
      live := live + {co};
      AddToReady(co);
    }

    /** One turn of `schedule_loop`: the head of the ready queue runs. */
    method Dispatch()
      requires Valid() && current == null && ready != []
      modifies this, live`next, live`prev, live`state
      ensures Valid() && current == old(ready)[0] && live == old(live)
      ensures ready == Remove(old(ready), 0) && waiting == old(waiting) && served == old(served) + [current]
      ensures queued == old(queued)
    {
      hide NoDuplicates, Linked;
      hide Remove, First, Last;
      WithoutFirst(ready);
      NoDuplicatesRemove(ready, 0);
      ServeOne(served, ready);
      current := PopReady();
    }

    static lemma ServeOne(served: List, ready: List)
      requires ready != []
      ensures served + ready == (served + [ready[0]]) + Remove(ready, 0)
    {
      assert ready == [ready[0]] + ready[1..];
      assert Remove(ready, 0) == ready[1..];
    }

    /** `wait_for_read` and the blocking part of `write`: the running coroutine waits for a
        descriptor and control returns to the main loop. */
    method Wait(fd: int)
      requires Valid() && current != null
      modifies this, live
      ensures Valid() && current == null && live == old(live)
      ensures waiting == [old(current)] + old(waiting) && ready == old(ready)
      ensures old(current).fd == fd && queued == old(queued) && served == old(served)
      ensures forall c :: c in live && c != old(current) ==> c.fd == old(c.fd)
    {
      hide NoDuplicates, Linked;
      current.fd := fd;
      InsertWait(current);
      current := null;
    }

    /** The running coroutine returns. */
    method Exit()
      requires Valid() && current != null
      modifies this
      ensures Valid() && current == null && live == old(live) - {old(current)}
      ensures ready == old(ready) && waiting == old(waiting) && queued == old(queued) && served == old(served)
    {
      hide NoDuplicates, Linked;
      live := live - {current};
      current := null;
    }

    /** The search of the wait list in `close` and in the event loop: the first coroutine that
        waits for the descriptor becomes ready. */
    method Wake(fd: int) returns (ghost k: nat)
      requires Valid()
      modifies this, live`next, live`prev, live`state
      ensures Valid() && live == old(live) && current == old(current) && served == old(served)
      ensures k <= |old(waiting)| && forall i :: 0 <= i < k ==> old(waiting[i].fd) != fd
      ensures k == |old(waiting)| ==> waiting == old(waiting) && ready == old(ready) && queued == old(queued)
      ensures k < |old(waiting)| ==>
                && old(waiting[k].fd) == fd && waiting == Remove(old(waiting), k)
                && ready == old(ready) + [old(waiting)[k]] && queued == old(queued) + [old(waiting)[k]]
    {
      hide NoDuplicates, Linked;
      var co := waitRoot;
      k := 0;
      while co != null
        invariant 0 <= k <= |waiting| && co == (if k < |waiting| then waiting[k] else null)
        invariant forall i :: 0 <= i < k ==> waiting[i].fd != fd
        modifies {}
        decreases |waiting| - k
      {
        if co.fd == fd {
          break;
        }
        LinksAt(waiting, k);
        co := co.next;
        k := k + 1;
      }
      if co != null {
        Resume(co, k);
      }
    }

    method Resume(co: Coroutine, ghost k: nat)
      requires Valid() && k < |waiting| && co == waiting[k]
      modifies this, live`next, live`prev, live`state
      ensures Valid() && live == old(live) && current == old(current) && served == old(served)
      ensures waiting == Remove(old(waiting), k)
      ensures ready == old(ready) + [co] && queued == old(queued) + [co]
    {
      hide NoDuplicates, Linked, Remove;
      NoDuplicatesRemove(waiting, k);
      assert co !in ready;
      RemoveWait(co, k);
      AddToReady(co);
    }
  }

  // ---- the scheduler as a machine over creation numbers ----

  /** What can happen next: a creation, a turn of the main loop, the running coroutine
      waiting or returning, a close, or an event. */
  datatype Step = Create | Turn | Block(fd: int) | Return | Close(fd: int) | Event(fd: int)

  datatype Waiter = Waiter(id: nat, fd: int)

  datatype Running = Nobody | Runs(id: nat)

  /** Coroutines are named by the order of their creation. */
  datatype Machine = Machine(made: nat, ready: seq<nat>, waiting: seq<Waiter>, running: Running,
                             queued: seq<nat>, served: seq<nat>, returned: seq<nat>)

  function Initial(): Machine { Machine(0, [], [], Nobody, [], [], []) }

  /** The newest waiter for the descriptor, or the end of the list. */
  function FirstFor(ws: seq<Waiter>, fd: int): (k: nat)
    ensures k <= |ws| && (forall i :: 0 <= i < k ==> ws[i].fd != fd) && (k < |ws| ==> ws[k].fd == fd)
  {
    if ws == [] || ws[0].fd == fd then 0 else 1 + FirstFor(ws[1..], fd)
  }

  function Queue(m: Machine, id: nat): Machine { m.(ready := m.ready + [id], queued := m.queued + [id]) }

  function Awaken(m: Machine, fd: int): Machine {
    var k := FirstFor(m.waiting, fd);
    if k == |m.waiting| then m else Queue(m.(waiting := m.waiting[..k] + m.waiting[k + 1..]), m.waiting[k].id)
  }

  /** One step; a step that is not enabled changes nothing. */
  function After(m: Machine, step: Step): Machine {
    match step
    case Create => Queue(m.(made := m.made + 1), m.made)
    case Turn =>
      if m.running.Runs? || m.ready == [] then m
      else m.(running := Runs(m.ready[0]), ready := m.ready[1..], served := m.served + [m.ready[0]])
    case Block(fd) =>
      if m.running.Nobody? then m
      else m.(running := Nobody, waiting := [Waiter(m.running.id, fd)] + m.waiting)
    case Return =>
      if m.running.Nobody? then m else m.(running := Nobody, returned := m.returned + [m.running.id])
    case Close(fd) => Awaken(m, fd)
    case Event(fd) => if m.running.Runs? then m else Awaken(m, fd)
  }

  function AfterAll(m: Machine, steps: seq<Step>): Machine {
    if steps == [] then m else After(AfterAll(m, steps[..|steps| - 1]), steps[|steps| - 1])
  }

  // ---- what every run of the machine has ----

  function Ids(ws: seq<Waiter>): (r: seq<nat>)
    ensures |r| == |ws| && forall i :: 0 <= i < |ws| ==> r[i] == ws[i].id
  {
    seq(|ws|, i requires 0 <= i < |ws| => ws[i].id)
  }

  function Current(r: Running): seq<nat> { if r.Nobody? then [] else [r.id] }

  /** Where every coroutine is. */
  function Places(m: Machine): multiset<nat> {
    multiset(m.ready) + multiset(Ids(m.waiting)) + multiset(Current(m.running)) + multiset(m.returned)
  }

  /** Every coroutine created so far is in exactly one place, and the ready queue is what was
      queued and not served. */
  ghost predicate MachineOk(m: Machine) {
    && (forall id: nat :: Places(m)[id] == if id < m.made then 1 else 0)
    && m.queued == m.served + m.ready
  }

  lemma QueueKeeps(m: Machine, id: nat)
    requires m.queued == m.served + m.ready
    ensures Places(Queue(m, id)) == Places(m) + multiset{id}
    ensures Queue(m, id).queued == Queue(m, id).served + Queue(m, id).ready
  {
  }

  lemma IdsCut(ws: seq<Waiter>, k: nat)
    requires k < |ws|
    ensures multiset(Ids(ws)) == multiset(Ids(ws[..k] + ws[k + 1..])) + multiset{ws[k].id}
  {
    assert Ids(ws) == Ids(ws[..k]) + [ws[k].id] + Ids(ws[k + 1..]);
    assert Ids(ws[..k] + ws[k + 1..]) == Ids(ws[..k]) + Ids(ws[k + 1..]);
  }

  lemma PlacesCut(m: Machine, k: nat)
    requires k < |m.waiting|
    ensures Places(m.(waiting := m.waiting[..k] + m.waiting[k + 1..])) + multiset{m.waiting[k].id} == Places(m)
  {
    hide Ids, Current;
    IdsCut(m.waiting, k);
  }

  lemma AwakenKeeps(m: Machine, fd: int)
    requires MachineOk(m)
    ensures MachineOk(Awaken(m, fd))
  {
    hide Queue, FirstFor, Places;
    var k := FirstFor(m.waiting, fd);
    if k < |m.waiting| {
      var t := m.(waiting := m.waiting[..k] + m.waiting[k + 1..]);
      PlacesCut(m, k);
      QueueKeeps(t, m.waiting[k].id);
      QueueMade(t, m.waiting[k].id);
    }
  }

  lemma QueueMade(m: Machine, id: nat)
    ensures Queue(m, id).made == m.made
  {
  }

  lemma TurnKeeps(m: Machine)
    requires MachineOk(m)
    ensures MachineOk(After(m, Turn))
  {
    if m.running.Nobody? && m.ready != [] {
      var t := After(m, Turn);
      assert m.ready == [m.ready[0]] + m.ready[1..];
      assert multiset(m.ready) == multiset{m.ready[0]} + multiset(m.ready[1..]);
      assert Places(t) == Places(m);
    }
  }

  lemma LeaveKeeps(m: Machine, step: Step)
    requires MachineOk(m) && (step.Block? || step.Return?)
    ensures MachineOk(After(m, step))
  {
    if m.running.Runs? {
      if step.Block? {
        assert Ids([Waiter(m.running.id, step.fd)] + m.waiting) == [m.running.id] + Ids(m.waiting);
      }
      assert Places(After(m, step)) == Places(m);
    }
  }

  lemma AfterKeeps(m: Machine, step: Step)
    requires MachineOk(m)
    ensures MachineOk(After(m, step))
  {
    hide Awaken, Queue, Places;
    match step
    case Create =>
      var t := m.(made := m.made + 1);
      QueueKeeps(t, m.made);
      QueueMade(t, m.made);
      assert Places(t) == Places(m) by { SamePlaces(m, t); }
    case Turn => TurnKeeps(m);
    case Close(fd) => AwakenKeeps(m, fd);
    case Event(fd) => AwakenKeeps(m, fd);
    case _ => LeaveKeeps(m, step);
  }

  lemma SamePlaces(m: Machine, t: Machine)
    requires t == m.(made := t.made)
    ensures Places(t) == Places(m)
  {
  }

  /** After any steps each coroutine created is in exactly one of ready, waiting, running and
      returned. */
  lemma {:induction false} RunPlaces(steps: seq<Step>)
    ensures MachineOk(AfterAll(Initial(), steps))
    decreases |steps|
  {
    if steps != [] {
      RunPlaces(steps[..|steps| - 1]);
      AfterKeeps(AfterAll(Initial(), steps[..|steps| - 1]), steps[|steps| - 1]);
    }
  }

  /** Queues only grow. */
  lemma {:induction false} RunGrows(m: Machine, steps: seq<Step>)
    ensures m.queued <= AfterAll(m, steps).queued && m.served <= AfterAll(m, steps).served
    decreases |steps|
  {
    if steps != [] {
      RunGrows(m, steps[..|steps| - 1]);
    }
  }

  lemma {:induction false} RunConcat(m: Machine, a: seq<Step>, b: seq<Step>)
    ensures AfterAll(m, a + b) == AfterAll(AfterAll(m, a), b)
    decreases |b|
  {
    if b == [] {
      assert a + b == a;
    } else {
      var n := |b| - 1;
      assert (a + b)[..|a + b| - 1] == a + b[..n];
      RunConcat(m, a, b[..n]);
    }
  }

  /** First in, first out: what waits in the ready queue at some point of a run is what is served
      next, in this order, whatever is queued, woken or closed meanwhile. */
  lemma ServedInOrder(a: seq<Step>, b: seq<Step>, k: nat)
    requires var m, n := AfterAll(Initial(), a), AfterAll(Initial(), a + b);
             k < |m.ready| && |m.served| + k < |n.served|
    ensures var m, n := AfterAll(Initial(), a), AfterAll(Initial(), a + b);
            n.served[|m.served| + k] == m.ready[k]
  {
    var m := AfterAll(Initial(), a);
    RunConcat(Initial(), a, b);
    RunPlaces(a);
    RunPlaces(a + b);
    RunGrows(m, b);
    var n := AfterAll(m, b);
    assert n.served[|m.served| + k] == n.queued[|m.served| + k] == m.queued[|m.served| + k];
  }

  // ---- who is woken ----

  /** The coroutines that wait for a descriptor, the last to block first. */
  function WaitersFor(ws: seq<Waiter>, fd: int): seq<nat> {
    if ws == [] then []
    else (if ws[0].fd == fd then [ws[0].id] else []) + WaitersFor(ws[1..], fd)
  }

  /** Whoever waited for other descriptors still does, in the same order. */
  ghost predicate OthersWait(m: Machine, n: Machine, fd: int) {
    forall g :: g != fd ==> WaitersFor(n.waiting, g) == WaitersFor(m.waiting, g)
  }

  /** Only the queues of this step differ. */
  predicate SameRest(m: Machine, n: Machine) {
    m == n.(ready := m.ready, queued := m.queued, waiting := m.waiting)
  }

  /** The last coroutine that blocked on the descriptor and still waits becomes ready, behind
      those that are; without one nothing changes. */
  ghost predicate WakesOne(m: Machine, n: Machine, fd: int) {
    var ws := WaitersFor(m.waiting, fd);
    if ws == [] then n == m
    else
      && n.ready == m.ready + [ws[0]] && n.queued == m.queued + [ws[0]]
      && WaitersFor(n.waiting, fd) == ws[1..] && OthersWait(m, n, fd) && SameRest(m, n)
  }

  /** What a step does: a new coroutine is ready, the one that is ready longest runs, the running
      one waits or returns, a close wakes one waiter, and so does an event while nothing runs. */
  ghost predicate Does(m: Machine, step: Step, n: Machine) {
    match step
    case Create => n == m.(made := m.made + 1, ready := m.ready + [m.made], queued := m.queued + [m.made])
    case Turn =>
      if m.running.Runs? || m.ready == [] then n == m
      else
        && n.running.Runs? && m.ready == [n.running.id] + n.ready
        && n == m.(running := n.running, ready := n.ready, served := m.served + [n.running.id])
    case Block(fd) =>
      if m.running.Nobody? then n == m
      else
        && n == m.(running := Nobody, waiting := n.waiting) && OthersWait(m, n, fd)
        && WaitersFor(n.waiting, fd) == [m.running.id] + WaitersFor(m.waiting, fd)
    case Return =>
      if m.running.Nobody? then n == m
      else n == m.(running := Nobody, returned := m.returned + [m.running.id])
    case Close(fd) => WakesOne(m, n, fd)
    case Event(fd) => if m.running.Runs? then n == m else WakesOne(m, n, fd)
  }

  lemma {:induction false} WaitersCut(ws: seq<Waiter>, k: nat, fd: int)
    requires k < |ws| && ws[k].fd == fd && forall i :: 0 <= i < k ==> ws[i].fd != fd
    ensures WaitersFor(ws, fd) == [ws[k].id] + WaitersFor(ws[..k] + ws[k + 1..], fd)
    ensures forall g :: g != fd ==> WaitersFor(ws[..k] + ws[k + 1..], g) == WaitersFor(ws, g)
    decreases k
  {
    var cut := ws[..k] + ws[k + 1..];
    if k == 0 {
      assert cut == ws[1..];
    } else {
      WaitersCut(ws[1..], k - 1, fd);
      assert cut[0] == ws[0] && cut[1..] == ws[1..][..k - 1] + ws[1..][k..];
    }
  }

  lemma {:induction false} NoWaiters(ws: seq<Waiter>, fd: int)
    requires forall i :: 0 <= i < |ws| ==> ws[i].fd != fd
    ensures WaitersFor(ws, fd) == []
    decreases |ws|
  {
    if ws != [] {
      NoWaiters(ws[1..], fd);
    }
  }

  lemma AwakenWakes(m: Machine, fd: int)
    ensures WakesOne(m, Awaken(m, fd), fd)
  {
    hide WaitersFor, FirstFor;
    var k := FirstFor(m.waiting, fd);
    if k < |m.waiting| {
      WaitersCut(m.waiting, k, fd);
    } else {
      NoWaiters(m.waiting, fd);
    }
  }

  lemma BlockWaits(ws: seq<Waiter>, w: Waiter)
    ensures WaitersFor([w] + ws, w.fd) == [w.id] + WaitersFor(ws, w.fd)
    ensures forall g :: g != w.fd ==> WaitersFor([w] + ws, g) == WaitersFor(ws, g)
  {
    assert ([w] + ws)[1..] == ws;
  }

  lemma AfterDoes(m: Machine, step: Step)
    ensures Does(m, step, After(m, step))
  {
    hide WaitersFor, Awaken, WakesOne;
    match step
    case Close(fd) => AwakenWakes(m, fd);
    case Event(fd) => AwakenWakes(m, fd);
    case Block(fd) =>
      if m.running.Runs? {
        BlockWaits(m.waiting, Waiter(m.running.id, fd));
      }
    case _ =>
  }

  function Closes(fd: int, k: nat): (r: seq<Step>)
    ensures |r| == k && forall i :: 0 <= i < k ==> r[i] == Close(fd)
  {
    seq(k, _ => Close(fd))
  }

  /** Closing a descriptor k times makes the k coroutines ready that blocked on it last, the last
      one first, behind those that are ready. */
  lemma {:induction false} ClosesWake(m: Machine, fd: int, k: nat)
    requires k <= |WaitersFor(m.waiting, fd)|
    ensures var n, ws := AfterAll(m, Closes(fd, k)), WaitersFor(m.waiting, fd);
            n.ready == m.ready + ws[..k] && WaitersFor(n.waiting, fd) == ws[k..]
    decreases k
  {
    hide WaitersFor, After;
    var ws, steps := WaitersFor(m.waiting, fd), Closes(fd, k);
    if k == 0 {
      assert ws[..0] == [] && ws[0..] == ws && m.ready + [] == m.ready;
    } else {
      ClosesWake(m, fd, k - 1);
      assert steps[..k - 1] == Closes(fd, k - 1);
      var n := AfterAll(m, Closes(fd, k - 1));
      AfterDoes(n, Close(fd));
      assert ws[k - 1..][0] == ws[k - 1] && ws[k - 1..][1..] == ws[k..];
      assert ws[..k] == ws[..k - 1] + [ws[k - 1]];
      ConcatMore(m.ready, ws[..k - 1], [ws[k - 1]]);
    }
  }

  lemma ConcatMore(a: seq<nat>, b: seq<nat>, c: seq<nat>)
    ensures a + (b + c) == a + b + c
  {
  }

  // ---- the scheduler on the heap runs this machine ----

  /** The coroutines of a list are those with these numbers. */
  ghost predicate Named(made: List, s: List, ids: seq<nat>) {
    |s| == |ids| && forall i :: 0 <= i < |s| ==> ids[i] < |made| && made[ids[i]] == s[i]
  }

  /** The heap of the scheduler is this state of the machine; `made` has the coroutines in the
      order of their creation. */
  ghost predicate Represents(s: Scheduler, made: List, m: Machine)
    reads s, s.waiting`fd
  {
    && m.made == |made|
    && Named(made, s.ready, m.ready) && Named(made, s.waiting, Ids(m.waiting))
    && (forall i :: 0 <= i < |s.waiting| && i < |m.waiting| ==> s.waiting[i].fd == m.waiting[i].fd)
    && (if m.running.Nobody? then s.current == null
        else m.running.id < |made| && s.current == made[m.running.id])
    && Named(made, s.queued, m.queued) && Named(made, s.served, m.served)
  }

  lemma NamedMore(made: List, s: List, ids: seq<nat>, co: Coroutine)
    requires Named(made, s, ids)
    ensures Named(made + [co], s, ids) && Named(made + [co], s + [co], ids + [|made|])
  {
  }

  lemma NamedCut(made: List, s: List, ids: seq<nat>, k: nat)
    requires Named(made, s, ids) && k < |s|
    ensures Named(made, Remove(s, k), ids[..k] + ids[k + 1..])
  {
    var r, js := Remove(s, k), ids[..k] + ids[k + 1..];
    assert forall i :: 0 <= i < |r| ==>
        r[i] == s[if i < k then i else i + 1] && js[i] == ids[if i < k then i else i + 1];
  }

  lemma NamedSnoc(made: List, s: List, ids: seq<nat>, id: nat)
    requires Named(made, s, ids) && id < |made|
    ensures Named(made, s + [made[id]], ids + [id]) && Named(made, [made[id]] + s, [id] + ids)
  {
  }

  /** A valid scheduler in this state of the machine. */
  ghost predicate Serves(s: Scheduler, made: List, m: Machine)
    reads s, s.live, s.waiting`fd
  {
    s.Valid() && Represents(s, made, m)
  }

  method RunCreate(s: Scheduler, ghost made: List, ghost m: Machine) returns (ghost made': List)
    requires Serves(s, made, m)
    modifies s, s.live
    ensures Serves(s, made', After(m, Create)) && fresh(s.live - old(s.live))
  {
    hide Named, Scheduler.Valid, Linked;
    var co := s.Spawn();
    made' := made + [co];
    NamedMore(made, old(s.ready), m.ready, co);
    NamedMore(made, old(s.queued), m.queued, co);
    NamedMore(made, old(s.served), m.served, co);
    NamedMore(made, old(s.waiting), Ids(m.waiting), co);
  }

  method RunTurn(s: Scheduler, ghost made: List, ghost m: Machine)
    requires Serves(s, made, m)
    modifies s, s.live
    ensures Serves(s, made, After(m, Turn)) && s.live == old(s.live)
  {
    hide Linked, NoDuplicates, Named;
    Heads(s, made, m);
    if s.current == null && s.readyHead != null {
      NamedCut(made, s.ready, m.ready, 0);
      NamedSnoc(made, s.served, m.served, m.ready[0]);
      s.Dispatch();
    }
  }

  lemma Heads(s: Scheduler, made: List, m: Machine)
    requires Serves(s, made, m)
    ensures s.readyHead == null <==> m.ready == []
    ensures m.ready != [] ==> s.ready != [] && m.ready[0] < |made| && s.ready[0] == made[m.ready[0]]
    ensures m.ready != [] ==> m.ready[..0] + m.ready[1..] == m.ready[1..]
  {
  }

  method RunBlock(s: Scheduler, fd: int, ghost made: List, ghost m: Machine)
    requires Serves(s, made, m)
    modifies s, s.live
    ensures Serves(s, made, After(m, Block(fd))) && s.live == old(s.live)
  {
    hide Linked;
    if s.current != null {
      NamedSnoc(made, s.waiting, Ids(m.waiting), m.running.id);
      assert Ids([Waiter(m.running.id, fd)] + m.waiting) == [m.running.id] + Ids(m.waiting);
      s.Wait(fd);
    }
  }

  method RunReturn(s: Scheduler, ghost made: List, ghost m: Machine)
    requires Serves(s, made, m)
    modifies s
    ensures Serves(s, made, After(m, Return)) && s.live <= old(s.live)
  {
    hide Linked;
    if s.current != null {
      s.Exit();
    }
  }

  method RunAwaken(s: Scheduler, fd: int, ghost made: List, ghost m: Machine)
    requires Serves(s, made, m)
    modifies s, s.live
    ensures Serves(s, made, Awaken(m, fd)) && s.live == old(s.live)
  {
    hide Linked;
    ghost var j := FirstFor(m.waiting, fd);
    if j < |m.waiting| {
      NamedCut(made, s.waiting, Ids(m.waiting), j);
      NamedSnoc(made, s.ready, m.ready, m.waiting[j].id);
      NamedSnoc(made, s.queued, m.queued, m.waiting[j].id);
      assert Ids(m.waiting[..j] + m.waiting[j + 1..]) == Ids(m.waiting)[..j] + Ids(m.waiting)[j + 1..];
    }
    ghost var k := s.Wake(fd);
    assert k == j;
  }

  /** Any interleaving of steps, from the start: the scheduler on the heap is the machine after
      these steps. */
  method Run(steps: seq<Step>) returns (s: Scheduler, ghost made: List)
    ensures fresh(s) && s.Valid() && Represents(s, made, AfterAll(Initial(), steps))
    ensures MachineOk(AfterAll(Initial(), steps))
  {
    hide After, Represents, Scheduler.Valid;
    s := new Scheduler();
    made := [];
    NothingYet(s);
    assert steps[..0] == [];
    for i := 0 to |steps|
      invariant Serves(s, made, AfterAll(Initial(), steps[..i])) && fresh(s) && fresh(s.live)
    {
      ghost var m := AfterAll(Initial(), steps[..i]);
      assert steps[..i + 1][..i] == steps[..i];
      made := Perform(s, steps[i], made, m);
    }
    assert steps[..|steps|] == steps;
    RunPlaces(steps);
  }

  lemma NothingYet(s: Scheduler)
    requires s.Valid() && s.live == {} && s.current == null && s.queued == []
    ensures Represents(s, [], Initial())
  {
    assert s.ready == [] && s.served == [];
    assert s.waiting != [] ==> s.waiting[0] in s.waiting;
  }

  method Perform(s: Scheduler, step: Step, ghost made: List, ghost m: Machine) returns (ghost made': List)
    requires Serves(s, made, m)
    modifies s, s.live
    ensures Serves(s, made', After(m, step)) && fresh(s.live - old(s.live))
  {
    hide Represents, Scheduler.Valid, Awaken;
    made' := made;
    match step {
      case Create => made' := RunCreate(s, made, m);
      case Turn => RunTurn(s, made, m);
      case Block(fd) => RunBlock(s, fd, made, m);
      case Return => RunReturn(s, made, m);
      case Close(fd) => RunAwaken(s, fd, made, m);
      case Event(fd) =>
        WhoRuns(s, made, m);
        if s.current == null {
          RunAwaken(s, fd, made, m);
        }
    }
  }

  lemma WhoRuns(s: Scheduler, made: List, m: Machine)
    requires Represents(s, made, m)
    ensures m.running.Nobody? <==> s.current == null
  {
  }
}
