/** Futex wait queues (kernel/futex.c).

    Futex objects live in a hash table, keyed by address space and address, and are
    reference counted: one reference per thread inside futex_wait and one per call in
    progress.  Every section under futex_lock is one step; a waiting thread releases the
    lock between `BeginWait` and `EndWait`, and may be woken or moved to another futex in
    between.  Objects are identified by their (host) address, and freeing one removes it
    from `futexes`. */
module Futex {
  import opened Lists

  type Addr = nat
  type MemPtr = nat  // the host address of a struct mem
  type Id = nat      // the host address of a struct futex
  type Thread = nat

  datatype FutexObj = FutexObj(refcount: int, mem: MemPtr, addr: Addr, queue: seq<Thread>)
  /** The futex_wait record on the stack of a thread inside futex_wait. */
  datatype Wait = Wait(futex: Id, bitset: bv32)

  datatype State = State(futexes: map<Id, FutexObj>, waits: map<Thread, Wait>)

  // ------------------------------------------------------------------ the invariant

  ghost function Attached(s: State, f: Id): set<Thread> {
    set t | t in s.waits && s.waits[t].futex == f
  }

  // The invariant is stated object by object, and its quantifiers fire only where a proof
  // names the predicate for an object.

  predicate SameKey(s: State, f: Id, g: Id) {
    f in s.futexes && g in s.futexes
    && s.futexes[f].mem == s.futexes[g].mem && s.futexes[f].addr == s.futexes[g].addr
  }

  /** At most one object per address space and address. */
  ghost predicate KeysOk(s: State) {
    forall f, g {:trigger SameKey(s, f, g)} :: SameKey(s, f, g) ==> f == g
  }

  predicate WaitsOn(s: State, t: Thread, f: Id) {
    t in s.waits && s.waits[t].futex == f
  }

  /** Every queued thread is inside futex_wait on that very futex, and queued once. */
  ghost predicate QueueOk(s: State, f: Id) {
    && f in s.futexes
    && Distinct(s.futexes[f].queue)
    && (forall t :: t in s.futexes[f].queue ==> WaitsOn(s, t, f))
  }

  predicate WaitOk(s: State, t: Thread) {
    t in s.waits && s.waits[t].futex in s.futexes
  }

  ghost predicate QueuesOk(s: State) {
    && (forall t {:trigger WaitOk(s, t)} :: t in s.waits ==> WaitOk(s, t))
    && (forall f {:trigger QueueOk(s, f)} :: f in s.futexes ==> QueueOk(s, f))
  }

  /** One reference per thread inside futex_wait and one per call in progress (`held`);
      an object with none is gone. */
  ghost predicate CountOk(s: State, held: multiset<Id>, f: Id) {
    && f in s.futexes
    && s.futexes[f].refcount == |Attached(s, f)| + held[f]
    && s.futexes[f].refcount > 0
  }

  ghost predicate CountsOk(s: State, held: multiset<Id>) {
    forall f {:trigger CountOk(s, held, f)} :: f in held || f in s.futexes ==> CountOk(s, held, f)
  }

  ghost predicate Inv(s: State, held: multiset<Id>) {
    KeysOk(s) && QueuesOk(s) && CountsOk(s, held)
  }

  // ------------------------------------------------------------------ the steps under futex_lock

  ghost predicate IsFutex(s: State, f: Id, mem: MemPtr, addr: Addr) {
    f in s.futexes && s.futexes[f].mem == mem && s.futexes[f].addr == addr
  }

  /** futex_get_unlocked when the object exists. */
  function Retain(s: State, f: Id): State
    requires f in s.futexes
  {
    s.(futexes := s.futexes[f := s.futexes[f].(refcount := s.futexes[f].refcount + 1)])
  }

  /** futex_get_unlocked when a new object is allocated at `block`. */
  function Create(s: State, mem: MemPtr, addr: Addr, block: Id): State
  {
    s.(futexes := s.futexes[block := FutexObj(1, mem, addr, [])])
  }

  /** futex_put_unlocked. */
  function Put(s: State, f: Id): State
    requires f in s.futexes
  {
    var o := s.futexes[f];
    s.(futexes := if o.refcount - 1 == 0 then s.futexes - {f}
                  else s.futexes[f := o.(refcount := o.refcount - 1)])
  }

  /** The caller's reference to `f` becomes the sleeping thread's. */
  function Enqueue(s: State, f: Id, t: Thread, bitset: bv32): State
    requires f in s.futexes
  {
    s.(futexes := s.futexes[f := s.futexes[f].(queue := s.futexes[f].queue + [t])],
       waits := s.waits[t := Wait(f, bitset)])
  }

  /** The thread is back from wait_for and off its queue; its reference is the call's. */
  function Detach(s: State, t: Thread): State
    requires t in s.waits && s.waits[t].futex in s.futexes
  {
    var f := s.waits[t].futex;
    s.(futexes := s.futexes[f := s.futexes[f].(queue := Without(s.futexes[f].queue, t))],
       waits := s.waits - {t})
  }

  /** A queue cut into the waiters woken and the ones left. */
  datatype Cut = Cut(woken: seq<Thread>, left: seq<Thread>)

  predicate Matches(waits: map<Thread, Wait>, t: Thread, bitset: bv32) {
    t in waits && waits[t].bitset & bitset != 0
  }

  function Wake(queue: seq<Thread>, waits: map<Thread, Wait>, max: nat, bitset: bv32): Cut {
    if queue == [] || max == 0 then Cut([], queue)
    else if Matches(waits, queue[0], bitset) then
      var c := Wake(queue[1..], waits, max - 1, bitset);
      Cut([queue[0]] + c.woken, c.left)
    else
      var c := Wake(queue[1..], waits, max, bitset);
      Cut(c.woken, [queue[0]] + c.left)
  }

  function WakeOn(s: State, f: Id, max: nat, bitset: bv32): State
    requires f in s.futexes
  {
    s.(futexes := s.futexes[f := s.futexes[f].(queue := Wake(s.futexes[f].queue, s.waits, max, bitset).left)])
  }

  /** One turn of the requeue loop: the head of `f` goes to the tail of `g`. */
  function MoveHead(s: State, f: Id, g: Id): State
    requires CanMove(s, f, g)
  {
    var t := s.futexes[f].queue[0];
    var removed := s.futexes[f := s.futexes[f].(queue := s.futexes[f].queue[1..],
                                                refcount := s.futexes[f].refcount - 1)];
    s.(futexes := removed[g := removed[g].(queue := removed[g].queue + [t],
                                           refcount := removed[g].refcount + 1)],
       waits := s.waits[t := s.waits[t].(futex := g)])
  }

  /** How many turns the loop makes.  On two different futexes it stops when the queue is
      empty; requeueing onto the same futex keeps meeting the waiters it moved. */
  function Turns(queue: seq<Thread>, max: nat, same: bool): nat {
    if same && |queue| > 1 then max else if max < |queue| then max else |queue|
  }

  predicate CanMove(s: State, f: Id, g: Id) {
    f in s.futexes && g in s.futexes && s.futexes[f].queue != []
    && s.futexes[f].queue[0] in s.waits && s.waits[s.futexes[f].queue[0]].futex == f
  }

  function MoveHeads(s: State, f: Id, g: Id, k: nat): State
    decreases k
  {
    if k == 0 || !CanMove(s, f, g) then s else MoveHeads(MoveHead(s, f, g), f, g, k - 1)
  }

  // ------------------------------------------------------------------ every step keeps the invariant

  lemma SameKeys(s: State, s': State)
    requires KeysOk(s) && s'.futexes.Keys <= s.futexes.Keys
    requires forall f :: f in s'.futexes ==>
      s'.futexes[f].mem == s.futexes[f].mem && s'.futexes[f].addr == s.futexes[f].addr
    ensures KeysOk(s')
  {
    forall f, g | SameKey(s', f, g) ensures f == g {
      assert SameKey(s, f, g);
    }
  }

  lemma SameQueues(s: State, s': State)
    requires QueuesOk(s) && s'.waits == s.waits
    requires forall f :: f in s'.futexes ==> f in s.futexes && s'.futexes[f].queue == s.futexes[f].queue
    requires forall t :: t in s.waits ==> s.waits[t].futex in s'.futexes
    ensures QueuesOk(s')
  {
    forall f | f in s'.futexes ensures QueueOk(s', f) {
      assert QueueOk(s, f);
      assert forall t :: WaitsOn(s, t, f) ==> WaitsOn(s', t, f);
    }
  }

  lemma AllWaitsOk(s: State)
    requires QueuesOk(s)
    ensures forall t :: t in s.waits ==> s.waits[t].futex in s.futexes
  {
    forall t | t in s.waits ensures s.waits[t].futex in s.futexes {
      assert WaitOk(s, t);
    }
  }

  lemma SameAttached(s: State, s': State, f: Id)
    requires s'.waits == s.waits
    ensures Attached(s', f) == Attached(s, f)
  {
  }

  lemma RetainInv(s: State, f: Id, held: multiset<Id>)
    requires Inv(s, held) && f in s.futexes
    ensures Inv(Retain(s, f), held + multiset{f})
  {
    var s', held' := Retain(s, f), held + multiset{f};
    SameKeys(s, s');
    AllWaitsOk(s);
    SameQueues(s, s');
    forall g | g in held' || g in s'.futexes ensures CountOk(s', held', g) {
      assert CountOk(s, held, g);
      SameAttached(s, s', g);
    }
  }

  lemma CreateInv(s: State, mem: MemPtr, addr: Addr, block: Id, held: multiset<Id>)
    requires Inv(s, held) && block !in s.futexes
    requires forall f :: f in s.futexes ==> !IsFutex(s, f, mem, addr)
    ensures Inv(Create(s, mem, addr, block), held + multiset{block})
  {
    var s', held' := Create(s, mem, addr, block), held + multiset{block};
    AllWaitsOk(s);
    forall f, g | SameKey(s', f, g) ensures f == g {
      assert f != block ==> !IsFutex(s, f, mem, addr);
      assert g != block ==> !IsFutex(s, g, mem, addr);
      assert f != block && g != block ==> SameKey(s, f, g);
    }
    forall f | f in s'.futexes ensures QueueOk(s', f) {
      assert f != block ==> QueueOk(s, f);
      assert forall t :: WaitsOn(s, t, f) ==> WaitsOn(s', t, f);
    }
    forall g | g in held' || g in s'.futexes ensures CountOk(s', held', g) {
      assert g in held || g in s.futexes ==> CountOk(s, held, g);
      SameAttached(s, s', g);
      assert g == block ==> Attached(s, g) == {};
      assert g == block ==> g !in held;
    }
  }

  lemma HeadAttached(s: State, f: Id)
    requires QueueOk(s, f) && s.futexes[f].queue != []
    ensures WaitsOn(s, s.futexes[f].queue[0], f) && s.futexes[f].queue[0] in Attached(s, f)
  {
    assert s.futexes[f].queue[0] in s.futexes[f].queue;
  }

  /** The assertion in futex_put_unlocked: an object dropped to zero has no waiter. */
  lemma LastReference(s: State, f: Id, held: multiset<Id>)
    requires Inv(s, held) && f in held && f in s.futexes && s.futexes[f].refcount == 1
    ensures held[f] == 1 && s.futexes[f].queue == []
    ensures forall t :: t in s.waits ==> s.waits[t].futex != f
  {
    assert CountOk(s, held, f) && QueueOk(s, f);
    assert Attached(s, f) == {};
    if s.futexes[f].queue != [] {
      HeadAttached(s, f);
    }
    forall t | t in s.waits ensures s.waits[t].futex != f {
      assert t !in Attached(s, f);
    }
  }

  lemma HeldExists(s: State, held: multiset<Id>, f: Id)
    requires CountsOk(s, held) && f in held
    ensures f in s.futexes && s.futexes[f].refcount > 0
  {
    assert CountOk(s, held, f);
  }

  lemma PutInv(s: State, f: Id, held: multiset<Id>)
    requires Inv(s, held) && f in held
    ensures f in s.futexes && Inv(Put(s, f), held - multiset{f})
    ensures s.futexes[f].refcount == 1 ==> s.futexes[f].queue == []
  {
    HeldExists(s, held, f);
    var s', held' := Put(s, f), held - multiset{f};
    AllWaitsOk(s);
    if s.futexes[f].refcount == 1 {
      LastReference(s, f, held);
    }
    SameKeys(s, s');
    SameQueues(s, s');
    forall g | g in held' || g in s'.futexes ensures CountOk(s', held', g) {
      assert CountOk(s, held, g);
      SameAttached(s, s', g);
    }
  }

  lemma EnqueueQueue(s: State, f: Id, t: Thread, bitset: bv32, g: Id)
    requires QueuesOk(s) && f in s.futexes && g in s.futexes && t !in s.waits
    ensures QueueOk(Enqueue(s, f, t, bitset), g)
  {
    var s' := Enqueue(s, f, t, bitset);
    assert QueueOk(s, g) && !WaitsOn(s, t, g);
    forall u | u in s'.futexes[g].queue ensures WaitsOn(s', u, g) {
      assert u in s.futexes[g].queue ==> WaitsOn(s, u, g);
    }
  }

  lemma EnqueueCount(s: State, f: Id, t: Thread, bitset: bv32, held: multiset<Id>, g: Id)
    requires CountOk(s, held, g) && f in held && f in s.futexes && t !in s.waits
    ensures CountOk(Enqueue(s, f, t, bitset), held - multiset{f}, g)
  {
    var s' := Enqueue(s, f, t, bitset);
    if g == f {
      assert Attached(s', g) == Attached(s, g) + {t};
    } else {
      assert Attached(s', g) == Attached(s, g);
    }
  }

  lemma EnqueueInv(s: State, f: Id, t: Thread, bitset: bv32, held: multiset<Id>)
    requires Inv(s, held) && f in held && t !in s.waits
    ensures f in s.futexes && Inv(Enqueue(s, f, t, bitset), held - multiset{f})
  {
    HeldExists(s, held, f);
    var s', held' := Enqueue(s, f, t, bitset), held - multiset{f};
    SameKeys(s, s');
    AllWaitsOk(s);
    forall g | g in s'.futexes ensures QueueOk(s', g) {
      EnqueueQueue(s, f, t, bitset, g);
    }
    forall g | g in held' || g in s'.futexes ensures CountOk(s', held', g) {
      assert CountOk(s, held, g);
      EnqueueCount(s, f, t, bitset, held, g);
    }
  }

  lemma DetachInv(s: State, t: Thread, held: multiset<Id>)
    requires Inv(s, held) && t in s.waits
    ensures WaitOk(s, t) && Inv(Detach(s, t), held + multiset{s.waits[t].futex})
  {
    assert WaitOk(s, t);
    AllWaitsOk(s);
    var s', f := Detach(s, t), s.waits[t].futex;
    var held' := held + multiset{f};
    SameKeys(s, s');
    WithoutElements(s.futexes[f].queue, t);
    forall g | g in s'.futexes ensures QueueOk(s', g) {
      assert QueueOk(s, g);
      forall u | u in s'.futexes[g].queue ensures WaitsOn(s', u, g) {
        assert WaitsOn(s, u, g);
      }
    }
    forall g | g in held' || g in s'.futexes ensures CountOk(s', held', g) {
      assert CountOk(s, held, g);
      assert Attached(s', g) == if g == f then Attached(s, g) - {t} else Attached(s, g);
    }
  }

  lemma WakeInv(s: State, f: Id, max: nat, bitset: bv32, held: multiset<Id>)
    requires Inv(s, held) && f in s.futexes
    ensures Inv(WakeOn(s, f, max, bitset), held)
  {
    var s' := WakeOn(s, f, max, bitset);
    SameKeys(s, s');
    AllWaitsOk(s);
    WakeElements(s.futexes[f].queue, s.waits, max, bitset);
    forall g | g in s'.futexes ensures QueueOk(s', g) {
      assert QueueOk(s, g);
      forall u | u in s'.futexes[g].queue ensures WaitsOn(s', u, g) {
        assert WaitsOn(s, u, g);
      }
    }
    forall g | g in held || g in s'.futexes ensures CountOk(s', held, g) {
      assert CountOk(s, held, g);
      SameAttached(s, s', g);
    }
  }

  lemma MoveHeadQueues(s: State, f: Id, g: Id)
    requires QueuesOk(s) && CanMove(s, f, g)
    ensures QueuesOk(MoveHead(s, f, g))
  {
    var t, s' := s.futexes[f].queue[0], MoveHead(s, f, g);
    AllWaitsOk(s);
    forall k | k in s'.futexes ensures QueueOk(s', k) {
      assert QueueOk(s, k);
      assert t in s.futexes[k].queue ==> WaitsOn(s, t, k);
      forall u | u in s'.futexes[k].queue ensures WaitsOn(s', u, k) {
        assert (u == t && k == g) || u in s.futexes[k].queue;
        assert u in s.futexes[k].queue ==> WaitsOn(s, u, k);
        assert k == f && k != g ==> u in s.futexes[f].queue[1..] && u != t;
      }
    }
  }

  /** The assertion in the requeue loop: while a waiter is being moved off `f`, the call
      still holds its own reference to `f`. */
  lemma MoveHeadCounts(s: State, f: Id, g: Id, held: multiset<Id>)
    requires CountsOk(s, held) && f in held && g in held && CanMove(s, f, g)
    ensures s.futexes[f].refcount > 1
    ensures CountsOk(MoveHead(s, f, g), held)
  {
    var t, s' := s.futexes[f].queue[0], MoveHead(s, f, g);
    assert CountOk(s, held, f) && t in Attached(s, f);
    forall k | k in held || k in s'.futexes ensures CountOk(s', held, k) {
      assert CountOk(s, held, k);
      assert Attached(s', k) == if f == g then Attached(s, k)
                                else if k == f then Attached(s, k) - {t}
                                else if k == g then Attached(s, k) + {t}
                                else Attached(s, k);
    }
  }

  lemma {:induction false} MoveHeadsInv(s: State, f: Id, g: Id, held: multiset<Id>, k: nat)
    requires Inv(s, held) && f in held && g in held
    ensures Inv(MoveHeads(s, f, g, k), held)
    decreases k
  {
    if k > 0 && CanMove(s, f, g) {
      SameKeys(s, MoveHead(s, f, g));
      MoveHeadQueues(s, f, g);
      MoveHeadCounts(s, f, g, held);
      MoveHeadsInv(MoveHead(s, f, g), f, g, held, k - 1);
    }
  }

  // ------------------------------------------------------------------ wake order

  function Matching(queue: seq<Thread>, waits: map<Thread, Wait>, bitset: bv32): seq<Thread> {
    if queue == [] then []
    else (if Matches(waits, queue[0], bitset) then [queue[0]] else []) + Matching(queue[1..], waits, bitset)
  }

  function Except(queue: seq<Thread>, gone: seq<Thread>): seq<Thread> {
    if queue == [] then []
    else (if queue[0] in gone then [] else [queue[0]]) + Except(queue[1..], gone)
  }

  lemma {:induction false} WakeElements(queue: seq<Thread>, waits: map<Thread, Wait>, max: nat, bitset: bv32)
    ensures forall t :: t in Wake(queue, waits, max, bitset).left ==> t in queue
    ensures forall t :: t in Wake(queue, waits, max, bitset).woken ==> t in queue
    ensures Distinct(queue) ==> Distinct(Wake(queue, waits, max, bitset).left)
  {
    if queue != [] && max != 0 {
      assert Distinct(queue) ==> Distinct(queue[1..]) && queue[0] !in queue[1..];
      WakeElements(queue[1..], waits, if Matches(waits, queue[0], bitset) then max - 1 else max, bitset);
    }
  }

  lemma {:induction false} ExceptNone(queue: seq<Thread>, gone: seq<Thread>)
    requires forall t :: t in queue ==> t !in gone
    ensures Except(queue, gone) == queue
  {
    if queue != [] {
      assert queue[0] in queue && forall t :: t in queue[1..] ==> t in queue;
      ExceptNone(queue[1..], gone);
    }
  }

  lemma {:induction false} ExceptAgrees(queue: seq<Thread>, x: Thread, gone: seq<Thread>)
    requires x !in queue
    ensures Except(queue, [x] + gone) == Except(queue, gone)
  {
    if queue != [] {
      assert queue[0] in queue && forall t :: t in queue[1..] ==> t in queue;
      ExceptAgrees(queue[1..], x, gone);
    }
  }

  function FirstOf(all: seq<Thread>, max: nat): seq<Thread> {
    if max < |all| then all[..max] else all
  }

  lemma FirstOfMore(x: Thread, all: seq<Thread>, max: nat)
    requires max > 0
    ensures FirstOf([x] + all, max) == [x] + FirstOf(all, max - 1)
  {
    if max < |all| + 1 {
      assert ([x] + all)[..max] == [x] + all[..max - 1];
    }
  }

  lemma {:induction false} WakeWoken(queue: seq<Thread>, waits: map<Thread, Wait>, max: nat, bitset: bv32)
    ensures Wake(queue, waits, max, bitset).woken == FirstOf(Matching(queue, waits, bitset), max)
  {
    if queue != [] && max > 0 {
      if Matches(waits, queue[0], bitset) {
        WakeWoken(queue[1..], waits, max - 1, bitset);
        FirstOfMore(queue[0], Matching(queue[1..], waits, bitset), max);
      } else {
        WakeWoken(queue[1..], waits, max, bitset);
        assert [] + Matching(queue[1..], waits, bitset) == Matching(queue[1..], waits, bitset);
      }
    }
  }

  lemma {:induction false} WakeLeft(queue: seq<Thread>, waits: map<Thread, Wait>, max: nat, bitset: bv32)
    requires Distinct(queue)
    ensures var c := Wake(queue, waits, max, bitset); c.left == Except(queue, c.woken)
  {
    if queue == [] || max == 0 {
      ExceptNone(queue, []);
    } else {
      var x, rest := queue[0], queue[1..];
      assert Distinct(rest) && x !in rest;
      if Matches(waits, x, bitset) {
        WakeLeft(rest, waits, max - 1, bitset);
        ExceptAgrees(rest, x, Wake(rest, waits, max - 1, bitset).woken);
      } else {
        WakeLeft(rest, waits, max, bitset);
        WakeElements(rest, waits, max, bitset);
      }
    }
  }

  /** A wake removes exactly the first `max` waiters, in arrival order, whose bitset
      matches, and leaves all others in their order. */
  lemma WakeTakesFirstMatching(queue: seq<Thread>, waits: map<Thread, Wait>, max: nat, bitset: bv32)
    requires Distinct(queue)
    ensures var c := Wake(queue, waits, max, bitset);
            && c.woken == FirstOf(Matching(queue, waits, bitset), max)
            && c.left == Except(queue, c.woken)
  {
    WakeWoken(queue, waits, max, bitset);
    WakeLeft(queue, waits, max, bitset);
  }

  /** With FUTEX_BITSET_MATCH_ANY every waiter matches, since a waiter's own bitset is never empty. */
  lemma {:induction false} MatchAny(queue: seq<Thread>, waits: map<Thread, Wait>)
    requires forall t :: t in queue ==> t in waits && waits[t].bitset != 0
    ensures Matching(queue, waits, 0xffff_ffff) == queue
  {
    if queue != [] {
      assert queue[0] in queue && forall t :: t in queue[1..] ==> t in queue;
      assert waits[queue[0]].bitset & 0xffff_ffff == waits[queue[0]].bitset;
      MatchAny(queue[1..], waits);
    }
  }

  /** A waiter for just the other bits does not match. */
  lemma MatchNone(waits: map<Thread, Wait>, t: Thread, bitset: bv32)
    requires t in waits ==> waits[t].bitset == !bitset
    ensures !Matches(waits, t, bitset)
  {
    assert !bitset & bitset == 0;
  }

  lemma MoveHeadQueue(s: State, f: Id, g: Id)
    requires QueueOk(s, f) && CanMove(s, f, g) && f != g
    ensures QueueOk(MoveHead(s, f, g), f)
  {
    var m, queue := MoveHead(s, f, g), s.futexes[f].queue;
    forall t | t in queue[1..] ensures WaitsOn(m, t, f) {
      assert t in queue && t != queue[0] && WaitsOn(s, t, f);
    }
  }

  lemma PrefixStep(queue: seq<Thread>, target: seq<Thread>, k: nat)
    requires 0 < k <= |queue|
    ensures queue[1..][k - 1..] == queue[k..]
    ensures (target + [queue[0]]) + queue[1..][..k - 1] == target + queue[..k]
  {
  }

  /** A requeue onto another futex moves the next `max` waiters in order to its tail, and
      their references with them. */
  lemma {:induction false} RequeueMovesPrefix(s: State, f: Id, g: Id, max: nat)
    requires QueueOk(s, f) && g in s.futexes && f != g
    ensures var s', a, b := MoveHeads(s, f, g, max), s.futexes[f], s.futexes[g];
            var k := Turns(a.queue, max, false);
            && s'.futexes.Keys == s.futexes.Keys
            && s'.futexes[f] == a.(queue := a.queue[k..], refcount := a.refcount - k)
            && s'.futexes[g] == b.(queue := b.queue + a.queue[..k], refcount := b.refcount + k)
            && (forall h :: h in s.futexes && h != f && h != g ==> s'.futexes[h] == s.futexes[h])
    decreases max
  {
    var queue := s.futexes[f].queue;
    if max > 0 && queue != [] {
      HeadAttached(s, f);
      MoveHeadQueue(s, f, g);
      RequeueMovesPrefix(MoveHead(s, f, g), f, g, max - 1);
      PrefixStep(queue, s.futexes[g].queue, Turns(queue, max, false));
    }
  }

  /** ... and it retargets exactly those waiters. */
  lemma {:induction false} RequeueRetargets(s: State, f: Id, g: Id, max: nat)
    requires QueueOk(s, f) && g in s.futexes && f != g
    ensures var s', queue := MoveHeads(s, f, g, max), s.futexes[f].queue;
            && s'.waits.Keys == s.waits.Keys
            && (forall t :: t in s.waits ==>
                  s'.waits[t] == if t in queue[..Turns(queue, max, false)] then s.waits[t].(futex := g) else s.waits[t])
    decreases max
  {
    var queue := s.futexes[f].queue;
    if max > 0 && queue != [] {
      HeadAttached(s, f);
      MoveHeadQueue(s, f, g);
      RequeueRetargets(MoveHead(s, f, g), f, g, max - 1);
      var k := Turns(queue, max, false);
      assert queue[..k] == [queue[0]] + queue[1..][..k - 1];
    }
  }

  // ------------------------------------------------------------------ whole calls and whole runs

  /** The result of futex_get: the state with a reference taken, and the object. */
  datatype Got = Got(s: State, f: Id)

  /** futex_get_unlocked; `block` is what malloc would return, `None` when it fails. */
  ghost function Get(s: State, mem: MemPtr, addr: Addr, block: Option<Id>): Option<Got> {
    if f :| IsFutex(s, f, mem, addr) then Some(Got(Retain(s, f), f))
    else if block.Some? then Some(Got(Create(s, mem, addr, block.value), block.value))
    else None
  }

  lemma GetInv(s: State, mem: MemPtr, addr: Addr, block: Option<Id>, held: multiset<Id>)
    requires Inv(s, held) && (block.Some? ==> block.value !in s.futexes)
    ensures var r := Get(s, mem, addr, block);
            r.Some? ==> Inv(r.value.s, held + multiset{r.value.f}) && IsFutex(r.value.s, r.value.f, mem, addr)
  {
    if f :| IsFutex(s, f, mem, addr) {
      var g := Get(s, mem, addr, block).value.f;
      RetainInv(s, g, held);
    } else if block.Some? {
      CreateInv(s, mem, addr, block.value, held);
    }
  }

  datatype Requeue = Requeue(max: nat, addr: Addr)

  datatype Call =
    | BeginWait(t: Thread, mem: MemPtr, addr: Addr, bitset: bv32, val: nat, word: Option<nat>, block: Option<Id>)
    | EndWait(t: Thread)
    | WakeLike(mem: MemPtr, addr: Addr, max: nat, bitset: bv32, requeue: Option<Requeue>,
               block: Option<Id>, block2: Option<Id>)

  ghost predicate Enabled(s: State, c: Call) {
    match c
    case BeginWait(t, _, _, _, _, _, block) => t !in s.waits && (block.Some? ==> block.value !in s.futexes)
    case EndWait(t) => t in s.waits
    case WakeLike(_, _, _, _, _, block, block2) =>
      && (block.Some? ==> block.value !in s.futexes)
      && (block2.Some? ==> block2.value !in s.futexes && block2 != block)
  }

  /** futex_wait up to the moment it sleeps or fails; `word` is what is at the address, if it can be
      read. */
  ghost function BeginWaitStep(s: State, t: Thread, mem: MemPtr, addr: Addr, bitset: bv32, val: nat,
                               word: Option<nat>, block: Option<Id>): (s': State)
    requires Inv(s, multiset{}) && (block.Some? ==> block.value !in s.futexes) && t !in s.waits
    ensures Inv(s', multiset{})
  {
    GetInv(s, mem, addr, block, multiset{});
    var r := Get(s, mem, addr, block);
    assert r.Some? ==> multiset{} + multiset{r.value.f} == multiset{r.value.f};
    assert r.Some? ==> multiset{r.value.f} - multiset{r.value.f} == multiset{};
    if r.None? then s
    else if word != Some(val) then
      PutInv(r.value.s, r.value.f, multiset{r.value.f});
      Put(r.value.s, r.value.f)
    else
      EnqueueInv(r.value.s, r.value.f, t, bitset, multiset{r.value.f});
      Enqueue(r.value.s, r.value.f, t, bitset)
  }

  /** futex_wait after it is woken, times out or is interrupted. */
  ghost function EndWaitStep(s: State, t: Thread): (s': State)
    requires Inv(s, multiset{}) && t in s.waits
    ensures Inv(s', multiset{})
  {
    DetachInv(s, t, multiset{});
    assert multiset{} + multiset{s.waits[t].futex} == multiset{s.waits[t].futex};
    assert multiset{s.waits[t].futex} - multiset{s.waits[t].futex} == multiset{};
    PutInv(Detach(s, t), s.waits[t].futex, multiset{s.waits[t].futex});
    Put(Detach(s, t), s.waits[t].futex)
  }

  /** The requeue loop and what follows it, with both futexes referenced. */
  ghost function MoveAndPut(s: State, f: Id, g: Id, max: nat): (s': State)
    requires Inv(s, multiset{f, g})
    ensures Inv(s', multiset{})
  {
    MoveHeadsInv(s, f, g, multiset{f, g}, max);
    var m := MoveHeads(s, f, g, max);
    PutInv(m, g, multiset{f, g});
    assert multiset{f, g} - multiset{g} == multiset{f} && multiset{f} - multiset{f} == multiset{};
    PutInv(Put(m, g), f, multiset{f});
    Put(Put(m, g), f)
  }

  /** futex_wakelike after the wake loop. */
  ghost function RequeueAndPut(s: State, f: Id, mem: MemPtr, requeue: Option<Requeue>, block2: Option<Id>): (s': State)
    requires Inv(s, multiset{f}) && (block2.Some? ==> block2.value !in s.futexes)
    ensures Inv(s', multiset{})
  {
    if requeue.None? || Get(s, mem, requeue.value.addr, block2).None? then
      PutInv(s, f, multiset{f});
      assert multiset{f} - multiset{f} == multiset{};
      Put(s, f)
    else
      GetInv(s, mem, requeue.value.addr, block2, multiset{f});
      var r := Get(s, mem, requeue.value.addr, block2).value;
      assert multiset{f} + multiset{r.f} == multiset{f, r.f};
      MoveAndPut(r.s, f, r.f, requeue.value.max)
  }

  /** futex_wakelike. */
  ghost function WakeLikeStep(s: State, mem: MemPtr, addr: Addr, max: nat, bitset: bv32, requeue: Option<Requeue>,
                              block: Option<Id>, block2: Option<Id>): (s': State)
    requires Inv(s, multiset{}) && (block.Some? ==> block.value !in s.futexes)
    requires block2.Some? ==> block2.value !in s.futexes && block2 != block
    ensures Inv(s', multiset{})
  {
    GetInv(s, mem, addr, block, multiset{});
    var r := Get(s, mem, addr, block);
    assert r.Some? ==> multiset{} + multiset{r.value.f} == multiset{r.value.f};
    assert r.Some? ==> multiset{r.value.f} - multiset{r.value.f} == multiset{};
    if r.None? then s
    else
      HeldExists(r.value.s, multiset{r.value.f}, r.value.f);
      WakeInv(r.value.s, r.value.f, max, bitset, multiset{r.value.f});
      RequeueAndPut(WakeOn(r.value.s, r.value.f, max, bitset), r.value.f, mem, requeue, block2)
  }

  ghost function Step(s: State, c: Call): (s': State)
    requires Inv(s, multiset{}) && Enabled(s, c)
    ensures Inv(s', multiset{})
  {
    match c
    case BeginWait(t, mem, addr, bitset, val, word, block) =>
      BeginWaitStep(s, t, mem, addr, bitset, val, word, block)
    case EndWait(t) => EndWaitStep(s, t)
    case WakeLike(mem, addr, max, bitset, requeue, block, block2) =>
      WakeLikeStep(s, mem, addr, max, bitset, requeue, block, block2)
  }

  /** A history: every state is the previous one's step. */
  ghost predicate History(states: seq<State>, calls: seq<Call>) {
    && |states| == |calls| + 1
    && states[0] == State(map[], map[])
    && forall i :: 0 <= i < |calls| ==>
         Inv(states[i], multiset{}) ==> Enabled(states[i], calls[i]) && states[i + 1] == Step(states[i], calls[i])
  }

  /** Over every run, reference counts are exact, at most one object exists per key, and an
      object exists exactly as long as some thread is inside futex_wait on it. */
  lemma {:induction false} ReferencesExact(states: seq<State>, calls: seq<Call>, n: nat)
    requires History(states, calls) && n < |states|
    ensures Inv(states[n], multiset{})
    ensures forall f :: f in states[n].futexes <==> Attached(states[n], f) != {}
  {
    if n > 0 {
      ReferencesExact(states, calls, n - 1);
    }
    AllWaitsOk(states[n]);
    forall f ensures f in states[n].futexes <==> Attached(states[n], f) != {} {
      assert f in states[n].futexes ==> CountOk(states[n], multiset{}, f);
      if t :| t in Attached(states[n], f) {
        assert states[n].waits[t].futex == f;
      }
    }
  }

  /** Moving the only waiter of a futex onto that futex changes nothing. */
  lemma {:induction false} LoneWaiterStays(s: State, f: Id, k: nat)
    requires CanMove(s, f, f) && |s.futexes[f].queue| == 1
    ensures MoveHeads(s, f, f, k) == s
    decreases k
  {
    if k > 0 {
      var m, t := MoveHead(s, f, f), s.futexes[f].queue[0];
      assert s.futexes[f].queue == [t] && [] + [t] == [t];
      assert m.futexes == s.futexes && m.waits == s.waits;
      LoneWaiterStays(s, f, k - 1);
    }
  }

  // ------------------------------------------------------------------ what one call does to the queues

  ghost predicate Found(s: State, mem: MemPtr, addr: Addr) {
    exists f :: IsFutex(s, f, mem, addr)
  }

  /** What there is after futex_get and changes to queues. */
  lemma FoundAfterGet(s: State, mem: MemPtr, addr: Addr, block: Option<Id>, s': State, other: Addr)
    requires block.Some? ==> block.value !in s.futexes
    requires Get(s, mem, addr, block).Some? && s'.futexes.Keys == Get(s, mem, addr, block).value.s.futexes.Keys
    requires var t := Get(s, mem, addr, block).value.s; forall f :: f in s'.futexes ==>
               s'.futexes[f].mem == t.futexes[f].mem && s'.futexes[f].addr == t.futexes[f].addr
    ensures Found(s', mem, other) <==> other == addr || Found(s, mem, other)
  {
    var g := Get(s, mem, addr, block).value;
    assert IsFutex(s', g.f, mem, addr);
    if f :| IsFutex(s, f, mem, other) {
      assert IsFutex(s', f, mem, other);
    }
    if f :| IsFutex(s', f, mem, other) {
      assert f in s.futexes ==> IsFutex(s, f, mem, other);
    }
  }

  /** The waiters queued at an address, in arrival order. */
  ghost function QueueAt(s: State, mem: MemPtr, addr: Addr): seq<Thread> {
    if f :| IsFutex(s, f, mem, addr) then s.futexes[f].queue else []
  }

  lemma QueueAtIs(s: State, f: Id, mem: MemPtr, addr: Addr)
    requires KeysOk(s) && IsFutex(s, f, mem, addr)
    ensures QueueAt(s, mem, addr) == s.futexes[f].queue
  {
    forall h | IsFutex(s, h, mem, addr) ensures h == f {
      assert SameKey(s, h, f);
    }
  }

  lemma QueueAtGet(s: State, mem: MemPtr, addr: Addr, block: Option<Id>)
    requires KeysOk(s)
    ensures var g := Get(s, mem, addr, block);
            g.Some? ==> g.value.f in g.value.s.futexes && g.value.s.futexes[g.value.f].queue == QueueAt(s, mem, addr)
  {
    if f :| IsFutex(s, f, mem, addr) {
      var g := Get(s, mem, addr, block).value.f;
      forall h | IsFutex(s, h, mem, addr) ensures h == g {
        assert SameKey(s, h, g);
      }
    }
  }

  /** Taking a reference moves nobody. */
  lemma GetQueues(s: State, mem: MemPtr, addr: Addr, block: Option<Id>, m: MemPtr, a: Addr)
    requires KeysOk(s) && (block.Some? ==> block.value !in s.futexes)
    requires Get(s, mem, addr, block).Some? && KeysOk(Get(s, mem, addr, block).value.s)
    ensures QueueAt(Get(s, mem, addr, block).value.s, m, a) == QueueAt(s, m, a)
  {
    var g := Get(s, mem, addr, block).value;
    if f :| IsFutex(s, f, m, a) {
      QueueAtIs(s, f, m, a);
      QueueAtIs(g.s, f, m, a);
    } else if f :| IsFutex(g.s, f, m, a) {
      assert !IsFutex(s, f, m, a);
      QueueAtIs(g.s, f, m, a);
    }
  }

  /** Dropping a reference moves nobody: only an object with an empty queue is freed. */
  lemma PutQueues(s: State, f: Id, held: multiset<Id>, m: MemPtr, a: Addr)
    requires Inv(s, held) && f in held
    ensures f in s.futexes && QueueAt(Put(s, f), m, a) == QueueAt(s, m, a)
  {
    PutInv(s, f, held);
    var s' := Put(s, f);
    if h :| IsFutex(s, h, m, a) {
      QueueAtIs(s, h, m, a);
      if h in s'.futexes {
        QueueAtIs(s', h, m, a);
      } else {
        forall k ensures !IsFutex(s', k, m, a) {
          assert IsFutex(s', k, m, a) ==> SameKey(s, h, k);
        }
      }
    } else {
      forall k ensures !IsFutex(s', k, m, a) {
        assert !IsFutex(s, k, m, a);
      }
    }
  }

  /** The requeue loop cuts the first `k` waiters off one queue and appends them to the other. */
  lemma MoveQueues(s: State, f: Id, g: Id, max: nat, held: multiset<Id>, m: MemPtr, a: Addr)
    requires Inv(s, held) && f in held && g in held && f != g
    ensures f in s.futexes && g in s.futexes
    ensures var queue := s.futexes[f].queue;
            var k := Turns(queue, max, false);
            QueueAt(MoveHeads(s, f, g, max), m, a)
            == if IsFutex(s, f, m, a) then queue[k..]
               else if IsFutex(s, g, m, a) then s.futexes[g].queue + queue[..k]
               else QueueAt(s, m, a)
  {
    HeldExists(s, held, f);
    HeldExists(s, held, g);
    assert QueueOk(s, f);
    RequeueMovesPrefix(s, f, g, max);
    MoveHeadsInv(s, f, g, held, max);
    var s' := MoveHeads(s, f, g, max);
    if h :| IsFutex(s, h, m, a) {
      QueueAtIs(s, h, m, a);
      QueueAtIs(s', h, m, a);
      assert h != f ==> !SameKey(s, f, h);
      assert h != g ==> !SameKey(s, g, h);
    } else {
      forall k ensures !IsFutex(s', k, m, a) {
        assert !IsFutex(s, k, m, a);
      }
    }
  }

  lemma WakeQueues(s: State, f: Id, max: nat, bitset: bv32, held: multiset<Id>, m: MemPtr, a: Addr)
    requires Inv(s, held) && f in s.futexes
    ensures QueueAt(WakeOn(s, f, max, bitset), m, a)
            == if IsFutex(s, f, m, a) then Wake(s.futexes[f].queue, s.waits, max, bitset).left else QueueAt(s, m, a)
  {
    WakeInv(s, f, max, bitset, held);
    var s' := WakeOn(s, f, max, bitset);
    if h :| IsFutex(s, h, m, a) {
      QueueAtIs(s, h, m, a);
      QueueAtIs(s', h, m, a);
      assert h != f ==> !SameKey(s, f, h);
    } else {
      forall k ensures !IsFutex(s', k, m, a) {
        assert !IsFutex(s, k, m, a);
      }
    }
  }

  /** The requeue part of a call, both puts included. */
  lemma RequeueQueues(s: State, f: Id, mem: MemPtr, addr: Addr, requeue: Requeue, block2: Option<Id>, m: MemPtr,
                      a: Addr)
    requires Inv(s, multiset{f}) && IsFutex(s, f, mem, addr) && addr != requeue.addr
    requires (block2.Some? ==> block2.value !in s.futexes) && Get(s, mem, requeue.addr, block2).Some?
    ensures var queue := s.futexes[f].queue;
            var k := Turns(queue, requeue.max, false);
            QueueAt(RequeueAndPut(s, f, mem, Some(requeue), block2), m, a)
            == if m == mem && a == addr then queue[k..]
               else if m == mem && a == requeue.addr then QueueAt(s, m, a) + queue[..k]
               else QueueAt(s, m, a)
  {
    GetInv(s, mem, requeue.addr, block2, multiset{f});
    var r := Get(s, mem, requeue.addr, block2).value;
    assert multiset{f} + multiset{r.f} == multiset{f, r.f};
    OneFutexPerKey(r.s, f, r.f, mem, requeue.addr);
    QueueAtGet(s, mem, requeue.addr, block2);
    GetQueues(s, mem, requeue.addr, block2, m, a);
    MoveQueues(r.s, f, r.f, requeue.max, multiset{f, r.f}, m, a);
    var moved := MoveHeads(r.s, f, r.f, requeue.max);
    MoveHeadsInv(r.s, f, r.f, multiset{f, r.f}, requeue.max);
    PutQueues(moved, r.f, multiset{f, r.f}, m, a);
    PutInv(moved, r.f, multiset{f, r.f});
    assert multiset{f, r.f} - multiset{r.f} == multiset{f};
    PutQueues(Put(moved, r.f), f, multiset{f}, m, a);
  }

  /** The queues after the wake loop of a call that found or made its futex. */
  lemma WokenQueues(s: State, mem: MemPtr, addr: Addr, max: nat, bitset: bv32, block: Option<Id>, m: MemPtr, a: Addr)
    returns (r: Got, w: State)
    requires Inv(s, multiset{}) && (block.Some? ==> block.value !in s.futexes) && (block.Some? || Found(s, mem, addr))
    ensures Get(s, mem, addr, block) == Some(r) && r.f in r.s.futexes && w == WakeOn(r.s, r.f, max, bitset)
    ensures Inv(w, multiset{r.f}) && IsFutex(w, r.f, mem, addr) && w.waits == s.waits
    ensures var queue := QueueAt(s, mem, addr);
            var left := Except(queue, FirstOf(Matching(queue, s.waits, bitset), max));
            w.futexes[r.f].queue == left && QueueAt(w, m, a) == if m == mem && a == addr then left else QueueAt(s, m, a)
  {
    GetInv(s, mem, addr, block, multiset{});
    r := Get(s, mem, addr, block).value;
    assert multiset{} + multiset{r.f} == multiset{r.f};
    QueueAtGet(s, mem, addr, block);
    GetQueues(s, mem, addr, block, m, a);
    assert QueueOk(r.s, r.f);
    WakeTakesFirstMatching(r.s.futexes[r.f].queue, r.s.waits, max, bitset);
    WakeQueues(r.s, r.f, max, bitset, multiset{r.f}, m, a);
    WakeInv(r.s, r.f, max, bitset, multiset{r.f});
    w := WakeOn(r.s, r.f, max, bitset);
    OtherKey(r.s, r.f, mem, addr, m, a);
  }

  /** A whole wake-and-requeue call onto another address: the first `max` matching waiters leave
      the queue, the next `requeue.max` of the others move, in order, to the tail of the other
      queue, and no other queue of any address space changes. */
  lemma WakeLikeQueues(s: State, mem: MemPtr, addr: Addr, max: nat, bitset: bv32, requeue: Requeue,
                       block: Option<Id>, block2: Option<Id>, m: MemPtr, a: Addr)
    requires Inv(s, multiset{}) && (block.Some? ==> block.value !in s.futexes) && addr != requeue.addr
    requires block2.Some? ==> block2.value !in s.futexes && block2 != block
    requires (block.Some? || Found(s, mem, addr)) && (block2.Some? || Found(s, mem, requeue.addr))
    ensures var queue := QueueAt(s, mem, addr);
            var left := Except(queue, FirstOf(Matching(queue, s.waits, bitset), max));
            var k := if requeue.max < |left| then requeue.max else |left|;
            QueueAt(WakeLikeStep(s, mem, addr, max, bitset, Some(requeue), block, block2), m, a)
            == if m == mem && a == addr then left[k..]
               else if m == mem && a == requeue.addr then QueueAt(s, m, a) + left[..k]
               else QueueAt(s, m, a)
  {
    var r, w := WokenQueues(s, mem, addr, max, bitset, block, m, a);
    FoundAfterGet(s, mem, addr, block, w, requeue.addr);
    RequeueQueues(w, r.f, mem, addr, requeue, block2, m, a);
  }

  /** A call that does not requeue, or finds no memory to: the first `max` matching waiters leave the
      queue, and nothing else changes. */
  lemma WakeOnlyQueues(s: State, mem: MemPtr, addr: Addr, max: nat, bitset: bv32, requeue: Option<Requeue>,
                       block: Option<Id>, block2: Option<Id>, m: MemPtr, a: Addr)
    requires Inv(s, multiset{}) && (block.Some? ==> block.value !in s.futexes)
    requires block2.Some? ==> block2.value !in s.futexes && block2 != block
    requires block.Some? || Found(s, mem, addr)
    requires requeue.Some? ==> block2.None? && requeue.value.addr != addr && !Found(s, mem, requeue.value.addr)
    ensures var queue := QueueAt(s, mem, addr);
            var s' := WakeLikeStep(s, mem, addr, max, bitset, requeue, block, block2);
            && s'.waits == s.waits
            && QueueAt(s', m, a) == if m == mem && a == addr
                                    then Except(queue, FirstOf(Matching(queue, s.waits, bitset), max))
                                    else QueueAt(s, m, a)
  {
    var r, w := WokenQueues(s, mem, addr, max, bitset, block, m, a);
    if requeue.Some? {
      FoundAfterGet(s, mem, addr, block, w, requeue.value.addr);
      assert Get(w, mem, requeue.value.addr, block2).None?;
    }
    PutQueues(w, r.f, multiset{r.f}, m, a);
  }

  /** A waiter goes to the tail of the queue, with its bitset, exactly if the word has the expected
      value and there is an object or memory for one.  Nothing else changes. */
  lemma BeginWaitQueues(s: State, t: Thread, mem: MemPtr, addr: Addr, bitset: bv32, val: nat, word: Option<nat>,
                        block: Option<Id>, m: MemPtr, a: Addr)
    requires Inv(s, multiset{}) && (block.Some? ==> block.value !in s.futexes) && t !in s.waits
    ensures var s' := BeginWaitStep(s, t, mem, addr, bitset, val, word, block);
            if word == Some(val) && (block.Some? || Found(s, mem, addr)) then
              && t in s'.waits && s'.waits[t].bitset == bitset && IsFutex(s', s'.waits[t].futex, mem, addr)
              && s'.waits == s.waits[t := s'.waits[t]]
              && QueueAt(s', m, a) == if m == mem && a == addr then QueueAt(s, m, a) + [t] else QueueAt(s, m, a)
            else s'.waits == s.waits && QueueAt(s', m, a) == QueueAt(s, m, a)
  {
    if block.Some? || Found(s, mem, addr) {
      GetInv(s, mem, addr, block, multiset{});
      var r := Get(s, mem, addr, block).value;
      assert multiset{} + multiset{r.f} == multiset{r.f};
      QueueAtGet(s, mem, addr, block);
      GetQueues(s, mem, addr, block, m, a);
      OtherKey(r.s, r.f, mem, addr, m, a);
      if word == Some(val) {
        EnqueueQueues(r.s, r.f, t, bitset, multiset{r.f}, m, a);
        QueueAtIs(r.s, r.f, mem, addr);
      } else {
        PutQueues(r.s, r.f, multiset{r.f}, m, a);
      }
    }
  }

  lemma EnqueueQueues(s: State, f: Id, t: Thread, bitset: bv32, held: multiset<Id>, m: MemPtr, a: Addr)
    requires Inv(s, held) && f in held && f in s.futexes && t !in s.waits
    ensures QueueAt(Enqueue(s, f, t, bitset), m, a)
            == if IsFutex(s, f, m, a) then s.futexes[f].queue + [t] else QueueAt(s, m, a)
  {
    EnqueueInv(s, f, t, bitset, held);
    var s' := Enqueue(s, f, t, bitset);
    if h :| IsFutex(s, h, m, a) {
      QueueAtIs(s, h, m, a);
      QueueAtIs(s', h, m, a);
      assert h != f ==> !SameKey(s, f, h);
    } else {
      forall k ensures !IsFutex(s', k, m, a) {
        assert !IsFutex(s, k, m, a);
      }
    }
  }

  /** The end of a wait takes the thread out of whatever queue it is in by now, and changes nothing
      else. */
  lemma EndWaitQueues(s: State, t: Thread, m: MemPtr, a: Addr)
    requires Inv(s, multiset{}) && t in s.waits
    ensures EndWaitStep(s, t).waits == s.waits - {t}
    ensures QueueAt(EndWaitStep(s, t), m, a) == Without(QueueAt(s, m, a), t)
  {
    DetachInv(s, t, multiset{});
    var d, f := Detach(s, t), s.waits[t].futex;
    assert multiset{} + multiset{f} == multiset{f};
    PutQueues(d, f, multiset{f}, m, a);
    if h :| IsFutex(s, h, m, a) {
      QueueAtIs(s, h, m, a);
      QueueAtIs(d, h, m, a);
      assert QueueOk(s, h);
      WithoutElements(s.futexes[h].queue, t);
      assert h != f ==> !WaitsOn(s, t, h);
    } else {
      forall k ensures !IsFutex(d, k, m, a) {
        assert !IsFutex(s, k, m, a);
      }
    }
  }

  lemma OtherKey(s: State, f: Id, mem: MemPtr, addr: Addr, m: MemPtr, a: Addr)
    requires IsFutex(s, f, mem, addr)
    ensures IsFutex(s, f, m, a) <==> m == mem && a == addr
  {
  }

  // ------------------------------------------------------------------ the code

  const EAGAIN: int := -11
  const ENOMEM: int := -12
  const EFAULT: int := -14

  /** The list node after `t`, or `None` at the list head. */
  function After(queue: seq<Thread>, t: Thread): Option<Thread> {
    if |queue| < 2 then None
    else if queue[0] == t then Some(queue[1])
    else After(queue[1..], t)
  }

  function First(queue: seq<Thread>): Option<Thread> {
    if queue == [] then None else Some(queue[0])
  }

  /** The wake loop of futex_wakelike, with the iteration cursor between `passed` and `rest`. */
  method WakeQueue(queue: seq<Thread>, waits: map<Thread, Wait>, max: nat, bitset: bv32)
    returns (left: seq<Thread>, woken: nat)
    ensures left == Wake(queue, waits, max, bitset).left
    ensures woken == |Wake(queue, waits, max, bitset).woken|
  {
    var passed, rest := [], queue;
    woken := 0;
    while rest != [] && woken < max
      invariant woken <= max
      invariant passed + Wake(rest, waits, max - woken, bitset).left == Wake(queue, waits, max, bitset).left
      invariant woken + |Wake(rest, waits, max - woken, bitset).woken| == |Wake(queue, waits, max, bitset).woken|
      decreases |rest|
    {
      var t := rest[0];
      if Matches(waits, t, bitset) {
        woken := woken + 1;
      } else {
        passed := passed + [t];
      }
      rest := rest[1..];
    }
    left := passed + rest;
  }

  lemma OneFutexPerKey(s: State, f: Id, g: Id, mem: MemPtr, addr: Addr)
    requires KeysOk(s) && IsFutex(s, g, mem, addr) && f in s.futexes && s.futexes[f].mem == mem
    ensures f == g <==> s.futexes[f].addr == addr
  {
    assert s.futexes[f].addr == addr ==> SameKey(s, f, g);
  }

  class FutexTable {
    var futexes: map<Id, FutexObj>
    var waits: map<Thread, Wait>
    ghost var held: multiset<Id>

    ghost function View(): State
      reads this
    {
      State(futexes, waits)
    }

    ghost predicate Valid()
      reads this
    {
      Inv(View(), held)
    }

    constructor ()
      ensures Valid() && held == multiset{} && View() == State(map[], map[])
    {
      futexes, waits, held := map[], map[], multiset{};
    }

    method GetUnlocked(mem: MemPtr, addr: Addr, block: Option<Id>) returns (r: Option<Id>)
      requires Valid() && (block.Some? ==> block.value !in futexes)
      modifies this
      ensures Valid() && waits == old(waits)
      ensures var g := Get(old(View()), mem, addr, block);
              if g.None? then r.None? && View() == old(View()) && held == old(held)
              else r == Some(g.value.f) && View() == g.value.s && held == old(held) + multiset{g.value.f}
      ensures r.None? <==> block.None? && !Found(old(View()), mem, addr)
    {
      GetInv(View(), mem, addr, block, held);
      if f :| f in futexes && futexes[f].mem == mem && futexes[f].addr == addr {
        assert IsFutex(View(), f, mem, addr);
        assert SameKey(View(), f, Get(View(), mem, addr, block).value.f);
        futexes := futexes[f := futexes[f].(refcount := futexes[f].refcount + 1)];
        held := held + multiset{f};
        return Some(f);
      }
      if block.None? {
        return None;
      }
      futexes := futexes[block.value := FutexObj(1, mem, addr, [])];
      held := held + multiset{block.value};
      r := block;
    }

    /** The assert in the middle is the source's own. */
    method PutUnlocked(f: Id)
      requires Valid() && f in held
      modifies this
      ensures Valid() && held == old(held) - multiset{f}
      ensures f in old(futexes) && View() == Put(old(View()), f)
    {
      PutInv(View(), f, held);
      futexes := futexes[f := futexes[f].(refcount := futexes[f].refcount - 1)];
      if futexes[f].refcount == 0 {
        assert futexes[f].queue == [];
        futexes := futexes - {f};
      }
      held := held - multiset{f};
      assert futexes == Put(old(View()), f).futexes;
    }

    /** The body of the requeue loop for the queue's head; the assert is the source's own. */
    method MoveOne(f: Id, g: Id)
      requires Valid() && f in held && g in held && CanMove(View(), f, g)
      modifies this
      ensures Valid() && held == old(held)
      ensures View() == MoveHead(old(View()), f, g)
    {
      MoveHeadsInv(View(), f, g, held, 1);
      MoveHeadCounts(View(), f, g, held);
      var t := futexes[f].queue[0];
      futexes := futexes[f := futexes[f].(queue := futexes[f].queue[1..])];
      futexes := futexes[g := futexes[g].(queue := futexes[g].queue + [t])];
      assert futexes[f].refcount > 1;
      futexes := futexes[f := futexes[f].(refcount := futexes[f].refcount - 1)];
      futexes := futexes[g := futexes[g].(refcount := futexes[g].refcount + 1)];
      waits := waits[t := waits[t].(futex := g)];
      assert futexes == MoveHead(old(View()), f, g).futexes;
      assert MoveHeads(MoveHead(old(View()), f, g), f, g, 0) == MoveHead(old(View()), f, g);
    }
  
    /** The requeue loop, walking the list as the source does: the successor is read
        before the node is moved.  On two different futexes the walk ends with the queue;
        on the same futex it comes round to the waiters it moved. */
    method RequeueLoop(f: Id, g: Id, max: nat) returns (requeued: nat)
      requires Valid() && f in held && g in held
      modifies this
      ensures Valid() && held == old(held)
      ensures View() == MoveHeads(old(View()), f, g, max)
      ensures f in old(futexes) && requeued == Turns(old(futexes)[f].queue, max, f == g)
    {
      HeldExists(View(), held, f);
      HeldExists(View(), held, g);
      requeued := 0;
      var item := First(futexes[f].queue);
      while item.Some? && requeued < max
        invariant Valid() && held == old(held) && f in futexes && g in futexes && requeued <= max
        invariant MoveHeads(View(), f, g, max - requeued) == MoveHeads(old(View()), f, g, max)
        invariant item.Some? ==> item == First(futexes[f].queue)
        invariant f != g ==> item == First(futexes[f].queue) && requeued + |futexes[f].queue| == |old(futexes)[f].queue|
        invariant f == g ==> |futexes[f].queue| == |old(futexes)[f].queue|
        invariant f == g && item.None? ==>
                    |futexes[f].queue| <= 1 && requeued == Turns(old(futexes)[f].queue, max, true)
        invariant f == g && item.Some? && |futexes[f].queue| <= 1 ==> requeued == 0
        decreases max - requeued
      {
        var tmp := After(futexes[f].queue, item.value);
        assert QueueOk(View(), f);
        HeadAttached(View(), f);
        if f == g && |futexes[f].queue| == 1 {
          LoneWaiterStays(View(), f, 1);
          LoneWaiterStays(View(), f, max - requeued - 1);
        }
        ghost var before := View();
        MoveOne(f, g);
        assert MoveHeads(MoveHead(before, f, g), f, g, 0) == View();
        requeued := requeued + 1;
        item := tmp;
      }
      if f == g && |futexes[f].queue| == 1 {
        assert QueueOk(View(), f);
        HeadAttached(View(), f);
        LoneWaiterStays(View(), f, max - requeued);
      }
    }

    /** The requeue loop and both puts. */
    method MoveAndRelease(f: Id, g: Id, max: nat) returns (requeued: nat)
      requires Valid() && held == multiset{f, g}
      modifies this
      ensures held == multiset{}
      ensures View() == MoveAndPut(old(View()), f, g, max)
      ensures f in old(futexes) && requeued == Turns(old(futexes)[f].queue, max, f == g)
    {
      requeued := RequeueLoop(f, g, max);
      PutUnlocked(g);
      assert held == multiset{f};
      PutUnlocked(f);
    }

    /** The requeue part of futex_wakelike and the final put; `None` is ENOMEM. */
    method RequeueFrom(f: Id, mem: MemPtr, requeue: Requeue, block2: Option<Id>) returns (requeued: Option<nat>)
      requires Valid() && held == multiset{f} && (block2.Some? ==> block2.value !in futexes)
      requires f in futexes && futexes[f].mem == mem
      modifies this
      ensures held == multiset{}
      ensures View() == RequeueAndPut(old(View()), f, mem, Some(requeue), block2)
      ensures requeued.Some? ==>
                requeued.value == Turns(old(futexes)[f].queue, requeue.max, old(futexes)[f].addr == requeue.addr)
      ensures requeued.None? <==> block2.None? && !Found(old(View()), mem, requeue.addr)
    {
      GetInv(View(), mem, requeue.addr, block2, held);
      var g := GetUnlocked(mem, requeue.addr, block2);
      if g.None? {
        PutUnlocked(f);
        return None;
      }
      OneFutexPerKey(View(), f, g.value, mem, requeue.addr);
      assert held == multiset{f, g.value};
      var n := MoveAndRelease(f, g.value, requeue.max);
      return Some(n);
    }

    /** futex_wakelike. */
    method WakeLike(mem: MemPtr, addr: Addr, max: nat, bitset: bv32, requeue: Option<Requeue>,
                    block: Option<Id>, block2: Option<Id>) returns (result: int)
      requires Valid() && held == multiset{} && (block.Some? ==> block.value !in futexes)
      requires block2.Some? ==> block2.value !in futexes && block2 != block
      modifies this
      ensures held == multiset{}
      ensures View() == WakeLikeStep(old(View()), mem, addr, max, bitset, requeue, block, block2)
      ensures result != ENOMEM ==>
                var c := Wake(QueueAt(old(View()), mem, addr), old(waits), max, bitset);
                result == |c.woken|
                          + if requeue.None? then 0 else Turns(c.left, requeue.value.max, requeue.value.addr == addr)
      ensures result == ENOMEM <==>
                || (block.None? && !Found(old(View()), mem, addr))
                || (requeue.Some? && block2.None? && requeue.value.addr != addr
                    && !Found(old(View()), mem, requeue.value.addr))
    {
      GetInv(View(), mem, addr, block, held);
      QueueAtGet(View(), mem, addr, block);
      var f := GetUnlocked(mem, addr, block);
      if f.None? {
        return ENOMEM;
      }
      assert held == multiset{f.value};
      HeldExists(View(), held, f.value);
      WakeInv(View(), f.value, max, bitset, held);
      var left, woken := WakeQueue(futexes[f.value].queue, waits, max, bitset);
      futexes := futexes[f.value := futexes[f.value].(queue := left)];
      if requeue.Some? {
        FoundAfterGet(old(View()), mem, addr, block, View(), requeue.value.addr);
      }
      if requeue.None? {
        PutUnlocked(f.value);
        return woken;
      }
      var requeued := RequeueFrom(f.value, mem, requeue.value, block2);
      result := if requeued.None? then ENOMEM else woken + requeued.value;
    }
  
    /** futex_wait up to wait_for; the lock is released when it returns 0 and sleeps. */
    method BeginWait(t: Thread, mem: MemPtr, addr: Addr, bitset: bv32, val: nat, word: Option<nat>, block: Option<Id>)
      returns (err: int)
      requires Valid() && held == multiset{} && t !in waits && (block.Some? ==> block.value !in futexes)
      modifies this
      ensures held == multiset{}
      ensures View() == BeginWaitStep(old(View()), t, mem, addr, bitset, val, word, block)
      ensures err == if block.None? && !Found(old(View()), mem, addr) then ENOMEM
                     else if word.None? then EFAULT
                     else if word.value != val then EAGAIN
                     else 0
      ensures t in waits <==> err == 0
    {
      var f := GetUnlocked(mem, addr, block);
      if f.None? {
        return ENOMEM;
      }
      assert held == multiset{f.value};
      HeldExists(View(), held, f.value);
      if word.None? {
        PutUnlocked(f.value);
        return EFAULT;
      }
      if word.value != val {
        PutUnlocked(f.value);
        return EAGAIN;
      }
      futexes := futexes[f.value := futexes[f.value].(queue := futexes[f.value].queue + [t])];
      waits := waits[t := Wait(f.value, bitset)];
      held := multiset{};
      return 0;
    }

    /** futex_wait after wait_for: it puts the futex it was last requeued to. */
    method EndWait(t: Thread)
      requires Valid() && held == multiset{} && t in waits
      modifies this
      ensures held == multiset{}
      ensures View() == EndWaitStep(old(View()), t)
    {
      DetachInv(View(), t, multiset{});
      var f := waits[t].futex;
      futexes := futexes[f := futexes[f].(queue := Without(futexes[f].queue, t))];
      waits := waits - {t};
      held := multiset{f};
      assert View() == Detach(old(View()), t);
      assert multiset{} + multiset{f} == multiset{f} && multiset{f} - multiset{f} == multiset{};
      PutUnlocked(f);
    }
  }
}
