/** The translated-code cache (asbestos/asbestos.c): blocks, their index by guest page, and
    the threads that run them.

    Threads execute blocks without holding the cache's lock.  A block that is invalidated is
    therefore only unhooked and put on the `jetsam` list; it is freed later, under the write
    side of a lock whose read side every running thread holds.  The system below
    interleaves running threads, invalidations and reclamation; each section under
    `asbestos->lock` is one step. */
module CodeCache {
  import opened Lists
  import opened JumpLinks

  const PAGE_SIZE: nat := 4096
  const ADDRESS_SPACE: nat := 0x1_0000_0000
  const PAGE_HASH_SIZE: nat := 1024

  /** The shared state: allocated blocks, those of them on the jetsam list, and the jump
      links by slot number. */
  datatype Cache = Cache(blocks: map<Id, Block>, dead: set<Id>, l0: Layer, l1: Layer)

  predicate Live(c: Cache, b: Id) {
    b in c.blocks && b !in c.dead
  }

  predicate SameAddr(c: Cache, b: Id, d: Id) {
    Live(c, b) && Live(c, d) && c.blocks[b].addr == c.blocks[d].addr
  }

  /** What fiber_block_compile guarantees of a block. */
  predicate Shape(b: Block) {
    b.addr < ADDRESS_SPACE && b.len <= PAGE_SIZE && |b.ips| == 2
  }

  predicate BlockOk(c: Cache, b: Id) {
    b in c.blocks && Shape(c.blocks[b])
  }

  ghost predicate CacheOk(c: Cache) {
    && c.dead <= c.blocks.Keys
    && (forall b {:trigger BlockOk(c, b)} :: b in c.blocks ==> BlockOk(c, b))
    && (forall b, d {:trigger SameAddr(c, b, d)} :: SameAddr(c, b, d) ==> b == d)
    && LayerOk(c.l0, c.blocks, c.dead, 0)
    && LayerOk(c.l1, c.blocks, c.dead, 1)
  }

  function LayerOf(c: Cache, i: nat): Layer {
    if i == 0 then c.l0 else c.l1
  }

  // ------------------------------------------------------------------ steps of the shared state

  function AddBlock(c: Cache, b: Id, nb: Block): Cache
    requires |nb.ips| == 2
  {
    Cache(c.blocks[b := nb], c.dead, Add(c.l0, b, nb.ips[0]), Add(c.l1, b, nb.ips[1]))
  }

  lemma AddBlockOk(c: Cache, b: Id, nb: Block)
    requires CacheOk(c) && b !in c.blocks && Shape(nb)
    requires forall d :: Live(c, d) ==> c.blocks[d].addr != nb.addr
    ensures CacheOk(AddBlock(c, b, nb))
  {
    var c' := AddBlock(c, b, nb);
    AddOk(c.l0, c.blocks, c.dead, 0, b, nb);
    AddOk(c.l1, c.blocks, c.dead, 1, b, nb);
    forall d | d in c'.blocks ensures BlockOk(c', d) {
      assert d != b ==> BlockOk(c, d);
    }
    forall d, e | SameAddr(c', d, e) ensures d == e {
      assert d != b ==> Live(c, d);
      assert e != b ==> Live(c, e);
      assert d != b && e != b ==> SameAddr(c, d, e);
    }
  }

  /** A new block comes with the slots that it was translated with, waiting for their addresses; no
      block jumps to it yet, and no other slot changes. */
  lemma AddBlockSlots(c: Cache, b: Id, nb: Block, i: nat, p: Id)
    requires CacheOk(c) && b !in c.blocks && Shape(nb) && i < 2
    ensures var l, l' := LayerOf(c, i), LayerOf(AddBlock(c, b, nb), i);
            && (b in l'.slot <==> nb.ips[i].Some?) && (b in l'.slot ==> l'.slot[b] == Unlinked(nb.ips[i].value))
            && b in l'.from && l'.from[b] == []
            && (p != b ==> (p in l'.slot <==> p in l.slot) && (p in l.slot ==> l'.slot[p] == l.slot[p]))
  {
    var l := LayerOf(c, i);
    assert b in l.slot ==> SlotOk(l, c.blocks, c.dead, i, b);
  }

  predicate MayPatch(c: Cache, last: Id, b: Id) {
    Live(c, last) && Live(c, b)
  }

  function PatchJumps(c: Cache, last: Id, b: Id): Cache
    requires b in c.blocks
  {
    if MayPatch(c, last, b) then
      c.(l0 := Patch(c.l0, last, b, c.blocks[b].addr), l1 := Patch(c.l1, last, b, c.blocks[b].addr))
    else c
  }

  /** No slot of `last` is linked to code whose host address ends in the guest address of `b`. */
  predicate Unaliased(c: Cache, last: Id, b: Id) {
    b in c.blocks && NoAlias(c.l0, last, c.blocks[b].addr) && NoAlias(c.l1, last, c.blocks[b].addr)
  }

  lemma PatchJumpsIff(c: Cache, last: Id, b: Id)
    requires CacheOk(c) && b in c.blocks
    ensures CacheOk(PatchJumps(c, last, b)) <==> (MayPatch(c, last, b) ==> Unaliased(c, last, b))
  {
    if MayPatch(c, last, b) {
      PatchExactIffNoAlias(c.l0, c.blocks, c.dead, 0, last, b);
      PatchExactIffNoAlias(c.l1, c.blocks, c.dead, 1, last, b);
      SameBlocks(c, PatchJumps(c, last, b));
    }
  }

  /** Patching links every slot that waits for the address of `b`, in either layer, and no other:
      the slots of other blocks and those for other addresses are as they were. */
  lemma PatchLinks(c: Cache, last: Id, b: Id, i: nat, p: Id)
    requires CacheOk(c) && b in c.blocks && (MayPatch(c, last, b) ==> Unaliased(c, last, b))
    ensures var l, l' := LayerOf(c, i), LayerOf(PatchJumps(c, last, b), i);
            && l'.slot.Keys == l.slot.Keys
            && (p in l.slot ==>
                  l'.slot[p] == if p == last && last !in c.dead && b !in c.dead
                                   && l.slot[p] == Unlinked(c.blocks[b].addr)
                                then Linked(b) else l.slot[p])
  {
    assert last in c.l0.slot ==> SlotOk(c.l0, c.blocks, c.dead, 0, last);
    assert last in c.l1.slot ==> SlotOk(c.l1, c.blocks, c.dead, 1, last);
  }

  /** fiber_block_disconnect, and onto the jetsam list. */
  function Discard(c: Cache, b: Id): Cache
    requires b in c.l0.from && b in c.l1.from
  {
    Cache(c.blocks, c.dead + {b}, Disconnect(c.l0, c.blocks, 0, b), Disconnect(c.l1, c.blocks, 1, b))
  }

  lemma DiscardOk(c: Cache, b: Id)
    requires CacheOk(c) && b in c.blocks
    ensures b in c.l0.from && b in c.l1.from && CacheOk(Discard(c, b))
  {
    DisconnectOk(c.l0, c.blocks, c.dead, 0, b);
    DisconnectOk(c.l1, c.blocks, c.dead, 1, b);
    SameBlocks(c, Discard(c, b));
  }

  lemma SameBlocks(c: Cache, c': Cache)
    requires CacheOk(c) && c'.blocks == c.blocks && c.dead <= c'.dead <= c.blocks.Keys
    ensures forall b {:trigger BlockOk(c', b)} :: b in c'.blocks ==> BlockOk(c', b)
    ensures forall b, d {:trigger SameAddr(c', b, d)} :: SameAddr(c', b, d) ==> b == d
  {
    forall b | b in c'.blocks ensures BlockOk(c', b) {
      assert BlockOk(c, b);
    }
    forall b, d | SameAddr(c', b, d) ensures b == d {
      assert SameAddr(c, b, d);
    }
  }

  /** fiber_free_jetsam. */
  function FreeJetsam(c: Cache): Cache {
    Cache(c.blocks - c.dead, {}, Free(c.l0, c.dead), Free(c.l1, c.dead))
  }

  lemma FreeJetsamOk(c: Cache)
    requires CacheOk(c)
    ensures CacheOk(FreeJetsam(c))
  {
    var c' := FreeJetsam(c);
    FreeOk(c.l0, c.blocks, c.dead, 0);
    FreeOk(c.l1, c.blocks, c.dead, 1);
    forall b | b in c'.blocks ensures BlockOk(c', b) {
      assert BlockOk(c, b);
    }
    forall b, d | SameAddr(c', b, d) ensures b == d {
      assert SameAddr(c, b, d);
    }
  }

  // ------------------------------------------------------------------ invalidation

  function PageOf(a: nat): nat { a / 4096 }

  /** end_addr, as gen_end computes it in 32-bit arithmetic. */
  function EndAddr(b: Block): nat {
    if b.len == 0 then b.addr else (b.addr + b.len - 1) % 0x1_0000_0000
  }

  /** Whether byte `k` of a block lies on a page; blocks may wrap past the top of memory. */
  predicate ByteOn(b: Block, k: nat, page: nat) {
    k < b.len && PageOf((b.addr + k) % 0x1_0000_0000) == page
  }

  /** Whether a block is on one of the two lists that invalidating `page` walks. */
  predicate Indexed(b: Block, page: nat) {
    || PageOf(b.addr) % 1024 == page % 1024
    || (PageOf(b.addr) != PageOf(EndAddr(b)) && PageOf(EndAddr(b)) % 1024 == page % 1024)
  }

  lemma PageStep(first: nat, at: nat, last: nat)
    requires first <= at <= last < first + 4096
    ensures PageOf(at) == PageOf(first) || PageOf(at) == PageOf(last)
    ensures PageOf(first) <= PageOf(at) <= PageOf(last) <= PageOf(first) + 1
  {
  }

  lemma WrapPage(a: nat)
    requires a < 2 * 0x1_0000_0000
    ensures PageOf(a % 0x1_0000_0000) == if a < 0x1_0000_0000 then PageOf(a) else PageOf(a) - 0x10_0000
  {
    if a >= 0x1_0000_0000 {
      assert a % 0x1_0000_0000 == a - 0x1_0000_0000;
    }
  }

  /** A block of at most a page touches at most the two pages it is indexed under. */
  lemma TouchedIsIndexed(b: Block, k: nat, page: nat)
    requires Shape(b) && ByteOn(b, k, page)
    ensures Indexed(b, page)
  {
    var at, last := b.addr + k, b.addr + b.len - 1;
    PageStep(b.addr, at, last);
    WrapPage(at);
    WrapPage(last);
  }

  ghost predicate Hit(c: Cache, b: Id, start: nat, end: nat) {
    Live(c, b) && exists page :: start <= page < end && Indexed(c.blocks[b], page)
  }

  /** Discards the blocks of `bs` in order. */
  function DiscardAll(c: Cache, bs: seq<Id>): Cache
    decreases |bs|
  {
    if bs == [] then c
    else DiscardAll(if bs[0] in c.l0.from && bs[0] in c.l1.from then Discard(c, bs[0]) else c, bs[1..])
  }

  lemma {:induction false} DiscardAllAppend(c: Cache, xs: seq<Id>, ys: seq<Id>)
    ensures DiscardAll(c, xs + ys) == DiscardAll(DiscardAll(c, xs), ys)
    decreases |xs|
  {
    if xs == [] {
      assert xs + ys == ys;
    } else {
      assert (xs + ys)[1..] == xs[1..] + ys;
      DiscardAllAppend(if xs[0] in c.l0.from && xs[0] in c.l1.from then Discard(c, xs[0]) else c, xs[1..], ys);
    }
  }

  lemma {:induction false} DiscardAllOk(c: Cache, bs: seq<Id>)
    requires CacheOk(c) && forall i :: 0 <= i < |bs| ==> bs[i] in c.blocks
    ensures var c' := DiscardAll(c, bs);
            CacheOk(c') && c'.blocks == c.blocks && c'.dead == c.dead + (set b | b in bs)
    decreases |bs|
  {
    if bs != [] {
      DiscardOk(c, bs[0]);
      DiscardAllOk(Discard(c, bs[0]), bs[1..]);
      assert (set b | b in bs) == {bs[0]} + (set b | b in bs[1..]);
    }
  }

  /** After an invalidation of the pages from `start` to `end`, no live block has a byte on
      any of them. */
  lemma InvalidationComplete(c: Cache, bs: seq<Id>, start: nat, end: nat, b: Id, k: nat, page: nat)
    requires CacheOk(c) && forall i :: 0 <= i < |bs| ==> bs[i] in c.blocks
    requires forall d :: Hit(c, d, start, end) ==> d in bs
    requires Live(DiscardAll(c, bs), b) && start <= page < end
    ensures b in c.blocks && !ByteOn(c.blocks[b], k, page)
  {
    DiscardAllOk(c, bs);
    assert BlockOk(c, b) && b !in bs;
    if ByteOn(c.blocks[b], k, page) {
      TouchedIsIndexed(c.blocks[b], k, page);
      assert Hit(c, b, start, end);
    }
  }

  // ------------------------------------------------------------------ threads

  type Thread = nat

  /** What a thread inside cpu_step_to_interrupt holds: its private block cache, the block
      just looked up, the block last entered, and its return cache. */
  datatype Local = Local(cache: map<nat, Id>, fetched: Option<Id>, last: Option<Id>, ret: set<Id>)

  /** `threads` are the readers of jetsam_lock; `writer` holds its write side. */
  datatype System = System(c: Cache, threads: map<Thread, Local>, writer: Option<Thread>)

  datatype Event =
    | Enter(t: Thread)
    | Fetch(t: Thread, ip: nat, index: nat, b: Id, nb: Block)
    | Link(t: Thread)
    | Chain(t: Thread, i: nat)
    | Call(t: Thread)
    | Return(t: Thread, p: Id)
    | Leave(t: Thread)
    | Invalidate(start: nat, end: nat, bs: seq<Id>)
    | WriteLock(t: Thread)
    | Reclaim(t: Thread)
    | WriteUnlock(t: Thread)

  /** The private cache has the block for this address. */
  predicate Cached(s: System, l: Local, ip: nat, index: nat) {
    index in l.cache && l.cache[index] in s.c.blocks && s.c.blocks[l.cache[index]].addr == ip
  }

  /** The first locked section of the dispatch loop: private cache, then lookup, then
      translation.  `index` is where the private cache would keep this address. */
  ghost predicate FetchStep(s: System, s': System, t: Thread, ip: nat, index: nat, b: Id, nb: Block) {
    && t in s.threads && s.threads[t].fetched.None?
    && var l := s.threads[t];
       if Cached(s, l, ip, index) then
         b == l.cache[index] && s' == s.(threads := s.threads[t := l.(fetched := Some(b))])
       else
         var l' := l.(fetched := Some(b), cache := l.cache[index := b]);
         if Live(s.c, b) && s.c.blocks[b].addr == ip then
           s' == s.(threads := s.threads[t := l'])
         else
           && (forall d :: Live(s.c, d) ==> s.c.blocks[d].addr != ip)
           && b !in s.c.blocks && Shape(nb) && nb.addr == ip
           && s' == s.(c := AddBlock(s.c, b, nb), threads := s.threads[t := l'])
  }

  /** The second locked section: patch the last block's jumps, then enter the block. */
  ghost predicate LinkStep(s: System, s': System, t: Thread) {
    && t in s.threads && s.threads[t].fetched.Some? && s.threads[t].fetched.value in s.c.blocks
    && var l := s.threads[t];
       var b := l.fetched.value;
       s' == s.(c := if l.last.Some? then PatchJumps(s.c, l.last.value, b) else s.c,
                threads := s.threads[t := l.(last := Some(b), fetched := None)])
  }

  /** The patcher is about to take a link for the guest address it is looking for. */
  predicate MeetsAlias(s: System, e: Event) {
    && e.Link? && e.t in s.threads && s.threads[e.t].fetched.Some? && s.threads[e.t].last.Some?
    && var last, b := s.threads[e.t].last.value, s.threads[e.t].fetched.value;
       MayPatch(s.c, last, b) && !Unaliased(s.c, last, b)
  }

  /** A gadget follows a patched jump of the block `from`. */
  predicate Follows(c: Cache, from: Id, i: nat, to: Id) {
    from in LayerOf(c, i).slot && LayerOf(c, i).slot[from] == Linked(to)
  }

  ghost predicate Step(s: System, e: Event, s': System) {
    match e
    case Enter(t) =>
      && t !in s.threads && s.writer.None?
      && s' == s.(threads := s.threads[t := Local(map[], None, None, {})])
    case Fetch(t, ip, index, b, nb) => FetchStep(s, s', t, ip, index, b, nb)
    case Link(t) => LinkStep(s, s', t)
    case Chain(t, i) =>
      && t in s.threads && s.threads[t].last.Some?
      && exists to :: Follows(s.c, s.threads[t].last.value, i, to)
                      && s' == s.(threads := s.threads[t := s.threads[t].(last := Some(to))])
    case Call(t) =>
      && t in s.threads && s.threads[t].last.Some?
      && s' == s.(threads := s.threads[t := s.threads[t].(ret := s.threads[t].ret + {s.threads[t].last.value})])
    case Return(t, p) =>
      && t in s.threads && p in s.threads[t].ret
      && exists to :: (to == p || Follows(s.c, p, 0, to))
                      && s' == s.(threads := s.threads[t := s.threads[t].(last := Some(to))])
    case Leave(t) => t in s.threads && s' == s.(threads := s.threads - {t})
    case Invalidate(start, end, bs) =>
      && CacheOk(s.c) && (forall i :: 0 <= i < |bs| ==> bs[i] in s.c.blocks)
      && (forall b :: Hit(s.c, b, start, end) <==> b in bs)
      && s' == s.(c := DiscardAll(s.c, bs))
    case WriteLock(t) => s.threads == map[] && s.writer.None? && s' == s.(writer := Some(t))
    case Reclaim(t) => s.writer == Some(t) && s' == s.(c := FreeJetsam(s.c))
    case WriteUnlock(t) => s.writer == Some(t) && s' == s.(writer := None)
  }

  /** Every block pointer a thread holds. */
  ghost predicate Holds(l: Local, b: Id) {
    b in l.cache.Values || l.fetched == Some(b) || l.last == Some(b) || b in l.ret
  }

  ghost predicate LocalOk(s: System, t: Thread) {
    t in s.threads && forall b :: Holds(s.threads[t], b) ==> b in s.c.blocks
  }

  ghost predicate SystemOk(s: System) {
    && CacheOk(s.c)
    && (forall t {:trigger LocalOk(s, t)} :: t in s.threads ==> LocalOk(s, t))
    && (s.writer.Some? ==> s.threads == map[])
  }

  lemma OtherThreads(s: System, s': System, t: Thread)
    requires SystemOk(s) && s.c.blocks.Keys <= s'.c.blocks.Keys
    requires s'.threads.Keys <= s.threads.Keys + {t}
    requires forall u :: u in s'.threads && u != t ==> u in s.threads && s'.threads[u] == s.threads[u]
    requires t in s'.threads ==> LocalOk(s', t)
    ensures forall u {:trigger LocalOk(s', u)} :: u in s'.threads ==> LocalOk(s', u)
  {
    forall u | u in s'.threads ensures LocalOk(s', u) {
      assert u != t ==> LocalOk(s, u);
    }
  }

  /** A link in an allocated block leads to an allocated block. */
  lemma FollowAllocated(c: Cache, from: Id, i: nat, to: Id)
    requires CacheOk(c) && Follows(c, from, i, to)
    ensures to in c.blocks
  {
    if i == 0 {
      assert SlotOk(c.l0, c.blocks, c.dead, 0, from);
    } else {
      assert SlotOk(c.l1, c.blocks, c.dead, 1, from);
    }
  }

  lemma FetchOk(s: System, s': System, t: Thread, ip: nat, index: nat, b: Id, nb: Block)
    requires SystemOk(s) && FetchStep(s, s', t, ip, index, b, nb)
    ensures SystemOk(s')
  {
    assert LocalOk(s, t);
    var l := s.threads[t];
    if !Cached(s, l, ip, index) && !(Live(s.c, b) && s.c.blocks[b].addr == ip) {
      AddBlockOk(s.c, b, nb);
    }
    assert l.cache[index := b].Values <= l.cache.Values + {b};
    OtherThreads(s, s', t);
  }

  lemma LinkIff(s: System, s': System, t: Thread)
    requires SystemOk(s) && LinkStep(s, s', t)
    ensures SystemOk(s') <==> !MeetsAlias(s, Link(t))
  {
    assert LocalOk(s, t);
    var l := s.threads[t];
    if l.last.Some? {
      PatchJumpsIff(s.c, l.last.value, l.fetched.value);
    }
    OtherThreads(s, s', t);
  }

  lemma MoveOk(s: System, s': System, t: Thread, from: Id, i: nat, to: Id)
    requires SystemOk(s) && t in s.threads && Holds(s.threads[t], from)
    requires to == from || Follows(s.c, from, i, to)
    requires s' == s.(threads := s.threads[t := s.threads[t].(last := Some(to))])
    ensures SystemOk(s')
  {
    assert LocalOk(s, t);
    if to != from {
      FollowAllocated(s.c, from, i, to);
    }
    OtherThreads(s, s', t);
  }

  /** Every step keeps the invariant, except for one that meets an alias. */
  lemma StepOkIff(s: System, e: Event, s': System)
    requires SystemOk(s) && Step(s, e, s')
    ensures SystemOk(s') <==> !MeetsAlias(s, e)
  {
    match e
    case Enter(t) => OtherThreads(s, s', t);
    case Fetch(t, ip, index, b, nb) => FetchOk(s, s', t, ip, index, b, nb);
    case Link(t) => LinkIff(s, s', t);
    case Chain(t, i) =>
      var to :| Follows(s.c, s.threads[t].last.value, i, to)
                && s' == s.(threads := s.threads[t := s.threads[t].(last := Some(to))]);
      MoveOk(s, s', t, s.threads[t].last.value, i, to);
    case Call(t) =>
      assert LocalOk(s, t);
      OtherThreads(s, s', t);
    case Return(t, p) =>
      var to :| (to == p || Follows(s.c, p, 0, to))
                && s' == s.(threads := s.threads[t := s.threads[t].(last := Some(to))]);
      MoveOk(s, s', t, p, 0, to);
    case Leave(t) => OtherThreads(s, s', t);
    case Invalidate(start, end, bs) =>
      DiscardAllOk(s.c, bs);
      forall u | u in s'.threads ensures LocalOk(s', u) {
        assert LocalOk(s, u);
      }
    case WriteLock(t) =>
    case Reclaim(t) => FreeJetsamOk(s.c);
    case WriteUnlock(t) =>
  }

  ghost predicate Behaviour(states: seq<System>, events: seq<Event>) {
    && |states| == |events| + 1
    && states[0] == System(Cache(map[], {}, Layer(map[], map[]), Layer(map[], map[])), map[], None)
    && forall i :: 0 <= i < |events| ==> Step(states[i], events[i], states[i + 1])
  }

  ghost predicate AliasFree(states: seq<System>, events: seq<Event>, n: nat)
    requires n <= |events| && n < |states|
  {
    forall k {:trigger MeetsAlias(states[k], events[k])} :: 0 <= k < n ==> !MeetsAlias(states[k], events[k])
  }

  lemma {:induction false} BehaviourOk(states: seq<System>, events: seq<Event>, n: nat)
    requires Behaviour(states, events) && n < |states| && AliasFree(states, events, n)
    ensures SystemOk(states[n])
  {
    if n > 0 {
      BehaviourOk(states, events, n - 1);
      StepOkIff(states[n - 1], events[n - 1], states[n]);
    }
  }

  /** Over every run, the system is consistent throughout if and only if no alias was met. */
  lemma ConsistentIffAliasFree(states: seq<System>, events: seq<Event>, n: nat)
    requires Behaviour(states, events) && n < |states|
    ensures (forall k :: 0 <= k <= n ==> SystemOk(states[k])) <==> AliasFree(states, events, n)
  {
    if AliasFree(states, events, n) {
      forall k | 0 <= k <= n ensures SystemOk(states[k]) {
        BehaviourOk(states, events, k);
      }
    } else if forall k :: 0 <= k <= n ==> SystemOk(states[k]) {
      var k :| 0 <= k < n && MeetsAlias(states[k], events[k]);
      StepOkIff(states[k], events[k], states[k + 1]);
    }
  }

  /** No host code address ends in the guest address of a block. */
  ghost predicate Apart(c: Cache) {
    forall b, d :: b in c.blocks && d in c.blocks ==> SlotLow(Linked(b)) != c.blocks[d].addr
  }

  /** For a caller: it is enough that host code and guest code are apart. */
  lemma {:induction false} ApartAliasFree(states: seq<System>, events: seq<Event>, n: nat)
    requires Behaviour(states, events) && n < |states| && forall k :: 0 <= k < n ==> Apart(states[k].c)
    ensures AliasFree(states, events, n)
  {
    if n > 0 {
      ApartAliasFree(states, events, n - 1);
      BehaviourOk(states, events, n - 1);
      var s, e := states[n - 1], events[n - 1];
      if e.Link? && e.t in s.threads && s.threads[e.t].last.Some? {
        var last := s.threads[e.t].last.value;
        assert last in s.c.l0.slot ==> SlotOk(s.c.l0, s.c.blocks, s.c.dead, 0, last);
        assert last in s.c.l1.slot ==> SlotOk(s.c.l1, s.c.blocks, s.c.dead, 1, last);
      }
    }
  }

  // ------------------------------------------------------------------ running the right code

  /** Private cache, lookup or translation: the dispatch loop gets a block of the address that it
      wants, live unless it was cached. */
  lemma FetchFinds(s: System, s': System, t: Thread, ip: nat, index: nat, b: Id, nb: Block)
    requires SystemOk(s) && Step(s, Fetch(t, ip, index, b, nb), s')
    ensures t in s'.threads && s'.threads[t].fetched == Some(b) && s'.threads[t].last == s.threads[t].last
    ensures index in s'.threads[t].cache && s'.threads[t].cache[index] == b
    ensures b in s'.c.blocks && s'.c.blocks[b].addr == ip
    ensures Live(s'.c, b) || Cached(s, s.threads[t], ip, index)
  {
    assert b in s.c.dead ==> b in s.c.blocks;
  }

  /** A patched jump leads to a block of the address that the jump is for, also in a block that
      has been discarded meanwhile. */
  lemma ChainFinds(s: System, s': System, t: Thread, i: nat)
    requires SystemOk(s) && Step(s, Chain(t, i), s') && i < 2
    ensures t in s.threads && t in s'.threads && s.threads[t].last.Some? && s'.threads[t].last.Some?
    ensures var from, to := s.threads[t].last.value, s'.threads[t].last.value;
            && from in s.c.blocks && to in s'.c.blocks && i < |s.c.blocks[from].ips|
            && s.c.blocks[from].ips[i] == Some(s'.c.blocks[to].addr)
  {
    assert LocalOk(s, t) && Holds(s.threads[t], s.threads[t].last.value);
    assert SlotOk(LayerOf(s.c, i), s.c.blocks, s.c.dead, i, s.threads[t].last.value);
  }

  /** After an invalidation no block that can be found has a byte in the range, and every other block
      can still be found. */
  lemma InvalidateCovers(s: System, s': System, start: nat, end: nat, bs: seq<Id>, b: Id, k: nat, page: nat)
    requires SystemOk(s) && Step(s, Invalidate(start, end, bs), s')
    ensures Live(s'.c, b) && start <= page < end ==> !ByteOn(s'.c.blocks[b], k, page)
    ensures Live(s.c, b) && !Live(s'.c, b) ==> exists p :: start <= p < end && Indexed(s.c.blocks[b], p)
  {
    DiscardAllOk(s.c, bs);
    if Live(s'.c, b) && start <= page < end {
      InvalidationComplete(s.c, bs, start, end, b, k, page);
    }
    if Live(s.c, b) && !Live(s'.c, b) {
      assert Hit(s.c, b, start, end);
    }
  }

  /** A reclamation frees exactly what was discarded. */
  lemma ReclaimFrees(s: System, s': System, t: Thread, b: Id)
    requires SystemOk(s) && Step(s, Reclaim(t), s')
    ensures b in s'.c.blocks <==> Live(s.c, b)
    ensures b in s'.c.blocks ==> Live(s'.c, b) && s'.c.blocks[b] == s.c.blocks[b]
  {
  }

  /** A call is remembered, so that the return can go back to its block. */
  lemma CallRemembered(s: System, s': System, t: Thread)
    requires SystemOk(s) && Step(s, Call(t), s')
    ensures t in s.threads && s.threads[t].last.Some? && t in s'.threads
    ensures s'.threads[t].ret == s.threads[t].ret + {s.threads[t].last.value} && s'.threads[t].last == s.threads[t].last
  {
  }

  /** A return goes back to a remembered block, or on to what its jump is for. */
  lemma ReturnFinds(s: System, s': System, t: Thread, p: Id)
    requires SystemOk(s) && Step(s, Return(t, p), s')
    ensures t in s.threads && p in s.threads[t].ret && t in s'.threads && s'.threads[t].last.Some?
    ensures var to := s'.threads[t].last.value;
            to == p || (p in s.c.blocks && to in s.c.blocks && |s.c.blocks[p].ips| > 0
                        && s.c.blocks[p].ips[0] == Some(s.c.blocks[to].addr))
  {
    assert LocalOk(s, t) && Holds(s.threads[t], p);
    assert p in s.c.l0.slot ==> SlotOk(s.c.l0, s.c.blocks, s.c.dead, 0, p);
  }

  function Actor(e: Event): Option<Thread> {
    match e
    case Invalidate(_, _, _) => None
    case _ => Some(e.t)
  }

  /** What others do while a thread runs: it keeps what it holds, and no block goes or changes. */
  lemma OthersKeep(s: System, e: Event, s': System, t: Thread, b: Id)
    requires SystemOk(s) && Step(s, e, s') && t in s.threads && Actor(e) != Some(t) && b in s.c.blocks
    ensures t in s'.threads && s'.threads[t] == s.threads[t]
    ensures b in s'.c.blocks && s'.c.blocks[b] == s.c.blocks[b]
  {
    if e.Invalidate? {
      DiscardAllOk(s.c, e.bs);
    }
  }

  lemma {:induction false} OthersKeepAll(states: seq<System>, events: seq<Event>, i: nat, j: nat, t: Thread, b: Id)
    requires Behaviour(states, events) && i <= j < |states| && AliasFree(states, events, j)
    requires forall k :: i <= k < j ==> Actor(events[k]) != Some(t)
    requires t in states[i].threads && b in states[i].c.blocks
    ensures t in states[j].threads && states[j].threads[t] == states[i].threads[t]
    ensures b in states[j].c.blocks && states[j].c.blocks[b] == states[i].c.blocks[b]
    decreases j
  {
    if i < j {
      OthersKeepAll(states, events, i, j - 1, t, b);
      BehaviourOk(states, events, j - 1);
      OthersKeep(states[j - 1], events[j - 1], states[j], t, b);
    }
  }

  /** In every interleaving, a thread that dispatches an address next enters a block translated
      from that address, whatever others do in between. */
  lemma DispatchEnters(states: seq<System>, events: seq<Event>, i: nat, j: nat, t: Thread, ip: nat)
    requires Behaviour(states, events) && i < j < |events| && AliasFree(states, events, j)
    requires events[i].Fetch? && events[i].t == t && events[i].ip == ip && events[j] == Link(t)
    requires forall k :: i < k < j ==> Actor(events[k]) != Some(t)
    ensures t in states[j + 1].threads && states[j + 1].threads[t].last.Some?
    ensures var b := states[j + 1].threads[t].last.value;
            b in states[j + 1].c.blocks && states[j + 1].c.blocks[b].addr == ip
  {
    var e := events[i];
    BehaviourOk(states, events, i);
    FetchFinds(states[i], states[i + 1], t, ip, e.index, e.b, e.nb);
    OthersKeepAll(states, events, i + 1, j, t, e.b);
    assert LinkStep(states[j], states[j + 1], t);
  }

  /** A chain of patched jumps. */
  ghost predicate JumpPath(c: Cache, path: seq<Id>) {
    forall k :: 0 <= k < |path| - 1 ==> Follows(c, path[k], 0, path[k + 1]) || Follows(c, path[k], 1, path[k + 1])
  }

  /** In every interleaving, whatever a running thread holds, and whatever it can reach from
      there through patched jumps, is still allocated. */
  lemma {:induction false} NeverReachesFreed(states: seq<System>, events: seq<Event>, n: nat, t: Thread,
                                             path: seq<Id>, k: nat)
    requires Behaviour(states, events) && n < |states| && AliasFree(states, events, n) && t in states[n].threads
    requires k < |path| && Holds(states[n].threads[t], path[0]) && JumpPath(states[n].c, path)
    ensures path[k] in states[n].c.blocks
  {
    var s := states[n];
    BehaviourOk(states, events, n);
    assert LocalOk(s, t);
    if k > 0 {
      NeverReachesFreed(states, events, n, t, path, k - 1);
      FollowAllocated(s.c, path[k - 1], if Follows(s.c, path[k - 1], 0, path[k]) then 0 else 1, path[k]);
    }
  }

  /** In every interleaving, every slot of a live block holds its original guest address or
      a live block translated from that address, which lists it as a predecessor. */
  lemma LinksStayExact(states: seq<System>, events: seq<Event>, n: nat, b: Id, i: nat)
    requires Behaviour(states, events) && n < |states| && AliasFree(states, events, n) && i < 2
    requires Live(states[n].c, b) && b in LayerOf(states[n].c, i).slot
    ensures var c, l := states[n].c, LayerOf(states[n].c, i);
            && i < |c.blocks[b].ips| && c.blocks[b].ips[i].Some?
            && (l.slot[b] == Unlinked(c.blocks[b].ips[i].value)
                || exists t :: l.slot[b] == Linked(t) && Live(c, t) && c.blocks[t].addr == c.blocks[b].ips[i].value
                               && t in l.from && b in l.from[t])
  {
    BehaviourOk(states, events, n);
    var c := states[n].c;
    assert SlotOk(LayerOf(c, i), c.blocks, c.dead, i, b);
  }
}
