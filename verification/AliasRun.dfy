/** A run of the code cache in which the jump patcher (asbestos/asbestos.c:208-225) takes a link
    for a guest address. */
module AliasRun {
  import opened Lists
  import opened JumpLinks
  import opened CodeCache

  /** Some run without an alias leads here. */
  ghost predicate Reached(s: System) {
    exists states, events :: Behaviour(states, events) && AliasFree(states, events, |events|) && states[|events|] == s
  }

  lemma ReachNext(s: System, e: Event, s': System)
    requires Reached(s) && Step(s, e, s') && !MeetsAlias(s, e)
    ensures Reached(s')
  {
    var states, events :| Behaviour(states, events) && AliasFree(states, events, |events|) && states[|events|] == s;
    var states', events' := states + [s'], events + [e];
    forall k | 0 <= k < |events'|
      ensures Step(states'[k], events'[k], states'[k + 1]) && !MeetsAlias(states'[k], events'[k])
    {
      assert k < |events| ==> !MeetsAlias(states[k], events[k]);
    }
    assert Behaviour(states', events') && AliasFree(states', events', |events'|);
  }

  function Running(c: Cache, cache: map<nat, Id>, fetched: Option<Id>, last: Option<Id>): System {
    System(c, map[0 := Local(cache, fetched, last, {})], None)
  }

  lemma ReachFetch(c: Cache, cache: map<nat, Id>, last: Option<Id>, ip: nat, b: Id, nb: Block, c': Cache)
    requires Reached(Running(c, cache, None, last)) && ip !in cache
    requires b !in c.blocks && Shape(nb) && nb.addr == ip && c' == AddBlock(c, b, nb)
    requires forall d :: Live(c, d) ==> c.blocks[d].addr != ip
    ensures Reached(Running(c', cache[ip := b], Some(b), last))
  {
    ReachNext(Running(c, cache, None, last), Fetch(0, ip, ip, b, nb), Running(c', cache[ip := b], Some(b), last));
  }

  lemma ReachLink(c: Cache, cache: map<nat, Id>, b: Id, last: Option<Id>, c': Cache)
    requires Reached(Running(c, cache, Some(b), last)) && b in c.blocks
    requires last.Some? ==> Unaliased(c, last.value, b)
    requires c' == if last.Some? then PatchJumps(c, last.value, b) else c
    ensures Reached(Running(c', cache, None, Some(b)))
  {
    ReachNext(Running(c, cache, Some(b), last), Link(0), Running(c', cache, None, Some(b)));
  }

  const A: Id := 0x1000
  const B: Id := 0x2000
  const D: Id := 0x3000
  const BlockA := Block(7, 5, [Some(99), Some(0x20b8)])
  const BlockB := Block(99, 1, [None, None])
  const BlockD := Block(0x20b8, 1, [None, None])

  function EmptyCache(): Cache { Cache(map[], {}, Layer(map[], map[]), Layer(map[], map[])) }

  function OneBlock(): Cache {
    Cache(map[A := BlockA], {}, Layer(map[A := Unlinked(99)], map[A := []]),
          Layer(map[A := Unlinked(0x20b8)], map[A := []]))
  }

  function TwoBlocks(slot: Slot, from: seq<Id>): Cache {
    Cache(map[A := BlockA, B := BlockB], {}, Layer(map[A := slot], map[A := [], B := from]),
          Layer(map[A := Unlinked(0x20b8)], map[A := [], B := []]))
  }

  function ThreeBlocks(): Cache {
    Cache(map[A := BlockA, B := BlockB, D := BlockD], {}, Layer(map[A := Linked(B)], map[A := [], B := [A], D := []]),
          Layer(map[A := Unlinked(0x20b8)], map[A := [], B := [], D := []]))
  }

  lemma CachesFollow()
    ensures OneBlock() == AddBlock(EmptyCache(), A, BlockA)
    ensures TwoBlocks(Unlinked(99), []) == AddBlock(OneBlock(), B, BlockB)
    ensures TwoBlocks(Linked(B), [A]) == PatchJumps(TwoBlocks(Unlinked(99), []), A, B)
    ensures TwoBlocks(Linked(B), [A]) == PatchJumps(TwoBlocks(Linked(B), [A]), B, A)
    ensures ThreeBlocks() == AddBlock(TwoBlocks(Linked(B), [A]), D, BlockD)
  {
    assert [A] + [] == [A];
  }

  /** The run: block A is translated and entered, then block B, then A again. */
  lemma ReachFirst()
    ensures Reached(Running(OneBlock(), map[7 := A], None, Some(A)))
  {
    var start := System(EmptyCache(), map[], None);
    assert Behaviour([start], []) && AliasFree([start], [], 0) && [start][0] == start;
    ReachNext(start, Enter(0), Running(EmptyCache(), map[], None, None));
    CachesFollow();
    ReachFetch(EmptyCache(), map[], None, 7, A, BlockA, OneBlock());
    ReachLink(OneBlock(), map[7 := A], A, None, OneBlock());
  }

  lemma ReachSecond(m: map<nat, Id>)
    requires m == map[7 := A][99 := B]
    ensures Reached(Running(TwoBlocks(Linked(B), [A]), m, None, Some(B)))
  {
    ReachFirst();
    CachesFollow();
    ReachFetch(OneBlock(), map[7 := A], Some(A), 99, B, BlockB, TwoBlocks(Unlinked(99), []));
    ReachLink(TwoBlocks(Unlinked(99), []), m, B, Some(A), TwoBlocks(Linked(B), [A]));
  }

  lemma ReachAgain(c: Cache, m: map<nat, Id>)
    requires c == TwoBlocks(Linked(B), [A]) && m == map[7 := A][99 := B]
    ensures Reached(Running(c, m, None, Some(A)))
  {
    ReachSecond(m);
    ReachNext(Running(c, m, None, Some(B)), Fetch(0, 7, 7, A, BlockA), Running(c, m, Some(A), Some(B)));
    CachesFollow();
    ReachLink(c, m, A, Some(B), c);
  }

  lemma ReachedOk(s: System)
    requires Reached(s)
    ensures SystemOk(s)
  {
    var states, events :| Behaviour(states, events) && AliasFree(states, events, |events|) && states[|events|] == s;
    BehaviourOk(states, events, |events|);
  }

  lemma AliasStep(s: System, s': System, m: map<nat, Id>)
    requires s == Running(ThreeBlocks(), m, Some(D), Some(A))
    requires s' == Running(PatchJumps(ThreeBlocks(), A, D), m, None, Some(D))
    ensures Step(s, Link(0), s') && MeetsAlias(s, Link(0))
    ensures s'.c.blocks == s.c.blocks && A in s'.c.l0.slot && s'.c.l0.slot[A] == Linked(D)
  {
  }

  /** One thread runs block A, at 7, and block B, at 99, and jumps from A to 0x20b8, a guest
      address that the host address of B's code ends in.  The patcher redirects A's jump to 99
      as well. */
  lemma AliasMet() returns (s: System, s': System)
    ensures Reached(s) && Step(s, Link(0), s') && MeetsAlias(s, Link(0)) && !SystemOk(s')
    ensures A in s'.c.l0.slot && s'.c.l0.slot[A] == Linked(D) && A in s'.c.blocks && D in s'.c.blocks
    ensures |s'.c.blocks[A].ips| == 2 && s'.c.blocks[A].ips[0] != Some(s'.c.blocks[D].addr)
  {
    var c, m := TwoBlocks(Linked(B), [A]), map[7 := A][99 := B];
    ReachAgain(c, m);
    CachesFollow();
    ReachFetch(c, m, Some(A), 0x20b8, D, BlockD, ThreeBlocks());
    s := Running(ThreeBlocks(), m[0x20b8 := D], Some(D), Some(A));
    s' := Running(PatchJumps(ThreeBlocks(), A, D), m[0x20b8 := D], None, Some(D));
    AliasStep(s, s', m[0x20b8 := D]);
    ReachedOk(s);
    StepOkIff(s, Link(0), s');
  }
}
