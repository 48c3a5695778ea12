/** The lists behind the code cache (asbestos/asbestos.c, asbestos/gen.c): a growing hash
    table of blocks by guest address, two lists of blocks per guest page, and the loops that
    edit them. */
module BlockTable {
  import opened Lists
  import opened JumpLinks
  import opened CodeCache

  function BucketOf(addr: nat, size: nat): (h: nat)
    requires size > 0
    ensures h < size
  {
    addr % size
  }

  predicate InBucket(lists: seq<seq<Id>>, h: nat, b: Id)
    requires h < |lists|
  {
    b in lists[h]
  }

  /** The hash table holds exactly the live blocks, each in the bucket of its address. */
  ghost predicate HashOk(hash: seq<seq<Id>>, c: Cache) {
    && |hash| > 0
    && forall h, b {:trigger InBucket(hash, h, b)} :: 0 <= h < |hash| ==>
         (InBucket(hash, h, b) <==> Live(c, b) && BucketOf(c.blocks[b].addr, |hash|) == h)
  }

  predicate OnFirst(b: Block, h: nat) {
    PageOf(b.addr) % 1024 == h
  }

  predicate OnSecond(b: Block, h: nat) {
    PageOf(b.addr) != PageOf(EndAddr(b)) && PageOf(EndAddr(b)) % 1024 == h
  }

  /** The page lists hold exactly the live blocks, under their first page and, when they
      spill over, under their last. */
  ghost predicate PagesOk(first: seq<seq<Id>>, second: seq<seq<Id>>, c: Cache) {
    && |first| == PAGE_HASH_SIZE && |second| == PAGE_HASH_SIZE
    && (forall h, b {:trigger InBucket(first, h, b)} :: 0 <= h < PAGE_HASH_SIZE ==>
          (InBucket(first, h, b) <==> Live(c, b) && OnFirst(c.blocks[b], h)))
    && (forall h, b {:trigger InBucket(second, h, b)} :: 0 <= h < PAGE_HASH_SIZE ==>
          (InBucket(second, h, b) <==> Live(c, b) && OnSecond(c.blocks[b], h)))
  }

  predicate DistinctAt(lists: seq<seq<Id>>, h: nat)
    requires h < |lists|
  {
    forall i, j :: 0 <= i < j < |lists[h]| ==> lists[h][i] != lists[h][j]
  }

  /** No list holds a block twice. */
  ghost predicate AllDistinct(lists: seq<seq<Id>>) {
    forall h {:trigger DistinctAt(lists, h)} :: 0 <= h < |lists| ==> DistinctAt(lists, h)
  }

  /** The number of nodes on all lists. */
  function Total(lists: seq<seq<Id>>): nat {
    if lists == [] then 0 else |lists[0]| + Total(lists[1..])
  }

  lemma {:induction false} TotalUpdate(lists: seq<seq<Id>>, h: nat, xs: seq<Id>)
    requires h < |lists|
    ensures Total(lists[h := xs]) + |lists[h]| == Total(lists) + |xs|
  {
    if h > 0 {
      TotalUpdate(lists[1..], h - 1, xs);
      assert lists[h := xs][1..] == lists[1..][h - 1 := xs];
    } else {
      assert lists[h := xs][1..] == lists[1..];
    }
  }

  lemma {:induction false} TotalEmpty(lists: seq<seq<Id>>)
    requires forall h :: 0 <= h < |lists| ==> lists[h] == []
    ensures Total(lists) == 0
  {
    if lists != [] {
      TotalEmpty(lists[1..]);
    }
  }

  lemma {:induction false} TotalSplit(lists: seq<seq<Id>>, i: nat)
    requires i < |lists|
    ensures Total(lists[..i + 1]) == Total(lists[..i]) + |lists[i]|
  {
    if i > 0 {
      TotalSplit(lists[1..], i - 1);
      assert lists[..i + 1][1..] == lists[1..][..i] && lists[..i][1..] == lists[1..][..i - 1];
    }
  }

  /** A list without one of its nodes, at whatever bucket it is. */
  function Removed(lists: seq<seq<Id>>, h: nat, b: Id): seq<seq<Id>>
    requires h < |lists|
  {
    lists[h := Without(lists[h], b)]
  }

  lemma RemovedElements(lists: seq<seq<Id>>, h: nat, b: Id, k: nat, d: Id)
    requires h < |lists| && k < |lists|
    ensures InBucket(Removed(lists, h, b), k, d) <==> InBucket(lists, k, d) && !(k == h && d == b)
  {
    WithoutElements(lists[h], b);
  }

  lemma RemovedAllDistinct(lists: seq<seq<Id>>, h: nat, b: Id)
    requires h < |lists| && AllDistinct(lists)
    ensures AllDistinct(Removed(lists, h, b))
  {
    WithoutElements(lists[h], b);
    forall k | 0 <= k < |lists| ensures DistinctAt(Removed(lists, h, b), k) {
      assert DistinctAt(lists, k) && DistinctAt(lists, h);
    }
  }

  lemma PushDistinct(lists: seq<seq<Id>>, h: nat, b: Id)
    requires h < |lists| && AllDistinct(lists) && b !in lists[h]
    ensures AllDistinct(Pushed(lists, h, b))
  {
    var lists' := Pushed(lists, h, b);
    forall k | 0 <= k < |lists'| ensures DistinctAt(lists', k) {
      assert DistinctAt(lists, k);
    }
  }

  /** One round of fiber_block_disconnect: the loop over the predecessors. */
  method DisconnectLayer(l: Layer, blocks: map<Id, Block>, i: nat, b: Id) returns (r: Layer)
    requires b in l.from
    ensures r == Disconnect(l, blocks, i, b)
  {
    var from := l.from;
    if b in l.slot && l.slot[b].Linked? && l.slot[b].to in from {
      from := from[l.slot[b].to := Without(from[l.slot[b].to], b)];
    }
    ghost var preds := from[b];
    var slot, rest := l.slot, from[b];
    while rest != []
      invariant slot.Keys == l.slot.Keys
      invariant forall p :: p in rest ==> p in preds
      invariant forall p :: p in l.slot ==>
        slot[p] == (if p in preds then Original(blocks, i, p, l.slot[p]) else l.slot[p])
        || (p in rest && slot[p] == l.slot[p])
      decreases |rest|
    {
      var p := rest[0];
      assert p in rest && forall q :: q in rest ==> q == p || q in rest[1..];
      if p in slot {
        slot := slot[p := Original(blocks, i, p, l.slot[p])];
      }
      rest := rest[1..];
    }
    r := Layer(slot, from[b := []]);
  }

  // ------------------------------------------------------------------ translation

  /** One gen_step: the guest bytes it consumed, whether it ended the block, and the guest
      addresses of the jump slots it emitted if it did. */
  datatype Insn = Insn(len: nat, ends: bool, ips: seq<Option<nat>>)

  /** x86 instructions have at most 15 bytes, and decoding one that goes on consumes some. */
  ghost predicate DecodesX86(decode: nat -> Insn) {
    forall a :: decode(a).len <= 15 && |decode(a).ips| == 2 && (!decode(a).ends ==> decode(a).len > 0)
  }

  function At(decode: nat -> Insn, ip: nat, offset: nat): Insn {
    decode((ip + offset) % 0x1_0000_0000)
  }

  /** The instruction at the offset cuts[i] neither ends the block nor leaves less room than an
      instruction needs, and the next one follows it. */
  predicate GoesOn(decode: nat -> Insn, ip: nat, cuts: seq<nat>, i: nat)
    requires i + 1 < |cuts|
  {
    && !At(decode, ip, cuts[i]).ends && cuts[i] < PAGE_SIZE - 15
    && cuts[i + 1] == cuts[i] + At(decode, ip, cuts[i]).len
  }

  /** `cuts` are the offsets of successive instructions. */
  ghost predicate Straight(decode: nat -> Insn, ip: nat, cuts: seq<nat>) {
    && cuts != [] && cuts[0] == 0
    && forall i {:trigger GoesOn(decode, ip, cuts, i)} :: 0 <= i < |cuts| - 1 ==> GoesOn(decode, ip, cuts, i)
  }

  lemma StraightMore(decode: nat -> Insn, ip: nat, cuts: seq<nat>)
    requires Straight(decode, ip, cuts)
    requires var last := cuts[|cuts| - 1]; !At(decode, ip, last).ends && last < PAGE_SIZE - 15
    ensures Straight(decode, ip, cuts + [cuts[|cuts| - 1] + At(decode, ip, cuts[|cuts| - 1]).len])
  {
    var cuts' := cuts + [cuts[|cuts| - 1] + At(decode, ip, cuts[|cuts| - 1]).len];
    forall i | 0 <= i < |cuts'| - 1 ensures GoesOn(decode, ip, cuts', i) {
      assert i < |cuts| - 1 ==> GoesOn(decode, ip, cuts, i);
    }
  }

  /** The block is a straight run of instructions up to the first that ends it, whose slots it
      has, or up to the first offset with too little room left, with no slots. */
  ghost predicate Translates(decode: nat -> Insn, cuts: seq<nat>, b: Block) {
    && Straight(decode, b.addr, cuts)
    && var last := cuts[|cuts| - 1];
       if last >= PAGE_SIZE - 15 then b.len == last && b.ips == [None, None]
       else
         var insn := At(decode, b.addr, last);
         insn.ends && b.len == last + insn.len && b.ips == insn.ips
  }

  lemma EndsHere(decode: nat -> Insn, cuts: seq<nat>, b: Block, insn: Insn)
    requires Straight(decode, b.addr, cuts) && cuts[|cuts| - 1] < PAGE_SIZE - 15
    requires insn == At(decode, b.addr, cuts[|cuts| - 1]) && insn.ends
    requires b.len == cuts[|cuts| - 1] + insn.len && b.ips == insn.ips
    ensures Translates(decode, cuts, b)
  {
  }

  /** fiber_block_compile: the loop stops early enough that the block fits in a page, which
      is the assertion after it. */
  method Compile(ip: nat, decode: nat -> Insn) returns (b: Block, ghost cuts: seq<nat>)
    requires ip < ADDRESS_SPACE && DecodesX86(decode)
    ensures Shape(b) && b.addr == ip && b.len < PAGE_SIZE
    ensures Translates(decode, cuts, b)
    ensures (forall i :: 0 <= i < |cuts| ==> !At(decode, ip, cuts[i]).ends) ==>
              b.len >= PAGE_SIZE - 15 && b.ips == [None, None]
  {
    var len := 0;
    cuts := [0];
    while true
      invariant len < PAGE_SIZE - 15
      invariant Straight(decode, ip, cuts) && cuts[|cuts| - 1] == len
      decreases PAGE_SIZE - len
    {
      var insn := At(decode, ip, len);
      if insn.ends {
        b := Block(ip, len + insn.len, insn.ips);
        EndsHere(decode, cuts, b, insn);
        return;
      }
      StraightMore(decode, ip, cuts);
      len := len + insn.len;
      cuts := cuts + [len];
      if len >= PAGE_SIZE - 15 {
        b := Block(ip, len, [None, None]);
        return;
      }
    }
  }

  ghost function Members(xs: seq<Id>): set<Id> {
    set b | b in xs
  }

  /** Every list, the jetsam too, holds what it should, each block once. */
  ghost predicate TableOk(c: Cache, hash: seq<seq<Id>>, first: seq<seq<Id>>, second: seq<seq<Id>>, jetsam: seq<Id>) {
    && CacheOk(c) && HashOk(hash, c) && PagesOk(first, second, c)
    && AllDistinct(hash) && AllDistinct(first) && AllDistinct(second) && AllDistinct([jetsam])
    && c.dead == Members(jetsam)
  }

  class Asbestos {
    var blocks: map<Id, Block>
    var hash: seq<seq<Id>>
    var first: seq<seq<Id>>
    var second: seq<seq<Id>>
    var jetsam: seq<Id>
    ghost var dead: set<Id>
    var l0: Layer
    var l1: Layer
    var numBlocks: int

    ghost function View(): Cache
      reads this
    {
      Cache(blocks, dead, l0, l1)
    }

    ghost predicate ListsOk()
      reads this
    {
      TableOk(View(), hash, first, second, jetsam)
    }

    /** num_blocks counts the blocks in the table, and a chain has fewer than two on average. */
    ghost predicate Valid()
      reads this
    {
      ListsOk() && numBlocks == Total(hash) < 2 * |hash|
    }

    constructor ()
      ensures Valid() && View() == Cache(map[], {}, Layer(map[], map[]), Layer(map[], map[]))
    {
      TotalEmpty(seq(1024, _ => []));
      blocks, jetsam, dead, l0, l1, numBlocks := map[], [], {}, Layer(map[], map[]), Layer(map[], map[]), 0;
      hash := seq(1024, _ => []);
      first := seq(1024, _ => []);
      second := seq(1024, _ => []);
    }

    /** fiber_lookup. */
    method Lookup(addr: nat) returns (r: Option<Id>)
      requires Valid()
      ensures r.Some? ==> Live(View(), r.value) && blocks[r.value].addr == addr
      ensures r.None? ==> forall b :: Live(View(), b) ==> blocks[b].addr != addr
    {
      var h := BucketOf(addr, |hash|);
      var bucket := hash[h];
      for i := 0 to |bucket|
        invariant forall j :: 0 <= j < i ==> bucket[j] in blocks && blocks[bucket[j]].addr != addr
      {
        assert InBucket(hash, h, bucket[i]);
        if blocks[bucket[i]].addr == addr {
          return Some(bucket[i]);
        }
      }
      forall b | Live(View(), b) ensures blocks[b].addr != addr {
        assert blocks[b].addr == addr ==> InBucket(hash, h, b);
      }
      r := None;
    }

    /** fiber_resize_hash. */
    method ResizeHash(newSize: nat)
      requires ListsOk() && newSize > 0
      modifies this`hash
      ensures ListsOk() && |hash| == newSize && Total(hash) == Total(old(hash))
    {
      ghost var c := View();
      var table, newHash: seq<seq<Id>> := hash, seq(newSize, _ => []);
      ghost var moved: set<Id> := {};
      TotalEmpty(newHash);
      for i := 0 to |table|
        invariant MovedOk(newHash, newSize, moved, c) && AllDistinct(newHash)
        invariant Total(newHash) == Total(table[..i])
        invariant forall b :: b in moved <==> Live(c, b) && BucketOf(c.blocks[b].addr, |table|) < i
      {
        var bucket := table[i];
        for k := 0 to |bucket|
          invariant MovedOk(newHash, newSize, moved, c) && AllDistinct(newHash)
          invariant Total(newHash) == Total(table[..i]) + k
          invariant forall b :: b in moved <==>
            Live(c, b) && (BucketOf(c.blocks[b].addr, |table|) < i || b in bucket[..k])
        {
          var b := bucket[k];
          assert InBucket(table, i, b) && DistinctAt(table, i);
          assert forall d :: d in bucket[..k + 1] <==> d in bucket[..k] || d == b;
          var h := BucketOf(blocks[b].addr, newSize);
          MovedMore(newHash, newSize, moved, c, b, h);
          TotalUpdate(newHash, h, [b] + newHash[h]);
          newHash := Pushed(newHash, h, b);
          moved := moved + {b};
        }
        forall b | Live(c, b) ensures BucketOf(c.blocks[b].addr, |table|) == i <==> b in bucket {
          assert InBucket(table, i, b) <==> b in bucket;
        }
        assert bucket[..|bucket|] == bucket;
        TotalSplit(table, i);
      }
      assert table[..|table|] == table;
      hash := newHash;
      assert View() == c;
    }

    /** The part of fiber_insert that adds to the lists. */
    method AddToLists(b: Id, nb: Block)
      requires |hash| > 0 && |first| == |second| == 1024
      modifies this`hash, this`first, this`second
      ensures hash == Pushed(old(hash), BucketOf(nb.addr, |old(hash)|), b)
      ensures first == Pushed(old(first), PageOf(nb.addr) % 1024, b)
      ensures second == PushedSecond(old(second), b, nb)
    {
      hash := Pushed(hash, BucketOf(nb.addr, |hash|), b);
      first := Pushed(first, PageOf(nb.addr) % 1024, b);
      if PageOf(nb.addr) != PageOf(EndAddr(nb)) {
        second := Pushed(second, PageOf(EndAddr(nb)) % 1024, b);
      }
    }

    method AddToTable(b: Id, nb: Block)
      requires ListsOk() && b !in blocks && Shape(nb)
      requires forall d :: Live(View(), d) ==> blocks[d].addr != nb.addr
      modifies this`blocks, this`hash, this`first, this`second, this`l0, this`l1
      ensures ListsOk() && View() == AddBlock(old(View()), b, nb)
      ensures |hash| == |old(hash)| && Total(hash) == Total(old(hash)) + 1
    {
      ghost var c, h := View(), BucketOf(nb.addr, |hash|);
      InsertedOk(c, b, nb, hash, first, second, jetsam);
      TotalUpdate(hash, h, [b] + hash[h]);
      AddToLists(b, nb);
      blocks, l0, l1 := blocks[b := nb], Add(l0, b, nb.ips[0]), Add(l1, b, nb.ips[1]);
      assert View() == AddBlock(c, b, nb);
    }

    /** fiber_insert, for a block just translated. */
    method Insert(b: Id, nb: Block)
      requires Valid() && b !in blocks && Shape(nb)
      requires forall d :: Live(View(), d) ==> blocks[d].addr != nb.addr
      modifies this
      ensures Valid()
      ensures View() == AddBlock(old(View()), b, nb)
    {
      numBlocks := numBlocks + 1;
      if numBlocks >= |hash| * 2 {
        ResizeHash(|hash| * 2);
      }
      AddToTable(b, nb);
    }

    /** The first locked section of the dispatch loop, past the private cache. */
    method Fetch(ip: nat, decode: nat -> Insn, malloc: Id) returns (b: Id)
      requires Valid() && ip < ADDRESS_SPACE && DecodesX86(decode) && malloc !in blocks
      modifies this
      ensures Valid() && Live(View(), b) && blocks[b].addr == ip
      ensures View() == old(View())
              || (b == malloc && Shape(blocks[b]) && View() == AddBlock(old(View()), b, blocks[b])
                  && (exists cuts :: Translates(decode, cuts, blocks[b]))
                  && forall d :: Live(old(View()), d) ==> old(blocks)[d].addr != ip)
    {
      var found := Lookup(ip);
      if found.Some? {
        return found.value;
      }
      ghost var cuts;
      var nb;
      nb, cuts := Compile(ip, decode);
      Insert(malloc, nb);
      return malloc;
    }

    /** The part of fiber_block_disconnect that takes a block off its lists. */
    method RemoveFromLists(b: Id, nb: Block)
      requires |hash| > 0 && |first| == |second| == 1024
      modifies this`hash, this`first, this`second
      ensures hash == Removed(old(hash), BucketOf(nb.addr, |old(hash)|), b)
      ensures first == Removed(old(first), PageOf(nb.addr) % 1024, b)
      ensures second == Removed(old(second), PageOf(EndAddr(nb)) % 1024, b)
    {
      hash := Removed(hash, BucketOf(nb.addr, |hash|), b);
      first := Removed(first, PageOf(nb.addr) % 1024, b);
      second := Removed(second, PageOf(EndAddr(nb)) % 1024, b);
    }

    /** fiber_block_disconnect and the move to the jetsam list, for a live block. */
    method DiscardBlock(b: Id)
      requires Valid() && Live(View(), b)
      modifies this
      ensures Valid()
      ensures b in old(l0).from && b in old(l1).from && View() == Discard(old(View()), b)
      ensures first == Removed(old(first), PageOf(blocks[b].addr) % 1024, b)
      ensures second == Removed(old(second), PageOf(EndAddr(blocks[b])) % 1024, b)
    {
      ghost var c := View();
      DiscardedOk(c, b, hash, first, second, jetsam);
      assert InBucket(hash, BucketOf(blocks[b].addr, |hash|), b);
      RemovedTotal(hash, BucketOf(blocks[b].addr, |hash|), b);
      numBlocks := numBlocks - 1;
      RemoveFromLists(b, blocks[b]);
      l0 := DisconnectLayer(l0, blocks, 0, b);
      l1 := DisconnectLayer(l1, blocks, 1, b);
      jetsam, dead := [b] + jetsam, dead + {b};
      assert View() == Discard(c, b);
    }

    /** The loop of asbestos_invalidate_range over one page list: each turn takes the head
        off the list. */
    method DrainFirst(h: nat) returns (ghost bs: seq<Id>)
      requires Valid() && h < PAGE_HASH_SIZE
      modifies this
      ensures Valid() && blocks == old(blocks) && DiscardsTo(old(View()), bs, View())
      ensures forall b :: b in bs ==> Live(old(View()), b) && OnFirst(blocks[b], h)
      ensures forall b :: Live(View(), b) ==> !OnFirst(blocks[b], h)
    {
      bs := [];
      while first[h] != []
        invariant Valid() && blocks == old(blocks) && DiscardsTo(old(View()), bs, View())
        invariant forall b :: b in bs ==> Live(old(View()), b) && OnFirst(blocks[b], h)
        decreases |first[h]|
      {
        var b := first[h][0];
        assert InBucket(first, h, b);
        WithoutShorter(first[h], b);
        DiscardsMore(old(View()), bs, View(), b);
        DiscardBlock(b);
        bs := bs + [b];
      }
      forall b | Live(View(), b) ensures !OnFirst(blocks[b], h) {
        assert !InBucket(first, h, b);
      }
    }

    method DrainSecond(h: nat) returns (ghost bs: seq<Id>)
      requires Valid() && h < PAGE_HASH_SIZE
      modifies this
      ensures Valid() && blocks == old(blocks) && DiscardsTo(old(View()), bs, View())
      ensures forall b :: b in bs ==> Live(old(View()), b) && OnSecond(blocks[b], h)
      ensures forall b :: Live(View(), b) ==> !OnSecond(blocks[b], h)
    {
      bs := [];
      while second[h] != []
        invariant Valid() && blocks == old(blocks) && DiscardsTo(old(View()), bs, View())
        invariant forall b :: b in bs ==> Live(old(View()), b) && OnSecond(blocks[b], h)
        decreases |second[h]|
      {
        var b := second[h][0];
        assert InBucket(second, h, b);
        WithoutShorter(second[h], b);
        DiscardsMore(old(View()), bs, View(), b);
        DiscardBlock(b);
        bs := bs + [b];
      }
      forall b | Live(View(), b) ensures !OnSecond(blocks[b], h) {
        assert !InBucket(second, h, b);
      }
    }

    /** asbestos_invalidate_range: the blocks it discards are exactly those indexed under a
        page of the range, and afterwards nothing findable has a byte there. */
    method InvalidateRange(start: nat, end: nat) returns (ghost bs: seq<Id>)
      requires Valid()
      modifies this
      ensures Valid() && blocks == old(blocks)
      ensures DiscardsTo(old(View()), bs, View())
      ensures forall b :: b in bs <==> Hit(old(View()), b, start, end)
      ensures forall b, k, page :: Live(View(), b) && start <= page < end ==> !ByteOn(blocks[b], k, page)
    {
      ghost var c := View();
      bs := [];
      var page := start;
      while page < end
        invariant start <= page && (page <= end || page == start)
        invariant Valid() && blocks == old(blocks) && DiscardsTo(c, bs, View())
        invariant forall b :: b in bs <==> Hit(c, b, start, page)
      {
        ghost var m0 := View();
        ghost var xs := DrainFirst(page % 1024);
        ghost var m1 := View();
        ghost var ys := DrainSecond(page % 1024);
        HitStep(c, bs, m0, xs, m1, ys, View(), start, page);
        bs := bs + xs + ys;
        page := page + 1;
      }
      forall b, k, page | Live(View(), b) && start <= page < end ensures !ByteOn(blocks[b], k, page) {
        InvalidationComplete(c, bs, start, end, b, k, page);
      }
    }

    /** The patch in cpu_step_to_interrupt. */
    method PatchJump(last: Id, b: Id)
      requires Valid() && b in blocks
      modifies this
      ensures View() == PatchJumps(old(View()), last, b)
      ensures Valid() <==> (MayPatch(old(View()), last, b) ==> Unaliased(old(View()), last, b))
    {
      PatchJumpsIff(View(), last, b);
      assert forall d :: d in jetsam <==> d in dead;
      if last in blocks && last !in jetsam && b !in jetsam {
        l0, l1 := Patch(l0, last, b, blocks[b].addr), Patch(l1, last, b, blocks[b].addr);
      }
      assert View() == PatchJumps(old(View()), last, b);
      SameListsOk(old(View()), View(), hash, first, second);
    }

    /** fiber_free_jetsam. */
    method FreeAllJetsam()
      requires Valid()
      modifies this
      ensures Valid() && View() == FreeJetsam(old(View())) && jetsam == []
    {
      ghost var c := View();
      FreedOk(c, hash, first, second, jetsam);
      blocks, l0, l1 := FreeList(jetsam, blocks, l0, l1);
      jetsam, dead := [], {};
      assert View() == FreeJetsam(c);
    }
  }

  /** What has been moved so far is where it belongs. */
  ghost predicate MovedOk(lists: seq<seq<Id>>, size: nat, moved: set<Id>, c: Cache) {
    && size > 0 && |lists| == size && (forall b :: b in moved ==> Live(c, b))
    && forall h, b {:trigger InBucket(lists, h, b)} :: 0 <= h < size ==>
         (InBucket(lists, h, b) <==> b in moved && BucketOf(c.blocks[b].addr, size) == h)
  }

  lemma MovedMore(lists: seq<seq<Id>>, size: nat, moved: set<Id>, c: Cache, b: Id, h: nat)
    requires MovedOk(lists, size, moved, c) && AllDistinct(lists) && Live(c, b) && b !in moved
    requires h == BucketOf(c.blocks[b].addr, size)
    ensures MovedOk(Pushed(lists, h, b), size, moved + {b}, c) && AllDistinct(Pushed(lists, h, b))
  {
    assert !InBucket(lists, h, b);
    PushDistinct(lists, h, b);
    var lists' := Pushed(lists, h, b);
    forall k, d | 0 <= k < size
      ensures InBucket(lists', k, d) <==> d in moved + {b} && BucketOf(c.blocks[d].addr, size) == k
    {
      PushElements(lists, h, b, k, d);
      assert InBucket(lists, k, d) ==> d in moved;
    }
  }

  lemma {:induction false} DistinctCount(xs: seq<Id>)
    requires Distinct(xs)
    ensures |Members(xs)| == |xs|
  {
    if xs != [] {
      assert xs[0] !in Members(xs[1..]);
      DistinctCount(xs[1..]);
      assert Members(xs) == Members(xs[1..]) + {xs[0]};
    }
  }

  lemma JetsamMore(jetsam: seq<Id>, b: Id, dead: set<Id>)
    requires AllDistinct([jetsam]) && dead == Members(jetsam) && b !in dead
    ensures AllDistinct([[b] + jetsam]) && Members([b] + jetsam) == dead + {b}
  {
    PushDistinct([jetsam], 0, b);
    assert Pushed([jetsam], 0, b) == [[b] + jetsam];
  }

  lemma FreeMore(l: Layer, gone: set<Id>, b: Id)
    ensures Free(Free(l, gone), {b}) == Free(l, gone + {b})
  {
    assert (l.slot - gone) - {b} == l.slot - (gone + {b});
    assert (l.from - gone) - {b} == l.from - (gone + {b});
  }

  /** The loop of fiber_free_jetsam. */
  method FreeList(jetsam: seq<Id>, blocks: map<Id, Block>, l0: Layer, l1: Layer)
    returns (blocks': map<Id, Block>, l0': Layer, l1': Layer)
    ensures var gone := Members(jetsam);
            blocks' == blocks - gone && l0' == Free(l0, gone) && l1' == Free(l1, gone)
  {
    blocks', l0', l1' := blocks, l0, l1;
    ghost var gone: set<Id> := {};
    for i := 0 to |jetsam|
      invariant gone == Members(jetsam[..i])
      invariant blocks' == blocks - gone && l0' == Free(l0, gone) && l1' == Free(l1, gone)
    {
      assert jetsam[..i + 1] == jetsam[..i] + [jetsam[i]];
      FreeMore(l0, gone, jetsam[i]);
      FreeMore(l1, gone, jetsam[i]);
      blocks' := blocks' - {jetsam[i]};
      l0', l1' := Free(l0', {jetsam[i]}), Free(l1', {jetsam[i]});
      gone := gone + {jetsam[i]};
    }
    assert jetsam[..|jetsam|] == jetsam;
  }

  lemma FreedOk(c: Cache, hash: seq<seq<Id>>, first: seq<seq<Id>>, second: seq<seq<Id>>, jetsam: seq<Id>)
    requires TableOk(c, hash, first, second, jetsam)
    ensures TableOk(FreeJetsam(c), hash, first, second, [])
  {
    FreeJetsamOk(c);
    assert forall b :: Live(FreeJetsam(c), b) <==> Live(c, b);
    assert DistinctAt([[]], 0);
  }

  /** As many blocks are gone as were on the list: none of them is freed twice. */
  lemma FreedOnce(c: Cache, jetsam: seq<Id>)
    requires c.dead <= c.blocks.Keys && AllDistinct([jetsam]) && c.dead == Members(jetsam)
    ensures |FreeJetsam(c).blocks| == |c.blocks| - |jetsam|
  {
    assert DistinctAt([jetsam], 0);
    DistinctCount(jetsam);
    assert c.blocks.Keys == (c.blocks - c.dead).Keys + c.dead;
    assert |(c.blocks - c.dead).Keys| == |c.blocks - c.dead| && |c.blocks.Keys| == |c.blocks|;
  }

  ghost predicate DiscardsTo(c: Cache, bs: seq<Id>, c': Cache) {
    && CacheOk(c)
    && (forall i :: 0 <= i < |bs| ==> bs[i] in c.blocks)
    && c' == DiscardAll(c, bs)
  }

  lemma DiscardsAppend(c: Cache, xs: seq<Id>, m: Cache, ys: seq<Id>, c': Cache)
    requires DiscardsTo(c, xs, m) && DiscardsTo(m, ys, c')
    ensures DiscardsTo(c, xs + ys, c')
  {
    assert m.blocks == c.blocks by { DiscardAllOk(c, xs); }
    DiscardAllAppend(c, xs, ys);
  }

  /** Draining both lists of a page's bucket extends an invalidation by that page. */
  lemma HitStep(c: Cache, bs: seq<Id>, m0: Cache, xs: seq<Id>, m1: Cache, ys: seq<Id>, m2: Cache, start: nat, page: nat)
    requires DiscardsTo(c, bs, m0) && DiscardsTo(m0, xs, m1) && DiscardsTo(m1, ys, m2) && start <= page
    requires forall b :: b in bs <==> Hit(c, b, start, page)
    requires forall b :: b in xs ==> Live(m0, b) && OnFirst(m0.blocks[b], page % 1024)
    requires forall b :: b in ys ==> Live(m1, b) && OnSecond(m1.blocks[b], page % 1024)
    requires forall b :: Live(m1, b) ==> !OnFirst(m1.blocks[b], page % 1024)
    requires forall b :: Live(m2, b) ==> !OnSecond(m2.blocks[b], page % 1024)
    ensures DiscardsTo(c, bs + xs + ys, m2)
    ensures forall b :: b in bs + xs + ys <==> Hit(c, b, start, page + 1)
  {
    DiscardAllOk(c, bs);
    DiscardAllOk(m0, xs);
    DiscardAllOk(m1, ys);
    DiscardsAppend(c, bs, m0, xs, m1);
    DiscardsAppend(c, bs + xs, m1, ys, m2);
    forall b ensures b in bs + xs + ys <==> Hit(c, b, start, page + 1) {
      if b in xs || b in ys {
        assert Live(c, b) && Indexed(c.blocks[b], page);
      }
      if Hit(c, b, start, page + 1) && b !in bs {
        var p :| start <= p < page + 1 && Indexed(c.blocks[b], p);
        assert p == page;
        assert Live(m0, b);
      }
    }
  }

  lemma DiscardsMore(c: Cache, bs: seq<Id>, m: Cache, b: Id)
    requires DiscardsTo(c, bs, m) && b in m.blocks
    ensures b in m.l0.from && b in m.l1.from && DiscardsTo(c, bs + [b], Discard(m, b))
    ensures b !in m.dead ==> Live(c, b)
  {
    DiscardAllOk(c, bs);
    DiscardOk(m, b);
    assert [b][1..] == [];
    DiscardsAppend(c, bs, m, [b], Discard(m, b));
  }

  lemma {:induction false} WithoutShorter(xs: seq<Id>, x: Id)
    ensures |Without(xs, x)| <= |xs| && (x in xs ==> |Without(xs, x)| < |xs|)
    ensures Distinct(xs) && x in xs ==> |Without(xs, x)| == |xs| - 1
  {
    if xs != [] {
      WithoutShorter(xs[1..], x);
      if xs[0] == x && Distinct(xs) {
        WithoutElements(xs[1..], x);
      }
    }
  }

  lemma RemovedTotal(lists: seq<seq<Id>>, h: nat, b: Id)
    requires h < |lists| && AllDistinct(lists) && InBucket(lists, h, b)
    ensures Total(Removed(lists, h, b)) == Total(lists) - 1
  {
    assert DistinctAt(lists, h);
    WithoutShorter(lists[h], b);
    TotalUpdate(lists, h, Without(lists[h], b));
  }

  lemma SameListsOk(c: Cache, c': Cache, hash: seq<seq<Id>>, first: seq<seq<Id>>, second: seq<seq<Id>>)
    requires HashOk(hash, c) && PagesOk(first, second, c) && c'.blocks == c.blocks && c'.dead == c.dead
    ensures HashOk(hash, c') && PagesOk(first, second, c')
  {
    assert forall b :: Live(c', b) <==> Live(c, b);
  }

  lemma PushElements(lists: seq<seq<Id>>, h: nat, b: Id, k: nat, d: Id)
    requires h < |lists| && k < |lists|
    ensures InBucket(Pushed(lists, h, b), k, d) <==> InBucket(lists, k, d) || (k == h && d == b)
  {
  }

  /** The lists with a new block at the front of those it belongs to. */
  function Pushed(lists: seq<seq<Id>>, h: nat, b: Id): seq<seq<Id>>
    requires h < |lists|
  {
    lists[h := [b] + lists[h]]
  }

  function PushedSecond(lists: seq<seq<Id>>, b: Id, nb: Block): seq<seq<Id>>
    requires |lists| == 1024
  {
    if PageOf(nb.addr) != PageOf(EndAddr(nb)) then Pushed(lists, PageOf(EndAddr(nb)) % 1024, b) else lists
  }

  lemma InsertedOk(c: Cache, b: Id, nb: Block, hash: seq<seq<Id>>, first: seq<seq<Id>>, second: seq<seq<Id>>,
                   jetsam: seq<Id>)
    requires TableOk(c, hash, first, second, jetsam) && b !in c.blocks && Shape(nb)
    requires forall d :: Live(c, d) ==> c.blocks[d].addr != nb.addr
    ensures TableOk(AddBlock(c, b, nb), Pushed(hash, BucketOf(nb.addr, |hash|), b),
                    Pushed(first, PageOf(nb.addr) % 1024, b), PushedSecond(second, b, nb), jetsam)
  {
    AddBlockOk(c, b, nb);
    InsertedLists(c, b, nb, hash, first, second);
    var h, p, q := BucketOf(nb.addr, |hash|), PageOf(nb.addr) % 1024, PageOf(EndAddr(nb)) % 1024;
    assert !InBucket(hash, h, b) && !InBucket(first, p, b) && !InBucket(second, q, b);
    PushDistinct(hash, h, b);
    PushDistinct(first, p, b);
    PushDistinct(second, q, b);
  }

  lemma InsertedLists(c: Cache, b: Id, nb: Block, hash: seq<seq<Id>>, first: seq<seq<Id>>, second: seq<seq<Id>>)
    requires HashOk(hash, c) && PagesOk(first, second, c) && b !in c.blocks && b !in c.dead && |nb.ips| == 2
    ensures HashOk(Pushed(hash, BucketOf(nb.addr, |hash|), b), AddBlock(c, b, nb))
    ensures PagesOk(Pushed(first, PageOf(nb.addr) % 1024, b), PushedSecond(second, b, nb), AddBlock(c, b, nb))
  {
    var c', hash' := AddBlock(c, b, nb), Pushed(hash, BucketOf(nb.addr, |hash|), b);
    var first', second' := Pushed(first, PageOf(nb.addr) % 1024, b), PushedSecond(second, b, nb);
    forall h, d | 0 <= h < |hash'|
      ensures InBucket(hash', h, d) <==> Live(c', d) && BucketOf(c'.blocks[d].addr, |hash'|) == h
    {
      PushElements(hash, BucketOf(nb.addr, |hash|), b, h, d);
      assert InBucket(hash, h, d) ==> d != b;
    }
    forall h, d | 0 <= h < PAGE_HASH_SIZE
      ensures InBucket(first', h, d) <==> Live(c', d) && OnFirst(c'.blocks[d], h)
      ensures InBucket(second', h, d) <==> Live(c', d) && OnSecond(c'.blocks[d], h)
    {
      PushElements(first, PageOf(nb.addr) % 1024, b, h, d);
      PushElements(second, PageOf(EndAddr(nb)) % 1024, b, h, d);
      assert InBucket(first, h, d) ==> d != b;
      assert InBucket(second, h, d) ==> d != b;
    }
  }

  lemma DiscardedOk(c: Cache, b: Id, hash: seq<seq<Id>>, first: seq<seq<Id>>, second: seq<seq<Id>>, jetsam: seq<Id>)
    requires TableOk(c, hash, first, second, jetsam) && Live(c, b)
    ensures b in c.l0.from && b in c.l1.from
    ensures TableOk(Discard(c, b), Removed(hash, BucketOf(c.blocks[b].addr, |hash|), b),
                    Removed(first, PageOf(c.blocks[b].addr) % 1024, b),
                    Removed(second, PageOf(EndAddr(c.blocks[b])) % 1024, b), [b] + jetsam)
  {
    DiscardOk(c, b);
    DiscardedLists(c, b, hash, first, second);
    RemovedAllDistinct(hash, BucketOf(c.blocks[b].addr, |hash|), b);
    RemovedAllDistinct(first, PageOf(c.blocks[b].addr) % 1024, b);
    RemovedAllDistinct(second, PageOf(EndAddr(c.blocks[b])) % 1024, b);
    JetsamMore(jetsam, b, c.dead);
  }

  lemma DiscardedLists(c: Cache, b: Id, hash: seq<seq<Id>>, first: seq<seq<Id>>, second: seq<seq<Id>>)
    requires HashOk(hash, c) && PagesOk(first, second, c) && Live(c, b) && b in c.l0.from && b in c.l1.from
    ensures HashOk(Removed(hash, BucketOf(c.blocks[b].addr, |hash|), b), Discard(c, b))
    ensures PagesOk(Removed(first, PageOf(c.blocks[b].addr) % 1024, b),
                    Removed(second, PageOf(EndAddr(c.blocks[b])) % 1024, b), Discard(c, b))
  {
    var c', nb := Discard(c, b), c.blocks[b];
    var hash' := Removed(hash, BucketOf(nb.addr, |hash|), b);
    var first' := Removed(first, PageOf(nb.addr) % 1024, b);
    var second' := Removed(second, PageOf(EndAddr(nb)) % 1024, b);
    forall h, d | 0 <= h < |hash'|
      ensures InBucket(hash', h, d) <==> Live(c', d) && BucketOf(c'.blocks[d].addr, |hash'|) == h
    {
      RemovedElements(hash, BucketOf(nb.addr, |hash|), b, h, d);
      assert InBucket(hash, h, d) ==> Live(c, d);
    }
    forall h, d | 0 <= h < PAGE_HASH_SIZE
      ensures InBucket(first', h, d) <==> Live(c', d) && OnFirst(c'.blocks[d], h)
      ensures InBucket(second', h, d) <==> Live(c', d) && OnSecond(c'.blocks[d], h)
    {
      RemovedElements(first, PageOf(nb.addr) % 1024, b, h, d);
      RemovedElements(second, PageOf(EndAddr(nb)) % 1024, b, h, d);
      assert InBucket(first, h, d) ==> Live(c, d);
      assert InBucket(second, h, d) ==> Live(c, d);
    }
  }
}
