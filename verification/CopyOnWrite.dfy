/** Guest memory as shared, reference-counted backing objects (kernel/memory.c).

    A page-table entry names a backing object, an offset in it and flags.  fork copies
    entries and marks both sides copy-on-write; the first write to such a page gives the
    writer its own object.  The tables of all address spaces are one map from places
    (address space, page) to entries.  Each call made under a memory's write lock is one
    step. */
module CopyOnWrite {

  type Id = nat    // a struct data
  type Mem = nat   // a struct mem

  const PAGE_SIZE: nat := 4096
  const MEM_PAGES: nat := 0x10_0000

  datatype Flags = Flags(read: bool, write: bool, exec: bool, growsdown: bool, cow: bool, anonymous: bool, shared: bool)

  predicate Writable(f: Flags) {
    f.write && !f.cow
  }

  datatype Place = Place(mem: Mem, page: nat)
  datatype Entry = Entry(data: Id, offset: nat, flags: Flags)
  /** A struct data with the host memory it owns. */
  datatype Data = Data(bytes: seq<nat>, refcount: int)

  datatype State = State(heap: map<Id, Data>, pt: map<Place, Entry>)

  // ------------------------------------------------------------------ invariants

  ghost function Refs(s: State, d: Id): set<Place> {
    set x | x in s.pt && s.pt[x].data == d
  }

  /** An object's count is the number of entries that refer to it, and it is released with
      the last of them.  `extra` is an object being mapped, which may have none yet. */
  ghost predicate CountOk(s: State, extra: set<Id>, d: Id) {
    && d in s.heap
    && s.heap[d].refcount == |Refs(s, d)|
    && (d in extra || s.heap[d].refcount > 0)
  }

  predicate EntryOk(s: State, x: Place) {
    && x in s.pt && s.pt[x].data in s.heap
    && s.pt[x].offset + PAGE_SIZE <= |s.heap[s.pt[x].data].bytes|
  }

  ghost predicate RefsOk(s: State, extra: set<Id>) {
    && (forall d {:trigger CountOk(s, extra, d)} :: d in s.heap ==> CountOk(s, extra, d))
    && (forall x {:trigger EntryOk(s, x)} :: x in s.pt ==> EntryOk(s, x))
  }

  /** Two entries that show the same host bytes. */
  predicate Alias(a: Entry, b: Entry) {
    a.data == b.data && a.offset < b.offset + PAGE_SIZE && b.offset < a.offset + PAGE_SIZE
  }

  /** What can be written through one of two aliases, the other one shares. */
  predicate PairOk(a: Entry, b: Entry) {
    Alias(a, b) ==> (Writable(a.flags) ==> b.flags.shared) && (Writable(b.flags) ==> a.flags.shared)
  }

  predicate PlacesOk(s: State, x: Place, y: Place) {
    x in s.pt && y in s.pt ==> x == y || PairOk(s.pt[x], s.pt[y])
  }

  ghost predicate Exclusive(s: State) {
    forall x, y {:trigger PlacesOk(s, x, y)} :: PlacesOk(s, x, y)
  }

  ghost predicate Inv(s: State) {
    RefsOk(s, {}) && Exclusive(s)
  }

  // ------------------------------------------------------------------ one page at a time

  /** Drop the entry at `x`, and its object with the last reference. */
  function UnmapPage(s: State, x: Place): State {
    if x !in s.pt || s.pt[x].data !in s.heap then s
    else
      var d := s.pt[x].data;
      var n := s.heap[d].refcount - 1;
      State(if n == 0 then s.heap - {d} else s.heap[d := s.heap[d].(refcount := n)], s.pt - {x})
  }

  /** Add a reference from the unmapped place `x`. */
  function MapPage(s: State, x: Place, e: Entry): State
    requires e.data in s.heap
  {
    State(s.heap[e.data := s.heap[e.data].(refcount := s.heap[e.data].refcount + 1)], s.pt[x := e])
  }

  lemma UnmapPageOk(s: State, x: Place, extra: set<Id>)
    requires RefsOk(s, extra) && Exclusive(s) && (x in s.pt ==> s.pt[x].data !in extra)
    ensures RefsOk(UnmapPage(s, x), extra) && Exclusive(UnmapPage(s, x))
    ensures UnmapPage(s, x).pt == s.pt - {x}
    ensures forall d :: d in extra && d in s.heap ==> d in UnmapPage(s, x).heap && UnmapPage(s, x).heap[d] == s.heap[d]
  {
    var s' := UnmapPage(s, x);
    if x in s.pt {
      assert EntryOk(s, x) && CountOk(s, extra, s.pt[x].data);
      var d := s.pt[x].data;
      assert x in Refs(s, d);
      forall k | k in s'.heap ensures CountOk(s', extra, k) {
        assert CountOk(s, extra, k);
        assert Refs(s', k) == if k == d then Refs(s, k) - {x} else Refs(s, k);
      }
      forall y | y in s'.pt ensures EntryOk(s', y) {
        assert EntryOk(s, y);
        if s.pt[y].data == d {
          assert {x, y} <= Refs(s, d) && |{x, y}| == 2;
          SubsetSize({x, y}, Refs(s, d));
        }
      }
      forall y, z ensures PlacesOk(s', y, z) {
        assert PlacesOk(s, y, z);
      }
    } else {
      assert s.pt - {x} == s.pt;
    }
  }

  lemma {:induction false} SubsetSize<T>(a: set<T>, b: set<T>)
    requires a <= b
    ensures |a| <= |b|
    decreases |a|
  {
    if a != {} {
      var x :| x in a;
      SubsetSize(a - {x}, b - {x});
    }
  }

  lemma MapPageOk(s: State, x: Place, e: Entry, extra: set<Id>)
    requires RefsOk(s, extra) && Exclusive(s) && x !in s.pt
    requires e.data in s.heap && e.offset + PAGE_SIZE <= |s.heap[e.data].bytes|
    requires forall y :: y in s.pt ==> PairOk(e, s.pt[y])
    ensures RefsOk(MapPage(s, x, e), extra - {e.data}) && Exclusive(MapPage(s, x, e))
  {
    var s', extra' := MapPage(s, x, e), extra - {e.data};
    forall k | k in s'.heap ensures CountOk(s', extra', k) {
      assert CountOk(s, extra, k);
      assert Refs(s', k) == if k == e.data then Refs(s, k) + {x} else Refs(s, k);
    }
    forall y | y in s'.pt ensures EntryOk(s', y) {
      assert y != x ==> EntryOk(s, y);
    }
    forall y, z ensures PlacesOk(s', y, z) {
      assert y != x && z != x ==> PlacesOk(s, y, z);
    }
  }

  // ------------------------------------------------------------------ pt_map

  /** pt_map from page number `k` of the mapping on. */
  function MapFrom(s: State, m: Mem, start: nat, pages: nat, d: Id, offset: nat, flags: Flags, k: nat): State
    decreases pages - k
  {
    if k >= pages then s
    else
      var x := Place(m, start + k);
      var u := UnmapPage(s, x);
      if d !in u.heap then u
      else MapFrom(MapPage(u, x, Entry(d, k * PAGE_SIZE + offset, flags)), m, start, pages, d, offset, flags, k + 1)
  }

  /** pt_map: the host memory `bytes` becomes the new object `d`. */
  function Map(s: State, m: Mem, start: nat, pages: nat, d: Id, bytes: seq<nat>, offset: nat, flags: Flags): State {
    MapFrom(s.(heap := s.heap[d := Data(bytes, 0)]), m, start, pages, d, offset, flags, 0)
  }

  /** The object being mapped is so far seen only through the pages already done. */
  ghost predicate FreshFrom(s: State, d: Id, limit: nat) {
    forall y :: y in s.pt && s.pt[y].data == d ==> s.pt[y].offset + PAGE_SIZE <= limit
  }

  ghost predicate NotAbove(s: State, d: Id, m: Mem, page: nat) {
    forall y :: y in s.pt && s.pt[y].data == d ==> y.mem == m && y.page < page
  }

  /** The state of pt_map's loop before page number `k`. */
  ghost predicate Mapping(s: State, m: Mem, start: nat, pages: nat, d: Id, offset: nat, k: nat, extra: set<Id>) {
    && RefsOk(s, extra) && Exclusive(s)
    && extra <= {d} && k <= pages && (k > 0 ==> extra == {})
    && d in s.heap && pages * PAGE_SIZE + offset <= |s.heap[d].bytes|
    && FreshFrom(s, d, k * PAGE_SIZE + offset) && NotAbove(s, d, m, start + k)
  }

  lemma MapFromStep(s: State, m: Mem, start: nat, pages: nat, d: Id, offset: nat, flags: Flags, k: nat, extra: set<Id>)
    requires Mapping(s, m, start, pages, d, offset, k, extra) && k < pages
    ensures var x := Place(m, start + k);
            var u, e := UnmapPage(s, x), Entry(d, k * PAGE_SIZE + offset, flags);
            && (x in s.pt ==> s.pt[x].data !in extra)
            && d in u.heap
            && Mapping(MapPage(u, x, e), m, start, pages, d, offset, k + 1, {})
            && MapFrom(s, m, start, pages, d, offset, flags, k) ==
               MapFrom(MapPage(u, x, e), m, start, pages, d, offset, flags, k + 1)
  {
    var x := Place(m, start + k);
    KeepsObject(s, x, d, m, start + k, extra);
    UnmapPageOk(s, x, extra);
    var u, e := UnmapPage(s, x), Entry(d, k * PAGE_SIZE + offset, flags);
    assert (k + 1) * PAGE_SIZE <= pages * PAGE_SIZE;
    MapPageOk(u, x, e, extra);
    assert extra - {d} == {};
  }

  lemma {:induction false} MapFromOk(s: State, m: Mem, start: nat, pages: nat, d: Id, offset: nat, flags: Flags,
                                     k: nat, extra: set<Id>)
    requires Mapping(s, m, start, pages, d, offset, k, extra)
    ensures var s' := MapFrom(s, m, start, pages, d, offset, flags, k);
            RefsOk(s', if k < pages then {} else extra) && Exclusive(s')
    decreases pages - k
  {
    if k < pages {
      MapFromStep(s, m, start, pages, d, offset, flags, k, extra);
      var x := Place(m, start + k);
      var n := MapPage(UnmapPage(s, x), x, Entry(d, k * PAGE_SIZE + offset, flags));
      MapFromOk(n, m, start, pages, d, offset, flags, k + 1, {});
    }
  }

  /** Unmapping a page not yet reached cannot release the object being mapped. */
  lemma KeepsObject(s: State, x: Place, d: Id, m: Mem, page: nat, extra: set<Id>)
    requires RefsOk(s, extra) && d in s.heap && NotAbove(s, d, m, page) && x == Place(m, page)
    ensures d in UnmapPage(s, x).heap && UnmapPage(s, x).heap[d] == s.heap[d]
    ensures x in s.pt ==> s.pt[x].data != d
  {
    assert x in s.pt ==> EntryOk(s, x);
  }

  lemma MapOk(s: State, m: Mem, start: nat, pages: nat, d: Id, bytes: seq<nat>, offset: nat, flags: Flags)
    requires Inv(s) && d !in s.heap && pages >= 1 && pages * PAGE_SIZE + offset <= |bytes|
    ensures Inv(Map(s, m, start, pages, d, bytes, offset, flags))
  {
    var n := s.(heap := s.heap[d := Data(bytes, 0)]);
    NewObjectOk(s, d, bytes);
    MapFromOk(n, m, start, pages, d, offset, flags, 0, {d});
  }

  lemma NewObjectOk(s: State, d: Id, bytes: seq<nat>)
    requires Inv(s) && d !in s.heap
    ensures var n := s.(heap := s.heap[d := Data(bytes, 0)]);
            RefsOk(n, {d}) && Exclusive(n) && FreshFrom(n, d, 0) && forall x :: x in n.pt ==> n.pt[x].data != d
  {
    var n := s.(heap := s.heap[d := Data(bytes, 0)]);
    forall x | x in n.pt ensures EntryOk(n, x) && n.pt[x].data != d {
      assert EntryOk(s, x);
    }
    forall k | k in n.heap ensures CountOk(n, {d}, k) {
      assert k != d ==> CountOk(s, {}, k);
      assert Refs(n, k) == if k == d then {} else Refs(s, k);
    }
    forall x, y ensures PlacesOk(n, x, y) {
      assert PlacesOk(s, x, y);
    }
  }

  // ------------------------------------------------------------------ pt_unmap_always

  function Unmap(s: State, m: Mem, start: nat, pages: nat): State
    decreases pages
  {
    if pages == 0 then s else Unmap(UnmapPage(s, Place(m, start)), m, start + 1, pages - 1)
  }

  lemma {:induction false} UnmapOk(s: State, m: Mem, start: nat, pages: nat)
    requires Inv(s)
    ensures Inv(Unmap(s, m, start, pages))
    decreases pages
  {
    if pages > 0 {
      UnmapPageOk(s, Place(m, start), {});
      UnmapOk(UnmapPage(s, Place(m, start)), m, start + 1, pages - 1);
    }
  }

  // ------------------------------------------------------------------ pt_copy_on_write

  function MarkCow(e: Entry): Entry {
    if e.flags.shared then e else e.(flags := e.flags.(cow := true))
  }

  /** The loop body of pt_copy_on_write for one mapped page of the source. */
  function ForkPage(s: State, x: Place, y: Place): State {
    if x !in s.pt then s
    else
      var u := UnmapPage(s, y);
      if x !in u.pt || u.pt[x].data !in u.heap then u
      else
        var e := MarkCow(u.pt[x]);
        MapPage(u.(pt := u.pt[x := e]), y, e)
  }

  function Fork(s: State, src: Mem, dst: Mem, start: nat, pages: nat): State
    decreases pages
  {
    if pages == 0 then s
    else Fork(ForkPage(s, Place(src, start), Place(dst, start)), src, dst, start + 1, pages - 1)
  }

  lemma MarkCowOk(s: State, x: Place)
    requires Inv(s) && x in s.pt
    ensures Inv(s.(pt := s.pt[x := MarkCow(s.pt[x])]))
  {
    var n := s.(pt := s.pt[x := MarkCow(s.pt[x])]);
    forall d | d in n.heap ensures CountOk(n, {}, d) {
      assert CountOk(s, {}, d);
      assert Refs(n, d) == Refs(s, d);
    }
    forall y | y in n.pt ensures EntryOk(n, y) {
      assert EntryOk(s, y);
    }
    forall y, z ensures PlacesOk(n, y, z) {
      assert PlacesOk(s, y, z);
    }
  }

  lemma ForkPageOk(s: State, x: Place, y: Place)
    requires Inv(s) && x != y
    ensures Inv(ForkPage(s, x, y))
  {
    if x in s.pt {
      UnmapPageOk(s, y, {});
      var u := UnmapPage(s, y);
      assert EntryOk(u, x);
      MarkCowOk(u, x);
      var c, e := u.(pt := u.pt[x := MarkCow(u.pt[x])]), MarkCow(u.pt[x]);
      forall z | z in c.pt ensures PairOk(e, c.pt[z]) {
        assert PlacesOk(c, x, z);
      }
      MapPageOk(c, y, e, {});
      assert {} - {e.data} == {};
    }
  }

  lemma {:induction false} ForkOk(s: State, src: Mem, dst: Mem, start: nat, pages: nat)
    requires Inv(s) && src != dst
    ensures Inv(Fork(s, src, dst, start, pages))
    decreases pages
  {
    if pages > 0 {
      ForkPageOk(s, Place(src, start), Place(dst, start));
      ForkOk(ForkPage(s, Place(src, start), Place(dst, start)), src, dst, start + 1, pages - 1);
    }
  }

  // ------------------------------------------------------------------ what a page shows

  function PageBytes(s: State, x: Place): seq<nat>
    requires EntryOk(s, x)
  {
    s.heap[s.pt[x].data].bytes[s.pt[x].offset..s.pt[x].offset + PAGE_SIZE]
  }

  /** The page at `x` is still there, still private, and shows the same bytes. */
  ghost predicate Kept(s: State, s': State, x: Place) {
    && EntryOk(s, x) && EntryOk(s', x)
    && PageBytes(s', x) == PageBytes(s, x)
    && s'.pt[x].flags.shared == s.pt[x].flags.shared
  }

  lemma UnmapPageKeeps(s: State, x: Place, y: Place, extra: set<Id>)
    requires RefsOk(s, extra) && Exclusive(s) && (x in s.pt ==> s.pt[x].data !in extra) && y in s.pt && x != y
    ensures Kept(s, UnmapPage(s, x), y)
  {
    UnmapPageOk(s, x, extra);
    assert EntryOk(s, y) && EntryOk(UnmapPage(s, x), y);
  }

  lemma MapPageKeeps(s: State, x: Place, e: Entry, y: Place)
    requires e.data in s.heap && EntryOk(s, y) && x != y
    ensures Kept(s, MapPage(s, x, e), y)
  {
  }

  lemma {:induction false} MapFromKeeps(s: State, m: Mem, start: nat, pages: nat, d: Id, offset: nat, flags: Flags,
                                        k: nat, extra: set<Id>, y: Place)
    requires Mapping(s, m, start, pages, d, offset, k, extra)
    requires y in s.pt && !(y.mem == m && start + k <= y.page < start + pages)
    ensures Kept(s, MapFrom(s, m, start, pages, d, offset, flags, k), y)
    decreases pages - k
  {
    assert EntryOk(s, y);
    if k < pages {
      MapFromStep(s, m, start, pages, d, offset, flags, k, extra);
      var x := Place(m, start + k);
      UnmapPageKeeps(s, x, y, extra);
      var u, e := UnmapPage(s, x), Entry(d, k * PAGE_SIZE + offset, flags);
      MapPageKeeps(u, x, e, y);
      MapFromKeeps(MapPage(u, x, e), m, start, pages, d, offset, flags, k + 1, {}, y);
    }
  }

  lemma MapKeeps(s: State, m: Mem, start: nat, pages: nat, d: Id, bytes: seq<nat>, offset: nat, flags: Flags, y: Place)
    requires Inv(s) && d !in s.heap && pages >= 1 && pages * PAGE_SIZE + offset <= |bytes|
    requires y in s.pt && !(y.mem == m && start <= y.page < start + pages)
    ensures Kept(s, Map(s, m, start, pages, d, bytes, offset, flags), y)
  {
    assert EntryOk(s, y);
    NewObjectOk(s, d, bytes);
    MapFromKeeps(s.(heap := s.heap[d := Data(bytes, 0)]), m, start, pages, d, offset, flags, 0, {d}, y);
  }

  predicate InPages(x: Place, m: Mem, start: nat, pages: nat) {
    x.mem == m && start <= x.page < start + pages
  }

  /** What pt_map leaves in the table from page number `k` on, at every place. */
  lemma {:induction false} MapFromTable(s: State, m: Mem, start: nat, pages: nat, d: Id, offset: nat, flags: Flags,
                                        k: nat, extra: set<Id>, y: Place)
    requires Mapping(s, m, start, pages, d, offset, k, extra)
    ensures var s' := MapFrom(s, m, start, pages, d, offset, flags, k);
            && d in s'.heap && s'.heap[d].bytes == s.heap[d].bytes
            && if InPages(y, m, start + k, pages - k) then
                 y in s'.pt && s'.pt[y] == Entry(d, (y.page - start) * PAGE_SIZE + offset, flags)
               else (y in s'.pt <==> y in s.pt) && (y in s.pt ==> s'.pt[y] == s.pt[y])
    decreases pages - k
  {
    if k < pages {
      MapFromStep(s, m, start, pages, d, offset, flags, k, extra);
      var x := Place(m, start + k);
      KeepsObject(s, x, d, m, start + k, extra);
      UnmapPageOk(s, x, extra);
      var n := MapPage(UnmapPage(s, x), x, Entry(d, k * PAGE_SIZE + offset, flags));
      MapFromTable(n, m, start, pages, d, offset, flags, k + 1, {}, y);
    }
  }

  /** The whole table after pt_map: the mapped pages, and only they, have changed. */
  lemma MapTable(s: State, m: Mem, start: nat, pages: nat, d: Id, bytes: seq<nat>, offset: nat, flags: Flags, y: Place)
    requires Inv(s) && d !in s.heap && pages >= 1 && pages * PAGE_SIZE + offset <= |bytes|
    ensures var s' := Map(s, m, start, pages, d, bytes, offset, flags);
            && d in s'.heap && s'.heap[d].bytes == bytes
            && if InPages(y, m, start, pages) then
                 y in s'.pt && s'.pt[y] == Entry(d, (y.page - start) * PAGE_SIZE + offset, flags)
               else (y in s'.pt <==> y in s.pt) && (y in s.pt ==> s'.pt[y] == s.pt[y])
  {
    var n := s.(heap := s.heap[d := Data(bytes, 0)]);
    NewObjectOk(s, d, bytes);
    MapFromTable(n, m, start, pages, d, offset, flags, 0, {d}, y);
  }

  /** Every page of a mapping shows its own part of the memory mapped, with these flags, and the
      object is referred to by these pages alone. */
  lemma MapShows(s: State, m: Mem, start: nat, pages: nat, d: Id, bytes: seq<nat>, offset: nat, flags: Flags, k: nat)
    requires Inv(s) && d !in s.heap && pages * PAGE_SIZE + offset <= |bytes| && k < pages
    ensures var s', x := Map(s, m, start, pages, d, bytes, offset, flags), Place(m, start + k);
            && EntryOk(s', x) && s'.pt[x].flags == flags
            && PageBytes(s', x) == bytes[offset + k * PAGE_SIZE..offset + (k + 1) * PAGE_SIZE]
            && Refs(s', d) == set p | start <= p < start + pages :: Place(m, p)
  {
    var s', x := Map(s, m, start, pages, d, bytes, offset, flags), Place(m, start + k);
    MapOk(s, m, start, pages, d, bytes, offset, flags);
    MapTable(s, m, start, pages, d, bytes, offset, flags, x);
    assert EntryOk(s', x);
    forall y ensures y in Refs(s', d) <==> InPages(y, m, start, pages) {
      MapTable(s, m, start, pages, d, bytes, offset, flags, y);
      assert y in s.pt ==> EntryOk(s, y);
    }
    forall y | y in Refs(s', d) ensures y in set p | start <= p < start + pages :: Place(m, p) {
      assert y == Place(m, y.page);
    }
  }

  lemma {:induction false} UnmapKeeps(s: State, m: Mem, start: nat, pages: nat, y: Place)
    requires Inv(s) && y in s.pt && !(y.mem == m && start <= y.page < start + pages)
    ensures Kept(s, Unmap(s, m, start, pages), y)
    decreases pages
  {
    assert EntryOk(s, y);
    if pages > 0 {
      UnmapPageOk(s, Place(m, start), {});
      UnmapPageKeeps(s, Place(m, start), y, {});
      UnmapKeeps(UnmapPage(s, Place(m, start)), m, start + 1, pages - 1, y);
    }
  }

  /** The whole table after pt_unmap: the pages of the range are gone, and only they. */
  lemma {:induction false} UnmapTable(s: State, m: Mem, start: nat, pages: nat, y: Place)
    requires Inv(s)
    ensures var s' := Unmap(s, m, start, pages);
            && (y in s'.pt <==> y in s.pt && !InPages(y, m, start, pages))
            && (y in s'.pt ==> s'.pt[y] == s.pt[y])
    decreases pages
  {
    if pages > 0 {
      UnmapPageOk(s, Place(m, start), {});
      UnmapTable(UnmapPage(s, Place(m, start)), m, start + 1, pages - 1, y);
    }
  }

  lemma ForkPageKeeps(s: State, x: Place, y: Place, z: Place)
    requires Inv(s) && x != y && z in s.pt && (z == y ==> x !in s.pt)
    ensures Kept(s, ForkPage(s, x, y), z)
  {
    assert EntryOk(s, z);
    if x in s.pt {
      UnmapPageOk(s, y, {});
      UnmapPageKeeps(s, y, z, {});
      assert EntryOk(UnmapPage(s, y), x);
    }
  }

  /** The forked page shows the parent's bytes. */
  lemma ForkPageCopies(s: State, x: Place, y: Place)
    requires Inv(s) && x != y && x in s.pt
    ensures var s' := ForkPage(s, x, y);
            EntryOk(s, x) && EntryOk(s', y) && PageBytes(s', y) == PageBytes(s, x)
            && s'.pt[y].flags.shared == s.pt[x].flags.shared
  {
    assert EntryOk(s, x);
    UnmapPageOk(s, y, {});
    UnmapPageKeeps(s, y, x, {});
  }

  lemma {:induction false} ForkKeeps(s: State, src: Mem, dst: Mem, start: nat, pages: nat, z: Place)
    requires Inv(s) && src != dst && z in s.pt && !(z.mem == dst && start <= z.page < start + pages)
    ensures Kept(s, Fork(s, src, dst, start, pages), z)
    decreases pages
  {
    assert EntryOk(s, z);
    if pages > 0 {
      var x, y := Place(src, start), Place(dst, start);
      ForkPageOk(s, x, y);
      ForkPageKeeps(s, x, y, z);
      ForkKeeps(ForkPage(s, x, y), src, dst, start + 1, pages - 1, z);
    }
  }

  lemma ForkPageTable(s: State, x: Place, y: Place, z: Place)
    requires Inv(s) && x != y
    ensures var s' := ForkPage(s, x, y);
            if x in s.pt && (z == x || z == y) then z in s'.pt && s'.pt[z] == MarkCow(s.pt[x])
            else (z in s'.pt <==> z in s.pt) && (z in s.pt ==> s'.pt[z] == s.pt[z])
  {
    if x in s.pt {
      assert EntryOk(s, x);
      UnmapPageOk(s, y, {});
      assert EntryOk(UnmapPage(s, y), x);
    }
  }

  /** The whole table after pt_copy_on_write, where the parent has the page: both sides have the
      parent's entry, with the same protection, and copy-on-write unless it is shared. */
  lemma {:induction false} ForkTable(s: State, src: Mem, dst: Mem, start: nat, pages: nat, z: Place)
    requires Inv(s) && src != dst
    ensures var s', x := Fork(s, src, dst, start, pages), Place(src, z.page);
            if (z.mem == src || z.mem == dst) && start <= z.page < start + pages && x in s.pt then
              && z in s'.pt && s'.pt[z].data == s.pt[x].data && s'.pt[z].offset == s.pt[x].offset
              && s'.pt[z].flags == s.pt[x].flags.(cow := s.pt[x].flags.cow || !s.pt[x].flags.shared)
            else (z in s'.pt <==> z in s.pt) && (z in s.pt ==> s'.pt[z] == s.pt[z])
    decreases pages
  {
    if pages > 0 {
      var x, y := Place(src, start), Place(dst, start);
      var n := ForkPage(s, x, y);
      ForkPageOk(s, x, y);
      ForkPageTable(s, x, y, z);
      ForkPageTable(s, x, y, Place(src, z.page));
      ForkTable(n, src, dst, start + 1, pages - 1, z);
    }
  }

  /** After a fork the child shows, on every page the parent has, the parent's bytes. */
  lemma {:induction false} ForkCopies(s: State, src: Mem, dst: Mem, start: nat, pages: nat, page: nat)
    requires Inv(s) && src != dst && start <= page < start + pages && Place(src, page) in s.pt
    ensures var s' := Fork(s, src, dst, start, pages);
            EntryOk(s, Place(src, page)) && EntryOk(s', Place(dst, page))
            && PageBytes(s', Place(dst, page)) == PageBytes(s, Place(src, page))
            && s'.pt[Place(dst, page)].flags.shared == s.pt[Place(src, page)].flags.shared
    decreases pages
  {
    var x, y := Place(src, start), Place(dst, start);
    ForkPageOk(s, x, y);
    if page == start {
      ForkPageCopies(s, x, y);
      ForkKeeps(ForkPage(s, x, y), src, dst, start + 1, pages - 1, y);
    } else {
      ForkPageKeeps(s, x, y, Place(src, page));
      ForkCopies(ForkPage(s, x, y), src, dst, start + 1, pages - 1, page);
    }
  }

  // ------------------------------------------------------------------ mem_resolve_fault

  datatype Access = Read | Write | PtraceWrite

  /** The lowest mapped page at or above `page`. */
  function NextMapped(s: State, m: Mem, page: nat): nat
    decreases MEM_PAGES - page
  {
    if page >= MEM_PAGES || Place(m, page) in s.pt then page else NextMapped(s, m, page + 1)
  }

  const STACK_FLAGS := Flags(false, true, false, true, false, true, false)

  function Zeroes(): seq<nat> { seq(PAGE_SIZE, _ => 0) }

  /** The first half of mem_resolve_fault: a stack mapping grows down into the page. */
  function GrowStack(s: State, x: Place, d: Id): State {
    var p := NextMapped(s, x.mem, x.page + 1);
    if x in s.pt || p >= MEM_PAGES || Place(x.mem, p) !in s.pt || !s.pt[Place(x.mem, p)].flags.growsdown then s
    else Map(s, x.mem, x.page, 1, d, Zeroes(), 0, STACK_FLAGS)
  }

  /** The second half: a write to a copy-on-write page gets a copy.  A ptrace write always
      does. */
  function BreakCow(s: State, x: Place, access: Access, d: Id): State {
    if !EntryOk(s, x) || access == Read then s
    else
      var f := s.pt[x].flags;
      var f' := if access == PtraceWrite then f.(write := true, cow := true) else f;
      if !f'.write || !f'.cow then s
      else Map(s, x.mem, x.page, 1, d, PageBytes(s, x), 0, f'.(cow := false))
  }

  function Fault(s: State, x: Place, access: Access, d: Id, d2: Id): State {
    BreakCow(GrowStack(s, x, d), x, access, d2)
  }

  lemma GrowStackOk(s: State, x: Place, d: Id)
    requires Inv(s) && d !in s.heap
    ensures var g := GrowStack(s, x, d);
            Inv(g) && (x in s.pt ==> g == s)
            && (forall y :: y in s.pt ==> Kept(s, g, y))
            && (forall k :: k !in s.heap && k != d ==> k !in g.heap)
  {
    var g := GrowStack(s, x, d);
    forall y | y in s.pt ensures EntryOk(s, y) {}
    if g != s {
      MapOk(s, x.mem, x.page, 1, d, Zeroes(), 0, STACK_FLAGS);
      forall y | y in s.pt ensures Kept(s, g, y) {
        MapKeeps(s, x.mem, x.page, 1, d, Zeroes(), 0, STACK_FLAGS, y);
      }
    }
  }

  /** Mapping one page replaces what is there by exactly the given bytes and flags. */
  lemma MapOneShows(s: State, x: Place, d: Id, bytes: seq<nat>, flags: Flags)
    requires Inv(s) && d !in s.heap && |bytes| == PAGE_SIZE
    ensures var s' := Map(s, x.mem, x.page, 1, d, bytes, 0, flags);
            EntryOk(s', x) && PageBytes(s', x) == bytes && s'.pt == s.pt[x := Entry(d, 0, flags)]
  {
    var s' := Map(s, x.mem, x.page, 1, d, bytes, 0, flags);
    MapShows(s, x.mem, x.page, 1, d, bytes, 0, flags, 0);
    forall y ensures (y in s'.pt <==> y in s.pt || y == x)
      ensures y in s'.pt ==> s'.pt[y] == if y == x then Entry(d, 0, flags) else s.pt[y]
    {
      MapTable(s, x.mem, x.page, 1, d, bytes, 0, flags, y);
    }
  }

  /** The lowest mapped page above `x` is there and belongs to a stack. */
  ghost predicate BelowStack(s: State, x: Place) {
    exists p :: x.page < p < MEM_PAGES && Place(x.mem, p) in s.pt && s.pt[Place(x.mem, p)].flags.growsdown
                && forall q :: x.page < q < p ==> Place(x.mem, q) !in s.pt
  }

  lemma {:induction false} NextMappedIs(s: State, m: Mem, page: nat)
    ensures var p := NextMapped(s, m, page);
            && page <= p && (forall q :: page <= q < p ==> Place(m, q) !in s.pt)
            && (p < MEM_PAGES ==> Place(m, p) in s.pt)
    decreases MEM_PAGES - page
  {
    if page < MEM_PAGES && Place(m, page) !in s.pt {
      NextMappedIs(s, m, page + 1);
    }
  }

  /** A missing page appears exactly if it lies below a stack: zeroed, writable, part of the stack
      itself; nothing else in the table changes. */
  lemma GrowStackShows(s: State, x: Place, d: Id)
    requires Inv(s) && d !in s.heap
    ensures var g := GrowStack(s, x, d);
            if x !in s.pt && BelowStack(s, x) then
              && EntryOk(g, x) && (forall o :: 0 <= o < PAGE_SIZE ==> PageBytes(g, x)[o] == 0)
              && g.pt[x].flags == Flags(false, true, false, true, false, true, false)
              && g.pt == s.pt[x := g.pt[x]]
            else g == s
  {
    var p := NextMapped(s, x.mem, x.page + 1);
    NextMappedIs(s, x.mem, x.page + 1);
    MapOneShows(s, x, d, Zeroes(), STACK_FLAGS);
    if BelowStack(s, x) {
      var q :| x.page < q < MEM_PAGES && Place(x.mem, q) in s.pt && s.pt[Place(x.mem, q)].flags.growsdown
               && forall r :: x.page < r < q ==> Place(x.mem, r) !in s.pt;
      assert p == q;
    }
  }

  /** A write fault on a copy-on-write page, and any ptrace write, gives the page an object of its
      own with the same bytes and flags, writable from then on; nothing else changes, and no other
      access changes anything. */
  lemma BreakCowShows(s: State, x: Place, access: Access, d: Id)
    requires Inv(s) && d !in s.heap
    ensures var b := BreakCow(s, x, access, d);
            if x in s.pt
               && (access == PtraceWrite || (access == Write && s.pt[x].flags.write && s.pt[x].flags.cow)) then
              && EntryOk(s, x) && EntryOk(b, x) && PageBytes(b, x) == PageBytes(s, x)
              && b.pt == s.pt[x := Entry(d, 0, s.pt[x].flags.(write := true, cow := false))] && Refs(b, d) == {x}
            else b == s
  {
    if x in s.pt {
      assert EntryOk(s, x);
      var bytes, f := PageBytes(s, x), s.pt[x].flags.(write := true, cow := false);
      MapOneShows(s, x, d, bytes, f);
      MapShows(s, x.mem, x.page, 1, d, bytes, 0, f, 0);
      assert (set p | x.page <= p < x.page + 1 :: Place(x.mem, p)) == {x} by {
        assert x == Place(x.mem, x.page);
      }
      if access == Write && s.pt[x].flags.write {
        assert s.pt[x].flags.(cow := false) == f;
      }
    }
  }

  /** Copying a page changes what no place shows; the writer's page becomes writable. */
  lemma BreakCowOk(s: State, x: Place, access: Access, d: Id)
    requires Inv(s) && d !in s.heap
    ensures var b := BreakCow(s, x, access, d);
            Inv(b) && (forall y :: y in s.pt ==> Kept(s, b, y))
            && (x in s.pt && access != Read && (s.pt[x].flags.write || access == PtraceWrite)
              ==> Writable(b.pt[x].flags))
  {
    var b := BreakCow(s, x, access, d);
    forall y | y in s.pt ensures EntryOk(s, y) {}
    if x in s.pt && b != s {
      var f := s.pt[x].flags;
      var f' := if access == PtraceWrite then f.(write := true, cow := true) else f;
      var g := f'.(cow := false);
      MapOk(s, x.mem, x.page, 1, d, PageBytes(s, x), 0, g);
      MapOneShows(s, x, d, PageBytes(s, x), g);
      forall y | y in s.pt ensures Kept(s, b, y) {
        if y != x {
          MapKeeps(s, x.mem, x.page, 1, d, PageBytes(s, x), 0, g, y);
        }
      }
    }
  }

  /** A resolved fault.  The page is there afterwards exactly if it was, or lies below a stack; a page
      that was there shows what it did, a new one zeroes.  After a write fault it can be written
      exactly if it is new or was writable but for copy-on-write, after a ptrace write always. */
  lemma FaultResolves(s: State, x: Place, access: Access, d: Id, d2: Id)
    requires Inv(s) && d !in s.heap && d2 !in s.heap && d != d2
    ensures var n := Fault(s, x, access, d, d2);
            && (x in n.pt <==> x in s.pt || BelowStack(s, x))
            && (x in s.pt ==> EntryOk(s, x) && EntryOk(n, x) && PageBytes(n, x) == PageBytes(s, x))
            && (x !in s.pt && x in n.pt ==>
                  EntryOk(n, x) && forall o :: 0 <= o < PAGE_SIZE ==> PageBytes(n, x)[o] == 0)
            && (access == Write && x in n.pt ==>
                  (Writable(n.pt[x].flags) <==> x !in s.pt || s.pt[x].flags.write))
            && (access == PtraceWrite && x in n.pt ==> Writable(n.pt[x].flags) && Refs(n, n.pt[x].data) == {x})
            && (forall y :: y != x ==> (y in n.pt <==> y in s.pt) && (y in s.pt ==> n.pt[y] == s.pt[y]))
  {
    var g := GrowStack(s, x, d);
    GrowStackOk(s, x, d);
    GrowStackShows(s, x, d);
    BreakCowShows(g, x, access, d2);
    assert x in s.pt ==> EntryOk(s, x);
    assert x in g.pt ==> EntryOk(g, x);
  }

  // ------------------------------------------------------------------ guest writes and mprotect

  /** Store a byte through a page that may be written. */
  function WriteByte(s: State, x: Place, o: nat, v: nat): State {
    if !EntryOk(s, x) || !Writable(s.pt[x].flags) || o >= PAGE_SIZE then s
    else
      var d := s.pt[x].data;
      s.(heap := s.heap[d := s.heap[d].(bytes := s.heap[d].bytes[s.pt[x].offset + o := v])])
  }

  /** A write changes one byte of the page written and nothing that any private page shows
      elsewhere, in the same address space or another. */
  lemma WriteIsolated(s: State, x: Place, o: nat, v: nat)
    requires Inv(s)
    ensures var w := WriteByte(s, x, o, v);
            && Inv(w)
            && (forall y :: y in s.pt && y != x && !s.pt[y].flags.shared ==> Kept(s, w, y))
            && (x in s.pt && Writable(s.pt[x].flags) && o < PAGE_SIZE ==>
                  EntryOk(s, x) && EntryOk(w, x) && PageBytes(w, x) == PageBytes(s, x)[o := v])
            && w.pt == s.pt && (!(x in s.pt && Writable(s.pt[x].flags) && o < PAGE_SIZE) ==> w == s)
  {
    var w := WriteByte(s, x, o, v);
    assert x in s.pt ==> EntryOk(s, x);
    forall d | d in w.heap ensures CountOk(w, {}, d) {
      assert CountOk(s, {}, d);
      assert Refs(w, d) == Refs(s, d);
    }
    forall y | y in w.pt ensures EntryOk(w, y) {
      assert EntryOk(s, y);
    }
    forall y, z ensures PlacesOk(w, y, z) {
      assert PlacesOk(s, y, z);
    }
    forall y | y in s.pt && y != x && !s.pt[y].flags.shared ensures Kept(s, w, y) {
      assert PlacesOk(s, x, y) && EntryOk(s, y) && EntryOk(w, y);
    }
  }

  /** pt_set_flags: refused if a page is missing, else all flags of every page are
      overwritten, copy-on-write included. */
  function SetFlags(s: State, m: Mem, start: nat, pages: nat, f: Flags): State {
    if forall p :: start <= p < start + pages ==> Place(m, p) in s.pt then
      s.(pt := map x | x in s.pt :: if InPages(x, m, start, pages) then s.pt[x].(flags := f) else s.pt[x])
    else s
  }

  /** The flags that sys_mprotect passes on: nothing but the protection, so that a page is
      neither copy-on-write nor shared any more. */
  predicate ProtOnly(f: Flags) {
    !f.growsdown && !f.cow && !f.anonymous && !f.shared
  }

  ghost predicate Undisturbed(s: State, x: Place, y: Place, o: nat, v: nat) {
    EntryOk(s, y) && EntryOk(WriteByte(s, x, o, v), y) && PageBytes(WriteByte(s, x, o, v), y) == PageBytes(s, y)
  }

  /** No write through one page changes what a private page shows elsewhere. */
  ghost predicate Isolated(s: State) {
    forall x, y, o, v {:trigger Undisturbed(s, x, y, o, v)} ::
      x != y && y in s.pt && !s.pt[y].flags.shared ==> Undisturbed(s, x, y, o, v)
  }

  /** The invariant is exactly what can be observed. */
  lemma IsolatedIff(s: State)
    requires RefsOk(s, {})
    ensures Isolated(s) <==> Exclusive(s)
  {
    if Exclusive(s) {
      forall x, y, o: nat, v: nat | x != y && y in s.pt && !s.pt[y].flags.shared ensures Undisturbed(s, x, y, o, v) {
        WriteIsolated(s, x, o, v);
        assert Kept(s, WriteByte(s, x, o, v), y);
      }
    }
    if Isolated(s) {
      forall x, y ensures PlacesOk(s, x, y) {
        if x in s.pt && y in s.pt && x != y && Alias(s.pt[x], s.pt[y]) {
          assert EntryOk(s, x) && EntryOk(s, y);
          if Writable(s.pt[x].flags) {
            var o, v := WriteShows(s, x, y);
          }
          if Writable(s.pt[y].flags) {
            var o, v := WriteShows(s, y, x);
          }
        }
      }
    }
  }

  /** Something else written where two pages meet shows in both. */
  lemma WriteShows(s: State, x: Place, y: Place) returns (o: nat, v: nat)
    requires EntryOk(s, x) && EntryOk(s, y) && Alias(s.pt[x], s.pt[y]) && Writable(s.pt[x].flags)
    ensures !Undisturbed(s, x, y, o, v)
  {
    var i, j := s.pt[x].offset, s.pt[y].offset;
    var a := if i <= j then j else i;
    o, v := a - i, s.heap[s.pt[x].data].bytes[a] + 1;
    var w := WriteByte(s, x, o, v);
    assert EntryOk(w, y) && PageBytes(w, y)[a - j] == v && PageBytes(s, y)[a - j] == v - 1;
  }

  /** Nobody who sees a page x of the range is harmed: if x becomes writable, everyone else who
      sees its bytes shares them and goes on doing so, and if x stops being shared, nobody
      outside the range can write to them. */
  ghost predicate MayProtect(s: State, m: Mem, start: nat, pages: nat, f: Flags) {
    forall x, y :: x in s.pt && y in s.pt && x != y && InPages(x, m, start, pages) && Alias(s.pt[x], s.pt[y]) ==>
      && (f.write ==> s.pt[y].flags.shared && !InPages(y, m, start, pages))
      && (InPages(y, m, start, pages) || !Writable(s.pt[y].flags))
  }

  /** After a granted mprotect address spaces are isolated if and only if MayProtect held
      before. */
  lemma ProtectIsolatedIff(s: State, m: Mem, start: nat, pages: nat, f: Flags)
    requires Inv(s) && ProtOnly(f) && forall p :: start <= p < start + pages ==> Place(m, p) in s.pt
    ensures Isolated(SetFlags(s, m, start, pages, f)) <==> MayProtect(s, m, start, pages, f)
  {
    var n := SetFlags(s, m, start, pages, f);
    SetFlagsRefs(s, m, start, pages, f);
    IsolatedIff(n);
    if MayProtect(s, m, start, pages, f) {
      SetFlagsOk(s, m, start, pages, f);
    }
    if Exclusive(n) {
      forall x, y | x in s.pt && y in s.pt && x != y && InPages(x, m, start, pages) && Alias(s.pt[x], s.pt[y])
        ensures f.write ==> s.pt[y].flags.shared && !InPages(y, m, start, pages)
        ensures InPages(y, m, start, pages) || !Writable(s.pt[y].flags)
      {
        assert PlacesOk(n, x, y);
      }
    }
  }

  /** The whole table after mprotect: all flags of the range are overwritten, and nothing else, unless
      a page is missing. */
  lemma SetFlagsTable(s: State, m: Mem, start: nat, pages: nat, f: Flags, y: Place)
    ensures var n := SetFlags(s, m, start, pages, f);
            && n.heap == s.heap && (y in n.pt <==> y in s.pt)
            && (y in s.pt ==> n.pt[y].data == s.pt[y].data && n.pt[y].offset == s.pt[y].offset)
            && (y in s.pt ==>
                  n.pt[y].flags == if InPages(y, m, start, pages)
                                      && forall p :: start <= p < start + pages ==> Place(m, p) in s.pt
                                   then f else s.pt[y].flags)
  {
  }

  lemma SetFlagsRefs(s: State, m: Mem, start: nat, pages: nat, f: Flags)
    requires RefsOk(s, {})
    ensures RefsOk(SetFlags(s, m, start, pages, f), {})
    ensures forall y :: y in s.pt ==>
              EntryOk(s, y) && EntryOk(SetFlags(s, m, start, pages, f), y)
              && PageBytes(SetFlags(s, m, start, pages, f), y) == PageBytes(s, y)
  {
    var n := SetFlags(s, m, start, pages, f);
    forall d | d in n.heap ensures CountOk(n, {}, d) {
      assert CountOk(s, {}, d);
      assert Refs(n, d) == Refs(s, d);
    }
    forall y | y in s.pt ensures EntryOk(s, y) && EntryOk(n, y) && PageBytes(n, y) == PageBytes(s, y) {
      assert EntryOk(s, y);
    }
  }

  lemma SetFlagsOk(s: State, m: Mem, start: nat, pages: nat, f: Flags)
    requires Inv(s) && ProtOnly(f) && MayProtect(s, m, start, pages, f)
    ensures Inv(SetFlags(s, m, start, pages, f))
  {
    var n := SetFlags(s, m, start, pages, f);
    SetFlagsRefs(s, m, start, pages, f);
    forall y, z ensures PlacesOk(n, y, z) {
      assert PlacesOk(s, y, z);
    }
  }

  /** fork, mprotect(PROT_READ | PROT_WRITE) by the child, a write by the child: the parent's
      private page changes. */
  lemma MprotectBreaksIsolation() returns (s: State, forked: State, x: Place, y: Place)
    ensures Inv(s) && forked == Fork(s, 0, 1, 0, 1)
    ensures EntryOk(forked, x) && !forked.pt[x].flags.shared && x.mem == 0 && y.mem == 1
    ensures var rw := Flags(true, true, false, false, false, false, false);
            var w := WriteByte(SetFlags(forked, 1, 0, 1, rw), y, 0, 7);
            EntryOk(w, x) && PageBytes(w, x) != PageBytes(forked, x)
  {
    x, y := Place(0, 0), Place(1, 0);
    var rw := Flags(true, true, false, false, false, false, false);
    s := State(map[5 := Data(Zeroes(), 1)], map[x := Entry(5, 0, rw)]);
    assert Refs(s, 5) == {x};
    assert CountOk(s, {}, 5) && EntryOk(s, x);
    forked := Fork(s, 0, 1, 0, 1);
    assert Fork(ForkPage(s, x, y), 0, 1, 1, 0) == ForkPage(s, x, y);
    var w := WriteByte(SetFlags(forked, 1, 0, 1, rw), y, 0, 7);
    assert PageBytes(w, x)[0] == 7 && PageBytes(forked, x)[0] == 0;
  }

  // ------------------------------------------------------------------ whole runs

  datatype Op =
    | MapOp(m: Mem, start: nat, pages: nat, d: Id, bytes: seq<nat>, offset: nat, flags: Flags)
    | UnmapOp(m: Mem, start: nat, pages: nat)
    | ForkOp(src: Mem, dst: Mem, start: nat, pages: nat)
    | FaultOp(x: Place, access: Access, d: Id, d2: Id)
    | WriteOp(x: Place, o: nat, v: nat)
    | ProtectOp(m: Mem, start: nat, pages: nat, flags: Flags)

  /** Host allocations are new, mappings lie in the address space and have their size, and
      mprotect harms nobody. */
  ghost predicate Enabled(s: State, op: Op) {
    match op
    case MapOp(_, start, pages, d, bytes, offset, _) =>
      d !in s.heap && pages >= 1 && start + pages <= MEM_PAGES && |bytes| == pages * PAGE_SIZE + offset
    case UnmapOp(_, start, pages) => start + pages <= MEM_PAGES
    case ForkOp(src, dst, start, pages) => src != dst && start + pages <= MEM_PAGES
    case FaultOp(_, _, d, d2) => d !in s.heap && d2 !in s.heap && d != d2
    case WriteOp(_, _, _) => true
    case ProtectOp(m, start, pages, f) => ProtOnly(f) && MayProtect(s, m, start, pages, f)
  }

  function Step(s: State, op: Op): State {
    match op
    case MapOp(m, start, pages, d, bytes, offset, flags) => Map(s, m, start, pages, d, bytes, offset, flags)
    case UnmapOp(m, start, pages) => Unmap(s, m, start, pages)
    case ForkOp(src, dst, start, pages) => Fork(s, src, dst, start, pages)
    case FaultOp(x, access, d, d2) => Fault(s, x, access, d, d2)
    case WriteOp(x, o, v) => WriteByte(s, x, o, v)
    case ProtectOp(m, start, pages, f) => SetFlags(s, m, start, pages, f)
  }

  /** Whether the operation is the page's own address space mapping over it, unmapping it or
      writing to it. */
  predicate Touches(op: Op, x: Place) {
    match op
    case MapOp(m, start, pages, _, _, _, _) => x.mem == m && start <= x.page < start + pages
    case UnmapOp(m, start, pages) => x.mem == m && start <= x.page < start + pages
    case ForkOp(_, dst, start, pages) => x.mem == dst && start <= x.page < start + pages
    case FaultOp(_, _, _, _) => false
    case WriteOp(y, _, _) => x == y
    case ProtectOp(_, _, _, _) => false
  }

  lemma StepOk(s: State, op: Op)
    requires Inv(s) && Enabled(s, op)
    ensures Inv(Step(s, op))
  {
    match op
    case MapOp(m, start, pages, d, bytes, offset, flags) => MapOk(s, m, start, pages, d, bytes, offset, flags);
    case UnmapOp(m, start, pages) => UnmapOk(s, m, start, pages);
    case ForkOp(src, dst, start, pages) => ForkOk(s, src, dst, start, pages);
    case FaultOp(x, access, d, d2) =>
      GrowStackOk(s, x, d);
      BreakCowOk(GrowStack(s, x, d), x, access, d2);
    case WriteOp(x, o, v) => WriteIsolated(s, x, o, v);
    case ProtectOp(m, start, pages, f) => SetFlagsOk(s, m, start, pages, f);
  }

  lemma StepKeeps(s: State, op: Op, y: Place)
    requires Inv(s) && Enabled(s, op) && y in s.pt && !s.pt[y].flags.shared && !Touches(op, y)
    ensures Kept(s, Step(s, op), y)
  {
    assert EntryOk(s, y);
    match op
    case MapOp(m, start, pages, d, bytes, offset, flags) => MapKeeps(s, m, start, pages, d, bytes, offset, flags, y);
    case UnmapOp(m, start, pages) => UnmapKeeps(s, m, start, pages, y);
    case ForkOp(src, dst, start, pages) => ForkKeeps(s, src, dst, start, pages, y);
    case FaultOp(x, access, d, d2) =>
      GrowStackOk(s, x, d);
      BreakCowOk(GrowStack(s, x, d), x, access, d2);
      assert Kept(s, GrowStack(s, x, d), y);
    case WriteOp(x, o, v) => WriteIsolated(s, x, o, v);
    case ProtectOp(m, start, pages, f) => SetFlagsRefs(s, m, start, pages, f);
  }

  ghost predicate Run(states: seq<State>, ops: seq<Op>) {
    && |states| == |ops| + 1
    && forall i :: 0 <= i < |ops| ==> Enabled(states[i], ops[i]) && states[i + 1] == Step(states[i], ops[i])
  }

  /** Over every run, reference counts are exact and no entry refers to a released object. */
  lemma {:induction false} RunOk(states: seq<State>, ops: seq<Op>, n: nat)
    requires Run(states, ops) && n < |states| && Inv(states[0])
    ensures Inv(states[n])
  {
    if n > 0 {
      RunOk(states, ops, n - 1);
      StepOk(states[n - 1], ops[n - 1]);
    }
  }

  /** Over every run, a private page shows the same bytes until its own address space
      touches it, whatever all others do. */
  lemma {:induction false} PrivateUntilTouched(states: seq<State>, ops: seq<Op>, n: nat, y: Place)
    requires Run(states, ops) && n < |states| && Inv(states[0])
    requires y in states[0].pt && !states[0].pt[y].flags.shared
    requires forall i :: 0 <= i < n ==> !Touches(ops[i], y)
    ensures Kept(states[0], states[n], y)
  {
    if n > 0 {
      PrivateUntilTouched(states, ops, n - 1, y);
      RunOk(states, ops, n - 1);
      StepKeeps(states[n - 1], ops[n - 1], y);
    } else {
      assert EntryOk(states[0], y);
    }
  }

  /** Copy-on-write isolation.  After a fork, parent and child each go on seeing the bytes
      from before the fork on every private page until they touch it themselves. */
  lemma ForkIsolates(s: State, src: Mem, dst: Mem, start: nat, pages: nat, page: nat, states: seq<State>,
                     ops: seq<Op>, n: nat)
    requires Inv(s) && src != dst && start <= page < start + pages && Place(src, page) in s.pt
    requires !s.pt[Place(src, page)].flags.shared
    requires Run(states, ops) && n < |states| && states[0] == Fork(s, src, dst, start, pages)
    ensures EntryOk(s, Place(src, page))
    ensures (forall i :: 0 <= i < n ==> !Touches(ops[i], Place(dst, page))) ==>
              EntryOk(states[n], Place(dst, page))
                && PageBytes(states[n], Place(dst, page)) == PageBytes(s, Place(src, page))
    ensures (forall i :: 0 <= i < n ==> !Touches(ops[i], Place(src, page))) ==>
              EntryOk(states[n], Place(src, page))
                && PageBytes(states[n], Place(src, page)) == PageBytes(s, Place(src, page))
  {
    var x, y := Place(src, page), Place(dst, page);
    ForkOk(s, src, dst, start, pages);
    ForkCopies(s, src, dst, start, pages, page);
    ForkKeeps(s, src, dst, start, pages, x);
    if forall i :: 0 <= i < n ==> !Touches(ops[i], y) {
      PrivateUntilTouched(states, ops, n, y);
    }
    if forall i :: 0 <= i < n ==> !Touches(ops[i], x) {
      PrivateUntilTouched(states, ops, n, x);
    }
  }

  // ------------------------------------------------------------------ skipping holes

  /** Pages without an entry can be skipped: what mem_next_page relies on. */
  lemma {:induction false} UnmapSkips(s: State, m: Mem, start: nat, pages: nat, k: nat)
    requires k <= pages && forall p :: start <= p < start + k ==> Place(m, p) !in s.pt
    ensures Unmap(s, m, start, pages) == Unmap(s, m, start + k, pages - k)
    decreases k
  {
    if k > 0 {
      assert UnmapPage(s, Place(m, start)) == s;
      UnmapSkips(s, m, start + 1, pages - 1, k - 1);
    }
  }

  lemma {:induction false} ForkSkips(s: State, src: Mem, dst: Mem, start: nat, pages: nat, k: nat)
    requires k <= pages && forall p :: start <= p < start + k ==> Place(src, p) !in s.pt
    ensures Fork(s, src, dst, start, pages) == Fork(s, src, dst, start + k, pages - k)
    decreases k
  {
    if k > 0 {
      assert ForkPage(s, Place(src, start), Place(dst, start)) == s;
      ForkSkips(s, src, dst, start + 1, pages - 1, k - 1);
    }
  }
}
