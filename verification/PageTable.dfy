/** The two-level page table of one address space (kernel/memory.c).

    A directory of 1024 slots points to tables of 1024 entries, allocated on first use and
    never given back.  Traversals skip the slots that have no table.  Every method is tied
    to the flat table of CopyOnWrite, in which all address spaces are one map. */
module PageTable {
  import opened Lists
  import opened CopyOnWrite

  const PGDIR_SIZE: nat := 1024
  const BAD_PAGE: nat := 0x10000

  /** What every operation on a memory guarantees about its part of the table: it bumps the
      counter, or it only adds entries. */
  ghost predicate Announced(pt: map<Place, Entry>, changes: nat, pt': map<Place, Entry>, changes': nat, m: Mem) {
    || changes' > changes
    || (changes' == changes && forall x :: x in pt && x.mem == m ==> x in pt' && pt'[x] == pt[x])
  }

  class Memory {
    const id: Mem
    var pgdir: seq<Option<seq<Option<Entry>>>>
    var changes: nat   // bumped so that TLBs notice a change
    /** The flat table of all address spaces, of which `pgdir` holds this one's part. */
    ghost var flat: map<Place, Entry>

    ghost predicate Shaped()
      reads this`pgdir
    {
      && |pgdir| == PGDIR_SIZE
      && forall i :: 0 <= i < PGDIR_SIZE && pgdir[i].Some? ==> |pgdir[i].value| == PGDIR_SIZE
    }

    /** mem_pt. */
    function At(page: nat): Option<Entry>
      requires Shaped() && page < MEM_PAGES
      reads this`pgdir
    {
      if pgdir[page / 1024].None? then None else pgdir[page / 1024].value[page % 1024]
    }

    ghost predicate InStep(page: nat)
      requires Shaped() && page < MEM_PAGES
      reads this`pgdir, this`flat
    {
      At(page) == if Place(id, page) in flat then Some(flat[Place(id, page)]) else None
    }

    ghost predicate Valid()
      reads this`pgdir, this`flat
    {
      Shaped() && forall p {:trigger InStep(p)} :: 0 <= p < MEM_PAGES ==> InStep(p)
    }

    constructor (id: Mem, ghost flat: map<Place, Entry>)
      requires forall x :: x in flat ==> x.mem != id
      ensures Valid() && this.id == id && changes == 0 && this.flat == flat
    {
      this.id := id;
      changes := 0;
      pgdir := seq(PGDIR_SIZE, _ => None);
      this.flat := flat;
    }

    /** mem_pt_new and the stores into the entry it returns. */
    method Set(page: nat, e: Entry)
      requires Valid() && page < MEM_PAGES
      modifies this`pgdir, this`flat
      ensures Valid() && flat == old(flat)[Place(id, page) := e]
    {
      var top, bottom := page / 1024, page % 1024;
      if pgdir[top].None? {
        pgdir := pgdir[top := Some(seq(PGDIR_SIZE, _ => None))];
      }
      pgdir := pgdir[top := Some(pgdir[top].value[bottom := Some(e)])];
      flat := flat[Place(id, page) := e];
      forall p | 0 <= p < MEM_PAGES ensures InStep(p) {
        assert old(InStep(p));
        assert p != page ==> p / 1024 != top || p % 1024 != bottom;
      }
    }

    /** mem_pt_del. */
    method Delete(page: nat)
      requires Valid() && page < MEM_PAGES
      modifies this`pgdir, this`flat
      ensures Valid() && flat == old(flat) - {Place(id, page)}
    {
      var top, bottom := page / 1024, page % 1024;
      if pgdir[top].Some? {
        pgdir := pgdir[top := Some(pgdir[top].value[bottom := None])];
      }
      flat := flat - {Place(id, page)};
      forall p | 0 <= p < MEM_PAGES ensures InStep(p) {
        assert old(InStep(p));
        assert p != page ==> p / 1024 != top || p % 1024 != bottom;
      }
    }

    /** mem_next_page: nothing is mapped on the pages skipped. */
    method NextPage(page: nat) returns (next: nat)
      requires Valid() && page < MEM_PAGES
      ensures page < next <= MEM_PAGES
      ensures forall p :: page < p < next ==> Place(id, p) !in flat
    {
      next := page + 1;
      while next < MEM_PAGES && pgdir[next / 1024].None?
        invariant page < next <= MEM_PAGES
        invariant forall p :: page < p < next ==> Place(id, p) !in flat
        decreases MEM_PAGES - next
      {
        var top := next / 1024;
        ghost var skipped := next;
        next := next - next % 1024 + PGDIR_SIZE;
        forall p | skipped <= p < next ensures Place(id, p) !in flat {
          assert p / 1024 == top;
          assert InStep(p);
        }
      }
    }

    /** Drop the mapping of a page, if any, and with the last reference its object. */
    method DropPage(page: nat, heap: map<Id, Data>) returns (heap': map<Id, Data>)
      requires Valid() && page < MEM_PAGES
      requires Place(id, page) in flat ==> flat[Place(id, page)].data in heap
      modifies this`pgdir, this`flat
      ensures Valid() && State(heap', flat) == UnmapPage(State(heap, old(flat)), Place(id, page))
    {
      assert InStep(page);
      if At(page).None? {
        return heap;
      }
      var d := At(page).value.data;
      Delete(page);
      heap' := heap[d := heap[d].(refcount := heap[d].refcount - 1)];
      if heap'[d].refcount == 0 {
        heap' := heap' - {d};
      }
      assert heap' == UnmapPage(State(heap, old(flat)), Place(id, page)).heap;
    }

    /** pt_unmap_always, skipping holes, is the page-by-page unmapping. */
    method UnmapAlways(start: nat, pages: nat, heap: map<Id, Data>) returns (heap': map<Id, Data>)
      requires Valid() && start + pages <= MEM_PAGES && Inv(State(heap, flat))
      modifies this`pgdir, this`flat, this`changes
      ensures Valid() && changes == old(changes) + 1
      ensures Announced(old(flat), old(changes), flat, changes, id)
      ensures State(heap', flat) == Unmap(State(heap, old(flat)), id, start, pages)
    {
      heap' := heap;
      var page, end := start, start + pages;
      while page < end
        invariant Valid() && Inv(State(heap', flat)) && changes == old(changes)
        invariant Unmap(State(heap', flat), id, page, if page <= end then end - page else 0)
                  == Unmap(State(heap, old(flat)), id, start, pages)
        decreases end - page
      {
        ghost var x := Place(id, page);
        UnmapPageOk(State(heap', flat), x, {});
        assert x in flat ==> EntryOk(State(heap', flat), x);
        heap' := DropPage(page, heap');
        ghost var from := page + 1;
        page := NextPage(page);
        UnmapSkips(State(heap', flat), id, from, end - from, (if page <= end then page else end) - from);
      }
      changes := changes + 1;
    }

    /** The body of pt_map's loop. */
    method MapOver(page: nat, e: Entry, heap: map<Id, Data>) returns (heap': map<Id, Data>)
      requires Valid() && page < MEM_PAGES
      requires Place(id, page) in flat ==> flat[Place(id, page)].data in heap
      requires e.data in UnmapPage(State(heap, flat), Place(id, page)).heap
      modifies this`pgdir, this`flat, this`changes
      ensures Valid()
      ensures State(heap', flat) == MapPage(UnmapPage(State(heap, old(flat)), Place(id, page)), Place(id, page), e)
      ensures changes == old(changes) + if Place(id, page) in old(flat) then 1 else 0
    {
      assert InStep(page);
      if At(page).Some? {
        changes := changes + 1;
      }
      var h := DropPage(page, heap);
      heap' := h[e.data := h[e.data].(refcount := h[e.data].refcount + 1)];
      Set(page, e);
    }

    /** The loop of pt_map, for an object just created. */
    method MapPages(start: nat, pages: nat, d: Id, offset: nat, flags: Flags, heap: map<Id, Data>)
      returns (heap': map<Id, Data>)
      requires Valid() && start + pages <= MEM_PAGES
      requires Mapping(State(heap, flat), id, start, pages, d, offset, 0, {d})
      modifies this`pgdir, this`flat, this`changes
      ensures Valid()
      ensures State(heap', flat) == MapFrom(State(heap, old(flat)), id, start, pages, d, offset, flags, 0)
      ensures changes >= old(changes)
      ensures changes == old(changes) ==> forall x :: x in old(flat) ==> x in flat && flat[x] == old(flat)[x]
    {
      heap' := heap;
      ghost var extra := {d};
      for k := 0 to pages
        invariant Valid() && changes >= old(changes)
        invariant Mapping(State(heap', flat), id, start, pages, d, offset, k, extra)
        invariant MapFrom(State(heap', flat), id, start, pages, d, offset, flags, k) ==
                  MapFrom(State(heap, old(flat)), id, start, pages, d, offset, flags, 0)
        invariant changes == old(changes) ==> forall x :: x in old(flat) ==> x in flat && flat[x] == old(flat)[x]
      {
        heap' := MapNext(start, pages, d, offset, flags, heap', k, extra);
        extra := {};
      }
    }

    /** One turn of the loop of pt_map. */
    method MapNext(start: nat, pages: nat, d: Id, offset: nat, flags: Flags, heap: map<Id, Data>, k: nat,
                   ghost extra: set<Id>)
      returns (heap': map<Id, Data>)
      requires Valid() && start + pages <= MEM_PAGES && k < pages
      requires Mapping(State(heap, flat), id, start, pages, d, offset, k, extra)
      modifies this`pgdir, this`flat, this`changes
      ensures Valid()
      ensures Mapping(State(heap', flat), id, start, pages, d, offset, k + 1, {})
      ensures MapFrom(State(heap', flat), id, start, pages, d, offset, flags, k + 1)
              == MapFrom(State(heap, old(flat)), id, start, pages, d, offset, flags, k)
      ensures changes >= old(changes)
      ensures changes == old(changes) ==> forall x :: x in old(flat) ==> x in flat && flat[x] == old(flat)[x]
    {
      ghost var s, x := State(heap, flat), Place(id, start + k);
      MapFromStep(s, id, start, pages, d, offset, flags, k, extra);
      assert x in flat ==> EntryOk(s, x);
      heap' := MapOver(start + k, Entry(d, k * PAGE_SIZE + offset, flags), heap);
    }

    /** pt_map.  A mapping that lands in a hole leaves the change counter alone. */
    method Map(start: nat, pages: nat, d: Id, bytes: seq<nat>, offset: nat, flags: Flags, heap: map<Id, Data>)
      returns (heap': map<Id, Data>)
      requires Valid() && pages >= 1 && start + pages <= MEM_PAGES && Inv(State(heap, flat))
      requires d !in heap && |bytes| == pages * PAGE_SIZE + offset
      modifies this`pgdir, this`flat, this`changes
      ensures Valid()
      ensures State(heap', flat) == CopyOnWrite.Map(State(heap, old(flat)), id, start, pages, d, bytes, offset, flags)
      ensures changes == old(changes) ==> forall x :: x in old(flat) ==> x in flat && flat[x] == old(flat)[x]
      ensures Announced(old(flat), old(changes), flat, changes, id)
    {
      NewObjectOk(State(heap, flat), d, bytes);
      heap' := MapPages(start, pages, d, offset, flags, heap[d := Data(bytes, 0)]);
    }

    /** pt_copy_on_write, skipping the source's holes.  `flat` is the same table for both. */
    method CopyInto(dst: Memory, start: nat, pages: nat, heap: map<Id, Data>) returns (heap': map<Id, Data>)
      requires Valid() && dst.Valid() && dst.id != id && dst.flat == flat
      requires start + pages <= MEM_PAGES && Inv(State(heap, flat))
      modifies this`pgdir, this`flat, this`changes, dst`pgdir, dst`flat, dst`changes
      ensures Valid() && dst.Valid() && dst.flat == flat
      ensures State(heap', flat) == Fork(State(heap, old(flat)), id, dst.id, start, pages)
      ensures changes == old(changes) + 1 && dst.changes > old(dst.changes)
      ensures Announced(old(flat), old(changes), flat, changes, id)
      ensures Announced(old(flat), old(dst.changes), flat, dst.changes, dst.id)
    {
      heap' := heap;
      var page, end := start, start + pages;
      while page < end
        invariant Valid() && dst.Valid() && dst.flat == flat && Inv(State(heap', flat))
        invariant changes == old(changes) && dst.changes >= old(dst.changes)
        invariant Fork(State(heap', flat), id, dst.id, page, if page <= end then end - page else 0)
                  == Fork(State(heap, old(flat)), id, dst.id, start, pages)
        decreases end - page
      {
        heap' := CopyPage(dst, page, heap');
        ghost var from := page + 1;
        page := NextPage(page);
        ForkSkips(State(heap', flat), id, dst.id, from, end - from, (if page <= end then page else end) - from);
      }
      changes := changes + 1;
      dst.changes := dst.changes + 1;
    }

    /** The body of pt_copy_on_write's loop. */
    method CopyPage(dst: Memory, page: nat, heap: map<Id, Data>) returns (heap': map<Id, Data>)
      requires Valid() && dst.Valid() && dst.id != id && dst.flat == flat
      requires page < MEM_PAGES && Inv(State(heap, flat))
      modifies this`pgdir, this`flat, dst`pgdir, dst`flat, dst`changes
      ensures Valid() && dst.Valid() && dst.flat == flat
      ensures State(heap', flat) == ForkPage(State(heap, old(flat)), Place(id, page), Place(dst.id, page))
      ensures Inv(State(heap', flat)) && dst.changes >= old(dst.changes)
    {
      ghost var x, y := Place(id, page), Place(dst.id, page);
      ForkPageOk(State(heap, flat), x, y);
      assert InStep(page);
      if At(page).None? {
        return heap;
      }
      var e := MarkCow(At(page).value);
      UnmapPageOk(State(heap, flat), y, {});
      assert Unmap(UnmapPage(State(heap, flat), y), dst.id, page + 1, 0) == UnmapPage(State(heap, flat), y);
      var h := dst.UnmapAlways(page, 1, heap);
      assert x in dst.flat && EntryOk(State(h, dst.flat), x);
      heap' := ShareEntry(dst, page, e, h);
    }

    /** Both address spaces get the entry. */
    method ShareEntry(dst: Memory, page: nat, e: Entry, heap: map<Id, Data>) returns (heap': map<Id, Data>)
      requires Valid() && dst.Valid() && dst.id != id && page < MEM_PAGES && e.data in heap
      requires dst.flat == flat - {Place(dst.id, page)}
      modifies this`pgdir, this`flat, dst`pgdir, dst`flat
      ensures Valid() && dst.Valid() && dst.flat == flat
      ensures State(heap', flat)
              == MapPage(State(heap, old(dst.flat)[Place(id, page) := e]), Place(dst.id, page), e)
    {
      heap' := heap[e.data := heap[e.data].(refcount := heap[e.data].refcount + 1)];
      dst.Set(page, e);
      Set(page, e);
      SameSlice(dst);
      assert flat == old(dst.flat)[Place(id, page) := e][Place(dst.id, page) := e];
    }

    /** Bring both views of the flat table together: each address space owns its own part. */
    ghost method SameSlice(dst: Memory)
      requires Valid() && dst.Valid() && dst.id != id
      modifies this`flat, dst`flat
      ensures Valid() && dst.Valid() && dst.flat == flat
      ensures flat == map x | x in old(flat).Keys + old(dst.flat).Keys
                              && (if x.mem == dst.id then x in old(dst.flat) else x in old(flat))
                      :: if x.mem == dst.id then old(dst.flat)[x] else old(flat)[x]
    {
      flat := map x | x in flat.Keys + dst.flat.Keys && (if x.mem == dst.id then x in dst.flat else x in flat)
              :: if x.mem == dst.id then dst.flat[x] else flat[x];
      dst.flat := flat;
      forall p | 0 <= p < MEM_PAGES ensures InStep(p) && dst.InStep(p) {
        assert old(InStep(p)) && old(dst.InStep(p));
      }
    }

    /** pt_set_flags: refused if a page is missing; otherwise every flag of every page of the
        range is overwritten. */
    method SetFlagsOf(start: nat, pages: nat, flags: Flags, ghost heap: map<Id, Data>) returns (ok: bool)
      requires Valid() && start + pages <= MEM_PAGES
      modifies this`pgdir, this`flat, this`changes
      ensures Valid()
      ensures ok <==> forall p :: start <= p < start + pages ==> Place(id, p) in old(flat)
      ensures State(heap, flat) == SetFlags(State(heap, old(flat)), id, start, pages, flags)
      ensures Announced(old(flat), old(changes), flat, changes, id)
    {
      for page := start to start + pages
        invariant forall p :: start <= p < page ==> Place(id, p) in flat
      {
        assert InStep(page);
        if At(page).None? {
          return false;
        }
      }
      for page := start to start + pages
        invariant Valid() && changes == old(changes)
        invariant flat == map x | x in old(flat) ::
                    if InPages(x, id, start, page - start) then old(flat)[x].(flags := flags) else old(flat)[x]
      {
        assert InStep(page);
        Set(page, At(page).value.(flags := flags));
      }
      changes := changes + 1;
      ok := true;
    }

    /** The first half of mem_resolve_fault. */
    method GrowInto(page: nat, d: Id, heap: map<Id, Data>) returns (heap': map<Id, Data>, ok: bool)
      requires Valid() && page < MEM_PAGES && Inv(State(heap, flat)) && d !in heap
      modifies this`pgdir, this`flat, this`changes
      ensures Valid() && State(heap', flat) == GrowStack(State(heap, old(flat)), Place(id, page), d)
      ensures Announced(old(flat), old(changes), flat, changes, id)
      ensures ok <==> Place(id, page) in flat
    {
      heap' := heap;
      assert InStep(page);
      if At(page).Some? {
        return heap, true;
      }
      var p := page + 1;
      while p < MEM_PAGES && At(p).None?
        invariant page < p <= MEM_PAGES
        invariant NextMapped(State(heap, flat), id, page + 1) == NextMapped(State(heap, flat), id, p)
      {
        assert InStep(p);
        p := p + 1;
      }
      if p < MEM_PAGES {
        assert InStep(p);
      }
      if p >= MEM_PAGES || !At(p).value.flags.growsdown {
        return heap, false;
      }
      heap' := Map(page, 1, d, Zeroes(), 0, STACK_FLAGS, heap);
      MapOneShows(State(heap, old(flat)), Place(id, page), d, Zeroes(), STACK_FLAGS);
      ok := true;
    }

    /** The second half of mem_resolve_fault. */
    method CopyForWrite(page: nat, access: Access, d: Id, heap: map<Id, Data>) returns (heap': map<Id, Data>, ok: bool)
      requires Valid() && page < MEM_PAGES && Inv(State(heap, flat)) && d !in heap && Place(id, page) in flat
      modifies this`pgdir, this`flat, this`changes
      ensures Valid() && State(heap', flat) == BreakCow(State(heap, old(flat)), Place(id, page), access, d)
      ensures Announced(old(flat), old(changes), flat, changes, id)
      ensures ok <==> access != Write || old(flat)[Place(id, page)].flags.write
    {
      ghost var s, x := State(heap, flat), Place(id, page);
      assert InStep(page) && EntryOk(s, x);
      var e := At(page).value;
      if access == Read {
        return heap, true;
      }
      var f := if access == PtraceWrite then e.flags.(write := true, cow := true) else e.flags;
      if !f.write {
        return heap, false;
      }
      heap' := heap;
      if f.cow {
        heap' := Map(page, 1, d, heap[e.data].bytes[e.offset..e.offset + PAGE_SIZE], 0, f.(cow := false), heap);
      }
      ok := true;
    }

    /** mem_resolve_fault: on success the page is mapped and, for a write, may be written. */
    method ResolveFault(page: nat, access: Access, d: Id, d2: Id, heap: map<Id, Data>)
      returns (heap': map<Id, Data>, ok: bool)
      requires Valid() && page < MEM_PAGES && Inv(State(heap, flat)) && d !in heap && d2 !in heap && d != d2
      modifies this`pgdir, this`flat, this`changes
      ensures Valid() && State(heap', flat) == Fault(State(heap, old(flat)), Place(id, page), access, d, d2)
      ensures Inv(State(heap', flat)) && Announced(old(flat), old(changes), flat, changes, id)
      ensures ok ==> Place(id, page) in flat && (access != Read ==> Writable(flat[Place(id, page)].flags))
      ensures !ok ==> Place(id, page) !in flat || (access == Write && !flat[Place(id, page)].flags.write)
    {
      ghost var s, x := State(heap, flat), Place(id, page);
      GrowStackOk(s, x, d);
      BreakCowOk(GrowStack(s, x, d), x, access, d2);
      var h;
      h, ok := GrowInto(page, d, heap);
      if !ok {
        return h, false;
      }
      heap', ok := CopyForWrite(page, access, d2, h);
    }

    /** pt_find_hole: the highest run of unmapped pages of that size below the vdso, if any. */
    method FindHole(size: nat) returns (page: nat)
      requires Valid()
      ensures size == 0 ==> page == BAD_PAGE
      ensures page != BAD_PAGE ==> 0x40000 < page && page + size <= 0xf7ffe && IsHole(page, size)
      ensures size >= 1 ==>
                forall q :: 0x40000 < q && q + size <= 0xf7ffe && IsHole(q, size) ==> page != BAD_PAGE && q <= page
    {
      var holeEnd, inHole := 0, false;
      page := 0xf7ffd;
      while page > 0x40000
        invariant 0x40000 <= page <= 0xf7ffd
        invariant inHole ==> page + 1 < holeEnd <= 0xf7ffe && (size >= 1 ==> holeEnd - page - 1 < size)
        invariant inHole ==> forall p :: page < p < holeEnd ==> At(p).None?
        invariant inHole && holeEnd < 0xf7ffe ==> At(holeEnd).Some?
        invariant !inHole && page < 0xf7ffd ==> At(page + 1).Some?
        invariant size >= 1 ==> forall q :: page < q && q + size <= 0xf7ffe ==> !IsHole(q, size)
        decreases page
      {
        if !inHole && At(page).None? {
          inHole := true;
          holeEnd := page + 1;
        }
        if At(page).Some? {
          inHole := false;
        } else if holeEnd - page == size {
          return;
        }
        page := page - 1;
      }
      page := BAD_PAGE;
    }

    ghost predicate IsHole(page: nat, size: nat)
      requires Shaped()
      reads this`pgdir
    {
      forall p :: page <= p < page + size && p < MEM_PAGES ==> At(p).None?
    }
  }
}
