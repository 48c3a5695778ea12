/** The software TLB in front of the page table (emu/tlb.h, emu/tlb.c).

    A direct-mapped cache of translations, validated only by comparing a change counter:
    the memory's counter has 64 bits, the copy kept with the cache has 32.  Host pointers
    are a backing object and an offset into it. */
module Tlb {
  import opened Lists
  import opened CopyOnWrite
  import opened PageTable

  const ADDRESS_SPACE: nat := 0x1_0000_0000
  const TLB_SIZE: nat := 1024
  const TLB_PAGE_EMPTY: nat := 1

  /** A host pointer; `off` is negative only while a guest address is still to be added. */
  datatype Ptr = Ptr(data: Id, off: int)

  datatype TlbEntry = TlbEntry(page: nat, pageIfWritable: nat, dataMinusAddr: Ptr)

  function PageOf(a: nat): nat { a / 4096 }
  function PageOffset(a: nat): nat { a % 4096 }
  /** TLB_PAGE: the address of the page. */
  function PageAddr(a: nat): nat { a - a % 4096 }

  /** TLB_INDEX. */
  function Index(a: nat): (i: nat)
    requires a < ADDRESS_SPACE
    ensures i < TLB_SIZE
  {
    ((a / 4096 % 1024) as bv10 ^ (a / 4096 / 1024) as bv10) as nat
  }

  function Plus(p: Ptr, n: int): Ptr { Ptr(p.data, p.off + n) }

  /** mem_ptr_nofault on the flat table. */
  function NoFault(pt: map<Place, Entry>, m: Mem, a: nat, write: bool): Option<Ptr> {
    var x := Place(m, PageOf(a));
    if x !in pt || (write && !Writable(pt[x].flags)) then None
    else Some(Ptr(pt[x].data, pt[x].offset + PageOffset(a)))
  }

  lemma NoFaultInPage(pt: map<Place, Entry>, m: Mem, a: nat, write: bool)
    ensures NoFault(pt, m, PageAddr(a), write).Some? <==> NoFault(pt, m, a, write).Some?
    ensures NoFault(pt, m, a, write).Some? ==>
              Plus(NoFault(pt, m, PageAddr(a), write).value, a - PageAddr(a)) == NoFault(pt, m, a, write).value
  {
    assert PageOf(PageAddr(a)) == PageOf(a) && PageOffset(PageAddr(a)) == 0;
  }

  /** A cached translation is what the page table says, and cached as writable only if the
      page is. */
  predicate Agrees(e: TlbEntry, pt: map<Place, Entry>, m: Mem) {
    && (e.page != TLB_PAGE_EMPTY ==> NoFault(pt, m, e.page, false) == Some(Plus(e.dataMinusAddr, e.page)))
    && (e.pageIfWritable != TLB_PAGE_EMPTY ==>
          e.pageIfWritable == e.page && NoFault(pt, m, e.page, true) == Some(Plus(e.dataMinusAddr, e.page)))
  }

  ghost predicate AllAgree(entries: seq<TlbEntry>, pt: map<Place, Entry>, m: Mem) {
    forall i {:trigger entries[i]} :: 0 <= i < |entries| ==> Agrees(entries[i], pt, m)
  }

  /** What holds at all times: if the two counters are equal, the cache is right. */
  ghost predicate Stamped(entries: seq<TlbEntry>, stamp: nat, pt: map<Place, Entry>, m: Mem, changes: nat) {
    stamp <= changes && (stamp == changes ==> AllAgree(entries, pt, m))
  }

  /** The stamp survives any page-table operation, including mapping into a hole, which is
      not counted, and however the 32-bit stamp was truncated. */
  lemma StampSurvives(entries: seq<TlbEntry>, stamp: nat, pt: map<Place, Entry>, changes: nat,
                      pt': map<Place, Entry>, changes': nat, m: Mem)
    requires Stamped(entries, stamp, pt, m, changes) && Announced(pt, changes, pt', changes', m)
    ensures Stamped(entries, stamp, pt', m, changes')
  {
    if stamp == changes' {
      forall i | 0 <= i < |entries| ensures Agrees(entries[i], pt', m) {
        assert Agrees(entries[i], pt, m);
      }
    }
  }

  /** Over any run of page-table operations, from any refresh on. */
  lemma {:induction false} StampSurvivesRun(entries: seq<TlbEntry>, stamp: nat, m: Mem,
                                            pts: seq<map<Place, Entry>>, counts: seq<nat>, n: nat)
    requires n < |pts| == |counts| && Stamped(entries, stamp, pts[0], m, counts[0])
    requires forall i :: 0 <= i < |pts| - 1 ==> Announced(pts[i], counts[i], pts[i + 1], counts[i + 1], m)
    ensures Stamped(entries, stamp, pts[n], m, counts[n])
  {
    if n > 0 {
      StampSurvivesRun(entries, stamp, m, pts, counts, n - 1);
      StampSurvives(entries, stamp, pts[n - 1], counts[n - 1], pts[n], counts[n], m);
    }
  }

  class TlbCache {
    var mmu: Memory?
    var dirtyPage: nat
    var memChanges: nat      // 32 bits
    var segfaultAddr: nat
    const entries: array<TlbEntry>

    constructor ()
      ensures fresh(entries) && entries.Length == TLB_SIZE && mmu == null
    {
      entries := new TlbEntry[TLB_SIZE](_ => TlbEntry(0, 0, Ptr(0, 0)));
      mmu, dirtyPage, memChanges, segfaultAddr := null, 0, 0, 0;
    }

    ghost predicate Ready()
      reads this, mmu, entries
    {
      && entries.Length == TLB_SIZE && mmu != null && mmu.Valid() && memChanges <= mmu.changes
      && AllAgree(entries[..], mmu.flat, mmu.id)
    }

    /** tlb_flush. */
    method Flush()
      requires entries.Length == TLB_SIZE && mmu != null && mmu.Valid()
      modifies this`memChanges, entries
      ensures Ready() && memChanges == mmu.changes % 0x1_0000_0000
      ensures forall j :: 0 <= j < TLB_SIZE ==>
                entries[j].page == TLB_PAGE_EMPTY && entries[j].pageIfWritable == TLB_PAGE_EMPTY
    {
      memChanges := mmu.changes % 0x1_0000_0000;
      for i := 0 to TLB_SIZE
        invariant memChanges == mmu.changes % 0x1_0000_0000
        invariant forall j :: 0 <= j < i ==> entries[j].page == 1 && entries[j].pageIfWritable == 1
      {
        entries[i] := TlbEntry(1, 1, Ptr(0, 0));
      }
    }

    /** tlb_refresh: after it the whole cache agrees with the page table. */
    method Refresh(m: Memory)
      requires entries.Length == TLB_SIZE && m.Valid()
      requires mmu == m ==> Stamped(entries[..], memChanges, m.flat, m.id, m.changes)
      modifies this, entries
      ensures Ready() && mmu == m
      ensures old(mmu) != m || old(memChanges) != m.changes ==>
                dirtyPage == TLB_PAGE_EMPTY && forall j :: 0 <= j < TLB_SIZE ==> entries[j].page == TLB_PAGE_EMPTY
    {
      if mmu == m && memChanges == m.changes {
        return;
      }
      mmu := m;
      dirtyPage := TLB_PAGE_EMPTY;
      Flush();
    }

    /** tlb_handle_miss. */
    method HandleMiss(a: nat, write: bool) returns (p: Option<Ptr>)
      requires Ready() && a < ADDRESS_SPACE
      modifies this, entries
      ensures Ready() && mmu == old(mmu)
      ensures p == NoFault(mmu.flat, mmu.id, a, write)
      ensures p.Some? ==> dirtyPage == PageAddr(a) && entries[Index(a)].page == PageAddr(a)
      ensures p.Some? && write ==> entries[Index(a)].pageIfWritable == PageAddr(a)
      ensures p.None? ==> segfaultAddr == a
    {
      var page := PageAddr(a);
      NoFaultInPage(mmu.flat, mmu.id, a, write);
      var ptr := Translate(mmu, page, write);
      if mmu.changes != memChanges {
        Flush();
      }
      if ptr.None? {
        segfaultAddr := a;
        return None;
      }
      dirtyPage := page;
      var e := TlbEntry(page, if write then page else TLB_PAGE_EMPTY, Plus(ptr.value, -page));
      assert Agrees(e, mmu.flat, mmu.id);
      ghost var before := entries[..];
      entries[Index(a)] := e;
      assert entries[..] == before[Index(a) := e];
      p := Some(Plus(e.dataMinusAddr, a));
    }

    /** __tlb_read_ptr: hit or miss, the pointer is the one the page table gives. */
    method ReadPtr(a: nat) returns (p: Option<Ptr>)
      requires Ready() && a < ADDRESS_SPACE
      modifies this, entries
      ensures Ready() && mmu == old(mmu)
      ensures p == NoFault(mmu.flat, mmu.id, a, false)
      ensures p.None? ==> segfaultAddr == a
    {
      var e := entries[Index(a)];
      if e.page == PageAddr(a) {
        assert Agrees(entries[..][Index(a)], mmu.flat, mmu.id);
        NoFaultInPage(mmu.flat, mmu.id, a, false);
        return Some(Plus(e.dataMinusAddr, a));
      }
      p := HandleMiss(a, false);
    }

    /** __tlb_write_ptr: likewise, and never a pointer to a page that may not be written. */
    method WritePtr(a: nat) returns (p: Option<Ptr>)
      requires Ready() && a < ADDRESS_SPACE
      modifies this, entries
      ensures Ready() && mmu == old(mmu)
      ensures p == NoFault(mmu.flat, mmu.id, a, true)
      ensures p.Some? ==> Place(mmu.id, PageOf(a)) in mmu.flat && Writable(mmu.flat[Place(mmu.id, PageOf(a))].flags)
      ensures p.Some? ==> dirtyPage == PageAddr(a)
      ensures p.None? ==> segfaultAddr == a
    {
      var e := entries[Index(a)];
      if e.pageIfWritable == PageAddr(a) {
        assert Agrees(entries[..][Index(a)], mmu.flat, mmu.id);
        NoFaultInPage(mmu.flat, mmu.id, a, true);
        dirtyPage := PageAddr(a);
        return Some(Plus(e.dataMinusAddr, a));
      }
      p := HandleMiss(a, true);
    }

    /** __tlb_read_cross_page. */
    method ReadCrossPage(a: nat, size: nat, heap: map<Id, Data>) returns (r: Option<seq<nat>>)
      requires Ready() && a < ADDRESS_SPACE && 4096 - PageOffset(a) < size <= 4096 && Inv(State(heap, mmu.flat))
      modifies this, entries
      ensures Ready() && mmu == old(mmu)
      ensures r.Some? ==> Shows(State(heap, mmu.flat), mmu.id, a, r.value) && |r.value| == size
      ensures r.None? ==> Missing(mmu.flat, mmu.id, a, size, false)
      ensures r.None? ==> NoFault(mmu.flat, mmu.id, segfaultAddr, false) == None
    {
      ghost var s, m := State(heap, mmu.flat), mmu.id;
      var part1 := 4096 - PageOffset(a);
      SecondPage(a);
      WrapZero(a);
      var p1 := ReadPtr(a);
      if p1.None? {
        return None;
      }
      var a2 := (PageOf(a) + 1) * 4096 % 0x1_0000_0000;
      var p2 := ReadPtr(a2);
      if p2.None? {
        return None;
      }
      LoadShows(s, m, a, part1);
      LoadShows(s, m, a2, size - part1);
      var x, y := Load(heap, p1.value, part1), Load(heap, p2.value, size - part1);
      ShowsConcat(s, m, a, x, y);
      return Some(x + y);
    }

    /** tlb_read: the guest's bytes, across a page boundary and around the top of memory, or
        nothing if a page is missing. */
    method Read(a: nat, size: nat, heap: map<Id, Data>) returns (r: Option<seq<nat>>)
      requires Ready() && a < ADDRESS_SPACE && 1 <= size <= 4096 && Inv(State(heap, mmu.flat))
      modifies this, entries
      ensures Ready() && mmu == old(mmu)
      ensures r.Some? ==> Shows(State(heap, mmu.flat), mmu.id, a, r.value) && |r.value| == size
      ensures r.None? ==> Missing(mmu.flat, mmu.id, a, size, false)
      ensures r.None? ==> NoFault(mmu.flat, mmu.id, segfaultAddr, false) == None
    {
      if PageOffset(a) > 4096 - size {
        r := ReadCrossPage(a, size, heap);
        return;
      }
      WrapZero(a);
      var p := ReadPtr(a);
      if p.None? {
        return None;
      }
      LoadShows(State(heap, mmu.flat), mmu.id, a, size);
      r := Some(Load(heap, p.value, size));
    }

    /** __tlb_write_cross_page. */
    method WriteCrossPage(a: nat, value: seq<nat>, heap: map<Id, Data>) returns (ok: bool, heap': map<Id, Data>)
      requires Ready() && a < ADDRESS_SPACE && 4096 - PageOffset(a) < |value| <= 4096 && Inv(State(heap, mmu.flat))
      modifies this, entries
      ensures Ready() && mmu == old(mmu)
      ensures !ok ==> heap' == heap && Missing(mmu.flat, mmu.id, a, |value|, true)
      ensures !ok ==> NoFault(mmu.flat, mmu.id, segfaultAddr, true) == None
      ensures ok ==> State(heap', mmu.flat) == WriteAll(State(heap, mmu.flat), mmu.id, a, value)
    {
      ghost var s, m := State(heap, mmu.flat), mmu.id;
      var part1 := 4096 - PageOffset(a);
      SecondPage(a);
      WrapZero(a);
      var p1 := WritePtr(a);
      if p1.None? {
        return false, heap;
      }
      var a2 := (PageOf(a) + 1) * 4096 % 0x1_0000_0000;
      var p2 := WritePtr(a2);
      if p2.None? {
        return false, heap;
      }
      assert EntryOk(s, Place(m, PageOf(a))) && EntryOk(s, Place(m, PageOf(a2)));
      WriteAllSplits(s, m, a, value, part1);
      StoreIsWriteAll(s, m, a, value[..part1]);
      heap' := Store(heap, p1.value, value[..part1]);
      StoreIsWriteAll(State(heap', s.pt), m, a2, value[part1..]);
      heap' := Store(heap', p2.value, value[part1..]);
      ok := true;
    }

    /** tlb_write: the guest's byte writes one after the other, or, if a page may not be
        written, none of them. */
    method Write(a: nat, value: seq<nat>, heap: map<Id, Data>) returns (ok: bool, heap': map<Id, Data>)
      requires Ready() && a < ADDRESS_SPACE && 1 <= |value| <= 4096 && Inv(State(heap, mmu.flat))
      modifies this, entries
      ensures Ready() && mmu == old(mmu)
      ensures !ok ==> heap' == heap && Missing(mmu.flat, mmu.id, a, |value|, true)
      ensures !ok ==> NoFault(mmu.flat, mmu.id, segfaultAddr, true) == None
      ensures ok ==> State(heap', mmu.flat) == WriteAll(State(heap, mmu.flat), mmu.id, a, value)
    {
      if PageOffset(a) > 4096 - |value| {
        ok, heap' := WriteCrossPage(a, value, heap);
        return;
      }
      WrapZero(a);
      var p := WritePtr(a);
      if p.None? {
        return false, heap;
      }
      assert EntryOk(State(heap, mmu.flat), Place(mmu.id, PageOf(a)));
      StoreIsWriteAll(State(heap, mmu.flat), mmu.id, a, value);
      ok, heap' := true, Store(heap, p.value, value);
    }
  }

  // ------------------------------------------------------------------ guest bytes

  /** 32-bit address arithmetic. */
  function Wrap(a: nat, k: nat): nat { (a + k) % 0x1_0000_0000 }

  lemma WrapZero(a: nat)
    requires a < ADDRESS_SPACE
    ensures Wrap(a, 0) == a
  {
  }

  lemma WrapTwice(a: nat, i: nat, j: nat)
    ensures Wrap(Wrap(a, i), j) == Wrap(a, i + j)
  {
  }

  lemma WrapInPage(a: nat, k: nat)
    requires a < ADDRESS_SPACE && PageOffset(a) + k < 4096
    ensures Wrap(a, k) == a + k && PageOf(a + k) == PageOf(a) && PageOffset(a + k) == PageOffset(a) + k
  {
  }

  lemma SecondPage(a: nat)
    requires a < ADDRESS_SPACE
    ensures Wrap(a, 4096 - PageOffset(a)) == (PageOf(a) + 1) * 4096 % 0x1_0000_0000
    ensures PageOffset((PageOf(a) + 1) * 4096 % 0x1_0000_0000) == 0
  {
  }

  /** The byte the guest sees at an address. */
  function GuestByte(s: State, m: Mem, a: nat): Option<nat> {
    var x := Place(m, PageOf(a));
    if EntryOk(s, x) then Some(s.heap[s.pt[x].data].bytes[s.pt[x].offset + PageOffset(a)]) else None
  }

  /** The guest sees these bytes from address `a` on. */
  ghost predicate Shows(s: State, m: Mem, a: nat, bytes: seq<nat>) {
    forall k {:trigger bytes[k]} :: 0 <= k < |bytes| ==> GuestByte(s, m, Wrap(a, k)) == Some(bytes[k])
  }

  /** Some page of the range has no translation for this access. */
  ghost predicate Missing(pt: map<Place, Entry>, m: Mem, a: nat, size: nat, write: bool) {
    exists k :: 0 <= k < size && NoFault(pt, m, Wrap(a, k), write) == None
  }

  lemma ShowsConcat(s: State, m: Mem, a: nat, x: seq<nat>, y: seq<nat>)
    requires Shows(s, m, a, x) && Shows(s, m, Wrap(a, |x|), y)
    ensures Shows(s, m, a, x + y)
  {
    forall k | 0 <= k < |x + y| ensures GuestByte(s, m, Wrap(a, k)) == Some((x + y)[k]) {
      if k >= |x| {
        WrapTwice(a, |x|, k - |x|);
        assert (x + y)[k] == y[k - |x|];
      } else {
        assert (x + y)[k] == x[k];
      }
    }
  }

  /** memcpy from a host pointer. */
  function Load(heap: map<Id, Data>, p: Ptr, n: nat): seq<nat>
    requires p.data in heap && 0 <= p.off && p.off + n <= |heap[p.data].bytes|
  {
    heap[p.data].bytes[p.off..p.off + n]
  }

  /** memcpy to a host pointer. */
  function Store(heap: map<Id, Data>, p: Ptr, value: seq<nat>): map<Id, Data>
    requires p.data in heap && 0 <= p.off && p.off + |value| <= |heap[p.data].bytes|
  {
    var b := heap[p.data].bytes;
    heap[p.data := heap[p.data].(bytes := b[..p.off] + value + b[p.off + |value|..])]
  }

  /** A guest store, byte by byte. */
  function WriteAll(s: State, m: Mem, a: nat, value: seq<nat>): State
    decreases |value|
  {
    if value == [] then s
    else WriteAll(WriteByte(s, Place(m, PageOf(a)), PageOffset(a), value[0]), m, Wrap(a, 1), value[1..])
  }

  lemma LoadShows(s: State, m: Mem, a: nat, n: nat)
    requires a < ADDRESS_SPACE && PageOffset(a) + n <= 4096 && Inv(s) && NoFault(s.pt, m, a, false).Some?
    ensures EntryOk(s, Place(m, PageOf(a)))
    ensures Shows(s, m, a, Load(s.heap, NoFault(s.pt, m, a, false).value, n))
  {
    assert EntryOk(s, Place(m, PageOf(a)));
    var bytes := Load(s.heap, NoFault(s.pt, m, a, false).value, n);
    forall k | 0 <= k < n ensures GuestByte(s, m, Wrap(a, k)) == Some(bytes[k]) {
      WrapInPage(a, k);
    }
  }

  lemma WriteByteIsStore(s: State, m: Mem, a: nat, v: nat)
    requires EntryOk(s, Place(m, PageOf(a))) && Writable(s.pt[Place(m, PageOf(a))].flags)
    ensures WriteByte(s, Place(m, PageOf(a)), PageOffset(a), v)
            == State(Store(s.heap, NoFault(s.pt, m, a, true).value, [v]), s.pt)
  {
    var p := NoFault(s.pt, m, a, true).value;
    var b := s.heap[p.data].bytes;
    assert b[..p.off] + [v] + b[p.off + 1..] == b[p.off := v];
  }

  lemma StoreNothing(heap: map<Id, Data>, p: Ptr)
    requires p.data in heap && 0 <= p.off <= |heap[p.data].bytes|
    ensures Store(heap, p, []) == heap
  {
    var b := heap[p.data].bytes;
    assert b[..p.off] + [] + b[p.off..] == b;
  }

  lemma StoreStep(heap: map<Id, Data>, p: Ptr, value: seq<nat>)
    requires value != [] && p.data in heap && 0 <= p.off && p.off + |value| <= |heap[p.data].bytes|
    ensures Store(Store(heap, p, [value[0]]), Plus(p, 1), value[1..]) == Store(heap, p, value)
  {
    var b := heap[p.data].bytes;
    var c := b[..p.off] + [value[0]] + b[p.off + 1..];
    assert c[..p.off + 1] + value[1..] + c[p.off + |value|..] == b[..p.off] + value + b[p.off + |value|..];
  }

  lemma {:induction false} StoreIsWriteAll(s: State, m: Mem, a: nat, value: seq<nat>)
    requires a < ADDRESS_SPACE && PageOffset(a) + |value| <= 4096
    requires EntryOk(s, Place(m, PageOf(a))) && Writable(s.pt[Place(m, PageOf(a))].flags)
    ensures WriteAll(s, m, a, value) == State(Store(s.heap, NoFault(s.pt, m, a, true).value, value), s.pt)
    decreases |value|
  {
    var p := NoFault(s.pt, m, a, true).value;
    if value == [] {
      StoreNothing(s.heap, p);
    } else {
      WriteByteIsStore(s, m, a, value[0]);
      if |value| == 1 {
        assert value[1..] == [] && value == [value[0]];
      } else {
        WrapInPage(a, 1);
        StoreStep(s.heap, p, value);
        StoreIsWriteAll(WriteByte(s, Place(m, PageOf(a)), PageOffset(a), value[0]), m, a + 1, value[1..]);
      }
    }
  }

  lemma {:induction false} WriteAllSplits(s: State, m: Mem, a: nat, value: seq<nat>, n: nat)
    requires a < ADDRESS_SPACE && n <= |value|
    ensures WriteAll(s, m, a, value) == WriteAll(WriteAll(s, m, a, value[..n]), m, Wrap(a, n), value[n..])
    decreases n
  {
    if n == 0 {
      WrapZero(a);
      assert value[0..] == value;
    } else {
      var w := WriteByte(s, Place(m, PageOf(a)), PageOffset(a), value[0]);
      WriteAllSplits(w, m, Wrap(a, 1), value[1..], n - 1);
      assert value[..n][1..] == value[1..][..n - 1] && value[1..][n - 1..] == value[n..];
      WrapTwice(a, 1, n - 1);
    }
  }

  /** The page table's pointer, where there is one: the page is mapped, for a write it can be written,
      and the pointer is to the byte that the guest sees. */
  lemma NoFaultShows(s: State, m: Mem, a: nat, write: bool)
    requires Inv(s) && a < ADDRESS_SPACE
    ensures var x, p := Place(m, a / 4096), NoFault(s.pt, m, a, write);
            && (p.Some? <==> x in s.pt && (write ==> s.pt[x].flags.write && !s.pt[x].flags.cow))
            && (p.Some? ==>
                  && EntryOk(s, x) && p.value.data in s.heap && 0 <= p.value.off < |s.heap[p.value.data].bytes|
                  && GuestByte(s, m, a) == Some(s.heap[p.value.data].bytes[p.value.off])
                  && GuestByte(s, m, a) == Some(PageBytes(s, x)[a % 4096]))
  {
    var x := Place(m, a / 4096);
    assert x in s.pt ==> EntryOk(s, x);
  }

  lemma StoredByte(heap: map<Id, Data>, p: Ptr, value: seq<nat>, k: nat)
    requires p.data in heap && 0 <= p.off && p.off + |value| <= |heap[p.data].bytes| && k < |value|
    ensures var b := Store(heap, p, value)[p.data].bytes; |b| == |heap[p.data].bytes| && b[p.off + k] == value[k]
  {
  }

  /** What is written within a page is what the guest sees there afterwards. */
  lemma WriteAllShows(s: State, m: Mem, a: nat, value: seq<nat>, k: nat)
    requires Inv(s) && a < ADDRESS_SPACE && PageOffset(a) + |value| <= 4096 && NoFault(s.pt, m, a, true).Some?
    requires k < |value|
    ensures GuestByte(WriteAll(s, m, a, value), m, a + k) == Some(value[k])
  {
    var x, p := Place(m, PageOf(a)), NoFault(s.pt, m, a, true).value;
    assert EntryOk(s, x);
    StoreIsWriteAll(s, m, a, value);
    WrapInPage(a, k);
    StoredByte(s.heap, p, value, k);
  }

  /** mmu_translate. */
  method Translate(m: Memory, a: nat, write: bool) returns (p: Option<Ptr>)
    requires m.Valid() && a < ADDRESS_SPACE
    ensures p == NoFault(m.flat, m.id, a, write)
  {
    assert m.InStep(PageOf(a));
    var e := m.At(PageOf(a));
    if e.None? || (write && !Writable(e.value.flags)) {
      return None;
    }
    p := Some(Ptr(e.value.data, e.value.offset + PageOffset(a)));
  }

  /** mem_ptr, when no other thread gets between its two locks: at most one fault is resolved,
      every page goes on showing the same bytes, and the pointer is the page table's own. */
  method MemPtr(m: Memory, a: nat, access: Access, d: Id, d2: Id, heap: map<Id, Data>)
    returns (p: Option<Ptr>, heap': map<Id, Data>)
    requires m.Valid() && a < ADDRESS_SPACE && Inv(State(heap, m.flat)) && d !in heap && d2 !in heap && d != d2
    modifies m`pgdir, m`flat, m`changes
    ensures m.Valid() && Inv(State(heap', m.flat))
    ensures State(heap', m.flat) == State(heap, old(m.flat))
            || State(heap', m.flat) == Fault(State(heap, old(m.flat)), Place(m.id, PageOf(a)), access, d, d2)
    ensures forall y :: y in old(m.flat) ==> Kept(State(heap, old(m.flat)), State(heap', m.flat), y)
    ensures p.Some? ==> p == NoFault(m.flat, m.id, a, access != Read)
    ensures p.None? ==> var x := Place(m.id, PageOf(a));
                        x !in m.flat || (access == Write && !m.flat[x].flags.write)
  {
    ghost var s, x := State(heap, m.flat), Place(m.id, PageOf(a));
    FaultKeeps(s, x, access, d, d2);
    var ptraceCopy, round := access == PtraceWrite, 0;
    heap' := heap;
    while true
      invariant m.Valid() && 0 <= round <= 1
      invariant round == 0 ==> m.flat == old(m.flat) && heap' == heap && (ptraceCopy <==> access == PtraceWrite)
      invariant round == 1 ==> State(heap', m.flat) == Fault(s, x, access, d, d2) && !ptraceCopy
                               && x in m.flat && (access != Read ==> Writable(m.flat[x].flags))
      decreases 1 - round
    {
      assert m.InStep(PageOf(a));
      var e := m.At(PageOf(a));
      if e.Some? && !ptraceCopy && (access == Read || Writable(e.value.flags)) {
        p := Translate(m, a, access == Write);
        return;
      }
      if e.Some? && access == Write && !e.value.flags.write {
        return None, heap';
      }
      var ok;
      heap', ok := m.ResolveFault(PageOf(a), access, d, d2, heap');
      if !ok {
        return None, heap';
      }
      ptraceCopy, round := false, 1;
    }
  }

  lemma FaultKeeps(s: State, x: Place, access: Access, d: Id, d2: Id)
    requires Inv(s) && d !in s.heap && d2 !in s.heap && d != d2
    ensures Inv(Fault(s, x, access, d, d2))
    ensures forall y :: y in s.pt ==> Kept(s, s, y) && Kept(s, Fault(s, x, access, d, d2), y)
  {
    GrowStackOk(s, x, d);
    var g := GrowStack(s, x, d);
    BreakCowOk(g, x, access, d2);
    forall y | y in s.pt ensures Kept(s, s, y) && Kept(s, Fault(s, x, access, d, d2), y) {
      assert EntryOk(s, y);
      assert Kept(s, g, y);
    }
  }
}
