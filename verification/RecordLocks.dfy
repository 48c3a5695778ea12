/** POSIX record locks on one inode (fs/lock.c).

    The kernel keeps a linked list of byte-range locks, grouped by owner, and edits it in
    place while iterating: a request can merge with, trim, split or delete the owner's
    existing locks.  Here the list is a sequence.  `Place` is the list edit as a function,
    `LockList.Acquire` is the loop of the source, and the byte map `At` is what POSIX
    talks about: the lock type each owner holds on each byte. */
module RecordLocks {
  import opened Lists

  datatype LockType = RdLck | WrLck | UnLck

  /** One `struct file_lock`; a request is one too, possibly of type UnLck. */
  datatype Lock = Lock(start: int, end: int, ty: LockType, owner: nat, pid: int)

  predicate Covers(l: Lock, b: int) {
    l.start <= b <= l.end
  }

  predicate Overlap(a: Lock, b: Lock) {
    a.end >= b.start && b.end >= a.start
  }

  predicate Conflict(a: Lock, b: Lock) {
    a.owner != b.owner && Overlap(a, b) && (a.ty == WrLck || b.ty == WrLck)
  }

  predicate Adjacent(a: Lock, b: Lock) {
    a.end == b.start - 1 || b.end == a.start - 1
  }

  predicate Allowed(ls: seq<Lock>, request: Lock) {
    request.ty == UnLck || forall i :: 0 <= i < |ls| ==> !Conflict(ls[i], request)
  }

  // ------------------------------------------------------------------ the list edit

  /** What one lock of the requester becomes, and how the request grows. */
  datatype Edit = Edit(kept: seq<Lock>, request: Lock)

  function EditLock(l: Lock, r: Lock): Edit {
    if r.ty == l.ty then
      if !Overlap(l, r) && !Adjacent(r, l) then Edit([l], r)
      else
        Edit([], r.(start := if l.start < r.start then l.start else r.start,
                    end := if l.end > r.end then l.end else r.end))
    else if !Overlap(l, r) then Edit([l], r)
    else if r.start > l.start && r.end < l.end then
      Edit([l.(end := r.start - 1), l.(start := r.end + 1)], r)
    else if r.start <= l.start && r.end >= l.end then Edit([], r)
    else if l.start < r.start then Edit([l.(end := r.start - 1)], r)
    else Edit([l.(start := r.end + 1)], r)
  }

  function NewLock(r: Lock): seq<Lock> {
    if r.ty == UnLck then [] else [r]
  }

  /** The list after the editing loop and the final insertion; `found` is the source's
      flag for having reached the owner's group. */
  function Place(ls: seq<Lock>, found: bool, r: Lock): seq<Lock> {
    if ls == [] then NewLock(r)
    else if ls[0].owner != r.owner then
      if found then NewLock(r) + ls else [ls[0]] + Place(ls[1..], false, r)
    else
      var e := EditLock(ls[0], r);
      e.kept + Place(ls[1..], true, e.request)
  }

  function WithoutOwner(ls: seq<Lock>, owner: nat): seq<Lock> {
    if ls == [] then []
    else if ls[0].owner == owner then WithoutOwner(ls[1..], owner)
    else [ls[0]] + WithoutOwner(ls[1..], owner)
  }

  // ------------------------------------------------------------------ the canonical form

  predicate WellFormed(l: Lock) {
    l.start <= l.end && l.ty != UnLck
  }

  /** Two locks that may stand in one list. */
  predicate Compatible(a: Lock, b: Lock) {
    if a.owner == b.owner then !Overlap(a, b) && (a.ty == b.ty ==> !Adjacent(a, b))
    else !Conflict(a, b)
  }

  ghost predicate AllWellFormed(ls: seq<Lock>) {
    forall i :: 0 <= i < |ls| ==> WellFormed(ls[i])
  }

  ghost predicate AllCompatible(k: Lock, ls: seq<Lock>) {
    forall i :: 0 <= i < |ls| ==> Compatible(k, ls[i])
  }

  ghost predicate NoneOf(owner: nat, ls: seq<Lock>) {
    forall i :: 0 <= i < |ls| ==> ls[i].owner != owner
  }

  /** Disjoint, maximal and conflict-free, and each owner's locks contiguous. */
  ghost predicate Canonical(ls: seq<Lock>) {
    && AllWellFormed(ls)
    && (forall i, j :: 0 <= i < j < |ls| ==> Compatible(ls[i], ls[j]))
    && Grouped(ls)
  }

  ghost predicate Grouped(ls: seq<Lock>) {
    forall i, j, k :: 0 <= i < j < k < |ls| && ls[i].owner == ls[k].owner ==> ls[j].owner == ls[i].owner
  }

  /** Whether the group of `owner` is over: it may only continue at the head of `ls`. */
  ghost predicate GroupAtHead(owner: nat, ls: seq<Lock>) {
    forall i, j :: 0 <= i < j < |ls| && ls[j].owner == owner ==> ls[i].owner == owner
  }

  // ------------------------------------------------------------------ the byte map

  /** The type of lock `owner` holds on byte `b`, or UnLck. */
  function At(ls: seq<Lock>, owner: nat, b: int): LockType {
    if ls == [] then UnLck
    else if ls[0].owner == owner && Covers(ls[0], b) then ls[0].ty
    else At(ls[1..], owner, b)
  }

  lemma {:induction false} AtWitness(ls: seq<Lock>, owner: nat, b: int) returns (i: nat)
    requires At(ls, owner, b) != UnLck
    ensures i < |ls| && ls[i].owner == owner && Covers(ls[i], b) && ls[i].ty == At(ls, owner, b)
  {
    if ls[0].owner == owner && Covers(ls[0], b) {
      i := 0;
    } else {
      var j := AtWitness(ls[1..], owner, b);
      i := j + 1;
    }
  }

  lemma {:induction false} AtIs(ls: seq<Lock>, i: nat, b: int)
    requires Canonical(ls) && i < |ls| && Covers(ls[i], b)
    ensures At(ls, ls[i].owner, b) == ls[i].ty
  {
    if i > 0 {
      assert Compatible(ls[0], ls[i]);
      CanonicalTail(ls);
      AtIs(ls[1..], i - 1, b);
    }
  }

  lemma {:induction false} AtNone(ls: seq<Lock>, owner: nat, b: int)
    requires NoneOf(owner, ls)
    ensures At(ls, owner, b) == UnLck
  {
    if ls != [] {
      AtNone(ls[1..], owner, b);
    }
  }

  lemma {:induction false} AtConcat(xs: seq<Lock>, ys: seq<Lock>, owner: nat, b: int)
    requires forall i :: 0 <= i < |xs| ==> xs[i].ty != UnLck
    ensures At(xs + ys, owner, b) == if At(xs, owner, b) != UnLck then At(xs, owner, b) else At(ys, owner, b)
  {
    if xs == [] {
      assert xs + ys == ys;
    } else {
      assert (xs + ys)[1..] == xs[1..] + ys;
      AtConcat(xs[1..], ys, owner, b);
    }
  }

  lemma CanonicalTail(ls: seq<Lock>)
    requires Canonical(ls) && ls != []
    ensures Canonical(ls[1..]) && AllCompatible(ls[0], ls[1..])
  {
    var t := ls[1..];
    forall i, j | 0 <= i < j < |t| ensures Compatible(t[i], t[j]) {
      assert t[i] == ls[i + 1] && t[j] == ls[j + 1];
    }
    forall i, j, k | 0 <= i < j < k < |t| && t[i].owner == t[k].owner ensures t[j].owner == t[i].owner {
      assert t[i] == ls[i + 1] && t[j] == ls[j + 1] && t[k] == ls[k + 1];
    }
  }

  // ------------------------------------------------------------------ Place keeps the canonical form

  /** A lock compatible with the request and with every listed lock is compatible with
      everything the edit leaves behind: growing the request only over locks of its own
      type that touch it can reach no further. */
  lemma {:induction false} PlaceCompatible(k: Lock, ls: seq<Lock>, found: bool, r: Lock)
    requires WellFormed(k) && AllWellFormed(ls) && r.start <= r.end
    requires AllCompatible(k, ls) && (r.ty != UnLck ==> Compatible(k, r))
    ensures AllCompatible(k, Place(ls, found, r))
  {
    if ls != [] {
      assert AllCompatible(k, ls[1..]);
      if ls[0].owner != r.owner {
        if !found {
          PlaceCompatible(k, ls[1..], false, r);
        }
      } else {
        var e := EditLock(ls[0], r);
        assert Compatible(k, ls[0]);
        PlaceCompatible(k, ls[1..], true, e.request);
      }
    }
  }

  lemma {:induction false} PlaceOwners(ls: seq<Lock>, found: bool, r: Lock, o: nat)
    requires NoneOf(o, ls) && o != r.owner
    ensures NoneOf(o, Place(ls, found, r))
  {
    if ls != [] {
      assert NoneOf(o, ls[1..]);
      if ls[0].owner != r.owner {
        if !found { PlaceOwners(ls[1..], false, r, o); }
      } else {
        PlaceOwners(ls[1..], true, EditLock(ls[0], r).request, o);
      }
    }
  }

  /** The locks of `o` that `ls` starts with are still what the output starts with. */
  lemma {:induction false} PlaceGroupAtHead(ls: seq<Lock>, found: bool, r: Lock, o: nat)
    requires Grouped(ls) && GroupAtHead(o, ls)
    requires found ==> GroupAtHead(r.owner, ls) && (o != r.owner ==> NoneOf(o, ls))
    requires found || o != r.owner
    ensures GroupAtHead(o, Place(ls, found, r))
  {
    if ls != [] {
      GroupedTail(ls, o);
      if ls[0].owner == r.owner {
        GroupedTail(ls, r.owner);
        if o == r.owner {
          PlaceGroupAtHead(ls[1..], true, EditLock(ls[0], r).request, o);
        } else {
          PlaceOwners(ls[1..], true, EditLock(ls[0], r).request, o);
        }
      } else if !found && ls[0].owner == o {
        PlaceGroupAtHead(ls[1..], false, r, o);
      } else if !found {
        PlaceOwners(ls[1..], false, r, o);
      }
    }
  }

  lemma GroupedTail(ls: seq<Lock>, o: nat)
    requires Grouped(ls) && ls != []
    ensures Grouped(ls[1..]) && GroupAtHead(ls[0].owner, ls)
    ensures GroupAtHead(o, ls) ==> GroupAtHead(o, ls[1..])
  {
    var t := ls[1..];
    assert forall i :: 0 <= i < |t| ==> t[i] == ls[i + 1];
  }

  lemma GroupedCons(xs: seq<Lock>, ls: seq<Lock>, o: nat)
    requires Grouped(ls) && GroupAtHead(o, ls)
    requires forall i :: 0 <= i < |xs| ==> xs[i].owner == o
    ensures Grouped(xs + ls)
  {
    var s := xs + ls;
    forall i, j, k | 0 <= i < j < k < |s| && s[i].owner == s[k].owner ensures s[j].owner == s[i].owner {
      if i >= |xs| {
        assert s[i] == ls[i - |xs|] && s[j] == ls[j - |xs|] && s[k] == ls[k - |xs|];
      } else if j >= |xs| {
        assert s[j] == ls[j - |xs|] && s[k] == ls[k - |xs|];
      }
    }
  }

  lemma {:induction false} PlaceGrouped(ls: seq<Lock>, found: bool, r: Lock)
    requires Grouped(ls) && (found ==> GroupAtHead(r.owner, ls))
    ensures Grouped(Place(ls, found, r))
  {
    if ls != [] {
      GroupedTail(ls, r.owner);
      if ls[0].owner != r.owner {
        if found {
          GroupedCons(NewLock(r), ls, r.owner);
        } else {
          PlaceGrouped(ls[1..], false, r);
          GroupedTail(ls, ls[0].owner);
          PlaceGroupAtHead(ls[1..], false, r, ls[0].owner);
          GroupedCons([ls[0]], Place(ls[1..], false, r), ls[0].owner);
        }
      } else {
        var e := EditLock(ls[0], r);
        PlaceGrouped(ls[1..], true, e.request);
        PlaceGroupAtHead(ls[1..], true, e.request, r.owner);
        GroupedCons(e.kept, Place(ls[1..], true, e.request), r.owner);
      }
    }
  }

  ghost predicate PairwiseCompatible(ls: seq<Lock>) {
    forall i, j :: 0 <= i < j < |ls| ==> Compatible(ls[i], ls[j])
  }

  lemma PairwiseConcat(xs: seq<Lock>, ys: seq<Lock>)
    requires PairwiseCompatible(xs) && PairwiseCompatible(ys)
    requires forall i :: 0 <= i < |xs| ==> AllCompatible(xs[i], ys)
    ensures PairwiseCompatible(xs + ys)
  {
    var s := xs + ys;
    forall i, j | 0 <= i < j < |s| ensures Compatible(s[i], s[j]) {
      if i >= |xs| {
        assert s[i] == ys[i - |xs|] && s[j] == ys[j - |xs|];
      } else if j >= |xs| {
        assert s[j] == ys[j - |xs|];
      }
    }
  }

  /** The remains of an edited lock stand beside each other, the request and the other locks. */
  lemma EditCompatible(l: Lock, r: Lock, t: seq<Lock>)
    requires WellFormed(l) && AllWellFormed(t) && r.start <= r.end && l.owner == r.owner && AllCompatible(l, t)
    ensures var e := EditLock(l, r);
            && AllWellFormed(e.kept) && PairwiseCompatible(e.kept) && e.request.start <= e.request.end
            && forall i :: 0 <= i < |e.kept| ==>
                 AllCompatible(e.kept[i], t) && (r.ty != UnLck ==> Compatible(e.kept[i], e.request))
  {
    var e := EditLock(l, r);
    forall i | 0 <= i < |e.kept|
      ensures AllCompatible(e.kept[i], t) && (r.ty != UnLck ==> Compatible(e.kept[i], e.request))
    {
      forall j | 0 <= j < |t| ensures Compatible(e.kept[i], t[j]) {
        assert Compatible(l, t[j]);
      }
    }
  }

  lemma PairwiseTail(ls: seq<Lock>, r: Lock)
    requires AllWellFormed(ls) && PairwiseCompatible(ls) && ls != [] && Allowed(ls, r)
    ensures AllWellFormed(ls[1..]) && PairwiseCompatible(ls[1..]) && AllCompatible(ls[0], ls[1..])
    ensures Allowed(ls[1..], r) && (r.ty != UnLck ==> !Conflict(ls[0], r))
  {
    var t := ls[1..];
    assert forall i :: 0 <= i < |t| ==> t[i] == ls[i + 1];
  }

  /** Inserting the request before locks of other owners. */
  lemma NewLockPairwise(ls: seq<Lock>, r: Lock)
    requires AllWellFormed(ls) && PairwiseCompatible(ls) && NoneOf(r.owner, ls)
    requires r.start <= r.end && Allowed(ls, r)
    ensures AllWellFormed(NewLock(r) + ls) && PairwiseCompatible(NewLock(r) + ls)
  {
    if r.ty == UnLck {
      assert NewLock(r) + ls == ls;
    } else {
      forall i | 0 <= i < |ls| ensures Compatible(r, ls[i]) { assert !Conflict(ls[i], r); }
      PairwiseConcat(NewLock(r), ls);
    }
  }

  lemma {:induction false} PlacePairwise(ls: seq<Lock>, found: bool, r: Lock)
    requires AllWellFormed(ls) && PairwiseCompatible(ls) && Grouped(ls)
    requires r.start <= r.end && (found ==> GroupAtHead(r.owner, ls))
    requires Allowed(ls, r)
    ensures AllWellFormed(Place(ls, found, r)) && PairwiseCompatible(Place(ls, found, r))
  {
    if ls != [] {
      var t := ls[1..];
      PairwiseTail(ls, r);
      GroupedTail(ls, r.owner);
      if ls[0].owner != r.owner {
        if found {
          NewLockPairwise(ls, r);
        } else {
          PlacePairwise(t, false, r);
          PlaceCompatible(ls[0], t, false, r);
          PairwiseConcat([ls[0]], Place(t, false, r));
        }
      } else {
        var e := EditLock(ls[0], r);
        assert Allowed(t, e.request) by { EditKeepsAllowed(ls, r); }
        EditCompatible(ls[0], r, t);
        PlacePairwise(t, true, e.request);
        forall i | 0 <= i < |e.kept| ensures AllCompatible(e.kept[i], Place(t, true, e.request)) {
          PlaceCompatible(e.kept[i], t, true, e.request);
        }
        PairwiseConcat(e.kept, Place(t, true, e.request));
      }
    }
  }

  /** Absorbing one of the requester's own locks makes no new conflict. */
  lemma EditKeepsAllowed(ls: seq<Lock>, r: Lock)
    requires ls != [] && ls[0].owner == r.owner && AllWellFormed(ls) && PairwiseCompatible(ls)
    requires r.start <= r.end && Allowed(ls, r)
    ensures Allowed(ls[1..], EditLock(ls[0], r).request)
  {
    var t, q := ls[1..], EditLock(ls[0], r).request;
    if r.ty != UnLck {
      forall i | 0 <= i < |t| ensures !Conflict(t[i], q) {
        assert t[i] == ls[i + 1];
        assert Compatible(ls[0], ls[i + 1]);
        assert !Conflict(ls[i + 1], r);
      }
    }
  }

  /** Every accepted request leaves a canonical list. */
  lemma PlaceCanonical(ls: seq<Lock>, r: Lock)
    requires Canonical(ls) && r.start <= r.end && Allowed(ls, r)
    ensures Canonical(Place(ls, false, r))
  {
    PlacePairwise(ls, false, r);
    PlaceGrouped(ls, false, r);
  }

  // ------------------------------------------------------------------ Place is a byte-map update

  /** The request grows only over bytes its owner already holds with the same type. */
  lemma EditRequest(l: Lock, r: Lock, b: int)
    requires WellFormed(l) && r.start <= r.end && l.owner == r.owner
    ensures var q := EditLock(l, r).request;
            && q.start <= q.end && q.ty == r.ty && q.owner == r.owner
            && (Covers(q, b) <==> Covers(r, b) || (Covers(q, b) && Covers(l, b) && l.ty == r.ty))
  {
  }

  /** What is left of an edited lock is what the grown request does not cover. */
  lemma KeptBytes(l: Lock, r: Lock, o: nat, b: int)
    requires WellFormed(l) && r.start <= r.end && l.owner == r.owner
    ensures var e := EditLock(l, r);
            && (forall i :: 0 <= i < |e.kept| ==> e.kept[i].ty != UnLck)
            && At(e.kept, o, b) == if o == l.owner && Covers(l, b) && !Covers(e.request, b) then l.ty else UnLck
  {
    var kept := EditLock(l, r).kept;
    if |kept| == 2 {
      assert kept == [kept[0]] + [kept[1]];
      AtConcat([kept[0]], [kept[1]], o, b);
    }
  }

  /** A byte of the head lock belongs to no later lock of the same owner. */
  lemma HeadOnly(ls: seq<Lock>, b: int)
    requires Canonical(ls) && ls != [] && Covers(ls[0], b)
    ensures At(ls[1..], ls[0].owner, b) == UnLck
  {
    if At(ls[1..], ls[0].owner, b) != UnLck {
      var i := AtWitness(ls[1..], ls[0].owner, b);
      assert false;
    }
  }

  /** An accepted request sets exactly the requester's bytes in its range and nothing else. */
  lemma {:induction false} PlaceBytes(ls: seq<Lock>, found: bool, r: Lock, o: nat, b: int)
    requires Canonical(ls) && r.start <= r.end && (found ==> GroupAtHead(r.owner, ls))
    ensures At(Place(ls, found, r), o, b) == if o == r.owner && Covers(r, b) then r.ty else At(ls, o, b)
  {
    if ls != [] {
      CanonicalTail(ls);
      GroupedTail(ls, r.owner);
      var t := ls[1..];
      if ls[0].owner != r.owner {
        if found {
          AtConcat(NewLock(r), ls, o, b);
          AtNone(ls, r.owner, b);
        } else {
          PlaceBytes(t, false, r, o, b);
        }
      } else {
        var e := EditLock(ls[0], r);
        EditRequest(ls[0], r, b);
        PlaceBytes(t, true, e.request, o, b);
        KeptBytes(ls[0], r, o, b);
        AtConcat(e.kept, Place(t, true, e.request), o, b);
        if Covers(ls[0], b) {
          HeadOnly(ls, b);
        }
      }
    }
  }

  /** The lock is what is left of one of `ls`. */
  ghost predicate PartOf(l: Lock, ls: seq<Lock>) {
    exists i :: 0 <= i < |ls| && l == ls[i].(start := l.start, end := l.end)
                && ls[i].start <= l.start && l.end <= ls[i].end
  }

  /** The lock stands for the request, perhaps together with locks that were merged into it. */
  predicate Granted(l: Lock, r: Lock) {
    l == r.(start := l.start, end := l.end) && l.start <= r.start && r.end <= l.end
  }

  /** Who is reported as the holder: the granted range is under a lock with the requester's pid, and
      every other lock keeps the pid that it had. */
  lemma {:induction false} PlacePids(ls: seq<Lock>, found: bool, r: Lock, k: nat)
    requires k < |Place(ls, found, r)|
    ensures (r.ty != UnLck && Granted(Place(ls, found, r)[k], r)) || PartOf(Place(ls, found, r)[k], ls)
  {
    var p := Place(ls, found, r);
    if ls == [] {
    } else if ls[0].owner != r.owner {
      if found {
        assert p == NewLock(r) + ls;
        if k >= |NewLock(r)| {
          assert p[k] == ls[k - |NewLock(r)|];
        }
      } else if k == 0 {
        assert p[k] == ls[0];
      } else {
        PlacePids(ls[1..], false, r, k - 1);
        PartOfTail(p[k], ls);
      }
    } else {
      var e := EditLock(ls[0], r);
      if k < |e.kept| {
        assert p[k] == e.kept[k] == ls[0].(start := p[k].start, end := p[k].end);
      } else {
        PlacePids(ls[1..], true, e.request, k - |e.kept|);
        PartOfTail(p[k], ls);
      }
    }
  }

  lemma PartOfTail(l: Lock, ls: seq<Lock>)
    requires ls != []
    ensures PartOf(l, ls[1..]) ==> PartOf(l, ls)
  {
    if i :| 0 <= i < |ls| - 1 && l == ls[1..][i].(start := l.start, end := l.end)
            && ls[1..][i].start <= l.start && l.end <= ls[1..][i].end {
      assert ls[1..][i] == ls[i + 1];
    }
  }

  lemma {:induction false} PlaceGrants(ls: seq<Lock>, found: bool, r: Lock) returns (k: nat)
    requires r.ty != UnLck
    ensures k < |Place(ls, found, r)| && Granted(Place(ls, found, r)[k], r)
  {
    if ls == [] || (ls[0].owner != r.owner && found) {
      k := 0;
    } else if ls[0].owner != r.owner {
      k := PlaceGrants(ls[1..], false, r);
      k := k + 1;
    } else {
      var e := EditLock(ls[0], r);
      k := PlaceGrants(ls[1..], true, e.request);
      k := k + |e.kept|;
    }
  }

  lemma {:induction false} WithoutBytes(ls: seq<Lock>, gone: nat, o: nat, b: int)
    ensures At(WithoutOwner(ls, gone), o, b) == if o == gone then UnLck else At(ls, o, b)
  {
    if ls != [] {
      WithoutBytes(ls[1..], gone, o, b);
    }
  }

  lemma {:induction false} WithoutCanonical(ls: seq<Lock>, gone: nat)
    requires Canonical(ls)
    ensures Canonical(WithoutOwner(ls, gone)) && NoneOf(gone, WithoutOwner(ls, gone))
    ensures forall k :: AllCompatible(k, ls) ==> AllCompatible(k, WithoutOwner(ls, gone))
    ensures forall o :: GroupAtHead(o, ls) ==> GroupAtHead(o, WithoutOwner(ls, gone))
    ensures forall o :: NoneOf(o, ls) ==> NoneOf(o, WithoutOwner(ls, gone))
  {
    if ls != [] {
      var t, h := ls[1..], ls[0];
      CanonicalTail(ls);
      WithoutCanonical(t, gone);
      assert forall i :: 0 <= i < |t| ==> t[i] == ls[i + 1];
      var w := WithoutOwner(t, gone);
      GroupedTail(ls, h.owner);
      forall k | AllCompatible(k, ls) ensures AllCompatible(k, WithoutOwner(ls, gone)) {
        assert AllCompatible(k, t);
      }
      forall o | NoneOf(o, ls) ensures NoneOf(o, WithoutOwner(ls, gone)) {
        assert NoneOf(o, t);
      }
      if h.owner != gone {
        PairwiseConcat([h], w);
        GroupedCons([h], w, h.owner);
        forall o | GroupAtHead(o, ls) ensures GroupAtHead(o, WithoutOwner(ls, gone)) {
          if h.owner == o {
            assert GroupAtHead(o, w);
          } else {
            assert NoneOf(o, t);
            assert NoneOf(o, w);
          }
        }
      } else {
        forall o | GroupAtHead(o, ls) ensures GroupAtHead(o, WithoutOwner(ls, gone)) {
          assert GroupAtHead(o, t);
        }
      }
    }
  }

  // ------------------------------------------------------------------ the byte map determines the list

  lemma NeighbourExtends(ls: seq<Lock>, i: nat, b: int)
    requires Canonical(ls) && i < |ls| && (b == ls[i].start - 1 || b == ls[i].end + 1)
    ensures At(ls, ls[i].owner, b) != ls[i].ty
  {
    if At(ls, ls[i].owner, b) == ls[i].ty {
      var j := AtWitness(ls, ls[i].owner, b);
      assert false;
    }
  }

  /** Two canonical lists that give every owner the same bytes hold the same intervals:
      merging is always complete and splitting never leaves fragments. */
  lemma CanonicalUnique(xs: seq<Lock>, ys: seq<Lock>, i: nat) returns (j: nat)
    requires Canonical(xs) && Canonical(ys) && i < |xs|
    requires forall o, b :: At(xs, o, b) == At(ys, o, b)
    ensures j < |ys| && ys[j].(pid := xs[i].pid) == xs[i]
  {
    var l := xs[i];
    AtIs(xs, i, l.start);
    j := AtWitness(ys, l.owner, l.start);
    var m := ys[j];
    if m.start < l.start {
      AtIs(ys, j, l.start - 1);
      NeighbourExtends(xs, i, l.start - 1);
    }
    if m.end < l.end {
      AtIs(xs, i, m.end + 1);
      NeighbourExtends(ys, j, m.end + 1);
    } else if m.end > l.end {
      AtIs(ys, j, l.end + 1);
      NeighbourExtends(xs, i, l.end + 1);
    }
  }

  // ------------------------------------------------------------------ whole runs

  datatype Op = SetLk(request: Lock) | CloseBy(owner: nat)

  predicate ValidOp(op: Op) {
    op.SetLk? ==> op.request.start <= op.request.end
  }

  function Step(ls: seq<Lock>, op: Op): seq<Lock> {
    match op
    case SetLk(r) => if Allowed(ls, r) then Place(ls, false, r) else ls
    case CloseBy(o) => WithoutOwner(ls, o)
  }

  function Run(ops: seq<Op>): seq<Lock> {
    if ops == [] then [] else Step(Run(ops[..|ops| - 1]), ops[|ops| - 1])
  }

  /** The POSIX view: what each owner holds on each byte. */
  type ByteMap = (nat, int) -> LockType

  ghost predicate Grantable(t: ByteMap, r: Lock) {
    r.ty == UnLck ||
    forall o, b :: o != r.owner && Covers(r, b) ==>
      t(o, b) == UnLck || (t(o, b) == RdLck && r.ty == RdLck)
  }

  ghost function ByteStep(t: ByteMap, op: Op): ByteMap {
    match op
    case SetLk(r) =>
      if Grantable(t, r) then (o: nat, b: int) => if o == r.owner && Covers(r, b) then r.ty else t(o, b) else t
    case CloseBy(gone) => (o: nat, b: int) => if o == gone then UnLck else t(o, b)
  }

  ghost function ByteRun(ops: seq<Op>): ByteMap {
    if ops == [] then (o: nat, b: int) => UnLck else ByteStep(ByteRun(ops[..|ops| - 1]), ops[|ops| - 1])
  }

  /** The list's conflict scan decides exactly what the byte map says. */
  lemma AllowedIsGrantable(ls: seq<Lock>, t: ByteMap, r: Lock)
    requires Canonical(ls) && r.start <= r.end
    requires forall o, b :: At(ls, o, b) == t(o, b)
    ensures Allowed(ls, r) <==> Grantable(t, r)
  {
    if r.ty != UnLck {
      if Allowed(ls, r) {
        forall o, b | o != r.owner && Covers(r, b)
          ensures t(o, b) == UnLck || (t(o, b) == RdLck && r.ty == RdLck)
        {
          if At(ls, o, b) != UnLck {
            var i := AtWitness(ls, o, b);
            assert !Conflict(ls[i], r);
          }
        }
      } else {
        var i :| 0 <= i < |ls| && Conflict(ls[i], r);
        var b := if ls[i].start > r.start then ls[i].start else r.start;
        AtIs(ls, i, b);
        assert t(ls[i].owner, b) == ls[i].ty;
      }
    }
  }

  /** Every run of lock, unlock and close keeps the list canonical, and the list machine
      simulates the byte-map machine, decisions included. */
  lemma {:induction false} RunRefinesByteMap(ops: seq<Op>)
    requires forall i :: 0 <= i < |ops| ==> ValidOp(ops[i])
    ensures Canonical(Run(ops))
    ensures forall o, b :: At(Run(ops), o, b) == ByteRun(ops)(o, b)
  {
    if ops != [] {
      var n := |ops| - 1;
      var before, op := ops[..n], ops[n];
      assert ValidOp(op);
      RunRefinesByteMap(before);
      var ls, t := Run(before), ByteRun(before);
      match op
      case SetLk(r) =>
        AllowedIsGrantable(ls, t, r);
        if Allowed(ls, r) {
          PlaceCanonical(ls, r);
          forall o, b ensures At(Run(ops), o, b) == ByteRun(ops)(o, b) {
            PlaceBytes(ls, false, r, o, b);
          }
        }
      case CloseBy(gone) =>
        WithoutCanonical(ls, gone);
        forall o, b ensures At(Run(ops), o, b) == ByteRun(ops)(o, b) {
          WithoutBytes(ls, gone, o, b);
        }
    }
  }

  // ------------------------------------------------------------------ struct flock

  const OFF_T_MAX: int := 0x7fff_ffff_ffff_ffff

  datatype Flock = Flock(ty: LockType, start: int, len: int, pid: int)

  /** The range a user's struct names, relative to the offset `whence` stands for. */
  function FromFlock(f: Flock, offset: int, owner: nat, pid: int): Lock {
    var at := f.start + offset;
    if f.len > 0 then Lock(at, at + f.len - 1, f.ty, owner, pid)
    else if f.len < 0 then Lock(at - 1 + f.len + 1, at - 1, f.ty, owner, pid)
    else Lock(at, OFF_T_MAX, f.ty, owner, pid)
  }

  function ToFlock(l: Lock): Flock {
    Flock(l.ty, l.start, if l.end != OFF_T_MAX then l.end - l.start + 1 else 0, l.pid)
  }

  /** The bytes a struct flock names; the range of a request is never empty. */
  lemma FlockRange(f: Flock, offset: int, owner: nat, pid: int, b: int)
    requires f.start + offset <= OFF_T_MAX
    ensures var l, at := FromFlock(f, offset, owner, pid), f.start + offset;
            && l.start <= l.end && l.ty == f.ty && l.owner == owner && l.pid == pid
            && (Covers(l, b) <==> if f.len > 0 then at <= b < at + f.len
                                  else if f.len < 0 then at + f.len <= b < at
                                  else at <= b <= OFF_T_MAX)
  {
  }

  /** What F_GETLK reports, given back to F_SETLK with SEEK_SET, names the same range. */
  lemma FlockRoundTrip(l: Lock)
    requires l.start <= l.end <= OFF_T_MAX
    ensures FromFlock(ToFlock(l), 0, l.owner, l.pid) == l
  {
  }

  // ------------------------------------------------------------------ the inode's list

  /** One iteration of the editing loop, with `before` already visited. */
  lemma PlaceStep(before: seq<Lock>, l: Lock, rest: seq<Lock>, found: bool, r: Lock)
    ensures l.owner != r.owner && !found ==>
              before + Place([l] + rest, found, r) == (before + [l]) + Place(rest, false, r)
    ensures l.owner == r.owner ==>
              before + Place([l] + rest, found, r)
              == (before + EditLock(l, r).kept) + Place(rest, true, EditLock(l, r).request)
  {
    assert ([l] + rest)[1..] == rest;
  }

  /** Where the editing loop stops, the request goes in. */
  lemma PlaceEnds(ls: seq<Lock>, i: nat, before: seq<Lock>, rest: seq<Lock>, found: bool, r: Lock)
    requires ls == before + rest && i == |before| && (rest == [] || (found && rest[0].owner != r.owner))
    ensures ls[..i] + NewLock(r) + ls[i..] == before + Place(rest, found, r)
  {
    assert ls[..i] == before && ls[i..] == rest;
  }

  class LockList {
    var locks: seq<Lock>

    constructor ()
      ensures locks == [] && Canonical(locks)
    {
      locks := [];
    }

    /** file_lock_test: the first conflicting lock, so `None` is what F_GETLK reports as
        F_UNLCK. */
    method Test(request: Lock) returns (found: Option<Lock>)
      ensures request.ty != UnLck ==> (found.None? <==> Allowed(locks, request))
      ensures found.Some? ==> exists i :: 0 <= i < |locks| && locks[i] == found.value && Conflict(locks[i], request)
                                          && forall j :: 0 <= j < i ==> !Conflict(locks[j], request)
    {
      for i := 0 to |locks|
        invariant forall j :: 0 <= j < i ==> !Conflict(locks[j], request)
      {
        if Conflict(locks[i], request) {
          return Some(locks[i]);
        }
      }
      found := None;
    }

    /** The body of the editing loop for the requester's lock at `i`.  Returns where the
        iteration goes on (past a lock just split off, which is never visited) and the
        request as grown so far. */
    method EditAt(i: nat, request: Lock) returns (next: nat, r: Lock)
      requires i < |locks|
      modifies this
      ensures r == EditLock(old(locks)[i], request).request
      ensures locks == old(locks)[..i] + EditLock(old(locks)[i], request).kept + old(locks)[i + 1..]
      ensures next == i + |EditLock(old(locks)[i], request).kept|
    {
      var l := locks[i];
      r, next := request, i;
      if r.ty == l.ty {
        if !Overlap(l, r) && !Adjacent(r, l) {
          next := i + 1;
        } else {
          if l.start < r.start {
            r := r.(start := l.start);
          }
          if l.end > r.end {
            r := r.(end := l.end);
          }
          locks := locks[..i] + locks[i + 1..];
        }
      } else if !Overlap(l, r) {
        next := i + 1;
      } else if r.start > l.start && r.end < l.end {
        locks := locks[..i] + [l.(end := r.start - 1), l.(start := r.end + 1)] + locks[i + 1..];
        next := i + 2;
      } else if r.start <= l.start && r.end >= l.end {
        locks := locks[..i] + locks[i + 1..];
      } else if l.start < r.start {
        locks := locks[..i] + [l.(end := r.start - 1)] + locks[i + 1..];
        next := i + 1;
      } else {
        locks := locks[..i] + [l.(start := r.end + 1)] + locks[i + 1..];
        next := i + 1;
      }
    }

    /** The second loop of file_lock_acquire: the place `i` for the request, as grown so far. */
    method EditOwn(request: Lock) returns (i: nat, r: Lock)
      modifies this
      ensures i <= |locks| && locks[..i] + NewLock(r) + locks[i..] == Place(old(locks), false, request)
    {
      var found := false;
      r, i := request, 0;
      ghost var done, todo := [], locks;
      while i < |locks|
        invariant locks == done + todo && i == |done|
        invariant done + Place(todo, found, r) == Place(old(locks), false, request)
        decreases |todo|
      {
        ghost var l, rest := todo[0], todo[1..];
        assert todo == [l] + rest && locks[i] == l;
        if locks[i].owner != r.owner {
          if found {
            break;
          }
          PlaceStep(done, l, rest, found, r);
          i, done, todo := i + 1, done + [l], rest;
        } else {
          PlaceStep(done, l, rest, found, r);
          assert locks[..i] == done && locks[i + 1..] == rest;
          done, todo, found := done + EditLock(l, r).kept, rest, true;
          i, r := EditAt(i, r);
        }
      }
      PlaceEnds(locks, i, done, todo, found, r);
    }

    /** The rest of file_lock_acquire, once nothing conflicts. */
    method Insert(request: Lock)
      modifies this
      ensures locks == Place(old(locks), false, request)
    {
      var i, r := EditOwn(request);
      assert r.ty == UnLck ==> locks[..i] + NewLock(r) + locks[i..] == locks;
      if r.ty != UnLck {
        locks := locks[..i] + [r] + locks[i..];
      }
    }

    /** file_lock_acquire: refused without a trace, or a byte-map update. */
    method Acquire(request: Lock) returns (ok: bool)
      requires Canonical(locks) && request.start <= request.end
      modifies this
      ensures ok <==> Allowed(old(locks), request)
      ensures !ok ==> locks == old(locks)
      ensures ok ==> locks == Place(old(locks), false, request)
      ensures Canonical(locks)
      ensures ok ==> forall o, b ::
          At(locks, o, b) == if o == request.owner && Covers(request, b) then request.ty else At(old(locks), o, b)
    {
      if request.ty != UnLck {
        var conflict := Test(request);
        if conflict.Some? {
          return false;
        }
      }
      Insert(request);
      PlaceCanonical(old(locks), request);
      forall o, b
        ensures At(locks, o, b) == if o == request.owner && Covers(request, b) then request.ty else At(old(locks), o, b)
      {
        PlaceBytes(old(locks), false, request, o, b);
      }
      ok := true;
    }

    /** file_lock_remove_owned_by. */
    method RemoveOwnedBy(owner: nat)
      requires Canonical(locks)
      modifies this
      ensures locks == WithoutOwner(old(locks), owner)
      ensures Canonical(locks)
    {
      var i := 0;
      ghost var done, todo := [], locks;
      while i < |locks|
        invariant locks == done + todo && i == |done|
        invariant done + WithoutOwner(todo, owner) == WithoutOwner(old(locks), owner)
        decreases |todo|
      {
        ghost var l, rest := todo[0], todo[1..];
        assert todo == [l] + rest && locks[i] == l;
        if locks[i].owner == owner {
          assert locks[..i] == done && locks[i + 1..] == rest;
          locks := locks[..i] + locks[i + 1..];
        } else {
          assert done + WithoutOwner(todo, owner) == (done + [l]) + WithoutOwner(rest, owner);
          i, done := i + 1, done + [l];
        }
        todo := rest;
      }
      WithoutCanonical(old(locks), owner);
    }
  }
}
