/** The metadata store of fakefs (fs/fake-db.c, fs/fake.c) and the table of open inodes (fs/inode.c):
    how long the metadata of a file lives.

    A step is one database transaction, or one section under the inode table's lock. */
module FakeFs {
  import opened PathRename

  /** struct ish_stat. */
  datatype Stat = Stat(mode: nat, uid: nat, gid: nat, rdev: nat)

  /** The two tables of the database and the reference counts of open inodes.  `checks` and
      `dropped` record history: unlinks that have yet to look for an orphan, and inodes whose
      path was replaced. */
  datatype State = State(paths: Paths, stats: map<nat, Stat>, open: map<nat, nat>, checks: multiset<nat>,
                         dropped: set<nat>)

  ghost predicate HasPath(s: State, n: nat) {
    n in s.paths.Values
  }

  ghost predicate PathsOk(s: State) {
    forall n {:trigger HasPath(s, n)} :: HasPath(s, n) ==> n in s.stats
  }

  ghost predicate OpenOk(s: State) {
    forall n {:trigger n in s.open} :: n in s.open ==> n in s.stats && s.open[n] > 0
  }

  /** Somebody still needs the row, or knows that it has become an orphan. */
  ghost predicate Accounted(s: State, n: nat) {
    HasPath(s, n) || n in s.open || n in s.checks || n in s.dropped
  }

  ghost predicate RowsOk(s: State) {
    forall n {:trigger Accounted(s, n)} :: n in s.stats ==> n > 0 && Accounted(s, n)
  }

  /** Every path's inode and every open inode has a stat row, and every row is accounted for. */
  ghost predicate Ok(s: State) {
    PathsOk(s) && OpenOk(s) && RowsOk(s)
  }

  function Inode(s: State, path: string): nat {
    if path in s.paths then s.paths[path] else 0
  }

  /** The row of a new path replaces the row of an old one, which may lose its last path. */
  function SetPath(s: State, path: string, n: nat): State {
    s.(paths := s.paths[path := n], dropped := if path in s.paths then s.dropped + {s.paths[path]} else s.dropped)
  }

  /** path_create; `n` is the row number the database chooses. */
  function Create(s: State, path: string, stat: Stat, n: nat): State {
    SetPath(s.(stats := s.stats[n := stat]), path, n)
  }

  /** The database part of fakefs_open. */
  function OpenPath(s: State, path: string, create: bool, stat: Stat, n: nat): State {
    if create && Inode(s, path) == 0 then Create(s, path, stat, n) else s
  }

  /** The end of generic_openat: under the lock of the inode table, only a row that is still
      there is attached to. */
  function Attach(s: State, n: nat): State {
    if n in s.stats then s.(open := s.open[n := (if n in s.open then s.open[n] else 0) + 1]) else s
  }

  function Link(s: State, src: string, dst: string): State {
    if src in s.paths then SetPath(s, dst, s.paths[src]) else s
  }

  function Unlink(s: State, path: string): State {
    if path in s.paths then s.(paths := s.paths - {path}, checks := s.checks + multiset{s.paths[path]}) else s
  }

  /** The cleanup statement: delete the row unless some path refers to it. */
  function Cleanup(s: State, n: nat): State {
    if n in s.paths.Values then s else s.(stats := s.stats - {n}, dropped := s.dropped - {n})
  }

  /** inode_check_orphaned, at the end of an unlink. */
  function Check(s: State, n: nat): State {
    var t := s.(checks := s.checks - multiset{n});
    if n in s.open then t else Cleanup(t, n)
  }

  /** inode_release. */
  function Release(s: State, n: nat): State {
    if n !in s.open then s
    else if s.open[n] > 1 then s.(open := s.open[n := s.open[n] - 1])
    else Cleanup(s.(open := s.open - {n}), n)
  }

  /** fakefs_rename; `rows` is the order in which the database visits the selected rows. */
  function Rename(s: State, src: string, dst: string, rows: seq<string>, hostOk: bool): State {
    if !hostOk then s
    else
      var after := MoveRows(s.paths, rows, src, dst);
      s.(paths := after, dropped := s.dropped + (s.paths.Values - after.Values))
  }

  function SetStat(s: State, n: nat, stat: Stat): State {
    if n in s.stats then s.(stats := s.stats[n := stat]) else s
  }

  // ------------------------------------------------------------------ the invariant

  lemma SetPathOk(s: State, path: string, n: nat)
    requires PathsOk(s) && OpenOk(s) && n in s.stats && n > 0
    requires forall m {:trigger Accounted(s, m)} :: m in s.stats && m != n ==> m > 0 && Accounted(s, m)
    ensures Ok(SetPath(s, path, n))
  {
    var t := SetPath(s, path, n);
    forall m | HasPath(t, m) ensures m in t.stats {
      assert m == n || HasPath(s, m);
    }
    assert t.paths[path] == n && HasPath(t, n);
    forall m | m in t.stats ensures m > 0 && Accounted(t, m) {
      if m != n {
        assert Accounted(s, m);
        if HasPath(s, m) {
          var p :| p in s.paths && s.paths[p] == m;
          assert p != path ==> p in t.paths && t.paths[p] == m;
        }
      }
    }
  }

  lemma CreateOk(s: State, path: string, stat: Stat, n: nat)
    requires Ok(s) && n !in s.stats && n > 0
    ensures Ok(Create(s, path, stat, n))
    ensures n !in s.open && !HasPath(s, n)
  {
    var t := s.(stats := s.stats[n := stat]);
    assert HasPath(s, n) ==> n in s.stats;
    forall m | HasPath(t, m) ensures m in t.stats {
      assert HasPath(s, m);
    }
    forall m | m in t.stats && m != n ensures m > 0 && Accounted(t, m) {
      assert Accounted(s, m);
      assert HasPath(s, m) <==> HasPath(t, m);
    }
    SetPathOk(t, path, n);
  }

  lemma AttachOk(s: State, n: nat)
    requires Ok(s)
    ensures Ok(Attach(s, n))
  {
    var t := Attach(s, n);
    forall m | HasPath(t, m) ensures m in t.stats {
      assert HasPath(s, m);
    }
    forall m | m in t.stats ensures m > 0 && Accounted(t, m) {
      assert Accounted(s, m);
      assert HasPath(s, m) <==> HasPath(t, m);
    }
  }

  lemma LinkOk(s: State, src: string, dst: string)
    requires Ok(s)
    ensures Ok(Link(s, src, dst))
  {
    if src in s.paths {
      assert HasPath(s, s.paths[src]);
      forall m | m in s.stats ensures m > 0 && Accounted(s, m) {
        assert Accounted(s, m) || !Accounted(s, m);
      }
      SetPathOk(s, dst, s.paths[src]);
    }
  }

  lemma UnlinkOk(s: State, path: string)
    requires Ok(s)
    ensures Ok(Unlink(s, path))
  {
    var t := Unlink(s, path);
    forall m | HasPath(t, m) ensures m in t.stats {
      assert HasPath(s, m);
    }
    forall m | m in t.stats ensures m > 0 && Accounted(t, m) {
      assert Accounted(s, m);
      if HasPath(s, m) {
        var p :| p in s.paths && s.paths[p] == m;
        assert p != path ==> p in t.paths && t.paths[p] == m;
      }
    }
  }

  /** Cleaning up is safe for an inode that is not open, and settles its account. */
  lemma CleanupOk(s: State, n: nat)
    requires PathsOk(s) && OpenOk(s) && n !in s.open
    requires forall m {:trigger Accounted(s, m)} :: m in s.stats ==> m > 0 && (m == n || Accounted(s, m))
    ensures Ok(Cleanup(s, n))
  {
    var t := Cleanup(s, n);
    assert HasPath(s, n) <==> n in s.paths.Values;
    forall m | HasPath(t, m) ensures m in t.stats {
      assert HasPath(s, m);
    }
    forall m | m in t.stats ensures m > 0 && Accounted(t, m) {
      assert m == n || Accounted(s, m);
      assert HasPath(s, m) <==> HasPath(t, m);
    }
  }

  lemma CheckOk(s: State, n: nat)
    requires Ok(s)
    ensures Ok(Check(s, n))
  {
    var t := s.(checks := s.checks - multiset{n});
    assert PathsOk(t) by {
      forall m | HasPath(t, m) ensures m in t.stats {
        assert HasPath(s, m);
      }
    }
    forall m | m in t.stats ensures m > 0 && (m == n || Accounted(t, m)) {
      assert Accounted(s, m);
      assert HasPath(s, m) <==> HasPath(t, m);
    }
    if n in s.open {
      assert Accounted(t, n);
    } else {
      CleanupOk(t, n);
    }
  }

  lemma ReleaseOk(s: State, n: nat)
    requires Ok(s)
    ensures Ok(Release(s, n))
  {
    if n in s.open {
      var t := if s.open[n] > 1 then s.(open := s.open[n := s.open[n] - 1]) else s.(open := s.open - {n});
      assert PathsOk(t) by {
        forall m | HasPath(t, m) ensures m in t.stats {
          assert HasPath(s, m);
        }
      }
      forall m | m in t.stats ensures m > 0 && (m == n || Accounted(t, m)) {
        assert Accounted(s, m);
        assert HasPath(s, m) <==> HasPath(t, m);
      }
      if s.open[n] > 1 {
        assert Accounted(t, n);
      } else {
        CleanupOk(t, n);
      }
    }
  }

  lemma RenameOk(s: State, src: string, dst: string, rows: seq<string>, hostOk: bool)
    requires Ok(s)
    ensures Ok(Rename(s, src, dst, rows, hostOk))
  {
    var t := Rename(s, src, dst, rows, hostOk);
    MoveRowsValues(s.paths, rows, src, dst);
    forall m | HasPath(t, m) ensures m in t.stats {
      assert HasPath(s, m);
    }
    forall m | m in t.stats ensures m > 0 && Accounted(t, m) {
      assert Accounted(s, m);
      assert HasPath(s, m) ==> HasPath(t, m) || m in t.dropped;
    }
  }

  lemma SetStatOk(s: State, n: nat, stat: Stat)
    requires Ok(s)
    ensures Ok(SetStat(s, n, stat))
  {
    var t := SetStat(s, n, stat);
    forall m | HasPath(t, m) ensures m in t.stats {
      assert HasPath(s, m);
    }
    forall m | m in t.stats ensures m > 0 && Accounted(t, m) {
      assert Accounted(s, m);
      assert HasPath(s, m) <==> HasPath(t, m);
    }
  }

  // ------------------------------------------------------------------ runs

  datatype Event =
    | DoOpen(path: string, create: bool, stat: Stat, n: nat)
    | DoAttach(n: nat)
    | DoCreate(path: string, stat: Stat, n: nat)
    | DoLink(src: string, dst: string)
    | DoUnlink(path: string)
    | DoCheck(n: nat)
    | DoRename(src: string, dst: string, rows: seq<string>, hostOk: bool)
    | DoRelease(n: nat)
    | DoSetStat(n: nat, stat: Stat)

  function Step(s: State, e: Event): State {
    match e
    case DoOpen(path, create, stat, n) => OpenPath(s, path, create, stat, n)
    case DoAttach(n) => Attach(s, n)
    case DoCreate(path, stat, n) => Create(s, path, stat, n)
    case DoLink(src, dst) => Link(s, src, dst)
    case DoUnlink(path) => Unlink(s, path)
    case DoCheck(n) => Check(s, n)
    case DoRename(src, dst, rows, hostOk) => Rename(s, src, dst, rows, hostOk)
    case DoRelease(n) => Release(s, n)
    case DoSetStat(n, stat) => SetStat(s, n, stat)
  }

  /** The database numbers a new row with a positive number that no row has. */
  ghost predicate Enabled(s: State, e: Event) {
    && (e.DoOpen? || e.DoCreate? ==> e.n > 0 && e.n !in s.stats)
    && (e.DoRename? ==> Listing(s.paths, e.rows, e.src))
  }

  lemma StepOk(s: State, e: Event)
    requires Ok(s) && Enabled(s, e)
    ensures Ok(Step(s, e))
  {
    match e
    case DoOpen(path, create, stat, n) => CreateOk(s, path, stat, n);
    case DoAttach(n) => AttachOk(s, n);
    case DoCreate(path, stat, n) => CreateOk(s, path, stat, n);
    case DoLink(src, dst) => LinkOk(s, src, dst);
    case DoUnlink(path) => UnlinkOk(s, path);
    case DoCheck(n) => CheckOk(s, n);
    case DoRename(src, dst, rows, hostOk) => RenameOk(s, src, dst, rows, hostOk);
    case DoRelease(n) => ReleaseOk(s, n);
    case DoSetStat(n, stat) => SetStatOk(s, n, stat);
  }

  function StateAt(s: State, es: seq<Event>, k: nat): State
    requires k <= |es|
  {
    if k == 0 then s else Step(StateAt(s, es, k - 1), es[k - 1])
  }

  ghost predicate EnabledAt(s: State, es: seq<Event>, k: nat)
    requires k < |es|
  {
    Enabled(StateAt(s, es, k), es[k])
  }

  ghost predicate Run(s: State, es: seq<Event>) {
    Ok(s) && forall k {:trigger EnabledAt(s, es, k)} :: 0 <= k < |es| ==> EnabledAt(s, es, k)
  }

  /** Over every run, every path's inode and every open inode has a stat row. */
  lemma {:induction false} RunOk(s: State, es: seq<Event>, k: nat)
    requires Run(s, es) && k <= |es|
    ensures Ok(StateAt(s, es, k))
  {
    if k > 0 {
      RunOk(s, es, k - 1);
      assert EnabledAt(s, es, k - 1);
      StepOk(StateAt(s, es, k - 1), es[k - 1]);
    }
  }

  ghost predicate Creates(s: State, e: Event, n: nat) {
    (e.DoOpen? && e.create && Inode(s, e.path) == 0 && e.n == n) || (e.DoCreate? && e.n == n)
  }

  /** A new file never takes the inode number of a file that is open or has a path. */
  lemma NewNumberUnused(s: State, es: seq<Event>, k: nat, n: nat)
    requires Run(s, es) && k < |es| && Creates(StateAt(s, es, k), es[k], n)
    ensures var t := StateAt(s, es, k); n !in t.open && !HasPath(t, n)
  {
    RunOk(s, es, k);
    assert EnabledAt(s, es, k);
    NotAllocated(StateAt(s, es, k), n);
  }

  lemma NotAllocated(s: State, n: nat)
    requires Ok(s) && n !in s.stats
    ensures n !in s.open && !HasPath(s, n)
  {
    assert HasPath(s, n) || !HasPath(s, n);
  }

  // ------------------------------------------------------------------ what a step does

  /** What every name refers to after a step; 0 is nothing.  A new link refers to the inode of the
      old name, an unlinked name to nothing, a created one to the new inode, and no other name is
      touched.  Renaming is the subject of RenameMovesSubtree. */
  lemma NamesAfter(s: State, e: Event, name: string)
    requires Ok(s) && Enabled(s, e) && !e.DoRename?
    ensures Inode(Step(s, e), name)
            == match e
               case DoOpen(path, create, _, n) =>
                 if name == path && create && Inode(s, name) == 0 then n else Inode(s, name)
               case DoCreate(path, _, n) => if name == path then n else Inode(s, name)
               case DoLink(src, dst) => if name == dst && Inode(s, src) != 0 then Inode(s, src) else Inode(s, name)
               case DoUnlink(path) => if name == path then 0 else Inode(s, name)
               case _ => Inode(s, name)
  {
    if e.DoLink? {
      NamedPositive(s, e.src);
    }
  }

  lemma NamedPositive(s: State, path: string)
    requires Ok(s)
    ensures Inode(s, path) != 0 <==> path in s.paths
  {
    if path in s.paths {
      assert HasPath(s, s.paths[path]);
      assert Accounted(s, s.paths[path]);
    }
  }

  /** Renaming: what lay under the old name is found under the new one and no longer under the old;
      every other name but the one replaced refers to what it did, no row or handle is touched, and
      nothing at all happens if the host refuses. */
  lemma RenameNames(s: State, src: string, dst: string, rows: seq<string>, hostOk: bool, name: string)
    requires Listing(s.paths, rows, src) && MayMove(s.paths, src, dst) && name in s.paths
    ensures var t := Rename(s, src, dst, rows, hostOk);
            && t.stats == s.stats && t.open == s.open && t.checks == s.checks
            && (!hostOk ==> t == s)
            && (hostOk && (name == src || src + "/" <= name) ==>
                  Inode(t, dst + name[|src|..]) == Inode(s, name) && Inode(t, name) == 0)
            && (hostOk && name != src && !(src + "/" <= name) && (name != dst || src !in s.paths) ==>
                  Inode(t, name) == Inode(s, name))
  {
    RenameMovesSubtree(s.paths, rows, src, dst, name);
  }

  /** What every row is after a step: a new one as created, the one that is set as set, all others as
      they were, until they are lost. */
  lemma RowsAfter(s: State, e: Event, n: nat)
    requires Ok(s) && Enabled(s, e)
    ensures n in Step(s, e).stats <==> Creates(s, e, n) || (n in s.stats && !Loses(s, e, n))
    ensures n in Step(s, e).stats ==>
              Step(s, e).stats[n] == if Creates(s, e, n) then e.stat
                                     else if e.DoSetStat? && e.n == n then e.stat
                                     else s.stats[n]
  {
    if n in s.stats {
      RowLostIff(s, e, n);
    }
  }

  function Handles(s: State, n: nat): nat {
    if n in s.open then s.open[n] else 0
  }

  /** The reference count of an inode is the number of handles attached to it and not released: what
      it was, plus the attachments that found a row, less the releases. */
  ghost function HandlesAt(s: State, es: seq<Event>, k: nat, n: nat): int
    requires k <= |es|
  {
    if k == 0 then Handles(s, n)
    else
      HandlesAt(s, es, k - 1, n)
      + (if es[k - 1] == DoAttach(n) && n in StateAt(s, es, k - 1).stats then 1 else 0)
      - (if es[k - 1] == DoRelease(n) && HandlesAt(s, es, k - 1, n) > 0 then 1 else 0)
  }

  lemma {:induction false} HandlesExact(s: State, es: seq<Event>, k: nat, n: nat)
    requires Run(s, es) && k <= |es|
    ensures Handles(StateAt(s, es, k), n) == HandlesAt(s, es, k, n)
    ensures n in StateAt(s, es, k).open <==> HandlesAt(s, es, k, n) > 0
  {
    if k > 0 {
      HandlesExact(s, es, k - 1, n);
      RunOk(s, es, k - 1);
      assert EnabledAt(s, es, k - 1);
      HandlesNext(StateAt(s, es, k - 1), es[k - 1], n);
    }
    RunOk(s, es, k);
    HandlesOpen(StateAt(s, es, k), n);
  }

  lemma HandlesOpen(s: State, n: nat)
    requires Ok(s)
    ensures n in s.open <==> Handles(s, n) > 0
  {
  }

  lemma HandlesNext(s: State, e: Event, n: nat)
    requires Ok(s) && Enabled(s, e)
    ensures Handles(Step(s, e), n) == Handles(s, n) + (if e == DoAttach(n) && n in s.stats then 1 else 0)
                                      - (if e == DoRelease(n) && Handles(s, n) > 0 then 1 else 0)
  {
    HandlesOpen(s, n);
  }

  // ------------------------------------------------------------------ the gap in opening

  ghost predicate CreatesAt(s: State, es: seq<Event>, k: nat, n: nat)
    requires k < |es|
  {
    Creates(StateAt(s, es, k), es[k], n)
  }

  /** The steps that delete the row of an inode: the orphan check of an unlink, or the release
      of the last handle, while no path refers to it and nobody else has it open. */
  ghost predicate Loses(s: State, e: Event, n: nat) {
    && !HasPath(s, n)
    && ((e == DoCheck(n) && n !in s.open) || (e == DoRelease(n) && n in s.open && s.open[n] <= 1))
  }

  /** No other step of any kind does. */
  lemma RowLostIff(s: State, e: Event, n: nat)
    requires n in s.stats
    ensures n !in Step(s, e).stats <==> Loses(s, e, n)
  {
    assert HasPath(s, n) <==> n in s.paths.Values;
  }

  ghost predicate RowAt(s: State, es: seq<Event>, k: nat, n: nat)
    requires k <= |es|
  {
    n in StateAt(s, es, k).stats
  }

  ghost predicate LosesAt(s: State, es: seq<Event>, k: nat, n: nat)
    requires k < |es|
  {
    Loses(StateAt(s, es, k), es[k], n)
  }

  /** A handle is attached to its file some time after the file was looked up.  The row that was
      looked up is there all the time if and only if none of those steps comes in between. */
  lemma RowSurvivesIff(s: State, es: seq<Event>, i: nat, j: nat, n: nat)
    requires i <= j <= |es| && RowAt(s, es, i, n)
    ensures (forall k {:trigger RowAt(s, es, k, n)} :: i <= k <= j ==> RowAt(s, es, k, n))
            <==> forall k {:trigger LosesAt(s, es, k, n)} :: i <= k < j ==> !LosesAt(s, es, k, n)
  {
    if forall k {:trigger LosesAt(s, es, k, n)} :: i <= k < j ==> !LosesAt(s, es, k, n) {
      forall k | i <= k <= j ensures RowAt(s, es, k, n) {
        RowStays(s, es, i, k, n);
      }
    } else {
      var k :| i <= k < j && LosesAt(s, es, k, n);
      if RowAt(s, es, k, n) {
        RowLostIff(StateAt(s, es, k), es[k], n);
        assert !RowAt(s, es, k + 1, n);
      }
    }
  }

  lemma {:induction false} RowStays(s: State, es: seq<Event>, i: nat, j: nat, n: nat)
    requires i <= j <= |es| && RowAt(s, es, i, n)
    requires forall k {:trigger LosesAt(s, es, k, n)} :: i <= k < j ==> !LosesAt(s, es, k, n)
    ensures RowAt(s, es, j, n)
    decreases j
  {
    if i < j {
      RowStays(s, es, i, j - 1, n);
      assert !LosesAt(s, es, j - 1, n);
      RowLostIff(StateAt(s, es, j - 1), es[j - 1], n);
    }
  }

  /** For a caller: the row survives if the file is open already and no handle of it is released
      in between. */
  lemma KeptByHandle(s: State, es: seq<Event>, i: nat, j: nat, n: nat)
    requires i <= j <= |es| && RowAt(s, es, i, n)
    requires n in StateAt(s, es, i).open && DoRelease(n) !in es[i..j]
    ensures RowAt(s, es, j, n)
  {
    forall k | i <= k < j ensures !LosesAt(s, es, k, n) {
      StaysOpen(s, es, i, k, j, n);
      assert es[k] == es[i..j][k - i];
    }
    RowStays(s, es, i, j, n);
  }

  ghost predicate PathAt(s: State, es: seq<Event>, k: nat, path: string, n: nat)
    requires k <= |es|
  {
    path in StateAt(s, es, k).paths && StateAt(s, es, k).paths[path] == n
  }

  /** Or if one of its paths is kept. */
  lemma KeptByPath(s: State, es: seq<Event>, i: nat, j: nat, path: string, n: nat)
    requires i <= j <= |es| && RowAt(s, es, i, n)
    requires forall k {:trigger PathAt(s, es, k, path, n)} :: i <= k < j ==> PathAt(s, es, k, path, n)
    ensures RowAt(s, es, j, n)
  {
    forall k | i <= k < j ensures !LosesAt(s, es, k, n) {
      assert PathAt(s, es, k, path, n);
      assert HasPath(StateAt(s, es, k), n);
    }
    RowStays(s, es, i, j, n);
  }

  lemma OpenNext(s: State, e: Event, n: nat)
    requires n in s.open && e != DoRelease(n)
    ensures n in Step(s, e).open
  {
  }

  lemma {:induction false} StaysOpen(s: State, es: seq<Event>, i: nat, k: nat, j: nat, n: nat)
    requires i <= k <= j <= |es| && n in StateAt(s, es, i).open && DoRelease(n) !in es[i..j]
    ensures n in StateAt(s, es, k).open
    decreases k
  {
    if i < k {
      StaysOpen(s, es, i, k - 1, j, n);
      assert es[k - 1] == es[i..j][k - 1 - i];
      OpenNext(StateAt(s, es, k - 1), es[k - 1], n);
    }
  }

  /** It can happen: one thread opens a file, another removes it and creates a new one, and the
      first thread's handle ends up with the row of the new file. */
  lemma OpenRace() returns (s: State, es: seq<Event>, n: nat)
    ensures Run(s, es) && |es| == 4 && es[3] == DoAttach(n) && CreatesAt(s, es, 2, n)
    ensures "/old" in s.paths && s.paths["/old"] == n && n in s.stats
    ensures var t := StateAt(s, es, 4); n in t.open && n in t.stats && t.stats[n] != s.stats[n] && "/old" !in t.paths
  {
    n := 1;
    var a, b := Stat(1, 0, 0, 0), Stat(2, 0, 0, 0);
    s := State(map["/old" := 1], map[1 := a], map[], multiset{}, {});
    es := [DoUnlink("/old"), DoCheck(1), DoCreate("/new", b, 1), DoAttach(1)];
    RaceSteps(s, a, b);
    assert s.paths["/old"] == 1 && HasPath(s, 1) && Accounted(s, 1);
    StateAtNext(s, es, 0);
    StateAtNext(s, es, 1);
    StateAtNext(s, es, 2);
    StateAtNext(s, es, 3);
  }

  lemma StateAtNext(s: State, es: seq<Event>, k: nat)
    requires k < |es|
    ensures StateAt(s, es, k + 1) == Step(StateAt(s, es, k), es[k]) && StateAt(s, es, 0) == s
  {
  }

  lemma RaceSteps(s: State, a: Stat, b: Stat)
    requires s == State(map["/old" := 1], map[1 := a], map[], multiset{}, {})
    ensures Step(s, DoUnlink("/old")) == State(map[], map[1 := a], map[], multiset{1}, {})
    ensures Step(State(map[], map[1 := a], map[], multiset{1}, {}), DoCheck(1))
            == State(map[], map[], map[], multiset{}, {})
    ensures Step(State(map[], map[], map[], multiset{}, {}), DoCreate("/new", b, 1))
            == State(map["/new" := 1], map[1 := b], map[], multiset{}, {})
  {
    assert s.paths - {"/old"} == map[];
    assert multiset{} + multiset{1} == multiset{1} && multiset{1} - multiset{1} == multiset{};
    assert map[1 := a] - {1} == map[];
  }

  /** Where nothing is in flight and no path was replaced, a row exists exactly while a path or
      an open file needs it. */
  lemma LifetimeExact(s: State, es: seq<Event>, k: nat, n: nat)
    requires Run(s, es) && k <= |es|
    requires var t := StateAt(s, es, k); n !in t.checks && n !in t.dropped
    ensures var t := StateAt(s, es, k); n in t.stats <==> HasPath(t, n) || n in t.open
  {
    var t := StateAt(s, es, k);
    RunOk(s, es, k);
    assert n in t.stats ==> Accounted(t, n);
    assert HasPath(t, n) ==> n in t.stats;
  }

  /** Unlinking the last path of an inode that is not open removes its row, once the unlink has
      looked for the orphan; an open inode, or one with another path, keeps it. */
  lemma UnlinkRemovesLast(s: State, path: string)
    requires Ok(s) && path in s.paths
    ensures var n, t := s.paths[path], Check(Unlink(s, path), s.paths[path]);
            n in t.stats <==> n in s.open || exists p :: p in s.paths && p != path && s.paths[p] == n
    ensures Check(Unlink(s, path), s.paths[path]).checks == s.checks
  {
    var n, u := s.paths[path], Unlink(s, path);
    assert HasPath(s, n);
    assert n in u.paths.Values <==> exists p :: p in s.paths && p != path && s.paths[p] == n by {
      if n in u.paths.Values {
        var p :| p in u.paths && u.paths[p] == n;
        assert p in s.paths && p != path && s.paths[p] == n;
      } else {
        forall p | p in s.paths && p != path ensures s.paths[p] != n {
          assert p in u.paths && u.paths[p] == s.paths[p];
        }
      }
    }
  }

  /** Replacing `dst` in a rename does not look for an orphan: the row of the replaced file stays
      behind exactly if that file was neither open nor reachable by another path. */
  lemma RenameLeavesOrphan(s: State, src: string, dst: string, rows: seq<string>)
    requires Ok(s) && Listing(s.paths, rows, src) && MayMove(s.paths, src, dst) && src in s.paths && dst in s.paths
    ensures var n, t := s.paths[dst], Rename(s, src, dst, rows, true);
            n in t.stats && (!HasPath(t, n) && n !in t.open
                             <==> n !in s.open && forall p :: p in s.paths && s.paths[p] == n ==> p == dst)
  {
    var n, t := s.paths[dst], Rename(s, src, dst, rows, true);
    assert HasPath(s, n);
    if HasPath(t, n) {
      var q :| q in t.paths && t.paths[q] == n;
      RenameMovesSubtree(s.paths, rows, src, dst, q);
      RenameMovesSubtree(s.paths, rows, src, dst, src);
      OriginOther(s, src, dst, rows, q, n);
    } else {
      forall p | p in s.paths && s.paths[p] == n ensures p == dst {
        RenameMovesSubtree(s.paths, rows, src, dst, p);
      }
    }
  }

  /** Renaming "/a" to "/b" leaves the row of what was "/b" to nobody. */
  lemma OrphanLeft() returns (s: State, t: State, n: nat)
    ensures Ok(s) && Listing(s.paths, ["/a"], "/a") && t == Rename(s, "/a", "/b", ["/a"], true)
    ensures n in t.stats && !HasPath(t, n) && n !in t.open && n !in t.checks
  {
    var a, b := "/a", "/b";
    assert a[1] != b[1];
    var stat := Stat(0, 0, 0, 0);
    s, n := State(map[a := 1, b := 2], map[1 := stat, 2 := stat], map[], multiset{}, {}), 2;
    t := Rename(s, a, b, [a], true);
    assert s.paths[a] == 1 && s.paths[b] == 2 && HasPath(s, 1) && HasPath(s, 2) && Accounted(s, 1) && Accounted(s, 2);
    forall p | p in s.paths ensures Selected(a, p) <==> p == a {
      SelectedIsUnder(a, p);
    }
    RenameLeavesOrphan(s, a, b, [a]);
  }

  /** A path with the inode that `dst` had comes from a path other than `dst`. */
  lemma OriginOther(s: State, src: string, dst: string, rows: seq<string>, q: string, n: nat)
    requires Listing(s.paths, rows, src) && MayMove(s.paths, src, dst) && src in s.paths && dst in s.paths
    requires var after := MoveRows(s.paths, rows, src, dst); q in after && after[q] == n
    ensures exists p :: p in s.paths && s.paths[p] == n && p != dst
  {
    RenameMovesSubtree(s.paths, rows, src, dst, q);
    RenameMovesSubtree(s.paths, rows, src, dst, src);
    assert ChangePrefix(src, |src|, dst) == dst;
    if q == dst {
      assert s.paths[src] == n && src != dst;
    } else if q in s.paths && s.paths[q] == n {
    } else {
      MovedUnder(dst, src, q);
      assert Under(src, Origin(q, src, dst)) && s.paths[Origin(q, src, dst)] == n;
    }
  }

  // ------------------------------------------------------------------ the store, updated in place

  /** `Died` is the program ending itself because the database contradicts the host. */
  datatype Outcome = Done | Failed(errno: int) | Died

  class Store {
    var paths: Paths
    var stats: map<nat, Stat>
    var open: map<nat, nat>
    ghost var checks: multiset<nat>
    ghost var dropped: set<nat>

    ghost function View(): State
      reads this
    {
      State(paths, stats, open, checks, dropped)
    }

    constructor ()
      ensures Ok(View()) && View() == State(map[], map[], map[], multiset{}, {})
    {
      paths, stats, open, checks, dropped := map[], map[], map[], multiset{}, {};
    }

    method GetInode(path: string) returns (n: nat)
      ensures n == Inode(View(), path)
    {
      n := if path in paths then paths[path] else 0;
    }

    method InsertPath(path: string, n: nat)
      modifies this
      ensures View() == SetPath(old(View()), path, n)
    {
      if path in paths {
        dropped := dropped + {paths[path]};
      }
      paths := paths[path := n];
    }

    /** path_create. */
    method PathCreate(path: string, stat: Stat, n: nat)
      requires Ok(View()) && n > 0 && n !in stats
      modifies this
      ensures Ok(View()) && View() == Create(old(View()), path, stat, n)
    {
      CreateOk(View(), path, stat, n);
      stats := stats[n := stat];
      InsertPath(path, n);
    }

    /** The database part of fakefs_open, once the host has opened the file; 0 is ENOENT. */
    method OpenFile(path: string, create: bool, stat: Stat, n: nat) returns (ino: nat)
      requires Ok(View()) && n > 0 && n !in stats
      modifies this
      ensures Ok(View()) && View() == OpenPath(old(View()), path, create, stat, n)
      ensures ino == Inode(View(), path)
      ensures ino > 0 ==> ino in stats
    {
      ino := GetInode(path);
      if create && ino == 0 {
        PathCreate(path, stat, n);
        ino := GetInode(path);
      }
      assert HasPath(View(), ino) || ino == 0;
    }

    /** The end of generic_openat. */
    method AttachInode(n: nat) returns (ok: bool)
      requires Ok(View())
      modifies this`open
      ensures Ok(View()) && View() == Attach(old(View()), n)
      ensures ok <==> n in stats
    {
      AttachOk(View(), n);
      if n !in stats {
        return false;
      }
      open := open[n := (if n in open then open[n] else 0) + 1];
      return true;
    }

    /** fakefs_link. */
    method LinkFile(src: string, dst: string, hostError: int) returns (r: Outcome)
      requires Ok(View())
      modifies this
      ensures Ok(View())
      ensures r == if hostError < 0 then Failed(hostError) else if src in old(paths) then Done else Died
      ensures View() == if hostError < 0 then old(View()) else Link(old(View()), src, dst)
      ensures r == Done ==> dst in paths && paths == old(paths)[dst := old(paths)[src]]
    {
      LinkOk(View(), src, dst);
      if hostError < 0 {
        return Failed(hostError);
      }
      if src !in paths {
        return Died;
      }
      InsertPath(dst, paths[src]);
      return Done;
    }

    /** fakefs_unlink: first the database, then the search for an orphan, which another thread
        may precede. */
    method UnlinkPath(path: string, hostError: int) returns (r: Outcome, n: nat)
      requires Ok(View())
      modifies this
      ensures Ok(View())
      ensures r == if hostError < 0 then Failed(hostError) else if path in old(paths) then Done else Died
      ensures View() == if hostError < 0 then old(View()) else Unlink(old(View()), path)
      ensures r == Done ==> n == old(paths)[path]
    {
      UnlinkOk(View(), path);
      if hostError < 0 {
        return Failed(hostError), 0;
      }
      if path !in paths {
        return Died, 0;
      }
      n := paths[path];
      checks := checks + multiset{n};
      paths := paths - {path};
      return Done, n;
    }

    /** fakefs_inode_orphaned. */
    method InodeOrphaned(n: nat)
      modifies this
      ensures View() == Cleanup(old(View()), n)
      ensures paths == old(paths) && open == old(open) && stats - {n} == old(stats) - {n}
      ensures n in stats <==> n in old(stats) && exists p :: p in paths && paths[p] == n
      ensures n in stats ==> stats[n] == old(stats)[n]
    {
      if n !in paths.Values {
        stats := stats - {n};
        dropped := dropped - {n};
      }
    }

    /** inode_check_orphaned. */
    method CheckOrphaned(n: nat)
      requires Ok(View())
      modifies this
      ensures Ok(View()) && View() == Check(old(View()), n)
    {
      CheckOk(View(), n);
      checks := checks - multiset{n};
      if n !in open {
        InodeOrphaned(n);
      }
    }

    /** inode_release. */
    method ReleaseInode(n: nat)
      requires Ok(View()) && n in open
      modifies this
      ensures Ok(View()) && View() == Release(old(View()), n)
    {
      ReleaseOk(View(), n);
      open := open[n := open[n] - 1];
      if open[n] == 0 {
        open := open - {n};
        assert open == old(open) - {n};
        InodeOrphaned(n);
      }
    }

    /** fakefs_rename: the rows are updated one by one, and put back if the host refuses. */
    method RenamePath(src: string, dst: string, rows: seq<string>, hostError: int) returns (r: Outcome)
      requires Ok(View()) && Listing(paths, rows, src)
      modifies this
      ensures Ok(View()) && View() == Rename(old(View()), src, dst, rows, hostError >= 0)
      ensures r == if hostError < 0 then Failed(hostError) else Done
      ensures hostError < 0 ==> paths == old(paths)
    {
      RenameOk(View(), src, dst, rows, hostError >= 0);
      var before, landed, k := paths, {}, 0;
      while k < |rows|
        invariant k <= |rows| && View() == old(View()).(paths := paths)
        invariant Update(paths, landed) == MoveAll(before, rows[..k], src, dst)
      {
        assert rows[..k + 1][..k] == rows[..k];
        var row := rows[k];
        if row in paths && row !in landed && |src| <= |row| {
          var n := paths[row];
          paths := paths - {row};
          paths := paths[ChangePrefix(row, |src|, dst) := n];
          landed := landed + {ChangePrefix(row, |src|, dst)};
        }
        k := k + 1;
      }
      assert rows[..k] == rows;
      if hostError < 0 {
        paths := before;
        return Failed(hostError);
      }
      dropped := dropped + (before.Values - paths.Values);
      return Done;
    }
  }
}
