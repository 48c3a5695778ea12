/** Renaming a subtree in the path table (fs/fake-db.c): which rows the statement selects, and what
    updating them one by one, in any order, does to the table.

    Paths are blobs; a character stands for a byte and the order is that of the bytes. */
module PathRename {

  /** memcmp order, a prefix first. */
  predicate Less(a: string, b: string) {
    if b == "" then false
    else if a == "" then true
    else if a[0] != b[0] then a[0] < b[0]
    else Less(a[1..], b[1..])
  }

  /** `path` is `dir` or lies below it. */
  predicate Under(dir: string, path: string) {
    path == dir || dir + "/" <= path
  }

  /** The where clause of the update. */
  predicate Selected(src: string, path: string) {
    (!Less(path, src + "/") && Less(path, src + "0")) || path == src
  }

  lemma {:induction false} RangeIsSubtree(src: string, path: string)
    ensures !Less(path, src + "/") && Less(path, src + "0") <==> src + "/" <= path
  {
    var lo, hi := src + "/", src + "0";
    if src == "" {
      assert lo == "/" && hi == "0";
      assert path != "" && path[0] == '/' ==> !Less(path[1..], "");
      assert path != "" ==> (path[0] == '/' <==> '/' <= path[0] < '0');
      assert path != "" && path[0] == '/' <==> lo <= path;
    } else if path != "" {
      assert lo[1..] == src[1..] + "/" && hi[1..] == src[1..] + "0";
      assert lo[0] == src[0] == hi[0];
      RangeIsSubtree(src[1..], path[1..]);
      assert lo <= path <==> path[0] == lo[0] && lo[1..] <= path[1..] by {
        if path[0] == lo[0] && lo[1..] <= path[1..] {
          assert lo == [lo[0]] + lo[1..] && path == [path[0]] + path[1..];
        }
      }
    }
  }

  /** The byte range from src + "/" up to src + "0", with src itself, is exactly the subtree. */
  lemma SelectedIsUnder(src: string, path: string)
    ensures Selected(src, path) <==> Under(src, path)
  {
    RangeIsSubtree(src, path);
  }

  /** change_prefix. */
  function ChangePrefix(path: string, n: nat, dst: string): string
    requires n <= |path|
  {
    dst + path[n..]
  }

  lemma MovedUnder(src: string, dst: string, path: string)
    requires Under(src, path)
    ensures |src| <= |path| && Under(dst, ChangePrefix(path, |src|, dst))
    ensures ChangePrefix(ChangePrefix(path, |src|, dst), |dst|, src) == path
  {
    var moved := ChangePrefix(path, |src|, dst);
    if path == src {
      assert moved == dst && moved[|dst|..] == "";
      assert src + "" == path;
    } else {
      assert path == src + path[|src|..];
      assert path[|src|] == '/';
      assert dst + "/" == moved[..|dst| + 1];
      assert moved[|dst|..] == path[|src|..];
    }
  }

  /** Two directories with a common descendant lie one below the other. */
  lemma CommonDescendant(a: string, b: string, path: string)
    requires Under(a, path) && Under(b, path)
    ensures Under(a, b) || Under(b, a)
  {
    assert a == path[..|a|] && b == path[..|b|];
    if |a| < |b| {
      assert (a + "/")[..|a| + 1] == path[..|a| + 1] == b[..|a| + 1];
    } else if |b| < |a| {
      assert (b + "/")[..|b| + 1] == path[..|b| + 1] == a[..|b| + 1];
    }
  }

  lemma UnderTransitive(a: string, b: string, c: string)
    requires Under(a, b) && Under(b, c)
    ensures Under(a, c)
  {
  }

  // ------------------------------------------------------------------ the update

  type Paths = map<string, nat>

  /** The table during the update, and the paths that updated rows have landed on: whatever row
      had such a path before has been replaced. */
  datatype Update = Update(paths: Paths, landed: set<string>)

  /** Update one row, replacing the row that has the new path; a row that was itself replaced
      meanwhile is skipped. */
  function MoveRow(u: Update, row: string, src: string, dst: string): Update {
    if row in u.paths && row !in u.landed && |src| <= |row| then
      var to := ChangePrefix(row, |src|, dst);
      Update((u.paths - {row})[to := u.paths[row]], u.landed + {to})
    else u
  }

  /** Update the rows in the given order. */
  function MoveAll(paths: Paths, rows: seq<string>, src: string, dst: string): Update {
    if rows == [] then Update(paths, {})
    else MoveRow(MoveAll(paths, rows[..|rows| - 1], src, dst), rows[|rows| - 1], src, dst)
  }

  function MoveRows(paths: Paths, rows: seq<string>, src: string, dst: string): Paths {
    MoveAll(paths, rows, src, dst).paths
  }

  /** `rows` lists the selected rows, each once, in some order. */
  ghost predicate Listing(paths: Paths, rows: seq<string>, src: string) {
    && (forall i, j :: 0 <= i < j < |rows| ==> rows[i] != rows[j])
    && (forall p :: p in rows <==> p in paths && Selected(src, p))
  }

  /** `dst` is outside the subtree of `src` and has no descendants in the table. */
  ghost predicate MayMove(paths: Paths, src: string, dst: string) {
    !Under(src, dst) && forall p :: p in paths && Under(dst, p) ==> p == dst
  }

  /** Where a path in the subtree of `dst` came from. */
  function Origin(path: string, src: string, dst: string): string {
    if |dst| <= |path| then ChangePrefix(path, |dst|, src) else path
  }

  /** The inode at a path once the rows in `moved` have been updated. */
  function InodeAfter(paths: Paths, moved: set<string>, src: string, dst: string, path: string): (r: nat) {
    if Under(dst, path) && Origin(path, src, dst) in moved && Origin(path, src, dst) in paths then
      paths[Origin(path, src, dst)]
    else if path in paths then paths[path]
    else 0
  }

  ghost predicate PresentAfter(paths: Paths, moved: set<string>, src: string, dst: string, path: string) {
    || (Under(dst, path) && Origin(path, src, dst) in moved && Origin(path, src, dst) in paths)
    || (path in paths && path !in moved)
  }

  ghost predicate Moved(paths: Paths, after: Paths, moved: set<string>, src: string, dst: string) {
    forall path {:trigger path in after} ::
      && (path in after <==> PresentAfter(paths, moved, src, dst, path))
      && (path in after ==> after[path] == InodeAfter(paths, moved, src, dst, path))
  }

  /** No new path is the path of a row that is still to be moved. */
  lemma NoCollision(paths: Paths, src: string, dst: string, row: string, path: string)
    requires MayMove(paths, src, dst) && row in paths && Under(src, row) && Under(dst, path)
    ensures path != row
  {
    if path == row {
      CommonDescendant(src, dst, row);
      if Under(dst, src) {
        UnderTransitive(dst, src, row);
      }
    }
  }

  /** An update under way has moved exactly the rows in `moved`. */
  ghost predicate Underway(paths: Paths, u: Update, moved: set<string>, src: string, dst: string) {
    Moved(paths, u.paths, moved, src, dst) && forall p :: p in u.landed ==> Under(dst, p)
  }

  lemma MoveRowMoves(paths: Paths, u: Update, moved: set<string>, src: string, dst: string, row: string)
    requires MayMove(paths, src, dst) && Underway(paths, u, moved, src, dst)
    requires row in paths && Under(src, row) && row !in moved
    ensures Underway(paths, MoveRow(u, row, src, dst), moved + {row}, src, dst)
  {
    MovedUnder(src, dst, row);
    var before, to, after := u.paths, ChangePrefix(row, |src|, dst), MoveRow(u, row, src, dst).paths;
    NoCollision(paths, src, dst, row, to);
    assert row in before && before[row] == paths[row] && row !in u.landed by {
      if Under(dst, row) {
        NoCollision(paths, src, dst, row, row);
      }
    }
    assert Origin(to, src, dst) == row;
    forall path {:trigger path in after}
      ensures path in after <==> PresentAfter(paths, moved + {row}, src, dst, path)
      ensures path in after ==> after[path] == InodeAfter(paths, moved + {row}, src, dst, path)
    {
      assert path in before <==> PresentAfter(paths, moved, src, dst, path);
      if Under(dst, path) && Origin(path, src, dst) == row {
        assert path == to by { OriginInjective(path, src, dst); }
      }
      if Under(dst, path) {
        NoCollision(paths, src, dst, row, path);
      }
    }
  }

  lemma OriginInjective(path: string, src: string, dst: string)
    requires Under(dst, path)
    ensures |src| <= |Origin(path, src, dst)| && path == ChangePrefix(Origin(path, src, dst), |src|, dst)
  {
    MovedUnder(dst, src, path);
  }

  lemma {:induction false} MoveRowsMoves(paths: Paths, rows: seq<string>, src: string, dst: string)
    requires MayMove(paths, src, dst)
    requires forall i, j :: 0 <= i < j < |rows| ==> rows[i] != rows[j]
    requires forall p :: p in rows ==> p in paths && Under(src, p)
    ensures Underway(paths, MoveAll(paths, rows, src, dst), (set p | p in rows), src, dst)
  {
    if rows != [] {
      var init, last := rows[..|rows| - 1], rows[|rows| - 1];
      MoveRowsMoves(paths, init, src, dst);
      assert rows == init + [last];
      MoveRowMoves(paths, MoveAll(paths, init, src, dst), (set p | p in init), src, dst, last);
      assert (set p | p in init) + {last} == set p | p in rows;
    }
  }

  /** The subtree moves one-to-one with its inodes, only `dst` is replaced, and every other path
      is left alone, whatever the order of the rows. */
  lemma RenameMovesSubtree(paths: Paths, rows: seq<string>, src: string, dst: string, path: string)
    requires MayMove(paths, src, dst) && Listing(paths, rows, src)
    ensures var after := MoveRows(paths, rows, src, dst);
            && (path in paths && Under(src, path) ==>
                  && |src| <= |path| && ChangePrefix(path, |src|, dst) in after
                  && after[ChangePrefix(path, |src|, dst)] == paths[path] && path !in after)
            && (path in paths && !Under(src, path) && (path != dst || src !in paths) ==>
                  path in after && after[path] == paths[path])
            && (path in after ==>
                  || (path in paths && after[path] == paths[path])
                  || (Under(dst, path) && Origin(path, src, dst) in paths
                    && after[path] == paths[Origin(path, src, dst)]))
  {
    var moved, after := (set p | p in rows), MoveRows(paths, rows, src, dst);
    forall p | p in rows ensures p in paths && Under(src, p) {
      SelectedIsUnder(src, p);
    }
    MoveRowsMoves(paths, rows, src, dst);
    SelectedIsUnder(src, path);
    if path in paths && Under(src, path) {
      MovedUnder(src, dst, path);
      var to := ChangePrefix(path, |src|, dst);
      assert Origin(to, src, dst) == path;
      assert PresentAfter(paths, moved, src, dst, to);
      if Under(dst, path) {
        NoCollision(paths, src, dst, path, path);
      }
      assert !PresentAfter(paths, moved, src, dst, path);
    } else if path in paths {
      assert Origin(dst, src, dst) == src;
      assert path in after <==> PresentAfter(paths, moved, src, dst, path);
    }
  }

  /** The order in which the rows are visited does not matter. */
  lemma RenameOrderIrrelevant(paths: Paths, rows: seq<string>, rows': seq<string>, src: string, dst: string)
    requires MayMove(paths, src, dst) && Listing(paths, rows, src) && Listing(paths, rows', src)
    ensures MoveRows(paths, rows, src, dst) == MoveRows(paths, rows', src, dst)
  {
    forall p | p in rows || p in rows' ensures p in paths && Under(src, p) {
      SelectedIsUnder(src, p);
    }
    MoveRowsMoves(paths, rows, src, dst);
    MoveRowsMoves(paths, rows', src, dst);
    assert (set p | p in rows) == (set p | p in rows');
    var a, b := MoveRows(paths, rows, src, dst), MoveRows(paths, rows', src, dst);
    forall p ensures (p in a <==> p in b) && (p in a ==> a[p] == b[p]) {
      assert p in a || p !in a;
      assert p in b || p !in b;
    }
  }

  /** Whatever the destination, a rename invents no inode. */
  lemma {:induction false} MoveRowsValues(paths: Paths, rows: seq<string>, src: string, dst: string)
    ensures MoveRows(paths, rows, src, dst).Values <= paths.Values
  {
    if rows != [] {
      MoveRowsValues(paths, rows[..|rows| - 1], src, dst);
      var u, row := MoveAll(paths, rows[..|rows| - 1], src, dst), rows[|rows| - 1];
      var before, after := u.paths, MoveRow(u, row, src, dst).paths;
      forall n | n in after.Values ensures n in before.Values {
        var p :| p in after && after[p] == n;
        if after != before && p == ChangePrefix(row, |src|, dst) {
          assert before[row] == n;
        } else {
          assert p in before;
        }
      }
    }
  }
}
