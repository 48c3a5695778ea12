/** The laws of path resolution (fs/path.c:30-113): what a walk makes of each kind of component,
    said without its steps.  Together they determine the result of every walk. */
module PathLaws {
  import opened Lists
  import opened PathWalk

  /** From `done` the components `cs` lead through directories alone: none of the paths on the way
      is a symbolic link, and each may be entered. */
  ghost predicate Clear(fs: Filesystem, done: seq<string>, cs: seq<string>) {
    AllProper(cs) && forall k {:trigger ClearAt(fs, done, cs, k)} :: 1 <= k <= |cs| ==> ClearAt(fs, done, cs, k)
  }

  ghost predicate ClearAt(fs: Filesystem, done: seq<string>, cs: seq<string>, k: nat)
    requires k <= |cs|
  {
    !IsLink(fs, done + cs[..k]) && MayEnter(fs, done + cs[..k])
  }

  lemma ClearTail(fs: Filesystem, done: seq<string>, cs: seq<string>)
    requires Clear(fs, done, cs) && cs != []
    ensures Clear(fs, done + [cs[0]], cs[1..]) && ClearAt(fs, done, cs, 1) && cs[..1] == [cs[0]] && Proper(cs[0])
  {
    assert ClearAt(fs, done, cs, 1);
    forall k | 1 <= k <= |cs| - 1 ensures ClearAt(fs, done + [cs[0]], cs[1..], k) {
      assert ClearAt(fs, done, cs, k + 1);
      assert done + [cs[0]] + cs[1..][..k] == done + cs[..k + 1];
    }
  }

  lemma ClearHead(fs: Filesystem, done: seq<string>, cs: seq<string>, c: string)
    requires Clear(fs, done, cs + [c])
    ensures Clear(fs, done, cs) && Proper(c)
  {
    assert (cs + [c])[|cs|] == c;
    forall i | 0 <= i < |cs| ensures Proper(cs[i]) {
      assert (cs + [c])[i] == cs[i];
    }
    forall k | 1 <= k <= |cs| ensures ClearAt(fs, done, cs, k) {
      assert ClearAt(fs, done, cs + [c], k);
      assert (cs + [c])[..k] == cs[..k];
    }
  }

  /** Directories are walked through one after the other. */
  lemma {:induction false} WalkThrough(fs: Filesystem, done: seq<string>, cs: seq<string>, rest: seq<string>,
                                       slash: bool, follow: bool, budget: nat)
    requires Clear(fs, done, cs)
    ensures Walk(fs, done, cs + rest, slash, follow, budget) == Walk(fs, done + cs, rest, slash, follow, budget)
    decreases |cs|
  {
    if cs == [] {
      assert cs + rest == rest && done + cs == done;
    } else {
      var c, more := cs[0], cs[1..] + rest;
      ClearTail(fs, done, cs);
      assert cs + rest == [c] + more && done + [c] + cs[1..] == done + cs;
      StepName(fs, done, c, more, slash, follow, budget);
      if !follow && more == [] {
        WalkStop(fs, done, [c] + more, slash, follow, budget);
        WalkDone(fs, done + cs, slash, follow, budget);
      } else {
        WalkGo(fs, done, [c] + more, slash, follow, budget, Go(done + [c], more, slash, budget));
        WalkThrough(fs, done + [c], cs[1..], rest, slash, follow, budget);
      }
    }
  }

  /** A path through directories is its own result. */
  lemma ClearResolves(fs: Filesystem, done: seq<string>, cs: seq<string>, slash: bool, follow: bool, budget: nat)
    requires Clear(fs, done, cs)
    ensures Walk(fs, done, cs, slash, follow, budget) == Ok(done + cs)
  {
    assert cs + [] == cs;
    WalkThrough(fs, done, cs, [], slash, follow, budget);
    WalkDone(fs, done + cs, slash, follow, budget);
  }

  /** A directory followed by ".." might as well not be there. */
  lemma DotDotCancels(fs: Filesystem, done: seq<string>, cs: seq<string>, c: string, rest: seq<string>,
                      slash: bool, follow: bool, budget: nat)
    requires Clear(fs, done, cs + [c])
    ensures Walk(fs, done, cs + [c, ".."] + rest, slash, follow, budget)
         == Walk(fs, done, cs + rest, slash, follow, budget)
  {
    var up := [".."] + rest;
    ClearHead(fs, done, cs, c);
    assert cs + [c, ".."] + rest == cs + [c] + up;
    WalkThrough(fs, done, cs + [c], up, slash, follow, budget);
    StepDots(fs, done + (cs + [c]), "..", rest, slash, follow, budget);
    assert (done + (cs + [c]))[..|done + cs|] == done + cs;
    WalkGo(fs, done + (cs + [c]), up, slash, follow, budget, Go(done + cs, rest, slash, budget));
    WalkThrough(fs, done, cs, rest, slash, follow, budget);
  }

  /** In general ".." leads from a directory to the one that holds it, also where the walk began
      below it. */
  lemma DotDotLeaves(fs: Filesystem, dir: seq<string>, c: string, rest: seq<string>, slash: bool, follow: bool,
                     budget: nat)
    ensures Walk(fs, dir + [c], [".."] + rest, slash, follow, budget) == Walk(fs, dir, rest, slash, follow, budget)
  {
    StepDots(fs, dir + [c], "..", rest, slash, follow, budget);
    assert (dir + [c])[..|dir|] == dir;
    WalkGo(fs, dir + [c], [".."] + rest, slash, follow, budget, Go(dir, rest, slash, budget));
  }

  /** The root is its own parent. */
  lemma DotDotAtRoot(fs: Filesystem, rest: seq<string>, slash: bool, follow: bool, budget: nat)
    ensures Walk(fs, [], [".."] + rest, slash, follow, budget) == Walk(fs, [], rest, slash, follow, budget)
  {
    StepDots(fs, [], "..", rest, slash, follow, budget);
    WalkGo(fs, [], [".."] + rest, slash, follow, budget, Go([], rest, slash, budget));
  }

  lemma DotIgnored(fs: Filesystem, done: seq<string>, rest: seq<string>, slash: bool, follow: bool, budget: nat)
    ensures Walk(fs, done, ["."] + rest, slash, follow, budget) == Walk(fs, done, rest, slash, follow, budget)
  {
    StepDots(fs, done, ".", rest, slash, follow, budget);
    WalkGo(fs, done, ["."] + rest, slash, follow, budget, Go(done, rest, slash, budget));
  }

  /** A name that is not a link and is not followed by anything is taken as it is, whether or not
      there is such a file. */
  lemma LastName(fs: Filesystem, done: seq<string>, c: string, follow: bool, budget: nat)
    requires Proper(c) && (!follow || !IsLink(fs, done + [c]))
    ensures Walk(fs, done, [c], false, follow, budget) == Ok(done + [c])
  {
    assert [c] == [c] + [];
    StepName(fs, done, c, [], false, follow, budget);
    if follow {
      WalkGo(fs, done, [c] + [], false, follow, budget, Go(done + [c], [], false, budget));
      WalkDone(fs, done + [c], false, follow, budget);
    } else {
      WalkStop(fs, done, [c] + [], false, follow, budget);
    }
  }

  /** A link at the end is not followed if the caller does not want it to be, even with a slash. */
  lemma LastLinkKept(fs: Filesystem, done: seq<string>, c: string, slash: bool, budget: nat)
    requires Proper(c)
    ensures Walk(fs, done, [c], slash, false, budget) == Ok(done + [c])
  {
    assert [c] == [c] + [];
    StepName(fs, done, c, [], slash, false, budget);
    WalkStop(fs, done, [c] + [], slash, false, budget);
  }

  /** What is not a directory, or may not be searched, is not walked through. */
  lemma RefusedFails(fs: Filesystem, done: seq<string>, c: string, rest: seq<string>, slash: bool, follow: bool,
                     budget: nat)
    requires Proper(c) && Join(done + [c]) !in fs.links && (rest != [] || (slash && follow))
    requires Join(done + [c]) in fs.refused && fs.refused[Join(done + [c])] < 0
    ensures Walk(fs, done, [c] + rest, slash, follow, budget) == Err(fs.refused[Join(done + [c])])
  {
    StepName(fs, done, c, rest, slash, follow, budget);
    WalkStop(fs, done, [c] + rest, slash, follow, budget);
  }

  /** Whether the path ends in a slash once a link with target `t` is expanded. */
  predicate SlashAfter(t: string, rest: seq<string>, slash: bool) {
    if rest != [] then slash else t == "" || t[|t| - 1] == '/'
  }

  lemma LinkExpands(fs: Filesystem, dir: seq<string>, c: string, rest: seq<string>, slash: bool, follow: bool,
                    budget: nat, t: string, todo: seq<string>, after: bool, r: Result<seq<string>>)
    requires Proper(c) && Readlink(fs, Join(dir + [c])) == Some(t) && (follow || rest != []) && budget > 0
    requires todo == Expanded(dir, t, rest) && after == SlashAfter(t, rest, slash)
    requires r == Walk(fs, [], todo, after, follow, budget - 1)
    ensures Walk(fs, dir, [c] + rest, slash, follow, budget) == r
  {
    StepName(fs, dir, c, rest, slash, follow, budget);
    WalkGo(fs, dir, [c] + rest, slash, follow, budget, Go([], todo, after, budget - 1));
  }

  /** Where a target counts from. */
  function LinkBase(dir: seq<string>, t: string): seq<string> {
    if t != "" && t[0] == '/' then [] else dir
  }

  lemma ExpandedIs(dir: seq<string>, t: string, rest: seq<string>)
    requires AllProper(dir)
    ensures Expanded(dir, t, rest) == LinkBase(dir, t) + (Comps(t) + rest)
  {
    ProperTodo(dir);
    NonEmptyTodo(dir);
  }

  /** A link resolves as its target with what is left behind it, `todo`: an absolute one from the
      root, a relative one in the directory that holds it. */
  lemma LinkResolves(fs: Filesystem, dir: seq<string>, c: string, rest: seq<string>, slash: bool, follow: bool,
                     budget: nat, t: string, base: seq<string>, todo: seq<string>, after: bool, r: Result<seq<string>>)
    requires Proper(c) && (follow || rest != []) && budget > 0
    requires Join(dir + [c]) in fs.links && fs.links[Join(dir + [c])] == t
    requires Clear(fs, [], dir) && todo == Comps(t) + rest && after == SlashAfter(t, rest, slash)
    requires base == if t != "" && t[0] == '/' then [] else dir
    requires r == Walk(fs, base, todo, after, follow, budget - 1)
    ensures Walk(fs, dir, [c] + rest, slash, follow, budget) == r
  {
    ExpandedIs(dir, t, rest);
    FromRoot(fs, base, todo, after, follow, budget - 1);
    LinkExpands(fs, dir, c, rest, slash, follow, budget, t, base + todo, after, r);
  }

  lemma FromRoot(fs: Filesystem, dir: seq<string>, todo: seq<string>, slash: bool, follow: bool, budget: nat)
    requires Clear(fs, [], dir)
    ensures Walk(fs, [], dir + todo, slash, follow, budget) == Walk(fs, dir, todo, slash, follow, budget)
  {
    assert [] + dir == dir;
    WalkThrough(fs, [], dir, todo, slash, follow, budget);
  }

  /** With no budget left there is no following it. */
  lemma LinkRefused(fs: Filesystem, dir: seq<string>, c: string, rest: seq<string>, slash: bool, follow: bool)
    requires Proper(c) && IsLink(fs, dir + [c]) && (follow || rest != [])
    ensures Walk(fs, dir, [c] + rest, slash, follow, 0) == Err(ELOOP)
  {
    StepName(fs, dir, c, rest, slash, follow, 0);
    WalkStop(fs, dir, [c] + rest, slash, follow, 0);
  }

  // ------------------------------------------------------------------ where a walk starts

  /** A directory's path has the components of its mount point and of the path within the mount. */
  lemma GetpathComps(point: string, within: string)
    requires SlashLed(within)
    ensures Comps(Getpath(point, within)) == Comps(point) + Comps(within)
  {
    if within == "" {
      assert point + within == point && Comps(point) + [] == Comps(point);
      assert Comps("/") == [] && Comps("") == [];
    } else {
      var rest := within[1..];
      assert point + within == point + "/" + rest;
      CompsCat(point, rest);
      assert Comps(within) == Comps(rest);
    }
  }

  /** A walk from a directory's path starts with the components of that path. */
  lemma BaseComps(at: string)
    requires Normal(at) && (at == "/" || !EndsInSlash(at))
    ensures Base(Some(at)) == Comps(at) && Join(Base(Some(at))) == if at == "/" then "" else at
  {
    if at == "/" {
      assert Comps("/") == Comps("/"[1..]) == [];
    } else {
      SplitNonEmpty(at);
      CompsJoin(Split(at));
      NonEmptyTodo(Split(at));
    }
  }
}
