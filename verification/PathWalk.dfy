/** Path normalisation (fs/path.c): the loop over characters, and what the resulting walk over
    path components guarantees.

    Strings are unbounded.  The filesystem is a parameter: the target of a symbolic link, and
    the verdict on a path component that is followed by a slash.

    The walk is the specification.  It resolves one component at a time, starts over at the root
    when it meets a link, and has a budget of links.  NormalizeFrom proves that the source, which
    copies characters, backs up over them and calls itself for a link, does the same; everything
    else is proved about the walk. */
module PathWalk {
  import opened Lists

  datatype Result<T> = Ok(value: T) | Err(errno: int)

  const ENOENT: int := -2
  const ELOOP: int := -40

  /** The targets of the symbolic links, and the paths that exist but are not directories or may
      not be searched, with the error for that. */
  datatype Filesystem = Filesystem(links: map<string, string>, refused: map<string, int>)

  function Readlink(fs: Filesystem, path: string): Option<string> {
    if path in fs.links then Some(fs.links[path]) else None
  }

  /** The check of a path component that is followed by a slash; negative if it fails. */
  function Enter(fs: Filesystem, path: string): int {
    if path in fs.refused then fs.refused[path] else 0
  }

  // ------------------------------------------------------------------ components

  predicate NoSlash(c: string) {
    forall i :: 0 <= i < |c| ==> c[i] != '/'
  }

  /** The length of the component a string starts with. */
  function HeadLen(s: string): (n: nat)
    ensures n <= |s| && NoSlash(s[..n]) && (n < |s| ==> s[n] == '/')
    ensures s != "" && s[0] != '/' ==> n > 0
  {
    if s == "" || s[0] == '/' then 0
    else
      var n := 1 + HeadLen(s[1..]);
      assert s[..n] == [s[0]] + s[1..][..n - 1];
      n
  }

  /** The nonempty components of a string. */
  function Comps(s: string): seq<string>
    decreases |s|
  {
    if s == "" then []
    else if s[0] == '/' then Comps(s[1..])
    else [s[..HeadLen(s)]] + Comps(s[HeadLen(s)..])
  }

  predicate EndsInSlash(s: string) {
    s != "" && s[|s| - 1] == '/'
  }

  /** Slash-led components. */
  function Join(cs: seq<string>): string {
    if cs == [] then "" else Join(cs[..|cs| - 1]) + "/" + cs[|cs| - 1]
  }

  function NonEmpty(cs: seq<string>): seq<string> {
    if cs == [] then []
    else NonEmpty(cs[..|cs| - 1]) + (if cs[|cs| - 1] == "" then [] else [cs[|cs| - 1]])
  }

  ghost predicate Slashless(cs: seq<string>) {
    forall i :: 0 <= i < |cs| ==> NoSlash(cs[i])
  }

  /** A component of a resolved path. */
  predicate Proper(c: string) {
    c != "" && c != "." && c != ".." && NoSlash(c)
  }

  ghost predicate AllProper(cs: seq<string>) {
    forall i {:trigger cs[i]} :: 0 <= i < |cs| ==> Proper(cs[i])
  }

  lemma {:induction false} HeadLenCat(a: string, b: string)
    ensures HeadLen(a + "/" + b) == HeadLen(a)
  {
    if a == "" {
      assert (a + "/" + b)[0] == '/';
    } else if a[0] != '/' {
      assert (a + "/" + b)[1..] == a[1..] + "/" + b;
      HeadLenCat(a[1..], b);
    }
  }

  lemma {:induction false} CompsCat(a: string, b: string)
    ensures Comps(a + "/" + b) == Comps(a) + Comps(b)
    decreases |a|
  {
    if a == "" {
      assert (a + "/" + b)[1..] == b;
    } else if a[0] == '/' {
      assert (a + "/" + b)[1..] == a[1..] + "/" + b;
      CompsCat(a[1..], b);
    } else {
      CompsCat(a[HeadLen(a)..], b);
      CompsCatHead(a, b, HeadLen(a));
    }
  }

  lemma CompsCatHead(a: string, b: string, n: nat)
    requires a != "" && a[0] != '/' && n == HeadLen(a) && Comps(a[n..] + "/" + b) == Comps(a[n..]) + Comps(b)
    ensures Comps(a + "/" + b) == Comps(a) + Comps(b)
  {
    var s := a + "/" + b;
    HeadLenCat(a, b);
    SliceCat(a, b, n);
    calc {
      Comps(s);
      { CompsHead(s, n); }
      [a[..n]] + Comps(a[n..] + "/" + b);
      [a[..n]] + (Comps(a[n..]) + Comps(b));
      [a[..n]] + Comps(a[n..]) + Comps(b);
      { CompsHead(a, n); }
      Comps(a) + Comps(b);
    }
  }

  lemma SliceCat(a: string, b: string, n: nat)
    requires n <= |a| && a != ""
    ensures var s := a + "/" + b; s != "" && s[0] == a[0] && s[..n] == a[..n] && s[n..] == a[n..] + "/" + b
  {
  }

  lemma CompsHead(s: string, n: nat)
    requires s != "" && s[0] != '/' && n == HeadLen(s)
    ensures Comps(s) == [s[..n]] + Comps(s[n..])
  {
  }

  lemma CompsSingle(c: string)
    requires NoSlash(c)
    ensures Comps(c) == if c == "" then [] else [c]
  {
    if c != "" {
      var n := HeadLen(c);
      assert n == |c|;
      assert c[..n] == c && c[n..] == "";
    }
  }

  lemma {:induction false} CompsJoin(cs: seq<string>)
    requires Slashless(cs)
    ensures Comps(Join(cs)) == NonEmpty(cs)
  {
    if cs != [] {
      var init, last := cs[..|cs| - 1], cs[|cs| - 1];
      CompsJoin(init);
      CompsCat(Join(init), last);
      CompsSingle(last);
    }
  }

  lemma {:induction false} NonEmptyTodo(cs: seq<string>)
    requires Todo(cs)
    ensures NonEmpty(cs) == cs
  {
    if cs != [] {
      TodoParts(cs);
      NonEmptyTodo(cs[..|cs| - 1]);
    }
  }

  // ------------------------------------------------------------------ the walk over components

  function Pop(cs: seq<string>): seq<string> {
    if cs == [] then [] else cs[..|cs| - 1]
  }

  /** The components of the path that replaces a symbolic link with target `t` in the directory
      `dir`, and whether that path ends in a slash. */
  function Expanded(dir: seq<string>, t: string, rest: seq<string>): seq<string> {
    (if t != "" && t[0] == '/' then [] else NonEmpty(dir)) + Comps(t) + rest
  }

  predicate ExpandedSlash(t: string, rest: seq<string>, slash: bool) {
    if rest != [] then slash else t == "" || EndsInSlash(t)
  }

  datatype Step = Stop(result: Result<seq<string>>) | Go(done: seq<string>, todo: seq<string>, slash: bool, budget: nat)

  /** One component of the walk: `done` is the directory reached, `todo` is what is left, `slash`
      says whether the path ends in a slash, `budget` is how many more links may be followed. */
  function WalkStep(fs: Filesystem, done: seq<string>, todo: seq<string>, slash: bool, follow: bool,
                    budget: nat): (t: Step)
    ensures t.Go? ==> t.budget < budget || (t.budget == budget && |t.todo| < |todo|)
  {
    if todo == [] then Stop(Ok(done))
    else if todo[0] == "." then Go(done, todo[1..], slash, budget)
    else if todo[0] == ".." then Go(Pop(done), todo[1..], slash, budget)
    else
      var out, rest := done + [todo[0]], todo[1..];
      if !follow && rest == [] then Stop(Ok(out))
      else
        var link := Readlink(fs, Join(out));
        if link.Some? then
          if budget == 0 then Stop(Err(ELOOP))
          else Go([], Expanded(done, link.value, rest), ExpandedSlash(link.value, rest, slash), budget - 1)
        else if (rest != [] || slash) && Enter(fs, Join(out)) < 0 then Stop(Err(Enter(fs, Join(out))))
        else Go(out, rest, slash, budget)
  }

  /** Resolve the components `todo` in the directory `done`, with at most `budget` symbolic
      links on the way. */
  function Walk(fs: Filesystem, done: seq<string>, todo: seq<string>, slash: bool, follow: bool, budget: nat)
    : Result<seq<string>>
    decreases budget, |todo|
  {
    var t := WalkStep(fs, done, todo, slash, follow, budget);
    if t.Stop? then t.result else Walk(fs, t.done, t.todo, t.slash, follow, t.budget)
  }

  ghost predicate IsLink(fs: Filesystem, cs: seq<string>) {
    Readlink(fs, Join(cs)).Some?
  }

  ghost predicate MayEnter(fs: Filesystem, cs: seq<string>) {
    Enter(fs, Join(cs)) >= 0
  }

  /** No nonempty prefix of up to `n` components is a symbolic link. */
  ghost predicate LinkFree(fs: Filesystem, cs: seq<string>, n: int) {
    forall k {:trigger cs[..k]} :: 1 <= k <= n && k <= |cs| ==> !IsLink(fs, cs[..k])
  }

  ghost predicate Enterable(fs: Filesystem, cs: seq<string>, n: int) {
    forall k {:trigger cs[..k]} :: 1 <= k <= n && k <= |cs| ==> MayEnter(fs, cs[..k])
  }

  lemma LinkFreePop(fs: Filesystem, cs: seq<string>, n: nat)
    requires LinkFree(fs, cs, n)
    ensures LinkFree(fs, Pop(cs), n)
  {
    if cs != [] {
      forall k | 1 <= k <= n && k <= |cs| - 1 ensures !IsLink(fs, Pop(cs)[..k]) {
        assert Pop(cs)[..k] == cs[..k];
      }
    }
  }

  lemma LinkFreePush(fs: Filesystem, cs: seq<string>, c: string)
    requires LinkFree(fs, cs, |cs|)
    ensures LinkFree(fs, cs + [c], |cs|)
    ensures !IsLink(fs, cs + [c]) ==> LinkFree(fs, cs + [c], |cs| + 1)
  {
    var out := cs + [c];
    assert out[..|cs| + 1] == out;
    forall k | 1 <= k <= |cs| ensures !IsLink(fs, out[..k]) {
      assert out[..k] == cs[..k];
    }
  }

  lemma EnterablePop(fs: Filesystem, cs: seq<string>, n: nat)
    requires Enterable(fs, cs, n)
    ensures Enterable(fs, Pop(cs), n)
  {
    if cs != [] {
      forall k | 1 <= k <= n && k <= |cs| - 1 ensures MayEnter(fs, Pop(cs)[..k]) {
        assert Pop(cs)[..k] == cs[..k];
      }
    }
  }

  lemma EnterablePush(fs: Filesystem, cs: seq<string>, c: string)
    requires Enterable(fs, cs, |cs|)
    ensures Enterable(fs, cs + [c], |cs|)
    ensures MayEnter(fs, cs + [c]) ==> Enterable(fs, cs + [c], |cs| + 1)
  {
    var out := cs + [c];
    assert out[..|cs| + 1] == out;
    forall k | 1 <= k <= |cs| ensures MayEnter(fs, out[..k]) {
      assert out[..k] == cs[..k];
    }
  }

  /** What is left to walk holds no slashes and no empty components. */
  ghost predicate Todo(todo: seq<string>) {
    forall i {:trigger Plain(todo[i])} :: 0 <= i < |todo| ==> Plain(todo[i])
  }

  predicate Plain(c: string) {
    c != "" && NoSlash(c)
  }

  lemma TodoParts(todo: seq<string>)
    requires Todo(todo) && todo != []
    ensures Plain(todo[0]) && Todo(todo[1..]) && Plain(todo[|todo| - 1]) && Todo(todo[..|todo| - 1])
  {
    forall i | 0 <= i < |todo| ensures Plain(todo[i]) {
    }
  }

  lemma TodoCat(a: seq<string>, b: seq<string>)
    requires Todo(a) && Todo(b)
    ensures Todo(a + b)
  {
    forall i | 0 <= i < |a + b| ensures Plain((a + b)[i]) {
      assert i < |a| ==> Plain(a[i]);
      assert i >= |a| ==> Plain(b[i - |a|]);
    }
  }

  lemma ProperTodo(cs: seq<string>)
    requires AllProper(cs)
    ensures Todo(cs)
  {
  }

  lemma {:induction false} CompsTodo(s: string)
    ensures Todo(Comps(s))
    decreases |s|
  {
    if s != "" {
      if s[0] == '/' {
        CompsTodo(s[1..]);
      } else {
        CompsTodo(s[HeadLen(s)..]);
        TodoCat([s[..HeadLen(s)]], Comps(s[HeadLen(s)..]));
      }
    }
  }

  lemma ExpandedTodo(dir: seq<string>, t: string, rest: seq<string>)
    requires Todo(dir) && Todo(rest)
    ensures Todo(Expanded(dir, t, rest))
  {
    CompsTodo(t);
    NonEmptyTodo(dir);
    var from := if t != "" && t[0] == '/' then [] else NonEmpty(dir);
    TodoCat(from, Comps(t));
    TodoCat(from + Comps(t), rest);
  }

  /** The directory reached is resolved, and what is left is a list of components. */
  ghost predicate Sound(fs: Filesystem, done: seq<string>, todo: seq<string>) {
    AllProper(done) && LinkFree(fs, done, |done|) && Todo(todo)
  }

  ghost predicate SoundResult(fs: Filesystem, follow: bool, r: Result<seq<string>>) {
    r.Ok? ==> AllProper(r.value) && LinkFree(fs, r.value, if follow then |r.value| else |r.value| - 1)
  }

  lemma StepSound(fs: Filesystem, done: seq<string>, todo: seq<string>, slash: bool, follow: bool, budget: nat)
    requires Sound(fs, done, todo)
    ensures var t := WalkStep(fs, done, todo, slash, follow, budget);
            if t.Go? then Sound(fs, t.done, t.todo) else SoundResult(fs, follow, t.result)
  {
    if todo != [] {
      var c, rest := todo[0], todo[1..];
      var link := Readlink(fs, Join(done + [c]));
      TodoParts(todo);
      if c == ".." {
        LinkFreePop(fs, done, |done|);
      } else if link.None? || (!follow && rest == []) {
        LinkFreePush(fs, done, c);
      } else {
        ProperTodo(done);
        ExpandedTodo(done, link.value, rest);
      }
    }
  }

  /** From a resolved directory the walk ends in a resolved path: every component is proper, and
      no prefix is a symbolic link, except the whole if the last link is not to be followed. */
  lemma {:induction false} WalkResolves(fs: Filesystem, done: seq<string>, todo: seq<string>, slash: bool,
                                        follow: bool, budget: nat)
    requires Sound(fs, done, todo)
    ensures SoundResult(fs, follow, Walk(fs, done, todo, slash, follow, budget))
    decreases budget, |todo|
  {
    var t := WalkStep(fs, done, todo, slash, follow, budget);
    StepSound(fs, done, todo, slash, follow, budget);
    if t.Go? {
      WalkResolves(fs, t.done, t.todo, t.slash, follow, t.budget);
    }
  }

  lemma StepBudget(fs: Filesystem, done: seq<string>, todo: seq<string>, slash: bool, follow: bool, b: nat, d: nat)
    requires b <= d
    ensures var t, u := WalkStep(fs, done, todo, slash, follow, b), WalkStep(fs, done, todo, slash, follow, d);
            if t.Go? then u.Go? && t.budget <= u.budget && u == t.(budget := u.budget)
            else t == Stop(Err(ELOOP)) || u == t
  {
  }

  /** A larger budget changes nothing but an ELOOP. */
  lemma {:induction false} BudgetSuffices(fs: Filesystem, done: seq<string>, todo: seq<string>, slash: bool,
                                          follow: bool, b: nat, d: nat)
    requires b <= d
    ensures var r := Walk(fs, done, todo, slash, follow, b);
            r != Err(ELOOP) ==> Walk(fs, done, todo, slash, follow, d) == r
    decreases b, |todo|
  {
    var t, u := WalkStep(fs, done, todo, slash, follow, b), WalkStep(fs, done, todo, slash, follow, d);
    StepBudget(fs, done, todo, slash, follow, b, d);
    if t.Go? {
      BudgetSuffices(fs, t.done, t.todo, t.slash, follow, t.budget, u.budget);
    }
  }

  lemma StepEnters(fs: Filesystem, done: seq<string>, todo: seq<string>, slash: bool, follow: bool, budget: nat)
    requires Enterable(fs, done, |done| - 1) && (todo != [] ==> Enterable(fs, done, |done|))
    ensures var t := WalkStep(fs, done, todo, slash, follow, budget);
            && (t.Go? ==> Enterable(fs, t.done, |t.done| - 1) && (t.todo != [] ==> Enterable(fs, t.done, |t.done|)))
            && (t.Stop? && t.result.Ok? ==> Enterable(fs, t.result.value, |t.result.value| - 1))
  {
    if todo != [] {
      EnterablePop(fs, done, |done|);
      EnterablePush(fs, done, todo[0]);
    }
  }

  /** Every directory on the way to the result may be entered. */
  lemma {:induction false} WalkEnters(fs: Filesystem, done: seq<string>, todo: seq<string>, slash: bool, follow: bool,
                                      budget: nat)
    requires Enterable(fs, done, |done| - 1) && (todo != [] ==> Enterable(fs, done, |done|))
    ensures var r := Walk(fs, done, todo, slash, follow, budget);
            r.Ok? ==> Enterable(fs, r.value, |r.value| - 1)
    decreases budget, |todo|
  {
    var t := WalkStep(fs, done, todo, slash, follow, budget);
    StepEnters(fs, done, todo, slash, follow, budget);
    if t.Go? {
      WalkEnters(fs, t.done, t.todo, t.slash, follow, t.budget);
    }
  }

  lemma StepStays(fs: Filesystem, done: seq<string>, todo: seq<string>, follow: bool, budget: nat)
    requires AllProper(todo) && todo != [] && Enterable(fs, done + todo, |done + todo| - 1)
    requires LinkFree(fs, done + todo, if follow then |done + todo| else |done + todo| - 1)
    ensures var t := WalkStep(fs, done, todo, false, follow, budget);
            if !follow && |todo| == 1 then t == Stop(Ok(done + todo))
            else t == Go(done + [todo[0]], todo[1..], false, budget)
  {
    var out := done + [todo[0]];
    assert out == (done + todo)[..|out|];
    assert |todo| == 1 ==> out == done + todo;
  }

  /** A path without links walks to itself. */
  lemma {:induction false} WalkStays(fs: Filesystem, done: seq<string>, todo: seq<string>, follow: bool, budget: nat)
    requires AllProper(todo) && Enterable(fs, done + todo, |done + todo| - 1)
    requires LinkFree(fs, done + todo, if follow then |done + todo| else |done + todo| - 1)
    ensures Walk(fs, done, todo, false, follow, budget) == Ok(done + todo)
    decreases |todo|
  {
    if todo == [] {
      assert done + todo == done;
    } else {
      StepStays(fs, done, todo, follow, budget);
      assert done + [todo[0]] + todo[1..] == done + todo;
      WalkStays(fs, done + [todo[0]], todo[1..], follow, budget);
    }
  }

  /** Resolution is idempotent: the result, taken as an absolute path, resolves to itself
      without following a link. */
  lemma ResolveIdempotent(fs: Filesystem, base: seq<string>, path: string, follow: bool, budget: nat, again: nat)
    requires AllProper(base) && LinkFree(fs, base, |base|) && Enterable(fs, base, |base|)
    ensures var r := Walk(fs, base, Comps(path), EndsInSlash(path), follow, budget);
            r.Ok? ==> Walk(fs, [], Comps(Join(r.value)), false, follow, again) == r
  {
    CompsTodo(path);
    WalkResolves(fs, base, Comps(path), EndsInSlash(path), follow, budget);
    WalkEnters(fs, base, Comps(path), EndsInSlash(path), follow, budget);
    var r := Walk(fs, base, Comps(path), EndsInSlash(path), follow, budget);
    if r.Ok? {
      CompsJoin(r.value);
      ProperTodo(r.value);
      NonEmptyTodo(r.value);
      assert [] + r.value == r.value;
      WalkStays(fs, [], r.value, follow, again);
    }
  }

  /** A walk without a limit follows at least n links. */
  ghost predicate MeetsLinks(fs: Filesystem, done: seq<string>, todo: seq<string>, slash: bool, follow: bool, n: nat)
    decreases n, |todo|
  {
    n == 0
    || var t := WalkStep(fs, done, todo, slash, follow, n);
       t.Go? && MeetsLinks(fs, t.done, t.todo, t.slash, follow, t.budget)
  }

  /** Entering a directory fails with ENOTDIR or EACCES, never with ELOOP. */
  ghost predicate EntersPlainly(fs: Filesystem) {
    forall path :: Enter(fs, path) != ELOOP
  }

  /** A walk fails with ELOOP exactly if there is one more link than the budget allows. */
  lemma {:induction false} EloopIff(fs: Filesystem, done: seq<string>, todo: seq<string>, slash: bool, follow: bool,
                                    b: nat)
    requires EntersPlainly(fs)
    ensures Walk(fs, done, todo, slash, follow, b) == Err(ELOOP)
            <==> MeetsLinks(fs, done, todo, slash, follow, b + 1)
    decreases b, |todo|
  {
    var t := WalkStep(fs, done, todo, slash, follow, b);
    StepBudget(fs, done, todo, slash, follow, b, b + 1);
    if t.Go? {
      EloopIff(fs, t.done, t.todo, t.slash, follow, t.budget);
      StepLinks(fs, done, todo, slash, follow, b);
    }
  }

  lemma StepLinks(fs: Filesystem, done: seq<string>, todo: seq<string>, slash: bool, follow: bool, b: nat)
    ensures var t, u := WalkStep(fs, done, todo, slash, follow, b), WalkStep(fs, done, todo, slash, follow, b + 1);
            t.Go? ==> u.Go? && u.budget == t.budget + 1
  {
  }

  /** After following n links the walk is about to resolve `again` from the root. */
  ghost predicate LeadsTo(fs: Filesystem, done: seq<string>, todo: seq<string>, slash: bool, follow: bool, n: nat,
                          again: seq<string>, againSlash: bool)
    decreases n, |todo|
  {
    if n == 0 then done == [] && todo == again && slash == againSlash
    else
      var t := WalkStep(fs, done, todo, slash, follow, n);
      t.Go? && LeadsTo(fs, t.done, t.todo, t.slash, follow, t.budget, again, againSlash)
  }

  /** A loop of links, of whatever length and wherever it lies, is found out whatever the budget. */
  lemma LoopFound(fs: Filesystem, todo: seq<string>, slash: bool, follow: bool, n: nat, budget: nat)
    requires EntersPlainly(fs) && n > 0 && LeadsTo(fs, [], todo, slash, follow, n, todo, slash)
    ensures Walk(fs, [], todo, slash, follow, budget) == Err(ELOOP)
  {
    LoopMeets(fs, todo, slash, follow, n, budget + 1);
    EloopIff(fs, [], todo, slash, follow, budget);
  }

  lemma {:induction false} LoopMeets(fs: Filesystem, todo: seq<string>, slash: bool, follow: bool, n: nat, k: nat)
    requires n > 0 && LeadsTo(fs, [], todo, slash, follow, n, todo, slash)
    ensures MeetsLinks(fs, [], todo, slash, follow, k)
    decreases k
  {
    if k > n {
      LoopMeets(fs, todo, slash, follow, n, k - n);
    }
    LeadsFurther(fs, [], todo, slash, follow, n, todo, slash, k);
  }

  lemma {:induction false} LeadsFurther(fs: Filesystem, done: seq<string>, todo: seq<string>, slash: bool, follow: bool,
                                        n: nat, again: seq<string>, againSlash: bool, k: nat)
    requires LeadsTo(fs, done, todo, slash, follow, n, again, againSlash)
    requires k > n ==> MeetsLinks(fs, [], again, againSlash, follow, k - n)
    ensures MeetsLinks(fs, done, todo, slash, follow, k)
    decreases n, |todo|
  {
    if n > 0 && k > 0 {
      var t, u := WalkStep(fs, done, todo, slash, follow, n), WalkStep(fs, done, todo, slash, follow, k);
      SameStep(fs, done, todo, slash, follow, n, k);
      LeadsFurther(fs, t.done, t.todo, t.slash, follow, t.budget, again, againSlash, u.budget);
    }
  }

  lemma SameStep(fs: Filesystem, done: seq<string>, todo: seq<string>, slash: bool, follow: bool, n: nat, k: nat)
    requires n > 0 && k > 0
    ensures var t, u := WalkStep(fs, done, todo, slash, follow, n), WalkStep(fs, done, todo, slash, follow, k);
            t.Go? ==> u.Go? && u == t.(budget := u.budget) && n - t.budget == k - u.budget
  {
  }

  // ------------------------------------------------------------------ the loop over characters

  predicate SlashLed(s: string) {
    s == "" || s[0] == '/'
  }

  /** Where the last component starts. */
  function LastSlash(s: string): (k: nat)
    requires s != "" && s[0] == '/'
    ensures k < |s| && s[k] == '/' && NoSlash(s[k + 1..])
  {
    if s[|s| - 1] == '/' then |s| - 1
    else
      var k := LastSlash(s[..|s| - 1]);
      assert s[k + 1..] == s[..|s| - 1][k + 1..] + [s[|s| - 1]];
      k
  }

  /** Every slash-led string is a join of components, some perhaps empty. */
  function Split(s: string): (cs: seq<string>)
    requires SlashLed(s)
    ensures Join(cs) == s && Slashless(cs)
  {
    if s == "" then []
    else
      var k := LastSlash(s);
      assert s == s[..k] + "/" + s[k + 1..];
      var cs := Split(s[..k]) + [s[k + 1..]];
      assert cs[..|cs| - 1] == Split(s[..k]);
      cs
  }

  /** The directory a walk starts in; "/" and no directory are the root. */
  function Base(at: Option<string>): (cs: seq<string>)
    requires at.Some? ==> SlashLed(at.value)
    ensures Slashless(cs)
  {
    if at == None || at.value == "/" then [] else Split(at.value)
  }

  function Joined(r: Result<seq<string>>): Result<string> {
    if r.Ok? then Ok(Join(r.value)) else Err(r.errno)
  }

  /** Eat any slashes. */
  method SkipSlashes(path: string, from: nat) returns (p: nat)
    requires from <= |path|
    ensures from <= p <= |path| && Comps(path[p..]) == Comps(path[from..])
    ensures p < |path| ==> path[p] != '/'
    ensures forall i :: from <= i < p ==> path[i] == '/'
  {
    p := from;
    while p < |path| && path[p] == '/'
      invariant from <= p <= |path| && Comps(path[p..]) == Comps(path[from..])
      invariant forall i :: from <= i < p ==> path[i] == '/'
    {
      assert path[p..][1..] == path[p + 1..];
      p := p + 1;
    }
  }

  /** Copy up to a slash or the end. */
  method CopyComponent(path: string, from: nat, out: string) returns (p: nat, o: string)
    requires from <= |path|
    ensures p == from + HeadLen(path[from..]) && o == out + path[from..p]
  {
    p, o := from, out;
    while p < |path| && path[p] != '/'
      invariant from <= p <= |path| && o == out + path[from..p]
      invariant HeadLen(path[from..]) == p - from + HeadLen(path[p..])
    {
      assert path[p..][1..] == path[p + 1..];
      o := o + [path[p]];
      p := p + 1;
    }
  }

  /** Back up over the last component, for a "..". */
  method DropComponent(out: string, ghost cs: seq<string>) returns (o: string)
    requires out == Join(cs) && Slashless(cs)
    ensures o == Join(Pop(cs))
    ensures if out == "" then o == "" else |o| < |out| && out == o + "/" + out[|o| + 1..] && NoSlash(out[|o| + 1..])
  {
    o := out;
    if o != "" {
      ghost var dir, last := Join(Pop(cs)), cs[|cs| - 1];
      assert out == dir + "/" + last;
      assert forall i :: |dir| < i < |out| ==> out[i] != '/' by {
        forall i | |dir| < i < |out| ensures out[i] != '/' {
          assert out[i] == last[i - |dir| - 1];
        }
      }
      var k := |o| - 1;
      while out[k] != '/'
        invariant |dir| <= k < |out|
        decreases k
      {
        assert out[|dir|] == '/';
        k := k - 1;
      }
      o := out[..k];
    }
  }

  lemma {:induction false} HeadLenIs(s: string, n: nat)
    requires n <= |s| && NoSlash(s[..n]) && (n == |s| || s[n] == '/')
    ensures HeadLen(s) == n
  {
    if n > 0 {
      assert s[0] == s[..n][0];
      assert s[1..][..n - 1] == s[..n][1..];
      HeadLenIs(s[1..], n - 1);
    }
  }

  /** How the loop recognises a component. */
  lemma HeadIs(path: string, p: nat, c: string)
    requires p < |path| && path[p] != '/' && NoSlash(c) && c != ""
    ensures var s := path[p..];
            s[..HeadLen(s)] == c
            <==> p + |c| <= |path| && path[p..p + |c|] == c && (p + |c| == |path| || path[p + |c|] == '/')
  {
    var s := path[p..];
    if p + |c| <= |path| && path[p..p + |c|] == c && (p + |c| == |path| || path[p + |c|] == '/') {
      assert s[..|c|] == c;
      HeadLenIs(s, |c|);
    }
  }

  lemma NextComponent(path: string, p: nat)
    requires p < |path| && path[p] != '/'
    ensures var s := path[p..];
            var n := HeadLen(s);
            && p + n <= |path| && n > 0 && NoSlash(s[..n]) && s[..n] == path[p..p + n]
            && Comps(s) == [s[..n]] + Comps(path[p + n..])
  {
    var s := path[p..];
    assert s[HeadLen(s)..] == path[p + HeadLen(s)..];
  }

  lemma WalkGo(fs: Filesystem, done: seq<string>, todo: seq<string>, slash: bool, follow: bool, budget: nat, t: Step)
    requires t.Go? && t == WalkStep(fs, done, todo, slash, follow, budget)
    ensures Walk(fs, done, todo, slash, follow, budget) == Walk(fs, t.done, t.todo, t.slash, follow, t.budget)
  {
  }

  lemma WalkStop(fs: Filesystem, done: seq<string>, todo: seq<string>, slash: bool, follow: bool, budget: nat)
    requires WalkStep(fs, done, todo, slash, follow, budget).Stop?
    ensures Walk(fs, done, todo, slash, follow, budget) == WalkStep(fs, done, todo, slash, follow, budget).result
  {
  }

  lemma StepDots(fs: Filesystem, done: seq<string>, c: string, rest: seq<string>, slash: bool, follow: bool,
                 budget: nat)
    requires c == "." || c == ".."
    ensures WalkStep(fs, done, [c] + rest, slash, follow, budget)
         == Go(if c == "." then done else Pop(done), rest, slash, budget)
  {
    assert ([c] + rest)[1..] == rest;
  }

  lemma StepName(fs: Filesystem, done: seq<string>, c: string, rest: seq<string>, slash: bool, follow: bool,
                 budget: nat)
    requires c != "." && c != ".."
    ensures var out := done + [c];
            WalkStep(fs, done, [c] + rest, slash, follow, budget) ==
            if !follow && rest == [] then Stop(Ok(out))
            else if IsLink(fs, out) then
              var t := Readlink(fs, Join(out)).value;
              if budget == 0 then Stop(Err(ELOOP))
              else Go([], Expanded(done, t, rest), ExpandedSlash(t, rest, slash), budget - 1)
            else if (rest != [] || slash) && Enter(fs, Join(out)) < 0 then Stop(Err(Enter(fs, Join(out))))
            else Go(out, rest, slash, budget)
  {
    assert ([c] + rest)[1..] == rest;
  }

  lemma WalkDone(fs: Filesystem, done: seq<string>, slash: bool, follow: bool, budget: nat)
    ensures Walk(fs, done, [], slash, follow, budget) == Ok(done)
  {
  }

  /** The output once a link's target is written behind the directory that holds it. */
  function LinkPath(dir: string, t: string): string {
    if t != "" && t[0] == '/' then t else dir + "/" + t
  }

  /** The path that replaces a symbolic link, in characters. */
  function ExpandedPath(dir: string, t: string, rest: string): string {
    if rest == "" then LinkPath(dir, t) else LinkPath(dir, t) + "/" + rest
  }

  lemma LinkPathComps(dir: seq<string>, t: string)
    requires Slashless(dir)
    ensures Comps(LinkPath(Join(dir), t)) == Expanded(dir, t, [])
  {
    CompsCat(Join(dir), t);
    CompsJoin(dir);
  }

  lemma LinkPathSlash(dir: string, t: string)
    ensures LinkPath(dir, t) != "" && EndsInSlash(LinkPath(dir, t)) == (t == "" || EndsInSlash(t))
  {
  }

  /** It is the path that the walk over components continues with. */
  lemma ExpandedPathIs(dir: seq<string>, t: string, rest: string)
    requires Slashless(dir)
    ensures Comps(ExpandedPath(Join(dir), t, rest)) == Expanded(dir, t, Comps(rest))
  {
    LinkPathComps(dir, t);
    CompsCat(LinkPath(Join(dir), t), rest);
    var link := Expanded(dir, t, []);
    assert link + Comps(rest) == Expanded(dir, t, Comps(rest));
  }

  lemma ExpandedPathSlash(dir: string, t: string, rest: string)
    ensures ExpandedPath(dir, t, rest) != ""
    ensures EndsInSlash(ExpandedPath(dir, t, rest))
            == if rest == "" then t == "" || EndsInSlash(t) else EndsInSlash(rest)
  {
    LinkPathSlash(dir, t);
  }

  /** What the walk does from a position in the path. */
  ghost function WalkFrom(fs: Filesystem, cs: seq<string>, path: string, p: nat, follow: bool,
                          levels: nat): Result<seq<string>>
    requires p <= |path| && levels <= 5
  {
    Walk(fs, cs, Comps(path[p..]), EndsInSlash(path), follow, 5 - levels)
  }

  /** What the positions the loop tests say about the rest of the path. */
  lemma RestFacts(path: string, p: nat)
    requires 0 < p <= |path| && (p < |path| ==> path[p] != '/' && path[p - 1] == '/')
    ensures Comps(path[p..]) == [] <==> p == |path|
    ensures path[p - 1] == '/' <==> Comps(path[p..]) != [] || EndsInSlash(path)
    ensures p < |path| ==> EndsInSlash(path[p..]) == EndsInSlash(path)
    ensures p == |path| <==> path[p..] == ""
  {
  }

  /** A link is about to be followed: the component `c` in `cs`, with the path from `p` on left. */
  ghost predicate AtLink(fs: Filesystem, cs: seq<string>, c: string, path: string, p: nat, follow: bool) {
    && c != "." && c != ".." && Slashless(cs) && IsLink(fs, cs + [c])
    && 0 < p <= |path| && (p < |path| ==> path[p] != '/' && path[p - 1] == '/') && (follow || p < |path|)
  }

  /** One symbolic link is expanded. */
  lemma WalkLink(fs: Filesystem, cs: seq<string>, c: string, rest: seq<string>, slash: bool, follow: bool,
                 budget: nat, t: string)
    requires c != "." && c != ".." && Readlink(fs, Join(cs + [c])) == Some(t) && (follow || rest != []) && budget > 0
    ensures Walk(fs, cs, [c] + rest, slash, follow, budget)
         == Walk(fs, [], Expanded(cs, t, rest), ExpandedSlash(t, rest, slash), follow, budget - 1)
  {
    StepName(fs, cs, c, rest, slash, follow, budget);
    WalkGo(fs, cs, [c] + rest, slash, follow, budget,
           Go([], Expanded(cs, t, rest), ExpandedSlash(t, rest, slash), budget - 1));
  }

  /** Build the path that replaces the link, from the directory, the target and what is left. */
  method Expand(dir: string, t: string, path: string, p: nat, ghost cs: seq<string>) returns (e: string)
    requires dir == Join(cs) && Slashless(cs)
    requires 0 < p <= |path| && (p < |path| ==> path[p] != '/' && path[p - 1] == '/')
    ensures e != "" && Comps(e) == Expanded(cs, t, Comps(path[p..]))
    ensures EndsInSlash(e) == ExpandedSlash(t, Comps(path[p..]), EndsInSlash(path))
  {
    e := dir + "/" + t;
    if t != "" && t[0] == '/' {
      e := t;
    }
    if p < |path| {
      e := e + "/" + path[p..];
    }
    RestFacts(path, p);
    ExpandedPathIs(cs, t, path[p..]);
    ExpandedPathSlash(dir, t, path[p..]);
  }

  /** A component that is no link is entered, or refused. */
  lemma WalkPlainStep(fs: Filesystem, cs: seq<string>, c: string, rest: seq<string>, slash: bool, follow: bool,
                      budget: nat)
    requires c != "." && c != ".." && (IsLink(fs, cs + [c]) ==> !follow && rest == [])
    ensures Walk(fs, cs, [c] + rest, slash, follow, budget)
            == if (follow || rest != []) && (rest != [] || slash) && Enter(fs, Join(cs + [c])) < 0
               then Err(Enter(fs, Join(cs + [c])))
               else Walk(fs, cs + [c], rest, slash, follow, budget)
  {
    StepName(fs, cs, c, rest, slash, follow, budget);
    var t := WalkStep(fs, cs, [c] + rest, slash, follow, budget);
    if t.Go? {
      WalkGo(fs, cs, [c] + rest, slash, follow, budget, t);
    } else {
      WalkStop(fs, cs, [c] + rest, slash, follow, budget);
      WalkDone(fs, cs + [c], slash, follow, budget);
    }
  }

  lemma WalkPlain(fs: Filesystem, cs: seq<string>, c: string, path: string, p: nat, follow: bool, levels: nat)
    requires c != "." && c != ".." && levels <= 5 && (IsLink(fs, cs + [c]) ==> !follow && p == |path|)
    requires 0 < p <= |path| && (p < |path| ==> path[p] != '/' && path[p - 1] == '/')
    ensures Walk(fs, cs, [c] + Comps(path[p..]), EndsInSlash(path), follow, 5 - levels)
            == if (follow || p < |path|) && path[p - 1] == '/' && Enter(fs, Join(cs + [c])) < 0
               then Err(Enter(fs, Join(cs + [c])))
               else WalkFrom(fs, cs + [c], path, p, follow, levels)
  {
    RestFacts(path, p);
    WalkPlainStep(fs, cs, c, Comps(path[p..]), EndsInSlash(path), follow, 5 - levels);
  }

  /** One link too many. */
  lemma WalkTooDeep(fs: Filesystem, cs: seq<string>, c: string, path: string, p: nat, follow: bool)
    requires AtLink(fs, cs, c, path, p, follow)
    ensures Walk(fs, cs, [c] + Comps(path[p..]), EndsInSlash(path), follow, 0) == Err(ELOOP)
  {
    RestFacts(path, p);
    StepName(fs, cs, c, Comps(path[p..]), EndsInSlash(path), follow, 0);
    WalkStop(fs, cs, [c] + Comps(path[p..]), EndsInSlash(path), follow, 0);
  }

  /** Start over with the link's target in place of the link, unless there were too many. */
  method FollowLink(fs: Filesystem, dir: string, t: string, path: string, p: nat, follow: bool, levels: nat,
                    ghost cs: seq<string>, ghost c: string)
    returns (r: Result<string>)
    requires AtLink(fs, cs, c, path, p, follow) && dir == Join(cs) && Readlink(fs, Join(cs + [c])) == Some(t)
             && levels <= 5
    ensures r == Joined(Walk(fs, cs, [c] + Comps(path[p..]), EndsInSlash(path), follow, 5 - levels))
    decreases 5 - levels, 0
  {
    if levels >= 5 {
      WalkTooDeep(fs, cs, c, path, p, follow);
      return Err(ELOOP);
    }
    RestFacts(path, p);
    var e := Expand(dir, t, path, p, cs);
    WalkLink(fs, cs, c, Comps(path[p..]), EndsInSlash(path), follow, 5 - levels, t);
    r := NormalizeFrom(fs, None, e, follow, levels + 1);
  }

  /** The part of the loop body after a component is copied: `o` is the output with it, `dir`
      without it.  Nothing is returned if the loop goes on. */
  method Visit(fs: Filesystem, dir: string, o: string, path: string, p: nat, follow: bool, levels: nat,
               ghost cs: seq<string>, ghost c: string)
    returns (r: Option<Result<string>>)
    requires dir == Join(cs) && o == Join(cs + [c]) && Slashless(cs) && c != "." && c != ".."
    requires 0 < p <= |path| && levels <= 5 && (p < |path| ==> path[p] != '/')
    requires p < |path| ==> path[p - 1] == '/'
    ensures var w := Walk(fs, cs, [c] + Comps(path[p..]), EndsInSlash(path), follow, 5 - levels);
            if r.Some? then r.value == Joined(w) else WalkFrom(fs, cs + [c], path, p, follow, levels) == w
    decreases 5 - levels, 1
  {
    if follow || p < |path| {
      var link := Readlink(fs, o);
      if link.Some? {
        var expanded := FollowLink(fs, dir, link.value, path, p, follow, levels, cs, c);
        return Some(expanded);
      }
      if path[p - 1] == '/' && Enter(fs, o) < 0 {
        WalkPlain(fs, cs, c, path, p, follow, levels);
        return Some(Err(Enter(fs, o)));
      }
    }
    WalkPlain(fs, cs, c, path, p, follow, levels);
    return None;
  }

  /** The loop's test for a "." or ".." component. */
  predicate AtDots(path: string, p: nat, dots: string) {
    p + |dots| <= |path| && path[p..p + |dots|] == dots && (p + |dots| == |path| || path[p + |dots|] == '/')
  }

  lemma SkipDots(fs: Filesystem, cs: seq<string>, path: string, p: nat, dots: string, follow: bool, levels: nat)
    requires (dots == "." || dots == "..") && p < |path| && path[p] != '/' && levels <= 5 && AtDots(path, p, dots)
    ensures WalkFrom(fs, cs, path, p, follow, levels)
         == WalkFrom(fs, if dots == "." then cs else Pop(cs), path, p + |dots|, follow, levels)
  {
    HeadIs(path, p, dots);
    NextComponent(path, p);
    var rest := Comps(path[p + |dots|..]);
    StepDots(fs, cs, dots, rest, EndsInSlash(path), follow, 5 - levels);
    WalkGo(fs, cs, [dots] + rest, EndsInSlash(path), follow, 5 - levels,
           Go(if dots == "." then cs else Pop(cs), rest, EndsInSlash(path), 5 - levels));
  }

  lemma AtName(path: string, p: nat) returns (c: string)
    requires p < |path| && path[p] != '/' && !AtDots(path, p, ".") && !AtDots(path, p, "..")
    ensures c != "." && c != ".." && c != "" && NoSlash(c)
    ensures |c| == HeadLen(path[p..]) && p + |c| <= |path| && c == path[p..p + |c|]
    ensures Comps(path[p..]) == [c] + Comps(path[p + |c|..])
  {
    c := path[p..p + HeadLen(path[p..])];
    NextComponent(path, p);
    HeadIs(path, p, ".");
    HeadIs(path, p, "..");
  }

  /** Output a slash and the component, and eat the slashes after it. */
  method CopyName(path: string, p: nat, o: string, ghost cs: seq<string>, ghost c: string)
    returns (next: nat, out: string)
    requires p < |path| && path[p] != '/' && o == Join(cs) && |c| == HeadLen(path[p..]) && c == path[p..p + |c|]
    ensures p < next <= |path| && out == Join(cs + [c])
    ensures Comps(path[next..]) == Comps(path[p + |c|..])
    ensures next < |path| ==> path[next] != '/' && path[next - 1] == '/'
  {
    var after: nat;
    after, out := CopyComponent(path, p, o + "/");
    assert out == Join(cs + [c]);
    assert after < |path| ==> path[after] == '/' by {
      assert after < |path| ==> path[p..][after - p] == path[after];
    }
    next := SkipSlashes(path, after);
  }

  lemma SamePlace(fs: Filesystem, cs: seq<string>, path: string, p: nat, q: nat, follow: bool, levels: nat)
    requires p <= |path| && q <= |path| && levels <= 5 && Comps(path[p..]) == Comps(path[q..])
    ensures WalkFrom(fs, cs, path, p, follow, levels) == WalkFrom(fs, cs, path, q, follow, levels)
  {
  }

  /** A "." component is ignored, a ".." drops one. */
  method TurnDots(fs: Filesystem, o: string, path: string, p: nat, dots: string, follow: bool, levels: nat,
                  ghost cs: seq<string>)
    returns (next: nat, out: string, ghost cs': seq<string>)
    requires o == Join(cs) && Slashless(cs) && p < |path| && path[p] != '/' && levels <= 5
    requires (dots == "." || dots == "..") && AtDots(path, p, dots)
    ensures p < next <= |path| && (next < |path| ==> path[next] != '/')
    ensures out == Join(cs') && Slashless(cs')
    ensures WalkFrom(fs, cs', path, next, follow, levels) == WalkFrom(fs, cs, path, p, follow, levels)
  {
    SkipDots(fs, cs, path, p, dots, follow, levels);
    out, cs' := o, cs;
    if dots == ".." {
      out := DropComponent(o, cs);
      cs' := Pop(cs);
    }
    next := SkipSlashes(path, p + |dots|);
    SamePlace(fs, cs', path, p + |dots|, next, follow, levels);
  }

  /** One turn of the loop: a component is skipped, drops one, or is visited. */
  method Turn(fs: Filesystem, o: string, path: string, p: nat, follow: bool, levels: nat, ghost cs: seq<string>)
    returns (next: nat, out: string, stop: Option<Result<string>>, ghost cs': seq<string>)
    requires o == Join(cs) && Slashless(cs) && p < |path| && path[p] != '/' && levels <= 5
    ensures p < next <= |path| && (next < |path| ==> path[next] != '/')
    ensures stop.Some? ==> stop.value == Joined(WalkFrom(fs, cs, path, p, follow, levels))
    ensures stop.None? ==> out == Join(cs') && Slashless(cs')
    ensures stop.None? ==> WalkFrom(fs, cs', path, next, follow, levels) == WalkFrom(fs, cs, path, p, follow, levels)
    decreases 5 - levels, 2
  {
    if AtDots(path, p, ".") {
      next, out, cs' := TurnDots(fs, o, path, p, ".", follow, levels, cs);
      return next, out, None, cs';
    }
    if AtDots(path, p, "..") {
      next, out, cs' := TurnDots(fs, o, path, p, "..", follow, levels, cs);
      return next, out, None, cs';
    }
    ghost var c := AtName(path, p);
    next, out := CopyName(path, p, o, cs, c);
    cs' := cs + [c];
    stop := Visit(fs, o, out, path, next, follow, levels, cs, c);
  }

  /** __path_normalize: the loop over characters is the walk over components. */
  method NormalizeFrom(fs: Filesystem, at: Option<string>, path: string, follow: bool, levels: nat)
    returns (r: Result<string>)
    requires (at.Some? ==> SlashLed(at.value)) && levels <= 5
    ensures r == if path == "" then Err(ENOENT)
                 else Joined(Walk(fs, Base(at), Comps(path), EndsInSlash(path), follow, 5 - levels))
    decreases 5 - levels, 3
  {
    if path == "" {
      return Err(ENOENT);
    }
    ghost var cs := Base(at);
    var o := "";
    if at.Some? && at.value != "/" {
      o := at.value;
    }
    assert path[0..] == path;
    var p := SkipSlashes(path, 0);
    while p < |path|
      invariant p <= |path| && (p < |path| ==> path[p] != '/')
      invariant o == Join(cs) && Slashless(cs)
      invariant WalkFrom(fs, cs, path, p, follow, levels) == WalkFrom(fs, Base(at), path, 0, follow, levels)
      decreases |path| - p
    {
      var stop: Option<Result<string>>;
      p, o, stop, cs := Turn(fs, o, path, p, follow, levels, cs);
      if stop.Some? {
        return stop.value;
      }
    }
    WalkDone(fs, cs, EndsInSlash(path), follow, 5 - levels);
    assert path[p..] == "";
    return Ok(o);
  }

  // ------------------------------------------------------------------ what callers get

  lemma {:induction false} SplitJoin(cs: seq<string>)
    requires Slashless(cs)
    ensures SlashLed(Join(cs)) && Split(Join(cs)) == cs
  {
    if cs != [] {
      var dir, last := cs[..|cs| - 1], cs[|cs| - 1];
      SplitJoin(dir);
      SplitSnoc(Join(dir), last);
      assert dir + [last] == cs;
    }
  }

  lemma SplitSnoc(dir: string, last: string)
    requires SlashLed(dir) && NoSlash(last)
    ensures var s := dir + "/" + last; SlashLed(s) && Split(s) == Split(dir) + [last]
  {
    var s := dir + "/" + last;
    LastSlashIs(dir, last);
    assert s[..|dir|] == dir && s[|dir| + 1..] == last;
  }

  lemma {:induction false} LastSlashIs(dir: string, last: string)
    requires SlashLed(dir) && NoSlash(last)
    ensures var s := dir + "/" + last; s[0] == '/' && LastSlash(s) == |dir|
    decreases |last|
  {
    var s := dir + "/" + last;
    if last != "" {
      assert s[..|s| - 1] == dir + "/" + last[..|last| - 1];
      LastSlashIs(dir, last[..|last| - 1]);
    }
  }

  /** "" or slash-led nonempty components with no "." or "..", and no prefix of it a symbolic
      link, except the whole if the last link is not to be followed. */
  ghost predicate Resolved(fs: Filesystem, path: string, follow: bool) {
    && SlashLed(path) && AllProper(Split(path))
    && LinkFree(fs, Split(path), if follow then |Split(path)| else |Split(path)| - 1)
  }

  /** path_normalize: an absolute path starts at the root, any other at the given directory. */
  method PathNormalize(fs: Filesystem, root: string, at: string, path: string, follow: bool) returns (r: Result<string>)
    requires SlashLed(root) && SlashLed(at)
    ensures r == if path == "" then Err(ENOENT)
                 else
                   var base := Base(Some(if path[0] == '/' then root else at));
                   Joined(Walk(fs, base, Comps(path), EndsInSlash(path), follow, 5))
    ensures r.Ok? && Resolved(fs, Join(Base(Some(if path[0] == '/' then root else at))), true)
            ==> Resolved(fs, r.value, follow)
  {
    if path == "" {
      return Err(ENOENT);
    }
    var start := if path[0] == '/' then root else at;
    r := NormalizeFrom(fs, Some(start), path, follow, 0);
    ghost var base := Base(Some(start));
    SplitJoin(base);
    if r.Ok? && Resolved(fs, Join(base), true) {
      CompsTodo(path);
      WalkResolves(fs, base, Comps(path), EndsInSlash(path), follow, 5);
      SplitJoin(Walk(fs, base, Comps(path), EndsInSlash(path), follow, 5).value);
    }
  }

  // ------------------------------------------------------------------ path_is_normalized

  predicate DoubleSlash(path: string, i: nat) {
    i + 1 < |path| && path[i] == '/' && path[i + 1] == '/'
  }

  /** Slash-led, without a double slash: a trailing slash and dots are let through. */
  ghost predicate Normal(path: string) {
    SlashLed(path) && forall i: nat {:trigger DoubleSlash(path, i)} :: !DoubleSlash(path, i)
  }

  /** path_is_normalized. */
  method PathIsNormalized(path: string) returns (ok: bool)
    ensures ok <==> Normal(path)
  {
    var p := 0;
    while p < |path|
      invariant p <= |path| && (0 < p ==> path[0] == '/')
      invariant 0 < p < |path| ==> path[p] == '/' && path[p - 1] != '/'
      invariant forall i: nat :: i + 1 < p ==> !DoubleSlash(path, i)
    {
      if path[p] != '/' {
        return false;
      }
      p := p + 1;
      if p < |path| && path[p] == '/' {
        assert DoubleSlash(path, p - 1);
        return false;
      }
      ghost var start := p;
      while p < |path| && path[p] != '/'
        invariant start <= p <= |path| && (start < |path| ==> path[start] != '/')
        invariant start < p ==> path[p - 1] != '/'
        invariant forall i: nat :: i + 1 < p ==> !DoubleSlash(path, i)
      {
        p := p + 1;
      }
    }
    return true;
  }

  lemma StepKeepsNonEmpty(fs: Filesystem, done: seq<string>, todo: seq<string>, slash: bool, follow: bool, budget: nat)
    requires Todo(done) && Todo(todo)
    ensures var t := WalkStep(fs, done, todo, slash, follow, budget);
            if t.Go? then Todo(t.done) && Todo(t.todo) else t.result.Ok? ==> Todo(t.result.value)
  {
    if done != [] {
      TodoParts(done);
    }
    if todo != [] {
      TodoParts(todo);
      TodoCat(done, [todo[0]]);
      var link := Readlink(fs, Join(done + [todo[0]]));
      if link.Some? {
        ExpandedTodo(done, link.value, todo[1..]);
      }
    }
  }

  /** The walk keeps components nonempty. */
  lemma {:induction false} WalkKeepsNonEmpty(fs: Filesystem, done: seq<string>, todo: seq<string>, slash: bool,
                                             follow: bool, budget: nat)
    requires Todo(done) && Todo(todo)
    ensures var r := Walk(fs, done, todo, slash, follow, budget); r.Ok? ==> Todo(r.value)
    decreases budget, |todo|
  {
    var t := WalkStep(fs, done, todo, slash, follow, budget);
    StepKeepsNonEmpty(fs, done, todo, slash, follow, budget);
    if t.Go? {
      WalkKeepsNonEmpty(fs, t.done, t.todo, t.slash, follow, t.budget);
    }
  }

  lemma {:induction false} JoinNormal(cs: seq<string>)
    requires Todo(cs)
    ensures Normal(Join(cs)) && !EndsInSlash(Join(cs))
  {
    if cs != [] {
      var dir, last := Join(cs[..|cs| - 1]), cs[|cs| - 1];
      TodoParts(cs);
      JoinNormal(cs[..|cs| - 1]);
      var s := Join(cs);
      assert s == dir + "/" + last;
      forall i: nat ensures !DoubleSlash(s, i) {
        if i + 1 < |dir| {
          assert !DoubleSlash(dir, i);
        } else if i + 1 < |s| && i > |dir| {
          assert s[i] == last[i - |dir| - 1];
        } else if i == |dir| {
          assert s[i + 1] == last[0];
        }
      }
      assert s[|s| - 1] == last[|last| - 1];
    }
  }

  lemma {:induction false} SplitNonEmpty(s: string)
    requires Normal(s) && !EndsInSlash(s)
    ensures Todo(Split(s))
  {
    if s != "" {
      var k := LastSlash(s);
      var dir := s[..k];
      if k > 0 {
        assert !DoubleSlash(s, k - 1);
      }
      forall i: nat ensures !DoubleSlash(dir, i) {
        assert !DoubleSlash(s, i);
      }
      SplitNonEmpty(dir);
      TodoCat(Split(dir), [s[k + 1..]]);
    }
  }

  /** The assertion at the end of __path_normalize holds for every path, from "/" and from every
      base that passes path_is_normalized and has no trailing slash. */
  lemma ResultNormal(fs: Filesystem, at: string, path: string, follow: bool, budget: nat)
    requires Normal(at) && (at == "/" || !EndsInSlash(at))
    ensures var r := Walk(fs, Base(Some(at)), Comps(path), EndsInSlash(path), follow, budget);
            r.Ok? ==> Normal(Join(r.value)) && !EndsInSlash(Join(r.value))
  {
    if at != "/" {
      SplitNonEmpty(at);
    }
    CompsTodo(path);
    WalkKeepsNonEmpty(fs, Base(Some(at)), Comps(path), EndsInSlash(path), follow, budget);
    var r := Walk(fs, Base(Some(at)), Comps(path), EndsInSlash(path), follow, budget);
    if r.Ok? {
      JoinNormal(r.value);
    }
  }

  /** generic_getpath: the path of a descriptor within its mount, behind the mount point. */
  function Getpath(point: string, within: string): string {
    if point + within == "" then "/" else point + within
  }

  /** Such a base is what path_normalize starts from, so that neither its own assertion nor the
      one at the end ever fails. */
  lemma GetpathNormal(point: string, within: string)
    requires Normal(point) && !EndsInSlash(point) && Normal(within) && !EndsInSlash(within)
    ensures var at := Getpath(point, within); Normal(at) && (at == "/" || !EndsInSlash(at))
  {
    var at := point + within;
    forall i: nat ensures !DoubleSlash(at, i) {
      assert !DoubleSlash(point, i);
      if i >= |point| {
        assert !DoubleSlash(within, i - |point|);
      }
    }
  }
}
