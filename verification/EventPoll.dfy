/** epoll registrations (fs/poll.c, kernel/epoll.c): what a poll set may do over every run.

    Event masks are sets of bit positions.  One step is one section under the poll's lock. */
module EventPoll {
  import opened Lists

  type Mask = set<nat>

  const POLL_ERR: nat := 3
  const POLL_HUP: nat := 4
  const POLL_ONESHOT: nat := 30
  const POLL_EDGETRIGGERED: nat := 31

  /** struct poll_fd, while it is in use. */
  datatype Registration = Registration(fd: nat, types: Mask, info: nat, triggered: Mask, disabled: bool)

  /** struct poll: the registered records and the free ones in list order, the contents of the
      registered ones, the threads inside poll_wait, and whether the notification pipe is open. */
  datatype State = State(live: seq<nat>, free: seq<nat>, regs: map<nat, Registration>, inside: set<nat>, pipe: bool)

  datatype Report = Report(id: nat, types: Mask)

  /** Every record is either registered or on the free list, once; the pipe is open exactly
      while somebody waits. */
  ghost predicate Ok(s: State) {
    && Distinct(s.live) && Distinct(s.free) && (forall id :: id in s.live ==> id !in s.free)
    && (forall id :: id in s.live <==> id in s.regs)
    && (s.pipe <==> s.inside != {})
  }

  ghost predicate Allocated(s: State, id: nat) {
    id in s.live || id in s.free
  }

  function Init(): (s: State)
    ensures Ok(s)
  {
    State([], [], map[], {}, false)
  }

  // ------------------------------------------------------------------ lookup and removal

  /** poll_find_fd: the first record with this fd. */
  function Find(live: seq<nat>, regs: map<nat, Registration>, fd: nat): (found: Option<nat>)
    ensures found.Some? ==> found.value in live && found.value in regs && regs[found.value].fd == fd
    ensures found.None? ==> forall id :: id in live && id in regs ==> regs[id].fd != fd
  {
    if live == [] then None
    else if live[0] in regs && regs[live[0]].fd == fd then Some(live[0])
    else
      assert live == [live[0]] + live[1..];
      Find(live[1..], regs, fd)
  }

  function Remove(s: seq<nat>, x: nat): (r: seq<nat>)
    ensures forall y :: y in r ==> y in s
    ensures forall y :: y in s ==> y == x || y in r
    ensures x in s ==> |r| == |s| - 1
  {
    if s == [] then []
    else if s[0] == x then s[1..]
    else [s[0]] + Remove(s[1..], x)
  }

  lemma {:induction false} RemoveDistinct(s: seq<nat>, x: nat)
    requires Distinct(s)
    ensures Distinct(Remove(s, x)) && x !in Remove(s, x)
  {
    if s != [] && s[0] != x {
      RemoveDistinct(s[1..], x);
      var r := Remove(s[1..], x);
      forall j | 0 <= j < |r| ensures r[j] != s[0] {
        assert r[j] in r && r[j] in s[1..];
      }
    }
  }

  /** list_remove and poll_fd_free. */
  function Release(s: State, id: nat): State {
    s.(live := Remove(s.live, id), free := [id] + s.free, regs := s.regs - {id})
  }

  lemma ReleaseOk(s: State, id: nat)
    requires Ok(s) && id in s.live
    ensures Ok(Release(s, id))
  {
    RemoveDistinct(s.live, id);
    ConsDistinct(id, s.free);
  }

  // ------------------------------------------------------------------ registration

  /** The record poll_add_fd takes: the first free one, or new memory. */
  function Taken(s: State, record: nat): nat {
    if s.free != [] then s.free[0] else record
  }

  function Popped(s: State): seq<nat> {
    if s.free != [] then s.free[1..] else []
  }

  /** poll_add_fd; `memory` and `hostOk` say whether malloc and the host's registration succeed. */
  function Add(s: State, fd: nat, types: Mask, info: nat, record: nat, memory: bool, hostOk: bool): State {
    if s.free == [] && !memory then s
    else if !hostOk then s.(free := [Taken(s, record)] + Popped(s))
    else
      s.(live := [Taken(s, record)] + s.live, free := Popped(s),
         regs := s.regs[Taken(s, record) := Registration(fd, types, info, {}, false)])
  }

  lemma AddOk(s: State, fd: nat, types: Mask, info: nat, record: nat, memory: bool, hostOk: bool)
    requires Ok(s) && !Allocated(s, record)
    ensures Ok(Add(s, fd, types, info, record, memory, hostOk))
  {
    if s.free != [] {
      assert s.free == [s.free[0]] + s.free[1..];
    }
    ConsDistinct(Taken(s, record), s.live);
    ConsDistinct(Taken(s, record), Popped(s));
  }

  lemma ConsDistinct(x: nat, s: seq<nat>)
    requires Distinct(s) && x !in s
    ensures Distinct([x] + s)
  {
  }

  /** poll_del_fd: a disabled record is no longer with the host. */
  function Del(s: State, fd: nat, hostOk: bool): State {
    var found := Find(s.live, s.regs, fd);
    if found.None? || (!hostOk && !s.regs[found.value].disabled) then s
    else Release(s, found.value)
  }

  /** poll_mod_fd. */
  function Mod(s: State, fd: nat, types: Mask, info: nat, hostOk: bool): State {
    var found := Find(s.live, s.regs, fd);
    if found.None? || !hostOk then s
    else s.(regs := s.regs[found.value := Registration(fd, types, info, {}, false)])
  }

  /** A DEL removes the registration that it finds, unless the host refuses, and no other; its record
      is free afterwards. */
  lemma DelRemoves(s: State, fd: nat, hostOk: bool)
    requires Ok(s)
    ensures var t, found := Del(s, fd, hostOk), Find(s.live, s.regs, fd);
            if found.Some? && (hostOk || s.regs[found.value].disabled) then
              && t.regs == s.regs - {found.value} && found.value in t.free && found.value !in t.live
              && forall id :: id != found.value ==> (id in t.live <==> id in s.live) && (id in t.free <==> id in s.free)
            else t == s
  {
    var found := Find(s.live, s.regs, fd);
    if found.Some? {
      RemoveDistinct(s.live, found.value);
    }
  }

  /** poll_cleanup_fd, as far as this poll is concerned. */
  function Cleanup(s: State, fd: nat): State
    decreases |s.live|
  {
    var found := Find(s.live, s.regs, fd);
    if found.None? then s else Cleanup(Release(s, found.value), fd)
  }

  /** Nothing of the descriptor is left, the other registrations are as they were, and no
      record is lost. */
  lemma {:induction false} CleanupRemoves(s: State, fd: nat)
    requires Ok(s)
    ensures var t := Cleanup(s, fd);
            && Ok(t) && t.inside == s.inside && t.pipe == s.pipe
            && (forall id :: id in t.regs <==> id in s.regs && s.regs[id].fd != fd)
            && (forall id :: id in t.regs ==> t.regs[id] == s.regs[id])
            && (forall id :: Allocated(t, id) <==> Allocated(s, id))
    decreases |s.live|
  {
    var found := Find(s.live, s.regs, fd);
    if found.Some? {
      ReleaseOk(s, found.value);
      CleanupRemoves(Release(s, found.value), fd);
    }
  }

  // ------------------------------------------------------------------ edges

  function ClearedReg(r: Registration, events: Mask): Registration {
    if POLL_EDGETRIGGERED in r.types then r.(triggered := r.triggered - events) else r
  }

  /** poll_wakeup on a descriptor. */
  function Wakeup(s: State, fd: nat, events: Mask): State {
    s.(regs := map id | id in s.regs :: if s.regs[id].fd == fd then ClearedReg(s.regs[id], events) else s.regs[id])
  }

  /** An edge the host reports for a record, which may have been freed or reused meanwhile. */
  function HostEdge(s: State, id: nat, events: Mask): State {
    if id in s.regs then s.(regs := s.regs[id := ClearedReg(s.regs[id], events)]) else s
  }

  // ------------------------------------------------------------------ scanning

  /** What the descriptor of each record is ready for; a missing entry is a descriptor without
      a poll operation. */
  type Readiness = map<nat, Mask>

  /** The bits one registration has to report. */
  function Due(r: Registration, ready: Mask): Mask {
    if r.disabled then {}
    else (ready * (r.types + {POLL_HUP, POLL_ERR})) - (if POLL_EDGETRIGGERED in r.types then r.triggered else {})
  }

  function DueFor(regs: map<nat, Registration>, ready: Readiness, id: nat): Mask {
    if id in regs && id in ready then Due(regs[id], ready[id]) else {}
  }

  /** Everything there is to report, in list order. */
  function Pending(regs: map<nat, Registration>, live: seq<nat>, ready: Readiness): seq<Report> {
    if live == [] then []
    else
      var id := live[|live| - 1];
      var due := DueFor(regs, ready, id);
      Pending(regs, live[..|live| - 1], ready) + (if due != {} then [Report(id, due)] else [])
  }

  function Take(s: seq<Report>, n: nat): seq<Report> {
    if |s| <= n then s else s[..n]
  }

  /** What a scan with room for `room` events hands to its callback. */
  function Reports(s: State, ready: Readiness, room: nat): seq<Report> {
    Take(Pending(s.regs, s.live, ready), room)
  }

  function Delivered(r: Registration, types: Mask): Registration {
    r.(disabled := r.disabled || POLL_ONESHOT in r.types,
       triggered := if POLL_EDGETRIGGERED in r.types then r.triggered + types else r.triggered)
  }

  function DeliverAll(regs: map<nat, Registration>, reports: seq<Report>): map<nat, Registration> {
    if reports == [] then regs
    else
      var m := DeliverAll(regs, reports[..|reports| - 1]);
      var last := reports[|reports| - 1];
      if last.id in m then m[last.id := Delivered(m[last.id], last.types)] else m
  }

  function Scan(s: State, ready: Readiness, room: nat): State {
    s.(regs := DeliverAll(s.regs, Reports(s, ready, room)))
  }

  /** Pending reports are exactly the registrations with something due, each once, in order. */
  lemma {:induction false} PendingExact(regs: map<nat, Registration>, live: seq<nat>, ready: Readiness)
    requires Distinct(live)
    ensures var p := Pending(regs, live, ready);
            && (forall i :: 0 <= i < |p| ==> p[i].id in live && p[i].types == DueFor(regs, ready, p[i].id) != {})
            && (forall i, j :: 0 <= i < j < |p| ==> p[i].id != p[j].id)
            && (forall id :: id in live && DueFor(regs, ready, id) != {} ==> Report(id, DueFor(regs, ready, id)) in p)
  {
    if live != [] {
      var init, last := live[..|live| - 1], live[|live| - 1];
      PendingExact(regs, init, ready);
      assert live == init + [last];
      assert last !in init;
      var due := DueFor(regs, ready, last);
      assert Pending(regs, live, ready)
          == Pending(regs, init, ready) + (if due != {} then [Report(last, due)] else []);
    }
  }

  /** A registration changes only if it is among the reports, and then as delivered. */
  lemma {:induction false} DeliverAllAt(regs: map<nat, Registration>, reports: seq<Report>, id: nat)
    requires forall i, j :: 0 <= i < j < |reports| ==> reports[i].id != reports[j].id
    ensures var m := DeliverAll(regs, reports);
            && (id in m <==> id in regs)
            && (id in regs && (forall i :: 0 <= i < |reports| ==> reports[i].id != id) ==> m[id] == regs[id])
            && (id in regs ==> forall i :: 0 <= i < |reports| && reports[i].id == id ==>
                  m[id] == Delivered(regs[id], reports[i].types))
  {
    if reports != [] {
      DeliverAllAt(regs, reports[..|reports| - 1], id);
    }
  }

  /** The mask a scan reports for a record; empty if it reports none. */
  ghost function Reported(s: State, ready: Readiness, room: nat, id: nat): Mask {
    if Report(id, DueFor(s.regs, ready, id)) in Reports(s, ready, room) then DueFor(s.regs, ready, id) else {}
  }

  /** A scan reports at most `room` registrations, only what is due; whoever is not reported,
      because nothing is due or because the buffer is full, keeps its registration unchanged. */
  lemma ScanAt(s: State, ready: Readiness, room: nat, id: nat)
    requires Ok(s)
    ensures |Reports(s, ready, room)| <= room
    ensures id in Scan(s, ready, room).regs <==> id in s.regs
    ensures id in s.regs && Reported(s, ready, room, id) == {} ==> Scan(s, ready, room).regs[id] == s.regs[id]
    ensures id in s.regs && Reported(s, ready, room, id) != {}
            ==> Scan(s, ready, room).regs[id] == Delivered(s.regs[id], Reported(s, ready, room, id))
    ensures Reported(s, ready, room, id) != {} ==> id in s.regs && !s.regs[id].disabled
    ensures forall r :: r in Reports(s, ready, room) && r.id == id ==> r.types == Reported(s, ready, room, id) != {}
  {
    PendingExact(s.regs, s.live, ready);
    DeliverAllAt(s.regs, Reports(s, ready, room), id);
  }

  /** With room for all, everything due is reported. */
  lemma ScanComplete(s: State, ready: Readiness, room: nat, id: nat)
    requires Ok(s) && |Pending(s.regs, s.live, ready)| <= room && id in s.regs
    ensures Reported(s, ready, room, id) == DueFor(s.regs, ready, id)
  {
    PendingExact(s.regs, s.live, ready);
  }

  // ------------------------------------------------------------------ runs

  /** The lock of the poll is free between the records that poll_cleanup_fd and poll_wakeup visit:
      DoRelease and DoWake are their work on one record. */
  datatype Event =
    | DoAdd(fd: nat, types: Mask, info: nat, record: nat, memory: bool, hostOk: bool)
    | DoDel(fd: nat, hostOk: bool)
    | DoMod(fd: nat, types: Mask, info: nat, hostOk: bool)
    | DoRelease(id: nat)
    | DoWake(id: nat, events: Mask)
    | DoHostEdge(id: nat, events: Mask)
    | DoScan(ready: Readiness, room: nat)
    | DoEnter(thread: nat, pipeOk: bool)
    | DoLeave(thread: nat)

  /** The start of poll_wait; only the first thread in opens the pipe. */
  function Enter(s: State, thread: nat, pipeOk: bool): State {
    if s.inside == {} && !pipeOk then s
    else s.(inside := s.inside + {thread}, pipe := true)
  }

  /** The end of poll_wait; the last thread out closes the pipe. */
  function Leave(s: State, thread: nat): State {
    s.(inside := s.inside - {thread}, pipe := s.pipe && s.inside - {thread} != {})
  }

  function Step(s: State, e: Event): State {
    match e
    case DoAdd(fd, types, info, record, memory, hostOk) => Add(s, fd, types, info, record, memory, hostOk)
    case DoDel(fd, hostOk) => Del(s, fd, hostOk)
    case DoMod(fd, types, info, hostOk) => Mod(s, fd, types, info, hostOk)
    case DoRelease(id) => if id in s.live then Release(s, id) else s
    case DoWake(id, events) => HostEdge(s, id, events)
    case DoHostEdge(id, events) => HostEdge(s, id, events)
    case DoScan(ready, room) => Scan(s, ready, room)
    case DoEnter(thread, pipeOk) => Enter(s, thread, pipeOk)
    case DoLeave(thread) => Leave(s, thread)
  }

  /** malloc returns memory that is not in use. */
  ghost predicate Enabled(s: State, e: Event) {
    e.DoAdd? ==> !Allocated(s, e.record)
  }

  lemma StepOk(s: State, e: Event)
    requires Ok(s) && Enabled(s, e)
    ensures Ok(Step(s, e)) && Keeps(s, Step(s, e))
  {
    match e
    case DoAdd(fd, types, info, record, memory, hostOk) =>
      AddOk(s, fd, types, info, record, memory, hostOk);
    case DoDel(fd, hostOk) =>
      if Find(s.live, s.regs, fd).Some? { ReleaseOk(s, Find(s.live, s.regs, fd).value); }
    case DoRelease(id) =>
      if id in s.live { ReleaseOk(s, id); }
    case DoScan(ready, room) =>
      forall id ensures id in Scan(s, ready, room).regs <==> id in s.regs {
        ScanAt(s, ready, room, id);
      }
    case _ =>
  }

  function StateAt(s: State, es: seq<Event>, k: nat): State
    requires k <= |es|
  {
    if k == 0 then s else Step(StateAt(s, es, k - 1), es[k - 1])
  }

  ghost predicate EnabledAt(s: State, es: seq<Event>, k: nat)
    requires k < |es|
  {
    Enabled(StateAt(s, es, k), es[k])
  }

  ghost predicate Run(s: State, es: seq<Event>) {
    Ok(s) && forall k {:trigger EnabledAt(s, es, k)} :: 0 <= k < |es| ==> EnabledAt(s, es, k)
  }

  /** Every record of `s` is still a record in `t`. */
  ghost predicate Keeps(s: State, t: State) {
    forall id {:trigger Allocated(t, id)} :: Allocated(s, id) ==> Allocated(t, id)
  }

  /** Over every run records are never lost or used twice, and a pointer to a record that the
      host was ever given stays a pointer to a record. */
  lemma {:induction false} RunOk(s: State, es: seq<Event>, i: nat, k: nat)
    requires Run(s, es) && i <= k <= |es|
    ensures Ok(StateAt(s, es, k)) && Keeps(StateAt(s, es, i), StateAt(s, es, k))
  {
    if k > 0 {
      RunOk(s, es, if i < k then i else k - 1, k - 1);
      assert EnabledAt(s, es, k - 1);
      StepOk(StateAt(s, es, k - 1), es[k - 1]);
    }
  }

  /** The assertion at the start of poll_wait: nobody waits, so there is no pipe. */
  lemma PipeClosedWhenEntering(s: State, es: seq<Event>, k: nat)
    requires Run(s, es) && k <= |es|
    ensures StateAt(s, es, k).inside == {} <==> !StateAt(s, es, k).pipe
  {
    RunOk(s, es, k, k);
  }

  ghost predicate RegisteredAt(s: State, es: seq<Event>, k: nat, id: nat, fd: nat)
    requires k <= |es|
  {
    var t := StateAt(s, es, k);
    id in t.regs && t.regs[id].fd == fd
  }

  predicate Registers(e: Event, fd: nat) {
    e.DoAdd? && e.fd == fd
  }

  /** poll_cleanup_fd with everything that can come in between: the descriptor's own lock keeps
      new registrations of it out, and once each record has been visited none is left. */
  lemma CleanupCompletes(s: State, es: seq<Event>, i: nat, j: nat, fd: nat)
    requires Run(s, es) && i <= j <= |es| && forall k :: i <= k < j ==> !Registers(es[k], fd)
    requires forall id :: RegisteredAt(s, es, i, id, fd) ==> DoRelease(id) in es[i..j]
    ensures forall id :: !RegisteredAt(s, es, j, id, fd)
  {
    forall id ensures !RegisteredAt(s, es, j, id, fd) {
      if RegisteredAt(s, es, j, id, fd) {
        NotVisited(s, es, i, j, id, fd);
      }
    }
  }

  lemma {:induction false} NotVisited(s: State, es: seq<Event>, i: nat, j: nat, id: nat, fd: nat)
    requires Run(s, es) && i <= j <= |es| && forall k :: i <= k < j ==> !Registers(es[k], fd)
    requires RegisteredAt(s, es, j, id, fd)
    ensures RegisteredAt(s, es, i, id, fd) && forall k :: i <= k < j ==> es[k] != DoRelease(id)
    decreases j
  {
    if i < j {
      RegisteredBefore(s, es, j - 1, id, fd);
      NotVisited(s, es, i, j - 1, id, fd);
    }
  }

  lemma RegisteredBefore(s: State, es: seq<Event>, k: nat, id: nat, fd: nat)
    requires Run(s, es) && k < |es| && !Registers(es[k], fd) && RegisteredAt(s, es, k + 1, id, fd)
    ensures RegisteredAt(s, es, k, id, fd) && es[k] != DoRelease(id)
  {
    RunOk(s, es, k, k);
    StaysRegistered(StateAt(s, es, k), es[k], id, fd);
  }

  /** A record is registered for a descriptor by poll_add_fd alone, and not past its release. */
  lemma StaysRegistered(s: State, e: Event, id: nat, fd: nat)
    requires Ok(s) && !Registers(e, fd) && id in Step(s, e).regs && Step(s, e).regs[id].fd == fd
    ensures id in s.regs && s.regs[id].fd == fd && e != DoRelease(id)
  {
    match e
    case DoScan(ready, room) => ScanAt(s, ready, room, id);
    case _ =>
  }

  /** The threads that have entered poll_wait and not left it: an entry fails only for a thread that
      would be the first and gets no pipe. */
  ghost function WaitingAt(s: State, es: seq<Event>, k: nat): set<nat>
    requires k <= |es|
  {
    if k == 0 then s.inside
    else
      var before, e := WaitingAt(s, es, k - 1), es[k - 1];
      if e.DoEnter? && (e.pipeOk || before != {}) then before + {e.thread}
      else if e.DoLeave? then before - {e.thread}
      else before
  }

  lemma {:induction false} InsideIsWaiting(s: State, es: seq<Event>, k: nat)
    requires Run(s, es) && k <= |es|
    ensures StateAt(s, es, k).inside == WaitingAt(s, es, k)
  {
    if k > 0 {
      InsideIsWaiting(s, es, k - 1);
      RunOk(s, es, k - 1, k - 1);
      InsideNext(StateAt(s, es, k - 1), es[k - 1]);
    }
  }

  /** The pipe is open exactly while some thread is waiting. */
  lemma PipeWhileWaiting(s: State, es: seq<Event>, k: nat)
    requires Run(s, es) && k <= |es|
    ensures StateAt(s, es, k).pipe <==> WaitingAt(s, es, k) != {}
  {
    RunOk(s, es, k, k);
    InsideIsWaiting(s, es, k);
  }

  lemma InsideNext(s: State, e: Event)
    requires Ok(s)
    ensures Step(s, e).inside == if e.DoEnter? && (e.pipeOk || s.inside != {}) then s.inside + {e.thread}
                                 else if e.DoLeave? then s.inside - {e.thread}
                                 else s.inside
  {
  }

  // ------------------------------------------------------------------ delivery

  /** The event is an ADD or MOD that succeeds, of this record. */
  ghost predicate Arms(s: State, e: Event, id: nat) {
    || (e.DoAdd? && (s.free != [] || e.memory) && e.hostOk && id == Taken(s, e.record))
    || (e.DoMod? && e.hostOk && Find(s.live, s.regs, e.fd) == Some(id))
  }

  /** The event is a new edge on this bit of the record. */
  ghost predicate Edge(s: State, e: Event, id: nat, bit: nat) {
    (e.DoWake? || e.DoHostEdge?) && e.id == id && bit in e.events
  }

  /** A registration that has gone, or is disabled. */
  ghost predicate Spent(s: State, id: nat) {
    id in s.regs ==> s.regs[id].disabled
  }

  /** A registration that has gone, or has reported this bit and not seen a new edge. */
  ghost predicate Seen(s: State, id: nat, bit: nat) {
    id in s.regs ==> POLL_EDGETRIGGERED in s.regs[id].types && bit in s.regs[id].triggered
  }

  lemma SpentStays(s: State, e: Event, id: nat)
    requires Ok(s) && Spent(s, id) && !Arms(s, e, id)
    ensures Spent(Step(s, e), id)
  {
    match e
    case DoScan(ready, room) => ScanAt(s, ready, room, id);
    case _ =>
  }

  lemma SeenStays(s: State, e: Event, id: nat, bit: nat)
    requires Ok(s) && Seen(s, id, bit) && !Arms(s, e, id) && !Edge(s, e, id, bit)
    ensures Seen(Step(s, e), id, bit)
  {
    match e
    case DoScan(ready, room) => ScanAt(s, ready, room, id);
    case _ =>
  }

  ghost predicate ArmsAt(s: State, es: seq<Event>, k: nat, id: nat)
    requires k < |es|
  {
    Arms(StateAt(s, es, k), es[k], id)
  }

  ghost predicate EdgeAt(s: State, es: seq<Event>, k: nat, id: nat, bit: nat)
    requires k < |es|
  {
    Edge(StateAt(s, es, k), es[k], id, bit)
  }

  ghost predicate ReportsAt(s: State, es: seq<Event>, k: nat, id: nat, bit: nat)
    requires k < |es|
  {
    es[k].DoScan? && bit in Reported(StateAt(s, es, k), es[k].ready, es[k].room, id)
  }

  lemma SpentNext(s: State, es: seq<Event>, k: nat, id: nat)
    requires Run(s, es) && k < |es| && Spent(StateAt(s, es, k), id) && !ArmsAt(s, es, k, id)
    ensures Spent(StateAt(s, es, k + 1), id)
  {
    RunOk(s, es, k, k);
    SpentStays(StateAt(s, es, k), es[k], id);
  }

  lemma {:induction false} SpentUntil(s: State, es: seq<Event>, i: nat, j: nat, id: nat)
    requires Run(s, es) && i <= j <= |es| && Spent(StateAt(s, es, i), id)
    requires forall k {:trigger ArmsAt(s, es, k, id)} :: i <= k < j ==> !ArmsAt(s, es, k, id)
    ensures Spent(StateAt(s, es, j), id)
  {
    if i < j {
      SpentUntil(s, es, i, j - 1, id);
      assert !ArmsAt(s, es, j - 1, id);
      SpentNext(s, es, j - 1, id);
    }
  }

  ghost predicate RenewsAt(s: State, es: seq<Event>, k: nat, id: nat, bit: nat)
    requires k < |es|
  {
    ArmsAt(s, es, k, id) || EdgeAt(s, es, k, id, bit)
  }

  lemma SeenNext(s: State, es: seq<Event>, k: nat, id: nat, bit: nat)
    requires Run(s, es) && k < |es| && Seen(StateAt(s, es, k), id, bit) && !RenewsAt(s, es, k, id, bit)
    ensures Seen(StateAt(s, es, k + 1), id, bit)
  {
    RunOk(s, es, k, k);
    SeenStays(StateAt(s, es, k), es[k], id, bit);
  }

  lemma {:induction false} SeenUntil(s: State, es: seq<Event>, i: nat, j: nat, id: nat, bit: nat)
    requires Run(s, es) && i <= j <= |es| && Seen(StateAt(s, es, i), id, bit)
    requires forall k {:trigger RenewsAt(s, es, k, id, bit)} :: i <= k < j ==> !RenewsAt(s, es, k, id, bit)
    ensures Seen(StateAt(s, es, j), id, bit)
  {
    if i < j {
      SeenUntil(s, es, i, j - 1, id, bit);
      assert !RenewsAt(s, es, j - 1, id, bit);
      SeenNext(s, es, j - 1, id, bit);
    }
  }

  /** A report leaves a one-shot registration spent, and an edge-triggered one with its bit seen. */
  lemma ReportMarks(s: State, es: seq<Event>, i: nat, id: nat, bit: nat)
    requires Run(s, es) && i < |es| && ReportsAt(s, es, i, id, bit)
    ensures var si := StateAt(s, es, i);
            && id in si.regs && !Spent(si, id) && !Seen(si, id, bit)
            && (POLL_ONESHOT in si.regs[id].types ==> Spent(StateAt(s, es, i + 1), id))
            && (POLL_EDGETRIGGERED in si.regs[id].types ==> Seen(StateAt(s, es, i + 1), id, bit))
  {
    RunOk(s, es, i, i);
    ScanAt(StateAt(s, es, i), es[i].ready, es[i].room, id);
  }

  /** A one-shot registration is reported at most once per ADD or MOD: between any two reports
      of it, of whatever bits, lies an event that arms it. */
  lemma OneShotOnce(s: State, es: seq<Event>, i: nat, j: nat, id: nat, b: nat, c: nat) returns (k: nat)
    requires Run(s, es) && i < j < |es| && ReportsAt(s, es, i, id, b) && ReportsAt(s, es, j, id, c)
    requires id in StateAt(s, es, i).regs && POLL_ONESHOT in StateAt(s, es, i).regs[id].types
    ensures i < k < j && ArmsAt(s, es, k, id)
  {
    ReportMarks(s, es, i, id, b);
    ReportMarks(s, es, j, id, c);
    if forall k {:trigger ArmsAt(s, es, k, id)} :: i + 1 <= k < j ==> !ArmsAt(s, es, k, id) {
      SpentUntil(s, es, i + 1, j, id);
    }
    k :| i < k < j && ArmsAt(s, es, k, id);
  }

  /** An edge-triggered bit is not reported twice without a wakeup, a host edge, an ADD or a
      MOD in between. */
  lemma EdgeOnce(s: State, es: seq<Event>, i: nat, j: nat, id: nat, bit: nat) returns (k: nat)
    requires Run(s, es) && i < j < |es| && ReportsAt(s, es, i, id, bit) && ReportsAt(s, es, j, id, bit)
    requires id in StateAt(s, es, i).regs && POLL_EDGETRIGGERED in StateAt(s, es, i).regs[id].types
    ensures i < k < j && RenewsAt(s, es, k, id, bit)
  {
    ReportMarks(s, es, i, id, bit);
    ReportMarks(s, es, j, id, bit);
    if forall k {:trigger RenewsAt(s, es, k, id, bit)} :: i + 1 <= k < j ==> !RenewsAt(s, es, k, id, bit) {
      SeenUntil(s, es, i + 1, j, id, bit);
    }
    k :| i < k < j && RenewsAt(s, es, k, id, bit);
  }

  // ------------------------------------------------------------------ delivery from the history alone

  /** The event may take the record out of use. */
  ghost predicate Removes(s: State, e: Event, id: nat) {
    (e.DoDel? && Find(s.live, s.regs, e.fd) == Some(id)) || e == DoRelease(id)
  }

  ghost predicate RemovesAt(s: State, es: seq<Event>, k: nat, id: nat)
    requires k < |es|
  {
    Removes(StateAt(s, es, k), es[k], id)
  }

  /** Event i is an ADD or MOD of the record, and up to k there is no other one and no removal. */
  ghost predicate RegisteredSince(s: State, es: seq<Event>, i: nat, k: nat, id: nat)
    requires k <= |es|
  {
    && i < k && ArmsAt(s, es, i, id)
    && forall j {:trigger ArmsAt(s, es, j, id)} {:trigger RemovesAt(s, es, j, id)} :: i < j < k ==>
         !ArmsAt(s, es, j, id) && !RemovesAt(s, es, j, id)
  }

  ghost function ReportAt(s: State, es: seq<Event>, k: nat, id: nat): Mask
    requires k < |es|
  {
    if es[k].DoScan? then Reported(StateAt(s, es, k), es[k].ready, es[k].room, id) else {}
  }

  /** The record was reported after event i and before event k. */
  ghost predicate ReportedSince(s: State, es: seq<Event>, i: nat, k: nat, id: nat)
    requires k <= |es|
  {
    k > i + 1 && (ReportAt(s, es, k - 1, id) != {} || ReportedSince(s, es, i, k - 1, id))
  }

  /** The bit was reported after event i, and no edge came since. */
  ghost predicate SeenSince(s: State, es: seq<Event>, i: nat, k: nat, id: nat, bit: nat)
    requires k <= |es|
  {
    && k > i + 1
    && (bit in ReportAt(s, es, k - 1, id) || (SeenSince(s, es, i, k - 1, id, bit) && !EdgeAt(s, es, k - 1, id, bit)))
  }

  /** What one event makes of a registration that it neither arms nor removes. */
  lemma RegNext(s: State, e: Event, id: nat, reported: Mask)
    requires Ok(s) && Enabled(s, e) && id in s.regs && !Arms(s, e, id) && !Removes(s, e, id)
    requires reported == if e.DoScan? then Reported(s, e.ready, e.room, id) else {}
    ensures id in Step(s, e).regs
    ensures var r, r' := s.regs[id], Step(s, e).regs[id];
            && r'.fd == r.fd && r'.types == r.types && r'.info == r.info
            && (r'.disabled <==> r.disabled || (POLL_ONESHOT in r.types && reported != {}))
            && (POLL_EDGETRIGGERED in r.types ==> forall bit :: bit in r'.triggered <==>
                  bit in reported || (bit in r.triggered && !Edge(s, e, id, bit)))
  {
    if e.DoScan? {
      ScanAt(s, e.ready, e.room, id);
    } else if e.DoAdd? && s.free != [] {
      assert s.free[0] in s.free;
    }
  }

  /** The event that arms a record registers what the caller asked for, afresh. */
  lemma RegArmed(s: State, e: Event, id: nat)
    requires Ok(s) && Enabled(s, e) && Arms(s, e, id)
    ensures id in Step(s, e).regs
    ensures var r := Step(s, e).regs[id];
            r.fd == e.fd && r.types == e.types && r.info == e.info && !r.disabled && r.triggered == {}
  {
  }

  /** A successful ADD puts its record at the head of the list; no other event changes the order of
      the records that it leaves registered. */
  lemma AddedFirst(s: State, e: Event, id: nat)
    requires Ok(s) && Enabled(s, e) && e.DoAdd? && Arms(s, e, id)
    ensures Step(s, e).live == [id] + s.live
  {
  }

  /** A registration is what event i asked for.  It is disabled exactly if it is one-shot and has been
      reported since, and remembers exactly the bits reported since their last edge. */
  ghost predicate Told(s: State, es: seq<Event>, i: nat, k: nat, id: nat, regs: map<nat, Registration>)
    requires i < k <= |es| && (es[i].DoAdd? || es[i].DoMod?)
  {
    var e := es[i];
    && id in regs && regs[id].fd == e.fd && regs[id].types == e.types && regs[id].info == e.info
    && (regs[id].disabled <==> POLL_ONESHOT in e.types && ReportedSince(s, es, i, k, id))
    && (POLL_EDGETRIGGERED in e.types ==>
          forall bit {:trigger SeenSince(s, es, i, k, id, bit)} {:trigger bit in regs[id].triggered} ::
            bit in regs[id].triggered <==> SeenSince(s, es, i, k, id, bit))
  }

  lemma {:induction false} HistoryTells(s: State, es: seq<Event>, i: nat, k: nat, id: nat)
    requires Run(s, es) && k <= |es| && RegisteredSince(s, es, i, k, id)
    ensures Told(s, es, i, k, id, StateAt(s, es, k).regs)
    decreases k
  {
    if k == i + 1 {
      ToldFirst(s, es, i, id);
    } else {
      SinceBefore(s, es, i, k, id);
      HistoryTells(s, es, i, k - 1, id);
      ToldNext(s, es, i, k, id);
    }
  }

  lemma StillEnabled(s: State, es: seq<Event>, k: nat)
    requires Run(s, es) && k < |es|
    ensures Ok(StateAt(s, es, k)) && Enabled(StateAt(s, es, k), es[k])
  {
    RunOk(s, es, k, k);
    assert EnabledAt(s, es, k);
  }

  lemma SinceBefore(s: State, es: seq<Event>, i: nat, k: nat, id: nat)
    requires i + 1 < k <= |es| && RegisteredSince(s, es, i, k, id)
    ensures RegisteredSince(s, es, i, k - 1, id)
    ensures !Arms(StateAt(s, es, k - 1), es[k - 1], id) && !Removes(StateAt(s, es, k - 1), es[k - 1], id)
  {
    assert !ArmsAt(s, es, k - 1, id) && !RemovesAt(s, es, k - 1, id);
  }

  lemma ToldFirst(s: State, es: seq<Event>, i: nat, id: nat)
    requires Run(s, es) && i < |es| && ArmsAt(s, es, i, id)
    ensures Told(s, es, i, i + 1, id, StateAt(s, es, i + 1).regs)
  {
    StillEnabled(s, es, i);
    RegArmed(StateAt(s, es, i), es[i], id);
  }

  lemma ToldNext(s: State, es: seq<Event>, i: nat, k: nat, id: nat)
    requires Run(s, es) && i + 1 < k <= |es| && RegisteredSince(s, es, i, k, id)
    requires Told(s, es, i, k - 1, id, StateAt(s, es, k - 1).regs)
    ensures Told(s, es, i, k, id, StateAt(s, es, k).regs)
  {
    StillEnabled(s, es, k - 1);
    SinceBefore(s, es, i, k, id);
    ToldStep(s, es, i, k, id, StateAt(s, es, k - 1));
  }

  lemma ToldStep(s: State, es: seq<Event>, i: nat, k: nat, id: nat, t: State)
    requires i + 1 < k <= |es| && (es[i].DoAdd? || es[i].DoMod?) && t == StateAt(s, es, k - 1)
    requires Ok(t) && Enabled(t, es[k - 1]) && !Arms(t, es[k - 1], id) && !Removes(t, es[k - 1], id)
    requires Told(s, es, i, k - 1, id, t.regs)
    ensures Told(s, es, i, k, id, StateAt(s, es, k).regs)
  {
    RegNext(t, es[k - 1], id, ReportAt(s, es, k - 1, id));
    HistoryNext(s, es, i, k, id);
  }

  lemma HistoryNext(s: State, es: seq<Event>, i: nat, k: nat, id: nat)
    requires i + 1 < k <= |es|
    ensures ReportedSince(s, es, i, k, id) <==> ReportAt(s, es, k - 1, id) != {} || ReportedSince(s, es, i, k - 1, id)
    ensures forall bit :: SeenSince(s, es, i, k, id, bit) <==>
              bit in ReportAt(s, es, k - 1, id)
              || (SeenSince(s, es, i, k - 1, id, bit) && !Edge(StateAt(s, es, k - 1), es[k - 1], id, bit))
  {
    forall bit ensures SeenSince(s, es, i, k, id, bit) <==>
              bit in ReportAt(s, es, k - 1, id)
              || (SeenSince(s, es, i, k - 1, id, bit) && !Edge(StateAt(s, es, k - 1), es[k - 1], id, bit))
    {
      assert EdgeAt(s, es, k - 1, id, bit) <==> Edge(StateAt(s, es, k - 1), es[k - 1], id, bit);
    }
  }

  /** Delivery in full.  A scan with room for all reports of a registered descriptor exactly what it
      is ready for among what the last ADD or MOD asked for, errors and hangups; nothing if it is
      one-shot and was reported since; and not what was reported since the last edge, if it is
      edge-triggered. */
  lemma DeliveryExact(s: State, es: seq<Event>, i: nat, k: nat, id: nat, bit: nat)
    requires Run(s, es) && k < |es| && RegisteredSince(s, es, i, k, id) && es[k].DoScan?
    requires |Pending(StateAt(s, es, k).regs, StateAt(s, es, k).live, es[k].ready)| <= es[k].room
    ensures bit in ReportAt(s, es, k, id) <==>
              && id in es[k].ready && bit in es[k].ready[id]
              && (bit in es[i].types || bit == POLL_HUP || bit == POLL_ERR)
              && !(POLL_ONESHOT in es[i].types && ReportedSince(s, es, i, k, id))
              && !(POLL_EDGETRIGGERED in es[i].types && SeenSince(s, es, i, k, id, bit))
  {
    RunOk(s, es, k, k);
    HistoryTells(s, es, i, k, id);
    ScanComplete(StateAt(s, es, k), es[k].ready, es[k].room, id);
  }

  /** A level-triggered registration is reported by every such scan as long as it is ready. */
  lemma LevelKeepsReporting(s: State, es: seq<Event>, i: nat, k: nat, id: nat, bit: nat)
    requires Run(s, es) && k < |es| && RegisteredSince(s, es, i, k, id) && es[k].DoScan?
    requires |Pending(StateAt(s, es, k).regs, StateAt(s, es, k).live, es[k].ready)| <= es[k].room
    requires POLL_ONESHOT !in es[i].types && POLL_EDGETRIGGERED !in es[i].types
    requires bit in es[i].types && id in es[k].ready && bit in es[k].ready[id]
    ensures bit in ReportAt(s, es, k, id)
  {
    DeliveryExact(s, es, i, k, id, bit);
  }

  /** Reports come in the order of the list. */
  lemma {:induction false} PendingAppend(regs: map<nat, Registration>, a: seq<nat>, b: seq<nat>, ready: Readiness)
    ensures Pending(regs, a + b, ready) == Pending(regs, a, ready) + Pending(regs, b, ready)
  {
    if b == [] {
      assert a + b == a;
    } else {
      var init, last := b[..|b| - 1], b[|b| - 1];
      PendingAppend(regs, a, init, ready);
      assert (a + b)[..|a + b| - 1] == a + init;
    }
  }
}
