/** The poll set itself (fs/poll.c) and the bounded buffer of epoll_wait (kernel/epoll.c), updated
    in place, against the steps of EventPoll. */
module PollSet {
  import opened Lists
  import opened EventPoll

  const ENOENT: int := -2
  const EINTR: int := -4
  const ENOMEM: int := -12
  const EFAULT: int := -14
  const EEXIST: int := -17
  const EINVAL: int := -22

  /** struct epoll_event_. */
  datatype Record = Record(events: Mask, data: nat)

  /** The records the callback writes for a list of reports. */
  function Records(regs: map<nat, Registration>, reports: seq<Report>): (r: seq<Record>)
    ensures |r| == |reports|
  {
    if reports == [] then []
    else
      var last := reports[|reports| - 1];
      Records(regs, reports[..|reports| - 1])
      + [Record(last.types, if last.id in regs then regs[last.id].info else 0)]
  }

  /** struct epoll_context. */
  class Context {
    const events: array<Record>
    var n: nat

    constructor (max: nat)
      ensures n == 0 && events.Length == max && fresh(events)
    {
      events := new Record[max](_ => Record({}, 0));
      n := 0;
    }

    ghost predicate Valid()
      reads this
    {
      n <= events.Length
    }

    function Written(): seq<Record>
      reads this, events
      requires Valid()
    {
      events[..n]
    }

    /** epoll_callback: accepts the event only if there is room for it. */
    method Callback(types: Mask, info: nat) returns (accepted: bool)
      requires Valid()
      modifies this`n, events
      ensures Valid()
      ensures accepted <==> old(n) < events.Length
      ensures Written() == old(Written()) + (if accepted then [Record(types, info)] else [])
    {
      if n >= events.Length {
        return false;
      }
      events[n] := Record(types, info);
      n := n + 1;
      return true;
    }
  }

  /** What happens in one round of the loop of poll_wait, beyond this thread: what descriptors
      are ready, whether a signal is pending, what other threads do while the lock is released,
      what the host's wait returns, and whether reading the pipe fails. */
  datatype Round = Round(ready: Readiness, signal: bool, others: seq<Event>, host: HostResult, pipe: PipeRead)
  datatype HostResult = HostError(errno: int) | HostEvents(events: seq<Report>)
  datatype PipeRead = PipeOk | PipeError(errno: int)

  datatype Outcome = Ready(count: nat) | Failed(errno: int) | Waiting

  /** What another thread's step does: it gets memory that is not in use, and leaves poll_wait
      for itself only.  Anything else cannot happen. */
  function OtherStep(s: State, thread: nat, e: Event): State {
    if e.DoAdd? && (e.record in s.live || e.record in s.free) then s
    else if e.DoLeave? && e.thread == thread then s
    else Step(s, e)
  }

  function OtherSteps(s: State, thread: nat, es: seq<Event>): State {
    if es == [] then s else OtherStep(OtherSteps(s, thread, es[..|es| - 1]), thread, es[|es| - 1])
  }

  /** How a wait goes: its outcome, the state it leaves, and the records it hands over. */
  datatype Waited = Waited(res: Outcome, s: State, written: seq<Record>)

  /** One round: a scan; if it finds nothing, a pending signal ends the wait; else it sleeps while
      others act, and the host ends it or names new edges. */
  function RoundSpec(s: State, thread: nat, round: Round, room: nat): Waited {
    var reports := Reports(s, round.ready, room);
    if reports != [] then Waited(Ready(|reports|), Scan(s, round.ready, room), Records(s.regs, reports))
    else if round.signal then Waited(Failed(EINTR), s, [])
    else
      var o := OtherSteps(s, thread, round.others);
      match round.host
      case HostError(errno) => Waited(Failed(errno), o, [])
      case HostEvents(events) =>
        if events == [] then Waited(Ready(0), o, [])
        else Waited(if round.pipe.PipeError? then Failed(round.pipe.errno) else Waiting, HostEdges(o, events), [])
  }

  function WaitSpec(s: State, thread: nat, rounds: seq<Round>, room: nat): Waited
    decreases |rounds|
  {
    if rounds == [] then Waited(Waiting, s, [])
    else
      var r := RoundSpec(s, thread, rounds[0], room);
      if r.res.Waiting? then WaitSpec(r.s, thread, rounds[1..], room) else r.(s := Leave(r.s, thread))
  }

  /** A wait never sleeps while something is due: it returns at once with as much of it as there is
      room for. */
  lemma DueEndsWait(s: State, thread: nat, rounds: seq<Round>, room: nat)
    requires Ok(s) && room > 0 && rounds != [] && Pending(s.regs, s.live, rounds[0].ready) != []
    ensures var w, n := WaitSpec(s, thread, rounds, room), |Pending(s.regs, s.live, rounds[0].ready)|;
            && w.res == Ready(if n <= room then n else room) && |w.written| == w.res.count > 0
            && w.written == Records(s.regs, Pending(s.regs, s.live, rounds[0].ready)[..w.res.count])
  {
    var all := Pending(s.regs, s.live, rounds[0].ready);
    assert |all| <= room ==> all[..|all|] == all;
  }

  /** What else ends a wait, with nothing due: a signal, the end of the time, an error of the host. */
  lemma IdleRound(s: State, thread: nat, rounds: seq<Round>, room: nat)
    requires Ok(s) && rounds != [] && Pending(s.regs, s.live, rounds[0].ready) == []
    ensures var w, r := WaitSpec(s, thread, rounds, room), rounds[0];
            && (r.signal ==> w == Waited(Failed(-4), Leave(s, thread), []))
            && (!r.signal && r.host == HostEvents([]) ==> w.res == Ready(0) && w.written == [])
            && (!r.signal && r.host.HostError? ==> w.res == Failed(r.host.errno) && w.written == [])
            && (!r.signal && r.host.HostEvents? && r.host.events != [] && r.pipe.PipeOk? ==>
                  w == WaitSpec(HostEdges(OtherSteps(s, thread, r.others), r.host.events), thread, rounds[1..], room))
  {
  }

  /** A record carries what is reported and what the registration was given to identify it. */
  lemma {:induction false} RecordsAt(regs: map<nat, Registration>, reports: seq<Report>, i: nat)
    requires i < |reports| && reports[i].id in regs
    ensures Records(regs, reports)[i] == Record(reports[i].types, regs[reports[i].id].info)
  {
    if i < |reports| - 1 {
      RecordsAt(regs, reports[..|reports| - 1], i);
    }
  }

  lemma {:induction false} OthersOk(s: State, thread: nat, es: seq<Event>)
    requires Ok(s)
    ensures Ok(OtherSteps(s, thread, es)) && (thread in s.inside ==> thread in OtherSteps(s, thread, es).inside)
  {
    if es != [] {
      OthersOk(s, thread, es[..|es| - 1]);
      OtherStepOk(OtherSteps(s, thread, es[..|es| - 1]), thread, es[|es| - 1]);
    }
  }

  lemma OtherStepOk(s: State, thread: nat, e: Event)
    requires Ok(s)
    ensures Ok(OtherStep(s, thread, e)) && (thread in s.inside ==> thread in OtherStep(s, thread, e).inside)
  {
    if OtherStep(s, thread, e) != s {
      StepOk(s, e);
      if thread in s.inside {
        StepInside(s, e, thread);
      }
    }
  }

  lemma StepInside(s: State, e: Event, thread: nat)
    requires Ok(s) && thread in s.inside && (e.DoLeave? ==> e.thread != thread)
    ensures thread in Step(s, e).inside
  {
  }

  /** The edges of one host wait, in order. */
  function HostEdges(s: State, events: seq<Report>): State {
    if events == [] then s
    else HostEdge(HostEdges(s, events[..|events| - 1]), events[|events| - 1].id, events[|events| - 1].types)
  }

  lemma {:induction false} HostEdgesOk(s: State, events: seq<Report>)
    requires Ok(s)
    ensures Ok(HostEdges(s, events)) && HostEdges(s, events).inside == s.inside
  {
    if events != [] {
      HostEdgesOk(s, events[..|events| - 1]);
    }
  }

  /** A registration that is reported. */
  function Hit(regs: map<nat, Registration>, ready: Readiness, id: nat): map<nat, Registration> {
    if id in regs then regs[id := Delivered(regs[id], DueFor(regs, ready, id))] else regs
  }

  datatype Scanned = Scanned(regs: map<nat, Registration>, count: nat, written: seq<Record>)

  /** One registration of the loop of poll_wait. */
  function ScanStep(prev: Scanned, id: nat, ready: Readiness, room: nat): Scanned {
    var due := DueFor(prev.regs, ready, id);
    if due != {} && prev.count < room && id in prev.regs then
      Scanned(Hit(prev.regs, ready, id), prev.count + 1, prev.written + [Record(due, prev.regs[id].info)])
    else prev
  }

  /** The loop of poll_wait over its registrations, as it updates them one by one. */
  function ScanLoop(regs: map<nat, Registration>, live: seq<nat>, ready: Readiness, room: nat,
                    written: seq<Record>): Scanned {
    if live == [] then Scanned(regs, 0, written)
    else ScanStep(ScanLoop(regs, live[..|live| - 1], ready, room, written), live[|live| - 1], ready, room)
  }

  lemma ScanLoopNext(regs: map<nat, Registration>, live: seq<nat>, k: nat, ready: Readiness, room: nat,
                     written: seq<Record>)
    requires k < |live|
    ensures ScanLoop(regs, live[..k + 1], ready, room, written)
         == ScanStep(ScanLoop(regs, live[..k], ready, room, written), live[k], ready, room)
  {
    assert live[..k + 1][..k] == live[..k];
  }

  /** An earlier delivery does not affect a later registration. */
  lemma {:induction false} ScanLoopKeeps(regs: map<nat, Registration>, live: seq<nat>, ready: Readiness, room: nat,
                                         written: seq<Record>, id: nat)
    requires id !in live
    ensures var r := ScanLoop(regs, live, ready, room, written);
            (id in r.regs <==> id in regs) && (id in regs ==> r.regs[id] == regs[id])
  {
    if live != [] {
      ScanLoopKeeps(regs, live[..|live| - 1], ready, room, written, id);
    }
  }

  /** How the reports grow by one registration. */
  lemma TakeNext(regs: map<nat, Registration>, live: seq<nat>, ready: Readiness, room: nat)
    requires live != []
    ensures var id := live[|live| - 1];
            var due, before := DueFor(regs, ready, id), Take(Pending(regs, live[..|live| - 1], ready), room);
            Take(Pending(regs, live, ready), room)
            == before + (if due != {} && |before| < room then [Report(id, due)] else [])
  {
  }

  lemma AppendReport(regs: map<nat, Registration>, reports: seq<Report>, r: Report)
    ensures var m := DeliverAll(regs, reports);
            DeliverAll(regs, reports + [r]) == if r.id in m then m[r.id := Delivered(m[r.id], r.types)] else m
    ensures Records(regs, reports + [r])
            == Records(regs, reports) + [Record(r.types, if r.id in regs then regs[r.id].info else 0)]
  {
    assert (reports + [r])[..|reports|] == reports;
  }

  /** The one-by-one loop does what the whole scan says. */
  lemma {:induction false} ScanLoopIs(regs: map<nat, Registration>, live: seq<nat>, ready: Readiness, room: nat,
                                      written: seq<Record>)
    requires Distinct(live)
    ensures var reports := Take(Pending(regs, live, ready), room);
            ScanLoop(regs, live, ready, room, written)
            == Scanned(DeliverAll(regs, reports), |reports|, written + Records(regs, reports))
  {
    if live != [] {
      var init, id := live[..|live| - 1], live[|live| - 1];
      ScanLoopIs(regs, init, ready, room, written);
      ScanLoopKeeps(regs, init, ready, room, written, id);
      TakeNext(regs, live, ready, room);
      var before := Take(Pending(regs, init, ready), room);
      AppendReport(regs, before, Report(id, DueFor(regs, ready, id)));
      assert before + [] == before;
      assert forall x: seq<Record>, y: seq<Record> :: written + x + y == written + (x + y);
    }
  }

  lemma ScanEnds(s: State, ready: Readiness, room: nat, written: seq<Record>)
    requires Ok(s)
    ensures Ok(Scan(s, ready, room))
    ensures var r, reports := ScanLoop(s.regs, s.live, ready, room, written), Reports(s, ready, room);
            && r.regs == Scan(s, ready, room).regs && r.count == |reports| <= room
            && r.written == written + Records(s.regs, reports)
  {
    ScanLoopIs(s.regs, s.live, ready, room, written);
    StepOk(s, DoScan(ready, room));
  }

  /** The loop of poll_wakeup. */
  function WakeLoop(regs: map<nat, Registration>, live: seq<nat>, fd: nat, events: Mask): map<nat, Registration> {
    if live == [] then regs
    else
      var m := WakeLoop(regs, live[..|live| - 1], fd, events);
      var id := live[|live| - 1];
      if id in m && m[id].fd == fd then m[id := ClearedReg(m[id], events)] else m
  }

  lemma {:induction false} WakeLoopAt(regs: map<nat, Registration>, live: seq<nat>, fd: nat, events: Mask, id: nat)
    requires Distinct(live)
    ensures var m := WakeLoop(regs, live, fd, events);
            && (id in m <==> id in regs)
            && (id in regs ==>
                  m[id] == if id in live && regs[id].fd == fd then ClearedReg(regs[id], events) else regs[id])
  {
    if live != [] {
      assert live == live[..|live| - 1] + [live[|live| - 1]];
      WakeLoopAt(regs, live[..|live| - 1], fd, events, id);
    }
  }

  lemma WakeLoopNext(regs: map<nat, Registration>, live: seq<nat>, k: nat, fd: nat, events: Mask)
    requires k < |live|
    ensures var m, id := WakeLoop(regs, live[..k], fd, events), live[k];
            WakeLoop(regs, live[..k + 1], fd, events)
            == if id in m && m[id].fd == fd then m[id := ClearedReg(m[id], events)] else m
  {
    assert live[..k + 1][..k] == live[..k];
  }

  lemma WakeLoopIs(s: State, fd: nat, events: Mask)
    requires Ok(s)
    ensures WakeLoop(s.regs, s.live, fd, events) == Wakeup(s, fd, events).regs
  {
    forall id
      ensures id in WakeLoop(s.regs, s.live, fd, events) <==> id in s.regs
      ensures id in s.regs ==> WakeLoop(s.regs, s.live, fd, events)[id] == Wakeup(s, fd, events).regs[id]
    {
      WakeLoopAt(s.regs, s.live, fd, events, id);
    }
  }

  /** struct poll. */
  class Poll {
    var live: seq<nat>
    var free: seq<nat>
    var regs: map<nat, Registration>
    var waiters: nat
    var pipe: bool
    /** The threads that `waiters` counts. */
    var inside: set<nat>

    function View(): State
      reads this
    {
      State(live, free, regs, inside, pipe)
    }

    ghost predicate Valid()
      reads this
    {
      Ok(View()) && waiters == |inside|
    }

    constructor ()
      ensures Valid() && View() == Init()
    {
      live, free, regs, waiters, pipe, inside := [], [], map[], 0, false, {};
    }

    method FindFd(fd: nat) returns (found: Option<nat>)
      requires Valid()
      ensures found == Find(live, regs, fd)
    {
      var k := 0;
      while k < |live|
        invariant k <= |live| && Find(live, regs, fd) == Find(live[k..], regs, fd)
      {
        if regs[live[k]].fd == fd {
          return Some(live[k]);
        }
        assert live[k..][1..] == live[k + 1..];
        k := k + 1;
      }
      return None;
    }

    /** poll_has_fd. */
    method HasFd(fd: nat) returns (found: bool)
      requires Valid()
      ensures found <==> exists id :: id in regs && regs[id].fd == fd
    {
      var f := FindFd(fd);
      return f.Some?;
    }

    /** poll_add_fd. */
    method AddFd(fd: nat, types: Mask, info: nat, record: nat, memory: bool, hostError: Option<int>) returns (err: int)
      requires Valid() && !Allocated(View(), record)
      modifies this
      ensures Valid() && View() == Add(old(View()), fd, types, info, record, memory, hostError.None?)
      ensures err == if old(free) == [] && !memory then ENOMEM else if hostError.Some? then hostError.value else 0
    {
      var id := record;
      AddOk(View(), fd, types, info, record, memory, hostError.None?);
      if free != [] {
        id := free[0];
        free := free[1..];
      } else if !memory {
        return ENOMEM;
      }
      if hostError.Some? {
        free := [id] + free;
        return hostError.value;
      }
      regs := regs[id := Registration(fd, types, info, {}, false)];
      live := [id] + live;
      return 0;
    }

    /** The first record of a descriptor leaves both lists and is kept for reuse. */
    method Free(id: nat)
      requires Valid() && id in live
      modifies this
      ensures Valid() && View() == Release(old(View()), id)
    {
      ReleaseOk(View(), id);
      live := Remove(live, id);
      regs := regs - {id};
      free := [id] + free;
    }

    /** poll_del_fd. */
    method DelFd(fd: nat, hostError: Option<int>) returns (err: int)
      requires Valid()
      modifies this
      ensures Valid() && View() == Del(old(View()), fd, hostError.None?)
      ensures var found := Find(old(live), old(regs), fd);
              err == if found.None? then ENOENT
                     else if hostError.Some? && !old(regs)[found.value].disabled then hostError.value else 0
    {
      var found := FindFd(fd);
      if found.None? {
        return ENOENT;
      }
      if !regs[found.value].disabled && hostError.Some? {
        return hostError.value;
      }
      Free(found.value);
      return 0;
    }

    /** poll_mod_fd. */
    method ModFd(fd: nat, types: Mask, info: nat, hostError: Option<int>) returns (err: int)
      requires Valid()
      modifies this
      ensures Valid() && View() == Mod(old(View()), fd, types, info, hostError.None?)
      ensures err == if Find(old(live), old(regs), fd).None? then ENOENT
                     else if hostError.Some? then hostError.value else 0
    {
      var found := FindFd(fd);
      if found.None? {
        return ENOENT;
      }
      if hostError.Some? {
        return hostError.value;
      }
      regs := regs[found.value := Registration(fd, types, info, {}, false)];
      return 0;
    }

    /** EPOLL_CTL_ADD with no other thread between the check and the addition: a descriptor is
        registered at most once. */
    method CtlAdd(fd: nat, types: Mask, info: nat, record: nat, memory: bool, hostError: Option<int>) returns (err: int)
      requires Valid() && !Allocated(View(), record) && OnePerFd(regs)
      modifies this
      ensures Valid() && OnePerFd(regs)
      ensures View() == if exists id :: id in old(regs) && old(regs)[id].fd == fd then old(View())
                        else Add(old(View()), fd, types, info, record, memory, hostError.None?)
      ensures (exists id :: id in old(regs) && old(regs)[id].fd == fd) ==> err == EEXIST
    {
      var found := HasFd(fd);
      if found {
        return EEXIST;
      }
      err := AddFd(fd, types, info, record, memory, hostError);
    }

    /** poll_cleanup_fd. */
    method CleanupFd(fd: nat)
      requires Valid()
      modifies this
      ensures Valid() && View() == Cleanup(old(View()), fd)
    {
      var found := FindFd(fd);
      while found.Some?
        invariant Valid() && found == Find(live, regs, fd)
        invariant Cleanup(View(), fd) == Cleanup(old(View()), fd)
        decreases |live|
      {
        Free(found.value);
        found := FindFd(fd);
      }
    }

    /** One registration of the loop of poll_wait; `res` counts the events handed over. */
    method Visit(id: nat, ready: Readiness, c: Context, res: nat, ghost room: nat) returns (count: nat)
      requires c.Valid() && id in regs && c.events.Length - c.n == room - res
      modifies this`regs, c`n, c.events
      ensures c.Valid() && c.events.Length - c.n == room - count && regs.Keys == old(regs.Keys)
      ensures Scanned(regs, count, c.Written()) == ScanStep(Scanned(old(regs), res, old(c.Written())), id, ready, room)
    {
      var r := regs[id];
      if r.disabled {
        return res;
      }
      var types := if id in ready then ready[id] else {};
      types := types * (r.types + {POLL_HUP, POLL_ERR});
      if POLL_EDGETRIGGERED in r.types {
        types := types - r.triggered;
      }
      assert types == DueFor(regs, ready, id);
      if types == {} {
        return res;
      }
      count := res;
      var accepted := c.Callback(types, r.info);
      if accepted {
        count := count + 1;
        if POLL_ONESHOT in r.types {
          r := r.(disabled := true);
        }
        if POLL_EDGETRIGGERED in r.types {
          r := r.(triggered := r.triggered + types);
        }
        regs := regs[id := r];
      }
    }

    /** The loop of poll_wait over its registrations, one by one. */
    method VisitAll(ready: Readiness, c: Context) returns (res: nat)
      requires Valid() && c.Valid()
      modifies this`regs, c`n, c.events
      ensures c.Valid()
      ensures Scanned(regs, res, c.Written())
           == ScanLoop(old(regs), live, ready, c.events.Length - old(c.n), old(c.Written()))
    {
      ghost var before, room := old(regs), c.events.Length - c.n;
      var k := 0;
      res := 0;
      while k < |live|
        invariant k <= |live| && c.Valid() && c.events.Length - c.n == room - res && regs.Keys == before.Keys
        invariant Scanned(regs, res, c.Written()) == ScanLoop(before, live[..k], ready, room, old(c.Written()))
      {
        ScanLoopNext(before, live, k, ready, room, old(c.Written()));
        res := Visit(live[k], ready, c, res, room);
        k := k + 1;
      }
      assert live[..k] == live;
    }

    /** The same loop: it reports the first registrations with something due, as far as the
        buffer goes, and delivers to those alone. */
    method ScanInto(ready: Readiness, c: Context) returns (res: nat)
      requires Valid() && c.Valid()
      modifies this`regs, c`n, c.events
      ensures Valid() && c.Valid()
      ensures View() == Scan(old(View()), ready, c.events.Length - old(c.n))
      ensures var reports := Reports(old(View()), ready, c.events.Length - old(c.n));
              res == |reports| && c.Written() == old(c.Written()) + Records(old(regs), reports)
    {
      ScanEnds(View(), ready, c.events.Length - c.n, c.Written());
      res := VisitAll(ready, c);
    }

    /** poll_wakeup, for the records of this poll. */
    method WakeupFd(fd: nat, events: Mask)
      requires Valid()
      modifies this`regs
      ensures Valid() && View() == Wakeup(old(View()), fd, events)
    {
      ghost var s := View();
      var k := 0;
      while k < |live|
        invariant k <= |live| && regs.Keys == s.regs.Keys && regs == WakeLoop(s.regs, live[..k], fd, events)
      {
        WakeLoopNext(s.regs, live, k, fd, events);
        var r := regs[live[k]];
        if r.fd == fd {
          if POLL_EDGETRIGGERED in r.types {
            r := r.(triggered := r.triggered - events);
          }
          regs := regs[live[k] := r];
        }
        k := k + 1;
      }
      assert live[..k] == live;
      WakeLoopIs(s, fd, events);
      assert Ok(Wakeup(s, fd, events));
    }

    /** The edges of one host wait; a record that is free by now is recognised by its mark. */
    method TakeEdges(events: seq<Report>)
      requires Valid()
      modifies this
      ensures Valid() && View() == HostEdges(old(View()), events)
    {
      ghost var s := View();
      var k := 0;
      while k < |events|
        invariant k <= |events| && waiters == old(waiters) && View() == HostEdges(s, events[..k])
      {
        var id := events[k].id;
        assert events[..k + 1][..k] == events[..k];
        if id in regs && POLL_EDGETRIGGERED in regs[id].types {
          regs := regs[id := regs[id].(triggered := regs[id].triggered - events[k].types)];
        } else if id in regs {
          assert regs[id := regs[id]] == regs;
        }
        k := k + 1;
      }
      assert events[..k] == events;
      HostEdgesOk(s, events);
    }

    /** What other threads do while the lock is released. */
    method Interleave(thread: nat, others: seq<Event>)
      requires Valid()
      modifies this
      ensures Valid() && View() == OtherSteps(old(View()), thread, others)
      ensures thread in old(inside) ==> thread in inside
    {
      OthersOk(View(), thread, others);
      var s := OtherSteps(View(), thread, others);
      live, free, regs, inside, pipe, waiters := s.live, s.free, s.regs, s.inside, s.pipe, |s.inside|;
    }

    /** The start of poll_wait.  The assertion that the pipe is closed when the first thread
        enters is the one the source makes. */
    method EnterWait(thread: nat, pipeError: Option<int>) returns (ok: bool)
      requires Valid() && thread !in inside
      modifies this
      ensures Valid() && View() == Enter(old(View()), thread, pipeError.None?)
      ensures ok <==> thread in inside
      ensures !ok ==> View() == old(View())
    {
      waiters := waiters + 1;
      if waiters == 1 {
        assert inside == {};
        assert !pipe;
        if pipeError.Some? {
          waiters := waiters - 1;
          return false;
        }
        pipe := true;
      }
      assert inside != {} ==> pipe;
      inside := inside + {thread};
      return true;
    }

    /** The end of poll_wait. */
    method LeaveWait(thread: nat)
      requires Valid() && thread in inside
      modifies this
      ensures Valid() && View() == Leave(old(View()), thread)
    {
      waiters := waiters - 1;
      inside := inside - {thread};
      if waiters == 0 {
        pipe := false;
      }
      assert |inside| == 0 <==> inside == {};
    }

    /** poll_wait.  The result counts the events handed to the callback, all of them in one scan
        (of the state `at`, in round `last`); a wait that ends in any other way has handed over
        none.  `Waiting` means that the given rounds did not end the wait. */
    method Wait(thread: nat, c: Context, pipeError: Option<int>, rounds: seq<Round>)
      returns (res: Outcome, ghost at: State, ghost last: nat)
      requires Valid() && c.Valid() && c.n == 0 && c.events.Length > 0 && thread !in inside
      modifies this, c`n, c.events
      ensures Valid() && c.Valid() && (thread in inside <==> res.Waiting?)
      ensures if old(inside) == {} && pipeError.Some?
              then res == Failed(pipeError.value) && View() == old(View()) && c.n == 0
              else Waited(res, View(), c.Written())
                   == WaitSpec(Enter(old(View()), thread, pipeError.None?), thread, rounds, c.events.Length)
      ensures c.n == if res.Ready? then res.count else 0
      ensures res.Ready? && res.count > 0 ==>
                && last < |rounds| && Ok(at)
                && View() == Leave(Scan(at, rounds[last].ready, c.events.Length), thread)
                && c.Written() == Records(at.regs, Reports(at, rounds[last].ready, c.events.Length))
    {
      at, last := View(), 0;
      var entered := EnterWait(thread, pipeError);
      if !entered {
        return Failed(if pipeError.Some? then pipeError.value else 0), at, last;
      }
      ghost var start := View();
      var k := 0;
      while k < |rounds|
        invariant k <= |rounds| && Valid() && c.Valid() && c.n == 0 && thread in inside
        invariant WaitSpec(View(), thread, rounds[k..], c.events.Length)
               == WaitSpec(start, thread, rounds, c.events.Length)
      {
        assert pipe;
        assert rounds[k..][0] == rounds[k] && rounds[k..][1..] == rounds[k + 1..];
        var done: Outcome;
        done, at := WaitRound(thread, c, rounds[k]);
        if !done.Waiting? {
          LeaveWait(thread);
          return done, at, k;
        }
        k := k + 1;
      }
      return Waiting, at, last;
    }

    /** One turn of the loop of poll_wait. */
    method WaitRound(thread: nat, c: Context, round: Round) returns (res: Outcome, ghost at: State)
      requires Valid() && c.Valid() && c.n == 0 && c.events.Length > 0 && thread in inside
      modifies this, c`n, c.events
      ensures Valid() && c.Valid() && thread in inside
      ensures c.n == if res.Ready? then res.count else 0
      ensures at == old(View()) && Ok(at)
      ensures Waited(res, View(), c.Written()) == RoundSpec(at, thread, round, c.events.Length)
      ensures res.Ready? && res.count > 0 ==>
                && View() == Scan(at, round.ready, c.events.Length)
                && c.Written() == Records(at.regs, Reports(at, round.ready, c.events.Length))
    {
      at := View();
      ghost var before := c.Written();
      var n := ScanInto(round.ready, c);
      assert before == [];
      assert |c.Written()| == n;
      if n > 0 {
        return Ready(n), at;
      }
      if round.signal {
        return Failed(EINTR), at;
      }
      Interleave(thread, round.others);
      match round.host {
        case HostError(errno) =>
          return Failed(errno), at;
        case HostEvents(events) =>
          if events == [] {
            return Ready(0), at;
          }
          HostEdgesOk(View(), events);
          TakeEdges(events);
          if round.pipe.PipeError? {
            return Failed(round.pipe.errno), at;
          }
      }
      return Waiting, at;
    }

    /** sys_epoll_wait: the records copied out are those of one scan, at most `maxEvents` of
        them, and their number is the result.  If copying them out fails, the events of that
        scan have been consumed all the same. */
    method EpollWait(thread: nat, maxEvents: int, pipeError: Option<int>, rounds: seq<Round>, copyOk: bool)
      returns (res: Outcome, out: seq<Record>, ghost at: State, ghost last: nat)
      requires Valid() && thread !in inside
      modifies this
      ensures Valid()
      ensures maxEvents <= 0 ==> res == Failed(EINVAL) && View() == old(View())
      ensures maxEvents > 0 && !(old(inside) == {} && pipeError.Some?) ==>
                var w := WaitSpec(Enter(old(View()), thread, pipeError.None?), thread, rounds, maxEvents);
                && View() == w.s
                && if w.written != [] && !copyOk then res == Failed(EFAULT) && out == []
                   else res == w.res && out == w.written
      ensures |out| == if res.Ready? then res.count else 0
      ensures |out| > 0 ==>
                && copyOk && |out| <= maxEvents && last < |rounds| && Ok(at)
                && View() == Leave(Scan(at, rounds[last].ready, maxEvents), thread)
                && out == Records(at.regs, Reports(at, rounds[last].ready, maxEvents))
    {
      at, last := View(), 0;
      if maxEvents <= 0 {
        return Failed(EINVAL), [], at, last;
      }
      var c := new Context(maxEvents);
      res, at, last := Wait(thread, c, pipeError, rounds);
      out := [];
      if res.Ready? && res.count > 0 {
        if !copyOk {
          return Failed(EFAULT), [], at, last;
        }
        out := c.events[..res.count];
      }
    }
  }

  ghost predicate OnePerFd(regs: map<nat, Registration>) {
    forall i, j :: i in regs && j in regs && regs[i].fd == regs[j].fd ==> i == j
  }

  ghost predicate HasFd(regs: map<nat, Registration>, fd: nat) {
    exists id :: id in regs && regs[id].fd == fd
  }

  /** EPOLL_CTL_ADD looks for the descriptor and adds it in two sections.  A step leaves at most one
      registration per descriptor exactly if it is not an addition of one that is there by then. */
  lemma OnePerFdIff(s: State, e: Event)
    requires Ok(s) && Enabled(s, e) && OnePerFd(s.regs)
    ensures OnePerFd(Step(s, e).regs)
            <==> !(e.DoAdd? && (s.free != [] || e.memory) && e.hostOk && HasFd(s.regs, e.fd))
  {
    var t := Step(s, e);
    if e.DoScan? {
      forall id ensures id in t.regs <==> id in s.regs
        ensures id in s.regs ==> t.regs[id].fd == s.regs[id].fd
      {
        ScanAt(s, e.ready, e.room, id);
      }
    } else if e.DoAdd? && (s.free != [] || e.memory) && e.hostOk {
      var record := Taken(s, e.record);
      assert record !in s.regs && record in t.regs;
      if id :| id in s.regs && s.regs[id].fd == e.fd {
        assert id in t.regs && t.regs[id].fd == t.regs[record].fd;
      }
    }
  }

  /** Two threads that have both found a descriptor missing register it twice. */
  lemma AddedTwice() returns (s: State, e: Event)
    ensures Ok(s) && Enabled(s, e) && OnePerFd(s.regs) && !OnePerFd(Step(s, e).regs)
  {
    var first := DoAdd(7, {}, 0, 1, true, true);
    s, e := Step(Init(), first), DoAdd(7, {}, 0, 2, true, true);
    StepOk(Init(), first);
    OnePerFdIff(Init(), first);
    assert 1 in s.regs && s.regs[1].fd == 7;
    OnePerFdIff(s, e);
  }
}
