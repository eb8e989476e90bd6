// The poller's table mirrors the watcher table: the mask registered for an fd
// is the union of the masks watched on it.
module EventLoopPoller {
  import opened TimerHeap
  import opened EventLoop
  import opened EventLoopSafety
  import opened EventLoopRuns

  ghost predicate Mirror(poller: map<int, set<Bit>>, ws: seq<Watcher>) {
    forall fd :: Registered(poller, fd) == MaskOf(ws, fd)
  }

  /** No two watches on an fd share an event bit. */
  ghost predicate Disjoint(ws: seq<Watcher>) {
    forall i, j :: 0 <= i < j < |ws| && ws[i].fd == ws[j].fd ==> ws[i].events !! ws[j].events
  }

  predicate OneBit(events: set<Bit>) { events == {Read} || events == {Write} }

  ghost predicate OneBits(ws: seq<Watcher>) { forall i :: 0 <= i < |ws| ==> OneBit(ws[i].events) }

  ghost predicate Mirrored(rt: Rt) { Mirror(rt.poller, rt.watchers) && Disjoint(rt.watchers) }

  /** b is mirrored, and its watchers use single bits if those of a do. */
  ghost predicate Keeps(a: Rt, b: Rt) { Mirrored(b) && (OneBits(a.watchers) ==> OneBits(b.watchers)) }

  lemma {:induction false} MaskMember(ws: seq<Watcher>, fd: int, b: Bit)
    ensures b in MaskOf(ws, fd) <==> exists i :: 0 <= i < |ws| && ws[i].fd == fd && b in ws[i].events
  {
    if ws != [] {
      MaskMember(ws[1..], fd, b);
      if i :| 0 <= i < |ws| && ws[i].fd == fd && b in ws[i].events {
        if i > 0 { assert ws[1..][i - 1] == ws[i]; }
      }
      if i :| 0 <= i < |ws| - 1 && ws[1..][i].fd == fd && b in ws[1..][i].events {
        assert ws[i + 1] == ws[1..][i];
      }
    }
  }

  /** Taking watcher i out: its own mask and the mask of the rest make up the whole. */
  lemma MaskWithout(ws: seq<Watcher>, i: nat, fd: int)
    requires i < |ws|
    ensures MaskOf(ws, fd) == MaskOf(SwapRemove(ws, i), fd) + (if ws[i].fd == fd then ws[i].events else {})
  {
    var r := SwapRemove(ws, i);
    var n := |ws| - 1;
    assert forall j :: 0 <= j < n ==> r[j] == if j == i then ws[n] else ws[j];
    forall b: Bit
      ensures b in MaskOf(ws, fd) <==> b in MaskOf(r, fd) || (ws[i].fd == fd && b in ws[i].events)
    {
      MaskMember(ws, fd, b);
      MaskMember(r, fd, b);
      if j :| 0 <= j < |ws| && ws[j].fd == fd && b in ws[j].events {
        if j != i { assert r[if j == n then i else j] == ws[j]; }
      }
      if j :| 0 <= j < n && r[j].fd == fd && b in r[j].events {
        assert ws[if j == i then n else j] == r[j];
      }
    }
  }

  lemma RegisteredAfter(poller: map<int, set<Bit>>, fd: int, events: set<Bit>, other: int)
    ensures Registered(Unregister(poller, fd, events), other)
         == if other == fd then Registered(poller, fd) - events else Registered(poller, other)
    ensures Registered(Register(poller, fd, events), other)
         == if other == fd then Registered(poller, fd) + events else Registered(poller, other)
  {
  }

  /**
   * Dropping a watcher keeps the mirror exactly when no other watcher on its fd
   * shares one of its bits; with overlapping masks it is lost.
   */
  lemma DropKeepsMirrorExactly(rt: Rt, i: nat)
    requires Mirror(rt.poller, rt.watchers) && i < |rt.watchers|
    ensures Mirror(DropWatcher(rt, i).poller, DropWatcher(rt, i).watchers)
       <==> rt.watchers[i].events !! MaskOf(SwapRemove(rt.watchers, i), rt.watchers[i].fd)
  {
    hide SwapRemove, MaskOf;
    var w := rt.watchers[i];
    var r := DropWatcher(rt, i);
    forall fd ensures Registered(r.poller, fd) == MaskOf(r.watchers, fd) - (if fd == w.fd then w.events else {}) {
      MaskWithout(rt.watchers, i, fd);
      RegisteredAfter(rt.poller, w.fd, w.events, fd);
    }
    if Mirror(r.poller, r.watchers) { assert Registered(r.poller, w.fd) == MaskOf(r.watchers, w.fd); }
  }

  lemma DisjointShrink(ws: seq<Watcher>, i: nat)
    requires i < |ws| && Disjoint(ws)
    ensures Disjoint(SwapRemove(ws, i)) && (OneBits(ws) ==> OneBits(SwapRemove(ws, i)))
    ensures ws[i].events !! MaskOf(SwapRemove(ws, i), ws[i].fd)
  {
    var r := SwapRemove(ws, i);
    var n := |ws| - 1;
    assert forall j :: 0 <= j < n ==> r[j] == if j == i then ws[n] else ws[j];
    forall b: Bit | b in ws[i].events ensures b !in MaskOf(r, ws[i].fd) {
      MaskMember(r, ws[i].fd, b);
      forall j | 0 <= j < n && r[j].fd == ws[i].fd ensures b !in r[j].events {
        assert r[j].events !! ws[i].events;
      }
    }
  }

  lemma DropMirrored(rt: Rt, i: nat)
    requires Mirrored(rt) && i < |rt.watchers|
    ensures Keeps(rt, DropWatcher(rt, i))
  {
    hide Mirror, Disjoint, OneBits;
    DisjointShrink(rt.watchers, i);
    DropKeepsMirrorExactly(rt, i);
  }

  lemma {:induction false} RemoveWatchersMirrored(rt: Rt, id: TaskId, i: nat)
    requires Mirrored(rt) && i <= |rt.watchers|
    ensures Keeps(rt, RemoveWatchers(rt, id, i))
    decreases |rt.watchers|, |rt.watchers| - i
  {
    hide Mirrored, OneBits;
    if i < |rt.watchers| {
      if rt.watchers[i].task == id {
        DropMirrored(rt, i);
        RemoveWatchersMirrored(DropWatcher(rt, i), id, i);
      } else {
        RemoveWatchersMirrored(rt, id, i + 1);
      }
    }
  }

  /** The mirror looks at the two tables only. */
  ghost predicate SameTables(a: Rt, b: Rt) { a.watchers == b.watchers && a.poller == b.poller }

  lemma CancelMirrored(rt: Rt, id: TaskId)
    requires Mirrored(rt) && id in rt.tasks
    ensures Keeps(rt, Cancel(rt, id))
  {
    hide Mirror, Disjoint, OneBits;
    var flagged := CancelFlags(rt, id);
    assert SameTables(rt, flagged);
    RemoveWatchersMirrored(flagged, id, 0);
    RemoveWatchersKeepsTasks(flagged, id, 0);
    assert SameTables(RemoveWatchers(flagged, id, 0), Cancel(rt, id));
  }

  lemma MaskReplaced(ws: seq<Watcher>, i: nat, w: Watcher, fd: int)
    requires i < |ws| && w.fd == ws[i].fd && w.events == ws[i].events
    ensures MaskOf(ws[i := w], fd) == MaskOf(ws, fd)
  {
    forall b: Bit ensures b in MaskOf(ws[i := w], fd) <==> b in MaskOf(ws, fd) {
      MaskMember(ws, fd, b);
      MaskMember(ws[i := w], fd, b);
      var r := ws[i := w];
      assert forall j :: 0 <= j < |ws| ==> r[j].fd == ws[j].fd && r[j].events == ws[j].events;
      if j :| 0 <= j < |ws| && ws[j].fd == fd && b in ws[j].events { assert r[j].fd == fd; }
    }
  }

  lemma MaskAppended(ws: seq<Watcher>, w: Watcher, fd: int)
    ensures MaskOf(ws + [w], fd) == MaskOf(ws, fd) + (if w.fd == fd then w.events else {})
  {
    var r := ws + [w];
    forall b: Bit
      ensures b in MaskOf(r, fd) <==> b in MaskOf(ws, fd) || (w.fd == fd && b in w.events)
    {
      MaskMember(ws, fd, b);
      MaskMember(r, fd, b);
      assert forall j :: 0 <= j < |ws| ==> r[j] == ws[j];
      assert r[|ws|] == w;
      if j :| 0 <= j < |ws| && ws[j].fd == fd && b in ws[j].events { assert r[j] == ws[j]; }
    }
  }

  /** The backend carries out a registration, or else at least restores the old one. */
  predicate Honest(backend: Backend) { backend.registers || backend.restores }

  lemma ExtendMirrored(poller: map<int, set<Bit>>, ws: seq<Watcher>, fd: int, events: set<Bit>, backend: Backend)
    requires Honest(backend)
    requires forall x :: Registered(poller, x) == MaskOf(ws, x)
    ensures var (p, ok) := ExtendRegistration(poller, ws, fd, events, backend);
      forall x :: Registered(p, x) == MaskOf(ws, x) + (if x == fd && ok then events else {})
  {
    hide MaskOf;
    var existing := MaskOf(ws, fd);
    var cleared := Unregister(poller, fd, existing);
    forall x ensures var p := ExtendRegistration(poller, ws, fd, events, backend);
      Registered(p.0, x) == MaskOf(ws, x) + (if x == fd && p.1 then events else {})
    {
      RegisteredAfter(poller, fd, existing, x);
      RegisteredAfter(poller, fd, existing + events, x);
      RegisteredAfter(cleared, fd, existing + events, x);
      RegisteredAfter(cleared, fd, existing, x);
      RegisteredAfter(poller, fd, existing, fd);
    }
  }

  /** A new watch replaces one for the same events on the fd, or shares no event with those there are. */
  predicate Apart(ws: seq<Watcher>, fd: int, events: set<Bit>) {
    FindExact(ws, fd, events) < |ws| || events !! MaskOf(ws, fd)
  }

  lemma SingleBitApart(ws: seq<Watcher>, fd: int, events: set<Bit>)
    requires OneBits(ws) && OneBit(events)
    ensures Apart(ws, fd, events)
  {
    if FindExact(ws, fd, events) == |ws| {
      forall b: Bit | b in events ensures b !in MaskOf(ws, fd) {
        MaskMember(ws, fd, b);
        forall i | 0 <= i < |ws| && ws[i].fd == fd ensures b !in ws[i].events {
          assert OneBit(ws[i].events);
        }
      }
    }
  }

  lemma WatchMirrored(rt: Rt, fd: int, events: set<Bit>, persistent: bool, backend: Backend)
    requires Mirrored(rt) && WatchersLive(rt) && Apart(rt.watchers, fd, events) && Honest(backend)
    ensures Mirrored(Watch(rt, fd, events, persistent, backend))
    ensures OneBits(rt.watchers) && OneBit(events) ==> OneBits(Watch(rt, fd, events, persistent, backend).watchers)
  {
    hide Cancel, ExtendRegistration, MaskOf;
    var id, ws := rt.nextId, rt.watchers;
    var r, w := Create(rt), Watcher(fd, events, persistent, rt.nextId);
    var i := FindExact(ws, fd, events);
    if i < |ws| {
      forall x ensures MaskOf(ws[i := w], x) == MaskOf(ws, x) { MaskReplaced(ws, i, w, x); }
      var s := r.(watchers := ws[i := w]);
      var t := SetTask(s, id, s.tasks[id].(persistent := persistent));
      CancelMirrored(t, ws[i].task);
    } else {
      ExtendMirrored(rt.poller, ws, fd, events, backend);
      forall x ensures MaskOf(ws + [w], x) == MaskOf(ws, x) + (if x == fd then events else {}) { MaskAppended(ws, w, x); }
      AppendDisjoint(ws, w);
    }
  }

  lemma AppendDisjoint(ws: seq<Watcher>, w: Watcher)
    requires Disjoint(ws) && w.events !! MaskOf(ws, w.fd)
    ensures Disjoint(ws + [w])
  {
    forall i | 0 <= i < |ws| && ws[i].fd == w.fd ensures ws[i].events !! w.events {
      forall b: Bit | b in w.events ensures b !in ws[i].events { MaskMember(ws, w.fd, b); }
    }
  }

  // ---------------------------------------------------------------------
  // Unwatching clears the whole fd
  // ---------------------------------------------------------------------

  /** The mirror holds for every fd but this one, for which nothing is registered. */
  ghost predicate Clearing(rt: Rt, fd: int) {
    && Registered(rt.poller, fd) == {}
    && (forall x :: x != fd ==> Registered(rt.poller, x) == MaskOf(rt.watchers, x))
    && Disjoint(rt.watchers)
  }

  lemma {:induction false} UnwatchLoopMirrored(rt: Rt, fd: int, i: nat)
    requires Clearing(rt, fd) && i <= |rt.watchers| && WatchersLive(rt)
    requires forall j :: 0 <= j < i ==> rt.watchers[j].fd != fd
    ensures Keeps(rt, UnwatchLoop(rt, fd, i))
    decreases |rt.watchers|, |rt.watchers| - i
  {
    hide MaskOf, Disjoint, OneBits;
    if i == |rt.watchers| {
      forall b: Bit ensures b !in MaskOf(rt.watchers, fd) { MaskMember(rt.watchers, fd, b); }
      assert MaskOf(rt.watchers, fd) == {};
    } else if rt.watchers[i].fd == fd {
      var id := rt.watchers[i].task;
      DisjointShrink(rt.watchers, i);
      forall x ensures MaskOf(SwapRemove(rt.watchers, i), x) == MaskOf(rt.watchers, x) || x == fd {
        MaskWithout(rt.watchers, i, x);
      }
      UnwatchLoopMirrored(Schedule(CancelFlags(rt, id).(watchers := SwapRemove(rt.watchers, i)), id), fd, i);
    } else {
      UnwatchLoopMirrored(rt, fd, i + 1);
    }
  }

  lemma UnwatchMirrored(rt: Rt, fd: int)
    requires Mirrored(rt) && WatchersLive(rt)
    ensures Keeps(rt, Unwatch(rt, fd))
  {
    hide MaskOf, Disjoint, OneBits;
    var r := rt.(poller := Unregister(rt.poller, fd, {Read, Write}));
    forall x ensures Registered(r.poller, x) == if x == fd then {} else Registered(rt.poller, x) {
      RegisteredAfter(rt.poller, fd, {Read, Write}, x);
      BothBits(Registered(rt.poller, fd));
    }
    UnwatchLoopMirrored(r, fd, 0);
  }

  lemma BothBits(events: set<Bit>)
    ensures events - {Read, Write} == {}
  {
    forall b: Bit | b in events ensures b in {Read, Write} {
      match b
      case Read =>
      case Write =>
    }
  }

  lemma {:induction false} DispatchMirrored(rt: Rt, fd: int, events: set<Bit>, j: nat)
    requires Mirrored(rt) && WatchersLive(rt) && j <= |rt.watchers|
    ensures Keeps(rt, Dispatch(rt, fd, events, j))
    decreases |rt.watchers|, |rt.watchers| - j
  {
    hide Mirror, Disjoint, OneBits;
    if j < |rt.watchers| {
      var w := rt.watchers[j];
      if w.fd == fd && w.events * events != {} {
        var r := Schedule(rt, w.task);
        assert SameTables(rt, r);
        if w.persistent {
          DispatchMirrored(r, fd, events, j + 1);
        } else {
          DropMirrored(r, j);
          DispatchMirrored(DropWatcher(r, j), fd, events, j);
        }
      } else {
        DispatchMirrored(rt, fd, events, j + 1);
      }
    }
  }

  lemma {:induction false} DispatchAllMirrored(rt: Rt, ready: seq<(int, set<Bit>)>)
    requires Mirrored(rt) && WatchersLive(rt)
    ensures Keeps(rt, DispatchAll(rt, ready))
    decreases |ready|
  {
    hide Mirrored, OneBits;
    if ready != [] {
      DispatchLive(rt, ready[0].0, ready[0].1, 0);
      DispatchMirrored(rt, ready[0].0, ready[0].1, 0);
      DispatchAllMirrored(Dispatch(rt, ready[0].0, ready[0].1, 0), ready[1..]);
    }
  }

  lemma {:induction false} UpdateTimersTables(rt: Rt, now: Clock)
    requires TimersLive(rt)
    ensures SameTables(rt, UpdateTimers(rt, now))
    decreases |Due(rt.timers, now)|
  {
    if rt.timers != [] && rt.timers[0].fire <= now {
      FireTopDue(rt.timers, now);
      FireStepLive(rt, now);
      UpdateTimersTables(FireStep(rt, now), now);
    }
  }

  // ---------------------------------------------------------------------
  // Whole runs
  // ---------------------------------------------------------------------

  predicate CallFits(rt: Rt, c: Call) { c.WatchFd? ==> Honest(c.backend) && Apart(rt.watchers, c.fd, c.events) }

  /** Every watch, when it is made, is apart from the watches of that moment, and the backend is honest. */
  predicate CallsFit(rt: Rt, cs: seq<Call>)
    requires Inv(rt)
    decreases |cs|
  {
    cs == [] ||
    (ApplyCallSafe(rt, cs[0]); CallFits(rt, cs[0]) && CallsFit(ApplyCall(rt, cs[0]), cs[1..]))
  }

  predicate HeadFits(rt: Rt, script: seq<Call>)
    requires Inv(rt) && rt.queue != []
  {
    TakeSafe(rt);
    var id, taken := rt.queue[0], Take(rt);
    taken.tasks[id].cancelled ||
    (LogOnlySafe(taken, Ran(id)); CallsFit(taken.(log := taken.log + [Ran(id)]), script))
  }

  predicate QueueFits(rt: Rt, scripts: seq<seq<Call>>)
    requires Inv(rt)
    decreases |scripts|, |rt.queue|
  {
    if !rt.running || rt.queue == [] then true
    else
      TakeSafe(rt);
      if rt.tasks[rt.queue[0]].cancelled || scripts == [] then
        RunHeadQueue(rt, []);
        QueueFits(RunHead(rt, []), scripts)
      else HeadFits(rt, scripts[0]) && QueueFits(RunHead(rt, scripts[0]), scripts[1..])
  }

  predicate StepFits(rt: Rt, s: Step)
    requires Inv(rt)
  {
    match s
    case Outside(c) => CallFits(rt, c)
    case Ticks(ready, now, scripts) =>
      InvLive(rt, {});
      DispatchAllSafe(rt, ready);
      var dispatched := DispatchAll(rt, ready);
      InvLive(dispatched, {});
      UpdateTimersSafe(dispatched, now);
      QueueFits(UpdateTimers(dispatched, now), scripts)
  }

  function After(rt: Rt, s: Step): (r: Rt)
    requires Inv(rt)
    ensures Inv(r)
  {
    match s
    case Outside(c) => (ApplyCallSafe(rt, c); ApplyCall(rt, c))
    case Ticks(ready, now, scripts) => Tick(rt, ready, now, scripts)
  }

  predicate StepsFit(rt: Rt, steps: seq<Step>)
    requires Inv(rt)
    decreases |steps|
  {
    steps == [] || (StepFits(rt, steps[0]) && StepsFit(After(rt, steps[0]), steps[1..]))
  }

  /** Watches use one bit each and the backend is honest. */
  predicate PlainCall(c: Call) { c.WatchFd? ==> OneBit(c.events) && Honest(c.backend) }

  predicate PlainCalls(cs: seq<Call>) { forall i :: 0 <= i < |cs| ==> PlainCall(cs[i]) }

  predicate PlainScripts(scripts: seq<seq<Call>>) { forall i :: 0 <= i < |scripts| ==> PlainCalls(scripts[i]) }

  predicate PlainStep(s: Step) {
    match s
    case Outside(c) => PlainCall(c)
    case Ticks(_, _, scripts) => PlainScripts(scripts)
  }

  lemma CallMirrored(rt: Rt, c: Call)
    requires Inv(rt) && Mirrored(rt) && (CallFits(rt, c) || (OneBits(rt.watchers) && PlainCall(c)))
    ensures Mirrored(ApplyCall(rt, c))
    ensures OneBits(rt.watchers) && PlainCall(c) ==> OneBits(ApplyCall(rt, c).watchers)
  {
    hide Mirror, Disjoint, OneBits, InvBut, Watch, Cancel, Unwatch, Apart, OneBit;
    InvLive(rt, {});
    match c {
      case WatchFd(fd, events, persistent, backend) =>
        if OneBits(rt.watchers) && PlainCall(c) { SingleBitApart(rt.watchers, fd, events); }
        WatchMirrored(rt, fd, events, persistent, backend);
      case UnwatchFd(fd) => UnwatchMirrored(rt, fd);
      case CancelTask(id) => if id in rt.tasks { CancelMirrored(rt, id); }
      case ScheduleNew => assert SameTables(rt, ApplyCall(rt, c));
      case AddTimerCall(now, ms, repeating) => assert SameTables(rt, AddTimer(rt, now, ms, repeating));
      case SetRunning(on) => assert SameTables(rt, rt.(running := on));
    }
  }

  lemma {:induction false} CallsMirrored(rt: Rt, cs: seq<Call>)
    requires Inv(rt) && Mirrored(rt) && (CallsFit(rt, cs) || (OneBits(rt.watchers) && PlainCalls(cs)))
    ensures Mirrored(ApplyCalls(rt, cs))
    ensures OneBits(rt.watchers) && PlainCalls(cs) ==> OneBits(ApplyCalls(rt, cs).watchers)
    decreases |cs|
  {
    hide Mirrored, Inv, ApplyCall, OneBits, PlainCall, CallFits;
    if cs != [] {
      CallMirrored(rt, cs[0]);
      ApplyCallSafe(rt, cs[0]);
      CallsMirrored(ApplyCall(rt, cs[0]), cs[1..]);
    }
  }

  lemma RunHeadMirrored(rt: Rt, script: seq<Call>)
    requires Inv(rt) && rt.queue != [] && Mirrored(rt)
    requires HeadFits(rt, script) || (OneBits(rt.watchers) && PlainCalls(script))
    ensures Mirrored(RunHead(rt, script))
    ensures OneBits(rt.watchers) && PlainCalls(script) ==> OneBits(RunHead(rt, script).watchers)
  {
    hide Mirror, Disjoint, Inv, OneBits, PlainCalls, CallsFit;
    TakeSafe(rt);
    var id := rt.queue[0];
    var taken := Take(rt);
    assert SameTables(rt, taken);
    if !taken.tasks[id].cancelled {
      LogOnlySafe(taken, Ran(id));
      CallsMirrored(taken.(log := taken.log + [Ran(id)]), script);
    }
    var ran := Execute(taken, id, script);
    CurrentLive(ran, id);
    assert SameTables(ran, Finish(ran, id));
  }

  lemma {:induction false} RunQueueMirrored(rt: Rt, scripts: seq<seq<Call>>)
    requires Inv(rt) && Mirrored(rt) && (QueueFits(rt, scripts) || (OneBits(rt.watchers) && PlainScripts(scripts)))
    ensures Mirrored(RunQueue(rt, scripts))
    ensures OneBits(rt.watchers) && PlainScripts(scripts) ==> OneBits(RunQueue(rt, scripts).watchers)
    decreases |scripts|, |rt.queue|
  {
    hide Mirrored, Inv, RunHead, PlainCalls, OneBits, HeadFits;
    if rt.running && rt.queue != [] {
      TakeSafe(rt);
      if rt.tasks[rt.queue[0]].cancelled || scripts == [] {
        RunHeadQueue(rt, []);
        NoCalls(rt);
        RunHeadMirrored(rt, []);
        RunQueueMirrored(RunHead(rt, []), scripts);
      } else {
        RunHeadMirrored(rt, scripts[0]);
        RunQueueMirrored(RunHead(rt, scripts[0]), scripts[1..]);
      }
    }
  }

  lemma NoCalls(rt: Rt)
    requires Inv(rt) && rt.queue != []
    ensures PlainCalls([]) && HeadFits(rt, [])
  {
    hide Inv;
    TakeSafe(rt);
  }

  lemma TickMirrored(rt: Rt, ready: seq<(int, set<Bit>)>, now: Clock, scripts: seq<seq<Call>>)
    requires Inv(rt) && Mirrored(rt)
    requires StepFits(rt, Ticks(ready, now, scripts)) || (OneBits(rt.watchers) && PlainScripts(scripts))
    ensures Mirrored(Tick(rt, ready, now, scripts))
    ensures OneBits(rt.watchers) && PlainScripts(scripts) ==> OneBits(Tick(rt, ready, now, scripts).watchers)
  {
    hide Mirror, Disjoint, InvBut, OneBits, QueueFits, PlainScripts;
    InvLive(rt, {});
    DispatchAllSafe(rt, ready);
    DispatchAllMirrored(rt, ready);
    var dispatched := DispatchAll(rt, ready);
    InvLive(dispatched, {});
    UpdateTimersSafe(dispatched, now);
    UpdateTimersTables(dispatched, now);
    RunQueueMirrored(UpdateTimers(dispatched, now), scripts);
  }

  predicate PlainSteps(steps: seq<Step>) { forall i :: 0 <= i < |steps| ==> PlainStep(steps[i]) }

  lemma {:induction false} StepsMirrored(rt: Rt, steps: seq<Step>)
    requires Inv(rt) && Mirrored(rt) && (StepsFit(rt, steps) || (OneBits(rt.watchers) && PlainSteps(steps)))
    ensures Mirrored(RunSteps(rt, steps))
    decreases |steps|
  {
    hide Mirrored, Inv, Tick, ApplyCall, OneBits, PlainScripts, PlainCall, CallFits;
    if steps != [] {
      match steps[0] {
        case Outside(c) =>
          CallMirrored(rt, c);
          ApplyCallSafe(rt, c);
          StepsMirrored(ApplyCall(rt, c), steps[1..]);
        case Ticks(ready, now, scripts) =>
          TickMirrored(rt, ready, now, scripts);
          StepsMirrored(Tick(rt, ready, now, scripts), steps[1..]);
      }
    }
  }

  /**
    * After any run in which every watch, from outside or from a callback, is
    * apart from the watches of its moment, the poller listens for exactly what is
    * watched.
    */
  lemma WholeRunMirror(steps: seq<Step>)
    requires (InitialSafe(); StepsFit(EventLoop.Initial(), steps))
    ensures Inv(EventLoop.Initial())
    ensures var rt := RunSteps(EventLoop.Initial(), steps); Mirror(rt.poller, rt.watchers)
  {
    InitialSafe();
    StepsMirrored(EventLoop.Initial(), steps);
  }

  /** In particular after any run whose watches use a single bit each. */
  lemma SingleBitRunMirror(steps: seq<Step>)
    requires PlainSteps(steps)
    ensures Inv(EventLoop.Initial())
    ensures var rt := RunSteps(EventLoop.Initial(), steps); Mirror(rt.poller, rt.watchers)
  {
    InitialSafe();
    StepsMirrored(EventLoop.Initial(), steps);
  }

  // ---------------------------------------------------------------------
  // A run that loses the mirror
  // ---------------------------------------------------------------------

  const WORKING: Backend := Backend(true, true)

  /** fd 3 is watched for both events, by a second task for reading too, and the second task is cancelled. */
  function OverlapRun(): seq<Step> {
    [Outside(WatchFd(3, {Read, Write}, false, WORKING)), Outside(WatchFd(3, {Read}, false, WORKING)), Outside(CancelTask(1))]
  }

  /** Watching {Read, Write} on fd 3 of an empty loop. */
  lemma OverlapFirst()
    ensures WatchersLive(EventLoop.Initial())
    ensures var r := Watch(EventLoop.Initial(), 3, {Read, Write}, false, WORKING);
      r.watchers == [Watcher(3, {Read, Write}, false, 0)] && r.poller == map[3 := {Read, Write}]
      && r.nextId == 1 && r.tasks.Keys == {0}
  {
    assert FindExact([], 3, {Read, Write}) == 0;
  }

  /** Watching {Read} there too registers nothing new. */
  lemma OverlapSecond(rt: Rt)
    requires rt.watchers == [Watcher(3, {Read, Write}, false, 0)] && rt.poller == map[3 := {Read, Write}]
    requires rt.nextId == 1 && rt.tasks.Keys == {0}
    ensures WatchersLive(rt)
    ensures var r := Watch(rt, 3, {Read}, false, WORKING);
      r.watchers == rt.watchers + [Watcher(3, {Read}, false, 1)] && r.poller == rt.poller && r.tasks.Keys == {0, 1}
  {
    assert Write in {Read, Write} && Write !in {Read};
    assert rt.watchers[1..] == [];
    assert FindExact(rt.watchers, 3, {Read}) == 1;
    assert MaskOf(rt.watchers, 3) == {Read, Write} + MaskOf([], 3);
    assert {Read, Write} + {Read} == {Read, Write};
  }

  /** Cancelling the second task unregisters {Read}. */
  lemma OverlapCancelled(rt: Rt)
    requires rt.watchers == [Watcher(3, {Read, Write}, false, 0), Watcher(3, {Read}, false, 1)]
    requires rt.poller == map[3 := {Read, Write}] && 1 in rt.tasks
    ensures Cancel(rt, 1).watchers == [Watcher(3, {Read, Write}, false, 0)]
    ensures Registered(Cancel(rt, 1).poller, 3) == {Write}
  {
    var f := CancelFlags(rt, 1);
    assert {Read, Write} - {Read} == {Write};
    var d := DropWatcher(f, 1);
    assert d.watchers == [Watcher(3, {Read, Write}, false, 0)];
    assert RemoveWatchers(d, 1, 1) == d;
    assert RemoveWatchers(f, 1, 1) == RemoveWatchers(d, 1, 1);
    assert RemoveWatchers(f, 1, 0) == RemoveWatchers(f, 1, 1);
  }

  /** The first watcher still waits for reading; the poller no longer listens for it. */
  lemma OverlapLosesMirror()
    ensures Inv(EventLoop.Initial())
    ensures var rt := RunSteps(EventLoop.Initial(), OverlapRun());
      && rt.watchers == [Watcher(3, {Read, Write}, false, 0)] && MaskOf(rt.watchers, 3) == {Read, Write}
      && Registered(rt.poller, 3) == {Write} && !Mirror(rt.poller, rt.watchers)
  {
    InitialSafe();
    hide Inv, Watch, Cancel, Mirror, Registered;
    var c1, c2 := WatchFd(3, {Read, Write}, false, WORKING), WatchFd(3, {Read}, false, WORKING);
    OverlapFirst();
    ApplyCallSafe(EventLoop.Initial(), c1);
    var r1 := ApplyCall(EventLoop.Initial(), c1);
    OverlapSecond(r1);
    ApplyCallSafe(r1, c2);
    var r2 := ApplyCall(r1, c2);
    OverlapCancelled(r2);
    ApplyCallSafe(r2, CancelTask(1));
    var r3 := ApplyCall(r2, CancelTask(1));
    assert r3 == Cancel(r2, 1);
    ThreeSteps(c1, c2, CancelTask(1), r1, r2, r3);
    assert MaskOf(r3.watchers, 3) == {Read, Write} + MaskOf([], 3);
    MirrorAt(r3, 3);
  }

  lemma ThreeSteps(c1: Call, c2: Call, c3: Call, r1: Rt, r2: Rt, r3: Rt)
    requires Inv(EventLoop.Initial()) && ApplyCall(EventLoop.Initial(), c1) == r1
    requires Inv(r1) && ApplyCall(r1, c2) == r2 && Inv(r2) && ApplyCall(r2, c3) == r3 && Inv(r3)
    ensures RunSteps(EventLoop.Initial(), [Outside(c1), Outside(c2), Outside(c3)]) == r3
  {
    hide Inv, ApplyCall, Tick;
    var steps := [Outside(c1), Outside(c2), Outside(c3)];
    assert steps[1..] == [Outside(c2), Outside(c3)] && steps[1..][1..] == [Outside(c3)];
    assert RunSteps(r2, [Outside(c3)]) == RunSteps(r3, []);
    assert RunSteps(r1, [Outside(c2), Outside(c3)]) == RunSteps(r2, [Outside(c3)]);
  }

  lemma MirrorAt(rt: Rt, fd: int)
    ensures Mirror(rt.poller, rt.watchers) ==> Registered(rt.poller, fd) == MaskOf(rt.watchers, fd)
  {
  }
}
