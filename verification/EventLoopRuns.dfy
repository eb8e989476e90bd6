// Ticks, whole runs and shutdown of the event loop, and what holds over all of
// them. Callbacks are scripts: any finite sequence of calls into the runtime.
module EventLoopRuns {
  import opened TimerHeap
  import opened EventLoop
  import opened EventLoopSafety

  /** A call into the runtime's interface. */
  datatype Call =
    | ScheduleNew
    | WatchFd(fd: int, events: set<Bit>, persistent: bool, backend: Backend)
    | UnwatchFd(fd: int)
    | AddTimerCall(now: Clock, ms: nat, repeating: bool)
    | CancelTask(id: TaskId)
    | SetRunning(on: bool)

  /** Cancelling needs a task that has not been freed; the caller owes that. */
  predicate Allowed(rt: Rt, c: Call) { c.CancelTask? ==> c.id in rt.tasks }

  function ApplyCall(rt: Rt, c: Call): Rt
    requires Inv(rt)
  {
    InvLive(rt, {});
    match c
    case ScheduleNew => Schedule(Create(rt), rt.nextId)
    case WatchFd(fd, events, persistent, backend) => Watch(rt, fd, events, persistent, backend)
    case UnwatchFd(fd) => Unwatch(rt, fd)
    case AddTimerCall(now, ms, repeating) => AddTimer(rt, now, ms, repeating)
    case CancelTask(id) => if Allowed(rt, c) then Cancel(rt, id) else rt
    case SetRunning(on) => rt.(running := on)
  }

  lemma ApplyCallSafe(rt: Rt, c: Call)
    requires Inv(rt)
    ensures Inv(ApplyCall(rt, c)) && ApplyCall(rt, c).current == rt.current
  {
    hide QueueExact, HoldersExact, TasksOk, IdsExact, Watch, Unwatch, AddTimer, Cancel, Schedule;
    InvLive(rt, {});
    match c {
      case ScheduleNew =>
        CreateSafe(rt);
        ScheduleNewSafe(rt);
      case WatchFd(fd, events, persistent, backend) =>
        WatchSafe(rt, fd, events, persistent, backend);
        WatchKeepsCurrent(rt, fd, events, persistent, backend);
      case UnwatchFd(fd) =>
        UnwatchSafe(rt, fd);
        UnwatchLoopKeepsCurrent(rt.(poller := Unregister(rt.poller, fd, {Read, Write})), fd, 0);
        UnwatchKeepsCurrent(rt, fd);
      case AddTimerCall(now, ms, repeating) =>
        AddTimerSafe(rt, now, ms, repeating);
        AddTimerKeepsCurrent(rt, now, ms, repeating);
      case CancelTask(id) =>
        if id in rt.tasks {
          SameButSafe(rt, rt, {id}, {});
          assert {} + {id} == {id};
          CancelSafe(rt, id);
        }
      case SetRunning(on) =>
        RunningSafe(rt, on);
    }
  }

  lemma RunningSafe(rt: Rt, on: bool)
    requires Inv(rt)
    ensures Inv(rt.(running := on))
  {
    assert TasksOk(rt.(running := on), {}) by { hide QueueExact, HoldersExact, IdsExact, FlagsOk; }
  }

  lemma ScheduleNewSafe(rt: Rt)
    requires Inv(rt)
    ensures Inv(Schedule(Create(rt), rt.nextId)) && Schedule(Create(rt), rt.nextId).current == rt.current
  {
    var id := rt.nextId;
    CreateSafe(rt);
    ScheduleSafe(Create(rt), id, {id});
    assert {id} + {id} == {id};
    assert id !in Kept(rt) by {
      assert WatchKeeps(rt.watchers) <= WatchTasks(rt.watchers) && TimerKeeps(rt.timers) <= TimerTasks(rt.timers);
    }
    Settled(Schedule(Create(rt), id), id);
  }

  lemma CancelKeepsCurrent(rt: Rt, id: TaskId)
    requires id in rt.tasks
    ensures Cancel(rt, id).current == rt.current
  {
    RemoveWatchersKeepsTasks(CancelFlags(rt, id), id, 0);
  }

  lemma WatchKeepsCurrent(rt: Rt, fd: int, events: set<Bit>, persistent: bool, backend: Backend)
    requires WatchersLive(rt)
    ensures Watch(rt, fd, events, persistent, backend).current == rt.current
  {
    hide Cancel;
    var r := Create(rt);
    var i := FindExact(r.watchers, fd, events);
    if i < |r.watchers| {
      var s := r.(watchers := r.watchers[i := Watcher(fd, events, persistent, rt.nextId)]);
      CancelKeepsCurrent(SetTask(s, rt.nextId, s.tasks[rt.nextId].(persistent := persistent)), r.watchers[i].task);
    }
  }

  lemma {:induction false} UnwatchLoopKeepsCurrent(rt: Rt, fd: int, i: nat)
    requires i <= |rt.watchers| && WatchersLive(rt)
    ensures UnwatchLoop(rt, fd, i).current == rt.current
    decreases |rt.watchers|, |rt.watchers| - i
  {
    if i < |rt.watchers| {
      if rt.watchers[i].fd == fd {
        var id := rt.watchers[i].task;
        UnwatchLoopKeepsCurrent(Schedule(CancelFlags(rt, id).(watchers := SwapRemove(rt.watchers, i)), id), fd, i);
      } else {
        UnwatchLoopKeepsCurrent(rt, fd, i + 1);
      }
    }
  }

  lemma UnwatchKeepsCurrent(rt: Rt, fd: int)
    requires WatchersLive(rt)
    ensures Unwatch(rt, fd).current == rt.current
  {
    UnwatchLoopKeepsCurrent(rt.(poller := Unregister(rt.poller, fd, {Read, Write})), fd, 0);
  }

  lemma AddTimerKeepsCurrent(rt: Rt, now: Clock, ms: nat, repeating: bool)
    ensures AddTimer(rt, now, ms, repeating).current == rt.current
  {
  }

  function ApplyCalls(rt: Rt, cs: seq<Call>): (r: Rt)
    requires Inv(rt)
    ensures Inv(r) && r.current == rt.current
    decreases |cs|
  {
    if cs == [] then rt
    else
      ApplyCallSafe(rt, cs[0]);
      ApplyCalls(ApplyCall(rt, cs[0]), cs[1..])
  }

  // ---------------------------------------------------------------------
  // The queue
  // ---------------------------------------------------------------------

  /** The head of the queue becomes the current task. */
  function Take(rt: Rt): Rt
    requires rt.queue != [] && rt.queue[0] in rt.tasks
  {
    var id := rt.queue[0];
    SetTask(rt, id, rt.tasks[id].(scheduled := false)).(queue := rt.queue[1..], current := rt.current + {id})
  }

  /** Frees the current task unless it is queued again or persistent. */
  function Finish(rt: Rt, id: TaskId): Rt
    requires id in rt.tasks
  {
    var t := rt.tasks[id];
    (if t.scheduled || t.persistent then rt else Destroy(rt, id)).(current := rt.current - {id})
  }

  lemma TakeSafe(rt: Rt)
    requires Inv(rt) && rt.queue != []
    ensures rt.queue[0] in rt.tasks && Inv(Take(rt))
  {
    var id := rt.queue[0];
    assert id in rt.queue;
    var r := Take(rt);
    assert QueueExact(r) by {
      hide HoldersExact, TasksOk, IdsExact;
      assert rt.queue == [id] + rt.queue[1..];
    }
    assert HoldersExact(r) by { hide QueueExact, TasksOk, IdsExact; }
    assert IdsExact(r) by { hide QueueExact, HoldersExact, TasksOk; }
    assert TasksOk(r, {}) by {
      hide QueueExact, HoldersExact, IdsExact;
      assert TaskOk(rt, id) && TaskOk(r, id);
      forall x | x in r.tasks && x != id ensures TaskOk(r, x) {
        hide FlagsOk;
        assert TaskOk(rt, x);
      }
    }
  }

  lemma CurrentChangeSafe(rt: Rt, id: TaskId)
    requires Inv(rt) && id in rt.tasks && (rt.tasks[id].scheduled || rt.tasks[id].persistent)
    ensures Inv(rt.(current := rt.current - {id}))
  {
    var r := rt.(current := rt.current - {id});
    assert TasksOk(r, {}) by {
      hide QueueExact, HoldersExact, IdsExact;
      assert WatchKeeps(rt.watchers) <= WatchTasks(rt.watchers) && TimerKeeps(rt.timers) <= TimerTasks(rt.timers);
      assert TaskOk(rt, id) && TaskOk(r, id);
      forall x | x in r.tasks && x != id ensures TaskOk(r, x) {
        hide FlagsOk;
        assert TaskOk(rt, x);
      }
    }
  }

  lemma FinishSafe(rt: Rt, id: TaskId)
    requires Inv(rt) && id in rt.tasks && id in rt.current
    ensures Inv(Finish(rt, id))
  {
    var t := rt.tasks[id];
    assert TaskOk(rt, id);
    if t.scheduled || t.persistent {
      CurrentChangeSafe(rt, id);
    } else {
      SameButSafe(rt, rt, {id}, {});
      assert {} + {id} == {id};
      DestroySafe(rt, id);
    }
  }

  /** Runs the current task's callback unless the task has been cancelled. */
  function Execute(rt: Rt, id: TaskId, script: seq<Call>): (r: Rt)
    requires Inv(rt) && id in rt.tasks
    ensures Inv(r) && r.current == rt.current
  {
    if rt.tasks[id].cancelled then rt
    else
      LogOnlySafe(rt, Ran(id));
      ApplyCalls(rt.(log := rt.log + [Ran(id)]), script)
  }

  /** Takes the head of the queue, runs it, and disposes of it. */
  function RunHead(rt: Rt, script: seq<Call>): (r: Rt)
    requires Inv(rt) && rt.queue != []
    ensures Inv(r)
  {
    TakeSafe(rt);
    var id := rt.queue[0];
    var ran := Execute(Take(rt), id, script);
    CurrentLive(ran, id);
    FinishSafe(ran, id);
    Finish(ran, id)
  }

  lemma CurrentLive(rt: Rt, id: TaskId)
    requires Inv(rt) && id in rt.current
    ensures id in rt.tasks
  {
  }

  lemma LogOnlySafe(rt: Rt, e: Event)
    requires Inv(rt)
    ensures Inv(rt.(log := rt.log + [e]))
  {
    SameButSafe(rt, rt.(log := rt.log + [e]), {}, {});
    var none: set<TaskId> := {};
    assert none + none == none;
  }

  /** Runs the queue until it is empty or the loop is stopped; scripts: what the callbacks do, in order. */
  function RunQueue(rt: Rt, scripts: seq<seq<Call>>): (r: Rt)
    requires Inv(rt)
    ensures Inv(r)
    decreases |scripts|, |rt.queue|
  {
    if !rt.running || rt.queue == [] then rt
    else
      TakeSafe(rt);
      if rt.tasks[rt.queue[0]].cancelled then
        RunHeadQueue(rt, []);
        RunQueue(RunHead(rt, []), scripts)
      else if scripts == [] then
        RunHeadQueue(rt, []);
        RunQueue(RunHead(rt, []), scripts)
      else RunQueue(RunHead(rt, scripts[0]), scripts[1..])
  }

  lemma RunHeadQueue(rt: Rt, script: seq<Call>)
    requires Inv(rt) && rt.queue != [] && script == []
    ensures RunHead(rt, script).queue == rt.queue[1..]
  {
    TakeSafe(rt);
  }

  function Tick(rt: Rt, ready: seq<(int, set<Bit>)>, now: Clock, scripts: seq<seq<Call>>): (r: Rt)
    requires Inv(rt)
    ensures Inv(r)
  {
    InvLive(rt, {});
    DispatchAllSafe(rt, ready);
    var dispatched := DispatchAll(rt, ready);
    InvLive(dispatched, {});
    UpdateTimersSafe(dispatched, now);
    RunQueue(UpdateTimers(dispatched, now), scripts)
  }

  /** What happens between creation and destruction: calls from outside, and ticks. */
  datatype Step = Outside(call: Call) | Ticks(ready: seq<(int, set<Bit>)>, now: Clock, scripts: seq<seq<Call>>)

  function RunSteps(rt: Rt, steps: seq<Step>): (r: Rt)
    requires Inv(rt)
    ensures Inv(r)
    decreases |steps|
  {
    if steps == [] then rt
    else
      var next := match steps[0]
        case Outside(c) => (ApplyCallSafe(rt, c); ApplyCall(rt, c))
        case Ticks(ready, now, scripts) => Tick(rt, ready, now, scripts);
      RunSteps(next, steps[1..])
  }

  lemma InitialSafe()
    ensures Inv(EventLoop.Initial())
  {
  }

  // ---------------------------------------------------------------------
  // What callbacks and the allocator see
  // ---------------------------------------------------------------------

  ghost predicate NeverRunCancelled(log: seq<Event>) {
    forall i, j :: 0 <= i < j < |log| && log[i].Cancelled? ==> log[j] != Ran(log[i].id)
  }

  /** Times a task was freed: once when it is gone. */
  ghost predicate FreedExact(rt: Rt) {
    forall id: TaskId :: multiset(rt.log)[Freed(id)] == if id < rt.nextId && id !in rt.tasks then 1 else 0
  }

  /** Times a task's cleanup ran: once when it is gone or finalized. */
  ghost predicate CleanedExact(rt: Rt) {
    forall id: TaskId :: multiset(rt.log)[Cleaned(id)]
      == if id >= rt.nextId || (id in rt.tasks && !rt.tasks[id].finalized) then 0 else 1
  }

  ghost predicate CancelledExact(rt: Rt) {
    NeverRunCancelled(rt.log)
    && forall id: TaskId :: Cancelled(id) in rt.log ==> id < rt.nextId && (id in rt.tasks ==> rt.tasks[id].cancelled)
  }

  ghost predicate LogExact(rt: Rt) {
    FreedExact(rt) && CleanedExact(rt) && CancelledExact(rt) && forall id :: id in rt.tasks ==> id < rt.nextId
  }

  /** Nothing the log invariant speaks of differs. */
  ghost predicate SameLog(a: Rt, b: Rt) {
    && a.log == b.log && a.nextId == b.nextId && a.tasks.Keys == b.tasks.Keys
    && forall id :: id in a.tasks ==>
         a.tasks[id].finalized == b.tasks[id].finalized && a.tasks[id].cancelled == b.tasks[id].cancelled
  }

  lemma SameLogSafe(a: Rt, b: Rt)
    requires LogExact(a) && SameLog(a, b)
    ensures LogExact(b)
  {
  }

  lemma LogSnoc(log: seq<Event>, e: Event)
    ensures multiset(log + [e]) == multiset(log) + multiset{e}
    ensures forall x :: x in log + [e] <==> x in log || x == e
    ensures NeverRunCancelled(log) && (e.Ran? ==> Cancelled(e.id) !in log) ==> NeverRunCancelled(log + [e])
  {
  }

  lemma LogCreate(rt: Rt)
    requires LogExact(rt)
    ensures LogExact(Create(rt))
  {
  }

  lemma LogFinalize(rt: Rt, id: TaskId)
    requires LogExact(rt) && id in rt.tasks
    ensures LogExact(Finalize(rt, id))
  {
    LogSnoc(rt.log, Cleaned(id));
    var r := Finalize(rt, id);
    assert FreedExact(r) by { hide CancelledExact, CleanedExact; }
    assert CleanedExact(r) by { hide CancelledExact, FreedExact; }
    assert CancelledExact(r) by { hide FreedExact, CleanedExact; }
  }

  lemma LogDestroy(rt: Rt, id: TaskId)
    requires LogExact(rt) && id in rt.tasks
    ensures LogExact(Destroy(rt, id))
  {
    LogFinalize(rt, id);
    var f, r := Finalize(rt, id), Destroy(rt, id);
    LogSnoc(f.log, Freed(id));
    assert FreedExact(r) by { hide CancelledExact, CleanedExact; }
    assert CleanedExact(r) by { hide CancelledExact, FreedExact; }
    assert CancelledExact(r) by { hide FreedExact, CleanedExact; }
  }

  lemma LogCancelFlags(rt: Rt, id: TaskId)
    requires LogExact(rt) && id in rt.tasks
    ensures LogExact(CancelFlags(rt, id))
  {
    LogSnoc(rt.log, Cancelled(id));
    var r := SetTask(rt, id, rt.tasks[id].(cancelled := true, persistent := false));
    var s := r.(log := r.log + [Cancelled(id)]);
    assert FreedExact(s) by { hide CancelledExact, CleanedExact; }
    assert CleanedExact(s) by { hide CancelledExact, FreedExact; }
    assert CancelledExact(s) by { hide FreedExact, CleanedExact; }
    LogFinalize(s, id);
  }

  lemma LogRan(rt: Rt, id: TaskId)
    requires LogExact(rt) && id in rt.tasks && !rt.tasks[id].cancelled
    ensures LogExact(rt.(log := rt.log + [Ran(id)]))
  {
    LogSnoc(rt.log, Ran(id));
    var r := rt.(log := rt.log + [Ran(id)]);
    assert FreedExact(r) by { hide CancelledExact, CleanedExact; }
    assert CleanedExact(r) by { hide CancelledExact, FreedExact; }
    assert CancelledExact(r) by { hide FreedExact, CleanedExact; }
  }

  lemma LogSchedule(rt: Rt, id: TaskId)
    requires LogExact(rt) && id in rt.tasks
    ensures LogExact(Schedule(rt, id))
  {
    SameLogSafe(rt, Schedule(rt, id));
  }

  lemma LogCancel(rt: Rt, id: TaskId)
    requires LogExact(rt) && id in rt.tasks
    ensures LogExact(Cancel(rt, id))
  {
    hide LogExact;
    var flagged := CancelFlags(rt, id);
    LogCancelFlags(rt, id);
    RemoveWatchersKeepsTasks(flagged, id, 0);
    var r := RemoveWatchers(flagged, id, 0);
    SameLogSafe(flagged, r.(timers := RemoveTask(r.timers, id, 0)));
    LogSchedule(r.(timers := RemoveTask(r.timers, id, 0)), id);
  }

  lemma LogWatch(rt: Rt, fd: int, events: set<Bit>, persistent: bool, backend: Backend)
    requires LogExact(rt) && WatchersLive(rt)
    ensures LogExact(Watch(rt, fd, events, persistent, backend))
  {
    hide LogExact, Cancel, Destroy;
    var id := rt.nextId;
    var r := Create(rt);
    LogCreate(rt);
    var i := FindExact(r.watchers, fd, events);
    if i < |r.watchers| {
      var s := r.(watchers := r.watchers[i := Watcher(fd, events, persistent, id)]);
      var t := SetTask(s, id, s.tasks[id].(persistent := persistent));
      SameLogSafe(r, t);
      LogCancel(t, r.watchers[i].task);
    } else {
      var (poller, ok) := ExtendRegistration(r.poller, r.watchers, fd, events, backend);
      if ok {
        SameLogSafe(r, Watch(rt, fd, events, persistent, backend));
      } else {
        SameLogSafe(r, r.(poller := poller));
        LogDestroy(r.(poller := poller), id);
      }
    }
  }

  lemma {:induction false} LogUnwatchLoop(rt: Rt, fd: int, i: nat)
    requires LogExact(rt) && i <= |rt.watchers| && WatchersLive(rt)
    ensures LogExact(UnwatchLoop(rt, fd, i))
    decreases |rt.watchers|, |rt.watchers| - i
  {
    hide LogExact;
    if i < |rt.watchers| {
      if rt.watchers[i].fd == fd {
        var id := rt.watchers[i].task;
        LogCancelFlags(rt, id);
        var r := CancelFlags(rt, id).(watchers := SwapRemove(rt.watchers, i));
        SameLogSafe(CancelFlags(rt, id), r);
        LogSchedule(r, id);
        LogUnwatchLoop(Schedule(r, id), fd, i);
      } else {
        LogUnwatchLoop(rt, fd, i + 1);
      }
    }
  }

  lemma {:induction false} LogUpdateTimers(rt: Rt, now: Clock)
    requires LogExact(rt) && TimersLive(rt)
    ensures LogExact(UpdateTimers(rt, now))
    decreases |Due(rt.timers, now)|
  {
    hide LogExact, Due;
    if rt.timers != [] && rt.timers[0].fire <= now {
      FireTopDue(rt.timers, now);
      FireStepLive(rt, now);
      LogSchedule(rt, rt.timers[0].task);
      SameLogSafe(Schedule(rt, rt.timers[0].task), FireStep(rt, now));
      LogUpdateTimers(FireStep(rt, now), now);
    }
  }

  lemma {:induction false} LogDispatch(rt: Rt, fd: int, events: set<Bit>, j: nat)
    requires LogExact(rt) && WatchersLive(rt) && j <= |rt.watchers|
    ensures LogExact(Dispatch(rt, fd, events, j))
    decreases |rt.watchers|, |rt.watchers| - j
  {
    hide LogExact;
    if j < |rt.watchers| {
      var w := rt.watchers[j];
      if w.fd == fd && w.events * events != {} {
        var r := Schedule(rt, w.task);
        LogSchedule(rt, w.task);
        SameLogSafe(r, DropWatcher(r, j));
        if w.persistent { LogDispatch(r, fd, events, j + 1); } else { LogDispatch(DropWatcher(r, j), fd, events, j); }
      } else {
        LogDispatch(rt, fd, events, j + 1);
      }
    }
  }

  lemma {:induction false} LogDispatchAll(rt: Rt, ready: seq<(int, set<Bit>)>)
    requires LogExact(rt) && WatchersLive(rt)
    ensures LogExact(DispatchAll(rt, ready))
    decreases |ready|
  {
    hide LogExact;
    if ready != [] {
      DispatchLive(rt, ready[0].0, ready[0].1, 0);
      LogDispatch(rt, ready[0].0, ready[0].1, 0);
      LogDispatchAll(Dispatch(rt, ready[0].0, ready[0].1, 0), ready[1..]);
    }
  }

  lemma LogCall(rt: Rt, c: Call)
    requires Inv(rt) && LogExact(rt)
    ensures LogExact(ApplyCall(rt, c))
  {
    hide LogExact, InvBut, Watch, Cancel;
    InvLive(rt, {});
    match c {
      case ScheduleNew =>
        LogCreate(rt);
        LogSchedule(Create(rt), rt.nextId);
      case WatchFd(fd, events, persistent, backend) =>
        LogWatch(rt, fd, events, persistent, backend);
      case UnwatchFd(fd) =>
        var r := rt.(poller := Unregister(rt.poller, fd, {Read, Write}));
        SameLogSafe(rt, r);
        LogUnwatchLoop(r, fd, 0);
      case AddTimerCall(now, ms, repeating) =>
        LogCreate(rt);
        SameLogSafe(Create(rt), AddTimer(rt, now, ms, repeating));
      case CancelTask(id) =>
        if id in rt.tasks { LogCancel(rt, id); }
      case SetRunning(on) =>
        SameLogSafe(rt, rt.(running := on));
    }
  }

  lemma {:induction false} LogCalls(rt: Rt, cs: seq<Call>)
    requires Inv(rt) && LogExact(rt)
    ensures LogExact(ApplyCalls(rt, cs))
    decreases |cs|
  {
    hide LogExact, Inv, ApplyCall;
    if cs != [] {
      LogCall(rt, cs[0]);
      ApplyCallSafe(rt, cs[0]);
      LogCalls(ApplyCall(rt, cs[0]), cs[1..]);
    }
  }

  lemma LogRunHead(rt: Rt, script: seq<Call>)
    requires Inv(rt) && rt.queue != [] && LogExact(rt)
    ensures LogExact(RunHead(rt, script))
  {
    hide LogExact, Inv;
    TakeSafe(rt);
    var id := rt.queue[0];
    var taken := Take(rt);
    SameLogSafe(rt, taken);
    if !taken.tasks[id].cancelled {
      LogOnlySafe(taken, Ran(id));
      LogRan(taken, id);
      LogCalls(taken.(log := taken.log + [Ran(id)]), script);
    }
    var ran := Execute(taken, id, script);
    CurrentLive(ran, id);
    if ran.tasks[id].scheduled || ran.tasks[id].persistent {
      SameLogSafe(ran, Finish(ran, id));
    } else {
      LogDestroy(ran, id);
      SameLogSafe(Destroy(ran, id), Finish(ran, id));
    }
  }

  lemma {:induction false} LogRunQueue(rt: Rt, scripts: seq<seq<Call>>)
    requires Inv(rt) && LogExact(rt)
    ensures LogExact(RunQueue(rt, scripts))
    decreases |scripts|, |rt.queue|
  {
    hide LogExact, Inv, RunHead;
    if rt.running && rt.queue != [] {
      TakeSafe(rt);
      if rt.tasks[rt.queue[0]].cancelled || scripts == [] {
        RunHeadQueue(rt, []);
        LogRunHead(rt, []);
        LogRunQueue(RunHead(rt, []), scripts);
      } else {
        LogRunHead(rt, scripts[0]);
        LogRunQueue(RunHead(rt, scripts[0]), scripts[1..]);
      }
    }
  }

  lemma LogTick(rt: Rt, ready: seq<(int, set<Bit>)>, now: Clock, scripts: seq<seq<Call>>)
    requires Inv(rt) && LogExact(rt)
    ensures LogExact(Tick(rt, ready, now, scripts))
  {
    hide LogExact, InvBut;
    InvLive(rt, {});
    DispatchAllSafe(rt, ready);
    LogDispatchAll(rt, ready);
    var dispatched := DispatchAll(rt, ready);
    InvLive(dispatched, {});
    UpdateTimersSafe(dispatched, now);
    LogUpdateTimers(dispatched, now);
    LogRunQueue(UpdateTimers(dispatched, now), scripts);
  }

  lemma {:induction false} LogSteps(rt: Rt, steps: seq<Step>)
    requires Inv(rt) && LogExact(rt)
    ensures LogExact(RunSteps(rt, steps))
    decreases |steps|
  {
    hide LogExact, Inv, Tick, ApplyCall;
    if steps != [] {
      match steps[0] {
        case Outside(c) =>
          LogCall(rt, c);
          ApplyCallSafe(rt, c);
          LogSteps(ApplyCall(rt, c), steps[1..]);
        case Ticks(ready, now, scripts) =>
          LogTick(rt, ready, now, scripts);
          LogSteps(Tick(rt, ready, now, scripts), steps[1..]);
      }
    }
  }

  // ---------------------------------------------------------------------
  // Shutdown
  // ---------------------------------------------------------------------

  /** Empties the queue, freeing what no watcher or timer will free. */
  function DrainQueue(rt: Rt): (r: Rt)
    requires Inv(rt) && rt.current == {}
    ensures Inv(r) && r.current == {} && r.queue == []
    decreases |rt.queue|
  {
    if rt.queue == [] then rt
    else
      TakeSafe(rt);
      var id := rt.queue[0];
      var taken := Take(rt);
      DrainOneSafe(rt);
      DrainQueue((if taken.tasks[id].persistent then taken else Destroy(taken, id)).(current := {}))
  }

  lemma DrainOneSafe(rt: Rt)
    requires Inv(rt) && rt.queue != [] && rt.current == {} && rt.queue[0] in rt.tasks
    ensures var id := rt.queue[0];
      var taken := Take(rt);
      var r := (if taken.tasks[id].persistent then taken else Destroy(taken, id)).(current := {});
      Inv(r) && |r.queue| == |rt.queue| - 1
  {
    hide InvBut;
    TakeSafe(rt);
    var id := rt.queue[0];
    var taken := Take(rt);
    assert taken.current - {id} == {};
    FinishSafe(taken, id);
  }

  function DestroyEach(rt: Rt, ids: seq<TaskId>): Rt
    requires NoDuplicates(ids) && forall i :: 0 <= i < |ids| ==> ids[i] in rt.tasks
    decreases |ids|
  {
    if ids == [] then rt else DestroyEach(Destroy(rt, ids[0]), ids[1..])
  }

  function WatcherIds(ws: seq<Watcher>): seq<TaskId> { seq(|ws|, i requires 0 <= i < |ws| => ws[i].task) }
  function TimerIds(ts: seq<Timer<TaskId>>): seq<TaskId> { seq(|ts|, i requires 0 <= i < |ts| => ts[i].task) }

  lemma HoldersListed(rt: Rt)
    requires Inv(rt)
    ensures var ids := WatcherIds(rt.watchers) + TimerIds(rt.timers);
      NoDuplicates(ids) && (forall i :: 0 <= i < |ids| ==> ids[i] in rt.tasks)
      && forall id :: id in Held(rt) ==> id in ids
  {
    hide QueueExact, TasksOk, IdsExact;
    var ws, ts := WatcherIds(rt.watchers), TimerIds(rt.timers);
    var ids, n := ws + ts, |rt.watchers|;
    forall i | 0 <= i < |ids|
      ensures ids[i] in rt.tasks
      ensures if i < n then ids[i] == rt.watchers[i].task && ids[i] in WatchTasks(rt.watchers)
              else ids[i] == rt.timers[i - n].task && ids[i] in TimerTasks(rt.timers)
    {
      if i < n { assert ids[i] in Held(rt); } else { assert rt.timers[i - n] in rt.timers; assert ids[i] in Held(rt); }
    }
    forall id | id in Held(rt) ensures id in ids {
      if id in WatchTasks(rt.watchers) {
        var i :| 0 <= i < n && rt.watchers[i].task == id;
        assert ids[i] == id;
      } else {
        var t :| t in rt.timers && t.task == id;
        var i :| 0 <= i < |rt.timers| && rt.timers[i] == t;
        assert ids[n + i] == id;
      }
    }
  }

  /** Frees the queued tasks, then every watcher's, then every timer's. */
  function Shutdown(rt: Rt): Rt
    requires Inv(rt) && rt.current == {}
  {
    var drained := DrainQueue(rt);
    HoldersListed(drained);
    DestroyEach(drained, WatcherIds(drained.watchers) + TimerIds(drained.timers))
  }

  lemma {:induction false} LogDrain(rt: Rt)
    requires Inv(rt) && rt.current == {} && LogExact(rt)
    ensures LogExact(DrainQueue(rt)) && DrainQueue(rt).nextId == rt.nextId
    decreases |rt.queue|
  {
    hide LogExact, Inv;
    if rt.queue != [] {
      TakeSafe(rt);
      DrainOneSafe(rt);
      var id := rt.queue[0];
      var taken := Take(rt);
      SameLogSafe(rt, taken);
      var next := if taken.tasks[id].persistent then taken else Destroy(taken, id);
      if !taken.tasks[id].persistent { LogDestroy(taken, id); }
      SameLogSafe(next, next.(current := {}));
      LogDrain(next.(current := {}));
    }
  }

  lemma {:induction false} LogDestroyEach(rt: Rt, ids: seq<TaskId>)
    requires LogExact(rt) && NoDuplicates(ids) && forall i :: 0 <= i < |ids| ==> ids[i] in rt.tasks
    ensures var r := DestroyEach(rt, ids);
      LogExact(r) && r.nextId == rt.nextId && r.tasks.Keys == rt.tasks.Keys - (set id | id in ids)
    decreases |ids|
  {
    hide LogExact;
    if ids != [] {
      LogDestroy(rt, ids[0]);
      LogDestroyEach(Destroy(rt, ids[0]), ids[1..]);
      assert forall id :: id in ids <==> id == ids[0] || id in ids[1..];
    }
  }

  /** Every task ever created has been freed once and cleaned up once, and none ran after being cancelled. */
  ghost predicate AllAccountedFor(rt: Rt) {
    rt.tasks == map[] && NeverRunCancelled(rt.log)
    && forall id: TaskId :: id < rt.nextId ==> multiset(rt.log)[Freed(id)] == 1 && multiset(rt.log)[Cleaned(id)] == 1
  }

  lemma ShutdownFreesAll(rt: Rt)
    requires Inv(rt) && rt.current == {} && LogExact(rt)
    ensures AllAccountedFor(Shutdown(rt)) && Shutdown(rt).nextId == rt.nextId
  {
    hide LogExact, Inv;
    LogDrain(rt);
    var drained := DrainQueue(rt);
    HoldersListed(drained);
    var ids := WatcherIds(drained.watchers) + TimerIds(drained.timers);
    AllHeldWhenIdle(drained);
    LogDestroyEach(drained, ids);
    assert Shutdown(rt).tasks.Keys == {};
    EmptyAccounted(Shutdown(rt));
  }

  lemma AllHeldWhenIdle(rt: Rt)
    requires Inv(rt) && rt.queue == [] && rt.current == {}
    ensures rt.tasks.Keys <= Held(rt)
  {
    forall id | id in rt.tasks ensures id in Held(rt) {
      assert TaskOk(rt, id);
      assert id !in rt.queue;
    }
  }

  lemma EmptyAccounted(rt: Rt)
    requires LogExact(rt) && rt.tasks.Keys == {}
    ensures AllAccountedFor(rt)
  {
    assert rt.tasks == map[];
  }

  lemma {:induction false} StepsKeepIdle(rt: Rt, steps: seq<Step>)
    requires Inv(rt) && rt.current == {}
    ensures RunSteps(rt, steps).current == {}
    decreases |steps|
  {
    hide Inv, ApplyCall;
    if steps != [] {
      match steps[0] {
        case Outside(c) =>
          ApplyCallSafe(rt, c);
          StepsKeepIdle(ApplyCall(rt, c), steps[1..]);
        case Ticks(ready, now, scripts) =>
          TickKeepsIdle(rt, ready, now, scripts);
          StepsKeepIdle(Tick(rt, ready, now, scripts), steps[1..]);
      }
    }
  }

  lemma {:induction false} RunQueueKeepsIdle(rt: Rt, scripts: seq<seq<Call>>)
    requires Inv(rt) && rt.current == {}
    ensures RunQueue(rt, scripts).current == {}
    decreases |scripts|, |rt.queue|
  {
    hide Inv, ApplyCalls;
    if rt.running && rt.queue != [] {
      TakeSafe(rt);
      if rt.tasks[rt.queue[0]].cancelled || scripts == [] {
        RunHeadQueue(rt, []);
        RunHeadKeepsIdle(rt, []);
        RunQueueKeepsIdle(RunHead(rt, []), scripts);
      } else {
        RunHeadKeepsIdle(rt, scripts[0]);
        RunQueueKeepsIdle(RunHead(rt, scripts[0]), scripts[1..]);
      }
    }
  }

  lemma RunHeadKeepsIdle(rt: Rt, script: seq<Call>)
    requires Inv(rt) && rt.queue != [] && rt.current == {}
    ensures RunHead(rt, script).current == {}
  {
    hide Inv, ApplyCalls;
    TakeSafe(rt);
    var id := rt.queue[0];
    var ran := Execute(Take(rt), id, script);
    assert ran.current == {id};
    CurrentLive(ran, id);
    assert Finish(ran, id).current == {id} - {id};
  }

  lemma TickKeepsIdle(rt: Rt, ready: seq<(int, set<Bit>)>, now: Clock, scripts: seq<seq<Call>>)
    requires Inv(rt) && rt.current == {}
    ensures Tick(rt, ready, now, scripts).current == {}
  {
    hide InvBut;
    InvLive(rt, {});
    DispatchAllSafe(rt, ready);
    DispatchAllKeepsCurrent(rt, ready);
    var dispatched := DispatchAll(rt, ready);
    InvLive(dispatched, {});
    UpdateTimersSafe(dispatched, now);
    UpdateTimersKeepsCurrent(dispatched, now);
    RunQueueKeepsIdle(UpdateTimers(dispatched, now), scripts);
  }

  lemma {:induction false} DispatchKeepsCurrent(rt: Rt, fd: int, events: set<Bit>, j: nat)
    requires WatchersLive(rt) && j <= |rt.watchers|
    ensures Dispatch(rt, fd, events, j).current == rt.current
    decreases |rt.watchers|, |rt.watchers| - j
  {
    if j < |rt.watchers| {
      var w := rt.watchers[j];
      if w.fd == fd && w.events * events != {} {
        var r := Schedule(rt, w.task);
        if w.persistent { DispatchKeepsCurrent(r, fd, events, j + 1); } else { DispatchKeepsCurrent(DropWatcher(r, j), fd, events, j); }
      } else {
        DispatchKeepsCurrent(rt, fd, events, j + 1);
      }
    }
  }

  lemma {:induction false} DispatchAllKeepsCurrent(rt: Rt, ready: seq<(int, set<Bit>)>)
    requires WatchersLive(rt)
    ensures DispatchAll(rt, ready).current == rt.current
    decreases |ready|
  {
    if ready != [] {
      DispatchLive(rt, ready[0].0, ready[0].1, 0);
      DispatchKeepsCurrent(rt, ready[0].0, ready[0].1, 0);
      DispatchAllKeepsCurrent(Dispatch(rt, ready[0].0, ready[0].1, 0), ready[1..]);
    }
  }

  lemma {:induction false} UpdateTimersKeepsCurrent(rt: Rt, now: Clock)
    requires TimersLive(rt)
    ensures UpdateTimers(rt, now).current == rt.current
    decreases |Due(rt.timers, now)|
  {
    if rt.timers != [] && rt.timers[0].fire <= now {
      FireTopDue(rt.timers, now);
      FireStepLive(rt, now);
      UpdateTimersKeepsCurrent(FireStep(rt, now), now);
    }
  }

  /**
   * Over every run from creation to destruction, with any callbacks, readiness,
   * clock and poller answers: the ownership invariant holds throughout, and at
   * the end every task has been freed exactly once and cleaned up exactly once.
   */
  lemma WholeRunOwnership(steps: seq<Step>)
    ensures Inv(EventLoop.Initial()) && Inv(RunSteps(EventLoop.Initial(), steps))
    ensures RunSteps(EventLoop.Initial(), steps).current == {}
    ensures AllAccountedFor(Shutdown(RunSteps(EventLoop.Initial(), steps)))
  {
    InitialSafe();
    var rt := RunSteps(EventLoop.Initial(), steps);
    StepsKeepIdle(EventLoop.Initial(), steps);
    assert LogExact(EventLoop.Initial());
    LogSteps(EventLoop.Initial(), steps);
    ShutdownFreesAll(rt);
  }
}
