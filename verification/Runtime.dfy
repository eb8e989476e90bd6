// The runtime object (modules/runtime/src/runtime.c): tables updated in place,
// every method proved against the operations of EventLoop.dfy.
module Runtime {
  import opened Arithmetic
  import opened TimerHeap
  import opened EventLoop
  import opened EventLoopSafety
  import opened EventLoopRuns

  class Runtime {
    const timers: Heap<TaskId>
    var tasks: map<TaskId, Task>
    var nextId: TaskId
    var queue: seq<TaskId>
    var watchers: seq<Watcher>
    var poller: map<int, set<Bit>>
    var running: bool
    ghost var current: set<TaskId>
    ghost var log: seq<Event>

    ghost function View(): Rt
      requires timers.Valid()
      reads this, timers, timers.items
    {
      Rt(tasks, nextId, queue, watchers, timers.Live(), poller, running, current, log)
    }

    /** The heap is well formed, in its old array or in a new one. */
    twostate predicate HeapKept()
      reads this, timers
    {
      timers.Valid() && (timers.items == old(timers.items) || fresh(timers.items))
    }

    constructor ()
      ensures timers.Valid() && fresh(timers) && fresh(timers.items)
      ensures View() == EventLoop.Initial() && Inv(View())
    {
      timers := new Heap();
      tasks, nextId, queue, watchers, poller, running := map[], 0, [], [], map[], false;
      current, log := {}, [];
      new;
      InitialSafe();
    }

    // -------------------------------------------------------------------
    // Tasks and scheduler
    // -------------------------------------------------------------------

    method CreateTask() returns (id: TaskId)
      requires timers.Valid()
      modifies this`tasks, this`nextId
      ensures id == old(nextId) && View() == Create(old(View()))
    {
      id := nextId;
      tasks := tasks[id := Task(false, false, false, false)];
      nextId := nextId + 1;
    }

    method ScheduleTask(id: TaskId)
      requires timers.Valid()
      requires id in tasks
      modifies this`tasks, this`queue
      ensures View() == Schedule(old(View()), id)
    {
      if tasks[id].scheduled { return; }
      tasks := tasks[id := tasks[id].(scheduled := true)];
      queue := queue + [id];
    }

    method FinalizeTask(id: TaskId)
      requires timers.Valid()
      requires id in tasks
      modifies this`tasks, this`log
      ensures View() == Finalize(old(View()), id)
    {
      if tasks[id].finalized { return; }
      tasks := tasks[id := tasks[id].(finalized := true)];
      log := log + [Cleaned(id)];
    }

    method DestroyTask(id: TaskId)
      requires timers.Valid()
      requires id in tasks
      modifies this`tasks, this`log
      ensures View() == Destroy(old(View()), id)
    {
      FinalizeTask(id);
      tasks := tasks - {id};
      log := log + [Freed(id)];
    }

    method CancelTaskFlags(id: TaskId)
      requires timers.Valid()
      requires id in tasks
      modifies this`tasks, this`log
      ensures View() == CancelFlags(old(View()), id)
    {
      tasks := tasks[id := tasks[id].(cancelled := true, persistent := false)];
      log := log + [Cancelled(id)];
      FinalizeTask(id);
    }

    // -------------------------------------------------------------------
    // Watchers
    // -------------------------------------------------------------------

    method PollerUnregister(fd: int, events: set<Bit>)
      modifies this`poller
      ensures poller == Unregister(old(poller), fd, events)
    {
      if fd !in poller { return; }
      poller := poller[fd := poller[fd] - events];
      if poller[fd] == {} { poller := poller - {fd}; }
    }

    method PollerRegister(fd: int, events: set<Bit>)
      modifies this`poller
      ensures poller == Register(old(poller), fd, events)
    {
      poller := poller[fd := (if fd in poller then poller[fd] else {}) + events];
    }

    method RemoveWatcherAt(i: nat)
      requires i < |watchers|
      modifies this`watchers
      ensures watchers == SwapRemove(old(watchers), i)
    {
      watchers := watchers[i := watchers[|watchers| - 1]];
      watchers := watchers[..|watchers| - 1];
    }

    method RemoveWatchersOf(id: TaskId)
      requires timers.Valid()
      modifies this`watchers, this`poller
      ensures View() == RemoveWatchers(old(View()), id, 0)
    {
      var i := 0;
      while i < |watchers|
        invariant i <= |watchers|
        invariant RemoveWatchers(View(), id, i) == RemoveWatchers(old(View()), id, 0)
        decreases |watchers|, |watchers| - i
      {
        if watchers[i].task == id {
          PollerUnregister(watchers[i].fd, watchers[i].events);
          RemoveWatcherAt(i);
        } else {
          i := i + 1;
        }
      }
    }

    method CancelTask(id: TaskId)
      requires timers.Valid()
      requires id in tasks
      modifies this, timers, timers.items
      ensures HeapKept()
      ensures View() == Cancel(old(View()), id)
    {
      CancelTaskFlags(id);
      RemoveWatchersKeepsTasks(View(), id, 0);
      RemoveWatchersOf(id);
      var removed := timers.RemoveTimersOf(id);
      ScheduleTask(id);
    }

    method FindWatcher(fd: int, events: set<Bit>) returns (i: nat)
      ensures i == FindExact(watchers, fd, events)
    {
      i := 0;
      while i < |watchers|
        invariant i <= |watchers|
        invariant forall j :: 0 <= j < i ==> watchers[j].fd != fd || watchers[j].events != events
      {
        if watchers[i].fd == fd && watchers[i].events == events { return; }
        i := i + 1;
      }
    }

    method RegisteredMask(fd: int) returns (mask: set<Bit>)
      ensures mask == MaskOf(watchers, fd)
    {
      mask := {};
      var i := 0;
      while i < |watchers|
        invariant i <= |watchers| && mask + MaskOf(watchers[i..], fd) == MaskOf(watchers, fd)
      {
        assert watchers[i..][1..] == watchers[i + 1..];
        if watchers[i].fd == fd { mask := mask + watchers[i].events; }
        i := i + 1;
      }
    }

    /** Makes the poller listen for `events` on fd beside what it already listens for. */
    method ExtendPoller(fd: int, events: set<Bit>, backend: Backend) returns (ok: bool)
      modifies this`poller
      ensures (poller, ok) == ExtendRegistration(old(poller), watchers, fd, events, backend)
    {
      var existing := RegisteredMask(fd);
      var wanted := existing + events;
      if wanted == existing { return true; }
      if existing != {} { PollerUnregister(fd, existing); }
      if backend.registers {
        PollerRegister(fd, wanted);
        return true;
      }
      if existing != {} && backend.restores { PollerRegister(fd, existing); }
      return false;
    }

    /** Sets the PERSISTENT flag of a new task when asked to. */
    method SetPersistent(id: TaskId, on: bool)
      requires id in tasks && !tasks[id].persistent
      modifies this`tasks
      ensures tasks == old(tasks)[id := old(tasks)[id].(persistent := on)]
    {
      if on { tasks := tasks[id := tasks[id].(persistent := true)]; }
    }

    method WatchFdEx(fd: int, events: set<Bit>, persistent: bool, backend: Backend)
      requires timers.Valid()
      requires WatchersLive(View())
      modifies this, timers, timers.items
      ensures HeapKept()
      ensures View() == Watch(old(View()), fd, events, persistent, backend)
    {
      hide Cancel, Destroy, ExtendRegistration;
      var id := CreateTask();
      var i := FindWatcher(fd, events);
      if i < |watchers| {
        var previous := watchers[i].task;
        watchers := watchers[i := Watcher(fd, events, persistent, id)];
        SetPersistent(id, persistent);
        CancelTask(previous);
        return;
      }
      var ok := ExtendPoller(fd, events, backend);
      if !ok {
        DestroyTask(id);
        return;
      }
      SetPersistent(id, persistent);
      watchers := watchers + [Watcher(fd, events, persistent, id)];
    }

    method UnwatchFdAll(fd: int)
      requires timers.Valid()
      requires WatchersLive(View())
      modifies this
      ensures View() == Unwatch(old(View()), fd)
    {
      hide CancelFlags, Schedule;
      PollerUnregister(fd, {Read, Write});
      ghost var cleared := View();
      var i := 0;
      while i < |watchers|
        invariant i <= |watchers| && WatchersLive(View())
        invariant UnwatchLoop(View(), fd, i) == UnwatchLoop(cleared, fd, 0)
        decreases |watchers|, |watchers| - i
      {
        if watchers[i].fd == fd {
          UnwatchAt(i);
        } else {
          i := i + 1;
        }
      }
    }

    method UnwatchAt(i: nat)
      requires timers.Valid()
      requires i < |watchers| && WatchersLive(View())
      modifies this
      ensures var id := old(watchers)[i].task;
        View() == Schedule(CancelFlags(old(View()), id).(watchers := SwapRemove(old(watchers), i)), id)
      ensures WatchersLive(View()) && |watchers| == old(|watchers|) - 1
    {
      var id := watchers[i].task;
      CancelTaskFlags(id);
      RemoveWatcherAt(i);
      ScheduleTask(id);
    }

    // -------------------------------------------------------------------
    // Timers
    // -------------------------------------------------------------------

    method AddTimerEx(now: Clock, ms: nat, repeating: bool)
      requires timers.Valid()
      modifies this, timers, timers.items
      ensures HeapKept()
      ensures View() == AddTimer(old(View()), now, ms, repeating)
    {
      hide Push;
      var id := CreateTask();
      SetPersistent(id, repeating);
      timers.Add(Timer((now + ms) % MODULUS_64, ms, repeating, id));
    }

    method UpdateTimersAt(now: Clock)
      requires timers.Valid()
      requires TimersLive(View())
      modifies this`tasks, this`queue, timers, timers.items
      ensures HeapKept()
      ensures View() == UpdateTimers(old(View()), now)
    {
      hide FireTop, Due, Schedule, TimersLive;
      while timers.count > 0 && now >= timers.items[0].fire
        invariant HeapKept()
        invariant TimersLive(View())
        invariant UpdateTimers(View(), now) == UpdateTimers(old(View()), now)
        decreases |Due(timers.Live(), now)|
      {
        FireTopDue(timers.Live(), now);
        FireStepLive(View(), now);
        FireRoot(now);
      }
    }

    method FireRoot(now: Clock)
      requires timers.Valid()
      requires timers.count > 0 && TimersLive(View())
      modifies this`tasks, this`queue, timers, timers.items
      ensures HeapKept()
      ensures View() == FireStep(old(View()), now)
    {
      var top := timers.items[0];
      assert top == timers.Live()[0] && top in timers.Live();
      ScheduleTask(top.task);
      var fired := timers.FireRoot(now);
    }

    // -------------------------------------------------------------------
    // Readiness
    // -------------------------------------------------------------------

    method DispatchReady(ready: seq<(int, set<Bit>)>)
      requires timers.Valid()
      requires WatchersLive(View())
      modifies this`tasks, this`queue, this`watchers, this`poller
      ensures View() == DispatchAll(old(View()), ready)
    {
      hide WatchersLive, Dispatch;
      var i := 0;
      assert ready[0..] == ready;
      while i < |ready|
        invariant i <= |ready| && WatchersLive(View())
        invariant DispatchAll(View(), ready[i..]) == DispatchAll(old(View()), ready)
      {
        assert ready[i..][1..] == ready[i + 1..];
        DispatchLive(View(), ready[i].0, ready[i].1, 0);
        DispatchOne(ready[i].0, ready[i].1);
        i := i + 1;
      }
    }

    method DispatchOne(fd: int, events: set<Bit>)
      requires timers.Valid()
      requires WatchersLive(View())
      modifies this`tasks, this`queue, this`watchers, this`poller
      ensures View() == Dispatch(old(View()), fd, events, 0)
    {
      hide Schedule;
      var j := 0;
      while j < |watchers|
        invariant j <= |watchers| && WatchersLive(View())
        invariant Dispatch(View(), fd, events, j) == Dispatch(old(View()), fd, events, 0)
        decreases |watchers|, |watchers| - j
      {
        var w := watchers[j];
        if w.fd == fd && w.events * events != {} {
          ScheduleKeepsHolders(View(), w.task);
          ScheduleTask(w.task);
          if !w.persistent {
            PollerUnregister(w.fd, w.events);
            RemoveWatcherAt(j);
          } else {
            j := j + 1;
          }
        } else {
          j := j + 1;
        }
      }
    }

    // -------------------------------------------------------------------
    // Running
    // -------------------------------------------------------------------

    method Invoke(c: Call)
      requires timers.Valid()
      requires Inv(View())
      modifies this, timers, timers.items
      ensures HeapKept()
      ensures View() == ApplyCall(old(View()), c)
    {
      hide QueueExact, HoldersExact, TasksOk, IdsExact, Watch, Unwatch, AddTimer, Cancel;
      InvLive(View(), {});
      match c {
        case ScheduleNew =>
          var id := CreateTask();
          ScheduleTask(id);
        case WatchFd(fd, events, persistent, backend) => WatchFdEx(fd, events, persistent, backend);
        case UnwatchFd(fd) => UnwatchFdAll(fd);
        case AddTimerCall(now, ms, repeating) => AddTimerEx(now, ms, repeating);
        case CancelTask(id) => if id in tasks { CancelTask(id); }
        case SetRunning(on) => running := on;
      }
    }

    /** A callback: it makes these calls, one after the other. */
    method InvokeAll(cs: seq<Call>)
      requires timers.Valid()
      requires Inv(View())
      modifies this, timers, timers.items
      ensures HeapKept()
      ensures View() == ApplyCalls(old(View()), cs)
    {
      hide Inv, ApplyCall;
      var i := 0;
      assert cs[0..] == cs;
      while i < |cs|
        invariant HeapKept()
        invariant i <= |cs| && Inv(View())
        invariant ApplyCalls(View(), cs[i..]) == ApplyCalls(old(View()), cs)
      {
        assert cs[i..][1..] == cs[i + 1..];
        ApplyCallSafe(View(), cs[i]);
        Invoke(cs[i]);
        i := i + 1;
      }
    }

    method RunNext(script: seq<Call>)
      requires timers.Valid()
      requires Inv(View()) && queue != []
      modifies this, timers, timers.items
      ensures HeapKept()
      ensures View() == RunHead(old(View()), script)
    {
      hide Inv, ApplyCalls;
      TakeSafe(View());
      var id := queue[0];
      queue := queue[1..];
      current := current + {id};
      tasks := tasks[id := tasks[id].(scheduled := false)];
      ghost var taken := View();
      if !tasks[id].cancelled {
        LogOnlySafe(View(), Ran(id));
        log := log + [Ran(id)];
        InvokeAll(script);
      }
      assert View() == Execute(taken, id, script);
      CurrentLive(View(), id);
      if !(tasks[id].scheduled || tasks[id].persistent) { DestroyTask(id); }
      current := current - {id};
    }

    method RunTasks(scripts: seq<seq<Call>>)
      requires timers.Valid()
      requires Inv(View())
      modifies this, timers, timers.items
      ensures HeapKept()
      ensures View() == RunQueue(old(View()), scripts)
    {
      hide Inv, RunHead;
      var k := 0;
      assert scripts[0..] == scripts;
      while running && queue != []
        invariant HeapKept()
        invariant k <= |scripts| && Inv(View())
        invariant RunQueue(View(), scripts[k..]) == RunQueue(old(View()), scripts)
        decreases |scripts| - k, |queue|
      {
        TakeSafe(View());
        if tasks[queue[0]].cancelled || k == |scripts| {
          RunHeadQueue(View(), []);
          RunNext([]);
        } else {
          assert scripts[k..][1..] == scripts[k + 1..];
          RunNext(scripts[k]);
          k := k + 1;
        }
      }
    }

    method TickOnce(ready: seq<(int, set<Bit>)>, now: Clock, scripts: seq<seq<Call>>)
      requires timers.Valid()
      requires Inv(View())
      modifies this, timers, timers.items
      ensures HeapKept()
      ensures View() == Tick(old(View()), ready, now, scripts) && Inv(View())
    {
      hide InvBut;
      InvLive(View(), {});
      DispatchAllSafe(View(), ready);
      DispatchReady(ready);
      InvLive(View(), {});
      UpdateTimersSafe(View(), now);
      UpdateTimersAt(now);
      RunTasks(scripts);
    }

    // -------------------------------------------------------------------
    // Shutdown
    // -------------------------------------------------------------------

    method DrainTasks()
      requires timers.Valid()
      requires Inv(View()) && current == {}
      modifies this
      ensures View() == DrainQueue(old(View())) && Inv(View())
    {
      hide Inv;
      while queue != []
        invariant Inv(View()) && current == {}
        invariant DrainQueue(View()) == DrainQueue(old(View()))
        decreases |queue|
      {
        TakeSafe(View());
        DrainOneSafe(View());
        var id := queue[0];
        queue := queue[1..];
        tasks := tasks[id := tasks[id].(scheduled := false)];
        if !tasks[id].persistent { DestroyTask(id); }
      }
    }

    method DestroyTasks(ids: seq<TaskId>)
      requires timers.Valid()
      requires NoDuplicates(ids) && forall i :: 0 <= i < |ids| ==> ids[i] in tasks
      modifies this`tasks, this`log
      ensures View() == DestroyEach(old(View()), ids)
    {
      hide Destroy;
      var i := 0;
      assert ids[0..] == ids;
      while i < |ids|
        invariant i <= |ids| && forall j :: i <= j < |ids| ==> ids[j] in tasks
        invariant DestroyEach(View(), ids[i..]) == DestroyEach(old(View()), ids)
      {
        assert ids[i..][1..] == ids[i + 1..];
        DestroyKeys(View(), ids[i]);
        DestroyTask(ids[i]);
        i := i + 1;
      }
    }

    /** Frees everything: afterwards every task has been freed and cleaned up exactly once. */
    method ShutDown()
      requires timers.Valid()
      requires Inv(View()) && current == {} && LogExact(View())
      modifies this
      ensures AllAccountedFor(View()) && nextId == old(nextId)
    {
      hide Inv, LogExact;
      ShutdownFreesAll(View());
      DrainTasks();
      HoldersListed(View());
      DestroyTasks(WatcherIds(watchers) + TimerIds(timers.Live()));
    }
  }

  lemma DestroyKeys(rt: Rt, id: TaskId)
    requires id in rt.tasks
    ensures EventLoop.Destroy(rt, id).tasks.Keys == rt.tasks.Keys - {id}
  {
  }
}
