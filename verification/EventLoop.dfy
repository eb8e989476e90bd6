// The event loop's state and operations (modules/runtime/src: runtime.c,
// scheduler.c, task.c). A task's address is a key of `tasks`, the map of
// allocated tasks: freeing removes the key, and every use of a task requires
// its key to be there, so use after free cannot be written down.
module EventLoop {
  import opened Arithmetic
  import opened TimerHeap

  type TaskId = nat

  datatype Bit = Read | Write

  datatype Task = Task(scheduled: bool, cancelled: bool, persistent: bool, finalized: bool)

  datatype Watcher = Watcher(fd: int, events: set<Bit>, persistent: bool, task: TaskId)

  /** What the user's callbacks and the allocator get to see. */
  datatype Event = Cancelled(id: TaskId) | Cleaned(id: TaskId) | Ran(id: TaskId) | Freed(id: TaskId)

  /** current: the task taken from the queue and not yet disposed of. */
  datatype Rt = Rt(
    tasks: map<TaskId, Task>, nextId: TaskId,
    queue: seq<TaskId>, watchers: seq<Watcher>, timers: seq<Timer<TaskId>>,
    poller: map<int, set<Bit>>, running: bool, current: set<TaskId>, log: seq<Event>)

  function Initial(): Rt { Rt(map[], 0, [], [], [], map[], false, {}, []) }

  // ---------------------------------------------------------------------
  // Tasks and scheduler
  // ---------------------------------------------------------------------

  function Create(rt: Rt): Rt {
    rt.(tasks := rt.tasks[rt.nextId := Task(false, false, false, false)], nextId := rt.nextId + 1)
  }

  function SetTask(rt: Rt, id: TaskId, t: Task): Rt {
    rt.(tasks := rt.tasks[id := t])
  }

  /** Appends the task to the queue unless its SCHEDULED flag says it is there. */
  function Schedule(rt: Rt, id: TaskId): Rt
    requires id in rt.tasks
  {
    if rt.tasks[id].scheduled then rt
    else SetTask(rt, id, rt.tasks[id].(scheduled := true)).(queue := rt.queue + [id])
  }

  /** Calls the cleanup callback, the first time only. */
  function Finalize(rt: Rt, id: TaskId): Rt
    requires id in rt.tasks
  {
    if rt.tasks[id].finalized then rt
    else SetTask(rt, id, rt.tasks[id].(finalized := true)).(log := rt.log + [Cleaned(id)])
  }

  function Destroy(rt: Rt, id: TaskId): Rt
    requires id in rt.tasks
  {
    var r := Finalize(rt, id);
    r.(tasks := r.tasks - {id}, log := r.log + [Freed(id)])
  }

  function CancelFlags(rt: Rt, id: TaskId): Rt
    requires id in rt.tasks
  {
    var r := SetTask(rt, id, rt.tasks[id].(cancelled := true, persistent := false));
    Finalize(r.(log := r.log + [Cancelled(id)]), id)
  }

  // ---------------------------------------------------------------------
  // Poller table
  // ---------------------------------------------------------------------

  function Registered(poller: map<int, set<Bit>>, fd: int): set<Bit> {
    if fd in poller then poller[fd] else {}
  }

  function Register(poller: map<int, set<Bit>>, fd: int, events: set<Bit>): map<int, set<Bit>> {
    poller[fd := Registered(poller, fd) + events]
  }

  function Unregister(poller: map<int, set<Bit>>, fd: int, events: set<Bit>): map<int, set<Bit>> {
    if fd !in poller then poller
    else if poller[fd] - events == {} then poller - {fd}
    else poller[fd := poller[fd] - events]
  }

  // ---------------------------------------------------------------------
  // Watchers
  // ---------------------------------------------------------------------

  function SwapRemove<X>(s: seq<X>, i: nat): (r: seq<X>)
    requires i < |s|
    ensures |r| == |s| - 1
  {
    s[i := s[|s| - 1]][..|s| - 1]
  }

  /** Drops watcher i and its registration. */
  function DropWatcher(rt: Rt, i: nat): Rt
    requires i < |rt.watchers|
  {
    var w := rt.watchers[i];
    rt.(poller := Unregister(rt.poller, w.fd, w.events), watchers := SwapRemove(rt.watchers, i))
  }

  function RemoveWatchers(rt: Rt, id: TaskId, i: nat): Rt
    requires i <= |rt.watchers|
    decreases |rt.watchers|, |rt.watchers| - i
  {
    if i == |rt.watchers| then rt
    else if rt.watchers[i].task == id then RemoveWatchers(DropWatcher(rt, i), id, i)
    else RemoveWatchers(rt, id, i + 1)
  }

  /** Cancels: cleanup now, off every watcher and timer, queued to be freed. */
  function Cancel(rt: Rt, id: TaskId): Rt
    requires id in rt.tasks
  {
    var r := RemoveWatchers(CancelFlags(rt, id), id, 0);
    RemoveWatchersKeepsTasks(CancelFlags(rt, id), id, 0);
    Schedule(r.(timers := RemoveTask(r.timers, id, 0)), id)
  }

  lemma {:induction false} RemoveWatchersKeepsTasks(rt: Rt, id: TaskId, i: nat)
    requires i <= |rt.watchers|
    ensures var r := RemoveWatchers(rt, id, i);
      r == rt.(watchers := r.watchers, poller := r.poller)
    decreases |rt.watchers|, |rt.watchers| - i
  {
    if i < |rt.watchers| {
      if rt.watchers[i].task == id {
        RemoveWatchersKeepsTasks(DropWatcher(rt, i), id, i);
      } else {
        RemoveWatchersKeepsTasks(rt, id, i + 1);
      }
    }
  }

  /** Position of the watcher for exactly this fd and mask, or the number of watchers. */
  function FindExact(ws: seq<Watcher>, fd: int, events: set<Bit>): (i: nat)
    ensures i <= |ws|
    ensures i < |ws| ==> ws[i].fd == fd && ws[i].events == events
    ensures forall j :: 0 <= j < i ==> ws[j].fd != fd || ws[j].events != events
  {
    if ws == [] || (ws[0].fd == fd && ws[0].events == events) then 0 else 1 + FindExact(ws[1..], fd, events)
  }

  /** Union of the masks watched on fd. */
  function MaskOf(ws: seq<Watcher>, fd: int): set<Bit> {
    if ws == [] then {} else (if ws[0].fd == fd then ws[0].events else {}) + MaskOf(ws[1..], fd)
  }

  /** How the poller backend answers the two registrations watch_fd may make. */
  datatype Backend = Backend(registers: bool, restores: bool)

  /** Makes the poller listen for `events` on fd too; reports whether it does. */
  function ExtendRegistration(poller: map<int, set<Bit>>, ws: seq<Watcher>, fd: int, events: set<Bit>,
                              backend: Backend): (map<int, set<Bit>>, bool)
  {
    var existing := MaskOf(ws, fd);
    var wanted := existing + events;
    if wanted == existing then (poller, true)
    else
      var cleared := if existing != {} then Unregister(poller, fd, existing) else poller;
      if backend.registers then (Register(cleared, fd, wanted), true)
      else if existing != {} && backend.restores then (Register(cleared, fd, existing), false)
      else (cleared, false)
  }

  function Watch(rt: Rt, fd: int, events: set<Bit>, persistent: bool, backend: Backend): Rt
    requires WatchersLive(rt)
  {
    var id := rt.nextId;
    var r := Create(rt);
    var i := FindExact(r.watchers, fd, events);
    if i < |r.watchers| then
      var previous := r.watchers[i].task;
      var s := r.(watchers := r.watchers[i := Watcher(fd, events, persistent, id)]);
      Cancel(SetTask(s, id, s.tasks[id].(persistent := persistent)), previous)
    else
      var (poller, ok) := ExtendRegistration(r.poller, r.watchers, fd, events, backend);
      if !ok then Destroy(r.(poller := poller), id)
      else
        SetTask(r, id, r.tasks[id].(persistent := persistent))
          .(poller := poller, watchers := r.watchers + [Watcher(fd, events, persistent, id)])
  }

  function UnwatchLoop(rt: Rt, fd: int, i: nat): Rt
    requires i <= |rt.watchers| && WatchersLive(rt)
    decreases |rt.watchers|, |rt.watchers| - i
  {
    if i == |rt.watchers| then rt
    else if rt.watchers[i].fd == fd then
      var id := rt.watchers[i].task;
      var r := CancelFlags(rt, id).(watchers := SwapRemove(rt.watchers, i));
      UnwatchLoop(Schedule(r, id), fd, i)
    else UnwatchLoop(rt, fd, i + 1)
  }

  function Unwatch(rt: Rt, fd: int): Rt
    requires WatchersLive(rt)
  {
    UnwatchLoop(rt.(poller := Unregister(rt.poller, fd, {Read, Write})), fd, 0)
  }

  // ---------------------------------------------------------------------
  // Timers
  // ---------------------------------------------------------------------

  function AddTimer(rt: Rt, now: Clock, ms: nat, repeating: bool): Rt {
    var r := Create(rt);
    SetTask(r, rt.nextId, r.tasks[rt.nextId].(persistent := repeating))
      .(timers := Push(r.timers, Timer((now + ms) % MODULUS_64, ms, repeating, rt.nextId)))
  }

  /** Schedules the due timers' tasks, root by root. */
  function UpdateTimers(rt: Rt, now: Clock): Rt
    requires TimersLive(rt)
    decreases |Due(rt.timers, now)|
  {
    if rt.timers == [] || rt.timers[0].fire > now then rt
    else
      FireTopDue(rt.timers, now);
      FireStepLive(rt, now);
      UpdateTimers(FireStep(rt, now), now)
  }

  function FireStep(rt: Rt, now: Clock): Rt
    requires rt.timers != [] && TimersLive(rt)
  {
    Schedule(rt, rt.timers[0].task).(timers := FireTop(rt.timers, now))
  }

  // ---------------------------------------------------------------------
  // Dispatching readiness
  // ---------------------------------------------------------------------

  /** A ready fd: schedule its watchers' tasks; one-shot watchers are done. */
  function Dispatch(rt: Rt, fd: int, events: set<Bit>, j: nat): Rt
    requires j <= |rt.watchers| && WatchersLive(rt)
    decreases |rt.watchers|, |rt.watchers| - j
  {
    if j == |rt.watchers| then rt
    else
      var w := rt.watchers[j];
      if w.fd == fd && w.events * events != {} then
        var r := Schedule(rt, w.task);
        if w.persistent then Dispatch(r, fd, events, j + 1) else Dispatch(DropWatcher(r, j), fd, events, j)
      else Dispatch(rt, fd, events, j + 1)
  }

  function DispatchAll(rt: Rt, ready: seq<(int, set<Bit>)>): (r: Rt)
    requires WatchersLive(rt)
    decreases |ready|
  {
    if ready == [] then rt
    else
      DispatchLive(rt, ready[0].0, ready[0].1, 0);
      DispatchAll(Dispatch(rt, ready[0].0, ready[0].1, 0), ready[1..])
  }

  // ---------------------------------------------------------------------
  // Live references
  // ---------------------------------------------------------------------

  ghost predicate WatchersLive(rt: Rt) {
    forall i :: 0 <= i < |rt.watchers| ==> rt.watchers[i].task in rt.tasks
  }

  ghost predicate TimersLive(rt: Rt) {
    forall t :: t in rt.timers ==> t.task in rt.tasks
  }

  lemma FireTopMembers(s: seq<Timer<TaskId>>, now: Clock, t: Timer<TaskId>)
    requires s != [] && t in FireTop(s, now)
    ensures t in s[1..] || (s[0].repeating && t == Rearmed(s[0], now))
  {
    hide FireTop;
    FireTopContents(s, now);
    assert t in multiset(FireTop(s, now));
    assert t in multiset(s[1..]) || t in Again(s[0], now);
  }

  lemma FireStepLive(rt: Rt, now: Clock)
    requires rt.timers != [] && TimersLive(rt)
    ensures TimersLive(FireStep(rt, now))
  {
    forall t | t in FireTop(rt.timers, now) ensures t.task in rt.tasks { FireTopMembers(rt.timers, now, t); }
  }

  lemma {:induction false} DispatchLive(rt: Rt, fd: int, events: set<Bit>, j: nat)
    requires j <= |rt.watchers| && WatchersLive(rt)
    ensures WatchersLive(Dispatch(rt, fd, events, j))
    decreases |rt.watchers|, |rt.watchers| - j
  {
    if j < |rt.watchers| {
      var w := rt.watchers[j];
      if w.fd == fd && w.events * events != {} {
        var r := Schedule(rt, w.task);
        if w.persistent { DispatchLive(r, fd, events, j + 1); } else { DispatchLive(DropWatcher(r, j), fd, events, j); }
      } else {
        DispatchLive(rt, fd, events, j + 1);
      }
    }
  }
}
