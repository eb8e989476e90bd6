// What a tick does: which tasks it queues, in which order, what it runs and
// frees, and which watchers and timers are left.
module EventLoopServes {
  import opened Arithmetic
  import opened TimerHeap
  import opened EventLoop
  import opened EventLoopSafety
  import opened EventLoopRuns

  // ---------------------------------------------------------------------
  // Queueing
  // ---------------------------------------------------------------------

  /** b is a with these tasks appended to the queue and their SCHEDULED flags set; holders aside, nothing else differs. */
  ghost predicate Appends(a: Rt, b: Rt, more: seq<TaskId>) {
    && b == a.(tasks := b.tasks, queue := a.queue + more, watchers := b.watchers, timers := b.timers, poller := b.poller)
    && a.tasks.Keys == b.tasks.Keys && NoDuplicates(more)
    && (forall id :: id in more ==> id in a.tasks && !a.tasks[id].scheduled)
    && (forall id :: id in a.tasks ==> b.tasks[id] == a.tasks[id].(scheduled := a.tasks[id].scheduled || id in more))
  }

  lemma DisjointJoined(x: seq<TaskId>, y: seq<TaskId>)
    requires NoDuplicates(x) && NoDuplicates(y) && forall id :: id in y ==> id !in x
    ensures NoDuplicates(x + y) && forall id :: id in x + y <==> id in x || id in y
  {
    var n := |x|;
    forall i, j | 0 <= i < j < |x + y| ensures (x + y)[i] != (x + y)[j] {
      if i < n <= j { assert y[j - n] in y; }
    }
  }

  lemma AppendsTwice(a: Rt, b: Rt, c: Rt, x: seq<TaskId>, y: seq<TaskId>)
    requires Appends(a, b, x) && Appends(b, c, y)
    ensures Appends(a, c, x + y) && forall id :: id in x + y <==> id in x || id in y
  {
    hide NoDuplicates;
    assert a.queue + x + y == a.queue + (x + y);
    DisjointJoined(x, y);
  }

  /** Of the tasks in want, those not yet queued have been queued. */
  ghost predicate Queues(a: Rt, b: Rt, want: set<TaskId>, more: seq<TaskId>) {
    Appends(a, b, more) && forall id :: id in more <==> id in want && id in a.tasks && !a.tasks[id].scheduled
  }

  lemma QueuesTwice(a: Rt, b: Rt, c: Rt, v: set<TaskId>, w: set<TaskId>, x: seq<TaskId>, y: seq<TaskId>)
    requires Queues(a, b, v, x) && Queues(b, c, w, y)
    ensures Queues(a, c, v + w, x + y)
  {
    AppendsTwice(a, b, c, x, y);
    hide NoDuplicates;
  }

  lemma ScheduleQueues(rt: Rt, id: TaskId) returns (more: seq<TaskId>)
    requires id in rt.tasks
    ensures var r := Schedule(rt, id);
      Queues(rt, r, {id}, more) && r.watchers == rt.watchers && r.timers == rt.timers
    ensures more == if rt.tasks[id].scheduled then [] else [id]
  {
    assert rt.queue + [] == rt.queue;
    more := if rt.tasks[id].scheduled then [] else [id];
  }

  /** What the holders are does not matter for the queue. */
  lemma HoldersAside(a: Rt, b: Rt, c: Rt, want: set<TaskId>, more: seq<TaskId>)
    requires Queues(a, b, want, more) && c == b.(watchers := c.watchers, timers := c.timers, poller := c.poller)
    ensures Queues(a, c, want, more)
  {
  }

  lemma NothingQueued(rt: Rt)
    ensures Queues(rt, rt, {}, [])
  {
    NothingAppended(rt);
  }

  lemma NothingAppended(rt: Rt)
    ensures Appends(rt, rt, [])
  {
    assert rt.queue + [] == rt.queue;
  }

  // ---------------------------------------------------------------------
  // Ready descriptors
  // ---------------------------------------------------------------------

  predicate Fires(w: Watcher, fd: int, events: set<Bit>) { w.fd == fd && w.events * events != {} }

  /** The watcher waits for something that is ready. */
  predicate ReadyFor(w: Watcher, ready: seq<(int, set<Bit>)>) {
    exists k :: 0 <= k < |ready| && Fires(w, ready[k].0, ready[k].1)
  }

  lemma SwapMembers(ws: seq<Watcher>, j: nat, w: Watcher)
    requires j < |ws|
    ensures SwapRemove(ws, j)[..j] == ws[..j]
    ensures w in SwapRemove(ws, j)[j..] <==> w in ws[j + 1..]
  {
    var n := |ws| - 1;
    var r := SwapRemove(ws, j);
    assert forall i :: 0 <= i < n ==> r[i] == if i == j then ws[n] else ws[i];
    if w in ws[j + 1..] {
      var i :| j < i <= n && ws[i] == w;
      assert r[if i == n then j else i] == w;
    }
  }

  /** The tasks that wait, at one of these watchers, for what is ready on fd. */
  function Waiting(ws: seq<Watcher>, fd: int, events: set<Bit>): set<TaskId> {
    set w | w in ws && Fires(w, fd, events) :: w.task
  }

  lemma WaitingFrom(ws: seq<Watcher>, j: nat, fd: int, events: set<Bit>)
    requires j < |ws|
    ensures Waiting(ws[j..], fd, events)
         == (if Fires(ws[j], fd, events) then {ws[j].task} else {}) + Waiting(ws[j + 1..], fd, events)
    ensures Waiting(SwapRemove(ws, j)[j..], fd, events) == Waiting(ws[j + 1..], fd, events)
  {
    hide SwapRemove, Fires;
    assert ws[j..] == [ws[j]] + ws[j + 1..];
    forall w ensures w in SwapRemove(ws, j)[j..] <==> w in ws[j + 1..] { SwapMembers(ws, j, w); }
  }

  lemma LiveAt(rt: Rt, j: nat)
    requires WatchersLive(rt) && j < |rt.watchers|
    ensures rt.watchers[j].task in rt.tasks
  {
  }

  lemma StillLive(rt: Rt, r: Rt, want: set<TaskId>, more: seq<TaskId>, j: nat)
    requires WatchersLive(rt) && Queues(rt, r, want, more) && r.watchers == rt.watchers && j < |rt.watchers|
    ensures WatchersLive(r) && WatchersLive(DropWatcher(r, j))
  {
    var d := DropWatcher(r, j);
    assert forall i :: 0 <= i < |d.watchers| ==> d.watchers[i] == r.watchers[if i == j then |d.watchers| else i];
  }

  lemma {:induction false} DispatchQueues(rt: Rt, fd: int, events: set<Bit>, j: nat) returns (more: seq<TaskId>)
    requires j <= |rt.watchers| && WatchersLive(rt)
    ensures Queues(rt, Dispatch(rt, fd, events, j), Waiting(rt.watchers[j..], fd, events), more)
    ensures Dispatch(rt, fd, events, j).timers == rt.timers
    decreases |rt.watchers|, |rt.watchers| - j
  {
    hide Schedule, Queues, WatchersLive, Waiting;
    if j == |rt.watchers| {
      NothingQueued(rt);
      assert Waiting(rt.watchers[j..], fd, events) == {} by { NoneWaiting(fd, events); }
      return [];
    }
    var w := rt.watchers[j];
    LiveAt(rt, j);
    WaitingFrom(rt.watchers, j, fd, events);
    if Fires(w, fd, events) {
      var r := Schedule(rt, w.task);
      var first := ScheduleQueues(rt, w.task);
      StillLive(rt, r, {w.task}, first, j);
      if w.persistent {
        var rest := DispatchQueues(r, fd, events, j + 1);
        QueuesTwice(rt, r, Dispatch(r, fd, events, j + 1), {w.task}, Waiting(rt.watchers[j + 1..], fd, events), first, rest);
        more := first + rest;
      } else {
        var d := DropWatcher(r, j);
        HoldersAside(rt, r, d, {w.task}, first);
        var rest := DispatchQueues(d, fd, events, j);
        QueuesTwice(rt, d, Dispatch(d, fd, events, j), {w.task}, Waiting(rt.watchers[j + 1..], fd, events), first, rest);
        more := first + rest;
      }
    } else {
      more := DispatchQueues(rt, fd, events, j + 1);
      var none: set<TaskId> := {};
      assert none + Waiting(rt.watchers[j + 1..], fd, events) == Waiting(rt.watchers[j + 1..], fd, events);
    }
  }

  lemma NoneWaiting(fd: int, events: set<Bit>)
    ensures Waiting([], fd, events) == {}
  {
  }

  /** A watcher is left exactly when it did not fire or is persistent. */
  lemma {:induction false} DispatchLeaves(rt: Rt, fd: int, events: set<Bit>, j: nat, x: Watcher)
    requires j <= |rt.watchers| && WatchersLive(rt)
    ensures x in Dispatch(rt, fd, events, j).watchers <==>
      x in rt.watchers[..j] || (x in rt.watchers[j..] && (x.persistent || !Fires(x, fd, events)))
    decreases |rt.watchers|, |rt.watchers| - j
  {
    hide Schedule, SwapRemove, Queues, WatchersLive;
    if j < |rt.watchers| {
      var ws, w := rt.watchers, rt.watchers[j];
      assert ws[..j + 1] == ws[..j] + [w] && ws[j..] == [w] + ws[j + 1..];
      LiveAt(rt, j);
      if Fires(w, fd, events) {
        var r := Schedule(rt, w.task);
        var first := ScheduleQueues(rt, w.task);
        StillLive(rt, r, {w.task}, first, j);
        SwapMembers(ws, j, x);
        if w.persistent { DispatchLeaves(r, fd, events, j + 1, x); } else { DispatchLeaves(DropWatcher(r, j), fd, events, j, x); }
      } else {
        DispatchLeaves(rt, fd, events, j + 1, x);
      }
    }
  }

  /** The tasks whose watcher waits for something that is ready. */
  function WaitingAny(ws: seq<Watcher>, ready: seq<(int, set<Bit>)>): set<TaskId> {
    set w | w in ws && ReadyFor(w, ready) :: w.task
  }

  lemma ReadyFirst(w: Watcher, ready: seq<(int, set<Bit>)>)
    requires ready != []
    ensures ReadyFor(w, ready) <==> Fires(w, ready[0].0, ready[0].1) || ReadyFor(w, ready[1..])
  {
    hide Fires;
    if ReadyFor(w, ready) {
      var k :| 0 <= k < |ready| && Fires(w, ready[k].0, ready[k].1);
      if k > 0 { assert ready[k] == ready[1..][k - 1]; }
    }
    if ReadyFor(w, ready[1..]) {
      var k :| 0 <= k < |ready[1..]| && Fires(w, ready[1..][k].0, ready[1..][k].1);
      assert ready[k + 1] == ready[1..][k];
    }
  }

  /** After all ready descriptors: every task that waited is queued, and fired one-shot watchers are gone. */
  lemma {:induction false} DispatchAllServes(rt: Rt, ready: seq<(int, set<Bit>)>) returns (more: seq<TaskId>)
    requires WatchersLive(rt)
    ensures var r := DispatchAll(rt, ready);
      && Queues(rt, r, WaitingAny(rt.watchers, ready), more) && r.timers == rt.timers
      && forall w :: w in r.watchers <==> w in rt.watchers && (w.persistent || !ReadyFor(w, ready))
    decreases |ready|
  {
    hide Queues, WatchersLive, Dispatch, Fires, ReadyFor;
    if ready == [] {
      NothingQueued(rt);
      NothingReady(rt.watchers);
      return [];
    }
    var fd, events := ready[0].0, ready[0].1;
    DispatchLive(rt, fd, events, 0);
    var first := DispatchQueues(rt, fd, events, 0);
    var next := Dispatch(rt, fd, events, 0);
    var rest := DispatchAllServes(next, ready[1..]);
    assert rt.watchers[0..] == rt.watchers && rt.watchers[..0] == [];
    forall w ensures w in next.watchers <==> w in rt.watchers && (w.persistent || !Fires(w, fd, events)) {
      DispatchLeaves(rt, fd, events, 0, w);
    }
    forall w ensures ReadyFor(w, ready) <==> Fires(w, fd, events) || ReadyFor(w, ready[1..]) { ReadyFirst(w, ready); }
    assert Waiting(rt.watchers, fd, events) + WaitingAny(next.watchers, ready[1..]) == WaitingAny(rt.watchers, ready);
    QueuesTwice(rt, next, DispatchAll(next, ready[1..]), Waiting(rt.watchers, fd, events), WaitingAny(next.watchers, ready[1..]), first, rest);
    more := first + rest;
  }

  lemma NothingReady(ws: seq<Watcher>)
    ensures WaitingAny(ws, []) == {} && forall w :: !ReadyFor(w, [])
  {
  }

  // ---------------------------------------------------------------------
  // Due timers
  // ---------------------------------------------------------------------

  /** The tasks of these timers, in order, without those that are queued. */
  function Unqueued(rt: Rt, ts: seq<Timer<TaskId>>): (ids: seq<TaskId>) {
    if ts == [] then []
    else
      (if ts[0].task in rt.tasks && !rt.tasks[ts[0].task].scheduled then [ts[0].task] else []) + Unqueued(rt, ts[1..])
  }

  lemma {:induction false} UnqueuedOthers(a: Rt, b: Rt, ts: seq<Timer<TaskId>>, id: TaskId)
    requires a.tasks.Keys == b.tasks.Keys && forall t :: t in ts ==> t.task != id
    requires forall x :: x in a.tasks && x != id ==> a.tasks[x].scheduled == b.tasks[x].scheduled
    ensures Unqueued(a, ts) == Unqueued(b, ts)
  {
    if ts != [] { UnqueuedOthers(a, b, ts[1..], id); }
  }

  /** After the root fired, its task has no other due timer. */
  lemma FiredOthers(s: seq<Timer<TaskId>>, now: Clock, t: Timer<TaskId>)
    requires IsHeap(s) && OncePerTask(s) && s != [] && s[0].fire <= now
    requires t in FireAll(FireTop(s, now), now).1
    ensures t.task != s[0].task
  {
    hide FireTop, FireAll, Due;
    FireTopHeap(s, now);
    FireAllDue(FireTop(s, now), now);
    FireTopDue(s, now);
    assert t in multiset(Due(s[1..], now));
    DueMultiplicity(s[1..], now, t);
    assert t in multiset(s[1..]);
    var k :| 0 <= k < |s[1..]| && s[1..][k] == t;
    assert s[k + 1] == t;
  }

  lemma {:induction false} UpdateTimersServes(rt: Rt, now: Clock)
    requires TimersLive(rt) && IsHeap(rt.timers) && OncePerTask(rt.timers)
    ensures var r := UpdateTimers(rt, now);
      && Appends(rt, r, Unqueued(rt, FireAll(rt.timers, now).1))
      && r.timers == FireAll(rt.timers, now).0 && r.watchers == rt.watchers
    decreases |Due(rt.timers, now)|
  {
    hide Schedule, FireTop, Due, IsHeap, Appends, TimersLive;
    if rt.timers == [] || rt.timers[0].fire > now {
      NothingAppended(rt);
    } else {
      var id := rt.timers[0].task;
      RootLive(rt);
      FireTopDue(rt.timers, now);
      FireStepLive(rt, now);
      var next := FireStep(rt, now);
      TimersFired(rt.timers, now);
      UpdateTimersServes(next, now);
      var first := ScheduleQueues(rt, id);
      assert Appends(rt, next, first) by { HoldersAside(rt, Schedule(rt, id), next, {id}, first); }
      var fired := FireAll(next.timers, now).1;
      forall t | t in fired ensures t.task != id { FiredOthers(rt.timers, now, t); }
      assert Unqueued(rt, fired) == Unqueued(next, fired) by {
        OthersSame(rt, next, first, id);
        UnqueuedOthers(rt, next, fired, id);
      }
      AppendsTwice(rt, next, UpdateTimers(next, now), first, Unqueued(next, fired));
      assert ([rt.timers[0]] + fired)[1..] == fired;
    }
  }

  lemma RootLive(rt: Rt)
    requires TimersLive(rt) && rt.timers != []
    ensures rt.timers[0].task in rt.tasks
  {
    assert rt.timers[0] in rt.timers;
  }

  lemma OthersSame(a: Rt, b: Rt, first: seq<TaskId>, id: TaskId)
    requires Appends(a, b, first) && forall x :: x in first ==> x == id
    ensures a.tasks.Keys == b.tasks.Keys
    ensures forall x :: x in a.tasks && x != id ==> a.tasks[x].scheduled == b.tasks[x].scheduled
  {
  }

  // ---------------------------------------------------------------------
  // Running the queue
  // ---------------------------------------------------------------------

  /** What is seen of a task whose turn it is: it runs unless cancelled and is freed unless persistent. */
  function TurnEvents(t: Task, id: TaskId): seq<Event> {
    (if t.cancelled then [] else [Ran(id)])
      + (if t.persistent then [] else (if t.finalized then [] else [Cleaned(id)]) + [Freed(id)])
  }

  function QueueEvents(tasks: map<TaskId, Task>, queue: seq<TaskId>): seq<Event>
    requires forall id :: id in queue ==> id in tasks
  {
    if queue == [] then [] else TurnEvents(tasks[queue[0]], queue[0]) + QueueEvents(tasks, queue[1..])
  }

  lemma {:induction false} SameTurns(a: map<TaskId, Task>, b: map<TaskId, Task>, queue: seq<TaskId>)
    requires forall id :: id in queue ==> id in a && id in b && b[id] == a[id].(scheduled := b[id].scheduled)
    ensures QueueEvents(a, queue) == QueueEvents(b, queue)
  {
    if queue != [] { SameTurns(a, b, queue[1..]); }
  }

  predicate NoCalls(scripts: seq<seq<Call>>) { forall i :: 0 <= i < |scripts| ==> scripts[i] == [] }

  /** r is rt after the turn of the task at the head of its queue. */
  ghost predicate Turned(rt: Rt, r: Rt) {
    && rt.queue != [] && rt.queue[0] in rt.tasks
    && var id := rt.queue[0];
    && r == rt.(tasks := r.tasks, queue := rt.queue[1..], log := rt.log + TurnEvents(rt.tasks[id], id))
    && r.tasks.Keys == (if rt.tasks[id].persistent then rt.tasks.Keys else rt.tasks.Keys - {id})
    && (forall x :: x in r.tasks && x != id ==> r.tasks[x] == rt.tasks[x])
    && (id in r.tasks ==> r.tasks[id] == rt.tasks[id].(scheduled := false))
  }

  /** One turn, of a callback that makes no calls. */
  lemma TurnServes(rt: Rt)
    requires Inv(rt) && rt.queue != [] && rt.current == {}
    ensures Turned(rt, RunHead(rt, []))
  {
    hide InvBut;
    TakeSafe(rt);
    var id := rt.queue[0];
    var none: set<TaskId> := {};
    assert none + {id} - {id} == none;
    var ran := Execute(Take(rt), id, []);
    CurrentLive(ran, id);
    var t := rt.tasks[id];
    var first := if t.cancelled then [] else [Ran(id)];
    assert ran == Take(rt).(log := rt.log + first) by { assert rt.log + [] == rt.log; }
    FinishEvents(ran, id);
    var last := if t.persistent then [] else (if t.finalized then [] else [Cleaned(id)]) + [Freed(id)];
    assert rt.log + first + last == rt.log + (first + last);
  }

  lemma FinishEvents(rt: Rt, id: TaskId)
    requires id in rt.tasks && !rt.tasks[id].scheduled
    ensures var r, t := Finish(rt, id), rt.tasks[id];
      && r == rt.(tasks := r.tasks, current := rt.current - {id},
           log := rt.log + (if t.persistent then [] else (if t.finalized then [] else [Cleaned(id)]) + [Freed(id)]))
      && r.tasks.Keys == (if t.persistent then rt.tasks.Keys else rt.tasks.Keys - {id})
      && (forall x :: x in r.tasks ==> r.tasks[x] == rt.tasks[x])
  {
    assert rt.log + [] == rt.log;
    if !rt.tasks[id].finalized { assert rt.log + [Cleaned(id)] + [Freed(id)] == rt.log + ([Cleaned(id)] + [Freed(id)]); }
  }

  /** The tasks that are not freed in their turn. */
  function Surviving(tasks: map<TaskId, Task>, queue: seq<TaskId>): set<TaskId> {
    set id | id in tasks && (id !in queue || tasks[id].persistent)
  }

  /** r is rt after the turn of every task in its queue. */
  ghost predicate Served(rt: Rt, r: Rt) {
    && (forall id :: id in rt.queue ==> id in rt.tasks)
    && r == rt.(tasks := r.tasks, queue := [], log := rt.log + QueueEvents(rt.tasks, rt.queue))
    && r.tasks.Keys == Surviving(rt.tasks, rt.queue)
    && (forall id :: id in r.tasks ==> r.tasks[id] == rt.tasks[id].(scheduled := false))
  }

  lemma {:induction false} RunQueueServes(rt: Rt, scripts: seq<seq<Call>>)
    requires Inv(rt) && rt.current == {} && rt.running && NoCalls(scripts)
    ensures Served(rt, RunQueue(rt, scripts))
    decreases |rt.queue|
  {
    hide InvBut, RunHead, Served, Turned;
    if rt.queue == [] {
      NothingServed(rt);
    } else {
      TakeSafe(rt);
      TurnServes(rt);
      var next := RunHead(rt, []);
      var rest := if rt.tasks[rt.queue[0]].cancelled || scripts == [] then scripts else scripts[1..];
      RunHeadQueue(rt, []);
      assert next.current == {} && next.running by { assert Turned(rt, next); StillRunning(rt, next); }
      RunQueueServes(next, rest);
      TailApart(rt);
      ServedNext(rt, next, RunQueue(next, rest));
    }
  }

  lemma NothingServed(rt: Rt)
    requires Inv(rt) && rt.queue == []
    ensures Served(rt, rt)
  {
    hide HoldersExact, IdsExact, TasksOk;
    assert rt.log + [] == rt.log;
  }

  lemma StillRunning(rt: Rt, next: Rt)
    requires Turned(rt, next)
    ensures next.current == rt.current && next.running == rt.running
  {
  }

  lemma ServedNext(rt: Rt, next: Rt, r: Rt)
    requires Turned(rt, next) && Served(next, r)
    requires rt.queue[0] !in rt.queue[1..] && forall id :: id in rt.queue <==> id == rt.queue[0] || id in rt.queue[1..]
    ensures Served(rt, r)
  {
    hide TurnEvents;
    var id, tail := rt.queue[0], rt.queue[1..];
    SameTurns(rt.tasks, next.tasks, tail);
    var first, later := TurnEvents(rt.tasks[id], id), QueueEvents(rt.tasks, tail);
    assert rt.log + first + later == rt.log + (first + later);
    assert Surviving(next.tasks, tail) == Surviving(rt.tasks, rt.queue);
  }

  lemma TailApart(rt: Rt)
    requires Inv(rt) && rt.queue != []
    ensures rt.queue[0] !in rt.queue[1..] && forall id :: id in rt.queue <==> id == rt.queue[0] || id in rt.queue[1..]
  {
    assert rt.queue == [rt.queue[0]] + rt.queue[1..];
  }

  // ---------------------------------------------------------------------
  // A tick
  // ---------------------------------------------------------------------

  /** The tasks with a timer due at `now`. */
  function DueTasks(ts: seq<Timer<TaskId>>, now: Clock): set<TaskId> {
    set t | t in ts && t.fire <= now :: t.task
  }

  ghost predicate NoLater(ts: seq<Timer<TaskId>>, a: TaskId, b: TaskId) {
    exists t, u :: t in ts && u in ts && t.task == a && u.task == b && t.fire <= u.fire
  }

  /** Of these tasks, one whose timer is due earlier comes first. */
  ghost predicate InDeadlineOrder(ids: seq<TaskId>, ts: seq<Timer<TaskId>>) {
    forall i, j :: 0 <= i < j < |ids| ==> NoLater(ts, ids[i], ids[j])
  }

  lemma {:induction false} UnqueuedMembers(rt: Rt, ts: seq<Timer<TaskId>>, id: TaskId)
    ensures id in Unqueued(rt, ts) <==>
      id in rt.tasks && !rt.tasks[id].scheduled && exists t :: t in ts && t.task == id
  {
    if ts != [] {
      UnqueuedMembers(rt, ts[1..], id);
      assert ts == [ts[0]] + ts[1..];
      if t :| t in ts && t.task == id { assert t == ts[0] || t in ts[1..]; }
    }
  }

  lemma {:induction false} UnqueuedOrder(rt: Rt, ts: seq<Timer<TaskId>>)
    requires ByDeadline(ts)
    ensures InDeadlineOrder(Unqueued(rt, ts), ts)
  {
    hide NoLater;
    if ts != [] {
      var tail := ts[1..];
      assert ByDeadline(tail) by { assert forall i :: 0 <= i < |tail| ==> tail[i] == ts[i + 1]; }
      UnqueuedOrder(rt, tail);
      var rest, all := Unqueued(rt, tail), Unqueued(rt, ts);
      var n := |all| - |rest|;
      forall i, j | 0 <= i < j < |all| ensures NoLater(ts, all[i], all[j]) {
        assert all[j] == rest[j - n] && rest[j - n] in rest;
        if i < n {
          UnqueuedMembers(rt, tail, all[j]);
          RootNoLater(ts, all[j]);
        } else {
          assert all[i] == rest[i - n];
          TailNoLater(ts, all[i], all[j]);
        }
      }
    }
  }

  lemma RootNoLater(ts: seq<Timer<TaskId>>, b: TaskId)
    requires ts != [] && ByDeadline(ts) && exists u :: u in ts[1..] && u.task == b
    ensures NoLater(ts, ts[0].task, b)
  {
    var u :| u in ts[1..] && u.task == b;
    assert ts[0] in ts && u in ts;
  }

  lemma TailNoLater(ts: seq<Timer<TaskId>>, a: TaskId, b: TaskId)
    requires ts != [] && NoLater(ts[1..], a, b)
    ensures NoLater(ts, a, b)
  {
    var t, u :| t in ts[1..] && u in ts[1..] && t.task == a && u.task == b && t.fire <= u.fire;
    assert t in ts && u in ts;
  }

  /** The timers that fire are those that are due, so their order is that of their deadlines. */
  lemma FiredAre(rt: Rt, now: Clock)
    requires IsHeap(rt.timers)
    ensures var ids := Unqueued(rt, FireAll(rt.timers, now).1);
      && InDeadlineOrder(ids, rt.timers)
      && forall id :: id in ids <==> id in DueTasks(rt.timers, now) && id in rt.tasks && !rt.tasks[id].scheduled
  {
    hide FireAll, Due;
    FireAllCorrect(rt.timers, now);
    var fired := FireAll(rt.timers, now).1;
    forall t: Timer<TaskId> ensures t in fired <==> t in rt.timers && t.fire <= now {
      DueMultiplicity(rt.timers, now, t);
      assert t in fired <==> t in multiset(fired);
      assert t in rt.timers <==> t in multiset(rt.timers);
    }
    UnqueuedOrder(rt, fired);
    forall id ensures id in Unqueued(rt, fired) <==> id in DueTasks(rt.timers, now) && id in rt.tasks && !rt.tasks[id].scheduled {
      UnqueuedMembers(rt, fired, id);
    }
  }

  /** The tasks woken by what is ready. */
  ghost predicate Woken(rt: Rt, ready: seq<(int, set<Bit>)>, woken: seq<TaskId>) {
    forall id :: id in woken <==> id in WaitingAny(rt.watchers, ready) && id !in rt.queue
  }

  /** The tasks with a due timer that are not in the queue, by deadline. */
  ghost predicate DueInOrder(rt: Rt, now: Clock, woken: seq<TaskId>, due: seq<TaskId>) {
    && InDeadlineOrder(due, rt.timers)
    && forall id :: id in due <==> id in DueTasks(rt.timers, now) && id !in rt.queue && id !in woken
  }

  /** r is rt after the tasks of q had their turns. */
  ghost predicate TurnsTaken(rt: Rt, q: seq<TaskId>, r: Rt) {
    && NoDuplicates(q) && (forall id :: id in q ==> id in rt.tasks)
    && r.queue == [] && r.log == rt.log + QueueEvents(rt.tasks, q) && r.tasks.Keys == Surviving(rt.tasks, q)
    && (forall id :: id in r.tasks ==> r.tasks[id] == rt.tasks[id].(scheduled := false))
  }

  /** The watchers and timers that are left. */
  ghost predicate HoldersLeft(rt: Rt, ready: seq<(int, set<Bit>)>, now: Clock, r: Rt) {
    && (forall w :: w in r.watchers <==> w in rt.watchers && (w.persistent || !ReadyFor(w, ready)))
    && r.timers == FireAll(rt.timers, now).0 && (forall t :: t in r.timers ==> t.fire > now)
  }

  /**
    * What a tick whose callbacks make no calls does. The tasks queued before come
    * first, then those whose watcher waits for something ready, then those with a
    * due timer by deadline; each has one turn in this order, in which it runs
    * unless it was cancelled and is freed unless it is persistent. Watchers that
    * fired stay exactly when they are persistent, and no timer left is due.
    */
  lemma TickServes(rt: Rt, ready: seq<(int, set<Bit>)>, now: Clock, scripts: seq<seq<Call>>)
    returns (woken: seq<TaskId>, due: seq<TaskId>)
    requires Inv(rt) && rt.current == {} && rt.running && NoCalls(scripts)
    ensures Woken(rt, ready, woken) && DueInOrder(rt, now, woken, due)
    ensures TurnsTaken(rt, rt.queue + woken + due, Tick(rt, ready, now, scripts))
    ensures HoldersLeft(rt, ready, now, Tick(rt, ready, now, scripts))
  {
    hide Inv, DispatchAll, UpdateTimers, FireAll, Queues, Appends, Served, WaitingAny, DueTasks, ReadyFor, InDeadlineOrder, TurnsTaken;
    HeapOf(rt);
    DispatchAllSafe(rt, ready);
    var a := DispatchAll(rt, ready);
    woken := DispatchAllServes(rt, ready);
    WaitingLive(rt, ready);
    WhoIsQueued(rt, a, WaitingAny(rt.watchers, ready), woken);
    HeapOf(a);
    UpdateTimersSafe(a, now);
    var b := UpdateTimers(a, now);
    UpdateTimersServes(a, now);
    due := Unqueued(a, FireAll(a.timers, now).1);
    FiredAre(a, now);
    DueLive(a, now);
    AppendsTwice(rt, a, b, woken, due);
    Idle(rt, b, woken + due);
    RunQueueServes(b, scripts);
    TurnsEnd(rt, b, Tick(rt, ready, now, scripts), woken + due);
    assert HoldersLeft(rt, ready, now, b) by { FireAllCorrect(rt.timers, now); }
    SameHolders(rt, ready, now, b, Tick(rt, ready, now, scripts));
    assert rt.queue + (woken + due) == rt.queue + woken + due;
  }

  lemma WaitingLive(rt: Rt, ready: seq<(int, set<Bit>)>)
    requires WatchersLive(rt)
    ensures WaitingAny(rt.watchers, ready) <= rt.tasks.Keys
  {
    hide ReadyFor;
  }

  lemma DueLive(rt: Rt, now: Clock)
    requires TimersLive(rt)
    ensures DueTasks(rt.timers, now) <= rt.tasks.Keys
  {
  }

  lemma HeapOf(rt: Rt)
    requires Inv(rt)
    ensures WatchersLive(rt) && TimersLive(rt) && IsHeap(rt.timers) && OncePerTask(rt.timers)
  {
    InvLive(rt, {});
  }

  lemma Idle(a: Rt, b: Rt, more: seq<TaskId>)
    requires Appends(a, b, more)
    ensures b.current == a.current && b.running == a.running
  {
  }

  lemma WhoIsQueued(rt: Rt, a: Rt, want: set<TaskId>, woken: seq<TaskId>)
    requires Inv(rt) && Queues(rt, a, want, woken) && want <= rt.tasks.Keys
    ensures forall id :: id in woken <==> id in want && id !in rt.queue
    ensures forall id :: id in a.tasks ==> (a.tasks[id].scheduled <==> id in rt.queue || id in woken)
    ensures a.tasks.Keys == rt.tasks.Keys && Appends(rt, a, woken)
  {
    hide HoldersExact, IdsExact, TasksOk;
  }

  lemma SameHolders(rt: Rt, ready: seq<(int, set<Bit>)>, now: Clock, b: Rt, r: Rt)
    requires HoldersLeft(rt, ready, now, b) && Served(b, r)
    ensures HoldersLeft(rt, ready, now, r)
  {
    hide ReadyFor, FireAll;
  }

  lemma TurnsEnd(rt: Rt, b: Rt, r: Rt, more: seq<TaskId>)
    requires Inv(rt) && Appends(rt, b, more) && Served(b, r)
    ensures TurnsTaken(rt, rt.queue + more, r)
  {
    hide HoldersExact, IdsExact, TasksOk, TurnEvents;
    DisjointJoined(rt.queue, more);
    SameTurns(rt.tasks, b.tasks, rt.queue + more);
    assert Surviving(b.tasks, rt.queue + more) == Surviving(rt.tasks, rt.queue + more);
  }

  // ---------------------------------------------------------------------
  // A timer set before the tick
  // ---------------------------------------------------------------------

  lemma {:induction false} RanExactly(tasks: map<TaskId, Task>, q: seq<TaskId>, id: TaskId)
    requires forall x :: x in q ==> x in tasks
    ensures Ran(id) in QueueEvents(tasks, q) <==> id in q && !tasks[id].cancelled
  {
    if q != [] {
      RanExactly(tasks, q[1..], id);
      assert q == [q[0]] + q[1..];
    }
  }

  /**
    * A timer set at `now`, whose deadline does not wrap, runs its task in the next
    * tick exactly when that comes no earlier than `now` + ms.
    */
  lemma TimerRunsOnTime(rt: Rt, now: Clock, ms: nat, repeating: bool, ready: seq<(int, set<Bit>)>, later: Clock, scripts: seq<seq<Call>>)
    requires Inv(rt) && rt.current == {} && rt.running && NoCalls(scripts) && now + ms < MODULUS_64
    ensures var r := AddTimer(rt, now, ms, repeating);
      Inv(r) && r.log == rt.log && |rt.log| <= |Tick(r, ready, later, scripts).log|
      && (Ran(rt.nextId) in Tick(r, ready, later, scripts).log[|rt.log|..] <==> now + ms <= later)
  {
    hide Inv, Tick, Push, WaitingAny, QueueEvents, InDeadlineOrder;
    var id := rt.nextId;
    var r := AddTimer(rt, now, ms, repeating);
    AddTimerSafe(rt, now, ms, repeating);
    NewTimer(rt, now, ms, repeating, ready);
    var woken, due := TickServes(r, ready, later, scripts);
    var q := r.queue + woken + due;
    RanExactly(r.tasks, q, id);
    DueExactly(rt, now, ms, repeating, later);
    assert Tick(r, ready, later, scripts).log[|rt.log|..] == QueueEvents(r.tasks, q);
  }

  /** A new timer's task is in no queue and at no watcher. */
  lemma NewTimer(rt: Rt, now: Clock, ms: nat, repeating: bool, ready: seq<(int, set<Bit>)>)
    requires Inv(rt)
    ensures var r := AddTimer(rt, now, ms, repeating);
      && r.queue == rt.queue && r.log == rt.log && r.current == rt.current && r.running == rt.running
      && rt.nextId !in r.queue && rt.nextId !in WaitingAny(r.watchers, ready)
      && rt.nextId in r.tasks && !r.tasks[rt.nextId].cancelled
  {
    hide Push, ReadyFor;
    CreateSafe(rt);
    forall w | w in rt.watchers ensures w.task != rt.nextId { assert w.task in WatchTasks(rt.watchers); }
  }

  lemma DueExactly(rt: Rt, now: Clock, ms: nat, repeating: bool, later: Clock)
    requires Inv(rt) && now + ms < MODULUS_64
    ensures rt.nextId in DueTasks(AddTimer(rt, now, ms, repeating).timers, later) <==> now + ms <= later
  {
    hide Inv, Push;
    var t := Timer(now + ms, ms, repeating, rt.nextId);
    var ts := AddTimer(rt, now, ms, repeating).timers;
    NoOtherTimer(rt);
    HeapOf(rt);
    PushHeap(rt.timers, t);
    assert multiset(ts) == multiset(rt.timers) + multiset{t};
    forall u ensures u in ts <==> u in rt.timers || u == t {
      assert u in ts <==> u in multiset(ts);
      assert u in rt.timers <==> u in multiset(rt.timers);
    }
  }

  lemma NoOtherTimer(rt: Rt)
    requires Inv(rt)
    ensures forall t :: t in rt.timers ==> t.task != rt.nextId
  {
    CreateSafe(rt);
    forall t | t in rt.timers ensures t.task != rt.nextId { assert t.task in TimerTasks(rt.timers); }
  }

  // ---------------------------------------------------------------------
  // Stopping
  // ---------------------------------------------------------------------

  /** While the loop is stopped nothing runs; what is ready and due is queued all the same. */
  lemma StoppedTick(rt: Rt, ready: seq<(int, set<Bit>)>, now: Clock, scripts: seq<seq<Call>>)
    returns (woken: seq<TaskId>, due: seq<TaskId>)
    requires Inv(rt) && !rt.running
    ensures Woken(rt, ready, woken) && DueInOrder(rt, now, woken, due)
    ensures var r := Tick(rt, ready, now, scripts); r.queue == rt.queue + woken + due && r.log == rt.log
  {
    hide Inv, DispatchAll, UpdateTimers, FireAll, Queues, Appends, WaitingAny, DueTasks, ReadyFor, InDeadlineOrder;
    HeapOf(rt);
    DispatchAllSafe(rt, ready);
    var a := DispatchAll(rt, ready);
    woken := DispatchAllServes(rt, ready);
    WaitingLive(rt, ready);
    WhoIsQueued(rt, a, WaitingAny(rt.watchers, ready), woken);
    HeapOf(a);
    UpdateTimersSafe(a, now);
    var b := UpdateTimers(a, now);
    UpdateTimersServes(a, now);
    due := Unqueued(a, FireAll(a.timers, now).1);
    FiredAre(a, now);
    DueLive(a, now);
    AppendsTwice(rt, a, b, woken, due);
    QueueOf(rt, b, woken + due);
    assert rt.queue + (woken + due) == rt.queue + woken + due;
  }

  lemma QueueOf(a: Rt, b: Rt, more: seq<TaskId>)
    requires Appends(a, b, more)
    ensures b.queue == a.queue + more && b.log == a.log && b.running == a.running
  {
  }

  /** A callback that stops the loop is the last to run: the rest of the queue waits. */
  lemma StopsTheQueue(rt: Rt, more: seq<seq<Call>>)
    requires Inv(rt) && rt.running && rt.queue != [] && rt.queue[0] in rt.tasks && !rt.tasks[rt.queue[0]].cancelled
    ensures var r := RunQueue(rt, [[SetRunning(false)]] + more);
      && r.queue == rt.queue[1..] && !r.running && |rt.log| <= |r.log| && Ran(rt.queue[0]) in r.log[|rt.log|..]
      && forall e :: e in r.log[|rt.log|..] ==> e in {Ran(rt.queue[0]), Cleaned(rt.queue[0]), Freed(rt.queue[0])}
  {
    hide InvBut;
    TakeSafe(rt);
    var id := rt.queue[0];
    var scripts := [[SetRunning(false)]] + more;
    var ran := Execute(Take(rt), id, [SetRunning(false)]);
    assert ran == Take(rt).(log := rt.log + [Ran(id)], running := false) by { StopCall(rt); }
    CurrentLive(ran, id);
    FinishEvents(ran, id);
    assert scripts[0] == [SetRunning(false)];
    var r := RunHead(rt, [SetRunning(false)]);
    assert r.log[|rt.log|..] == [Ran(id)] + ran.log[|ran.log|..] + r.log[|ran.log|..];
  }

  lemma StopCall(rt: Rt)
    requires Inv(rt) && rt.queue != [] && rt.queue[0] in rt.tasks && !rt.tasks[rt.queue[0]].cancelled
    ensures Inv(Take(rt))
    ensures Execute(Take(rt), rt.queue[0], [SetRunning(false)])
         == Take(rt).(log := rt.log + [Ran(rt.queue[0])], running := false)
  {
    hide InvBut;
    TakeSafe(rt);
    var t := Take(rt);
    LogOnlySafe(t, Ran(rt.queue[0]));
    var s := t.(log := t.log + [Ran(rt.queue[0])]);
    ApplyCallSafe(s, SetRunning(false));
    var cs := [SetRunning(false)];
    assert cs[1..] == [];
    assert ApplyCalls(s, cs) == ApplyCalls(ApplyCall(s, cs[0]), cs[1..]);
  }
}
