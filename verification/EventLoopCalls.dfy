// What each call into the runtime does to watchers, timers, tasks and the log.
module EventLoopCalls {
  import opened TimerHeap
  import opened EventLoop
  import opened EventLoopSafety
  import opened EventLoopServes

  // ---------------------------------------------------------------------
  // Cancelling
  // ---------------------------------------------------------------------

  lemma {:induction false} RemovesWatchersOf(rt: Rt, id: TaskId, i: nat, x: Watcher)
    requires i <= |rt.watchers|
    ensures x in RemoveWatchers(rt, id, i).watchers <==>
      x in rt.watchers[..i] || (x in rt.watchers[i..] && x.task != id)
    decreases |rt.watchers|, |rt.watchers| - i
  {
    hide SwapRemove;
    if i < |rt.watchers| {
      var ws, w := rt.watchers, rt.watchers[i];
      assert ws[..i + 1] == ws[..i] + [w] && ws[i..] == [w] + ws[i + 1..];
      SwapMembers(ws, i, x);
      if w.task == id { RemovesWatchersOf(DropWatcher(rt, i), id, i, x); } else { RemovesWatchersOf(rt, id, i + 1, x); }
    }
  }

  lemma RemovesTimersOf(s: seq<Timer<TaskId>>, id: TaskId, x: Timer<TaskId>)
    requires IsHeap(s) && OncePerTask(s)
    ensures x in RemoveTask(s, id, 0) <==> x in s && x.task != id
  {
    var r := RemoveTask(s, id, 0);
    RemoveTaskComplete(s, id, 0);
    assert x in r <==> x in multiset(r);
    assert x in s <==> x in multiset(s);
    OccursOnce(s, x);
    if Holds(s, id) && x.task != id { assert x != TimerOf(s, id); }
    if Holds(s, id) && x.task == id && x in s {
      var t := TimerOf(s, id);
      var k :| 0 <= k < |s| && s[k] == x;
      var l :| 0 <= l < |s| && s[l] == t;
      assert k == l;
    }
  }

  /** A task that is cancelled: flags, queue and log. */
  ghost predicate CancelledNow(rt: Rt, r: Rt, id: TaskId)
    requires id in rt.tasks
  {
    var t := rt.tasks[id];
    && r.tasks == rt.tasks[id := Task(true, true, false, true)]
    && r.nextId == rt.nextId && r.running == rt.running && r.current == rt.current
    && r.queue == (if t.scheduled then rt.queue else rt.queue + [id])
    && r.log == rt.log + [Cancelled(id)] + (if t.finalized then [] else [Cleaned(id)])
  }

  /** Cancelling takes the task off every watcher and timer, cleans it up once and queues it to be freed. */
  lemma CancelDoes(rt: Rt, id: TaskId)
    requires InvBut(rt, {id}) && id in rt.tasks
    ensures var r := Cancel(rt, id);
      && CancelledNow(rt, r, id)
      && (forall w :: w in r.watchers <==> w in rt.watchers && w.task != id)
      && (forall t :: t in r.timers <==> t in rt.timers && t.task != id)
  {
    hide InvBut, RemoveTask;
    var flagged := CancelFlags(rt, id);
    RemoveWatchersKeepsTasks(flagged, id, 0);
    assert rt.watchers[0..] == rt.watchers && rt.watchers[..0] == [];
    forall w ensures w in RemoveWatchers(flagged, id, 0).watchers <==> w in rt.watchers && w.task != id {
      RemovesWatchersOf(flagged, id, 0, w);
    }
    HeapBut(rt, {id});
    forall t ensures t in RemoveTask(rt.timers, id, 0) <==> t in rt.timers && t.task != id { RemovesTimersOf(rt.timers, id, t); }
    assert rt.log + [Cancelled(id)] + [] == rt.log + [Cancelled(id)];
  }

  lemma HeapBut(rt: Rt, except: set<TaskId>)
    requires InvBut(rt, except)
    ensures IsHeap(rt.timers) && OncePerTask(rt.timers)
  {
  }

  // ---------------------------------------------------------------------
  // Watching
  // ---------------------------------------------------------------------

  /** No watcher is for exactly these events on fd. */
  predicate NoneExact(ws: seq<Watcher>, fd: int, events: set<Bit>) {
    forall w :: w in ws ==> w.fd != fd || w.events != events
  }

  lemma ExactFound(ws: seq<Watcher>, fd: int, events: set<Bit>)
    ensures FindExact(ws, fd, events) == |ws| <==> NoneExact(ws, fd, events)
  {
    var i := FindExact(ws, fd, events);
    if i < |ws| { assert ws[i] in ws; }
  }

  /** A watch the poller takes is added, for a new task. */
  lemma WatchAdds(rt: Rt, fd: int, events: set<Bit>, persistent: bool, backend: Backend)
    requires WatchersLive(rt) && NoneExact(rt.watchers, fd, events)
    requires events <= MaskOf(rt.watchers, fd) || backend.registers
    ensures var r, id := Watch(rt, fd, events, persistent, backend), rt.nextId;
      && r.watchers == rt.watchers + [Watcher(fd, events, persistent, id)] && r.nextId == id + 1
      && r.tasks == rt.tasks[id := Task(false, false, persistent, false)]
      && r.timers == rt.timers && r.queue == rt.queue && r.log == rt.log
  {
    hide MaskOf;
    ExactFound(rt.watchers, fd, events);
    assert MaskOf(rt.watchers, fd) + events == MaskOf(rt.watchers, fd) <==> events <= MaskOf(rt.watchers, fd);
  }

  /** One the poller refuses leaves watchers and timers alone; its task is cleaned up and freed at once. */
  lemma WatchRefused(rt: Rt, fd: int, events: set<Bit>, persistent: bool, backend: Backend)
    requires WatchersLive(rt) && NoneExact(rt.watchers, fd, events) && rt.nextId !in rt.tasks
    requires !(events <= MaskOf(rt.watchers, fd)) && !backend.registers
    ensures var r, id := Watch(rt, fd, events, persistent, backend), rt.nextId;
      && r.watchers == rt.watchers && r.timers == rt.timers && r.queue == rt.queue && r.tasks == rt.tasks
      && r.log == rt.log + [Cleaned(id), Freed(id)]
  {
    hide MaskOf;
    ExactFound(rt.watchers, fd, events);
    assert MaskOf(rt.watchers, fd) + events == MaskOf(rt.watchers, fd) <==> events <= MaskOf(rt.watchers, fd);
    var id := rt.nextId;
    assert rt.log + [Cleaned(id)] + [Freed(id)] == rt.log + [Cleaned(id), Freed(id)];
  }

  /** A watch for the same events on the same fd takes the place of the one before, whose task is cancelled. */
  lemma WatchReplaces(rt: Rt, fd: int, events: set<Bit>, persistent: bool, backend: Backend, before: Watcher)
    requires Inv(rt) && WatchersLive(rt) && before in rt.watchers && before.fd == fd && before.events == events
    requires forall w :: w in rt.watchers && w.fd == fd && w.events == events ==> w == before
    ensures var r, id := Watch(rt, fd, events, persistent, backend), rt.nextId;
      && r.nextId == id + 1 && id in r.tasks && r.tasks[id] == Task(false, false, persistent, false)
      && (forall w :: w in r.watchers <==> w == Watcher(fd, events, persistent, id) || (w in rt.watchers && w != before))
      && before.task in r.tasks && r.tasks[before.task] == Task(true, true, false, true) && before.task in r.queue
  {
    hide InvBut, Cancel, MaskOf;
    ExactFound(rt.watchers, fd, events);
    var i, id := FindExact(rt.watchers, fd, events), rt.nextId;
    assert rt.watchers[i] in rt.watchers;
    var created, w := Create(rt), Watcher(fd, events, persistent, rt.nextId);
    var s := created.(watchers := created.watchers[i := w]);
    var t := SetTask(s, id, s.tasks[id].(persistent := persistent));
    ReplaceSafe(rt, i, fd, events, persistent);
    CancelDoes(t, before.task);
    NewId(rt);
    CancelQueues(rt, t, before.task);
    forall x ensures x in t.watchers && x.task != before.task <==> x == w || (x in rt.watchers && x != before) {
      Replaced(rt, i, w, x);
    }
  }

  lemma NewId(rt: Rt)
    requires Inv(rt)
    ensures rt.nextId !in rt.tasks
  {
    CreateSafe(rt);
  }

  lemma CancelQueues(rt: Rt, t: Rt, id: TaskId)
    requires Inv(rt) && id in rt.tasks && id in t.tasks && t.tasks[id] == rt.tasks[id] && t.queue == rt.queue
    requires InvBut(t, {id})
    ensures id in Cancel(t, id).queue
  {
    CancelDoes(t, id);
    hide HoldersExact, IdsExact, TasksOk;
  }

  lemma Replaced(rt: Rt, i: nat, w: Watcher, x: Watcher)
    requires Inv(rt) && i < |rt.watchers| && w.task == rt.nextId
    ensures var before := rt.watchers[i];
      x in rt.watchers[i := w] && x.task != before.task <==> x == w || (x in rt.watchers && x != before)
  {
    hide QueueExact, TasksOk, IdsExact;
    var ws, next := rt.watchers, rt.watchers[i := w];
    NewId(rt);
    InvLive(rt, {});
    assert forall k :: 0 <= k < |ws| ==> next[k] == if k == i then w else ws[k];
    assert next[i] == w && ws[i].task != rt.nextId;
    if x in ws && x != ws[i] {
      var k :| 0 <= k < |ws| && ws[k] == x;
      assert next[k] == x;
    }
    if x in next && x != w { var k :| 0 <= k < |next| && next[k] == x; }
  }

  // ---------------------------------------------------------------------
  // Unwatching
  // ---------------------------------------------------------------------

  /** Unwatching a descriptor drops its watchers, all of them and no other, and cancels and queues their tasks. */
  lemma {:induction false} UnwatchLoopDoes(rt: Rt, fd: int, i: nat, x: Watcher)
    requires i <= |rt.watchers| && WatchersLive(rt)
    ensures var r := UnwatchLoop(rt, fd, i);
      && r.timers == rt.timers && r.tasks.Keys == rt.tasks.Keys
      && (x in r.watchers <==> x in rt.watchers[..i] || (x in rt.watchers[i..] && x.fd != fd))
      && (x in rt.watchers[i..] && x.fd == fd ==> r.tasks[x.task].cancelled && r.tasks[x.task].scheduled)
      && (forall id :: id in rt.tasks && rt.tasks[id].scheduled ==> r.tasks[id].scheduled)
      && (forall id :: id in rt.tasks && rt.tasks[id].cancelled ==> r.tasks[id].cancelled)
    decreases |rt.watchers|, |rt.watchers| - i
  {
    hide SwapRemove;
    if i < |rt.watchers| {
      var ws, w := rt.watchers, rt.watchers[i];
      assert ws[..i + 1] == ws[..i] + [w] && ws[i..] == [w] + ws[i + 1..];
      SwapMembers(ws, i, x);
      if w.fd == fd {
        var r := Schedule(CancelFlags(rt, w.task).(watchers := SwapRemove(ws, i)), w.task);
        CancelFlagsChanges(rt, w.task);
        SwapLive(rt, i);
        hide CancelFlags;
        UnwatchLoopDoes(r, fd, i, x);
      } else {
        UnwatchLoopDoes(rt, fd, i + 1, x);
      }
    }
  }

  lemma SwapLive(rt: Rt, i: nat)
    requires WatchersLive(rt) && i < |rt.watchers|
    ensures forall j :: 0 <= j < |rt.watchers| - 1 ==> SwapRemove(rt.watchers, i)[j].task in rt.tasks
  {
  }

  lemma UnwatchDoes(rt: Rt, fd: int)
    requires WatchersLive(rt)
    ensures var r := Unwatch(rt, fd);
      && r.timers == rt.timers
      && (forall w :: w in r.watchers <==> w in rt.watchers && w.fd != fd)
      && (forall w :: w in rt.watchers && w.fd == fd ==>
            w.task in r.tasks && r.tasks[w.task].cancelled && r.tasks[w.task].scheduled)
  {
    hide UnwatchLoop;
    var s := rt.(poller := Unregister(rt.poller, fd, {Read, Write}));
    assert s.watchers[0..] == s.watchers && s.watchers[..0] == [];
    forall w ensures
      var r := Unwatch(rt, fd);
      && r.timers == rt.timers && (w in r.watchers <==> w in rt.watchers && w.fd != fd)
      && (w in rt.watchers && w.fd == fd ==> w.task in r.tasks && r.tasks[w.task].cancelled && r.tasks[w.task].scheduled)
    {
      UnwatchLoopDoes(s, fd, 0, w);
    }
    UnwatchLoopDoes(s, fd, 0, Watcher(fd, {}, false, 0));
  }
}
