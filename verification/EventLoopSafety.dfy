// Who owns a task: over every run of the event loop a task is queued at most
// once, held at most once, cleaned up once and freed once.
module EventLoopSafety {
  import opened Arithmetic
  import opened TimerHeap
  import opened EventLoop

  // ---------------------------------------------------------------------
  // Ownership
  // ---------------------------------------------------------------------

  function WatchTasks(ws: seq<Watcher>): set<TaskId> { set i | 0 <= i < |ws| :: ws[i].task }
  function WatchKeeps(ws: seq<Watcher>): set<TaskId> { set i | 0 <= i < |ws| && ws[i].persistent :: ws[i].task }
  function TimerTasks(ts: seq<Timer<TaskId>>): set<TaskId> { set t | t in ts :: t.task }
  function TimerKeeps(ts: seq<Timer<TaskId>>): set<TaskId> { set t | t in ts && t.repeating :: t.task }

  /** Tasks a watcher or timer refers to. */
  function Held(rt: Rt): set<TaskId> { WatchTasks(rt.watchers) + TimerTasks(rt.timers) }

  /** Tasks a persistent watcher or repeating timer refers to. */
  function Kept(rt: Rt): set<TaskId> { WatchKeeps(rt.watchers) + TimerKeeps(rt.timers) }

  ghost predicate NoDuplicates<X>(s: seq<X>) { forall i, j :: 0 <= i < j < |s| ==> s[i] != s[j] }

  ghost predicate OneWatchEach(ws: seq<Watcher>) {
    forall i, j :: 0 <= i < j < |ws| ==> ws[i].task != ws[j].task
  }

  ghost predicate QueueExact(rt: Rt) {
    NoDuplicates(rt.queue) && forall id :: id in rt.queue <==> id in rt.tasks && rt.tasks[id].scheduled
  }

  ghost predicate HoldersExact(rt: Rt) {
    OneWatchEach(rt.watchers) && OncePerTask(rt.timers) && WatchTasks(rt.watchers) !! TimerTasks(rt.timers)
    && Held(rt) <= rt.tasks.Keys && IsHeap(rt.timers)
  }

  ghost predicate IdsExact(rt: Rt) {
    (forall id :: id in rt.tasks ==> id < rt.nextId) && rt.current <= rt.tasks.Keys
  }

  /** The flags of a task say who will free it. */
  ghost predicate FlagsOk(t: Task, held: bool, kept: bool, current: bool) {
    && (t.persistent <==> kept)
    && (held && !t.persistent ==> !t.scheduled && !current)
    && (t.cancelled <==> t.finalized)
    && (t.cancelled ==> !held && (t.scheduled || current))
    && (t.scheduled || held || current)
  }

  ghost predicate TaskOk(rt: Rt, id: TaskId)
    requires id in rt.tasks
  {
    FlagsOk(rt.tasks[id], id in Held(rt), id in Kept(rt), id in rt.current)
  }

  ghost predicate TasksOk(rt: Rt, except: set<TaskId>) {
    forall id :: id in rt.tasks && id !in except ==> TaskOk(rt, id)
  }

  /** The invariant, with the tasks in `except` in transition. */
  ghost predicate InvBut(rt: Rt, except: set<TaskId>) {
    QueueExact(rt) && HoldersExact(rt) && IdsExact(rt) && TasksOk(rt, except)
  }

  ghost predicate Inv(rt: Rt) { InvBut(rt, {}) }

  // ---------------------------------------------------------------------
  // Primitive steps
  // ---------------------------------------------------------------------

  /** b is a with only the flags in `except` and the log changed. */
  ghost predicate SameBut(a: Rt, b: Rt, except: set<TaskId>) {
    && b == a.(tasks := b.tasks, log := b.log)
    && a.tasks.Keys == b.tasks.Keys
    && (forall id :: id in a.tasks && id !in except ==> a.tasks[id] == b.tasks[id])
    && (forall id :: id in a.tasks ==> a.tasks[id].scheduled == b.tasks[id].scheduled)
  }

  lemma SameButSafe(a: Rt, b: Rt, changed: set<TaskId>, except: set<TaskId>)
    requires InvBut(a, except) && SameBut(a, b, changed)
    ensures InvBut(b, except + changed)
  {
    assert QueueExact(b) by { hide HoldersExact, TasksOk, IdsExact; }
    assert HoldersExact(b) by { hide QueueExact, TasksOk, IdsExact; }
    assert IdsExact(b) by { hide QueueExact, TasksOk, HoldersExact; }
    assert TasksOk(b, except + changed) by { hide QueueExact, IdsExact, HoldersExact, FlagsOk; }
  }

  lemma FinalizeChanges(rt: Rt, id: TaskId)
    requires id in rt.tasks
    ensures SameBut(rt, Finalize(rt, id), {id})
    ensures Finalize(rt, id).tasks[id] == rt.tasks[id].(finalized := true)
  {
  }

  lemma CancelFlagsChanges(rt: Rt, id: TaskId)
    requires id in rt.tasks
    ensures SameBut(rt, CancelFlags(rt, id), {id})
    ensures CancelFlags(rt, id).tasks[id] == rt.tasks[id].(cancelled := true, persistent := false, finalized := true)
  {
  }

  lemma CreateSafe(rt: Rt)
    requires Inv(rt)
    ensures InvBut(Create(rt), {rt.nextId})
    ensures rt.nextId !in rt.tasks && rt.nextId !in Held(rt) && rt.nextId !in rt.current
  {
    var r := Create(rt);
    assert QueueExact(r) by { hide HoldersExact, TasksOk; }
    assert HoldersExact(r) by { hide QueueExact, TasksOk, IdsExact; }
    assert TasksOk(r, {rt.nextId}) by { hide QueueExact, HoldersExact, FlagsOk, IdsExact; }
  }

  lemma NoDuplicatesSnoc<X>(s: seq<X>, x: X)
    requires NoDuplicates(s) && x !in s
    ensures NoDuplicates(s + [x])
  {
  }

  lemma ScheduleSafe(rt: Rt, id: TaskId, except: set<TaskId>)
    requires InvBut(rt, except) && id in rt.tasks
    ensures InvBut(Schedule(rt, id), except + {id})
  {
    var r := Schedule(rt, id);
    assert QueueExact(r) by {
      hide HoldersExact, TasksOk, IdsExact;
      if !rt.tasks[id].scheduled { NoDuplicatesSnoc(rt.queue, id); }
    }
    assert HoldersExact(r) by { hide QueueExact, TasksOk, IdsExact; }
    assert TasksOk(r, except + {id}) by { hide QueueExact, IdsExact, HoldersExact, FlagsOk; }
  }

  /** Freeing a task nothing refers to. */
  lemma DestroySafe(rt: Rt, id: TaskId)
    requires InvBut(rt, {id}) && id in rt.tasks && !rt.tasks[id].scheduled && id !in Held(rt)
    ensures Inv(Destroy(rt, id).(current := rt.current - {id}))
  {
    var r := Destroy(rt, id).(current := rt.current - {id});
    assert QueueExact(r) by { hide HoldersExact, TasksOk, IdsExact; }
    assert HoldersExact(r) by { hide QueueExact, TasksOk, IdsExact; }
    assert IdsExact(r) by { hide QueueExact, TasksOk, HoldersExact; }
    assert TasksOk(r, {}) by { hide QueueExact, IdsExact, HoldersExact, FlagsOk; }
  }

  lemma SwapRemoveWatchers(ws: seq<Watcher>, i: nat)
    requires i < |ws| && OneWatchEach(ws)
    ensures var r := SwapRemove(ws, i);
      OneWatchEach(r) && WatchTasks(r) == WatchTasks(ws) - {ws[i].task} && WatchKeeps(r) == WatchKeeps(ws) - {ws[i].task}
  {
    var r := SwapRemove(ws, i);
    var n := |ws| - 1;
    assert forall j :: 0 <= j < n ==> r[j] == if j == i then ws[n] else ws[j];
    forall id | id in WatchTasks(ws) && id != ws[i].task ensures id in WatchTasks(r) {
      var j :| 0 <= j < |ws| && ws[j].task == id;
      assert r[if j == n then i else j].task == id;
    }
    forall id | id in WatchKeeps(ws) && id != ws[i].task ensures id in WatchKeeps(r) {
      var j :| 0 <= j < |ws| && ws[j].persistent && ws[j].task == id;
      assert r[if j == n then i else j].task == id;
    }
  }

  /** Replacing the holders: everything else about the invariant stays. */
  lemma HoldersChangeSafe(a: Rt, b: Rt, changed: set<TaskId>, except: set<TaskId>)
    requires InvBut(a, except) && HoldersExact(b)
    requires b == a.(watchers := b.watchers, timers := b.timers, poller := b.poller)
    requires Held(a) - changed == Held(b) - changed && Kept(a) - changed == Kept(b) - changed
    ensures InvBut(b, except + changed)
  {
    assert TasksOk(b, except + changed) by {
      hide QueueExact, IdsExact, HoldersExact, FlagsOk, Held, Kept;
      forall id | id in b.tasks && id !in except + changed ensures TaskOk(b, id) {
        assert id in Held(a) <==> id in Held(a) - changed;
        assert id in Held(b) <==> id in Held(b) - changed;
        assert id in Kept(a) <==> id in Kept(a) - changed;
        assert id in Kept(b) <==> id in Kept(b) - changed;
        assert TaskOk(a, id);
      }
    }
  }

  lemma DropWatcherSafe(rt: Rt, i: nat, except: set<TaskId>)
    requires InvBut(rt, except) && i < |rt.watchers|
    ensures var id := rt.watchers[i].task;
      InvBut(DropWatcher(rt, i), except + {id})
      && Held(DropWatcher(rt, i)) == Held(rt) - {id} && Kept(DropWatcher(rt, i)) == Kept(rt) - {id}
  {
    hide QueueExact, IdsExact, TasksOk, SwapRemove;
    SwapRemoveWatchers(rt.watchers, i);
    var r := DropWatcher(rt, i);
    var id := rt.watchers[i].task;
    assert id in WatchTasks(rt.watchers);
    assert id !in TimerKeeps(rt.timers) by { assert TimerKeeps(rt.timers) <= TimerTasks(rt.timers); }
    HoldersChangeSafe(rt, r, {id}, except);
  }

  // ---------------------------------------------------------------------
  // Timers on the heap
  // ---------------------------------------------------------------------

  lemma TwoOccurrences<X>(s: seq<X>, i: nat, j: nat)
    requires i < j < |s| && s[i] == s[j]
    ensures multiset(s)[s[i]] >= 2
  {
    assert s == s[..j] + s[j..];
    assert s[..j][i] == s[i] && s[j..][0] == s[j];
  }

  lemma TwoPositions<X>(s: seq<X>, x: X) returns (k: nat, l: nat)
    requires multiset(s)[x] >= 2
    ensures k < l < |s| && s[k] == x && s[l] == x
  {
    var before, after := Extract(s, x);
    assert x in multiset(before + after);
    var m :| 0 <= m < |before + after| && (before + after)[m] == x;
    var n := |before|;
    assert s == before + ([x] + after);
    k, l := if m < n then m else n, if m < n then n else m + 1;
  }

  lemma OccursOnce(s: seq<Timer<TaskId>>, t: Timer<TaskId>)
    requires OncePerTask(s)
    ensures multiset(s)[t] <= 1
  {
    if multiset(s)[t] >= 2 {
      var k, l := TwoPositions(s, t);
    }
  }

  /** Fewer timers: still one per task. */
  lemma OncePerTaskShrinks(a: seq<Timer<TaskId>>, b: seq<Timer<TaskId>>)
    requires OncePerTask(b) && multiset(a) <= multiset(b)
    ensures OncePerTask(a)
  {
    forall i, j | 0 <= i < j < |a| ensures a[i].task != a[j].task {
      assert a[i] in multiset(b) && a[j] in multiset(b);
      var k :| 0 <= k < |b| && b[k] == a[i];
      var l :| 0 <= l < |b| && b[l] == a[j];
      if a[i].task == a[j].task {
        assert k == l;
        TwoOccurrences(a, i, j);
        OccursOnce(b, a[i]);
      }
    }
  }

  lemma SameMembers<X>(a: seq<X>, b: seq<X>, x: X)
    requires multiset(a) == multiset(b)
    ensures x in a <==> x in b
  {
    assert x in a <==> x in multiset(a);
    assert x in b <==> x in multiset(b);
  }

  lemma SameTimers(a: seq<Timer<TaskId>>, b: seq<Timer<TaskId>>)
    requires multiset(a) == multiset(b)
    ensures TimerTasks(a) == TimerTasks(b) && TimerKeeps(a) == TimerKeeps(b)
    ensures OncePerTask(a) <==> OncePerTask(b)
  {
    forall t: Timer<TaskId> ensures t in a <==> t in b { SameMembers(a, b, t); }
    if OncePerTask(b) { OncePerTaskShrinks(a, b); }
    if OncePerTask(a) { OncePerTaskShrinks(b, a); }
  }

  /** The timers without the one at i. */
  lemma TimersWithout(s: seq<Timer<TaskId>>, before: seq<Timer<TaskId>>, t: Timer<TaskId>, after: seq<Timer<TaskId>>)
    requires OncePerTask(s) && s == before + [t] + after
    ensures var r := before + after;
      OncePerTask(r) && TimerTasks(r) == TimerTasks(s) - {t.task} && TimerKeeps(r) == TimerKeeps(s) - {t.task}
  {
    var r := before + after;
    var n := |before|;
    assert forall k :: 0 <= k < |r| ==> r[k] == s[if k < n then k else k + 1];
    assert s[n] == t;
    forall u | u in s && u != t ensures u in r && u.task != t.task {
      var k :| 0 <= k < |s| && s[k] == u;
      assert k != n;
      assert r[if k < n then k else k - 1] == u;
    }
    forall u | u in r ensures u in s && u.task != t.task {
      var k :| 0 <= k < |r| && r[k] == u;
      assert s[if k < n then k else k + 1] == u;
    }
  }

  lemma TimersRemoved(s: seq<Timer<TaskId>>, id: TaskId)
    requires OncePerTask(s) && IsHeap(s)
    ensures var r := RemoveTask(s, id, 0);
      IsHeap(r) && OncePerTask(r) && TimerTasks(r) == TimerTasks(s) - {id} && TimerKeeps(r) == TimerKeeps(s) - {id}
  {
    var r := RemoveTask(s, id, 0);
    RemoveTaskComplete(s, id, 0);
    if Holds(s, id) {
      var t := TimerOf(s, id);
      var before, after := Extract(s, t);
      TimersWithout(s, before, t, after);
      SameTimers(r, before + after);
    } else {
      assert id !in TimerTasks(s);
      SameTimers(r, s);
    }
  }

  lemma TimersPushed(s: seq<Timer<TaskId>>, t: Timer<TaskId>)
    requires OncePerTask(s) && IsHeap(s) && t.task !in TimerTasks(s)
    ensures var r := Push(s, t);
      IsHeap(r) && OncePerTask(r) && TimerTasks(r) == TimerTasks(s) + {t.task}
      && TimerKeeps(r) == TimerKeeps(s) + (if t.repeating then {t.task} else {})
  {
    PushHeap(s, t);
    assert multiset(s + [t]) == multiset(s) + multiset{t};
    SameTimers(Push(s, t), s + [t]);
    assert forall u :: u in s + [t] <==> u in s || u == t;
    assert OncePerTask(s + [t]) by {
      forall i | 0 <= i < |s| ensures s[i].task != t.task { assert s[i] in s; }
    }
  }

  lemma TimersFired(s: seq<Timer<TaskId>>, now: Clock)
    requires OncePerTask(s) && IsHeap(s) && s != []
    ensures var r := FireTop(s, now); var id := s[0].task;
      IsHeap(r) && OncePerTask(r)
      && TimerTasks(r) == (if s[0].repeating then TimerTasks(s) else TimerTasks(s) - {id})
      && TimerKeeps(r) == (if s[0].repeating then TimerKeeps(s) else TimerKeeps(s) - {id})
  {
    hide FireTop;
    var t := s[0];
    FireTopHeap(s, now);
    FireTopContents(s, now);
    assert s == [] + [t] + s[1..];
    TimersWithout(s, [], t, s[1..]);
    assert [] + s[1..] == s[1..];
    if t.repeating {
      var again := Rearmed(t, now);
      var r := s[1..] + [again];
      assert multiset(r) == multiset(s[1..]) + multiset{again};
      SameTimers(FireTop(s, now), r);
      assert forall u :: u in r <==> u in s[1..] || u == again;
      assert t in s;
      assert OncePerTask(r) by {
        forall i | 0 <= i < |s[1..]| ensures s[1..][i].task != t.task { assert s[1..][i] == s[i + 1]; }
      }
    } else {
      SameTimers(FireTop(s, now), s[1..]);
    }
  }

  // ---------------------------------------------------------------------
  // Operations
  // ---------------------------------------------------------------------

  lemma {:induction false} RemoveWatchersSafe(rt: Rt, id: TaskId, i: nat, except: set<TaskId>)
    requires InvBut(rt, except) && i <= |rt.watchers| && id in except
    requires forall j :: 0 <= j < i ==> rt.watchers[j].task != id
    ensures var r := RemoveWatchers(rt, id, i);
      InvBut(r, except) && id !in WatchTasks(r.watchers)
    decreases |rt.watchers|, |rt.watchers| - i
  {
    hide InvBut;
    if i < |rt.watchers| {
      if rt.watchers[i].task == id {
        DropWatcherSafe(rt, i, except);
        assert except + {id} == except;
        RemoveWatchersSafe(DropWatcher(rt, i), id, i, except);
      } else {
        RemoveWatchersSafe(rt, id, i + 1, except);
      }
    }
  }

  lemma DropTimersSafe(rt: Rt, id: TaskId)
    requires InvBut(rt, {id}) && id !in WatchTasks(rt.watchers)
    ensures var r := rt.(timers := RemoveTask(rt.timers, id, 0));
      InvBut(r, {id}) && id !in Held(r) && id !in Kept(r)
  {
    hide QueueExact, IdsExact, TasksOk;
    var r := rt.(timers := RemoveTask(rt.timers, id, 0));
    TimersRemoved(rt.timers, id);
    assert WatchKeeps(rt.watchers) <= WatchTasks(rt.watchers);
    HoldersChangeSafe(rt, r, {id}, {id});
    assert {id} + {id} == {id};
  }

  /** Cancelling puts a task, whatever its state, back under the invariant. */
  lemma CancelSafe(rt: Rt, id: TaskId)
    requires InvBut(rt, {id}) && id in rt.tasks
    ensures Inv(Cancel(rt, id)) && Cancel(rt, id).tasks.Keys == rt.tasks.Keys
    ensures Cancel(rt, id).tasks[id].cancelled && Cancel(rt, id).current == rt.current
  {
    var flagged := CancelFlags(rt, id);
    CancelFlagsChanges(rt, id);
    SameButSafe(rt, flagged, {id}, {id});
    assert {id} + {id} == {id};
    RemoveWatchersSafe(flagged, id, 0, {id});
    RemoveWatchersKeepsTasks(flagged, id, 0);
    var unwatched := RemoveWatchers(flagged, id, 0);
    DropTimersSafe(unwatched, id);
    var r := unwatched.(timers := RemoveTask(unwatched.timers, id, 0));
    ScheduleSafe(r, id, {id});
    Settled(Schedule(r, id), id);
  }

  /** Once the task in transition is in order, the invariant holds. */
  lemma Settled(rt: Rt, id: TaskId)
    requires InvBut(rt, {id}) && (id in rt.tasks ==> TaskOk(rt, id))
    ensures Inv(rt)
  {
    assert TasksOk(rt, {}) by { hide QueueExact, HoldersExact, IdsExact, TaskOk; }
  }

  lemma SettledBut(rt: Rt, id: TaskId, except: set<TaskId>)
    requires InvBut(rt, except + {id}) && (id in rt.tasks ==> TaskOk(rt, id))
    ensures InvBut(rt, except)
  {
    assert TasksOk(rt, except) by { hide QueueExact, HoldersExact, IdsExact, TaskOk; }
  }

  lemma ReplaceWatcher(ws: seq<Watcher>, i: nat, w: Watcher)
    requires i < |ws| && OneWatchEach(ws) && w.task !in WatchTasks(ws)
    ensures var r := ws[i := w];
      OneWatchEach(r) && WatchTasks(r) == WatchTasks(ws) - {ws[i].task} + {w.task}
      && WatchKeeps(r) == WatchKeeps(ws) - {ws[i].task} + (if w.persistent then {w.task} else {})
  {
    var r := ws[i := w];
    assert forall j :: 0 <= j < |ws| ==> ws[j].task in WatchTasks(ws);
    forall id | id in WatchTasks(ws) && id != ws[i].task ensures id in WatchTasks(r) {
      var j :| 0 <= j < |ws| && ws[j].task == id;
      assert r[j].task == id;
    }
    forall id | id in WatchKeeps(ws) && id != ws[i].task ensures id in WatchKeeps(r) {
      var j :| 0 <= j < |ws| && ws[j].persistent && ws[j].task == id;
      assert r[j].task == id;
    }
    assert r[i] == w;
  }

  lemma AddWatcher(ws: seq<Watcher>, w: Watcher)
    requires OneWatchEach(ws) && w.task !in WatchTasks(ws)
    ensures var r := ws + [w];
      OneWatchEach(r) && WatchTasks(r) == WatchTasks(ws) + {w.task}
      && WatchKeeps(r) == WatchKeeps(ws) + (if w.persistent then {w.task} else {})
  {
    var r := ws + [w];
    assert forall j :: 0 <= j < |ws| ==> ws[j].task in WatchTasks(ws) && r[j] == ws[j];
    assert r[|ws|] == w;
  }

  /** A new watcher takes the place of one for the same fd and mask. */
  lemma ReplaceHolders(rt: Rt, i: nat, w: Watcher)
    requires InvBut(rt, {w.task}) && i < |rt.watchers| && w.task in rt.tasks && w.task !in Held(rt)
    ensures var previous := rt.watchers[i].task;
      var s := rt.(watchers := rt.watchers[i := w]);
      InvBut(s, {previous} + {w.task}) && w.task in Held(s) && (w.task in Kept(s) <==> w.persistent)
  {
    hide QueueExact, TasksOk, IdsExact;
    var previous := rt.watchers[i].task;
    var s := rt.(watchers := rt.watchers[i := w]);
    ReplaceWatcher(rt.watchers, i, w);
    assert TimerKeeps(rt.timers) <= TimerTasks(rt.timers) && WatchKeeps(rt.watchers) <= WatchTasks(rt.watchers);
    assert previous in WatchTasks(rt.watchers);
    HoldersChangeSafe(rt, s, {previous, w.task}, {w.task});
    assert {w.task} + {previous, w.task} == {previous} + {w.task};
  }

  lemma ReplaceSafe(rt: Rt, i: nat, fd: int, events: set<Bit>, persistent: bool)
    requires Inv(rt) && i < |rt.watchers|
    ensures var id := rt.nextId;
      var r := Create(rt);
      var s := r.(watchers := r.watchers[i := Watcher(fd, events, persistent, id)]);
      InvBut(SetTask(s, id, s.tasks[id].(persistent := persistent)), {rt.watchers[i].task})
      && rt.watchers[i].task in rt.tasks
  {
    hide QueueExact, HoldersExact, TasksOk, IdsExact;
    var id, w := rt.nextId, Watcher(fd, events, persistent, rt.nextId);
    var previous := rt.watchers[i].task;
    InvLive(rt, {});
    CreateSafe(rt);
    var r := Create(rt);
    ReplaceHolders(r, i, w);
    var s := r.(watchers := r.watchers[i := w]);
    var t := SetTask(s, id, s.tasks[id].(persistent := persistent));
    SameButSafe(s, t, {id}, {previous} + {id});
    assert {previous} + {id} + {id} == {previous} + {id};
    SettledBut(t, id, {previous});
  }

  /** A new watcher beside the others. */
  lemma AppendSafe(rt: Rt, fd: int, events: set<Bit>, persistent: bool, poller: map<int, set<Bit>>)
    requires Inv(rt)
    ensures var id := rt.nextId;
      var r := Create(rt);
      Inv(SetTask(r, id, r.tasks[id].(persistent := persistent))
          .(poller := poller, watchers := r.watchers + [Watcher(fd, events, persistent, id)]))
  {
    var id, w := rt.nextId, Watcher(fd, events, persistent, rt.nextId);
    CreateSafe(rt);
    var r := Create(rt);
    var s := SetTask(r, id, r.tasks[id].(persistent := persistent));
    SameButSafe(r, s, {id}, {id});
    assert {id} + {id} == {id};
    AddWatcher(s.watchers, w);
    var t := s.(poller := poller, watchers := s.watchers + [w]);
    HoldersChangeSafe(s, t, {id}, {id}) by { hide QueueExact, TasksOk, IdsExact; }
    Settled(t, id);
  }

  lemma PollerSafe(rt: Rt, poller: map<int, set<Bit>>, except: set<TaskId>)
    requires InvBut(rt, except)
    ensures InvBut(rt.(poller := poller), except)
  {
    HoldersChangeSafe(rt, rt.(poller := poller), {}, except);
    assert except + {} == except;
  }

  /** Watching never disturbs ownership, whatever the poller backend answers. */
  lemma WatchSafe(rt: Rt, fd: int, events: set<Bit>, persistent: bool, backend: Backend)
    requires Inv(rt) && WatchersLive(rt)
    ensures Inv(Watch(rt, fd, events, persistent, backend))
  {
    var id := rt.nextId;
    var r := Create(rt);
    var i := FindExact(r.watchers, fd, events);
    if i < |r.watchers| {
      ReplaceSafe(rt, i, fd, events, persistent);
      var s := r.(watchers := r.watchers[i := Watcher(fd, events, persistent, id)]);
      CancelSafe(SetTask(s, id, s.tasks[id].(persistent := persistent)), r.watchers[i].task);
    } else {
      var (poller, ok) := ExtendRegistration(r.poller, r.watchers, fd, events, backend);
      if ok {
        AppendSafe(rt, fd, events, persistent, poller);
      } else {
        CreateSafe(rt);
        PollerSafe(r, poller, {id});
        var s := r.(poller := poller);
        DestroySafe(s, id);
        assert s.current - {id} == s.current;
      }
    }
  }

  lemma InvLive(rt: Rt, except: set<TaskId>)
    requires InvBut(rt, except)
    ensures WatchersLive(rt) && TimersLive(rt)
  {
    hide QueueExact, TasksOk, IdsExact;
    forall i | 0 <= i < |rt.watchers| ensures rt.watchers[i].task in rt.tasks {
      assert rt.watchers[i].task in Held(rt);
    }
    forall t | t in rt.timers ensures t.task in rt.tasks { assert t.task in Held(rt); }
  }

  lemma UnwatchOneSafe(rt: Rt, i: nat)
    requires Inv(rt) && i < |rt.watchers| && WatchersLive(rt)
    ensures var id := rt.watchers[i].task;
      var r := CancelFlags(rt, id).(watchers := SwapRemove(rt.watchers, i));
      id in r.tasks && Inv(Schedule(r, id)) && WatchersLive(Schedule(r, id))
  {
    hide SwapRemove;
    var id := rt.watchers[i].task;
    var flagged := CancelFlags(rt, id);
    CancelFlagsChanges(rt, id);
    SameButSafe(rt, flagged, {id}, {});
    assert {} + {id} == {id};
    SwapRemoveWatchers(rt.watchers, i);
    var r := flagged.(watchers := SwapRemove(rt.watchers, i));
    assert id in WatchTasks(rt.watchers) && TimerKeeps(rt.timers) <= TimerTasks(rt.timers);
    HoldersChangeSafe(flagged, r, {id}, {id}) by { hide QueueExact, TasksOk, IdsExact; }
    ScheduleSafe(r, id, {id});
    Settled(Schedule(r, id), id);
    InvLive(Schedule(r, id), {});
  }

  lemma {:induction false} UnwatchLoopSafe(rt: Rt, fd: int, i: nat)
    requires Inv(rt) && WatchersLive(rt) && i <= |rt.watchers|
    ensures Inv(UnwatchLoop(rt, fd, i))
    decreases |rt.watchers|, |rt.watchers| - i
  {
    hide Inv, Schedule, CancelFlags;
    if i < |rt.watchers| {
      if rt.watchers[i].fd == fd {
        var id := rt.watchers[i].task;
        UnwatchOneSafe(rt, i);
        var r := CancelFlags(rt, id).(watchers := SwapRemove(rt.watchers, i));
        ScheduleKeepsHolders(r, id);
        UnwatchLoopSafe(Schedule(r, id), fd, i);
      } else {
        UnwatchLoopSafe(rt, fd, i + 1);
      }
    }
  }

  lemma ScheduleKeepsHolders(rt: Rt, id: TaskId)
    requires id in rt.tasks
    ensures Schedule(rt, id).watchers == rt.watchers && Schedule(rt, id).timers == rt.timers
    ensures Schedule(rt, id).tasks.Keys == rt.tasks.Keys && Schedule(rt, id).current == rt.current
  {
  }

  lemma UnwatchSafe(rt: Rt, fd: int)
    requires Inv(rt) && WatchersLive(rt)
    ensures Inv(Unwatch(rt, fd))
  {
    hide QueueExact, HoldersExact, IdsExact, TasksOk;
    PollerSafe(rt, Unregister(rt.poller, fd, {Read, Write}), {});
    UnwatchLoopSafe(rt.(poller := Unregister(rt.poller, fd, {Read, Write})), fd, 0);
  }

  lemma AddTimerSafe(rt: Rt, now: Clock, ms: nat, repeating: bool)
    requires Inv(rt)
    ensures Inv(AddTimer(rt, now, ms, repeating))
  {
    hide Push;
    var id := rt.nextId;
    CreateSafe(rt);
    var r := Create(rt);
    var s := SetTask(r, id, r.tasks[id].(persistent := repeating));
    SameButSafe(r, s, {id}, {id});
    assert {id} + {id} == {id};
    var t := Timer((now + ms) % MODULUS_64, ms, repeating, id);
    TimersPushed(s.timers, t);
    var u := s.(timers := Push(s.timers, t));
    HoldersChangeSafe(s, u, {id}, {id}) by { hide QueueExact, TasksOk, IdsExact; }
    Settled(u, id);
  }

  lemma FireStepSafe(rt: Rt, now: Clock)
    requires Inv(rt) && TimersLive(rt) && rt.timers != []
    ensures Inv(FireStep(rt, now))
  {
    hide FireTop;
    var top := rt.timers[0];
    var id := top.task;
    assert top in rt.timers && id in Held(rt) && TaskOk(rt, id);
    assert id in Kept(rt) <==> top.repeating by {
      assert WatchKeeps(rt.watchers) <= WatchTasks(rt.watchers) && id in TimerTasks(rt.timers);
    }
    ScheduleSafe(rt, id, {});
    assert {} + {id} == {id};
    var s := Schedule(rt, id);
    ScheduleKeepsHolders(rt, id);
    TimersFired(rt.timers, now);
    var r := s.(timers := FireTop(s.timers, now));
    HoldersChangeSafe(s, r, {id}, {id}) by { hide QueueExact, TasksOk, IdsExact; }
    Settled(r, id);
  }

  lemma {:induction false} UpdateTimersSafe(rt: Rt, now: Clock)
    requires Inv(rt) && TimersLive(rt)
    ensures Inv(UpdateTimers(rt, now))
    decreases |Due(rt.timers, now)|
  {
    hide Inv, Schedule, Due;
    if rt.timers != [] && rt.timers[0].fire <= now {
      FireTopDue(rt.timers, now);
      FireStepLive(rt, now);
      FireStepSafe(rt, now);
      UpdateTimersSafe(FireStep(rt, now), now);
    }
  }

  lemma DispatchOneSafe(rt: Rt, j: nat)
    requires Inv(rt) && WatchersLive(rt) && j < |rt.watchers|
    ensures var w := rt.watchers[j];
      var r := Schedule(rt, w.task);
      WatchersLive(r) && Inv(if w.persistent then r else DropWatcher(r, j))
  {
    var w := rt.watchers[j];
    var id := w.task;
    assert id in Held(rt) && TaskOk(rt, id) && id in WatchTasks(rt.watchers);
    assert id in Kept(rt) <==> w.persistent by { assert TimerKeeps(rt.timers) <= TimerTasks(rt.timers); }
    ScheduleSafe(rt, id, {});
    assert {} + {id} == {id} && {id} + {id} == {id};
    var r := Schedule(rt, id);
    if w.persistent {
      Settled(r, id);
    } else {
      DropWatcherSafe(r, j, {id});
      Settled(DropWatcher(r, j), id);
    }
  }

  lemma {:induction false} DispatchSafe(rt: Rt, fd: int, events: set<Bit>, j: nat)
    requires Inv(rt) && WatchersLive(rt) && j <= |rt.watchers|
    ensures Inv(Dispatch(rt, fd, events, j))
    decreases |rt.watchers|, |rt.watchers| - j
  {
    hide Inv, Schedule;
    if j < |rt.watchers| {
      var w := rt.watchers[j];
      if w.fd == fd && w.events * events != {} {
        DispatchOneSafe(rt, j);
        var r := Schedule(rt, w.task);
        ScheduleKeepsHolders(rt, w.task);
        if w.persistent { DispatchSafe(r, fd, events, j + 1); } else { DispatchSafe(DropWatcher(r, j), fd, events, j); }
      } else {
        DispatchSafe(rt, fd, events, j + 1);
      }
    }
  }

  lemma {:induction false} DispatchAllSafe(rt: Rt, ready: seq<(int, set<Bit>)>)
    requires Inv(rt) && WatchersLive(rt)
    ensures Inv(DispatchAll(rt, ready))
    decreases |ready|
  {
    hide Inv;
    if ready != [] {
      DispatchLive(rt, ready[0].0, ready[0].1, 0);
      DispatchSafe(rt, ready[0].0, ready[0].1, 0);
      DispatchAllSafe(Dispatch(rt, ready[0].0, ready[0].1, 0), ready[1..]);
    }
  }
}
