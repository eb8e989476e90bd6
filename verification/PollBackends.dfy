// The fairness cursors of two poller backends (modules/runtime/src/
// poller_backend/epoll.c and poll.c): when more is ready than one call may
// report, no descriptor that stays ready is passed over for long.
module PollBackends {

  /** A descriptor and what it is ready for. */
  datatype Ready = Ready(fd: int, events: nat)

  // ---------------------------------------------------------------------
  // epoll: the last descriptor reported
  // ---------------------------------------------------------------------

  predicate Ascending(s: seq<Ready>) { forall i, j :: 0 <= i < j < |s| ==> s[i].fd < s[j].fd }

  predicate DistinctFds(s: seq<Ready>) { forall i, j :: 0 <= i < j < |s| ==> s[i].fd != s[j].fd }

  function Insert(s: seq<Ready>, r: Ready): (t: seq<Ready>)
    ensures |t| == |s| + 1 && forall x :: x in t <==> x == r || x in s
  {
    if s == [] || r.fd <= s[0].fd then [r] + s else [s[0]] + Insert(s[1..], r)
  }

  /** Sorted by descriptor, standing for qsort. */
  function SortByFd(s: seq<Ready>): (t: seq<Ready>)
    ensures |t| == |s| && forall x :: x in t <==> x in s
  {
    if s == [] then [] else Insert(SortByFd(s[1..]), s[0])
  }

  lemma {:induction false} InsertAscends(s: seq<Ready>, r: Ready)
    requires Ascending(s) && forall x :: x in s ==> x.fd != r.fd
    ensures Ascending(Insert(s, r))
  {
    if s != [] && r.fd > s[0].fd {
      InsertAscends(s[1..], r);
      var t := Insert(s[1..], r);
      forall j | 0 <= j < |t| ensures s[0].fd < t[j].fd { assert t[j] in t; }
    }
  }

  lemma {:induction false} SortAscends(s: seq<Ready>)
    requires DistinctFds(s)
    ensures Ascending(SortByFd(s))
  {
    if s != [] {
      SortAscends(s[1..]);
      InsertAscends(SortByFd(s[1..]), s[0]);
    }
  }

  /** How many of the sorted descriptors are not past the cursor. */
  function StartAfter(s: seq<Ready>, cursor: int): (n: nat)
    ensures n <= |s| && (forall i :: 0 <= i < n ==> s[i].fd <= cursor) && (n < |s| ==> s[n].fd > cursor)
  {
    if s == [] || s[0].fd > cursor then 0 else 1 + StartAfter(s[1..], cursor)
  }

  /** The k-th place from start, going round. */
  function Around(start: nat, k: nat, n: nat): (i: nat)
    requires 0 < n && start <= n && k < n
    ensures i < n
  {
    if start + k < n then start + k else start + k - n
  }

  lemma AroundIsMod(start: nat, k: nat, n: nat)
    requires 0 < n && start <= n && k < n
    ensures (start + k) % n == Around(start, k, n)
  {
    var a := start + k;
    if a >= n { ModOnce(a - n, n); } else { ModOnce(a, n); }
    assert a >= n ==> a % n == (a - n) % n;
  }

  lemma ModOnce(a: nat, n: nat)
    requires a < n
    ensures a % n == a
  {
  }

  function EpollReport(ready: seq<Ready>, max: nat, cursor: int): seq<Ready> {
    if |ready| <= max then ready
    else
      var s := SortByFd(ready);
      var start := StartAfter(s, cursor);
      seq(max, k requires 0 <= k < max => s[Around(start, k, |s|)])
  }

  function EpollCursor(ready: seq<Ready>, max: nat, cursor: int): int
    requires max > 0
  {
    if |ready| <= max then cursor else EpollReport(ready, max, cursor)[max - 1].fd
  }

  class EpollBackend {
    var scanFd: int

    constructor ()
      ensures scanFd == -1
    {
      scanFd := -1;
    }

    /** ready is what the kernel reports, cut to what each descriptor is watched for. */
    method Wait(ready: seq<Ready>, max: nat) returns (events: seq<Ready>)
      requires max > 0
      modifies this
      ensures events == EpollReport(ready, max, old(scanFd))
      ensures scanFd == EpollCursor(ready, max, old(scanFd))
    {
      if |ready| <= max { return ready; }
      var s := SortByFd(ready);
      var start := FindStart(s, scanFd);
      hide SortByFd, Around, StartAfter;
      events := [];
      for k := 0 to max
        invariant scanFd == old(scanFd) && |events| == k && forall j :: 0 <= j < k ==> events[j] == s[Around(start, j, |s|)]
      {
        AroundIsMod(start, k, |s|);
        events := events + [s[(start + k) % |s|]];
      }
      scanFd := events[max - 1].fd;
    }
  }

  method FindStart(s: seq<Ready>, cursor: int) returns (start: nat)
    ensures start == StartAfter(s, cursor)
  {
    start := 0;
    while start < |s| && s[start].fd <= cursor
      invariant start <= |s| && StartAfter(s, cursor) == start + StartAfter(s[start..], cursor)
    {
      assert s[start..][1..] == s[start + 1..];
      start := start + 1;
    }
  }

  /** Descriptors below n strictly between the cursor and fd, going up and round. */
  function Distance(cursor: int, fd: int, n: nat): int {
    if fd > cursor then fd - cursor - 1 else fd - cursor - 1 + n
  }

  lemma {:induction false} AscendingGap(s: seq<Ready>, i: nat, j: nat)
    requires Ascending(s) && i <= j < |s|
    ensures s[j].fd - s[i].fd >= j - i
    decreases j
  {
    if i < j { AscendingGap(s, i, j - 1); }
  }

  lemma MulNext(t: nat, max: nat)
    ensures (t + 1) * max == t * max + max
  {
  }

  predicate InRange(ready: seq<Ready>, n: nat) { forall r :: r in ready ==> 0 <= r.fd < n }

  predicate Reports(events: seq<Ready>, fd: int) { exists r :: r in events && r.fd == fd }

  /** A call that passes over a ready descriptor gets at least max descriptors closer to it. */
  lemma EpollCloser(ready: seq<Ready>, max: nat, cursor: int, fd: int, n: nat)
    requires 0 < max && DistinctFds(ready) && InRange(ready, n) && -1 <= cursor < n
    requires Reports(ready, fd) && !Reports(EpollReport(ready, max, cursor), fd)
    ensures var next := EpollCursor(ready, max, cursor);
      0 <= next < n && Distance(next, fd, n) + max <= Distance(cursor, fd, n)
  {
    var s := SortByFd(ready);
    SortAscends(ready);
    hide SortByFd, StartAfter, Around, EpollReport, EpollCursor;
    var r :| r in ready && r.fd == fd;
    assert r in s;
    var j :| 0 <= j < |s| && s[j] == r;
    var start := StartAfter(s, cursor);
    Extremes(s, ready, n);
    AroundBack(start, j, |s|);
    var k := if j >= start then j - start else |s| - start + j;
    if k < max { ReportHas(ready, max, cursor, k); }
    assert |ready| > max by { if |ready| <= max { ReportsAll(ready, max, cursor); } }
    EpollCursorIs(ready, max, cursor);
    GoneRound(s, start, Around(start, max - 1, |s|), j, max, cursor, n);
  }

  lemma ReportsAll(ready: seq<Ready>, max: nat, cursor: int)
    requires |ready| <= max
    ensures EpollReport(ready, max, cursor) == ready
  {
  }

  lemma AroundBack(start: nat, j: nat, n: nat)
    requires start <= n && j < n
    ensures Around(start, if j >= start then j - start else n - start + j, n) == j
  {
  }

  lemma ReportHas(ready: seq<Ready>, max: nat, cursor: int, k: nat)
    requires k < max < |ready|
    ensures var s := SortByFd(ready);
      s[Around(StartAfter(s, cursor), k, |s|)] in EpollReport(ready, max, cursor)
  {
    hide SortByFd, StartAfter, Around;
    var events := EpollReport(ready, max, cursor);
    assert events[k] in events;
  }

  lemma EpollCursorIs(ready: seq<Ready>, max: nat, cursor: int)
    requires 0 < max < |ready|
    ensures var s := SortByFd(ready);
      EpollCursor(ready, max, cursor) == s[Around(StartAfter(s, cursor), max - 1, |s|)].fd
  {
    hide SortByFd, StartAfter, Around;
  }

  /** The arithmetic of going round: places start to last are reported, place j is not. */
  lemma GoneRound(s: seq<Ready>, start: nat, last: nat, j: nat, max: nat, cursor: int, n: nat)
    requires Ascending(s) && start <= |s| && j < |s| && 0 < max < |s| && last == Around(start, max - 1, |s|)
    requires start == StartAfter(s, cursor) && -1 <= cursor < n && 0 <= s[0].fd && s[|s| - 1].fd < n
    requires max <= if j >= start then j - start else |s| - start + j
    ensures last < |s| && 0 <= s[last].fd < n && Distance(s[last].fd, s[j].fd, n) + max <= Distance(cursor, s[j].fd, n)
  {
    AscendingGap(s, 0, last);
    AscendingGap(s, last, |s| - 1);
    assert (start < |s| ==> s[start].fd > cursor) && (j < start ==> s[j].fd <= cursor);
    if j >= start {
      AscendingGap(s, start, last);
      AscendingGap(s, last, j);
    } else if start + max - 1 < |s| {
      hide StartAfter, Ascending;
      AscendingGap(s, start, last);
      AscendingGap(s, j, last);
    } else {
      hide StartAfter, Ascending;
      AscendingGap(s, last, j);
      if start < |s| { AscendingGap(s, start, |s| - 1); }
    }
  }

  lemma Extremes(s: seq<Ready>, ready: seq<Ready>, n: nat)
    requires InRange(ready, n) && forall x :: x in s <==> x in ready
    ensures s != [] ==> 0 <= s[0].fd && s[|s| - 1].fd < n
  {
    if s != [] { assert s[0] in s && s[|s| - 1] in s; }
  }

  /** One call: what is ready and how many may be reported. */
  datatype Call = Call(ready: seq<Ready>, max: nat)

  function EpollCursorAfter(calls: seq<Call>, cursor: int): int
    requires forall c :: c in calls ==> c.max > 0
  {
    if calls == [] then cursor
    else
      var c := calls[|calls| - 1];
      EpollCursor(c.ready, c.max, EpollCursorAfter(calls[..|calls| - 1], cursor))
  }

  /** The t-th call of a history reports fd. */
  predicate EpollReported(calls: seq<Call>, cursor: int, t: nat, fd: int)
    requires t < |calls| && forall c :: c in calls ==> c.max > 0
  {
    Reports(EpollReport(calls[t].ready, calls[t].max, EpollCursorAfter(calls[..t], cursor)), fd)
  }

  lemma {:induction false} EpollDistance(calls: seq<Call>, cursor: int, fd: int, n: nat, max: nat)
    requires 0 < max && -1 <= cursor < n && 0 <= fd < n
    requires forall c :: c in calls ==> c.max == max && DistinctFds(c.ready) && InRange(c.ready, n) && Reports(c.ready, fd)
    requires forall t :: 0 <= t < |calls| ==> !EpollReported(calls, cursor, t, fd)
    ensures var now := EpollCursorAfter(calls, cursor);
      -1 <= now < n && Distance(now, fd, n) + |calls| * max <= Distance(cursor, fd, n)
  {
    hide EpollReport, EpollCursor, Reports, Distance, DistinctFds, InRange;
    if calls != [] {
      var t := |calls| - 1;
      var before := calls[..t];
      forall u | 0 <= u < t ensures !EpollReported(before, cursor, u, fd) {
        assert before[..u] == calls[..u];
        assert !EpollReported(calls, cursor, u, fd);
      }
      EpollDistance(before, cursor, fd, n, max);
      assert !EpollReported(calls, cursor, t, fd);
      EpollCloser(calls[t].ready, max, EpollCursorAfter(before, cursor), fd, n);
      MulNext(t, max);
    }
  }

  /**
    * With descriptors below n, one that is ready on every call is reported
    * within n / max calls, rounded up, whatever else comes and goes.
    */
  lemma EpollFair(calls: seq<Call>, cursor: int, fd: int, n: nat, max: nat)
    requires 0 < max && -1 <= cursor < n && 0 <= fd < n && |calls| * max >= n
    requires forall c :: c in calls ==> c.max == max && DistinctFds(c.ready) && InRange(c.ready, n) && Reports(c.ready, fd)
    ensures exists t :: 0 <= t < |calls| && EpollReported(calls, cursor, t, fd)
  {
    if forall t :: 0 <= t < |calls| ==> !EpollReported(calls, cursor, t, fd) {
      EpollDistance(calls, cursor, fd, n, max);
    }
  }

  // ---------------------------------------------------------------------
  // poll: the place in the table
  // ---------------------------------------------------------------------

  /** Which entries are ready, and for what; 0 is not ready. */
  type Table = seq<nat>

  datatype Scan = Scan(reported: seq<nat>, seen: nat)

  /** The places reported, from start round the table, until max are found. */
  function PollScan(table: Table, start: nat, max: nat, seen: nat): (s: Scan)
    requires seen <= |table| && start < |table|
    ensures seen <= s.seen <= |table|
    decreases |table| - seen
  {
    if seen == |table| || max == 0 then Scan([], seen)
    else
      var i := Around(start, seen, |table|);
      if table[i] == 0 then PollScan(table, start, max, seen + 1)
      else
        var rest := PollScan(table, start, max - 1, seen + 1);
        rest.(reported := [i] + rest.reported)
  }

  function PollCursor(table: Table, cursor: nat, max: nat): nat
    requires |table| > 0
  {
    (cursor % |table| + PollScan(table, cursor % |table|, max, 0).seen) % |table|
  }

  function PollReport(table: Table, cursor: nat, max: nat): seq<nat>
    requires |table| > 0
  {
    PollScan(table, cursor % |table|, max, 0).reported
  }

  class PollBackend {
    var scanCursor: nat

    constructor ()
      ensures scanCursor == 0
    {
      scanCursor := 0;
    }

    method Wait(table: Table, max: nat) returns (places: seq<nat>)
      modifies this
      ensures table == [] || (forall i :: 0 <= i < |table| ==> table[i] == 0) ==>
        places == [] && scanCursor == old(scanCursor)
      ensures table != [] && (exists i :: 0 <= i < |table| && table[i] != 0) ==>
        places == PollReport(table, old(scanCursor), max) && scanCursor == PollCursor(table, old(scanCursor), max)
    {
      places := [];
      if |table| == 0 || forall i :: 0 <= i < |table| ==> table[i] == 0 { return; }
      hide Around;
      var start := scanCursor % |table|;
      var seen := 0;
      ghost var all := PollScan(table, start, max, 0);
      while seen < |table| && |places| < max
        invariant 0 <= seen <= |table| && |places| <= max
        invariant scanCursor == old(scanCursor)
        invariant var rest := PollScan(table, start, max - |places|, seen);
          all == Scan(places + rest.reported, rest.seen)
        decreases |table| - seen
      {
        AroundIsMod(start, seen, |table|);
        var i := (start + seen) % |table|;
        seen := seen + 1;
        if table[i] != 0 { places := places + [i]; }
      }
      scanCursor := (start + seen) % |table|;
    }
  }

  /** The entry at distance k from the start is examined or max others are reported before it. */
  lemma {:induction false} ScanReaches(table: Table, start: nat, max: nat, seen: nat, k: nat)
    requires start < |table| && seen <= k < |table| && table[Around(start, k, |table|)] != 0
    ensures var s := PollScan(table, start, max, seen);
      Around(start, k, |table|) in s.reported || (s.seen <= k && s.seen >= seen + max)
    decreases |table| - seen
  {
    if max > 0 {
      var i := Around(start, seen, |table|);
      if table[i] == 0 {
        ScanReaches(table, start, max, seen + 1, k);
      } else if seen < k {
        ScanReaches(table, start, max - 1, seen + 1, k);
      }
    }
  }

  /** How many entries are examined before place i. */
  function Ahead(cursor: nat, i: nat, n: nat): (k: nat)
    requires cursor < n && i < n
    ensures k < n
  {
    if i >= cursor then i - cursor else i - cursor + n
  }

  lemma PollCloser(table: Table, cursor: nat, max: nat, i: nat)
    requires i < |table| && table[i] != 0 && i !in PollReport(table, cursor, max)
    ensures cursor % |table| < |table|
    ensures var next := PollCursor(table, cursor, max);
      next < |table| && Ahead(next, i, |table|) + max <= Ahead(cursor % |table|, i, |table|)
  {
    var start := cursor % |table|;
    var k := Ahead(start, i, |table|);
    assert Around(start, k, |table|) == i;
    ScanReaches(table, start, max, 0, k);
    var seen := PollScan(table, start, max, 0).seen;
    AroundIsMod(start, seen, |table|);
  }

  function PollCursorAfter(tables: seq<Table>, cursor: nat, max: nat): nat
    requires forall t :: t in tables ==> |t| > 0
  {
    if tables == [] then cursor
    else PollCursor(tables[|tables| - 1], PollCursorAfter(tables[..|tables| - 1], cursor, max), max)
  }

  predicate PollReported(tables: seq<Table>, cursor: nat, max: nat, t: nat, i: nat)
    requires t < |tables| && forall x :: x in tables ==> |x| > 0
  {
    i in PollReport(tables[t], PollCursorAfter(tables[..t], cursor, max), max)
  }

  lemma {:induction false} PollDistance(tables: seq<Table>, cursor: nat, max: nat, i: nat, n: nat)
    requires i < n && forall t :: t in tables ==> |t| == n && t[i] != 0
    requires forall t :: 0 <= t < |tables| ==> !PollReported(tables, cursor, max, t, i)
    ensures var now := PollCursorAfter(tables, cursor, max);
      now % n < n && cursor % n < n && Ahead(now % n, i, n) + |tables| * max <= Ahead(cursor % n, i, n)
  {
    hide PollReport, PollCursor, Ahead;
    if tables != [] {
      var t := |tables| - 1;
      var before := tables[..t];
      forall u | 0 <= u < t ensures !PollReported(before, cursor, max, u, i) {
        assert before[..u] == tables[..u];
        assert !PollReported(tables, cursor, max, u, i);
      }
      PollDistance(before, cursor, max, i, n);
      assert !PollReported(tables, cursor, max, t, i);
      PollCloser(tables[t], PollCursorAfter(before, cursor, max), max, i);
      ModOnce(PollCursorAfter(tables, cursor, max), n);
      MulNext(t, max);
    }
  }

  /**
    * In a table of n entries that does not change, an entry that stays ready is
    * reported within n / max calls, rounded up, wherever the cursor was left.
    */
  lemma PollFair(tables: seq<Table>, cursor: nat, max: nat, i: nat, n: nat)
    requires i < n && |tables| * max >= n && forall t :: t in tables ==> |t| == n && t[i] != 0
    ensures exists t :: 0 <= t < |tables| && PollReported(tables, cursor, max, t, i)
  {
    if forall t :: 0 <= t < |tables| ==> !PollReported(tables, cursor, max, t, i) {
      PollDistance(tables, cursor, max, i, n);
    }
  }

  // ---------------------------------------------------------------------
  // What is reported
  // ---------------------------------------------------------------------

  lemma AroundTwice(start: nat, j: nat, k: nat, n: nat)
    requires 0 < n && start <= n && j < k < n
    ensures Around(start, j, n) != Around(start, k, n)
  {
  }

  /** A call reports as many of the ready descriptors as it may, with what they are ready for, and none twice. */
  lemma EpollReports(ready: seq<Ready>, max: nat, cursor: int)
    requires DistinctFds(ready)
    ensures var out := EpollReport(ready, max, cursor);
      && |out| == (if |ready| <= max then |ready| else max)
      && (forall r :: r in out ==> r in ready) && DistinctFds(out)
  {
    if |ready| > max {
      var s := SortByFd(ready);
      var start := StartAfter(s, cursor);
      SortAscends(ready);
      hide SortByFd, StartAfter, Around;
      forall j, k | 0 <= j < k < max ensures s[Around(start, j, |s|)].fd != s[Around(start, k, |s|)].fd {
        AroundTwice(start, j, k, |s|);
      }
    }
  }

  function ReadyCount(table: Table, start: nat, seen: nat): nat
    requires seen <= |table| && start < |table|
    decreases |table| - seen
  {
    if seen == |table| then 0 else (if table[Around(start, seen, |table|)] != 0 then 1 else 0) + ReadyCount(table, start, seen + 1)
  }

  lemma {:induction false} ScanReports(table: Table, start: nat, max: nat, seen: nat)
    requires seen <= |table| && start < |table|
    ensures var out := PollScan(table, start, max, seen).reported;
      && |out| == (if ReadyCount(table, start, seen) <= max then ReadyCount(table, start, seen) else max)
      && (forall i :: i in out ==> i < |table| && table[i] != 0 && exists k :: seen <= k < |table| && i == Around(start, k, |table|))
      && (forall j, k :: 0 <= j < k < |out| ==> out[j] != out[k])
    decreases |table| - seen
  {
    hide Around;
    if seen < |table| && max > 0 {
      var i := Around(start, seen, |table|);
      if table[i] == 0 {
        ScanReports(table, start, max, seen + 1);
      } else {
        ScanReports(table, start, max - 1, seen + 1);
        var rest := PollScan(table, start, max - 1, seen + 1).reported;
        forall x | x in rest ensures x != i {
          var k :| seen + 1 <= k < |table| && x == Around(start, k, |table|);
          AroundTwice(start, seen, k, |table|);
        }
        var out := [i] + rest;
        forall j, k | 0 <= j < k < |out| ensures out[j] != out[k] { assert out[k] == rest[k - 1] && rest[k - 1] in rest; }
      }
    }
  }

  /** A call reports ready entries only, none twice, and as many as are ready or as it may. */
  lemma PollReports(table: Table, cursor: nat, max: nat)
    requires |table| > 0
    ensures cursor % |table| < |table|
    ensures var out, ready := PollReport(table, cursor, max), ReadyCount(table, cursor % |table|, 0);
      && |out| == (if ready <= max then ready else max)
      && (forall i :: i in out ==> i < |table| && table[i] != 0)
      && (forall j, k :: 0 <= j < k < |out| ==> out[j] != out[k])
  {
    ScanReports(table, cursor % |table|, max, 0);
  }
}
