// The binary min-heap of timers (modules/runtime/src/timer_heap.c) and the loop
// that fires due timers (modules/runtime/src/runtime.c).
module TimerHeap {
  import opened Arithmetic

  datatype Timer<T> = Timer(fire: nat, interval: nat, repeating: bool, task: T)

  // ---------------------------------------------------------------------
  // The heap operations as functions on the occupied part of the array
  // ---------------------------------------------------------------------

  function Parent(i: nat): nat
    requires i > 0
  {
    (i - 1) / 2
  }

  function Swapped<X>(s: seq<X>, a: nat, b: nat): (r: seq<X>)
    requires a < |s| && b < |s|
  {
    s[a := s[b]][b := s[a]]
  }

  function SiftUp<T>(s: seq<Timer<T>>, i: nat): (r: seq<Timer<T>>)
    requires i < |s|
    ensures |r| == |s|
    decreases i
  {
    if i > 0 && s[Parent(i)].fire > s[i].fire then SiftUp(Swapped(s, i, Parent(i)), Parent(i)) else s
  }

  /** The child (or i itself) that sift-down would bring up to i. */
  function Smallest<T>(s: seq<Timer<T>>, i: nat): (k: nat)
    requires i < |s|
    ensures k < |s| && (k == i || k == 2 * i + 1 || k == 2 * i + 2)
    ensures s[k].fire <= s[i].fire
    ensures k != i ==> s[k].fire < s[i].fire
    ensures 2 * i + 1 < |s| ==> s[k].fire <= s[2 * i + 1].fire
    ensures 2 * i + 2 < |s| ==> s[k].fire <= s[2 * i + 2].fire
  {
    var left, right := 2 * i + 1, 2 * i + 2;
    var k := if left < |s| && s[left].fire < s[i].fire then left else i;
    if right < |s| && s[right].fire < s[k].fire then right else k
  }

  function SiftDown<T>(s: seq<Timer<T>>, i: nat): (r: seq<Timer<T>>)
    requires i < |s|
    ensures |r| == |s|
    decreases |s| - i
  {
    var k := Smallest(s, i);
    if k == i then s else SiftDown(Swapped(s, i, k), k)
  }

  function Push<T>(s: seq<Timer<T>>, t: Timer<T>): seq<Timer<T>> {
    SiftUp(s + [t], |s|)
  }

  function RemoveAt<T>(s: seq<Timer<T>>, i: nat): (r: seq<Timer<T>>)
    requires i < |s|
    ensures |r| == |s| - 1
  {
    var n := |s| - 1;
    if i == n then s[..n] else SiftUp(SiftDown(s[..n][i := s[n]], i), i)
  }

  function RescheduleTop<T>(s: seq<Timer<T>>, fire: nat): (r: seq<Timer<T>>)
    requires s != []
    ensures |r| == |s|
  {
    SiftDown(s[0 := s[0].(fire := fire)], 0)
  }

  function RemoveTask<T(==)>(s: seq<Timer<T>>, task: T, i: nat): seq<Timer<T>>
    requires i <= |s|
    decreases |s|, |s| - i
  {
    if i == |s| then s
    else if s[i].task == task then RemoveTask(RemoveAt(s, i), task, i)
    else RemoveTask(s, task, i + 1)
  }

  /** No timer fires before its parent. */
  ghost predicate IsHeap<T>(s: seq<Timer<T>>) {
    forall i :: 0 < i < |s| ==> s[Parent(i)].fire <= s[i].fire
  }

  // ---------------------------------------------------------------------
  // Order and contents
  // ---------------------------------------------------------------------

  lemma {:induction false} SiftUpContents<T>(s: seq<Timer<T>>, i: nat)
    requires i < |s|
    ensures multiset(SiftUp(s, i)) == multiset(s)
    decreases i
  {
    if i > 0 && s[Parent(i)].fire > s[i].fire { SiftUpContents(Swapped(s, i, Parent(i)), Parent(i)); }
  }

  lemma {:induction false} SiftDownContents<T>(s: seq<Timer<T>>, i: nat)
    requires i < |s|
    ensures multiset(SiftDown(s, i)) == multiset(s)
    decreases |s| - i
  {
    var k := Smallest(s, i);
    if k != i { SiftDownContents(Swapped(s, i, k), k); }
  }

  /** A heap except that i may be smaller than its parent. */
  ghost predicate HeapBelow<T>(s: seq<Timer<T>>, i: nat) {
    && (forall j :: 0 < j < |s| && j != i ==> s[Parent(j)].fire <= s[j].fire)
    && (i > 0 && i < |s| ==> forall j :: 0 < j < |s| && Parent(j) == i ==> s[Parent(i)].fire <= s[j].fire)
  }

  /** A heap except that i may be larger than its children. */
  ghost predicate HeapAbove<T>(s: seq<Timer<T>>, i: nat) {
    && (forall j :: 0 < j < |s| && Parent(j) != i ==> s[Parent(j)].fire <= s[j].fire)
    && (i > 0 && i < |s| ==> forall j :: 0 < j < |s| && Parent(j) == i ==> s[Parent(i)].fire <= s[j].fire)
  }

  lemma {:induction false} SiftUpHeap<T>(s: seq<Timer<T>>, i: nat)
    requires i < |s| && HeapBelow(s, i)
    ensures IsHeap(SiftUp(s, i))
    decreases i
  {
    if i > 0 && s[Parent(i)].fire > s[i].fire {
      var p := Parent(i);
      var t := Swapped(s, i, p);
      forall j | 0 < j < |t| && j != p ensures t[Parent(j)].fire <= t[j].fire {
        if Parent(j) == p && p > 0 { assert s[Parent(p)].fire <= s[p].fire; }
      }
      if p > 0 {
        forall j | 0 < j < |t| && Parent(j) == p ensures t[Parent(p)].fire <= t[j].fire {
          assert s[Parent(p)].fire <= s[p].fire <= s[j].fire || j == i;
        }
      }
      SiftUpHeap(t, p);
    }
  }

  /** After the swap, every timer but k's children is in order with its parent. */
  lemma SwapDownOrder<T>(s: seq<Timer<T>>, i: nat, k: nat, j: nat)
    requires i < |s| && HeapAbove(s, i) && k == Smallest(s, i) && k != i
    requires 0 < j < |s| && Parent(j) != k
    ensures Swapped(s, i, k)[Parent(j)].fire <= Swapped(s, i, k)[j].fire
  {
    if Parent(j) == i {
      assert j == 2 * i + 1 || j == 2 * i + 2;
    } else if j == i {
      assert Parent(k) == i;
      assert s[Parent(i)].fire <= s[k].fire;
    } else {
      assert s[Parent(j)].fire <= s[j].fire;
    }
  }

  lemma SwapDown<T>(s: seq<Timer<T>>, i: nat, k: nat)
    requires i < |s| && HeapAbove(s, i) && k == Smallest(s, i) && k != i
    ensures HeapAbove(Swapped(s, i, k), k)
  {
    var t := Swapped(s, i, k);
    assert Parent(k) == i;
    forall j | 0 < j < |t| && Parent(j) != k ensures t[Parent(j)].fire <= t[j].fire {
      SwapDownOrder(s, i, k, j);
    }
    forall j | 0 < j < |t| && Parent(j) == k ensures t[Parent(k)].fire <= t[j].fire {
      assert s[k].fire <= s[j].fire;
      assert t[i] == s[k] && t[j] == s[j];
    }
  }

  lemma {:induction false} SiftDownHeap<T>(s: seq<Timer<T>>, i: nat)
    requires i < |s| && HeapAbove(s, i)
    ensures IsHeap(SiftDown(s, i))
    decreases |s| - i
  {
    var k := Smallest(s, i);
    if k == i {
      forall j | 0 < j < |s| ensures s[Parent(j)].fire <= s[j].fire {
        if Parent(j) == i { assert j == 2 * i + 1 || j == 2 * i + 2; }
      }
    } else {
      hide HeapAbove;
      SwapDown(s, i, k);
      SiftDownHeap(Swapped(s, i, k), k);
    }
  }

  lemma PushHeap<T>(s: seq<Timer<T>>, t: Timer<T>)
    requires IsHeap(s)
    ensures IsHeap(Push(s, t)) && multiset(Push(s, t)) == multiset(s) + multiset{t}
  {
    SiftUpHeap(s + [t], |s|);
    SiftUpContents(s + [t], |s|);
  }

  lemma RemoveAtContents<T>(s: seq<Timer<T>>, i: nat)
    requires i < |s|
    ensures multiset(RemoveAt(s, i)) == multiset(s) - multiset{s[i]}
  {
    var n := |s| - 1;
    var r := s[..n];
    assert s == r + [s[n]];
    if i < n {
      var t := r[i := s[n]];
      assert multiset(t) == multiset(r) - multiset{s[i]} + multiset{s[n]};
      SiftDownContents(t, i);
      SiftUpContents(SiftDown(t, i), i);
    }
  }

  /** The last timer, put in place of timer i, belongs above or below i; one sift moves it. */
  lemma RemoveAtHeap<T>(s: seq<Timer<T>>, i: nat)
    requires IsHeap(s) && i < |s|
    ensures IsHeap(RemoveAt(s, i))
  {
    var n := |s| - 1;
    if i < n {
      var t := s[..n][i := s[n]];
      forall j | 0 < j < n && j != i && Parent(j) != i ensures t[Parent(j)].fire <= t[j].fire {
        assert s[Parent(j)].fire <= s[j].fire;
      }
      forall j | 0 < j < n && Parent(j) == i && i > 0 ensures t[Parent(i)].fire <= t[j].fire {
        assert s[Parent(i)].fire <= s[i].fire <= s[j].fire;
      }
      if i > 0 && t[i].fire < t[Parent(i)].fire {
        StaysPut(t, i);
        SiftUpHeap(t, i);
      } else {
        SiftDownHeap(t, i);
      }
    }
  }

  lemma StaysPut<T>(t: seq<Timer<T>>, i: nat)
    requires i < |t|
    requires forall j :: 0 < j < |t| && Parent(j) == i ==> t[i].fire <= t[j].fire
    ensures SiftDown(t, i) == t
  {
    assert 2 * i + 1 < |t| ==> Parent(2 * i + 1) == i;
    assert 2 * i + 2 < |t| ==> Parent(2 * i + 2) == i;
  }

  lemma RescheduleTopHeap<T>(s: seq<Timer<T>>, fire: nat)
    requires IsHeap(s) && s != []
    ensures IsHeap(RescheduleTop(s, fire))
    ensures multiset(RescheduleTop(s, fire)) == multiset(s) - multiset{s[0]} + multiset{s[0].(fire := fire)}
  {
    var t := s[0 := s[0].(fire := fire)];
    SiftDownHeap(t, 0);
    SiftDownContents(t, 0);
  }

  /** The root fires first. */
  lemma {:induction false} RootIsEarliest<T>(s: seq<Timer<T>>, i: nat)
    requires IsHeap(s) && i < |s|
    ensures s[0].fire <= s[i].fire
  {
    if i > 0 { RootIsEarliest(s, Parent(i)); }
  }

  // ---------------------------------------------------------------------
  // Removing the timers of a task
  // ---------------------------------------------------------------------

  predicate Holds<T(==)>(s: seq<Timer<T>>, task: T) {
    exists i :: 0 <= i < |s| && s[i].task == task
  }

  /** Every task is on at most one timer, as the runtime ensures. */
  ghost predicate OncePerTask<T>(s: seq<Timer<T>>) {
    forall i, j :: 0 <= i < j < |s| ==> s[i].task != s[j].task
  }

  lemma {:induction false} RemoveNothing<T>(s: seq<Timer<T>>, task: T, i: nat)
    requires i <= |s| && !Holds(s, task)
    ensures RemoveTask(s, task, i) == s
    decreases |s| - i
  {
    if i < |s| { RemoveNothing(s, task, i + 1); }
  }

  lemma OnceAfterRemoval<T>(s: seq<Timer<T>>, i: nat)
    requires i < |s| && forall j :: 0 <= j < |s| && j != i ==> s[j].task != s[i].task
    ensures !Holds(RemoveAt(s, i), s[i].task)
  {
    hide RemoveAt;
    var r := RemoveAt(s, i);
    RemoveAtContents(s, i);
    var others := s[..i] + s[i + 1..];
    assert s == s[..i] + [s[i]] + s[i + 1..];
    assert multiset(r) == multiset(others);
    forall j | 0 <= j < |r| ensures r[j].task != s[i].task {
      assert r[j] in multiset(others);
      var k :| 0 <= k < |others| && others[k] == r[j];
      assert others[k] == if k < i then s[k] else s[k + 1];
    }
  }

  /** A task that occurs at most once is removed, and nothing else is. */
  lemma {:induction false} RemoveTaskComplete<T>(s: seq<Timer<T>>, task: T, i: nat)
    requires i <= |s| && IsHeap(s)
    requires forall j :: 0 <= j < i ==> s[j].task != task
    requires forall j, k :: 0 <= j < k < |s| && s[j].task == task ==> s[k].task != task
    ensures var r := RemoveTask(s, task, i);
      IsHeap(r) && !Holds(r, task)
      && multiset(r) == (if Holds(s, task) then multiset(s) - multiset{TimerOf(s, task)} else multiset(s))
    decreases |s| - i
  {
    if i < |s| {
      if s[i].task == task {
        OnceAfterRemoval(s, i);
        RemoveAtHeap(s, i);
        RemoveAtContents(s, i);
        RemoveNothing(RemoveAt(s, i), task, i);
        assert TimerOf(s, task) == s[i];
      } else {
        RemoveTaskComplete(s, task, i + 1);
      }
    }
  }

  ghost function TimerOf<T>(s: seq<Timer<T>>, task: T): (t: Timer<T>)
    requires Holds(s, task)
    ensures t in s && t.task == task
  {
    var i :| 0 <= i < |s| && s[i].task == task;
    s[i]
  }

  /** With a repeated task the moved timer can be sifted above the scan and missed. */
  lemma RepeatedTaskIsMissed<T>(s: seq<Timer<T>>, task: T)
    requires |s| == 6 && IsHeap(s)
    requires forall i :: 0 <= i < 6 ==> (s[i].task == task <==> i == 3 || i == 5)
    requires s[5].fire < s[1].fire
    ensures Holds(RemoveTask(s, task, 0), task)
  {
    var r := s[..5][3 := s[5]];
    assert Smallest(r, 3) == 3;
    assert SiftDown(r, 3) == r;
    var t := Swapped(r, 3, 1);
    assert s[Parent(5)].fire <= s[5].fire && s[Parent(2)].fire <= s[2].fire;
    assert SiftUp(t, 1) == t;
    assert RemoveAt(s, 3) == t;
    assert RemoveTask(t, task, 5) == t;
    assert RemoveTask(t, task, 4) == t;
    assert RemoveTask(t, task, 3) == t;
    assert RemoveTask(s, task, 3) == t;
    assert RemoveTask(s, task, 2) == t;
    assert RemoveTask(s, task, 1) == t;
    assert t[1].task == task;
  }

  lemma RepeatedTaskExample()
    ensures var s := [Timer(1, 0, false, 'a'), Timer(10, 0, false, 'b'), Timer(2, 0, false, 'c'),
                      Timer(11, 0, false, 'x'), Timer(12, 0, false, 'd'), Timer(3, 0, false, 'x')];
      IsHeap(s) && Holds(RemoveTask(s, 'x', 0), 'x')
  {
    hide IsHeap;
    var s := [Timer(1, 0, false, 'a'), Timer(10, 0, false, 'b'), Timer(2, 0, false, 'c'),
              Timer(11, 0, false, 'x'), Timer(12, 0, false, 'd'), Timer(3, 0, false, 'x')];
    HeapOfSix(s);
    RepeatedTaskIsMissed(s, 'x');
  }

  lemma HeapOfSix<T>(s: seq<Timer<T>>)
    requires |s| == 6
    requires s[0].fire <= s[1].fire && s[0].fire <= s[2].fire
    requires s[1].fire <= s[3].fire && s[1].fire <= s[4].fire && s[2].fire <= s[5].fire
    ensures IsHeap(s)
  {
    forall i | 0 < i < |s| ensures s[Parent(i)].fire <= s[i].fire {
      assert Parent(i) == if i <= 2 then 0 else if i <= 4 then 1 else 2;
    }
  }

  // ---------------------------------------------------------------------
  // Firing
  // ---------------------------------------------------------------------


  /** A reading of the millisecond clock before its last value, at which a repeating timer would be due for ever. */
  type Clock = t: nat | t < MODULUS_64 - 1

  /** Next deadline of a repeating timer, in 64 bits: now + interval, or one past now if that wraps or is now. */
  function NextFire(now: nat, interval: nat): (next: nat)
    requires now < MODULUS_64
    ensures next > now <==> now < MODULUS_64 - 1
    ensures 0 < interval && now + interval < MODULUS_64 ==> next == now + interval
  {
    var sum := (now + interval) % MODULUS_64;
    if sum <= now then (now + 1) % MODULUS_64 else sum
  }

  /** At the clock's last value the loop over due timers would not end: a repeating timer stays due. */
  lemma LastClockStaysDue(interval: nat)
    ensures NextFire(MODULUS_64 - 1, interval) <= MODULUS_64 - 1
  {
  }

  function Rearmed<T>(t: Timer<T>, now: Clock): Timer<T> { t.(fire := NextFire(now, t.interval)) }

  function FireTop<T>(s: seq<Timer<T>>, now: Clock): (r: seq<Timer<T>>)
    requires s != []
  {
    if s[0].repeating then RescheduleTop(s, NextFire(now, s[0].interval)) else RemoveAt(s, 0)
  }

  /** The timers that are due. */
  function Due<T>(s: seq<Timer<T>>, now: Clock): seq<Timer<T>> {
    if s == [] then [] else (if s[0].fire <= now then [s[0]] else []) + Due(s[1..], now)
  }

  lemma {:induction false} DueMultiplicity<T>(s: seq<Timer<T>>, now: Clock, t: Timer<T>)
    ensures multiset(Due(s, now))[t] == if t.fire <= now then multiset(s)[t] else 0
  {
    if s != [] {
      DueMultiplicity(s[1..], now, t);
      assert s == [s[0]] + s[1..];
    }
  }

  /** What takes the place of a timer that fired. */
  ghost function Again<T>(t: Timer<T>, now: Clock): multiset<Timer<T>> {
    if t.repeating then multiset{Rearmed(t, now)} else multiset{}
  }

  lemma FireTopContents<T>(s: seq<Timer<T>>, now: Clock)
    requires s != []
    ensures multiset(FireTop(s, now)) == multiset(s[1..]) + Again(s[0], now)
  {
    assert s == [s[0]] + s[1..];
    if s[0].repeating {
      var t := s[0 := Rearmed(s[0], now)];
      assert t == [t[0]] + s[1..];
      SiftDownContents(t, 0);
    } else {
      RemoveAtContents(s, 0);
    }
  }

  lemma {:induction false} DueConcat<T>(a: seq<Timer<T>>, b: seq<Timer<T>>, now: Clock)
    ensures Due(a + b, now) == Due(a, now) + Due(b, now)
  {
    if a == [] {
      assert a + b == b;
    } else {
      DueConcat(a[1..], b, now);
      assert (a + b)[1..] == a[1..] + b && (a + b)[0] == a[0];
      var first := if a[0].fire <= now then [a[0]] else [];
      assert first + (Due(a[1..], now) + Due(b, now)) == first + Due(a[1..], now) + Due(b, now);
    }
  }

  lemma Extract<X>(s: seq<X>, x: X) returns (before: seq<X>, after: seq<X>)
    requires x in multiset(s)
    ensures s == before + [x] + after && multiset(before + after) == multiset(s) - multiset{x}
  {
    var k :| 0 <= k < |s| && s[k] == x;
    before, after := s[..k], s[k + 1..];
    assert s == before + [x] + after;
  }

  /** Which timers are due depends on the contents only. */
  lemma {:induction false} DuePermuted<T>(a: seq<Timer<T>>, b: seq<Timer<T>>, now: Clock)
    requires multiset(a) == multiset(b)
    ensures multiset(Due(a, now)) == multiset(Due(b, now))
    decreases |a|
  {
    if a == [] {
      assert |b| == |multiset(b)| == |multiset(a)| == 0;
    } else {
      var x := a[0];
      assert a == [x] + a[1..];
      assert x in multiset(b);
      var before, after := Extract(b, x);
      DuePermuted(a[1..], before + after, now);
      DueConcat(before + [x], after, now);
      DueConcat(before, [x], now);
      DueConcat(before, after, now);
      DueConcat([x], a[1..], now);
      hide Due;
      assert multiset(Due(b, now)) == multiset(Due(before, now)) + multiset(Due([x], now)) + multiset(Due(after, now));
    }
  }

  /** One firing takes exactly the root out of the due timers. */
  lemma FireTopDue<T>(s: seq<Timer<T>>, now: Clock)
    requires s != [] && s[0].fire <= now
    ensures multiset(Due(FireTop(s, now), now)) == multiset(Due(s[1..], now))
    ensures multiset(Due(s, now)) == multiset{s[0]} + multiset(Due(s[1..], now))
    ensures |Due(FireTop(s, now), now)| == |Due(s, now)| - 1
  {
    hide FireTop;
    var r := FireTop(s, now);
    FireTopContents(s, now);
    var again := if s[0].repeating then [Rearmed(s[0], now)] else [];
    DuePermuted(r, s[1..] + again, now);
    DueConcat(s[1..], again, now);
    assert |multiset(Due(r, now))| == |Due(r, now)| && |multiset(Due(s[1..], now))| == |Due(s[1..], now)|;
  }

  /** The update loop: what is left of the heap, and the timers fired, in order. */
  function FireAll<T>(s: seq<Timer<T>>, now: Clock): (seq<Timer<T>>, seq<Timer<T>>)
    decreases |Due(s, now)|
  {
    if s == [] || s[0].fire > now then (s, [])
    else
      FireTopDue(s, now);
      var (rest, fired) := FireAll(FireTop(s, now), now);
      (rest, [s[0]] + fired)
  }

  function RearmedAll<T>(fired: seq<Timer<T>>, now: Clock): seq<Timer<T>> {
    if fired == [] then []
    else (if fired[0].repeating then [Rearmed(fired[0], now)] else []) + RearmedAll(fired[1..], now)
  }

  ghost predicate ByDeadline<T>(s: seq<Timer<T>>) {
    forall i, j :: 0 <= i < j < |s| ==> s[i].fire <= s[j].fire
  }

  lemma FireTopHeap<T>(s: seq<Timer<T>>, now: Clock)
    requires IsHeap(s) && s != []
    ensures IsHeap(FireTop(s, now))
  {
    if s[0].repeating { RescheduleTopHeap(s, NextFire(now, s[0].interval)); } else { RemoveAtHeap(s, 0); }
  }

  /** What is left and what fired add up, whatever order the heap is in. */
  lemma {:induction false} FireAllContents<T>(s: seq<Timer<T>>, now: Clock)
    ensures var (rest, fired) := FireAll(s, now);
      multiset(rest) + multiset(fired) == multiset(s) + multiset(RearmedAll(fired, now))
    decreases |Due(s, now)|
  {
    hide FireTop, Due, RearmedAll, Again;
    if s == [] || s[0].fire > now {
      NoneRearmed<T>(now);
    } else {
      FireTopDue(s, now);
      var next := FireTop(s, now);
      FireAllContents(next, now);
      FireAllStep(s, now, FireAll(next, now).0, FireAll(next, now).1);
    }
  }

  lemma NoneRearmed<T>(now: Clock)
    ensures RearmedAll<T>([], now) == []
  {
  }

  lemma FireAllStep<T>(s: seq<Timer<T>>, now: Clock, rest: seq<Timer<T>>, fired: seq<Timer<T>>)
    requires s != []
    requires multiset(rest) + multiset(fired) == multiset(FireTop(s, now)) + multiset(RearmedAll(fired, now))
    ensures multiset(rest) + multiset([s[0]] + fired) == multiset(s) + multiset(RearmedAll([s[0]] + fired, now))
  {
    hide FireTop, RearmedAll, Again;
    FireTopContents(s, now);
    RearmedStep(s[0], fired, now);
    assert s == [s[0]] + s[1..];
    MovedAcross(multiset(rest), multiset(fired), multiset(s[1..]), Again(s[0], now),
                multiset(RearmedAll(fired, now)), multiset{s[0]});
  }

  lemma MovedAcross<X>(rest: multiset<X>, fired: multiset<X>, tail: multiset<X>,
                       again: multiset<X>, later: multiset<X>, x: multiset<X>)
    requires rest + fired == tail + again + later
    ensures rest + (x + fired) == (x + tail) + (again + later)
  {
    assert rest + (x + fired) == x + (rest + fired);
  }

  lemma RearmedStep<T>(t: Timer<T>, fired: seq<Timer<T>>, now: Clock)
    ensures multiset(RearmedAll([t] + fired, now)) == Again(t, now) + multiset(RearmedAll(fired, now))
    ensures multiset([t] + fired) == multiset{t} + multiset(fired)
  {
    assert ([t] + fired)[1..] == fired;
  }

  lemma {:induction false} FireAllRest<T>(s: seq<Timer<T>>, now: Clock)
    requires IsHeap(s)
    ensures var rest := FireAll(s, now).0;
      IsHeap(rest) && forall i :: 0 <= i < |rest| ==> rest[i].fire > now
    decreases |Due(s, now)|
  {
    hide FireTop, Due;
    if s != [] {
      if s[0].fire > now {
        forall i | 0 <= i < |s| ensures s[i].fire > now { RootIsEarliest(s, i); }
      } else {
        FireTopDue(s, now);
        FireTopHeap(s, now);
        FireAllRest(FireTop(s, now), now);
      }
    }
  }

  lemma {:induction false} FireAllDue<T>(s: seq<Timer<T>>, now: Clock)
    requires IsHeap(s)
    ensures multiset(FireAll(s, now).1) == multiset(Due(s, now))
    decreases |Due(s, now)|
  {
    hide FireTop, Due;
    if s == [] || s[0].fire > now {
      forall i | 0 <= i < |s| ensures s[i].fire > now { RootIsEarliest(s, i); }
      NoneDue(s, now);
    } else {
      FireTopDue(s, now);
      FireTopHeap(s, now);
      FireAllDue(FireTop(s, now), now);
    }
  }

  /** Nothing that fires after the root was due before it. */
  lemma FiredAfterRoot<T>(s: seq<Timer<T>>, now: Clock, t: Timer<T>)
    requires IsHeap(s) && t in multiset(Due(s, now))
    ensures s != [] && s[0].fire <= t.fire
  {
    hide Due;
    DueMultiplicity(s, now, t);
    assert t in multiset(s);
    var k :| 0 <= k < |s| && s[k] == t;
    RootIsEarliest(s, k);
  }

  lemma {:induction false} FireAllOrder<T>(s: seq<Timer<T>>, now: Clock)
    requires IsHeap(s)
    ensures ByDeadline(FireAll(s, now).1)
    decreases |Due(s, now)|
  {
    hide FireTop, Due;
    if s != [] && s[0].fire <= now {
      FireTopDue(s, now);
      FireTopHeap(s, now);
      var next := FireTop(s, now);
      FireAllOrder(next, now);
      FireAllDue(next, now);
      var fired := FireAll(next, now).1;
      forall i | 0 <= i < |fired| ensures s[0].fire <= fired[i].fire {
        assert fired[i] in multiset(fired);
        FiredAfterRoot(s, now, fired[i]);
      }
    }
  }

  /**
   * With a 64-bit clock: the loop ends; every due timer fires once, in deadline
   * order; every timer left, rearmed ones included, fires strictly later than now.
   */
  lemma FireAllCorrect<T>(s: seq<Timer<T>>, now: Clock)
    requires IsHeap(s)
    ensures var (rest, fired) := FireAll(s, now);
      && IsHeap(rest) && (forall i :: 0 <= i < |rest| ==> rest[i].fire > now)
      && ByDeadline(fired) && multiset(fired) == multiset(Due(s, now))
      && multiset(rest) + multiset(fired) == multiset(s) + multiset(RearmedAll(fired, now))
  {
    FireAllRest(s, now);
    FireAllOrder(s, now);
    FireAllDue(s, now);
    FireAllContents(s, now);
  }

  lemma {:induction false} NoneDue<T>(s: seq<Timer<T>>, now: Clock)
    requires forall i :: 0 <= i < |s| ==> s[i].fire > now
    ensures Due(s, now) == []
  {
    if s != [] { NoneDue(s[1..], now); }
  }

  // ---------------------------------------------------------------------
  // How long the poller may sleep
  // ---------------------------------------------------------------------

  const IDLE_TIMEOUT_MS := 1000

  function NextTimeout<T>(s: seq<Timer<T>>, now: Clock): nat {
    if s == [] then IDLE_TIMEOUT_MS
    else if s[0].fire <= now then 0
    else if s[0].fire - now > IDLE_TIMEOUT_MS then IDLE_TIMEOUT_MS
    else s[0].fire - now
  }

  /** The poller never sleeps past a deadline, nor wakes early without reason. */
  lemma TimeoutRespectsDeadlines<T>(s: seq<Timer<T>>, now: Clock)
    requires IsHeap(s)
    ensures forall i :: 0 <= i < |s| && s[i].fire > now ==> now + NextTimeout(s, now) <= s[i].fire
    ensures NextTimeout(s, now) == 0 <==> Due(s, now) != []
    ensures 0 < NextTimeout(s, now) < IDLE_TIMEOUT_MS ==>
      exists i :: 0 <= i < |s| && s[i].fire == now + NextTimeout(s, now)
  {
    forall i | 0 <= i < |s| ensures s[0].fire <= s[i].fire { RootIsEarliest(s, i); }
    if s == [] || s[0].fire > now { NoneDue(s, now); }
  }

  // ---------------------------------------------------------------------
  // The heap in place
  // ---------------------------------------------------------------------

  class Heap<T(0,==)> {
    var items: array<Timer<T>>
    var count: nat

    predicate Valid()
      reads this
    {
      count <= items.Length && items.Length > 0
    }

    /** The occupied part of the array. */
    function Live(): (s: seq<Timer<T>>)
      requires Valid()
      reads this, items
      ensures |s| == count
    {
      items[..count]
    }

    constructor ()
      ensures Valid() && fresh(items) && Live() == []
    {
      items := new Timer<T>[16];
      count := 0;
    }

    method Swap(a: nat, b: nat)
      requires Valid() && a < count && b < count
      modifies items
      ensures Live() == Swapped(old(Live()), a, b)
    {
      items[a], items[b] := items[b], items[a];
    }

    method SiftUpAt(idx: nat)
      requires Valid() && idx < count
      modifies items
      ensures Live() == SiftUp(old(Live()), idx)
    {
      var i := idx;
      while i > 0
        invariant 0 <= i < count
        invariant SiftUp(Live(), i) == SiftUp(old(Live()), idx)
      {
        var parent := (i - 1) / 2;
        if items[parent].fire <= items[i].fire { break; }
        Swap(i, parent);
        i := parent;
      }
    }

    method SiftDownAt(idx: nat)
      requires Valid() && idx < count
      modifies items
      ensures Live() == SiftDown(old(Live()), idx)
    {
      var i := idx;
      while true
        invariant i < count
        invariant SiftDown(Live(), i) == SiftDown(old(Live()), idx)
        decreases count - i
      {
        var left, right, smallest := 2 * i + 1, 2 * i + 2, i;
        if left < count && items[left].fire < items[smallest].fire { smallest := left; }
        if right < count && items[right].fire < items[smallest].fire { smallest := right; }
        assert smallest == Smallest(Live(), i);
        if smallest == i { break; }
        Swap(i, smallest);
        i := smallest;
      }
    }

    method Add(t: Timer<T>)
      requires Valid()
      modifies this, items
      ensures Valid() && (items == old(items) || fresh(items))
      ensures Live() == Push(old(Live()), t)
    {
      if count >= items.Length {
        var grown := new Timer<T>[items.Length * 2];
        forall i | 0 <= i < count { grown[i] := items[i]; }
        assert grown[..count] == items[..count];
        items := grown;
      }
      items[count] := t;
      count := count + 1;
      assert Live() == old(Live()) + [t];
      SiftUpAt(count - 1);
    }

    method Remove(idx: nat)
      requires Valid() && idx < count
      modifies this`count, items
      ensures Valid() && Live() == RemoveAt(old(Live()), idx)
    {
      ghost var was := Live();
      count := count - 1;
      assert items[..count] == was[..count];
      if idx == count { return; }
      items[idx] := items[count];
      assert items[..count] == was[..count][idx := was[count]];
      SiftDownAt(idx);
      SiftUpAt(idx);
    }

    method Reschedule(fire: nat)
      requires Valid() && count > 0
      modifies items
      ensures Valid() && Live() == RescheduleTop(old(Live()), fire)
    {
      items[0] := items[0].(fire := fire);
      assert Live() == old(Live())[0 := old(Live())[0].(fire := fire)];
      SiftDownAt(0);
    }

    method RemoveTimersOf(task: T) returns (removed: nat)
      requires Valid()
      modifies this`count, items
      ensures Valid() && Live() == RemoveTask(old(Live()), task, 0)
      ensures removed == |old(Live())| - |Live()|
    {
      removed := 0;
      var i := 0;
      while i < count
        invariant Valid() && i <= count && removed == |old(Live())| - count
        invariant RemoveTask(Live(), task, i) == RemoveTask(old(Live()), task, 0)
        decreases count, count - i
      {
        if items[i].task == task {
          Remove(i);
          removed := removed + 1;
        } else {
          i := i + 1;
        }
      }
    }

    /** Fires the root: rearms it in the future or removes it. */
    method FireRoot(now: Clock) returns (top: Timer<T>)
      requires Valid() && count > 0
      modifies this`count, items
      ensures Valid() && top == old(Live())[0] && Live() == FireTop(old(Live()), now)
    {
      top := items[0];
      if top.repeating {
        var next := (now + top.interval) % MODULUS_64;
        if next <= now { next := (now + 1) % MODULUS_64; }
        Reschedule(next);
      } else {
        Remove(0);
      }
    }

    /** Fires what is due at `now`, root by root. */
    method FireDue(now: Clock) returns (fired: seq<Timer<T>>)
      requires Valid()
      modifies this`count, items
      ensures Valid() && (Live(), fired) == FireAll(old(Live()), now)
    {
      hide Due, FireTop;
      fired := [];
      FiredSoFarStart(Live(), now);
      while count > 0 && now >= items[0].fire
        invariant Valid()
        invariant FiredSoFar(old(Live()), now, Live(), fired)
        decreases |Due(Live(), now)|
      {
        FireTopDue(Live(), now);
        FiredSoFarStep(old(Live()), now, Live(), fired);
        var top := FireRoot(now);
        fired := fired + [top];
      }
      assert fired + [] == fired;
    }
  }

  /** The loop is at s, having fired these; it will end where a run from `start` ends. */
  ghost predicate FiredSoFar<T>(start: seq<Timer<T>>, now: Clock, s: seq<Timer<T>>, fired: seq<Timer<T>>) {
    FireAll(start, now) == (FireAll(s, now).0, fired + FireAll(s, now).1)
  }

  lemma FiredSoFarStart<T>(s: seq<Timer<T>>, now: Clock)
    ensures FiredSoFar(s, now, s, [])
  {
    assert [] + FireAll(s, now).1 == FireAll(s, now).1;
  }

  lemma FiredSoFarStep<T>(start: seq<Timer<T>>, now: Clock, s: seq<Timer<T>>, fired: seq<Timer<T>>)
    requires s != [] && s[0].fire <= now && FiredSoFar(start, now, s, fired)
    ensures FiredSoFar(start, now, FireTop(s, now), fired + [s[0]])
  {
    hide FireTop, Due;
    var more := FireAll(FireTop(s, now), now).1;
    assert fired + ([s[0]] + more) == fired + [s[0]] + more;
  }
}
