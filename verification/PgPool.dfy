// The Postgres connection pool (modules/persist/src/model/model_postgres.c) as
// the interleaving of any number of callers: a mutex and a condition variable
// around eight slots, and a second mutex around table creation.
module PgPool {
  import opened Text

  const POOL: nat := 8

  /** A slot's connection, absent until it has been connected, and whether a caller has it. */
  datatype Slot = Slot(conn: Option<nat>, inUse: bool)

  /** Where a caller is. Scanning and Signalling hold the pool lock, InTables and Creating the tables lock. */
  datatype Pc =
    | Out
    | WantsLock
    | Scanning
    | Waiting
    | Woken
    | Connecting(slot: nat)
    | HasConnected(slot: nat, conn: nat)
    | Checking(slot: nat)
    | Ready(slot: nat)
    | WantsTables(slot: nat, name: string)
    | InTables(slot: nat, name: string)
    | Creating(slot: nat, name: string)
    | Releasing(slot: nat)
    | Signalling

  /** made counts the connections ever made; created lists the tables created, in order. */
  datatype Pool = Pool(
    slots: seq<Slot>, lock: Option<nat>, tablesLock: Option<nat>, pcs: map<nat, Pc>,
    made: nat, tables: set<string>, created: seq<string>)

  function PcOf(p: Pool, c: nat): Pc { if c in p.pcs then p.pcs[c] else Out }

  function Start(): Pool { Pool(seq(POOL, _ => Slot(None, false)), None, None, map[], 0, {}, []) }

  /** The first free slot from i on that is connected, or that is not. */
  function FirstFree(slots: seq<Slot>, connected: bool, i: nat): (r: Option<nat>)
    requires i <= |slots|
    ensures r.Some? ==> i <= r.value < |slots| && !slots[r.value].inUse && slots[r.value].conn.Some? == connected
    ensures r.None? ==> forall k :: i <= k < |slots| && !slots[k].inUse ==> slots[k].conn.Some? != connected
    decreases |slots| - i
  {
    if i == |slots| then None
    else if !slots[i].inUse && slots[i].conn.Some? == connected then Some(i)
    else FirstFree(slots, connected, i + 1)
  }

  /** good is the server's answer, name the table, other the caller a signal wakes. */
  datatype Event = Event(caller: nat, good: bool, name: string, other: nat)

  function Goes(p: Pool, c: nat, pc: Pc): Pool { p.(pcs := p.pcs[c := pc]) }

  /** An idle connection if there is one, else a slot to connect, else wait, giving up the lock. */
  function Scan(p: Pool, c: nat): Pool {
    match FirstFree(p.slots, true, 0)
    case Some(i) =>
      Goes(p, c, Checking(i)).(lock := None, slots := p.slots[i := p.slots[i].(inUse := true)])
    case None =>
      match FirstFree(p.slots, false, 0)
      case Some(i) =>
        Goes(p, c, Connecting(i)).(lock := None, slots := p.slots[i := p.slots[i].(inUse := true)])
      case None => Goes(p, c, Waiting).(lock := None)
  }

  /** One step of one caller; a step that must wait changes nothing. */
  function Next(p: Pool, e: Event): Pool {
    var c := e.caller;
    match PcOf(p, c)
    case Out => Goes(p, c, WantsLock)
    case WantsLock => if p.lock.Some? then p else Goes(p, c, Scanning).(lock := Some(c))
    case Woken => if p.lock.Some? then p else Goes(p, c, Scanning).(lock := Some(c))
    case Scanning => Scan(p, c)
    // A wakeup without a signal, which the standard allows.
    case Waiting => if e.good then Goes(p, c, Woken) else p
    case Connecting(i) =>
      if e.good then Goes(p, c, HasConnected(i, p.made)).(made := p.made + 1) else Goes(p, c, Releasing(i))
    case HasConnected(i, k) =>
      if p.lock.Some? || i >= |p.slots| then p
      else Goes(p, c, Ready(i)).(slots := p.slots[i := p.slots[i].(conn := Some(k))])
    case Checking(i) => Goes(p, c, if e.good then Ready(i) else Releasing(i))
    case Ready(i) => Goes(p, c, if e.good then WantsTables(i, e.name) else Releasing(i))
    case WantsTables(i, n) =>
      if p.tablesLock.Some? then p else Goes(p, c, InTables(i, n)).(tablesLock := Some(c))
    case InTables(i, n) =>
      if n in p.tables then Goes(p, c, Ready(i)).(tablesLock := None) else Goes(p, c, Creating(i, n))
    case Creating(i, n) =>
      if e.good then
        Goes(p, c, Ready(i)).(tablesLock := None, tables := p.tables + {n}, created := p.created + [n])
      else Goes(p, c, Releasing(i)).(tablesLock := None)
    case Releasing(i) =>
      if p.lock.Some? || i >= |p.slots| then p
      else Goes(p, c, Signalling).(lock := Some(c), slots := p.slots[i := p.slots[i].(inUse := false)])
    case Signalling =>
      if Blocked(p) == {} then Goes(p, c, Out).(lock := None)
      else if e.other in Blocked(p) then Goes(Goes(p, c, Out), e.other, Woken).(lock := None)
      else p
  }

  function Run(es: seq<Event>): Pool {
    if es == [] then Start() else Next(Run(es[..|es| - 1]), es[|es| - 1])
  }

  // ---------------------------------------------------------------------
  // Locks
  // ---------------------------------------------------------------------

  predicate HoldsLock(pc: Pc) { pc.Scanning? || pc.Signalling? }
  predicate HoldsTables(pc: Pc) { pc.InTables? || pc.Creating? }

  ghost predicate LocksFit(p: Pool) {
    && (forall c: nat :: HoldsLock(PcOf(p, c)) <==> p.lock == Some(c))
    && (forall c: nat :: HoldsTables(PcOf(p, c)) <==> p.tablesLock == Some(c))
  }

  /** A step moves its caller, and at most wakes one other. */
  lemma OthersStay(p: Pool, e: Event, d: nat)
    requires d != e.caller
    ensures PcOf(Next(p, e), d) == PcOf(p, d) || (PcOf(p, d) == Waiting && PcOf(Next(p, e), d) == Woken)
  {
    hide FirstFree;
  }

  /** How a step changes the locks, and that its caller then holds what it says. */
  lemma LockStep(p: Pool, e: Event)
    requires LocksFit(p)
    ensures var n, c := Next(p, e), e.caller;
      && (n.lock == p.lock || (p.lock == None && n.lock == Some(c)) || (p.lock == Some(c) && n.lock == None))
      && (n.tablesLock == p.tablesLock || (p.tablesLock == None && n.tablesLock == Some(c))
          || (p.tablesLock == Some(c) && n.tablesLock == None))
      && (HoldsLock(PcOf(n, c)) <==> n.lock == Some(c))
      && (HoldsTables(PcOf(n, c)) <==> n.tablesLock == Some(c))
  {
    hide FirstFree;
    var c := e.caller;
    assert HoldsLock(PcOf(p, c)) <==> p.lock == Some(c);
    assert HoldsTables(PcOf(p, c)) <==> p.tablesLock == Some(c);
    hide LocksFit;
  }

  lemma LocksKept(p: Pool, e: Event)
    requires LocksFit(p)
    ensures LocksFit(Next(p, e))
  {
    LockStep(p, e);
    var n := Next(p, e);
    hide Next, PcOf;
    forall d: nat
      ensures (HoldsLock(PcOf(n, d)) <==> n.lock == Some(d)) && (HoldsTables(PcOf(n, d)) <==> n.tablesLock == Some(d))
    {
      assert HoldsLock(PcOf(p, d)) <==> p.lock == Some(d);
      assert HoldsTables(PcOf(p, d)) <==> p.tablesLock == Some(d);
      if d != e.caller { OthersStay(p, e, d); }
    }
  }

  // ---------------------------------------------------------------------
  // A slot in use has one holder
  // ---------------------------------------------------------------------

  function SlotOf(pc: Pc): Option<nat> {
    match pc
    case Connecting(i) => Some(i)
    case HasConnected(i, _) => Some(i)
    case Checking(i) => Some(i)
    case Ready(i) => Some(i)
    case WantsTables(i, _) => Some(i)
    case InTables(i, _) => Some(i)
    case Creating(i, _) => Some(i)
    case Releasing(i) => Some(i)
    case _ => None
  }

  predicate Holds(p: Pool, c: nat, i: nat) { SlotOf(PcOf(p, c)) == Some(i) }

  ghost predicate OneHolder(p: Pool) {
    && |p.slots| == POOL
    && (forall c: nat, i: nat :: Holds(p, c, i) ==> i < POOL && p.slots[i].inUse)
    && (forall c: nat, d: nat, i: nat :: Holds(p, c, i) && Holds(p, d, i) ==> c == d)
    && (forall i :: 0 <= i < POOL && p.slots[i].inUse ==> exists c: nat :: Holds(p, c, i))
  }

  /** A step only takes a free slot, and only its caller's slot is given back. */
  lemma SlotStep(p: Pool, e: Event, i: nat)
    requires |p.slots| == POOL && i < POOL
    requires forall k: nat :: Holds(p, e.caller, k) ==> k < POOL && p.slots[k].inUse
    ensures var n, c := Next(p, e), e.caller;
      && |n.slots| == POOL
      && (n.slots[i].inUse <==> Holds(n, c, i) || (p.slots[i].inUse && !Holds(p, c, i)))
      && (Holds(n, c, i) ==> Holds(p, c, i) || !p.slots[i].inUse)
  {
    assert forall k: nat :: SlotOf(PcOf(p, e.caller)) == Some(k) ==> Holds(p, e.caller, k);
  }

  lemma SlotInRange(p: Pool, e: Event, i: nat)
    requires |p.slots| == POOL
    requires forall k: nat :: Holds(p, e.caller, k) ==> k < POOL && p.slots[k].inUse
    ensures Holds(Next(p, e), e.caller, i) ==> i < POOL
  {
    assert forall k: nat :: SlotOf(PcOf(p, e.caller)) == Some(k) ==> Holds(p, e.caller, k);
  }

  lemma OthersHold(p: Pool, e: Event, d: nat, i: nat)
    requires d != e.caller
    ensures Holds(Next(p, e), d, i) == Holds(p, d, i)
  {
    hide Next;
    OthersStay(p, e, d);
  }

  lemma OneHolderKept(p: Pool, e: Event)
    requires OneHolder(p)
    ensures OneHolder(Next(p, e))
  {
    var n, c := Next(p, e), e.caller;
    assert |n.slots| == POOL by { SlotStep(p, e, 0); }
    hide Next, Holds;
    forall d: nat, i: nat | Holds(n, d, i) ensures i < POOL && n.slots[i].inUse {
      if d == c { SlotInRange(p, e, i); } else { OthersHold(p, e, d, i); }
      SlotStep(p, e, i);
      if d != c { assert !Holds(p, c, i); }
    }
    forall d: nat, x: nat, i: nat | Holds(n, d, i) && Holds(n, x, i) ensures d == x {
      SlotStep(p, e, i);
      if d != c { OthersHold(p, e, d, i); }
      if x != c { OthersHold(p, e, x, i); }
    }
    forall i | 0 <= i < POOL && n.slots[i].inUse ensures exists d: nat :: Holds(n, d, i) {
      SlotStep(p, e, i);
      if !Holds(n, c, i) {
        var d: nat :| Holds(p, d, i);
        OthersHold(p, e, d, i);
      }
    }
  }

  // ---------------------------------------------------------------------
  // Connections
  // ---------------------------------------------------------------------

  /** Connection k is slot i's: stored in it, or about to be by its holder. */
  ghost predicate Belongs(p: Pool, k: nat, i: nat) {
    i < |p.slots| && (p.slots[i].conn == Some(k) || exists c: nat :: PcOf(p, c) == HasConnected(i, k))
  }

  /** A caller past connecting has a connection in its slot, one still connecting has none. */
  predicate Connected(pc: Pc) {
    pc.Checking? || pc.Ready? || pc.WantsTables? || pc.InTables? || pc.Creating?
  }

  ghost predicate ConnAt(p: Pool, c: nat) {
    var pc := PcOf(p, c);
    && (Connected(pc) ==> SlotOf(pc).value < |p.slots| && p.slots[SlotOf(pc).value].conn.Some?)
    && (pc.Connecting? || pc.HasConnected? ==> pc.slot < |p.slots| && p.slots[pc.slot].conn.None?)
  }

  /** The slots that have a connection, or are about to. */
  ghost function Full(p: Pool): set<nat> { set i: nat | i < POOL && FullAt(p, i) }

  ghost predicate FullAt(p: Pool, i: nat) { exists k: nat :: Belongs(p, k, i) }

  /** A connection is one slot's only, so there are never more than slots. */
  ghost predicate ConnsFit(p: Pool) {
    && (forall c: nat :: ConnAt(p, c))
    && (forall i: nat, k: nat :: Belongs(p, k, i) ==> k < p.made)
    && (forall i: nat, j: nat, k: nat :: Belongs(p, k, i) && Belongs(p, k, j) ==> i == j)
    && p.made == |Full(p)|
  }

  /** What a step does to the number of connections and to its caller's own. */
  lemma ConnMade(p: Pool, e: Event)
    requires |p.slots| == POOL && ConnAt(p, e.caller)
    ensures var n, c, pc := Next(p, e), e.caller, PcOf(p, e.caller);
      && |n.slots| == POOL
      && n.made == p.made + (if pc.Connecting? && e.good then 1 else 0)
      && (pc.Connecting? && e.good ==> PcOf(n, c) == HasConnected(pc.slot, p.made) && pc.slot < POOL)
      && (PcOf(n, c).HasConnected? ==> pc == PcOf(n, c) || (pc.Connecting? && e.good))
  {
    hide FirstFree;
  }

  /** Only a caller that has connected stores, into its own slot. */
  lemma ConnStored(p: Pool, e: Event, i: nat)
    requires |p.slots| == POOL && ConnAt(p, e.caller) && i < POOL
    ensures var n, c, pc := Next(p, e), e.caller, PcOf(p, e.caller);
      && |n.slots| == POOL
      && (n.slots[i].conn == p.slots[i].conn
          || (pc.HasConnected? && pc.slot == i && n.slots[i].conn == Some(pc.conn) && PcOf(n, c) == Ready(i)))
      && (pc.HasConnected? && PcOf(n, c) != pc ==> pc.slot < POOL && n.slots[pc.slot].conn == Some(pc.conn))
  {
    hide FirstFree;
  }

  lemma ConnHere(p: Pool, e: Event)
    requires |p.slots| == POOL && ConnAt(p, e.caller)
    ensures ConnAt(Next(p, e), e.caller)
  {
  }

  lemma ConnOthers(p: Pool, e: Event, d: nat)
    requires OneHolder(p) && d != e.caller && ConnAt(p, d) && ConnAt(p, e.caller)
    ensures ConnAt(Next(p, e), d)
  {
    OthersStay(p, e, d);
    var i := SlotOf(PcOf(p, d));
    if i.Some? {
      assert Holds(p, d, i.value);
      ConnStored(p, e, i.value);
      assert !Holds(p, e.caller, i.value);
      hide Next, PcOf;
    }
  }

  /** What belongs to a slot stays, and only connecting adds to it. */
  lemma BelongsStep(p: Pool, e: Event, k: nat, i: nat)
    requires OneHolder(p) && ConnAt(p, e.caller)
    ensures var pc := PcOf(p, e.caller);
      Belongs(Next(p, e), k, i) <==>
        Belongs(p, k, i) || (pc.Connecting? && e.good && pc.slot == i && k == p.made)
  {
    var n, c, pc := Next(p, e), e.caller, PcOf(p, e.caller);
    ConnMade(p, e);
    if i < POOL {
      ConnStored(p, e, i);
      hide Next, PcOf, ConnAt;
      forall d: nat | d != c ensures PcOf(n, d) == HasConnected(i, k) <==> PcOf(p, d) == HasConnected(i, k) {
        OthersStay(p, e, d);
      }
    }
  }

  /** A slot being connected has no connection yet. */
  lemma ConnectingEmpty(p: Pool, c: nat)
    requires OneHolder(p) && PcOf(p, c).Connecting? && ConnAt(p, c)
    ensures !FullAt(p, PcOf(p, c).slot)
  {
    var i := PcOf(p, c).slot;
    assert Holds(p, c, i);
    if k: nat :| Belongs(p, k, i) {
      var d: nat :| PcOf(p, d) == HasConnected(i, k);
      assert Holds(p, d, i);
    }
  }

  lemma FullStep(p: Pool, e: Event)
    requires OneHolder(p) && ConnAt(p, e.caller)
    ensures var pc := PcOf(p, e.caller);
      Full(Next(p, e)) == if pc.Connecting? && e.good then Full(p) + {pc.slot} else Full(p)
  {
    var n, pc := Next(p, e), PcOf(p, e.caller);
    ConnMade(p, e);
    hide Next, PcOf, ConnAt, Belongs, OneHolder;
    forall i: nat ensures FullAt(n, i) <==> FullAt(p, i) || (pc.Connecting? && e.good && pc.slot == i) {
      if k: nat :| Belongs(n, k, i) { BelongsStep(p, e, k, i); }
      if k: nat :| Belongs(p, k, i) { BelongsStep(p, e, k, i); }
      BelongsStep(p, e, p.made, i);
    }
  }

  lemma ConnsKept(p: Pool, e: Event)
    requires OneHolder(p) && ConnsFit(p)
    ensures ConnsFit(Next(p, e))
  {
    var n, c := Next(p, e), e.caller;
    assert ConnAt(p, c);
    ConnMade(p, e);
    ConnHere(p, e);
    FullStep(p, e);
    hide Next, PcOf, Belongs, Full, FullAt, OneHolder;
    forall d: nat ensures ConnAt(n, d) {
      assert ConnAt(p, d);
      if d != c { ConnOthers(p, e, d); }
    }
    forall i: nat, k: nat | Belongs(n, k, i) ensures k < n.made { BelongsStep(p, e, k, i); }
    forall i: nat, j: nat, k: nat | Belongs(n, k, i) && Belongs(n, k, j) ensures i == j {
      BelongsStep(p, e, k, i);
      BelongsStep(p, e, k, j);
    }
    var pc := PcOf(p, c);
    if pc.Connecting? {
      ConnectingEmpty(p, c);
      assert pc.slot !in Full(p) by { NotFull(p, pc.slot); }
    }
  }

  lemma NotFull(p: Pool, i: nat)
    requires !FullAt(p, i)
    ensures i !in Full(p)
  {
  }

  /** At most eight connections are ever made. */
  lemma AtMostEight(p: Pool)
    requires ConnsFit(p)
    ensures p.made <= POOL
  {
    var all: set<nat> := {0, 1, 2, 3, 4, 5, 6, 7};
    assert forall i :: i in Full(p) ==> i in all;
    SubsetSize(Full(p), all);
  }

  lemma SubsetSize(a: set<nat>, b: set<nat>)
    requires a <= b
    ensures |a| <= |b|
  {
    assert b == a + (b - a);
  }

  // ---------------------------------------------------------------------
  // Tables
  // ---------------------------------------------------------------------

  /** What is remembered was created, once, and nobody creates what is remembered. */
  ghost predicate TablesFit(p: Pool) {
    && (forall n :: n in p.tables <==> n in p.created)
    && (forall i, j :: 0 <= i < j < |p.created| ==> p.created[i] != p.created[j])
    && (forall c: nat :: PcOf(p, c).Creating? ==> PcOf(p, c).name !in p.tables)
  }

  lemma TablesStep(p: Pool, e: Event)
    ensures var n, pc := Next(p, e), PcOf(p, e.caller);
      && (PcOf(n, e.caller).Creating? ==> PcOf(n, e.caller).name !in p.tables || n == p)
      && if pc.Creating? && e.good then
           n.tables == p.tables + {pc.name} && n.created == p.created + [pc.name] && !PcOf(n, e.caller).Creating?
         else n.tables == p.tables && n.created == p.created
  {
    hide FirstFree;
  }

  lemma TablesKept(p: Pool, e: Event)
    requires TablesFit(p) && LocksFit(p)
    ensures TablesFit(Next(p, e))
  {
    var n, c := Next(p, e), e.caller;
    TablesStep(p, e);
    hide Next, PcOf;
    forall d: nat | PcOf(n, d).Creating? ensures PcOf(n, d).name !in n.tables {
      if d != c { OthersStay(p, e, d); }
      assert HoldsTables(PcOf(p, c)) <==> p.tablesLock == Some(c);
      assert HoldsTables(PcOf(p, d)) <==> p.tablesLock == Some(d);
    }
  }

  // ---------------------------------------------------------------------
  // No wakeup is lost
  // ---------------------------------------------------------------------

  function Blocked(p: Pool): set<nat> { set c | c in p.pcs && p.pcs[c] == Waiting }

  /** On the way to look at the slots, or about to wake someone who will. */
  predicate InFlight(pc: Pc) { pc.Woken? || pc.Scanning? || pc.Signalling? }

  function Flight(p: Pool): set<nat> { set c | c in p.pcs && InFlight(p.pcs[c]) }

  function Free(slots: seq<Slot>): set<nat> { set i | 0 <= i < |slots| && !slots[i].inUse }

  /** While anyone is blocked, each free slot has its own caller on the way. */
  predicate NoLostWakeup(p: Pool) { Blocked(p) == {} || |Free(p.slots)| <= |Flight(p)| }

  lemma GoesSets(p: Pool, c: nat, pc: Pc)
    ensures Flight(Goes(p, c, pc)) == if InFlight(pc) then Flight(p) + {c} else Flight(p) - {c}
    ensures Blocked(Goes(p, c, pc)) == if pc == Waiting then Blocked(p) + {c} else Blocked(p) - {c}
  {
  }

  /** The sets see only where the callers are. */
  lemma SamePcs(p: Pool, q: Pool)
    requires p.pcs == q.pcs
    ensures Flight(p) == Flight(q) && Blocked(p) == Blocked(q)
  {
  }

  lemma FreeTaken(slots: seq<Slot>, i: nat, s: Slot)
    requires i < |slots|
    ensures Free(slots[i := s]) == if s.inUse then Free(slots) - {i} else Free(slots) + {i}
  {
  }

  lemma ScanKeeps(p: Pool, c: nat)
    requires NoLostWakeup(p) && PcOf(p, c) == Scanning
    ensures NoLostWakeup(Scan(p, c))
  {
    var n := Scan(p, c);
    var pc := PcOf(n, c);
    SamePcs(n, Goes(p, c, pc));
    GoesSets(p, c, pc);
    assert c in Flight(p) && c !in Blocked(p);
    if pc == Waiting {
      hide NoLostWakeup;
      assert Free(p.slots) == {};
      assert NoLostWakeup(n) by { NoneFree(n); }
    } else {
      var i := pc.slot;
      FreeTaken(p.slots, i, n.slots[i]);
      assert i in Free(p.slots);
    }
  }

  lemma NoneFree(p: Pool)
    requires Free(p.slots) == {}
    ensures NoLostWakeup(p)
  {
  }

  lemma ReleaseKeeps(p: Pool, e: Event)
    requires OneHolder(p) && NoLostWakeup(p) && PcOf(p, e.caller).Releasing?
    ensures NoLostWakeup(Next(p, e))
  {
    var n, c := Next(p, e), e.caller;
    var i := PcOf(p, c).slot;
    assert Holds(p, c, i);
    if p.lock.None? {
      SamePcs(n, Goes(p, c, Signalling));
      GoesSets(p, c, Signalling);
      FreeTaken(p.slots, i, n.slots[i]);
      assert c !in Flight(p) && i !in Free(p.slots);
    }
  }

  lemma SignalKeeps(p: Pool, e: Event)
    requires NoLostWakeup(p) && PcOf(p, e.caller) == Signalling
    ensures NoLostWakeup(Next(p, e))
  {
    var n, c := Next(p, e), e.caller;
    GoesSets(p, c, Out);
    if Blocked(p) == {} {
      SamePcs(n, Goes(p, c, Out));
    } else if e.other in Blocked(p) {
      var q := Goes(p, c, Out);
      GoesSets(q, e.other, Woken);
      SamePcs(n, Goes(q, e.other, Woken));
      hide Blocked, Flight, Free;
      assert n.slots == p.slots;
      assert c in Flight(p) && e.other !in Flight(p) by { InSets(p, c); InSets(p, e.other); }
      assert Flight(n) == Flight(p) - {c} + {e.other};
      assert |Flight(n)| == |Flight(p)|;
    }
  }

  lemma InSets(p: Pool, c: nat)
    ensures c in Flight(p) <==> InFlight(PcOf(p, c))
    ensures c in Blocked(p) <==> PcOf(p, c) == Waiting
  {
  }

  /** Every other step leaves the slots' use alone and no caller on the way behind. */
  lemma ElseKeeps(p: Pool, e: Event)
    requires NoLostWakeup(p)
    requires var pc := PcOf(p, e.caller); !pc.Scanning? && !pc.Releasing? && !pc.Signalling?
    ensures NoLostWakeup(Next(p, e))
  {
    var n, c := Next(p, e), e.caller;
    var pc := PcOf(n, c);
    if n != p {
      FreeSame(p, e);
      SamePcs(n, Goes(p, c, pc));
      GoesSets(p, c, pc);
      InSets(p, c);
      hide Next, Flight, Blocked, Free;
      if InFlight(pc) { SubsetSize(Flight(p), Flight(n)); }
      else { assert Flight(n) == Flight(p); }
      assert Blocked(p) == {} ==> Blocked(n) == {};
    }
  }

  lemma FreeSame(p: Pool, e: Event)
    requires var pc := PcOf(p, e.caller); !pc.Scanning? && !pc.Releasing? && !pc.Signalling?
    ensures var n, c := Next(p, e), e.caller;
      && Free(n.slots) == Free(p.slots)
      && n.pcs == (if n == p then p.pcs else p.pcs[c := PcOf(n, c)])
      && (PcOf(n, c) == Waiting ==> n == p)
      && (InFlight(PcOf(p, c)) ==> InFlight(PcOf(n, c)))
  {
    forall i, s: Slot | 0 <= i < |p.slots| ensures s.inUse == p.slots[i].inUse ==> Free(p.slots[i := s]) == Free(p.slots) {
      FreeTaken(p.slots, i, s);
    }
  }

  lemma WakeupKept(p: Pool, e: Event)
    requires OneHolder(p) && NoLostWakeup(p)
    ensures NoLostWakeup(Next(p, e))
  {
    var pc := PcOf(p, e.caller);
    if pc.Scanning? { ScanKeeps(p, e.caller); }
    else {
      hide NoLostWakeup, OneHolder;
      if pc.Releasing? { ReleaseKeeps(p, e); }
      else if pc.Signalling? { SignalKeeps(p, e); }
      else { ElseKeeps(p, e); }
    }
  }

  // ---------------------------------------------------------------------
  // Every run
  // ---------------------------------------------------------------------

  ghost predicate Inv(p: Pool) { LocksFit(p) && OneHolder(p) && ConnsFit(p) && TablesFit(p) && NoLostWakeup(p) }

  lemma StartFits()
    ensures Inv(Start())
  {
    var p := Start();
    assert forall c: nat :: PcOf(p, c) == Out;
    assert Full(p) == {};
    assert Blocked(p) == {};
  }

  lemma {:induction false} RunFits(es: seq<Event>)
    ensures Inv(Run(es))
  {
    if es == [] {
      StartFits();
    } else {
      var p, e := Run(es[..|es| - 1]), es[|es| - 1];
      RunFits(es[..|es| - 1]);
      hide Next, LocksFit, OneHolder, ConnsFit, TablesFit, NoLostWakeup;
      LocksKept(p, e);
      OneHolderKept(p, e);
      ConnsKept(p, e);
      TablesKept(p, e);
      WakeupKept(p, e);
    }
  }

  /**
    * However the callers interleave: a slot, and so its connection, is used by
    * one caller at a time and at most eight connections are made; nobody stays
    * blocked beside a free slot unless a wakeup is on its way; tables are created
    * one at a time and none is created twice.
    */
  lemma PoolSafe(es: seq<Event>)
    ensures var p := Run(es);
      && (forall c: nat, d: nat, i: nat :: Holds(p, c, i) && Holds(p, d, i) ==> c == d)
      && |p.slots| == POOL
      && (forall i :: 0 <= i < POOL ==> (p.slots[i].inUse <==> exists c: nat :: Holds(p, c, i)))
      && (forall i: nat, j: nat, k: nat :: Belongs(p, k, i) && Belongs(p, k, j) ==> i == j)
      && p.made <= POOL
      && (Blocked(p) != {} && Free(p.slots) != {} ==> exists c: nat :: InFlight(PcOf(p, c)))
      && (forall c: nat, d: nat :: PcOf(p, c).Creating? && PcOf(p, d).Creating? ==> c == d)
      && (forall i, j :: 0 <= i < j < |p.created| ==> p.created[i] != p.created[j])
  {
    var p := Run(es);
    RunFits(es);
    hide Run;
    AtMostEight(p);
    forall c: nat, d: nat | PcOf(p, c).Creating? && PcOf(p, d).Creating? ensures c == d {
      assert HoldsTables(PcOf(p, c)) && HoldsTables(PcOf(p, d));
    }
    if Blocked(p) != {} && Free(p.slots) != {} {
      var c :| c in Flight(p);
      assert InFlight(PcOf(p, c));
    }
  }

  // ---------------------------------------------------------------------
  // What a caller gets
  // ---------------------------------------------------------------------

  /** A caller that looks takes an idle connection if there is one, connects only if there is none, and waits only if every slot is in use. */
  lemma ScanChooses(p: Pool, e: Event)
    requires PcOf(p, e.caller) == Scanning
    ensures var n, pc := Next(p, e), PcOf(Next(p, e), e.caller);
      && n.lock == None && (pc.Checking? || pc.Connecting? || pc.Waiting?)
      && (pc.Checking? <==> exists i :: 0 <= i < |p.slots| && !p.slots[i].inUse && p.slots[i].conn.Some?)
      && (pc.Waiting? <==> forall i :: 0 <= i < |p.slots| ==> p.slots[i].inUse)
      && (!pc.Waiting? ==> pc.slot < |p.slots| && !p.slots[pc.slot].inUse && n.slots[pc.slot].inUse)
      && (pc.Checking? ==> p.slots[pc.slot].conn.Some?)
  {
  }

  /** A caller goes on from the tables lock only with its table created: remembered, or created by itself just now. */
  lemma TableBeforeUse(es: seq<Event>, e: Event)
    requires HoldsTables(PcOf(Run(es), e.caller)) && PcOf(Next(Run(es), e), e.caller).Ready?
    ensures var p, n := Run(es), Next(Run(es), e);
      var name := PcOf(p, e.caller).name;
      && name in n.created && multiset(n.created)[name] == 1
      && (name !in p.created ==> PcOf(p, e.caller).Creating? && e.good && n.created == p.created + [name])
  {
    var p := Run(es);
    RunFits(es);
    hide Run, LocksFit, OneHolder, ConnsFit, NoLostWakeup;
    TablesKept(p, e) by { assert LocksFit(p); }
    TablesStep(p, e);
    var name := PcOf(p, e.caller).name;
    assert name in Next(p, e).tables;
    hide Next, PcOf;
    OnceCreated(Next(p, e).created, name);
  }

  lemma OnceCreated(names: seq<string>, name: string)
    requires name in names && forall i, j :: 0 <= i < j < |names| ==> names[i] != names[j]
    ensures multiset(names)[name] == 1
  {
    var k :| 0 <= k < |names| && names[k] == name;
    assert names == names[..k] + [name] + names[k + 1..];
    assert name !in names[..k] && name !in names[k + 1..];
  }

  /** Whoever has the pool lock can give it up in one step, and whoever has the tables lock in two. */
  lemma LocksAreReleased(es: seq<Event>)
    ensures var p := Run(es);
      && (p.lock.Some? ==> exists e: Event :: e.caller == p.lock.value && Next(p, e).lock.None?)
      && (p.tablesLock.Some? ==>
            exists e: Event, f: Event :: e.caller == f.caller == p.tablesLock.value && Next(Next(p, e), f).tablesLock.None?)
  {
    var p := Run(es);
    RunFits(es);
    hide Run, OneHolder, ConnsFit, TablesFit, NoLostWakeup;
    if p.lock.Some? { PoolLockReleased(p, p.lock.value); }
    if p.tablesLock.Some? { TablesLockReleased(p, p.tablesLock.value); }
  }

  lemma PoolLockReleased(p: Pool, c: nat)
    requires LocksFit(p) && p.lock == Some(c)
    ensures exists e: Event :: e.caller == c && Next(p, e).lock.None?
  {
    hide FirstFree;
    assert HoldsLock(PcOf(p, c));
    var other := c;
    if d :| d in Blocked(p) { other := d; }
    assert Next(p, Event(c, true, "", other)).lock.None?;
  }

  lemma TablesLockReleased(p: Pool, c: nat)
    requires LocksFit(p) && p.tablesLock == Some(c)
    ensures exists e: Event, f: Event :: e.caller == f.caller == c && Next(Next(p, e), f).tablesLock.None?
  {
    hide FirstFree;
    assert HoldsTables(PcOf(p, c));
    var e := Event(c, true, "", c);
    assert Next(Next(p, e), e).tablesLock.None?;
  }
}
