// The migration planner (tools/migrate/src/plan.c): a merge of the files on disk
// with the ledger of what was applied, one entry per version.
module MigratePlan {
  import opened Text

  datatype Migration = Migration(version: nat, name: string, checksum: string, sql: string)
  datatype Applied = Applied(version: nat, name: string, checksum: string)

  datatype State = Done | Pending | Modified | Missing | OutOfOrder

  datatype Entry = Entry(version: nat, name: string, state: State, migration: Option<Migration>, late: bool)

  predicate IsProblem(s: State) { s == Modified || s == Missing || s == OutOfOrder }

  predicate SourceSorted(s: seq<Migration>) { forall i, j :: 0 <= i < j < |s| ==> s[i].version < s[j].version }

  predicate LedgerSorted(a: seq<Applied>) { forall i, j :: 0 <= i < j < |a| ==> a[i].version < a[j].version }

  /** The latest applied version, or -1. */
  function Latest(a: seq<Applied>): int { if a == [] then -1 else a[|a| - 1].version }

  function OnDiskOnly(s: Migration, latest: int, allowLate: bool): Entry {
    var late := s.version < latest;
    Entry(s.version, s.name, if late && !allowLate then OutOfOrder else Pending, Some(s), late)
  }

  function InLedgerOnly(a: Applied): Entry { Entry(a.version, a.name, Missing, None, false) }

  function InBoth(s: Migration, a: Applied): Entry {
    Entry(s.version, s.name, if s.checksum == a.checksum then Done else Modified, Some(s), false)
  }

  /** One turn of the merge: the entry of the smaller head, and what is left of both lists. */
  function Turn(s: seq<Migration>, a: seq<Applied>, latest: int, allowLate: bool)
    : (r: (Entry, seq<Migration>, seq<Applied>))
    requires s != [] || a != []
    ensures |r.1| + |r.2| < |s| + |a|
  {
    if a == [] || (s != [] && s[0].version < a[0].version) then (OnDiskOnly(s[0], latest, allowLate), s[1..], a)
    else if s == [] || a[0].version < s[0].version then (InLedgerOnly(a[0]), s, a[1..])
    else (InBoth(s[0], a[0]), s[1..], a[1..])
  }

  /** The merge of two sorted lists. */
  function Merge(s: seq<Migration>, a: seq<Applied>, latest: int, allowLate: bool): seq<Entry>
    decreases |s| + |a|
  {
    if s == [] && a == [] then []
    else
      var t := Turn(s, a, latest, allowLate);
      [t.0] + Merge(t.1, t.2, latest, allowLate)
  }

  datatype Plan = Plan(entries: seq<Entry>, pending: nat, problems: nat)

  function Count(p: State -> bool, entries: seq<Entry>): (n: nat)
    ensures n == 0 <==> forall e :: e in entries ==> !p(e.state)
  {
    if entries == [] then 0
    else Count(p, entries[..|entries| - 1]) + (if p(entries[|entries| - 1].state) then 1 else 0)
  }

  function IsPending(): State -> bool { s => s == Pending }
  function IsBad(): State -> bool { s => IsProblem(s) }

  method AddEntry(plan: Plan, e: Entry) returns (next: Plan)
    requires Counted(plan)
    ensures Counted(next) && next.entries == plan.entries + [e]
  {
    hide Count;
    var pending, problems := plan.pending, plan.problems;
    if e.state == Pending { pending := pending + 1; } else if IsProblem(e.state) { problems := problems + 1; }
    next := Plan(plan.entries + [e], pending, problems);
    CountNext(IsPending(), plan.entries, e);
    CountNext(IsBad(), plan.entries, e);
  }

  lemma CountNext(p: State -> bool, entries: seq<Entry>, e: Entry)
    ensures Count(p, entries + [e]) == Count(p, entries) + if p(e.state) then 1 else 0
  {
    assert (entries + [e])[..|entries|] == entries;
  }

  predicate Counted(plan: Plan) {
    plan.pending == Count(IsPending(), plan.entries) && plan.problems == Count(IsBad(), plan.entries)
  }

  method CheckSorted(s: seq<Migration>, a: seq<Applied>) returns (ok: bool)
    ensures ok == (SourceSorted(s) && LedgerSorted(a))
  {
    var i := 1;
    while i < |s|
      invariant 1 <= i && forall j, k :: 0 <= j < k < i && k < |s| ==> s[j].version < s[k].version
    {
      if s[i].version <= s[i - 1].version { return false; }
      i := i + 1;
    }
    i := 1;
    while i < |a|
      invariant 1 <= i && forall j, k :: 0 <= j < k < i && k < |a| ==> a[j].version < a[k].version
    {
      if a[i].version <= a[i - 1].version { return false; }
      i := i + 1;
    }
    return true;
  }

  /** None when an input is not sorted by unique version. */
  method PlanBuild(s: seq<Migration>, a: seq<Applied>, allowLate: bool) returns (plan: Option<Plan>)
    ensures plan.Some? <==> SourceSorted(s) && LedgerSorted(a)
    ensures plan.Some? ==> plan.value.entries == Merge(s, a, Latest(a), allowLate) && Counted(plan.value)
  {
    hide Counted, Merge;
    var sorted := CheckSorted(s, a);
    if !sorted { return None; }
    hide SourceSorted, LedgerSorted, Latest;
    var out := EmptyPlan();
    var i, j := 0, 0;
    ghost var latest := Latest(a);
    assert s[0..] == s && a[0..] == a && out.entries + Merge(s, a, latest, allowLate) == Merge(s, a, latest, allowLate);
    while i < |s| || j < |a|
      invariant 0 <= i <= |s| && 0 <= j <= |a| && Counted(out)
      invariant Merge(s, a, latest, allowLate) == out.entries + Merge(s[i..], a[j..], latest, allowLate)
      decreases |s| - i + |a| - j
    {
      var e, i', j' := NextEntry(s, a, i, j, allowLate);
      ghost var before, rest := out.entries, Merge(s[i'..], a[j'..], latest, allowLate);
      out := AddEntry(out, e);
      i, j := i', j';
      assert before + ([e] + rest) == (before + [e]) + rest;
    }
    MergeTurn(s[i..], a[j..], latest, allowLate);
    assert out.entries + [] == out.entries;
    return Some(out);
  }

  /** One turn of the merge loop. */
  method NextEntry(s: seq<Migration>, a: seq<Applied>, i: nat, j: nat, allowLate: bool)
    returns (e: Entry, i': nat, j': nat)
    requires i <= |s| && j <= |a| && (i < |s| || j < |a|)
    ensures i <= i' <= |s| && j <= j' <= |a| && i' + j' > i + j
    ensures Merge(s[i..], a[j..], Latest(a), allowLate) == [e] + Merge(s[i'..], a[j'..], Latest(a), allowLate)
  {
    hide Merge;
    MergeTurn(s[i..], a[j..], Latest(a), allowLate);
    if i < |s| { assert s[i..][0] == s[i] && s[i..][1..] == s[i + 1..]; }
    if j < |a| { assert a[j..][0] == a[j] && a[j..][1..] == a[j + 1..]; }
    if i < |s| && (j == |a| || s[i].version < a[j].version) {
      return OnDiskOnly(s[i], Latest(a), allowLate), i + 1, j;
    } else if j < |a| && (i == |s| || a[j].version < s[i].version) {
      return InLedgerOnly(a[j]), i, j + 1;
    } else {
      return InBoth(s[i], a[j]), i + 1, j + 1;
    }
  }

  lemma MergeTurn(s: seq<Migration>, a: seq<Applied>, latest: int, allowLate: bool)
    ensures s == [] && a == [] ==> Merge(s, a, latest, allowLate) == []
    ensures s != [] || a != [] ==>
      var t := Turn(s, a, latest, allowLate);
      Merge(s, a, latest, allowLate) == [t.0] + Merge(t.1, t.2, latest, allowLate)
  {
  }

  method EmptyPlan() returns (plan: Plan)
    ensures Counted(plan) && plan.entries == []
  {
    plan := Plan([], 0, 0);
  }

  predicate FirstBad(entries: seq<Entry>, i: nat, e: Entry) {
    && i < |entries| && entries[i] == e && IsProblem(e.state)
    && forall k :: 0 <= k < i ==> !IsProblem(entries[k].state)
  }

  method FirstProblem(plan: Plan) returns (e: Option<Entry>)
    requires Counted(plan)
    ensures e.None? <==> plan.problems == 0
    ensures e.Some? ==> exists i :: 0 <= i < |plan.entries| && FirstBad(plan.entries, i, e.value)
  {
    for i := 0 to |plan.entries|
      invariant forall k :: 0 <= k < i ==> !IsProblem(plan.entries[k].state)
    {
      if IsProblem(plan.entries[i].state) {
        assert FirstBad(plan.entries, i, plan.entries[i]);
        return Some(plan.entries[i]);
      }
    }
    return None;
  }

  // ---------------------------------------------------------------------
  // What a plan says
  // ---------------------------------------------------------------------

  function FileOf(s: seq<Migration>, v: nat): (m: Option<Migration>)
    ensures m.Some? ==> m.value in s && m.value.version == v
    ensures m.None? <==> forall x :: x in s ==> x.version != v
  {
    if s == [] then None else if s[0].version == v then Some(s[0]) else FileOf(s[1..], v)
  }

  function RowOf(a: seq<Applied>, v: nat): (r: Option<Applied>)
    ensures r.Some? ==> r.value in a && r.value.version == v
    ensures r.None? <==> forall x :: x in a ==> x.version != v
  {
    if a == [] then None else if a[0].version == v then Some(a[0]) else RowOf(a[1..], v)
  }

  /** The entry of a version, looked up in the two lists. */
  function EntryOf(s: seq<Migration>, a: seq<Applied>, latest: int, allowLate: bool, v: nat): Option<Entry> {
    match (FileOf(s, v), RowOf(a, v))
    case (None, None) => None
    case (Some(m), None) => Some(OnDiskOnly(m, latest, allowLate))
    case (None, Some(r)) => Some(InLedgerOnly(r))
    case (Some(m), Some(r)) => Some(InBoth(m, r))
  }

  /** The lists left after a turn are sorted and have only later versions; their lookups are unchanged. */
  lemma TurnLeaves(s: seq<Migration>, a: seq<Applied>, latest: int, allowLate: bool, v: nat)
    requires SourceSorted(s) && LedgerSorted(a) && (s != [] || a != [])
    ensures var t := Turn(s, a, latest, allowLate);
      && SourceSorted(t.1) && LedgerSorted(t.2)
      && EntryOf(s, a, latest, allowLate, t.0.version) == Some(t.0)
      && (v != t.0.version ==> FileOf(t.1, v) == FileOf(s, v) && RowOf(t.2, v) == RowOf(a, v))
      && (v <= t.0.version ==> FileOf(t.1, v).None? && RowOf(t.2, v).None?)
  {
    hide SourceSorted, LedgerSorted, FileOf, RowOf, OnDiskOnly, InLedgerOnly, InBoth;
    var t := Turn(s, a, latest, allowLate);
    EntryVersions(s, a, latest, allowLate);
    if s != [] { FileHead(s, v); FileHead(s, t.0.version); }
    if a != [] { RowHead(a, v); RowHead(a, t.0.version); }
    NothingFound(v);
    NothingFound(t.0.version);
  }

  lemma NothingFound(v: nat)
    ensures FileOf([], v).None? && RowOf([], v).None? && SourceSorted([]) && LedgerSorted([])
  {
  }

  lemma FileHead(s: seq<Migration>, v: nat)
    requires SourceSorted(s) && s != []
    ensures SourceSorted(s[1..])
    ensures FileOf(s, v) == if s[0].version == v then Some(s[0]) else FileOf(s[1..], v)
    ensures v <= s[0].version ==> FileOf(s[1..], v).None?
  {
  }

  lemma RowHead(a: seq<Applied>, v: nat)
    requires LedgerSorted(a) && a != []
    ensures LedgerSorted(a[1..])
    ensures RowOf(a, v) == if a[0].version == v then Some(a[0]) else RowOf(a[1..], v)
    ensures v <= a[0].version ==> RowOf(a[1..], v).None?
  {
  }

  lemma EntryVersions(s: seq<Migration>, a: seq<Applied>, latest: int, allowLate: bool)
    ensures s != [] ==> OnDiskOnly(s[0], latest, allowLate).version == s[0].version
    ensures a != [] ==> InLedgerOnly(a[0]).version == a[0].version
    ensures s != [] && a != [] ==> InBoth(s[0], a[0]).version == s[0].version
  {
  }

  /** The merge has exactly the entry of every version on disk or in the ledger. */
  lemma {:induction false} MergeExact(s: seq<Migration>, a: seq<Applied>, latest: int, allowLate: bool, e: Entry)
    requires SourceSorted(s) && LedgerSorted(a)
    ensures e in Merge(s, a, latest, allowLate) <==> EntryOf(s, a, latest, allowLate, e.version) == Some(e)
    decreases |s| + |a|
  {
    hide Turn, SourceSorted, LedgerSorted, OnDiskOnly, InLedgerOnly, InBoth, FileOf, RowOf;
    if s != [] || a != [] {
      var t := Turn(s, a, latest, allowLate);
      TurnLeaves(s, a, latest, allowLate, e.version);
      MergeExact(t.1, t.2, latest, allowLate, e);
    }
  }

  /** In strictly ascending version order. */
  lemma {:induction false} MergeAscending(s: seq<Migration>, a: seq<Applied>, latest: int, allowLate: bool)
    requires SourceSorted(s) && LedgerSorted(a)
    ensures var es := Merge(s, a, latest, allowLate);
      forall i, j :: 0 <= i < j < |es| ==> es[i].version < es[j].version
    decreases |s| + |a|
  {
    hide Turn, SourceSorted, LedgerSorted, EntryOf, FileOf, RowOf;
    var es := Merge(s, a, latest, allowLate);
    if s != [] || a != [] {
      var t := Turn(s, a, latest, allowLate);
      var rest := Merge(t.1, t.2, latest, allowLate);
      TurnLeaves(s, a, latest, allowLate, 0);
      MergeAscending(t.1, t.2, latest, allowLate);
      forall j | 0 <= j < |rest| ensures t.0.version < rest[j].version {
        MergeExact(t.1, t.2, latest, allowLate, rest[j]);
        TurnLeaves(s, a, latest, allowLate, rest[j].version);
        EntryFound(t.1, t.2, latest, allowLate, rest[j]);
      }
      assert es == [t.0] + rest;
      forall i, j | 0 <= i < j < |es| ensures es[i].version < es[j].version {
        assert es[j] == rest[j - 1] && (i > 0 ==> es[i] == rest[i - 1]);
      }
    }
  }

  lemma EntryFound(s: seq<Migration>, a: seq<Applied>, latest: int, allowLate: bool, e: Entry)
    requires EntryOf(s, a, latest, allowLate, e.version) == Some(e)
    ensures FileOf(s, e.version).Some? || RowOf(a, e.version).Some?
  {
  }

  // ---------------------------------------------------------------------
  // Clean plans
  // ---------------------------------------------------------------------

  /** Everything applied is on disk unchanged, and nothing on disk came too late. */
  predicate Clean(s: seq<Migration>, a: seq<Applied>, allowLate: bool) {
    && (forall r :: r in a ==> FileOf(s, r.version).Some? && FileOf(s, r.version).value.checksum == r.checksum)
    && (forall m :: m in s && RowOf(a, m.version).None? ==> allowLate || m.version >= Latest(a))
  }

  lemma FileUnique(s: seq<Migration>, m: Migration)
    requires SourceSorted(s) && m in s
    ensures FileOf(s, m.version) == Some(m)
  {
  }

  lemma RowUnique(a: seq<Applied>, r: Applied)
    requires LedgerSorted(a) && r in a
    ensures RowOf(a, r.version) == Some(r)
  {
  }

  /** A plan has no problem exactly when the two lists fit. */
  lemma NoProblemIff(s: seq<Migration>, a: seq<Applied>, allowLate: bool)
    requires SourceSorted(s) && LedgerSorted(a)
    ensures Count(IsBad(), Merge(s, a, Latest(a), allowLate)) == 0 <==> Clean(s, a, allowLate)
  {
    hide Merge, SourceSorted, LedgerSorted;
    var es := Merge(s, a, Latest(a), allowLate);
    if Clean(s, a, allowLate) {
      forall e | e in es ensures !IsProblem(e.state) {
        MergeExact(s, a, Latest(a), allowLate, e);
      }
    } else if r :| r in a && !(FileOf(s, r.version).Some? && FileOf(s, r.version).value.checksum == r.checksum) {
      RowUnique(a, r);
      var e := EntryOf(s, a, Latest(a), allowLate, r.version).value;
      MergeExact(s, a, Latest(a), allowLate, e);
      assert IsProblem(e.state);
    } else {
      var m :| m in s && RowOf(a, m.version).None? && !allowLate && m.version < Latest(a);
      FileUnique(s, m);
      var e := OnDiskOnly(m, Latest(a), allowLate);
      MergeExact(s, a, Latest(a), allowLate, e);
      assert IsProblem(e.state);
    }
  }

  /** The files not in the ledger, in order. */
  function Todo(s: seq<Migration>, a: seq<Applied>): (t: seq<Migration>)
    ensures forall m :: m in t <==> m in s && RowOf(a, m.version).None?
  {
    if s == [] then [] else (if RowOf(a, s[0].version).None? then [s[0]] else []) + Todo(s[1..], a)
  }

  /** The migrations of the pending entries. */
  function PendingOf(es: seq<Entry>): seq<Migration> {
    if es == [] then []
    else
      (if es[0].state == Pending && es[0].migration.Some? then [es[0].migration.value] else []) + PendingOf(es[1..])
  }

  lemma {:induction false} TodoSame(s: seq<Migration>, a: seq<Applied>, b: seq<Applied>)
    requires forall m :: m in s ==> RowOf(a, m.version).None? == RowOf(b, m.version).None?
    ensures Todo(s, a) == Todo(s, b)
  {
    if s != [] { TodoSame(s[1..], a, b); }
  }

  lemma TurnTodo(s: seq<Migration>, a: seq<Applied>, latest: int, allowLate: bool)
    requires SourceSorted(s) && LedgerSorted(a) && (s != [] || a != [])
    requires !IsProblem(Turn(s, a, latest, allowLate).0.state)
    ensures var t := Turn(s, a, latest, allowLate);
      Todo(s, a) == (if t.0.state == Pending then [t.0.migration.value] else []) + Todo(t.1, t.2)
  {
    var t := Turn(s, a, latest, allowLate);
    assert s != [];
    TodoSame(s[1..], a, t.2);
  }

  /** What a clean plan has pending is what is on disk and not in the ledger. */
  lemma {:induction false} PendingIsTodo(s: seq<Migration>, a: seq<Applied>, latest: int, allowLate: bool)
    requires SourceSorted(s) && LedgerSorted(a)
    requires forall e :: e in Merge(s, a, latest, allowLate) ==> !IsProblem(e.state)
    ensures PendingOf(Merge(s, a, latest, allowLate)) == Todo(s, a)
    decreases |s| + |a|
  {
    hide Turn, SourceSorted, LedgerSorted, EntryOf, FileOf, RowOf, Todo, IsProblem;
    var es := Merge(s, a, latest, allowLate);
    if s == [] && a == [] {
      TodoNothing(a);
    } else {
      var t := Turn(s, a, latest, allowLate);
      TurnLeaves(s, a, latest, allowLate, 0);
      assert es[0] == t.0 && es[1..] == Merge(t.1, t.2, latest, allowLate);
      assert es[0] in es && forall e :: e in es[1..] ==> e in es;
      PendingIsTodo(t.1, t.2, latest, allowLate);
      TurnTodo(s, a, latest, allowLate);
      TurnMigration(s, a, latest, allowLate);
    }
  }

  lemma TodoNothing(a: seq<Applied>)
    ensures Todo([], a) == []
  {
  }

  lemma TurnMigration(s: seq<Migration>, a: seq<Applied>, latest: int, allowLate: bool)
    requires s != [] || a != []
    ensures var e := Turn(s, a, latest, allowLate).0; e.state == Pending ==> e.migration.Some?
  {
  }

  // ---------------------------------------------------------------------
  // What the states mean
  // ---------------------------------------------------------------------

  predicate OnDisk(s: seq<Migration>, v: nat) { exists m :: m in s && m.version == v }
  predicate InLedger(a: seq<Applied>, v: nat) { exists r :: r in a && r.version == v }

  /** The file and the row of version v have one checksum. */
  predicate SameChecksum(s: seq<Migration>, a: seq<Applied>, v: nat) {
    exists m, r :: m in s && r in a && m.version == v && r.version == v && m.checksum == r.checksum
  }

  /** Something later than v was applied. */
  predicate LaterApplied(a: seq<Applied>, v: nat) { exists r :: r in a && r.version > v }

  /** Each state of a plan's entry, by what is on disk and in the ledger. */
  lemma StatesMean(s: seq<Migration>, a: seq<Applied>, allowLate: bool, e: Entry)
    requires SourceSorted(s) && LedgerSorted(a) && e in Merge(s, a, Latest(a), allowLate)
    ensures e.state == Missing <==> InLedger(a, e.version) && !OnDisk(s, e.version)
    ensures e.state == Done <==> SameChecksum(s, a, e.version)
    ensures e.state == Modified <==> OnDisk(s, e.version) && InLedger(a, e.version) && !SameChecksum(s, a, e.version)
    ensures e.late <==> OnDisk(s, e.version) && !InLedger(a, e.version) && LaterApplied(a, e.version)
    ensures e.state == OutOfOrder <==> e.late && !allowLate
    ensures e.migration.Some? <==> OnDisk(s, e.version)
    ensures e.migration.Some? ==> e.migration.value in s && e.migration.value.version == e.version
  {
    hide Merge, SourceSorted, LedgerSorted;
    MergeExact(s, a, Latest(a), allowLate, e);
    LatestMeans(a, e.version);
    if FileOf(s, e.version).Some? && RowOf(a, e.version).Some? { OneEach(s, a, e.version); }
  }

  lemma LatestMeans(a: seq<Applied>, v: nat)
    requires LedgerSorted(a)
    ensures v < Latest(a) <==> LaterApplied(a, v)
  {
    if a != [] { assert a[|a| - 1] in a; }
  }

  lemma OneEach(s: seq<Migration>, a: seq<Applied>, v: nat)
    requires SourceSorted(s) && LedgerSorted(a) && FileOf(s, v).Some? && RowOf(a, v).Some?
    ensures SameChecksum(s, a, v) <==> FileOf(s, v).value.checksum == RowOf(a, v).value.checksum
  {
    var m, r := FileOf(s, v).value, RowOf(a, v).value;
    forall x | x in s && x.version == v ensures x == m { FileUnique(s, x); }
    forall x | x in a && x.version == v ensures x == r { RowUnique(a, x); }
  }
}
