// The migration generator (tools/migrate/src/table_spec.c, generate.c): compare
// the shape a schema expects with the shape the database has, and write the
// statements that close the gap, or refuse.
module Migrate {
  import opened Text

  // ---------------------------------------------------------------------
  // Shapes and their differences
  // ---------------------------------------------------------------------

  datatype Column = Column(name: string, typ: string, pk: bool)
  datatype Hint = Hint(table: string, from: string, to: string)

  /** A table without columns is a missing table. */
  datatype Request = Request(table: string, expected: seq<Column>, actual: seq<Column>, hints: seq<Hint>)

  datatype Diff =
    | TableMissing
    | ColumnMissing(e: Column)
    | ColumnExtra(a: Column)
    | TypeMismatch(e: Column, a: Column)
    | PkMissing(e: Column, a: Column)
    | PkExtra(e: Column, a: Column)

  const RENAMES_MAX: nat := 32

  /** The first column of this name. */
  function Find(cols: seq<Column>, name: string): (r: Option<Column>)
    ensures r.None? <==> forall i :: 0 <= i < |cols| ==> cols[i].name != name
    ensures r.Some? ==> r.value in cols && r.value.name == name
  {
    if cols == [] then None else if cols[0].name == name then Some(cols[0]) else Find(cols[1..], name)
  }

  predicate Has(cols: seq<Column>, name: string) { Find(cols, name).Some? }

  predicate DistinctNames(cols: seq<Column>) {
    forall i, j :: 0 <= i < j < |cols| ==> cols[i].name != cols[j].name
  }

  function TypeDiffs(e: Column, a: Column): seq<Diff> {
    (if e.typ != a.typ then [TypeMismatch(e, a)] else [])
      + (if e.pk && !a.pk then [PkMissing(e, a)] else if !e.pk && a.pk then [PkExtra(e, a)] else [])
  }

  function ColumnDiffs(e: Column, actual: seq<Column>): seq<Diff> {
    match Find(actual, e.name)
    case None => [ColumnMissing(e)]
    case Some(a) => TypeDiffs(e, a)
  }

  function ExpectedDiffs(expected: seq<Column>, actual: seq<Column>): seq<Diff> {
    if expected == [] then []
    else
      var n := |expected| - 1;
      ExpectedDiffs(expected[..n], actual) + ColumnDiffs(expected[n], actual)
  }

  function ExtraDiffs(expected: seq<Column>, actual: seq<Column>): seq<Diff> {
    if actual == [] then []
    else
      var n := |actual| - 1;
      ExtraDiffs(expected, actual[..n]) + (if Has(expected, actual[n].name) then [] else [ColumnExtra(actual[n])])
  }

  /** All differences, in the order they are visited. */
  function Diffs(expected: seq<Column>, actual: seq<Column>): seq<Diff> {
    if actual == [] then [TableMissing] else ExpectedDiffs(expected, actual) + ExtraDiffs(expected, actual)
  }

  method FindColumn(cols: seq<Column>, name: string) returns (r: Option<Column>)
    ensures r == Find(cols, name)
  {
    var i := 0;
    while i < |cols|
      invariant i <= |cols| && Find(cols, name) == Find(cols[i..], name)
    {
      if cols[i].name == name { return Some(cols[i]); }
      assert cols[i..][1..] == cols[i + 1..];
      i := i + 1;
    }
    return None;
  }

  method DiffColumn(e: Column, actual: seq<Column>) returns (diffs: seq<Diff>)
    ensures diffs == ColumnDiffs(e, actual)
  {
    var a := FindColumn(actual, e.name);
    if a.None? { return [ColumnMissing(e)]; }
    diffs := [];
    if e.typ != a.value.typ { diffs := [TypeMismatch(e, a.value)]; }
    if e.pk && !a.value.pk { diffs := diffs + [PkMissing(e, a.value)]; }
    else if !e.pk && a.value.pk { diffs := diffs + [PkExtra(e, a.value)]; }
  }

  method SpecDiff(expected: seq<Column>, actual: seq<Column>) returns (diffs: seq<Diff>)
    ensures diffs == Diffs(expected, actual)
  {
    hide ColumnDiffs;
    if |actual| == 0 { return [TableMissing]; }
    diffs := [];
    for i := 0 to |expected|
      invariant diffs == ExpectedDiffs(expected[..i], actual)
    {
      assert expected[..i + 1][..i] == expected[..i];
      var more := DiffColumn(expected[i], actual);
      diffs := diffs + more;
    }
    assert expected[..|expected|] == expected;
    ghost var first := diffs;
    for i := 0 to |actual|
      invariant diffs == first + ExtraDiffs(expected, actual[..i])
    {
      assert actual[..i + 1][..i] == actual[..i];
      var e := FindColumn(expected, actual[i].name);
      if e.None? { diffs := diffs + [ColumnExtra(actual[i])]; }
    }
    assert actual[..|actual|] == actual;
  }

  lemma {:induction false} ExpectedDiffIff(expected: seq<Column>, actual: seq<Column>, d: Diff)
    ensures d in ExpectedDiffs(expected, actual) <==>
      exists i :: 0 <= i < |expected| && d in ColumnDiffs(expected[i], actual)
  {
    hide ColumnDiffs;
    if expected != [] {
      var n := |expected| - 1;
      ExpectedDiffIff(expected[..n], actual, d);
      if d in ExpectedDiffs(expected[..n], actual) {
        var i :| 0 <= i < n && d in ColumnDiffs(expected[..n][i], actual);
        assert d in ColumnDiffs(expected[i], actual);
      }
      if i :| 0 <= i < n && d in ColumnDiffs(expected[i], actual) {
        assert d in ColumnDiffs(expected[..n][i], actual);
      }
    }
  }

  lemma {:induction false} ExtraDiffIff(expected: seq<Column>, actual: seq<Column>, d: Diff)
    ensures d in ExtraDiffs(expected, actual) <==>
      d.ColumnExtra? && d.a in actual && !Has(expected, d.a.name)
  {
    if actual != [] {
      ExtraDiffIff(expected, actual[..|actual| - 1], d);
    }
  }

  /** Column e is there with the type and key flag the schema gives it. */
  predicate Agrees(e: Column, cols: seq<Column>) {
    Find(cols, e.name).Some? && Find(cols, e.name).value == e
  }

  predicate Matches(expected: seq<Column>, actual: seq<Column>) {
    && actual != []
    && (forall i :: 0 <= i < |expected| ==> Agrees(expected[i], actual))
    && (forall i :: 0 <= i < |actual| ==> Has(expected, actual[i].name))
  }

  /** No differences means the same columns, whatever their order. */
  lemma NoDiffsIff(expected: seq<Column>, actual: seq<Column>)
    ensures Diffs(expected, actual) == [] <==> Matches(expected, actual)
  {
    if actual != [] {
      var diffs := Diffs(expected, actual);
      if diffs == [] {
        forall i | 0 <= i < |expected| ensures Agrees(expected[i], actual) {
          if ColumnDiffs(expected[i], actual) != [] {
            ExpectedDiffIff(expected, actual, ColumnDiffs(expected[i], actual)[0]);
          }
        }
        forall i | 0 <= i < |actual| ensures Has(expected, actual[i].name) {
          ExtraDiffIff(expected, actual, ColumnExtra(actual[i]));
        }
      } else if Matches(expected, actual) {
        ExpectedDiffIff(expected, actual, diffs[0]);
        ExtraDiffIff(expected, actual, diffs[0]);
      }
    }
  }

  // ---------------------------------------------------------------------
  // Rename hints
  // ---------------------------------------------------------------------

  predicate IdentifierStart(c: char) { 'a' <= c <= 'z' || 'A' <= c <= 'Z' || c == '_' }
  predicate IdentifierChar(c: char) { IdentifierStart(c) || IsDigit(c) }
  predicate PlainName(s: string) {
    s != "" && IdentifierStart(s[0]) && forall i :: 1 <= i < |s| ==> IdentifierChar(s[i])
  }

  method IsPlainName(s: string) returns (ok: bool)
    ensures ok == PlainName(s)
  {
    if s == "" || !IdentifierStart(s[0]) { return false; }
    for i := 1 to |s|
      invariant forall k :: 1 <= k < i ==> IdentifierChar(s[k])
    {
      if !IdentifierChar(s[i]) { return false; }
    }
    return true;
  }

  predicate Mine(q: Request, k: nat) requires k < |q.hints| { q.hints[k].table == q.table }

  /** Hint k names a database column the schema lacks and a schema column the database lacks, alike but for the name. */
  predicate Plausible(q: Request, h: Hint) {
    && PlainName(h.from) && PlainName(h.to)
    && Has(q.actual, h.from) && Has(q.expected, h.to)
    && !Has(q.expected, h.from) && !Has(q.actual, h.to)
    && Find(q.actual, h.from).value.typ == Find(q.expected, h.to).value.typ
    && Find(q.actual, h.from).value.pk == Find(q.expected, h.to).value.pk
  }

  predicate Clash(q: Request, j: nat, k: nat)
    requires j < |q.hints| && k < |q.hints|
  {
    Mine(q, j) && (q.hints[j].from == q.hints[k].from || q.hints[j].to == q.hints[k].to)
  }

  predicate Valid(q: Request, k: nat) requires k < |q.hints| {
    Mine(q, k) && Plausible(q, q.hints[k]) && forall j :: 0 <= j < k ==> !Clash(q, j, k)
  }

  predicate AllHintsHold(q: Request) { forall k :: 0 <= k < |q.hints| && Mine(q, k) ==> Valid(q, k) }

  predicate RenamedFrom(q: Request, name: string) {
    exists k :: 0 <= k < |q.hints| && Valid(q, k) && q.hints[k].from == name
  }

  predicate RenamedTo(q: Request, name: string) {
    exists k :: 0 <= k < |q.hints| && Valid(q, k) && q.hints[k].to == name
  }

  /** The flags the generator keeps per hint: for this table, and consistent. */
  ghost predicate Flagged(q: Request, mine: seq<bool>, valid: seq<bool>) {
    && |mine| == |valid| && |q.hints| <= |mine|
    && forall k :: 0 <= k < |q.hints| ==> mine[k] == Mine(q, k) && (mine[k] && valid[k] <==> Valid(q, k))
  }

  method CheckPlausible(q: Request, h: Hint) returns (ok: bool)
    ensures ok == Plausible(q, h)
  {
    var plainFrom := IsPlainName(h.from);
    var plainTo := IsPlainName(h.to);
    if !plainFrom || !plainTo { return false; }
    var aFrom := FindColumn(q.actual, h.from);
    var eTo := FindColumn(q.expected, h.to);
    if aFrom.None? || eTo.None? { return false; }
    var eFrom := FindColumn(q.expected, h.from);
    var aTo := FindColumn(q.actual, h.to);
    if eFrom.Some? || aTo.Some? { return false; }
    return aFrom.value.typ == eTo.value.typ && aFrom.value.pk == eTo.value.pk;
  }

  /** Number of hints for this table that do not hold, among the first n. */
  function BadHints(q: Request, n: nat): (bad: nat)
    requires n <= |q.hints|
    ensures bad == 0 <==> forall k :: 0 <= k < n && Mine(q, k) ==> Valid(q, k)
  {
    if n == 0 then 0 else BadHints(q, n - 1) + (if Mine(q, n - 1) && !Valid(q, n - 1) then 1 else 0)
  }

  method ValidateRenames(q: Request, mine: array<bool>, valid: array<bool>) returns (refusals: nat)
    requires mine != valid && mine.Length == valid.Length == RENAMES_MAX && |q.hints| <= RENAMES_MAX
    requires forall k :: 0 <= k < RENAMES_MAX ==> !mine[k] && !valid[k]
    modifies mine, valid
    ensures Flagged(q, mine[..], valid[..]) && refusals == BadHints(q, |q.hints|)
  {
    hide Plausible;
    refusals := 0;
    for i := 0 to |q.hints|
      invariant refusals == BadHints(q, i)
      invariant forall k :: 0 <= k < i ==> mine[k] == Mine(q, k) && valid[k] == Valid(q, k)
      invariant forall k :: i <= k < RENAMES_MAX ==> !mine[k] && !valid[k]
    {
      if q.hints[i].table != q.table { continue; }
      mine[i] := true;
      var plausible := CheckPlausible(q, q.hints[i]);
      if !plausible { refusals := refusals + 1; continue; }
      var conflict := false;
      for j := 0 to i
        invariant conflict <==> exists c :: 0 <= c < j && Clash(q, c, i)
      {
        if mine[j] && (q.hints[j].from == q.hints[i].from || q.hints[j].to == q.hints[i].to) {
          assert Clash(q, j, i);
          conflict := true;
        }
      }
      if conflict { refusals := refusals + 1; continue; }
      valid[i] := true;
    }
  }

  method ConsumedFrom(q: Request, mine: seq<bool>, valid: seq<bool>, name: string) returns (r: bool)
    requires Flagged(q, mine, valid)
    ensures r == RenamedFrom(q, name)
  {
    for i := 0 to |q.hints|
      invariant forall k :: 0 <= k < i && Valid(q, k) ==> q.hints[k].from != name
    {
      if mine[i] && valid[i] && q.hints[i].from == name { return true; }
    }
    return false;
  }

  method ConsumedTo(q: Request, mine: seq<bool>, valid: seq<bool>, name: string) returns (r: bool)
    requires Flagged(q, mine, valid)
    ensures r == RenamedTo(q, name)
  {
    for i := 0 to |q.hints|
      invariant forall k :: 0 <= k < i && Valid(q, k) ==> q.hints[k].to != name
    {
      if mine[i] && valid[i] && q.hints[i].to == name { return true; }
    }
    return false;
  }

  // ---------------------------------------------------------------------
  // Generating
  // ---------------------------------------------------------------------

  datatype Statement =
    | Create(columns: seq<Column>)
    | Rename(from: string, to: string)
    | Add(name: string, typ: string)

  datatype Verdict = Refused | Nothing | Ok(script: seq<Statement>)

  /** A difference no generated statement may close. */
  predicate Blocking(q: Request, d: Diff) {
    match d
    case TableMissing => false
    case ColumnMissing(e) => !RenamedTo(q, e.name) && e.pk
    case ColumnExtra(a) => !RenamedFrom(q, a.name)
    case _ => true
  }

  predicate AnyBlocking(q: Request, diffs: seq<Diff>) {
    exists i :: 0 <= i < |diffs| && Blocking(q, diffs[i])
  }

  predicate PlainNames(q: Request) {
    PlainName(q.table) && forall i :: 0 <= i < |q.expected| ==> PlainName(q.expected[i].name)
  }

  function RenameScript(q: Request, n: nat): seq<Statement>
    requires n <= |q.hints|
  {
    if n == 0 then []
    else
      RenameScript(q, n - 1)
        + (if Valid(q, n - 1) then [Rename(q.hints[n - 1].from, q.hints[n - 1].to)] else [])
  }

  predicate Added(q: Request, d: Diff) { d.ColumnMissing? && !RenamedTo(q, d.e.name) }

  function AddScript(q: Request, diffs: seq<Diff>): seq<Statement> {
    if diffs == [] then []
    else
      var d := diffs[|diffs| - 1];
      AddScript(q, diffs[..|diffs| - 1]) + (if Added(q, d) then [Add(d.e.name, d.e.typ)] else [])
  }

  function Script(q: Request): seq<Statement> {
    if q.actual == [] then [Create(q.expected)]
    else RenameScript(q, |q.hints|) + AddScript(q, Diffs(q.expected, q.actual))
  }

  predicate Acceptable(q: Request) {
    |q.hints| <= RENAMES_MAX && PlainNames(q) && AllHintsHold(q) && !AnyBlocking(q, Diffs(q.expected, q.actual))
  }

  function Generated(q: Request): Verdict {
    if !Acceptable(q) then Refused
    else if Diffs(q.expected, q.actual) == [] then Nothing
    else Ok(Script(q))
  }

  method CheckNames(q: Request) returns (ok: bool)
    ensures ok == PlainNames(q)
  {
    ok := IsPlainName(q.table);
    if !ok { return; }
    for i := 0 to |q.expected|
      invariant ok <==> forall k :: 0 <= k < i ==> PlainName(q.expected[k].name)
    {
      if ok { ok := IsPlainName(q.expected[i].name); }
    }
  }

  method ScanForRefusals(q: Request, mine: seq<bool>, valid: seq<bool>, diffs: seq<Diff>) returns (refusals: nat)
    requires Flagged(q, mine, valid)
    ensures refusals > 0 <==> AnyBlocking(q, diffs)
  {
    hide RenamedTo, RenamedFrom;
    refusals := 0;
    for i := 0 to |diffs|
      invariant refusals == 0 <==> forall k :: 0 <= k < i ==> !Blocking(q, diffs[k])
    {
      var blocks := false;
      match diffs[i] {
        case TableMissing =>
        case ColumnMissing(e) =>
          var consumed := ConsumedTo(q, mine, valid, e.name);
          blocks := !consumed && e.pk;
        case ColumnExtra(a) =>
          var consumed := ConsumedFrom(q, mine, valid, a.name);
          blocks := !consumed;
        case _ => blocks := true;
      }
      if blocks { refusals := refusals + 1; }
    }
  }

  method EmitRenames(q: Request, mine: seq<bool>, valid: seq<bool>) returns (script: seq<Statement>)
    requires Flagged(q, mine, valid)
    ensures script == RenameScript(q, |q.hints|)
  {
    script := [];
    for i := 0 to |q.hints|
      invariant script == RenameScript(q, i)
    {
      if mine[i] && valid[i] { script := script + [Rename(q.hints[i].from, q.hints[i].to)]; }
    }
  }

  method EmitAdds(q: Request, mine: seq<bool>, valid: seq<bool>, diffs: seq<Diff>) returns (script: seq<Statement>)
    requires Flagged(q, mine, valid)
    ensures script == AddScript(q, diffs)
  {
    hide RenamedTo;
    script := [];
    for i := 0 to |diffs|
      invariant script == AddScript(q, diffs[..i])
    {
      var d := diffs[i];
      assert diffs[..i + 1][..i] == diffs[..i];
      if d.ColumnMissing? {
        var consumed := ConsumedTo(q, mine, valid, d.e.name);
        if !consumed { script := script + [Add(d.e.name, d.e.typ)]; }
      }
    }
    assert diffs[..|diffs|] == diffs;
  }

  /** An empty script would be reported as out of memory; OkScriptNotEmpty shows it never is. */
  method GenerateSql(q: Request) returns (v: Verdict)
    ensures v == Generated(q)
  {
    hide Valid, AnyBlocking, PlainNames, Diffs;
    if |q.hints| > RENAMES_MAX { return Refused; }
    var namesOk := CheckNames(q);
    if !namesOk { return Refused; }
    var mine := new bool[RENAMES_MAX](_ => false);
    var valid := new bool[RENAMES_MAX](_ => false);
    var bad := ValidateRenames(q, mine, valid);
    var m, f := mine[..], valid[..];
    var diffs := SpecDiff(q.expected, q.actual);
    var blocked := ScanForRefusals(q, m, f, diffs);
    if bad + blocked > 0 { return Refused; }
    if |diffs| == 0 { return Nothing; }
    var script;
    if |q.actual| == 0 {
      script := [Create(q.expected)];
    } else {
      var renames := EmitRenames(q, m, f);
      var adds := EmitAdds(q, m, f, diffs);
      script := renames + adds;
    }
    OkScriptNotEmpty(q);
    if script == [] { return Refused; }
    return Ok(script);
  }

  lemma {:induction false} RenameScriptNotEmpty(q: Request, n: nat, k: nat)
    requires k < n <= |q.hints| && Valid(q, k)
    ensures RenameScript(q, n) != []
  {
    if k < n - 1 { RenameScriptNotEmpty(q, n - 1, k); }
  }

  lemma {:induction false} AddScriptNotEmpty(q: Request, diffs: seq<Diff>, k: nat)
    requires k < |diffs| && Added(q, diffs[k])
    ensures AddScript(q, diffs) != []
  {
    if k < |diffs| - 1 { AddScriptNotEmpty(q, diffs[..|diffs| - 1], k); }
  }

  lemma OkScriptNotEmpty(q: Request)
    requires Acceptable(q) && Diffs(q.expected, q.actual) != []
    ensures Script(q) != []
  {
    hide Valid, Diffs, PlainNames, AllHintsHold;
    if q.actual != [] {
      var diffs := Diffs(q.expected, q.actual);
      var d := diffs[0];
      assert !Blocking(q, d);
      DiffOfExistingTable(q, d);
      if Added(q, d) {
        AddScriptNotEmpty(q, diffs, 0);
      } else if d.ColumnMissing? {
        var k :| 0 <= k < |q.hints| && Valid(q, k) && q.hints[k].to == d.e.name;
        RenameScriptNotEmpty(q, |q.hints|, k);
      } else {
        var k :| 0 <= k < |q.hints| && Valid(q, k) && q.hints[k].from == d.a.name;
        RenameScriptNotEmpty(q, |q.hints|, k);
      }
    }
  }

  lemma DiffOfExistingTable(q: Request, d: Diff)
    requires q.actual != [] && d in Diffs(q.expected, q.actual)
    ensures !d.TableMissing?
  {
    ExpectedDiffIff(q.expected, q.actual, d);
    ExtraDiffIff(q.expected, q.actual, d);
  }
}
