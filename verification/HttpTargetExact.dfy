// Which request targets are accepted and what they decode to, character by
// character (modules/web/src/http/parser.c and server_request.c).
module HttpTargetExact {
  import opened Text
  import opened HttpTarget

  // ---------------------------------------------------------------------
  // Accepted targets
  // ---------------------------------------------------------------------

  /** A '%' at i starts an escape of a character that is no control, slash or backslash. */
  predicate SafeEscapeAt(t: string, i: nat)
    requires i < |t|
  {
    && i + 2 < |t| && HexValue(t[i + 1]) >= 0 && HexValue(t[i + 2]) >= 0
    && var code := 16 * HexValue(t[i + 1]) + HexValue(t[i + 2]);
       code >= 32 && code != 127 && code != 47 && code != 92
  }

  predicate CleanAt(t: string, i: nat)
    requires i < |t|
  {
    t[i] != '#' && t[i] != '\\' && (t[i] == '%' ==> SafeEscapeAt(t, i))
  }

  predicate Clean(t: string) { forall i :: 0 <= i < |t| ==> CleanAt(t, i) }

  predicate IsDots(segment: string) { Unescape(segment) == Some(".") || Unescape(segment) == Some("..") }

  /** The segments of the path, after its leading slash and before the query. */
  function PathSegments(target: string): seq<string>
    requires target != "" && target[0] == '/'
  {
    Split(PathPart(target)[1..], '/')
  }

  lemma CleanTail(t: string, n: nat)
    requires n <= |t|
    requires forall i :: n <= i < |t| ==> (CleanAt(t, i) <==> CleanAt(t[n..], i - n))
    ensures Clean(t[n..]) <==> forall i :: n <= i < |t| ==> CleanAt(t, i)
  {
    if Clean(t[n..]) {
      forall i | n <= i < |t| ensures CleanAt(t, i) { assert CleanAt(t[n..], i - n); }
    }
    if forall i :: n <= i < |t| ==> CleanAt(t, i) {
      forall k | 0 <= k < |t[n..]| ensures CleanAt(t[n..], k) { assert CleanAt(t, n + k); }
    }
  }

  lemma {:induction false} ScanMeans(t: string)
    ensures ScanError(t).None? <==> Clean(t)
    decreases |t|
  {
    if t != "" {
      if t[0] == '%' && !SafeEscapeAt(t, 0) {
        assert !CleanAt(t, 0);
      } else {
        var n := if t[0] == '%' then 3 else 1;
        ScanMeans(t[n..]);
        CleanTail(t, n);
        assert CleanAt(t, 0) <==> t[0] != '#' && t[0] != '\\';
        if n == 3 { assert CleanAt(t, 1) && CleanAt(t, 2); }
        if t[0] != '#' && t[0] != '\\' { CleanFrom(t, n); }
      }
    }
  }

  lemma CleanFrom(t: string, n: nat)
    requires n <= |t| && forall i :: 0 <= i < n ==> CleanAt(t, i)
    ensures Clean(t) <==> forall i :: n <= i < |t| ==> CleanAt(t, i)
  {
  }

  /**
    * A target of printable characters is accepted exactly when it is "*" or starts
    * with a slash, has no fragment, backslash or unsafe escape, and no segment of
    * its path stands for "." or "..".
    */
  lemma TargetAcceptedExactly(target: string)
    requires forall k :: 0 <= k < |target| ==> target[k] >= 0x20 as char && target[k] != 0x7F as char
    ensures TargetVerdict(target).None? <==>
      target == "*" || (target != "" && target[0] == '/' && Clean(target)
        && forall k :: 0 <= k < |PathSegments(target)| ==> !IsDots(PathSegments(target)[k]))
  {
    hide ScanError, SegmentError, Split, Unescape;
    ScanMeans(target);
    QueryVerdictUnreachable(target);
    if target != "" && target[0] == '/' {
      var segments := PathSegments(target);
      SegmentsErrorExact(segments);
      forall k | 0 <= k < |segments| ensures SegmentError(segments[k]).Some? <==> IsDots(segments[k]) {
        DotSpellings(segments[k]);
      }
      QueryErrorKinds(QueryPart(target));
    }
  }

  lemma QueryErrorKinds(s: string)
    ensures QueryError(s) in {None, Some(MalformedQueryEscape), Some(UnsafeQueryEscape), Some(InvalidQueryChar)}
  {
  }

  // ---------------------------------------------------------------------
  // What a path decodes to
  // ---------------------------------------------------------------------

  /** One character of an encoded path: as itself or as two hexadecimal digits after a '%'. */
  datatype Atom = Itself(c: char) | Escaped(high: char, low: char)

  predicate IsAtom(a: Atom) {
    match a
    case Itself(c) => c != '%'
    case Escaped(high, low) => HexValue(high) >= 0 && HexValue(low) >= 0
  }

  function AtomText(a: Atom): string {
    match a case Itself(c) => [c] case Escaped(high, low) => ['%', high, low]
  }

  function AtomChar(a: Atom): char
    requires IsAtom(a)
  {
    match a case Itself(c) => c case Escaped(high, low) => (HexValue(high) * 16 + HexValue(low)) as char
  }

  /** Fit for a path: no control, space or delimiter, and no slash from an escape. */
  predicate PathAtom(a: Atom)
    requires IsAtom(a)
  {
    var c := AtomChar(a);
    c as int > 32 && c as int != 127 && c !in "\"<>\\^`{|}" && (a.Escaped? ==> c != '/')
  }

  predicate AreAtoms(s: seq<Atom>) { forall i :: 0 <= i < |s| ==> IsAtom(s[i]) }

  function AtomsText(s: seq<Atom>): string {
    if s == [] then "" else AtomText(s[0]) + AtomsText(s[1..])
  }

  function AtomsChars(s: seq<Atom>): (r: string)
    requires AreAtoms(s)
    ensures |r| == |s| && forall i :: 0 <= i < |s| ==> r[i] == AtomChar(s[i])
  {
    seq(|s|, i requires 0 <= i < |s| => AtomChar(s[i]))
  }

  lemma AtomDecodes(a: Atom, rest: string)
    requires IsAtom(a)
    ensures var s := AtomText(a) + rest;
      && s != "" && StepOk(s) && StepLength(s) == |AtomText(a)| && StepChar(s) == AtomChar(a)
      && s[StepLength(s)..] == rest && (Decodable(s) <==> PathAtom(a))
  {
    var s := AtomText(a) + rest;
    if a.Escaped? { assert s[0] == '%' && s[1] == a.high && s[2] == a.low; }
  }

  /** Well-formed text decodes to its characters when they are all fit for a path, and is refused otherwise. */
  lemma {:induction false} DecodedExactly(atoms: seq<Atom>)
    requires AreAtoms(atoms)
    ensures Decoded(AtomsText(atoms))
         == if forall i :: 0 <= i < |atoms| ==> PathAtom(atoms[i]) then Some(AtomsChars(atoms)) else None
  {
    hide StepOk, StepChar, Decodable, PathAtom;
    if atoms != [] {
      var rest := atoms[1..];
      DecodedExactly(rest);
      AtomDecodes(atoms[0], AtomsText(rest));
      assert AtomsChars(atoms) == [AtomChar(atoms[0])] + AtomsChars(rest);
      assert (forall i :: 0 <= i < |atoms| ==> PathAtom(atoms[i])) <==>
        PathAtom(atoms[0]) && forall i :: 0 <= i < |rest| ==> PathAtom(rest[i]) by { PathAtomsCons(atoms); }
    }
  }

  lemma PathAtomsCons(atoms: seq<Atom>)
    requires atoms != [] && AreAtoms(atoms)
    ensures (forall i :: 0 <= i < |atoms| ==> PathAtom(atoms[i])) <==>
      PathAtom(atoms[0]) && forall i :: 0 <= i < |atoms[1..]| ==> PathAtom(atoms[1..][i])
  {
    hide PathAtom;
    if PathAtom(atoms[0]) && forall i :: 0 <= i < |atoms[1..]| ==> PathAtom(atoms[1..][i]) {
      forall i | 0 < i < |atoms| ensures PathAtom(atoms[i]) { assert PathAtom(atoms[1..][i - 1]); }
    }
  }

  /** Text that is not well formed is refused: after some atoms comes a '%' without two digits. */
  lemma {:induction false} MalformedRefused(atoms: seq<Atom>, rest: string)
    requires AreAtoms(atoms) && rest != "" && rest[0] == '%'
    requires !(|rest| >= 3 && HexValue(rest[1]) >= 0 && HexValue(rest[2]) >= 0)
    ensures Decoded(AtomsText(atoms) + rest).None?
  {
    hide Decodable, PathAtom;
    if atoms == [] {
      assert AtomsText(atoms) + rest == rest;
      assert !Decodable(rest) by { NoEscape(rest); }
    } else {
      MalformedRefused(atoms[1..], rest);
      AtomDecodes(atoms[0], AtomsText(atoms[1..]) + rest);
      assert AtomsText(atoms) + rest == AtomText(atoms[0]) + (AtomsText(atoms[1..]) + rest);
    }
  }

  lemma NoEscape(rest: string)
    requires rest != "" && rest[0] == '%' && !(|rest| >= 3 && HexValue(rest[1]) >= 0 && HexValue(rest[2]) >= 0)
    ensures !Decodable(rest)
  {
  }
}
