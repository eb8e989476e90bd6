// The names of migration files (tools/migrate/src/migration.c): which paths
// name a migration, and that a name the tool writes is one it can load.
module MigrateNames {
  import opened Text

  const NAME_MAX: nat := 128
  const FILE_MAX: nat := NAME_MAX + 64
  const INT64_MAX: nat := 0x7FFF_FFFF_FFFF_FFFF
  const EXTENSION := ".sql"

  predicate NameChar(c: char) { 'a' <= c <= 'z' || 'A' <= c <= 'Z' || IsDigit(c) || c == '_' || c == '-' }

  predicate ValidName(s: string) { s != "" && |s| < NAME_MAX && forall i :: 0 <= i < |s| ==> NameChar(s[i]) }

  predicate Separator(c: char) { c == '/' || c == '\\' }

  /** What follows the last separator. */
  function BaseName(path: string): (b: string)
    ensures forall i :: 0 <= i < |b| ==> !Separator(b[i])
  {
    if path == "" then ""
    else if Separator(path[|path| - 1]) then ""
    else BaseName(path[..|path| - 1]) + [path[|path| - 1]]
  }

  /** A file name of this shape: decimal digits, an underscore, a name, ".sql". */
  predicate IsFile(file: string, digits: string, name: string) {
    && digits != "" && AllDigits(digits) && DecimalValue(digits) <= INT64_MAX && ValidName(name)
    && file == digits + "_" + name + EXTENSION
  }

  method FindBase(path: string) returns (base: string)
    ensures base == BaseName(path)
  {
    var from := 0;
    for i := 0 to |path|
      invariant from <= i && path[from..i] == BaseName(path[..i])
    {
      assert path[..i + 1][..i] == path[..i];
      if Separator(path[i]) { from := i + 1; }
    }
    assert path[..|path|] == path;
    base := path[from..];
  }

  /** The version and name of a migration file; None is an error. */
  method ParseFilename(path: string) returns (r: Option<(nat, string)>)
    ensures r.Some? ==> exists digits :: IsFile(BaseName(path), digits, r.value.1) && DecimalValue(digits) == r.value.0
    ensures r.None? ==> !exists digits, name :: IsFile(BaseName(path), digits, name)
  {
    var base := FindBase(path);
    var len := |base|;
    if len <= |EXTENSION| || base[len - |EXTENSION|..] != EXTENSION {
      NoExtension(base);
      return None;
    }
    var stem := base[..len - |EXTENSION|];
    var i, v := 0, 0;
    while i < |stem| && IsDigit(stem[i])
      invariant i <= |stem| && AllDigits(stem[..i]) && v == DecimalValue(stem[..i]) <= INT64_MAX
    {
      var digit := DigitValue(stem[i]);
      assert stem[..i + 1] == stem[..i] + [stem[i]];
      DecimalSnoc(stem[..i], stem[i]);
      if v > (INT64_MAX - digit) / 10 {
        TooLarge(base, stem[..i + 1]);
        return None;
      }
      v := v * 10 + digit;
      i := i + 1;
    }
    if i == 0 || i >= |stem| || stem[i] != '_' || i + 1 >= |stem| {
      NoName(base, stem, i);
      return None;
    }
    var name := stem[i + 1..];
    assert base == stem[..i] + "_" + name + EXTENSION;
    if |name| >= NAME_MAX {
      OnlyName(base, stem[..i], name);
      return None;
    }
    for k := 0 to |name|
      invariant forall j :: 0 <= j < k ==> NameChar(name[j])
    {
      if !NameChar(name[k]) {
        OnlyName(base, stem[..i], name);
        return None;
      }
    }
    assert IsFile(base, stem[..i], name);
    return Some((v, name));
  }

  lemma NoExtension(base: string)
    requires |base| <= |EXTENSION| || base[|base| - |EXTENSION|..] != EXTENSION
    ensures !exists digits, name :: IsFile(base, digits, name)
  {
    if digits, name :| IsFile(base, digits, name) { EndsWithExtension(base, digits, name); }
  }

  lemma EndsWithExtension(base: string, digits: string, name: string)
    requires IsFile(base, digits, name)
    ensures |base| > |EXTENSION| && base[|base| - |EXTENSION|..] == EXTENSION
  {
  }

  lemma PrefixDigit(s: string, i: nat, k: nat)
    requires k < i <= |s| && AllDigits(s[..i])
    ensures IsDigit(s[k])
  {
    assert s[k] == s[..i][k];
  }

  /** The digits of a file name are all its leading digits. */
  lemma LeadingDigits(base: string, digits: string, name: string, i: nat)
    requires IsFile(base, digits, name) && i <= |base| && AllDigits(base[..i])
    ensures i <= |digits| && base[..i] == digits[..i]
  {
    assert base[..|digits|] == digits;
    if i > |digits| {
      PrefixDigit(base, i, |digits|);
      UnderscoreAt(base, digits, name);
    }
  }

  lemma TooLarge(base: string, pre: string)
    requires |pre| <= |base| && base[..|pre|] == pre && AllDigits(pre) && DecimalValue(pre) > INT64_MAX
    ensures !exists digits, name :: IsFile(base, digits, name)
  {
    if digits, name :| IsFile(base, digits, name) {
      LeadingDigits(base, digits, name, |pre|);
      assert digits == pre + digits[|pre|..];
      DecimalGrows(pre, digits[|pre|..]);
    }
  }

  lemma DigitAt(file: string, digits: string, name: string, i: nat)
    requires file == digits + "_" + name + EXTENSION && AllDigits(digits) && i < |digits|
    ensures IsDigit(file[i])
  {
    assert file[i] == digits[i];
  }

  lemma UnderscoreAt(file: string, digits: string, name: string)
    requires file == digits + "_" + name + EXTENSION
    ensures file[|digits|] == '_' && |digits| < |file|
  {
  }

  /** Leading digits that cannot be extended are the version's digits. */
  lemma ReadingIs(base: string, stem: string, i: nat, digits: string, name: string)
    requires base == stem + EXTENSION && i <= |stem| && AllDigits(stem[..i]) && (i < |stem| ==> !IsDigit(stem[i]))
    requires IsFile(base, digits, name)
    ensures i == |digits| && i + 1 < |stem| && stem[i] == '_'
  {
    assert base[..i] == stem[..i];
    LeadingDigits(base, digits, name, i);
    assert |stem| == |digits| + 1 + |name|;
    assert stem[i] == base[i];
    if i < |digits| { DigitAt(base, digits, name, i); }
    else { UnderscoreAt(base, digits, name); }
  }

  lemma NoName(base: string, stem: string, i: nat)
    requires base == stem + EXTENSION && i <= |stem| && AllDigits(stem[..i]) && (i < |stem| ==> !IsDigit(stem[i]))
    requires i == 0 || i >= |stem| || stem[i] != '_' || i + 1 >= |stem|
    ensures !exists digits, name :: IsFile(base, digits, name)
  {
    if digits, name :| IsFile(base, digits, name) { ReadingIs(base, stem, i, digits, name); }
  }

  lemma NotLonger(file: string, digits: string, name: string, d: string, n: string)
    requires file == digits + "_" + name + EXTENSION && AllDigits(digits)
    requires file == d + "_" + n + EXTENSION && AllDigits(d)
    ensures |digits| <= |d|
  {
    if |d| < |digits| {
      DigitAt(file, digits, name, |d|);
      UnderscoreAt(file, d, n);
    }
  }

  /** A file name is digits, underscore and name in one way only. */
  lemma OneReading(file: string, digits: string, name: string, d: string, n: string)
    requires file == digits + "_" + name + EXTENSION && AllDigits(digits)
    requires file == d + "_" + n + EXTENSION && AllDigits(d)
    ensures d == digits && n == name
  {
    NotLonger(file, digits, name, d, n);
    NotLonger(file, d, n, digits, name);
    assert digits == file[..|digits|] && d == file[..|d|];
    assert name == file[|digits| + 1..|file| - |EXTENSION|] && n == file[|d| + 1..|file| - |EXTENSION|];
  }

  lemma OnlyName(base: string, pre: string, name: string)
    requires base == pre + "_" + name + EXTENSION && AllDigits(pre) && !ValidName(name)
    ensures !exists digits, other :: IsFile(base, digits, other)
  {
    if digits, other :| IsFile(base, digits, other) { OneReading(base, pre, name, digits, other); }
  }

  // ---------------------------------------------------------------------
  // Writing
  // ---------------------------------------------------------------------

  function ZeroDigits(n: nat): (z: string)
    ensures |z| == n && AllDigits(z)
  {
    seq(n, _ => '0')
  }

  lemma {:induction false} LeadingZeros(n: nat, s: string)
    requires AllDigits(s)
    ensures AllDigits(ZeroDigits(n) + s) && DecimalValue(ZeroDigits(n) + s) == DecimalValue(s)
    decreases |s|, n
  {
    if s != "" {
      var m := |s| - 1;
      LeadingZeros(n, s[..m]);
      assert (ZeroDigits(n) + s)[..|ZeroDigits(n) + s| - 1] == ZeroDigits(n) + s[..m];
    } else if n > 0 {
      LeadingZeros(n - 1, "");
      assert (ZeroDigits(n) + "")[..n - 1] == ZeroDigits(n - 1) + "";
    } else {
      assert ZeroDigits(0) + s == s;
    }
  }

  /** A number in at least width digits. */
  function Padded(v: nat, width: nat): string {
    var digits := DecimalText(v);
    (if |digits| < width then ZeroDigits(width - |digits|) else "") + digits
  }

  lemma PaddedValue(v: nat, width: nat)
    ensures Padded(v, width) != "" && AllDigits(Padded(v, width)) && DecimalValue(Padded(v, width)) == v
  {
    DecimalTextValue(v);
    var n := if |DecimalText(v)| < width then width - |DecimalText(v)| else 0;
    LeadingZeros(n, DecimalText(v));
    assert ZeroDigits(0) + DecimalText(v) == DecimalText(v);
    assert "" + DecimalText(v) == DecimalText(v);
  }

  method DigitCount(v: nat) returns (n: nat)
    ensures n == |DecimalText(v)|
  {
    n := 1;
    var left := v;
    while left >= 10
      invariant n - 1 + |DecimalText(left)| == |DecimalText(v)|
    {
      left := left / 10;
      n := n + 1;
    }
  }

  lemma {:induction false} NoSeparator(s: string)
    requires forall i :: 0 <= i < |s| ==> !Separator(s[i])
    ensures BaseName(s) == s
  {
    if s != "" { NoSeparator(s[..|s| - 1]); }
  }

  /** Wide enough for the highest version there is, and four digits at least. */
  function Width(last: Option<nat>): nat {
    if last.Some? && |DecimalText(last.value)| > 4 then |DecimalText(last.value)| else 4
  }

  function FileText(last: Option<nat>, version: nat, name: string): string {
    Padded(version, Width(last)) + "_" + name + EXTENSION
  }

  /**
    * What is written for a version and a name is one file name that loads as
    * that version and that name; only a bad name or a lack of room is refused.
    */
  method FormatFilename(last: Option<nat>, version: nat, name: string, cap: nat) returns (file: Option<string>)
    requires version <= INT64_MAX
    ensures var text := FileText(last, version, name);
      file == if ValidName(name) && |text| < FILE_MAX && |text| < cap then Some(text) else None
    ensures file.Some? ==> BaseName(file.value) == file.value
    ensures file.Some? ==> exists digits :: IsFile(file.value, digits, name) && DecimalValue(digits) == version
  {
    if name == "" { return None; }
    for k := 0 to |name|
      invariant forall j :: 0 <= j < k ==> NameChar(name[j])
    {
      if !NameChar(name[k]) { return None; }
    }
    var width := 4;
    if last.Some? {
      var existing := DigitCount(last.value);
      if existing > width { width := existing; }
    }
    var digits := Padded(version, width);
    var text := digits + "_" + name + EXTENSION;
    PaddedValue(version, width);
    if |text| >= FILE_MAX || |text| >= cap { return None; }
    forall i | 0 <= i < |text| ensures !Separator(text[i]) {
      if i < |digits| { assert text[i] == digits[i] && IsDigit(digits[i]); }
      else if i > |digits| && i < |digits| + 1 + |name| { assert text[i] == name[i - |digits| - 1]; }
    }
    NoSeparator(text);
    var parsed := ParseFilename(text);
    if parsed.None? {
      assert !IsFile(text, digits, name);
      return None;
    }
    assert ValidName(name) && IsFile(text, digits, name) by {
      var d :| IsFile(text, d, parsed.value.1) && DecimalValue(d) == parsed.value.0;
      OneReading(text, digits, name, d, parsed.value.1);
    }
    return Some(text);
  }

  // ---------------------------------------------------------------------
  // File names, character by character
  // ---------------------------------------------------------------------

  /** Letters, digits, underscores and hyphens: at least one and fewer than 128. */
  lemma NamesAre(s: string)
    ensures ValidName(s) <==>
      1 <= |s| <= 127 && forall i :: 0 <= i < |s| ==> 'a' <= Lower(s[i]) <= 'z' || IsDigit(s[i]) || s[i] in "_-"
  {
  }

  /** The last component of a path: what comes after any prefix that ends in a slash or backslash. */
  lemma {:induction false} LastComponent(dir: string, file: string)
    requires dir == "" || dir[|dir| - 1] in "/\\"
    requires forall i :: 0 <= i < |file| ==> file[i] !in "/\\"
    ensures BaseName(dir + file) == file
  {
    var path := dir + file;
    if file == "" {
      assert path == dir;
    } else {
      var n := |file| - 1;
      LastComponent(dir, file[..n]);
      assert path[..|path| - 1] == dir + file[..n];
      assert file == file[..n] + [file[n]];
    }
  }

  function Longest(a: nat, b: nat): nat { if a < b then b else a }

  /** A version is written with as many digits as the highest version has, and at least four. */
  lemma VersionWidth(last: Option<nat>, version: nat)
    ensures |Padded(version, Width(last))|
         == Longest(|DecimalText(version)|, Longest(4, if last.Some? then |DecimalText(last.value)| else 0))
  {
  }
}
