// Text patterns (modules/persist/src/model): the in-memory matcher of query.c,
// the SQLite GLOB and the Postgres LIKE that the same pattern is translated to.
module Like {
  import opened Text

  /** '%' stands for any run of characters, everything else for itself. */
  predicate Likes(text: string, pattern: string)
    decreases |pattern|
  {
    if pattern == "" then text == ""
    else if pattern[0] == '%' then exists k :: 0 <= k <= |text| && Likes(text[k..], pattern[1..])
    else text != "" && text[0] == pattern[0] && Likes(text[1..], pattern[1..])
  }

  // ---------------------------------------------------------------------
  // In memory (query.c)
  // ---------------------------------------------------------------------

  lemma PercentPercent(text: string, pattern: string)
    requires |pattern| >= 2 && pattern[0] == '%' && pattern[1] == '%'
    ensures Likes(text, pattern) == Likes(text, pattern[1..])
  {
    var p := pattern[1..];
    if k :| 0 <= k <= |text| && Likes(text[k..], p) {
      var j :| 0 <= j <= |text[k..]| && Likes(text[k..][j..], p[1..]);
      assert text[k..][j..] == text[k + j..];
      assert Likes(text[k + j..], p[1..]);
    }
    if Likes(text, p) {
      assert text[0..] == text;
    }
  }

  lemma PercentEnd(text: string)
    ensures Likes(text, "%")
  {
    assert text[|text|..] == "" && "%"[1..] == "";
    assert Likes(text[|text|..], "%"[1..]);
  }

  /** Runs of '%' are collapsed; the empty rest of the text is never tried, and need not be. */
  method LikeMatch(text: string, pattern: string) returns (r: bool)
    ensures r == Likes(text, pattern)
    decreases |pattern|
  {
    if pattern == "" { return text == ""; }
    if pattern[0] == '%' {
      var p := pattern[1..];
      while p != "" && p[0] == '%'
        invariant |p| < |pattern| && Likes(text, ['%'] + p) == Likes(text, pattern)
        decreases |p|
      {
        assert (['%'] + p)[1..] == p && ['%'] + p[1..] == p;
        PercentPercent(text, ['%'] + p);
        p := p[1..];
      }
      if p == "" {
        PercentEnd(text);
        return true;
      }
      assert (['%'] + p)[1..] == p;
      for t := 0 to |text|
        invariant forall k :: 0 <= k < t ==> !Likes(text[k..], p)
      {
        var here := LikeMatch(text[t..], p);
        if here { return true; }
      }
      return false;
    }
    if text == "" || text[0] != pattern[0] { return false; }
    r := LikeMatch(text[1..], pattern[1..]);
  }

  // ---------------------------------------------------------------------
  // SQLite's GLOB (model_sqlite.c)
  // ---------------------------------------------------------------------

  /** The members of a class after its start: is c one of them, and the pattern after "]". */
  function ClassRest(p: string, c: char, seen: bool, prior: Option<char>): (r: Option<(bool, string)>)
    ensures r.Some? ==> |r.value.1| < |p|
    decreases |p|
  {
    if p == "" then None
    else if p[0] == ']' then Some((seen, p[1..]))
    else if p[0] == '-' && prior.Some? && |p| > 1 && p[1] != ']' then
      ClassRest(p[2..], c, seen || prior.value <= c <= p[1], None)
    else ClassRest(p[1..], c, seen || c == p[0], Some(p[0]))
  }

  /** A class after its "[": a leading ^ inverts it and a leading ] is a member. */
  function Class(p: string, c: char): (r: Option<(bool, string)>)
    ensures r.Some? ==> |r.value.1| < |p|
  {
    var invert := p != "" && p[0] == '^';
    var q := if invert then p[1..] else p;
    var r :=
      if q != "" && q[0] == ']' then ClassRest(q[1..], c, c == ']', None) else ClassRest(q, c, false, None);
    if r.None? then None else Some((r.value.0 != invert, r.value.1))
  }

  predicate Globs(text: string, p: string)
    decreases |p|
  {
    if p == "" then text == ""
    else if p[0] == '*' then exists k :: 0 <= k <= |text| && Globs(text[k..], p[1..])
    else if text == "" then false
    else if p[0] == '?' then Globs(text[1..], p[1..])
    else if p[0] == '[' then
      var r := Class(p[1..], text[0]);
      r.Some? && r.value.0 && Globs(text[1..], r.value.1)
    else text[0] == p[0] && Globs(text[1..], p[1..])
  }

  function GlobOf(c: char): (s: string)
    ensures 1 <= |s| <= 3
  {
    if c == '%' then "*"
    else if c == '*' || c == '?' || c == '[' then ['[', c, ']']
    else [c]
  }

  function ToGlob(pattern: string): (g: string)
    ensures |g| <= 3 * |pattern|
  {
    if pattern == "" then "" else GlobOf(pattern[0]) + ToGlob(pattern[1..])
  }

  lemma {:induction false} ToGlobSnoc(s: string, c: char)
    ensures ToGlob(s + [c]) == ToGlob(s) + GlobOf(c)
  {
    hide GlobOf;
    if s == "" {
      assert ToGlob([c]) == GlobOf(c) + ToGlob("");
    } else {
      assert (s + [c])[1..] == s[1..] + [c];
      ToGlobSnoc(s[1..], c);
    }
  }

  /** Fills a buffer of three times the pattern's length, plus the terminator. */
  method LikePatternToGlob(pattern: string) returns (glob: string)
    ensures glob == ToGlob(pattern)
  {
    hide ToGlob;
    var out := new char[|pattern| * 3 + 1];
    var w := 0;
    assert out[..0] == ToGlob("") by { ToGlobEmpty(); }
    for r := 0 to |pattern|
      invariant 0 <= w <= 3 * r && out.Length == 3 * |pattern| + 1 && out[..w] == ToGlob(pattern[..r])
    {
      assert pattern[..r + 1] == pattern[..r] + [pattern[r]];
      ToGlobSnoc(pattern[..r], pattern[r]);
      w := Write(out, w, GlobOf(pattern[r]));
    }
    assert pattern[..|pattern|] == pattern;
    out[w] := '\0';
    glob := out[..w];
  }

  lemma ToGlobEmpty()
    ensures ToGlob("") == ""
  {
  }

  lemma OneCharClass(c: char, rest: string, t: char)
    requires c == '*' || c == '?' || c == '['
    ensures Class([c, ']'] + rest, t) == Some((t == c, rest))
  {
    var p := [c, ']'] + rest;
    assert p[1..] == "]" + rest && p[1..][1..] == rest;
    assert ClassRest(p[1..], t, t == c, Some(c)) == Some((t == c, rest));
  }

  /** One character of the pattern becomes one item of the glob that matches the same text. */
  lemma GlobOfLiteral(c: char, rest: string, text: string)
    requires c != '%'
    ensures Globs(text, GlobOf(c) + rest) <==> text != "" && text[0] == c && Globs(text[1..], rest)
  {
    var p := GlobOf(c) + rest;
    if c == '*' || c == '?' || c == '[' {
      assert p[1..] == [c, ']'] + rest;
      if text != "" { OneCharClass(c, rest, text[0]); }
    } else {
      assert p[1..] == rest;
    }
  }

  lemma {:induction false} GlobIsLike(text: string, pattern: string)
    ensures Globs(text, ToGlob(pattern)) == Likes(text, pattern)
    decreases |pattern|
  {
    if pattern != "" {
      var rest := ToGlob(pattern[1..]);
      if pattern[0] == '%' {
        assert ToGlob(pattern)[1..] == rest;
        forall k | 0 <= k <= |text| ensures Globs(text[k..], rest) == Likes(text[k..], pattern[1..]) {
          GlobIsLike(text[k..], pattern[1..]);
        }
      } else {
        hide Globs;
        GlobOfLiteral(pattern[0], rest, text);
        if text != "" { GlobIsLike(text[1..], pattern[1..]); }
      }
    }
  }

  // ---------------------------------------------------------------------
  // Postgres' LIKE (model_postgres.c)
  // ---------------------------------------------------------------------

  /** '_' is any one character and a backslash makes the next character literal; None is an error. */
  predicate PgLikes(text: string, p: string)
    decreases |p|
  {
    if p == "" then text == ""
    else if p[0] == '%' then exists k :: 0 <= k <= |text| && PgLikes(text[k..], p[1..])
    else if text == "" then false
    else if p[0] == '_' then PgLikes(text[1..], p[1..])
    else if p[0] == '\\' then |p| > 1 && text[0] == p[1] && PgLikes(text[1..], p[2..])
    else text[0] == p[0] && PgLikes(text[1..], p[1..])
  }

  /** A pattern that ends in a lone backslash is an error in Postgres. */
  predicate PgPatternOk(p: string) {
    p == "" || (if p[0] == '\\' then |p| > 1 && PgPatternOk(p[2..]) else PgPatternOk(p[1..]))
  }

  function EscapedLike(c: char): (s: string)
    ensures 1 <= |s| <= 2
  {
    if c == '\\' || c == '_' then ['\\', c] else [c]
  }

  function EscapeLike(pattern: string): (e: string)
    ensures |e| <= 2 * |pattern|
  {
    if pattern == "" then "" else EscapedLike(pattern[0]) + EscapeLike(pattern[1..])
  }

  lemma {:induction false} EscapeLikeSnoc(s: string, c: char)
    ensures EscapeLike(s + [c]) == EscapeLike(s) + EscapedLike(c)
  {
    hide EscapedLike;
    if s == "" {
      assert EscapeLike([c]) == EscapedLike(c) + EscapeLike("");
    } else {
      assert (s + [c])[1..] == s[1..] + [c];
      EscapeLikeSnoc(s[1..], c);
    }
  }

  method EscapeLikePattern(pattern: string) returns (escaped: string)
    ensures escaped == EscapeLike(pattern)
  {
    hide EscapeLike;
    var out := new char[|pattern| * 2 + 1];
    var w := 0;
    assert out[..0] == EscapeLike("") by { EscapeLikeEmpty(); }
    for r := 0 to |pattern|
      invariant 0 <= w <= 2 * r && out.Length == 2 * |pattern| + 1 && out[..w] == EscapeLike(pattern[..r])
    {
      assert pattern[..r + 1] == pattern[..r] + [pattern[r]];
      EscapeLikeSnoc(pattern[..r], pattern[r]);
      w := Write(out, w, EscapedLike(pattern[r]));
    }
    assert pattern[..|pattern|] == pattern;
    out[w] := '\0';
    escaped := out[..w];
  }

  lemma EscapeLikeEmpty()
    ensures EscapeLike("") == ""
  {
  }

  lemma {:induction false} EscapedIsLike(text: string, pattern: string)
    ensures PgPatternOk(EscapeLike(pattern))
    ensures PgLikes(text, EscapeLike(pattern)) == Likes(text, pattern)
    decreases |pattern|
  {
    if pattern != "" {
      var e, rest := EscapeLike(pattern), EscapeLike(pattern[1..]);
      EscapedIsLike("", pattern[1..]);
      assert e[|EscapedLike(pattern[0])|..] == rest;
      if pattern[0] == '%' {
        forall k | 0 <= k <= |text| ensures PgLikes(text[k..], rest) == Likes(text[k..], pattern[1..]) {
          EscapedIsLike(text[k..], pattern[1..]);
        }
      } else if text != "" {
        EscapedIsLike(text[1..], pattern[1..]);
      }
    }
  }
}
