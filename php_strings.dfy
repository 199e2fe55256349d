/**
 * The PHP string built-ins the framework leans on (`strpos`, `explode`,
 * `implode`, `str_replace`, `ltrim`, `rtrim`, `strtolower`, `strtoupper`,
 * `str_starts_with`), over `string` as a sequence of characters. PHP strings
 * are byte strings; a character here stands for one byte.
 */
module PhpStrings {
  import opened Wrappers

  /** `pat` occurs in `s` starting at index `i`. */
  predicate MatchAt(s: string, pat: string, i: int)
  {
    0 <= i && i + |pat| <= |s| && s[i..i + |pat|] == pat
  }

  predicate StartsWith(s: string, prefix: string)
  {
    |prefix| <= |s| && s[..|prefix|] == prefix
  }

  predicate EndsWith(s: string, suffix: string)
  {
    |suffix| <= |s| && s[|s| - |suffix|..] == suffix
  }

  /** The leftmost occurrence of `pat` at or after `from` (`strpos` with an offset). */
  function FindFrom(s: string, pat: string, from: nat): (r: Option<nat>)
    ensures r.Some? ==> from <= r.value && MatchAt(s, pat, r.value)
    ensures forall j :: from <= j && (r.None? || j < r.value) ==> !MatchAt(s, pat, j)
    decreases |s| - from
  {
    if from + |pat| > |s| then None
    else if s[from..from + |pat|] == pat then Some(from)
    else FindFrom(s, pat, from + 1)
  }

  /** `strpos($s, $pat)`: `None` stands for PHP's `false`. */
  function Find(s: string, pat: string): Option<nat>
  {
    FindFrom(s, pat, 0)
  }

  /** `explode($sep, $s)` for a non-empty separator: the pieces between the
      leftmost, non-overlapping occurrences of `sep`. */
  function Explode(sep: string, s: string): (r: seq<string>)
    requires |sep| > 0
    ensures |r| >= 1
    decreases |s|
  {
    match Find(s, sep)
    case None => [s]
    case Some(k) => [s[..k]] + Explode(sep, s[k + |sep|..])
  }

  /** `implode($glue, $pieces)`. */
  function Join(pieces: seq<string>, glue: string): string
  {
    if pieces == [] then ""
    else if |pieces| == 1 then pieces[0]
    else pieces[0] + glue + Join(pieces[1..], glue)
  }

  /** `str_replace($from, $to, $s)` for one non-empty search string. */
  function Replace(s: string, from: string, to: string): string
    requires |from| > 0
  {
    Join(Explode(from, s), to)
  }

  /** `ltrim($s, $cut)`: drops the longest prefix made of characters in `cut`. */
  function LTrim(s: string, cut: set<char>): (r: string)
    ensures |r| <= |s|
    decreases |s|
  {
    if s != [] && s[0] in cut then LTrim(s[1..], cut) else s
  }

  /** `rtrim($s, $cut)`: drops the longest suffix made of characters in `cut`. */
  function RTrim(s: string, cut: set<char>): (r: string)
    ensures |r| <= |s|
    decreases |s|
  {
    if s != [] && s[|s| - 1] in cut then RTrim(s[..|s| - 1], cut) else s
  }

  function LowerChar(c: char): char
  {
    if 'A' <= c <= 'Z' then (c as int + 32) as char else c
  }

  function UpperChar(c: char): char
  {
    if 'a' <= c <= 'z' then (c as int - 32) as char else c
  }

  /** `strtolower`, ASCII letters only (locale-independent since PHP 8.2). */
  function ToLower(s: string): string
  {
    seq(|s|, i requires 0 <= i < |s| => LowerChar(s[i]))
  }

  /** `strtoupper`, ASCII letters only (locale-independent since PHP 8.2). */
  function ToUpper(s: string): string
  {
    seq(|s|, i requires 0 <= i < |s| => UpperChar(s[i]))
  }

  function Last<T>(s: seq<T>): T
    requires |s| > 0
  {
    s[|s| - 1]
  }

  // ---------------------------------------------------------------------
  // Properties of the search and split functions
  // ---------------------------------------------------------------------

  /** No occurrence can start where the text differs from the pattern's first character. */
  lemma NoMatchWhereFirstDiffers(s: string, pat: string, lo: int, hi: int)
    requires |pat| > 0
    requires forall j :: lo <= j < hi && 0 <= j < |s| ==> s[j] != pat[0]
    ensures forall j :: lo <= j < hi ==> !MatchAt(s, pat, j)
  {
    forall j | lo <= j < hi
      ensures !MatchAt(s, pat, j)
    {
      if 0 <= j && j + |pat| <= |s| {
        assert s[j..j + |pat|][0] == s[j];
      }
    }
  }

  /** `strpos` finds the first occurrence. */
  lemma FindFirst(s: string, pat: string, k: nat)
    requires MatchAt(s, pat, k)
    requires forall j :: 0 <= j < k ==> !MatchAt(s, pat, j)
    ensures Find(s, pat) == Some(k)
  {
  }

  /** `implode` undoes `explode`. */
  lemma {:induction false} ExplodeJoin(sep: string, s: string)
    requires |sep| > 0
    ensures Join(Explode(sep, s), sep) == s
    decreases |s|
  {
    match Find(s, sep)
    case None =>
    case Some(k) =>
      var rest := s[k + |sep|..];
      var tail := Explode(sep, rest);
      ExplodeJoin(sep, rest);
      var e := [s[..k]] + tail;
      assert Explode(sep, s) == e;
      assert |e| >= 2 && e[0] == s[..k] && e[1..] == tail;
      assert Join(e, sep) == s[..k] + sep + Join(tail, sep);
      assert s[k..k + |sep|] == sep;
      assert s == s[..k] + s[k..k + |sep|] + rest;
  }

  /** No piece returned by `explode` contains the separator. */
  lemma {:induction false} ExplodePiecesFree(sep: string, s: string)
    requires |sep| > 0
    ensures forall p, j :: p in Explode(sep, s) ==> !MatchAt(p, sep, j)
    decreases |s|
  {
    match Find(s, sep)
    case None =>
    case Some(k) =>
      var rest := s[k + |sep|..];
      ExplodePiecesFree(sep, rest);
      forall j | MatchAt(s[..k], sep, j)
        ensures false
      {
        assert s[..k][j..j + |sep|] == s[j..j + |sep|];
        assert MatchAt(s, sep, j);
      }
  }

  /** When the separator first occurs right after `x`, `x` is the first piece. */
  lemma ExplodeCons(sep: string, x: string, y: string)
    requires |sep| > 0
    requires forall j :: 0 <= j < |x| ==> !MatchAt(x + sep + y, sep, j)
    ensures Explode(sep, x + sep + y) == [x] + Explode(sep, y)
  {
    var s := x + sep + y;
    assert s[|x|..|x| + |sep|] == sep;
    assert MatchAt(s, sep, |x|);
    assert Find(s, sep) == Some(|x|);
    assert s[..|x|] == x;
    assert s[|x| + |sep|..] == y;
  }

  /** `ltrim` removes exactly the leading run of characters from `cut`. */
  lemma {:induction false} LTrimSpec(s: string, cut: set<char>)
    ensures var r := LTrim(s, cut);
      && r == s[|s| - |r|..]
      && (forall i :: 0 <= i < |s| - |r| ==> s[i] in cut)
      && (r != [] ==> r[0] !in cut)
    decreases |s|
  {
    if s != [] && s[0] in cut {
      LTrimSpec(s[1..], cut);
    }
  }

  /** `rtrim` removes exactly the trailing run of characters from `cut`. */
  lemma {:induction false} RTrimSpec(s: string, cut: set<char>)
    ensures var r := RTrim(s, cut);
      && r == s[..|r|]
      && (forall i :: |r| <= i < |s| ==> s[i] in cut)
      && (r != [] ==> r[|r| - 1] !in cut)
    decreases |s|
  {
    if s != [] && s[|s| - 1] in cut {
      RTrimSpec(s[..|s| - 1], cut);
    }
  }

  /** A string without the separator is its own single piece. */
  lemma ExplodeWhole(sep: string, s: string)
    requires |sep| > 0
    requires forall j :: 0 <= j < |s| ==> !MatchAt(s, sep, j)
    ensures Explode(sep, s) == [s]
  {
    assert Find(s, sep).None?;
  }

  /** The last piece of a split on a one-character separator is whatever
      follows its last occurrence (`array_pop(explode(...))`). */
  lemma {:induction false} ExplodeLast(c: char, x: string, y: string)
    requires c !in y
    ensures Last(Explode([c], x + [c] + y)) == y
    decreases |x|
  {
    var s := x + [c] + y;
    assert MatchAt(s, [c], |x|);
    var k := Find(s, [c]).value;
    assert s[k] == c;
    if k == |x| {
      ExplodeCons([c], x, y);
      forall j | 0 <= j < |y|
        ensures !MatchAt(y, [c], j)
      {
        assert y[j] != c;
      }
      ExplodeWhole([c], y);
    } else {
      assert x[k] == c;
      var rest := x[k + 1..];
      assert s[k + 1..] == rest + [c] + y;
      ExplodeLast(c, rest, y);
    }
  }

  /** A string with no `from` in it is left alone by `str_replace`. */
  lemma ReplaceAbsent(s: string, from: string, to: string)
    requires |from| > 0
    requires forall j :: 0 <= j < |s| ==> !MatchAt(s, from, j)
    ensures Replace(s, from, to) == s
  {
    ExplodeWhole(from, s);
  }
}
