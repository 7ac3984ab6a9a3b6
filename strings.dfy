/**
 * The Python string operations the pipeline relies on: `str.strip()`,
 * `str.split(sep)`, `sep.join(parts)` and `str.replace(old, new)`, with the
 * semantics CPython gives them (scan left to right, non-overlapping matches).
 */
module Strings {
  import opened Wrappers

  /** The characters `str.isspace()` accepts, which `str.strip()` removes. */
  predicate IsSpace(c: char) {
    || c == ' '
    || ('\t' <= c <= '\r')                   // \t \n \v \f \r
    || ('\U{1c}' <= c <= '\U{1f}')           // file, group, record and unit separators
    || c == '\U{85}' || c == '\U{a0}' || c == '\U{1680}'
    || ('\U{2000}' <= c <= '\U{200a}')
    || c == '\U{2028}' || c == '\U{2029}' || c == '\U{202f}' || c == '\U{205f}' || c == '\U{3000}'
  }

  predicate AllSpace(s: string) {
    forall k :: 0 <= k < |s| ==> IsSpace(s[k])
  }

  /** Neither end of `s` is whitespace. */
  predicate Stripped(s: string) {
    s == [] || (!IsSpace(s[0]) && !IsSpace(s[|s| - 1]))
  }

  /** `str.lstrip()`: the longest suffix of `s` that does not start with whitespace. */
  function StripLeft(s: string): (r: string)
    ensures |r| <= |s| && r == s[|s| - |r|..]
    ensures AllSpace(s[..|s| - |r|])
    ensures r == [] || !IsSpace(r[0])
    decreases |s|
  {
    if s != [] && IsSpace(s[0]) then
      var r := StripLeft(s[1..]);
      assert s[1..][|s| - 1 - |r|..] == s[|s| - |r|..];
      assert s[..|s| - |r|] == [s[0]] + s[1..][..|s| - 1 - |r|];
      AllSpaceCons(s[0], s[1..][..|s| - 1 - |r|]);
      r
    else
      assert s[..0] == [];
      s
  }

  /** `str.rstrip()`: the longest prefix of `s` that does not end with whitespace. */
  function StripRight(s: string): (r: string)
    ensures |r| <= |s| && r == s[..|r|]
    ensures AllSpace(s[|r|..])
    ensures r == [] || !IsSpace(r[|r| - 1])
    decreases |s|
  {
    if s != [] && IsSpace(s[|s| - 1]) then
      var r := StripRight(s[..|s| - 1]);
      assert s[..|s| - 1][..|r|] == s[..|r|];
      assert s[|r|..] == s[..|s| - 1][|r|..] + [s[|s| - 1]];
      AllSpaceSnoc(s[..|s| - 1][|r|..], s[|s| - 1]);
      r
    else
      assert s[|s|..] == [];
      s
  }

  lemma AllSpaceCons(c: char, t: string)
    requires IsSpace(c) && AllSpace(t)
    ensures AllSpace([c] + t)
  {
    forall k | 0 <= k < |[c] + t| ensures IsSpace(([c] + t)[k]) {
      if k > 0 { assert ([c] + t)[k] == t[k - 1]; }
    }
  }

  lemma AllSpaceSnoc(t: string, c: char)
    requires AllSpace(t) && IsSpace(c)
    ensures AllSpace(t + [c])
  {
    forall k | 0 <= k < |t + [c]| ensures IsSpace((t + [c])[k]) {
      if k < |t| { assert (t + [c])[k] == t[k]; }
    }
  }

  /** `str.strip()`: `s` with its leading and trailing whitespace removed. */
  function Strip(s: string): (r: string)
    ensures |r| <= |s| && Stripped(r)
  {
    StripRight(StripLeft(s))
  }

  /** What `strip()` keeps is a slice of `s`, and everything it cuts away is whitespace. */
  lemma StripIsSlice(s: string)
    ensures exists i, j :: 0 <= i <= j <= |s| && Strip(s) == s[i..j] && AllSpace(s[..i]) && AllSpace(s[j..])
  {
    var l := StripLeft(s);
    var r := StripRight(l);
    var i, j := |s| - |l|, |s| - |l| + |r|;
    PrefixOfSuffix(s, l, r);
    assert Strip(s) == s[i..j];
    assert AllSpace(s[..i]) && AllSpace(s[j..]);
  }

  /** A prefix `r` of a suffix `l` of `s` is a slice of `s`, and what follows it in `l` ends `s`. */
  lemma PrefixOfSuffix<T>(s: seq<T>, l: seq<T>, r: seq<T>)
    requires |l| <= |s| && l == s[|s| - |l|..] && |r| <= |l| && r == l[..|r|]
    ensures r == s[|s| - |l|..|s| - |l| + |r|] && s[|s| - |l| + |r|..] == l[|r|..]
  {
  }

  lemma {:induction false} StripLeftAllSpace(s: string)
    requires AllSpace(s)
    ensures StripLeft(s) == []
    decreases |s|
  {
    if s != [] {
      StripLeftAllSpace(s[1..]);
    }
  }

  /** `s.strip()` is empty exactly when every character of `s` is whitespace. */
  lemma StripEmptyIff(s: string)
    ensures Strip(s) == [] <==> AllSpace(s)
  {
    if AllSpace(s) {
      StripLeftAllSpace(s);
    }
    if Strip(s) == [] {
      StripIsSlice(s);
      var i, j :| 0 <= i <= j <= |s| && Strip(s) == s[i..j] && AllSpace(s[..i]) && AllSpace(s[j..]);
      forall k | 0 <= k < |s| ensures IsSpace(s[k]) {
        if k < i { assert s[k] == s[..i][k]; } else { assert s[k] == s[j..][k - j]; }
      }
    }
  }

  /** Stripping a string whose ends are not whitespace leaves it as it is. */
  lemma StrippedIsFixed(s: string)
    requires Stripped(s)
    ensures Strip(s) == s
  {
  }

  lemma StripIdempotent(s: string)
    ensures Strip(Strip(s)) == Strip(s)
  {
  }

  /** `sep` occurs in `t` starting at position `i`. */
  predicate OccursAt(t: string, sep: string, i: int) {
    0 <= i && i + |sep| <= |t| && t[i..i + |sep|] == sep
  }

  /** No occurrence of `sep` starts at a character other than its first. */
  lemma NoOccurrenceAt(t: string, sep: string, i: nat)
    requires sep != [] && i < |t| && t[i] != sep[0]
    ensures !OccursAt(t, sep, i)
  {
    if i + |sep| <= |t| {
      assert t[i..i + |sep|][0] == t[i];
    }
  }

  /** No occurrence of `sep` in `t` starts before position `n`. */
  predicate NoMatchBefore(t: string, sep: string, n: int) {
    forall i :: 0 <= i < n ==> !OccursAt(t, sep, i)
  }

  /**
   * `s.split(sep)`: cut `s` at every occurrence of `sep`, found left to right
   * without overlap. Always at least one piece (`"".split(sep) == [""]`).
   */
  function Split(s: string, sep: string): (r: seq<string>)
    requires sep != []
    ensures |r| >= 1
    decreases |s|
  {
    if |s| < |sep| then [s]
    else if s[..|sep|] == sep then [[]] + Split(s[|sep|..], sep)
    else
      var rest := Split(s[1..], sep);
      [[s[0]] + rest[0]] + rest[1..]
  }

  /** `sep.join(parts)`. */
  function Join(parts: seq<string>, sep: string): string
    decreases |parts|
  {
    if |parts| == 0 then []
    else if |parts| == 1 then parts[0]
    else parts[0] + sep + Join(parts[1..], sep)
  }

  /** `s.replace(pat, rep)`: every occurrence of `pat`, found left to right without overlap, becomes `rep`. */
  function Replace(s: string, pat: string, rep: string): string
    requires pat != []
    decreases |s|
  {
    if |s| < |pat| then s
    else if s[..|pat|] == pat then rep + Replace(s[|pat|..], pat, rep)
    else [s[0]] + Replace(s[1..], pat, rep)
  }

  lemma JoinCons(a: string, t: seq<string>, sep: string)
    ensures Join([a] + t, sep) == if t == [] then a else a + sep + Join(t, sep)
  {
    if t != [] {
      assert ([a] + t)[1..] == t;
    }
  }

  /** Replacing is splitting on `pat` and joining with `rep`, as in CPython. */
  lemma {:induction false} ReplaceIsJoinOfSplit(s: string, pat: string, rep: string)
    requires pat != []
    ensures Replace(s, pat, rep) == Join(Split(s, pat), rep)
    decreases |s|
  {
    if |s| < |pat| {
    } else if s[..|pat|] == pat {
      ReplaceIsJoinOfSplit(s[|pat|..], pat, rep);
      JoinCons([], Split(s[|pat|..], pat), rep);
    } else {
      var rest := Split(s[1..], pat);
      ReplaceIsJoinOfSplit(s[1..], pat, rep);
      JoinCons([s[0]] + rest[0], rest[1..], rep);
      JoinCons(rest[0], rest[1..], rep);
      assert [rest[0]] + rest[1..] == rest;
    }
  }

  lemma {:induction false} ReplaceBySelf(s: string, sep: string)
    requires sep != []
    ensures Replace(s, sep, sep) == s
    decreases |s|
  {
    if |s| < |sep| {
    } else if s[..|sep|] == sep {
      ReplaceBySelf(s[|sep|..], sep);
      assert s == s[..|sep|] + s[|sep|..];
    } else {
      ReplaceBySelf(s[1..], sep);
      assert s == [s[0]] + s[1..];
    }
  }

  /** Joining the pieces of a split with the same separator gives back the text. */
  lemma SplitJoin(s: string, sep: string)
    requires sep != []
    ensures Join(Split(s, sep), sep) == s
  {
    ReplaceIsJoinOfSplit(s, sep, sep);
    ReplaceBySelf(s, sep);
  }

  /**
   * Each piece is cut at the leftmost occurrence of `sep`: no occurrence starts
   * inside a piece, not even one that runs on into the separator after it.
   * In particular no piece contains `sep`.
   */
  lemma {:induction false} SplitLeftmost(s: string, sep: string, k: int)
    requires sep != [] && 0 <= k < |Split(s, sep)|
    ensures var r := Split(s, sep);
            NoMatchBefore(if k + 1 < |r| then r[k] + sep else r[k], sep, |r[k]|)
    decreases |s|
  {
    var r := Split(s, sep);
    if |s| < |sep| {
    } else if s[..|sep|] == sep {
      if k > 0 {
        SplitLeftmost(s[|sep|..], sep, k - 1);
      }
    } else {
      var rest := Split(s[1..], sep);
      if k > 0 {
        SplitLeftmost(s[1..], sep, k);
        assert r[k] == rest[k];
      } else {
        SplitLeftmost(s[1..], sep, 0);
        var t' := if 1 < |rest| then rest[0] + sep else rest[0];
        var t := if 1 < |r| then r[0] + sep else r[0];
        assert t == [s[0]] + t';
        SplitFirstIsPrefix(s, sep);
        if |sep| <= |t| {
          assert t[..|sep|] == s[..|sep|];
        }
        NoMatchCons(s[0], t', sep, |rest[0]|);
      }
    }
  }

  /** Putting a character in front of `t` that starts no occurrence shifts the occurrence-free prefix by one. */
  lemma NoMatchCons(c: char, t: string, sep: string, n: nat)
    requires NoMatchBefore(t, sep, n) && !OccursAt([c] + t, sep, 0)
    ensures NoMatchBefore([c] + t, sep, n + 1)
  {
    var u := [c] + t;
    forall i | 1 <= i < n + 1 ensures !OccursAt(u, sep, i) {
      if OccursAt(u, sep, i) {
        assert u[i..i + |sep|] == t[i - 1..i - 1 + |sep|];
        assert OccursAt(t, sep, i - 1);
      }
    }
  }

  /** The first piece, with the separator that ends it, begins the text. */
  lemma SplitFirstIsPrefix(s: string, sep: string)
    requires sep != []
    ensures var r := Split(s, sep);
            IsPrefix(if 1 < |r| then r[0] + sep else r[0], s)
  {
    var r := Split(s, sep);
    SplitJoin(s, sep);
    JoinCons(r[0], r[1..], sep);
    assert [r[0]] + r[1..] == r;
  }

  /** Text with no occurrence of `sep` is a single piece. */
  lemma {:induction false} SplitWithoutMatch(s: string, sep: string)
    requires sep != [] && NoMatchBefore(s, sep, |s|)
    ensures Split(s, sep) == [s]
    decreases |s|
  {
    if |s| >= |sep| {
      assert !OccursAt(s, sep, 0);
      forall i | 0 <= i < |s| - 1
        ensures !OccursAt(s[1..], sep, i)
      {
        if OccursAt(s[1..], sep, i) {
          assert s[1..][i..i + |sep|] == s[i + 1..i + 1 + |sep|];
          assert OccursAt(s, sep, i + 1);
        }
      }
      SplitWithoutMatch(s[1..], sep);
      assert [s[0]] + s[1..] == s;
    }
  }

  /** Text whose leftmost occurrence of `sep` ends the prefix `a` is cut right after `a`. */
  lemma {:induction false} SplitAtFirstMatch(a: string, b: string, sep: string)
    requires sep != [] && NoMatchBefore(a + sep, sep, |a|)
    ensures Split(a + sep + b, sep) == [a] + Split(b, sep)
    decreases |a|
  {
    var s := a + sep + b;
    if a == [] {
      assert s[..|sep|] == sep;
      assert s[|sep|..] == b;
    } else {
      assert !OccursAt(a + sep, sep, 0);
      assert s[..|sep|] == (a + sep)[..|sep|];
      assert s[1..] == a[1..] + sep + b;
      forall i | 0 <= i < |a| - 1
        ensures !OccursAt(a[1..] + sep, sep, i)
      {
        if OccursAt(a[1..] + sep, sep, i) {
          assert (a[1..] + sep)[i..i + |sep|] == (a + sep)[i + 1..i + 1 + |sep|];
          assert OccursAt(a + sep, sep, i + 1);
        }
      }
      SplitAtFirstMatch(a[1..], b, sep);
      assert [a[0]] + a[1..] == a;
    }
  }

  /**
   * The converse of SplitJoin and SplitLeftmost: parts that are each cut at
   * the leftmost occurrence of `sep` are exactly what splitting their join
   * gives back, so those two properties determine Split completely.
   */
  lemma {:induction false} SplitOfJoin(parts: seq<string>, sep: string)
    requires sep != [] && |parts| >= 1
    requires forall k :: 0 <= k < |parts| - 1 ==> NoMatchBefore(parts[k] + sep, sep, |parts[k]|)
    requires NoMatchBefore(parts[|parts| - 1], sep, |parts[|parts| - 1]|)
    ensures Split(Join(parts, sep), sep) == parts
    decreases |parts|
  {
    if |parts| == 1 {
      SplitWithoutMatch(parts[0], sep);
    } else {
      SplitOfJoin(parts[1..], sep);
      SplitAtFirstMatch(parts[0], Join(parts[1..], sep), sep);
      assert [parts[0]] + parts[1..] == parts;
    }
  }

  /* ---------------------------------------------------------------------
   * Newline normalisation: `text.replace("\r\n", "\n").replace("\r", "\n")`.
   * ------------------------------------------------------------------- */

  function NormalizeNewlines(s: string): string {
    Replace(Replace(s, "\r\n", "\n"), "\r", "\n")
  }

  /**
   * Reference reading of the normalisation, one position at a time: a CR LF
   * pair becomes a single LF, a CR on its own becomes LF, everything else is
   * kept.
   */
  function NewlinesByCharacter(s: string): string
    decreases |s|
  {
    if s == [] then []
    else if |s| >= 2 && s[0] == '\r' && s[1] == '\n' then "\n" + NewlinesByCharacter(s[2..])
    else if s[0] == '\r' then "\n" + NewlinesByCharacter(s[1..])
    else [s[0]] + NewlinesByCharacter(s[1..])
  }

  lemma CrReplaceCons(c: char, t: string)
    ensures Replace([c] + t, "\r", "\n") == (if c == '\r' then "\n" else [c]) + Replace(t, "\r", "\n")
  {
    var s := [c] + t;
    assert s[..1] == [c];
    assert s[1..] == t;
  }

  /** The two chained replacements do exactly what the per-character reading says. */
  lemma {:induction false} NormalizeNewlinesByCharacter(s: string)
    ensures NormalizeNewlines(s) == NewlinesByCharacter(s)
    decreases |s|
  {
    if s == [] {
    } else if |s| >= 2 && s[0] == '\r' && s[1] == '\n' {
      assert s[..2] == "\r\n";
      NormalizeNewlinesByCharacter(s[2..]);
      CrReplaceCons('\n', Replace(s[2..], "\r\n", "\n"));
    } else if |s| < 2 {
      assert Replace(s, "\r\n", "\n") == s == [s[0]] + [];
      CrReplaceCons(s[0], []);
      assert s[1..] == [];
    } else {
      assert s[..2] != "\r\n";
      NormalizeNewlinesByCharacter(s[1..]);
      CrReplaceCons(s[0], Replace(s[1..], "\r\n", "\n"));
    }
  }

  /** After normalisation no carriage return is left. */
  lemma {:induction false} NormalizedHasNoCr(s: string)
    ensures '\r' !in NormalizeNewlines(s)
    decreases |s|
  {
    NormalizeNewlinesByCharacter(s);
    NoCrByCharacter(s);
  }

  lemma {:induction false} NoCrByCharacter(s: string)
    ensures '\r' !in NewlinesByCharacter(s)
    decreases |s|
  {
    if s == [] {
    } else if |s| >= 2 && s[0] == '\r' && s[1] == '\n' {
      NoCrByCharacter(s[2..]);
    } else {
      NoCrByCharacter(s[1..]);
    }
  }

  /** Text without carriage returns is left exactly as it is. */
  lemma {:induction false} NormalizeWithoutCr(s: string)
    requires '\r' !in s
    ensures NormalizeNewlines(s) == s
    decreases |s|
  {
    NormalizeNewlinesByCharacter(s);
    ByCharacterWithoutCr(s);
  }

  lemma {:induction false} ByCharacterWithoutCr(s: string)
    requires '\r' !in s
    ensures NewlinesByCharacter(s) == s
    decreases |s|
  {
    if s != [] {
      assert s[0] in s;
      assert forall c :: c in s[1..] ==> c in s;
      ByCharacterWithoutCr(s[1..]);
      assert s == [s[0]] + s[1..];
    }
  }

  /** Normalising twice is the same as normalising once. */
  lemma NormalizeIdempotent(s: string)
    ensures NormalizeNewlines(NormalizeNewlines(s)) == NormalizeNewlines(s)
  {
    NormalizedHasNoCr(s);
    NormalizeWithoutCr(NormalizeNewlines(s));
  }
}
