/**
  The string operations of Rust's `str` that the application uses: `trim`,
  `trim_end_matches`, `split`, `join`, `to_lowercase` and `contains`.
  Strings are sequences of Unicode scalar values, as Rust's `char`s are.
 */
module Text {

  /** The characters of the Unicode White_Space property. */
  const WHITESPACE: set<char> := {
    '\t', '\n', '\U{000B}', '\U{000C}', '\r', ' ', '\U{0085}', '\U{00A0}', '\U{1680}',
    '\U{2000}', '\U{2001}', '\U{2002}', '\U{2003}', '\U{2004}', '\U{2005}', '\U{2006}',
    '\U{2007}', '\U{2008}', '\U{2009}', '\U{200A}', '\U{2028}', '\U{2029}', '\U{202F}',
    '\U{205F}', '\U{3000}'
  }

  /** Rust's `char::is_whitespace`. */
  predicate IsWhitespace(c: char)
  {
    c in WHITESPACE
  }

  predicate AllWhitespace(s: string)
  {
    forall k :: 0 <= k < |s| ==> IsWhitespace(s[k])
  }

  /** A string with no whitespace at either end, as `str::trim` leaves it. */
  predicate IsTrimmed(s: string)
  {
    s != [] ==> !IsWhitespace(s[0]) && !IsWhitespace(s[|s| - 1])
  }

  /** `str::trim_start`: the longest suffix that does not start with whitespace. */
  function TrimStart(s: string): (r: string)
    ensures |r| <= |s|
    ensures r != [] ==> !IsWhitespace(r[0])
  {
    if s == [] || !IsWhitespace(s[0]) then s else TrimStart(s[1..])
  }

  /** `trim_start` keeps a suffix of the input. */
  lemma {:induction false} TrimStartSuffix(s: string)
    ensures TrimStart(s) == s[|s| - |TrimStart(s)|..]
    decreases |s|
  {
    if s != [] && IsWhitespace(s[0]) {
      TrimStartSuffix(s[1..]);
      assert s[1..][|s| - 1 - |TrimStart(s)|..] == s[|s| - |TrimStart(s)|..];
    }
  }

  /** What `trim_start` removes is whitespace. */
  lemma {:induction false} TrimStartDropsBlank(s: string)
    ensures AllWhitespace(s[..|s| - |TrimStart(s)|])
    decreases |s|
  {
    if s != [] && IsWhitespace(s[0]) {
      var n := |s| - |TrimStart(s)|;
      TrimStartDropsBlank(s[1..]);
      TrimStartSuffix(s[1..]);
      assert s[1..][..n - 1] == s[1..n];
      forall k | 0 <= k < n
        ensures IsWhitespace(s[..n][k])
      {
        if k > 0 {
          assert s[..n][k] == s[1..n][k - 1];
        }
      }
    }
  }

  /** `str::trim_end`: the longest prefix that does not end with whitespace. */
  function TrimEnd(s: string): (r: string)
    ensures |r| <= |s|
    ensures r != [] ==> !IsWhitespace(r[|r| - 1])
  {
    if s == [] || !IsWhitespace(s[|s| - 1]) then s else TrimEnd(s[..|s| - 1])
  }

  /** `trim_end` keeps a prefix of the input. */
  lemma {:induction false} TrimEndPrefix(s: string)
    ensures TrimEnd(s) == s[..|TrimEnd(s)|]
    decreases |s|
  {
    if s != [] && IsWhitespace(s[|s| - 1]) {
      TrimEndPrefix(s[..|s| - 1]);
      assert s[..|s| - 1][..|TrimEnd(s)|] == s[..|TrimEnd(s)|];
    }
  }

  /** What `trim_end` removes is whitespace. */
  lemma {:induction false} TrimEndDropsBlank(s: string)
    ensures AllWhitespace(s[|TrimEnd(s)|..])
    decreases |s|
  {
    if s != [] && IsWhitespace(s[|s| - 1]) {
      var m := |TrimEnd(s)|;
      var init := s[..|s| - 1];
      TrimEndDropsBlank(init);
      TrimEndPrefix(init);
      forall k | 0 <= k < |s| - m
        ensures IsWhitespace(s[m..][k])
      {
        if m + k < |s| - 1 {
          assert s[m..][k] == init[m..][k];
        }
      }
    }
  }

  /** `str::trim`: whitespace removed from both ends. */
  function Trim(s: string): (r: string)
    ensures IsTrimmed(r)
    ensures |r| <= |s|
  {
    TrimEmptyOnlyIfBlank(s);
    TrimEnd(TrimStart(s))
  }

  /** Trimming leaves nothing exactly when the string is all whitespace. */
  lemma TrimBlank(s: string)
    ensures Trim(s) == [] <==> AllWhitespace(s)
  {
    TrimEmptyOnlyIfBlank(s);
  }

  lemma TrimEmptyOnlyIfBlank(s: string)
    ensures var t := TrimStart(s); var r := TrimEnd(t);
      && (r != [] ==> r[0] == t[0])
      && (r == [] <==> AllWhitespace(s))
  {
    var t := TrimStart(s);
    var r := TrimEnd(t);
    var a := |s| - |t|;
    TrimStartSuffix(s);
    TrimEndPrefix(t);
    if r == [] {
      TrimStartDropsBlank(s);
      TrimEndDropsBlank(t);
      assert t[|r|..] == t;
      BlankParts(s, a);
    } else {
      assert r[0] == t[0];
      assert s[a] == t[0];
      assert !IsWhitespace(s[a]);
    }
  }

  /** Trimming only removes characters: a character absent from the input is absent from the result. */
  lemma TrimOmits(s: string, c: char)
    requires c !in s
    ensures c !in Trim(s)
  {
    var t := TrimStart(s);
    var r := TrimEnd(t);
    var a := |s| - |t|;
    TrimStartSuffix(s);
    TrimEndPrefix(t);
    assert r == s[a..a + |r|];
  }

  lemma BlankParts(s: string, a: nat)
    requires a <= |s|
    requires AllWhitespace(s[..a]) && AllWhitespace(s[a..])
    ensures AllWhitespace(s)
  {
    forall k | 0 <= k < |s|
      ensures IsWhitespace(s[k])
    {
      if k < a {
        assert s[..a][k] == s[k];
      } else {
        assert s[a..][k - a] == s[k];
      }
    }
  }

  /** A trimmed, non-empty string keeps its value when whitespace is put in front of it. */
  lemma {:induction false} TrimPadded(p: string, t: string)
    requires AllWhitespace(p)
    requires t != [] && IsTrimmed(t)
    ensures Trim(p + t) == t
  {
    TrimStartPadded(p, t);
  }

  lemma {:induction false} TrimStartPadded(p: string, t: string)
    requires AllWhitespace(p)
    requires t != [] && !IsWhitespace(t[0])
    ensures TrimStart(p + t) == t
    decreases |p|
  {
    if p == [] {
      assert p + t == t;
    } else {
      assert (p + t)[1..] == p[1..] + t;
      TrimStartPadded(p[1..], t);
    }
  }

  /** Every character of `s` is `c`. */
  predicate AllChar(s: string, c: char)
  {
    forall k :: 0 <= k < |s| ==> s[k] == c
  }

  /** `str::trim_end_matches(c)` for a single character `c`. */
  function TrimEndMatches(s: string, c: char): (r: string)
    ensures |r| <= |s| && r == s[..|r|]
    ensures forall k :: |r| <= k < |s| ==> s[k] == c
    ensures r != [] ==> r[|r| - 1] != c
  {
    if s != [] && s[|s| - 1] == c then TrimEndMatches(s[..|s| - 1], c) else s
  }

  /** `trim_end_matches(c)` leaves nothing exactly when every character is `c`. */
  lemma TrimEndMatchesEmpty(s: string, c: char)
    ensures TrimEndMatches(s, c) == [] <==> AllChar(s, c)
  {
    var r := TrimEndMatches(s, c);
    if r != [] {
      assert s[|r| - 1] == r[|r| - 1];
    }
  }

  /** `slice.join(sep)` over strings. */
  function Join(parts: seq<string>, sep: string): string
  {
    if |parts| == 0 then []
    else if |parts| == 1 then parts[0]
    else parts[0] + sep + Join(parts[1..], sep)
  }

  /** `str::split(sep)`: the pieces between occurrences of `sep`; there is always at least one. */
  function Split(s: string, sep: char): (r: seq<string>)
    ensures |r| >= 1
    decreases |s|
  {
    if s == [] then [[]]
    else
      var rest := Split(s[1..], sep);
      if s[0] == sep then [[]] + rest
      else [[s[0]] + rest[0]] + rest[1..]
  }

  /** Joining the pieces with the separator gives back the input. */
  lemma {:induction false} SplitJoin(s: string, sep: char)
    ensures Join(Split(s, sep), [sep]) == s
    decreases |s|
  {
    if s != [] {
      var rest := Split(s[1..], sep);
      SplitJoin(s[1..], sep);
      if s[0] == sep {
        assert ([[]] + rest)[1..] == rest;
        assert [sep] + s[1..] == s;
      } else {
        var r := [[s[0]] + rest[0]] + rest[1..];
        assert r[1..] == rest[1..];
        if |rest| > 1 {
          assert Join(rest, [sep]) == rest[0] + [sep] + Join(rest[1..], [sep]);
        }
        assert [s[0]] + s[1..] == s;
      }
    }
  }

  /** No piece contains the separator. */
  lemma {:induction false} SplitPiecesLackSep(s: string, sep: char)
    ensures forall p :: p in Split(s, sep) ==> sep !in p
    decreases |s|
  {
    if s != [] {
      var rest := Split(s[1..], sep);
      SplitPiecesLackSep(s[1..], sep);
      if s[0] != sep {
        assert rest[0] in rest;
        assert forall p :: p in rest[1..] ==> p in rest;
      }
    }
  }

  /** Splitting at the first separator yields the part before it, then the split of the rest. */
  lemma {:induction false} SplitAtFirst(a: string, b: string, sep: char)
    requires sep !in a
    ensures Split(a + [sep] + b, sep) == [a] + Split(b, sep)
    decreases |a|
  {
    if a == [] {
      assert a + [sep] + b == [sep] + b;
      assert ([sep] + b)[1..] == b;
    } else {
      assert (a + [sep] + b)[1..] == a[1..] + [sep] + b;
      SplitAtFirst(a[1..], b, sep);
      assert [a[0]] + a[1..] == a;
    }
  }

  /** A string without the separator is a single piece. */
  lemma {:induction false} SplitNone(a: string, sep: char)
    requires sep !in a
    ensures Split(a, sep) == [a]
    decreases |a|
  {
    if a != [] {
      assert a[1..] + [] == a[1..];
      SplitNone(a[1..], sep);
      assert [a[0]] + a[1..] == a;
    }
  }

  /** Splitting a join of separator-free pieces gives back the pieces. */
  lemma {:induction false} SplitOfJoin(parts: seq<string>, sep: char)
    requires parts != []
    requires forall p :: p in parts ==> sep !in p
    ensures Split(Join(parts, [sep]), sep) == parts
    decreases |parts|
  {
    var first := parts[0];
    assert first in parts;
    if |parts| == 1 {
      SplitNone(first, sep);
    } else {
      var tail := parts[1..];
      assert forall p :: p in tail ==> p in parts;
      calc {
        Split(Join(parts, [sep]), sep);
        Split(first + [sep] + Join(tail, [sep]), sep);
        { SplitAtFirst(first, Join(tail, [sep]), sep); }
        [first] + Split(Join(tail, [sep]), sep);
        { SplitOfJoin(tail, sep); }
        [first] + tail;
        parts;
      }
    }
  }

  /** ASCII case mapping of `char::to_lowercase`. */
  function LowerChar(c: char): char
  {
    if 'A' <= c <= 'Z' then (c as int + 32) as char else c
  }

  /** `str::to_lowercase`, character by character. */
  function Lower(s: string): (r: string)
    ensures |r| == |s|
    ensures forall k :: 0 <= k < |s| ==> r[k] == LowerChar(s[k])
  {
    seq(|s|, k requires 0 <= k < |s| => LowerChar(s[k]))
  }

  lemma LowerIdempotent(s: string)
    ensures Lower(Lower(s)) == Lower(s)
  {
  }

  predicate OccursAt(hay: string, needle: string, k: int)
  {
    0 <= k && k + |needle| <= |hay| && hay[k..k + |needle|] == needle
  }

  /** `str::contains`: `needle` occurs somewhere in `hay` (the empty needle occurs everywhere). */
  function Contains(hay: string, needle: string): (r: bool)
    ensures r <==> exists k :: OccursAt(hay, needle, k)
    decreases |hay|
  {
    if |hay| < |needle| then false
    else if hay[..|needle|] == needle then
      assert OccursAt(hay, needle, 0);
      true
    else
      var r := Contains(hay[1..], needle);
      if r then
        var k :| OccursAt(hay[1..], needle, k);
        assert OccursAt(hay, needle, k + 1);
        r
      else
        assert forall k :: OccursAt(hay, needle, k) ==> k > 0 && OccursAt(hay[1..], needle, k - 1);
        r
  }
}
