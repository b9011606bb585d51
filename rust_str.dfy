/** The few operations of Rust's `str` that the upload command relies on, with
    their standard-library meaning: `contains`, `starts_with`, `ends_with`,
    `split` (on a set of characters and on a string pattern), `replace`, and the
    inverse of `split`, joining with a separator. */
module RustStr {

  /** `pat` occurs in `s` starting at index `i`. */
  predicate MatchAt(s: string, pat: string, i: int)
  {
    0 <= i && i + |pat| <= |s| && s[i..i + |pat|] == pat
  }

  /** `s.contains(pat)` */
  predicate Contains(s: string, pat: string)
  {
    exists i | 0 <= i <= |s| :: MatchAt(s, pat, i)
  }

  /** `s.starts_with(pat)` */
  predicate StartsWith(s: string, pat: string)
  {
    pat <= s
  }

  /** `s.ends_with(pat)` */
  predicate EndsWith(s: string, pat: string)
  {
    |pat| <= |s| && s[|s| - |pat|..] == pat
  }

  /** No character of `s` is one of `seps`. */
  predicate NoneOf(s: string, seps: set<char>)
  {
    forall j | 0 <= j < |s| :: s[j] !in seps
  }

  /** How many characters of `s` are in `seps`. */
  function CountOf(s: string, seps: set<char>): nat
  {
    if s == [] then 0 else (if s[0] in seps then 1 else 0) + CountOf(s[1..], seps)
  }

  /** The inverse of splitting: the parts with `sep` between neighbours. */
  function Join(parts: seq<string>, sep: string): string
  {
    if |parts| == 0 then []
    else if |parts| == 1 then parts[0]
    else parts[0] + sep + Join(parts[1..], sep)
  }

  /** `s.split(&seps[..])`: every character in `seps` ends a token, so adjacent
      separators give an empty token and the result is never empty. */
  function SplitAny(s: string, seps: set<char>): (r: seq<string>)
    ensures |r| == CountOf(s, seps) + 1
    decreases |s|
  {
    if s == [] then [[]]
    else
      var rest := SplitAny(s[1..], seps);
      if s[0] in seps then [[]] + rest
      else [[s[0]] + rest[0]] + rest[1..]
  }

  /** `s.split(pat)` for a non-empty string pattern: matches are found from the
      left and do not overlap. */
  function SplitOn(s: string, pat: string): (r: seq<string>)
    requires |pat| > 0
    ensures |r| >= 1
    decreases |s|
  {
    if s == [] then [[]]
    else if pat <= s then [[]] + SplitOn(s[|pat|..], pat)
    else
      var rest := SplitOn(s[1..], pat);
      [[s[0]] + rest[0]] + rest[1..]
  }

  /** `s.replace(pat, rep)` for a non-empty pattern; a `char` pattern `c` is the
      one-character string `[c]`. */
  function Replace(s: string, pat: string, rep: string): string
    requires |pat| > 0
    decreases |s|
  {
    if s == [] then []
    else if pat <= s then rep + Replace(s[|pat|..], pat, rep)
    else [s[0]] + Replace(s[1..], pat, rep)
  }

  /** `s.split(pat).last().unwrap()`: the text after the last separator that the
      left-to-right split finds. */
  function LastSegment(s: string, pat: string): string
    requires |pat| > 0
  {
    var parts := SplitOn(s, pat);
    parts[|parts| - 1]
  }

  // ---------------------------------------------------------------------------
  // Joining undoes splitting.

  /** Joining after extending the first part by `a` extends the result by `a`. */
  lemma JoinExtendHead(a: string, parts: seq<string>, sep: string)
    requires |parts| >= 1
    ensures Join([a + parts[0]] + parts[1..], sep) == a + Join(parts, sep)
  {
    var ps := [a + parts[0]] + parts[1..];
    if |parts| > 1 {
      assert ps[1..] == parts[1..];
    }
  }

  /** Splitting on a single character and joining with it gives back the text. */
  lemma {:induction false} SplitAnyJoin(s: string, c: char)
    ensures Join(SplitAny(s, {c}), [c]) == s
    decreases |s|
  {
    if s != [] {
      var rest := SplitAny(s[1..], {c});
      SplitAnyJoin(s[1..], c);
      if s[0] == c {
        assert SplitAny(s, {c}) == [[]] + rest;
        assert ([[]] + rest)[1..] == rest;
      } else {
        JoinExtendHead([s[0]], rest, [c]);
      }
    }
  }

  /** No token holds a separator. */
  lemma {:induction false} SplitAnyTokens(s: string, seps: set<char>)
    ensures forall k | 0 <= k < |SplitAny(s, seps)| :: NoneOf(SplitAny(s, seps)[k], seps)
    decreases |s|
  {
    if s != [] {
      SplitAnyTokens(s[1..], seps);
      var rest := SplitAny(s[1..], seps);
      if s[0] !in seps {
        var head := [s[0]] + rest[0];
        forall j | 0 <= j < |head|
          ensures head[j] !in seps
        {
          if j > 0 {
            assert head[j] == rest[0][j - 1];
          }
        }
      }
    }
  }

  /** A text without separators is a single token. */
  lemma {:induction false} SplitAnyNone(s: string, seps: set<char>)
    requires NoneOf(s, seps)
    ensures SplitAny(s, seps) == [s]
    decreases |s|
  {
    if s != [] {
      SplitAnyNone(s[1..], seps);
      assert s[0] !in seps;
      assert [s[0]] + s[1..] == s;
    }
  }

  /** Splitting distributes over a separator: the tokens of `a`, then those of `b`. */
  lemma {:induction false} SplitAnyAppend(a: string, c: char, b: string, seps: set<char>)
    requires c in seps
    ensures SplitAny(a + [c] + b, seps) == SplitAny(a, seps) + SplitAny(b, seps)
    decreases |a|
  {
    var s := a + [c] + b;
    if a == [] {
      assert s[0] == c && s[1..] == b;
    } else {
      assert s[0] == a[0] && s[1..] == a[1..] + [c] + b;
      SplitAnyAppend(a[1..], c, b, seps);
    }
  }

  /** Replacing a pattern with itself changes nothing. */
  lemma {:induction false} ReplaceSelf(s: string, pat: string)
    requires |pat| > 0
    ensures Replace(s, pat, pat) == s
    decreases |s|
  {
    if s != [] {
      if pat <= s {
        ReplaceSelf(s[|pat|..], pat);
        assert s == pat + s[|pat|..];
      } else {
        ReplaceSelf(s[1..], pat);
      }
    }
  }

  /** `replace` is `split` followed by `join` with the replacement. */
  lemma {:induction false} ReplaceIsSplitJoin(s: string, pat: string, rep: string)
    requires |pat| > 0
    ensures Replace(s, pat, rep) == Join(SplitOn(s, pat), rep)
    decreases |s|
  {
    if s != [] {
      if pat <= s {
        ReplaceIsSplitJoin(s[|pat|..], pat, rep);
        var rest := SplitOn(s[|pat|..], pat);
        assert ([[]] + rest)[1..] == rest;
      } else {
        ReplaceIsSplitJoin(s[1..], pat, rep);
        JoinExtendHead([s[0]], SplitOn(s[1..], pat), rep);
      }
    }
  }

  /** Splitting on a string pattern and joining with it gives back the text. */
  lemma SplitOnJoin(s: string, pat: string)
    requires |pat| > 0
    ensures Join(SplitOn(s, pat), pat) == s
  {
    ReplaceIsSplitJoin(s, pat, pat);
    ReplaceSelf(s, pat);
  }

  // ---------------------------------------------------------------------------
  // Facts about matches and `replace`.

  /** A match in the tail of `s` is a match in `s`, one position further. */
  lemma MatchAtTail(s: string, pat: string, i: int)
    requires |s| > 0 && i >= 0
    ensures MatchAt(s[1..], pat, i) <==> MatchAt(s, pat, i + 1)
  {
    if 0 <= i && i + |pat| <= |s| - 1 {
      assert s[1..][i..i + |pat|] == s[i + 1..i + 1 + |pat|];
    }
  }

  /** A pattern occurs where it was put. */
  lemma MatchInMiddle(a: string, pat: string, c: string)
    ensures MatchAt(a + pat + c, pat, |a|)
  {
    assert (a + pat + c)[|a|..|a| + |pat|] == pat;
  }

  /** A pattern holding a character that `s` lacks does not occur in `s`. */
  lemma AbsentChar(s: string, pat: string, j: int)
    requires 0 <= j < |pat| && pat[j] !in s
    ensures !Contains(s, pat)
  {
    forall i | 0 <= i <= |s|
      ensures !MatchAt(s, pat, i)
    {
      if i + |pat| <= |s| {
        assert s[i..i + |pat|][j] == s[i + j];
      }
    }
  }

  /** Without an occurrence of the pattern, `replace` leaves the text unchanged. */
  lemma {:induction false} ReplaceAbsent(s: string, pat: string, rep: string)
    requires |pat| > 0
    requires !Contains(s, pat)
    ensures Replace(s, pat, rep) == s
    decreases |s|
  {
    if s != [] {
      assert !MatchAt(s, pat, 0);
      assert !(pat <= s);
      forall i | 0 <= i <= |s[1..]|
        ensures !MatchAt(s[1..], pat, i)
      {
        MatchAtTail(s, pat, i);
      }
      ReplaceAbsent(s[1..], pat, rep);
    }
  }

  /** When no occurrence of the pattern starts inside `a`, `replace` copies `a`
      and continues on `b`. */
  lemma {:induction false} ReplaceSkipsPrefix(a: string, b: string, pat: string, rep: string)
    requires |pat| > 0
    requires forall i | 0 <= i < |a| :: !MatchAt(a + b, pat, i)
    ensures Replace(a + b, pat, rep) == a + Replace(b, pat, rep)
    decreases |a|
  {
    if a == [] {
      assert a + b == b;
    } else {
      var s := a + b;
      assert !MatchAt(s, pat, 0);
      assert !(pat <= s);
      assert s[1..] == a[1..] + b;
      forall i | 0 <= i < |a[1..]|
        ensures !MatchAt(a[1..] + b, pat, i)
      {
        MatchAtTail(s, pat, i);
      }
      ReplaceSkipsPrefix(a[1..], b, pat, rep);
      assert a == [a[0]] + a[1..];
    }
  }

  /** A match at the front is replaced, and `replace` continues after it. */
  lemma ReplaceLeadingMatch(pat: string, b: string, rep: string)
    requires |pat| > 0
    ensures Replace(pat + b, pat, rep) == rep + Replace(b, pat, rep)
  {
    assert pat <= pat + b;
    assert (pat + b)[|pat|..] == b;
  }

  /** Replacing one character by another rewrites every occurrence of it and
      keeps every other character where it was. */
  lemma {:induction false} ReplaceChar(s: string, c: char, d: char)
    ensures |Replace(s, [c], [d])| == |s|
    ensures forall j | 0 <= j < |s| :: Replace(s, [c], [d])[j] == if s[j] == c then d else s[j]
    decreases |s|
  {
    if s != [] {
      ReplaceChar(s[1..], c, d);
      var t := Replace(s[1..], [c], [d]);
      assert [c] <= s <==> s[0] == c;
      assert Replace(s, [c], [d]) == [if s[0] == c then d else s[0]] + t;
    }
  }

  /** An occurrence of the pattern is still one inside a longer text. */
  lemma ContainsInside(a: string, s: string, c: string, pat: string)
    requires Contains(s, pat)
    ensures Contains(a + s + c, pat)
  {
    var k :| 0 <= k <= |s| && MatchAt(s, pat, k);
    assert (a + s + c)[|a| + k..|a| + k + |pat|] == s[k..k + |pat|];
    assert MatchAt(a + s + c, pat, |a| + k);
  }

  /** A text free of a larger set of characters is free of a smaller one. */
  lemma NoneOfFewer(s: string, seps: set<char>, fewer: set<char>)
    requires NoneOf(s, seps) && fewer <= seps
    ensures NoneOf(s, fewer)
  {
  }

  /** Texts without separators concatenate to a text without separators. */
  lemma NoneOfConcat(a: string, b: string, seps: set<char>)
    requires NoneOf(a, seps) && NoneOf(b, seps)
    ensures NoneOf(a + b, seps)
  {
    forall j | 0 <= j < |a + b|
      ensures (a + b)[j] !in seps
    {
      if j >= |a| {
        assert (a + b)[j] == b[j - |a|];
      }
    }
  }

  // ---------------------------------------------------------------------------
  // The last segment of a split.

  /** Splitting off one leading match: the last segment is that of the rest. */
  lemma LastSegmentAfterMatch(s: string, pat: string)
    requires |pat| > 0 && s != [] && pat <= s
    ensures LastSegment(s, pat) == LastSegment(s[|pat|..], pat)
    ensures |SplitOn(s, pat)| == |SplitOn(s[|pat|..], pat)| + 1
  {
    assert SplitOn(s, pat) == [[]] + SplitOn(s[|pat|..], pat);
  }

  /** Without a leading match, the split of `s` is that of its tail with the first
      token extended. */
  lemma LastSegmentAfterChar(s: string, pat: string)
    requires |pat| > 0 && s != [] && !(pat <= s)
    ensures |SplitOn(s, pat)| == |SplitOn(s[1..], pat)|
    ensures |SplitOn(s[1..], pat)| > 1 ==> LastSegment(s, pat) == LastSegment(s[1..], pat)
    ensures |SplitOn(s[1..], pat)| == 1 ==> LastSegment(s, pat) == s
  {
    var rest := SplitOn(s[1..], pat);
    assert SplitOn(s, pat) == [[s[0]] + rest[0]] + rest[1..];
    if |rest| == 1 {
      SplitOnJoin(s[1..], pat);
      assert [s[0]] + s[1..] == s;
    }
  }

  /** The last segment is a suffix of the text. */
  lemma {:induction false} LastSegmentIsSuffix(s: string, pat: string)
    requires |pat| > 0
    ensures |LastSegment(s, pat)| <= |s|
    ensures LastSegment(s, pat) == s[|s| - |LastSegment(s, pat)|..]
    decreases |s|
  {
    if s != [] {
      if pat <= s {
        LastSegmentAfterMatch(s, pat);
        LastSegmentIsSuffix(s[|pat|..], pat);
      } else {
        LastSegmentAfterChar(s, pat);
        LastSegmentIsSuffix(s[1..], pat);
      }
    }
  }

  /** The last segment contains no occurrence of the pattern. */
  lemma {:induction false} LastSegmentHasNoMatch(s: string, pat: string)
    requires |pat| > 0
    ensures !Contains(LastSegment(s, pat), pat)
    decreases |s|
  {
    var r := LastSegment(s, pat);
    if s == [] {
      assert r == [];
      assert !MatchAt(r, pat, 0);
    } else if pat <= s {
      LastSegmentAfterMatch(s, pat);
      LastSegmentHasNoMatch(s[|pat|..], pat);
    } else {
      LastSegmentAfterChar(s, pat);
      LastSegmentHasNoMatch(s[1..], pat);
      if |SplitOn(s[1..], pat)| == 1 {
        assert LastSegment(s[1..], pat) == s[1..] by {
          SplitOnJoin(s[1..], pat);
        }
        forall i | 0 <= i <= |s|
          ensures !MatchAt(s, pat, i)
        {
          if i > 0 {
            MatchAtTail(s, pat, i - 1);
          }
        }
      }
    }
  }

  /** A text containing the pattern splits into at least two tokens. */
  lemma ContainsSplitsInTwo(s: string, pat: string)
    requires |pat| > 0
    requires Contains(s, pat)
    ensures |SplitOn(s, pat)| > 1
  {
    if |SplitOn(s, pat)| == 1 {
      LastSegmentHasNoMatch(s, pat);
      SplitOnJoin(s, pat);
    }
  }

  /** A text without the pattern is a single token. */
  lemma {:induction false} SplitOnNone(s: string, pat: string)
    requires |pat| > 0
    requires !Contains(s, pat)
    ensures SplitOn(s, pat) == [s]
    decreases |s|
  {
    if s != [] {
      assert !MatchAt(s, pat, 0);
      forall i | 0 <= i <= |s[1..]|
        ensures !MatchAt(s[1..], pat, i)
      {
        MatchAtTail(s, pat, i);
      }
      SplitOnNone(s[1..], pat);
      assert [s[0]] + s[1..] == s;
    }
  }

  /** When no match starts inside `a`, the first token of `a + pat + b` is `a`
      and the others are those of `b`. */
  lemma {:induction false} SplitOnFirstMatch(a: string, pat: string, b: string)
    requires |pat| > 0
    requires forall i | 0 <= i < |a| :: !MatchAt(a + pat + b, pat, i)
    ensures SplitOn(a + pat + b, pat) == [a] + SplitOn(b, pat)
    decreases |a|
  {
    var s := a + pat + b;
    if a == [] {
      assert s == pat + b && pat <= s && s[|pat|..] == b;
    } else {
      assert !MatchAt(s, pat, 0);
      assert s[1..] == a[1..] + pat + b;
      forall i | 0 <= i < |a[1..]|
        ensures !MatchAt(a[1..] + pat + b, pat, i)
      {
        MatchAtTail(s, pat, i);
      }
      SplitOnFirstMatch(a[1..], pat, b);
      assert [a[0]] + a[1..] == a;
    }
  }

  /** Hence the last segment of `a + pat + b` is `b` when `b` holds no match. */
  lemma LastSegmentOf(a: string, pat: string, b: string)
    requires |pat| > 0
    requires forall i | 0 <= i < |a| :: !MatchAt(a + pat + b, pat, i)
    requires !Contains(b, pat)
    ensures LastSegment(a + pat + b, pat) == b
  {
    SplitOnFirstMatch(a, pat, b);
    SplitOnNone(b, pat);
  }
}
