/** The JavaScript string operations the manifest generator relies on, with
    the semantics of the ECMAScript `String.prototype` methods of the same
    name. A string is a sequence of `char`; every name, tag and URL handled
    is ASCII, where one `char` is one JavaScript code unit. */
module JsString {

  /** `s.startsWith(p)` */
  predicate StartsWith(s: string, p: string) {
    |p| <= |s| && s[..|p|] == p
  }

  /** `s.endsWith(p)` */
  predicate EndsWith(s: string, p: string) {
    |p| <= |s| && s[|s| - |p|..] == p
  }

  /** `s.includes(p)`: an occurrence of `p` starts at some position of `s`
      (the empty string occurs everywhere). */
  predicate Contains(s: string, p: string)
    decreases |s|
  {
    StartsWith(s, p) || (|s| > 0 && Contains(s[1..], p))
  }

  /** `s.replaceAll(pat, rep)` with a string pattern: every non-overlapping
      occurrence, found left to right, is replaced and the search resumes after
      it. An empty pattern matches at every position, before each character and
      at the end. `rep` is taken literally: no replacement used here contains
      one of the `$` forms `$$`, `$&`, `` $` ``, `$'`, `$n` or `$<`. */
  function ReplaceAll(s: string, pat: string, rep: string): string
    decreases |s|
  {
    if |pat| == 0 then
      if |s| == 0 then rep else rep + [s[0]] + ReplaceAll(s[1..], pat, rep)
    else if StartsWith(s, pat) then rep + ReplaceAll(s[|pat|..], pat, rep)
    else if |s| == 0 then []
    else [s[0]] + ReplaceAll(s[1..], pat, rep)
  }

  /** `s.replace(pat, rep)` with a string pattern: only the first occurrence. */
  function ReplaceFirst(s: string, pat: string, rep: string): string
    decreases |s|
  {
    if StartsWith(s, pat) then rep + s[|pat|..]
    else if |s| == 0 then s
    else [s[0]] + ReplaceFirst(s[1..], pat, rep)
  }

  /** `s.split(sep)` for a one-character separator: the maximal pieces between
      separators, so there is always at least one piece. */
  function Split(s: string, sep: char): (pieces: seq<string>)
    ensures |pieces| >= 1
    decreases |s|
  {
    if |s| == 0 then [""]
    else if s[0] == sep then [""] + Split(s[1..], sep)
    else
      var rest := Split(s[1..], sep);
      [[s[0]] + rest[0]] + rest[1..]
  }

  /** `pieces.join(sep)` */
  function Join(pieces: seq<string>, sep: string): string {
    if |pieces| == 0 then ""
    else if |pieces| == 1 then pieces[0]
    else pieces[0] + sep + Join(pieces[1..], sep)
  }

  /** `s.lastIndexOf(c)` for a one-character search string: the last index
      holding `c`, or -1. */
  function LastIndexOf(s: string, c: char): (i: int)
    ensures -1 <= i < |s|
    ensures 0 <= i ==> s[i] == c
    ensures forall j :: i < j < |s| ==> s[j] != c
  {
    if |s| == 0 then -1
    else if s[|s| - 1] == c then |s| - 1
    else LastIndexOf(s[..|s| - 1], c)
  }

  /** `toUpperCase` on one character, restricted to ASCII letters. */
  function UpperChar(ch: char): char {
    if 'a' <= ch <= 'z' then (ch as int - 32) as char else ch
  }

  /** `s.toUpperCase()`, restricted to ASCII case folding. */
  function ToUpper(s: string): (u: string)
    ensures |u| == |s|
    ensures forall i :: 0 <= i < |s| ==> u[i] == UpperChar(s[i])
  {
    seq(|s|, i requires 0 <= i < |s| => UpperChar(s[i]))
  }

  /** The reference definition of deleting one character everywhere. */
  function RemoveChar(s: string, c: char): string {
    if |s| == 0 then "" else (if s[0] == c then "" else [s[0]]) + RemoveChar(s[1..], c)
  }

  // ---------------------------------------------------------------------
  // Facts about the operations above.

  lemma {:induction false} ContainsSuffix(s: string, a: string, b: string)
    requires Contains(s, a + b)
    ensures Contains(s, b)
    decreases |s|
  {
    if StartsWith(s, a + b) {
      assert (a + b)[|a|..] == b;
      BorderStartsWith(s[|a|..], b, s, a);
      ContainsAt(s, |a|, b);
    } else {
      ContainsSuffix(s[1..], a, b);
      ContainsTail(s, b);
    }
  }

  lemma BorderStartsWith(t: string, b: string, s: string, a: string)
    requires StartsWith(s, a + b) && t == s[|a|..]
    ensures StartsWith(t, b)
  {
    assert |a + b| == |a| + |b|;
    assert forall k :: 0 <= k < |b| ==> t[k] == s[|a| + k] == (a + b)[|a| + k] == b[k];
    assert t[..|b|] == b;
  }

  /** An occurrence at position k is an occurrence. */
  lemma {:induction false} ContainsAt(s: string, k: nat, p: string)
    requires k <= |s| && StartsWith(s[k..], p)
    ensures Contains(s, p)
    decreases k
  {
    if k > 0 {
      assert s[1..][k - 1..] == s[k..];
      ContainsAt(s[1..], k - 1, p);
    } else {
      assert s[0..] == s;
    }
  }

  lemma ContainsTail(s: string, p: string)
    requires |s| > 0 && Contains(s[1..], p)
    ensures Contains(s, p)
  {
  }

  /** A pattern whose first character does not occur in `s` does not occur in `s`. */
  lemma {:induction false} NotContainsFirstChar(s: string, p: string)
    requires |p| > 0 && p[0] !in s
    ensures !Contains(s, p)
    decreases |s|
  {
    if |s| > 0 {
      assert s[0] != p[0];
      assert s[1..] <= s[1..];
      assert forall ch :: ch in s[1..] ==> ch in s;
      NotContainsFirstChar(s[1..], p);
    }
  }

  /** ReplaceAll changes nothing when the pattern does not occur. */
  lemma {:induction false} ReplaceAllAbsent(s: string, pat: string, rep: string)
    requires |pat| > 0 && !Contains(s, pat)
    ensures ReplaceAll(s, pat, rep) == s
    decreases |s|
  {
    if |s| > 0 {
      ReplaceAllAbsent(s[1..], pat, rep);
    }
  }

  /** Replacing an empty pattern by an empty string changes nothing. */
  lemma {:induction false} ReplaceAllEmptyByEmpty(s: string)
    ensures ReplaceAll(s, "", "") == s
    decreases |s|
  {
    if |s| > 0 {
      ReplaceAllEmptyByEmpty(s[1..]);
    }
  }

  /** A replacement no longer than the pattern never lengthens the string. */
  lemma {:induction false} ReplaceAllShrinks(s: string, pat: string, rep: string)
    requires |rep| <= |pat|
    ensures |ReplaceAll(s, pat, rep)| <= |s|
    decreases |s|
  {
    if |pat| == 0 {
      ReplaceAllEmptyByEmpty(s);
    } else if StartsWith(s, pat) {
      ReplaceAllShrinks(s[|pat|..], pat, rep);
    } else if |s| > 0 {
      ReplaceAllShrinks(s[1..], pat, rep);
    }
  }

  /** The empty pattern inserts the replacement before every character and at the end. */
  lemma {:induction false} ReplaceAllEmptyLength(s: string, rep: string)
    ensures |ReplaceAll(s, "", rep)| == |s| + (|s| + 1) * |rep|
    decreases |s|
  {
    if |s| > 0 {
      ReplaceAllEmptyLength(s[1..], rep);
      assert |s| + (|s| + 1) * |rep| == |rep| + 1 + (|s| - 1) + |s| * |rep|;
    }
  }

  /** Every occurrence of a one-character pattern is deleted and nothing else. */
  lemma {:induction false} ReplaceAllRemovesChar(s: string, c: char)
    ensures ReplaceAll(s, [c], "") == RemoveChar(s, c)
    ensures c !in RemoveChar(s, c)
    decreases |s|
  {
    if |s| > 0 {
      ReplaceAllRemovesChar(s[1..], c);
      if s[0] == c {
        assert StartsWith(s, [c]);
        assert s[|[c]|..] == s[1..];
      } else {
        assert !StartsWith(s, [c]);
      }
    }
  }

  /** An occurrence at the front is replaced. */
  lemma ReplaceAllFront(p: string, b: string, rep: string)
    requires |p| > 0
    ensures ReplaceAll(p + b, p, rep) == rep + ReplaceAll(b, p, rep)
  {
    assert (p + b)[..|p|] == p;
    assert (p + b)[|p|..] == b;
  }

  /** A pattern occurring exactly once, after text in which it cannot start,
      is replaced there and nowhere else. */
  lemma ReplaceAllOnce(a: string, pat: string, b: string, rep: string)
    requires |pat| > 0 && pat[0] !in a && !Contains(b, pat)
    ensures ReplaceAll(a + pat + b, pat, rep) == a + rep + b
  {
    NotContainsBeforeShort(a, pat[..|pat| - 1], pat);
    ReplaceAllAt(a, pat, b, rep);
  }

  /** A string too short for the pattern does not contain it. */
  lemma {:induction false} NotContainsShort(s: string, p: string)
    requires |s| < |p|
    ensures !Contains(s, p)
    decreases |s|
  {
    if |s| > 0 {
      NotContainsShort(s[1..], p);
    }
  }

  /** When the pattern's first character is not in `a`, an occurrence in
      `a + c` can only start inside `c`, so none fits when `c` is shorter
      than the pattern. */
  lemma {:induction false} NotContainsBeforeShort(a: string, c: string, p: string)
    requires |p| > 0 && p[0] !in a && |c| < |p|
    ensures !Contains(a + c, p)
    decreases |a|
  {
    if |a| == 0 {
      assert a + c == c;
      NotContainsShort(c, p);
    } else {
      var t := a + c;
      assert !StartsWith(t, p) by {
        if |p| <= |t| {
          assert t[..|p|][0] == t[0] == a[0];
        }
      }
      assert t[1..] == a[1..] + c;
      NotContainsBeforeShort(a[1..], c, p);
    }
  }

  /** When no occurrence starts inside a non-empty `a`, none starts at the
      front of `a + pat + b`, and none starts inside `a[1..]` either. */
  lemma NotLeftmostAtFront(a: string, pat: string, b: string)
    requires |a| > 0 && |pat| > 0 && !Contains(a + pat[..|pat| - 1], pat)
    ensures !StartsWith(a + pat + b, pat)
    ensures !Contains(a[1..] + pat[..|pat| - 1], pat)
  {
    var t, u := a + pat + b, a + pat[..|pat| - 1];
    assert |pat| <= |u| && u[..|pat|] == t[..|pat|] by {
      assert forall k :: 0 <= k < |pat| ==> u[k] == t[k];
    }
    assert u[1..] == a[1..] + pat[..|pat| - 1];
  }

  /** When the leftmost occurrence of the pattern in `a + pat + b` is the one
      right after `a` (no occurrence starts inside `a`) and `b` holds none,
      exactly that occurrence is replaced. */
  lemma {:induction false} ReplaceAllAt(a: string, pat: string, b: string, rep: string)
    requires |pat| > 0 && !Contains(a + pat[..|pat| - 1], pat) && !Contains(b, pat)
    ensures ReplaceAll(a + pat + b, pat, rep) == a + rep + b
    decreases |a|
  {
    if |a| == 0 {
      assert a + pat + b == pat + b && a + rep + b == rep + b;
      ReplaceAllFront(pat, b, rep);
      ReplaceAllAbsent(b, pat, rep);
    } else {
      ConsSplit(a, pat, b);
      ConsSplit(a, rep, b);
      NotLeftmostAtFront(a, pat, b);
      ReplaceAllStep(a[0], a[1..] + pat + b, pat, rep);
      ReplaceAllAt(a[1..], pat, b, rep);
    }
  }

  /** `a + x + b` is `a`'s first character followed by the rest. */
  lemma ConsSplit(a: string, x: string, b: string)
    requires |a| > 0
    ensures a + x + b == [a[0]] + (a[1..] + x + b)
  {
    assert [a[0]] + a[1..] == a;
  }

  /** A character at which the pattern does not start is kept. */
  lemma ReplaceAllStep(c: char, rest: string, pat: string, rep: string)
    requires |pat| > 0 && !StartsWith([c] + rest, pat)
    ensures ReplaceAll([c] + rest, pat, rep) == [c] + ReplaceAll(rest, pat, rep)
  {
    assert ([c] + rest)[1..] == rest;
  }

  /** The empty pattern puts the replacement before the first character. */
  lemma ReplaceAllEmptyStep(s: string, rep: string)
    requires |s| > 0
    ensures ReplaceAll(s, "", rep) == (rep + [s[0]]) + ReplaceAll(s[1..], "", rep)
  {
  }

  lemma MulStep(i: nat, w: nat)
    requires i > 0
    ensures i * w == w + (i - 1) * w
  {
  }

  /** With the empty pattern, the part of the result from position
      `i * (|rep| + 1)` on is the result for the characters from `i` on. */
  lemma {:induction false} ReplaceAllEmptySuffix(s: string, rep: string, i: nat, p: nat)
    requires i <= |s| && p == i * (|rep| + 1)
    ensures p <= |ReplaceAll(s, "", rep)| && ReplaceAll(s, "", rep)[p..] == ReplaceAll(s[i..], "", rep)
    decreases i
  {
    if i > 0 {
      var head := rep + [s[0]];
      var r' := ReplaceAll(s[1..], "", rep);
      ReplaceAllEmptyStep(s, rep);
      MulStep(i, |head|);
      ReplaceAllEmptySuffix(s[1..], rep, i - 1, p - |head|);
      assert s[1..][i - 1..] == s[i..];
      assert (head + r')[p..] == r'[p - |head|..];
    }
  }

  /** Regrouping a four-part concatenation. */
  lemma Regroup(a: string, b: string, c: string, d: string)
    ensures a + b + c + d == a + (b + c) + d
  {
  }

  /** Removing a pattern whose leftmost occurrence follows `a`, when the text
      after it cannot hold one, leaves `a` and that text. */
  lemma RemoveAt(a: string, pat: string, post: string)
    requires |pat| > 0 && !Contains(a + pat[..|pat| - 1], pat) && pat[0] !in post
    ensures ReplaceAll(a + pat + post, pat, "") == a + post
  {
    NotContainsFirstChar(post, pat);
    ReplaceAllAt(a, pat, post, "");
    assert a + "" + post == a + post;
  }

  /** With the empty pattern, character `i` of `s` follows the `i + 1`-th copy
      of the replacement, which starts at `p == i * (|rep| + 1)`: the result
      interleaves copies and characters. */
  lemma ReplaceAllEmptyAt(s: string, rep: string, i: nat, p: nat)
    requires i < |s| && p == i * (|rep| + 1)
    ensures p + |rep| + 1 <= |ReplaceAll(s, "", rep)|
    ensures ReplaceAll(s, "", rep)[p..p + |rep|] == rep
    ensures ReplaceAll(s, "", rep)[p + |rep|] == s[i]
  {
    var r := ReplaceAll(s, "", rep);
    ReplaceAllEmptySuffix(s, rep, i, p);
    var t := s[i..];
    ReplaceAllEmptyStep(t, rep);
    var u := ReplaceAll(t, "", rep);
    assert u == (rep + [s[i]]) + ReplaceAll(t[1..], "", rep);
    assert r[p..] == u;
    assert r[p..p + |rep|] == u[..|rep|];
    assert r[p + |rep|] == u[|rep|];
  }

  /** With the empty pattern the result ends with the replacement. */
  lemma {:induction false} ReplaceAllEmptyEnd(s: string, rep: string)
    ensures EndsWith(ReplaceAll(s, "", rep), rep)
    decreases |s|
  {
    var r := ReplaceAll(s, "", rep);
    if |s| > 0 {
      var r' := ReplaceAll(s[1..], "", rep);
      ReplaceAllEmptyEnd(s[1..], rep);
      assert r == (rep + [s[0]]) + r';
      assert r[|r| - |rep|..] == r'[|r'| - |rep|..];
    }
  }

  /** ReplaceFirst changes nothing when the pattern does not occur. */
  lemma {:induction false} ReplaceFirstAbsent(s: string, pat: string, rep: string)
    requires !Contains(s, pat)
    ensures ReplaceFirst(s, pat, rep) == s
    decreases |s|
  {
    if |s| > 0 {
      ReplaceFirstAbsent(s[1..], pat, rep);
    }
  }

  /** ReplaceFirst replaces exactly one occurrence when there is one. */
  lemma {:induction false} ReplaceFirstLength(s: string, pat: string, rep: string)
    requires Contains(s, pat)
    ensures |ReplaceFirst(s, pat, rep)| == |s| - |pat| + |rep|
    decreases |s|
  {
    if !StartsWith(s, pat) {
      ReplaceFirstLength(s[1..], pat, rep);
    }
  }

  /** When the leftmost occurrence of the pattern in `a + pat + b` is the one
      right after `a`, ReplaceFirst replaces that one and keeps `b` as it is. */
  lemma {:induction false} ReplaceFirstAt(a: string, pat: string, b: string, rep: string)
    requires |pat| > 0 && !Contains(a + pat[..|pat| - 1], pat)
    ensures ReplaceFirst(a + pat + b, pat, rep) == a + rep + b
    decreases |a|
  {
    if |a| == 0 {
      var t := a + pat + b;
      assert t == pat + b && t[..|pat|] == pat && t[|pat|..] == b;
    } else {
      ConsSplit(a, pat, b);
      ConsSplit(a, rep, b);
      NotLeftmostAtFront(a, pat, b);
      var rest := a[1..] + pat + b;
      assert ([a[0]] + rest)[1..] == rest;
      ReplaceFirstAt(a[1..], pat, b, rep);
    }
  }

  /** Splitting at a separator-free prefix followed by a separator. */
  lemma {:induction false} SplitAt(a: string, b: string, sep: char)
    requires sep !in a
    ensures Split(a + [sep] + b, sep) == [a] + Split(b, sep)
    decreases |a|
  {
    if |a| == 0 {
      assert a + [sep] + b == [sep] + b;
      assert ([sep] + b)[1..] == b;
    } else {
      assert (a + [sep] + b)[0] == a[0];
      assert (a + [sep] + b)[1..] == a[1..] + [sep] + b;
      SplitAt(a[1..], b, sep);
      assert [a[0]] + a[1..] == a;
    }
  }

  /** A separator-free string is one piece. */
  lemma {:induction false} SplitNone(s: string, sep: char)
    requires sep !in s
    ensures Split(s, sep) == [s]
    decreases |s|
  {
    if |s| > 0 {
      SplitNone(s[1..], sep);
      assert [s[0]] + s[1..] == s;
    }
  }

  /** Upper-casing twice is upper-casing once. */
  lemma ToUpperIdempotent(s: string)
    ensures ToUpper(ToUpper(s)) == ToUpper(s)
  {
  }
}
