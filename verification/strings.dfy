/** The Python string primitives the mailer relies on: `str.endswith`,
    `str.find` (with its treatment of a negative start) and `str.replace`. */
module Strings {

  /** `s.endswith(suffix)`. */
  predicate EndsWith(s: string, suffix: string) {
    |suffix| <= |s| && s[|s| - |suffix|..] == suffix
  }

  /** `s` ends with `suffix` exactly when it is some string followed by
      `suffix`. */
  lemma EndsWithIff(s: string, suffix: string)
    ensures EndsWith(s, suffix) <==> exists p :: p + suffix == s
  {
    if EndsWith(s, suffix) {
      assert s[..|s| - |suffix|] + suffix == s;
    }
  }

  /** `pat` occurs in `s` starting at index `i`. */
  predicate OccursAt(s: string, pat: string, i: int) {
    0 <= i && i + |pat| <= |s| && s[i..i + |pat|] == pat
  }

  /** A string occurs at the front of itself followed by anything. */
  lemma OccursFront(m: string, q: string)
    ensures OccursAt(m + q, m, 0)
  {
    assert (m + q)[..|m|] == m;
  }

  /** Prepending `p` moves every occurrence right by `|p|`. */
  lemma OccursShift(p: string, t: string, m: string, i: int)
    requires OccursAt(t, m, i)
    ensures OccursAt(p + t, m, |p| + i)
  {
    assert (p + t)[|p| + i..|p| + i + |m|] == t[i..i + |m|];
  }

  /** The index where `str.find` begins its search: a negative start counts
      from the end of the string and is clamped at zero. */
  function SearchStart(s: string, start: int): (b: nat)
    ensures start >= 0 ==> b == start
    ensures start < 0 ==> b <= |s|
  {
    if start >= 0 then start
    else if start + |s| >= 0 then start + |s|
    else 0
  }

  /** `s.find(pat, start)`: the least index at or after the search start where
      `pat` occurs, or -1 when there is none. */
  function Find(s: string, pat: string, start: int): (r: int)
    ensures r == -1 || (SearchStart(s, start) <= r && OccursAt(s, pat, r))
    ensures r >= 0 ==> forall j :: SearchStart(s, start) <= j < r ==> !OccursAt(s, pat, j)
    ensures r == -1 ==> forall j :: SearchStart(s, start) <= j ==> !OccursAt(s, pat, j)
  {
    FindFrom(s, pat, SearchStart(s, start))
  }

  function FindFrom(s: string, pat: string, i: nat): (r: int)
    ensures r == -1 || (i <= r && OccursAt(s, pat, r))
    ensures r >= 0 ==> forall j :: i <= j < r ==> !OccursAt(s, pat, j)
    ensures r == -1 ==> forall j :: i <= j ==> !OccursAt(s, pat, j)
    decreases |s| - i
  {
    if i + |pat| > |s| then -1
    else if s[i..i + |pat|] == pat then i
    else FindFrom(s, pat, i + 1)
  }

  /** `pat in s`. */
  predicate Contains(s: string, pat: string) {
    Find(s, pat, 0) >= 0
  }

  /** `s.replace(pat, rep)` for a non-empty `pat`: scanning left to right,
      each occurrence of `pat` is replaced by `rep` and the scan resumes after
      it, so occurrences are taken leftmost first and never overlap. */
  function ReplaceAll(s: string, pat: string, rep: string): (r: string)
    requires pat != []
    decreases |s|
  {
    if |s| < |pat| then s
    else if s[..|pat|] == pat then rep + ReplaceAll(s[|pat|..], pat, rep)
    else [s[0]] + ReplaceAll(s[1..], pat, rep)
  }

  /** Replacing a pattern by itself gives back the original string. */
  lemma {:induction false} ReplaceAllSelf(s: string, pat: string)
    requires pat != []
    ensures ReplaceAll(s, pat, pat) == s
    decreases |s|
  {
    if |s| >= |pat| {
      if s[..|pat|] == pat {
        ReplaceAllSelf(s[|pat|..], pat);
        assert s == s[..|pat|] + s[|pat|..];
      } else {
        ReplaceAllSelf(s[1..], pat);
        assert s == [s[0]] + s[1..];
      }
    }
  }

  /** A string in which `pat` occurs nowhere is left unchanged. */
  lemma {:induction false} ReplaceAllNoOccurrence(s: string, pat: string, rep: string)
    requires pat != []
    requires forall j :: 0 <= j ==> !OccursAt(s, pat, j)
    ensures ReplaceAll(s, pat, rep) == s
    decreases |s|
  {
    if |s| >= |pat| {
      assert !OccursAt(s, pat, 0);
      forall j | 0 <= j
        ensures !OccursAt(s[1..], pat, j)
      {
        assert !OccursAt(s, pat, j + 1);
        if j + |pat| <= |s| - 1 {
          assert s[1..][j..j + |pat|] == s[j + 1..j + 1 + |pat|];
        }
      }
      ReplaceAllNoOccurrence(s[1..], pat, rep);
      assert s == [s[0]] + s[1..];
    }
  }

  /** A string without the pattern (`pat not in s`) is left unchanged. */
  lemma ReplaceAllAbsent(s: string, pat: string, rep: string)
    requires pat != []
    requires !Contains(s, pat)
    ensures ReplaceAll(s, pat, rep) == s
  {
    ReplaceAllNoOccurrence(s, pat, rep);
  }

  /** A string that starts with the pattern has that occurrence replaced and
      the rest processed on its own. */
  lemma ReplaceAllHead(q: string, pat: string, rep: string)
    requires pat != []
    ensures ReplaceAll(pat + q, pat, rep) == rep + ReplaceAll(q, pat, rep)
  {
    var s := pat + q;
    assert s[..|pat|] == pat;
    assert s[|pat|..] == q;
  }

  /** A first character at which `pat` does not begin passes through
      replacement untouched. */
  lemma ReplaceAllStep(c: char, q: string, pat: string, rep: string)
    requires pat != []
    requires !OccursAt([c] + q, pat, 0)
    ensures ReplaceAll([c] + q, pat, rep) == [c] + ReplaceAll(q, pat, rep)
  {
    var s := [c] + q;
    assert s[1..] == q;
  }

  /** A prefix holding no character that could begin `pat` passes through
      replacement untouched. */
  lemma {:induction false} ReplaceAllSkip(p: string, q: string, pat: string, rep: string)
    requires pat != []
    requires pat[0] !in p
    ensures ReplaceAll(p + q, pat, rep) == p + ReplaceAll(q, pat, rep)
    decreases |p|
  {
    if |p| > 0 {
      var rest := p[1..] + q;
      assert p + q == [p[0]] + rest;
      assert !OccursAt([p[0]] + rest, pat, 0) by {
        if |pat| <= |p + q| {
          assert (p + q)[..|pat|][0] == p[0];
        }
      }
      ReplaceAllStep(p[0], rest, pat, rep);
      assert pat[0] !in p[1..];
      ReplaceAllSkip(p[1..], q, pat, rep);
      calc {
        ReplaceAll(p + q, pat, rep);
        [p[0]] + ReplaceAll(rest, pat, rep);
        [p[0]] + (p[1..] + ReplaceAll(q, pat, rep));
        { assert p == [p[0]] + p[1..]; }
        p + ReplaceAll(q, pat, rep);
      }
    } else {
      assert p + q == q;
    }
  }

  /** The characters before index `i`, at none of which `pat` begins, pass
      through replacement untouched. */
  lemma {:induction false} ReplaceAllPastPrefix(s: string, i: nat, pat: string, rep: string)
    requires pat != []
    requires i <= |s|
    requires forall j :: 0 <= j < i ==> !OccursAt(s, pat, j)
    ensures ReplaceAll(s, pat, rep) == s[..i] + ReplaceAll(s[i..], pat, rep)
    decreases i
  {
    if i > 0 {
      var t, x := s[1..], ReplaceAll(s[i..], pat, rep);
      assert ReplaceAll(s, pat, rep) == [s[0]] + ReplaceAll(t, pat, rep) by {
        assert !OccursAt(s, pat, 0);
        assert s == [s[0]] + t;
        ReplaceAllStep(s[0], t, pat, rep);
      }
      assert ReplaceAll(t, pat, rep) == t[..i - 1] + x by {
        ShiftNoOccurrence(s, i, pat);
        ReplaceAllPastPrefix(t, i - 1, pat, rep);
        assert t[i - 1..] == s[i..];
      }
      ConsSlice(s, i, x);
    } else {
      assert s[i..] == s;
    }
  }

  lemma ConsSlice(s: string, i: nat, x: string)
    requires 0 < i <= |s|
    ensures [s[0]] + (s[1..][..i - 1] + x) == s[..i] + x
  {
    assert s[..i] == [s[0]] + s[1..][..i - 1];
  }

  lemma ShiftNoOccurrence(s: string, i: nat, pat: string)
    requires 0 < i <= |s|
    requires forall j :: 0 <= j < i ==> !OccursAt(s, pat, j)
    ensures forall j :: 0 <= j < i - 1 ==> !OccursAt(s[1..], pat, j)
  {
    var t := s[1..];
    forall j | 0 <= j < i - 1
      ensures !OccursAt(t, pat, j)
    {
      assert !OccursAt(s, pat, j + 1);
      if j + |pat| <= |t| {
        assert t[j..j + |pat|] == s[j + 1..j + 1 + |pat|];
      }
    }
  }

  /** Replacement agrees with `str.find`: the text before the first occurrence
      is kept, that occurrence becomes `rep`, and the rest is processed on its
      own. */
  lemma ReplaceAllFirst(s: string, pat: string, rep: string)
    requires pat != []
    requires Find(s, pat, 0) >= 0
    ensures var i := Find(s, pat, 0);
      ReplaceAll(s, pat, rep) == s[..i] + rep + ReplaceAll(s[i + |pat|..], pat, rep)
  {
    var i := Find(s, pat, 0);
    var t := s[i + |pat|..];
    assert ReplaceAll(s, pat, rep) == s[..i] + ReplaceAll(s[i..], pat, rep) by {
      ReplaceAllPastPrefix(s, i, pat, rep);
    }
    assert ReplaceAll(s[i..], pat, rep) == rep + ReplaceAll(t, pat, rep) by {
      assert s[i..] == pat + t;
      ReplaceAllHead(t, pat, rep);
    }
  }

  /** Index of the first `c` in `s`, or -1 when `s` has none. */
  function FirstIndex(s: string, c: char): (r: int)
    ensures -1 <= r < |s|
    ensures r == -1 <==> c !in s
    ensures r >= 0 ==> r < |s| && s[r] == c && c !in s[..r]
  {
    if |s| == 0 then -1
    else if s[0] == c then 0
    else
      var k := FirstIndex(s[1..], c);
      assert k >= 0 ==> s[..k + 1] == [s[0]] + s[1..][..k];
      if k < 0 then -1 else k + 1
  }

  /** Index of the last `c` in `s`, or -1 when `s` has none. */
  function LastIndex(s: string, c: char): (r: int)
    ensures -1 <= r < |s|
    ensures r == -1 <==> c !in s
    ensures r >= 0 ==> r < |s| && s[r] == c && c !in s[r + 1..]
  {
    if |s| == 0 then -1
    else if s[|s| - 1] == c then |s| - 1
    else
      var k := LastIndex(s[..|s| - 1], c);
      assert k >= 0 ==> s[k + 1..] == s[..|s| - 1][k + 1..] + [s[|s| - 1]];
      k
  }
}
