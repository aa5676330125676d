/**
 * The Python `str` operations the generator relies on, with Python's meaning:
 * `isspace`, the substring test `pat in s`, `replace`, `strip` and `rindex`.
 */
module Text {
  import opened Outcomes

  /** `c.isspace()`; the `re` class `\s` matches the same characters in a str pattern. */
  predicate IsSpace(c: char) {
    || ('\U{9}' <= c <= '\U{D}')
    || ('\U{1C}' <= c <= '\U{20}')
    || c == '\U{85}' || c == '\U{A0}' || c == '\U{1680}'
    || ('\U{2000}' <= c <= '\U{200A}')
    || c == '\U{2028}' || c == '\U{2029}' || c == '\U{202F}' || c == '\U{205F}' || c == '\U{3000}'
  }

  predicate AllSpace(s: string) {
    forall k :: 0 <= k < |s| ==> IsSpace(s[k])
  }

  /** `pat` occurs in `s` starting at index `i`. */
  predicate OccursAt(s: string, pat: string, i: int) {
    0 <= i && i + |pat| <= |s| && s[i..i + |pat|] == pat
  }

  /** Python's `pat in s`. */
  predicate Contains(s: string, pat: string) {
    exists i :: 0 <= i <= |s| - |pat| && OccursAt(s, pat, i)
  }

  predicate StartsWith(s: string, prefix: string) {
    OccursAt(s, prefix, 0)
  }

  predicate EndsWith(s: string, suffix: string) {
    OccursAt(s, suffix, |s| - |suffix|)
  }

  /** `s.replace(pat, rep)`: a left-to-right scan that replaces every non-overlapping occurrence. */
  function ReplaceAll(s: string, pat: string, rep: string): string
    requires pat != []
    decreases |s|
  {
    if |s| < |pat| then s
    else if OccursAt(s, pat, 0) then rep + ReplaceAll(s[|pat|..], pat, rep)
    else [s[0]] + ReplaceAll(s[1..], pat, rep)
  }

  /** `s.lstrip()`: the suffix left after dropping every leading whitespace character. */
  function LStrip(s: string): (r: string)
    ensures |r| <= |s| && r == s[|s| - |r|..]
    ensures AllSpace(s[..|s| - |r|])
    ensures r == [] || !IsSpace(r[0])
    decreases |s|
  {
    if s != [] && IsSpace(s[0]) then LStrip(s[1..]) else s
  }

  /** `s.rstrip()`: the prefix left after dropping every trailing whitespace character. */
  function RStrip(s: string): (r: string)
    ensures |r| <= |s| && r == s[..|r|]
    ensures AllSpace(s[|r|..])
    ensures r == [] || !IsSpace(r[|r| - 1])
    decreases |s|
  {
    if s != [] && IsSpace(s[|s| - 1]) then
      var r := RStrip(s[..|s| - 1]);
      assert s[|r|..] == s[..|s| - 1][|r|..] + [s[|s| - 1]];
      r
    else s
  }

  /** `s.strip()`: a piece of `s` with no whitespace at either end. */
  function Strip(s: string): (r: string)
    ensures Contains(s, r)
    ensures r == [] || (!IsSpace(r[0]) && !IsSpace(r[|r| - 1]))
  {
    var l := LStrip(s);
    var r := RStrip(l);
    PrefixOfSuffix(s, l, r);
    r
  }

  /** A prefix of a suffix of `s` occurs in `s`. */
  lemma PrefixOfSuffix(s: string, l: string, r: string)
    requires |l| <= |s| && l == s[|s| - |l|..]
    requires |r| <= |l| && r == l[..|r|]
    ensures Contains(s, r)
  {
    var i := |s| - |l|;
    assert s[i..i + |r|] == s[i..][..|r|];
    assert OccursAt(s, r, i);
  }

  ghost predicate IsLastOccurrence(s: string, pat: string, i: int) {
    OccursAt(s, pat, i) && forall j :: i < j <= |s| ==> !OccursAt(s, pat, j)
  }

  function LastIndexBelow(s: string, pat: string, k: nat): (r: Option<nat>)
    requires k <= |s|
    ensures r.Some? ==> r.value <= k && OccursAt(s, pat, r.value)
    ensures r.Some? ==> forall j :: r.value < j <= k ==> !OccursAt(s, pat, j)
    ensures r.None? ==> forall j :: 0 <= j <= k ==> !OccursAt(s, pat, j)
    decreases k
  {
    if OccursAt(s, pat, k) then Some(k)
    else if k == 0 then None
    else LastIndexBelow(s, pat, k - 1)
  }

  /** `s.rindex(pat)`, with `None` where Python raises `ValueError`. */
  function LastIndexOf(s: string, pat: string): (r: Option<nat>)
    ensures r.Some? ==> IsLastOccurrence(s, pat, r.value)
    ensures r.None? <==> !Contains(s, pat)
  {
    LastIndexBelow(s, pat, |s|)
  }

  lemma OccursAtShift(c: char, s: string, pat: string, i: int)
    requires OccursAt(s, pat, i)
    ensures OccursAt([c] + s, pat, i + 1)
  {
    assert ([c] + s)[i + 1..i + 1 + |pat|] == s[i..i + |pat|];
  }

  /** Replacing a pattern that does not occur changes nothing. */
  lemma {:induction false} ReplaceAllAbsent(s: string, pat: string, rep: string)
    requires pat != [] && !Contains(s, pat)
    ensures ReplaceAll(s, pat, rep) == s
    decreases |s|
  {
    if |s| >= |pat| {
      assert !OccursAt(s, pat, 0);
      assert [s[0]] + s[1..] == s;
      forall i | 0 <= i <= |s[1..]| - |pat| ensures !OccursAt(s[1..], pat, i) {
        if OccursAt(s[1..], pat, i) {
          OccursAtShift(s[0], s[1..], pat, i);
          assert false;
        }
      }
      ReplaceAllAbsent(s[1..], pat, rep);
    }
  }

  /** A prefix holding no character that starts the pattern passes through `replace` unchanged. */
  lemma {:induction false} ReplaceAllSkip(a: string, b: string, pat: string, rep: string)
    requires pat != []
    requires forall k :: 0 <= k < |a| ==> a[k] != pat[0]
    ensures ReplaceAll(a + b, pat, rep) == a + ReplaceAll(b, pat, rep)
    decreases |a|
  {
    if a != [] {
      var s := a + b;
      if |s| < |pat| {
        assert ReplaceAll(b, pat, rep) == b;
      } else {
        assert s[0] == a[0];
        assert !OccursAt(s, pat, 0);
        assert ReplaceAll(s, pat, rep) == [s[0]] + ReplaceAll(s[1..], pat, rep);
        assert s[1..] == a[1..] + b;
        ReplaceAllSkip(a[1..], b, pat, rep);
        calc {
          ReplaceAll(s, pat, rep);
          [a[0]] + (a[1..] + ReplaceAll(b, pat, rep));
          ([a[0]] + a[1..]) + ReplaceAll(b, pat, rep);
          { assert [a[0]] + a[1..] == a; }
          a + ReplaceAll(b, pat, rep);
        }
      }
    } else {
      assert a + b == b;
    }
  }

  /** An occurrence at the front is replaced, and the scan resumes right after it. */
  lemma ReplaceAllHead(pat: string, b: string, rep: string)
    requires pat != []
    ensures ReplaceAll(pat + b, pat, rep) == rep + ReplaceAll(b, pat, rep)
  {
    var s := pat + b;
    assert s[0..|pat|] == pat;
    assert s[|pat|..] == b;
  }

  /** A text ending in `suf` still ends in `suf` with anything put in front. */
  lemma EndsWithAppend(x: string, y: string, suf: string)
    requires EndsWith(y, suf)
    ensures EndsWith(x + y, suf)
  {
    assert (x + y)[|x + y| - |suf|..] == y[|y| - |suf|..];
  }

  /** Two occurrences of a pattern whose first character occurs nowhere else in it never overlap. */
  lemma NoOverlap(s: string, pat: string, i: int, j: int)
    requires pat != [] && pat[0] !in pat[1..]
    requires OccursAt(s, pat, i) && OccursAt(s, pat, j) && i < j
    ensures i + |pat| <= j
  {
    if j < i + |pat| {
      assert false;
    }
  }

  /**
   * Occurrences of such a pattern do not overlap, so a text that ends with the pattern ends with
   * the replacement after `replace`.
   */
  lemma {:induction false} ReplaceAllKeepsSuffix(s: string, pat: string, rep: string)
    requires pat != [] && pat[0] !in pat[1..]
    requires EndsWith(s, pat)
    ensures EndsWith(ReplaceAll(s, pat, rep), rep)
    decreases |s|
  {
    var e := |s| - |pat|;
    if OccursAt(s, pat, 0) {
      var t := s[|pat|..];
      assert ReplaceAll(s, pat, rep) == rep + ReplaceAll(t, pat, rep);
      if e == 0 {
        assert ReplaceAll(t, pat, rep) == [];
        assert rep + [] == rep;
      } else {
        NoOverlap(s, pat, 0, e);
        assert t[|t| - |pat|..] == s[e..];
        ReplaceAllKeepsSuffix(t, pat, rep);
        EndsWithAppend(rep, ReplaceAll(t, pat, rep), rep);
      }
    } else {
      assert e != 0;
      var t := s[1..];
      assert t[|t| - |pat|..] == s[e..];
      ReplaceAllKeepsSuffix(t, pat, rep);
      EndsWithAppend([s[0]], ReplaceAll(t, pat, rep), rep);
    }
  }

  /** A pattern found in a slice of `s` is found in `s`. */
  lemma ContainsWithin(s: string, a: int, b: int, pat: string)
    requires 0 <= a <= b <= |s| && Contains(s[a..b], pat)
    ensures Contains(s, pat)
  {
    var t := s[a..b];
    var i :| 0 <= i <= |t| - |pat| && OccursAt(t, pat, i);
    assert s[a + i..a + i + |pat|] == pat by {
      forall k | 0 <= k < |pat| ensures s[a + i..a + i + |pat|][k] == pat[k] {
        assert pat[k] == t[i..i + |pat|][k] == t[i + k] == s[a + i + k];
      }
    }
    assert OccursAt(s, pat, a + i);
  }

  /** Contains is transitive: a piece of a piece of `s` is a piece of `s`. */
  lemma ContainsTrans(s: string, t: string, pat: string)
    requires Contains(s, t) && Contains(t, pat)
    ensures Contains(s, pat)
  {
    var i :| 0 <= i <= |s| - |t| && OccursAt(s, t, i);
    ContainsWithin(s, i, i + |t|, pat);
  }

  lemma ContainsInfix(x: string, y: string, z: string, pat: string)
    requires Contains(y, pat)
    ensures Contains(x + y + z, pat)
  {
    var s := x + y + z;
    assert s[|x|..|x| + |y|] == y;
    ContainsWithin(s, |x|, |x| + |y|, pat);
  }

  /** Something that contains `p + q` contains `p`. */
  lemma ContainsPatternPrefix(s: string, p: string, q: string)
    requires Contains(s, p + q)
    ensures Contains(s, p)
  {
    var i :| 0 <= i <= |s| - |p + q| && OccursAt(s, p + q, i);
    assert s[i..i + |p|] == s[i..i + |p + q|][..|p|] == (p + q)[..|p|] == p;
    assert OccursAt(s, p, i);
  }

  /** A piece of `s` lacks every pattern that `s` lacks. */
  lemma PieceLacks(s: string, t: string, pat: string)
    requires Contains(s, t) && !Contains(s, pat)
    ensures !Contains(t, pat)
  {
    if Contains(t, pat) {
      ContainsTrans(s, t, pat);
    }
  }

  /** Text that lacks `p` lacks every pattern that starts with `p`. */
  lemma LacksExtension(s: string, p: string, q: string)
    requires !Contains(s, p)
    ensures !Contains(s, p + q)
  {
    if Contains(s, p + q) {
      ContainsPatternPrefix(s, p, q);
    }
  }

  /** A character of the pattern that never appears in `s` rules the pattern out. */
  lemma AbsentChar(s: string, pat: string, k: int)
    requires 0 <= k < |pat| && pat[k] !in s
    ensures !Contains(s, pat)
  {
    forall i | 0 <= i <= |s| - |pat| ensures !OccursAt(s, pat, i) {
      assert s[i..i + |pat|][k] == s[i + k];
      assert s[i + k] in s;
    }
  }

  lemma {:induction false} LStripSpaces(w: string, t: string)
    requires AllSpace(w) && (t == [] || !IsSpace(t[0]))
    ensures LStrip(w + t) == t
    decreases |w|
  {
    if w != [] {
      assert (w + t)[1..] == w[1..] + t;
      LStripSpaces(w[1..], t);
    } else {
      assert w + t == t;
    }
  }

  lemma {:induction false} RStripSpaces(t: string, w: string)
    requires AllSpace(w) && (t == [] || !IsSpace(t[|t| - 1]))
    ensures RStrip(t + w) == t
    decreases |w|
  {
    if w != [] {
      assert (t + w)[..|t + w| - 1] == t + w[..|w| - 1];
      RStripSpaces(t, w[..|w| - 1]);
    } else {
      assert t + w == t;
    }
  }

  /** `strip` removes exactly the surrounding whitespace and nothing of the text between. */
  lemma StripExact(w1: string, m: string, w2: string)
    requires AllSpace(w1) && AllSpace(w2)
    requires m == [] || (!IsSpace(m[0]) && !IsSpace(m[|m| - 1]))
    ensures Strip(w1 + m + w2) == m
  {
    if m == [] {
      assert w1 + m + w2 == (w1 + w2) + [];
      LStripSpaces(w1 + w2, []);
    } else {
      assert w1 + m + w2 == w1 + (m + w2);
      LStripSpaces(w1, m + w2);
      RStripSpaces(m, w2);
    }
  }

  /** Concatenation regrouped to the right. */
  lemma Regroup(a: string, b: string, c: string, d: string)
    ensures a + b + c + d == a + (b + (c + d))
  {
  }
}
