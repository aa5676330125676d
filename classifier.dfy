/**
 * Which source files are worth a test (testgenerator.py lines 45-58): the path and content
 * rules, and the package name found by `re.search(r'package\s+(.*?);', code)`.
 */
module Classifier {
  import opened Outcomes
  import opened Text

  const Keyword := "package"

  datatype Verdict = Skip | Candidate(packageName: string)

  /** A path under a configuration, entity or model layer. */
  predicate ExcludedPath(path: string) {
    Contains(path, "config") || Contains(path, "entity") || Contains(path, "/model/")
  }

  /** Content that declares an entity or a configuration class. */
  predicate ExcludedContent(code: string) {
    Contains(code, "@Entity") || Contains(code, "@Configuration")
  }

  /**
   * One way `package\s+(.*?);` can match: the keyword at `p`, at least one whitespace
   * character up to `r`, then the group code[r..j] holding no line break, then ';' at `j`.
   */
  ghost predicate Matches(code: string, p: int, r: int, j: int) {
    && OccursAt(code, Keyword, p)
    && p + |Keyword| < r <= j < |code|
    && (forall k :: p + |Keyword| <= k < r ==> IsSpace(code[k]))
    && code[j] == ';'
    && (forall k :: r <= k < j ==> code[k] != '\n')
  }

  /** Among the matches at `p`, the one the engine reports: greedy `\s+`, then lazy `.*?`. */
  ghost predicate Preferred(code: string, p: int, r: int, j: int) {
    forall r', j' :: Matches(code, p, r', j') ==> r' < r || (r' == r && j <= j')
  }

  /** The match `re.search` reports: the leftmost start, then the preferred match there. */
  ghost predicate FirstMatch(code: string, p: int, r: int, j: int) {
    && Matches(code, p, r, j)
    && Preferred(code, p, r, j)
    && forall p', r', j' :: 0 <= p' < p ==> !Matches(code, p', r', j')
  }

  datatype Span = Span(start: nat, nameStart: nat, nameEnd: nat)

  /** The end of the run of whitespace that starts at `q`. */
  function SpaceEnd(code: string, q: nat): (e: nat)
    requires q <= |code|
    ensures q <= e <= |code|
    ensures forall k :: q <= k < e ==> IsSpace(code[k])
    ensures e == |code| || !IsSpace(code[e])
    decreases |code| - q
  {
    if q < |code| && IsSpace(code[q]) then SpaceEnd(code, q + 1) else q
  }

  predicate NoBreak(code: string, r: int, j: int)
    requires 0 <= r <= j <= |code|
  {
    forall k :: r <= k < j ==> code[k] != '\n'
  }

  /** The lazy `(.*?);`: the first ';' from `r` on, unless a line break comes first. */
  function NameEnd(code: string, r: nat): (j: Option<nat>)
    requires r <= |code|
    ensures j.Some? ==> r <= j.value < |code| && code[j.value] == ';' && NoBreak(code, r, j.value)
    ensures j.Some? ==> forall k :: r <= k < j.value ==> code[k] != ';'
    ensures j.None? ==> forall e :: r <= e < |code| && code[e] == ';' ==> !NoBreak(code, r, e)
    decreases |code| - r
  {
    if r == |code| || code[r] == '\n' then None
    else if code[r] == ';' then Some(r)
    else NameEnd(code, r + 1)
  }

  /** The match at `p` alone, as the engine finds it after backtracking. */
  function MatchAt(code: string, p: nat): (m: Option<(nat, nat)>)
    ensures m.Some? ==> Matches(code, p, m.value.0, m.value.1) && Preferred(code, p, m.value.0, m.value.1)
    ensures m.None? ==> forall r, j :: !Matches(code, p, r, j)
  {
    var q := p + |Keyword|;
    if !(OccursAt(code, Keyword, p) && q < |code| && IsSpace(code[q])) then
      None
    else
      var r := SpaceEnd(code, q);
      match NameEnd(code, r)
      case None =>
        NoMatchPastSpaces(code, p, r);
        None
      case Some(j) =>
        GreedyIsPreferred(code, p, r, j);
        Some((r, j))
  }

  /** Every match at `p` stops its whitespace at or before the end of the whitespace run. */
  lemma MatchWithinRun(code: string, p: int, r: nat, r': int, j': int)
    requires 0 <= p && p + |Keyword| <= r <= |code|
    requires forall k :: p + |Keyword| <= k < r ==> IsSpace(code[k])
    requires r == |code| || !IsSpace(code[r])
    requires Matches(code, p, r', j')
    ensures r' <= r && r <= j'
  {
  }

  /** Backtracking `\s+` never helps: a match that gives back whitespace would also match greedily. */
  lemma NoMatchPastSpaces(code: string, p: int, r: nat)
    requires 0 <= p && p + |Keyword| < r <= |code|
    requires forall k :: p + |Keyword| <= k < r ==> IsSpace(code[k])
    requires r == |code| || !IsSpace(code[r])
    requires NameEnd(code, r).None?
    ensures forall r', j' :: !Matches(code, p, r', j')
  {
    forall r', j' | Matches(code, p, r', j') ensures false {
      MatchWithinRun(code, p, r, r', j');
      assert NoBreak(code, r, j');
    }
  }

  lemma GreedyIsPreferred(code: string, p: int, r: nat, j: nat)
    requires 0 <= p && p + |Keyword| < r <= |code|
    requires OccursAt(code, Keyword, p)
    requires forall k :: p + |Keyword| <= k < r ==> IsSpace(code[k])
    requires r == |code| || !IsSpace(code[r])
    requires NameEnd(code, r) == Some(j)
    ensures Matches(code, p, r, j) && Preferred(code, p, r, j)
  {
    forall r', j' | Matches(code, p, r', j') ensures r' < r || (r' == r && j <= j') {
      MatchWithinRun(code, p, r, r', j');
    }
  }

  /** The leftmost match starting at `p` or later. */
  function FirstMatchFrom(code: string, p: nat): (m: Option<Span>)
    requires p <= |code|
    ensures m.Some? ==> p <= m.value.start
    ensures m.Some? ==> Matches(code, m.value.start, m.value.nameStart, m.value.nameEnd)
    ensures m.Some? ==> Preferred(code, m.value.start, m.value.nameStart, m.value.nameEnd)
    ensures m.Some? ==> forall p', r', j' :: p <= p' < m.value.start ==> !Matches(code, p', r', j')
    ensures m.None? ==> forall p', r', j' :: p <= p' ==> !Matches(code, p', r', j')
    decreases |code| - p
  {
    match MatchAt(code, p)
    case Some((r, j)) => Some(Span(p, r, j))
    case None =>
      if p == |code| then None else FirstMatchFrom(code, p + 1)
  }

  /** The group of the first match, as `package_match.group(1)`; `None` when nothing matches. */
  function PackageName(code: string): (name: Option<string>)
    ensures name.None? <==> forall p, r, j :: !Matches(code, p, r, j)
    ensures name.Some? ==> exists p, r, j :: FirstMatch(code, p, r, j) && name.value == code[r..j]
  {
    match FirstMatchFrom(code, 0)
    case None => None
    case Some(m) =>
      assert FirstMatch(code, m.start, m.nameStart, m.nameEnd);
      Some(code[m.nameStart..m.nameEnd])
  }

  /** `analyze_code` before any call to the service: skip, or go on with the package name. */
  function Classify(path: string, code: string): (v: Verdict)
  {
    if ExcludedPath(path) then Skip
    else if ExcludedContent(code) then Skip
    else match PackageName(code)
      case None => Skip
      case Some(name) => if name == [] then Skip else Candidate(name)
  }

  /** `re.search` has one answer: the first match is unique. */
  lemma FirstMatchUnique(code: string, p1: int, r1: int, j1: int, p2: int, r2: int, j2: int)
    requires FirstMatch(code, p1, r1, j1) && FirstMatch(code, p2, r2, j2)
    ensures p1 == p2 && r1 == r2 && j1 == j2
  {
  }

  /** The group reported never crosses a line, never holds ';' and never starts with whitespace. */
  lemma PackageNameShape(code: string)
    requires PackageName(code).Some?
    ensures var name := PackageName(code).value;
      && '\n' !in name && ';' !in name
      && (name == [] || !IsSpace(name[0]))
  {
    var p, r, j :| FirstMatch(code, p, r, j) && PackageName(code).value == code[r..j];
    GroupShape(code, p, r, j);
  }

  lemma GroupShape(code: string, p: int, r: int, j: int)
    requires FirstMatch(code, p, r, j)
    ensures var name := code[r..j];
      && '\n' !in name && ';' !in name
      && (name == [] || !IsSpace(name[0]))
  {
    var name := code[r..j];
    forall k | 0 <= k < |name| ensures name[k] != '\n' && name[k] != ';' {
      assert name[k] == code[r + k];
      GroupChar(code, p, r, j, r + k);
    }
    if name != [] {
      assert name[0] == code[r];
      GroupStart(code, p, r, j);
    }
  }

  /** The lazy group stops at the first ';', so it holds none, and it never crosses a line. */
  lemma GroupChar(code: string, p: int, r: int, j: int, k: int)
    requires FirstMatch(code, p, r, j) && r <= k < j
    ensures code[k] != '\n' && code[k] != ';'
  {
    if code[k] == ';' {
      assert Matches(code, p, r, k);
    }
  }

  /** The greedy `\s+` leaves no whitespace at the head of the group. */
  lemma GroupStart(code: string, p: int, r: int, j: int)
    requires FirstMatch(code, p, r, j) && r < j
    ensures !IsSpace(code[r])
  {
    if IsSpace(code[r]) {
      assert Matches(code, p, r + 1, j);
    }
  }

  /**
   * A file is a candidate, with package name `name`, exactly when its path and content are not
   * excluded and the first match of the package pattern has the non-empty group `name`.
   */
  lemma ClassifyCandidate(path: string, code: string, name: string)
    ensures Classify(path, code) == Candidate(name) <==>
      && !ExcludedPath(path)
      && !ExcludedContent(code)
      && name != []
      && exists p, r, j :: FirstMatch(code, p, r, j) && name == code[r..j]
  {
    if exists p, r, j :: FirstMatch(code, p, r, j) && name == code[r..j] {
      var p, r, j :| FirstMatch(code, p, r, j) && name == code[r..j];
      assert PackageName(code).Some?;
      var p2, r2, j2 :| FirstMatch(code, p2, r2, j2) && PackageName(code).value == code[r2..j2];
      FirstMatchUnique(code, p, r, j, p2, r2, j2);
    }
  }

  /** The path rules win: an excluded path is skipped whatever the file holds. */
  lemma ExcludedPathSkips(path: string, code: string)
    requires ExcludedPath(path)
    ensures Classify(path, code) == Skip
  {
  }

  /** A file with no package declaration that the pattern can match is skipped. */
  lemma NoPackageSkips(path: string, code: string)
    requires forall p, r, j :: !Matches(code, p, r, j)
    ensures Classify(path, code) == Skip
  {
  }

  /** `package com.x;` is a candidate in package `com.x`. */
  lemma SimplePackage(code: string)
    requires code == "package com.x;"
    ensures PackageName(code) == Some("com.x")
  {
    SimpleFirstMatch(code);
    var p, r, j :| FirstMatch(code, p, r, j) && PackageName(code).value == code[r..j];
    FirstMatchUnique(code, p, r, j, 0, 8, 13);
    assert code[8..13] == "com.x";
  }

  lemma SimpleFirstMatch(code: string)
    requires code == "package com.x;"
    ensures FirstMatch(code, 0, 8, 13)
  {
    assert code[0..7] == Keyword;
    assert Matches(code, 0, 8, 13);
    forall r', j' | Matches(code, 0, r', j') ensures r' < 8 || (r' == 8 && 13 <= j') {
      assert !IsSpace(code[8]);
      assert forall k :: 8 <= k < 13 ==> code[k] != ';';
    }
  }
}
