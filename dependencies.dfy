/**
 * `detect_dependencies` (testgenerator.py lines 123-195): the service's answer must be a bracketed
 * list of service names. The source evaluates the answer as a Python expression; this model reads
 * it with a strict grammar instead:
 *
 *   list  ::= '[' blank* ( ']' | token blank* ( ',' blank* token blank* )* ']' )
 *   token ::= '"' char* '"' | '\'' char* '\''      (char: no quote, backslash, line break or NUL)
 */
module Dependencies {
  import opened Outcomes
  import opened Text
  import opened Fences

  /** The six service names the demo generator knows (main.py, `SupportedService`). */
  const Vocabulary: set<string> := {"postgresql", "mysql", "mongodb", "kafka", "redis", "elasticsearch"}

  /** Whitespace allowed between the tokens of a bracketed list. */
  predicate IsBlank(c: char) {
    c == ' ' || c == '\t' || c == '\n' || c == '\r' || c == '\U{C}'
  }

  predicate IsQuote(c: char) {
    c == '"' || c == '\''
  }

  predicate IsTokenChar(c: char) {
    !IsQuote(c) && c != '\\' && c != '\n' && c != '\r' && c != '\0'
  }

  /** A name the strict grammar can carry between quotes. */
  predicate ValidToken(t: string) {
    forall k :: 0 <= k < |t| ==> IsTokenChar(t[k])
  }

  function SkipBlanks(s: string): (r: string)
    ensures |r| <= |s| && r == s[|s| - |r|..]
    ensures r == [] || !IsBlank(r[0])
    decreases |s|
  {
    if s != [] && IsBlank(s[0]) then SkipBlanks(s[1..]) else s
  }

  /** The characters of a token up to its closing quote `q`, and what follows that quote. */
  function TokenBody(s: string, q: char): (r: Option<(string, string)>)
    requires IsQuote(q)
    ensures r.Some? ==> ValidToken(r.value.0) && s == r.value.0 + [q] + r.value.1
    decreases |s|
  {
    if s == [] then None
    else if s[0] == q then
      assert s == [] + [q] + s[1..];
      Some(([], s[1..]))
    else if !IsTokenChar(s[0]) then None
    else
      match TokenBody(s[1..], q)
      case None => None
      case Some((body, rest)) =>
        assert s == ([s[0]] + body) + [q] + rest;
        Some(([s[0]] + body, rest))
  }

  /** The elements of a non-empty list, from its first token to the closing bracket. */
  function Elements(s: string): (r: Option<seq<string>>)
    ensures r.Some? ==> r.value != [] && s != [] && s[|s| - 1] == ']'
    ensures r.Some? ==> forall t :: t in r.value ==> ValidToken(t)
    decreases |s|, 1
  {
    if s == [] || !IsQuote(s[0]) then None
    else
      match TokenBody(s[1..], s[0])
      case None => None
      case Some((token, rest)) =>
        var after := SkipBlanks(rest);
        match AfterToken(after)
        case None => None
        case Some(more) =>
          ClosedByRest(s, token, rest, after);
          Some([token] + more)
  }

  /** A list body ends where the text after its first token ends. */
  lemma ClosedByRest(s: string, token: string, rest: string, after: string)
    requires s != [] && s[1..] == token + [s[0]] + rest
    requires |after| <= |rest| && after == rest[|rest| - |after|..]
    requires after != [] && after[|after| - 1] == ']'
    ensures s[|s| - 1] == ']'
  {
    assert rest[|rest| - 1] == ']';
    assert s[|s| - 1] == s[1..][|s| - 2];
  }

  /** What may follow a token and its blanks: the closing bracket, or a comma and more elements. */
  function AfterToken(after: string): (r: Option<seq<string>>)
    ensures r.Some? ==> after != [] && after[|after| - 1] == ']'
    ensures r.Some? ==> forall t :: t in r.value ==> ValidToken(t)
    decreases |after|, 0
  {
    if after == [] then None
    else if after[0] == ']' then (if |after| == 1 then Some([]) else None)
    else if after[0] == ',' then Elements(SkipBlanks(after[1..]))
    else None
  }

  /** The strict reading of a bracketed list of quoted names; `None` for anything else. */
  function Parse(s: string): (r: Option<seq<string>>)
    ensures r.Some? ==> |s| >= 2 && s[0] == '[' && s[|s| - 1] == ']'
    ensures r.Some? ==> forall t :: t in r.value ==> ValidToken(t)
  {
    if s == [] || s[0] != '[' then None
    else
      var inner := SkipBlanks(s[1..]);
      if inner != [] && inner[0] == ']' then
        if |inner| == 1 then Some([]) else None
      else
        match Elements(inner)
        case None => None
        case Some(names) =>
          assert s[|s| - 1] == inner[|inner| - 1];
          Some(names)
  }

  /**
   * The dependency list for one file, given the service's answer. Never raises: a failed call,
   * an answer that is not bracketed and an answer that does not parse all give [].
   */
  function DetectDependencies(reply: Reply): (deps: seq<string>)
    ensures forall t :: t in deps ==> ValidToken(t)
    ensures reply.Failure? ==> deps == []
  {
    match reply
    case Failure => []
    case Answer(text) =>
      var content := CleanReply(text, PythonTag);
      if !(StartsWith(content, "[") && EndsWith(content, "]")) then []
      else match Parse(content)
        case None => []
        case Some(names) => names
  }

  /** The canonical way to write a list: `["a", "b"]`. */
  function Quote(t: string): string {
    "\"" + t + "\""
  }

  function Join(names: seq<string>): string {
    if names == [] then ""
    else if |names| == 1 then Quote(names[0])
    else Quote(names[0]) + ", " + Join(names[1..])
  }

  function Format(names: seq<string>): string {
    "[" + Join(names) + "]"
  }

  lemma {:induction false} TokenBodyQuoted(t: string, rest: string)
    requires ValidToken(t)
    ensures TokenBody(t + "\"" + rest, '"') == Some((t, rest))
    decreases |t|
  {
    var s := t + "\"" + rest;
    if t == [] {
      assert s == "\"" + rest;
      assert s[1..] == rest;
    } else {
      assert s[0] == t[0];
      assert s[1..] == t[1..] + "\"" + rest;
      TokenBodyQuoted(t[1..], rest);
      assert [t[0]] + t[1..] == t;
    }
  }

  lemma SkipNothing(s: string)
    requires s != [] && !IsBlank(s[0])
    ensures SkipBlanks(s) == s
  {
  }

  lemma ElementsOfOne(t: string)
    requires ValidToken(t)
    ensures Elements(Quote(t) + "]") == Some([t])
  {
    SkipNothing("]");
    ElementsOfQuoted(t, "]", []);
    assert [t] + [] == [t];
  }

  /** One step of the reader: a token, then what follows it. */
  lemma ElementsStep(s: string, t: string, rest: string, after: string, more: seq<string>)
    requires s != [] && s[0] == '"' && TokenBody(s[1..], '"') == Some((t, rest))
    requires SkipBlanks(rest) == after && AfterToken(after) == Some(more)
    ensures Elements(s) == Some([t] + more)
  {
  }

  /** A quoted token followed by text that reads as the remaining elements. */
  lemma ElementsOfQuoted(t: string, rest: string, more: seq<string>)
    requires ValidToken(t)
    requires SkipBlanks(rest) == rest && AfterToken(rest) == Some(more)
    ensures Elements(Quote(t) + rest) == Some([t] + more)
  {
    QuotedToken(t, rest);
    ElementsStep(Quote(t) + rest, t, rest, rest, more);
  }

  /** A comma, blanks, then the remaining elements. */
  lemma CommaStep(rest: string, next: string, more: seq<string>)
    requires rest != [] && rest[0] == ','
    requires SkipBlanks(rest[1..]) == next && Elements(next) == Some(more)
    ensures AfterToken(rest) == Some(more)
  {
  }

  /** Reading a quoted token gives the token back, and the text after its closing quote. */
  lemma QuotedToken(t: string, rest: string)
    requires ValidToken(t)
    ensures (Quote(t) + rest)[0] == '"'
    ensures TokenBody((Quote(t) + rest)[1..], '"') == Some((t, rest))
  {
    assert (Quote(t) + rest)[1..] == t + "\"" + rest;
    TokenBodyQuoted(t, rest);
  }

  /** The separator ", " before the next quoted token. */
  lemma Separated(next: string)
    requires next != [] && next[0] == '"'
    ensures var rest := ", " + next;
      rest != [] && rest[0] == ',' && SkipBlanks(rest) == rest && SkipBlanks(rest[1..]) == next
  {
    CommaHead(next);
    BlankHead(next);
    SkipNothing(", " + next);
  }

  lemma ElementsOfMore(t: string, next: string, more: seq<string>)
    requires ValidToken(t) && next != [] && next[0] == '"'
    requires Elements(next) == Some(more)
    ensures Elements(Quote(t) + (", " + next)) == Some([t] + more)
  {
    var rest := ", " + next;
    Separated(next);
    CommaStep(rest, next, more);
    ElementsOfQuoted(t, rest, more);
  }

  lemma CommaHead(next: string)
    ensures var rest := ", " + next;
      rest != [] && rest[0] == ',' && rest[1..] == " " + next
  {
  }

  lemma BlankHead(next: string)
    requires next != [] && next[0] == '"'
    ensures SkipBlanks(" " + next) == next
  {
    assert (" " + next)[1..] == next;
    SkipNothing(next);
  }

  lemma JoinShape(names: seq<string>)
    requires |names| > 1
    ensures Join(names) + "]" == Quote(names[0]) + (", " + (Join(names[1..]) + "]"))
  {
    Regroup(Quote(names[0]), ", ", Join(names[1..]), "]");
  }

  lemma JoinStartsQuote(names: seq<string>)
    requires names != []
    ensures Join(names) != [] && Join(names)[0] == '"'
  {
    var q := Quote(names[0]);
    assert q[0] == '"';
    if |names| > 1 {
      assert Join(names) == q + (", " + Join(names[1..]));
    }
  }

  lemma {:induction false} ElementsOfJoin(names: seq<string>)
    requires names != []
    requires forall t :: t in names ==> ValidToken(t)
    ensures Elements(Join(names) + "]") == Some(names)
    decreases |names|
  {
    if |names| == 1 {
      ElementsOfOne(names[0]);
      assert [names[0]] == names;
    } else {
      ElementsOfJoin(names[1..]);
      ElementsOfJoinStep(names);
    }
  }

  lemma ElementsOfJoinStep(names: seq<string>)
    requires |names| > 1 && ValidToken(names[0])
    requires Elements(Join(names[1..]) + "]") == Some(names[1..])
    ensures Elements(Join(names) + "]") == Some(names)
  {
    var tail := names[1..];
    NextShape(names);
    ElementsOfMore(names[0], Join(tail) + "]", tail);
    HeadTail(names);
  }

  /** A written list of two or more names: the first quoted name, ", ", then the rest. */
  lemma NextShape(names: seq<string>)
    requires |names| > 1
    ensures var next := Join(names[1..]) + "]";
      && Join(names) + "]" == Quote(names[0]) + (", " + next)
      && next != [] && next[0] == '"'
  {
    JoinShape(names);
    JoinStartsQuote(names[1..]);
  }

  lemma HeadTail(names: seq<string>)
    requires names != []
    ensures [names[0]] + names[1..] == names
  {
  }

  /** The strict reader accepts every canonically written list and gives back its names. */
  lemma ParseFormat(names: seq<string>)
    requires forall t :: t in names ==> ValidToken(t)
    ensures Parse(Format(names)) == Some(names)
  {
    if names == [] {
      ParseEmptyList();
    } else {
      BodyStartsQuote(names);
      ElementsOfJoin(names);
      ParseOfBody(Format(names), Join(names) + "]", names);
    }
  }

  lemma ParseEmptyList()
    ensures Parse(Format([])) == Some([])
  {
    var s := Format([]);
    assert s == ['[', ']'];
    assert s[1..] == [']'];
    SkipNothing(s[1..]);
  }

  lemma BodyStartsQuote(names: seq<string>)
    requires names != []
    ensures var body := Join(names) + "]";
      body != [] && body[0] == '"' && SkipBlanks(body) == body
  {
    JoinStartsQuote(names);
    SkipNothing(Join(names) + "]");
  }

  /** A non-empty list is read as what its body, after the opening bracket, reads as. */
  lemma ParseOfBody(s: string, body: string, names: seq<string>)
    requires s == "[" + body && SkipBlanks(body) == body
    requires body != [] && body[0] == '"' && Elements(body) == Some(names)
    ensures Parse(s) == Some(names)
  {
    assert s[1..] == body;
  }

  /** An answer that cleans to a canonically written list is read as that list. */
  lemma DetectCleaned(text: string, names: seq<string>)
    requires forall t :: t in names ==> ValidToken(t)
    requires CleanReply(text, PythonTag) == Format(names)
    ensures DetectDependencies(Answer(text)) == names
  {
    ParseFormat(names);
    GuardImpliedByParse(Format(names));
  }

  lemma FormatNoTicks(names: seq<string>)
    requires forall t :: t in names ==> '`' !in t
    ensures NoTicks(Format(names))
  {
    var s := Format(names);
    JoinNoTicks(names);
    forall k | 0 <= k < |s| ensures s[k] != '`' {
      if 0 < k < |s| - 1 {
        assert s[k] == Join(names)[k - 1];
      }
    }
  }

  /** A list written out without backticks comes back whole from `detect_dependencies`. */
  lemma DetectFormatted(names: seq<string>)
    requires forall t :: t in names ==> ValidToken(t) && '`' !in t
    ensures DetectDependencies(Answer(Format(names))) == names
  {
    var s := Format(names);
    FormatNoTicks(names);
    StripExact([], s, []);
    assert [] + s + [] == s;
    NoTicksLacks(s, Fence + PythonTag);
    ReplaceAllAbsent(s, Fence + PythonTag, "");
    NoTicksLacks(s, Fence);
    ReplaceAllAbsent(s, Fence, "");
    DetectCleaned(s, names);
  }

  /** A list wrapped in a ```python fence, as the service usually answers, comes back whole too. */
  lemma DetectFenced(names: seq<string>, w1: string, w2: string)
    requires forall t :: t in names ==> ValidToken(t) && '`' !in t
    requires AllSpace(w1) && AllSpace(w2)
    ensures DetectDependencies(Answer(Fence + PythonTag + w1 + Format(names) + w2 + Fence)) == names
  {
    var s := Format(names);
    FormatNoTicks(names);
    assert '`' !in s by {
      assert forall k :: 0 <= k < |s| ==> s[k] != '`';
    }
    CleanFenced(PythonTag, w1, s, w2);
    DetectCleaned(Fence + PythonTag + w1 + s + w2 + Fence, names);
  }

  lemma NoTicksLacks(s: string, pat: string)
    requires NoTicks(s) && pat != [] && pat[0] == '`'
    ensures !Contains(s, pat)
  {
    AbsentChar(s, pat, 0);
  }

  lemma {:induction false} JoinNoTicks(names: seq<string>)
    requires forall t :: t in names ==> '`' !in t
    ensures NoTicks(Join(names))
    decreases |names|
  {
    if names != [] {
      var q := Quote(names[0]);
      assert NoTicks(q) by {
        forall k | 0 <= k < |q| ensures q[k] != '`' {
          if 0 < k < |q| - 1 {
            assert q[k] == names[0][k - 1];
            assert names[0][k - 1] in names[0];
          }
        }
      }
      if |names| > 1 {
        JoinNoTicks(names[1..]);
        var j := Join(names);
        var tail := Join(names[1..]);
        assert j == q + ", " + tail;
        forall k | 0 <= k < |j| ensures j[k] != '`' {
          if k >= |q| + 2 {
            assert j[k] == tail[k - |q| - 2];
          } else if k < |q| {
            assert j[k] == q[k];
          }
        }
      }
    }
  }

  /** What `detect_dependencies` returns is always a list the strict reader accepted. */
  lemma DetectedWasParsed(reply: Reply)
    requires DetectDependencies(reply) != []
    ensures reply.Answer?
    ensures Parse(CleanReply(reply.text, PythonTag)) == Some(DetectDependencies(reply))
  {
  }

  /** Whatever list the strict reader accepts from the cleaned answer, in any spelling, is returned. */
  lemma DetectIsParse(text: string, names: seq<string>)
    requires Parse(CleanReply(text, PythonTag)) == Some(names)
    ensures DetectDependencies(Answer(text)) == names
  {
    GuardImpliedByParse(CleanReply(text, PythonTag));
  }

  /** A cleaned answer the strict reader rejects gives no dependencies. */
  lemma DetectRejectsUnparsed(text: string)
    requires Parse(CleanReply(text, PythonTag)).None?
    ensures DetectDependencies(Answer(text)) == []
  {
  }

  /** A NUL inside a quoted name makes the answer unreadable, as it makes `eval` raise. */
  lemma NulRejected(text: string)
    requires text == "[\"\0\"]"
    ensures Parse(text).None?
  {
    SkipNothing(text[1..]);
    assert text[1..][1..][0] == '\0';
  }

  /** The bracket guard never rejects what the strict reader accepts. */
  lemma GuardImpliedByParse(s: string)
    requires Parse(s).Some?
    ensures StartsWith(s, "[") && EndsWith(s, "]")
  {
    BracketsShape(s);
  }

  lemma BracketsShape(s: string)
    requires |s| >= 2 && s[0] == '[' && s[|s| - 1] == ']'
    ensures StartsWith(s, "[") && EndsWith(s, "]")
  {
    assert s[..1] == "[";
    assert s[|s| - 1..] == "]";
  }
}
