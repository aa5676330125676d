/**
 * Cleaning of the text-generation service's answers (testgenerator.py lines 107/121, 153/172,
 * 241/256): strip the answer, drop every tagged fence ("```java", "```python" or "```xml"),
 * drop every remaining "```", strip again.
 */
module Fences {
  import opened Text

  const Fence := "```"
  const JavaTag := "java"
  const PythonTag := "python"
  const XmlTag := "xml"

  /** `s.replace("```", "")`. */
  function RemoveFences(s: string): string {
    ReplaceAll(s, Fence, "")
  }

  /** Three backticks in a row starting at `i`. */
  predicate TicksAt(s: string, i: int) {
    0 <= i && i + 3 <= |s| && s[i] == '`' && s[i + 1] == '`' && s[i + 2] == '`'
  }

  /** The answer as the generator uses it, whose fences are tagged `tag`. */
  function CleanReply(text: string, tag: string): (r: string)
    ensures !Contains(r, Fence)
    ensures r == [] || (!IsSpace(r[0]) && !IsSpace(r[|r| - 1]))
  {
    var unfenced := RemoveFences(ReplaceAll(Strip(text), Fence + tag, ""));
    NoFenceAfterRemoval(ReplaceAll(Strip(text), Fence + tag, ""));
    var r := Strip(unfenced);
    PieceLacks(unfenced, r, Fence);
    r
  }

  lemma FenceIsTicks(s: string, i: int)
    ensures OccursAt(s, Fence, i) <==> TicksAt(s, i)
  {
    if TicksAt(s, i) {
      assert s[i..i + 3] == Fence;
    }
  }

  /**
   * The scan of `replace` leaves no run of three backticks behind: it cuts every run of n
   * backticks down to n % 3 of them, and the characters that separate runs all stay.
   */
  lemma {:induction false} RemoveFencesShape(s: string)
    ensures forall i :: !TicksAt(RemoveFences(s), i)
    ensures s != [] && s[0] != '`' ==> RemoveFences(s) != [] && RemoveFences(s)[0] == s[0]
    decreases |s|
  {
    var r := RemoveFences(s);
    if |s| < 3 {
      assert r == s;
    } else if OccursAt(s, Fence, 0) {
      FenceIsTicks(s, 0);
      assert r == RemoveFences(s[3..]);
      RemoveFencesShape(s[3..]);
    } else {
      var t := RemoveFences(s[1..]);
      assert r == [s[0]] + t;
      RemoveFencesShape(s[1..]);
      if s[0] == '`' {
        FenceIsTicks(s, 0);
        if s[1] != '`' {
          assert t[0] == s[1];
        } else {
          // s starts with exactly two backticks
          assert s[2] != '`';
          var u := s[1..];
          if |u| < 3 {
            assert t == u;
          } else {
            FenceIsTicks(u, 0);
            assert t == [u[0]] + RemoveFences(u[1..]);
            RemoveFencesShape(u[1..]);
            assert t[1] == s[2];
          }
        }
      }
      forall i ensures !TicksAt(r, i) {
        if i >= 1 && TicksAt(r, i) {
          assert TicksAt(t, i - 1);
        }
      }
    }
  }

  /** After `replace("```", "")` no "```" is left anywhere. */
  lemma NoFenceAfterRemoval(s: string)
    ensures !Contains(RemoveFences(s), Fence)
  {
    RemoveFencesShape(s);
    var r := RemoveFences(s);
    forall i | 0 <= i <= |r| - |Fence| ensures !OccursAt(r, Fence, i) {
      FenceIsTicks(r, i);
    }
  }

  /** Cleaning an answer that is already clean changes nothing. */
  lemma CleanReplyIdempotent(text: string, tag: string)
    ensures CleanReply(CleanReply(text, tag), tag) == CleanReply(text, tag)
  {
    var c := CleanReply(text, tag);
    StripExact([], c, []);
    assert [] + c + [] == c;
    LacksExtension(c, Fence, tag);
    ReplaceAllAbsent(c, Fence + tag, "");
    ReplaceAllAbsent(c, Fence, "");
  }

  predicate NoTicks(s: string) {
    forall k :: 0 <= k < |s| ==> s[k] != '`'
  }

  lemma NoTicksJoin(w1: string, code: string, w2: string)
    requires AllSpace(w1) && AllSpace(w2) && '`' !in code
    ensures NoTicks(w1 + code + w2)
  {
    var body := w1 + code + w2;
    forall k | 0 <= k < |body| ensures body[k] != '`' {
      if k < |w1| {
        assert body[k] == w1[k];
      } else if k < |w1| + |code| {
        assert body[k] == code[k - |w1|];
      } else {
        assert body[k] == w2[k - |w1| - |code|];
      }
    }
  }

  /** The tagged opening fence goes; the closing fence is too short to hold it. */
  lemma DropOpeningFence(tag: string, body: string)
    requires tag != [] && '`' !in tag && NoTicks(body)
    ensures ReplaceAll(Fence + tag + body + Fence, Fence + tag, "") == body + Fence
  {
    var open := Fence + tag;
    assert open + body + Fence == open + (body + Fence);
    ReplaceAllHead(open, body + Fence, "");
    ReplaceAllSkip(body, Fence, open, "");
    assert open[|Fence|] == tag[0];
    AbsentChar(Fence, open, |Fence|);
    ReplaceAllAbsent(Fence, open, "");
  }

  lemma DropClosingFence(body: string)
    requires NoTicks(body)
    ensures RemoveFences(body + Fence) == body
  {
    ReplaceAllSkip(body, Fence, Fence, "");
    ReplaceAllHead(Fence, [], "");
    assert Fence + [] == Fence;
  }

  /**
   * An answer wrapped in a tagged fence, with any whitespace around the code, cleans to exactly
   * the code, provided the code itself holds no backtick.
   */
  lemma CleanFenced(tag: string, w1: string, code: string, w2: string)
    requires tag != [] && '`' !in tag && '`' !in code
    requires AllSpace(w1) && AllSpace(w2)
    requires code == [] || (!IsSpace(code[0]) && !IsSpace(code[|code| - 1]))
    ensures CleanReply(Fence + tag + w1 + code + w2 + Fence, tag) == code
  {
    var body := w1 + code + w2;
    var text := Fence + tag + body + Fence;
    assert text == Fence + tag + w1 + code + w2 + Fence;
    NoTicksJoin(w1, code, w2);
    // the first strip finds backticks at both ends
    StripExact([], text, []);
    assert [] + text + [] == text;
    DropOpeningFence(tag, body);
    DropClosingFence(body);
    StripExact(w1, code, w2);
  }
}
