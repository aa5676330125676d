/**
 * The manifest patch of `update_dependencies` (testgenerator.py lines 197-279): which of the
 * three patched services the build manifest (pom.xml) still lacks, and the splice of the
 * service's XML fragment just before the manifest's last `</dependencies>`.
 */
module Manifest {
  import opened Outcomes
  import opened Text
  import opened Fences

  const Closing := "</dependencies>"
  const DependencyOpen := "<dependency>"
  const Indent := "        "
  const Separator := "\n    "

  /** The only services whose manifest entry is looked for; every other name is ignored. */
  const Patched: seq<string> := ["postgresql", "mongodb", "redis"]

  /** The text whose presence in the manifest means `service` is already declared. */
  function Marker(service: string): string {
    "<artifactId>" + service + "</artifactId>"
  }

  /** The services asked for whose marker the manifest lacks. */
  function Needed(services: seq<string>, pom: string): set<string> {
    set s | s in Patched && s in services && !Contains(pom, Marker(s))
  }

  /** `needed_deps`, built by one test and one `add` per patched service. */
  method ComputeNeeded(services: seq<string>, pom: string) returns (needed: set<string>)
    ensures needed == Needed(services, pom)
  {
    needed := {};
    if "postgresql" in services && !Contains(pom, Marker("postgresql")) {
      needed := needed + {"postgresql"};
    }
    if "mongodb" in services && !Contains(pom, Marker("mongodb")) {
      needed := needed + {"mongodb"};
    }
    if "redis" in services && !Contains(pom, Marker("redis")) {
      needed := needed + {"redis"};
    }
    assert forall s :: s in Patched <==> s == "postgresql" || s == "mongodb" || s == "redis";
  }

  /**
   * The fragment inserted at the last `</dependencies>`, indented by eight spaces and followed by
   * a line break and four spaces; `None` where `rindex` raises because there is no such tag.
   */
  function Splice(pom: string, frag: string): (r: Option<string>)
    ensures r.None? <==> !Contains(pom, Closing)
    ensures r.Some? ==> exists i ::
      IsLastOccurrence(pom, Closing, i) && r.value == pom[..i] + Indent + frag + Separator + pom[i..]
  {
    match LastIndexOf(pom, Closing)
    case None => None
    case Some(i) => Some(pom[..i] + Indent + frag + Separator + pom[i..])
  }

  /**
   * The patch writes the manifest exactly when something is needed, the service answered, its
   * cleaned fragment declares a dependency and the manifest has a closing tag.
   */
  predicate Applies(pom: string, services: seq<string>, reply: Reply) {
    && Needed(services, pom) != {}
    && reply.Answer?
    && Contains(CleanReply(reply.text, XmlTag), DependencyOpen)
    && Contains(pom, Closing)
  }

  /**
   * The manifest after `update_dependencies(services)`, given the service's answer to the patch
   * prompt (asked only when something is needed). Every failure leaves the manifest as it was.
   */
  function Patch(pom: string, services: seq<string>, reply: Reply): (r: string)
    ensures |r| >= |pom|
  {
    if Needed(services, pom) == {} then pom
    else match reply
      case Failure => pom
      case Answer(text) =>
        var frag := CleanReply(text, XmlTag);
        if !Contains(frag, DependencyOpen) then pom
        else match Splice(pom, frag)
          case None => pom
          case Some(updated) => updated
  }

  /** The patch, one early exit at a time, as `update_dependencies` takes them. */
  lemma PatchCases(pom: string, services: seq<string>, reply: Reply)
    ensures Needed(services, pom) == {} || reply.Failure? ==> Patch(pom, services, reply) == pom
    ensures Needed(services, pom) != {} && reply.Answer? ==>
      var frag := CleanReply(reply.text, XmlTag);
      var last := LastIndexOf(pom, Closing);
      Patch(pom, services, reply) ==
        if !Contains(frag, DependencyOpen) || last.None? then pom
        else pom[..last.value] + Indent + frag + Separator + pom[last.value..]
  {
  }

  /** Where the patch applies, the manifest is the splice of the cleaned fragment. */
  lemma PatchIsSplice(pom: string, services: seq<string>, reply: Reply)
    requires Applies(pom, services, reply)
    ensures Patch(pom, services, reply) == Splice(pom, CleanReply(reply.text, XmlTag)).value
  {
  }

  /**
   * A splice keeps every byte of the manifest: the text before the last closing tag, then the
   * indented fragment, then the text from the closing tag on.
   */
  lemma SplicePreserves(pom: string, frag: string)
    requires Contains(pom, Closing)
    ensures var r := Splice(pom, frag).value;
      var i := LastIndexOf(pom, Closing).value;
      var n := |Indent| + |frag| + |Separator|;
      && IsLastOccurrence(pom, Closing, i)
      && |r| == |pom| + n
      && r[..i] == pom[..i]
      && r[i..i + n] == Indent + frag + Separator
      && r[i + n..] == pom[i..]
  {
    var r := Splice(pom, frag).value;
    var i := LastIndexOf(pom, Closing).value;
    var mid := Indent + frag + Separator;
    assert r == pom[..i] + mid + pom[i..];
    assert r[..i] == pom[..i];
    assert r[i..i + |mid|] == mid;
    assert r[i + |mid|..] == pom[i..];
  }

  /** The manifest changes exactly when the patch applies; otherwise it stays byte-identical. */
  lemma PatchChangesIffApplies(pom: string, services: seq<string>, reply: Reply)
    ensures Patch(pom, services, reply) != pom <==> Applies(pom, services, reply)
    ensures !Applies(pom, services, reply) ==> Patch(pom, services, reply) == pom
  {
    if Applies(pom, services, reply) {
      PatchIsSplice(pom, services, reply);
      SplicePreserves(pom, CleanReply(reply.text, XmlTag));
    }
  }

  /** Only postgresql, mongodb and redis are ever needed: kafka and the rest never are. */
  lemma NeededWithinPatched(services: seq<string>, pom: string)
    ensures Needed(services, pom) <= {"postgresql", "mongodb", "redis"}
    ensures "kafka" !in Needed(services, pom)
  {
  }

  /** Nothing is needed when every patched service asked for is already declared. */
  lemma NothingNeeded(services: seq<string>, pom: string)
    ensures Needed(services, pom) == {} <==>
      forall s :: s in Patched && s in services ==> Contains(pom, Marker(s))
  {
    if Needed(services, pom) == {} {
      forall s | s in Patched && s in services ensures Contains(pom, Marker(s)) {
        assert s !in Needed(services, pom);
      }
    }
  }

  /** Where a marker may have a '<': only at its two tags. */
  lemma MarkerAngles(service: string, d: int)
    requires '<' !in service
    requires 0 <= d < |Marker(service)| && Marker(service)[d] == '<'
    ensures d == 0 || d == 12 + |service|
  {
    var m := Marker(service);
    forall j | 12 <= j < 12 + |service| ensures m[j] != '<' {
      assert m[j] == service[j - 12];
    }
  }

  lemma AngleFollowers(service: string, d: int)
    requires '<' !in service
    requires 0 < d < |Marker(service)| && Marker(service)[d] == '<'
    ensures d + 2 < |Marker(service)| && Marker(service)[d + 2] == 'a'
  {
    MarkerAngles(service, d);
  }

  /** A marker never straddles a closing `</dependencies>` tag. */
  lemma NoStraddle(pom: string, i: int, service: string, k: int)
    requires '<' !in service
    requires OccursAt(pom, Closing, i) && OccursAt(pom, Marker(service), k)
    ensures k + |Marker(service)| <= i || i <= k
  {
    var m := Marker(service);
    if k < i < k + |m| {
      var d := i - k;
      CharAt(pom, m, k, d);
      CharAt(pom, Closing, i, 0);
      AngleFollowers(service, d);
      CharAt(pom, m, k, d + 2);
      CharAt(pom, Closing, i, 2);
      assert false;
    }
  }

  /** The characters of an occurrence are those of the pattern. */
  lemma CharAt(s: string, pat: string, k: int, j: int)
    requires OccursAt(s, pat, k) && 0 <= j < |pat|
    ensures s[k + j] == pat[j]
  {
    assert s[k..k + |pat|][j] == s[k + j];
  }

  /** A service declared before the patch is still declared after it. */
  lemma MarkerKept(pom: string, services: seq<string>, reply: Reply, service: string)
    requires '<' !in service && Contains(pom, Marker(service))
    ensures Contains(Patch(pom, services, reply), Marker(service))
  {
    if Applies(pom, services, reply) {
      PatchIsSplice(pom, services, reply);
      MarkerKeptBySplice(pom, CleanReply(reply.text, XmlTag), service);
    } else {
      PatchChangesIffApplies(pom, services, reply);
    }
  }

  lemma MarkerKeptBySplice(pom: string, frag: string, service: string)
    requires '<' !in service && Contains(pom, Marker(service)) && Contains(pom, Closing)
    ensures Contains(Splice(pom, frag).value, Marker(service))
  {
    var m := Marker(service);
    var i := LastIndexOf(pom, Closing).value;
    SplicePreserves(pom, frag);
    var k :| 0 <= k <= |pom| - |m| && OccursAt(pom, m, k);
    NoStraddle(pom, i, service, k);
    if k + |m| <= i {
      KeptBefore(pom, frag, m, i, k);
    } else {
      KeptAfter(pom, frag, m, i, k);
    }
  }

  /** An occurrence ending before the last closing tag sits at the same place after the splice. */
  lemma KeptBefore(pom: string, frag: string, m: string, i: int, k: int)
    requires Contains(pom, Closing) && i == LastIndexOf(pom, Closing).value
    requires 0 <= k && k + |m| <= i && OccursAt(pom, m, k)
    requires Splice(pom, frag).value[..i] == pom[..i]
    ensures Contains(Splice(pom, frag).value, m)
  {
    var r := Splice(pom, frag).value;
    assert r[k..k + |m|] == r[..i][k..k + |m|];
    assert pom[..i][k..k + |m|] == pom[k..k + |m|];
    assert OccursAt(r, m, k);
  }

  /** An occurrence from the last closing tag on is shifted by the inserted text. */
  lemma KeptAfter(pom: string, frag: string, m: string, i: int, k: int)
    requires Contains(pom, Closing) && i == LastIndexOf(pom, Closing).value
    requires 0 <= i <= k && k + |m| <= |pom| && OccursAt(pom, m, k)
    requires var n := |Indent| + |frag| + |Separator|;
      var r := Splice(pom, frag).value;
      |r| == |pom| + n && r[i + n..] == pom[i..]
    ensures Contains(Splice(pom, frag).value, m)
  {
    var r := Splice(pom, frag).value;
    var n := |Indent| + |frag| + |Separator|;
    assert r[k + n..k + n + |m|] == r[i + n..][k - i..k - i + |m|];
    assert pom[i..][k - i..k - i + |m|] == pom[k..k + |m|];
    assert OccursAt(r, m, k + n);
  }

  /** The patched service names hold no '<'. */
  lemma PatchedPlain(service: string)
    requires service in Patched
    ensures '<' !in service
  {
    var names := Patched;
    assert service == names[0] || service == names[1] || service == names[2];
  }

  /** A patch never makes a service needed that was not needed before. */
  lemma NeededShrinks(pom: string, services: seq<string>, reply: Reply)
    ensures Needed(services, Patch(pom, services, reply)) <= Needed(services, pom)
  {
    var r := Patch(pom, services, reply);
    forall s | s in Patched && s in services && Contains(pom, Marker(s))
      ensures Contains(r, Marker(s))
    {
      PatchedPlain(s);
      MarkerKept(pom, services, reply, s);
    }
  }

  /**
   * The idempotence law: once a patch has inserted a fragment declaring every needed service,
   * nothing is needed any more, and a second `update_dependencies` leaves the manifest alone
   * whatever the service answers.
   */
  lemma PatchSettles(pom: string, services: seq<string>, reply: Reply, again: Reply)
    requires Applies(pom, services, reply)
    requires forall s :: s in Needed(services, pom) ==> Contains(CleanReply(reply.text, XmlTag), Marker(s))
    ensures Needed(services, Patch(pom, services, reply)) == {}
    ensures Patch(Patch(pom, services, reply), services, again) == Patch(pom, services, reply)
  {
    var r := Patch(pom, services, reply);
    var frag := CleanReply(reply.text, XmlTag);
    PatchIsSplice(pom, services, reply);
    forall s | s in Patched && s in services ensures Contains(r, Marker(s)) {
      if Contains(pom, Marker(s)) {
        PatchedPlain(s);
        MarkerKept(pom, services, reply, s);
      } else {
        assert s in Needed(services, pom);
        FragmentKept(pom, frag, Marker(s));
      }
    }
    NothingNeeded(services, r);
  }

  /** Whatever the fragment holds, the spliced manifest holds too. */
  lemma FragmentKept(pom: string, frag: string, pat: string)
    requires Contains(pom, Closing) && Contains(frag, pat)
    ensures Contains(Splice(pom, frag).value, pat)
  {
    var i := LastIndexOf(pom, Closing).value;
    assert Splice(pom, frag).value == (pom[..i] + Indent) + frag + (Separator + pom[i..]);
    ContainsInfix(pom[..i] + Indent, frag, Separator + pom[i..], pat);
  }
}
