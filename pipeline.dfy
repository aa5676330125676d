/**
 * The generator object and its per-file loop (testgenerator.py lines 12-33 and 197-325). The
 * checkout is a workspace: the build manifest, if there is one, and the test files written so
 * far. The service's three answers for each file are inputs.
 */
module Pipeline {
  import opened Outcomes
  import opened Text
  import opened Fences
  import opened Classifier
  import opened Synthesizer
  import opened Dependencies
  import opened Manifest
  import opened Paths
  import opened RepoUrl

  /** A source file found under the main source root, by its path relative to that root. */
  datatype JavaFile = JavaFile(rel: string, content: string)

  /** The service's answers while one file is processed: test, dependency list, manifest patch. */
  datatype Replies = Replies(test: Reply, deps: Reply, patch: Reply)

  /** `pom.xml` (`None` when the checkout has none) and the test files, by path. */
  datatype Workspace = Workspace(pom: Option<string>, tests: map<string, string>)

  /** `update_dependencies` on the workspace's manifest; a missing manifest stays missing. */
  function UpdateManifest(pom: Option<string>, services: seq<string>, reply: Reply): (r: Option<string>)
    ensures r.None? <==> pom.None?
    ensures r.Some? ==> |r.value| >= |pom.value|
  {
    match pom
    case None => None
    case Some(content) => Some(Patch(content, services, reply))
  }

  /**
   * The body of the loop's `try` for one file that is not a module descriptor: generate the
   * test, and if there is one, detect the dependencies, write the test file and patch the
   * manifest for a non-empty list. The only exception left to the `except` is a failed test call.
   */
  function ProcessFile(ws: Workspace, f: JavaFile, rs: Replies): (out: Outcome<Workspace>)
    ensures out.Raised? ==> rs.test.Failure?
  {
    match AnalyzeCode(SourcePath(f.rel), f.content, rs.test)
    case Raised => Raised
    case Returned(test) =>
      if test == [] then Returned(ws)
      else
        var deps := DetectDependencies(rs.deps);
        var tests := ws.tests[TestPath(f.rel) := test];
        if deps == [] then Returned(Workspace(ws.pom, tests))
        else Returned(Workspace(UpdateManifest(ws.pom, deps, rs.patch), tests))
  }

  /** One pass of the loop: descriptors are passed over, and an exception is reported and dropped. */
  function Step(ws: Workspace, f: JavaFile, rs: Replies): Workspace {
    if IsModuleMetadata(SourcePath(f.rel)) then ws
    else match ProcessFile(ws, f, rs)
      case Raised => ws
      case Returned(next) => next
  }

  /** One pass, case by case: what the loop body leaves for each way the pass can go. */
  lemma StepCases(ws: Workspace, f: JavaFile, rs: Replies)
    ensures var out := AnalyzeCode(SourcePath(f.rel), f.content, rs.test);
      var deps := DetectDependencies(rs.deps);
      Step(ws, f, rs) ==
        if IsModuleMetadata(SourcePath(f.rel)) || out.Raised? || out.value == [] then ws
        else Workspace(if deps == [] then ws.pom else UpdateManifest(ws.pom, deps, rs.patch),
                       ws.tests[TestPath(f.rel) := out.value])
  {
  }

  /** The workspace after the loop has handled `files` in order. */
  function RunFiles(ws: Workspace, files: seq<JavaFile>, replies: seq<Replies>): Workspace
    requires |files| == |replies|
    decreases |files|
  {
    if files == [] then ws
    else
      var n := |files| - 1;
      Step(RunFiles(ws, files[..n], replies[..n]), files[n], replies[n])
  }

  /** The generator: its clone URL, and the checkout it works in. */
  class Generator {
    const repoUrl: string
    var pom: Option<string>
    var tests: map<string, string>

    /** The generator for `url` with `token`, working in the checkout as the clone left it. */
    constructor(token: string, url: string, checkout: Workspace)
      ensures repoUrl == Authenticated(url, token)
      ensures pom == checkout.pom && tests == checkout.tests
    {
      repoUrl := Authenticated(url, token);
      pom := checkout.pom;
      tests := checkout.tests;
    }

    function State(): Workspace
      reads this
    {
      Workspace(pom, tests)
    }

    /** `update_dependencies(services)`, given the service's answer to the patch prompt. */
    method UpdateDependencies(services: seq<string>, reply: Reply)
      modifies this`pom
      ensures pom == UpdateManifest(old(pom), services, reply)
    {
      if pom.None? {
        return;
      }
      var content := pom.value;
      assert UpdateManifest(pom, services, reply) == Some(Patch(content, services, reply));
      PatchCases(content, services, reply);
      var needed := ComputeNeeded(services, content);
      if needed == {} {
        return;
      }
      if reply.Failure? {
        return;
      }
      var frag := CleanReply(reply.text, XmlTag);
      if !Contains(frag, DependencyOpen) {
        return;
      }
      var last := LastIndexOf(content, Closing);
      if last.None? {
        return;
      }
      var i := last.value;
      pom := Some(content[..i] + Indent + frag + Separator + content[i..]);
    }

    /** One pass of the loop body, with its `try` and `except`. */
    method HandleFile(f: JavaFile, rs: Replies)
      modifies this
      ensures State() == Step(old(State()), f, rs)
    {
      StepCases(State(), f, rs);
      var path := SourcePath(f.rel);
      if IsModuleMetadata(path) {
        return;
      }
      var outcome := AnalyzeCode(path, f.content, rs.test);
      if outcome.Raised? {
        // the error is reported and the loop goes on with the next file
        return;
      }
      var test := outcome.value;
      if test != [] {
        WriteTest(f.rel, test, DetectDependencies(rs.deps), rs.patch);
      }
    }

    /** Writes a generated test, then patches the manifest for a non-empty dependency list. */
    method WriteTest(rel: string, test: string, deps: seq<string>, patch: Reply)
      modifies this
      ensures pom == if deps == [] then old(pom) else UpdateManifest(old(pom), deps, patch)
      ensures tests == old(tests)[TestPath(rel) := test]
    {
      tests := tests[TestPath(rel) := test];
      if deps != [] {
        UpdateDependencies(deps, patch);
      }
    }

    /** `generate_tests` over the files the scan found, in order, with the service's answers. */
    method GenerateTests(files: seq<JavaFile>, replies: seq<Replies>)
      requires |files| == |replies|
      modifies this
      ensures State() == RunFiles(old(State()), files, replies)
    {
      var i := 0;
      while i < |files|
        invariant 0 <= i <= |files|
        invariant State() == RunFiles(old(State()), files[..i], replies[..i])
      {
        HandleFile(files[i], replies[i]);
        assert files[..i + 1][..i] == files[..i] && replies[..i + 1][..i] == replies[..i];
        i := i + 1;
      }
      assert files[..i] == files && replies[..i] == replies;
    }
  }

  /** Running two batches one after the other is running them together. */
  lemma {:induction false} RunFilesAppend(ws: Workspace, a: seq<JavaFile>, ra: seq<Replies>,
                                          b: seq<JavaFile>, rb: seq<Replies>)
    requires |a| == |ra| && |b| == |rb|
    ensures RunFiles(ws, a + b, ra + rb) == RunFiles(RunFiles(ws, a, ra), b, rb)
    decreases |b|
  {
    if b == [] {
      assert a + b == a && ra + rb == ra;
    } else {
      var n := |b| - 1;
      assert (a + b)[..|a| + n] == a + b[..n];
      assert (ra + rb)[..|a| + n] == ra + rb[..n];
      RunFilesAppend(ws, a, ra, b[..n], rb[..n]);
    }
  }

  /** A file whose test call fails leaves the workspace as it was. */
  lemma FailedFileChangesNothing(ws: Workspace, f: JavaFile, rs: Replies)
    requires rs.test.Failure?
    ensures Step(ws, f, rs) == ws
  {
  }

  /**
   * Failure isolation: a file whose test call fails is as if it were not there, and every file
   * after it is still processed.
   */
  lemma FailureIsolated(ws: Workspace, a: seq<JavaFile>, ra: seq<Replies>, f: JavaFile, rs: Replies,
                        b: seq<JavaFile>, rb: seq<Replies>)
    requires |a| == |ra| && |b| == |rb| && rs.test.Failure?
    ensures RunFiles(ws, a + [f] + b, ra + [rs] + rb) == RunFiles(ws, a + b, ra + rb)
  {
    RunFilesAppend(ws, a + [f], ra + [rs], b, rb);
    RunFilesAppend(ws, a, ra, [f], [rs]);
    assert RunFiles(RunFiles(ws, a, ra), [f], [rs]) == Step(RunFiles(RunFiles(ws, a, ra), [], []), f, rs);
    RunFilesAppend(ws, a, ra, b, rb);
  }

  /** Package and module descriptors are passed over whatever the service would answer. */
  lemma DescriptorSkipped(ws: Workspace, f: JavaFile, rs: Replies)
    requires IsModuleMetadata(SourcePath(f.rel))
    ensures Step(ws, f, rs) == ws
  {
  }

  /** A written test is never empty, holds no fence and has no surrounding whitespace. */
  ghost predicate CleanText(t: string) {
    t != [] && !Contains(t, Fence) && !IsSpace(t[0]) && !IsSpace(t[|t| - 1])
  }

  ghost predicate CleanTests(tests: map<string, string>) {
    forall path :: path in tests ==> CleanText(tests[path])
  }

  /** Writing one clean test keeps every test clean. */
  lemma CleanUpdate(tests: map<string, string>, path: string, t: string)
    requires CleanTests(tests) && CleanText(t)
    ensures CleanTests(tests[path := t])
  {
    var u := tests[path := t];
    forall p | p in u ensures CleanText(u[p]) {
      if p != path {
        assert u[p] == tests[p];
      }
    }
  }

  /** One pass keeps the tests clean, adds at most the file's own test path, and keeps the manifest. */
  lemma StepInvariant(ws: Workspace, f: JavaFile, rs: Replies)
    ensures var next := Step(ws, f, rs);
      && (CleanTests(ws.tests) ==> CleanTests(next.tests))
      && (forall path :: path in ws.tests ==> path in next.tests)
      && (forall path :: path in next.tests && path !in ws.tests ==> path == TestPath(f.rel))
      && (next.pom.Some? <==> ws.pom.Some?)
      && (next.pom.Some? ==> |next.pom.value| >= |ws.pom.value|)
  {
    StepCases(ws, f, rs);
    var out := AnalyzeCode(SourcePath(f.rel), f.content, rs.test);
    if !IsModuleMetadata(SourcePath(f.rel)) && out.Returned? && out.value != [] {
      StepPom(ws, f, rs);
      if CleanTests(ws.tests) {
        assert CleanText(out.value);
        CleanUpdate(ws.tests, TestPath(f.rel), out.value);
      }
    }
  }

  /** The manifest step of a written file neither drops the manifest nor shrinks it. */
  lemma StepPom(ws: Workspace, f: JavaFile, rs: Replies)
    ensures var next := Step(ws, f, rs);
      && (next.pom.Some? <==> ws.pom.Some?)
      && (next.pom.Some? ==> |next.pom.value| >= |ws.pom.value|)
  {
  }

  /**
   * What the loop leaves: every test file it adds sits at the test path of a processed file and
   * is clean, the manifest neither appears nor disappears and never shrinks.
   */
  lemma {:induction false} RunFilesInvariant(ws: Workspace, files: seq<JavaFile>, replies: seq<Replies>)
    requires |files| == |replies|
    ensures var r := RunFiles(ws, files, replies);
      && (CleanTests(ws.tests) ==> CleanTests(r.tests))
      && (forall path :: path in ws.tests ==> path in r.tests)
      && (forall path :: path in r.tests && path !in ws.tests ==>
            exists i :: 0 <= i < |files| && path == TestPath(files[i].rel))
      && (r.pom.Some? <==> ws.pom.Some?)
      && (r.pom.Some? ==> |r.pom.value| >= |ws.pom.value|)
    decreases |files|
  {
    if files != [] {
      var n := |files| - 1;
      var mid := RunFiles(ws, files[..n], replies[..n]);
      RunFilesInvariant(ws, files[..n], replies[..n]);
      StepInvariant(mid, files[n], replies[n]);
      var r := Step(mid, files[n], replies[n]);
      assert r == RunFiles(ws, files, replies);
      forall path | path in r.tests && path !in ws.tests
        ensures exists i :: 0 <= i < |files| && path == TestPath(files[i].rel)
      {
        if path in mid.tests {
          var i :| 0 <= i < n && path == TestPath(files[..n][i].rel);
          assert files[..n][i] == files[i];
        } else {
          assert path == TestPath(files[n].rel);
        }
      }
    }
  }

  /** A service declared in the manifest stays declared after any run. */
  lemma {:induction false} RunFilesKeepsMarkers(ws: Workspace, files: seq<JavaFile>, replies: seq<Replies>,
                                                service: string)
    requires |files| == |replies| && '<' !in service
    requires ws.pom.Some? && Contains(ws.pom.value, Marker(service))
    ensures RunFiles(ws, files, replies).pom.Some?
    ensures Contains(RunFiles(ws, files, replies).pom.value, Marker(service))
    decreases |files|
  {
    if files != [] {
      var n := |files| - 1;
      var mid := RunFiles(ws, files[..n], replies[..n]);
      RunFilesKeepsMarkers(ws, files[..n], replies[..n], service);
      StepCases(mid, files[n], replies[n]);
      var r := Step(mid, files[n], replies[n]);
      if r.pom != mid.pom {
        var deps := DetectDependencies(replies[n].deps);
        MarkerKept(mid.pom.value, deps, replies[n].patch, service);
      }
    }
  }

  /**
   * The loop as written, with the debug flag. In debug mode the `except` clause itself raises,
   * because `print` takes no `exc_info` keyword, so the error escapes the loop.
   */
  function StepAsWritten(debug: bool, ws: Workspace, f: JavaFile, rs: Replies): Outcome<Workspace> {
    if IsModuleMetadata(SourcePath(f.rel)) then Returned(ws)
    else match ProcessFile(ws, f, rs)
      case Raised => if debug then Raised else Returned(ws)
      case Returned(next) => Returned(next)
  }

  function RunFilesAsWritten(debug: bool, ws: Workspace, files: seq<JavaFile>, replies: seq<Replies>): Outcome<Workspace>
    requires |files| == |replies|
    decreases |files|
  {
    if files == [] then Returned(ws)
    else
      var n := |files| - 1;
      match RunFilesAsWritten(debug, ws, files[..n], replies[..n])
      case Raised => Raised
      case Returned(mid) => StepAsWritten(debug, mid, files[n], replies[n])
  }

  /** Outside debug mode the loop as written is the isolating loop. */
  lemma {:induction false} QuietRunIsolates(ws: Workspace, files: seq<JavaFile>, replies: seq<Replies>)
    requires |files| == |replies|
    ensures RunFilesAsWritten(false, ws, files, replies) == Returned(RunFiles(ws, files, replies))
    decreases |files|
  {
    if files != [] {
      var n := |files| - 1;
      QuietRunIsolates(ws, files[..n], replies[..n]);
    }
  }

  lemma {:induction false} RaisedStaysRaised(debug: bool, ws: Workspace, a: seq<JavaFile>, ra: seq<Replies>,
                                             b: seq<JavaFile>, rb: seq<Replies>)
    requires |a| == |ra| && |b| == |rb|
    requires RunFilesAsWritten(debug, ws, a, ra).Raised?
    ensures RunFilesAsWritten(debug, ws, a + b, ra + rb).Raised?
    decreases |b|
  {
    if b == [] {
      assert a + b == a && ra + rb == ra;
    } else {
      var n := |b| - 1;
      assert (a + b)[..|a| + n] == a + b[..n];
      assert (ra + rb)[..|a| + n] == ra + rb[..n];
      RaisedStaysRaised(debug, ws, a, ra, b[..n], rb[..n]);
    }
  }

  /**
   * In debug mode one candidate file whose test call fails ends the whole run: none of the files
   * after it is processed, and the error reaches the caller.
   */
  lemma DebugRunAborts(ws: Workspace, a: seq<JavaFile>, ra: seq<Replies>, f: JavaFile, rs: Replies,
                       b: seq<JavaFile>, rb: seq<Replies>)
    requires |a| == |ra| && |b| == |rb|
    requires !IsModuleMetadata(SourcePath(f.rel)) && Classify(SourcePath(f.rel), f.content).Candidate?
    requires rs.test.Failure?
    ensures RunFilesAsWritten(true, ws, a + [f] + b, ra + [rs] + rb).Raised?
  {
    var s := a + [f];
    var rss := ra + [rs];
    assert s[..|a|] == a && rss[..|a|] == ra;
    assert RunFilesAsWritten(true, ws, s, rss).Raised?;
    RaisedStaysRaised(true, ws, s, rss, b, rb);
  }

  lemma ScenarioNotExcluded(path: string)
    requires path == "temp_repo/src/main/java/com/x/B.java"
    ensures !ExcludedPath(path)
  {
    assert forall k :: 0 <= k < |path| ==> path[k] != 'f' && path[k] != 'y' && path[k] != 'd';
    assert "config"[3] == 'f' && "entity"[5] == 'y' && "/model/"[3] == 'd';
    AbsentChar(path, "config", 3);
    AbsentChar(path, "entity", 5);
    AbsentChar(path, "/model/", 3);
  }

  lemma ScenarioTestPath(rel: string)
    requires rel == "com/x/B.java"
    ensures TestPath(rel) == TestRoot + "com/x/B" + TestSuffix
  {
    var d := "com/x/B";
    assert rel == d + JavaExt;
    assert forall k :: 0 <= k < |d| ==> d[k] != '.';
    TestPathOfClass(d);
  }

  lemma ScenarioPath(rel: string)
    requires rel == "com/x/B.java"
    ensures !IsModuleMetadata(SourcePath(rel)) && !ExcludedPath(SourcePath(rel))
    ensures TestPath(rel) == TestRoot + "com/x/B" + TestSuffix
  {
    ScenarioNotExcluded(MainRoot + rel);
    assert forall k :: 0 <= k < |rel| ==> rel[k] != '-';
    PlainSourceNotMetadata(rel);
    ScenarioTestPath(rel);
  }

  lemma ScenarioReply(text: string)
    requires text == "```java\nclass X{}\n```"
    ensures CleanReply(text, JavaTag) == "class X{}"
  {
    var code := "class X{}";
    assert text == Fence + JavaTag + "\n" + code + "\n" + Fence;
    CleanFenced(JavaTag, "\n", code, "\n");
  }

  lemma ScenarioClassify(path: string, code: string)
    requires !ExcludedPath(path) && code == "package com.x;"
    ensures Classify(path, code) == Candidate("com.x")
  {
    assert "@Entity"[0] == '@' && "@Configuration"[0] == '@';
    assert forall k :: 0 <= k < |code| ==> code[k] != '@';
    AbsentChar(code, "@Entity", 0);
    AbsentChar(code, "@Configuration", 0);
    SimplePackage(code);
  }

  lemma ScenarioAnalyze(f: JavaFile, rs: Replies)
    requires f.rel == "com/x/B.java" && f.content == "package com.x;"
    requires rs.test == Answer("```java\nclass X{}\n```")
    ensures !IsModuleMetadata(SourcePath(f.rel))
    ensures AnalyzeCode(SourcePath(f.rel), f.content, rs.test) == Returned("class X{}")
  {
    ScenarioPath(f.rel);
    ScenarioClassify(SourcePath(f.rel), f.content);
    ScenarioReply(rs.test.text);
  }

  /**
   * A worked case: `com/x/B.java` declaring `package com.x;`, a test answer wrapped in a java
   * fence and a failed dependency call give one test file, holding exactly the fenced code, at
   * `com/x/BIntegrationTest.java` under the test root, and leave the manifest alone.
   */
  lemma OneClassScenario(ws: Workspace, f: JavaFile, rs: Replies)
    requires f.rel == "com/x/B.java" && f.content == "package com.x;"
    requires rs.test == Answer("```java\nclass X{}\n```") && rs.deps.Failure?
    ensures Step(ws, f, rs) ==
      Workspace(ws.pom, ws.tests[TestRoot + "com/x/B" + TestSuffix := "class X{}"])
  {
    ScenarioAnalyze(f, rs);
    ScenarioTestPath(f.rel);
  }

  /** The names of a list that belong to the six-name vocabulary, in order. */
  function KnownServices(services: seq<string>): (known: seq<string>)
    ensures forall s :: s in known <==> s in services && s in Vocabulary
  {
    if services == [] then []
    else if services[0] in Vocabulary then [services[0]] + KnownServices(services[1..])
    else
      assert forall s :: s in services <==> s == services[0] || s in services[1..];
      KnownServices(services[1..])
  }

  /**
   * Detected names are not checked against the vocabulary, but names outside it never matter:
   * the manifest patch treats a list exactly as the list of its known names.
   */
  lemma PatchIgnoresUnknownNames(pom: string, services: seq<string>, reply: Reply)
    ensures Needed(services, pom) == Needed(KnownServices(services), pom)
    ensures Patch(pom, services, reply) == Patch(pom, KnownServices(services), reply)
  {
    assert forall s :: s in Patched ==> s in Vocabulary;
  }
}
