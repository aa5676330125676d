/**
 * Where `generate_tests` reads sources and writes tests (testgenerator.py lines 282-307): every
 * source lives at `temp_repo/src/main/java/<rel>`, and its test goes to
 * `temp_repo/src/test/java/<rel>` with every ".java" in `rel` turned into "IntegrationTest.java".
 */
module Paths {
  import opened Text

  const MainRoot := "temp_repo/src/main/java/"
  const TestRoot := "temp_repo/src/test/java/"
  const JavaExt := ".java"
  const TestSuffix := "IntegrationTest.java"
  const PackageInfo := "package-info.java"
  const ModuleInfo := "module-info.java"

  /** The path the scan of the checkout reports for the source `rel`. */
  function SourcePath(rel: string): string {
    MainRoot + rel
  }

  /** The test file written for the source `rel`. */
  function TestPath(rel: string): string {
    TestRoot + ReplaceAll(rel, JavaExt, TestSuffix)
  }

  /** Package and module descriptors, which the loop passes over. */
  predicate IsModuleMetadata(path: string) {
    Contains(path, PackageInfo) || Contains(path, ModuleInfo)
  }

  /** A name with no dot keeps its characters, and its ".java" becomes "IntegrationTest.java". */
  lemma RenameJava(d: string, rest: string)
    requires '.' !in d
    ensures ReplaceAll(d + JavaExt + rest, JavaExt, TestSuffix) == d + TestSuffix + ReplaceAll(rest, JavaExt, TestSuffix)
  {
    forall k | 0 <= k < |d| ensures d[k] != JavaExt[0] {
      assert d[k] in d;
    }
    assert d + JavaExt + rest == d + (JavaExt + rest);
    ReplaceAllSkip(d, JavaExt + rest, JavaExt, TestSuffix);
    ReplaceAllHead(JavaExt, rest, TestSuffix);
  }

  /** A class name with no dot is renamed by its extension alone. */
  lemma RenameClass(d: string)
    requires '.' !in d
    ensures ReplaceAll(d + JavaExt, JavaExt, TestSuffix) == d + TestSuffix
  {
    assert d + JavaExt == d + JavaExt + [];
    RenameJava(d, []);
    assert ReplaceAll([], JavaExt, TestSuffix) == [];
    assert d + TestSuffix + [] == d + TestSuffix;
  }

  /** `com/x/B.java` is tested by `com/x/BIntegrationTest.java` under the test root. */
  lemma TestPathOfClass(d: string)
    requires '.' !in d
    ensures TestPath(d + JavaExt) == TestRoot + d + TestSuffix
  {
    RenameClass(d);
  }

  /**
   * `replace` rewrites every ".java", not only the extension: a directory whose name holds
   * ".java" is renamed in the test path too.
   */
  lemma TestPathRenamesDirectories(d1: string, d2: string)
    requires '.' !in d1 && '.' !in d2
    ensures TestPath(d1 + JavaExt + d2 + JavaExt) == TestRoot + d1 + TestSuffix + d2 + TestSuffix
  {
    var tail := d2 + JavaExt;
    assert d1 + JavaExt + d2 + JavaExt == d1 + JavaExt + tail;
    RenameJava(d1, tail);
    RenameClass(d2);
    JoinPieces(TestRoot, d1, TestSuffix, d2);
  }

  lemma JoinPieces(root: string, d1: string, suffix: string, d2: string)
    ensures root + (d1 + suffix + (d2 + suffix)) == root + d1 + suffix + d2 + suffix
  {
  }

  /** Distinct classes get distinct test files. */
  lemma TestPathInjective(d1: string, d2: string)
    requires '.' !in d1 && '.' !in d2
    requires TestPath(d1 + JavaExt) == TestPath(d2 + JavaExt)
    ensures d1 == d2
  {
    TestPathOfClass(d1);
    TestPathOfClass(d2);
    var p1 := TestRoot + d1 + TestSuffix;
    var p2 := TestRoot + d2 + TestSuffix;
    assert |d1| == |d2|;
    assert d1 == p1[|TestRoot|..|TestRoot| + |d1|] == p2[|TestRoot|..|TestRoot| + |d2|] == d2;
  }

  /** Every Java source gets a test file whose name ends in "IntegrationTest.java". */
  lemma TestPathSuffix(rel: string)
    requires EndsWith(rel, JavaExt)
    ensures StartsWith(TestPath(rel), TestRoot) && EndsWith(TestPath(rel), TestSuffix)
  {
    var ext := JavaExt;
    assert ext[1..] == "java";
    ReplaceAllKeepsSuffix(rel, JavaExt, TestSuffix);
    EndsWithAppend(TestRoot, ReplaceAll(rel, JavaExt, TestSuffix), TestSuffix);
    assert TestPath(rel)[..|TestRoot|] == TestRoot;
  }

  /** A test file is never written over a source file. */
  lemma TestNeverSource(rel: string, other: string)
    ensures TestPath(rel) != SourcePath(other)
  {
    assert TestPath(rel)[14] == TestRoot[14] == 't';
    assert SourcePath(other)[14] == MainRoot[14] == 'm';
  }

  /** Package and module descriptors are recognised wherever they sit in the tree. */
  lemma DescriptorsAreMetadata(dir: string)
    ensures IsModuleMetadata(SourcePath(dir + PackageInfo))
    ensures IsModuleMetadata(SourcePath(dir + ModuleInfo))
  {
    var p := SourcePath(dir + PackageInfo);
    assert p == (MainRoot + dir) + PackageInfo;
    assert p[|MainRoot + dir|..] == PackageInfo;
    assert OccursAt(p, PackageInfo, |MainRoot + dir|);
    var q := SourcePath(dir + ModuleInfo);
    assert q == (MainRoot + dir) + ModuleInfo;
    assert q[|MainRoot + dir|..] == ModuleInfo;
    assert OccursAt(q, ModuleInfo, |MainRoot + dir|);
  }

  /** An ordinary class name, with no '-', is never taken for a descriptor. */
  lemma PlainSourceNotMetadata(rel: string)
    requires '-' !in rel
    ensures !IsModuleMetadata(SourcePath(rel))
  {
    var p := SourcePath(rel);
    forall k | 0 <= k < |p| ensures p[k] != '-' {
      if k >= |MainRoot| {
        assert p[k] == rel[k - |MainRoot|];
      }
    }
    assert PackageInfo[7] == '-' && ModuleInfo[6] == '-';
    AbsentChar(p, PackageInfo, 7);
    AbsentChar(p, ModuleInfo, 6);
  }
}
