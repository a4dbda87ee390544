/**
 * The repositories of crosslink's own tests, stated against the model: a
 * root module with testA and testB one directory below it. The tests use
 * the root path "go.opentelemetry.io/build-tools/crosslink/testroot"; the
 * lemmas hold for every non-empty root path.
 */
module Scenarios {
  import opened Paths
  import opened Manifest
  import opened Graph
  import opened Crosslink

  function TestA(root: string): string { root + "/testA" }
  function TestB(root: string): string { root + "/testB" }

  lemma Names(root: string)
    requires root != []
    ensures IsElement("testA") && IsElement("testB") && "testA" != "testB"
    ensures TestA(root) == root + "/" + "testA" && TestB(root) == root + "/" + "testB"
    ensures root != TestA(root) && root != TestB(root) && TestA(root) != TestB(root)
    ensures Contains(root, root) && Contains(TestA(root), root) && Contains(TestB(root), root)
  {
    assert "testA"[4] != "testB"[4];
    assert TestA(root)[|root| + 5] == 'A' && TestB(root)[|root| + 5] == 'B';
    assert |TestA(root)| > |root| && |TestB(root)| > |root|;
    assert root <= TestA(root) && root <= TestB(root);
    PrefixContains(root, root);
    PrefixContains(TestA(root), root);
    PrefixContains(TestB(root), root);
  }

  /** The local paths the tests expect from the root to testA and testB. */
  lemma RootToChildren(root: string)
    requires root != []
    ensures Rel(root, TestA(root)).Success? && LocalPath(Rel(root, TestA(root)).value) == "./testA"
    ensures Rel(root, TestB(root)).Success? && LocalPath(Rel(root, TestB(root)).value) == "./testB"
  {
    Names(root);
    RelToChild(root, "testA");
    RelToChild(root, "testB");
    assert "testA"[0] != '.' && "testB"[0] != '.';
  }

  /** The local path the tests expect from testA to its sibling testB. */
  lemma TestAToTestB(root: string)
    requires root != []
    ensures Rel(TestA(root), TestB(root)).Success? && LocalPath(Rel(TestA(root), TestB(root)).value) == "../testB"
  {
    Names(root);
    RelToSibling(root, "testA", "testB");
    assert ".." <= "../testB";
  }

  /** The local path the tests expect from testA back to the root. */
  lemma TestAToRoot(root: string)
    requires root != []
    ensures Rel(TestA(root), root).Success? && LocalPath(Rel(TestA(root), root).value) == "../"
  {
    Names(root);
    RelToParent(root, "testA");
  }

  /** The local path the tests expect from testB to its sibling testA. */
  lemma TestBToTestA(root: string)
    requires root != []
    ensures Rel(TestB(root), TestA(root)).Success? && LocalPath(Rel(TestB(root), TestA(root)).value) == "../testA"
  {
    Names(root);
    RelToSibling(root, "testB", "testA");
    assert ".." <= "../testA";
  }

  /** The local path the tests expect from testB back to the root. */
  lemma TestBToRoot(root: string)
    requires root != []
    ensures Rel(TestB(root), root).Success? && LocalPath(Rel(TestB(root), root).value) == "../"
  {
    Names(root);
    RelToParent(root, "testB");
  }

  /**
   * A module of a test repository. The go.mod location is left empty: no
   * lemma below reads it.
   */
  function Module(path: string, require: seq<string>, replace: seq<Replace>): ModuleInfo {
    ModuleInfo(ModFile(path, require, replace), "", {})
  }

  /** testSimple: the root requires testA, testA requires testB. */
  function SimpleRepo(root: string): ModuleMap {
    map[root := Module(root, [TestA(root)], []),
        TestA(root) := Module(TestA(root), [TestB(root)], []),
        TestB(root) := Module(TestB(root), [], [])]
  }

  /** testCyclic: as testSimple, and testB requires the root. */
  function CyclicRepo(root: string): ModuleMap {
    map[root := Module(root, [TestA(root)], []),
        TestA(root) := Module(TestA(root), [TestB(root)], []),
        TestB(root) := Module(TestB(root), [root], [])]
  }

  /** In testSimple the root needs testA directly and testB through testA; testA needs testB; testB none. */
  lemma SimpleRequiredSets(root: string, sRoot: set<string>, sA: set<string>, sB: set<string>)
    requires root != []
    requires IsRequiredSet(SimpleRepo(root), root, SimpleRepo(root)[root].contents, sRoot)
    requires IsRequiredSet(SimpleRepo(root), root, SimpleRepo(root)[TestA(root)].contents, sA)
    requires IsRequiredSet(SimpleRepo(root), root, SimpleRepo(root)[TestB(root)].contents, sB)
    ensures sRoot == {TestA(root), TestB(root)} && sA == {TestB(root)} && sB == {}
  {
    var mm, a, b := SimpleRepo(root), TestA(root), TestB(root);
    Names(root);
    assert Requires(mm, a) == [b] && Requires(mm, b) == [];
    assert Seeded(mm, root, mm[root].contents, {a, b});
    assert ClosedInto(mm, root, root, {a, b}, {a, b});
    assert mm[root].contents.require[0] == a;
    RequiredTransitively(mm, root, mm[root].contents, sRoot, a, b);

    assert Seeded(mm, root, mm[a].contents, {b});
    assert ClosedInto(mm, root, a, {b}, {b});
    assert mm[a].contents.require[0] == b;

    assert Seeded(mm, root, mm[b].contents, {});
    assert ClosedInto(mm, root, b, {}, {});
  }

  /**
   * In testCyclic each module needs the other two: the search ends although
   * the requirements form a cycle, and a module never needs itself.
   */
  lemma CyclicRequiredSets(root: string, sRoot: set<string>, sA: set<string>, sB: set<string>)
    requires root != []
    requires IsRequiredSet(CyclicRepo(root), root, CyclicRepo(root)[root].contents, sRoot)
    requires IsRequiredSet(CyclicRepo(root), root, CyclicRepo(root)[TestA(root)].contents, sA)
    requires IsRequiredSet(CyclicRepo(root), root, CyclicRepo(root)[TestB(root)].contents, sB)
    ensures sRoot == {TestA(root), TestB(root)} && sA == {TestB(root), root} && sB == {TestA(root), root}
  {
    var mm, a, b := CyclicRepo(root), TestA(root), TestB(root);
    Names(root);
    assert Requires(mm, root) == [a] && Requires(mm, a) == [b] && Requires(mm, b) == [root];

    assert Seeded(mm, root, mm[root].contents, {a, b});
    assert ClosedInto(mm, root, root, {a, b}, {a, b});
    assert mm[root].contents.require[0] == a;
    RequiredTransitively(mm, root, mm[root].contents, sRoot, a, b);

    assert Seeded(mm, root, mm[a].contents, {b, root});
    assert ClosedInto(mm, root, a, {b, root}, {b, root});
    assert mm[a].contents.require[0] == b;
    RequiredTransitively(mm, root, mm[a].contents, sA, b, root);

    assert Seeded(mm, root, mm[b].contents, {a, root});
    assert ClosedInto(mm, root, b, {a, root}, {a, root});
    assert mm[b].contents.require[0] == root;
    RequiredTransitively(mm, root, mm[b].contents, sB, root, a);
  }

  /** testSimple's root: both replaces are inserted with the computed local paths. */
  lemma SimpleRootInserted(root: string, after: ModuleInfo)
    requires root != []
    requires Inserted(Module(root, [TestA(root)], []).(required := {TestA(root), TestB(root)}),
                      RunConfig({}, false, false, true), after)
    ensures Entries(after.contents.replace, TestA(root)) == [Replace(TestA(root), "./testA")]
    ensures Entries(after.contents.replace, TestB(root)) == [Replace(TestB(root), "./testB")]
  {
    RootToChildren(root);
  }

  /** testSimple's testA: its one required module, testB, is replaced by "../testB". */
  lemma SimpleTestAInserted(root: string, after: ModuleInfo)
    requires root != []
    requires Inserted(Module(TestA(root), [TestB(root)], []).(required := {TestB(root)}),
                      RunConfig({}, false, false, true), after)
    ensures Entries(after.contents.replace, TestB(root)) == [Replace(TestB(root), "../testB")]
  {
    TestAToTestB(root);
  }

  /**
   * testCyclic's testA and testB: each gets a replace for the other and one
   * for the root, "../". The root's own result is that of testSimple.
   */
  lemma CyclicInserted(root: string, afterA: ModuleInfo, afterB: ModuleInfo)
    requires root != []
    requires Inserted(Module(TestA(root), [TestB(root)], []).(required := {TestB(root), root}),
                      RunConfig({}, false, false, true), afterA)
    requires Inserted(Module(TestB(root), [root], []).(required := {TestA(root), root}),
                      RunConfig({}, false, false, true), afterB)
    ensures Entries(afterA.contents.replace, TestB(root)) == [Replace(TestB(root), "../testB")]
    ensures Entries(afterA.contents.replace, root) == [Replace(root, "../")]
    ensures Entries(afterB.contents.replace, TestA(root)) == [Replace(TestA(root), "../testA")]
    ensures Entries(afterB.contents.replace, root) == [Replace(root, "../")]
  {
    TestAToTestB(root);
    TestAToRoot(root);
    TestBToTestA(root);
    TestBToRoot(root);
  }

  /**
   * testNoOverwrite and testOverwrite: the root already points testA at
   * "../testA"; that entry stays without overwrite and becomes "./testA" with it.
   */
  lemma OverwriteScenario(root: string, overwrite: bool, after: ModuleInfo)
    requires root != []
    requires Inserted(Module(root, [TestA(root)], [Replace(TestA(root), "../testA")]).(required := {TestA(root), TestB(root)}),
                      RunConfig({}, overwrite, false, true), after)
    ensures !overwrite ==> Entries(after.contents.replace, TestA(root)) == [Replace(TestA(root), "../testA")]
    ensures overwrite ==> Entries(after.contents.replace, TestA(root)) == [Replace(TestA(root), "./testA")]
    ensures Entries(after.contents.replace, TestB(root)) == [Replace(TestB(root), "./testB")]
  {
    var reps := [Replace(TestA(root), "../testA")];
    RootToChildren(root);
    Names(root);
    assert reps[0].oldPath == TestA(root);
    assert HasReplace(reps, TestA(root));
    assert Entries(reps, TestA(root)) == [Replace(TestA(root), "../testA")];
    assert !HasReplace(reps, TestB(root));
    assert Entries(reps, TestB(root)) == [];
  }

  /**
   * Exclusion (crosslink.go:69-75), on the repository of testExclude: with
   * testA and testB excluded, the root's existing "../testA" stays and no
   * replace for testB appears, with or without overwrite. The lemma rests
   * on the source lines, not on that test, whose run configuration sets no
   * root directory.
   */
  lemma ExcludeScenario(root: string, overwrite: bool, after: ModuleInfo)
    requires root != []
    requires Inserted(Module(root, [TestA(root)], [Replace(TestA(root), "../testA")]).(required := {TestA(root), TestB(root)}),
                      RunConfig({TestA(root), TestB(root)}, overwrite, true, true), after)
    ensures Entries(after.contents.replace, TestA(root)) == [Replace(TestA(root), "../testA")]
    ensures Entries(after.contents.replace, TestB(root)) == []
  {
    var reps := [Replace(TestA(root), "../testA")];
    Names(root);
    assert Entries(reps, TestA(root)) == [Replace(TestA(root), "../testA")];
    assert Entries(reps, TestB(root)) == [];
  }
}
