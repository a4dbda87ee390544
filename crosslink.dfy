/**
 * The replace reconciler of crosslink.go: find an existing replace for a
 * module path, insert or overwrite the local replaces a module needs, and the
 * per-module run insert, prune, write.
 */
module Crosslink {
  import opened Wrappers
  import opened Paths
  import opened Manifest
  import opened Graph

  /** Why a run stops. */
  datatype Error =
    | RelFailed(rel: RelError)   // filepath.Rel refused a required module path
    | PruneFailed(msg: string)   // reported by pruneReplace
    | WriteFailed(msg: string)   // reported by writeModule

  /**
   * containsReplace (crosslink.go:122-129): a linear search that returns the
   * first replace whose old path is `modName`, or nothing when none matches.
   */
  method ContainsReplace(replaceStatements: seq<Replace>, modName: string) returns (rep: Option<Replace>)
    ensures rep.None? <==> !HasReplace(replaceStatements, modName)
    ensures rep.Some? ==> rep.value in replaceStatements && rep.value.oldPath == modName
    ensures rep.Some? ==> Entries(replaceStatements, modName) != [] && rep.value == Entries(replaceStatements, modName)[0]
  {
    for i := 0 to |replaceStatements|
      invariant Entries(replaceStatements[..i], modName) == []
      invariant forall j :: 0 <= j < i ==> replaceStatements[j].oldPath != modName
    {
      assert replaceStatements[..i + 1] == replaceStatements[..i] + [replaceStatements[i]];
      EntriesAppend(replaceStatements[..i], [replaceStatements[i]], modName);
      if replaceStatements[i].oldPath == modName {
        assert replaceStatements == replaceStatements[..i + 1] + replaceStatements[i + 1..];
        EntriesAppend(replaceStatements[..i + 1], replaceStatements[i + 1..], modName);
        return Some(replaceStatements[i]);
      }
    }
    return None;
  }

  /**
   * The module paths insertReplace points at a local path: required, not
   * excluded, and either without a replace yet or to be overwritten.
   */
  predicate Redirects(m: ModFile, required: set<string>, rc: RunConfig, name: string) {
    name in required && name !in rc.excluded && (rc.overwrite || !HasReplace(m.replace, name))
  }

  /**
   * The replace entries `reps` are what insertReplace has made of the
   * module's own once every required path outside `todo` is handled: a
   * redirected module path has exactly one entry, pointing at the normalised
   * relative path from this module to it; every other module path keeps
   * exactly the entries it had.
   */
  ghost predicate InsertedSoFar(info: ModuleInfo, rc: RunConfig, todo: set<string>, reps: seq<Replace>) {
    && todo <= info.required
    && (forall n :: n in info.required && n !in todo && n !in rc.excluded ==> Rel(info.contents.path, n).Success?)
    && forall n {:trigger Entries(reps, n)} :: Entries(reps, n) ==
         if n !in todo && Redirects(info.contents, info.required, rc, n)
         then [Replace(n, LocalPath(Rel(info.contents.path, n).value))]
         else Entries(info.contents.replace, n)
  }

  /**
   * `after` is what a successful insertReplace makes of `before`: only the
   * replace entries change, and every required path has been handled.
   */
  ghost predicate Inserted(before: ModuleInfo, rc: RunConfig, after: ModuleInfo) {
    && after.filePath == before.filePath
    && after.required == before.required
    && after.contents.path == before.contents.path
    && after.contents.require == before.contents.require
    && InsertedSoFar(before, rc, {}, after.contents.replace)
  }

  /** insertReplace fails with `e`: Rel refused a required, non-excluded module path. */
  ghost predicate InsertFails(before: ModuleInfo, rc: RunConfig, e: Error) {
    && e.RelFailed?
    && e.rel.targ in before.required
    && e.rel.targ !in rc.excluded
    && Rel(before.contents.path, e.rel.targ) == Failure(e.rel)
  }

  /** Handling a path without touching the entries: it is excluded, or kept without overwrite. */
  lemma SkipStep(info: ModuleInfo, rc: RunConfig, todo: set<string>, reps: seq<Replace>, r: string)
    requires InsertedSoFar(info, rc, todo, reps) && r in todo
    requires r in rc.excluded || (Rel(info.contents.path, r).Success? && !rc.overwrite && HasReplace(reps, r))
    ensures InsertedSoFar(info, rc, todo - {r}, reps)
  {
    if r !in rc.excluded {
      HasReplaceEntries(reps, r);
      HasReplaceEntries(info.contents.replace, r);
    }
  }

  /** Handling a path by pointing it at its local path. */
  lemma AddStep(info: ModuleInfo, rc: RunConfig, todo: set<string>, reps: seq<Replace>, r: string)
    requires InsertedSoFar(info, rc, todo, reps) && r in todo
    requires r !in rc.excluded && Rel(info.contents.path, r).Success? && (rc.overwrite || !HasReplace(reps, r))
    ensures InsertedSoFar(info, rc, todo - {r}, AddReplace(reps, r, LocalPath(Rel(info.contents.path, r).value)))
  {
    HasReplaceEntries(reps, r);
    HasReplaceEntries(info.contents.replace, r);
  }

  /**
   * insertReplace (crosslink.go:61-119): for every required module path in
   * any order, skip it when excluded, compute and normalise the relative
   * path between the two module paths, then insert a replace when none
   * exists, overwrite an existing one only when `overwrite` is set, and
   * otherwise leave it. A refused relative path aborts with an error.
   */
  method InsertReplace(info: ModuleInfo, rc: RunConfig) returns (res: Result<ModuleInfo, Error>)
    ensures res.Success? <==> forall n :: n in info.required && n !in rc.excluded ==> Rel(info.contents.path, n).Success?
    ensures res.Success? ==> Inserted(info, rc, res.value)
    ensures res.Failure? ==> InsertFails(info, rc, res.error)
  {
    var mfParsed := info.contents;
    var todo := info.required;
    while todo != {}
      invariant mfParsed.path == info.contents.path && mfParsed.require == info.contents.require
      invariant InsertedSoFar(info, rc, todo, mfParsed.replace)
      decreases |todo|
    {
      var reqModule :| reqModule in todo;
      if reqModule in rc.excluded {
        SkipStep(info, rc, todo, mfParsed.replace, reqModule);
        todo := todo - {reqModule};
        continue;
      }
      var rel := Rel(mfParsed.path, reqModule);
      if rel.Failure? {
        return Failure(RelFailed(rel.error));
      }
      var localPath := LocalPath(rel.value);
      var oldReplace := ContainsReplace(mfParsed.replace, reqModule);
      if oldReplace.Some? {
        if rc.overwrite {
          AddStep(info, rc, todo, mfParsed.replace, reqModule);
          mfParsed := mfParsed.(replace := AddReplace(mfParsed.replace, reqModule, localPath));
        } else {
          SkipStep(info, rc, todo, mfParsed.replace, reqModule);
        }
      } else {
        AddStep(info, rc, todo, mfParsed.replace, reqModule);
        mfParsed := mfParsed.(replace := AddReplace(mfParsed.replace, reqModule, localPath));
      }
      todo := todo - {reqModule};
    }
    return Success(info.(contents := mfParsed));
  }

  // ---------------------------------------------------------------------
  // Consequences of the insert contract.

  /** An excluded module path keeps exactly the replace entries it had. */
  lemma ExcludedUntouched(before: ModuleInfo, rc: RunConfig, after: ModuleInfo, n: string)
    requires Inserted(before, rc, after) && n in rc.excluded
    ensures Entries(after.contents.replace, n) == Entries(before.contents.replace, n)
  {
  }

  /** A module path outside the required set keeps exactly the replace entries it had. */
  lemma UnrequiredUntouched(before: ModuleInfo, rc: RunConfig, after: ModuleInfo, n: string)
    requires Inserted(before, rc, after) && n !in before.required
    ensures Entries(after.contents.replace, n) == Entries(before.contents.replace, n)
  {
  }

  /** Without a replace, a required, non-excluded module path gets one, whatever `overwrite` says. */
  lemma MissingInserted(before: ModuleInfo, rc: RunConfig, after: ModuleInfo, n: string)
    requires Inserted(before, rc, after)
    requires n in before.required && n !in rc.excluded && !HasReplace(before.contents.replace, n)
    ensures Rel(before.contents.path, n).Success?
    ensures Entries(after.contents.replace, n) == [Replace(n, LocalPath(Rel(before.contents.path, n).value))]
  {
  }

  /** An existing replace is left alone unless `overwrite` is set, and then points at the computed path. */
  lemma ExistingKeptOrOverwritten(before: ModuleInfo, rc: RunConfig, after: ModuleInfo, n: string)
    requires Inserted(before, rc, after)
    requires n in before.required && n !in rc.excluded && HasReplace(before.contents.replace, n)
    ensures !rc.overwrite ==> Entries(after.contents.replace, n) == Entries(before.contents.replace, n)
    ensures rc.overwrite ==> Entries(after.contents.replace, n) == [Replace(n, LocalPath(Rel(before.contents.path, n).value))]
  {
  }

  /**
   * Fixed point: inserting again with the same configuration changes no
   * replace entry.
   */
  lemma InsertIdempotent(a: ModuleInfo, rc: RunConfig, b: ModuleInfo, c: ModuleInfo)
    requires Inserted(a, rc, b) && Inserted(b, rc, c)
    ensures forall n :: Entries(c.contents.replace, n) == Entries(b.contents.replace, n)
  {
    forall n ensures Entries(c.contents.replace, n) == Entries(b.contents.replace, n) {
      if Redirects(b.contents, b.required, rc, n) && !rc.overwrite {
        HasReplaceEntries(a.contents.replace, n);
        HasReplaceEntries(b.contents.replace, n);
        assert false;
      }
    }
  }

  /**
   * The order in which insertReplace visits the required set decides only
   * the order of the new entries in the file: every module path ends with the
   * same entries.
   */
  lemma InsertOrderFree(before: ModuleInfo, rc: RunConfig, b: ModuleInfo, c: ModuleInfo)
    requires Inserted(before, rc, b) && Inserted(before, rc, c)
    ensures forall n :: Entries(b.contents.replace, n) == Entries(c.contents.replace, n)
  {
    forall n ensures Entries(b.contents.replace, n) == Entries(c.contents.replace, n) {
      assert Entries(b.contents.replace, n) == Entries(before.contents.replace, n)
        || Redirects(before.contents, before.required, rc, n);
    }
  }

  /**
   * On a repository whose go.mod files all declare module paths, insertion
   * never fails: from every module, Rel succeeds on every path it requires.
   */
  lemma InsertSucceedsOnModulePaths(found: seq<FoundManifest>, root: string, graph: ModuleMap, p: string, rc: RunConfig)
    requires IsDependencyGraph(found, root, graph)
    requires forall i :: 0 <= i < |found| ==> IsModulePath(found[i].contents.path)
    requires p in graph
    ensures forall n :: n in graph[p].required && n !in rc.excluded ==> Rel(graph[p].contents.path, n).Success?
  {
    LastDeclaringFinds(found, p);
    forall n | n in graph[p].required && n !in rc.excluded ensures Rel(graph[p].contents.path, n).Success? {
      assert Qualifies(graph, root, graph[p].contents.path, n);
      LastDeclaringFinds(found, n);
      RelSucceeds(graph[p].contents.path, n);
    }
  }

  /** The same, as the run sees it: no error is an insert failure of such a module. */
  lemma InsertNeverFails(found: seq<FoundManifest>, root: string, graph: ModuleMap, p: string, rc: RunConfig, e: Error)
    requires IsDependencyGraph(found, root, graph)
    requires forall i :: 0 <= i < |found| ==> IsModulePath(found[i].contents.path)
    requires p in graph
    ensures !InsertFails(graph[p], rc, e)
  {
    InsertSucceedsOnModulePaths(found, root, graph, p, rc);
  }

  // ---------------------------------------------------------------------
  // The run.

  /** pruneReplace is not part of this model: it is given as a parameter. */
  type Pruner = (string, ModuleInfo, RunConfig) -> Result<ModuleInfo, Error>

  /** writeModule: whether writing a module's manifest to its file succeeds. */
  type Writer = ModuleInfo -> Outcome<Error>

  /** `info` went through insert (giving `ins`), prune and write, and `w` was written. */
  ghost predicate Processed(root: string, rc: RunConfig, prune: Pruner, write: Writer,
                            info: ModuleInfo, ins: ModuleInfo, w: ModuleInfo) {
    && Inserted(info, rc, ins)
    && prune(root, ins, rc) == Success(w)
    && write(w) == Pass
  }

  /** After insertion, pruning or writing module `ins` fails with `e`. */
  ghost predicate PruneOrWriteFails(root: string, rc: RunConfig, prune: Pruner, write: Writer, ins: ModuleInfo, e: Error) {
    match prune(root, ins, rc)
    case Failure(pe) => pe == e
    case Success(w) => write(w) == Fail(e)
  }

  /**
   * Processing `info` failed with `e`: at the insert step (no insert result),
   * or after inserting `ins`, at the prune or the write step.
   */
  ghost predicate FailedAt(root: string, rc: RunConfig, prune: Pruner, write: Writer,
                           info: ModuleInfo, ins: Option<ModuleInfo>, e: Error) {
    match ins
    case None => InsertFails(info, rc, e)
    case Some(i) => Inserted(info, rc, i) && PruneOrWriteFails(root, rc, prune, write, i, e)
  }

  /**
   * One pass of the loop in Crosslink (crosslink.go:38-54): insert, then
   * prune, then write; each step works on the result of the one before, and
   * an error stops the module. `ins` is the insert result, when there is one.
   */
  method ProcessModule(root: string, info: ModuleInfo, rc: RunConfig, prune: Pruner, write: Writer)
    returns (w: ModuleInfo, outcome: Outcome<Error>, ins: Option<ModuleInfo>)
    ensures outcome.Pass? ==> ins.Some? && Processed(root, rc, prune, write, info, ins.value, w)
    ensures outcome.Fail? ==> FailedAt(root, rc, prune, write, info, ins, outcome.error)
  {
    w, ins := info, None;
    var r := InsertReplace(info, rc);
    if r.Failure? {
      return w, Fail(r.error), ins;
    }
    ins := Some(r.value);
    var pruned := prune(root, r.value, rc);
    if pruned.Failure? {
      return w, Fail(pruned.error), ins;
    }
    w := pruned.value;
    outcome := write(w);
  }

  /** Every module taken up so far, in order, was inserted, pruned and written. */
  ghost predicate AllProcessed(root: string, rc: RunConfig, prune: Pruner, write: Writer, g: ModuleMap,
                               order: seq<string>, inserted: seq<ModuleInfo>, written: seq<ModuleInfo>) {
    && |written| == |inserted| <= |order|
    && (forall k :: k in order ==> k in g)
    && forall i :: 0 <= i < |written| ==> Processed(root, rc, prune, write, g[order[i]], inserted[i], written[i])
  }

  lemma AllProcessedStep(root: string, rc: RunConfig, prune: Pruner, write: Writer, g: ModuleMap,
                         order: seq<string>, inserted: seq<ModuleInfo>, written: seq<ModuleInfo>,
                         k: string, ins: ModuleInfo, w: ModuleInfo)
    requires AllProcessed(root, rc, prune, write, g, order, inserted, written) && |order| == |written|
    requires k in g && Processed(root, rc, prune, write, g[k], ins, w)
    ensures AllProcessed(root, rc, prune, write, g, order + [k], inserted + [ins], written + [w])
  {
    var o, n, ws := order + [k], inserted + [ins], written + [w];
    forall i | 0 <= i < |ws| ensures Processed(root, rc, prune, write, g[o[i]], n[i], ws[i]) {
      if i < |written| {
        assert o[i] == order[i] && n[i] == inserted[i] && ws[i] == written[i];
      }
    }
  }

  lemma AllProcessedTakeUp(root: string, rc: RunConfig, prune: Pruner, write: Writer, g: ModuleMap,
                           order: seq<string>, inserted: seq<ModuleInfo>, written: seq<ModuleInfo>, k: string)
    requires AllProcessed(root, rc, prune, write, g, order, inserted, written) && k in g
    ensures AllProcessed(root, rc, prune, write, g, order + [k], inserted, written)
  {
    var o := order + [k];
    forall i | 0 <= i < |written| ensures Processed(root, rc, prune, write, g[o[i]], inserted[i], written[i]) {
      assert o[i] == order[i];
    }
  }

  /**
   * The loop of Crosslink (crosslink.go:38-54): process the modules of `g` one
   * at a time in any order; the first error ends the loop, and what was
   * written before it stays written. `order` lists the modules taken up,
   * `inserted` the insert results of those written, and `failed` the insert
   * result of the module that failed, when it got that far.
   */
  method ProcessAll(root: string, rc: RunConfig, g: ModuleMap, prune: Pruner, write: Writer)
    returns (written: seq<ModuleInfo>, outcome: Outcome<Error>,
             order: seq<string>, inserted: seq<ModuleInfo>, failed: Option<ModuleInfo>)
    ensures NoDuplicates(order)
    ensures AllProcessed(root, rc, prune, write, g, order, inserted, written)
    ensures outcome.Pass? ==> |written| == |order| && forall k :: k in g ==> k in order
    ensures outcome.Fail? ==> |order| == |written| + 1 && FailedAt(root, rc, prune, write, g[order[|written|]], failed, outcome.error)
  {
    written, order, inserted, failed := [], [], [], None;
    var todo := g.Keys;
    while todo != {}
      invariant todo <= g.Keys
      invariant forall k :: k in g ==> (k in order <==> k !in todo)
      invariant NoDuplicates(order)
      invariant |order| == |written|
      invariant AllProcessed(root, rc, prune, write, g, order, inserted, written)
      decreases |todo|
    {
      var k :| k in todo;
      var w, result, ins := ProcessModule(root, g[k], rc, prune, write);
      if result.Fail? {
        AllProcessedTakeUp(root, rc, prune, write, g, order, inserted, written, k);
        order, failed, outcome := order + [k], ins, result;
        return;
      }
      AllProcessedStep(root, rc, prune, write, g, order, inserted, written, k, ins.value, w);
      order, inserted, written := order + [k], inserted + [ins.value], written + [w];
      todo := todo - {k};
    }
    outcome := Pass;
  }

  /**
   * Crosslink (crosslink.go:25-59) once the root module is known: build the
   * dependency graph, then insert, prune and write its modules one at a time
   * in any order. Every module is taken up at most once; every written module
   * went through all three steps; a pass covers every module, and a failure
   * stops at the module taken up last. When every go.mod declares a module
   * path, a failure comes from pruning or writing, never from insertion.
   */
  method Crosslink(rc: RunConfig, rootModulePath: string, found: seq<FoundManifest>, prune: Pruner, write: Writer)
    returns (written: seq<ModuleInfo>, outcome: Outcome<Error>, graph: ModuleMap,
             order: seq<string>, inserted: seq<ModuleInfo>, failed: Option<ModuleInfo>)
    ensures IsDependencyGraph(found, rootModulePath, graph)
    ensures NoDuplicates(order)
    ensures AllProcessed(rootModulePath, rc, prune, write, graph, order, inserted, written)
    ensures outcome.Pass? ==> |written| == |order| && forall k :: k in graph ==> k in order
    ensures outcome.Fail? ==>
              |order| == |written| + 1 && FailedAt(rootModulePath, rc, prune, write, graph[order[|written|]], failed, outcome.error)
    ensures outcome.Fail? && (forall i :: 0 <= i < |found| ==> IsModulePath(found[i].contents.path)) ==> failed.Some?
  {
    graph := BuildDependencyGraph(found, rootModulePath);
    written, outcome, order, inserted, failed := ProcessAll(rootModulePath, rc, graph, prune, write);
    if outcome.Fail? && forall i :: 0 <= i < |found| ==> IsModulePath(found[i].contents.path) {
      InsertNeverFails(found, rootModulePath, graph, order[|written|], rc, outcome.error);
    }
  }
}
