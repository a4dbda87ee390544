/**
 * The dependency graph builder of graph.go: the module map keyed by declared
 * module path, and per module the set of sibling modules that need a local
 * replace, computed with a stack and a visited set.
 */
module Graph {
  import opened Wrappers
  import opened Paths
  import opened Manifest

  /** A go.mod file the directory walk found: where it lives and what it declares. */
  datatype FoundManifest = FoundManifest(filePath: string, contents: ModFile)

  /** Declared module path to module record. */
  type ModuleMap = map<string, ModuleInfo>

  /** The record made for a freshly read go.mod: nothing required yet. */
  function NewModuleInfo(f: FoundManifest): ModuleInfo {
    ModuleInfo(f.contents, f.filePath, {})
  }

  /** The last manifest, in walk order, that declares `path`. */
  function LastDeclaring(found: seq<FoundManifest>, path: string): (r: Option<FoundManifest>)
    ensures r.Some? ==> r.value.contents.path == path
  {
    if found == [] then None
    else if found[|found| - 1].contents.path == path then Some(found[|found| - 1])
    else LastDeclaring(found[..|found| - 1], path)
  }

  /** A manifest declaring `path` exists exactly when LastDeclaring finds one, and it is among the found ones. */
  lemma {:induction false} LastDeclaringFinds(found: seq<FoundManifest>, path: string)
    ensures LastDeclaring(found, path).Some? <==> exists i :: 0 <= i < |found| && found[i].contents.path == path
    ensures LastDeclaring(found, path).Some? ==> LastDeclaring(found, path).value in found
  {
    if found != [] {
      var init := found[..|found| - 1];
      LastDeclaringFinds(init, path);
      if exists i :: 0 <= i < |init| && init[i].contents.path == path {
        var i :| 0 <= i < |init| && init[i].contents.path == path;
        assert found[i].contents.path == path;
      }
      if found[|found| - 1].contents.path != path && exists i :: 0 <= i < |found| && found[i].contents.path == path {
        var i :| 0 <= i < |found| && found[i].contents.path == path;
        assert init[i].contents.path == path;
      }
    }
  }

  /**
   * The walk callback of graph.go:41-45, applied to the manifests in walk
   * order: each one is stored under its declared module path, so a later
   * manifest with the same path replaces an earlier one.
   */
  method BuildModuleMap(found: seq<FoundManifest>) returns (moduleMap: ModuleMap)
    ensures forall p :: p in moduleMap <==> LastDeclaring(found, p).Some?
    ensures forall p :: p in moduleMap ==> moduleMap[p] == NewModuleInfo(LastDeclaring(found, p).value)
  {
    moduleMap := map[];
    for i := 0 to |found|
      invariant forall p :: p in moduleMap <==> LastDeclaring(found[..i], p).Some?
      invariant forall p :: p in moduleMap ==> moduleMap[p] == NewModuleInfo(LastDeclaring(found[..i], p).value)
    {
      assert found[..i + 1][..i] == found[..i];
      moduleMap := moduleMap[found[i].contents.path := NewModuleInfo(found[i])];
    }
    assert found[..|found|] == found;
  }

  /** Every key of the module map is the declared path of its own manifest. */
  ghost predicate KeyedByPath(mm: ModuleMap) {
    forall p :: p in mm ==> mm[p].contents.path == p
  }

  lemma BuildModuleMapKeyedByPath(found: seq<FoundManifest>, mm: ModuleMap)
    requires forall p :: p in mm <==> LastDeclaring(found, p).Some?
    requires forall p :: p in mm ==> mm[p] == NewModuleInfo(LastDeclaring(found, p).value)
    ensures KeyedByPath(mm)
    ensures forall i :: 0 <= i < |found| ==> found[i].contents.path in mm
  {
    forall i | 0 <= i < |found| ensures found[i].contents.path in mm {
      LastDeclaringFinds(found, found[i].contents.path);
    }
  }

  // ---------------------------------------------------------------------
  // The required set of one module.

  /**
   * The three filters of graph.go:79-80 and 103-105: the name contains the
   * root module path, is not the module being processed, and was discovered.
   */
  predicate Qualifies(mm: ModuleMap, root: string, self: string, name: string) {
    Contains(name, root) && name != self && name in mm
  }

  /** The requirements of a discovered module; none for an unknown name. */
  function Requires(mm: ModuleMap, name: string): seq<string> {
    if name in mm then mm[name].contents.require else []
  }

  /** Every qualifying direct requirement of the module is in `s`. */
  ghost predicate Seeded(mm: ModuleMap, root: string, m: ModFile, s: set<string>) {
    forall i :: 0 <= i < |m.require| && Qualifies(mm, root, m.path, m.require[i]) ==> m.require[i] in s
  }

  /** Every qualifying requirement of a member of `from` is in `into`. */
  ghost predicate ClosedInto(mm: ModuleMap, root: string, self: string, from: set<string>, into: set<string>) {
    forall x, i :: x in from && 0 <= i < |Requires(mm, x)| && Qualifies(mm, root, self, Requires(mm, x)[i]) ==>
      Requires(mm, x)[i] in into
  }

  /** Every member of `s` passes the three filters. */
  ghost predicate AllQualify(mm: ModuleMap, root: string, self: string, s: set<string>) {
    forall x :: x in s ==> Qualifies(mm, root, self, x)
  }

  /**
   * `s` is the required set of the module `m`: the least set that holds its
   * qualifying direct requirements and is closed under qualifying
   * requirements of its members. Every member qualifies.
   */
  ghost predicate IsRequiredSet(mm: ModuleMap, root: string, m: ModFile, s: set<string>) {
    && AllQualify(mm, root, m.path, s)
    && Seeded(mm, root, m, s)
    && ClosedInto(mm, root, m.path, s, s)
    && forall t :: Seeded(mm, root, m, t) && ClosedInto(mm, root, m.path, t, t) ==> s <= t
  }

  ghost predicate NoDuplicates(s: seq<string>) {
    forall i, j :: 0 <= i < j < |s| ==> s[i] != s[j]
  }

  lemma ClosedStep(mm: ModuleMap, root: string, self: string, t: set<string>, x: string, y: string)
    requires ClosedInto(mm, root, self, t, t) && x in t
    requires y in Requires(mm, x) && Qualifies(mm, root, self, y)
    ensures y in t
  {
  }

  lemma {:induction false} SubsetSize(a: set<string>, b: set<string>)
    requires a <= b
    ensures |a| <= |b|
    decreases |b|
  {
    if a != {} {
      var x :| x in a;
      SubsetSize(a - {x}, b - {x});
    }
  }

  /** Inserting a new name shrinks the part of the module map not yet inserted. */
  lemma FewerUnvisited(keys: set<string>, visited: set<string>, more: set<string>)
    requires visited <= more <= keys && visited != more
    ensures |keys - more| < |keys - visited|
  {
    var x :| x in more && x !in visited;
    SubsetSize(keys - more, (keys - visited) - {x});
  }

  lemma NoDuplicatesAppend(a: seq<string>, b: seq<string>)
    requires NoDuplicates(a) && NoDuplicates(b)
    requires forall x :: x in b ==> x !in a
    ensures NoDuplicates(a + b)
  {
    forall i, j | 0 <= i < j < |a + b| ensures (a + b)[i] != (a + b)[j] {
      if i < |a| && j >= |a| {
        assert (a + b)[j] in b;
      }
    }
  }

  /**
   * Seeding, graph.go:78-84: push every qualifying direct requirement and
   * mark it inserted. The visited set is not consulted here, so a
   * requirement listed twice is pushed twice.
   */
  method SeedStack(mm: ModuleMap, root: string, m: ModFile) returns (reqStack: seq<string>, inserted: set<string>)
    ensures forall x :: x in inserted <==> x in reqStack
    ensures AllQualify(mm, root, m.path, inserted)
    ensures Seeded(mm, root, m, inserted)
    ensures forall t :: Seeded(mm, root, m, t) ==> inserted <= t
    ensures NoDuplicates(m.require) ==> NoDuplicates(reqStack)
  {
    reqStack, inserted := [], {};
    for i := 0 to |m.require|
      invariant forall x :: x in inserted <==> x in reqStack
      invariant AllQualify(mm, root, m.path, inserted)
      invariant forall j :: 0 <= j < i && Qualifies(mm, root, m.path, m.require[j]) ==> m.require[j] in inserted
      invariant forall x :: x in reqStack ==> x in m.require[..i]
      invariant forall x :: x in reqStack ==> Qualifies(mm, root, m.path, x)
      invariant NoDuplicates(m.require[..i]) ==> NoDuplicates(reqStack)
    {
      var req := m.require[i];
      assert m.require[..i + 1] == m.require[..i] + [req];
      if Contains(req, root) && req != m.path && req in mm {
        reqStack := reqStack + [req];
        inserted := inserted + {req};
      }
    }
    assert m.require[..|m.require|] == m.require;
    forall t | Seeded(mm, root, m, t) ensures inserted <= t {
      forall x | x in inserted ensures x in t {
        var j :| 0 <= j < |m.require| && m.require[j] == x;
      }
    }
  }

  /**
   * The transitive step, graph.go:100-109: push every requirement of the
   * popped module that qualifies and is not yet inserted, marking it
   * inserted. `added` is what was pushed.
   */
  method PushTransitive(mm: ModuleMap, root: string, self: string, trans: seq<string>,
                        reqStack: seq<string>, inserted: set<string>)
    returns (reqStack': seq<string>, inserted': set<string>, ghost added: seq<string>)
    ensures reqStack' == reqStack + added
    ensures forall x :: x in inserted' <==> x in inserted || x in added
    ensures forall x :: x in added ==> x in trans && Qualifies(mm, root, self, x) && x !in inserted
    ensures NoDuplicates(added)
    ensures forall k :: 0 <= k < |trans| && Qualifies(mm, root, self, trans[k]) ==> trans[k] in inserted'
  {
    reqStack', inserted', added := reqStack, inserted, [];
    for j := 0 to |trans|
      invariant reqStack' == reqStack + added
      invariant forall x :: x in inserted' <==> x in inserted || x in added
      invariant forall x :: x in added ==> x in trans[..j] && Qualifies(mm, root, self, x) && x !in inserted
      invariant NoDuplicates(added)
      invariant forall k :: 0 <= k < j && Qualifies(mm, root, self, trans[k]) ==> trans[k] in inserted'
    {
      var transReq := trans[j];
      assert trans[..j + 1] == trans[..j] + [transReq];
      if transReq != self && Contains(transReq, root) && transReq !in inserted' && transReq in mm {
        reqStack' := reqStack' + [transReq];
        inserted' := inserted' + {transReq};
        added := added + [transReq];
      }
    }
    assert trans[..|trans|] == trans;
  }

  /**
   * The state of the search for the module `m` between two pops: a name is
   * inserted exactly when it was popped into `required` or waits on the
   * stack, and exactly when it was pushed; every inserted name qualifies and
   * lies in every seeded, closed set; the requirements of a popped name are
   * all inserted.
   */
  ghost predicate SearchState(mm: ModuleMap, root: string, m: ModFile, required: set<string>,
                              reqStack: seq<string>, inserted: set<string>, pushed: seq<string>) {
    && (forall x :: x in inserted <==> x in required || x in reqStack)
    && (forall x :: x in pushed <==> x in inserted)
    && AllQualify(mm, root, m.path, inserted)
    && Seeded(mm, root, m, inserted)
    && ClosedInto(mm, root, m.path, required, inserted)
    && (forall t :: Seeded(mm, root, m, t) && ClosedInto(mm, root, m.path, t, t) ==> inserted <= t)
    && (NoDuplicates(m.require) ==> NoDuplicates(pushed))
  }

  /** Popping `r` and pushing `added`, its qualifying requirements not yet inserted, keeps the search state. */
  lemma PopStep(mm: ModuleMap, root: string, m: ModFile, required: set<string>, reqStack: seq<string>,
                inserted: set<string>, pushed: seq<string>, r: string, added: seq<string>, inserted': set<string>)
    requires SearchState(mm, root, m, required, reqStack, inserted, pushed)
    requires |reqStack| > 0 && r == reqStack[|reqStack| - 1]
    requires forall x :: x in inserted' <==> x in inserted || x in added
    requires forall x :: x in added ==> x in Requires(mm, r) && Qualifies(mm, root, m.path, x) && x !in inserted
    requires NoDuplicates(added)
    requires forall k :: 0 <= k < |Requires(mm, r)| && Qualifies(mm, root, m.path, Requires(mm, r)[k]) ==> Requires(mm, r)[k] in inserted'
    ensures SearchState(mm, root, m, required + {r}, reqStack[..|reqStack| - 1] + added, inserted', pushed + added)
  {
    assert reqStack == reqStack[..|reqStack| - 1] + [r];
    forall t | Seeded(mm, root, m, t) && ClosedInto(mm, root, m.path, t, t) ensures inserted' <= t {
      forall y | y in added ensures y in t {
        ClosedStep(mm, root, m.path, t, r, y);
      }
    }
    if NoDuplicates(m.require) {
      NoDuplicatesAppend(pushed, added);
    }
  }

  /**
   * The loop body of graph.go:57-111 for the module `m`: seed a stack with
   * the qualifying direct requirements, then pop names into the required set
   * and push each popped module's qualifying requirements not yet inserted.
   * `pushed` records every push in order; it holds no name twice when the
   * module lists no requirement twice.
   */
  method RequiredReplaces(mm: ModuleMap, root: string, m: ModFile) returns (required: set<string>, ghost pushed: seq<string>)
    ensures IsRequiredSet(mm, root, m, required)
    ensures forall x :: x in pushed <==> x in required
    ensures NoDuplicates(m.require) ==> NoDuplicates(pushed)
  {
    var self := m.path;
    var reqStack, inserted := SeedStack(mm, root, m);
    pushed := reqStack;
    required := {};
    while |reqStack| > 0
      invariant SearchState(mm, root, m, required, reqStack, inserted, pushed)
      invariant inserted <= mm.Keys
      decreases |mm.Keys - inserted|, |reqStack|
    {
      ghost var inserted0 := inserted;
      var reqModule := reqStack[|reqStack| - 1];
      var trans: seq<string> := [];
      if reqModule in mm {
        trans := mm[reqModule].contents.require;
      }
      ghost var added;
      var reqStack', inserted';
      reqStack', inserted', added := PushTransitive(mm, root, self, trans, reqStack[..|reqStack| - 1], inserted);
      PopStep(mm, root, m, required, reqStack, inserted, pushed, reqModule, added, inserted');
      required := required + {reqModule};
      pushed := pushed + added;
      reqStack, inserted := reqStack', inserted';
      if added != [] {
        assert added[0] in inserted && added[0] !in inserted0;
        FewerUnvisited(mm.Keys, inserted0, inserted);
      } else {
        assert inserted == inserted0;
      }
    }
  }

  // ---------------------------------------------------------------------
  // The whole graph.

  /** Two module maps with the same keys and manifests. */
  ghost predicate SameManifests(a: ModuleMap, b: ModuleMap) {
    a.Keys == b.Keys && forall p :: p in a ==> a[p].contents == b[p].contents
  }

  /** IsRequiredSet reads only the keys and the manifests of the map. */
  lemma RequiredSetOnManifests(a: ModuleMap, b: ModuleMap, root: string, m: ModFile, s: set<string>)
    requires SameManifests(a, b)
    ensures IsRequiredSet(a, root, m, s) <==> IsRequiredSet(b, root, m, s)
  {
    assert forall x :: Requires(a, x) == Requires(b, x);
    assert forall x :: Qualifies(a, root, m.path, x) == Qualifies(b, root, m.path, x);
    assert forall t :: Seeded(a, root, m, t) == Seeded(b, root, m, t);
    assert forall t :: ClosedInto(a, root, m.path, t, t) == ClosedInto(b, root, m.path, t, t);
  }

  /**
   * What buildDepedencyGraph returns for the manifests `found`: one record
   * per declared module path, from the last manifest declaring it, whose
   * required set is that module's required set.
   */
  ghost predicate IsDependencyGraph(found: seq<FoundManifest>, root: string, graph: ModuleMap) {
    && (forall p :: p in graph <==> LastDeclaring(found, p).Some?)
    && (forall p :: p in graph ==>
          && graph[p].contents == LastDeclaring(found, p).value.contents
          && graph[p].filePath == LastDeclaring(found, p).value.filePath
          && IsRequiredSet(graph, root, graph[p].contents, graph[p].required))
  }

  /**
   * `graph` is the module map with the required set filled in for every
   * module outside `todo`.
   */
  ghost predicate GraphSoFar(moduleMap: ModuleMap, root: string, graph: ModuleMap, todo: set<string>) {
    && todo <= moduleMap.Keys
    && SameManifests(graph, moduleMap)
    && (forall p :: p in graph ==> graph[p].filePath == moduleMap[p].filePath)
    && forall p :: p in graph && p !in todo ==> IsRequiredSet(moduleMap, root, moduleMap[p].contents, graph[p].required)
  }

  lemma GraphStep(moduleMap: ModuleMap, root: string, graph: ModuleMap, todo: set<string>, p: string, req: set<string>)
    requires GraphSoFar(moduleMap, root, graph, todo) && p in todo
    requires IsRequiredSet(moduleMap, root, moduleMap[p].contents, req)
    ensures GraphSoFar(moduleMap, root, graph[p := graph[p].(required := req)], todo - {p})
  {
  }

  lemma GraphDone(found: seq<FoundManifest>, root: string, moduleMap: ModuleMap, graph: ModuleMap)
    requires forall p :: p in moduleMap <==> LastDeclaring(found, p).Some?
    requires forall p :: p in moduleMap ==> moduleMap[p] == NewModuleInfo(LastDeclaring(found, p).value)
    requires GraphSoFar(moduleMap, root, graph, {})
    ensures IsDependencyGraph(found, root, graph)
    ensures KeyedByPath(graph)
  {
    BuildModuleMapKeyedByPath(found, moduleMap);
    forall p | p in graph ensures IsRequiredSet(graph, root, graph[p].contents, graph[p].required) {
      RequiredSetOnManifests(moduleMap, graph, root, graph[p].contents, graph[p].required);
    }
  }

  /**
   * buildDepedencyGraph (graph.go:27-115) after the walk: build the module
   * map, then compute every module's required set, in any order.
   */
  method BuildDependencyGraph(found: seq<FoundManifest>, root: string) returns (graph: ModuleMap)
    ensures IsDependencyGraph(found, root, graph)
    ensures KeyedByPath(graph)
  {
    var moduleMap := BuildModuleMap(found);
    graph := moduleMap;
    var todo := moduleMap.Keys;
    while todo != {}
      invariant GraphSoFar(moduleMap, root, graph, todo)
      decreases |todo|
    {
      var p :| p in todo;
      ghost var pushed;
      var req;
      req, pushed := RequiredReplaces(moduleMap, root, moduleMap[p].contents);
      GraphStep(moduleMap, root, graph, todo, p, req);
      graph := graph[p := graph[p].(required := req)];
      todo := todo - {p};
    }
    GraphDone(found, root, moduleMap, graph);
  }

  // ---------------------------------------------------------------------
  // Consequences of the specification.

  /** The required set of a module is determined by the module map. */
  lemma RequiredSetUnique(mm: ModuleMap, root: string, m: ModFile, s1: set<string>, s2: set<string>)
    requires IsRequiredSet(mm, root, m, s1) && IsRequiredSet(mm, root, m, s2)
    ensures s1 == s2
  {
  }

  /**
   * The dependency graph is determined by the walked manifests: the order in
   * which the module map is visited does not show in it.
   */
  lemma GraphUnique(found: seq<FoundManifest>, root: string, g1: ModuleMap, g2: ModuleMap)
    requires IsDependencyGraph(found, root, g1) && IsDependencyGraph(found, root, g2)
    ensures g1 == g2
  {
    assert SameManifests(g1, g2);
    forall p | p in g1
      ensures g1[p] == g2[p]
    {
      RequiredSetOnManifests(g1, g2, root, g1[p].contents, g1[p].required);
      RequiredSetUnique(g2, root, g2[p].contents, g1[p].required, g2[p].required);
    }
  }

  /**
   * Closure: a module reached through a member of the required set is itself
   * in it, even without a direct requirement on it.
   */
  lemma RequiredTransitively(mm: ModuleMap, root: string, m: ModFile, s: set<string>, x: string, y: string)
    requires IsRequiredSet(mm, root, m, s)
    requires x in s && y in Requires(mm, x) && Qualifies(mm, root, m.path, y)
    ensures y in s
  {
  }
}
