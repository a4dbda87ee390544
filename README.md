# crosslink, modelled in Dafny

crosslink inserts local `replace` directives into the go.mod files of a
multi-module Go repository, so that every intra-repository dependency
resolves to the checked-out sibling module instead of a published version.
This project models its core and proves properties of the model:

- **The dependency graph** (`Graph`, graph.go). The walk's go.mod
  files are collected into a module map keyed by declared module path; a
  later file replaces an earlier one. For every module, a stack plus a
  visited set computes the set of modules that need a local replace: its
  direct requirements and, transitively, their requirements, each filtered
  to names that contain the root module path, are not the module itself and
  were discovered. `RequiredReplaces` keeps the source's stack loop and is
  proved to compute the least set that is seeded by the direct requirements
  and closed under requirement (`IsRequiredSet`). That set is unique, so
  the map's iteration order does not matter. The loop also ends on cyclic
  requirements.
- **Replace insertion** (`Crosslink.InsertReplace`, crosslink.go). For
  every required module path the model works as follows:
  - an excluded path is skipped;
  - `filepath.Rel` between the two module paths is computed and
    normalised (`Paths.LocalPath`);
  - a replace is added when none exists;
  - an existing replace is overwritten only when `overwrite` is set and is
    otherwise kept.

  The contract says, per module path, exactly which replace entries the
  result holds. Consequences are proved as lemmas: excluded and unrequired
  paths are untouched, and inserting twice changes nothing.
- **Paths** (`Paths`). `strings.Contains` is modelled as a substring
  test. `filepath.Rel` works on '/'-separated elements and keeps Go's two
  failure cases. A round trip is proved for it: walking the relative path
  from the base reaches the target. The three shapes crosslink's tests use
  (child, parent and sibling) are computed outright; `Paths.RelResolves`
  covers the rest.
- **The run** (`Crosslink.Crosslink`). It builds the graph, then takes
  the modules one at a time in any order: insert, prune, write. The first
  error stops the run. Go panics there; the model returns `Fail`.
- **The test repositories** (`Scenarios`). Lemmas about the model state
  these expectations of crosslink_test.go:
  - the required sets of testSimple and testCyclic;
  - every replace the two tests expect in the root, testA and testB;
  - testOverwrite and testNoOverwrite on the root's existing testA entry.

  A further lemma states exclusion on testExclude's repository. It follows
  from crosslink.go:69-75, not from that test.

Two points worth knowing about the code:

- **The root filter.** The comment at graph.go:76 asks that a module "fall
  under" the root module path. The code calls `strings.Contains`
  (graph.go:79, graph.go:104), so a name that holds the root path anywhere
  qualifies. The model follows the code. `Paths.PrefixContains` shows that
  every name under the root path passes the filter.
- **The relative path.** `filepath.Rel` is applied to the two module paths
  (crosslink.go:77), not to the go.mod file locations. The model does the
  same, so a replace is correct only where the directory layout mirrors the
  module paths.

Files: wrappers.dfy (Option, Result, Outcome), paths.dfy, manifest.dfy,
graph.dfy, crosslink.dfy, scenarios.dfy.

## Model

| member | source | states |
|---|---|---|
| Paths.Contains | crosslink/internal/graph.go:79 | `strings.Contains`: it holds only when the root path is no longer than the name; its partner `ContainsAtOffset` proves it is the substring test |
| Paths.ContainsAtOffset | crosslink/internal/graph.go:79-80 | the root filter `strings.Contains(name, root)` holds exactly when `root` occurs at some offset of `name` |
| Paths.PrefixContains | crosslink/internal/graph.go:103-105 | every name that starts with the root module path passes the filter |
| Paths.LocalPath | crosslink/internal/crosslink.go:81-85 | the normalised path is explicitly local: it starts with "./" or "..", and it is the relative path with at most a "./" added in front or a "/" behind |
| Paths.LocalPathSameTarget | crosslink/internal/crosslink.go:81-85 | normalising changes how the path is written, not where it leads: from every directory, the local path and the relative path reach the same place |
| Paths.Rel | crosslink/internal/crosslink.go:77-80 | `filepath.Rel`: the same path gives "."; a failure names both paths and never happens between equal ones; partners `RelResolves`, `RelSucceeds` and the three layout lemmas below |
| Paths.RelResolves | crosslink/internal/crosslink.go:77-80 | when Rel succeeds on a clean target, walking its result from the base arrives at the target |
| Paths.RelSucceeds | crosslink/internal/crosslink.go:77-80 | Rel never fails from a module path (relative, no empty, "." or ".." element) to any relative path |
| Paths.RelToChild | crosslink/internal/crosslink.go:77 | from a module to the module one element below it, Rel gives that element |
| Paths.RelToParent | crosslink/internal/crosslink.go:77 | from a module one element below its parent, Rel gives ".." |
| Paths.RelToSibling | crosslink/internal/crosslink.go:77 | between two sibling modules, Rel gives "../" and the sibling's element |
| Manifest.AddReplace | crosslink/internal/crosslink.go:93 | after AddReplace there is exactly one entry for the module path, pointing at the new path; every other module path keeps exactly its entries |
| Manifest.HasReplaceEntries | crosslink/internal/crosslink.go:122-129 | some replace has `name` as old path exactly when the entries for `name` are non-empty |
| Graph.LastDeclaringFinds | crosslink/internal/graph.go:41-45 | a manifest declaring a path is found exactly when one exists among the walked files, and it is one of them |
| Graph.BuildModuleMap | crosslink/internal/graph.go:29-48 | the map's keys are exactly the declared module paths, and each maps to a fresh record of the last file declaring it |
| Graph.BuildModuleMapKeyedByPath | crosslink/internal/graph.go:45 | every key is its own manifest's declared module path, and the module path declared by every walked manifest is a key |
| Graph.SeedStack | crosslink/internal/graph.go:78-84 | the stack holds exactly the inserted names, all qualifying direct requirements and only those; without duplicate requirements, no name is pushed twice |
| Graph.PushTransitive | crosslink/internal/graph.go:100-109 | pushes exactly the qualifying, not yet inserted requirements of the popped module, once each, and marks them inserted |
| Graph.RequiredReplaces | crosslink/internal/graph.go:54-113 | the loop ends with the least seeded and requirement-closed set of qualifying names; the names pushed are exactly that set, none twice when the module lists no requirement twice |
| Graph.RequiredSetOnManifests | crosslink/internal/graph.go:54-91 | the required set depends only on the keys and manifests of the map, so filling in other modules' sets does not change it |
| Graph.BuildDependencyGraph | crosslink/internal/graph.go:27-115 | one record per declared module path, from the last file declaring it, each holding that module's required set |
| Graph.RequiredSetUnique | crosslink/internal/graph.go:54-113 | the required set is determined by the module map, whatever order the map is visited in |
| Graph.GraphUnique | crosslink/internal/graph.go:54-113 | the dependency graph is determined by the walked manifests, whatever order the module map is visited in |
| Graph.RequiredTransitively | crosslink/internal/graph.go:93-109 | a qualifying requirement of a member of the required set is itself in it |
| Crosslink.ContainsReplace | crosslink/internal/crosslink.go:122-129 | returns nothing exactly when no replace has `modName` as old path; otherwise the first such replace |
| Crosslink.InsertReplace | crosslink/internal/crosslink.go:61-119 | succeeds exactly when Rel succeeds for every required, non-excluded path; on success only the replaces change, and each redirected path has exactly one entry pointing at its normalised local path while every other path keeps its entries; on failure the error names a required, non-excluded path Rel refused |
| Crosslink.ExcludedUntouched | crosslink/internal/crosslink.go:69-75 | an excluded module path keeps exactly the replace entries it had |
| Crosslink.UnrequiredUntouched | crosslink/internal/crosslink.go:68 | a module path outside the required set keeps exactly the replace entries it had |
| Crosslink.MissingInserted | crosslink/internal/crosslink.go:100-107 | a required, non-excluded path without a replace gets exactly one, to its local path, whatever `overwrite` says |
| Crosslink.ExistingKeptOrOverwritten | crosslink/internal/crosslink.go:90-99 | an existing replace is kept without `overwrite` and points at the local path with it |
| Crosslink.InsertIdempotent | crosslink/internal/crosslink.go:61-119 | inserting again with the same configuration changes no replace entry |
| Crosslink.InsertOrderFree | crosslink/internal/crosslink.go:68-107 | whatever order the required set is visited in, every module path ends with the same replace entries |
| Crosslink.InsertSucceedsOnModulePaths | crosslink/internal/crosslink.go:77-80 | when every go.mod declares a module path, Rel succeeds from each module of the graph to every path it requires, so insertReplace does not return its error |
| Crosslink.InsertNeverFails | crosslink/internal/crosslink.go:39-42 | on such a repository, no module of the graph can fail at the insert step |
| Crosslink.ProcessModule | crosslink/internal/crosslink.go:38-54 | insert, prune and write run in that order on each other's results; the outcome says which step failed and with what |
| Crosslink.ProcessAll | crosslink/internal/crosslink.go:38-54 | each module of the map is taken up at most once; every written module went through insert, prune and write in order; a pass covers every module, and a failure is the first error, at the last module taken up, naming the step that failed |
| Crosslink.Crosslink | crosslink/internal/crosslink.go:25-59 | the modules processed are those of the dependency graph of the walked manifests, with the guarantees of the loop above; when every go.mod declares a module path, a failure comes from pruning or writing, never from insertion |
| Scenarios.RootToChildren | crosslink/internal/crosslink_test.go:36-37 | from the root, testA and testB are replaced by "./testA" and "./testB" |
| Scenarios.TestAToTestB | crosslink/internal/crosslink_test.go:43 | from testA, testB is replaced by "../testB" |
| Scenarios.TestAToRoot | crosslink/internal/crosslink_test.go:65 | from testA, the root is replaced by "../" |
| Scenarios.TestBToTestA | crosslink/internal/crosslink_test.go:69 | from testB, testA is replaced by "../testA" |
| Scenarios.TestBToRoot | crosslink/internal/crosslink_test.go:70 | from testB, the root is replaced by "../" |
| Scenarios.SimpleRequiredSets | crosslink/internal/crosslink_test.go:27-47 | in testSimple the root needs testA and testB, testA needs testB, testB needs nothing |
| Scenarios.CyclicRequiredSets | crosslink/internal/crosslink_test.go:48-72 | in testCyclic each module needs exactly the other two |
| Scenarios.SimpleRootInserted | crosslink/internal/crosslink_test.go:31-37 | testSimple's root ends with one replace each for testA and testB, to "./testA" and "./testB" |
| Scenarios.SimpleTestAInserted | crosslink/internal/crosslink_test.go:38-43 | testSimple's testA ends with one replace for testB, to "../testB" |
| Scenarios.CyclicInserted | crosslink/internal/crosslink_test.go:59-70 | in testCyclic, testA ends with "../testB" and "../" for the root, and testB with "../testA" and "../" for the root |
| Scenarios.OverwriteScenario | crosslink/internal/crosslink_test.go:135-185 | an existing "../testA" is kept without overwrite and becomes "./testA" with it; testB gets "./testB" either way |
| Scenarios.ExcludeScenario | crosslink/internal/crosslink.go:69-75 | with testA and testB excluded, the existing "../testA" stays and no testB replace appears |

## Left out

- The directory walk, file reads and walk errors (graph.go:29-52) are left out. The walk's output is the parameter `found`, a sequence of parsed manifests in walk order.
- `identifyRootModule` (crosslink.go:28) is left out; the root module path is a parameter. Its failure panic is not modelled.
- go.mod text, `modfile.Parse`, `modfile.Format` and `modfile.ModulePath` are left out. A manifest is its module path, requirements and replaces, so parse and format errors, the only errors `buildDepedencyGraph` returns, do not arise. Versions in require and replace directives are dropped.
- `pruneReplace` is not part of this model, and `writeModule` is file I/O. Both are function parameters of `Crosslink.Crosslink`.
- Logging, `verbose` and the logger sync (crosslink.go:55-58) are left out. They only print.
- Panics are left out: the model returns `Fail` with the error, and modules written before it stay in `written`.
- Manifest.AddReplace: crosslink logs an error from `AddReplace` and never returns it (crosslink.go:94-96, crosslink.go:104-106), so the model's AddReplace always succeeds. Its reordering of replace blocks in the formatted file is abstracted: the model keeps file order and states only the per-module-path entries.
- Go map iteration order is nondeterministic. The model picks any unvisited key (`:|`). The required sets, the graph and each module path's replace entries are proved independent of the choice (`Graph.RequiredSetUnique`, `Graph.GraphUnique`, `Crosslink.InsertOrderFree`). The order of new entries in a file, which module or path a failure names, and what was written before it depend on the choice, as they do in Go.
- Aliasing of `requiredReplaceStatements` is left out. Go fills the map through a struct copy that shares the map (graph.go:54, graph.go:91); the model writes the set back into the module map.
- Paths.Rel: `filepath.Clean` is not applied to its inputs, and empty or "." paths and "." elements are not treated as Go treats them. Module paths are clean, relative and '/'-separated. The `Resolve` walk that states where a path leads skips empty and "." elements, as a file system does.
- Command-line flags, `transformExclude` and `DefaultRunConfig` are left out. The run configuration is a plain datatype.
