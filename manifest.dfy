/**
 * The parts of a go.mod file crosslink reads and edits, and the records it
 * keeps per module. The text of a go.mod and its parser and formatter are
 * not modelled: a manifest is its declared module path, its required module
 * paths and its replace directives.
 */
module Manifest {

  /** A replace directive `oldPath => newPath`, without versions. */
  datatype Replace = Replace(oldPath: string, newPath: string)

  /** A parsed go.mod: declared module path, requirements and replaces, in file order. */
  datatype ModFile = ModFile(path: string, require: seq<string>, replace: seq<Replace>)

  /**
   * The record kept per discovered module: its manifest, the file it came
   * from, and the module paths that must receive a local replace.
   */
  datatype ModuleInfo = ModuleInfo(contents: ModFile, filePath: string, required: set<string>)

  /** The run options the core reads; `verbose` only gates log lines. */
  datatype RunConfig = RunConfig(excluded: set<string>, overwrite: bool, prune: bool, verbose: bool)

  /** The replace entries for `name`, in file order. */
  function Entries(reps: seq<Replace>, name: string): (r: seq<Replace>)
    ensures forall i :: 0 <= i < |r| ==> r[i].oldPath == name
  {
    if reps == [] then []
    else (if reps[0].oldPath == name then [reps[0]] else []) + Entries(reps[1..], name)
  }

  /** Some replace entry has `name` as its old path. */
  predicate HasReplace(reps: seq<Replace>, name: string) {
    exists i :: 0 <= i < |reps| && reps[i].oldPath == name
  }

  lemma {:induction false} HasReplaceEntries(reps: seq<Replace>, name: string)
    ensures HasReplace(reps, name) <==> Entries(reps, name) != []
  {
    if reps != [] {
      HasReplaceEntries(reps[1..], name);
      if HasReplace(reps[1..], name) {
        var i :| 0 <= i < |reps| - 1 && reps[1..][i].oldPath == name;
        assert reps[i + 1].oldPath == name;
      }
      if HasReplace(reps, name) && reps[0].oldPath != name {
        var i :| 0 <= i < |reps| && reps[i].oldPath == name;
        assert reps[1..][i - 1].oldPath == name;
      }
    }
  }

  lemma {:induction false} EntriesAppend(a: seq<Replace>, b: seq<Replace>, name: string)
    ensures Entries(a + b, name) == Entries(a, name) + Entries(b, name)
  {
    if a != [] {
      assert (a + b)[1..] == a[1..] + b;
      EntriesAppend(a[1..], b, name);
    } else {
      assert a + b == b;
    }
  }

  /** `reps` without the entries for `name`. */
  function Drop(reps: seq<Replace>, name: string): seq<Replace>
  {
    if reps == [] then []
    else (if reps[0].oldPath == name then [] else [reps[0]]) + Drop(reps[1..], name)
  }

  lemma {:induction false} DropEntries(reps: seq<Replace>, name: string, n: string)
    ensures Entries(Drop(reps, name), n) == if n == name then [] else Entries(reps, n)
  {
    if reps != [] {
      DropEntries(reps[1..], name, n);
      EntriesAppend(if reps[0].oldPath == name then [] else [reps[0]], Drop(reps[1..], name), n);
    }
  }

  /** The first entry for `name` now points at `newPath`; later entries for `name` are gone. */
  function UpdateFirst(reps: seq<Replace>, name: string, newPath: string): seq<Replace>
  {
    if reps == [] then []
    else if reps[0].oldPath == name then [Replace(name, newPath)] + Drop(reps[1..], name)
    else [reps[0]] + UpdateFirst(reps[1..], name, newPath)
  }

  lemma {:induction false} UpdateFirstEntries(reps: seq<Replace>, name: string, newPath: string, n: string)
    requires HasReplace(reps, name)
    ensures Entries(UpdateFirst(reps, name, newPath), n) == if n == name then [Replace(name, newPath)] else Entries(reps, n)
  {
    if reps[0].oldPath == name {
      DropEntries(reps[1..], name, n);
      EntriesAppend([Replace(name, newPath)], Drop(reps[1..], name), n);
    } else {
      var i :| 0 <= i < |reps| && reps[i].oldPath == name;
      assert reps[1..][i - 1].oldPath == name;
      UpdateFirstEntries(reps[1..], name, newPath, n);
      EntriesAppend([reps[0]], UpdateFirst(reps[1..], name, newPath), n);
    }
  }

  /**
   * `modfile.File.AddReplace(name, "", newPath, "")`: the first existing entry for
   * `name` is redirected and any further ones are removed; with no entry, one
   * is appended. Afterwards there is exactly one entry for `name`, and every
   * other module path keeps exactly the entries it had.
   */
  function AddReplace(reps: seq<Replace>, name: string, newPath: string): (r: seq<Replace>)
    ensures Entries(r, name) == [Replace(name, newPath)]
    ensures forall n :: n != name ==> Entries(r, n) == Entries(reps, n)
  {
    if HasReplace(reps, name) then
      var r := UpdateFirst(reps, name, newPath);
      UpdateFirstEntries(reps, name, newPath, name);
      assert forall n :: n != name ==> Entries(r, n) == Entries(reps, n) by {
        forall n | n != name ensures Entries(r, n) == Entries(reps, n) {
          UpdateFirstEntries(reps, name, newPath, n);
        }
      }
      r
    else
      var r := reps + [Replace(name, newPath)];
      HasReplaceEntries(reps, name);
      EntriesAppend(reps, [Replace(name, newPath)], name);
      assert forall n :: n != name ==> Entries(r, n) == Entries(reps, n) by {
        forall n | n != name ensures Entries(r, n) == Entries(reps, n) {
          EntriesAppend(reps, [Replace(name, newPath)], n);
        }
      }
      r
  }
}
