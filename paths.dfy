/**
 * The string and path helpers crosslink relies on: Go's `strings.Contains`
 * and `strings.HasPrefix`, `filepath.Rel` between two module paths, and the
 * normalisation that turns a relative path into an explicitly local one.
 * Module paths are '/'-separated, relative and clean.
 */
module Paths {
  import opened Wrappers

  const Separator: char := '/'

  /** `strings.Contains(s, sub)`: `sub` occurs somewhere in `s`. */
  function Contains(s: string, sub: string): (r: bool)
    ensures r ==> |sub| <= |s|
    decreases |s|
  {
    sub <= s || (|s| > 0 && Contains(s[1..], sub))
  }

  /** Contains is the substring test: `sub` is a prefix of some suffix of `s`. */
  lemma {:induction false} ContainsAtOffset(s: string, sub: string)
    ensures Contains(s, sub) <==> exists i :: 0 <= i <= |s| && sub <= s[i..]
    decreases |s|
  {
    if sub <= s {
      assert s[0..] == s;
    } else if |s| > 0 {
      ContainsAtOffset(s[1..], sub);
      if Contains(s[1..], sub) {
        var i :| 0 <= i <= |s| - 1 && sub <= s[1..][i..];
        assert s[1..][i..] == s[i + 1..];
      } else {
        forall i | 1 <= i <= |s| ensures !(sub <= s[i..]) {
          assert s[1..][i - 1..] == s[i..];
        }
        assert s[0..] == s;
      }
    } else {
      assert s[0..] == s;
    }
  }

  /** A name under the root namespace (a prefix) passes the substring test. */
  lemma PrefixContains(s: string, p: string)
    requires p <= s
    ensures Contains(s, p)
  {
  }

  /** True when the path starts with a separator. */
  predicate IsAbs(p: string) {
    |p| > 0 && p[0] == Separator
  }

  /** The '/'-separated elements of a path; a path without '/' is one element. */
  function Split(p: string): (r: seq<string>)
    ensures |r| >= 1
  {
    if p == [] then [[]]
    else
      var rest := Split(p[1..]);
      if p[0] == Separator then [[]] + rest
      else [[p[0]] + rest[0]] + rest[1..]
  }

  /** The elements joined with '/'. */
  function Join(segs: seq<string>): string
  {
    if segs == [] then []
    else if |segs| == 1 then segs[0]
    else segs[0] + [Separator] + Join(segs[1..])
  }

  /** No element holds a separator. */
  ghost predicate Elements(segs: seq<string>) {
    forall i :: 0 <= i < |segs| ==> Separator !in segs[i]
  }

  lemma {:induction false} SplitWithoutSeparator(p: string)
    requires Separator !in p
    ensures Split(p) == [p]
  {
    if p != [] {
      SplitWithoutSeparator(p[1..]);
      assert [p[0]] + p[1..] == p;
    }
  }

  lemma {:induction false} SplitAtSeparator(a: string, b: string)
    ensures Split(a + [Separator] + b) == Split(a) + Split(b)
  {
    var s := a + [Separator] + b;
    if a == [] {
      assert s[1..] == b;
    } else {
      assert s[1..] == a[1..] + [Separator] + b;
      SplitAtSeparator(a[1..], b);
    }
  }

  /** Every element Split produces is free of separators. */
  lemma {:induction false} SplitElements(p: string)
    ensures Elements(Split(p))
  {
    if p != [] {
      SplitElements(p[1..]);
    }
  }

  /** Joining the elements of a path gives the path back. */
  lemma JoinCons(x: string, rest: seq<string>)
    requires |rest| >= 1
    ensures Join([x] + rest) == x + [Separator] + Join(rest)
  {
  }

  lemma {:induction false} JoinSplit(p: string)
    ensures Join(Split(p)) == p
  {
    if p != [] {
      JoinSplit(p[1..]);
      var rest := Split(p[1..]);
      if p[0] == Separator {
        JoinCons([], rest);
      } else if |rest| > 1 {
        JoinCons(rest[0], rest[1..]);
        JoinCons([p[0]] + rest[0], rest[1..]);
        assert rest == [rest[0]] + rest[1..];
      }
    }
  }

  /** Splitting a join of separator-free elements gives the elements back. */
  lemma {:induction false} SplitJoin(segs: seq<string>)
    requires |segs| >= 1 && Elements(segs)
    ensures Split(Join(segs)) == segs
  {
    if |segs| == 1 {
      SplitWithoutSeparator(segs[0]);
    } else {
      SplitJoin(segs[1..]);
      SplitWithoutSeparator(segs[0]);
      SplitAtSeparator(segs[0], Join(segs[1..]));
      assert segs == [segs[0]] + segs[1..];
    }
  }

  /** Two paths with the same elements are the same path. */
  lemma SplitInjective(p: string, q: string)
    requires Split(p) == Split(q)
    ensures p == q
  {
    JoinSplit(p);
    JoinSplit(q);
  }

  /** How many leading elements `b` and `t` share. */
  function CommonPrefixLen(b: seq<string>, t: seq<string>): (k: nat)
    ensures k <= |b| && k <= |t| && b[..k] == t[..k]
    ensures k < |b| && k < |t| ==> b[k] != t[k]
  {
    if b == [] || t == [] || b[0] != t[0] then 0
    else
      var k' := CommonPrefixLen(b[1..], t[1..]);
      assert b[..k' + 1] == [b[0]] + b[1..][..k'];
      assert t[..k' + 1] == [t[0]] + t[1..][..k'];
      k' + 1
  }

  /** `n` parent-directory steps. */
  function Ups(n: nat): (r: seq<string>)
    ensures |r| == n && forall i :: 0 <= i < n ==> r[i] == ".."
  {
    if n == 0 then [] else [".."] + Ups(n - 1)
  }

  datatype RelError = CannotMakeRelative(targ: string, base: string)

  /**
   * `filepath.Rel(base, targ)` on slash-separated paths: the same path gives
   * ".", otherwise the shared leading elements are dropped and one ".." is
   * emitted per remaining base element, followed by the remaining target
   * elements. Go refuses when exactly one of the two paths is absolute and
   * when the first base element that differs is "..".
   */
  function Rel(base: string, targ: string): (r: Result<string, RelError>)
    ensures targ == base ==> r == Success(".")
    ensures r.Failure? ==> targ != base && r.error == CannotMakeRelative(targ, base)
  {
    if targ == base then Success(".")
    else if IsAbs(base) != IsAbs(targ) then Failure(CannotMakeRelative(targ, base))
    else
      var b, t := Split(base), Split(targ);
      var k := CommonPrefixLen(b, t);
      if k < |b| && b[k] == ".." then Failure(CannotMakeRelative(targ, base))
      else Success(Join(Ups(|b| - k) + t[k..]))
  }

  /**
   * The normalisation insertReplace applies to a relative path: "." and ".."
   * get a trailing separator, any other path not starting with ".." is
   * prefixed with "./", and a path starting with ".." is kept. The result is
   * explicitly local: it starts with "./" or "..", and it is the relative
   * path with at most a marker added in front or a separator behind.
   */
  function LocalPath(rel: string): (r: string)
    ensures "./" <= r || ".." <= r
    ensures r == rel || r == "./" + rel || r == rel + "/"
  {
    if rel == "." || rel == ".." then rel + [Separator]
    else if !(".." <= rel) then "./" + rel
    else rel
  }

  // ---------------------------------------------------------------------
  // The relative path leads from base to target.

  /** No element is empty, "." or "..": what `filepath.Clean` leaves of a relative path. */
  ghost predicate CleanElements(segs: seq<string>) {
    forall i :: 0 <= i < |segs| ==> segs[i] != [] && segs[i] != "." && segs[i] != ".."
  }

  /**
   * Walking `rel` from the directory `at`: ".." leaves a directory, "." and
   * the empty element a doubled or trailing separator leaves stay.
   */
  ghost function Resolve(at: seq<string>, rel: seq<string>): seq<string>
    decreases |rel|
  {
    if rel == [] then at
    else if rel[0] == ".." then Resolve(if at == [] then [] else at[..|at| - 1], rel[1..])
    else if rel[0] == "." || rel[0] == [] then Resolve(at, rel[1..])
    else Resolve(at + [rel[0]], rel[1..])
  }

  lemma {:induction false} ResolveDown(at: seq<string>, rel: seq<string>)
    requires CleanElements(rel)
    ensures Resolve(at, rel) == at + rel
    decreases |rel|
  {
    if rel != [] {
      ResolveDown(at + [rel[0]], rel[1..]);
      assert at + [rel[0]] + rel[1..] == at + rel;
    }
  }

  lemma {:induction false} ResolveUp(p: seq<string>, q: seq<string>, down: seq<string>)
    ensures Resolve(p + q, Ups(|q|) + down) == Resolve(p, down)
    decreases |q|
  {
    if q != [] {
      var rel := Ups(|q|) + down;
      assert rel[0] == ".." && rel[1..] == Ups(|q| - 1) + down;
      assert (p + q)[..|p + q| - 1] == p + q[..|q| - 1];
      ResolveUp(p, q[..|q| - 1], down);
    } else {
      assert p + q == p;
      assert Ups(0) + down == down;
    }
  }

  /** Walking up from `b` to the shared prefix and down along the rest of `t` reaches `t`. */
  lemma ResolveAcross(b: seq<string>, t: seq<string>, k: nat)
    requires k <= |b| && k <= |t| && b[..k] == t[..k]
    requires CleanElements(t)
    ensures Resolve(b, Ups(|b| - k) + t[k..]) == t
  {
    assert b == b[..k] + b[k..];
    ResolveUp(b[..k], b[k..], t[k..]);
    ResolveDown(b[..k], t[k..]);
    assert t == t[..k] + t[k..];
  }

  /** The elements Rel joins in the differing case come back out of Split. */
  lemma SplitRelElements(targ: string, n: nat, k: nat)
    requires k <= |Split(targ)| && (n > 0 || k < |Split(targ)|)
    ensures Split(Join(Ups(n) + Split(targ)[k..])) == Ups(n) + Split(targ)[k..]
  {
    var segs := Ups(n) + Split(targ)[k..];
    SplitElements(targ);
    assert Elements(segs) by {
      forall i | 0 <= i < |segs| ensures Separator !in segs[i] {
        if i >= n {
          assert segs[i] == Split(targ)[k + i - n];
        }
      }
    }
    SplitJoin(segs);
  }

  /**
   * Round trip: whenever Rel succeeds on a clean target, walking the result
   * from the base path arrives at the target path.
   */
  lemma RelResolves(base: string, targ: string)
    requires Rel(base, targ).Success?
    requires CleanElements(Split(targ))
    ensures Resolve(Split(base), Split(Rel(base, targ).value)) == Split(targ)
  {
    var b, t := Split(base), Split(targ);
    if targ == base {
      SplitWithoutSeparator(".");
      assert Resolve(b, ["."]) == Resolve(b, []);
    } else {
      var k := CommonPrefixLen(b, t);
      if k == |b| && k == |t| {
        assert b == b[..k] && t == t[..k];
        SplitInjective(base, targ);
      }
      SplitRelElements(targ, |b| - k, k);
      ResolveAcross(b, t, k);
    }
  }

  /**
   * Normalising changes how a relative path is written, not where it leads:
   * from any directory, the local path and the relative path reach the same place.
   */
  lemma LocalPathSameTarget(at: seq<string>, rel: string)
    ensures Resolve(at, Split(LocalPath(rel))) == Resolve(at, Split(rel))
  {
    if rel == "." || rel == ".." {
      SplitAtSeparator(rel, "");
      SplitWithoutSeparator(rel);
      assert rel + [Separator] == rel + [Separator] + "";
      var segs := [rel, ""];
      assert Split(LocalPath(rel)) == segs && segs[1..] == [""];
      assert Resolve(at, segs) == Resolve(at, [rel]);
    } else if !(".." <= rel) {
      SplitAtSeparator(".", rel);
      SplitWithoutSeparator(".");
      assert "./" + rel == "." + [Separator] + rel;
      assert (["."] + Split(rel))[1..] == Split(rel);
    }
  }

  /**
   * The shape of a Go module path: relative, with no empty, "." or ".."
   * element.
   */
  ghost predicate IsModulePath(p: string) {
    !IsAbs(p) && CleanElements(Split(p))
  }

  /**
   * Rel never fails between module paths: neither is absolute, and no
   * element of the base is "..". Only the base needs to be clean.
   */
  lemma RelSucceeds(base: string, targ: string)
    requires IsModulePath(base) && !IsAbs(targ)
    ensures Rel(base, targ).Success?
  {
    if targ != base {
      var b := Split(base);
      var k := CommonPrefixLen(b, Split(targ));
      if k < |b| {
        assert b[k] != "..";
      }
    }
  }

  // ---------------------------------------------------------------------
  // The three shapes crosslink's tests use; RelResolves covers the rest.

  lemma CommonPrefixOfExtension(b: seq<string>, x: seq<string>)
    ensures CommonPrefixLen(b, b + x) >= |b|
  {
  }

  lemma {:induction false} CommonPrefixOfSiblings(b: seq<string>, x: string, y: string)
    requires x != y
    ensures CommonPrefixLen(b + [x], b + [y]) == |b|
  {
    if b != [] {
      assert (b + [x])[1..] == b[1..] + [x];
      assert (b + [y])[1..] == b[1..] + [y];
      CommonPrefixOfSiblings(b[1..], x, y);
    }
  }

  /** A path element: no separator, not empty, not "." or "..". */
  predicate IsElement(x: string) {
    Separator !in x && x != [] && x != "." && x != ".."
  }

  /** From a module to a module one directory below it: the element itself. */
  lemma RelToChild(p: string, x: string)
    requires p != [] && IsElement(x)
    ensures Rel(p, p + "/" + x) == Success(x)
  {
    var t := p + "/" + x;
    SplitAtSeparator(p, x);
    SplitWithoutSeparator(x);
    var b := Split(p);
    assert Split(t) == b + [x];
    CommonPrefixOfExtension(b, [x]);
    assert (b + [x])[|b|..] == [x];
    assert t != p by { assert |t| > |p|; }
  }

  /** From a module to its parent module: "..". */
  lemma RelToParent(p: string, x: string)
    requires p != [] && IsElement(x)
    ensures Rel(p + "/" + x, p) == Success("..")
  {
    var base := p + "/" + x;
    SplitAtSeparator(p, x);
    SplitWithoutSeparator(x);
    var b := Split(p);
    assert Split(base) == b + [x];
    var k := CommonPrefixLen(b + [x], b);
    assert k == |b| by {
      CommonPrefixOfExtension(b, [x]);
      assert (b + [x])[..|b|] == b;
    }
    assert (b + [x])[k] == x;
    assert b[k..] == [];
    assert base != p by { assert |base| > |p|; }
  }

  /** Between two sibling modules: "../" and the sibling's element. */
  lemma RelToSibling(p: string, x: string, y: string)
    requires p != [] && IsElement(x) && IsElement(y) && x != y
    ensures Rel(p + "/" + x, p + "/" + y) == Success("../" + y)
  {
    var base, targ := p + "/" + x, p + "/" + y;
    SplitAtSeparator(p, x);
    SplitAtSeparator(p, y);
    SplitWithoutSeparator(x);
    SplitWithoutSeparator(y);
    var b := Split(p);
    CommonPrefixOfSiblings(b, x, y);
    assert Split(base) == b + [x] && Split(targ) == b + [y];
    assert (b + [x])[|b|] == x;
    assert (b + [y])[|b|..] == [y];
    assert Ups(1) + [y] == ["..", y];
    assert Join(["..", y]) == ".." + "/" + y == "../" + y;
    assert IsAbs(base) == IsAbs(targ) by { assert base[0] == p[0] == targ[0]; }
    assert targ != base by {
      assert targ[|p| + 1..] == y && base[|p| + 1..] == x;
    }
  }
}
