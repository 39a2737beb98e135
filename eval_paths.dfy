/** Path helpers of the experiment harness: the fully qualified Scala class
    name of a test source file, and the directories the harness works in.
    Paths are strings; `PathJoin` follows POSIX `os.path.join` for two
    components. */
module EvalPaths {

  const Workspace: string := "/workspace"

  /** The prefixes tried, in this order, by the prefix loop. */
  const TestRoots: seq<string> := ["src/test/scala/", "src/test/"]

  const ScalaExtension: string := ".scala"

  predicate IsPrefix(p: string, s: string)
  {
    |p| <= |s| && s[..|p|] == p
  }

  predicate IsSuffix(p: string, s: string)
  {
    |p| <= |s| && s[|s| - |p|..] == p
  }

  /** The prefix loop: removes the first prefix in `prefixes` that `path`
      starts with and stops there (the `break`), or leaves `path` alone. */
  function StripFirst(prefixes: seq<string>, path: string): (r: string)
    ensures IsSuffix(r, path)
    ensures r == path || exists i :: 0 <= i < |prefixes| && path == prefixes[i] + r
    decreases prefixes
  {
    if |prefixes| == 0 then path
    else if IsPrefix(prefixes[0], path) then
      assert path == prefixes[0] + path[|prefixes[0]|..];
      path[|prefixes[0]|..]
    else
      var r := StripFirst(prefixes[1..], path);
      assert forall i :: 0 <= i < |prefixes[1..]| ==> prefixes[1..][i] == prefixes[i + 1];
      r
  }

  /** The three outcomes of the prefix loop over the two test roots. */
  lemma StripTestRoots(path: string)
    ensures IsPrefix(TestRoots[0], path) ==> StripFirst(TestRoots, path) == path[|TestRoots[0]|..]
    ensures !IsPrefix(TestRoots[0], path) && IsPrefix(TestRoots[1], path) ==>
              StripFirst(TestRoots, path) == path[|TestRoots[1]|..]
    ensures !IsPrefix(TestRoots[0], path) && !IsPrefix(TestRoots[1], path) ==>
              StripFirst(TestRoots, path) == path
  {
    assert TestRoots[1..][0] == TestRoots[1];
    assert TestRoots[1..][1..] == [];
  }

  /** The first root is the second one followed by `scala/`. */
  lemma TestRootsNested()
    ensures TestRoots[0] == TestRoots[1] + "scala/"
  {
  }

  lemma AfterPrefix(p: string, rest: string)
    ensures IsPrefix(p, p + rest) && (p + rest)[|p|..] == rest
  {
    assert (p + rest)[..|p|] == p;
  }

  lemma PrefixOfPrefix(a: string, b: string, x: string)
    requires IsPrefix(a + b, x)
    ensures IsPrefix(a, x)
  {
    assert x[..|a|] == x[..|a + b|][..|a|];
  }

  /** A prefix of `root + rest` that starts with `root` continues with a
      prefix of `rest`. */
  lemma PrefixPastRoot(root: string, sub: string, rest: string)
    requires IsPrefix(root + sub, root + rest)
    ensures IsPrefix(sub, rest)
  {
    var x := root + rest;
    assert rest[..|sub|] == x[..|root| + |sub|][|root|..];
  }

  /** Drops one trailing `.scala`, if there is one. */
  function DropScalaExtension(path: string): (r: string)
    ensures IsPrefix(r, path)
    ensures IsSuffix(ScalaExtension, path) ==> r + ScalaExtension == path
    ensures !IsSuffix(ScalaExtension, path) ==> r == path
  {
    if IsSuffix(ScalaExtension, path) then path[..|path| - |ScalaExtension|] else path
  }

  lemma DropScalaExtensionOf(rel: string)
    ensures DropScalaExtension(rel + ScalaExtension) == rel
  {
    var t := rel + ScalaExtension;
    assert t[|t| - |ScalaExtension|..] == ScalaExtension;
    assert t[..|t| - |ScalaExtension|] == rel;
  }

  /** Every `/` replaced by `.`, as `str.replace("/", ".")` does. */
  function Dotted(s: string): (r: string)
    ensures |r| == |s|
    ensures forall i :: 0 <= i < |r| ==> r[i] != '/'
    ensures forall i :: 0 <= i < |r| ==> r[i] == (if s[i] == '/' then '.' else s[i])
  {
    if |s| == 0 then ""
    else [if s[0] == '/' then '.' else s[0]] + Dotted(s[1..])
  }

  /** Every `.` replaced by `/`: the inverse of `Dotted` on names without
      dots. */
  function Slashed(s: string): (r: string)
    ensures |r| == |s|
  {
    if |s| == 0 then ""
    else [if s[0] == '.' then '/' else s[0]] + Slashed(s[1..])
  }

  /** The class name `fqcn_from_test_path` derives from a test source path. */
  function Fqcn(path: string): (r: string)
    ensures |r| <= |path|
    ensures forall i :: 0 <= i < |r| ==> r[i] != '/'
  {
    Dotted(DropScalaExtension(StripFirst(TestRoots, path)))
  }

  /** `fqcn_from_test_path`, with its loop over the two prefixes. */
  method FqcnFromTestPath(path: string) returns (r: string)
    ensures r == Fqcn(path)
  {
    var rel := path;
    var i := 0;
    while i < |TestRoots|
      invariant 0 <= i <= |TestRoots| && rel == path
      invariant StripFirst(TestRoots[i..], path) == StripFirst(TestRoots, path)
    {
      if IsPrefix(TestRoots[i], rel) {
        rel := rel[|TestRoots[i]|..];
        break;
      }
      assert TestRoots[i..][1..] == TestRoots[i + 1..];
      i := i + 1;
    }
    if IsSuffix(ScalaExtension, rel) {
      rel := rel[..|rel| - |ScalaExtension|];
    }
    r := Dotted(rel);
  }

  /** The class name of a path whose prefix loop leaves `rel.scala`. */
  lemma FqcnAfterStrip(path: string, rel: string)
    requires StripFirst(TestRoots, path) == rel + ScalaExtension
    ensures Fqcn(path) == Dotted(rel)
  {
    DropScalaExtensionOf(rel);
  }

  /** A source under `src/test/scala/`: that prefix is tried first. */
  lemma FqcnOfScalaTestSource(rel: string)
    ensures Fqcn(TestRoots[0] + (rel + ScalaExtension)) == Dotted(rel)
  {
    var path := TestRoots[0] + (rel + ScalaExtension);
    AfterPrefix(TestRoots[0], rel + ScalaExtension);
    StripTestRoots(path);
    FqcnAfterStrip(path, rel);
  }

  /** A source directly under `src/test/` whose remainder does not start
      with `scala/`: only `src/test/` is removed, once, even when the
      remainder starts with `src/test/` again. */
  lemma FqcnOfTestSource(rel: string)
    requires !IsPrefix("scala/", rel + ScalaExtension)
    ensures Fqcn(TestRoots[1] + (rel + ScalaExtension)) == Dotted(rel)
  {
    var path := TestRoots[1] + (rel + ScalaExtension);
    TestRootsNested();
    if IsPrefix(TestRoots[0], path) {
      PrefixPastRoot(TestRoots[1], "scala/", rel + ScalaExtension);
    }
    AfterPrefix(TestRoots[1], rel + ScalaExtension);
    StripTestRoots(path);
    FqcnAfterStrip(path, rel);
  }

  /** A path that does not start with `src/test/` keeps all its
      directories. */
  lemma FqcnOutsideTestRoots(rel: string)
    requires !IsPrefix(TestRoots[1], rel + ScalaExtension)
    ensures Fqcn(rel + ScalaExtension) == Dotted(rel)
  {
    var path := rel + ScalaExtension;
    TestRootsNested();
    if IsPrefix(TestRoots[0], path) {
      PrefixOfPrefix(TestRoots[1], "scala/", path);
    }
    StripTestRoots(path);
    FqcnAfterStrip(path, rel);
  }

  /** The class name determines the source path when directory and file
      names hold no dots. */
  lemma {:induction false} DottedInverse(s: string)
    requires forall i :: 0 <= i < |s| ==> s[i] != '.'
    ensures Slashed(Dotted(s)) == s
    decreases |s|
  {
    if |s| > 0 {
      DottedInverse(s[1..]);
      assert Dotted(s)[1..] == Dotted(s[1..]);
    }
  }

  predicate Absolute(p: string)
  {
    |p| > 0 && p[0] == '/'
  }

  /** `os.path.join(a, b)`: `b` alone when it is absolute, otherwise `a` and
      `b` with one `/` between them unless `a` is empty or ends in `/`. */
  function PathJoin(a: string, b: string): (r: string)
    ensures IsSuffix(b, r)
    ensures !Absolute(b) ==> IsPrefix(a, r)
  {
    if Absolute(b) then b
    else if |a| == 0 || a[|a| - 1] == '/' then a + b
    else a + "/" + b
  }

  /** `shir_repo_dir`: the checkout of a branch. */
  function ShirRepoDir(branch: string): (r: string)
    ensures r == "/workspace/shir-" + branch
  {
    assert ("shir-" + branch)[0] == 's' && Workspace[|Workspace| - 1] == 'e';
    PathJoin(Workspace, "shir-" + branch)
  }

  /** Different branches have different checkouts. */
  lemma ShirRepoDirInjective(a: string, b: string)
    requires ShirRepoDir(a) == ShirRepoDir(b)
    ensures a == b
  {
    var pre := "/workspace/shir-";
    assert a == (pre + a)[|pre|..];
    assert b == (pre + b)[|pre|..];
  }

  /** `RESULTS_DIR`. */
  function ResultsDir(): (r: string)
    ensures r == "/workspace/results"
  {
    assert "results"[0] == 'r' && Workspace[|Workspace| - 1] == 'e';
    PathJoin(Workspace, "results")
  }

  /** A single path component: non-empty, not absolute, no trailing `/`. */
  predicate PlainName(s: string)
  {
    s != "" && s[0] != '/' && s[|s| - 1] != '/'
  }

  /** `os.path.join(RESULTS_DIR, id, sub)`: where a phase of an experiment
      leaves its results. */
  function ResultDest(id: string, sub: string): (r: string)
    ensures IsSuffix(sub, r)
  {
    PathJoin(PathJoin(ResultsDir(), id), sub)
  }

  /** Joining onto a directory without a trailing `/` inserts one. */
  lemma JoinNames(a: string, b: string)
    requires a != "" && a[|a| - 1] != '/' && b != "" && b[0] != '/'
    ensures PathJoin(a, b) == a + "/" + b
  {
    assert b[..1] == [b[0]];
  }

  lemma ResultDestOfNames(id: string, sub: string)
    requires PlainName(id) && PlainName(sub)
    ensures ResultDest(id, sub) == ResultsDir() + "/" + id + "/" + sub
  {
    var results := ResultsDir();
    assert results[|results| - 1] == 's';
    JoinNames(results, id);
    var inner := results + "/" + id;
    assert inner[|inner| - 1] == id[|id| - 1];
    JoinNames(inner, sub);
  }

  lemma Regroup(p: string, a: string, m: string, b: string)
    ensures p + a + m + b == p + (a + m + b)
  {
  }

  lemma CancelPrefix(p: string, x: string, y: string)
    requires p + x == p + y
    ensures x == y
  {
    assert x == (p + x)[|p|..];
    assert y == (p + y)[|p|..];
  }

  /** Distinct experiment ids get distinct result directories. */
  lemma ResultDestInjective(a: string, b: string, sub: string)
    requires PlainName(a) && PlainName(b) && PlainName(sub)
    requires ResultDest(a, sub) == ResultDest(b, sub)
    ensures a == b
  {
    ResultDestOfNames(a, sub);
    ResultDestOfNames(b, sub);
    var pre := ResultsDir() + "/";
    var x := a + "/" + sub;
    var y := b + "/" + sub;
    Regroup(pre, a, "/", sub);
    Regroup(pre, b, "/", sub);
    CancelPrefix(pre, x, y);
    assert a == x[..|a|] && b == y[..|b|];
  }
}
