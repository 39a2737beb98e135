/** `snapshot_files`: the set of relative paths of the files under a
    checkout, skipping build and version-control directories. A directory
    tree is a value; a relative path is its sequence of components (the
    string form joins them with `/`). */
module EvalSnapshot {

  type Path = seq<string>

  datatype Entry = File(name: string) | Dir(name: string, entries: seq<Entry>)

  /** Directory names the walk does not descend into. */
  const Excluded: set<string> := {".git", "target", "project", ".idea", ".bsp", ".metals"}

  /** The files of the entries `es` of the directory at `dir`, skipping
      excluded subdirectories at every depth. */
  function Files(es: seq<Entry>, dir: Path): set<Path>
    decreases es
  {
    if |es| == 0 then {} else EntryFiles(es[0], dir) + Files(es[1..], dir)
  }

  function EntryFiles(e: Entry, dir: Path): set<Path>
    decreases e
  {
    match e
    case File(n) => {dir + [n]}
    case Dir(n, sub) => if n in Excluded then {} else Files(sub, dir + [n])
  }

  /** What `snapshot_files` returns for a checkout whose top directory holds
      `root`. The top directory itself is never pruned. */
  function Snapshot(root: seq<Entry>): (r: set<Path>)
    ensures forall p :: p in r ==> Reaches(root, p) && Kept(p)
  {
    assert forall p :: p in Files(root, []) ==> Reaches(root, p) && Kept(p) by {
      forall p | p in Files(root, [])
        ensures Reaches(root, p) && Kept(p)
      {
        FilesMembers(root, [], p);
        assert p[0..] == p;
      }
    }
    Files(root, [])
  }

  // ---------------------------------------------------------------------
  // An independent description: a path is in the snapshot exactly when it
  // names a file of the full tree and none of its directories is excluded.

  /** `p` names a file reachable from one of the entries `es`. */
  predicate Reaches(es: seq<Entry>, p: Path)
    decreases es
  {
    exists i :: 0 <= i < |es| && EntryReaches(es[i], p)
  }

  predicate EntryReaches(e: Entry, p: Path)
    decreases e
  {
    |p| > 0 &&
    match e
    case File(n) => p == [n]
    case Dir(n, sub) => p[0] == n && Reaches(sub, p[1..])
  }

  /** No directory component of `p` (all but the last) is excluded. */
  predicate Kept(p: Path)
  {
    forall k :: 0 <= k < |p| - 1 ==> p[k] !in Excluded
  }

  predicate Under(dir: Path, p: Path)
  {
    |dir| < |p| && p[..|dir|] == dir
  }

  lemma ReachesNonEmpty(es: seq<Entry>, p: Path)
    requires Reaches(es, p)
    ensures |p| > 0
  {
  }

  lemma KeptStep(q: Path)
    requires |q| >= 2
    ensures Kept(q) <==> q[0] !in Excluded && Kept(q[1..])
  {
    if q[0] !in Excluded && Kept(q[1..]) {
      forall k | 0 <= k < |q| - 1
        ensures q[k] !in Excluded
      {
        if k > 0 {
          assert q[k] == q[1..][k - 1];
        }
      }
    }
  }

  lemma {:induction false} FilesMembers(es: seq<Entry>, dir: Path, p: Path)
    ensures p in Files(es, dir) <==> Under(dir, p) && Reaches(es, p[|dir|..]) && Kept(p[|dir|..])
    decreases es
  {
    if |es| > 0 {
      EntryFilesMembers(es[0], dir, p);
      FilesMembers(es[1..], dir, p);
    }
    if |es| > 0 && Under(dir, p) {
      var q := p[|dir|..];
      if Reaches(es, q) {
        var i :| 0 <= i < |es| && EntryReaches(es[i], q);
        if i > 0 {
          assert es[1..][i - 1] == es[i];
        }
      }
      if Reaches(es[1..], q) {
        var i :| 0 <= i < |es[1..]| && EntryReaches(es[1..][i], q);
        assert es[1..][i] == es[i + 1];
      }
      if EntryReaches(es[0], q) {
        assert Reaches(es, q);
      }
    }
  }

  lemma {:induction false} EntryFilesMembers(e: Entry, dir: Path, p: Path)
    ensures p in EntryFiles(e, dir) <==> Under(dir, p) && EntryReaches(e, p[|dir|..]) && Kept(p[|dir|..])
    decreases e
  {
    if !Under(dir, p) {
      match e
      case File(n) =>
      case Dir(n, sub) =>
        FilesMembers(sub, dir + [n], p);
    } else {
      EntryFilesMembersUnder(e, dir, p);
    }
  }

  lemma {:induction false} EntryFilesMembersUnder(e: Entry, dir: Path, p: Path)
    requires Under(dir, p)
    ensures p in EntryFiles(e, dir) <==> EntryReaches(e, p[|dir|..]) && Kept(p[|dir|..])
    decreases e, 0
  {
    var q := p[|dir|..];
    match e
    case File(n) =>
      if q == [n] {
        assert p == p[..|dir|] + q;
      }
      if p == dir + [n] {
        assert q == [n];
      }
    case Dir(n, sub) =>
      var inner := dir + [n];
      if |q| > 0 && q[0] == n {
        assert p[..|inner|] == inner by {
          assert p[..|dir|] == dir && p[|dir|] == q[0];
        }
        assert p[|inner|..] == q[1..];
      }
      if Under(inner, p) {
        assert p[..|dir|] == inner[..|dir|] == dir;
        assert q[0] == p[|dir|] == n;
        assert p[|inner|..] == q[1..];
      }
      FilesMembers(sub, inner, p);
      if EntryReaches(e, q) {
        ReachesNonEmpty(sub, q[1..]);
        KeptStep(q);
      }
  }

  /** The snapshot holds exactly the reachable files below no excluded
      directory. */
  lemma SnapshotMembers(root: seq<Entry>, p: Path)
    ensures p in Snapshot(root) <==> Reaches(root, p) && Kept(p)
  {
    FilesMembers(root, [], p);
    assert p[0..] == p;
  }

  /** A file whose own name is excluded is still listed: only directories
      are pruned. */
  lemma ExcludedFileNameKept(root: seq<Entry>, i: nat)
    requires i < |root| && root[i] == File("target")
    ensures ["target"] in Snapshot(root)
  {
    assert EntryReaches(root[i], ["target"]);
    SnapshotMembers(root, ["target"]);
  }

  /** Nothing below an excluded directory is listed. */
  lemma NothingBelowExcluded(root: seq<Entry>, p: Path)
    requires |p| >= 2 && p[0] in Excluded
    ensures p !in Snapshot(root)
  {
    SnapshotMembers(root, p);
  }

  // ---------------------------------------------------------------------
  // The walk itself: a stack of directories still to visit, each with the
  // relative path it was reached by.

  datatype Frame = Frame(entries: seq<Entry>, dir: Path)

  /** The files the frames still owe. */
  function Owed(stack: seq<Frame>): set<Path>
  {
    if |stack| == 0 then {}
    else Owed(stack[..|stack| - 1]) + Files(stack[|stack| - 1].entries, stack[|stack| - 1].dir)
  }

  function Size(e: Entry): nat
    decreases e
  {
    match e
    case File(_) => 1
    case Dir(_, sub) => 1 + SizeAll(sub)
  }

  function SizeAll(es: seq<Entry>): nat
    decreases es
  {
    if |es| == 0 then 0 else Size(es[0]) + SizeAll(es[1..])
  }

  /** One for each frame and one for each entry below it. */
  function Weight(stack: seq<Frame>): nat
  {
    if |stack| == 0 then 0
    else Weight(stack[..|stack| - 1]) + 1 + SizeAll(stack[|stack| - 1].entries)
  }

  lemma Push(stack: seq<Frame>, f: Frame)
    ensures Owed(stack + [f]) == Owed(stack) + Files(f.entries, f.dir)
    ensures Weight(stack + [f]) == Weight(stack) + 1 + SizeAll(f.entries)
  {
    assert (stack + [f])[..|stack|] == stack;
  }

  lemma Unfold(es: seq<Entry>, j: nat, dir: Path)
    requires j < |es|
    ensures Files(es[j..], dir) == EntryFiles(es[j], dir) + Files(es[j + 1..], dir)
    ensures SizeAll(es[j..]) == Size(es[j]) + SizeAll(es[j + 1..])
  {
    assert es[j..][0] == es[j];
    assert es[j..][1..] == es[j + 1..];
  }

  /** One directory visited: its files are recorded and its subdirectories
      that are not excluded are pushed (the pruning of `dirnames`). */
  method Visit(es: seq<Entry>, dir: Path, files0: set<Path>, stack0: seq<Frame>)
    returns (files: set<Path>, stack: seq<Frame>)
    ensures files + Owed(stack) == files0 + Owed(stack0) + Files(es, dir)
    ensures Weight(stack) <= Weight(stack0) + SizeAll(es)
  {
    files, stack := files0, stack0;
    var j := 0;
    while j < |es|
      invariant j <= |es|
      invariant files + Owed(stack) + Files(es[j..], dir) == files0 + Owed(stack0) + Files(es, dir)
      invariant Weight(stack) + SizeAll(es[j..]) <= Weight(stack0) + SizeAll(es)
    {
      Unfold(es, j, dir);
      match es[j] {
        case File(n) =>
          files := files + {dir + [n]};
        case Dir(n, sub) =>
          if n !in Excluded {
            Push(stack, Frame(sub, dir + [n]));
            stack := stack + [Frame(sub, dir + [n])];
          }
      }
      j := j + 1;
    }
  }

  /** `snapshot_files`: the walk collects exactly the snapshot. */
  method SnapshotFiles(root: seq<Entry>) returns (files: set<Path>)
    ensures files == Snapshot(root)
  {
    files := {};
    var stack := [Frame(root, [])];
    Push([], Frame(root, []));
    while |stack| > 0
      invariant files + Owed(stack) == Snapshot(root)
      decreases Weight(stack)
    {
      var f := stack[|stack| - 1];
      stack := stack[..|stack| - 1];
      files, stack := Visit(f.entries, f.dir, files, stack);
    }
  }
}
