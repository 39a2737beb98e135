/** The two phase runners, `run_eqsat_phase` and `run_lowering_phase`. The
    file system and sbt are inputs: the trees of the checkout before and
    after the test, whether `out/` and the results directory exist, and the
    exit code. A run is the list of file-system and process actions it
    performs, in order, and the exception it ends with, if any. */
module EvalPhases {

  import opened EvalOption
  import opened EvalPaths
  import opened EvalSnapshot
  import opened EvalCatalogue
  import opened EvalSbt

  datatype Action =
    | RunSbt(cwd: string, cmd: seq<string>)
    | RemoveTree(path: string)
    | CopyFiles(from: string, files: set<Path>, to: string)
    | CopyTree(from: string, to: string)

  datatype PhaseRun = PhaseRun(actions: seq<Action>, error: Option<SbtOutcome>)

  /** The files the EqSat test created: present after, absent before. */
  function NewFiles(before: set<Path>, after: set<Path>): (r: set<Path>)
    ensures r <= after && r !! before
    ensures after <= before + r
  {
    after - before
  }

  /** `run_eqsat_phase`: snapshot, run, snapshot again, copy what is new. */
  function EqsatPhase(id: string, cfg: PhaseConfig, exitCode: int,
                      beforeTree: seq<Entry>, afterTree: seq<Entry>): (r: PhaseRun)
    ensures |r.actions| >= 1
    ensures r.actions[0] == RunSbt(ShirRepoDir(cfg.branch), SbtCommand(cfg.path))
  {
    var repo := ShirRepoDir(cfg.branch);
    var run := RunSbt(repo, SbtCommand(cfg.path));
    var outcome := RunSbtTest(cfg.path, cfg.expectFailure, exitCode);
    if outcome.Raises() then PhaseRun([run], Some(outcome))
    else
      var created := NewFiles(Snapshot(beforeTree), Snapshot(afterTree));
      if created == {} then PhaseRun([run], None)
      else PhaseRun([run, CopyFiles(repo, created, ResultDest(id, "eqsat"))], None)
  }

  /** The EqSat phase fails exactly when the exit code contradicts the
      configuration, copies exactly the new files to `<id>/eqsat` when there
      are some, and otherwise does nothing more and succeeds. */
  lemma EqsatPhaseOutcome(id: string, cfg: PhaseConfig, exitCode: int,
                          beforeTree: seq<Entry>, afterTree: seq<Entry>)
    ensures var r := EqsatPhase(id, cfg, exitCode, beforeTree, afterTree);
            var created := Snapshot(afterTree) - Snapshot(beforeTree);
            && (r.error.Some? <==> (cfg.expectFailure <==> exitCode == 0))
            && (r.error.Some? ==> r.error.value == RunSbtTest(cfg.path, cfg.expectFailure, exitCode))
            && (r.error.None? && created == {} ==> |r.actions| == 1)
            && (r.error.None? && created != {} ==>
                  r.actions == [r.actions[0], CopyFiles(ShirRepoDir(cfg.branch), created, ResultDest(id, "eqsat"))])
            && (r.error.Some? ==> |r.actions| == 1)
  {
  }

  /** What the EqSat phase copies is a file of the checkout after the run,
      below no excluded directory, that was not there before: a file that
      existed and was only rewritten is never copied. */
  lemma EqsatCopiesOnlyNewFiles(id: string, cfg: PhaseConfig, exitCode: int,
                                beforeTree: seq<Entry>, afterTree: seq<Entry>, p: Path)
    requires var r := EqsatPhase(id, cfg, exitCode, beforeTree, afterTree);
             |r.actions| == 2 && r.actions[1].CopyFiles? && p in r.actions[1].files
    ensures Reaches(afterTree, p) && Kept(p)
    ensures p !in Snapshot(beforeTree)
  {
    SnapshotMembers(afterTree, p);
  }

  /** `os.path.join(repo, "out")`: where the lowering test writes. */
  function OutDir(branch: string): string
  {
    PathJoin(ShirRepoDir(branch), "out")
  }

  /** The removal of a path if it exists. */
  function RemoveIfPresent(present: bool, path: string): (r: seq<Action>)
    ensures |r| <= 1 && forall a :: a in r ==> a == RemoveTree(path)
  {
    if present then [RemoveTree(path)] else []
  }

  /** What follows the test in the lowering phase: with a successful run
      that produced `out/`, the copy to `<id>/vhdl`, replacing an earlier
      copy; otherwise nothing. */
  function LoweringCopy(out: string, dest: string, succeeded: bool,
                        outAfter: bool, destBefore: bool): (r: seq<Action>)
    ensures |r| <= 2 && forall a :: a in r ==> a == RemoveTree(dest) || a == CopyTree(out, dest)
  {
    if succeeded && outAfter then RemoveIfPresent(destBefore, dest) + [CopyTree(out, dest)]
    else []
  }

  /** The lowering phase given its paths, the test command and how the
      test ended: clear `out/`, run, then copy `out/` if the run succeeded
      and produced it. */
  function LoweringSteps(out: string, dest: string, run: Action, outcome: SbtOutcome,
                         outBefore: bool, outAfter: bool, destBefore: bool): (r: PhaseRun)
    ensures 1 <= |r.actions| <= 4
    ensures forall a :: a in r.actions ==>
              a == run || a == RemoveTree(out) || a == RemoveTree(dest) || a == CopyTree(out, dest)
  {
    PhaseRun(RemoveIfPresent(outBefore, out) + [run] +
               LoweringCopy(out, dest, !outcome.Raises(), outAfter, destBefore),
             if outcome.Raises() then Some(outcome) else None)
  }

  /** `run_lowering_phase`: clear `out/`, run, copy `out/` to `<id>/vhdl`. */
  function LoweringPhase(id: string, cfg: PhaseConfig, exitCode: int,
                         outBefore: bool, outAfter: bool, destBefore: bool): (r: PhaseRun)
    ensures 1 <= |r.actions| <= 4
    ensures forall a :: a in r.actions ==>
              || a == RunSbt(ShirRepoDir(cfg.branch), SbtCommand(cfg.path))
              || a == RemoveTree(OutDir(cfg.branch))
              || a == RemoveTree(ResultDest(id, "vhdl"))
              || a == CopyTree(OutDir(cfg.branch), ResultDest(id, "vhdl"))
  {
    LoweringSteps(OutDir(cfg.branch), ResultDest(id, "vhdl"),
                  RunSbt(ShirRepoDir(cfg.branch), SbtCommand(cfg.path)),
                  RunSbtTest(cfg.path, false, exitCode), outBefore, outAfter, destBefore)
  }

  /** The order of the lowering phase's actions, whatever the paths. */
  lemma LoweringStepsOrder(out: string, dest: string, run: Action, outcome: SbtOutcome,
                           outBefore: bool, outAfter: bool, destBefore: bool)
    ensures var r := LoweringSteps(out, dest, run, outcome, outBefore, outAfter, destBefore);
            var n := |r.actions|;
            var k := if outBefore then 1 else 0;
            && n > k
            && (outBefore ==> r.actions[0] == RemoveTree(out))
            && r.actions[k] == run
            && (n - 1 > k <==> !outcome.Raises() && outAfter)
            && (n - 1 > k ==> r.actions[n - 1] == CopyTree(out, dest))
            && (n - 1 > k ==> (n - 2 > k <==> destBefore))
            && (n - 2 > k ==> r.actions[n - 2] == RemoveTree(dest))
  {
    var clean := RemoveIfPresent(outBefore, out);
    var tail := LoweringCopy(out, dest, !outcome.Raises(), outAfter, destBefore);
    var all := clean + [run] + tail;
    assert all[|clean|] == run;
    if outBefore {
      assert all[0] == clean[0];
    }
    if |tail| > 0 {
      assert all[|all| - 1] == tail[|tail| - 1];
    }
    if |tail| == 2 {
      assert all[|all| - 2] == tail[0];
    }
  }

  /** The lowering phase never expects failure: its configuration's flag
      is not consulted. */
  lemma LoweringIgnoresExpectFailure(id: string, cfg: PhaseConfig, flag: bool, exitCode: int,
                                     outBefore: bool, outAfter: bool, destBefore: bool)
    ensures LoweringPhase(id, cfg.(expectFailure := flag), exitCode, outBefore, outAfter, destBefore)
         == LoweringPhase(id, cfg, exitCode, outBefore, outAfter, destBefore)
  {
  }

  /** The lowering phase fails exactly on a nonzero exit code, with
      `CalledProcessError`. */
  lemma LoweringPhaseError(id: string, cfg: PhaseConfig, exitCode: int,
                           outBefore: bool, outAfter: bool, destBefore: bool)
    ensures var r := LoweringPhase(id, cfg, exitCode, outBefore, outAfter, destBefore);
            && (r.error.Some? <==> exitCode != 0)
            && (r.error.Some? ==> r.error.value == ProcessError(exitCode, SbtCommand(cfg.path)))
  {
  }

  /** A stale `out/` is always removed before the test runs. */
  lemma LoweringCleansFirst(id: string, cfg: PhaseConfig, exitCode: int,
                            outBefore: bool, outAfter: bool, destBefore: bool)
    ensures var r := LoweringPhase(id, cfg, exitCode, outBefore, outAfter, destBefore);
            var k := if outBefore then 1 else 0;
            && |r.actions| > k
            && (outBefore ==> r.actions[0] == RemoveTree(OutDir(cfg.branch)))
            && r.actions[k] == RunSbt(ShirRepoDir(cfg.branch), SbtCommand(cfg.path))
  {
    LoweringStepsOrder(OutDir(cfg.branch), ResultDest(id, "vhdl"),
                       RunSbt(ShirRepoDir(cfg.branch), SbtCommand(cfg.path)),
                       RunSbtTest(cfg.path, false, exitCode), outBefore, outAfter, destBefore);
  }

  /** The tree is copied exactly when the run succeeded and produced
      `out/`, as the last action, after any earlier copy was removed. */
  lemma LoweringCopiesLast(id: string, cfg: PhaseConfig, exitCode: int,
                           outBefore: bool, outAfter: bool, destBefore: bool)
    ensures var r := LoweringPhase(id, cfg, exitCode, outBefore, outAfter, destBefore);
            var n := |r.actions|;
            var k := if outBefore then 1 else 0;
            var dest := ResultDest(id, "vhdl");
            && n > k
            && (n - 1 > k <==> exitCode == 0 && outAfter)
            && (n - 1 > k ==> r.actions[n - 1] == CopyTree(OutDir(cfg.branch), dest))
            && (n - 1 > k ==> (n - 2 > k <==> destBefore))
            && (n - 2 > k ==> r.actions[n - 2] == RemoveTree(dest))
  {
    LoweringStepsOrder(OutDir(cfg.branch), ResultDest(id, "vhdl"),
                       RunSbt(ShirRepoDir(cfg.branch), SbtCommand(cfg.path)),
                       RunSbtTest(cfg.path, false, exitCode), outBefore, outAfter, destBefore);
  }
}
