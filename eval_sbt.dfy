/** `run_sbt_test`: runs one Scala test class with sbt in a checkout and
    judges its exit code. The process itself is not modelled: its exit code
    is an input. */
module EvalSbt {

  import opened EvalPaths

  /** The command line: sbt with a 32 MiB thread stack, running one class. */
  function SbtCommand(testPath: string): (r: seq<string>)
    ensures |r| == 3 && r[0] == "sbt" && IsPrefix("testOnly ", r[2])
    ensures r[2][|"testOnly "|..] == Fqcn(testPath)
  {
    ["sbt", "-J-Xss32m", "testOnly " + Fqcn(testPath)]
  }

  /** Two test sources give the same command exactly when they name the
      same class. */
  lemma SbtCommandDeterminesClass(p: string, q: string)
    ensures SbtCommand(p) == SbtCommand(q) <==> Fqcn(p) == Fqcn(q)
  {
    if SbtCommand(p) == SbtCommand(q) {
      assert SbtCommand(p)[2] == SbtCommand(q)[2];
      CancelPrefix("testOnly ", Fqcn(p), Fqcn(q));
    }
  }

  /** How a run ends: it returns normally (`Passed`, `FailedAsExpected`), or
      raises `RuntimeError` (`UnexpectedSuccess`) or
      `subprocess.CalledProcessError` (`ProcessError`). */
  datatype SbtOutcome =
    | Passed
    | FailedAsExpected(code: int)
    | UnexpectedSuccess(fqcn: string)
    | ProcessError(code: int, cmd: seq<string>)
  {
    predicate Raises()
    {
      UnexpectedSuccess? || ProcessError?
    }
  }

  /** The exit-code policy of `run_sbt_test`. */
  function RunSbtTest(testPath: string, expectFailure: bool, exitCode: int): (r: SbtOutcome)
    ensures r.Raises() <==> (expectFailure <==> exitCode == 0)
    ensures expectFailure ==> r.FailedAsExpected? || r.UnexpectedSuccess?
    ensures !expectFailure ==> r.Passed? || r.ProcessError?
    ensures r.FailedAsExpected? || r.ProcessError? ==> r.code == exitCode
    ensures r.ProcessError? ==> r.cmd == SbtCommand(testPath)
    ensures r.UnexpectedSuccess? ==> r.fqcn == Fqcn(testPath)
  {
    if expectFailure then
      if exitCode == 0 then UnexpectedSuccess(Fqcn(testPath)) else FailedAsExpected(exitCode)
    else
      if exitCode != 0 then ProcessError(exitCode, SbtCommand(testPath)) else Passed
  }

  /** Exactly one of the two exit-code classes is acceptable, and which one
      the flag decides. */
  lemma PolicyFlips(testPath: string, exitCode: int)
    ensures RunSbtTest(testPath, true, exitCode).Raises() != RunSbtTest(testPath, false, exitCode).Raises()
  {
  }
}
