/** `main` of the experiment harness: the `--only` filter over the
    catalogue, the ids it reports as unknown, the `--phase` choice, and the
    order in which phases are run or skipped. */
module EvalMain {

  import opened EvalOption
  import opened EvalCatalogue

  // ---------------------------------------------------------------------
  // `str.strip()` and `str.split(",")`.

  /** Python's `str.isspace` for one character. */
  predicate IsSpace(c: char)
  {
    ('\t' <= c <= '\r') || ('\U{1C}' <= c <= ' ') || c == '\U{85}' || c == '\U{A0}' ||
    c == '\U{1680}' || ('\U{2000}' <= c <= '\U{200A}') || c == '\U{2028}' || c == '\U{2029}' ||
    c == '\U{202F}' || c == '\U{205F}' || c == '\U{3000}'
  }

  /** `s[i..j]` is all whitespace. */
  predicate AllSpace(s: string, i: nat, j: nat)
    requires i <= j <= |s|
  {
    forall k :: i <= k < j ==> IsSpace(s[k])
  }

  function StripLeft(s: string): (r: string)
    ensures |r| <= |s| && r == s[|s| - |r|..]
    ensures AllSpace(s, 0, |s| - |r|)
    ensures r == "" || !IsSpace(r[0])
  {
    if |s| == 0 || !IsSpace(s[0]) then s
    else StripLeft(s[1..])
  }

  function StripRight(s: string): (r: string)
    ensures |r| <= |s| && r == s[..|r|]
    ensures AllSpace(s, |r|, |s|)
    ensures r == "" || !IsSpace(r[|r| - 1])
  {
    if |s| == 0 || !IsSpace(s[|s| - 1]) then s
    else StripRight(s[..|s| - 1])
  }

  /** `str.strip()`: leading and trailing whitespace removed. */
  function Strip(s: string): string
  {
    StripRight(StripLeft(s))
  }

  /** What `strip` keeps is a slice of the input, bordered by non-blank
      characters, with only whitespace cut on either side. */
  lemma StripSlice(s: string)
    ensures var r := Strip(s);
            exists i, j :: 0 <= i <= j <= |s| && r == s[i..j] &&
                           AllSpace(s, 0, i) && AllSpace(s, j, |s|)
    ensures var r := Strip(s); r == "" || (!IsSpace(r[0]) && !IsSpace(r[|r| - 1]))
  {
    var l := StripLeft(s);
    SliceOfSlice(s, |s| - |l|, StripRight(l));
  }

  /** Trailing whitespace of a suffix is trailing whitespace of the whole. */
  lemma SliceOfSlice(s: string, i: nat, r: string)
    requires i <= |s| && |r| <= |s| - i && r == s[i..][..|r|]
    requires AllSpace(s, 0, i) && AllSpace(s[i..], |r|, |s| - i)
    ensures 0 <= i <= i + |r| <= |s| && r == s[i..i + |r|]
    ensures AllSpace(s, 0, i) && AllSpace(s, i + |r|, |s|)
  {
    assert forall k :: i + |r| <= k < |s| ==> s[k] == s[i..][k - i];
  }

  /** A piece survives `if x.strip()` exactly when it is not all
      whitespace. */
  lemma StripEmpty(s: string)
    ensures Strip(s) == "" <==> AllSpace(s, 0, |s|)
  {
  }

  /** `s.split(",")`: the pieces between commas; never an empty list. */
  function Split(s: string): (r: seq<string>)
    ensures |r| >= 1
    ensures forall i :: 0 <= i < |r| ==> ',' !in r[i]
  {
    if |s| == 0 then [""]
    else if s[0] == ',' then [""] + Split(s[1..])
    else
      var rest := Split(s[1..]);
      [[s[0]] + rest[0]] + rest[1..]
  }

  /** `",".join(pieces)`. */
  function Join(pieces: seq<string>): string
    requires |pieces| >= 1
  {
    if |pieces| == 1 then pieces[0] else pieces[0] + "," + Join(pieces[1..])
  }

  lemma {:induction false} JoinSplit(s: string)
    ensures Join(Split(s)) == s
  {
    if |s| > 0 {
      JoinSplit(s[1..]);
      var rest := Split(s[1..]);
      if s[0] == ',' {
        assert ([""] + rest)[1..] == rest;
      } else {
        var r := [[s[0]] + rest[0]] + rest[1..];
        if |rest| == 1 {
          assert s == [s[0]] + s[1..];
        } else {
          assert r[1..] == rest[1..];
          assert Join(rest) == rest[0] + "," + Join(rest[1..]);
          assert s == [s[0]] + s[1..];
        }
      }
    }
  }

  lemma JoinHead(pieces: seq<string>)
    requires |pieces| >= 1 && |pieces[0]| > 0
    ensures Join(pieces) == [pieces[0][0]] + Join([pieces[0][1..]] + pieces[1..])
  {
    var p := pieces[0];
    var tail := [p[1..]] + pieces[1..];
    assert tail[1..] == pieces[1..];
    assert p == [p[0]] + p[1..];
    if |pieces| > 1 {
      assert Join(tail) == p[1..] + "," + Join(pieces[1..]);
    }
  }

  lemma SplitHead(c: char, t: string)
    requires c != ','
    ensures Split([c] + t) == [[c] + Split(t)[0]] + Split(t)[1..]
  {
    assert ([c] + t)[1..] == t;
  }

  lemma SplitComma(t: string)
    ensures Split("," + t) == [""] + Split(t)
  {
    assert ("," + t)[1..] == t;
  }

  lemma {:induction false} SplitJoin(pieces: seq<string>)
    requires |pieces| >= 1
    requires forall i :: 0 <= i < |pieces| ==> ',' !in pieces[i]
    ensures Split(Join(pieces)) == pieces
    decreases |pieces|, |pieces[0]|
  {
    var p := pieces[0];
    if |p| > 0 {
      var tail := [p[1..]] + pieces[1..];
      assert forall i :: 1 <= i < |tail| ==> tail[i] == pieces[i];
      SplitJoin(tail);
      JoinHead(pieces);
      assert p[0] in p;
      SplitHead(p[0], Join(tail));
      assert [p[0]] + p[1..] == p;
      assert tail[1..] == pieces[1..];
    } else if |pieces| > 1 {
      SplitJoin(pieces[1..]);
      assert Join(pieces) == "," + Join(pieces[1..]);
      SplitComma(Join(pieces[1..]));
      assert [""] + pieces[1..] == pieces;
    }
  }

  // ---------------------------------------------------------------------
  // `--only`.

  /** `{x.strip() for x in pieces if x.strip()}`: exactly the stripped
      pieces that are not blank. */
  function WantedOf(pieces: seq<string>): (r: set<string>)
    ensures forall t :: t in r <==> t != "" && exists i :: 0 <= i < |pieces| && Strip(pieces[i]) == t
  {
    set i | 0 <= i < |pieces| && Strip(pieces[i]) != "" :: Strip(pieces[i])
  }

  function Wanted(only: string): set<string>
  {
    WantedOf(Split(only))
  }

  /** `b` keeps the elements of `a` it lists, in the same order. */
  predicate Subsequence<T(==)>(a: seq<T>, b: seq<T>)
  {
    |a| == 0 || (|b| > 0 && ((a[0] == b[0] && Subsequence(a[1..], b[1..])) || Subsequence(a, b[1..])))
  }

  /** `[e for e in es if e.id in wanted]`. */
  function Filter(es: seq<Experiment>, wanted: set<string>): (r: seq<Experiment>)
    ensures forall e :: e in r <==> e in es && e.id in wanted
    ensures Subsequence(r, es)
  {
    if |es| == 0 then []
    else
      var rest := Filter(es[1..], wanted);
      if es[0].id in wanted then
        assert ([es[0]] + rest)[1..] == rest;
        [es[0]] + rest
      else rest
  }

  /** The experiments `main` runs from the catalogue `cat`: all of it when
      `--only` is absent or empty, otherwise those whose id was asked for,
      in catalogue order. */
  function Selected(cat: seq<Experiment>, only: Option<string>): (r: seq<Experiment>)
    ensures Subsequence(r, cat)
    ensures only.None? || only.value == "" ==> r == cat
  {
    if only.None? || only.value == "" then
      SubsequenceRefl(cat);
      cat
    else Filter(cat, Wanted(only.value))
  }

  lemma {:induction false} SubsequenceRefl<T>(a: seq<T>)
    ensures Subsequence(a, a)
    decreases |a|
  {
    if |a| > 0 {
      SubsequenceRefl(a[1..]);
    }
  }

  function IdSet(es: seq<Experiment>): set<string>
  {
    set e | e in es :: e.id
  }

  /** `wanted - {e.id for e in experiments}`: reported, never fatal. */
  function Unknown(cat: seq<Experiment>, only: string): (r: set<string>)
    ensures r <= Wanted(only)
    ensures forall i :: 0 <= i < |cat| ==> cat[i].id !in r
  {
    assert forall i :: 0 <= i < |cat| && cat[i].id in Wanted(only) ==>
             cat[i].id in IdSet(Filter(cat, Wanted(only))) by {
      forall i | 0 <= i < |cat| {
        FilterIds(cat, Wanted(only), i);
      }
    }
    Wanted(only) - IdSet(Filter(cat, Wanted(only)))
  }

  /** With a non-empty `--only`, an experiment is selected exactly when it
      is in the catalogue and its id was requested. */
  lemma SelectedMembers(cat: seq<Experiment>, only: string, e: Experiment)
    requires only != ""
    ensures e in Selected(cat, Some(only)) <==> e in cat && e.id in Wanted(only)
  {
  }

  lemma FilterIds(cat: seq<Experiment>, wanted: set<string>, i: nat)
    requires i < |cat|
    ensures cat[i].id in wanted ==> cat[i].id in IdSet(Filter(cat, wanted))
  {
    if cat[i].id in wanted {
      assert cat[i] in Filter(cat, wanted);
    }
  }

  /** The unknown ids are exactly the requested ids no experiment has. */
  lemma UnknownMembers(cat: seq<Experiment>, only: string, t: string)
    ensures t in Unknown(cat, only) <==>
              t in Wanted(only) && forall i :: 0 <= i < |cat| ==> cat[i].id != t
  {
    var sel := Filter(cat, Wanted(only));
    if t in Wanted(only) && t !in IdSet(sel) {
      forall i | 0 <= i < |cat|
        ensures cat[i].id != t
      {
        FilterIds(cat, Wanted(only), i);
      }
    }
    if t in IdSet(sel) {
      var e :| e in sel && e.id == t;
      var i :| 0 <= i < |cat| && cat[i] == e;
    }
  }

  // ---------------------------------------------------------------------
  // `--phase` and the dispatch loop.

  datatype Phase = EqSat | Lowering | Both

  /** argparse's default: the lowering phases only. */
  const DefaultPhase: Phase := Lowering

  function PhaseName(p: Phase): string
  {
    match p
    case EqSat => "eqsat"
    case Lowering => "lowering"
    case Both => "both"
  }

  /** The `choices` of `--phase`; anything else is rejected. */
  function ParsePhase(arg: string): (r: Option<Phase>)
    ensures r.Some? ==> PhaseName(r.value) == arg
  {
    if arg == "eqsat" then Some(EqSat)
    else if arg == "lowering" then Some(Lowering)
    else if arg == "both" then Some(Both)
    else None
  }

  lemma ParsePhaseName(p: Phase)
    ensures ParsePhase(PhaseName(p)) == Some(p)
  {
    assert "lowering" != "eqsat" && "both" != "eqsat" && "both" != "lowering" by {
      assert "lowering"[0] != "eqsat"[0] && "both"[0] != "eqsat"[0] && "both"[0] != "lowering"[0];
    }
  }

  predicate RunsEqsat(p: Phase)
  {
    p == EqSat || p == Both
  }

  predicate RunsLowering(p: Phase)
  {
    p == Lowering || p == Both
  }

  /** How many phases `--phase` runs for each experiment. */
  function PhaseCount(p: Phase): nat
  {
    (if RunsEqsat(p) then 1 else 0) + (if RunsLowering(p) then 1 else 0)
  }

  datatype Step =
    | EqsatRun(exp: Experiment, cfg: PhaseConfig)
    | EqsatSkip(id: string)
    | LoweringRun(exp: Experiment, cfg: PhaseConfig)
    | LoweringSkip(id: string)
  {
    predicate IsEqsat()
    {
      EqsatRun? || EqsatSkip?
    }
  }

  /** One iteration of the loop in `main`: the EqSat branch, then the
      lowering branch. */
  function ExperimentSteps(e: Experiment, phase: Phase): (r: seq<Step>)
    ensures |r| <= 2 && |r| == PhaseCount(phase)
    ensures forall i, j :: 0 <= i < j < |r| ==> r[i].IsEqsat() && !r[j].IsEqsat()
  {
    var eqsat: seq<Step> :=
      if !RunsEqsat(phase) then []
      else if e.eqsat.Some? then [EqsatRun(e, e.eqsat.value)]
      else [EqsatSkip(e.id)];
    var lowering: seq<Step> :=
      if !RunsLowering(phase) then []
      else if e.lowering.Some? then [LoweringRun(e, e.lowering.value)]
      else [LoweringSkip(e.id)];
    assert forall i :: 0 <= i < |eqsat| ==> eqsat[i].IsEqsat();
    assert forall j :: 0 <= j < |lowering| ==> !lowering[j].IsEqsat();
    eqsat + lowering
  }

  /** All iterations, in the order of `es`. */
  function Plan(es: seq<Experiment>, phase: Phase): (r: seq<Step>)
    ensures |r| == |es| * PhaseCount(phase)
  {
    if |es| == 0 then [] else Plan(es[..|es| - 1], phase) + ExperimentSteps(es[|es| - 1], phase)
  }

  /** The loop of `main` over the selected experiments. */
  method Dispatch(es: seq<Experiment>, phase: Phase) returns (steps: seq<Step>)
    ensures steps == Plan(es, phase)
  {
    steps := [];
    for k := 0 to |es|
      invariant steps == Plan(es[..k], phase)
    {
      assert es[..k + 1][..k] == es[..k];
      steps := steps + ExperimentSteps(es[k], phase);
    }
    assert es[..|es|] == es;
  }

  lemma {:induction false} PlanAppend(a: seq<Experiment>, b: seq<Experiment>, phase: Phase)
    ensures Plan(a + b, phase) == Plan(a, phase) + Plan(b, phase)
    decreases |b|
  {
    if |b| > 0 {
      var b' := b[..|b| - 1];
      assert (a + b)[..|a + b| - 1] == a + b';
      PlanAppend(a, b', phase);
    } else {
      assert a + b == a;
    }
  }

  /** Step `s` is what `main` does for `e`: a phase runs when it was chosen
      and `e` has a configuration for it, and is skipped, which is never an
      error, when it was chosen and there is none. */
  predicate StepOf(e: Experiment, phase: Phase, s: Step)
  {
    match s
    case EqsatRun(x, c) => RunsEqsat(phase) && x == e && e.eqsat == Some(c)
    case EqsatSkip(id) => RunsEqsat(phase) && id == e.id && e.eqsat.None?
    case LoweringRun(x, c) => RunsLowering(phase) && x == e && e.lowering == Some(c)
    case LoweringSkip(id) => RunsLowering(phase) && id == e.id && e.lowering.None?
  }

  lemma ExperimentStepsMembers(e: Experiment, phase: Phase, s: Step)
    ensures s in ExperimentSteps(e, phase) <==> StepOf(e, phase, s)
  {
  }

  /** The steps of `main` are exactly the steps of the selected
      experiments. */
  lemma {:induction false} PlanSteps(es: seq<Experiment>, phase: Phase, s: Step)
    ensures s in Plan(es, phase) <==> exists k :: 0 <= k < |es| && StepOf(es[k], phase, s)
    decreases |es|
  {
    if |es| > 0 {
      var init := es[..|es| - 1];
      PlanSteps(init, phase, s);
      ExperimentStepsMembers(es[|es| - 1], phase, s);
      if exists k :: 0 <= k < |es| && StepOf(es[k], phase, s) {
        var k :| 0 <= k < |es| && StepOf(es[k], phase, s);
        if k < |es| - 1 {
          assert init[k] == es[k];
        }
      }
      if exists k :: 0 <= k < |init| && StepOf(init[k], phase, s) {
        var k :| 0 <= k < |init| && StepOf(init[k], phase, s);
        assert init[k] == es[k];
      }
    }
  }

  /** With the default `--phase`, no EqSat phase runs. */
  lemma DefaultRunsNoEqsat(es: seq<Experiment>, s: Step)
    requires s in Plan(es, DefaultPhase)
    ensures !s.IsEqsat()
  {
    PlanSteps(es, DefaultPhase, s);
  }

  /** The whole of `main` before any phase runs: what is selected and what
      is done for it. */
  method Run(only: Option<string>, phase: Phase) returns (steps: seq<Step>, unknown: set<string>)
    ensures steps == Plan(Selected(Experiments, only), phase)
    ensures only.Some? && only.value != "" ==> unknown == Unknown(Experiments, only.value)
    ensures only.None? || only.value == "" ==> unknown == {}
  {
    var experiments: seq<Experiment>;
    if only.Some? && only.value != "" {
      var wanted := Wanted(only.value);
      experiments := Filter(Experiments, wanted);
      unknown := wanted - IdSet(experiments);
    } else {
      experiments := Experiments;
      unknown := {};
    }
    steps := Dispatch(experiments, phase);
  }
}
