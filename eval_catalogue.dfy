/** The static catalogue `EXPERIMENTS`: twelve experiments, each with an
    optional EqSat phase and an optional lowering phase. */
module EvalCatalogue {

  import opened EvalPaths
  import opened EvalOption

  /** `PhaseConfig`: the branch whose checkout runs the test, the Scala
      test source relative to that checkout, and whether a nonzero sbt exit
      code is the expected outcome. */
  datatype PhaseConfig = PhaseConfig(branch: string, path: string, expectFailure: bool)

  datatype Experiment = Experiment(
    id: string, description: string,
    eqsat: Option<PhaseConfig>, lowering: Option<PhaseConfig>)

  /** The three branches cloned into the workspace. */
  const Branches: set<string> := {"new-test-tag", "new-test-tag-y", "eqsat-nn-extra-sync"}

  const Experiments: seq<Experiment> := [
    Experiment("1-vgg", "1. VGG",
      Some(PhaseConfig("new-test-tag", "src/test/eqsat/nn/SingleVGGTest.scala", false)),
      Some(PhaseConfig("new-test-tag", "src/test/algo/vgg8bits/VggFullBiasTest.scala", false))),
    Experiment("3-tinyyolo", "3. TinyYolo",
      Some(PhaseConfig("new-test-tag", "src/test/eqsat/nn/SingleYoloTest.scala", false)),
      Some(PhaseConfig("new-test-tag-y", "src/test/backend/hdl/arch/yolo/ShallowConvFullTest.scala", false))),
    Experiment("6-self-attention", "6. Self-attention",
      Some(PhaseConfig("eqsat-nn-extra-sync", "src/test/eqsat/nnExtra/SelfAttentionTest.scala", false)),
      Some(PhaseConfig("eqsat-nn-extra-sync", "src/test/eqsat/nnExtra/SelfAttentionLoweringTest.scala", false))),
    Experiment("10-stencil-4stage", "10. 4-stage stencil",
      Some(PhaseConfig("eqsat-nn-extra-sync", "src/test/eqsat/nnExtra/StencilTest.scala", false)),
      Some(PhaseConfig("eqsat-nn-extra-sync", "src/test/eqsat/nnExtra/StencilLoweringTest.scala", false))),
    Experiment("11-stencil-baseline", "11. 4-stage stencil baseline",
      None,
      Some(PhaseConfig("eqsat-nn-extra-sync", "src/test/eqsat/nnExtra/StencilNoSharingTest.scala", false))),
    Experiment("12-vgg-no-sharing", "12. VGG, no sharing",
      Some(PhaseConfig("new-test-tag", "src/test/eqsat/nn/SingleVGGNoSharingTest.scala", true)),
      None),
    Experiment("13-vgg-no-padding", "13. VGG, no padding",
      Some(PhaseConfig("new-test-tag", "src/test/eqsat/nn/SingleVggNoPaddingTest.scala", true)),
      None),
    Experiment("14-vgg-no-tiling", "14. VGG, no tiling",
      Some(PhaseConfig("new-test-tag", "src/test/eqsat/nn/SingleVGGNoTilingTest.scala", true)),
      None),
    Experiment("15-vgg-baseline-no-sharing", "15. VGG, baseline, no sharing",
      None,
      Some(PhaseConfig("eqsat-nn-extra-sync", "src/test/eqsat/nnExtra/VGGLoweringTest.scala", false))),
    Experiment("16-vgg-skeleshare-1abstr", "16. VGG, SkeleShare, 1 abstr",
      Some(PhaseConfig("new-test-tag", "src/test/eqsat/nn/SingleVGGHalfAbsTest.scala", false)),
      Some(PhaseConfig("new-test-tag", "src/test/eqsat/nn/VggConvHalfAbsTest.scala", false))),
    Experiment("17-vgg-quarter-dsps", "17. VGG, 1/4 DSPs",
      Some(PhaseConfig("new-test-tag", "src/test/eqsat/nn/SingleVGGFourthDSPTest.scala", false)),
      Some(PhaseConfig("new-test-tag", "src/test/algo/vgg8bits/VggConvFourthDSPTest.scala", false))),
    Experiment("19-vgg-half-dsps", "19. VGG, 1/2 DSPs",
      Some(PhaseConfig("new-test-tag", "src/test/eqsat/nn/SingleVGGHalfDSPTest.scala", false)),
      Some(PhaseConfig("new-test-tag", "src/test/algo/vgg8bits/VggConvHalfDSPTest.scala", false)))
  ]

  function Ids(es: seq<Experiment>): (r: seq<string>)
    ensures |r| == |es|
    ensures forall i :: 0 <= i < |es| ==> r[i] == es[i].id
  {
    if |es| == 0 then [] else [es[0].id] + Ids(es[1..])
  }

  lemma CatalogueSize()
    ensures |Experiments| == 12
  {
  }

  /** Experiment ids are pairwise distinct. */
  lemma IdsDistinct()
    ensures forall i, j :: 0 <= i < j < |Experiments| ==> Experiments[i].id != Experiments[j].id
  {
  }

  /** Only EqSat phases expect failure, and only in experiments without a
      lowering phase: the three VGG ablations 12, 13 and 14. */
  lemma ExpectedFailures()
    ensures forall i :: (0 <= i < |Experiments| && Experiments[i].eqsat.Some? &&
                         Experiments[i].eqsat.value.expectFailure) ==> Experiments[i].lowering.None?
    ensures forall i :: 0 <= i < |Experiments| && Experiments[i].lowering.Some? ==>
              !Experiments[i].lowering.value.expectFailure
    ensures forall i :: 0 <= i < |Experiments| ==>
              ((Experiments[i].eqsat.Some? && Experiments[i].eqsat.value.expectFailure) <==> 5 <= i <= 7)
  {
  }

  /** Every experiment has at least one phase, and every phase runs on one
      of the cloned branches. */
  lemma PhasesOnClonedBranches()
    ensures forall i :: 0 <= i < |Experiments| ==>
              Experiments[i].eqsat.Some? || Experiments[i].lowering.Some?
    ensures forall i :: 0 <= i < |Experiments| && Experiments[i].eqsat.Some? ==>
              Experiments[i].eqsat.value.branch in Branches
    ensures forall i :: 0 <= i < |Experiments| && Experiments[i].lowering.Some? ==>
              Experiments[i].lowering.value.branch in Branches
  {
  }

  /** Every id is a single path component, so each experiment has its own
      results directory. */
  lemma IdsArePlainNames()
    ensures forall i :: 0 <= i < |Experiments| ==> PlainName(Experiments[i].id)
  {
  }

  /** No two experiments share a results directory for the same phase. */
  lemma ResultDestsDistinct(sub: string)
    requires PlainName(sub)
    ensures forall i, j :: 0 <= i < j < |Experiments| ==>
              ResultDest(Experiments[i].id, sub) != ResultDest(Experiments[j].id, sub)
  {
    IdsDistinct();
    IdsArePlainNames();
    forall i, j | 0 <= i < j < |Experiments|
      ensures ResultDest(Experiments[i].id, sub) != ResultDest(Experiments[j].id, sub)
    {
      if ResultDest(Experiments[i].id, sub) == ResultDest(Experiments[j].id, sub) {
        ResultDestInjective(Experiments[i].id, Experiments[j].id, sub);
      }
    }
  }
}
