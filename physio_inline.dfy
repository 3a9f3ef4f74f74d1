/** The physio check the summary actually runs: a session has physio data when one of its
    analyses lists a ".csv" file whose name contains "FitData" or "FitTrig", letter case
    significant. The configured detector of FlywheelUtils is not consulted. */
module PhysioInline {
  import opened Strings
  import opened Archive
  import FlywheelUtils
  import Config

  /** The file test of the summary: a name ending in ".csv" with "FitData" or "FitTrig"
      occurring at some offset, letter case significant. */
  predicate IsPhysioCsv(name: string)
    ensures IsPhysioCsv(name) <==>
      (EndsWith(name, ".csv")
        && exists i :: 0 <= i <= |name| - 7 && (StartsWith(name[i..], "FitData") || StartsWith(name[i..], "FitTrig")))
  {
    ContainsAt(name, "FitData");
    ContainsAt(name, "FitTrig");
    EndsWith(name, ".csv") && (Contains(name, "FitData") || Contains(name, "FitTrig"))
  }

  predicate AnalysisHasPhysio(analysis: Analysis)
  {
    analysis.files.Some? && exists name :: name in analysis.files.value && IsPhysioCsv(name)
  }

  /** The session-level flag: some analysis of the session has a physio CSV. */
  predicate SessionHasPhysio(analyses: seq<Analysis>)
  {
    exists analysis :: analysis in analyses && AnalysisHasPhysio(analysis)
  }

  /** Scans the analyses and their files in order and stops at the first physio CSV. */
  method CheckSessionPhysio(analyses: seq<Analysis>) returns (hasPhysio: bool)
    ensures hasPhysio <==> SessionHasPhysio(analyses)
    ensures analyses == [] ==> !hasPhysio
  {
    hasPhysio := false;
    var i := 0;
    while i < |analyses|
      invariant 0 <= i <= |analyses|
      invariant !hasPhysio
      invariant forall k :: 0 <= k < i ==> !AnalysisHasPhysio(analyses[k])
    {
      var analysis := analyses[i];
      if analysis.files.Some? && analysis.files.value != [] {
        var files := analysis.files.value;
        var j := 0;
        while j < |files|
          invariant 0 <= j <= |files|
          invariant !hasPhysio
          invariant forall m :: 0 <= m < j ==> !IsPhysioCsv(files[m])
        {
          var name := files[j];
          if EndsWith(name, ".csv") {
            if Contains(name, "FitData") || Contains(name, "FitTrig") {
              hasPhysio := true;
              assert name in analysis.files.value && IsPhysioCsv(name);
              break;
            }
          }
          j := j + 1;
        }
      }
      if hasPhysio {
        assert analysis in analyses;
        break;
      }
      i := i + 1;
    }
  }

  /** A session without analyses has no physio data. */
  lemma NoAnalysesNoPhysio()
    ensures !SessionHasPhysio([])
  {
  }

  /** The inline check and the configured detector disagree: the configured names spell
      "FItData" with a capital I, so a file carrying exactly a configured name fails the
      inline check. */
  lemma ConfiguredNameFailsInlineCheck()
    ensures FlywheelUtils.FindPhysioFiles(Analysis(Some(["PPG_FItData.csv"])))
    ensures !AnalysisHasPhysio(Analysis(Some(["PPG_FItData.csv"])))
  {
    assert Config.PhysioFilePatterns[0] in Config.PhysioFilePatterns;
    // The configured name has no lower-case 'i'.
    NotContainsMissingChar("PPG_FItData.csv", "FitData", 1);
    NotContainsMissingChar("PPG_FItData.csv", "FitTrig", 1);
  }

  /** Every configured name is found by the configured detector. */
  lemma ConfiguredNamesFound()
    ensures forall p :: p in Config.PhysioFilePatterns ==> FlywheelUtils.FindPhysioFiles(Analysis(Some([p])))
  {
    forall p | p in Config.PhysioFilePatterns
      ensures FlywheelUtils.FindPhysioFiles(Analysis(Some([p])))
    {
      assert p in [p];
    }
  }

  /** Every configured name is rejected by the inline check: each spells "FIt" with its only
      capital F, so "FitData" and "FitTrig" occur nowhere in it. */
  lemma ConfiguredNamesFailInlineCheck()
    ensures forall p :: p in Config.PhysioFilePatterns ==> !IsPhysioCsv(p)
  {
    forall p | p in Config.PhysioFilePatterns
      ensures !IsPhysioCsv(p)
    {
      var k :| 0 <= k < |Config.PhysioFilePatterns| && Config.PhysioFilePatterns[k] == p;
      PatternRejected(k);
    }
  }

  lemma PatternRejected(k: nat)
    requires k < |Config.PhysioFilePatterns|
    ensures !IsPhysioCsv(Config.PhysioFilePatterns[k])
  {
    var name := Config.PhysioFilePatterns[k];
    if k == 0 {
      NameRejected(name, "PPG_", "tData.csv");
    } else if k == 1 {
      NameRejected(name, "PPG_", "tTrig.csv");
    } else if k == 2 {
      NameRejected(name, "RESP_", "tData.csv");
    } else {
      NameRejected(name, "RESP_", "tTrig.csv");
    }
  }

  lemma NameRejected(name: string, pre: string, post: string)
    requires name == pre + "FI" + post
    requires 'F' !in pre && 'F' !in post
    ensures !IsPhysioCsv(name)
  {
    NoFitAround(pre, post);
  }

  /** A name whose only capital F is followed by a capital I contains neither "FitData" nor
      "FitTrig". */
  lemma NoFitAround(pre: string, post: string)
    requires 'F' !in pre && 'F' !in post
    ensures !IsPhysioCsv(pre + "FI" + post)
  {
    var name := pre + "FI" + post;
    forall i | 0 <= i <= |name| - 7
      ensures !StartsWith(name[i..], "FitData") && !StartsWith(name[i..], "FitTrig")
    {
      assert name[i..][0] == name[i] && name[i..][1] == name[i + 1];
      if i < |pre| {
        assert name[i] == pre[i];
      } else if i > |pre| + 1 {
        assert name[i] == post[i - |pre| - 2];
      }
    }
  }

  /** ... and the inline check accepts names that are not configured at all. */
  lemma InlineAcceptsUnconfiguredName()
    ensures !FlywheelUtils.FindPhysioFiles(Analysis(Some(["scan_FitTrig.csv"])))
    ensures AnalysisHasPhysio(Analysis(Some(["scan_FitTrig.csv"])))
  {
    var name := "scan_FitTrig.csv";
    assert StartsWith(name[5..], "FitTrig");
    ContainsAt(name, "FitTrig");
    assert IsPhysioCsv(name);
    assert name in [name];
    forall p | p in Config.PhysioFilePatterns
      ensures Lower(p) != Lower(name)
    {
      assert Lower(p)[0] != Lower(name)[0];
    }
  }

  /** The inline check is case-sensitive: a lowercase name is not a physio CSV. */
  lemma InlineIsCaseSensitive()
    ensures IsPhysioCsv("PPG_FitData.csv")
    ensures !IsPhysioCsv("ppg_fitdata.csv")
  {
    PhysioName("PPG_FitData.csv");
    LowercasePhysioName("ppg_fitdata.csv");
  }

  lemma PhysioName(name: string)
    requires name == "PPG_FitData.csv"
    ensures IsPhysioCsv(name)
  {
    assert StartsWith(name[4..], "FitData");
    ContainsAt(name, "FitData");
  }

  lemma LowercasePhysioName(name: string)
    requires name == "ppg_fitdata.csv"
    ensures !IsPhysioCsv(name)
  {
    assert 'F' !in name;
    NotContainsMissingChar(name, "FitData", 0);
    NotContainsMissingChar(name, "FitTrig", 0);
  }
}
