/** The configured physio detector of the archive utilities: an analysis has physio data
    when one of its file names equals one of the configured names, ignoring letter case. */
module FlywheelUtils {
  import opened Strings
  import opened Archive
  import opened Config

  /** Whether a configured name, lowercased, equals some file name, lowercased. */
  predicate MatchesConfiguredName(names: seq<string>)
  {
    exists p, name :: p in PhysioFilePatterns && name in names && Lower(p) == Lower(name)
  }

  /** The file names of a listing, lowercased and collected into a set. */
  function LoweredNames(names: seq<string>): set<string>
  {
    set name | name in names :: Lower(name)
  }

  /** The patterns are tried in order and the first one found among the lowercased names wins. */
  function AnyPatternIn(patterns: seq<string>, lowered: set<string>): (found: bool)
    ensures found <==> exists i :: 0 <= i < |patterns| && Lower(patterns[i]) in lowered
  {
    if patterns == [] then false
    else if Lower(patterns[0]) in lowered then true
    else AnyPatternIn(patterns[1..], lowered)
  }

  /** True when the analysis lists a file whose name equals a configured physio name
      up to letter case; false when the listing is missing or empty. */
  function FindPhysioFiles(analysis: Analysis): (found: bool)
    ensures found <==> analysis.files.Some? && MatchesConfiguredName(analysis.files.value)
    ensures analysis.files == None || analysis.files == Some([]) ==> !found
  {
    match analysis.files
    case None => false
    case Some(names) =>
      if names == [] then false
      else
        var lowered := LoweredNames(names);
        var found := AnyPatternIn(PhysioFilePatterns, lowered);
        assert found ==> MatchesConfiguredName(names) by {
          if found {
            var i :| 0 <= i < |PhysioFilePatterns| && Lower(PhysioFilePatterns[i]) in lowered;
            var name :| name in names && Lower(name) == Lower(PhysioFilePatterns[i]);
            assert PhysioFilePatterns[i] in PhysioFilePatterns;
          }
        }
        assert MatchesConfiguredName(names) ==> found by {
          if MatchesConfiguredName(names) {
            var p, name :| p in PhysioFilePatterns && name in names && Lower(p) == Lower(name);
            var i :| 0 <= i < |PhysioFilePatterns| && PhysioFilePatterns[i] == p;
            assert Lower(name) in lowered;
          }
        }
        found
  }

  /** The result depends only on the set of lowercased names: letter case, order and
      repetition of the file names never change it. */
  lemma {:induction false} FindPhysioFilesDependsOnLoweredNames(names1: seq<string>, names2: seq<string>)
    requires LoweredNames(names1) == LoweredNames(names2)
    ensures FindPhysioFiles(Analysis(Some(names1))) == FindPhysioFiles(Analysis(Some(names2)))
  {
    MatchesLoweredSubset(names1, names2);
    MatchesLoweredSubset(names2, names1);
  }

  /** Switching the letter case of any letters of any file names never changes the result. */
  lemma {:induction false} FindPhysioFilesIgnoresCase(names1: seq<string>, names2: seq<string>)
    requires |names1| == |names2|
    requires forall i :: 0 <= i < |names1| ==> SameUpToCase(names1[i], names2[i])
    ensures FindPhysioFiles(Analysis(Some(names1))) == FindPhysioFiles(Analysis(Some(names2)))
  {
    forall i | 0 <= i < |names1|
      ensures Lower(names1[i]) == Lower(names2[i])
    {
      LowerIgnoresCase(names1[i], names2[i]);
    }
    assert LoweredNames(names1) == LoweredNames(names2) by {
      forall l | l in LoweredNames(names1)
        ensures l in LoweredNames(names2)
      {
        var i :| 0 <= i < |names1| && Lower(names1[i]) == l;
        assert names2[i] in names2;
      }
      forall l | l in LoweredNames(names2)
        ensures l in LoweredNames(names1)
      {
        var i :| 0 <= i < |names2| && Lower(names2[i]) == l;
        assert names1[i] in names1;
      }
    }
    FindPhysioFilesDependsOnLoweredNames(names1, names2);
  }

  /** Adding file names never turns a match into a non-match. */
  lemma {:induction false} FindPhysioFilesMonotone(names1: seq<string>, names2: seq<string>)
    requires forall n :: n in names1 ==> n in names2
    requires FindPhysioFiles(Analysis(Some(names1)))
    ensures FindPhysioFiles(Analysis(Some(names2)))
  {
    MatchesLoweredSubset(names1, names2);
  }

  lemma {:induction false} MatchesLoweredSubset(names1: seq<string>, names2: seq<string>)
    requires LoweredNames(names1) <= LoweredNames(names2)
    ensures MatchesConfiguredName(names1) ==> MatchesConfiguredName(names2)
  {
    if MatchesConfiguredName(names1) {
      var p, name :| p in PhysioFilePatterns && name in names1 && Lower(p) == Lower(name);
      assert Lower(name) in LoweredNames(names1);
      assert Lower(name) in LoweredNames(names2);
      var other :| other in names2 && Lower(other) == Lower(name);
      assert p in PhysioFilePatterns && other in names2 && Lower(p) == Lower(other);
    }
  }

  /** Matching is exact: a name that merely contains a configured name does not match,
      while the configured name in another letter case does. */
  lemma FindPhysioFilesIsExact()
    ensures !FindPhysioFiles(Analysis(Some(["x_PPG_FItData.csv"])))
    ensures FindPhysioFiles(Analysis(Some(["notes.txt", "ppg_fitdata.CSV"])))
  {
    var lowered := Lower("ppg_fitdata.CSV");
    assert lowered == Lower(PhysioFilePatterns[0]);
    assert MatchesConfiguredName(["notes.txt", "ppg_fitdata.CSV"]) by {
      assert PhysioFilePatterns[0] in PhysioFilePatterns && "ppg_fitdata.CSV" in ["notes.txt", "ppg_fitdata.CSV"];
    }
    assert !MatchesConfiguredName(["x_PPG_FItData.csv"]) by {
      forall p | p in PhysioFilePatterns
        ensures Lower(p) != Lower("x_PPG_FItData.csv")
      {
        assert |Lower(p)| < |Lower("x_PPG_FItData.csv")|;
      }
    }
  }
}
