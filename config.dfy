/** The constant tables of the configuration: subject aliases and physio file names. */
module Config {
  import opened Strings

  /** Raw subject codes that are counted as another subject. */
  const SubjectAliases: map<string, string> := map["s29-2" := "s29", "s19-2" := "s19", "s43-2" := "s43"]

  /** File names of the physio traces an analysis produces. */
  const PhysioFilePatterns: seq<string> := ["PPG_FItData.csv", "PPG_FItTrig.csv", "RESP_FItData.csv", "RESP_FItTrig.csv"]

  /** No alias chains: a canonical value is never itself an alias. */
  lemma NoAliasChains()
    ensures forall raw :: raw in SubjectAliases ==> SubjectAliases[raw] !in SubjectAliases
  {
  }

  /** Every alias is its canonical code with "-2" appended. */
  lemma AliasIsCanonicalWithSuffix()
    ensures forall raw :: raw in SubjectAliases ==> raw == SubjectAliases[raw] + "-2"
  {
  }

  /** No two aliases name the same canonical code. */
  lemma AliasValuesDistinct()
    ensures forall r1, r2 :: r1 in SubjectAliases && r2 in SubjectAliases && SubjectAliases[r1] == SubjectAliases[r2] ==> r1 == r2
  {
  }

  /** Every physio file name is a CSV file name. */
  lemma PatternsAreCsv()
    ensures forall p :: p in PhysioFilePatterns ==> EndsWith(p, ".csv")
  {
  }

  /** Every physio file name is a PPG or a RESP trace. */
  lemma PatternsArePpgOrResp()
    ensures forall p :: p in PhysioFilePatterns ==> StartsWith(p, "PPG_") || StartsWith(p, "RESP_")
  {
  }

  /** The four names stay pairwise distinct once lowercased. */
  lemma PatternsDistinctIgnoringCase()
    ensures forall i, j :: 0 <= i < j < |PhysioFilePatterns| ==> Lower(PhysioFilePatterns[i]) != Lower(PhysioFilePatterns[j])
  {
    var lowered := seq(4, i requires 0 <= i < 4 => Lower(PhysioFilePatterns[i]));
    // PPG and RESP names differ in their first letter, Data and Trig ones after the prefix.
    assert lowered[0][0] == lowered[1][0] == 'p' && lowered[2][0] == lowered[3][0] == 'r';
    assert lowered[0][7] == 'd' && lowered[1][7] == 't';
    assert lowered[2][8] == 'd' && lowered[3][8] == 't';
  }
}
